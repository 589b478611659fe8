/** The shared page cache: write-through, least recently used page out first. */
module BufferPools {
  import opened Pages
  import opened Pagers

  const DEFAULT_CAPACITY := 64

  /** A page of one of the registered files. */
  datatype Key = Key(fid: nat, page: nat)

  // ---------------------------------------------------------------- recency lists

  /** `s` with `k` taken out. */
  function Without(s: seq<Key>, k: Key): seq<Key> {
    if s == [] then [] else
    var rest := Without(s[..|s| - 1], k);
    if s[|s| - 1] == k then rest else rest + [s[|s| - 1]]
  }

  ghost predicate NoDup(s: seq<Key>) {
    forall i, j :: 0 <= i < j < |s| ==> s[i] != s[j]
  }

  lemma {:induction false} WithoutMember(s: seq<Key>, k: Key)
    ensures forall j :: j in Without(s, k) <==> j in s && j != k
    ensures k !in s ==> Without(s, k) == s
    ensures NoDup(s) ==> NoDup(Without(s, k))
    ensures NoDup(s) && k in s ==> |Without(s, k)| == |s| - 1
  {
    if s != [] {
      var init, last := s[..|s| - 1], s[|s| - 1];
      assert s == init + [last];
      WithoutMember(init, k);
      if NoDup(s) {
        InitMembers(s);
        assert last !in Without(init, k);
        assert last == k ==> k !in init;
      }
    }
  }

  /** Taking `k` out of a list and out of one of its prefixes. */
  lemma {:induction false} WithoutPrefix(s: seq<Key>, k: Key, n: nat)
    requires NoDup(s) && n <= |s|
    ensures k in s[..n] ==> 0 < n <= |Without(s, k)| + 1 && Without(s, k)[..n - 1] == Without(s[..n], k)
    ensures k !in s[..n] ==> n <= |Without(s, k)| && Without(s, k)[..n] == s[..n]
  {
    if n == |s| {
      assert s[..n] == s;
      WithoutMember(s, k);
    } else {
      var init, last := s[..|s| - 1], s[|s| - 1];
      assert init[..n] == s[..n];
      WithoutPrefix(init, k, n);
    }
  }

  lemma {:induction false} PushFrontNoDup(s: seq<Key>, k: Key)
    requires NoDup(s) && k !in s
    ensures NoDup([k] + s)
  {
  }

  lemma {:induction false} InitMembers(s: seq<Key>)
    requires NoDup(s) && s != []
    ensures NoDup(s[..|s| - 1])
    ensures forall k :: k in s[..|s| - 1] <==> k in s && k != s[|s| - 1]
  {
    assert s == s[..|s| - 1] + [s[|s| - 1]];
    assert s[|s| - 1] !in s[..|s| - 1];
  }

  // ---------------------------------------------------------------- the cache as a value

  /** The frames and their recency list, most recent first. */
  datatype Cache = Cache(capacity: nat, frames: map<Key, Page>, lru: seq<Key>) {
    /** The list and the map hold the same frames, once each, within capacity. */
    ghost predicate Valid() {
      && capacity > 0
      && NoDup(lru)
      && (forall k :: k in lru <==> k in frames)
      && |lru| == |frames| <= capacity
    }

    function Promote(k: Key): Cache {
      this.(lru := [k] + Without(lru, k))
    }

    function Add(k: Key, p: Page): Cache {
      this.(frames := frames[k := p], lru := [k] + lru)
    }

    function Drop(k: Key): Cache {
      this.(frames := frames - {k}, lru := Without(lru, k))
    }

    function EvictOne(): Cache {
      if lru == [] then this else
      this.(frames := frames - {lru[|lru| - 1]}, lru := lru[..|lru| - 1])
    }

    function MakeRoom(): Cache {
      if |frames| >= capacity then EvictOne() else this
    }

    /** After a page was written to disk. */
    function Update(k: Key, p: Page): Cache {
      if k in frames then this.(frames := frames[k := p]).Promote(k)
      else if |frames| < capacity then Add(k, p)
      else this
    }

    function Clear(fid: nat): Cache {
      this.(frames := map k | k in frames && k.fid != fid :: frames[k], lru := OtherFiles(lru, fid))
    }

    lemma {:induction false} PromoteValid(k: Key)
      requires Valid() && k in frames
      ensures Promote(k).Valid()
    {
      WithoutMember(lru, k);
      PushFrontNoDup(Without(lru, k), k);
    }

    lemma {:induction false} AddValid(k: Key, p: Page)
      requires Valid() && k !in frames && |frames| < capacity
      ensures Add(k, p).Valid()
    {
      PushFrontNoDup(lru, k);
    }

    lemma {:induction false} DropValid(k: Key)
      requires Valid() && k in frames
      ensures Drop(k).Valid()
    {
      WithoutMember(lru, k);
      assert frames.Keys == (frames - {k}).Keys + {k};
    }

    lemma {:induction false} MakeRoomValid()
      requires Valid()
      ensures MakeRoom().Valid() && |MakeRoom().frames| < capacity
      ensures forall k :: k in MakeRoom().frames ==> k in frames && MakeRoom().frames[k] == frames[k]
    {
      if |frames| >= capacity {
        InitMembers(lru);
        assert frames.Keys == (frames - {lru[|lru| - 1]}).Keys + {lru[|lru| - 1]};
      }
    }

    lemma {:induction false} UpdateValid(k: Key, p: Page)
      requires Valid()
      ensures Update(k, p).Valid()
    {
      if k in frames {
        assert frames[k := p].Keys == frames.Keys;
        this.(frames := frames[k := p]).PromoteValid(k);
      } else if |frames| < capacity {
        AddValid(k, p);
      }
    }

    lemma {:induction false} ClearValid(fid: nat)
      requires Valid()
      ensures Clear(fid).Valid()
    {
      OtherFilesMember(lru, fid);
      NoDupSize(lru, frames.Keys);
      NoDupSize(Clear(fid).lru, Clear(fid).frames.Keys);
      OtherFilesShorter(lru, fid);
    }
  }

  function OtherFiles(s: seq<Key>, fid: nat): seq<Key> {
    if s == [] then [] else
    OtherFiles(s[..|s| - 1], fid) + (if s[|s| - 1].fid == fid then [] else [s[|s| - 1]])
  }

  lemma {:induction false} OtherFilesMember(s: seq<Key>, fid: nat)
    ensures forall k :: k in OtherFiles(s, fid) <==> k in s && k.fid != fid
    ensures NoDup(s) ==> NoDup(OtherFiles(s, fid))
  {
    if s != [] {
      var init, last := s[..|s| - 1], s[|s| - 1];
      assert s == init + [last];
      assert NoDup(s) ==> last !in init;
      OtherFilesMember(init, fid);
    }
  }

  lemma {:induction false} OtherFilesShorter(s: seq<Key>, fid: nat)
    ensures |OtherFiles(s, fid)| <= |s|
  {
    if s != [] {
      OtherFilesShorter(s[..|s| - 1], fid);
    }
  }

  lemma {:induction false} NoDupSize(s: seq<Key>, keys: set<Key>)
    requires NoDup(s) && forall k :: k in s <==> k in keys
    ensures |s| == |keys|
  {
    if s == [] {
      assert keys == {};
    } else {
      var init, last := s[..|s| - 1], s[|s| - 1];
      assert s == init + [last];
      assert last !in init;
      NoDupSize(init, keys - {last});
    }
  }

  // ---------------------------------------------------------------- cache over disks

  /** The cache and the files registered with it. */
  datatype Shared = Shared(cache: Cache, disks: map<nat, Store>)

  datatype Op =
    | Fetch(fid: nat, id: nat)
    | Write(fid: nat, page: Page)
    | Allocate(fid: nat)
    | Free(fid: nat, id: nat)
    | Register(fid: nat, store: Store)
    | Unregister(fid: nat)

  datatype Out = Fetched(r: ReadResult) | Id(id: nat) | Freed(ok: bool) | Done

  /** What the operation does to the files when there is no cache. */
  function Direct(disks: map<nat, Store>, op: Op): (map<nat, Store>, Out)
    requires op.Write? || op.Allocate? || op.Free? ==> op.fid in disks
  {
    match op
    case Fetch(fid, id) => (disks, Fetched(if fid in disks then disks[fid].Read(id) else ReadError))
    case Write(fid, p) => (disks[fid := disks[fid].Write(p)], Done)
    case Allocate(fid) => (disks[fid := disks[fid].Allocate()], Id(disks[fid].alloc.NextId()))
    case Free(fid, id) =>
      if disks[fid].CanFree(id) then (disks[fid := disks[fid].Free(id)], Freed(true)) else (disks, Freed(false))
    case Register(fid, s) => (disks[fid := s], Done)
    case Unregister(fid) => (disks - {fid}, Done)
  }

  /** What the operation does to the cache. */
  function Cached(s: Shared, op: Op): (c: Cache) {
    match op
    case Fetch(fid, id) =>
      var k := Key(fid, id);
      if k in s.cache.frames then s.cache.Promote(k) else
      var room := s.cache.MakeRoom();
      if fid in s.disks && s.disks[fid].Read(id).Got? then room.Add(k, s.disks[fid].Read(id).page) else room
    case Write(fid, p) => s.cache.Update(Key(fid, p.id), p)
    case Allocate(_) => s.cache
    case Free(fid, id) => if Key(fid, id) in s.cache.frames then s.cache.Drop(Key(fid, id)) else s.cache
    case Register(_, _) => s.cache
    case Unregister(fid) => s.cache.Clear(fid)
  }

  /** The operation as the pool performs it: a hit is answered from the frame. */
  function Perform(s: Shared, op: Op): (Shared, Out)
    requires op.Write? || op.Allocate? || op.Free? ==> op.fid in s.disks
  {
    var (disks, out) := Direct(s.disks, op);
    var answer := if op.Fetch? && Key(op.fid, op.id) in s.cache.frames
      then Fetched(Got(s.cache.frames[Key(op.fid, op.id)])) else out;
    (Shared(Cached(s, op), disks), answer)
  }

  /** A frame agrees with the page on disk. */
  predicate Agrees(disks: map<nat, Store>, k: Key, p: Page) {
    k.fid in disks && disks[k.fid].Read(k.page) == Got(p)
  }

  ghost predicate Coherent(s: Shared) {
    forall k :: k in s.cache.frames ==> Agrees(s.disks, k, s.cache.frames[k])
  }

  lemma {:induction false} CachedValid(s: Shared, op: Op)
    requires s.cache.Valid()
    ensures Cached(s, op).Valid()
  {
    match op
    case Fetch(fid, id) =>
      if Key(fid, id) in s.cache.frames {
        s.cache.PromoteValid(Key(fid, id));
      } else {
        s.cache.MakeRoomValid();
        var r := s.cache.MakeRoom();
        if fid in s.disks && s.disks[fid].Read(id).Got? {
          r.AddValid(Key(fid, id), s.disks[fid].Read(id).page);
        }
      }
    case Write(fid, p) => s.cache.UpdateValid(Key(fid, p.id), p);
    case Allocate(_) =>
    case Free(fid, id) => if Key(fid, id) in s.cache.frames { s.cache.DropValid(Key(fid, id)); }
    case Register(_, _) =>
    case Unregister(fid) => s.cache.ClearValid(fid);
  }

  // ---------------------------------------------------------------- exactly when coherence survives

  lemma {:induction false} FetchCoherent(s: Shared, fid: nat, id: nat)
    requires Coherent(s) && s.cache.Valid()
    ensures Coherent(Perform(s, Fetch(fid, id)).0)
  {
    hide Cached, Store.Valid, Store.Read, Cache.Valid;
    var s' := Perform(s, Fetch(fid, id)).0;
    forall k | k in s'.cache.frames ensures Agrees(s'.disks, k, s'.cache.frames[k]) {
      FrameAfter(s, Fetch(fid, id), k);
    }
  }

  /** Writing through keeps the cache coherent unless the page lies past the end of the file
      and there is room to cache it. */
  lemma {:induction false} WriteCoherentIff(s: Shared, fid: nat, p: Page)
    requires Coherent(s) && fid in s.disks
    ensures Coherent(Perform(s, Write(fid, p)).0) <==> p.id < s.disks[fid].alloc.total || |s.cache.frames| >= s.cache.capacity
  {
    var s' := Perform(s, Write(fid, p)).0;
    var k := Key(fid, p.id);
    forall j | j in s'.cache.frames && j != k ensures Agrees(s'.disks, j, s'.cache.frames[j]) {
      assert Agrees(s.disks, j, s.cache.frames[j]);
    }
    if k in s.cache.frames {
      assert Agrees(s.disks, k, s.cache.frames[k]);
    }
    if k in s'.cache.frames {
      assert Agrees(s'.disks, k, s'.cache.frames[k]) <==> p.id < s.disks[fid].alloc.total;
    }
  }

  /** Allocation writes the meta page and the new page underneath the cache, so it keeps the cache
      coherent exactly when neither is cached with other content. */
  lemma {:induction false} AllocateCoherentIff(s: Shared, fid: nat)
    requires Coherent(s) && fid in s.disks && s.disks[fid].Valid()
    ensures Coherent(Perform(s, Allocate(fid)).0) <==>
      var k := Key(fid, s.disks[fid].alloc.NextId());
      Key(fid, META_PAGE) !in s.cache.frames && (k in s.cache.frames ==> s.cache.frames[k] == NewPage(k.page, DataKind))
  {
    var s', d := Perform(s, Allocate(fid)).0, s.disks[fid];
    var m, k := Key(fid, META_PAGE), Key(fid, d.alloc.NextId());
    d.alloc.TakeExact();
    if m in s.cache.frames {
      assert Agrees(s.disks, m, s.cache.frames[m]);
      assert d.Allocate().file[META_PAGE] != d.file[META_PAGE];
      assert !Agrees(s'.disks, m, s'.cache.frames[m]);
    }
    if k in s.cache.frames {
      assert Agrees(s.disks, k, s.cache.frames[k]);
      assert Agrees(s'.disks, k, s'.cache.frames[k]) <==> s.cache.frames[k] == NewPage(k.page, DataKind);
    }
    forall j | j in s'.cache.frames && j != k && j != m ensures Agrees(s'.disks, j, s'.cache.frames[j]) {
      assert Agrees(s.disks, j, s.cache.frames[j]);
    }
  }

  /** Freeing evicts the page first, so only a cached meta page can go stale. */
  lemma {:induction false} FreeCoherentIff(s: Shared, fid: nat, id: nat)
    requires Coherent(s) && fid in s.disks && s.disks[fid].Valid()
    ensures Coherent(Perform(s, Op.Free(fid, id)).0) <==> Key(fid, META_PAGE) !in s.cache.frames || !s.disks[fid].CanFree(id)
  {
    var s', d := Perform(s, Op.Free(fid, id)).0, s.disks[fid];
    var m := Key(fid, META_PAGE);
    if m in s.cache.frames && d.CanFree(id) {
      assert Agrees(s.disks, m, s.cache.frames[m]);
      assert d.Free(id).file[META_PAGE] != d.file[META_PAGE];
      assert !Agrees(s'.disks, m, s'.cache.frames[m]);
    }
    forall j | j in s'.cache.frames && j != m ensures Agrees(s'.disks, j, s'.cache.frames[j]) {
      assert Agrees(s.disks, j, s.cache.frames[j]);
    }
  }

  // ---------------------------------------------------------------- runs

  /** The operations of a tree: they touch allocated pages only and register a file under a free id. */
  ghost predicate Legal(disks: map<nat, Store>, op: Op) {
    match op
    case Fetch(fid, id) => fid in disks && id < disks[fid].alloc.total ==> disks[fid].InUse(id)
    case Write(fid, p) => fid in disks && disks[fid].InUse(p.id)
    case Allocate(fid) => fid in disks
    case Free(fid, id) => fid in disks && (disks[fid].CanFree(id) ==> disks[fid].InUse(id))
    case Register(fid, store) => fid !in disks && store.Valid()
    case Unregister(fid) => true
  }

  ghost predicate AllValid(disks: map<nat, Store>) {
    forall f :: f in disks ==> disks[f].Valid()
  }

  /** A frame holds the disk's content of a page in use. */
  ghost predicate Sound(disks: map<nat, Store>, k: Key, p: Page) {
    Agrees(disks, k, p) && disks[k.fid].InUse(k.page)
  }

  ghost predicate Inv(s: Shared) {
    && s.cache.Valid()
    && AllValid(s.disks)
    && forall k :: k in s.cache.frames ==> Sound(s.disks, k, s.cache.frames[k])
  }

  lemma {:induction false} DirectValid(disks: map<nat, Store>, op: Op)
    requires AllValid(disks) && Legal(disks, op)
    ensures AllValid(Direct(disks, op).0)
  {
    match op
    case Allocate(fid) => AllocateKeeps(disks[fid]);
    case Free(fid, id) => if disks[fid].CanFree(id) { FreeKeeps(disks[fid], id); }
    case _ =>
  }

  /** A frame other than the one written or freed stays sound. */
  lemma {:induction false} SoundStays(disks: map<nat, Store>, op: Op, k: Key, p: Page)
    requires AllValid(disks) && Legal(disks, op) && Sound(disks, k, p)
    requires op.Write? ==> k != Key(op.fid, op.page.id)
    requires op.Free? ==> k != Key(op.fid, op.id)
    requires op.Unregister? ==> k.fid != op.fid
    ensures Sound(Direct(disks, op).0, k, p)
  {
    match op
    case Allocate(fid) => AllocateKeeps(disks[fid]);
    case Free(fid, id) => if disks[fid].CanFree(id) { FreeKeeps(disks[fid], id); }
    case _ =>
  }

  /** Where each frame after the operation comes from. */
  lemma {:induction false} FrameAfter(s: Shared, op: Op, k: Key)
    requires s.cache.Valid() && k in Cached(s, op).frames
    ensures op.Fetch? && k == Key(op.fid, op.id) && k !in s.cache.frames ==> op.fid in s.disks && s.disks[op.fid].Read(op.id) == Got(Cached(s, op).frames[k])
    ensures op.Write? && k == Key(op.fid, op.page.id) ==> Cached(s, op).frames[k] == op.page
    ensures !(op.Fetch? && k == Key(op.fid, op.id)) && !(op.Write? && k == Key(op.fid, op.page.id)) ==> k in s.cache.frames
    ensures !(op.Write? && k == Key(op.fid, op.page.id)) && k in s.cache.frames ==> Cached(s, op).frames[k] == s.cache.frames[k]
    ensures op.Free? ==> k != Key(op.fid, op.id)
    ensures op.Unregister? ==> k.fid != op.fid
  {
    hide Without, OtherFiles, Store.Read;
    s.cache.MakeRoomValid();
    hide Cache.Valid, Cache.MakeRoom;
  }

  lemma {:induction false} FrameSound(s: Shared, op: Op, k: Key)
    requires Inv(s) && Legal(s.disks, op) && k in Cached(s, op).frames
    ensures Sound(Direct(s.disks, op).0, k, Cached(s, op).frames[k])
  {
    hide Cached, Store.Valid, Store.Allocate, Store.Free, Cache.Valid;
    FrameAfter(s, op, k);
    if op.Write? && k == Key(op.fid, op.page.id) {
      assert AllValid(s.disks);
    } else if k in s.cache.frames {
      SoundStays(s.disks, op, k, s.cache.frames[k]);
    } else {
      assert s.disks[op.fid].Read(op.id).Got?;
    }
  }

  /** Every operation keeps the cache sound, and is answered as the files alone would answer it. */
  lemma {:induction false} StepKeeps(s: Shared, op: Op)
    requires Inv(s) && Legal(s.disks, op)
    ensures Inv(Perform(s, op).0)
    ensures Perform(s, op).0.disks == Direct(s.disks, op).0 && Perform(s, op).1 == Direct(s.disks, op).1
  {
    hide Cached, Store.Valid, Store.Allocate, Store.Free, Cache.Valid;
    CachedValid(s, op);
    DirectValid(s.disks, op);
    if op.Fetch? && Key(op.fid, op.id) in s.cache.frames {
      assert Sound(s.disks, Key(op.fid, op.id), s.cache.frames[Key(op.fid, op.id)]);
    }
    forall k | k in Cached(s, op).frames ensures Sound(Direct(s.disks, op).0, k, Cached(s, op).frames[k]) {
      FrameSound(s, op, k);
    }
  }

  ghost predicate LegalRun(disks: map<nat, Store>, ops: seq<Op>)
    decreases |ops|, 0
  {
    ops == [] || (LegalRun(disks, ops[..|ops| - 1]) && Legal(DirectRun(disks, ops[..|ops| - 1]).0, ops[|ops| - 1]))
  }

  ghost function DirectRun(disks: map<nat, Store>, ops: seq<Op>): (map<nat, Store>, seq<Out>)
    requires LegalRun(disks, ops)
    decreases |ops|, 1
  {
    if ops == [] then (disks, []) else
    var (d, outs) := DirectRun(disks, ops[..|ops| - 1]);
    var (d', out) := Direct(d, ops[|ops| - 1]);
    (d', outs + [out])
  }

  /** The same run through the pool. */
  ghost function PoolRun(s: Shared, ops: seq<Op>): (r: (Shared, seq<Out>))
    requires Inv(s) && LegalRun(s.disks, ops)
    ensures Inv(r.0)
    ensures (r.0.disks, r.1) == DirectRun(s.disks, ops)
  {
    if ops == [] then (s, []) else
    var (s1, outs) := PoolRun(s, ops[..|ops| - 1]);
    StepKeeps(s1, ops[|ops| - 1]);
    var (s2, out) := Perform(s1, ops[|ops| - 1]);
    (s2, outs + [out])
  }

  /** The cache is transparent: over every run on allocated pages, from an empty pool, each answer
      and the files are those of the same run without a cache; every frame equals its page on
      disk, list and map agree without duplicates, and the size stays within capacity. */
  lemma {:induction false} PoolTransparent(capacity: nat, ops: seq<Op>)
    requires capacity > 0 && LegalRun(map[], ops)
    ensures var s := Shared(Cache(capacity, map[], []), map[]);
      && Inv(s)
      && var (s', outs) := PoolRun(s, ops);
        && (s'.disks, outs) == DirectRun(map[], ops)
        && Coherent(s') && s'.cache.Valid()
  {
    var s := Shared(Cache(capacity, map[], []), map[]);
    assert Inv(s);
    var s' := PoolRun(s, ops).0;
    forall k | k in s'.cache.frames ensures Agrees(s'.disks, k, s'.cache.frames[k]) {
      assert Sound(s'.disks, k, s'.cache.frames[k]);
    }
  }

  // ---------------------------------------------------------------- least recently used

  /** The distinct pages of a fetch history, most recently fetched first. */
  function Recency(h: seq<Key>): seq<Key> {
    if h == [] then [] else
    var last := h[|h| - 1];
    [last] + Without(Recency(h[..|h| - 1]), last)
  }

  lemma {:induction false} RecencyMember(h: seq<Key>)
    ensures NoDup(Recency(h)) && forall k :: k in Recency(h) <==> k in h
  {
    if h != [] {
      var init, last := h[..|h| - 1], h[|h| - 1];
      assert h == init + [last];
      RecencyMember(init);
      WithoutMember(Recency(init), last);
      PushFrontNoDup(Without(Recency(init), last), last);
    }
  }

  /** `i` is the position of the last fetch of `k`. */
  predicate LastAt(h: seq<Key>, k: Key, i: nat) {
    i < |h| && h[i] == k && forall j :: i < j < |h| ==> h[j] != k
  }

  /** `a` stands before `b` in the list. */
  predicate Before(s: seq<Key>, a: Key, b: Key) {
    exists i, j :: 0 <= i < j < |s| && s[i] == a && s[j] == b
  }

  lemma {:induction false} BeforeGrows(s: seq<Key>, x: Key, a: Key, b: Key)
    ensures Before(s, a, b) ==> Before(s + [x], a, b) && Before([x] + s, a, b)
    ensures a in s ==> Before(s + [x], a, x)
    ensures b in s ==> Before([x] + s, x, b)
  {
    if Before(s, a, b) {
      var i, j :| 0 <= i < j < |s| && s[i] == a && s[j] == b;
      assert (s + [x])[i] == a && (s + [x])[j] == b;
      assert ([x] + s)[i + 1] == a && ([x] + s)[j + 1] == b;
    }
    if a in s {
      var i :| 0 <= i < |s| && s[i] == a;
      assert (s + [x])[i] == a && (s + [x])[|s|] == x;
    }
    if b in s {
      var i :| 0 <= i < |s| && s[i] == b;
      assert ([x] + s)[0] == x && ([x] + s)[i + 1] == b;
    }
  }

  lemma {:induction false} WithoutOrder(s: seq<Key>, k: Key, a: Key, b: Key)
    requires a != k && b != k && Before(s, a, b)
    ensures Before(Without(s, k), a, b)
  {
    var i, j :| 0 <= i < j < |s| && s[i] == a && s[j] == b;
    var init, last := s[..|s| - 1], s[|s| - 1];
    WithoutMember(init, k);
    BeforeGrows(Without(init, k), last, a, b);
    assert init[i] == a;
    if j < |s| - 1 {
      assert init[j] == b;
      WithoutOrder(init, k, a, b);
    }
  }

  /** The list is ordered by the last fetch of each page. */
  lemma {:induction false} RecencyOrder(h: seq<Key>, a: Key, i: nat, b: Key, j: nat)
    requires LastAt(h, a, i) && LastAt(h, b, j) && j < i
    ensures Before(Recency(h), a, b)
  {
    hide Before, Without;
    var init, last := h[..|h| - 1], h[|h| - 1];
    var w := Without(Recency(init), last);
    BeforeGrows(w, last, a, b);
    assert LastAt(init, b, j) && last != b;
    if i == |h| - 1 {
      RecencyMember(init);
      WithoutMember(Recency(init), last);
    } else {
      assert LastAt(init, a, i);
      RecencyOrder(init, a, i, b, j);
      WithoutOrder(Recency(init), last, a, b);
    }
  }

  function Newest(s: seq<Key>, n: nat): seq<Key> {
    if |s| <= n then s else s[..n]
  }

  /** Fetching every page of the history, one after the other. */
  function Fetches(s: Shared, h: seq<Key>): Shared {
    if h == [] then s else
    Perform(Fetches(s, h[..|h| - 1]), Fetch(h[|h| - 1].fid, h[|h| - 1].page)).0
  }

  predicate Readable(disks: map<nat, Store>, k: Key) {
    k.fid in disks && disks[k.fid].Read(k.page).Got?
  }

  lemma {:induction false} NewestStep(r: seq<Key>, k: Key, n: nat, list: seq<Key>)
    requires n > 0 && NoDup(r) && list == Newest(r, n)
    ensures k in list ==> [k] + Without(list, k) == Newest([k] + Without(r, k), n)
    ensures k !in list && |list| < n ==> [k] + list == Newest([k] + Without(r, k), n)
    ensures k !in list && |list| == n ==> [k] + list[..n - 1] == Newest([k] + Without(r, k), n)
  {
    hide Without, NoDup;
    WithoutMember(r, k);
    var m := |list|;
    assert r[..m] == list;
    WithoutPrefix(r, k, m);
    if |r| > n && k in list {
      assert ([k] + Without(r, k))[..n] == [k] + Without(r, k)[..n - 1];
    }
  }

  /** Over any run of successful fetches from an empty pool, the pool holds exactly the
      `capacity` most recently fetched distinct pages, in order of recency. */
  lemma {:induction false} HoldsMostRecent(capacity: nat, disks: map<nat, Store>, h: seq<Key>)
    requires capacity > 0 && forall k :: k in h ==> Readable(disks, k)
    ensures var s := Fetches(Shared(Cache(capacity, map[], []), disks), h);
      && s.disks == disks && s.cache.Valid() && s.cache.capacity == capacity
      && s.cache.lru == Newest(Recency(h), capacity)
      && forall k :: k in s.cache.frames <==> k in Newest(Recency(h), capacity)
  {
    if h != [] {
      var init, k := h[..|h| - 1], h[|h| - 1];
      assert Readable(disks, k);
      HoldsMostRecent(capacity, disks, init);
      var s := Fetches(Shared(Cache(capacity, map[], []), disks), init);
      RecencyMember(init);
      hide Without, Recency;
      NewestStep(Recency(init), k, capacity, s.cache.lru);
      CachedValid(s, Fetch(k.fid, k.page));
    }
  }

  /** A larger pool holds everything a smaller one holds after the same fetches. */
  lemma {:induction false} LargerHoldsMore(small: nat, large: nat, disks: map<nat, Store>, h: seq<Key>)
    requires 0 < small <= large && forall k :: k in h ==> Readable(disks, k)
    ensures Fetches(Shared(Cache(small, map[], []), disks), h).cache.frames.Keys
      <= Fetches(Shared(Cache(large, map[], []), disks), h).cache.frames.Keys
  {
    HoldsMostRecent(small, disks, h);
    HoldsMostRecent(large, disks, h);
  }

  // ---------------------------------------------------------------- fetches and writes

  /** Fetches of pages that are there, and writes. */
  predicate FetchesOrWrites(disks: map<nat, Store>, ops: seq<Op>) {
    forall op :: op in ops ==> (op.Fetch? && Readable(disks, Key(op.fid, op.id))) || (op.Write? && op.fid in disks)
  }

  /** The operations one after the other. */
  ghost function Performed(s: Shared, ops: seq<Op>): (t: Shared)
    requires forall op :: op in ops ==> op.Fetch? || (op.Write? && op.fid in s.disks)
    ensures t.disks.Keys == s.disks.Keys
  {
    if ops == [] then s else Perform(Performed(s, ops[..|ops| - 1]), ops[|ops| - 1]).0
  }

  /** The pages used, in order: fetched ones, and written ones unless the pool is full without them. */
  function Used(ops: seq<Op>, capacity: nat): (h: seq<Key>) {
    if ops == [] then [] else
    var h, op := Used(ops[..|ops| - 1], capacity), ops[|ops| - 1];
    if op.Fetch? then h + [Key(op.fid, op.id)]
    else if op.Write? && (Key(op.fid, op.page.id) in Newest(Recency(h), capacity) || |Recency(h)| < capacity)
    then h + [Key(op.fid, op.page.id)] else h
  }

  lemma {:induction false} StaysReadable(s: Shared, ops: seq<Op>, k: Key)
    requires FetchesOrWrites(s.disks, ops) && Readable(s.disks, k)
    ensures Readable(Performed(s, ops).disks, k)
  {
    if ops != [] {
      StaysReadable(s, ops[..|ops| - 1], k);
    }
  }

  lemma {:induction false} RecencySnoc(h: seq<Key>, k: Key)
    ensures Recency(h + [k]) == [k] + Without(Recency(h), k)
  {
    assert (h + [k])[..|h|] == h;
  }

  /** Over any run of fetches and writes from an empty pool, the pool holds exactly the `capacity` most
      recently used distinct pages, in order of recency. */
  lemma {:induction false} HoldsMostRecentlyUsed(capacity: nat, disks: map<nat, Store>, ops: seq<Op>)
    requires capacity > 0 && FetchesOrWrites(disks, ops)
    ensures var c := Performed(Shared(Cache(capacity, map[], []), disks), ops).cache;
      && c.Valid() && c.capacity == capacity
      && c.lru == Newest(Recency(Used(ops, capacity)), capacity)
      && forall k :: k in c.frames <==> k in Newest(Recency(Used(ops, capacity)), capacity)
  {
    if ops != [] {
      var init, op := ops[..|ops| - 1], ops[|ops| - 1];
      assert FetchesOrWrites(disks, init) && op in ops;
      var start := Shared(Cache(capacity, map[], []), disks);
      HoldsMostRecentlyUsed(capacity, disks, init);
      var s, h := Performed(start, init), Used(init, capacity);
      var k := Key(op.fid, if op.Fetch? then op.id else op.page.id);
      RecencyMember(h);
      RecencySnoc(h, k);
      if op.Fetch? {
        StaysReadable(start, init, k);
      }
      hide *;
      UseStep(s, op, Recency(h), k);
      UsedStep(ops, capacity);
      PerformedStep(start, ops);
    }
  }

  /** One fetch or write: the list of the newest pages, with this one in front if it is used. */
  lemma {:induction false} UseStep(s: Shared, op: Op, r: seq<Key>, k: Key)
    requires s.cache.Valid() && NoDup(r) && s.cache.lru == Newest(r, s.cache.capacity)
    requires (op.Fetch? && k == Key(op.fid, op.id) && Readable(s.disks, k)) || (op.Write? && k == Key(op.fid, op.page.id))
    ensures var c, n := Cached(s, op), s.cache.capacity;
      && c.Valid() && c.capacity == n
      && c.lru == (if op.Fetch? || k in Newest(r, n) || |r| < n then Newest([k] + Without(r, k), n) else Newest(r, n))
      && forall j :: j in c.frames <==> j in c.lru
  {
    CachedValid(s, op);
    hide Without, NoDup;
    NewestStep(r, k, s.cache.capacity, s.cache.lru);
  }

  lemma {:induction false} UsedStep(ops: seq<Op>, capacity: nat)
    requires ops != []
    ensures var h, op := Used(ops[..|ops| - 1], capacity), ops[|ops| - 1];
      && (op.Fetch? ==> Used(ops, capacity) == h + [Key(op.fid, op.id)])
      && (op.Write? ==> var k := Key(op.fid, op.page.id);
          Used(ops, capacity) == if k in Newest(Recency(h), capacity) || |Recency(h)| < capacity then h + [k] else h)
  {
  }

  lemma {:induction false} PerformedStep(s: Shared, ops: seq<Op>)
    requires ops != [] && forall op :: op in ops ==> op.Fetch? || (op.Write? && op.fid in s.disks)
    ensures Performed(s, ops).cache == Cached(Performed(s, ops[..|ops| - 1]), ops[|ops| - 1])
  {
  }

  // ---------------------------------------------------------------- the pool

  class Pool {
    const capacity: nat
    var frames: map<Key, Page>
    var lru: seq<Key>
    var files: map<nat, Pager>
    var nextFID: nat

    ghost function Frames(): Cache
      reads this
    {
      Cache(capacity, frames, lru)
    }

    ghost function Disks(): map<nat, Store>
      reads this, files.Values
    {
      map f | f in files :: Store(files[f].file, files[f].State())
    }

    ghost function State(): Shared
      reads this, files.Values
    {
      Shared(Frames(), Disks())
    }

    constructor (capacity: int)
      ensures this.capacity == if capacity <= 0 then DEFAULT_CAPACITY else capacity
      ensures State() == Shared(Cache(this.capacity, map[], []), map[]) && Frames().Valid() && nextFID == 0
    {
      this.capacity := if capacity <= 0 then DEFAULT_CAPACITY else capacity;
      frames, lru, files, nextFID := map[], [], map[], 0;
    }

    /** Numbers files with a 16-bit counter. */
    method Register(pg: Pager) returns (fid: nat)
      modifies `files, `nextFID
      ensures fid == old(nextFID) && nextFID == (fid + 1) % 0x1_0000
      ensures files == old(files)[fid := pg]
      ensures State() == Perform(old(State()), Op.Register(fid, Store(pg.file, pg.State()))).0
    {
      fid := nextFID;
      nextFID := (nextFID + 1) % 0x1_0000;
      files := files[fid := pg];
    }

    method Unregister(fid: nat)
      requires Frames().Valid()
      modifies `frames, `lru, `files
      ensures State() == Perform(old(State()), Op.Unregister(fid)).0
    {
      hide Without, OtherFiles, Cache.Clear, Cache.Valid;
      EvictFile(fid);
      files := files - {fid};
      assert Disks() == old(Disks()) - {fid};
    }

    /** Drops every frame of a file, in any order. */
    method EvictFile(fid: nat)
      requires Frames().Valid()
      modifies `frames, `lru
      ensures Frames() == old(Frames()).Clear(fid)
    {
      hide Without, OtherFiles, Keep, Cache.Clear;
      var rest := frames.Keys;
      ghost var was := Frames();
      ghost var gone: set<Key> := {};
      KeepAll(lru);
      assert frames == was.frames - gone;
      while rest != {}
        invariant rest <= was.frames.Keys
        invariant forall k :: k in gone <==> k in was.frames && k !in rest && k.fid == fid
        invariant frames == was.frames - gone
        invariant lru == Keep(was.lru, gone)
        decreases rest
      {
        var k :| k in rest;
        rest := rest - {k};
        if k.fid == fid {
          KeepOneLess(was.lru, gone, k);
          DropOneMore(was.frames, gone, k);
          lru := Without(lru, k);
          frames := frames - {k};
          gone := gone + {k};
        }
      }
      ClearIsKeep(was, gone, fid);
    }

    /** Answers from the frame, else makes room and reads the file; the room is made even when
        the read then fails. */
    method FetchPage(fid: nat, id: nat) returns (r: ReadResult)
      requires Frames().Valid()
      modifies `frames, `lru
      ensures Frames() == Cached(old(State()), Fetch(fid, id))
      ensures Fetched(r) == Perform(old(State()), Fetch(fid, id)).1
    {
      hide Without;
      var k := Key(fid, id);
      if k in frames {
        lru := [k] + Without(lru, k);
        return Got(frames[k]);
      }
      if |frames| >= capacity {
        var last := lru[|lru| - 1];
        lru := lru[..|lru| - 1];
        frames := frames - {last};
      }
      assert Frames() == old(Frames()).MakeRoom();
      if fid !in files {
        return ReadError;
      }
      r := files[fid].ReadPage(id);
      assert r == old(Disks())[fid].Read(id);
      if r.Got? {
        frames := frames[k := r.page];
        lru := [k] + lru;
      }
    }

    method UpdatePage(fid: nat, p: Page)
      modifies `frames, `lru
      ensures Frames() == old(Frames()).Update(Key(fid, p.id), p)
    {
      var k := Key(fid, p.id);
      if k in frames {
        frames := frames[k := p];
        lru := [k] + Without(lru, k);
        return;
      }
      if |frames| < capacity {
        frames := frames[k := p];
        lru := [k] + lru;
      }
    }

    method EvictPage(fid: nat, id: nat)
      modifies `frames, `lru
      ensures Frames() == if Key(fid, id) in old(frames) then old(Frames()).Drop(Key(fid, id)) else old(Frames())
    {
      var k := Key(fid, id);
      if k in frames {
        lru := Without(lru, k);
        frames := frames - {k};
      }
    }
  }

  /** `s` without the members of `gone`, in the same order. */
  function Keep(s: seq<Key>, gone: set<Key>): seq<Key> {
    if s == [] then [] else
    Keep(s[..|s| - 1], gone) + (if s[|s| - 1] in gone then [] else [s[|s| - 1]])
  }

  lemma {:induction false} KeepAll(s: seq<Key>)
    ensures Keep(s, {}) == s
  {
    if s != [] {
      KeepAll(s[..|s| - 1]);
    }
  }

  lemma {:induction false} KeepOneLess(s: seq<Key>, gone: set<Key>, k: Key)
    ensures Without(Keep(s, gone), k) == Keep(s, gone + {k})
  {
    if s != [] {
      var init, last := s[..|s| - 1], s[|s| - 1];
      KeepOneLess(init, gone, k);
      var kept := Keep(init, gone);
      assert kept + [] == kept && (kept + [last])[..|kept|] == kept;
    }
  }

  lemma {:induction false} DropOneMore(f: map<Key, Page>, gone: set<Key>, k: Key)
    ensures f - gone - {k} == f - (gone + {k})
  {
  }

  lemma {:induction false} ClearIsKeep(c: Cache, gone: set<Key>, fid: nat)
    requires c.Valid() && forall k :: k in gone <==> k in c.frames && k.fid == fid
    ensures c.Clear(fid) == c.(frames := c.frames - gone, lru := Keep(c.lru, gone))
  {
    KeepIsOtherFiles(c.lru, gone, fid);
    assert c.Clear(fid).frames == c.frames - gone;
  }

  lemma {:induction false} KeepIsOtherFiles(s: seq<Key>, gone: set<Key>, fid: nat)
    requires forall k :: k in s ==> (k in gone <==> k.fid == fid)
    ensures Keep(s, gone) == OtherFiles(s, fid)
  {
    if s != [] {
      KeepIsOtherFiles(s[..|s| - 1], gone, fid);
    }
  }

  /** One table file seen through the shared pool. */
  class BufPager {
    const pool: Pool
    const pg: Pager
    const fid: nat

    /** The file is registered under this id and no other. */
    ghost predicate Registered()
      reads pool
    {
      && fid in pool.files && pool.files[fid] == pg
      && forall f :: f in pool.files && f != fid ==> pool.files[f] != pg
    }

    constructor (pool: Pool, pg: Pager, fid: nat)
      ensures this.pool == pool && this.pg == pg && this.fid == fid
    {
      this.pool, this.pg, this.fid := pool, pg, fid;
    }

    method ReadPage(id: nat) returns (r: ReadResult)
      requires Registered() && pool.Frames().Valid()
      modifies pool
      ensures Registered() && pool.files == old(pool.files)
      ensures (pool.State(), Fetched(r)) == Perform(old(pool.State()), Fetch(fid, id))
    {
      hide Cached;
      r := pool.FetchPage(fid, id);
      assert pool.Disks() == old(pool.Disks());
    }

    method WritePage(p: Page)
      requires Registered()
      modifies pool, pg
      ensures Registered() && pool.files == old(pool.files)
      ensures pool.State() == Perform(old(pool.State()), Op.Write(fid, p)).0
    {
      ghost var before := pool.Disks();
      pg.WritePage(p);
      assert pool.Disks() == before[fid := before[fid].Write(p)];
      pool.UpdatePage(fid, p);
    }

    method AllocatePage() returns (id: nat)
      requires Registered() && pg.Valid()
      modifies pg
      ensures pg.Valid() && (pool.State(), Id(id)) == Perform(old(pool.State()), Op.Allocate(fid))
    {
      ghost var before := pool.Disks();
      id := pg.AllocatePage();
      assert pool.Disks() == before[fid := before[fid].Allocate()];
    }

    method FreePage(id: nat) returns (ok: bool)
      requires Registered() && |pg.freeList| <= MAX_FREE
      modifies pool, pg
      ensures Registered() && pool.files == old(pool.files)
      ensures (pool.State(), Freed(ok)) == Perform(old(pool.State()), Op.Free(fid, id))
    {
      ghost var before := pool.Disks();
      pool.EvictPage(fid, id);
      ok := pg.FreePage(id);
      if ok {
        assert pool.Disks() == before[fid := before[fid].Free(id)];
      } else {
        assert pool.Disks() == before;
      }
    }
  }
}
