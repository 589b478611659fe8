/** The transaction-buffered view of a pager: writes stay in memory until Flush. */
module TxPagers {
  import opened Seqs
  import opened Pages
  import opened Pagers

  // ---------------------------------------------------------------- operations

  datatype Op = ReadOp(id: nat) | WriteOp(page: Page) | AllocateOp

  datatype Out = Fetched(r: ReadResult) | Done | Id(id: nat)

  /** The operation on the pager itself. */
  function Direct(s: Store, op: Op): (Store, Out) {
    match op
    case ReadOp(id) => (s, Fetched(s.Read(id)))
    case WriteOp(p) => (s.Write(p), Done)
    case AllocateOp => (s.Allocate(), Id(s.alloc.NextId()))
  }

  /** A transaction's state: the pager below, the buffered pages and the pages it allocated. */
  datatype Buffered = Buffered(base: Store, dirty: map<nat, Page>, taken: seq<nat>) {
    /** The store a reader of the transaction sees. */
    function View(): Store {
      Store(base.file + dirty, base.alloc)
    }

    function Read(id: nat): ReadResult {
      if id in dirty then Got(dirty[id]) else base.Read(id)
    }
  }

  /** The operation through the buffer. */
  function Through(t: Buffered, op: Op): (Buffered, Out) {
    match op
    case ReadOp(id) => (t, Fetched(t.Read(id)))
    case WriteOp(p) => (t.(dirty := t.dirty[p.id := p]), Done)
    case AllocateOp =>
      (t.(base := t.base.Allocate(), taken := t.taken + [t.base.alloc.NextId()]), Id(t.base.alloc.NextId()))
  }

  // ---------------------------------------------------------------- faithful overlay

  /** The buffer only holds pages that are in use, under their own ids. */
  ghost predicate Proper(t: Buffered) {
    && t.base.Valid()
    && forall p :: p in t.dirty ==> t.base.InUse(p) && t.dirty[p].id == p
  }

  /** The tree writes only pages it reached or allocated, which are in use. */
  predicate Behaves(s: Store, op: Op) {
    op.WriteOp? ==> s.InUse(op.page.id)
  }

  lemma {:induction false} OverlayStep(t: Buffered, op: Op)
    requires Proper(t) && Behaves(t.View(), op)
    ensures var (t', out) := Through(t, op); Proper(t') && Direct(t.View(), op) == (t'.View(), out)
  {
    if op.AllocateOp? {
      AllocateKeeps(t.base);
      t.base.alloc.TakeExact();
      var id, a := t.base.alloc.NextId(), t.base.alloc.Take();
      SwapUpdates(t.base.file, t.dirty, id, NewPage(id, DataKind), META_PAGE, MetaPage(a));
    } else if op.WriteOp? {
      assert t.base.file + t.dirty[op.page.id := op.page] == (t.base.file + t.dirty)[op.page.id := op.page];
    }
  }

  lemma {:induction false} SwapUpdates(f: map<nat, Page>, d: map<nat, Page>, i: nat, p: Page, j: nat, q: Page)
    requires i !in d && j !in d
    ensures (f + d)[i := p][j := q] == f[i := p][j := q] + d
  {
  }

  function DirectRun(s: Store, ops: seq<Op>): (Store, seq<Out>) {
    if ops == [] then (s, []) else
    var (s1, outs) := DirectRun(s, ops[..|ops| - 1]);
    var (s2, out) := Direct(s1, ops[|ops| - 1]);
    (s2, outs + [out])
  }

  function ThroughRun(t: Buffered, ops: seq<Op>): (Buffered, seq<Out>) {
    if ops == [] then (t, []) else
    var (t1, outs) := ThroughRun(t, ops[..|ops| - 1]);
    var (t2, out) := Through(t1, ops[|ops| - 1]);
    (t2, outs + [out])
  }

  predicate BehavesAll(s: Store, ops: seq<Op>) {
    ops == [] || (BehavesAll(s, ops[..|ops| - 1]) && Behaves(DirectRun(s, ops[..|ops| - 1]).0, ops[|ops| - 1]))
  }

  /** Any run through the buffer gives the answers of the same run on the pager itself, and
      flushing afterwards leaves exactly the store that run leaves. */
  lemma {:induction false} OverlayFaithful(s: Store, ops: seq<Op>)
    requires s.Valid() && BehavesAll(s, ops)
    ensures var (t, outs) := ThroughRun(Buffered(s, map[], []), ops);
      Proper(t) && DirectRun(s, ops) == (t.View(), outs)
  {
    if ops == [] {
      assert s.file + map[] == s.file;
    } else {
      var ops' := ops[..|ops| - 1];
      OverlayFaithful(s, ops');
      OverlayStep(ThroughRun(Buffered(s, map[], []), ops').0, ops[|ops| - 1]);
    }
  }

  /** Without that discipline the overlay is wrong exactly when the page handed out, or the meta
      page, is in the buffer with other content: the pager's own writes go underneath it. */
  lemma {:induction false} AllocateAgreesIff(t: Buffered)
    ensures Direct(t.View(), AllocateOp).0 == Through(t, AllocateOp).0.View() <==>
      var id, a := t.base.alloc.NextId(), t.base.alloc.Take();
      && (META_PAGE in t.dirty ==> t.dirty[META_PAGE] == MetaPage(a))
      && (id in t.dirty && id != META_PAGE ==> t.dirty[id] == NewPage(id, DataKind))
  {
    var id, a := t.base.alloc.NextId(), t.base.alloc.Take();
    SwapIff(t.base.file, t.dirty, id, NewPage(id, DataKind), META_PAGE, MetaPage(a));
  }

  /** Two updates made under an overlay are seen through it exactly when it does not hide them. */
  lemma {:induction false} SwapIff(f: map<nat, Page>, d: map<nat, Page>, i: nat, p: Page, j: nat, q: Page)
    ensures (f + d)[i := p][j := q] == f[i := p][j := q] + d <==> (j in d ==> d[j] == q) && (i in d && i != j ==> d[i] == p)
  {
    var a, b := (f + d)[i := p][j := q], f[i := p][j := q] + d;
    assert a[j] == q && b[j] == (if j in d then d[j] else q);
    assert i != j ==> a[i] == p && b[i] == (if i in d then d[i] else p);
    assert a.Keys == b.Keys;
  }

  // ---------------------------------------------------------------- rollback

  /** Gives back the pages of `ids` in order. */
  function ReturnAll(s: Store, ids: seq<nat>): Store {
    if ids == [] then s else ReturnAll(s, ids[..|ids| - 1]).Free(ids[|ids| - 1])
  }

  ghost predicate Unique(ids: seq<nat>) {
    forall i, j :: 0 <= i < j < |ids| ==> ids[i] != ids[j]
  }

  /** `t` started on `s`: what is in use is what was, untouched, and what it took since. */
  ghost predicate StartedOn(t: Buffered, s: Store) {
    && t.base.Valid()
    && Unique(t.taken)
    && (forall p: nat :: t.base.InUse(p) <==> s.InUse(p) || p in t.taken)
    && (forall p: nat :: s.InUse(p) ==> p in s.file && t.base.file[p] == s.file[p] && p !in t.taken)
  }

  lemma {:induction false} StartedStep(s: Store, t: Buffered, op: Op)
    requires StartedOn(t, s)
    ensures StartedOn(Through(t, op).0, s)
  {
    if op.AllocateOp? {
      AllocateKeeps(t.base);
      t.base.alloc.TakeExact();
      var id := t.base.alloc.NextId();
      assert t.taken + [id] == Through(t, op).0.taken;
      assert id !in t.taken;
    }
  }

  lemma {:induction false} StartedRun(s: Store, ops: seq<Op>)
    requires s.Valid()
    ensures StartedOn(ThroughRun(Buffered(s, map[], []), ops).0, s)
  {
    if ops != [] {
      StartedRun(s, ops[..|ops| - 1]);
      StartedStep(s, ThroughRun(Buffered(s, map[], []), ops[..|ops| - 1]).0, ops[|ops| - 1]);
    }
  }

  lemma {:induction false} ReturnAllKeeps(s: Store, ids: seq<nat>)
    requires s.Valid() && Unique(ids) && forall p: nat :: p in ids ==> s.InUse(p)
    ensures ReturnAll(s, ids).Valid() && ReturnAll(s, ids).alloc == Alloc(s.alloc.total, s.alloc.free + ids)
    ensures forall p: nat :: ReturnAll(s, ids).InUse(p) <==> s.InUse(p) && p !in ids
    ensures forall p: nat :: ReturnAll(s, ids).InUse(p) ==> ReturnAll(s, ids).file[p] == s.file[p]
  {
    if ids != [] {
      TakeOne(ids, |ids| - 1);
      assert ids[..|ids|] == ids;
      ReturnAllKeeps(s, ids[..|ids| - 1]);
      FreeKeeps(ReturnAll(s, ids[..|ids| - 1]), ids[|ids| - 1]);
      assert s.alloc.free + ids == s.alloc.free + ids[..|ids| - 1] + [ids[|ids| - 1]];
    }
  }

  /** How many of its pages a rollback gives back before the free list is full. */
  function Room(free: nat, n: nat): (m: nat)
    ensures m <= n
  {
    if free >= MAX_FREE then 0 else if free + n <= MAX_FREE then n else MAX_FREE - free
  }

  /** Whatever a transaction did through its buffer, its rollback leaves every page in use at its start
      in use with the content it had; it leaves no other page in use exactly when the free list has
      room for all its pages. */
  lemma {:induction false} RollbackRestores(s: Store, ops: seq<Op>)
    requires s.Valid()
    ensures var t := ThroughRun(Buffered(s, map[], []), ops).0;
      var r := ReturnAll(t.base, t.taken[..Room(|t.base.alloc.free|, |t.taken|)]);
      && r.Valid()
      && (forall p: nat :: s.InUse(p) ==> r.InUse(p) && r.file[p] == s.file[p])
      && ((forall p: nat :: r.InUse(p) <==> s.InUse(p)) <==> |t.taken| == 0 || |t.base.alloc.free| + |t.taken| <= MAX_FREE)
  {
    StartedRun(s, ops);
    var t := ThroughRun(Buffered(s, map[], []), ops).0;
    var n := Room(|t.base.alloc.free|, |t.taken|);
    assert forall p: nat :: p in t.taken[..n] ==> p in t.taken;
    ReturnAllKeeps(t.base, t.taken[..n]);
    if n < |t.taken| {
      assert t.taken[n] !in t.taken[..n];
      assert !s.InUse(t.taken[n]) && t.base.InUse(t.taken[n]);
    } else {
      assert t.taken[..n] == t.taken;
    }
  }

  // ---------------------------------------------------------------- the buffer itself

  class TxPager {
    const base: Pager
    var dirty: map<nat, Page>
    var taken: seq<nat>

    ghost function Base(): Store
      reads base
    {
      Store(base.file, base.State())
    }

    ghost function State(): Buffered
      reads this, base
    {
      Buffered(Base(), dirty, taken)
    }

    ghost predicate Valid()
      reads this
    {
      forall p :: p in dirty ==> dirty[p].id == p
    }

    constructor (base: Pager)
      ensures this.base == base && Valid() && State() == Buffered(Base(), map[], [])
    {
      this.base := base;
      dirty, taken := map[], [];
    }

    method ReadPage(id: nat) returns (r: ReadResult)
      ensures (State(), Fetched(r)) == Through(State(), ReadOp(id))
    {
      if id in dirty {
        return Got(dirty[id]);
      }
      r := base.ReadPage(id);
    }

    method WritePage(p: Page)
      requires Valid()
      modifies `dirty
      ensures Valid() && (State(), Done) == Through(old(State()), WriteOp(p))
    {
      dirty := dirty[p.id := p];
    }

    method AllocatePage() returns (id: nat)
      requires Valid() && base.Valid()
      modifies `taken, base
      ensures Valid() && base.Valid()
      ensures (State(), Id(id)) == Through(old(State()), AllocateOp)
    {
      id := base.AllocatePage();
      taken := taken + [id];
    }

    /** The buffered pages, in some order. */
    method DirtyPages() returns (out: seq<Page>)
      requires Valid()
      ensures (set p | p in out) == dirty.Values && |out| == |dirty|
    {
      out := [];
      var rest := dirty.Keys;
      ghost var seen: set<nat> := {};
      while rest != {}
        invariant rest <= dirty.Keys && seen == dirty.Keys - rest
        invariant |out| + |rest| == |dirty.Keys|
        invariant forall p :: p in out <==> p.id in seen && dirty[p.id] == p
        decreases rest
      {
        var id :| id in rest;
        out := out + [dirty[id]];
        rest := rest - {id};
        seen := seen + {id};
      }
    }

    /** Writes every buffered page, in any order: the pager becomes the view. */
    method Flush()
      requires Valid()
      modifies this, base`file
      ensures Valid() && State() == Buffered(old(State()).View(), map[], [])
    {
      var rest := dirty.Keys;
      ghost var was := base.file;
      assert was == was + (dirty - rest);
      while rest != {}
        invariant rest <= dirty.Keys && dirty == old(dirty)
        invariant base.file == was + (dirty - rest)
        decreases rest
      {
        var id :| id in rest;
        ghost var before := base.file;
        base.WritePage(dirty[id]);
        assert base.file == before[id := dirty[id]];
        rest := rest - {id};
        assert base.file == was + (dirty - rest);
      }
      assert dirty == dirty - rest;
      dirty, taken := map[], [];
    }

    /** Drops the buffer and gives the pages back; the free list must have room for all of them. */
    method Rollback() returns (ok: bool)
      requires base.Valid() && Unique(taken) && forall p: nat :: p in taken ==> base.InUse(p)
      modifies this, base
      ensures base.Valid() && Valid() && dirty == map[]
      ensures ok <==> old(|base.freeList| + |taken|) <= MAX_FREE
      ensures State() == Buffered(ReturnAll(old(Base()), old(taken)[..old(Room(|base.freeList|, |taken|))]), map[], if ok then [] else old(taken))
      ensures forall p: nat :: old(base.InUse(p)) && p !in old(taken) ==> base.InUse(p) && base.file[p] == old(base.file)[p]
    {
      hide ReturnAll, Store.Free, Unique;
      dirty := map[];
      ghost var start := Base();
      var i := 0;
      NothingReturned(start, taken[..0]);
      while i < |taken|
        invariant 0 <= i <= |taken| && taken == old(taken) && dirty == map[]
        invariant base.Valid() && Base() == ReturnAll(start, taken[..i])
        invariant |base.freeList| == old(|base.freeList|) + i
      {
        ReturnStep(start, taken, i);
        ReturnedInUse(start, taken, i);
        var done := base.FreePage(taken[i]);
        if !done {
          ReturnedRest(start, taken, i);
          return false;
        }
        i := i + 1;
      }
      assert taken[..i] == taken;
      ReturnedRest(start, taken, i);
      taken := [];
      return true;
    }
  }

  lemma {:induction false} NothingReturned(s: Store, ids: seq<nat>)
    requires ids == []
    ensures ReturnAll(s, ids) == s
  {
  }

  lemma {:induction false} ReturnStep(s: Store, ids: seq<nat>, i: nat)
    requires i < |ids|
    ensures ReturnAll(s, ids[..i + 1]) == ReturnAll(s, ids[..i]).Free(ids[i])
    ensures var r := ReturnAll(s, ids[..i]); var a := Alloc(r.alloc.total, r.alloc.free + [ids[i]]);
      r.Free(ids[i]) == Store(r.file[ids[i] := NewPage(ids[i], FreeKind)][META_PAGE := MetaPage(a)], a)
  {
    TakeOne(ids, i);
  }

  /** While pages are given back, the next one is still in use. */
  lemma {:induction false} ReturnedInUse(s: Store, ids: seq<nat>, i: nat)
    requires s.Valid() && Unique(ids) && i < |ids| && forall p: nat :: p in ids ==> s.InUse(p)
    ensures ReturnAll(s, ids[..i]).InUse(ids[i])
  {
    assert ids[i] !in ids[..i];
    ReturnAllKeeps(s, ids[..i]);
  }

  lemma {:induction false} ReturnedRest(s: Store, ids: seq<nat>, i: nat)
    requires s.Valid() && Unique(ids) && i <= |ids| && forall p: nat :: p in ids ==> s.InUse(p)
    ensures var r := ReturnAll(s, ids[..i]); r.Valid() && forall p: nat :: s.InUse(p) && p !in ids ==> r.InUse(p) && r.file[p] == s.file[p]
  {
    ReturnAllKeeps(s, ids[..i]);
  }
}
