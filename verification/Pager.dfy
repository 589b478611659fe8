/** The pager: one file as an array of pages, with a free list kept in page 0. */
module Pagers {
  import opened Pages

  datatype ReadResult = Got(page: Page) | ReadError

  function MetaPage(a: Alloc): Page {
    Page(META_PAGE, MetaKind, Meta(a.total, a.free))
  }

  class Pager {
    var file: map<nat, Page>
    var totalPages: nat
    var freeList: seq<nat>

    ghost function State(): Alloc
      reads this
    {
      Alloc(totalPages, freeList)
    }

    /** The free list names distinct existing pages, every page that exists can be
        read, and the meta page on disk agrees with the fields. */
    ghost predicate Valid()
      reads this
    {
      && State().Valid()
      && |freeList| <= MAX_FREE
      && (forall p :: 0 <= p < totalPages ==> p in file)
      && file[META_PAGE] == MetaPage(State())
    }

    /** The pages handed out and not given back. */
    ghost predicate InUse(p: nat)
      reads this
    {
      p != META_PAGE && !State().Available(p)
    }

    /** pager.Open on an empty file. */
    constructor ()
      ensures Valid() && State() == Alloc(1, [])
      ensures file == map[META_PAGE := MetaPage(Alloc(1, []))]
    {
      totalPages, freeList := 1, [];
      file := map[META_PAGE := MetaPage(Alloc(1, []))];
    }

    /** pager.Open on an existing file: the counters come from the meta page. */
    constructor Load(disk: map<nat, Page>)
      requires META_PAGE in disk && disk[META_PAGE].data.Meta?
      ensures file == disk
      ensures State() == Alloc(disk[META_PAGE].data.total, disk[META_PAGE].data.free)
    {
      file := disk;
      totalPages, freeList := disk[META_PAGE].data.total, disk[META_PAGE].data.free;
    }

    method ReadPage(id: nat) returns (r: ReadResult)
      ensures r == if id < totalPages && id in file then Got(file[id]) else ReadError
    {
      if id < totalPages && id in file {
        return Got(file[id]);
      }
      return ReadError;
    }

    method WritePage(p: Page)
      modifies `file
      ensures file == old(file)[p.id := p]
    {
      file := file[p.id := p];
    }

    method FlushMeta()
      modifies `file
      ensures file == old(file)[META_PAGE := MetaPage(State())]
    {
      WritePage(Page(META_PAGE, MetaKind, Meta(totalPages, freeList)));
    }

    /** Reuses the page freed last, else grows the file; the page comes back zeroed. */
    method AllocatePage() returns (id: nat)
      requires Valid()
      modifies this
      ensures Valid()
      ensures id == old(State()).NextId() && State() == old(State()).Take()
      ensures file == old(file)[id := NewPage(id, DataKind)][META_PAGE := MetaPage(State())]
      ensures !old(InUse(id)) && InUse(id)
      ensures forall p :: p != id ==> (InUse(p) <==> old(InUse(p)))
      ensures forall p :: old(InUse(p)) ==> p != id && InUse(p) && p in file && file[p] == old(file)[p]
    {
      State().TakeExact();
      if |freeList| > 0 {
        id := freeList[|freeList| - 1];
        freeList := freeList[..|freeList| - 1];
      } else {
        id := totalPages;
        totalPages := totalPages + 1;
      }
      WritePage(NewPage(id, DataKind));
      FlushMeta();
    }

    /** Refuses page 0, pages out of range and a full free list; it does not refuse a
        page that is free already. */
    method FreePage(id: nat) returns (ok: bool)
      requires |freeList| <= MAX_FREE
      modifies this
      ensures ok <==> id != META_PAGE && id < totalPages && old(|freeList|) < MAX_FREE
      ensures totalPages == old(totalPages)
      ensures ok ==> freeList == old(freeList) + [id]
      ensures ok ==> file == old(file)[id := NewPage(id, FreeKind)][META_PAGE := MetaPage(State())]
      ensures !ok ==> freeList == old(freeList) && file == old(file)
      ensures old(Valid()) && ok ==> (Valid() <==> old(InUse(id)))
    {
      if id == META_PAGE || id >= totalPages || |freeList| >= MAX_FREE {
        return false;
      }
      ghost var before := State();
      WritePage(NewPage(id, FreeKind));
      freeList := freeList + [id];
      FlushMeta();
      if id in before.free {
        var i :| 0 <= i < |before.free| && before.free[i] == id;
        assert freeList[i] == freeList[|freeList| - 1];
      }
      return true;
    }
  }

  /** The allocator after taking n pages. */
  function TakeN(a: Alloc, n: nat): Alloc {
    if n == 0 then a else TakeN(a, n - 1).Take()
  }

  lemma {:induction false} TakeNFree(a: Alloc, n: nat)
    requires n <= |a.free|
    ensures TakeN(a, n) == Alloc(a.total, a.free[..|a.free| - n])
  {
    if n > 0 {
      TakeNFree(a, n - 1);
    } else {
      assert a.free[..|a.free|] == a.free;
    }
  }

  /** A page that is free already and is freed again is handed out twice with no free in between,
      whatever the allocator. */
  lemma {:induction false} DoubleFreeHandsOutTwice(a: Alloc, p: nat)
    requires a.Valid() && p in a.free
    ensures var b := Alloc(a.total, a.free + [p]);
      && !b.Valid()
      && b.NextId() == p
      && exists n :: 0 < n && TakeN(b, n).NextId() == p
  {
    var b := Alloc(a.total, a.free + [p]);
    var i :| 0 <= i < |a.free| && a.free[i] == p;
    assert b.free[i] == b.free[|a.free|];
    var n := |a.free| - i;
    TakeNFree(b, n);
    assert TakeN(b, n).free == b.free[..i + 1];
    assert TakeN(b, n).NextId() == p;
  }

  // ---------------------------------------------------------------- stores as values

  /** The state of a pager: the pages of its file and its allocator. */
  datatype Store = Store(file: map<nat, Page>, alloc: Alloc) {
    ghost predicate Valid() {
      && alloc.Valid()
      && (forall p :: 0 <= p < alloc.total ==> p in file)
      && file[META_PAGE] == MetaPage(alloc)
    }

    predicate InUse(p: nat) {
      p != META_PAGE && !alloc.Available(p)
    }

    function Read(id: nat): ReadResult {
      if id < alloc.total && id in file then Got(file[id]) else ReadError
    }

    function Write(p: Page): Store {
      Store(file[p.id := p], alloc)
    }

    function Allocate(): Store {
      var id, a := alloc.NextId(), alloc.Take();
      Store(file[id := NewPage(id, DataKind)][META_PAGE := MetaPage(a)], a)
    }

    predicate CanFree(id: nat) {
      id != META_PAGE && id < alloc.total && |alloc.free| < MAX_FREE
    }

    function Free(id: nat): Store {
      var a := Alloc(alloc.total, alloc.free + [id]);
      Store(file[id := NewPage(id, FreeKind)][META_PAGE := MetaPage(a)], a)
    }
  }

  lemma {:induction false} AllocateKeeps(s: Store)
    requires s.Valid()
    ensures s.Allocate().Valid()
    ensures s.Allocate().InUse(s.alloc.NextId()) && !s.InUse(s.alloc.NextId())
    ensures forall p :: s.InUse(p) ==> s.Allocate().InUse(p) && s.Allocate().file[p] == s.file[p]
  {
    s.alloc.TakeExact();
  }

  lemma {:induction false} FreeKeeps(s: Store, id: nat)
    requires s.Valid() && s.InUse(id)
    ensures s.Free(id).Valid()
    ensures forall p: nat :: s.Free(id).InUse(p) <==> s.InUse(p) && p != id
    ensures forall p: nat :: s.Free(id).InUse(p) ==> s.Free(id).file[p] == s.file[p]
  {
    var free := s.alloc.free + [id];
    assert forall i :: 0 <= i < |s.alloc.free| ==> free[i] == s.alloc.free[i] && free[i] != id;
  }

  // ---------------------------------------------------------------- conservation

  /** Allocator steps; Free is only taken on a page in use, below the list's capacity. */
  datatype Step = Take | Free(id: nat)

  ghost predicate Legal(a: Alloc, s: Step) {
    s.Free? ==> 0 < s.id < a.total && s.id !in a.free && |a.free| < MAX_FREE
  }

  function Next(a: Alloc, s: Step): Alloc {
    match s
    case Take => a.Take()
    case Free(id) => Alloc(a.total, a.free + [id])
  }

  function After(a: Alloc, steps: seq<Step>): Alloc {
    if steps == [] then a else Next(After(a, steps[..|steps| - 1]), steps[|steps| - 1])
  }

  /** The ids handed out and not returned, counted from the history alone. */
  function Held(a: Alloc, steps: seq<Step>): set<nat> {
    if steps == [] then {} else
    var prefix := steps[..|steps| - 1];
    match steps[|steps| - 1]
    case Take => Held(a, prefix) + {After(a, prefix).NextId()}
    case Free(id) => Held(a, prefix) - {id}
  }

  ghost predicate LegalRun(a: Alloc, steps: seq<Step>) {
    forall i :: 0 <= i < |steps| ==> Legal(After(a, steps[..i]), steps[i])
  }

  lemma {:induction false} LegalPrefix(a: Alloc, steps: seq<Step>)
    requires LegalRun(a, steps) && steps != []
    ensures LegalRun(a, steps[..|steps| - 1])
    ensures Legal(After(a, steps[..|steps| - 1]), steps[|steps| - 1])
  {
    var prefix := steps[..|steps| - 1];
    forall i | 0 <= i < |prefix| ensures Legal(After(a, prefix[..i]), prefix[i]) {
      assert prefix[..i] == steps[..i];
    }
  }

  /** The held and the free ids together are exactly 1..total-1, without overlap. */
  ghost predicate Partitioned(a: Alloc, held: set<nat>) {
    a.Valid() && forall p :: p in held <==> 0 < p < a.total && p !in a.free
  }

  lemma {:induction false} TakeKeepsPartition(a: Alloc, held: set<nat>)
    requires Partitioned(a, held)
    ensures a.NextId() !in held && a.NextId() != META_PAGE
    ensures Partitioned(a.Take(), held + {a.NextId()})
  {
    a.TakeExact();
    forall p: nat ensures p in held + {a.NextId()} <==> 0 < p < a.Take().total && p !in a.Take().free {
      assert a.Take().Available(p) <==> a.Available(p) && p != a.NextId();
    }
  }

  lemma {:induction false} FreeKeepsPartition(a: Alloc, held: set<nat>, id: nat)
    requires Partitioned(a, held) && Legal(a, Free(id))
    ensures Partitioned(Next(a, Free(id)), held - {id})
  {
    var free := a.free + [id];
    assert forall i :: 0 <= i < |a.free| ==> free[i] == a.free[i] && free[i] != id;
  }

  /** In every legal run from an empty file the held and the free ids partition
      1..total-1, and the next page handed out is neither held nor page 0. */
  lemma {:induction false} Conservation(steps: seq<Step>)
    requires LegalRun(Alloc(1, []), steps)
    ensures Partitioned(After(Alloc(1, []), steps), Held(Alloc(1, []), steps))
    ensures After(Alloc(1, []), steps).NextId() !in Held(Alloc(1, []), steps) + {META_PAGE}
  {
    var a0 := Alloc(1, []);
    if steps != [] {
      var prefix := steps[..|steps| - 1];
      LegalPrefix(a0, steps);
      Conservation(prefix);
      match steps[|steps| - 1] {
        case Take => TakeKeepsPartition(After(a0, prefix), Held(a0, prefix));
        case Free(id) => FreeKeepsPartition(After(a0, prefix), Held(a0, prefix), id);
      }
    }
    TakeKeepsPartition(After(a0, steps), Held(a0, steps));
  }
}
