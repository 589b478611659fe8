/** The values that travel between the layers: pages, leaf entries and the
    state of the page allocator. */
module Pages {

  type byte = b: int | 0 <= b < 256

  /** A leaf value: the 256-byte row slot.  The tree never looks inside it. */
  type Value = seq<byte>

  /** One key-value record of a leaf; keys are unsigned 64-bit integers. */
  datatype Entry = Entry(key: int, val: Value)

  const KEY_LIMIT := 0x1_0000_0000_0000_0000

  /** Page 0 is the pager's meta page, and 0 ends the leaf chain. */
  const META_PAGE := 0

  /** Most entries of a leaf, most keys of an internal node, most free pages the meta page lists. */
  const LEAF_ORDER := 15
  const INTERNAL_ORDER := 338
  const MAX_FREE := 1016

  /** The decoded content of a page's data area. */
  datatype Data =
    | Zeroed
    | Meta(total: nat, free: seq<nat>)
    | Header(root: nat)
    | LeafData(entries: seq<Entry>, next: nat)
    | InternalData(keys: seq<int>, children: seq<nat>)

  datatype PageKind = FreeKind | MetaKind | DataKind

  /** A page without its checksum: every write recomputes that field and no layer
      above the codec reads it, so two pages are equal here when they agree modulo it. */
  datatype Page = Page(id: nat, kind: PageKind, data: Data)

  /** storage.NewPage: a zeroed page. */
  function NewPage(id: nat, kind: PageKind): Page {
    Page(id, kind, Zeroed)
  }

  /** The allocator part of a pager: how many pages exist and which are free.
      A page is taken from the tail of the free list, else from the end of the file. */
  datatype Alloc = Alloc(total: nat, free: seq<nat>) {
    predicate Available(p: nat) {
      p in free || p >= total
    }

    predicate Valid() {
      && total >= 1
      && (forall i :: 0 <= i < |free| ==> 1 <= free[i] < total)
      && (forall i, j :: 0 <= i < j < |free| ==> free[i] != free[j])
    }

    function NextId(): nat {
      if |free| > 0 then free[|free| - 1] else total
    }

    function Take(): Alloc {
      if |free| > 0 then Alloc(total, free[..|free| - 1]) else Alloc(total + 1, free)
    }

    /** Taking a page removes exactly that page from the available ones; it is never page 0. */
    lemma {:induction false} TakeExact()
      requires Valid()
      ensures Take().Valid()
      ensures NextId() != META_PAGE && Available(NextId())
      ensures forall p :: Take().Available(p) <==> Available(p) && p != NextId()
    {
      if |free| > 0 {
        var rest := free[..|free| - 1];
        assert free == rest + [NextId()];
      }
    }
  }
}
