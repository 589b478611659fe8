/** The B+ tree as a value: its shape, the list of entries it stands for, and
    the ordering, balance and fill invariants of that shape. */
module BTreeSpec {
  import opened Pages
  import opened Seqs

  /** A tree whose nodes carry the ids of the pages that hold them. */
  datatype Tree =
    | Leaf(id: nat, entries: seq<Entry>)
    | Node(id: nat, keys: seq<int>, kids: seq<Tree>)

  // ---------------------------------------------------------------- sorted lists

  ghost predicate Sorted(s: seq<Entry>) {
    forall i, j :: 0 <= i < j < |s| ==> s[i].key < s[j].key
  }

  ghost predicate Within(s: seq<Entry>, lo: int, hi: int) {
    forall i :: 0 <= i < |s| ==> lo <= s[i].key < hi
  }

  predicate Ascending(keys: seq<int>) {
    forall i, j :: 0 <= i < j < |keys| ==> keys[i] < keys[j]
  }

  /** The position of the first entry whose key is not below k. */
  function LowerBound(s: seq<Entry>, k: int): (p: nat)
    ensures p <= |s|
    ensures forall i :: 0 <= i < p ==> s[i].key < k
    ensures p < |s| ==> s[p].key >= k
  {
    if s == [] || s[0].key >= k then 0 else 1 + LowerBound(s[1..], k)
  }

  predicate Has(s: seq<Entry>, k: int) {
    var p := LowerBound(s, k);
    p < |s| && s[p].key == k
  }

  /** s with k bound to v: the entry for k is replaced, or a new one slotted in. */
  function Put(s: seq<Entry>, k: int, v: Value): seq<Entry> {
    var p := LowerBound(s, k);
    if Has(s, k) then s[p := Entry(k, v)] else s[..p] + [Entry(k, v)] + s[p..]
  }

  /** s without the entry for k. */
  function Remove(s: seq<Entry>, k: int): seq<Entry> {
    var p := LowerBound(s, k);
    if Has(s, k) then s[..p] + s[p + 1..] else s
  }

  /** The finite map a list of entries stands for. */
  ghost function AsMap(s: seq<Entry>): map<int, Value> {
    if s == [] then map[] else AsMap(s[..|s| - 1])[s[|s| - 1].key := s[|s| - 1].val]
  }

  lemma {:induction false} AsMapConcat(a: seq<Entry>, b: seq<Entry>)
    ensures AsMap(a + b) == AsMap(a) + AsMap(b)
  {
    if b == [] {
      assert a + b == a;
    } else {
      var b' := b[..|b| - 1];
      AsMapConcat(a, b');
      assert (a + b)[..|a + b| - 1] == a + b';
    }
  }

  lemma {:induction false} AsMapMisses(s: seq<Entry>, k: int)
    requires forall i :: 0 <= i < |s| ==> s[i].key != k
    ensures k !in AsMap(s)
  {
    if s != [] {
      AsMapMisses(s[..|s| - 1], k);
    }
  }

  /** mid is the stretch of a + mid + c that holds k: one entry, or none. */
  ghost predicate SplitAt(a: seq<Entry>, mid: seq<Entry>, c: seq<Entry>, k: int) {
    && (forall i :: 0 <= i < |a| ==> a[i].key < k)
    && (mid == [] || (|mid| == 1 && mid[0].key == k))
    && (forall i :: 0 <= i < |c| ==> c[i].key > k)
  }

  lemma {:induction false} LowerBoundUnique(s: seq<Entry>, k: int, p: nat)
    requires p <= |s|
    requires forall i :: 0 <= i < p ==> s[i].key < k
    requires p < |s| ==> s[p].key >= k
    ensures LowerBound(s, k) == p
  {
  }

  lemma {:induction false} AtSplit(a: seq<Entry>, mid: seq<Entry>, c: seq<Entry>, k: int, v: Value)
    requires SplitAt(a, mid, c, k)
    ensures LowerBound(a + mid + c, k) == |a|
    ensures Has(a + mid + c, k) <==> mid != []
    ensures Put(a + mid + c, k, v) == a + [Entry(k, v)] + c
    ensures Remove(a + mid + c, k) == a + c
  {
    var s := a + mid + c;
    assert forall i :: 0 <= i < |a| ==> s[i] == a[i];
    assert |a| < |s| ==> s[|a|] == (mid + c)[0];
    LowerBoundUnique(s, k, |a|);
    assert s[..|a|] == a;
    if mid == [] {
      assert s[|a|..] == c;
    } else {
      assert s[|a| + 1..] == c;
    }
  }

  lemma {:induction false} Split(s: seq<Entry>, k: int) returns (a: seq<Entry>, mid: seq<Entry>, c: seq<Entry>)
    requires Sorted(s)
    ensures s == a + mid + c && SplitAt(a, mid, c, k)
    ensures Sorted(a) && Sorted(c)
  {
    var p := LowerBound(s, k);
    var q := if Has(s, k) then p + 1 else p;
    a, mid, c := s[..p], s[p..q], s[q..];
  }

  /** Binary search looks k up exactly as the map does. */
  lemma {:induction false} HasIsMember(s: seq<Entry>, k: int)
    requires Sorted(s)
    ensures Has(s, k) <==> k in AsMap(s)
    ensures Has(s, k) ==> AsMap(s)[k] == s[LowerBound(s, k)].val
  {
    var a, mid, c := Split(s, k);
    AtSplit(a, mid, c, k, []);
    AsMapConcat(a + mid, c);
    AsMapConcat(a, mid);
    AsMapMisses(a, k);
    AsMapMisses(c, k);
    assert mid != [] ==> mid[..0] == [];
  }

  lemma {:induction false} MapAround(a: seq<Entry>, mid: seq<Entry>, c: seq<Entry>, k: int)
    requires SplitAt(a, mid, c, k)
    ensures AsMap(a + mid + c) == AsMap(a) + AsMap(mid) + AsMap(c)
    ensures AsMap(mid) == if mid == [] then map[] else map[k := mid[0].val]
    ensures k !in AsMap(a) && k !in AsMap(c)
  {
    AsMapConcat(a + mid, c);
    AsMapConcat(a, mid);
    AsMapMisses(a, k);
    AsMapMisses(c, k);
    assert mid != [] ==> mid[..0] == [];
  }

  lemma {:induction false} PutSorted(s: seq<Entry>, k: int, v: Value)
    requires Sorted(s)
    ensures Sorted(Put(s, k, v)) && Sorted(Remove(s, k))
  {
    var a, mid, c := Split(s, k);
    AtSplit(a, mid, c, k, v);
    SortedAround(a, [Entry(k, v)], c, k);
    SortedAround(a, [], c, k);
    assert a + [] + c == a + c;
  }

  lemma {:induction false} SortedAround(a: seq<Entry>, mid: seq<Entry>, c: seq<Entry>, k: int)
    requires Sorted(a) && Sorted(c) && SplitAt(a, mid, c, k)
    ensures Sorted(a + mid + c)
  {
  }

  lemma {:induction false} MapAlgebra(ma: map<int, Value>, mm: map<int, Value>, mc: map<int, Value>, k: int, v: Value)
    requires k !in ma && k !in mc && mm.Keys <= {k}
    ensures ma + map[k := v] + mc == (ma + mm + mc)[k := v]
    ensures ma + mc == (ma + mm + mc) - {k}
  {
  }

  /** Putting an entry into the list updates the map; removing one deletes its key. */
  lemma {:induction false} PutIsUpdate(s: seq<Entry>, k: int, v: Value)
    requires Sorted(s)
    ensures AsMap(Put(s, k, v)) == AsMap(s)[k := v]
    ensures AsMap(Remove(s, k)) == AsMap(s) - {k}
  {
    var a, mid, c := Split(s, k);
    AtSplit(a, mid, c, k, v);
    MapAround(a, mid, c, k);
    MapAround(a, [Entry(k, v)], c, k);
    AsMapConcat(a, c);
    MapAlgebra(AsMap(a), AsMap(mid), AsMap(c), k, v);
  }

  /** An update only touches the stretch of the list that its key falls in. */
  lemma {:induction false} PutLocal(a: seq<Entry>, b: seq<Entry>, c: seq<Entry>, k: int, v: Value)
    requires Sorted(b)
    requires forall i :: 0 <= i < |a| ==> a[i].key < k
    requires forall i :: 0 <= i < |c| ==> c[i].key > k
    ensures Put(a + b + c, k, v) == a + Put(b, k, v) + c
    ensures Remove(a + b + c, k) == a + Remove(b, k) + c
    ensures Has(a + b + c, k) == Has(b, k)
    ensures LowerBound(a + b + c, k) == |a| + LowerBound(b, k)
  {
    var b1, mid, b2 := Split(b, k);
    AtSplit(b1, mid, b2, k, v);
    AtSplit(a + b1, mid, b2 + c, k, v);
    Regroup(a, b1, mid, b2, c);
    Regroup(a, b1, [Entry(k, v)], b2, c);
  }

  // ---------------------------------------------------------------- trees

  /** The entries of a tree, left to right. */
  function Flat(t: Tree): seq<Entry> {
    match t
    case Leaf(_, es) => es
    case Node(_, _, kids) => FlatAll(kids)
  }

  function FlatAll(ts: seq<Tree>): seq<Entry> {
    if ts == [] then [] else FlatAll(ts[..|ts| - 1]) + Flat(ts[|ts| - 1])
  }

  lemma {:induction false} FlatAllConcat(a: seq<Tree>, b: seq<Tree>)
    ensures FlatAll(a + b) == FlatAll(a) + FlatAll(b)
  {
    if b == [] {
      assert a + b == a;
    } else {
      var b' := b[..|b| - 1];
      FlatAllConcat(a, b');
      assert (a + b)[..|a + b| - 1] == a + b' && (a + b)[|a + b| - 1] == b[|b| - 1];
      assert FlatAll(a + b) == (FlatAll(a) + FlatAll(b')) + Flat(b[|b| - 1]);
    }
  }

  lemma {:induction false} FlatAllOne(t: Tree)
    ensures FlatAll([t]) == Flat(t)
  {
    assert [t][..0] == [];
  }

  /** The child to follow for k: the number of separators that are at most k. */
  function ChildIndex(keys: seq<int>, k: int): (i: nat)
    ensures i <= |keys|
    ensures forall j :: 0 <= j < i ==> keys[j] <= k
    ensures i < |keys| ==> k < keys[i]
  {
    if keys == [] || k < keys[0] then 0 else 1 + ChildIndex(keys[1..], k)
  }

  lemma {:induction false} ChildIndexUnique(keys: seq<int>, k: int, i: nat)
    requires i <= |keys|
    requires forall j :: 0 <= j < i ==> keys[j] <= k
    requires i < |keys| ==> k < keys[i]
    ensures ChildIndex(keys, k) == i
  {
  }

  function Lo(keys: seq<int>, i: nat, lo: int): int
    requires i <= |keys|
  {
    if i == 0 then lo else keys[i - 1]
  }

  function Hi(keys: seq<int>, i: nat, hi: int): int
    requires i <= |keys|
  {
    if i < |keys| then keys[i] else hi
  }

  /** The search-tree invariant of a subtree of h levels responsible for the keys
      of [lo, hi): strictly sorted keys, separators that bound the subtrees, node
      sizes within order and every leaf at the same depth. */
  ghost predicate Ordered(t: Tree, h: nat, lo: int, hi: int)
    decreases h
  {
    match t
    case Leaf(_, es) =>
      h == 1 && |es| <= LEAF_ORDER && Sorted(es) && Within(es, lo, hi)
    case Node(_, keys, kids) =>
      && h > 1
      && 1 <= |keys| <= INTERNAL_ORDER
      && Separates(keys, kids, h, lo, hi)
  }

  /** The part of the invariant of an internal node that does not speak of its size. */
  ghost predicate Separates(keys: seq<int>, kids: seq<Tree>, h: nat, lo: int, hi: int)
    requires h > 1
    decreases h, 0
  {
    && |kids| == |keys| + 1
    && Ascending(keys)
    && (forall i :: 0 <= i < |keys| ==> lo < keys[i] < hi)
    && forall i :: 0 <= i < |kids| ==> Ordered(kids[i], h - 1, Lo(keys, i, lo), Hi(keys, i, hi))
  }

  lemma {:induction false} FlatAllSorted(keys: seq<int>, kids: seq<Tree>, h: nat, lo: int, hi: int, n: nat)
    requires h > 1 && lo < hi && Separates(keys, kids, h, lo, hi) && 1 <= n <= |kids|
    ensures Sorted(FlatAll(kids[..n]))
    ensures Within(FlatAll(kids[..n]), lo, Hi(keys, n - 1, hi))
    decreases h, 0, n
  {
    FlatSorted(kids[n - 1], h - 1, Lo(keys, n - 1, lo), Hi(keys, n - 1, hi));
    assert kids[..n][..n - 1] == kids[..n - 1];
    if n > 1 {
      FlatAllSorted(keys, kids, h, lo, hi, n - 1);
    }
  }

  /** The entries of a tree are strictly sorted and stay within its bounds. */
  lemma {:induction false} FlatSorted(t: Tree, h: nat, lo: int, hi: int)
    requires lo < hi && Ordered(t, h, lo, hi)
    ensures Sorted(Flat(t)) && Within(Flat(t), lo, hi)
    decreases h, 1
  {
    if t.Node? {
      FlatAllSorted(t.keys, t.kids, h, lo, hi, |t.kids|);
      assert t.kids[..|t.kids|] == t.kids;
    }
  }

  lemma {:induction false} WithinJoin(a: seq<Entry>, b: seq<Entry>, lo: int, mid: int, hi: int)
    requires Within(a, lo, mid) && Within(b, mid, hi) && lo <= mid <= hi
    ensures Within(a + b, lo, hi)
  {
  }

  /** The entries to the right of child n start at its upper separator. */
  lemma {:induction false} FlatAllAbove(keys: seq<int>, kids: seq<Tree>, h: nat, lo: int, hi: int, n: nat)
    requires h > 1 && lo < hi && Separates(keys, kids, h, lo, hi) && n <= |keys|
    ensures Within(FlatAll(kids[n + 1..]), Hi(keys, n, hi), hi)
    decreases |keys| - n
  {
    if n < |keys| {
      assert Hi(keys, n, hi) <= Hi(keys, n + 1, hi) <= hi;
      FlatSorted(kids[n + 1], h - 1, keys[n], Hi(keys, n + 1, hi));
      FlatAllAbove(keys, kids, h, lo, hi, n + 1);
      hide *;
      assert kids[n + 1..] == [kids[n + 1]] + kids[n + 2..];
      FlatAllConcat([kids[n + 1]], kids[n + 2..]);
      FlatAllOne(kids[n + 1]);
      WithinJoin(Flat(kids[n + 1]), FlatAll(kids[n + 2..]), keys[n], Hi(keys, n + 1, hi), hi);
    }
  }

  /** Routing: the entries around the child chosen for k are all below or all above k. */
  lemma {:induction false} Route(keys: seq<int>, kids: seq<Tree>, h: nat, lo: int, hi: int, k: int)
    returns (a: seq<Entry>, c: seq<Entry>)
    requires h > 1 && lo <= k < hi && Separates(keys, kids, h, lo, hi)
    ensures var i := ChildIndex(keys, k);
      && a == FlatAll(kids[..i])
      && c == FlatAll(kids[i + 1..])
      && FlatAll(kids) == a + Flat(kids[i]) + c
      && Lo(keys, i, lo) <= k < Hi(keys, i, hi)
    ensures forall j :: 0 <= j < |a| ==> a[j].key < k
    ensures forall j :: 0 <= j < |c| ==> c[j].key > k
  {
    var i := ChildIndex(keys, k);
    a, c := FlatAll(kids[..i]), FlatAll(kids[i + 1..]);
    Around(kids, i);
    FlatAllConcat(kids[..i] + [kids[i]], kids[i + 1..]);
    FlatAllConcat(kids[..i], [kids[i]]);
    FlatAllOne(kids[i]);
    if i > 0 {
      FlatAllSorted(keys, kids, h, lo, hi, i);
    }
    FlatAllAbove(keys, kids, h, lo, hi, i);
  }

  /** Half-full nodes: what splits leave behind when nothing is ever deleted. */
  ghost predicate Filled(t: Tree, h: nat, root: bool)
    decreases h
  {
    match t
    case Leaf(_, es) => h == 1 && (root || |es| >= 8)
    case Node(_, _, kids) =>
      && h > 1
      && (if root then |kids| >= 2 else |kids| >= 170)
      && forall i :: 0 <= i < |kids| ==> Filled(kids[i], h - 1, false)
  }

  function Pow170(n: nat): nat {
    if n == 0 then 1 else 170 * Pow170(n - 1)
  }

  lemma {:induction false} MulStep(n: nat, c: nat)
    requires n > 0
    ensures n * c == (n - 1) * c + c
  {
  }

  lemma {:induction false} MulMono(m: nat, n: nat, c: nat)
    requires m <= n
    ensures m * c <= n * c
  {
  }

  lemma {:induction false} FilledCountAll(kids: seq<Tree>, h: nat, n: nat)
    requires h > 1 && n <= |kids|
    requires forall i :: 0 <= i < |kids| ==> Filled(kids[i], h - 1, false)
    ensures |FlatAll(kids[..n])| >= n * (8 * Pow170(h - 2))
    decreases h, 0, n
  {
    if n > 0 {
      FilledCount(kids[n - 1], h - 1);
      FilledCountAll(kids, h, n - 1);
      hide Filled, Flat, Pow170;
      assert kids[..n][..n - 1] == kids[..n - 1];
      MulStep(n, 8 * Pow170(h - 2));
    }
  }

  lemma {:induction false} FilledCount(t: Tree, h: nat)
    requires h >= 1 && Filled(t, h, false)
    ensures |Flat(t)| >= 8 * Pow170(h - 1)
    decreases h, 1
  {
    if t.Node? {
      FilledCountAll(t.kids, h, |t.kids|);
      hide Filled, FlatAll;
      assert t.kids[..|t.kids|] == t.kids;
      MulMono(170, |t.kids|, 8 * Pow170(h - 2));
    }
  }

  /** A tree of h >= 2 levels that was only ever inserted into holds at least
      16 * 170^(h-2) entries. */
  lemma {:induction false} HeightBound(t: Tree, h: nat)
    requires h >= 2 && Filled(t, h, true)
    ensures |Flat(t)| >= 16 * Pow170(h - 2)
  {
    FilledCountAll(t.kids, h, |t.kids|);
    assert t.kids[..|t.kids|] == t.kids;
    hide Filled, FlatAll;
    MulMono(2, |t.kids|, 8 * Pow170(h - 2));
  }
}
