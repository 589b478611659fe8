/** Insertion and deletion on tree values, and what they keep.  The paged code of
    module BTree is proved to produce exactly the trees computed here. */
module BTreeOps {
  import opened Pages
  import opened BTreeSpec

  /** What inserting into a subtree leaves: one tree, or two around a separator. */
  datatype Grown = Whole(tree: Tree) | Halves(left: Tree, sep: int, right: Tree)

  function InsertAt<T>(s: seq<T>, i: nat, x: T): seq<T>
    requires i <= |s|
  {
    s[..i] + [x] + s[i..]
  }

  /** A leaf that overflows keeps its lower half; the upper half moves to page rid,
      and its first key is copied up. */
  function SplitLeaf(id: nat, es: seq<Entry>, rid: nat): Grown
    requires |es| > 0
  {
    var mid := |es| / 2;
    Halves(Leaf(id, es[..mid]), es[mid].key, Leaf(rid, es[mid..]))
  }

  /** An internal node that overflows promotes its middle key, which neither half keeps. */
  function SplitInternal(id: nat, keys: seq<int>, kids: seq<Tree>, rid: nat): Grown
    requires |keys| > 0 && |kids| == |keys| + 1
  {
    var mid := |keys| / 2;
    Halves(Node(id, keys[..mid], kids[..mid + 1]), keys[mid], Node(rid, keys[mid + 1..], kids[mid + 1..]))
  }

  /** The kids of an internal node after kid i became what g says. */
  function Graft(kids: seq<Tree>, i: nat, g: Grown): seq<Tree>
    requires i < |kids|
  {
    match g
    case Whole(t) => kids[..i] + [t] + kids[i + 1..]
    case Halves(l, _, r) => kids[..i] + [l, r] + kids[i + 1..]
  }

  function Width(g: Grown): nat {
    if g.Whole? then 1 else 2
  }

  function GrownRoot(g: Grown): Tree {
    if g.Whole? then g.tree else g.left
  }

  lemma {:induction false} GraftAt(kids: seq<Tree>, i: nat, g: Grown)
    requires i < |kids|
    ensures var out, n := Graft(kids, i, g), Width(g);
      && |out| == |kids| + n - 1
      && (forall j :: 0 <= j < i ==> out[j] == kids[j])
      && (forall j :: i + n <= j < |out| ==> out[j] == kids[j - n + 1])
      && out[i] == GrownRoot(g)
      && (g.Halves? ==> out[i + 1] == g.right)
  {
  }

  /** An internal node takes in what became of its kid i, splitting when it overflows. */
  function Absorb(id: nat, keys: seq<int>, kids: seq<Tree>, i: nat, g: Grown, a: Alloc): (Grown, Alloc)
    requires |kids| == |keys| + 1 && i <= |keys|
  {
    var kids' := Graft(kids, i, g);
    match g
    case Whole(_) => (Whole(Node(id, keys, kids')), a)
    case Halves(_, sep, _) =>
      var keys' := InsertAt(keys, i, sep);
      if |keys'| <= INTERNAL_ORDER then (Whole(Node(id, keys', kids')), a)
      else (SplitInternal(id, keys', kids', a.NextId()), a.Take())
  }

  function Ins(t: Tree, k: int, v: Value, a: Alloc): (Grown, Alloc) {
    match t
    case Leaf(id, es) =>
      var es' := Put(es, k, v);
      if |es'| <= LEAF_ORDER then (Whole(Leaf(id, es')), a)
      else (SplitLeaf(id, es', a.NextId()), a.Take())
    case Node(id, keys, kids) =>
      var i := ChildIndex(keys, k);
      if |kids| != |keys| + 1 then (Whole(t), a) else
      var (g, a') := Ins(kids[i], k, v, a);
      Absorb(id, keys, kids, i, g, a')
  }

  function Del(t: Tree, k: int): Tree {
    match t
    case Leaf(id, es) => Leaf(id, Remove(es, k))
    case Node(id, keys, kids) =>
      var i := ChildIndex(keys, k);
      if |kids| != |keys| + 1 then t else
      Node(id, keys, Graft(kids, i, Whole(Del(kids[i], k))))
  }

  // ---------------------------------------------------------------- order

  ghost predicate GrownOrdered(g: Grown, h: nat, lo: int, hi: int) {
    match g
    case Whole(t) => Ordered(t, h, lo, hi)
    case Halves(l, sep, r) => lo < sep < hi && Ordered(l, h, lo, sep) && Ordered(r, h, sep, hi)
  }

  lemma {:induction false} PutWithin(s: seq<Entry>, k: int, v: Value, lo: int, hi: int)
    requires Sorted(s) && Within(s, lo, hi) && lo <= k < hi
    ensures Within(Put(s, k, v), lo, hi) && Within(Remove(s, k), lo, hi)
    ensures |s| <= |Put(s, k, v)| <= |s| + 1
    ensures |Put(s, k, v)| > 0
  {
    hide Within, Put, Remove, LowerBound, Sorted, Has, SplitAt;
    var a, mid, c := Split(s, k);
    AtSplit(a, mid, c, k, v);
    PutLength(s, k, v);
    WithinParts(a, mid, c, lo, hi);
    OneWithin(k, v, lo, hi);
    WithinConcat(a, [Entry(k, v)], c, lo, hi);
    WithinConcat(a, [], c, lo, hi);
    assert a + [] + c == a + c;
  }

  lemma {:induction false} PutLength(s: seq<Entry>, k: int, v: Value)
    ensures |s| <= |Put(s, k, v)| <= |s| + 1 && |Put(s, k, v)| > 0
  {
  }

  lemma {:induction false} OneWithin(k: int, v: Value, lo: int, hi: int)
    requires lo <= k < hi
    ensures Within([Entry(k, v)], lo, hi) && Within([], lo, hi)
  {
  }

  lemma {:induction false} WithinParts(a: seq<Entry>, b: seq<Entry>, c: seq<Entry>, lo: int, hi: int)
    requires Within(a + b + c, lo, hi)
    ensures Within(a, lo, hi) && Within(c, lo, hi)
  {
    var s := a + b + c;
    assert forall i :: 0 <= i < |a| ==> a[i] == s[i];
    assert forall i :: 0 <= i < |c| ==> c[i] == s[|a| + |b| + i];
  }

  lemma {:induction false} WithinConcat(a: seq<Entry>, b: seq<Entry>, c: seq<Entry>, lo: int, hi: int)
    requires Within(a, lo, hi) && Within(b, lo, hi) && Within(c, lo, hi)
    ensures Within(a + b + c, lo, hi)
  {
  }

  lemma {:induction false} LeafHalves(id: nat, es: seq<Entry>, rid: nat, lo: int, hi: int)
    requires |es| == LEAF_ORDER + 1 && Sorted(es) && Within(es, lo, hi)
    ensures GrownOrdered(SplitLeaf(id, es, rid), 1, lo, hi)
  {
    assert es[0].key < es[|es| / 2].key;
  }

  lemma {:induction false} GraftWhole(keys: seq<int>, kids: seq<Tree>, h: nat, lo: int, hi: int, i: nat, t: Tree)
    requires h > 1 && Separates(keys, kids, h, lo, hi) && i <= |keys|
    requires Ordered(t, h - 1, Lo(keys, i, lo), Hi(keys, i, hi))
    ensures Separates(keys, Graft(kids, i, Whole(t)), h, lo, hi)
  {
    var kids' := Graft(kids, i, Whole(t));
    forall j | 0 <= j < |kids'| ensures Ordered(kids'[j], h - 1, Lo(keys, j, lo), Hi(keys, j, hi)) {
      assert kids'[j] == if j == i then t else kids[j];
    }
  }

  lemma {:induction false} KeysAfterSplit(keys: seq<int>, i: nat, sep: int, lo: int, hi: int)
    requires Ascending(keys) && i <= |keys|
    requires forall j :: 0 <= j < |keys| ==> lo < keys[j] < hi
    requires lo < hi && Lo(keys, i, lo) < sep < Hi(keys, i, hi)
    ensures var keys' := InsertAt(keys, i, sep);
      && Ascending(keys')
      && (forall j :: 0 <= j < |keys'| ==> lo < keys'[j] < hi)
      && (forall j :: 0 <= j < |keys'| ==>
            keys'[j] == if j < i then keys[j] else if j == i then sep else keys[j - 1])
  {
  }

  lemma {:induction false} GraftHalves(keys: seq<int>, kids: seq<Tree>, h: nat, lo: int, hi: int, i: nat, g: Grown)
    requires h > 1 && lo < hi && Separates(keys, kids, h, lo, hi) && i <= |keys|
    requires g.Halves? && GrownOrdered(g, h - 1, Lo(keys, i, lo), Hi(keys, i, hi))
    ensures Separates(InsertAt(keys, i, g.sep), Graft(kids, i, g), h, lo, hi)
  {
    var keys', kids' := InsertAt(keys, i, g.sep), Graft(kids, i, g);
    KeysAfterSplit(keys, i, g.sep, lo, hi);
    forall j | 0 <= j < |kids'| ensures Ordered(kids'[j], h - 1, Lo(keys', j, lo), Hi(keys', j, hi)) {
      if j < i {
        assert kids'[j] == kids[j];
        assert Hi(keys', j, hi) == Hi(keys, j, hi);
      } else if j == i {
        assert kids'[j] == g.left;
      } else if j == i + 1 {
        assert kids'[j] == g.right;
      } else {
        assert kids'[j] == kids[j - 1];
        assert Lo(keys', j, lo) == Lo(keys, j - 1, lo) && Hi(keys', j, hi) == Hi(keys, j - 1, hi);
      }
    }
  }

  lemma {:induction false} SeparatesHalves(keys: seq<int>, kids: seq<Tree>, h: nat, lo: int, hi: int, m: nat)
    requires h > 1 && Separates(keys, kids, h, lo, hi) && m < |keys|
    ensures Separates(keys[..m], kids[..m + 1], h, lo, keys[m])
    ensures Separates(keys[m + 1..], kids[m + 1..], h, keys[m], hi)
  {
    var k1, t1, k2, t2 := keys[..m], kids[..m + 1], keys[m + 1..], kids[m + 1..];
    forall j | 0 <= j < |t1| ensures Ordered(t1[j], h - 1, Lo(k1, j, lo), Hi(k1, j, keys[m])) {
      assert t1[j] == kids[j];
    }
    forall j | 0 <= j < |t2| ensures Ordered(t2[j], h - 1, Lo(k2, j, keys[m]), Hi(k2, j, hi)) {
      assert t2[j] == kids[m + 1 + j];
    }
  }

  lemma {:induction false} LeafPutOrdered(id: nat, es: seq<Entry>, lo: int, hi: int, k: int, v: Value, a: Alloc)
    requires Ordered(Leaf(id, es), 1, lo, hi) && lo <= k < hi
    ensures GrownOrdered(Ins(Leaf(id, es), k, v, a).0, 1, lo, hi)
  {
    PutWithin(es, k, v, lo, hi);
    PutSorted(es, k, v);
    var es' := Put(es, k, v);
    if |es'| > LEAF_ORDER {
      LeafHalves(id, es', a.NextId(), lo, hi);
    }
  }

  lemma {:induction false} AbsorbOrdered(t: Tree, h: nat, lo: int, hi: int, i: nat, g: Grown, a: Alloc)
    requires lo < hi && t.Node? && |t.kids| == |t.keys| + 1 && i <= |t.keys| && Ordered(t, h, lo, hi)
    requires GrownOrdered(g, h - 1, Lo(t.keys, i, lo), Hi(t.keys, i, hi))
    ensures GrownOrdered(Absorb(t.id, t.keys, t.kids, i, g, a).0, h, lo, hi)
  {
    var Node(id, keys, kids) := t;
    if g.Whole? {
      GraftWhole(keys, kids, h, lo, hi, i, g.tree);
    } else {
      GraftHalves(keys, kids, h, lo, hi, i, g);
      var keys' := InsertAt(keys, i, g.sep);
      if |keys'| > INTERNAL_ORDER {
        SeparatesHalves(keys', Graft(kids, i, g), h, lo, hi, |keys'| / 2);
      }
    }
  }

  /** Insertion keeps the search-tree invariant, at the same height. */
  lemma {:induction false} InsOrdered(t: Tree, h: nat, lo: int, hi: int, k: int, v: Value, a: Alloc)
    requires Ordered(t, h, lo, hi) && lo <= k < hi
    ensures GrownOrdered(Ins(t, k, v, a).0, h, lo, hi)
    decreases h
  {
    if t.Leaf? {
      LeafPutOrdered(t.id, t.entries, lo, hi, k, v, a);
    } else {
      var i := ChildIndex(t.keys, k);
      InsOrdered(t.kids[i], h - 1, Lo(t.keys, i, lo), Hi(t.keys, i, hi), k, v, a);
      var (g, a') := Ins(t.kids[i], k, v, a);
      AbsorbOrdered(t, h, lo, hi, i, g, a');
    }
  }

  lemma {:induction false} DelOrdered(t: Tree, h: nat, lo: int, hi: int, k: int)
    requires Ordered(t, h, lo, hi) && lo <= k < hi
    ensures Ordered(Del(t, k), h, lo, hi)
    decreases h
  {
    match t
    case Leaf(id, es) =>
      PutWithin(es, k, [], lo, hi);
      PutSorted(es, k, []);
    case Node(id, keys, kids) =>
      var i := ChildIndex(keys, k);
      DelOrdered(kids[i], h - 1, Lo(keys, i, lo), Hi(keys, i, hi), k);
      GraftWhole(keys, kids, h, lo, hi, i, Del(kids[i], k));
  }

  // ---------------------------------------------------------------- content

  function FlatGrown(g: Grown): seq<Entry> {
    match g
    case Whole(t) => Flat(t)
    case Halves(l, _, r) => Flat(l) + Flat(r)
  }

  lemma {:induction false} FlatGraft(kids: seq<Tree>, i: nat, g: Grown)
    requires i < |kids|
    ensures FlatAll(Graft(kids, i, g)) == FlatAll(kids[..i]) + FlatGrown(g) + FlatAll(kids[i + 1..])
  {
    var mid := if g.Whole? then [g.tree] else [g.left, g.right];
    FlatAllConcat(kids[..i] + mid, kids[i + 1..]);
    FlatAllConcat(kids[..i], mid);
    if g.Whole? {
      FlatAllOne(g.tree);
    } else {
      assert mid == [g.left] + [g.right];
      FlatAllConcat([g.left], [g.right]);
      FlatAllOne(g.left);
      FlatAllOne(g.right);
    }
  }

  lemma {:induction false} FlatSplitInternal(id: nat, keys: seq<int>, kids: seq<Tree>, rid: nat)
    requires |keys| > 0 && |kids| == |keys| + 1
    ensures FlatGrown(SplitInternal(id, keys, kids, rid)) == FlatAll(kids)
  {
    var mid := |keys| / 2;
    assert kids == kids[..mid + 1] + kids[mid + 1..];
    FlatAllConcat(kids[..mid + 1], kids[mid + 1..]);
  }

  lemma {:induction false} AbsorbFlat(t: Tree, i: nat, g: Grown, a: Alloc)
    requires t.Node? && |t.kids| == |t.keys| + 1 && i <= |t.keys|
    ensures FlatGrown(Absorb(t.id, t.keys, t.kids, i, g, a).0)
         == FlatAll(t.kids[..i]) + FlatGrown(g) + FlatAll(t.kids[i + 1..])
  {
    FlatGraft(t.kids, i, g);
    if g.Halves? && |t.keys| + 1 > INTERNAL_ORDER {
      FlatSplitInternal(t.id, InsertAt(t.keys, i, g.sep), Graft(t.kids, i, g), a.NextId());
    }
  }

  lemma {:induction false} LeafPutFlat(id: nat, es: seq<Entry>, k: int, v: Value, a: Alloc)
    ensures FlatGrown(Ins(Leaf(id, es), k, v, a).0) == Put(es, k, v)
  {
    var es' := Put(es, k, v);
    assert es' == es'[..|es'| / 2] + es'[|es'| / 2..];
  }

  /** Insertion changes the entries of a tree by exactly one Put. */
  lemma {:induction false} InsFlat(t: Tree, h: nat, lo: int, hi: int, k: int, v: Value, a: Alloc)
    requires Ordered(t, h, lo, hi) && lo <= k < hi
    ensures FlatGrown(Ins(t, k, v, a).0) == Put(Flat(t), k, v)
    decreases h
  {
    if t.Leaf? {
      LeafPutFlat(t.id, t.entries, k, v, a);
    } else {
      var i := ChildIndex(t.keys, k);
      var (g, a') := Ins(t.kids[i], k, v, a);
      var l, r := Route(t.keys, t.kids, h, lo, hi, k);
      InsFlat(t.kids[i], h - 1, Lo(t.keys, i, lo), Hi(t.keys, i, hi), k, v, a);
      FlatSorted(t.kids[i], h - 1, Lo(t.keys, i, lo), Hi(t.keys, i, hi));
      PutLocal(l, Flat(t.kids[i]), r, k, v);
      AbsorbFlat(t, i, g, a');
    }
  }

  /** Deletion changes the entries of a tree by exactly one Remove. */
  lemma {:induction false} DelFlat(t: Tree, h: nat, lo: int, hi: int, k: int)
    requires Ordered(t, h, lo, hi) && lo <= k < hi
    ensures Flat(Del(t, k)) == Remove(Flat(t), k)
    decreases h
  {
    if t.Node? {
      var keys, kids, i := t.keys, t.kids, ChildIndex(t.keys, k);
      var l, r := Route(keys, kids, h, lo, hi, k);
      DelFlat(kids[i], h - 1, Lo(keys, i, lo), Hi(keys, i, hi), k);
      FlatSorted(kids[i], h - 1, Lo(keys, i, lo), Hi(keys, i, hi));
      PutLocal(l, Flat(kids[i]), r, k, []);
      FlatGraft(kids, i, Whole(Del(kids[i], k)));
    }
  }

  // ---------------------------------------------------------------- fill

  ghost predicate GrownFilled(g: Grown, h: nat, root: bool) {
    match g
    case Whole(t) => Filled(t, h, root)
    case Halves(l, _, r) => Filled(l, h, false) && Filled(r, h, false)
  }

  lemma {:induction false} GraftFilled(kids: seq<Tree>, h: nat, i: nat, g: Grown)
    requires i < |kids| && GrownFilled(g, h, false)
    requires forall j :: 0 <= j < |kids| ==> Filled(kids[j], h, false)
    ensures forall j :: 0 <= j < |Graft(kids, i, g)| ==> Filled(Graft(kids, i, g)[j], h, false)
  {
  }

  /** Splits leave both halves at least half full. */
  lemma {:induction false} InsFilled(t: Tree, h: nat, lo: int, hi: int, k: int, v: Value, a: Alloc, root: bool)
    requires Ordered(t, h, lo, hi) && lo <= k < hi && Filled(t, h, root)
    ensures GrownFilled(Ins(t, k, v, a).0, h, root)
    decreases h
  {
    if t.Leaf? {
      PutWithin(t.entries, k, v, lo, hi);
    } else {
      var i := ChildIndex(t.keys, k);
      var (g, a') := Ins(t.kids[i], k, v, a);
      InsFilled(t.kids[i], h - 1, Lo(t.keys, i, lo), Hi(t.keys, i, hi), k, v, a, false);
      GraftFilled(t.kids, h - 1, i, g);
    }
  }

  // ---------------------------------------------------------------- whole trees

  /** A tree together with the allocator that supplies its pages and its number of levels. */
  datatype State = State(tree: Tree, alloc: Alloc, height: nat) {
    ghost predicate Ok() {
      Ordered(tree, height, 0, KEY_LIMIT)
    }
  }

  /** Create: the header page is allocated first, then an empty leaf for the root. */
  function Created(a: Alloc): State {
    State(Leaf(a.Take().NextId(), []), a.Take().Take(), 1)
  }

  /** Insert: when the root splits, a new root is allocated above the halves. */
  function Inserted(s: State, k: int, v: Value): State {
    var (g, a) := Ins(s.tree, k, v, s.alloc);
    match g
    case Whole(t) => State(t, a, s.height)
    case Halves(l, sep, r) => State(Node(a.NextId(), [sep], [l, r]), a.Take(), s.height + 1)
  }

  function Deleted(s: State, k: int): State {
    s.(tree := Del(s.tree, k))
  }

  lemma {:induction false} NewRoot(g: Grown, h: nat, id: nat)
    requires h >= 1 && g.Halves? && GrownOrdered(g, h, 0, KEY_LIMIT)
    ensures Ordered(Node(id, [g.sep], [g.left, g.right]), h + 1, 0, KEY_LIMIT)
    ensures FlatAll([g.left, g.right]) == FlatGrown(g)
  {
    assert [g.left, g.right][..1] == [g.left];
    FlatAllOne(g.left);
  }

  lemma {:induction false} InsertedOk(s: State, k: int, v: Value)
    requires s.Ok() && 0 <= k < KEY_LIMIT
    ensures Inserted(s, k, v).Ok()
    ensures Flat(Inserted(s, k, v).tree) == Put(Flat(s.tree), k, v)
    ensures Filled(s.tree, s.height, true) ==> Filled(Inserted(s, k, v).tree, Inserted(s, k, v).height, true)
  {
    InsOrdered(s.tree, s.height, 0, KEY_LIMIT, k, v, s.alloc);
    InsFlat(s.tree, s.height, 0, KEY_LIMIT, k, v, s.alloc);
    if Filled(s.tree, s.height, true) {
      InsFilled(s.tree, s.height, 0, KEY_LIMIT, k, v, s.alloc, true);
    }
    var (g, a) := Ins(s.tree, k, v, s.alloc);
    if g.Halves? {
      NewRoot(g, s.height, a.NextId());
    }
  }

  lemma {:induction false} DeletedOk(s: State, k: int)
    requires s.Ok() && 0 <= k < KEY_LIMIT
    ensures Deleted(s, k).Ok()
    ensures Flat(Deleted(s, k).tree) == Remove(Flat(s.tree), k)
  {
    DelOrdered(s.tree, s.height, 0, KEY_LIMIT, k);
    DelFlat(s.tree, s.height, 0, KEY_LIMIT, k);
  }

  datatype Op = Insert(key: int, val: Value) | Delete(key: int)

  /** The tree after Create and a run of operations. */
  function Run(a: Alloc, ops: seq<Op>): State {
    if ops == [] then Created(a) else
    var s := Run(a, ops[..|ops| - 1]);
    match ops[|ops| - 1]
    case Insert(k, v) => Inserted(s, k, v)
    case Delete(k) => Deleted(s, k)
  }

  /** The finite map after the same run. */
  function RunMap(ops: seq<Op>): map<int, Value> {
    if ops == [] then map[] else
    var m := RunMap(ops[..|ops| - 1]);
    match ops[|ops| - 1]
    case Insert(k, v) => m[k := v]
    case Delete(k) => m - {k}
  }

  /** For every run of inserts and deletes from Create the tree keeps its invariant and
      stands for the finite map of that run; with no deletes it also stays half full. */
  lemma {:induction false} RunRefinesMap(a: Alloc, ops: seq<Op>)
    requires forall i :: 0 <= i < |ops| ==> 0 <= ops[i].key < KEY_LIMIT
    ensures Run(a, ops).Ok()
    ensures Sorted(Flat(Run(a, ops).tree))
    ensures AsMap(Flat(Run(a, ops).tree)) == RunMap(ops)
    ensures (forall i :: 0 <= i < |ops| ==> ops[i].Insert?) ==> Filled(Run(a, ops).tree, Run(a, ops).height, true)
  {
    if ops != [] {
      var ops', op := ops[..|ops| - 1], ops[|ops| - 1];
      RunRefinesMap(a, ops');
      var s := Run(a, ops');
      match op {
        case Insert(k, v) =>
          InsertedOk(s, k, v);
          PutIsUpdate(Flat(s.tree), k, v);
        case Delete(k) =>
          DeletedOk(s, k);
          PutIsUpdate(Flat(s.tree), k, []);
      }
    }
    FlatSorted(Run(a, ops).tree, Run(a, ops).height, 0, KEY_LIMIT);
  }
}
