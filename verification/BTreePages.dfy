/** How a file of pages represents a tree: one page per node, no page shared, and
    a chain through the leaves that follows their order. */
module BTreePages {
  import opened Pages
  import opened BTreeSpec
  import opened BTreeOps

  function KidIds(kids: seq<Tree>): (ids: seq<nat>)
    ensures |ids| == |kids|
  {
    seq(|kids|, i requires 0 <= i < |kids| => kids[i].id)
  }

  /** The page id of the leftmost leaf. */
  function FirstLeaf(t: Tree): nat {
    if t.Leaf? then t.id else if t.kids == [] then 0 else FirstLeaf(t.kids[0])
  }

  /** The leaf that follows the last leaf of ts[i], when nxt follows all of ts. */
  function NextOf(ts: seq<Tree>, i: nat, nxt: nat): nat {
    if i + 1 < |ts| then FirstLeaf(ts[i + 1]) else nxt
  }

  /** The file holds the tree t, and nxt is the leaf that follows its last leaf. */
  ghost predicate Rep(f: map<nat, Page>, t: Tree, nxt: nat) {
    && t.id in f
    && match t
       case Leaf(id, es) => f[id].data == LeafData(es, nxt)
       case Node(id, keys, kids) =>
         && f[id].data == InternalData(keys, KidIds(kids))
         && forall i :: 0 <= i < |kids| ==> Rep(f, kids[i], NextOf(kids, i, nxt))
  }

  ghost predicate RepAll(f: map<nat, Page>, ts: seq<Tree>, nxt: nat) {
    forall i :: 0 <= i < |ts| ==> Rep(f, ts[i], NextOf(ts, i, nxt))
  }

  ghost function Ids(t: Tree): set<nat> {
    {t.id} + if t.Leaf? then {} else set i, p | 0 <= i < |t.kids| && p in Ids(t.kids[i]) :: p
  }

  /** No page serves two nodes. */
  ghost predicate Distinct(t: Tree) {
    t.Node? ==>
      && (forall i :: 0 <= i < |t.kids| ==> t.id !in Ids(t.kids[i]) && Distinct(t.kids[i]))
      && (forall i, j :: 0 <= i < j < |t.kids| ==> Ids(t.kids[i]) !! Ids(t.kids[j]))
  }

  ghost predicate DistinctAll(ts: seq<Tree>) {
    && (forall i :: 0 <= i < |ts| ==> Distinct(ts[i]))
    && (forall i, j :: 0 <= i < j < |ts| ==> Ids(ts[i]) !! Ids(ts[j]))
  }

  lemma {:induction false} IdsOf(t: Tree)
    ensures t.id in Ids(t)
    ensures t.Node? ==> forall i :: 0 <= i < |t.kids| ==> Ids(t.kids[i]) <= Ids(t)
  {
  }

  /** Every page of t is handed out by the allocator. */
  ghost predicate Owns(a: Alloc, t: Tree) {
    forall p :: p in Ids(t) ==> p != META_PAGE && !a.Available(p)
  }

  lemma {:induction false} RepFrame(f: map<nat, Page>, f': map<nat, Page>, t: Tree, nxt: nat)
    requires Rep(f, t, nxt)
    requires forall p :: p in Ids(t) && p in f ==> p in f' && f'[p] == f[p]
    ensures Rep(f', t, nxt)
  {
    assert t.id in Ids(t);
    if t.Node? {
      forall i | 0 <= i < |t.kids| ensures Rep(f', t.kids[i], NextOf(t.kids, i, nxt)) {
        RepFrame(f, f', t.kids[i], NextOf(t.kids, i, nxt));
      }
    }
  }

  lemma {:induction false} RepFrameAll(f: map<nat, Page>, f': map<nat, Page>, ts: seq<Tree>, nxt: nat)
    requires RepAll(f, ts, nxt)
    requires forall i, p :: 0 <= i < |ts| && p in Ids(ts[i]) && p in f ==> p in f' && f'[p] == f[p]
    ensures RepAll(f', ts, nxt)
  {
    forall i | 0 <= i < |ts| ensures Rep(f', ts[i], NextOf(ts, i, nxt)) {
      RepFrame(f, f', ts[i], NextOf(ts, i, nxt));
    }
  }

  // ---------------------------------------------------------------- growth

  ghost function GrownIds(g: Grown): set<nat> {
    if g.Whole? then Ids(g.tree) else Ids(g.left) + Ids(g.right)
  }

  ghost predicate GrownDistinct(g: Grown) {
    if g.Whole? then Distinct(g.tree)
    else Distinct(g.left) && Distinct(g.right) && Ids(g.left) !! Ids(g.right)
  }

  /** How the pages of a grown subtree relate to those of t: the root and the first
      leaf stay, and any other page was taken from the allocator on the way from a to b. */
  ghost predicate GrewFrom(g: Grown, t: Tree, a: Alloc, b: Alloc) {
    && b.Valid()
    && (forall p :: b.Available(p) ==> a.Available(p))
    && GrownDistinct(g)
    && GrownRoot(g).id == t.id
    && FirstLeaf(GrownRoot(g)) == FirstLeaf(t)
    && (forall p :: p in GrownIds(g) ==> p != META_PAGE && !b.Available(p))
    && (forall p :: p in GrownIds(g) ==> p in Ids(t) || a.Available(p))
  }

  lemma {:induction false} GraftDistinct(kids: seq<Tree>, i: nat, g: Grown, a: Alloc, b: Alloc)
    requires i < |kids| && DistinctAll(kids)
    requires forall j :: 0 <= j < |kids| ==> Owns(a, kids[j])
    requires GrewFrom(g, kids[i], a, b)
    ensures DistinctAll(Graft(kids, i, g))
    ensures forall j, p :: 0 <= j < |Graft(kids, i, g)| && p in Ids(Graft(kids, i, g)[j]) ==>
      p in GrownIds(g) || exists j' :: 0 <= j' < |kids| && p in Ids(kids[j'])
  {
    hide Ids, Distinct, Graft, Alloc.Available;
    GraftAt(kids, i, g);
    forall j | 0 <= j < |kids| && j != i ensures Ids(kids[j]) !! GrownIds(g) {
      assert forall p :: p in Ids(kids[j]) ==> !a.Available(p);
    }
  }

  ghost predicate RepGrown(f: map<nat, Page>, g: Grown, nxt: nat) {
    if g.Whole? then Rep(f, g.tree, nxt)
    else Rep(f, g.left, FirstLeaf(g.right)) && Rep(f, g.right, nxt)
  }

  lemma {:induction false} NextAfterGraft(kids: seq<Tree>, i: nat, g: Grown, nxt: nat, j: nat)
    requires i < |kids| && j < |Graft(kids, i, g)|
    requires FirstLeaf(GrownRoot(g)) == FirstLeaf(kids[i])
    ensures var out := Graft(kids, i, g);
      && (j < i ==> NextOf(out, j, nxt) == NextOf(kids, j, nxt))
      && (j == i && g.Halves? ==> NextOf(out, j, nxt) == FirstLeaf(g.right))
      && (j == i + Width(g) - 1 ==> NextOf(out, j, nxt) == NextOf(kids, i, nxt))
      && (j >= i + Width(g) ==> NextOf(out, j, nxt) == NextOf(kids, j - Width(g) + 1, nxt))
  {
    GraftAt(kids, i, g);
  }

  /** The chain survives: grafting the grown kid i keeps the kids linked in order. */
  lemma {:induction false} RepGraft(f: map<nat, Page>, f': map<nat, Page>, kids: seq<Tree>, i: nat, g: Grown, nxt: nat)
    requires i < |kids| && RepAll(f, kids, nxt)
    requires forall j, p :: 0 <= j < |kids| && j != i && p in Ids(kids[j]) && p in f ==> p in f' && f'[p] == f[p]
    requires RepGrown(f', g, NextOf(kids, i, nxt))
    requires FirstLeaf(GrownRoot(g)) == FirstLeaf(kids[i])
    ensures RepAll(f', Graft(kids, i, g), nxt)
  {
    forall j | 0 <= j < |kids| && j != i ensures Rep(f', kids[j], NextOf(kids, j, nxt)) {
      RepFrame(f, f', kids[j], NextOf(kids, j, nxt));
    }
    GraftAt(kids, i, g);
    var out := Graft(kids, i, g);
    forall j | 0 <= j < |out| ensures Rep(f', out[j], NextOf(out, j, nxt)) {
      NextAfterGraft(kids, i, g, nxt, j);
    }
  }

  lemma {:induction false} RepCut(f: map<nat, Page>, kids: seq<Tree>, m: nat, nxt: nat)
    requires RepAll(f, kids, nxt) && 0 < m < |kids|
    ensures RepAll(f, kids[..m], FirstLeaf(kids[m])) && RepAll(f, kids[m..], nxt)
  {
    var l, r := kids[..m], kids[m..];
    forall i | 0 <= i < |l| ensures Rep(f, l[i], NextOf(l, i, FirstLeaf(kids[m]))) {
      assert NextOf(l, i, FirstLeaf(kids[m])) == NextOf(kids, i, nxt);
    }
    forall i | 0 <= i < |r| ensures Rep(f, r[i], NextOf(r, i, nxt)) {
      assert NextOf(r, i, nxt) == NextOf(kids, m + i, nxt);
    }
  }

  /** The two pages written by an internal split represent its halves. */
  lemma {:induction false} RepHalves(f: map<nat, Page>, f': map<nat, Page>, id: nat, rid: nat, keys: seq<int>, kids: seq<Tree>, nxt: nat)
    requires |keys| > 0 && |kids| == |keys| + 1 && RepAll(f, kids, nxt)
    requires forall i, p :: 0 <= i < |kids| && p in Ids(kids[i]) && p in f ==> p in f' && f'[p] == f[p]
    requires var mid, ids := |keys| / 2, KidIds(kids);
      && id in f' && f'[id].data == InternalData(keys[..mid], ids[..mid + 1])
      && rid in f' && f'[rid].data == InternalData(keys[mid + 1..], ids[mid + 1..])
    ensures RepGrown(f', SplitInternal(id, keys, kids, rid), nxt)
  {
    hide Rep, Ids;
    var mid, ids := |keys| / 2, KidIds(kids);
    assert ids[mid + 1..] == KidIds(kids[mid + 1..]) && ids[..mid + 1] == KidIds(kids[..mid + 1]);
    RepFrameAll(f, f', kids, nxt);
    RepCut(f', kids, mid + 1, nxt);
    RepNode(f', id, keys[..mid], kids[..mid + 1], FirstLeaf(kids[mid + 1]));
    RepNode(f', rid, keys[mid + 1..], kids[mid + 1..], nxt);
  }

  lemma {:induction false} RepNode(f: map<nat, Page>, id: nat, keys: seq<int>, kids: seq<Tree>, nxt: nat)
    requires id in f && f[id].data == InternalData(keys, KidIds(kids)) && RepAll(f, kids, nxt)
    ensures Rep(f, Node(id, keys, kids), nxt)
  {
  }

  lemma {:induction false} GraftIds(kids: seq<Tree>, i: nat, g: Grown)
    requires i < |kids| && g.Halves? && g.left.id == kids[i].id
    ensures KidIds(Graft(kids, i, g)) == InsertAt(KidIds(kids), i + 1, g.right.id)
  {
    GraftAt(kids, i, g);
  }

  lemma {:induction false} LeafGrew(id: nat, es: seq<Entry>, k: int, v: Value, a: Alloc)
    requires a.Valid() && Owns(a, Leaf(id, es))
    ensures var (g, b) := Ins(Leaf(id, es), k, v, a); GrewFrom(g, Leaf(id, es), a, b)
  {
    a.TakeExact();
    assert id in Ids(Leaf(id, es));
  }

  /** The ids in a node with the given kids. */
  lemma {:induction false} NodeIds(id: nat, keys: seq<int>, kids: seq<Tree>, p: nat)
    ensures p in Ids(Node(id, keys, kids)) <==> p == id || exists i :: 0 <= i < |kids| && p in Ids(kids[i])
  {
  }

  /** Cutting a row of kids in two under fresh ids keeps every page unshared. */
  lemma {:induction false} CutDistinct(id: nat, rid: nat, keys: seq<int>, kids: seq<Tree>)
    requires |keys| > 0 && |kids| == |keys| + 1 && DistinctAll(kids) && id != rid
    requires forall i :: 0 <= i < |kids| ==> id !in Ids(kids[i]) && rid !in Ids(kids[i])
    ensures GrownDistinct(SplitInternal(id, keys, kids, rid))
  {
    hide Ids;
    var g, m := SplitInternal(id, keys, kids, rid), |keys| / 2 + 1;
    var l, r := kids[..m], kids[m..];
    assert forall i :: 0 <= i < |l| ==> l[i] == kids[i];
    assert forall i :: 0 <= i < |r| ==> r[i] == kids[m + i];
    forall p: nat | p in Ids(g.left) ensures p !in Ids(g.right) {
      NodeIds(id, keys[..|keys| / 2], l, p);
      NodeIds(rid, keys[m..], r, p);
    }
  }

  lemma {:induction false} GraftOwned(kids: seq<Tree>, i: nat, g: Grown, a: Alloc, b: Alloc)
    requires i < |kids|
    requires forall j :: 0 <= j < |kids| ==> Owns(a, kids[j])
    requires GrewFrom(g, kids[i], a, b)
    ensures forall j :: 0 <= j < |Graft(kids, i, g)| ==> Owns(b, Graft(kids, i, g)[j])
  {
    GraftAt(kids, i, g);
    var out := Graft(kids, i, g);
    forall j | 0 <= j < |out| ensures Owns(b, out[j]) {
      if j < i {
        assert Owns(a, kids[j]);
      } else if j >= i + Width(g) {
        assert Owns(a, kids[j - Width(g) + 1]);
      } else {
        assert Ids(out[j]) <= GrownIds(g);
      }
    }
  }

  /** The kids of t after one of them grew, when the allocator went from a to b. */
  ghost predicate KidsGrew(kids: seq<Tree>, t: Tree, a: Alloc, b: Alloc) {
    && DistinctAll(kids)
    && (forall j :: 0 <= j < |kids| ==> t.id !in Ids(kids[j]) && Owns(b, kids[j]))
    && (forall j, p :: 0 <= j < |kids| && p in Ids(kids[j]) ==> p in Ids(t) || a.Available(p))
    && kids != [] && t.id != META_PAGE && !a.Available(t.id)
    && FirstLeaf(kids[0]) == FirstLeaf(t)
    && b.Valid() && (forall p :: b.Available(p) ==> a.Available(p))
  }

  lemma {:induction false} GraftGrew(t: Tree, i: nat, g: Grown, a: Alloc, b: Alloc)
    requires t.Node? && i < |t.kids|
    requires a.Valid() && Distinct(t) && Owns(a, t) && GrewFrom(g, t.kids[i], a, b)
    ensures KidsGrew(Graft(t.kids, i, g), t, a, b)
  {
    assert t.id in Ids(t);
    forall j | 0 <= j < |t.kids| ensures Owns(a, t.kids[j]) {
      assert Ids(t.kids[j]) <= Ids(t);
    }
    GraftAt(t.kids, i, g);
    GraftDistinct(t.kids, i, g, a, b);
    GraftOwned(t.kids, i, g, a, b);
  }

  lemma {:induction false} WholeGrew(kids: seq<Tree>, keys: seq<int>, t: Tree, a: Alloc, b: Alloc)
    requires KidsGrew(kids, t, a, b)
    ensures GrewFrom(Whole(Node(t.id, keys, kids)), t, a, b)
  {
    assert t.id in Ids(t);
  }

  lemma {:induction false} HalvesGrew(kids: seq<Tree>, keys: seq<int>, t: Tree, a: Alloc, b: Alloc)
    requires KidsGrew(kids, t, a, b) && |keys| > 0 && |kids| == |keys| + 1
    ensures GrewFrom(SplitInternal(t.id, keys, kids, b.NextId()), t, a, b.Take())
  {
    assert t.id in Ids(t);
    b.TakeExact();
    CutDistinct(t.id, b.NextId(), keys, kids);
    var g := SplitInternal(t.id, keys, kids, b.NextId());
    var m := |keys| / 2 + 1;
    forall p | p in GrownIds(g) ensures p == t.id || p == b.NextId() || exists j :: 0 <= j < |kids| && p in Ids(kids[j]) {
      if p in Ids(g.left) && p != t.id {
        var j :| 0 <= j < |g.left.kids| && p in Ids(g.left.kids[j]);
        assert g.left.kids[j] == kids[j];
      } else if p in Ids(g.right) && p != b.NextId() {
        var j :| 0 <= j < |g.right.kids| && p in Ids(g.right.kids[j]);
        assert g.right.kids[j] == kids[m + j];
      }
    }
  }

  /** The pages of a node after it took in its grown kid. */
  lemma {:induction false} AbsorbGrew(t: Tree, i: nat, g: Grown, a: Alloc, b: Alloc)
    requires t.Node? && |t.kids| == |t.keys| + 1 && i <= |t.keys|
    requires a.Valid() && Distinct(t) && Owns(a, t) && GrewFrom(g, t.kids[i], a, b)
    ensures var (g', b') := Absorb(t.id, t.keys, t.kids, i, g, b); GrewFrom(g', t, a, b')
  {
    GraftGrew(t, i, g, a, b);
    var keys' := if g.Whole? then t.keys else InsertAt(t.keys, i, g.sep);
    if |keys'| <= INTERNAL_ORDER || g.Whole? {
      WholeGrew(Graft(t.kids, i, g), keys', t, a, b);
    } else {
      HalvesGrew(Graft(t.kids, i, g), keys', t, a, b);
    }
  }

  /** The kids of t after kid i grew, in a file where only pages of that kid, or pages
      that were available, have changed. */
  lemma {:induction false} RepKidGrew(f: map<nat, Page>, f': map<nat, Page>, t: Tree, i: nat, g: Grown, a: Alloc, nxt: nat)
    requires t.Node? && i < |t.kids| && Rep(f, t, nxt) && Distinct(t) && Owns(a, t)
    requires forall p :: p in f && p != META_PAGE && !a.Available(p) && p !in Ids(t.kids[i]) ==> p in f' && f'[p] == f[p]
    requires RepGrown(f', g, NextOf(t.kids, i, nxt))
    requires FirstLeaf(GrownRoot(g)) == FirstLeaf(t.kids[i])
    ensures RepAll(f', Graft(t.kids, i, g), nxt)
    ensures t.id in f' && f'[t.id] == f[t.id]
  {
    assert t.id in Ids(t);
    forall j, p | 0 <= j < |t.kids| && j != i && p in Ids(t.kids[j]) && p in f ensures p in f' && f'[p] == f[p] {
      assert p in Ids(t);
      assert p !in Ids(t.kids[i]);
    }
    RepGraft(f, f', t.kids, i, g, nxt);
  }

  lemma {:induction false} GraftKeepsIds(kids: seq<Tree>, i: nat, g: Grown)
    requires i < |kids| && g.Whole? && g.tree.id == kids[i].id
    ensures KidIds(Graft(kids, i, g)) == KidIds(kids)
  {
    GraftAt(kids, i, g);
  }

  /** Insertion never shares a page: every page of the result was in t or is newly taken. */
  lemma {:induction false} InsGrew(t: Tree, h: nat, lo: int, hi: int, k: int, v: Value, a: Alloc)
    requires Ordered(t, h, lo, hi) && lo <= k < hi
    requires a.Valid() && Distinct(t) && Owns(a, t)
    ensures var (g, b) := Ins(t, k, v, a); GrewFrom(g, t, a, b)
    decreases h
  {
    if t.Leaf? {
      LeafGrew(t.id, t.entries, k, v, a);
    } else {
      var i := ChildIndex(t.keys, k);
      assert Ids(t.kids[i]) <= Ids(t);
      InsGrew(t.kids[i], h - 1, Lo(t.keys, i, lo), Hi(t.keys, i, hi), k, v, a);
      var (g, b) := Ins(t.kids[i], k, v, a);
      AbsorbGrew(t, i, g, a, b);
    }
  }

  /** The pages of the kids and page id are handed out, and page id belongs to no kid. */
  ghost predicate Clear(a: Alloc, id: nat, kids: seq<Tree>) {
    && id != META_PAGE && !a.Available(id)
    && forall i, p :: 0 <= i < |kids| && p in Ids(kids[i]) ==> p != META_PAGE && !a.Available(p) && p != id
  }

  lemma {:induction false} GrewClear(kids: seq<Tree>, t: Tree, a: Alloc, b: Alloc)
    requires KidsGrew(kids, t, a, b)
    ensures Clear(b, t.id, kids)
  {
    forall i, p | 0 <= i < |kids| && p in Ids(kids[i]) ensures p != META_PAGE && !b.Available(p) && p != t.id {
      assert Owns(b, kids[i]);
    }
  }

  /** What an internal node hands to the child chosen for k. */
  lemma {:induction false} KidReady(f: map<nat, Page>, t: Tree, h: nat, lo: int, hi: int, k: int, a: Alloc, nxt: nat)
    requires t.Node? && Ordered(t, h, lo, hi) && lo <= k < hi
    requires Rep(f, t, nxt) && Distinct(t) && Owns(a, t)
    ensures h > 1 && Ascending(t.keys) && |t.kids| == |t.keys| + 1 && t.id in Ids(t)
    ensures t.id in f && f[t.id].data == InternalData(t.keys, KidIds(t.kids))
    ensures var i := ChildIndex(t.keys, k);
      && Rep(f, t.kids[i], NextOf(t.kids, i, nxt))
      && Distinct(t.kids[i]) && Owns(a, t.kids[i]) && Ids(t.kids[i]) <= Ids(t)
      && Ordered(t.kids[i], h - 1, Lo(t.keys, i, lo), Hi(t.keys, i, hi))
      && Lo(t.keys, i, lo) <= k < Hi(t.keys, i, hi)
  {
    IdsOf(t);
    hide Ids;
  }

  /** What an internal node finds after the recursive insertion into the child chosen for k. */
  lemma {:induction false} KidInserted(f: map<nat, Page>, f': map<nat, Page>, t: Tree, h: nat, lo: int, hi: int,
                    k: int, v: Value, a: Alloc, nxt: nat)
    requires t.Node? && Ordered(t, h, lo, hi) && lo <= k < hi
    requires a.Valid() && Rep(f, t, nxt) && Distinct(t) && Owns(a, t)
    requires |t.kids| == |t.keys| + 1
    requires var i := ChildIndex(t.keys, k);
      && RepGrown(f', Ins(t.kids[i], k, v, a).0, NextOf(t.kids, i, nxt))
      && forall p :: p in f && p != META_PAGE && !a.Available(p) && p !in Ids(t.kids[i]) ==> p in f' && f'[p] == f[p]
    ensures var i := ChildIndex(t.keys, k);
      var (g, b) := Ins(t.kids[i], k, v, a);
      var kids' := Graft(t.kids, i, g);
      && GrownRoot(g).id == t.kids[i].id
      && RepAll(f', kids', nxt)
      && Clear(b, t.id, kids')
      && t.id in f' && f'[t.id] == f[t.id]
  {
    var i := ChildIndex(t.keys, k);
    var (g, b) := Ins(t.kids[i], k, v, a);
    assert t.id in Ids(t) && Ids(t.kids[i]) <= Ids(t);
    InsGrew(t.kids[i], h - 1, Lo(t.keys, i, lo), Hi(t.keys, i, hi), k, v, a);
    GraftGrew(t, i, g, a, b);
    GrewClear(Graft(t.kids, i, g), t, a, b);
    RepKidGrew(f, f', t, i, g, a, nxt);
  }

  lemma {:induction false} RepNewRoot(f: map<nat, Page>, f': map<nat, Page>, id: nat, g: Grown)
    requires g.Halves? && RepGrown(f, g, 0)
    requires forall p :: p in GrownIds(g) && p in f ==> p in f' && f'[p] == f[p]
    requires id in f' && f'[id].data == InternalData([g.sep], [g.left.id, g.right.id])
    ensures Rep(f', Node(id, [g.sep], [g.left, g.right]), 0)
  {
    RepFrame(f, f', g.left, FirstLeaf(g.right));
    RepFrame(f, f', g.right, 0);
    assert KidIds([g.left, g.right]) == [g.left.id, g.right.id];
  }

  lemma {:induction false} NewRootIds(id: nat, g: Grown)
    requires g.Halves? && GrownDistinct(g) && id !in GrownIds(g)
    ensures Ids(Node(id, [g.sep], [g.left, g.right])) == {id} + GrownIds(g)
    ensures Distinct(Node(id, [g.sep], [g.left, g.right]))
  {
    var kids := [g.left, g.right];
    assert kids[0] == g.left && kids[1] == g.right;
  }

  /** The pages of the whole tree after an insertion: none shared, all handed out, and
      each one either a page of the old tree or newly taken. */
  lemma {:induction false} InsertedPages(t: Tree, h: nat, a: Alloc, k: int, v: Value)
    requires Ordered(t, h, 0, KEY_LIMIT) && 0 <= k < KEY_LIMIT
    requires a.Valid() && Distinct(t) && Owns(a, t)
    ensures var s := Inserted(State(t, a, h), k, v); Distinct(s.tree) && Owns(s.alloc, s.tree)
    ensures forall p :: p in Ids(Inserted(State(t, a, h), k, v).tree) ==> p in Ids(t) || a.Available(p)
    ensures var (g, b) := Ins(t, k, v, a);
      && GrownRoot(g).id == t.id
      && (forall p :: p in GrownIds(g) ==> p != META_PAGE && !b.Available(p))
      && (forall p :: p in GrownIds(g) ==> p in Ids(t) || a.Available(p))
  {
    hide Ids, Distinct, Ordered, Ins;
    InsGrew(t, h, 0, KEY_LIMIT, k, v, a);
    var (g, b) := Ins(t, k, v, a);
    if g.Halves? {
      b.TakeExact();
      NewRootIds(b.NextId(), g);
    } else {
      assert GrownIds(g) == Ids(g.tree);
    }
  }

  /** Two lists agree on whether they hold k and on its entry. */
  ghost predicate SameLookup(s: seq<Entry>, r: seq<Entry>, k: int) {
    Has(s, k) == Has(r, k) && (Has(s, k) ==> s[LowerBound(s, k)] == r[LowerBound(r, k)])
  }

  lemma {:induction false} SameLookupTrans(s: seq<Entry>, r: seq<Entry>, q: seq<Entry>, k: int)
    requires SameLookup(s, r, k) && SameLookup(r, q, k)
    ensures SameLookup(s, q, k)
  {
  }

  lemma {:induction false} LeafFlat(t: Tree)
    ensures t.Leaf? ==> Flat(t) == t.entries
  {
  }

  /** Looking k up in a node is looking it up in the child chosen for k. */
  lemma {:induction false} RouteLookup(t: Tree, h: nat, lo: int, hi: int, k: int)
    requires t.Node? && Ordered(t, h, lo, hi) && lo <= k < hi && |t.kids| == |t.keys| + 1
    ensures SameLookup(Flat(t.kids[ChildIndex(t.keys, k)]), Flat(t), k)
    ensures var i := ChildIndex(t.keys, k); Lo(t.keys, i, lo) <= k < Hi(t.keys, i, hi)
  {
    var i := ChildIndex(t.keys, k);
    var l, r := Route(t.keys, t.kids, h, lo, hi, k);
    FlatSorted(t.kids[i], h - 1, Lo(t.keys, i, lo), Hi(t.keys, i, hi));
    PutLocal(l, Flat(t.kids[i]), r, k, []);
  }

  /** Replacing a kid by one with the same pages changes neither the pages nor their sharing. */
  lemma {:induction false} SamePages(id: nat, keys: seq<int>, kids: seq<Tree>, i: nat, t: Tree)
    requires i < |kids| && Distinct(Node(id, keys, kids)) && Distinct(t) && Ids(t) == Ids(kids[i])
    ensures var n := Node(id, keys, Graft(kids, i, Whole(t))); Ids(n) == Ids(Node(id, keys, kids)) && Distinct(n)
  {
    GraftAt(kids, i, Whole(t));
    var kids' := Graft(kids, i, Whole(t));
    SameIds(id, keys, kids, kids');
    hide Ids;
    forall j | 0 <= j < |kids'| ensures id !in Ids(kids'[j]) && Distinct(kids'[j]) {
      assert Ids(kids'[j]) == Ids(kids[j]);
    }
    forall j, l | 0 <= j < l < |kids'| ensures Ids(kids'[j]) !! Ids(kids'[l]) {
      assert Ids(kids'[j]) == Ids(kids[j]) && Ids(kids'[l]) == Ids(kids[l]);
    }
  }

  lemma {:induction false} SameIds(id: nat, keys: seq<int>, kids: seq<Tree>, kids': seq<Tree>)
    requires |kids'| == |kids| && forall j :: 0 <= j < |kids| ==> Ids(kids'[j]) == Ids(kids[j])
    ensures Ids(Node(id, keys, kids')) == Ids(Node(id, keys, kids))
  {
    forall p: nat ensures p in Ids(Node(id, keys, kids')) <==> p in Ids(Node(id, keys, kids)) {
      NodeIds(id, keys, kids, p);
      NodeIds(id, keys, kids', p);
      hide Ids;
    }
  }

  /** Deletion keeps every page of the tree. */
  lemma {:induction false} DelPages(t: Tree, h: nat, lo: int, hi: int, k: int)
    requires Ordered(t, h, lo, hi) && Distinct(t)
    ensures Del(t, k).id == t.id && Ids(Del(t, k)) == Ids(t) && FirstLeaf(Del(t, k)) == FirstLeaf(t)
    ensures Distinct(Del(t, k))
    decreases h
  {
    if t.Node? {
      var i := ChildIndex(t.keys, k);
      var kid := t.kids[i];
      DelPages(kid, h - 1, Lo(t.keys, i, lo), Hi(t.keys, i, hi), k);
      GraftAt(t.kids, i, Whole(Del(kid, k)));
      hide Ids, Distinct, Ordered;
      SamePages(t.id, t.keys, t.kids, i, Del(kid, k));
    }
  }

  /** A file in which only the page of the child chosen for k changed holds the tree without k. */
  lemma {:induction false} RepDel(f: map<nat, Page>, f': map<nat, Page>, t: Tree, h: nat, lo: int, hi: int, k: int, nxt: nat)
    requires t.Node? && Ordered(t, h, lo, hi) && Distinct(t) && Rep(f, t, nxt) && |t.kids| == |t.keys| + 1
    requires var i := ChildIndex(t.keys, k);
      && Rep(f', Del(t.kids[i], k), NextOf(t.kids, i, nxt))
      && forall p :: p in f && p !in Ids(t.kids[i]) ==> p in f' && f'[p] == f[p]
    ensures Rep(f', Del(t, k), nxt)
  {
    var i := ChildIndex(t.keys, k);
    var g := Whole(Del(t.kids[i], k));
    DelPages(t.kids[i], h - 1, Lo(t.keys, i, lo), Hi(t.keys, i, hi), k);
    forall j, p | 0 <= j < |t.kids| && j != i && p in Ids(t.kids[j]) && p in f ensures p in f' && f'[p] == f[p] {
      assert p !in Ids(t.kids[i]);
    }
    RepGraft(f, f', t.kids, i, g, nxt);
    GraftKeepsIds(t.kids, i, g);
    RepNode(f', t.id, t.keys, Graft(t.kids, i, g), nxt);
  }

  lemma {:induction false} EmptyLeaf(f: map<nat, Page>, a: Alloc, id: nat)
    requires id in f && f[id].data == LeafData([], 0) && id != META_PAGE && !a.Available(id)
    ensures Rep(f, Leaf(id, []), 0) && Distinct(Leaf(id, [])) && Owns(a, Leaf(id, []))
    ensures Ordered(Leaf(id, []), 1, 0, KEY_LIMIT) && Ids(Leaf(id, [])) == {id}
  {
  }

  /** The page of a subtree's root is handed out and holds what the tree says. */
  lemma {:induction false} RootPage(f: map<nat, Page>, a: Alloc, t: Tree, nxt: nat)
    requires Rep(f, t, nxt) && Owns(a, t)
    ensures t.id != META_PAGE && !a.Available(t.id) && t.id in f
    ensures f[t.id].data == if t.Leaf? then LeafData(t.entries, nxt) else InternalData(t.keys, KidIds(t.kids))
  {
    IdsOf(t);
  }
}
