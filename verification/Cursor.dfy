/** Range access: the bulk scan along the leaf chain and the lazy cursor. */
module Cursors {
  import opened Pages
  import opened Seqs
  import opened Pagers
  import opened BTreeSpec
  import opened BTreeOps
  import opened BTreePages
  import opened BTrees

  datatype LeafRef = LeafRef(id: nat, entries: seq<Entry>)

  // ---------------------------------------------------------------- the leaf sequence

  /** The leaves of a tree in order. */
  function Leaves(t: Tree): seq<LeafRef> {
    match t
    case Leaf(id, es) => [LeafRef(id, es)]
    case Node(_, _, kids) => LeavesAll(kids)
  }

  function LeavesAll(ts: seq<Tree>): seq<LeafRef> {
    if ts == [] then [] else LeavesAll(ts[..|ts| - 1]) + Leaves(ts[|ts| - 1])
  }

  /** The entries of a row of leaves. */
  function Join(ls: seq<LeafRef>): seq<Entry> {
    if ls == [] then [] else Join(ls[..|ls| - 1]) + ls[|ls| - 1].entries
  }

  lemma {:induction false} JoinConcat(a: seq<LeafRef>, b: seq<LeafRef>)
    ensures Join(a + b) == Join(a) + Join(b)
  {
    if b == [] {
      assert a + b == a;
    } else {
      var b' := b[..|b| - 1];
      JoinConcat(a, b');
      assert (a + b)[..|a + b| - 1] == a + b' && (a + b)[|a + b| - 1] == b[|b| - 1];
      assert Join(a + b) == (Join(a) + Join(b')) + b[|b| - 1].entries;
    }
  }

  lemma {:induction false} JoinAll(ts: seq<Tree>)
    ensures Join(LeavesAll(ts)) == FlatAll(ts)
    decreases ts, 0
  {
    if ts != [] {
      JoinAll(ts[..|ts| - 1]);
      JoinLeaves(ts[|ts| - 1]);
      JoinConcat(LeavesAll(ts[..|ts| - 1]), Leaves(ts[|ts| - 1]));
    }
  }

  /** The leaves hold exactly the entries of the tree, in order. */
  lemma {:induction false} JoinLeaves(t: Tree)
    ensures Join(Leaves(t)) == Flat(t)
    decreases t, 1
  {
    if t.Node? {
      JoinAll(t.kids);
    } else {
      assert Leaves(t)[..0] == [];
    }
  }

  function Successor(ls: seq<LeafRef>, i: nat, nxt: nat): nat {
    if i + 1 < |ls| then ls[i + 1].id else nxt
  }

  /** The pages of the leaves form a chain from the first to nxt. */
  ghost predicate Linked(f: map<nat, Page>, ls: seq<LeafRef>, nxt: nat) {
    forall i :: 0 <= i < |ls| ==>
      ls[i].id in f && f[ls[i].id].data == LeafData(ls[i].entries, Successor(ls, i, nxt))
  }

  lemma {:induction false} LinkedConcat(f: map<nat, Page>, a: seq<LeafRef>, b: seq<LeafRef>, nxt: nat)
    requires b != [] && Linked(f, a, b[0].id) && Linked(f, b, nxt)
    ensures Linked(f, a + b, nxt)
  {
    var ls := a + b;
    forall i | 0 <= i < |ls|
      ensures ls[i].id in f && f[ls[i].id].data == LeafData(ls[i].entries, Successor(ls, i, nxt))
    {
      if i < |a| {
        assert ls[i] == a[i] && Successor(ls, i, nxt) == Successor(a, i, b[0].id);
      } else {
        assert ls[i] == b[i - |a|] && Successor(ls, i, nxt) == Successor(b, i - |a|, nxt);
      }
    }
  }

  /** Leaf pages are ordinary pages of the tree. */
  ghost predicate Inside(ls: seq<LeafRef>, ids: set<nat>) {
    forall i :: 0 <= i < |ls| ==> ls[i].id in ids
  }

  lemma {:induction false} ChainAll(f: map<nat, Page>, t: Tree, h: nat, lo: int, hi: int, nxt: nat, n: nat)
    requires t.Node? && Ordered(t, h, lo, hi) && Rep(f, t, nxt) && 1 <= n <= |t.kids|
    ensures var ls := LeavesAll(t.kids[..n]);
      && ls != [] && ls[0].id == FirstLeaf(t.kids[0])
      && Linked(f, ls, NextOf(t.kids, n - 1, nxt))
      && Inside(ls, Ids(t))
    decreases h, 0, n
  {
    hide Ids, Rep, Ordered, Leaves, Linked, Inside;
    KidAt(f, t, h, lo, hi, nxt, n - 1);
    var kid, prefix := t.kids[n - 1], LeavesAll(t.kids[..n - 1]);
    ChainInOrder(f, kid, h - 1, Lo(t.keys, n - 1, lo), Hi(t.keys, n - 1, hi), NextOf(t.kids, n - 1, nxt));
    TakeOne(t.kids, n - 1);
    InsideWider(Leaves(kid), Ids(kid), Ids(t));
    if n > 1 {
      ChainAll(f, t, h, lo, hi, nxt, n - 1);
      LinkedConcat(f, prefix, Leaves(kid), NextOf(t.kids, n - 1, nxt));
      InsideConcat(prefix, Leaves(kid), Ids(t));
    } else {
      assert LeavesAll(t.kids[..n]) == Leaves(kid);
    }
  }

  lemma {:induction false} InsideWider(ls: seq<LeafRef>, ids: set<nat>, more: set<nat>)
    requires Inside(ls, ids) && ids <= more
    ensures Inside(ls, more)
  {
  }

  lemma {:induction false} InsideConcat(a: seq<LeafRef>, b: seq<LeafRef>, ids: set<nat>)
    requires Inside(a, ids) && Inside(b, ids)
    ensures Inside(a + b, ids)
  {
  }

  lemma {:induction false} KidAt(f: map<nat, Page>, t: Tree, h: nat, lo: int, hi: int, nxt: nat, i: nat)
    requires t.Node? && Ordered(t, h, lo, hi) && Rep(f, t, nxt) && i < |t.kids|
    ensures h > 1 && |t.kids| == |t.keys| + 1
    ensures Rep(f, t.kids[i], NextOf(t.kids, i, nxt)) && Ids(t.kids[i]) <= Ids(t)
    ensures Ordered(t.kids[i], h - 1, Lo(t.keys, i, lo), Hi(t.keys, i, hi))
  {
    IdsOf(t);
  }

  /** The NextLeaf chain of the file is the in-order sequence of the leaves, across subtrees. */
  lemma {:induction false} ChainInOrder(f: map<nat, Page>, t: Tree, h: nat, lo: int, hi: int, nxt: nat)
    requires Ordered(t, h, lo, hi) && Rep(f, t, nxt)
    ensures Leaves(t) != [] && Leaves(t)[0].id == FirstLeaf(t)
    ensures Linked(f, Leaves(t), nxt) && Inside(Leaves(t), Ids(t))
    decreases h, 1
  {
    if t.Node? {
      ChainAll(f, t, h, lo, hi, nxt, |t.kids|);
      assert t.kids[..|t.kids|] == t.kids;
    }
  }

  // ---------------------------------------------------------------- where a seek lands

  /** The position, among the leaves of t, of the leaf that a search for k reaches. */
  function Landing(t: Tree, k: int): nat {
    match t
    case Leaf(_, _) => 0
    case Node(_, keys, kids) =>
      var i := ChildIndex(keys, k);
      if |kids| != |keys| + 1 then 0 else |LeavesAll(kids[..i])| + Landing(kids[i], k)
  }

  lemma {:induction false} LeavesAllConcat(a: seq<Tree>, b: seq<Tree>)
    ensures LeavesAll(a + b) == LeavesAll(a) + LeavesAll(b)
  {
    if b == [] {
      assert a + b == a;
    } else {
      var b' := b[..|b| - 1];
      LeavesAllConcat(a, b');
      assert (a + b)[..|a + b| - 1] == a + b' && (a + b)[|a + b| - 1] == b[|b| - 1];
      assert LeavesAll(a + b) == (LeavesAll(a) + LeavesAll(b')) + Leaves(b[|b| - 1]);
    }
  }

  lemma {:induction false} LeavesAround(kids: seq<Tree>, i: nat)
    requires i < |kids|
    ensures LeavesAll(kids) == LeavesAll(kids[..i]) + Leaves(kids[i]) + LeavesAll(kids[i + 1..])
  {
    assert LeavesAll([kids[i]]) == Leaves(kids[i]) by {
      assert [kids[i]][..0] == [];
    }
    hide *;
    Around(kids, i);
    LeavesAllConcat(kids[..i] + [kids[i]], kids[i + 1..]);
    LeavesAllConcat(kids[..i], [kids[i]]);
  }

  ghost predicate AllBelow(s: seq<Entry>, k: int) {
    forall j :: 0 <= j < |s| ==> s[j].key < k
  }

  ghost predicate AllAbove(s: seq<Entry>, k: int) {
    forall j :: 0 <= j < |s| ==> s[j].key > k
  }

  /** Leaf n of ls is where k belongs: the leaves before it are below k, those after it above. */
  ghost predicate LandsAt(ls: seq<LeafRef>, n: nat, k: int) {
    n < |ls| && AllBelow(Join(ls[..n]), k) && AllAbove(Join(ls[n + 1..]), k)
  }

  lemma {:induction false} LandsAfter(before: seq<LeafRef>, ls: seq<LeafRef>, after: seq<LeafRef>, n: nat, k: int)
    requires LandsAt(ls, n, k) && AllBelow(Join(before), k) && AllAbove(Join(after), k)
    ensures LandsAt(before + ls + after, |before| + n, k)
    ensures (before + ls + after)[|before| + n] == ls[n]
  {
    hide Join, AllBelow, AllAbove;
    TakeInto(before, ls, after, n);
    TakeInto(before, ls, after, n + 1);
    JoinConcat(before, ls[..n]);
    JoinConcat(ls[n + 1..], after);
    BoundsConcat(Join(before), Join(ls[..n]), k);
    BoundsConcat(Join(ls[n + 1..]), Join(after), k);
  }

  lemma {:induction false} BoundsConcat(a: seq<Entry>, b: seq<Entry>, k: int)
    ensures AllBelow(a, k) && AllBelow(b, k) ==> AllBelow(a + b, k)
    ensures AllAbove(a, k) && AllAbove(b, k) ==> AllAbove(a + b, k)
  {
  }

  lemma {:induction false} LandingNode(t: Tree, k: int)
    requires t.Node? && |t.kids| == |t.keys| + 1
    ensures Leaves(t) == LeavesAll(t.kids)
    ensures var i := ChildIndex(t.keys, k); Landing(t, k) == |LeavesAll(t.kids[..i])| + Landing(t.kids[i], k)
  {
  }

  lemma {:induction false} LandingKid(t: Tree, h: nat, lo: int, hi: int, k: int)
    requires t.Node? && Ordered(t, h, lo, hi) && lo <= k < hi && |t.kids| == |t.keys| + 1
    requires var kid := t.kids[ChildIndex(t.keys, k)];
      Landing(kid, k) < |Leaves(kid)| && LandsAt(Leaves(kid), Landing(kid, k), k)
    ensures Landing(t, k) < |Leaves(t)| && LandsAt(Leaves(t), Landing(t, k), k)
    ensures var kid := t.kids[ChildIndex(t.keys, k)]; Leaves(t)[Landing(t, k)] == Leaves(kid)[Landing(kid, k)]
  {
    hide Join, Leaves, Landing, LeavesAll, Flat, FlatAll, LandsAt;
    var i := ChildIndex(t.keys, k);
    var kid := t.kids[i];
    var l, r := Route(t.keys, t.kids, h, lo, hi, k);
    JoinAll(t.kids[..i]);
    JoinAll(t.kids[i + 1..]);
    LeavesAround(t.kids, i);
    LandingNode(t, k);
    LandsAfter(LeavesAll(t.kids[..i]), Leaves(kid), LeavesAll(t.kids[i + 1..]), Landing(kid, k), k);
  }

  /** A search for k lands on the leaf where k belongs, whatever level it starts from. */
  lemma {:induction false} LandingRight(t: Tree, h: nat, lo: int, hi: int, k: int)
    requires Ordered(t, h, lo, hi) && lo <= k < hi
    ensures Landing(t, k) < |Leaves(t)| && LandsAt(Leaves(t), Landing(t, k), k)
    decreases h
  {
    if t.Node? {
      var i := ChildIndex(t.keys, k);
      LandingRight(t.kids[i], h - 1, Lo(t.keys, i, lo), Hi(t.keys, i, hi), k);
      LandingKid(t, h, lo, hi, k);
    } else {
      assert Leaves(t)[..0] == [] && Leaves(t)[1..] == [];
    }
  }

  // ---------------------------------------------------------------- the range

  /** The entries of s whose key lies in [min, max]. */
  function Select(s: seq<Entry>, min: int, max: int): seq<Entry> {
    if s == [] then [] else
    var e := s[|s| - 1];
    Select(s[..|s| - 1], min, max) + if min <= e.key <= max then [e] else []
  }

  lemma {:induction false} SelectConcat(a: seq<Entry>, b: seq<Entry>, min: int, max: int)
    ensures Select(a + b, min, max) == Select(a, min, max) + Select(b, min, max)
  {
    if b == [] {
      assert a + b == a;
    } else {
      var b' := b[..|b| - 1];
      SelectConcat(a, b', min, max);
      assert (a + b)[..|a + b| - 1] == a + b' && (a + b)[|a + b| - 1] == b[|b| - 1];
    }
  }

  lemma {:induction false} SelectNone(s: seq<Entry>, min: int, max: int)
    requires forall i :: 0 <= i < |s| ==> s[i].key < min || s[i].key > max
    ensures Select(s, min, max) == []
  {
    if s != [] {
      SelectNone(s[..|s| - 1], min, max);
    }
  }

  lemma {:induction false} SelectAll(s: seq<Entry>, min: int, max: int)
    requires forall i :: 0 <= i < |s| ==> min <= s[i].key <= max
    ensures Select(s, min, max) == s
  {
    if s != [] {
      SelectAll(s[..|s| - 1], min, max);
      TakeOne(s, |s| - 1);
      assert s[..|s|] == s;
    }
  }

  lemma {:induction false} SelectSorted(s: seq<Entry>, min: int, max: int)
    requires Sorted(s)
    ensures Sorted(Select(s, min, max))
    ensures forall i :: 0 <= i < |Select(s, min, max)| ==>
      min <= Select(s, min, max)[i].key <= max && (s != [] ==> Select(s, min, max)[i].key <= s[|s| - 1].key)
  {
    if s != [] {
      SelectSorted(s[..|s| - 1], min, max);
    }
  }

  ghost function Restrict(m: map<int, Value>, min: int, max: int): map<int, Value> {
    map k | k in m && min <= k <= max :: m[k]
  }

  lemma {:induction false} RestrictUpdate(m: map<int, Value>, k: int, v: Value, min: int, max: int)
    requires k !in m
    ensures Restrict(m[k := v], min, max) ==
      if min <= k <= max then Restrict(m, min, max)[k := v] else Restrict(m, min, max)
  {
  }

  /** The selected entries are the restriction of the map to [min, max]. */
  lemma {:induction false} SelectIsRestriction(s: seq<Entry>, min: int, max: int)
    requires Sorted(s)
    ensures AsMap(Select(s, min, max)) == Restrict(AsMap(s), min, max)
  {
    if s != [] {
      var r, e := s[..|s| - 1], s[|s| - 1];
      SelectIsRestriction(r, min, max);
      AsMapMisses(r, e.key);
      RestrictUpdate(AsMap(r), e.key, e.val, min, max);
      hide Restrict;
      if min <= e.key <= max {
        AsMapConcat(Select(r, min, max), [e]);
        assert AsMap([e]) == map[e.key := e.val] by {
          assert [e][..0] == [];
        }
      } else {
        assert Select(s, min, max) == Select(r, min, max);
      }
    }
  }

  /** Walks from the root to the leaf where key belongs. */
  method SeekLeaf(bt: BTree, key: int) returns (nodeID: nat)
    requires bt.Valid() && 0 <= key < KEY_LIMIT
    ensures Landing(bt.tree, key) < |Leaves(bt.tree)| && LandsAt(Leaves(bt.tree), Landing(bt.tree, key), key)
    ensures nodeID == Leaves(bt.tree)[Landing(bt.tree, key)].id
  {
    hide Ids, Distinct, LandsAt, Rep, Owns, Ordered;
    nodeID := bt.rootID;
    ghost var t, h, lo, hi, nxt := bt.tree, bt.height, 0, KEY_LIMIT, 0;
    LandingRight(t, h, lo, hi, key);
    while true
      invariant t.id == nodeID && Rep(bt.pg.file, t, nxt) && Owns(bt.pg.State(), t) && Distinct(t)
      invariant Ordered(t, h, lo, hi) && lo <= key < hi
      invariant Landing(t, key) < |Leaves(t)|
      invariant Leaves(t)[Landing(t, key)] == Leaves(bt.tree)[Landing(bt.tree, key)]
      decreases h
    {
      RootPage(bt.pg.file, bt.pg.State(), t, nxt);
      var page := bt.pg.ReadPage(nodeID);
      match page.page.data {
        case LeafData(_, _) =>
          return;
        case InternalData(keys, children) =>
          KidReady(bt.pg.file, t, h, lo, hi, key, bt.pg.State(), nxt);
          var i := FindChildIndex(keys, key);
          LandingRight(t.kids[i], h - 1, Lo(keys, i, lo), Hi(keys, i, hi), key);
          LandingKid(t, h, lo, hi, key);
          nodeID := children[i];
          t, h, lo, hi, nxt := t.kids[i], h - 1, Lo(keys, i, lo), Hi(keys, i, hi), NextOf(t.kids, i, nxt);
      }
    }
  }

  lemma {:induction false} SelectStep(s: seq<Entry>, i: nat, min: int, max: int)
    requires i < |s|
    ensures Select(s[..i + 1], min, max) ==
      if min <= s[i].key <= max then Select(s[..i], min, max) + [s[i]] else Select(s[..i], min, max)
  {
    TakeOne(s, i);
  }

  lemma {:induction false} SelectStop(s: seq<Entry>, i: nat, min: int, max: int)
    requires Sorted(s) && i < |s| && s[i].key > max
    ensures Select(s, min, max) == Select(s[..i], min, max)
  {
    hide Select;
    CutAt(s, i);
    SelectConcat(s[..i], s[i..], min, max);
    SelectNone(s[i..], min, max);
  }

  /** One leaf of the bulk scan: collects the entries in range, and stops at the first beyond. */
  method ScanLeaf(entries: seq<Entry>, min: int, max: int) returns (out: seq<Entry>, done: bool)
    requires Sorted(entries)
    ensures out == Select(entries, min, max)
    ensures done <==> exists i :: 0 <= i < |entries| && entries[i].key > max
  {
    hide Select;
    out := [];
    SelectNone([], min, max);
    assert entries[..0] == [];
    for i := 0 to |entries|
      invariant out == Select(entries[..i], min, max)
      invariant forall j :: 0 <= j < i ==> entries[j].key <= max
    {
      if entries[i].key > max {
        SelectStop(entries, i, min, max);
        return out, true;
      }
      SelectStep(entries, i, min, max);
      if entries[i].key >= min {
        out := out + [entries[i]];
      }
    }
    assert entries[..|entries|] == entries;
    return out, false;
  }

  lemma {:induction false} JoinOne(l: LeafRef)
    ensures Join([l]) == l.entries
  {
    assert [l][..0] == [];
  }

  lemma {:induction false} JoinStep(ls: seq<LeafRef>, n: nat)
    requires n < |ls|
    ensures Join(ls[..n + 1]) == Join(ls[..n]) + ls[n].entries
    ensures Join(ls) == Join(ls[..n]) + ls[n].entries + Join(ls[n + 1..])
  {
    TakeOne(ls, n);
    Around(ls, n);
    JoinConcat(ls[..n] + [ls[n]], ls[n + 1..]);
    JoinConcat(ls[..n], [ls[n]]);
    JoinOne(ls[n]);
  }

  lemma {:induction false} SortedParts(a: seq<Entry>, b: seq<Entry>, c: seq<Entry>)
    requires Sorted(a + b + c)
    ensures Sorted(b)
    ensures forall i, j :: 0 <= i < |b| && 0 <= j < |c| ==> b[i].key < c[j].key
    ensures forall i, j :: 0 <= i < |a| && 0 <= j < |b| ==> a[i].key < b[j].key
  {
    var s := a + b + c;
    assert forall i :: 0 <= i < |a| ==> s[i] == a[i];
    assert forall i :: 0 <= i < |b| ==> s[|a| + i] == b[i];
    assert forall i :: 0 <= i < |c| ==> s[|a| + |b| + i] == c[i];
  }

  /** Past the first key above max nothing more is selected. */
  lemma {:induction false} SelectDone(a: seq<Entry>, b: seq<Entry>, c: seq<Entry>, min: int, max: int)
    requires Sorted(a + b + c) && exists i :: 0 <= i < |b| && b[i].key > max
    ensures Select(a + b + c, min, max) == Select(a, min, max) + Select(b, min, max)
  {
    SortedParts(a, b, c);
    SelectNone(c, min, max);
    SelectConcat(a + b, c, min, max);
    SelectConcat(a, b, min, max);
  }

  lemma {:induction false} ScanStep(ls: seq<LeafRef>, n: nat, min: int, max: int)
    requires n < |ls| && Sorted(Join(ls))
    ensures Sorted(ls[n].entries)
    ensures Select(Join(ls[..n + 1]), min, max) == Select(Join(ls[..n]), min, max) + Select(ls[n].entries, min, max)
    ensures (exists i :: 0 <= i < |ls[n].entries| && ls[n].entries[i].key > max) ==>
      Select(Join(ls), min, max) == Select(Join(ls[..n + 1]), min, max)
  {
    hide Join, Select;
    JoinStep(ls, n);
    SortedParts(Join(ls[..n]), ls[n].entries, Join(ls[n + 1..]));
    SelectConcat(Join(ls[..n]), ls[n].entries, min, max);
    if exists i :: 0 <= i < |ls[n].entries| && ls[n].entries[i].key > max {
      SelectDone(Join(ls[..n]), ls[n].entries, Join(ls[n + 1..]), min, max);
    }
  }

  /** The leaves of a valid tree, as its file holds them. */
  lemma {:induction false} ChainReady(bt: BTree)
    requires bt.Valid()
    ensures var ls := Leaves(bt.tree);
      && Linked(bt.pg.file, ls, 0)
      && (forall i :: 0 <= i < |ls| ==> bt.pg.InUse(ls[i].id))
      && Join(ls) == bt.Contents() && Sorted(Join(ls))
  {
    ChainInOrder(bt.pg.file, bt.tree, bt.height, 0, KEY_LIMIT, 0);
    JoinLeaves(bt.tree);
    FlatSorted(bt.tree, bt.height, 0, KEY_LIMIT);
    hide Leaves, Join, Flat, Rep, Distinct, Ordered, Ids;
  }

  /** Step 2 of the bulk scan: along the chain from page start, which heads the leaves ls. */
  method ScanChain(pg: Pager, start: nat, min: int, max: int, ghost ls: seq<LeafRef>) returns (out: seq<Entry>)
    requires Linked(pg.file, ls, 0) && (forall i :: 0 <= i < |ls| ==> pg.InUse(ls[i].id))
    requires start == (if ls == [] then 0 else ls[0].id) && Sorted(Join(ls))
    ensures out == Select(Join(ls), min, max)
  {
    hide Join, Select, Sorted;
    out := [];
    var nodeID := start;
    ghost var n := 0;
    NothingJoined(ls, min, max);
    while nodeID != 0
      invariant n <= |ls| && nodeID == (if n < |ls| then ls[n].id else 0)
      invariant out == Select(Join(ls[..n]), min, max)
      decreases |ls| - n
    {
      var page := pg.ReadPage(nodeID);
      ScanStep(ls, n, min, max);
      var found, done := ScanLeaf(page.page.data.entries, min, max);
      out := out + found;
      if done {
        return;
      }
      nodeID := page.page.data.next;
      n := n + 1;
    }
    assert ls[..n] == ls;
  }

  lemma {:induction false} NothingJoined(ls: seq<LeafRef>, min: int, max: int)
    ensures Select(Join(ls[..0]), min, max) == []
  {
  }

  /** All entries with min <= key <= max, in key order. */
  method RangeScan(bt: BTree, min: int, max: int) returns (out: seq<Entry>)
    requires bt.Valid() && 0 <= min < KEY_LIMIT && 0 <= max < KEY_LIMIT
    ensures out == Select(bt.Contents(), min, max)
  {
    hide Join, Select, Leaves, Landing, BTree.Valid, BTree.Contents, LandsAt, Linked;
    if min > max {
      SelectNone(bt.Contents(), min, max);
      return [];
    }
    var nodeID := SeekLeaf(bt, min);
    ghost var n := Landing(bt.tree, min);
    LeavesReady(bt, n);
    FromLanding(bt, min, max);
    out := ScanChain(bt.pg, nodeID, min, max, Leaves(bt.tree)[n..]);
  }

  /** Nothing before the landing leaf is in range. */
  lemma {:induction false} FromLanding(bt: BTree, min: int, max: int)
    requires bt.Valid() && Landing(bt.tree, min) < |Leaves(bt.tree)|
    requires LandsAt(Leaves(bt.tree), Landing(bt.tree, min), min)
    ensures var rest := Join(Leaves(bt.tree)[Landing(bt.tree, min)..]);
      Sorted(rest) && Select(rest, min, max) == Select(bt.Contents(), min, max)
  {
    hide Join, Select, Leaves, Landing, BTree.Valid, BTree.Contents, Linked;
    ChainReady(bt);
    var ls, n := Leaves(bt.tree), Landing(bt.tree, min);
    CutAt(ls, n);
    JoinConcat(ls[..n], ls[n..]);
    var a, b := Join(ls[..n]), Join(ls[n..]);
    SortedParts(a, b, []);
    assert a + b + [] == a + b;
    SelectConcat(a, b, min, max);
    SelectNone(a, min, max);
  }

  /** The leaves of a tree from the n-th on, as its file holds them. */
  lemma {:induction false} LeavesReady(bt: BTree, n: nat)
    requires bt.Valid() && n < |Leaves(bt.tree)|
    ensures var ls := Leaves(bt.tree)[n..];
      && Linked(bt.pg.file, ls, 0)
      && (forall i :: 0 <= i < |ls| ==> bt.pg.InUse(ls[i].id))
      && Sorted(ls[0].entries)
  {
    var ls := Leaves(bt.tree);
    ChainReady(bt);
    hide BTree.Valid, Leaves, Join;
    JoinStep(ls, n);
    SortedParts(Join(ls[..n]), ls[n].entries, Join(ls[n + 1..]));
    LinkedTail(bt.pg.file, ls, n);
  }

  lemma {:induction false} LinkedTail(f: map<nat, Page>, ls: seq<LeafRef>, n: nat)
    requires n < |ls| && Linked(f, ls, 0)
    ensures Linked(f, ls[n..], 0)
  {
    var r := ls[n..];
    forall i | 0 <= i < |r| ensures r[i].id in f && f[r[i].id].data == LeafData(r[i].entries, Successor(r, i, 0)) {
      assert r[i] == ls[n + i] && Successor(r, i, 0) == Successor(ls, n + i, 0);
    }
  }

  // ---------------------------------------------------------------- the cursor

  /** What draining a cursor gives: the entries returned, and whether it ended by indexing
      an empty leaf (an out-of-range panic). */
  datatype Drained = Drained(entries: seq<Entry>, faults: bool)

  /** Draining from entry pos of the first of ls, following the code of Cursor.Next. */
  function Drain(ls: seq<LeafRef>, pos: nat, max: int): Drained
    requires ls != []
    decreases |ls|, |ls[0].entries| - pos
  {
    if pos < |ls[0].entries| then
      var e := ls[0].entries[pos];
      if e.key > max then Drained([], false)
      else var d := Drain(ls, pos + 1, max); Drained([e] + d.entries, d.faults)
    else if |ls| == 1 then Drained([], false)
    else if ls[1].entries == [] then Drained([], true)
    else Drain(ls[1..], 0, max)
  }

  ghost predicate AtMost(s: seq<Entry>, pos: nat, max: int) {
    forall j :: pos <= j < |s| ==> s[j].key <= max
  }

  /** Leaf i is empty, and nothing from entry pos of the first leaf up to it exceeds max. */
  ghost predicate EmptyAhead(ls: seq<LeafRef>, pos: nat, max: int, i: int) {
    && 0 < i < |ls| && ls[i].entries == []
    && AtMost(ls[0].entries, pos, max)
    && forall m :: 0 < m < i ==> AtMost(ls[m].entries, 0, max)
  }

  lemma {:induction false} FaultsExactly(ls: seq<LeafRef>, pos: nat, max: int)
    requires ls != []
    ensures Drain(ls, pos, max).faults <==> exists i :: EmptyAhead(ls, pos, max, i)
    decreases |ls|, |ls[0].entries| - pos
  {
    if pos < |ls[0].entries| {
      if ls[0].entries[pos].key > max {
        assert !AtMost(ls[0].entries, pos, max);
      } else {
        var q := pos + 1;
        FaultsExactly(ls, q, max);
        assert AtMost(ls[0].entries, pos, max) <==> AtMost(ls[0].entries, q, max);
        if exists i :: EmptyAhead(ls, pos, max, i) {
          var i :| EmptyAhead(ls, pos, max, i);
          assert EmptyAhead(ls, q, max, i);
        }
        if exists i :: EmptyAhead(ls, q, max, i) {
          var i :| EmptyAhead(ls, q, max, i);
          assert EmptyAhead(ls, pos, max, i);
        }
      }
    } else if |ls| > 1 {
      if ls[1].entries == [] {
        assert EmptyAhead(ls, pos, max, 1);
      } else {
        FaultsExactly(ls[1..], 0, max);
        forall i ensures EmptyAhead(ls, pos, max, i + 1) <==> EmptyAhead(ls[1..], 0, max, i) {
          EmptyAheadShift(ls, pos, max, i);
        }
        if exists i :: EmptyAhead(ls, pos, max, i) {
          var i :| EmptyAhead(ls, pos, max, i);
          assert EmptyAhead(ls[1..], 0, max, i - 1);
        }
      }
    }
  }

  lemma {:induction false} EmptyAheadShift(ls: seq<LeafRef>, pos: nat, max: int, i: int)
    requires |ls| > 1 && pos >= |ls[0].entries| && ls[1].entries != []
    ensures EmptyAhead(ls, pos, max, i + 1) <==> EmptyAhead(ls[1..], 0, max, i)
  {
    if EmptyAhead(ls[1..], 0, max, i) {
      forall m | 0 < m < i + 1 ensures AtMost(ls[m].entries, 0, max) {
        assert m > 1 ==> ls[1..][m - 1] == ls[m];
      }
    }
    if EmptyAhead(ls, pos, max, i + 1) {
      assert i > 0 && AtMost(ls[1].entries, 0, max);
      forall m | 0 < m < i ensures AtMost(ls[1..][m].entries, 0, max) {
        assert ls[1..][m] == ls[m + 1];
      }
    }
  }

  /** The entries still ahead of a cursor. */
  function Ahead(ls: seq<LeafRef>, pos: nat): seq<Entry>
    requires ls != [] && pos <= |ls[0].entries|
  {
    ls[0].entries[pos..] + Join(ls[1..])
  }

  /** A cursor returns what is ahead of it up to max in order; without a fault, all of it. */
  lemma {:induction false} DrainIsSelect(ls: seq<LeafRef>, pos: nat, min: int, max: int)
    requires ls != [] && pos <= |ls[0].entries| && Sorted(Ahead(ls, pos))
    requires forall i :: 0 <= i < |Ahead(ls, pos)| ==> Ahead(ls, pos)[i].key >= min
    ensures Drain(ls, pos, max).entries <= Select(Ahead(ls, pos), min, max)
    ensures !Drain(ls, pos, max).faults ==> Drain(ls, pos, max).entries == Select(Ahead(ls, pos), min, max)
    decreases |ls|, |ls[0].entries| - pos
  {
    var s := Ahead(ls, pos);
    if pos < |ls[0].entries| {
      var e := ls[0].entries[pos];
      AheadNext(ls, pos);
      SortedTail(e, Ahead(ls, pos + 1), min);
      hide Ahead, Sorted, Select;
      if e.key > max {
        SelectConcat([e], Ahead(ls, pos + 1), min, max);
        SelectNone([e], min, max);
        SelectNone(Ahead(ls, pos + 1), min, max);
      } else {
        DrainIsSelect(ls, pos + 1, min, max);
        SelectConcat([e], Ahead(ls, pos + 1), min, max);
        SelectAll([e], min, max);
      }
    } else if |ls| > 1 {
      AheadHop(ls, pos);
      if ls[1].entries != [] {
        DrainIsSelect(ls[1..], 0, min, max);
      }
    } else {
      JoinNone(ls);
    }
  }

  lemma {:induction false} JoinNone(ls: seq<LeafRef>)
    requires |ls| == 1
    ensures Join(ls[1..]) == []
  {
  }

  lemma {:induction false} AheadNext(ls: seq<LeafRef>, pos: nat)
    requires ls != [] && pos < |ls[0].entries|
    ensures Ahead(ls, pos) == [ls[0].entries[pos]] + Ahead(ls, pos + 1)
  {
    hide Join;
  }

  lemma {:induction false} SortedTail(e: Entry, r: seq<Entry>, min: int)
    requires Sorted([e] + r) && forall i :: 0 <= i < |[e] + r| ==> ([e] + r)[i].key >= min
    ensures Sorted(r) && e.key >= min && forall i :: 0 <= i < |r| ==> r[i].key > e.key
  {
    var s := [e] + r;
    assert s[0] == e;
    assert forall i :: 0 <= i < |r| ==> r[i] == s[i + 1];
  }

  lemma {:induction false} AheadHop(ls: seq<LeafRef>, pos: nat)
    requires |ls| > 1 && pos == |ls[0].entries|
    ensures Ahead(ls, pos) == Ahead(ls[1..], 0)
  {
    JoinStep(ls[1..], 0);
    assert ls[1..][..0] == [];
    assert ls[0].entries[pos..] == [] && ls[1].entries[0..] == ls[1].entries;
  }

  lemma {:induction false} DrainStep(ls: seq<LeafRef>, pos: nat, max: int)
    requires ls != []
    ensures var d, es := Drain(ls, pos, max), ls[0].entries;
      && (pos < |es| && es[pos].key > max ==> d == Drained([], false))
      && (pos < |es| && es[pos].key <= max ==>
            d.entries != [] && d.entries[0] == es[pos] && Drain(ls, pos + 1, max) == Drained(d.entries[1..], d.faults))
      && (pos >= |es| && |ls| == 1 ==> d == Drained([], false))
      && (pos >= |es| && |ls| > 1 ==> d == if ls[1].entries == [] then Drained([], true) else Drain(ls[1..], 0, max))
  {
  }

  lemma {:induction false} LinkedAt(f: map<nat, Page>, ls: seq<LeafRef>, i: nat)
    requires Linked(f, ls, 0) && i < |ls|
    ensures ls[i].id in f && f[ls[i].id].data == LeafData(ls[i].entries, Successor(ls, i, 0))
  {
  }

  datatype Step = Item(entry: Entry) | End | Fault

  class Cursor {
    const pg: Pager
    const maxKey: int
    var entries: seq<Entry>
    var next: nat
    var pos: nat
    var done: bool
    ghost var leaves: seq<LeafRef>

    /** The loaded leaf is the first of the leaves that remain of the chain. */
    ghost predicate Valid()
      reads this, pg
    {
      !done ==>
        && leaves != []
        && leaves[0].entries == entries && next == Successor(leaves, 0, 0)
        && pos <= |entries|
        && pg.Valid() && Linked(pg.file, leaves, 0)
        && forall i :: 0 <= i < |leaves| ==> pg.InUse(leaves[i].id)
    }

    /** What draining this cursor will give. */
    ghost function Rest(): Drained
      reads this
    {
      if done || leaves == [] then Drained([], false) else Drain(leaves, pos, maxKey)
    }

    /** NewCursor: positioned at the first entry with key >= min; exhausted when min > max. */
    constructor (bt: BTree, min: int, max: int)
      requires bt.Valid() && 0 <= min < KEY_LIMIT && 0 <= max < KEY_LIMIT
      ensures Valid()
      ensures pg == bt.pg && maxKey == max
      ensures Rest() == Expected(bt.tree, min, max)
    {
      pg, maxKey := bt.pg, max;
      entries, next, pos, done, leaves := [], 0, 0, true, [];
      if min <= max {
        var nodeID := SeekLeaf(bt, min);
        ghost var n := Landing(bt.tree, min);
        ghost var ls := Leaves(bt.tree)[n..];
        LeavesReady(bt, n);
        var page := bt.pg.ReadPage(nodeID);
        var start, _ := LeafSearchKey(page.page.data.entries, min);
        entries, next, pos, done := page.page.data.entries, page.page.data.next, start, false;
        leaves := ls;
      }
    }

    /** The next entry; following the chain into an empty leaf is a fault. */
    method Next() returns (r: Step)
      requires Valid()
      modifies this
      ensures r != Fault ==> Valid()
      ensures r == (if old(Rest()).entries != [] then Item(old(Rest()).entries[0])
                    else if old(Rest()).faults then Fault else End)
      ensures r.Item? ==> Rest() == Drained(old(Rest()).entries[1..], old(Rest()).faults)
    {
      hide Drain, Linked;
      if done {
        return End;
      }
      DrainStep(leaves, pos, maxKey);
      if pos >= |entries| {
        if next == 0 {
          assert |leaves| == 1;
          done := true;
          return End;
        }
        LinkedAt(pg.file, leaves, 1);
        LinkedTail(pg.file, leaves, 1);
        var page := pg.ReadPage(next);
        entries, next, pos := page.page.data.entries, page.page.data.next, 0;
        leaves := leaves[1..];
        if entries == [] {
          return Fault;
        }
        DrainStep(leaves, pos, maxKey);
      }
      if entries[pos].key > maxKey {
        done := true;
        return End;
      }
      pos := pos + 1;
      return Item(entries[pos - 1]);
    }
  }

  /** What a cursor over [min, max] is bound to return. */
  ghost function Expected(t: Tree, min: int, max: int): Drained {
    var ls, n := Leaves(t), Landing(t, min);
    if min > max || n >= |ls| then Drained([], false)
    else Drain(ls[n..], LowerBound(ls[n].entries, min), max)
  }

  /** Drains a cursor to its end. */
  method DrainCursor(bt: BTree, min: int, max: int) returns (out: Drained)
    requires bt.Valid() && 0 <= min < KEY_LIMIT && 0 <= max < KEY_LIMIT
    ensures out == Expected(bt.tree, min, max)
  {
    hide Expected, Drain, Linked, Cursor.Valid, Cursor.Rest;
    var c := new Cursor(bt, min, max);
    ghost var all := c.Rest();
    var entries := [];
    while true
      invariant c.Valid() && fresh(c)
      invariant entries + c.Rest().entries == all.entries && c.Rest().faults == all.faults
      decreases |c.Rest().entries|
    {
      var r := c.Next();
      match r {
        case Item(e) => entries := entries + [e];
        case End => return Drained(entries, false);
        case Fault => return Drained(entries, true);
      }
    }
  }

  // ---------------------------------------------------------------- cursor against scan

  /** Some leaf after the one where min lands is empty and is reached before max is passed. */
  ghost predicate MeetsEmptyLeaf(t: Tree, min: int, max: int) {
    var ls, n := Leaves(t), Landing(t, min);
    n < |ls| && exists i :: EmptyAhead(ls[n..], LowerBound(ls[n].entries, min), max, i)
  }

  lemma {:induction false} DropLow(s: seq<Entry>, min: int, max: int)
    requires Sorted(s)
    ensures Select(s, min, max) == Select(s[LowerBound(s, min)..], min, max)
  {
    hide Select;
    var p := LowerBound(s, min);
    CutAt(s, p);
    SelectConcat(s[..p], s[p..], min, max);
    SelectNone(s[..p], min, max);
  }

  lemma {:induction false} DropBelow(a: seq<Entry>, b: seq<Entry>, c: seq<Entry>, min: int, max: int)
    requires Sorted(a + b + c) && Sorted(b) && AllBelow(a, min)
    ensures Select(a + b + c, min, max) == Select(b[LowerBound(b, min)..] + c, min, max)
  {
    hide Select;
    SelectNone(a, min, max);
    SelectConcat(a + b, c, min, max);
    SelectConcat(a, b, min, max);
    DropLow(b, min, max);
    SelectConcat(b[LowerBound(b, min)..], c, min, max);
  }

  lemma {:induction false} SortedSuffix(a: seq<Entry>, b: seq<Entry>, c: seq<Entry>, p: nat)
    requires Sorted(a + b + c) && p <= |b|
    ensures Sorted(b[p..] + c)
  {
    var s := a + b + c;
    TakeInto(a, b, c, p);
    CutAt(s, |a| + p);
  }

  lemma {:induction false} AtLeast(b: seq<Entry>, c: seq<Entry>, min: int)
    requires Sorted(b) && AllAbove(c, min)
    ensures var s := b[LowerBound(b, min)..] + c; forall i :: 0 <= i < |s| ==> s[i].key >= min
  {
    var p := LowerBound(b, min);
    forall i | p <= i < |b| ensures b[i].key >= min {
      assert p < i ==> b[p].key < b[i].key;
    }
  }

  /** What lies ahead of a new cursor is what the range selects from the whole tree. */
  lemma {:induction false} AheadOfSeek(t: Tree, h: nat, min: int, max: int)
    requires Ordered(t, h, 0, KEY_LIMIT) && 0 <= min < KEY_LIMIT
    ensures Landing(t, min) < |Leaves(t)|
    ensures var ls, n := Leaves(t), Landing(t, min);
      var ahead := Ahead(ls[n..], LowerBound(ls[n].entries, min));
      && Sorted(ahead)
      && (forall i :: 0 <= i < |ahead| ==> ahead[i].key >= min)
      && Select(ahead, min, max) == Select(Flat(t), min, max)
  {
    hide Join, Select, Leaves, Flat, Landing, Ordered, LowerBound;
    var ls, n := Leaves(t), Landing(t, min);
    LandingRight(t, h, 0, KEY_LIMIT, min);
    JoinLeaves(t);
    FlatSorted(t, h, 0, KEY_LIMIT);
    var a, b, c := Join(ls[..n]), ls[n].entries, Join(ls[n + 1..]);
    JoinStep(ls, n);
    SortedParts(a, b, c);
    assert ls[n..][0] == ls[n] && ls[n..][1..] == ls[n + 1..];
    DropBelow(a, b, c, min, max);
    SortedSuffix(a, b, c, LowerBound(b, min));
    AtLeast(b, c, min);
  }

  /** Draining a cursor faults exactly when an empty leaf lies in its way; until then it yields the
      bulk scan's list in order, and without a fault exactly that list. */
  lemma {:induction false} CursorExact(t: Tree, h: nat, min: int, max: int)
    requires Ordered(t, h, 0, KEY_LIMIT) && 0 <= min <= max < KEY_LIMIT
    ensures Expected(t, min, max).faults <==> MeetsEmptyLeaf(t, min, max)
    ensures Expected(t, min, max).entries <= Select(Flat(t), min, max)
    ensures !MeetsEmptyLeaf(t, min, max) ==> Expected(t, min, max).entries == Select(Flat(t), min, max)
  {
    var ls, n := Leaves(t), Landing(t, min);
    AheadOfSeek(t, h, min, max);
    hide Join, Select, Leaves, Flat, Landing, Ordered, Drain, Ahead, Sorted;
    var p := LowerBound(ls[n].entries, min);
    FaultsExactly(ls[n..], p, max);
    DrainIsSelect(ls[n..], p, min, max);
  }

  ghost predicate NoneEmpty(ls: seq<LeafRef>) {
    forall i :: 0 <= i < |ls| ==> ls[i].entries != []
  }

  lemma {:induction false} NoneEmptyConcat(a: seq<LeafRef>, b: seq<LeafRef>)
    requires NoneEmpty(a) && NoneEmpty(b)
    ensures NoneEmpty(a + b)
  {
  }

  lemma {:induction false} FilledLeavesAll(kids: seq<Tree>, h: nat, n: nat)
    requires h > 1 && n <= |kids|
    requires forall i :: 0 <= i < |kids| ==> Filled(kids[i], h - 1, false)
    ensures NoneEmpty(LeavesAll(kids[..n]))
    decreases h, 0, n
  {
    if n > 0 {
      FilledLeavesAll(kids, h, n - 1);
      FilledLeaves(kids[n - 1], h - 1, false);
      assert kids[..n][..n - 1] == kids[..n - 1];
      NoneEmptyConcat(LeavesAll(kids[..n - 1]), Leaves(kids[n - 1]));
    }
  }

  lemma {:induction false} FilledLeaves(t: Tree, h: nat, root: bool)
    requires Filled(t, h, root)
    ensures (root && t.Leaf?) || NoneEmpty(Leaves(t))
    decreases h, 1
  {
    if t.Node? {
      FilledLeavesAll(t.kids, h, |t.kids|);
      assert t.kids[..|t.kids|] == t.kids;
    }
  }

  /** A tree that was only inserted into never faults a cursor; the table trees are such
      trees, since rows are deleted by setting xmax. */
  lemma {:induction false} InsertOnlyNeverFaults(t: Tree, h: nat, min: int, max: int)
    requires Filled(t, h, true)
    ensures !MeetsEmptyLeaf(t, min, max)
  {
    FilledLeaves(t, h, true);
    var ls, n := Leaves(t), Landing(t, min);
    if n < |ls| {
      forall i ensures !EmptyAhead(ls[n..], LowerBound(ls[n].entries, min), max, i) {
        assert 0 < i < |ls[n..]| ==> ls[n..][i] == ls[n + i];
      }
    }
  }

  // ---------------------------------------------------------------- a run that empties a leaf

  /** Entries for the keys lo..hi-1. */
  function Numbered(lo: nat, hi: nat, v: Value): (s: seq<Entry>)
    requires lo <= hi
    ensures |s| == hi - lo && forall i :: 0 <= i < |s| ==> s[i] == Entry(lo + i, v)
  {
    seq(hi - lo, i requires 0 <= i < hi - lo => Entry(lo + i, v))
  }

  /** Inserts of 0..n-1, or of 0..15 and deletes of 8..n-9. */
  function Script(n: nat, v: Value): (ops: seq<Op>)
    ensures |ops| == n && forall i :: 0 <= i < n ==> ops[i] == if i < 16 then Insert(i, v) else Delete(i - 8)
  {
    seq(n, i requires 0 <= i < n => if i < 16 then Insert(i, v) else Delete(i - 8))
  }

  lemma {:induction false} PutNext(n: nat, v: Value)
    ensures Put(Numbered(0, n, v), n, v) == Numbered(0, n + 1, v)
  {
    LowerBoundUnique(Numbered(0, n, v), n, n);
  }

  lemma {:induction false} RemoveFirst(lo: nat, hi: nat, v: Value)
    requires lo < hi
    ensures Remove(Numbered(lo, hi, v), lo) == Numbered(lo + 1, hi, v)
  {
    LowerBoundUnique(Numbered(lo, hi, v), lo, 0);
  }

  /** Up to 15 ascending inserts fill the root leaf. */
  lemma {:induction false} FillRoot(a: Alloc, n: nat, v: Value)
    requires n <= 15
    ensures Run(a, Script(n, v)) == State(Leaf(a.Take().NextId(), Numbered(0, n, v)), a.Take().Take(), 1)
  {
    if n == 0 {
      assert Numbered(0, 0, v) == [];
    } else {
      FillRoot(a, n - 1, v);
      assert Script(n, v)[..n - 1] == Script(n - 1, v);
      PutNext(n - 1, v);
    }
  }

  /** The two leaves after the sixteenth insert and the deletes of 8..m-1. */
  function TwoLeaves(root: nat, l: nat, r: nat, m: nat, v: Value): Tree
    requires 8 <= m <= 16
  {
    Node(root, [8], [Leaf(l, Numbered(0, 8, v)), Leaf(r, Numbered(m, 16, v))])
  }

  lemma {:induction false} SplitRoot(a: Alloc, v: Value)
    ensures var b := a.Take().Take();
      Run(a, Script(16, v)).tree == TwoLeaves(b.Take().NextId(), a.Take().NextId(), b.NextId(), 8, v)
  {
    hide Run, Inserted, Put, Numbered, Script, Alloc.Take, Alloc.NextId;
    FillRoot(a, 15, v);
    ScriptStep(a, 15, v);
    PutNext(15, v);
    var es := Numbered(0, 16, v);
    RootSplits(a.Take().NextId(), Numbered(0, 15, v), 15, v, a.Take().Take());
    assert es[..8] == Numbered(0, 8, v) && es[8..] == Numbered(8, 16, v);
  }

  lemma {:induction false} ScriptStep(a: Alloc, n: nat, v: Value)
    requires n < 16
    ensures Run(a, Script(n + 1, v)) == Inserted(Run(a, Script(n, v)), n, v)
  {
    hide Inserted, Created;
    assert Script(n + 1, v)[..n] == Script(n, v);
  }

  /** A root leaf that overflows becomes two leaves under a new root. */
  lemma {:induction false} RootSplits(id: nat, es: seq<Entry>, k: int, v: Value, a: Alloc)
    requires |Put(es, k, v)| == 16
    ensures var es' := Put(es, k, v);
      Inserted(State(Leaf(id, es), a, 1), k, v).tree == Node(a.Take().NextId(), [es'[8].key], [Leaf(id, es'[..8]), Leaf(a.NextId(), es'[8..])])
  {
    hide Put;
  }

  lemma {:induction false} DeleteUpper(root: nat, l: nat, r: nat, m: nat, v: Value)
    requires 8 <= m < 16
    ensures Del(TwoLeaves(root, l, r, m, v), m) == TwoLeaves(root, l, r, m + 1, v)
  {
    ChildIndexUnique([8], m, 1);
    RemoveFirst(m, 16, v);
    var kids := [Leaf(l, Numbered(0, 8, v)), Leaf(r, Numbered(m, 16, v))];
    assert Del(kids[1], m) == Leaf(r, Numbered(m + 1, 16, v));
    assert kids[..1] == [kids[0]] && kids[2..] == [];
  }

  lemma {:induction false} EmptyUpper(a: Alloc, m: nat, v: Value)
    requires 8 <= m <= 16
    ensures var b := a.Take().Take();
      Run(a, Script(m + 8, v)).tree == TwoLeaves(b.Take().NextId(), a.Take().NextId(), b.NextId(), m, v)
  {
    if m == 8 {
      SplitRoot(a, v);
    } else {
      EmptyUpper(a, m - 1, v);
      assert Script(m + 8, v)[..m + 7] == Script(m + 7, v);
      var b := a.Take().Take();
      DeleteUpper(b.Take().NextId(), a.Take().NextId(), b.NextId(), m - 1, v);
    }
  }

  lemma {:induction false} EmptyRightMet(t: Tree, l: Tree, r: Tree)
    requires l.Leaf? && r.Leaf? && t.Node? && t.keys == [8] && t.kids == [l, r]
    requires r.entries == [] && Sorted(l.entries) && |l.entries| == 8 && forall i :: 0 <= i < 8 ==> 0 <= l.entries[i].key < KEY_LIMIT
    ensures MeetsEmptyLeaf(t, 0, KEY_LIMIT - 1)
  {
    assert [l, r][..1] == [l] && [l][..0] == [];
    assert LeavesAll([l]) == Leaves(l) && LeavesAll([l, r]) == LeavesAll([l]) + Leaves(r);
    var ls := Leaves(t);
    assert ls == [LeafRef(l.id, l.entries), LeafRef(r.id, [])];
    ChildIndexUnique([8], 0, 0);
    assert [l, r][..0] == [];
    assert Landing(t, 0) == 0;
    LowerBoundUnique(l.entries, 0, 0);
    assert ls[0..] == ls;
    assert EmptyAhead(ls, 0, KEY_LIMIT - 1, 1);
  }

  /** From any allocator, sixteen ascending inserts and the deletes of the upper eight keys leave a tree
      whose full scan by cursor faults, where the bulk scan goes on. */
  lemma {:induction false} EmptiedLeafFaults(a: Alloc, v: Value)
    ensures var s := Run(a, Script(24, v));
      && s.Ok() && Flat(s.tree) == Numbered(0, 8, v)
      && MeetsEmptyLeaf(s.tree, 0, KEY_LIMIT - 1) && Expected(s.tree, 0, KEY_LIMIT - 1).faults
  {
    hide Run, MeetsEmptyLeaf, Expected, Ordered;
    RunRefinesMap(a, Script(24, v));
    EmptyUpper(a, 16, v);
    var t := Run(a, Script(24, v)).tree;
    var l, r := t.kids[0], t.kids[1];
    EmptyRightMet(t, l, r);
    CursorExact(t, Run(a, Script(24, v)).height, 0, KEY_LIMIT - 1);
    assert [l, r][..1] == [l];
    FlatAllOne(l);
    assert FlatAll([l, r]) == FlatAll([l]) + Flat(r);
  }
}
