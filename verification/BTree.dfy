/** The paged B+ tree: recursive insertion, deletion and lookup over a pager. */
module BTrees {
  import opened Pages
  import opened Pagers
  import opened BTreeSpec
  import opened BTreeOps
  import opened BTreePages

  /** Binary search for the child to follow. */
  method FindChildIndex(keys: seq<int>, key: int) returns (lo: nat)
    requires Ascending(keys)
    ensures lo == ChildIndex(keys, key)
  {
    var hi := |keys|;
    lo := 0;
    while lo < hi
      invariant 0 <= lo <= hi <= |keys|
      invariant forall j :: 0 <= j < lo ==> keys[j] <= key
      invariant forall j :: hi <= j < |keys| ==> key < keys[j]
    {
      var mid := (lo + hi) / 2;
      if key < keys[mid] {
        hi := mid;
      } else {
        lo := mid + 1;
      }
    }
    ChildIndexUnique(keys, key, lo);
  }

  /** Binary search for an entry, or for the place where it belongs. */
  method LeafSearchKey(entries: seq<Entry>, key: int) returns (pos: nat, found: bool)
    requires Sorted(entries)
    ensures pos == LowerBound(entries, key) && found == Has(entries, key)
  {
    var lo, hi := 0, |entries|;
    while lo < hi
      invariant 0 <= lo <= hi <= |entries|
      invariant forall j :: 0 <= j < lo ==> entries[j].key < key
      invariant forall j :: hi <= j < |entries| ==> key < entries[j].key
    {
      var mid := (lo + hi) / 2;
      if entries[mid].key == key {
        LowerBoundUnique(entries, key, mid);
        return mid, true;
      } else if entries[mid].key < key {
        lo := mid + 1;
      } else {
        hi := mid;
      }
    }
    LowerBoundUnique(entries, key, lo);
    return lo, false;
  }

  /** Makes room at pos by shifting the tail one place to the right, from the end. */
  method ShiftIn<T>(s: seq<T>, pos: nat, x: T) returns (out: seq<T>)
    requires pos <= |s|
    ensures out == InsertAt(s, pos, x)
  {
    out := s + [x];
    var i := |out| - 1;
    while i > pos
      invariant pos <= i <= |s| && |out| == |s| + 1
      invariant forall j :: 0 <= j <= i && j < |s| ==> out[j] == s[j]
      invariant forall j :: i < j < |out| ==> out[j] == s[j - 1]
    {
      out := out[i := out[i - 1]];
      i := i - 1;
    }
    out := out[pos := x];
  }

  datatype Lookup = Found(val: Value) | Missing

  datatype SplitResult = NoSplit | Split(sep: int, right: nat)

  ghost predicate Reports(r: SplitResult, g: Grown) {
    r == if g.Whole? then NoSplit else Split(g.sep, g.right.id)
  }

  class BTree {
    const pg: Pager
    const headerPage: nat
    var rootID: nat
    ghost var tree: Tree
    ghost var height: nat

    ghost predicate Valid()
      reads this, pg
    {
      && pg.Valid()
      && tree.id == rootID
      && Rep(pg.file, tree, 0)
      && Distinct(tree)
      && Owns(pg.State(), tree)
      && Ordered(tree, height, 0, KEY_LIMIT)
      && headerPage !in Ids(tree)
      && pg.InUse(headerPage)
      && pg.file[headerPage].data == Header(rootID)
    }

    /** The tree and the allocator as values. */
    ghost function Value(): State
      reads this, pg
    {
      State(tree, pg.State(), height)
    }

    /** The entries of the tree in key order. */
    ghost function Contents(): seq<Entry>
      reads this
    {
      Flat(tree)
    }

    constructor Create(pager: Pager)
      requires pager.Valid()
      modifies pager
      ensures pg == pager && Valid()
      ensures Value() == Created(old(pager.State())) && Contents() == []
    {
      var headerID := pager.AllocatePage();
      pg, headerPage := pager, headerID;
      rootID, tree, height := 0, Leaf(0, []), 1;
      new;
      EmptyRoot();
    }

    method EmptyRoot()
      requires pg.Valid() && pg.InUse(headerPage)
      modifies this, pg
      ensures Valid()
      ensures tree == Leaf(old(pg.State()).NextId(), []) && height == 1
      ensures pg.State() == old(pg.State()).Take()
    {
      hide Ids, Rep, Distinct, Owns, Ordered, Alloc.Take, Alloc.NextId, Alloc.Available;
      rootID := NewNodePage();
      WriteNode(rootID, LeafData([], 0));
      tree, height := Leaf(rootID, []), 1;
      FlushHeader();
      EmptyLeaf(pg.file, pg.State(), rootID);
    }

    constructor At(pager: Pager, headerID: nat, root: nat, ghost t: Tree, ghost h: nat)
      requires pager.Valid() && pager.InUse(headerID) && root == t.id
      requires pager.file[headerID].data == Header(root)
      requires Rep(pager.file, t, 0) && Distinct(t) && Owns(pager.State(), t) && headerID !in Ids(t)
      requires Ordered(t, h, 0, KEY_LIMIT)
      ensures pg == pager && Valid() && Value() == State(t, pager.State(), h)
    {
      pg, headerPage, rootID := pager, headerID, root;
      tree, height := t, h;
    }

    /** Encodes a node into its page; no other page changes. */
    method WriteNode(id: nat, data: Data)
      requires pg.Valid() && pg.InUse(id)
      modifies pg
      ensures pg.Valid() && pg.State() == old(pg.State())
      ensures id in pg.file && pg.file[id].data == data
      ensures forall p :: p in old(pg.file) && p != id ==> p in pg.file && pg.file[p] == old(pg.file)[p]
    {
      pg.WritePage(Page(id, DataKind, data));
    }

    method FlushHeader()
      requires pg.Valid() && pg.InUse(headerPage)
      modifies pg
      ensures pg.Valid() && pg.State() == old(pg.State())
      ensures headerPage in pg.file && pg.file[headerPage].data == Header(rootID)
      ensures forall p :: p in old(pg.file) && p != headerPage ==> p in pg.file && pg.file[p] == old(pg.file)[p]
    {
      WriteNode(headerPage, Header(rootID));
    }

    /** A page for a new node; no page in use changes. */
    method NewNodePage() returns (id: nat)
      requires pg.Valid()
      modifies pg
      ensures pg.Valid() && pg.InUse(id) && !old(pg.InUse(id))
      ensures id == old(pg.State()).NextId() && pg.State() == old(pg.State()).Take()
      ensures forall p :: old(pg.InUse(p)) ==> pg.InUse(p) && p in pg.file && pg.file[p] == old(pg.file)[p]
    {
      id := pg.AllocatePage();
    }

    /** Only the page of the leaf and a newly taken page may change. */
    method InsertLeaf(id: nat, entries: seq<Entry>, next: nat, key: int, value: Value)
      returns (r: SplitResult)
      requires pg.Valid() && pg.InUse(id) && Sorted(entries)
      modifies pg
      ensures pg.Valid()
      ensures var (g, b) := Ins(Leaf(id, entries), key, value, old(pg.State()));
        Reports(r, g) && pg.State() == b && RepGrown(pg.file, g, next)
      ensures forall p :: old(pg.InUse(p)) && p != id ==> pg.InUse(p) && pg.file[p] == old(pg.file)[p]
    {
      var pos, found := LeafSearchKey(entries, key);
      var entries' := entries;
      if found {
        entries' := entries[pos := Entry(key, value)];
      } else {
        entries' := ShiftIn(entries, pos, Entry(key, value));
      }
      if |entries'| <= LEAF_ORDER {
        WriteNode(id, LeafData(entries', next));
        return NoSplit;
      }
      r := SplitLeafPage(id, entries', next);
    }

    method SplitLeafPage(id: nat, entries: seq<Entry>, next: nat) returns (r: SplitResult)
      requires pg.Valid() && pg.InUse(id) && |entries| > 0
      modifies pg
      ensures pg.Valid() && pg.State() == old(pg.State()).Take()
      ensures var g := SplitLeaf(id, entries, old(pg.State()).NextId()); Reports(r, g) && RepGrown(pg.file, g, next)
      ensures forall p :: old(pg.InUse(p)) && p != id ==> pg.InUse(p) && pg.file[p] == old(pg.file)[p]
    {
      var mid := |entries| / 2;
      var rightID := NewNodePage();
      WriteNode(rightID, LeafData(entries[mid..], next));
      WriteNode(id, LeafData(entries[..mid], rightID));
      return Split(entries[mid].key, rightID);
    }

    /** Splits the node (keys, kids) held by page id; the kids' own pages stay put. */
    method SplitInternalPage(id: nat, keys: seq<int>, children: seq<nat>, ghost kids: seq<Tree>, ghost nxt: nat)
      returns (r: SplitResult)
      requires pg.Valid() && |keys| > 0 && |kids| == |keys| + 1 && children == KidIds(kids)
      requires Clear(pg.State(), id, kids) && RepAll(pg.file, kids, nxt)
      modifies pg
      ensures pg.Valid() && pg.State() == old(pg.State()).Take()
      ensures var g := SplitInternal(id, keys, kids, old(pg.State()).NextId()); Reports(r, g) && RepGrown(pg.file, g, nxt)
      ensures forall p :: old(pg.InUse(p)) && p != id ==> pg.InUse(p) && pg.file[p] == old(pg.file)[p]
    {
      var mid := |keys| / 2;
      ghost var before := pg.file;
      var rightID := NewNodePage();
      WriteNode(rightID, InternalData(keys[mid + 1..], children[mid + 1..]));
      WriteNode(id, InternalData(keys[..mid], children[..mid + 1]));
      RepHalves(before, pg.file, id, rightID, keys, kids, nxt);
      return Split(keys[mid], rightID);
    }

    /** Takes what became of child i into the node of page id, and splits that node if it
        overflows; without a split the node's page is not even written. */
    method AbsorbChild(id: nat, keys: seq<int>, children: seq<nat>, i: nat, child: SplitResult,
                       ghost kids: seq<Tree>, ghost g: Grown, ghost nxt: nat)
      returns (r: SplitResult)
      requires pg.Valid() && |kids| == |keys| + 1 && i <= |keys| && children == KidIds(kids)
      requires Reports(child, g) && GrownRoot(g).id == kids[i].id
      requires Clear(pg.State(), id, Graft(kids, i, g)) && RepAll(pg.file, Graft(kids, i, g), nxt)
      requires pg.file[id].data == InternalData(keys, children)
      modifies pg
      ensures pg.Valid()
      ensures var (g', b') := Absorb(id, keys, kids, i, g, old(pg.State()));
        Reports(r, g') && pg.State() == b' && RepGrown(pg.file, g', nxt)
      ensures forall p :: old(pg.InUse(p)) && p != id ==> pg.InUse(p) && pg.file[p] == old(pg.file)[p]
    {
      hide Rep, Ids, Distinct, Owns, Alloc.Take, Alloc.NextId, Graft;
      ghost var kids', before := Graft(kids, i, g), pg.file;
      if child.NoSplit? {
        GraftKeepsIds(kids, i, g);
        RepNode(pg.file, id, keys, kids', nxt);
        return NoSplit;
      }
      var keys' := ShiftIn(keys, i, child.sep);
      var children' := ShiftIn(children, i + 1, child.right);
      GraftIds(kids, i, g);
      if |keys'| <= INTERNAL_ORDER {
        WriteNode(id, InternalData(keys', children'));
        RepFrameAll(before, pg.file, kids', nxt);
        RepNode(pg.file, id, keys', kids', nxt);
        return NoSplit;
      }
      r := SplitInternalPage(id, keys', children', kids', nxt);
    }

    /** Inserts below page id, which holds the subtree t; nxt follows its last leaf. */
    method InsertNode(id: nat, key: int, value: Value,
                      ghost t: Tree, ghost h: nat, ghost lo: int, ghost hi: int, ghost nxt: nat)
      returns (r: SplitResult)
      requires pg.Valid() && t.id == id && Rep(pg.file, t, nxt)
      requires Distinct(t) && Owns(pg.State(), t) && Ordered(t, h, lo, hi) && lo <= key < hi
      modifies pg
      ensures pg.Valid()
      ensures var (g, b) := Ins(t, key, value, old(pg.State()));
        Reports(r, g) && pg.State() == b && RepGrown(pg.file, g, nxt)
      ensures forall p :: old(pg.InUse(p)) && p !in Ids(t) ==> pg.InUse(p) && pg.file[p] == old(pg.file)[p]
      decreases h, 1
    {
      assert id in Ids(t);
      var page := pg.ReadPage(id);
      match page.page.data {
        case LeafData(entries, next) =>
          r := InsertLeaf(id, entries, next, key, value);
        case InternalData(keys, children) =>
          r := InsertInternal(id, keys, children, key, value, t, h, lo, hi, nxt);
      }
    }

    method InsertInternal(id: nat, keys: seq<int>, children: seq<nat>, key: int, value: Value,
                          ghost t: Tree, ghost h: nat, ghost lo: int, ghost hi: int, ghost nxt: nat)
      returns (r: SplitResult)
      requires pg.Valid() && t.Node? && t == Node(id, keys, t.kids) && children == KidIds(t.kids) && Rep(pg.file, t, nxt)
      requires Distinct(t) && Owns(pg.State(), t) && Ordered(t, h, lo, hi) && lo <= key < hi
      modifies pg
      ensures pg.Valid()
      ensures var (g, b) := Ins(t, key, value, old(pg.State()));
        Reports(r, g) && pg.State() == b && RepGrown(pg.file, g, nxt)
      ensures forall p :: old(pg.InUse(p)) && p !in Ids(t) ==> pg.InUse(p) && pg.file[p] == old(pg.file)[p]
      decreases h, 0
    {
      hide Ids, Distinct, Owns, Ordered, Rep, RepAll, RepGrown, Clear;
      ghost var a, before := pg.State(), pg.file;
      KidReady(before, t, h, lo, hi, key, a, nxt);
      var i := FindChildIndex(keys, key);
      ghost var kid := t.kids[i];
      var child := InsertNode(children[i], key, value, kid, h - 1, Lo(keys, i, lo), Hi(keys, i, hi),
                              NextOf(t.kids, i, nxt));
      KidInserted(before, pg.file, t, h, lo, hi, key, value, a, nxt);
      r := AbsorbChild(id, keys, children, i, child, t.kids, Ins(kid, key, value, a).0, nxt);
    }

    /** Puts a new root above the two halves of the old one. */
    method GrowRoot(sep: int, right: nat, ghost g: Grown)
      requires pg.Valid() && g.Halves? && Reports(Split(sep, right), g) && g.left.id == rootID
      requires RepGrown(pg.file, g, 0)
      requires pg.InUse(headerPage) && headerPage !in GrownIds(g)
      requires forall p :: p in GrownIds(g) ==> pg.InUse(p)
      modifies this, pg
      ensures pg.Valid()
      ensures pg.State() == old(pg.State()).Take() && rootID == old(pg.State()).NextId()
      ensures tree == Node(rootID, [g.sep], [g.left, g.right]) && height == old(height) + 1
      ensures Rep(pg.file, tree, 0)
      ensures pg.InUse(headerPage) && pg.file[headerPage].data == Header(rootID)
    {
      hide Rep, RepGrown, GrownIds;
      ghost var before := pg.file;
      var newRootID := NewNodePage();
      WriteNode(newRootID, InternalData([sep], [rootID, right]));
      rootID, tree, height := newRootID, Node(newRootID, [g.sep], [g.left, g.right]), height + 1;
      FlushHeader();
      RepNewRoot(before, pg.file, newRootID, g);
    }

    /** Stores key -> value; a new root is put above the old one when that splits. */
    method Insert(key: int, value: Value)
      requires Valid() && 0 <= key < KEY_LIMIT
      modifies this, pg
      ensures Valid()
      ensures Value() == Inserted(old(Value()), key, value)
      ensures AsMap(Contents()) == AsMap(old(Contents()))[key := value]
    {
      hide Rep, RepGrown, Ordered, AsMap, Put, Flat, Ids, GrownIds, Distinct, Owns;
      ghost var t, a := tree, pg.State();
      InsertedPages(t, height, a, key, value);
      InsertedOk(Value(), key, value);
      FlatSorted(t, height, 0, KEY_LIMIT);
      PutIsUpdate(Flat(t), key, value);
      var r := InsertNode(rootID, key, value, t, height, 0, KEY_LIMIT, 0);
      ghost var g := Ins(t, key, value, a).0;
      if r.NoSplit? {
        tree := g.tree;
      } else {
        GrowRoot(r.sep, r.right, g);
      }
    }

    /** Follows the separators down to the one leaf that can hold key. */
    method Search(key: int) returns (r: Lookup, ghost fetched: nat)
      requires Valid() && 0 <= key < KEY_LIMIT
      ensures r == if key in AsMap(Contents()) then Found(AsMap(Contents())[key]) else Missing
      ensures fetched == height
    {
      hide AsMap, Ids, Distinct, Owns, Rep, Flat;
      FlatSorted(tree, height, 0, KEY_LIMIT);
      HasIsMember(Contents(), key);
      var nodeID := rootID;
      ghost var t, h, lo, hi, nxt := tree, height, 0, KEY_LIMIT, 0;
      fetched := 0;
      while true
        invariant t.id == nodeID && Rep(pg.file, t, nxt) && Owns(pg.State(), t) && Distinct(t)
        invariant Ordered(t, h, lo, hi) && lo <= key < hi
        invariant fetched + h == height
        invariant SameLookup(Flat(t), Contents(), key)
        decreases h
      {
        RootPage(pg.file, pg.State(), t, nxt);
        var page := pg.ReadPage(nodeID);
        fetched := fetched + 1;
        match page.page.data {
          case LeafData(entries, next) =>
            LeafFlat(t);
            var idx, found := LeafSearchKey(entries, key);
            return if found then Found(entries[idx].val) else Missing, fetched;
          case InternalData(keys, children) =>
            hide Ordered, SameLookup;
            KidReady(pg.file, t, h, lo, hi, key, pg.State(), nxt);
            RouteLookup(t, h, lo, hi, key);
            var i := FindChildIndex(keys, key);
            SameLookupTrans(Flat(t.kids[i]), Flat(t), Contents(), key);
            nodeID := children[i];
            t, h, lo, hi, nxt := t.kids[i], h - 1, Lo(keys, i, lo), Hi(keys, i, hi), NextOf(t.kids, i, nxt);
        }
      }
    }

    /** Removes key from its leaf; separators and page structure stay as they are. */
    method Delete(key: int) returns (found: bool)
      requires Valid() && 0 <= key < KEY_LIMIT
      modifies this, pg
      ensures Valid()
      ensures Value() == Deleted(old(Value()), key)
      ensures AsMap(Contents()) == AsMap(old(Contents())) - {key}
      ensures found <==> key in AsMap(old(Contents()))
    {
      hide Rep, Ordered, AsMap, Flat, Ids, Distinct;
      DeletedOk(Value(), key);
      FlatSorted(tree, height, 0, KEY_LIMIT);
      PutIsUpdate(Flat(tree), key, []);
      HasIsMember(Flat(tree), key);
      DelPages(tree, height, 0, KEY_LIMIT, key);
      found := DeleteInNode(rootID, key, tree, height, 0, KEY_LIMIT, 0);
      tree := Del(tree, key);
    }

    method DeleteInNode(id: nat, key: int, ghost t: Tree, ghost h: nat, ghost lo: int, ghost hi: int, ghost nxt: nat)
      returns (found: bool)
      requires pg.Valid() && t.id == id && Rep(pg.file, t, nxt)
      requires Distinct(t) && Owns(pg.State(), t) && Ordered(t, h, lo, hi) && lo <= key < hi
      modifies pg
      ensures pg.Valid() && pg.State() == old(pg.State())
      ensures found == Has(Flat(t), key) && Rep(pg.file, Del(t, key), nxt)
      ensures forall p :: p in old(pg.file) && p !in Ids(t) ==> p in pg.file && pg.file[p] == old(pg.file)[p]
      decreases h, 1
    {
      IdsOf(t);
      var page := pg.ReadPage(id);
      match page.page.data {
        case LeafData(entries, next) =>
          var idx;
          idx, found := LeafSearchKey(entries, key);
          if found {
            WriteNode(id, LeafData(entries[..idx] + entries[idx + 1..], next));
          }
        case InternalData(keys, children) =>
          found := DeleteInternal(keys, children, key, t, h, lo, hi, nxt);
      }
    }

    method DeleteInternal(keys: seq<int>, children: seq<nat>, key: int,
                          ghost t: Tree, ghost h: nat, ghost lo: int, ghost hi: int, ghost nxt: nat)
      returns (found: bool)
      requires pg.Valid() && t.Node? && t.keys == keys && children == KidIds(t.kids) && Rep(pg.file, t, nxt)
      requires Distinct(t) && Owns(pg.State(), t) && Ordered(t, h, lo, hi) && lo <= key < hi
      modifies pg
      ensures pg.Valid() && pg.State() == old(pg.State())
      ensures found == Has(Flat(t), key) && Rep(pg.file, Del(t, key), nxt)
      ensures forall p :: p in old(pg.file) && p !in Ids(t) ==> p in pg.file && pg.file[p] == old(pg.file)[p]
      decreases h, 0
    {
      hide Ids, Distinct, Owns, Ordered, Rep, Flat, Has, Del;
      ghost var before := pg.file;
      KidReady(before, t, h, lo, hi, key, pg.State(), nxt);
      RouteLookup(t, h, lo, hi, key);
      var i := FindChildIndex(keys, key);
      found := DeleteInNode(children[i], key, t.kids[i], h - 1, Lo(keys, i, lo), Hi(keys, i, hi), NextOf(t.kids, i, nxt));
      RepDel(before, pg.file, t, h, lo, hi, key, nxt);
    }
  }

  /** The page can be read and carries the header's magic number. */
  ghost predicate IsHeader(pager: Pager, id: nat)
    reads pager
  {
    id < pager.totalPages && id in pager.file && pager.file[id].data.Header?
  }

  /** Re-opens the tree that a file holds: the root comes from the header page; anything else in its
      place is an error. */
  method Open(pager: Pager, headerID: nat, ghost t: Tree, ghost h: nat) returns (bt: BTree?)
    requires pager.Valid()
    requires IsHeader(pager, headerID) ==>
      && pager.InUse(headerID) && pager.file[headerID].data.root == t.id && headerID !in Ids(t)
      && Rep(pager.file, t, 0) && Distinct(t) && Owns(pager.State(), t) && Ordered(t, h, 0, KEY_LIMIT)
    ensures bt == null <==> !IsHeader(pager, headerID)
    ensures bt != null ==> bt.pg == pager && bt.Valid() && bt.Value() == State(t, pager.State(), h)
  {
    var r := pager.ReadPage(headerID);
    if r.ReadError? || !r.page.data.Header? {
      return null;
    }
    bt := new BTree.At(pager, headerID, r.page.data.root, t, h);
  }

  /** After any run of inserts a search answers as the map of that run and reads as many pages as the
      tree has levels, of which there are only logarithmically many. */
  method SearchAfterInserts(bt: BTree, key: int, ghost a: Alloc, ghost ops: seq<Op>) returns (r: Lookup, ghost fetched: nat)
    requires bt.Valid() && 0 <= key < KEY_LIMIT && bt.Value() == Run(a, ops)
    requires forall i :: 0 <= i < |ops| ==> ops[i].Insert? && 0 <= ops[i].key < KEY_LIMIT
    ensures r == if key in RunMap(ops) then Found(RunMap(ops)[key]) else Missing
    ensures fetched >= 2 ==> 16 * Pow170(fetched - 2) <= |bt.Contents()|
  {
    hide Run, RunMap, AsMap, Filled, Pow170;
    RunRefinesMap(a, ops);
    r, fetched := bt.Search(key);
    if fetched >= 2 {
      HeightBound(bt.tree, bt.height);
    }
  }
}
