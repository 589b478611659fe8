/** The tree under the commit protocol: after any crash a table is that of the surviving transactions. */
module Durable {
  import opened Pages
  import opened BTreeSpec
  import opened BTreeOps
  import opened BTreePages
  import opened BTrees
  import W = Wals
  import Protocol

  // ---------------------------------------------------------------- a statement's write set

  /** The file holds the tree and a header page that names its root. */
  ghost predicate Holds(f: map<nat, Page>, header: nat, t: Tree) {
    header in f && f[header].data == Header(t.id) && Rep(f, t, 0)
  }

  /** The pages, laid over any file that holds t, make it hold t'. */
  ghost predicate Turns(pages: map<nat, Page>, header: nat, t: Tree, t': Tree) {
    forall g :: Holds(g, header, t) ==> Holds(g + pages, header, t')
  }

  /** The header and the pages of t' that t does not have or that read differently now. */
  ghost function Changed(before: map<nat, Page>, after: map<nat, Page>, header: nat, t: Tree, t': Tree): map<nat, Page> {
    map p | p in after && (p == header || p in Ids(t')) && !((p == header || p in Ids(t)) && p in before && before[p].data == after[p].data) :: after[p]
  }

  /** A tree determines what its pages read. */
  lemma {:induction false} SameData(f: map<nat, Page>, g: map<nat, Page>, t: Tree, nxt: nat)
    requires Rep(f, t, nxt) && Rep(g, t, nxt)
    ensures forall p :: p in Ids(t) ==> p in f && p in g && f[p].data == g[p].data
  {
    if t.Node? {
      forall i | 0 <= i < |t.kids| ensures forall p :: p in Ids(t.kids[i]) ==> p in f && p in g && f[p].data == g[p].data {
        SameData(f, g, t.kids[i], NextOf(t.kids, i, nxt));
      }
    }
  }

  lemma {:induction false} RepByData(f: map<nat, Page>, g: map<nat, Page>, t: Tree, nxt: nat)
    requires Rep(f, t, nxt) && forall p :: p in Ids(t) ==> p in f && p in g && f[p].data == g[p].data
    ensures Rep(g, t, nxt)
  {
    assert t.id in Ids(t);
    if t.Node? {
      forall i | 0 <= i < |t.kids| ensures Rep(g, t.kids[i], NextOf(t.kids, i, nxt)) {
        assert Ids(t.kids[i]) <= Ids(t);
        RepByData(f, g, t.kids[i], NextOf(t.kids, i, nxt));
      }
    }
  }

  /** The changed pages are enough, whatever file they are laid over. */
  lemma {:induction false} ChangedTurns(before: map<nat, Page>, after: map<nat, Page>, header: nat, t: Tree, t': Tree)
    requires Holds(before, header, t) && Holds(after, header, t')
    ensures Turns(Changed(before, after, header, t, t'), header, t, t')
  {
    hide Rep, Ids;
    var pages := Changed(before, after, header, t, t');
    SameData(after, after, t', 0);
    forall g | Holds(g, header, t) ensures Holds(g + pages, header, t') {
      SameData(before, g, t, 0);
      RepByData(after, g + pages, t', 0);
    }
  }

  /** Statements of one transaction: the later pages over the earlier ones. */
  lemma {:induction false} TurnsTwice(p: map<nat, Page>, q: map<nat, Page>, header: nat, t: Tree, t': Tree, t'': Tree)
    requires Turns(p, header, t, t') && Turns(q, header, t', t'')
    ensures Turns(p + q, header, t, t'')
  {
    hide Holds;
    forall g | Holds(g, header, t) ensures Holds(g + (p + q), header, t'') {
      assert Holds(g + p, header, t');
      assert g + p + q == g + (p + q);
    }
  }

  /** An insert statement and the pages its transaction has to write: they turn the old tree into the new one. */
  method InsertStatement(bt: BTree, key: int, value: Value) returns (ghost pages: map<nat, Page>)
    requires bt.Valid() && 0 <= key < KEY_LIMIT
    modifies bt, bt.pg
    ensures bt.Valid() && bt.Value() == Inserted(old(bt.Value()), key, value)
    ensures forall p :: p in pages ==> p in bt.pg.file && pages[p] == bt.pg.file[p]
    ensures Turns(pages, bt.headerPage, old(bt.tree), bt.tree)
  {
    hide Rep, Ids, Distinct, Owns, Ordered, Turns;
    ghost var before, t := bt.pg.file, bt.tree;
    bt.Insert(key, value);
    pages := Changed(before, bt.pg.file, bt.headerPage, t, bt.tree);
    ChangedTurns(before, bt.pg.file, bt.headerPage, t, bt.tree);
  }

  method DeleteStatement(bt: BTree, key: int) returns (ghost pages: map<nat, Page>, found: bool)
    requires bt.Valid() && 0 <= key < KEY_LIMIT
    modifies bt, bt.pg
    ensures bt.Valid() && bt.Value() == Deleted(old(bt.Value()), key) && (found <==> key in AsMap(old(bt.Contents())))
    ensures forall p :: p in pages ==> p in bt.pg.file && pages[p] == bt.pg.file[p]
    ensures Turns(pages, bt.headerPage, old(bt.tree), bt.tree)
  {
    hide Rep, Ids, Distinct, Owns, Ordered, Turns, AsMap;
    ghost var before, t := bt.pg.file, bt.tree;
    found := bt.Delete(key);
    pages := Changed(before, bt.pg.file, bt.headerPage, t, bt.tree);
    ChangedTurns(before, bt.pg.file, bt.headerPage, t, bt.tree);
  }

  // ---------------------------------------------------------------- pages on disk

  /** The images on disk decode to the pages of the file. */
  ghost predicate Decodes(m: map<W.Key, W.Image>, file: string, dec: W.Image -> Data, f: map<nat, Page>) {
    forall p :: p in f ==> W.Key(file, p) in m && f[p].data == dec(m[W.Key(file, p)])
  }

  /** The write set is these pages of the file, and whatever it writes of other files. */
  ghost predicate Writes(w: map<W.Key, W.Image>, file: string, dec: W.Image -> Data, pages: map<nat, Page>) {
    Decodes(w, file, dec, pages) && forall p :: W.Key(file, p) in w ==> p in pages
  }

  /** The file after the first n write sets. */
  function FileAfter(f: map<nat, Page>, sets: seq<map<nat, Page>>, n: nat): map<nat, Page>
    requires n <= |sets|
  {
    if n == 0 then f else FileAfter(f, sets, n - 1) + sets[n - 1]
  }

  /** The operations of the first n transactions. */
  function Done(txs: seq<seq<Op>>, n: nat): (ops: seq<Op>)
    requires n <= |txs|
  {
    if n == 0 then [] else Done(txs, n - 1) + txs[n - 1]
  }

  /** The commits are the transactions `txs` on a new tree, one after another, each with any number of
      operations: its write set turns the tree before into the tree after them. */
  ghost predicate Statements(commits: seq<Protocol.Commit>, file: string, dec: W.Image -> Data, header: nat, a: Alloc, txs: seq<seq<Op>>,
                             f: map<nat, Page>, sets: seq<map<nat, Page>>) {
    && |commits| == |txs| == |sets|
    && Holds(f, header, Run(a, []).tree)
    && (forall op :: op in Done(txs, |txs|) ==> 0 <= op.key < KEY_LIMIT)
    && (forall i :: 0 <= i < |commits| ==> Writes(commits[i].writes, file, dec, sets[i]))
    && (forall i :: 0 <= i < |commits| ==> Turns(sets[i], header, Run(a, Done(txs, i)).tree, Run(a, Done(txs, i + 1)).tree))
  }

  lemma {:induction false} TreeAfter(commits: seq<Protocol.Commit>, file: string, dec: W.Image -> Data, header: nat, a: Alloc, txs: seq<seq<Op>>,
                                     f: map<nat, Page>, sets: seq<map<nat, Page>>, n: nat)
    requires Statements(commits, file, dec, header, a, txs, f, sets) && n <= |txs|
    ensures Holds(FileAfter(f, sets, n), header, Run(a, Done(txs, n)).tree)
  {
    hide Holds, Run, Writes;
    if n > 0 {
      TreeAfter(commits, file, dec, header, a, txs, f, sets, n - 1);
    }
  }

  lemma {:induction false} DecodesOver(m: map<W.Key, W.Image>, w: map<W.Key, W.Image>, file: string, dec: W.Image -> Data,
                                       f: map<nat, Page>, pages: map<nat, Page>)
    requires Decodes(m, file, dec, f) && Writes(w, file, dec, pages)
    ensures Decodes(m + w, file, dec, f + pages)
  {
  }

  /** The initial content overlaid by the commits decodes to the file after their write sets. */
  lemma {:induction false} FilesAgree(base: map<W.Key, W.Image>, commits: seq<Protocol.Commit>, file: string, dec: W.Image -> Data,
                                      f: map<nat, Page>, sets: seq<map<nat, Page>>)
    requires |commits| == |sets| && Decodes(base, file, dec, f)
    requires forall i :: 0 <= i < |commits| ==> Writes(commits[i].writes, file, dec, sets[i])
    ensures Decodes(base + Protocol.Apply(commits), file, dec, FileAfter(f, sets, |sets|))
  {
    hide Decodes, Writes;
    if commits == [] {
      NothingOver(base);
    } else {
      var n := |commits| - 1;
      FilesAgree(base, commits[..n], file, dec, f, sets[..n]);
      FilePrefix(f, sets, n);
      DecodesOver(base + Protocol.Apply(commits[..n]), commits[n].writes, file, dec, FileAfter(f, sets, n), sets[n]);
      OverOver(base, Protocol.Apply(commits[..n]), commits[n].writes);
    }
  }

  lemma {:induction false} NothingOver(m: map<W.Key, W.Image>)
    ensures m + map[] == m
  {
  }

  lemma {:induction false} OverOver(a: map<W.Key, W.Image>, b: map<W.Key, W.Image>, c: map<W.Key, W.Image>)
    ensures a + (b + c) == a + b + c
  {
  }

  lemma {:induction false} FilePrefix(f: map<nat, Page>, sets: seq<map<nat, Page>>, n: nat)
    requires n <= |sets|
    ensures FileAfter(f, sets[..n], n) == FileAfter(f, sets, n)
  {
    FileCut(f, sets, n, n);
  }

  lemma {:induction false} FileCut(f: map<nat, Page>, sets: seq<map<nat, Page>>, n: nat, k: nat)
    requires k <= n <= |sets|
    ensures FileAfter(f, sets[..n], k) == FileAfter(f, sets, k)
  {
    if k > 0 {
      FileCut(f, sets, n, k - 1);
    }
  }

  lemma {:induction false} DecodesMore(m: map<W.Key, W.Image>, m': map<W.Key, W.Image>, file: string, dec: W.Image -> Data, f: map<nat, Page>)
    requires Decodes(m, file, dec, f) && forall k :: k in m ==> k in m' && m'[k] == m[k]
    ensures Decodes(m', file, dec, f)
  {
  }

  /** At every idle point of every run, wherever it crashed before, the pages on disk hold the tree of
      the surviving transactions, under its header, and that tree stands for their map; every
      transaction whose commit was acknowledged is among them. */
  lemma {:induction false} TableSurvives(base: map<W.Key, W.Image>, steps: seq<Protocol.Step>, states: seq<Protocol.State>, n: nat,
                                         file: string, dec: W.Image -> Data, header: nat, a: Alloc, txs: seq<seq<Op>>, f: map<nat, Page>, sets: seq<map<nat, Page>>)
    requires Protocol.Run(base, steps, states) && n < |states| && states[n].phase == Protocol.Idle
    requires Decodes(base, file, dec, f) && Statements(states[n].commits, file, dec, header, a, txs, f, sets)
    ensures var t := states[n]; var g, ops := FileAfter(f, sets, |sets|), Done(txs, |txs|);
      && Decodes(t.disk, file, dec, g)
      && Holds(g, header, Run(a, ops).tree)
      && Run(a, ops).Ok() && AsMap(Flat(Run(a, ops).tree)) == RunMap(ops)
      && t.acked <= Protocol.Xids(t.commits)
  {
    hide Protocol.Run, Protocol.Apply, Protocol.Xids, Holds, Run, Decodes, Ordered, AsMap, W.Images, W.Committed;
    var t, g := states[n], FileAfter(f, sets, |sets|);
    Protocol.RunsAreAtomic(base, steps, states, n);
    FilesAgree(base, t.commits, file, dec, f, sets);
    var done := base + Protocol.Apply(t.commits);
    forall k | k in done ensures k in t.disk && t.disk[k] == done[k] {
      assert k in Protocol.Apply(t.commits) || k in base;
    }
    DecodesMore(done, t.disk, file, dec, g);
    TreeAfter(t.commits, file, dec, header, a, txs, f, sets, |txs|);
    RunRefinesMap(a, Done(txs, |txs|));
  }
}
