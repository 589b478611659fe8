/** Plans over paged trees.  Index trees lose entries by physical deletes, so a lookup can meet an
    emptied leaf and fail; this module says exactly when a statement fails and that otherwise it
    returns the rows asked for. */
module PagedExec {
  import opened Seqs
  import Pages
  import opened Queries
  import opened Mvcc
  import opened Planners
  import opened JoinEval
  import opened Operators
  import opened Joins
  import BTreeSpec
  import Cursors
  import JoinMeaning
  import RowCodec
  import Stack

  type Tree = BTreeSpec.Tree

  // ---------------------------------------------------------------- paged tables

  /** The trees of a table: its rows and its indexes by name. */
  datatype Paged = Paged(primary: Tree, indexes: map<string, Tree>)

  ghost predicate TreeOk(t: Tree) {
    (exists h: nat :: BTreeSpec.Ordered(t, h, 0, Pages.KEY_LIMIT)) && Stack.Slots(BTreeSpec.Flat(t))
  }

  ghost predicate PagedOk(pg: Paged) {
    TreeOk(pg.primary) && forall n :: n in pg.indexes ==> TreeOk(pg.indexes[n])
  }

  /** The stored rows and index entries the trees hold. */
  ghost function DataOf(tbl: Table, pg: Paged): Data
    requires RowCodec.SchemaOk(tbl) && PagedOk(pg)
  {
    Data(Stack.Cells(tbl, BTreeSpec.Flat(pg.primary)), map n | n in pg.indexes :: Stack.IndexCells(BTreeSpec.Flat(pg.indexes[n])))
  }

  /** A cursor over the range meets an empty leaf of the tree. */
  ghost predicate LeafFaults(t: Tree, min: Word, max: Word) {
    min <= max && Cursors.MeetsEmptyLeaf(t, min, max)
  }

  // ---------------------------------------------------------------- streams

  /** What pulling rows from an operator gives: the rows, and whether it ended by a fault. */
  datatype Stream = Stream(rows: seq<Row>, faults: bool)

  lemma {:induction false} ExpectedIs(t: Tree, min: Word, max: Word)
    requires TreeOk(t)
    ensures Stack.Slots(Cursors.Expected(t, min, max).entries)
    ensures Cursors.Expected(t, min, max).faults <==> LeafFaults(t, min, max)
    ensures Cursors.Expected(t, min, max).entries <= Cursors.Select(BTreeSpec.Flat(t), min, max)
    ensures !LeafFaults(t, min, max) ==> Cursors.Expected(t, min, max).entries == Cursors.Select(BTreeSpec.Flat(t), min, max)
  {
    hide Cursors.Expected, Cursors.MeetsEmptyLeaf, Cursors.Select, BTreeSpec.Flat, BTreeSpec.Ordered;
    var h: nat :| BTreeSpec.Ordered(t, h, 0, Pages.KEY_LIMIT);
    Stack.CursorYields(t, h, min, max);
    Stack.SelectSlots(BTreeSpec.Flat(t), min, max);
    var e, s := Cursors.Expected(t, min, max).entries, Cursors.Select(BTreeSpec.Flat(t), min, max);
    assert forall i :: 0 <= i < |e| ==> e[i] == s[i];
  }

  ghost function ScanStream(tbl: Table, t: Tree, min: Word, max: Word, snap: Snapshot): Stream
    requires RowCodec.SchemaOk(tbl) && TreeOk(t)
  {
    ExpectedIs(t, min, max);
    var d := Cursors.Expected(t, min, max);
    Stream(Stack.ShownRows(tbl, d.entries, snap), d.faults)
  }

  ghost function LookupStream(idx: Tree, cells: seq<Cell>, min: Word, max: Word, snap: Snapshot): Stream
    requires TreeOk(idx)
  {
    ExpectedIs(idx, min, max);
    var d := Cursors.Expected(idx, min, max);
    Stream(LookupRows(Stack.IndexCells(d.entries), cells, 0, MAX_WORD, snap), d.faults)
  }

  /** The leaves of the plan read well-formed trees that hold the data of `db`. */
  ghost predicate Backed(p: Plan, pdb: string -> Paged, db: string -> Data)
    decreases p
  {
    match p
    case IndexScan(tbl, _, _) => LeafBacked(tbl, pdb, db)
    case IndexLookup(tbl, _, _, _) => LeafBacked(tbl, pdb, db)
    case Filter(child, _) => Backed(child, pdb, db)
    case Union(children, _) => forall i :: 0 <= i < |children| ==> Backed(children[i], pdb, db)
    case Limit(child, _) => Backed(child, pdb, db)
    case Project(child, _) => Backed(child, pdb, db)
    case NestedLoopJoin(left, right, _, _, _) => Backed(left, pdb, db) && Backed(right, pdb, db)
  }

  ghost predicate LeafBacked(tbl: Table, pdb: string -> Paged, db: string -> Data) {
    && RowCodec.SchemaOk(tbl) && PagedOk(pdb(Lower(tbl.name)))
    && db(Lower(tbl.name)) == DataOf(tbl, pdb(Lower(tbl.name)))
  }

  /** Pulling a plan to its end: a filter, projection or union passes a fault on, a limit stops before
      it once it has its rows, and a join reaches its right side only for a left row. */
  ghost function Pull(p: Plan, pdb: string -> Paged, db: string -> Data, snap: Snapshot): Stream
    requires Backed(p, pdb, db)
    decreases p, 0
  {
    match p
    case IndexScan(tbl, min, max) => ScanStream(tbl, pdb(Lower(tbl.name)).primary, min, max, snap)
    case IndexLookup(tbl, d, min, max) =>
      var pg := pdb(Lower(tbl.name));
      if Lower(d.name) in pg.indexes
      then LookupStream(pg.indexes[Lower(d.name)], Stack.Cells(tbl, BTreeSpec.Flat(pg.primary)), min, max, snap) else Stream([], false)
    case Filter(child, preds) => var s := Pull(child, pdb, db, snap); Stream(Keep(s.rows, BaseTable(child), preds), s.faults)
    case Union(children, pk) => var s := PullAll(children, pdb, db, snap); Stream(Dedup(s.rows, pk), s.faults)
    case Limit(child, n) => var s := Pull(child, pdb, db, snap); if |s.rows| >= n then Stream(Take(s.rows, n), false) else s
    case Project(child, idxs) => var s := Pull(child, pdb, db, snap); Stream(PickAll(s.rows, idxs), s.faults)
    case NestedLoopJoin(left, right, on, ls, rs) =>
      JoinStreams(Pull(left, pdb, db, snap), Pull(right, pdb, db, snap), on, ColMap(ls), ColMap(rs))
  }

  /** Branches one after the other, up to the first fault. */
  ghost function PullAll(ps: seq<Plan>, pdb: string -> Paged, db: string -> Data, snap: Snapshot): Stream
    requires forall i :: 0 <= i < |ps| ==> Backed(ps[i], pdb, db)
    decreases ps, 1
  {
    if ps == [] then Stream([], false) else
    var s := PullAll(ps[..|ps| - 1], pdb, db, snap);
    if s.faults then s else
    var t := Pull(ps[|ps| - 1], pdb, db, snap);
    Stream(s.rows + t.rows, t.faults)
  }

  /** A right side that faults does so under the first left row. */
  function JoinStreams(l: Stream, r: Stream, on: seq<Condition>, lm: map<string, nat>, rm: map<string, nat>): Stream {
    if l.rows == [] then Stream([], l.faults)
    else if r.faults then Stream(PairUp(l.rows[0], r.rows, on, lm, rm), true)
    else Stream(JoinRows(l.rows, r.rows, on, lm, rm), l.faults)
  }

  // ---------------------------------------------------------------- a stream is a prefix of the plan's rows

  /** The rows come out in order, and all of them when there is no fault. */
  ghost predicate Prefix(s: Stream, rows: seq<Row>) {
    s.rows <= rows && (!s.faults ==> s.rows == rows)
  }

  lemma {:induction false} ShownConcat(tbl: Table, a: seq<Pages.Entry>, b: seq<Pages.Entry>, snap: Snapshot)
    requires RowCodec.SchemaOk(tbl) && Stack.Slots(a) && Stack.Slots(b)
    ensures Stack.Slots(a + b) && Stack.ShownRows(tbl, a + b, snap) == Stack.ShownRows(tbl, a, snap) + Stack.ShownRows(tbl, b, snap)
  {
    hide Stack.CellOf;
    if b == [] {
      assert a + b == a;
    } else {
      ConcatInit(a, b);
      ShownConcat(tbl, a, b[..|b| - 1], snap);
    }
  }

  lemma {:induction false} LookupConcat(a: seq<IndexCell>, b: seq<IndexCell>, cells: seq<Cell>, min: Word, max: Word, snap: Snapshot)
    ensures LookupRows(a + b, cells, min, max, snap) == LookupRows(a, cells, min, max, snap) + LookupRows(b, cells, min, max, snap)
  {
    hide FetchRow;
    if b == [] {
      assert a + b == a;
    } else {
      ConcatInit(a, b);
      LookupConcat(a, b[..|b| - 1], cells, min, max, snap);
    }
  }

  lemma {:induction false} KeepConcat(a: seq<Row>, b: seq<Row>, tbl: Option<Table>, preds: seq<Condition>)
    ensures Keep(a + b, tbl, preds) == Keep(a, tbl, preds) + Keep(b, tbl, preds)
  {
    hide Passes;
    if b == [] {
      assert a + b == a;
    } else {
      ConcatInit(a, b);
      KeepConcat(a, b[..|b| - 1], tbl, preds);
    }
  }

  lemma {:induction false} DedupPrefix(a: seq<Row>, b: seq<Row>, pk: nat)
    ensures Dedup(a, pk) <= Dedup(a + b, pk)
  {
    if b == [] {
      assert a + b == a;
    } else {
      ConcatInit(a, b);
      DedupPrefix(a, b[..|b| - 1], pk);
    }
  }

  lemma {:induction false} SplitPrefix<T>(a: seq<T>, b: seq<T>)
    requires a <= b
    ensures b == a + b[|a|..]
  {
  }

  lemma {:induction false} ScanPrefix(tbl: Table, t: Tree, min: Word, max: Word, snap: Snapshot)
    requires RowCodec.SchemaOk(tbl) && TreeOk(t)
    ensures Prefix(ScanStream(tbl, t, min, max, snap), ScanRows(Stack.Cells(tbl, BTreeSpec.Flat(t)), min, max, snap))
    ensures ScanStream(tbl, t, min, max, snap).faults <==> LeafFaults(t, min, max)
  {
    hide Cursors.Expected, Cursors.Select, BTreeSpec.Flat, Stack.ShownRows, ScanRows, LeafFaults, TreeOk;
    ExpectedIs(t, min, max);
    SlotsOf(t);
    Stack.ScanIsSelect(tbl, BTreeSpec.Flat(t), min, max, snap);
    var e, s := Cursors.Expected(t, min, max).entries, Cursors.Select(BTreeSpec.Flat(t), min, max);
    SplitPrefix(e, s);
    assert Stack.Slots(s[|e|..]);
    ShownConcat(tbl, e, s[|e|..], snap);
  }

  lemma {:induction false} SlotsOf(t: Tree)
    requires TreeOk(t)
    ensures Stack.Slots(BTreeSpec.Flat(t))
  {
  }

  lemma {:induction false} LookupPrefix(idx: Tree, cells: seq<Cell>, min: Word, max: Word, snap: Snapshot)
    requires TreeOk(idx)
    ensures Stack.Slots(BTreeSpec.Flat(idx))
    ensures Prefix(LookupStream(idx, cells, min, max, snap), LookupRows(Stack.IndexCells(BTreeSpec.Flat(idx)), cells, min, max, snap))
    ensures LookupStream(idx, cells, min, max, snap).faults <==> LeafFaults(idx, min, max)
  {
    hide Cursors.Expected, Cursors.Select, BTreeSpec.Flat, LookupRows, LeafFaults, TreeOk, Stack.IndexCellOf;
    ExpectedIs(idx, min, max);
    SlotsOf(idx);
    Stack.LookupIsSelect(BTreeSpec.Flat(idx), cells, min, max, snap);
    var e, s := Cursors.Expected(idx, min, max).entries, Cursors.Select(BTreeSpec.Flat(idx), min, max);
    SplitPrefix(e, s);
    assert Stack.Slots(s[|e|..]);
    assert Stack.IndexCells(s) == Stack.IndexCells(e) + Stack.IndexCells(s[|e|..]);
    LookupConcat(Stack.IndexCells(e), Stack.IndexCells(s[|e|..]), cells, 0, MAX_WORD, snap);
  }

  lemma {:induction false} KeepPrefix(s: Stream, rows: seq<Row>, tbl: Option<Table>, preds: seq<Condition>)
    requires Prefix(s, rows)
    ensures Prefix(Stream(Keep(s.rows, tbl, preds), s.faults), Keep(rows, tbl, preds))
  {
    SplitPrefix(s.rows, rows);
    KeepConcat(s.rows, rows[|s.rows|..], tbl, preds);
  }

  lemma {:induction false} UnionPrefix(s: Stream, rows: seq<Row>, pk: nat)
    requires Prefix(s, rows)
    ensures Prefix(Stream(Dedup(s.rows, pk), s.faults), Dedup(rows, pk))
  {
    SplitPrefix(s.rows, rows);
    DedupPrefix(s.rows, rows[|s.rows|..], pk);
  }

  lemma {:induction false} PickPrefix(s: Stream, rows: seq<Row>, idxs: seq<nat>)
    requires Prefix(s, rows)
    ensures Prefix(Stream(PickAll(s.rows, idxs), s.faults), PickAll(rows, idxs))
  {
  }

  /** LIMIT hides a fault behind the rows it needs. */
  lemma {:induction false} LimitPrefix(s: Stream, rows: seq<Row>, n: nat)
    requires Prefix(s, rows)
    ensures Prefix(if |s.rows| >= n then Stream(Take(s.rows, n), false) else s, Take(rows, n))
  {
  }

  lemma {:induction false} JoinPrefix(l: Stream, ls: seq<Row>, r: Stream, rs: seq<Row>, on: seq<Condition>, lm: map<string, nat>, rm: map<string, nat>)
    requires Prefix(l, ls) && Prefix(r, rs)
    ensures Prefix(JoinStreams(l, r, on, lm, rm), JoinRows(ls, rs, on, lm, rm))
  {
    hide JoinRows, PairUp;
    if l.rows == [] {
      NoLeft(rs, on, lm, rm);
    } else if r.faults {
      SplitPrefix([l.rows[0]], ls);
      JoinConcat([l.rows[0]], ls[1..], rs, on, lm, rm);
      JoinOne(l.rows[0], rs, on, lm, rm);
      SplitPrefix(r.rows, rs);
      PairConcat(l.rows[0], r.rows, rs[|r.rows|..], on, lm, rm);
    } else {
      SplitPrefix(l.rows, ls);
      JoinConcat(l.rows, ls[|l.rows|..], rs, on, lm, rm);
    }
  }

  lemma {:induction false} NoLeft(rs: seq<Row>, on: seq<Condition>, lm: map<string, nat>, rm: map<string, nat>)
    ensures JoinRows([], rs, on, lm, rm) == []
  {
  }

  lemma {:induction false} LeafPrefix(p: Plan, pdb: string -> Paged, db: string -> Data, snap: Snapshot)
    requires (p.IndexScan? || p.IndexLookup?) && Backed(p, pdb, db)
    ensures Prefix(Pull(p, pdb, db, snap), Exec(p, db, snap))
  {
    hide ScanStream, LookupStream, ScanRows, LookupRows, Prefix, TreeOk, Stack.Cells, Stack.IndexCells, BTreeSpec.Flat;
    var pg := pdb(Lower(p.tbl.name));
    SlotsOf(pg.primary);
    if p.IndexScan? {
      ScanPrefix(p.tbl, pg.primary, p.min, p.max, snap);
    } else if Lower(p.def.name) in pg.indexes {
      LookupPrefix(pg.indexes[Lower(p.def.name)], Stack.Cells(p.tbl, BTreeSpec.Flat(pg.primary)), p.min, p.max, snap);
    } else {
      NothingPulled();
    }
  }

  lemma {:induction false} NothingPulled()
    ensures Prefix(Stream([], false), [])
  {
  }

  /** Whatever faults, a plan hands out a prefix of its rows; without a fault, all of them. */
  lemma {:induction false} PullPrefix(p: Plan, pdb: string -> Paged, db: string -> Data, snap: Snapshot)
    requires Backed(p, pdb, db)
    ensures Prefix(Pull(p, pdb, db, snap), Exec(p, db, snap))
    decreases p, 0
  {
    hide Prefix, Keep, Dedup, PickAll, Take, JoinStreams, JoinRows, ColMap, LeafBacked, ScanRows, LookupRows;
    match p
    case IndexScan(_, _, _) => LeafPrefix(p, pdb, db, snap);
    case IndexLookup(_, _, _, _) => LeafPrefix(p, pdb, db, snap);
    case Filter(child, preds) =>
      PullPrefix(child, pdb, db, snap);
      KeepPrefix(Pull(child, pdb, db, snap), Exec(child, db, snap), BaseTable(child), preds);
    case Union(children, pk) =>
      PullAllPrefix(children, pdb, db, snap);
      UnionPrefix(PullAll(children, pdb, db, snap), ExecAll(children, db, snap), pk);
    case Limit(child, n) =>
      PullPrefix(child, pdb, db, snap);
      LimitPrefix(Pull(child, pdb, db, snap), Exec(child, db, snap), n);
    case Project(child, idxs) =>
      PullPrefix(child, pdb, db, snap);
      PickPrefix(Pull(child, pdb, db, snap), Exec(child, db, snap), idxs);
    case NestedLoopJoin(left, right, on, ls, rs) =>
      PullPrefix(left, pdb, db, snap);
      PullPrefix(right, pdb, db, snap);
      JoinPrefix(Pull(left, pdb, db, snap), Exec(left, db, snap), Pull(right, pdb, db, snap), Exec(right, db, snap), on, ColMap(ls), ColMap(rs));
  }

  lemma {:induction false} PullAllPrefix(ps: seq<Plan>, pdb: string -> Paged, db: string -> Data, snap: Snapshot)
    requires forall i :: 0 <= i < |ps| ==> Backed(ps[i], pdb, db)
    ensures Prefix(PullAll(ps, pdb, db, snap), ExecAll(ps, db, snap))
    decreases ps, 1
  {
    hide Backed, Pull, Exec;
    if ps != [] {
      PullAllPrefix(ps[..|ps| - 1], pdb, db, snap);
      PullPrefix(ps[|ps| - 1], pdb, db, snap);
    }
  }

  // ---------------------------------------------------------------- one table

  /** The leaf of a group's plan meets an empty leaf: of the index the lookup reads, or of the rows. */
  ghost predicate GroupFaults(tbl: Table, pg: Paged, conds: seq<Condition>, choice: Option<nat>)
    requires choice.Some? ==> Eligible(tbl, conds, choice.value)
  {
    match choice
    case None => var b := Classify(tbl, conds); LeafFaults(pg.primary, b.min, b.max)
    case Some(i) =>
      var name := Lower(tbl.IndexForColumn(conds[i].col).value.name);
      var (min, max) := CondToRange(conds[i].op, conds[i].val.n);
      name in pg.indexes && LeafFaults(pg.indexes[name], min, max)
  }

  /** Trees that were only inserted into never fault, so only a lookup can. */
  lemma {:induction false} RowsNeverFault(tbl: Table, pg: Paged, h: nat, conds: seq<Condition>)
    requires BTreeSpec.Filled(pg.primary, h, true)
    ensures !GroupFaults(tbl, pg, conds, None)
  {
    hide Cursors.MeetsEmptyLeaf, Classify;
    var b := Classify(tbl, conds);
    Cursors.InsertOnlyNeverFaults(pg.primary, h, b.min, b.max);
  }

  lemma {:induction false} FilteredFaults(child: Plan, preds: seq<Condition>, pdb: string -> Paged, db: string -> Data, snap: Snapshot)
    requires Backed(child, pdb, db)
    ensures Backed(Filtered(child, preds), pdb, db)
    ensures Pull(Filtered(child, preds), pdb, db, snap).faults == Pull(child, pdb, db, snap).faults
  {
    hide LeafBacked, ScanStream, LookupStream, Keep, JoinStreams, Dedup;
  }

  lemma {:induction false} GroupStream(tbl: Table, pdb: string -> Paged, db: string -> Data, snap: Snapshot, conds: seq<Condition>, choice: Option<nat>)
    requires LeafBacked(tbl, pdb, db) && (choice.Some? ==> Eligible(tbl, conds, choice.value))
    ensures Backed(PlanGroup(tbl, conds, choice), pdb, db)
    ensures Pull(PlanGroup(tbl, conds, choice), pdb, db, snap).faults <==> GroupFaults(tbl, pdb(Lower(tbl.name)), conds, choice)
  {
    hide ScanStream, LookupStream, Pull, LeafFaults, Classify, TreeOk, Stack.Cells, BTreeSpec.Flat, DataOf;
    var pg := pdb(Lower(tbl.name));
    match choice
    case None =>
      var b := Classify(tbl, conds);
      FilteredFaults(IndexScan(tbl, b.min, b.max), b.post, pdb, db, snap);
      LeafStream(IndexScan(tbl, b.min, b.max), pdb, db, snap);
    case Some(i) =>
      var (min, max) := CondToRange(conds[i].op, conds[i].val.n);
      var leaf := IndexLookup(tbl, tbl.IndexForColumn(conds[i].col).value, min, max);
      FilteredFaults(leaf, WithoutIdx(conds, i), pdb, db, snap);
      LeafStream(leaf, pdb, db, snap);
  }

  lemma {:induction false} LeafStream(p: Plan, pdb: string -> Paged, db: string -> Data, snap: Snapshot)
    requires (p.IndexScan? || p.IndexLookup?) && Backed(p, pdb, db)
    ensures var pg := pdb(Lower(p.tbl.name));
      Pull(p, pdb, db, snap).faults <==>
        (if p.IndexScan? then LeafFaults(pg.primary, p.min, p.max)
         else Lower(p.def.name) in pg.indexes && LeafFaults(pg.indexes[Lower(p.def.name)], p.min, p.max))
  {
    hide ScanStream, LookupStream, LeafFaults, TreeOk, Stack.Cells, Stack.IndexCells, BTreeSpec.Flat;
    var pg := pdb(Lower(p.tbl.name));
    SlotsOf(pg.primary);
    if p.IndexScan? {
      ScanPrefix(p.tbl, pg.primary, p.min, p.max, snap);
    } else if Lower(p.def.name) in pg.indexes {
      LookupPrefix(pg.indexes[Lower(p.def.name)], Stack.Cells(p.tbl, BTreeSpec.Flat(pg.primary)), p.min, p.max, snap);
    }
  }

  lemma {:induction false} AllFaults(ps: seq<Plan>, pdb: string -> Paged, db: string -> Data, snap: Snapshot)
    requires forall i :: 0 <= i < |ps| ==> Backed(ps[i], pdb, db)
    ensures PullAll(ps, pdb, db, snap).faults <==> exists i :: 0 <= i < |ps| && Pull(ps[i], pdb, db, snap).faults
  {
    hide Backed, Pull;
    if ps != [] {
      AllFaults(ps[..|ps| - 1], pdb, db, snap);
      assert forall i :: 0 <= i < |ps| - 1 ==> ps[..|ps| - 1][i] == ps[i];
    }
  }

  /** Some group's leaf faults. */
  ghost predicate SomeFaults(tbl: Table, pg: Paged, where: Option<seq<seq<Condition>>>, choices: seq<Option<nat>>)
    requires ChoicesFit(tbl, where, choices)
  {
    if where.None? then LeafFaults(pg.primary, 0, MAX_WORD)
    else exists g :: 0 <= g < |choices| && GroupFaults(tbl, pg, where.value[g], choices[g])
  }

  lemma {:induction false} RootStream(tbl: Table, pdb: string -> Paged, db: string -> Data, snap: Snapshot, where: Option<seq<seq<Condition>>>, choices: seq<Option<nat>>)
    requires LeafBacked(tbl, pdb, db) && ChoicesFit(tbl, where, choices) && PlanRows(tbl, where, choices).Ok?
    ensures var root := PlanRows(tbl, where, choices).value;
      Backed(root, pdb, db) && (Pull(root, pdb, db, snap).faults <==> SomeFaults(tbl, pdb(Lower(tbl.name)), where, choices))
  {
    hide GroupFaults, PlanGroup, LeafFaults, LeafBacked, ScanStream, LookupStream;
    if where.None? {
      LeafStream(IndexScan(tbl, 0, MAX_WORD), pdb, db, snap);
    } else {
      var bs := Branches(tbl, where.value, choices);
      forall g | 0 <= g < |bs|
        ensures Backed(bs[g], pdb, db) && (Pull(bs[g], pdb, db, snap).faults <==> GroupFaults(tbl, pdb(Lower(tbl.name)), where.value[g], choices[g]))
      {
        GroupStream(tbl, pdb, db, snap, where.value[g], choices[g]);
      }
      if |bs| != 1 {
        AllFaults(bs, pdb, db, snap);
      }
    }
  }

  /** A SELECT over the paged trees of a table.  Without LIMIT it fails exactly when the leaf of some
      group meets an empty leaf; LIMIT n hides the fault once n rows came before it.  When it does not
      fail it returns the chosen columns of exactly the rows DELETE and UPDATE would act on, or of n of
      them. */
  lemma {:induction false} SelectOverPages(tbl: Table, pdb: string -> Paged, db: string -> Data, snap: Snapshot, cols: seq<string>,
                                           where: Option<seq<seq<Condition>>>, limit: nat, choices: seq<Option<nat>>)
    requires tbl.WellFormed() && LeafBacked(tbl, pdb, db)
    requires Stored(tbl, db(Lower(tbl.name)).cells) && CoversAll(tbl, db(Lower(tbl.name)), snap)
    requires ChoicesFit(tbl, where, choices) && NoKeyJoin(tbl, where) && ResolveColumns(tbl, cols).Ok?
    ensures PlanRows(tbl, where, choices).Ok? && PlanSingleTable(tbl, cols, where, limit, choices).Ok?
    ensures var root, plan := PlanRows(tbl, where, choices).value, PlanSingleTable(tbl, cols, where, limit, choices).value;
      && Backed(root, pdb, db) && Backed(plan, pdb, db)
      && (Pull(plan, pdb, db, snap).faults <==>
          SomeFaults(tbl, pdb(Lower(tbl.name)), where, choices) && (limit == 0 || |Pull(root, pdb, db, snap).rows| < limit))
      && (!Pull(plan, pdb, db, snap).faults ==>
          var rows, all := Pull(plan, pdb, db, snap).rows, Selected(db(Lower(tbl.name)).cells, tbl, snap, where);
          var idxs := ResolveColumns(tbl, cols).value;
          && multiset(rows) <= multiset(PickAll(all, idxs))
          && |rows| == (if limit > 0 && |all| > limit then limit else |all|)
          && (limit == 0 ==> multiset(rows) == multiset(PickAll(all, idxs)))
          && ShowsAll(tbl, cols, all, PickAll(all, idxs)))
  {
    hide ShowsAll, SomeFaults, LeafBacked, Stored, CoversAll, ChoicesFit, NoKeyJoin, PlanRows, ResolveColumns, Selected, Exec, Pull, PickAll, Table.WellFormed, Backed;
    SelectStatement(tbl, db, snap, cols, where, limit, choices);
    var root, plan := PlanRows(tbl, where, choices).value, PlanSingleTable(tbl, cols, where, limit, choices).value;
    RootStream(tbl, pdb, db, snap, where, choices);
    TopStream(root, limit, ResolveColumns(tbl, cols).value, pdb, db, snap);
    PullPrefix(plan, pdb, db, snap);
  }

  lemma {:induction false} TopStream(root: Plan, limit: nat, idxs: seq<nat>, pdb: string -> Paged, db: string -> Data, snap: Snapshot)
    requires Backed(root, pdb, db)
    ensures var plan := Project(if limit > 0 then Limit(root, limit) else root, idxs);
      && Backed(plan, pdb, db)
      && (Pull(plan, pdb, db, snap).faults <==> Pull(root, pdb, db, snap).faults && (limit == 0 || |Pull(root, pdb, db, snap).rows| < limit))
  {
    hide LeafBacked, ScanStream, LookupStream, Keep, JoinStreams, Dedup, Take, PickAll;
    if limit > 0 {
      LimitStream(root, limit, pdb, db, snap);
    }
  }

  lemma {:induction false} LimitStream(root: Plan, limit: nat, pdb: string -> Paged, db: string -> Data, snap: Snapshot)
    requires Backed(root, pdb, db)
    ensures Backed(Limit(root, limit), pdb, db)
    ensures Pull(Limit(root, limit), pdb, db, snap).faults <==> Pull(root, pdb, db, snap).faults && |Pull(root, pdb, db, snap).rows| < limit
  {
    hide LeafBacked, ScanStream, LookupStream, Keep, JoinStreams, Dedup, Take, PickAll;
  }

  // ---------------------------------------------------------------- several tables

  /** Leaf `i` is the first of the FROM order whose cursor faults. */
  ghost predicate FirstFault(leaves: seq<Plan>, i: nat, pdb: string -> Paged, db: string -> Data, snap: Snapshot)
    requires i < |leaves| && forall j :: 0 <= j < |leaves| ==> Backed(leaves[j], pdb, db)
  {
    Pull(leaves[i], pdb, db, snap).faults && forall j :: 0 <= j < i ==> !Pull(leaves[j], pdb, db, snap).faults
  }

  /** The join reaches that leaf: it is the first table, or the tables before it join to some row. */
  ghost predicate Reached(leaves: seq<Plan>, srcs: seq<Source>, conds: seq<Condition>, i: nat, db: string -> Data, snap: Snapshot)
    requires i < |srcs| == |leaves|
  {
    i == 0 || Exec(Joins.Tree(leaves, srcs, conds, i), db, snap) != []
  }

  ghost predicate LeavesBacked(leaves: seq<Plan>, pdb: string -> Paged, db: string -> Data) {
    forall j :: 0 <= j < |leaves| ==> Backed(leaves[j], pdb, db)
  }

  lemma {:induction false} TreeBacked(leaves: seq<Plan>, srcs: seq<Source>, conds: seq<Condition>, k: nat, pdb: string -> Paged, db: string -> Data)
    requires 1 <= k <= |srcs| == |leaves| && LeavesBacked(leaves, pdb, db)
    ensures Backed(Joins.Tree(leaves, srcs, conds, k), pdb, db)
  {
    hide LeafBacked, Connected, Remaining, LeftSchema, Schema;
    if k > 1 {
      TreeBacked(leaves, srcs, conds, k - 1, pdb, db);
    }
  }

  /** The join tree of the first `k` tables faults exactly when the first faulting leaf among them is
      reached; if it is not, the join is empty. */
  lemma {:induction false} TreeFaults(leaves: seq<Plan>, srcs: seq<Source>, conds: seq<Condition>, k: nat, pdb: string -> Paged, db: string -> Data, snap: Snapshot)
    requires 1 <= k <= |srcs| == |leaves| && LeavesBacked(leaves, pdb, db)
    ensures Backed(Joins.Tree(leaves, srcs, conds, k), pdb, db)
    ensures var s := Pull(Joins.Tree(leaves, srcs, conds, k), pdb, db, snap);
      && (s.faults <==> exists i :: 0 <= i < k && FirstFault(leaves, i, pdb, db, snap) && Reached(leaves, srcs, conds, i, db, snap))
      && (!s.faults && (exists i :: 0 <= i < k && FirstFault(leaves, i, pdb, db, snap)) ==> s.rows == [])
  {
    hide Backed, Pull, Exec, Connected, Remaining, LeftSchema, Schema, JoinRows, PairUp, ColMap;
    TreeBacked(leaves, srcs, conds, k, pdb, db);
    if k == 1 {
      assert FirstFault(leaves, 0, pdb, db, snap) <==> Pull(leaves[0], pdb, db, snap).faults;
    } else {
      var t := Joins.Tree(leaves, srcs, conds, k - 1);
      TreeFaults(leaves, srcs, conds, k - 1, pdb, db, snap);
      PullPrefix(t, pdb, db, snap);
      JoinStream(leaves, srcs, conds, k, pdb, db, snap);
      NoFaultBefore(leaves, k - 1, pdb, db, snap);
    }
  }

  /** Either some earlier leaf is the first to fault, or leaf `k` is exactly if it faults. */
  lemma {:induction false} NoFaultBefore(leaves: seq<Plan>, k: nat, pdb: string -> Paged, db: string -> Data, snap: Snapshot)
    requires k < |leaves| && LeavesBacked(leaves, pdb, db)
    ensures (exists i :: 0 <= i < k && FirstFault(leaves, i, pdb, db, snap)) <==> (exists i :: 0 <= i < k && Pull(leaves[i], pdb, db, snap).faults)
    ensures FirstFault(leaves, k, pdb, db, snap) <==>
      Pull(leaves[k], pdb, db, snap).faults && !(exists i :: 0 <= i < k && FirstFault(leaves, i, pdb, db, snap))
  {
    hide Backed, Pull;
    if k > 0 {
      NoFaultBefore(leaves, k - 1, pdb, db, snap);
    }
  }

  lemma {:induction false} JoinStream(leaves: seq<Plan>, srcs: seq<Source>, conds: seq<Condition>, k: nat, pdb: string -> Paged, db: string -> Data, snap: Snapshot)
    requires 2 <= k <= |srcs| == |leaves| && LeavesBacked(leaves, pdb, db)
    requires Backed(Joins.Tree(leaves, srcs, conds, k - 1), pdb, db) && Backed(Joins.Tree(leaves, srcs, conds, k), pdb, db)
    ensures var l, r := Pull(Joins.Tree(leaves, srcs, conds, k - 1), pdb, db, snap), Pull(leaves[k - 1], pdb, db, snap);
      var s := Pull(Joins.Tree(leaves, srcs, conds, k), pdb, db, snap);
      && (s.faults <==> (if l.rows == [] then l.faults else r.faults || l.faults))
      && (l.rows == [] ==> s.rows == [])
  {
    hide LeafBacked, Connected, Remaining, LeftSchema, Schema, JoinRows, PairUp, ColMap, ScanStream, LookupStream, Keep, Dedup, Take, PickAll;
  }

  /** A query over several tables on paged trees: it fails exactly when its first faulting leaf is
      reached, and otherwise returns the filtered cross product. */
  lemma {:induction false} JoinOverPages(srcs: seq<Source>, where: Option<seq<seq<Condition>>>, ons: seq<Condition>,
                                         choices: seq<Option<nat>>, pdb: string -> Paged, db: string -> Data, snap: Snapshot)
    requires 1 <= |srcs| && JoinMeaning.PlainNames(srcs) && JoinMeaning.Ready(srcs, db, snap)
    requires forall i :: 0 <= i < |srcs| ==> LeafBacked(srcs[i].tbl, pdb, db)
    requires (where.Some? ==> |where.value| == 1) && JoinMeaning.AllResolved(srcs, Conjunction(where).value) && JoinMeaning.AllForward(srcs, ons)
    requires ChoicesFor(Conjunction(where).value, srcs, choices)
    ensures PlanMulti(srcs, where, ons, choices).Ok?
    ensures var conds := Conjunction(where).value; var leaves, plan := Leaves(conds, srcs, choices), PlanMulti(srcs, where, ons, choices).value;
      && LeavesBacked(leaves, pdb, db) && Backed(plan, pdb, db)
      && (forall i :: 0 <= i < |srcs| ==>
          (Pull(leaves[i], pdb, db, snap).faults <==> GroupFaults(srcs[i].tbl, pdb(Lower(srcs[i].tbl.name)), PushedTo(conds, srcs, i), choices[i])))
      && (Pull(plan, pdb, db, snap).faults <==>
          exists i :: 0 <= i < |srcs| && FirstFault(leaves, i, pdb, db, snap) && Reached(leaves, srcs, JoinConds(conds) + ons, i, db, snap))
      && (!Pull(plan, pdb, db, snap).faults ==>
          && Distinct(Pull(plan, pdb, db, snap).rows)
          && forall row: Row :: row in Pull(plan, pdb, db, snap).rows <==>
              JoinMeaning.Combined(srcs, db, snap, row) && JoinMeaning.AllHoldOn(srcs, conds, row) && JoinMeaning.OnsHold(srcs, ons, row))
  {
    hide Pull, Exec, Backed, GroupFaults, PlanGroup, PushedTo, LeafBacked, JoinMeaning.PlainNames, JoinMeaning.Ready, JoinMeaning.AllResolved,
      JoinMeaning.AllForward, JoinMeaning.Combined, JoinMeaning.AllHoldOn, JoinMeaning.OnsHold, Distinct, FirstFault, Reached, JoinConds, Joins.Tree;
    var conds := Conjunction(where).value;
    JoinMeaning.JoinIsFilteredProduct(srcs, where, ons, choices, db, snap);
    var leaves := Leaves(conds, srcs, choices);
    forall i | 0 <= i < |srcs|
      ensures Backed(leaves[i], pdb, db)
      ensures Pull(leaves[i], pdb, db, snap).faults <==> GroupFaults(srcs[i].tbl, pdb(Lower(srcs[i].tbl.name)), PushedTo(conds, srcs, i), choices[i])
    {
      GroupStream(srcs[i].tbl, pdb, db, snap, PushedTo(conds, srcs, i), choices[i]);
    }
    TreeFaults(leaves, srcs, JoinConds(conds) + ons, |srcs|, pdb, db, snap);
    PullPrefix(PlanMulti(srcs, where, ons, choices).value, pdb, db, snap);
  }
}
