/** Subqueries are run before the query around them, and their conditions replaced by the values
    they produced. */
module Subqueries {
  import opened Pages
  import opened Seqs
  import opened Queries
  import opened Planners
  import opened Aggregates

  // ---------------------------------------------------------------- statements

  /** A SELECT over one table. */
  datatype Select = Select(columns: seq<Expr>, from: string, where: Clause, groupBy: seq<string>, having: Clause, limit: nat)

  /** No clause, or a disjunction of conjunctions. */
  datatype Clause = NoClause | AnyOf(groups: seq<Conjunction>)

  datatype Conjunction = AllOf(conds: seq<Cond>)

  /** A condition that may contain a query. */
  datatype Cond =
    | Plain(c: Condition)
    | InQuery(col: string, query: Select, negated: bool)
    | Scalar(col: string, op: CompareOp, query: Select)
    | Exists(query: Select, negated: bool)

  /** A table, the rows of it that the snapshot shows, and the order in which the plan of a statement
      hands on the rows its WHERE clause keeps. */
  datatype Source = Source(tbl: Table, rows: seq<Row>, order: (Select, seq<Row>) -> seq<Row>) {
    /** The rows in plan order; a plan neither loses nor adds any. */
    function Arranged(q: Select, kept: seq<Row>): (r: seq<Row>)
      ensures multiset(r) == multiset(kept)
    {
      var r := order(q, kept);
      if multiset(r) == multiset(kept) then r else kept
    }
  }

  type Db = map<string, Source>

  const STAR := [Col("*", "*")]

  // ---------------------------------------------------------------- what is done with the rows kept by WHERE

  function Filter(rows: seq<Row>, p: Row -> bool): (r: seq<Row>)
    ensures forall i :: 0 <= i < |r| ==> p(r[i])
  {
    if rows == [] then [] else
    Filter(rows[..|rows| - 1], p) + if p(rows[|rows| - 1]) then [rows[|rows| - 1]] else []
  }

  lemma {:induction false} FilterSame(rows: seq<Row>, p: Row -> bool, q: Row -> bool)
    requires forall i :: 0 <= i < |rows| ==> p(rows[i]) == q(rows[i])
    ensures Filter(rows, p) == Filter(rows, q)
  {
    if rows != [] {
      FilterSame(rows[..|rows| - 1], p, q);
    }
  }

  ghost predicate WideAs(rows: seq<Row>, w: nat) {
    forall r :: 0 <= r < |rows| ==> |rows[r]| == w
  }

  function Names(columns: seq<Expr>): (r: seq<string>)
    ensures |r| == |columns|
  {
    seq(|columns|, i requires 0 <= i < |columns| => columns[i].name)
  }

  predicate GroupsKnown(groupBy: seq<string>, rawIdx: map<string, nat>) {
    forall i :: 0 <= i < |groupBy| ==> Lower(groupBy[i]) in rawIdx
  }

  function GroupIdxs(groupBy: seq<string>, rawIdx: map<string, nat>): (r: seq<nat>)
    requires GroupsKnown(groupBy, rawIdx)
    ensures |r| == |groupBy| && forall i :: 0 <= i < |r| ==> r[i] == rawIdx[Lower(groupBy[i])]
  {
    seq(|groupBy|, i requires 0 <= i < |groupBy| => rawIdx[Lower(groupBy[i])])
  }

  ghost predicate GroupsWide(groups: seq<Group>, w: nat) {
    forall g :: 0 <= g < |groups| ==> WideAs(groups[g].rows, w)
  }

  lemma {:induction false} WithKeyWide(rows: seq<Row>, ks: seq<seq<byte>>, k: seq<byte>, w: nat)
    requires |ks| == |rows| && WideAs(rows, w)
    ensures WideAs(WithKey(rows, ks, k), w)
  {
    if rows != [] {
      WithKeyWide(rows[..|rows| - 1], ks[..|ks| - 1], k, w);
    }
  }

  /** The groups of an aggregate query; without GROUP BY there is always one, even of no rows. */
  function GroupsFor(rows: seq<Row>, idxs: seq<nat>, w: nat): (groups: seq<Group>)
    requires WideAs(rows, w) && forall i :: 0 <= i < |idxs| ==> idxs[i] < w
    ensures GroupsWide(groups, w)
  {
    var ks := KeysOf(rows, idxs);
    var groups := Grouped(rows, ks);
    assert GroupsWide(groups, w) by {
      forall g | 0 <= g < |groups| ensures WideAs(groups[g].rows, w) { WithKeyWide(rows, ks, FirstKeys(ks)[g], w); }
    }
    if groups == [] && idxs == [] then [Group([], [])] else groups
  }

  /** One output row per group; an unknown column is an error once there is a group to compute. */
  function AggRows(columns: seq<Expr>, groupBy: seq<string>, tbl: Table, kept: seq<Row>): Result<seq<Row>>
    requires WideAs(kept, |tbl.columns|)
  {
    var rawIdx, w := RawIdx(tbl.columns), |tbl.columns|;
    if !GroupsKnown(groupBy, rawIdx) then Err else
    var groups := GroupsFor(kept, GroupIdxs(groupBy, rawIdx), w);
    if groups == [] then Ok([])
    else if exists i :: 0 <= i < |columns| && !Known(columns[i], rawIdx) then Err
    else Ok(seq(|groups|, g requires 0 <= g < |groups| => assert WideAs(groups[g].rows, w); GroupRow(columns, groups[g].rows, rawIdx, w)))
  }

  /** The rows before HAVING and LIMIT. */
  function OutRows(columns: seq<Expr>, groupBy: seq<string>, tbl: Table, kept: seq<Row>): Result<seq<Row>>
    requires WideAs(kept, |tbl.columns|)
  {
    if SelectHasAgg(columns, groupBy) then AggRows(columns, groupBy, tbl, kept)
    else match ResolveColumns(tbl, Names(columns))
      case Err => Err
      case Ok(idxs) => Ok(PickAll(kept, idxs))
  }

  function Limited(rows: seq<Row>, limit: nat): seq<Row> {
    if limit > 0 && |rows| > limit then rows[..limit] else rows
  }

  /** The names HAVING may use: output names, and the unaliased names of aggregate calls. */
  function OutIdx(columns: seq<Expr>): map<string, nat> {
    OutNames(columns) + CallNames(columns)
  }

  function OutNames(columns: seq<Expr>): map<string, nat> {
    if columns == [] then map[] else OutNames(columns[..|columns| - 1])[Lower(columns[|columns| - 1].out) := |columns| - 1]
  }

  function CallNames(columns: seq<Expr>): map<string, nat> {
    if columns == [] then map[] else
    var m, e := CallNames(columns[..|columns| - 1]), columns[|columns| - 1];
    if e.Agg? then m[Lower(e.call) := |columns| - 1] else m
  }

  // ---------------------------------------------------------------- HAVING without subqueries

  /** A resolved condition on a value; a column-to-column condition compares with its unused value, 0. */
  predicate Test(c: Condition, v: Datum) {
    match c
    case Compare(_, op, val) => CompareVals(v, val, op)
    case ColCompare(_, op, _) => CompareVals(v, Int(0), op)
    case InList(_, list, negated) => (v in list) != negated
    case AlwaysFalse => false
  }

  /** Conditions in order, stopping at the first that fails; an unknown column is an error. */
  function HavingGroup(row: Row, idx: map<string, nat>, conds: seq<Condition>, n: nat): Result<bool>
    requires n <= |conds|
  {
    if n == 0 then Ok(true) else
    match HavingGroup(row, idx, conds, n - 1)
    case Err => Err
    case Ok(false) => Ok(false)
    case Ok(true) =>
      var c := conds[n - 1];
      if c.AlwaysFalse? then Ok(false)
      else if Lower(c.col) !in idx then Err
      else Ok(Test(c, At(row, idx[Lower(c.col)])))
  }

  function HavingMatches(row: Row, idx: map<string, nat>, groups: seq<seq<Condition>>, n: nat): Result<bool>
    requires n <= |groups|
  {
    if n == 0 then Ok(false) else
    match HavingMatches(row, idx, groups, n - 1)
    case Err => Err
    case Ok(true) => Ok(true)
    case Ok(false) => HavingGroup(row, idx, groups[n - 1], |groups[n - 1]|)
  }

  function HavingRows(rows: seq<Row>, idx: map<string, nat>, groups: seq<seq<Condition>>): Result<seq<Row>> {
    if rows == [] then Ok([]) else
    match HavingRows(rows[..|rows| - 1], idx, groups)
    case Err => Err
    case Ok(out) =>
      match HavingMatches(rows[|rows| - 1], idx, groups, |groups|)
      case Err => Err
      case Ok(pass) => Ok(if pass then out + [rows[|rows| - 1]] else out)
  }

  // ---------------------------------------------------------------- running a statement without subqueries

  /** The rows the WHERE clause keeps, in plan order. */
  function Kept(q: Select, src: Source, where: Option<seq<seq<Condition>>>): (r: seq<Row>)
    ensures WideAs(r, |src.tbl.columns|)
  {
    var rows := Filter(src.rows, row => |row| == |src.tbl.columns| && Matches(src.tbl, row, where));
    ArrangedWide(src, q, rows);
    src.Arranged(q, rows)
  }

  lemma {:induction false} ArrangedWide(src: Source, q: Select, rows: seq<Row>)
    requires WideAs(rows, |src.tbl.columns|)
    ensures WideAs(src.Arranged(q, rows), |src.tbl.columns|)
  {
    var r := src.Arranged(q, rows);
    forall i | 0 <= i < |r| ensures |r[i]| == |src.tbl.columns| {
      assert r[i] in multiset(r);
      assert r[i] in multiset(rows);
    }
  }

  /** Only aggregate queries look at HAVING. */
  function Run(columns: seq<Expr>, tbl: Table, kept: seq<Row>, groupBy: seq<string>,
               having: Option<seq<seq<Condition>>>, limit: nat): Result<seq<Row>>
    requires WideAs(kept, |tbl.columns|)
  {
    match OutRows(columns, groupBy, tbl, kept)
    case Err => Err
    case Ok(rows) =>
      if SelectHasAgg(columns, groupBy) && having.Some? then
        (match HavingRows(rows, OutIdx(columns), having.value)
         case Err => Err
         case Ok(out) => Ok(Limited(out, limit)))
      else Ok(Limited(rows, limit))
  }

  // ---------------------------------------------------------------- flattening

  function FirstColumn(rows: seq<Row>): seq<Datum> {
    if rows == [] then [] else
    FirstColumn(rows[..|rows| - 1]) + if |rows[|rows| - 1]| > 0 then [rows[|rows| - 1][0]] else []
  }

  method FirstColumnValues(rows: seq<Row>) returns (out: seq<Datum>)
    ensures out == FirstColumn(rows)
  {
    out := [];
    for i := 0 to |rows|
      invariant out == FirstColumn(rows[..i])
    {
      TakeOne(rows, i);
      if |rows[i]| > 0 {
        out := out + [rows[i][0]];
      }
    }
    assert rows[..|rows|] == rows;
  }

  /** What becomes of one condition: kept in resolved form, dropped as true, or failing its group. */
  datatype Step = Keep(c: Condition) | Drop | Fail | Error

  datatype Flat = Flat(conds: seq<Condition>) | Failed | Broken

  /** Runs the statement after resolving its subqueries; `star` replaces the select list by "*". */
  function ExecFlattened(q: Select, star: bool, db: Db): Result<seq<Row>>
    decreases q, 0
  {
    match FlattenWhere(q.where, db)
    case Err => Err
    case Ok(where) =>
      match FlattenWhere(q.having, db)
      case Err => Err
      case Ok(having) =>
        if q.from !in db then Err
        else Run(if star then STAR else q.columns, db[q.from].tbl, Kept(q, db[q.from], where), q.groupBy, having, q.limit)
  }

  function FlattenWhere(wc: Clause, db: Db): Result<Option<seq<seq<Condition>>>>
    decreases wc, 0
  {
    match wc
    case NoClause => Ok(None)
    case AnyOf(groups) =>
      match FlattenGroups(groups, |groups|, db)
      case Err => Err
      case Ok(flat) => Ok(Some(flat))
  }

  function FlattenGroups(groups: seq<Conjunction>, n: nat, db: Db): (r: Result<seq<seq<Condition>>>)
    requires n <= |groups|
    ensures r.Ok? ==> |r.value| == n
    decreases groups, n
  {
    if n == 0 then Ok([]) else
    match FlattenGroups(groups, n - 1, db)
    case Err => Err
    case Ok(done) =>
      match FlattenGroup(groups[n - 1], |groups[n - 1].conds|, db)
      case Broken => Err
      case Failed => Ok(done + [[AlwaysFalse]])
      case Flat(conds) => Ok(done + [conds])
  }

  /** The first `n` conditions of a group, up to one that fails it. */
  function FlattenGroup(group: Conjunction, n: nat, db: Db): Flat
    requires n <= |group.conds|
    decreases group, n
  {
    if n == 0 then Flat([]) else
    match FlattenGroup(group, n - 1, db)
    case Broken => Broken
    case Failed => Failed
    case Flat(conds) =>
      match FlattenCond(group.conds[n - 1], db)
      case Error => Broken
      case Fail => Failed
      case Drop => Flat(conds)
      case Keep(c) => Flat(conds + [c])
  }

  function FlattenCond(c: Cond, db: Db): Step
    decreases c, 0
  {
    match c
    case Plain(p) => Keep(p)
    case InQuery(col, q, negated) =>
      (match ExecFlattened(q, false, db)
       case Err => Error
       case Ok(rows) => Keep(InList(col, FirstColumn(rows), negated)))
    case Scalar(col, op, q) =>
      (match ExecFlattened(q, false, db)
       case Err => Error
       case Ok(rows) => if rows == [] then Fail else if |rows| > 1 then Error else Keep(Compare(col, op, At(rows[0], 0))))
    case Exists(q, negated) =>
      (match ExecFlattened(q, true, db)
       case Err => Error
       case Ok(rows) => if (rows != []) == negated then Fail else Drop)
  }

  // ---------------------------------------------------------------- flattening as loops

  method ExecSelectFlattened(q: Select, star: bool, db: Db) returns (r: Result<seq<Row>>)
    ensures r == ExecFlattened(q, star, db)
    decreases q, 0
  {
    var where := FlattenSubqueries(q.where, db);
    if where.Err? {
      return Err;
    }
    var having := FlattenSubqueries(q.having, db);
    if having.Err? || q.from !in db {
      return Err;
    }
    var kept := Kept(q, db[q.from], where.value);
    return Run(if star then STAR else q.columns, db[q.from].tbl, kept, q.groupBy, having.value, q.limit);
  }

  method FlattenSubqueries(wc: Clause, db: Db) returns (r: Result<Option<seq<seq<Condition>>>>)
    ensures r == FlattenWhere(wc, db)
    decreases wc, 0
  {
    if wc.NoClause? {
      return Ok(None);
    }
    var flat: seq<seq<Condition>> := [];
    for gi := 0 to |wc.groups|
      invariant FlattenGroups(wc.groups, gi, db) == Ok(flat)
    {
      var conds := wc.groups[gi].conds;
      var buf := new Cond[|conds|](i requires 0 <= i < |conds| => conds[i]);
      assert buf[..] == conds;
      var kept, end := FlattenInPlace(buf, wc.groups[gi], db);
      if end.Broken? {
        BrokenStays(wc.groups, gi + 1, |wc.groups|, db);
        return Err;
      }
      flat := flat + [if end.Failed? then [AlwaysFalse] else Resolved(buf[..kept])];
    }
    return Ok(Some(flat));
  }

  lemma {:induction false} BrokenStays(groups: seq<Conjunction>, n: nat, m: nat, db: Db)
    requires n <= m <= |groups| && FlattenGroups(groups, n, db) == Err
    ensures FlattenGroups(groups, m, db) == Err
  {
    if n < m {
      BrokenStays(groups, n, m - 1, db);
    }
  }

  lemma {:induction false} EndStays(group: Conjunction, n: nat, m: nat, db: Db)
    requires n <= m <= |group.conds| && !FlattenGroup(group, n, db).Flat?
    ensures FlattenGroup(group, m, db) == FlattenGroup(group, n, db)
  {
    if n < m {
      EndStays(group, n, m - 1, db);
    }
  }

  /** The conditions of a group that was flattened. */
  function Resolved(conds: seq<Cond>): (r: seq<Condition>)
    ensures |r| == |conds|
  {
    if conds == [] then [] else
    Resolved(conds[..|conds| - 1]) + [if conds[|conds| - 1].Plain? then conds[|conds| - 1].c else AlwaysFalse]
  }

  lemma {:induction false} ResolvedSnoc(conds: seq<Cond>, p: Condition)
    ensures Resolved(conds + [Plain(p)]) == Resolved(conds) + [p]
  {
    assert (conds + [Plain(p)])[..|conds|] == conds;
  }

  /** One more condition of a group that has not failed yet. */
  lemma {:induction false} FlattenNext(group: Conjunction, i: nat, conds: seq<Condition>, db: Db)
    requires i < |group.conds| && FlattenGroup(group, i, db) == Flat(conds)
    ensures FlattenGroup(group, i + 1, db) ==
      match FlattenCond(group.conds[i], db)
      case Error => Broken
      case Fail => Failed
      case Drop => Flat(conds)
      case Keep(c) => Flat(conds + [c])
  {
  }

  lemma {:induction false} NothingYet(group: Conjunction, buf: seq<Cond>, db: Db)
    requires buf == []
    ensures FlattenGroup(group, 0, db) == Flat(Resolved(buf))
  {
  }

  /** Resolves a group inside its own buffer: kept conditions move to the front, never past the one
      being read, so no condition is overwritten before it is looked at. */
  method FlattenInPlace(buf: array<Cond>, ghost group: Conjunction, db: Db) returns (kept: nat, end: Flat)
    requires buf[..] == group.conds
    modifies buf
    ensures kept <= buf.Length
    ensures end == (match FlattenGroup(group, |group.conds|, db) case Flat(_) => Flat([]) case Failed => Failed case Broken => Broken)
    ensures end.Flat? ==> FlattenGroup(group, |group.conds|, db) == Flat(Resolved(buf[..kept]))
    decreases group, 0
  {
    hide FlattenGroup, FlattenCond, Resolved;
    kept := 0;
    var i := 0;
    assert buf.Length == |group.conds|;
    NothingYet(group, buf[..0], db);
    while i < buf.Length
      invariant kept <= i <= buf.Length
      invariant forall j :: i <= j < buf.Length ==> buf[j] == group.conds[j]
      invariant FlattenGroup(group, i, db) == Flat(Resolved(buf[..kept]))
    {
      var c := buf[i];
      assert c == group.conds[i];
      FlattenNext(group, i, Resolved(buf[..kept]), db);
      var step := FlattenOne(c, db);
      match step {
        case Keep(p) =>
          ghost var before := buf[..kept];
          buf[kept] := Plain(p);
          kept := kept + 1;
          assert buf[..kept] == before + [Plain(p)];
          ResolvedSnoc(before, p);
        case Drop =>
        case Fail =>
          EndStays(group, i + 1, |group.conds|, db);
          return kept, Failed;
        case Error =>
          EndStays(group, i + 1, |group.conds|, db);
          return kept, Broken;
      }
      i := i + 1;
    }
    end := Flat([]);
  }

  method FlattenOne(c: Cond, db: Db) returns (step: Step)
    ensures step == FlattenCond(c, db)
    decreases c, 0
  {
    match c
    case Plain(p) => return Keep(p);
    case InQuery(col, q, negated) =>
      var res := ExecSelectFlattened(q, false, db);
      if res.Err? {
        return Error;
      }
      var list := FirstColumnValues(res.value);
      return Keep(InList(col, list, negated));
    case Scalar(col, op, q) =>
      var res := ExecSelectFlattened(q, false, db);
      if res.Err? {
        return Error;
      }
      if |res.value| == 0 {
        return Fail;
      }
      if |res.value| > 1 {
        return Error;
      }
      return Keep(Compare(col, op, At(res.value[0], 0)));
    case Exists(q, negated) =>
      var res := ExecSelectFlattened(q, true, db);
      if res.Err? {
        return Error;
      }
      var hasRows := |res.value| > 0;
      return if hasRows == negated then Fail else Drop;
  }
}
