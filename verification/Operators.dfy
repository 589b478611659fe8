/** Running a physical plan over the stored tables, and why its rows are the rows asked for. */
module Operators {
  import opened Queries
  import opened Mvcc
  import opened Planners
  import opened Seqs
  import opened JoinEval

  // ---------------------------------------------------------------- stored tables

  /** A stored row: its key in the primary tree, its version header and its values. */
  datatype Cell = Cell(key: Word, xmin: nat, xmax: nat, row: Row)

  /** An entry of a secondary index. */
  datatype IndexCell = IndexCell(value: Word, pk: Word)

  /** The primary tree and the indexes of a table, each in key order. */
  datatype Data = Data(cells: seq<Cell>, indexes: map<string, seq<IndexCell>>)

  ghost predicate KeysAscend(cells: seq<Cell>) {
    forall i, j :: 0 <= i < j < |cells| ==> cells[i].key < cells[j].key
  }

  ghost predicate ValuesAscend(idx: seq<IndexCell>) {
    forall i, j :: 0 <= i < j < |idx| ==> idx[i].value < idx[j].value
  }

  /** Every stored row has the table's shape and stands under its own key. */
  ghost predicate Stored(tbl: Table, cells: seq<Cell>)
    requires tbl.PrimaryKey().Some?
  {
    && KeysAscend(cells)
    && forall i :: 0 <= i < |cells| ==> tbl.Fits(cells[i].row) && tbl.KeyOf(cells[i].row) == cells[i].key
  }

  ghost predicate Shown(cells: seq<Cell>, snap: Snapshot, row: Row) {
    exists i :: 0 <= i < |cells| && cells[i].row == row && snap.IsVisible(cells[i].xmin, cells[i].xmax)
  }

  /** The index maps the column's value to the key for every visible row, and leads to no visible
      row under another value. */
  ghost predicate Covers(cells: seq<Cell>, snap: Snapshot, idx: seq<IndexCell>, col: nat) {
    && ValuesAscend(idx)
    && (forall i :: 0 <= i < |cells| && snap.IsVisible(cells[i].xmin, cells[i].xmax) ==>
        col < |cells[i].row| && cells[i].row[col].Int? && IndexCell(cells[i].row[col].n, cells[i].key) in idx)
    && (forall i, e :: 0 <= i < |cells| && snap.IsVisible(cells[i].xmin, cells[i].xmax) && e in idx && e.pk == cells[i].key ==>
        cells[i].row[col] == Int(e.value))
  }

  ghost predicate CoversAll(tbl: Table, data: Data, snap: Snapshot)
    requires tbl.WellFormed()
  {
    forall d :: d in tbl.indexes ==>
      Lower(d.name) in data.indexes && Covers(data.cells, snap, data.indexes[Lower(d.name)], tbl.ColIndex(d.column).value)
  }

  // ---------------------------------------------------------------- leaves

  /** The visible rows with keys in the range, in key order. */
  function ScanRows(cells: seq<Cell>, min: Word, max: Word, snap: Snapshot): seq<Row> {
    if cells == [] then [] else
    var c := cells[|cells| - 1];
    ScanRows(cells[..|cells| - 1], min, max, snap)
      + if min <= c.key <= max && snap.IsVisible(c.xmin, c.xmax) then [c.row] else []
  }

  /** Search in the primary tree. */
  function Search(cells: seq<Cell>, key: Word): (r: Option<Cell>)
    ensures r.Some? ==> r.value in cells && r.value.key == key
    ensures r.None? ==> forall c :: c in cells ==> c.key != key
  {
    if cells == [] then None
    else if cells[|cells| - 1].key == key then Some(cells[|cells| - 1])
    else Search(cells[..|cells| - 1], key)
  }

  /** The visible rows reached through index entries with values in the range, in value order. */
  function LookupRows(idx: seq<IndexCell>, cells: seq<Cell>, min: Word, max: Word, snap: Snapshot): seq<Row> {
    if idx == [] then [] else
    var e := idx[|idx| - 1];
    LookupRows(idx[..|idx| - 1], cells, min, max, snap) + FetchRow(cells, e, min, max, snap)
  }

  function FetchRow(cells: seq<Cell>, e: IndexCell, min: Word, max: Word, snap: Snapshot): seq<Row> {
    if !(min <= e.value <= max) then [] else
    match Search(cells, e.pk)
    case None => []
    case Some(c) => if snap.IsVisible(c.xmin, c.xmax) then [c.row] else []
  }

  ghost predicate Distinct(rows: seq<Row>) {
    forall i, j :: 0 <= i < j < |rows| ==> rows[i] != rows[j]
  }

  lemma {:induction false} DistinctSnoc(rows: seq<Row>, r: Row)
    requires Distinct(rows) && r !in rows
    ensures Distinct(rows + [r])
  {
  }

  lemma {:induction false} InitMember<T>(s: seq<T>, x: T)
    requires s != []
    ensures x in s <==> x in s[..|s| - 1] || x == s[|s| - 1]
  {
    assert s == s[..|s| - 1] + [s[|s| - 1]];
  }

  lemma {:induction false} ShownInit(cells: seq<Cell>, snap: Snapshot, row: Row)
    requires cells != []
    ensures Shown(cells, snap, row) <==>
      Shown(cells[..|cells| - 1], snap, row) ||
      (cells[|cells| - 1].row == row && snap.IsVisible(cells[|cells| - 1].xmin, cells[|cells| - 1].xmax))
  {
    var init := cells[..|cells| - 1];
    if Shown(init, snap, row) {
      var i :| 0 <= i < |init| && init[i].row == row && snap.IsVisible(init[i].xmin, init[i].xmax);
      assert cells[i].row == row;
    }
    if Shown(cells, snap, row) {
      var i :| 0 <= i < |cells| && cells[i].row == row && snap.IsVisible(cells[i].xmin, cells[i].xmax);
      if i < |init| {
        assert init[i].row == row;
      }
    }
  }

  lemma {:induction false} ScanExact(tbl: Table, cells: seq<Cell>, min: Word, max: Word, snap: Snapshot)
    requires tbl.PrimaryKey().Some? && Stored(tbl, cells)
    ensures Distinct(ScanRows(cells, min, max, snap))
    ensures forall row: Row :: row in ScanRows(cells, min, max, snap) <==>
      Shown(cells, snap, row) && tbl.Fits(row) && min <= tbl.KeyOf(row) <= max
  {
    if cells != [] {
      var init, c := cells[..|cells| - 1], cells[|cells| - 1];
      ScanExact(tbl, init, min, max, snap);
      var rows := ScanRows(init, min, max, snap);
      assert forall i :: 0 <= i < |init| ==> init[i] == cells[i] && init[i].row != c.row;
      DistinctSnoc(rows, c.row);
      forall row: Row ensures row in ScanRows(cells, min, max, snap) <==> Shown(cells, snap, row) && tbl.Fits(row) && min <= tbl.KeyOf(row) <= max {
        ShownInit(cells, snap, row);
      }
    }
  }

  lemma {:induction false} SearchStored(cells: seq<Cell>, i: nat)
    requires KeysAscend(cells) && i < |cells|
    ensures Search(cells, cells[i].key) == Some(cells[i])
  {
    var r := Search(cells, cells[i].key);
    var j :| 0 <= j < |cells| && cells[j] == r.value;
  }

  /** The row's column is the value of one of the entries, within the range. */
  ghost predicate Entered(idx: seq<IndexCell>, row: Row, col: nat, min: Word, max: Word) {
    col < |row| && exists i :: 0 <= i < |idx| && row[col] == Int(idx[i].value) && min <= idx[i].value <= max
  }

  lemma {:induction false} EnteredInit(idx: seq<IndexCell>, row: Row, col: nat, min: Word, max: Word)
    requires idx != []
    ensures Entered(idx[..|idx| - 1], row, col, min, max) ==> Entered(idx, row, col, min, max)
    ensures ValuesAscend(idx) && Entered(idx[..|idx| - 1], row, col, min, max) ==> row[col] != Int(idx[|idx| - 1].value)
  {
    var init := idx[..|idx| - 1];
    assert forall i :: 0 <= i < |init| ==> init[i] == idx[i];
  }

  /** A fetched row is visible and carries the entry's value. */
  lemma {:induction false} FetchSound(whole: seq<IndexCell>, n: nat, cells: seq<Cell>, min: Word, max: Word, snap: Snapshot, col: nat)
    requires Covers(cells, snap, whole, col) && n < |whole|
    ensures var f := FetchRow(cells, whole[n], min, max, snap);
      f == [] || (|f| == 1 && Shown(cells, snap, f[0]) && col < |f[0]| && f[0][col] == Int(whole[n].value) && min <= whole[n].value <= max)
  {
    var e := whole[n];
    if FetchRow(cells, e, min, max, snap) != [] {
      var c := Search(cells, e.pk).value;
      var j :| 0 <= j < |cells| && cells[j] == c;
      assert e in whole;
    }
  }

  /** The lookup's rows carry the values of the entries that led to them. */
  lemma {:induction false} LookupSound(whole: seq<IndexCell>, n: nat, cells: seq<Cell>, min: Word, max: Word, snap: Snapshot, col: nat)
    requires Covers(cells, snap, whole, col) && n <= |whole|
    ensures var rows := LookupRows(whole[..n], cells, min, max, snap);
      Distinct(rows) && forall row: Row :: row in rows ==> Shown(cells, snap, row) && Entered(whole[..n], row, col, min, max)
  {
    hide Covers, FetchRow, Shown, Entered, LookupRows, ValuesAscend;
    if n == 0 {
      NothingFound(whole[..0], cells, min, max, snap);
    } else {
      LookupSound(whole, n - 1, cells, min, max, snap, col);
      FetchSound(whole, n - 1, cells, min, max, snap, col);
      var rows, f := LookupRows(whole[..n - 1], cells, min, max, snap), FetchRow(cells, whole[n - 1], min, max, snap);
      FoundSnoc(whole, n, cells, min, max, snap);
      CoversAscends(cells, snap, whole, n, col);
      assert whole[..n][..n - 1] == whole[..n - 1] && whole[..n][n - 1] == whole[n - 1];
      forall row: Row | row in rows ensures Entered(whole[..n], row, col, min, max) && (f != [] ==> row != f[0]) {
        EnteredInit(whole[..n], row, col, min, max);
      }
      if f != [] {
        assert f == [f[0]];
        DistinctSnoc(rows, f[0]);
        EnteredLast(whole[..n], f[0], col, min, max);
      }
    }
  }

  lemma {:induction false} NothingFound(idx: seq<IndexCell>, cells: seq<Cell>, min: Word, max: Word, snap: Snapshot)
    requires idx == []
    ensures LookupRows(idx, cells, min, max, snap) == [] && Distinct([])
  {
  }

  lemma {:induction false} FoundSnoc(whole: seq<IndexCell>, n: nat, cells: seq<Cell>, min: Word, max: Word, snap: Snapshot)
    requires 0 < n <= |whole|
    ensures LookupRows(whole[..n], cells, min, max, snap) == LookupRows(whole[..n - 1], cells, min, max, snap) + FetchRow(cells, whole[n - 1], min, max, snap)
  {
    hide FetchRow;
    TakeOne(whole, n - 1);
  }

  lemma {:induction false} CoversAscends(cells: seq<Cell>, snap: Snapshot, whole: seq<IndexCell>, n: nat, col: nat)
    requires Covers(cells, snap, whole, col) && n <= |whole|
    ensures ValuesAscend(whole[..n])
  {
  }

  lemma {:induction false} EnteredLast(idx: seq<IndexCell>, row: Row, col: nat, min: Word, max: Word)
    requires idx != [] && col < |row| && row[col] == Int(idx[|idx| - 1].value) && min <= idx[|idx| - 1].value <= max
    ensures Entered(idx, row, col, min, max)
  {
  }

  lemma {:induction false} LookupComplete(idx: seq<IndexCell>, cells: seq<Cell>, min: Word, max: Word, snap: Snapshot, e: IndexCell, row: Row)
    requires e in idx && row in FetchRow(cells, e, min, max, snap)
    ensures row in LookupRows(idx, cells, min, max, snap)
  {
    InitMember(idx, e);
    if e != idx[|idx| - 1] {
      LookupComplete(idx[..|idx| - 1], cells, min, max, snap, e, row);
    }
  }

  /** A covering index yields exactly the visible rows whose column lies in the range, each once. */
  lemma {:induction false} LookupExact(tbl: Table, data: Data, d: IndexDef, min: Word, max: Word, snap: Snapshot)
    requires tbl.WellFormed() && Stored(tbl, data.cells) && CoversAll(tbl, data, snap) && d in tbl.indexes
    ensures var rows, col := LookupRows(data.indexes[Lower(d.name)], data.cells, min, max, snap), tbl.ColIndex(d.column).value;
      && Distinct(rows)
      && forall row: Row :: row in rows <==>
          Shown(data.cells, snap, row) && tbl.Fits(row) && min <= row[col].n <= max
  {
    var idx, cells, col := data.indexes[Lower(d.name)], data.cells, tbl.ColIndex(d.column).value;
    var rows := LookupRows(idx, cells, min, max, snap);
    LookupSound(idx, |idx|, cells, min, max, snap, col);
    assert idx[..|idx|] == idx;
    forall row: Row | Shown(cells, snap, row) ensures tbl.Fits(row) && row[col].Int? {
    }
    forall row: Row | Shown(cells, snap, row) && min <= row[col].n <= max ensures row in rows {
      var i :| 0 <= i < |cells| && cells[i].row == row && snap.IsVisible(cells[i].xmin, cells[i].xmax);
      SearchStored(cells, i);
      LookupComplete(idx, cells, min, max, snap, IndexCell(row[col].n, cells[i].key), row);
    }
  }

  lemma {:induction false} LookupSource(idx: seq<IndexCell>, cells: seq<Cell>, min: Word, max: Word, snap: Snapshot, row: Row) returns (e: IndexCell)
    requires row in LookupRows(idx, cells, min, max, snap)
    ensures e in idx && row in FetchRow(cells, e, min, max, snap)
  {
    e := idx[|idx| - 1];
    if row !in FetchRow(cells, e, min, max, snap) {
      e := LookupSource(idx[..|idx| - 1], cells, min, max, snap, row);
      InitMember(idx, e);
    }
  }

  /** Every point lookup finds the visible rows with that value and no other. */
  ghost predicate LooksUp(cells: seq<Cell>, snap: Snapshot, idx: seq<IndexCell>, col: nat) {
    forall v: Word, row: Row :: row in LookupRows(idx, cells, v, v, snap) <==>
      Shown(cells, snap, row) && col < |row| && row[col] == Int(v)
  }

  /** Coverage is no more than point lookups need: an index that always finds the right rows covers
      the table.  An index created without back-filling, or left with entries of an overwritten
      row, does not. */
  lemma {:induction false} CoverageIsNeeded(tbl: Table, cells: seq<Cell>, snap: Snapshot, idx: seq<IndexCell>, col: nat)
    requires tbl.PrimaryKey().Some? && Stored(tbl, cells) && ValuesAscend(idx)
    requires col < |tbl.columns| && tbl.columns[col].typ.IntType? && LooksUp(cells, snap, idx, col)
    ensures Covers(cells, snap, idx, col)
  {
    forall i | 0 <= i < |cells| && snap.IsVisible(cells[i].xmin, cells[i].xmax)
      ensures IndexCell(cells[i].row[col].n, cells[i].key) in idx
    {
      var row := cells[i].row;
      var v := row[col].n;
      assert Shown(cells, snap, row);
      assert row in LookupRows(idx, cells, v, v, snap);
      var e := LookupSource(idx, cells, v, v, snap, row);
      var c := Search(cells, e.pk).value;
      var j :| 0 <= j < |cells| && cells[j] == c;
      assert e == IndexCell(v, cells[i].key);
    }
    forall i, e | 0 <= i < |cells| && snap.IsVisible(cells[i].xmin, cells[i].xmax) && e in idx && e.pk == cells[i].key
      ensures cells[i].row[col] == Int(e.value)
    {
      SearchStored(cells, i);
      LookupComplete(idx, cells, e.value, e.value, snap, e, cells[i].row);
    }
  }

  // ---------------------------------------------------------------- operators

  /** The leaf table a filter resolves its columns in. */
  function BaseTable(p: Plan): Option<Table> {
    match p
    case IndexScan(tbl, _, _) => Some(tbl)
    case IndexLookup(tbl, _, _, _) => Some(tbl)
    case Filter(child, _) => BaseTable(child)
    case Limit(child, _) => BaseTable(child)
    case Union(children, _) => if children == [] then None else BaseTable(children[0])
    case Project(_, _) => None
    case NestedLoopJoin(_, _, _, _, _) => None
  }

  /** Without a base table only AlwaysFalse rejects. */
  predicate Passes(tbl: Option<Table>, row: Row, preds: seq<Condition>) {
    match tbl
    case Some(t) => |row| == |t.columns| && AcceptsAll(t, row, preds)
    case None => forall i :: 0 <= i < |preds| ==> !preds[i].AlwaysFalse?
  }

  function Keep(rows: seq<Row>, tbl: Option<Table>, preds: seq<Condition>): seq<Row> {
    if rows == [] then [] else
    Keep(rows[..|rows| - 1], tbl, preds) + if Passes(tbl, rows[|rows| - 1], preds) then [rows[|rows| - 1]] else []
  }

  /** The integer field of the key column. */
  function DedupKey(row: Row, pk: nat): Word {
    if pk < |row| && row[pk].Int? then row[pk].n else 0
  }

  function KeysSeen(rows: seq<Row>, pk: nat): set<Word> {
    if rows == [] then {} else KeysSeen(rows[..|rows| - 1], pk) + {DedupKey(rows[|rows| - 1], pk)}
  }

  /** The first row of each key. */
  function Dedup(rows: seq<Row>, pk: nat): seq<Row> {
    if rows == [] then [] else
    var init, r := rows[..|rows| - 1], rows[|rows| - 1];
    Dedup(init, pk) + if DedupKey(r, pk) in KeysSeen(init, pk) then [] else [r]
  }

  function Take(rows: seq<Row>, n: nat): seq<Row> {
    if |rows| <= n then rows else rows[..n]
  }

  /** All rows the plan produces, in order. */
  function Exec(p: Plan, db: string -> Data, snap: Snapshot): seq<Row>
    decreases p, 0
  {
    match p
    case IndexScan(tbl, min, max) => ScanRows(db(Lower(tbl.name)).cells, min, max, snap)
    case IndexLookup(tbl, d, min, max) =>
      var data := db(Lower(tbl.name));
      if Lower(d.name) in data.indexes then LookupRows(data.indexes[Lower(d.name)], data.cells, min, max, snap) else []
    case Filter(child, preds) => Keep(Exec(child, db, snap), BaseTable(child), preds)
    case Union(children, pk) => Dedup(ExecAll(children, db, snap), pk)
    case Limit(child, n) => Take(Exec(child, db, snap), n)
    case Project(child, idxs) => PickAll(Exec(child, db, snap), idxs)
    case NestedLoopJoin(left, right, on, ls, rs) =>
      JoinRows(Exec(left, db, snap), Exec(right, db, snap), on, ColMap(ls), ColMap(rs))
  }

  function ExecAll(ps: seq<Plan>, db: string -> Data, snap: Snapshot): seq<Row>
    decreases ps, 1
  {
    if ps == [] then [] else ExecAll(ps[..|ps| - 1], db, snap) + Exec(ps[|ps| - 1], db, snap)
  }

  // ---------------------------------------------------------------- operators as loops

  lemma {:induction false} KeepStep(rows: seq<Row>, i: nat, tbl: Table, preds: seq<Condition>)
    requires i < |rows|
    ensures Keep(rows[..i + 1], Some(tbl), preds) == Keep(rows[..i], Some(tbl), preds) + if Passes(Some(tbl), rows[i], preds) then [rows[i]] else []
  {
    TakeOne(rows, i);
  }

  method FilterLoop(rows: seq<Row>, tbl: Table, preds: seq<Condition>) returns (out: seq<Row>)
    requires forall i :: 0 <= i < |rows| ==> |rows[i]| == |tbl.columns|
    ensures out == Keep(rows, Some(tbl), preds)
  {
    hide AcceptsAll;
    out := [];
    for i := 0 to |rows|
      invariant out == Keep(rows[..i], Some(tbl), preds)
    {
      KeepStep(rows, i, tbl, preds);
      var ok := EvalPreds(rows[i], tbl, preds);
      if ok {
        out := out + [rows[i]];
      }
    }
    assert rows[..|rows|] == rows;
  }

  function Concat(lists: seq<seq<Row>>): seq<Row> {
    if lists == [] then [] else Concat(lists[..|lists| - 1]) + lists[|lists| - 1]
  }

  lemma {:induction false} UnionStep(done: seq<Row>, rows: seq<Row>, i: nat, pk: nat)
    requires i < |rows|
    ensures KeysSeen(done + rows[..i + 1], pk) == KeysSeen(done + rows[..i], pk) + {DedupKey(rows[i], pk)}
    ensures Dedup(done + rows[..i + 1], pk) ==
      Dedup(done + rows[..i], pk) + if DedupKey(rows[i], pk) in KeysSeen(done + rows[..i], pk) then [] else [rows[i]]
  {
    var all := done + rows[..i + 1];
    assert all[..|all| - 1] == done + rows[..i] && all[|all| - 1] == rows[i];
  }

  /** Reads the branches one after the other, remembering the keys already passed on. */
  method UnionLoop(children: seq<seq<Row>>, pk: nat) returns (out: seq<Row>)
    ensures out == Dedup(Concat(children), pk)
  {
    hide DedupKey;
    out := [];
    var seen: set<Word> := {};
    for cur := 0 to |children|
      invariant out == Dedup(Concat(children[..cur]), pk) && seen == KeysSeen(Concat(children[..cur]), pk)
    {
      ghost var done := Concat(children[..cur]);
      var rows := children[cur];
      assert done + rows[..0] == done;
      for i := 0 to |rows|
        invariant out == Dedup(done + rows[..i], pk) && seen == KeysSeen(done + rows[..i], pk)
      {
        UnionStep(done, rows, i, pk);
        var key := DedupKey(rows[i], pk);
        if key !in seen {
          seen := seen + {key};
          out := out + [rows[i]];
        }
      }
      assert rows[..|rows|] == rows;
      TakeOne(children, cur);
    }
    assert children[..|children|] == children;
  }

  /** The scan of DELETE and UPDATE: every visible row that matches, in key order. */
  method ScanVisible(cells: seq<Cell>, tbl: Table, snap: Snapshot, where: Option<seq<seq<Condition>>>) returns (rows: seq<Row>)
    requires tbl.PrimaryKey().Some? && Stored(tbl, cells)
    ensures rows == Selected(cells, tbl, snap, where)
  {
    rows := [];
    for i := 0 to |cells|
      invariant rows == Selected(cells[..i], tbl, snap, where)
    {
      TakeOne(cells, i);
      var e := cells[i];
      if !snap.IsVisible(e.xmin, e.xmax) {
        continue;
      }
      var ok := MatchesWhere(e.row, tbl, where);
      if !ok {
        continue;
      }
      rows := rows + [e.row];
    }
    assert cells[..|cells|] == cells;
  }

  function Selected(cells: seq<Cell>, tbl: Table, snap: Snapshot, where: Option<seq<seq<Condition>>>): seq<Row> {
    if cells == [] then [] else
    var c := cells[|cells| - 1];
    Selected(cells[..|cells| - 1], tbl, snap, where)
      + if snap.IsVisible(c.xmin, c.xmax) && |c.row| == |tbl.columns| && Matches(tbl, c.row, where) then [c.row] else []
  }

  // ---------------------------------------------------------------- planning preserves meaning

  lemma {:induction false} KeepExact(rows: seq<Row>, tbl: Option<Table>, preds: seq<Condition>)
    ensures forall row: Row :: row in Keep(rows, tbl, preds) <==> row in rows && Passes(tbl, row, preds)
    ensures Distinct(rows) ==> Distinct(Keep(rows, tbl, preds))
  {
    if rows != [] {
      var init, r := rows[..|rows| - 1], rows[|rows| - 1];
      KeepExact(init, tbl, preds);
      forall row: Row ensures row in rows <==> row in init || row == r {
        InitMember(rows, row);
      }
      if Distinct(rows) {
        assert r !in init;
        DistinctSnoc(Keep(init, tbl, preds), r);
      }
    }
  }

  /** The rows answer the question: each accepted visible row once and nothing else. */
  ghost predicate Answers(tbl: Table, cells: seq<Cell>, snap: Snapshot, rows: seq<Row>, where: Option<seq<seq<Condition>>>) {
    && Distinct(rows)
    && forall row: Row :: row in rows <==> Shown(cells, snap, row) && |row| == |tbl.columns| && Matches(tbl, row, where)
  }

  /** Some column-to-column condition of a scanned group makes the plan drop this row. */
  ghost predicate Lost(tbl: Table, row: Row, conds: seq<Condition>, choice: Option<nat>)
    requires tbl.PrimaryKey().Some?
  {
    choice.None? && tbl.Fits(row) && Misread(tbl, tbl.KeyOf(row), conds)
  }

  lemma {:induction false} RemainingPreds(tbl: Table, row: Row, conds: seq<Condition>, i: nat)
    requires |row| == |tbl.columns| && i < |conds|
    ensures AcceptsAll(tbl, row, conds) <==> Accepts(tbl, row, conds[i]) && AcceptsAll(tbl, row, WithoutIdx(conds, i))
  {
    var rest := WithoutIdx(conds, i);
    assert forall j :: 0 <= j < i ==> rest[j] == conds[j];
    assert forall j :: i < j < |conds| ==> rest[j - 1] == conds[j];
  }

  /** The rows of one AND group's plan. */
  lemma {:induction false} GroupRows(tbl: Table, db: string -> Data, snap: Snapshot, conds: seq<Condition>, choice: Option<nat>)
    requires tbl.WellFormed() && Stored(tbl, db(Lower(tbl.name)).cells) && CoversAll(tbl, db(Lower(tbl.name)), snap)
    requires choice.Some? ==> Eligible(tbl, conds, choice.value)
    ensures var rows := Exec(PlanGroup(tbl, conds, choice), db, snap);
      && Distinct(rows)
      && forall row: Row :: row in rows <==>
          Shown(db(Lower(tbl.name)).cells, snap, row) && |row| == |tbl.columns| && AcceptsAll(tbl, row, conds) && !Lost(tbl, row, conds, choice)
  {
    var data := db(Lower(tbl.name));
    match choice
    case None => ScanGroup(tbl, db, snap, conds);
    case Some(i) => LookupGroup(tbl, db, snap, conds, i);
  }

  lemma {:induction false} ShownFits(tbl: Table, cells: seq<Cell>, snap: Snapshot, row: Row)
    requires tbl.PrimaryKey().Some? && Stored(tbl, cells) && Shown(cells, snap, row)
    ensures tbl.Fits(row)
  {
  }

  lemma {:induction false} FilteredRows(child: Plan, preds: seq<Condition>, tbl: Table, db: string -> Data, snap: Snapshot)
    requires BaseTable(child) == Some(tbl)
    requires Distinct(Exec(child, db, snap)) && forall row: Row :: row in Exec(child, db, snap) ==> |row| == |tbl.columns|
    ensures var rows := Exec(Filtered(child, preds), db, snap);
      && Distinct(rows)
      && forall row: Row :: row in rows <==> row in Exec(child, db, snap) && |row| == |tbl.columns| && AcceptsAll(tbl, row, preds)
  {
    KeepExact(Exec(child, db, snap), Some(tbl), preds);
  }

  lemma {:induction false} ScanGroup(tbl: Table, db: string -> Data, snap: Snapshot, conds: seq<Condition>)
    requires tbl.WellFormed() && Stored(tbl, db(Lower(tbl.name)).cells)
    ensures var rows := Exec(PlanGroup(tbl, conds, None), db, snap);
      && Distinct(rows)
      && forall row: Row :: row in rows <==>
          Shown(db(Lower(tbl.name)).cells, snap, row) && |row| == |tbl.columns| && AcceptsAll(tbl, row, conds) && !Lost(tbl, row, conds, None)
  {
    hide Classify, Shown, Stored, Distinct, Misread, AcceptsAll, ScanRows, Keep;
    var cells, b := db(Lower(tbl.name)).cells, Classify(tbl, conds);
    ScanExact(tbl, cells, b.min, b.max, snap);
    FilteredRows(IndexScan(tbl, b.min, b.max), b.post, tbl, db, snap);
    forall row: Row | Shown(cells, snap, row)
      ensures tbl.Fits(row)
      ensures b.min <= tbl.KeyOf(row) <= b.max && AcceptsAll(tbl, row, b.post) <==> AcceptsAll(tbl, row, conds) && !Misread(tbl, tbl.KeyOf(row), conds)
    {
      ShownFits(tbl, cells, snap, row);
      ClassifyMeaning(tbl, conds, row);
    }
  }

  lemma {:induction false} LookupGroup(tbl: Table, db: string -> Data, snap: Snapshot, conds: seq<Condition>, i: nat)
    requires tbl.WellFormed() && Stored(tbl, db(Lower(tbl.name)).cells) && CoversAll(tbl, db(Lower(tbl.name)), snap)
    requires Eligible(tbl, conds, i)
    ensures var rows := Exec(PlanGroup(tbl, conds, Some(i)), db, snap);
      && Distinct(rows)
      && forall row: Row :: row in rows <==>
          Shown(db(Lower(tbl.name)).cells, snap, row) && |row| == |tbl.columns| && AcceptsAll(tbl, row, conds)
  {
    hide Shown, Stored, Distinct, AcceptsAll, LookupRows, Keep;
    var data, d := db(Lower(tbl.name)), tbl.IndexForColumn(conds[i].col).value;
    var (min, max) := CondToRange(conds[i].op, conds[i].val.n);
    LookupExact(tbl, data, d, min, max, snap);
    FilteredRows(IndexLookup(tbl, d, min, max), WithoutIdx(conds, i), tbl, db, snap);
    SameColumn(tbl, d.column, conds[i].col);
    forall row: Row | Shown(data.cells, snap, row)
      ensures tbl.Fits(row)
      ensures min <= row[tbl.ColIndex(d.column).value].n <= max && AcceptsAll(tbl, row, WithoutIdx(conds, i)) <==> AcceptsAll(tbl, row, conds)
    {
      ShownFits(tbl, data.cells, snap, row);
      RemainingPreds(tbl, row, conds, i);
    }
  }

  lemma {:induction false} SameColumn(tbl: Table, a: string, b: string)
    requires SameName(a, b)
    ensures tbl.ColIndex(a) == tbl.ColIndex(b)
  {
  }

  /** Rows of the union: equal keys mean equal rows, so dropping repeated keys drops repeated rows only. */
  lemma {:induction false} DedupExact(rows: seq<Row>, pk: nat)
    requires forall a, b :: a in rows && b in rows && DedupKey(a, pk) == DedupKey(b, pk) ==> a == b
    ensures Distinct(Dedup(rows, pk))
    ensures forall row: Row :: row in Dedup(rows, pk) <==> row in rows
  {
    if rows != [] {
      var init, r := rows[..|rows| - 1], rows[|rows| - 1];
      forall row: Row ensures row in rows <==> row in init || row == r {
        InitMember(rows, row);
      }
      DedupExact(init, pk);
      SeenExact(init, pk, DedupKey(r, pk));
      if DedupKey(r, pk) in KeysSeen(init, pk) {
        assert r in init;
      } else {
        DistinctSnoc(Dedup(init, pk), r);
      }
    }
  }

  lemma {:induction false} SeenExact(rows: seq<Row>, pk: nat, key: Word)
    ensures key in KeysSeen(rows, pk) <==> exists i :: 0 <= i < |rows| && DedupKey(rows[i], pk) == key
  {
    if rows != [] {
      var init := rows[..|rows| - 1];
      SeenExact(init, pk, key);
      assert forall i :: 0 <= i < |init| ==> init[i] == rows[i];
    }
  }

  /** Visible rows with the same key are the same row. */
  lemma {:induction false} KeyDetermines(tbl: Table, cells: seq<Cell>, snap: Snapshot, a: Row, b: Row)
    requires tbl.PrimaryKey().Some? && Stored(tbl, cells) && Shown(cells, snap, a) && Shown(cells, snap, b)
    ensures DedupKey(a, tbl.PrimaryKey().value) == DedupKey(b, tbl.PrimaryKey().value) ==> a == b
  {
    var i :| 0 <= i < |cells| && cells[i].row == a;
    var j :| 0 <= j < |cells| && cells[j].row == b;
    assert cells[i].key == DedupKey(a, tbl.PrimaryKey().value) && cells[j].key == DedupKey(b, tbl.PrimaryKey().value);
  }

  /** The accepted rows of the first `n` groups, some of them lost to misread conditions. */
  ghost predicate Wanted(tbl: Table, row: Row, groups: seq<seq<Condition>>, choices: seq<Option<nat>>, n: nat)
    requires tbl.PrimaryKey().Some? && n <= |groups| == |choices|
  {
    |row| == |tbl.columns| && exists g :: 0 <= g < n && AcceptsAll(tbl, row, groups[g]) && !Lost(tbl, row, groups[g], choices[g])
  }

  lemma {:induction false} BranchRows(tbl: Table, db: string -> Data, snap: Snapshot, groups: seq<seq<Condition>>,
                                      choices: seq<Option<nat>>, n: nat)
    requires tbl.WellFormed() && Stored(tbl, db(Lower(tbl.name)).cells) && CoversAll(tbl, db(Lower(tbl.name)), snap)
    requires ChoicesFit(tbl, Some(groups), choices) && n <= |groups|
    ensures var rows := ExecAll(Branches(tbl, groups, choices)[..n], db, snap);
      forall row: Row :: row in rows <==> Shown(db(Lower(tbl.name)).cells, snap, row) && Wanted(tbl, row, groups, choices, n)
  {
    hide Shown, Stored, AcceptsAll, Lost, Exec, ExecAll, PlanGroup, Wanted, CoversAll, Eligible;
    var cells, branches := db(Lower(tbl.name)).cells, Branches(tbl, groups, choices);
    ExecAllSnoc(branches, n, db, snap);
    if n > 0 {
      BranchRows(tbl, db, snap, groups, choices, n - 1);
      GroupRows(tbl, db, snap, groups[n - 1], choices[n - 1]);
    }
    forall row: Row ensures row in ExecAll(branches[..n], db, snap) <==> Shown(cells, snap, row) && Wanted(tbl, row, groups, choices, n) {
      WantedSnoc(tbl, row, groups, choices, n);
    }
  }

  lemma {:induction false} ExecAllSnoc(ps: seq<Plan>, n: nat, db: string -> Data, snap: Snapshot)
    requires n <= |ps|
    ensures ExecAll(ps[..n], db, snap) == if n == 0 then [] else ExecAll(ps[..n - 1], db, snap) + Exec(ps[n - 1], db, snap)
  {
    hide Exec;
    if n > 0 {
      TakeOne(ps, n - 1);
    }
  }

  lemma {:induction false} WantedSnoc(tbl: Table, row: Row, groups: seq<seq<Condition>>, choices: seq<Option<nat>>, n: nat)
    requires tbl.PrimaryKey().Some? && n <= |groups| == |choices|
    ensures n == 0 ==> !Wanted(tbl, row, groups, choices, n)
    ensures n > 0 ==> (Wanted(tbl, row, groups, choices, n) <==>
      Wanted(tbl, row, groups, choices, n - 1) ||
      (|row| == |tbl.columns| && AcceptsAll(tbl, row, groups[n - 1]) && !Lost(tbl, row, groups[n - 1], choices[n - 1])))
  {
  }

  /** Some group accepts the row and its plan does not lose it. */
  ghost predicate Yields(tbl: Table, row: Row, where: Option<seq<seq<Condition>>>, choices: seq<Option<nat>>)
    requires tbl.PrimaryKey().Some? && ChoicesFit(tbl, where, choices)
  {
    |row| == |tbl.columns| && (where.Some? ==> Wanted(tbl, row, where.value, choices, |choices|))
  }

  ghost predicate YieldsExactly(tbl: Table, cells: seq<Cell>, snap: Snapshot, rows: seq<Row>,
                                where: Option<seq<seq<Condition>>>, choices: seq<Option<nat>>)
    requires tbl.PrimaryKey().Some? && ChoicesFit(tbl, where, choices)
  {
    && Distinct(rows)
    && forall row: Row :: row in rows <==> Shown(cells, snap, row) && Yields(tbl, row, where, choices)
  }

  lemma {:induction false} FullScan(tbl: Table, db: string -> Data, snap: Snapshot, choices: seq<Option<nat>>)
    requires tbl.WellFormed() && Stored(tbl, db(Lower(tbl.name)).cells)
    ensures YieldsExactly(tbl, db(Lower(tbl.name)).cells, snap, Exec(IndexScan(tbl, 0, MAX_WORD), db, snap), None, choices)
  {
    ScanExact(tbl, db(Lower(tbl.name)).cells, 0, MAX_WORD, snap);
  }

  lemma {:induction false} OneBranch(tbl: Table, db: string -> Data, snap: Snapshot, where: Option<seq<seq<Condition>>>, choices: seq<Option<nat>>)
    requires tbl.WellFormed() && Stored(tbl, db(Lower(tbl.name)).cells) && CoversAll(tbl, db(Lower(tbl.name)), snap)
    requires ChoicesFit(tbl, where, choices) && where.Some? && |where.value| == 1
    ensures YieldsExactly(tbl, db(Lower(tbl.name)).cells, snap, Exec(PlanGroup(tbl, where.value[0], choices[0]), db, snap), where, choices)
  {
    hide Stored, CoversAll, AcceptsAll, Lost, PlanGroup, Shown, Exec, Wanted;
    GroupRows(tbl, db, snap, where.value[0], choices[0]);
    forall row: Row ensures Yields(tbl, row, where, choices) <==>
        |row| == |tbl.columns| && AcceptsAll(tbl, row, where.value[0]) && !Lost(tbl, row, where.value[0], choices[0]) {
      WantedSnoc(tbl, row, where.value, choices, 0);
      WantedSnoc(tbl, row, where.value, choices, 1);
    }
  }

  lemma {:induction false} ManyBranches(tbl: Table, db: string -> Data, snap: Snapshot, where: Option<seq<seq<Condition>>>, choices: seq<Option<nat>>)
    requires tbl.WellFormed() && Stored(tbl, db(Lower(tbl.name)).cells) && CoversAll(tbl, db(Lower(tbl.name)), snap)
    requires ChoicesFit(tbl, where, choices) && where.Some?
    ensures YieldsExactly(tbl, db(Lower(tbl.name)).cells, snap,
      Exec(Union(Branches(tbl, where.value, choices), tbl.PrimaryKey().value), db, snap), where, choices)
  {
    hide Stored, CoversAll, AcceptsAll, Lost, Exec, PlanGroup, Shown, Dedup, ExecAll, Wanted;
    var cells, pk := db(Lower(tbl.name)).cells, tbl.PrimaryKey().value;
    var branches := Branches(tbl, where.value, choices);
    BranchRows(tbl, db, snap, where.value, choices, |branches|);
    assert branches[..|branches|] == branches;
    var rows := ExecAll(branches, db, snap);
    forall a, b | a in rows && b in rows && DedupKey(a, pk) == DedupKey(b, pk) ensures a == b {
      KeyDetermines(tbl, cells, snap, a, b);
    }
    DedupExact(rows, pk);
    forall row: Row ensures Wanted(tbl, row, where.value, choices, |branches|) <==> Yields(tbl, row, where, choices) {
      if Wanted(tbl, row, where.value, choices, |branches|) {
        WantedWidth(tbl, row, where.value, choices, |branches|);
      }
    }
    ExecUnion(branches, pk, db, snap);
  }

  lemma {:induction false} WantedWidth(tbl: Table, row: Row, groups: seq<seq<Condition>>, choices: seq<Option<nat>>, n: nat)
    requires tbl.PrimaryKey().Some? && n <= |groups| == |choices| && Wanted(tbl, row, groups, choices, n)
    ensures |row| == |tbl.columns|
  {
  }

  lemma {:induction false} ExecUnion(ps: seq<Plan>, pk: nat, db: string -> Data, snap: Snapshot)
    ensures Exec(Union(ps, pk), db, snap) == Dedup(ExecAll(ps, db, snap), pk)
  {
    hide PickAll, Take, ScanRows, LookupRows, Keep, Dedup, ExecAll, JoinRows, ColMap;
  }

  /** For every WHERE clause, every choice of access paths and every snapshot the indexes cover, the
      plan yields each visible row once that some group accepts without losing it. */
  lemma {:induction false} PlanYields(tbl: Table, db: string -> Data, snap: Snapshot, where: Option<seq<seq<Condition>>>, choices: seq<Option<nat>>)
    requires tbl.WellFormed() && Stored(tbl, db(Lower(tbl.name)).cells) && CoversAll(tbl, db(Lower(tbl.name)), snap)
    requires ChoicesFit(tbl, where, choices)
    ensures PlanRows(tbl, where, choices).Ok?
    ensures YieldsExactly(tbl, db(Lower(tbl.name)).cells, snap, Exec(PlanRows(tbl, where, choices).value, db, snap), where, choices)
  {
    hide Stored, CoversAll, AcceptsAll, PlanGroup, Shown, YieldsExactly, Exec;
    if where.None? {
      FullScan(tbl, db, snap, choices);
    } else if |where.value| == 1 {
      OneBranch(tbl, db, snap, where, choices);
    } else {
      ManyBranches(tbl, db, snap, where, choices);
    }
  }

  /** The plan means what the clause says exactly when no visible row is accepted only by groups
      that lose it. */
  lemma {:induction false} PlanRightIff(tbl: Table, db: string -> Data, snap: Snapshot, where: Option<seq<seq<Condition>>>, choices: seq<Option<nat>>)
    requires tbl.WellFormed() && Stored(tbl, db(Lower(tbl.name)).cells) && CoversAll(tbl, db(Lower(tbl.name)), snap)
    requires ChoicesFit(tbl, where, choices)
    ensures PlanRows(tbl, where, choices).Ok?
    ensures Answers(tbl, db(Lower(tbl.name)).cells, snap, Exec(PlanRows(tbl, where, choices).value, db, snap), where) <==>
      forall row: Row :: Shown(db(Lower(tbl.name)).cells, snap, row) && |row| == |tbl.columns| && Matches(tbl, row, where) ==>
        Yields(tbl, row, where, choices)
  {
    hide Stored, CoversAll, Exec, PlanRows, Shown, Matches, Yields;
    PlanYields(tbl, db, snap, where, choices);
    forall row: Row | Yields(tbl, row, where, choices) ensures |row| == |tbl.columns| && Matches(tbl, row, where) {
      YieldsMatches(tbl, row, where, choices);
    }
  }

  lemma {:induction false} YieldsMatches(tbl: Table, row: Row, where: Option<seq<seq<Condition>>>, choices: seq<Option<nat>>)
    requires tbl.PrimaryKey().Some? && ChoicesFit(tbl, where, choices) && Yields(tbl, row, where, choices)
    ensures |row| == |tbl.columns| && Matches(tbl, row, where)
  {
  }

  /** No group has a column-to-column condition on the primary key. */
  ghost predicate NoKeyJoin(tbl: Table, where: Option<seq<seq<Condition>>>)
    requires tbl.PrimaryKey().Some?
  {
    where.Some? ==> forall g, i :: 0 <= g < |where.value| && 0 <= i < |where.value[g]| ==> !ReadsAsZero(tbl, where.value[g][i])
  }

  lemma {:induction false} NothingLost(tbl: Table, where: Option<seq<seq<Condition>>>, choices: seq<Option<nat>>, row: Row)
    requires tbl.PrimaryKey().Some? && ChoicesFit(tbl, where, choices) && NoKeyJoin(tbl, where)
    requires |row| == |tbl.columns| && Matches(tbl, row, where)
    ensures Yields(tbl, row, where, choices)
  {
    if where.Some? {
      var g :| 0 <= g < |where.value| && AcceptsAll(tbl, row, where.value[g]);
      assert !Lost(tbl, row, where.value[g], choices[g]);
    }
  }

  /** Without such conditions the plan yields exactly the visible rows the clause accepts, each once. */
  lemma {:induction false} PlanPreservesMeaning(tbl: Table, db: string -> Data, snap: Snapshot, where: Option<seq<seq<Condition>>>, choices: seq<Option<nat>>)
    requires tbl.WellFormed() && Stored(tbl, db(Lower(tbl.name)).cells) && CoversAll(tbl, db(Lower(tbl.name)), snap)
    requires ChoicesFit(tbl, where, choices) && NoKeyJoin(tbl, where)
    ensures PlanRows(tbl, where, choices).Ok?
    ensures Answers(tbl, db(Lower(tbl.name)).cells, snap, Exec(PlanRows(tbl, where, choices).value, db, snap), where)
  {
    hide Stored, CoversAll, Exec, PlanRows, Shown, Matches, Yields, NoKeyJoin, Answers, ChoicesFit;
    PlanRightIff(tbl, db, snap, where, choices);
    forall row: Row | |row| == |tbl.columns| && Matches(tbl, row, where) ensures Yields(tbl, row, where, choices) {
      NothingLost(tbl, where, choices, row);
    }
  }

  // ---------------------------------------------------------------- SELECT and DELETE choose the same rows

  lemma {:induction false} SelectedAnswers(tbl: Table, cells: seq<Cell>, snap: Snapshot, where: Option<seq<seq<Condition>>>)
    requires tbl.PrimaryKey().Some? && Stored(tbl, cells)
    ensures Answers(tbl, cells, snap, Selected(cells, tbl, snap, where), where)
  {
    if cells != [] {
      var init, c := cells[..|cells| - 1], cells[|cells| - 1];
      SelectedAnswers(tbl, init, snap, where);
      assert forall i :: 0 <= i < |init| ==> init[i] == cells[i] && init[i].row != c.row;
      DistinctSnoc(Selected(init, tbl, snap, where), c.row);
      forall row: Row ensures row in Selected(cells, tbl, snap, where) <==>
          Shown(cells, snap, row) && |row| == |tbl.columns| && Matches(tbl, row, where) {
        ShownInit(cells, snap, row);
      }
    }
  }

  lemma {:induction false} SameMultiset(a: seq<Row>, b: seq<Row>)
    requires Distinct(a) && Distinct(b) && forall row: Row :: row in a <==> row in b
    ensures multiset(a) == multiset(b)
  {
    forall row: Row ensures multiset(a)[row] == multiset(b)[row] {
      CountOnce(a, row);
      CountOnce(b, row);
    }
  }

  lemma {:induction false} CountOnce(a: seq<Row>, row: Row)
    requires Distinct(a)
    ensures multiset(a)[row] == if row in a then 1 else 0
  {
    if a != [] {
      assert a == a[..|a| - 1] + [a[|a| - 1]];
      CountOnce(a[..|a| - 1], row);
    }
  }

  /** A SELECT without LIMIT returns, up to order, exactly the rows that DELETE and UPDATE with the
      same WHERE clause act on. */
  lemma {:induction false} SelectIsScanVisible(tbl: Table, db: string -> Data, snap: Snapshot, where: Option<seq<seq<Condition>>>, choices: seq<Option<nat>>)
    requires tbl.WellFormed() && Stored(tbl, db(Lower(tbl.name)).cells) && CoversAll(tbl, db(Lower(tbl.name)), snap)
    requires ChoicesFit(tbl, where, choices) && NoKeyJoin(tbl, where)
    ensures PlanRows(tbl, where, choices).Ok?
    ensures multiset(Exec(PlanRows(tbl, where, choices).value, db, snap)) == multiset(Selected(db(Lower(tbl.name)).cells, tbl, snap, where))
  {
    hide Exec, Selected, Shown, Matches, PlanRows;
    PlanPreservesMeaning(tbl, db, snap, where, choices);
    SelectedAnswers(tbl, db(Lower(tbl.name)).cells, snap, where);
    SameMultiset(Exec(PlanRows(tbl, where, choices).value, db, snap), Selected(db(Lower(tbl.name)).cells, tbl, snap, where));
  }

  /** LIMIT n keeps n of the rows, or all when there are fewer. */
  lemma {:induction false} TakeSome(rows: seq<Row>, n: nat)
    ensures multiset(Take(rows, n)) <= multiset(rows) && |Take(rows, n)| == if |rows| < n then |rows| else n
  {
    if |rows| > n {
      assert rows == rows[..n] + rows[n..];
    }
  }

  // ---------------------------------------------------------------- whole SELECT statements

  lemma {:induction false} PickSnoc(rows: seq<Row>, idxs: seq<nat>)
    requires rows != []
    ensures PickAll(rows, idxs) == PickAll(rows[..|rows| - 1], idxs) + [Pick(rows[|rows| - 1], idxs)]
  {
  }

  lemma {:induction false} PickWithout(rows: seq<Row>, idxs: seq<nat>, j: nat)
    requires j < |rows|
    ensures multiset(PickAll(rows, idxs)) == multiset(PickAll(rows[..j] + rows[j + 1..], idxs)) + multiset{Pick(rows[j], idxs)}
  {
    var a, b := PickAll(rows[..j], idxs), PickAll(rows[j + 1..], idxs);
    assert PickAll(rows, idxs) == a + [Pick(rows[j], idxs)] + b;
    assert PickAll(rows[..j] + rows[j + 1..], idxs) == a + b;
  }

  lemma {:induction false} TakenOut(rows: seq<Row>, j: nat)
    requires j < |rows|
    ensures multiset(rows) == multiset(rows[..j] + rows[j + 1..]) + multiset{rows[j]}
  {
    assert rows == rows[..j] + [rows[j]] + rows[j + 1..];
  }

  /** Projection respects containment of rows with their multiplicity. */
  lemma {:induction false} PickSome(a: seq<Row>, b: seq<Row>, idxs: seq<nat>)
    requires multiset(a) <= multiset(b)
    ensures multiset(PickAll(a, idxs)) <= multiset(PickAll(b, idxs))
  {
    hide Pick, PickAll;
    if a == [] {
      NothingPicked(idxs);
    } else {
      var init, x := a[..|a| - 1], a[|a| - 1];
      assert x in multiset(a);
      var j :| 0 <= j < |b| && b[j] == x;
      var rest := b[..j] + b[j + 1..];
      TakenOut(b, j);
      TakenOut(a, |a| - 1);
      assert a[..|a| - 1] + a[|a| - 1 + 1..] == init;
      forall r: Row ensures multiset(init)[r] <= multiset(rest)[r] {
        assert multiset(a)[r] <= multiset(b)[r];
      }
      PickSome(init, rest, idxs);
      PickSnoc(a, idxs);
      PickWithout(b, idxs, j);
    }
  }

  lemma {:induction false} NothingPicked(idxs: seq<nat>)
    ensures PickAll([], idxs) == []
  {
  }

  /** Row by row, `out` shows the chosen columns of `all`. */
  ghost predicate ShowsAll(tbl: Table, cols: seq<string>, all: seq<Row>, out: seq<Row>) {
    |out| == |all| && forall i :: 0 <= i < |all| ==> |all[i]| == |tbl.columns| && Shows(tbl, cols, all[i], out[i])
  }

  lemma {:induction false} SelectedWide(cells: seq<Cell>, tbl: Table, snap: Snapshot, where: Option<seq<seq<Condition>>>)
    ensures forall i :: 0 <= i < |Selected(cells, tbl, snap, where)| ==> |Selected(cells, tbl, snap, where)[i]| == |tbl.columns|
  {
    hide Matches;
    if cells != [] {
      SelectedWide(cells[..|cells| - 1], tbl, snap, where);
    }
  }

  lemma {:induction false} ProjectedAll(tbl: Table, cols: seq<string>, all: seq<Row>)
    requires tbl.WellFormed() && ResolveColumns(tbl, cols).Ok? && forall i :: 0 <= i < |all| ==> |all[i]| == |tbl.columns|
    ensures ShowsAll(tbl, cols, all, PickAll(all, ResolveColumns(tbl, cols).value))
  {
    hide Shows, Pick;
    forall i | 0 <= i < |all| ensures Shows(tbl, cols, all[i], PickAll(all, ResolveColumns(tbl, cols).value)[i]) {
      Projected(tbl, cols, all[i]);
    }
  }

  /** A SELECT over one table: without LIMIT it returns, up to order, the chosen columns of exactly
      the rows DELETE and UPDATE would act on; with LIMIT n, of n of them or of all. */
  lemma {:induction false} SelectStatement(tbl: Table, db: string -> Data, snap: Snapshot, cols: seq<string>, where: Option<seq<seq<Condition>>>,
                                           limit: nat, choices: seq<Option<nat>>)
    requires tbl.WellFormed() && Stored(tbl, db(Lower(tbl.name)).cells) && CoversAll(tbl, db(Lower(tbl.name)), snap)
    requires ChoicesFit(tbl, where, choices) && NoKeyJoin(tbl, where) && ResolveColumns(tbl, cols).Ok?
    ensures PlanSingleTable(tbl, cols, where, limit, choices).Ok?
    ensures var rows := Exec(PlanSingleTable(tbl, cols, where, limit, choices).value, db, snap);
      var all := Selected(db(Lower(tbl.name)).cells, tbl, snap, where);
      var idxs := ResolveColumns(tbl, cols).value;
      && multiset(rows) <= multiset(PickAll(all, idxs))
      && |rows| == (if limit > 0 && |all| > limit then limit else |all|)
      && (limit == 0 ==> multiset(rows) == multiset(PickAll(all, idxs)))
      && ShowsAll(tbl, cols, all, PickAll(all, idxs))
  {
    hide Shows, ShowsAll, Pick, Selected, PickAll, Take, CoversAll, Stored, NoKeyJoin, PlanRows, ResolveColumns;
    SelectIsScanVisible(tbl, db, snap, where, choices);
    var root, idxs := PlanRows(tbl, where, choices).value, ResolveColumns(tbl, cols).value;
    var found, all := Exec(root, db, snap), Selected(db(Lower(tbl.name)).cells, tbl, snap, where);
    assert |found| == |multiset(found)| == |multiset(all)| == |all|;
    var kept := if limit > 0 then Take(found, limit) else found;
    TakeSome(found, limit);
    ExecSelect(root, limit, idxs, db, snap);
    PickSome(kept, all, idxs);
    PickSome(all, found, idxs);
    SelectedWide(db(Lower(tbl.name)).cells, tbl, snap, where);
    ProjectedAll(tbl, cols, all);
  }

  lemma {:induction false} ExecSelect(root: Plan, limit: nat, idxs: seq<nat>, db: string -> Data, snap: Snapshot)
    ensures Exec(Project(if limit > 0 then Limit(root, limit) else root, idxs), db, snap) ==
      PickAll(if limit > 0 then Take(Exec(root, db, snap), limit) else Exec(root, db, snap), idxs)
  {
    hide PickAll, Take, ScanRows, LookupRows, Keep, Dedup, ExecAll, JoinRows, ColMap;
    if limit > 0 {
      ExecLimit(root, limit, db, snap);
    }
  }

  lemma {:induction false} ExecLimit(root: Plan, limit: nat, db: string -> Data, snap: Snapshot)
    ensures Exec(Limit(root, limit), db, snap) == Take(Exec(root, db, snap), limit)
  {
    hide PickAll, Take, ScanRows, LookupRows, Keep, Dedup, ExecAll, JoinRows, ColMap;
  }
}
