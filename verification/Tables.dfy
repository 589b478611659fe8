/** Auto-commit INSERT, DELETE and UPDATE on one table and its secondary indexes. */
module Tables {
  import opened Seqs
  import opened Queries
  import opened Mvcc

  /** The one stored version of a row. */
  datatype Version = Version(xmin: nat, xmax: nat, row: Row)

  /** A secondary index: value to primary key. */
  type Index = map<Word, Word>

  datatype State = State(rows: map<Word, Version>, indexes: seq<Index>, committed: set<nat>, nextXid: nat)

  /** The snapshot of an auto-commit statement. */
  function Fresh(s: State): Snapshot {
    Snapshot(s.committed, XID_NONE)
  }

  /** The column an index covers. */
  function IndexColumn(tbl: Table, i: nat): nat
    requires i < |tbl.indexes| && tbl.ColIndex(tbl.indexes[i].column).Some?
  {
    tbl.ColIndex(tbl.indexes[i].column).value
  }

  // ---------------------------------------------------------------- invariants

  ghost predicate RowsFit(tbl: Table, rows: map<Word, Version>) {
    forall k :: k in rows ==> tbl.Fits(rows[k].row)
  }

  /** Every header names committed transactions only: nothing uncommitted reaches a table. */
  ghost predicate Settled(s: State) {
    && XID_NONE !in s.committed && XID_NONE < s.nextXid
    && (forall x :: x in s.committed ==> x < s.nextXid)
    && (forall k :: k in s.rows ==> s.rows[k].xmin in s.committed && (s.rows[k].xmax == XID_NONE || s.rows[k].xmax in s.committed))
  }

  predicate Live(rows: map<Word, Version>, k: Word) {
    k in rows && rows[k].xmax == XID_NONE
  }

  /** A fresh snapshot shows exactly the rows without a deleter. */
  lemma {:induction false} FreshSeesLive(s: State, k: Word)
    requires Settled(s) && k in s.rows
    ensures Fresh(s).IsVisible(s.rows[k].xmin, s.rows[k].xmax) <==> Live(s.rows, k)
  {
  }

  /** The index maps a value to a key exactly when the live row under that key has that value. */
  ghost predicate Exact(rows: map<Word, Version>, idx: Index, c: nat)
    requires forall k :: k in rows ==> c < |rows[k].row|
  {
    && (forall v :: v in idx ==> Live(rows, idx[v]) && rows[idx[v]].row[c] == Int(v))
    && (forall k :: Live(rows, k) ==> rows[k].row[c].Int? && rows[k].row[c].n in idx && idx[rows[k].row[c].n] == k)
  }

  ghost predicate AllExact(tbl: Table, s: State)
    requires tbl.WellFormed() && RowsFit(tbl, s.rows)
  {
    |s.indexes| == |tbl.indexes| && forall i :: 0 <= i < |s.indexes| ==> Exact(s.rows, s.indexes[i], IndexColumn(tbl, i))
  }

  ghost predicate Valid(tbl: Table, s: State) {
    tbl.WellFormed() && RowsFit(tbl, s.rows) && Settled(s) && |s.indexes| == |tbl.indexes|
  }

  /** No index at all is exact over two live rows with the same value. */
  lemma {:induction false} NoExactIndex(rows: map<Word, Version>, idx: Index, c: nat, a: Word, b: Word)
    requires forall k :: k in rows ==> c < |rows[k].row|
    requires a != b && Live(rows, a) && Live(rows, b) && rows[a].row[c] == rows[b].row[c]
    ensures !Exact(rows, idx, c)
  {
  }

  // ---------------------------------------------------------------- INSERT

  /** Some index already has an entry for the row's value. */
  predicate Taken(tbl: Table, indexes: seq<Index>, row: Row)
    requires |indexes| == |tbl.indexes| && tbl.Fits(row)
    requires forall d :: d in tbl.indexes ==> tbl.ColIndex(d.column).Some? && tbl.columns[tbl.ColIndex(d.column).value].typ.IntType?
  {
    exists i :: 0 <= i < |indexes| && row[IndexColumn(tbl, i)].n in indexes[i]
  }

  function InsertedRows(rows: map<Word, Version>, key: Word, row: Row, xid: nat): map<Word, Version> {
    rows[key := Version(xid, XID_NONE, row)]
  }

  lemma {:induction false} InsertExact(rows: map<Word, Version>, idx: Index, c: nat, key: Word, row: Row, xid: nat)
    requires (forall k :: k in rows ==> c < |rows[k].row|) && c < |row| && row[c].Int? && row[c].n !in idx && Exact(rows, idx, c)
    ensures Exact(InsertedRows(rows, key, row, xid), idx[row[c].n := key], c) <==> !Live(rows, key)
  {
    var rows', idx' := InsertedRows(rows, key, row, xid), idx[row[c].n := key];
    if Live(rows, key) {
      var u := rows[key].row[c].n;
      assert u in idx' && idx'[u] == key && rows'[key].row[c] != Int(u);
    } else {
      forall v | v in idx' ensures Live(rows', idx'[v]) && rows'[idx'[v]].row[c] == Int(v) {
        if v != row[c].n {
          assert idx[v] != key;
        }
      }
      forall k | Live(rows', k) ensures rows'[k].row[c].Int? && rows'[k].row[c].n in idx' && idx'[rows'[k].row[c].n] == k {
        if k != key {
          assert Live(rows, k);
        }
      }
    }
  }

  // ---------------------------------------------------------------- DELETE

  function Deleted(rows: map<Word, Version>, k: Word, xid: nat): map<Word, Version> {
    if k in rows then rows[k := rows[k].(xmax := xid)] else rows
  }

  function DeletedRows(rows: map<Word, Version>, picked: seq<Word>, xid: nat): map<Word, Version> {
    if picked == [] then rows else Deleted(DeletedRows(rows, picked[..|picked| - 1], xid), picked[|picked| - 1], xid)
  }

  /** The index without the entries of the deleted rows' values. */
  function DeletedIndex(idx: Index, rows: map<Word, Version>, picked: seq<Word>, c: nat): Index {
    if picked == [] then idx else
    var rest, k := DeletedIndex(idx, rows, picked[..|picked| - 1], c), picked[|picked| - 1];
    if k in rows && c < |rows[k].row| && rows[k].row[c].Int? then rest - {rows[k].row[c].n} else rest
  }

  lemma {:induction false} DeletedExactly(rows: map<Word, Version>, picked: seq<Word>, xid: nat)
    requires forall i :: 0 <= i < |picked| ==> picked[i] in rows
    ensures var r := DeletedRows(rows, picked, xid);
      r.Keys == rows.Keys && forall k :: k in rows ==> r[k] == if k in picked then rows[k].(xmax := xid) else rows[k]
  {
    if picked != [] {
      TakeOne(picked, |picked| - 1);
      assert picked[..|picked|] == picked;
      DeletedExactly(rows, picked[..|picked| - 1], xid);
    }
  }

  ghost predicate NoRepeats(picked: seq<Word>) {
    forall i, j :: 0 <= i < j < |picked| ==> picked[i] != picked[j]
  }

  lemma {:induction false} DeleteExact(rows: map<Word, Version>, idx: Index, c: nat, picked: seq<Word>, xid: nat)
    requires (forall k :: k in rows ==> c < |rows[k].row|) && Exact(rows, idx, c) && xid != XID_NONE
    requires NoRepeats(picked) && forall i :: 0 <= i < |picked| ==> Live(rows, picked[i])
    ensures DeletedRows(rows, picked, xid).Keys == rows.Keys
    ensures forall k :: k in rows ==> DeletedRows(rows, picked, xid)[k].row == rows[k].row
    ensures Exact(DeletedRows(rows, picked, xid), DeletedIndex(idx, rows, picked, c), c)
  {
    DeletedExactly(rows, picked, xid);
    if picked != [] {
      var init, k := picked[..|picked| - 1], picked[|picked| - 1];
      DeleteExact(rows, idx, c, init, xid);
      DeletedExactly(rows, init, xid);
      assert k !in init;
      hide Exact;
      DropOneExact(DeletedRows(rows, init, xid), DeletedIndex(idx, rows, init, c), c, k, xid);
    }
  }

  /** Deleting one live row. */
  lemma {:induction false} DropOneExact(rows: map<Word, Version>, idx: Index, c: nat, k: Word, xid: nat)
    requires (forall j :: j in rows ==> c < |rows[j].row|) && Exact(rows, idx, c) && xid != XID_NONE && Live(rows, k)
    ensures rows[k].row[c].Int? && Exact(Deleted(rows, k, xid), idx - {rows[k].row[c].n}, c)
  {
  }

  // ---------------------------------------------------------------- UPDATE

  /** A resolved SET clause: column position and new value. */
  datatype UpdatePlan = UpdatePlan(col: nat, val: Datum)

  /** What the source accepts: known columns other than the key, values of the column's type. */
  predicate PlansFit(tbl: Table, plans: seq<UpdatePlan>) {
    forall i :: 0 <= i < |plans| ==>
      plans[i].col < |tbl.columns| && tbl.PrimaryKey() != Some(plans[i].col) && ColTypeOf(plans[i].val) == tbl.columns[plans[i].col].typ
  }

  predicate Refused(tbl: Table, a: (string, Datum)) {
    var c := tbl.ColIndex(a.0);
    c.None? || c == tbl.PrimaryKey() || ColTypeOf(a.1) != tbl.columns[c.value].typ
  }

  method BuildUpdatePlans(tbl: Table, assignments: seq<(string, Datum)>) returns (r: Result<seq<UpdatePlan>>)
    ensures r.Ok? ==> PlansFit(tbl, r.value) && |r.value| == |assignments|
    ensures r.Ok? ==> forall i :: 0 <= i < |assignments| ==>
      tbl.ColIndex(assignments[i].0) == Some(r.value[i].col) && r.value[i].val == assignments[i].1
    ensures r.Err? ==> exists i :: 0 <= i < |assignments| && Refused(tbl, assignments[i])
  {
    var plans: seq<UpdatePlan> := [];
    for i := 0 to |assignments|
      invariant PlansFit(tbl, plans) && |plans| == i
      invariant forall j :: 0 <= j < i ==> tbl.ColIndex(assignments[j].0) == Some(plans[j].col) && plans[j].val == assignments[j].1
    {
      var c := tbl.ColIndex(assignments[i].0);
      if c.None? || c == tbl.PrimaryKey() || ColTypeOf(assignments[i].1) != tbl.columns[c.value].typ {
        assert Refused(tbl, assignments[i]);
        return Err;
      }
      plans := plans + [UpdatePlan(c.value, assignments[i].1)];
    }
    return Ok(plans);
  }

  function NewVals(row: Row, plans: seq<UpdatePlan>): (r: Row)
    requires forall i :: 0 <= i < |plans| ==> plans[i].col < |row|
    ensures |r| == |row|
  {
    if plans == [] then row else NewVals(row, plans[..|plans| - 1])[plans[|plans| - 1].col := plans[|plans| - 1].val]
  }

  /** The value a statement sets a column to, if it does: its last SET clause for it. */
  function Assigned(plans: seq<UpdatePlan>, c: nat): Option<Datum> {
    if plans == [] then None
    else if plans[|plans| - 1].col == c then Some(plans[|plans| - 1].val)
    else Assigned(plans[..|plans| - 1], c)
  }

  lemma {:induction false} NewValsAt(row: Row, plans: seq<UpdatePlan>, c: nat)
    requires (forall i :: 0 <= i < |plans| ==> plans[i].col < |row|) && c < |row|
    ensures NewVals(row, plans)[c] == if Assigned(plans, c).Some? then Assigned(plans, c).value else row[c]
  {
    if plans != [] {
      NewValsAt(row, plans[..|plans| - 1], c);
    }
  }

  lemma {:induction false} NewValsFit(tbl: Table, row: Row, plans: seq<UpdatePlan>)
    requires tbl.Fits(row) && PlansFit(tbl, plans)
    ensures tbl.Fits(NewVals(row, plans))
    ensures tbl.PrimaryKey().Some? ==> NewVals(row, plans)[tbl.PrimaryKey().value] == row[tbl.PrimaryKey().value]
  {
    if plans != [] {
      NewValsFit(tbl, row, plans[..|plans| - 1]);
    }
  }

  /** All rows after the update: the picked ones rewritten, from the values the scan saw. */
  function UpdatedRows(rows: map<Word, Version>, picked: seq<Word>, plans: seq<UpdatePlan>, xid: nat): map<Word, Version>
    requires forall k, i :: k in rows && 0 <= i < |plans| ==> plans[i].col < |rows[k].row|
  {
    map k | k in rows :: if k in picked then Version(xid, XID_NONE, NewVals(rows[k].row, plans)) else rows[k]
  }

  /** One row's change in an index: nothing if the value stays, else the old entry goes and the new
      value points to this row, whatever it pointed to before. */
  function MoveEntry(idx: Index, from: Word, to: Word, k: Word): Index {
    if from == to then idx else (idx - {from})[to := k]
  }

  function UpdatedIndex(idx: Index, rows: map<Word, Version>, picked: seq<Word>, plans: seq<UpdatePlan>, c: nat): Index
    requires forall k, i :: k in rows && 0 <= i < |plans| ==> plans[i].col < |rows[k].row|
  {
    if picked == [] then idx else
    var rest, k := UpdatedIndex(idx, rows, picked[..|picked| - 1], plans, c), picked[|picked| - 1];
    if k in rows && c < |rows[k].row| && rows[k].row[c].Int? && NewVals(rows[k].row, plans)[c].Int?
    then MoveEntry(rest, rows[k].row[c].n, NewVals(rows[k].row, plans)[c].n, k) else rest
  }

  /** At most one live row ends up with the value assigned to an indexed column. */
  ghost predicate EndsUnique(rows: map<Word, Version>, picked: seq<Word>, v: Option<Datum>, c: nat)
    requires forall k :: k in rows ==> c < |rows[k].row|
  {
    v.Some? ==> |picked| == 0 || (|picked| == 1 && forall k :: Live(rows, k) && k != picked[0] ==> rows[k].row[c] != v.value)
  }

  lemma {:induction false} UnchangedIndex(idx: Index, rows: map<Word, Version>, picked: seq<Word>, plans: seq<UpdatePlan>, c: nat)
    requires forall k, i :: k in rows && 0 <= i < |plans| ==> plans[i].col < |rows[k].row|
    requires Assigned(plans, c).None?
    ensures UpdatedIndex(idx, rows, picked, plans, c) == idx
  {
    if picked != [] {
      UnchangedIndex(idx, rows, picked[..|picked| - 1], plans, c);
      var k := picked[|picked| - 1];
      if k in rows && c < |rows[k].row| {
        NewValsAt(rows[k].row, plans, c);
      }
    }
  }

  ghost predicate UpdatesColumn(rows: map<Word, Version>, plans: seq<UpdatePlan>, c: nat) {
    && (forall k :: k in rows ==> c < |rows[k].row|)
    && (forall k, i :: k in rows && 0 <= i < |plans| ==> plans[i].col < |rows[k].row|)
    && (Assigned(plans, c).Some? ==> Assigned(plans, c).value.Int?)
  }

  lemma {:induction false} UpdatedWidth(rows: map<Word, Version>, picked: seq<Word>, plans: seq<UpdatePlan>, xid: nat, c: nat)
    requires UpdatesColumn(rows, plans, c)
    ensures forall k :: k in UpdatedRows(rows, picked, plans, xid) ==> c < |UpdatedRows(rows, picked, plans, xid)[k].row|
    ensures forall k :: k in rows ==> (Live(UpdatedRows(rows, picked, plans, xid), k) <==> k in picked || Live(rows, k))
    ensures forall k :: k in rows ==>
      UpdatedRows(rows, picked, plans, xid)[k].row[c] ==
        if k in picked && Assigned(plans, c).Some? then Assigned(plans, c).value else rows[k].row[c]
  {
    forall k | k in rows ensures NewVals(rows[k].row, plans)[c] == if Assigned(plans, c).Some? then Assigned(plans, c).value else rows[k].row[c] {
      NewValsAt(rows[k].row, plans, c);
    }
  }

  /** An index stays exact under UPDATE exactly when at most one live row ends with the new value. */
  lemma {:induction false} UpdateExactIff(rows: map<Word, Version>, idx: Index, c: nat, picked: seq<Word>, plans: seq<UpdatePlan>, xid: nat)
    requires UpdatesColumn(rows, plans, c) && Exact(rows, idx, c) && NoRepeats(picked)
    requires forall i :: 0 <= i < |picked| ==> Live(rows, picked[i])
    ensures forall k :: k in UpdatedRows(rows, picked, plans, xid) ==> c < |UpdatedRows(rows, picked, plans, xid)[k].row|
    ensures Exact(UpdatedRows(rows, picked, plans, xid), UpdatedIndex(idx, rows, picked, plans, c), c) <==>
      EndsUnique(rows, picked, Assigned(plans, c), c)
  {
    UpdatedWidth(rows, picked, plans, xid, c);
    var rows', idx' := UpdatedRows(rows, picked, plans, xid), UpdatedIndex(idx, rows, picked, plans, c);
    if Assigned(plans, c).None? {
      UnchangedIndex(idx, rows, picked, plans, c);
      SameExact(rows, rows', idx, c);
    } else if |picked| == 0 {
      SameExact(rows, rows', idx, c);
    } else if |picked| == 1 {
      assert picked[..0] == [];
      NewValsAt(rows[picked[0]].row, plans, c);
      MoveExactIff(rows, rows', idx, c, picked[0], Assigned(plans, c).value.n);
    } else {
      assert picked[0] in picked && picked[1] in picked;
      NoExactIndex(rows', idx', c, picked[0], picked[1]);
    }
  }

  lemma {:induction false} SameExact(rows: map<Word, Version>, rows': map<Word, Version>, idx: Index, c: nat)
    requires rows.Keys == rows'.Keys && forall k :: k in rows ==> c < |rows[k].row| && c < |rows'[k].row|
    requires forall k :: k in rows ==> rows[k].row[c] == rows'[k].row[c] && (Live(rows, k) <==> Live(rows', k))
    requires Exact(rows, idx, c)
    ensures Exact(rows', idx, c)
  {
  }

  lemma {:induction false} MoveExactIff(rows: map<Word, Version>, rows': map<Word, Version>, idx: Index, c: nat, k: Word, to: Word)
    requires rows.Keys == rows'.Keys && forall j :: j in rows ==> c < |rows[j].row| && c < |rows'[j].row|
    requires forall j :: j in rows ==> rows'[j].row[c] == (if j == k then Int(to) else rows[j].row[c]) && (Live(rows, j) <==> Live(rows', j))
    requires Exact(rows, idx, c) && Live(rows, k)
    ensures Exact(rows', MoveEntry(idx, rows[k].row[c].n, to, k), c) <==> forall j :: Live(rows, j) && j != k ==> rows[j].row[c] != Int(to)
  {
    var from := rows[k].row[c].n;
    var idx' := MoveEntry(idx, from, to, k);
    if j :| Live(rows, j) && j != k && rows[j].row[c] == Int(to) {
      NoExactIndex(rows', idx', c, j, k);
    } else {
      assert to in idx ==> idx[to] == k;
    }
  }

  // ---------------------------------------------------------------- statements

  /** An auto-commit statement; DELETE and UPDATE come with the keys their scan picked, in scan order. */
  datatype Stmt = Insert(row: Row) | Delete(where: Option<seq<seq<Condition>>>, picked: seq<Word>)
    | Update(where: Option<seq<seq<Condition>>>, picked: seq<Word>, plans: seq<UpdatePlan>)

  /** The keys of exactly the visible rows the clause accepts. */
  ghost predicate Picks(tbl: Table, s: State, where: Option<seq<seq<Condition>>>, picked: seq<Word>)
    requires RowsFit(tbl, s.rows)
  {
    && NoRepeats(picked)
    && forall k :: k in picked <==>
        k in s.rows && Fresh(s).IsVisible(s.rows[k].xmin, s.rows[k].xmax) && Matches(tbl, s.rows[k].row, where)
  }

  ghost predicate Legal(tbl: Table, s: State, stmt: Stmt)
    requires RowsFit(tbl, s.rows)
  {
    match stmt
    case Insert(row) => tbl.Fits(row)
    case Delete(where, picked) => Picks(tbl, s, where, picked)
    case Update(where, picked, plans) => Picks(tbl, s, where, picked) && PlansFit(tbl, plans)
  }

  function InsertAll(tbl: Table, indexes: seq<Index>, row: Row, key: Word, n: nat): (r: seq<Index>)
    requires tbl.WellFormed() && |indexes| == |tbl.indexes| && tbl.Fits(row) && n <= |indexes|
    ensures |r| == |indexes|
    ensures forall i :: 0 <= i < |r| ==> r[i] == if i < n then indexes[i][row[IndexColumn(tbl, i)].n := key] else indexes[i]
  {
    seq(|indexes|, i requires 0 <= i < |indexes| => if i < n then indexes[i][row[IndexColumn(tbl, i)].n := key] else indexes[i])
  }

  function DeleteAll(tbl: Table, s: State, picked: seq<Word>): (r: seq<Index>)
    requires tbl.WellFormed() && |s.indexes| == |tbl.indexes|
    ensures |r| == |s.indexes|
    ensures forall i :: 0 <= i < |r| ==> r[i] == DeletedIndex(s.indexes[i], s.rows, picked, IndexColumn(tbl, i))
  {
    seq(|s.indexes|, i requires 0 <= i < |s.indexes| => DeletedIndex(s.indexes[i], s.rows, picked, IndexColumn(tbl, i)))
  }

  ghost predicate PlansInside(rows: map<Word, Version>, plans: seq<UpdatePlan>) {
    forall k, i :: k in rows && 0 <= i < |plans| ==> plans[i].col < |rows[k].row|
  }

  function UpdateAll(tbl: Table, s: State, picked: seq<Word>, plans: seq<UpdatePlan>): (r: seq<Index>)
    requires tbl.WellFormed() && |s.indexes| == |tbl.indexes| && PlansInside(s.rows, plans)
    ensures |r| == |s.indexes|
    ensures forall i :: 0 <= i < |r| ==> r[i] == UpdatedIndex(s.indexes[i], s.rows, picked, plans, IndexColumn(tbl, i))
  {
    seq(|s.indexes|, i requires 0 <= i < |s.indexes| => UpdatedIndex(s.indexes[i], s.rows, picked, plans, IndexColumn(tbl, i)))
  }

  /** The state after the statement; a rejected INSERT only uses up its transaction id. */
  function Exec(tbl: Table, s: State, stmt: Stmt): State
    requires Valid(tbl, s) && Legal(tbl, s, stmt)
  {
    var xid := s.nextXid;
    match stmt
    case Insert(row) =>
      if Taken(tbl, s.indexes, row) then s.(nextXid := xid + 1)
      else State(InsertedRows(s.rows, tbl.KeyOf(row), row, xid), InsertAll(tbl, s.indexes, row, tbl.KeyOf(row), |s.indexes|),
                 s.committed + {xid}, xid + 1)
    case Delete(_, picked) =>
      State(DeletedRows(s.rows, picked, xid), DeleteAll(tbl, s, picked), s.committed + {xid}, xid + 1)
    case Update(_, picked, plans) =>
      assert PlansInside(s.rows, plans);
      State(UpdatedRows(s.rows, picked, plans, xid), UpdateAll(tbl, s, picked, plans), s.committed + {xid}, xid + 1)
  }

  lemma {:induction false} PickedLive(tbl: Table, s: State, where: Option<seq<seq<Condition>>>, picked: seq<Word>)
    requires Valid(tbl, s) && Picks(tbl, s, where, picked)
    ensures forall i :: 0 <= i < |picked| ==> Live(s.rows, picked[i])
  {
    forall i | 0 <= i < |picked| ensures Live(s.rows, picked[i]) {
      assert picked[i] in picked;
      FreshSeesLive(s, picked[i]);
    }
  }

  /** A rejected INSERT changes neither the table nor an index. */
  lemma {:induction false} RejectedInsert(tbl: Table, s: State, row: Row)
    requires Valid(tbl, s) && tbl.Fits(row) && Taken(tbl, s.indexes, row)
    ensures var t := Exec(tbl, s, Insert(row)); t.rows == s.rows && t.indexes == s.indexes && t.committed == s.committed
  {
  }

  lemma {:induction false} ExecValid(tbl: Table, s: State, stmt: Stmt)
    requires Valid(tbl, s) && Legal(tbl, s, stmt)
    ensures Valid(tbl, Exec(tbl, s, stmt))
  {
    match stmt
    case Insert(row) =>
    case Delete(where, picked) =>
      PickedLive(tbl, s, where, picked);
      DeletedExactly(s.rows, picked, s.nextXid);
    case Update(where, picked, plans) =>
      forall k | k in s.rows ensures tbl.Fits(NewVals(s.rows[k].row, plans)) {
        NewValsFit(tbl, s.rows[k].row, plans);
      }
  }

  /** Every row is stored under its own key. */
  ghost predicate Keyed(tbl: Table, rows: map<Word, Version>)
    requires tbl.PrimaryKey().Some? && RowsFit(tbl, rows)
  {
    forall k :: k in rows ==> tbl.KeyOf(rows[k].row) == k
  }

  lemma {:induction false} ExecKeyed(tbl: Table, s: State, stmt: Stmt)
    requires Valid(tbl, s) && Legal(tbl, s, stmt) && Keyed(tbl, s.rows)
    ensures Valid(tbl, Exec(tbl, s, stmt)) && Keyed(tbl, Exec(tbl, s, stmt).rows)
  {
    hide Taken, InsertAll, DeleteAll, UpdateAll, Settled, NewVals, DeletedRows;
    ExecValid(tbl, s, stmt);
    match stmt
    case Insert(row) =>
    case Delete(where, picked) =>
      PickedLive(tbl, s, where, picked);
      DeletedExactly(s.rows, picked, s.nextXid);
    case Update(where, picked, plans) =>
      forall k | k in s.rows ensures tbl.Fits(NewVals(s.rows[k].row, plans)) && tbl.KeyOf(NewVals(s.rows[k].row, plans)) == k {
        NewValsFit(tbl, s.rows[k].row, plans);
      }
  }

  /** When a statement keeps the indexes exact: what a caller can check beforehand. */
  ghost predicate Safe(tbl: Table, s: State, stmt: Stmt)
    requires Valid(tbl, s) && Legal(tbl, s, stmt)
  {
    match stmt
    case Insert(row) => Taken(tbl, s.indexes, row) || |s.indexes| == 0 || !Live(s.rows, tbl.KeyOf(row))
    case Delete(_, _) => true
    case Update(_, picked, plans) =>
      forall i :: 0 <= i < |s.indexes| ==> EndsUnique(s.rows, picked, Assigned(plans, IndexColumn(tbl, i)), IndexColumn(tbl, i))
  }

  lemma {:induction false} InsertSafe(tbl: Table, s: State, row: Row)
    requires Valid(tbl, s) && tbl.Fits(row) && !Taken(tbl, s.indexes, row) && AllExact(tbl, s)
    requires Valid(tbl, Exec(tbl, s, Insert(row)))
    ensures AllExact(tbl, Exec(tbl, s, Insert(row))) <==> |s.indexes| == 0 || !Live(s.rows, tbl.KeyOf(row))
  {
    hide Exact;
    var t := Exec(tbl, s, Insert(row));
    forall i | 0 <= i < |s.indexes| ensures Exact(t.rows, t.indexes[i], IndexColumn(tbl, i)) <==> !Live(s.rows, tbl.KeyOf(row)) {
      assert Exact(s.rows, s.indexes[i], IndexColumn(tbl, i));
      InsertExact(s.rows, s.indexes[i], IndexColumn(tbl, i), tbl.KeyOf(row), row, s.nextXid);
    }
    if |s.indexes| > 0 {
      assert Exact(t.rows, t.indexes[0], IndexColumn(tbl, 0)) <==> !Live(s.rows, tbl.KeyOf(row));
    }
  }

  lemma {:induction false} AssignedFits(tbl: Table, plans: seq<UpdatePlan>, c: nat)
    requires PlansFit(tbl, plans) && c < |tbl.columns| && Assigned(plans, c).Some?
    ensures ColTypeOf(Assigned(plans, c).value) == tbl.columns[c].typ
  {
    if plans[|plans| - 1].col != c {
      AssignedFits(tbl, plans[..|plans| - 1], c);
    }
  }

  lemma {:induction false} UpdateSafe(tbl: Table, s: State, where: Option<seq<seq<Condition>>>, picked: seq<Word>, plans: seq<UpdatePlan>)
    requires Valid(tbl, s) && Picks(tbl, s, where, picked) && PlansFit(tbl, plans) && AllExact(tbl, s)
    requires Valid(tbl, Exec(tbl, s, Update(where, picked, plans)))
    ensures AllExact(tbl, Exec(tbl, s, Update(where, picked, plans))) <==> Safe(tbl, s, Update(where, picked, plans))
  {
    hide Exact, EndsUnique, Assigned, UpdatedIndex;
    PickedLive(tbl, s, where, picked);
    var t := Exec(tbl, s, Update(where, picked, plans));
    forall i | 0 <= i < |s.indexes|
      ensures Exact(t.rows, t.indexes[i], IndexColumn(tbl, i)) <==>
        EndsUnique(s.rows, picked, Assigned(plans, IndexColumn(tbl, i)), IndexColumn(tbl, i))
    {
      var c := IndexColumn(tbl, i);
      assert Exact(s.rows, s.indexes[i], c);
      if Assigned(plans, c).Some? {
        AssignedFits(tbl, plans, c);
      }
      UpdateExactIff(s.rows, s.indexes[i], c, picked, plans, s.nextXid);
    }
  }

  lemma {:induction false} DeleteSafe(tbl: Table, s: State, where: Option<seq<seq<Condition>>>, picked: seq<Word>)
    requires Valid(tbl, s) && Picks(tbl, s, where, picked) && AllExact(tbl, s)
    requires Valid(tbl, Exec(tbl, s, Delete(where, picked)))
    ensures AllExact(tbl, Exec(tbl, s, Delete(where, picked)))
  {
    hide Exact, DeletedIndex;
    PickedLive(tbl, s, where, picked);
    var t := Exec(tbl, s, Delete(where, picked));
    forall i | 0 <= i < |s.indexes| ensures Exact(t.rows, t.indexes[i], IndexColumn(tbl, i)) {
      assert Exact(s.rows, s.indexes[i], IndexColumn(tbl, i));
      DeleteExact(s.rows, s.indexes[i], IndexColumn(tbl, i), picked, s.nextXid);
    }
  }

  /** A statement keeps every index exact exactly when it is safe. */
  lemma {:induction false} ExactIffSafe(tbl: Table, s: State, stmt: Stmt)
    requires Valid(tbl, s) && Legal(tbl, s, stmt) && AllExact(tbl, s)
    ensures Valid(tbl, Exec(tbl, s, stmt))
    ensures AllExact(tbl, Exec(tbl, s, stmt)) <==> Safe(tbl, s, stmt)
  {
    hide Exact;
    ExecValid(tbl, s, stmt);
    match stmt
    case Insert(row) =>
      if !Taken(tbl, s.indexes, row) {
        InsertSafe(tbl, s, row);
      }
    case Delete(where, picked) => DeleteSafe(tbl, s, where, picked);
    case Update(where, picked, plans) => UpdateSafe(tbl, s, where, picked, plans);
  }

  // ---------------------------------------------------------------- runs

  /** A run of statements with the states between them. */
  ghost predicate Run(tbl: Table, stmts: seq<Stmt>, states: seq<State>) {
    && |states| == |stmts| + 1
    && Valid(tbl, states[0])
    && forall n :: 0 <= n < |stmts| ==> Leads(tbl, states[n], stmts[n], states[n + 1])
  }

  ghost predicate Leads(tbl: Table, s: State, stmt: Stmt, t: State) {
    Valid(tbl, s) && Legal(tbl, s, stmt) && t == Exec(tbl, s, stmt)
  }

  /** Over every run of safe statements the indexes stay exact. */
  lemma {:induction false} IndexesStayExact(tbl: Table, stmts: seq<Stmt>, states: seq<State>, n: nat)
    requires Run(tbl, stmts, states) && AllExact(tbl, states[0]) && n <= |stmts|
    requires forall m :: 0 <= m < n ==> Leads(tbl, states[m], stmts[m], states[m + 1]) && Safe(tbl, states[m], stmts[m])
    ensures Valid(tbl, states[n]) && AllExact(tbl, states[n])
  {
    hide AllExact, Safe, Legal;
    if n > 0 {
      IndexesStayExact(tbl, stmts, states, n - 1);
      assert Leads(tbl, states[n - 1], stmts[n - 1], states[n - 1 + 1]);
      ExactIffSafe(tbl, states[n - 1], stmts[n - 1]);
    }
  }

  // ---------------------------------------------------------------- snapshots

  /** What a transaction that has written nothing reads under its snapshot. */
  ghost function Seen(rows: map<Word, Version>, snap: Snapshot): map<Word, Row> {
    map k | k in rows && snap.IsVisible(rows[k].xmin, rows[k].xmax) :: rows[k].row
  }

  /** The snapshot was taken before the next transaction id is handed out. */
  ghost predicate TakenBefore(snap: Snapshot, s: State) {
    snap.own < s.nextXid && snap.own != XID_NONE && forall x :: x in snap.committed ==> x < s.nextXid && x != XID_NONE
  }

  /** Inserts of keys never stored, and deletes. */
  ghost predicate Harmless(tbl: Table, s: State, stmt: Stmt)
    requires Valid(tbl, s) && Legal(tbl, s, stmt)
  {
    match stmt
    case Insert(row) => Taken(tbl, s.indexes, row) || tbl.KeyOf(row) !in s.rows
    case Delete(_, _) => true
    case Update(_, _, _) => false
  }

  /** A row the snapshot cannot see, under a key never stored, adds nothing to what it reads. */
  lemma {:induction false} NewRowUnseen(rows: map<Word, Version>, key: Word, row: Row, xid: nat, snap: Snapshot)
    requires key !in rows && xid != snap.own && xid !in snap.committed
    ensures Seen(InsertedRows(rows, key, row, xid), snap) == Seen(rows, snap)
  {
  }

  /** A deleter the snapshot does not know takes nothing from what it reads. */
  lemma {:induction false} DeleteUnseen(rows: map<Word, Version>, picked: seq<Word>, xid: nat, snap: Snapshot)
    requires xid != snap.own && xid !in snap.committed && forall i :: 0 <= i < |picked| ==> Live(rows, picked[i])
    ensures Seen(DeletedRows(rows, picked, xid), snap) == Seen(rows, snap)
  {
    hide DeletedRows;
    DeletedExactly(rows, picked, xid);
    forall k | k in rows
      ensures snap.IsVisible(DeletedRows(rows, picked, xid)[k].xmin, DeletedRows(rows, picked, xid)[k].xmax) <==>
        snap.IsVisible(rows[k].xmin, rows[k].xmax)
    {
      assert k in picked ==> Live(rows, k);
    }
  }

  lemma {:induction false} HarmlessKeeps(tbl: Table, s: State, stmt: Stmt, snap: Snapshot)
    requires Valid(tbl, s) && Legal(tbl, s, stmt) && TakenBefore(snap, s) && Harmless(tbl, s, stmt)
    ensures Seen(Exec(tbl, s, stmt).rows, snap) == Seen(s.rows, snap)
  {
    hide Taken, InsertAll, DeleteAll, UpdateAll, Picks, Seen, InsertedRows, DeletedRows, UpdatedRows, Settled;
    match stmt
    case Insert(row) =>
      if !Taken(tbl, s.indexes, row) {
        NewRowUnseen(s.rows, tbl.KeyOf(row), row, s.nextXid, snap);
      }
    case Delete(where, picked) =>
      PickedLive(tbl, s, where, picked);
      DeleteUnseen(s.rows, picked, s.nextXid, snap);
  }

  /** A transaction that has written nothing keeps reading the same rows across every run of such
      statements of others. */
  lemma {:induction false} SnapshotStable(tbl: Table, stmts: seq<Stmt>, states: seq<State>, snap: Snapshot, n: nat)
    requires Run(tbl, stmts, states) && TakenBefore(snap, states[0]) && n <= |stmts|
    requires forall m :: 0 <= m < n ==> Leads(tbl, states[m], stmts[m], states[m + 1]) && Harmless(tbl, states[m], stmts[m])
    ensures TakenBefore(snap, states[n]) && Seen(states[n].rows, snap) == Seen(states[0].rows, snap)
  {
    hide Harmless, Legal, Seen;
    if n > 0 {
      SnapshotStable(tbl, stmts, states, snap, n - 1);
      assert Leads(tbl, states[n - 1], stmts[n - 1], states[n - 1 + 1]);
      HarmlessKeeps(tbl, states[n - 1], stmts[n - 1], snap);
    }
  }

  /** Overwriting the only stored version takes a row away from an older snapshot exactly when the
      snapshot saw it. */
  lemma {:induction false} ReinsertKeepsIff(tbl: Table, s: State, row: Row, snap: Snapshot)
    requires Valid(tbl, s) && tbl.Fits(row) && TakenBefore(snap, s) && !Taken(tbl, s.indexes, row)
    ensures Seen(Exec(tbl, s, Insert(row)).rows, snap) == Seen(s.rows, snap) <==> tbl.KeyOf(row) !in Seen(s.rows, snap)
  {
    var t := Exec(tbl, s, Insert(row));
    assert tbl.KeyOf(row) !in Seen(t.rows, snap);
  }

  lemma {:induction false} UpdateKeepsIff(tbl: Table, s: State, where: Option<seq<seq<Condition>>>, picked: seq<Word>, plans: seq<UpdatePlan>, snap: Snapshot)
    requires Valid(tbl, s) && Legal(tbl, s, Update(where, picked, plans)) && TakenBefore(snap, s)
    ensures Seen(Exec(tbl, s, Update(where, picked, plans)).rows, snap) == Seen(s.rows, snap) <==>
      forall k :: k in picked ==> k !in Seen(s.rows, snap)
  {
    hide Taken, InsertAll, DeleteAll, UpdateAll, Picks, Seen, UpdatedRows, Settled;
    PickedLive(tbl, s, where, picked);
    UpdateSeenIff(s.rows, picked, plans, s.nextXid, snap);
  }

  lemma {:induction false} UpdateSeenIff(rows: map<Word, Version>, picked: seq<Word>, plans: seq<UpdatePlan>, xid: nat, snap: Snapshot)
    requires PlansInside(rows, plans) && xid != snap.own && xid !in snap.committed
    requires forall i :: 0 <= i < |picked| ==> Live(rows, picked[i])
    ensures Seen(UpdatedRows(rows, picked, plans, xid), snap) == Seen(rows, snap) <==> forall k :: k in picked ==> k !in Seen(rows, snap)
  {
    hide NewVals;
    var rows' := UpdatedRows(rows, picked, plans, xid);
    assert forall k :: k in rows && k !in picked ==> rows'[k] == rows[k];
    forall k | k in picked ensures k !in Seen(rows', snap) {
      assert k in rows;
    }
  }

  // ---------------------------------------------------------------- what the next reader gets

  /** The table as the next statement sees it: key to row. */
  ghost function View(s: State): map<Word, Row> {
    Seen(s.rows, Fresh(s))
  }

  /** Exactly the rows without a deleter. */
  lemma {:induction false} ViewIsLive(s: State)
    requires Settled(s)
    ensures forall k :: k in View(s) <==> Live(s.rows, k)
    ensures forall k :: k in View(s) ==> View(s)[k] == s.rows[k].row
  {
    forall k | k in s.rows ensures Fresh(s).IsVisible(s.rows[k].xmin, s.rows[k].xmax) <==> Live(s.rows, k) {
      FreshSeesLive(s, k);
    }
  }

  /** r is the row with every column set to the value of its last SET clause; a column without one keeps
      its value. */
  ghost predicate SetTo(row: Row, plans: seq<UpdatePlan>, r: Row) {
    && |r| == |row|
    && (forall c :: 0 <= c < |row| && (forall i :: 0 <= i < |plans| ==> plans[i].col != c) ==> r[c] == row[c])
    && (forall i :: 0 <= i < |plans| && plans[i].col < |row| && (forall j :: i < j < |plans| ==> plans[j].col != plans[i].col) ==>
          r[plans[i].col] == plans[i].val)
  }

  ghost predicate AllFit(tbl: Table, m: map<Word, Row>) {
    forall k :: k in m ==> tbl.Fits(m[k])
  }

  /** Some row of the table has the new row's value in an indexed column. */
  ghost predicate Clash(tbl: Table, m: map<Word, Row>, row: Row)
    requires tbl.WellFormed() && tbl.Fits(row) && AllFit(tbl, m)
  {
    exists k, i :: k in m && 0 <= i < |tbl.indexes| && m[k][IndexColumn(tbl, i)] == row[IndexColumn(tbl, i)]
  }

  /** What a statement does to a table that is nothing but a map from keys to rows. */
  ghost predicate Effect(tbl: Table, m: map<Word, Row>, stmt: Stmt, m': map<Word, Row>)
    requires tbl.WellFormed() && (stmt.Insert? ==> tbl.Fits(stmt.row)) && AllFit(tbl, m)
  {
    match stmt
    case Insert(row) => m' == if Clash(tbl, m, row) then m else m[tbl.KeyOf(row) := row]
    case Delete(where, _) => m' == map k | k in m && !Matches(tbl, m[k], where) :: m[k]
    case Update(where, _, plans) =>
      m'.Keys == m.Keys && forall k :: k in m ==> if Matches(tbl, m[k], where) then SetTo(m[k], plans, m'[k]) else m'[k] == m[k]
  }

  /** A row that was inserted is read back as it was given, whatever was stored under its key. */
  lemma {:induction false} InsertReads(tbl: Table, s: State, row: Row)
    requires Valid(tbl, s) && tbl.Fits(row) && !Taken(tbl, s.indexes, row)
    ensures View(Exec(tbl, s, Insert(row))) == View(s)[tbl.KeyOf(row) := row]
  {
    hide Taken, InsertAll;
    var t := Exec(tbl, s, Insert(row));
    ExecValid(tbl, s, Insert(row));
    ViewIsLive(s);
    ViewIsLive(t);
  }

  lemma {:induction false} DeleteReads(tbl: Table, s: State, where: Option<seq<seq<Condition>>>, picked: seq<Word>)
    requires Valid(tbl, s) && Picks(tbl, s, where, picked)
    ensures Effect(tbl, View(s), Delete(where, picked), View(Exec(tbl, s, Delete(where, picked))))
  {
    hide DeleteAll, Matches, DeletedRows;
    var t := Exec(tbl, s, Delete(where, picked));
    ExecValid(tbl, s, Delete(where, picked));
    ViewIsLive(s);
    ViewIsLive(t);
    PickedLive(tbl, s, where, picked);
    DeletedExactly(s.rows, picked, s.nextXid);
    forall k | k in View(s) ensures k in View(t) <==> !Matches(tbl, View(s)[k], where) {
      FreshSeesLive(s, k);
    }
  }

  lemma {:induction false} NoneAssigned(plans: seq<UpdatePlan>, c: nat)
    requires forall i :: 0 <= i < |plans| ==> plans[i].col != c
    ensures Assigned(plans, c).None?
  {
    if plans != [] {
      NoneAssigned(plans[..|plans| - 1], c);
    }
  }

  lemma {:induction false} LastAssigned(plans: seq<UpdatePlan>, i: nat)
    requires i < |plans| && forall j :: i < j < |plans| ==> plans[j].col != plans[i].col
    ensures Assigned(plans, plans[i].col) == Some(plans[i].val)
  {
    if i < |plans| - 1 {
      LastAssigned(plans[..|plans| - 1], i);
    }
  }

  lemma {:induction false} NewValsSet(row: Row, plans: seq<UpdatePlan>)
    requires forall i :: 0 <= i < |plans| ==> plans[i].col < |row|
    ensures SetTo(row, plans, NewVals(row, plans))
  {
    hide NewVals, Assigned;
    var r := NewVals(row, plans);
    forall c | 0 <= c < |row| ensures r[c] == if Assigned(plans, c).Some? then Assigned(plans, c).value else row[c] {
      NewValsAt(row, plans, c);
    }
    forall c | 0 <= c < |row| && (forall i :: 0 <= i < |plans| ==> plans[i].col != c) ensures r[c] == row[c] {
      NoneAssigned(plans, c);
    }
    forall i | 0 <= i < |plans| && (forall j :: i < j < |plans| ==> plans[j].col != plans[i].col) ensures r[plans[i].col] == plans[i].val {
      LastAssigned(plans, i);
    }
  }

  lemma {:induction false} UpdateReads(tbl: Table, s: State, where: Option<seq<seq<Condition>>>, picked: seq<Word>, plans: seq<UpdatePlan>)
    requires Valid(tbl, s) && Picks(tbl, s, where, picked) && PlansFit(tbl, plans)
    ensures Effect(tbl, View(s), Update(where, picked, plans), View(Exec(tbl, s, Update(where, picked, plans))))
  {
    hide UpdateAll, Matches, NewVals, SetTo, Settled, View;
    var t := Exec(tbl, s, Update(where, picked, plans));
    ExecValid(tbl, s, Update(where, picked, plans));
    ViewIsLive(s);
    ViewIsLive(t);
    PickedLive(tbl, s, where, picked);
    assert forall k :: k in picked ==> Live(s.rows, k);
    forall k | k in View(s) ensures if Matches(tbl, View(s)[k], where) then SetTo(View(s)[k], plans, View(t)[k]) else View(t)[k] == View(s)[k] {
      FreshSeesLive(s, k);
      NewValsSet(s.rows[k].row, plans);
    }
  }

  /** An exact index has exactly the values of the live rows. */
  lemma {:induction false} IndexedIff(s: State, idx: Index, c: nat, v: Word)
    requires Settled(s) && (forall k :: k in s.rows ==> c < |s.rows[k].row|) && Exact(s.rows, idx, c)
    ensures v in idx <==> exists k :: k in View(s) && View(s)[k][c] == Int(v)
  {
    hide View, Settled;
    ViewIsLive(s);
    if v in idx {
      assert idx[v] in View(s) && View(s)[idx[v]][c] == Int(v);
    }
  }

  /** Over exact indexes INSERT is rejected exactly for a value that is there already. */
  lemma {:induction false} TakenIffClash(tbl: Table, s: State, row: Row)
    requires Valid(tbl, s) && tbl.Fits(row) && AllExact(tbl, s)
    ensures Taken(tbl, s.indexes, row) <==> Clash(tbl, View(s), row)
  {
    hide View, Exact;
    ViewFits(tbl, s);
    forall i | 0 <= i < |tbl.indexes|
      ensures row[IndexColumn(tbl, i)].Int?
      ensures row[IndexColumn(tbl, i)].n in s.indexes[i] <==> exists k :: k in View(s) && View(s)[k][IndexColumn(tbl, i)] == row[IndexColumn(tbl, i)]
    {
      var c := IndexColumn(tbl, i);
      assert tbl.indexes[i] in tbl.indexes;
      assert Exact(s.rows, s.indexes[i], c);
      IndexedIff(s, s.indexes[i], c, row[c].n);
    }
  }

  /** A statement does to what is read exactly what it says. */
  lemma {:induction false} StatementReads(tbl: Table, s: State, stmt: Stmt)
    requires Valid(tbl, s) && Legal(tbl, s, stmt) && AllExact(tbl, s)
    ensures Effect(tbl, View(s), stmt, View(Exec(tbl, s, stmt)))
  {
    hide Matches, AllExact, Taken, Clash, View;
    ViewFits(tbl, s);
    match stmt
    case Insert(row) =>
      TakenIffClash(tbl, s, row);
      if Taken(tbl, s.indexes, row) {
        SameView(s, Exec(tbl, s, stmt));
      } else {
        InsertReads(tbl, s, row);
      }
    case Delete(where, picked) => DeleteReads(tbl, s, where, picked);
    case Update(where, picked, plans) => UpdateReads(tbl, s, where, picked, plans);
  }

  lemma {:induction false} SameView(s: State, t: State)
    requires s.rows == t.rows && s.committed == t.committed
    ensures View(s) == View(t)
  {
  }

  lemma {:induction false} ViewFits(tbl: Table, s: State)
    requires RowsFit(tbl, s.rows)
    ensures forall k :: k in View(s) ==> tbl.Fits(View(s)[k])
  {
  }

  /** Over every run of safe statements the table is read as a map from keys to rows on which each
      statement has its effect. */
  lemma {:induction false} RunReads(tbl: Table, stmts: seq<Stmt>, states: seq<State>, n: nat)
    requires Run(tbl, stmts, states) && AllExact(tbl, states[0]) && n < |stmts|
    requires forall m :: 0 <= m < n ==> Leads(tbl, states[m], stmts[m], states[m + 1]) && Safe(tbl, states[m], stmts[m])
    ensures Leads(tbl, states[n], stmts[n], states[n + 1])
    ensures Effect(tbl, View(states[n]), stmts[n], View(states[n + 1]))
  {
    hide AllExact, Safe, Legal, Effect, View;
    IndexesStayExact(tbl, stmts, states, n);
    assert Leads(tbl, states[n], stmts[n], states[n + 1]);
    ViewFits(tbl, states[n]);
    StatementReads(tbl, states[n], stmts[n]);
  }
}
