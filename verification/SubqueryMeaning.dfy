/** Flattening does not change which rows a query returns. */
module SubqueryMeaning {
  import opened Pages
  import opened Queries
  import opened Mvcc
  import Operators
  import P = Planners
  import opened Aggregates
  import opened Subqueries

  // ---------------------------------------------------------------- reference meaning

  /** What a statement returns when its subqueries are asked wherever they stand. */
  ghost function Meaning(q: Select, db: Db): Result<seq<Row>>
    decreases q, 2
  {
    if q.from !in db then Err else
    match OutRows(q.columns, q.groupBy, db[q.from].tbl, KeptBy(q, db))
    case Err => Err
    case Ok(rows) =>
      Ok(Limited(if SelectHasAgg(q.columns, q.groupBy) && q.having.AnyOf?
                 then Filter(rows, row => HavingSays(q.having, OutIdx(q.columns), row, db)) else rows, q.limit))
  }

  /** The rows its WHERE clause keeps, in plan order. */
  ghost function KeptBy(q: Select, db: Db): (r: seq<Row>)
    requires q.from in db
    ensures WideAs(r, |db[q.from].tbl.columns|)
    decreases q, 1
  {
    var src := db[q.from];
    var rows := Filter(src.rows, row => |row| == |src.tbl.columns| && WhereSays(q.where, src.tbl, row, db));
    ArrangedWide(src, q, rows);
    src.Arranged(q, rows)
  }

  /** Whether a query returns any row; its select list matters only if it aggregates. */
  ghost predicate Produces(q: Select, db: Db)
    decreases q, 3
  {
    if q.from !in db then false
    else if SelectHasAgg(q.columns, q.groupBy) then Meaning(q, db).Ok? && Meaning(q, db).value != []
    else KeptBy(q, db) != []
  }

  ghost predicate WhereSays(wc: Clause, tbl: Table, row: Row, db: Db)
    requires |row| == |tbl.columns|
    decreases wc, 0
  {
    wc.AnyOf? ==> exists g :: 0 <= g < |wc.groups| && GroupSays(wc.groups[g], tbl, row, db)
  }

  ghost predicate GroupSays(group: Conjunction, tbl: Table, row: Row, db: Db)
    requires |row| == |tbl.columns|
    decreases group, 0
  {
    forall n :: 0 <= n < |group.conds| ==> CondSays(group.conds[n], tbl, row, db)
  }

  ghost predicate CondSays(c: Cond, tbl: Table, row: Row, db: Db)
    requires |row| == |tbl.columns|
    decreases c, 0
  {
    match c
    case Plain(p) => Accepts(tbl, row, p)
    case InQuery(col, q, negated) =>
      tbl.ColIndex(col).Some? ==> InAnswer(row[tbl.ColIndex(col).value], Meaning(q, db)) != negated
    case Scalar(col, op, q) =>
      var r := Meaning(q, db);
      OneValue(r) && (tbl.ColIndex(col).Some? ==> CompareVals(row[tbl.ColIndex(col).value], At(r.value[0], 0), op))
    case Exists(q, negated) => Produces(q, db) != negated
  }

  ghost predicate HavingSays(wc: Clause, idx: map<string, nat>, row: Row, db: Db)
    decreases wc, 0
  {
    wc.AnyOf? && exists g :: 0 <= g < |wc.groups| && HavingGroupSays(wc.groups[g], idx, row, db)
  }

  ghost predicate HavingGroupSays(group: Conjunction, idx: map<string, nat>, row: Row, db: Db)
    decreases group, 0
  {
    forall n :: 0 <= n < |group.conds| ==> HavingCondSays(group.conds[n], idx, row, db)
  }

  ghost predicate HavingCondSays(c: Cond, idx: map<string, nat>, row: Row, db: Db)
    decreases c, 0
  {
    match c
    case Plain(p) => !p.AlwaysFalse? && Lower(p.col) in idx && Test(p, At(row, idx[Lower(p.col)]))
    case InQuery(col, q, negated) =>
      Lower(col) in idx && InAnswer(At(row, idx[Lower(col)]), Meaning(q, db)) != negated
    case Scalar(col, op, q) =>
      var r := Meaning(q, db);
      OneValue(r) && Lower(col) in idx && CompareVals(At(row, idx[Lower(col)]), At(r.value[0], 0), op)
    case Exists(q, negated) => Produces(q, db) != negated
  }

  /** The value is the first column of one of the rows. */
  ghost predicate InAnswer(v: Datum, r: Result<seq<Row>>) {
    r.Ok? && exists i :: 0 <= i < |r.value| && |r.value[i]| > 0 && r.value[i][0] == v
  }

  ghost predicate OneValue(r: Result<seq<Row>>) {
    r.Ok? && |r.value| == 1
  }

  lemma {:induction false} FirstColumnExact(rows: seq<Row>, v: Datum)
    ensures v in FirstColumn(rows) <==> InAnswer(v, Ok(rows))
  {
    if rows != [] {
      var init := rows[..|rows| - 1];
      FirstColumnExact(init, v);
      assert forall i :: 0 <= i < |init| ==> init[i] == rows[i];
    }
  }

  // ---------------------------------------------------------------- which queries

  /** An aggregate without GROUP BY: it returns a row even when nothing matches. */
  predicate GlobalAgg(q: Select) {
    q.groupBy == [] && SelectHasAgg(q.columns, q.groupBy)
  }

  /** No EXISTS, at any depth, asks about such a query. */
  ghost predicate Good(q: Select)
    decreases q, 0
  {
    GoodClause(q.where) && GoodClause(q.having)
  }

  ghost predicate GoodClause(wc: Clause)
    decreases wc, 0
  {
    wc.AnyOf? ==> forall g :: 0 <= g < |wc.groups| ==> GoodGroup(wc.groups[g])
  }

  ghost predicate GoodGroup(group: Conjunction)
    decreases group, 0
  {
    forall n :: 0 <= n < |group.conds| ==> GoodCond(group.conds[n])
  }

  ghost predicate GoodCond(c: Cond)
    decreases c, 0
  {
    match c
    case Plain(_) => true
    case InQuery(_, q, _) => Good(q)
    case Scalar(_, _, q) => Good(q)
    case Exists(q, _) => Good(q) && !GlobalAgg(q)
  }

  /** No column is called "*". */
  ghost predicate NoStar(db: Db) {
    forall f :: f in db ==> "*" !in RawIdx(db[f].tbl.columns)
  }

  // ---------------------------------------------------------------- one condition

  /** The resolved form says what the condition says, about table rows and about grouped rows. */
  ghost predicate Faithful(c: Cond, step: Step, db: Db) {
    match step
    case Error => true
    case Drop => c.Exists? && Produces(c.query, db) != c.negated
    case Fail => (c.Exists? && Produces(c.query, db) == c.negated) || (c.Scalar? && !OneValue(Meaning(c.query, db)))
    case Keep(p) =>
      match c
      case Plain(p') => p == p'
      case InQuery(col, q, negated) =>
        p.InList? && p.col == col && p.negated == negated && forall v :: v in p.list <==> InAnswer(v, Meaning(q, db))
      case Scalar(col, op, q) =>
        OneValue(Meaning(q, db)) && p == Compare(col, op, At(Meaning(q, db).value[0], 0))
      case Exists(_, _) => false
  }

  lemma {:induction false} FaithfulWhere(c: Cond, step: Step, tbl: Table, row: Row, db: Db)
    requires Faithful(c, step, db) && |row| == |tbl.columns|
    ensures step.Drop? ==> CondSays(c, tbl, row, db)
    ensures step.Fail? ==> !CondSays(c, tbl, row, db)
    ensures step.Keep? ==> (CondSays(c, tbl, row, db) <==> Accepts(tbl, row, step.c))
  {
  }

  lemma {:induction false} FaithfulHaving(c: Cond, step: Step, idx: map<string, nat>, row: Row, db: Db)
    requires Faithful(c, step, db)
    ensures step.Drop? ==> HavingCondSays(c, idx, row, db)
    ensures step.Fail? ==> !HavingCondSays(c, idx, row, db)
    ensures step.Keep? ==> (HavingCondSays(c, idx, row, db) <==>
      !step.c.AlwaysFalse? && Lower(step.c.col) in idx && Test(step.c, At(row, idx[Lower(step.c.col)])))
  {
  }

  lemma {:induction false} CondFaithful(c: Cond, db: Db)
    requires GoodCond(c) && NoStar(db)
    ensures Faithful(c, FlattenCond(c, db), db)
    decreases c, 0
  {
    match c
    case Plain(_) =>
    case InQuery(col, q, negated) =>
      QueryMeaning(q, false, db);
      var r := ExecFlattened(q, false, db);
      if r.Ok? {
        forall v ensures v in FirstColumn(r.value) <==> InAnswer(v, Meaning(q, db)) {
          FirstColumnExact(r.value, v);
        }
      }
    case Scalar(col, op, q) => QueryMeaning(q, false, db);
    case Exists(q, negated) => QueryMeaning(q, true, db);
  }

  // ---------------------------------------------------------------- groups

  ghost predicate SaysUpTo(group: Conjunction, n: nat, tbl: Table, row: Row, db: Db)
    requires |row| == |tbl.columns| && n <= |group.conds|
  {
    forall k :: 0 <= k < n ==> CondSays(group.conds[k], tbl, row, db)
  }

  ghost predicate HavingUpTo(group: Conjunction, n: nat, idx: map<string, nat>, row: Row, db: Db)
    requires n <= |group.conds|
  {
    forall k :: 0 <= k < n ==> HavingCondSays(group.conds[k], idx, row, db)
  }

  lemma {:induction false} AcceptsMore(tbl: Table, row: Row, conds: seq<Condition>, c: Condition)
    requires |row| == |tbl.columns|
    ensures AcceptsAll(tbl, row, conds + [c]) <==> AcceptsAll(tbl, row, conds) && Accepts(tbl, row, c)
  {
    P.AcceptsSnoc(tbl, row, conds, c);
  }

  /** A flattened group accepts the table rows the group accepts. */
  lemma {:induction false} GroupWhere(group: Conjunction, n: nat, tbl: Table, row: Row, db: Db)
    requires n <= |group.conds| && GoodGroup(group) && NoStar(db) && |row| == |tbl.columns|
    ensures FlattenGroup(group, n, db).Failed? ==> !SaysUpTo(group, n, tbl, row, db)
    ensures FlattenGroup(group, n, db).Flat? ==>
      (AcceptsAll(tbl, row, FlattenGroup(group, n, db).conds) <==> SaysUpTo(group, n, tbl, row, db))
    decreases group, n
  {
    hide CondSays, Accepts, Faithful, NoStar, GoodCond;
    if n > 0 {
      GroupWhere(group, n - 1, tbl, row, db);
      var c := group.conds[n - 1];
      assert GoodCond(c);
      CondFaithful(c, db);
      var step := FlattenCond(c, db);
      FaithfulWhere(c, step, tbl, row, db);
      var before := FlattenGroup(group, n - 1, db);
      if before.Flat? && step.Keep? {
        AcceptsMore(tbl, row, before.conds, step.c);
      }
      assert SaysUpTo(group, n, tbl, row, db) <==> SaysUpTo(group, n - 1, tbl, row, db) && CondSays(c, tbl, row, db);
    }
  }

  /** HAVING conditions after the first one added. */
  lemma {:induction false} HavingPrefix(row: Row, idx: map<string, nat>, conds: seq<Condition>, c: Condition, n: nat)
    requires n <= |conds|
    ensures HavingGroup(row, idx, conds + [c], n) == HavingGroup(row, idx, conds, n)
  {
    if n > 0 {
      HavingPrefix(row, idx, conds, c, n - 1);
      assert (conds + [c])[n - 1] == conds[n - 1];
    }
  }

  lemma {:induction false} HavingMore(row: Row, idx: map<string, nat>, conds: seq<Condition>, c: Condition)
    ensures var r, r' := HavingGroup(row, idx, conds, |conds|), HavingGroup(row, idx, conds + [c], |conds| + 1);
      && (r'.Ok? ==> r.Ok?)
      && (r'.Ok? ==> (r'.value <==> r.value && !c.AlwaysFalse? && Lower(c.col) in idx && Test(c, At(row, idx[Lower(c.col)]))))
  {
    HavingPrefix(row, idx, conds, c, |conds|);
    assert (conds + [c])[|conds|] == c;
  }

  /** A flattened group that raises no error accepts the grouped rows the group accepts. */
  lemma {:induction false} GroupHaving(group: Conjunction, n: nat, idx: map<string, nat>, row: Row, db: Db)
    requires n <= |group.conds| && GoodGroup(group) && NoStar(db)
    ensures FlattenGroup(group, n, db).Failed? ==> !HavingUpTo(group, n, idx, row, db)
    ensures FlattenGroup(group, n, db).Flat? ==>
      var conds := FlattenGroup(group, n, db).conds; var r := HavingGroup(row, idx, conds, |conds|);
      r.Ok? ==> (r.value <==> HavingUpTo(group, n, idx, row, db))
    decreases group, n
  {
    hide HavingCondSays, Faithful, NoStar, GoodCond, Test;
    if n > 0 {
      GroupHaving(group, n - 1, idx, row, db);
      var c := group.conds[n - 1];
      assert GoodCond(c);
      CondFaithful(c, db);
      var step := FlattenCond(c, db);
      FaithfulHaving(c, step, idx, row, db);
      var before := FlattenGroup(group, n - 1, db);
      if before.Flat? && step.Keep? {
        HavingMore(row, idx, before.conds, step.c);
      }
      assert HavingUpTo(group, n, idx, row, db) <==> HavingUpTo(group, n - 1, idx, row, db) && HavingCondSays(c, idx, row, db);
    }
  }

  // ---------------------------------------------------------------- clauses

  ghost predicate SomeSays(groups: seq<Conjunction>, n: nat, tbl: Table, row: Row, db: Db)
    requires |row| == |tbl.columns| && n <= |groups|
  {
    exists g :: 0 <= g < n && GroupSays(groups[g], tbl, row, db)
  }

  ghost predicate SomeHaving(groups: seq<Conjunction>, n: nat, idx: map<string, nat>, row: Row, db: Db)
    requires n <= |groups|
  {
    exists g :: 0 <= g < n && HavingGroupSays(groups[g], idx, row, db)
  }

  ghost predicate SomeAccepts(groups: seq<seq<Condition>>, tbl: Table, row: Row)
    requires |row| == |tbl.columns|
  {
    exists g :: 0 <= g < |groups| && AcceptsAll(tbl, row, groups[g])
  }

  lemma {:induction false} SomeAcceptsMore(groups: seq<seq<Condition>>, conds: seq<Condition>, tbl: Table, row: Row)
    requires |row| == |tbl.columns|
    ensures SomeAccepts(groups + [conds], tbl, row) <==> SomeAccepts(groups, tbl, row) || AcceptsAll(tbl, row, conds)
  {
    var more := groups + [conds];
    assert more[|groups|] == conds;
    assert forall g :: 0 <= g < |groups| ==> more[g] == groups[g];
    if SomeAccepts(groups, tbl, row) {
      var g :| 0 <= g < |groups| && AcceptsAll(tbl, row, groups[g]);
      assert AcceptsAll(tbl, row, more[g]);
    }
  }

  lemma {:induction false} GroupsWhere(groups: seq<Conjunction>, n: nat, tbl: Table, row: Row, db: Db)
    requires n <= |groups| && NoStar(db) && |row| == |tbl.columns| && forall g :: 0 <= g < |groups| ==> GoodGroup(groups[g])
    ensures FlattenGroups(groups, n, db).Ok? ==>
      (SomeAccepts(FlattenGroups(groups, n, db).value, tbl, row) <==> SomeSays(groups, n, tbl, row, db))
    decreases groups, n
  {
    hide AcceptsAll, GroupSays, GoodGroup, NoStar;
    if n > 0 {
      GroupsWhere(groups, n - 1, tbl, row, db);
      var group := groups[n - 1];
      GroupWhere(group, |group.conds|, tbl, row, db);
      GroupWhole(group, tbl, row, db);
      var before, flat := FlattenGroups(groups, n - 1, db), FlattenGroup(group, |group.conds|, db);
      if before.Ok? && !flat.Broken? {
        NeverAccepts(tbl, row);
        SomeAcceptsMore(before.value, if flat.Failed? then [AlwaysFalse] else flat.conds, tbl, row);
      }
      assert SomeSays(groups, n, tbl, row, db) <==> SomeSays(groups, n - 1, tbl, row, db) || GroupSays(group, tbl, row, db);
    }
  }

  lemma {:induction false} GroupWhole(group: Conjunction, tbl: Table, row: Row, db: Db)
    requires |row| == |tbl.columns|
    ensures SaysUpTo(group, |group.conds|, tbl, row, db) <==> GroupSays(group, tbl, row, db)
  {
  }

  lemma {:induction false} NeverAccepts(tbl: Table, row: Row)
    requires |row| == |tbl.columns|
    ensures !AcceptsAll(tbl, row, [AlwaysFalse])
  {
    assert !Accepts(tbl, row, [AlwaysFalse][0]);
  }

  lemma {:induction false} HavingKeepsPrefix(row: Row, idx: map<string, nat>, groups: seq<seq<Condition>>, conds: seq<Condition>, n: nat)
    requires n <= |groups|
    ensures HavingMatches(row, idx, groups + [conds], n) == HavingMatches(row, idx, groups, n)
  {
    if n > 0 {
      HavingKeepsPrefix(row, idx, groups, conds, n - 1);
      assert (groups + [conds])[n - 1] == groups[n - 1];
    }
  }

  lemma {:induction false} GroupsHaving(groups: seq<Conjunction>, n: nat, idx: map<string, nat>, row: Row, db: Db)
    requires n <= |groups| && NoStar(db) && forall g :: 0 <= g < |groups| ==> GoodGroup(groups[g])
    ensures FlattenGroups(groups, n, db).Ok? ==>
      var r := HavingMatches(row, idx, FlattenGroups(groups, n, db).value, n);
      r.Ok? ==> (r.value <==> SomeHaving(groups, n, idx, row, db))
    decreases groups, n
  {
    hide HavingGroup, HavingGroupSays, GoodGroup, NoStar;
    if n > 0 {
      GroupsHaving(groups, n - 1, idx, row, db);
      var group := groups[n - 1];
      GroupHaving(group, |group.conds|, idx, row, db);
      HavingWhole(group, idx, row, db);
      var before, flat := FlattenGroups(groups, n - 1, db), FlattenGroup(group, |group.conds|, db);
      if before.Ok? && !flat.Broken? {
        var conds := if flat.Failed? then [AlwaysFalse] else flat.conds;
        HavingKeepsPrefix(row, idx, before.value, conds, n - 1);
        assert (before.value + [conds])[n - 1] == conds;
        NeverHaving(row, idx);
      }
      assert SomeHaving(groups, n, idx, row, db) <==> SomeHaving(groups, n - 1, idx, row, db) || HavingGroupSays(group, idx, row, db);
    }
  }

  lemma {:induction false} HavingWhole(group: Conjunction, idx: map<string, nat>, row: Row, db: Db)
    ensures HavingUpTo(group, |group.conds|, idx, row, db) <==> HavingGroupSays(group, idx, row, db)
  {
  }

  lemma {:induction false} NeverHaving(row: Row, idx: map<string, nat>)
    ensures HavingGroup(row, idx, [AlwaysFalse], 1) == Ok(false)
  {
    assert HavingGroup(row, idx, [AlwaysFalse], 0) == Ok(true);
  }

  lemma {:induction false} WhereRow(wc: Clause, tbl: Table, row: Row, db: Db)
    requires GoodClause(wc) && NoStar(db) && |row| == |tbl.columns|
    ensures FlattenWhere(wc, db).Ok? ==> (Matches(tbl, row, FlattenWhere(wc, db).value) <==> WhereSays(wc, tbl, row, db))
    decreases wc, 0
  {
    hide AcceptsAll, GroupSays, GoodGroup, NoStar;
    if wc.AnyOf? {
      GroupsWhere(wc.groups, |wc.groups|, tbl, row, db);
    }
  }

  lemma {:induction false} HavingRow(wc: Clause, idx: map<string, nat>, row: Row, db: Db)
    requires GoodClause(wc) && NoStar(db)
    ensures FlattenWhere(wc, db).Ok? && wc.AnyOf? ==>
      var flat := FlattenWhere(wc, db).value.value; var r := HavingMatches(row, idx, flat, |flat|);
      r.Ok? ==> (r.value <==> HavingSays(wc, idx, row, db))
    decreases wc, 0
  {
    hide HavingGroup, HavingGroupSays, GoodGroup, NoStar;
    if wc.AnyOf? {
      GroupsHaving(wc.groups, |wc.groups|, idx, row, db);
    }
  }

  lemma {:induction false} HavingFilters(wc: Clause, idx: map<string, nat>, rows: seq<Row>, db: Db)
    requires GoodClause(wc) && NoStar(db) && FlattenWhere(wc, db).Ok? && wc.AnyOf?
    ensures var r := HavingRows(rows, idx, FlattenWhere(wc, db).value.value);
      r.Ok? ==> r.value == Filter(rows, row => HavingSays(wc, idx, row, db))
    decreases wc, 1, |rows|
  {
    hide HavingMatches, HavingSays, NoStar, GoodClause;
    if rows != [] {
      HavingFilters(wc, idx, rows[..|rows| - 1], db);
      HavingRow(wc, idx, rows[|rows| - 1], db);
    }
  }

  // ---------------------------------------------------------------- statements

  /** The flattened WHERE clause keeps the same rows. */
  lemma {:induction false} SameKept(q: Select, db: Db)
    requires Good(q) && NoStar(db) && q.from in db && FlattenWhere(q.where, db).Ok?
    ensures Kept(q, db[q.from], FlattenWhere(q.where, db).value) == KeptBy(q, db)
    decreases q, 0
  {
    hide Matches, WhereSays, GoodClause, NoStar;
    var src, where := db[q.from], FlattenWhere(q.where, db).value;
    var p := (row: Row) => |row| == |src.tbl.columns| && Matches(src.tbl, row, where);
    ghost var p' := (row: Row) => |row| == |src.tbl.columns| && WhereSays(q.where, src.tbl, row, db);
    forall i | 0 <= i < |src.rows| ensures p(src.rows[i]) == p'(src.rows[i]) {
      if |src.rows[i]| == |src.tbl.columns| {
        WhereRow(q.where, src.tbl, src.rows[i], db);
      }
    }
    FilterSame(src.rows, p, p');
  }

  /** For every nesting of IN, NOT IN, EXISTS, NOT EXISTS and scalar subqueries in WHERE and HAVING
      clauses: a flattened statement that raises no error returns exactly what the statement means,
      and an EXISTS question gets the right answer. */
  lemma {:induction false} QueryMeaning(q: Select, star: bool, db: Db)
    requires Good(q) && NoStar(db) && (star ==> !GlobalAgg(q))
    ensures var r := ExecFlattened(q, star, db); r.Ok? && !star ==> Meaning(q, db) == r
    ensures var r := ExecFlattened(q, star, db); r.Ok? && star ==> (Produces(q, db) <==> r.value != [])
    decreases q, 1
  {
    hide OutRows, HavingRows, NoStar, GoodClause, Kept, KeptBy, FlattenWhere;
    if ExecFlattened(q, star, db).Ok? {
      SameKept(q, db);
      if !star {
        if q.having.AnyOf? && SelectHasAgg(q.columns, q.groupBy) {
          HavingIsSome(q.having, db);
          var rows := OutRows(q.columns, q.groupBy, db[q.from].tbl, KeptBy(q, db)).value;
          HavingFilters(q.having, OutIdx(q.columns), rows, db);
        } else {
          HavingIsSome(q.having, db);
        }
      } else {
        StarAsks(q, db);
      }
    }
  }

  lemma {:induction false} HavingIsSome(wc: Clause, db: Db)
    requires FlattenWhere(wc, db).Ok?
    ensures FlattenWhere(wc, db).value.Some? <==> wc.AnyOf?
  {
  }

  /** Asked for "*", a query over no aggregate returns rows exactly when its clause keeps some; with
      GROUP BY it is an error unless there are none. */
  lemma {:induction false} StarAsks(q: Select, db: Db)
    requires NoStar(db) && !GlobalAgg(q) && ExecFlattened(q, true, db).Ok? && q.from in db
    requires FlattenWhere(q.where, db).Ok? && Kept(q, db[q.from], FlattenWhere(q.where, db).value) == KeptBy(q, db)
    ensures Produces(q, db) <==> ExecFlattened(q, true, db).value != []
  {
    hide Kept, KeptBy, FlattenWhere, WhereSays, AggRows, HavingRows, PickAll, OutIdx, P.ResolveColumns, HavingSays, Filter;
    var tbl, kept := db[q.from].tbl, KeptBy(q, db);
    NoRows(OutIdx(STAR));
    StarPlain(tbl, kept);
    if q.groupBy != [] {
      StarGrouped(q.columns, q.groupBy, tbl, kept);
    }
  }

  /** HAVING over no rows leaves none. */
  lemma {:induction false} NoRows(idx: map<string, nat>)
    ensures forall groups :: HavingRows([], idx, groups) == Ok([])
    ensures forall p: Row -> bool :: Filter([], p) == []
  {
  }

  lemma {:induction false} StarPlain(tbl: Table, kept: seq<Row>)
    requires WideAs(kept, |tbl.columns|)
    ensures OutRows(STAR, [], tbl, kept).Ok? && |OutRows(STAR, [], tbl, kept).value| == |kept|
  {
    assert Names(STAR) == ["*"];
  }

  lemma {:induction false} StarGrouped(columns: seq<Expr>, groupBy: seq<string>, tbl: Table, kept: seq<Row>)
    requires WideAs(kept, |tbl.columns|) && groupBy != [] && "*" !in RawIdx(tbl.columns)
    requires AggRows(STAR, groupBy, tbl, kept).Ok?
    ensures AggRows(STAR, groupBy, tbl, kept) == Ok([]) && AggRows(columns, groupBy, tbl, kept) == Ok([])
  {
    assert Lower("*") == "*";
    assert !Known(STAR[0], RawIdx(tbl.columns));
  }

  // ---------------------------------------------------------------- where EXISTS goes wrong

  /** The one row of an aggregate without GROUP BY passes its HAVING clause. */
  ghost predicate GroupRowPasses(q: Select, db: Db)
    requires q.from in db
  {
    var tbl, kept := db[q.from].tbl, KeptBy(q, db);
    var rawIdx := RawIdx(tbl.columns);
    && (forall i :: 0 <= i < |q.columns| ==> Known(q.columns[i], rawIdx))
    && (q.having.AnyOf? ==> HavingSays(q.having, OutIdx(q.columns), GroupRow(q.columns, kept, rawIdx, |tbl.columns|), db))
  }

  /** EXISTS over an aggregate without GROUP BY asks whether its one row passes HAVING.  The flattened
      form, which replaces the select list and with it drops HAVING, asks for a matching row instead,
      so it is right exactly when the two answers coincide. */
  lemma {:induction false} ExistsGlobalIff(q: Select, db: Db)
    requires Good(q) && NoStar(db) && q.from in db && GlobalAgg(q) && ExecFlattened(q, true, db).Ok?
    ensures Produces(q, db) <==> GroupRowPasses(q, db)
    ensures ExecFlattened(q, true, db).value != [] <==> KeptBy(q, db) != []
    ensures (Produces(q, db) <==> ExecFlattened(q, true, db).value != []) <==> ((KeptBy(q, db) != []) == GroupRowPasses(q, db))
  {
    hide *;
    ProducesGlobal(q, db);
    FlattenedGlobal(q, db);
  }

  lemma {:induction false} ProducesGlobal(q: Select, db: Db)
    requires q.from in db && GlobalAgg(q)
    ensures Produces(q, db) <==> GroupRowPasses(q, db)
  {
    hide KeptBy, WhereSays, AggRows, HavingSays, GroupRow, OutIdx, RawIdx;
    var tbl, kept := db[q.from].tbl, KeptBy(q, db);
    OneRow(q.columns, tbl, kept);
    if AggRows(q.columns, [], tbl, kept).Ok? {
      var row := GroupRow(q.columns, kept, RawIdx(tbl.columns), |tbl.columns|);
      FilterOne(row, row => HavingSays(q.having, OutIdx(q.columns), row, db));
    }
  }

  lemma {:induction false} FlattenedGlobal(q: Select, db: Db)
    requires Good(q) && NoStar(db) && q.from in db && GlobalAgg(q) && ExecFlattened(q, true, db).Ok?
    ensures ExecFlattened(q, true, db).value != [] <==> KeptBy(q, db) != []
  {
    hide Kept, KeptBy, FlattenWhere, WhereSays, AggRows;
    SameKept(q, db);
    StarPlain(db[q.from].tbl, KeptBy(q, db));
    assert !SelectHasAgg(STAR, []);
  }

  lemma {:induction false} FilterOne(row: Row, p: Row -> bool)
    ensures Filter([row], p) == if p(row) then [row] else []
  {
    assert [row][..0] == [];
  }

  lemma {:induction false} OneKey(ks: seq<seq<byte>>)
    requires forall i :: 0 <= i < |ks| ==> ks[i] == []
    ensures FirstKeys(ks) == if ks == [] then [] else [[]]
  {
    if ks != [] {
      OneKey(ks[..|ks| - 1]);
    }
  }

  lemma {:induction false} AllWithKey(rows: seq<Row>, ks: seq<seq<byte>>)
    requires |ks| == |rows| && forall i :: 0 <= i < |ks| ==> ks[i] == []
    ensures WithKey(rows, ks, []) == rows
  {
    if rows != [] {
      AllWithKey(rows[..|rows| - 1], ks[..|ks| - 1]);
    }
  }

  lemma {:induction false} EmptyKey(row: Row)
    ensures GroupKey(row, []) == []
  {
  }

  /** Without GROUP BY there is one group: all the rows, or none. */
  lemma {:induction false} OneGroup(kept: seq<Row>, w: nat)
    requires WideAs(kept, w)
    ensures |GroupsFor(kept, [], w)| == 1 && GroupsFor(kept, [], w)[0].rows == kept
  {
    hide FirstKeys, WithKey, GroupKey;
    var ks := KeysOf(kept, []);
    forall i | 0 <= i < |ks| ensures ks[i] == [] {
      EmptyKey(kept[i]);
    }
    OneKey(ks);
    AllWithKey(kept, ks);
  }

  lemma {:induction false} OneRow(columns: seq<Expr>, tbl: Table, kept: seq<Row>)
    requires WideAs(kept, |tbl.columns|)
    ensures AggRows(columns, [], tbl, kept).Ok? <==> forall i :: 0 <= i < |columns| ==> Known(columns[i], RawIdx(tbl.columns))
    ensures AggRows(columns, [], tbl, kept).Ok? ==>
      AggRows(columns, [], tbl, kept).value == [GroupRow(columns, kept, RawIdx(tbl.columns), |tbl.columns|)]
  {
    hide GroupsFor, GroupRow;
    OneGroup(kept, |tbl.columns|);
    assert GroupIdxs([], RawIdx(tbl.columns)) == [];
  }

  // ---------------------------------------------------------------- what a statement returns

  /** Without an aggregate every kept row gives one row that shows the items of the select list. */
  lemma {:induction false} PlainAnswers(columns: seq<Expr>, tbl: Table, kept: seq<Row>)
    requires tbl.WellFormed() && WideAs(kept, |tbl.columns|) && !SelectHasAgg(columns, []) && OutRows(columns, [], tbl, kept).Ok?
    ensures var out := OutRows(columns, [], tbl, kept).value;
      && |out| == |kept|
      && (|columns| == 1 && columns[0].name == "*" ==> out == kept)
      && (!(|columns| == 1 && columns[0].name == "*") ==>
          forall i, j, c :: 0 <= i < |out| && 0 <= j < |columns| && 0 <= c < |kept[i]| && SameName(tbl.columns[c].name, columns[j].name) ==>
            |out[i]| == |columns| && out[i][j] == kept[i][c])
  {
    hide Pick, P.ResolveColumns;
    var cols, out := Names(columns), OutRows(columns, [], tbl, kept).value;
    if |columns| == 1 {
      assert cols == [columns[0].name];
    }
    forall i | 0 <= i < |out| ensures P.Shows(tbl, cols, kept[i], out[i]) {
      P.Projected(tbl, cols, kept[i]);
    }
  }

  /** With an aggregate there is one row per group, and it answers every item over the group's rows. */
  lemma {:induction false} AggregateAnswers(columns: seq<Expr>, groupBy: seq<string>, tbl: Table, kept: seq<Row>)
    requires tbl.WellFormed() && WideAs(kept, |tbl.columns|) && AggRows(columns, groupBy, tbl, kept).Ok?
    ensures GroupsKnown(groupBy, RawIdx(tbl.columns))
    ensures var out, idxs := AggRows(columns, groupBy, tbl, kept).value, GroupIdxs(groupBy, RawIdx(tbl.columns));
      var groups := GroupsFor(kept, idxs, |tbl.columns|);
      && (forall i :: 0 <= i < |groupBy| ==> SameName(tbl.columns[idxs[i]].name, groupBy[i]))
      && |out| == |groups|
      && (forall g :: 0 <= g < |groups| ==> AnswersAll(tbl.columns, columns, groups[g].rows, out[g]))
      && (if kept == [] && groupBy == [] then groups == [Group([], [])] else Partition(groups, kept, KeysOf(kept, idxs)))
  {
    hide AnswersAll, GroupRow;
    var idxs := GroupIdxs(groupBy, RawIdx(tbl.columns));
    var groups := GroupsFor(kept, idxs, |tbl.columns|);
    assert groups != [] ==> forall i :: 0 <= i < |columns| ==> Known(columns[i], RawIdx(tbl.columns));
    PartitionIsGrouped(Grouped(kept, KeysOf(kept, idxs)), kept, KeysOf(kept, idxs));
    NoneIffEmpty(kept, KeysOf(kept, idxs));
    hide GroupsFor, Partition;
    forall g | 0 <= g < |groups| ensures AnswersAll(tbl.columns, columns, groups[g].rows, AggRows(columns, groupBy, tbl, kept).value[g]) {
      assert WideAs(groups[g].rows, |tbl.columns|);
      GroupRowAnswers(tbl.columns, columns, groups[g].rows);
    }
  }

  lemma {:induction false} NoneIffEmpty(rows: seq<Row>, ks: seq<seq<byte>>)
    requires |ks| == |rows|
    ensures Grouped(rows, ks) == [] <==> rows == []
  {
    FirstKeysExact(ks);
    if rows != [] {
      assert ks[0] in ks;
    }
  }

  /** LIMIT keeps the first rows; 0 means no limit. */
  lemma {:induction false} LimitKeepsFirst(rows: seq<Row>, limit: nat)
    ensures Limited(rows, limit) <= rows
    ensures |Limited(rows, limit)| == if limit == 0 || |rows| < limit then |rows| else limit
  {
  }

  /** What a statement returns, subqueries and all: it is LIMIT of what HAVING leaves of one row per kept
      row, or of one row per group as soon as it aggregates or groups. */
  lemma {:induction false} StatementReturns(q: Select, db: Db) returns (all: seq<Row>)
    requires q.from in db && db[q.from].tbl.WellFormed() && Meaning(q, db).Ok?
    ensures var grouped := q.groupBy != [] || exists i :: 0 <= i < |q.columns| && q.columns[i].Agg?;
      && OutRows(q.columns, q.groupBy, db[q.from].tbl, KeptBy(q, db)) == Ok(all)
      && (grouped ==> AggRows(q.columns, q.groupBy, db[q.from].tbl, KeptBy(q, db)) == Ok(all))
      && (!grouped ==> |all| == |KeptBy(q, db)|)
      && exists kept: seq<Row> ::
          && (kept == if grouped && q.having.AnyOf? then Filter(all, row => HavingSays(q.having, OutIdx(q.columns), row, db)) else all)
          && Meaning(q, db).value <= kept
          && |Meaning(q, db).value| == if q.limit == 0 || |kept| < q.limit then |kept| else q.limit
  {
    hide HavingSays, OutIdx, KeptBy, AggRows, Filter;
    all := OutRows(q.columns, q.groupBy, db[q.from].tbl, KeptBy(q, db)).value;
    var kept := if SelectHasAgg(q.columns, q.groupBy) && q.having.AnyOf?
      then Filter(all, row => HavingSays(q.having, OutIdx(q.columns), row, db)) else all;
    LimitKeepsFirst(kept, q.limit);
  }

  /** The item carries this name: the unaliased name of its call, or its output name. */
  predicate Carries(e: Expr, name: string, call: bool) {
    if call then e.Agg? && Lower(e.call) == name else Lower(e.out) == name
  }

  lemma {:induction false} NamesLast(columns: seq<Expr>, name: string, call: bool)
    ensures var m := if call then CallNames(columns) else OutNames(columns);
      && (name in m <==> exists i :: 0 <= i < |columns| && Carries(columns[i], name, call))
      && (name in m ==> m[name] < |columns| && Carries(columns[m[name]], name, call))
      && (name in m ==> forall j :: m[name] < j < |columns| ==> !Carries(columns[j], name, call))
  {
    if columns != [] {
      var init := columns[..|columns| - 1];
      NamesLast(init, name, call);
      assert forall i :: 0 <= i < |init| ==> init[i] == columns[i];
    }
  }

  /** A name in HAVING means an item that carries it: one whose call has that name before one whose
      output name it is, and the last of these. */
  lemma {:induction false} HavingNames(columns: seq<Expr>, name: string)
    ensures name in OutIdx(columns) <==> exists i, call :: 0 <= i < |columns| && Carries(columns[i], name, call)
    ensures name in OutIdx(columns) ==>
      var i := OutIdx(columns)[name];
      var call := exists k :: 0 <= k < |columns| && Carries(columns[k], name, true);
      i < |columns| && Carries(columns[i], name, call) && forall j :: i < j < |columns| ==> !Carries(columns[j], name, call)
  {
    hide Carries, OutNames, CallNames;
    NamesLast(columns, name, true);
    NamesLast(columns, name, false);
  }

  /** HAVING reads a comparison of two columns as one of the first column with 0: it is right for every
      value of the first column exactly when the second one is 0, or when nothing can be below it. */
  lemma {:induction false} HavingColumnsRightIff(col: string, op: CompareOp, rhs: string, w: Datum)
    ensures (forall v: Datum :: Test(ColCompare(col, op, rhs), v) <==> CompareVals(v, w, op)) <==>
      w == Int(0) || (op == Lt && w == Text([]))
  {
    var c := ColCompare(col, op, rhs);
    if w == Text([]) {
      assert op == Gt ==> Test(c, Int(1)) && !CompareVals(Int(1), w, op);
      assert op != Gt && op != Lt ==> Test(c, Int(0)) && !CompareVals(Int(0), w, op);
      forall v: Datum ensures op == Lt ==> !Test(c, v) && !CompareVals(v, w, op) {
      }
    } else if w.Text? {
      assert op == Gt ==> Test(c, Int(1)) && !CompareVals(Int(1), w, op);
      assert op == Lt ==> !Test(c, Text([])) && CompareVals(Text([]), w, op);
      assert op != Gt && op != Lt ==> Test(c, Int(0)) && !CompareVals(Int(0), w, op);
    } else if w.n > 0 {
      assert op == Gt ==> Test(c, w) && !CompareVals(w, w, op);
      assert op == Eq || op == Lte ==> !Test(c, w) && CompareVals(w, w, op);
      assert op == Gte ==> Test(c, Int(0)) && !CompareVals(Int(0), w, op);
      assert op == Lt ==> !Test(c, Int(0)) && CompareVals(Int(0), w, op);
    }
  }

  // ---------------------------------------------------------------- which statements fail

  /** The subquery of a condition cannot be answered, or a scalar one returns several rows. */
  ghost predicate CondErrs(c: Cond, db: Db) {
    match c
    case Plain(_) => false
    case InQuery(_, q, _) => ExecFlattened(q, false, db).Err?
    case Scalar(_, _, q) => ExecFlattened(q, false, db).Err? || |ExecFlattened(q, false, db).value| > 1
    case Exists(q, _) => ExecFlattened(q, true, db).Err?
  }

  /** The condition is known to be false: a scalar subquery without a row, an EXISTS that says so. */
  ghost predicate CondFails(c: Cond, db: Db) {
    match c
    case Plain(_) => false
    case InQuery(_, _, _) => false
    case Scalar(_, _, q) => ExecFlattened(q, false, db) == Ok([])
    case Exists(q, negated) => ExecFlattened(q, true, db).Ok? && (ExecFlattened(q, true, db).value != []) == negated
  }

  lemma {:induction false} CondOutcome(c: Cond, db: Db)
    ensures FlattenCond(c, db).Error? <==> CondErrs(c, db)
    ensures FlattenCond(c, db).Fail? <==> CondFails(c, db)
  {
  }

  /** The condition errs and none before it is known to be false. */
  ghost predicate ErrsAt(group: Conjunction, k: nat, db: Db)
    requires k < |group.conds|
  {
    CondErrs(group.conds[k], db) && forall j :: 0 <= j < k ==> !CondFails(group.conds[j], db)
  }

  ghost predicate FailsAt(group: Conjunction, k: nat, db: Db)
    requires k < |group.conds|
  {
    CondFails(group.conds[k], db) && forall j :: 0 <= j < k ==> !CondErrs(group.conds[j], db)
  }

  /** A group raises an error exactly when one of its conditions does and none before it is known to be
      false. */
  lemma {:induction false} GroupOutcome(group: Conjunction, n: nat, db: Db)
    requires n <= |group.conds|
    ensures FlattenGroup(group, n, db).Broken? <==> exists k :: 0 <= k < n && ErrsAt(group, k, db)
    ensures FlattenGroup(group, n, db).Failed? <==> exists k :: 0 <= k < n && FailsAt(group, k, db)
    ensures FlattenGroup(group, n, db).Flat? <==> forall k :: 0 <= k < n ==> !CondErrs(group.conds[k], db) && !CondFails(group.conds[k], db)
  {
    hide CondErrs, CondFails, FlattenCond, FlattenGroup;
    GroupStep(group, n, db);
    if n > 0 {
      var m := n - 1;
      GroupOutcome(group, m, db);
      CondOutcome(group.conds[m], db);
      NotBoth(group.conds[m], db);
      if FlattenGroup(group, m, db).Broken? {
        var k :| 0 <= k < m && ErrsAt(group, k, db);
        assert !FailsAt(group, m, db);
      } else if FlattenGroup(group, m, db).Failed? {
        var k :| 0 <= k < m && FailsAt(group, k, db);
        assert !ErrsAt(group, m, db);
      } else if CondErrs(group.conds[m], db) {
        assert ErrsAt(group, m, db);
      } else if CondFails(group.conds[m], db) {
        assert FailsAt(group, m, db);
      }
    }
  }

  lemma {:induction false} GroupStep(group: Conjunction, n: nat, db: Db)
    requires n <= |group.conds|
    ensures n == 0 ==> FlattenGroup(group, n, db).Flat?
    ensures n > 0 ==>
      var before, step, r := FlattenGroup(group, n - 1, db), FlattenCond(group.conds[n - 1], db), FlattenGroup(group, n, db);
      && (r.Broken? <==> before.Broken? || (before.Flat? && step.Error?))
      && (r.Failed? <==> before.Failed? || (before.Flat? && step.Fail?))
  {
    hide FlattenCond;
  }

  lemma {:induction false} NotBoth(c: Cond, db: Db)
    ensures !(CondErrs(c, db) && CondFails(c, db))
  {
  }

  ghost predicate ClauseErrs(wc: Clause, db: Db) {
    wc.AnyOf? && exists g :: 0 <= g < |wc.groups| && FlattenGroup(wc.groups[g], |wc.groups[g].conds|, db).Broken?
  }

  lemma {:induction false} GroupsOutcome(groups: seq<Conjunction>, n: nat, db: Db)
    requires n <= |groups|
    ensures FlattenGroups(groups, n, db).Err? <==> exists g :: 0 <= g < n && FlattenGroup(groups[g], |groups[g].conds|, db).Broken?
  {
    if n > 0 {
      GroupsOutcome(groups, n - 1, db);
    }
  }

  /** The name of a resolved HAVING condition is no output name. */
  ghost predicate Unknown(idx: map<string, nat>, c: Condition) {
    !c.AlwaysFalse? && Lower(c.col) !in idx
  }

  ghost predicate Says(row: Row, idx: map<string, nat>, c: Condition) {
    !c.AlwaysFalse? && Lower(c.col) in idx && Test(c, At(row, idx[Lower(c.col)]))
  }

  /** The group reaches a condition whose name is unknown. */
  ghost predicate GroupTrips(row: Row, idx: map<string, nat>, conds: seq<Condition>, n: nat)
    requires n <= |conds|
  {
    exists k :: 0 <= k < n && Unknown(idx, conds[k]) && forall j :: 0 <= j < k ==> Says(row, idx, conds[j])
  }

  ghost predicate GroupHolds(row: Row, idx: map<string, nat>, conds: seq<Condition>, n: nat)
    requires n <= |conds|
  {
    forall k :: 0 <= k < n ==> Says(row, idx, conds[k])
  }

  lemma {:induction false} HavingGroupOutcome(row: Row, idx: map<string, nat>, conds: seq<Condition>, n: nat)
    requires n <= |conds|
    ensures HavingGroup(row, idx, conds, n).Err? <==> GroupTrips(row, idx, conds, n)
    ensures HavingGroup(row, idx, conds, n) == Ok(true) <==> GroupHolds(row, idx, conds, n)
  {
    hide Test;
    if n > 0 {
      HavingGroupOutcome(row, idx, conds, n - 1);
    }
  }

  /** A row trips over a group when no group before it holds. */
  ghost predicate RowTrips(row: Row, idx: map<string, nat>, groups: seq<seq<Condition>>, n: nat)
    requires n <= |groups|
  {
    exists g :: 0 <= g < n && GroupTrips(row, idx, groups[g], |groups[g]|)
      && forall h :: 0 <= h < g ==> !GroupHolds(row, idx, groups[h], |groups[h]|)
  }

  lemma {:induction false} HavingRowOutcome(row: Row, idx: map<string, nat>, groups: seq<seq<Condition>>, n: nat)
    requires n <= |groups|
    ensures HavingMatches(row, idx, groups, n).Err? <==> RowTrips(row, idx, groups, n)
    ensures HavingMatches(row, idx, groups, n) == Ok(true) ==> exists g :: 0 <= g < n && GroupHolds(row, idx, groups[g], |groups[g]|)
    ensures HavingMatches(row, idx, groups, n) == Ok(false) ==> forall g :: 0 <= g < n ==> !GroupHolds(row, idx, groups[g], |groups[g]|)
  {
    hide GroupTrips, GroupHolds, HavingGroup;
    if n > 0 {
      HavingRowOutcome(row, idx, groups, n - 1);
      HavingGroupOutcome(row, idx, groups[n - 1], |groups[n - 1]|);
    }
  }

  lemma {:induction false} HavingOutcome(rows: seq<Row>, idx: map<string, nat>, groups: seq<seq<Condition>>)
    ensures HavingRows(rows, idx, groups).Err? <==> exists i :: 0 <= i < |rows| && RowTrips(rows[i], idx, groups, |groups|)
  {
    hide RowTrips, HavingMatches;
    if rows != [] {
      var init := rows[..|rows| - 1];
      HavingOutcome(init, idx, groups);
      HavingRowOutcome(rows[|rows| - 1], idx, groups, |groups|);
      assert forall i :: 0 <= i < |init| ==> init[i] == rows[i];
    }
  }

  /** The select list or GROUP BY names a column the table does not have; an aggregate's names matter once
      there is a group to compute. */
  ghost predicate NamesErr(columns: seq<Expr>, groupBy: seq<string>, tbl: Table, kept: seq<Row>) {
    if groupBy == [] && forall i :: 0 <= i < |columns| ==> columns[i].Col?
    then !(|columns| == 1 && columns[0].name == "*") && exists i :: 0 <= i < |columns| && tbl.ColIndex(columns[i].name).None?
    else
      || (exists i :: 0 <= i < |groupBy| && tbl.ColIndex(groupBy[i]).None?)
      || ((kept != [] || groupBy == []) && exists i :: 0 <= i < |columns| && !CountsRows(columns[i]) && tbl.ColIndex(columns[i].name).None?)
  }

  lemma {:induction false} RawIdxHas(tbl: Table, name: string)
    ensures Lower(name) in RawIdx(tbl.columns) <==> tbl.ColIndex(name).Some?
  {
    if Lower(name) in RawIdx(tbl.columns) {
      assert SameName(tbl.columns[RawIdx(tbl.columns)[Lower(name)]].name, name);
    }
  }

  lemma {:induction false} NamesOutcome(columns: seq<Expr>, groupBy: seq<string>, tbl: Table, kept: seq<Row>)
    requires WideAs(kept, |tbl.columns|)
    ensures OutRows(columns, groupBy, tbl, kept).Err? <==> NamesErr(columns, groupBy, tbl, kept)
  {
    hide GroupRow, RawIdx, PickAll;
    if !SelectHasAgg(columns, groupBy) {
      var cols := Names(columns);
      if |columns| == 1 {
        assert cols == [columns[0].name];
      }
      PlainNames(tbl, columns);
    } else {
      forall i | 0 <= i < |groupBy| ensures Lower(groupBy[i]) in RawIdx(tbl.columns) <==> tbl.ColIndex(groupBy[i]).Some? {
        RawIdxHas(tbl, groupBy[i]);
      }
      forall i | 0 <= i < |columns| ensures Lower(columns[i].name) in RawIdx(tbl.columns) <==> tbl.ColIndex(columns[i].name).Some? {
        RawIdxHas(tbl, columns[i].name);
      }
      if GroupsKnown(groupBy, RawIdx(tbl.columns)) {
        NoneIffEmpty(kept, KeysOf(kept, GroupIdxs(groupBy, RawIdx(tbl.columns))));
      }
    }
  }

  lemma {:induction false} PlainNames(tbl: Table, columns: seq<Expr>)
    ensures P.ResolveColumns(tbl, Names(columns)).Err? <==> Names(columns) != ["*"] && exists i :: 0 <= i < |columns| && tbl.ColIndex(columns[i].name).None?
  {
    var cols := Names(columns);
    assert forall i :: 0 <= i < |columns| ==> cols[i] == columns[i].name;
  }

  ghost predicate HavingTrips(out: Result<seq<Row>>, idx: map<string, nat>, groups: seq<seq<Condition>>) {
    out.Ok? && exists i :: 0 <= i < |out.value| && RowTrips(out.value[i], idx, groups, |groups|)
  }

  /** Once its subqueries are answered: the table is missing, a name is, or a group row meets a HAVING
      condition with an unknown name. */
  ghost predicate StatementErrs(q: Select, db: Db, where: Option<seq<seq<Condition>>>, having: Option<seq<seq<Condition>>>) {
    q.from !in db ||
    var tbl, kept := db[q.from].tbl, Kept(q, db[q.from], where);
    || NamesErr(q.columns, q.groupBy, tbl, kept)
    || (SelectHasAgg(q.columns, q.groupBy) && having.Some? && HavingTrips(OutRows(q.columns, q.groupBy, tbl, kept), OutIdx(q.columns), having.value))
  }

  /** A statement fails exactly when a subquery does, or for its own names. */
  lemma {:induction false} FailsIff(q: Select, db: Db)
    ensures ClauseErrs(q.where, db) || ClauseErrs(q.having, db) ==> ExecFlattened(q, false, db).Err?
    ensures !(ClauseErrs(q.where, db) || ClauseErrs(q.having, db)) ==>
      && FlattenWhere(q.where, db).Ok? && FlattenWhere(q.having, db).Ok?
      && (ExecFlattened(q, false, db).Err? <==> StatementErrs(q, db, FlattenWhere(q.where, db).value, FlattenWhere(q.having, db).value))
  {
    hide Kept, NamesErr, OutRows, HavingRows, RowTrips, OutIdx, ClauseErrs, FlattenWhere;
    ClauseOutcome(q.where, db);
    ClauseOutcome(q.having, db);
    if FlattenWhere(q.where, db).Ok? && FlattenWhere(q.having, db).Ok? && q.from in db {
      var kept := Kept(q, db[q.from], FlattenWhere(q.where, db).value);
      NamesOutcome(q.columns, q.groupBy, db[q.from].tbl, kept);
      var out := OutRows(q.columns, q.groupBy, db[q.from].tbl, kept);
      if out.Ok? && FlattenWhere(q.having, db).value.Some? {
        HavingOutcome(out.value, OutIdx(q.columns), FlattenWhere(q.having, db).value.value);
      }
    }
  }

  lemma {:induction false} ClauseOutcome(wc: Clause, db: Db)
    ensures FlattenWhere(wc, db).Err? <==> ClauseErrs(wc, db)
  {
    hide FlattenGroup;
    if wc.AnyOf? {
      GroupsOutcome(wc.groups, |wc.groups|, db);
    }
  }

  // ---------------------------------------------------------------- planned statements

  lemma {:induction false} SelectedIsFilter(cells: seq<Operators.Cell>, tbl: Table, snap: Snapshot, where: Option<seq<seq<Condition>>>)
    ensures Operators.Selected(cells, tbl, snap, where) ==
      Filter(Operators.ScanRows(cells, 0, MAX_WORD, snap), row => |row| == |tbl.columns| && Matches(tbl, row, where))
  {
    hide Matches;
    if cells != [] {
      var init, c := cells[..|cells| - 1], cells[|cells| - 1];
      SelectedIsFilter(init, tbl, snap, where);
      var rows := Operators.ScanRows(init, 0, MAX_WORD, snap);
      assert rows + [] == rows && (rows + [c.row])[..|rows|] == rows && (rows + [c.row])[|rows|] == c.row;
    }
  }

  /** The rows a planned statement works on are the rows its clause keeps, in the order of the plan:
      for any choice of access paths, planning the statement is choosing such an order. */
  lemma {:induction false} PlanIsAnOrder(tbl: Table, db: string -> Operators.Data, snap: Snapshot, where: Option<seq<seq<Condition>>>,
                                         choices: seq<Option<nat>>, q: Select, order: (Select, seq<Row>) -> seq<Row>)
    requires tbl.WellFormed() && Operators.Stored(tbl, db(Lower(tbl.name)).cells) && Operators.CoversAll(tbl, db(Lower(tbl.name)), snap)
    requires P.ChoicesFit(tbl, where, choices) && Operators.NoKeyJoin(tbl, where)
    ensures P.PlanRows(tbl, where, choices).Ok?
    ensures var src := Source(tbl, Operators.ScanRows(db(Lower(tbl.name)).cells, 0, MAX_WORD, snap), order);
      var rows := Operators.Exec(P.PlanRows(tbl, where, choices).value, db, snap);
      order(q, Operators.Selected(db(Lower(tbl.name)).cells, tbl, snap, where)) == rows ==> Kept(q, src, where) == rows
  {
    hide Operators.Exec, Operators.Selected, Operators.ScanRows, P.PlanRows, Matches, Filter;
    Operators.SelectIsScanVisible(tbl, db, snap, where, choices);
    SelectedIsFilter(db(Lower(tbl.name)).cells, tbl, snap, where);
  }
}
