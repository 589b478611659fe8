/** Physical plans for one table: which part of a WHERE clause becomes key bounds, which an index
    lookup, which stays a filter. */
module Planners {
  import opened Queries

  datatype Plan =
    | IndexScan(tbl: Table, min: Word, max: Word)
    | IndexLookup(tbl: Table, def: IndexDef, min: Word, max: Word)
    | Filter(child: Plan, preds: seq<Condition>)
    | Union(children: seq<Plan>, pk: nat)
    | Limit(child: Plan, n: nat)
    | Project(child: Plan, idxs: seq<nat>)
    | NestedLoopJoin(left: Plan, right: Plan, on: seq<Condition>, leftSchema: seq<string>, rightSchema: seq<string>)

  function Max(a: Word, b: Word): Word {
    if a > b then a else b
  }

  function Min(a: Word, b: Word): Word {
    if a < b then a else b
  }

  // ---------------------------------------------------------------- key ranges

  /** The keys a comparison with `v` admits, as inclusive bounds; (1, 0) is the empty range. */
  function CondToRange(op: CompareOp, v: Word): (r: (Word, Word))
    ensures forall x: Word :: r.0 <= x <= r.1 <==> CompareVals(Int(x), Int(v), op)
  {
    match op
    case Eq => (v, v)
    case Gt => if v < MAX_WORD then (v + 1, MAX_WORD) else (1, 0)
    case Gte => (v, MAX_WORD)
    case Lt => if v > 0 then (0, v - 1) else (1, 0)
    case Lte => (0, v)
  }

  datatype Bounds = Bounds(min: Word, max: Word, post: seq<Condition>)

  /** The comparison a condition on the primary key is taken for.  A column-to-column condition is
      not told apart: its unused value field is the integer zero. */
  function KeyOperand(tbl: Table, c: Condition): Option<Word>
    requires tbl.PrimaryKey().Some?
  {
    var pk := tbl.columns[tbl.PrimaryKey().value].name;
    match c
    case Compare(col, _, Int(v)) => if SameName(col, pk) then Some(v) else None
    case ColCompare(col, _, _) => if SameName(col, pk) then Some(0) else None
    case _ => None
  }

  function Narrow(min: Word, max: Word, op: CompareOp, v: Word): (Word, Word) {
    match op
    case Eq => (Max(min, v), Min(max, v))
    case Gt => if v < MAX_WORD then (Max(min, v + 1), max) else (1, 0)
    case Gte => (Max(min, v), max)
    case Lt => if v > 0 then (min, Min(max, v - 1)) else (1, 0)
    case Lte => (min, Min(max, v))
  }

  function Classify(tbl: Table, conds: seq<Condition>): Bounds {
    if tbl.PrimaryKey().None? then Bounds(0, MAX_WORD, conds)
    else if conds == [] then Bounds(0, MAX_WORD, [])
    else
      var b, c := Classify(tbl, conds[..|conds| - 1]), conds[|conds| - 1];
      match KeyOperand(tbl, c)
      case None => b.(post := b.post + [c])
      case Some(v) => var (min, max) := Narrow(b.min, b.max, c.op, v); Bounds(min, max, b.post)
  }

  lemma {:induction false} NarrowMeaning(min: Word, max: Word, op: CompareOp, v: Word, x: Word)
    ensures var (lo, hi) := Narrow(min, max, op, v); lo <= x <= hi <==> min <= x <= max && CompareVals(Int(x), Int(v), op)
  {
  }

  /** The bounds and the remaining filter, computed condition by condition. */
  method ClassifyGroup(tbl: Table, conds: seq<Condition>) returns (b: Bounds)
    ensures b == Classify(tbl, conds)
  {
    var min, max, post := 0, MAX_WORD, [];
    if tbl.PrimaryKey().None? {
      return Bounds(min, max, conds);
    }
    for i := 0 to |conds|
      invariant Bounds(min, max, post) == Classify(tbl, conds[..i])
    {
      var c := conds[i];
      assert conds[..i + 1][..i] == conds[..i];
      var operand := KeyOperand(tbl, c);
      if operand.None? {
        post := post + [c];
        continue;
      }
      var v := operand.value;
      match c.op {
        case Eq => min, max := Max(min, v), Min(max, v);
        case Gt => if v < MAX_WORD { min := Max(min, v + 1); } else { min, max := 1, 0; }
        case Gte => min := Max(min, v);
        case Lt => if v > 0 { max := Min(max, v - 1); } else { min, max := 1, 0; }
        case Lte => max := Min(max, v);
      }
    }
    assert conds[..|conds|] == conds;
    return Bounds(min, max, post);
  }

  /** A column-to-column condition on the primary key is read as a comparison of the key with 0. */
  predicate ReadsAsZero(tbl: Table, c: Condition)
    requires tbl.PrimaryKey().Some?
  {
    c.ColCompare? && SameName(c.col, tbl.columns[tbl.PrimaryKey().value].name)
  }

  predicate Misread(tbl: Table, key: Word, conds: seq<Condition>)
    requires tbl.PrimaryKey().Some?
  {
    exists i :: 0 <= i < |conds| && ReadsAsZero(tbl, conds[i]) && !CompareVals(Int(key), Int(0), conds[i].op)
  }

  lemma {:induction false} KeyColumn(tbl: Table, col: string)
    requires tbl.WellFormed() && SameName(col, tbl.columns[tbl.PrimaryKey().value].name)
    ensures tbl.ColIndex(col) == tbl.PrimaryKey()
  {
    var pk := tbl.PrimaryKey().value;
    assert SameName(tbl.columns[pk].name, col);
    var i := tbl.ColIndex(col).value;
    assert SameName(tbl.columns[i].name, tbl.columns[pk].name);
  }

  lemma {:induction false} AcceptsSnoc(tbl: Table, row: Row, preds: seq<Condition>, c: Condition)
    requires |row| == |tbl.columns|
    ensures AcceptsAll(tbl, row, preds + [c]) <==> AcceptsAll(tbl, row, preds) && Accepts(tbl, row, c)
  {
    assert (preds + [c])[|preds|] == c;
    assert forall i :: 0 <= i < |preds| ==> (preds + [c])[i] == preds[i];
  }

  /** Bounds and filter together accept exactly the rows the conditions accept, except those whose
      key fails the comparison with 0 that a column-to-column condition was taken for. */
  lemma {:induction false} ClassifyMeaning(tbl: Table, conds: seq<Condition>, row: Row)
    requires tbl.WellFormed() && tbl.Fits(row)
    ensures var b := Classify(tbl, conds);
      (b.min <= tbl.KeyOf(row) <= b.max && AcceptsAll(tbl, row, b.post)) <==>
      (AcceptsAll(tbl, row, conds) && !Misread(tbl, tbl.KeyOf(row), conds))
  {
    if conds != [] {
      var init, c := conds[..|conds| - 1], conds[|conds| - 1];
      assert conds == init + [c];
      ClassifyMeaning(tbl, init, row);
      AcceptsSnoc(tbl, row, init, c);
      MisreadSnoc(tbl, tbl.KeyOf(row), init, c);
      var b := Classify(tbl, init);
      var operand := KeyOperand(tbl, c);
      if operand.None? {
        AcceptsSnoc(tbl, row, b.post, c);
      } else {
        KeyColumn(tbl, c.col);
        NarrowMeaning(b.min, b.max, c.op, operand.value, tbl.KeyOf(row));
      }
    }
  }

  lemma {:induction false} MisreadSnoc(tbl: Table, key: Word, conds: seq<Condition>, c: Condition)
    requires tbl.PrimaryKey().Some?
    ensures Misread(tbl, key, conds + [c]) <==>
      Misread(tbl, key, conds) || (ReadsAsZero(tbl, c) && !CompareVals(Int(key), Int(0), c.op))
  {
    var all := conds + [c];
    assert all[|conds|] == c && forall i :: 0 <= i < |conds| ==> all[i] == conds[i];
    if Misread(tbl, key, conds) {
      var i :| 0 <= i < |conds| && ReadsAsZero(tbl, conds[i]) && !CompareVals(Int(key), Int(0), conds[i].op);
      assert ReadsAsZero(tbl, all[i]);
    }
  }

  /** Scan and filter together decide this row as the conditions do. */
  predicate PlannedRight(tbl: Table, conds: seq<Condition>, row: Row)
    requires tbl.PrimaryKey().Some? && tbl.Fits(row)
  {
    var b := Classify(tbl, conds);
    (b.min <= tbl.KeyOf(row) <= b.max && AcceptsAll(tbl, row, b.post)) <==> AcceptsAll(tbl, row, conds)
  }

  /** A lone column-to-column condition on the key, which accepts every row, is planned right for
      every row exactly when it is written with >=. */
  lemma {:induction false} LoneJoinCondition(tbl: Table, op: CompareOp, rhs: string, other: Row)
    requires tbl.WellFormed() && tbl.Fits(other)
    ensures var c := ColCompare(tbl.columns[tbl.PrimaryKey().value].name, op, rhs);
      (forall row :: tbl.Fits(row) ==> PlannedRight(tbl, [c], row)) <==> op == Gte
  {
    var pk := tbl.PrimaryKey().value;
    var c := ColCompare(tbl.columns[pk].name, op, rhs);
    var zero, one := other[pk := Int(0)], other[pk := Int(1)];
    assert tbl.Fits(zero) && tbl.Fits(one) && tbl.KeyOf(zero) == 0 && tbl.KeyOf(one) == 1;
    forall row | tbl.Fits(row) ensures PlannedRight(tbl, [c], row) <==> CompareVals(Int(tbl.KeyOf(row)), Int(0), op) {
      ClassifyMeaning(tbl, [c], row);
      assert [c] == [] + [c];
      MisreadSnoc(tbl, tbl.KeyOf(row), [], c);
      assert AcceptsAll(tbl, row, [c]);
    }
    assert op != Gte ==> !CompareVals(Int(0), Int(0), op) || !CompareVals(Int(1), Int(0), op);
  }

  // ---------------------------------------------------------------- choosing an access path

  /** A comparison with an integer on an indexed column. */
  predicate Eligible(tbl: Table, conds: seq<Condition>, i: nat) {
    i < |conds| && conds[i].Compare? && conds[i].val.Int? && tbl.IndexForColumn(conds[i].col).Some?
  }

  function WithoutIdx(conds: seq<Condition>, i: nat): seq<Condition>
    requires i < |conds|
  {
    conds[..i] + conds[i + 1..]
  }

  function Filtered(child: Plan, preds: seq<Condition>): Plan {
    if preds == [] then child else Filter(child, preds)
  }

  /** The plan of one AND group when the condition at `choice` drives an index lookup. */
  function PlanGroup(tbl: Table, conds: seq<Condition>, choice: Option<nat>): Plan
    requires choice.Some? ==> Eligible(tbl, conds, choice.value)
  {
    match choice
    case Some(i) =>
      var (min, max) := CondToRange(conds[i].op, conds[i].val.n);
      Filtered(IndexLookup(tbl, tbl.IndexForColumn(conds[i].col).value, min, max), WithoutIdx(conds, i))
    case None =>
      var b := Classify(tbl, conds);
      Filtered(IndexScan(tbl, b.min, b.max), b.post)
  }

  /** Without statistics the first eligible condition wins. */
  method RuleBasedChoice(tbl: Table, conds: seq<Condition>) returns (choice: Option<nat>)
    ensures choice.Some? ==> Eligible(tbl, conds, choice.value)
    ensures choice.Some? ==> forall j: nat :: j < choice.value ==> !Eligible(tbl, conds, j)
    ensures choice.None? ==> forall j: nat :: !Eligible(tbl, conds, j)
  {
    for i := 0 to |conds|
      invariant forall j: nat :: j < i ==> !Eligible(tbl, conds, j)
    {
      if Eligible(tbl, conds, i) {
        return Some(i);
      }
    }
    return None;
  }

  /** With statistics the cheapest eligible condition wins, if it beats the full scan. */
  method CostBasedChoice(tbl: Table, conds: seq<Condition>, fullScan: real, costs: seq<real>) returns (choice: Option<nat>)
    requires |costs| == |conds|
    ensures choice.Some? ==> Eligible(tbl, conds, choice.value) && costs[choice.value] < fullScan
    ensures forall j: nat :: Eligible(tbl, conds, j) ==>
      (if choice.Some? then costs[choice.value] else fullScan) <= costs[j]
  {
    var best := fullScan;
    choice := None;
    for i := 0 to |conds|
      invariant choice.Some? ==> choice.value < i && Eligible(tbl, conds, choice.value) && best == costs[choice.value] < fullScan
      invariant choice.None? ==> best == fullScan
      invariant forall j: nat :: j < i && Eligible(tbl, conds, j) ==> best <= costs[j]
    {
      if Eligible(tbl, conds, i) && costs[i] < best {
        best, choice := costs[i], Some(i);
      }
    }
  }

  // ---------------------------------------------------------------- one table

  /** One choice of access path per AND group. */
  ghost predicate ChoicesFit(tbl: Table, where: Option<seq<seq<Condition>>>, choices: seq<Option<nat>>) {
    where.Some? ==> (
      && |choices| == |where.value|
      && forall g :: 0 <= g < |choices| && choices[g].Some? ==> Eligible(tbl, where.value[g], choices[g].value))
  }

  function Branches(tbl: Table, groups: seq<seq<Condition>>, choices: seq<Option<nat>>): (r: seq<Plan>)
    requires |choices| == |groups|
    requires forall g :: 0 <= g < |choices| && choices[g].Some? ==> Eligible(tbl, groups[g], choices[g].value)
    ensures |r| == |groups|
    ensures forall g :: 0 <= g < |r| ==> r[g] == PlanGroup(tbl, groups[g], choices[g])
  {
    seq(|groups|, g requires 0 <= g < |groups| => PlanGroup(tbl, groups[g], choices[g]))
  }

  /** The plan below the projection; several branches need a primary key to merge on. */
  function PlanRows(tbl: Table, where: Option<seq<seq<Condition>>>, choices: seq<Option<nat>>): Result<Plan>
    requires ChoicesFit(tbl, where, choices)
  {
    if where.None? then Ok(IndexScan(tbl, 0, MAX_WORD)) else
    var branches := Branches(tbl, where.value, choices);
    if |branches| == 1 then Ok(branches[0])
    else match tbl.PrimaryKey()
      case None => Err
      case Some(pk) => Ok(Union(branches, pk))
  }

  /** Resolves a select list against one table: every column for "*", else by name. */
  function ResolveColumns(tbl: Table, cols: seq<string>): (r: Result<seq<nat>>)
    ensures r.Ok? ==> forall i :: 0 <= i < |r.value| ==> r.value[i] < |tbl.columns|
    ensures r.Ok? && cols != ["*"] ==> |r.value| == |cols|
    ensures r.Ok? && cols != ["*"] ==> forall i :: 0 <= i < |cols| ==> SameName(tbl.columns[r.value[i]].name, cols[i])
    ensures r.Err? ==> exists i :: 0 <= i < |cols| && tbl.ColIndex(cols[i]).None?
  {
    if cols == ["*"] then Ok(seq(|tbl.columns|, i => i))
    else if forall i :: 0 <= i < |cols| ==> tbl.ColIndex(cols[i]).Some? then
      Ok(seq(|cols|, i requires 0 <= i < |cols| => tbl.ColIndex(cols[i]).value))
    else Err
  }

  /** The row r shows the chosen columns of a table row: every column for "*", else one per name. */
  ghost predicate Shows(tbl: Table, cols: seq<string>, row: Row, r: Row)
    requires |row| == |tbl.columns|
  {
    if cols == ["*"] then r == row else
    && |r| == |cols|
    && forall j, c :: 0 <= j < |cols| && 0 <= c < |row| && SameName(tbl.columns[c].name, cols[j]) ==> r[j] == row[c]
  }

  /** Every projected row shows what was asked for. */
  lemma {:induction false} Projected(tbl: Table, cols: seq<string>, row: Row)
    requires tbl.WellFormed() && |row| == |tbl.columns| && ResolveColumns(tbl, cols).Ok?
    ensures Shows(tbl, cols, row, Pick(row, ResolveColumns(tbl, cols).value))
    ensures cols != ["*"] ==> forall j :: 0 <= j < |cols| ==> tbl.ColIndex(cols[j]).Some?
  {
    var idxs := ResolveColumns(tbl, cols).value;
    if cols != ["*"] {
      forall j, c | 0 <= j < |cols| && 0 <= c < |row| && SameName(tbl.columns[c].name, cols[j]) ensures Pick(row, idxs)[j] == row[c] {
        assert SameName(tbl.columns[idxs[j]].name, tbl.columns[c].name);
        assert idxs[j] == c;
      }
    }
  }

  function PlanSingleTable(tbl: Table, cols: seq<string>, where: Option<seq<seq<Condition>>>, limit: nat,
                           choices: seq<Option<nat>>): Result<Plan>
    requires ChoicesFit(tbl, where, choices)
  {
    match ResolveColumns(tbl, cols)
    case Err => Err
    case Ok(idxs) =>
      match PlanRows(tbl, where, choices)
      case Err => Err
      case Ok(root) => Ok(Project(if limit > 0 then Limit(root, limit) else root, idxs))
  }
}
