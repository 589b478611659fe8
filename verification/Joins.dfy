/** Planning over several tables: filters pushed to their tables, join conditions attached to the
    first join that connects their sides, tables joined left-deep in FROM order. */
module Joins {
  import opened Seqs
  import opened Queries
  import opened Planners
  import opened JoinEval

  /** A table of the query under the name it is referred to by. */
  datatype Source = Source(tbl: Table, qualifier: string)

  // ---------------------------------------------------------------- names

  function FirstDot(s: string): (r: Option<nat>)
    ensures r.Some? ==> r.value < |s| && s[r.value] == '.' && '.' !in s[..r.value]
    ensures r.None? ==> '.' !in s
  {
    if s == [] then None
    else if s[0] == '.' then Some(0)
    else
      var r := FirstDot(s[1..]);
      assert s == [s[0]] + s[1..];
      assert r.Some? ==> s[..r.value + 1] == [s[0]] + s[1..][..r.value];
      match r case None => None case Some(d) => Some(d + 1)
  }

  function BareCol(col: string): string {
    match FirstDot(col) case None => col case Some(d) => col[d + 1..]
  }

  function Qualified(src: Source, i: nat): string
    requires i < |src.tbl.columns|
  {
    src.qualifier + "." + src.tbl.columns[i].name
  }

  function Schema(src: Source): (r: seq<string>)
    ensures |r| == |src.tbl.columns|
    ensures forall i :: 0 <= i < |r| ==> r[i] == Qualified(src, i)
  {
    seq(|src.tbl.columns|, i requires 0 <= i < |src.tbl.columns| => Qualified(src, i))
  }

  /** The columns of the first `k` tables, in order. */
  function LeftSchema(srcs: seq<Source>, k: nat): (r: seq<string>)
    requires k <= |srcs|
  {
    if k == 0 then [] else LeftSchema(srcs, k - 1) + Schema(srcs[k - 1])
  }

  function Offset(srcs: seq<Source>, k: nat): nat
    requires k <= |srcs|
  {
    |LeftSchema(srcs, k)|
  }

  /** A schema name is referred to by itself or by its part after the last dot. */
  predicate Names(s: string, name: string) {
    SameName(s, name) || (Suffix(s).Some? && SameName(Suffix(s).value, name))
  }

  predicate ColInSchema(name: string, schema: seq<string>) {
    exists i :: 0 <= i < |schema| && Names(schema[i], name)
  }

  /** The condition links a column of the left schema with one of the right, either way round. */
  predicate CondConnects(c: Condition, left: seq<string>, right: seq<string>) {
    c.ColCompare? && ((ColInSchema(c.col, left) && ColInSchema(c.rhs, right)) || (ColInSchema(c.col, right) && ColInSchema(c.rhs, left)))
  }

  // ---------------------------------------------------------------- the plan

  /** Which table a filter belongs to: by qualifier, or the only table with that column. */
  function FindTable(col: string, srcs: seq<Source>): (r: Option<nat>)
    ensures r.Some? ==> r.value < |srcs|
  {
    match FirstDot(col)
    case Some(d) => FirstQualified(col[..d], srcs)
    case None =>
      if exists i, j :: 0 <= i < j < |srcs| && srcs[i].tbl.ColIndex(col).Some? && srcs[j].tbl.ColIndex(col).Some? then None
      else FirstWithColumn(col, srcs)
  }

  function FirstQualified(q: string, srcs: seq<Source>): (r: Option<nat>)
    ensures r.Some? ==> r.value < |srcs| && SameName(srcs[r.value].qualifier, q)
    ensures r.None? ==> forall i :: 0 <= i < |srcs| ==> !SameName(srcs[i].qualifier, q)
  {
    if srcs == [] then None else
    var r := FirstQualified(q, srcs[..|srcs| - 1]);
    if r.Some? then r else if SameName(srcs[|srcs| - 1].qualifier, q) then Some(|srcs| - 1) else None
  }

  function FirstWithColumn(col: string, srcs: seq<Source>): (r: Option<nat>)
    ensures r.Some? ==> r.value < |srcs| && srcs[r.value].tbl.ColIndex(col).Some?
    ensures r.None? ==> forall i :: 0 <= i < |srcs| ==> srcs[i].tbl.ColIndex(col).None?
  {
    if srcs == [] then None else
    var r := FirstWithColumn(col, srcs[..|srcs| - 1]);
    if r.Some? then r else if srcs[|srcs| - 1].tbl.ColIndex(col).Some? then Some(|srcs| - 1) else None
  }

  /** The condition with its qualifier stripped. */
  function Stripped(c: Condition): Condition {
    match c
    case Compare(col, op, val) => Compare(BareCol(col), op, val)
    case InList(col, list, negated) => InList(BareCol(col), list, negated)
    case _ => c
  }

  function ColumnOf(c: Condition): string {
    if c.AlwaysFalse? then "" else c.col
  }

  function JoinConds(conds: seq<Condition>): seq<Condition> {
    if conds == [] then [] else
    JoinConds(conds[..|conds| - 1]) + if conds[|conds| - 1].ColCompare? then [conds[|conds| - 1]] else []
  }

  /** The filters pushed to table `i`. */
  function PushedTo(conds: seq<Condition>, srcs: seq<Source>, i: nat): seq<Condition> {
    if conds == [] then [] else
    var c := conds[|conds| - 1];
    PushedTo(conds[..|conds| - 1], srcs, i)
      + if !c.ColCompare? && FindTable(ColumnOf(c), srcs) == Some(i) then [Stripped(c)] else []
  }

  predicate AllFound(conds: seq<Condition>, srcs: seq<Source>) {
    forall i :: 0 <= i < |conds| && !conds[i].ColCompare? ==> FindTable(ColumnOf(conds[i]), srcs).Some?
  }

  /** The conditions not yet attached when table `k` is joined. */
  function Remaining(conds: seq<Condition>, srcs: seq<Source>, k: nat): seq<Condition>
    requires k <= |srcs|
  {
    if k <= 1 then conds else Unconnected(Remaining(conds, srcs, k - 1), LeftSchema(srcs, k - 1), Schema(srcs[k - 1]))
  }

  function Connected(conds: seq<Condition>, left: seq<string>, right: seq<string>): seq<Condition> {
    if conds == [] then [] else
    Connected(conds[..|conds| - 1], left, right) + if CondConnects(conds[|conds| - 1], left, right) then [conds[|conds| - 1]] else []
  }

  function Unconnected(conds: seq<Condition>, left: seq<string>, right: seq<string>): seq<Condition> {
    if conds == [] then [] else
    Unconnected(conds[..|conds| - 1], left, right) + if CondConnects(conds[|conds| - 1], left, right) then [] else [conds[|conds| - 1]]
  }

  /** The left-deep tree over the first `k` tables. */
  function Tree(leaves: seq<Plan>, srcs: seq<Source>, conds: seq<Condition>, k: nat): Plan
    requires 1 <= k <= |srcs| == |leaves|
  {
    if k == 1 then leaves[0] else
    var left, right := LeftSchema(srcs, k - 1), Schema(srcs[k - 1]);
    NestedLoopJoin(Tree(leaves, srcs, conds, k - 1), leaves[k - 1],
      Connected(Remaining(conds, srcs, k - 1), left, right), left, right)
  }

  ghost predicate ChoicesFor(conds: seq<Condition>, srcs: seq<Source>, choices: seq<Option<nat>>) {
    |choices| == |srcs| && forall i :: 0 <= i < |srcs| && choices[i].Some? ==> Eligible(srcs[i].tbl, PushedTo(conds, srcs, i), choices[i].value)
  }

  function Leaves(conds: seq<Condition>, srcs: seq<Source>, choices: seq<Option<nat>>): (r: seq<Plan>)
    requires ChoicesFor(conds, srcs, choices)
    ensures |r| == |srcs|
    ensures forall i :: 0 <= i < |srcs| ==> r[i] == PlanGroup(srcs[i].tbl, PushedTo(conds, srcs, i), choices[i])
  {
    seq(|srcs|, i requires 0 <= i < |srcs| => PlanGroup(srcs[i].tbl, PushedTo(conds, srcs, i), choices[i]))
  }

  /** The conjunction a multi-table WHERE clause stands for; OR is refused. */
  function Conjunction(where: Option<seq<seq<Condition>>>): Result<seq<Condition>>
    requires where.Some? ==> |where.value| >= 1
  {
    if where.None? then Ok([]) else if |where.value| > 1 then Err else Ok(where.value[0])
  }

  /** The join tree of a query, or an error for OR and for filters no single table owns. */
  function PlanMulti(srcs: seq<Source>, where: Option<seq<seq<Condition>>>, ons: seq<Condition>, choices: seq<Option<nat>>): Result<Plan>
    requires |srcs| >= 1 && (where.Some? ==> |where.value| >= 1)
    requires Conjunction(where).Ok? ==> ChoicesFor(Conjunction(where).value, srcs, choices)
  {
    match Conjunction(where)
    case Err => Err
    case Ok(conds) =>
      if !AllFound(conds, srcs) then Err
      else Ok(Tree(Leaves(conds, srcs, choices), srcs, JoinConds(conds) + ons, |srcs|))
  }

  // ---------------------------------------------------------------- the planner's loops

  lemma {:induction false} SplitStep(conds: seq<Condition>, i: nat, left: seq<string>, right: seq<string>)
    requires i < |conds|
    ensures Connected(conds[..i + 1], left, right) ==
      Connected(conds[..i], left, right) + if CondConnects(conds[i], left, right) then [conds[i]] else []
    ensures Unconnected(conds[..i + 1], left, right) ==
      Unconnected(conds[..i], left, right) + if CondConnects(conds[i], left, right) then [] else [conds[i]]
  {
    TakeOne(conds, i);
  }

  method SplitConds(remaining: seq<Condition>, left: seq<string>, right: seq<string>) returns (on: seq<Condition>, rest: seq<Condition>)
    ensures on == Connected(remaining, left, right) && rest == Unconnected(remaining, left, right)
  {
    on, rest := [], [];
    for i := 0 to |remaining|
      invariant on == Connected(remaining[..i], left, right) && rest == Unconnected(remaining[..i], left, right)
    {
      SplitStep(remaining, i, left, right);
      if CondConnects(remaining[i], left, right) {
        on := on + [remaining[i]];
      } else {
        rest := rest + [remaining[i]];
      }
    }
    assert remaining[..|remaining|] == remaining;
  }

  method BuildTree(leaves: seq<Plan>, srcs: seq<Source>, conds: seq<Condition>) returns (root: Plan)
    requires 1 <= |srcs| == |leaves|
    ensures root == Tree(leaves, srcs, conds, |srcs|)
  {
    root := leaves[0];
    var leftSchema, remaining := Schema(srcs[0]), conds;
    assert LeftSchema(srcs, 1) == LeftSchema(srcs, 0) + leftSchema;
    for i := 1 to |srcs|
      invariant root == Tree(leaves, srcs, conds, i)
      invariant leftSchema == LeftSchema(srcs, i) && remaining == Remaining(conds, srcs, i)
    {
      var rightSchema := Schema(srcs[i]);
      var on, rest := SplitConds(remaining, leftSchema, rightSchema);
      remaining := rest;
      root := NestedLoopJoin(root, leaves[i], on, leftSchema, rightSchema);
      leftSchema := leftSchema + rightSchema;
    }
  }
}
