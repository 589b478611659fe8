/** Values, table schemas and WHERE conditions, and what a condition says about a row. */
module Queries {
  import opened Pages

  datatype Option<T> = None | Some(value: T)

  datatype Result<T> = Ok(value: T) | Err

  /** Unsigned 64-bit integers. */
  type Word = n: int | 0 <= n < 0x1_0000_0000_0000_0000

  const MAX_WORD: Word := 0xFFFF_FFFF_FFFF_FFFF

  datatype Datum = Int(n: Word) | Text(s: seq<byte>)

  type Row = seq<Datum>

  datatype ColType = IntType | TextType

  datatype Column = Column(name: string, typ: ColType)

  datatype IndexDef = IndexDef(name: string, column: string)

  datatype CompareOp = Eq | Gt | Lt | Gte | Lte

  /** A condition once its subqueries are resolved. */
  datatype Condition =
    | Compare(col: string, op: CompareOp, val: Datum)
    | ColCompare(col: string, op: CompareOp, rhs: string)
    | InList(col: string, list: seq<Datum>, negated: bool)
    | AlwaysFalse

  // ---------------------------------------------------------------- names

  function LowerChar(c: char): char {
    if 'A' <= c <= 'Z' then ((c as int) + 32) as char else c
  }

  /** ASCII lower case. */
  function Lower(s: string): (r: string)
    ensures |r| == |s|
    ensures forall i :: 0 <= i < |s| ==> r[i] == LowerChar(s[i])
  {
    seq(|s|, i requires 0 <= i < |s| => LowerChar(s[i]))
  }

  predicate SameName(a: string, b: string) {
    Lower(a) == Lower(b)
  }

  /** The characters are one letter in upper and lower case. */
  predicate CasesOf(upper: char, lower: char) {
    'A' <= upper <= 'Z' && lower as int == upper as int + 32
  }

  /** Names are the same exactly when they differ in the case of letters at most. */
  lemma {:induction false} SameNameIff(a: string, b: string)
    ensures SameName(a, b) <==>
      |a| == |b| && forall i :: 0 <= i < |a| ==> a[i] == b[i] || CasesOf(a[i], b[i]) || CasesOf(b[i], a[i])
  {
    if SameName(a, b) {
      forall i | 0 <= i < |a| ensures a[i] == b[i] || CasesOf(a[i], b[i]) || CasesOf(b[i], a[i]) {
        assert LowerChar(a[i]) == Lower(a)[i] == Lower(b)[i] == LowerChar(b[i]);
      }
    }
  }

  function ColTypeOf(d: Datum): ColType {
    if d.Int? then IntType else TextType
  }

  datatype Table = Table(name: string, columns: seq<Column>, indexes: seq<IndexDef>) {
    /** The first INT column. */
    function PrimaryKey(): (r: Option<nat>)
      ensures r.Some? ==> r.value < |columns| && columns[r.value].typ.IntType?
      ensures r.Some? ==> forall i :: 0 <= i < r.value ==> !columns[i].typ.IntType?
      ensures r.None? ==> forall i :: 0 <= i < |columns| ==> !columns[i].typ.IntType?
    {
      FirstInt(columns)
    }

    /** The first column of that name, ignoring case. */
    function ColIndex(name: string): (r: Option<nat>)
      ensures r.Some? ==> r.value < |columns| && SameName(columns[r.value].name, name)
      ensures r.Some? ==> forall i :: 0 <= i < r.value ==> !SameName(columns[i].name, name)
      ensures r.None? ==> forall i :: 0 <= i < |columns| ==> !SameName(columns[i].name, name)
    {
      FirstNamed(columns, name)
    }

    function IndexForColumn(name: string): (r: Option<IndexDef>)
      ensures r.Some? ==> r.value in indexes && SameName(r.value.column, name)
      ensures r.None? ==> forall d :: d in indexes ==> !SameName(d.column, name)
    {
      FirstIndex(indexes, name)
    }

    /** What CREATE TABLE and CREATE INDEX admit, with distinct column names. */
    ghost predicate WellFormed() {
      && PrimaryKey().Some?
      && (forall i, j :: 0 <= i < j < |columns| ==> !SameName(columns[i].name, columns[j].name))
      && (forall d :: d in indexes ==> ColIndex(d.column).Some? && columns[ColIndex(d.column).value].typ.IntType?)
    }

    /** A row of this table: one value of the declared type per column. */
    predicate Fits(row: Row) {
      |row| == |columns| && forall i :: 0 <= i < |row| ==> ColTypeOf(row[i]) == columns[i].typ
    }

    function KeyOf(row: Row): Word
      requires PrimaryKey().Some? && Fits(row)
    {
      row[PrimaryKey().value].n
    }
  }

  function FirstInt(cols: seq<Column>): (r: Option<nat>)
    ensures r.Some? ==> r.value < |cols| && cols[r.value].typ.IntType?
    ensures r.Some? ==> forall i :: 0 <= i < r.value ==> !cols[i].typ.IntType?
    ensures r.None? ==> forall i :: 0 <= i < |cols| ==> !cols[i].typ.IntType?
  {
    if cols == [] then None else
    var r := FirstInt(cols[..|cols| - 1]);
    if r.Some? then r else if cols[|cols| - 1].typ.IntType? then Some(|cols| - 1) else None
  }

  function FirstNamed(cols: seq<Column>, name: string): (r: Option<nat>)
    ensures r.Some? ==> r.value < |cols| && SameName(cols[r.value].name, name)
    ensures r.Some? ==> forall i :: 0 <= i < r.value ==> !SameName(cols[i].name, name)
    ensures r.None? ==> forall i :: 0 <= i < |cols| ==> !SameName(cols[i].name, name)
  {
    if cols == [] then None else
    var r := FirstNamed(cols[..|cols| - 1], name);
    if r.Some? then r else if SameName(cols[|cols| - 1].name, name) then Some(|cols| - 1) else None
  }

  function FirstIndex(defs: seq<IndexDef>, name: string): (r: Option<IndexDef>)
    ensures r.Some? ==> r.value in defs && SameName(r.value.column, name)
    ensures r.None? ==> forall d :: d in defs ==> !SameName(d.column, name)
  {
    if defs == [] then None else
    var r := FirstIndex(defs[..|defs| - 1], name);
    if r.Some? then r else if SameName(defs[|defs| - 1].column, name) then Some(defs[|defs| - 1]) else None
  }

  // ---------------------------------------------------------------- comparison

  /** Bytewise lexicographic order. */
  predicate Before(a: seq<byte>, b: seq<byte>) {
    b != [] && (a == [] || a[0] < b[0] || (a[0] == b[0] && Before(a[1..], b[1..])))
  }

  lemma {:induction false} BeforeTotal(a: seq<byte>, b: seq<byte>)
    ensures a == b || Before(a, b) || Before(b, a)
    ensures !(Before(a, b) && Before(b, a)) && !Before(a, a)
  {
    if a != [] && b != [] {
      BeforeTotal(a[1..], b[1..]);
      if a[0] == b[0] && a[1..] == b[1..] {
        assert a == [a[0]] + a[1..] && b == [b[0]] + b[1..];
      }
    }
    if a != [] {
      BeforeIrreflexive(a);
    }
  }

  lemma {:induction false} BeforeIrreflexive(a: seq<byte>)
    ensures !Before(a, a)
  {
    if a != [] {
      BeforeIrreflexive(a[1..]);
    }
  }

  /** Values of different types never compare as true. */
  predicate CompareVals(a: Datum, b: Datum, op: CompareOp) {
    match (a, b)
    case (Int(x), Int(y)) =>
      (match op case Eq => x == y case Gt => x > y case Lt => x < y case Gte => x >= y case Lte => x <= y)
    case (Text(x), Text(y)) =>
      (match op
       case Eq => x == y
       case Gt => Before(y, x)
       case Lt => Before(x, y)
       case Gte => !Before(x, y)
       case Lte => !Before(y, x))
    case _ => false
  }

  /** Equality of values is equality of data. */
  lemma {:induction false} CompareEq(a: Datum, b: Datum)
    ensures CompareVals(a, b, Eq) <==> a == b
  {
  }

  /** a is smaller at position n: the texts agree up to there, where a ends or has the smaller byte. */
  predicate SmallerAt(a: seq<byte>, b: seq<byte>, n: nat) {
    n <= |a| && n < |b| && a[..n] == b[..n] && (n == |a| || a[n] < b[n])
  }

  /** The order by positions. */
  lemma {:induction false} BeforeIsSmaller(a: seq<byte>, b: seq<byte>)
    ensures Before(a, b) <==> exists n: nat :: SmallerAt(a, b, n)
  {
    if b == [] {
    } else if a == [] || a[0] < b[0] {
      assert SmallerAt(a, b, 0);
    } else {
      if n: nat :| SmallerAt(a, b, n) {
        assert n > 0 && a[..n][0] == b[..n][0];
        assert a[1..][..n - 1] == a[..n][1..] && b[1..][..n - 1] == b[..n][1..];
        assert SmallerAt(a[1..], b[1..], n - 1);
      }
      BeforeIsSmaller(a[1..], b[1..]);
      if a[0] == b[0] && Before(a[1..], b[1..]) {
        var n: nat :| SmallerAt(a[1..], b[1..], n);
        assert a[..n + 1] == [a[0]] + a[1..][..n] && b[..n + 1] == [b[0]] + b[1..][..n];
        assert SmallerAt(a, b, n + 1);
      }
    }
  }

  /** What the comparisons mean: numeric order, bytewise order of texts, and never across types. */
  lemma {:induction false} CompareOrder(a: Datum, b: Datum)
    ensures CompareVals(a, b, Lt) <==>
      (a.Int? && b.Int? && a.n < b.n) || (a.Text? && b.Text? && exists n: nat :: SmallerAt(a.s, b.s, n))
    ensures CompareVals(a, b, Gt) <==> CompareVals(b, a, Lt)
    ensures CompareVals(a, b, Gte) <==> a.Int? == b.Int? && !CompareVals(a, b, Lt)
    ensures CompareVals(a, b, Lte) <==> a.Int? == b.Int? && !CompareVals(b, a, Lt)
  {
    if a.Text? && b.Text? {
      BeforeIsSmaller(a.s, b.s);
    }
  }

  // ---------------------------------------------------------------- projection

  /** The value at a resolved position; rows are as wide as their schema. */
  function At(row: Row, i: nat): Datum {
    if i < |row| then row[i] else Int(0)
  }

  function Pick(row: Row, idxs: seq<nat>): Row {
    seq(|idxs|, j requires 0 <= j < |idxs| => At(row, idxs[j]))
  }

  function PickAll(rows: seq<Row>, idxs: seq<nat>): (r: seq<Row>)
    ensures |r| == |rows|
  {
    seq(|rows|, i requires 0 <= i < |rows| => Pick(rows[i], idxs))
  }

  // ---------------------------------------------------------------- conditions on rows

  /** What one condition says about a row: column-to-column conditions and unknown columns pass. */
  predicate Accepts(tbl: Table, row: Row, c: Condition)
    requires |row| == |tbl.columns|
  {
    match c
    case AlwaysFalse => false
    case ColCompare(_, _, _) => true
    case Compare(col, op, val) => tbl.ColIndex(col).Some? ==> CompareVals(row[tbl.ColIndex(col).value], val, op)
    case InList(col, list, negated) => tbl.ColIndex(col).Some? ==> ((row[tbl.ColIndex(col).value] in list) != negated)
  }

  predicate AcceptsAll(tbl: Table, row: Row, preds: seq<Condition>)
    requires |row| == |tbl.columns|
  {
    forall i :: 0 <= i < |preds| ==> Accepts(tbl, row, preds[i])
  }

  /** A WHERE clause: a disjunction of conjunctions, or nothing. */
  predicate Matches(tbl: Table, row: Row, where: Option<seq<seq<Condition>>>)
    requires |row| == |tbl.columns|
  {
    where.Some? ==> exists g :: 0 <= g < |where.value| && AcceptsAll(tbl, row, where.value[g])
  }

  method InListContains(v: Datum, list: seq<Datum>) returns (found: bool)
    ensures found == (v in list)
  {
    for i := 0 to |list|
      invariant v !in list[..i]
    {
      CompareEq(v, list[i]);
      if CompareVals(v, list[i], Eq) {
        return true;
      }
      assert list[..i + 1] == list[..i] + [list[i]];
    }
    assert list[..|list|] == list;
    return false;
  }

  method EvalPreds(row: Row, tbl: Table, preds: seq<Condition>) returns (ok: bool)
    requires |row| == |tbl.columns|
    ensures ok == AcceptsAll(tbl, row, preds)
  {
    for i := 0 to |preds|
      invariant forall j :: 0 <= j < i ==> Accepts(tbl, row, preds[j])
    {
      var cond := preds[i];
      if cond.AlwaysFalse? {
        return false;
      }
      if cond.ColCompare? {
        continue;
      }
      var idx := tbl.ColIndex(cond.col);
      if idx.None? {
        continue;
      }
      if cond.InList? {
        var found := InListContains(row[idx.value], cond.list);
        if cond.negated == found {
          return false;
        }
        continue;
      }
      if !CompareVals(row[idx.value], cond.val, cond.op) {
        return false;
      }
    }
    return true;
  }

  method MatchesWhere(row: Row, tbl: Table, where: Option<seq<seq<Condition>>>) returns (ok: bool)
    requires |row| == |tbl.columns|
    ensures ok == Matches(tbl, row, where)
  {
    if where.None? {
      return true;
    }
    for g := 0 to |where.value|
      invariant forall j :: 0 <= j < g ==> !AcceptsAll(tbl, row, where.value[j])
    {
      var pass := EvalPreds(row, tbl, where.value[g]);
      if pass {
        return true;
      }
    }
    return false;
  }
}
