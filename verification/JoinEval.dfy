/** How a nested-loop join resolves the column names of its conditions and tests a pair of rows. */
module JoinEval {
  import opened Seqs
  import opened Queries

  // ---------------------------------------------------------------- names with dots

  function LastDot(s: string): (r: Option<nat>)
    ensures r.Some? ==> r.value < |s| && s[r.value] == '.' && '.' !in s[r.value + 1..]
    ensures r.None? ==> '.' !in s
  {
    if s == [] then None
    else if s[|s| - 1] == '.' then Some(|s| - 1)
    else
      var r := LastDot(s[..|s| - 1]);
      assert s == s[..|s| - 1] + [s[|s| - 1]];
      assert r.Some? ==> s[r.value + 1..] == s[..|s| - 1][r.value + 1..] + [s[|s| - 1]];
      r
  }

  /** The part after the last dot. */
  function Suffix(s: string): Option<string> {
    match LastDot(s) case None => None case Some(d) => Some(s[d + 1..])
  }

  // ---------------------------------------------------------------- column maps

  /** Bare column names: the first column of that name wins. */
  function BareMap(schema: seq<string>): (m: map<string, nat>)
    ensures forall k :: k in m ==> m[k] < |schema|
  {
    if schema == [] then map[] else
    var m := BareMap(schema[..|schema| - 1]);
    var bare := Suffix(schema[|schema| - 1]);
    if bare.Some? && Lower(bare.value) !in m then m[Lower(bare.value) := |schema| - 1] else m
  }

  /** Qualified names: the last one wins. */
  function QualifiedMap(schema: seq<string>): (m: map<string, nat>)
    ensures forall k :: k in m ==> m[k] < |schema|
  {
    if schema == [] then map[] else
    QualifiedMap(schema[..|schema| - 1])[Lower(schema[|schema| - 1]) := |schema| - 1]
  }

  function ColMap(schema: seq<string>): (m: map<string, nat>)
    ensures forall k :: k in m ==> m[k] < |schema|
  {
    BareMap(schema) + QualifiedMap(schema)
  }

  lemma {:induction false} OverUpdate(a: map<string, nat>, b: map<string, nat>, k: string, i: nat)
    ensures (a + b)[k := i] == a + b[k := i]
  {
  }

  method BuildColMap(schema: seq<string>) returns (m: map<string, nat>)
    ensures m == ColMap(schema)
  {
    m := map[];
    for i := 0 to |schema|
      invariant m == BareMap(schema[..i])
    {
      TakeOne(schema, i);
      var bare := Suffix(schema[i]);
      if bare.Some? && Lower(bare.value) !in m {
        m := m[Lower(bare.value) := i];
      }
    }
    assert schema[..|schema|] == schema;
    ghost var bares := m;
    for i := 0 to |schema|
      invariant m == bares + QualifiedMap(schema[..i])
    {
      TakeOne(schema, i);
      OverUpdate(bares, QualifiedMap(schema[..i]), Lower(schema[i]), i);
      m := m[Lower(schema[i]) := i];
    }
  }

  /** The exact name first, then its part after the last dot. */
  function Resolve(name: string, m: map<string, nat>): (r: Option<nat>)
    ensures r.Some? ==> exists k :: k in m && m[k] == r.value
  {
    if Lower(name) in m then Some(m[Lower(name)]) else
    match Suffix(name)
    case None => None
    case Some(bare) => if Lower(bare) in m then Some(m[Lower(bare)]) else None
  }

  // ---------------------------------------------------------------- conditions on pairs

  /** Left name in the left schema and right name in the right one, else the other way round,
      else the condition is skipped. */
  predicate OnHolds(c: Condition, left: Row, right: Row, leftMap: map<string, nat>, rightMap: map<string, nat>) {
    c.ColCompare? ==>
      var l, r := Resolve(c.col, leftMap), Resolve(c.rhs, rightMap);
      if l.Some? && r.Some? then CompareVals(At(left, l.value), At(right, r.value), c.op) else
      var l2, r2 := Resolve(c.col, rightMap), Resolve(c.rhs, leftMap);
      l2.Some? && r2.Some? ==> CompareVals(At(right, l2.value), At(left, r2.value), c.op)
  }

  predicate AllHold(on: seq<Condition>, left: Row, right: Row, leftMap: map<string, nat>, rightMap: map<string, nat>) {
    forall i :: 0 <= i < |on| ==> OnHolds(on[i], left, right, leftMap, rightMap)
  }

  method EvalOn(on: seq<Condition>, left: Row, right: Row, leftMap: map<string, nat>, rightMap: map<string, nat>) returns (ok: bool)
    ensures ok == AllHold(on, left, right, leftMap, rightMap)
  {
    for i := 0 to |on|
      invariant forall j :: 0 <= j < i ==> OnHolds(on[j], left, right, leftMap, rightMap)
    {
      if !on[i].ColCompare? {
        continue;
      }
      var l, r := Resolve(on[i].col, leftMap), Resolve(on[i].rhs, rightMap);
      if l.None? || r.None? {
        var l2, r2 := Resolve(on[i].col, rightMap), Resolve(on[i].rhs, leftMap);
        if l2.None? || r2.None? {
          continue;
        }
        if !CompareVals(At(right, l2.value), At(left, r2.value), on[i].op) {
          return false;
        }
        continue;
      }
      if !CompareVals(At(left, l.value), At(right, r.value), on[i].op) {
        return false;
      }
    }
    return true;
  }

  // ---------------------------------------------------------------- pairs of rows

  function PairUp(left: Row, rights: seq<Row>, on: seq<Condition>, lm: map<string, nat>, rm: map<string, nat>): seq<Row> {
    if rights == [] then [] else
    var r := rights[|rights| - 1];
    PairUp(left, rights[..|rights| - 1], on, lm, rm) + if AllHold(on, left, r, lm, rm) then [left + r] else []
  }

  /** Every pair that satisfies the conditions, left rows outermost. */
  function JoinRows(lefts: seq<Row>, rights: seq<Row>, on: seq<Condition>, lm: map<string, nat>, rm: map<string, nat>): seq<Row> {
    if lefts == [] then [] else
    JoinRows(lefts[..|lefts| - 1], rights, on, lm, rm) + PairUp(lefts[|lefts| - 1], rights, on, lm, rm)
  }

  lemma {:induction false} PairStep(left: Row, rights: seq<Row>, j: nat, on: seq<Condition>, lm: map<string, nat>, rm: map<string, nat>)
    requires j < |rights|
    ensures PairUp(left, rights[..j + 1], on, lm, rm) ==
      PairUp(left, rights[..j], on, lm, rm) + if AllHold(on, left, rights[j], lm, rm) then [left + rights[j]] else []
  {
    TakeOne(rights, j);
  }

  lemma {:induction false} JoinStep(lefts: seq<Row>, i: nat, rights: seq<Row>, on: seq<Condition>, lm: map<string, nat>, rm: map<string, nat>)
    requires i < |lefts|
    ensures JoinRows(lefts[..i + 1], rights, on, lm, rm) == JoinRows(lefts[..i], rights, on, lm, rm) + PairUp(lefts[i], rights, on, lm, rm)
  {
    TakeOne(lefts, i);
  }

  /** The nested loop: the right side is read again for every left row. */
  method NestedLoop(lefts: seq<Row>, rights: seq<Row>, on: seq<Condition>, leftSchema: seq<string>, rightSchema: seq<string>)
    returns (out: seq<Row>)
    ensures out == JoinRows(lefts, rights, on, ColMap(leftSchema), ColMap(rightSchema))
  {
    var lm := BuildColMap(leftSchema);
    var rm := BuildColMap(rightSchema);
    out := [];
    for i := 0 to |lefts|
      invariant out == JoinRows(lefts[..i], rights, on, lm, rm)
    {
      var pairs := PairLoop(lefts[i], rights, on, lm, rm);
      JoinStep(lefts, i, rights, on, lm, rm);
      out := out + pairs;
    }
    assert lefts[..|lefts|] == lefts;
  }

  /** One pass over the right side. */
  method PairLoop(left: Row, rights: seq<Row>, on: seq<Condition>, lm: map<string, nat>, rm: map<string, nat>) returns (out: seq<Row>)
    ensures out == PairUp(left, rights, on, lm, rm)
  {
    out := [];
    for j := 0 to |rights|
      invariant out == PairUp(left, rights[..j], on, lm, rm)
    {
      var ok := EvalOn(on, left, rights[j], lm, rm);
      PairStep(left, rights, j, on, lm, rm);
      if ok {
        out := out + [left + rights[j]];
      }
    }
    assert rights[..|rights|] == rights;
  }

  // ---------------------------------------------------------------- one pair at a time

  lemma {:induction false} PairConcat(left: Row, a: seq<Row>, b: seq<Row>, on: seq<Condition>, lm: map<string, nat>, rm: map<string, nat>)
    ensures PairUp(left, a + b, on, lm, rm) == PairUp(left, a, on, lm, rm) + PairUp(left, b, on, lm, rm)
  {
    if b == [] {
      assert a + b == a;
    } else {
      var init := b[..|b| - 1];
      assert (a + b)[..|a + b| - 1] == a + init;
      PairConcat(left, a, init, on, lm, rm);
    }
  }

  lemma {:induction false} JoinConcat(a: seq<Row>, b: seq<Row>, rights: seq<Row>, on: seq<Condition>, lm: map<string, nat>, rm: map<string, nat>)
    ensures JoinRows(a + b, rights, on, lm, rm) == JoinRows(a, rights, on, lm, rm) + JoinRows(b, rights, on, lm, rm)
  {
    hide PairUp;
    if b == [] {
      assert a + b == a;
    } else {
      var init, last := b[..|b| - 1], b[|b| - 1];
      ConcatInit(a, b);
      JoinConcat(a, init, rights, on, lm, rm);
      Assoc(JoinRows(a, rights, on, lm, rm), JoinRows(init, rights, on, lm, rm), PairUp(last, rights, on, lm, rm));
    }
  }

  lemma {:induction false} PairOne(left: Row, r: Row, on: seq<Condition>, lm: map<string, nat>, rm: map<string, nat>)
    ensures PairUp(left, [r], on, lm, rm) == if AllHold(on, left, r, lm, rm) then [left + r] else []
  {
    assert [r][..0] == [];
  }

  lemma {:induction false} JoinOne(left: Row, rights: seq<Row>, on: seq<Condition>, lm: map<string, nat>, rm: map<string, nat>)
    ensures JoinRows([left], rights, on, lm, rm) == PairUp(left, rights, on, lm, rm)
  {
    assert [left][..0] == [];
  }

  /** The join as an iterator over the rows of its two sides. */
  class JoinOp {
    const lefts: seq<Row>
    const rights: seq<Row>
    const on: seq<Condition>
    const leftMap: map<string, nat>
    const rightMap: map<string, nat>
    var leftPos: nat
    var rightPos: nat
    var rightOpen: bool

    ghost predicate Valid()
      reads this
    {
      leftPos <= |lefts| && rightPos <= |rights| && (rightOpen ==> leftPos > 0)
    }

    /** The rows still to come from a position. */
    ghost function RestAt(l: nat, r: nat, open: bool): seq<Row>
      requires l <= |lefts| && r <= |rights| && (open ==> l > 0)
    {
      (if open then PairUp(lefts[l - 1], rights[r..], on, leftMap, rightMap) else [])
        + JoinRows(lefts[l..], rights, on, leftMap, rightMap)
    }

    ghost function Rest(): seq<Row>
      reads this
      requires Valid()
    {
      RestAt(leftPos, rightPos, rightOpen)
    }

    lemma {:induction false} AtEnd(r: nat)
      requires r <= |rights|
      ensures RestAt(|lefts|, r, false) == []
    {
    }

    lemma {:induction false} AdvanceLeft(l: nat, r: nat)
      requires l < |lefts| && r <= |rights|
      ensures RestAt(l, r, false) == RestAt(l + 1, 0, true)
    {
      StartLeft(lefts, l, rights, on, leftMap, rightMap);
    }

    lemma {:induction false} CloseRight(l: nat)
      requires 0 < l <= |lefts|
      ensures RestAt(l, |rights|, true) == RestAt(l, |rights|, false)
    {
    }

    lemma {:induction false} AdvanceRight(l: nat, r: nat)
      requires 0 < l <= |lefts| && r < |rights|
      ensures RestAt(l, r, true) ==
        (if AllHold(on, lefts[l - 1], rights[r], leftMap, rightMap) then [lefts[l - 1] + rights[r]] else []) + RestAt(l, r + 1, true)
    {
      StepRight(lefts[l - 1], rights, r, on, leftMap, rightMap);
    }

    constructor (lefts: seq<Row>, rights: seq<Row>, on: seq<Condition>, leftSchema: seq<string>, rightSchema: seq<string>)
      ensures Valid() && Rest() == JoinRows(lefts, rights, on, ColMap(leftSchema), ColMap(rightSchema))
      ensures this.lefts == lefts && this.rights == rights
    {
      var lm := BuildColMap(leftSchema);
      var rm := BuildColMap(rightSchema);
      this.lefts, this.rights, this.on, leftMap, rightMap := lefts, rights, on, lm, rm;
      leftPos, rightPos, rightOpen := 0, 0, false;
      new;
      assert lefts[0..] == lefts;
    }

    /** The next row, if there is one: advances the left side whenever the right side is used up, and
        reads the right side again from the start. */
    method Next() returns (r: Option<Row>)
      requires Valid()
      modifies this
      ensures Valid()
      ensures r.None? <==> old(Rest()) == []
      ensures r.Some? ==> old(Rest()) == [r.value] + Rest()
    {
      hide RestAt, AllHold;
      while true
        invariant Valid() && Rest() == old(Rest())
        decreases |lefts| - leftPos, if rightOpen then 1 else 0, |rights| - rightPos
      {
        if !rightOpen {
          if leftPos == |lefts| {
            AtEnd(rightPos);
            return None;
          }
          AdvanceLeft(leftPos, rightPos);
          leftPos := leftPos + 1;
          rightPos := 0;
          rightOpen := true;
        }
        var left := lefts[leftPos - 1];
        if rightPos == |rights| {
          CloseRight(leftPos);
          rightOpen := false;
          continue;
        }
        var right := rights[rightPos];
        AdvanceRight(leftPos, rightPos);
        rightPos := rightPos + 1;
        var ok := EvalOn(on, left, right, leftMap, rightMap);
        if !ok {
          continue;
        }
        return Some(left + right);
      }
    }
  }

  lemma {:induction false} StartLeft(lefts: seq<Row>, i: nat, rights: seq<Row>, on: seq<Condition>, lm: map<string, nat>, rm: map<string, nat>)
    requires i < |lefts|
    ensures JoinRows(lefts[i..], rights, on, lm, rm) == PairUp(lefts[i], rights[0..], on, lm, rm) + JoinRows(lefts[i + 1..], rights, on, lm, rm)
  {
    assert lefts[i..] == [lefts[i]] + lefts[i + 1..] && rights[0..] == rights;
    JoinConcat([lefts[i]], lefts[i + 1..], rights, on, lm, rm);
    JoinOne(lefts[i], rights, on, lm, rm);
  }

  lemma {:induction false} StepRight(left: Row, rights: seq<Row>, j: nat, on: seq<Condition>, lm: map<string, nat>, rm: map<string, nat>)
    requires j < |rights|
    ensures PairUp(left, rights[j..], on, lm, rm) ==
      (if AllHold(on, left, rights[j], lm, rm) then [left + rights[j]] else []) + PairUp(left, rights[j + 1..], on, lm, rm)
  {
    assert rights[j..] == [rights[j]] + rights[j + 1..];
    PairConcat(left, [rights[j]], rights[j + 1..], on, lm, rm);
    PairOne(left, rights[j], on, lm, rm);
  }
}
