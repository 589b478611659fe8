/** The left-deep join computes the cross product filtered by every condition of the query. */
module JoinMeaning {
  import opened Queries
  import opened Mvcc
  import opened Planners
  import opened JoinEval
  import opened Operators
  import opened Joins

  // ---------------------------------------------------------------- names in schemas

  predicate Dotted(name: string) {
    '.' in name
  }

  lemma {:induction false} LowerDot(s: string)
    ensures Dotted(Lower(s)) <==> Dotted(s)
    ensures forall i :: 0 <= i < |s| ==> (Lower(s)[i] == '.' <==> s[i] == '.')
  {
    assert forall i :: 0 <= i < |s| ==> (LowerChar(s[i]) == '.' <==> s[i] == '.');
    if Dotted(s) {
      var i :| 0 <= i < |s| && s[i] == '.';
      assert Lower(s)[i] == '.';
    }
  }

  /** A dotted name refers to a schema name only by being that name. */
  lemma {:induction false} DottedNames(s: string, name: string)
    requires Dotted(name)
    ensures Names(s, name) <==> SameName(s, name)
  {
    LowerDot(name);
    if Suffix(s).Some? {
      LowerDot(Suffix(s).value);
    }
  }

  ghost predicate UniqueNames(schema: seq<string>) {
    forall a, b :: 0 <= a < b < |schema| ==> !SameName(schema[a], schema[b])
  }

  /** The first column with exactly this name. */
  function FindName(schema: seq<string>, name: string): (r: Option<nat>)
    ensures r.Some? ==> r.value < |schema| && SameName(schema[r.value], name)
    ensures r.None? ==> forall i :: 0 <= i < |schema| ==> !SameName(schema[i], name)
  {
    if schema == [] then None else
    var r := FindName(schema[..|schema| - 1], name);
    if r.Some? then r else if SameName(schema[|schema| - 1], name) then Some(|schema| - 1) else None
  }

  lemma {:induction false} InSlice(full: seq<string>, a: nat, b: nat, name: string, p: nat)
    requires UniqueNames(full) && a <= b <= |full| && Dotted(name) && p < |full| && SameName(full[p], name)
    ensures ColInSchema(name, full[a..b]) <==> a <= p < b
  {
    forall i | 0 <= i < b - a ensures Names(full[a..b][i], name) <==> a + i == p {
      DottedNames(full[a + i], name);
      if a + i < p {
        assert !SameName(full[a + i], full[p]);
      } else if p < a + i {
        assert !SameName(full[p], full[a + i]);
      }
    }
    if a <= p < b {
      assert Names(full[a..b][p - a], name);
    }
  }

  lemma {:induction false} QualifiedAt(schema: seq<string>, name: string, i: nat)
    requires UniqueNames(schema) && i < |schema| && SameName(schema[i], name)
    ensures Lower(name) in QualifiedMap(schema) && QualifiedMap(schema)[Lower(name)] == i
  {
    var init, last := schema[..|schema| - 1], schema[|schema| - 1];
    if i < |schema| - 1 {
      QualifiedAt(init, name, i);
      assert !SameName(schema[i], last);
    }
  }

  lemma {:induction false} ResolvesInSlice(full: seq<string>, a: nat, b: nat, name: string, p: nat)
    requires UniqueNames(full) && a <= p < b <= |full| && SameName(full[p], name)
    ensures Resolve(name, ColMap(full[a..b])) == Some(p - a)
  {
    var schema := full[a..b];
    assert UniqueNames(schema) && schema[p - a] == full[p];
    QualifiedAt(schema, name, p - a);
  }

  // ---------------------------------------------------------------- positions

  lemma {:induction false} SchemaSlices(srcs: seq<Source>, k: nat, n: nat)
    requires k <= n <= |srcs|
    ensures Offset(srcs, k) <= Offset(srcs, n) && LeftSchema(srcs, k) == LeftSchema(srcs, n)[..Offset(srcs, k)]
    ensures k < n ==> Offset(srcs, k + 1) <= Offset(srcs, n)
    ensures k < n ==> Schema(srcs[k]) == LeftSchema(srcs, n)[Offset(srcs, k)..Offset(srcs, k + 1)]
  {
    hide Schema, Qualified;
    if k < n {
      SchemaSlices(srcs, k, n - 1);
      assert LeftSchema(srcs, n) == LeftSchema(srcs, n - 1) + Schema(srcs[n - 1]);
      if k < n - 1 {
        SliceOfPrefix(LeftSchema(srcs, n - 1), Schema(srcs[n - 1]), Offset(srcs, k), Offset(srcs, k + 1));
      }
    }
  }

  lemma {:induction false} OffsetStep(srcs: seq<Source>, k: nat)
    requires k < |srcs|
    ensures Offset(srcs, 0) == 0 && Offset(srcs, k + 1) == Offset(srcs, k) + |Schema(srcs[k])|
  {
  }

  lemma {:induction false} SliceOfPrefix<T>(a: seq<T>, b: seq<T>, i: nat, j: nat)
    requires i <= j <= |a|
    ensures (a + b)[i..j] == a[i..j] && (a + b)[..i] == a[..i]
  {
  }

  /** The table that owns a position of the combined row. */
  function TableAt(srcs: seq<Source>, p: nat, k: nat): (i: nat)
    requires k <= |srcs| && p < Offset(srcs, k)
    ensures i < k && Offset(srcs, i) <= p < Offset(srcs, i + 1)
  {
    if p >= Offset(srcs, k - 1) then k - 1 else TableAt(srcs, p, k - 1)
  }

  lemma {:induction false} TableAtBound(srcs: seq<Source>, p: nat, i: nat, n: nat)
    requires i < n <= |srcs| && p < Offset(srcs, n)
    ensures TableAt(srcs, p, n) < i ==> p < Offset(srcs, i)
    ensures TableAt(srcs, p, n) > i ==> p >= Offset(srcs, i + 1)
  {
    hide LeftSchema, Schema, Qualified, TableAt;
    var t := TableAt(srcs, p, n);
    if t < i {
      SchemaSlices(srcs, t + 1, i);
    } else if t > i {
      SchemaSlices(srcs, i + 1, t);
    }
  }

  // ---------------------------------------------------------------- join conditions

  /** A fully qualified condition whose left column belongs to an earlier table than its right one. */
  ghost predicate Forward(srcs: seq<Source>, c: Condition) {
    && c.ColCompare? && Dotted(c.col) && Dotted(c.rhs)
    && var full := LeftSchema(srcs, |srcs|);
      && FindName(full, c.col).Some? && FindName(full, c.rhs).Some?
      && TableAt(srcs, FindName(full, c.col).value, |srcs|) < TableAt(srcs, FindName(full, c.rhs).value, |srcs|)
  }

  /** The table whose join the condition is due at. */
  ghost function DueAt(srcs: seq<Source>, c: Condition): nat
    requires Forward(srcs, c)
  {
    TableAt(srcs, FindName(LeftSchema(srcs, |srcs|), c.rhs).value, |srcs|)
  }

  /** What the condition says about a combined row. */
  ghost predicate Meant(srcs: seq<Source>, c: Condition, row: Row)
    requires Forward(srcs, c)
  {
    var full := LeftSchema(srcs, |srcs|);
    CompareVals(At(row, FindName(full, c.col).value), At(row, FindName(full, c.rhs).value), c.op)
  }

  lemma {:induction false} ConnectsWhenDue(srcs: seq<Source>, c: Condition, k: nat)
    requires UniqueNames(LeftSchema(srcs, |srcs|)) && Forward(srcs, c) && 1 <= k < |srcs|
    ensures CondConnects(c, LeftSchema(srcs, k), Schema(srcs[k])) <==> k == DueAt(srcs, c)
  {
    hide LeftSchema, Schema, Qualified, TableAt, FindName, SameName, ColInSchema;
    var n, full := |srcs|, LeftSchema(srcs, |srcs|);
    var p, q := FindName(full, c.col).value, FindName(full, c.rhs).value;
    SchemaSlices(srcs, k, n);
    OffsetStep(srcs, k);
    var a, b := Offset(srcs, k), Offset(srcs, k + 1);
    assert full[..a] == full[0..a];
    InSlice(full, 0, a, c.col, p);
    InSlice(full, 0, a, c.rhs, q);
    InSlice(full, a, b, c.col, p);
    InSlice(full, a, b, c.rhs, q);
    TableAtBound(srcs, p, k, n);
    TableAtBound(srcs, q, k, n);
  }

  lemma {:induction false} HoldsWhenDue(srcs: seq<Source>, c: Condition, k: nat, left: Row, right: Row)
    requires UniqueNames(LeftSchema(srcs, |srcs|)) && Forward(srcs, c) && 1 <= k < |srcs| && k == DueAt(srcs, c)
    requires |left| == Offset(srcs, k) && |right| == |Schema(srcs[k])|
    ensures OnHolds(c, left, right, ColMap(LeftSchema(srcs, k)), ColMap(Schema(srcs[k]))) <==> Meant(srcs, c, left + right)
  {
    hide LeftSchema, Schema, Qualified, TableAt, FindName, SameName, ColMap, Resolve;
    var n, full := |srcs|, LeftSchema(srcs, |srcs|);
    var p, q := FindName(full, c.col).value, FindName(full, c.rhs).value;
    SchemaSlices(srcs, k, n);
    var a, b := Offset(srcs, k), Offset(srcs, k + 1);
    assert full[..a] == full[0..a];
    TableAtBound(srcs, p, k, n);
    ResolvesInSlice(full, 0, a, c.col, p);
    ResolvesInSlice(full, a, b, c.rhs, q);
  }

  ghost predicate AllForward(srcs: seq<Source>, conds: seq<Condition>) {
    forall i :: 0 <= i < |conds| ==> Forward(srcs, conds[i])
  }

  /** Every condition due by the join of table `k` holds. */
  ghost predicate MeantBefore(srcs: seq<Source>, conds: seq<Condition>, row: Row, k: nat)
    requires AllForward(srcs, conds)
  {
    forall i :: 0 <= i < |conds| && DueAt(srcs, conds[i]) < k ==> Meant(srcs, conds[i], row)
  }

  lemma {:induction false} ConnectedMember(conds: seq<Condition>, left: seq<string>, right: seq<string>)
    ensures forall c :: c in Connected(conds, left, right) <==> c in conds && CondConnects(c, left, right)
    ensures forall c :: c in Unconnected(conds, left, right) <==> c in conds && !CondConnects(c, left, right)
  {
    if conds != [] {
      ConnectedMember(conds[..|conds| - 1], left, right);
      forall c ensures c in conds <==> c in conds[..|conds| - 1] || c == conds[|conds| - 1] {
        InitMember(conds, c);
      }
    }
  }

  /** The conditions left for the join of table `k` are those due there or later. */
  lemma {:induction false} RemainingMember(srcs: seq<Source>, conds: seq<Condition>, k: nat)
    requires UniqueNames(LeftSchema(srcs, |srcs|)) && AllForward(srcs, conds) && 1 <= k <= |srcs|
    ensures forall c :: c in Remaining(conds, srcs, k) <==> c in conds && DueAt(srcs, c) >= k
  {
    hide LeftSchema, Schema, Qualified, CondConnects, Connected, Unconnected;
    if k == 1 {
      forall c | c in conds ensures DueAt(srcs, c) >= 1 {
        assert Forward(srcs, c);
      }
    } else {
      RemainingMember(srcs, conds, k - 1);
      ConnectedMember(Remaining(conds, srcs, k - 1), LeftSchema(srcs, k - 1), Schema(srcs[k - 1]));
      forall c | c in conds ensures CondConnects(c, LeftSchema(srcs, k - 1), Schema(srcs[k - 1])) <==> k - 1 == DueAt(srcs, c) {
        ConnectsWhenDue(srcs, c, k - 1);
      }
    }
  }

  /** The join of table `k` tests exactly the conditions due there. */
  lemma {:induction false} DueMember(srcs: seq<Source>, conds: seq<Condition>, k: nat)
    requires UniqueNames(LeftSchema(srcs, |srcs|)) && AllForward(srcs, conds) && 1 <= k < |srcs|
    ensures forall c :: c in Connected(Remaining(conds, srcs, k), LeftSchema(srcs, k), Schema(srcs[k])) <==> c in conds && DueAt(srcs, c) == k
  {
    hide LeftSchema, Schema, Qualified, CondConnects, Connected, Remaining;
    RemainingMember(srcs, conds, k);
    ConnectedMember(Remaining(conds, srcs, k), LeftSchema(srcs, k), Schema(srcs[k]));
    forall c | c in conds ensures CondConnects(c, LeftSchema(srcs, k), Schema(srcs[k])) <==> k == DueAt(srcs, c) {
      ConnectsWhenDue(srcs, c, k);
    }
  }

  // ---------------------------------------------------------------- products

  ghost predicate AllWide(rows: seq<Row>, w: nat) {
    forall i :: 0 <= i < |rows| ==> |rows[i]| == w
  }

  lemma {:induction false} PairExact(left: Row, rights: seq<Row>, on: seq<Condition>, lm: map<string, nat>, rm: map<string, nat>)
    requires Distinct(rights)
    ensures Distinct(PairUp(left, rights, on, lm, rm))
    ensures forall row: Row :: row in PairUp(left, rights, on, lm, rm) <==>
      |row| >= |left| && row[..|left|] == left && row[|left|..] in rights && AllHold(on, left, row[|left|..], lm, rm)
  {
    if rights != [] {
      var init, r := rights[..|rights| - 1], rights[|rights| - 1];
      PairExact(left, init, on, lm, rm);
      assert r !in init;
      assert (left + r)[|left|..] == r && (left + r)[..|left|] == left;
      DistinctSnoc(PairUp(left, init, on, lm, rm), left + r);
      forall row: Row | |row| >= |left| && row[..|left|] == left ensures row == left + row[|left|..] && (row[|left|..] in rights <==> row[|left|..] in init || row[|left|..] == r) {
        InitMember(rights, row[|left|..]);
      }
    }
  }

  lemma {:induction false} DistinctConcat(a: seq<Row>, b: seq<Row>)
    requires Distinct(a) && Distinct(b) && forall row: Row :: !(row in a && row in b)
    ensures Distinct(a + b)
  {
    forall i, j | 0 <= i < j < |a + b| ensures (a + b)[i] != (a + b)[j] {
      if i < |a| <= j {
        assert (a + b)[i] in a && (a + b)[j] in b;
      }
    }
  }

  lemma {:induction false} JoinExact(lefts: seq<Row>, rights: seq<Row>, on: seq<Condition>, lm: map<string, nat>, rm: map<string, nat>, w: nat)
    requires Distinct(lefts) && Distinct(rights) && AllWide(lefts, w)
    ensures Distinct(JoinRows(lefts, rights, on, lm, rm))
    ensures forall row: Row :: row in JoinRows(lefts, rights, on, lm, rm) <==>
      |row| >= w && row[..w] in lefts && row[w..] in rights && AllHold(on, row[..w], row[w..], lm, rm)
  {
    hide AllHold, PairUp;
    if lefts != [] {
      var init, l := lefts[..|lefts| - 1], lefts[|lefts| - 1];
      JoinExact(init, rights, on, lm, rm, w);
      PairExact(l, rights, on, lm, rm);
      assert l !in init;
      DistinctConcat(JoinRows(init, rights, on, lm, rm), PairUp(l, rights, on, lm, rm));
      forall row: Row | |row| >= w ensures row[..w] in lefts <==> row[..w] in init || row[..w] == l {
        InitMember(lefts, row[..w]);
      }
    }
  }

  // ---------------------------------------------------------------- the whole tree

  /** The part of a combined row that belongs to table `i`. */
  function Part(srcs: seq<Source>, row: Row, i: nat): Row
    requires i < |srcs| && Offset(srcs, i + 1) <= |row|
  {
    row[Offset(srcs, i)..Offset(srcs, i + 1)]
  }

  /** The combined row takes its parts from the rows of the first `k` tables. */
  ghost predicate InProduct(srcs: seq<Source>, tables: seq<seq<Row>>, row: Row, k: nat)
    requires k <= |srcs| == |tables|
  {
    |row| == Offset(srcs, k) && forall i :: 0 <= i < k ==> Within(srcs, k, i) && Part(srcs, row, i) in tables[i]
  }

  ghost predicate Within(srcs: seq<Source>, k: nat, i: nat)
    requires i < k <= |srcs|
  {
    Offset(srcs, i + 1) <= Offset(srcs, k)
  }

  lemma {:induction false} ProductStep(srcs: seq<Source>, tables: seq<seq<Row>>, row: Row, k: nat)
    requires k < |srcs| == |tables| && AllWide(tables[k], |Schema(srcs[k])|)
    ensures InProduct(srcs, tables, row, k + 1) <==>
      |row| >= Offset(srcs, k) && InProduct(srcs, tables, row[..Offset(srcs, k)], k) && row[Offset(srcs, k)..] in tables[k]
  {
    hide LeftSchema, Schema, Qualified, Offset, InProduct;
    var w := Offset(srcs, k);
    OffsetStep(srcs, k);
    if InProduct(srcs, tables, row, k + 1) {
      ProductWidth(srcs, tables, row, k + 1);
      ProductDown(srcs, tables, row, k);
    }
    if |row| >= w && InProduct(srcs, tables, row[..w], k) && row[w..] in tables[k] {
      ProductUp(srcs, tables, row, k);
    }
  }

  lemma {:induction false} SamePart(srcs: seq<Source>, row: Row, i: nat, k: nat)
    requires i < k < |srcs| && |row| == Offset(srcs, k + 1)
    ensures Within(srcs, k, i) && Within(srcs, k + 1, i) && Offset(srcs, k) <= |row|
    ensures Part(srcs, row[..Offset(srcs, k)], i) == Part(srcs, row, i)
  {
    hide LeftSchema, Schema, Qualified, Offset;
    OffsetStep(srcs, k);
    SchemaSlices(srcs, i + 1, k);
    OffsetStep(srcs, i);
    var w := Offset(srcs, k);
    SliceOfPrefix(row[..w], row[w..], Offset(srcs, i), Offset(srcs, i + 1));
    assert row == row[..w] + row[w..];
  }

  lemma {:induction false} ProductDown(srcs: seq<Source>, tables: seq<seq<Row>>, row: Row, k: nat)
    requires k < |srcs| == |tables| && InProduct(srcs, tables, row, k + 1)
    ensures |row| >= Offset(srcs, k) && InProduct(srcs, tables, row[..Offset(srcs, k)], k) && row[Offset(srcs, k)..] in tables[k]
  {
    hide LeftSchema, Schema, Qualified, Offset;
    OffsetStep(srcs, k);
    forall i | 0 <= i < k ensures Within(srcs, k, i) && Part(srcs, row[..Offset(srcs, k)], i) in tables[i] {
      SamePart(srcs, row, i, k);
    }
    assert Within(srcs, k + 1, k) && Part(srcs, row, k) == row[Offset(srcs, k)..];
  }

  lemma {:induction false} ProductUp(srcs: seq<Source>, tables: seq<seq<Row>>, row: Row, k: nat)
    requires k < |srcs| == |tables| && AllWide(tables[k], |Schema(srcs[k])|)
    requires |row| >= Offset(srcs, k) && InProduct(srcs, tables, row[..Offset(srcs, k)], k) && row[Offset(srcs, k)..] in tables[k]
    ensures InProduct(srcs, tables, row, k + 1)
  {
    hide LeftSchema, Schema, Qualified, Offset;
    OffsetStep(srcs, k);
    var n :| 0 <= n < |tables[k]| && tables[k][n] == row[Offset(srcs, k)..];
    assert |row| == Offset(srcs, k + 1);
    var k1 := k + 1;
    assert Within(srcs, k1, k) && Part(srcs, row, k) == row[Offset(srcs, k)..];
    forall i | 0 <= i < k1 ensures Within(srcs, k1, i) && Part(srcs, row, i) in tables[i] {
      if i < k {
        SamePart(srcs, row, i, k);
      }
    }
  }

  lemma {:induction false} MeantStep(srcs: seq<Source>, conds: seq<Condition>, row: Row, k: nat)
    requires UniqueNames(LeftSchema(srcs, |srcs|)) && AllForward(srcs, conds) && 1 <= k < |srcs|
    requires |row| == Offset(srcs, k + 1)
    ensures var w := Offset(srcs, k);
      MeantBefore(srcs, conds, row, k + 1) <==>
        MeantBefore(srcs, conds, row[..w], k)
        && AllHold(Connected(Remaining(conds, srcs, k), LeftSchema(srcs, k), Schema(srcs[k])), row[..w], row[w..],
             ColMap(LeftSchema(srcs, k)), ColMap(Schema(srcs[k])))
  {
    hide OnHolds, Remaining, Connected, ColMap, Resolve;
    var w := Offset(srcs, k);
    var on := Connected(Remaining(conds, srcs, k), LeftSchema(srcs, k), Schema(srcs[k]));
    DueMember(srcs, conds, k);
    assert row == row[..w] + row[w..];
    forall c | c in conds && DueAt(srcs, c) == k
      ensures OnHolds(c, row[..w], row[w..], ColMap(LeftSchema(srcs, k)), ColMap(Schema(srcs[k]))) <==> Meant(srcs, c, row)
    {
      HoldsWhenDue(srcs, c, k, row[..w], row[w..]);
    }
    forall c | c in conds && DueAt(srcs, c) < k ensures Meant(srcs, c, row) <==> Meant(srcs, c, row[..w]) {
      MeantPrefix(srcs, c, row, k);
    }
    MeantSplit(srcs, conds, on, row, k);
  }

  lemma {:induction false} MeantSplit(srcs: seq<Source>, conds: seq<Condition>, on: seq<Condition>, row: Row, k: nat)
    requires AllForward(srcs, conds) && 1 <= k < |srcs| && |row| == Offset(srcs, k + 1)
    requires forall c :: c in on <==> c in conds && DueAt(srcs, c) == k
    requires forall c :: c in conds && DueAt(srcs, c) == k ==>
      (OnHolds(c, row[..Offset(srcs, k)], row[Offset(srcs, k)..], ColMap(LeftSchema(srcs, k)), ColMap(Schema(srcs[k]))) <==> Meant(srcs, c, row))
    requires forall c :: c in conds && DueAt(srcs, c) < k ==> (Meant(srcs, c, row) <==> Meant(srcs, c, row[..Offset(srcs, k)]))
    ensures MeantBefore(srcs, conds, row, k + 1) <==>
        MeantBefore(srcs, conds, row[..Offset(srcs, k)], k)
        && AllHold(on, row[..Offset(srcs, k)], row[Offset(srcs, k)..], ColMap(LeftSchema(srcs, k)), ColMap(Schema(srcs[k])))
  {
    hide OnHolds, Meant, ColMap, DueAt;
    assert forall i :: 0 <= i < |conds| ==> conds[i] in conds;
    assert forall i :: 0 <= i < |on| ==> on[i] in on;
  }

  /** A condition due earlier speaks of earlier positions only. */
  lemma {:induction false} MeantPrefix(srcs: seq<Source>, c: Condition, row: Row, k: nat)
    requires Forward(srcs, c) && k < |srcs| && DueAt(srcs, c) < k && |row| == Offset(srcs, k + 1)
    ensures Offset(srcs, k) <= |row| && (Meant(srcs, c, row) <==> Meant(srcs, c, row[..Offset(srcs, k)]))
  {
    hide LeftSchema, Schema, Qualified, TableAt, FindName, SameName;
    OffsetStep(srcs, k);
    var n, full := |srcs|, LeftSchema(srcs, |srcs|);
    TableAtBound(srcs, FindName(full, c.col).value, k, n);
    TableAtBound(srcs, FindName(full, c.rhs).value, k, n);
  }

  /** The rows of the leaf plans. */
  ghost function LeafRows(leaves: seq<Plan>, db: string -> Data, snap: Snapshot): (r: seq<seq<Row>>)
    ensures |r| == |leaves| && forall i :: 0 <= i < |r| ==> r[i] == Exec(leaves[i], db, snap)
  {
    seq(|leaves|, i requires 0 <= i < |leaves| => Exec(leaves[i], db, snap))
  }

  ghost predicate LeavesReady(srcs: seq<Source>, tables: seq<seq<Row>>) {
    |srcs| == |tables| && forall i :: 0 <= i < |srcs| ==> Distinct(tables[i]) && AllWide(tables[i], |Schema(srcs[i])|)
  }

  /** The join over the first `k` tables holds each combined row once that satisfies every condition
      due so far. */
  ghost predicate Joined(leaves: seq<Plan>, srcs: seq<Source>, conds: seq<Condition>, k: nat, db: string -> Data, snap: Snapshot)
    requires 1 <= k <= |srcs| == |leaves| && AllForward(srcs, conds)
  {
    var rows := Exec(Tree(leaves, srcs, conds, k), db, snap);
    && Distinct(rows)
    && forall row: Row :: row in rows <==> InProduct(srcs, LeafRows(leaves, db, snap), row, k) && MeantBefore(srcs, conds, row, k)
  }

  lemma {:induction false} TreeExact(leaves: seq<Plan>, srcs: seq<Source>, conds: seq<Condition>, k: nat, db: string -> Data, snap: Snapshot)
    requires 1 <= k <= |srcs| == |leaves| && LeavesReady(srcs, LeafRows(leaves, db, snap))
    requires UniqueNames(LeftSchema(srcs, |srcs|)) && AllForward(srcs, conds)
    ensures Joined(leaves, srcs, conds, k, db, snap)
  {
    hide *;
    if k == 1 {
      JoinedFirst(leaves, srcs, conds, db, snap);
    } else {
      TreeExact(leaves, srcs, conds, k - 1, db, snap);
      TreeStep(leaves, srcs, conds, k - 1, db, snap);
    }
  }

  lemma {:induction false} JoinedFirst(leaves: seq<Plan>, srcs: seq<Source>, conds: seq<Condition>, db: string -> Data, snap: Snapshot)
    requires 1 <= |srcs| == |leaves| && LeavesReady(srcs, LeafRows(leaves, db, snap)) && AllForward(srcs, conds)
    ensures Joined(leaves, srcs, conds, 1, db, snap)
  {
    hide Exec, LeftSchema, Schema, Qualified, InProduct, MeantBefore, AllForward;
    FirstTable(srcs, LeafRows(leaves, db, snap), conds);
  }

  lemma {:induction false} FirstTable(srcs: seq<Source>, tables: seq<seq<Row>>, conds: seq<Condition>)
    requires 1 <= |srcs| && LeavesReady(srcs, tables) && AllForward(srcs, conds)
    ensures forall row: Row :: row in tables[0] <==> InProduct(srcs, tables, row, 1) && MeantBefore(srcs, conds, row, 1)
  {
    hide LeftSchema, Schema, Qualified, FindName;
    OffsetStep(srcs, 0);
    forall row: Row ensures row in tables[0] <==> InProduct(srcs, tables, row, 1) {
      ProductStep(srcs, tables, row, 0);
      assert row[0..] == row && row[..0] == [];
      assert InProduct(srcs, tables, [], 0);
    }
    forall row: Row ensures MeantBefore(srcs, conds, row, 1) {
      assert forall i :: 0 <= i < |conds| ==> Forward(srcs, conds[i]) && DueAt(srcs, conds[i]) >= 1;
    }
  }

  lemma {:induction false} TreeStep(leaves: seq<Plan>, srcs: seq<Source>, conds: seq<Condition>, k: nat, db: string -> Data, snap: Snapshot)
    requires 1 <= k < |srcs| == |leaves| && LeavesReady(srcs, LeafRows(leaves, db, snap))
    requires UniqueNames(LeftSchema(srcs, |srcs|)) && AllForward(srcs, conds)
    requires Joined(leaves, srcs, conds, k, db, snap)
    ensures Joined(leaves, srcs, conds, k + 1, db, snap)
  {
    hide Exec, InProduct, MeantBefore, Distinct, AllHold, Connected, Remaining, ColMap, UniqueNames, AllForward,
      LeftSchema, Schema, Qualified, Offset, JoinRows;
    var tables := LeafRows(leaves, db, snap);
    var lefts := Exec(Tree(leaves, srcs, conds, k), db, snap);
    var w := Offset(srcs, k);
    var on := Connected(Remaining(conds, srcs, k), LeftSchema(srcs, k), Schema(srcs[k]));
    var lm, rm := ColMap(LeftSchema(srcs, k)), ColMap(Schema(srcs[k]));
    forall i | 0 <= i < |lefts| ensures |lefts[i]| == w {
      assert lefts[i] in lefts;
      ProductWidth(srcs, tables, lefts[i], k);
    }
    JoinExact(lefts, tables[k], on, lm, rm, w);
    ExecJoin(Tree(leaves, srcs, conds, k), leaves[k], on, LeftSchema(srcs, k), Schema(srcs[k]), db, snap);
    forall row: Row
      ensures row in JoinRows(lefts, tables[k], on, lm, rm) <==> InProduct(srcs, tables, row, k + 1) && MeantBefore(srcs, conds, row, k + 1)
    {
      ProductStep(srcs, tables, row, k);
      if InProduct(srcs, tables, row, k + 1) {
        ProductWidth(srcs, tables, row, k + 1);
        MeantStep(srcs, conds, row, k);
      }
    }
  }

  lemma {:induction false} ProductWidth(srcs: seq<Source>, tables: seq<seq<Row>>, row: Row, k: nat)
    requires k <= |srcs| == |tables| && InProduct(srcs, tables, row, k)
    ensures |row| == Offset(srcs, k)
  {
  }

  lemma {:induction false} ExecJoin(left: Plan, right: Plan, on: seq<Condition>, ls: seq<string>, rs: seq<string>, db: string -> Data, snap: Snapshot)
    ensures Exec(NestedLoopJoin(left, right, on, ls, rs), db, snap) ==
      JoinRows(Exec(left, db, snap), Exec(right, db, snap), on, ColMap(ls), ColMap(rs))
  {
    hide PickAll, Take, ScanRows, LookupRows, Keep, Dedup, ExecAll, JoinRows, ColMap;
  }

  // ---------------------------------------------------------------- names written in queries

  /** Qualifiers differ and contain no dot; neither do column names. */
  ghost predicate PlainNames(srcs: seq<Source>) {
    && (forall i :: 0 <= i < |srcs| ==> !Dotted(srcs[i].qualifier) && PlainColumns(srcs[i].tbl.columns))
    && (forall i, j :: 0 <= i < j < |srcs| ==> !SameName(srcs[i].qualifier, srcs[j].qualifier))
  }

  ghost predicate PlainColumns(cols: seq<Column>) {
    && (forall a :: 0 <= a < |cols| ==> !Dotted(cols[a].name))
    && (forall a, b :: 0 <= a < b < |cols| ==> !SameName(cols[a].name, cols[b].name))
  }

  lemma {:induction false} LowerConcat(a: string, b: string)
    ensures Lower(a + b) == Lower(a) + Lower(b)
  {
  }

  lemma {:induction false} SplitEqual(a: string, b: string, c: string, d: string)
    requires !Dotted(a) && !Dotted(c) && a + "." + b == c + "." + d
    ensures a == c && b == d
  {
    var s := a + "." + b;
    assert s[|a|] == '.' && forall k :: 0 <= k < |a| ==> s[k] == a[k] && s[k] != '.';
    assert s[|c|] == '.' && forall k :: 0 <= k < |c| ==> s[k] == c[k] && s[k] != '.';
    assert s[..|a|] == a && s[|a| + 1..] == b;
    assert s == c + "." + d && s[..|c|] == c && s[|c| + 1..] == d;
  }

  /** Qualified names are equal only part by part. */
  lemma {:induction false} SplitSame(q1: string, c1: string, q2: string, c2: string)
    requires !Dotted(q1) && !Dotted(q2)
    ensures SameName(q1 + "." + c1, q2 + "." + c2) <==> SameName(q1, q2) && SameName(c1, c2)
  {
    LowerConcat(q1 + ".", c1);
    LowerConcat(q1, ".");
    LowerConcat(q2 + ".", c2);
    LowerConcat(q2, ".");
    assert Lower(".") == ".";
    LowerDot(q1);
    LowerDot(q2);
    if SameName(q1 + "." + c1, q2 + "." + c2) {
      SplitEqual(Lower(q1), Lower(c1), Lower(q2), Lower(c2));
    }
  }

  /** The column behind a position of the combined row. */
  lemma {:induction false} NameAt(srcs: seq<Source>, p: nat)
    requires p < Offset(srcs, |srcs|)
    ensures var i := TableAt(srcs, p, |srcs|);
      && p - Offset(srcs, i) < |srcs[i].tbl.columns|
      && LeftSchema(srcs, |srcs|)[p] == Qualified(srcs[i], p - Offset(srcs, i))
  {
    hide LeftSchema, TableAt, Schema, Qualified;
    var i := TableAt(srcs, p, |srcs|);
    SchemaSlices(srcs, i, |srcs|);
    OffsetStep(srcs, i);
    var a := p - Offset(srcs, i);
    assert Schema(srcs[i])[a] == LeftSchema(srcs, |srcs|)[Offset(srcs, i)..Offset(srcs, i + 1)][a];
  }

  lemma {:induction false} NamesUnique(srcs: seq<Source>)
    requires PlainNames(srcs)
    ensures UniqueNames(LeftSchema(srcs, |srcs|))
  {
    hide LeftSchema, TableAt, Schema, SameName;
    var full := LeftSchema(srcs, |srcs|);
    forall p, q | 0 <= p < q < |full| ensures !SameName(full[p], full[q]) {
      var i, j := TableAt(srcs, p, |srcs|), TableAt(srcs, q, |srcs|);
      NameAt(srcs, p);
      NameAt(srcs, q);
      var a, b := p - Offset(srcs, i), q - Offset(srcs, j);
      SplitSame(srcs[i].qualifier, srcs[i].tbl.columns[a].name, srcs[j].qualifier, srcs[j].tbl.columns[b].name);
      SameSymmetric(srcs[i].qualifier, srcs[j].qualifier);
      assert i == j ==> a < b;
    }
  }

  lemma {:induction false} SameSymmetric(a: string, b: string)
    ensures SameName(a, b) <==> SameName(b, a)
  {
  }

  // ---------------------------------------------------------------- filters

  /** The one position a filter's column name refers to. */
  ghost predicate RefersTo(srcs: seq<Source>, name: string, p: nat) {
    var full := LeftSchema(srcs, |srcs|);
    p < |full| && forall i :: 0 <= i < |full| ==> (Names(full[i], name) <==> i == p)
  }

  /** What a filter says about the value at its position. */
  predicate ValueAccepted(c: Condition, v: Datum) {
    match c
    case Compare(_, op, val) => CompareVals(v, val, op)
    case InList(_, list, negated) => (v in list) != negated
    case ColCompare(_, _, _) => true
    case AlwaysFalse => false
  }

  lemma {:induction false} SuffixOf(q: string, c: string)
    requires !Dotted(c)
    ensures Suffix(q + "." + c) == Some(c)
  {
    var s := q + "." + c;
    assert s[|q|] == '.' && forall k :: |q| < k < |s| ==> s[k] == c[k - |q| - 1];
    var d := LastDot(s).value;
    forall k | d < k < |s| ensures s[k] != '.' {
      assert s[d + 1..][k - d - 1] == s[k];
    }
    assert s[|q| + 1..] == c;
  }

  lemma {:induction false} FirstDotOf(q: string, c: string)
    requires !Dotted(q)
    ensures FirstDot(q + "." + c) == Some(|q|)
  {
    var s := q + "." + c;
    assert s[|q|] == '.' && forall k :: 0 <= k < |q| ==> s[k] == q[k];
    var d := FirstDot(s).value;
    forall k | 0 <= k < d ensures s[k] != '.' {
      assert s[..d][k] == s[k];
    }
  }

  /** A name equal to q.c up to case splits at the same place. */
  lemma {:induction false} SplitsAlike(name: string, q: string, c: string)
    requires !Dotted(q) && SameName(q + "." + c, name)
    ensures FirstDot(name) == Some(|q|) && SameName(name[..|q|], q) && SameName(BareCol(name), c)
  {
    var s := q + "." + c;
    LowerDot(name);
    LowerDot(s);
    assert |Lower(s)| == |s| && |Lower(name)| == |name|;
    assert s[|q|] == '.' && Lower(s)[|q|] == '.';
    assert name[|q|] == '.';
    assert name == name[..|q|] + "." + name[|q| + 1..];
    forall i | 0 <= i < |q| ensures name[i] != '.' {
      assert s[i] == q[i] && Lower(s)[i] == Lower(name)[i];
    }
    FirstDotOf(name[..|q|], name[|q| + 1..]);
    SplitSame(q, c, name[..|q|], name[|q| + 1..]);
  }

  /** A filter goes to the table that owns its column, under the bare name. */
  lemma {:induction false} FoundAt(srcs: seq<Source>, name: string, p: nat)
    requires PlainNames(srcs) && RefersTo(srcs, name, p)
    ensures var i := TableAt(srcs, p, |srcs|); var a := p - Offset(srcs, i);
      FindTable(name, srcs) == Some(i) && a < |srcs[i].tbl.columns| && SameName(srcs[i].tbl.columns[a].name, BareCol(name))
  {
    hide LeftSchema, TableAt, Schema, Lower;
    var i := TableAt(srcs, p, |srcs|);
    var a := p - Offset(srcs, i);
    NameAt(srcs, p);
    assert Names(LeftSchema(srcs, |srcs|)[p], name);
    var q, c := srcs[i].qualifier, srcs[i].tbl.columns[a].name;
    SuffixOf(q, c);
    if SameName(q + "." + c, name) {
      SplitsAlike(name, q, c);
      QualifierUnique(srcs, i, name[..|q|]);
    } else {
      SameDots(c, name);
      BareUnique(srcs, name, p);
    }
  }

  lemma {:induction false} SameDots(a: string, b: string)
    requires SameName(a, b)
    ensures Dotted(a) <==> Dotted(b)
  {
    LowerDot(a);
    LowerDot(b);
  }

  lemma {:induction false} QualifierUnique(srcs: seq<Source>, i: nat, q: string)
    requires PlainNames(srcs) && i < |srcs| && SameName(q, srcs[i].qualifier)
    ensures FirstQualified(q, srcs) == Some(i)
  {
    assert SameName(srcs[i].qualifier, q);
    var j := FirstQualified(q, srcs).value;
    assert SameName(srcs[j].qualifier, srcs[i].qualifier) && SameName(srcs[i].qualifier, srcs[j].qualifier);
  }

  /** A bare name that refers to one position occurs in one table only. */
  lemma {:induction false} BareUnique(srcs: seq<Source>, name: string, p: nat)
    requires PlainNames(srcs) && RefersTo(srcs, name, p) && !Dotted(name)
    requires var i := TableAt(srcs, p, |srcs|); var a := p - Offset(srcs, i);
      a < |srcs[i].tbl.columns| && SameName(srcs[i].tbl.columns[a].name, name)
    ensures FindTable(name, srcs) == Some(TableAt(srcs, p, |srcs|))
  {
    hide LeftSchema, TableAt, Schema, Lower;
    var i := TableAt(srcs, p, |srcs|);
    assert srcs[i].tbl.ColIndex(name).Some?;
    forall j | 0 <= j < |srcs| && srcs[j].tbl.ColIndex(name).Some? ensures j == i {
      ColumnPosition(srcs, j, srcs[j].tbl.ColIndex(name).value, name);
      assert Offset(srcs, j) + srcs[j].tbl.ColIndex(name).value == p;
      TableAtBound(srcs, p, j, |srcs|);
    }
  }

  lemma {:induction false} ColumnPosition(srcs: seq<Source>, j: nat, b: nat, name: string)
    requires PlainNames(srcs) && j < |srcs| && b < |srcs[j].tbl.columns| && SameName(srcs[j].tbl.columns[b].name, name)
    ensures var p := Offset(srcs, j) + b;
      p < Offset(srcs, j + 1) <= Offset(srcs, |srcs|) && Names(LeftSchema(srcs, |srcs|)[p], name)
  {
    hide LeftSchema, Qualified;
    SchemaSlices(srcs, j, |srcs|);
    OffsetStep(srcs, j);
    var full := LeftSchema(srcs, |srcs|);
    assert full[Offset(srcs, j)..Offset(srcs, j + 1)][b] == full[Offset(srcs, j) + b];
    NamesColumn(srcs[j], b, name);
  }

  lemma {:induction false} NamesColumn(src: Source, b: nat, name: string)
    requires b < |src.tbl.columns| && !Dotted(src.tbl.columns[b].name) && SameName(src.tbl.columns[b].name, name)
    ensures Names(Qualified(src, b), name)
  {
    SuffixOf(src.qualifier, src.tbl.columns[b].name);
  }

  /** The stripped filter, asked of the owning table's part, says what the filter says of the row. */
  lemma {:induction false} PushedSame(srcs: seq<Source>, c: Condition, p: nat, row: Row)
    requires PlainNames(srcs) && !c.ColCompare? && !c.AlwaysFalse? && RefersTo(srcs, c.col, p) && |row| == Offset(srcs, |srcs|)
    ensures var i := TableAt(srcs, p, |srcs|);
      && FindTable(c.col, srcs) == Some(i) && Offset(srcs, i + 1) <= |row|
      && |Part(srcs, row, i)| == |srcs[i].tbl.columns|
      && (Accepts(srcs[i].tbl, Part(srcs, row, i), Stripped(c)) <==> ValueAccepted(c, row[p]))
  {
    hide LeftSchema, TableAt, Schema, Qualified, Lower, BareCol, FindTable;
    var i := TableAt(srcs, p, |srcs|);
    FoundAt(srcs, c.col, p);
    OffsetStep(srcs, i);
    SchemaSlices(srcs, i, |srcs|);
    var a := p - Offset(srcs, i);
    ColumnAt(srcs[i].tbl, BareCol(c.col), a);
    assert Part(srcs, row, i)[a] == row[p];
  }

  lemma {:induction false} ColumnAt(tbl: Table, name: string, a: nat)
    requires PlainColumns(tbl.columns) && a < |tbl.columns| && SameName(tbl.columns[a].name, name)
    ensures tbl.ColIndex(name) == Some(a)
  {
    var b := tbl.ColIndex(name).value;
    assert SameName(tbl.columns[b].name, tbl.columns[a].name);
  }

  lemma {:induction false} PushedMember(conds: seq<Condition>, srcs: seq<Source>, i: nat)
    ensures forall x :: x in PushedTo(conds, srcs, i) <==>
      exists n :: 0 <= n < |conds| && !conds[n].ColCompare? && FindTable(ColumnOf(conds[n]), srcs) == Some(i) && x == Stripped(conds[n])
    ensures forall x :: x in PushedTo(conds, srcs, i) ==> !x.ColCompare?
  {
    hide FindTable, BareCol;
    if conds != [] {
      var init := conds[..|conds| - 1];
      PushedMember(init, srcs, i);
      assert forall n :: 0 <= n < |init| ==> init[n] == conds[n];
    }
  }

  // ---------------------------------------------------------------- the whole query

  /** The condition names columns the way the planner expects. */
  ghost predicate Resolved(srcs: seq<Source>, c: Condition) {
    if c.ColCompare? then Forward(srcs, c) else !c.AlwaysFalse? && exists p :: RefersTo(srcs, c.col, p)
  }

  /** What the condition says about a combined row. */
  ghost predicate Holds(srcs: seq<Source>, c: Condition, row: Row)
    requires Resolved(srcs, c)
  {
    if c.ColCompare? then Meant(srcs, c, row) else exists p :: RefersTo(srcs, c.col, p) && ValueAccepted(c, At(row, p))
  }

  ghost predicate AllResolved(srcs: seq<Source>, conds: seq<Condition>) {
    forall n :: 0 <= n < |conds| ==> Resolved(srcs, conds[n])
  }

  ghost predicate AllHoldOn(srcs: seq<Source>, conds: seq<Condition>, row: Row)
    requires AllResolved(srcs, conds)
  {
    forall n :: 0 <= n < |conds| ==> Holds(srcs, conds[n], row)
  }

  /** Every table is stored properly and its indexes cover the snapshot. */
  ghost predicate Ready(srcs: seq<Source>, db: string -> Data, snap: Snapshot) {
    forall i :: 0 <= i < |srcs| ==> TableReady(srcs[i].tbl, db, snap)
  }

  ghost predicate TableReady(tbl: Table, db: string -> Data, snap: Snapshot) {
    tbl.WellFormed() && Stored(tbl, db(Lower(tbl.name)).cells) && CoversAll(tbl, db(Lower(tbl.name)), snap)
  }

  /** A row of the cross product of the tables' visible rows. */
  ghost predicate Combined(srcs: seq<Source>, db: string -> Data, snap: Snapshot, row: Row) {
    |row| == Offset(srcs, |srcs|) && forall i :: 0 <= i < |srcs| ==> PartShown(srcs, db, snap, row, i)
  }

  ghost predicate PartShown(srcs: seq<Source>, db: string -> Data, snap: Snapshot, row: Row, i: nat)
    requires i < |srcs|
  {
    Offset(srcs, i + 1) <= |row| && Shown(db(Lower(srcs[i].tbl.name)).cells, snap, Part(srcs, row, i))
  }

  ghost predicate PartAccepted(srcs: seq<Source>, conds: seq<Condition>, row: Row, i: nat)
    requires i < |srcs|
  {
    && Offset(srcs, i + 1) <= |row| && |Part(srcs, row, i)| == |srcs[i].tbl.columns|
    && AcceptsAll(srcs[i].tbl, Part(srcs, row, i), PushedTo(conds, srcs, i))
  }

  ghost predicate PartWide(srcs: seq<Source>, row: Row, i: nat)
    requires i < |srcs|
  {
    Offset(srcs, i + 1) <= |row| && |Part(srcs, row, i)| == |srcs[i].tbl.columns|
  }

  lemma {:induction false} LeafExact(srcs: seq<Source>, conds: seq<Condition>, choice: Option<nat>, i: nat, db: string -> Data, snap: Snapshot)
    requires i < |srcs| && TableReady(srcs[i].tbl, db, snap)
    requires choice.Some? ==> Eligible(srcs[i].tbl, PushedTo(conds, srcs, i), choice.value)
    ensures var tbl, pushed := srcs[i].tbl, PushedTo(conds, srcs, i); var rows := Exec(PlanGroup(tbl, pushed, choice), db, snap);
      && Distinct(rows)
      && forall row: Row :: row in rows <==>
          Shown(db(Lower(tbl.name)).cells, snap, row) && |row| == |tbl.columns| && AcceptsAll(tbl, row, pushed)
  {
    hide Exec, Shown, AcceptsAll, PushedTo, PlanGroup, Stored, CoversAll;
    var tbl, pushed := srcs[i].tbl, PushedTo(conds, srcs, i);
    GroupRows(tbl, db, snap, pushed, choice);
    PushedMember(conds, srcs, i);
    forall row: Row | tbl.Fits(row) ensures !Misread(tbl, tbl.KeyOf(row), pushed) {
      assert forall n :: 0 <= n < |pushed| ==> pushed[n] in pushed;
    }
  }

  /** The filters among the WHERE conditions hold. */
  ghost predicate FiltersHold(srcs: seq<Source>, conds: seq<Condition>, row: Row)
    requires AllResolved(srcs, conds)
  {
    forall n :: 0 <= n < |conds| && !conds[n].ColCompare? ==> Holds(srcs, conds[n], row)
  }

  /** The pushed filters together say what the filters say. */
  lemma {:induction false} FiltersSame(srcs: seq<Source>, conds: seq<Condition>, row: Row)
    requires PlainNames(srcs) && AllResolved(srcs, conds) && |row| == Offset(srcs, |srcs|)
    requires forall i :: 0 <= i < |srcs| ==> PartWide(srcs, row, i)
    ensures (forall i :: 0 <= i < |srcs| ==> PartAccepted(srcs, conds, row, i)) <==>
      FiltersHold(srcs, conds, row)
  {
    hide LeftSchema, TableAt, Schema, Qualified, FindTable, RefersTo, Accepts, ValueAccepted, PushedTo, Stripped;
    if forall i :: 0 <= i < |srcs| ==> PartAccepted(srcs, conds, row, i) {
      forall n | 0 <= n < |conds| && !conds[n].ColCompare? ensures Holds(srcs, conds[n], row) {
        assert Resolved(srcs, conds[n]);
        var p :| RefersTo(srcs, conds[n].col, p);
        RefersBound(srcs, conds[n].col, p);
        PushedSame(srcs, conds[n], p, row);
        var i := TableAt(srcs, p, |srcs|);
        PushedMember(conds, srcs, i);
        assert PartAccepted(srcs, conds, row, i);
        assert Stripped(conds[n]) in PushedTo(conds, srcs, i);
      }
    }
    if FiltersHold(srcs, conds, row) {
      forall i | 0 <= i < |srcs| ensures PartAccepted(srcs, conds, row, i) {
        assert PartWide(srcs, row, i);
        PushedMember(conds, srcs, i);
        var pushed := PushedTo(conds, srcs, i);
        forall m | 0 <= m < |pushed| ensures Accepts(srcs[i].tbl, Part(srcs, row, i), pushed[m]) {
          assert pushed[m] in pushed;
          var n :| 0 <= n < |conds| && !conds[n].ColCompare? && FindTable(ColumnOf(conds[n]), srcs) == Some(i) && pushed[m] == Stripped(conds[n]);
          assert Resolved(srcs, conds[n]) && Holds(srcs, conds[n], row);
          var p :| RefersTo(srcs, conds[n].col, p) && ValueAccepted(conds[n], At(row, p));
          RefersBound(srcs, conds[n].col, p);
          PushedSame(srcs, conds[n], p, row);
        }
        assert PartWide(srcs, row, i);
        assert AcceptsAll(srcs[i].tbl, Part(srcs, row, i), pushed);
      }
    }
  }

  lemma {:induction false} RefersBound(srcs: seq<Source>, name: string, p: nat)
    requires RefersTo(srcs, name, p)
    ensures p < Offset(srcs, |srcs|)
  {
  }

  lemma {:induction false} JoinCondsMember(conds: seq<Condition>)
    ensures forall c :: c in JoinConds(conds) <==> c in conds && c.ColCompare?
  {
    if conds != [] {
      JoinCondsMember(conds[..|conds| - 1]);
      forall c ensures c in conds <==> c in conds[..|conds| - 1] || c == conds[|conds| - 1] {
        InitMember(conds, c);
      }
    }
  }

  lemma {:induction false} JoinsForward(srcs: seq<Source>, conds: seq<Condition>, ons: seq<Condition>)
    requires AllResolved(srcs, conds) && AllForward(srcs, ons)
    ensures AllForward(srcs, JoinConds(conds) + ons)
  {
    hide Forward, JoinConds;
    JoinCondsMember(conds);
    var all := JoinConds(conds) + ons;
    forall n | 0 <= n < |all| ensures Forward(srcs, all[n]) {
      assert all[n] in JoinConds(conds) || all[n] in ons;
    }
  }

  /** The join conditions among the WHERE conditions hold. */
  ghost predicate JoinsHold(srcs: seq<Source>, conds: seq<Condition>, row: Row)
    requires AllResolved(srcs, conds)
  {
    forall n :: 0 <= n < |conds| && conds[n].ColCompare? ==> Holds(srcs, conds[n], row)
  }

  /** The ON conditions hold. */
  ghost predicate OnsHold(srcs: seq<Source>, ons: seq<Condition>, row: Row)
    requires AllForward(srcs, ons)
  {
    forall n :: 0 <= n < |ons| ==> Meant(srcs, ons[n], row)
  }

  lemma {:induction false} AllDue(srcs: seq<Source>, conds: seq<Condition>, row: Row)
    requires AllForward(srcs, conds)
    ensures MeantBefore(srcs, conds, row, |srcs|) <==> OnsHold(srcs, conds, row)
  {
    hide TableAt, LeftSchema, FindName;
    forall n | 0 <= n < |conds| ensures DueAt(srcs, conds[n]) < |srcs| {
      assert Forward(srcs, conds[n]);
    }
  }

  lemma {:induction false} JoinsSplit(srcs: seq<Source>, conds: seq<Condition>, ons: seq<Condition>, row: Row)
    requires AllResolved(srcs, conds) && AllForward(srcs, ons) && AllForward(srcs, JoinConds(conds) + ons)
    ensures OnsHold(srcs, JoinConds(conds) + ons, row) <==> JoinsHold(srcs, conds, row) && OnsHold(srcs, ons, row)
  {
    hide Forward, Meant, JoinConds;
    JoinCondsMember(conds);
    var joins := JoinConds(conds);
    var all := joins + ons;
    if OnsHold(srcs, all, row) {
      forall n | 0 <= n < |conds| && conds[n].ColCompare? ensures Holds(srcs, conds[n], row) {
        assert conds[n] in joins;
        var m :| 0 <= m < |joins| && joins[m] == conds[n];
        assert all[m] == conds[n];
      }
      forall n | 0 <= n < |ons| ensures Meant(srcs, ons[n], row) {
        assert all[|joins| + n] == ons[n];
      }
    }
    if JoinsHold(srcs, conds, row) && OnsHold(srcs, ons, row) {
      forall m | 0 <= m < |all| ensures Meant(srcs, all[m], row) {
        if m < |joins| {
          assert joins[m] in joins && joins[m] in conds;
          var n :| 0 <= n < |conds| && conds[n] == joins[m];
          assert Holds(srcs, conds[n], row);
        } else {
          assert all[m] == ons[m - |joins|];
        }
      }
    }
  }

  lemma {:induction false} AllFoundResolved(srcs: seq<Source>, conds: seq<Condition>)
    requires PlainNames(srcs) && AllResolved(srcs, conds)
    ensures AllFound(conds, srcs)
  {
    hide FindTable, RefersTo, LeftSchema, TableAt;
    forall n | 0 <= n < |conds| && !conds[n].ColCompare? ensures FindTable(ColumnOf(conds[n]), srcs).Some? {
      assert Resolved(srcs, conds[n]);
      var p :| RefersTo(srcs, conds[n].col, p);
      RefersBound(srcs, conds[n].col, p);
      FoundAt(srcs, conds[n].col, p);
    }
  }

  /** A row belongs to the product of the leaf plans exactly when its parts are visible rows that
      pass the pushed filters. */
  lemma {:induction false} ProductMeaning(srcs: seq<Source>, conds: seq<Condition>, choices: seq<Option<nat>>, row: Row, db: string -> Data, snap: Snapshot)
    requires Ready(srcs, db, snap) && ChoicesFor(conds, srcs, choices)
    ensures InProduct(srcs, LeafRows(Leaves(conds, srcs, choices), db, snap), row, |srcs|) <==>
      Combined(srcs, db, snap, row) && forall i :: 0 <= i < |srcs| ==> PartAccepted(srcs, conds, row, i)
  {
    hide Exec, LeftSchema, Schema, Shown, AcceptsAll, PushedTo, PlanGroup, TableReady, Offset;
    var tables := LeafRows(Leaves(conds, srcs, choices), db, snap);
    forall i | 0 <= i < |srcs| && |row| == Offset(srcs, |srcs|)
      ensures Within(srcs, |srcs|, i)
      ensures Part(srcs, row, i) in tables[i] <==> PartShown(srcs, db, snap, row, i) && PartAccepted(srcs, conds, row, i)
    {
      SchemaSlices(srcs, i, |srcs|);
      OffsetStep(srcs, i);
      assert TableReady(srcs[i].tbl, db, snap);
      LeafExact(srcs, conds, choices[i], i, db, snap);
    }
    ProductSplit(srcs, tables, conds, row, db, snap);
  }

  lemma {:induction false} ProductSplit(srcs: seq<Source>, tables: seq<seq<Row>>, conds: seq<Condition>, row: Row, db: string -> Data, snap: Snapshot)
    requires |tables| == |srcs|
    requires |row| == Offset(srcs, |srcs|) ==> forall i :: 0 <= i < |srcs| ==> Within(srcs, |srcs|, i)
    requires |row| == Offset(srcs, |srcs|) ==> forall i :: 0 <= i < |srcs| ==>
      Within(srcs, |srcs|, i) && (Part(srcs, row, i) in tables[i] <==> PartShown(srcs, db, snap, row, i) && PartAccepted(srcs, conds, row, i))
    ensures InProduct(srcs, tables, row, |srcs|) <==>
      Combined(srcs, db, snap, row) && forall i :: 0 <= i < |srcs| ==> PartAccepted(srcs, conds, row, i)
  {
    hide PartShown, PartAccepted, Part, Offset;
  }

  lemma {:induction false} LeavesAreReady(srcs: seq<Source>, conds: seq<Condition>, choices: seq<Option<nat>>, db: string -> Data, snap: Snapshot)
    requires Ready(srcs, db, snap) && ChoicesFor(conds, srcs, choices)
    ensures LeavesReady(srcs, LeafRows(Leaves(conds, srcs, choices), db, snap))
  {
    hide Exec, Qualified, Shown, AcceptsAll, PushedTo, PlanGroup, TableReady, Distinct;
    var tables := LeafRows(Leaves(conds, srcs, choices), db, snap);
    forall i | 0 <= i < |srcs| ensures Distinct(tables[i]) && AllWide(tables[i], |Schema(srcs[i])|) {
      assert TableReady(srcs[i].tbl, db, snap);
      LeafExact(srcs, conds, choices[i], i, db, snap);
      assert forall j :: 0 <= j < |tables[i]| ==> tables[i][j] in tables[i];
    }
  }

  /** For every query over tables with plain names whose join conditions link an earlier table to a
      later one by qualified names, and every choice of access paths, the plan yields each row of
      the cross product once that satisfies every WHERE and ON condition, and nothing else. */
  lemma {:induction false} JoinIsFilteredProduct(srcs: seq<Source>, where: Option<seq<seq<Condition>>>, ons: seq<Condition>,
                                                 choices: seq<Option<nat>>, db: string -> Data, snap: Snapshot)
    requires 1 <= |srcs| && PlainNames(srcs) && Ready(srcs, db, snap)
    requires (where.Some? ==> |where.value| == 1) && AllResolved(srcs, Conjunction(where).value) && AllForward(srcs, ons)
    requires ChoicesFor(Conjunction(where).value, srcs, choices)
    ensures PlanMulti(srcs, where, ons, choices).Ok?
    ensures var rows, conds := Exec(PlanMulti(srcs, where, ons, choices).value, db, snap), Conjunction(where).value;
      && Distinct(rows)
      && forall row: Row :: row in rows <==>
          Combined(srcs, db, snap, row) && AllHoldOn(srcs, conds, row) && OnsHold(srcs, ons, row)
  {
    hide Exec, Distinct, Combined, AllHoldOn, OnsHold, Ready, PlainNames, AllResolved, AllForward, ChoicesFor, Leaves, Tree, JoinConds, AllFound, Joined, LeftSchema;
    var conds := Conjunction(where).value;
    AllFoundResolved(srcs, conds);
    JoinsForward(srcs, conds, ons);
    NamesUnique(srcs);
    LeavesAreReady(srcs, conds, choices, db, snap);
    var leaves, joins := Leaves(conds, srcs, choices), JoinConds(conds) + ons;
    TreeExact(leaves, srcs, joins, |srcs|, db, snap);
    JoinedRows(leaves, srcs, joins, db, snap);
    forall row: Row ensures row in Exec(Tree(leaves, srcs, joins, |srcs|), db, snap) <==>
        Combined(srcs, db, snap, row) && AllHoldOn(srcs, conds, row) && OnsHold(srcs, ons, row) {
      RowMeaning(srcs, conds, ons, choices, row, db, snap);
    }
  }

  lemma {:induction false} JoinedRows(leaves: seq<Plan>, srcs: seq<Source>, conds: seq<Condition>, db: string -> Data, snap: Snapshot)
    requires 1 <= |srcs| == |leaves| && AllForward(srcs, conds) && Joined(leaves, srcs, conds, |srcs|, db, snap)
    ensures var rows := Exec(Tree(leaves, srcs, conds, |srcs|), db, snap);
      && Distinct(rows)
      && forall row: Row :: row in rows <==> InProduct(srcs, LeafRows(leaves, db, snap), row, |srcs|) && OnsHold(srcs, conds, row)
  {
    hide Exec, Distinct, InProduct, OnsHold, MeantBefore, AllForward, Tree, LeftSchema;
    forall row: Row ensures MeantBefore(srcs, conds, row, |srcs|) <==> OnsHold(srcs, conds, row) {
      AllDue(srcs, conds, row);
    }
  }

  lemma {:induction false} RowMeaning(srcs: seq<Source>, conds: seq<Condition>, ons: seq<Condition>, choices: seq<Option<nat>>, row: Row, db: string -> Data, snap: Snapshot)
    requires PlainNames(srcs) && Ready(srcs, db, snap) && AllResolved(srcs, conds) && AllForward(srcs, ons)
    requires ChoicesFor(conds, srcs, choices) && AllForward(srcs, JoinConds(conds) + ons)
    ensures InProduct(srcs, LeafRows(Leaves(conds, srcs, choices), db, snap), row, |srcs|) && OnsHold(srcs, JoinConds(conds) + ons, row) <==>
      Combined(srcs, db, snap, row) && AllHoldOn(srcs, conds, row) && OnsHold(srcs, ons, row)
  {
    hide InProduct, LeafRows, Leaves, PartAccepted, Combined, OnsHold, AllForward, AllResolved, Ready, PlainNames, ChoicesFor, AllHoldOn, JoinsHold;
    ProductMeaning(srcs, conds, choices, row, db, snap);
    JoinsSplit(srcs, conds, ons, row);
    if Combined(srcs, db, snap, row) {
      CombinedWidth(srcs, db, snap, row);
      PartsWide(srcs, row);
      FiltersSame(srcs, conds, row);
      HoldSplit(srcs, conds, row);
    }
  }

  lemma {:induction false} CombinedWidth(srcs: seq<Source>, db: string -> Data, snap: Snapshot, row: Row)
    requires Combined(srcs, db, snap, row)
    ensures |row| == Offset(srcs, |srcs|)
  {
  }

  lemma {:induction false} HoldSplit(srcs: seq<Source>, conds: seq<Condition>, row: Row)
    requires AllResolved(srcs, conds)
    ensures AllHoldOn(srcs, conds, row) <==> JoinsHold(srcs, conds, row) && FiltersHold(srcs, conds, row)
  {
    hide Holds, Resolved;
  }

  lemma {:induction false} PartsWide(srcs: seq<Source>, row: Row)
    requires |row| == Offset(srcs, |srcs|)
    ensures forall i :: 0 <= i < |srcs| ==> PartWide(srcs, row, i)
  {
    hide LeftSchema, Qualified;
    forall i | 0 <= i < |srcs| ensures PartWide(srcs, row, i) {
      SchemaSlices(srcs, i, |srcs|);
      OffsetStep(srcs, i);
    }
  }

  // ---------------------------------------------------------------- conditions the planner gets wrong

  /** A condition written right to left: its left name belongs to the right schema at `i`, its right
      name to the left schema at `j`. */
  ghost predicate Backward(c: Condition, left: seq<string>, right: seq<string>, i: nat, j: nat) {
    && c.ColCompare? && i < |right| && j < |left|
    && Resolve(c.col, ColMap(right)) == Some(i) && Resolve(c.rhs, ColMap(left)) == Some(j)
  }

  /** What it means: compare the right row's column with the left row's. */
  predicate BackwardMeant(c: Condition, leftRow: Row, rightRow: Row, i: nat, j: nat)
    requires c.ColCompare?
  {
    CompareVals(At(rightRow, i), At(leftRow, j), c.op)
  }

  /** Resolving by bare suffix before trying the swapped order is right for all rows exactly when one
      of the suffixes is missing on the other side, or both land on the columns meant and the
      operator is symmetric. */
  lemma {:induction false} BackwardRightIff(c: Condition, left: seq<string>, right: seq<string>, i: nat, j: nat)
    requires Backward(c, left, right, i, j)
    ensures (forall l: Row, r: Row :: |l| == |left| && |r| == |right| ==>
        (OnHolds(c, l, r, ColMap(left), ColMap(right)) <==> BackwardMeant(c, l, r, i, j))) <==>
      (Resolve(c.col, ColMap(left)) == None || Resolve(c.rhs, ColMap(right)) == None ||
       (Resolve(c.col, ColMap(left)) == Some(j) && Resolve(c.rhs, ColMap(right)) == Some(i) && c.op == Eq))
  {
    hide ColMap, Resolve;
    var lm, rm := ColMap(left), ColMap(right);
    if Resolve(c.col, lm).Some? && Resolve(c.rhs, rm).Some? {
      var a, b := Resolve(c.col, lm).value, Resolve(c.rhs, rm).value;
      ResolveBound(c.col, left);
      ResolveBound(c.rhs, right);
      if a == j && b == i {
        EqSymmetric(c, |left|, |right|, i, j);
      } else {
        Distinguish(c, |left|, |right|, a, b, i, j);
      }
    }
  }

  /** The names a column map answers to. */
  lemma {:induction false} QualifiedKeys(schema: seq<string>, k: string)
    requires k in QualifiedMap(schema)
    ensures exists i :: 0 <= i < |schema| && k == Lower(schema[i])
  {
    if k != Lower(schema[|schema| - 1]) {
      QualifiedKeys(schema[..|schema| - 1], k);
      var i :| 0 <= i < |schema| - 1 && k == Lower(schema[..|schema| - 1][i]);
      assert k == Lower(schema[i]);
    }
  }

  lemma {:induction false} BareKeys(schema: seq<string>, k: string)
    requires k in BareMap(schema)
    ensures !Dotted(k)
  {
    var bare := Suffix(schema[|schema| - 1]);
    if k in BareMap(schema[..|schema| - 1]) {
      BareKeys(schema[..|schema| - 1], k);
    } else {
      LowerDot(bare.value);
    }
  }

  /** A bare name leads to its first column. */
  lemma {:induction false} BareFirst(schema: seq<string>, i: nat, bare: string)
    requires i < |schema| && Suffix(schema[i]).Some? && SameName(Suffix(schema[i]).value, bare)
    requires forall j :: 0 <= j < i && Suffix(schema[j]).Some? ==> !SameName(Suffix(schema[j]).value, bare)
    ensures Lower(bare) in BareMap(schema) && BareMap(schema)[Lower(bare)] == i
  {
    var init := schema[..|schema| - 1];
    if i < |schema| - 1 {
      BareFirst(init, i, bare);
    } else {
      BareAbsent(init, bare);
    }
  }

  lemma {:induction false} BareAbsent(schema: seq<string>, bare: string)
    requires forall j :: 0 <= j < |schema| && Suffix(schema[j]).Some? ==> !SameName(Suffix(schema[j]).value, bare)
    ensures Lower(bare) !in BareMap(schema)
  {
    if schema != [] {
      BareAbsent(schema[..|schema| - 1], bare);
    }
  }

  /** A name qualified for another table falls back to the column of that bare name. */
  lemma {:induction false} ForeignResolves(src: Source, q: string, i: nat)
    requires !Dotted(src.qualifier) && !Dotted(q) && !SameName(src.qualifier, q) && PlainColumns(src.tbl.columns) && i < |src.tbl.columns|
    ensures Resolve(q + "." + src.tbl.columns[i].name, ColMap(Schema(src))) == Some(i)
  {
    hide BareMap, QualifiedMap, LastDot, Suffix;
    var schema, c := Schema(src), src.tbl.columns[i].name;
    var name := q + "." + c;
    SuffixOf(q, c);
    forall j | 0 <= j < |schema| ensures Suffix(schema[j]) == Some(src.tbl.columns[j].name) && Lower(schema[j]) != Lower(name) && Dotted(Lower(schema[j])) {
      SuffixOf(src.qualifier, src.tbl.columns[j].name);
      SplitSame(src.qualifier, src.tbl.columns[j].name, q, c);
      assert schema[j][|src.qualifier|] == '.';
      LowerDot(schema[j]);
    }
    assert name[|q|] == '.';
    LowerDot(name);
    LowerDot(c);
    if Lower(name) in QualifiedMap(schema) {
      QualifiedKeys(schema, Lower(name));
    }
    if Lower(name) in BareMap(schema) {
      BareKeys(schema, Lower(name));
    }
    if Lower(c) in QualifiedMap(schema) {
      QualifiedKeys(schema, Lower(c));
    }
    BareFirst(schema, i, c);
  }

  lemma {:induction false} OwnResolves(src: Source, i: nat)
    requires !Dotted(src.qualifier) && PlainColumns(src.tbl.columns) && i < |src.tbl.columns|
    ensures Resolve(Qualified(src, i), ColMap(Schema(src))) == Some(i)
  {
    hide LeftSchema, Qualified, UniqueNames, ColMap, Resolve, Lower;
    var schema := Schema(src);
    SchemaUnique(src);
    assert schema[0..|schema|] == schema;
    ResolvesInSlice(schema, 0, |schema|, schema[i], i);
  }

  lemma {:induction false} SchemaUnique(src: Source)
    requires !Dotted(src.qualifier) && PlainColumns(src.tbl.columns)
    ensures UniqueNames(Schema(src))
  {
    hide UniqueNames;
    NamesUnique([src]);
    assert LeftSchema([src], 0) == [];
    assert LeftSchema([src], 1) == [] + Schema(src) == Schema(src);
  }

  /** Over two tables that share two column names, a condition b.c = a.d written right to left compares
      a.c with b.d instead, and is wrong for some rows whatever its operator. */
  lemma {:induction false} SharedNamesWrong(a: Source, b: Source, op: CompareOp, a1: nat, a2: nat, b1: nat, b2: nat)
    requires PlainNames([a, b]) && a1 < |a.tbl.columns| && a2 < |a.tbl.columns| && b1 < |b.tbl.columns| && b2 < |b.tbl.columns| && a1 != a2
    requires a.tbl.columns[a1].name == b.tbl.columns[b1].name && a.tbl.columns[a2].name == b.tbl.columns[b2].name
    ensures var c, left, right := ColCompare(Qualified(b, b1), op, Qualified(a, a2)), Schema(a), Schema(b);
      && Backward(c, left, right, b1, a2)
      && exists l: Row, r: Row :: |l| == |left| && |r| == |right|
           && OnHolds(c, l, r, ColMap(left), ColMap(right)) != BackwardMeant(c, l, r, b1, a2)
  {
    hide ColMap, Resolve, OnHolds, BackwardMeant;
    assert [a, b][0] == a && [a, b][1] == b;
    SameSymmetric(a.qualifier, b.qualifier);
    OwnResolves(b, b1);
    OwnResolves(a, a2);
    ForeignResolves(a, b.qualifier, a1);
    ForeignResolves(b, a.qualifier, b2);
    BackwardRightIff(ColCompare(Qualified(b, b1), op, Qualified(a, a2)), Schema(a), Schema(b), b1, a2);
  }

  lemma {:induction false} ResolveBound(name: string, schema: seq<string>)
    ensures Resolve(name, ColMap(schema)).Some? ==> Resolve(name, ColMap(schema)).value < |schema|
  {
  }

  /** The same pair of columns the other way round: right exactly for equality. */
  lemma {:induction false} EqSymmetric(c: Condition, wl: nat, wr: nat, i: nat, j: nat)
    requires c.ColCompare? && j < wl && i < wr
    ensures (forall l: Row, r: Row :: |l| == wl && |r| == wr ==>
      (CompareVals(At(l, j), At(r, i), c.op) <==> BackwardMeant(c, l, r, i, j))) <==> c.op == Eq
  {
    var l, r := Filled(wl, 0), Filled(wr, 1);
    assert At(l, j) == Int(0) && At(r, i) == Int(1);
    if c.op == Eq {
      forall l: Row, r: Row ensures CompareVals(At(l, j), At(r, i), Eq) <==> CompareVals(At(r, i), At(l, j), Eq) {
        CompareEq(At(l, j), At(r, i));
        CompareEq(At(r, i), At(l, j));
      }
    } else {
      assert CompareVals(At(l, j), At(r, i), c.op) != BackwardMeant(c, l, r, i, j);
    }
  }

  function Filled(w: nat, n: Word): (r: Row)
    ensures |r| == w && forall i :: 0 <= i < w ==> r[i] == Int(n)
  {
    seq(w, _ => Int(n))
  }

  /** Another pair of columns: some rows tell the two readings apart. */
  lemma {:induction false} Distinguish(c: Condition, wl: nat, wr: nat, a: nat, b: nat, i: nat, j: nat)
    requires c.ColCompare? && a < wl && j < wl && b < wr && i < wr && !(a == j && b == i)
    ensures exists l: Row, r: Row :: |l| == wl && |r| == wr && (CompareVals(At(l, a), At(r, b), c.op) != BackwardMeant(c, l, r, i, j))
  {
    var l, r := Filled(wl, 1), Filled(wr, 1);
    if a != j {
      var z: Word := match c.op case Eq => 2 case Gt => 0 case Gte => 2 case Lt => 2 case Lte => 0;
      var l2 := l[j := Int(z)];
      assert At(l2, a) == Int(1) && At(r, b) == Int(1) && At(r, i) == Int(1) && At(l2, j) == Int(z);
      assert CompareVals(At(l2, a), At(r, b), c.op) != BackwardMeant(c, l2, r, i, j);
    } else {
      var z: Word := match c.op case Eq => 2 case Gt => 2 case Gte => 0 case Lt => 0 case Lte => 2;
      var r2 := r[i := Int(z)];
      assert At(l, a) == Int(1) && At(r2, b) == Int(1) && At(r2, i) == Int(z) && At(l, j) == Int(1);
      assert CompareVals(At(l, a), At(r2, b), c.op) != BackwardMeant(c, l, r2, i, j);
    }
  }

  /** The condition links the tables before `m` with table `m`. */
  predicate ConnectsAt(srcs: seq<Source>, c: Condition, m: nat)
    requires m < |srcs|
  {
    CondConnects(c, LeftSchema(srcs, m), Schema(srcs[m]))
  }

  /** The join of table `m` tests the condition. */
  predicate TestedAt(srcs: seq<Source>, conds: seq<Condition>, c: Condition, m: nat)
    requires m < |srcs|
  {
    c in Connected(Remaining(conds, srcs, m), LeftSchema(srcs, m), Schema(srcs[m]))
  }

  /** A condition stays among the remaining ones as long as it connects nothing. */
  lemma {:induction false} RemainsUnconnected(srcs: seq<Source>, conds: seq<Condition>, c: Condition, k: nat)
    requires 1 <= k <= |srcs| && c in conds && forall m :: 1 <= m < k ==> !ConnectsAt(srcs, c, m)
    ensures c in Remaining(conds, srcs, k)
  {
    hide CondConnects, LeftSchema, Schema, Connected, Unconnected;
    if k > 1 {
      RemainsUnconnected(srcs, conds, c, k - 1);
      ConnectedMember(Remaining(conds, srcs, k - 1), LeftSchema(srcs, k - 1), Schema(srcs[k - 1]));
      assert !ConnectsAt(srcs, c, k - 1);
    }
  }

  /** Of the conditions of a query, the first `k` tables' joins test exactly those that connect a left
      side with the next table somewhere; the others are dropped without an error. */
  lemma {:induction false} TestedIffConnects(srcs: seq<Source>, conds: seq<Condition>, c: Condition, k: nat)
    requires 1 <= k <= |srcs| && c in conds
    ensures (exists m :: 1 <= m < k && TestedAt(srcs, conds, c, m)) <==> (exists m :: 1 <= m < k && ConnectsAt(srcs, c, m))
  {
    hide CondConnects, LeftSchema, Schema, Connected, Unconnected, Remaining;
    forall m | 1 <= m < k && TestedAt(srcs, conds, c, m) ensures ConnectsAt(srcs, c, m) {
      ConnectedMember(Remaining(conds, srcs, m), LeftSchema(srcs, m), Schema(srcs[m]));
    }
    if k > 1 {
      TestedIffConnects(srcs, conds, c, k - 1);
      if ConnectsAt(srcs, c, k - 1) && forall m :: 1 <= m < k - 1 ==> !ConnectsAt(srcs, c, m) {
        RemainsUnconnected(srcs, conds, c, k - 1);
        ConnectedMember(Remaining(conds, srcs, k - 1), LeftSchema(srcs, k - 1), Schema(srcs[k - 1]));
        assert TestedAt(srcs, conds, c, k - 1);
      }
    }
  }

  /** A condition between two columns of one table is such a condition. */
  lemma {:induction false} OneTableNeverConnects(srcs: seq<Source>, c: Condition, p: nat, q: nat, k: nat)
    requires UniqueNames(LeftSchema(srcs, |srcs|)) && c.ColCompare? && Dotted(c.col) && Dotted(c.rhs) && 1 <= k < |srcs|
    requires p < Offset(srcs, |srcs|) && q < Offset(srcs, |srcs|)
    requires SameName(LeftSchema(srcs, |srcs|)[p], c.col) && SameName(LeftSchema(srcs, |srcs|)[q], c.rhs)
    requires TableAt(srcs, p, |srcs|) == TableAt(srcs, q, |srcs|)
    ensures !CondConnects(c, LeftSchema(srcs, k), Schema(srcs[k]))
  {
    hide LeftSchema, Schema, Qualified, TableAt, SameName, ColInSchema;
    var n, full := |srcs|, LeftSchema(srcs, |srcs|);
    SchemaSlices(srcs, k, n);
    OffsetStep(srcs, k);
    var a, b := Offset(srcs, k), Offset(srcs, k + 1);
    assert full[..a] == full[0..a];
    InSlice(full, 0, a, c.col, p);
    InSlice(full, 0, a, c.rhs, q);
    InSlice(full, a, b, c.col, p);
    InSlice(full, a, b, c.rhs, q);
    TableAtBound(srcs, p, k, n);
    TableAtBound(srcs, q, k, n);
  }

  /** A clause with a condition that can never hold, or with an OR, is refused instead of planned. */
  lemma {:induction false} RefusedClauses(srcs: seq<Source>, groups: seq<seq<Condition>>, ons: seq<Condition>, choices: seq<Option<nat>>)
    requires |srcs| >= 1 && |groups| >= 1 && (|groups| == 1 ==> ChoicesFor(groups[0], srcs, choices))
    requires forall i :: 0 <= i < |srcs| ==> srcs[i].tbl.ColIndex("").None?
    ensures |groups| > 1 || AlwaysFalse in groups[0] ==> PlanMulti(srcs, Some(groups), ons, choices) == Err
  {
    hide Leaves, Tree;
    if |groups| == 1 && AlwaysFalse in groups[0] {
      var n :| 0 <= n < |groups[0]| && groups[0][n] == AlwaysFalse;
      assert FirstDot("").None? && FirstWithColumn("", srcs).None?;
      assert FindTable(ColumnOf(groups[0][n]), srcs).None?;
    }
  }
}
