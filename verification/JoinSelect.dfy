/** The select list of a query over several tables, and the whole query. */
module JoinSelect {
  import opened Queries
  import opened Mvcc
  import opened Planners
  import opened JoinEval
  import opened Operators
  import opened Joins
  import JoinMeaning
  import PagedExec

  // ---------------------------------------------------------------- what the items mean

  /** The name means column i of the schema: the first one with exactly that name, or, if there is none,
      the only one with that name after its last dot. */
  ghost predicate Means(schema: seq<string>, name: string, i: nat) {
    && i < |schema|
    && (|| (SameName(schema[i], name) && forall j :: 0 <= j < i ==> !SameName(schema[j], name))
        || (EndsIn(schema[i], name) && forall j :: 0 <= j < |schema| ==> !SameName(schema[j], name) && (j != i ==> !EndsIn(schema[j], name))))
  }

  /** The schema name has this name after its last dot. */
  predicate EndsIn(s: string, name: string) {
    Suffix(s).Some? && SameName(Suffix(s).value, name)
  }

  /** "q.*" for some q. */
  predicate StarOf(col: string) {
    |col| >= 2 && col[|col| - 2..] == ".*"
  }

  /** The schema name has this qualifier before its last dot. */
  predicate StartsWith(s: string, q: string) {
    LastDot(s).Some? && SameName(s[..LastDot(s).value], q)
  }

  /** The positions an item of the select list stands for: all columns of a qualifier in order, of which
      there must be some, or the one column it names. */
  ghost predicate Stands(schema: seq<string>, col: string, part: seq<nat>) {
    if StarOf(col) then
      && part != []
      && (forall a, b :: 0 <= a < b < |part| ==> part[a] < part[b])
      && (forall i :: i in part <==> 0 <= i < |schema| && StartsWith(schema[i], col[..|col| - 2]))
    else |part| == 1 && Means(schema, col, part[0])
  }

  /** The positions of a whole select list, item by item; "*" alone stands for every column. */
  ghost predicate Resolves(schema: seq<string>, cols: seq<string>, parts: seq<seq<nat>>) {
    if cols == ["*"] then parts == [seq(|schema|, i => i)]
    else |parts| == |cols| && forall j :: 0 <= j < |cols| ==> Stands(schema, cols[j], parts[j])
  }

  function Flatten(parts: seq<seq<nat>>): seq<nat> {
    if parts == [] then [] else Flatten(parts[..|parts| - 1]) + parts[|parts| - 1]
  }

  // ---------------------------------------------------------------- the loops

  /** Two passes: an exact match first, then the part after the last dot, which must be unambiguous. */
  method FindInSchema(name: string, schema: seq<string>) returns (r: Option<nat>)
    ensures r.Some? ==> Means(schema, name, r.value)
    ensures r.None? ==> forall i: nat :: !Means(schema, name, i)
  {
    hide SameName, Suffix;
    for i := 0 to |schema|
      invariant forall j :: 0 <= j < i ==> !SameName(schema[j], name)
    {
      if SameName(schema[i], name) {
        return Some(i);
      }
    }
    r := None;
    for i := 0 to |schema|
      invariant r.None? ==> forall j :: 0 <= j < i ==> !EndsIn(schema[j], name)
      invariant r.Some? ==> r.value < i && EndsIn(schema[r.value], name) && forall j :: 0 <= j < i && j != r.value ==> !EndsIn(schema[j], name)
    {
      if EndsIn(schema[i], name) {
        if r.Some? {
          return None;
        }
        r := Some(i);
      }
    }
  }

  method Wildcard(q: string, schema: seq<string>) returns (part: seq<nat>)
    ensures forall a, b :: 0 <= a < b < |part| ==> part[a] < part[b]
    ensures forall i :: i in part <==> 0 <= i < |schema| && StartsWith(schema[i], q)
  {
    hide StartsWith;
    part := [];
    for i := 0 to |schema|
      invariant (forall a, b :: 0 <= a < b < |part| ==> part[a] < part[b]) && (forall a :: 0 <= a < |part| ==> part[a] < i)
      invariant forall j :: j in part <==> 0 <= j < i && StartsWith(schema[j], q)
    {
      if StartsWith(schema[i], q) {
        part := part + [i];
      }
    }
  }

  method ResolveItem(col: string, schema: seq<string>) returns (r: Option<seq<nat>>)
    ensures r.Some? ==> Stands(schema, col, r.value)
    ensures r.None? ==> forall part :: !Stands(schema, col, part)
  {
    hide Means, StartsWith;
    if StarOf(col) {
      var part := Wildcard(col[..|col| - 2], schema);
      if part == [] {
        NoStar(schema, col);
        return None;
      }
      return Some(part);
    }
    var found := FindInSchema(col, schema);
    if found.None? {
      return None;
    }
    return Some([found.value]);
  }

  /** Resolves the select list item by item; the first item that stands for nothing is an error. */
  method ResolveColumnsMulti(cols: seq<string>, schema: seq<string>) returns (r: Result<seq<nat>>, ghost parts: seq<seq<nat>>)
    ensures r.Ok? ==> Resolves(schema, cols, parts) && r.value == Flatten(parts)
    ensures r.Err? ==> cols != ["*"] && exists j :: 0 <= j < |cols| && forall part :: !Stands(schema, cols[j], part)
  {
    hide Stands, SameName;
    parts := [];
    if cols == ["*"] {
      parts := [seq(|schema|, i => i)];
      assert parts[..0] == [];
      return Ok(seq(|schema|, i => i)), parts;
    }
    var idxs := [];
    for n := 0 to |cols|
      invariant |parts| == n && idxs == Flatten(parts) && forall j :: 0 <= j < n ==> Stands(schema, cols[j], parts[j])
    {
      var part := ResolveItem(cols[n], schema);
      if part.None? {
        return Err, parts;
      }
      assert (parts + [part.value])[..n] == parts;
      parts, idxs := parts + [part.value], idxs + part.value;
    }
    return Ok(idxs), parts;
  }

  lemma {:induction false} NoStar(schema: seq<string>, col: string)
    requires StarOf(col) && forall i :: 0 <= i < |schema| ==> !StartsWith(schema[i], col[..|col| - 2])
    ensures forall part :: !Stands(schema, col, part)
  {
    forall part ensures !Stands(schema, col, part) {
      if part != [] {
        assert part[0] in part;
      }
    }
  }

  // ---------------------------------------------------------------- the whole query

  /** Where item j starts in a result row. */
  function StartOf(parts: seq<seq<nat>>, j: nat): (n: nat)
    requires j <= |parts|
  {
    |Flatten(parts[..j])|
  }

  /** The result row holds, item after item, the columns the items stand for. */
  ghost predicate ShowsItems(parts: seq<seq<nat>>, row: Row, r: Row) {
    && |r| == StartOf(parts, |parts|)
    && forall j, m :: 0 <= j < |parts| && 0 <= m < |parts[j]| ==> ShowsAt(parts, row, r, j, m)
  }

  ghost predicate ShowsAt(parts: seq<seq<nat>>, row: Row, r: Row, j: nat, m: nat)
    requires j < |parts| && m < |parts[j]|
  {
    StartOf(parts, j) + m < |r| && parts[j][m] < |row| && r[StartOf(parts, j) + m] == row[parts[j][m]]
  }

  lemma {:induction false} FlattenAt(parts: seq<seq<nat>>, j: nat, m: nat)
    requires j < |parts| && m < |parts[j]|
    ensures StartOf(parts, j) + m < |Flatten(parts)| && Flatten(parts)[StartOf(parts, j) + m] == parts[j][m]
  {
    var n := |parts| - 1;
    if j < n {
      FlattenAt(parts[..n], j, m);
      assert parts[..n][..j] == parts[..j];
    }
  }

  lemma {:induction false} PickShows(parts: seq<seq<nat>>, row: Row)
    requires forall j, m :: 0 <= j < |parts| && 0 <= m < |parts[j]| ==> parts[j][m] < |row|
    ensures ShowsItems(parts, row, Pick(row, Flatten(parts)))
  {
    hide Flatten;
    assert parts[..|parts|] == parts;
    forall j, m | 0 <= j < |parts| && 0 <= m < |parts[j]| ensures ShowsAt(parts, row, Pick(row, Flatten(parts)), j, m) {
      FlattenAt(parts, j, m);
    }
  }

  lemma {:induction false} PartsInside(schema: seq<string>, cols: seq<string>, parts: seq<seq<nat>>)
    requires Resolves(schema, cols, parts)
    ensures forall j, m :: 0 <= j < |parts| && 0 <= m < |parts[j]| ==> parts[j][m] < |schema|
  {
    if cols != ["*"] {
      forall j, m | 0 <= j < |parts| && 0 <= m < |parts[j]| ensures parts[j][m] < |schema| {
        assert Stands(schema, cols[j], parts[j]) && parts[j][m] in parts[j];
      }
    }
  }

  /** The plan of the whole query: the join, LIMIT and the projection. */
  function PlanQuery(root: Plan, limit: nat, idxs: seq<nat>): Plan {
    Project(if limit > 0 then Limit(root, limit) else root, idxs)
  }

  /** A query over several tables returns, for each row of the filtered cross product or for `limit` of
      them, one row that shows the items of its select list. */
  lemma {:induction false} JoinStatement(srcs: seq<Source>, where: Option<seq<seq<Condition>>>, ons: seq<Condition>, choices: seq<Option<nat>>,
                                         cols: seq<string>, parts: seq<seq<nat>>, limit: nat, db: string -> Data, snap: Snapshot)
    requires 1 <= |srcs| && JoinMeaning.PlainNames(srcs) && JoinMeaning.Ready(srcs, db, snap)
    requires (where.Some? ==> |where.value| == 1) && JoinMeaning.AllResolved(srcs, Conjunction(where).value) && JoinMeaning.AllForward(srcs, ons)
    requires ChoicesFor(Conjunction(where).value, srcs, choices) && Resolves(LeftSchema(srcs, |srcs|), cols, parts)
    ensures PlanMulti(srcs, where, ons, choices).Ok?
    ensures var root := PlanMulti(srcs, where, ons, choices).value;
      var all, rows := Exec(root, db, snap), Exec(PlanQuery(root, limit, Flatten(parts)), db, snap);
      var out := PickAll(all, Flatten(parts));
      && Distinct(all)
      && (forall row: Row :: row in all <==>
          JoinMeaning.Combined(srcs, db, snap, row) && JoinMeaning.AllHoldOn(srcs, Conjunction(where).value, row) && JoinMeaning.OnsHold(srcs, ons, row))
      && |out| == |all| && (forall i :: 0 <= i < |all| ==> ShowsItems(parts, all[i], out[i]))
      && rows <= out && |rows| == if limit > 0 && |all| > limit then limit else |all|
  {
    hide JoinMeaning.PlainNames, JoinMeaning.Ready, JoinMeaning.AllResolved, JoinMeaning.AllForward, ChoicesFor, Distinct, Exec,
      JoinMeaning.Combined, JoinMeaning.AllHoldOn, JoinMeaning.OnsHold, ShowsItems, Resolves, PlanMulti, Flatten, Pick;
    JoinMeaning.JoinIsFilteredProduct(srcs, where, ons, choices, db, snap);
    var root := PlanMulti(srcs, where, ons, choices).value;
    var all := Exec(root, db, snap);
    ExecSelect(root, limit, Flatten(parts), db, snap);
    PartsInside(LeftSchema(srcs, |srcs|), cols, parts);
    forall i | 0 <= i < |all| ensures ShowsItems(parts, all[i], PickAll(all, Flatten(parts))[i]) {
      assert all[i] in all;
      CombinedWide(srcs, db, snap, all[i]);
      PickShows(parts, all[i]);
    }
  }

  lemma {:induction false} CombinedWide(srcs: seq<Source>, db: string -> Data, snap: Snapshot, row: Row)
    requires JoinMeaning.Combined(srcs, db, snap, row)
    ensures |row| == |LeftSchema(srcs, |srcs|)|
  {
  }

  /** Over paged trees the query fails exactly when its join does before LIMIT has its rows, and otherwise
      returns the rows it stands for. */
  lemma {:induction false} QueryOverPages(root: Plan, limit: nat, idxs: seq<nat>, pdb: string -> PagedExec.Paged, db: string -> Data, snap: Snapshot)
    requires PagedExec.Backed(root, pdb, db)
    ensures var plan := PlanQuery(root, limit, idxs);
      && PagedExec.Backed(plan, pdb, db)
      && (PagedExec.Pull(plan, pdb, db, snap).faults <==>
          PagedExec.Pull(root, pdb, db, snap).faults && (limit == 0 || |PagedExec.Pull(root, pdb, db, snap).rows| < limit))
      && (!PagedExec.Pull(plan, pdb, db, snap).faults ==> PagedExec.Pull(plan, pdb, db, snap).rows == Exec(plan, db, snap))
  {
    hide PagedExec.Pull, Exec, PagedExec.Backed;
    PagedExec.TopStream(root, limit, idxs, pdb, db, snap);
    PagedExec.PullPrefix(PlanQuery(root, limit, idxs), pdb, db, snap);
  }

  // ---------------------------------------------------------------- which queries are planned

  /** Table i owns the column of a filter: by its qualifier, or as the only one with a column of that name. */
  ghost predicate OwnedBy(col: string, srcs: seq<Source>, i: nat) {
    && i < |srcs|
    && if '.' in col
       then exists d :: 0 <= d < |col| && col[d] == '.' && '.' !in col[..d] && SameName(srcs[i].qualifier, col[..d])
       else forall j :: 0 <= j < |srcs| ==> (srcs[j].tbl.ColIndex(col).Some? <==> j == i)
  }

  lemma {:induction false} FoundIffOwned(col: string, srcs: seq<Source>)
    ensures FindTable(col, srcs).Some? <==> exists i: nat :: OwnedBy(col, srcs, i)
    ensures FindTable(col, srcs).Some? ==> OwnedBy(col, srcs, FindTable(col, srcs).value)
  {
    hide SameName, FirstInt, FirstNamed;
    if '.' in col {
      QualifiedOwned(col, srcs);
    } else {
      assert FirstDot(col).None?;
      if FindTable(col, srcs).Some? {
        var i := FindTable(col, srcs).value;
        forall j | 0 <= j < |srcs| && srcs[j].tbl.ColIndex(col).Some? ensures j == i {
          assert i < j || j < i || i == j;
        }
        assert OwnedBy(col, srcs, i);
      }
      if i: nat :| OwnedBy(col, srcs, i) {
        assert srcs[i].tbl.ColIndex(col).Some?;
      }
    }
  }

  lemma {:induction false} FirstDotUnique(col: string, d: nat, e: nat)
    requires d < |col| && e < |col| && col[d] == col[e] == '.' && '.' !in col[..d] && '.' !in col[..e]
    ensures d == e
  {
    assert forall j :: 0 <= j < d ==> col[..d][j] == col[j];
    assert forall j :: 0 <= j < e ==> col[..e][j] == col[j];
  }

  lemma {:induction false} QualifiedOwned(col: string, srcs: seq<Source>)
    requires '.' in col
    ensures FindTable(col, srcs).Some? <==> exists i: nat :: OwnedBy(col, srcs, i)
    ensures FindTable(col, srcs).Some? ==> OwnedBy(col, srcs, FindTable(col, srcs).value)
  {
    hide SameName;
    assert FirstDot(col).Some?;
    var dot := FirstDot(col).value;
    forall d | 0 <= d < |col| && col[d] == '.' && '.' !in col[..d] ensures d == dot {
      FirstDotUnique(col, d, dot);
    }
    var r := FirstQualified(col[..dot], srcs);
    assert FindTable(col, srcs) == r;
    if r.Some? {
      assert col[dot] == '.' && '.' !in col[..dot] && SameName(srcs[r.value].qualifier, col[..dot]);
      assert OwnedBy(col, srcs, r.value);
    } else {
      forall i: nat ensures !OwnedBy(col, srcs, i) {
        if i < |srcs| {
          assert !SameName(srcs[i].qualifier, col[..dot]);
        }
      }
    }
  }

  /** A query over several tables is planned exactly when it has no OR and each of its filters is owned by
      one table. */
  lemma {:induction false} PlannedIff(srcs: seq<Source>, where: Option<seq<seq<Condition>>>, ons: seq<Condition>, choices: seq<Option<nat>>)
    requires |srcs| >= 1 && (where.Some? ==> |where.value| >= 1)
    requires Conjunction(where).Ok? ==> ChoicesFor(Conjunction(where).value, srcs, choices)
    ensures PlanMulti(srcs, where, ons, choices).Ok? <==>
      where.None? || (|where.value| == 1 && forall n :: 0 <= n < |where.value[0]| && !where.value[0][n].ColCompare? ==>
        exists i: nat :: OwnedBy(ColumnOf(where.value[0][n]), srcs, i))
  {
    hide OwnedBy, FindTable, Leaves, Tree, JoinConds, ChoicesFor;
    if where.Some? && |where.value| == 1 {
      var conds := where.value[0];
      forall n | 0 <= n < |conds| ensures FindTable(ColumnOf(conds[n]), srcs).Some? <==> exists i: nat :: OwnedBy(ColumnOf(conds[n]), srcs, i) {
        FoundIffOwned(ColumnOf(conds[n]), srcs);
      }
    }
  }
}
