/** The statements as they run, row by row and index by index, and what exact indexes buy the planner. */
module Statements {
  import opened Seqs
  import opened Queries
  import opened Mvcc
  import opened Tables
  import Operators

  lemma {:induction false} DeleteStep(idx: Index, rows: map<Word, Version>, picked: seq<Word>, i: nat, c: nat)
    requires i < |picked| && picked[i] in rows && c < |rows[picked[i]].row| && rows[picked[i]].row[c].Int?
    ensures DeletedIndex(idx, rows, picked[..i + 1], c) == DeletedIndex(idx, rows, picked[..i], c) - {rows[picked[i]].row[c].n}
  {
    TakeOne(picked, i);
  }

  lemma {:induction false} UpdateStep(idx: Index, rows: map<Word, Version>, picked: seq<Word>, i: nat, plans: seq<UpdatePlan>, c: nat)
    requires PlansInside(rows, plans) && i < |picked| && picked[i] in rows && c < |rows[picked[i]].row|
    requires rows[picked[i]].row[c].Int? && NewVals(rows[picked[i]].row, plans)[c].Int?
    ensures UpdatedIndex(idx, rows, picked[..i + 1], plans, c) ==
      MoveEntry(UpdatedIndex(idx, rows, picked[..i], plans, c), rows[picked[i]].row[c].n, NewVals(rows[picked[i]].row, plans)[c].n, picked[i])
  {
    TakeOne(picked, i);
  }

  lemma {:induction false} UpdatedMore(rows: map<Word, Version>, picked: seq<Word>, i: nat, plans: seq<UpdatePlan>, xid: nat)
    requires PlansInside(rows, plans) && i < |picked| && picked[i] in rows
    ensures UpdatedRows(rows, picked[..i + 1], plans, xid) ==
      UpdatedRows(rows, picked[..i], plans, xid)[picked[i] := Version(xid, XID_NONE, NewVals(rows[picked[i]].row, plans))]
  {
    TakeOne(picked, i);
  }

  /** A rejected INSERT leaves what is read alone, any other one adds its row. */
  lemma {:induction false} InsertOutcome(tbl: Table, s: State, row: Row)
    requires Valid(tbl, s) && tbl.Fits(row)
    ensures View(Exec(tbl, s, Insert(row))) == if Taken(tbl, s.indexes, row) then View(s) else View(s)[tbl.KeyOf(row) := row]
  {
    hide View, Taken;
    if Taken(tbl, s.indexes, row) {
      SameView(s, Exec(tbl, s, Insert(row)));
    } else {
      InsertReads(tbl, s, row);
    }
  }

  class TableStore {
    const tbl: Table
    var rows: map<Word, Version>
    var indexes: seq<Index>
    var committed: set<nat>
    var nextXid: nat

    ghost function Content(): State
      reads this
    {
      State(rows, indexes, committed, nextXid)
    }

    /** Writes the row, then one entry per index; an entry that is already there undoes everything. */
    method AutoCommitInsert(row: Row) returns (ok: bool)
      requires Valid(tbl, Content()) && tbl.Fits(row)
      modifies this
      ensures Content() == Exec(tbl, old(Content()), Insert(row))
      ensures ok <==> !Taken(tbl, old(indexes), row)
      ensures View(Content()) == if ok then old(View(Content()))[tbl.KeyOf(row) := row] else old(View(Content()))
    {
      hide View, Settled;
      ghost var s := Content();
      InsertOutcome(tbl, s, row);
      var xid := nextXid;
      nextXid := nextXid + 1;
      var key := row[tbl.PrimaryKey().value].n;
      var rows', indexes' := rows[key := Version(xid, XID_NONE, row)], indexes;
      for i := 0 to |tbl.indexes|
        invariant indexes' == InsertAll(tbl, indexes, row, key, i)
        invariant forall j :: 0 <= j < i ==> row[IndexColumn(tbl, j)].n !in indexes[j]
      {
        assert tbl.indexes[i] in tbl.indexes;
        var c := IndexColumn(tbl, i);
        var value := row[c].n;
        if value in indexes'[i] {
          return false;
        }
        indexes' := indexes'[i := indexes'[i][value := key]];
      }
      rows, indexes := rows', indexes';
      committed := committed + {xid};
      return true;
    }

    /** Checks the number and the types of the values first. */
    method ExecInsert(values: Row) returns (ok: bool)
      requires Valid(tbl, Content())
      modifies this
      ensures ok <==> tbl.Fits(values) && !Taken(tbl, old(indexes), values)
      ensures if tbl.Fits(values) then Content() == Exec(tbl, old(Content()), Insert(values)) else Content() == old(Content())
    {
      if |values| != |tbl.columns| {
        return false;
      }
      for i := 0 to |values|
        invariant forall j :: 0 <= j < i ==> ColTypeOf(values[j]) == tbl.columns[j].typ
      {
        if ColTypeOf(values[i]) != tbl.columns[i].typ {
          return false;
        }
      }
      ok := AutoCommitInsert(values);
    }

    /** Marks each picked row deleted and removes its index entries. */
    method ApplyDelete(where: Option<seq<seq<Condition>>>, picked: seq<Word>)
      requires Valid(tbl, Content()) && Picks(tbl, Content(), where, picked)
      modifies this
      ensures Content() == Exec(tbl, old(Content()), Delete(where, picked))
      ensures Effect(tbl, old(View(Content())), Delete(where, picked), View(Content()))
    {
      hide Picks, DeletedIndex, Settled, DeletedRows, Table.WellFormed, Table.Fits, Effect, View;
      var xid := nextXid;
      nextXid := nextXid + 1;
      ghost var s := old(Content());
      DeleteReads(tbl, s, where, picked);
      PickedStored(tbl, s, where, picked);
      NothingDeleted(tbl, s);
      NoneDeleted(s.rows, picked[..0], xid);
      for i := 0 to |picked|
        invariant rows == DeletedRows(s.rows, picked[..i], xid)
        invariant indexes == DeleteAll(tbl, s, picked[..i])
        invariant committed == s.committed && nextXid == xid + 1
      {
        var k := picked[i];
        DeletedMore(s.rows, picked, i, xid);
        var values := rows[k].row;
        rows := rows[k := rows[k].(xmax := xid)];
        DropEntries(values, s, picked, i);
      }
      assert picked[..|picked|] == picked;
      committed := committed + {xid};
    }

    method DropEntries(values: Row, ghost s: State, ghost picked: seq<Word>, ghost i: nat)
      requires tbl.WellFormed() && RowsFit(tbl, s.rows) && |s.indexes| == |tbl.indexes|
      requires i < |picked| && picked[i] in s.rows && values == s.rows[picked[i]].row
      requires indexes == DeleteAll(tbl, s, picked[..i])
      modifies `indexes
      ensures indexes == DeleteAll(tbl, s, picked[..i + 1])
    {
      hide DeletedIndex;
      for j := 0 to |tbl.indexes|
        invariant |indexes| == |tbl.indexes|
        invariant forall m :: 0 <= m < |indexes| ==>
          indexes[m] == DeletedIndex(s.indexes[m], s.rows, if m < j then picked[..i + 1] else picked[..i], IndexColumn(tbl, m))
      {
        var c := IndexColumn(tbl, j);
        DeleteStep(s.indexes[j], s.rows, picked, i, c);
        indexes := indexes[j := indexes[j] - {values[c].n}];
      }
    }

    /** Rewrites each picked row and moves its index entries. */
    method ApplyUpdate(where: Option<seq<seq<Condition>>>, picked: seq<Word>, plans: seq<UpdatePlan>)
      requires Valid(tbl, Content()) && Picks(tbl, Content(), where, picked) && PlansFit(tbl, plans)
      modifies this
      ensures Content() == Exec(tbl, old(Content()), Update(where, picked, plans))
      ensures Effect(tbl, old(View(Content())), Update(where, picked, plans), View(Content()))
    {
      hide Picks, UpdatedIndex, Settled, Effect, View, NewVals;
      var xid := nextXid;
      nextXid := nextXid + 1;
      ghost var s := old(Content());
      UpdateReads(tbl, s, where, picked, plans);
      PickedStored(tbl, s, where, picked);
      assert PlansInside(s.rows, plans);
      assert rows == UpdatedRows(s.rows, picked[..0], plans, xid);
      NothingUpdated(tbl, s, plans);
      for i := 0 to |picked|
        invariant rows == UpdatedRows(s.rows, picked[..i], plans, xid)
        invariant indexes == UpdateAll(tbl, s, picked[..i], plans)
        invariant committed == s.committed && nextXid == xid + 1
      {
        var k := picked[i];
        ghost var values := s.rows[k].row;
        UpdatedMore(s.rows, picked, i, plans, xid);
        NotYetUpdated(s.rows, picked, i, plans, xid);
        var oldVals := rows[k].row;
        var newVals := SetValues(oldVals, plans);
        rows := rows[k := Version(xid, XID_NONE, newVals)];
        MoveEntries(oldVals, newVals, k, plans, s, picked, i);
      }
      assert picked[..|picked|] == picked;
      committed := committed + {xid};
    }

    method SetValues(row: Row, plans: seq<UpdatePlan>) returns (newVals: Row)
      requires forall i :: 0 <= i < |plans| ==> plans[i].col < |row|
      ensures newVals == NewVals(row, plans)
    {
      newVals := row;
      for i := 0 to |plans|
        invariant newVals == NewVals(row, plans[..i])
      {
        TakeOne(plans, i);
        newVals := newVals[plans[i].col := plans[i].val];
      }
      assert plans[..|plans|] == plans;
    }

    method MoveEntries(oldVals: Row, newVals: Row, k: Word, plans: seq<UpdatePlan>, ghost s: State, ghost picked: seq<Word>, ghost i: nat)
      requires tbl.WellFormed() && RowsFit(tbl, s.rows) && |s.indexes| == |tbl.indexes| && PlansFit(tbl, plans) && PlansInside(s.rows, plans)
      requires i < |picked| && picked[i] == k && k in s.rows && oldVals == s.rows[k].row && newVals == NewVals(oldVals, plans)
      requires indexes == UpdateAll(tbl, s, picked[..i], plans)
      modifies `indexes
      ensures indexes == UpdateAll(tbl, s, picked[..i + 1], plans)
    {
      hide UpdatedIndex;
      NewValsFit(tbl, oldVals, plans);
      for j := 0 to |tbl.indexes|
        invariant |indexes| == |tbl.indexes|
        invariant forall m :: 0 <= m < |indexes| ==>
          indexes[m] == UpdatedIndex(s.indexes[m], s.rows, if m < j then picked[..i + 1] else picked[..i], plans, IndexColumn(tbl, m))
      {
        var c := IndexColumn(tbl, j);
        UpdateStep(s.indexes[j], s.rows, picked, i, plans, c);
        var oldKey, newKey := oldVals[c].n, newVals[c].n;
        if oldKey == newKey {
          continue;
        }
        indexes := indexes[j := MoveEntry(indexes[j], oldKey, newKey, k)];
      }
    }
  }

  lemma {:induction false} PickedStored(tbl: Table, s: State, where: Option<seq<seq<Condition>>>, picked: seq<Word>)
    requires RowsFit(tbl, s.rows) && Picks(tbl, s, where, picked)
    ensures NoRepeats(picked) && forall i :: 0 <= i < |picked| ==> picked[i] in s.rows
  {
    assert forall i :: 0 <= i < |picked| ==> picked[i] in picked;
  }

  lemma {:induction false} NoneDeleted(rows: map<Word, Version>, picked: seq<Word>, xid: nat)
    requires picked == []
    ensures DeletedRows(rows, picked, xid) == rows
  {
  }

  /** The row whose turn it is still has the values the scan saw. */
  lemma {:induction false} DeletedMore(rows: map<Word, Version>, picked: seq<Word>, i: nat, xid: nat)
    requires i < |picked| && forall j :: 0 <= j < |picked| ==> picked[j] in rows
    ensures var r := DeletedRows(rows, picked[..i], xid);
      && picked[i] in r && r[picked[i]].row == rows[picked[i]].row
      && DeletedRows(rows, picked[..i + 1], xid) == r[picked[i] := r[picked[i]].(xmax := xid)]
  {
    TakeOne(picked, i);
    DeletedExactly(rows, picked[..i], xid);
  }

  lemma {:induction false} NothingDeleted(tbl: Table, s: State)
    requires tbl.WellFormed() && |s.indexes| == |tbl.indexes|
    ensures s.indexes == DeleteAll(tbl, s, [])
  {
  }

  lemma {:induction false} NothingUpdated(tbl: Table, s: State, plans: seq<UpdatePlan>)
    requires tbl.WellFormed() && |s.indexes| == |tbl.indexes| && PlansInside(s.rows, plans)
    ensures s.indexes == UpdateAll(tbl, s, [], plans)
  {
  }

  /** The scan's values are still there when a row's turn comes: no key is picked twice. */
  lemma {:induction false} NotYetUpdated(rows: map<Word, Version>, picked: seq<Word>, i: nat, plans: seq<UpdatePlan>, xid: nat)
    requires PlansInside(rows, plans) && NoRepeats(picked) && i < |picked| && picked[i] in rows
    ensures UpdatedRows(rows, picked[..i], plans, xid)[picked[i]] == rows[picked[i]]
  {
    assert picked[i] !in picked[..i];
  }

  // ---------------------------------------------------------------- exact indexes and the planner

  /** The cells are the stored rows in key order. */
  ghost predicate Lists(cells: seq<Operators.Cell>, rows: map<Word, Version>) {
    && Operators.KeysAscend(cells)
    && (forall i :: 0 <= i < |cells| ==> cells[i].key in rows && rows[cells[i].key] == Version(cells[i].xmin, cells[i].xmax, cells[i].row))
    && (forall k :: k in rows ==> exists i :: 0 <= i < |cells| && cells[i].key == k)
  }

  /** The entries are the index in value order. */
  ghost predicate ListsIndex(entries: seq<Operators.IndexCell>, idx: Index) {
    && Operators.ValuesAscend(entries)
    && forall v, k :: Operators.IndexCell(v, k) in entries <==> v in idx && idx[v] == k
  }

  /** An exact index covers every fresh snapshot, so the planner may use it. */
  lemma {:induction false} ExactCovers(tbl: Table, s: State, i: nat, cells: seq<Operators.Cell>, entries: seq<Operators.IndexCell>)
    requires Valid(tbl, s) && AllExact(tbl, s) && i < |s.indexes| && Lists(cells, s.rows) && ListsIndex(entries, s.indexes[i])
    ensures Operators.Covers(cells, Fresh(s), entries, IndexColumn(tbl, i))
  {
    var idx, c := s.indexes[i], IndexColumn(tbl, i);
    forall n | 0 <= n < |cells| && Fresh(s).IsVisible(cells[n].xmin, cells[n].xmax)
      ensures c < |cells[n].row| && cells[n].row[c].Int? && Operators.IndexCell(cells[n].row[c].n, cells[n].key) in entries
    {
      FreshSeesLive(s, cells[n].key);
      assert Live(s.rows, cells[n].key);
    }
    forall n, e | 0 <= n < |cells| && Fresh(s).IsVisible(cells[n].xmin, cells[n].xmax) && e in entries && e.pk == cells[n].key
      ensures cells[n].row[c] == Int(e.value)
    {
      assert Operators.IndexCell(e.value, e.pk) in entries;
    }
  }
}
