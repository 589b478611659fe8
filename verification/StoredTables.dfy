/** A table and its indexes in trees of fixed slots: what the statements store and what lookups and scans
    over the trees read back. */
module StoredTables {
  import opened Pages
  import opened Bytes
  import opened Queries
  import opened Mvcc
  import opened BTreeSpec
  import opened BTrees
  import opened Tables
  import opened Statements
  import Cursors
  import NodeCodec
  import RowCodec
  import Operators
  import Stack

  // ---------------------------------------------------------------- slots

  /** An index entry's slot: the primary key in the first eight bytes, zeros behind it. */
  function IndexSlot(pk: Word): (val: Value)
    ensures |val| == VALUE_SIZE && val[..8] == Le(pk, 8)
  {
    Le(pk, 8) + Zeros(VALUE_SIZE - 8)
  }

  /** The key is read from the first eight bytes, whatever stands behind them. */
  lemma {:induction false} IndexCellBack(v: Word, val: Value, pk: Word)
    requires |val| == VALUE_SIZE && val[..8] == Le(pk, 8)
    ensures Stack.IndexCellOf(Entry(v, val)) == Operators.IndexCell(v, pk)
  {
    hide NodeCodec.ReadNumber, Le, Pow256;
    Widths();
    assert val == [] + Le(pk, 8) + val[8..];
    NodeCodec.ReadAt([], pk, 8, val[8..]);
  }

  /** The tree's map is the index, each entry in its slot. */
  ghost predicate HoldsIndex(m: map<int, Value>, idx: Index) {
    && (forall v :: v in m <==> 0 <= v < KEY_LIMIT && v in idx)
    && forall v :: v in m ==> |m[v]| == VALUE_SIZE && m[v][..8] == Le(idx[v], 8)
  }

  /** The tree's map is the stored versions, each one in its slot. */
  ghost predicate HoldsRows(tbl: Table, m: map<int, Value>, rows: map<Word, Version>)
    requires RowCodec.SchemaOk(tbl)
  {
    && (forall k :: k in m <==> 0 <= k < KEY_LIMIT && k in rows)
    && forall k :: k in m ==> HoldsRow(tbl, k, m[k], rows[k])
  }

  /** A slot: the two header words, and columns that decode to the row. */
  ghost predicate HoldsRow(tbl: Table, k: int, val: Value, v: Version)
    requires RowCodec.SchemaOk(tbl)
  {
    && |val| == VALUE_SIZE && v.xmin < 0x1_0000_0000 && v.xmax < 0x1_0000_0000
    && val[..4] == Le(v.xmin, 4) && val[4..8] == Le(v.xmax, 4)
    && v.row == RowCodec.DecodeRow(tbl, val) && tbl.KeyOf(v.row) == k
  }

  /** The slot is read as the version it holds. */
  lemma {:induction false} CellRead(tbl: Table, k: Word, val: Value, v: Version)
    requires RowCodec.SchemaOk(tbl) && HoldsRow(tbl, k, val, v)
    ensures Stack.CellOf(tbl, Entry(k, val)) == Operators.Cell(k, v.xmin, v.xmax, v.row)
  {
    hide NodeCodec.ReadNumber, Le, Pow256, RowCodec.DecodeRow;
    Widths();
    assert val == [] + Le(v.xmin, 4) + val[4..] && val == Le(v.xmin, 4) + Le(v.xmax, 4) + val[8..];
    NodeCodec.ReadAt([], v.xmin, 4, val[4..]);
    NodeCodec.ReadAt(Le(v.xmin, 4), v.xmax, 4, val[8..]);
  }

  /** An encoded row is held with its texts cut to what the slot keeps. */
  lemma {:induction false} EncodedHolds(tbl: Table, row: Row, xmin: nat, xmax: nat)
    requires RowCodec.SchemaOk(tbl) && tbl.Fits(row) && xmin < 0x1_0000_0000 && xmax < 0x1_0000_0000
    ensures HoldsRow(tbl, tbl.KeyOf(row), RowCodec.RowBytes(tbl, row, xmin, xmax), Version(xmin, xmax, RowCodec.StoredRow(row)))
  {
    hide RowCodec.DecodeRow, RowCodec.RowBytes, Le, NodeCodec.ReadNumber, RowCodec.Body;
    RowCodec.RowRoundTrip(tbl, row, xmin, xmax);
    RowCodec.SlotParts(tbl, row, xmin, xmax);
    var d := RowCodec.RowBytes(tbl, row, xmin, xmax);
    assert d == Le(xmin, 4) + Le(xmax, 4) + d[8..];
    assert RowCodec.DecodeRow(tbl, d) == RowCodec.StoredRow(row);
  }

  /** Overwriting the second header word marks the version deleted and nothing else. */
  lemma {:induction false} DeletedHolds(tbl: Table, k: Word, val: Value, v: Version, xid: nat)
    requires RowCodec.SchemaOk(tbl) && HoldsRow(tbl, k, val, v) && xid < 0x1_0000_0000
    ensures HoldsRow(tbl, k, Splice(val, 4, Le(xid, 4)), v.(xmax := xid))
  {
    hide RowCodec.ReadRow, Le;
    RowCodec.ReadBehindHead(tbl, val, Splice(val, 4, Le(xid, 4)), |tbl.columns|);
  }

  // ---------------------------------------------------------------- from maps to entries

  lemma {:induction false} EntriesOf(es: seq<Entry>)
    requires Sorted(es)
    ensures forall i :: 0 <= i < |es| ==> es[i].key in AsMap(es) && AsMap(es)[es[i].key] == es[i].val
    ensures forall k :: k in AsMap(es) ==> exists i :: 0 <= i < |es| && es[i].key == k
  {
    if es != [] {
      var init, e := es[..|es| - 1], es[|es| - 1];
      EntriesOf(init);
      forall k | k in AsMap(es) ensures exists i :: 0 <= i < |es| && es[i].key == k {
        if k == e.key {
          assert es[|es| - 1].key == k;
        } else {
          assert k in AsMap(init);
          var i :| 0 <= i < |init| && init[i].key == k;
          assert es[i].key == k;
        }
      }
    }
  }

  /** The entries of a tree that holds an index list it in value order. */
  lemma {:induction false} IndexTree(es: seq<Entry>, idx: Index)
    requires Sorted(es) && HoldsIndex(AsMap(es), idx)
    ensures Stack.Slots(es) && ListsIndex(Stack.IndexCells(es), idx)
  {
    hide AsMap, Stack.IndexCellOf, Le;
    EntriesOf(es);
    forall i | 0 <= i < |es| ensures 0 <= es[i].key < KEY_LIMIT && |es[i].val| == VALUE_SIZE {
      assert es[i].key in AsMap(es);
    }
    var cells := Stack.IndexCells(es);
    forall i | 0 <= i < |es| ensures es[i].key in idx && cells[i] == Operators.IndexCell(es[i].key, idx[es[i].key]) {
      assert es[i].key in AsMap(es);
      IndexCellBack(es[i].key, es[i].val, idx[es[i].key]);
    }
    forall v: Word, k: Word ensures Operators.IndexCell(v, k) in cells <==> v in idx && idx[v] == k {
      if v in idx && idx[v] == k {
        assert v in AsMap(es);
        var i :| 0 <= i < |es| && es[i].key == v;
        assert cells[i] == Operators.IndexCell(v, k);
      }
    }
  }

  /** The entries of a tree that holds rows list them in key order, as they were given. */
  lemma {:induction false} RowTree(tbl: Table, es: seq<Entry>, rows: map<Word, Version>)
    requires RowCodec.SchemaOk(tbl) && Sorted(es) && HoldsRows(tbl, AsMap(es), rows)
    ensures Stack.Slots(es) && Lists(Stack.Cells(tbl, es), rows) && Operators.Stored(tbl, Stack.Cells(tbl, es))
  {
    hide AsMap, Stack.CellOf, RowCodec.DecodeRow, Le;
    EntriesOf(es);
    forall i | 0 <= i < |es|
      ensures es[i].key in rows && HoldsRow(tbl, es[i].key, es[i].val, rows[es[i].key]) && 0 <= es[i].key < KEY_LIMIT && |es[i].val| == VALUE_SIZE
    {
      assert es[i].key in AsMap(es);
    }
    var cells := Stack.Cells(tbl, es);
    forall i | 0 <= i < |es| ensures var v := rows[es[i].key]; cells[i] == Operators.Cell(es[i].key, v.xmin, v.xmax, v.row) {
      var v := rows[es[i].key];
      assert HoldsRow(tbl, es[i].key, es[i].val, v);
      CellRead(tbl, es[i].key, es[i].val, v);
    }
    forall k | k in rows ensures exists i :: 0 <= i < |cells| && cells[i].key == k {
      assert k in AsMap(es);
      var i :| 0 <= i < |es| && es[i].key == k;
      assert cells[i].key == k;
    }
  }

  // ---------------------------------------------------------------- reading

  /** The rows are exactly those of the table whose column c lies in the range, each once. */
  ghost predicate RowsBetween(rows: seq<Row>, m: map<Word, Row>, c: nat, min: Word, max: Word) {
    && Operators.Distinct(rows)
    && forall row: Row :: row in rows <==> (exists k :: k in m && m[k] == row) && c < |row| && row[c].Int? && min <= row[c].n <= max
  }

  /** What the operators are shown is what the table holds. */
  lemma {:induction false} ShownIsView(tbl: Table, s: State, cells: seq<Operators.Cell>, row: Row)
    requires Lists(cells, s.rows)
    ensures Operators.Shown(cells, Fresh(s), row) <==> exists k :: k in View(s) && View(s)[k] == row
  {
    if Operators.Shown(cells, Fresh(s), row) {
      var i :| 0 <= i < |cells| && cells[i].row == row && Fresh(s).IsVisible(cells[i].xmin, cells[i].xmax);
      assert cells[i].key in View(s) && View(s)[cells[i].key] == row;
    }
    if k :| k in View(s) && View(s)[k] == row {
      var i :| 0 <= i < |cells| && cells[i].key == k;
      assert cells[i].row == row;
    }
  }

  /** Looking a range up in one index is looking it up in a table with that index alone. */
  lemma {:induction false} LookupReads(tbl: Table, s: State, i: nat, cells: seq<Operators.Cell>, entries: seq<Operators.IndexCell>, min: Word, max: Word)
    requires Valid(tbl, s) && AllExact(tbl, s) && i < |s.indexes| && Operators.Stored(tbl, cells)
    requires Lists(cells, s.rows) && ListsIndex(entries, s.indexes[i])
    ensures RowsBetween(Operators.LookupRows(entries, cells, min, max, Fresh(s)), View(s), IndexColumn(tbl, i), min, max)
  {
    hide Operators.LookupRows, Lists, ListsIndex, Operators.Covers, View, Operators.Shown, AllExact, Settled;
    ExactCovers(tbl, s, i, cells, entries);
    var d := tbl.indexes[i];
    assert d in tbl.indexes;
    var alone := tbl.(indexes := [d]);
    assert alone.ColIndex(d.column) == tbl.ColIndex(d.column) && alone.PrimaryKey() == tbl.PrimaryKey();
    var data := Operators.Data(cells, map[Lower(d.name) := entries]);
    assert Operators.Stored(alone, cells) by {
      forall n | 0 <= n < |cells| ensures alone.Fits(cells[n].row) && alone.KeyOf(cells[n].row) == cells[n].key {
        assert tbl.Fits(cells[n].row);
      }
    }
    Operators.LookupExact(alone, data, d, min, max, Fresh(s));
    var rows := Operators.LookupRows(entries, cells, min, max, Fresh(s));
    forall row: Row
      ensures row in rows <==> (exists k :: k in View(s) && View(s)[k] == row) && IndexColumn(tbl, i) < |row| && row[IndexColumn(tbl, i)].Int? && min <= row[IndexColumn(tbl, i)].n <= max
    {
      ShownIsView(tbl, s, cells, row);
      ViewFits(tbl, s);
    }
  }

  /** An index lookup over the pages of a table with exact indexes: it fails exactly when the index cursor
      meets an empty leaf, and otherwise returns exactly the rows with a value in the range. */
  method LookupRange(idx: BTree, primary: BTree, tbl: Table, ghost s: State, ghost i: nat, snap: Snapshot, min: Word, max: Word)
    returns (r: Result<seq<Row>>)
    requires idx.Valid() && primary.Valid() && RowCodec.SchemaOk(tbl) && snap == Fresh(s)
    requires Valid(tbl, s) && AllExact(tbl, s) && i < |s.indexes|
    requires HoldsIndex(AsMap(idx.Contents()), s.indexes[i]) && HoldsRows(tbl, AsMap(primary.Contents()), s.rows)
    ensures r.Err? <==> min <= max && Cursors.MeetsEmptyLeaf(idx.tree, min, max)
    ensures r.Ok? ==> RowsBetween(r.value, View(s), IndexColumn(tbl, i), min, max)
  {
    hide BTree.Valid, HoldsIndex, HoldsRows, AsMap, Flat, RowsBetween, Lists, ListsIndex, AllExact, Valid, Cursors.MeetsEmptyLeaf, Operators.LookupRows;
    SortedContents(idx);
    SortedContents(primary);
    IndexTree(idx.Contents(), s.indexes[i]);
    RowTree(tbl, primary.Contents(), s.rows);
    r := Stack.LookupTable(idx, primary, tbl, snap, min, max);
    LookupReads(tbl, s, i, Stack.Cells(tbl, primary.Contents()), Stack.IndexCells(idx.Contents()), min, max);
  }

  /** A scan over the pages of the rows returns exactly the rows with a key in the range. */
  method ScanRange(primary: BTree, tbl: Table, ghost s: State, snap: Snapshot, min: Word, max: Word) returns (r: Result<seq<Row>>)
    requires primary.Valid() && RowCodec.SchemaOk(tbl) && snap == Fresh(s) && RowsFit(tbl, s.rows)
    requires HoldsRows(tbl, AsMap(primary.Contents()), s.rows)
    ensures r.Err? <==> min <= max && Cursors.MeetsEmptyLeaf(primary.tree, min, max)
    ensures r.Ok? ==> RowsBetween(r.value, View(s), tbl.PrimaryKey().value, min, max)
  {
    hide BTree.Valid, HoldsRows, AsMap, Flat, Lists, Cursors.MeetsEmptyLeaf, Operators.ScanRows, View, Operators.Shown;
    SortedContents(primary);
    RowTree(tbl, primary.Contents(), s.rows);
    r := Stack.ScanTable(primary, tbl, snap, min, max);
    ghost var cells, c := Stack.Cells(tbl, primary.Contents()), tbl.PrimaryKey().value;
    Operators.ScanExact(tbl, cells, min, max, snap);
    ViewFits(tbl, s);
    forall row: Row ensures Operators.Shown(cells, snap, row) <==> exists k :: k in View(s) && View(s)[k] == row {
      ShownIsView(tbl, s, cells, row);
    }
  }

  lemma {:induction false} SortedContents(bt: BTree)
    requires bt.Valid()
    ensures Sorted(bt.Contents())
  {
    FlatSorted(bt.tree, bt.height, 0, KEY_LIMIT);
  }

  // ---------------------------------------------------------------- writing

  /** Adds an index entry; the tree holds the index with it. */
  method PutEntry(bt: BTree, v: Word, pk: Word, ghost idx: Index)
    requires bt.Valid() && HoldsIndex(AsMap(bt.Contents()), idx)
    modifies bt, bt.pg
    ensures bt.Valid() && HoldsIndex(AsMap(bt.Contents()), idx[v := pk])
  {
    hide BTree.Valid, AsMap, Flat, Le, IndexSlot;
    bt.Insert(v, IndexSlot(pk));
  }

  /** Removes an index entry. */
  method DropEntry(bt: BTree, v: Word, ghost idx: Index) returns (found: bool)
    requires bt.Valid() && HoldsIndex(AsMap(bt.Contents()), idx)
    modifies bt, bt.pg
    ensures bt.Valid() && HoldsIndex(AsMap(bt.Contents()), idx - {v}) && (found <==> v in idx)
  {
    hide BTree.Valid, AsMap, Flat, Le;
    found := bt.Delete(v);
  }

  /** Stores a row under its key as inserted by transaction xid, in the form its slot keeps. */
  method PutRow(bt: BTree, tbl: Table, row: Row, xid: nat, ghost rows: map<Word, Version>)
    requires bt.Valid() && RowCodec.SchemaOk(tbl) && tbl.Fits(row) && xid < 0x1_0000_0000 && HoldsRows(tbl, AsMap(bt.Contents()), rows)
    modifies bt, bt.pg
    ensures bt.Valid() && HoldsRows(tbl, AsMap(bt.Contents()), rows[tbl.KeyOf(row) := Version(xid, XID_NONE, RowCodec.StoredRow(row))])
  {
    hide BTree.Valid, AsMap, Flat, RowCodec.RowBytes, HoldsRow, RowCodec.StoredRow;
    var buf := RowCodec.EncodeRow(tbl, row, xid);
    var key := row[tbl.PrimaryKey().value].n;
    EncodedHolds(tbl, row, xid, XID_NONE);
    bt.Insert(key, buf[..]);
  }

  /** Marks the row under a key as deleted by transaction xid; a key that is not stored is skipped. */
  method MarkDeleted(bt: BTree, tbl: Table, key: Word, xid: nat, ghost rows: map<Word, Version>)
    requires bt.Valid() && RowCodec.SchemaOk(tbl) && xid < 0x1_0000_0000 && HoldsRows(tbl, AsMap(bt.Contents()), rows)
    modifies bt, bt.pg
    ensures bt.Valid() && HoldsRows(tbl, AsMap(bt.Contents()), Deleted(rows, key, xid))
  {
    hide BTree.Valid, AsMap, Flat, HoldsRow, Le;
    var r, _ := bt.Search(key);
    if r.Found? {
      assert HoldsRow(tbl, key, r.val, rows[key]);
      SlotSize(tbl, key, r.val, rows[key]);
      DeletedHolds(tbl, key, r.val, rows[key], xid);
      bt.Insert(key, Splice(r.val, 4, Le(xid, 4)));
    }
  }

  lemma {:induction false} SlotSize(tbl: Table, k: int, val: Value, v: Version)
    requires RowCodec.SchemaOk(tbl) && HoldsRow(tbl, k, val, v)
    ensures |val| == VALUE_SIZE
  {
  }
}
