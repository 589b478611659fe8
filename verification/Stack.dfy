/** From pages to rows: what a table scan over the paged tree hands to the operators above it. */
module Stack {
  import opened Seqs
  import opened Pages
  import opened Bytes
  import opened Queries
  import opened Mvcc
  import opened BTreeSpec
  import opened BTrees
  import opened Cursors
  import NodeCodec
  import PageCodec
  import RowCodec
  import Operators

  /** Keys are 64-bit and values fill their slots. */
  ghost predicate Slots(es: seq<Entry>) {
    forall i :: 0 <= i < |es| ==> 0 <= es[i].key < KEY_LIMIT && |es[i].val| == VALUE_SIZE
  }

  /** A tree entry as a stored row: version header and columns. */
  function CellOf(tbl: Table, e: Entry): Operators.Cell
    requires RowCodec.SchemaOk(tbl) && 0 <= e.key < KEY_LIMIT && |e.val| == VALUE_SIZE
  {
    Operators.Cell(e.key, NodeCodec.ReadNumber(e.val, 0, 4), NodeCodec.ReadNumber(e.val, 4, 4), RowCodec.DecodeRow(tbl, e.val))
  }

  function Cells(tbl: Table, es: seq<Entry>): (r: seq<Operators.Cell>)
    requires RowCodec.SchemaOk(tbl) && Slots(es)
    ensures |r| == |es| && forall i :: 0 <= i < |es| ==> r[i] == CellOf(tbl, es[i])
  {
    seq(|es|, i requires 0 <= i < |es| => CellOf(tbl, es[i]))
  }

  /** The rows of the entries the snapshot shows. */
  function ShownRows(tbl: Table, es: seq<Entry>, snap: Snapshot): seq<Row>
    requires RowCodec.SchemaOk(tbl) && Slots(es)
  {
    if es == [] then [] else
    var c := CellOf(tbl, es[|es| - 1]);
    ShownRows(tbl, es[..|es| - 1], snap) + if snap.IsVisible(c.xmin, c.xmax) then [c.row] else []
  }

  lemma {:induction false} SelectSlots(es: seq<Entry>, min: int, max: int)
    requires Slots(es)
    ensures Slots(Select(es, min, max))
  {
    if es != [] {
      SelectSlots(es[..|es| - 1], min, max);
    }
  }

  /** Selecting a key range and then looking at versions is a scan of the stored rows. */
  lemma {:induction false} ScanIsSelect(tbl: Table, es: seq<Entry>, min: Word, max: Word, snap: Snapshot)
    requires RowCodec.SchemaOk(tbl) && Slots(es)
    ensures Slots(Select(es, min, max))
    ensures ShownRows(tbl, Select(es, min, max), snap) == Operators.ScanRows(Cells(tbl, es), min, max, snap)
  {
    hide RowCodec.DecodeRow, NodeCodec.ReadNumber;
    SelectSlots(es, min, max);
    if es != [] {
      var init, e := es[..|es| - 1], es[|es| - 1];
      ScanIsSelect(tbl, init, min, max, snap);
      assert Cells(tbl, es)[..|es| - 1] == Cells(tbl, init);
      var s := Select(init, min, max);
      if min <= e.key <= max {
        assert (s + [e])[..|s|] == s && (s + [e])[|s|] == e;
      } else {
        assert s + [] == s;
      }
    }
  }

  lemma {:induction false} NothingSelected(es: seq<Entry>, min: int, max: int)
    requires min > max
    ensures Select(es, min, max) == []
  {
    if es != [] {
      NothingSelected(es[..|es| - 1], min, max);
    }
  }

  /** A table scan: cursor, visibility test, row decoding.  It fails exactly when the cursor meets an
      empty leaf, and otherwise yields the visible rows of the key range in key order. */
  method ScanTable(bt: BTree, tbl: Table, snap: Snapshot, min: Word, max: Word) returns (r: Result<seq<Row>>)
    requires bt.Valid() && RowCodec.SchemaOk(tbl) && Slots(bt.Contents())
    ensures r.Err? <==> min <= max && MeetsEmptyLeaf(bt.tree, min, max)
    ensures r.Ok? ==> r.value == Operators.ScanRows(Cells(tbl, bt.Contents()), min, max, snap)
  {
    hide Operators.ScanRows, Expected, MeetsEmptyLeaf, CellOf, BTree.Valid, Select;
    TreeOrdered(bt);
    var out := DrainCursor(bt, min, max);
    CursorYields(bt.tree, bt.height, min, max);
    if out.faults {
      return Err;
    }
    ScanIsSelect(tbl, bt.Contents(), min, max, snap);
    var rows := [];
    for i := 0 to |out.entries|
      invariant rows == ShownRows(tbl, out.entries[..i], snap)
    {
      TakeOne(out.entries, i);
      var c := CellOf(tbl, out.entries[i]);
      if snap.IsVisible(c.xmin, c.xmax) {
        rows := rows + [c.row];
      }
    }
    assert out.entries[..|out.entries|] == out.entries;
    return Ok(rows);
  }

  lemma {:induction false} TreeOrdered(bt: BTree)
    requires bt.Valid()
    ensures Ordered(bt.tree, bt.height, 0, KEY_LIMIT)
  {
  }

  lemma {:induction false} CursorYields(t: Tree, h: nat, min: Word, max: Word)
    requires Ordered(t, h, 0, KEY_LIMIT)
    ensures Expected(t, min, max).faults <==> min <= max && MeetsEmptyLeaf(t, min, max)
    ensures Expected(t, min, max).entries <= Select(Flat(t), min, max)
    ensures !Expected(t, min, max).faults ==> Expected(t, min, max).entries == Select(Flat(t), min, max)
  {
    hide MeetsEmptyLeaf;
    if min <= max {
      hide Expected;
      CursorExact(t, h, min, max);
    } else {
      NothingSelected(Flat(t), min, max);
    }
  }

  // ---------------------------------------------------------------- index lookups

  /** An index entry: the indexed value and the primary key in the first eight bytes of the slot. */
  function IndexCellOf(e: Entry): Operators.IndexCell
    requires 0 <= e.key < KEY_LIMIT && |e.val| == VALUE_SIZE
  {
    PageCodec.NumberBound(e.val, 0, 8);
    Widths();
    Operators.IndexCell(e.key, NodeCodec.ReadNumber(e.val, 0, 8))
  }

  function IndexCells(es: seq<Entry>): (r: seq<Operators.IndexCell>)
    requires Slots(es)
    ensures |r| == |es| && forall i :: 0 <= i < |es| ==> r[i] == IndexCellOf(es[i])
  {
    seq(|es|, i requires 0 <= i < |es| => IndexCellOf(es[i]))
  }

  /** Looking up the selected entries is looking up the range. */
  lemma {:induction false} LookupIsSelect(es: seq<Entry>, cells: seq<Operators.Cell>, min: Word, max: Word, snap: Snapshot)
    requires Slots(es)
    ensures Slots(Select(es, min, max))
    ensures Operators.LookupRows(IndexCells(Select(es, min, max)), cells, 0, MAX_WORD, snap) ==
      Operators.LookupRows(IndexCells(es), cells, min, max, snap)
  {
    hide IndexCellOf, Operators.FetchRow, Operators.LookupRows;
    SelectSlots(es, min, max);
    if es == [] {
      NothingLookedUp(es, cells, snap);
      NoEntries(es, cells, min, max, snap);
    } else {
      var init, e := es[..|es| - 1], es[|es| - 1];
      var s := Select(init, min, max);
      LookupIsSelect(init, cells, min, max, snap);
      assert IndexCells(es) == IndexCells(init) + [IndexCellOf(e)];
      LookupSnoc(IndexCells(init), IndexCellOf(e), cells, min, max, snap);
      FetchInRange(cells, e, min, max, snap);
      if min <= e.key <= max {
        assert IndexCells(s + [e]) == IndexCells(s) + [IndexCellOf(e)];
        LookupSnoc(IndexCells(s), IndexCellOf(e), cells, 0, MAX_WORD, snap);
      } else {
        assert s + [] == s;
      }
    }
  }

  lemma {:induction false} NoEntries(es: seq<Entry>, cells: seq<Operators.Cell>, min: Word, max: Word, snap: Snapshot)
    requires es == []
    ensures Operators.LookupRows(IndexCells(es), cells, min, max, snap) == [] && Select(es, min, max) == es
  {
  }

  lemma {:induction false} LookupSnoc(idx: seq<Operators.IndexCell>, e: Operators.IndexCell, cells: seq<Operators.Cell>, min: Word, max: Word, snap: Snapshot)
    ensures Operators.LookupRows(idx + [e], cells, min, max, snap) ==
      Operators.LookupRows(idx, cells, min, max, snap) + Operators.FetchRow(cells, e, min, max, snap)
  {
    hide Operators.FetchRow;
    assert (idx + [e])[..|idx|] == idx && (idx + [e])[|idx|] == e;
  }

  lemma {:induction false} FetchInRange(cells: seq<Operators.Cell>, e: Entry, min: Word, max: Word, snap: Snapshot)
    requires 0 <= e.key < KEY_LIMIT && |e.val| == VALUE_SIZE
    ensures var c := IndexCellOf(e);
      Operators.FetchRow(cells, c, min, max, snap) == if min <= e.key <= max then Operators.FetchRow(cells, c, 0, MAX_WORD, snap) else []
  {
    hide NodeCodec.ReadNumber, Operators.Search;
  }

  /** A search in the primary tree finds the stored row. */
  lemma {:induction false} SearchCell(tbl: Table, es: seq<Entry>, k: Word)
    requires RowCodec.SchemaOk(tbl) && Sorted(es) && Slots(es)
    ensures k in AsMap(es) <==> Operators.Search(Cells(tbl, es), k).Some?
    ensures k in AsMap(es) ==> |AsMap(es)[k]| == VALUE_SIZE && Operators.Search(Cells(tbl, es), k) == Some(CellOf(tbl, Entry(k, AsMap(es)[k])))
  {
    hide RowCodec.DecodeRow, NodeCodec.ReadNumber, AsMap, LowerBound;
    HasIsMember(es, k);
    var cells, p := Cells(tbl, es), LowerBound(es, k);
    if Has(es, k) {
      HasAt(es, k);
      assert es[p] == Entry(k, es[p].val) && cells[p] == CellOf(tbl, es[p]);
      assert Operators.KeysAscend(cells);
      Operators.SearchStored(cells, p);
    } else {
      HasAt(es, k);
      forall c | c in cells ensures c.key != k {
        var i :| 0 <= i < |cells| && cells[i] == c;
        assert c.key == es[i].key;
      }
    }
  }

  lemma {:induction false} HasAt(es: seq<Entry>, k: int)
    requires Sorted(es)
    ensures Has(es, k) ==> LowerBound(es, k) < |es| && es[LowerBound(es, k)].key == k
    ensures !Has(es, k) ==> forall i :: 0 <= i < |es| ==> es[i].key != k
  {
    var p := LowerBound(es, k);
    forall i | p < i < |es| ensures es[i].key > k {
      assert es[p].key < es[i].key;
    }
  }

  lemma {:induction false} LookupStep(entries: seq<Entry>, i: nat, cells: seq<Operators.Cell>, snap: Snapshot)
    requires Slots(entries) && i < |entries|
    ensures Operators.LookupRows(IndexCells(entries[..i + 1]), cells, 0, MAX_WORD, snap) ==
      Operators.LookupRows(IndexCells(entries[..i]), cells, 0, MAX_WORD, snap) + Operators.FetchRow(cells, IndexCellOf(entries[i]), 0, MAX_WORD, snap)
  {
    hide IndexCellOf, Operators.FetchRow;
    TakeOne(entries, i);
    assert IndexCells(entries[..i + 1])[..i] == IndexCells(entries[..i]);
  }

  /** An index lookup: a cursor over the index tree, a search in the primary tree and a visibility test
      per entry.  It fails exactly when the index cursor meets an empty leaf, and otherwise yields the
      rows the index leads to, in value order. */
  method LookupTable(idx: BTree, primary: BTree, tbl: Table, snap: Snapshot, min: Word, max: Word) returns (r: Result<seq<Row>>)
    requires idx.Valid() && primary.Valid() && RowCodec.SchemaOk(tbl) && Slots(idx.Contents()) && Slots(primary.Contents())
    ensures r.Err? <==> min <= max && MeetsEmptyLeaf(idx.tree, min, max)
    ensures r.Ok? ==> r.value == Operators.LookupRows(IndexCells(idx.Contents()), Cells(tbl, primary.Contents()), min, max, snap)
  {
    hide Operators.LookupRows, Expected, MeetsEmptyLeaf, CellOf, IndexCellOf, BTree.Valid, Select, AsMap, Flat;
    TreeOrdered(idx);
    TreeOrdered(primary);
    FlatSorted(primary.tree, primary.height, 0, KEY_LIMIT);
    var out := DrainCursor(idx, min, max);
    CursorYields(idx.tree, idx.height, min, max);
    if out.faults {
      return Err;
    }
    ghost var cells := Cells(tbl, primary.Contents());
    LookupIsSelect(idx.Contents(), cells, min, max, snap);
    var rows := [];
    NothingLookedUp(out.entries, cells, snap);
    for i := 0 to |out.entries|
      invariant rows == Operators.LookupRows(IndexCells(out.entries[..i]), cells, 0, MAX_WORD, snap)
    {
      LookupStep(out.entries, i, cells, snap);
      var pk := IndexCellOf(out.entries[i]).pk;
      var val, _ := primary.Search(pk);
      SearchCell(tbl, primary.Contents(), pk);
      if val.Missing? {
        continue;
      }
      var c := CellOf(tbl, Entry(pk, val.val));
      if snap.IsVisible(c.xmin, c.xmax) {
        rows := rows + [c.row];
      }
    }
    assert out.entries[..|out.entries|] == out.entries;
    return Ok(rows);
  }

  lemma {:induction false} NothingLookedUp(entries: seq<Entry>, cells: seq<Operators.Cell>, snap: Snapshot)
    ensures Operators.LookupRows(IndexCells(entries[..0]), cells, 0, MAX_WORD, snap) == []
  {
  }

  // ---------------------------------------------------------------- stored tables

  /** Every value is the encoding of a row that survives it, stored under the row's own key. */
  ghost predicate Encoded(tbl: Table, es: seq<Entry>, rows: seq<Row>, heads: seq<(nat, nat)>)
    requires RowCodec.SchemaOk(tbl)
  {
    && |rows| == |es| == |heads|
    && forall i :: 0 <= i < |es| ==> EncodedAt(tbl, es[i], rows[i], heads[i])
  }

  ghost predicate EncodedAt(tbl: Table, e: Entry, row: Row, head: (nat, nat))
    requires RowCodec.SchemaOk(tbl)
  {
    && tbl.Fits(row) && tbl.KeyOf(row) == e.key && head.0 < 0x1_0000_0000 && head.1 < 0x1_0000_0000
    && e.val == RowCodec.RowBytes(tbl, row, head.0, head.1)
    && forall c :: 0 <= c < |row| ==> RowCodec.Keeps(row[c])
  }

  /** A sorted tree of encoded rows is a stored table: the operators see exactly the rows and version
      headers that were written. */
  lemma {:induction false} TreeIsTable(tbl: Table, es: seq<Entry>, rows: seq<Row>, heads: seq<(nat, nat)>)
    requires RowCodec.SchemaOk(tbl) && Sorted(es) && Slots(es) && Encoded(tbl, es, rows, heads)
    ensures Operators.Stored(tbl, Cells(tbl, es))
    ensures forall i :: 0 <= i < |es| ==> Cells(tbl, es)[i] == Operators.Cell(es[i].key, heads[i].0, heads[i].1, rows[i])
  {
    hide CellOf;
    forall i | 0 <= i < |es|
      ensures CellOf(tbl, es[i]) == Operators.Cell(es[i].key, heads[i].0, heads[i].1, rows[i])
      ensures tbl.Fits(rows[i]) && tbl.KeyOf(rows[i]) == es[i].key
    {
      assert EncodedAt(tbl, es[i], rows[i], heads[i]);
      CellBack(tbl, es[i], rows[i], heads[i]);
    }
  }

  lemma {:induction false} CellBack(tbl: Table, e: Entry, row: Row, head: (nat, nat))
    requires RowCodec.SchemaOk(tbl) && 0 <= e.key < KEY_LIMIT && |e.val| == VALUE_SIZE && EncodedAt(tbl, e, row, head)
    ensures CellOf(tbl, e) == Operators.Cell(e.key, head.0, head.1, row)
  {
    hide RowCodec.DecodeRow, RowCodec.RowBytes, RowCodec.Stored, RowCodec.Keeps, NodeCodec.ReadNumber;
    RowCodec.RowRoundTrip(tbl, row, head.0, head.1);
    var back := RowCodec.DecodeRow(tbl, e.val);
    forall c | 0 <= c < |row| ensures back[c] == row[c] {
      RowCodec.StoredSameIff(row[c]);
    }
    assert back == row;
  }
}
