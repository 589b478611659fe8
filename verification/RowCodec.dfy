/** Rows in their 256-byte value slots: an 8-byte version header, then the columns. */
module RowCodec {
  import opened Pages
  import opened Bytes
  import opened Queries
  import opened NodeCodec
  import opened PageCodec

  const INT_SIZE := 8
  const TEXT_SIZE := 48
  const ROW_HEADER := 8
  const USER_DATA := 248

  function ColSize(t: ColType): nat {
    if t.IntType? then INT_SIZE else TEXT_SIZE
  }

  /** The bytes of the first `k` columns. */
  function SizeUpTo(cols: seq<Column>, k: nat): nat
    requires k <= |cols|
  {
    if k == 0 then 0 else SizeUpTo(cols, k - 1) + ColSize(cols[k - 1].typ)
  }

  lemma {:induction false} SizeGrows(cols: seq<Column>, k: nat, n: nat)
    requires k <= n <= |cols|
    ensures SizeUpTo(cols, k) <= SizeUpTo(cols, n)
  {
    if k < n {
      SizeGrows(cols, k, n - 1);
    }
  }

  /** A schema CREATE TABLE accepts: an integer column for the key, and columns that fit the slot. */
  predicate SchemaOk(tbl: Table) {
    tbl.PrimaryKey().Some? && SizeUpTo(tbl.columns, |tbl.columns|) <= USER_DATA
  }

  method ValidateSchema(tbl: Table) returns (ok: bool)
    ensures ok <==> SchemaOk(tbl)
  {
    if tbl.PrimaryKey().None? {
      return false;
    }
    var size := 0;
    for i := 0 to |tbl.columns|
      invariant size == SizeUpTo(tbl.columns, i)
    {
      match tbl.columns[i].typ {
        case IntType => size := size + INT_SIZE;
        case TextType => size := size + TEXT_SIZE;
      }
    }
    return size <= USER_DATA;
  }

  function ColBytes(v: Datum): (s: seq<byte>)
    ensures |s| == ColSize(ColTypeOf(v))
  {
    match v
    case Int(n) => Le(n, 8)
    case Text(t) => Padded(t, TEXT_SIZE)
  }

  function Body(tbl: Table, row: Row, k: nat): (s: seq<byte>)
    requires tbl.Fits(row) && k <= |row|
    ensures |s| == SizeUpTo(tbl.columns, k)
  {
    if k == 0 then [] else Body(tbl, row, k - 1) + ColBytes(row[k - 1])
  }

  function RowHead(xmin: nat, xmax: nat): (s: seq<byte>)
    ensures |s| == ROW_HEADER
  {
    Le(xmin, 4) + Le(xmax, 4)
  }

  function RowBytes(tbl: Table, row: Row, xmin: nat, xmax: nat): (s: seq<byte>)
    requires SchemaOk(tbl) && tbl.Fits(row)
    ensures |s| == VALUE_SIZE
  {
    Padded(RowHead(xmin, xmax) + Body(tbl, row, |row|), VALUE_SIZE)
  }

  /** Fills the slot with a moving offset; a schema that was accepted never runs past it. */
  method EncodeRow(tbl: Table, row: Row, xid: nat) returns (buf: array<byte>)
    requires SchemaOk(tbl) && tbl.Fits(row)
    ensures fresh(buf) && buf[..] == RowBytes(tbl, row, xid, 0)
  {
    hide Le, Zeros, Built, Padded, Body;
    buf := new byte[VALUE_SIZE](_ => 0);
    StartBuilt(buf);
    ghost var head := RowHead(xid, 0);
    WriteNext(buf, 0, Le(xid, 4) + Le(0, 4), []);
    NoColumns(tbl, row, head);
    var off := ROW_HEADER;
    for i := 0 to |tbl.columns|
      invariant buf.Length == VALUE_SIZE && off == ROW_HEADER + SizeUpTo(tbl.columns, i) && Built(buf, head + Body(tbl, row, i))
    {
      SizeGrows(tbl.columns, i + 1, |tbl.columns|);
      ghost var built := head + Body(tbl, row, i);
      BodyStep(tbl, row, i, head);
      match tbl.columns[i].typ {
        case IntType =>
          WriteNext(buf, off, Le(row[i].n, 8), built);
          off := off + INT_SIZE;
        case TextType =>
          var text := if |row[i].s| > TEXT_SIZE then row[i].s[..TEXT_SIZE] else row[i].s;
          WriteNext(buf, off, text, built);
          TextPadding(buf, built, row[i].s, text);
          off := off + TEXT_SIZE;
      }
    }
    FullSlot(buf, head + Body(tbl, row, |row|));
  }

  lemma {:induction false} NoColumns(tbl: Table, row: Row, head: seq<byte>)
    requires tbl.Fits(row)
    ensures [] + head == head + Body(tbl, row, 0)
  {
  }

  lemma {:induction false} BodyStep(tbl: Table, row: Row, i: nat, head: seq<byte>)
    requires tbl.Fits(row) && i < |row|
    ensures head + Body(tbl, row, i) + ColBytes(row[i]) == head + Body(tbl, row, i + 1)
  {
  }

  /** The zero padding of a short text is already there. */
  lemma {:induction false} TextPadding(d: array<byte>, built: seq<byte>, whole: seq<byte>, text: seq<byte>)
    requires text == (if |whole| > TEXT_SIZE then whole[..TEXT_SIZE] else whole)
    requires Built(d, built + text) && |built| + TEXT_SIZE <= d.Length
    ensures Built(d, built + Padded(whole, TEXT_SIZE))
  {
    ZerosSplit(TEXT_SIZE - |text|, d.Length - |built| - TEXT_SIZE);
    var pad := Zeros(TEXT_SIZE - |text|);
    assert Padded(whole, TEXT_SIZE) == text + pad;
    assert built + text + (pad + Zeros(d.Length - |built| - TEXT_SIZE)) == built + (text + pad) + Zeros(d.Length - |built| - TEXT_SIZE);
  }

  lemma {:induction false} FullSlot(d: array<byte>, content: seq<byte>)
    requires d.Length == VALUE_SIZE && Built(d, content)
    ensures d[..] == Padded(content, VALUE_SIZE)
  {
  }

  // ---------------------------------------------------------------- reading

  function ReadColumn(t: ColType, d: seq<byte>, off: nat): Datum
    requires off + ColSize(t) <= |d|
  {
    match t
    case IntType =>
      NumberBound(d, off, 8);
      Widths();
      Int(ReadNumber(d, off, 8))
    case TextType => Text(TrimRight(d[off..off + TEXT_SIZE]))
  }

  function ReadRow(tbl: Table, d: seq<byte>, k: nat): (row: Row)
    requires SchemaOk(tbl) && |d| == VALUE_SIZE && k <= |tbl.columns|
    ensures |row| == k && forall i :: 0 <= i < k ==> ColTypeOf(row[i]) == tbl.columns[i].typ
  {
    if k == 0 then [] else
    SizeGrows(tbl.columns, k, |tbl.columns|);
    ReadRow(tbl, d, k - 1) + [ReadColumn(tbl.columns[k - 1].typ, d, ROW_HEADER + SizeUpTo(tbl.columns, k - 1))]
  }

  function DecodeRow(tbl: Table, d: seq<byte>): (row: Row)
    requires SchemaOk(tbl) && |d| == VALUE_SIZE
    ensures tbl.Fits(row)
  {
    ReadRow(tbl, d, |tbl.columns|)
  }

  method DecodeRowLoop(tbl: Table, d: seq<byte>) returns (row: Row)
    requires SchemaOk(tbl) && |d| == VALUE_SIZE
    ensures row == DecodeRow(tbl, d)
  {
    hide ReadNumber, TrimRight, Pow256;
    row := [];
    var off := ROW_HEADER;
    for i := 0 to |tbl.columns|
      invariant off == ROW_HEADER + SizeUpTo(tbl.columns, i) && row == ReadRow(tbl, d, i)
    {
      SizeGrows(tbl.columns, i + 1, |tbl.columns|);
      ghost var before := row;
      assert ReadRow(tbl, d, i + 1) == before + [ReadColumn(tbl.columns[i].typ, d, off)];
      match tbl.columns[i].typ {
        case IntType =>
          NumberBound(d, off, 8);
          Widths();
          row := row + [Int(ReadNumber(d, off, 8))];
          off := off + INT_SIZE;
        case TextType =>
          var text := TrimLoop(d[off..off + TEXT_SIZE]);
          row := row + [Text(text)];
          off := off + TEXT_SIZE;
      }
    }
  }

  method TrimLoop(raw: seq<byte>) returns (text: seq<byte>)
    ensures text == TrimRight(raw)
  {
    var end := |raw|;
    assert raw[..end] == raw;
    while end > 0 && raw[end - 1] == 0
      invariant 0 <= end <= |raw| && TrimRight(raw) == TrimRight(raw[..end])
    {
      assert raw[..end][..end - 1] == raw[..end - 1];
      end := end - 1;
    }
    return raw[..end];
  }

  // ---------------------------------------------------------------- round trips

  /** What a value becomes: a text is cut to 48 bytes and loses its trailing zero bytes. */
  function Stored(v: Datum): Datum {
    match v
    case Int(_) => v
    case Text(s) => Text(TrimRight(if |s| > TEXT_SIZE then s[..TEXT_SIZE] else s))
  }

  lemma {:induction false} ColumnBack(front: seq<byte>, v: Datum, rest: seq<byte>)
    ensures |front| + |ColBytes(v)| <= |front + ColBytes(v) + rest|
    ensures ReadColumn(ColTypeOf(v), front + ColBytes(v) + rest, |front|) == Stored(v)
  {
    hide Le, Pow256;
    match v
    case Int(n) =>
      Widths();
      ReadAt(front, n, 8, rest);
    case Text(s) =>
      Middle(front, Padded(s, TEXT_SIZE), rest);
      if |s| <= TEXT_SIZE {
        TrimZeros(s, TEXT_SIZE - |s|);
      }
  }

  lemma {:induction false} ColumnsBack(tbl: Table, row: Row, k: nat, head: seq<byte>, rest: seq<byte>)
    requires SchemaOk(tbl) && tbl.Fits(row) && k <= |row| && |head| == ROW_HEADER
    requires |head + Body(tbl, row, k) + rest| == VALUE_SIZE
    ensures var back := ReadRow(tbl, head + Body(tbl, row, k) + rest, k); forall i :: 0 <= i < k ==> back[i] == Stored(row[i])
  {
    hide ColBytes, ReadColumn, Stored;
    if k > 0 {
      var c := ColBytes(row[k - 1]);
      Reassoc(head, Body(tbl, row, k - 1), c, rest);
      ColumnsBack(tbl, row, k - 1, head, c + rest);
      ColumnBack(head + Body(tbl, row, k - 1), row[k - 1], rest);
    }
  }

  lemma {:induction false} SlotParts(tbl: Table, row: Row, xmin: nat, xmax: nat)
    requires SchemaOk(tbl) && tbl.Fits(row)
    ensures RowBytes(tbl, row, xmin, xmax) ==
      RowHead(xmin, xmax) + Body(tbl, row, |row|) + Zeros(USER_DATA - SizeUpTo(tbl.columns, |row|))
  {
  }

  /** A stored row is read back with every value in its stored form, under its version header. */
  lemma {:induction false} RowRoundTrip(tbl: Table, row: Row, xmin: nat, xmax: nat)
    requires SchemaOk(tbl) && tbl.Fits(row) && xmin < 0x1_0000_0000 && xmax < 0x1_0000_0000
    ensures var d := RowBytes(tbl, row, xmin, xmax);
      && ReadNumber(d, 0, 4) == xmin && ReadNumber(d, 4, 4) == xmax
      && forall i :: 0 <= i < |row| ==> DecodeRow(tbl, d)[i] == Stored(row[i])
  {
    hide Le, Pow256, ReadNumber, Body, ReadRow, Stored;
    var d, body, pad := RowBytes(tbl, row, xmin, xmax), Body(tbl, row, |row|), Zeros(USER_DATA - SizeUpTo(tbl.columns, |row|));
    SlotParts(tbl, row, xmin, xmax);
    Widths();
    assert d == [] + Le(xmin, 4) + (Le(xmax, 4) + body + pad);
    FieldBack(d, [], xmin, 4, Le(xmax, 4) + body + pad);
    assert d == Le(xmin, 4) + Le(xmax, 4) + (body + pad);
    FieldBack(d, Le(xmin, 4), xmax, 4, body + pad);
    ColumnsBack(tbl, row, |row|, RowHead(xmin, xmax), pad);
  }

  /** The text survives its column. */
  predicate Keeps(v: Datum) {
    v.Text? ==> |v.s| <= TEXT_SIZE && (v.s == [] || v.s[|v.s| - 1] != 0)
  }

  lemma {:induction false} StoredSameIff(v: Datum)
    ensures Stored(v) == v <==> Keeps(v)
  {
    if v.Text? {
      TrimPrefix(v.s);
      if |v.s| > TEXT_SIZE {
        TrimPrefix(v.s[..TEXT_SIZE]);
      }
    }
  }

  /** A row decodes to itself exactly when its texts are at most 48 bytes and end in no zero byte. */
  lemma {:induction false} SameRowIff(tbl: Table, row: Row, xid: nat)
    requires SchemaOk(tbl) && tbl.Fits(row) && xid < 0x1_0000_0000
    ensures DecodeRow(tbl, RowBytes(tbl, row, xid, 0)) == row <==> forall i :: 0 <= i < |row| ==> Keeps(row[i])
  {
    hide Stored, Keeps, RowBytes;
    RowRoundTrip(tbl, row, xid, 0);
    var back := DecodeRow(tbl, RowBytes(tbl, row, xid, 0));
    forall i | 0 <= i < |row| ensures back[i] == row[i] <==> Keeps(row[i]) {
      StoredSameIff(row[i]);
    }
    if forall i :: 0 <= i < |row| ==> Keeps(row[i]) {
      assert forall i :: 0 <= i < |row| ==> back[i] == row[i];
    }
  }

  /** DELETE overwrites the second header word and nothing else. */
  lemma {:induction false} DeleteInSlot(tbl: Table, row: Row, xmin: nat, xmax: nat, xid: nat)
    requires SchemaOk(tbl) && tbl.Fits(row)
    ensures Splice(RowBytes(tbl, row, xmin, xmax), 4, Le(xid, 4)) == RowBytes(tbl, row, xmin, xid)
  {
    hide Le, Body;
    SlotParts(tbl, row, xmin, xmax);
    SlotParts(tbl, row, xmin, xid);
    var rest := Body(tbl, row, |row|) + Zeros(USER_DATA - SizeUpTo(tbl.columns, |row|));
    assert RowBytes(tbl, row, xmin, xmax) == Le(xmin, 4) + Le(xmax, 4) + rest;
    SpliceMid(Le(xmin, 4), Le(xmax, 4), rest, Le(xid, 4));
  }

  /** The row as its slot keeps it. */
  function StoredRow(row: Row): (r: Row)
    ensures |r| == |row| && forall i :: 0 <= i < |row| ==> r[i] == Stored(row[i])
  {
    seq(|row|, i requires 0 <= i < |row| => Stored(row[i]))
  }

  /** The columns are read from behind the header. */
  lemma {:induction false} ReadBehindHead(tbl: Table, a: seq<byte>, b: seq<byte>, k: nat)
    requires SchemaOk(tbl) && |a| == |b| == VALUE_SIZE && a[ROW_HEADER..] == b[ROW_HEADER..] && k <= |tbl.columns|
    ensures ReadRow(tbl, a, k) == ReadRow(tbl, b, k)
  {
    hide ReadColumn;
    if k > 0 {
      ReadBehindHead(tbl, a, b, k - 1);
      SizeGrows(tbl.columns, k, |tbl.columns|);
      SameColumn(tbl.columns[k - 1].typ, a, b, ROW_HEADER + SizeUpTo(tbl.columns, k - 1));
    }
  }

  lemma {:induction false} SameColumn(t: ColType, a: seq<byte>, b: seq<byte>, off: nat)
    requires ROW_HEADER <= off && off + ColSize(t) <= |a| == |b| && a[ROW_HEADER..] == b[ROW_HEADER..]
    ensures ReadColumn(t, a, off) == ReadColumn(t, b, off)
  {
    hide UnLe, TrimRight;
    assert a[off..off + ColSize(t)] == a[ROW_HEADER..][off - ROW_HEADER..off - ROW_HEADER + ColSize(t)];
    assert b[off..off + ColSize(t)] == b[ROW_HEADER..][off - ROW_HEADER..off - ROW_HEADER + ColSize(t)];
  }
}
