/** Pages and log records as bytes.  The checksum is any function of the bytes to 32 bits. */
module PageCodec {
  import opened Pages
  import opened Bytes
  import opened Queries
  import opened NodeCodec
  import Wals

  const MAGIC := 0xDB11_0011
  const RECORD_SIZE := 4149

  type Word32 = n: nat | n < 0x1_0000_0000

  /** CRC32, as far as this model is concerned. */
  type Checksum = seq<byte> -> Word32

  /** A page with all its header fields. */
  datatype RawPage = RawPage(id: Word32, kind: byte, flags: byte, freeSpace: nat, cells: nat, checksum: Word32, lsn: Word32, data: seq<byte>) {
    predicate Fits() {
      freeSpace < 0x1_0000 && cells < 0x1_0000 && |data| == DATA_SIZE
    }
  }

  // ---------------------------------------------------------------- pages

  /** The header up to the reserved bytes. */
  function HeadBytes(p: RawPage): (s: seq<byte>)
    ensures |s| == 14
  {
    Le(MAGIC, 4) + Le(p.id, 4) + [p.kind, p.flags] + Le(p.freeSpace, 2) + Le(p.cells, 2)
  }

  function PageBytes(p: RawPage, crc: Checksum): (s: seq<byte>)
    requires p.Fits()
    ensures |s| == PAGE_SIZE
  {
    HeadBytes(p) + Zeros(2) + Le(crc(p.data), 4) + Le(p.lsn, 4) + p.data
  }

  /** Fills the page buffer; the checksum goes in last, over the data area only. */
  method Encode(p: RawPage, crc: Checksum) returns (raw: array<byte>)
    requires p.Fits()
    ensures fresh(raw) && raw[..] == PageBytes(p, crc)
  {
    hide Le, Zeros, Splice, RawPage.Fits;
    raw := new byte[PAGE_SIZE](_ => 0);
    StartPage(raw[..]);
    ghost var head := HeadBytes(p);
    SpliceMid([], Zeros(14), Zeros(4082), head);
    Write(raw, 0, Le(MAGIC, 4) + Le(p.id, 4) + [p.kind, p.flags] + Le(p.freeSpace, 2) + Le(p.cells, 2));
    assert raw[..] == head + Zeros(4082);
    BlankTail(head);
    SpliceMid(head + Zeros(6), Zeros(4), Zeros(DATA_SIZE), Le(p.lsn, 4));
    Write(raw, 20, Le(p.lsn, 4));
    DataIs(p);
    assert head + Zeros(6) + Le(p.lsn, 4) + Zeros(DATA_SIZE) == (head + Zeros(6) + Le(p.lsn, 4)) + Zeros(DATA_SIZE) + [];
    SpliceMid(head + Zeros(6) + Le(p.lsn, 4), Zeros(DATA_SIZE), [], p.data);
    Write(raw, HEADER_SIZE, p.data);
    ghost var tail := Le(p.lsn, 4) + p.data;
    assert raw[..] == head + Zeros(6) + tail;
    assert raw[HEADER_SIZE..] == p.data;
    BlankMiddle(head, tail);
    SpliceMid(head + Zeros(2), Zeros(4), tail, Le(crc(p.data), 4));
    Write(raw, 16, Le(crc(raw[HEADER_SIZE..]), 4));
    assert raw[..] == head + Zeros(2) + Le(crc(p.data), 4) + tail;
  }

  lemma {:induction false} StartPage(s: seq<byte>)
    requires |s| == PAGE_SIZE && forall i :: 0 <= i < PAGE_SIZE ==> s[i] == 0
    ensures s == [] + Zeros(14) + Zeros(4082)
  {
  }

  lemma {:induction false} BlankTail(head: seq<byte>)
    ensures head + Zeros(4082) == head + Zeros(6) + Zeros(4) + Zeros(DATA_SIZE)
  {
    ZerosSplit(10, DATA_SIZE);
    ZerosSplit(6, 4);
  }

  lemma {:induction false} BlankMiddle(head: seq<byte>, tail: seq<byte>)
    ensures head + Zeros(6) + tail == head + Zeros(2) + Zeros(4) + tail
  {
    ZerosSplit(2, 4);
  }

  lemma {:induction false} DataIs(p: RawPage)
    requires p.Fits()
    ensures |p.data| == DATA_SIZE
  {
  }

  /** Refuses a wrong magic number or checksum. */
  function Decode(raw: seq<byte>, crc: Checksum): Result<RawPage>
    requires |raw| == PAGE_SIZE
  {
    if ReadNumber(raw, 0, 4) != MAGIC || ReadNumber(raw, 16, 4) != crc(raw[HEADER_SIZE..]) then Err else
    NumberBound(raw, 4, 4);
    NumberBound(raw, 16, 4);
    NumberBound(raw, 20, 4);
    Widths();
    Ok(RawPage(ReadNumber(raw, 4, 4), raw[8], raw[9], ReadNumber(raw, 10, 2), ReadNumber(raw, 12, 2), ReadNumber(raw, 16, 4),
               ReadNumber(raw, 20, 4), raw[HEADER_SIZE..]))
  }

  lemma {:induction false} UnLeBound(s: seq<byte>)
    ensures UnLe(s) < Pow256(|s|)
  {
    if s != [] {
      UnLeBound(s[1..]);
    }
  }

  lemma {:induction false} NumberBound(d: seq<byte>, off: nat, w: nat)
    requires off + w <= |d|
    ensures ReadNumber(d, off, w) < Pow256(w)
  {
    UnLeBound(d[off..off + w]);
  }

  /** A number at the end of a known front, read back from a buffer it is part of. */
  lemma {:induction false} FieldBack(d: seq<byte>, front: seq<byte>, n: nat, w: nat, rest: seq<byte>)
    requires n < Pow256(w) && d == front + Le(n, w) + rest
    ensures |front| + w <= |d| && ReadNumber(d, |front|, w) == n
  {
    ReadAt(front, n, w, rest);
  }

  lemma {:induction false} HeaderBack(p: RawPage, rest: seq<byte>)
    requires p.freeSpace < 0x1_0000 && p.cells < 0x1_0000
    ensures var d := HeadBytes(p) + rest;
      && ReadNumber(d, 0, 4) == MAGIC && ReadNumber(d, 4, 4) == p.id && d[8] == p.kind && d[9] == p.flags
      && ReadNumber(d, 10, 2) == p.freeSpace && ReadNumber(d, 12, 2) == p.cells
  {
    hide Le, Pow256, ReadNumber;
    Widths();
    var d := HeadBytes(p) + rest;
    var m, i, k, f, c := Le(MAGIC, 4), Le(p.id, 4), [p.kind, p.flags], Le(p.freeSpace, 2), Le(p.cells, 2);
    assert d == [] + m + (i + k + f + c + rest);
    FieldBack(d, [], MAGIC, 4, i + k + f + c + rest);
    assert d == m + i + (k + f + c + rest);
    FieldBack(d, m, p.id, 4, k + f + c + rest);
    assert d == (m + i + k) + f + (c + rest);
    FieldBack(d, m + i + k, p.freeSpace, 2, c + rest);
    FieldBack(d, m + i + k + f, p.cells, 2, rest);
  }

  /** Decoding an encoded page gives it back with its checksum filled in. */
  lemma {:induction false} PageRoundTrip(p: RawPage, crc: Checksum)
    requires p.Fits()
    ensures Decode(PageBytes(p, crc), crc) == Ok(p.(checksum := crc(p.data)))
  {
    hide Le, Pow256, ReadNumber, HeadBytes;
    Widths();
    var d, h, z, s, l := PageBytes(p, crc), HeadBytes(p), Zeros(2), Le(crc(p.data), 4), Le(p.lsn, 4);
    HeaderBack(p, z + s + l + p.data);
    assert d == h + (z + s + l + p.data);
    assert d == (h + z) + s + (l + p.data);
    FieldBack(d, h + z, crc(p.data), 4, l + p.data);
    FieldBack(d, h + z + s, p.lsn, 4, p.data);
    assert d[HEADER_SIZE..] == p.data;
  }

  /** So it is the same page exactly when the checksum field was already right. */
  lemma {:induction false} SamePageIff(p: RawPage, crc: Checksum)
    requires p.Fits()
    ensures Decode(PageBytes(p, crc), crc) == Ok(p) <==> p.checksum == crc(p.data)
  {
    PageRoundTrip(p, crc);
  }

  lemma {:induction false} NumberIs(d: seq<byte>, off: nat, w: nat, n: nat)
    requires off + w <= |d| && n < Pow256(w)
    ensures ReadNumber(d, off, w) == n <==> d[off..off + w] == Le(n, w)
    ensures d[off..off + w] == Le(ReadNumber(d, off, w), w)
  {
    LeOfUnLe(d[off..off + w]);
    LeRoundTrip(n, w);
  }

  /** A raw page is accepted exactly when it starts with the magic number and carries the checksum of its
      data area, and then the decoded page says every byte of it but the two reserved ones. */
  lemma {:induction false} AcceptedIff(raw: seq<byte>, crc: Checksum)
    requires |raw| == PAGE_SIZE
    ensures Decode(raw, crc).Ok? <==> raw[..4] == Le(MAGIC, 4) && raw[16..20] == Le(crc(raw[HEADER_SIZE..]), 4)
    ensures Decode(raw, crc).Ok? ==>
      var p := Decode(raw, crc).value; raw == HeadBytes(p) + raw[14..16] + Le(p.checksum, 4) + Le(p.lsn, 4) + p.data
  {
    hide Le, Pow256, ReadNumber;
    Widths();
    NumberIs(raw, 0, 4, MAGIC);
    NumberIs(raw, 16, 4, crc(raw[HEADER_SIZE..]));
    if Decode(raw, crc).Ok? {
      NumberIs(raw, 4, 4, 0);
      NumberIs(raw, 10, 2, 0);
      NumberIs(raw, 12, 2, 0);
      NumberIs(raw, 20, 4, 0);
      Pieces(raw);
    }
  }

  lemma {:induction false} Pieces(raw: seq<byte>)
    requires |raw| == PAGE_SIZE
    ensures raw == raw[0..4] + raw[4..8] + [raw[8], raw[9]] + raw[10..12] + raw[12..14] + raw[14..16] + raw[16..20] + raw[20..24] + raw[24..]
  {
  }

  // ---------------------------------------------------------------- log records

  datatype LogRecord = LogRecord(lsn: Word, xid: Word32, kind: byte, name: seq<byte>, page: Word32, image: seq<byte>)

  /** A file name in its 32-byte field: cut if longer, zero-padded if shorter. */
  function NameField(name: seq<byte>): (s: seq<byte>)
    ensures |s| == Wals.NAME_SIZE
  {
    Padded(name, Wals.NAME_SIZE)
  }

  /** Without trailing zero bytes. */
  function TrimRight(s: seq<byte>): seq<byte> {
    if s == [] || s[|s| - 1] != 0 then s else TrimRight(s[..|s| - 1])
  }

  function RecordBody(r: LogRecord): (s: seq<byte>)
    requires |r.image| == PAGE_SIZE
    ensures |s| == RECORD_SIZE - 4
  {
    Le(r.lsn, 8) + Le(r.xid, 4) + [r.kind] + NameField(r.name) + Le(r.page, 4) + r.image
  }

  function RecordBytes(r: LogRecord, crc: Checksum): (s: seq<byte>)
    requires |r.image| == PAGE_SIZE
    ensures |s| == RECORD_SIZE
  {
    RecordBody(r) + Le(crc(RecordBody(r)), 4)
  }

  /** Fills the record buffer field by field, the checksum of everything else last. */
  method EncodeRecord(r: LogRecord, crc: Checksum) returns (buf: array<byte>)
    requires |r.image| == PAGE_SIZE
    ensures fresh(buf) && buf[..] == RecordBytes(r, crc)
  {
    hide Le, Zeros, Built, Padded;
    buf := new byte[RECORD_SIZE](_ => 0);
    StartBuilt(buf);
    WriteNext(buf, 0, Le(r.lsn, 8), []);
    assert [] + Le(r.lsn, 8) == Le(r.lsn, 8);
    WriteNext(buf, 8, Le(r.xid, 4), Le(r.lsn, 8));
    WriteNext(buf, 12, [r.kind], Le(r.lsn, 8) + Le(r.xid, 4));
    var name := if |r.name| > Wals.NAME_SIZE then r.name[..Wals.NAME_SIZE] else r.name;
    ghost var built := Le(r.lsn, 8) + Le(r.xid, 4) + [r.kind];
    WriteNext(buf, 13, name, built);
    PaddingFree(buf, built, r.name, name);
    built := built + NameField(r.name);
    WriteNext(buf, 45, Le(r.page, 4), built);
    WriteNext(buf, 49, r.image, built + Le(r.page, 4));
    BuiltFront(buf, RecordBody(r));
    var sum := crc(buf[..RECORD_SIZE - 4]);
    WriteNext(buf, RECORD_SIZE - 4, Le(sum, 4), RecordBody(r));
    BuiltAll(buf, RecordBytes(r, crc));
  }

  lemma {:induction false} StartBuilt(d: array<byte>)
    requires forall i :: 0 <= i < d.Length ==> d[i] == 0
    ensures Built(d, [])
  {
    assert d[..] == [] + Zeros(d.Length);
  }

  /** The zero padding of a short name is already there. */
  lemma {:induction false} PaddingFree(d: array<byte>, built: seq<byte>, whole: seq<byte>, name: seq<byte>)
    requires name == (if |whole| > Wals.NAME_SIZE then whole[..Wals.NAME_SIZE] else whole)
    requires Built(d, built + name) && |built| + Wals.NAME_SIZE <= d.Length
    ensures Built(d, built + NameField(whole))
  {
    ZerosSplit(Wals.NAME_SIZE - |name|, d.Length - |built| - Wals.NAME_SIZE);
    var pad := Zeros(Wals.NAME_SIZE - |name|);
    assert NameField(whole) == name + pad;
    assert built + name + (pad + Zeros(d.Length - |built| - Wals.NAME_SIZE)) == built + (name + pad) + Zeros(d.Length - |built| - Wals.NAME_SIZE);
  }

  lemma {:induction false} BuiltFront(d: array<byte>, built: seq<byte>)
    requires Built(d, built)
    ensures d[..|built|] == built
  {
    assert d[..|built|] == d[..][..|built|];
  }

  lemma {:induction false} BuiltAll(d: array<byte>, built: seq<byte>)
    requires Built(d, built) && |built| == d.Length
    ensures d[..] == built
  {
    assert Zeros(0) == [];
  }

  function DecodeRecord(buf: seq<byte>, crc: Checksum): Result<LogRecord>
    requires |buf| == RECORD_SIZE
  {
    if ReadNumber(buf, RECORD_SIZE - 4, 4) != crc(buf[..RECORD_SIZE - 4]) then Err else
    NumberBound(buf, 0, 8);
    NumberBound(buf, 8, 4);
    NumberBound(buf, 45, 4);
    Widths();
    Ok(LogRecord(ReadNumber(buf, 0, 8), ReadNumber(buf, 8, 4), buf[12], TrimRight(buf[13..45]), ReadNumber(buf, 45, 4), buf[49..4145]))
  }

  lemma {:induction false} TrimZeros(s: seq<byte>, n: nat)
    ensures TrimRight(s + Zeros(n)) == TrimRight(s)
  {
    if n > 0 {
      ZerosSplit(n - 1, 1);
      assert (s + Zeros(n))[..|s + Zeros(n)| - 1] == s + Zeros(n - 1);
      TrimZeros(s, n - 1);
    } else {
      assert s + Zeros(0) == s;
    }
  }

  lemma {:induction false} TrimPrefix(s: seq<byte>)
    ensures TrimRight(s) == s <==> s == [] || s[|s| - 1] != 0
    ensures |TrimRight(s)| <= |s|
  {
    if s != [] && s[|s| - 1] == 0 {
      TrimPrefix(s[..|s| - 1]);
    }
  }

  /** What a name field gives back. */
  function NameBack(name: seq<byte>): seq<byte> {
    TrimRight(if |name| > Wals.NAME_SIZE then name[..Wals.NAME_SIZE] else name)
  }

  lemma {:induction false} RecordFields(r: LogRecord, rest: seq<byte>)
    requires |r.image| == PAGE_SIZE
    ensures var d := RecordBody(r) + rest;
      && ReadNumber(d, 0, 8) == r.lsn && ReadNumber(d, 8, 4) == r.xid && d[12] == r.kind
      && d[13..45] == NameField(r.name) && ReadNumber(d, 45, 4) == r.page && d[49..4145] == r.image
  {
    hide Le, Pow256, ReadNumber, Padded;
    Widths();
    var d := RecordBody(r) + rest;
    var l, x, k, n, p := Le(r.lsn, 8), Le(r.xid, 4), [r.kind], NameField(r.name), Le(r.page, 4);
    assert d == [] + l + (x + k + n + p + r.image + rest);
    FieldBack(d, [], r.lsn, 8, x + k + n + p + r.image + rest);
    assert d == l + x + (k + n + p + r.image + rest);
    FieldBack(d, l, r.xid, 4, k + n + p + r.image + rest);
    assert d == (l + x + k + n) + p + (r.image + rest);
    FieldBack(d, l + x + k + n, r.page, 4, r.image + rest);
  }

  /** A record is read back whole except that its name is cut to 32 bytes and loses trailing zeros. */
  lemma {:induction false} RecordRoundTrip(r: LogRecord, crc: Checksum)
    requires |r.image| == PAGE_SIZE
    ensures DecodeRecord(RecordBytes(r, crc), crc) == Ok(r.(name := NameBack(r.name)))
  {
    hide Le, Pow256, ReadNumber, RecordBody;
    Widths();
    var d, body := RecordBytes(r, crc), RecordBody(r);
    RecordFields(r, Le(crc(body), 4));
    assert d == body + Le(crc(body), 4) + [];
    FieldBack(d, body, crc(body), 4, []);
    assert d[..RECORD_SIZE - 4] == body;
    if |r.name| <= Wals.NAME_SIZE {
      TrimZeros(r.name, Wals.NAME_SIZE - |r.name|);
    }
  }

  /** The record survives exactly when its name fits and does not end in a zero byte. */
  lemma {:induction false} SameRecordIff(r: LogRecord, crc: Checksum)
    requires |r.image| == PAGE_SIZE
    ensures DecodeRecord(RecordBytes(r, crc), crc) == Ok(r) <==>
      |r.name| <= Wals.NAME_SIZE && (r.name == [] || r.name[|r.name| - 1] != 0)
  {
    RecordRoundTrip(r, crc);
    TrimPrefix(r.name);
    if |r.name| > Wals.NAME_SIZE {
      TrimPrefix(r.name[..Wals.NAME_SIZE]);
    }
  }

  /** A slot of the log holds a record exactly when its last four bytes are the checksum of the others. */
  lemma {:induction false} RecordAcceptedIff(buf: seq<byte>, crc: Checksum)
    requires |buf| == RECORD_SIZE
    ensures DecodeRecord(buf, crc).Ok? <==> buf[RECORD_SIZE - 4..] == Le(crc(buf[..RECORD_SIZE - 4]), 4)
  {
    hide Le, Pow256, ReadNumber;
    Widths();
    NumberIs(buf, RECORD_SIZE - 4, 4, crc(buf[..RECORD_SIZE - 4]));
    assert buf[RECORD_SIZE - 4..RECORD_SIZE - 4 + 4] == buf[RECORD_SIZE - 4..];
  }

  /** So a damaged record is told from the one written unless the checksums of the two are the same. */
  lemma {:induction false} DamageFoundIff(r: LogRecord, crc: Checksum, body: seq<byte>)
    requires |r.image| == PAGE_SIZE && |body| == RECORD_SIZE - 4
    ensures DecodeRecord(body + Le(crc(RecordBody(r)), 4), crc).Err? <==> crc(body) != crc(RecordBody(r))
  {
    hide Pow256, RecordBody, DecodeRecord;
    var buf := body + Le(crc(RecordBody(r)), 4);
    assert buf[..RECORD_SIZE - 4] == body && buf[RECORD_SIZE - 4..] == Le(crc(RecordBody(r)), 4);
    RecordAcceptedIff(buf, crc);
    Widths();
    LeRoundTrip(crc(body), 4);
    LeRoundTrip(crc(RecordBody(r)), 4);
  }

  // ---------------------------------------------------------------- through all layers

  /** The page a node's data area is written as. */
  function NodePage(id: Word32, used: nat, d: Data): RawPage {
    RawPage(id, 2, 0, used, 0, 0, 0, DataBytes(d))
  }

  /** A leaf or internal node logged in a record and recovered from it is the node that was logged. */
  lemma {:induction false} ThroughAllLayers(id: Word32, d: Data, r: LogRecord, crc: Checksum)
    requires (d.LeafData? && LeafFits(d.entries, d.next)) || (d.InternalData? && InternalFits(d.keys, d.children))
    requires |Content(d)| < 0x1_0000 && r.image == PageBytes(NodePage(id, |Content(d)|, d), crc)
    ensures |Content(d)| <= DATA_SIZE
    ensures var back := DecodeRecord(RecordBytes(r, crc), crc);
      && back.Ok? && back.value.image == r.image
      && var page := Decode(back.value.image, crc);
        && page.Ok? && page.value.id == id
        && (if d.LeafData? then DecodeLeaf(page.value.data) else DecodeInternal(page.value.data)) == Ok(d)
  {
    hide Le, RecordBytes, PageBytes, DataBytes, Content, Decode, DecodeRecord;
    RecordRoundTrip(r, crc);
    PageRoundTrip(NodePage(id, |Content(d)|, d), crc);
    if d.LeafData? {
      LeafRoundTrip(d.entries, d.next);
    } else {
      InternalRoundTrip(d.keys, d.children);
    }
  }
}
