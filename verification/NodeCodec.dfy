/** Tree nodes and the pager's meta data as the bytes of a page's data area. */
module NodeCodec {
  import opened Pages
  import opened Bytes
  import opened Queries

  /** A leaf that fits its fields: 64-bit keys, full value slots, a 32-bit link. */
  ghost predicate LeafFits(es: seq<Entry>, next: nat) {
    && |es| <= LEAF_ORDER && next < 0x1_0000_0000
    && forall i :: 0 <= i < |es| ==> EntryFits(es[i])
  }

  ghost predicate EntryFits(e: Entry) {
    0 <= e.key < KEY_LIMIT && |e.val| == VALUE_SIZE
  }

  ghost predicate InternalFits(keys: seq<int>, children: seq<nat>) {
    && |keys| <= INTERNAL_ORDER && |children| == |keys| + 1
    && (forall i :: 0 <= i < |keys| ==> 0 <= keys[i] < KEY_LIMIT)
    && (forall i :: 0 <= i < |children| ==> children[i] < 0x1_0000_0000)
  }

  // ---------------------------------------------------------------- writing

  /** Fills the data area of a leaf, entry after entry; too many entries are refused. */
  method EncodeLeaf(es: seq<Entry>, next: nat) returns (r: Result<seq<byte>>)
    requires forall i :: 0 <= i < |es| ==> EntryFits(es[i])
    ensures r == if |es| > LEAF_ORDER then Err else Ok(DataBytes(LeafData(es, next)))
  {
    hide Le, EntriesBytes, DataBytes, Built, LeafHead, Zeros;
    if |es| > LEAF_ORDER {
      return Err;
    }
    var d := NewArea();
    ghost var head := LeafHead(|es|, next);
    WriteNext(d, 0, LeafHead(|es|, next), []);
    NoEntries(es, head);
    var off := 8;
    for i := 0 to |es|
      invariant off == 8 + 264 * i && d.Length == DATA_SIZE && Built(d, head + EntriesBytes(es[..i]))
    {
      var bytes := Le(es[i].key, 8) + es[i].val;
      WriteNext(d, off, bytes, head + EntriesBytes(es[..i]));
      EntryStep(es, i, head);
      off := off + 264;
    }
    assert es[..|es|] == es;
    FullArea(d, LeafData(es, next));
    return Ok(d[..]);
  }

  lemma {:induction false} NoEntries(es: seq<Entry>, head: seq<byte>)
    ensures [] + head == head + EntriesBytes(es[..0])
  {
  }

  method NewArea() returns (d: array<byte>)
    ensures fresh(d) && d.Length == DATA_SIZE && Built(d, [])
  {
    d := new byte[DATA_SIZE](_ => 0);
    assert d[..] == [] + Zeros(DATA_SIZE);
  }

  lemma {:induction false} FullArea(d: array<byte>, data: Data)
    requires d.Length == DATA_SIZE && Built(d, Content(data))
    ensures d[..] == DataBytes(data)
  {
  }

  lemma {:induction false} EntryStep(es: seq<Entry>, i: nat, front: seq<byte>)
    requires i < |es| && EntryFits(es[i])
    ensures front + EntriesBytes(es[..i]) + (Le(es[i].key, 8) + es[i].val) == front + EntriesBytes(es[..i + 1])
  {
    assert es[..i + 1][..i] == es[..i];
    assert es[i].val + Zeros(0) == es[i].val;
  }

  method EncodeInternal(keys: seq<int>, children: seq<nat>) returns (r: Result<seq<byte>>)
    requires forall i :: 0 <= i < |keys| ==> 0 <= keys[i]
    ensures r == if |keys| > INTERNAL_ORDER || |children| != |keys| + 1 then Err else Ok(DataBytes(InternalData(keys, children)))
  {
    hide Le, Numbers, DataBytes, Built, InternalHead, Zeros;
    if |keys| > INTERNAL_ORDER || |children| != |keys| + 1 {
      return Err;
    }
    var d := NewArea();
    ghost var head := InternalHead(|keys|);
    WriteNext(d, 0, InternalHead(|keys|), []);
    assert [] + head == head;
    var ks := Keys(keys);
    var off := WriteNumbers(d, 8, ks, 8, head);
    off := WriteNumbers(d, off, children, 4, head + Numbers(ks, 8));
    FullArea(d, InternalData(keys, children));
    return Ok(d[..]);
  }

  /** The meta page's data area. */
  method EncodeMeta(total: nat, free: seq<nat>) returns (data: seq<byte>)
    requires |free| <= MAX_FREE
    ensures data == DataBytes(Meta(total, free))
  {
    hide Le, Numbers, DataBytes, Built, Zeros;
    var d := NewArea();
    WriteNext(d, 0, Le(total, 4), []);
    assert [] + Le(total, 4) == Le(total, 4);
    WriteNext(d, 4, Le(|free|, 4), Le(total, 4));
    var off := WriteNumbers(d, 8, free, 4, Le(total, 4) + Le(|free|, 4));
    FullArea(d, Meta(total, free));
    data := d[..];
  }

  // ---------------------------------------------------------------- reading

  function ReadNumber(d: seq<byte>, off: nat, w: nat): nat
    requires off + w <= |d|
  {
    UnLe(d[off..off + w])
  }

  function ReadNumbers(d: seq<byte>, off: nat, w: nat, n: nat): (r: seq<nat>)
    requires off + w * n <= |d|
    ensures |r| == n
  {
    if n == 0 then [] else ReadNumbers(d, off, w, n - 1) + [ReadNumber(d, off + w * (n - 1), w)]
  }

  function ReadEntries(d: seq<byte>, off: nat, n: nat): (r: seq<Entry>)
    requires off + 264 * n <= |d|
    ensures |r| == n
  {
    if n == 0 then [] else
    var at := off + 264 * (n - 1);
    ReadEntries(d, off, n - 1) + [Entry(ReadNumber(d, at, 8), d[at + 8..at + 264])]
  }

  /** The leaf in a data area; another node type is an error, and so is a count that runs past the page. */
  function DecodeLeaf(d: seq<byte>): Result<Data>
    requires |d| == DATA_SIZE
  {
    var n := ReadNumber(d, 2, 2);
    if d[0] != 1 || 8 + 264 * n > |d| then Err else Ok(LeafData(ReadEntries(d, 8, n), ReadNumber(d, 4, 4)))
  }

  function DecodeInternal(d: seq<byte>): Result<Data>
    requires |d| == DATA_SIZE
  {
    var n := ReadNumber(d, 2, 2);
    if d[0] != 0 || 8 + 8 * n + 4 * (n + 1) > |d| then Err
    else Ok(InternalData(ReadNumbers(d, 8, 8, n), ReadNumbers(d, 8 + 8 * n, 4, n + 1)))
  }

  /** The counters and free list of a meta page. */
  function LoadMeta(d: seq<byte>): Result<Data>
    requires |d| == DATA_SIZE
  {
    var n := ReadNumber(d, 4, 4);
    if 8 + 4 * n > |d| then Err else Ok(Meta(ReadNumber(d, 0, 4), ReadNumbers(d, 8, 4, n)))
  }

  method DecodeLeafLoop(d: seq<byte>) returns (r: Result<Data>)
    requires |d| == DATA_SIZE
    ensures r == DecodeLeaf(d)
  {
    if d[0] != 1 {
      return Err;
    }
    var n := ReadNumber(d, 2, 2);
    if 8 + 264 * n > |d| {
      return Err;
    }
    var entries: seq<Entry>, off := [], 8;
    for i := 0 to n
      invariant off == 8 + 264 * i && entries == ReadEntries(d, 8, i)
    {
      entries := entries + [Entry(ReadNumber(d, off, 8), d[off + 8..off + 264])];
      off := off + 264;
    }
    return Ok(LeafData(entries, ReadNumber(d, 4, 4)));
  }

  /** The orders are the largest that fit the data area. */
  lemma {:induction false} OrdersFill(n: nat)
    ensures n <= LEAF_ORDER <==> 8 + (8 + VALUE_SIZE) * n <= DATA_SIZE
    ensures n <= INTERNAL_ORDER <==> 8 + 8 * n + 4 * (n + 1) <= DATA_SIZE
    ensures n <= MAX_FREE <==> 8 + 4 * n <= DATA_SIZE
    ensures DATA_SIZE + HEADER_SIZE == PAGE_SIZE
  {
  }

  // ---------------------------------------------------------------- round trips

  lemma {:induction false} ReadAt(front: seq<byte>, n: nat, w: nat, rest: seq<byte>)
    requires n < Pow256(w)
    ensures |front| + w <= |front + Le(n, w) + rest| && ReadNumber(front + Le(n, w) + rest, |front|, w) == n
  {
    Middle(front, Le(n, w), rest);
    LeRoundTrip(n, w);
  }

  lemma {:induction false} NumbersSnoc(ns: seq<nat>, w: nat)
    requires ns != []
    ensures var n := |ns| - 1; Numbers(ns, w) == Numbers(ns[..n], w) + Le(ns[n], w) && |Numbers(ns[..n], w)| == w * n && w * n + w == w * |ns|
  {
  }

  lemma {:induction false} ReadSnoc(d: seq<byte>, off: nat, w: nat, n: nat)
    requires n > 0 && off + w * n <= |d|
    ensures off + w * (n - 1) + w <= |d|
    ensures ReadNumbers(d, off, w, n) == ReadNumbers(d, off, w, n - 1) + [ReadNumber(d, off + w * (n - 1), w)]
  {
  }

  lemma {:induction false} NumbersBack(front: seq<byte>, ns: seq<nat>, w: nat, rest: seq<byte>)
    requires forall i :: 0 <= i < |ns| ==> ns[i] < Pow256(w)
    ensures |front| + w * |ns| <= |front + Numbers(ns, w) + rest|
    ensures ReadNumbers(front + Numbers(ns, w) + rest, |front|, w, |ns|) == ns
  {
    hide Le, Pow256, Numbers, ReadNumbers, ReadNumber;
    var d := front + Numbers(ns, w) + rest;
    if ns == [] {
      NothingRead(d, |front|, w);
    } else {
      var n := |ns| - 1;
      NumbersSnoc(ns, w);
      ReadSnoc(d, |front|, w, n + 1);
      NumbersBack(front, ns[..n], w, Le(ns[n], w) + rest);
      Reassoc(front, Numbers(ns[..n], w), Le(ns[n], w), rest);
      ReadAt(front + Numbers(ns[..n], w), ns[n], w, rest);
      assert ns == ns[..n] + [ns[n]];
    }
  }

  lemma {:induction false} NothingRead(d: seq<byte>, off: nat, w: nat)
    requires off <= |d|
    ensures w * 0 == 0 && ReadNumbers(d, off, w, 0) == []
  {
  }

  lemma {:induction false} Reassoc(a: seq<byte>, b: seq<byte>, c: seq<byte>, d: seq<byte>)
    ensures a + (b + c) + d == (a + b) + c + d == a + b + (c + d)
  {
  }

  lemma {:induction false} EntriesSnoc(es: seq<Entry>, d: seq<byte>, off: nat)
    requires es != [] && off + 264 * |es| <= |d|
    ensures var n := |es| - 1; var at := off + 264 * n;
      && EntriesBytes(es) == EntriesBytes(es[..n]) + EntryBytes(es[n])
      && ReadEntries(d, off, |es|) == ReadEntries(d, off, n) + [Entry(ReadNumber(d, at, 8), d[at + 8..at + 264])]
  {
  }

  lemma {:induction false} EntriesBack(front: seq<byte>, es: seq<Entry>, rest: seq<byte>)
    requires forall i :: 0 <= i < |es| ==> EntryFits(es[i])
    ensures |front| + 264 * |es| <= |front + EntriesBytes(es) + rest|
    ensures ReadEntries(front + EntriesBytes(es) + rest, |front|, |es|) == es
  {
    hide Le, Pow256, ReadNumber, EntryBytes, EntriesBytes, ReadEntries;
    var d := front + EntriesBytes(es) + rest;
    if es == [] {
      NoEntryRead(d, |front|);
    } else {
      var n := |es| - 1;
      EntriesSnoc(es, d, |front|);
      EntriesBack(front, es[..n], EntryBytes(es[n]) + rest);
      Reassoc(front, EntriesBytes(es[..n]), EntryBytes(es[n]), rest);
      OneEntryBack(front + EntriesBytes(es[..n]), es[n], rest);
      assert es == es[..n] + [es[n]];
    }
  }

  lemma {:induction false} NoEntryRead(d: seq<byte>, off: nat)
    requires off <= |d|
    ensures ReadEntries(d, off, 0) == []
  {
  }

  lemma {:induction false} OneEntryBack(front: seq<byte>, e: Entry, rest: seq<byte>)
    requires EntryFits(e)
    ensures var d, at := front + EntryBytes(e) + rest, |front|;
      at + 264 <= |d| && ReadNumber(d, at, 8) == e.key && d[at + 8..at + 264] == e.val
  {
    hide Le, Pow256;
    assert e.val + Zeros(0) == e.val;
    var k, d := Le(e.key, 8), front + EntryBytes(e) + rest;
    Widths();
    Reassoc(front, k, e.val, rest);
    ReadAt(front, e.key, 8, e.val + rest);
    Middle(front + k, e.val, rest);
  }

  lemma {:induction false} PadIs(s: seq<byte>)
    requires |s| <= DATA_SIZE
    ensures Padded(s, DATA_SIZE) == s + Zeros(DATA_SIZE - |s|)
  {
  }

  /** The four header fields of a node. */
  lemma {:induction false} HeadBack(t: byte, n: nat, next: nat, rest: seq<byte>)
    requires n < 0x1_0000 && next < 0x1_0000_0000
    ensures var d := [t, 0] + Le(n, 2) + Le(next, 4) + rest;
      d[0] == t && ReadNumber(d, 2, 2) == n && ReadNumber(d, 4, 4) == next
  {
    hide Le, Pow256;
    Widths();
    Reassoc([t, 0], Le(n, 2), Le(next, 4), rest);
    ReadAt([t, 0], n, 2, Le(next, 4) + rest);
    ReadAt([t, 0] + Le(n, 2), next, 4, rest);
  }

  /** Every leaf of at most 15 entries fits its page and is read back unchanged. */
  lemma {:induction false} LeafRoundTrip(es: seq<Entry>, next: nat)
    requires LeafFits(es, next)
    ensures |Content(LeafData(es, next))| <= DATA_SIZE
    ensures DecodeLeaf(DataBytes(LeafData(es, next))) == Ok(LeafData(es, next))
  {
    hide Le, Pow256, ReadEntries, EntriesBytes, ReadNumber, UnLe;
    var c := Content(LeafData(es, next));
    PadIs(c);
    var pad := Zeros(DATA_SIZE - |c|);
    HeadBack(1, |es|, next, EntriesBytes(es) + pad);
    EntriesBack(LeafHead(|es|, next), es, pad);
    assert c + pad == LeafHead(|es|, next) + EntriesBytes(es) + pad;
    assert c + pad == LeafHead(|es|, next) + (EntriesBytes(es) + pad);
  }

  lemma {:induction false} KeysAre(keys: seq<int>)
    requires forall i :: 0 <= i < |keys| ==> 0 <= keys[i] < KEY_LIMIT
    ensures Keys(keys) == keys
  {
  }

  /** Every internal node of at most 338 keys fits its page and is read back unchanged. */
  lemma {:induction false} InternalRoundTrip(keys: seq<int>, children: seq<nat>)
    requires InternalFits(keys, children)
    ensures |Content(InternalData(keys, children))| <= DATA_SIZE
    ensures DecodeInternal(DataBytes(InternalData(keys, children))) == Ok(InternalData(keys, children))
  {
    hide Le, Pow256, ReadNumbers, Numbers, ReadNumber, UnLe;
    var c := Content(InternalData(keys, children));
    PadIs(c);
    KeysAre(keys);
    var ks: seq<nat> := Keys(keys);
    var head, pad := InternalHead(|keys|), Zeros(DATA_SIZE - |c|);
    var a, b := Numbers(ks, 8), Numbers(children, 4);
    Widths();
    Reassoc(head, a, b, pad);
    HeadBack(0, |keys|, 0, a + (b + pad));
    assert head + a + (b + pad) == head + (a + (b + pad));
    NumbersBack(head, ks, 8, b + pad);
    NumbersBack(head + a, children, 4, pad);
    assert c + pad == head + a + b + pad;
  }

  /** Loading the meta page restores exactly what was saved; up to 1016 free pages fit. */
  lemma {:induction false} MetaRoundTrip(total: nat, free: seq<nat>)
    requires total < 0x1_0000_0000 && |free| <= MAX_FREE && forall i :: 0 <= i < |free| ==> free[i] < 0x1_0000_0000
    ensures |Content(Meta(total, free))| <= DATA_SIZE
    ensures LoadMeta(DataBytes(Meta(total, free))) == Ok(Meta(total, free))
  {
    hide Le, Pow256, ReadNumbers, Numbers, ReadNumber, UnLe;
    var c := Content(Meta(total, free));
    PadIs(c);
    var pad, b := Zeros(DATA_SIZE - |c|), Numbers(free, 4);
    Widths();
    var t, n := Le(total, 4), Le(|free|, 4);
    assert c + pad == [] + t + (n + b + pad);
    ReadAt([], total, 4, n + b + pad);
    assert c + pad == t + n + (b + pad);
    ReadAt(t, |free|, 4, b + pad);
    assert c + pad == t + n + b + pad;
    NumbersBack(t + n, free, 4, pad);
  }

  /** Neither kind of node is ever taken for the other. */
  lemma {:induction false} KindsApart(es: seq<Entry>, next: nat, keys: seq<int>, children: seq<nat>)
    requires LeafFits(es, next) && InternalFits(keys, children)
    ensures DecodeInternal(DataBytes(LeafData(es, next))).Err? && DecodeLeaf(DataBytes(InternalData(keys, children))).Err?
  {
    LeafRoundTrip(es, next);
    InternalRoundTrip(keys, children);
  }

  /** What a data area must say to be read as a node: its type, and a count that stays inside. */
  lemma {:induction false} NodeAcceptedIff(d: seq<byte>)
    requires |d| == DATA_SIZE
    ensures DecodeLeaf(d).Ok? <==> d[0] == 1 && ReadNumber(d, 2, 2) <= LEAF_ORDER
    ensures DecodeInternal(d).Ok? <==> d[0] == 0 && ReadNumber(d, 2, 2) <= INTERNAL_ORDER
    ensures LoadMeta(d).Ok? <==> ReadNumber(d, 4, 4) <= MAX_FREE
  {
  }
}
