/** Little-endian integers, byte buffers and the layout of a page's data area. */
module Bytes {
  import opened Pages

  const PAGE_SIZE := 4096
  const HEADER_SIZE := 24
  const DATA_SIZE := 4072
  const VALUE_SIZE := 256

  /** The w low-order bytes of n, least significant first. */
  function Le(n: nat, w: nat): (s: seq<byte>)
    ensures |s| == w
  {
    if w == 0 then [] else [n % 256] + Le(n / 256, w - 1)
  }

  function UnLe(s: seq<byte>): nat {
    if s == [] then 0 else s[0] + 256 * UnLe(s[1..])
  }

  function Pow256(w: nat): nat {
    if w == 0 then 1 else 256 * Pow256(w - 1)
  }

  /** A number that fits its width is read back unchanged. */
  lemma {:induction false} LeRoundTrip(n: nat, w: nat)
    requires n < Pow256(w)
    ensures UnLe(Le(n, w)) == n
  {
    if w > 0 {
      LeRoundTrip(n / 256, w - 1);
      assert Le(n, w)[1..] == Le(n / 256, w - 1);
    }
  }

  /** Every byte string is the encoding of the number it reads as. */
  lemma {:induction false} LeOfUnLe(s: seq<byte>)
    ensures Le(UnLe(s), |s|) == s
  {
    if s != [] {
      LeOfUnLe(s[1..]);
      assert s == [s[0]] + s[1..];
    }
  }

  /** The digit of n at position i to base 256, counted from the least significant one. */
  function Digit(n: nat, i: nat): byte {
    if i == 0 then n % 256 else Digit(n / 256, i - 1)
  }

  /** Byte i is digit i. */
  lemma {:induction false} LeDigit(n: nat, w: nat, i: nat)
    requires i < w
    ensures Le(n, w)[i] == Digit(n, i)
  {
    if i > 0 {
      LeDigit(n / 256, w - 1, i - 1);
    }
  }

  lemma {:induction false} Widths()
    ensures Pow256(2) == 0x1_0000 && Pow256(4) == 0x1_0000_0000 && Pow256(8) == KEY_LIMIT
  {
    assert Pow256(3) == 0x100_0000 && Pow256(5) == 0x100_0000_0000 && Pow256(7) == 0x100_0000_0000_0000;
    assert Pow256(6) == 0x1_0000_0000_0000;
  }

  function Zeros(n: nat): (s: seq<byte>)
    ensures |s| == n
  {
    seq(n, _ => 0)
  }

  /** s at the start of an otherwise zero buffer of n bytes. */
  function Padded(s: seq<byte>, n: nat): (r: seq<byte>)
    ensures |r| == n
  {
    if |s| <= n then s + Zeros(n - |s|) else s[..n]
  }

  // ---------------------------------------------------------------- buffers

  /** `s` written over `d` from position `off`. */
  function Splice(d: seq<byte>, off: nat, s: seq<byte>): (r: seq<byte>)
    requires off + |s| <= |d|
    ensures |r| == |d|
  {
    d[..off] + s + d[off + |s|..]
  }

  /** Overwriting the middle part of a buffer. */
  lemma {:induction false} SpliceMid(a: seq<byte>, m: seq<byte>, b: seq<byte>, s: seq<byte>)
    requires |s| == |m|
    ensures |a| + |s| <= |a + m + b| && Splice(a + m + b, |a|, s) == a + s + b
  {
    var d := a + m + b;
    assert d[..|a|] == a && d[|a| + |s|..] == b;
  }

  lemma {:induction false} ZerosSplit(m: nat, n: nat)
    ensures Zeros(m + n) == Zeros(m) + Zeros(n)
  {
  }

  /** Appending to the written part of an otherwise zero buffer. */
  lemma {:induction false} SpliceNext(built: seq<byte>, n: nat, s: seq<byte>)
    requires |s| <= n
    ensures Splice(built + Zeros(n), |built|, s) == built + s + Zeros(n - |s|)
  {
    ZerosSplit(|s|, n - |s|);
    assert built + Zeros(n) == built + Zeros(|s|) + Zeros(n - |s|);
    SpliceMid(built, Zeros(|s|), Zeros(n - |s|), s);
  }

  method Write(d: array<byte>, off: nat, s: seq<byte>)
    requires off + |s| <= d.Length
    modifies d
    ensures d[..] == Splice(old(d[..]), off, s)
  {
    ghost var before := d[..];
    for i := 0 to |s|
      invariant forall j :: 0 <= j < d.Length ==> d[j] == if off <= j < off + i then s[j - off] else before[j]
    {
      d[off + i] := s[i];
    }
  }

  /** The first bytes are written, the rest is still zero. */
  ghost predicate Built(d: array<byte>, built: seq<byte>)
    reads d
  {
    |built| <= d.Length && d[..] == built + Zeros(d.Length - |built|)
  }

  /** Writes at the moving offset. */
  method WriteNext(d: array<byte>, off: nat, s: seq<byte>, ghost built: seq<byte>)
    requires Built(d, built) && off == |built| && off + |s| <= d.Length
    modifies d
    ensures Built(d, built + s)
  {
    SpliceNext(built, d.Length - off, s);
    Write(d, off, s);
  }

  /** Writes numbers of w bytes one after another. */
  method WriteNumbers(d: array<byte>, start: nat, ns: seq<nat>, w: nat, ghost built: seq<byte>) returns (off: nat)
    requires Built(d, built) && start == |built| && start + w * |ns| <= d.Length
    modifies d
    ensures Built(d, built + Numbers(ns, w)) && off == start + w * |ns|
  {
    hide Built, Le;
    off := start;
    assert built == built + Numbers(ns[..0], w);
    for i := 0 to |ns|
      invariant off == start + w * i && Built(d, built + Numbers(ns[..i], w))
    {
      RoomLeft(w, i, |ns|);
      WriteNext(d, off, Le(ns[i], w), built + Numbers(ns[..i], w));
      NumberStep(ns, i, w, built);
      off := off + w;
      assert off == start + w * (i + 1);
    }
    assert ns[..|ns|] == ns;
  }

  lemma {:induction false} RoomLeft(w: nat, i: nat, n: nat)
    requires i < n
    ensures w * i + w <= w * n
  {
    assert w * n == w * i + w * (n - i);
    assert w * (n - i) == w + w * (n - i - 1);
  }

  lemma {:induction false} NumberStep(ns: seq<nat>, i: nat, w: nat, front: seq<byte>)
    requires i < |ns|
    ensures front + Numbers(ns[..i], w) + Le(ns[i], w) == front + Numbers(ns[..i + 1], w)
  {
    assert ns[..i + 1][..i] == ns[..i];
  }

  /** A part of a concatenation, read back. */
  lemma {:induction false} Middle(a: seq<byte>, m: seq<byte>, b: seq<byte>)
    ensures (a + m + b)[|a|..|a| + |m|] == m
  {
  }

  // ---------------------------------------------------------------- data areas

  const HEADER_MAGIC := 0xB7EE_0001

  /** Numbers one after another, w bytes each. */
  function Numbers(ns: seq<nat>, w: nat): (s: seq<byte>)
    ensures |s| == w * |ns|
  {
    if ns == [] then [] else Numbers(ns[..|ns| - 1], w) + Le(ns[|ns| - 1], w)
  }

  function EntryBytes(e: Entry): (s: seq<byte>)
    ensures |s| == 8 + VALUE_SIZE
  {
    Le(if e.key < 0 then 0 else e.key, 8) + Padded(e.val, VALUE_SIZE)
  }

  function EntriesBytes(es: seq<Entry>): (s: seq<byte>)
    ensures |s| == (8 + VALUE_SIZE) * |es|
  {
    if es == [] then [] else EntriesBytes(es[..|es| - 1]) + EntryBytes(es[|es| - 1])
  }

  function Keys(ks: seq<int>): (r: seq<nat>)
    ensures |r| == |ks|
  {
    seq(|ks|, i requires 0 <= i < |ks| => if ks[i] < 0 then 0 else ks[i])
  }

  function LeafHead(n: nat, next: nat): (s: seq<byte>)
    ensures |s| == 8
  {
    [1, 0] + Le(n, 2) + Le(next, 4)
  }

  function InternalHead(n: nat): (s: seq<byte>)
    ensures |s| == 8
  {
    [0, 0] + Le(n, 2) + Le(0, 4)
  }

  /** The used part of a data area, before zero padding. */
  function Content(d: Data): seq<byte> {
    match d
    case Zeroed => []
    case Meta(total, free) => Le(total, 4) + Le(|free|, 4) + Numbers(free, 4)
    case Header(root) => Le(HEADER_MAGIC, 4) + Le(root, 4)
    case LeafData(es, next) => LeafHead(|es|, next) + EntriesBytes(es)
    case InternalData(keys, children) => InternalHead(|keys|) + Numbers(Keys(keys), 8) + Numbers(children, 4)
  }

  function DataBytes(d: Data): (s: seq<byte>)
    ensures |s| == DATA_SIZE
  {
    Padded(Content(d), DATA_SIZE)
  }
}
