/** GROUP BY and the aggregate functions. */
module Aggregates {
  import opened Pages
  import opened Seqs
  import opened Queries

  // ---------------------------------------------------------------- group keys

  function Decimal(n: nat): (s: seq<byte>)
    ensures |s| >= 1 && forall i :: 0 <= i < |s| ==> 48 <= s[i] < 58
  {
    if n < 10 then [48 + n] else Decimal(n / 10) + [48 + n % 10]
  }

  function Undecimal(s: seq<byte>): int {
    if s == [] then 0 else Undecimal(s[..|s| - 1]) * 10 + s[|s| - 1] - 48
  }

  lemma {:induction false} DecimalRoundTrip(n: nat)
    ensures Undecimal(Decimal(n)) == n
  {
    if n >= 10 {
      DecimalRoundTrip(n / 10);
      var s := Decimal(n);
      assert s[..|s| - 1] == Decimal(n / 10) && s[|s| - 1] == 48 + n % 10;
    } else {
      assert Undecimal([48 + n][..0]) == 0;
    }
  }

  /** One value of a group key: a letter for its type, then its digits or its bytes. */
  function Token(v: Datum): (s: seq<byte>)
    ensures |s| >= 1
  {
    match v
    case Int(n) => [105] + Decimal(n)
    case Text(s) => [115] + s
  }

  lemma {:induction false} TokenInjective(a: Datum, b: Datum)
    requires Token(a) == Token(b)
    ensures a == b
  {
    assert Token(a)[0] == Token(b)[0];
    assert Token(a)[1..] == Token(b)[1..];
    match a
    case Int(n) => DecimalRoundTrip(n); DecimalRoundTrip(b.n);
    case Text(s) =>
  }

  /** A group key: the tokens of the values, separated by zero bytes. */
  function KeyOf(vs: seq<Datum>): seq<byte> {
    if vs == [] then [] else
    KeyOf(vs[..|vs| - 1]) + (if |vs| > 1 then [0] else []) + Token(vs[|vs| - 1])
  }

  predicate Reach(row: Row, idxs: seq<nat>) {
    forall i :: 0 <= i < |idxs| ==> idxs[i] < |row|
  }

  /** The values of the grouping columns. */
  function Vals(row: Row, idxs: seq<nat>): (vs: seq<Datum>)
    requires Reach(row, idxs)
    ensures |vs| == |idxs| && forall i :: 0 <= i < |idxs| ==> vs[i] == row[idxs[i]]
  {
    seq(|idxs|, i requires 0 <= i < |idxs| => row[idxs[i]])
  }

  function GroupKey(row: Row, idxs: seq<nat>): seq<byte>
    requires Reach(row, idxs)
  {
    KeyOf(Vals(row, idxs))
  }

  method RowGroupKey(row: Row, idxs: seq<nat>) returns (key: seq<byte>)
    requires Reach(row, idxs)
    ensures key == GroupKey(row, idxs)
  {
    key := [];
    ghost var vs := Vals(row, idxs);
    for i := 0 to |idxs|
      invariant key == KeyOf(vs[..i])
    {
      TakeOne(vs, i);
      if i > 0 {
        key := key + [0];
      }
      var v := row[idxs[i]];
      if v.Int? {
        key := key + ([105] + Decimal(v.n));
      } else {
        key := key + ([115] + v.s);
      }
    }
    assert vs[..|vs|] == vs;
  }

  predicate NulFree(v: Datum) {
    v.Text? ==> 0 !in v.s
  }

  /** The rows agree on every grouping column. */
  predicate Agree(a: Row, b: Row, idxs: seq<nat>)
    requires Reach(a, idxs) && Reach(b, idxs)
  {
    forall i :: 0 <= i < |idxs| ==> a[idxs[i]] == b[idxs[i]]
  }

  lemma {:induction false} AgreeVals(a: Row, b: Row, idxs: seq<nat>)
    requires Reach(a, idxs) && Reach(b, idxs)
    ensures Agree(a, b, idxs) <==> Vals(a, idxs) == Vals(b, idxs)
  {
    if Vals(a, idxs) == Vals(b, idxs) {
      assert forall i :: 0 <= i < |idxs| ==> Vals(a, idxs)[i] == Vals(b, idxs)[i];
    }
  }

  lemma {:induction false} TokenNulFree(v: Datum)
    requires NulFree(v)
    ensures 0 !in Token(v)
  {
  }

  /** Two texts with a separator that the last parts do not contain split at the same place. */
  lemma {:induction false} LastSeparator(a: seq<byte>, s: seq<byte>, b: seq<byte>, t: seq<byte>)
    requires 0 !in s && 0 !in t && a + [0] + s == b + [0] + t
    ensures a == b && s == t
  {
    var x := a + [0] + s;
    assert x[|a|] == 0 && forall k :: |a| < k < |x| ==> x[k] == s[k - |a| - 1] && x[k] != 0;
    assert x[|b|] == 0 && forall k :: |b| < k < |x| ==> x[k] == t[k - |b| - 1] && x[k] != 0;
    assert x[..|a|] == a && x[|a| + 1..] == s;
    assert x == b + [0] + t && x[..|b|] == b && x[|b| + 1..] == t;
  }

  /** Likewise when the first parts do not contain it. */
  lemma {:induction false} FirstSeparator(s: seq<byte>, a: seq<byte>, t: seq<byte>, b: seq<byte>)
    requires 0 !in s && 0 !in t && s + [0] + a == t + [0] + b
    ensures s == t && a == b
  {
    var x := s + [0] + a;
    assert x[|s|] == 0 && forall k :: 0 <= k < |s| ==> x[k] == s[k] && x[k] != 0;
    assert x[|t|] == 0 && forall k :: 0 <= k < |t| ==> x[k] == t[k] && x[k] != 0;
    assert x[..|s|] == s && x[|s| + 1..] == a;
    assert x == t + [0] + b && x[..|t|] == t && x[|t| + 1..] == b;
  }

  // ---------------------------------------------------------------- when keys tell rows apart

  /** Without zero bytes in texts, values have the same key exactly when they are the same. */
  lemma {:induction false} KeyInjective(vs: seq<Datum>, ws: seq<Datum>)
    requires |vs| == |ws| && forall i :: 0 <= i < |vs| ==> NulFree(vs[i]) && NulFree(ws[i])
    ensures KeyOf(vs) == KeyOf(ws) <==> vs == ws
  {
    hide Token, NulFree;
    if vs != [] && KeyOf(vs) == KeyOf(ws) {
      var n := |vs| - 1;
      KeyInjective(vs[..n], ws[..n]);
      TokenNulFree(vs[n]);
      TokenNulFree(ws[n]);
      KeySplit(vs, ws);
    }
  }

  /** A last column without zero bytes comes off the end. */
  lemma {:induction false} KeySplit(vs: seq<Datum>, ws: seq<Datum>)
    requires |vs| == |ws| > 0 && KeyOf(vs) == KeyOf(ws) && 0 !in Token(vs[|vs| - 1]) && 0 !in Token(ws[|ws| - 1])
    ensures vs[|vs| - 1] == ws[|ws| - 1] && KeyOf(vs[..|vs| - 1]) == KeyOf(ws[..|ws| - 1])
    ensures vs[..|vs| - 1] == ws[..|ws| - 1] ==> vs == ws
  {
    hide Token;
    var n := |vs| - 1;
    if n > 0 {
      LastSeparator(KeyOf(vs[..n]), Token(vs[n]), KeyOf(ws[..n]), Token(ws[n]));
    } else {
      assert KeyOf(vs) == Token(vs[0]) && KeyOf(ws) == Token(ws[0]);
    }
    TokenInjective(vs[n], ws[n]);
    assert vs == vs[..n] + [vs[n]] && ws == ws[..n] + [ws[n]];
  }

  predicate HasTypes(vs: seq<Datum>, types: seq<ColType>) {
    |vs| == |types| && forall i :: 0 <= i < |vs| ==> ColTypeOf(vs[i]) == types[i]
  }

  predicate AtMostOneText(types: seq<ColType>) {
    forall i, j :: 0 <= i < j < |types| ==> types[i].IntType? || types[j].IntType?
  }

  /** Integer columns in front of a separator come off from the left. */
  lemma {:induction false} IntsFirst(vs: seq<Datum>, a: seq<byte>, ws: seq<Datum>, b: seq<byte>)
    requires |vs| == |ws| > 0 && KeyOf(vs) + [0] + a == KeyOf(ws) + [0] + b
    requires forall i :: 0 <= i < |vs| ==> vs[i].Int? && ws[i].Int?
    ensures vs == ws && a == b
  {
    hide Token;
    var n := |vs| - 1;
    TokenNulFree(vs[n]);
    TokenNulFree(ws[n]);
    if n == 0 {
      assert KeyOf(vs) == Token(vs[0]) && KeyOf(ws) == Token(ws[0]);
      FirstSeparator(Token(vs[0]), a, Token(ws[0]), b);
    } else {
      var a', b' := Token(vs[n]) + [0] + a, Token(ws[n]) + [0] + b;
      assert KeyOf(vs) + [0] + a == KeyOf(vs[..n]) + [0] + a';
      assert KeyOf(ws) + [0] + b == KeyOf(ws[..n]) + [0] + b';
      IntsFirst(vs[..n], a', ws[..n], b');
      FirstSeparator(Token(vs[n]), a, Token(ws[n]), b);
    }
    TokenInjective(vs[n], ws[n]);
    assert vs == vs[..n] + [vs[n]] && ws == ws[..n] + [ws[n]];
  }

  /** With at most one text column, whatever zero bytes it holds, equal keys mean equal values. */
  lemma {:induction false} OneTextInjective(vs: seq<Datum>, ws: seq<Datum>, types: seq<ColType>)
    requires HasTypes(vs, types) && HasTypes(ws, types) && AtMostOneText(types) && KeyOf(vs) == KeyOf(ws)
    ensures vs == ws
  {
    hide Token;
    if vs != [] {
      var n := |vs| - 1;
      if types[n].IntType? {
        TokenNulFree(vs[n]);
        TokenNulFree(ws[n]);
        KeySplit(vs, ws);
        OneTextInjective(vs[..n], ws[..n], types[..n]);
      } else if n == 0 {
        assert KeyOf(vs) == Token(vs[0]) && KeyOf(ws) == Token(ws[0]);
        TokenInjective(vs[0], ws[0]);
      } else {
        forall i | 0 <= i < n ensures vs[..n][i].Int? && ws[..n][i].Int? {
          assert types[i].IntType?;
        }
        IntsFirst(vs[..n], Token(vs[n]), ws[..n], Token(ws[n]));
        TokenInjective(vs[n], ws[n]);
        assert vs == vs[..n] + [vs[n]] && ws == ws[..n] + [ws[n]];
      }
    }
  }

  /** The bytes further values add to a key. */
  function Tail(vs: seq<Datum>): seq<byte> {
    if vs == [] then [] else Tail(vs[..|vs| - 1]) + ([0] + Token(vs[|vs| - 1]))
  }

  lemma {:induction false} KeyTail(a: seq<Datum>, b: seq<Datum>)
    requires a != []
    ensures KeyOf(a + b) == KeyOf(a) + Tail(b)
  {
    hide Token;
    if b == [] {
      assert a + b == a;
    } else {
      ConcatInit(a, b);
      KeyTail(a, b[..|b| - 1]);
    }
  }

  lemma {:induction false} TailConcat(a: seq<Datum>, b: seq<Datum>)
    ensures Tail(a + b) == Tail(a) + Tail(b)
  {
    hide Token;
    if b == [] {
      assert a + b == a;
    } else {
      ConcatInit(a, b);
      TailConcat(a, b[..|b| - 1]);
    }
  }

  lemma {:induction false} KeySnoc(a: seq<Datum>, v: Datum)
    ensures KeyOf(a + [v]) == KeyOf(a) + (if a == [] then [] else [0]) + Token(v) && Tail([v]) == [0] + Token(v)
  {
    hide Token;
    assert (a + [v])[..|a|] == a && (a + [v])[|a|] == v;
    assert [v][..0] == [] && [] + ([0] + Token(v)) == [0] + Token(v);
  }

  lemma {:induction false} TextBytes(h: seq<byte>, x: seq<byte>, m: seq<byte>, y: seq<byte>, r: seq<byte>)
    ensures h + ([115] + x) + (m + ([0] + ([115] + y)) + r) == h + [115] + x + (m + [0, 115]) + y + r
  {
  }

  /** Values with two texts, and where their bytes stand in the key. */
  lemma {:induction false} TwoTexts(a: seq<Datum>, x: seq<byte>, mid: seq<Datum>, y: seq<byte>, rest: seq<Datum>)
    ensures KeyOf(a + [Text(x)] + mid + [Text(y)] + rest) ==
      KeyOf(a) + (if a == [] then [] else [0]) + [115] + x + (Tail(mid) + [0, 115]) + y + Tail(rest)
  {
    hide KeyOf, Tail;
    var front, one := a + [Text(x)], [Text(y)];
    KeySnoc(a, Text(x));
    KeySnoc([], Text(y));
    TailConcat(mid, one);
    TailConcat(mid + one, rest);
    KeyTail(front, mid + one + rest);
    Regrouped(front, mid, one, rest);
    TextBytes(KeyOf(a) + (if a == [] then [] else [0]), x, Tail(mid), y, Tail(rest));
  }

  lemma {:induction false} Regrouped(a: seq<Datum>, b: seq<Datum>, c: seq<Datum>, d: seq<Datum>)
    ensures a + b + c + d == a + (b + c + d)
  {
  }

  function Default(t: ColType): Datum {
    if t.IntType? then Int(0) else Text([])
  }

  function Defaults(types: seq<ColType>): (vs: seq<Datum>)
    ensures HasTypes(vs, types)
  {
    seq(|types|, i requires 0 <= i < |types| => Default(types[i]))
  }

  /** With two text columns, moving the bytes between them into the one or the other gives two
      different rows with one key. */
  lemma {:induction false} TwoTextsCollide(types: seq<ColType>, i: nat, j: nat) returns (vs: seq<Datum>, ws: seq<Datum>)
    requires i < j < |types| && types[i].TextType? && types[j].TextType?
    ensures HasTypes(vs, types) && HasTypes(ws, types) && vs != ws && KeyOf(vs) == KeyOf(ws)
  {
    hide KeyOf, Tail, Defaults;
    var a, mid, rest := Defaults(types[..i]), Defaults(types[i + 1..j]), Defaults(types[j + 1..]);
    var m := Tail(mid) + [0, 115];
    vs, ws := a + [Text([])] + mid + [Text(m)] + rest, a + [Text(m)] + mid + [Text([])] + rest;
    PartsTyped(types, i, j, a, [], mid, m, rest);
    PartsTyped(types, i, j, a, m, mid, [], rest);
    TwoTexts(a, [], mid, m, rest);
    TwoTexts(a, m, mid, [], rest);
    SameBytes(KeyOf(a) + (if a == [] then [] else [0]) + [115], m, Tail(rest));
  }

  lemma {:induction false} PartsTyped(types: seq<ColType>, i: nat, j: nat, a: seq<Datum>, x: seq<byte>, mid: seq<Datum>, y: seq<byte>, rest: seq<Datum>)
    requires i < j < |types| && types[i].TextType? && types[j].TextType?
    requires HasTypes(a, types[..i]) && HasTypes(mid, types[i + 1..j]) && HasTypes(rest, types[j + 1..])
    ensures var vs := a + [Text(x)] + mid + [Text(y)] + rest; HasTypes(vs, types) && vs[i] == Text(x)
  {
    var vs := a + [Text(x)] + mid + [Text(y)] + rest;
    forall n | 0 <= n < |vs| ensures ColTypeOf(vs[n]) == types[n] {
      if n < i {
        assert vs[n] == a[n] && types[..i][n] == types[n];
      } else if i < n < j {
        assert vs[n] == mid[n - i - 1] && types[i + 1..j][n - i - 1] == types[n];
      } else if j < n {
        assert vs[n] == rest[n - j - 1] && types[j + 1..][n - j - 1] == types[n];
      }
    }
  }

  lemma {:induction false} SameBytes(h: seq<byte>, m: seq<byte>, r: seq<byte>)
    ensures h + [] + m + m + r == h + m + m + [] + r
  {
  }

  /** Spreads values over the columns they belong to. */
  function Spread(row: Row, idxs: seq<nat>, vs: seq<Datum>): (r: Row)
    requires |vs| == |idxs| && Reach(row, idxs)
    ensures |r| == |row|
  {
    if idxs == [] then row else
    var n := |idxs| - 1;
    Spread(row, idxs[..n], vs[..n])[idxs[n] := vs[n]]
  }

  ghost predicate NoRepeats(idxs: seq<nat>) {
    forall i, j :: 0 <= i < j < |idxs| ==> idxs[i] != idxs[j]
  }

  lemma {:induction false} SpreadBack(row: Row, types: seq<ColType>, idxs: seq<nat>, vs: seq<Datum>)
    requires HasTypes(row, types) && Reach(row, idxs) && NoRepeats(idxs) && |vs| == |idxs|
    requires forall i :: 0 <= i < |idxs| ==> ColTypeOf(vs[i]) == types[idxs[i]]
    ensures HasTypes(Spread(row, idxs, vs), types) && Vals(Spread(row, idxs, vs), idxs) == vs
  {
    if idxs != [] {
      var n := |idxs| - 1;
      SpreadBack(row, types, idxs[..n], vs[..n]);
      var r, s := Spread(row, idxs[..n], vs[..n]), Spread(row, idxs, vs);
      forall i | 0 <= i < |idxs| ensures s[idxs[i]] == vs[i] {
        if i < n {
          assert Vals(r, idxs[..n])[i] == r[idxs[..n][i]] == vs[..n][i];
        }
      }
    }
  }

  function TypesAt(types: seq<ColType>, idxs: seq<nat>): (ts: seq<ColType>)
    requires forall i :: 0 <= i < |idxs| ==> idxs[i] < |types|
    ensures |ts| == |idxs| && forall i :: 0 <= i < |idxs| ==> ts[i] == types[idxs[i]]
  {
    seq(|idxs|, i requires 0 <= i < |idxs| => types[idxs[i]])
  }

  /** Over all rows of a schema, equal keys mean equal grouping columns exactly when at most one of the
      grouping columns is TEXT. */
  lemma {:induction false} KeyExactIff(types: seq<ColType>, idxs: seq<nat>)
    requires (forall i :: 0 <= i < |idxs| ==> idxs[i] < |types|) && NoRepeats(idxs)
    ensures (forall a: Row, b: Row :: HasTypes(a, types) && HasTypes(b, types) && GroupKey(a, idxs) == GroupKey(b, idxs) ==> Agree(a, b, idxs)) <==>
      AtMostOneText(TypesAt(types, idxs))
  {
    hide KeyOf, Spread;
    var ts := TypesAt(types, idxs);
    if AtMostOneText(ts) {
      forall a: Row, b: Row | HasTypes(a, types) && HasTypes(b, types) && GroupKey(a, idxs) == GroupKey(b, idxs) ensures Agree(a, b, idxs) {
        OneTextInjective(Vals(a, idxs), Vals(b, idxs), ts);
        AgreeVals(a, b, idxs);
      }
    } else {
      var i, j :| 0 <= i < j < |ts| && !(ts[i].IntType? || ts[j].IntType?);
      var vs, ws := TwoTextsCollide(ts, i, j);
      var row := Defaults(types);
      SpreadBack(row, types, idxs, vs);
      SpreadBack(row, types, idxs, ws);
      var a, b := Spread(row, idxs, vs), Spread(row, idxs, ws);
      AgreeVals(a, b, idxs);
      assert GroupKey(a, idxs) == GroupKey(b, idxs);
    }
  }

  // ---------------------------------------------------------------- grouping

  datatype Group = Group(key: seq<byte>, rows: seq<Row>)

  ghost predicate Wide(rows: seq<Row>, idxs: seq<nat>) {
    forall r :: 0 <= r < |rows| ==> Reach(rows[r], idxs)
  }

  function KeysOf(rows: seq<Row>, idxs: seq<nat>): (ks: seq<seq<byte>>)
    requires Wide(rows, idxs)
    ensures |ks| == |rows| && forall i :: 0 <= i < |ks| ==> ks[i] == GroupKey(rows[i], idxs)
  {
    seq(|rows|, i requires 0 <= i < |rows| => GroupKey(rows[i], idxs))
  }

  /** The distinct keys, in order of first appearance. */
  function FirstKeys(ks: seq<seq<byte>>): seq<seq<byte>> {
    if ks == [] then [] else
    var rest := FirstKeys(ks[..|ks| - 1]);
    if ks[|ks| - 1] in rest then rest else rest + [ks[|ks| - 1]]
  }

  /** The rows with a given key, in their order. */
  function WithKey(rows: seq<Row>, ks: seq<seq<byte>>, k: seq<byte>): seq<Row>
    requires |ks| == |rows|
  {
    if rows == [] then [] else
    WithKey(rows[..|rows| - 1], ks[..|ks| - 1], k) + if ks[|ks| - 1] == k then [rows[|rows| - 1]] else []
  }

  /** The groups are exactly the rows of each key, the keys in order of first appearance. */
  ghost predicate Partition(groups: seq<Group>, rows: seq<Row>, ks: seq<seq<byte>>)
    requires |ks| == |rows|
  {
    && |groups| == |FirstKeys(ks)|
    && forall g :: 0 <= g < |groups| ==> groups[g].key == FirstKeys(ks)[g] && groups[g].rows == WithKey(rows, ks, groups[g].key)
  }

  lemma {:induction false} FirstKeysExact(ks: seq<seq<byte>>)
    ensures forall k :: k in FirstKeys(ks) <==> k in ks
    ensures forall i, j :: 0 <= i < j < |FirstKeys(ks)| ==> FirstKeys(ks)[i] != FirstKeys(ks)[j]
  {
    if ks != [] {
      FirstKeysExact(ks[..|ks| - 1]);
      assert ks == ks[..|ks| - 1] + [ks[|ks| - 1]];
    }
  }

  /** How many of the first n rows have this key. */
  function Rank(ks: seq<seq<byte>>, k: seq<byte>, n: nat): nat
    requires n <= |ks|
  {
    if n == 0 then 0 else Rank(ks, k, n - 1) + if ks[n - 1] == k then 1 else 0
  }

  lemma {:induction false} RankInit(ks: seq<seq<byte>>, k: seq<byte>, n: nat)
    requires ks != [] && n < |ks|
    ensures Rank(ks[..|ks| - 1], k, n) == Rank(ks, k, n)
  {
    if n > 0 {
      RankInit(ks, k, n - 1);
    }
  }

  /** A group holds its rows in their order: a row stands behind the earlier rows of its key. */
  lemma {:induction false} RowsInOrder(rows: seq<Row>, ks: seq<seq<byte>>, k: seq<byte>)
    requires |ks| == |rows|
    ensures |WithKey(rows, ks, k)| == Rank(ks, k, |ks|)
    ensures forall i :: 0 <= i < |rows| && ks[i] == k ==> Rank(ks, k, i) < Rank(ks, k, |ks|) && WithKey(rows, ks, k)[Rank(ks, k, i)] == rows[i]
  {
    if rows != [] {
      var n := |rows| - 1;
      RowsInOrder(rows[..n], ks[..n], k);
      forall i | 0 <= i <= n ensures Rank(ks[..n], k, i) == Rank(ks, k, i) {
        RankInit(ks, k, i);
      }
    }
  }

  /** k first appears at position i. */
  ghost predicate FirstAt(ks: seq<seq<byte>>, k: seq<byte>, i: nat) {
    i < |ks| && ks[i] == k && forall j :: 0 <= j < i ==> ks[j] != k
  }

  /** Groups come in the order in which their first rows do. */
  lemma {:induction false} GroupsInOrder(ks: seq<seq<byte>>, a: nat, b: nat, i: nat, j: nat)
    requires a < |FirstKeys(ks)| && b < |FirstKeys(ks)| && FirstAt(ks, FirstKeys(ks)[a], i) && FirstAt(ks, FirstKeys(ks)[b], j)
    ensures a < b <==> i < j
  {
    FirstKeysExact(ks);
    var n := |ks| - 1;
    var init, rest := ks[..n], FirstKeys(ks[..n]);
    FirstKeysExact(init);
    if a < |rest| {
      FirstWithin(ks, rest[a], i);
    }
    if b < |rest| {
      FirstWithin(ks, rest[b], j);
    }
    if a < |rest| && b < |rest| {
      GroupsInOrder(init, a, b, i, j);
    }
  }

  lemma {:induction false} FirstWithin(ks: seq<seq<byte>>, k: seq<byte>, i: nat)
    requires FirstAt(ks, k, i) && k in ks[..|ks| - 1]
    ensures FirstAt(ks[..|ks| - 1], k, i)
  {
  }

  /** The positions recorded for the keys seen so far. */
  ghost predicate Positions(pos: map<seq<byte>, nat>, keys: seq<seq<byte>>) {
    && (forall k :: k in pos <==> k in keys)
    && forall k :: k in pos ==> pos[k] < |keys| && keys[pos[k]] == k
  }

  function Added(groups: seq<Group>, g: nat, row: Row): seq<Group>
    requires g < |groups|
  {
    groups[g := groups[g].(rows := groups[g].rows + [row])]
  }

  lemma {:induction false} GroupStep(groups: seq<Group>, rows: seq<Row>, ks: seq<seq<byte>>, n: nat, pos: map<seq<byte>, nat>)
    requires n < |rows| == |ks| && Partition(groups, rows[..n], ks[..n]) && Positions(pos, FirstKeys(ks[..n]))
    ensures ks[n] in pos ==> pos[ks[n]] < |groups|
    ensures ks[n] in pos ==> Partition(Added(groups, pos[ks[n]], rows[n]), rows[..n + 1], ks[..n + 1])
    ensures ks[n] in pos ==> FirstKeys(ks[..n + 1]) == FirstKeys(ks[..n])
    ensures ks[n] !in pos ==> Partition(groups + [Group(ks[n], [rows[n]])], rows[..n + 1], ks[..n + 1])
    ensures ks[n] !in pos ==> FirstKeys(ks[..n + 1]) == FirstKeys(ks[..n]) + [ks[n]]
  {
    TakeOne(rows, n);
    TakeOne(ks, n);
    FirstKeysExact(ks[..n]);
    if ks[n] !in pos {
      NoneWithKey(rows[..n], ks[..n], ks[n]);
    }
  }

  lemma {:induction false} NoneWithKey(rows: seq<Row>, ks: seq<seq<byte>>, k: seq<byte>)
    requires |ks| == |rows| && k !in ks
    ensures WithKey(rows, ks, k) == []
  {
    if rows != [] {
      NoneWithKey(rows[..|rows| - 1], ks[..|ks| - 1], k);
    }
  }

  lemma {:induction false} PositionsStep(pos: map<seq<byte>, nat>, keys: seq<seq<byte>>, k: seq<byte>)
    requires Positions(pos, keys) && k !in pos
    ensures Positions(pos[k := |keys|], keys + [k])
  {
  }

  /** One pass over the rows, remembering where each key's group is. */
  method GroupRows(rows: seq<Row>, idxs: seq<nat>) returns (groups: seq<Group>)
    requires Wide(rows, idxs)
    ensures Partition(groups, rows, KeysOf(rows, idxs))
  {
    hide GroupKey;
    groups := [];
    var pos: map<seq<byte>, nat> := map[];
    ghost var ks := KeysOf(rows, idxs);
    for n := 0 to |rows|
      invariant Partition(groups, rows[..n], ks[..n]) && Positions(pos, FirstKeys(ks[..n]))
    {
      var key := RowGroupKey(rows[n], idxs);
      GroupStep(groups, rows, ks, n, pos);
      hide Partition, Positions;
      if key in pos {
        var g := pos[key];
        groups := Added(groups, g, rows[n]);
      } else {
        PositionsStep(pos, FirstKeys(ks[..n]), key);
        LengthIs(groups, rows[..n], ks[..n]);
        pos := pos[key := |groups|];
        groups := groups + [Group(key, [rows[n]])];
      }
    }
    assert rows[..|rows|] == rows && ks[..|ks|] == ks;
  }

  lemma {:induction false} LengthIs(groups: seq<Group>, rows: seq<Row>, ks: seq<seq<byte>>)
    requires |ks| == |rows| && Partition(groups, rows, ks)
    ensures |groups| == |FirstKeys(ks)|
  {
  }

  lemma {:induction false} WithKeyMember(rows: seq<Row>, ks: seq<seq<byte>>, i: nat)
    requires |ks| == |rows| && i < |rows|
    ensures rows[i] in WithKey(rows, ks, ks[i])
  {
    if i < |rows| - 1 {
      WithKeyMember(rows[..|rows| - 1], ks[..|ks| - 1], i);
    }
  }

  /** Every row of a group has the group's key. */
  lemma {:induction false} WithKeyOnly(rows: seq<Row>, ks: seq<seq<byte>>, k: seq<byte>, row: Row)
    requires |ks| == |rows| && row in WithKey(rows, ks, k)
    ensures exists i :: 0 <= i < |rows| && rows[i] == row && ks[i] == k
  {
    var n := |rows| - 1;
    if row in WithKey(rows[..n], ks[..n], k) {
      WithKeyOnly(rows[..n], ks[..n], k, row);
      var i :| 0 <= i < n && rows[..n][i] == row && ks[..n][i] == k;
      assert rows[i] == row && ks[i] == k;
    } else {
      assert rows[n] == row && ks[n] == k;
    }
  }

  /** The keys of these rows tell their grouping columns apart: texts without zero bytes, or at most
      one grouping column that is TEXT. */
  ghost predicate ToldApart(rows: seq<Row>, types: seq<ColType>, idxs: seq<nat>)
    requires Wide(rows, idxs) && forall i :: 0 <= i < |idxs| ==> idxs[i] < |types|
  {
    || (forall r, c :: 0 <= r < |rows| && 0 <= c < |idxs| ==> NulFree(Vals(rows[r], idxs)[c]))
    || ((forall r :: 0 <= r < |rows| ==> HasTypes(rows[r], types)) && AtMostOneText(TypesAt(types, idxs)))
  }

  lemma {:induction false} SameKeyIff(rows: seq<Row>, types: seq<ColType>, idxs: seq<nat>, i: nat, j: nat)
    requires Wide(rows, idxs) && (forall c :: 0 <= c < |idxs| ==> idxs[c] < |types|) && ToldApart(rows, types, idxs)
    requires i < |rows| && j < |rows|
    ensures GroupKey(rows[i], idxs) == GroupKey(rows[j], idxs) <==> Agree(rows[i], rows[j], idxs)
  {
    hide KeyOf, NulFree;
    AgreeVals(rows[i], rows[j], idxs);
    var vs, ws := Vals(rows[i], idxs), Vals(rows[j], idxs);
    if forall r, c :: 0 <= r < |rows| && 0 <= c < |idxs| ==> NulFree(Vals(rows[r], idxs)[c]) {
      KeyInjective(vs, ws);
    } else if KeyOf(vs) == KeyOf(ws) {
      OneTextInjective(vs, ws, TypesAt(types, idxs));
    }
  }

  /** Two rows stand in one group exactly when they agree on every grouping column. */
  lemma {:induction false} SameGroupIff(groups: seq<Group>, rows: seq<Row>, types: seq<ColType>, idxs: seq<nat>, i: nat, j: nat)
    requires Wide(rows, idxs) && (forall c :: 0 <= c < |idxs| ==> idxs[c] < |types|) && ToldApart(rows, types, idxs)
    requires Partition(groups, rows, KeysOf(rows, idxs)) && i < |rows| && j < |rows|
    ensures (exists g :: 0 <= g < |groups| && rows[i] in groups[g].rows && rows[j] in groups[g].rows) <==> Agree(rows[i], rows[j], idxs)
  {
    hide GroupKey, Agree, WithKey, ToldApart;
    var ks := KeysOf(rows, idxs);
    SameKeyIff(rows, types, idxs, i, j);
    if g :| 0 <= g < |groups| && rows[i] in groups[g].rows && rows[j] in groups[g].rows {
      WithKeyOnly(rows, ks, groups[g].key, rows[i]);
      WithKeyOnly(rows, ks, groups[g].key, rows[j]);
    }
    if Agree(rows[i], rows[j], idxs) {
      FirstKeysExact(ks);
      assert ks[i] in ks;
      var g :| 0 <= g < |FirstKeys(ks)| && FirstKeys(ks)[g] == ks[i];
      WithKeyMember(rows, ks, i);
      WithKeyMember(rows, ks, j);
      assert rows[i] in groups[g].rows && rows[j] in groups[g].rows;
    }
  }

  // ---------------------------------------------------------------- totals

  function IntVal(v: Datum): Word {
    if v.Int? then v.n else 0
  }

  /** The true sum of a column. */
  function Total(rows: seq<Row>, c: nat): nat
    requires forall r :: 0 <= r < |rows| ==> c < |rows[r]|
  {
    if rows == [] then 0 else Total(rows[..|rows| - 1], c) + IntVal(rows[|rows| - 1][c])
  }

  function GroupsCount(groups: seq<Group>): nat {
    if groups == [] then 0 else GroupsCount(groups[..|groups| - 1]) + |groups[|groups| - 1].rows|
  }

  ghost predicate AllHave(groups: seq<Group>, c: nat) {
    forall g, r :: 0 <= g < |groups| && 0 <= r < |groups[g].rows| ==> c < |groups[g].rows[r]|
  }

  function GroupsTotal(groups: seq<Group>, c: nat): nat
    requires AllHave(groups, c)
  {
    if groups == [] then 0 else GroupsTotal(groups[..|groups| - 1], c) + Total(groups[|groups| - 1].rows, c)
  }

  lemma {:induction false} AddedHave(groups: seq<Group>, g: nat, row: Row, c: nat)
    requires g < |groups| && AllHave(groups, c) && c < |row|
    ensures AllHave(Added(groups, g, row), c)
  {
  }

  /** How the last group and the ones before it change. */
  lemma {:induction false} AddedParts(groups: seq<Group>, g: nat, row: Row)
    requires g < |groups|
    ensures var n := |groups| - 1; var more := Added(groups, g, row);
      && |more| == |groups|
      && (g < n ==> more[..n] == Added(groups[..n], g, row) && more[n] == groups[n])
      && (g == n ==> more[..n] == groups[..n] && more[n].rows == groups[n].rows + [row])
  {
  }

  lemma {:induction false} TotalSnoc(rows: seq<Row>, row: Row, c: nat)
    requires (forall r :: 0 <= r < |rows| ==> c < |rows[r]|) && c < |row|
    ensures (forall r :: 0 <= r < |rows + [row]| ==> c < |(rows + [row])[r]|)
    ensures Total(rows + [row], c) == Total(rows, c) + IntVal(row[c])
  {
    assert (rows + [row])[..|rows|] == rows;
  }

  lemma {:induction false} AddedTotals(groups: seq<Group>, g: nat, row: Row, c: nat)
    requires g < |groups| && AllHave(groups, c) && c < |row|
    ensures AllHave(Added(groups, g, row), c)
    ensures GroupsCount(Added(groups, g, row)) == GroupsCount(groups) + 1
    ensures GroupsTotal(Added(groups, g, row), c) == GroupsTotal(groups, c) + IntVal(row[c])
  {
    hide Added, Total;
    var n := |groups| - 1;
    AddedHave(groups, g, row, c);
    AddedParts(groups, g, row);
    if g < n {
      AddedTotals(groups[..n], g, row, c);
    } else {
      TotalSnoc(groups[n].rows, row, c);
    }
  }

  /** The groups the pass builds, as a function of the rows. */
  function Grouped(rows: seq<Row>, ks: seq<seq<byte>>): (groups: seq<Group>)
    requires |ks| == |rows|
    ensures |groups| == |FirstKeys(ks)|
  {
    var keys := FirstKeys(ks);
    seq(|keys|, g requires 0 <= g < |keys| => Group(keys[g], WithKey(rows, ks, keys[g])))
  }

  lemma {:induction false} PartitionIsGrouped(groups: seq<Group>, rows: seq<Row>, ks: seq<seq<byte>>)
    requires |ks| == |rows|
    ensures Partition(groups, rows, ks) <==> groups == Grouped(rows, ks)
  {
    if Partition(groups, rows, ks) {
      assert forall g :: 0 <= g < |groups| ==> groups[g] == Grouped(rows, ks)[g];
    }
  }

  lemma {:induction false} GroupedStep(rows: seq<Row>, ks: seq<seq<byte>>)
    requires |ks| == |rows| && rows != []
    ensures var n := |rows| - 1; var before, keys := Grouped(rows[..n], ks[..n]), FirstKeys(ks[..n]);
      if ks[n] in keys then exists g :: 0 <= g < |before| && Grouped(rows, ks) == Added(before, g, rows[n])
      else Grouped(rows, ks) == before + [Group(ks[n], [rows[n]])]
  {
    var n := |rows| - 1;
    var before, keys := Grouped(rows[..n], ks[..n]), FirstKeys(ks[..n]);
    PartitionIsGrouped(before, rows[..n], ks[..n]);
    FirstKeysExact(ks[..n]);
    var pos := map k | k in keys :: PositionOf(keys, k);
    GroupStep(before, rows, ks, n, pos);
    assert rows[..n + 1] == rows && ks[..n + 1] == ks;
    if ks[n] in keys {
      PartitionIsGrouped(Added(before, pos[ks[n]], rows[n]), rows, ks);
    } else {
      PartitionIsGrouped(before + [Group(ks[n], [rows[n]])], rows, ks);
    }
  }

  function PositionOf(keys: seq<seq<byte>>, k: seq<byte>): (i: nat)
    requires k in keys
    ensures i < |keys| && keys[i] == k
  {
    if keys[|keys| - 1] == k then |keys| - 1 else
    assert k in keys[..|keys| - 1];
    PositionOf(keys[..|keys| - 1], k)
  }

  lemma {:induction false} NewGroupTotals(groups: seq<Group>, key: seq<byte>, row: Row, c: nat)
    requires AllHave(groups, c) && c < |row|
    ensures AllHave(groups + [Group(key, [row])], c)
    ensures GroupsCount(groups + [Group(key, [row])]) == GroupsCount(groups) + 1
    ensures GroupsTotal(groups + [Group(key, [row])], c) == GroupsTotal(groups, c) + IntVal(row[c])
  {
    var more := groups + [Group(key, [row])];
    assert more[..|more| - 1] == groups && more[|more| - 1].rows == [row];
    assert [row][..0] == [];
    assert Total([row], c) == Total([row][..0], c) + IntVal(row[c]);
  }

  /** The groups' counts add up to the number of rows and their sums to the sum of all rows. */
  lemma {:induction false} TotalsAddUp(rows: seq<Row>, ks: seq<seq<byte>>, c: nat)
    requires |ks| == |rows| && forall r :: 0 <= r < |rows| ==> c < |rows[r]|
    ensures AllHave(Grouped(rows, ks), c)
    ensures GroupsCount(Grouped(rows, ks)) == |rows|
    ensures GroupsTotal(Grouped(rows, ks), c) == Total(rows, c)
  {
    hide Grouped, Added;
    if rows == [] {
      NothingGrouped(rows, ks);
    } else {
      var n := |rows| - 1;
      TotalsAddUp(rows[..n], ks[..n], c);
      GroupedStep(rows, ks);
      var before := Grouped(rows[..n], ks[..n]);
      if ks[n] in FirstKeys(ks[..n]) {
        var g :| 0 <= g < |before| && Grouped(rows, ks) == Added(before, g, rows[n]);
        AddedTotals(before, g, rows[n], c);
      } else {
        NewGroupTotals(before, ks[n], rows[n], c);
      }
    }
  }

  lemma {:induction false} NothingGrouped(rows: seq<Row>, ks: seq<seq<byte>>)
    requires |ks| == |rows| == 0
    ensures Grouped(rows, ks) == []
  {
  }

  // ---------------------------------------------------------------- aggregate functions

  const WORDS := 0x1_0000_0000_0000_0000

  datatype AggFunc = Count | Sum | Avg | Min | Max

  /** SUM wraps around at 64 bits. */
  function SumOf(rows: seq<Row>, c: nat): Word
    requires forall r :: 0 <= r < |rows| ==> c < |rows[r]|
  {
    Total(rows, c) % WORDS
  }

  method SumLoop(rows: seq<Row>, c: nat) returns (sum: Word)
    requires forall r :: 0 <= r < |rows| ==> c < |rows[r]|
    ensures sum == SumOf(rows, c)
  {
    sum := 0;
    for i := 0 to |rows|
      invariant sum == Total(rows[..i], c) % WORDS
    {
      TakeOne(rows, i);
      WrapStep(Total(rows[..i], c), IntVal(rows[i][c]));
      sum := (sum + IntVal(rows[i][c])) % WORDS;
    }
    assert rows[..|rows|] == rows;
  }

  lemma {:induction false} WrapStep(a: nat, b: nat)
    ensures (a % WORDS + b) % WORDS == (a + b) % WORDS
  {
  }

  /** The groups' wrapped sums, added with wrap-around. */
  function WrappedSums(groups: seq<Group>, c: nat): Word
    requires AllHave(groups, c)
  {
    if groups == [] then 0 else (WrappedSums(groups[..|groups| - 1], c) + SumOf(groups[|groups| - 1].rows, c)) % WORDS
  }

  lemma {:induction false} WrappedIsTotal(groups: seq<Group>, c: nat)
    requires AllHave(groups, c)
    ensures WrappedSums(groups, c) == GroupsTotal(groups, c) % WORDS
  {
    if groups != [] {
      var init, t := groups[..|groups| - 1], Total(groups[|groups| - 1].rows, c);
      WrappedIsTotal(init, c);
      WrapStep(GroupsTotal(init, c), t % WORDS);
      WrapStep(t, GroupsTotal(init, c));
    }
  }

  /** The groups' SUMs add up to the ungrouped SUM modulo 2^64. */
  lemma {:induction false} SumsAddUp(rows: seq<Row>, ks: seq<seq<byte>>, c: nat)
    requires |ks| == |rows| && forall r :: 0 <= r < |rows| ==> c < |rows[r]|
    ensures AllHave(Grouped(rows, ks), c) && WrappedSums(Grouped(rows, ks), c) == SumOf(rows, c)
  {
    TotalsAddUp(rows, ks, c);
    WrappedIsTotal(Grouped(rows, ks), c);
  }

  /** The least value of a column, 0 for no rows. */
  function MinOf(rows: seq<Row>, c: nat): (m: Word)
    requires forall r :: 0 <= r < |rows| ==> c < |rows[r]|
    ensures forall r :: 0 <= r < |rows| ==> m <= IntVal(rows[r][c])
    ensures if rows == [] then m == 0 else exists r :: 0 <= r < |rows| && m == IntVal(rows[r][c])
  {
    if rows == [] then 0 else
    var v := IntVal(rows[|rows| - 1][c]);
    if |rows| == 1 then v else
    var m := MinOf(rows[..|rows| - 1], c);
    if v < m then v else m
  }

  function MaxOf(rows: seq<Row>, c: nat): (m: Word)
    requires forall r :: 0 <= r < |rows| ==> c < |rows[r]|
    ensures forall r :: 0 <= r < |rows| ==> IntVal(rows[r][c]) <= m
    ensures if rows == [] then m == 0 else exists r :: 0 <= r < |rows| && m == IntVal(rows[r][c])
  {
    if rows == [] then 0 else
    var v, m := IntVal(rows[|rows| - 1][c]), MaxOf(rows[..|rows| - 1], c);
    if v > m then v else m
  }

  method MinLoop(rows: seq<Row>, c: nat) returns (m: Word)
    requires forall r :: 0 <= r < |rows| ==> c < |rows[r]|
    ensures m == MinOf(rows, c)
  {
    if rows == [] {
      return 0;
    }
    m := MAX_WORD;
    for i := 0 to |rows|
      invariant m == if i == 0 then MAX_WORD else MinOf(rows[..i], c)
    {
      TakeOne(rows, i);
      if IntVal(rows[i][c]) < m {
        m := IntVal(rows[i][c]);
      }
    }
    assert rows[..|rows|] == rows;
  }

  method MaxLoop(rows: seq<Row>, c: nat) returns (m: Word)
    requires forall r :: 0 <= r < |rows| ==> c < |rows[r]|
    ensures m == MaxOf(rows, c)
  {
    m := 0;
    for i := 0 to |rows|
      invariant m == MaxOf(rows[..i], c)
    {
      TakeOne(rows, i);
      if IntVal(rows[i][c]) > m {
        m := IntVal(rows[i][c]);
      }
    }
    assert rows[..|rows|] == rows;
  }

  // ---------------------------------------------------------------- aggregate queries

  /** One item of a select list: a column or an aggregate call, with its output names (the alias or
      derived name, and the unaliased name of the call). */
  datatype Expr = Col(name: string, out: string) | Agg(f: AggFunc, name: string, out: string, call: string)

  /** Column names to positions; a repeated name means its last column. */
  function RawIdx(cols: seq<Column>): (m: map<string, nat>)
    ensures forall k :: k in m ==> m[k] < |cols|
    ensures forall k :: k in m ==> Lower(cols[m[k]].name) == k
    ensures forall i :: 0 <= i < |cols| ==> Lower(cols[i].name) in m
  {
    if cols == [] then map[] else RawIdx(cols[..|cols| - 1])[Lower(cols[|cols| - 1].name) := |cols| - 1]
  }

  predicate SelectHasAgg(columns: seq<Expr>, groupBy: seq<string>) {
    groupBy != [] || exists i :: 0 <= i < |columns| && columns[i].Agg?
  }

  /** COUNT needs no column; everything else must name one. */
  predicate Known(e: Expr, rawIdx: map<string, nat>) {
    (e.Agg? && e.f == Count) || Lower(e.name) in rawIdx
  }

  function EvalExpr(e: Expr, rows: seq<Row>, rawIdx: map<string, nat>, w: nat): Datum
    requires Known(e, rawIdx) && (forall k :: k in rawIdx ==> rawIdx[k] < w) && forall r :: 0 <= r < |rows| ==> |rows[r]| == w
  {
    if e.Col? then (if rows == [] then Int(0) else rows[0][rawIdx[Lower(e.name)]])
    else if e.f == Count then Int(|rows| % WORDS) else
    var c := rawIdx[Lower(e.name)];
    match e.f
    case Sum => Int(SumOf(rows, c))
    case Avg => Int(if rows == [] then 0 else AvgOf(SumOf(rows, c), |rows|))
    case Min => Int(MinOf(rows, c))
    case Max => Int(MaxOf(rows, c))
  }

  lemma {:induction false} DivBounds(s: nat, n: nat)
    requires n > 0
    ensures 0 <= s / n <= s && s / n * n <= s < s / n * n + n
  {
    var q := s / n;
    assert s == q * n + s % n;
    assert q * n >= q by { MulGrows(q, n); }
  }

  lemma {:induction false} MulGrows(q: nat, n: nat)
    requires n > 0
    ensures q * n >= q
  {
    assert q * n == q * (n - 1) + q;
  }

  /** The wrapped sum divided by the count. */
  function AvgOf(sum: Word, n: nat): (a: Word)
    requires n > 0
    ensures a * n <= sum < a * n + n
  {
    DivBounds(sum, n);
    sum / n
  }

  function GroupRow(columns: seq<Expr>, rows: seq<Row>, rawIdx: map<string, nat>, w: nat): (r: Row)
    requires forall i :: 0 <= i < |columns| ==> Known(columns[i], rawIdx)
    requires (forall k :: k in rawIdx ==> rawIdx[k] < w) && forall r :: 0 <= r < |rows| ==> |rows[r]| == w
    ensures |r| == |columns|
  {
    seq(|columns|, i requires 0 <= i < |columns| => EvalExpr(columns[i], rows, rawIdx, w))
  }

  // ---------------------------------------------------------------- what aggregate calls answer

  /** The 64-bit result stands for the number up to wrap-around. */
  predicate Wraps(v: Word, n: nat) {
    (n - v) % WORDS == 0
  }

  /** The answer to an item of the select list over the rows of a group, whose column is c. */
  ghost predicate Answers(e: Expr, rows: seq<Row>, c: nat, v: Datum)
    requires forall r :: 0 <= r < |rows| ==> c < |rows[r]|
  {
    if rows == [] then v == Int(0)
    else if e.Col? then v == rows[0][c]
    else
      && v.Int?
      && match e.f
         case Count => Wraps(v.n, |rows|)
         case Sum => Wraps(v.n, Total(rows, c))
         case Avg => exists s: Word :: Wraps(s, Total(rows, c)) && v.n * |rows| <= s < v.n * |rows| + |rows|
         case Min => (forall r :: 0 <= r < |rows| ==> v.n <= IntVal(rows[r][c])) && exists r :: 0 <= r < |rows| && v.n == IntVal(rows[r][c])
         case Max => (forall r :: 0 <= r < |rows| ==> IntVal(rows[r][c]) <= v.n) && exists r :: 0 <= r < |rows| && v.n == IntVal(rows[r][c])
  }

  /** The output row of a group answers every item of the select list in its place, over the column the
      item names; COUNT looks at no column. */
  ghost predicate AnswersAll(cols: seq<Column>, columns: seq<Expr>, rows: seq<Row>, out: Row)
    requires forall r :: 0 <= r < |rows| ==> |rows[r]| == |cols|
  {
    |out| == |columns| && forall i, c :: 0 <= i < |columns| && 0 <= c < |cols| ==> AnswersItem(cols, columns[i], rows, c, out[i])
  }

  ghost predicate AnswersItem(cols: seq<Column>, e: Expr, rows: seq<Row>, c: nat, v: Datum)
    requires c < |cols| && forall r :: 0 <= r < |rows| ==> |rows[r]| == |cols|
  {
    SameName(cols[c].name, e.name) || CountsRows(e) ==> Answers(e, rows, c, v)
  }

  predicate CountsRows(e: Expr) {
    e.Agg? && e.f == Count
  }

  lemma {:induction false} WrapsMod(n: nat)
    ensures Wraps(n % WORDS, n)
  {
  }

  lemma {:induction false} EvalAnswers(e: Expr, rows: seq<Row>, rawIdx: map<string, nat>, w: nat, c: nat)
    requires Known(e, rawIdx) && (forall k :: k in rawIdx ==> rawIdx[k] < w) && forall r :: 0 <= r < |rows| ==> |rows[r]| == w
    requires c < w && (CountsRows(e) || rawIdx[Lower(e.name)] == c)
    ensures Answers(e, rows, c, EvalExpr(e, rows, rawIdx, w))
  {
    hide Wraps;
    if rows == [] {
      assert Total(rows, c) == 0;
    } else if e.Agg? && e.f == Avg {
      WrapsMod(Total(rows, c));
      var v, s := EvalExpr(e, rows, rawIdx, w), SumOf(rows, c);
      assert v.n * |rows| <= s < v.n * |rows| + |rows|;
    } else if e.Agg? {
      WrapsMod(|rows|);
      WrapsMod(Total(rows, c));
    }
  }

  /** For tables with distinct column names. */
  lemma {:induction false} GroupRowAnswers(cols: seq<Column>, columns: seq<Expr>, rows: seq<Row>)
    requires forall i, j :: 0 <= i < j < |cols| ==> !SameName(cols[i].name, cols[j].name)
    requires (forall i :: 0 <= i < |columns| ==> Known(columns[i], RawIdx(cols))) && forall r :: 0 <= r < |rows| ==> |rows[r]| == |cols|
    ensures AnswersAll(cols, columns, rows, GroupRow(columns, rows, RawIdx(cols), |cols|))
  {
    hide Answers, EvalExpr, RawIdx, Known;
    var out := GroupRow(columns, rows, RawIdx(cols), |cols|);
    forall i, c | 0 <= i < |columns| && 0 <= c < |cols| ensures AnswersItem(cols, columns[i], rows, c, out[i]) {
      if SameName(cols[c].name, columns[i].name) || CountsRows(columns[i]) {
        NamedColumn(cols, columns[i], c);
        EvalAnswers(columns[i], rows, RawIdx(cols), |cols|, c);
        assert out[i] == EvalExpr(columns[i], rows, RawIdx(cols), |cols|);
      }
    }
  }

  /** With distinct column names a name means one column. */
  lemma {:induction false} NamedColumn(cols: seq<Column>, e: Expr, c: nat)
    requires forall i, j :: 0 <= i < j < |cols| ==> !SameName(cols[i].name, cols[j].name)
    requires Known(e, RawIdx(cols)) && c < |cols| && (SameName(cols[c].name, e.name) || CountsRows(e))
    ensures CountsRows(e) || (Lower(e.name) in RawIdx(cols) && RawIdx(cols)[Lower(e.name)] == c)
  {
    if !CountsRows(e) {
      var d := RawIdx(cols)[Lower(e.name)];
      assert SameName(cols[d].name, cols[c].name);
    }
  }
}
