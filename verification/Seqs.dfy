/** Facts about sequences that several modules need. */
module Seqs {

  lemma {:induction false} Regroup<T>(a: seq<T>, b1: seq<T>, mid: seq<T>, b2: seq<T>, c: seq<T>)
    ensures a + (b1 + mid + b2) + c == (a + b1) + mid + (b2 + c)
    ensures a + (b1 + b2) + c == (a + b1) + (b2 + c)
  {
  }

  lemma {:induction false} TakeInto<T>(a: seq<T>, b: seq<T>, c: seq<T>, n: nat)
    requires n <= |b|
    ensures (a + b + c)[..|a| + n] == a + b[..n]
    ensures (a + b + c)[|a| + n..] == b[n..] + c
    ensures n < |b| ==> (a + b + c)[|a| + n] == b[n]
  {
  }

  lemma {:induction false} Around<T>(s: seq<T>, i: nat)
    requires i < |s|
    ensures s == s[..i] + [s[i]] + s[i + 1..]
  {
  }

  lemma {:induction false} TakeOne<T>(s: seq<T>, i: nat)
    requires i < |s|
    ensures s[..i + 1][..i] == s[..i] && s[..i + 1][i] == s[i]
    ensures s[..i + 1] == s[..i] + [s[i]]
  {
  }

  lemma {:induction false} CutAt<T>(s: seq<T>, i: nat)
    requires i <= |s|
    ensures s == s[..i] + s[i..]
    ensures forall j :: 0 <= j < |s[i..]| ==> s[i..][j] == s[i + j]
  {
  }

  lemma {:induction false} Assoc<T>(a: seq<T>, b: seq<T>, c: seq<T>)
    ensures (a + b) + c == a + (b + c)
  {
  }

  /** The last element of a concatenation. */
  lemma {:induction false} ConcatInit<T>(a: seq<T>, b: seq<T>)
    requires b != []
    ensures (a + b)[..|a + b| - 1] == a + b[..|b| - 1] && (a + b)[|a + b| - 1] == b[|b| - 1]
  {
  }
}
