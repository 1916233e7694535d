/** Little-endian digit strings: the number a sequence of base-2^w digits stands for,
    least significant digit first. The engine reads its word slice with w = 64 and its
    byte strings with w = 8. */
module Digits {
  import opened Naturals

  /** The number whose base-2^w digits, least significant first, are ds. */
  function Value(ds: seq<nat>, w: nat): nat
  {
    if ds == [] then 0 else ds[0] + Pow2(w) * Value(ds[1..], w)
  }

  /** The first digit and the rest placed above it. */
  lemma ValueCons(ds: seq<nat>, w: nat)
    requires ds != []
    ensures Value(ds, w) == Place(ds[0], Value(ds[1..], w), w)
  {
  }

  /** Every digit fits in w bits. */
  predicate DigitsBelow(ds: seq<nat>, w: nat)
  {
    forall i :: 0 <= i < |ds| ==> ds[i] < Pow2(w)
  }

  /** No zero digit at the most significant end (the empty string is trimmed). */
  predicate Trimmed(ds: seq<nat>)
  {
    ds == [] || ds[|ds| - 1] != 0
  }

  /** The shortest non-empty spelling of a number: one digit, or a non-zero top digit.
      This is the form byte strings take after high zero bytes are removed. */
  predicate Canonical(ds: seq<nat>)
  {
    |ds| > 0 && (|ds| == 1 || ds[|ds| - 1] != 0)
  }

  /** A single digit stands for itself. */
  lemma ValueSingle(d: nat, w: nat)
    ensures Value([d], w) == d
  {
    assert [d][1..] == [];
  }

  /** The number of bits in n digits of w bits each. */
  function Width(w: nat, n: nat): nat
  {
    w * n
  }

  lemma Distribute(p: nat, v: nat, q: nat, b: nat)
    ensures p * (v + q * b) == p * v + (p * q) * b
  {
  }

  /** Appending digits above a string places their value above bit w * |a|. */
  lemma {:induction false} ValueAppend(a: seq<nat>, b: seq<nat>, w: nat)
    ensures Value(a + b, w) == Place(Value(a, w), Value(b, w), Width(w, |a|))
  {
    if a == [] {
      assert a + b == b;
    } else {
      assert (a + b)[1..] == a[1..] + b;
      ValueAppend(a[1..], b, w);
      assert Width(w, |a|) == w + Width(w, |a| - 1);
      Pow2Add(w, Width(w, |a| - 1));
      Distribute(Pow2(w), Value(a[1..], w), Pow2(Width(w, |a| - 1)), Value(b, w));
    }
  }

  /** 2^(w * (n + 1)) is 2^w times 2^(w * n). */
  lemma Pow2Digits(w: nat, n: nat)
    ensures Pow2(Width(w, n + 1)) == Pow2(w) * Pow2(Width(w, n))
  {
    assert Width(w, n + 1) == w + Width(w, n);
    Pow2Add(w, Width(w, n));
  }

  lemma DigitStep(d: nat, v: nat, P: nat, Q: nat)
    requires d < P && v < Q
    ensures d + P * v < P * Q
  {
    MulLe(P, v, Q - 1);
    assert P * (Q - 1) == P * Q - P;
  }

  /** A string of n digits below 2^w stands for a number below 2^(w * n). */
  lemma {:induction false} ValueBound(ds: seq<nat>, w: nat)
    requires DigitsBelow(ds, w)
    ensures Value(ds, w) < Pow2(Width(w, |ds|))
  {
    if ds != [] {
      var rest := ds[1..];
      assert DigitsBelow(rest, w);
      ValueBound(rest, w);
      Pow2Digits(w, |rest|);
      DigitStep(ds[0], Value(rest, w), Pow2(w), Pow2(Width(w, |rest|)));
    }
  }

  /** The value is zero exactly when every digit is. */
  lemma {:induction false} ValueZero(ds: seq<nat>, w: nat)
    ensures Value(ds, w) == 0 <==> forall i :: 0 <= i < |ds| ==> ds[i] == 0
  {
    if ds != [] {
      var rest := ds[1..];
      ValueZero(rest, w);
      MulMono(Pow2(w), 0, Value(rest, w));
      assert forall i :: 0 < i < |ds| ==> ds[i] == rest[i - 1];
    }
  }

  /** The low k digits hold the value modulo 2^(w * k), the rest hold the quotient. */
  lemma ValueSplit(ds: seq<nat>, w: nat, k: nat)
    requires DigitsBelow(ds, w) && k <= |ds|
    ensures Value(ds[..k], w) == Value(ds, w) % Pow2(Width(w, k))
    ensures Value(ds[k..], w) == Value(ds, w) / Pow2(Width(w, k))
  {
    var lo, hi := ds[..k], ds[k..];
    assert ds == lo + hi;
    assert DigitsBelow(lo, w);
    ValueAppend(lo, hi, w);
    ValueBound(lo, w);
    PlaceDivMod(Value(lo, w), Value(hi, w), Width(w, k));
  }

  /** Digits at or above position k are all zero exactly when the value is below 2^(w * k). */
  lemma HighDigitsZero(ds: seq<nat>, w: nat, k: nat)
    requires DigitsBelow(ds, w) && k <= |ds|
    ensures Value(ds, w) < Pow2(Width(w, k)) <==> forall i :: k <= i < |ds| ==> ds[i] == 0
  {
    ValueSplit(ds, w, k);
    ValueZero(ds[k..], w);
    DivZero(Value(ds, w), Pow2(Width(w, k)));
    assert forall i :: k <= i < |ds| ==> ds[i] == ds[k..][i - k];
  }

  /** Zero digits on top do not change the value. */
  lemma ZerosOnTop(ds: seq<nat>, z: seq<nat>, w: nat)
    requires forall i :: 0 <= i < |z| ==> z[i] == 0
    ensures Value(ds + z, w) == Value(ds, w)
  {
    ValueAppend(ds, z, w);
    ValueZero(z, w);
  }

  /** With a non-zero top digit d, the value has w * (n - 1) + BitLen(d) binary digits. */
  lemma TopDigit(ds: seq<nat>, w: nat)
    requires DigitsBelow(ds, w) && |ds| > 0 && ds[|ds| - 1] != 0
    ensures BitLen(Value(ds, w)) == Width(w, |ds| - 1) + BitLen(ds[|ds| - 1])
    ensures Pow2(Width(w, |ds| - 1)) <= Value(ds, w)
  {
    var n := |ds|;
    var lo := ds[..n - 1];
    assert ds == lo + [ds[n - 1]];
    ValueAppend(lo, [ds[n - 1]], w);
    ValueSingle(ds[n - 1], w);
    assert DigitsBelow(lo, w);
    ValueBound(lo, w);
    BitLenSplit(Value(lo, w), ds[n - 1], Width(w, n - 1));
    assert Place(Value(lo, w), ds[n - 1], Width(w, n - 1)) == Value(ds, w);
  }

  /** A value of at least 2^(w * (n - 1)) needs its top digit. */
  lemma TopDigitNonZero(ds: seq<nat>, w: nat)
    requires DigitsBelow(ds, w) && |ds| > 0 && Pow2(Width(w, |ds| - 1)) <= Value(ds, w)
    ensures ds[|ds| - 1] != 0
  {
    HighDigitsZero(ds, w, |ds| - 1);
  }

  /** Two trimmed digit strings with the same value are the same string. */
  lemma {:induction false} TrimmedUnique(a: seq<nat>, b: seq<nat>, w: nat)
    requires DigitsBelow(a, w) && DigitsBelow(b, w)
    requires Trimmed(a) && Trimmed(b) && Value(a, w) == Value(b, w)
    ensures a == b
  {
    ValueZero(a, w);
    ValueZero(b, w);
    if a != [] && b != [] {
      var P := Pow2(w);
      DivModUnique(Value(a, w), P, Value(a[1..], w), a[0]);
      DivModUnique(Value(b, w), P, Value(b[1..], w), b[0]);
      assert DigitsBelow(a[1..], w) && DigitsBelow(b[1..], w);
      TrimmedUnique(a[1..], b[1..], w);
      assert a == [a[0]] + a[1..] && b == [b[0]] + b[1..];
    }
  }

  /** Two canonical digit strings with the same value are the same string. */
  lemma CanonicalUnique(a: seq<nat>, b: seq<nat>, w: nat)
    requires DigitsBelow(a, w) && DigitsBelow(b, w)
    requires Canonical(a) && Canonical(b) && Value(a, w) == Value(b, w)
    ensures a == b
  {
    ValueZero(a, w);
    ValueZero(b, w);
    if Value(a, w) == 0 {
      assert a == [0] && b == [0];
    } else {
      TrimmedUnique(a, b, w);
    }
  }
}
