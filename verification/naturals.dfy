/** Facts about natural numbers that the word engine's proofs rest on: powers of two,
    Euclidean division by them, the bit length of a number (math/bits.Len64 on one word)
    and the bitwise AND and OR of two naturals of any size (the meaning of Go's `&` and
    `|` on uint64, and of math/big's And and Or on whole numbers). */
module Naturals {

  function Pow2(n: nat): (r: nat)
    ensures r >= 1
  {
    if n == 0 then 1 else 2 * Pow2(n - 1)
  }

  lemma {:induction false} Pow2Add(a: nat, b: nat)
    ensures Pow2(a + b) == Pow2(a) * Pow2(b)
  {
    if b > 0 {
      Pow2Add(a, b - 1);
      calc {
        Pow2(a + b);
        2 * Pow2(a + b - 1);
        2 * (Pow2(a) * Pow2(b - 1));
        Pow2(a) * (2 * Pow2(b - 1));
      }
    }
  }

  /** Pow2Add with the sum named, so that callers can match it to the power they need. */
  lemma Pow2Sum(a: nat, b: nat, c: nat)
    requires c == a + b
    ensures Pow2(c) == Pow2(a) * Pow2(b)
  {
    Pow2Add(a, b);
  }

  lemma Pow2Le(a: nat, b: nat)
    ensures a <= b ==> Pow2(a) <= Pow2(b)
    ensures a < b ==> 2 * Pow2(a) <= Pow2(b)
  {
    if a < b {
      Pow2Add(a, b - a);
      assert Pow2(b - a) == 2 * Pow2(b - a - 1);
      MulLe(Pow2(a), 2, Pow2(b - a));
    }
  }

  lemma MulLe(x: nat, a: nat, b: nat)
    requires a <= b
    ensures x * a <= x * b
  {
  }

  /** Multiplication by a positive number preserves and reflects the order. */
  lemma MulMono(d: nat, a: nat, b: nat)
    requires d > 0
    ensures a <= b <==> d * a <= d * b
    ensures a < b <==> d * a < d * b
  {
    if a <= b {
      MulLe(d, a, b);
    }
    if b <= a {
      MulLe(d, b, a);
    }
    if a < b {
      MulLe(d, a + 1, b);
    }
    if b < a {
      MulLe(d, b + 1, a);
    }
  }

  /** The quotient and remainder of Euclidean division are the only pair that fits. */
  lemma DivModUnique(n: int, d: int, q: int, r: int)
    requires d > 0 && 0 <= r < d && n == d * q + r
    ensures n / d == q && n % d == r
  {
    var q0, r0 := n / d, n % d;
    assert n == d * q0 + r0;
    assert d * (q - q0) == r0 - r;
    if q > q0 {
      MulLe(d, 1, q - q0);
    } else if q < q0 {
      MulLe(d, 1, q0 - q);
    }
  }

  /** v = lo + M*hi with lo below M: lo and hi are the remainder and quotient of v by M. */
  lemma SplitAt(v: nat, M: nat, hi: nat, lo: nat)
    requires 0 <= lo < M && v == lo + M * hi
    ensures v % M == lo && v / M == hi
  {
    DivModUnique(v, M, hi, lo);
  }

  lemma DivAdd(x: nat, d: nat, y: nat)
    requires d > 0
    ensures (x + d * y) / d == x / d + y
    ensures (x + d * y) % d == x % d
  {
    DivModUnique(x + d * y, d, x / d + y, x % d);
  }

  lemma DivLe(x: nat, d: nat)
    requires d > 0
    ensures 0 <= x / d <= x
  {
    assert x == d * (x / d) + x % d;
    MulLe(x / d, 1, d);
  }

  lemma DivBelow(x: nat, d: nat, k: nat)
    requires d > 0 && x < d * k
    ensures x / d < k
  {
    assert x == d * (x / d) + x % d;
    MulMono(d, x / d, k);
  }

  lemma DivLowerBound(x: nat, d: nat)
    requires 0 < d <= x
    ensures x / d >= 1
  {
    assert x == d * (x / d) + x % d;
  }

  lemma DivBounds(x: nat, d: nat, lo: nat, hi: nat)
    requires d > 0 && d * lo <= x < d * hi
    ensures lo <= x / d < hi
  {
    DivBelow(x, d, hi);
    assert x == d * (x / d) + x % d;
    MulMono(d, lo, x / d + 1);
  }

  lemma DivZero(x: nat, d: nat)
    requires d > 0
    ensures x / d == 0 <==> x < d
  {
    if x < d {
      DivModUnique(x, d, 0, x);
    } else {
      DivLowerBound(x, d);
    }
  }

  /** Quotient and remainder of naturals, typed as naturals. */
  function Div(x: nat, d: nat): nat
    requires d > 0
  {
    DivLe(x, d);
    x / d
  }

  function Mod(x: nat, d: nat): nat
    requires d > 0
  {
    x % d
  }

  lemma DivModParts(x: nat, d: nat)
    requires d > 0
    ensures x == d * Div(x, d) + Mod(x, d) && Mod(x, d) < d
  {
  }

  /** A number below 2^W divided by 2^s (s <= W) is below 2^(W - s). */
  lemma DivPow2Below(x: nat, s: nat, W: nat)
    requires x < Pow2(W) && s <= W
    ensures Div(x, Pow2(s)) < Pow2(W - s)
  {
    Pow2Sum(s, W - s, W);
    DivBelow(x, Pow2(s), Pow2(W - s));
  }

  /** The remainder arithmetic behind dividing twice: v = P*q1 + r1 and q1 = Q*q2 + r2
      give v = (P*Q)*q2 + (P*r2 + r1) with the second part below P*Q. */
  lemma NestedDivision(v: int, P: nat, Q: nat, q1: int, r1: int, q2: int, r2: int)
    requires P > 0 && Q > 0
    requires v == P * q1 + r1 && 0 <= r1 < P
    requires q1 == Q * q2 + r2 && 0 <= r2 < Q
    ensures v == (P * Q) * q2 + (P * r2 + r1)
    ensures 0 <= P * r2 + r1 < P * Q
  {
    MulLe(P, r2, Q - 1);
    assert P * (Q - 1) == P * Q - P;
  }

  /** Dividing by P and then by Q is dividing by P*Q. */
  lemma DivDivAny(v: nat, P: nat, Q: nat)
    requires P > 0 && Q > 0
    ensures v / P / Q == v / (P * Q)
  {
    var q1, r1 := v / P, v % P;
    var q2, r2 := q1 / Q, q1 % Q;
    NestedDivision(v, P, Q, q1, r1, q2, r2);
    DivModUnique(v, P * Q, q2, P * r2 + r1);
  }

  /** The remainder by P*Q: the remainder by P, with the quotient's remainder by Q above. */
  lemma ModOfProduct(v: nat, P: nat, Q: nat)
    requires P > 0 && Q > 0
    ensures v % (P * Q) == v % P + P * ((v / P) % Q)
  {
    var q1, r1 := v / P, v % P;
    var q2, r2 := q1 / Q, q1 % Q;
    NestedDivision(v, P, Q, q1, r1, q2, r2);
    DivModUnique(v, P * Q, q2, P * r2 + r1);
  }

  /** Dividing by 2^a and then by 2^b is dividing by 2^(a+b). */
  lemma DivDiv(v: nat, a: nat, b: nat)
    ensures v / Pow2(a) / Pow2(b) == v / Pow2(a + b)
  {
    Pow2Add(a, b);
    DivDivAny(v, Pow2(a), Pow2(b));
  }

  /** x*P = (P*Q)*(x/Q) + P*(x%Q), the second part below P*Q. */
  lemma ScaledDivision(x: nat, P: nat, Q: nat)
    requires P > 0 && Q > 0
    ensures x * P == (P * Q) * (x / Q) + P * (x % Q)
    ensures 0 <= P * (x % Q) < P * Q
  {
    var q, r := x / Q, x % Q;
    assert x == Q * q + r;
    assert x * P == (P * Q) * q + P * r;
    MulMono(P, r, Q);
  }

  /** Multiplying by P and then dividing by P*Q keeps x modulo Q, scaled by P, as the
      remainder, and x divided by Q as the quotient. */
  lemma MulDivModAny(x: nat, P: nat, Q: nat)
    requires P > 0 && Q > 0
    ensures (x * P) / (P * Q) == x / Q && (x * P) % (P * Q) == P * (x % Q)
  {
    ScaledDivision(x, P, Q);
    DivModUnique(x * P, P * Q, x / Q, P * (x % Q));
  }

  /** Multiplying by 2^s and then dividing by 2^k (s <= k) keeps the low k-s bits of x,
      moved up by s, as the remainder, and the rest of x as the quotient. */
  lemma MulPow2DivMod(x: nat, s: nat, k: nat)
    requires s <= k
    ensures (x * Pow2(s)) / Pow2(k) == x / Pow2(k - s)
    ensures (x * Pow2(s)) % Pow2(k) == Pow2(s) * (x % Pow2(k - s))
  {
    Pow2Add(s, k - s);
    MulDivModAny(x, Pow2(s), Pow2(k - s));
  }

  /** The number with low part lo (below 2^k when used as a split) and high part hi
      above bit k. */
  function Place(lo: nat, hi: nat, k: nat): nat
  {
    lo + Pow2(k) * hi
  }

  /** The low part and the high part of a split number are its remainder and quotient. */
  lemma PlaceDivMod(lo: nat, hi: nat, k: nat)
    requires lo < Pow2(k)
    ensures Place(lo, hi, k) % Pow2(k) == lo && Place(lo, hi, k) / Pow2(k) == hi
  {
    DivModUnique(Place(lo, hi, k), Pow2(k), hi, lo);
  }

  // ---------------------------------------------------------------------------
  // Bit length (math/bits.Len64 restricted to one word; here on any natural)

  /** The number of binary digits of v; 0 for v == 0. */
  function BitLen(v: nat): nat
  {
    if v == 0 then 0 else 1 + BitLen(v / 2)
  }

  lemma {:induction false} BitLenBounds(v: nat)
    ensures v < Pow2(BitLen(v))
    ensures v > 0 ==> Pow2(BitLen(v) - 1) <= v
  {
    if v > 0 {
      var h := v / 2;
      var L := BitLen(h);
      BitLenBounds(h);
      assert BitLen(v) == L + 1;
      assert Pow2(L + 1) == 2 * Pow2(L);
      assert v == 2 * h + v % 2;
      if h > 0 {
        assert Pow2(L) == 2 * Pow2(L - 1);
      }
    }
  }

  /** A number between 2^(L-1) and 2^L has exactly L binary digits. */
  lemma {:induction false} BitLenUnique(v: nat, L: nat)
    requires L >= 1 && Pow2(L - 1) <= v < Pow2(L)
    ensures BitLen(v) == L
  {
    if L > 1 {
      assert Pow2(L - 1) == 2 * Pow2(L - 2);
      assert Pow2(L) == 2 * Pow2(L - 1);
      BitLenUnique(v / 2, L - 1);
    } else {
      assert v == 1;
      assert BitLen(0) == 0;
    }
  }

  lemma BitLenAtMost(v: nat, L: nat)
    requires v < Pow2(L)
    ensures BitLen(v) <= L
  {
    BitLenBounds(v);
    if BitLen(v) > 0 {
      Pow2Le(L, BitLen(v) - 1);
    }
  }

  /** A number made of a low part below 2^m and a non-zero high part t has m + BitLen(t)
      binary digits. */
  lemma BitLenSplit(lo: nat, t: nat, m: nat)
    requires lo < Pow2(m) && t > 0
    ensures BitLen(Place(lo, t, m)) == m + BitLen(t)
    ensures Pow2(m) <= Place(lo, t, m)
  {
    var L, P, x := BitLen(t), Pow2(m), Place(lo, t, m);
    BitLenBounds(t);
    Pow2Add(m, L - 1);
    Pow2Add(m, L);
    MulLe(P, 1, t);
    MulLe(P, Pow2(L - 1), t);
    MulLe(P, t + 1, Pow2(L));
    assert P * (t + 1) == P * t + P;
    BitLenUnique(x, m + L);
  }

  /** Shifting right by s removes s binary digits (all of them when s exceeds the length). */
  lemma BitLenDiv(v: nat, s: nat)
    ensures BitLen(Div(v, Pow2(s))) == if s <= BitLen(v) then BitLen(v) - s else 0
  {
    var L, P := BitLen(v), Pow2(s);
    BitLenBounds(v);
    if s < L {
      Pow2Sum(s, L - s - 1, L - 1);
      Pow2Sum(s, L - s, L);
      DivBounds(v, P, Pow2(L - s - 1), Pow2(L - s));
      BitLenUnique(Div(v, P), L - s);
    } else {
      Pow2Le(L, s);
      DivZero(v, P);
    }
  }

  /** Scaling a number between lo and hi by P puts it between lo * P and hi * P. */
  lemma BitLenScaled(v: nat, P: nat, lo: nat, hi: nat, M: nat)
    requires P > 0 && M >= 1 && lo <= v < hi
    requires Pow2(M - 1) == lo * P && Pow2(M) == hi * P
    ensures BitLen(v * P) == M
  {
    MulMono(P, lo, v);
    MulMono(P, v, hi);
    BitLenUnique(v * P, M);
  }

  /** Shifting a non-zero number left by s adds s binary digits. */
  lemma BitLenMul(v: nat, s: nat)
    requires v > 0
    ensures BitLen(v * Pow2(s)) == BitLen(v) + s
  {
    var L := BitLen(v);
    BitLenBounds(v);
    Pow2Sum(L - 1, s, L + s - 1);
    Pow2Sum(L, s, L + s);
    BitLenScaled(v, Pow2(s), Pow2(L - 1), Pow2(L), L + s);
  }

  // ---------------------------------------------------------------------------
  // Bitwise AND and OR on naturals, one binary digit at a time

  function BitAnd(x: nat, y: nat): nat
    decreases x + y
  {
    if x == 0 && y == 0 then 0
    else 2 * BitAnd(x / 2, y / 2) + (if x % 2 == 1 && y % 2 == 1 then 1 else 0)
  }

  function BitOr(x: nat, y: nat): nat
    decreases x + y
  {
    if x == 0 && y == 0 then 0
    else 2 * BitOr(x / 2, y / 2) + (if x % 2 == 1 || y % 2 == 1 then 1 else 0)
  }

  /** AND never sets a bit that x does not have, so it never exceeds x. */
  lemma {:induction false} BitAndAtMost(x: nat, y: nat)
    ensures BitAnd(x, y) <= x && BitAnd(x, y) <= y
    decreases x + y
  {
    if x != 0 || y != 0 {
      BitAndAtMost(x / 2, y / 2);
    }
  }

  /** OR of two numbers below 2^k stays below 2^k. */
  lemma {:induction false} BitOrBelow(x: nat, y: nat, k: nat)
    requires x < Pow2(k) && y < Pow2(k)
    ensures BitOr(x, y) < Pow2(k)
  {
    if k == 0 {
      assert x == 0 && y == 0;
    } else if x != 0 || y != 0 {
      assert Pow2(k) == 2 * Pow2(k - 1);
      BitOrBelow(x / 2, y / 2, k - 1);
    }
  }

  lemma {:induction false} BitAndZero(x: nat)
    ensures BitAnd(x, 0) == 0 && BitAnd(0, x) == 0
    decreases x
  {
    if x != 0 {
      BitAndZero(x / 2);
    }
  }

  lemma {:induction false} BitOrZero(x: nat)
    ensures BitOr(x, 0) == x && BitOr(0, x) == x
    decreases x
  {
    if x != 0 {
      BitOrZero(x / 2);
    }
  }

  lemma {:induction false} BitAndComm(x: nat, y: nat)
    ensures BitAnd(x, y) == BitAnd(y, x)
    decreases x + y
  {
    if x != 0 || y != 0 {
      BitAndComm(x / 2, y / 2);
    }
  }

  /** OR never clears a bit of either operand, so it is at least each of them. */
  lemma {:induction false} BitOrAtLeast(x: nat, y: nat)
    ensures x <= BitOr(x, y) && y <= BitOr(x, y)
    decreases x + y
  {
    if x != 0 || y != 0 {
      BitOrAtLeast(x / 2, y / 2);
    }
  }

  lemma {:induction false} BitOrComm(x: nat, y: nat)
    ensures BitOr(x, y) == BitOr(y, x)
    decreases x + y
  {
    if x != 0 || y != 0 {
      BitOrComm(x / 2, y / 2);
    }
  }

  lemma BitAndUnfold(x: nat, y: nat)
    ensures BitAnd(x, y) == 2 * BitAnd(x / 2, y / 2) + (if x % 2 == 1 && y % 2 == 1 then 1 else 0)
  {
    if x == 0 && y == 0 {
      assert BitAnd(0, 0) == 0;
    }
  }

  lemma BitOrUnfold(x: nat, y: nat)
    ensures BitOr(x, y) == 2 * BitOr(x / 2, y / 2) + (if x % 2 == 1 || y % 2 == 1 then 1 else 0)
  {
    if x == 0 && y == 0 {
      assert BitOr(0, 0) == 0;
    }
  }

  /** Halving a number split at 2^k (k >= 1) halves its low part and keeps its lowest bit. */
  lemma HalvePlace(x: nat, hx: nat, k: nat)
    requires k >= 1
    ensures Place(x, hx, k) / 2 == Place(x / 2, hx, k - 1)
    ensures Place(x, hx, k) % 2 == x % 2
  {
    var h := Pow2(k - 1);
    assert Pow2(k) * hx == 2 * (h * hx);
    DivAdd(x, 2, h * hx);
  }

  /** Doubling a split number and adding a bit doubles its low part. */
  lemma DoublePlace(a: nat, m: nat, k: nat, b: nat)
    requires k >= 1
    ensures 2 * Place(a, m, k - 1) + b == Place(2 * a + b, m, k)
  {
    var h := Pow2(k - 1);
    assert Pow2(k) * m == 2 * (h * m);
  }

  /** Bits below position k and bits from position k up are combined independently:
      the AND of two numbers split at 2^k is the AND of the low parts placed below the
      AND of the high parts. */
  lemma {:induction false} BitAndSplit(x: nat, y: nat, hx: nat, hy: nat, k: nat)
    requires x < Pow2(k) && y < Pow2(k)
    ensures BitAnd(Place(x, hx, k), Place(y, hy, k)) == Place(BitAnd(x, y), BitAnd(hx, hy), k)
  {
    if k == 0 {
      assert x == 0 && y == 0;
      assert BitAnd(0, 0) == 0;
    } else {
      HalvePlace(x, hx, k);
      HalvePlace(y, hy, k);
      BitAndSplit(x / 2, y / 2, hx, hy, k - 1);
      BitAndUnfold(Place(x, hx, k), Place(y, hy, k));
      BitAndUnfold(x, y);
      DoublePlace(BitAnd(x / 2, y / 2), BitAnd(hx, hy), k,
                  if x % 2 == 1 && y % 2 == 1 then 1 else 0);
    }
  }

  /** The OR counterpart of BitAndSplit. */
  lemma {:induction false} BitOrSplit(x: nat, y: nat, hx: nat, hy: nat, k: nat)
    requires x < Pow2(k) && y < Pow2(k)
    ensures BitOr(Place(x, hx, k), Place(y, hy, k)) == Place(BitOr(x, y), BitOr(hx, hy), k)
  {
    if k == 0 {
      assert x == 0 && y == 0;
      assert BitOr(0, 0) == 0;
    } else {
      HalvePlace(x, hx, k);
      HalvePlace(y, hy, k);
      BitOrSplit(x / 2, y / 2, hx, hy, k - 1);
      BitOrUnfold(Place(x, hx, k), Place(y, hy, k));
      BitOrUnfold(x, y);
      DoublePlace(BitOr(x / 2, y / 2), BitOr(hx, hy), k,
                  if x % 2 == 1 || y % 2 == 1 then 1 else 0);
    }
  }

  /** OR of a number below 2^k with a multiple of 2^k is their sum: no bit is shared. */
  lemma BitOrDisjoint(lo: nat, hi: nat, k: nat)
    requires lo < Pow2(k)
    ensures BitOr(lo, Place(0, hi, k)) == Place(lo, hi, k)
  {
    BitOrSplit(lo, 0, 0, hi, k);
    BitOrZero(lo);
    BitOrZero(hi);
  }

  /** A number below 2^k ANDed with a longer one sees only the other's low k bits. */
  lemma BitAndLow(x: nat, y: nat, hy: nat, k: nat)
    requires x < Pow2(k) && y < Pow2(k)
    ensures BitAnd(x, Place(y, hy, k)) == BitAnd(x, y)
  {
    BitAndSplit(x, y, 0, hy, k);
    BitAndZero(hy);
    assert Place(x, 0, k) == x;
    assert Place(BitAnd(x, y), 0, k) == BitAnd(x, y);
  }

  /** A number below 2^k ORed with a longer one changes only the other's low k bits. */
  lemma BitOrLow(x: nat, y: nat, hy: nat, k: nat)
    requires x < Pow2(k) && y < Pow2(k)
    ensures BitOr(x, Place(y, hy, k)) == Place(BitOr(y, x), hy, k)
  {
    BitOrSplit(x, y, 0, hy, k);
    BitOrZero(hy);
    BitOrComm(x, y);
    assert Place(x, 0, k) == x;
  }

  // ---------------------------------------------------------------------------
  // Moving a number split at bit 64 by s bits (the carries between words)

  /** A number split at 2^k whose two parts fit stays below 2^(k + K). */
  lemma PlaceBelow(lo: nat, hi: nat, k: nat, K: nat)
    requires lo < Pow2(k) && hi < Pow2(K)
    ensures Place(lo, hi, k) < Pow2(k + K)
  {
    Pow2Add(k, K);
    MulLe(Pow2(k), hi, Pow2(K) - 1);
    assert Pow2(k) * (Pow2(K) - 1) == Pow2(k) * Pow2(K) - Pow2(k);
  }

  lemma ShiftDownAlgebra(a0: int, a1: int, v0: int, v1: int, P: int, Q: int)
    ensures a0 + P * a1 + (P * Q) * (v0 + P * v1) == a0 + P * (a1 + Q * v0 + (P * Q) * v1)
  {
  }

  lemma ShiftUpAlgebra(c: int, a: int, a0: int, a1: int, t: int, P: int, Q: int, B: int)
    requires a == Q * a1 + a0 && B == P * Q
    ensures c + P * (a + B * t) == (c + P * a0) + B * (a1 + P * t)
  {
  }

  lemma PlaceModAlgebra(lo: int, q: int, r: int, P: int, Q: int)
    ensures lo + P * (Q * q + r) == (lo + P * r) + (P * Q) * q
  {
  }

  /** Reducing a split number modulo 2^(k + K) reduces its high part modulo 2^K. */
  lemma PlaceMod(lo: nat, hi: nat, k: nat, K: nat)
    requires lo < Pow2(k)
    ensures Place(lo, hi, k) % Pow2(k + K) == Place(lo, Mod(hi, Pow2(K)), k)
  {
    var P, Q := Pow2(k), Pow2(K);
    var q, r := Div(hi, Q), Mod(hi, Q);
    DivModParts(hi, Q);
    Pow2Add(k, K);
    PlaceBelow(lo, r, k, K);
    PlaceModAlgebra(lo, q, r, P, Q);
    DivModUnique(Place(lo, hi, k), P * Q, q, Place(lo, r, k));
  }

  /** Dividing a + B * v by P, where B = P * Q and a < B: the quotient has a / P and
      Q times the remainder of v below B, and the quotient of v above. */
  lemma ShiftDownAny(a: nat, v: nat, P: nat, Q: nat, B: nat)
    requires P > 0 && Q > 0 && B == P * Q && a < B
    ensures (a + B * v) / P == (Div(a, P) + Q * Mod(v, P)) + B * Div(v, P)
  {
    var a1, a0, v1, v0 := Div(a, P), Mod(a, P), Div(v, P), Mod(v, P);
    DivModParts(a, P);
    DivModParts(v, P);
    ShiftDownAlgebra(a0, a1, v0, v1, P, Q);
    DivModUnique(a + B * v, P, (a1 + Q * v0) + B * v1, a0);
  }

  /** Shifting the two-part number a + 2^W * v right by s (at most W): the low word gets
      the high bits of a and the low s bits of v, the rest is v shifted. The width is a
      parameter (the engine uses W = 64) so that no power of two is a literal here. */
  lemma ShiftDownStep(a: nat, v: nat, s: nat, W: nat)
    requires a < Pow2(W) && s <= W
    ensures Place(a, v, W) / Pow2(s)
         == Place(Place(Div(a, Pow2(s)), Mod(v, Pow2(s)), W - s), Div(v, Pow2(s)), W)
  {
    Pow2Sum(s, W - s, W);
    ShiftDownAny(a, v, Pow2(s), Pow2(W - s), Pow2(W));
  }

  /** Shifting c + P * (a + B * t) with B = P * Q and modulo B * R: the low word is c and
      the low part of a below Q, the high part is a / Q and t, modulo R. */
  lemma ShiftUpAny(a: nat, t: nat, c: nat, P: nat, Q: nat, B: nat, R: nat)
    requires P > 0 && Q > 0 && R > 0 && B == P * Q && c < P
    ensures (c + P * (a + B * t)) % (B * R)
         == (c + P * Mod(a, Q)) + B * Mod(Div(a, Q) + P * t, R)
  {
    var a1, a0 := Div(a, Q), Mod(a, Q);
    DivModParts(a, Q);
    var lo, H := c + P * a0, a1 + P * t;
    var h1, h0 := Div(H, R), Mod(H, R);
    DivModParts(H, R);
    assert lo < B by {
      MulMono(P, a0, Q - 1);
      assert P * (Q - 1) == B - P;
    }
    ShiftUpAlgebra(c, a, a0, a1, t, P, Q, B);
    PlaceModAlgebra(lo, h1, h0, B, R);
    assert lo + B * h0 < B * R by {
      MulMono(B, h0, R - 1);
      assert B * (R - 1) == B * R - B;
    }
    DivModUnique(c + P * (a + B * t), B * R, h1, lo + B * h0);
  }

  /** Shifting the two-part number a + 2^W * t left by s (at most W) and bringing in the
      carry c below bit s, modulo 2^(W + K): the low word gets c and the low W - s bits of
      a, the rest is t shifted with the high s bits of a carried in. */
  lemma ShiftUpStep(a: nat, t: nat, c: nat, s: nat, K: nat, W: nat)
    requires a < Pow2(W) && s <= W && c < Pow2(s)
    ensures Place(c, Place(a, t, W), s) % Pow2(W + K)
         == Place(Place(c, Mod(a, Pow2(W - s)), s), Mod(Place(Div(a, Pow2(W - s)), t, s), Pow2(K)), W)
  {
    Pow2Sum(s, W - s, W);
    Pow2Sum(W, K, W + K);
    ShiftUpAny(a, t, c, Pow2(s), Pow2(W - s), Pow2(W), Pow2(K));
  }
}
