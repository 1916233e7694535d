/** The fixed-width values the engine is written in: Go's uint64 and byte, the shift, AND and
    OR operators on uint64, math/bits.Len64 and LeadingZeros64, and the little-endian codec of
    encoding/binary. Each is spelled out on unbounded naturals so that the model says exactly
    which bits survive an operation. */
module Machine {
  import opened Naturals
  import opened Digits

  const WordBase: nat := 0x1_0000_0000_0000_0000

  /** A uint64. */
  type Word = x: nat | x < 0x1_0000_0000_0000_0000

  /** A byte. */
  type Byte = x: nat | x < 0x100

  lemma WordBaseIsPow2()
    ensures Pow2(8) == 256 && Pow2(64) == WordBase
  {
    assert Pow2(1) == 2;
    assert Pow2(2) == 4;
    assert Pow2(3) == 8;
    assert Pow2(4) == 16;
    assert Pow2(5) == 32;
    assert Pow2(6) == 64;
    assert Pow2(7) == 128;
    assert Pow2(8) == 256;
    Pow2Sum(8, 8, 16);
    assert Pow2(16) == 0x1_0000;
    Pow2Sum(16, 16, 32);
    assert Pow2(32) == 0x1_0000_0000;
    Pow2Sum(32, 32, 64);
  }

  /** A uint64 fits in 64 bits. */
  lemma WordBelow(x: Word)
    ensures x < Pow2(64)
  {
    WordBaseIsPow2();
  }

  /** A byte fits in 8 bits. */
  lemma ByteBelow(x: Byte)
    ensures x < Pow2(8)
  {
    assert Pow2(4) == 16;
    assert Pow2(8) == Pow2(4) * Pow2(4) by { Pow2Add(4, 4); }
  }

  // ---------------------------------------------------------------------------
  // Operators on uint64

  /** x >> s: the quotient of x by 2^s, rounded down. Go defines a shift by 64 or more as 0. */
  function Shr(x: Word, s: nat): (r: Word)
    ensures s >= 64 ==> r == 0
    ensures s < 64 ==> Pow2(s) * r <= x < Pow2(s) * r + Pow2(s)
  {
    if s >= 64 then 0
    else
      ShrBound(x, s);
      DivModParts(x, Pow2(s));
      Div(x, Pow2(s))
  }

  lemma ShrBound(x: Word, s: nat)
    ensures Div(x, Pow2(s)) < WordBase
  {
    DivLe(x, Pow2(s));
  }

  /** x << s: the bits pushed past bit 63 are lost, so a word of at most 64 - s bits is
      multiplied by 2^s exactly; the s low bits of the result are zero. A shift by 64 or
      more gives 0. */
  function Shl(x: Word, s: nat): (r: Word)
    ensures s >= 64 ==> r == 0
    ensures s < 64 && x < Pow2(64 - s) ==> r == x * Pow2(s)
    ensures s < 64 ==> r % Pow2(s) == 0
  {
    if s >= 64 then 0
    else
      ShlLowBits(x, s);
      (x * Pow2(s)) % WordBase
  }

  lemma ShlLowBits(x: Word, s: nat)
    requires s < 64
    ensures x < Pow2(64 - s) ==> (x * Pow2(s)) % WordBase == x * Pow2(s)
    ensures ((x * Pow2(s)) % WordBase) % Pow2(s) == 0
  {
    var P, Q := Pow2(s), Pow2(64 - s);
    assert WordBase == P * Q by {
      WordBaseIsPow2();
      Pow2Sum(s, 64 - s, 64);
    }
    ShlParts(x, P, Q, WordBase);
  }

  lemma ShlParts(x: nat, P: nat, Q: nat, B: nat)
    requires P > 0 && Q > 0 && B == P * Q
    ensures x < Q ==> (x * P) % B == x * P
    ensures ((x * P) % B) % P == 0
  {
    MulDivModAny(x, P, Q);
    DivModUnique(P * (x % Q), P, x % Q, 0);
    if x < Q {
      DivModUnique(x, Q, 0, x);
    }
  }

  /** x & y: it keeps only bits both have, so it is at most each operand. */
  function And(x: Word, y: Word): (r: Word)
    ensures r <= x && r <= y
  {
    BitAndAtMost(x, y);
    BitAnd(x, y)
  }

  /** x | y: it keeps every bit either has, so it is at least each operand. */
  function Or(x: Word, y: Word): (r: Word)
    ensures x <= r && y <= r
  {
    OrBelow(x, y);
    BitOrAtLeast(x, y);
    BitOr(x, y)
  }

  lemma OrBelow(x: Word, y: Word)
    ensures BitOr(x, y) < WordBase
  {
    WordBaseIsPow2();
    BitOrBelow(x, y, 64);
  }

  /** math/bits.Len64: the number of significant bits, at most 64. */
  function Len64(x: Word): (r: nat)
    ensures r <= 64
    ensures r == 0 <==> x == 0
    ensures x < Pow2(r) && (x > 0 ==> Pow2(r - 1) <= x)
  {
    WordBelow(x);
    BitLenAtMost(x, 64);
    BitLenBounds(x);
    BitLen(x)
  }

  /** math/bits.LeadingZeros64: the zero bits above the highest set bit, 64 for zero. */
  function LeadingZeros64(x: Word): (r: nat)
    ensures r <= 64 && (r == 64 <==> x == 0)
    ensures x < Pow2(64 - r)
    ensures x > 0 ==> r < 64 && Pow2(63 - r) <= x
  {
    if x == 0 then assert Len64(x) == 0; 64 else 64 - Len64(x)
  }

  /** A right shift by at most 64 is division by 2^s and leaves at most 64 - s bits. */
  lemma ShrSmall(x: Word, s: nat)
    requires s <= 64
    ensures Shr(x, s) == Div(x, Pow2(s))
    ensures Shr(x, s) < Pow2(64 - s)
  {
    WordBelow(x);
    DivPow2Below(x, s, 64);
  }

  /** A left shift by s <= 64 keeps the low k = 64 - s bits of x, moved up by s. */
  lemma ShlSmall(x: Word, s: nat, k: nat)
    requires s + k == 64
    ensures Shl(x, s) == Place(0, Mod(x, Pow2(k)), s)
  {
    WordBaseIsPow2();
    Pow2Sum(s, k, 64);
    MulDivModAny(x, Pow2(s), Pow2(k));
  }

  // ---------------------------------------------------------------------------
  // Numbers spelled in words and in bytes

  /** The number a word slice stands for, least significant word first. */
  function Val(ws: seq<Word>): nat
  {
    Value(ws, 64)
  }

  /** The number a byte string stands for, least significant byte first. */
  function ValB(bs: seq<Byte>): nat
  {
    Value(bs, 8)
  }

  lemma WordsBelow(ws: seq<Word>)
    ensures DigitsBelow(ws, 64)
  {
    WordBaseIsPow2();
  }

  lemma BytesBelow(bs: seq<Byte>)
    ensures DigitsBelow(bs, 8)
  {
    WordBaseIsPow2();
  }

  /** The n low bytes of v, least significant first. */
  function LeBytes(v: nat, n: nat): (r: seq<Byte>)
    ensures |r| == n
  {
    if n == 0 then [] else [v % 256] + LeBytes(v / 256, n - 1)
  }

  /** n bytes hold v modulo 2^(8 * n). */
  lemma {:induction false} LeBytesValue(v: nat, n: nat)
    ensures ValB(LeBytes(v, n)) == v % Pow2(8 * n)
  {
    if n == 0 {
      DivModUnique(v, 1, v, 0);
    } else {
      var bs := LeBytes(v, n);
      var q, Q := v / 256, Pow2(8 * (n - 1));
      LeBytesValue(q, n - 1);
      assert bs[1..] == LeBytes(q, n - 1);
      WordBaseIsPow2();
      assert ValB(bs) == v % 256 + 256 * (q % Q);
      Pow2Sum(8, 8 * (n - 1), 8 * n);
      ModOfProduct(v, 256, Q);
    }
  }

  /** Reading back the bytes of a byte string's own value gives the string again. */
  lemma {:induction false} LeBytesOfValue(bs: seq<Byte>)
    ensures LeBytes(ValB(bs), |bs|) == bs
  {
    if bs != [] {
      WordBaseIsPow2();
      BytesBelow(bs[1..]);
      ValueBound(bs[1..], 8);
      assert ValB(bs) == Place(bs[0], ValB(bs[1..]), 8);
      PlaceDivMod(bs[0], ValB(bs[1..]), 8);
      LeBytesOfValue(bs[1..]);
    }
  }

  /** binary.LittleEndian.PutUint64: the eight bytes of x, least significant first. */
  function LePutUint64(x: Word): (r: seq<Byte>)
    ensures |r| == 8
  {
    LeBytes(x, 8)
  }

  /** binary.LittleEndian.Uint64: the word whose eight little-endian bytes are b. */
  function LeUint64(b: seq<Byte>): (r: Word)
    requires |b| == 8
    ensures LeBytes(r, 8) == b
  {
    EightBytesBelow(b);
    LeBytesOfValue(b);
    ValB(b)
  }

  lemma EightBytesBelow(b: seq<Byte>)
    requires |b| == 8
    ensures ValB(b) < WordBase
  {
    BytesBelow(b);
    ValueBound(b, 8);
    WordBaseIsPow2();
  }

  /** Encoding a word and decoding the bytes gives the word back. */
  lemma PutThenUint64(x: Word)
    ensures LeUint64(LePutUint64(x)) == x
  {
    LeBytesValue(x, 8);
    WordBaseIsPow2();
    DivModUnique(x, WordBase, 0, x);
  }

  /** The bytes of a word slice laid out one word after another, as Bytes writes them. */
  function Flatten(ws: seq<Word>): (r: seq<Byte>)
    ensures |r| == 8 * |ws|
  {
    if ws == [] then [] else Flatten(ws[..|ws| - 1]) + LePutUint64(ws[|ws| - 1])
  }

  /** Laying a word slice out in bytes keeps the number it stands for. */
  lemma {:induction false} FlattenValue(ws: seq<Word>)
    ensures ValB(Flatten(ws)) == Val(ws)
  {
    if ws != [] {
      var p, x := ws[..|ws| - 1], ws[|ws| - 1];
      FlattenValue(p);
      ValueAppend(Flatten(p), LePutUint64(x), 8);
      PutThenUint64(x);
      assert ws == p + [x];
      ValueAppend(p, [x], 64);
      assert Width(8, |Flatten(p)|) == Width(64, |p|);
      ValueSingle(x, 64);
    }
  }
}
