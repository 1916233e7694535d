/** What a caller of the package sees when it chains the methods of Int: loading and reading
    back give the same number, and a left shift undone by a right shift restores it. */
module Usage {
  import opened Naturals
  import opened Digits
  import opened Machine
  import opened Sizes
  import opened Layout
  import opened IntFacts
  import opened LeBig

  /** SetBytes then Bytes gives back the input without its high zero bytes: exactly what
      RemoveMostSignificantZeroesFromBytes makes of it. */
  method BytesRoundTrip(input: seq<Byte>) returns (out: seq<Byte>, trimmed: seq<Byte>)
    requires |input| > 0
    ensures out == trimmed
    ensures |out| <= |input| && out == input[..|out|] && forall k :: |out| <= k < |input| ==> input[k] == 0
    ensures Canonical(out) && ValB(out) == ValB(input)
  {
    var x := new Int();
    x.SetBytes(input);
    out := x.Bytes();
    trimmed := RemoveMostSignificantZeroesFromBytes(input);
    BytesBelow(out);
    BytesBelow(trimmed);
    CanonicalUnique(out, trimmed, 8);
  }

  /** SetUint64 then Uint64 gives back the word. */
  method Uint64RoundTrip(w: Word) returns (r: Word)
    ensures r == w
  {
    var x := new Int();
    x.SetUint64(w);
    r := x.Uint64();
  }

  /** Loading a byte string, shifting it left by s bits and then right by s bits gives back
      its number; a non-zero number also gets back its bit count and trimmed words. A zero
      number is a single zero word: the left shift grows its bit count and words, and the
      right shift, seeing a zero top word, leaves them grown. */
  method ShiftRoundTrip(input: seq<Byte>, s: Word) returns (words: seq<Word>, bits: nat)
    requires |input| > 0
    ensures Val(words) == ValB(input)
    ensures ValB(input) > 0 ==> bits == MinBits(ValB(input)) && Trimmed(words)
    ensures ValB(input) == 0 ==> bits == 1 + s && |words| == GrownLength(1, 1 + s)
  {
    var x := new Int();
    x.SetBytes(input);
    ghost var v, b0 := ValB(input), x.sizeInBits;
    x.ShiftLeft(s);
    ghost var W, bits1, bytes1, words1 := x.abs, x.sizeInBits, x.sizeInBytes, x.sizeInWords;
    RightShiftInRange(x.abs, x.sizeInBits, s);
    x.ShiftRight(s);
    ShiftedBack(v, b0, s, W, bits1, bytes1, words1, x.abs, x.sizeInBits, x.sizeInBytes, x.sizeInWords);
    words, bits := x.Words(), x.sizeInBits;
  }

  /** The right shift undoes the left shift: from words W holding v * 2^s with matching bits,
      ShiftRight by s leaves v, with v's own bit count when v > 0; a zero value keeps its
      words and bits. */
  lemma ShiftedBack(v: nat, b0: nat, s: Word, W: seq<Word>, bits1: nat, bytes1: nat, words1: nat,
                    ws: seq<Word>, bits: nat, bytes: nat, words: nat)
    requires v > 0 ==> b0 == BitLen(v) && BitLen(v) > 0
    requires BitsMatch(W, bits1) && Val(W) == v * Pow2(s) && bits1 == b0 + s
    requires ShiftRightPost(W, bits1, bytes1, words1, s, ws, bits, bytes, words)
    ensures Val(ws) == v
    ensures v > 0 ==> bits == b0 && Trimmed(ws)
    ensures v == 0 ==> ws == W && bits == bits1
  {
    MulDivCancel(v, Pow2(s));
    if v > 0 {
      assert Val(W) != 0;
    } else {
      ValueZero(W, 64);
    }
  }

  /** Multiplying by P > 0 and dividing by P gives the number back. */
  lemma MulDivCancel(v: nat, P: nat)
    requires P > 0
    ensures (v * P) / P == v
  {
    DivModUnique(v * P, P, v, 0);
  }

  /** ReverseSliceOfBytes twice leaves the bytes as they were. */
  method ReverseRoundTrip(a: array<Byte>)
    modifies a
    ensures a[..] == old(a[..])
  {
    ReverseSliceOfBytes(a);
    ReverseSliceOfBytes(a);
    ReverseTwice(old(a[..]));
  }
}
