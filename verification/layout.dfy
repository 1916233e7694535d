/** How an Int lays a number out: the number of bits, bytes and words its value needs, and
    what a non-zero top word says about those counts. */
module Layout {
  import opened Naturals
  import opened Digits
  import opened Machine
  import opened Sizes

  /** The bit count an Int records for v: its bit length, and 1 for zero. */
  function MinBits(v: nat): nat
  {
    if v == 0 then 1 else BitLen(v)
  }

  /** The bytes the shortest spelling of v takes (one byte for zero). */
  function ByteCount(v: nat): nat
  {
    SizeInBytes(MinBits(v))
  }

  /** The words the shortest spelling of v takes (one word for zero). */
  function WordCount(v: nat): nat
  {
    SizeInWordsFromBits(MinBits(v))
  }

  /** The length SmallShiftLeft grows a slice of n words to when the bit count becomes
      bits: the words that many bits need, if that is more than n. */
  function GrownLength(n: nat, bits: nat): (r: nat)
    ensures r >= n && 64 * r >= bits
    ensures r == n || 64 * (r - 1) < bits
  {
    if n < SizeInWordsFromBits(bits) then SizeInWordsFromBits(bits) else n
  }

  /** Growing for a bit count and then for a larger one is growing for the larger one. */
  lemma GrownLengthTwice(n: nat, a: nat, b: nat)
    requires a <= b
    ensures GrownLength(GrownLength(n, a), b) == GrownLength(n, b)
  {
    assert SizeInWordsFromBits(a) <= SizeInWordsFromBits(b);
  }

  /** n copies of x: with x zero, the slice Go's make allocates. */
  function Repeat<T>(x: T, n: nat): (r: seq<T>)
    ensures |r| == n && forall j :: 0 <= j < n ==> r[j] == x
  {
    seq(n, _ => x)
  }

  /** A non-zero top word puts the bit length of the value in the top word. */
  lemma TopWordBits(ws: seq<Word>)
    requires |ws| > 0 && ws[|ws| - 1] != 0
    ensures Val(ws) > 0
    ensures 64 * (|ws| - 1) < BitLen(Val(ws)) <= 64 * |ws|
    ensures Pow2(64 * (|ws| - 1)) <= Val(ws)
  {
    var top := ws[|ws| - 1];
    WordsBelow(ws);
    TopDigit(ws, 64);
    WordBelow(top);
    BitLenAtMost(top, 64);
    assert BitLen(top) >= 1;
    assert Width(64, |ws| - 1) == 64 * (|ws| - 1);
  }

  /** The same for a non-zero top byte. */
  lemma TopByteBits(bs: seq<Byte>)
    requires |bs| > 0 && bs[|bs| - 1] != 0
    ensures ValB(bs) > 0
    ensures 8 * (|bs| - 1) < BitLen(ValB(bs)) <= 8 * |bs|
  {
    var top := bs[|bs| - 1];
    BytesBelow(bs);
    TopDigit(bs, 8);
    ByteBelow(top);
    BitLenAtMost(top, 8);
    assert BitLen(top) >= 1;
    assert Width(8, |bs| - 1) == 8 * (|bs| - 1);
  }

  /** A word slice with a non-zero top word is exactly as long as its value needs. */
  lemma TopWordCount(ws: seq<Word>)
    requires |ws| > 0 && ws[|ws| - 1] != 0
    ensures |ws| == SizeInWordsFromBits(BitLen(Val(ws))) == WordCount(Val(ws))
  {
    TopWordBits(ws);
  }

  /** The canonical spelling of a number in words has WordCount words. */
  lemma CanonicalWordCount(ws: seq<Word>)
    requires Canonical(ws)
    ensures |ws| == WordCount(Val(ws))
  {
    if ws[|ws| - 1] != 0 {
      TopWordCount(ws);
    } else {
      assert |ws| == 1;
      ValueZero(ws, 64);
    }
  }

  /** The canonical spelling of a number in bytes has ByteCount bytes. */
  lemma CanonicalByteCount(bs: seq<Byte>)
    requires Canonical(bs)
    ensures |bs| == ByteCount(ValB(bs))
  {
    if bs[|bs| - 1] != 0 {
      TopByteBits(bs);
    } else {
      assert |bs| == 1;
      ValueZero(bs, 8);
    }
  }
}
