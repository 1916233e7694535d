/** The size bookkeeping of lebig_private.go: rounding a bit or byte count up to whole words
    or bytes, the byte length of a word slice, and the two trimmers that drop the zero words
    or bytes at the most significant end. */
module Sizes {
  import opened Naturals
  import opened Digits
  import opened Machine

  /** sizeInWordsFromBits: the number of 64-bit words that hold n bits. */
  function SizeInWordsFromBits(n: nat): (r: nat)
    ensures 64 * r >= n && (r == 0 || 64 * (r - 1) < n)
  {
    if n % 64 != 0 then n / 64 + 1 else n / 64
  }

  /** sizeInWordsFromBytes: the number of 8-byte words that hold n bytes. */
  function SizeInWordsFromBytes(n: nat): (r: nat)
    ensures 8 * r >= n && (r == 0 || 8 * (r - 1) < n)
  {
    if n % 8 != 0 then n / 8 + 1 else n / 8
  }

  /** sizeInBytes: the number of bytes that hold n bits. */
  function SizeInBytes(n: nat): (r: nat)
    ensures 8 * r >= n && (r == 0 || 8 * (r - 1) < n)
  {
    if n % 8 != 0 then n / 8 + 1 else n / 8
  }

  /** recalcSizeInBytes: the byte length of a non-empty word slice. With a non-zero top word
      it is the number of bytes the value needs; with a zero top word every word counts in
      full. The source indexes the top word before anything else, so an empty slice is
      outside its domain. */
  function RecalcSizeInBytes(ws: seq<Word>): (r: nat)
    requires |ws| > 0
    ensures ws[|ws| - 1] != 0 ==> 8 * (r - 1) < BitLen(Val(ws)) <= 8 * r
    ensures ws[|ws| - 1] == 0 ==> r == 8 * |ws|
  {
    var lastLenBits := Len64(ws[|ws| - 1]);
    var lastLenBytes := SizeInBytes(lastLenBits);
    WordsBelow(ws);
    RecalcMeaning(ws, lastLenBits, lastLenBytes);
    if lastLenBits > 0 then |ws| * 8 - 8 + lastLenBytes else |ws| * 8
  }

  lemma RecalcMeaning(ws: seq<Word>, lastLenBits: nat, lastLenBytes: nat)
    requires |ws| > 0 && DigitsBelow(ws, 64)
    requires lastLenBits == BitLen(ws[|ws| - 1]) && lastLenBytes == SizeInBytes(lastLenBits)
    ensures ws[|ws| - 1] != 0 ==>
              lastLenBits > 0 &&
              8 * (|ws| * 8 - 8 + lastLenBytes - 1) < BitLen(Val(ws)) <= 8 * (|ws| * 8 - 8 + lastLenBytes)
    ensures ws[|ws| - 1] == 0 ==> lastLenBits == 0
  {
    if ws[|ws| - 1] != 0 {
      TopDigit(ws, 64);
      assert Width(64, |ws| - 1) == 64 * |ws| - 64;
    }
  }

  // ---------------------------------------------------------------------------
  // Trimmers

  /** The loop both trimmers share: walking down from the top, count the zero digits met
      before the first non-zero one. */
  method CountTopZeros(input: seq<nat>) returns (removeCounter: nat)
    ensures removeCounter <= |input|
    ensures forall k :: |input| - removeCounter <= k < |input| ==> input[k] == 0
    ensures removeCounter < |input| ==> input[|input| - 1 - removeCounter] != 0
  {
    var removeMostSignificantZeros := true;
    removeCounter := 0;
    var i: int := |input| - 1;
    while i >= 0
      invariant -1 <= i < |input|
      invariant removeMostSignificantZeros <==> forall k :: i < k < |input| ==> input[k] == 0
      invariant removeMostSignificantZeros ==> removeCounter == |input| - 1 - i
      invariant !removeMostSignificantZeros ==>
                  removeCounter < |input| - 1 - i && input[|input| - 1 - removeCounter] != 0
      invariant removeCounter <= |input| - 1 - i
      invariant forall k :: |input| - removeCounter <= k < |input| ==> input[k] == 0
      decreases i + 1
    {
      if input[i] == 0 && removeMostSignificantZeros {
        removeCounter := removeCounter + 1;
      } else {
        removeMostSignificantZeros := false;
      }
      i := i - 1;
    }
  }

  /** RemoveMostSignificantZeroesFromBytes: the canonical spelling of the same number, a
      prefix of the input; a string of zero bytes keeps its first byte. The source slices
      in[0:1] when every byte is zero, which needs a byte to be there. */
  method RemoveMostSignificantZeroesFromBytes(input: seq<Byte>) returns (out: seq<Byte>)
    requires |input| > 0
    ensures |out| <= |input| && out == input[..|out|]
    ensures forall k :: |out| <= k < |input| ==> input[k] == 0
    ensures Canonical(out) && ValB(out) == ValB(input)
    ensures Canonical(input) ==> out == input
  {
    var removeCounter := CountTopZeros(input);
    out := input[..|input| - removeCounter];
    if |out| == 0 {
      out := input[..1];
    }
    assert input == out + input[|out|..];
    ZerosOnTop(out, input[|out|..], 8);
  }

  /** RemoveMostSignificantZeroesFromWords: the trimmed spelling of the same number, a prefix
      of the input; all-zero input gives the empty slice. */
  method RemoveMostSignificantZeroesFromWords(input: seq<Word>) returns (out: seq<Word>)
    ensures |out| <= |input| && out == input[..|out|]
    ensures forall k :: |out| <= k < |input| ==> input[k] == 0
    ensures Trimmed(out) && Val(out) == Val(input)
    ensures out == [] <==> Val(input) == 0
    ensures Trimmed(input) ==> out == input
  {
    var removeCounter := CountTopZeros(input);
    out := input[..|input| - removeCounter];
    assert input == out + input[|out|..];
    ZerosOnTop(out, input[|out|..], 64);
    ValueZero(out, 64);
    ValueZero(input, 64);
  }
}
