/** The word engine of lebig.go: an unsigned integer kept as a slice of 64-bit words, least
    significant first, with three cached sizes. Every method changes the object in place, as
    the source does; its contract states the new words by the number they stand for, and the
    new sizes. */
module LeBig {
  import opened Naturals
  import opened Digits
  import opened Machine
  import opened Sizes
  import opened WordOps
  import opened Layout
  import opened IntFacts

  class Int {
    var sizeInBytes: nat
    var sizeInBits: nat
    var sizeInWords: nat
    var abs: seq<Word>

    /** The zero value of the Go struct: no words, all sizes 0. */
    constructor ()
      ensures abs == [] && sizeInBytes == 0 && sizeInBits == 0 && sizeInWords == 0
    {
      sizeInBytes := 0;
      sizeInBits := 0;
      sizeInWords := 0;
      abs := [];
    }

    /** sizeInBits describes the words, as the shifts need. */
    predicate Consistent()
      reads this
      ensures Consistent() && Val(abs) > 0 ==> |abs| == SizeInWordsFromBits(sizeInBits)
    {
      BitsMatchWords(abs, sizeInBits);
      BitsMatch(abs, sizeInBits)
    }

    function Words(): seq<Word>
      reads this
    {
      abs
    }

    /** SetBytes: load a little-endian byte string. The words are the shortest spelling of
        the same number; the sizes are those of that number. Go faults on an empty input. */
    method SetBytes(input: seq<Byte>)
      requires |input| > 0
      modifies this
      ensures Val(abs) == ValB(input) && Canonical(abs)
      ensures |abs| == WordCount(ValB(input)) == SizeInWordsFromBytes(sizeInBytes)
      ensures sizeInBytes == ByteCount(ValB(input))
      ensures sizeInBits == MinBits(ValB(input))
      ensures sizeInWords == |abs|
      ensures Consistent()
    {
      var trimmed := RemoveMostSignificantZeroesFromBytes(input);
      var words := Unpack(trimmed);
      Unpacked(words, trimmed, input);

      var leadingZeroes := LeadingZeros64(words[|words| - 1]);
      var bits := 64 * |words| - leadingZeroes;
      if bits == 0 {
        bits := 1;
      }
      Loaded(words, input, bits);
      sizeInBytes, sizeInWords, abs, sizeInBits := |trimmed|, |words|, words, bits;
    }

    /** SetUint64: load one word. The words are exactly [x]. */
    method SetUint64(x: Word)
      modifies this
      ensures abs == [x]
      ensures sizeInBytes == ByteCount(x) && sizeInBits == MinBits(x) && sizeInWords == 1
      ensures Consistent()
    {
      var inBytes := LePutUint64(x);
      SetBytes(inBytes);
      LoadedWord(x, abs);
    }

    /** Uint64: the low word, 0 when there are no words; the value modulo 2^64. */
    function Uint64(): (r: Word)
      reads this
      ensures r == Val(abs) % WordBase
    {
      LowWord(abs);
      if |abs| > 0 then abs[0] else 0
    }

    /** Bytes: the shortest little-endian byte string of the value; the empty string when
        there are no words. It refreshes sizeInBytes on the way. */
    method Bytes() returns (r: seq<Byte>)
      modifies this`sizeInBytes
      ensures abs == old(abs) && sizeInBits == old(sizeInBits) && sizeInWords == old(sizeInWords)
      ensures |abs| == 0 ==> r == [] && sizeInBytes == old(sizeInBytes)
      ensures |abs| > 0 ==> sizeInBytes == RecalcSizeInBytes(abs) && Canonical(r) && ValB(r) == Val(abs)
    {
      if |abs| == 0 {
        return [];
      }
      sizeInBytes := RecalcSizeInBytes(abs);
      var tmpOut := Repeat<Byte>(0, 8 * |abs|);
      for i := 0 to |abs|
        invariant sizeInBytes == RecalcSizeInBytes(abs)
        invariant |tmpOut| == 8 * |abs|
        invariant tmpOut[..8 * i] == Flatten(abs[..i])
      {
        ghost var before := tmpOut;
        tmpOut := tmpOut[..8 * i] + LePutUint64(abs[i]) + tmpOut[8 * i + 8..];
        PackStep(abs, i, before, tmpOut);
      }
      assert abs[..|abs|] == abs && tmpOut[..8 * |abs|] == tmpOut;
      assert tmpOut == Flatten(abs);
      FlattenValue(abs);
      RecalcKeepsValue(abs);
      PrefixKeepsValue(tmpOut, sizeInBytes);
      r := RemoveMostSignificantZeroesFromBytes(tmpOut[..sizeInBytes]);
    }
    /** SmallShiftRight's loop: from the bottom word up, each word is shifted right by sr and
        the low bits of the word above it are ORed in on top. */
    method ShiftWordsRight(sr: Word)
      modifies this`abs
      ensures abs == ShiftedRight(old(abs), sr)
    {
      ghost var W := abs;
      for i := 0 to |abs|
        invariant |abs| == |W|
        invariant forall j :: 0 <= j < |W| ==>
                    abs[j] == if j + 1 < i then RightWord(W, sr, j)
                              else if j + 1 == i then Shr(W[j], sr) else W[j]
      {
        if i == 0 {
          abs := abs[i := Shr(abs[i], sr)];
        } else {
          var sl := WrapSub(64, sr);
          var srWord := Shl(abs[i], sl);
          abs := abs[i - 1 := Or(abs[i - 1], srWord)];
          abs := abs[i := Shr(abs[i], sr)];
        }
      }
    }

    /** SmallShiftRight: shift right by sr bits, carrying between neighbouring words, when
        the top word is non-zero; keep the words the new bit count needs and trim. The slice
        the source keeps must lie within the words. A shift past the recorded bit count
        empties the words and leaves the sizes; a shift by more than 64 bits clears every
        word, as Go's shifts do. */
    method SmallShiftRight(sr: Word)
      requires |abs| > 0 && abs[|abs| - 1] > 0 && sr <= sizeInBits ==>
                 SizeInWordsFromBits(sizeInBits - sr) <= |abs|
      modifies this
      ensures SmallShiftRightPost(old(abs), old(sizeInBits), old(sizeInBytes), old(sizeInWords), sr,
                                  abs, sizeInBits, sizeInBytes, sizeInWords)
    {
      ghost var W, bits0 := abs, sizeInBits;
      if |abs| > 0 {
        if abs[|abs| - 1] > 0 {
          if sr <= sizeInBits {
            sizeInBits := sizeInBits - sr;
            sizeInBytes := SizeInBytes(sizeInBits);
            sizeInWords := SizeInWordsFromBits(sizeInBits);
            ShiftWordsRight(sr);
            abs := abs[0..sizeInWords];
            abs := RemoveMostSignificantZeroesFromWords(abs);
            RightShifted(W, bits0, sr, abs);
          } else {
            abs := [];
            abs := RemoveMostSignificantZeroesFromWords(abs);
          }
        }
      }
      if BitsMatch(W, bits0) {
        RightShiftIdle(W, bits0, sr);
      }
    }
    /** SmallShiftLeft's loop: from the top word down, each word is shifted left by sl and
        its high bits are ORed into the bottom of the word above it. */
    method ShiftWordsLeft(sl: Word)
      modifies this`abs
      ensures abs == ShiftedLeft(old(abs), sl)
    {
      ghost var E := abs;
      var i: int := |abs| - 1;
      while i >= 0
        invariant -1 <= i < |E| && |abs| == |E|
        invariant forall j :: 0 <= j < |E| ==>
                    abs[j] == if j <= i then E[j]
                              else if j == i + 1 then Shl(E[j], sl) else LeftWord(E, sl, j)
        decreases i + 1
      {
        if i == |abs| - 1 {
          abs := abs[i := Shl(abs[i], sl)];
        } else {
          var sr := WrapSub(64, sl);
          var srWord := Shr(abs[i], sr);
          abs := abs[i + 1 := Or(abs[i + 1], srWord)];
          abs := abs[i := Shl(abs[i], sl)];
        }
        i := i - 1;
      }
    }

    /** SmallShiftLeft: shift left by sl bits within as many words as the new bit count
        needs, growing the slice with zero words when it is shorter. sizeInBytes is
        recounted from the grown words before they are shifted. A shift by more than 64 bits
        clears every word, as Go's shifts do. */
    method SmallShiftLeft(sl: Word)
      modifies this
      ensures |old(abs)| == 0 ==>
                abs == old(abs) && sizeInBits == old(sizeInBits) &&
                sizeInBytes == old(sizeInBytes) && sizeInWords == old(sizeInWords)
      ensures |old(abs)| > 0 ==>
                sizeInBits == old(sizeInBits) + sl &&
                |abs| == GrownLength(|old(abs)|, sizeInBits) && sizeInWords == |abs| &&
                sizeInBytes == RecalcSizeInBytes(old(abs) + Repeat<Word>(0, |abs| - |old(abs)|)) &&
                (sl <= 64 ==> Val(abs) == (old(Val(abs)) * Pow2(sl)) % Pow2(64 * |abs|)) &&
                (sl > 64 ==> forall j :: 0 <= j < |abs| ==> abs[j] == 0)
      ensures old(Consistent()) ==> Consistent()
      ensures old(Consistent()) && sl <= 64 ==> Val(abs) == old(Val(abs)) * Pow2(sl)
    {
      ghost var W, bits0 := abs, sizeInBits;
      if |abs| > 0 {
        sizeInBits := sizeInBits + sl;
        sizeInBytes := SizeInBytes(sizeInBits);
        sizeInWords := SizeInWordsFromBits(sizeInBits);
        if |abs| < sizeInWords {
          var diffSize := sizeInWords - |abs|;
          var diffSlice := Repeat<Word>(0, diffSize);
          abs := abs + diffSlice;
        } else {
          assert abs == abs + Repeat<Word>(0, 0);
        }
        sizeInWords := |abs|;
        sizeInBytes := RecalcSizeInBytes(abs);
        ghost var E := abs;
        ShiftWordsLeft(sl);
        LeftShifted(W, bits0, sl, E, abs);
      }
    }
    /** ShiftLeft: shifts of up to 64 bits are one SmallShiftLeft; longer ones are done 64
        bits at a time, the remainder last. The bit count grows by sl, the words grow to
        what it needs, and the number is multiplied by 2^sl when the bits match. */
    method ShiftLeft(sl: Word)
      modifies this
      ensures |old(abs)| == 0 ==>
                abs == old(abs) && sizeInBits == old(sizeInBits) && sizeInWords == old(sizeInWords)
      ensures |old(abs)| > 0 ==>
                sizeInBits == old(sizeInBits) + sl && sizeInWords == |abs| &&
                |abs| == GrownLength(|old(abs)|, sizeInBits)
      ensures old(Consistent()) ==> Consistent() && Val(abs) == old(Val(abs)) * Pow2(sl)
    {
      if sl <= 64 {
        SmallShiftLeft(sl);
      } else {
        ghost var W, bits0, words0, V0 := abs, sizeInBits, sizeInWords, Val(abs);
        ghost var consistent0 := Consistent();
        var count := sl / 64;
        if sl % 64 > 0 {
          count := count + 1;
        }
        assert count == SizeInWordsFromBits(sl);
        var left := sl;
        var nsl: Word := 64;
        ghost var done: nat := 0;
        for i := 0 to count
          invariant i < count ==> done + left == sl && 64 * (count - i - 1) < left <= 64 * (count - i)
          invariant i == count ==> done == sl
          invariant LeftShiftState(W, bits0, words0, consistent0, V0, done, i, abs, sizeInBits, sizeInWords)
        {
          if left > 64 {
            left := left - 64;
            nsl := 64;
          } else {
            nsl := left;
          }
          LeftStep(W, bits0, words0, consistent0, V0, done, i, nsl);
          done := done + nsl;
        }
      }
    }
    /** One step of ShiftLeft's loop: a SmallShiftLeft by nsl, which moves the loop's
        state on by nsl bits. */
    method LeftStep(ghost W: seq<Word>, ghost bits0: nat, ghost words0: nat, ghost c0: bool,
                    ghost V0: nat, ghost done: nat, ghost steps: nat, nsl: Word)
      requires nsl <= 64
      requires LeftShiftState(W, bits0, words0, c0, V0, done, steps, abs, sizeInBits, sizeInWords)
      modifies this
      ensures LeftShiftState(W, bits0, words0, c0, V0, done + nsl, steps + 1, abs, sizeInBits, sizeInWords)
    {
      ghost var ws, bits, words := abs, sizeInBits, sizeInWords;
      SmallShiftLeft(nsl);
      LeftShiftAdvance(W, bits0, words0, c0, V0, done, steps, ws, bits, words,
                       nsl, abs, sizeInBits, sizeInWords);
    }

    /** ShiftRight: shifts of up to 64 bits are one SmallShiftRight; longer ones are done 64
        bits at a time, the remainder last. A long shift needs matching bits, so that every
        step's slice lies within the words. */
    method ShiftRight(sl: Word)
      requires sl <= 64 ==>
                 (|abs| > 0 && abs[|abs| - 1] > 0 && sl <= sizeInBits ==> SizeInWordsFromBits(sizeInBits - sl) <= |abs|)
      requires sl > 64 ==> Consistent()
      modifies this
      ensures sl <= 64 ==> SmallShiftRightPost(old(abs), old(sizeInBits), old(sizeInBytes), old(sizeInWords), sl,
                                               abs, sizeInBits, sizeInBytes, sizeInWords)
      ensures ShiftRightPost(old(abs), old(sizeInBits), old(sizeInBytes), old(sizeInWords), sl,
                             abs, sizeInBits, sizeInBytes, sizeInWords)
    {
      var lastValue: nat := 64;
      if sl <= 64 {
        ghost var W, bits0, bytes0, words0 := abs, sizeInBits, sizeInBytes, sizeInWords;
        SmallShiftRight(sl);
        SmallShiftRightAlone(W, bits0, bytes0, words0, sl, abs, sizeInBits, sizeInBytes, sizeInWords);
      } else {
        ghost var W, V0, bits0, bytes0, words0 := abs, Val(abs), sizeInBits, sizeInBytes, sizeInWords;
        var count := sl / 64;
        if sl % 64 != 0 {
          var tmpVal := 64 * count;
          lastValue := sl - tmpVal;
          count := count + 1;
        }
        var nsl: Word := 64;
        ghost var done: nat := 0;
        RightShiftStart(abs, sizeInBits, sizeInBytes, sizeInWords);
        for i := 0 to count
          invariant 0 < lastValue <= 64 && 64 * (count - 1) + lastValue == sl
          invariant i < count ==> done == 64 * i && nsl == 64
          invariant i == count ==> done == sl
          invariant RightShiftState(W, V0, bits0, bytes0, words0, done, i, abs, sizeInBits, sizeInBytes, sizeInWords)
        {
          if i == count - 1 {
            nsl := lastValue;
          }
          RightStep(W, V0, bits0, bytes0, words0, done, i, nsl);
          done := done + nsl;
        }
        RightShiftEnd(W, V0, bits0, bytes0, words0, sl, count, abs, sizeInBits, sizeInBytes, sizeInWords);
      }
    }

    /** One step of ShiftRight's loop: a SmallShiftRight by nsl, which moves the loop's
        state on by nsl bits. */
    method RightStep(ghost W: seq<Word>, ghost V0: nat, ghost bits0: nat, ghost bytes0: nat,
                     ghost words0: nat, ghost done: nat, ghost steps: nat, nsl: Word)
      requires 0 < nsl <= 64 && done == 64 * steps
      requires RightShiftState(W, V0, bits0, bytes0, words0, done, steps, abs, sizeInBits, sizeInBytes, sizeInWords)
      modifies this
      ensures RightShiftState(W, V0, bits0, bytes0, words0, done + nsl, steps + 1,
                              abs, sizeInBits, sizeInBytes, sizeInWords)
    {
      ghost var ws, bits, bytes, words := abs, sizeInBits, sizeInBytes, sizeInWords;
      RightShiftInRange(abs, sizeInBits, nsl);
      SmallShiftRight(nsl);
      RightShiftAdvance(W, V0, bits0, bytes0, words0, done, steps, ws, bits, bytes, words,
                        nsl, abs, sizeInBits, sizeInBytes, sizeInWords);
    }

    /** AndUint64: AND x into the low word only, then trim; nothing happens without words.
        The higher words stay as they are, so the number becomes the AND of x with the
        number exactly when there are no non-zero higher words. The sizes are not touched. */
    method AndUint64(x: Word)
      modifies this`abs
      ensures |old(abs)| == 0 ==> abs == old(abs)
      ensures |old(abs)| > 0 ==>
                Trimmed(abs) && Val(abs) == Place(BitAnd(old(abs)[0], x), Val(old(abs)[1..]), 64)
      ensures |old(abs)| > 0 ==> (Val(abs) == BitAnd(old(Val(abs)), x) <==> Val(old(abs)[1..]) == 0)
    {
      if |abs| > 0 {
        ghost var W := abs;
        abs := abs[0 := And(abs[0], x)];
        ReplaceLowWord(W, And(W[0], x));
        AndLowWordMeaning(W, x);
        abs := RemoveMostSignificantZeroesFromWords(abs);
      }
    }

    /** OrUint64: OR x into the low word, then trim: the number ORed with x. Go faults when
        there are no words. The sizes are not touched. */
    method OrUint64(x: Word)
      requires |abs| > 0
      modifies this`abs
      ensures Trimmed(abs) && Val(abs) == BitOr(old(Val(abs)), x)
    {
      ghost var W := abs;
      abs := abs[0 := Or(abs[0], x)];
      ReplaceLowWord(W, Or(W[0], x));
      OrLowWordMeaning(W, x);
      abs := RemoveMostSignificantZeroesFromWords(abs);
    }

    /** The loop AndBytes runs: AND the first n words of ws into the first n words. */
    method AndInto(ws: seq<Word>, n: nat)
      requires n <= |abs| && n <= |ws|
      modifies this`abs
      ensures abs == AndWords(old(abs)[..n], ws[..n]) + old(abs)[n..]
    {
      ghost var W := abs;
      for i := 0 to n
        invariant |abs| == |W|
        invariant forall j :: 0 <= j < |W| ==> abs[j] == if j < i then And(W[j], ws[j]) else W[j]
      {
        abs := abs[i := And(abs[i], ws[i])];
      }
    }

    /** The loop OrBytes runs: OR the first n words of ws into the first n words. */
    method OrInto(ws: seq<Word>, n: nat)
      requires n <= |abs| && n <= |ws|
      modifies this`abs
      ensures abs == OrWords(old(abs)[..n], ws[..n]) + old(abs)[n..]
    {
      ghost var W := abs;
      for i := 0 to n
        invariant |abs| == |W|
        invariant forall j :: 0 <= j < |W| ==> abs[j] == if j < i then Or(W[j], ws[j]) else W[j]
      {
        abs := abs[i := Or(abs[i], ws[i])];
      }
    }

    /** The loop AndBytes runs on an empty input: every word set to zero. */
    method ClearWords()
      modifies this`abs
      ensures abs == Repeat<Word>(0, |old(abs)|)
    {
      ghost var n := |abs|;
      for i := 0 to |abs|
        invariant |abs| == n
        invariant forall j :: 0 <= j < i ==> abs[j] == 0
      {
        abs := abs[i := 0];
      }
    }

    /** AndBytes: AND the number of a little-endian byte string into the number. An empty
        string reads as zero and clears every word. When the words are fewer than the
        input's, they are ANDed in place and not trimmed; otherwise the words above the
        input's are dropped and the rest trimmed. The sizes are not touched. */
    method AndBytes(input: seq<Byte>)
      modifies this`abs
      ensures Val(abs) == BitAnd(old(Val(abs)), ValB(input))
      ensures |input| == 0 ==> |abs| == |old(abs)|
      ensures |input| > 0 && |old(abs)| < WordCount(ValB(input)) ==> |abs| == |old(abs)|
      ensures |input| > 0 && |old(abs)| >= WordCount(ValB(input)) ==> Trimmed(abs)
    {
      ghost var W := abs;
      if |input| > 0 {
        var intIn := new Int();
        intIn.SetBytes(input);
        var intInWords := intIn.Words();
        if |abs| < |intInWords| {
          AndInto(intInWords, |abs|);
          assert W[..|W|] == W && W[|W|..] == [] && abs == AndWords(W, intInWords[..|W|]);
          AndShorter(W, intInWords);
        } else {
          var m := |intInWords|;
          AndInto(intInWords, m);
          assert intInWords[..m] == intInWords && abs[0..m] == AndWords(W[..m], intInWords);
          AndLonger(W, intInWords);
          abs := RemoveMostSignificantZeroesFromWords(abs[0..m]);
        }
      } else {
        ClearWords();
        ValueZero(abs, 64);
        BitAndZero(Val(W));
      }
    }

    /** OrBytes: OR the number of a little-endian byte string into the number, then trim;
        an empty string changes nothing. When the words are fewer than the input's, the
        words are ORed into the input's words, which then become the words. The sizes are
        not touched. */
    method OrBytes(input: seq<Byte>)
      modifies this`abs
      ensures Val(abs) == BitOr(old(Val(abs)), ValB(input))
      ensures |input| == 0 ==> abs == old(abs)
      ensures |input| > 0 ==> Trimmed(abs)
    {
      ghost var W := abs;
      if |input| != 0 {
        var intIn := new Int();
        intIn.SetBytes(input);
        var intInWords := intIn.Words();
        if |abs| < |intInWords| {
          intIn.OrInto(abs, |abs|);
          assert W[..|W|] == W && intIn.abs == OrWords(intInWords[..|W|], W) + intInWords[|W|..];
          OrShorter(W, intInWords);
          abs := intIn.Words();
        } else {
          var m := |intInWords|;
          OrInto(intInWords, m);
          assert intInWords[..m] == intInWords;
          OrShorter(intInWords, W);
          BitOrComm(Val(W), Val(intInWords));
        }
        abs := RemoveMostSignificantZeroesFromWords(abs);
      } else {
        BitOrZero(Val(W));
      }
    }
  }

  /** What SmallShiftRight does, as a relation between the words and sizes before (W, bits0,
      bytes0, words0) and after (ws, bits, bytes, words):
      - no words, or a zero top word: nothing changes;
      - a shift past the recorded bit count: the words are emptied and the sizes kept;
      - otherwise the bit count drops by sr and the other sizes follow it, and the kept words,
        trimmed, are the quotient by 2^sr cut to them (nothing for sr > 64);
      - with matching bits the value becomes exactly the quotient and the bits still match. */
  ghost predicate SmallShiftRightPost(W: seq<Word>, bits0: nat, bytes0: nat, words0: nat, sr: Word,
                                      ws: seq<Word>, bits: nat, bytes: nat, words: nat)
  {
    (|W| == 0 || W[|W| - 1] == 0 ==>
       ws == W && bits == bits0 && bytes == bytes0 && words == words0) &&
    (|W| > 0 && W[|W| - 1] > 0 && sr > bits0 ==>
       ws == [] && bits == bits0 && bytes == bytes0 && words == words0) &&
    (|W| > 0 && W[|W| - 1] > 0 && sr <= bits0 ==>
       bits == bits0 - sr && bytes == SizeInBytes(bits) && words == SizeInWordsFromBits(bits) &&
       Trimmed(ws) && |ws| <= words &&
       (sr <= 64 ==> Val(ws) == (Val(W) / Pow2(sr)) % Pow2(64 * words)) &&
       (sr > 64 ==> ws == [])) &&
    (BitsMatch(W, bits0) ==> BitsMatch(ws, bits)) &&
    (BitsMatch(W, bits0) && sr <= 64 ==> Val(ws) == Val(W) / Pow2(sr))
  }

  /** What ShiftRight does to words and sizes (W, bits0, bytes0, words0) for a shift by sl:
      - no words, or a zero top word: nothing changes;
      - with matching bits, the value is divided by 2^sl, the bits still match, and a
        non-zero number is left trimmed;
      - a non-zero number of at least sl bits loses exactly sl bits, and the other sizes
        follow the bit count;
      - a non-zero number of fewer than sl bits ends with no words. Every whole 64-bit step
        that fits in its bits is taken, so the bit count is left at bits0 % 64. The other
        sizes are those of the last step taken: unchanged when no step was taken
        (bits0 < 64), and following the bit count otherwise. */
  ghost predicate ShiftRightPost(W: seq<Word>, bits0: nat, bytes0: nat, words0: nat, sl: nat,
                                 ws: seq<Word>, bits: nat, bytes: nat, words: nat)
  {
    (|W| == 0 || W[|W| - 1] == 0 ==>
       ws == W && bits == bits0 && bytes == bytes0 && words == words0) &&
    (BitsMatch(W, bits0) ==> BitsMatch(ws, bits) && Val(ws) == Val(W) / Pow2(sl)) &&
    (BitsMatch(W, bits0) && Val(W) > 0 ==> Trimmed(ws)) &&
    (BitsMatch(W, bits0) && Val(W) > 0 && sl <= bits0 ==>
       bits == bits0 - sl && bytes == SizeInBytes(bits) && words == SizeInWordsFromBits(bits)) &&
    (BitsMatch(W, bits0) && Val(W) > 0 && sl > bits0 ==>
       ws == [] && bits == bits0 % 64 &&
       (bits0 < 64 ==> bytes == bytes0 && words == words0) &&
       (bits0 >= 64 ==> bytes == SizeInBytes(bits) && words == SizeInWordsFromBits(bits)))
  }

  /** A shift by at most 64 bits is one SmallShiftRight, which does what ShiftRight promises. */
  lemma SmallShiftRightAlone(W: seq<Word>, bits0: nat, bytes0: nat, words0: nat, sl: Word,
                             ws: seq<Word>, bits: nat, bytes: nat, words: nat)
    requires sl <= 64
    requires SmallShiftRightPost(W, bits0, bytes0, words0, sl, ws, bits, bytes, words)
    ensures ShiftRightPost(W, bits0, bytes0, words0, sl, ws, bits, bytes, words)
  {
    if BitsMatch(W, bits0) && Val(W) > 0 {
      assert W[|W| - 1] > 0;
      if sl > bits0 {
        DivModUnique(bits0, 64, 0, bits0);
      }
    }
  }

  /** Where ShiftRight's loop stands once it has shifted by done bits in steps steps, starting
      from words W (value V0) whose bits match: the bits still match and the number is the
      quotient by 2^done. A zero number is never touched. A non-zero number is left trimmed;
      while done is within its bit count, the bit count dropped by done; past it, the words are
      gone and the sizes are those of the last step that fitted. */
  ghost predicate RightShiftState(W: seq<Word>, V0: nat, bits0: nat, bytes0: nat, words0: nat,
                                  done: nat, steps: nat,
                                  ws: seq<Word>, bits: nat, bytes: nat, words: nat)
  {
    V0 == Val(W) && BitsMatch(W, bits0) &&
    BitsMatch(ws, bits) && Val(ws) == V0 / Pow2(done) &&
    (steps == 0 ==> done == 0) &&
    (steps == 0 || V0 == 0 ==> ws == W && bits == bits0 && bytes == bytes0 && words == words0) &&
    (V0 > 0 && steps > 0 ==> Trimmed(ws)) &&
    (V0 > 0 && steps > 0 && done <= bits0 ==>
       bits == bits0 - done && bytes == SizeInBytes(bits) && words == SizeInWordsFromBits(bits)) &&
    (V0 > 0 && done > bits0 ==>
       ws == [] && bits == bits0 % 64 &&
       (bits0 < 64 ==> bytes == bytes0 && words == words0) &&
       (bits0 >= 64 ==> bytes == SizeInBytes(bits) && words == SizeInWordsFromBits(bits)))
  }

  /** Before ShiftRight's loop: nothing shifted yet. */
  lemma RightShiftStart(W: seq<Word>, bits0: nat, bytes0: nat, words0: nat)
    requires BitsMatch(W, bits0)
    ensures RightShiftState(W, Val(W), bits0, bytes0, words0, 0, 0, W, bits0, bytes0, words0)
  {
    assert Pow2(0) == 1;
    DivModUnique(Val(W), 1, Val(W), 0);
  }

  /** After ShiftRight's loop: the state reached by the whole shift is what ShiftRight
      promises. */
  lemma RightShiftEnd(W: seq<Word>, V0: nat, bits0: nat, bytes0: nat, words0: nat, sl: nat, steps: nat,
                      ws: seq<Word>, bits: nat, bytes: nat, words: nat)
    requires steps > 0
    requires RightShiftState(W, V0, bits0, bytes0, words0, sl, steps, ws, bits, bytes, words)
    ensures ShiftRightPost(W, bits0, bytes0, words0, sl, ws, bits, bytes, words)
  {
    if |W| == 0 || W[|W| - 1] == 0 {
      assert V0 == 0;
    }
  }

  /** One SmallShiftRight by 0 < nsl <= 64 (its contract, on the words and sizes before and
      after) moves ShiftRight's loop on by nsl bits. Every step before the last is 64 bits. */
  lemma RightShiftAdvance(W: seq<Word>, V0: nat, bits0: nat, bytes0: nat, words0: nat,
                          done: nat, steps: nat, ws: seq<Word>, bits: nat, bytes: nat, words: nat,
                          nsl: Word, ws2: seq<Word>, bits2: nat, bytes2: nat, words2: nat)
    requires RightShiftState(W, V0, bits0, bytes0, words0, done, steps, ws, bits, bytes, words)
    requires 0 < nsl <= 64 && done == 64 * steps
    requires SmallShiftRightPost(ws, bits, bytes, words, nsl, ws2, bits2, bytes2, words2)
    ensures RightShiftState(W, V0, bits0, bytes0, words0, done + nsl, steps + 1,
                            ws2, bits2, bytes2, words2)
  {
    if V0 == 0 {
      AdvanceZero(W, bits0, bytes0, words0, done, steps, nsl, ws2, bits2, bytes2, words2);
    } else if done > bits0 {
      AdvancePast(W, V0, bits0, bytes0, words0, done, steps, nsl, ws2, bits2, bytes2, words2);
    } else {
      assert bits == bits0 - done;
      assert BitLen(Val(ws)) == bits by {
        BitLenDiv(V0, done);
      }
      if nsl <= bits {
        AdvanceShift(W, V0, bits0, bytes0, words0, done, steps, ws, bits, bytes, words,
                     nsl, ws2, bits2, bytes2, words2);
      } else {
        AdvanceStop(W, V0, bits0, bytes0, words0, done, steps, ws, bits, bytes, words,
                    nsl, ws2, bits2, bytes2, words2);
      }
    }
  }

  /** A zero number: every step finds no words or a zero top word, and changes nothing. */
  lemma AdvanceZero(W: seq<Word>, bits0: nat, bytes0: nat, words0: nat, done: nat, steps: nat,
                    nsl: Word, ws2: seq<Word>, bits2: nat, bytes2: nat, words2: nat)
    requires RightShiftState(W, 0, bits0, bytes0, words0, done, steps, W, bits0, bytes0, words0)
    requires SmallShiftRightPost(W, bits0, bytes0, words0, nsl, ws2, bits2, bytes2, words2)
    ensures RightShiftState(W, 0, bits0, bytes0, words0, done + nsl, steps + 1,
                            ws2, bits2, bytes2, words2)
  {
    ValueZero(W, 64);
    assert ws2 == W;
    DivZero(0, Pow2(done + nsl));
  }

  /** A non-zero number already shifted past its bits: no words are left, and the step changes
      nothing. */
  lemma AdvancePast(W: seq<Word>, V0: nat, bits0: nat, bytes0: nat, words0: nat, done: nat, steps: nat,
                    nsl: Word, ws2: seq<Word>, bits2: nat, bytes2: nat, words2: nat)
    requires V0 > 0 && done > bits0
    requires RightShiftState(W, V0, bits0, bytes0, words0, done, steps, [], bits2, bytes2, words2)
    ensures RightShiftState(W, V0, bits0, bytes0, words0, done + nsl, steps + 1,
                            [], bits2, bytes2, words2)
  {
    assert bits0 == BitLen(V0);
    RightShiftPast(V0, done + nsl);
  }

  /** A step that fits in the bits left: the bit count drops by nsl and the quotient grows. */
  lemma AdvanceShift(W: seq<Word>, V0: nat, bits0: nat, bytes0: nat, words0: nat, done: nat, steps: nat,
                     ws: seq<Word>, bits: nat, bytes: nat, words: nat,
                     nsl: Word, ws2: seq<Word>, bits2: nat, bytes2: nat, words2: nat)
    requires V0 > 0 && done <= bits0 && bits == bits0 - done && BitLen(Val(ws)) == bits
    requires RightShiftState(W, V0, bits0, bytes0, words0, done, steps, ws, bits, bytes, words)
    requires 0 < nsl <= 64 && nsl <= bits
    requires SmallShiftRightPost(ws, bits, bytes, words, nsl, ws2, bits2, bytes2, words2)
    ensures RightShiftState(W, V0, bits0, bytes0, words0, done + nsl, steps + 1,
                            ws2, bits2, bytes2, words2)
  {
    assert Val(ws) != 0 && ws[|ws| - 1] > 0;
    DivDiv(V0, done, nsl);
  }

  /** The step that runs past the bits left: a non-zero remainder empties the words and keeps
      the sizes; a zero remainder had already left no words. Either way the bit count is what
      the whole 64-bit steps left of bits0, namely bits0 % 64. */
  lemma AdvanceStop(W: seq<Word>, V0: nat, bits0: nat, bytes0: nat, words0: nat, done: nat, steps: nat,
                    ws: seq<Word>, bits: nat, bytes: nat, words: nat,
                    nsl: Word, ws2: seq<Word>, bits2: nat, bytes2: nat, words2: nat)
    requires V0 > 0 && done <= bits0 && bits == bits0 - done && BitLen(Val(ws)) == bits
    requires RightShiftState(W, V0, bits0, bytes0, words0, done, steps, ws, bits, bytes, words)
    requires 0 < nsl <= 64 && bits < nsl && done == 64 * steps
    requires SmallShiftRightPost(ws, bits, bytes, words, nsl, ws2, bits2, bytes2, words2)
    ensures RightShiftState(W, V0, bits0, bytes0, words0, done + nsl, steps + 1,
                            ws2, bits2, bytes2, words2)
  {
    assert bits0 == BitLen(V0);
    DivModUnique(bits0, 64, steps, bits);
    RightShiftPast(V0, done + nsl);
    if Val(ws) == 0 {
      assert steps > 0;
      ValueZero(ws, 64);
      assert ws == [];
    } else {
      assert ws[|ws| - 1] > 0;
    }
  }

  /** Where ShiftLeft's loop stands once it has shifted by done bits (steps: the steps taken
      so far): the bit count grew by done, the words grew to what that count needs,
      and, when the bits matched at the start, the number was multiplied by 2^done. */
  ghost predicate LeftShiftState(W: seq<Word>, bits0: nat, words0: nat, c0: bool, V0: nat, done: nat,
                                 steps: nat, ws: seq<Word>, bits: nat, words: nat)
  {
    (steps == 0 || |W| == 0 ==> ws == W && bits == bits0 && words == words0) &&
    (steps == 0 ==> done == 0) &&
    (|W| > 0 ==> bits == bits0 + done) &&
    (|W| > 0 && steps > 0 ==> words == |ws| && |ws| == GrownLength(|W|, bits)) &&
    (c0 ==> BitsMatch(ws, bits) && Val(ws) == V0 * Pow2(done))
  }

  /** One SmallShiftLeft by nsl <= 64 (its contract, on the words and sizes before and
      after) moves ShiftLeft's loop on by nsl bits. */
  lemma LeftShiftAdvance(W: seq<Word>, bits0: nat, words0: nat, c0: bool, V0: nat, done: nat,
                         steps: nat, ws: seq<Word>, bits: nat, words: nat,
                         nsl: nat, ws2: seq<Word>, bits2: nat, words2: nat)
    requires LeftShiftState(W, bits0, words0, c0, V0, done, steps, ws, bits, words)
    requires nsl <= 64
    requires |ws| == 0 ==> ws2 == ws && bits2 == bits && words2 == words
    requires |ws| > 0 ==> bits2 == bits + nsl && |ws2| == GrownLength(|ws|, bits2) && words2 == |ws2|
    requires BitsMatch(ws, bits) ==> BitsMatch(ws2, bits2) && Val(ws2) == Val(ws) * Pow2(nsl)
    ensures LeftShiftState(W, bits0, words0, c0, V0, done + nsl, steps + 1, ws2, bits2, words2)
  {
    if |W| > 0 && steps > 0 {
      GrownLengthTwice(|W|, bits, bits2);
    }
    if c0 {
      MulPow2Step(V0, done, nsl, Val(ws), Val(ws2));
    }
  }

  /** SetBytes' loop: the bytes, padded with zeros to whole words, read eight at a time
      into successive words. */
  method Unpack(trimmed: seq<Byte>) returns (words: seq<Word>)
    ensures |words| == SizeInWordsFromBytes(|trimmed|)
    ensures Flatten(words) == trimmed + Repeat<Byte>(0, 8 * |words| - |trimmed|)
  {
    var lenInWords := SizeInWordsFromBytes(|trimmed|);
    words := Repeat<Word>(0, lenInWords);
    var tmpIn := trimmed + Repeat<Byte>(0, 8 * lenInWords - |trimmed|);
    for i := 0 to lenInWords
      invariant |words| == lenInWords
      invariant Flatten(words[..i]) == tmpIn[..8 * i]
    {
      ghost var before := words;
      words := words[i := LeUint64(tmpIn[8 * i .. 8 * i + 8])];
      UnpackStep(before, i, tmpIn);
    }
    assert words[..lenInWords] == words && tmpIn[..8 * lenInWords] == tmpIn;
  }

  /** One step of SetBytes' loop: decoding the next eight bytes into word i extends the
      unpacked prefix by those bytes. */
  lemma UnpackStep(ws: seq<Word>, i: nat, bs: seq<Byte>)
    requires i < |ws| && |bs| == 8 * |ws| && Flatten(ws[..i]) == bs[..8 * i]
    ensures Flatten(ws[i := LeUint64(bs[8 * i .. 8 * i + 8])][..i + 1]) == bs[..8 * i + 8]
  {
    var chunk := bs[8 * i .. 8 * i + 8];
    var ws' := ws[i := LeUint64(chunk)];
    assert ws'[..i + 1][..i] == ws[..i];
    assert bs[..8 * i + 8] == bs[..8 * i] + chunk;
  }

  /** One step of Bytes' loop: writing word i into its eight bytes extends the packed
      prefix by that word. */
  lemma PackStep(ws: seq<Word>, i: nat, before: seq<Byte>, after: seq<Byte>)
    requires i < |ws| && |before| == 8 * |ws| && before[..8 * i] == Flatten(ws[..i])
    requires after == before[..8 * i] + LePutUint64(ws[i]) + before[8 * i + 8..]
    ensures |after| == 8 * |ws| && after[..8 * i + 8] == Flatten(ws[..i + 1])
  {
    assert ws[..i + 1][..i] == ws[..i];
    assert after[..8 * i + 8] == before[..8 * i] + LePutUint64(ws[i]);
  }

  /** Packing a canonical byte string into the fewest words gives a canonical word slice. */
  lemma PackedCanonical(ws: seq<Word>, bs: seq<Byte>)
    requires Canonical(bs) && Val(ws) == ValB(bs) && |ws| == SizeInWordsFromBytes(|bs|)
    ensures Canonical(ws)
  {
    if |ws| > 1 {
      assert |bs| > 8 * (|ws| - 1) && |bs| > 1;
      TopByteBits(bs);
      WordsTopFromBits(ws);
    }
  }

  /** What SetBytes' words are: the canonical spelling of the input's number, as long as
      that number needs, unpacked from the trimmed bytes padded with zeros. */
  lemma Unpacked(ws: seq<Word>, trimmed: seq<Byte>, input: seq<Byte>)
    requires Canonical(trimmed) && ValB(trimmed) == ValB(input)
    requires |ws| == SizeInWordsFromBytes(|trimmed|)
    requires Flatten(ws) == trimmed + Repeat<Byte>(0, 8 * |ws| - |trimmed|)
    ensures Val(ws) == ValB(input) && Canonical(ws)
    ensures |trimmed| == ByteCount(ValB(input)) && |ws| == WordCount(ValB(input))
  {
    FlattenValue(ws);
    ZerosOnTop(trimmed, Repeat<Byte>(0, 8 * |ws| - |trimmed|), 8);
    CanonicalByteCount(trimmed);
    PackedCanonical(ws, trimmed);
    CanonicalWordCount(ws);
  }

  /** The bit count SetBytes records for its words is the input number's minimal bit count,
      and matches the words. */
  lemma Loaded(ws: seq<Word>, input: seq<Byte>, bits: nat)
    requires Canonical(ws) && Val(ws) == ValB(input)
    requires bits == (var b := 64 * |ws| - LeadingZeros64(ws[|ws| - 1]); if b == 0 then 1 else b)
    ensures bits == MinBits(ValB(input)) && BitsMatch(ws, bits)
  {
    RecordedBits(ws);
    CanonicalMatch(ws);
  }

  /** What SmallShiftLeft leaves: the grown words W + zeros shifted left, which is the
      product by 2^sl cut to the words for shifts up to 64 bits, and zeros beyond; with
      matching bits nothing is cut off and the new bit count matches the product. */
  lemma LeftShifted(W: seq<Word>, bits0: nat, sl: Word, E: seq<Word>, out: seq<Word>)
    requires |W| > 0 && |W| <= |E| && E == W + Repeat<Word>(0, |E| - |W|)
    requires |E| == |W| || |E| == SizeInWordsFromBits(bits0 + sl)
    requires |E| >= SizeInWordsFromBits(bits0 + sl)
    requires out == ShiftedLeft(E, sl)
    ensures sl <= 64 ==> Val(out) == (Val(W) * Pow2(sl)) % Pow2(64 * |out|)
    ensures sl > 64 ==> forall j :: 0 <= j < |out| ==> out[j] == 0
    ensures BitsMatch(W, bits0) ==> BitsMatch(out, bits0 + sl) && (sl <= 64 ==> Val(out) == Val(W) * Pow2(sl))
  {
    ZerosOnTop(W, Repeat<Word>(0, |E| - |W|), 64);
    var V := Val(W);
    if sl <= 64 {
      ShiftedLeftValue(E, sl);
      if BitsMatch(W, bits0) {
        LeftShiftMatches(W, bits0, sl, |E|, out);
      }
    } else {
      ShiftedLeftWide(E, sl);
      ValueZero(out, 64);
    }
  }

  /** A left shift by sl <= 64 of words whose bits match, into enough words: nothing is
      cut off, and bits0 + sl matches the result. */
  lemma LeftShiftMatches(W: seq<Word>, bits0: nat, sl: Word, n: nat, out: seq<Word>)
    requires sl <= 64 && 0 < |W| <= n && |out| == n && BitsMatch(W, bits0)
    requires n == |W| || n == SizeInWordsFromBits(bits0 + sl)
    requires n >= SizeInWordsFromBits(bits0 + sl)
    requires Val(out) == (Val(W) * Pow2(sl)) % Pow2(64 * n)
    ensures BitsMatch(out, bits0 + sl) && Val(out) == Val(W) * Pow2(sl)
  {
    if Val(W) == 0 {
      ZeroProduct(Val(W), Pow2(sl), Pow2(64 * n), Val(out));
    } else {
      LeftShiftGrows(W, bits0, sl, n, out);
    }
  }

  /** The non-zero case of LeftShiftMatches: the top word of the result is non-zero and
      its bit length is bits0 + sl. */
  lemma LeftShiftGrows(W: seq<Word>, bits0: nat, sl: Word, n: nat, out: seq<Word>)
    requires sl <= 64 && 0 < |W| <= n && |out| == n
    requires W[|W| - 1] != 0 && bits0 == BitLen(Val(W))
    requires n == |W| || n == SizeInWordsFromBits(bits0 + sl)
    requires n >= SizeInWordsFromBits(bits0 + sl)
    requires Val(out) == (Val(W) * Pow2(sl)) % Pow2(64 * n)
    ensures out[|out| - 1] != 0 && Val(out) == Val(W) * Pow2(sl) && BitLen(Val(out)) == bits0 + sl
  {
    TopWordBits(W);
    assert 64 * (n - 1) < bits0 + sl;
    LeftShiftFits(Val(W), sl, n);
    WordsTopFromBits(out);
  }

  /** The canonical words of the eight bytes of x are [x]. */
  lemma LoadedWord(x: Word, ws: seq<Word>)
    requires Canonical(ws) && Val(ws) == ValB(LePutUint64(x))
    ensures ValB(LePutUint64(x)) == x && ws == [x]
  {
    PutThenUint64(x);
    WordsBelow(ws);
    WordsBelow([x]);
    ValueSingle(x, 64);
    CanonicalUnique(ws, [x], 64);
  }

  /** Shifting zero gives zero, whatever is cut off. */
  lemma ZeroProduct(v: nat, x: nat, P: nat, r: nat)
    requires P > 0 && v == 0 && r == (v * x) % P
    ensures r == 0 && v * x == 0
  {
  }

  /** What SmallShiftRight leaves when it shifts: the kept words, trimmed, are the quotient
      cut to the kept words for shifts up to 64 bits and nothing beyond; with matching bits
      the quotient is whole and the new bit count matches it. */
  lemma RightShifted(W: seq<Word>, bits0: nat, sr: Word, out: seq<Word>)
    requires |W| > 0 && W[|W| - 1] > 0 && sr <= bits0
    requires SizeInWordsFromBits(bits0 - sr) <= |W|
    requires Trimmed(out) && Val(out) == Val(ShiftedRight(W, sr)[0..SizeInWordsFromBits(bits0 - sr)])
    ensures sr <= 64 ==> Val(out) == (Val(W) / Pow2(sr)) % Pow2(64 * SizeInWordsFromBits(bits0 - sr))
    ensures sr > 64 ==> out == []
    ensures BitsMatch(W, bits0) ==> BitsMatch(out, bits0 - sr) && (sr <= 64 ==> Val(out) == Val(W) / Pow2(sr))
  {
    var k := SizeInWordsFromBits(bits0 - sr);
    var kept := ShiftedRight(W, sr)[0..k];
    if sr <= 64 {
      RightShiftPrefix(W, sr, k);
      if BitsMatch(W, bits0) {
        RightShiftMatches(W, bits0, sr, k, out);
      }
    } else {
      ShiftedRightWide(W, sr);
      ValueZero(kept, 64);
      ValueZero(out, 64);
    }
  }

  /** A right shift by sr <= 64 of words whose bits match: the kept words hold the whole
      quotient, and bits0 - sr matches it. */
  lemma RightShiftMatches(W: seq<Word>, bits0: nat, sr: Word, k: nat, out: seq<Word>)
    requires sr <= 64 && |W| > 0 && W[|W| - 1] > 0 && sr <= bits0 && BitsMatch(W, bits0)
    requires k == SizeInWordsFromBits(bits0 - sr)
    requires Trimmed(out) && Val(out) == (Val(W) / Pow2(sr)) % Pow2(64 * k)
    ensures BitsMatch(out, bits0 - sr) && Val(out) == Val(W) / Pow2(sr)
  {
    var V := Val(W);
    assert V != 0 && bits0 == BitLen(V) by {
      TopWordBits(W);
    }
    var q := Div(V, Pow2(sr));
    RightShiftFits(V, sr);
    assert Val(out) == q;
    if q != 0 {
      assert out != [];
    }
  }

  /** When SmallShiftRight does not shift, the number was zero or shifts right to zero. */
  lemma RightShiftIdle(W: seq<Word>, bits0: nat, sr: Word)
    requires BitsMatch(W, bits0)
    ensures |W| == 0 || W[|W| - 1] == 0 ==> Val(W) == 0
    ensures (|W| == 0 || W[|W| - 1] == 0 || sr > bits0) ==> Val(W) / Pow2(sr) == 0
  {
    if |W| > 0 && W[|W| - 1] > 0 && sr > bits0 {
      RightShiftPast(Val(W), sr);
    } else if |W| == 0 || W[|W| - 1] == 0 {
      DivZero(0, Pow2(sr));
    }
  }

  /** The bytes in the opposite order. */
  function Reverse(s: seq<Byte>): (r: seq<Byte>)
    ensures |r| == |s| && forall k :: 0 <= k < |s| ==> r[k] == s[|s| - 1 - k]
  {
    if s == [] then [] else Reverse(s[1..]) + [s[0]]
  }

  /** Reversing twice gives the bytes back. */
  lemma ReverseTwice(s: seq<Byte>)
    ensures Reverse(Reverse(s)) == s
  {
  }

  /** ReverseSliceOfBytes: reverse a byte slice in place, swapping from the middle outwards. */
  method ReverseSliceOfBytes(a: array<Byte>)
    modifies a
    ensures a[..] == Reverse(old(a[..]))
  {
    ghost var s := a[..];
    var n := a.Length;
    var i: int := n / 2 - 1;
    while i >= 0
      invariant -1 <= i <= n / 2 - 1
      invariant forall k :: 0 <= k < n ==> a[k] == s[if i < k < n - 1 - i then n - 1 - k else k]
      decreases i + 1
    {
      var opp := n - 1 - i;
      a[i], a[opp] := a[opp], a[i];
      i := i - 1;
    }
  }
}
