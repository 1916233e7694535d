/** Facts about the word slice of an Int that its methods rely on: what the recorded bit
    count has to match for the shifts to be exact, what the byte recount keeps, and what
    each shift step does to the number. */
module IntFacts {
  import opened Naturals
  import opened Digits
  import opened Machine
  import opened Sizes
  import opened WordOps
  import opened Layout

  /** The recorded bit count matches the words: the value is zero, or its top word is
      non-zero and bits is its bit length. SetBytes establishes this; the shifts keep it;
      AND and OR leave bits as it was and so may break it. */
  predicate BitsMatch(ws: seq<Word>, bits: nat)
  {
    Val(ws) == 0 || (|ws| > 0 && ws[|ws| - 1] != 0 && bits == BitLen(Val(ws)))
  }

  /** A canonical slice matches the bit count SetBytes records for it. */
  lemma CanonicalMatch(ws: seq<Word>)
    requires Canonical(ws)
    ensures BitsMatch(ws, MinBits(Val(ws)))
  {
    if ws[|ws| - 1] == 0 {
      ValueZero(ws, 64);
    }
  }

  /** A word slice whose value needs more than |ws| - 1 words has a non-zero top word. */
  lemma WordsTopFromBits(ws: seq<Word>)
    requires |ws| > 0 && 64 * (|ws| - 1) < BitLen(Val(ws))
    ensures ws[|ws| - 1] != 0
  {
    var v := Val(ws);
    BitLenBounds(v);
    Pow2Le(64 * (|ws| - 1), BitLen(v) - 1);
    WordsBelow(ws);
    assert Width(64, |ws| - 1) == 64 * (|ws| - 1);
    TopDigitNonZero(ws, 64);
  }

  /** The low word of a slice is its value modulo 2^64. */
  lemma LowWord(ws: seq<Word>)
    ensures Val(ws) % WordBase == if |ws| > 0 then ws[0] else 0
  {
    WordBaseIsPow2();
    if |ws| > 0 {
      ValueCons(ws, 64);
      PlaceDivMod(ws[0], Val(ws[1..]), 64);
    }
  }

  /** With matching bits, a non-zero number has exactly the words its bit count needs. */
  lemma BitsMatchWords(ws: seq<Word>, bits: nat)
    ensures BitsMatch(ws, bits) && Val(ws) > 0 ==> |ws| == SizeInWordsFromBits(bits)
  {
    if BitsMatch(ws, bits) && Val(ws) > 0 {
      TopWordCount(ws);
    }
  }

  /** Word j after SmallShiftRight's loop is the low word of the words from j up, divided
      by 2^sr: the carry from word j + 1 supplies exactly the bits the division brings down. */
  lemma RightWordMeaning(ws: seq<Word>, sr: Word, j: nat)
    requires j < |ws| && sr <= 64
    ensures RightWord(ws, sr, j) == (Val(ws[j..]) / Pow2(sr)) % WordBase
  {
    var t := ws[j..];
    assert RightWord(ws, sr, j) == RightWord(t, sr, 0);
    ShiftedRightValue(t, sr);
    LowWord(ShiftedRight(t, sr));
  }

  /** Word j after SmallShiftLeft's loop is word j of the number the words up to j stand
      for, multiplied by 2^sl: the carry from word j - 1 supplies exactly the bits the
      multiplication pushes up. */
  lemma LeftWordMeaning(ws: seq<Word>, sl: Word, j: nat)
    requires j < |ws| && sl <= 64
    ensures LeftWord(ws, sl, j) == (Val(ws[..j + 1]) * Pow2(sl) / Pow2(64 * j)) % WordBase
  {
    var p := ws[..j + 1];
    var S := ShiftedLeft(p, sl);
    assert |S| == j + 1;
    var w := S[j];
    LeftWordPrefix(ws, sl, j);
    var X, v := Val(p) * Pow2(sl), Val(S);
    assert v == X % Pow2(64 * (j + 1)) by {
      ShiftedLeftValue(p, sl);
    }
    assert v / Pow2(64 * j) == w by {
      TopWordOf(S);
    }
    WordOfProduct(X, j, v, w);
  }

  /** Word j of a left shift looks at words j and j - 1 only. */
  lemma LeftWordPrefix(ws: seq<Word>, sl: Word, j: nat)
    requires j < |ws|
    ensures ShiftedLeft(ws[..j + 1], sl)[j] == LeftWord(ws, sl, j)
  {
    var p := ws[..j + 1];
    assert p[j] == ws[j];
    if j > 0 {
      assert p[j - 1] == ws[j - 1];
    }
  }

  /** Word j of the low j + 1 words of X is word j of X. */
  lemma WordOfProduct(X: nat, j: nat, v: nat, w: nat)
    requires v == X % Pow2(64 * (j + 1)) && v / Pow2(64 * j) == w
    ensures w == (X / Pow2(64 * j)) % WordBase
  {
    var P, M := Pow2(64 * j), Pow2(64 * (j + 1));
    assert M == P * WordBase by {
      WordBaseIsPow2();
      Pow2Sum(64 * j, 64, 64 * (j + 1));
    }
    ModThenDivAt(X, P, WordBase, M, v);
  }

  /** The top word of a slice is its value divided by the weight of its position. */
  lemma TopWordOf(ws: seq<Word>)
    requires |ws| > 0
    ensures Val(ws) / Pow2(64 * (|ws| - 1)) == ws[|ws| - 1]
  {
    var n := |ws| - 1;
    WordsCut(ws, n);
    assert ws[n..] == [ws[n]];
    ValueSingle(ws[n], 64);
    PlaceDivMod(Val(ws[..n]), ws[n], 64 * n);
  }

  lemma ModThenDivAt(X: nat, P: nat, B: nat, M: nat, v: nat)
    requires P > 0 && B > 0 && M == P * B && v == X % M
    ensures v / P == (X / P) % B
  {
    ModOfProduct(X, P, B);
    DivModUnique(v, P, (X / P) % B, X % P);
  }

  /** Replacing the low word leaves the words above it in place. */
  lemma ReplaceLowWord(ws: seq<Word>, y: Word)
    requires |ws| > 0
    ensures Val(ws[0 := y]) == Place(y, Val(ws[1..]), 64)
  {
    assert ws[0 := y][1..] == ws[1..];
    ValueCons(ws[0 := y], 64);
  }

  /** The bit count SetBytes records for a canonical word slice: 64 bits per word less the
      leading zeros of the top word, and 1 when that leaves 0. */
  lemma RecordedBits(ws: seq<Word>)
    requires Canonical(ws)
    ensures (var b := 64 * |ws| - LeadingZeros64(ws[|ws| - 1]); if b == 0 then 1 else b) == MinBits(Val(ws))
  {
    var top := ws[|ws| - 1];
    var b := 64 * |ws| - LeadingZeros64(top);
    assert b == 64 * (|ws| - 1) + BitLen(top);
    if top != 0 {
      assert BitLen(Val(ws)) == b by {
        WordsBelow(ws);
        TopDigit(ws, 64);
      }
      assert b != 0 && Val(ws) != 0;
    } else {
      assert b == 0 && Val(ws) == 0 by {
        ValueZero(ws, 64);
      }
    }
  }

  /** Bytes keeps recalcSizeInBytes of the words in the byte string it trims: a non-empty
      count no larger than the slice, and large enough for the value. */
  lemma RecalcKeepsValue(ws: seq<Word>)
    requires |ws| > 0
    ensures 0 < RecalcSizeInBytes(ws) <= 8 * |ws|
    ensures Val(ws) < Pow2(8 * RecalcSizeInBytes(ws))
  {
    var r := RecalcSizeInBytes(ws);
    WordsBelow(ws);
    if ws[|ws| - 1] != 0 {
      TopWordBits(ws);
      BitLenBounds(Val(ws));
      Pow2Le(BitLen(Val(ws)), 8 * r);
    } else {
      ValueBound(ws, 64);
      assert Width(64, |ws|) == 8 * r;
    }
  }

  /** Cutting a byte string after k bytes keeps its value when the value fits in k bytes. */
  lemma PrefixKeepsValue(bs: seq<Byte>, k: nat)
    requires k <= |bs| && ValB(bs) < Pow2(8 * k)
    ensures ValB(bs[..k]) == ValB(bs)
  {
    BytesBelow(bs);
    ValueSplit(bs, 8, k);
    assert Width(8, k) == 8 * k;
    DivModUnique(ValB(bs), Pow2(8 * k), 0, ValB(bs));
  }

  /** A number of at most M bits is its own remainder modulo 2^M. */
  lemma FitsBits(x: nat, M: nat)
    requires BitLen(x) <= M
    ensures x % Pow2(M) == x
  {
    BitLenBounds(x);
    Pow2Le(BitLen(x), M);
    DivModUnique(x, Pow2(M), 0, x);
  }

  // ---------------------------------------------------------------------------
  // Right shifts

  /** With matching bits, the slice SmallShiftRight takes is within the words. */
  lemma RightShiftInRange(ws: seq<Word>, bits: nat, sr: nat)
    requires BitsMatch(ws, bits)
    ensures |ws| > 0 && ws[|ws| - 1] > 0 && sr <= bits ==> SizeInWordsFromBits(bits - sr) <= |ws|
  {
    if |ws| > 0 && ws[|ws| - 1] > 0 {
      TopWordCount(ws);
    }
  }

  /** The first k words after a right shift by sr <= 64: the quotient by 2^sr, cut to
      64 * k bits. */
  lemma RightShiftPrefix(ws: seq<Word>, sr: Word, k: nat)
    requires sr <= 64 && k <= |ws|
    ensures Val(ShiftedRight(ws, sr)[..k]) == (Val(ws) / Pow2(sr)) % Pow2(64 * k)
  {
    var s := ShiftedRight(ws, sr);
    ShiftedRightValue(ws, sr);
    WordsBelow(s);
    ValueSplit(s, 64, k);
    assert Width(64, k) == 64 * k;
  }

  /** The quotient by 2^sr of a number of L >= sr bits has L - sr bits, so the words
      SmallShiftRight keeps hold it whole. */
  lemma RightShiftFits(v: nat, sr: nat)
    requires sr <= BitLen(v)
    ensures BitLen(Div(v, Pow2(sr))) == BitLen(v) - sr
    ensures Div(v, Pow2(sr)) % Pow2(64 * SizeInWordsFromBits(BitLen(v) - sr)) == Div(v, Pow2(sr))
  {
    BitLenDiv(v, sr);
    FitsBits(Div(v, Pow2(sr)), 64 * SizeInWordsFromBits(BitLen(v) - sr));
  }

  /** A number shorter than sr bits shifts right to zero. */
  lemma RightShiftPast(v: nat, sr: nat)
    requires BitLen(v) < sr
    ensures v / Pow2(sr) == 0
  {
    BitLenBounds(v);
    Pow2Le(BitLen(v), sr);
    DivZero(v, Pow2(sr));
  }

  // ---------------------------------------------------------------------------
  // Left shifts

  /** A number of L bits shifted left by sl has L + sl bits; in words enough for L + sl
      bits nothing is cut off. */
  lemma LeftShiftFits(v: nat, sl: nat, n: nat)
    requires v > 0 && BitLen(v) + sl <= 64 * n
    ensures BitLen(v * Pow2(sl)) == BitLen(v) + sl
    ensures (v * Pow2(sl)) % Pow2(64 * n) == v * Pow2(sl)
  {
    BitLenMul(v, sl);
    FitsBits(v * Pow2(sl), 64 * n);
  }

  /** Two left shifts in a row shift by the sum: w is v shifted by a, then by b. */
  lemma MulPow2Step(v: nat, a: nat, b: nat, u: nat, w: nat)
    requires u == v * Pow2(a) && w == u * Pow2(b)
    ensures w == v * Pow2(a + b)
  {
    Pow2Add(a, b);
  }

  // ---------------------------------------------------------------------------
  // AND and OR with one word

  /** ANDing only the low word with x gives the AND of the whole number with x exactly
      when every higher word is zero. */
  lemma AndLowWordMeaning(ws: seq<Word>, x: Word)
    requires |ws| > 0
    ensures Place(BitAnd(ws[0], x), Val(ws[1..]), 64) == BitAnd(Val(ws), x) <==> Val(ws[1..]) == 0
  {
    var rest := Val(ws[1..]);
    ValueCons(ws, 64);
    WordBelow(x);
    WordBelow(ws[0]);
    BitAndComm(Val(ws), x);
    BitAndLow(x, ws[0], rest, 64);
    BitAndComm(x, ws[0]);
    MulMono(Pow2(64), 0, rest);
  }

  /** ORing x into the low word is ORing x into the number. */
  lemma OrLowWordMeaning(ws: seq<Word>, x: Word)
    requires |ws| > 0
    ensures Place(BitOr(ws[0], x), Val(ws[1..]), 64) == BitOr(Val(ws), x)
  {
    ValueCons(ws, 64);
    WordBelow(x);
    WordBelow(ws[0]);
    BitOrComm(Val(ws), x);
    BitOrLow(x, ws[0], Val(ws[1..]), 64);
  }
}
