/** What the engine's word loops compute, word by word, and what that means for the number
    the words stand for: the carries a shift moves between neighbouring words (lebig.go:84-93
    and lebig.go:123-132), and AND and OR taken word by word (lebig.go:187-234). */
module WordOps {
  import opened Naturals
  import opened Digits
  import opened Machine

  /** a - b computed on uint64: without a borrow the difference is exact; below zero it wraps
      around once, to 2^64 + a - b. */
  function WrapSub(a: Word, b: Word): (r: Word)
    ensures r == if b <= a then a - b else WordBase + a - b
  {
    if b <= a then
      DivModUnique(a - b, WordBase, 0, a - b);
      (a - b) % WordBase
    else
      DivModUnique(a - b, WordBase, -1, WordBase + a - b);
      (a - b) % WordBase
  }

  // ---------------------------------------------------------------------------
  // Right shift by at most one word

  /** Word j after SmallShiftRight's loop: its own bits moved down by sr, with the low bits
      of the next word brought in on top (shifted left by 64 - sr, as uint). */
  function RightWord(ws: seq<Word>, sr: Word, j: nat): Word
    requires j < |ws|
  {
    if j + 1 < |ws| then Or(Shr(ws[j], sr), Shl(ws[j + 1], WrapSub(64, sr))) else Shr(ws[j], sr)
  }

  function ShiftedRight(ws: seq<Word>, sr: Word): (r: seq<Word>)
    ensures |r| == |ws|
  {
    seq(|ws|, j requires 0 <= j < |ws| => RightWord(ws, sr, j))
  }

  /** The bits of a number split at bit W that lie below bit s (s <= W) are those of its
      low part. */
  lemma LowBitsOfPlace(x: nat, h: nat, s: nat, W: nat)
    requires s <= W
    ensures Place(x, h, W) % Pow2(s) == x % Pow2(s)
  {
    var P, Q := Pow2(s), Pow2(W - s);
    Pow2Sum(s, W - s, W);
    PlaceModAlgebra(x, h, 0, P, Q);
    DivAdd(x, P, Q * h);
  }

  /** A word shifted down by sr, with the low sr bits of the number b + 2^64 * rest
      brought in on top. */
  lemma RightWordPair(a: Word, b: Word, rest: nat, sr: Word)
    requires sr <= 64
    ensures Or(Shr(a, sr), Shl(b, 64 - sr)) == Place(Div(a, Pow2(sr)), Mod(Place(b, rest, 64), Pow2(sr)), 64 - sr)
  {
    var P := Pow2(sr);
    var lo, hi := Div(a, P), Mod(b, P);
    ShrSmall(a, sr);
    ShlSmall(b, 64 - sr, sr);
    BitOrDisjoint(lo, hi, 64 - sr);
    LowBitsOfPlace(b, rest, sr, 64);
  }

  /** The bottom word of a right shift: the high 64 - sr bits of the first word with the
      low sr bits of the rest of the number above them. */
  lemma RightWordHead(ws: seq<Word>, sr: Word)
    requires ws != [] && sr <= 64
    ensures RightWord(ws, sr, 0) == Place(Div(ws[0], Pow2(sr)), Mod(Val(ws[1..]), Pow2(sr)), 64 - sr)
  {
    var a, t := ws[0], ws[1..];
    if t != [] {
      var b := t[0];
      assert RightWord(ws, sr, 0) == Or(Shr(a, sr), Shl(b, 64 - sr));
      ValueCons(t, 64);
      RightWordPair(a, b, Val(t[1..]), sr);
    } else {
      ShrSmall(a, sr);
      DivModUnique(0, Pow2(sr), 0, 0);
      assert Place(Div(a, Pow2(sr)), 0, 64 - sr) == Div(a, Pow2(sr));
    }
  }

  /** Moving every word down by sr bits, carries included, divides the number by 2^sr. */
  lemma {:induction false} ShiftedRightValue(ws: seq<Word>, sr: Word)
    requires sr <= 64
    ensures Val(ShiftedRight(ws, sr)) == Val(ws) / Pow2(sr)
  {
    if ws == [] {
      DivModUnique(0, Pow2(sr), 0, 0);
    } else {
      var a, t := ws[0], ws[1..];
      var r := ShiftedRight(ws, sr);
      assert r[1..] == ShiftedRight(t, sr);
      ShiftedRightValue(t, sr);
      RightWordHead(ws, sr);
      WordBelow(a);
      ValueCons(ws, 64);
      ValueCons(r, 64);
      ShiftDownStep(a, Val(t), sr, 64);
    }
  }

  /** Go's shifts by more than 64 bits clear every word. */
  lemma ShiftedRightWide(ws: seq<Word>, sr: Word)
    requires sr > 64
    ensures forall j :: 0 <= j < |ws| ==> ShiftedRight(ws, sr)[j] == 0
  {
    assert BitOr(0, 0) == 0;
  }

  // ---------------------------------------------------------------------------
  // Left shift by at most one word, within a fixed number of words

  /** Word j after SmallShiftLeft's loop: its own bits moved up by sl, with the high bits of
      the word below brought in at the bottom (shifted right by 64 - sl, as uint). */
  function LeftWord(ws: seq<Word>, sl: Word, j: nat): Word
    requires j < |ws|
  {
    if j == 0 then Shl(ws[0], sl) else Or(Shl(ws[j], sl), Shr(ws[j - 1], WrapSub(64, sl)))
  }

  function ShiftedLeft(ws: seq<Word>, sl: Word): (r: seq<Word>)
    ensures |r| == |ws|
  {
    seq(|ws|, j requires 0 <= j < |ws| => LeftWord(ws, sl, j))
  }

  /** ShiftedLeft with a carry c brought into the bottom word; the tail of a carried shift
      is the shift of the tail, carrying the top bits of the first word. */
  function CarriedLeft(ws: seq<Word>, sl: Word, c: Word): (r: seq<Word>)
    ensures |r| == |ws|
  {
    seq(|ws|, j requires 0 <= j < |ws| => if j == 0 then Or(Shl(ws[0], sl), c) else LeftWord(ws, sl, j))
  }

  /** The bottom word of a carried shift: the carry below the low 64 - sl bits of the
      first word. */
  lemma CarriedLeftHead(ws: seq<Word>, sl: Word, c: Word)
    requires ws != [] && sl <= 64 && c < Pow2(sl)
    ensures CarriedLeft(ws, sl, c)[0] == Place(c, Mod(ws[0], Pow2(64 - sl)), sl)
  {
    var low := Mod(ws[0], Pow2(64 - sl));
    var x := Shl(ws[0], sl);
    assert CarriedLeft(ws, sl, c)[0] == Or(x, c);
    assert Or(x, c) == BitOr(x, c);
    ShlSmall(ws[0], sl, 64 - sl);
    assert x == Place(0, low, sl);
    BitOrComm(x, c);
    BitOrDisjoint(c, low, sl);
  }

  /** Past the bottom word, a carried shift is the shift of the tail, carrying the top sl
      bits of the first word. */
  lemma CarriedLeftTail(ws: seq<Word>, sl: Word, c: Word)
    requires ws != [] && sl <= 64
    ensures CarriedLeft(ws, sl, c)[1..] == CarriedLeft(ws[1..], sl, Shr(ws[0], 64 - sl))
  {
  }

  lemma {:induction false} CarriedLeftValue(ws: seq<Word>, sl: Word, c: Word)
    requires sl <= 64 && c < Pow2(sl)
    ensures Val(CarriedLeft(ws, sl, c)) == Place(c, Val(ws), sl) % Pow2(Width(64, |ws|))
  {
    if ws == [] {
      assert Pow2(Width(64, 0)) == 1;
    } else {
      var a, t := ws[0], ws[1..];
      var r := CarriedLeft(ws, sl, c);
      var c' := Shr(a, 64 - sl);
      CarriedLeftTail(ws, sl, c);
      ShrSmall(a, 64 - sl);
      CarriedLeftValue(t, sl, c');
      CarriedLeftHead(ws, sl, c);
      var K := Width(64, |t|);
      ValueCons(ws, 64);
      ValueCons(r, 64);
      CarryStep(a, Val(t), c, c', sl, K, r[0], Val(r[1..]));
      assert Width(64, |ws|) == 64 + K;
    }
  }

  /** One step of CarriedLeftValue on plain numbers: the bottom word and the shifted rest,
      placed one above the other, make the shifted whole. */
  lemma CarryStep(a: Word, vt: nat, c: nat, c': nat, sl: nat, K: nat, r0: nat, v1: nat)
    requires sl <= 64 && c < Pow2(sl)
    requires c' == Div(a, Pow2(64 - sl)) && r0 == Place(c, Mod(a, Pow2(64 - sl)), sl)
    requires v1 == Place(c', vt, sl) % Pow2(K)
    ensures Place(r0, v1, 64) == Place(c, Place(a, vt, 64), sl) % Pow2(64 + K)
  {
    WordBelow(a);
    ShiftUpStep(a, vt, c, sl, K, 64);
  }

  /** Moving every word up by sl bits, carries included, multiplies the number by 2^sl
      modulo the room the words give. */
  lemma ShiftedLeftValue(ws: seq<Word>, sl: Word)
    requires sl <= 64
    ensures Val(ShiftedLeft(ws, sl)) == (Val(ws) * Pow2(sl)) % Pow2(64 * |ws|)
  {
    ShiftedLeftCarriesNothing(ws, sl);
    CarriedLeftValue(ws, sl, 0);
    assert Place(0, Val(ws), sl) == Val(ws) * Pow2(sl);
    assert Width(64, |ws|) == 64 * |ws|;
  }

  lemma ShiftedLeftCarriesNothing(ws: seq<Word>, sl: Word)
    ensures ShiftedLeft(ws, sl) == CarriedLeft(ws, sl, 0)
  {
    if ws != [] {
      var x := Shl(ws[0], sl);
      BitOrZero(x);
      assert Or(x, 0) == x;
    }
  }

  lemma ShiftedLeftWide(ws: seq<Word>, sl: Word)
    requires sl > 64
    ensures forall j :: 0 <= j < |ws| ==> ShiftedLeft(ws, sl)[j] == 0
  {
    assert BitOr(0, 0) == 0;
  }

  // ---------------------------------------------------------------------------
  // AND and OR word by word

  function AndWords(a: seq<Word>, b: seq<Word>): (r: seq<Word>)
    requires |a| == |b|
    ensures |r| == |a|
  {
    seq(|a|, i requires 0 <= i < |a| => And(a[i], b[i]))
  }

  function OrWords(a: seq<Word>, b: seq<Word>): (r: seq<Word>)
    requires |a| == |b|
    ensures |r| == |a|
  {
    seq(|a|, i requires 0 <= i < |a| => Or(a[i], b[i]))
  }

  /** AND word by word is the AND of the numbers. */
  lemma {:induction false} AndWordsValue(a: seq<Word>, b: seq<Word>)
    requires |a| == |b|
    ensures Val(AndWords(a, b)) == BitAnd(Val(a), Val(b))
  {
    if a == [] {
      assert BitAnd(0, 0) == 0;
    } else {
      assert AndWords(a, b)[1..] == AndWords(a[1..], b[1..]);
      AndWordsValue(a[1..], b[1..]);
      WordBelow(a[0]);
      WordBelow(b[0]);
      ValueCons(a, 64);
      ValueCons(b, 64);
      ValueCons(AndWords(a, b), 64);
      BitAndSplit(a[0], b[0], Val(a[1..]), Val(b[1..]), 64);
    }
  }

  /** OR word by word is the OR of the numbers. */
  lemma {:induction false} OrWordsValue(a: seq<Word>, b: seq<Word>)
    requires |a| == |b|
    ensures Val(OrWords(a, b)) == BitOr(Val(a), Val(b))
  {
    if a == [] {
      assert BitOr(0, 0) == 0;
    } else {
      assert OrWords(a, b)[1..] == OrWords(a[1..], b[1..]);
      OrWordsValue(a[1..], b[1..]);
      WordBelow(a[0]);
      WordBelow(b[0]);
      ValueCons(a, 64);
      ValueCons(b, 64);
      ValueCons(OrWords(a, b), 64);
      BitOrSplit(a[0], b[0], Val(a[1..]), Val(b[1..]), 64);
    }
  }

  /** A word slice cut at m: the low m words below bit 64 * m, the rest above it. */
  lemma WordsCut(b: seq<Word>, m: nat)
    requires m <= |b|
    ensures Val(b) == Place(Val(b[..m]), Val(b[m..]), Width(64, m))
    ensures Val(b[..m]) < Pow2(Width(64, m))
  {
    WordsBelow(b[..m]);
    ValueBound(b[..m], 64);
    assert b == b[..m] + b[m..];
    ValueAppend(b[..m], b[m..], 64);
  }

  lemma WordsBound(a: seq<Word>)
    ensures Val(a) < Pow2(Width(64, |a|))
  {
    WordsBelow(a);
    ValueBound(a, 64);
  }

  /** Only the words of b that a also has matter to the AND of a shorter a with b. */
  lemma AndShorter(a: seq<Word>, b: seq<Word>)
    requires |a| <= |b|
    ensures BitAnd(Val(a), Val(b)) == Val(AndWords(a, b[..|a|]))
  {
    var m := |a|;
    WordsBound(a);
    WordsCut(b, m);
    BitAndLow(Val(a), Val(b[..m]), Val(b[m..]), Width(64, m));
    AndWordsValue(a, b[..m]);
  }

  /** ANDing a longer a with b keeps only the words b also has. */
  lemma AndLonger(a: seq<Word>, b: seq<Word>)
    requires |b| <= |a|
    ensures BitAnd(Val(a), Val(b)) == Val(AndWords(a[..|b|], b))
  {
    var m := |b|;
    WordsBound(b);
    WordsCut(a, m);
    BitAndComm(Val(a), Val(b));
    BitAndLow(Val(b), Val(a[..m]), Val(a[m..]), Width(64, m));
    BitAndComm(Val(b), Val(a[..m]));
    AndWordsValue(a[..m], b);
  }

  /** OR with a longer b: the overlap ORed, b's further words carried over unchanged. */
  lemma OrShorter(a: seq<Word>, b: seq<Word>)
    requires |a| <= |b|
    ensures BitOr(Val(a), Val(b)) == Val(OrWords(b[..|a|], a) + b[|a|..])
  {
    var m := |a|;
    WordsBound(a);
    WordsCut(b, m);
    BitOrLow(Val(a), Val(b[..m]), Val(b[m..]), Width(64, m));
    OrWordsValue(b[..m], a);
    ValueAppend(OrWords(b[..m], a), b[m..], 64);
  }
}
