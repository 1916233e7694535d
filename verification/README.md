# lebig in Dafny

A model of the word engine of lebig: an unsigned arbitrary-precision integer kept as a slice of
64-bit words, least significant word first. The Go type `Int` holds the slice together with
three cached sizes (bits, bytes, words). It loads from and stores to little-endian byte
strings, shifts by any number of bits, and ANDs or ORs in a word or a byte string. The
model covers the size helpers and both trimmers of `lebig_private.go`, and the `Int` type
and `ReverseSliceOfBytes` of `lebig.go`.

The model takes the source's form:

- `Int` is a class. Its fields are `abs: seq<Word>` and the three sizes.
- Each Go method that changes the object is a Dafny method that changes it in place. Its
  contract states the new words by the number they stand for (`Val`, base 2^64). It gives
  each size the method assigns, except where "Left out" names a size it does not state.
  The AND and OR methods assign no size, and their contracts say the sizes are unchanged.
- `Words` and `Uint64` only read the object, so they are functions.
- Every loop of the source is a `while` or `for` loop with its invariants. The loop
  that rewrites the words sits in its own method, specified by a function of the old words
  (`ShiftedRight`, `ShiftedLeft`, `AndWords`, `OrWords`).
- Lemmas then prove what those functions mean for the number: division or multiplication by
  2^s, the bitwise AND or OR of the numbers.
- `ReverseSliceOfBytes` works in place on an `array`.

Go's fixed-width values are modelled on unbounded integers:

- `Word` is `0 <= x < 2^64` and `Byte` is `0 <= x < 256`.
- `>>` and `<<` are division and multiplication by 2^s, cut to 64 bits. A shift by 64 or more
  gives 0, as in Go.
- `64 - sr` on `uint` wraps around (`WrapSub`).
- `&` and `|` are `BitAnd` and `BitOr` on naturals.
- `binary.LittleEndian.PutUint64`/`Uint64` and `bits.Len64`/`LeadingZeros64` are functions
  with their round trip and bounds proved.

Module layout:

- `Naturals`, `Digits`: arithmetic on powers of two and positional notation.
- `Machine`: the fixed-width operations.
- `Sizes`: `lebig_private.go`.
- `WordOps`: what the word loops compute.
- `Layout`, `IntFacts`: how a number is laid out in words.
- `LeBig`: `lebig.go`.
- `Usage`: the round trips a caller relies on.

The shift contracts depend on `Consistent()`: the recorded bit count matches the words (the
value is zero, or the top word is non-zero and `sizeInBits` is the value's bit length).
`SetBytes` and `SetUint64` establish it, and both shifts preserve it. The AND and OR methods
leave the sizes untouched, as the source does, so they may break it.

Four behaviours of the code differ from what a reader of its method names might expect.
The model keeps all four as written:

- `AndUint64` ANDs only the low word and keeps the higher words, whereas an AND with a
  zero-extended word would clear them. `AndLowWordMeaning` shows that the result is the AND
  of the numbers exactly when the higher words are zero.
- `AndBytes` cuts the result to the operand's length and trims it only when the receiver is
  not the shorter of the two. A shorter receiver keeps its length, high zero words included.
- The AND and OR methods do not refresh the cached sizes, so these can be stale after a
  public call.
- The word trimmer returns the empty slice for a zero value. Only the byte trimmer keeps a
  minimum length of one.

## Model

| member | source | states |
|---|---|---|
| Sizes.SizeInWordsFromBits | lebig_private.go:8-14 | the result is the least number of 64-bit words that hold n bits |
| Sizes.SizeInWordsFromBytes | lebig_private.go:16-22 | the result is the least number of 8-byte words that hold n bytes |
| Sizes.SizeInBytes | lebig_private.go:24-30 | the result is the least number of bytes that hold n bits |
| Sizes.RecalcSizeInBytes | lebig_private.go:32-46 | with a non-zero top word, the result is the number of bytes the value's bit length needs; with a zero top word, 8 bytes per word |
| Sizes.RecalcMeaning | lebig_private.go:33-41 | the two branches on the top word's length, stated against the value's bit length |
| Sizes.CountTopZeros | lebig_private.go:50-58 | the counter is the length of the run of zero digits at the top of the input; the digit below that run is non-zero |
| Sizes.RemoveMostSignificantZeroesFromBytes | lebig_private.go:48-66 | the result is a prefix of the input with only zero bytes cut off; it is canonical (one byte, or a non-zero top byte) with the same value; a canonical input comes back unchanged |
| Sizes.RemoveMostSignificantZeroesFromWords | lebig_private.go:68-81 | the result is a prefix with only zero words cut off; it is trimmed with the same value; it is empty exactly when the value is zero; a trimmed input comes back unchanged |
| Machine.Len64 | lebig_private.go:33 | bits.Len64: the result is at most 64 and is the bit length of x: 0 exactly for x = 0, and otherwise 2^(r-1) <= x < 2^r |
| Machine.ShrSmall | lebig.go:86 | a right shift by s <= 64 divides by 2^s and leaves at most 64 - s bits |
| Machine.ShlSmall | lebig.go:125 | a left shift by s <= 64 keeps the low 64 - s bits, moved up by s |
| Machine.Shr | lebig.go:86 | x >> s is x divided by 2^s, rounded down (2^s * r <= x < 2^s * r + 2^s); 0 for s >= 64 |
| Machine.Shl | lebig.go:125 | x << s is x * 2^s exactly when x has at most 64 - s bits; its s low bits are zero; 0 for s >= 64 |
| Machine.And | lebig.go:182 | x AND y is at most x and at most y |
| Machine.Or | lebig.go:212 | x OR y is at least x and at least y |
| Machine.LeadingZeros64 | lebig.go:40 | bits.LeadingZeros64: at most 64, exactly 64 for zero; x < 2^(64 - r), and 2^(63 - r) <= x for x > 0 |
| Machine.LePutUint64 | lebig.go:51 | binary.LittleEndian.PutUint64 writes exactly eight bytes |
| Machine.PutThenUint64 | lebig.go:37 | decoding the eight bytes written for a word gives the word back |
| Machine.LeUint64 | lebig.go:37 | binary.LittleEndian.Uint64: the word read from eight bytes encodes back to exactly those bytes |
| Machine.LeBytesValue | lebig.go:50-51 | n little-endian bytes hold the value modulo 2^(8n) |
| Machine.Flatten | lebig.go:69-72 | laying out the words as bytes gives 8 bytes per word |
| Machine.FlattenValue | lebig.go:69-72 | words laid out eight bytes each, as Bytes writes them, keep the number |
| WordOps.WrapSub | lebig.go:88 | `64 - sr` on uint: exact without a borrow, wrapped once by 2^64 with one |
| WordOps.ShiftedRight | lebig.go:84-93 | SmallShiftRight's loop keeps the number of words |
| WordOps.RightWordHead | lebig.go:86-91 | the bottom word after the loop is the first word moved down by sr, with the low sr bits of the rest above it |
| IntFacts.RightWordMeaning | lebig.go:84-91 | for sr <= 64, word j after SmallShiftRight's loop is the low word of the words from j up divided by 2^sr |
| IntFacts.LeftWordMeaning | lebig.go:123-131 | for sl <= 64, word j after SmallShiftLeft's loop is word j of the number held by words 0..j multiplied by 2^sl |
| WordOps.ShiftedRightValue | lebig.go:84-93 | for sr <= 64, the words after SmallShiftRight's loop stand for the number divided by 2^sr |
| WordOps.ShiftedRightWide | lebig.go:84-93 | for sr > 64, the loop clears every word |
| WordOps.ShiftedLeft | lebig.go:123-132 | SmallShiftLeft's loop keeps the number of words |
| WordOps.CarriedLeftValue | lebig.go:123-132 | the loop with a carry into the bottom word stands for the number moved up by sl, carry below, cut to the words |
| WordOps.ShiftedLeftValue | lebig.go:123-132 | for sl <= 64, the words after SmallShiftLeft's loop stand for the number times 2^sl, modulo 2^(64·len) |
| WordOps.ShiftedLeftWide | lebig.go:123-132 | for sl > 64, the loop clears every word |
| WordOps.AndWords | lebig.go:193-203 | the word-by-word AND keeps the length |
| WordOps.OrWords | lebig.go:223-230 | the word-by-word OR keeps the length |
| WordOps.AndWordsValue | lebig.go:193-203 | AND word by word is the AND of the numbers |
| WordOps.OrWordsValue | lebig.go:223-230 | OR word by word is the OR of the numbers |
| WordOps.AndShorter | lebig.go:192-196 | with the receiver shorter, ANDing over the receiver's words gives the AND of the numbers |
| WordOps.AndLonger | lebig.go:197-203 | with the receiver not shorter, ANDing the receiver's first words with the operand gives the AND of the numbers |
| WordOps.OrShorter | lebig.go:222-231 | ORing over the shorter slice's words and keeping the longer slice's further words gives the OR of the numbers |
| Layout.GrownLength | lebig.go:114-118 | SmallShiftLeft grows the slice to the least length that holds the bit count, and never shrinks it |
| Layout.GrownLengthTwice | lebig.go:146-154 | growing for one bit count and then a larger one is growing for the larger one, so ShiftLeft's steps add up |
| Layout.TopWordCount | lebig.go:94 | a slice with a non-zero top word is exactly as long as its value's bit length needs |
| Layout.CanonicalWordCount | lebig.go:29-31 | canonical words are as many as the value needs |
| Layout.CanonicalByteCount | lebig.go:27-28 | canonical bytes are as many as the value needs |
| LeBig.Int.Consistent | lebig.go:40-45 | the bit count SetBytes records describes the words; a consistent non-zero number has exactly the words its bit count needs |
| IntFacts.CanonicalMatch | lebig.go:40-45 | a canonical slice matches the bit count SetBytes records |
| IntFacts.RecordedBits | lebig.go:40-45 | 64 bits per word less the top word's leading zeros, clamped to 1, is the value's bit length, and 1 for zero |
| IntFacts.LowWord | lebig.go:55-62 | the low word, or 0 without words, is the value modulo 2^64 |
| IntFacts.ReplaceLowWord | lebig.go:182 | rewriting word 0, as AndUint64 does here and OrUint64 does at lebig.go:212, leaves the words above it in place |
| IntFacts.RecalcKeepsValue | lebig.go:68-74 | recalcSizeInBytes is positive, at most 8 bytes per word, and enough bytes for the value |
| IntFacts.PrefixKeepsValue | lebig.go:74 | cutting the bytes to a length that holds the value keeps the value |
| IntFacts.RightShiftInRange | lebig.go:94 | with matching bits, the slice SmallShiftRight keeps lies within the words |
| IntFacts.RightShiftFits | lebig.go:81-94 | the quotient by 2^sr of a number of L >= sr bits has L - sr bits and fits in the words kept |
| IntFacts.RightShiftPast | lebig.go:95-97 | a number shorter than sr bits shifts right to zero |
| IntFacts.LeftShiftFits | lebig.go:110-118 | a number of L bits shifted left by sl has L + sl bits and fits in the words grown for them |
| IntFacts.AndLowWordMeaning | lebig.go:180-185 | ANDing only the low word gives the AND of the numbers exactly when every higher word is zero |
| IntFacts.OrLowWordMeaning | lebig.go:211-214 | ORing x into the low word is ORing x into the number |
| LeBig.Int.constructor | lebig.go:13-18 | the zero value of the struct: no words, all sizes zero |
| LeBig.Int.SetBytes | lebig.go:24-47 | the words are the canonical spelling of the input's number; sizeInBytes, sizeInWords and sizeInBits are that number's byte count, word count and bit length (1 for zero); the bits match |
| LeBig.Unpack | lebig.go:33-38 | SetBytes' loop: the words, laid out in bytes, are the trimmed input padded with zeros to whole words |
| LeBig.UnpackStep | lebig.go:37 | each step of SetBytes' loop extends the decoded prefix by eight bytes |
| LeBig.Unpacked | lebig.go:27-38 | the words SetBytes builds are canonical with the input's value, and as many as that value needs |
| LeBig.PackedCanonical | lebig.go:29-38 | packing canonical bytes into the fewest words gives canonical words |
| LeBig.Loaded | lebig.go:40-45 | the recorded bit count is the minimal bit count of the input's number, and matches the words |
| LeBig.Int.SetUint64 | lebig.go:49-53 | the words are exactly [x]; the sizes are those of x |
| LeBig.LoadedWord | lebig.go:49-53 | the canonical words of the eight bytes of x are [x] |
| LeBig.Int.Uint64 | lebig.go:55-62 | the result is the value modulo 2^64 |
| LeBig.Int.Bytes | lebig.go:64-75 | no words give the empty string; otherwise the result is the canonical byte string of the value, and sizeInBytes is refreshed to recalcSizeInBytes; words and the other sizes are unchanged |
| LeBig.PackStep | lebig.go:70-72 | each step of Bytes' loop extends the packed prefix by the next word |
| LeBig.Int.ShiftWordsRight | lebig.go:84-93 | the loop leaves ShiftedRight of the old words |
| LeBig.Int.SmallShiftRight | lebig.go:77-101 | (SmallShiftRightPost) no words or a zero top word: nothing changes; a shift past the bit count empties the words and keeps the sizes; otherwise the bits drop by sr, bytes and words follow, and the kept words, trimmed, are the quotient by 2^sr cut to them; with matching bits the value becomes exactly the quotient and the bits still match |
| LeBig.RightShifted | lebig.go:84-98 | the kept, trimmed words after the loop are the quotient cut to them, or nothing for sr > 64; with matching bits they are the whole quotient and match the new bit count |
| LeBig.RightShiftMatches | lebig.go:81-98 | with matching bits, the kept words hold the whole quotient and bits0 - sr matches it |
| LeBig.RightShiftIdle | lebig.go:78-97 | when SmallShiftRight does not shift, the number was zero or shifts right to zero |
| LeBig.Int.ShiftWordsLeft | lebig.go:123-132 | the loop leaves ShiftedLeft of the old words |
| LeBig.Int.SmallShiftLeft | lebig.go:103-135 | no words: nothing changes; otherwise the bits grow by sl, the words grow by zero words to what that needs, sizeInBytes is recounted from the grown words, and the value is the product by 2^sl cut to the words (zero words for sl > 64); with matching bits the value is exactly the product and the bits still match |
| LeBig.LeftShifted | lebig.go:113-132 | the shifted grown words are the product cut to the words, or zeros for sl > 64; with matching bits nothing is cut off and the new bit count matches |
| LeBig.LeftShiftMatches | lebig.go:110-132 | with matching bits and enough words, nothing is cut off and bits0 + sl matches the product |
| LeBig.LeftShiftGrows | lebig.go:110-132 | for a non-zero number the top word of the product is non-zero and its bit length is bits0 + sl |
| LeBig.Int.ShiftLeft | lebig.go:137-156 | the bit count grows by sl, the words grow to what it needs, and with matching bits the value is multiplied by 2^sl and the bits still match |
| LeBig.Int.LeftStep | lebig.go:147-153 | one chunk of ShiftLeft's loop moves its state on by the chunk |
| LeBig.LeftShiftAdvance | lebig.go:146-154 | one SmallShiftLeft by nsl <= 64 moves ShiftLeft's loop on by nsl bits |
| LeBig.Int.ShiftRight | lebig.go:158-178 | a shift by at most 64 does exactly what SmallShiftRight does; (ShiftRightPost) no words or a zero top word: nothing changes; with matching bits the value is divided by 2^sl, the bits still match and a non-zero result is trimmed; a non-zero number of at least sl bits loses exactly sl bits and the other sizes follow; a non-zero number of fewer than sl bits ends with no words and bit count bits0 % 64, the other sizes unchanged if bits0 < 64 and following that count otherwise |
| LeBig.SmallShiftRightAlone | lebig.go:160-161 | a shift by at most 64 bits, one SmallShiftRight, meets everything ShiftRight promises |
| LeBig.Int.RightStep | lebig.go:172-175 | one SmallShiftRight of ShiftRight's loop, after whole 64-bit steps, moves the loop state on by the chunk |
| LeBig.RightShiftStart | lebig.go:159-170 | before ShiftRight's loop the state is that of a shift by zero with the object as it was |
| LeBig.RightShiftEnd | lebig.go:171-177 | the state after the loop's last step is what ShiftRight promises |
| LeBig.RightShiftAdvance | lebig.go:171-176 | one SmallShiftRight by 0 < nsl <= 64, taken after whole 64-bit steps, moves ShiftRight's loop on by nsl bits |
| LeBig.AdvanceZero | lebig.go:78-79 | a zero number has no words or a zero top word, so every step leaves it as it was |
| LeBig.AdvancePast | lebig.go:78 | once a non-zero number is shifted past its bits no words are left, and further steps change nothing |
| LeBig.AdvanceShift | lebig.go:80-94 | a step that fits in the bits left drops the bit count by nsl and divides by 2^nsl |
| LeBig.AdvanceStop | lebig.go:95-98 | the step that runs past the bits left leaves no words and the bit count bits0 % 64 |
| LeBig.Int.AndUint64 | lebig.go:180-185 | no words: nothing changes; otherwise the trimmed words stand for the low word ANDed with x and the higher words as they were; this is the AND of the numbers exactly when the higher words are zero |
| LeBig.Int.AndInto | lebig.go:193-203 | AndBytes' loops AND the operand's first n words into the first n words and leave the rest |
| LeBig.Int.ClearWords | lebig.go:205-207 | AndBytes' loop for an empty operand sets every word to zero and keeps the length |
| LeBig.Int.AndBytes | lebig.go:187-209 | the value becomes the AND of the value with the operand's number (an empty operand reads as zero); a shorter receiver or an empty operand keeps its length; otherwise the result is trimmed |
| LeBig.Int.OrUint64 | lebig.go:211-214 | the trimmed words stand for the value ORed with x |
| LeBig.Int.OrInto | lebig.go:223-230 | OrBytes' loops OR the first n words of the other slice into the first n words and leave the rest |
| LeBig.Int.OrBytes | lebig.go:216-234 | the value becomes the OR of the value with the operand's number; an empty operand changes nothing; otherwise the result is trimmed |
| LeBig.Reverse | lebig.go:236-242 | the reversal keeps the length, and byte k is byte len-1-k of the input |
| LeBig.ReverseTwice | lebig.go:236-242 | reversing twice gives the bytes back |
| LeBig.ReverseSliceOfBytes | lebig.go:236-242 | the array afterwards holds the reversal of its old contents |
| Usage.BytesRoundTrip | lebig_test.go:29-47 | SetBytes then Bytes gives exactly what RemoveMostSignificantZeroesFromBytes makes of the input: a canonical prefix with the same value |
| Usage.Uint64RoundTrip | lebig_test.go:152-173 | SetUint64 then Uint64 gives the word back |
| Usage.ShiftRoundTrip | lebig.go:137-178 | after SetBytes, ShiftLeft by s then ShiftRight by s gives back the number; a non-zero number also gets back its bit count and trimmed words; a zero number keeps the grown bit count 1 + s and its grown words |
| Usage.ShiftedBack | lebig.go:158-178 | ShiftRight by s on words holding v * 2^s with matching bits gives v back, with v's bit count for v > 0 and the words untouched for v = 0 |
| Usage.ReverseRoundTrip | lebig_test.go:537-545 | ReverseSliceOfBytes twice leaves the array as it was |

## Left out

- lebig_internal.go is not part of this model. It is the alternate build that delegates to
  math/big after reversing the bytes.
- The build tags that choose between the two implementations are not modelled.
- `tmp()` is not modelled. It is dead code that only references fmt and math/big.
- lebig_test.go's random inputs, benchmarks and math/big oracle are not modelled. Some of its
  assertions appear as the `Usage` round trips.
- Go slice capacity and aliasing are not modelled, because words are a `seq`:
  - `OrBytes` adopting the operand's backing array;
  - in-place writes seen by another holder of `Words()`;
  - `abs[0:sizeInWords]` reaching into spare capacity.
- LeBig.Int.Words: a plain read of the words with no contract to state.
- LeBig.Int.SmallShiftLeft: `sizeInBits + sl` is computed on Go's `uint` and would wrap
  past 2^64 - 1. The model uses unbounded naturals.
- LeBig.Int.ShiftLeft: the same wrap-around is not modelled. The contract also does not
  state sizeInBytes, which each step recounts from the grown words.
- LeBig.Int.SmallShiftRight: requires that the slice it keeps lies within the words. In Go,
  a stale bit count either faults or re-extends into spare capacity, which a `seq` cannot
  express.
- LeBig.Int.ShiftRight: a shift by more than 64 bits requires `Consistent()`, so that every
  step's slice lies within the words. The Go code has no such check.
- LeBig.Int.SetBytes: requires a non-empty input. Go faults on `in[0]` for an empty one.
- LeBig.Int.OrUint64: requires at least one word. Go faults on `abs[0]` otherwise.
- Sizes.RemoveMostSignificantZeroesFromBytes: requires a non-empty input. On an empty slice,
  `in[0:1]` depends on the slice's capacity. Every caller passes a non-empty slice.
- Sizes.RecalcSizeInBytes: requires at least one word, because Go indexes the top word
  before its length check. Bytes only calls it with words present.
