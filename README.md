# HeliPOV image converter: polar sampling and byte-code packing

HeliPOV is a persistence-of-vision display: a rotating blade carries 32 LEDs,
and the firmware lights them slice by slice as the blade turns. The converter
`heliBMP` reads a square, 1-bit-per-pixel bitmap, samples it on a polar grid of
32 radii by 256 angular slices, and writes one 32-bit word per slice as C byte
literals (`0x%02X,`), most significant byte first, with a line break after
every fourth word. Bit `ledOrder[i]` of a word drives LED `i`, according to the
wiring table of the selected blade (`-t` top, `-b` bottom).

This project models the integer and bit-level part of that converter in Dafny:

- `Wiring` (wiring.dfy): the two blade wiring tables, proved to be permutations
  of `[0, 32)`, and the per-blade settings (mirroring, rotation).
- `Sampler` (sampler.dfy): the integer part of `setRadialPixel`. This covers the
  slice multiplier of the angle, normal and mirrored, and the shift from a
  centred offset to a top-left pixel. It also covers `isBlack` (lit iff the
  red channel is 0) and `setRadialPixel` itself, as a method that updates one
  array cell.
- `SampleGrid` (samplegrid.dfy): the fill loop of `main` over the
  `numLEDs * numSlices` array. Cell `(r = i, th = j)` is at index
  `numLEDs * j + i`.
- `Bits`, `Packing` (bits.dfy, packing.dfy): single bits of a `bv32`, the
  packed word of one slice, and its four bytes.
- `HexTokens`, `TextLayout`, `ByteCode` (hextokens.dfy, textlayout.dfy,
  bytecode.dfy): the `0x%02X,` token of a byte, the line layout, and
  `makeByteCode` as methods proved against the `Serialize` function.
- `Converter` (converter.dfy): `main` after argument parsing. It rejects a
  bitmap that is not square and 1 bpp, then fills the grid and writes the byte
  code. End-to-end lemmas cover every bit of every word (`BladeWordBits`), an
  all-black bitmap and an all-white bitmap.

The floating-point step of the sampler is a parameter
`polar: (int, int) -> Offset`. That step is `calcGeometry`, the radius in
pixels, the angle in radians, `cos`/`sin` and the truncating `(int)` casts.
`polar` maps a radius index and the integer slice multiplier of the angle to a
pixel offset from the centre of the bitmap, with y pointing up. The bitmap is a
value with a width, a height, a bit depth and a red-channel function of
`(x, y)`. The output file is modelled as the string the `fprintf` calls append
to.

Notes on the program as written:

- The lit test reads only the red channel of the pixel (heliBMP.cpp:143).
  Green and blue play no part.
- The wiring table is fixed per blade and is never checked for bijectivity.
  The model proves both fixed tables are permutations. The packing lemmas that
  need a permutation take it as a precondition.
- `makeByteCode` hard-codes 32 LEDs, 256 slices and a line break after every
  fourth word (`32 * j + i`, `j < 256`, `j % 4 == 3`). The fill loop in `main`
  uses `numLEDs` and `numSlices`, which `main` sets to 32 and 256.

## Model

| member | source | states |
|---|---|---|
| Wiring.TopBladeIsPermutation | imageconv/src/heliBMP.cpp:78-79 | the top-blade wiring table maps the 32 LEDs one-to-one onto bit positions 0..31 |
| Wiring.BottomBladeIsPermutation | imageconv/src/heliBMP.cpp:85-86 | the bottom-blade wiring table maps the 32 LEDs one-to-one onto bit positions 0..31 |
| Wiring.LedOrder | imageconv/src/heliBMP.cpp:75-88 | the table selected by `-t` or `-b` is a permutation of [0, 32) |
| Wiring.LeftInverseGivesPermutation | imageconv/src/heliBMP.cpp:95-97 | a table into [0, n) that has a left inverse (the LED driving each bit) and reaches every position is a permutation |
| Sampler.SetRadialPixel | imageconv/src/heliBMP.cpp:164-186 | only `lit` of the one cell changes; it becomes true iff the red channel of the pixel sampled for that cell's `r` and `th` is 0 |
| Sampler.SliceStep | imageconv/src/heliBMP.cpp:169-172 | consecutive slices step the angle multiplier by -1 unmirrored and +1 mirrored |
| Sampler.MirrorReflects | imageconv/src/heliBMP.cpp:169-172 | the mirrored multiplier of slice `th` equals the unmirrored multiplier of slice `-th` |
| Sampler.SweepsSymmetric | imageconv/src/heliBMP.cpp:169-172 | the mirrored and unmirrored multipliers of a slice sum to `-2 * (numSlices/4 + rotation)`, so the two sweeps reflect about the start angle |
| Sampler.RotationShifts | imageconv/src/heliBMP.cpp:169-172 | rotating by `k` more slices shows at slice `th` what slice `th + k` (mirrored: `th - k`) showed |
| Sampler.FirstSliceQuarterTurn | imageconv/src/heliBMP.cpp:169-172 | with no rotation, slice 0 is at multiplier `-(numSlices/4)` in both directions |
| Sampler.SlicesDistinct | imageconv/src/heliBMP.cpp:169-172 | two slices share an angle multiplier iff they are the same slice |
| Sampler.ShiftToCorner | imageconv/src/heliBMP.cpp:179-180 | the shift to the top-left corner is undone by the independent centre-offset function, so no two offsets share a pixel |
| Sampler.CornerRoundTrip | imageconv/src/heliBMP.cpp:179-180 | shifting an offset to the top-left corner and back gives the offset |
| Sampler.CenterRoundTrip | imageconv/src/heliBMP.cpp:179-180 | every pixel is the corner shift of its own centre offset |
| Sampler.ShiftOrientation | imageconv/src/heliBMP.cpp:179-180 | the zero offset lands on `(width/2, height/2)`; x grows with `dx`; y falls as `dy` grows |
| Sampler.ShiftInBounds | imageconv/src/heliBMP.cpp:179-180 | the shifted pixel is inside the bitmap iff the offset lies in the matching centred box |
| SampleGrid.Grid | imageconv/src/heliBMP.cpp:121 | the grid has exactly `numLEDs * numSlices` cells, the size of `radpix`; its cell contents are stated by `GridAt` |
| SampleGrid.CellIndexInRange | imageconv/src/heliBMP.cpp:121-129 | the index `numLEDs*j + i` of a cell lies in the array, and `% numLEDs` and `/ numLEDs` recover `i` and `j` |
| SampleGrid.CellOfIndex | imageconv/src/heliBMP.cpp:121-129 | every array index is the index of exactly one cell |
| SampleGrid.GridAt | imageconv/src/heliBMP.cpp:121-129 | the filled cell of LED `i` at slice `j` has `r == i`, `th == j` and the sampled `lit` |
| SampleGrid.FillGrid | imageconv/src/heliBMP.cpp:121-129 | the loop leaves the array equal to the grid function, and it visits every index exactly once, in increasing order |
| SampleGrid.GridLitIffRedZero | imageconv/src/heliBMP.cpp:141-146 | the filled cell of LED `i` at slice `j` is lit iff the red channel of the bitmap pixel sampled for it is 0 |
| Packing.LedBit | imageconv/src/heliBMP.cpp:203 | `1 << ledOrder[i]` with an `int` shift amount is the single-bit word at that position |
| Packing.PackBit | imageconv/src/heliBMP.cpp:199-204 | bit `b` of the accumulator after `n` LEDs is set iff some lit LED among them is wired to `b` |
| Packing.PackBitOfLed | imageconv/src/heliBMP.cpp:201-204 | with a permuted table, bit `ledOrder[k]` of the packed slice is set iff LED `k` is lit |
| Packing.PackNoneLit | imageconv/src/heliBMP.cpp:200-204 | a slice with no lit LED packs to 0x00000000 |
| Packing.PackAllLit | imageconv/src/heliBMP.cpp:200-204 | with a permuted table, a slice with all 32 LEDs lit packs to 0xFFFFFFFF |
| Packing.PackSingleLit | imageconv/src/heliBMP.cpp:200-204 | under the identity wiring, a slice whose only lit LED is `r` packs to `1 << r` |
| Packing.PackSwapEntries | imageconv/src/heliBMP.cpp:201-204 | swapping two table entries exchanges the two bits of the packed slice and changes no other bit |
| Packing.WordBytes | imageconv/src/heliBMP.cpp:206-207 | a word is emitted as exactly four bytes; which bytes is stated by the two round-trip rows below |
| Packing.WordBytesRoundTrip | imageconv/src/heliBMP.cpp:206-207 | recombining the four emitted bytes big-endian gives the word back |
| Packing.WordFromBytesRoundTrip | imageconv/src/heliBMP.cpp:206-207 | any four bytes are the emission of exactly one word |
| Bits.OrLedBit | imageconv/src/heliBMP.cpp:202-203 | ORing in `1 << o` for a lit LED sets bit `o` and keeps every bit already set |
| HexTokens.HexDigit | imageconv/src/heliBMP.cpp:207 | the digit printed for a value below 16 is an upper-case hex digit with that value |
| HexTokens.DigitRoundTrip | imageconv/src/heliBMP.cpp:207 | reading back the digit printed for a value below 16 gives that value |
| HexTokens.DigitValueRoundTrip | imageconv/src/heliBMP.cpp:207 | a character that reads as a digit is the digit printed for its value, so only upper-case hex digits are accepted |
| HexTokens.Token | imageconv/src/heliBMP.cpp:207 | the token of a byte is 5 characters: `0`, `x`, two upper-case hex digits, `,` |
| HexTokens.TokenRoundTrip | imageconv/src/heliBMP.cpp:207 | parsing the token of a byte gives the byte |
| HexTokens.ParseTokenRoundTrip | imageconv/src/heliBMP.cpp:207 | every string that parses as a byte is that byte's token |
| HexTokens.TokenInjective | imageconv/src/heliBMP.cpp:207 | two bytes have the same token iff they are equal |
| HexTokens.TokensAt | imageconv/src/heliBMP.cpp:206-207 | the five characters at offset `5k` of the token text are the token of byte `k` |
| HexTokens.TokensHaveNoLineBreak | imageconv/src/heliBMP.cpp:207 | token text never holds a line break |
| TextLayout.JoinLayout | imageconv/src/heliBMP.cpp:208-209 | word `j` starts at `20j + j/4`, with a line break after it iff `j % 4 == 3` |
| TextLayout.JoinLineBreaks | imageconv/src/heliBMP.cpp:208-209 | joined words hold one line break per four words |
| TextLayout.JoinWithoutLineBreaks | imageconv/src/heliBMP.cpp:208-209 | removing the line breaks leaves the word texts end to end |
| ByteCode.WordText | imageconv/src/heliBMP.cpp:206-207 | the text of a word is 20 characters without a line break |
| ByteCode.WordTextRoundTrip | imageconv/src/heliBMP.cpp:206-207 | parsing the text of a word gives the word |
| ByteCode.ParseWordRoundTrip | imageconv/src/heliBMP.cpp:206-207 | every text that parses as a word is that word's text |
| ByteCode.SerializeAppend | imageconv/src/heliBMP.cpp:206-209 | writing one more word appends its text and, after every fourth word, a line break |
| ByteCode.SerializeLength | imageconv/src/heliBMP.cpp:199-210 | the stream has 20 characters per word plus one per four words |
| ByteCode.SerializeLayout | imageconv/src/heliBMP.cpp:199-210 | word `j` sits at `20j + j/4`, followed by a line break iff `j % 4 == 3` |
| ByteCode.SerializeNoBreak | imageconv/src/heliBMP.cpp:208-209 | inside a line, a word is followed directly by the next word's `0x` |
| ByteCode.ParseWordAt | imageconv/src/heliBMP.cpp:199-210 | every word can be read back from its place in the stream |
| ByteCode.SerializeInjective | imageconv/src/heliBMP.cpp:199-210 | different word sequences give different streams |
| ByteCode.SerializeLineBreaks | imageconv/src/heliBMP.cpp:208-209 | the stream holds one line break per four words |
| ByteCode.SerializeTokens | imageconv/src/heliBMP.cpp:199-210 | without its line breaks, the stream is one token per byte, four bytes per word, in slice order |
| ByteCode.FullTurnShape | imageconv/src/heliBMP.cpp:199-210 | 256 words give 1024 tokens, 64 line breaks and 5184 characters |
| ByteCode.SliceWordsAt | imageconv/src/heliBMP.cpp:199-204 | entry `j` of the packed words is the packed word of slice `j` |
| ByteCode.SliceWordBits | imageconv/src/heliBMP.cpp:199-204 | bit `ledOrder[i]` of slice `j`'s word is set iff cell `32j + i` is lit, and a bit is set only if some lit LED is wired to it |
| ByteCode.PackSlice | imageconv/src/heliBMP.cpp:200-204 | the inner loop leaves `tmp` equal to the packed word of slice `j` |
| ByteCode.WriteWord | imageconv/src/heliBMP.cpp:206-207 | the byte loop writes the tokens of the word's four bytes, most significant first |
| ByteCode.MakeByteCode | imageconv/src/heliBMP.cpp:188-211 | the output is the serialisation of the 256 packed slice words |
| Converter.WiringArray | imageconv/src/heliBMP.cpp:73-87 | the `ledOrder` array `main` uses holds exactly the selected blade's wiring table |
| Converter.Convert | imageconv/src/heliBMP.cpp:69-135 | `main` produces output iff the bitmap is square and 1 bpp; the output is then the serialised words of the grid filled with 32 LEDs, 256 slices, no rotation and mirroring only for the bottom blade |
| Converter.GridSliceLits | imageconv/src/heliBMP.cpp:121-129 | the LED states of slice `j` of the filled grid are the sampled states of its LEDs |
| Converter.BladeWordBits | imageconv/src/heliBMP.cpp:199-204 | end to end: bit `ledOrder[i]` of slice `j`'s word is set iff the pixel sampled for LED `i` at slice `j` is black |
| Converter.ConvertedWordAt | imageconv/src/heliBMP.cpp:133-135 | every slice's word can be read back from its place in the written text |
| Converter.AllBlackWords | imageconv/src/heliBMP.cpp:199-204 | an all-black bitmap gives 0xFFFFFFFF for every slice, on either blade |
| Converter.AllWhiteWords | imageconv/src/heliBMP.cpp:199-204 | a bitmap without a black pixel gives 0x00000000 for every slice |

## Left out

- `calcGeometry` (heliBMP.cpp:151-162) is double arithmetic with pi taken as 3.14159265. Its results, `radialSpacing`, `IRpix` and `thetaSpacing`, are not modelled. They are absorbed into the `polar` parameter.
- The radius `IRpix + rp->r * radialSpacing` (heliBMP.cpp:167), the `cos`/`sin` calls and the truncating `(int)` casts of `setRadialPixel` (heliBMP.cpp:175-176) are floating point. They are folded into the `polar` parameter. So the radius-0 and outer-edge sampling positions are not modelled.
- Sampled coordinates are not bounds-checked in the source. The model's red channel is a total function of `(x, y)`, so reading outside the bitmap is not modelled. `Sampler.ShiftInBounds` states when a sample is inside.
- EasyBMP (`ReadFromFile`, `TellWidth`, `TellHeight`, `TellBitDepth`, `operator()`) is a foreign library. The bitmap is the `Image` value, and a failed read is left out.
- Argument handling and usage messages (heliBMP.cpp:61-66, 89-93) are left out: they are command-line I/O. The blade choice is the `Blade` value.
- `cout` logging, `fopen` and `fclose` are left out: they are I/O. The output file is the returned string.
- `1 << ledOrder[i]` is a shift of a signed `int`. For bit 31 its value depends on the C++ standard in force: undefined in C++11, implementation-defined in C++14 and C++17, and `INT_MIN` since C++20. The model uses `bv32`, where the shift sets bit 31, as the OR into `uint32_t` evidently intends.
- The `-t`/`-b` wiring table is a local array of an `if` block in `main` (heliBMP.cpp:78-80, 85-87), yet `main` passes it through `ledOrder` to `makeByteCode` at line 134, which reads it at line 203, after the block has ended. That read is undefined behaviour. The model does not capture it: `Converter.WiringArray` gives an array that stays alive for the whole conversion, as the program evidently intends.
