/**
 * `makeByteCode`: the packed slices written as C byte tokens.
 *
 * Every slice of 32 LEDs becomes one 32-bit word, the word becomes four
 * `0x%02X,` tokens, most significant byte first, and a line break follows
 * every fourth word.
 */
module ByteCode {
  import opened Wrappers
  import opened Wiring
  import opened Bits
  import opened Packing
  import opened HexTokens
  import opened Sampler
  import opened TextLayout

  /** Number of slices the serializer writes: one turn of the blade. */
  const NumSlices: nat := 256

  /** The text of one word: the tokens of its four bytes, most significant first. */
  function WordText(w: bv32): (s: string)
    ensures |s| == WordWidth && '\n' !in s
  {
    TokensHaveNoLineBreak(WordBytes(w));
    Tokens(WordBytes(w))
  }

  /** Reads the text of one word back; `None` unless `s` is four well-formed tokens. */
  function ParseWord(s: string): (r: Option<bv32>)
    ensures r.Some? ==> |s| == 20
  {
    if |s| != 20 then None
    else match (ParseToken(s[0..5]), ParseToken(s[5..10]), ParseToken(s[10..15]), ParseToken(s[15..20]))
      case (Some(b0), Some(b1), Some(b2), Some(b3)) => Some(WordFromBytes([b0, b1, b2, b3]))
      case _ => None
  }

  /** The text of a word splits into the tokens of its four bytes. */
  lemma WordTextTokens(w: bv32)
    ensures WordText(w)[0..5] == Token(WordBytes(w)[0]) && WordText(w)[5..10] == Token(WordBytes(w)[1])
    ensures WordText(w)[10..15] == Token(WordBytes(w)[2]) && WordText(w)[15..20] == Token(WordBytes(w)[3])
  {
    TokensAt(WordBytes(w), 0);
    TokensAt(WordBytes(w), 1);
    TokensAt(WordBytes(w), 2);
    TokensAt(WordBytes(w), 3);
  }

  /** Reading back the text of a word gives the word. */
  lemma WordTextRoundTrip(w: bv32)
    ensures ParseWord(WordText(w)) == Some(w)
  {
    var bytes := WordBytes(w);
    WordTextTokens(w);
    TokenRoundTrip(bytes[0]);
    TokenRoundTrip(bytes[1]);
    TokenRoundTrip(bytes[2]);
    TokenRoundTrip(bytes[3]);
    assert [bytes[0], bytes[1], bytes[2], bytes[3]] == bytes;
    WordBytesRoundTrip(w);
  }

  /** Four tokens laid end to end are the token text of the four bytes. */
  lemma FourTokens(b0: bv8, b1: bv8, b2: bv8, b3: bv8)
    ensures Tokens([b0, b1, b2, b3]) == Token(b0) + Token(b1) + Token(b2) + Token(b3)
  {
    var bs := [b0, b1, b2, b3];
    assert bs[..3] == [b0, b1, b2] && bs[..3][..2] == [b0, b1] && bs[..3][..2][..1] == [b0];
    assert [b0][..0] == [];
    assert Tokens([b0]) == Token(b0);
    assert Tokens([b0, b1]) == Tokens([b0]) + Token(b1);
    assert Tokens([b0, b1, b2]) == Tokens([b0, b1]) + Token(b2);
    assert Tokens(bs) == Tokens([b0, b1, b2]) + Token(b3);
  }

  /** Any text that reads as a word is the text written for that word. */
  lemma ParseWordRoundTrip(s: string)
    requires ParseWord(s).Some?
    ensures WordText(ParseWord(s).value) == s
  {
    var t0, t1, t2, t3 := s[0..5], s[5..10], s[10..15], s[15..20];
    var b0, b1 := ParseToken(t0).value, ParseToken(t1).value;
    var b2, b3 := ParseToken(t2).value, ParseToken(t3).value;
    var w := WordFromBytes([b0, b1, b2, b3]);
    assert ParseWord(s).value == w;
    assert WordBytes(w) == [b0, b1, b2, b3] by {
      WordFromBytesRoundTrip([b0, b1, b2, b3]);
    }
    assert Tokens([b0, b1, b2, b3]) == t0 + t1 + t2 + t3 by {
      ParseTokenRoundTrip(t0);
      ParseTokenRoundTrip(t1);
      ParseTokenRoundTrip(t2);
      ParseTokenRoundTrip(t3);
      FourTokens(b0, b1, b2, b3);
    }
    assert s == t0 + t1 + t2 + t3;
  }

  /** The texts of the words `ws`, in order. */
  function WordTexts(ws: seq<bv32>): (texts: seq<string>)
    ensures |texts| == |ws| && WordWide(texts)
    ensures forall j :: 0 <= j < |ws| ==> texts[j] == WordText(ws[j])
  {
    seq(|ws|, j requires 0 <= j < |ws| => WordText(ws[j]))
  }

  /** The whole stream for the words `ws`: their texts in order, a line break after every fourth. */
  function Serialize(ws: seq<bv32>): string {
    Join(WordTexts(ws))
  }

  /** Writing one more word appends its text and, after every fourth word, a line break. */
  lemma SerializeAppend(ws: seq<bv32>, w: bv32)
    ensures Serialize(ws + [w]) == Serialize(ws) + WordText(w) + LineBreak(|ws|)
  {
    assert WordTexts(ws + [w]) == WordTexts(ws) + [WordText(w)];
    JoinAppend(WordTexts(ws), WordText(w));
  }

  /** The stream is 20 characters per word plus one line break per four words. */
  lemma SerializeLength(ws: seq<bv32>)
    ensures |Serialize(ws)| == WordOffset(|ws|) == 20 * |ws| + |ws| / 4
  {
    JoinLength(WordTexts(ws));
  }

  /**
   * The text of word `j` lies at `WordOffset(j)`, the next word starts at
   * `WordOffset(j + 1)`, and between the two there is a line break iff
   * `j % 4 == 3`.
   */
  lemma SerializeLayout(ws: seq<bv32>, j: nat)
    requires j < |ws|
    ensures WordOffset(j + 1) == WordOffset(j) + WordWidth + (if j % 4 == 3 then 1 else 0)
    ensures WordOffset(j + 1) <= |Serialize(ws)|
    ensures Serialize(ws)[WordOffset(j)..WordOffset(j) + WordWidth] == WordText(ws[j])
    ensures j % 4 == 3 ==> Serialize(ws)[WordOffset(j) + WordWidth] == '\n'
  {
    JoinLayout(WordTexts(ws), j);
  }

  /** Every word can be read back from its place in the stream. */
  lemma ParseWordAt(ws: seq<bv32>, j: nat)
    requires j < |ws|
    ensures WordOffset(j) + WordWidth <= |Serialize(ws)|
    ensures ParseWord(Serialize(ws)[WordOffset(j)..WordOffset(j) + WordWidth]) == Some(ws[j])
  {
    SerializeLayout(ws, j);
    WordTextRoundTrip(ws[j]);
  }

  /** Inside a line, the text of word `j` is followed directly by the `0` of the next word's first token. */
  lemma SerializeNoBreak(ws: seq<bv32>, j: nat)
    requires j + 1 < |ws| && j % 4 != 3
    ensures WordOffset(j) + WordWidth < |Serialize(ws)|
    ensures Serialize(ws)[WordOffset(j) + WordWidth] == '0'
  {
    SerializeLayout(ws, j);
    SerializeLayout(ws, j + 1);
    var next := Serialize(ws)[WordOffset(j + 1)..WordOffset(j + 1) + WordWidth];
    assert next[0] == Serialize(ws)[WordOffset(j) + WordWidth];
    WordTextTokens(ws[j + 1]);
    assert next[0..5][0] == next[0];
  }

  /** Different word sequences give different streams. */
  lemma SerializeInjective(ws: seq<bv32>, vs: seq<bv32>)
    requires Serialize(ws) == Serialize(vs)
    ensures ws == vs
  {
    SerializeLength(ws);
    SerializeLength(vs);
    forall j | 0 <= j < |ws|
      ensures ws[j] == vs[j]
    {
      ParseWordAt(ws, j);
      ParseWordAt(vs, j);
    }
  }

  /** The stream holds one line break per four words. */
  lemma SerializeLineBreaks(ws: seq<bv32>)
    ensures LineBreaks(Serialize(ws)) == |ws| / 4
  {
    JoinLineBreaks(WordTexts(ws));
  }

  /** The bytes of the words `ws`, four per word, most significant first. */
  function StreamBytes(ws: seq<bv32>): (bs: seq<bv8>)
    ensures |bs| == 4 * |ws|
  {
    if |ws| == 0 then [] else StreamBytes(ws[..|ws| - 1]) + WordBytes(ws[|ws| - 1])
  }

  lemma {:induction false} ConcatWordTexts(ws: seq<bv32>)
    ensures Concat(WordTexts(ws)) == Tokens(StreamBytes(ws))
  {
    if |ws| > 0 {
      var n := |ws| - 1;
      ConcatWordTexts(ws[..n]);
      assert WordTexts(ws)[..n] == WordTexts(ws[..n]);
      TokensAppend(StreamBytes(ws[..n]), WordBytes(ws[n]));
    }
  }

  /** Apart from its line breaks, the stream is one token per byte, in word order. */
  lemma SerializeTokens(ws: seq<bv32>)
    ensures WithoutLineBreaks(Serialize(ws)) == Tokens(StreamBytes(ws))
  {
    JoinWithoutLineBreaks(WordTexts(ws));
    ConcatWordTexts(ws);
  }

  /** A full turn of 256 words is 1024 tokens on 64 lines: 5184 characters. */
  lemma FullTurnShape(ws: seq<bv32>)
    requires |ws| == NumSlices
    ensures |Serialize(ws)| == 5184
    ensures LineBreaks(Serialize(ws)) == 64
    ensures |StreamBytes(ws)| == 1024 && WithoutLineBreaks(Serialize(ws)) == Tokens(StreamBytes(ws))
  {
    SerializeLength(ws);
    SerializeLineBreaks(ws);
    SerializeTokens(ws);
  }

  /** The LED states of slice `j`, LED 0 first. */
  function SliceLits(rp: seq<RadialPixel>, j: nat): (lits: seq<bool>)
    requires NumLEDs * j + NumLEDs <= |rp|
    ensures |lits| == NumLEDs
    ensures forall i :: 0 <= i < NumLEDs ==> lits[i] == rp[NumLEDs * j + i].lit
  {
    seq(NumLEDs, i requires 0 <= i < NumLEDs => rp[NumLEDs * j + i].lit)
  }

  /** The packed word of slice `j`. */
  function SliceWord(rp: seq<RadialPixel>, order: seq<int>, j: nat): bv32
    requires WellFormedOrder(order) && NumLEDs * j + NumLEDs <= |rp|
  {
    Pack(SliceLits(rp, j), order, NumLEDs)
  }

  /** The packed words of the first `n` slices. */
  function SliceWords(rp: seq<RadialPixel>, order: seq<int>, n: nat): (ws: seq<bv32>)
    requires WellFormedOrder(order) && NumLEDs * n <= |rp|
    ensures |ws| == n
  {
    if n == 0 then [] else SliceWords(rp, order, n - 1) + [SliceWord(rp, order, n - 1)]
  }

  /** Entry `j` of the packed words is the word of slice `j`. */
  lemma {:induction false} SliceWordsAt(rp: seq<RadialPixel>, order: seq<int>, n: nat, j: nat)
    requires WellFormedOrder(order) && NumLEDs * n <= |rp| && j < n
    ensures SliceWords(rp, order, n)[j] == SliceWord(rp, order, j)
  {
    if j < n - 1 {
      SliceWordsAt(rp, order, n - 1, j);
    }
  }

  /**
   * With a permuted wiring table, bit `order[i]` of the word of slice `j` is set
   * iff the cell of LED `i` at slice `j` is lit, and every other bit is clear.
   */
  lemma SliceWordBits(rp: seq<RadialPixel>, order: seq<int>, j: nat, i: nat, b: BitIndex)
    requires IsPermutation(order, NumLEDs) && NumLEDs * j + NumLEDs <= |rp| && i < NumLEDs
    ensures BitSet(SliceWord(rp, order, j), Position(order[i])) <==> rp[NumLEDs * j + i].lit
    ensures BitSet(SliceWord(rp, order, j), b)
        <==> exists k :: 0 <= k < NumLEDs && Position(order[k]) == b && rp[NumLEDs * j + k].lit
  {
    var lits := SliceLits(rp, j);
    PackBitOfLed(lits, order, i);
    PackBit(lits, order, NumLEDs, b);
  }

  /** The byte at `shift` for `shift` in 24, 16, 8, 0 is byte `(24 - shift) / 8` of the word's emission. */
  lemma WordBytesAt(w: bv32, k: nat)
    requires k < 4
    ensures WordBytes(w)[k] == ByteAt(w, 24 - 8 * k)
  {
    if k == 0 {
      assert 24 - 8 * k == 24;
    } else if k == 1 {
      assert 24 - 8 * k == 16;
    } else if k == 2 {
      assert 24 - 8 * k == 8;
    } else {
      assert 24 - 8 * k == 0;
    }
  }

  /**
   * The inner loop of `makeByteCode` over one slice: ORs `1 << ledOrder[i]`
   * into `tmp` for every lit LED `i` of slice `j`.
   */
  method PackSlice(rp: array<RadialPixel>, ledOrder: array<int>, j: nat) returns (tmp: bv32)
    requires NumLEDs * j + NumLEDs <= rp.Length
    requires WellFormedOrder(ledOrder[..])
    ensures tmp == SliceWord(rp[..], ledOrder[..], j)
  {
    ghost var lits, order := SliceLits(rp[..], j), ledOrder[..];
    tmp := 0;
    var i := 0;
    while i < 32
      invariant 0 <= i <= 32
      invariant tmp == Pack(lits, order, i)
    {
      PackNext(lits, order, i);
      if rp[32 * j + i].lit {
        tmp := tmp | LedBit(ledOrder[i]);
      }
      i := i + 1;
    }
  }

  /**
   * The byte loop of `makeByteCode`: the text written for `tmp`, one token per
   * byte `(uint8_t)(tmp >> s)` for `s` = 24, 16, 8, 0.
   */
  method WriteWord(tmp: bv32) returns (text: string)
    ensures text == WordText(tmp)
  {
    text := "";
    ghost var k := 0;
    var s := 24;
    while s > -1
      invariant 0 <= k <= 4 && s == 24 - 8 * k
      invariant text == Tokens(WordBytes(tmp)[..k])
    {
      WordBytesAt(tmp, k);
      assert WordBytes(tmp)[..k + 1][..k] == WordBytes(tmp)[..k];
      text := text + Token(ByteAt(tmp, s));
      s := s - 8;
      k := k + 1;
    }
    assert WordBytes(tmp)[..k] == WordBytes(tmp);
  }

  /**
   * `makeByteCode`: packs each of the 256 slices into a word, writes the word's
   * four tokens, and ends the line after every fourth slice.
   */
  method MakeByteCode(rp: array<RadialPixel>, ledOrder: array<int>) returns (output: string)
    requires rp.Length == NumLEDs * NumSlices
    requires WellFormedOrder(ledOrder[..])
    ensures output == Serialize(SliceWords(rp[..], ledOrder[..], NumSlices))
  {
    output := "";
    for j := 0 to 256
      invariant output == Serialize(SliceWords(rp[..], ledOrder[..], j))
    {
      var tmp := PackSlice(rp, ledOrder, j);
      var text := WriteWord(tmp);
      SerializeAppend(SliceWords(rp[..], ledOrder[..], j), tmp);
      output := output + text;
      if j % 4 == 3 {
        output := output + "\n";
      }
    }
  }
}
