/**
 * The text form of one byte: `printf("0x%02X,", b)` writes "0x", the byte as
 * exactly two upper-case hexadecimal digits, and a comma.
 */
module HexTokens {
  import opened Wrappers

  /** The digits `%X` uses, indexed by their value. */
  const HexDigits: string := "0123456789ABCDEF"

  /** `c` is one of the sixteen digits `%X` can print. */
  predicate IsUpperHexDigit(c: char) {
    ('0' <= c <= '9') || ('A' <= c <= 'F')
  }

  /** The digit printed for a value below 16. */
  function HexDigit(d: nat): (c: char)
    requires d < 16
    ensures IsUpperHexDigit(c)
    ensures d < 10 ==> c as int == '0' as int + d
    ensures 10 <= d ==> c as int == 'A' as int + (d - 10)
  {
    HexDigits[d]
  }

  /** The value of a printed digit; `None` for any other character, lower-case digits included. */
  function DigitValue(c: char): (v: Option<nat>)
    ensures v.Some? <==> IsUpperHexDigit(c)
    ensures v.Some? ==> v.value < 16
  {
    if '0' <= c <= '9' then Some(c as int - '0' as int)
    else if 'A' <= c <= 'F' then Some(c as int - 'A' as int + 10)
    else None
  }

  /** Reading back a printed digit gives its value. */
  lemma DigitRoundTrip(d: nat)
    requires d < 16
    ensures DigitValue(HexDigit(d)) == Some(d)
  {
  }

  /** A character with a value is the digit printed for that value. */
  lemma DigitValueRoundTrip(c: char)
    requires DigitValue(c).Some?
    ensures HexDigit(DigitValue(c).value) == c
  {
  }

  /** The token `"0x%02X,"` printed for byte `b`: the high digit comes first. */
  function Token(b: bv8): (t: string)
    ensures |t| == 5
    ensures t[0] == '0' && t[1] == 'x' && t[4] == ','
    ensures IsUpperHexDigit(t[2]) && IsUpperHexDigit(t[3])
  {
    "0x" + [HexDigit(b as int / 16), HexDigit(b as int % 16)] + ","
  }

  /** Reads one token back; `None` unless `t` has exactly the printed shape. */
  function ParseToken(t: string): (r: Option<bv8>)
    ensures r.Some? ==> |t| == 5 && t[0] == '0' && t[1] == 'x' && t[4] == ','
  {
    if |t| != 5 || t[0] != '0' || t[1] != 'x' || t[4] != ',' then None
    else match (DigitValue(t[2]), DigitValue(t[3]))
      case (Some(hi), Some(lo)) => Some(ByteOf(hi * 16 + lo))
      case _ => None
  }

  /**
   * The byte whose value is `v`, counted up from 0.  Like `Bits.Position`, this
   * keeps an int-to-bit-vector conversion, which the solver handles very
   * slowly, out of the token proofs; `ByteOfValue` gives its value.
   */
  function ByteOf(v: int): bv8
    requires 0 <= v < 256
  {
    if v == 0 then 0 else ByteOf(v - 1) + 1
  }

  /** `ByteOf(v)` has value `v`. */
  lemma {:induction false} ByteOfValue(v: int)
    requires 0 <= v < 256
    ensures ByteOf(v) as int == v
  {
    if v > 0 {
      ByteOfValue(v - 1);
      var p := ByteOf(v - 1);
      assert (p + 1) as int == p as int + 1;
    }
  }

  /** Every byte is `ByteOf` its own value. */
  lemma ByteOfOwnValue(b: bv8)
    ensures ByteOf(b as int) == b
  {
    ByteOfValue(b as int);
  }

  /** The token text for value `v` reads back as the byte of value `v`. */
  lemma DigitsRoundTrip(v: int)
    requires 0 <= v < 256
    ensures ParseToken("0x" + [HexDigit(v / 16), HexDigit(v % 16)] + ",") == Some(ByteOf(v))
  {
    var hi, lo := v / 16, v % 16;
    var t := "0x" + [HexDigit(hi), HexDigit(lo)] + ",";
    assert |t| == 5 && t[0] == '0' && t[1] == 'x' && t[4] == ',';
    assert t[2] == HexDigit(hi) && t[3] == HexDigit(lo);
    DigitRoundTrip(hi);
    DigitRoundTrip(lo);
    assert hi * 16 + lo == v;
  }

  /** Every printed token reads back as the byte it was printed for. */
  lemma TokenRoundTrip(b: bv8)
    ensures ParseToken(Token(b)) == Some(b)
  {
    DigitsRoundTrip(b as int);
    ByteOfOwnValue(b);
  }

  /** Every string that reads as a byte is the token printed for that byte, so the format is unambiguous. */
  lemma ParseTokenRoundTrip(t: string)
    requires ParseToken(t).Some?
    ensures Token(ParseToken(t).value) == t
  {
    var hi, lo := DigitValue(t[2]).value, DigitValue(t[3]).value;
    DigitValueRoundTrip(t[2]);
    DigitValueRoundTrip(t[3]);
    var v := hi * 16 + lo;
    ByteOfValue(v);
    var b := ByteOf(v);
    assert v / 16 == hi && v % 16 == lo;
    assert Token(b) == "0x" + [t[2], t[3]] + ",";
  }

  /** Different bytes print different tokens. */
  lemma TokenInjective(b: bv8, c: bv8)
    ensures Token(b) == Token(c) <==> b == c
  {
    if Token(b) == Token(c) {
      TokenRoundTrip(b);
      TokenRoundTrip(c);
    }
  }

  /** The tokens of a sequence of bytes, in order and without separators. */
  function Tokens(bs: seq<bv8>): (s: string)
    ensures |s| == 5 * |bs|
  {
    if |bs| == 0 then "" else Tokens(bs[..|bs| - 1]) + Token(bs[|bs| - 1])
  }

  /** The five characters at offset `5 * k` are the token of byte `k`. */
  lemma {:induction false} TokensAt(bs: seq<bv8>, k: nat)
    requires k < |bs|
    ensures Tokens(bs)[5 * k..5 * k + 5] == Token(bs[k])
  {
    var front := bs[..|bs| - 1];
    assert Tokens(bs) == Tokens(front) + Token(bs[|bs| - 1]);
    if k < |bs| - 1 {
      TokensAt(front, k);
      assert Tokens(bs)[5 * k..5 * k + 5] == Tokens(front)[5 * k..5 * k + 5];
    }
  }

  /** No token holds a line break, so token text never contains one. */
  lemma {:induction false} TokensHaveNoLineBreak(bs: seq<bv8>)
    ensures '\n' !in Tokens(bs)
  {
    if |bs| > 0 {
      TokensHaveNoLineBreak(bs[..|bs| - 1]);
      var t := Token(bs[|bs| - 1]);
      assert '\n' !in t;
    }
  }

  /** The tokens of two byte sequences laid end to end are the tokens of the joined sequence. */
  lemma {:induction false} TokensAppend(a: seq<bv8>, b: seq<bv8>)
    ensures Tokens(a + b) == Tokens(a) + Tokens(b)
  {
    if |b| > 0 {
      var n := |b| - 1;
      assert (a + b)[..|a + b| - 1] == a + b[..n];
      TokensAppend(a, b[..n]);
    } else {
      assert a + b == a;
    }
  }
}
