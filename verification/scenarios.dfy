/** Concrete conversions that illustrate the codec, and how lenient its decoding is. */
module Scenarios {
  import opened Results
  import opened PyStr
  import opened Bits
  import opened IntParse
  import opened Codec

  function B(c: CodePoint): nat {
    if c == ONE then 1 else 0
  }

  /** The value of an eight-digit numeral, digit by digit. */
  lemma ValueOfByte(tok: Text)
    requires |tok| == WIDTH && AllBits(tok)
    ensures ValueOf(tok) == 128 * B(tok[0]) + 64 * B(tok[1]) + 32 * B(tok[2]) + 16 * B(tok[3])
      + 8 * B(tok[4]) + 4 * B(tok[5]) + 2 * B(tok[6]) + B(tok[7])
  {
    assert tok[..0] == [];
    ValueOfPrefixStep(tok, 0);
    ValueOfPrefixStep(tok, 1);
    ValueOfPrefixStep(tok, 2);
    ValueOfPrefixStep(tok, 3);
    ValueOfPrefixStep(tok, 4);
    ValueOfPrefixStep(tok, 5);
    ValueOfPrefixStep(tok, 6);
    ValueOfPrefixStep(tok, 7);
    assert tok[..8] == tok;
  }

  /** One more digit of a numeral's prefix doubles the prefix's value and adds the digit. */
  lemma ValueOfPrefixStep(tok: Text, k: nat)
    requires AllBits(tok) && k < |tok|
    ensures ValueOf(tok[..k + 1]) == 2 * ValueOf(tok[..k]) + B(tok[k])
  {
    assert tok[..k + 1][..k] == tok[..k];
  }

  const D65: Text := [ZERO, ONE, ZERO, ZERO, ZERO, ZERO, ZERO, ONE]   // "01000001"
  const D66: Text := [ZERO, ONE, ZERO, ZERO, ZERO, ZERO, ONE, ZERO]   // "01000010"
  const D72: Text := [ZERO, ONE, ZERO, ZERO, ONE, ZERO, ZERO, ZERO]   // "01001000"
  const D105: Text := [ZERO, ONE, ONE, ZERO, ONE, ZERO, ZERO, ONE]   // "01101001"

  lemma Value65(n: nat)
    requires n == 0x41
    ensures AllBits(D65) && ValueOf(D65) == n
  {
    ValueOfByte(D65);
  }

  lemma Value66(n: nat)
    requires n == 0x42
    ensures AllBits(D66) && ValueOf(D66) == n
  {
    ValueOfByte(D66);
  }

  lemma Value72(n: nat)
    requires n == 0x48
    ensures AllBits(D72) && ValueOf(D72) == n
  {
    ValueOfByte(D72);
  }

  lemma Value105(n: nat)
    requires n == 0x69
    ensures AllBits(D105) && ValueOf(D105) == n
  {
    ValueOfByte(D105);
  }

  /** `text_to_binary("A") == "01000001"` (code point 65). */
  lemma EncodeA(t: Text)
    requires t == [0x41]  // "A"
    ensures TextToBinary(t) == D65
  {
    Value65(t[0]);
    EncodeOneByte(t, D65);
  }

  /** A one-character text encodes to the token of that character. */
  lemma EncodeOne(t: Text)
    requires |t| == 1
    ensures TextToBinary(t) == Format08b(t[0])
  {
    assert Tokens(t) == [Format08b(t[0])];
  }

  /** A two-character text encodes to the tokens of its characters around one space. */
  lemma EncodeTwo(t: Text)
    requires |t| == 2
    ensures TextToBinary(t) == Format08b(t[0]) + [SPACE] + Format08b(t[1])
  {
    var ts := Tokens(t);
    assert ts == [Format08b(t[0]), Format08b(t[1])];
    assert Join(ts) == ts[0] + [SPACE] + Join(ts[1..]);
  }

  /** Two words around one space split into exactly those two words. */
  lemma SplitTwo(a: Text, b: Text)
    requires IsWord(a) && IsWord(b)
    ensures Split(a + [SPACE] + b) == [a, b]
  {
    assert Join([a, b]) == a + [SPACE] + Join([b]);
    assert AllWords([a, b]);
    SplitJoin([a, b]);
  }

  /** Two tokens around one space decode to their two code points. */
  lemma DecodeTwo(a: Text, b: Text, c: CodePoint, d: CodePoint)
    requires IsWord(a) && IsWord(b)
    requires DecodeToken(a) == Ok(c) && DecodeToken(b) == Ok(d)
    ensures BinaryToText(a + [SPACE] + b) == Ok([c, d])
  {
    SplitTwo(a, b);
    var toks, t := [a, b], [c, d];
    assert toks[0] == a && toks[1] == b && t[0] == c && t[1] == d;
    DecodeTokensAllOk(toks, t);
  }

  /** `text_to_binary("Hi") == "01001000 01101001"` (code points 72 and 105). */
  lemma EncodeHi(t: Text)
    requires t == [0x48, 0x69]  // "Hi"
    ensures TextToBinary(t) == D72 + [SPACE] + D105
  {
    Value72(t[0]);
    Value105(t[1]);
    EncodeTwoBytes(t, D72, D105);
  }

  /** A one-character text encodes to the eight-digit numeral of its code point. */
  lemma EncodeOneByte(t: Text, a: Text)
    requires |t| == 1
    requires |a| == WIDTH && AllBits(a) && ValueOf(a) == t[0]
    ensures TextToBinary(t) == a
  {
    ValueOfBound(a);
    Pow2Width();
    EncodeOne(t);
    Format08bOfByte(t[0], a);
  }

  /** A two-character text encodes to the eight-digit numerals of its code points around one space. */
  lemma EncodeTwoBytes(t: Text, a: Text, b: Text)
    requires |t| == 2
    requires |a| == WIDTH && AllBits(a) && ValueOf(a) == t[0]
    requires |b| == WIDTH && AllBits(b) && ValueOf(b) == t[1]
    ensures TextToBinary(t) == a + [SPACE] + b
  {
    ValueOfBound(a);
    ValueOfBound(b);
    Pow2Width();
    EncodeTwo(t);
    Format08bOfByte(t[0], a);
    Format08bOfByte(t[1], b);
  }

  /** `binary_to_text("01000001 01000010") == "AB"`. */
  lemma DecodeAB(s: Text, t: Text)
    requires s == D65 + [SPACE] + D66
    requires t == [0x41, 0x42]  // "AB"
    ensures BinaryToText(s) == Ok(t)
  {
    Value65(t[0]);
    Value66(t[1]);
    DecodeTwoBytes(D65, D66);
  }

  /** Two eight-digit numerals around one space decode to their two values. */
  lemma DecodeTwoBytes(a: Text, b: Text)
    requires |a| == WIDTH && AllBits(a)
    requires |b| == WIDTH && AllBits(b)
    ensures ValueOf(a) <= MAX_CODE_POINT && ValueOf(b) <= MAX_CODE_POINT
    ensures BinaryToText(a + [SPACE] + b) == Ok([ValueOf(a), ValueOf(b)])
  {
    ValueOfBound(a);
    ValueOfBound(b);
    Pow2Width();
    DecodeBitsToken(a);
    DecodeBitsToken(b);
    DecodeTwo(a, b, ValueOf(a), ValueOf(b));
  }

  /** A non-empty run of printable ASCII characters other than SPACE is one token. */
  lemma SplitGraphic(s: Text)
    requires |s| > 0 && forall i :: 0 <= i < |s| ==> 0x21 <= s[i] < 0x7F
    ensures Split(s) == [s]
  {
    GraphicIsWord(s);
    assert AllWords([s]);
    assert Join([s]) == s;
    SplitJoin([s]);
  }

  /** `binary_to_text("12345678")` fails: '2' cannot occur in a base-2 literal. */
  lemma DecodeRejectsDecimalDigits(s: Text)
    requires s == [0x31, 0x32, 0x33, 0x34, 0x35, 0x36, 0x37, 0x38]  // "12345678"
    ensures BinaryToText(s) == Err(InvalidBinaryFormat(InvalidLiteral(s)))
  {
    SplitGraphic(s);
    ParseRejectsForeignChar(s, 1);
  }

  /** `binary_to_text("-1")` fails: `int` accepts the sign, but `chr(-1)` does not. */
  lemma DecodeRejectsNegative(s: Text)
    requires s == [MINUS, ONE]  // "-1"
    ensures BinaryToText(s) == Err(InvalidBinaryFormat(CodePointOutOfRange(-1)))
  {
    SplitGraphic(s);
    ToAsciiOfAscii(s);
    ParseSignExample(s, s[1..]);
  }

  /** `binary_to_text("0b101 1_0")` succeeds: prefixes and underscores are accepted. */
  lemma DecodeLenientTokens(s: Text)
    requires s == [ZERO, LOWER_B, ONE, ZERO, ONE, SPACE, ONE, UNDERSCORE, ZERO]  // "0b101 1_0"
    ensures BinaryToText(s) == Ok([5, 2])
  {
    var a, b := s[..5], s[6..];
    assert s == a + [SPACE] + b;
    DecodeLenientPair(a, b);
  }

  lemma DecodeLenientPair(a: Text, b: Text)
    requires a == [ZERO, LOWER_B, ONE, ZERO, ONE]  // "0b101"
    requires b == [ONE, UNDERSCORE, ZERO]  // "1_0"
    ensures BinaryToText(a + [SPACE] + b) == Ok([5, 2])
  {
    assert forall i :: 0 <= i < |a| ==> 0x21 <= a[i] < 0x7F;
    assert forall i :: 0 <= i < |b| ==> 0x21 <= b[i] < 0x7F;
    assert ParseAscii(a) == Some(5) by { ParsePrefixExample(a, a[2..]); }
    assert ParseAscii(b) == Some(2) by { ParseUnderscoreExample(b); }
    DecodeTwoAscii(a, b, 5, 2);
  }

  /** Two printable ASCII tokens that the base-2 grammar reads as code points decode to them. */
  lemma DecodeTwoAscii(a: Text, b: Text, c: CodePoint, d: CodePoint)
    requires |a| > 0 && forall i :: 0 <= i < |a| ==> 0x21 <= a[i] < 0x7F
    requires |b| > 0 && forall i :: 0 <= i < |b| ==> 0x21 <= b[i] < 0x7F
    requires ParseAscii(a) == Some(c as int) && ParseAscii(b) == Some(d as int)
    ensures BinaryToText(a + [SPACE] + b) == Ok([c, d])
  {
    GraphicIsWord(a);
    GraphicIsWord(b);
    DecodeAsciiToken(a);
    DecodeAsciiToken(b);
    DecodeTwo(a, b, c, d);
  }

  /** An ASCII token decodes as the base-2 grammar reads it. */
  lemma DecodeAsciiToken(tok: Text)
    requires forall i :: 0 <= i < |tok| ==> tok[i] < 0x7F
    ensures ParseAscii(tok).None? ==> DecodeToken(tok) == Err(InvalidLiteral(tok))
    ensures ParseAscii(tok).Some? ==> DecodeToken(tok) == Chr(ParseAscii(tok).value)
  {
    ToAsciiOfAscii(tok);
  }

  /** A non-empty run of printable ASCII characters other than SPACE holds no whitespace. */
  lemma GraphicIsWord(w: Text)
    requires |w| > 0 && forall i :: 0 <= i < |w| ==> 0x21 <= w[i] < 0x7F
    ensures IsWord(w)
  {
  }
}
