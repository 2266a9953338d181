/**
 * `int(token, 2)` on a whitespace-free token, as CPython parses it.
 *
 * Before parsing, CPython takes a token whose code points are all ASCII
 * (below U+0080) as it is. Any other token it copies into ASCII: a code
 * point below U+007F stays, whitespace becomes a space and a Unicode decimal
 * digit the ASCII digit of the same value. At the first code point with no
 * such stand-in, U+007F included, it writes '?' and drops the rest of the
 * token. The model maps every token as the loop does, but writes '?' for
 * each code point without a stand-in and keeps the rest; neither U+007F nor
 * '?' occurs in a numeral, so the verdict is the same
 * (`TruncatedAsciiAgrees`). The ASCII text is then read as: an optional sign, an optional "0b"/"0B" prefix that may be
 * followed by one underscore, and a non-empty run of the digits 0 and 1 in
 * which single underscores may separate digits.
 */
module IntParse {
  import opened Results
  import opened PyStr
  import opened Bits

  const UNDERSCORE: CodePoint := 0x5F  // '_'
  const PLUS: CodePoint := 0x2B        // '+'
  const MINUS: CodePoint := 0x2D       // '-'
  const LOWER_B: CodePoint := 0x62     // 'b'
  const UPPER_B: CodePoint := 0x42     // 'B'
  const QUESTION: CodePoint := 0x3F    // '?'

  /**
   * The digit zero of each block of ten Unicode decimal digits (general
   * category Nd), as of Unicode 14.0, the character database of CPython
   * 3.11; listed from the highest, so that the lookup below meets the
   * common scripts first.
   */
  const DECIMAL_ZEROS: seq<int> :=
    [0x1FBF0, 0x1E950, 0x1E2F0, 0x1E140, 0x1D7F6, 0x1D7EC, 0x1D7E2, 0x1D7D8, 0x1D7CE, 0x16B50] +
    [0x16AC0, 0x16A60, 0x11DA0, 0x11D50, 0x11C50, 0x11950, 0x118E0, 0x11730, 0x116C0, 0x11650] +
    [0x114D0, 0x11450, 0x112F0, 0x111D0, 0x11136, 0x110F0, 0x11066, 0x10D30, 0x104A0, 0xFF10] +
    [0xABF0, 0xAA50, 0xA9F0, 0xA9D0, 0xA900, 0xA8D0, 0xA620, 0x1C50, 0x1C40, 0x1BB0] +
    [0x1B50, 0x1A90, 0x1A80, 0x19D0, 0x1946, 0x1810, 0x17E0, 0x1090, 0x1040, 0x0F20] +
    [0x0ED0, 0x0E50, 0x0DE6, 0x0D66, 0x0CE6, 0x0C66, 0x0BE6, 0x0B66, 0x0AE6, 0x0A66] +
    [0x09E6, 0x0966, 0x07C0, 0x06F0, 0x0660, 0x0030]

  /** The decimal value of `c` if it lies in one of the blocks starting at `zeros`, else -1. */
  function DecimalValueIn(c: int, zeros: seq<int>): (d: int)
    ensures -1 <= d <= 9
  {
    if |zeros| == 0 then -1
    else
      var z := zeros[|zeros| - 1];
      if z <= c < z + 10 then c - z
      else DecimalValueIn(c, zeros[..|zeros| - 1])
  }

  /** Python's `unicodedata.decimal(c, -1)`. */
  function DecimalValue(c: int): int {
    DecimalValueIn(c, DECIMAL_ZEROS)
  }

  /** The ASCII code point CPython's copying loop writes in place of `c`. */
  function AsciiForm(c: CodePoint): (a: CodePoint)
    ensures a < 0x7F
    ensures c < 0x7F ==> a == c
  {
    if c < 0x7F then c
    else if IsSpace(c) then SPACE
    else if DecimalValue(c) >= 0 then ZERO + DecimalValue(c)
    else QUESTION
  }

  /**
   * The ASCII form of `tok`, code point by code point. It is not always the
   * text CPython's `int()` parses (`TruncatedAscii`), but it parses alike.
   */
  function ToAscii(tok: Text): (a: Text)
    ensures |a| == |tok|
    ensures forall i :: 0 <= i < |tok| ==> a[i] == AsciiForm(tok[i])
  {
    seq(|tok|, i requires 0 <= i < |tok| => AsciiForm(tok[i]))
  }

  /** The digit part of a base-2 literal: 0/1 digits with single underscores between them. */
  predicate DigitBody(b: Text) {
    && |b| > 0 && IsBit(b[0]) && IsBit(b[|b| - 1])
    && (forall i :: 0 <= i < |b| ==> IsBit(b[i]) || b[i] == UNDERSCORE)
    && (forall i, j :: 0 <= i < |b| && 0 <= j < |b| && j == i + 1 ==> b[i] != UNDERSCORE || b[j] != UNDERSCORE)
  }

  /** The digits of `b` with every underscore dropped. */
  function RemoveUnderscores(b: Text): (d: Text)
    ensures (forall i :: 0 <= i < |b| ==> IsBit(b[i]) || b[i] == UNDERSCORE) ==> AllBits(d)
  {
    if |b| == 0 then []
    else
      var init := b[..|b| - 1];
      assert forall i :: 0 <= i < |init| ==> init[i] == b[i];
      RemoveUnderscores(init) + (if b[|b| - 1] == UNDERSCORE then [] else [b[|b| - 1]])
  }

  lemma {:induction false} RemoveUnderscoresOfBits(b: Text)
    requires AllBits(b)
    ensures RemoveUnderscores(b) == b
  {
    if |b| > 0 {
      RemoveUnderscoresOfBits(b[..|b| - 1]);
      assert b[..|b| - 1] + [b[|b| - 1]] == b;
    }
  }

  /** Length of the optional leading sign. */
  function SignLen(a: Text): (n: nat)
    ensures n <= 1 && n <= |a|
  {
    if |a| > 0 && (a[0] == PLUS || a[0] == MINUS) then 1 else 0
  }

  /** Length of the optional "0b"/"0B" prefix together with the one underscore allowed after it. */
  function PrefixLen(u: Text): (n: nat)
    ensures n <= |u|
  {
    if |u| >= 2 && u[0] == ZERO && (u[1] == LOWER_B || u[1] == UPPER_B) then
      if |u| >= 3 && u[2] == UNDERSCORE then 3 else 2
    else 0
  }

  /**
   * The base-2 literal grammar on the ASCII form of a token. An accepted
   * literal is non-empty and made only of digits, underscores, signs and
   * 'b'/'B'; its value is negative only after a leading '-'.
   */
  function ParseAscii(a: Text): (r: Option<int>)
    ensures r.Some? ==> |a| > 0 && forall i :: 0 <= i < |a| ==> IsLiteralChar(a[i])
    ensures r.Some? && r.value < 0 ==> a[0] == MINUS
  {
    var u := a[SignLen(a)..];
    var body := u[PrefixLen(u)..];
    if DigitBody(body) then
      ParsedCharsAreLiteral(a);
      var m: int := ValueOf(RemoveUnderscores(body));
      Some(if SignLen(a) == 1 && a[0] == MINUS then -m else m)
    else None
  }

  /**
   * `int(tok, 2)`: the integer the token denotes, or None where Python
   * raises ValueError. Only a non-empty token whose every code point stands
   * for a literal character can be accepted.
   */
  function ParseToken(tok: Text): (r: Option<int>)
    ensures r.Some? ==> |tok| > 0 && forall i :: 0 <= i < |tok| ==> IsLiteralChar(AsciiForm(tok[i]))
    ensures r.Some? && r.value < 0 ==> AsciiForm(tok[0]) == MINUS
  {
    ParseAscii(ToAscii(tok))
  }

  /**
   * CPython's digit scan over the part after sign and prefix: refuses a
   * leading underscore, stops at the first code point that is neither a
   * binary digit nor an underscore, refuses a doubled or trailing
   * underscore, and refuses anything left unread. It accepts exactly the
   * digit bodies and computes their value.
   */
  method ScanDigits(b: Text) returns (r: Option<nat>)
    ensures r.Some? <==> DigitBody(b)
    ensures r.Some? ==> r.value == ValueOf(RemoveUnderscores(b))
  {
    if |b| == 0 || b[0] == UNDERSCORE {
      return None;
    }
    var i := 0;
    var value := 0;
    var prev := 0;
    ghost var digits: Text := [];
    while i < |b| && (IsBit(b[i]) || b[i] == UNDERSCORE) && !(b[i] == UNDERSCORE && prev == UNDERSCORE)
      invariant ScanInvariant(b, i, prev, digits)
      invariant value == ValueOf(digits)
    {
      ScanStep(b, i, prev, digits);
      if b[i] != UNDERSCORE {
        ValueOfSnoc(digits, b[i]);
        value := 2 * value + (if b[i] == ONE then 1 else 0);
        digits := digits + [b[i]];
      }
      prev := b[i];
      i := i + 1;
    }
    ScanEnd(b, i, prev, digits);
    if i < |b| || prev == UNDERSCORE {
      return None;
    }
    return Some(value);
  }

  /**
   * What the scan knows after reading `b[..i]`: only digits and single
   * underscores so far, `prev` is the last code point read, and `digits`
   * holds the digits read.
   */
  ghost predicate ScanInvariant(b: Text, i: nat, prev: int, digits: Text) {
    && i <= |b|
    && (forall j :: 0 <= j < i ==> IsBit(b[j]) || b[j] == UNDERSCORE)
    && (forall k :: 0 < k < i ==> b[k - 1] != UNDERSCORE || b[k] != UNDERSCORE)
    && (if i > 0 then prev == b[i - 1] else prev != UNDERSCORE)
    && digits == RemoveUnderscores(b[..i]) && AllBits(digits)
  }

  /** Reading a digit or a single underscore keeps the scan invariant. */
  lemma ScanStep(b: Text, i: nat, prev: int, digits: Text)
    requires ScanInvariant(b, i, prev, digits)
    requires i < |b| && (IsBit(b[i]) || b[i] == UNDERSCORE)
    requires b[i] != UNDERSCORE || prev != UNDERSCORE
    ensures ScanInvariant(b, i + 1, b[i], if b[i] == UNDERSCORE then digits else digits + [b[i]])
  {
    RemoveUnderscoresSnoc(b, i);
    assert digits + [] == digits;
  }

  /** Where the scan stops decides whether the whole text is a digit body. */
  lemma ScanEnd(b: Text, i: nat, prev: int, digits: Text)
    requires |b| > 0 && b[0] != UNDERSCORE
    requires ScanInvariant(b, i, prev, digits)
    requires i == |b| || !(IsBit(b[i]) || b[i] == UNDERSCORE) || (b[i] == UNDERSCORE && prev == UNDERSCORE)
    ensures DigitBody(b) <==> i == |b| && prev != UNDERSCORE
    ensures i == |b| ==> digits == RemoveUnderscores(b)
  {
    if i == |b| {
      assert b[..i] == b;
    } else if b[i] == UNDERSCORE && prev == UNDERSCORE {
      assert b[i - 1] == UNDERSCORE;
    }
  }

  /** Reading one more code point of a digit body. */
  lemma RemoveUnderscoresSnoc(b: Text, i: nat)
    requires i < |b|
    ensures RemoveUnderscores(b[..i + 1]) ==
      RemoveUnderscores(b[..i]) + (if b[i] == UNDERSCORE then [] else [b[i]])
  {
    assert b[..i + 1][..i] == b[..i];
  }

  /**
   * The whole of `int(tok, 2)`, in CPython's order: sign, prefix, then the
   * digit scan. It agrees with the grammar above on every token.
   */
  method IntBase2(tok: Text) returns (r: Option<int>)
    ensures r == ParseToken(tok)
  {
    var a := ToAscii(tok);
    r := ParseAsciiScan(a);
  }

  /** Sign, prefix and digit scan over an ASCII text, in CPython's order. */
  method ParseAsciiScan(a: Text) returns (r: Option<int>)
    ensures r == ParseAscii(a)
  {
    var i, negative := SkipSign(a);
    var j := SkipPrefix(a, i);
    assert a[j..] == a[i..][PrefixLen(a[i..])..];
    var m := ScanDigits(a[j..]);
    ParseAsciiOfBody(a, a[j..], negative);
    if m.None? {
      return None;
    }
    var v: int := m.value;
    return Some(if negative then -v else v);
  }

  /** Reads an optional '+' or '-'; the result is the index after it and whether it was '-'. */
  method SkipSign(a: Text) returns (i: nat, negative: bool)
    ensures i == SignLen(a)
    ensures negative <==> i == 1 && a[0] == MINUS
  {
    i, negative := 0, false;
    if |a| > 0 && a[0] == PLUS {
      i := 1;
    } else if |a| > 0 && a[0] == MINUS {
      i, negative := 1, true;
    }
  }

  /** Reads an optional "0b"/"0B" at index `i` and the one underscore allowed after it. */
  method SkipPrefix(a: Text, i: nat) returns (j: nat)
    requires i <= |a|
    ensures j == i + PrefixLen(a[i..])
  {
    j := i;
    if i + 1 < |a| && a[i] == ZERO && (a[i + 1] == LOWER_B || a[i + 1] == UPPER_B) {
      j := i + 2;
      if j < |a| && a[j] == UNDERSCORE {
        j := j + 1;
      }
    }
  }

  /** The grammar's verdict, given the digit body left after sign and prefix. */
  lemma ParseAsciiOfBody(a: Text, body: Text, negative: bool)
    requires body == a[SignLen(a)..][PrefixLen(a[SignLen(a)..])..]
    requires negative <==> SignLen(a) == 1 && a[0] == MINUS
    ensures !DigitBody(body) ==> ParseAscii(a) == None
    ensures DigitBody(body) ==>
      var m: int := ValueOf(RemoveUnderscores(body));
      ParseAscii(a) == Some(if negative then -m else m)
  {
  }

  /** A non-empty string of '0'/'1' digits parses to the number it denotes in base 2. */
  lemma ParseAllBits(tok: Text)
    requires |tok| > 0 && AllBits(tok)
    ensures ParseToken(tok) == Some(ValueOf(tok))
  {
    ToAsciiOfAscii(tok);
    ParseAsciiBits(tok);
  }

  /** A non-empty string of '0'/'1' digits is a literal of the grammar with the value it denotes. */
  lemma ParseAsciiBits(a: Text)
    requires |a| > 0 && AllBits(a)
    ensures ParseAscii(a) == Some(ValueOf(a))
  {
    assert SignLen(a) == 0 by { assert IsBit(a[0]); }
    assert a[0..] == a;
    assert PrefixLen(a) == 0 by { if |a| >= 2 { assert IsBit(a[1]); } }
    assert DigitBody(a) by { assert IsBit(a[0]) && IsBit(a[|a| - 1]); }
    RemoveUnderscoresOfBits(a);
    ParseAsciiOfBody(a, a, false);
  }

  /** The code points that can occur, after CPython's ASCII mapping, in an accepted literal. */
  predicate IsLiteralChar(c: int) {
    IsBit(c) || c == UNDERSCORE || c == PLUS || c == MINUS || c == LOWER_B || c == UPPER_B
  }

  /** Every code point of the sign and the prefix is a literal character. */
  lemma SignAndPrefixAreLiteralChars(a: Text)
    ensures forall k :: 0 <= k < SignLen(a) + PrefixLen(a[SignLen(a)..]) ==> IsLiteralChar(a[k])
  {
    var s := SignLen(a);
    var u := a[s..];
    forall k | 0 <= k < s + PrefixLen(u)
      ensures IsLiteralChar(a[k])
    {
      if k >= s {
        assert a[k] == u[k - s];
      }
    }
  }

  /** A text the grammar accepts consists of literal characters only. */
  lemma ParsedCharsAreLiteral(a: Text)
    requires DigitBody(a[SignLen(a)..][PrefixLen(a[SignLen(a)..])..])
    ensures forall i :: 0 <= i < |a| ==> IsLiteralChar(a[i])
  {
    var s := SignLen(a);
    var p := PrefixLen(a[s..]);
    var body := a[s..][p..];
    SignAndPrefixAreLiteralChars(a);
    forall i | s + p <= i < |a|
      ensures IsLiteralChar(a[i])
    {
      assert a[i] == body[i - s - p];
    }
  }

  /**
   * A token holding a code point whose ASCII stand-in is not a binary
   * digit, underscore, sign or 'b'/'B' is rejected. Such code points are,
   * for instance, the digits '2'..'9' and letters other than 'b'/'B'; a
   * non-ASCII decimal digit 0 or 1 is not among them.
   */
  lemma ParseRejectsForeignChar(tok: Text, i: nat)
    requires i < |tok| && !IsLiteralChar(AsciiForm(tok[i]))
    ensures ParseToken(tok) == None
  {
  }

  /** An all-ASCII token is read as it is. */
  lemma ToAsciiOfAscii(t: Text)
    requires forall i :: 0 <= i < |t| ==> t[i] < 0x7F
    ensures ParseToken(t) == ParseAscii(t)
  {
    assert ToAscii(t) == t;
  }

  /** Every code point of `t` is ASCII, U+007F included. */
  predicate IsAsciiText(t: Text) {
    forall i :: 0 <= i < |t| ==> t[i] < 0x80
  }

  /**
   * CPython's copying loop for a token that is not all ASCII: code points
   * copied by their stand-ins until the first one at or above U+007F that
   * has none, which becomes '?' and ends the text.
   */
  function CopyUntilForeign(tok: Text): (a: Text)
    ensures |a| <= |tok|
    ensures forall i :: 0 <= i < |a| ==> a[i] == AsciiForm(tok[i])
  {
    if |tok| == 0 then []
    else if tok[0] >= 0x7F && AsciiForm(tok[0]) == QUESTION then [QUESTION]
    else [AsciiForm(tok[0])] + CopyUntilForeign(tok[1..])
  }

  /**
   * The ASCII text CPython's `int()` actually parses: an all-ASCII token as
   * it is, U+007F included; any other token through the copying loop.
   */
  function TruncatedAscii(tok: Text): (a: Text)
    ensures |a| <= |tok|
    ensures IsAsciiText(tok) ==> a == tok
    ensures !IsAsciiText(tok) ==> forall i :: 0 <= i < |a| ==> a[i] == AsciiForm(tok[i])
  {
    if IsAsciiText(tok) then tok else CopyUntilForeign(tok)
  }

  /** Where the copying loop drops something, its text ends in '?', and the full ASCII form has '?' there too. */
  lemma {:induction false} CopyUntilForeignCut(tok: Text)
    requires |CopyUntilForeign(tok)| < |tok|
    ensures |CopyUntilForeign(tok)| > 0
    ensures CopyUntilForeign(tok)[|CopyUntilForeign(tok)| - 1] == QUESTION
    ensures ToAscii(tok)[|CopyUntilForeign(tok)| - 1] == QUESTION
  {
    if !(tok[0] >= 0x7F && AsciiForm(tok[0]) == QUESTION) {
      CopyUntilForeignCut(tok[1..]);
    }
  }

  /**
   * Where something is dropped, the truncated text ends in '?', and so does
   * the full ASCII form at the same place.
   */
  lemma TruncatedAsciiCut(tok: Text)
    requires |TruncatedAscii(tok)| < |tok|
    ensures |TruncatedAscii(tok)| > 0
    ensures TruncatedAscii(tok)[|TruncatedAscii(tok)| - 1] == QUESTION
    ensures ToAscii(tok)[|TruncatedAscii(tok)| - 1] == QUESTION
  {
    CopyUntilForeignCut(tok);
  }

  /** A code point that is no literal character anywhere rejects the text. */
  lemma ForeignCharRejected(a: Text, k: nat)
    requires k < |a| && !IsLiteralChar(a[k])
    ensures ParseAscii(a) == None
  {
  }

  /** A code point in none of the blocks starting at `zeros` is no decimal digit. */
  lemma {:induction false} DecimalValueInMiss(c: int, zeros: seq<int>)
    requires forall z :: z in zeros ==> !(z <= c < z + 10)
    ensures DecimalValueIn(c, zeros) == -1
  {
    if |zeros| > 0 {
      var init, z := zeros[..|zeros| - 1], zeros[|zeros| - 1];
      assert z in zeros;
      forall y | y in init ensures !(y <= c < y + 10) {
        assert y in zeros;
      }
      DecimalValueInMiss(c, init);
    }
  }

  /** No block of ten decimal digits covers U+007F (DEL). */
  lemma NoDigitBlockAtDel()
    ensures forall z :: z in DECIMAL_ZEROS ==> z < 0x76 || z > 0x7F
  {
  }

  /** DEL has no ASCII stand-in in the copying loop. */
  lemma DelStandIn()
    ensures AsciiForm(0x7F) == QUESTION
  {
    NoDigitBlockAtDel();
    DecimalValueInMiss(0x7F, DECIMAL_ZEROS);
    assert !IsSpace(0x7F);
  }

  /** Parsing the text `int()` actually reads gives the same result as `ParseToken`. */
  lemma TruncatedAsciiAgrees(tok: Text)
    ensures ParseAscii(TruncatedAscii(tok)) == ParseToken(tok)
  {
    var a := TruncatedAscii(tok);
    if IsAsciiText(tok) {
      if k :| 0 <= k < |tok| && tok[k] == 0x7F {
        ForeignCharRejected(tok, k);
        DelStandIn();
        ParseRejectsForeignChar(tok, k);
      } else {
        ToAsciiOfAscii(tok);
      }
    } else if |a| == |tok| {
      assert a == ToAscii(tok) by {
        assert forall i :: 0 <= i < |a| ==> a[i] == ToAscii(tok)[i];
      }
    } else {
      TruncatedAsciiCut(tok);
      ForeignCharRejected(a, |a| - 1);
      ForeignCharRejected(ToAscii(tok), |a| - 1);
    }
  }

  /** The values of "1", "10" and "101". */
  lemma ValueOfSmall(s: Text)
    requires s == [ONE, ZERO, ONE]
    ensures ValueOf(s[..1]) == 1
    ensures ValueOf(s[..2]) == 2
    ensures ValueOf(s) == 5
  {
    assert s[..1][..0] == [];
    assert s[..2][..1] == s[..1];
    assert s[..|s| - 1] == s[..2];
  }

  /** `int("0b101", 2) == 5`: the "0b" prefix is accepted. */
  lemma ParsePrefixExample(a: Text, body: Text)
    requires a == [ZERO, LOWER_B, ONE, ZERO, ONE] && body == a[2..]  // "0b101", "101"
    ensures ParseAscii(a) == Some(5)
  {
    assert body == [ONE, ZERO, ONE];
    assert SignLen(a) == 0 && a[0..] == a && PrefixLen(a) == 2;
    RemoveUnderscoresOfBits(body);
    ValueOfSmall(body);
    ParseAsciiOfBody(a, body, false);
  }

  /** `int("1_0", 2) == 2`: an underscore between digits is accepted. */
  lemma ParseUnderscoreExample(a: Text)
    requires a == [ONE, UNDERSCORE, ZERO]  // "1_0"
    ensures ParseAscii(a) == Some(2)
  {
    assert SignLen(a) == 0 && a[0..] == a && PrefixLen(a) == 0;
    RemoveUnderscoresSnoc(a, 0);
    RemoveUnderscoresSnoc(a, 1);
    RemoveUnderscoresSnoc(a, 2);
    assert a[..0] == [] && a[..3] == a;
    var d := RemoveUnderscores(a);
    assert d == [ONE, ZERO];
    ValueOfSmall(d + [ONE]);
    assert (d + [ONE])[..2] == d;
    ParseAsciiOfBody(a, a, false);
  }

  /** `int("-1", 2) == -1`: a sign is accepted. */
  lemma ParseSignExample(a: Text, body: Text)
    requires a == [MINUS, ONE] && body == a[1..]  // "-1", "1"
    ensures ParseAscii(a) == Some(-1)
  {
    assert body == [ONE];
    assert DigitBody(body);
    RemoveUnderscoresOfBits(body);
    assert body[..0] == [];
    assert ValueOf(body) == 1;
    assert SignLen(a) == 1 && PrefixLen(body) == 0 && body[0..] == body;
    ParseAsciiOfBody(a, body, true);
  }

  /** Arabic-Indic digits one and zero (U+0661, U+0660) parse like "10". */
  lemma ParseNonAsciiDigitsExample(t: Text)
    requires t == [0x0661, 0x0660]
    ensures ParseToken(t) == Some(2)
  {
    assert DecimalValue(t[0]) == 1 && DecimalValue(t[1]) == 0 by {
      var zs := DECIMAL_ZEROS;
      var init := zs[..65];
      assert |zs| == 66 && zs[65] == 0x30 && init[64] == 0x660;
      assert DecimalValueIn(0x661, zs) == DecimalValueIn(0x661, init) == 1;
      assert DecimalValueIn(0x660, zs) == DecimalValueIn(0x660, init) == 0;
    }
    var a := ToAscii(t);
    assert a == [ONE, ZERO];
    ParseAsciiBits(a);
    ValueOfSmall(a + [ONE]);
    assert (a + [ONE])[..2] == a;
  }

  /** `int("1__0", 2)` raises: underscores may not be doubled. */
  lemma ParseRejectsDoubleUnderscore(a: Text)
    requires a == [ONE, UNDERSCORE, UNDERSCORE, ZERO]  // "1__0"
    ensures ParseAscii(a) == None
  {
    assert a[1] == UNDERSCORE && a[2] == UNDERSCORE;
    RejectUnprefixed(a);
  }

  /** An ASCII text of digits and underscores that is no digit body is rejected. */
  lemma RejectUnprefixed(a: Text)
    requires forall i :: 0 <= i < |a| ==> IsBit(a[i]) || a[i] == UNDERSCORE
    requires !DigitBody(a)
    ensures ParseAscii(a) == None
  {
    assert SignLen(a) == 0 && a[0..] == a && PrefixLen(a) == 0;
    ParseAsciiOfBody(a, a, false);
  }

  /** `int("_1", 2)` raises: an underscore may not lead the digits. */
  lemma ParseRejectsLeadingUnderscore(a: Text)
    requires a == [UNDERSCORE, ONE]  // "_1"
    ensures ParseAscii(a) == None
  {
    RejectUnprefixed(a);
  }

  /** `int("1_", 2)` raises: an underscore may not end the digits. */
  lemma ParseRejectsTrailingUnderscore(a: Text)
    requires a == [ONE, UNDERSCORE]  // "1_"
    ensures ParseAscii(a) == None
  {
    RejectUnprefixed(a);
  }

  /** `int("0b", 2)` raises: a prefix needs digits after it. */
  lemma ParseRejectsBarePrefix(a: Text)
    requires a == [ZERO, LOWER_B]  // "0b"
    ensures ParseAscii(a) == None
  {
    assert SignLen(a) == 0 && a[0..] == a && PrefixLen(a) == 2;
    ParseAsciiOfBody(a, a[2..], false);
  }
}
