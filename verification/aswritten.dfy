/**
 * `binary_to_text` as written, with the `chr` of every CPython release the
 * package declares (3.7 to 3.11), which converts its argument to a C `int`
 * first. A token whose value does not fit in a C `int` makes `chr` raise
 * OverflowError, which is not a ValueError, so it escapes the
 * `except ValueError` clause without the "Invalid binary format" wrapping
 * that every other malformed token gets. Its `int` is `IntParse.ParseToken`,
 * whose table of decimal digits is that of CPython 3.11.
 */
module AsWritten {
  import opened Results
  import opened PyStr
  import opened Bits
  import opened IntParse
  import opened Codec

  /** The range of a 32-bit C `int`. */
  const C_INT_MIN: int := -0x8000_0000
  const C_INT_MAX: int := 0x7FFF_FFFF

  /** What leaves `binary_to_text` when decoding fails. */
  datatype Raised =
    | Wrapped(error: Error)      // ValueError, re-raised as "Invalid binary format: ..."
    | OverflowError(value: int)  // raised by `chr`, not caught

  /** `chr(n)` with the C `int` conversion of its argument. */
  function ChrAsWritten(n: int): (r: Result<CodePoint, Raised>)
    ensures r.Ok? <==> Chr(n).Ok?
    ensures r.Ok? ==> r.value == n
    ensures r.Err? && (n < C_INT_MIN || C_INT_MAX < n) ==> r.error == OverflowError(n)
    ensures r.Err? && C_INT_MIN <= n <= C_INT_MAX ==> r.error == Wrapped(InvalidBinaryFormat(Chr(n).error))
  {
    if n < C_INT_MIN || C_INT_MAX < n then Err(OverflowError(n))
    else
      match Chr(n)
      case Ok(c) => Ok(c)
      case Err(cause) => Err(Wrapped(InvalidBinaryFormat(cause)))
  }

  /**
   * `chr(int(b, 2))` for one token as written: the values that are code
   * points decode; every other failure is wrapped, except a value outside
   * the C `int` range, which escapes as OverflowError.
   */
  function DecodeTokenAsWritten(tok: Text): (r: Result<CodePoint, Raised>)
    ensures r.Ok? <==> ParseToken(tok).Some? && 0 <= ParseToken(tok).value <= MAX_CODE_POINT
    ensures r.Ok? ==> r.value == ParseToken(tok).value
    ensures r.Err? && r.error.Wrapped? ==> r.error.error.InvalidBinaryFormat?
    ensures r.Err? && r.error.OverflowError? ==>
      ParseToken(tok) == Some(r.error.value) && (r.error.value < C_INT_MIN || C_INT_MAX < r.error.value)
  {
    match ParseToken(tok)
    case None => Err(Wrapped(InvalidBinaryFormat(InvalidLiteral(tok))))
    case Some(n) => ChrAsWritten(n)
  }

  /**
   * The list comprehension as written: on success one code point per token,
   * in order; a failure is what one of the tokens raised.
   */
  function DecodeTokensAsWritten(toks: seq<Text>): (r: Result<Text, Raised>)
    ensures r.Ok? ==> |r.value| == |toks|
    ensures r.Ok? ==> forall i :: 0 <= i < |toks| ==> DecodeTokenAsWritten(toks[i]) == Ok(r.value[i])
    ensures r.Err? ==> exists i :: 0 <= i < |toks| && DecodeTokenAsWritten(toks[i]) == Err(r.error)
    ensures r.Err? && r.error.Wrapped? ==> r.error.error.InvalidBinaryFormat?
    ensures r.Err? && r.error.OverflowError? ==> r.error.value < C_INT_MIN || C_INT_MAX < r.error.value
  {
    if |toks| == 0 then Ok([])
    else
      match DecodeTokenAsWritten(toks[0])
      case Err(e) =>
        assert 0 < |toks| && DecodeTokenAsWritten(toks[0]) == Err(e);
        Err(e)
      case Ok(c) =>
        match DecodeTokensAsWritten(toks[1..])
        case Err(e) =>
          ErrShift(toks, e);
          Err(e)
        case Ok(cs) =>
          MapShift(tok => DecodeTokenAsWritten(tok), v => Ok(v), toks, c, cs);
          Ok([c] + cs)
  }

  /** A token after the first that raises `e` is a token of the whole list that raises it. */
  lemma ErrShift(toks: seq<Text>, e: Raised)
    requires |toks| > 0
    requires exists i :: 0 <= i < |toks[1..]| && DecodeTokenAsWritten(toks[1..][i]) == Err(e)
    ensures exists i :: 0 <= i < |toks| && DecodeTokenAsWritten(toks[i]) == Err(e)
  {
    var i :| 0 <= i < |toks[1..]| && DecodeTokenAsWritten(toks[1..][i]) == Err(e);
    assert toks[i + 1] == toks[1..][i];
  }

  /**
   * `binary_to_text` as written: on success one code point per
   * whitespace-separated token, namely its parsed value; a failure is the
   * wrapped "Invalid binary format" error, or an OverflowError whose value
   * lies outside the C `int` range.
   */
  function BinaryToTextAsWritten(s: Text): (r: Result<Text, Raised>)
    ensures r.Ok? ==> |r.value| == |Split(s)|
    ensures r.Ok? ==> forall i :: 0 <= i < |Split(s)| ==> ParseToken(Split(s)[i]) == Some(r.value[i])
    ensures r.Err? && r.error.Wrapped? ==> r.error.error.InvalidBinaryFormat?
    ensures r.Err? && r.error.OverflowError? ==> r.error.value < C_INT_MIN || C_INT_MAX < r.error.value
  {
    var toks := Split(s);
    var r := DecodeTokensAsWritten(toks);
    if r.Ok? then
      ParsedValues(toks, r.value);
      r
    else r
  }

  /** Code points that the tokens decode to are the values the tokens parse to. */
  lemma ParsedValues(toks: seq<Text>, cs: Text)
    requires |cs| == |toks|
    requires forall i :: 0 <= i < |toks| ==> DecodeTokenAsWritten(toks[i]) == Ok(cs[i])
    ensures forall i :: 0 <= i < |toks| ==> ParseToken(toks[i]) == Some(cs[i])
  {
    forall i | 0 <= i < |toks|
      ensures ParseToken(toks[i]) == Some(cs[i])
    {
      assert DecodeTokenAsWritten(toks[i]).Ok?;
    }
  }

  /** How a decoding error of the corrected decoder surfaces in the code as written. */
  function Surfaced(e: Error): Raised {
    if e.InvalidBinaryFormat? && e.cause.CodePointOutOfRange?
      && (e.cause.value < C_INT_MIN || C_INT_MAX < e.cause.value)
    then OverflowError(e.cause.value)
    else Wrapped(e)
  }

  lemma DecodeTokenAgrees(tok: Text)
    ensures DecodeTokenAsWritten(tok).Ok? <==> DecodeToken(tok).Ok?
    ensures DecodeToken(tok).Ok? ==> DecodeTokenAsWritten(tok).value == DecodeToken(tok).value
    ensures DecodeToken(tok).Err? ==>
      DecodeTokenAsWritten(tok).error == Surfaced(InvalidBinaryFormat(DecodeToken(tok).error))
  {
  }

  /**
   * The two decoders succeed on the same tokens with the same text, and
   * fail on the same first bad token; they differ only in that a value
   * outside the C `int` range surfaces as an unwrapped OverflowError.
   */
  lemma {:induction false} AsWrittenVsCorrected(toks: seq<Text>)
    ensures DecodeTokensAsWritten(toks).Ok? <==> DecodeTokens(toks).Ok?
    ensures DecodeTokens(toks).Ok? ==> DecodeTokensAsWritten(toks).value == DecodeTokens(toks).value
    ensures DecodeTokens(toks).Err? ==> DecodeTokensAsWritten(toks).error == Surfaced(DecodeTokens(toks).error)
  {
    if |toks| > 0 {
      DecodeTokenAgrees(toks[0]);
      AsWrittenVsCorrected(toks[1..]);
    }
  }

  /** The code as written also decodes every encoded text back to itself. */
  lemma RoundTripAsWritten(t: Text)
    ensures BinaryToTextAsWritten(TextToBinary(t)) == Ok(t)
  {
    RoundTrip(t);
    AsWrittenVsCorrected(Split(TextToBinary(t)));
  }

  lemma {:induction false} ValueOfPowerOfTwo(k: nat)
    ensures AllBits([ONE] + Zeros(k))
    ensures ValueOf([ONE] + Zeros(k)) == Pow2(k)
  {
    if k > 0 {
      ValueOfPowerOfTwo(k - 1);
      var s := [ONE] + Zeros(k);
      assert s[..|s| - 1] == [ONE] + Zeros(k - 1);
    }
  }

  lemma {:induction false} Pow2Add(a: nat, b: nat)
    ensures Pow2(a + b) == Pow2(a) * Pow2(b)
  {
    if a > 0 {
      Pow2Add(a - 1, b);
    }
  }

  lemma Pow2Of31()
    ensures Pow2(31) == 0x8000_0000
  {
    assert Pow2(4) == 16;
    Pow2Add(4, 4);
    Pow2Add(8, 8);
    Pow2Add(16, 8);
    Pow2Add(24, 4);
    Pow2Add(28, 3);
    assert Pow2(3) == 8;
  }

  /**
   * "1" followed by 31 zeros is 2^31, one past the largest C `int`: the code
   * as written lets OverflowError escape, where the intended result is the
   * "Invalid binary format" error the corrected decoder gives.
   */
  lemma OverflowEscapes(s: Text)
    requires s == [ONE] + Zeros(31)
    ensures BinaryToTextAsWritten(s) == Err(OverflowError(0x8000_0000))
    ensures BinaryToText(s) == Err(InvalidBinaryFormat(CodePointOutOfRange(0x8000_0000)))
  {
    ValueOfPowerOfTwo(31);
    Pow2Of31();
    assert IsWord(s);
    assert Join([s]) == s;
    SplitJoin([s]);
    DecodeBitsToken(s);
    AsWrittenVsCorrected([s]);
  }
}
