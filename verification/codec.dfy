/**
 * `BinaryProcessor.text_to_binary` and `BinaryProcessor.binary_to_text`:
 * text to space-separated base-2 tokens and back.
 */
module Codec {
  import opened Results
  import opened PyStr
  import opened Bits
  import opened IntParse

  /** The largest code point `chr` accepts. */
  const MAX_CODE_POINT: int := 0x10FFFF

  /** Why a token could not be decoded. */
  datatype Cause =
    | InvalidLiteral(token: Text)      // `int(b, 2)` raised ValueError
    | CodePointOutOfRange(value: int)  // `chr` raised ValueError

  /** The errors the processor reports. */
  datatype Error =
    | InvalidBinaryFormat(cause: Cause)  // "Invalid binary format: ..."
    | UnknownOperation(operation: Text)  // "Unknown operation: ..."

  /** `chr(n)`: defined on every code point 0..0x10FFFF, lone surrogates included. */
  function Chr(n: int): (r: Result<CodePoint, Cause>)
    ensures r.Ok? <==> 0 <= n <= MAX_CODE_POINT
    ensures r.Ok? ==> r.value == n
    ensures r.Err? ==> r.error == CodePointOutOfRange(n)
  {
    if 0 <= n <= MAX_CODE_POINT then Ok(n) else Err(CodePointOutOfRange(n))
  }

  /** `chr(int(b, 2))` for one token. */
  function DecodeToken(tok: Text): (r: Result<CodePoint, Cause>)
    ensures r.Ok? <==> ParseToken(tok).Some? && 0 <= ParseToken(tok).value <= MAX_CODE_POINT
    ensures r.Ok? ==> r.value == ParseToken(tok).value
    ensures ParseToken(tok).None? ==> r == Err(InvalidLiteral(tok))
    ensures ParseToken(tok).Some? && r.Err? ==> r.error == CodePointOutOfRange(ParseToken(tok).value)
  {
    match ParseToken(tok)
    case None => Err(InvalidLiteral(tok))
    case Some(n) => Chr(n)
  }

  /** Token `i` is the first one that cannot be decoded. */
  predicate FirstFailure(toks: seq<Text>, i: int) {
    && 0 <= i < |toks|
    && DecodeToken(toks[i]).Err?
    && forall j :: 0 <= j < i ==> DecodeToken(toks[j]).Ok?
  }

  lemma FirstFailureShift(toks: seq<Text>, i: int)
    requires |toks| > 0 && DecodeToken(toks[0]).Ok?
    requires FirstFailure(toks[1..], i)
    ensures FirstFailure(toks, i + 1)
  {
    assert toks[i + 1] == toks[1..][i];
    PrefixShift(tok => DecodeToken(tok).Ok?, toks, i);
  }

  /** A property of the first element and of the next `i` elements holds of the first `i + 1`. */
  lemma PrefixShift<T>(p: T -> bool, s: seq<T>, i: int)
    requires 0 <= i < |s| && p(s[0])
    requires forall j :: 0 <= j < i ==> p(s[1..][j])
    ensures forall j :: 0 <= j < i + 1 ==> p(s[j])
  {
    forall j | 1 <= j < i + 1
      ensures p(s[j])
    {
      assert s[j] == s[1..][j - 1];
    }
  }

  /** `f` maps `s` onto `g` of `[head] + rest` when it maps the first element onto `head` and the others onto `rest`. */
  lemma MapShift<T, V, U>(f: T -> U, g: V -> U, s: seq<T>, head: V, rest: seq<V>)
    requires |s| > 0 && |rest| == |s| - 1 && f(s[0]) == g(head)
    requires forall i :: 0 <= i < |rest| ==> f(s[1..][i]) == g(rest[i])
    ensures forall i :: 0 <= i < |s| ==> f(s[i]) == g(([head] + rest)[i])
  {
    forall i | 0 < i < |s|
      ensures f(s[i]) == g(([head] + rest)[i])
    {
      assert s[i] == s[1..][i - 1];
    }
  }

  /** When `f` maps `s` onto `g` of `w` element by element, it does so on the tails too. */
  lemma TailMap<T, V, U>(f: T -> U, g: V -> U, s: seq<T>, w: seq<V>)
    requires |s| == |w| > 0
    requires forall i :: 0 <= i < |s| ==> f(s[i]) == g(w[i])
    ensures forall i :: 0 <= i < |s| - 1 ==> f(s[1..][i]) == g(w[1..][i])
  {
    forall i | 0 <= i < |s| - 1
      ensures f(s[1..][i]) == g(w[1..][i])
    {
      assert s[1..][i] == s[i + 1] && w[1..][i] == w[i + 1];
    }
  }

  /**
   * The list comprehension of `binary_to_text`, left to right: it succeeds
   * exactly when every token decodes, giving one code point per token in
   * order, and otherwise reports the first token that does not.
   */
  function DecodeTokens(toks: seq<Text>): (r: Result<Text, Error>)
    ensures r.Ok? <==> forall i :: 0 <= i < |toks| ==> DecodeToken(toks[i]).Ok?
    ensures r.Ok? ==> |r.value| == |toks|
    ensures r.Ok? ==> forall i :: 0 <= i < |toks| ==> r.value[i] == DecodeToken(toks[i]).value
    ensures r.Err? ==> exists i :: FirstFailure(toks, i) && r.error == InvalidBinaryFormat(DecodeToken(toks[i]).error)
  {
    if |toks| == 0 then Ok([])
    else
      match DecodeToken(toks[0])
      case Err(cause) =>
        assert FirstFailure(toks, 0);
        Err(InvalidBinaryFormat(cause))
      case Ok(c) =>
        var rest := DecodeTokens(toks[1..]);
        if rest.Err? then
          assert exists i :: FirstFailure(toks, i) && rest.error == InvalidBinaryFormat(DecodeToken(toks[i]).error) by {
            var i :| FirstFailure(toks[1..], i) && rest.error == InvalidBinaryFormat(DecodeToken(toks[1..][i]).error);
            FirstFailureShift(toks, i);
          }
          Err(rest.error)
        else
          MapShift(tok => DecodeToken(tok), v => Ok(v), toks, c, rest.value);
          Ok([c] + rest.value)
  }

  /**
   * `binary_to_text`: split on runs of whitespace, then decode every token.
   * On success there is one code point per token, namely the value the
   * token denotes; every failure is an "Invalid binary format" error.
   */
  function BinaryToText(s: Text): (r: Result<Text, Error>)
    ensures r.Ok? <==> forall i :: 0 <= i < |Split(s)| ==> DecodeToken(Split(s)[i]).Ok?
    ensures r.Ok? ==> |r.value| == |Split(s)|
    ensures r.Ok? ==> forall i :: 0 <= i < |Split(s)| ==> r.value[i] == ParseToken(Split(s)[i]).value
    ensures r.Err? ==> r.error.InvalidBinaryFormat?
  {
    var toks := Split(s);
    var r := DecodeTokens(toks);
    assert r.Ok? ==> forall i :: 0 <= i < |toks| ==> r.value[i] == ParseToken(toks[i]).value;
    r
  }

  /** The `format(ord(c), '08b')` token of every character, in order. */
  function Tokens(t: Text): (ts: seq<Text>)
    ensures |ts| == |t|
    ensures forall i :: 0 <= i < |t| ==> ts[i] == Format08b(t[i])
  {
    seq(|t|, i requires 0 <= i < |t| => Format08b(t[i]))
  }

  /** Joining digit strings with spaces gives only digits and spaces. */
  lemma {:induction false} JoinOfBits(ws: seq<Text>)
    requires forall i :: 0 <= i < |ws| ==> AllBits(ws[i])
    ensures forall i :: 0 <= i < |Join(ws)| ==> IsBit(Join(ws)[i]) || Join(ws)[i] == SPACE
  {
    if |ws| > 1 {
      JoinOfBits(ws[1..]);
      var r := Join(ws);
      assert r == ws[0] + ([SPACE] + Join(ws[1..]));
      forall i | 0 <= i < |r|
        ensures IsBit(r[i]) || r[i] == SPACE
      {
        if i > |ws[0]| {
          assert r[i] == Join(ws[1..])[i - |ws[0]| - 1];
        }
      }
    }
  }

  /** What `' '.join` makes of non-empty digit strings. */
  lemma JoinOfBitWords(ws: seq<Text>)
    requires forall i :: 0 <= i < |ws| ==> |ws[i]| > 0 && AllBits(ws[i])
    ensures Split(Join(ws)) == ws
    ensures |Join(ws)| == 0 <==> |ws| == 0
    ensures forall i :: 0 <= i < |Join(ws)| ==> IsBit(Join(ws)[i]) || Join(ws)[i] == SPACE
    ensures SingleSpaced(Join(ws))
  {
    assert AllWords(ws);
    SplitJoin(ws);
    JoinOfBits(ws);
  }

  /**
   * `text_to_binary`: the tokens read back by `str.split()` are exactly one
   * `'08b'` token per character, in order; the output holds only '0', '1'
   * and single spaces between tokens, with none at either end, and is
   * empty exactly for the empty text.
   */
  function TextToBinary(t: Text): (r: Text)
    ensures Split(r) == Tokens(t)
    ensures |r| == 0 <==> |t| == 0
    ensures forall i :: 0 <= i < |r| ==> IsBit(r[i]) || r[i] == SPACE
    ensures SingleSpaced(r)
  {
    var ts := Tokens(t);
    JoinOfBitWords(ts);
    Join(ts)
  }

  /** A non-empty 0/1 token decodes to its base-2 value exactly when that value is a code point. */
  lemma DecodeBitsToken(tok: Text)
    requires |tok| > 0 && AllBits(tok)
    ensures DecodeToken(tok) == Chr(ValueOf(tok))
    ensures DecodeToken(tok).Ok? <==> ValueOf(tok) <= MAX_CODE_POINT
  {
    ParseAllBits(tok);
  }

  /** Every `'08b'` token decodes back to the code point it was made from. */
  lemma DecodeTokensOfTokens(t: Text)
    ensures DecodeTokens(Tokens(t)) == Ok(t)
  {
    var ts := Tokens(t);
    forall i | 0 <= i < |ts|
      ensures DecodeToken(ts[i]) == Ok(t[i])
    {
      DecodeBitsToken(ts[i]);
    }
    DecodeTokensAllOk(ts, t);
  }

  /** Tokens that each decode to the matching code point of `t` decode together to `t`. */
  lemma {:induction false} DecodeTokensAllOk(toks: seq<Text>, t: Text)
    requires |toks| == |t|
    requires forall i :: 0 <= i < |toks| ==> DecodeToken(toks[i]) == Ok(t[i])
    ensures DecodeTokens(toks) == Ok(t)
  {
    if |toks| > 0 {
      TailMap(tok => DecodeToken(tok), v => Ok(v), toks, t);
      DecodeTokensAllOk(toks[1..], t[1..]);
      assert [t[0]] + t[1..] == t;
    }
  }

  /** Decoding undoes encoding for every text, including code points above 255. */
  lemma RoundTrip(t: Text)
    ensures BinaryToText(TextToBinary(t)) == Ok(t)
  {
    assert Split(TextToBinary(t)) == Tokens(t);
    DecodeTokensOfTokens(t);
  }

  /** Empty text encodes to the empty string; a blank string decodes to empty text. */
  lemma {:induction false} EmptyCases(s: Text)
    requires AllSpace(s)
    ensures TextToBinary([]) == []
    ensures BinaryToText(s) == Ok([])
  {
    SplitSkipsLeadingSpace(s, []);
    assert s + [] == s;
  }

  /** Leading and trailing whitespace does not change what is decoded. */
  lemma {:induction false} DecodeIgnoresOuterSpace(ws1: Text, s: Text, ws2: Text)
    requires AllSpace(ws1) && AllSpace(ws2)
    ensures BinaryToText(ws1 + s + ws2) == BinaryToText(s)
  {
    SplitIgnoresOuterSpace(ws1, s, ws2);
  }

  /** Any run of whitespace between tokens decodes as a single space would. */
  lemma {:induction false} DecodeCollapsesSpaceRuns(a: Text, ws: Text, b: Text)
    requires |ws| > 0 && AllSpace(ws)
    ensures BinaryToText(a + ws + b) == BinaryToText(a + [SPACE] + b)
  {
    SplitCollapsesSpaceRuns(a, ws, [SPACE], b);
  }

  /**
   * A token with a code point that cannot occur in a base-2 literal (such
   * as the digit '2') makes decoding fail with "Invalid binary format".
   */
  lemma DecodeRejectsForeignChar(s: Text, k: nat, j: nat)
    requires k < |Split(s)| && j < |Split(s)[k]|
    requires !IsLiteralChar(AsciiForm(Split(s)[k][j]))
    ensures BinaryToText(s).Err?
  {
    ParseRejectsForeignChar(Split(s)[k], j);
  }
}
