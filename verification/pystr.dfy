/**
 * Python `str` values and the two `str` methods the codec relies on:
 * `str.split()` with no argument and `' '.join(...)`.
 */
module PyStr {

  /** A code point as `ord` returns it. Python strings may hold lone surrogates. */
  type CodePoint = c: int | 0 <= c <= 0x10FFFF

  /** A Python `str`: the sequence of its code points. */
  type Text = seq<CodePoint>

  const SPACE: CodePoint := 0x20

  /** The code points of a Dafny string literal, for writing Python literals. */
  function Lit(s: string): (t: Text)
    ensures |t| == |s|
    ensures forall i :: 0 <= i < |s| ==> t[i] == s[i] as int
  {
    seq(|s|, i requires 0 <= i < |s| => s[i] as int)
  }

  /** The whitespace code points of CPython's character database, one by one. */
  const WHITESPACE: set<int> := {
    0x09, 0x0A, 0x0B, 0x0C, 0x0D, 0x1C, 0x1D, 0x1E, 0x1F, 0x20,
    0x85, 0xA0, 0x1680, 0x2000, 0x2001, 0x2002, 0x2003, 0x2004, 0x2005, 0x2006,
    0x2007, 0x2008, 0x2009, 0x200A, 0x2028, 0x2029, 0x202F, 0x205F, 0x3000
  }

  /**
   * Python's notion of whitespace (`str.isspace`), used by `str.split()`:
   * the ASCII controls TAB..CR and FS..US, SPACE, NEL, NO-BREAK SPACE,
   * OGHAM SPACE MARK, the spaces U+2000..U+200A, LINE and PARAGRAPH
   * SEPARATOR, NARROW NO-BREAK SPACE, MEDIUM MATHEMATICAL SPACE and
   * IDEOGRAPHIC SPACE: the 29 code points of `WHITESPACE`.
   */
  predicate IsSpace(c: int) {
    || 0x09 <= c <= 0x0D
    || 0x1C <= c <= 0x20
    || c == 0x85 || c == 0xA0 || c == 0x1680
    || 0x2000 <= c <= 0x200A
    || c == 0x2028 || c == 0x2029 || c == 0x202F || c == 0x205F || c == 0x3000
  }

  /** The ranges of `IsSpace` hold exactly the code points listed in `WHITESPACE`. */
  lemma IsSpaceEnumerated(c: int)
    ensures IsSpace(c) <==> c in WHITESPACE
  {
  }

  predicate AllSpace(s: Text) {
    forall i :: 0 <= i < |s| ==> IsSpace(s[i])
  }

  /** A token `str.split()` can produce: non-empty and free of whitespace. */
  predicate IsWord(w: Text) {
    |w| > 0 && forall i :: 0 <= i < |w| ==> !IsSpace(w[i])
  }

  /** Length of the longest whitespace-free prefix of `s`. */
  function WordLen(s: Text): (k: nat)
    ensures k <= |s|
    ensures forall i :: 0 <= i < k ==> !IsSpace(s[i])
    ensures k < |s| ==> IsSpace(s[k])
  {
    if |s| == 0 || IsSpace(s[0]) then 0 else 1 + WordLen(s[1..])
  }

  /** `s` with every whitespace code point deleted. */
  function RemoveSpace(s: Text): Text {
    if |s| == 0 then []
    else (if IsSpace(s[0]) then [] else [s[0]]) + RemoveSpace(s[1..])
  }

  /** The concatenation of a sequence of strings, `''.join(ws)`. */
  function Concat(ws: seq<Text>): Text {
    if |ws| == 0 then [] else ws[0] + Concat(ws[1..])
  }

  lemma RemoveSpaceAppend(a: Text, b: Text)
    ensures RemoveSpace(a + b) == RemoveSpace(a) + RemoveSpace(b)
  {
    if |a| == 0 {
      assert a + b == b;
    } else {
      assert (a + b)[1..] == a[1..] + b;
      RemoveSpaceAppend(a[1..], b);
    }
  }

  lemma RemoveSpaceOfWord(w: Text)
    requires forall i :: 0 <= i < |w| ==> !IsSpace(w[i])
    ensures RemoveSpace(w) == w
  {
    if |w| > 0 {
      RemoveSpaceOfWord(w[1..]);
    }
  }

  /**
   * `str.split()`: the maximal runs of non-whitespace, in order. Every
   * token is a word, and together the tokens hold exactly the
   * non-whitespace code points of `s`.
   */
  function Split(s: Text): (r: seq<Text>)
    ensures forall i :: 0 <= i < |r| ==> IsWord(r[i])
    ensures Concat(r) == RemoveSpace(s)
    decreases |s|
  {
    if |s| == 0 then []
    else if IsSpace(s[0]) then Split(s[1..])
    else
      var k := WordLen(s);
      var rest := Split(s[k..]);
      assert s == s[..k] + s[k..];
      RemoveSpaceAppend(s[..k], s[k..]);
      RemoveSpaceOfWord(s[..k]);
      assert ([s[..k]] + rest)[1..] == rest;
      [s[..k]] + rest
  }

  predicate AllWords(ws: seq<Text>) {
    forall i :: 0 <= i < |ws| ==> IsWord(ws[i])
  }

  /**
   * The shape `' '.join` gives to words: no whitespace at either end, and
   * every whitespace code point is a lone SPACE.
   */
  predicate SingleSpaced(r: Text) {
    && (|r| > 0 ==> !IsSpace(r[0]) && !IsSpace(r[|r| - 1]))
    && (forall i :: 0 <= i < |r| && IsSpace(r[i]) ==> r[i] == SPACE)
    && (forall i, j :: 0 <= i < |r| && 0 <= j < |r| && j == i + 1 ==> !IsSpace(r[i]) || !IsSpace(r[j]))
  }

  /** `' '.join(ws)`: the strings of `ws` separated by single spaces. */
  function Join(ws: seq<Text>): (r: Text)
    ensures AllWords(ws) ==> (|r| == 0 <==> |ws| == 0) && SingleSpaced(r)
  {
    if |ws| == 0 then []
    else if |ws| == 1 then ws[0]
    else ws[0] + [SPACE] + Join(ws[1..])
  }

  /** The length of the whitespace-free prefix of a concatenation. */
  lemma WordLenAppend(a: Text, b: Text)
    ensures WordLen(a + b) == if WordLen(a) < |a| then WordLen(a) else |a| + WordLen(b)
  {
    if |a| > 0 && !IsSpace(a[0]) {
      assert (a + b)[1..] == a[1..] + b;
      WordLenAppend(a[1..], b);
    } else if |a| == 0 {
      assert a + b == b;
    }
  }

  /** A word followed by whitespace or by nothing is the first token. */
  lemma SplitAfterWord(w: Text, t: Text)
    requires IsWord(w)
    requires |t| == 0 || IsSpace(t[0])
    ensures Split(w + t) == [w] + Split(t)
  {
    var s := w + t;
    WordLenAppend(w, t);
    assert s[..|w|] == w;
    assert s[|w|..] == t;
  }

  /** `str.split()` undoes `' '.join` on words: one token per joined string, in order. */
  lemma {:induction false} SplitJoin(ws: seq<Text>)
    requires AllWords(ws)
    ensures Split(Join(ws)) == ws
  {
    if |ws| == 1 {
      SplitAfterWord(ws[0], []);
      assert ws[0] + [] == ws[0];
    } else if |ws| > 1 {
      var rest := Join(ws[1..]);
      assert ws[0] + [SPACE] + rest == ws[0] + ([SPACE] + rest);
      SplitAfterWord(ws[0], [SPACE] + rest);
      assert ([SPACE] + rest)[1..] == rest;
      SplitJoin(ws[1..]);
      assert [ws[0]] + ws[1..] == ws;
    }
  }

  /** Leading whitespace does not change the tokens. */
  lemma {:induction false} SplitSkipsLeadingSpace(ws: Text, s: Text)
    requires AllSpace(ws)
    ensures Split(ws + s) == Split(s)
  {
    if |ws| == 0 {
      assert ws + s == s;
    } else {
      assert (ws + s)[1..] == ws[1..] + s;
      SplitSkipsLeadingSpace(ws[1..], s);
    }
  }

  /** Trailing whitespace does not change the tokens. */
  lemma {:induction false} SplitIgnoresTrailingSpace(s: Text, ws: Text)
    requires AllSpace(ws)
    ensures Split(s + ws) == Split(s)
    decreases |s|
  {
    if |s| == 0 {
      assert s + ws == ws + [];
      SplitSkipsLeadingSpace(ws, []);
    } else if IsSpace(s[0]) {
      assert (s + ws)[1..] == s[1..] + ws;
      SplitIgnoresTrailingSpace(s[1..], ws);
    } else {
      var k := WordLen(s);
      WordLenAppend(s, ws);
      assert (s + ws)[..k] == s[..k];
      assert (s + ws)[k..] == s[k..] + ws;
      SplitIgnoresTrailingSpace(s[k..], ws);
    }
  }

  /** Whitespace around a string does not change its tokens. */
  lemma SplitIgnoresOuterSpace(ws1: Text, s: Text, ws2: Text)
    requires AllSpace(ws1) && AllSpace(ws2)
    ensures Split(ws1 + s + ws2) == Split(s)
  {
    assert ws1 + s + ws2 == ws1 + (s + ws2);
    SplitSkipsLeadingSpace(ws1, s + ws2);
    SplitIgnoresTrailingSpace(s, ws2);
  }

  /**
   * Any non-empty run of whitespace between two parts separates them the
   * same way: its length and which whitespace characters form it do not matter.
   */
  lemma {:induction false} SplitCollapsesSpaceRuns(a: Text, ws1: Text, ws2: Text, b: Text)
    requires |ws1| > 0 && AllSpace(ws1)
    requires |ws2| > 0 && AllSpace(ws2)
    ensures Split(a + ws1 + b) == Split(a + ws2 + b)
    decreases |a|
  {
    if |a| == 0 {
      assert a + ws1 + b == ws1 + b;
      assert a + ws2 + b == ws2 + b;
      SplitSkipsLeadingSpace(ws1, b);
      SplitSkipsLeadingSpace(ws2, b);
    } else if IsSpace(a[0]) {
      assert (a + ws1 + b)[1..] == a[1..] + ws1 + b;
      assert (a + ws2 + b)[1..] == a[1..] + ws2 + b;
      SplitCollapsesSpaceRuns(a[1..], ws1, ws2, b);
    } else if WordLen(a) == |a| {
      assert a + ws1 + b == a + (ws1 + b);
      assert a + ws2 + b == a + (ws2 + b);
      SplitAfterWord(a, ws1 + b);
      SplitAfterWord(a, ws2 + b);
      SplitSkipsLeadingSpace(ws1, b);
      SplitSkipsLeadingSpace(ws2, b);
    } else {
      var k := WordLen(a);
      var w, a' := a[..k], a[k..];
      assert a + ws1 + b == w + (a' + ws1 + b);
      assert a + ws2 + b == w + (a' + ws2 + b);
      SplitAfterWord(w, a' + ws1 + b);
      SplitAfterWord(w, a' + ws2 + b);
      SplitCollapsesSpaceRuns(a', ws1, ws2, b);
    }
  }
}
