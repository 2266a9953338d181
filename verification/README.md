# Text/binary codec of the MCP sample binary application

This project is a Dafny model of the `BinaryProcessor` class of the MCP sample
binary application (`main.py`). It models three operations:

- `text_to_binary` writes every character's code point in base 2. Each
  numeral is left-padded with `'0'` to at least eight digits, and the tokens
  are joined with single spaces.
- `binary_to_text` splits its input on runs of whitespace. It reads every
  token with `int(token, 2)`, turns the value back into a character with
  `chr`, and reports any `ValueError` as "Invalid binary format".
- The pure part of `process_file` chooses between the two by operation name,
  or fails with "Unknown operation".

A Python `str` is modelled as a sequence of code points in `0..0x10FFFF`. Lone
surrogates are included, because Python strings may hold them and `chr`
accepts them. Raised exceptions become `Result` values.

Modules, in dependency order:

- `Results`: the `Option` and `Result` datatypes.
- `PyStr`: code points, `str.split()` with Python's whitespace set, and
  `' '.join`.
- `Bits`: the value of a base-2 digit string, and `format(n, 'b')` /
  `format(n, '08b')`.
- `IntParse`: CPython's `int(token, 2)`. This covers the optional sign, the
  `0b`/`0B` prefix, single underscores between digits, and the mapping of
  non-ASCII Unicode decimal digits to ASCII before parsing. It gives a
  reference grammar (`ParseToken`) and a scanning implementation
  (`IntBase2`), proved to agree on every token.
- `Codec`: `text_to_binary`, `binary_to_text`, and the laws relating them.
- `Processor`: the operation dispatch of `process_file`.
- `AsWritten`: `binary_to_text` as written, with the `chr` of the CPython
  releases the package declares (see Findings). Its `int` is the one of
  `IntParse`, whose table of decimal digits is that of CPython 3.11.
- `Scenarios`: concrete conversions that illustrate the codec ("A", "Hi",
  "AB", "12345678"), and a few decoding cases that show how lenient `int` is.

Read as a plain codec between characters and 0/1 tokens, with separate
errors for a bad token and for an out-of-range value, the tool would differ
from its code in three places:

- A token is not restricted to the characters `0` and `1`. `int(b, 2)` also
  accepts a sign, a `0b` prefix, underscores between digits, and non-ASCII
  decimal digits whose value is 0 or 1.
- Surrogate code points are valid characters. `chr` accepts them, so they
  encode and decode like any other code point.
- A bad literal and an out-of-range value are not separate error kinds. Both
  surface as one "Invalid binary format" error, except a value outside the C
  `int` range, which escapes as OverflowError on the declared releases (see
  "## Findings"). `AsWritten` models that; `Codec` models the corrected
  decoder and keeps the cause inside the error (`Codec.Cause`).

## Model

| member | source | states |
|---|---|---|
| Codec.TextToBinary | main.py:19-21 | `str.split()` reads the output back as exactly one `'08b'` token per character, in order. The output holds only `0`, `1` and single spaces between tokens, has no space at either end, and is empty exactly when the text is empty. |
| Bits.Format08b | main.py:21 | `format(n, '08b')` is a digit string whose base-2 value is `n`. Its width is exactly 8 when `n <= 255`. Otherwise it is the full bit length of `n`, more than 8 and never truncated. |
| Bits.ToBinary | main.py:21 | `format(n, 'b')` is the shortest numeral of `n`: its value is `n`, and it has no leading zero unless it is "0". |
| Bits.ToBinaryFitsByte | main.py:21 | The unpadded numeral fits in eight digits exactly when the value fits in a byte. |
| Bits.Format08bOfByte | main.py:21 | For a byte value, the `'08b'` token is the only eight-digit numeral with that value. |
| Bits.ValueOfInjective | main.py:21 | Two digit strings of the same width with the same value are equal. |
| Bits.ValueOfPadded | main.py:21 | Left-padding with zeros does not change a numeral's value. |
| PyStr.Split | main.py:26 | `str.split()` yields non-empty tokens without whitespace. Together they hold exactly the non-whitespace code points of the input, in order. |
| PyStr.Join | main.py:21 | `' '.join` of words is empty only for no words. It has no whitespace at either end, and every whitespace code point in it is a lone space. |
| PyStr.SplitJoin | main.py:21-26 | `str.split()` undoes `' '.join` on any list of words. |
| PyStr.SplitAfterWord | main.py:26 | A word followed by whitespace or by nothing is the first token. |
| PyStr.SplitSkipsLeadingSpace | main.py:26 | Leading whitespace does not change the tokens. |
| PyStr.SplitIgnoresTrailingSpace | main.py:26 | Trailing whitespace does not change the tokens. |
| PyStr.SplitIgnoresOuterSpace | main.py:26 | Whitespace on both sides does not change the tokens. |
| PyStr.SplitCollapsesSpaceRuns | main.py:26 | Any two non-empty runs of whitespace between the same parts give the same tokens, whatever their length and characters. |
| PyStr.IsSpaceEnumerated | main.py:26 | The whitespace `str.split()` splits on is exactly the 29 code points of CPython's whitespace table, listed one by one in `WHITESPACE`. |
| IntParse.ToAscii | main.py:27 | The ASCII form of a token has the token's length and holds, at each position, the stand-in `AsciiForm` gives the code point there. It is not always the text `int` reads (see `TruncatedAscii`), but `TruncatedAsciiAgrees` shows it parses alike. |
| IntParse.CopyUntilForeign | main.py:27 | CPython's copying loop for a token with a non-ASCII code point is never longer than the token and writes, at every position it keeps, the code point's ASCII stand-in. |
| IntParse.TruncatedAscii | main.py:27 | The ASCII text `int` actually reads: an all-ASCII token (every code point below U+0080, U+007F included) as it is; any other token never longer than itself and agreeing with its ASCII form on every position kept. |
| IntParse.DelStandIn | main.py:27 | U+007F (DEL) is no whitespace and no decimal digit, so the copying loop writes '?' for it. `NoDigitBlockAtDel` shows that no block of decimal digits covers it. |
| IntParse.TruncatedAsciiCut | main.py:27 | When `int` drops part of a token, its ASCII text ends in '?', and the full ASCII form holds '?' at the same place. |
| IntParse.TruncatedAsciiAgrees | main.py:27 | Parsing the text `int` actually reads gives the same result as `ParseToken` on every token, so the untruncated ASCII form changes no verdict. |
| IntParse.ParseAscii | main.py:27 | The base-2 grammar accepts only non-empty texts made of digits, underscores, signs and `b`/`B`. It gives a negative value only after a leading `-`. |
| IntParse.ParseToken | main.py:27 | `int(b, 2)` accepts a token only if it is non-empty and every code point stands for a literal character after the ASCII mapping. A negative value needs a leading `-`. `IntBase2` computes the same result by scanning. |
| IntParse.AsciiForm | main.py:27 | The stand-in the copying loop writes for a code point is always below U+007F, and a code point below U+007F stands for itself. |
| IntParse.ToAsciiOfAscii | main.py:27 | An all-ASCII token is parsed by the ASCII grammar unchanged. |
| IntParse.ScanDigits | main.py:27 | CPython's digit scan accepts exactly the digit bodies: `0`/`1` digits with single underscores between them. On acceptance it computes their base-2 value. |
| IntParse.ParseAsciiScan | main.py:27 | Sign, prefix and digit scan in CPython's order agree with the base-2 grammar on every ASCII text. |
| IntParse.IntBase2 | main.py:27 | `int(tok, 2)` computed step by step agrees with the reference grammar `ParseToken` on every token. |
| IntParse.ParseAllBits | main.py:27 | A non-empty string of `0`/`1` digits parses to the number it denotes in base 2. |
| IntParse.ParseAsciiBits | main.py:27 | On ASCII text, a non-empty string of `0`/`1` digits is a literal with the value it denotes. |
| IntParse.ParseRejectsForeignChar | main.py:27 | A token fails to parse if, after the ASCII mapping, it holds a character that cannot occur in a base-2 literal. Examples are `2`..`9` and letters other than `b`/`B`. |
| IntParse.RejectUnprefixed | main.py:27 | A text of digits and underscores that is not a digit body does not parse. |
| IntParse.ParsePrefixExample | main.py:27 | On the ASCII grammar, which `ToAsciiOfAscii` shows reads ASCII tokens as `int` does: `int("0b101", 2) == 5`. |
| IntParse.ParseUnderscoreExample | main.py:27 | On the ASCII grammar, which `ToAsciiOfAscii` shows reads ASCII tokens as `int` does: `int("1_0", 2) == 2`. |
| IntParse.ParseSignExample | main.py:27 | On the ASCII grammar, which `ToAsciiOfAscii` shows reads ASCII tokens as `int` does: `int("-1", 2) == -1`. |
| IntParse.ParseNonAsciiDigitsExample | main.py:27 | Arabic-Indic digits one and zero parse like `"10"`, giving 2. |
| IntParse.ParseRejectsDoubleUnderscore | main.py:27 | On the ASCII grammar, which `ToAsciiOfAscii` shows reads ASCII tokens as `int` does: `int("1__0", 2)` raises ValueError. |
| IntParse.ParseRejectsLeadingUnderscore | main.py:27 | On the ASCII grammar, which `ToAsciiOfAscii` shows reads ASCII tokens as `int` does: `int("_1", 2)` raises ValueError. |
| IntParse.ParseRejectsTrailingUnderscore | main.py:27 | On the ASCII grammar, which `ToAsciiOfAscii` shows reads ASCII tokens as `int` does: `int("1_", 2)` raises ValueError. |
| IntParse.ParseRejectsBarePrefix | main.py:27 | On the ASCII grammar, which `ToAsciiOfAscii` shows reads ASCII tokens as `int` does: `int("0b", 2)` raises ValueError. |
| Codec.Chr | main.py:27 | Corrected `chr` (see Findings): `chr(n)` succeeds exactly for `0 <= n <= 0x10FFFF`, surrogates included, and returns `n`. Otherwise it fails with the offending value, which the decoder wraps. `AsWritten.ChrAsWritten` is the `chr` of the declared releases. |
| Codec.DecodeToken | main.py:27 | Corrected decoder (see Findings): `chr(int(b, 2))` succeeds exactly when the token parses to a code point, and gives that code point. A token that does not parse fails as an invalid literal. |
| Codec.DecodeTokens | main.py:27-28 | Corrected decoder (see Findings): the comprehension succeeds exactly when every token decodes, with one code point per token in order. Otherwise it reports the first token that fails, wrapped as "Invalid binary format". |
| Codec.BinaryToText | main.py:23-30 | Corrected decoder (see Findings): decoding succeeds exactly when every whitespace-separated token decodes, giving one code point per token, namely its parsed value. Every failure is an "Invalid binary format" error. The code as written differs only for values outside the C `int` range (`AsWritten.BinaryToTextAsWritten`). |
| Codec.Tokens | main.py:21 | The generator yields one token per character, in order, and token `i` is the `'08b'` numeral of character `i`. |
| Codec.DecodeBitsToken | main.py:27 | A non-empty `0`/`1` token decodes exactly when its base-2 value is at most `0x10FFFF`. |
| Codec.DecodeTokensAllOk | main.py:27-28 | Tokens that each decode to the matching character of a text decode together to that text. |
| Codec.DecodeTokensOfTokens | main.py:21-28 | Every `'08b'` token decodes back to the code point it was made from. |
| Codec.JoinOfBitWords | main.py:21 | Joining non-empty digit strings gives a single-spaced string of digits and spaces. `str.split()` reads it back into the same strings. |
| Codec.RoundTrip | main.py:19-30 | `binary_to_text(text_to_binary(t)) == t` for every text, including code points above 255 and surrogates. |
| Codec.EmptyCases | main.py:21-28 | Empty text encodes to the empty string. The empty string and any all-whitespace string decode to empty text. |
| Codec.DecodeIgnoresOuterSpace | main.py:26-28 | Leading and trailing whitespace does not change the result of decoding. |
| Codec.DecodeCollapsesSpaceRuns | main.py:26-28 | Any run of whitespace between tokens decodes as a single space would. |
| Codec.DecodeRejectsForeignChar | main.py:27-30 | A token with a character that cannot occur in a base-2 literal makes decoding fail. |
| Processor.Encode | main.py:40-41 | The "encode" result always succeeds. `str.split()` reads it back as one `'08b'` token per character, in order. It holds only `0`, `1` and single spaces between tokens, and decodes back to the content. |
| Processor.Decode | main.py:42-43 | Corrected decoder (see Findings): the "decode" result succeeds exactly when every token decodes. Then it has one code point per token, namely the value the token parses to. Every failure is "Invalid binary format". |
| Processor.DistinctOperations | main.py:40-42 | The two operation names differ, so the dispatch is unambiguous. |
| Processor.ProcessContent | main.py:40-45 | "encode" selects the encoder and "decode" the corrected decoder (see Findings). Any other operation name is an "Unknown operation" error carrying that name. |
| AsWritten.ChrAsWritten | main.py:27 | `chr` as it runs on the declared releases: the same successes as the corrected `chr`. Outside the C `int` range it fails with OverflowError, and inside that range with the wrapped ValueError. |
| AsWritten.DecodeTokenAsWritten | main.py:27-30 | `chr(int(b, 2))` as written succeeds exactly when the token parses to a code point, and gives it. A wrapped failure is "Invalid binary format". An OverflowError carries the parsed value, which lies outside the C `int` range. |
| AsWritten.DecodeTokensAsWritten | main.py:27-30 | The comprehension as written gives one code point per token, in order, each what its token decodes to. A failure is what one of the tokens raised. Wrapped failures are "Invalid binary format", and an OverflowError lies outside the C `int` range. |
| AsWritten.BinaryToTextAsWritten | main.py:23-30 | `binary_to_text` as written gives, on success, one code point per whitespace-separated token, namely its parsed value. It fails with a wrapped "Invalid binary format" error, or with an OverflowError for a value outside the C `int` range. |
| AsWritten.DecodeTokenAgrees | main.py:27-30 | Per token, the as-written and corrected decoders succeed alike. Their failures differ only in how an out-of-C-range value surfaces. |
| AsWritten.AsWrittenVsCorrected | main.py:25-30 | Over any token list, the two decoders succeed on the same inputs with the same text. Each as-written failure is the corrected failure as it surfaces. |
| AsWritten.RoundTripAsWritten | main.py:19-30 | The code as written also gives `binary_to_text(text_to_binary(t)) == t` for every text. |
| AsWritten.OverflowEscapes | main.py:27-30 | On "1" followed by 31 zeros, the code as written raises an unwrapped OverflowError. The corrected decoder reports "Invalid binary format". |
| Scenarios.EncodeA | main.py:21 | `text_to_binary("A") == "01000001"`. |
| Scenarios.EncodeHi | main.py:21 | `text_to_binary("Hi") == "01001000 01101001"`. |
| Scenarios.EncodeOne | main.py:21 | A one-character text encodes to its character's token alone. |
| Scenarios.EncodeTwo | main.py:21 | A two-character text encodes to the two tokens around one space. |
| Scenarios.DecodeAB | main.py:23-28 | `binary_to_text("01000001 01000010") == "AB"`. |
| Scenarios.DecodeTwo | main.py:26-28 | Two decodable tokens around one space decode to their two code points. |
| Scenarios.DecodeRejectsDecimalDigits | main.py:27-30 | `binary_to_text("12345678")` fails: `int` rejects the token as an invalid literal. |
| Scenarios.DecodeRejectsNegative | main.py:27-30 | `binary_to_text("-1")` fails: `int` accepts the sign, but `chr(-1)` is out of range. |
| Scenarios.DecodeLenientTokens | main.py:26-28 | `binary_to_text("0b101 1_0")` succeeds and gives code points 5 and 2. |

## Left out

- File access in `process_file` is not modelled, because it is I/O (main.py:34-38). This covers the `os.path.exists` check, its FileNotFoundError, and reading the file. `Processor.ProcessContent` takes the content as already read.
- `save_output` (main.py:47-51) and the command-line entry point `main()` (main.py:54-108) are not modelled. They are argument parsing, printing, file writing and exit codes.
- `BinaryProcessor.__init__` is not modelled. It only stores a version string.
- `build_binary.py` and `setup.py` are not part of this model. They are build and packaging tooling.
- Error messages are not modelled as text. An error carries its kind and cause (the token, or the out-of-range value) instead of the formatted message.
- IntParse.ToAscii: maps every code point of the token, where CPython's conversion stops at the first one with no ASCII stand-in, writes '?' and drops the rest. It also writes '?' for U+007F in an all-ASCII token, which CPython parses unchanged. `TruncatedAscii` models CPython's conversion, and `TruncatedAsciiAgrees` proves that parsing either text gives the same result.
- IntParse.ParseToken: does not strip leading and trailing whitespace as `int` does, because its tokens come from `str.split()` and never contain any.
- IntParse.DecimalValue: the table of Unicode decimal digits is fixed at Unicode 14.0, the database of CPython 3.11. The older declared releases have older databases: 3.7 has Unicode 11.0, 3.8 has 12.1, and 3.9 and 3.10 have 13.0. They lack some blocks: 0x1E140 and 0x1E2F0 were added in 12.0, 0x11950 and 0x1FBF0 in 13.0, and 0x16AC0 in 14.0. On those releases `int` rejects digits from the missing blocks that the model accepts. Releases after 3.11 add further blocks.
- Codec.BinaryToText, Codec.DecodeTokens, Codec.DecodeToken and Codec.Chr model the corrected decoder of the Findings table. On the declared releases the code as written lets OverflowError escape for values outside the C `int` range. `AsWritten` models that behaviour, and `AsWritten.AsWrittenVsCorrected` relates the two on every input.
- Processor.Decode and Processor.ProcessContent use the corrected decoder for the same reason.
- Only the 32-bit C `int` range is modelled for the `chr` overflow. That is its width on every platform CPython supports.

## Findings

| source | as written | input that shows it | evidently intended | confidence | as-written member | corrected member |
|---|---|---|---|---|---|---|
| main.py:27-30 | `chr(int(b, 2))` runs inside `except ValueError`. On the declared CPython releases, `chr` converts its argument to a C `int` first. A value outside that range raises OverflowError, which the handler does not catch. | `"1" + "0" * 31` (the value 2^31) | Every token whose value is not a code point is reported as "Invalid binary format", as values between 0x110000 and 2^31 - 1 already are | not executed; medium: depends on the CPython release's `chr` | AsWritten.OverflowEscapes | Codec.BinaryToText |
