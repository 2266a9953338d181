/**
 * The pure part of `BinaryProcessor.process_file`: choosing a conversion
 * by operation name, applied to content that has already been read.
 */
module Processor {
  import opened Results
  import opened PyStr
  import opened Bits
  import opened IntParse
  import opened Codec

  const ENCODE: Text := Lit("encode")
  const DECODE: Text := Lit("decode")

  /**
   * The "encode" operation: one `'08b'` token per character, in order, laid
   * out as digits with single spaces between tokens; it decodes back to the
   * content.
   */
  function Encode(content: Text): (r: Result<Text, Error>)
    ensures r.Ok? && Split(r.value) == Tokens(content) && BinaryToText(r.value) == Ok(content)
    ensures r.Ok? ==> SingleSpaced(r.value)
    ensures r.Ok? ==> forall i :: 0 <= i < |r.value| ==> IsBit(r.value[i]) || r.value[i] == SPACE
  {
    RoundTrip(content);
    Ok(TextToBinary(content))
  }

  /**
   * The "decode" operation: it succeeds exactly when every token of the
   * content decodes, giving one code point per token, namely the value the
   * token denotes.
   */
  function Decode(content: Text): (r: Result<Text, Error>)
    ensures r.Ok? <==> forall i :: 0 <= i < |Split(content)| ==> DecodeToken(Split(content)[i]).Ok?
    ensures r.Ok? ==> |r.value| == |Split(content)|
    ensures r.Ok? ==> forall i :: 0 <= i < |Split(content)| ==> r.value[i] == ParseToken(Split(content)[i]).value
    ensures r.Err? ==> r.error.InvalidBinaryFormat?
  {
    var r := BinaryToText(content);
    assert r.Ok? ==> forall i :: 0 <= i < |Split(content)| ==> r.value[i] == ParseToken(Split(content)[i]).value;
    r
  }

  lemma DistinctOperations()
    ensures ENCODE != DECODE
  {
    assert ENCODE[0] != DECODE[0];
  }

  /**
   * The dispatch of `process_file`: "encode" and "decode" select the two
   * conversions, and every other operation name is an "Unknown operation"
   * error carrying that name.
   */
  function ProcessContent(content: Text, operation: Text): (r: Result<Text, Error>)
    ensures operation == ENCODE ==> r == Encode(content)
    ensures operation == DECODE ==> r == Decode(content)
    ensures operation != ENCODE && operation != DECODE ==> r == Err(UnknownOperation(operation))
  {
    DistinctOperations();
    if operation == ENCODE then Encode(content)
    else if operation == DECODE then Decode(content)
    else Err(UnknownOperation(operation))
  }
}
