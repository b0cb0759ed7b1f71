/**
 * Concrete inputs on which the reference parser shows the lenient behaviour of s_json.h:
 * truncated containers, partial numbers, unknown escapes and trailing input.
 */
module JsonExamples {
  import opened Wrappers
  import opened JsonTree
  import opened JsonText
  import opened JsonSpec

  /** `[]` and `{}`: containers with count 0 and an empty chain. */
  lemma EmptyContainers()
    ensures ParseValue("[]", 0) == Some((Node(None, Array(0, [])), 2))
    ensures ParseValue("{ }", 0) == Some((Node(None, Object(0, [])), 3))
  {
  }

  /** Input ending right after `{` gives an empty object. */
  lemma OpenBraceOnly()
    ensures ParseValue("{", 0) == Some((Node(None, Object(0, [])), 1))
  {
  }

  /** Input ending right after `[` gives an empty array. */
  lemma OpenBracketOnly()
    ensures ParseValue("[", 0) == Some((Node(None, Array(0, [])), 1))
  {
  }

  /** Input ending right after a `,` gives the elements read so far. */
  lemma TrailingComma()
    ensures ParseValue("[1,", 0) == Some((Node(None, Array(1, [Node(None, Number("1", false))])), 3))
  {
    var t := "[1,";
    var one := Node(None, Number("1", false));
    assert SkipWs(t, 1) == 1 && DigitsEnd(t, 1) == 2 && t[1..2] == "1";
    assert ScanNumber(t, 1) == (NumberShape(false, "1", None, None), 2);
    assert ParseValue(t, 1) == Some((one, 2));
    assert SkipWs(t, 2) == 2 && [] + [one] == [one];
    assert ArrayElements(t, 3, [one]) == Some((Node(None, Array(1, [one])), 3));
    assert ArrayElements(t, 1, []) == ArrayNext(t, 2, [one]);
  }

  /** An element not followed by `]` or `,` fails the array. */
  lemma MissingBracket()
    ensures ParseValue("[1", 0) == None
  {
  }

  /** A lone `-` is a number lexeme. */
  lemma LoneMinus()
    ensures ParseValue("-", 0) == Some((Node(None, Number("-", false)), 1))
  {
    var t := "-";
    assert SkipWs(t, 0) == 0 && DigitsEnd(t, 1) == 1 && t[1..1] == "" && t[0..1] == "-";
    assert ScanNumber(t, 0) == (NumberShape(true, "", None, None), 1);
  }

  /** `1.` is a floating lexeme. */
  lemma BareFraction()
    ensures ParseValue("1.", 0) == Some((Node(None, Number("1.", true)), 2))
  {
    var t := "1.";
    assert SkipWs(t, 0) == 0 && DigitsEnd(t, 0) == 1 && DigitsEnd(t, 2) == 2;
    assert t[0..1] == "1" && t[2..2] == "" && t[0..2] == "1.";
    assert ScanNumber(t, 0) == (NumberShape(false, "1", Some(""), None), 2);
  }

  /** `\u` is not decoded: only the `u` is kept. */
  lemma UnknownEscape()
    ensures ParseString("\"a\\u\"", 0) == Some(("au", 5))
  {
    UnknownEscapeScan();
    UnknownEscapeDecode();
  }

  lemma UnknownEscapeScan()
    ensures ScanBody("\"a\\u\"", 1) == Some((2, 4))
  {
    var t := "\"a\\u\"";
    assert ScanBody(t, 4) == Some((0, 4));
    assert ScanBody(t, 2) == Some((1, 4));
  }

  lemma UnknownEscapeDecode()
    ensures DecodeBody("\"a\\u\"", 1) == "au"
  {
    var t := "\"a\\u\"";
    assert DecodeBody(t, 4) == [];
    assert DecodeBody(t, 2) == ['u'];
  }

  /** An escaped quote does not close the string. */
  lemma EscapedQuote()
    ensures ParseString("\"a\\\"", 0) == None
  {
  }

  /** `"\"\`: the backslash at the end of the input takes no character, so the escaped
      quote before it is followed by nothing that closes the string. */
  lemma BackslashAtEnd()
    ensures ParseString("\"\\\"\\", 0) == None
  {
    assert ScanBody("\"\\\"\\", 1) == None;
  }

  /** Whatever follows the root value is ignored. */
  lemma TrailingInput()
    ensures Parse(Some("1 x")) == Some(Node(None, Number("1", false)))
  {
    var t := "1 x";
    assert StrLen(t) == 3 && t[..3] == t;
    assert SkipWs(t, 0) == 0 && DigitsEnd(t, 0) == 1 && t[0..1] == "1";
    assert ScanNumber(t, 0) == (NumberShape(false, "1", None, None), 1);
    assert ParseValue(t, 0) == Some((Node(None, Number("1", false)), 1));
  }
}
