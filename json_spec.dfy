/**
 * The reference parser: one function per parser of s_json.h, over the input text and the
 * cursor position, returning the parsed value and the position the cursor is left at.
 * The imperative parser in module JsonParser is proved to compute exactly these.
 */
module JsonSpec {
  import opened Wrappers
  import opened JsonTree
  import opened JsonText

  // ---------------------------------------------------------------- strings

  /** The character an escape `\c` stands for. Unknown escapes stand for `c` itself. */
  function Unescape(c: char): char
  {
    match c
    case 'n' => '\n'
    case 't' => '\t'
    case 'r' => '\r'
    case 'b' => '\U{0008}'
    case 'f' => '\U{000C}'
    case '"' => '"'
    case '\\' => '\\'
    case '/' => '/'
    case _ => c
  }

  /** The length of the string-body unit at `p`: a backslash and the character after it
      form one unit, any other character is a unit by itself. */
  function UnitLength(t: seq<char>, p: nat): nat
    requires p < |t|
  {
    if t[p] == '\\' then 2 else 1
  }

  /** The character the unit at `p` decodes to. */
  function UnitChar(t: seq<char>, p: nat): char
    requires p < |t| && p + UnitLength(t, p) <= |t|
  {
    if t[p] == '\\' then Unescape(t[p + 1]) else t[p]
  }

  /** The first pass of `parse_string` over a string body starting at `p`: the number of
      units and the position of the closing quote, or None when the input ends before a
      closing quote or right after a backslash. */
  function ScanBody(t: seq<char>, p: nat): (r: Option<(nat, nat)>)
    requires p <= |t|
    ensures r.Some? ==> p <= r.value.1 < |t| && t[r.value.1] == '"'
    decreases |t| - p
  {
    if p >= |t| then None
    else if t[p] == '"' then Some((0, p))
    else if p + UnitLength(t, p) > |t| then None
    else
      var rest := ScanBody(t, p + UnitLength(t, p));
      if rest.None? then None else Some((rest.value.0 + 1, rest.value.1))
  }

  /** The second pass: the decoded body, one output character per unit. */
  function DecodeBody(t: seq<char>, p: nat): (s: string)
    decreases |t| - p
  {
    if p >= |t| || t[p] == '"' || p + UnitLength(t, p) > |t| then []
    else [UnitChar(t, p)] + DecodeBody(t, p + UnitLength(t, p))
  }

  /** One step of the second pass, as the loop of `parse_string` takes it. */
  lemma DecodeStep(t: seq<char>, p: nat, decoded: string, i: nat)
    requires p <= |t| && ScanBody(t, p).Some? && t[p] != '"'
    requires i <= |decoded| && DecodeBody(t, p) == decoded[i..]
    ensures p + UnitLength(t, p) <= |t|
    ensures ScanBody(t, p + UnitLength(t, p)) == Some((ScanBody(t, p).value.0 - 1, ScanBody(t, p).value.1))
    ensures i < |decoded| && decoded[i] == UnitChar(t, p)
    ensures DecodeBody(t, p + UnitLength(t, p)) == decoded[i + 1..]
  {
    assert decoded[i..][1..] == decoded[i + 1..];
  }

  /** `parse_string`: the decoded text and the position one past the closing quote. */
  function ParseString(t: seq<char>, p: nat): (r: Option<(string, nat)>)
    requires p <= |t|
    ensures r.Some? ==> p + 2 <= r.value.1 <= |t| && t[p] == '"' && t[r.value.1 - 1] == '"'
  {
    if Peek(t, p) != '"' then None
    else match ScanBody(t, p + 1)
      case None => None
      case Some((_, q)) => Some((DecodeBody(t, p + 1), q + 1))
  }

  // ---------------------------------------------------------------- numbers

  /** The exponent part of a number lexeme: `e` or `E`, an optional sign, digits. */
  datatype Exponent = Exponent(marker: char, sign: string, digits: string)

  /** The parts of the greedy span `-? digit* ('.' digit*)? ([eE] [+-]? digit*)?`. */
  datatype NumberShape = NumberShape(minus: bool, intDigits: string, frac: Option<string>, exp: Option<Exponent>)

  predicate AllDigits(s: string)
  {
    forall i :: 0 <= i < |s| ==> IsDigit(s[i])
  }

  predicate ShapeOk(n: NumberShape)
  {
    && AllDigits(n.intDigits)
    && (n.frac.Some? ==> AllDigits(n.frac.value))
    && (n.exp.Some? ==>
          && (n.exp.value.marker == 'e' || n.exp.value.marker == 'E')
          && (n.exp.value.sign == "" || n.exp.value.sign == "+" || n.exp.value.sign == "-")
          && AllDigits(n.exp.value.digits))
  }

  function RenderExp(e: Option<Exponent>): string
  {
    match e
    case None => ""
    case Some(x) => [x.marker] + x.sign + x.digits
  }

  function RenderFrac(f: Option<string>): string
  {
    match f
    case None => ""
    case Some(ds) => "." + ds
  }

  /** The text of a number shape. */
  function Render(n: NumberShape): string
  {
    (if n.minus then "-" else "") + n.intDigits + RenderFrac(n.frac) + RenderExp(n.exp)
  }

  /** Whether the scanner, having read `n`, would also consume a following `c`. */
  predicate CanExtend(n: NumberShape, c: char)
  {
    match n.exp
    case Some(e) => IsDigit(c) || (e.sign == "" && e.digits == "" && (c == '+' || c == '-'))
    case None =>
      IsDigit(c) || c == 'e' || c == 'E'
      || (n.frac.None? && c == '.')
      || (n.frac.None? && !n.minus && n.intDigits == "" && c == '-')
  }

  /** The classification `parse_number` makes: floating iff a `.` or an exponent marker was seen. */
  predicate IsFloat(n: NumberShape)
  {
    n.frac.Some? || n.exp.Some?
  }

  /** The optional exponent part: `e` or `E`, an optional sign (read even at the end of the
      input, where it is the terminator), and the digit run. */
  function ScanExponent(t: seq<char>, c: nat): (r: (Option<Exponent>, nat))
    requires c <= |t|
    ensures c <= r.1 <= |t|
  {
    if Peek(t, c) == 'e' || Peek(t, c) == 'E' then
      var s := if Peek(t, c + 1) == '+' || Peek(t, c + 1) == '-' then c + 2 else c + 1;
      var e := DigitsEnd(t, s);
      (Some(Exponent(t[c], t[c + 1..s], t[s..e])), e)
    else
      (None, c)
  }

  /** The optional fractional part: `.` and the digit run. */
  function ScanFraction(t: seq<char>, b: nat): (r: (Option<string>, nat))
    requires b <= |t|
    ensures b <= r.1 <= |t|
  {
    if Peek(t, b) == '.' then
      var c := DigitsEnd(t, b + 1);
      (Some(t[b + 1..c]), c)
    else
      (None, b)
  }

  /** The optional `-` and the integer digits at the start of a number. */
  function ScanInteger(t: seq<char>, p: nat): (r: (bool, string, nat))
    requires p <= |t|
    ensures p <= r.2 <= |t|
    ensures Peek(t, p) == '-' || IsDigit(Peek(t, p)) ==> p < r.2
  {
    var a := if Peek(t, p) == '-' then p + 1 else p;
    var b := DigitsEnd(t, a);
    (a > p, t[a..b], b)
  }

  /** The lexical scan of `parse_number`: the shape read and where the cursor stops. */
  function ScanNumber(t: seq<char>, p: nat): (r: (NumberShape, nat))
    requires p <= |t|
    ensures p <= r.1 <= |t|
    ensures Peek(t, p) == '-' || IsDigit(Peek(t, p)) ==> p < r.1
  {
    var (minus, ds, b) := ScanInteger(t, p);
    var (frac, c) := ScanFraction(t, b);
    var (exp, e) := ScanExponent(t, c);
    (NumberShape(minus, ds, frac, exp), e)
  }

  /** `parse_number`: always a Number node holding the consumed text. */
  function ParseNumber(t: seq<char>, p: nat): (r: (Node, nat))
    requires p <= |t|
    ensures p <= r.1 <= |t|
    ensures Peek(t, p) == '-' || IsDigit(Peek(t, p)) ==> p < r.1
  {
    var (shape, e) := ScanNumber(t, p);
    (Node(None, Number(t[p..e], IsFloat(shape))), e)
  }

  // ---------------------------------------------------------------- literals

  /** `parse_null`: an exact, in-bounds `null`. */
  function ParseNull(t: seq<char>, p: nat): (r: Option<(Node, nat)>)
    requires p <= |t|
    ensures r.Some? ==> r.value.1 == p + 4 <= |t|
  {
    if p + 4 <= |t| && t[p..p + 4] == "null" then Some((Node(None, Null), p + 4)) else None
  }

  /** `parse_bool`: an exact, in-bounds `true` or `false`. */
  function ParseBool(t: seq<char>, p: nat): (r: Option<(Node, nat)>)
    requires p <= |t|
    ensures r.Some? ==> (r.value.1 == p + 4 || r.value.1 == p + 5) && r.value.1 <= |t|
  {
    if p + 4 <= |t| && t[p..p + 4] == "true" then Some((Node(None, Bool(true)), p + 4))
    else if p + 5 <= |t| && t[p..p + 5] == "false" then Some((Node(None, Bool(false)), p + 5))
    else None
  }

  // ---------------------------------------------------------------- values and containers

  /** `parse_value`: skip whitespace, then dispatch on the first character. On success the
      cursor has advanced past at least one character. */
  function ParseValue(t: seq<char>, p: nat): (r: Option<(Node, nat)>)
    requires p <= |t|
    ensures r.Some? ==> p < r.value.1 <= |t|
    decreases |t| - p, 3
  {
    Dispatch(t, SkipWs(t, p))
  }

  /** The routing of `parse_value` once whitespace is skipped: `"` string, `{` object,
      `[` array, `t`/`f` boolean, `n` null, `-` or a digit number; anything else, and the
      end of the input, fail. */
  function Dispatch(t: seq<char>, q: nat): (r: Option<(Node, nat)>)
    requires q <= |t|
    ensures r.Some? ==> q < r.value.1 <= |t|
    decreases |t| - q, 2
  {
    if q >= |t| then None
    else if t[q] == '"' then ParseStringValue(t, q)
    else if t[q] == '{' then ParseObject(t, q)
    else if t[q] == '[' then ParseArray(t, q)
    else if t[q] == 't' || t[q] == 'f' then ParseBool(t, q)
    else if t[q] == 'n' then ParseNull(t, q)
    else if t[q] == '-' || IsDigit(t[q]) then ParseNumberValue(t, q)
    else None
  }

  /** The string branch of `parse_value`: a String node holding the decoded text. */
  function ParseStringValue(t: seq<char>, q: nat): (r: Option<(Node, nat)>)
    requires q <= |t|
    ensures r.Some? ==> q < r.value.1 <= |t|
  {
    match ParseString(t, q)
    case None => None
    case Some((s, e)) => Some((Node(None, Str(s)), e))
  }

  /** The number branch of `parse_value`, entered on `-` or a digit, which the scan consumes. */
  function ParseNumberValue(t: seq<char>, q: nat): (r: Option<(Node, nat)>)
    requires q < |t| && (t[q] == '-' || IsDigit(t[q]))
    ensures r.Some? && q < r.value.1 <= |t|
  {
    Some(ParseNumber(t, q))
  }

  /** `parse_array`. */
  function ParseArray(t: seq<char>, p: nat): (r: Option<(Node, nat)>)
    requires p <= |t|
    ensures r.Some? ==> p < r.value.1 <= |t|
    decreases |t| - p, 1
  {
    if Peek(t, p) != '[' then None
    else
      var q := SkipWs(t, p + 1);
      if Peek(t, q) == ']' then Some((Node(None, Array(0, [])), q + 1))
      else ArrayElements(t, q, [])
  }

  /** The top of the element loop of `parse_array`, at `p` with the elements chained so
      far. When the input has run out the array is returned as it stands. */
  function ArrayElements(t: seq<char>, p: nat, elems: seq<Node>): (r: Option<(Node, nat)>)
    requires p <= |t|
    ensures r.Some? ==> p <= r.value.1 <= |t|
    decreases |t| - p, 4
  {
    if p >= |t| then Some((Node(None, Array(|elems|, elems)), p))
    else
      match ParseValue(t, SkipWs(t, p))
      case None => None
      case Some((e, q)) => ArrayNext(t, q, elems + [e])
  }

  /** The rest of an iteration of the element loop, after an element is chained at the tail:
      `]` ends the array, `,` continues, anything else fails. */
  function ArrayNext(t: seq<char>, q: nat, elems: seq<Node>): (r: Option<(Node, nat)>)
    requires q <= |t|
    ensures r.Some? ==> q < r.value.1 <= |t|
    decreases |t| - q, 0
  {
    var q2 := SkipWs(t, q);
    if Peek(t, q2) == ']' then Some((Node(None, Array(|elems|, elems)), q2 + 1))
    else if Peek(t, q2) != ',' then None
    else ArrayElements(t, q2 + 1, elems)
  }

  /** `parse_object`. */
  function ParseObject(t: seq<char>, p: nat): (r: Option<(Node, nat)>)
    requires p <= |t|
    ensures r.Some? ==> p < r.value.1 <= |t|
    decreases |t| - p, 1
  {
    if Peek(t, p) != '{' then None
    else
      var q := SkipWs(t, p + 1);
      if Peek(t, q) == '}' then Some((Node(None, Object(0, [])), q + 1))
      else ObjectMembers(t, q, [])
  }

  /** The top of the member loop of `parse_object`: a key string, then `:`. When the input
      has run out the object is returned as it stands. */
  function ObjectMembers(t: seq<char>, p: nat, members: seq<Node>): (r: Option<(Node, nat)>)
    requires p <= |t|
    ensures r.Some? ==> p <= r.value.1 <= |t|
    decreases |t| - p, 4
  {
    if p >= |t| then Some((Node(None, Object(|members|, members)), p))
    else
      match ParseString(t, SkipWs(t, p))
      case None => None
      case Some((k, q1)) =>
        var q2 := SkipWs(t, q1);
        if Peek(t, q2) != ':' then None
        else ObjectValue(t, q2 + 1, k, members)
  }

  /** The member's value, after its `:`; the key is attached to the value's node, which
      is chained at the tail. */
  function ObjectValue(t: seq<char>, q: nat, key: string, members: seq<Node>): (r: Option<(Node, nat)>)
    requires q <= |t|
    ensures r.Some? ==> q < r.value.1 <= |t|
    decreases |t| - q, 4
  {
    match ParseValue(t, SkipWs(t, q))
    case None => None
    case Some((v, q4)) => ObjectNext(t, q4, members + [Node(Some(key), v.value)])
  }

  /** The rest of an iteration of the member loop: `}` ends the object, `,` continues,
      anything else fails. */
  function ObjectNext(t: seq<char>, q: nat, members: seq<Node>): (r: Option<(Node, nat)>)
    requires q <= |t|
    ensures r.Some? ==> q < r.value.1 <= |t|
    decreases |t| - q, 0
  {
    var q5 := SkipWs(t, q);
    if Peek(t, q5) == '}' then Some((Node(None, Object(|members|, members)), q5 + 1))
    else if Peek(t, q5) != ',' then None
    else ObjectMembers(t, q5 + 1, members)
  }

  /** `s_json_parse`: NULL for a NULL argument; otherwise one value parsed from the start
      of the C string, whatever follows it. */
  function Parse(json: Option<seq<char>>): (r: Option<Node>)
  {
    match json
    case None => None
    case Some(buf) =>
      match ParseValue(buf[..StrLen(buf)], 0)
      case None => None
      case Some((n, _)) => Some(n)
  }
}
