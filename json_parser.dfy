/**
 * The parser as the C code runs it: one shared cursor (parser_state) whose `pos` every
 * parser advances in place. Each method is proved to produce exactly the value and the
 * final position that the reference parser in JsonSpec gives for the starting position.
 * After a failure the final position is left unspecified: every caller gives up too.
 */
module JsonParser {
  import opened Wrappers
  import opened JsonTree
  import opened JsonText
  import JsonSpec

  /** A method result `r` with the cursor at `pos` agrees with the reference result `spec`. */
  ghost predicate Agrees(r: Option<Node>, spec: Option<(Node, nat)>, pos: nat)
  {
    match spec
    case None => r.None?
    case Some((n, e)) => r == Some(n) && pos == e
  }

  /** The outcome of one iteration of an element or member loop: a failure, or the chain
      with one more node and the loop ended by its closing bracket or continued. */
  datatype Step = Failed | Closed(chain: seq<Node>) | Continued(chain: seq<Node>)

  class ParserState {
    const json: seq<char>
    const len: nat
    var pos: nat

    ghost predicate Valid()
      reads this
    {
      len == |json| && pos <= len
    }

    constructor (text: seq<char>)
      ensures Valid() && json == text && pos == 0
    {
      json := text;
      len := |text|;
      pos := 0;
    }

    /** `state->json[state->pos]`, the NUL terminator at the end. */
    function Current(): (c: char)
      reads this
      requires Valid()
      ensures c == Peek(json, pos)
    {
      if pos < len then json[pos] else '\0'
    }

    method SkipWhitespace()
      requires Valid()
      modifies this
      ensures Valid() && pos == SkipWs(json, old(pos))
    {
      while pos < len && IsSpace(json[pos])
        invariant Valid() && old(pos) <= pos
        invariant SkipWs(json, old(pos)) == SkipWs(json, pos)
        decreases len - pos
      {
        pos := pos + 1;
      }
    }

    /** `parse_string`: a counting pass, then a decoding pass into a buffer of the counted
        size plus the terminator. */
    method ParseString() returns (r: Option<string>)
      requires Valid()
      modifies this
      ensures Valid()
      ensures match JsonSpec.ParseString(json, old(pos))
        case None => r.None?
        case Some((s, e)) => r == Some(s) && pos == e
    {
      if Current() != '"' {
        return None;
      }
      pos := pos + 1;
      var start := pos;
      var n := CountBody();
      if n.None? {
        return None;
      }
      var buf := new char[n.value + 1];
      pos := start;
      var i := DecodeBody(buf);
      buf[i] := '\0';
      pos := pos + 1;
      r := Some(buf[..i]);
    }

    /** The first pass of `parse_string`: counts the logical characters up to the closing
        quote, a backslash and the character after it counting as one. */
    method CountBody() returns (n: Option<nat>)
      requires Valid()
      modifies this
      ensures Valid()
      ensures match JsonSpec.ScanBody(json, old(pos))
        case None => n.None?
        case Some((m, q)) => n == Some(m) && pos == q
    {
      var count := 0;
      while pos < len && json[pos] != '"'
        invariant Valid() && old(pos) <= pos
        invariant JsonSpec.ScanBody(json, old(pos)) ==
          match JsonSpec.ScanBody(json, pos)
          case None => None
          case Some((m, q)) => Some((m + count, q))
        decreases len - pos
      {
        ghost var p0 := pos;
        if json[pos] == '\\' {
          pos := pos + 1;
          if pos >= len {
            assert JsonSpec.ScanBody(json, p0).None?;
            return None;
          }
        }
        pos := pos + 1;
        count := count + 1;
      }
      if pos >= len {
        return None;
      }
      n := Some(count);
    }

    /** The second pass of `parse_string`: writes the decoded body into `buf`, which the
        first pass sized, and stops at the closing quote. */
    method DecodeBody(buf: array<char>) returns (i: nat)
      requires Valid() && JsonSpec.ScanBody(json, pos).Some?
      requires buf.Length == JsonSpec.ScanBody(json, pos).value.0 + 1
      modifies this, buf
      ensures Valid() && i + 1 == buf.Length
      ensures pos == JsonSpec.ScanBody(json, old(pos)).value.1
      ensures buf[..i] == JsonSpec.DecodeBody(json, old(pos))
    {
      ghost var start, close := pos, JsonSpec.ScanBody(json, pos).value.1;
      ghost var decoded := JsonSpec.DecodeBody(json, start);
      i := 0;
      while json[pos] != '"'
        invariant start <= pos <= close < len == |json|
        invariant JsonSpec.ScanBody(json, pos) == Some((buf.Length - 1 - i, close))
        invariant i <= |decoded| && JsonSpec.DecodeBody(json, pos) == decoded[i..]
        invariant forall k :: 0 <= k < i ==> buf[k] == decoded[k]
        decreases close - pos
      {
        JsonSpec.DecodeStep(json, pos, decoded, i);
        if json[pos] == '\\' {
          pos := pos + 1;
          buf[i] := JsonSpec.Unescape(json[pos]);
        } else {
          buf[i] := json[pos];
        }
        i := i + 1;
        pos := pos + 1;
      }
      assert JsonSpec.DecodeBody(json, pos) == [];
      assert i == |decoded|;
      assert forall k :: 0 <= k < i ==> buf[..i][k] == decoded[k];
      assert buf[..i] == decoded;
    }

    /** Advances over a run of digits. */
    method SkipDigits()
      requires Valid()
      modifies this
      ensures Valid() && pos == DigitsEnd(json, old(pos))
    {
      while pos < len && IsDigit(json[pos])
        invariant Valid() && old(pos) <= pos
        invariant DigitsEnd(json, old(pos)) == DigitsEnd(json, pos)
        decreases len - pos
      {
        pos := pos + 1;
      }
    }

    /** `parse_number`: the greedy lexical scan, classified floating on `.` or `e`/`E`. */
    method ParseNumber() returns (n: Node)
      requires Valid()
      modifies this
      ensures Valid() && (n, pos) == JsonSpec.ParseNumber(json, old(pos))
    {
      var start := pos;
      ScanInteger();
      var fraction := ScanFraction();
      var exponent := ScanExponent();
      var isFloat := fraction || exponent;
      n := Node(None, Number(json[start..pos], isFloat));
    }

    /** The optional `-` and the integer digits of `parse_number`. */
    method ScanInteger()
      requires Valid()
      modifies this
      ensures Valid() && pos == JsonSpec.ScanInteger(json, old(pos)).2
    {
      if Current() == '-' {
        pos := pos + 1;
      }
      SkipDigits();
    }

    /** The optional fractional part of `parse_number`; reports whether a `.` was seen. */
    method ScanFraction() returns (seen: bool)
      requires Valid()
      modifies this
      ensures Valid() && pos == JsonSpec.ScanFraction(json, old(pos)).1
      ensures seen == JsonSpec.ScanFraction(json, old(pos)).0.Some?
    {
      seen := false;
      if pos < len && json[pos] == '.' {
        seen := true;
        pos := pos + 1;
        SkipDigits();
      }
    }

    /** The optional exponent part of `parse_number`; reports whether `e` or `E` was seen.
        The sign test reads the terminator when the marker ends the input. */
    method ScanExponent() returns (seen: bool)
      requires Valid()
      modifies this
      ensures Valid() && pos == JsonSpec.ScanExponent(json, old(pos)).1
      ensures seen == JsonSpec.ScanExponent(json, old(pos)).0.Some?
    {
      seen := false;
      if pos < len && (json[pos] == 'e' || json[pos] == 'E') {
        seen := true;
        pos := pos + 1;
        if Current() == '+' || Current() == '-' {
          pos := pos + 1;
        }
        SkipDigits();
      }
    }

    /** `parse_null`; the cursor does not move on failure. */
    method ParseNull() returns (r: Option<Node>)
      requires Valid()
      modifies this
      ensures Valid() && Agrees(r, JsonSpec.ParseNull(json, old(pos)), pos)
      ensures r.None? ==> pos == old(pos)
    {
      if pos + 4 <= len && json[pos..pos + 4] == "null" {
        pos := pos + 4;
        r := Some(Node(None, Null));
      } else {
        r := None;
      }
    }

    /** `parse_bool`; the cursor does not move on failure. */
    method ParseBool() returns (r: Option<Node>)
      requires Valid()
      modifies this
      ensures Valid() && Agrees(r, JsonSpec.ParseBool(json, old(pos)), pos)
      ensures r.None? ==> pos == old(pos)
    {
      if pos + 4 <= len && json[pos..pos + 4] == "true" {
        pos := pos + 4;
        r := Some(Node(None, Bool(true)));
      } else if pos + 5 <= len && json[pos..pos + 5] == "false" {
        pos := pos + 5;
        r := Some(Node(None, Bool(false)));
      } else {
        r := None;
      }
    }

    /** One element of `parse_array`: whitespace and a value, appended to the chain. */
    method ArrayElement(chain: seq<Node>) returns (r: Option<seq<Node>>)
      requires Valid() && pos < len
      modifies this
      ensures Valid()
      ensures match r
        case None => JsonSpec.ArrayElements(json, old(pos), chain) == None
        case Some(c) =>
          |c| == |chain| + 1 && old(pos) < pos &&
          JsonSpec.ArrayElements(json, old(pos), chain) == JsonSpec.ArrayNext(json, pos, c)
      decreases len - pos, 4
    {
      SkipWhitespace();
      var elem := ParseValue();
      if elem.None? {
        return None;
      }
      r := Some(chain + [elem.value]);
    }

    /** `parse_array`: each element is appended at the tail of the chain and `count` is
        incremented once per element. */
    method ParseArray() returns (r: Option<Node>)
      requires Valid()
      modifies this
      ensures Valid() && Agrees(r, JsonSpec.ParseArray(json, old(pos)), pos)
      decreases len - pos, 1
    {
      if Current() != '[' {
        return None;
      }
      pos := pos + 1;
      SkipWhitespace();
      if Current() == ']' {
        pos := pos + 1;
        return Some(Node(None, Array(0, [])));
      }
      r := ArrayLoop();
    }

    /** What follows a node of `parse_array`: whitespace, then `]`, which ends the
        loop, or `,`, which continues it; either is consumed, and anything else fails. */
    method ArraySeparator(chain: seq<Node>) returns (s: Step)
      requires Valid()
      modifies this
      ensures Valid()
      ensures match s
        case Failed => JsonSpec.ArrayNext(json, old(pos), chain) == None
        case Closed(c) =>
          c == chain && JsonSpec.ArrayNext(json, old(pos), chain) == Some((Node(None, Array(|c|, c)), pos))
        case Continued(c) =>
          c == chain && old(pos) < pos && JsonSpec.ArrayNext(json, old(pos), chain) == JsonSpec.ArrayElements(json, pos, c)
    {
      SkipWhitespace();
      if Current() == ']' {
        pos := pos + 1;
        return Closed(chain);
      }
      if Current() != ',' {
        return Failed;
      }
      pos := pos + 1;
      return Continued(chain);
    }

    /** One iteration of the loop of `parse_array`: the next node, then `]` or `,`. */
    method ArrayStep(chain: seq<Node>) returns (s: Step)
      requires Valid() && pos < len
      modifies this
      ensures Valid()
      ensures match s
        case Failed => JsonSpec.ArrayElements(json, old(pos), chain) == None
        case Closed(c) =>
          |c| == |chain| + 1 &&
          JsonSpec.ArrayElements(json, old(pos), chain) == Some((Node(None, Array(|c|, c)), pos))
        case Continued(c) =>
          |c| == |chain| + 1 && old(pos) < pos &&
          JsonSpec.ArrayElements(json, old(pos), chain) == JsonSpec.ArrayElements(json, pos, c)
      decreases len - pos, 5
    {
      var next := ArrayElement(chain);
      if next.None? {
        return Failed;
      }
      s := ArraySeparator(next.value);
    }

    /** The loop of `parse_array` after its first non-blank character, which is not
        `]`; it also ends, with what it has chained, at the end of the input. */
    method ArrayLoop() returns (r: Option<Node>)
      requires Valid()
      modifies this
      ensures Valid() && Agrees(r, JsonSpec.ArrayElements(json, old(pos), []), pos)
      decreases len - pos, 6
    {
      var count := 0;
      var chain: seq<Node> := [];
      while pos < len
        invariant Valid() && old(pos) <= pos
        invariant count == |chain|
        invariant JsonSpec.ArrayElements(json, old(pos), []) == JsonSpec.ArrayElements(json, pos, chain)
        decreases len - pos
      {
        var step := ArrayStep(chain);
        match step
        case Failed =>
          return None;
        case Closed(c) =>
          chain := c;
          count := count + 1;
          return Some(Node(None, Array(count, chain)));
        case Continued(c) =>
          chain := c;
          count := count + 1;
      }
      r := Some(Node(None, Array(count, chain)));
    }

    /** One member of `parse_object`: whitespace, the key string, whitespace, `:`, then the
        value, which gets the key and is appended to the chain. */
    method ObjectMember(chain: seq<Node>) returns (r: Option<seq<Node>>)
      requires Valid() && pos < len
      modifies this
      ensures Valid()
      ensures match r
        case None => JsonSpec.ObjectMembers(json, old(pos), chain) == None
        case Some(c) =>
          |c| == |chain| + 1 && old(pos) < pos &&
          JsonSpec.ObjectMembers(json, old(pos), chain) == JsonSpec.ObjectNext(json, pos, c)
      decreases len - pos, 4
    {
      SkipWhitespace();
      var key := ParseString();
      if key.None? {
        return None;
      }
      SkipWhitespace();
      if Current() != ':' {
        return None;
      }
      pos := pos + 1;
      ghost var q := pos;
      assert JsonSpec.ObjectMembers(json, old(pos), chain) ==
        JsonSpec.ObjectValue(json, q, key.value, chain);
      SkipWhitespace();
      var value := ParseValue();
      if value.None? {
        return None;
      }
      r := Some(chain + [Node(key, value.value.value)]);
    }

    /** `parse_object`: like the array loop, each member carrying its key. */
    method ParseObject() returns (r: Option<Node>)
      requires Valid()
      modifies this
      ensures Valid() && Agrees(r, JsonSpec.ParseObject(json, old(pos)), pos)
      decreases len - pos, 1
    {
      if Current() != '{' {
        return None;
      }
      pos := pos + 1;
      SkipWhitespace();
      if Current() == '}' {
        pos := pos + 1;
        return Some(Node(None, Object(0, [])));
      }
      r := ObjectLoop();
    }

    /** What follows a node of `parse_object`: whitespace, then `}`, which ends the
        loop, or `,`, which continues it; either is consumed, and anything else fails. */
    method ObjectSeparator(chain: seq<Node>) returns (s: Step)
      requires Valid()
      modifies this
      ensures Valid()
      ensures match s
        case Failed => JsonSpec.ObjectNext(json, old(pos), chain) == None
        case Closed(c) =>
          c == chain && JsonSpec.ObjectNext(json, old(pos), chain) == Some((Node(None, Object(|c|, c)), pos))
        case Continued(c) =>
          c == chain && old(pos) < pos && JsonSpec.ObjectNext(json, old(pos), chain) == JsonSpec.ObjectMembers(json, pos, c)
    {
      SkipWhitespace();
      if Current() == '}' {
        pos := pos + 1;
        return Closed(chain);
      }
      if Current() != ',' {
        return Failed;
      }
      pos := pos + 1;
      return Continued(chain);
    }

    /** One iteration of the loop of `parse_object`: the next node, then `}` or `,`. */
    method ObjectStep(chain: seq<Node>) returns (s: Step)
      requires Valid() && pos < len
      modifies this
      ensures Valid()
      ensures match s
        case Failed => JsonSpec.ObjectMembers(json, old(pos), chain) == None
        case Closed(c) =>
          |c| == |chain| + 1 &&
          JsonSpec.ObjectMembers(json, old(pos), chain) == Some((Node(None, Object(|c|, c)), pos))
        case Continued(c) =>
          |c| == |chain| + 1 && old(pos) < pos &&
          JsonSpec.ObjectMembers(json, old(pos), chain) == JsonSpec.ObjectMembers(json, pos, c)
      decreases len - pos, 5
    {
      var next := ObjectMember(chain);
      if next.None? {
        return Failed;
      }
      s := ObjectSeparator(next.value);
    }

    /** The loop of `parse_object` after its first non-blank character, which is not
        `}`; it also ends, with what it has chained, at the end of the input. */
    method ObjectLoop() returns (r: Option<Node>)
      requires Valid()
      modifies this
      ensures Valid() && Agrees(r, JsonSpec.ObjectMembers(json, old(pos), []), pos)
      decreases len - pos, 6
    {
      var count := 0;
      var chain: seq<Node> := [];
      while pos < len
        invariant Valid() && old(pos) <= pos
        invariant count == |chain|
        invariant JsonSpec.ObjectMembers(json, old(pos), []) == JsonSpec.ObjectMembers(json, pos, chain)
        decreases len - pos
      {
        var step := ObjectStep(chain);
        match step
        case Failed =>
          return None;
        case Closed(c) =>
          chain := c;
          count := count + 1;
          return Some(Node(None, Object(count, chain)));
        case Continued(c) =>
          chain := c;
          count := count + 1;
      }
      r := Some(Node(None, Object(count, chain)));
    }

    /** `parse_value`: skip whitespace and dispatch on the first character. */
    method ParseValue() returns (r: Option<Node>)
      requires Valid()
      modifies this
      ensures Valid() && Agrees(r, JsonSpec.ParseValue(json, old(pos)), pos)
      decreases len - pos, 3
    {
      SkipWhitespace();
      if pos >= len {
        return None;
      }
      var c := json[pos];
      assert JsonSpec.ParseValue(json, old(pos)) == JsonSpec.Dispatch(json, pos);
      if c == '"' {
        var s := ParseString();
        if s.None? {
          return None;
        }
        return Some(Node(None, Str(s.value)));
      }
      if c == '{' {
        r := ParseObject();
        return;
      }
      if c == '[' {
        r := ParseArray();
        return;
      }
      if c == 't' || c == 'f' {
        r := ParseBool();
        return;
      }
      if c == 'n' {
        r := ParseNull();
        return;
      }
      if c == '-' || IsDigit(c) {
        var n := ParseNumber();
        return Some(n);
      }
      return None;
    }
  }

  /** `s_json_parse`: NULL for a NULL argument, else one value read from a fresh cursor over
      the C string; whatever follows that value is ignored. */
  method Parse(json: Option<seq<char>>) returns (r: Option<Node>)
    ensures r == JsonSpec.Parse(json)
  {
    if json.None? {
      return None;
    }
    var buf := json.value;
    var state := new ParserState(buf[..StrLen(buf)]);
    r := state.ParseValue();
  }
}
