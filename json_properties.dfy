/**
 * Properties of the reference parser: the shape of every tree it returns, the routing of
 * `parse_value`, the agreement of the two passes of `parse_string`, and the float
 * classification of `parse_number`.
 */
module JsonProperties {
  import opened Wrappers
  import opened JsonTree
  import opened JsonText
  import opened JsonSpec

  // ---------------------------------------------------------------- strings

  /** The decoding pass of `parse_string` writes exactly as many characters as the counting
      pass counted, so the buffer of the counted size plus the terminator is filled. */
  lemma {:induction false} DecodeLength(t: seq<char>, p: nat)
    requires p <= |t| && ScanBody(t, p).Some?
    ensures |DecodeBody(t, p)| == ScanBody(t, p).value.0
    decreases |t| - p
  {
    if t[p] != '"' {
      DecodeLength(t, p + UnitLength(t, p));
    }
  }

  /** A string body in which no backslash or quote occurs before the closing quote decodes to
      itself: plain characters are copied. */
  lemma {:induction false} PlainBody(t: seq<char>, p: nat, q: nat)
    requires p <= q < |t| && t[q] == '"'
    requires forall k :: p <= k < q ==> t[k] != '\\' && t[k] != '"'
    ensures ScanBody(t, p) == Some((q - p, q))
    ensures DecodeBody(t, p) == t[p..q]
    decreases q - p
  {
    if p < q {
      PlainBody(t, p + 1, q);
      assert t[p..q] == [t[p]] + t[p + 1..q];
    }
  }

  /** The first pass fails when no quote follows, and when the input ends right after a
      backslash. */
  lemma {:induction false} UnclosedBody(t: seq<char>, p: nat)
    requires p <= |t|
    requires forall k :: p <= k < |t| ==> t[k] != '"'
    ensures ScanBody(t, p).None?
    decreases |t| - p
  {
    if p < |t| && p + UnitLength(t, p) <= |t| {
      UnclosedBody(t, p + UnitLength(t, p));
    }
  }

  /** The counting pass walks from `p` to `q` one unit at a time without stepping on a
      quote: every position it stands on before `q` holds no `"`, and a backslash takes the
      character after it along, so an escaped quote is stepped over. */
  predicate UnitWalk(t: seq<char>, p: nat, q: nat)
    decreases q - p
  {
    p == q || (p < q && p < |t| && t[p] != '"' && p + UnitLength(t, p) <= q && UnitWalk(t, p + UnitLength(t, p), q))
  }

  /** The quote that closes a body is where the walk first stands on a `"`. */
  lemma {:induction false} ClosingQuote(t: seq<char>, p: nat)
    requires p <= |t| && ScanBody(t, p).Some?
    ensures UnitWalk(t, p, ScanBody(t, p).value.1)
    decreases |t| - p
  {
    if t[p] != '"' {
      ClosingQuote(t, p + UnitLength(t, p));
    }
  }

  /** Any quote the walk reaches is the closing one. */
  lemma {:induction false} WalkCloses(t: seq<char>, p: nat, q: nat)
    requires UnitWalk(t, p, q) && q < |t| && t[q] == '"'
    ensures ScanBody(t, p).Some? && ScanBody(t, p).value.1 == q
    decreases q - p
  {
    if p < q {
      WalkCloses(t, p + UnitLength(t, p), q);
    }
  }

  /** The walk reaches the end of the input, or a backslash that is its last character. */
  predicate RunsOut(t: seq<char>, q: nat)
  {
    q == |t| || (q + 1 == |t| && t[q] == '\\')
  }

  /** A walk that runs out makes the counting pass fail. */
  lemma {:induction false} WalkRunsOut(t: seq<char>, p: nat, q: nat)
    requires UnitWalk(t, p, q) && RunsOut(t, q)
    ensures ScanBody(t, p).None?
    decreases q - p
  {
    if p < q {
      WalkRunsOut(t, p + UnitLength(t, p), q);
    }
  }

  /** A failing counting pass is a walk that runs out. */
  lemma {:induction false} FailureRunsOut(t: seq<char>, p: nat) returns (q: nat)
    requires p <= |t| && ScanBody(t, p).None?
    ensures UnitWalk(t, p, q) && RunsOut(t, q)
    decreases |t| - p
  {
    if p >= |t| || p + UnitLength(t, p) > |t| {
      q := p;
    } else {
      q := FailureRunsOut(t, p + UnitLength(t, p));
      WalkStart(t, p + UnitLength(t, p), q);
    }
  }

  lemma WalkStart(t: seq<char>, p: nat, q: nat)
    requires UnitWalk(t, p, q)
    ensures p <= q
  {
  }

  /** Both failures of the counting pass, exactly: the input ends before the walk stands on a
      `"`, or it ends right after a backslash the walk stands on. An escaped quote never
      closes the body. */
  lemma BodyFailure(t: seq<char>, p: nat)
    requires p <= |t|
    ensures ScanBody(t, p).None? <==> exists q: nat :: UnitWalk(t, p, q) && RunsOut(t, q)
    ensures ScanBody(t, p).Some? <==> exists q: nat :: UnitWalk(t, p, q) && q < |t| && t[q] == '"'
  {
    if ScanBody(t, p).None? {
      var q := FailureRunsOut(t, p);
      forall q': nat | UnitWalk(t, p, q') && q' < |t| && t[q'] == '"' ensures false {
        WalkCloses(t, p, q');
      }
    } else {
      ClosingQuote(t, p);
      forall q': nat | UnitWalk(t, p, q') && RunsOut(t, q') ensures false {
        WalkRunsOut(t, p, q');
      }
    }
  }

  /** `parse_string` fails exactly when the cursor is not on `"` or the body's walk runs
      out; in particular it fails when no quote follows at all. On success the cursor is
      one past the closing quote. */
  lemma StringFailure(t: seq<char>, p: nat)
    requires p <= |t|
    ensures ParseString(t, p).None? <==>
      Peek(t, p) != '"' || exists q: nat :: UnitWalk(t, p + 1, q) && RunsOut(t, q)
    ensures (forall k :: p < k < |t| ==> t[k] != '"') ==> ParseString(t, p).None?
    ensures ParseString(t, p).Some? ==>
      ParseString(t, p).value.1 == ScanBody(t, p + 1).value.1 + 1 && t[ParseString(t, p).value.1 - 1] == '"'
  {
    if Peek(t, p) == '"' {
      BodyFailure(t, p + 1);
      if forall k :: p < k < |t| ==> t[k] != '"' {
        UnclosedBody(t, p + 1);
      }
    }
  }

  // ---------------------------------------------------------------- literals

  /** `parse_null` succeeds exactly on an in-bounds `null`, and then consumes it. */
  lemma NullExact(t: seq<char>, p: nat)
    requires p <= |t|
    ensures ParseNull(t, p).Some? <==> p + 4 <= |t| && t[p..p + 4] == "null"
    ensures ParseNull(t, p).Some? ==> ParseNull(t, p).value == (Node(None, Null), p + 4)
  {
  }

  /** `parse_bool` succeeds exactly on an in-bounds `true` or `false`, consumes it, and
      stores which of the two it was. */
  lemma BoolExact(t: seq<char>, p: nat)
    requires p <= |t|
    ensures ParseBool(t, p).Some? <==>
      (p + 4 <= |t| && t[p..p + 4] == "true") || (p + 5 <= |t| && t[p..p + 5] == "false")
    ensures ParseBool(t, p).Some? && t[p] == 't' ==> ParseBool(t, p).value == (Node(None, Bool(true)), p + 4)
    ensures ParseBool(t, p).Some? && t[p] == 'f' ==> ParseBool(t, p).value == (Node(None, Bool(false)), p + 5)
  {
    if p + 4 <= |t| && t[p..p + 4] == "true" {
      assert t[p] == t[p..p + 4][0];
    }
  }

  // ---------------------------------------------------------------- numbers

  /** The sign and integer digits: the text consumed is the optional `-` and a digit run,
      and the scan stops at a non-digit. */
  lemma IntegerShape(t: seq<char>, p: nat)
    requires p <= |t|
    ensures var (minus, ds, b) := ScanInteger(t, p);
      && t[p..b] == (if minus then "-" else "") + ds
      && (minus <==> Peek(t, p) == '-')
      && AllDigits(ds) && !IsDigit(Peek(t, b))
  {
    var a := if Peek(t, p) == '-' then p + 1 else p;
    var b := DigitsEnd(t, a);
    assert t[p..b] == t[p..a] + t[a..b];
  }

  /** The fractional part: present exactly on a `.`, a digit run after it, stopping at a
      non-digit. */
  lemma FractionShape(t: seq<char>, b: nat)
    requires b <= |t|
    ensures var (frac, c) := ScanFraction(t, b);
      && t[b..c] == RenderFrac(frac)
      && (frac.None? <==> Peek(t, b) != '.')
      && (frac.Some? ==> AllDigits(frac.value) && !IsDigit(Peek(t, c)))
  {
    if Peek(t, b) == '.' {
      var c := DigitsEnd(t, b + 1);
      assert t[b..c] == [t[b]] + t[b + 1..c];
    }
  }

  /** The exponent part: present exactly on `e` or `E`, then an optional sign and a digit
      run; the scan stops at a non-digit, and at no sign when neither sign nor digit came. */
  lemma ExponentShape(t: seq<char>, c: nat)
    requires c <= |t|
    ensures var (exp, e) := ScanExponent(t, c);
      && t[c..e] == RenderExp(exp)
      && (exp.None? <==> Peek(t, c) != 'e' && Peek(t, c) != 'E')
      && (exp.Some? ==>
            && (exp.value.marker == 'e' || exp.value.marker == 'E')
            && (exp.value.sign == "" || exp.value.sign == "+" || exp.value.sign == "-")
            && AllDigits(exp.value.digits)
            && !IsDigit(Peek(t, e))
            && (exp.value.sign == "" && exp.value.digits == "" ==> Peek(t, e) != '+' && Peek(t, e) != '-'))
  {
    if Peek(t, c) == 'e' || Peek(t, c) == 'E' {
      var s := if Peek(t, c + 1) == '+' || Peek(t, c + 1) == '-' then c + 2 else c + 1;
      var e := DigitsEnd(t, s);
      assert t[c..e] == [t[c]] + t[c + 1..s] + t[s..e];
    }
  }

  /** `parse_number` consumes the greedy span `-? digit* ('.' digit*)? ([eE] [+-]? digit*)?`:
      the text consumed is a well-formed shape, and the next character cannot extend it. */
  lemma NumberShape(t: seq<char>, p: nat)
    requires p <= |t|
    ensures var (shape, e) := ScanNumber(t, p);
      ShapeOk(shape) && t[p..e] == Render(shape) && !CanExtend(shape, Peek(t, e))
  {
    var (minus, ds, b) := ScanInteger(t, p);
    var (frac, c) := ScanFraction(t, b);
    var (exp, e) := ScanExponent(t, c);
    IntegerShape(t, p);
    FractionShape(t, b);
    ExponentShape(t, c);
    SliceSplit(t, p, b, c, e);
  }

  lemma SliceSplit(t: seq<char>, p: nat, b: nat, c: nat, e: nat)
    requires p <= b <= c <= e <= |t|
    ensures t[p..e] == t[p..b] + t[b..c] + t[c..e]
  {
  }

  /** A rendered number contains a `.` or an exponent marker exactly when its shape has a
      fraction or an exponent. */
  lemma RenderFloatChars(n: NumberShape)
    requires ShapeOk(n)
    ensures IsFloat(n) <==> exists i :: 0 <= i < |Render(n)| && Render(n)[i] in {'.', 'e', 'E'}
  {
    var lead := (if n.minus then "-" else "") + n.intDigits;
    assert Render(n) == lead + RenderFrac(n.frac) + RenderExp(n.exp);
    assert forall i :: 0 <= i < |lead| ==> lead[i] !in {'.', 'e', 'E'} by {
      forall i | 0 <= i < |lead|
        ensures lead[i] !in {'.', 'e', 'E'}
      {
        if n.minus && i == 0 {
        } else {
          var j := if n.minus then i - 1 else i;
          assert lead[i] == n.intDigits[j];
        }
      }
    }
    if n.frac.Some? {
      assert Render(n)[|lead|] == '.';
    } else if n.exp.Some? {
      assert Render(n)[|lead|] == n.exp.value.marker;
    } else {
      assert Render(n) == lead;
    }
  }

  /** `parse_number` classifies its lexeme as floating exactly when a `.` or an exponent
      marker was consumed. */
  lemma NumberClassification(t: seq<char>, p: nat)
    requires p <= |t|
    ensures var (node, e) := ParseNumber(t, p);
      node.value.isFloat <==> exists i :: p <= i < e && t[i] in {'.', 'e', 'E'}
  {
    var (shape, e) := ScanNumber(t, p);
    NumberShape(t, p);
    RenderFloatChars(shape);
    assert t[p..e] == Render(shape);
    if IsFloat(shape) {
      var i :| 0 <= i < |Render(shape)| && Render(shape)[i] in {'.', 'e', 'E'};
      assert t[p + i] == Render(shape)[i];
    } else {
      forall i | p <= i < e
        ensures t[i] !in {'.', 'e', 'E'}
      {
        assert t[i] == Render(shape)[i - p];
      }
    }
  }

  // ---------------------------------------------------------------- routing

  /** The routing of `parse_value` after whitespace: each opening character selects one
      parser, and any other character, or the end of the input, fails. */
  lemma Routes(t: seq<char>, q: nat)
    requires q <= |t|
    ensures Peek(t, q) == '"' ==> Dispatch(t, q) == ParseStringValue(t, q)
    ensures Peek(t, q) == '{' ==> Dispatch(t, q) == ParseObject(t, q)
    ensures Peek(t, q) == '[' ==> Dispatch(t, q) == ParseArray(t, q)
    ensures Peek(t, q) == 't' || Peek(t, q) == 'f' ==> Dispatch(t, q) == ParseBool(t, q)
    ensures Peek(t, q) == 'n' ==> Dispatch(t, q) == ParseNull(t, q)
    ensures Peek(t, q) == '-' || IsDigit(Peek(t, q)) ==> Dispatch(t, q) == ParseNumberValue(t, q)
    ensures Peek(t, q) !in {'"', '{', '[', 't', 'f', 'n', '-'} && !IsDigit(Peek(t, q)) ==>
      Dispatch(t, q).None?
  {
  }

  /** The kind of node `parse_value` returns is the kind the first non-blank character
      names, and every number start succeeds. */
  lemma ValueKind(t: seq<char>, p: nat)
    requires p <= |t|
    ensures var c := Peek(t, SkipWs(t, p));
      match ParseValue(t, p)
      case None => c != '-' && !IsDigit(c)
      case Some((n, _)) =>
        && (n.value.Str? <==> c == '"')
        && (n.value.Object? <==> c == '{')
        && (n.value.Array? <==> c == '[')
        && (n.value.Bool? <==> c == 't' || c == 'f')
        && (n.value.Null? <==> c == 'n')
        && (n.value.Number? <==> c == '-' || IsDigit(c))
  {
    var q := SkipWs(t, p);
    Routes(t, q);
    if Peek(t, q) == '[' {
      ArrayWellFormed(t, q);
    } else if Peek(t, q) == '{' {
      ObjectWellFormed(t, q);
    }
  }

  // ---------------------------------------------------------------- tree shape

  /** Chains as the element loop builds them: nodes without a key, each well formed. */
  predicate ElementChain(es: seq<Node>)
  {
    forall i :: 0 <= i < |es| ==> es[i].key.None? && WellFormed(es[i])
  }

  /** Chains as the member loop builds them: nodes with a key, each well formed. */
  predicate MemberChain(ms: seq<Node>)
  {
    forall i :: 0 <= i < |ms| ==> ms[i].key.Some? && WellFormed(ms[i])
  }

  /** A successful result of the element loop entered with `elems` already chained: an
      unkeyed, well-formed array whose chain extends `elems` at the tail. */
  predicate GrownArray(r: Option<(Node, nat)>, elems: seq<Node>)
  {
    r.Some? ==>
      var n := r.value.0;
      n.key.None? && n.value.Array? && n.value.count == |n.value.elems|
      && elems <= n.value.elems && ElementChain(n.value.elems)
  }

  /** The same for the member loop. */
  predicate GrownObject(r: Option<(Node, nat)>, members: seq<Node>)
  {
    r.Some? ==>
      var n := r.value.0;
      n.key.None? && n.value.Object? && n.value.count == |n.value.members|
      && members <= n.value.members && MemberChain(n.value.members)
  }

  /** A successful result of a value parser: an unkeyed, well-formed node. */
  predicate Rooted(r: Option<(Node, nat)>)
  {
    r.Some? ==> r.value.0.key.None? && WellFormed(r.value.0)
  }

  lemma {:induction false} ValueWellFormed(t: seq<char>, p: nat)
    requires p <= |t|
    ensures Rooted(ParseValue(t, p))
    decreases |t| - p, 3
  {
    DispatchWellFormed(t, SkipWs(t, p));
  }

  lemma {:induction false} DispatchWellFormed(t: seq<char>, q: nat)
    requires q <= |t|
    ensures Rooted(Dispatch(t, q))
    decreases |t| - q, 2
  {
    if q < |t| {
      if t[q] == '{' {
        ObjectWellFormed(t, q);
      } else if t[q] == '[' {
        ArrayWellFormed(t, q);
      }
    }
  }

  lemma {:induction false} ArrayWellFormed(t: seq<char>, p: nat)
    requires p <= |t|
    ensures GrownArray(ParseArray(t, p), [])
    decreases |t| - p, 1
  {
    if Peek(t, p) == '[' {
      var q := SkipWs(t, p + 1);
      if Peek(t, q) != ']' {
        ElementsWellFormed(t, q, []);
      }
    }
  }

  lemma {:induction false} ElementsWellFormed(t: seq<char>, p: nat, elems: seq<Node>)
    requires p <= |t| && ElementChain(elems)
    ensures GrownArray(ArrayElements(t, p, elems), elems)
    decreases |t| - p, 4
  {
    if p < |t| {
      var q := SkipWs(t, p);
      ValueWellFormed(t, q);
      match ParseValue(t, q)
      case None =>
      case Some((e, q1)) =>
        ArrayNextWellFormed(t, q1, elems + [e]);
    }
  }

  lemma {:induction false} ArrayNextWellFormed(t: seq<char>, q: nat, elems: seq<Node>)
    requires q <= |t| && ElementChain(elems)
    ensures GrownArray(ArrayNext(t, q, elems), elems)
    decreases |t| - q, 0
  {
    var q2 := SkipWs(t, q);
    if Peek(t, q2) != ']' && Peek(t, q2) == ',' {
      ElementsWellFormed(t, q2 + 1, elems);
    }
  }

  lemma {:induction false} ObjectWellFormed(t: seq<char>, p: nat)
    requires p <= |t|
    ensures GrownObject(ParseObject(t, p), [])
    decreases |t| - p, 1
  {
    if Peek(t, p) == '{' {
      var q := SkipWs(t, p + 1);
      if Peek(t, q) != '}' {
        MembersWellFormed(t, q, []);
      }
    }
  }

  lemma {:induction false} MembersWellFormed(t: seq<char>, p: nat, members: seq<Node>)
    requires p <= |t| && MemberChain(members)
    ensures GrownObject(ObjectMembers(t, p, members), members)
    decreases |t| - p, 4
  {
    if p < |t| {
      match ParseString(t, SkipWs(t, p))
      case None =>
      case Some((k, q1)) =>
        var q2 := SkipWs(t, q1);
        if Peek(t, q2) == ':' {
          ObjectValueWellFormed(t, q2 + 1, k, members);
        }
    }
  }

  lemma {:induction false} ObjectValueWellFormed(t: seq<char>, q: nat, key: string, members: seq<Node>)
    requires q <= |t| && MemberChain(members)
    ensures GrownObject(ObjectValue(t, q, key, members), members)
    decreases |t| - q, 4
  {
    var q3 := SkipWs(t, q);
    ValueWellFormed(t, q3);
    match ParseValue(t, q3)
    case None =>
    case Some((v, q4)) =>
      ObjectNextWellFormed(t, q4, members + [Node(Some(key), v.value)]);
  }

  lemma {:induction false} ObjectNextWellFormed(t: seq<char>, q: nat, members: seq<Node>)
    requires q <= |t| && MemberChain(members)
    ensures GrownObject(ObjectNext(t, q, members), members)
    decreases |t| - q, 0
  {
    var q5 := SkipWs(t, q);
    if Peek(t, q5) != '}' && Peek(t, q5) == ',' {
      MembersWellFormed(t, q5 + 1, members);
    }
  }

  /** Every tree `s_json_parse` returns is well formed and its root has no key. */
  lemma ParseWellFormed(json: Option<seq<char>>)
    ensures Parse(json).Some? ==> Parse(json).value.key.None? && WellFormed(Parse(json).value)
  {
    if json.Some? {
      var buf := json.value;
      ValueWellFormed(buf[..StrLen(buf)], 0);
    }
  }
}
