/**
 * A serializer for trees and the proof that the reference parser reads its output back:
 * parsing the compact text of a tree gives the same tree, with every chain in order and
 * every count equal to its chain's length. The serializer is a specification device;
 * the library's own printer is console output and is not part of this model.
 */
module JsonRoundTrip {
  import opened Wrappers
  import opened JsonTree
  import opened JsonText
  import opened JsonSpec
  import opened JsonProperties

  // ---------------------------------------------------------------- text positions

  /** `s` occurs in `t` at position `p`. */
  predicate At(t: seq<char>, p: nat, s: seq<char>)
  {
    p + |s| <= |t| && forall i :: 0 <= i < |s| ==> t[p + i] == s[i]
  }

  /** `At` is the slice equation. */
  lemma AtSlice(t: seq<char>, p: nat, s: seq<char>)
    ensures At(t, p, s) <==> p + |s| <= |t| && t[p..p + |s|] == s
  {
    if p + |s| <= |t| && t[p..p + |s|] == s {
      forall i | 0 <= i < |s| ensures t[p + i] == s[i] {
        assert t[p..p + |s|][i] == s[i];
      }
    }
  }

  lemma AtConcat(t: seq<char>, p: nat, a: seq<char>, b: seq<char>)
    requires At(t, p, a + b)
    ensures At(t, p, a) && At(t, p + |a|, b)
  {
    forall i | 0 <= i < |a| ensures t[p + i] == a[i] {
      assert (a + b)[i] == a[i];
    }
    forall i | 0 <= i < |b| ensures t[p + |a| + i] == b[i] {
      assert (a + b)[|a| + i] == b[i];
    }
  }

  lemma AtChar(t: seq<char>, p: nat, s: seq<char>, i: nat)
    requires At(t, p, s) && i < |s|
    ensures t[p + i] == s[i]
  {
  }

  /** A digit run ends where the digits end. */
  lemma {:induction false} DigitsEndAt(t: seq<char>, a: nat, b: nat)
    requires a <= b <= |t|
    requires forall k :: a <= k < b ==> IsDigit(t[k])
    requires b == |t| || !IsDigit(t[b])
    ensures DigitsEnd(t, a) == b
    decreases b - a
  {
    if a < b {
      DigitsEndAt(t, a + 1, b);
    }
  }

  /** A run of digits standing at `d`, followed by a non-digit, is the digit span at `d`. */
  lemma DigitsSpan(t: seq<char>, d: nat, ds: string)
    requires At(t, d, ds) && AllDigits(ds) && !IsDigit(Peek(t, d + |ds|))
    ensures DigitsEnd(t, d) == d + |ds|
  {
    forall k | d <= k < d + |ds|
      ensures IsDigit(t[k])
    {
      AtChar(t, d, ds, k - d);
    }
    DigitsEndAt(t, d, d + |ds|);
  }

  lemma {:induction false} SkipNone(t: seq<char>, p: nat)
    requires p <= |t| && !IsSpace(Peek(t, p))
    ensures SkipWs(t, p) == p
  {
  }

  // ---------------------------------------------------------------- numbers

  /** Characters that can continue a number lexeme. */
  predicate NumberChar(c: char)
  {
    IsDigit(c) || c == '.' || c == 'e' || c == 'E' || c == '+' || c == '-'
  }

  /** The greedy scan is the only maximal reading: a well-formed shape whose text stands at
      `p` and which the next character cannot extend is what `parse_number` scans. */
  lemma ScanUnique(t: seq<char>, p: nat, s: NumberShape, e: nat)
    requires p <= e <= |t| && ShapeOk(s) && t[p..e] == Render(s)
    requires !CanExtend(s, Peek(t, e))
    ensures ScanNumber(t, p) == (s, e)
  {
    var a := p + (if s.minus then 1 else 0);
    var b := a + |s.intDigits|;
    var c := b + |RenderFrac(s.frac)|;
    RenderParts(t, p, s, a, b, c, e);
    IntegerUnique(t, p, s, a, b, c, e);
    FractionUnique(t, s, b, c, e);
    ExponentUnique(t, s, c, e);
  }

  /** The parts of a rendered shape, each standing where the previous one ends. */
  lemma RenderParts(t: seq<char>, p: nat, s: NumberShape, a: nat, b: nat, c: nat, e: nat)
    requires p <= e <= |t| && t[p..e] == Render(s)
    requires a == p + (if s.minus then 1 else 0) && b == a + |s.intDigits|
    requires c == b + |RenderFrac(s.frac)|
    ensures At(t, p, if s.minus then "-" else "")
    ensures At(t, a, s.intDigits)
    ensures At(t, b, RenderFrac(s.frac))
    ensures At(t, c, RenderExp(s.exp))
    ensures e == c + |RenderExp(s.exp)|
  {
    var sign := if s.minus then "-" else "";
    RenderSplit(t, p, sign + s.intDigits + RenderFrac(s.frac), RenderExp(s.exp), e);
    HeadSplit(t, p, sign, s.intDigits, RenderFrac(s.frac));
  }

  /** A slice that is `a + b` holds `a`, then `b` up to its end. */
  lemma RenderSplit(t: seq<char>, p: nat, a: seq<char>, b: seq<char>, e: nat)
    requires p <= e <= |t| && t[p..e] == a + b
    ensures At(t, p, a) && At(t, p + |a|, b) && e == p + |a| + |b|
  {
    AtSlice(t, p, a + b);
    AtConcat(t, p, a, b);
  }

  /** Text holding `a + b + c` holds each of them in turn. */
  lemma HeadSplit(t: seq<char>, p: nat, a: seq<char>, b: seq<char>, c: seq<char>)
    requires At(t, p, a + b + c)
    ensures At(t, p, a) && At(t, p + |a|, b) && At(t, p + |a| + |b|, c)
  {
    AtConcat(t, p, a + b, c);
    AtConcat(t, p, a, b);
  }

  /** The character the scan stops on after the integer digits. */
  lemma {:induction false} AfterInteger(t: seq<char>, s: NumberShape, b: nat, c: nat, e: nat)
    requires b <= c <= e <= |t| && ShapeOk(s)
    requires At(t, b, RenderFrac(s.frac)) && At(t, c, RenderExp(s.exp))
    requires c == b + |RenderFrac(s.frac)| && e == c + |RenderExp(s.exp)|
    requires !CanExtend(s, Peek(t, e))
    ensures !IsDigit(Peek(t, b))
    ensures s.frac.None? && s.exp.None? ==> Peek(t, b) == Peek(t, e)
    ensures s.frac.Some? ==> Peek(t, b) == '.'
    ensures s.frac.None? && s.exp.Some? ==> Peek(t, b) == s.exp.value.marker
  {
    if s.frac.Some? {
      AtChar(t, b, RenderFrac(s.frac), 0);
    } else if s.exp.Some? {
      AtChar(t, c, RenderExp(s.exp), 0);
    }
  }

  lemma IntegerUnique(t: seq<char>, p: nat, s: NumberShape, a: nat, b: nat, c: nat, e: nat)
    requires p <= a <= b <= c <= e <= |t| && ShapeOk(s)
    requires a == p + (if s.minus then 1 else 0) && b == a + |s.intDigits|
    requires At(t, p, if s.minus then "-" else "") && At(t, a, s.intDigits)
    requires At(t, b, RenderFrac(s.frac)) && At(t, c, RenderExp(s.exp))
    requires c == b + |RenderFrac(s.frac)| && e == c + |RenderExp(s.exp)|
    requires !CanExtend(s, Peek(t, e))
    ensures ScanInteger(t, p) == (s.minus, s.intDigits, b)
  {
    AfterInteger(t, s, b, c, e);
    if s.minus {
      AtChar(t, p, "-", 0);
    } else if |s.intDigits| > 0 {
      AtChar(t, p, s.intDigits, 0);
    }
    assert Peek(t, p) == '-' <==> s.minus;
    DigitsSpan(t, a, s.intDigits);
    AtSlice(t, a, s.intDigits);
  }

  lemma FractionUnique(t: seq<char>, s: NumberShape, b: nat, c: nat, e: nat)
    requires b <= c <= e <= |t| && ShapeOk(s)
    requires At(t, b, RenderFrac(s.frac)) && At(t, c, RenderExp(s.exp))
    requires c == b + |RenderFrac(s.frac)| && e == c + |RenderExp(s.exp)|
    requires !CanExtend(s, Peek(t, e))
    ensures ScanFraction(t, b) == (s.frac, c)
  {
    AfterInteger(t, s, b, c, e);
    if s.frac.Some? {
      var ds := s.frac.value;
      AtConcat(t, b, ".", ds);
      if s.exp.Some? {
        AtChar(t, c, RenderExp(s.exp), 0);
      }
      DigitsSpan(t, b + 1, ds);
      AtSlice(t, b + 1, ds);
    }
  }

  lemma ExponentUnique(t: seq<char>, s: NumberShape, c: nat, e: nat)
    requires c <= e <= |t| && ShapeOk(s)
    requires At(t, c, RenderExp(s.exp)) && e == c + |RenderExp(s.exp)|
    requires !CanExtend(s, Peek(t, e))
    ensures ScanExponent(t, c) == (s.exp, e)
  {
    if s.exp.Some? {
      var x := s.exp.value;
      var d := c + 1 + |x.sign|;
      AtConcat(t, c, [x.marker] + x.sign, x.digits);
      AtConcat(t, c, [x.marker], x.sign);
      AtChar(t, c, [x.marker], 0);
      SignStart(t, s, c, d, e);
      AtSlice(t, c + 1, x.sign);
      AtSlice(t, d, x.digits);
      DigitsSpan(t, d, x.digits);
    }
  }

  /** Where the exponent digits start: after the sign when there is one. */
  lemma SignStart(t: seq<char>, s: NumberShape, c: nat, d: nat, e: nat)
    requires s.exp.Some? && ShapeOk(s) && c + 1 <= d <= e <= |t|
    requires d == c + 1 + |s.exp.value.sign| && e == d + |s.exp.value.digits|
    requires At(t, c + 1, s.exp.value.sign) && At(t, d, s.exp.value.digits)
    requires !CanExtend(s, Peek(t, e))
    ensures d == (if Peek(t, c + 1) == '+' || Peek(t, c + 1) == '-' then c + 2 else c + 1)
  {
    var x := s.exp.value;
    if |x.sign| > 0 {
      AtChar(t, c + 1, x.sign, 0);
    } else if |x.digits| > 0 {
      AtChar(t, d, x.digits, 0);
    }
  }

  /** What the scanner can extend a shape with is always a number character. */
  lemma ExtendChars(s: NumberShape, c: char)
    requires CanExtend(s, c)
    ensures NumberChar(c)
  {
  }

  /** A lexeme `parse_number` could have produced: it starts as `parse_value` requires, the
      scan of the lexeme alone consumes all of it, and its classification is the scan's. */
  predicate ValidLexeme(lexeme: string, isFloat: bool)
  {
    && 0 < |lexeme|
    && (lexeme[0] == '-' || IsDigit(lexeme[0]))
    && ScanNumber(lexeme, 0).1 == |lexeme|
    && IsFloat(ScanNumber(lexeme, 0).0) == isFloat
  }

  // ---------------------------------------------------------------- strings

  /** A backslash before each quote and backslash; every other character is written as is. */
  function EscapeChar(c: char): string
  {
    if c == '"' || c == '\\' then ['\\', c] else [c]
  }

  function Escape(s: string): string
  {
    if s == [] then [] else EscapeChar(s[0]) + Escape(s[1..])
  }

  function Quote(s: string): string
  {
    "\"" + Escape(s) + "\""
  }

  /** Both passes of `parse_string` read an escaped body back: one unit per character. */
  lemma {:induction false} BodyRoundTrip(t: seq<char>, p: nat, s: string)
    requires At(t, p, Escape(s) + "\"")
    ensures ScanBody(t, p) == Some((|s|, p + |Escape(s)|))
    ensures DecodeBody(t, p) == s
    decreases s
  {
    if s == [] {
      AtChar(t, p, Escape(s) + "\"", 0);
    } else {
      var head := EscapeChar(s[0]);
      assert Escape(s) + "\"" == head + (Escape(s[1..]) + "\"");
      AtConcat(t, p, head, Escape(s[1..]) + "\"");
      AtChar(t, p, head, 0);
      if |head| == 2 {
        AtChar(t, p, head, 1);
      }
      assert UnitLength(t, p) == |head| && UnitChar(t, p) == s[0];
      BodyRoundTrip(t, p + |head|, s[1..]);
      assert [s[0]] + s[1..] == s;
    }
  }

  lemma StringRoundTrip(t: seq<char>, p: nat, s: string)
    requires At(t, p, Quote(s))
    ensures ParseString(t, p) == Some((s, p + |Quote(s)|))
  {
    assert Quote(s) == "\"" + (Escape(s) + "\"");
    AtConcat(t, p, "\"", Escape(s) + "\"");
    AtChar(t, p, "\"", 0);
    BodyRoundTrip(t, p + 1, s);
  }

  // ---------------------------------------------------------------- trees

  /** The key text of a member, as its `"key":` prefix shows it. */
  function KeyText(n: Node): string
  {
    match n.key
    case Some(k) => k
    case None => ""
  }

  /** The compact text of a node's value; keys are written by the enclosing object. */
  function Emit(n: Node): string
    decreases n, 1
  {
    match n.value
    case Null => "null"
    case Bool(b) => if b then "true" else "false"
    case Number(lexeme, _) => lexeme
    case Str(s) => Quote(s)
    case Array(_, elems) => ['['] + (EmitElements(elems) + [']'])
    case Object(_, members) => ['{'] + (EmitMembers(members) + ['}'])
  }

  /** Elements separated by commas. */
  function EmitElements(es: seq<Node>): string
    decreases es
  {
    if es == [] then ""
    else if |es| == 1 then Emit(es[0])
    else Emit(es[0]) + ([','] + EmitElements(es[1..]))
  }

  /** One member: its quoted key, `:`, and its value. */
  function MemberText(m: Node): string
    decreases m, 2
  {
    Quote(KeyText(m)) + ([':'] + Emit(m))
  }

  /** Members separated by commas. */
  function EmitMembers(ms: seq<Node>): string
    decreases ms
  {
    if ms == [] then ""
    else if |ms| == 1 then MemberText(ms[0])
    else MemberText(ms[0]) + ([','] + EmitMembers(ms[1..]))
  }

  /** Every Number of a tree holds a lexeme the scanner could have produced. */
  predicate NumbersValid(n: Node)
    decreases n
  {
    match n.value
    case Number(lexeme, isFloat) => ValidLexeme(lexeme, isFloat)
    case Array(_, elems) => forall i :: 0 <= i < |elems| ==> NumbersValid(elems[i])
    case Object(_, members) => forall i :: 0 <= i < |members| ==> NumbersValid(members[i])
    case _ => true
  }

  /** The trees the round trip is about: the shape the parser gives, valid lexemes. */
  predicate Emittable(n: Node)
  {
    WellFormed(n) && NumbersValid(n)
  }

  /** The first character of a node's text decides how `parse_value` routes it. */
  lemma EmitHead(n: Node)
    requires Emittable(n)
    ensures 0 < |Emit(n)| && !IsSpace(Emit(n)[0])
    ensures n.value.Number? <==> NumberChar(Emit(n)[0])
    ensures n.value.Number? ==> Emit(n)[0] == '-' || IsDigit(Emit(n)[0])
    ensures n.value.Null? ==> Emit(n)[0] == 'n'
    ensures n.value.Bool? ==> Emit(n)[0] == (if n.value.b then 't' else 'f')
    ensures n.value.Str? ==> Emit(n)[0] == '"'
    ensures n.value.Array? ==> Emit(n)[0] == '['
    ensures n.value.Object? ==> Emit(n)[0] == '{'
  {
    match n.value
    case Null => assert "null"[0] == 'n';
    case Bool(b) => assert "true"[0] == 't' && "false"[0] == 'f';
    case Number(_, _) =>
    case Str(s) => assert Quote(s)[0] == '"';
    case Array(_, elems) => assert Emit(n)[0] == '[';
    case Object(_, members) => assert Emit(n)[0] == '{';
  }

  /** The elements of an array as the parser builds them: no keys, emittable. */
  predicate ElementsOk(es: seq<Node>)
    decreases |es|
  {
    es == [] || (es[0].key.None? && Emittable(es[0]) && ElementsOk(es[1..]))
  }

  /** The members of an object as the parser builds them: keyed, emittable. */
  predicate MembersOk(ms: seq<Node>)
    decreases |ms|
  {
    ms == [] || (ms[0].key.Some? && Emittable(ms[0]) && MembersOk(ms[1..]))
  }

  lemma ElementsTail(rest: seq<Node>)
    requires rest != [] && ElementsOk(rest)
    ensures rest[0].key.None? && Emittable(rest[0]) && ElementsOk(rest[1..])
  {
  }

  lemma MembersTail(rest: seq<Node>)
    requires rest != [] && MembersOk(rest)
    ensures rest[0].key.Some? && Emittable(rest[0]) && MembersOk(rest[1..])
  {
  }

  /** The elements of a tree that `Emittable` admits are an `ElementsOk` chain. */
  lemma {:induction false} ElementsOkFrom(es: seq<Node>)
    requires forall i :: 0 <= i < |es| ==> es[i].key.None? && Emittable(es[i])
    ensures ElementsOk(es)
    decreases |es|
  {
    if es != [] {
      assert forall i :: 0 <= i < |es[1..]| ==> es[1..][i] == es[i + 1];
      ElementsOkFrom(es[1..]);
    }
  }

  /** The members of a tree that `Emittable` admits are a `MembersOk` chain. */
  lemma {:induction false} MembersOkFrom(ms: seq<Node>)
    requires forall i :: 0 <= i < |ms| ==> ms[i].key.Some? && Emittable(ms[i])
    ensures MembersOk(ms)
    decreases |ms|
  {
    if ms != [] {
      assert forall i :: 0 <= i < |ms[1..]| ==> ms[1..][i] == ms[i + 1];
      MembersOkFrom(ms[1..]);
    }
  }

  // ---------------------------------------------------------------- the text of a chain

  /** Text standing at `p` that is `a`, then the character `c`, then `b`. */
  lemma AtSep(t: seq<char>, p: nat, a: seq<char>, c: char, b: seq<char>)
    requires At(t, p, a + ([c] + b))
    ensures At(t, p, a) && p + |a| < |t| && t[p + |a|] == c && At(t, p + |a| + 1, b)
  {
    AtConcat(t, p, a, [c] + b);
    AtConcat(t, p + |a|, [c], b);
    AtChar(t, p + |a|, [c], 0);
  }

  /** Text standing at `p` that is `a`, then the character `c`. */
  lemma AtEnd(t: seq<char>, p: nat, a: seq<char>, c: char)
    requires At(t, p, a + [c])
    ensures At(t, p, a) && p + |a| < |t| && t[p + |a|] == c
  {
    AtConcat(t, p, a, [c]);
    AtChar(t, p + |a|, [c], 0);
  }

  /** Regrouping a text that ends in a closing character. */
  lemma Regroup(a: seq<char>, b: seq<char>, c: seq<char>)
    ensures (a + b) + c == a + (b + c)
  {
  }

  /** The text of an element chain and its closing bracket: the first element, then `]`
      when it is the last one, or `,` and the text of the rest. */
  lemma ElementsSplit(rest: seq<Node>)
    requires rest != []
    ensures |rest| == 1 ==> EmitElements(rest) + [']'] == Emit(rest[0]) + [']']
    ensures |rest| != 1 ==>
      EmitElements(rest) + [']'] == Emit(rest[0]) + ([','] + (EmitElements(rest[1..]) + [']']))
    ensures |EmitElements(rest)| ==
      if |rest| == 1 then |Emit(rest[0])| else |Emit(rest[0])| + 1 + |EmitElements(rest[1..])|
  {
    if |rest| > 1 {
      var head := Emit(rest[0]);
      var tail := EmitElements(rest[1..]);
      Regroup(head, [','] + tail, [']']);
      Regroup([','], tail, [']']);
    }
  }

  /** The text of a member chain and its closing brace: the first member, then `}`
      when it is the last one, or `,` and the text of the rest. */
  lemma MembersSplit(rest: seq<Node>)
    requires rest != []
    ensures |rest| == 1 ==> EmitMembers(rest) + ['}'] == MemberText(rest[0]) + ['}']
    ensures |rest| != 1 ==>
      EmitMembers(rest) + ['}'] == MemberText(rest[0]) + ([','] + (EmitMembers(rest[1..]) + ['}']))
    ensures |EmitMembers(rest)| ==
      if |rest| == 1 then |MemberText(rest[0])| else |MemberText(rest[0])| + 1 + |EmitMembers(rest[1..])|
  {
    if |rest| > 1 {
      var head := MemberText(rest[0]);
      var tail := EmitMembers(rest[1..]);
      Regroup(head, [','] + tail, ['}']);
      Regroup([','], tail, ['}']);
    }
  }

  /** A member's text at `p`: the quoted key, `:` right after it, then the value's text. */
  lemma MemberTextAt(t: seq<char>, p: nat, m: Node)
    requires At(t, p, MemberText(m))
    ensures var key := Quote(KeyText(m));
      At(t, p, key) && p + |key| < |t| && t[p + |key|] == ':' && At(t, p + |key| + 1, Emit(m))
    ensures |MemberText(m)| == |Quote(KeyText(m))| + 1 + |Emit(m)|
  {
    AtSep(t, p, Quote(KeyText(m)), ':', Emit(m));
  }

  /** The texts of an element chain laid out from `p`: each element's text followed by `,`,
      the last one by `]`. */
  predicate ElementsAt(t: seq<char>, p: nat, rest: seq<Node>)
    requires rest != []
    decreases rest
  {
    var q := p + |Emit(rest[0])|;
    && At(t, p, Emit(rest[0])) && q < |t|
    && if |rest| == 1 then t[q] == ']' else t[q] == ',' && ElementsAt(t, q + 1, rest[1..])
  }

  /** The texts of a member chain laid out from `p`: each member's text followed by `,`,
      the last one by `}`. */
  predicate MembersAt(t: seq<char>, p: nat, rest: seq<Node>)
    requires rest != []
    decreases rest
  {
    var q := p + |MemberText(rest[0])|;
    && At(t, p, MemberText(rest[0])) && q < |t|
    && if |rest| == 1 then t[q] == '}' else t[q] == ',' && MembersAt(t, q + 1, rest[1..])
  }

  /** The text of an element chain and its bracket lays the elements out one by one. */
  lemma {:induction false} ElementsLayout(t: seq<char>, p: nat, rest: seq<Node>)
    requires rest != [] && At(t, p, EmitElements(rest) + [']'])
    ensures ElementsAt(t, p, rest)
    decreases rest
  {
    ElementsSplit(rest);
    if |rest| == 1 {
      AtEnd(t, p, Emit(rest[0]), ']');
    } else {
      AtSep(t, p, Emit(rest[0]), ',', EmitElements(rest[1..]) + [']']);
      ElementsLayout(t, p + |Emit(rest[0])| + 1, rest[1..]);
    }
  }

  /** The text of a member chain and its brace lays the members out one by one. */
  lemma {:induction false} MembersLayout(t: seq<char>, p: nat, rest: seq<Node>)
    requires rest != [] && At(t, p, EmitMembers(rest) + ['}'])
    ensures MembersAt(t, p, rest)
    decreases rest
  {
    MembersSplit(rest);
    if |rest| == 1 {
      AtEnd(t, p, MemberText(rest[0]), '}');
    } else {
      AtSep(t, p, MemberText(rest[0]), ',', EmitMembers(rest[1..]) + ['}']);
      MembersLayout(t, p + |MemberText(rest[0])| + 1, rest[1..]);
    }
  }

  /** The length of an element chain's text: the first element, then `,` and the rest. */
  lemma ElementsLength(rest: seq<Node>)
    requires |rest| > 1
    ensures |EmitElements(rest)| == |Emit(rest[0])| + 1 + |EmitElements(rest[1..])|
  {
  }

  /** The length of a member chain's text: the first member, then `,` and the rest. */
  lemma MembersLength(rest: seq<Node>)
    requires |rest| > 1
    ensures |EmitMembers(rest)| == |MemberText(rest[0])| + 1 + |EmitMembers(rest[1..])|
  {
  }

  // ---------------------------------------------------------------- one reading step

  /** `parse_array` on `[` followed by a non-blank: empty on `]`, else the element loop. */
  lemma ArrayOpen(t: seq<char>, p: nat)
    requires p + 1 < |t| && t[p] == '[' && !IsSpace(t[p + 1])
    ensures ParseArray(t, p) ==
      if t[p + 1] == ']' then Some((Node(None, Array(0, [])), p + 2)) else ArrayElements(t, p + 1, [])
  {
    SkipNone(t, p + 1);
  }

  /** An element read at a non-blank position is chained at the tail. */
  lemma ElementStep(t: seq<char>, p: nat, chain: seq<Node>, e: Node, q: nat)
    requires p < |t| && !IsSpace(t[p]) && ParseValue(t, p) == Some((e, q))
    ensures ArrayElements(t, p, chain) == ArrayNext(t, q, chain + [e])
  {
    SkipNone(t, p);
  }

  /** After an element, `]` closes the array and `,` goes round the loop again. */
  lemma ArraySeparator(t: seq<char>, q: nat, chain: seq<Node>)
    requires q < |t| && (t[q] == ']' || t[q] == ',')
    ensures t[q] == ']' ==> ArrayNext(t, q, chain) == Some((Node(None, Array(|chain|, chain)), q + 1))
    ensures t[q] == ',' ==> ArrayNext(t, q, chain) == ArrayElements(t, q + 1, chain)
  {
    SkipNone(t, q);
  }

  /** `parse_object` on `{` followed by a non-blank: empty on `}`, else the member loop. */
  lemma ObjectOpen(t: seq<char>, p: nat)
    requires p + 1 < |t| && t[p] == '{' && !IsSpace(t[p + 1])
    ensures ParseObject(t, p) ==
      if t[p + 1] == '}' then Some((Node(None, Object(0, [])), p + 2)) else ObjectMembers(t, p + 1, [])
  {
    SkipNone(t, p + 1);
  }

  /** A key read at a non-blank position and followed by `:` leads to the member's value. */
  lemma KeyStep(t: seq<char>, p: nat, chain: seq<Node>, k: string, q: nat)
    requires p < |t| && !IsSpace(t[p]) && ParseString(t, p) == Some((k, q))
    requires q < |t| && t[q] == ':'
    ensures ObjectMembers(t, p, chain) == ObjectValue(t, q + 1, k, chain)
  {
    SkipNone(t, p);
    SkipNone(t, q);
  }

  /** A member's value read at a non-blank position is chained, keyed, at the tail. */
  lemma MemberValueStep(t: seq<char>, q: nat, k: string, chain: seq<Node>, v: Node, e: nat)
    requires q < |t| && !IsSpace(t[q]) && ParseValue(t, q) == Some((v, e))
    ensures ObjectValue(t, q, k, chain) == ObjectNext(t, e, chain + [Node(Some(k), v.value)])
  {
    SkipNone(t, q);
  }

  /** After a member, `}` closes the object and `,` goes round the loop again. */
  lemma ObjectSeparator(t: seq<char>, q: nat, chain: seq<Node>)
    requires q < |t| && (t[q] == '}' || t[q] == ',')
    ensures t[q] == '}' ==> ObjectNext(t, q, chain) == Some((Node(None, Object(|chain|, chain)), q + 1))
    ensures t[q] == ',' ==> ObjectNext(t, q, chain) == ObjectMembers(t, q + 1, chain)
  {
    SkipNone(t, q);
  }

  // ---------------------------------------------------------------- the round trip

  /** Parsing the text of a node, followed by anything a number cannot continue with,
      gives the node back without its key and stops right after the text. */
  lemma {:induction false} ValueRoundTrip(t: seq<char>, p: nat, n: Node)
    requires Emittable(n) && At(t, p, Emit(n)) && !NumberChar(Peek(t, p + |Emit(n)|))
    ensures ParseValue(t, p) == Some((Node(None, n.value), p + |Emit(n)|))
    decreases n, 3
  {
    EmitHead(n);
    AtChar(t, p, Emit(n), 0);
    SkipNone(t, p);
    Routes(t, p);
    match n.value
    case Null => AtSlice(t, p, "null"); NullExact(t, p);
    case Bool(b) => AtSlice(t, p, if b then "true" else "false"); BoolExact(t, p);
    case Number(_, _) => NumberRoundTrip(t, p, n);
    case Str(s) => StringRoundTrip(t, p, s);
    case Array(_, _) => ArrayRoundTrip(t, p, n);
    case Object(_, _) => ObjectRoundTrip(t, p, n);
  }

  /** A valid lexeme standing at `p` is what `parse_number` scans there. */
  lemma NumberRoundTrip(t: seq<char>, p: nat, n: Node)
    requires n.value.Number? && ValidLexeme(n.value.lexeme, n.value.isFloat)
    requires At(t, p, n.value.lexeme) && !NumberChar(Peek(t, p + |n.value.lexeme|))
    ensures ParseNumber(t, p) == (Node(None, n.value), p + |n.value.lexeme|)
  {
    var lexeme := n.value.lexeme;
    var e := p + |lexeme|;
    var shape := ScanNumber(lexeme, 0).0;
    AtSlice(t, p, lexeme);
    JsonProperties.NumberShape(lexeme, 0);
    assert lexeme[0..|lexeme|] == lexeme;
    if CanExtend(shape, Peek(t, e)) {
      ExtendChars(shape, Peek(t, e));
    }
    ScanUnique(t, p, shape, e);
  }

  /** `parse_array` reads back `[]` and `[` elements `]`. */
  lemma {:induction false} ArrayRoundTrip(t: seq<char>, p: nat, n: Node)
    requires n.value.Array? && Emittable(n) && At(t, p, Emit(n))
    ensures ParseArray(t, p) == Some((Node(None, n.value), p + |Emit(n)|))
    decreases n, 2
  {
    var elems := n.value.elems;
    AtSep(t, p, [], '[', EmitElements(elems) + [']']);
    if elems == [] {
      AtEnd(t, p + 1, [], ']');
      ArrayOpen(t, p);
    } else {
      ElementsStart(t, p + 1, n);
      NonEmptyArray(t, p, n);
    }
  }

  /** `parse_array` reads back `[` elements `]` when there is at least one element. */
  lemma {:induction false} NonEmptyArray(t: seq<char>, p: nat, n: Node)
    requires n.value.Array? && n.value.elems != [] && Emittable(n)
    requires p + 1 < |t| && t[p] == '[' && !IsSpace(t[p + 1]) && t[p + 1] != ']'
    requires ElementsOk(n.value.elems) && ElementsAt(t, p + 1, n.value.elems)
    ensures ParseArray(t, p) == Some((Node(None, n.value), p + |Emit(n)|))
    decreases n, 1
  {
    ElementsRoundTrip(t, p + 1, [], n.value.elems);
    ArrayOpen(t, p);
    ArrayConclude(ParseArray(t, p), ArrayElements(t, p + 1, []), n, p);
  }

  /** The element chain of an array's text, laid out after the `[`. */
  lemma ElementsStart(t: seq<char>, p: nat, n: Node)
    requires n.value.Array? && n.value.elems != [] && Emittable(n)
    requires At(t, p, EmitElements(n.value.elems) + [']'])
    ensures ElementsOk(n.value.elems) && ElementsAt(t, p, n.value.elems)
    ensures p < |t| && !IsSpace(t[p]) && t[p] != ']'
  {
    var elems := n.value.elems;
    ElementsOkFrom(elems);
    EmitHead(elems[0]);
    ElementsLayout(t, p, elems);
    AtChar(t, p, Emit(elems[0]), 0);
  }

  /** The element loop's result for a whole chain is the array read back. */
  lemma ArrayConclude(r: Option<(Node, nat)>, s: Option<(Node, nat)>, n: Node, p: nat)
    requires n.value.Array? && WellFormed(n) && r == s
    requires s == Some((Node(None, Array(|[] + n.value.elems|, [] + n.value.elems)),
                        p + 1 + |EmitElements(n.value.elems)| + 1))
    ensures r == Some((Node(None, n.value), p + |Emit(n)|))
  {
    assert [] + n.value.elems == n.value.elems;
  }

  /** One element read back: its text at `p`, followed by `]` or `,`. */
  lemma {:induction false} ElementRead(t: seq<char>, p: nat, done: seq<Node>, e: Node, c: char)
    requires e.key.None? && Emittable(e) && At(t, p, Emit(e))
    requires p + |Emit(e)| < |t| && t[p + |Emit(e)|] == c && (c == ']' || c == ',')
    ensures ArrayElements(t, p, done) == ArrayNext(t, p + |Emit(e)|, done + [e])
    decreases e, 4
  {
    EmitHead(e);
    AtChar(t, p, Emit(e), 0);
    ValueRoundTrip(t, p, e);
    ElementStep(t, p, done, e, p + |Emit(e)|);
  }

  /** The element loop reads back a comma-separated chain up to its closing bracket. */
  lemma {:induction false} ElementsRoundTrip(t: seq<char>, p: nat, done: seq<Node>, rest: seq<Node>)
    requires rest != [] && ElementsOk(rest) && ElementsAt(t, p, rest)
    ensures ArrayElements(t, p, done) ==
      Some((Node(None, Array(|done + rest|, done + rest)), p + |EmitElements(rest)| + 1))
    decreases rest, 2
  {
    if |rest| == 1 {
      LastElement(t, p, done, rest);
    } else {
      MoreElements(t, p, done, rest);
    }
  }

  /** A chain of two or more: the first element, its comma, then the rest. */
  lemma {:induction false} MoreElements(t: seq<char>, p: nat, done: seq<Node>, rest: seq<Node>)
    requires |rest| > 1 && ElementsOk(rest) && ElementsAt(t, p, rest)
    ensures ArrayElements(t, p, done) ==
      Some((Node(None, Array(|done + rest|, done + rest)), p + |EmitElements(rest)| + 1))
    decreases rest, 1
  {
    var q := p + |Emit(rest[0])| + 1;
    NextElement(t, p, q, done, rest);
    ElementsRoundTrip(t, q, done + [rest[0]], rest[1..]);
    ElementsConclude(ArrayElements(t, p, done), ArrayElements(t, q, done + [rest[0]]), p, q, done, rest);
  }

  /** What the loop gives after the first element is what it gives for the whole chain. */
  lemma ElementsConclude(r: Option<(Node, nat)>, s: Option<(Node, nat)>, p: nat, q: nat,
                         done: seq<Node>, rest: seq<Node>)
    requires |rest| > 1 && q == p + |Emit(rest[0])| + 1 && r == s
    requires s == Some((Node(None, Array(|done + [rest[0]] + rest[1..]|, done + [rest[0]] + rest[1..])),
                        q + |EmitElements(rest[1..])| + 1))
    ensures r == Some((Node(None, Array(|done + rest|, done + rest)), p + |EmitElements(rest)| + 1))
  {
    ElementsLength(rest);
    Rechain(done, rest);
  }

  /** Chaining the first element and then the rest is chaining them all. */
  lemma Rechain(done: seq<Node>, rest: seq<Node>)
    requires rest != []
    ensures done + [rest[0]] + rest[1..] == done + rest
  {
    assert [rest[0]] + rest[1..] == rest;
  }

  /** The last element and the closing bracket. */
  lemma {:induction false} LastElement(t: seq<char>, p: nat, done: seq<Node>, rest: seq<Node>)
    requires |rest| == 1 && ElementsOk(rest) && ElementsAt(t, p, rest)
    ensures ArrayElements(t, p, done) ==
      Some((Node(None, Array(|done + rest|, done + rest)), p + |EmitElements(rest)| + 1))
    decreases rest, 0
  {
    var r0 := rest[0];
    ElementsTail(rest);
    ElementRead(t, p, done, r0, ']');
    ArraySeparator(t, p + |Emit(r0)|, done + [r0]);
    assert done + [r0] == done + rest;
  }

  /** The elements after the first are laid out after the comma. */
  lemma ElementsRest(t: seq<char>, p: nat, rest: seq<Node>)
    requires |rest| > 1 && ElementsOk(rest) && ElementsAt(t, p, rest)
    ensures rest[1..] != [] && ElementsOk(rest[1..])
    ensures ElementsAt(t, p + |Emit(rest[0])| + 1, rest[1..])
    ensures p + |Emit(rest[0])| + 1 <= |t|
  {
    ElementsTail(rest);
  }

  /** An element followed by `,`: the loop goes on after the comma with the element chained. */
  lemma {:induction false} NextElement(t: seq<char>, p: nat, q: nat, done: seq<Node>, rest: seq<Node>)
    requires |rest| > 1 && ElementsOk(rest) && ElementsAt(t, p, rest)
    requires q == p + |Emit(rest[0])| + 1
    ensures ArrayElements(t, p, done) == ArrayElements(t, q, done + [rest[0]])
    ensures rest[1..] != [] && ElementsOk(rest[1..]) && ElementsAt(t, q, rest[1..])
    decreases rest, 0
  {
    var r0 := rest[0];
    ElementsTail(rest);
    ElementsRest(t, p, rest);
    ElementRead(t, p, done, r0, ',');
    ArraySeparator(t, p + |Emit(r0)|, done + [r0]);
  }

  /** `parse_object` reads back `{}` and `{` members `}`. */
  lemma {:induction false} ObjectRoundTrip(t: seq<char>, p: nat, n: Node)
    requires n.value.Object? && Emittable(n) && At(t, p, Emit(n))
    ensures ParseObject(t, p) == Some((Node(None, n.value), p + |Emit(n)|))
    decreases n, 2
  {
    var members := n.value.members;
    AtSep(t, p, [], '{', EmitMembers(members) + ['}']);
    if members == [] {
      AtEnd(t, p + 1, [], '}');
      ObjectOpen(t, p);
    } else {
      MembersStart(t, p + 1, n);
      NonEmptyObject(t, p, n);
    }
  }

  /** `parse_object` reads back `{` members `}` when there is at least one member. */
  lemma {:induction false} NonEmptyObject(t: seq<char>, p: nat, n: Node)
    requires n.value.Object? && n.value.members != [] && Emittable(n)
    requires p + 1 < |t| && t[p] == '{' && t[p + 1] == '"'
    requires MembersOk(n.value.members) && MembersAt(t, p + 1, n.value.members)
    ensures ParseObject(t, p) == Some((Node(None, n.value), p + |Emit(n)|))
    decreases n, 1
  {
    MembersRoundTrip(t, p + 1, [], n.value.members);
    ObjectOpen(t, p);
    ObjectConclude(ParseObject(t, p), ObjectMembers(t, p + 1, []), n, p);
  }

  /** The member chain of an object's text, laid out after the `{`; it starts with the
      opening quote of the first key. */
  lemma MembersStart(t: seq<char>, p: nat, n: Node)
    requires n.value.Object? && n.value.members != [] && Emittable(n)
    requires At(t, p, EmitMembers(n.value.members) + ['}'])
    ensures MembersOk(n.value.members) && MembersAt(t, p, n.value.members)
    ensures p < |t| && t[p] == '"'
  {
    var members := n.value.members;
    MembersOkFrom(members);
    MembersLayout(t, p, members);
    MemberTextAt(t, p, members[0]);
    assert Quote(KeyText(members[0]))[0] == '"';
    AtChar(t, p, Quote(KeyText(members[0])), 0);
  }

  /** The member loop's result for a whole chain is the object read back. */
  lemma ObjectConclude(r: Option<(Node, nat)>, s: Option<(Node, nat)>, n: Node, p: nat)
    requires n.value.Object? && WellFormed(n) && r == s
    requires s == Some((Node(None, Object(|[] + n.value.members|, [] + n.value.members)),
                        p + 1 + |EmitMembers(n.value.members)| + 1))
    ensures r == Some((Node(None, n.value), p + |Emit(n)|))
  {
    assert [] + n.value.members == n.value.members;
  }

  /** One member's key read back: its quoted text at `p`, then `:`. */
  lemma KeyRead(t: seq<char>, p: nat, done: seq<Node>, k: string)
    requires At(t, p, Quote(k)) && p + |Quote(k)| < |t| && t[p + |Quote(k)|] == ':'
    ensures ObjectMembers(t, p, done) == ObjectValue(t, p + |Quote(k)| + 1, k, done)
  {
    AtChar(t, p, Quote(k), 0);
    assert Quote(k)[0] == '"';
    StringRoundTrip(t, p, k);
    KeyStep(t, p, done, k, p + |Quote(k)|);
  }

  /** One member's value read back: its text at `v`, followed by `}` or `,`. */
  lemma {:induction false} MemberValueRead(t: seq<char>, v: nat, done: seq<Node>, m: Node, c: char)
    requires m.key.Some? && Emittable(m) && At(t, v, Emit(m))
    requires v + |Emit(m)| < |t| && t[v + |Emit(m)|] == c && (c == '}' || c == ',')
    ensures ObjectValue(t, v, KeyText(m), done) == ObjectNext(t, v + |Emit(m)|, done + [m])
    decreases m, 4
  {
    EmitHead(m);
    AtChar(t, v, Emit(m), 0);
    ValueRoundTrip(t, v, m);
    MemberValueStep(t, v, KeyText(m), done, Node(None, m.value), v + |Emit(m)|);
    assert Node(Some(KeyText(m)), m.value) == m;
  }

  /** One member read back: its text at `p`, followed by `}` or `,`. */
  lemma {:induction false} MemberRead(t: seq<char>, p: nat, done: seq<Node>, m: Node, c: char)
    requires m.key.Some? && Emittable(m) && At(t, p, MemberText(m))
    requires p + |MemberText(m)| < |t| && t[p + |MemberText(m)|] == c && (c == '}' || c == ',')
    ensures ObjectMembers(t, p, done) == ObjectNext(t, p + |MemberText(m)|, done + [m])
    decreases m, 5
  {
    var k := KeyText(m);
    var v := p + |Quote(k)| + 1;
    MemberTextAt(t, p, m);
    assert v + |Emit(m)| == p + |MemberText(m)|;
    KeyRead(t, p, done, k);
    MemberValueRead(t, v, done, m, c);
  }

  /** The member loop reads back a comma-separated chain up to its closing brace. */
  lemma {:induction false} MembersRoundTrip(t: seq<char>, p: nat, done: seq<Node>, rest: seq<Node>)
    requires rest != [] && MembersOk(rest) && MembersAt(t, p, rest)
    ensures ObjectMembers(t, p, done) ==
      Some((Node(None, Object(|done + rest|, done + rest)), p + |EmitMembers(rest)| + 1))
    decreases rest, 2
  {
    if |rest| == 1 {
      LastMember(t, p, done, rest);
    } else {
      var q := p + |MemberText(rest[0])| + 1;
      NextMember(t, p, q, done, rest);
      MoreMembers(t, p, q, done, rest);
    }
  }

  /** A chain of two or more, once the first member and its comma are read: the rest. */
  lemma {:induction false} MoreMembers(t: seq<char>, p: nat, q: nat, done: seq<Node>, rest: seq<Node>)
    requires |rest| > 1 && q == p + |MemberText(rest[0])| + 1
    requires MembersOk(rest[1..]) && MembersAt(t, q, rest[1..])
    requires ObjectMembers(t, p, done) == ObjectMembers(t, q, done + [rest[0]])
    ensures ObjectMembers(t, p, done) ==
      Some((Node(None, Object(|done + rest|, done + rest)), p + |EmitMembers(rest)| + 1))
    decreases rest, 1
  {
    MembersRoundTrip(t, q, done + [rest[0]], rest[1..]);
    MembersConclude(ObjectMembers(t, p, done), ObjectMembers(t, q, done + [rest[0]]), p, q, done, rest);
  }

  /** What the loop gives after the first member is what it gives for the whole chain. */
  lemma MembersConclude(r: Option<(Node, nat)>, s: Option<(Node, nat)>, p: nat, q: nat,
                        done: seq<Node>, rest: seq<Node>)
    requires |rest| > 1 && q == p + |MemberText(rest[0])| + 1 && r == s
    requires s == Some((Node(None, Object(|done + [rest[0]] + rest[1..]|, done + [rest[0]] + rest[1..])),
                        q + |EmitMembers(rest[1..])| + 1))
    ensures r == Some((Node(None, Object(|done + rest|, done + rest)), p + |EmitMembers(rest)| + 1))
  {
    MembersLength(rest);
    Rechain(done, rest);
  }

  /** The last member and the closing brace. */
  lemma {:induction false} LastMember(t: seq<char>, p: nat, done: seq<Node>, rest: seq<Node>)
    requires |rest| == 1 && MembersOk(rest) && MembersAt(t, p, rest)
    ensures ObjectMembers(t, p, done) ==
      Some((Node(None, Object(|done + rest|, done + rest)), p + |EmitMembers(rest)| + 1))
    decreases rest, 0
  {
    var r0 := rest[0];
    MembersTail(rest);
    MemberRead(t, p, done, r0, '}');
    ObjectSeparator(t, p + |MemberText(r0)|, done + [r0]);
    assert done + [r0] == done + rest;
  }

  /** The members after the first are laid out after the comma. */
  lemma MembersRest(t: seq<char>, p: nat, rest: seq<Node>)
    requires |rest| > 1 && MembersOk(rest) && MembersAt(t, p, rest)
    ensures rest[1..] != [] && MembersOk(rest[1..])
    ensures MembersAt(t, p + |MemberText(rest[0])| + 1, rest[1..])
    ensures p + |MemberText(rest[0])| + 1 <= |t|
  {
    MembersTail(rest);
  }

  /** A member followed by `,`: the loop goes on after the comma with the member chained. */
  lemma {:induction false} NextMember(t: seq<char>, p: nat, q: nat, done: seq<Node>, rest: seq<Node>)
    requires |rest| > 1 && MembersOk(rest) && MembersAt(t, p, rest)
    requires q == p + |MemberText(rest[0])| + 1
    ensures ObjectMembers(t, p, done) == ObjectMembers(t, q, done + [rest[0]])
    ensures rest[1..] != [] && MembersOk(rest[1..]) && MembersAt(t, q, rest[1..])
    decreases rest, 0
  {
    var r0 := rest[0];
    MembersTail(rest);
    MembersRest(t, p, rest);
    MemberRead(t, p, done, r0, ',');
    ObjectSeparator(t, p + |MemberText(r0)|, done + [r0]);
  }

  /** `s_json_parse` reads back the text of any tree whose text has no NUL. */
  lemma ParseEmit(n: Node)
    requires Emittable(n) && forall i :: 0 <= i < |Emit(n)| ==> Emit(n)[i] != '\0'
    ensures Parse(Some(Emit(n))) == Some(Node(None, n.value))
  {
    var t := Emit(n);
    assert StrLen(t) == |t|;
    assert t[..|t|] == t;
    AtSlice(t, 0, t);
    ValueRoundTrip(t, 0, n);
  }
}
