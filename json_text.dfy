/**
 * The cursor's view of the input (parser_state of s_json.h): a text, a position, and the
 * fixed ASCII character classes the parser uses.
 */
module JsonText {

  /** `isspace` in the "C" locale: space, tab, newline, vertical tab, form feed, carriage return. */
  predicate IsSpace(c: char)
  {
    c == ' ' || c == '\t' || c == '\n' || c == '\U{000B}' || c == '\U{000C}' || c == '\r'
  }

  /** `isdigit`: the ASCII digits. */
  predicate IsDigit(c: char)
  {
    '0' <= c <= '9'
  }

  /** The character the parser reads at `p`. At `p == |t|` the C code reads the string's NUL
      terminator, which this returns. */
  function Peek(t: seq<char>, p: nat): (c: char)
    ensures p < |t| ==> c == t[p]
    ensures |t| <= p ==> c == '\0'
  {
    if p < |t| then t[p] else '\0'
  }

  /** Where `skip_whitespace` leaves the cursor: the end of the run of spaces at `p`. */
  function SkipWs(t: seq<char>, p: nat): (r: nat)
    requires p <= |t|
    ensures p <= r <= |t|
    ensures forall k :: p <= k < r ==> IsSpace(t[k])
    ensures r == |t| || !IsSpace(t[r])
    decreases |t| - p
  {
    if p < |t| && IsSpace(t[p]) then SkipWs(t, p + 1) else p
  }

  /** Where a digit loop of `parse_number` leaves the cursor: the end of the run of digits. */
  function DigitsEnd(t: seq<char>, p: nat): (r: nat)
    requires p <= |t|
    ensures p <= r <= |t|
    ensures forall k :: p <= k < r ==> IsDigit(t[k])
    ensures r == |t| || !IsDigit(t[r])
    decreases |t| - p
  {
    if p < |t| && IsDigit(t[p]) then DigitsEnd(t, p + 1) else p
  }

  /** `strlen`: the index of the first NUL, or the whole buffer when there is none. */
  function StrLen(s: seq<char>): (n: nat)
    ensures n <= |s|
    ensures forall k :: 0 <= k < n ==> s[k] != '\0'
    ensures n == |s| || s[n] == '\0'
  {
    if s == [] then 0
    else if s[0] == '\0' then 0
    else 1 + StrLen(s[1..])
  }
}
