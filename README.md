# s_json and s_array, modelled in Dafny

This project models two single-header C libraries.

**s_json.h** is a lenient recursive-descent JSON parser. It builds a tree of `s_json`
nodes and offers lookups and a recursive free. It is modelled in two layers:

- `JsonSpec` is a reference parser. Each C parser is one function over the input text and
  the cursor position. It returns the parsed node and the position where the cursor stops.
- `JsonParser` is the parser as the C code runs it: a `ParserState` class whose `pos`
  field every method advances in place, with the C `while` loops. Every method is proved
  to return exactly the reference result.
- `JsonProperties` proves what the parsers promise: exact literal matches, the greedy
  number span and its float classification, the routing of `parse_value`, the agreement
  of the two passes of `parse_string`, and the shape of every tree returned (`count`
  equals the chain length, keys exactly on object members, chains in input order).
- `JsonExamples` pins the lenient behaviour on concrete inputs: a truncated `[`, `[1,`,
  `[1`, a lone `-`, `1.`, an unknown escape, and trailing input.
- `JsonRoundTrip` defines a compact serializer as a reference definition. It proves that
  parsing the serialized text of a tree gives the tree back. The tree must be well formed,
  its Number lexemes must be ones the scanner produces, and its text must hold no NUL.
  The root comes back without a key, since the serializer writes keys only for members.
- `JsonAccess` models `s_json_get`, `s_json_array_get`, the typed getters and `s_json_free`.
  The free is modelled as the sequence of blocks it releases.

The input is `seq<char>`. `Peek` returns `'\0'` at the end of the input, because the C code
reads the NUL terminator there. `isspace` and `isdigit` are the fixed ASCII sets of the
"C" locale. The tree is a value: `Node(key, value)`, where an array or object holds its
`count` and its sibling chain as a sequence.

**s_array.h** defines `S_DEFINE_ARRAY`, a fixed-capacity array stored in place. Module
`FixedArray` models it as a class over a Dafny `array` with a mutable `size`.

- `sz` is a 64-bit `size_t`, so the `-1` that `_find` returns is `SIZE_MAX`.
- A pointer into the buffer is modelled as the slot index it names (`Ptr`).
- The `s_assertf` checks become preconditions.
- The macros `s_remove_if` and `s_remove_all` are methods proved against the sequence
  functions `RemoveFirst` and `Without`.

## Model

| member | source | states |
|---|---|---|
| JsonText.Peek | s_json.h:62 | the character read at the cursor is the text's character in bounds and the NUL terminator at the end |
| JsonText.SkipWs | s_json.h:45-49 | skipping whitespace only moves forward, never past the end, crosses only spaces and stops on a non-space or at the end |
| JsonText.DigitsEnd | s_json.h:118-120 | a digit loop crosses only digits and stops on a non-digit or at the end |
| JsonText.StrLen | s_json.h:339 | `strlen` is the index of the first NUL, or the whole buffer when there is none |
| JsonSpec.ScanBody | s_json.h:66-78 | a successful counting pass ends on a closing quote inside the text |
| JsonSpec.ParseString | s_json.h:61-110 | a parsed string starts at `"` and the cursor ends one past the closing quote |
| JsonSpec.ScanInteger | s_json.h:116-120 | the integer scan stays in bounds and consumes at least one character on `-` or a digit |
| JsonSpec.ScanFraction | s_json.h:122-128 | the fraction scan never moves backwards or past the end |
| JsonSpec.ScanExponent | s_json.h:130-137 | the exponent scan never moves backwards or past the end |
| JsonSpec.ScanNumber | s_json.h:113-137 | the number scan stays in bounds and consumes at least one character on `-` or a digit |
| JsonSpec.ParseNumber | s_json.h:112-152 | `parse_number` never fails, stays in bounds and consumes at least one character on `-` or a digit |
| JsonSpec.ParseNull | s_json.h:154-161 | a parsed `null` ends 4 characters on, within the text |
| JsonSpec.ParseBool | s_json.h:163-181 | a parsed boolean ends exactly 4 or 5 characters on, within the text |
| JsonSpec.ParseValue | s_json.h:305-331 | a successful `parse_value` consumes at least one character and stays in bounds |
| JsonSpec.Dispatch | s_json.h:308-330 | a successful dispatch consumes at least one character and stays in bounds |
| JsonSpec.ParseStringValue | s_json.h:312-322 | a String node ends past its opening quote |
| JsonSpec.ParseNumberValue | s_json.h:328 | the number branch always succeeds and consumes at least one character |
| JsonSpec.ParseArray | s_json.h:183-196 | a successful `parse_array` consumes at least the `[` |
| JsonSpec.ArrayElements | s_json.h:199-214 | the element loop never moves backwards or past the end |
| JsonSpec.ArrayNext | s_json.h:216-228 | after an element, success consumes at least the `]` or `,` |
| JsonSpec.ParseObject | s_json.h:234-247 | a successful `parse_object` consumes at least the `{` |
| JsonSpec.ObjectMembers | s_json.h:250-266 | the member loop never moves backwards or past the end |
| JsonSpec.ObjectValue | s_json.h:268-285 | a member's value consumes at least one character |
| JsonSpec.ObjectNext | s_json.h:287-298 | after a member, success consumes at least the `}` or `,` |
| JsonSpec.DecodeStep | s_json.h:87-105 | one iteration of the decoding loop writes the next decoded character and leaves one unit fewer to count |
| JsonParser.ParserState.constructor | s_json.h:336-340 | a fresh cursor is at position 0 over the whole text |
| JsonParser.ParserState.Current | s_json.h:62 | `state->json[state->pos]` is `Peek` at the cursor, NUL at the end |
| JsonParser.ParserState.SkipWhitespace | s_json.h:45-49 | the loop leaves the cursor where `SkipWs` says and changes nothing else |
| JsonParser.ParserState.ParseString | s_json.h:61-110 | both passes together return the reference string and cursor, and fail exactly when the reference fails |
| JsonParser.ParserState.CountBody | s_json.h:65-78 | the counting loop returns the reference unit count and stops on the closing quote; it fails when the input ends first or right after a backslash |
| JsonParser.ParserState.DecodeBody | s_json.h:84-107 | the decoding loop fills exactly the counted buffer with the reference decoded text and stops on the closing quote |
| JsonParser.ParserState.SkipDigits | s_json.h:118-120 | the digit loop leaves the cursor where `DigitsEnd` says |
| JsonParser.ParserState.ScanInteger | s_json.h:116-120 | the sign and digit loop stop where the reference integer scan stops |
| JsonParser.ParserState.ScanFraction | s_json.h:122-128 | the fraction is seen exactly on `.`, and the cursor stops where the reference scan stops |
| JsonParser.ParserState.ScanExponent | s_json.h:130-137 | the exponent is seen exactly on `e`/`E`, and the cursor stops where the reference scan stops |
| JsonParser.ParserState.ParseNumber | s_json.h:112-152 | the node and final cursor are the reference ones, float exactly when a `.` or exponent was seen |
| JsonParser.ParserState.ParseNull | s_json.h:154-161 | agrees with the reference; the cursor does not move on failure |
| JsonParser.ParserState.ParseBool | s_json.h:163-181 | agrees with the reference; the cursor does not move on failure |
| JsonParser.ParserState.ArrayElement | s_json.h:200-214 | one element is parsed and the chain grows by one with the loop's reference result unchanged, or the array fails exactly as the reference does |
| JsonParser.ParserState.ArraySeparator | s_json.h:216-227 | `]` closes the array with the chain built, `,` continues past it, anything else fails |
| JsonParser.ParserState.ArrayStep | s_json.h:199-228 | one loop iteration adds exactly one node and agrees with the reference loop |
| JsonParser.ParserState.ArrayLoop | s_json.h:197-231 | the whole element loop returns the reference array, including the truncated case at the end of the input |
| JsonParser.ParserState.ParseArray | s_json.h:183-232 | `parse_array` agrees with the reference, `[]` included |
| JsonParser.ParserState.ObjectMember | s_json.h:251-285 | a key, `:` and a value are parsed and the chain grows by one with the loop's reference result unchanged, or the object fails exactly as the reference does |
| JsonParser.ParserState.ObjectSeparator | s_json.h:287-298 | `}` closes the object with the chain built, `,` continues past it, anything else fails |
| JsonParser.ParserState.ObjectStep | s_json.h:250-299 | one loop iteration adds exactly one member and agrees with the reference loop |
| JsonParser.ParserState.ObjectLoop | s_json.h:248-302 | the whole member loop returns the reference object, including the truncated case |
| JsonParser.ParserState.ParseObject | s_json.h:234-303 | `parse_object` agrees with the reference, `{}` included |
| JsonParser.ParserState.ParseValue | s_json.h:305-331 | `parse_value` agrees with the reference |
| JsonParser.Parse | s_json.h:333-343 | `s_json_parse` returns the reference tree, or NULL for a NULL argument |
| JsonProperties.DecodeLength | s_json.h:66-107 | the decoding pass writes exactly as many characters as the counting pass counted |
| JsonProperties.PlainBody | s_json.h:101-103 | a body without backslashes or quotes is copied as is |
| JsonProperties.UnclosedBody | s_json.h:69-78 | the counting pass fails when no `"` at all follows |
| JsonProperties.StringFailure | s_json.h:62-78 | `parse_string` fails exactly when the cursor is not on `"` or the body's walk runs out (so also when no `"` follows); on success the cursor is one past the closing quote |
| JsonProperties.ClosingQuote | s_json.h:66-78 | the closing quote is reached by the unit walk: no `"` is stood on before it, and an escaped quote is stepped over |
| JsonProperties.WalkCloses | s_json.h:66-78 | any `"` the unit walk stands on is the one the counting pass stops at |
| JsonProperties.WalkRunsOut | s_json.h:66-72 | a walk that reaches the end of the input, or a final backslash, makes the counting pass fail |
| JsonProperties.FailureRunsOut | s_json.h:66-72 | every failure of the counting pass is a walk that reaches the end of the input or a final backslash |
| JsonProperties.BodyFailure | s_json.h:66-78 | the counting pass fails if and only if the walk runs out, and succeeds if and only if the walk stands on a `"` |
| JsonProperties.NullExact | s_json.h:154-161 | `parse_null` succeeds exactly on an in-bounds `null`, then advances by 4 |
| JsonProperties.BoolExact | s_json.h:163-181 | `parse_bool` succeeds exactly on an in-bounds `true` or `false`, advances by 4 or 5 and sets `b` accordingly |
| JsonProperties.IntegerShape | s_json.h:116-120 | the integer part consumed is an optional `-` and a maximal digit run |
| JsonProperties.FractionShape | s_json.h:122-128 | a fraction is present exactly on `.`, followed by a maximal digit run |
| JsonProperties.ExponentShape | s_json.h:130-137 | an exponent is present exactly on `e`/`E`, then an optional sign and a maximal digit run |
| JsonProperties.NumberShape | s_json.h:113-137 | `parse_number` consumes the greedy span `-? digit* ('.' digit*)? ([eE] [+-]? digit*)?` |
| JsonProperties.RenderFloatChars | s_json.h:122-131 | a number's text has a `.` or exponent marker exactly when its shape has a fraction or exponent |
| JsonProperties.NumberClassification | s_json.h:113-148 | a number is float exactly when its consumed text contains `.`, `e` or `E` |
| JsonProperties.Routes | s_json.h:310-330 | each opening character routes to its parser; any other character and the end of input fail |
| JsonProperties.ValueKind | s_json.h:305-331 | the node kind returned is the kind the first non-blank character selects |
| JsonProperties.ValueWellFormed | s_json.h:305-331 | every value parsed is well formed and has no key |
| JsonProperties.DispatchWellFormed | s_json.h:310-330 | every dispatched value is well formed and has no key |
| JsonProperties.ArrayWellFormed | s_json.h:183-232 | a parsed array's `count` equals its chain length and its elements have no key |
| JsonProperties.ElementsWellFormed | s_json.h:199-214 | the element loop only appends well-formed unkeyed nodes to the chain it was given |
| JsonProperties.ArrayNextWellFormed | s_json.h:216-228 | closing or continuing keeps the chain built so far as a prefix |
| JsonProperties.ObjectWellFormed | s_json.h:234-303 | a parsed object's `count` equals its chain length and every member carries its key |
| JsonProperties.MembersWellFormed | s_json.h:250-285 | the member loop only appends well-formed keyed nodes to the chain it was given |
| JsonProperties.ObjectValueWellFormed | s_json.h:268-285 | the value attached to a key is appended with that key |
| JsonProperties.ObjectNextWellFormed | s_json.h:287-298 | closing or continuing keeps the chain built so far as a prefix |
| JsonProperties.ParseWellFormed | s_json.h:333-343 | every tree `s_json_parse` returns is well formed and its root has no key |
| JsonExamples.EmptyContainers | s_json.h:192-195 | `[]` and `{ }` give containers with count 0 and an empty chain |
| JsonExamples.OpenBraceOnly | s_json.h:250 | input ending right after `{` gives an empty object |
| JsonExamples.OpenBracketOnly | s_json.h:199 | input ending right after `[` gives an empty array |
| JsonExamples.TrailingComma | s_json.h:199-230 | `[1,` gives a one-element array |
| JsonExamples.MissingBracket | s_json.h:223-226 | `[1` fails |
| JsonExamples.LoneMinus | s_json.h:116-120 | `-` alone is a Number lexeme |
| JsonExamples.BareFraction | s_json.h:122-128 | `1.` is a floating lexeme |
| JsonExamples.UnknownEscape | s_json.h:99 | `\u` decodes to `u` alone |
| JsonExamples.EscapedQuote | s_json.h:69-78 | an escaped quote does not close a string |
| JsonExamples.TrailingInput | s_json.h:342 | input after the root value is ignored |
| JsonExamples.BackslashAtEnd | s_json.h:69-72 | an escaped quote followed by a final backslash fails |
| JsonRoundTrip.ScanUnique | s_json.h:113-137 | a number text the next character cannot extend is scanned exactly |
| JsonRoundTrip.BodyRoundTrip | s_json.h:66-107 | both passes read an escaped body back: one unit per character |
| JsonRoundTrip.StringRoundTrip | s_json.h:61-110 | `parse_string` reads a quoted, escaped string back |
| JsonRoundTrip.NumberRoundTrip | s_json.h:112-152 | `parse_number` reads a valid lexeme back with its classification |
| JsonRoundTrip.ValueRoundTrip | s_json.h:305-331 | `parse_value` reads back the text of every well-formed tree with valid lexemes, followed by a character that cannot extend a number, as the same value without a key |
| JsonRoundTrip.ArrayRoundTrip | s_json.h:183-232 | `parse_array` reads `[]` and `[` elements `]` back, count included |
| JsonRoundTrip.ElementsRoundTrip | s_json.h:199-228 | the element loop reads a comma-separated chain back in order |
| JsonRoundTrip.ObjectRoundTrip | s_json.h:234-303 | `parse_object` reads `{}` and `{` members `}` back, keys and count included |
| JsonRoundTrip.MembersRoundTrip | s_json.h:250-299 | the member loop reads a comma-separated chain of keyed members back in order |
| JsonRoundTrip.ParseEmit | s_json.h:333-343 | `s_json_parse` of the text of every well-formed tree with valid lexemes and no NUL gives the tree's value back, without a root key |
| JsonAccess.FirstKey | s_json.h:377-385 | the position found is a matching member and no earlier member matches |
| JsonAccess.Get | s_json.h:374-386 | NULL for a NULL node, a NULL key or a non-object; otherwise the first member whose key equals the argument, or NULL |
| JsonAccess.GetMeaning | s_json.h:377-385 | a hit exists exactly when some member matches, and it is the first one |
| JsonAccess.ArrayGet | s_json.h:388-399 | NULL unless the node is an array and `0 <= index < count`; otherwise the index-th chain node, NULL when the chain ends early |
| JsonAccess.ArrayGetWellFormed | s_json.h:389-398 | on a parsed array the index test admits exactly the chain positions |
| JsonAccess.GetString | s_json.h:401-403 | the string payload of a String node, NULL otherwise |
| JsonAccess.GetNumber | s_json.h:405-407 | the payload of a Number node, the 0.0 default otherwise |
| JsonAccess.GetInt | s_json.h:409-411 | the 0 default unless the node is a Number; then its payload, read from the same union storage that `s_json_get_number` reads |
| JsonAccess.GetBool | s_json.h:413-415 | the flag of a Bool node, false otherwise |
| JsonAccess.GetterDefaults | s_json.h:401-415 | every getter falls back to its default on NULL and on another type, and at most one reads a payload |
| JsonAccess.Free | s_json.h:345-372 | freeing NULL releases nothing; otherwise the release log of the whole tree |
| JsonAccess.FreeNode | s_json.h:346-371 | the recursive free of one node returns exactly the release log of its subtree |
| JsonAccess.FreeChain | s_json.h:357-363 | the chain loop frees every child subtree in chain order |
| JsonAccess.ReleasedShape | s_json.h:345-372 | every released block's path lies under the subtree's path, none is released twice, the key comes first and the node last |
| JsonAccess.ReleasedCovers | s_json.h:345-372 | every node of the tree is released, with the key of every keyed node and the string of every String node |
| JsonAccess.ReleasedSound | s_json.h:345-372 | every released block names a node of the tree that owns it: a key only for a keyed node, a string only for a String node |
| JsonAccess.ReleasedExactly | s_json.h:345-372 | a block is released if and only if it names a node of the tree that owns a block of that kind |
| FixedArray.ShiftedLive | s_array.h:56 | the `memmove` removes exactly the live element at `index` |
| FixedArray.FirstMatch | s_array.h:91-97 | the index found satisfies the condition and no earlier one does |
| FixedArray.RemoveFirstIsFirstMatch | s_array.h:91-97 | `s_remove_if` removes exactly the first match, and nothing without one |
| FixedArray.RemoveFirstLength | s_array.h:91-97 | at most one element is removed |
| FixedArray.WithoutNoMatch | s_array.h:99-108 | no survivor of `s_remove_all` satisfies the condition |
| FixedArray.WithoutKeeps | s_array.h:99-108 | every non-matching element survives as often as it occurred |
| FixedArray.WithoutAppend | s_array.h:99-108 | survivors keep their relative order |
| FixedArray.WithoutNone | s_array.h:99-108 | nothing is removed when nothing matches |
| FixedArray.FixedArray.constructor | s_array.h:15-22 | a declared and initialised array has every slot zeroed and no element |
| FixedArray.FixedArray.Init | s_array.h:19-22 | `_init` zeroes every slot and sets `size` to 0 |
| FixedArray.FixedArray.Increment | s_array.h:23-29 | NULL and no change at capacity; otherwise `size` grows by one and the new last slot is returned |
| FixedArray.FixedArray.Add | s_array.h:30-35 | stores `value` at the old `size`, grows `size`, leaves every other slot as it was |
| FixedArray.FixedArray.Find | s_array.h:36-43 | the index of the live slot pointed to, or SIZE_MAX |
| FixedArray.FixedArray.FindLast | s_array.h:44-53 | the same answer, scanning downwards |
| FixedArray.FixedArray.RemoveAt | s_array.h:54-58 | no change unless `index` is live; otherwise the later slots shift down by one and `size` drops by one |
| FixedArray.FixedArray.Remove | s_array.h:59-64 | removes the live slot pointed to; any other pointer leaves the array unchanged |
| FixedArray.FixedArray.Get | s_array.h:65-68 | the address of the live slot `index` |
| FixedArray.FixedArray.GetLast | s_array.h:69-72 | the address of the last live slot |
| FixedArray.FixedArray.Set | s_array.h:73-76 | overwrites exactly slot `index` |
| FixedArray.FixedArray.Clear | s_array.h:77-80 | zeroes the live slots, keeps the others, and sets `size` to 0 |
| FixedArray.FixedArray.GetSize | s_array.h:81-83 | the number of live elements |
| FixedArray.FixedArray.ForEach | s_array.h:85-86 | visits every live index once, in increasing order |
| FixedArray.FixedArray.ForEachReverse | s_array.h:88-89 | visits every live index once, in decreasing order |
| FixedArray.FixedArray.RemoveIf | s_array.h:91-97 | the live elements lose exactly their first match, by one `_remove_at` shift |
| FixedArray.FixedArray.RemoveAll | s_array.h:99-108 | the live elements lose every match and keep the survivors in order; slots beyond the old `size` are untouched |

## Left out

- Allocation and deallocation (`calloc`, `malloc`, `strndup`, `free`) are left out, and so
  are the allocation-failure branches. Dafny is garbage-collected. `create_node` is the
  node value with no key and count 0.
- The linked sibling chain (`head`, `tail`, `next`) is a sequence appended at the tail.
  The model shows chain order and `count`, not pointer aliasing.
- The failure-path frees in `parse_array` and `parse_object` run before the chain head is
  stored in the container. They reach only the container node and leak its children. The
  model returns the failure and does not model those frees.
- `atoi`, `atof` and the `i`/`d` union aliasing are left out. A Number node keeps its
  consumed lexeme and its float classification.
- JsonAccess.GetNumber: returns the payload abstractly, not the `double`, which is
  platform-dependent.
- JsonAccess.GetInt: returns the payload abstractly, not the `int`. The code's union
  read does not reliably give the parsed integer.
- `s_json_print` is console output and is left out.
- `count` is a C `int`. The model does not bound it, so its overflow on chains longer
  than `INT_MAX` is not modelled.
- Recursion depth and stack exhaustion are left out. Locale-dependent character classes
  are left out: `isspace` and `isdigit` are the "C" locale sets.
- JsonParser.ParserState.ParseValue: after a failure the cursor position is unspecified,
  because every caller gives up. `ParseNull` and `ParseBool` do state that the cursor
  stays put.
- `JsonRoundTrip.Emit` is a serializer used to state the round trip. It is not the
  library's printer.
- FixedArray.FixedArray.Set: takes the value rather than a pointer to it. Reading through
  the pointer is not modelled.
- FixedArray.FixedArray.RemoveIf: the condition is a function of the element's value.
  The macro's condition can be any expression over `_it` and the array.
- FixedArray.FixedArray.RemoveAll: the condition is a function of the element's value.
  When the array is empty, the macro's `return` leaves the enclosing function; the model
  only leaves the array unchanged.
- FixedArray.FixedArray.RemoveAt: the slot the `memmove` leaves behind keeps its old value
  as written. Code outside the live range must not rely on it.
- The `s_assert`/`s_assertf` reports the C code prints before `assert(0)` are not
  modelled. The assertions are preconditions.
