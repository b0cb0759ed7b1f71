/**
 * The parsed tree (struct s_json of s_json.h). The C struct carries a type tag, an
 * optional key, a union payload, a `next` sibling link and a `count`. Here the tag and
 * the union become one closed sum type, and a container's sibling chain, which the
 * parser builds by appending at the tail, becomes the sequence of its children in
 * chain order. `count` stays a field of its own, as in the struct, so that the parser
 * has to keep it equal to the length of the chain.
 */
module JsonTree {
  import opened Wrappers

  datatype Node = Node(key: Option<string>, value: Value)

  datatype Value =
    | Null
    | Bool(b: bool)
      /** The Number payload is kept abstract: the consumed lexeme and whether the scanner
          classified it as floating (which decides between atof and atoi). */
    | Number(lexeme: string, isFloat: bool)
    | Str(s: string)
    | Array(count: nat, elems: seq<Node>)
    | Object(count: nat, members: seq<Node>)

  /** The chain of a container node; empty for scalars. */
  function Children(v: Value): seq<Node>
  {
    match v
    case Array(_, elems) => elems
    case Object(_, members) => members
    case _ => []
  }

  /** The structural invariants of a tree the parser returns (its root aside): every
      container's `count` is the length of its chain, array elements carry no key,
      object members always carry one. */
  predicate WellFormed(n: Node)
  {
    match n.value
    case Array(count, elems) =>
      count == |elems| &&
      forall i :: 0 <= i < |elems| ==> elems[i].key.None? && WellFormed(elems[i])
    case Object(count, members) =>
      count == |members| &&
      forall i :: 0 <= i < |members| ==> members[i].key.Some? && WellFormed(members[i])
    case _ => true
  }
}
