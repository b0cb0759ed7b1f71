/**
 * Reading and releasing a parsed tree: `s_json_get`, `s_json_array_get`, the typed
 * getters and `s_json_free` of s_json.h. A NULL `s_json*` is `None`; a container's
 * sibling chain is its sequence of children, so "the k-th node of the chain" is the
 * child at index k.
 */
module JsonAccess {
  import opened Wrappers
  import opened JsonTree
  import opened JsonText

  /** `strcmp(a, b) == 0`: the two C strings agree up to their NUL terminators. */
  predicate SameCString(a: string, b: string)
  {
    a[..StrLen(a)] == b[..StrLen(b)]
  }

  /** Whether chain node `m` is a hit for `s_json_get`: it has a key and the key compares equal. */
  predicate KeyMatches(m: Node, key: string)
  {
    m.key.Some? && SameCString(m.key.value, key)
  }

  /** The chain position `s_json_get` stops at: the first member whose key matches, or
      |members| when none does. */
  function FirstKey(members: seq<Node>, key: string): (i: nat)
    ensures i <= |members|
    ensures i < |members| ==> KeyMatches(members[i], key)
    ensures forall k :: 0 <= k < i ==> !KeyMatches(members[k], key)
  {
    if members == [] then 0
    else if KeyMatches(members[0], key) then 0
    else 1 + FirstKey(members[1..], key)
  }

  /** `s_json_get`: NULL for a NULL node, a NULL key or a node that is not an object;
      otherwise the first member of the chain whose key equals `key`, or NULL. */
  method Get(j: Option<Node>, key: Option<string>) returns (r: Option<Node>)
    ensures j.None? || key.None? || !j.value.value.Object? ==> r.None?
    ensures j.Some? && key.Some? && j.value.value.Object? ==>
      var members := j.value.value.members;
      var i := FirstKey(members, key.value);
      r == if i < |members| then Some(members[i]) else None
  {
    if j.None? || key.None? || !j.value.value.Object? {
      return None;
    }
    var members := j.value.value.members;
    var current := 0;
    while current < |members|
      invariant current <= |members|
      invariant forall k :: 0 <= k < current ==> !KeyMatches(members[k], key.value)
    {
      if members[current].key.Some? && SameCString(members[current].key.value, key.value) {
        return Some(members[current]);
      }
      current := current + 1;
    }
    return None;
  }

  /** What `s_json_get` promises: a hit is a member of the object with a matching key, and
      there is no hit exactly when no member matches. */
  lemma GetMeaning(members: seq<Node>, key: string)
    ensures FirstKey(members, key) < |members| <==>
      exists k :: 0 <= k < |members| && KeyMatches(members[k], key)
    ensures forall k :: 0 <= k < |members| && KeyMatches(members[k], key) ==>
      FirstKey(members, key) <= k
  {
  }

  /** `s_json_array_get`: NULL for a NULL node, a node that is not an array or an index
      outside [0, count); otherwise the node reached by following the chain `index` times
      from its head, which is NULL if the chain ends first. */
  method ArrayGet(j: Option<Node>, index: int) returns (r: Option<Node>)
    ensures j.None? || !j.value.value.Array? || index < 0 || index >= j.value.value.count ==>
      r.None?
    ensures j.Some? && j.value.value.Array? && 0 <= index < j.value.value.count ==>
      var elems := j.value.value.elems;
      r == if index < |elems| then Some(elems[index]) else None
  {
    if j.None? || !j.value.value.Array? || index < 0 || index >= j.value.value.count {
      return None;
    }
    var elems := j.value.value.elems;
    var current := 0;
    var i := 0;
    while i < index && current < |elems|
      invariant 0 <= i <= index && current == i && current <= |elems|
    {
      current := current + 1;
      i := i + 1;
    }
    return if current < |elems| then Some(elems[current]) else None;
  }

  /** On a well-formed array the chain is as long as `count`, so `s_json_array_get`
      returns the element for exactly the indices in [0, count). */
  lemma ArrayGetWellFormed(n: Node, index: int)
    requires WellFormed(n) && n.value.Array?
    ensures 0 <= index < n.value.count <==> 0 <= index < |n.value.elems|
  {
  }

  /** What a typed getter returns for a Number node: the C code reads the union at the
      requested type, which this model does not interpret, so the read is identified by the
      node's payload. */
  datatype NumberRead = Default | Payload(lexeme: string, isFloat: bool)

  /** `s_json_get_string`. */
  function GetString(j: Option<Node>): (r: Option<string>)
    ensures r.Some? <==> j.Some? && j.value.value.Str?
    ensures r.Some? ==> r.value == j.value.value.s
  {
    if j.Some? && j.value.value.Str? then Some(j.value.value.s) else None
  }

  /** `s_json_get_number`: its 0.0 default is `Default`. */
  function GetNumber(j: Option<Node>): (r: NumberRead)
    ensures r.Payload? <==> j.Some? && j.value.value.Number?
    ensures r.Payload? ==> r.lexeme == j.value.value.lexeme && r.isFloat == j.value.value.isFloat
  {
    if j.Some? && j.value.value.Number? then Payload(j.value.value.lexeme, j.value.value.isFloat)
    else Default
  }

  /** `s_json_get_int`: its 0 default is `Default`. It reads the same union storage as
      `s_json_get_number`, only at another type. */
  function GetInt(j: Option<Node>): (r: NumberRead)
    ensures r.Payload? <==> j.Some? && j.value.value.Number?
    ensures r.Payload? ==> r.lexeme == j.value.value.lexeme && r.isFloat == j.value.value.isFloat
  {
    GetNumber(j)
  }

  /** `s_json_get_bool`. */
  function GetBool(j: Option<Node>): (r: bool)
    ensures r ==> j.Some? && j.value.value.Bool?
    ensures j.Some? && j.value.value.Bool? ==> r == j.value.value.b
  {
    j.Some? && j.value.value.Bool? && j.value.value.b
  }

  /** The typed getters fall back to NULL, 0.0, 0 and false on a NULL node and on a node of
      another type, and at most one of them reads a payload. */
  lemma GetterDefaults(j: Option<Node>)
    ensures j.None? ==> GetString(j).None? && GetNumber(j).Default? && GetInt(j).Default? && !GetBool(j)
    ensures GetString(j).Some? ==> GetNumber(j).Default? && GetInt(j).Default? && !GetBool(j)
    ensures GetNumber(j).Payload? ==> GetString(j).None? && !GetBool(j)
    ensures GetBool(j) ==> GetString(j).None? && GetNumber(j).Default?
  {
  }

  /**
   * `s_json_free` as the sequence of `free` calls it makes. A node is named by its path
   * from the root (the chain positions followed), and each node owns up to three heap
   * blocks: its key string, its string payload and the node itself.
   */
  datatype Block = KeyBlock(path: seq<nat>) | StringBlock(path: seq<nat>) | NodeBlock(path: seq<nat>)

  /** The blocks freed for node `n` at `path`: its key, then its string or its chain, each
      child in chain order, then the node. */
  function Released(n: Node, path: seq<nat>): seq<Block>
    decreases n, 2
  {
    (if n.key.Some? then [KeyBlock(path)] else []) + ReleasedPayload(n, path) + [NodeBlock(path)]
  }

  function ReleasedPayload(n: Node, path: seq<nat>): seq<Block>
    decreases n, 1
  {
    match n.value
    case Str(_) => [StringBlock(path)]
    case Array(_, elems) => ReleasedChain(n, elems, path, 0)
    case Object(_, members) => ReleasedChain(n, members, path, 0)
    case _ => []
  }

  function ReleasedChain(n: Node, chain: seq<Node>, path: seq<nat>, i: nat): seq<Block>
    requires chain == Children(n.value)
    decreases n, 0, |chain| - i
  {
    if i < |chain| then Released(chain[i], path + [i]) + ReleasedChain(n, chain, path, i + 1)
    else []
  }

  /** `s_json_free`: nothing for NULL, otherwise the key, the payload, every chain node
      (recursively, in chain order) and the node itself. */
  method Free(j: Option<Node>) returns (log: seq<Block>)
    ensures j.None? ==> log == []
    ensures j.Some? ==> log == Released(j.value, [])
  {
    if j.None? {
      return [];
    }
    log := FreeNode(j.value, []);
  }

  method FreeNode(n: Node, path: seq<nat>) returns (log: seq<Block>)
    ensures log == Released(n, path)
    decreases n, 2
  {
    log := if n.key.Some? then [KeyBlock(path)] else [];
    match n.value {
      case Str(_) =>
        log := log + [StringBlock(path)];
      case Array(_, elems) =>
        var sub := FreeChain(n, elems, path);
        log := log + sub;
      case Object(_, members) =>
        var sub := FreeChain(n, members, path);
        log := log + sub;
      case _ =>
    }
    log := log + [NodeBlock(path)];
  }

  /** The `while (current)` loop of `s_json_free` over a container's chain. */
  method FreeChain(n: Node, chain: seq<Node>, path: seq<nat>) returns (log: seq<Block>)
    requires chain == Children(n.value)
    ensures log == ReleasedChain(n, chain, path, 0)
    decreases n, 1
  {
    log := [];
    var current := 0;
    while current < |chain|
      invariant current <= |chain|
      invariant log + ReleasedChain(n, chain, path, current) == ReleasedChain(n, chain, path, 0)
    {
      var sub := FreeNode(chain[current], path + [current]);
      log := log + sub;
      current := current + 1;
    }
  }

  /** `q` names `path` or a node below it. */
  predicate Under(path: seq<nat>, q: seq<nat>)
  {
    |path| <= |q| && q[..|path|] == path
  }

  /** No block is freed twice. */
  predicate Distinct(log: seq<Block>)
  {
    forall a, b :: 0 <= a < b < |log| ==> log[a] != log[b]
  }

  /** The node reached from `n` by following the chain positions in `q`, if there is one. */
  function Subtree(n: Node, q: seq<nat>): Option<Node>
    decreases q
  {
    if q == [] then Some(n)
    else if q[0] < |Children(n.value)| then Subtree(Children(n.value)[q[0]], q[1..])
    else None
  }

  lemma DistinctAppend(x: seq<Block>, y: seq<Block>)
    requires Distinct(x) && Distinct(y)
    requires forall a, b :: 0 <= a < |x| && 0 <= b < |y| ==> x[a] != y[b]
    ensures Distinct(x + y)
  {
    forall a, b | 0 <= a < b < |x + y|
      ensures (x + y)[a] != (x + y)[b]
    {
      if b < |x| {
        assert (x + y)[a] == x[a] && (x + y)[b] == x[b];
      } else if a < |x| {
        assert (x + y)[a] == x[a] && (x + y)[b] == y[b - |x|];
      } else {
        assert (x + y)[a] == y[a - |x|] && (x + y)[b] == y[b - |x|];
      }
    }
  }

  lemma UnderChild(path: seq<nat>, i: nat, q: seq<nat>)
    requires Under(path + [i], q)
    ensures Under(path, q) && |path| < |q| && q[|path|] == i
  {
    assert q[..|path|] == q[..|path| + 1][..|path|] == (path + [i])[..|path|] == path;
    assert q[|path|] == q[..|path| + 1][|path|] == (path + [i])[|path|];
  }

  /** The shape of the release log of one node: every block belongs to the node or to a
      node below it, no block appears twice, a key is freed first and the node itself
      last, so every descendant is freed before it. */
  lemma {:induction false} ReleasedShape(n: Node, path: seq<nat>)
    ensures var log := Released(n, path);
      (forall k :: 0 <= k < |log| ==> Under(path, log[k].path)) &&
      Distinct(log) &&
      log[|log| - 1] == NodeBlock(path) &&
      (n.key.Some? ==> log[0] == KeyBlock(path))
    decreases n, 2
  {
    var key := if n.key.Some? then [KeyBlock(path)] else [];
    var payload := ReleasedPayload(n, path);
    PayloadShape(n, path);
    assert Released(n, path) == (key + payload) + [NodeBlock(path)];
    DistinctAppend(key, payload);
    forall k | 0 <= k < |key + payload|
      ensures (key + payload)[k] != NodeBlock(path)
    {
      if k >= |key| {
        assert (key + payload)[k] == payload[k - |key|];
      }
    }
    DistinctAppend(key + payload, [NodeBlock(path)]);
  }

  lemma {:induction false} PayloadShape(n: Node, path: seq<nat>)
    ensures var log := ReleasedPayload(n, path);
      (forall k :: 0 <= k < |log| ==>
        log[k] == StringBlock(path) || (Under(path, log[k].path) && |path| < |log[k].path|)) &&
      Distinct(log)
    decreases n, 1
  {
    match n.value
    case Array(_, elems) => ChainShape(n, elems, path, 0);
    case Object(_, members) => ChainShape(n, members, path, 0);
    case _ =>
  }

  lemma {:induction false} ChainShape(n: Node, chain: seq<Node>, path: seq<nat>, i: nat)
    requires chain == Children(n.value)
    ensures var log := ReleasedChain(n, chain, path, i);
      (forall k :: 0 <= k < |log| ==>
        Under(path, log[k].path) && |path| < |log[k].path| && i <= log[k].path[|path|]) &&
      Distinct(log)
    decreases n, 0, |chain| - i
  {
    if i < |chain| {
      var head := Released(chain[i], path + [i]);
      var tail := ReleasedChain(n, chain, path, i + 1);
      ReleasedShape(chain[i], path + [i]);
      ChainShape(n, chain, path, i + 1);
      forall k | 0 <= k < |head|
        ensures Under(path, head[k].path) && |path| < |head[k].path| && head[k].path[|path|] == i
      {
        UnderChild(path, i, head[k].path);
      }
      DistinctAppend(head, tail);
      assert ReleasedChain(n, chain, path, i) == head + tail;
      forall k | 0 <= k < |head + tail|
        ensures Under(path, (head + tail)[k].path) && |path| < |(head + tail)[k].path|
        ensures i <= (head + tail)[k].path[|path|]
      {
        if k >= |head| {
          assert (head + tail)[k] == tail[k - |head|];
        }
      }
    }
  }

  /** Every node of the tree is freed, and with it the key of a keyed node and the string
      of a String node: together with `ReleasedShape`, exactly once. */
  lemma {:induction false} ReleasedCovers(n: Node, path: seq<nat>, q: seq<nat>)
    requires Subtree(n, q).Some?
    ensures NodeBlock(path + q) in Released(n, path)
    ensures Subtree(n, q).value.key.Some? ==> KeyBlock(path + q) in Released(n, path)
    ensures Subtree(n, q).value.value.Str? ==> StringBlock(path + q) in Released(n, path)
    decreases q
  {
    if q == [] {
      assert path + q == path;
      var key := if n.key.Some? then [KeyBlock(path)] else [];
      assert Released(n, path) == key + ReleasedPayload(n, path) + [NodeBlock(path)];
      if n.value.Str? {
        assert StringBlock(path) in ReleasedPayload(n, path);
      }
    } else {
      var c := Children(n.value)[q[0]];
      ReleasedCovers(c, path + [q[0]], q[1..]);
      assert path + [q[0]] + q[1..] == path + q;
      ChildContains(n, path, q[0], NodeBlock(path + q));
      assert Subtree(n, q) == Subtree(c, q[1..]);
      if Subtree(c, q[1..]).value.key.Some? {
        ChildContains(n, path, q[0], KeyBlock(path + q));
      }
      if Subtree(c, q[1..]).value.value.Str? {
        ChildContains(n, path, q[0], StringBlock(path + q));
      }
    }
  }

  /** The node below `path` that block `b` names, if it names one. */
  function Owner(n: Node, path: seq<nat>, b: Block): Option<Node>
  {
    if Under(path, b.path) then Subtree(n, b.path[|path|..]) else None
  }

  /** What a node owns: its key when it has one, its string when it is a String, and
      itself. */
  predicate Owns(m: Node, b: Block)
  {
    match b
    case KeyBlock(_) => m.key.Some?
    case StringBlock(_) => m.value.Str?
    case NodeBlock(_) => true
  }

  predicate Owned(n: Node, path: seq<nat>, b: Block)
  {
    Owner(n, path, b).Some? && Owns(Owner(n, path, b).value, b)
  }

  /** `s_json_free` releases exactly the blocks the tree owns: a block is in the log if and
      only if it names a node of the tree and that node owns a block of its kind. */
  lemma ReleasedExactly(n: Node, path: seq<nat>, b: Block)
    ensures b in Released(n, path) <==> Owned(n, path, b)
  {
    if b in Released(n, path) {
      ReleasedSound(n, path, b);
    }
    if Owned(n, path, b) {
      var q := b.path[|path|..];
      assert path + q == b.path;
      ReleasedCovers(n, path, q);
    }
  }

  /** Every block freed names a node of the tree that owns it. */
  lemma {:induction false} ReleasedSound(n: Node, path: seq<nat>, b: Block)
    requires b in Released(n, path)
    ensures Owned(n, path, b)
    decreases n, 2
  {
    var key := if n.key.Some? then [KeyBlock(path)] else [];
    assert Released(n, path) == key + ReleasedPayload(n, path) + [NodeBlock(path)];
    if b in ReleasedPayload(n, path) {
      PayloadSound(n, path, b);
    } else {
      assert b.path == path && b.path[|path|..] == [];
    }
  }

  lemma {:induction false} PayloadSound(n: Node, path: seq<nat>, b: Block)
    requires b in ReleasedPayload(n, path)
    ensures Owned(n, path, b)
    decreases n, 1
  {
    match n.value
    case Str(_) =>
      assert b == StringBlock(path) && b.path[|path|..] == [];
    case Array(_, elems) => ChainSound(n, elems, path, 0, b);
    case Object(_, members) => ChainSound(n, members, path, 0, b);
  }

  lemma {:induction false} ChainSound(n: Node, chain: seq<Node>, path: seq<nat>, i: nat, b: Block)
    requires chain == Children(n.value) && b in ReleasedChain(n, chain, path, i)
    ensures Owned(n, path, b)
    decreases n, 0, |chain| - i
  {
    if b in Released(chain[i], path + [i]) {
      ReleasedSound(chain[i], path + [i], b);
      ChildOwned(n, path, i, b);
    } else {
      ChainSound(n, chain, path, i + 1, b);
    }
  }

  /** A block owned below a chain node is owned below its container. */
  lemma ChildOwned(n: Node, path: seq<nat>, i: nat, b: Block)
    requires i < |Children(n.value)| && Owned(Children(n.value)[i], path + [i], b)
    ensures Owned(n, path, b)
  {
    UnderChild(path, i, b.path);
    var q := b.path[|path|..];
    assert q[0] == i && q[1..] == b.path[|path + [i]|..];
  }

  /** A block freed for a chain node is freed for its container. */
  lemma ChildContains(n: Node, path: seq<nat>, j: nat, b: Block)
    requires j < |Children(n.value)|
    requires b in Released(Children(n.value)[j], path + [j])
    ensures b in Released(n, path)
  {
    ChainContains(n, Children(n.value), path, 0, j, b);
    if n.value.Array? || n.value.Object? {
      assert b in ReleasedPayload(n, path);
    }
  }

  lemma {:induction false} ChainContains(n: Node, chain: seq<Node>, path: seq<nat>, i: nat, j: nat, b: Block)
    requires chain == Children(n.value) && i <= j < |chain|
    requires b in Released(chain[j], path + [j])
    ensures b in ReleasedChain(n, chain, path, i)
    decreases |chain| - i
  {
    if i < j {
      ChainContains(n, chain, path, i + 1, j, b);
    }
  }
}
