/** The post-decode validator: an explicit stack against a recursive definition, and its place
    behind the text scan. */
module JsonValidator {
  import opened Arithmetic
  import opened JsonScan

  const MAX_DECODED_NODES := 100000

  type CodePoint = c: nat | c < 0x110000

  /** A decoded Python value. Text is a sequence of code points; integers and finite floats need no
      content here; `Foreign` is any type the decoder should never produce. */
  datatype Value =
    | Null
    | Bool(b: bool)
    | Int(n: int)
    | Float(finite: bool)
    | Text(codes: seq<CodePoint>)
    | List(items: seq<Value>)
    | Dict(entries: seq<(seq<CodePoint>, Value)>)
    | Foreign

  /** Encodable as UTF-8: no surrogate code point. */
  predicate Encodable(codes: seq<CodePoint>) {
    forall i :: 0 <= i < |codes| ==> !(0xD800 <= codes[i] <= 0xDFFF)
  }

  function Children(v: Value): (s: seq<Value>)
    ensures forall i :: 0 <= i < |s| ==> s[i] < v
  {
    match v
    case List(items) => items
    case Dict(entries) => seq(|entries|, i requires 0 <= i < |entries| => entries[i].1)
    case _ => []
  }

  /** Every value at or below this one. */
  function Nodes(v: Value): (n: nat)
    ensures n >= 1
    decreases v
  {
    1 + NodesOf(v, Children(v))
  }
  function NodesOf(v: Value, s: seq<Value>): (n: nat)
    requires forall i :: 0 <= i < |s| ==> s[i] < v
    decreases v, |s|
  {
    if s == [] then 0 else NodesOf(v, s[..|s| - 1]) + Nodes(s[|s| - 1])
  }

  /** Nested containers, an empty container counting one. */
  function Depth(v: Value): (d: nat)
    decreases v
  {
    if v.List? || v.Dict? then 1 + DepthOf(v, Children(v)) else 0
  }
  function DepthOf(v: Value, s: seq<Value>): (d: nat)
    requires forall i :: 0 <= i < |s| ==> s[i] < v
    decreases v, |s|
  {
    if s == [] then 0 else Max(DepthOf(v, s[..|s| - 1]), Depth(s[|s| - 1]))
  }

  /** The deepest child decides. */
  lemma {:induction false} DepthOfIsDeepest(v: Value, s: seq<Value>)
    requires forall i :: 0 <= i < |s| ==> s[i] < v
    ensures forall i :: 0 <= i < |s| ==> Depth(s[i]) <= DepthOf(v, s)
    ensures DepthOf(v, s) == 0 || exists i :: 0 <= i < |s| && Depth(s[i]) == DepthOf(v, s)
    decreases |s|
  {
    if s != [] {
      var n := |s| - 1;
      DepthOfIsDeepest(v, s[..n]);
      forall i | 0 <= i < |s| ensures Depth(s[i]) <= DepthOf(v, s) {
        if i < n { assert s[..n][i] == s[i]; }
      }
      if DepthOf(v, s) == Depth(s[n]) {
      } else if DepthOf(v, s[..n]) != 0 {
        var i :| 0 <= i < n && Depth(s[..n][i]) == DepthOf(v, s[..n]);
        assert Depth(s[i]) == DepthOf(v, s);
      }
    }
  }

  /** What a node must be by itself. */
  predicate CleanNode(v: Value) {
    match v
    case Text(codes) => Encodable(codes)
    case Float(finite) => finite
    case Dict(entries) => forall i :: 0 <= i < |entries| ==> Encodable(entries[i].0)
    case Foreign => false
    case _ => true
  }

  predicate Clean(v: Value)
    decreases v
  {
    CleanNode(v) && forall i :: 0 <= i < |Children(v)| ==> Clean(Children(v)[i])
  }

  /** The recursive definition of the accepted domain. */
  predicate Acceptable(v: Value) {
    Nodes(v) <= MAX_DECODED_NODES && Depth(v) <= MAX_NESTING_DEPTH && Clean(v)
  }

  // ------------------------------------------------- every node, one by one

  /** The value and everything inside it, once for each place where it occurs. */
  function Below(v: Value): (s: seq<Value>)
    ensures s != [] && s[0] == v
    decreases v
  {
    match v
    case List(items) => [v] + BelowAll(v, items)
    case Dict(entries) => [v] + BelowEntries(v, entries)
    case _ => [v]
  }
  function BelowAll(v: Value, items: seq<Value>): seq<Value>
    requires forall i :: 0 <= i < |items| ==> items[i] < v
    decreases v, |items|
  {
    if items == [] then [] else BelowAll(v, items[..|items| - 1]) + Below(items[|items| - 1])
  }
  function BelowEntries(v: Value, entries: seq<(seq<CodePoint>, Value)>): seq<Value>
    requires forall i :: 0 <= i < |entries| ==> entries[i].1 < v
    decreases v, |entries|
  {
    if entries == [] then [] else BelowEntries(v, entries[..|entries| - 1]) + Below(entries[|entries| - 1].1)
  }

  lemma {:induction false} BelowEntriesIsAll(v: Value, entries: seq<(seq<CodePoint>, Value)>, items: seq<Value>)
    requires |items| == |entries| && forall i :: 0 <= i < |entries| ==> items[i] == entries[i].1 < v
    ensures BelowEntries(v, entries) == BelowAll(v, items)
    decreases |items|
  {
    hide Below;
    if items != [] {
      var n := |items| - 1;
      BelowEntriesIsAll(v, entries[..n], items[..n]);
    }
  }

  lemma BelowIsChildren(v: Value)
    ensures Below(v) == [v] + BelowAll(v, Children(v))
  {
    if v.Dict? {
      BelowEntriesIsAll(v, v.entries, Children(v));
    }
  }

  lemma {:induction false} BelowCounts(v: Value)
    ensures |Below(v)| == Nodes(v)
    decreases v
  {
    BelowIsChildren(v);
    BelowAllCounts(v, Children(v));
  }
  lemma {:induction false} BelowAllCounts(v: Value, s: seq<Value>)
    requires forall i :: 0 <= i < |s| ==> s[i] < v
    ensures |BelowAll(v, s)| == NodesOf(v, s)
    decreases v, |s|
  {
    if s != [] {
      BelowAllCounts(v, s[..|s| - 1]);
      BelowCounts(s[|s| - 1]);
    }
  }

  lemma {:induction false} BelowAllMembers(v: Value, s: seq<Value>, n: Value)
    requires forall i :: 0 <= i < |s| ==> s[i] < v
    ensures n in BelowAll(v, s) <==> exists i :: 0 <= i < |s| && n in Below(s[i])
    decreases |s|
  {
    hide Below;
    if s != [] {
      var k := |s| - 1;
      BelowAllMembers(v, s[..k], n);
      if n in BelowAll(v, s) && n !in Below(s[k]) {
        var i :| 0 <= i < k && n in Below(s[..k][i]);
        assert n in Below(s[i]);
      }
      if i :| 0 <= i < k && n in Below(s[i]) {
        assert s[..k][i] == s[i];
      }
    }
  }

  /** What is inside an item or an entry is inside the container, and nothing else is. */
  lemma BelowIsInside(v: Value, n: Value)
    ensures v.List? ==> (n in Below(v) <==> n == v || exists i :: 0 <= i < |v.items| && n in Below(v.items[i]))
    ensures v.Dict? ==> (n in Below(v) <==> n == v || exists i :: 0 <= i < |v.entries| && n in Below(v.entries[i].1))
    ensures !v.List? && !v.Dict? ==> (n in Below(v) <==> n == v)
  {
    BelowIsChildren(v);
    BelowAllMembers(v, Children(v), n);
    hide Below, BelowAll;
    if v.Dict? {
      if i :| 0 <= i < |v.entries| && n in Below(v.entries[i].1) {
        assert Children(v)[i] == v.entries[i].1;
      }
      if i :| 0 <= i < |Children(v)| && n in Below(Children(v)[i]) {
        assert n in Below(v.entries[i].1);
      }
    }
  }

  /** Nodes are counted by place: side by side they add up, and a container is one more. */
  lemma NodesAddUp(a: seq<Value>, b: seq<Value>, x: Value)
    ensures Nodes(List([])) == 1 && Nodes(List([x])) == 1 + Nodes(x)
    ensures Nodes(List(a + b)) + 1 == Nodes(List(a)) + Nodes(List(b))
  {
    hide Nodes, NodesOf, StackNodes, Pushed;
    ListNodes(a);
    ListNodes(b);
    ListNodes(a + b);
    StackNodesConcat(Pushed(a, 0), Pushed(b, 0));
    assert Pushed(a + b, 0) == Pushed(a, 0) + Pushed(b, 0);
    ListNodes([]);
    ListNodes([x]);
    StackTop([], (x, 0));
    assert Pushed([x], 0) == [] + [(x, 0)];
  }

  /** Only the values of a dictionary are nodes, not its keys. */
  lemma KeysAreNotNodes(entries: seq<(seq<CodePoint>, Value)>, values: seq<Value>)
    requires |values| == |entries| && forall i :: 0 <= i < |entries| ==> values[i] == entries[i].1
    ensures Nodes(Dict(entries)) == Nodes(List(values))
  {
    hide Nodes, Pushed;
    ListNodes(values);
    assert Children(Dict(entries)) == values;
    PushNodes([], Dict(entries), values, 0);
    assert [] + Pushed(values, 0) == Pushed(values, 0);
    DictNodes(entries);
  }

  lemma DictNodes(entries: seq<(seq<CodePoint>, Value)>)
    ensures Nodes(Dict(entries)) == 1 + NodesOf(Dict(entries), Children(Dict(entries)))
  {
  }

  lemma ListNodes(s: seq<Value>)
    ensures Nodes(List(s)) == 1 + StackNodes(Pushed(s, 0))
    ensures s == [] ==> StackNodes(Pushed(s, 0)) == 0
  {
    PushNodes([], List(s), s, 0);
    assert [] + Pushed(s, 0) == Pushed(s, 0);
  }

  /** A container is one deeper than the deepest thing in it; nothing else has a depth. */
  lemma DepthIsOneMore(v: Value)
    ensures Depth(v) == 0 <==> !v.List? && !v.Dict?
    ensures v.List? ==>
              && (forall i :: 0 <= i < |v.items| ==> Depth(v.items[i]) < Depth(v))
              && (Depth(v) == 1 || exists i :: 0 <= i < |v.items| && Depth(v.items[i]) + 1 == Depth(v))
    ensures v.Dict? ==>
              && (forall i :: 0 <= i < |v.entries| ==> Depth(v.entries[i].1) < Depth(v))
              && (Depth(v) == 1 || exists i :: 0 <= i < |v.entries| && Depth(v.entries[i].1) + 1 == Depth(v))
  {
    var s := Children(v);
    DepthOfIsDeepest(v, s);
    var d := DepthOf(v, s);
    assert v.List? || v.Dict? ==> Depth(v) == 1 + d;
    hide Depth, DepthOf;
    if v.Dict? {
      forall i | 0 <= i < |v.entries| ensures Depth(v.entries[i].1) < Depth(v) {
        assert s[i] == v.entries[i].1;
      }
      if i :| 0 <= i < |s| && Depth(s[i]) == d {
        assert Depth(v.entries[i].1) + 1 == Depth(v);
      }
    }
  }

  lemma {:induction false} CleanIsEveryNode(v: Value)
    ensures Clean(v) <==> forall n :: n in Below(v) ==> CleanNode(n)
    decreases v
  {
    var s := Children(v);
    BelowIsChildren(v);
    forall i | 0 <= i < |s| ensures Clean(s[i]) <==> forall n :: n in Below(s[i]) ==> CleanNode(n) {
      CleanIsEveryNode(s[i]);
    }
    forall n ensures n in BelowAll(v, s) <==> exists i :: 0 <= i < |s| && n in Below(s[i]) {
      BelowAllMembers(v, s, n);
    }
    hide Below, BelowAll, CleanNode, Children;
  }

  // ---------------------------------------------------------- the stack walk

  type Stack = seq<(Value, nat)>

  function StackNodes(stack: Stack): (n: nat)
    ensures stack != [] ==> n > 0
  {
    if stack == [] then 0 else StackNodes(stack[..|stack| - 1]) + Nodes(stack[|stack| - 1].0)
  }

  predicate Fits(entry: (Value, nat)) {
    entry.1 + Depth(entry.0) <= MAX_NESTING_DEPTH && Clean(entry.0)
  }

  predicate StackFits(stack: Stack) {
    forall i :: 0 <= i < |stack| ==> Fits(stack[i])
  }

  function Pushed(s: seq<Value>, depth: nat): (stack: Stack)
    ensures |stack| == |s| && forall i :: 0 <= i < |s| ==> stack[i] == (s[i], depth)
  {
    seq(|s|, i requires 0 <= i < |s| => (s[i], depth))
  }

  lemma {:induction false} PushNodes(stack: Stack, v: Value, s: seq<Value>, depth: nat)
    requires forall i :: 0 <= i < |s| ==> s[i] < v
    ensures StackNodes(stack + Pushed(s, depth)) == StackNodes(stack) + NodesOf(v, s)
    decreases |s|
  {
    hide Nodes;
    if s == [] {
      assert stack + Pushed(s, depth) == stack;
    } else {
      var n := |s| - 1;
      PushNodes(stack, v, s[..n], depth);
      assert NodesOf(v, s) == NodesOf(v, s[..n]) + Nodes(s[n]);
      var full := stack + Pushed(s, depth);
      assert full[..|full| - 1] == stack + Pushed(s[..n], depth);
    }
  }

  /** A container fits exactly when its own node is clean, it may open one more level, and its
      children fit one level deeper. */
  lemma ContainerFits(v: Value, depth: nat)
    requires v.List? || v.Dict?
    ensures Fits((v, depth)) <==>
              depth + 1 <= MAX_NESTING_DEPTH && CleanNode(v) && StackFits(Pushed(Children(v), depth + 1))
  {
    var s := Children(v);
    var stack := Pushed(s, depth + 1);
    DepthOfIsDeepest(v, s);
    if StackFits(stack) && CleanNode(v) && depth + 1 <= MAX_NESTING_DEPTH {
      forall i | 0 <= i < |s| ensures Clean(s[i]) && depth + 1 + Depth(s[i]) <= MAX_NESTING_DEPTH {
        assert Fits(stack[i]);
      }
    }
  }

  /** What the walk knows: the nodes still on the stack, and that the root is accepted exactly if
      they all are. */
  ghost predicate Walking(root: Value, visited: nat, stack: Stack) {
    && visited + StackNodes(stack) == Nodes(root)
    && (forall i :: 0 <= i < |stack| ==> stack[i].1 <= MAX_NESTING_DEPTH)
    && (StackFits(stack) <==> Fits((root, 0)))
  }

  lemma StackTop(stack: Stack, entry: (Value, nat))
    ensures StackNodes(stack + [entry]) == StackNodes(stack) + Nodes(entry.0)
    ensures StackFits(stack + [entry]) <==> StackFits(stack) && Fits(entry)
  {
    var full := stack + [entry];
    assert full[..|full| - 1] == stack;
    StackFitsConcat(stack, [entry]);
    assert StackFits([entry]) <==> Fits(entry) by { assert [entry][0] == entry; }
  }

  lemma LeafStep(root: Value, visited: nat, stack: Stack, v: Value, depth: nat)
    requires Walking(root, visited, stack + [(v, depth)]) && !v.List? && !v.Dict? && CleanNode(v)
    ensures Walking(root, visited + 1, stack)
  {
    StackTop(stack, (v, depth));
    LeafNodes(v);
    assert (stack + [(v, depth)])[|stack|] == (v, depth);
    forall i | 0 <= i < |stack| ensures stack[i].1 <= MAX_NESTING_DEPTH {
      assert stack[i] == (stack + [(v, depth)])[i];
    }
  }

  lemma ContainerStep(root: Value, visited: nat, stack: Stack, v: Value, depth: nat)
    requires Walking(root, visited, stack + [(v, depth)]) && (v.List? || v.Dict?) && CleanNode(v)
    requires depth + 1 <= MAX_NESTING_DEPTH
    ensures Walking(root, visited + 1, stack + Pushed(Children(v), depth + 1))
  {
    StackTop(stack, (v, depth));
    ContainerFits(v, depth);
    var next := stack + Pushed(Children(v), depth + 1);
    PushNodes(stack, v, Children(v), depth + 1);
    StackFitsConcat(stack, Pushed(Children(v), depth + 1));
    forall i | 0 <= i < |next| ensures next[i].1 <= MAX_NESTING_DEPTH {
      if i < |stack| { assert stack[i] == (stack + [(v, depth)])[i]; }
    }
  }

  lemma RejectStep(root: Value, visited: nat, stack: Stack, v: Value, depth: nat)
    requires Walking(root, visited, stack + [(v, depth)])
    requires !CleanNode(v) || ((v.List? || v.Dict?) && depth + 1 > MAX_NESTING_DEPTH)
    ensures !Acceptable(root)
  {
    StackTop(stack, (v, depth));
  }

  lemma WalkStarts(root: Value)
    ensures Walking(root, 0, [(root, 0)])
  {
    StackTop([], (root, 0));
    assert [] + [(root, 0)] == [(root, 0)];
  }

  lemma WalkEnds(root: Value, visited: nat)
    requires Walking(root, visited, []) && visited <= MAX_DECODED_NODES
    ensures Acceptable(root)
  {
    assert StackFits([]);
  }

  lemma WalkTooLong(root: Value, visited: nat, stack: Stack)
    requires Walking(root, visited, stack) && stack != [] && visited + 1 > MAX_DECODED_NODES
    ensures !Acceptable(root)
  {
  }

  /** The accepted domain written out node by node. */
  lemma AcceptableIs(root: Value)
    ensures Acceptable(root) <==>
              && |Below(root)| <= 100000 && Depth(root) <= 128
              && forall n :: n in Below(root) ==>
                   && n != Foreign
                   && (n.Float? ==> n.finite)
                   && (n.Text? ==> forall c :: c in n.codes ==> c < 0xD800 || c > 0xDFFF)
                   && (n.Dict? ==> forall e, c :: e in n.entries && c in e.0 ==> c < 0xD800 || c > 0xDFFF)
  {
    BelowCounts(root);
    CleanIsEveryNode(root);
    hide Below, Nodes, Depth, Clean, CleanNode;
    forall n ensures CleanNode(n) <==>
      && n != Foreign
      && (n.Float? ==> n.finite)
      && (n.Text? ==> forall c :: c in n.codes ==> c < 0xD800 || c > 0xDFFF)
      && (n.Dict? ==> forall e, c :: e in n.entries && c in e.0 ==> c < 0xD800 || c > 0xDFFF)
    {
      CleanNodeIs(n);
    }
  }

  lemma CleanNodeIs(n: Value)
    ensures CleanNode(n) <==>
              && n != Foreign
              && (n.Float? ==> n.finite)
              && (n.Text? ==> forall c :: c in n.codes ==> c < 0xD800 || c > 0xDFFF)
              && (n.Dict? ==> forall e, c :: e in n.entries && c in e.0 ==> c < 0xD800 || c > 0xDFFF)
  {
    match n
    case Text(codes) => EncodableIs(codes);
    case Dict(entries) =>
      forall i | 0 <= i < |entries|
        ensures Encodable(entries[i].0) <==> forall c :: c in entries[i].0 ==> c < 0xD800 || c > 0xDFFF {
        EncodableIs(entries[i].0);
      }
      hide Encodable;
      if CleanNode(n) {
        forall e, c | e in entries && c in e.0 ensures c < 0xD800 || c > 0xDFFF {
          var i :| 0 <= i < |entries| && entries[i] == e;
          assert Encodable(entries[i].0);
        }
      } else {
        var i :| 0 <= i < |entries| && !Encodable(entries[i].0);
        assert entries[i] in entries;
      }
    case _ =>
  }

  lemma EncodableIs(codes: seq<CodePoint>)
    ensures Encodable(codes) <==> forall c :: c in codes ==> c < 0xD800 || c > 0xDFFF
  {
    if forall c :: c in codes ==> c < 0xD800 || c > 0xDFFF {
      forall i | 0 <= i < |codes| ensures !(0xD800 <= codes[i] <= 0xDFFF) { assert codes[i] in codes; }
    }
  }

  /** Terminates, visits every node once, and accepts exactly the recursive domain. */
  method ValidateStrictJsonValue(root: Value) returns (ok: bool)
    ensures ok <==> Acceptable(root)
    ensures ok <==>
              && |Below(root)| <= 100000 && Depth(root) <= 128
              && forall n :: n in Below(root) ==>
                   && n != Foreign
                   && (n.Float? ==> n.finite)
                   && (n.Text? ==> forall c :: c in n.codes ==> c < 0xD800 || c > 0xDFFF)
                   && (n.Dict? ==> forall e, c :: e in n.entries && c in e.0 ==> c < 0xD800 || c > 0xDFFF)
  {
    hide Acceptable, Below, Depth, Walking, Pushed, Children, MayPass;
    AcceptableIs(root);
    var stack: Stack := [(root, 0)];
    var visited := 0;
    WalkStarts(root);
    while stack != []
      invariant Walking(root, visited, stack) && visited <= MAX_DECODED_NODES
      decreases MAX_DECODED_NODES - visited
    {
      if visited + 1 > MAX_DECODED_NODES {
        WalkTooLong(root, visited, stack);
        return false;
      }
      var (value, depth) := stack[|stack| - 1];
      assert stack == stack[..|stack| - 1] + [(value, depth)];
      var fine, rest := Visit(stack[..|stack| - 1], value, depth);
      WalkStep(root, visited, stack[..|stack| - 1], value, depth);
      if !fine {
        return false;
      }
      stack, visited := rest, visited + 1;
    }
    WalkEnds(root, visited);
    return true;
  }

  predicate MayPass(value: Value, depth: nat) {
    CleanNode(value) && (value.List? || value.Dict? ==> depth + 1 <= MAX_NESTING_DEPTH)
  }

  lemma WalkStep(root: Value, visited: nat, stack: Stack, value: Value, depth: nat)
    requires Walking(root, visited, stack + [(value, depth)])
    ensures if MayPass(value, depth) then Walking(root, visited + 1, stack + Pushed(Children(value), depth + 1))
            else !Acceptable(root)
  {
    if !MayPass(value, depth) {
      RejectStep(root, visited, stack, value, depth);
    } else if value.List? || value.Dict? {
      ContainerStep(root, visited, stack, value, depth);
    } else {
      LeafStep(root, visited, stack, value, depth);
      assert stack + Pushed(Children(value), depth + 1) == stack;
    }
  }

  // -------------------------------------------------- the order of the walk

  /** The verdict of the walk that pops whichever entry `pick` chooses. */
  function WalkBy(visited: nat, stack: Stack, pick: Stack -> nat): bool
    requires visited <= MAX_DECODED_NODES
    decreases MAX_DECODED_NODES - visited
  {
    if stack == [] then true
    else if visited + 1 > MAX_DECODED_NODES then false
    else
      var k := Chosen(stack, pick);
      MayPass(stack[k].0, stack[k].1) && WalkBy(visited + 1, Popped(stack, k), pick)
  }

  function Chosen(stack: Stack, pick: Stack -> nat): (k: nat)
    requires stack != []
    ensures k < |stack|
  {
    pick(stack) % |stack|
  }

  /** The stack after the entry at `k` gave way to its children. */
  function Popped(stack: Stack, k: nat): Stack
    requires k < |stack|
  {
    Without(stack, k) + Pushed(Children(stack[k].0), stack[k].1 + 1)
  }

  function Without(stack: Stack, k: nat): Stack
    requires k < |stack|
  {
    stack[..k] + stack[k + 1..]
  }

  /** Whatever the order in which entries are popped, the verdict is the recursive domain. */
  lemma OrderDoesNotMatter(root: Value, pick: Stack -> nat)
    ensures WalkBy(0, [(root, 0)], pick) <==> Acceptable(root)
  {
    WalkStarts(root);
    WalkByAccepts(root, 0, [(root, 0)], pick);
  }

  lemma {:induction false} WalkByAccepts(root: Value, visited: nat, stack: Stack, pick: Stack -> nat)
    requires Walking(root, visited, stack) && visited <= MAX_DECODED_NODES
    ensures WalkBy(visited, stack, pick) <==> Acceptable(root)
    decreases MAX_DECODED_NODES - visited
  {
    hide Walking, Acceptable, MayPass, Popped, Chosen, Pushed, Without, Children, Below, Depth, Nodes, Clean;
    if stack == [] {
      WalkEnds(root, visited);
    } else if visited + 1 > MAX_DECODED_NODES {
      WalkTooLong(root, visited, stack);
    } else {
      var k := Chosen(stack, pick);
      WalkPopped(root, visited, stack, k);
      if MayPass(stack[k].0, stack[k].1) {
        WalkByAccepts(root, visited + 1, Popped(stack, k), pick);
      }
    }
  }

  lemma WalkPopped(root: Value, visited: nat, stack: Stack, k: nat)
    requires Walking(root, visited, stack) && k < |stack|
    ensures if MayPass(stack[k].0, stack[k].1) then Walking(root, visited + 1, Popped(stack, k)) else !Acceptable(root)
  {
    hide Walking, Acceptable, MayPass;
    ToTheTop(root, visited, stack, k);
    WalkStep(root, visited, Without(stack, k), stack[k].0, stack[k].1);
  }

  /** Any entry may as well be the top one. */
  lemma ToTheTop(root: Value, visited: nat, stack: Stack, k: nat)
    requires Walking(root, visited, stack) && k < |stack|
    ensures Walking(root, visited, Without(stack, k) + [(stack[k].0, stack[k].1)])
  {
    hide Fits, Nodes, StackNodes, StackFits;
    var a, b, e := stack[..k], stack[k + 1..], stack[k];
    assert stack == a + [e] + b && (e.0, e.1) == e;
    StackNodesConcat(a + [e], b);
    StackTop(a, e);
    StackFitsConcat(a + [e], b);
    StackNodesConcat(a, b);
    StackFitsConcat(a, b);
    StackTop(a + b, e);
    var moved := a + b + [e];
    forall i | 0 <= i < |moved| ensures moved[i].1 <= MAX_NESTING_DEPTH {
      assert moved[i] in stack;
    }
  }

  lemma {:induction false} StackNodesConcat(a: Stack, b: Stack)
    ensures StackNodes(a + b) == StackNodes(a) + StackNodes(b)
    decreases |b|
  {
    hide Nodes;
    if b == [] {
      assert a + b == a;
    } else {
      var n := |b| - 1;
      assert (a + b)[..|a + b| - 1] == a + b[..n];
      StackNodesConcat(a, b[..n]);
    }
  }

  /** One popped entry: reject the node, or push its children one level deeper. */
  method Visit(stack: Stack, value: Value, depth: nat) returns (fine: bool, rest: Stack)
    ensures fine <==> MayPass(value, depth)
    ensures fine ==> rest == stack + Pushed(Children(value), depth + 1)
  {
    rest := stack;
    match value
    case List(items) =>
      if depth + 1 > MAX_NESTING_DEPTH {
        return false, rest;
      }
      return true, stack + Pushed(items, depth + 1);
    case Dict(_) =>
      if depth + 1 > MAX_NESTING_DEPTH {
        return false, rest;
      }
      fine, rest := PushEntries(stack, value, depth + 1);
    case Text(codes) =>
      return Encodable(codes), rest;
    case Float(finite) =>
      return finite, rest;
    case Foreign =>
      return false, rest;
    case _ =>
      return true, rest;
  }

  /** The dictionary branch: keys are checked while the items are pushed. */
  method PushEntries(stack: Stack, value: Value, childDepth: nat) returns (ok: bool, longer: Stack)
    requires value.Dict?
    ensures ok <==> CleanNode(value)
    ensures ok ==> longer == stack + Pushed(Children(value), childDepth)
  {
    var entries := value.entries;
    ghost var children := Children(value);
    longer := stack;
    for i := 0 to |entries|
      invariant longer == stack + Pushed(children[..i], childDepth)
      invariant forall j :: 0 <= j < i ==> Encodable(entries[j].0)
    {
      if !Encodable(entries[i].0) {
        return false, longer;
      }
      assert Pushed(children[..i + 1], childDepth) == Pushed(children[..i], childDepth) + [(children[i], childDepth)];
      longer := longer + [(entries[i].1, childDepth)];
    }
    assert children[..|entries|] == children;
    return true, longer;
  }

  lemma LeafNodes(v: Value)
    requires !v.List? && !v.Dict?
    ensures Nodes(v) == 1
    ensures CleanNode(v) <==> Clean(v)
  {
  }

  lemma StackFitsConcat(a: Stack, b: Stack)
    ensures StackFits(a + b) <==> StackFits(a) && StackFits(b)
  {
    if StackFits(a + b) {
      forall i | 0 <= i < |a| ensures Fits(a[i]) { assert Fits((a + b)[i]); }
      forall i | 0 <= i < |b| ensures Fits(b[i]) { assert Fits((a + b)[|a| + i]); }
    }
  }

  // ------------------------------------------------------ unique object keys

  datatype Object<+V> = Duplicate(key: seq<CodePoint>) | Unique(value: map<seq<CodePoint>, V>)

  /** The object hook keeps every pair, or names a key that occurs twice. */
  method UniqueJsonObject<V>(pairs: seq<(seq<CodePoint>, V)>) returns (r: Object<V>)
    ensures r.Unique? <==> forall i, j :: 0 <= i < j < |pairs| ==> pairs[i].0 != pairs[j].0
    ensures r.Unique? ==> |r.value| == |pairs| &&
                          forall i :: 0 <= i < |pairs| ==> pairs[i].0 in r.value && r.value[pairs[i].0] == pairs[i].1
    ensures r.Duplicate? ==> exists i, j :: 0 <= i < j < |pairs| && pairs[i].0 == pairs[j].0 == r.key
  {
    var value: map<seq<CodePoint>, V> := map[];
    for k := 0 to |pairs|
      invariant |value| == k
      invariant forall key :: key in value ==> exists i :: 0 <= i < k && pairs[i].0 == key
      invariant forall i :: 0 <= i < k ==> pairs[i].0 in value && value[pairs[i].0] == pairs[i].1
      invariant forall i, j :: 0 <= i < j < k ==> pairs[i].0 != pairs[j].0
    {
      var (key, item) := pairs[k];
      if key in value {
        return Duplicate(key);
      }
      value := value[key := item];
    }
    return Unique(value);
  }

  // ---------------------------------------------------- behind the text scan

  /** `v` is a decoding of the text tree `j`: leaves to leaves, containers item by item. */
  ghost predicate Decodes(j: Json, v: Value)
    decreases j
  {
    match j
    case Atom(_) => !v.List? && !v.Dict?
    case Str(_) => v.Text?
    case Arr(_, es) => v.List? && ElementsDecode(es, Children(v))
    case Obj(_, ms) => v.Dict? && MembersDecode(ms, Children(v))
  }
  ghost predicate ElementsDecode(es: Elements, s: seq<Value>)
    decreases es
  {
    match es
    case NoElement => s == []
    case Element(_, value, _, rest) => s != [] && Decodes(value, s[0]) && ElementsDecode(rest, s[1..])
  }
  ghost predicate MembersDecode(ms: Members, s: seq<Value>)
    decreases ms
  {
    match ms
    case NoMember => s == []
    case Member(_, _, _, _, value, _, rest) => s != [] && Decodes(value, s[0]) && MembersDecode(rest, s[1..])
  }

  function Deepest(s: seq<Value>): (d: nat)
    ensures forall i :: 0 <= i < |s| ==> Depth(s[i]) <= d
    ensures d == 0 || exists i :: 0 <= i < |s| && Depth(s[i]) == d
  {
    if s == [] then 0
    else
      var rest := Deepest(s[1..]);
      assert forall i :: 1 <= i < |s| ==> s[i] == s[1..][i - 1];
      Max(Depth(s[0]), rest)
  }

  lemma {:induction false} DecodedDepth(j: Json, v: Value)
    requires Decodes(j, v)
    ensures Depth(v) == Nesting(j)
    decreases j
  {
    match j
    case Atom(_) =>
    case Str(_) =>
    case Arr(_, es) =>
      ElementsDepth(es, Children(v));
      SameDeepest(v);
    case Obj(_, ms) =>
      MembersDepth(ms, Children(v));
      SameDeepest(v);
  }

  lemma SameDeepest(v: Value)
    ensures DepthOf(v, Children(v)) == Deepest(Children(v))
  {
    DepthOfIsDeepest(v, Children(v));
  }

  lemma {:induction false} ElementsDepth(es: Elements, s: seq<Value>)
    requires ElementsDecode(es, s)
    ensures Deepest(s) == ElementsNesting(es)
    decreases es
  {
    if es.Element? {
      DecodedDepth(es.value, s[0]);
      ElementsDepth(es.rest, s[1..]);
    }
  }

  lemma {:induction false} MembersDepth(ms: Members, s: seq<Value>)
    requires MembersDecode(ms, s)
    ensures Deepest(s) == MembersNesting(ms)
    decreases ms
  {
    if ms.Member? {
      DecodedDepth(ms.value, s[0]);
      MembersDepth(ms.rest, s[1..]);
    }
  }

  /** After the text has passed the scan the post-decode depth check cannot fire: what is left to
      reject is the node count and the content of the nodes. */
  lemma DepthCheckCannotFire(before: string, j: Json, after: string, v: Value)
    requires Blank(before) && JsonOk(j) && Blank(after) && Decodes(j, v)
    requires Peak(START, before + (Write(j) + after)) <= MAX_NESTING_DEPTH
    ensures Depth(v) <= MAX_NESTING_DEPTH
    ensures Acceptable(v) <==> Nodes(v) <= MAX_DECODED_NODES && Clean(v)
  {
    PeakIsNesting(before, j, after);
    DecodedDepth(j, v);
  }
}
