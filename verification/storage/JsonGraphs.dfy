/** Object graphs as the JSON guards meet them. */
module JsonGraphs {
  // Nodes may be shared and may lead back to themselves. Check is the verdict of the depth-first walk, and it is proved to
  // be the right verdict in terms of paths.

  import opened Results
  import opened Text

  type Ref = nat

  datatype Value =
    | VNull
    | VString(s: Text)
    | VBool(b: bool)
    | VNumber(finite: bool)
    | VBigInt
    | VFunction
    | VSymbol
    | VUndefined
    | VRef(ref: Ref)

  datatype Entry = Entry(key: Text, value: Value)

  datatype Node = ArrayNode(items: seq<Value>) | ObjectNode(entries: seq<Entry>)

  type Graph = map<Ref, Node>

  datatype ShapeError =
    | NotFinite
    | IsBigInt
    | NotRepresentable
    | CircularReference
    | ReservedKey
    | MustBePlainObject
    | MustBeArray
    | MustNotBeNull

  // __proto__, constructor and prototype, in code units.
  const DANGEROUS_JSON_KEYS: set<Text> := {
    [0x5F, 0x5F, 0x70, 0x72, 0x6F, 0x74, 0x6F, 0x5F, 0x5F],
    [0x63, 0x6F, 0x6E, 0x73, 0x74, 0x72, 0x75, 0x63, 0x74, 0x6F, 0x72],
    [0x70, 0x72, 0x6F, 0x74, 0x6F, 0x74, 0x79, 0x70, 0x65]
  }

  /** One step of the walk below a node: whether its key is reserved, and the value under it. */
  datatype Child = Child(reserved: bool, value: Value)

  function ItemChildren(items: seq<Value>): (cs: seq<Child>)
    ensures |cs| == |items| && forall i :: 0 <= i < |items| ==> cs[i] == Child(false, items[i])
  {
    seq(|items|, i requires 0 <= i < |items| => Child(false, items[i]))
  }

  function EntryChildren(entries: seq<Entry>): (cs: seq<Child>)
    ensures |cs| == |entries| && forall i :: 0 <= i < |entries| ==> cs[i] == Child(entries[i].key in DANGEROUS_JSON_KEYS, entries[i].value)
  {
    seq(|entries|, i requires 0 <= i < |entries| => Child(entries[i].key in DANGEROUS_JSON_KEYS, entries[i].value))
  }

  function Children(node: Node): seq<Child> {
    match node
    case ArrayNode(items) => ItemChildren(items)
    case ObjectNode(entries) => EntryChildren(entries)
  }

  ghost predicate InGraph(g: Graph, v: Value) {
    v.VRef? ==> v.ref in g
  }

  /** Every reference leads to a node. */
  ghost predicate Closed(g: Graph) {
    forall r, i :: r in g && 0 <= i < |Children(g[r])| ==> InGraph(g, Children(g[r])[i].value)
  }

  // ----- the walk -----

  function LeafProblem(v: Value): Option<ShapeError> {
    match v
    case VNumber(finite) => if finite then None else Some(NotFinite)
    case VBigInt => Some(IsBigInt)
    case VFunction => Some(NotRepresentable)
    case VSymbol => Some(NotRepresentable)
    case VUndefined => Some(NotRepresentable)
    case _ => None
  }

  /** How many nodes are not on the current path. */
  ghost function Unvisited(g: Graph, seen: set<Ref>): nat {
    |g.Keys - seen|
  }

  lemma VisitingShrinks(g: Graph, seen: set<Ref>, r: Ref)
    requires r in g && r !in seen
    ensures Unvisited(g, seen + {r}) < Unvisited(g, seen)
  {
    assert g.Keys - seen == (g.Keys - (seen + {r})) + {r};
  }

  /** The first problem the depth-first walk meets below v, with the nodes of the current path in seen. */
  ghost function Check(g: Graph, v: Value, seen: set<Ref>): Option<ShapeError>
    requires Closed(g) && InGraph(g, v)
    decreases Unvisited(g, seen), 0
  {
    if !v.VRef? then LeafProblem(v)
    else if v.ref in seen then Some(CircularReference)
    else
      VisitingShrinks(g, seen, v.ref);
      CheckAll(g, Children(g[v.ref]), seen + {v.ref})
  }

  ghost function CheckAll(g: Graph, cs: seq<Child>, seen: set<Ref>): Option<ShapeError>
    requires Closed(g) && forall i :: 0 <= i < |cs| ==> InGraph(g, cs[i].value)
    decreases Unvisited(g, seen), |cs| + 1
  {
    if cs == [] then None
    else if cs[0].reserved then Some(ReservedKey)
    else
      var first := Check(g, cs[0].value, seen);
      if first != None then first else CheckAll(g, cs[1..], seen)
  }

  lemma {:induction false} CheckAllPasses(g: Graph, cs: seq<Child>, seen: set<Ref>)
    requires Closed(g) && forall i :: 0 <= i < |cs| ==> InGraph(g, cs[i].value)
    ensures CheckAll(g, cs, seen) == None
       <==> forall i :: 0 <= i < |cs| ==> !cs[i].reserved && Check(g, cs[i].value, seen) == None
  {
    if cs != [] {
      CheckAllPasses(g, cs[1..], seen);
      assert forall i :: 1 <= i < |cs| ==> cs[i] == cs[1..][i - 1];
    }
  }

  // ----- paths -----

  /** An item or an entry of node a is a reference to node b. */
  ghost predicate Edge(g: Graph, a: Ref, b: Ref) {
    a in g && match g[a]
      case ArrayNode(items) => exists i :: 0 <= i < |items| && items[i] == VRef(b)
      case ObjectNode(entries) => exists i :: 0 <= i < |entries| && entries[i].value == VRef(b)
  }

  lemma EdgeIsChild(g: Graph, a: Ref, b: Ref)
    ensures Edge(g, a, b) <==> a in g && exists i :: 0 <= i < |Children(g[a])| && Children(g[a])[i].value == VRef(b)
  {
    if a in g {
      var cs := Children(g[a]);
      match g[a] {
        case ArrayNode(items) =>
          assert forall i :: 0 <= i < |items| ==> cs[i].value == items[i];
        case ObjectNode(entries) =>
          assert forall i :: 0 <= i < |entries| ==> cs[i].value == entries[i].value;
      }
    }
  }

  ghost predicate IsPath(g: Graph, p: seq<Ref>, a: Ref, b: Ref) {
    && |p| >= 1 && p[0] == a && p[|p| - 1] == b
    && forall i :: 0 <= i < |p| - 1 ==> Edge(g, p[i], p[i + 1])
  }

  ghost predicate Reaches(g: Graph, a: Ref, b: Ref) {
    exists p :: IsPath(g, p, a, b)
  }

  ghost predicate OnCycle(g: Graph, a: Ref) {
    exists p :: IsPath(g, p, a, a) && |p| >= 2
  }

  /** Null, a string, a boolean, a finite number, or a reference to a node. */
  predicate Representable(v: Value) {
    v == VNull || v.VString? || v.VBool? || v == VNumber(true) || v.VRef?
  }

  /** Every item or entry is representable, and no entry has one of the three reserved names. */
  ghost predicate NodeIsClean(node: Node) {
    match node
    case ArrayNode(items) => forall i :: 0 <= i < |items| ==> Representable(items[i])
    case ObjectNode(entries) =>
      forall i :: 0 <= i < |entries| ==>
        && entries[i].key != Ascii("__proto__")
        && entries[i].key != Ascii("constructor")
        && entries[i].key != Ascii("prototype")
        && Representable(entries[i].value)
  }

  /** Which error each leaf that is not representable gives, and that the others give none. */
  lemma LeafErrors(v: Value)
    ensures LeafProblem(v) == None <==> Representable(v)
    ensures LeafProblem(v) == Some(IsBigInt) <==> v == VBigInt
    ensures LeafProblem(v) == Some(NotFinite) <==> v == VNumber(false)
    ensures LeafProblem(v) == Some(NotRepresentable) <==> v == VFunction || v == VSymbol || v == VUndefined
  {}

  /** The walk reports them so, wherever it meets them. */
  lemma LeafVerdicts(g: Graph, seen: set<Ref>, s: Text, b: bool)
    requires Closed(g)
    ensures Check(g, VNull, seen) == None && Check(g, VString(s), seen) == None && Check(g, VBool(b), seen) == None
    ensures Check(g, VNumber(true), seen) == None && Check(g, VNumber(false), seen) == Some(NotFinite)
    ensures Check(g, VBigInt, seen) == Some(IsBigInt) && Check(g, VUndefined, seen) == Some(NotRepresentable)
    ensures Check(g, VFunction, seen) == Some(NotRepresentable) && Check(g, VSymbol, seen) == Some(NotRepresentable)
  {}

  lemma ReservedNames(key: Text)
    ensures key in DANGEROUS_JSON_KEYS <==> key == Ascii("__proto__") || key == Ascii("constructor") || key == Ascii("prototype")
  {
    assert Ascii("__proto__") == [0x5F, 0x5F, 0x70, 0x72, 0x6F, 0x74, 0x6F, 0x5F, 0x5F];
    assert Ascii("constructor") == [0x63, 0x6F, 0x6E, 0x73, 0x74, 0x72, 0x75, 0x63, 0x74, 0x6F, 0x72];
    assert Ascii("prototype") == [0x70, 0x72, 0x6F, 0x74, 0x6F, 0x74, 0x79, 0x70, 0x65];
  }

  lemma CleanChildren(node: Node)
    ensures NodeIsClean(node) <==>
      forall i :: 0 <= i < |Children(node)| ==> !Children(node)[i].reserved && LeafProblem(Children(node)[i].value) == None
  {
    var cs := Children(node);
    match node {
      case ArrayNode(items) =>
        forall i | 0 <= i < |items| ensures cs[i].value == items[i] && (LeafProblem(items[i]) == None <==> Representable(items[i])) {
          LeafErrors(items[i]);
        }
      case ObjectNode(entries) =>
        forall i | 0 <= i < |entries|
          ensures cs[i].value == entries[i].value && (LeafProblem(cs[i].value) == None <==> Representable(cs[i].value))
          ensures cs[i].reserved <==>
            entries[i].key == Ascii("__proto__") || entries[i].key == Ascii("constructor") || entries[i].key == Ascii("prototype")
        {
          LeafErrors(entries[i].value);
          ReservedNames(entries[i].key);
        }
        hide Ascii, LeafProblem, Representable;
    }
  }

  /** What a value must be for the walk to pass: clean and acyclic wherever it leads, and leading to nothing on the path. */
  ghost predicate SafeOffPath(g: Graph, v: Value, seen: set<Ref>) {
    && Representable(v)
    && (v.VRef? ==> forall b :: Reaches(g, v.ref, b) ==> b in g && NodeIsClean(g[b]) && !OnCycle(g, b) && b !in seen)
  }

  /** The meaning of a passing check: representable leaves, no reserved key and no cycle anywhere below the value. */
  ghost predicate Serializable(g: Graph, v: Value) {
    && Representable(v)
    && (v.VRef? ==> forall b :: Reaches(g, v.ref, b) ==> b in g && NodeIsClean(g[b]) && !OnCycle(g, b))
  }

  lemma ReachesSelf(g: Graph, a: Ref)
    ensures Reaches(g, a, a)
  {
    assert IsPath(g, [a], a, a);
  }

  lemma Prepend(g: Graph, a: Ref, b: Ref, p: seq<Ref>, c: Ref)
    requires Edge(g, a, b) && IsPath(g, p, b, c)
    ensures IsPath(g, [a] + p, a, c)
  {}

  lemma Append(g: Graph, p: seq<Ref>, a: Ref, b: Ref, c: Ref)
    requires IsPath(g, p, a, b) && Edge(g, b, c)
    ensures IsPath(g, p + [c], a, c)
  {}

  lemma EdgeThenReaches(g: Graph, a: Ref, b: Ref, c: Ref)
    requires Edge(g, a, b) && Reaches(g, b, c)
    ensures Reaches(g, a, c)
    ensures c == a ==> OnCycle(g, a)
  {
    var p :| IsPath(g, p, b, c);
    Prepend(g, a, b, p, c);
    assert |[a] + p| >= 2;
  }

  /** A node reached from a is a itself or is reached from one of its successors. */
  lemma FirstStep(g: Graph, a: Ref, c: Ref, p: seq<Ref>)
    requires IsPath(g, p, a, c) && |p| >= 2
    ensures Edge(g, a, p[1]) && Reaches(g, p[1], c)
  {
    assert IsPath(g, p[1..], p[1], c);
  }

  // ----- the verdict is right -----

  /** What is safe below each child, with the node itself on the path, is safe below the node. */
  lemma SafeBelow(g: Graph, n: Ref, seen: set<Ref>)
    requires n in g && n !in seen && NodeIsClean(g[n])
    requires forall i :: 0 <= i < |Children(g[n])| ==> SafeOffPath(g, Children(g[n])[i].value, seen + {n})
    ensures SafeOffPath(g, VRef(n), seen)
  {
    hide NodeIsClean, Edge;
    forall b | Reaches(g, n, b) ensures b in g && NodeIsClean(g[b]) && !OnCycle(g, b) && b !in seen {
      var p :| IsPath(g, p, n, b);
      if |p| >= 2 {
        FirstStep(g, n, b, p);
        SafeThroughChild(g, n, p[1], b, seen);
      } else if OnCycle(g, n) {
        var q :| IsPath(g, q, n, n) && |q| >= 2;
        FirstStep(g, n, n, q);
        SafeThroughChild(g, n, q[1], n, seen);
      }
    }
  }

  lemma SafeThroughChild(g: Graph, n: Ref, m: Ref, b: Ref, seen: set<Ref>)
    requires Edge(g, n, m) && Reaches(g, m, b)
    requires n in g && forall i :: 0 <= i < |Children(g[n])| ==> SafeOffPath(g, Children(g[n])[i].value, seen + {n})
    ensures b in g && NodeIsClean(g[b]) && !OnCycle(g, b) && b !in seen && b != n
  {
    EdgeIsChild(g, n, m);
    hide NodeIsClean, Edge, Children, OnCycle, Reaches;
    var i :| 0 <= i < |Children(g[n])| && Children(g[n])[i].value == VRef(m);
    assert SafeOffPath(g, Children(g[n])[i].value, seen + {n});
  }

  lemma {:induction false} PassingIsSafe(g: Graph, v: Value, seen: set<Ref>)
    requires Closed(g) && InGraph(g, v) && Check(g, v, seen) == None
    ensures SafeOffPath(g, v, seen)
    decreases Unvisited(g, seen)
  {
    LeafErrors(v);
    if v.VRef? {
      var n, seen' := v.ref, seen + {v.ref};
      var cs := Children(g[n]);
      VisitingShrinks(g, seen, n);
      CheckAllPasses(g, cs, seen');
      CleanChildren(g[n]);
      hide NodeIsClean, Representable, SafeOffPath;
      forall i | 0 <= i < |cs| ensures SafeOffPath(g, cs[i].value, seen') && LeafProblem(cs[i].value) == None {
        PassingIsSafe(g, cs[i].value, seen');
        SafeLeaf(g, cs[i].value, seen');
      }
      SafeBelow(g, n, seen);
    }
  }

  lemma SafeLeaf(g: Graph, v: Value, seen: set<Ref>)
    requires SafeOffPath(g, v, seen)
    ensures LeafProblem(v) == None
  {
    LeafErrors(v);
  }

  lemma {:induction false} SafeIsPassing(g: Graph, v: Value, seen: set<Ref>)
    requires Closed(g) && InGraph(g, v) && SafeOffPath(g, v, seen)
    ensures Check(g, v, seen) == None
    decreases Unvisited(g, seen)
  {
    LeafErrors(v);
    if v.VRef? {
      var n, seen' := v.ref, seen + {v.ref};
      var cs := Children(g[n]);
      ReachesSelf(g, n);
      CleanChildren(g[n]);
      VisitingShrinks(g, seen, n);
      forall i | 0 <= i < |cs| ensures !cs[i].reserved && Check(g, cs[i].value, seen') == None {
        LeafErrors(cs[i].value);
        if cs[i].value.VRef? {
          var m := cs[i].value.ref;
          EdgeIsChild(g, n, m);
          forall b | Reaches(g, m, b) ensures b in g && NodeIsClean(g[b]) && !OnCycle(g, b) && b !in seen' {
            EdgeThenReaches(g, n, m, b);
          }
        }
        SafeIsPassing(g, cs[i].value, seen');
      }
      CheckAllPasses(g, cs, seen');
    }
  }

  /**
   Started with an empty path, the walk passes exactly the serializable values. Sharing is no obstacle: only a path
   that returns to its own start is.
   */
  lemma CheckIsRight(g: Graph, v: Value)
    requires Closed(g) && InGraph(g, v)
    ensures Check(g, v, {}) == None <==> Serializable(g, v)
  {
    if Check(g, v, {}) == None {
      PassingIsSafe(g, v, {});
    }
    if Serializable(g, v) {
      SafeIsPassing(g, v, {});
    }
  }

  lemma {:induction false} PathStaysInGraph(g: Graph, p: seq<Ref>, a: Ref, b: Ref)
    requires Closed(g) && a in g && IsPath(g, p, a, b)
    ensures b in g
  {
    if |p| >= 2 {
      EdgeIsChild(g, p[0], p[1]);
      PathStaysInGraph(g, p[1..], p[1], b);
    }
  }

  /** Sharing is never an obstacle: in a clean graph without cycles everything passes, however often a node is referred to. */
  lemma SharedNodesAreAccepted(g: Graph, v: Value)
    requires Closed(g) && InGraph(g, v) && Representable(v)
    requires forall r :: r in g ==> NodeIsClean(g[r]) && !OnCycle(g, r)
    ensures Check(g, v, {}) == None
  {
    if v.VRef? {
      forall b | Reaches(g, v.ref, b) ensures b in g {
        var p :| IsPath(g, p, v.ref, b);
        PathStaysInGraph(g, p, v.ref, b);
      }
    }
    CheckIsRight(g, v);
  }

  /** When every node of the path leads to v, a circular reference is reported only where there is a cycle. */
  lemma {:induction false} CircularMeansCycle(g: Graph, v: Value, seen: set<Ref>)
    requires Closed(g) && InGraph(g, v) && v.VRef?
    requires forall s :: s in seen ==> exists p :: IsPath(g, p, s, v.ref) && |p| >= 2
    requires Check(g, v, seen) == Some(CircularReference)
    ensures exists b :: Reaches(g, v.ref, b) && OnCycle(g, b)
    decreases Unvisited(g, seen)
  {
    var n := v.ref;
    if n in seen {
      ReachesSelf(g, n);
    } else {
      VisitingShrinks(g, seen, n);
      var seen' := seen + {n};
      var i := FirstFailure(g, Children(g[n]), seen', CircularReference);
      var c := Children(g[n])[i];
      var m := c.value.ref;
      EdgeIsChild(g, n, m);
      forall s | s in seen' ensures exists p :: IsPath(g, p, s, m) && |p| >= 2 {
        if s == n {
          Append(g, [n], n, n, m);
        } else {
          var p :| IsPath(g, p, s, n) && |p| >= 2;
          Append(g, p, s, n, m);
          assert |p + [m]| >= 2;
        }
      }
      CircularMeansCycle(g, c.value, seen');
      var b :| Reaches(g, m, b) && OnCycle(g, b);
      EdgeThenReaches(g, n, m, b);
    }
  }

  lemma {:induction false} FirstFailure(g: Graph, cs: seq<Child>, seen: set<Ref>, e: ShapeError) returns (i: nat)
    requires Closed(g) && forall i :: 0 <= i < |cs| ==> InGraph(g, cs[i].value)
    requires CheckAll(g, cs, seen) == Some(e) && e != ReservedKey
    ensures i < |cs| && Check(g, cs[i].value, seen) == Some(e)
  {
    if Check(g, cs[0].value, seen) != None {
      i := 0;
    } else {
      i := FirstFailure(g, cs[1..], seen, e);
      i := i + 1;
    }
  }
}
