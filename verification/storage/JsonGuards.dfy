/** The guards run before a Json column is written: a recursive walk that keeps the current path in one mutable set. */
module JsonGuards {
  import opened Results
  import opened JsonGraphs
  import Text

  /** The set the source calls seen. */
  class PathSet {
    var refs: set<Ref>

    constructor ()
      ensures refs == {}
    {
      refs := {};
    }

    method Add(r: Ref)
      modifies this
      ensures refs == old(refs) + {r}
    {
      refs := refs + {r};
    }

    method Delete(r: Ref)
      modifies this
      ensures refs == old(refs) - {r}
    {
      refs := refs - {r};
    }
  }

  /** The branches on the kinds of value that are not objects. */
  method CheckLeaf(value: Value) returns (thrown: Option<ShapeError>)
    requires !value.VRef?
    ensures thrown == LeafProblem(value)
  {
    if value == VNull || value.VString? || value.VBool? {
      return None;
    }
    if value.VNumber? {
      return if !value.finite then Some(NotFinite) else None;
    }
    if value == VBigInt {
      return Some(IsBigInt);
    }
    return Some(NotRepresentable);
  }

  /** Throws exactly the first problem of the walk; on a normal return the set is as it was. */
  method AssertJsonSerializable(g: Graph, value: Value, seen: PathSet) returns (thrown: Option<ShapeError>)
    requires Closed(g) && InGraph(g, value)
    modifies seen
    ensures thrown == Check(g, value, old(seen.refs))
    ensures thrown == None ==> seen.refs == old(seen.refs)
    decreases Unvisited(g, seen.refs), 0
  {
    if !value.VRef? {
      thrown := CheckLeaf(value);
      return;
    }
    if value.ref in seen.refs {
      return Some(CircularReference);
    }
    VisitingShrinks(g, seen.refs, value.ref);
    seen.Add(value.ref);
    var cs := Children(g[value.ref]);
    assert forall i :: 0 <= i < |cs| ==> InGraph(g, cs[i].value);
    thrown := AssertChildren(g, cs, seen);
    if thrown != None {
      return;
    }
    seen.Delete(value.ref);
    assert seen.refs == old(seen.refs);
  }

  /** The loop over one node's items or entries; an entry's key is checked before its value is entered. */
  method AssertChildren(g: Graph, cs: seq<Child>, seen: PathSet) returns (thrown: Option<ShapeError>)
    requires Closed(g) && forall i :: 0 <= i < |cs| ==> InGraph(g, cs[i].value)
    modifies seen
    ensures thrown == CheckAll(g, cs, old(seen.refs))
    ensures thrown == None ==> seen.refs == old(seen.refs)
    decreases Unvisited(g, seen.refs), 1
  {
    for i := 0 to |cs|
      invariant seen.refs == old(seen.refs)
      invariant CheckAll(g, cs, seen.refs) == CheckAll(g, cs[i..], seen.refs)
    {
      if cs[i].reserved {
        return Some(ReservedKey);
      }
      thrown := AssertJsonSerializable(g, cs[i].value, seen);
      if thrown != None {
        return;
      }
    }
    return None;
  }

  // ----- the three public guards -----

  ghost predicate IsPlainObject(g: Graph, value: Value) {
    value.VRef? && value.ref in g && g[value.ref].ObjectNode?
  }

  method AssertJsonSafePlainObject(g: Graph, value: Value) returns (thrown: Option<ShapeError>)
    requires Closed(g) && InGraph(g, value)
    ensures thrown == None <==> IsPlainObject(g, value) && Serializable(g, value)
    ensures !IsPlainObject(g, value) <==> thrown == Some(MustBePlainObject)
    ensures thrown != Some(MustBeArray)
    ensures thrown == Some(CircularReference) ==> exists b :: Reaches(g, value.ref, b) && OnCycle(g, b)
  {
    if !value.VRef? || g[value.ref].ArrayNode? {
      return Some(MustBePlainObject);
    }
    var seen := new PathSet();
    thrown := AssertJsonSerializable(g, value, seen);
    CheckIsRight(g, value);
    CheckKinds(g, value, {});
    if thrown == Some(CircularReference) {
      CircularMeansCycle(g, value, {});
    }
  }

  method AssertJsonSafeObjectArray(g: Graph, value: Value) returns (thrown: Option<ShapeError>)
    requires Closed(g) && InGraph(g, value)
    ensures thrown == None <==>
      && value.VRef? && g[value.ref].ArrayNode?
      && forall i :: 0 <= i < |g[value.ref].items| ==> IsPlainObject(g, g[value.ref].items[i]) && Serializable(g, g[value.ref].items[i])
    ensures thrown == Some(MustBeArray) <==> !(value.VRef? && g[value.ref].ArrayNode?)
  {
    if !value.VRef? || !g[value.ref].ArrayNode? {
      return Some(MustBeArray);
    }
    var items := g[value.ref].items;
    for i := 0 to |items|
      invariant forall j :: 0 <= j < i ==> IsPlainObject(g, items[j]) && Serializable(g, items[j])
    {
      assert Children(g[value.ref])[i].value == items[i];
      thrown := AssertJsonSafePlainObject(g, items[i]);
      if thrown != None {
        return;
      }
    }
    return None;
  }

  method AssertJsonSerializableValue(g: Graph, value: Value) returns (thrown: Option<ShapeError>)
    requires Closed(g) && InGraph(g, value)
    ensures thrown == None <==> value != VNull && value != VUndefined && Serializable(g, value)
    ensures thrown == Some(MustNotBeNull) <==> value == VNull || value == VUndefined
    ensures value == VBigInt ==> thrown == Some(IsBigInt)
    ensures value == VNumber(false) ==> thrown == Some(NotFinite)
    ensures value == VFunction || value == VSymbol ==> thrown == Some(NotRepresentable)
  {
    if value == VNull || value == VUndefined {
      return Some(MustNotBeNull);
    }
    var seen := new PathSet();
    thrown := AssertJsonSerializable(g, value, seen);
    CheckIsRight(g, value);
    CheckKinds(g, value, {});
  }

  /** The walk itself never complains about the outer shape. */
  lemma {:induction false} CheckKinds(g: Graph, v: Value, seen: set<Ref>)
    requires Closed(g) && InGraph(g, v)
    ensures Check(g, v, seen) !in {Some(MustBePlainObject), Some(MustBeArray), Some(MustNotBeNull)}
    decreases Unvisited(g, seen), 0
  {
    if v.VRef? && v.ref !in seen {
      VisitingShrinks(g, seen, v.ref);
      CheckAllKinds(g, Children(g[v.ref]), seen + {v.ref});
    }
  }

  lemma {:induction false} CheckAllKinds(g: Graph, cs: seq<Child>, seen: set<Ref>)
    requires Closed(g) && forall i :: 0 <= i < |cs| ==> InGraph(g, cs[i].value)
    ensures CheckAll(g, cs, seen) !in {Some(MustBePlainObject), Some(MustBeArray), Some(MustNotBeNull)}
    decreases Unvisited(g, seen), |cs| + 1
  {
    if cs != [] {
      CheckKinds(g, cs[0].value, seen);
      CheckAllKinds(g, cs[1..], seen);
    }
  }

  // ----- an example of sharing -----

  /** A diamond: two fields of one object holding the same array. */
  lemma SharedObjectIsAccepted(key: Text.Text, other: Text.Text, s: Text.Text)
    requires key !in DANGEROUS_JSON_KEYS && other !in DANGEROUS_JSON_KEYS
    ensures var g: Graph := map[0 := ObjectNode([Entry(key, VRef(1)), Entry(other, VRef(1))]), 1 := ArrayNode([VString(s)])];
            Serializable(g, VRef(0))
  {
    var g: Graph := map[0 := ObjectNode([Entry(key, VRef(1)), Entry(other, VRef(1))]), 1 := ArrayNode([VString(s)])];
    assert Closed(g);
    var cs := Children(g[0]);
    assert CheckAll(g, Children(g[1]), {0, 1}) == None by {
      CheckAllPasses(g, Children(g[1]), {0, 1});
    }
    assert {0} + {1} == {0, 1};
    assert Check(g, VRef(1), {0}) == None;
    CheckAllPasses(g, cs, {0});
    assert {} + {0} == {0};
    assert Check(g, VRef(0), {}) == None;
    CheckIsRight(g, VRef(0));
  }
}
