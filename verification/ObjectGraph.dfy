/**
 The check that a request body, a graph of objects that may share or form cycles, has no
 forbidden key anywhere.
 */
module ObjectGraph {

  const FORBIDDEN_KEYS: set<string> := {"__proto__", "constructor", "prototype"}

  datatype Value = Primitive | Null | Reference(target: Object)

  /** An object or array with its own enumerable keys, in order, and the value under each. */
  class Object {
    var keys: seq<string>
    var values: seq<Value>

    constructor (keys: seq<string>, values: seq<Value>)
      ensures this.keys == keys && this.values == values
    {
      this.keys := keys;
      this.values := values;
    }
  }

  /** A finite part of the heap that no reference leaves. */
  ghost predicate Closed(heap: set<Object>)
    reads heap
  {
    forall o :: o in heap ==>
      && |o.values| == |o.keys|
      && forall i :: 0 <= i < |o.values| && o.values[i].Reference? ==> o.values[i].target in heap
  }

  ghost predicate Safe(o: Object)
    reads o
  {
    forall i :: 0 <= i < |o.keys| ==> o.keys[i] !in FORBIDDEN_KEYS
  }

  /** Following the references in the given slots, one after the other, leads from `from` to `to`. */
  ghost predicate Leads(from: Object, slots: seq<nat>, to: Object, heap: set<Object>)
    requires Closed(heap) && from in heap
    reads heap
    decreases slots
  {
    if slots == [] then from == to
    else
      && slots[0] < |from.values|
      && from.values[slots[0]].Reference?
      && Leads(from.values[slots[0]].target, slots[1..], to, heap)
  }

  ghost predicate Reachable(from: Object, to: Object, heap: set<Object>)
    requires Closed(heap) && from in heap
    reads heap
  {
    exists slots :: Leads(from, slots, to, heap)
  }

  /** What the traversal guarantees of the objects it has added: safe, and their references visited. */
  ghost predicate Settled(added: set<Object>, visited: set<Object>)
    reads added
  {
    forall o :: o in added ==>
      Safe(o) && forall i :: 0 <= i < |o.values| && o.values[i].Reference? ==> o.values[i].target in visited
  }

  lemma SettledMore(added: set<Object>, visited: set<Object>, more: set<Object>, after: set<Object>)
    requires Settled(added, visited) && Settled(more, after) && visited <= after
    ensures Settled(added + more, after)
  {
  }

  class Visitor {
    var visited: set<Object>

    constructor ()
      ensures visited == {}
    {
      visited := {};
    }

    /** Depth first; false is the exception, which ends the whole traversal. */
    method Visit(current: Object, ghost heap: set<Object>) returns (ok: bool)
      requires Closed(heap) && current in heap && visited <= heap
      modifies this
      ensures old(visited) <= visited <= heap && current in visited
      ensures ok ==> Settled(visited - old(visited), visited)
      ensures !ok ==> exists bad :: bad in heap && Reachable(current, bad, heap) && !Safe(bad)
      decreases heap - visited
    {
      if current in visited {
        return true;
      }
      visited := visited + {current};
      ghost var start := visited;
      for i := 0 to |current.keys|
        invariant start <= visited <= heap
        invariant forall j :: 0 <= j < i ==> current.keys[j] !in FORBIDDEN_KEYS
        invariant forall j :: 0 <= j < i && current.values[j].Reference? ==> current.values[j].target in visited
        invariant Settled(visited - start, visited)
      {
        if current.keys[i] in FORBIDDEN_KEYS {
          SelfReachable(current, heap);
          return false;
        }
        if current.values[i].Reference? {
          ghost var before := visited;
          ok := Visit(current.values[i].target, heap);
          if !ok {
            ghost var bad :| bad in heap && Reachable(current.values[i].target, bad, heap) && !Safe(bad);
            StepReachable(current, i, bad, heap);
            return false;
          }
          SettledMore(before - start, before, visited - before, visited);
          assert visited - start == (before - start) + (visited - before);
        }
      }
      assert visited - old(visited) == (visited - start) + {current};
      return true;
    }
  }

  lemma SelfReachable(o: Object, heap: set<Object>)
    requires Closed(heap) && o in heap
    ensures Reachable(o, o, heap)
  {
    assert Leads(o, [], o, heap);
  }

  lemma StepReachable(o: Object, i: nat, to: Object, heap: set<Object>)
    requires Closed(heap) && o in heap && i < |o.values| && o.values[i].Reference?
    requires Reachable(o.values[i].target, to, heap)
    ensures Reachable(o, to, heap)
  {
    var slots :| Leads(o.values[i].target, slots, to, heap);
    assert ([i] + slots)[1..] == slots;
    assert Leads(o, [i] + slots, to, heap);
  }

  /** A visited set closed under references holds everything reachable from its members. */
  lemma {:induction false} ClosedHoldsReachable(from: Object, slots: seq<nat>, to: Object, visited: set<Object>,
                                                heap: set<Object>)
    requires Closed(heap) && from in visited && visited <= heap && Settled(visited, visited)
    requires Leads(from, slots, to, heap)
    ensures to in visited
    decreases slots
  {
    if slots != [] {
      ClosedHoldsReachable(from.values[slots[0]].target, slots[1..], to, visited, heap);
    }
  }

  /**
   Terminates on every finite graph, shared or cyclic, and accepts exactly when no object
   reachable from the value has a forbidden key.  A value that is no object is accepted.
   */
  method AssertSafeObjectGraph(value: Value, ghost heap: set<Object>) returns (ok: bool)
    requires Closed(heap) && (value.Reference? ==> value.target in heap)
    ensures ok <==> (value.Reference? ==> forall o :: o in heap && Reachable(value.target, o, heap) ==> Safe(o))
  {
    if !value.Reference? {
      return true;
    }
    var visitor := new Visitor();
    ok := visitor.Visit(value.target, heap);
    if ok {
      ghost var visited := visitor.visited;
      assert Settled(visited - {}, visited) && visited - {} == visited;
      forall o | o in heap && Reachable(value.target, o, heap) ensures Safe(o) {
        var slots :| Leads(value.target, slots, o, heap);
        ClosedHoldsReachable(value.target, slots, o, visited, heap);
      }
    }
  }
}
