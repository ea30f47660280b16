/** The derivation DAG of graph.hpp: arcs run parent -> child, kept in both
    directions and in step. */
module DerivationGraph {
  import opened Ids
  import opened Orders
  import opened Digraph
  import Kahn

  datatype GraphError =
    | ZeroNode
    | ZeroEndpoint
    | SelfDependency
    | UnregisteredEndpoint
    | DuplicateArc
    | WouldCycle
    | NotADag

  datatype Outcome<+T> = Ok(value: T) | Threw(error: GraphError)

  ghost function ArcSet(g: Adj): set<(u64, u64)> {
    set x, y | x in g && y in g[x] :: (x, y)
  }

  // ------------------------------------------------ the stack search, step by step

  /** All of `out` and the stack is reached; all successors are out or on the stack. */
  ghost predicate Frontier(g: Adj, id: u64, out: set<u64>, stack: seq<u64>) {
    && (forall x :: x in out || x in stack ==> Reaches(g, id, x))
    && (forall y :: Arc(g, id, y) ==> y in out || y in stack)
    && (forall x, y :: x in out && Arc(g, x, y) ==> y in out || y in stack)
  }

  lemma FrontierStart(g: Adj, id: u64, stack: seq<u64>)
    requires forall x :: x in stack <==> Arc(g, id, x)
    ensures Frontier(g, id, {}, stack)
  {
    forall x | x in stack ensures Reaches(g, id, x) { ReachArc(g, id, x); }
  }

  lemma FrontierStep(g: Adj, id: u64, out: set<u64>, rest: seq<u64>, cur: u64, more: seq<u64>)
    requires Frontier(g, id, out, rest + [cur])
    requires forall x :: x in more <==> Arc(g, cur, x)
    ensures cur in Range(g)
    ensures cur in out ==> Frontier(g, id, out, rest)
    ensures Frontier(g, id, out + {cur}, rest + more)
  {
    assert cur in rest + [cur];
    InReachSet(g, id);
    assert cur in ReachSet(g, id);
    forall x | x in more ensures Reaches(g, id, x) { ReachThenArc(g, id, cur, x); }
    assert forall x :: x in rest + [cur] <==> x in rest || x == cur;
    assert forall x :: x in rest + more <==> x in rest || x in more;
  }

  lemma FrontierEnd(g: Adj, id: u64, out: set<u64>)
    requires Frontier(g, id, out, [])
    ensures forall x :: x in out <==> Reaches(g, id, x)
  {
    forall x | Reaches(g, id, x) ensures x in out {
      var y := FirstArc(g, id, x);
      if y != x { ReachStaysIn(g, y, x, out); }
    }
  }

  /** Everything reached from id, by the stack search ancestors() and descendants() share. */
  method Collect(g: Adj, id: u64) returns (r: seq<u64>)
    ensures Increasing(r)
    ensures forall x :: x in r <==> Reaches(g, id, x)
  {
    var out: set<u64> := {};
    var stack := if id in g then Sorted(g[id]) else [];
    FrontierStart(g, id, stack);
    while stack != []
      invariant Frontier(g, id, out, stack)
      decreases Range(g) - out, |stack|
    {
      out, stack := PopOne(g, id, out, stack);
    }
    FrontierEnd(g, id, out);
    r := Sorted(out);
  }

  /** Take the top of the stack; if it is new, its successors go on. */
  method PopOne(g: Adj, ghost id: u64, out: set<u64>, stack: seq<u64>) returns (out1: set<u64>, stack1: seq<u64>)
    requires Frontier(g, id, out, stack) && stack != []
    ensures Frontier(g, id, out1, stack1)
    ensures Range(g) - out1 < Range(g) - out || (out1 == out && |stack1| < |stack|)
  {
    var cur, rest := stack[|stack| - 1], stack[..|stack| - 1];
    assert stack == rest + [cur];
    var more := if cur in g then Sorted(g[cur]) else [];
    FrontierStep(g, id, out, rest, cur, more);
    if cur !in out {
      out1, stack1 := out + {cur}, rest + more;
    } else {
      out1, stack1 := out, rest;
    }
  }

  /** The cycle search: `expanded` nodes have all their successors visited, none the target. */
  ghost predicate Seeking(g: Adj, from: u64, target: u64, visited: set<u64>, expanded: set<u64>, stack: seq<u64>) {
    && (forall x :: x in stack || x in visited || x in expanded ==> ReachesOrIs(g, from, x))
    && (forall x :: x in visited || x == from ==> x in stack || x in expanded)
    && (forall x, y :: x in expanded && Arc(g, x, y) ==> y in visited && y != target)
    && visited <= Range(g)
  }

  lemma SearchStep(g: Adj, from: u64, target: u64, visited: set<u64>, expanded: set<u64>, rest: seq<u64>,
                   cur: u64, next: seq<u64>, unvisited: seq<u64>)
    requires Seeking(g, from, target, visited, expanded, rest + [cur])
    requires forall x :: x in next <==> Arc(g, cur, x)
    requires forall x :: x in unvisited <==> x in next && x !in visited
    ensures target in next ==> Reaches(g, from, target)
    ensures target !in next ==> Seeking(g, from, target, visited + Elems(next), expanded + {cur}, rest + unvisited)
  {
    assert cur in rest + [cur];
    forall x | x in next ensures Reaches(g, from, x) && x in Range(g) { ReachThenArc(g, from, cur, x); }
    assert forall x :: x in rest + [cur] <==> x in rest || x == cur;
    assert forall x :: x in rest + unvisited <==> x in rest || x in unvisited;
  }

  lemma SearchEnd(g: Adj, from: u64, target: u64, visited: set<u64>, expanded: set<u64>)
    requires Seeking(g, from, target, visited, expanded, [])
    ensures !Reaches(g, from, target)
  {
    assert ClosedUnder(g, expanded);
    if Reaches(g, from, target) {
      var y := LastArc(g, from, target);
      if y != from { ReachStaysIn(g, from, y, expanded); }
    }
  }

  class ProvenanceGraph {
    var nodes: set<StateId>
    var parents: Adj
    var children: Adj
    var arcCount: nat

    /** Both maps list the same nodes and hold the same arcs, turned around. */
    ghost predicate Shaped()
      reads this
    {
      && nodes == parents.Keys && nodes == children.Keys
      && 0 !in nodes
      && Transposed(parents, children)
      && arcCount == |ArcSet(parents)|
    }

    ghost predicate Valid()
      reads this
    {
      Shaped() && Acyclic(parents)
    }

    constructor ()
      ensures Valid() && parents == map[]
    {
      nodes, parents, children, arcCount := {}, map[], map[], 0;
      new;
      forall x ensures !Reaches(parents, x, x) {
        if Reaches(parents, x, x) { var y := LastArc(parents, x, x); }
      }
    }

    /** Zero is refused, a known node is left alone, a new one starts without arcs. */
    method AddNode(id: StateId) returns (r: Outcome<bool>)
      requires Valid()
      modifies this
      ensures Valid()
      ensures r == if id == 0 then Threw(ZeroNode) else Ok(id !in old(nodes))
      ensures nodes == if id == 0 then old(nodes) else old(nodes) + {id}
      ensures parents == if id == 0 || id in old(nodes) then old(parents) else old(parents)[id := {}]
      ensures children == if id == 0 || id in old(nodes) then old(children) else old(children)[id := {}]
    {
      if id == 0 { return Threw(ZeroNode); }
      if id in nodes { return Ok(false); }
      nodes := nodes + {id};
      ghost var before := parents;
      parents := parents[id := {}];
      children := children[id := {}];
      assert forall x, y :: Arc(parents, x, y) <==> Arc(before, x, y);
      assert ArcSet(parents) == ArcSet(before);
      forall x ensures !Reaches(parents, x, x) { ReachMonotone2(parents, before, x, x); }
      r := Ok(true);
    }

    /** Every legal arc is accepted and no other; the DAG stays a DAG. */
    method AddArc(parent: StateId, child: StateId) returns (r: Outcome<bool>)
      requires Valid()
      modifies this
      ensures Valid() && nodes == old(nodes)
      ensures r == if parent == 0 || child == 0 then Threw(ZeroEndpoint)
                   else if parent == child then Threw(SelfDependency)
                   else if parent !in nodes || child !in nodes then Threw(UnregisteredEndpoint)
                   else if old(Arc(children, parent, child)) then Threw(DuplicateArc)
                   else if old(Reaches(children, child, parent)) then Threw(WouldCycle)
                   else Ok(true)
      ensures r.Threw? ==> parents == old(parents) && children == old(children) && arcCount == old(arcCount)
      ensures r.Ok? ==> parents == old(parents)[child := old(parents)[child] + {parent}]
      ensures r.Ok? ==> children == old(children)[parent := old(children)[parent] + {child}]
      ensures r.Ok? ==> arcCount == old(arcCount) + 1
    {
      if parent == 0 || child == 0 { return Threw(ZeroEndpoint); }
      if parent == child { return Threw(SelfDependency); }
      if parent !in nodes || child !in nodes { return Threw(UnregisteredEndpoint); }
      if child in children[parent] { return Threw(DuplicateArc); }
      var cyclic := WouldCreateCycle(parent, child);
      if cyclic { return Threw(WouldCycle); }
      ghost var before, beforeC := parents, children;
      children := children[parent := children[parent] + {child}];
      parents := parents[child := parents[child] + {parent}];
      arcCount := arcCount + 1;
      ReachTransposed(beforeC, before, child, parent);
      assert !Arc(before, child, parent);
      OneMoreArc(before, parents, child, parent);
      NewArcCycle(before, parents, child, parent);
      r := Ok(true);
    }

    /** Children of a node, sorted; none for an unknown node. */
    function Children(id: StateId): (r: seq<StateId>)
      reads this
      ensures Increasing(r) && forall x :: x in r <==> Arc(children, id, x)
    {
      if id in children then Sorted(children[id]) else []
    }

    /** The transitive inputs of a node, sorted, never the node itself. */
    method Ancestors(id: StateId) returns (r: seq<StateId>)
      requires Valid()
      ensures Increasing(r) && id !in r
      ensures forall x :: x in r <==> Reaches(parents, id, x)
      ensures forall x :: x in r <==> Reaches(children, x, id)
    {
      if id !in nodes {
        r := [];
        forall x ensures !Reaches(parents, id, x) {
          if Reaches(parents, id, x) { var y := FirstArc(parents, id, x); }
        }
      } else {
        r := Collect(parents, id);
      }
      forall x ensures Reaches(parents, id, x) <==> Reaches(children, x, id) {
        ReachTransposed(parents, children, id, x);
      }
    }

    /** The transitive derivatives of a node, sorted, never the node itself. */
    method Descendants(id: StateId) returns (r: seq<StateId>)
      requires Valid()
      ensures Increasing(r) && id !in r
      ensures forall x :: x in r <==> Reaches(children, id, x)
      ensures forall x :: x in r <==> Reaches(parents, x, id)
    {
      if id !in nodes {
        r := [];
        forall x ensures !Reaches(children, id, x) {
          if Reaches(children, id, x) { var y := FirstArc(children, id, x); }
        }
      } else {
        r := Collect(children, id);
      }
      forall x ensures Reaches(children, id, x) <==> Reaches(parents, x, id) {
        ReachTransposed(parents, children, x, id);
      }
    }

    /** Inputs two nodes have in common. */
    method SharedAncestors(a: StateId, b: StateId) returns (r: seq<StateId>)
      requires Valid()
      ensures Increasing(r)
      ensures forall x :: x in r <==> Reaches(parents, a, x) && Reaches(parents, b, x)
    {
      var aa := Ancestors(a);
      var ab := Ancestors(b);
      r := Sorted(Elems(aa) * Elems(ab));
    }

    method Roots() returns (r: seq<StateId>)
      requires Valid()
      ensures Increasing(r)
      ensures forall x :: x in r <==> x in nodes && forall y :: !Arc(children, y, x)
    {
      r := Sorted(set n | n in nodes && parents[n] == {});
      forall x | x in nodes ensures parents[x] == {} <==> forall y :: !Arc(children, y, x) {
        if parents[x] != {} {
          var y :| y in parents[x];
          assert Arc(parents, x, y);
        }
      }
    }

    /** Kahn's algorithm: refuses exactly the cyclic graphs, and otherwise returns the
        lexicographically least order in which every arc goes forward. */
    method TopologicalOrder() returns (r: Outcome<seq<StateId>>)
      requires Shaped()
      ensures r == if Acyclic(parents) then Ok(Kahn.Order(parents)) else Threw(NotADag)
      ensures r.Ok? ==> Kahn.Topological(parents, r.value)
      ensures r.Ok? ==> forall t :: Kahn.Topological(parents, t) ==> r.value == t || Kahn.LexBefore(r.value, t)
    {
      var order := Kahn.Drain(parents, children);
      forall x, y | Arc(parents, x, y) ensures y in parents { assert Arc(children, y, x); }
      Kahn.CompleteIffAcyclic(parents);
      if |order| != |nodes| { return Threw(NotADag); }
      forall t | Kahn.Topological(parents, t) ensures order == t || Kahn.LexBefore(order, t) {
        Kahn.OrderIsLeast(parents, t);
      }
      r := Ok(order);
    }

    method IsAcyclic() returns (b: bool)
      requires Shaped()
      ensures b <==> Acyclic(parents)
    {
      var t := TopologicalOrder();
      b := t.Ok?;
    }

    /** Would parent -> child close a cycle: does the child already reach the parent? */
    method WouldCreateCycle(parent: StateId, child: StateId) returns (b: bool)
      ensures b <==> Reaches(children, child, parent)
    {
      var visited: set<StateId> := {};
      var stack := [child];
      ghost var expanded: set<StateId> := {};
      while stack != []
        invariant Seeking(children, child, parent, visited, expanded, stack)
        decreases Range(children) - visited, |stack|
      {
        var cur := stack[|stack| - 1];
        var rest := stack[..|stack| - 1];
        assert stack == rest + [cur];
        var next := Children(cur);
        var unvisited := Unvisited(next, visited);
        SearchStep(children, child, parent, visited, expanded, rest, cur, next, unvisited);
        if parent in next { return true; }
        stack := rest + unvisited;
        visited := visited + Elems(next);
        expanded := expanded + {cur};
      }
      SearchEnd(children, child, parent, visited, expanded);
      b := false;
    }

    static function Unvisited(next: seq<StateId>, visited: set<StateId>): (r: seq<StateId>)
      ensures forall x :: x in r <==> x in next && x !in visited
      ensures Elems(next) <= visited ==> r == []
    {
      if next == [] then []
      else (if next[0] in visited then [] else [next[0]]) + Unvisited(next[1..], visited)
    }
  }

  lemma ReachMonotone2(g: Adj, h: Adj, a: u64, b: u64)
    requires forall x, y :: Arc(g, x, y) <==> Arc(h, x, y)
    ensures Reaches(g, a, b) <==> Reaches(h, a, b)
  {
    if Reaches(g, a, b) { ReachMonotone(g, h, a, b); }
    if Reaches(h, a, b) { ReachMonotone(h, g, a, b); }
  }

  lemma OneMoreArc(g: Adj, h: Adj, u: u64, v: u64)
    requires u in g && v !in g[u] && h == g[u := g[u] + {v}]
    ensures forall x, y :: Arc(h, x, y) <==> Arc(g, x, y) || (x == u && y == v)
    ensures |ArcSet(h)| == |ArcSet(g)| + 1
  {
    assert ArcSet(h) == ArcSet(g) + {(u, v)};
    assert (u, v) !in ArcSet(g);
  }
}
