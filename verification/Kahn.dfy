/** Kahn's algorithm with a sorted ready set, as graph.hpp runs it over the whole
    graph and store.hpp over the records of a snapshot.  A node's parents need not
    be nodes themselves: such a parent never becomes available. */
module Kahn {
  import opened Ids
  import opened Orders
  import opened Digraph

  predicate Available(parents: Adj, done: set<u64>, n: u64) {
    n in parents && n !in done && parents[n] <= done
  }

  function Ready(parents: Adj, done: set<u64>): set<u64> {
    set n | n in parents && Available(parents, done, n)
  }

  /** Repeatedly emit the least node all of whose parents are already out. */
  ghost function From(parents: Adj, done: seq<u64>): seq<u64>
    decreases |parents.Keys - Elems(done)|
  {
    var r := Ready(parents, Elems(done));
    if r == {} then done
    else
      var next := done + [Least(r)];
      assert Elems(next) == Elems(done) + {Least(r)};
      assert parents.Keys - Elems(next) < parents.Keys - Elems(done);
      SubsetSize(parents.Keys - Elems(next), parents.Keys - Elems(done));
      From(parents, next)
  }

  ghost function Order(parents: Adj): seq<u64> {
    From(parents, [])
  }

  // -------------------------------------------------------------- the algorithm

  /** indeg counts, for every node, its parents outside `done`. */
  ghost predicate Pending(parents: Adj, indeg: map<u64, nat>, done: set<u64>) {
    indeg.Keys == parents.Keys && forall n :: n in parents ==> indeg[n] == |parents[n] - done|
  }

  /** The same halfway through a release: for the nodes in `released`, cur counts as done. */
  ghost predicate Counts(parents: Adj, indeg: map<u64, nat>, done: set<u64>, cur: u64, released: set<u64>) {
    && indeg.Keys == parents.Keys
    && forall n :: n in parents ==>
         indeg[n] == if n in released then |parents[n] - (done + {cur})| else |parents[n] - done|
  }

  ghost predicate Settled(parents: Adj, done: set<u64>) {
    forall n :: n in done ==> n in parents && parents[n] <= done
  }

  /** The counting loop: `indeg` holds the number of parents not yet emitted. */
  method Drain(parents: Adj, children: Adj) returns (order: seq<u64>)
    requires Transposed(parents, children)
    ensures order == Order(parents)
  {
    var indeg: map<u64, nat> := map n | n in parents :: |parents[n]|;
    var ready := set n | n in parents && |parents[n]| == 0;
    order := [];
    InitiallyReady(parents);
    while ready != {}
      invariant Settled(parents, Elems(order))
      invariant Pending(parents, indeg, Elems(order))
      invariant ready == Ready(parents, Elems(order))
      invariant From(parents, order) == Order(parents)
      decreases parents.Keys - Elems(order)
    {
      var cur := Least(ready);
      Emitting(parents, order, cur);
      indeg, ready := Release(parents, children, cur, Elems(order), indeg, ready - {cur});
      order := order + [cur];
    }
  }

  lemma InitiallyReady(parents: Adj)
    ensures Elems<u64>([]) == {}
    ensures Pending(parents, map n | n in parents :: |parents[n]|, {})
    ensures (set n | n in parents && |parents[n]| == 0) == Ready(parents, {})
  {
    forall n | n in parents
      ensures |parents[n]| == |parents[n] - {}| && (|parents[n]| == 0 <==> parents[n] <= {})
    {
      NothingDone(parents[n]);
    }
  }

  lemma NothingDone(ps: set<u64>)
    ensures ps - {} == ps && (|ps| == 0 <==> ps <= {})
  {
    assert |ps| == 0 <==> ps == {};
  }

  lemma Emitting(parents: Adj, order: seq<u64>, cur: u64)
    requires Settled(parents, Elems(order)) && IsLeast(cur, Ready(parents, Elems(order)))
    ensures Available(parents, Elems(order), cur)
    ensures From(parents, order + [cur]) == From(parents, order)
    ensures Settled(parents, Elems(order) + {cur})
    ensures parents.Keys - (Elems(order) + {cur}) < parents.Keys - Elems(order)
    ensures Elems(order + [cur]) == Elems(order) + {cur}
  {
  }

  /** One emitted node: decrement its children, and admit those that reach zero. */
  method Release(parents: Adj, children: Adj, cur: u64, ghost done: set<u64>,
                 indeg0: map<u64, nat>, ready0: set<u64>)
    returns (indeg: map<u64, nat>, ready: set<u64>)
    requires Transposed(parents, children)
    requires Settled(parents, done) && Available(parents, done, cur)
    requires Pending(parents, indeg0, done)
    requires ready0 == Ready(parents, done) - {cur}
    ensures Pending(parents, indeg, done + {cur})
    ensures ready == Ready(parents, done + {cur})
  {
    indeg, ready := indeg0, ready0;
    var next := if cur in children then Sorted(children[cur]) else [];
    ghost var released: set<u64> := {};
    for i := 0 to |next|
      invariant released == Elems(next[..i])
      invariant Counts(parents, indeg, done, cur, released)
      invariant Admitted(parents, ready, done, cur, released)
    {
      var ch := next[i];
      assert Arc(children, cur, ch);
      PrefixStep(next, i);
      ReleaseOne(parents, indeg, ready, done, cur, released, ch);
      indeg := indeg[ch := indeg[ch] - 1];
      ready := if indeg[ch] == 0 then ready + {ch} else ready;
      released := released + {ch};
    }
    PrefixStep(next, |next|);
    assert forall n :: n in released <==> Arc(children, cur, n);
    ReleasedAll(parents, indeg, done, cur, released, ready);
  }

  ghost predicate Admitted(parents: Adj, ready: set<u64>, done: set<u64>, cur: u64, released: set<u64>) {
    forall n :: n in ready <==>
      (n != cur && Available(parents, done, n)) || (n in released && Available(parents, done + {cur}, n))
  }

  lemma ReleaseOne(parents: Adj, indeg: map<u64, nat>, ready: set<u64>, done: set<u64>, cur: u64,
                   released: set<u64>, ch: u64)
    requires Settled(parents, done) && Available(parents, done, cur)
    requires Counts(parents, indeg, done, cur, released) && Admitted(parents, ready, done, cur, released)
    requires Arc(parents, ch, cur) && ch !in released
    ensures indeg[ch] > 0
    ensures Counts(parents, indeg[ch := indeg[ch] - 1], done, cur, released + {ch})
    ensures Admitted(parents, if indeg[ch] == 1 then ready + {ch} else ready, done, cur, released + {ch})
  {
    OneFewer(parents[ch], done, cur);
    CountOne(parents, indeg, done, cur, released, ch);
    AdmitOne(parents, ready, done, cur, released, ch, indeg[ch] == 1);
  }

  lemma CountOne(parents: Adj, indeg: map<u64, nat>, done: set<u64>, cur: u64, released: set<u64>, ch: u64)
    requires Counts(parents, indeg, done, cur, released) && Arc(parents, ch, cur) && ch !in released
    requires |parents[ch] - (done + {cur})| == |parents[ch] - done| - 1
    ensures indeg[ch] == |parents[ch] - done| > 0
    ensures Counts(parents, indeg[ch := indeg[ch] - 1], done, cur, released + {ch})
  {
    assert indeg[ch] == |parents[ch] - done|;
  }

  lemma AdmitOne(parents: Adj, ready: set<u64>, done: set<u64>, cur: u64, released: set<u64>, ch: u64, last: bool)
    requires Available(parents, done, cur) && Admitted(parents, ready, done, cur, released)
    requires Arc(parents, ch, cur) && (last <==> parents[ch] <= done + {cur}) && (ch in done ==> !last)
    ensures Admitted(parents, if last then ready + {ch} else ready, done, cur, released + {ch})
  {
    assert !Available(parents, done, ch) && (last <==> Available(parents, done + {cur}, ch));
  }

  lemma ReleasedAll(parents: Adj, indeg: map<u64, nat>, done: set<u64>, cur: u64, released: set<u64>, ready: set<u64>)
    requires Counts(parents, indeg, done, cur, released)
    requires Available(parents, done, cur)
    requires forall n :: n in released <==> Arc(parents, n, cur)
    requires Admitted(parents, ready, done, cur, released)
    ensures Pending(parents, indeg, done + {cur})
    ensures ready == Ready(parents, done + {cur})
  {
    forall n | n in parents && n !in released ensures parents[n] - done == parents[n] - (done + {cur}) {
      assert cur !in parents[n];
    }
    forall n ensures n in ready <==> Available(parents, done + {cur}, n) {
      if n in parents && n !in released { assert cur !in parents[n]; }
    }
  }

  lemma OneFewer(ps: set<u64>, done: set<u64>, cur: u64)
    requires cur in ps && cur !in done
    ensures |ps - (done + {cur})| == |ps - done| - 1
    ensures |ps - (done + {cur})| == 0 <==> ps <= done + {cur}
  {
    assert ps - done == (ps - (done + {cur})) + {cur};
    assert |ps - (done + {cur})| == 0 <==> ps - (done + {cur}) == {};
  }

  // -------------------------------------------------------- what the order is

  /** Every element was the least ready node when it was emitted. */
  ghost predicate Greedy(parents: Adj, s: seq<u64>) {
    forall i :: 0 <= i < |s| ==> IsLeast(s[i], Ready(parents, Elems(s[..i])))
  }

  lemma {:induction false} FromIsGreedy(parents: Adj, done: seq<u64>)
    requires Greedy(parents, done)
    ensures Greedy(parents, From(parents, done))
    ensures Ready(parents, Elems(From(parents, done))) == {}
    decreases |parents.Keys - Elems(done)|
  {
    var r := Ready(parents, Elems(done));
    if r != {} {
      var next := done + [Least(r)];
      assert Elems(next) == Elems(done) + {Least(r)};
      SubsetSize(parents.Keys - Elems(next), parents.Keys - Elems(done));
      forall i | 0 <= i < |next| ensures IsLeast(next[i], Ready(parents, Elems(next[..i]))) {
        assert next[..i] == done[..i];
        if i == |done| { assert done[..i] == done; }
      }
      FromIsGreedy(parents, next);
    }
  }

  /** A list of all nodes, each once, parents first. */
  ghost predicate Topological(parents: Adj, t: seq<u64>) {
    Distinct(t) && Elems(t) == parents.Keys && ParentsFirst(parents, t)
  }

  ghost predicate ParentsFirst(parents: Adj, t: seq<u64>) {
    forall i :: 0 <= i < |t| ==> t[i] in parents && parents[t[i]] <= Elems(t[..i])
  }

  lemma OrderIsPartial(parents: Adj)
    ensures Distinct(Order(parents)) && ParentsFirst(parents, Order(parents))
    ensures Elems(Order(parents)) <= parents.Keys
    ensures Greedy(parents, Order(parents)) && Ready(parents, Elems(Order(parents))) == {}
  {
    FromIsGreedy(parents, []);
    var s := Order(parents);
    forall i, j | 0 <= i < j < |s| ensures s[i] != s[j] {
      assert s[j] in Ready(parents, Elems(s[..j]));
      assert s[i] in s[..j];
    }
    forall i | 0 <= i < |s| ensures s[i] in parents && parents[s[i]] <= Elems(s[..i]) {
      assert s[i] in Ready(parents, Elems(s[..i]));
    }
  }

  ghost predicate LexBefore(a: seq<u64>, b: seq<u64>) {
    exists k :: 0 <= k < |a| && k < |b| && a[..k] == b[..k] && a[k] < b[k]
  }

  /** If any topological order exists, Kahn's is one, and the lexicographically least. */
  lemma OrderIsLeast(parents: Adj, t: seq<u64>)
    requires Topological(parents, t)
    ensures Topological(parents, Order(parents))
    ensures Order(parents) == t || LexBefore(Order(parents), t)
  {
    var s := Order(parents);
    OrderIsPartial(parents);
    forall n | n in parents ensures n in s {
      var i :| 0 <= i < |t| && t[i] == n;
      PrefixEmitted(parents, t, i + 1);
      assert t[i] in Elems(t[..i + 1]) by { assert t[..i + 1][i] == t[i]; }
    }
    assert Elems(s) == parents.Keys;
    SameLength(s, t);
    if s != t {
      var k := FirstDifference(s, t);
      assert t[k] in Ready(parents, Elems(s[..k])) by {
        assert t[k] !in t[..k];
      }
      assert IsLeast(s[k], Ready(parents, Elems(s[..k])));
      assert s[..k] == t[..k] && s[k] < t[k];
    }
  }

  lemma {:induction false} PrefixEmitted(parents: Adj, t: seq<u64>, k: nat)
    requires k <= |t| && ParentsFirst(parents, t)
    ensures Elems(t[..k]) <= Elems(Order(parents))
  {
    if k > 0 {
      PrefixEmitted(parents, t, k - 1);
      OrderIsPartial(parents);
      assert t[..k] == t[..k - 1] + [t[k - 1]];
      assert t[k - 1] !in Ready(parents, Elems(Order(parents)));
    }
  }

  lemma SameLength(s: seq<u64>, t: seq<u64>)
    requires Distinct(s) && Distinct(t) && Elems(s) == Elems(t)
    ensures |s| == |t|
  {
    DistinctCount(s);
    DistinctCount(t);
  }

  lemma FirstDifference(s: seq<u64>, t: seq<u64>) returns (k: nat)
    requires |s| == |t| && s != t
    ensures k < |s| && s[..k] == t[..k] && s[k] != t[k]
  {
    if s[0] != t[0] {
      k := 0;
    } else {
      assert s == [s[0]] + s[1..] && t == [t[0]] + t[1..];
      var j := FirstDifference(s[1..], t[1..]);
      k := j + 1;
      assert s[..k] == [s[0]] + s[1..][..j] && t[..k] == [t[0]] + t[1..][..j];
    }
  }

  // --------------------------------------------- exactly what is left out, and why

  /** c can never be emitted: it is not a node at all, or it lies on a cycle. */
  ghost predicate Hopeless(parents: Adj, c: u64) {
    c !in parents || Reaches(parents, c, c)
  }

  /** x depends, possibly through others, on something that can never be emitted. */
  ghost predicate Doomed(parents: Adj, x: u64) {
    exists c :: Hopeless(parents, c) && ReachesOrIs(parents, x, c)
  }

  /** Kahn's algorithm leaves out exactly the nodes on, or downstream of, a cycle or
      a missing parent. */
  lemma LeftOutIffDoomed(parents: Adj, x: u64)
    requires x in parents
    ensures x !in Order(parents) <==> Doomed(parents, x)
  {
    OrderIsPartial(parents);
    var s := Order(parents);
    if x !in s {
      FindCause(parents, [x]);
    } else if Doomed(parents, x) {
      var c :| Hopeless(parents, c) && ReachesOrIs(parents, x, c);
      EmittedIsClosed(parents);
      if x != c { ReachStaysIn(parents, x, c, Elems(s)); }
      assert c in s;
      var p :| WalkFromTo(parents, p, c, c) && |p| >= 2;
      WalkGoesBack(parents, p);
      assert false;
    }
  }

  lemma EmittedIsClosed(parents: Adj)
    ensures ClosedUnder(parents, Elems(Order(parents)))
  {
    OrderIsPartial(parents);
    var s := Order(parents);
    forall x, y | x in Elems(s) && Arc(parents, x, y) ensures y in Elems(s) {
      var i :| 0 <= i < |s| && s[i] == x;
      assert y in Elems(s[..i]);
    }
  }

  ghost function Position(s: seq<u64>, x: u64): nat
    requires x in s
    ensures Position(s, x) < |s| && s[Position(s, x)] == x
  {
    var i :| 0 <= i < |s| && s[i] == x;
    i
  }

  /** Walking towards parents moves strictly forward in no order: positions drop. */
  lemma {:induction false} WalkGoesBack(parents: Adj, p: seq<u64>)
    requires Walk(parents, p) && p[0] in Order(parents)
    ensures p[|p| - 1] in Order(parents)
    ensures |p| >= 2 ==> Position(Order(parents), p[|p| - 1]) < Position(Order(parents), p[0])
  {
    OrderIsPartial(parents);
    var s := Order(parents);
    if |p| >= 2 {
      var q := p[..|p| - 1];
      WalkGoesBack(parents, q);
      var y, z := p[|p| - 2], p[|p| - 1];
      assert Arc(parents, y, z);
      var i := Position(s, y);
      assert z in Elems(s[..i]);
      var j :| 0 <= j < i && s[j] == z;
      assert Position(s, z) == j;
    }
  }

  /** Follow un-emitted parents from the end of a walk until one is missing or repeats. */
  lemma {:induction false} FindCause(parents: Adj, p: seq<u64>)
    requires Walk(parents, p) && Distinct(p)
    requires forall x :: x in p ==> x in parents && x !in Order(parents)
    ensures Doomed(parents, p[0])
    decreases |parents| - |p|
  {
    OrderIsPartial(parents);
    var x := p[|p| - 1];
    assert x !in Ready(parents, Elems(Order(parents)));
    var y :| y in parents[x] && y !in Order(parents);
    var q := p + [y];
    assert forall i :: 0 <= i < |p| - 1 ==> Arc(parents, p[i], p[i + 1]);
    forall i | 0 <= i < |q| - 1 ensures Arc(parents, q[i], q[i + 1]) {
      if i == |p| - 1 { assert q[i] == x && q[i + 1] == y; }
    }
    WalkIsReach(parents, q);
    if y !in parents {
      assert Hopeless(parents, y);
    } else if y in p {
      var k :| 0 <= k < |p| && p[k] == y;
      var w := q[k..];
      forall i | 0 <= i < |w| - 1 ensures Arc(parents, w[i], w[i + 1]) {
        assert Arc(parents, q[k + i], q[k + i + 1]);
      }
      WalkIsReach(parents, w);
      assert Hopeless(parents, y);
    } else {
      DistinctCount(q);
      assert Elems(q) <= parents.Keys;
      SubsetSize(Elems(q), parents.Keys);
      FindCause(parents, q);
    }
  }

  /** When all parents are nodes, the order is complete exactly on acyclic graphs. */
  lemma CompleteIffAcyclic(parents: Adj)
    requires forall x, y :: Arc(parents, x, y) ==> y in parents
    ensures |Order(parents)| == |parents| <==> Acyclic(parents)
    ensures Acyclic(parents) ==> Topological(parents, Order(parents))
  {
    OrderIsPartial(parents);
    var s := Order(parents);
    DistinctCount(s);
    if Acyclic(parents) {
      forall x | x in parents ensures x in s {
        LeftOutIffDoomed(parents, x);
        if Doomed(parents, x) {
          var c :| Hopeless(parents, c) && ReachesOrIs(parents, x, c);
          assert ClosedUnder(parents, parents.Keys);
          if x != c { ReachStaysIn(parents, x, c, parents.Keys); }
        }
      }
      assert Elems(s) == parents.Keys;
    } else {
      var x :| Reaches(parents, x, x);
      var p :| WalkFromTo(parents, p, x, x) && |p| >= 2;
      assert Arc(parents, p[0], p[1]);
      assert Hopeless(parents, x);
      LeftOutIffDoomed(parents, x);
      SubsetSize(Elems(s), parents.Keys);
    }
  }
}
