/** Reachability in a finite directed graph given by its adjacency map. */
module Digraph {
  import opened Ids

  type Adj = map<u64, set<u64>>

  predicate Arc(g: Adj, x: u64, y: u64) {
    x in g && y in g[x]
  }

  ghost predicate Walk(g: Adj, p: seq<u64>) {
    p != [] && forall i :: 0 <= i < |p| - 1 ==> Arc(g, p[i], p[i + 1])
  }

  ghost predicate WalkFromTo(g: Adj, p: seq<u64>, a: u64, b: u64) {
    Walk(g, p) && p[0] == a && p[|p| - 1] == b
  }

  /** b is reached from a by one or more arcs. */
  ghost predicate Reaches(g: Adj, a: u64, b: u64) {
    exists p :: WalkFromTo(g, p, a, b) && |p| >= 2
  }

  ghost predicate ReachesOrIs(g: Adj, a: u64, b: u64) {
    a == b || Reaches(g, a, b)
  }

  ghost predicate Acyclic(g: Adj) {
    forall x :: !Reaches(g, x, x)
  }

  /** h has every arc of g, turned around, and no other. */
  ghost predicate Transposed(g: Adj, h: Adj) {
    forall x, y :: Arc(g, x, y) <==> Arc(h, y, x)
  }

  ghost predicate ClosedUnder(g: Adj, s: set<u64>) {
    forall x, y :: x in s && Arc(g, x, y) ==> y in s
  }

  lemma ReachArc(g: Adj, a: u64, b: u64)
    requires Arc(g, a, b)
    ensures Reaches(g, a, b)
  {
    assert WalkFromTo(g, [a, b], a, b);
  }

  lemma WalkIsReach(g: Adj, p: seq<u64>)
    requires Walk(g, p)
    ensures ReachesOrIs(g, p[0], p[|p| - 1])
    ensures |p| >= 2 ==> Reaches(g, p[0], p[|p| - 1])
  {
    assert WalkFromTo(g, p, p[0], p[|p| - 1]);
  }

  lemma WalkJoin(g: Adj, p: seq<u64>, q: seq<u64>)
    requires Walk(g, p) && Walk(g, q) && p[|p| - 1] == q[0]
    ensures WalkFromTo(g, p + q[1..], p[0], q[|q| - 1])
  {
    var w := p + q[1..];
    forall i | 0 <= i < |w| - 1 ensures Arc(g, w[i], w[i + 1]) {
      if i >= |p| - 1 {
        assert w[i] == q[i - |p| + 1] && w[i + 1] == q[i - |p| + 2];
      }
    }
  }

  lemma ReachTrans(g: Adj, a: u64, b: u64, c: u64)
    requires Reaches(g, a, b) && Reaches(g, b, c)
    ensures Reaches(g, a, c)
  {
    var p :| WalkFromTo(g, p, a, b) && |p| >= 2;
    var q :| WalkFromTo(g, q, b, c) && |q| >= 2;
    WalkJoin(g, p, q);
  }

  lemma ReachThenArc(g: Adj, a: u64, b: u64, c: u64)
    requires ReachesOrIs(g, a, b) && Arc(g, b, c)
    ensures Reaches(g, a, c)
  {
    ReachArc(g, b, c);
    if a != b { ReachTrans(g, a, b, c); }
  }

  lemma ArcThenReach(g: Adj, a: u64, b: u64, c: u64)
    requires Arc(g, a, b) && ReachesOrIs(g, b, c)
    ensures Reaches(g, a, c)
  {
    ReachArc(g, a, b);
    if b != c { ReachTrans(g, a, b, c); }
  }

  lemma LastArc(g: Adj, a: u64, b: u64) returns (y: u64)
    requires Reaches(g, a, b)
    ensures ReachesOrIs(g, a, y) && Arc(g, y, b)
  {
    var p :| WalkFromTo(g, p, a, b) && |p| >= 2;
    y := p[|p| - 2];
    assert Arc(g, p[|p| - 2], p[|p| - 1]);
    assert Walk(g, p[..|p| - 1]);
    WalkIsReach(g, p[..|p| - 1]);
  }

  lemma FirstArc(g: Adj, a: u64, b: u64) returns (y: u64)
    requires Reaches(g, a, b)
    ensures Arc(g, a, y) && ReachesOrIs(g, y, b)
  {
    var p :| WalkFromTo(g, p, a, b) && |p| >= 2;
    y := p[1];
    assert Arc(g, p[0], p[1]);
    var q := p[1..];
    forall i | 0 <= i < |q| - 1 ensures Arc(g, q[i], q[i + 1]) { assert Arc(g, p[i + 1], p[i + 2]); }
    WalkIsReach(g, q);
  }

  lemma {:induction false} WalkStaysIn(g: Adj, p: seq<u64>, s: set<u64>)
    requires Walk(g, p) && ClosedUnder(g, s) && p[0] in s
    ensures p[|p| - 1] in s
  {
    if |p| > 1 {
      assert Arc(g, p[0], p[1]);
      var q := p[1..];
      forall i | 0 <= i < |q| - 1 ensures Arc(g, q[i], q[i + 1]) {
        assert Arc(g, p[i + 1], p[i + 2]);
      }
      WalkStaysIn(g, q, s);
    }
  }

  /** A closed set is never left. */
  lemma ReachStaysIn(g: Adj, a: u64, b: u64, s: set<u64>)
    requires Reaches(g, a, b) && ClosedUnder(g, s) && a in s
    ensures b in s
  {
    var p :| WalkFromTo(g, p, a, b) && |p| >= 2;
    WalkStaysIn(g, p, s);
  }

  function Backwards(p: seq<u64>): seq<u64> {
    seq(|p|, i requires 0 <= i < |p| => p[|p| - 1 - i])
  }

  /** Reachability in the transposed graph is reachability the other way round. */
  lemma ReachTransposed(g: Adj, h: Adj, a: u64, b: u64)
    requires Transposed(g, h)
    ensures Reaches(g, a, b) <==> Reaches(h, b, a)
  {
    if Reaches(g, a, b) {
      var p :| WalkFromTo(g, p, a, b) && |p| >= 2;
      WalkBackwards(g, h, p);
    }
    if Reaches(h, b, a) {
      var p :| WalkFromTo(h, p, b, a) && |p| >= 2;
      WalkBackwards(h, g, p);
    }
  }

  lemma WalkBackwards(g: Adj, h: Adj, p: seq<u64>)
    requires Transposed(g, h) && Walk(g, p)
    ensures WalkFromTo(h, Backwards(p), p[|p| - 1], p[0])
  {
    var q := Backwards(p);
    forall i | 0 <= i < |q| - 1 ensures Arc(h, q[i], q[i + 1]) {
      var j := |p| - 2 - i;
      assert Arc(g, p[j], p[j + 1]);
      assert q[i] == p[j + 1] && q[i + 1] == p[j];
    }
  }

  /** A walk in g plus the arc u -> v either avoids that arc, or splits at it. */
  lemma {:induction false} WalkWithNewArc(g: Adj, h: Adj, u: u64, v: u64, p: seq<u64>)
    requires forall x, y :: Arc(h, x, y) <==> Arc(g, x, y) || (x == u && y == v)
    requires Walk(h, p)
    ensures ReachesOrIs(g, p[0], p[|p| - 1]) ||
            (ReachesOrIs(g, p[0], u) && ReachesOrIs(g, v, p[|p| - 1]))
    ensures |p| >= 2 ==> (Reaches(g, p[0], p[|p| - 1]) ||
                          (ReachesOrIs(g, p[0], u) && ReachesOrIs(g, v, p[|p| - 1])))
  {
    if |p| > 1 {
      assert Arc(h, p[|p| - 2], p[|p| - 1]);
      WalkWithNewArc(g, h, u, v, p[..|p| - 1]);
      if Arc(g, p[|p| - 2], p[|p| - 1]) {
        if ReachesOrIs(g, p[0], p[|p| - 2]) {
          ReachThenArc(g, p[0], p[|p| - 2], p[|p| - 1]);
        } else {
          ReachThenArc(g, v, p[|p| - 2], p[|p| - 1]);
        }
      }
    }
  }

  /** Adding u -> v closes a cycle exactly when v already reaches u. */
  lemma NewArcCycle(g: Adj, h: Adj, u: u64, v: u64)
    requires Acyclic(g)
    requires forall x, y :: Arc(h, x, y) <==> Arc(g, x, y) || (x == u && y == v)
    ensures Acyclic(h) <==> !ReachesOrIs(g, v, u)
  {
    if ReachesOrIs(g, v, u) {
      ReachMonotone(g, h, v, u);
      ArcThenReach(h, u, v, u);
    } else {
      forall x ensures !Reaches(h, x, x) {
        if Reaches(h, x, x) {
          var p :| WalkFromTo(h, p, x, x) && |p| >= 2;
          WalkWithNewArc(g, h, u, v, p);
          if v != x && x != u { ReachTrans(g, v, x, u); }
          assert false;
        }
      }
    }
  }

  lemma ReachMonotone(g: Adj, h: Adj, a: u64, b: u64)
    requires forall x, y :: Arc(g, x, y) ==> Arc(h, x, y)
    requires ReachesOrIs(g, a, b)
    ensures ReachesOrIs(h, a, b)
    ensures Reaches(g, a, b) ==> Reaches(h, a, b)
  {
    if Reaches(g, a, b) {
      var p :| WalkFromTo(g, p, a, b) && |p| >= 2;
      assert WalkFromTo(h, p, a, b);
    }
  }

  /** The nodes reached from a, as a set (a itself only when it lies on a cycle). */
  ghost function ReachSet(g: Adj, a: u64): set<u64> {
    set x | x in Range(g) && Reaches(g, a, x)
  }

  ghost function Range(g: Adj): set<u64> {
    set x, y | x in g && y in g[x] :: y
  }

  lemma InReachSet(g: Adj, a: u64)
    ensures forall x :: x in ReachSet(g, a) <==> Reaches(g, a, x)
  {
    forall x | Reaches(g, a, x) ensures x in Range(g) {
      var y := LastArc(g, a, x);
    }
  }

  /** Giving g a new source node (nothing points at it) changes nobody else's reach. */
  lemma ReachWithNewSource(g: Adj, h: Adj, n: u64, a: u64, b: u64)
    requires forall x, y :: x != n ==> (Arc(h, x, y) <==> Arc(g, x, y))
    requires forall x :: !Arc(h, x, n) && !Arc(g, n, x)
    requires a != n
    ensures Reaches(h, a, b) <==> Reaches(g, a, b)
  {
    if Reaches(h, a, b) {
      var p :| WalkFromTo(h, p, a, b) && |p| >= 2;
      forall i | 0 <= i < |p| - 1 ensures Arc(g, p[i], p[i + 1]) {
        assert Arc(h, p[i], p[i + 1]);
        if i > 0 { assert Arc(h, p[i - 1], p[i]); }
      }
      assert WalkFromTo(g, p, a, b);
    }
    if Reaches(g, a, b) {
      var p :| WalkFromTo(g, p, a, b) && |p| >= 2;
      forall i | 0 <= i < |p| - 1 ensures Arc(h, p[i], p[i + 1]) {
        assert Arc(g, p[i], p[i + 1]);
      }
      assert WalkFromTo(h, p, a, b);
    }
  }

  lemma AcyclicWithNewSource(g: Adj, h: Adj, n: u64)
    requires forall x, y :: x != n ==> (Arc(h, x, y) <==> Arc(g, x, y))
    requires forall x :: !Arc(h, x, n) && !Arc(g, n, x)
    requires Acyclic(g)
    ensures Acyclic(h)
  {
    forall x ensures !Reaches(h, x, x) {
      if x != n {
        ReachWithNewSource(g, h, n, x, x);
      } else if Reaches(h, n, n) {
        var y := LastArc(h, n, n);
        assert false;
      }
    }
  }
}
