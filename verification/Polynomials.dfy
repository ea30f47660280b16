/** Polynomials over the two-element field, and congruence modulo one of them. */
module Polynomials {
  /** The coefficient of x^i at i. */
  type Poly = seq<bool>

  predicate At(p: Poly, i: nat) {
    i < |p| && p[i]
  }

  ghost predicate Same(p: Poly, q: Poly) {
    forall i: nat :: At(p, i) == At(q, i)
  }

  function Plus(p: Poly, q: Poly): (r: Poly)
    ensures forall i: nat :: At(r, i) == (At(p, i) != At(q, i))
  {
    seq(if |p| <= |q| then |q| else |p|, i requires 0 <= i => At(p, i) != At(q, i))
  }

  function TimesX(p: Poly): (r: Poly)
    ensures !At(r, 0) && forall i: nat :: At(r, i + 1) == At(p, i)
  {
    [false] + p
  }

  /** p times x^n. */
  function Raise(p: Poly, n: nat): (r: Poly)
    ensures forall i: nat :: At(r, i) == (i >= n && At(p, i - n))
  {
    seq(n, i => false) + p
  }

  /** The product: k0 g + x (k1 + k2 x + ...) g. */
  function Times(k: Poly, g: Poly): Poly {
    if k == [] then [] else Plus(if k[0] then g else [], TimesX(Times(k[1..], g)))
  }

  /** They differ by a multiple of g. */
  ghost predicate Congruent(p: Poly, q: Poly, g: Poly) {
    exists k: Poly :: Same(Plus(p, q), Times(k, g))
  }

  function Tail(p: Poly): (r: Poly)
    ensures forall i: nat :: At(r, i) == At(p, i + 1)
  {
    if p == [] then [] else p[1..]
  }

  lemma TimesAt(k: Poly, g: Poly, i: nat)
    ensures At(Times(k, g), i) == ((At(k, 0) && At(g, i)) != (i > 0 && At(Times(Tail(k), g), i - 1)))
  {
    if k != [] && i > 0 {
      assert At(TimesX(Times(k[1..], g)), (i - 1) + 1) == At(Times(k[1..], g), i - 1);
    }
  }

  lemma {:induction false} TimesPlus(k: Poly, l: Poly, g: Poly, i: nat)
    ensures At(Times(Plus(k, l), g), i) == (At(Times(k, g), i) != At(Times(l, g), i))
    decreases i
  {
    TimesAt(k, g, i);
    TimesAt(l, g, i);
    TimesAt(Plus(k, l), g, i);
    if i > 0 {
      TimesPlus(Tail(k), Tail(l), g, i - 1);
      TailPlus(k, l);
    }
  }

  lemma TailPlus(k: Poly, l: Poly)
    ensures Tail(Plus(k, l)) == Plus(Tail(k), Tail(l))
  {
    var a, b := Tail(Plus(k, l)), Plus(Tail(k), Tail(l));
    assert |a| == |b|;
    forall i | 0 <= i < |a| ensures a[i] == b[i] {
      assert a[i] == At(a, i) == At(Plus(k, l), i + 1);
      assert b[i] == At(b, i);
    }
  }

  lemma TimesXTimes(k: Poly, g: Poly)
    ensures Same(Times(TimesX(k), g), TimesX(Times(k, g)))
  {
    assert TimesX(k)[1..] == k;
  }

  lemma CongruentSame(p: Poly, q: Poly, g: Poly)
    requires Same(p, q)
    ensures Congruent(p, q, g)
  {
    assert Same(Plus(p, q), Times([], g));
  }

  lemma CongruentTrans(p: Poly, q: Poly, r: Poly, g: Poly)
    requires Congruent(p, q, g) && Congruent(q, r, g)
    ensures Congruent(p, r, g)
  {
    var k: Poly :| Same(Plus(p, q), Times(k, g));
    var l: Poly :| Same(Plus(q, r), Times(l, g));
    forall i: nat ensures At(Plus(p, r), i) == At(Times(Plus(k, l), g), i) {
      TimesPlus(k, l, g, i);
      assert At(Plus(p, q), i) == At(Times(k, g), i) && At(Plus(q, r), i) == At(Times(l, g), i);
    }
    assert Same(Plus(p, r), Times(Plus(k, l), g));
  }

  lemma CongruentSum(p: Poly, q: Poly, r: Poly, g: Poly)
    requires Congruent(p, q, g)
    ensures Congruent(Plus(p, r), Plus(q, r), g)
  {
    var k: Poly :| Same(Plus(p, q), Times(k, g));
    forall i: nat ensures At(Plus(Plus(p, r), Plus(q, r)), i) == At(Times(k, g), i) {
      assert At(Plus(p, q), i) == At(Times(k, g), i);
    }
    assert Same(Plus(Plus(p, r), Plus(q, r)), Times(k, g));
  }

  lemma CongruentTimesX(p: Poly, q: Poly, g: Poly)
    requires Congruent(p, q, g)
    ensures Congruent(TimesX(p), TimesX(q), g)
  {
    var k: Poly :| Same(Plus(p, q), Times(k, g));
    TimesXTimes(k, g);
    forall i: nat ensures At(Plus(TimesX(p), TimesX(q)), i) == At(Times(TimesX(k), g), i) {
      if i > 0 {
        assert At(TimesX(p), (i - 1) + 1) == At(p, i - 1) && At(TimesX(q), (i - 1) + 1) == At(q, i - 1);
        assert At(TimesX(Times(k, g)), (i - 1) + 1) == At(Times(k, g), i - 1) == At(Plus(p, q), i - 1);
      }
    }
    assert Same(Plus(TimesX(p), TimesX(q)), Times(TimesX(k), g));
  }

  // ---------------------------------------------------------------- remainders are unique

  ghost predicate Below(p: Poly, n: nat) {
    forall i: nat :: i >= n ==> !At(p, i)
  }

  ghost predicate Zero(p: Poly) {
    Below(p, 0)
  }

  ghost predicate HasDegree(p: Poly, n: nat) {
    At(p, n) && Below(p, n + 1)
  }

  lemma {:induction false} SomeDegree(p: Poly) returns (n: nat)
    requires !Zero(p)
    ensures HasDegree(p, n)
    decreases |p|
  {
    var i: nat :| At(p, i);
    if p[|p| - 1] {
      n := |p| - 1;
    } else {
      var q := p[..|p| - 1];
      assert forall j: nat :: At(q, j) == At(p, j);
      assert At(q, i);
      n := SomeDegree(q);
    }
  }

  lemma {:induction false} ZeroTimes(k: Poly, g: Poly, i: nat)
    requires Zero(k)
    ensures !At(Times(k, g), i)
    decreases i
  {
    TimesAt(k, g, i);
    if k != [] && i > 0 {
      assert Zero(Tail(k));
      ZeroTimes(Tail(k), g, i - 1);
    }
  }

  /** Degrees add. */
  lemma {:induction false} TimesDegree(k: Poly, g: Poly, m: nat, n: nat)
    requires HasDegree(k, m) && HasDegree(g, n)
    ensures HasDegree(Times(k, g), m + n)
    decreases m
  {
    if m == 0 {
      assert Zero(Tail(k));
      forall i: nat ensures At(Times(k, g), i) == At(g, i) {
        TimesAt(k, g, i);
        if i > 0 { ZeroTimes(Tail(k), g, i - 1); }
      }
    } else {
      assert HasDegree(Tail(k), m - 1) by {
        forall i: nat | i >= m ensures !At(Tail(k), i) { assert !At(k, i + 1); }
      }
      TimesDegree(Tail(k), g, m - 1, n);
      forall i: nat | i >= m + n ensures At(Times(k, g), i) == (i == m + n) {
        TimesAt(k, g, i);
        assert i > m + n ==> !At(Times(Tail(k), g), i - 1);
      }
    }
  }

  /** A remainder of lower degree than the divisor is determined by what it is congruent to. */
  lemma RemainderUnique(p: Poly, q: Poly, r: Poly, g: Poly, n: nat)
    requires HasDegree(g, n) && Below(q, n) && Below(r, n)
    requires Congruent(q, p, g) && Congruent(r, p, g)
    ensures Same(q, r)
  {
    CongruentFlip(r, p, g);
    CongruentTrans(q, p, r, g);
    var k: Poly :| Same(Plus(q, r), Times(k, g));
    assert Below(Plus(q, r), n) && Below(Times(k, g), n);
    if Zero(k) {
      forall i: nat ensures At(q, i) == At(r, i) {
        ZeroTimes(k, g, i);
        assert At(Plus(q, r), i) == At(Times(k, g), i);
      }
    } else {
      HighMultiple(k, g, n);
      assert false;
    }
  }

  lemma HighMultiple(k: Poly, g: Poly, n: nat)
    requires HasDegree(g, n) && !Zero(k)
    ensures !Below(Times(k, g), n)
  {
    var m := SomeDegree(k);
    TimesDegree(k, g, m, n);
    assert At(Times(k, g), m + n);
  }

  lemma CongruentFlip(p: Poly, q: Poly, g: Poly)
    requires Congruent(p, q, g)
    ensures Congruent(q, p, g)
  {
    var k: Poly :| Same(Plus(p, q), Times(k, g));
    forall i: nat ensures At(Plus(q, p), i) == At(Times(k, g), i) {
      assert At(Plus(p, q), i) == At(Times(k, g), i);
    }
    assert Same(Plus(q, p), Times(k, g));
  }
}
