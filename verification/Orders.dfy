/** Sorted views: what iterating a std::set or std::map of identifiers yields,
    and what std::sort leaves behind. */
module Orders {
  import opened Ids

  function Elems<T(==)>(s: seq<T>): set<T> {
    set x | x in s
  }

  ghost predicate Increasing(s: seq<u64>) {
    forall i, j :: 0 <= i < j < |s| ==> s[i] < s[j]
  }

  ghost predicate Distinct<T>(s: seq<T>) {
    forall i, j :: 0 <= i < j < |s| ==> s[i] != s[j]
  }

  lemma {:induction false} DistinctCount<T>(s: seq<T>)
    requires Distinct(s)
    ensures |Elems(s)| == |s|
  {
    if s != [] {
      var p := s[..|s| - 1];
      DistinctCount(p);
      assert s == p + [s[|s| - 1]];
      assert Elems(s) == Elems(p) + {s[|s| - 1]};
    }
  }

  lemma PrefixStep(s: seq<u64>, i: nat)
    requires i <= |s| && Increasing(s)
    ensures i < |s| ==> s[i] !in s[..i] && Elems(s[..i + 1]) == Elems(s[..i]) + {s[i]}
    ensures i == |s| ==> s[..i] == s
  {
    if i < |s| { assert s[..i + 1] == s[..i] + [s[i]]; }
  }

  lemma SubsetSize<T>(a: set<T>, b: set<T>)
    requires a <= b
    ensures |a| <= |b|
    ensures a != b ==> |a| < |b|
  {
    assert b == a + (b - a);
  }

  lemma SplitAt<T>(s: seq<T>, k: nat)
    requires k < |s|
    ensures s[..k + 1] == s[..k] + [s[k]]
    ensures k == |s| - 1 ==> s == s[..k] + [s[k]]
  {
  }

  predicate IsLeast(m: u64, s: set<u64>) {
    m in s && forall x :: x in s ==> m <= x
  }

  lemma {:induction false} HasLeast(s: set<u64>)
    requires s != {}
    ensures exists m :: IsLeast(m, s)
  {
    var y :| y in s;
    var t := s - {y};
    if t == {} {
      assert s == {y};
      assert IsLeast(y, s);
    } else {
      HasLeast(t);
      var m :| IsLeast(m, t);
      assert s == t + {y};
      assert IsLeast(if m < y then m else y, s);
    }
  }

  function Least(s: set<u64>): (m: u64)
    requires s != {}
    ensures IsLeast(m, s)
  {
    HasLeast(s);
    var m :| IsLeast(m, s);
    m
  }

  lemma Prepend(m: u64, rest: seq<u64>, s: set<u64>)
    requires IsLeast(m, s) && Increasing(rest) && |rest| == |s - {m}|
    requires forall x :: x in rest <==> x in s - {m}
    ensures |[m] + rest| == |s| && Increasing([m] + rest)
    ensures forall x :: x in [m] + rest <==> x in s
  {
    var r := [m] + rest;
    assert s == (s - {m}) + {m};
    assert |s| == |s - {m}| + 1;
    assert forall x :: x in r <==> x == m || x in rest;
    forall i, j | 0 <= i < j < |r| ensures r[i] < r[j] {
      assert r[j] == rest[j - 1] && rest[j - 1] in rest;
    }
  }

  function Sorted(s: set<u64>): (r: seq<u64>)
    ensures |r| == |s| && Increasing(r)
    ensures forall x :: x in r <==> x in s
    decreases |s|
  {
    if s == {} then []
    else
      var m := Least(s);
      var rest := Sorted(s - {m});
      Prepend(m, rest, s);
      [m] + rest
  }

  /** An increasing sequence is determined by its members. */
  lemma {:induction false} IncreasingUnique(a: seq<u64>, b: seq<u64>)
    requires Increasing(a) && Increasing(b)
    requires forall x :: x in a <==> x in b
    ensures a == b
  {
    assert b != [] ==> b[0] in a;
    if a != [] {
      assert a[0] in b;
      assert b[0] in a;
      assert a[0] == b[0];
      forall x ensures x in a[1..] <==> x in b[1..] {
        if x in a[1..] { assert x in b; assert x != a[0]; }
        if x in b[1..] { assert x in a; assert x != b[0]; }
      }
      IncreasingUnique(a[1..], b[1..]);
      assert a == [a[0]] + a[1..] && b == [b[0]] + b[1..];
    }
  }

  // ------------------------------------------------- sorting by a total order

  ghost predicate TotalOrder<T(!new)>(le: (T, T) -> bool) {
    && (forall x, y :: le(x, y) || le(y, x))
    && (forall x, y :: le(x, y) && le(y, x) ==> x == y)
    && (forall x, y, z :: le(x, y) && le(y, z) ==> le(x, z))
  }

  ghost predicate SortedBy<T>(s: seq<T>, le: (T, T) -> bool) {
    forall i, j :: 0 <= i < j < |s| ==> le(s[i], s[j])
  }

  function InsertSorted<T>(x: T, s: seq<T>, le: (T, T) -> bool): seq<T> {
    if s == [] || le(x, s[0]) then [x] + s else [s[0]] + InsertSorted(x, s[1..], le)
  }

  /** std::sort, up to the algorithm it uses. */
  function Sort<T>(s: seq<T>, le: (T, T) -> bool): seq<T> {
    if s == [] then [] else InsertSorted(s[0], Sort(s[1..], le), le)
  }

  lemma {:induction false} InsertKeeps<T>(x: T, s: seq<T>, le: (T, T) -> bool)
    ensures multiset(InsertSorted(x, s, le)) == multiset(s) + multiset{x}
  {
    if s != [] && !le(x, s[0]) {
      InsertKeeps(x, s[1..], le);
      assert s == [s[0]] + s[1..];
    }
  }

  lemma {:induction false} InsertSorts<T(!new)>(x: T, s: seq<T>, le: (T, T) -> bool)
    requires TotalOrder(le) && SortedBy(s, le)
    ensures SortedBy(InsertSorted(x, s, le), le)
  {
    if s != [] && !le(x, s[0]) {
      var t := s[1..];
      InsertSorts(x, t, le);
      InsertKeeps(x, t, le);
      var r := InsertSorted(x, t, le);
      forall i | 0 <= i < |r| ensures le(s[0], r[i]) {
        assert r[i] in multiset(r);
        if r[i] != x {
          assert r[i] in multiset(t);
          var j :| 0 <= j < |t| && t[j] == r[i];
          assert s[j + 1] == t[j];
        }
      }
    }
  }

  lemma {:induction false} SortSorts<T(!new)>(s: seq<T>, le: (T, T) -> bool)
    requires TotalOrder(le)
    ensures SortedBy(Sort(s, le), le) && multiset(Sort(s, le)) == multiset(s)
  {
    if s != [] {
      SortSorts(s[1..], le);
      InsertSorts(s[0], Sort(s[1..], le), le);
      InsertKeeps(s[0], Sort(s[1..], le), le);
      assert s == [s[0]] + s[1..];
    }
  }

  lemma SameHead<T(!new)>(a: seq<T>, b: seq<T>, le: (T, T) -> bool)
    requires TotalOrder(le) && SortedBy(a, le) && SortedBy(b, le)
    requires multiset(a) == multiset(b) && a != []
    ensures b != [] && a[0] == b[0]
  {
    assert a[0] in multiset(a);
    var i :| 0 <= i < |b| && b[i] == a[0];
    assert b[0] in multiset(b);
    var j :| 0 <= j < |a| && a[j] == b[0];
    assert le(a[0], b[0]) by { if j == 0 { assert le(a[0], a[0]); } }
    assert le(b[0], a[0]) by { if i == 0 { assert le(b[0], b[0]); } }
  }

  /** Two sorted arrangements of the same multiset are the same sequence. */
  lemma {:induction false} SortedByUnique<T(!new)>(a: seq<T>, b: seq<T>, le: (T, T) -> bool)
    requires TotalOrder(le) && SortedBy(a, le) && SortedBy(b, le)
    requires multiset(a) == multiset(b)
    ensures a == b
  {
    if a == [] {
      assert |multiset(b)| == 0;
    } else {
      SameHead(a, b, le);
      assert a == [a[0]] + a[1..] && b == [b[0]] + b[1..];
      assert multiset(a[1..]) == multiset(a) - multiset{a[0]};
      assert multiset(b[1..]) == multiset(b) - multiset{b[0]};
      SortedByUnique(a[1..], b[1..], le);
    }
  }

  /** Sorting forgets the order the elements arrived in. */
  lemma SortOfPermutation<T(!new)>(a: seq<T>, b: seq<T>, le: (T, T) -> bool)
    requires TotalOrder(le) && multiset(a) == multiset(b)
    ensures Sort(a, le) == Sort(b, le)
  {
    SortSorts(a, le);
    SortSorts(b, le);
    SortedByUnique(Sort(a, le), Sort(b, le), le);
  }
}
