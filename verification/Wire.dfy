/** The binary writer and reader of persist.hpp, and the encodings they agree on.  An
    encoder E(x, tail) is the bytes of x followed by tail, so encodings compose by nesting. */
module Wire {
  import opened Ids
  import opened Records

  const MAX_STRING: nat := 64 * 1024 * 1024
  const MAX_VECTOR: nat := 0x400_0000

  // ------------------------------------------------------------ little-endian words

  /** The n low bytes of v, least significant first. */
  function LE(v: nat, n: nat): (s: Bytes)
    ensures |s| == n
    decreases v, n
  {
    if n == 0 then [] else [v % 256] + LE(v / 256, n - 1)
  }

  function Value(s: Bytes): nat {
    if s == [] then 0 else s[0] + 256 * Value(s[1..])
  }

  lemma {:induction false} ValueOfLE(v: nat, n: nat)
    requires v < Pow(256, n)
    ensures Value(LE(v, n)) == v
    decreases n
  {
    if n > 0 {
      assert v / 256 < Pow(256, n - 1);
      ValueOfLE(v / 256, n - 1);
      assert LE(v, n)[1..] == LE(v / 256, n - 1);
    }
  }

  lemma {:induction false} LEOfValue(s: Bytes)
    ensures LE(Value(s), |s|) == s && Value(s) < Pow(256, |s|)
    decreases |s|
  {
    if s != [] {
      var r := s[1..];
      LEOfValue(r);
      assert s == [s[0]] + r;
      assert Value(s) / 256 == Value(r) && Value(s) % 256 == s[0];
      assert Pow(256, |s|) == 256 * Pow(256, |r|);
    }
  }

  lemma Widths()
    ensures Pow(256, 4) == TWO32 && Pow(256, 8) == TWO64
  {
    assert Pow(256, 2) == 0x1_0000;
    assert Pow(256, 4) == 256 * (256 * Pow(256, 2));
    assert Pow(256, 6) == 256 * (256 * Pow(256, 4));
  }

  // ----------------------------------------------------------------------- encoders

  function Head(s: Bytes, n: nat): nat {
    if n <= |s| then Value(s[..n]) else 0
  }

  function Tail(s: Bytes, n: nat): Bytes {
    if n <= |s| then s[n..] else []
  }

  function E8(v: u8, t: Bytes): (r: Bytes)
    ensures |r| == 1 + |t| && r[0] == v && Tail(r, 1) == t
  {
    [v] + t
  }

  function E32(v: u32, t: Bytes): (r: Bytes)
    ensures |r| == 4 + |t| && Head(r, 4) == v && Tail(r, 4) == t
  {
    Widths();
    ValueOfLE(v, 4);
    assert (LE(v, 4) + t)[..4] == LE(v, 4);
    LE(v, 4) + t
  }

  function E64(v: u64, t: Bytes): (r: Bytes)
    ensures |r| == 8 + |t| && Head(r, 8) == v && Tail(r, 8) == t
  {
    Widths();
    ValueOfLE(v, 8);
    assert (LE(v, 8) + t)[..8] == LE(v, 8);
    LE(v, 8) + t
  }

  /** Two's complement. */
  function Unsigned(v: i64): u64 {
    if v < 0 then v + TWO64 else v
  }

  function Signed(u: u64): (v: i64)
    ensures Unsigned(v) == u
  {
    if u < 0x8000_0000_0000_0000 then u else u - TWO64
  }

  function EI64(v: i64, t: Bytes): Bytes {
    E64(Unsigned(v), t)
  }

  predicate Short(b: Bytes) {
    |b| <= MAX_STRING
  }

  function StringIn(s: Bytes): Bytes {
    if Head(s, 4) <= |Tail(s, 4)| then Tail(s, 4)[..Head(s, 4)] else []
  }

  function EStr(b: Bytes, t: Bytes): (r: Bytes)
    ensures |r| == 4 + |b| + |t|
    ensures Short(b) ==> StringIn(r) == b && Tail(Tail(r, 4), |b|) == t
  {
    E32(|b| % TWO32, b + t)
  }

  /** The elements of xs in order, each by e. */
  function Each<T>(e: (T, Bytes) -> Bytes, xs: seq<T>, t: Bytes): Bytes {
    if xs == [] then t else e(xs[0], Each(e, xs[1..], t))
  }

  /** A vector: its size, in 32 bits, and its elements. */
  function EVec<T>(e: (T, Bytes) -> Bytes, xs: seq<T>, t: Bytes): Bytes {
    E32(|xs| % TWO32, Each(e, xs, t))
  }

  function EIds(xs: seq<u64>, t: Bytes): Bytes {
    EVec(E64, xs, t)
  }

  predicate IdsFit(xs: seq<u64>) {
    |xs| <= MAX_VECTOR
  }

  // --------------------------------------------------------- sequences of encodings

  /** e can be read back: from the bytes alone one knows what was written and what follows. */
  ghost predicate Unambiguous<T(!new)>(e: (T, Bytes) -> Bytes, ok: T -> bool) {
    forall x, y, t, u :: ok(x) && ok(y) && e(x, t) == e(y, u) ==> x == y && t == u
  }

  ghost predicate All<T>(ok: T -> bool, xs: seq<T>) {
    forall i :: 0 <= i < |xs| ==> ok(xs[i])
  }

  lemma {:induction false} EachSplit<T>(e: (T, Bytes) -> Bytes, xs: seq<T>, ys: seq<T>, t: Bytes)
    ensures Each(e, xs + ys, t) == Each(e, xs, Each(e, ys, t))
    decreases |xs|
  {
    if xs == [] {
      assert xs + ys == ys;
    } else {
      EachSplit(e, xs[1..], ys, t);
      assert (xs + ys)[1..] == xs[1..] + ys;
    }
  }

  lemma EachSnoc<T>(e: (T, Bytes) -> Bytes, xs: seq<T>, x: T, t: Bytes)
    ensures Each(e, xs + [x], t) == Each(e, xs, e(x, t))
  {
    EachSplit(e, xs, [x], t);
    assert Each(e, [x], t) == e(x, Each(e, [x][1..], t));
  }

  lemma AllNext<T>(ok: T -> bool, xs: seq<T>, i: nat)
    requires i < |xs| && All(ok, xs[..i])
    ensures All(ok, xs[..i + 1]) <==> ok(xs[i])
    ensures All(ok, xs) ==> ok(xs[i])
  {
    var p, q := xs[..i], xs[..i + 1];
    assert q[i] == xs[i];
    forall j | 0 <= j < i ensures p[j] == q[j] { }
  }

  /** buf is start and then the elements of xs, whatever follows. */
  ghost predicate Written<T>(e: (T, Bytes) -> Bytes, start: Bytes, buf: Bytes, xs: seq<T>) {
    forall t :: buf + t == start + Each(e, xs, t)
  }

  lemma NoneWritten<T>(e: (T, Bytes) -> Bytes, start: Bytes, xs: seq<T>)
    ensures Written(e, start, start, xs[..0])
  {
  }

  lemma WrittenNext<T>(e: (T, Bytes) -> Bytes, start: Bytes, before: Bytes, after: Bytes, xs: seq<T>, i: nat)
    requires i < |xs| && Written(e, start, before, xs[..i])
    requires forall t :: after + t == before + e(xs[i], t)
    ensures Written(e, start, after, xs[..i + 1])
  {
    EachNext(e, xs, i);
    forall t ensures after + t == start + Each(e, xs[..i + 1], t) {
      assert after + t == before + e(xs[i], t);
    }
  }

  lemma WrittenVec<T>(e: (T, Bytes) -> Bytes, before: Bytes, start: Bytes, buf: Bytes, xs: seq<T>)
    requires forall t :: start + t == before + E32(|xs| % TWO32, t)
    requires Written(e, start, buf, xs)
    ensures forall t :: buf + t == before + EVec(e, xs, t)
  {
    forall t ensures buf + t == before + EVec(e, xs, t) {
      assert start + Each(e, xs, t) == before + E32(|xs| % TWO32, Each(e, xs, t));
    }
  }

  lemma {:induction false} EachUnambiguous<T(!new)>(e: (T, Bytes) -> Bytes, ok: T -> bool,
                                              xs: seq<T>, ys: seq<T>, t: Bytes, u: Bytes)
    requires Unambiguous(e, ok) && All(ok, xs) && All(ok, ys) && |xs| == |ys|
    requires Each(e, xs, t) == Each(e, ys, u)
    ensures xs == ys && t == u
    decreases |xs|
  {
    if xs != [] {
      EachUnambiguous(e, ok, xs[1..], ys[1..], t, u);
      assert xs == [xs[0]] + xs[1..] && ys == [ys[0]] + ys[1..];
    }
  }

  ghost predicate Unreadable<T(!new)>(e: (T, Bytes) -> Bytes, ok: T -> bool, rest: Bytes) {
    forall x, t :: ok(x) ==> rest != e(x, t)
  }

  /** No run of n readable elements was written here. */
  ghost predicate NoRun<T(!new)>(e: (T, Bytes) -> Bytes, ok: T -> bool, n: nat, rest: Bytes) {
    forall xs, t :: |xs| == n && All(ok, xs) ==> rest != Each(e, xs, t)
  }

  /** No vector of readable elements was written here. */
  ghost predicate NoVec<T(!new)>(e: (T, Bytes) -> Bytes, ok: T -> bool, rest: Bytes) {
    forall xs, t :: VecFits(ok, xs) ==> rest != EVec(e, xs, t)
  }

  /** Where the next element cannot be read, no longer run could have been written. */
  lemma RunStuck<T(!new)>(e: (T, Bytes) -> Bytes, ok: T -> bool, xs: seq<T>, start: Bytes, rest: Bytes, n: nat)
    requires Unambiguous(e, ok) && RunRead(e, ok, xs, start, rest) && |xs| < n && Unreadable(e, ok, rest)
    ensures NoRun(e, ok, n, start)
  {
    forall ys: seq<T>, u | |ys| == n && All(ok, ys) ensures Each(e, xs, rest) != Each(e, ys, u) {
      var k := |xs|;
      assert ys == ys[..k] + ys[k..];
      EachSplit(e, ys[..k], ys[k..], u);
      var after := Each(e, ys[k..], u);
      assert after == e(ys[k], Each(e, ys[k..][1..], u));
      if Each(e, xs, rest) == Each(e, ys, u) { EachUnambiguous(e, ok, xs, ys[..k], rest, after); }
    }
  }

  /** Any run that starts with these bytes starts with the elements already read. */
  lemma RunPrefix<T(!new)>(e: (T, Bytes) -> Bytes, ok: T -> bool, xs: seq<T>, start: Bytes, rest: Bytes,
                           ys: seq<T>, t: Bytes)
    requires Unambiguous(e, ok) && RunRead(e, ok, xs, start, rest)
    requires |xs| <= |ys| && All(ok, ys) && start == Each(e, ys, t)
    ensures ys[..|xs|] == xs && rest == Each(e, ys[|xs|..], t)
  {
    assert ys == ys[..|xs|] + ys[|xs|..];
    EachSplit(e, ys[..|xs|], ys[|xs|..], t);
    EachUnambiguous(e, ok, xs, ys[..|xs|], rest, Each(e, ys[|xs|..], t));
  }

  lemma NoVecWhen<T(!new)>(e: (T, Bytes) -> Bytes, ok: T -> bool, rest: Bytes, n: u32, after: Bytes)
    requires |rest| < 4 || Head(rest, 4) > MAX_VECTOR || (rest == E32(n, after) && NoRun(e, ok, n, after))
    ensures NoVec(e, ok, rest)
  {
    forall xs, t | VecFits(ok, xs) ensures rest != EVec(e, xs, t) {
      var body := Each(e, xs, t);
      assert EVec(e, xs, t) == E32(|xs|, body) && Tail(E32(|xs|, body), 4) == body;
    }
  }

  /** What a reader promises: one readable value, encoded by exactly the bytes between
      before and after; or there is none to read. */
  ghost predicate ReadBack<T(!new)>(e: (T, Bytes) -> Bytes, ok: T -> bool, before: Bytes, x: Option<T>, after: Bytes) {
    match x
    case Some(v) => ok(v) && before == e(v, after)
    case None => Unreadable(e, ok, before)
  }

  ghost predicate RunBack<T(!new)>(e: (T, Bytes) -> Bytes, ok: T -> bool, n: nat,
                                   before: Bytes, xs: Option<seq<T>>, after: Bytes) {
    match xs
    case Some(v) => |v| == n && RunRead(e, ok, v, before, after)
    case None => NoRun(e, ok, n, before)
  }

  ghost predicate VecFits<T>(ok: T -> bool, xs: seq<T>) {
    |xs| <= MAX_VECTOR && All(ok, xs)
  }

  ghost predicate VecBack<T(!new)>(e: (T, Bytes) -> Bytes, ok: T -> bool,
                                   before: Bytes, xs: Option<seq<T>>, after: Bytes) {
    match xs
    case Some(v) => VecFits(ok, v) && before == EVec(e, v, after)
    case None => NoVec(e, ok, before)
  }

  predicate Any<T>(x: T) {
    true
  }

  // --------------------------------------------------------------- one after another

  function Then<A, B>(ea: (A, Bytes) -> Bytes, eb: (B, Bytes) -> Bytes): ((A, B), Bytes) -> Bytes {
    (p: (A, B), t: Bytes) => ea(p.0, eb(p.1, t))
  }

  function Both<A, B>(oka: A -> bool, okb: B -> bool): ((A, B)) -> bool {
    (p: (A, B)) => oka(p.0) && okb(p.1)
  }

  function Join<A, B>(a: Option<A>, b: Option<B>): Option<(A, B)> {
    if a.Some? && b.Some? then Some((a.value, b.value)) else None
  }

  /** Reading one thing and, if that worked, another, is reading the pair. */
  lemma ThenBack<A(!new), B(!new)>(live: bool, ea: (A, Bytes) -> Bytes, oka: A -> bool,
                                   eb: (B, Bytes) -> Bytes, okb: B -> bool,
                                   before: Bytes, a: Option<A>, mid: Bytes, b: Option<B>, after: Bytes)
    requires Unambiguous(ea, oka)
    requires live ==> ReadBack(ea, oka, before, a, mid)
    requires live && a.Some? ==> ReadBack(eb, okb, mid, b, after)
    ensures live ==> ReadBack(Then(ea, eb), Both(oka, okb), before, Join(a, b), after)
  {
    if live && Join(a, b).None? {
      forall p: (A, B), t | Both(oka, okb)(p) ensures before != Then(ea, eb)(p, t) {
        assert Then(ea, eb)(p, t) == ea(p.0, eb(p.1, t));
      }
    }
  }

  lemma ThenUnambiguous<A(!new), B(!new)>(ea: (A, Bytes) -> Bytes, oka: A -> bool, eb: (B, Bytes) -> Bytes,
                          okb: B -> bool)
    requires Unambiguous(ea, oka) && Unambiguous(eb, okb)
    ensures Unambiguous(Then(ea, eb), Both(oka, okb))
  {
    var e, ok := Then(ea, eb), Both(oka, okb);
    forall p: (A, B), q: (A, B), t, u | ok(p) && ok(q) && e(p, t) == e(q, u) ensures p == q && t == u {
      assert e(p, t) == ea(p.0, eb(p.1, t)) && e(q, u) == ea(q.0, eb(q.1, u));
    }
  }

  lemma RenamedUnambiguous<A(!new), B(!new)>(e: (A, Bytes) -> Bytes, ok: A -> bool,
                                             e1: (B, Bytes) -> Bytes, ok1: B -> bool, f: B -> A)
    requires Unambiguous(e, ok)
    requires forall v, t :: e1(v, t) == e(f(v), t)
    requires forall v :: ok1(v) <==> ok(f(v))
    requires forall v, w :: f(v) == f(w) ==> v == w
    ensures Unambiguous(e1, ok1)
  {
  }

  /** What can be read is the only thing that can; refusing it leaves nothing. */
  lemma Filtered<T(!new)>(e: (T, Bytes) -> Bytes, ok: T -> bool, valid: T -> bool, ok1: T -> bool,
                          before: Bytes, d: Option<T>, x: Option<T>, after: Bytes)
    requires Unambiguous(e, ok) && ReadBack(e, ok, before, d, after)
    requires forall y :: ok1(y) <==> ok(y) && valid(y)
    requires x == if d.Some? && valid(d.value) then d else None
    ensures ReadBack(e, ok1, before, x, after)
  {
  }

  lemma Weaker<T(!new)>(e: (T, Bytes) -> Bytes, ok: T -> bool, ok1: T -> bool)
    requires Unambiguous(e, ok) && forall y :: ok1(y) ==> ok(y)
    ensures Unambiguous(e, ok1)
  {
  }

  /** Reading under another name: y is read as the x it stands for. */
  lemma Renamed<A(!new), B(!new)>(e: (A, Bytes) -> Bytes, ok: A -> bool, e1: (B, Bytes) -> Bytes, ok1: B -> bool,
                                  f: B -> A, before: Bytes, x: Option<A>, y: Option<B>, after: Bytes)
    requires ReadBack(e, ok, before, x, after)
    requires forall v, t :: e1(v, t) == e(f(v), t)
    requires forall v :: ok1(v) <==> ok(f(v))
    requires x.Some? == y.Some? && (y.Some? ==> x.value == f(y.value))
    ensures ReadBack(e1, ok1, before, y, after)
  {
  }

  /** The run read so far, between start and rest. */
  ghost predicate RunRead<T(!new)>(e: (T, Bytes) -> Bytes, ok: T -> bool, xs: seq<T>, start: Bytes, rest: Bytes) {
    All(ok, xs) && start == Each(e, xs, rest)
  }

  /** Reading the next element takes the run one further, or shows there is no longer one. */
  lemma RunStep<T(!new)>(e: (T, Bytes) -> Bytes, ok: T -> bool, xs: seq<T>, start: Bytes, rest: Bytes,
                         x: Option<T>, after: Bytes, n: nat)
    requires Unambiguous(e, ok) && RunRead(e, ok, xs, start, rest) && |xs| < n && ReadBack(e, ok, rest, x, after)
    ensures x.Some? ==> RunRead(e, ok, xs + [x.value], start, after)
    ensures x.None? ==> NoRun(e, ok, n, start)
  {
    if x.Some? { EachSnoc(e, xs, x.value, after); } else { RunStuck(e, ok, xs, start, rest, n); }
  }

  /** Size and elements make up the vector; without the elements there is none. */
  lemma VecRead<T(!new)>(e: (T, Bytes) -> Bytes, ok: T -> bool, rest: Bytes, n: u32, after: Bytes,
                         xs: Option<seq<T>>, end: Bytes)
    requires rest == E32(n, after) && n <= MAX_VECTOR && RunBack(e, ok, n, after, xs, end)
    ensures VecBack(e, ok, rest, xs, end)
  {
    if xs.None? { NoVecWhen(e, ok, rest, n, after); }
  }

  lemma VecUnambiguous<T(!new)>(e: (T, Bytes) -> Bytes, ok: T -> bool, xs: seq<T>, ys: seq<T>, t: Bytes, u: Bytes)
    requires Unambiguous(e, ok) && VecFits(ok, xs) && VecFits(ok, ys) && EVec(e, xs, t) == EVec(e, ys, u)
    ensures xs == ys && t == u
  {
    var a, b := Each(e, xs, t), Each(e, ys, u);
    SameWord(|xs|, |ys|, a, b);
    EachUnambiguous(e, ok, xs, ys, t, u);
  }

  lemma SameWord(m: u32, n: u32, a: Bytes, b: Bytes)
    requires E32(m, a) == E32(n, b)
    ensures m == n && a == b
  {
  }

  lemma IdsUnambiguous()
    ensures Unambiguous(EIds, IdsFit)
  {
    forall x, y, t, u | IdsFit(x) && IdsFit(y) && EIds(x, t) == EIds(y, u) ensures x == y && t == u {
      VecUnambiguous(E64, Any, x, y, t, u);
    }
  }

  /** One loop iteration of a vector writer. */
  lemma EachNext<T>(e: (T, Bytes) -> Bytes, xs: seq<T>, i: nat)
    requires i < |xs|
    ensures forall t :: Each(e, xs[..i + 1], t) == Each(e, xs[..i], e(xs[i], t))
  {
    assert xs[..i + 1] == xs[..i] + [xs[i]];
    forall t ensures Each(e, xs[..i + 1], t) == Each(e, xs[..i], e(xs[i], t)) { EachSnoc(e, xs[..i], xs[i], t); }
  }

  /** The tail is carried along untouched. */
  ghost predicate Carries<T(!new)>(e: (T, Bytes) -> Bytes) {
    forall x, t, u :: e(x, t + u) == e(x, t) + u
  }

  lemma LeavesCarry()
    ensures forall v, t, u :: E8(v, t + u) == E8(v, t) + u
    ensures forall v, t, u :: E32(v, t + u) == E32(v, t) + u
    ensures forall v, t, u :: E64(v, t + u) == E64(v, t) + u
    ensures forall b, t, u :: EStr(b, t + u) == EStr(b, t) + u
  {
    forall v: u8, t: Bytes, u: Bytes ensures E8(v, t + u) == E8(v, t) + u {
      assert [v] + (t + u) == [v] + t + u;
    }
    forall v: u32, t: Bytes, u: Bytes ensures E32(v, t + u) == E32(v, t) + u {
      assert LE(v, 4) + (t + u) == LE(v, 4) + t + u;
    }
    forall v: u64, t: Bytes, u: Bytes ensures E64(v, t + u) == E64(v, t) + u {
      assert LE(v, 8) + (t + u) == LE(v, 8) + t + u;
    }
    forall b: Bytes, t: Bytes, u: Bytes ensures EStr(b, t + u) == EStr(b, t) + u {
      assert b + (t + u) == b + t + u;
    }
  }

  lemma ThenCarries<A(!new), B(!new)>(ea: (A, Bytes) -> Bytes, eb: (B, Bytes) -> Bytes)
    requires Carries(ea) && Carries(eb)
    ensures Carries(Then(ea, eb))
  {
    var e := Then(ea, eb);
    forall p: (A, B), t, u ensures e(p, t + u) == e(p, t) + u {
      assert e(p, t + u) == ea(p.0, eb(p.1, t + u)) && e(p, t) == ea(p.0, eb(p.1, t));
    }
  }

  lemma RenamedCarries<A(!new), B(!new)>(e: (A, Bytes) -> Bytes, e1: (B, Bytes) -> Bytes, f: B -> A)
    requires Carries(e) && forall v, t :: e1(v, t) == e(f(v), t)
    ensures Carries(e1)
  {
  }

  lemma VecCarries<T(!new)>(e: (T, Bytes) -> Bytes, xs: seq<T>, t: Bytes, u: Bytes)
    requires Carries(e)
    ensures EVec(e, xs, t + u) == EVec(e, xs, t) + u
  {
    EachCarries(e, xs, t, u);
    LeavesCarry();
  }

  lemma {:induction false} EachCarries<T(!new)>(e: (T, Bytes) -> Bytes, xs: seq<T>, t: Bytes, u: Bytes)
    requires Carries(e)
    ensures Each(e, xs, t + u) == Each(e, xs, t) + u
    decreases |xs|
  {
    if xs != [] { EachCarries(e, xs[1..], t, u); }
  }

  // -------------------------------------------------- runs behind a header that counts

  /** A run whose header tells its length; fits is what readers accept as a whole run. */
  ghost predicate Counted<T(!new)>(hdr: (u64, Bytes) -> Bytes, hok: u64 -> bool, e: (T, Bytes) -> Bytes, ok: T -> bool,
                                   whole: (seq<T>, Bytes) -> Bytes, fits: seq<T> -> bool) {
    && Unambiguous(hdr, hok) && Unambiguous(e, ok)
    && (forall xs :: fits(xs) ==> |xs| < TWO64 && hok(|xs|) && All(ok, xs))
    && (forall xs, t :: fits(xs) ==> whole(xs, t) == hdr(|xs| % TWO64, Each(e, xs, t)))
  }

  ghost predicate NoFit<T(!new)>(e: (T, Bytes) -> Bytes, fits: seq<T> -> bool, n: nat, start: Bytes) {
    forall xs, t :: |xs| == n && fits(xs) ==> start != Each(e, xs, t)
  }

  lemma CountedUnambiguous<T(!new)>(hdr: (u64, Bytes) -> Bytes, hok: u64 -> bool, e: (T, Bytes) -> Bytes, ok: T -> bool,
                                    whole: (seq<T>, Bytes) -> Bytes, fits: seq<T> -> bool)
    requires Counted(hdr, hok, e, ok, whole, fits)
    ensures Unambiguous(whole, fits)
  {
    forall x, y, t, u | fits(x) && fits(y) && whole(x, t) == whole(y, u) ensures x == y && t == u {
      assert hdr(|x|, Each(e, x, t)) == hdr(|y|, Each(e, y, u));
      EachUnambiguous(e, ok, x, y, t, u);
    }
  }

  lemma CountedBack<T(!new)>(hdr: (u64, Bytes) -> Bytes, hok: u64 -> bool, e: (T, Bytes) -> Bytes, ok: T -> bool,
                             whole: (seq<T>, Bytes) -> Bytes, fits: seq<T> -> bool,
                             before: Bytes, n: Option<u64>, start: Bytes, xs: Option<seq<T>>, after: Bytes)
    requires Counted(hdr, hok, e, ok, whole, fits)
    requires ReadBack(hdr, hok, before, n, start)
    requires n.Some? ==>
               if xs.Some? then |xs.value| == n.value && fits(xs.value) && start == Each(e, xs.value, after)
               else NoFit(e, fits, n.value, start)
    requires xs.Some? ==> n.Some?
    ensures ReadBack(whole, fits, before, xs, after)
  {
    if xs.None? {
      forall ys, t | fits(ys) ensures before != whole(ys, t) {
        assert whole(ys, t) == hdr(|ys|, Each(e, ys, t));
      }
    }
  }

  ghost predicate KeysDistinct<T, K>(key: T -> K, xs: seq<T>) {
    forall i, j :: 0 <= i < j < |xs| ==> key(xs[i]) != key(xs[j])
  }

  /** If an element repeats a key, no run of distinct keys starts this way. */
  lemma RepeatedKey<T(!new), K>(e: (T, Bytes) -> Bytes, ok: T -> bool, fits: seq<T> -> bool, key: T -> K,
                                xs: seq<T>, start: Bytes, rest: Bytes, n: nat)
    requires Unambiguous(e, ok) && RunRead(e, ok, xs, start, rest) && |xs| <= n && !KeysDistinct(key, xs)
    requires forall ys :: fits(ys) ==> All(ok, ys) && KeysDistinct(key, ys)
    ensures NoFit(e, fits, n, start)
  {
    var i, j :| 0 <= i < j < |xs| && key(xs[i]) == key(xs[j]);
    forall ys, t | |ys| == n && fits(ys) ensures start != Each(e, ys, t) {
      var p := ys[..|xs|];
      assert p[i] == ys[i] && p[j] == ys[j];
      if start == Each(e, ys, t) { RunPrefix(e, ok, xs, start, rest, ys, t); }
    }
  }

  lemma StepFit<T(!new)>(e: (T, Bytes) -> Bytes, ok: T -> bool, fits: seq<T> -> bool,
                         xs: seq<T>, start: Bytes, rest: Bytes, x: Option<T>, after: Bytes, n: nat)
    requires Unambiguous(e, ok) && RunRead(e, ok, xs, start, rest) && |xs| < n && ReadBack(e, ok, rest, x, after)
    requires forall ys :: fits(ys) ==> All(ok, ys)
    ensures x.Some? ==> RunRead(e, ok, xs + [x.value], start, after)
    ensures x.None? ==> NoFit(e, fits, n, start)
  {
    RunStep(e, ok, xs, start, rest, x, after, n);
  }

  lemma Unpad(a: Bytes, b: Bytes)
    requires a + [] == [] + b
    ensures a == b
  {
    assert a + [] == a && [] + b == b;
  }

  // ------------------------------------------------------------------------- writer

  class BinaryWriter {
    var buf: Bytes

    constructor ()
      ensures buf == []
    {
      buf := [];
    }

    method U8(v: u8)
      modifies this
      ensures forall t :: buf + t == old(buf) + E8(v, t)
    {
      buf := buf + [v];
      assert forall t :: old(buf) + [v] + t == old(buf) + ([v] + t);
    }

    /** The n low bytes of v, shifted out one by one. */
    method Word(v: nat, n: nat)
      modifies this
      ensures buf == old(buf) + LE(v, n)
    {
      var rest := v;
      for i := 0 to n
        invariant buf + LE(rest, n - i) == old(buf) + LE(v, n)
      {
        assert buf + ([rest % 256] + LE(rest / 256, n - i - 1)) == (buf + [rest % 256]) + LE(rest / 256, n - i - 1);
        buf := buf + [rest % 256];
        rest := rest / 256;
      }
      assert buf + [] == buf;
    }

    method U32(v: u32)
      modifies this
      ensures forall t :: buf + t == old(buf) + E32(v, t)
    {
      Word(v, 4);
      assert forall t :: old(buf) + LE(v, 4) + t == old(buf) + (LE(v, 4) + t);
    }

    method U64(v: u64)
      modifies this
      ensures forall t :: buf + t == old(buf) + E64(v, t)
    {
      Word(v, 8);
      assert forall t :: old(buf) + LE(v, 8) + t == old(buf) + (LE(v, 8) + t);
    }

    method I64(v: i64)
      modifies this
      ensures forall t :: buf + t == old(buf) + EI64(v, t)
    {
      U64(Unsigned(v));
    }

    /** Too long a string is the one thing the writer refuses (by an exception). */
    method Str(b: Bytes) returns (ok: bool)
      modifies this
      ensures ok <==> Short(b)
      ensures ok ==> forall t :: buf + t == old(buf) + EStr(b, t)
    {
      if |b| > MAX_STRING { return false; }
      U32(|b|);
      ghost var mid := buf;
      buf := buf + b;
      forall t ensures buf + t == old(buf) + EStr(b, t) {
        assert buf + t == mid + (b + t);
      }
      ok := true;
    }

    method Ids(xs: seq<u64>)
      modifies this
      ensures forall t :: buf + t == old(buf) + EIds(xs, t)
    {
      ghost var before := buf;
      U32(|xs| % TWO32);
      ghost var start := buf;
      NoneWritten(E64, start, xs);
      for i := 0 to |xs|
        invariant Written(E64, start, buf, xs[..i])
      {
        ghost var last := buf;
        U64(xs[i]);
        WrittenNext(E64, start, last, buf, xs, i);
      }
      assert xs[..|xs|] == xs;
      WrittenVec(E64, before, start, buf, xs);
    }
  }

  // ------------------------------------------------------------------------- reader

  /** Each read either consumes exactly one encoding, or there is none to consume. */
  class BinaryReader {
    const data: Bytes
    var pos: nat
    var ok: bool

    constructor (bytes: Bytes)
      ensures Ready() && Rest() == bytes
    {
      data, pos, ok := bytes, 0, true;
    }

    predicate Ready()
      reads this
    {
      ok && pos <= |data|
    }

    function Rest(): Bytes
      reads this
    {
      if pos <= |data| then data[pos..] else []
    }

    function Remaining(): (n: nat)
      requires Ready()
      reads this
      ensures n == 0 <==> Rest() == []
    {
      |data| - pos
    }

    method U8() returns (r: Option<u8>)
      requires Ready()
      modifies this
      ensures r.Some? ==> Ready() && old(Rest()) == E8(r.value, Rest())
      ensures r.None? ==> old(Rest()) == []
    {
      if pos + 1 > |data| { ok := false; return None; }
      r := Some(data[pos]);
      pos := pos + 1;
    }

    /** n bytes, assembled least significant first. */
    method Word(n: nat) returns (r: Option<nat>)
      requires Ready()
      modifies this
      ensures r.Some? ==> Ready() && n <= |old(Rest())| && Rest() == old(Rest())[n..]
      ensures r.Some? ==> r.value == Value(old(Rest())[..n])
      ensures r.None? ==> |old(Rest())| < n
    {
      if pos + n > |data| { ok := false; return None; }
      var b := data[pos..pos + n];
      assert b == Rest()[..n];
      var v := Assemble(b);
      pos := pos + n;
      r := Some(v);
    }

    static method Assemble(b: Bytes) returns (v: nat)
      ensures v == Value(b)
    {
      v := 0;
      var scale: nat := 1;
      for i := 0 to |b|
        invariant v + scale * Value(b[i..]) == Value(b)
      {
        assert b[i..][1..] == b[i + 1..];
        Shift(scale, b[i], Value(b[i + 1..]));
        v := v + scale * b[i];
        scale := scale * 256;
      }
      assert b[|b|..] == [];
    }

    static lemma Shift(scale: nat, d: nat, w: nat)
      ensures scale * (d + 256 * w) == scale * d + (scale * 256) * w
      ensures scale * d >= 0
    {
    }

    method U32() returns (r: Option<u32>)
      requires Ready()
      modifies this
      ensures r.Some? ==> Ready() && old(Rest()) == E32(r.value, Rest())
      ensures r.None? ==> |old(Rest())| < 4
    {
      ghost var rest := Rest();
      var w := Word(4);
      if w.None? { return None; }
      Widths();
      LEOfValue(rest[..4]);
      assert rest == rest[..4] + rest[4..];
      r := Some(w.value);
    }

    method U64() returns (r: Option<u64>)
      requires Ready()
      modifies this
      ensures r.Some? ==> Ready() && old(Rest()) == E64(r.value, Rest())
      ensures r.None? ==> |old(Rest())| < 8
    {
      ghost var rest := Rest();
      var w := Word(8);
      if w.None? { return None; }
      Widths();
      LEOfValue(rest[..8]);
      assert rest == rest[..8] + rest[8..];
      r := Some(w.value);
    }

    method I64() returns (r: Option<i64>)
      requires Ready()
      modifies this
      ensures r.Some? ==> Ready() && old(Rest()) == EI64(r.value, Rest())
      ensures r.None? ==> |old(Rest())| < 8
    {
      var u :- U64();
      r := Some(Signed(u));
    }

    /** n bytes as they are. */
    method Raw(n: nat) returns (r: Option<Bytes>)
      requires Ready()
      modifies this
      ensures r.Some? ==> Ready() && |r.value| == n && old(Rest()) == r.value + Rest()
      ensures r.None? ==> |old(Rest())| < n
    {
      if pos + n > |data| { ok := false; return None; }
      r := Some(data[pos..pos + n]);
      pos := pos + n;
    }

    method Str() returns (r: Option<Bytes>)
      requires Ready()
      modifies this
      ensures r.Some? ==> Ready()
      ensures ReadBack(EStr, Short, old(Rest()), r, Rest())
    {
      ghost var rest := Rest();
      var n := U32();
      if n.None? || n.value > MAX_STRING {
        NoString(rest);
        ok := false;
        return None;
      }
      ghost var after := Rest();
      r := Raw(n.value);
      StringRead(rest, n.value, after, r, Rest());
    }

    static lemma StringRead(rest: Bytes, n: u32, after: Bytes, r: Option<Bytes>, end: Bytes)
      requires rest == E32(n, after) && n <= MAX_STRING
      requires r.Some? ==> |r.value| == n && after == r.value + end
      requires r.None? ==> |after| < n
      ensures ReadBack(EStr, Short, rest, r, end)
    {
      if r.None? { NoString(rest); }
    }

    static lemma NoString(rest: Bytes)
      requires |rest| < 4 || Head(rest, 4) > MAX_STRING || Head(rest, 4) > |rest| - 4
      ensures Unreadable(EStr, Short, rest)
    {
      forall b, t | Short(b) ensures rest != EStr(b, t) {
        assert Head(EStr(b, t), 4) == |b|;
      }
    }

    /** A vector of ids. */
    method Ids() returns (r: Option<seq<u64>>)
      requires Ready()
      modifies this
      ensures r.Some? ==> Ready()
      ensures ReadBack(EIds, IdsFit, old(Rest()), r, Rest())
    {
      ghost var rest := Rest();
      var n := U32();
      if n.None? || n.value > MAX_VECTOR {
        NoVecWhen(E64, Any, rest, 0, []);
        NoIds(rest);
        return None;
      }
      ghost var after := Rest();
      r := EachId(n.value);
      VecRead(E64, Any, rest, n.value, after, r, Rest());
      if r.None? { NoIds(rest); }
    }

    static lemma NoIds(rest: Bytes)
      requires NoVec(E64, Any, rest)
      ensures Unreadable(EIds, IdsFit, rest)
    {
      forall xs: seq<u64>, t | IdsFit(xs) ensures rest != EIds(xs, t) { assert VecFits(Any, xs); }
    }

    method EachId(n: nat) returns (r: Option<seq<u64>>)
      requires Ready()
      modifies this
      ensures r.Some? ==> Ready()
      ensures RunBack(E64, Any, n, old(Rest()), r, Rest())
    {
      ghost var start := Rest();
      var xs: seq<u64> := [];
      for i := 0 to n
        invariant Ready() && |xs| == i && RunRead(E64, Any, xs, start, Rest())
      {
        ghost var rest := Rest();
        var x := U64();
        RunStep(E64, Any, xs, start, rest, x, Rest(), n);
        if x.None? { return None; }
        xs := xs + [x.value];
      }
      r := Some(xs);
    }
  }

}
