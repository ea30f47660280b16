/** Runs of a store across saves and restarts.  A restart goes back to any earlier save, as
    the coordinator does when it is started on a snapshot file (coordinator.cpp), so what a
    store has been through is no longer everything that happened. */
module Lifetimes {
  import opened Ids
  import opened Records
  import opened Compatibility
  import opened Registry
  import F = Fence
  import Runs

  // --------------------------------------------------------------------- histories

  datatype Event =
    | Work(op: Runs.Op)
    | Save                  // take a snapshot
    | Restart(save: nat)    // load the snapshot taken at that event
    | StartEmpty            // start without loading anything
    | Quiet                 // nothing that concerns the store

  /** What an event other than a restart does to the store. */
  ghost predicate Moves(e: Event, st: State, next: State) {
    match e
    case Work(op) => next == Runs.Step(st, op)
    case StartEmpty => next == Empty
    case _ => next == st
  }

  ghost predicate Next(sts: seq<State>, es: seq<Event>, i: nat)
    requires i < |es| && |sts| == |es| + 1
  {
    match es[i]
    case Restart(p) => p < i && es[p] == Save && sts[i + 1] == Restore(TakeSnapshot(sts[p])).0
    case e => Moves(e, sts[i], sts[i + 1])
  }

  lemma MovesNext(sts: seq<State>, es: seq<Event>, i: nat)
    requires i < |es| && |sts| == |es| + 1 && !es[i].Restart? && Moves(es[i], sts[i], sts[i + 1])
    ensures Next(sts, es, i)
  {
  }

  lemma RestartNext(sts: seq<State>, es: seq<Event>, i: nat, p: nat, st: State, next: State)
    requires i < |es| && |sts| == |es| + 1 && es[i] == Restart(p) && p < i && es[p] == Save
    requires st == sts[p] && next == sts[i + 1] && next == Restore(TakeSnapshot(st)).0
    ensures Next(sts, es, i)
  {
  }

  ghost predicate IsHistory(sts: seq<State>, es: seq<Event>) {
    |sts| == |es| + 1 && forall i :: 0 <= i < |es| ==> Next(sts, es, i)
  }

  /** The state that state n was made from. */
  function Before(es: seq<Event>, n: nat): (b: nat)
    requires 0 < n <= |es|
    ensures b < n
  {
    if es[n - 1].Restart? && es[n - 1].save < n - 1 then es[n - 1].save else n - 1
  }

  /** State n descends from state i. */
  predicate OnLine(es: seq<Event>, i: nat, n: nat)
    requires n <= |es|
    decreases n
  {
    i == n || (n > 0 && es[n - 1] != StartEmpty && OnLine(es, i, Before(es, n)))
  }

  function OpOf(e: Event): seq<Runs.Op> {
    match e
    case Work(op) => [op]
    case Restart(_) => [Runs.RecoverOp]
    case _ => []
  }

  /** What the store went through between state i and its descendant n. */
  function OpsOnLine(es: seq<Event>, i: nat, n: nat): seq<Runs.Op>
    requires n <= |es|
    decreases n
  {
    if i == n || n == 0 || es[n - 1] == StartEmpty then [] else OpsOnLine(es, i, Before(es, n)) + OpOf(es[n - 1])
  }

  lemma {:induction false} LineAscends(es: seq<Event>, i: nat, n: nat)
    requires n <= |es| && OnLine(es, i, n)
    ensures i <= n
    decreases n
  {
    if i != n { LineAscends(es, i, Before(es, n)); }
  }

  lemma MadeFrom(sts: seq<State>, es: seq<Event>, n: nat)
    requires IsHistory(sts, es) && 0 < n <= |es| && es[n - 1] != StartEmpty
    ensures sts[n] == Runs.Run(sts[Before(es, n)], OpOf(es[n - 1]))
  {
    assert Next(sts, es, n - 1);
    if OpOf(es[n - 1]) != [] { OneOp(sts[Before(es, n)], OpOf(es[n - 1])[0]); }
  }

  lemma OneOp(st: State, op: Runs.Op)
    ensures Runs.Run(st, [op]) == Runs.Step(st, op)
  {
    Runs.RunSnoc(st, [], op);
    assert [] + [op] == [op];
  }

  lemma {:induction false} RunJoin(st: State, a: seq<Runs.Op>, b: seq<Runs.Op>)
    ensures Runs.Run(st, a + b) == Runs.Run(Runs.Run(st, a), b)
    decreases |b|
  {
    if b == [] {
      assert a + b == a;
    } else {
      var k := |b| - 1;
      assert a + b == (a + b[..k]) + [b[k]] && b == b[..k] + [b[k]];
      RunJoin(st, a, b[..k]);
      Runs.RunSnoc(st, a + b[..k], b[k]);
      Runs.RunSnoc(Runs.Run(st, a), b[..k], b[k]);
    }
  }

  /** A store is what its own line of operations makes of it, however many restarts there
      were; whatever is off the line has never happened to it. */
  lemma {:induction false} LineIsRun(sts: seq<State>, es: seq<Event>, i: nat, n: nat)
    requires IsHistory(sts, es) && n <= |es| && OnLine(es, i, n)
    ensures i <= n && sts[n] == Runs.Run(sts[i], OpsOnLine(es, i, n))
    decreases n
  {
    LineAscends(es, i, n);
    if i != n {
      var b := Before(es, n);
      LineIsRun(sts, es, i, b);
      MadeFrom(sts, es, n);
      RunJoin(sts[i], OpsOnLine(es, i, b), OpOf(es[n - 1]));
    }
  }

  /** Every state of a history is consistent. */
  lemma {:induction false} HistoryConsistent(sts: seq<State>, es: seq<Event>, n: nat)
    requires IsHistory(sts, es) && Runs.Consistent(sts[0]) && n <= |es|
    ensures Runs.Consistent(sts[n])
    decreases n
  {
    if n > 0 {
      if es[n - 1] == StartEmpty {
        assert Next(sts, es, n - 1);
        Runs.EmptyConsistent();
      } else {
        var b := Before(es, n);
        HistoryConsistent(sts, es, b);
        MadeFrom(sts, es, n);
        Runs.RunKeepsConsistent(sts[b], OpOf(es[n - 1]));
      }
    }
  }

  /** No restart is refused or loses anything: it brings back the store of the save, but for
      the boots of unknown workers and an epoch of zero. */
  lemma RestartRecovers(sts: seq<State>, es: seq<Event>, r: nat)
    requires IsHistory(sts, es) && Runs.Consistent(sts[0]) && r < |es| && es[r].Restart?
    ensures es[r].save < r && Runs.Consistent(sts[es[r].save])
    ensures Restore(TakeSnapshot(sts[es[r].save])) == (sts[r + 1], Restored)
    ensures sts[r + 1] == Runs.Recovered(sts[es[r].save])
  {
    assert Next(sts, es, r);
    HistoryConsistent(sts, es, es[r].save);
    Runs.RestoreOfSnapshot(sts[es[r].save]);
  }

  /** The same, without the snapshot. */
  lemma RestartIs(sts: seq<State>, es: seq<Event>, r: nat)
    requires IsHistory(sts, es) && Runs.Consistent(sts[0]) && r < |es| && es[r].Restart?
    ensures es[r].save < r && sts[r + 1] == Runs.Recovered(sts[es[r].save])
  {
    RestartRecovers(sts, es, r);
  }

  // ------------------------------------------------------------------- invalidation

  ghost predicate Dead(st: State, x: StateId) {
    x in st.status && st.status[x].validity == Invalidated
  }

  /** The event invalidates x, directly or through something x derives from. */
  ghost predicate Kills(st: State, e: Event, x: StateId) {
    e.Work? && KillsBy(st, e.op, x)
  }

  ghost predicate KillsBy(st: State, op: Runs.Op, x: StateId) {
    op.InvalidateOp? && op.subject in st.records && x in AffectedBy(st.records, op.subject)
  }

  /** Event k killed x and lies on the line of state n. */
  ghost predicate KilledAt(sts: seq<State>, es: seq<Event>, k: nat, n: nat, x: StateId)
    requires n <= |es| < |sts|
  {
    k < n && OnLine(es, k + 1, n) && Kills(sts[k], es[k], x)
  }

  ghost predicate Killed(sts: seq<State>, es: seq<Event>, n: nat, x: StateId)
    requires n <= |es| < |sts|
  {
    exists k: nat :: KilledAt(sts, es, k, n, x)
  }

  ghost predicate BornDead(st: State, x: StateId) {
    x in st.records && st.records[x].classification.validity == Invalidated
  }

  /** x is the same record in both states, and in the second it is invalidated exactly if it
      was in the first or has just been killed. */
  ghost predicate Survives(st: State, next: State, x: StateId, killed: bool) {
    && x in st.records && x in next.records && next.records[x] == st.records[x]
    && (Dead(next, x) <==> Dead(st, x) || killed)
  }

  lemma InvalidateKills(st: State, op: Runs.Op, x: StateId)
    requires Runs.Consistent(st) && x in st.records && op.InvalidateOp?
    ensures Survives(st, Runs.Step(st, op), x, KillsBy(st, op, x))
  {
    if op.subject in st.records { Runs.InvalidationIsExact(st, op.subject, op.reason, op.detail, x); }
  }

  lemma AdmitSpares(st: State, d: RecordData, x: StateId)
    requires Runs.Consistent(st) && x in st.records && InsertOutcome(st, d).Published?
    ensures Survives(st, Admit(st, d), x, false)
  {
    Runs.AdmitKeepsHistory(st, d, x);
  }

  lemma RecoverSpares(st: State, x: StateId)
    requires Runs.Consistent(st) && x in st.records
    ensures Survives(st, Runs.Step(st, Runs.RecoverOp), x, false)
  {
    Runs.RecoverStep(st);
    RecoveredSpares(st, Runs.Step(st, Runs.RecoverOp), x);
  }

  lemma RecoveredSpares(st: State, next: State, x: StateId)
    requires x in st.records && next == Runs.Recovered(st)
    ensures Survives(st, next, x, false)
  {
  }

  /** One operation, for a record that was there before. */
  lemma DeathBy(st: State, op: Runs.Op, x: StateId)
    requires Runs.Consistent(st) && x in st.records
    ensures Survives(st, Runs.Step(st, op), x, KillsBy(st, op, x))
  {
    match op
    case PublishOp(d) =>
      if PublishOutcomeOf(st, d).Published? { AdmitSpares(st, d, x); }
    case FencedPublishOp(d, c) =>
      if FencedOutcomeOf(st, d, c).Published? { AdmitSpares(st, d, x); }
    case InvalidateOp(_, _, _) => InvalidateKills(st, op, x);
    case AuthorityOp(_) =>
    case RecoverOp => RecoverSpares(st, x);
  }

  lemma DeathOf(st: State, e: Event, x: StateId)
    requires Runs.Consistent(st) && x in st.records && e != StartEmpty
    ensures Survives(st, Runs.Run(st, OpOf(e)), x, Kills(st, e, x))
  {
    if OpOf(e) != [] {
      OneOp(st, OpOf(e)[0]);
      DeathBy(st, OpOf(e)[0], x);
    }
  }

  /** One operation, for a record it has published. */
  lemma BirthBy(st: State, op: Runs.Op, x: StateId)
    requires Runs.Consistent(st) && x !in st.records && x in Runs.Step(st, op).records
    ensures Dead(Runs.Step(st, op), x) <==> BornDead(Runs.Step(st, op), x)
  {
    match op
    case PublishOp(d) =>
    case FencedPublishOp(d, c) =>
    case InvalidateOp(_, _, _) =>
    case AuthorityOp(_) =>
    case RecoverOp => Runs.RecoverStep(st);
  }

  lemma BirthOf(st: State, e: Event, x: StateId)
    requires Runs.Consistent(st) && x !in st.records && x in Runs.Run(st, OpOf(e)).records
    ensures Dead(Runs.Run(st, OpOf(e)), x) <==> BornDead(Runs.Run(st, OpOf(e)), x)
  {
    if OpOf(e) != [] {
      OneOp(st, OpOf(e)[0]);
      BirthBy(st, OpOf(e)[0], x);
    }
  }

  /** What killed x until the previous state of its line, and what kills it now. */
  lemma KilledStep(sts: seq<State>, es: seq<Event>, n: nat, x: StateId)
    requires IsHistory(sts, es) && 0 < n <= |es| && es[n - 1] != StartEmpty
    ensures Killed(sts, es, n, x) <==> Killed(sts, es, Before(es, n), x) || Kills(sts[n - 1], es[n - 1], x)
  {
    var b := Before(es, n);
    if Killed(sts, es, n, x) {
      var k: nat :| KilledAt(sts, es, k, n, x);
      if k != n - 1 {
        LineAscends(es, k + 1, b);
        assert KilledAt(sts, es, k, b, x);
      }
    }
    if Killed(sts, es, b, x) {
      var k: nat :| KilledAt(sts, es, k, b, x);
      assert KilledAt(sts, es, k, n, x);
    }
    if Kills(sts[n - 1], es[n - 1], x) { assert KilledAt(sts, es, n - 1, n, x); }
  }

  /** What was killed was there. */
  lemma KilledWasThere(sts: seq<State>, es: seq<Event>, n: nat, x: StateId)
    requires IsHistory(sts, es) && Runs.Consistent(sts[0]) && n <= |es| && Killed(sts, es, n, x)
    ensures x in sts[n].records
  {
    var k: nat :| KilledAt(sts, es, k, n, x);
    LineAscends(es, k + 1, n);
    ThereAfter(sts, es, k, x);
    ThereStill(sts, es, k + 1, n, x);
  }

  lemma ThereAfter(sts: seq<State>, es: seq<Event>, k: nat, x: StateId)
    requires IsHistory(sts, es) && Runs.Consistent(sts[0]) && k < |es| && Kills(sts[k], es[k], x)
    ensures x in sts[k + 1].records
  {
    HistoryConsistent(sts, es, k);
    assert x in sts[k].records;
    DeathAt(sts, es, k, x);
  }

  lemma ThereStill(sts: seq<State>, es: seq<Event>, i: nat, n: nat, x: StateId)
    requires IsHistory(sts, es) && Runs.Consistent(sts[0]) && n <= |es| && OnLine(es, i, n)
    requires i <= n && x in sts[i].records
    ensures x in sts[n].records
  {
    HistoryConsistent(sts, es, i);
    LineIsRun(sts, es, i, n);
    Runs.RunKeepsHistory(sts[i], OpsOnLine(es, i, n), x);
  }

  lemma DeathAt(sts: seq<State>, es: seq<Event>, k: nat, x: StateId)
    requires IsHistory(sts, es) && k < |es| && es[k].Work? && Runs.Consistent(sts[k]) && x in sts[k].records
    ensures Survives(sts[k], sts[k + 1], x, Kills(sts[k], es[k], x))
  {
    assert Next(sts, es, k);
    DeathBy(sts[k], es[k].op, x);
  }

  /** Over any history that began empty, whatever it saved and restarted from: a record is
      invalidated exactly if it was published so, or some event on its store's line
      invalidated it or something it derives from.  An invalidation off the line is undone. */
  lemma {:induction false} InvalidatedIff(sts: seq<State>, es: seq<Event>, n: nat, x: StateId)
    requires IsHistory(sts, es) && sts[0] == Empty && n <= |es| && x in sts[n].records
    ensures Dead(sts[n], x) <==> BornDead(sts[n], x) || Killed(sts, es, n, x)
    decreases n
  {
    Runs.EmptyConsistent();
    if n > 0 {
      assert Next(sts, es, n - 1);
      var b := Before(es, n);
      HistoryConsistent(sts, es, b);
      MadeFrom(sts, es, n);
      KilledStep(sts, es, n, x);
      if x in sts[b].records {
        InvalidatedIff(sts, es, b, x);
        DeathOf(sts[b], es[n - 1], x);
      } else {
        BirthOf(sts[b], es[n - 1], x);
        if Killed(sts, es, b, x) { KilledWasThere(sts, es, b, x); }
      }
    }
  }

  /** Event r goes back behind state i to where x was not invalidated. */
  ghost predicate Undoes(sts: seq<State>, es: seq<Event>, i: nat, r: nat, x: StateId)
    requires r < |es| < |sts|
  {
    es[r] == StartEmpty || (es[r].Restart? && es[r].save < i && es[r].save < |sts| && !Dead(sts[es[r].save], x))
  }

  ghost predicate NeverUndone(sts: seq<State>, es: seq<Event>, i: nat, n: nat, x: StateId)
    requires n <= |es| < |sts|
  {
    forall r :: i <= r < n ==> !Undoes(sts, es, i, r, x)
  }

  lemma {:induction false} StaysDead(sts: seq<State>, es: seq<Event>, i: nat, m: nat, n: nat, x: StateId)
    requires IsHistory(sts, es) && Runs.Consistent(sts[0]) && i <= m <= n <= |es|
    requires x in sts[i].records && Dead(sts[i], x)
    requires NeverUndone(sts, es, i, n, x)
    ensures x in sts[m].records && Dead(sts[m], x)
    decreases m
  {
    if i < m {
      var b := Before(es, m);
      assert !Undoes(sts, es, i, m - 1, x);
      HistoryConsistent(sts, es, b);
      MadeFrom(sts, es, m);
      if i <= b { StaysDead(sts, es, i, b, n, x); }
      DeathOf(sts[b], es[m - 1], x);
    }
  }

  lemma UndoneAt(sts: seq<State>, es: seq<Event>, i: nat, r: nat, x: StateId)
    requires IsHistory(sts, es) && Runs.Consistent(sts[0]) && r < |es| && Undoes(sts, es, i, r, x)
    ensures !Dead(sts[r + 1], x)
  {
    if es[r].Restart? {
      RestartIs(sts, es, r);
    } else {
      assert Next(sts, es, r);
    }
  }

  /** An invalidated record stays invalidated exactly as long as there is no fresh start and no
      restart from a save made before the invalidation, when it was not invalidated yet. */
  lemma InvalidationPermanentIff(sts: seq<State>, es: seq<Event>, i: nat, n: nat, x: StateId)
    requires IsHistory(sts, es) && Runs.Consistent(sts[0]) && i <= n <= |es|
    requires x in sts[i].records && Dead(sts[i], x)
    ensures (forall m :: i <= m <= n ==> Dead(sts[m], x)) <==> NeverUndone(sts, es, i, n, x)
  {
    if NeverUndone(sts, es, i, n, x) {
      forall m | i <= m <= n ensures Dead(sts[m], x) { StaysDead(sts, es, i, m, n, x); }
    } else {
      var r :| i <= r < n && Undoes(sts, es, i, r, x);
      UndoneAt(sts, es, i, r, x);
    }
  }

  /** While it lasts, neither the record nor anything derived from it, published before or
      since, is eligible. */
  lemma InvalidationBars(sts: seq<State>, es: seq<Event>, i: nat, n: nat, x: StateId, y: StateId, q: ReuseRequest)
    requires IsHistory(sts, es) && Runs.Consistent(sts[0]) && i < n <= |es|
    requires es[i].Work? && es[i].op.InvalidateOp? && es[i].op.subject == x && x in sts[i].records
    requires NeverUndone(sts, es, i + 1, n, x)
    requires y == x || Ancestor(sts[n].records, x, y)
    ensures CheckReuse(sts[n], y, q).eligibility != Eligible
  {
    HistoryConsistent(sts, es, i);
    DeathAt(sts, es, i, x);
    StaysDead(sts, es, i + 1, n, n, x);
    Runs.InvalidAncestorBars(sts[n], x, y, q);
  }

  /** After a restart every reuse question has the answer it had at the save, whatever has
      been invalidated since. */
  lemma RestartAnswersAsSaved(sts: seq<State>, es: seq<Event>, r: nat, y: StateId, q: ReuseRequest)
    requires IsHistory(sts, es) && Runs.Consistent(sts[0]) && r < |es| && es[r].Restart?
    ensures es[r].save < r && CheckReuse(sts[r + 1], y, q) == CheckReuse(sts[es[r].save], y, q)
  {
    RestartIs(sts, es, r);
    SameAnswers(sts[es[r].save], y, q);
  }

  lemma SameAnswers(st: State, y: StateId, q: ReuseRequest)
    ensures CheckReuse(Runs.Recovered(st), y, q) == CheckReuse(st, y, q)
  {
  }

  // ------------------------------------------------------------------------ fencing

  /** What operations from st on change in the authority.  Recovering an epoch that has
      wrapped to zero is one more roll. */
  ghost function ChangesIn(st: State, ops: seq<Runs.Op>): seq<F.Change>
    decreases |ops|
  {
    if ops == [] then []
    else
      var front := ops[..|ops| - 1];
      ChangesIn(st, front) + ChangeOf(Runs.Run(st, front).authority.epoch, ops[|ops| - 1])
  }

  function ChangeOf(epoch: u64, op: Runs.Op): seq<F.Change> {
    match op
    case AuthorityOp(ch) => [ch]
    case RecoverOp => if epoch == 0 then [F.RollEpoch] else []
    case _ => []
  }

  /** Two authorities judge the claims of worker w, and anonymous ones, alike. */
  ghost predicate AlikeFor(a: F.Authority, b: F.Authority, w: WorkerId) {
    && a.(boots := b.boots) == b
    && (w != 0 ==> (w in a.boots <==> w in b.boots) && (w in a.boots ==> a.boots[w] == b.boots[w]))
  }

  lemma AlikeJudged(a: F.Authority, b: F.Authority, c: F.Claim)
    requires AlikeFor(a, b, c.workerId)
    ensures F.Evaluate(a, c) == F.Evaluate(b, c)
  {
  }

  lemma AlikeChanged(a: F.Authority, b: F.Authority, w: WorkerId, ch: F.Change)
    requires AlikeFor(a, b, w)
    ensures AlikeFor(F.Apply(a, ch), F.Apply(b, ch), w)
  {
  }

  ghost predicate Knows(st: State, w: WorkerId) {
    w == 0 || w in st.workers
  }

  /** One operation: the worker stays known, and only authority changes matter to it. */
  lemma AlikeAfter(a: F.Authority, st: State, w: WorkerId, op: Runs.Op)
    requires Runs.Consistent(st) && Knows(st, w) && AlikeFor(a, st.authority, w)
    ensures Knows(Runs.Step(st, op), w)
    ensures AlikeFor(F.ApplyAll(a, ChangeOf(st.authority.epoch, op)), Runs.Step(st, op).authority, w)
  {
    match op
    case AuthorityOp(ch) =>
      AlikeChanged(a, st.authority, w, ch);
      OneChange(a, ch);
    case RecoverOp =>
      Runs.RecoverStep(st);
      AlikeRecovered(a, st, Runs.Step(st, op), w);
    case _ =>
  }

  lemma OneChange(a: F.Authority, ch: F.Change)
    ensures F.ApplyAll(a, [ch]) == F.Apply(a, ch)
  {
    F.ApplyAllSnoc(a, [], ch);
    assert [] + [ch] == [ch];
  }

  lemma AlikeRecovered(a: F.Authority, st: State, next: State, w: WorkerId)
    requires Knows(st, w) && AlikeFor(a, st.authority, w) && next == Runs.Recovered(st)
    ensures Knows(next, w)
    ensures AlikeFor(F.ApplyAll(a, ChangeOf(st.authority.epoch, Runs.RecoverOp)), next.authority, w)
  {
    OneChange(a, F.RollEpoch);
  }

  lemma {:induction false} ApplyJoin(a: F.Authority, x: seq<F.Change>, y: seq<F.Change>)
    ensures F.ApplyAll(a, x + y) == F.ApplyAll(F.ApplyAll(a, x), y)
    decreases |x|
  {
    if x == [] {
      assert x + y == y;
    } else {
      assert (x + y)[1..] == x[1..] + y;
      ApplyJoin(F.Apply(a, x[0]), x[1..], y);
    }
  }

  /** To a worker the store knows, a run is just the authority changes in it. */
  lemma {:induction false} RunAlike(st: State, ops: seq<Runs.Op>, w: WorkerId)
    requires Runs.Consistent(st) && Knows(st, w)
    ensures Knows(Runs.Run(st, ops), w)
    ensures AlikeFor(F.ApplyAll(st.authority, ChangesIn(st, ops)), Runs.Run(st, ops).authority, w)
    decreases |ops|
  {
    if ops != [] {
      var front, op := ops[..|ops| - 1], ops[|ops| - 1];
      assert ops == front + [op];
      RunAlike(st, front, w);
      Runs.RunKeepsConsistent(st, front);
      Runs.RunSnoc(st, front, op);
      var mid := Runs.Run(st, front);
      AlikeAfter(F.ApplyAll(st.authority, ChangesIn(st, front)), mid, w, op);
      ApplyJoin(st.authority, ChangesIn(st, front), ChangeOf(mid.authority.epoch, op));
    }
  }

  /** What has changed in the authority on the line from state i to state n. */
  ghost function ChangesOnLine(sts: seq<State>, es: seq<Event>, i: nat, n: nat): seq<F.Change>
    requires i < |sts| && n <= |es|
  {
    ChangesIn(sts[i], OpsOnLine(es, i, n))
  }

  /** Fencing across saves and restarts.  A claim accepted in some state, by a known worker or
      anonymous, is accepted in a descendant of that state exactly if the authority changes on
      the line between the two are harmless; changes that a restart went back behind do not
      count. */
  lemma FencedIff(sts: seq<State>, es: seq<Event>, i: nat, n: nat, c: F.Claim)
    requires IsHistory(sts, es) && Runs.Consistent(sts[0]) && i <= n <= |es| && OnLine(es, i, n)
    requires Knows(sts[i], c.workerId) && F.Evaluate(sts[i].authority, c) == F.Accept
    ensures F.Evaluate(sts[n].authority, c) == F.Accept <==> F.Harmless(ChangesOnLine(sts, es, i, n), c)
  {
    var ops := OpsOnLine(es, i, n);
    HistoryConsistent(sts, es, i);
    LineIsRun(sts, es, i, n);
    RunAlike(sts[i], ops, c.workerId);
    AlikeJudged(F.ApplyAll(sts[i].authority, ChangesIn(sts[i], ops)), sts[n].authority, c);
    F.StillAcceptedIff(sts[i].authority, ChangesIn(sts[i], ops), c);
  }

  /** A restart brings stale work back: a claim accepted at the save is accepted again after a
      restart from it, and the store that was running until then, if it descends from the save,
      rejected it exactly if the changes since the save are not harmless. */
  lemma RestartRevives(sts: seq<State>, es: seq<Event>, r: nat, c: F.Claim)
    requires IsHistory(sts, es) && Runs.Consistent(sts[0]) && r < |es| && es[r].Restart?
    requires es[r].save < r && OnLine(es, es[r].save, r)
    requires var st := sts[es[r].save];
             st.authority.epoch != 0 && Knows(st, c.workerId) && F.Evaluate(st.authority, c) == F.Accept
    ensures F.Evaluate(sts[r + 1].authority, c) == F.Accept
    ensures F.Evaluate(sts[r].authority, c) != F.Accept <==>
            !F.Harmless(ChangesOnLine(sts, es, es[r].save, r), c)
  {
    RestartIs(sts, es, r);
    Runs.RestartKeepsVerdicts(sts[es[r].save], c);
    FencedIff(sts, es, es[r].save, r, c);
  }

  /** A restart accepts no claim that the store running until then did not, exactly if the
      authority it brings back is at least as tight as the one it replaces. */
  lemma RestartTightensIff(sts: seq<State>, es: seq<Event>, r: nat)
    requires IsHistory(sts, es) && Runs.Consistent(sts[0]) && r < |es| && es[r].Restart?
    ensures es[r].save < r
    ensures F.AcceptsNoMore(sts[r + 1].authority, sts[r].authority) <==>
            F.Tighter(Runs.Recovered(sts[es[r].save]).authority, sts[r].authority)
  {
    RestartIs(sts, es, r);
    F.AcceptsNoMoreIff(sts[r + 1].authority, sts[r].authority);
  }
}
