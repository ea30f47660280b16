/** The coordinator process (coordinator.cpp): connection handlers that run concurrently over
    one store.  A fenced publish is two atomic steps, the claim check without the store's
    lock and the insertion under it; authority changes can fall in between. */
module Coordinator {
  import opened Ids
  import opened Records
  import opened Registry
  import F = Fence
  import Runs

  // ------------------------------------------------------------------- the machine

  /** One publish call: what it carries and when its frame was received. */
  datatype Call = Call(data: RecordData, claim: F.Claim, began: nat)

  /** Where a handler is.  Refusing: about to count a rejection; Inserted: about to count an
      acceptance. */
  datatype Pc = Idle | Decoded(call: Call) | Checked(call: Call, at: nat) | Inserted | Refusing

  datatype Entry = Entry(call: Call, checkedAt: nat, insertedAt: nat)

  /** past lists the authority after every step so far; log, the insertions made. */
  datatype Machine = Machine(
    store: State, accepted: nat, rejected: nat, frames: nat, pcs: seq<Pc>,
    past: seq<F.Authority>, log: seq<Entry>)

  datatype Action =
    | Receive(h: nat, decoded: Option<(RecordData, F.Claim)>)  // None: a malformed publish
    | Check(h: nat)
    | Insert(h: nat)
    | Count(h: nat)
    | Change(change: F.Change)

  function Begin(st: State, handlers: nat): Machine {
    Machine(st, 0, 0, 0, seq(handlers, i => Idle), [st.authority], [])
  }

  function Tick(m: Machine): Machine {
    m.(past := m.past + [m.store.authority])
  }

  ghost predicate Step(m: Machine, a: Action, n: Machine) {
    match a
    case Receive(h, decoded) =>
      && h < |m.pcs| && m.pcs[h] == Idle
      && n == Tick(m.(frames := m.frames + 1, pcs := m.pcs[h := AfterReceive(m, decoded)]))
    case Check(h) =>
      && h < |m.pcs| && m.pcs[h].Decoded?
      && n == Tick(m.(pcs := m.pcs[h := AfterCheck(m, m.pcs[h].call)]))
    case Insert(h) =>
      && h < |m.pcs| && m.pcs[h].Checked? && n == Tick(AfterInsert(m, h, m.pcs[h].call, m.pcs[h].at))
    case Count(h) =>
      && h < |m.pcs| && (m.pcs[h] == Inserted || m.pcs[h] == Refusing)
      && n == Tick(if m.pcs[h] == Inserted then m.(accepted := m.accepted + 1, pcs := m.pcs[h := Idle])
                   else m.(rejected := m.rejected + 1, pcs := m.pcs[h := Idle]))
    case Change(ch) => n == Tick(m.(store := m.store.(authority := F.Apply(m.store.authority, ch))))
  }

  function AfterReceive(m: Machine, decoded: Option<(RecordData, F.Claim)>): Pc {
    if decoded.None? then Refusing else Decoded(Call(decoded.value.0, decoded.value.1, |m.past|))
  }

  ghost function AfterCheck(m: Machine, call: Call): Pc {
    if !WellFormed(call.data) || F.Evaluate(m.store.authority, call.claim) != F.Accept then Refusing
    else Checked(call, |m.past|)
  }

  ghost function AfterInsert(m: Machine, h: nat, call: Call, at: nat): Machine
    requires h < |m.pcs|
  {
    if PublishOutcomeOf(m.store, call.data).Published?
    then m.(store := Admit(m.store, call.data), pcs := m.pcs[h := Inserted],
            log := m.log + [Entry(call, at, |m.past|)])
    else m.(pcs := m.pcs[h := Refusing])
  }

  ghost predicate IsRun(ms: seq<Machine>, acts: seq<Action>) {
    |ms| == |acts| + 1 && forall i :: 0 <= i < |acts| ==> Step(ms[i], acts[i], ms[i + 1])
  }

  // --------------------------------------------------------------------- accounting

  function Busy(pcs: seq<Pc>): nat {
    if pcs == [] then 0 else (if pcs[0] == Idle then 0 else 1) + Busy(pcs[1..])
  }

  function Uncounted(pcs: seq<Pc>): nat {
    if pcs == [] then 0 else (if pcs[0] == Inserted then 1 else 0) + Uncounted(pcs[1..])
  }

  lemma {:induction false} CountsUpdate(pcs: seq<Pc>, h: nat, pc: Pc)
    requires h < |pcs|
    ensures Busy(pcs[h := pc]) + (if pcs[h] == Idle then 0 else 1) == Busy(pcs) + (if pc == Idle then 0 else 1)
    ensures Uncounted(pcs[h := pc]) + (if pcs[h] == Inserted then 1 else 0) ==
            Uncounted(pcs) + (if pc == Inserted then 1 else 0)
    decreases h
  {
    if h == 0 {
      assert pcs[h := pc][1..] == pcs[1..];
    } else {
      assert pcs[h := pc][1..] == pcs[1..][h - 1 := pc];
      CountsUpdate(pcs[1..], h - 1, pc);
    }
  }

  lemma {:induction false} AllIdle(pcs: seq<Pc>)
    requires forall i :: 0 <= i < |pcs| ==> pcs[i] == Idle
    ensures Busy(pcs) == 0 && Uncounted(pcs) == 0
  {
    if pcs != [] { AllIdle(pcs[1..]); }
  }

  /** The claim was accepted by the authority that was current at step k. */
  ghost predicate AcceptedAt(past: seq<F.Authority>, k: nat, c: F.Claim) {
    k <= |past| && 0 < k && F.Evaluate(past[k - 1], c) == F.Accept
  }

  /** A checked call was accepted during the call; so was every logged one. */
  ghost predicate PcOk(m: Machine, pc: Pc) {
    match pc
    case Decoded(call) => call.began <= |m.past|
    case Checked(call, at) =>
      WellFormed(call.data) && call.began <= at && AcceptedAt(m.past, at, call.claim)
    case _ => true
  }

  ghost predicate EntryOk(m: Machine, e: Entry) {
    && e.call.began <= e.checkedAt <= e.insertedAt <= |m.past|
    && AcceptedAt(m.past, e.checkedAt, e.call.claim)
    && e.call.data.Subject() in m.store.records && m.store.records[e.call.data.Subject()] == e.call.data
  }

  ghost predicate Accounted(m: Machine, size0: nat) {
    && |m.store.records| == size0 + m.accepted + Uncounted(m.pcs)
    && m.frames == m.accepted + m.rejected + Busy(m.pcs)
    && |m.log| == m.accepted + Uncounted(m.pcs)
  }

  ghost predicate Justified(m: Machine, st0: State) {
    && (forall h :: 0 <= h < |m.pcs| ==> PcOk(m, m.pcs[h]))
    && (forall i :: 0 <= i < |m.log| ==> EntryOk(m, m.log[i]))
    && (forall s :: s in m.store.records ==> s in st0.records || Logged(m.log, s))
  }

  ghost predicate Logged(log: seq<Entry>, s: StateId) {
    exists i :: 0 <= i < |log| && log[i].call.data.Subject() == s
  }

  ghost predicate Current(m: Machine) {
    |m.past| > 0 && m.past[|m.past| - 1] == m.store.authority && Runs.Consistent(m.store)
  }

  ghost predicate Inv(m: Machine, st0: State) {
    Current(m) && Accounted(m, |st0.records|) && Justified(m, st0)
  }

  lemma BeginInv(st: State, handlers: nat)
    requires Runs.Consistent(st)
    ensures Inv(Begin(st, handlers), st)
  {
    AllIdle(Begin(st, handlers).pcs);
  }

  lemma StepKeepsCurrent(m: Machine, a: Action, n: Machine)
    requires Current(m) && Step(m, a, n)
    ensures Current(n) && n.past == m.past + [n.store.authority]
  {
    match a
    case Insert(h) =>
      if PublishOutcomeOf(m.store, m.pcs[h].call.data).Published? {
        Runs.AdmitKeepsConsistent(m.store, m.pcs[h].call.data);
      }
    case Change(ch) => Runs.StepKeepsConsistent(m.store, Runs.AuthorityOp(ch));
    case _ =>
  }

  lemma AdmitSize(st: State, d: RecordData)
    requires PublishOutcomeOf(st, d).Published?
    ensures |Admit(st, d).records| == |st.records| + 1
  {
    assert Admit(st, d).records.Keys == st.records.Keys + {d.Subject()};
  }

  lemma MoveKeepsAccounts(m: Machine, h: nat, pc: Pc, n: Machine, size0: nat)
    requires Accounted(m, size0) && h < |m.pcs| && n.pcs == m.pcs[h := pc]
    requires |n.store.records| - |m.store.records| == |n.log| - |m.log| ==
             n.accepted - m.accepted + (if pc == Inserted then 1 else 0) - (if m.pcs[h] == Inserted then 1 else 0)
    requires n.frames - m.frames == n.accepted - m.accepted + n.rejected - m.rejected +
                                    (if pc == Idle then 0 else 1) - (if m.pcs[h] == Idle then 0 else 1)
    ensures Accounted(n, size0)
  {
    CountsUpdate(m.pcs, h, pc);
  }

  lemma CheckJustified(m: Machine, call: Call, n: Machine)
    requires Current(m) && call.began <= |m.past| && n.past == m.past + [m.store.authority]
    ensures PcOk(n, AfterCheck(m, call))
  {
    assert n.past[|m.past| - 1] == m.store.authority;
  }

  /** Receiving, checking and counting move one handler and nothing else of the store or log. */
  lemma Moved(m: Machine, a: Action, n: Machine) returns (h: nat, pc: Pc)
    requires Step(m, a, n) && !a.Insert? && !a.Change?
    ensures h < |m.pcs| && n.pcs == m.pcs[h := pc] && n.store == m.store && n.log == m.log
    ensures n.accepted - m.accepted == (if m.pcs[h] == Inserted then 1 else 0) && pc != Inserted
    ensures n.frames - m.frames == n.accepted - m.accepted + n.rejected - m.rejected +
                                   (if pc == Idle then 0 else 1) - (if m.pcs[h] == Idle then 0 else 1)
    ensures Current(m) && PcOk(m, m.pcs[h]) ==> PcOk(n, pc)
  {
    match a
    case Receive(i, decoded) => h, pc := i, AfterReceive(m, decoded);
    case Check(i) =>
      h, pc := i, AfterCheck(m, m.pcs[i].call);
      if Current(m) && PcOk(m, m.pcs[i]) { CheckJustified(m, m.pcs[i].call, n); }
    case Count(i) => h, pc := i, Idle;
  }

  lemma StepKeepsAccounts(m: Machine, a: Action, n: Machine, size0: nat)
    requires Step(m, a, n) && Accounted(m, size0)
    ensures Accounted(n, size0)
  {
    if a.Insert? {
      InsertKeepsAccounts(m, a.h, n, size0);
    } else if !a.Change? {
      var h, pc := Moved(m, a, n);
      MoveKeepsAccounts(m, h, pc, n, size0);
    }
  }

  lemma InsertKeepsAccounts(m: Machine, h: nat, n: Machine, size0: nat)
    requires Step(m, Insert(h), n) && Accounted(m, size0)
    ensures Accounted(n, size0)
  {
    var d := m.pcs[h].call.data;
    if PublishOutcomeOf(m.store, d).Published? {
      AdmitSize(m.store, d);
      MoveKeepsAccounts(m, h, Inserted, n, size0);
    } else {
      MoveKeepsAccounts(m, h, Refusing, n, size0);
    }
  }

  // --------------------------------------------------- every insertion was justified

  lemma PastGrows(m: Machine, n: Machine)
    requires n.past == m.past + [n.store.authority]
    ensures forall k, c :: AcceptedAt(m.past, k, c) ==> AcceptedAt(n.past, k, c)
    ensures forall pc :: PcOk(m, pc) ==> PcOk(n, pc)
  {
    forall k, c | AcceptedAt(m.past, k, c) ensures AcceptedAt(n.past, k, c) {
      assert n.past[k - 1] == m.past[k - 1];
    }
  }

  lemma EntriesStay(m: Machine, n: Machine)
    requires n.past == m.past + [n.store.authority]
    requires forall s :: s in m.store.records ==> s in n.store.records && n.store.records[s] == m.store.records[s]
    ensures forall e :: EntryOk(m, e) ==> EntryOk(n, e)
  {
    PastGrows(m, n);
  }

  /** A step that leaves records and log alone, moving at most one handler. */
  lemma MoveKeepsJustified(m: Machine, h: nat, pc: Pc, n: Machine, st0: State)
    requires Justified(m, st0) && n.past == m.past + [n.store.authority]
    requires n.store.records == m.store.records && n.log == m.log
    requires h < |m.pcs| && n.pcs == m.pcs[h := pc] && PcOk(n, pc)
    ensures Justified(n, st0)
  {
    PastGrows(m, n);
    EntriesStay(m, n);
  }

  lemma InsertKeepsJustified(m: Machine, h: nat, n: Machine, st0: State)
    requires Step(m, Insert(h), n) && Justified(m, st0) && n.past == m.past + [n.store.authority]
    ensures Justified(n, st0)
  {
    var call, at := m.pcs[h].call, m.pcs[h].at;
    if PublishOutcomeOf(m.store, call.data).Published? {
      assert PcOk(m, m.pcs[h]);
      PastGrows(m, n);
      EntriesStay(m, n);
      var e := Entry(call, at, |m.past|);
      assert EntryOk(n, e);
      LogGrows(m.log, e);
    } else {
      MoveKeepsJustified(m, h, Refusing, n, st0);
    }
  }

  lemma LogGrows(log: seq<Entry>, e: Entry)
    ensures Logged(log + [e], e.call.data.Subject())
    ensures forall s :: Logged(log, s) ==> Logged(log + [e], s)
  {
    assert (log + [e])[|log|] == e;
    forall s | Logged(log, s) ensures Logged(log + [e], s) {
      var i :| 0 <= i < |log| && log[i].call.data.Subject() == s;
      assert (log + [e])[i] == log[i];
    }
  }

  lemma StepKeepsJustified(m: Machine, a: Action, n: Machine, st0: State)
    requires Step(m, a, n) && Current(m) && Justified(m, st0) && n.past == m.past + [n.store.authority]
    ensures Justified(n, st0)
  {
    if a.Insert? {
      InsertKeepsJustified(m, a.h, n, st0);
    } else if a.Change? {
      PastGrows(m, n);
      EntriesStay(m, n);
    } else {
      var h, pc := Moved(m, a, n);
      assert PcOk(m, m.pcs[h]);
      MoveKeepsJustified(m, h, pc, n, st0);
    }
  }

  /** Whatever the interleaving: the store stays consistent; its size is the initial size plus
      the accepted count plus insertions not yet counted; frames are accepted, rejected or in
      progress; and every record that was not there initially was inserted by a call whose
      claim an authority current at some point during that call had accepted. */
  lemma {:induction false} RunKeepsInv(ms: seq<Machine>, acts: seq<Action>, st0: State)
    requires IsRun(ms, acts) && Inv(ms[0], st0)
    ensures Inv(ms[|acts|], st0)
    decreases |acts|
  {
    if acts != [] {
      var k := |acts| - 1;
      var m, a, n := LastStep(ms, acts);
      RunKeepsInv(ms[..k + 1], acts[..k], st0);
      StepKeepsInv(m, a, n, st0);
    }
  }

  lemma LastStep(ms: seq<Machine>, acts: seq<Action>) returns (m: Machine, a: Action, n: Machine)
    requires IsRun(ms, acts) && acts != []
    ensures IsRun(ms[..|acts|], acts[..|acts| - 1]) && ms[..|acts|][0] == ms[0]
    ensures m == ms[..|acts|][|acts| - 1] && n == ms[|acts|] && Step(m, a, n)
  {
    var k := |acts| - 1;
    m, a, n := ms[k], acts[k], ms[k + 1];
    forall i | 0 <= i < k ensures Step(ms[..k + 1][i], acts[..k][i], ms[..k + 1][i + 1]) {
      assert Step(ms[i], acts[i], ms[i + 1]);
    }
  }

  lemma StepKeepsInv(m: Machine, a: Action, n: Machine, st0: State)
    requires Inv(m, st0) && Step(m, a, n)
    ensures Inv(n, st0)
  {
    StepKeepsCurrent(m, a, n);
    StepKeepsAccounts(m, a, n, |st0.records|);
    StepKeepsJustified(m, a, n, st0);
  }

  /** Once the handlers are idle, the two counters account for every publish frame. */
  lemma IdleAccounts(ms: seq<Machine>, acts: seq<Action>, st0: State)
    requires IsRun(ms, acts) && Inv(ms[0], st0)
    requires forall h :: 0 <= h < |ms[|acts|].pcs| ==> ms[|acts|].pcs[h] == Idle
    ensures var m := ms[|acts|];
            m.accepted + m.rejected == m.frames &&
              |m.store.records| == |st0.records| + m.accepted == |st0.records| + |m.log|
  {
    RunKeepsInv(ms, acts, st0);
    AllIdle(ms[|acts|].pcs);
  }

  // ------------------------------------------------------------ the gap in between

  /** The authority changes among the actions from i up to j. */
  function ChangesBetween(acts: seq<Action>, i: nat, j: nat): seq<F.Change>
    requires i <= j <= |acts|
    decreases j
  {
    if i == j then [] else ChangesBetween(acts, i, j - 1) + ChangeOf(acts[j - 1])
  }

  function ChangeOf(a: Action): seq<F.Change> {
    if a.Change? then [a.change] else []
  }

  /** A run from the very beginning. */
  ghost predicate IsHistory(ms: seq<Machine>, acts: seq<Action>, st0: State, handlers: nat) {
    IsRun(ms, acts) && ms[0] == Begin(st0, handlers) && Runs.Consistent(st0)
  }

  lemma StepTicks(m: Machine, a: Action, n: Machine)
    requires Step(m, a, n)
    ensures n.past == m.past + [n.store.authority]
    ensures n.store.authority == AfterAction(m.store.authority, a)
  {
  }

  /** The recorded past is the authority of every state of the run so far. */
  lemma {:induction false} PastIsAuthorities(ms: seq<Machine>, acts: seq<Action>, j: nat)
    requires IsRun(ms, acts) && ms[0].past == [ms[0].store.authority] && j <= |acts|
    ensures |ms[j].past| == j + 1 && forall i :: 0 <= i <= j ==> ms[j].past[i] == ms[i].store.authority
    decreases j
  {
    if j > 0 {
      PastIsAuthorities(ms, acts, j - 1);
      assert Step(ms[j - 1], acts[j - 1], ms[j]);
      StepTicks(ms[j - 1], acts[j - 1], ms[j]);
    }
  }

  function AfterAction(authority: F.Authority, a: Action): F.Authority {
    if a.Change? then F.Apply(authority, a.change) else authority
  }

  /** The authorities a run goes through. */
  ghost predicate Evolves(authorities: seq<F.Authority>, acts: seq<Action>) {
    && |authorities| == |acts| + 1
    && forall k :: 0 <= k < |acts| ==> authorities[k + 1] == AfterAction(authorities[k], acts[k])
  }

  ghost function Authorities(ms: seq<Machine>): seq<F.Authority> {
    seq(|ms|, i requires 0 <= i < |ms| => ms[i].store.authority)
  }

  lemma RunEvolves(ms: seq<Machine>, acts: seq<Action>)
    requires IsRun(ms, acts)
    ensures Evolves(Authorities(ms), acts)
  {
    forall k | 0 <= k < |acts| ensures ms[k + 1].store.authority == AfterAction(ms[k].store.authority, acts[k]) {
      assert Step(ms[k], acts[k], ms[k + 1]);
      StepTicks(ms[k], acts[k], ms[k + 1]);
    }
  }

  /** From one state of a run to a later one, the authority undergoes the changes in between. */
  lemma {:induction false} AuthorityBetween(authorities: seq<F.Authority>, acts: seq<Action>, i: nat, j: nat)
    requires Evolves(authorities, acts) && i <= j <= |acts|
    ensures authorities[j] == F.ApplyAll(authorities[i], ChangesBetween(acts, i, j))
    decreases j
  {
    if i < j {
      AuthorityBetween(authorities, acts, i, j - 1);
      var chs := ChangesBetween(acts, i, j - 1);
      BetweenNext(authorities[i], chs, acts[j - 1], authorities[j - 1], authorities[j], chs + ChangeOf(acts[j - 1]));
    }
  }

  lemma BetweenNext(start: F.Authority, chs: seq<F.Change>, a: Action, before: F.Authority, after: F.Authority,
                    all: seq<F.Change>)
    requires before == F.ApplyAll(start, chs) && after == AfterAction(before, a) && all == chs + ChangeOf(a)
    ensures after == F.ApplyAll(start, all)
  {
    ChangesApplied(start, chs, a);
  }

  lemma ChangesApplied(start: F.Authority, chs: seq<F.Change>, a: Action)
    ensures F.ApplyAll(start, chs + ChangeOf(a)) == AfterAction(F.ApplyAll(start, chs), a)
  {
    if a.Change? {
      F.ApplyAllSnoc(start, chs, a.change);
    } else {
      assert chs + ChangeOf(a) == chs;
    }
  }

  /** Handler h checked this call at that step of the run. */
  ghost predicate CheckedBy(ms: seq<Machine>, acts: seq<Action>, h: nat, call: Call, at: nat) {
    && 1 <= at <= |acts| < |ms| && acts[at - 1] == Check(h)
    && h < |ms[at - 1].pcs| && ms[at - 1].pcs[h] == Decoded(call)
  }

  /** A log entry records a check and an insertion by one handler, at those steps of the run. */
  ghost predicate Traced(ms: seq<Machine>, acts: seq<Action>, e: Entry) {
    && 1 <= e.checkedAt <= e.insertedAt <= |acts| && acts[e.insertedAt - 1].Insert?
    && CheckedBy(ms, acts, acts[e.insertedAt - 1].h, e.call, e.checkedAt)
  }

  ghost predicate AllTraced(ms: seq<Machine>, acts: seq<Action>, j: nat)
    requires j < |ms|
  {
    && (forall h :: 0 <= h < |ms[j].pcs| && ms[j].pcs[h].Checked? ==>
          CheckedBy(ms, acts, h, ms[j].pcs[h].call, ms[j].pcs[h].at) && ms[j].pcs[h].at <= j)
    && (forall i :: 0 <= i < |ms[j].log| ==> Traced(ms, acts, ms[j].log[i]))
  }

  lemma StepTraced(ms: seq<Machine>, acts: seq<Action>, j: nat)
    requires IsRun(ms, acts) && j < |acts| && |ms[j].past| == j + 1 && AllTraced(ms, acts, j)
    ensures AllTraced(ms, acts, j + 1)
  {
    var m, n := ms[j], ms[j + 1];
    assert Step(m, acts[j], n);
    match acts[j]
    case Receive(_, _) =>
    case Check(_) =>
    case Insert(_) =>
    case Count(_) =>
    case Change(_) =>
  }

  lemma {:induction false} RunTraced(ms: seq<Machine>, acts: seq<Action>, st0: State, handlers: nat, j: nat)
    requires IsHistory(ms, acts, st0, handlers) && j <= |acts|
    ensures AllTraced(ms, acts, j)
    decreases j
  {
    if j > 0 {
      RunTraced(ms, acts, st0, handlers, j - 1);
      PastIsAuthorities(ms, acts, j - 1);
      StepTraced(ms, acts, j - 1);
    }
  }

  /** The authority changes between the check and the insertion of an entry. */
  function Between(acts: seq<Action>, e: Entry): seq<F.Change>
    requires 1 <= e.checkedAt <= e.insertedAt <= |acts|
  {
    ChangesBetween(acts, e.checkedAt - 1, e.insertedAt - 1)
  }

  /** The authorities that checked an entry's claim, and that were current at its insertion. */
  lemma EntryAuthorities(ms: seq<Machine>, acts: seq<Action>, st0: State, handlers: nat, i: nat)
    requires IsHistory(ms, acts, st0, handlers) && i < |ms[|acts|].log|
    ensures var e := ms[|acts|].log[i];
            && Traced(ms, acts, e)
            && F.Evaluate(ms[e.checkedAt - 1].store.authority, e.call.claim) == F.Accept
            && ms[e.insertedAt - 1].store.authority ==
               F.ApplyAll(ms[e.checkedAt - 1].store.authority, Between(acts, e))
  {
    var e := ms[|acts|].log[i];
    RunTraced(ms, acts, st0, handlers, |acts|);
    EntryTraced(ms, acts, i);
    EntryAccepted(ms, acts, st0, handlers, i);
    RunEvolves(ms, acts);
    EntryBetween(ms, acts, e);
  }

  lemma EntryBetween(ms: seq<Machine>, acts: seq<Action>, e: Entry)
    requires |ms| == |acts| + 1 && Evolves(Authorities(ms), acts) && Traced(ms, acts, e)
    ensures ms[e.insertedAt - 1].store.authority ==
            F.ApplyAll(ms[e.checkedAt - 1].store.authority, Between(acts, e))
  {
    var i, j := e.checkedAt - 1, e.insertedAt - 1;
    AuthorityBetween(Authorities(ms), acts, i, j);
    assert Authorities(ms)[i] == ms[i].store.authority && Authorities(ms)[j] == ms[j].store.authority;
  }

  lemma EntryTraced(ms: seq<Machine>, acts: seq<Action>, i: nat)
    requires |ms| == |acts| + 1 && AllTraced(ms, acts, |acts|) && i < |ms[|acts|].log|
    ensures Traced(ms, acts, ms[|acts|].log[i])
  {
  }

  lemma EntryAccepted(ms: seq<Machine>, acts: seq<Action>, st0: State, handlers: nat, i: nat)
    requires IsHistory(ms, acts, st0, handlers) && i < |ms[|acts|].log|
    ensures var e := ms[|acts|].log[i];
            0 < e.checkedAt <= |ms| && F.Evaluate(ms[e.checkedAt - 1].store.authority, e.call.claim) == F.Accept
  {
    BeginInv(st0, handlers);
    RunKeepsInv(ms, acts, st0);
    EntryHolds(ms[|acts|], st0, i);
    PastIsAuthorities(ms, acts, |acts|);
  }

  lemma EntryHolds(m: Machine, st0: State, i: nat)
    requires Inv(m, st0) && i < |m.log|
    ensures var e := m.log[i]; AcceptedAt(m.past, e.checkedAt, e.call.claim)
  {
    assert EntryOk(m, m.log[i]);
  }

  /** Every insertion of every run goes back to a check by the same handler that accepted the
      claim.  At the insertion the claim is of a past epoch exactly when the epoch rolls in
      between are not a multiple of 2^64; it is fenced out by a worker restart, a retry or a
      generation roll exactly when the last such change in between does not suit it; and it
      would still be accepted exactly when neither is the case. */
  lemma InsertedStaleIff(ms: seq<Machine>, acts: seq<Action>, st0: State, handlers: nat, i: nat)
    requires IsHistory(ms, acts, st0, handlers) && i < |ms[|acts|].log|
    ensures Traced(ms, acts, ms[|acts|].log[i])
    ensures var e := ms[|acts|].log[i];
            var current, between, c := ms[e.insertedAt - 1].store.authority, Between(acts, e), e.call.claim;
            && (F.Evaluate(current, c) == F.Reject(F.CoordinatorEpoch) <==> F.Rolls(between) % TWO64 != 0)
            && (forall d :: d != F.CoordinatorEpoch ==> (F.Fresh(current, c, d) <==> F.LastSuits(between, c, d)))
            && (F.Evaluate(current, c) == F.Accept <==> F.Harmless(between, c))
  {
    EntryAuthorities(ms, acts, st0, handlers, i);
    var e := ms[|acts|].log[i];
    StaleIff(ms[e.checkedAt - 1].store.authority, Between(acts, e), e.call.claim);
  }

  lemma StaleIff(checked: F.Authority, between: seq<F.Change>, c: F.Claim)
    requires F.Evaluate(checked, c) == F.Accept
    ensures var current := F.ApplyAll(checked, between);
            && (F.Evaluate(current, c) == F.Reject(F.CoordinatorEpoch) <==> F.Rolls(between) % TWO64 != 0)
            && (forall d :: d != F.CoordinatorEpoch ==> (F.Fresh(current, c, d) <==> F.LastSuits(between, c, d)))
            && (F.Evaluate(current, c) == F.Accept <==> F.Harmless(between, c))
  {
    F.EvaluateMeans(checked, c);
    assert F.Fresh(checked, c, F.CoordinatorEpoch);
    F.OldEpochStaysFenced(checked, c, between);
    F.StillAcceptedIff(checked, between, c);
    forall d | d != F.CoordinatorEpoch
      ensures F.Fresh(F.ApplyAll(checked, between), c, d) <==> F.LastSuits(between, c, d)
    {
      assert F.Fresh(checked, c, d);
      F.StillFreshIff(checked, between, c, d);
    }
  }

  function ChangeActions(chs: seq<F.Change>): seq<Action>
    decreases |chs|
  {
    if chs == [] then [] else [Change(chs[0])] + ChangeActions(chs[1..])
  }

  /** The steps by which a publish is overtaken by authority changes. */
  function Overtaken(d: RecordData, c: F.Claim, chs: seq<F.Change>): seq<Action> {
    [Receive(0, Some((d, c)))] + ([Check(0)] + (ChangeActions(chs) + [Insert(0)]))
  }

  /** Where they end: the record is in the store and in the log. */
  ghost predicate InsertedAnyway(m: Machine, d: RecordData, c: F.Claim, authority: F.Authority) {
    && m.store.authority == authority && |m.log| == 1 && m.log[0].call == Call(d, c, 1)
    && d.Subject() in m.store.records && m.store.records[d.Subject()] == d
  }

  /** Stale work can become current: any publish that would be accepted can be overtaken by any
      authority changes whatever between its claim check and its insertion, and is inserted
      nonetheless, though its claim is then rejected unless the changes were harmless. */
  lemma AnyPublishCanBeOvertaken(st: State, d: RecordData, c: F.Claim, chs: seq<F.Change>)
    returns (ms: seq<Machine>)
    requires FencedOutcomeOf(st, d, c).Published?
    ensures |ms| == |chs| + 4 && IsRun(ms, Overtaken(d, c, chs)) && ms[0] == Begin(st, 1)
    ensures InsertedAnyway(ms[|chs| + 3], d, c, F.ApplyAll(st.authority, chs))
    ensures F.Evaluate(F.ApplyAll(st.authority, chs), c) == F.Accept <==> F.Harmless(chs, c)
  {
    var m0 := Begin(st, 1);
    var m1 := Received(m0, d, c);
    var m2 := CheckedNext(m1, d, c);
    ms := ChangedThenInserted(m2, d, c, chs);
    ChangesLength(chs);
    RunCons(m1, Check(0), ms, ChangeActions(chs) + [Insert(0)]);
    ms := [m1] + ms;
    RunCons(m0, Receive(0, Some((d, c))), ms, [Check(0)] + (ChangeActions(chs) + [Insert(0)]));
    ms := [m0] + ms;
    F.StillAcceptedIff(st.authority, chs, c);
  }

  lemma {:induction false} ChangesLength(chs: seq<F.Change>)
    ensures |ChangeActions(chs)| == |chs|
    decreases |chs|
  {
    if chs != [] { ChangesLength(chs[1..]); }
  }

  lemma RunCons(m: Machine, a: Action, ms: seq<Machine>, acts: seq<Action>)
    requires IsRun(ms, acts) && Step(m, a, ms[0])
    ensures IsRun([m] + ms, [a] + acts)
  {
    var ns, bs := [m] + ms, [a] + acts;
    forall i | 0 <= i < |bs| ensures Step(ns[i], bs[i], ns[i + 1]) {
      if i > 0 { assert Step(ms[i - 1], acts[i - 1], ms[i]); }
    }
  }

  lemma Received(m: Machine, d: RecordData, c: F.Claim) returns (n: Machine)
    requires m.pcs == [Idle] && m.past == [m.store.authority] && m.log == []
    ensures Step(m, Receive(0, Some((d, c))), n)
    ensures n.store == m.store && n.pcs == [Decoded(Call(d, c, 1))] && n.log == []
  {
    n := Tick(m.(frames := m.frames + 1, pcs := m.pcs[0 := AfterReceive(m, Some((d, c)))]));
  }

  ghost predicate Ready(m: Machine, d: RecordData, c: F.Claim) {
    && |m.pcs| == 1 && m.pcs[0].Checked? && m.pcs[0].call == Call(d, c, 1) && m.log == []
    && PublishOutcomeOf(m.store, d).Published?
  }

  lemma CheckedNext(m: Machine, d: RecordData, c: F.Claim) returns (n: Machine)
    requires m.pcs == [Decoded(Call(d, c, 1))] && m.log == [] && FencedOutcomeOf(m.store, d, c).Published?
    ensures Step(m, Check(0), n)
    ensures n.store == m.store && Ready(n, d, c)
  {
    n := Tick(m.(pcs := m.pcs[0 := AfterCheck(m, m.pcs[0].call)]));
  }

  lemma {:induction false} ChangedThenInserted(m: Machine, d: RecordData, c: F.Claim, chs: seq<F.Change>)
    returns (ms: seq<Machine>)
    requires Ready(m, d, c)
    ensures IsRun(ms, ChangeActions(chs) + [Insert(0)]) && |ms| == |chs| + 2 && ms[0] == m
    ensures InsertedAnyway(ms[|chs| + 1], d, c, F.ApplyAll(m.store.authority, chs))
    decreases |chs|
  {
    if chs == [] {
      ms := [m, Tick(AfterInsert(m, 0, m.pcs[0].call, m.pcs[0].at))];
    } else {
      var n := ChangedNext(m, chs[0], d, c);
      ms := ChangedThenInserted(n, d, c, chs[1..]);
      RunCons(m, Change(chs[0]), ms, ChangeActions(chs[1..]) + [Insert(0)]);
      ms := [m] + ms;
      assert ChangeActions(chs) + [Insert(0)] == [Change(chs[0])] + (ChangeActions(chs[1..]) + [Insert(0)]);
    }
  }

  lemma ChangedNext(m: Machine, ch: F.Change, d: RecordData, c: F.Claim) returns (n: Machine)
    requires Ready(m, d, c)
    ensures Step(m, Change(ch), n) && Ready(n, d, c)
    ensures n.store == m.store.(authority := F.Apply(m.store.authority, ch))
  {
    n := Tick(m.(store := m.store.(authority := F.Apply(m.store.authority, ch))));
  }
}
