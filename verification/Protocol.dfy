/** Frames, claims and publish payloads on the wire (protocol.hpp).  Sockets are replaced by
    a byte stream that hands data over in pieces of any size. */
module Protocol {
  import opened Ids
  import opened Records
  import opened Wire
  import opened RecordCodec
  import F = Fence

  const MAX_FRAME: nat := 32 * 1024 * 1024

  // ---------------------------------------------------------------------- transport

  /** One direction of a connection: bytes accepted for sending, bytes not yet received. */
  class Connection {
    var sent: Bytes
    var pending: Bytes

    constructor (incoming: Bytes)
      ensures sent == [] && pending == incoming
    {
      sent, pending := [], incoming;
    }

    /** send: takes some of the bytes offered, at least one, and at most count of them. */
    method Send(data: Bytes, count: int) returns (n: int)
      requires data != [] && count <= |data|
      modifies this`sent
      ensures count <= 0 ==> n <= 0 && sent == old(sent)
      ensures count > 0 ==> 1 <= n <= count && sent == old(sent) + data[..n]
    {
      if count <= 0 { return 0; }
      var k :| 1 <= k <= count;
      sent := sent + data[..k];
      n := k;
    }

    /** recv: some of the pending bytes, at least one if there are any, and at most count. */
    method Recv(count: nat) returns (got: Bytes)
      requires count > 0
      modifies this`pending
      ensures old(pending) == got + pending && |got| <= count
      ensures got == [] <==> old(pending) == []
    {
      if pending == [] { return []; }
      var k :| 1 <= k <= count && k <= |pending|;
      got, pending := pending[..k], pending[k..];
    }

    /** The byte count a transport call is given is a 32-bit signed integer. */
    static function Narrow(n: nat): int {
      var m := n % TWO32;
      if m < 0x8000_0000 then m else m - TWO32
    }

    /** How many of n bytes get through before the remaining count narrows to nothing: all
        of them exactly below 2 GiB. */
    static function Through(n: nat): (k: nat)
      ensures k <= n && (k == n <==> n < 0x8000_0000)
    {
      if n % TWO32 < 0x8000_0000 then n % TWO32 else 0
    }

    static lemma NarrowMeans(n: nat, at: nat)
      requires at <= Through(n) && at < n
      ensures if at < Through(n) then Narrow(n - at) == Through(n) - at else Narrow(n - at) <= 0
    {
      if n % TWO32 < 0x8000_0000 { assert (n - at) % TWO32 == n % TWO32 - at; }
    }

    /** However the transport splits the data, a prefix of known size goes out: all of it, and
        success, exactly below 2 GiB. */
    method SendAll(data: Bytes) returns (ok: bool)
      modifies this`sent
      ensures ok <==> |data| < 0x8000_0000
      ensures sent == old(sent) + data[..Through(|data|)]
    {
      var at := 0;
      assert data[..0] == [];
      while at < |data|
        invariant 0 <= at <= Through(|data|) && sent == old(sent) + data[..at]
      {
        assert data[at..] != [];
        NarrowMeans(|data|, at);
        var count := Narrow(|data| - at);
        var n := Send(data[at..], count);
        if n <= 0 { return false; }
        assert data[..at] + data[at..][..n] == data[..at + n];
        at := at + n;
      }
      ok := true;
    }

    /** Exactly n bytes, however the transport splits them; success needs n below 2 GiB and
        that many bytes on the stream. */
    method RecvAll(n: nat) returns (r: Option<Bytes>)
      modifies this`pending
      ensures r.Some? <==> n <= |old(pending)| && n < 0x8000_0000
      ensures r.Some? ==> |r.value| == n && old(pending) == r.value + pending
      ensures pending == old(pending)[Smaller(Through(n), |old(pending)|)..]
    {
      var data: Bytes := [];
      while |data| < n
        invariant |data| <= Through(n) && old(pending) == data + pending
      {
        NarrowMeans(n, |data|);
        var count := Narrow(n - |data|);
        if count <= 0 { return None; }
        var got := Recv(count);
        if got == [] {
          assert old(pending) == data;
          return None;
        }
        data := data + got;
      }
      r := Some(data);
    }

    static function Smaller(a: nat, b: nat): nat {
      if a <= b then a else b
    }

    /** Success exactly for frames a receiver takes; what is on the stream afterwards. */
    method SendFrame(f: Frame) returns (ok: bool)
      modifies this`sent
      ensures ok <==> Sendable(f)
      ensures sent == old(sent) + OnStream(f)
    {
      var len := LengthField(f.payload);
      if len > MAX_FRAME {
        return false;
      }
      ok := SendParts(LE(len, 4), f.op, f.payload);
      InThreeParts(old(sent), f);
    }

    method SendParts(head: Bytes, op: u8, payload: Bytes) returns (ok: bool)
      requires |head| == 4
      modifies this`sent
      ensures ok <==> |payload| < 0x8000_0000
      ensures sent == old(sent) + head + [op] + payload[..Through(|payload|)]
    {
      ok := SendAll(head);
      if !ok { return; }
      ok := SendAll([op]);
      if !ok { return; }
      if payload != [] { ok := SendAll(payload); }
    }

    /** The next frame, if the stream holds a whole one. */
    method RecvFrame() returns (f: Option<Frame>)
      modifies this`pending
      ensures ReadBack(EFrame, Sendable, old(pending), f, pending)
    {
      ghost var start := pending;
      var head := RecvAll(4);
      if head.None? { return None; }
      ghost var r1 := pending;
      var len := BinaryReader.Assemble(head.value);
      Headed(start, head.value, r1, len);
      if len == 0 || len > MAX_FRAME { return None; }
      f := RecvBody(len, start);
    }

    /** Opcode and payload, the length field having been read. */
    method RecvBody(len: nat, ghost start: Bytes) returns (f: Option<Frame>)
      requires 0 < len <= MAX_FRAME && start == E32(len, pending)
      modifies this`pending
      ensures ReadBack(EFrame, Sendable, start, f, pending)
    {
      ghost var r1 := pending;
      var op := RecvAll(1);
      if op.None? {
        NoOp(start, len, r1);
        return None;
      }
      ghost var r2 := pending;
      var payload := RecvAll(len - 1);
      if payload.None? {
        NoPayload(start, len, op.value, r2);
        return None;
      }
      f := Some(Frame(op.value[0], payload.value));
      WholeFrame(start, len, op.value, r2, payload.value, pending);
    }
  }

  lemma WholeFrame(start: Bytes, len: u32, op: Bytes, rest: Bytes, payload: Bytes, after: Bytes)
    requires 0 < len <= MAX_FRAME && |op| == 1 && |payload| == len - 1
    requires start == E32(len, op + rest) && rest == payload + after
    ensures start == EFrame(Frame(op[0], payload), after) && Sendable(Frame(op[0], payload))
  {
    assert op == [op[0]];
    var f := Frame(op[0], payload);
    assert LengthField(f.payload) == len && E8(f.op, f.payload + after) == op + rest;
  }

  // ------------------------------------------------------------------------ framing

  datatype Frame = Frame(op: u8, payload: Bytes)

  /** The length field: payload size plus one, computed in 32 bits. */
  function LengthField(payload: Bytes): u32 {
    (|payload| % TWO32 + 1) % TWO32
  }

  function EFrame(f: Frame, t: Bytes): Bytes {
    E32(LengthField(f.payload), E8(f.op, f.payload + t))
  }

  /** What sending f leaves on the stream: nothing if the length field is over the limit,
      otherwise header, opcode and the part of the payload that gets through. */
  function OnStream(f: Frame): Bytes {
    if LengthField(f.payload) > MAX_FRAME then []
    else E32(LengthField(f.payload), E8(f.op, f.payload[..Connection.Through(|f.payload|)]))
  }

  lemma InThreeParts(start: Bytes, f: Frame)
    requires LengthField(f.payload) <= MAX_FRAME
    ensures start + LE(LengthField(f.payload), 4) + [f.op] + f.payload[..Connection.Through(|f.payload|)] ==
            start + OnStream(f)
  {
    var head, part := LE(LengthField(f.payload), 4), f.payload[..Connection.Through(|f.payload|)];
    assert start + head + [f.op] + part == start + (head + ([f.op] + part));
  }

  predicate Sendable(f: Frame) {
    |f.payload| < MAX_FRAME
  }

  lemma Headed(start: Bytes, head: Bytes, rest: Bytes, len: nat)
    requires |head| == 4 && start == head + rest && len == Value(head)
    ensures len < TWO32 && start == E32(len, rest)
    ensures len == 0 || len > MAX_FRAME ==> Unreadable(EFrame, Sendable, start)
  {
    Widths();
    LEOfValue(head);
    HeadIs(len, rest);
    forall f, t | Sendable(f) ensures Head(EFrame(f, t), 4) == |f.payload| + 1 { FrameHead(f, t); }
  }

  lemma FrameHead(f: Frame, t: Bytes)
    requires Sendable(f)
    ensures |EFrame(f, t)| >= 5 && Head(EFrame(f, t), 4) == |f.payload| + 1
  {
    SendableLength(f);
    HeadIs(LengthField(f.payload), E8(f.op, f.payload + t));
  }

  lemma HeadIs(len: u32, rest: Bytes)
    ensures Head(E32(len, rest), 4) == len
  {
  }

  lemma NoOp(start: Bytes, len: u32, rest: Bytes)
    requires start == E32(len, rest) && rest == []
    ensures Unreadable(EFrame, Sendable, start)
  {
    forall f, t | Sendable(f) ensures start != EFrame(f, t) {
      assert |EFrame(f, t)| >= 5;
    }
  }

  lemma NoPayload(start: Bytes, len: u32, op: Bytes, rest: Bytes)
    requires start == E32(len, op + rest) && |op| == 1 && 0 < len <= MAX_FRAME && |rest| < len - 1
    ensures Unreadable(EFrame, Sendable, start)
  {
    forall f, t | Sendable(f) ensures start != EFrame(f, t) {
      assert Head(EFrame(f, t), 4) == |f.payload| + 1 && |EFrame(f, t)| == 5 + |f.payload| + |t|;
    }
  }

  lemma FramesUnambiguous()
    ensures Unambiguous(EFrame, Sendable)
  {
    forall f, g, t, u | Sendable(f) && Sendable(g) && EFrame(f, t) == EFrame(g, u) ensures f == g && t == u {
      SameParts(f, g, t, u);
      SameSplit(f.payload, g.payload, t, u);
    }
  }

  lemma SameParts(f: Frame, g: Frame, t: Bytes, u: Bytes)
    requires Sendable(f) && Sendable(g) && EFrame(f, t) == EFrame(g, u)
    ensures f.op == g.op && |f.payload| == |g.payload| && f.payload + t == g.payload + u
  {
    SameLayout(LengthField(f.payload), LengthField(g.payload), f.op, g.op, f.payload + t, g.payload + u);
    SendableLength(f);
    SendableLength(g);
  }

  lemma SendableLength(f: Frame)
    requires Sendable(f)
    ensures LengthField(f.payload) == |f.payload| + 1
  {
  }

  lemma SameLayout(m: u32, n: u32, v: u8, w: u8, a: Bytes, b: Bytes)
    requires E32(m, E8(v, a)) == E32(n, E8(w, b))
    ensures m == n && v == w && a == b
  {
    SameWord(m, n, E8(v, a), E8(w, b));
    SameOp(v, w, a, b);
  }

  lemma SameOp(v: u8, w: u8, a: Bytes, b: Bytes)
    requires E8(v, a) == E8(w, b)
    ensures v == w && a == b
  {
  }

  lemma SameSplit(p: Bytes, q: Bytes, t: Bytes, u: Bytes)
    requires |p| == |q| && p + t == q + u
    ensures p == q && t == u
  {
    assert (p + t)[..|p|] == p && (q + u)[..|q|] == q;
    assert (p + t)[|p|..] == t && (q + u)[|q|..] == u;
  }

  /** Any list of frames sent back to back is received as the same list, however the
      transport split the bytes on either side. */
  method SendFrames(c: Connection, frames: seq<Frame>)
    requires All(Sendable, frames)
    modifies c`sent
    ensures c.sent == old(c.sent) + Each(EFrame, frames, [])
  {
    ghost var start := c.sent;
    assert start + [] == start;
    for i := 0 to |frames|
      invariant c.sent == start + Each(EFrame, frames[..i], [])
    {
      assert Sendable(frames[i]);
      var ok := c.SendFrame(frames[i]);
      SentWhole(frames[i]);
      FrameAppended(start, frames, i);
    }
    assert frames[..|frames|] == frames;
  }

  lemma FrameAppended(start: Bytes, frames: seq<Frame>, i: nat)
    requires i < |frames|
    ensures start + Each(EFrame, frames[..i], []) + EFrame(frames[i], []) == start + Each(EFrame, frames[..i + 1], [])
  {
    EachNext(EFrame, frames, i);
    FramesCarry();
    var e := EFrame(frames[i], []);
    EachCarries(EFrame, frames[..i], [], e);
    assert [] + e == e;
  }

  lemma FramesCarry()
    ensures Carries(EFrame)
  {
    forall f, t, u ensures EFrame(f, t + u) == EFrame(f, t) + u {
      LeavesCarry();
      assert f.payload + (t + u) == (f.payload + t) + u;
    }
  }

  method ReceiveFrames(c: Connection) returns (frames: seq<Frame>)
    modifies c`pending
    ensures forall fs :: All(Sendable, fs) && old(c.pending) == Each(EFrame, fs, []) ==> frames == fs
  {
    frames := [];
    ghost var start := c.pending;
    while true
      invariant RunRead(EFrame, Sendable, frames, start, c.pending)
      decreases |c.pending|
    {
      ghost var rest := c.pending;
      var f := c.RecvFrame();
      if f.None? {
        AllReceived(frames, start, rest);
        return;
      }
      EachSnoc(EFrame, frames, f.value, c.pending);
      frames := frames + [f.value];
    }
  }

  lemma AllReceived(frames: seq<Frame>, start: Bytes, rest: Bytes)
    requires RunRead(EFrame, Sendable, frames, start, rest) && Unreadable(EFrame, Sendable, rest)
    ensures forall fs :: All(Sendable, fs) && start == Each(EFrame, fs, []) ==> frames == fs
  {
    FramesUnambiguous();
    forall fs | All(Sendable, fs) && start == Each(EFrame, fs, []) ensures frames == fs {
      if |frames| < |fs| { RunStuck(EFrame, Sendable, frames, start, rest, |fs|); }
      if |frames| == |fs| { RunPrefix(EFrame, Sendable, frames, start, rest, fs, []); }
      if |frames| > |fs| {
        RunPrefix(EFrame, Sendable, fs, start, [], frames, rest);
        FrameNotEmpty(frames[|fs|..], rest);
      }
    }
  }

  lemma FrameNotEmpty(fs: seq<Frame>, rest: Bytes)
    ensures fs != [] ==> Each(EFrame, fs, rest) != []
  {
  }

  // ------------------------------------------------------- frames over the limit

  /** A frame within the limit goes out whole. */
  lemma SentWhole(f: Frame)
    requires Sendable(f)
    ensures OnStream(f) == EFrame(f, [])
  {
    assert f.payload[..|f.payload|] == f.payload + [];
  }

  /** The size check admits exactly the frames a receiver takes, if and only if the payload is
      within the limit or its wrapped length is not. */
  lemma SizeCheckExactIff(f: Frame)
    ensures (LengthField(f.payload) <= MAX_FRAME <==> Sendable(f)) <==>
            |f.payload| < MAX_FRAME || (|f.payload| + 1) % TWO32 > MAX_FRAME
  {
    WrappedLength(|f.payload|);
  }

  lemma WrappedLength(n: nat)
    ensures (n % TWO32 + 1) % TWO32 == (n + 1) % TWO32
    ensures n < MAX_FRAME ==> (n + 1) % TWO32 == n + 1
  {
  }

  /** The frame a receiver finds in place of one whose length wrapped. */
  function Shortened(f: Frame): Frame
    requires 1 <= LengthField(f.payload) <= MAX_FRAME
  {
    Frame(f.op, f.payload[..LengthField(f.payload) - 1])
  }

  /** A send that is reported as failed leaves a complete, valid, different frame on the stream
      exactly when the wrapped length is between one and the limit. */
  lemma FailedSendLeavesFrameIff(f: Frame)
    requires !Sendable(f)
    ensures !Unreadable(EFrame, Sendable, OnStream(f)) <==> 1 <= (|f.payload| + 1) % TWO32 <= MAX_FRAME
    ensures 1 <= (|f.payload| + 1) % TWO32 <= MAX_FRAME ==>
              OnStream(f) == EFrame(Shortened(f), []) && Sendable(Shortened(f)) && Shortened(f) != f
  {
    WrappedLength(|f.payload|);
    var len := LengthField(f.payload);
    if 1 <= len <= MAX_FRAME {
      assert Connection.Through(|f.payload|) == len - 1;
      SentWhole(Shortened(f));
    } else {
      forall g, t | Sendable(g) ensures OnStream(f) != EFrame(g, t) { NotThisFrame(f, g, t); }
    }
  }

  lemma NotThisFrame(f: Frame, g: Frame, t: Bytes)
    requires LengthField(f.payload) == 0 || LengthField(f.payload) > MAX_FRAME
    requires Sendable(g)
    ensures OnStream(f) != EFrame(g, t)
  {
    FrameHead(g, t);
    if LengthField(f.payload) == 0 { HeadIs(0, Tail(OnStream(f), 4)); }
  }

  /** Whatever is received right after such a send is the shortened frame, and the stream goes
      on with what is sent next. */
  lemma ReceivedInstead(f: Frame, next: Bytes, r: Option<Frame>, after: Bytes)
    requires !Sendable(f) && 1 <= LengthField(f.payload) <= MAX_FRAME
    requires ReadBack(EFrame, Sendable, OnStream(f) + next, r, after)
    ensures r == Some(Shortened(f)) && after == next
  {
    WrappedLength(|f.payload|);
    FailedSendLeavesFrameIff(f);
    FramesCarry();
    assert EFrame(Shortened(f), [] + next) == OnStream(f) + next && [] + next == next;
    FramesUnambiguous();
  }

  // ------------------------------------------------------------------------- claims

  /** An absent generation is written as zero. */
  function OrZero(g: Option<u64>): u64 {
    if g.Some? then g.value else 0
  }

  datatype ClaimWords = ClaimWords(
    epoch: u64, workerId: u64, workerBoot: u64, attemptId: u64, attemptGeneration: u64, state: u64,
    provenance: u64, artifact: u64, model: u64, adapter: u64, composition: u64, policy: u64, dependency: u64)

  function WordsOf(c: F.Claim): ClaimWords {
    ClaimWords(c.coordinatorEpoch, c.workerId, c.workerBoot, c.attemptId, c.attemptGeneration, c.stateGeneration,
               c.provenanceGeneration, OrZero(c.artifactGeneration), OrZero(c.modelGeneration),
               OrZero(c.adapterGeneration), OrZero(c.compositionGeneration), OrZero(c.policyGeneration),
               OrZero(c.dependencyGeneration))
  }

  function ClaimOf(w: ClaimWords): F.Claim {
    F.Claim(w.workerId, w.workerBoot, w.attemptId, w.attemptGeneration, w.state, w.provenance, w.epoch,
            F.NonZeroOrNone(w.artifact), F.NonZeroOrNone(w.model), F.NonZeroOrNone(w.adapter),
            F.NonZeroOrNone(w.composition), F.NonZeroOrNone(w.policy), F.NonZeroOrNone(w.dependency))
  }

  /** The claim with zero-valued generations made absent. */
  function Normalised(c: F.Claim): F.Claim {
    c.(artifactGeneration := F.NonZeroOrNone(OrZero(c.artifactGeneration)),
       modelGeneration := F.NonZeroOrNone(OrZero(c.modelGeneration)),
       adapterGeneration := F.NonZeroOrNone(OrZero(c.adapterGeneration)),
       compositionGeneration := F.NonZeroOrNone(OrZero(c.compositionGeneration)),
       policyGeneration := F.NonZeroOrNone(OrZero(c.policyGeneration)),
       dependencyGeneration := F.NonZeroOrNone(OrZero(c.dependencyGeneration)))
  }

  function EClaimFront(w: ClaimWords, t: Bytes): Bytes {
    E64(w.epoch, E64(w.workerId, E64(w.workerBoot, E64(w.attemptId, E64(w.attemptGeneration,
      E64(w.state, E64(w.provenance, t)))))))
  }

  function EClaimBack(w: ClaimWords, t: Bytes): Bytes {
    E64(w.artifact, E64(w.model, E64(w.adapter, E64(w.composition, E64(w.policy, E64(w.dependency, t))))))
  }

  function EClaim(w: ClaimWords, t: Bytes): Bytes {
    EClaimFront(w, EClaimBack(w, t))
  }

  method WriteClaim(out: BinaryWriter, c: F.Claim)
    modifies out
    ensures forall t :: out.buf + t == old(out.buf) + EClaim(WordsOf(c), t)
  {
    var w := WordsOf(c);
    WriteClaimFront(out, w);
    WriteClaimBack(out, w);
  }

  method WriteClaimFront(out: BinaryWriter, w: ClaimWords)
    modifies out
    ensures forall t :: out.buf + t == old(out.buf) + EClaimFront(w, t)
  {
    out.U64(w.epoch);
    out.U64(w.workerId);
    out.U64(w.workerBoot);
    out.U64(w.attemptId);
    out.U64(w.attemptGeneration);
    out.U64(w.state);
    out.U64(w.provenance);
  }

  method WriteClaimBack(out: BinaryWriter, w: ClaimWords)
    modifies out
    ensures forall t :: out.buf + t == old(out.buf) + EClaimBack(w, t)
  {
    out.U64(w.artifact);
    out.U64(w.model);
    out.U64(w.adapter);
    out.U64(w.composition);
    out.U64(w.policy);
    out.U64(w.dependency);
  }

  /** A claim is thirteen words. */
  const CLAIM_SIZE: nat := 104

  method ReadClaim(r: BinaryReader) returns (w: Option<ClaimWords>)
    requires r.Ready()
    modifies r
    ensures w.Some? <==> |old(r.Rest())| >= CLAIM_SIZE
    ensures w.Some? ==> r.Ready() && old(r.Rest()) == EClaim(w.value, r.Rest())
  {
    var front :- ReadWords(r, 7);
    var back :- ReadWords(r, 6);
    var (a, b) := (front, back);
    w := Some(ClaimWords(a[0], a[1], a[2], a[3], a[4], a[5], a[6], b[0], b[1], b[2], b[3], b[4], b[5]));
    SevenWords(a, EClaimBack(w.value, r.Rest()));
    SixWords(b, r.Rest());
  }

  method ReadWords(r: BinaryReader, n: nat) returns (ws: Option<seq<u64>>)
    requires r.Ready()
    modifies r
    ensures ws.Some? <==> |old(r.Rest())| >= 8 * n
    ensures ws.Some? ==> r.Ready() && |ws.value| == n && old(r.Rest()) == Each(E64, ws.value, r.Rest())
    ensures ws.Some? ==> |r.Rest()| == |old(r.Rest())| - 8 * n
  {
    var read: seq<u64> := [];
    for i := 0 to n
      invariant r.Ready() && |read| == i && old(r.Rest()) == Each(E64, read, r.Rest())
      invariant |r.Rest()| == |old(r.Rest())| - 8 * i
    {
      var x :- r.U64();
      EachSnoc(E64, read, x, r.Rest());
      read := read + [x];
    }
    ws := Some(read);
  }

  lemma SevenWords(a: seq<u64>, t: Bytes)
    requires |a| == 7
    ensures Each(E64, a, t) == E64(a[0], E64(a[1], E64(a[2], E64(a[3], E64(a[4], E64(a[5], E64(a[6], t)))))))
  {
    EachSplit(E64, a[..1], a[1..], t);
    SixWords(a[1..], t);
    assert Each(E64, a, t) == E64(a[0], Each(E64, a[1..], t));
  }

  lemma SixWords(a: seq<u64>, t: Bytes)
    requires |a| == 6
    ensures Each(E64, a, t) == E64(a[0], E64(a[1], E64(a[2], E64(a[3], E64(a[4], E64(a[5], t))))))
  {
    ThreeWords(a[3..], t);
    var u := Each(E64, a[3..], t);
    ThreeWords(a[..3], u);
    assert a == a[..3] + a[3..];
    EachSplit(E64, a[..3], a[3..], t);
  }

  lemma ThreeWords(a: seq<u64>, t: Bytes)
    requires |a| == 3
    ensures Each(E64, a, t) == E64(a[0], E64(a[1], E64(a[2], t)))
  {
    assert Each(E64, a, t) == E64(a[0], Each(E64, a[1..], t));
    assert Each(E64, a[1..], t) == E64(a[1], Each(E64, a[2..], t));
    assert a[1..][1..] == a[2..];
    assert Each(E64, a[2..], t) == E64(a[2], Each(E64, a[3..], t));
    assert a[2..][1..] == a[3..] == [];
  }

  // -------------------------------------------------------------- publish payloads

  function PublishBytes(d: RecordData, c: F.Claim, extra: Bytes): Bytes {
    EClaim(WordsOf(c), ERecord(d, extra))
  }

  /** Fails (throws) exactly when some string of the record is too long. */
  method EncodePublish(d: RecordData, c: F.Claim) returns (r: Option<Bytes>)
    ensures r == if RecordShort(d) then Some(PublishBytes(d, c, [])) else None
  {
    var w := new BinaryWriter();
    var ok := WritePublish(w, d, c);
    if !ok { return None; }
    Unpad(w.buf, PublishBytes(d, c, []));
    r := Some(w.buf);
  }

  method WritePublish(w: BinaryWriter, d: RecordData, c: F.Claim) returns (ok: bool)
    modifies w
    ensures ok <==> RecordShort(d)
    ensures ok ==> forall t :: w.buf + t == old(w.buf) + PublishBytes(d, c, t)
  {
    WriteClaim(w, c);
    ok := WriteRecord(w, d);
  }

  /** A claim as it comes off the wire. */
  predicate Normal(c: F.Claim) {
    Normalised(c) == c
  }

  /** The payload starts with this claim and this readable record; whatever follows is ignored. */
  ghost predicate Carried(payload: Bytes, d: RecordData, c: F.Claim) {
    exists extra :: CarriedWith(payload, d, c, extra)
  }

  ghost predicate CarriedWith(payload: Bytes, d: RecordData, c: F.Claim, extra: Bytes) {
    Readable(d) && Normal(c) && payload == PublishBytes(d, c, extra)
  }

  /** The one thing that fits, if there is one. */
  ghost function The<X(!new)>(fits: X -> bool): Option<X> {
    if exists x :: fits(x) then
      var x :| fits(x);
      Some(x)
    else None
  }

  ghost predicate Clash<X>(fits: X -> bool, a: X, b: X) {
    fits(a) && fits(b)
  }

  /** It is x exactly if x fits, when nothing else does. */
  lemma TheIff<X(!new)>(fits: X -> bool, x: X, y: X)
    requires y == if The(fits).Some? then The(fits).value else x
    requires Clash(fits, x, y) ==> x == y
    ensures The(fits) == Some(x) <==> fits(x)
  {
  }

  lemma TheNone<X(!new)>(fits: X -> bool)
    requires forall x :: !fits(x)
    ensures The(fits) == None
  {
  }

  ghost function CarriedPair(payload: Bytes): ((RecordData, F.Claim)) -> bool {
    (x: (RecordData, F.Claim)) => Carried(payload, x.0, x.1)
  }

  /** What a payload decodes to: the record and claim it carries, if any. */
  ghost function Decoding(payload: Bytes): Option<(RecordData, F.Claim)> {
    The(CarriedPair(payload))
  }

  /** It is the one record and claim the payload carries. */
  lemma DecodingIff(payload: Bytes, d: RecordData, c: F.Claim)
    ensures Decoding(payload) == Some((d, c)) <==> Carried(payload, d, c)
  {
    var fits, x := CarriedPair(payload), (d, c);
    var y := if The(fits).Some? then The(fits).value else x;
    PairOnce(payload, fits, x, y);
    TheIff(fits, x, y);
  }

  lemma PairOnce(payload: Bytes, fits: ((RecordData, F.Claim)) -> bool,
                 a: (RecordData, F.Claim), b: (RecordData, F.Claim))
    requires fits == CarriedPair(payload)
    ensures Clash(fits, a, b) ==> a == b
  {
    CarriedOnce(payload, a.0, a.1, b.0, b.1);
  }

  method DecodePublish(payload: Bytes) returns (r: Option<(RecordData, F.Claim)>)
    ensures r == Decoding(payload)
    ensures r.Some? ==> Carried(payload, r.value.0, r.value.1)
    ensures r.None? ==> forall d, c :: !Carried(payload, d, c)
  {
    r := ReadPublish(payload);
    if r.Some? {
      DecodingIff(payload, r.value.0, r.value.1);
    } else {
      NothingCarried(payload);
    }
  }

  lemma NothingCarried(payload: Bytes)
    requires forall d, c :: !Carried(payload, d, c)
    ensures Decoding(payload) == None
  {
    TheNone(CarriedPair(payload));
  }

  method ReadPublish(payload: Bytes) returns (r: Option<(RecordData, F.Claim)>)
    ensures r.Some? ==> Carried(payload, r.value.0, r.value.1)
    ensures r.None? ==> forall d, c :: !Carried(payload, d, c)
  {
    var reader := new BinaryReader(payload);
    var w := ReadClaim(reader);
    if w.None? {
      TooShort(payload);
      return None;
    }
    ghost var rest := reader.Rest();
    var d := ReadRecord(reader);
    if d.None? {
      NoRecord(payload, w.value, rest);
      return None;
    }
    r := Some((d.value, ClaimOf(w.value)));
    Found(payload, w.value, rest, d.value, reader.Rest());
  }

  lemma ClaimSize(w: ClaimWords, t: Bytes)
    ensures |EClaim(w, t)| == CLAIM_SIZE + |t|
  {
    assert |EClaimBack(w, t)| == 48 + |t|;
    var u := EClaimBack(w, t);
    assert |EClaimFront(w, u)| == 56 + |u|;
  }

  lemma TooShort(payload: Bytes)
    requires |payload| < CLAIM_SIZE
    ensures forall d, c :: !Carried(payload, d, c)
  {
    forall d, c, extra ensures !CarriedWith(payload, d, c, extra) { ClaimSize(WordsOf(c), ERecord(d, extra)); }
  }

  lemma FrontSame(v: ClaimWords, w: ClaimWords, t: Bytes, u: Bytes)
    requires EClaimFront(v, t) == EClaimFront(w, u)
    ensures t == u
    ensures v.epoch == w.epoch && v.workerId == w.workerId && v.workerBoot == w.workerBoot
    ensures v.attemptId == w.attemptId && v.attemptGeneration == w.attemptGeneration
    ensures v.state == w.state && v.provenance == w.provenance
  {
  }

  lemma BackSame(v: ClaimWords, w: ClaimWords, t: Bytes, u: Bytes)
    requires EClaimBack(v, t) == EClaimBack(w, u)
    ensures t == u
    ensures v.artifact == w.artifact && v.model == w.model && v.adapter == w.adapter
    ensures v.composition == w.composition && v.policy == w.policy && v.dependency == w.dependency
  {
  }

  lemma ClaimSame(v: ClaimWords, w: ClaimWords, t: Bytes, u: Bytes)
    requires EClaim(v, t) == EClaim(w, u)
    ensures v == w && t == u
  {
    FrontSame(v, w, EClaimBack(v, t), EClaimBack(w, u));
    BackSame(v, w, t, u);
  }

  lemma NoRecord(payload: Bytes, w: ClaimWords, rest: Bytes)
    requires payload == EClaim(w, rest) && Unreadable(ERecord, Readable, rest)
    ensures forall d, c :: !Carried(payload, d, c)
  {
    forall d, c ensures !Carried(payload, d, c) {
      if extra :| CarriedWith(payload, d, c, extra) { ClaimSame(w, WordsOf(c), rest, ERecord(d, extra)); }
    }
  }

  lemma Found(payload: Bytes, w: ClaimWords, rest: Bytes, d: RecordData, extra: Bytes)
    requires payload == EClaim(w, rest) && rest == ERecord(d, extra) && Readable(d)
    ensures Carried(payload, d, ClaimOf(w))
  {
    WordsBack(w);
    PublishOf(w, ClaimOf(w), d, rest, extra);
    CarriedBy(payload, d, ClaimOf(w), extra);
  }

  lemma PublishOf(w: ClaimWords, c: F.Claim, d: RecordData, rest: Bytes, extra: Bytes)
    requires WordsOf(c) == w && rest == ERecord(d, extra)
    ensures PublishBytes(d, c, extra) == EClaim(w, rest)
  {
  }

  lemma WordsBack(w: ClaimWords)
    ensures WordsOf(ClaimOf(w)) == w && Normal(ClaimOf(w))
  {
  }

  lemma CarriedBy(payload: Bytes, d: RecordData, c: F.Claim, extra: Bytes)
    requires CarriedWith(payload, d, c, extra)
    ensures Carried(payload, d, c)
  {
  }

  /** A payload carries at most one record and claim. */
  lemma CarriedOnce(payload: Bytes, d: RecordData, c: F.Claim, e: RecordData, k: F.Claim)
    ensures Carried(payload, d, c) && Carried(payload, e, k) ==> d == e && c == k
  {
    forall x, y ensures CarriedWith(payload, d, c, x) && CarriedWith(payload, e, k, y) ==> d == e && c == k {
      OnceWith(payload, d, c, x, e, k, y);
    }
  }

  lemma OnceWith(payload: Bytes, d: RecordData, c: F.Claim, x: Bytes, e: RecordData, k: F.Claim, y: Bytes)
    ensures CarriedWith(payload, d, c, x) && CarriedWith(payload, e, k, y) ==> d == e && c == k
  {
    if CarriedWith(payload, d, c, x) && CarriedWith(payload, e, k, y) { OnlyVia(payload, d, c, x, e, k, y); }
  }

  /** What is sent arrives: the same record, and the claim with its zero-valued generations
      made absent; nothing else can be decoded, and appended bytes change nothing. */
  lemma PublishRoundTrip(d: RecordData, c: F.Claim, extra: Bytes, e: RecordData, k: F.Claim)
    requires Readable(d)
    ensures Carried(PublishBytes(d, c, extra), e, k) <==> e == d && k == Normalised(c)
  {
    NormalisedWords(c);
    if e == d && k == Normalised(c) { CarriedBy(PublishBytes(d, c, extra), d, k, extra); }
    forall x ensures CarriedWith(PublishBytes(d, c, extra), e, k, x) ==> e == d && k == Normalised(c) {
      OnlyVia(PublishBytes(d, c, extra), d, c, extra, e, k, x);
    }
  }

  lemma NormalisedWords(c: F.Claim)
    ensures WordsOf(Normalised(c)) == WordsOf(c) && Normal(Normalised(c))
    ensures forall d, extra :: PublishBytes(d, Normalised(c), extra) == PublishBytes(d, c, extra)
  {
  }

  lemma OnlyVia(payload: Bytes, d: RecordData, c: F.Claim, extra: Bytes, e: RecordData, k: F.Claim, x: Bytes)
    requires payload == PublishBytes(d, c, extra)
    ensures Readable(d) && CarriedWith(payload, e, k, x) ==> e == d && k == Normalised(c)
  {
    if Readable(d) && CarriedWith(payload, e, k, x) {
      ClaimSame(WordsOf(k), WordsOf(c), ERecord(e, x), ERecord(d, extra));
      SameRecord(e, d, x, extra);
      NormalDetermined(k, c);
    }
  }

  lemma SameRecord(d: RecordData, e: RecordData, t: Bytes, u: Bytes)
    requires Readable(d) && Readable(e) && ERecord(d, t) == ERecord(e, u)
    ensures d == e && t == u
  {
    FittingUnambiguous();
  }

  lemma NormalDetermined(k: F.Claim, c: F.Claim)
    requires Normal(k) && WordsOf(k) == WordsOf(c)
    ensures k == Normalised(c)
  {
  }

  // ------------------------------------------------------------- verdicts and the wire

  /** A claim accepted in process is accepted after the wire. */
  lemma WireKeepsAcceptance(a: F.Authority, c: F.Claim)
    requires F.Evaluate(a, c) == F.Accept
    ensures F.Evaluate(a, Normalised(c)) == F.Accept
  {
    F.EvaluateMeans(a, c);
    F.EvaluateMeans(a, Normalised(c));
    forall d ensures F.Fresh(a, Normalised(c), d) { assert F.Fresh(a, c, d); }
  }

  /** An authority that has nothing against the claim but, possibly, one given generation. */
  function Lenient(c: F.Claim): F.Authority {
    F.Initial.(epoch := c.coordinatorEpoch, boots := map[c.workerId := c.workerBoot])
  }

  function WithOne(a: F.Authority, d: F.FenceDimension): F.Authority {
    F.Apply(a, F.SetGeneration(d, 1))
  }

  /** Every authority judges a claim alike in process and after the wire exactly when no
      optional generation of it holds zero. */
  lemma VerdictsAgreeIff(c: F.Claim)
    ensures (forall a :: F.Evaluate(a, Normalised(c)) == F.Evaluate(a, c)) <==> Normal(c)
  {
    if !Normal(c) {
      var d := if c.artifactGeneration == Some(0) then F.ArtifactGeneration
               else if c.modelGeneration == Some(0) then F.ModelGeneration
               else if c.adapterGeneration == Some(0) then F.AdapterGeneration
               else if c.compositionGeneration == Some(0) then F.CompositionGeneration
               else if c.policyGeneration == Some(0) then F.PolicyGeneration
               else F.DependencyGeneration;
      var a := WithOne(Lenient(c), d);
      assert F.Evaluate(a, c) == F.Reject(d) && F.Evaluate(a, Normalised(c)) == F.Accept;
    }
  }
}
