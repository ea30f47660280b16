/** The snapshot file (save_file and load_file of persist.hpp) as a sequence of bytes: an
    8-byte magic, version, flags, payload length, CRC-32 of the payload, then the payload.
    The file system, and the replacement of the old file by the new, are not part of this model. */
module SnapshotFile {
  import opened Ids
  import opened Records
  import opened Wire
  import opened Registry
  import opened SnapshotCodec
  import C = Crc
  import ByteWords

  const FILE_MAGIC: Bytes := [0x53, 0x50, 0x52, 0x4F, 0x56, 0x31, 0x2E, 0x30]
  const HEADER_SIZE: nat := 28
  const MAX_PAYLOAD: nat := 512 * 1024 * 1024

  function WordOf(x: bv32): (w: u32)
    ensures w as bv32 == x
  {
    ByteWords.WordBack(x);
    x as int
  }

  function CrcOf(payload: Bytes): u32 {
    WordOf(C.Checksum(payload))
  }

  datatype Header = Header(version: u32, flags: u32, length: u64, crc: u32)

  function EHead(h: Header, t: Bytes): Bytes {
    E32(h.version, E32(h.flags, E64(h.length, E32(h.crc, t))))
  }

  function EFile(h: Header, payload: Bytes): Bytes {
    FILE_MAGIC + EHead(h, payload)
  }

  function HeaderFor(flags: u32, payload: Bytes): Header {
    Header(FORMAT_VERSION, flags, |payload| % TWO64, CrcOf(payload))
  }

  function FileBytes(flags: u32, payload: Bytes): Bytes {
    EFile(HeaderFor(flags, payload), payload)
  }

  /** The bytes are a well-formed file (whatever its flags) whose payload is s. */
  ghost predicate Accepted(bytes: Bytes, s: Snapshot) {
    exists flags, payload :: AcceptedAs(bytes, s, flags, payload)
  }

  ghost predicate AcceptedAs(bytes: Bytes, s: Snapshot, flags: u32, payload: Bytes) {
    |payload| <= MAX_PAYLOAD && bytes == FileBytes(flags, payload) && Decodes(payload, s)
  }

  // ------------------------------------------------------------------------- saving

  /** Fails (throws) exactly when the snapshot has too long a string. */
  method SaveFile(s: Snapshot) returns (r: Option<Bytes>)
    ensures r == if Writable(s) then Some(FileBytes(0, Encoded(s))) else None
  {
    var payload :- EncodeSnapshot(s);
    var bytes := WriteFile(payload);
    r := Some(bytes);
  }

  method WriteFile(payload: Bytes) returns (bytes: Bytes)
    ensures bytes == FileBytes(0, payload)
  {
    var h := HeadOf(payload);
    var w := new BinaryWriter();
    WritePrefix(w, FILE_MAGIC);
    WriteHead(w, h);
    bytes := w.buf + payload;
  }

  method HeadOf(payload: Bytes) returns (h: Header)
    ensures h == HeaderFor(0, payload)
  {
    var crc := C.Crc32(payload);
    h := Header(FORMAT_VERSION, 0, |payload| % TWO64, WordOf(crc));
  }

  method WriteHead(w: BinaryWriter, h: Header)
    modifies w
    ensures forall t :: w.buf + t == old(w.buf) + EHead(h, t)
  {
    w.U32(h.version);
    w.U32(h.flags);
    w.U64(h.length);
    w.U32(h.crc);
  }

  method WritePrefix(w: BinaryWriter, m: Bytes)
    requires w.buf == []
    modifies w
    ensures w.buf == m
  {
    for i := 0 to |m|
      invariant w.buf == m[..i]
    {
      ghost var before := w.buf;
      w.U8(m[i]);
      Appended(before, w.buf, m[i]);
    }
  }

  lemma Appended(before: Bytes, after: Bytes, v: u8)
    requires after + [] == before + E8(v, [])
    ensures after == before + [v]
  {
    assert after + [] == after && [v] + [] == [v];
  }

  // ------------------------------------------------------------------------ loading

  datatype LoadError =
    | TooSmall | BadMagic | BadVersion | TooLong | TruncatedPayload | TrailingGarbage | CrcMismatch | BadPayload

  datatype LoadOutcome = Loaded(snapshot: Snapshot) | Failed(error: LoadError)

  method ReadPrefix(r: BinaryReader, m: Bytes) returns (ok: bool)
    requires r.Ready()
    modifies r
    ensures ok ==> r.Ready() && old(r.Rest()) == m + r.Rest()
    ensures !ok ==> NoPrefix(m, old(r.Rest()))
  {
    ghost var start := r.Rest();
    for i := 0 to |m|
      invariant r.Ready() && start == m[..i] + r.Rest()
    {
      ghost var rest := r.Rest();
      var c := r.U8();
      PrefixNext(m, start, i, rest, c, r.Rest());
      if c != Some(m[i]) { return false; }
    }
    assert m[..|m|] == m;
    ok := true;
  }

  ghost predicate NoPrefix(m: Bytes, start: Bytes) {
    forall t :: start != m + t
  }

  lemma PrefixNext(m: Bytes, start: Bytes, i: nat, rest: Bytes, c: Option<u8>, after: Bytes)
    requires i < |m| && start == m[..i] + rest
    requires if c.Some? then rest == E8(c.value, after) else rest == []
    ensures c == Some(m[i]) ==> start == m[..i + 1] + after
    ensures c != Some(m[i]) ==> NoPrefix(m, start)
  {
    if c == Some(m[i]) {
      assert m[..i + 1] + after == m[..i] + ([m[i]] + after);
    } else {
      forall t ensures start != m + t {
        assert (m + t)[i] == m[i];
        assert |m + t| > i;
      }
    }
  }

  method ReadHead(r: BinaryReader) returns (h: Option<Header>)
    requires r.Ready()
    modifies r
    ensures h.Some? ==> r.Ready() && old(r.Rest()) == EHead(h.value, r.Rest())
    ensures h.None? ==> |old(r.Rest())| < 20
  {
    var version :- r.U32();
    var flags :- r.U32();
    var length :- r.U64();
    var crc :- r.U32();
    h := Some(Header(version, flags, length, crc));
  }

  /** Accepts exactly the well-formed files. */
  method LoadFile(bytes: Bytes) returns (r: LoadOutcome)
    ensures r.Loaded? ==> Accepted(bytes, r.snapshot)
    ensures r.Failed? ==> forall s :: !Accepted(bytes, s)
    ensures r.Failed? ==> (r.error == TooSmall <==> |bytes| < HEADER_SIZE)
  {
    if |bytes| < HEADER_SIZE {
      Short28(bytes);
      return Failed(TooSmall);
    }
    var hr := new BinaryReader(bytes[..HEADER_SIZE]);
    var magic := ReadPrefix(hr, FILE_MAGIC);
    if !magic {
      NoMagic(bytes);
      return Failed(BadMagic);
    }
    ghost var r1 := hr.Rest();
    var h := ReadHead(hr);
    HeadThere(bytes, r1, h.value, hr.Rest());
    r := LoadPayload(bytes, h.value, bytes[HEADER_SIZE..]);
  }

  method LoadPayload(bytes: Bytes, h: Header, payload: Bytes) returns (r: LoadOutcome)
    requires bytes == EFile(h, payload)
    ensures r.Loaded? ==> Accepted(bytes, r.snapshot)
    ensures r.Failed? ==> (forall s :: !Accepted(bytes, s)) && r.error != TooSmall
  {
    var error := CheckHead(h, payload);
    if error.Some? {
      BadHead(bytes, h, payload);
      return Failed(error.value);
    }
    var s := DecodeSnapshot(payload);
    if s.None? {
      BadBody(bytes, h, payload);
      return Failed(BadPayload);
    }
    GoodBody(bytes, h, payload, s.value);
    r := Loaded(s.value);
  }

  /** The header against the payload: the first complaint, if any. */
  method CheckHead(h: Header, payload: Bytes) returns (error: Option<LoadError>)
    ensures error.None? <==> h == HeaderFor(h.flags, payload) && |payload| <= MAX_PAYLOAD
    ensures error == Some(TruncatedPayload) ==> |payload| < h.length
    ensures error == Some(TrailingGarbage) ==> |payload| > h.length
    ensures error == Some(CrcMismatch) ==> h.length == |payload| && h.crc != CrcOf(payload)
    ensures error.Some? ==> error.value in {BadVersion, TooLong, TruncatedPayload, TrailingGarbage, CrcMismatch}
  {
    if h.version != FORMAT_VERSION { return Some(BadVersion); }
    if h.length > MAX_PAYLOAD { return Some(TooLong); }
    if h.length > |payload| { return Some(TruncatedPayload); }
    if h.length < |payload| { return Some(TrailingGarbage); }
    var crc := C.Crc32(payload);
    if WordOf(crc) != h.crc { return Some(CrcMismatch); }
    error := None;
  }

  lemma Short28(bytes: Bytes)
    requires |bytes| < HEADER_SIZE
    ensures forall s :: !Accepted(bytes, s)
  {
    forall flags, payload ensures bytes != FileBytes(flags, payload) {
      assert |FileBytes(flags, payload)| == 28 + |payload|;
    }
  }

  lemma NoMagic(bytes: Bytes)
    requires |bytes| >= HEADER_SIZE && NoPrefix(FILE_MAGIC, bytes[..HEADER_SIZE])
    ensures forall s :: !Accepted(bytes, s)
  {
    forall flags, payload ensures bytes != FileBytes(flags, payload) {
      if bytes == FileBytes(flags, payload) {
        MagicKept(bytes, FILE_MAGIC, EHead(HeaderFor(flags, payload), payload), HEADER_SIZE);
      }
    }
  }

  lemma MagicKept(bytes: Bytes, m: Bytes, t: Bytes, n: nat)
    requires |m| <= n <= |bytes| && bytes == m + t
    ensures !NoPrefix(m, bytes[..n])
  {
    assert bytes[..n] == m + t[..n - |m|];
  }

  lemma HeadThere(bytes: Bytes, r1: Bytes, h: Header, r2: Bytes)
    requires |bytes| >= HEADER_SIZE && bytes[..HEADER_SIZE] == FILE_MAGIC + r1 && r1 == EHead(h, r2)
    ensures bytes == EFile(h, bytes[HEADER_SIZE..])
  {
    var payload := bytes[HEADER_SIZE..];
    HeadSize(h, r2);
    assert r2 == [] && r2 + payload == payload;
    HeadCarries(h, r2, payload);
    Reassembled(bytes, FILE_MAGIC, r1, HEADER_SIZE);
  }

  lemma HeadSize(h: Header, t: Bytes)
    ensures |EHead(h, t)| == HEADER_SIZE - |FILE_MAGIC| + |t|
  {
  }

  lemma Reassembled(bytes: Bytes, m: Bytes, r: Bytes, n: nat)
    requires n <= |bytes| && bytes[..n] == m + r
    ensures bytes == m + (r + bytes[n..])
  {
    assert bytes == bytes[..n] + bytes[n..];
  }

  lemma HeadCarries(h: Header, t: Bytes, u: Bytes)
    ensures EHead(h, t + u) == EHead(h, t) + u
  {
    LeavesCarry();
  }

  lemma SameHead(h: Header, t: Bytes, k: Header, u: Bytes)
    requires EHead(h, t) == EHead(k, u)
    ensures h == k && t == u
  {
  }

  lemma Stripped(m: Bytes, a: Bytes, b: Bytes)
    requires m + a == m + b
    ensures a == b
  {
    assert (m + a)[|m|..] == a && (m + b)[|m|..] == b;
  }

  lemma SameFile(h: Header, payload: Bytes, flags: u32, p: Bytes)
    requires EFile(h, payload) == FileBytes(flags, p)
    ensures h == HeaderFor(flags, p) && payload == p
  {
    Stripped(FILE_MAGIC, EHead(h, payload), EHead(HeaderFor(flags, p), p));
    SameHead(h, payload, HeaderFor(flags, p), p);
  }

  lemma AcceptedMeans(bytes: Bytes, h: Header, payload: Bytes, s: Snapshot)
    requires bytes == EFile(h, payload) && Accepted(bytes, s)
    ensures h == HeaderFor(h.flags, payload) && h.length == |payload| <= MAX_PAYLOAD && Decodes(payload, s)
  {
    var flags, p :| AcceptedAs(bytes, s, flags, p);
    SameFile(h, payload, flags, p);
    LengthIs(h, payload);
  }

  lemma LengthIs(h: Header, payload: Bytes)
    requires h == HeaderFor(h.flags, payload) && |payload| <= MAX_PAYLOAD
    ensures h.length == |payload|
  {
  }

  lemma Opened(bytes: Bytes, s: Snapshot) returns (h: Header, payload: Bytes)
    requires Accepted(bytes, s)
    ensures bytes == EFile(h, payload)
  {
    var flags, p :| AcceptedAs(bytes, s, flags, p);
    h, payload := HeaderFor(flags, p), p;
  }

  lemma BadHead(bytes: Bytes, h: Header, payload: Bytes)
    requires bytes == EFile(h, payload)
    requires h != HeaderFor(h.flags, payload) || |payload| > MAX_PAYLOAD
    ensures forall s :: !Accepted(bytes, s)
  {
    forall s ensures !Accepted(bytes, s) {
      if Accepted(bytes, s) { AcceptedMeans(bytes, h, payload, s); }
    }
  }

  lemma BadBody(bytes: Bytes, h: Header, payload: Bytes)
    requires bytes == EFile(h, payload) && forall s :: !Decodes(payload, s)
    ensures forall s :: !Accepted(bytes, s)
  {
    forall s ensures !Accepted(bytes, s) {
      if Accepted(bytes, s) { AcceptedMeans(bytes, h, payload, s); }
    }
  }

  lemma FileOf(h: Header, payload: Bytes, k: Header)
    requires h == k
    ensures EFile(h, payload) == EFile(k, payload)
  {
  }

  lemma GoodBody(bytes: Bytes, h: Header, payload: Bytes, s: Snapshot)
    requires bytes == EFile(h, payload) && h == HeaderFor(h.flags, payload) && |payload| <= MAX_PAYLOAD
    requires Decodes(payload, s)
    ensures Accepted(bytes, s)
  {
    FileOf(h, payload, HeaderFor(h.flags, payload));
    Witnessed(bytes, s, h.flags, payload);
  }

  lemma Witnessed(bytes: Bytes, s: Snapshot, flags: u32, payload: Bytes)
    requires |payload| <= MAX_PAYLOAD && Decodes(payload, s) && bytes == FileBytes(flags, payload)
    ensures Accepted(bytes, s)
  {
    assert AcceptedAs(bytes, s, flags, payload);
  }
}
