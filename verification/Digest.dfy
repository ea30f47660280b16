/** Stable digests (digest.hpp) of records (record.hpp) and of snapshots (store.hpp).  A digest
    absorbs one 64-bit value per item; a text item stands for the hash of its bytes. */
module Digest {
  import opened Ids
  import opened Orders
  import opened Records
  import opened EnumBytes
  import opened Mixing
  import Wire
  import ByteWords
  import opened Registry
  import Runs

  datatype Item = Word(v: u64) | Text(s: Bytes)

  // ------------------------------------------------------------------ words and text

  function WideOctet(b: u8): bv64 {
    (b as bv8) as bv64
  }

  lemma OctetFacts(a: u8, b: u8)
    ensures WideOctet(a) < 0x100
    ensures WideOctet(a) == WideOctet(b) ==> a == b
  {
    Wide(a as bv8);
    Wide(b as bv8);
    ByteWords.ByteBack(a);
    ByteWords.ByteBack(b);
  }

  function WordOf(v: u64): bv64 {
    var s := Wire.LE(v, 8);
    PackOctets(s)
  }

  function PackOctets(s: Bytes): bv64
    requires |s| == 8
  {
    Pack(WideOctet(s[0]), WideOctet(s[1]), WideOctet(s[2]), WideOctet(s[3]),
         WideOctet(s[4]), WideOctet(s[5]), WideOctet(s[6]), WideOctet(s[7]))
  }

  lemma PackDistinct(s: Bytes, t: Bytes, p: bv64, q: bv64)
    requires |s| == |t| == 8 && p == q
    requires p == PackOctets(s) && q == PackOctets(t)
    ensures s == t
  {
    forall i | 0 <= i < 8
      ensures WideOctet(s[i]) < 0x100 && WideOctet(t[i]) < 0x100
      ensures WideOctet(s[i]) == WideOctet(t[i]) ==> s[i] == t[i]
    {
      OctetFacts(s[i], t[i]);
      OctetFacts(t[i], s[i]);
    }
    Unpacked(WideOctet(s[0]), WideOctet(s[1]), WideOctet(s[2]), WideOctet(s[3]),
             WideOctet(s[4]), WideOctet(s[5]), WideOctet(s[6]), WideOctet(s[7]), p);
    Unpacked(WideOctet(t[0]), WideOctet(t[1]), WideOctet(t[2]), WideOctet(t[3]),
             WideOctet(t[4]), WideOctet(t[5]), WideOctet(t[6]), WideOctet(t[7]), q);
  }

  lemma WordDistinct(v: u64, w: u64)
    requires WordOf(v) == WordOf(w)
    ensures v == w
  {
    PackDistinct(Wire.LE(v, 8), Wire.LE(w, 8), WordOf(v), WordOf(w));
    Wire.Widths();
    Wire.ValueOfLE(v, 8);
    Wire.ValueOfLE(w, 8);
  }

  const FNV_OFFSET: bv64 := 0xcbf29ce484222325

  function WideOctets(s: Bytes): seq<bv64> {
    seq(|s|, i requires 0 <= i < |s| => WideOctet(s[i]))
  }

  /** fnv1a64. */
  function Fnv(s: Bytes): bv64 {
    AbsorbAll(ScalePrime, FNV_OFFSET, WideOctets(s))
  }

  method Fnv1a64(s: Bytes) returns (h: bv64)
    ensures h == Fnv(s)
  {
    h := FNV_OFFSET;
    ghost var ws := WideOctets(s);
    for i := 0 to |s|
      invariant AbsorbAll(ScalePrime, h, ws[i..]) == AbsorbAll(ScalePrime, FNV_OFFSET, ws)
    {
      AbsorbNext(ScalePrime, h, ws, i);
      h := Xor(h, WideOctet(s[i]));
      h := ScalePrime(h);
    }
  }

  lemma AbsorbNext(scale: bv64 -> bv64, h: bv64, vs: seq<bv64>, i: nat)
    requires i < |vs|
    ensures AbsorbAll(scale, h, vs[i..]) == AbsorbAll(scale, scale(Xor(h, vs[i])), vs[i + 1..])
  {
    assert vs[i..][1..] == vs[i + 1..];
  }

  /** One changed byte changes the hash. */
  lemma FnvSeesOneByte(s: Bytes, t: Bytes, k: nat)
    requires |s| == |t| && k < |s| && s[..k] == t[..k] && s[k + 1..] == t[k + 1..]
    ensures Fnv(s) == Fnv(t) <==> s[k] == t[k]
  {
    var a, b := WideOctets(s), WideOctets(t);
    forall i | 0 <= i < |a| && i != k ensures a[i] == b[i] {
      if i < k { assert s[..k][i] == t[..k][i]; } else { assert s[k + 1..][i - k - 1] == t[k + 1..][i - k - 1]; }
    }
    assert a[..k] == b[..k] && a[k + 1..] == b[k + 1..];
    PrimeUndone();
    OneDifference(ScalePrime, UnscalePrime, FNV_OFFSET, a, b, k);
    OctetFacts(s[k], t[k]);
  }

  /** The published test values of FNV-1a. */
  lemma FnvValues()
    ensures Fnv([]) == 0xcbf29ce484222325
    ensures Fnv(Ascii("a")) == 0xaf63dc4c8601ec8c
  {
    assert WideOctets([]) == [];
    OneByte(0x61, Ascii("a"));
    SmallOctet();
  }

  lemma OneByte(b: u8, s: Bytes)
    requires |s| == 1 && s[0] == b
    ensures Fnv(s) == ScalePrime(Xor(FNV_OFFSET, WideOctet(b)))
  {
    assert WideOctets(s) == [WideOctet(b)];
    assert [WideOctet(b)][1..] == [];
    assert AbsorbAll(ScalePrime, Absorb(ScalePrime, FNV_OFFSET, WideOctet(b)), []) ==
           ScalePrime(Xor(FNV_OFFSET, WideOctet(b)));
  }

  lemma SmallOctet()
    ensures ScalePrime(Xor(FNV_OFFSET, WideOctet(0x61))) == 0xaf63dc4c8601ec8c
  {
    var w: bv8 := 0x61;
    assert w as int == 0x61;
    assert WideOctet(0x61) == 0x61;
  }

  /** The value an item contributes. */
  function ValueOf(x: Item): bv64 {
    match x
    case Word(v) => Mix64(WordOf(v))
    case Text(s) => Mix64(Fnv(s))
  }

  lemma MixDistinct(x: bv64, y: bv64)
    requires Mix64(x) == Mix64(y)
    ensures x == y
  {
    Mix64Bijective(x);
    Mix64Bijective(y);
  }

  lemma WordValueDistinct(v: u64, w: u64)
    ensures ValueOf(Word(v)) == ValueOf(Word(w)) <==> v == w
  {
    if ValueOf(Word(v)) == ValueOf(Word(w)) {
      MixDistinct(WordOf(v), WordOf(w));
      WordDistinct(v, w);
    }
  }

  lemma TextValueDistinct(s: Bytes, t: Bytes, k: nat)
    requires |s| == |t| && k < |s| && s[..k] == t[..k] && s[k + 1..] == t[k + 1..]
    ensures ValueOf(Text(s)) == ValueOf(Text(t)) <==> s[k] == t[k]
  {
    FnvSeesOneByte(s, t, k);
    if ValueOf(Text(s)) == ValueOf(Text(t)) { MixDistinct(Fnv(s), Fnv(t)); }
  }

  // ------------------------------------------------------------------ the digest

  function Values(xs: seq<Item>): seq<bv64> {
    seq(|xs|, i requires 0 <= i < |xs| => ValueOf(xs[i]))
  }

  function Absorbed(seed: bv64, xs: seq<Item>): bv64 {
    AbsorbAll(ScaleGold, seed, Values(xs))
  }

  class StableDigest {
    var h: bv64

    constructor (seed: bv64)
      ensures h == seed
    {
      h := seed;
    }

    method With(x: Item)
      modifies this
      ensures h == Absorb(ScaleGold, old(h), ValueOf(x))
    {
      match x {
        case Word(v) => h := Xor(h, Mix64(WordOf(v)));
        case Text(s) =>
          var f := Fnv1a64(s);
          h := Xor(h, Mix64(f));
      }
      h := ScaleGold(h);
    }

    method WithAll(xs: seq<Item>)
      modifies this
      ensures h == Absorbed(old(h), xs)
    {
      ghost var vs := Values(xs);
      for i := 0 to |xs|
        invariant AbsorbAll(ScaleGold, h, vs[i..]) == AbsorbAll(ScaleGold, old(h), vs)
      {
        AbsorbNext(ScaleGold, h, vs, i);
        With(xs[i]);
      }
    }

    method Str() returns (s: string)
      ensures s == DigestString(h)
    {
      s := DigestString(h);
    }
  }

  /** Sixteen hexadecimal digits. */
  function DigestString(h: bv64): string {
    HexPad(Number(h), 16)
  }

  lemma DigestStringDistinct(h: bv64, g: bv64)
    requires DigestString(h) == DigestString(g)
    ensures h == g
  {
    var n := Named(h);
    var m := Named(g);
    HexDistinct(n, m);
  }

  lemma Named(h: bv64) returns (n: u64)
    ensures DigestString(h) == HexPad(n, 16) && n as bv64 == h
  {
    n := Number(h);
  }

  lemma HexDistinct(v: u64, w: u64)
    requires HexPad(v, 16) == HexPad(w, 16)
    ensures v == w
  {
    ToStringInjective(v, w);
  }

  /** Two item lists that differ in one place: the digests agree exactly when the two items
      contribute the same value. */
  lemma OneItemDiffers(seed: bv64, a: seq<Item>, b: seq<Item>, k: nat)
    requires |a| == |b| && k < |a| && forall i :: 0 <= i < |a| && i != k ==> a[i] == b[i]
    ensures Absorbed(seed, a) == Absorbed(seed, b) <==> ValueOf(a[k]) == ValueOf(b[k])
  {
    var x, y := Values(a), Values(b);
    assert x[..k] == y[..k] && x[k + 1..] == y[k + 1..];
    GoldUndone();
    OneDifference(ScaleGold, UnscaleGold, seed, x, y, k);
  }

  // ------------------------------------------------------------ orders to sort by

  function BytesLe(a: Bytes, b: Bytes): bool
    decreases |a|
  {
    a == [] || (b != [] && (a[0] < b[0] || (a[0] == b[0] && BytesLe(a[1..], b[1..]))))
  }

  lemma {:induction false} BytesTotal(a: Bytes, b: Bytes)
    ensures BytesLe(a, b) || BytesLe(b, a)
    ensures BytesLe(a, b) && BytesLe(b, a) ==> a == b
    decreases |a|
  {
    if a != [] && b != [] {
      BytesTotal(a[1..], b[1..]);
      assert a == [a[0]] + a[1..] && b == [b[0]] + b[1..];
    }
  }

  lemma {:induction false} BytesTransitive(a: Bytes, b: Bytes, c: Bytes)
    requires BytesLe(a, b) && BytesLe(b, c)
    ensures BytesLe(a, c)
    decreases |a|
  {
    if a != [] && a[0] == b[0] == c[0] { BytesTransitive(a[1..], b[1..], c[1..]); }
  }

  /** First by a number, then by two strings: the shape of both defaulted comparisons. */
  predicate LexLe(n: nat, a: Bytes, b: Bytes, m: nat, c: Bytes, d: Bytes) {
    n < m || (n == m && (if a != c then BytesLe(a, c) else BytesLe(b, d)))
  }

  lemma LexTotal(n: nat, a: Bytes, b: Bytes, m: nat, c: Bytes, d: Bytes)
    ensures LexLe(n, a, b, m, c, d) || LexLe(m, c, d, n, a, b)
    ensures LexLe(n, a, b, m, c, d) && LexLe(m, c, d, n, a, b) ==> n == m && a == c && b == d
  {
    BytesTotal(a, c);
    BytesTotal(b, d);
  }

  lemma LexTransitive(n: nat, a: Bytes, b: Bytes, m: nat, c: Bytes, d: Bytes, k: nat, e: Bytes, f: Bytes)
    requires LexLe(n, a, b, m, c, d) && LexLe(m, c, d, k, e, f)
    ensures LexLe(n, a, b, k, e, f)
  {
    if n == m == k {
      BytesTotal(a, c);
      if a != c && c != e { BytesTransitive(a, c, e); }
      if a == c == e { BytesTransitive(b, d, f); }
    }
  }

  /** Id, then generation: as one number. */
  function DependencyRank(x: Dependency): nat {
    x.id * TWO64 + x.generation
  }

  predicate DependencyLe(x: Dependency, y: Dependency) {
    LexLe(DependencyRank(x), x.kind, x.revision, DependencyRank(y), y.kind, y.revision)
  }

  predicate RequirementLe(x: Requirement, y: Requirement) {
    LexLe(DimensionByte(x.dimension), x.requiredValue, x.note, DimensionByte(y.dimension), y.requiredValue, y.note)
  }

  lemma DependencyOrder()
    ensures TotalOrder(DependencyLe)
  {
    forall x, y ensures DependencyLe(x, y) || DependencyLe(y, x)
      ensures DependencyLe(x, y) && DependencyLe(y, x) ==> x == y
    {
      LexTotal(DependencyRank(x), x.kind, x.revision, DependencyRank(y), y.kind, y.revision);
    }
    forall x, y, z | DependencyLe(x, y) && DependencyLe(y, z) ensures DependencyLe(x, z) {
      LexTransitive(DependencyRank(x), x.kind, x.revision, DependencyRank(y), y.kind, y.revision,
                    DependencyRank(z), z.kind, z.revision);
    }
  }

  lemma RequirementOrder()
    ensures TotalOrder(RequirementLe)
  {
    forall x, y ensures RequirementLe(x, y) || RequirementLe(y, x)
      ensures RequirementLe(x, y) && RequirementLe(y, x) ==> x == y
    {
      LexTotal(DimensionByte(x.dimension), x.requiredValue, x.note,
               DimensionByte(y.dimension), y.requiredValue, y.note);
      DimensionDistinct(x.dimension, y.dimension);
    }
    forall x, y, z | RequirementLe(x, y) && RequirementLe(y, z) ensures RequirementLe(x, z) {
      LexTransitive(DimensionByte(x.dimension), x.requiredValue, x.note,
                    DimensionByte(y.dimension), y.requiredValue, y.note,
                    DimensionByte(z.dimension), z.requiredValue, z.note);
    }
  }

  // --------------------------------------------------------- a record's derivation

  const RECORD_SEED: bv64 := 0x70726f76656e6365

  /** The scalar fields, in the order they are absorbed.  The artifact generation is not among them. */
  function ScalarItems(d: RecordData): seq<Item> {
    [Word(d.identity.provenanceId), Word(d.identity.provenanceGeneration), Word(d.identity.subjectId),
     Word(SubjectKindByte(d.identity.subjectKind)), Word(d.identity.stateGeneration),
     Word(d.production.producerId), Word(d.production.producerGeneration), Word(d.production.executionId),
     Word(d.production.attemptId), Word(d.production.attemptGeneration), Word(Wire.Unsigned(d.production.createdAt)),
     Word(d.model.modelId), Word(d.model.modelGeneration), Text(d.model.modelRevision), Text(d.model.tokenizer),
     Word(d.composition.adapterId), Word(d.composition.adapterGeneration), Text(d.composition.adapterRevision),
     Word(d.composition.compositionId), Word(d.composition.compositionGeneration),
     Text(d.composition.compositionFingerprint)]
    + PlatformItems(d) + ClaimItems(d)
  }

  function PlatformItems(d: RecordData): seq<Item> {
    [Word(d.platform.runtimeId), Word(d.platform.runtimeGeneration), Word(d.platform.backendId),
     Word(d.platform.toolchainId), Word(d.platform.deviceId), Text(d.platform.architecture),
     Text(d.platform.computeCapability), Text(d.platform.abi),
     Text(d.tensor.dtype), Text(d.tensor.layout), Text(d.tensor.shape)]
  }

  function ClaimItems(d: RecordData): seq<Item> {
    [Word(d.policy.policyId), Word(d.policy.policyGeneration), Text(d.policy.policyFingerprint),
     Text(d.policy.contentDigest), Word(d.fencing.coordinatorEpoch), Word(d.fencing.workerId),
     Word(d.fencing.workerBoot), Word(EvidenceClassByte(d.classification.evidence)),
     Word(ValidityByte(d.classification.validity)), Word(ReasonByte(d.classification.invalidationReason)),
     Word(EligibilityByte(d.classification.reuseEligibility)), Text(d.classification.note)]
  }

  function IdItems(s: seq<u64>): seq<Item> {
    seq(|s|, i requires 0 <= i < |s| => Word(s[i])) + [Word(|s| % TWO64)]
  }

  function DependencyItems(s: seq<Dependency>): seq<Item> {
    if s == [] then []
    else [Word(s[0].id), Word(s[0].generation), Text(s[0].kind), Text(s[0].revision)] + DependencyItems(s[1..])
  }

  function RequirementItems(s: seq<Requirement>): seq<Item> {
    if s == [] then []
    else [Word(DimensionByte(s[0].dimension)), Text(s[0].requiredValue), Text(s[0].note)] + RequirementItems(s[1..])
  }

  /** The four reference lists, each sorted first and followed by its size. */
  function ReferenceItems(x: References): seq<Item> {
    IdItems(Sort(x.inputStates, LessEq)) + IdItems(Sort(x.parentProvenance, LessEq)) +
    DependencyItems(Sort(x.dependencies, DependencyLe)) + [Word(|x.dependencies| % TWO64)] +
    RequirementItems(Sort(x.requirements, RequirementLe)) + [Word(|x.requirements| % TWO64)]
  }

  function RecordItems(d: RecordData): seq<Item> {
    ScalarItems(d) + ReferenceItems(d.references)
  }

  function DerivationDigest(d: RecordData): string {
    DigestString(Absorbed(RECORD_SEED, RecordItems(d)))
  }

  method ComputeDerivationDigest(d: RecordData) returns (s: string)
    ensures s == DerivationDigest(d)
  {
    var sd := new StableDigest(RECORD_SEED);
    sd.WithAll(RecordItems(d));
    s := sd.Str();
  }

  /** The same references in another order. */
  ghost predicate Reordered(x: References, y: References) {
    && multiset(x.inputStates) == multiset(y.inputStates)
    && multiset(x.parentProvenance) == multiset(y.parentProvenance)
    && multiset(x.dependencies) == multiset(y.dependencies)
    && multiset(x.requirements) == multiset(y.requirements)
  }

  /** The order references are listed in does not matter. */
  lemma DigestIgnoresOrder(d: RecordData, y: References)
    requires Reordered(d.references, y)
    ensures DerivationDigest(d.(references := y)) == DerivationDigest(d)
  {
    ReferencesSortAlike(d.references, y);
  }

  lemma ReferencesSortAlike(x: References, y: References)
    requires Reordered(x, y)
    ensures ReferenceItems(x) == ReferenceItems(y)
  {
    LessEqTotal();
    DependencyOrder();
    RequirementOrder();
    SortOfPermutation(x.inputStates, y.inputStates, LessEq);
    SortOfPermutation(x.parentProvenance, y.parentProvenance, LessEq);
    SortOfPermutation(x.dependencies, y.dependencies, DependencyLe);
    SortOfPermutation(x.requirements, y.requirements, RequirementLe);
    assert |x.dependencies| == |multiset(x.dependencies)| && |y.dependencies| == |multiset(y.dependencies)|;
    assert |x.requirements| == |multiset(x.requirements)| && |y.requirements| == |multiset(y.requirements)|;
  }

  /** Two records with the same references whose scalar fields differ in one place only. */
  ghost predicate DifferAt(a: RecordData, b: RecordData, k: nat) {
    && a.references == b.references && k < |ScalarItems(a)|
    && forall i :: 0 <= i < |ScalarItems(a)| && i != k ==> ScalarItems(a)[i] == ScalarItems(b)[i]
  }

  lemma OneFieldDiffers(a: RecordData, b: RecordData, k: nat)
    requires DifferAt(a, b, k)
    ensures DerivationDigest(a) == DerivationDigest(b) <==> ValueOf(ScalarItems(a)[k]) == ValueOf(ScalarItems(b)[k])
  {
    OneItemDiffers(RECORD_SEED, RecordItems(a), RecordItems(b), k);
    if DerivationDigest(a) == DerivationDigest(b) {
      DigestStringDistinct(Absorbed(RECORD_SEED, RecordItems(a)), Absorbed(RECORD_SEED, RecordItems(b)));
    }
  }

  /** A change of one fixed-width field always changes the digest. */
  lemma DigestSeesOneScalar(a: RecordData, b: RecordData, k: nat)
    requires DifferAt(a, b, k) && ScalarItems(a)[k].Word? && ScalarItems(b)[k].Word?
    ensures DerivationDigest(a) == DerivationDigest(b) <==> ScalarItems(a)[k] == ScalarItems(b)[k]
  {
    OneFieldDiffers(a, b, k);
    WordItems(ScalarItems(a)[k], ScalarItems(b)[k]);
  }

  lemma WordItems(x: Item, y: Item)
    requires x.Word? && y.Word?
    ensures ValueOf(x) == ValueOf(y) <==> x == y
  {
    WordValueDistinct(x.v, y.v);
  }

  /** So does a change of one byte of one string field. */
  lemma DigestSeesOneByte(a: RecordData, b: RecordData, k: nat, j: nat)
    requires DifferAt(a, b, k) && ScalarItems(a)[k].Text? && ScalarItems(b)[k].Text?
    requires var s, t := ScalarItems(a)[k].s, ScalarItems(b)[k].s;
             |s| == |t| && j < |s| && s[..j] == t[..j] && s[j + 1..] == t[j + 1..]
    ensures DerivationDigest(a) == DerivationDigest(b) <==> ScalarItems(a)[k].s[j] == ScalarItems(b)[k].s[j]
  {
    OneFieldDiffers(a, b, k);
    TextValueDistinct(ScalarItems(a)[k].s, ScalarItems(b)[k].s, j);
  }

  // ------------------------------------------------------------------- store digest

  const STORE_SEED: bv64 := 0x73746f7265

  /** Three items a time. */
  datatype Triple<T> = Triple(first: T, second: T, third: T)

  function Flat<T>(ts: seq<Triple<T>>): seq<T> {
    if ts == [] then [] else [ts[0].first, ts[0].second, ts[0].third] + Flat(ts[1..])
  }

  function RecordTriple(d: RecordData): Triple<Item> {
    Triple(Word(d.Subject()), Word(d.Provenance()), Text(Ascii(DerivationDigest(d))))
  }

  function RowTriple(k: StateId, x: RecordStatus): Triple<Item> {
    Triple(Word(k), Word(ValidityByte(x.validity)), Text(x.detail))
  }

  function Mapped<A, B>(f: A -> B, l: seq<A>): seq<B> {
    seq(|l|, i requires 0 <= i < |l| => f(l[i]))
  }

  function RecordTriples(l: seq<RecordData>): seq<Triple<Item>> {
    Mapped(RecordTriple, l)
  }

  function RowTriples(m: map<StateId, RecordStatus>): seq<Triple<Item>> {
    var ids := Sorted(m.Keys);
    seq(|ids|, i requires 0 <= i < |ids| => RowTriple(ids[i], m[ids[i]]))
  }

  function StoreItems(s: Snapshot): seq<Item> {
    Flat(RecordTriples(s.records)) + [Word(|s.records| % TWO64)] + Flat(RowTriples(s.status)) +
    [Word(s.authority.epoch)]
  }

  function DigestOfItems(xs: seq<Item>): string {
    DigestString(Absorbed(STORE_SEED, xs))
  }

  function StoreDigest(s: Snapshot): string {
    DigestOfItems(StoreItems(s))
  }

  /** Recovery reproduces the store digest, except that an epoch of zero comes back as one,
      which the digest always shows. */
  lemma RecoveredDigestIff(st: State)
    requires Runs.Consistent(st)
    ensures StoreDigest(TakeSnapshot(Restore(TakeSnapshot(st)).0)) == StoreDigest(TakeSnapshot(st)) <==>
            st.authority.epoch != 0
  {
    Runs.RestoreOfSnapshot(st);
    Runs.SnapshotIsStable(st);
    var s, r := TakeSnapshot(st), TakeSnapshot(Runs.Recovered(st));
    if st.authority.epoch == 0 {
      EpochShows(s, r);
    }
  }

  lemma EpochShows(s: Snapshot, r: Snapshot)
    requires r.records == s.records && r.status == s.status && r.authority.epoch != s.authority.epoch
    ensures StoreDigest(s) != StoreDigest(r)
  {
    var a, b := StoreItems(s), StoreItems(r);
    OneItemDiffers(STORE_SEED, a, b, |a| - 1);
    WordValueDistinct(s.authority.epoch, r.authority.epoch);
    if StoreDigest(s) == StoreDigest(r) {
      DigestStringDistinct(Absorbed(STORE_SEED, a), Absorbed(STORE_SEED, b));
    }
  }
}
