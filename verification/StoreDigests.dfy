/** What the store digest (store_digest of store.hpp) covers: of a record its ids and its
    derivation digest, of an overlay row its validity and detail, of the authority the epoch. */
module StoreDigests {
  import opened Ids
  import opened Orders
  import opened Records
  import opened EnumBytes
  import opened Digest
  import opened DigestFields
  import opened Registry
  import F = Fence

  // ------------------------------------------------------------ what is absorbed where

  function Part<T>(t: Triple<T>, c: nat): T {
    if c == 0 then t.first else if c == 1 then t.second else t.third
  }

  lemma {:induction false} FlatAt<T>(ts: seq<Triple<T>>, i: nat, c: nat)
    requires i < |ts| && c < 3
    ensures |Flat(ts)| == 3 * |ts| && Flat(ts)[3 * i + c] == Part(ts[i], c)
  {
    if i > 0 { FlatAt(ts[1..], i - 1, c); } else { FlatCount(ts[1..]); }
  }

  lemma {:induction false} FlatCount<T>(ts: seq<Triple<T>>)
    ensures |Flat(ts)| == 3 * |ts|
  {
    if ts != [] { FlatCount(ts[1..]); }
  }

  /** Lists of triples that differ in one part of one. */
  ghost predicate PartDiffers<T>(ts: seq<Triple<T>>, us: seq<Triple<T>>, i: nat, c: nat) {
    OnlyAt(ts, us, i) && c < 3 && forall e :: 0 <= e < 3 && e != c ==> Part(ts[i], e) == Part(us[i], e)
  }

  lemma FlatDiffers<T>(ts: seq<Triple<T>>, us: seq<Triple<T>>, i: nat, c: nat)
    requires PartDiffers(ts, us, i, c)
    ensures OnlyAt(Flat(ts), Flat(us), 3 * i + c)
    ensures Flat(ts)[3 * i + c] == Part(ts[i], c) && Flat(us)[3 * i + c] == Part(us[i], c)
  {
    FlatAt(ts, i, c);
    FlatAt(us, i, c);
    forall k | 0 <= k < |Flat(ts)| && k != 3 * i + c ensures Flat(ts)[k] == Flat(us)[k] {
      FlatAt(ts, k / 3, k % 3);
      FlatAt(us, k / 3, k % 3);
      if k / 3 == i { assert Part(ts[i], k % 3) == Part(us[i], k % 3); }
    }
  }

  /** A digest of lists that, where two lists differ in one place, shows whether the elements
      there are alike. */
  ghost predicate Shows<T(!new)>(dig: seq<T> -> string, alike: (T, T) -> bool) {
    forall a, b, k {:trigger OnlyAt(a, b, k)} :: OnlyAt(a, b, k) ==> (dig(a) == dig(b) <==> alike(a[k], b[k]))
  }

  lemma StretchShows<T(!new)>(dig: seq<T> -> string, alike: (T, T) -> bool, p: seq<T>, x: seq<T>, y: seq<T>, q: seq<T>,
                        j: nat)
    requires Shows(dig, alike) && OnlyAt(x, y, j)
    ensures dig(p + x + q) == dig(p + y + q) <==> alike(x[j], y[j])
  {
    StretchAt(p, x, y, q, j, p + x + q, p + y + q);
  }

  /** A difference in one part of one triple, in the second or in the first list. */
  lemma SecondShows<T(!new)>(dig: seq<T> -> string, alike: (T, T) -> bool, rs: seq<Triple<T>>, n: T, t: seq<Triple<T>>,
                       u: seq<Triple<T>>, e: T, j: nat, c: nat)
    requires Shows(dig, alike) && PartDiffers(t, u, j, c)
    ensures dig(Flat(rs) + [n] + Flat(t) + [e]) == dig(Flat(rs) + [n] + Flat(u) + [e]) <==>
            alike(Part(t[j], c), Part(u[j], c))
  {
    FlatDiffers(t, u, j, c);
    StretchShows(dig, alike, Flat(rs) + [n], Flat(t), Flat(u), [e], 3 * j + c);
  }

  lemma FirstShows<T(!new)>(dig: seq<T> -> string, alike: (T, T) -> bool, t: seq<Triple<T>>, u: seq<Triple<T>>, n: T,
                      rows: seq<Triple<T>>, e: T, j: nat, c: nat)
    requires Shows(dig, alike) && PartDiffers(t, u, j, c)
    ensures dig(Flat(t) + [n] + Flat(rows) + [e]) == dig(Flat(u) + [n] + Flat(rows) + [e]) <==>
            alike(Part(t[j], c), Part(u[j], c))
  {
    FlatDiffers(t, u, j, c);
    StretchShows(dig, alike, [], Flat(t), Flat(u), [n] + Flat(rows) + [e], 3 * j + c);
    Regrouped(Flat(t), [n], Flat(rows), [e]);
    Regrouped(Flat(u), [n], Flat(rows), [e]);
  }

  lemma Regrouped<T>(a: seq<T>, b: seq<T>, c: seq<T>, d: seq<T>)
    ensures a + b + c + d == [] + a + (b + c + d)
  {
  }

  /** Items that contribute the same value. */
  ghost predicate Alike(x: Item, y: Item) {
    ValueOf(x) == ValueOf(y)
  }

  lemma ItemsShow()
    ensures Shows(DigestOfItems, (x, y) => Alike(x, y))
  {
    forall a, b, k {:trigger OnlyAt(a, b, k)} | OnlyAt(a, b, k)
      ensures DigestOfItems(a) == DigestOfItems(b) <==> Alike(a[k], b[k])
    {
      OneItemDiffers(STORE_SEED, a, b, k);
      SameString(Absorbed(STORE_SEED, a), Absorbed(STORE_SEED, b));
    }
  }

  lemma SameString(h: bv64, g: bv64)
    ensures DigestString(h) == DigestString(g) <==> h == g
  {
    if DigestString(h) == DigestString(g) { DigestStringDistinct(h, g); }
  }

  // --------------------------------------------------------------------- overlay rows

  function WithRow(s: Snapshot, k: StateId, x: RecordStatus): Snapshot {
    s.(status := s.status[k := x])
  }

  /** With another row for k only that row's triple is another. */
  lemma RowDiffers(m: map<StateId, RecordStatus>, k: StateId, x: RecordStatus) returns (j: nat)
    requires k in m
    ensures OnlyAt(RowTriples(m), RowTriples(m[k := x]), j)
    ensures RowTriples(m)[j] == RowTriple(k, m[k]) && RowTriples(m[k := x])[j] == RowTriple(k, x)
  {
    var ids := Sorted(m.Keys);
    assert k in ids;
    j :| 0 <= j < |ids| && ids[j] == k;
    assert m[k := x].Keys == m.Keys;
    RowsDifferAt(m, m[k := x], ids, RowTriples(m), RowTriples(m[k := x]), j);
  }

  lemma RowsDifferAt(m: map<StateId, RecordStatus>, n: map<StateId, RecordStatus>, ids: seq<StateId>,
                     t: seq<Triple<Item>>, u: seq<Triple<Item>>, j: nat)
    requires Increasing(ids) && j < |ids| == |t| == |u|
    requires forall i :: 0 <= i < |ids| ==> ids[i] in m && t[i] == RowTriple(ids[i], m[ids[i]])
    requires forall i :: 0 <= i < |ids| ==> ids[i] in n && u[i] == RowTriple(ids[i], n[ids[i]])
    requires forall e :: e in m && e != ids[j] ==> e in n && n[e] == m[e]
    ensures OnlyAt(t, u, j)
  {
    forall i | 0 <= i < |ids| && i != j ensures t[i] == u[i] { assert ids[i] != ids[j]; }
  }

  /** Digests of two stores that differ in one part of one row. */
  lemma RowDigestsAgree(s: Snapshot, k: StateId, x: RecordStatus, c: nat, dig: seq<Item> -> string,
                        alike: (Item, Item) -> bool)
    requires k in s.status && c < 3 && Shows(dig, alike)
    requires forall e :: 0 <= e < 3 && e != c ==> Part(RowTriple(k, s.status[k]), e) == Part(RowTriple(k, x), e)
    ensures dig(StoreItems(s)) == dig(StoreItems(WithRow(s, k, x))) <==>
            alike(Part(RowTriple(k, s.status[k]), c), Part(RowTriple(k, x), c))
  {
    var j := RowDiffers(s.status, k, x);
    SecondShows(dig, alike, RecordTriples(s.records), Word(|s.records| % TWO64), RowTriples(s.status),
                RowTriples(s.status[k := x]), Word(s.authority.epoch), j, c);
  }

  /** Whatever a row's reason and provenance generation become, the digest stays the same exactly
      if its validity does, the detail being kept. */
  lemma StoreDigestSeesValidity(s: Snapshot, k: StateId, x: RecordStatus)
    requires k in s.status && x.detail == s.status[k].detail
    ensures StoreDigest(s) == StoreDigest(WithRow(s, k, x)) <==> s.status[k].validity == x.validity
  {
    ItemsShow();
    RowDigestsAgree(s, k, x, 1, DigestOfItems, (x, y) => Alike(x, y));
    WordValueDistinct(ValidityByte(s.status[k].validity), ValidityByte(x.validity));
    ValidityDistinct(s.status[k].validity, x.validity);
  }

  /** And, the validity being kept, exactly if the detail does, when it differs in at most a byte. */
  lemma StoreDigestSeesDetail(s: Snapshot, k: StateId, x: RecordStatus)
    requires k in s.status && x.validity == s.status[k].validity
    requires Close(Chars(s.status[k].detail), Chars(x.detail))
    ensures StoreDigest(s) == StoreDigest(WithRow(s, k, x)) <==> s.status[k].detail == x.detail
  {
    ItemsShow();
    RowDigestsAgree(s, k, x, 2, DigestOfItems, (x, y) => Alike(x, y));
    CloseValues(Chars(s.status[k].detail), Chars(x.detail));
  }

  // ------------------------------------------------------------- authority and records

  /** Of the authority the epoch shows, and nothing else does. */
  lemma StoreDigestSeesEpoch(s: Snapshot, a: F.Authority)
    ensures StoreDigest(s) == StoreDigest(s.(authority := a)) <==> s.authority.epoch == a.epoch
  {
    if s.authority.epoch != a.epoch { EpochShows(s, s.(authority := a)); }
  }

  /** With another record of the same ids, the digest stays the same exactly if the two derivation
      digests have the same hash. */
  lemma StoreDigestSeesDerivation(s: Snapshot, i: nat, d: RecordData)
    requires i < |s.records| && d.Subject() == s.records[i].Subject() && d.Provenance() == s.records[i].Provenance()
    ensures StoreDigest(s) == StoreDigest(s.(records := s.records[i := d])) <==>
            Fnv(Ascii(DerivationDigest(s.records[i]))) == Fnv(Ascii(DerivationDigest(d)))
  {
    ItemsShow();
    RecordDigestsAgree(s.records, i, d, RecordTriple, Word(|s.records| % TWO64), RowTriples(s.status),
                       Word(s.authority.epoch), DigestOfItems, (x, y) => Alike(x, y));
    HashesAgree(Ascii(DerivationDigest(s.records[i])), Ascii(DerivationDigest(d)));
  }

  lemma RecordDigestsAgree<A, T(!new)>(l: seq<A>, i: nat, d: A, f: A -> Triple<T>, n: T, rows: seq<Triple<T>>, e: T,
                                       dig: seq<T> -> string, alike: (T, T) -> bool)
    requires Shows(dig, alike) && i < |l|
    requires f(l[i]).first == f(d).first && f(l[i]).second == f(d).second
    ensures dig(Flat(Mapped(f, l)) + [n] + Flat(rows) + [e]) == dig(Flat(Mapped(f, l[i := d])) + [n] + Flat(rows) + [e])
            <==> alike(f(l[i]).third, f(d).third)
  {
    FirstShows(dig, alike, Mapped(f, l), Mapped(f, l[i := d]), n, rows, e, i, 2);
  }

  lemma HashesAgree(s: Bytes, t: Bytes)
    ensures Alike(Text(s), Text(t)) <==> Fnv(s) == Fnv(t)
  {
    if Alike(Text(s), Text(t)) { MixDistinct(Fnv(s), Fnv(t)); }
  }
}
