/** CRC-32 (digest.hpp), the reflected CRC of IEEE 802.3 clause 3.2.9: the table form equals
    the bit-by-bit form, and corruption within any 32 consecutive bits is always seen. */
module Crc {
  import opened Ids
  import opened Records
  import opened ByteWords
  import opened Iteration

  // ---------------------------------------------------------------- bit by bit

  function Xor(x: bv32, y: bv32): bv32 {
    x ^ y
  }

  /** One bit of polynomial division. */
  function Bit(c: bv32): bv32 {
    if c & 1 == 1 then (c >> 1) ^ 0xEDB88320 else c >> 1
  }

  function Octet(b: u8): bv32 {
    (b as bv8) as bv32
  }

  function Octets(s: Bytes): seq<bv32> {
    seq(|s|, i requires 0 <= i < |s| => Octet(s[i]))
  }

  /** What a byte does to the register: eight bits of division. */
  function Step(c: bv32, w: bv32): bv32 {
    Iter(Bit, Xor(c, w), 8)
  }

  function Run(c: bv32, ws: seq<bv32>): bv32
    decreases |ws|
  {
    if ws == [] then c else Run(Step(c, ws[0]), ws[1..])
  }

  function Checksum(s: Bytes): bv32 {
    Xor(Run(0xFFFFFFFF, Octets(s)), 0xFFFFFFFF)
  }

  // --------------------------------------------------------------- bytes as words

  lemma Widened(x: bv8)
    ensures (x as bv32) < 0x100 && (x as bv32) as bv8 == x
  {
  }

  lemma OctetSmall(b: u8)
    ensures Octet(b) < 0x100
  {
    Widened(b as bv8);
  }

  lemma OctetDistinct(a: u8, b: u8)
    requires Octet(a) == Octet(b)
    ensures a == b
  {
    Widened(a as bv8);
    Widened(b as bv8);
    ByteBack(a);
    ByteBack(b);
  }

  // ------------------------------------------------------------- linear, injective

  lemma OddOrEven(x: bv32)
    ensures x & 1 == 1 || x & 1 == 0
  {
  }

  lemma BitXorOdd(x: bv32, y: bv32)
    requires x & 1 == 1 && y & 1 == 1
    ensures Bit(Xor(x, y)) == Xor(Bit(x), Bit(y))
  {
  }

  lemma BitXorMixed(x: bv32, y: bv32)
    requires x & 1 == 1 && y & 1 == 0
    ensures Bit(Xor(x, y)) == Xor(Bit(x), Bit(y))
  {
  }

  lemma XorCommutes(x: bv32, y: bv32)
    ensures Xor(x, y) == Xor(y, x)
  {
  }

  lemma BitXorEven(x: bv32, y: bv32)
    requires x & 1 == 0 && y & 1 == 0
    ensures Bit(Xor(x, y)) == Xor(Bit(x), Bit(y))
  {
  }

  lemma BitXor(x: bv32, y: bv32)
    ensures Bit(Xor(x, y)) == Xor(Bit(x), Bit(y))
  {
    OddOrEven(x);
    OddOrEven(y);
    if x & 1 == 1 {
      if y & 1 == 1 { BitXorOdd(x, y); } else { BitXorMixed(x, y); }
    } else {
      if y & 1 == 1 {
        BitXorMixed(y, x);
        XorCommutes(x, y);
        XorCommutes(Bit(x), Bit(y));
      } else {
        BitXorEven(x, y);
      }
    }
  }

  /** Division is linear. */
  lemma BitsXor(x: bv32, y: bv32, n: nat)
    ensures Iter(Bit, Xor(x, y), n) == Xor(Iter(Bit, x, n), Iter(Bit, y, n))
  {
    BitLinear();
    IterLinear(Bit, Xor, x, y, n);
  }

  lemma BitLinear()
    ensures forall a, b :: Bit(Xor(a, b)) == Xor(Bit(a), Bit(b))
  {
    forall a, b ensures Bit(Xor(a, b)) == Xor(Bit(a), Bit(b)) { BitXor(a, b); }
  }

  /** The polynomial's top bit records the bit shifted out: nothing is lost. */
  lemma BitDistinct(x: bv32, y: bv32)
    requires Bit(x) == Bit(y)
    ensures x == y
  {
  }

  lemma BitsDistinct(x: bv32, y: bv32, n: nat)
    requires Iter(Bit, x, n) == Iter(Bit, y, n)
    ensures x == y
  {
    BitOneToOne();
    IterOneToOne(Bit, x, y, n);
  }

  lemma BitOneToOne()
    ensures forall a, b :: Bit(a) == Bit(b) ==> a == b
  {
    forall a, b | Bit(a) == Bit(b) ensures a == b { BitDistinct(a, b); }
  }

  // -------------------------------------------------------------------- the table

  function Entry(i: bv8): bv32 {
    Iter(Bit, i as bv32, 8)
  }

  lemma NextBit(c: bv32, n: nat)
    requires n > 0
    ensures Iter(Bit, c, n) == Iter(Bit, Bit(c), n - 1)
  {
  }

  /** crc_table_make. */
  method TableEntry(i: bv8) returns (c: bv32)
    ensures c == Entry(i)
  {
    c := i as bv32;
    for k := 0 to 8
      invariant Iter(Bit, c, 8 - k) == Entry(i)
    {
      NextBit(c, 8 - k);
      c := if c & 1 == 1 then (c >> 1) ^ 0xEDB88320 else c >> 1;
    }
  }

  ghost predicate IsTable(t: seq<bv32>) {
    |t| == 256 && forall j :: 0 <= j < 256 ==> t[j] == Entry(j as bv8)
  }

  method Table() returns (t: seq<bv32>)
    ensures IsTable(t)
  {
    t := [];
    for i := 0 to 256
      invariant |t| == i && forall j :: 0 <= j < i ==> t[j] == Entry(j as bv8)
    {
      var c := TableEntry(i as bv8);
      t := t + [c];
    }
  }

  function Low(z: bv32): bv8 {
    (z & 0xFF) as bv8
  }

  function LowPart(z: bv32): bv32 {
    z & 0xFF
  }

  function HighPart(z: bv32): bv32 {
    z & 0xFFFFFF00
  }

  function Upper(z: bv32): bv32 {
    z >> 8
  }

  function Half(x: bv32): bv32 {
    x >> 1
  }

  predicate Odd(x: bv32) {
    x & 1 == 1
  }

  /** The low n bits are all clear, or all set. */
  predicate Clear(x: bv32, n: nat)
    decreases n, x
  {
    n == 0 || (!Odd(x) && Clear(Half(x), n - 1))
  }

  predicate Ones(x: bv32, n: nat) {
    n == 0 || (Odd(x) && Ones(Half(x), n - 1))
  }

  lemma ClearStep(y: bv32, m: bv32)
    requires y & m == 0 && Odd(m)
    ensures !Odd(y) && Half(y) & Half(m) == 0
  {
  }

  lemma {:induction false} ClearBy(y: bv32, m: bv32, n: nat)
    requires y & m == 0 && Ones(m, n)
    ensures Clear(y, n)
    decreases n
  {
    if n > 0 {
      ClearStep(y, m);
      ClearBy(Half(y), Half(m), n - 1);
    }
  }

  lemma EvenBit(y: bv32)
    requires !Odd(y)
    ensures Bit(y) == Half(y)
  {
  }

  /** A register whose low bits are clear is only shifted. */
  lemma {:induction false} OnlyShifted(y: bv32, n: nat)
    requires Clear(y, n)
    ensures Iter(Bit, y, n) == Iter(Half, y, n)
    decreases n
  {
    if n > 0 {
      EvenBit(y);
      OnlyShifted(Half(y), n - 1);
    }
  }

  lemma EightHalves(y: bv32)
    ensures Half(Half(Half(Half(Half(Half(Half(Half(y)))))))) == Upper(y)
  {
  }

  lemma HalvedEight(y: bv32)
    ensures Iter(Half, y, 8) == Upper(y)
  {
    IterEight(Half, y);
    EightHalves(y);
  }

  lemma HighClear(c: bv32, w: bv32)
    requires w < 0x100
    ensures HighPart(Xor(c, w)) & 0xFF == 0 && Upper(HighPart(Xor(c, w))) == Upper(c)
  {
  }

  lemma HighShifted(c: bv32, w: bv32)
    requires w < 0x100
    ensures Iter(Bit, HighPart(Xor(c, w)), 8) == Upper(c)
  {
    var y := HighPart(Xor(c, w));
    HighClear(c, w);
    ClearBy(y, 0xFF, 8);
    OnlyShifted(y, 8);
    HalvedEight(y);
  }

  lemma Parts(z: bv32)
    ensures z == Xor(LowPart(z), HighPart(z)) && Low(z) as bv32 == LowPart(z)
  {
  }

  lemma Assembled<R>(f: R -> R, op: (R, R) -> R, z: R, lo: R, hi: R, up: R, n: nat)
    requires z == op(lo, hi) && Iter(f, op(lo, hi), n) == op(Iter(f, lo, n), Iter(f, hi, n)) && Iter(f, hi, n) == up
    ensures op(Iter(f, lo, n), up) == Iter(f, z, n)
  {
  }

  /** One table look-up does the work of eight bit steps. */
  lemma TableStep(c: bv32, w: bv32)
    requires w < 0x100
    ensures Xor(Entry(Low(Xor(c, w))), Upper(c)) == Step(c, w)
  {
    var z := Xor(c, w);
    Parts(z);
    HighShifted(c, w);
    BitsXor(LowPart(z), HighPart(z), 8);
    Assembled(Bit, Xor, z, LowPart(z), HighPart(z), Upper(c), 8);
  }

  function Slot(z: bv32): (i: nat)
    ensures i < 256 && i as bv8 == Low(z)
  {
    IntBack(Low(z));
    Low(z) as int
  }

  method LookUp(t: seq<bv32>, c: bv32, b: u8) returns (r: bv32)
    requires IsTable(t)
    ensures r == Step(c, Octet(b))
  {
    var i := Slot(Xor(c, Octet(b)));
    OctetSmall(b);
    TableStep(c, Octet(b));
    r := Xor(t[i], c >> 8);
  }

  lemma RunNext(c: bv32, ws: seq<bv32>, i: nat)
    requires i < |ws|
    ensures Run(c, ws[i..]) == Run(Step(c, ws[i]), ws[i + 1..])
  {
    assert ws[i..][1..] == ws[i + 1..];
  }

  /** crc32, by table. */
  method Crc32(data: Bytes) returns (r: bv32)
    ensures r == Checksum(data)
  {
    var t := Table();
    var crc: bv32 := 0xFFFFFFFF;
    ghost var ws := Octets(data);
    for i := 0 to |data|
      invariant Run(crc, ws[i..]) == Run(0xFFFFFFFF, ws)
    {
      RunNext(crc, ws, i);
      crc := LookUp(t, crc, data[i]);
    }
    r := Xor(crc, 0xFFFFFFFF);
  }

  // ------------------------------------------------------------------- bit by bit

  function Unit(b: bool): bv32 {
    if b then 1 else 0
  }

  function Double(x: bv32): bv32 {
    x << 1
  }

  /** One bit of the payload enters the register. */
  function Feed(c: bv32, b: bool): bv32 {
    Bit(Xor(c, Unit(b)))
  }

  /** The bits of a payload in the order they are processed: least significant first. */
  function BitsOf(w: bv32, n: nat): (r: seq<bool>)
    ensures |r| == n
  {
    Bits(Odd, Half, w, n)
  }

  function BitStream(s: Bytes): (r: seq<bool>)
    ensures |r| == 8 * |s|
  {
    if s == [] then [] else BitsOf(Octet(s[0]), 8) + BitStream(s[1..])
  }

  /** Bits side by side in one word. */
  function Pack(bits: seq<bool>): bv32 {
    Fold(JoinBit, 0, bits)
  }

  /** 2^(31 - j). */
  function Cap(j: nat): bv32 {
    Down(Half, 0x8000_0000, j)
  }

  lemma CapEight(j: nat)
    ensures Cap(j + 8) == Upper(Cap(j))
  {
    DownEight(Half, 0x8000_0000, j);
    EightHalves(Cap(j));
  }

  lemma CapEnds()
    ensures Less(0, Cap(31))
  {
    CapEight(0);
    CapEight(8);
    CapEight(16);
    assert Cap(24) == 0x80;
    DownTwo(Half, 0x8000_0000, 24);
    DownTwo(Half, 0x8000_0000, 26);
    DownTwo(Half, 0x8000_0000, 28);
    assert Cap(30) == 2 && Cap(31) == Half(Cap(30));
  }

  predicate Less(p: bv32, q: bv32) {
    p < q
  }

  function JoinBit(b: bool, p: bv32): bv32 {
    Xor(Unit(b), Double(p))
  }

  lemma SmallNext()
    ensures forall p, b, cap :: Less(p, Half(cap)) ==> Less(JoinBit(b, p), cap)
  {
    forall p, b, cap | Less(p, Half(cap)) ensures Less(JoinBit(b, p), cap) { SmallStep(p, b, cap); }
  }

  lemma SmallStep(p: bv32, b: bool, cap: bv32)
    requires p < Half(cap)
    ensures Xor(Unit(b), Double(p)) < cap
  {
  }

  /** n <= 31 bits, packed, stay below 2^n. */
  lemma PackSmall(bits: seq<bool>, j: nat)
    requires |bits| + j == 31
    ensures Less(Pack(bits), Cap(j))
  {
    CapEnds();
    SmallNext();
    FoldBounded(JoinBit, Half, Less, 0x8000_0000, 0, bits, j);
  }

  lemma {:induction false} CapFalls(j: nat)
    ensures Cap(j) <= Cap(0)
  {
    if j > 0 {
      CapFalls(j - 1);
      HalfLess(Cap(j - 1));
    }
  }

  lemma HalfLess(x: bv32)
    ensures Half(x) <= x
  {
  }

  /** The top bit of a word packed from fewer than 32 bits is clear. */
  lemma PackShort(bits: seq<bool>)
    requires |bits| <= 31
    ensures Pack(bits) < 0x8000_0000
  {
    PackSmall(bits, 31 - |bits|);
    CapFalls(31 - |bits|);
  }

  lemma Undoubled(p: bv32)
    requires p < 0x8000_0000
    ensures Bit(Double(p)) == p
  {
  }

  /** Feeding bits one by one is dividing once with all of them packed. */
  lemma {:induction false} FeedAll(c: bv32, bits: seq<bool>)
    requires |bits| <= 32
    ensures Serial(Feed, c, bits) == Iter(Bit, Xor(c, Pack(bits)), |bits|)
    decreases |bits|
  {
    if bits == [] {
      XorNone(c);
    } else {
      var u, rest, p := Unit(bits[0]), bits[1..], Pack(bits[1..]);
      FeedAll(Feed(c, bits[0]), rest);
      PackShort(rest);
      FeedNext(c, u, p);
      Absorbed(Bit, Xor, c, u, p, Double(p), |bits|);
    }
  }

  lemma XorNone(c: bv32)
    ensures Xor(c, 0) == c
  {
  }

  lemma FeedNext(c: bv32, u: bv32, p: bv32)
    requires p < 0x8000_0000
    ensures Xor(Xor(c, u), Double(p)) == Xor(c, Xor(u, Double(p)))
    ensures Bit(Xor(Xor(c, u), Double(p))) == Xor(Bit(Xor(c, u)), p)
  {
    XorAssociates(c, u, Double(p));
    BitXor(Xor(c, u), Double(p));
    Undoubled(p);
  }

  lemma XorAssociates(c: bv32, d: bv32, v: bv32)
    ensures Xor(Xor(c, d), v) == Xor(c, Xor(d, v))
  {
  }

  lemma Unpacked(x: bool, y: bool, p: bv32, q: bv32)
    requires p < 0x8000_0000 && q < 0x8000_0000 && Xor(Unit(x), Double(p)) == Xor(Unit(y), Double(q))
    ensures x == y && p == q
  {
  }

  lemma {:induction false} PackDistinct(a: seq<bool>, b: seq<bool>)
    requires |a| == |b| <= 32 && Pack(a) == Pack(b)
    ensures a == b
    decreases |a|
  {
    if a != [] {
      PackShort(a[1..]);
      PackShort(b[1..]);
      Unpacked(a[0], b[0], Pack(a[1..]), Pack(b[1..]));
      PackDistinct(a[1..], b[1..]);
      assert a == [a[0]] + a[1..] && b == [b[0]] + b[1..];
    }
  }

  lemma Rejoined(w: bv32)
    ensures Xor(Unit(Odd(w)), Double(Half(w))) == w
  {
  }

  lemma {:induction false} PackBits(w: bv32, n: nat)
    requires Iter(Half, w, n) == 0
    ensures Pack(BitsOf(w, n)) == w
    decreases n
  {
    if n > 0 {
      PackBits(Half(w), n - 1);
      Rejoined(w);
      assert BitsOf(w, n)[1..] == BitsOf(Half(w), n - 1);
    }
  }

  lemma NoUpper(w: bv32)
    requires w < 0x100
    ensures Upper(w) == 0
  {
  }

  lemma ByteBits(b: u8)
    ensures Pack(BitsOf(Octet(b), 8)) == Octet(b)
  {
    OctetSmall(b);
    NoUpper(Octet(b));
    HalvedEight(Octet(b));
    PackBits(Octet(b), 8);
  }

  /** The register sees a payload as its stream of bits. */
  lemma {:induction false} RunIsSerial(c: bv32, s: Bytes)
    ensures Run(c, Octets(s)) == Serial(Feed, c, BitStream(s))
    decreases |s|
  {
    if s != [] {
      var w, rest := BitsOf(Octet(s[0]), 8), s[1..];
      FeedAll(c, w);
      ByteBits(s[0]);
      RunIsSerial(Step(c, Octet(s[0])), rest);
      assert Octets(s)[1..] == Octets(rest);
      SerialSplit(Feed, c, w, BitStream(rest));
    }
  }

  // ------------------------------------------------------------- error detection

  lemma XorDistinct(c: bv32, d: bv32, w: bv32)
    requires Xor(c, w) == Xor(d, w)
    ensures c == d
  {
  }

  lemma FeedDistinct()
    ensures forall c, d, b :: Feed(c, b) == Feed(d, b) ==> c == d
  {
    forall c, d, b | Feed(c, b) == Feed(d, b) ensures c == d {
      BitDistinct(Xor(c, Unit(b)), Xor(d, Unit(b)));
      XorDistinct(c, d, Unit(b));
    }
  }

  /** From one register, up to 32 bits lead to the same register only if they are the same. */
  lemma SameStart(c: bv32, a: seq<bool>, b: seq<bool>)
    requires |a| == |b| <= 32 && Serial(Feed, c, a) == Serial(Feed, c, b)
    ensures a == b
  {
    FeedAll(c, a);
    FeedAll(c, b);
    BitsDistinct(Xor(c, Pack(a)), Xor(c, Pack(b)), |a|);
    XorCommutes(c, Pack(a));
    XorCommutes(c, Pack(b));
    XorDistinct(Pack(a), Pack(b), c);
    PackDistinct(a, b);
  }

  lemma BetweenSame(c: bv32, p: seq<bool>, v: seq<bool>, w: seq<bool>, q: seq<bool>)
    requires |v| == |w| <= 32 && Serial(Feed, c, p + (v + q)) == Serial(Feed, c, p + (w + q))
    ensures v == w
  {
    SerialSplit(Feed, c, p, v + q);
    SerialSplit(Feed, c, p, w + q);
    var c1 := Serial(Feed, c, p);
    SerialSplit(Feed, c1, v, q);
    SerialSplit(Feed, c1, w, q);
    FeedDistinct();
    SerialOneToOne(Feed, Serial(Feed, c1, v), Serial(Feed, c1, w), q);
    SameStart(c1, v, w);
  }

  lemma Cut(x: seq<bool>, i: nat, m: nat)
    requires i <= m <= |x|
    ensures x == x[..i] + (x[i..m] + x[m..])
  {
  }

  /** Equal lengths, and different only inside the 32 consecutive bits from bit i on. */
  ghost predicate DifferWithinBits(x: seq<bool>, y: seq<bool>, i: nat) {
    |x| == |y| && forall j :: 0 <= j < |x| && !(i <= j < i + 32) ==> x[j] == y[j]
  }

  lemma BurstSame(c: bv32, x: seq<bool>, y: seq<bool>, i: nat)
    requires DifferWithinBits(x, y, i) && Serial(Feed, c, x) == Serial(Feed, c, y)
    ensures x == y
  {
    var l := if i <= |x| then i else |x|;
    var m := if i + 32 <= |x| then i + 32 else |x|;
    Cut(x, l, m);
    Cut(y, l, m);
    assert y[..l] == x[..l] && y[m..] == x[m..];
    BetweenSame(c, x[..l], x[l..m], y[l..m], x[m..]);
  }

  lemma {:induction false} StreamDistinct(a: Bytes, b: Bytes)
    requires BitStream(a) == BitStream(b)
    ensures a == b
    decreases |a|
  {
    assert 8 * |a| == |BitStream(a)| == 8 * |b|;
    if a != [] {
      var v, w := BitsOf(Octet(a[0]), 8), BitsOf(Octet(b[0]), 8);
      assert v == BitStream(a)[..8] && w == BitStream(b)[..8];
      assert BitStream(a[1..]) == BitStream(a)[8..] && BitStream(b[1..]) == BitStream(b)[8..];
      StreamDistinct(a[1..], b[1..]);
      ByteBits(a[0]);
      ByteBits(b[0]);
      OctetDistinct(a[0], b[0]);
      assert a == [a[0]] + a[1..] && b == [b[0]] + b[1..];
    }
  }

  /** Any corruption within 32 consecutive bits, wherever they begin, changes the checksum. */
  lemma BurstDetected(a: Bytes, b: Bytes, i: nat)
    requires DifferWithinBits(BitStream(a), BitStream(b), i)
    ensures Checksum(a) == Checksum(b) <==> a == b
  {
    if Checksum(a) == Checksum(b) {
      XorDistinct(Run(0xFFFFFFFF, Octets(a)), Run(0xFFFFFFFF, Octets(b)), 0xFFFFFFFF);
      RunIsSerial(0xFFFFFFFF, a);
      RunIsSerial(0xFFFFFFFF, b);
      BurstSame(0xFFFFFFFF, BitStream(a), BitStream(b), i);
      StreamDistinct(a, b);
    }
  }

  /** Bit 8i + k of a payload is bit k of its byte i. */
  lemma {:induction false} StreamAt(s: Bytes, i: nat, k: nat)
    requires i < |s| && k < 8
    ensures BitStream(s)[8 * i + k] == BitsOf(Octet(s[i]), 8)[k]
  {
    StreamParts(s);
    if i > 0 {
      StreamAt(s[1..], i - 1, k);
      FurtherOn(BitsOf(Octet(s[0]), 8), BitStream(s[1..]), i, k);
    }
  }

  lemma StreamParts(s: Bytes)
    requires s != []
    ensures BitStream(s) == BitsOf(Octet(s[0]), 8) + BitStream(s[1..])
  {
  }

  lemma FurtherOn(a: seq<bool>, b: seq<bool>, i: nat, k: nat)
    requires |a| == 8 && 0 < i && 8 * i + k < 8 + |b|
    ensures (a + b)[8 * i + k] == b[8 * (i - 1) + k]
  {
  }

  /** Equal lengths, and different only inside the four bytes from i on. */
  ghost predicate DifferWithin(a: Bytes, b: Bytes, i: nat) {
    |a| == |b| && i <= |a| && forall j :: 0 <= j < |a| && !(i <= j < i + 4) ==> a[j] == b[j]
  }

  /** Four consecutive bytes are 32 consecutive bits. */
  lemma WindowIsBurst(a: Bytes, b: Bytes, i: nat)
    requires DifferWithin(a, b, i)
    ensures DifferWithinBits(BitStream(a), BitStream(b), 8 * i)
  {
    forall j | 0 <= j < 8 * |a| && !(8 * i <= j < 8 * i + 32) ensures BitStream(a)[j] == BitStream(b)[j] {
      StreamAt(a, j / 8, j % 8);
      StreamAt(b, j / 8, j % 8);
    }
  }

  /** Any corruption within a window of four consecutive bytes changes the checksum. */
  lemma WindowDetected(a: Bytes, b: Bytes, i: nat)
    requires DifferWithin(a, b, i)
    ensures Checksum(a) == Checksum(b) <==> a == b
  {
    WindowIsBurst(a, b, i);
    BurstDetected(a, b, 8 * i);
  }
}

/** Iterated and serial application of a function, in general. */
module Iteration {
  function Iter<R>(f: R -> R, x: R, n: nat): R
    decreases n, x
  {
    if n == 0 then x else Iter(f, f(x), n - 1)
  }

  lemma IterEight<R>(f: R -> R, x: R)
    ensures Iter(f, x, 8) == f(f(f(f(f(f(f(f(x))))))))
  {
    IterTwo(f, x, 8);
    IterTwo(f, f(f(x)), 6);
    IterTwo(f, f(f(f(f(x)))), 4);
    IterTwo(f, f(f(f(f(f(f(x)))))), 2);
  }

  lemma IterTwo<R>(f: R -> R, x: R, n: nat)
    requires n >= 2
    ensures Iter(f, x, n) == Iter(f, f(f(x)), n - 2)
  {
  }

  lemma {:induction false} IterAdd<R>(f: R -> R, x: R, m: nat, n: nat)
    ensures Iter(f, x, m + n) == Iter(f, Iter(f, x, m), n)
    decreases m
  {
    if m > 0 { IterAdd(f, f(x), m - 1, n); }
  }

  /** The first n bits of w, lowest first. */
  function Bits<R>(odd: R -> bool, half: R -> R, w: R, n: nat): (r: seq<bool>)
    ensures |r| == n
    decreases n, w
  {
    if n == 0 then [] else [odd(w)] + Bits(odd, half, half(w), n - 1)
  }

  lemma {:induction false} BitsEach<R>(odd: R -> bool, half: R -> R, w: R, n: nat, i: nat)
    requires i < n
    ensures Bits(odd, half, w, n)[i] == odd(Iter(half, w, i))
    decreases n
  {
    if i > 0 { BitsEach(odd, half, half(w), n - 1, i - 1); }
  }

  lemma {:induction false} BitsJoin<R>(odd: R -> bool, half: R -> R, w: R, m: nat, n: nat)
    ensures Bits(odd, half, w, m + n) == Bits(odd, half, w, m) + Bits(odd, half, Iter(half, w, m), n)
    decreases m
  {
    if m > 0 { BitsJoin(odd, half, half(w), m - 1, n); }
  }

  /** op adds bits one by one, without carry. */
  ghost predicate Bitwise<R>(odd: R -> bool, half: R -> R, op: (R, R) -> R, a: R, b: R) {
    half(op(a, b)) == op(half(a), half(b)) && odd(op(a, b)) == (odd(a) != odd(b))
  }

  lemma {:induction false} BitsSum<R(!new)>(odd: R -> bool, half: R -> R, op: (R, R) -> R, x: R, y: R, n: nat, i: nat)
    requires i < n
    requires forall a, b :: Bitwise(odd, half, op, a, b)
    ensures Bits(odd, half, op(x, y), n)[i] == (Bits(odd, half, x, n)[i] != Bits(odd, half, y, n)[i])
    decreases n
  {
    assert Bitwise(odd, half, op, x, y);
    if i > 0 { BitsSum(odd, half, op, half(x), half(y), n - 1, i - 1); }
  }

  lemma BitsTwo<R>(odd: R -> bool, half: R -> R, w: R, n: nat)
    requires n >= 2
    ensures Bits(odd, half, w, n) == [odd(w), odd(half(w))] + Bits(odd, half, half(half(w)), n - 2)
  {
    assert Bits(odd, half, w, n) == [odd(w)] + Bits(odd, half, half(w), n - 1);
  }

  lemma BitsEight<R>(odd: R -> bool, half: R -> R, w: R)
    ensures Bits(odd, half, w, 8) ==
            [odd(w), odd(half(w)), odd(half(half(w))), odd(half(half(half(w)))),
             odd(half(half(half(half(w))))), odd(half(half(half(half(half(w)))))),
             odd(half(half(half(half(half(half(w))))))), odd(half(half(half(half(half(half(half(w))))))))]
  {
    BitsTwo(odd, half, w, 8);
    BitsTwo(odd, half, half(half(w)), 6);
    BitsTwo(odd, half, half(half(half(half(w)))), 4);
    BitsTwo(odd, half, half(half(half(half(half(half(w)))))), 2);
  }

  function Serial<R, B>(f: (R, B) -> R, c: R, bits: seq<B>): R
    decreases |bits|
  {
    if bits == [] then c else Serial(f, f(c, bits[0]), bits[1..])
  }

  lemma {:induction false} IterLinear<R(!new)>(f: R -> R, op: (R, R) -> R, x: R, y: R, n: nat)
    requires forall a, b :: f(op(a, b)) == op(f(a), f(b))
    ensures Iter(f, op(x, y), n) == op(Iter(f, x, n), Iter(f, y, n))
    decreases n
  {
    if n > 0 { IterLinear(f, op, f(x), f(y), n - 1); }
  }

  lemma {:induction false} IterOneToOne<R(!new)>(f: R -> R, x: R, y: R, n: nat)
    requires forall a, b :: f(a) == f(b) ==> a == b
    requires Iter(f, x, n) == Iter(f, y, n)
    ensures x == y
    decreases n
  {
    if n > 0 { IterOneToOne(f, f(x), f(y), n - 1); }
  }

  lemma {:induction false} SerialSplit<R, B>(f: (R, B) -> R, c: R, s: seq<B>, t: seq<B>)
    ensures Serial(f, c, s + t) == Serial(f, Serial(f, c, s), t)
    decreases |s|
  {
    if s == [] {
      assert s + t == t;
    } else {
      assert (s + t)[1..] == s[1..] + t;
      SerialSplit(f, f(c, s[0]), s[1..], t);
    }
  }

  /** Different states stay different under the same input. */
  lemma {:induction false} SerialOneToOne<R(!new), B(!new)>(f: (R, B) -> R, c: R, d: R, s: seq<B>)
    requires forall x, y, b :: f(x, b) == f(y, b) ==> x == y
    requires Serial(f, c, s) == Serial(f, d, s)
    ensures c == d
    decreases |s|
  {
    if s != [] { SerialOneToOne(f, f(c, s[0]), f(d, s[0]), s[1..]); }
  }

  function Fold<R, B>(join: (B, R) -> R, zero: R, s: seq<B>): R
    decreases |s|
  {
    if s == [] then zero else join(s[0], Fold(join, zero, s[1..]))
  }

  function Down<R>(half: R -> R, top: R, j: nat): R
    decreases j, top
  {
    if j == 0 then top else half(Down(half, top, j - 1))
  }

  lemma DownTwo<R>(half: R -> R, top: R, j: nat)
    ensures Down(half, top, j + 2) == half(half(Down(half, top, j)))
  {
    assert Down(half, top, j + 1) == half(Down(half, top, j));
  }

  lemma DownEight<R>(half: R -> R, top: R, j: nat)
    ensures Down(half, top, j + 8) == half(half(half(half(half(half(half(half(Down(half, top, j)))))))))
  {
    DownTwo(half, top, j);
    DownTwo(half, top, j + 2);
    DownTwo(half, top, j + 4);
    DownTwo(half, top, j + 6);
  }

  /** What n joins build up, n halvings of the top allow for. */
  lemma {:induction false} FoldBounded<R(!new), B(!new)>(join: (B, R) -> R, half: R -> R, less: (R, R) -> bool,
                                                         top: R, zero: R, s: seq<B>, j: nat)
    requires forall p, b, cap :: less(p, half(cap)) ==> less(join(b, p), cap)
    requires less(zero, Down(half, top, |s| + j))
    ensures less(Fold(join, zero, s), Down(half, top, j))
    decreases |s|
  {
    if s != [] { FoldBounded(join, half, less, top, zero, s[1..], j + 1); }
  }

  /** One step of absorbing an input u while the rest of it, shifted up, waits. */
  lemma Absorbed<R>(f: R -> R, op: (R, R) -> R, c: R, u: R, rest: R, shifted: R, n: nat)
    requires n > 0 && op(op(c, u), shifted) == op(c, op(u, shifted))
    requires f(op(op(c, u), shifted)) == op(f(op(c, u)), rest)
    ensures Iter(f, op(c, op(u, shifted)), n) == Iter(f, op(f(op(c, u)), rest), n - 1)
  {
  }
}

/** Bytes as numbers and as bit vectors, one to one. */
module ByteWords {
  lemma {:induction false} ByteBack(b: int)
    requires 0 <= b < 256
    ensures (b as bv8) as int == b
  {
    if b > 0 {
      ByteBack(b - 1);
      OneMore((b - 1) as bv8);
    }
  }

  lemma OneMore(x: bv8)
    requires x as int < 255
    ensures (x as int + 1) as bv8 as int == x as int + 1
  {
    assert (x + 1) as int == x as int + 1;
    IntBack(x + 1);
  }

  lemma IntBack(x: bv8)
    ensures 0 <= x as int < 256 && (x as int) as bv8 == x
  {
  }

  lemma WordBack(x: bv32)
    ensures 0 <= x as int < 0x1_0000_0000 && (x as int) as bv32 == x
  {
  }
}
