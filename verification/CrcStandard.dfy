/** That the checksum of Crc is the CRC-32 of IEEE 802.3: the remainder of the message modulo
    the standard's polynomial, with its initial and final complement and its bit order. */
module CrcStandard {
  import opened Ids
  import opened Records
  import opened Iteration
  import opened Polynomials
  import opened Crc

  /** x^32 + x^26 + x^23 + x^22 + x^16 + x^12 + x^11 + x^10 + x^8 + x^7 + x^5 + x^4 + x^2 + x + 1. */
  function Generator(): Poly {
    seq(33, i => i in {32, 26, 23, 22, 16, 12, 11, 10, 8, 7, 5, 4, 2, 1, 0})
  }

  /** The register as a polynomial: its lowest bit is the coefficient of x^31. */
  function RegPoly(c: bv32): Poly {
    seq(32, j requires 0 <= j < 32 => BitsOf(c, 32)[31 - j])
  }

  /** A message of n bits as a polynomial: the first bit is the coefficient of x^(n-1). */
  function Message(bits: seq<bool>): Poly {
    seq(|bits|, i requires 0 <= i < |bits| => bits[|bits| - 1 - i])
  }

  /** The term x^n, or nothing. */
  function Term(b: bool, n: nat): Poly {
    if b then Raise([true], n) else []
  }

  // ------------------------------------------------------------------ bits of a word

  lemma BitsAt(w: bv32, n: nat, i: nat)
    requires i < n
    ensures BitsOf(w, n)[i] == Odd(Iter(Half, w, i))
  {
    BitsEach(Odd, Half, w, n, i);
  }

  lemma BitsOfXor(x: bv32, y: bv32, n: nat, i: nat)
    requires i < n
    ensures BitsOf(Xor(x, y), n)[i] == (BitsOf(x, n)[i] != BitsOf(y, n)[i])
  {
    forall a, b ensures Bitwise(Odd, Half, Xor, a, b) { XorBitwise(a, b); }
    BitsSum(Odd, Half, Xor, x, y, n, i);
  }

  lemma XorHalf(x: bv32, y: bv32)
    ensures Half(Xor(x, y)) == Xor(Half(x), Half(y))
  {
  }

  lemma XorOdd(x: bv32, y: bv32)
    ensures Odd(Xor(x, y)) == (Odd(x) != Odd(y))
  {
  }

  lemma XorBitwise(x: bv32, y: bv32)
    ensures Bitwise(Odd, Half, Xor, x, y)
  {
    XorHalf(x, y);
    XorOdd(x, y);
  }

  lemma FourUppers(w: bv32)
    ensures Upper(Upper(Upper(Upper(w)))) == 0
  {
  }

  /** Thirty-two halvings leave nothing. */
  lemma NothingLeft(w: bv32)
    ensures Iter(Half, w, 32) == 0
  {
    IterAdd(Half, w, 8, 24);
    IterAdd(Half, Upper(w), 8, 16);
    IterAdd(Half, Upper(Upper(w)), 8, 8);
    HalvedEight(w);
    HalvedEight(Upper(w));
    HalvedEight(Upper(Upper(w)));
    HalvedEight(Upper(Upper(Upper(w))));
    FourUppers(w);
  }

  /** Halving moves every bit down one place and clears the top. */
  lemma BitsOfHalf(w: bv32, i: nat)
    requires i < 32
    ensures BitsOf(Half(w), 32)[i] == (i < 31 && BitsOf(w, 32)[i + 1])
  {
    BitsAt(Half(w), 32, i);
    assert Iter(Half, w, i + 1) == Iter(Half, Half(w), i);
    if i < 31 {
      BitsAt(w, 32, i + 1);
    } else {
      NothingLeft(w);
      ZeroEven();
    }
  }

  lemma ZeroEven()
    ensures !Odd(0)
  {
  }

  lemma LowestBit(w: bv32)
    ensures BitsOf(w, 32)[0] == Odd(w)
  {
  }

  lemma {:induction false} NoBits(n: nat)
    ensures BitsOf(0, n) == seq(n, i => false)
    decreases n
  {
    if n > 0 {
      ZeroHalf();
      NoBits(n - 1);
    }
  }

  lemma ZeroHalf()
    ensures Half(0) == 0 && !Odd(0)
  {
  }

  lemma BitsOfUnit(b: bool, i: nat)
    requires i < 32
    ensures BitsOf(Unit(b), 32)[i] == (b && i == 0)
  {
    UnitHalf(b);
    NoBits(31);
  }

  lemma UnitHalf(b: bool)
    ensures Half(Unit(b)) == 0 && Odd(Unit(b)) == b
  {
  }

  // ------------------------------------------------------------- the two constants

  lemma ThenUpper(w: bv32, n: nat)
    ensures BitsOf(w, 8 + n) == BitsOf(w, 8) + BitsOf(Upper(w), n)
  {
    BitsJoin(Odd, Half, w, 8, n);
    HalvedEight(w);
  }

  lemma InFourBytes(w: bv32)
    ensures BitsOf(w, 32) == BitsOf(w, 8) + (BitsOf(Upper(w), 8) +
                             (BitsOf(Upper(Upper(w)), 8) + BitsOf(Upper(Upper(Upper(w))), 8)))
  {
    ThenUpper(w, 24);
    ThenUpper(Upper(w), 16);
    ThenUpper(Upper(Upper(w)), 8);
  }

  /** Eight bits written out, lowest first. */
  ghost predicate Spells(w: bv32, b: seq<bool>) {
    && |b| == 8 && Odd(w) == b[0] && Odd(Half(w)) == b[1] && Odd(Half(Half(w))) == b[2]
    && Odd(Half(Half(Half(w)))) == b[3] && Odd(Half(Half(Half(Half(w))))) == b[4]
    && Odd(Half(Half(Half(Half(Half(w)))))) == b[5] && Odd(Half(Half(Half(Half(Half(Half(w))))))) == b[6]
    && Odd(Half(Half(Half(Half(Half(Half(Half(w)))))))) == b[7]
  }

  lemma Spelled(w: bv32, b: seq<bool>)
    requires Spells(w, b)
    ensures BitsOf(w, 8) == b
  {
    BitsEight(Odd, Half, w);
  }

  lemma GeneratorBytes()
    ensures Upper(0xEDB88320) == 0xEDB883 && Upper(0xEDB883) == 0xEDB8 && Upper(0xEDB8) == 0xED
    ensures Spells(0xEDB88320, [false, false, false, false, false, true, false, false])
    ensures Spells(0xEDB883, [true, true, false, false, false, false, false, true])
    ensures Spells(0xEDB8, [false, false, false, true, true, true, false, true])
    ensures Spells(0xED, [true, false, true, true, false, true, true, true])
  {
  }

  /** The constant of the division step is the generator, reflected, without its top term. */
  lemma GeneratorIs()
    ensures forall j :: 0 <= j < 32 ==> RegPoly(0xEDB88320)[j] == Generator()[j]
    ensures Generator()[32] && |Generator()| == 33
  {
    var f, t := false, true;
    var a, b := [f, f, f, f, f, t, f, f], [t, t, f, f, f, f, f, t];
    var c, d := [f, f, f, t, t, t, f, t], [t, f, t, t, f, t, t, t];
    GeneratorBytes();
    InFourBytes(0xEDB88320);
    Spelled(0xEDB88320, a);
    Spelled(0xEDB883, b);
    Spelled(0xEDB8, c);
    Spelled(0xED, d);
    FourJoined(a, b, c, d);
    GeneratorBits(BitsOf(0xEDB88320, 32));
  }

  lemma FourJoined(a: seq<bool>, b: seq<bool>, c: seq<bool>, d: seq<bool>)
    requires |a| == |b| == |c| == |d| == 8
    ensures a + (b + (c + d)) == [a[0], a[1], a[2], a[3], a[4], a[5], a[6], a[7],
                                  b[0], b[1], b[2], b[3], b[4], b[5], b[6], b[7],
                                  c[0], c[1], c[2], c[3], c[4], c[5], c[6], c[7],
                                  d[0], d[1], d[2], d[3], d[4], d[5], d[6], d[7]]
  {
  }

  lemma GeneratorBits(bits: seq<bool>)
    requires var f, t := false, true;
             bits == [f, f, f, f, f, t, f, f, t, t, f, f, f, f, f, t,
                      f, f, f, t, t, t, f, t, t, f, t, t, f, t, t, t]
    ensures forall j :: 0 <= j < 32 ==> bits[31 - j] == Generator()[j]
  {
  }

  lemma OnesBytes()
    ensures Upper(0xFFFFFFFF) == 0xFFFFFF && Upper(0xFFFFFF) == 0xFFFF && Upper(0xFFFF) == 0xFF
    ensures var b := [true, true, true, true, true, true, true, true];
            Spells(0xFFFFFFFF, b) && Spells(0xFFFFFF, b) && Spells(0xFFFF, b) && Spells(0xFF, b)
  {
  }

  lemma OnesIs()
    ensures RegPoly(0xFFFFFFFF) == seq(32, i => true)
  {
    var b := [true, true, true, true, true, true, true, true];
    OnesBytes();
    InFourBytes(0xFFFFFFFF);
    Spelled(0xFFFFFFFF, b);
    Spelled(0xFFFFFF, b);
    Spelled(0xFFFF, b);
    Spelled(0xFF, b);
  }

  // ------------------------------------------------------------- one bit of division

  lemma RegAt(c: bv32, j: nat)
    ensures At(RegPoly(c), j) == (j < 32 && BitsOf(c, 32)[31 - j])
  {
  }

  lemma HalfAt(z: bv32, j: nat)
    ensures At(TimesX(RegPoly(z)), j) == if j == 32 then Odd(z) else At(RegPoly(Half(z)), j)
  {
    RegAt(Half(z), j);
    if j > 0 {
      assert At(TimesX(RegPoly(z)), (j - 1) + 1) == At(RegPoly(z), j - 1);
      RegAt(z, j - 1);
    }
    if j < 32 { BitsOfHalf(z, 31 - j); }
    LowestBit(z);
  }

  lemma XorAt(x: bv32, y: bv32, j: nat)
    ensures At(RegPoly(Xor(x, y)), j) == (At(RegPoly(x), j) != At(RegPoly(y), j))
  {
    if j < 32 { BitsOfXor(x, y, 32, 31 - j); }
  }

  lemma BitCases(z: bv32)
    ensures Bit(z) == if Odd(z) then Xor(Half(z), 0xEDB88320) else Half(z)
  {
  }

  /** A division step multiplies by x, modulo the generator. */
  lemma BitIsTimesX(z: bv32)
    ensures Congruent(RegPoly(Bit(z)), TimesX(RegPoly(z)), Generator())
  {
    BitCases(z);
    if Odd(z) {
      forall j: nat ensures At(Plus(RegPoly(Bit(z)), TimesX(RegPoly(z))), j) == At(Times([true], Generator()), j) {
        HalfAt(z, j);
        XorAt(Half(z), 0xEDB88320, j);
        GeneratorIs();
        OnceAt(Generator(), j);
      }
      assert Same(Plus(RegPoly(Bit(z)), TimesX(RegPoly(z))), Times([true], Generator()));
    } else {
      forall j: nat ensures At(RegPoly(Half(z)), j) == At(TimesX(RegPoly(z)), j) { HalfAt(z, j); }
      CongruentSame(RegPoly(Half(z)), TimesX(RegPoly(z)), Generator());
    }
  }

  lemma OnceAt(g: Poly, j: nat)
    ensures At(Times([true], g), j) == At(g, j)
  {
    TimesAt([true], g, j);
    assert Tail([true]) == [];
  }

  lemma UnitAt(b: bool, j: nat)
    ensures At(RegPoly(Unit(b)), j) == At(Term(b, 31), j)
  {
    if j < 32 { BitsOfUnit(b, 31 - j); }
  }

  /** Feeding a bit multiplies by x and adds the bit times x^32. */
  lemma FeedPoly(c: bv32, b: bool)
    ensures Congruent(RegPoly(Feed(c, b)), Plus(TimesX(RegPoly(c)), Term(b, 32)), Generator())
  {
    var z := Xor(c, Unit(b));
    BitIsTimesX(z);
    var p, q := TimesX(RegPoly(z)), Plus(TimesX(RegPoly(c)), Term(b, 32));
    forall j: nat ensures At(p, j) == At(q, j) {
      if j > 0 {
        assert At(p, (j - 1) + 1) == At(RegPoly(z), j - 1);
        assert At(TimesX(RegPoly(c)), (j - 1) + 1) == At(RegPoly(c), j - 1);
        XorAt(c, Unit(b), j - 1);
        UnitAt(b, j - 1);
      }
    }
    CongruentSame(p, q, Generator());
    CongruentTrans(RegPoly(Feed(c, b)), p, q, Generator());
  }

  // --------------------------------------------------------------- the whole message

  /** What the register must be congruent to: start, message and padding. */
  function Dividend(c: bv32, bits: seq<bool>): Poly {
    Plus(Raise(RegPoly(c), |bits|), Raise(Message(bits), 32))
  }

  lemma DividendSnoc(c: bv32, bits: seq<bool>, b: bool)
    ensures Same(Plus(TimesX(Dividend(c, bits)), Term(b, 32)), Dividend(c, bits + [b]))
  {
    forall j: nat ensures At(Plus(TimesX(Dividend(c, bits)), Term(b, 32)), j) == At(Dividend(c, bits + [b]), j) {
      DividendAt(RegPoly(c), bits, b, j);
    }
  }

  lemma DividendAt(p: Poly, bits: seq<bool>, b: bool, j: nat)
    ensures At(Plus(TimesX(Plus(Raise(p, |bits|), Raise(Message(bits), 32))), Term(b, 32)), j) ==
            At(Plus(Raise(p, |bits| + 1), Raise(Message(bits + [b]), 32)), j)
  {
    var d := Plus(Raise(p, |bits|), Raise(Message(bits), 32));
    MessageSnoc(bits, b, j);
    if j > 0 { assert At(TimesX(d), (j - 1) + 1) == At(d, j - 1); }
  }

  lemma MessageSnoc(bits: seq<bool>, b: bool, j: nat)
    ensures At(Raise(Message(bits + [b]), 32), j) ==
            ((j > 0 && At(Raise(Message(bits), 32), j - 1)) != At(Term(b, 32), j))
  {
    if j >= 32 {
      var m := Message(bits + [b]);
      if j == 32 {
        assert At(m, 0) == b;
      } else {
        assert At(m, j - 32) == At(Message(bits), j - 33);
      }
    }
  }

  /** Feeding a message leaves the register congruent to the dividend. */
  lemma {:induction false} SerialPoly(c: bv32, bits: seq<bool>)
    ensures Congruent(RegPoly(Serial(Feed, c, bits)), Dividend(c, bits), Generator())
    decreases |bits|
  {
    if bits == [] {
      CongruentSame(RegPoly(c), Dividend(c, bits), Generator());
    } else {
      var p, b := bits[..|bits| - 1], bits[|bits| - 1];
      assert bits == p + [b];
      SerialPoly(c, p);
      SerialSplit(Feed, c, p, [b]);
      FeedOne(Serial(Feed, c, p), b);
      SerialNext(c, p, b, Serial(Feed, c, p));
    }
  }

  lemma FeedOne(c: bv32, b: bool)
    ensures Serial(Feed, c, [b]) == Feed(c, b)
  {
    assert [b][1..] == [];
  }

  lemma SerialNext(c: bv32, p: seq<bool>, b: bool, r: bv32)
    requires Congruent(RegPoly(r), Dividend(c, p), Generator())
    ensures Congruent(RegPoly(Feed(r, b)), Dividend(c, p + [b]), Generator())
  {
    var g, t := Generator(), Term(b, 32);
    var x, y := TimesX(RegPoly(r)), TimesX(Dividend(c, p));
    CongruentTimesX(RegPoly(r), Dividend(c, p), g);
    CongruentSum(x, y, t, g);
    FeedPoly(r, b);
    CongruentTrans(RegPoly(Feed(r, b)), Plus(x, t), Plus(y, t), g);
    DividendSnoc(c, p, b);
    CongruentSame(Plus(y, t), Dividend(c, p + [b]), g);
    CongruentTrans(RegPoly(Feed(r, b)), Plus(y, t), Dividend(c, p + [b]), g);
  }

  lemma {:induction false} BitsDetermine(a: bv32, b: bv32)
    requires BitsOf(a, 32) == BitsOf(b, 32)
    ensures a == b
  {
    NothingLeft(a);
    NothingLeft(b);
    PackBits(a, 32);
    PackBits(b, 32);
  }

  lemma RegDetermines(a: bv32, b: bv32)
    requires Same(RegPoly(a), RegPoly(b))
    ensures a == b
  {
    forall i | 0 <= i < 32 ensures BitsOf(a, 32)[i] == BitsOf(b, 32)[i] {
      RegAt(a, 31 - i);
      RegAt(b, 31 - i);
    }
    assert BitsOf(a, 32) == BitsOf(b, 32);
    BitsDetermine(a, b);
  }

  /** What the standard divides by the generator: thirty-two ones ahead of the message, which
      complement its first 32 bits, and thirty-two zeros behind it. */
  function StandardDividend(s: Bytes): Poly {
    Plus(Raise(seq(32, i => true), 8 * |s|), Raise(Message(BitStream(s)), 32))
  }

  /** The checksum is, complemented, the remainder of that division, and the only word that is. */
  lemma ChecksumIsRemainder(s: Bytes, c: bv32)
    ensures c == Checksum(s) <==> Congruent(RegPoly(Xor(c, 0xFFFFFFFF)), StandardDividend(s), Generator())
  {
    var r := Serial(Feed, 0xFFFFFFFF, BitStream(s));
    RunIsSerial(0xFFFFFFFF, s);
    SerialPoly(0xFFFFFFFF, BitStream(s));
    OnesIs();
    assert Dividend(0xFFFFFFFF, BitStream(s)) == StandardDividend(s);
    Complemented(r, Checksum(s));
    if Congruent(RegPoly(Xor(c, 0xFFFFFFFF)), StandardDividend(s), Generator()) {
      OnlyRemainder(Xor(c, 0xFFFFFFFF), r, StandardDividend(s));
      Complemented(c, Xor(c, 0xFFFFFFFF));
    }
  }

  lemma Complemented(r: bv32, c: bv32)
    requires c == Xor(r, 0xFFFFFFFF)
    ensures Xor(c, 0xFFFFFFFF) == r
  {
  }

  lemma OnlyRemainder(a: bv32, b: bv32, p: Poly)
    requires Congruent(RegPoly(a), p, Generator()) && Congruent(RegPoly(b), p, Generator())
    ensures a == b
  {
    GeneratorIs();
    RemainderUnique(p, RegPoly(a), RegPoly(b), Generator(), 32);
    RegDetermines(a, b);
  }

  // -------------------------------------------------------------- the check value

  /** The nine characters "123456789". */
  const DIGITS: Bytes := [0x31, 0x32, 0x33, 0x34, 0x35, 0x36, 0x37, 0x38, 0x39]

  lemma StepBy(c: bv32, w: bv32, d: bv32)
    requires Bit(Bit(Bit(Bit(Bit(Bit(Bit(Bit(Xor(c, w))))))))) == d
    ensures Step(c, w) == d
  {
    IterEight(Bit, Xor(c, w));
  }

  lemma OctetOf(b: u8, x: bv8, w: bv32)
    requires b as bv8 == x && x as bv32 == w
    ensures Octet(b) == w
  {
  }

  lemma DigitOctets()
    ensures Octets(DIGITS) == [0x31, 0x32, 0x33, 0x34, 0x35, 0x36, 0x37, 0x38, 0x39]
  {
    OctetOf(0x31, 0x31, 0x31);
    OctetOf(0x32, 0x32, 0x32);
    OctetOf(0x33, 0x33, 0x33);
    OctetOf(0x34, 0x34, 0x34);
    OctetOf(0x35, 0x35, 0x35);
    OctetOf(0x36, 0x36, 0x36);
    OctetOf(0x37, 0x37, 0x37);
    OctetOf(0x38, 0x38, 0x38);
    OctetOf(0x39, 0x39, 0x39);
  }

  /** The check value every implementation of this CRC is compared by. */
  lemma CheckValue()
    ensures Checksum(DIGITS) == 0xCBF43926
  {
    var ws := Octets(DIGITS);
    DigitOctets();
    StepBy(0xFFFFFFFF, 0x31, 0x7C231048);
    StepBy(0x7C231048, 0x32, 0xB0ACBB32);
    StepBy(0xB0ACBB32, 0x33, 0x77B79C2D);
    StepBy(0x77B79C2D, 0x34, 0x641C1F5C);
    StepBy(0x641C1F5C, 0x35, 0x340AC5E3);
    StepBy(0x340AC5E3, 0x36, 0xF68D2C9E);
    StepBy(0xF68D2C9E, 0x37, 0xAFFC9660);
    StepBy(0xAFFC9660, 0x38, 0x651F2550);
    StepBy(0x651F2550, 0x39, 0x340BC6D9);
    forall i, c | 0 <= i < 9 ensures Run(c, ws[i..]) == Run(Step(c, ws[i]), ws[i + 1..]) { RunNext(c, ws, i); }
    assert ws[0..] == ws && ws[9..] == [];
  }
}
