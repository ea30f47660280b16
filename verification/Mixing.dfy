/** The 64-bit mixing arithmetic of digest.hpp: every step can be undone. */
module Mixing {
  // ------------------------------------------------------------- splitmix64 finalizer

  function Offset(x: bv64): bv64 {
    x + 0x9e3779b97f4a7c15
  }

  function Fold30(x: bv64): bv64 {
    x ^ (x >> 30)
  }

  function Fold27(x: bv64): bv64 {
    x ^ (x >> 27)
  }

  function Fold31(x: bv64): bv64 {
    x ^ (x >> 31)
  }

  function ScaleA(x: bv64): bv64 {
    x * 0xbf58476d1ce4e5b9
  }

  function ScaleB(x: bv64): bv64 {
    x * 0x94d049bb133111eb
  }

  /** mix64. */
  function Mix64(x: bv64): bv64 {
    Fold31(ScaleB(Fold27(ScaleA(Fold30(Offset(x))))))
  }

  function Unoffset(z: bv64): bv64 {
    z - 0x9e3779b97f4a7c15
  }

  function Unfold30(z: bv64): bv64 {
    z ^ (z >> 30) ^ (z >> 60)
  }

  function Unfold27(z: bv64): bv64 {
    z ^ (z >> 27) ^ (z >> 54)
  }

  function Unfold31(z: bv64): bv64 {
    z ^ (z >> 31) ^ (z >> 62)
  }

  function UnscaleA(z: bv64): bv64 {
    z * 0x96de1b173f119089
  }

  function UnscaleB(z: bv64): bv64 {
    z * 0x319642b2d24d8ec3
  }

  function Unmix(z: bv64): bv64 {
    Unoffset(Unfold30(UnscaleA(Unfold27(UnscaleB(Unfold31(z))))))
  }

  lemma OffsetUndone(x: bv64)
    ensures Unoffset(Offset(x)) == x && Offset(Unoffset(x)) == x
  {
  }

  lemma Fold30Raw(x: bv64) returns (z: bv64)
    ensures z == Fold30(x) && Unfold30(z) == x
  {
    z := x ^ (x >> 30);
  }

  lemma Unfold30Raw(z: bv64) returns (x: bv64)
    ensures x == Unfold30(z) && Fold30(x) == z
  {
    x := z ^ (z >> 30) ^ (z >> 60);
  }

  lemma Fold30Undone(x: bv64)
    ensures Unfold30(Fold30(x)) == x && Fold30(Unfold30(x)) == x
  {
    var z := Fold30Raw(x);
    var y := Unfold30Raw(x);
  }

  lemma Fold27Raw(x: bv64) returns (z: bv64)
    ensures z == Fold27(x) && Unfold27(z) == x
  {
    z := x ^ (x >> 27);
  }

  lemma Unfold27Raw(z: bv64) returns (x: bv64)
    ensures x == Unfold27(z) && Fold27(x) == z
  {
    x := z ^ (z >> 27) ^ (z >> 54);
  }

  lemma Fold27Undone(x: bv64)
    ensures Unfold27(Fold27(x)) == x && Fold27(Unfold27(x)) == x
  {
    var z := Fold27Raw(x);
    var y := Unfold27Raw(x);
  }

  lemma Fold31Raw(x: bv64) returns (z: bv64)
    ensures z == Fold31(x) && Unfold31(z) == x
  {
    z := x ^ (x >> 31);
  }

  lemma Unfold31Raw(z: bv64) returns (x: bv64)
    ensures x == Unfold31(z) && Fold31(x) == z
  {
    x := z ^ (z >> 31) ^ (z >> 62);
  }

  lemma Fold31Undone(x: bv64)
    ensures Unfold31(Fold31(x)) == x && Fold31(Unfold31(x)) == x
  {
    var z := Fold31Raw(x);
    var y := Unfold31Raw(x);
  }

  lemma ScaleARaw(x: bv64) returns (z: bv64)
    ensures z == ScaleA(x) && UnscaleA(z) == x
  {
    z := x * 0xbf58476d1ce4e5b9;
  }

  lemma UnscaleARaw(z: bv64) returns (x: bv64)
    ensures x == UnscaleA(z) && ScaleA(x) == z
  {
    x := z * 0x96de1b173f119089;
  }

  lemma ScaleAUndone(x: bv64)
    ensures UnscaleA(ScaleA(x)) == x && ScaleA(UnscaleA(x)) == x
  {
    var z := ScaleARaw(x);
    var y := UnscaleARaw(x);
  }

  lemma ScaleBRaw(x: bv64) returns (z: bv64)
    ensures z == ScaleB(x) && UnscaleB(z) == x
  {
    z := x * 0x94d049bb133111eb;
  }

  lemma UnscaleBRaw(z: bv64) returns (x: bv64)
    ensures x == UnscaleB(z) && ScaleB(x) == z
  {
    x := z * 0x319642b2d24d8ec3;
  }

  lemma ScaleBUndone(x: bv64)
    ensures UnscaleB(ScaleB(x)) == x && ScaleB(UnscaleB(x)) == x
  {
    var z := ScaleBRaw(x);
    var y := UnscaleBRaw(x);
  }

  /** mix64 is a bijection. */
  lemma Mix64Bijective(x: bv64)
    ensures Unmix(Mix64(x)) == x && Mix64(Unmix(x)) == x
  {
    var a := Offset(x);
    var b := Fold30(a);
    var c := ScaleA(b);
    var d := Fold27(c);
    var e := ScaleB(d);
    OffsetUndone(x);
    Fold30Undone(a);
    ScaleAUndone(b);
    Fold27Undone(c);
    ScaleBUndone(d);
    Fold31Undone(e);
    var e1 := Unfold31(x);
    var d1 := UnscaleB(e1);
    var c1 := Unfold27(d1);
    var b1 := UnscaleA(c1);
    var a1 := Unfold30(b1);
    Fold31Undone(x);
    ScaleBUndone(e1);
    Fold27Undone(d1);
    ScaleAUndone(c1);
    Fold30Undone(b1);
    OffsetUndone(a1);
  }

  /** The first output of the splitmix64 generator started at zero. */
  lemma MixOfZero()
    ensures Mix64(0) == 0xe220a8397b1dcdaf
  {
  }

  // ----------------------------------------------------------- absorbing one value

  function Xor(x: bv64, y: bv64): bv64 {
    x ^ y
  }

  lemma XorDistinct(x: bv64, y: bv64, z: bv64)
    ensures Xor(x, z) == Xor(y, z) ==> x == y
    ensures Xor(z, x) == Xor(z, y) ==> x == y
  {
  }

  function ScaleGold(x: bv64): bv64 {
    x * 0x9e3779b97f4a7c15
  }

  function UnscaleGold(z: bv64): bv64 {
    z * 0xf1de83e19937733d
  }

  lemma ScaleGoldRaw(x: bv64) returns (z: bv64)
    ensures z == ScaleGold(x) && UnscaleGold(z) == x
  {
    z := x * 0x9e3779b97f4a7c15;
  }

  lemma ScaleGoldUndone(x: bv64)
    ensures UnscaleGold(ScaleGold(x)) == x
  {
    var z := ScaleGoldRaw(x);
  }

  function ScalePrime(x: bv64): bv64 {
    x * 0x100000001b3
  }

  function UnscalePrime(z: bv64): bv64 {
    z * 0xce965057aff6957b
  }

  lemma ScalePrimeRaw(x: bv64) returns (z: bv64)
    ensures z == ScalePrime(x) && UnscalePrime(z) == x
  {
    z := x * 0x100000001b3;
  }

  lemma ScalePrimeUndone(x: bv64)
    ensures UnscalePrime(ScalePrime(x)) == x
  {
    var z := ScalePrimeRaw(x);
  }

  /** The two multiplications, undone. */
  ghost predicate Undoes(scale: bv64 -> bv64, back: bv64 -> bv64) {
    forall x {:trigger scale(x)} :: back(scale(x)) == x
  }

  /** What mix and FNV-1a do with each value: exclusive-or it in, then multiply. */
  function Absorb(scale: bv64 -> bv64, h: bv64, v: bv64): bv64 {
    scale(Xor(h, v))
  }

  function AbsorbAll(scale: bv64 -> bv64, h: bv64, vs: seq<bv64>): bv64
    decreases |vs|
  {
    if vs == [] then h else AbsorbAll(scale, Absorb(scale, h, vs[0]), vs[1..])
  }

  lemma {:induction false} AbsorbSplit(scale: bv64 -> bv64, h: bv64, a: seq<bv64>, b: seq<bv64>)
    ensures AbsorbAll(scale, h, a + b) == AbsorbAll(scale, AbsorbAll(scale, h, a), b)
    decreases |a|
  {
    if a == [] {
      assert a + b == b;
    } else {
      assert (a + b)[1..] == a[1..] + b;
      AbsorbSplit(scale, Absorb(scale, h, a[0]), a[1..], b);
    }
  }

  /** Different states, given the same values, stay different. */
  lemma {:induction false} AbsorbDistinct(scale: bv64 -> bv64, back: bv64 -> bv64, h: bv64, g: bv64, vs: seq<bv64>)
    requires Undoes(scale, back) && AbsorbAll(scale, h, vs) == AbsorbAll(scale, g, vs)
    ensures h == g
    decreases |vs|
  {
    if vs != [] {
      var v := vs[0];
      AbsorbDistinct(scale, back, Absorb(scale, h, v), Absorb(scale, g, v), vs[1..]);
      assert back(scale(Xor(h, v))) == back(scale(Xor(g, v)));
      XorDistinct(h, g, v);
    }
  }

  /** Sequences that differ in exactly one place lead to different states. */
  lemma OneDifference(scale: bv64 -> bv64, back: bv64 -> bv64, h: bv64, a: seq<bv64>, b: seq<bv64>, k: nat)
    requires Undoes(scale, back) && |a| == |b| && k < |a| && a[..k] == b[..k] && a[k + 1..] == b[k + 1..]
    ensures AbsorbAll(scale, h, a) == AbsorbAll(scale, h, b) <==> a[k] == b[k]
  {
    var p, q := a[..k], a[k + 1..];
    assert a == p + ([a[k]] + q) && b == p + ([b[k]] + q);
    AbsorbSplit(scale, h, p, [a[k]] + q);
    AbsorbSplit(scale, h, p, [b[k]] + q);
    var m := AbsorbAll(scale, h, p);
    assert ([a[k]] + q)[1..] == q && ([b[k]] + q)[1..] == q;
    var x, y := Absorb(scale, m, a[k]), Absorb(scale, m, b[k]);
    if AbsorbAll(scale, x, q) == AbsorbAll(scale, y, q) {
      AbsorbDistinct(scale, back, x, y, q);
      assert back(scale(Xor(m, a[k]))) == back(scale(Xor(m, b[k])));
      XorDistinct(a[k], b[k], m);
    }
  }

  lemma GoldUndone()
    ensures Undoes(ScaleGold, UnscaleGold)
  {
    forall x ensures UnscaleGold(ScaleGold(x)) == x { ScaleGoldUndone(x); }
  }

  lemma PrimeUndone()
    ensures Undoes(ScalePrime, UnscalePrime)
  {
    forall x ensures UnscalePrime(ScalePrime(x)) == x { ScalePrimeUndone(x); }
  }

  // --------------------------------------------------------------- words from bytes

  function Pack(a: bv64, b: bv64, c: bv64, d: bv64, e: bv64, f: bv64, g: bv64, h: bv64): bv64 {
    a | (b << 8) | (c << 16) | (d << 24) | (e << 32) | (f << 40) | (g << 48) | (h << 56)
  }

  lemma Unpacked(a: bv64, b: bv64, c: bv64, d: bv64, e: bv64, f: bv64, g: bv64, h: bv64, p: bv64)
    requires a < 0x100 && b < 0x100 && c < 0x100 && d < 0x100 && e < 0x100 && f < 0x100 && g < 0x100 && h < 0x100
    requires p == Pack(a, b, c, d, e, f, g, h)
    ensures p & 0xFF == a && (p >> 8) & 0xFF == b && (p >> 16) & 0xFF == c && (p >> 24) & 0xFF == d
    ensures (p >> 32) & 0xFF == e && (p >> 40) & 0xFF == f && (p >> 48) & 0xFF == g && (p >> 56) & 0xFF == h
  {
  }

  lemma Wide(x: bv8)
    ensures (x as bv64) < 0x100 && (x as bv64) as bv8 == x
  {
  }

  lemma NumberBack(x: bv64)
    ensures 0 <= x as int < 0x1_0000_0000_0000_0000 && (x as int) as bv64 == x
  {
  }

  function Number(x: bv64): (n: int)
    ensures 0 <= n < 0x1_0000_0000_0000_0000 && n as bv64 == x
  {
    NumberBack(x);
    x as int
  }
}
