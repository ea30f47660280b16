/** Scalar identifiers and generations (ids.hpp): 64-bit values whose text form
    is fixed-width hexadecimal and whose parser rejects overflow. */
module Ids {
  datatype Option<+T> = None | Some(value: T) {
    predicate IsFailure() {
      None?
    }
    function PropagateFailure<U>(): Option<U>
      requires None?
    {
      None
    }
    function Extract(): T
      requires Some?
    {
      value
    }
  }

  type u8 = x: int | 0 <= x < 0x100
  type u32 = x: int | 0 <= x < 0x1_0000_0000
  type u64 = x: int | 0 <= x < 0x1_0000_0000_0000_0000

  const TWO32: int := 0x1_0000_0000
  const TWO64: int := 0x1_0000_0000_0000_0000

  /** Every identity and generation domain is a 64-bit scalar; 0 is the null value. */
  type StateId = u64
  type ProvenanceId = u64
  type WorkerId = u64

  function Pow(b: nat, e: nat): nat {
    if e == 0 then 1 else b * Pow(b, e - 1)
  }

  // ---------------------------------------------------------------- text form

  const LOWER := "0123456789abcdef"
  const UPPER := "0123456789ABCDEF"

  /** The low n digits of v in base b, most significant first. */
  function Pad(v: nat, n: nat, b: nat): (s: string)
    requires 2 <= b <= 16
    ensures |s| == n
  {
    if n == 0 then "" else Pad(v / b, n - 1, b) + [LOWER[v % b]]
  }

  function HexPad(v: nat, n: nat): string {
    Pad(v, n, 16)
  }

  function ToString(v: u64): string {
    "0x" + HexPad(v, 16)
  }

  // ------------------------------------------------------------------ parsing

  predicate IsHex(s: string) {
    |s| > 2 && s[0] == '0' && (s[1] == 'x' || s[1] == 'X')
  }

  function Digits(s: string): string {
    if IsHex(s) then s[2..] else s
  }

  function Base(s: string): nat {
    if IsHex(s) then 16 else 10
  }

  function DigitOf(c: char, hex: bool): Option<nat> {
    if '0' <= c <= '9' then Some(c as int - '0' as int)
    else if hex && 'a' <= c <= 'f' then Some(c as int - 'a' as int + 10)
    else if hex && 'A' <= c <= 'F' then Some(c as int - 'A' as int + 10)
    else None
  }

  ghost predicate Legal(ds: string, hex: bool) {
    forall i :: 0 <= i < |ds| ==> DigitOf(ds[i], hex).Some?
  }

  /** The positional value: digit i counts base^(n-1-i). */
  ghost function Positional(ds: string, hex: bool): nat
    requires Legal(ds, hex)
  {
    if ds == "" then 0
    else DigitOf(ds[0], hex).value * Pow(if hex then 16 else 10, |ds| - 1) + Positional(ds[1..], hex)
  }

  ghost function Parsed(s: string): Option<u64> {
    if s != "" && Legal(Digits(s), IsHex(s)) && Positional(Digits(s), IsHex(s)) < TWO64
    then Some(Positional(Digits(s), IsHex(s)))
    else None
  }

  lemma Factor(d: nat, b: nat, p: nat, q: nat)
    ensures d * (b * p) + q * b == (d * p + q) * b
  {
    assert d * (b * p) == (d * p) * b;
  }

  /** Appending a digit multiplies by the base and adds: the loop's left fold. */
  lemma {:induction false} PositionalSnoc(ds: string, c: char, hex: bool)
    requires Legal(ds + [c], hex)
    ensures Legal(ds, hex) && DigitOf(c, hex).Some?
    ensures Positional(ds + [c], hex) == Positional(ds, hex) * (if hex then 16 else 10) + DigitOf(c, hex).value
  {
    var w := ds + [c];
    assert w[|ds|] == c;
    assert forall i :: 0 <= i < |ds| ==> w[i] == ds[i];
    if ds == "" {
      assert w[1..] == "";
      assert Pow(if hex then 16 else 10, 0) == 1;
    } else {
      assert w[1..] == ds[1..] + [c];
      PositionalSnoc(ds[1..], c, hex);
      Factor(DigitOf(ds[0], hex).value, if hex then 16 else 10, Pow(if hex then 16 else 10, |ds| - 1),
             Positional(ds[1..], hex));
    }
  }

  /** Once a prefix reaches 2^64 no longer digit string falls below it again. */
  lemma {:induction false} PositionalGrows(ds: string, k: nat, hex: bool)
    requires k <= |ds| && Legal(ds, hex)
    ensures Legal(ds[..k], hex) && Positional(ds[..k], hex) <= Positional(ds, hex)
    decreases |ds| - k
  {
    if k == |ds| {
      assert ds[..k] == ds;
    } else {
      PositionalGrows(ds, k + 1, hex);
      assert ds[..k + 1] == ds[..k] + [ds[k]];
      PositionalSnoc(ds[..k], ds[k], hex);
    }
  }

  /** try_parse: the division-based overflow test is neither early nor late. */
  method TryParse(s: string) returns (r: Option<u64>)
    ensures r == Parsed(s)
  {
    if s == "" { return None; }
    var hex := IsHex(s);
    var ds := Digits(s);
    var base := Base(s);
    var v: u64 := 0;
    for i := 0 to |ds|
      invariant Legal(ds[..i], hex) && Positional(ds[..i], hex) == v
    {
      var d := DigitOf(ds[i], hex);
      assert ds[..i + 1] == ds[..i] + [ds[i]];
      if d == None { return None; }
      PositionalSnoc(ds[..i], ds[i], hex);
      if v > (TWO64 - 1 - d.value) / base {
        assert Positional(ds[..i + 1], hex) >= TWO64;
        if Legal(ds, hex) { PositionalGrows(ds, i + 1, hex); }
        return None;
      }
      v := v * base + d.value;
    }
    assert ds[..|ds|] == ds;
    return Some(v);
  }

  /** A character counts as a digit exactly if it is listed, its value being its place; letters
      only in hexadecimal, in either case. */
  lemma DigitMeans(c: char, hex: bool, d: nat)
    ensures DigitOf(c, hex) == Some(d) <==> d < (if hex then 16 else 10) && (c == LOWER[d] || c == UPPER[d])
  {
    if d < 16 {
      LetterAt(d);
      if 10 <= d { LetterCode(c, d); }
    }
  }

  lemma LetterCode(c: char, d: nat)
    requires 10 <= d < 16
    ensures c == (d - 10 + 'a' as int) as char <==> c as int - 'a' as int + 10 == d
    ensures c == (d - 10 + 'A' as int) as char <==> c as int - 'A' as int + 10 == d
  {
  }

  lemma LetterAt(d: nat)
    requires d < 16
    ensures d < 10 ==> LOWER[d] == UPPER[d] == (d + '0' as int) as char
    ensures d >= 10 ==> LOWER[d] == (d - 10 + 'a' as int) as char && UPPER[d] == (d - 10 + 'A' as int) as char
  {
  }

  lemma {:induction false} PadValue(v: nat, n: nat, hex: bool)
    requires v < Pow(if hex then 16 else 10, n)
    ensures Legal(Pad(v, n, if hex then 16 else 10), hex) && Positional(Pad(v, n, if hex then 16 else 10), hex) == v
  {
    var b := if hex then 16 else 10;
    if n > 0 {
      assert Pow(b, n) == b * Pow(b, n - 1);
      PadValue(v / b, n - 1, hex);
      DigitMeans(LOWER[v % b], hex, v % b);
      PositionalSnoc(Pad(v / b, n - 1, b), LOWER[v % b], hex);
    }
  }

  /** The text is "0x" and sixteen lower-case digits, whose positional value is v. */
  lemma ToStringShape(v: u64)
    ensures |ToString(v)| == 18 && ToString(v)[..2] == "0x"
    ensures forall i :: 2 <= i < 18 ==> ToString(v)[i] in LOWER
    ensures Legal(ToString(v)[2..], true) && Positional(ToString(v)[2..], true) == v
  {
    SixteenDigits();
    PadValue(v, 16, true);
    PadListed(v, 16, 16);
    assert ToString(v)[2..] == HexPad(v, 16);
  }

  lemma {:induction false} PadListed(v: nat, n: nat, b: nat)
    requires 2 <= b <= 16
    ensures forall i :: 0 <= i < n ==> Pad(v, n, b)[i] in LOWER
  {
    if n > 0 { PadListed(v / b, n - 1, b); }
  }

  /** Two characters that are one hexadecimal digit, in whatever case. */
  ghost predicate SameDigit(c: char, e: char) {
    exists d :: 0 <= d < 16 && (c == LOWER[d] || c == UPPER[d]) && (e == LOWER[d] || e == UPPER[d])
  }

  lemma SameDigitReads(c: char, e: char)
    requires SameDigit(c, e)
    ensures DigitOf(c, true).Some? && DigitOf(c, true) == DigitOf(e, true)
  {
    var d :| 0 <= d < 16 && (c == LOWER[d] || c == UPPER[d]) && (e == LOWER[d] || e == UPPER[d]);
    DigitMeans(c, true, d);
    DigitMeans(e, true, d);
  }

  /** Text equal to that of v but for the case of the prefix and of the digits. */
  ghost predicate Spells(s: string, v: u64) {
    && |s| == 18 && s[0] == '0' && (s[1] == 'x' || s[1] == 'X')
    && forall i :: 2 <= i < 18 ==> SameDigit(ToString(v)[i], s[i])
  }

  lemma {:induction false} PositionalAlike(ds: string, es: string, hex: bool)
    requires |ds| == |es| && Legal(ds, hex)
    requires forall i :: 0 <= i < |ds| ==> DigitOf(ds[i], hex) == DigitOf(es[i], hex)
    ensures Legal(es, hex) && Positional(ds, hex) == Positional(es, hex)
  {
    if ds != "" { PositionalAlike(ds[1..], es[1..], hex); }
  }

  lemma SixteenDigits()
    ensures Pow(16, 16) == TWO64
  {
    assert Pow(16, 4) == 0x1_0000;
    assert Pow(16, 8) == 0x1_0000_0000;
    assert Pow(16, 12) == 0x1_0000_0000_0000;
  }

  /** Every identifier survives printing and parsing, in whatever case its text comes back. */
  lemma ParseOfSpelling(v: u64, s: string)
    requires Spells(s, v)
    ensures Parsed(s) == Some(v)
  {
    var ds := ToString(v)[2..];
    ToStringShape(v);
    forall i | 0 <= i < 16 ensures DigitOf(ds[i], true) == DigitOf(s[2..][i], true) {
      SameDigitReads(ToString(v)[2 + i], s[2 + i]);
    }
    PositionalAlike(ds, s[2..], true);
  }

  lemma ParseOfToString(v: u64)
    ensures Parsed(ToString(v)) == Some(v)
  {
    ToStringShape(v);
    assert IsHex(ToString(v));
  }

  /** And decimal text, of any number of digits, is read in base ten. */
  lemma ParseOfDecimal(v: nat, n: nat)
    requires n > 0 && v < Pow(10, n)
    ensures Parsed(Pad(v, n, 10)) == if v < TWO64 then Some(v) else None
  {
    var s := Pad(v, n, 10);
    PadValue(v, n, false);
    if IsHex(s) { assert false; }
  }

  lemma ToStringInjective(v: u64, w: u64)
    requires ToString(v) == ToString(w)
    ensures v == w
  {
    ParseOfToString(v);
    ParseOfToString(w);
  }
}
