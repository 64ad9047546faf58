/** Checksums as hexadecimal text, and the 32-bit register as a number. */
module HexText {

  /** The four bits of `x` from bit 4*k on, for k below 8. */
  function Nibble(x: bv32, k: nat): bv32 {
    match k
    case 0 => x & 0xf
    case 1 => (x >> 4) & 0xf
    case 2 => (x >> 8) & 0xf
    case 3 => (x >> 12) & 0xf
    case 4 => (x >> 16) & 0xf
    case 5 => (x >> 20) & 0xf
    case 6 => (x >> 24) & 0xf
    case _ => (x >> 28) & 0xf
  }

  /** Shifts a digit in at the low end; the top four bits are lost. */
  function Push4(x: bv32, d: bv32): bv32 {
    (x << 4) | d
  }

  predicate IsHex(c: char) {
    '0' <= c <= '9' || 'a' <= c <= 'f' || 'A' <= c <= 'F'
  }

  function DigitValue(c: char): (v: nat)
    requires IsHex(c)
    ensures v < 16
  {
    if c <= '9' then c as int - '0' as int
    else if c <= 'F' then c as int - 'A' as int + 10
    else c as int - 'a' as int + 10
  }

  /** The four bits of a number below 16. */
  function Bits4(v: nat): bv32 {
    match v
    case 0 => 0 case 1 => 1 case 2 => 2 case 3 => 3
    case 4 => 4 case 5 => 5 case 6 => 6 case 7 => 7
    case 8 => 8 case 9 => 9 case 10 => 10 case 11 => 11
    case 12 => 12 case 13 => 13 case 14 => 14 case _ => 15
  }

  /** The number four bits stand for. */
  function Value4(b: bv32): (v: nat)
    ensures v < 16
  {
    if b == 0 then 0 else if b == 1 then 1 else if b == 2 then 2 else if b == 3 then 3
    else if b == 4 then 4 else if b == 5 then 5 else if b == 6 then 6 else if b == 7 then 7
    else if b == 8 then 8 else if b == 9 then 9 else if b == 10 then 10 else if b == 11 then 11
    else if b == 12 then 12 else if b == 13 then 13 else if b == 14 then 14 else 15
  }

  const CHARS := "0123456789abcdef"

  predicate AllHex(s: string) {
    forall c :: c in s ==> IsHex(c)
  }

  /** The register after reading the digits of `s`. */
  function HexBits(s: string): bv32
    requires AllHex(s)
  {
    if s == [] then 0
    else Push4(HexBits(s[..|s| - 1]), Bits4(DigitValue(s[|s| - 1])))
  }

  /** The number `s` spells. */
  function HexNumber(s: string): nat
    requires AllHex(s)
  {
    if s == [] then 0
    else 16 * HexNumber(s[..|s| - 1]) + DigitValue(s[|s| - 1])
  }

  /** The number with the given hex digits, least significant first. */
  function Weighted(v0: nat, v1: nat, v2: nat, v3: nat, v4: nat, v5: nat, v6: nat, v7: nat): nat {
    v0 + 0x10 * v1 + 0x100 * v2 + 0x1000 * v3
    + 0x1_0000 * v4 + 0x10_0000 * v5 + 0x100_0000 * v6 + 0x1000_0000 * v7
  }

  /** A register as a number. */
  function Number(x: bv32): nat {
    Weighted(Value4(Nibble(x, 0)), Value4(Nibble(x, 1)), Value4(Nibble(x, 2)), Value4(Nibble(x, 3)),
             Value4(Nibble(x, 4)), Value4(Nibble(x, 5)), Value4(Nibble(x, 6)), Value4(Nibble(x, 7)))
  }

  lemma NibbleSmall(x: bv32, k: nat)
    ensures Nibble(x, k) < 16
  {
  }

  lemma Value4Injective(a: bv32, b: bv32)
    requires a < 16 && b < 16 && Value4(a) == Value4(b)
    ensures a == b
  {
  }

  lemma NibblesInjective(x: bv32, y: bv32)
    requires Nibble(x, 0) == Nibble(y, 0) && Nibble(x, 1) == Nibble(y, 1)
    requires Nibble(x, 2) == Nibble(y, 2) && Nibble(x, 3) == Nibble(y, 3)
    requires Nibble(x, 4) == Nibble(y, 4) && Nibble(x, 5) == Nibble(y, 5)
    requires Nibble(x, 6) == Nibble(y, 6) && Nibble(x, 7) == Nibble(y, 7)
    ensures x == y
  {
  }

  lemma LowDigit(a: nat, p: nat, b: nat, q: nat)
    requires a < 16 && b < 16 && a + 16 * p == b + 16 * q
    ensures a == b && p == q
  {
  }

  lemma HexDigitsOf(a0: nat, a1: nat, a2: nat, a3: nat, b0: nat, b1: nat, b2: nat, b3: nat, p: nat, q: nat)
    requires a0 < 16 && a1 < 16 && a2 < 16 && a3 < 16 && b0 < 16 && b1 < 16 && b2 < 16 && b3 < 16
    requires a0 + 16 * a1 + 256 * a2 + 4096 * a3 + 65536 * p == b0 + 16 * b1 + 256 * b2 + 4096 * b3 + 65536 * q
    ensures a0 == b0 && a1 == b1 && a2 == b2 && a3 == b3 && p == q
  {
    LowDigit(a0, a1 + 16 * a2 + 256 * a3 + 4096 * p, b0, b1 + 16 * b2 + 256 * b3 + 4096 * q);
    LowDigit(a1, a2 + 16 * a3 + 256 * p, b1, b2 + 16 * b3 + 256 * q);
    LowDigit(a2, a3 + 16 * p, b2, b3 + 16 * q);
    LowDigit(a3, p, b3, q);
  }

  lemma NumberInjective(x: bv32, y: bv32)
    requires Number(x) == Number(y)
    ensures x == y
  {
    hide Nibble, Value4;
    forall k: nat ensures Value4(Nibble(x, k)) == Value4(Nibble(y, k)) ==> Nibble(x, k) == Nibble(y, k) {
      NibbleSmall(x, k);
      NibbleSmall(y, k);
      if Value4(Nibble(x, k)) == Value4(Nibble(y, k)) { Value4Injective(Nibble(x, k), Nibble(y, k)); }
    }
    var p := Value4(Nibble(x, 4)) + 16 * Value4(Nibble(x, 5)) + 256 * Value4(Nibble(x, 6))
             + 4096 * Value4(Nibble(x, 7));
    var q := Value4(Nibble(y, 4)) + 16 * Value4(Nibble(y, 5)) + 256 * Value4(Nibble(y, 6))
             + 4096 * Value4(Nibble(y, 7));
    HexDigitsOf(Value4(Nibble(x, 0)), Value4(Nibble(x, 1)), Value4(Nibble(x, 2)), Value4(Nibble(x, 3)),
                Value4(Nibble(y, 0)), Value4(Nibble(y, 1)), Value4(Nibble(y, 2)), Value4(Nibble(y, 3)), p, q);
    HexDigitsOf(Value4(Nibble(x, 4)), Value4(Nibble(x, 5)), Value4(Nibble(x, 6)), Value4(Nibble(x, 7)),
                Value4(Nibble(y, 4)), Value4(Nibble(y, 5)), Value4(Nibble(y, 6)), Value4(Nibble(y, 7)), 0, 0);
    NibblesInjective(x, y);
  }

  // ---- The number counts the register up from 0 ----

  function Up(b: bv32, carry: bool): bv32 {
    if !carry then b else if b == 15 then 0 else b + 1
  }

  lemma UpNumber(b: bv32, carry: bool)
    requires b < 16
    ensures Value4(Up(b, carry)) == Value4(b) + (if carry then 1 else 0) - (if carry && b == 15 then 16 else 0)
  {
  }

  /** A carry through all eight digits. */
  lemma WeightedUp(v0: nat, v1: nat, v2: nat, v3: nat, v4: nat, v5: nat, v6: nat, v7: nat,
                   c1: nat, c2: nat, c3: nat, c4: nat, c5: nat, c6: nat, c7: nat, c8: nat,
                   w0: nat, w1: nat, w2: nat, w3: nat, w4: nat, w5: nat, w6: nat, w7: nat)
    requires w0 == v0 + 1 - 16 * c1 && w1 == v1 + c1 - 16 * c2 && w2 == v2 + c2 - 16 * c3 && w3 == v3 + c3 - 16 * c4
    requires w4 == v4 + c4 - 16 * c5 && w5 == v5 + c5 - 16 * c6 && w6 == v6 + c6 - 16 * c7 && w7 == v7 + c7 - 16 * c8
    ensures Weighted(w0, w1, w2, w3, w4, w5, w6, w7)
            == Weighted(v0, v1, v2, v3, v4, v5, v6, v7) + 1 - 0x1_0000_0000 * c8
  {
  }

  lemma MaxNumber()
    ensures Number(0xffff_ffff) == 0xffff_ffff
  {
    assert forall k: nat :: Nibble(0xffff_ffff, k) == 15;
  }

  function DigitAt(x: bv32, k: nat): nat {
    Value4(Nibble(x, k))
  }

  /** Adding one carries into a nibble when all those below it are 15. */
  predicate Carries(x: bv32, k: nat) {
    k == 0 || (Carries(x, k - 1) && Nibble(x, k - 1) == 15)
  }

  function Carry(x: bv32, k: nat): nat {
    if Carries(x, k) then 1 else 0
  }

  lemma CarryAll(x: bv32)
    ensures Carry(x, 0) == 1 && Carry(x, 8) == if x == 0xffff_ffff then 1 else 0
  {
    CarriesFrom(x);
    NibblesUp(x);
    hide Nibble;
  }

  lemma CarriesFrom(x: bv32)
    ensures Carries(x, 0) && (Carries(x, 1) <==> Nibble(x, 0) == 15)
    ensures Carries(x, 2) <==> Carries(x, 1) && Nibble(x, 1) == 15
    ensures Carries(x, 3) <==> Carries(x, 2) && Nibble(x, 2) == 15
    ensures Carries(x, 4) <==> Carries(x, 3) && Nibble(x, 3) == 15
    ensures Carries(x, 5) <==> Carries(x, 4) && Nibble(x, 4) == 15
    ensures Carries(x, 6) <==> Carries(x, 5) && Nibble(x, 5) == 15
    ensures Carries(x, 7) <==> Carries(x, 6) && Nibble(x, 6) == 15
    ensures Carries(x, 8) <==> Carries(x, 7) && Nibble(x, 7) == 15
  {
    hide Nibble;
  }

  lemma NibblesUp(x: bv32)
    ensures var y := x + 1;
      var c1 := Nibble(x, 0) == 15; var c2 := c1 && Nibble(x, 1) == 15; var c3 := c2 && Nibble(x, 2) == 15;
      var c4 := c3 && Nibble(x, 3) == 15; var c5 := c4 && Nibble(x, 4) == 15; var c6 := c5 && Nibble(x, 5) == 15;
      var c7 := c6 && Nibble(x, 6) == 15;
      && Nibble(y, 0) == Up(Nibble(x, 0), true) && Nibble(y, 1) == Up(Nibble(x, 1), c1)
      && Nibble(y, 2) == Up(Nibble(x, 2), c2) && Nibble(y, 3) == Up(Nibble(x, 3), c3)
      && Nibble(y, 4) == Up(Nibble(x, 4), c4) && Nibble(y, 5) == Up(Nibble(x, 5), c5)
      && Nibble(y, 6) == Up(Nibble(x, 6), c6) && Nibble(y, 7) == Up(Nibble(x, 7), c7)
      && (c7 && Nibble(x, 7) == 15 <==> x == 0xffff_ffff)
  {
  }

  lemma NibbleUp(x: bv32, k: nat)
    requires k < 8
    ensures Nibble(x + 1, k) == Up(Nibble(x, k), Carries(x, k))
  {
    CarriesFrom(x);
    NibblesUp(x);
    hide Nibble, Up, Carries;
  }

  lemma NibbleNext(x: bv32, k: nat)
    requires k < 8
    ensures DigitAt(x + 1, k) == DigitAt(x, k) + Carry(x, k) - 16 * Carry(x, k + 1)
  {
    hide Nibble, Value4, Up;
    NibbleUp(x, k);
    NibbleSmall(x, k);
    UpNumber(Nibble(x, k), Carries(x, k));
  }

  lemma NumberDigits(x: bv32)
    ensures Number(x) == Weighted(DigitAt(x, 0), DigitAt(x, 1), DigitAt(x, 2), DigitAt(x, 3),
                                  DigitAt(x, 4), DigitAt(x, 5), DigitAt(x, 6), DigitAt(x, 7))
  {
    hide Nibble, Value4, Weighted;
  }

  /** Digits that follow the carries follow in number. */
  lemma DigitsNext(x: bv32, y: bv32)
    requires forall k: nat :: k < 8 ==> DigitAt(y, k) == DigitAt(x, k) + Carry(x, k) - 16 * Carry(x, k + 1)
    requires Carry(x, 0) == 1
    ensures Number(y) == Number(x) + 1 - 0x1_0000_0000 * Carry(x, 8)
  {
    NumberDigits(x);
    NumberDigits(y);
    hide Number, DigitAt, Carry, Weighted;
    WeightedUp(
      DigitAt(x, 0), DigitAt(x, 1), DigitAt(x, 2), DigitAt(x, 3),
      DigitAt(x, 4), DigitAt(x, 5), DigitAt(x, 6), DigitAt(x, 7),
      Carry(x, 1), Carry(x, 2), Carry(x, 3), Carry(x, 4), Carry(x, 5), Carry(x, 6), Carry(x, 7), Carry(x, 8),
      DigitAt(y, 0), DigitAt(y, 1), DigitAt(y, 2), DigitAt(y, 3),
      DigitAt(y, 4), DigitAt(y, 5), DigitAt(y, 6), DigitAt(y, 7));
  }

  /** The register after `x`, and the number after that of `x`. */
  lemma NumberNext(x: bv32)
    ensures Number(x + 1) == if x == 0xffff_ffff then 0 else Number(x) + 1
    ensures Number(0) == 0
  {
    hide Number, DigitAt, Carry;
    ZeroNumber();
    CarryAll(x);
    MaxNumber();
    forall k: nat | k < 8 ensures DigitAt(x + 1, k) == DigitAt(x, k) + Carry(x, k) - 16 * Carry(x, k + 1) {
      NibbleNext(x, k);
    }
    DigitsNext(x, x + 1);
  }

  lemma Push4Nibbles(x: bv32, d: bv32)
    requires d < 16
    ensures var y := Push4(x, d);
      && Nibble(y, 0) == d && Nibble(y, 1) == Nibble(x, 0) && Nibble(y, 2) == Nibble(x, 1)
      && Nibble(y, 3) == Nibble(x, 2) && Nibble(y, 4) == Nibble(x, 3) && Nibble(y, 5) == Nibble(x, 4)
      && Nibble(y, 6) == Nibble(x, 5) && Nibble(y, 7) == Nibble(x, 6)
  {
  }

  lemma Bits4Value(v: nat)
    requires v < 16
    ensures Bits4(v) < 16 && Value4(Bits4(v)) == v
  {
  }

  /** Shifting digits up drops the highest one modulo 2^32. */
  lemma WeightedShift(d: nat, v0: nat, v1: nat, v2: nat, v3: nat, v4: nat, v5: nat, v6: nat, v7: nat)
    requires d < 16 && v0 < 16 && v1 < 16 && v2 < 16 && v3 < 16 && v4 < 16 && v5 < 16 && v6 < 16
    ensures (16 * Weighted(v0, v1, v2, v3, v4, v5, v6, v7) + d) % 0x1_0000_0000
            == Weighted(d, v0, v1, v2, v3, v4, v5, v6)
  {
    Remainder(16 * Weighted(v0, v1, v2, v3, v4, v5, v6, v7) + d, Weighted(d, v0, v1, v2, v3, v4, v5, v6), v7);
  }

  lemma Remainder(n: nat, y: nat, q: nat)
    requires y < 0x1_0000_0000 && n == y + 0x1_0000_0000 * q
    ensures n % 0x1_0000_0000 == y
  {
  }

  lemma Push4Number(x: bv32, v: nat)
    requires v < 16
    ensures Number(Push4(x, Bits4(v))) == (16 * Number(x) + v) % 0x1_0000_0000
  {
    hide Nibble, Value4, Bits4, Push4, Weighted;
    Bits4Value(v);
    Push4Nibbles(x, Bits4(v));
    WeightedShift(v, Value4(Nibble(x, 0)), Value4(Nibble(x, 1)), Value4(Nibble(x, 2)), Value4(Nibble(x, 3)),
                  Value4(Nibble(x, 4)), Value4(Nibble(x, 5)), Value4(Nibble(x, 6)), Value4(Nibble(x, 7)));
  }

  /** Reading hex digits keeps the number modulo 2^32. */
  lemma {:induction false} HexBitsNumber(s: string)
    requires AllHex(s)
    ensures Number(HexBits(s)) == HexNumber(s) % 0x1_0000_0000
  {
    hide Number, Push4, Bits4, DigitValue, Weighted;
    if s == [] {
      ZeroNumber();
    } else {
      var p := s[..|s| - 1];
      HexBitsNumber(p);
      Push4Number(HexBits(p), DigitValue(s[|s| - 1]));
      ModStep(HexNumber(p), DigitValue(s[|s| - 1]));
    }
  }

  lemma ZeroNumber()
    ensures Number(0) == 0
  {
    assert forall k: nat :: Nibble(0, k) == 0;
  }

  lemma ModStep(n: nat, v: nat)
    ensures (16 * (n % 0x1_0000_0000) + v) % 0x1_0000_0000 == (16 * n + v) % 0x1_0000_0000
  {
    var q := n / 0x1_0000_0000;
    assert 16 * n + v == 16 * (n % 0x1_0000_0000) + v + 0x1_0000_0000 * (16 * q);
  }

  // ---- Printing ----

  function HexChar(x: bv32, k: nat): (c: char)
    ensures IsHex(c) && DigitValue(c) == Value4(Nibble(x, k))
  {
    CHARS[Value4(Nibble(x, k))]
  }

  /** Eight lowercase digits. */
  function Hex8(x: bv32): (s: string)
    ensures |s| == 8 && AllHex(s)
  {
    [HexChar(x, 7), HexChar(x, 6), HexChar(x, 5), HexChar(x, 4),
     HexChar(x, 3), HexChar(x, 2), HexChar(x, 1), HexChar(x, 0)]
  }

  lemma HexSnoc(s: string, c: char)
    requires AllHex(s) && IsHex(c)
    ensures AllHex(s + [c]) && HexNumber(s + [c]) == 16 * HexNumber(s) + DigitValue(c)
  {
    assert (s + [c])[..|s|] == s;
  }

  /** Four digits in a row. */
  lemma HexSnoc4(s: string, a: char, b: char, c: char, d: char)
    requires AllHex(s) && IsHex(a) && IsHex(b) && IsHex(c) && IsHex(d)
    ensures var t := s + [a, b, c, d];
      && AllHex(t)
      && HexNumber(t) == 65536 * HexNumber(s) + 4096 * DigitValue(a) + 256 * DigitValue(b)
                         + 16 * DigitValue(c) + DigitValue(d)
  {
    hide HexNumber, DigitValue, IsHex;
    HexSnoc(s, a);
    HexSnoc(s + [a], b);
    HexSnoc(s + [a] + [b], c);
    HexSnoc(s + [a] + [b] + [c], d);
    assert s + [a] + [b] + [c] + [d] == s + [a, b, c, d];
  }

  lemma Hex8Number(x: bv32)
    ensures HexNumber(Hex8(x)) == Number(x) < 0x1_0000_0000
  {
    hide Nibble, Value4, DigitValue, IsHex, HexChar, HexNumber;
    var a, b, c, d := HexChar(x, 7), HexChar(x, 6), HexChar(x, 5), HexChar(x, 4);
    var e, f, g, h := HexChar(x, 3), HexChar(x, 2), HexChar(x, 1), HexChar(x, 0);
    NoDigits();
    HexSnoc4([], a, b, c, d);
    assert [] + [a, b, c, d] == [a, b, c, d];
    HexSnoc4([a, b, c, d], e, f, g, h);
    assert [a, b, c, d] + [e, f, g, h] == Hex8(x);
  }

  lemma NoDigits()
    ensures AllHex([]) && HexNumber([]) == 0
  {
  }

  /** Printing a register and reading it back. */
  lemma Hex8RoundTrip(x: bv32)
    ensures HexBits(Hex8(x)) == x
  {
    hide Number, Hex8, HexBits, HexNumber;
    Hex8Number(x);
    HexBitsNumber(Hex8(x));
    NumberInjective(HexBits(Hex8(x)), x);
  }
}
