/** The feed checksum, bit by bit, and why one changed byte always shows. */
module Crc32 {
  import opened HexText
  import opened Powers

  const POLYNOMIAL: bv32 := 0xedb88320
  const ONES: bv32 := 0xffffffff

  function Xor(x: bv32, y: bv32): bv32 {
    x ^ y
  }

  function Half(x: bv32): bv32 {
    x >> 1
  }

  /** Eight bits, least significant first, in a register. */
  function Pack(b0: bool, b1: bool, b2: bool, b3: bool, b4: bool, b5: bool, b6: bool, b7: bool): bv32 {
    (if b0 then 1 else 0) | (if b1 then 2 else 0) | (if b2 then 4 else 0) | (if b3 then 8 else 0)
    | (if b4 then 16 else 0) | (if b5 then 32 else 0) | (if b6 then 64 else 0) | (if b7 then 128 else 0)
  }

  /** The `k` lowest binary digits, the lowest first. */
  function Digits(n: nat, k: nat): (d: seq<bool>)
    ensures |d| == k
  {
    if k == 0 then [] else [n % 2 == 1] + Digits(n / 2, k - 1)
  }

  function Octet(n: nat): (d: seq<bool>)
    ensures |d| == 8
  {
    Digits(n, 8)
  }

  function PackAll(d: seq<bool>): bv32
    requires |d| == 8
  {
    Pack(d[0], d[1], d[2], d[3], d[4], d[5], d[6], d[7])
  }

  /** A character as a byte of the register's width. */
  function ByteBits(c: char): bv32 {
    PackAll(Octet(c as int))
  }

  predicate IsByte(c: char) {
    c as int < 256
  }

  /** One shift of the register. */
  function Shift(x: bv32): bv32 {
    if x & 1 == 1 then (x >> 1) ^ POLYNOMIAL else x >> 1
  }

  function ShiftBy(x: bv32, k: nat): bv32 {
    if k == 0 then x else Shift(ShiftBy(x, k - 1))
  }

  /** The register after the bytes of `s`. */
  function Register(s: string): bv32 {
    if s == [] then ONES
    else ShiftBy(Xor(Register(s[..|s| - 1]), ByteBits(s[|s| - 1])), 8)
  }

  function Crc(s: string): bv32 {
    Xor(Register(s), ONES)
  }

  // ---- One changed byte ----

  /** Each shift can be undone, so no two registers meet. */
  lemma ShiftInjective(x: bv32, y: bv32)
    requires Shift(x) == Shift(y)
    ensures x == y
  {
  }

  lemma {:induction false} ShiftByInjective(x: bv32, y: bv32, k: nat)
    requires ShiftBy(x, k) == ShiftBy(y, k)
    ensures x == y
  {
    hide Shift;
    if k > 0 {
      ShiftInjective(ShiftBy(x, k - 1), ShiftBy(y, k - 1));
      ShiftByInjective(x, y, k - 1);
    }
  }

  lemma XorInjective(x: bv32, y: bv32, z: bv32)
    ensures Xor(x, z) == Xor(y, z) ==> x == y
    ensures Xor(z, x) == Xor(z, y) ==> x == y
  {
  }

  function Bit(b: bool): nat {
    if b then 1 else 0
  }

  function Value(d: seq<bool>): nat {
    if d == [] then 0 else Bit(d[0]) + 2 * Value(d[1..])
  }

  /** A number below 2^k is the value of its k lowest binary digits. */
  lemma {:induction false} DigitsValue(n: nat, k: nat)
    requires n < Power2(k)
    ensures Value(Digits(n, k)) == n
  {
    if k > 0 {
      DigitsValue(n / 2, k - 1);
      assert Digits(n, k)[1..] == Digits(n / 2, k - 1);
    }
  }

  lemma OctetValue(n: nat)
    requires n < 256
    ensures Value(Octet(n)) == n
  {
    assert Power2(4) == 16;
    assert Power2(8) == 256;
    hide Digits, Value;
    DigitsValue(n, 8);
  }

  lemma ValueTwo(d: seq<bool>)
    requires |d| >= 2
    ensures Value(d) == Bit(d[0]) + 2 * Bit(d[1]) + 4 * Value(d[2..])
  {
    assert d[1..][1..] == d[2..];
  }

  function Sum(b0: bool, b1: bool, b2: bool, b3: bool, b4: bool, b5: bool, b6: bool, b7: bool): nat {
    Bit(b0) + 2 * Bit(b1) + 4 * Bit(b2) + 8 * Bit(b3) + 16 * (Bit(b4) + 2 * Bit(b5) + 4 * Bit(b6) + 8 * Bit(b7))
  }

  lemma ValueEight(d: seq<bool>)
    requires |d| == 8
    ensures Value(d) == Sum(d[0], d[1], d[2], d[3], d[4], d[5], d[6], d[7])
  {
    ValueTwo(d);
    ValueTwo(d[2..]);
    ValueTwo(d[4..]);
    ValueTwo(d[6..]);
    assert d[2..][2..] == d[4..] && d[4..][2..] == d[6..] && d[6..][2..] == [];
    hide Bit;
  }

  lemma PackNumber(b0: bool, b1: bool, b2: bool, b3: bool, b4: bool, b5: bool, b6: bool, b7: bool)
    ensures var x := Pack(b0, b1, b2, b3, b4, b5, b6, b7);
      && Value4(Nibble(x, 0)) == Bit(b0) + 2 * Bit(b1) + 4 * Bit(b2) + 8 * Bit(b3)
      && Value4(Nibble(x, 1)) == Bit(b4) + 2 * Bit(b5) + 4 * Bit(b6) + 8 * Bit(b7)
      && Nibble(x, 2) == 0 && Nibble(x, 3) == 0 && Nibble(x, 4) == 0
      && Nibble(x, 5) == 0 && Nibble(x, 6) == 0 && Nibble(x, 7) == 0
  {
  }

  lemma TwoNibbles(x: bv32)
    requires Nibble(x, 2) == 0 && Nibble(x, 3) == 0 && Nibble(x, 4) == 0
    requires Nibble(x, 5) == 0 && Nibble(x, 6) == 0 && Nibble(x, 7) == 0
    ensures Number(x) == Value4(Nibble(x, 0)) + 16 * Value4(Nibble(x, 1))
  {
    ZeroNibble();
    hide Nibble, Value4;
  }

  lemma ZeroNibble()
    ensures Value4(0) == 0
  {
  }

  lemma PackedNumber(b0: bool, b1: bool, b2: bool, b3: bool, b4: bool, b5: bool, b6: bool, b7: bool)
    ensures Number(Pack(b0, b1, b2, b3, b4, b5, b6, b7)) == Sum(b0, b1, b2, b3, b4, b5, b6, b7)
  {
    hide Pack, Nibble, Value4, Bit, Number;
    PackNumber(b0, b1, b2, b3, b4, b5, b6, b7);
    TwoNibbles(Pack(b0, b1, b2, b3, b4, b5, b6, b7));
  }

  /** Eight digits packed into a register stand for their value. */
  lemma PackedValue(d: seq<bool>)
    requires |d| == 8
    ensures Number(PackAll(d)) == Value(d)
  {
    hide Pack, Sum, Number, Value;
    PackedNumber(d[0], d[1], d[2], d[3], d[4], d[5], d[6], d[7]);
    ValueEight(d);
  }

  /** The bits of a byte stand for the byte. */
  lemma ByteBitsNumber(c: char)
    requires IsByte(c)
    ensures Number(ByteBits(c)) == c as int
  {
    hide Octet, PackAll, Number, Value;
    PackedValue(Octet(c as int));
    OctetValue(c as int);
  }

  lemma ByteBitsInjective(c: char, d: char)
    requires IsByte(c) && IsByte(d) && ByteBits(c) == ByteBits(d)
    ensures c == d
  {
    hide ByteBits, Number;
    ByteBitsNumber(c);
    ByteBitsNumber(d);
  }

  /** Different registers stay different while the same bytes follow. */
  lemma {:induction false} SuffixKeepsApart(a: string, b: string, tail: string)
    requires Register(a) != Register(b)
    ensures Register(a + tail) != Register(b + tail)
  {
    hide ShiftBy, Xor, ByteBits;
    if tail == [] {
      assert a + tail == a && b + tail == b;
    } else {
      var t, bits := tail[..|tail| - 1], ByteBits(tail[|tail| - 1]);
      SuffixKeepsApart(a, b, t);
      assert (a + tail)[..|a + tail| - 1] == a + t && (b + tail)[..|b + tail| - 1] == b + t;
      XorInjective(Register(a + t), Register(b + t), bits);
      if Register(a + tail) == Register(b + tail) {
        ShiftByInjective(Xor(Register(a + t), bits), Xor(Register(b + t), bits), 8);
      }
    }
  }

  /** Two strings that differ in exactly one byte have different checksums. */
  lemma OneByteChangesCrc(head: string, c: char, d: char, tail: string)
    requires IsByte(c) && IsByte(d) && c != d
    ensures Crc(head + [c] + tail) != Crc(head + [d] + tail)
  {
    hide ShiftBy, Xor, ByteBits;
    var a, b := head + [c], head + [d];
    assert a[..|head|] == head && b[..|head|] == head;
    var r := Register(head);
    if Register(a) == Register(b) {
      ShiftByInjective(Xor(r, ByteBits(c)), Xor(r, ByteBits(d)), 8);
      XorInjective(ByteBits(c), ByteBits(d), r);
      ByteBitsInjective(c, d);
    }
    SuffixKeepsApart(a, b, tail);
    XorInjective(Register(a + tail), Register(b + tail), ONES);
  }

  // ---- The loop ----

  /** A byte is used up after the remaining shifts. */
  predicate Drains(b: bv32, k: nat)
    decreases 8 - k
  {
    if k >= 8 then b == 0 else Drains(Half(b), k + 1)
  }

  lemma PackDrains(b0: bool, b1: bool, b2: bool, b3: bool, b4: bool, b5: bool, b6: bool, b7: bool)
    ensures var b := Pack(b0, b1, b2, b3, b4, b5, b6, b7);
      Half(Half(Half(Half(Half(Half(Half(Half(b)))))))) == 0
  {
  }

  lemma OctetDrains(d: seq<bool>)
    requires |d| == 8
    ensures Drains(PackAll(d), 0)
  {
    hide Pack, Half;
    PackDrains(d[0], d[1], d[2], d[3], d[4], d[5], d[6], d[7]);
    DrainsEight(PackAll(d));
  }

  lemma DrainsEight(b: bv32)
    ensures Half(Half(Half(Half(Half(Half(Half(Half(b)))))))) == 0 ==> Drains(b, 0)
  {
    hide Half;
    assert Drains(Half(Half(Half(Half(Half(Half(b)))))), 6) == (Half(Half(Half(Half(Half(Half(Half(Half(b)))))))) == 0);
    assert Drains(Half(Half(Half(Half(b)))), 4) == Drains(Half(Half(Half(Half(Half(Half(b)))))), 6);
    assert Drains(Half(Half(b)), 2) == Drains(Half(Half(Half(Half(b)))), 4);
  }

  lemma ByteDrains(c: char)
    ensures Drains(ByteBits(c), 0)
  {
    hide PackAll, Octet, Drains;
    OctetDrains(Octet(c as int));
  }

  /** Register and byte shifted apart are the shifted difference. */
  lemma ShiftApart(crc: bv32, b: bv32)
    ensures (if (crc ^ b) & 1 == 1 then (crc >> 1) ^ POLYNOMIAL else crc >> 1) ^ (b >> 1) == Shift(crc ^ b)
  {
  }

  method ShiftBit(crc: bv32, b: bv32) returns (r: bv32, rest: bv32)
    ensures Xor(r, rest) == Shift(Xor(crc, b)) && rest == Half(b)
  {
    ShiftApart(crc, b);
    hide Shift;
    var bit := (crc ^ b) & 1;
    r := crc >> 1;
    if bit == 1 {
      r := r ^ POLYNOMIAL;
    }
    rest := b >> 1;
  }

  lemma XorZero(x: bv32)
    ensures Xor(x, 0) == x
  {
  }

  /** The loop over bytes and bits computes the checksum. */
  method CrcLong(s: string) returns (crc: bv32)
    ensures crc == Crc(s)
  {
    hide Shift, Xor, Half, ByteBits;
    crc := ONES;
    for i := 0 to |s|
      invariant crc == Register(s[..i])
    {
      assert s[..i + 1][..i] == s[..i];
      ghost var x := Xor(crc, ByteBits(s[i]));
      var b := ByteBits(s[i]);
      ByteDrains(s[i]);
      for k := 0 to 8
        invariant Xor(crc, b) == ShiftBy(x, k) && Drains(b, k)
      {
        crc, b := ShiftBit(crc, b);
      }
      XorZero(crc);
    }
    assert s[..|s|] == s;
    crc := Xor(crc, ONES);
  }
}
