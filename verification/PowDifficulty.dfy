/** The leading-zero loop of the proof of work, against the digest read as a number. */
module PowDifficulty {
  import opened Powers

  type Byte = n: int | 0 <= n < 256

  const DIGEST_LEN: nat := 32

  type Digest = d: seq<Byte> | |d| == DIGEST_LEN witness seq(DIGEST_LEN, _ => 0)

  /** The bytes as one big-endian number. */
  function BigEndian(s: seq<Byte>): nat {
    if s == [] then 0 else s[0] * Power2(8 * (|s| - 1)) + BigEndian(s[1..])
  }

  predicate MeetsTarget(s: seq<Byte>, difficulty: int) {
    difficulty <= 0 || (difficulty <= 8 * |s| && BigEndian(s) < Power2(8 * |s| - difficulty))
  }

  lemma Scales(x: nat, y: nat, z: nat)
    requires x < y
    ensures x * z + z <= y * z
  {
    assert (x + 1) * z <= y * z;
  }

  lemma Power8()
    ensures Power2(8) == 256 && Power2(7) == 128
  {
    assert Power2(4) == 16;
    PowerSum(4, 4);
    PowerSum(4, 3);
  }

  lemma {:induction false} BigEndianBound(s: seq<Byte>)
    ensures BigEndian(s) < Power2(8 * |s|)
  {
    if s != [] {
      BigEndianBound(s[1..]);
      Power8();
      PowerSum(8, 8 * (|s| - 1));
      Scales(s[0], 256, Power2(8 * (|s| - 1)));
    }
  }

  /** Zero bytes in front change nothing. */
  lemma {:induction false} SkipZeros(s: seq<Byte>, i: nat)
    requires i <= |s| && forall k :: 0 <= k < i ==> s[k] == 0
    ensures BigEndian(s) == BigEndian(s[i..])
  {
    if i > 0 {
      SkipZeros(s[1..], i - 1);
      assert s[1..][i - 1..] == s[i..];
    }
  }

  /** The leading zero bits of a nonzero byte. */
  function Leads(b: nat): (k: nat)
    requires 0 < b < 256
    ensures k < 8 && Power2(7 - k) <= b < Power2(8 - k)
    decreases 256 - b
  {
    Power8();
    if b >= 128 then 0 else Leads(2 * b) + 1
  }

  lemma LeadsStep(b: nat)
    requires 0 < b < 256
    ensures b >= 128 ==> Leads(b) == 0
    ensures b < 128 ==> Leads(b) == Leads(2 * b) + 1
  {
    hide Power2;
  }

  lemma Between(b: nat, z: nat, r: nat, low: nat, high: nat)
    requires r < z && low <= b < high
    ensures low * z <= b * z + r < high * z
  {
    Scales(b, high, z);
  }

  /** The first byte's leading zeros fix where the number lies. */
  lemma FirstByte(s: seq<Byte>)
    requires s != [] && s[0] > 0
    ensures var e := 8 * |s| - Leads(s[0]); Power2(e - 1) <= BigEndian(s) < Power2(e)
  {
    hide Power2, Leads;
    var k, m := Leads(s[0]), 8 * (|s| - 1);
    BigEndianBound(s[1..]);
    Between(s[0], Power2(m), BigEndian(s[1..]), Power2(7 - k), Power2(8 - k));
    PowerSum(7 - k, m);
    PowerSum(8 - k, m);
  }

  /** With its first `i` bytes zero, the digest meets a target exactly as its leading bits say. */
  lemma BitsDecide(s: seq<Byte>, i: nat, bits: nat, difficulty: int)
    requires i <= |s| && forall k :: 0 <= k < i ==> s[k] == 0
    requires if i == |s| then bits == 8 * i else s[i] > 0 && bits == 8 * i + Leads(s[i])
    ensures bits >= difficulty <==> MeetsTarget(s, difficulty)
  {
    hide Leads, Power2;
    SkipZeros(s, i);
    var n, top := BigEndian(s), 8 * |s|;
    if i < |s| {
      FirstByte(s[i..]);
    }
    if 0 < difficulty <= top {
      if difficulty <= bits {
        if i < |s| {
          PowerMonotone(top - bits, top - difficulty);
        }
      } else if i < |s| {
        PowerMonotone(top - difficulty, top - bits - 1);
      }
    }
  }

  /** Accepts a digest exactly when, as a 256-bit number, it is below 2^(256 - difficulty). */
  method MeetsDifficulty(digest: Digest, difficulty: int) returns (ok: bool)
    ensures ok <==> MeetsTarget(digest, difficulty)
  {
    hide Leads, Power2, MeetsTarget;
    var bits, i := 0, 0;
    while i < DIGEST_LEN
      invariant i <= DIGEST_LEN && bits == 8 * i
      invariant forall k :: 0 <= k < i ==> digest[k] == 0
    {
      var b: int := digest[i];
      if b == 0 {
        bits := bits + 8;
        i := i + 1;
        continue;
      }
      LeadsStep(b);
      while b < 0x80
        invariant 0 < b < 256 && bits + Leads(b) == 8 * i + Leads(digest[i])
        invariant b >= 0x80 ==> Leads(b) == 0
        decreases 256 - b
      {
        LeadsStep(b);
        bits := bits + 1;
        b := b * 2 % 256;
        LeadsStep(b);
      }
      break;
    }
    BitsDecide(digest, i, bits, difficulty);
    ok := bits >= difficulty;
  }
}
