/** Byte strings: searching, and decimal numbers as they are read and written. */
module Text {
  import opened Powers

  /** The first position of `c`, or the length. */
  function Find(s: string, c: char): (i: nat)
    ensures i <= |s| && (i < |s| ==> s[i] == c)
    ensures forall k :: 0 <= k < i ==> s[k] != c
  {
    if s == [] || s[0] == c then 0 else 1 + Find(s[1..], c)
  }

  lemma FindIs(s: string, i: nat, c: char)
    requires i < |s| && s[i] == c && forall k :: 0 <= k < i ==> s[k] != c
    ensures Find(s, c) == i
  {
  }

  lemma SplitAt(x: string, c: char, y: string)
    requires c !in x
    ensures var s := x + [c] + y;
      Find(s, c) == |x| && s[..|x|] == x && s[|x| + 1..] == y
  {
    FindIs(x + [c] + y, |x|, c);
  }

  predicate IsDigit(c: char) {
    '0' <= c <= '9'
  }

  predicate AllDigits(s: string) {
    forall c :: c in s ==> IsDigit(c)
  }

  function Decimal(s: string): nat
    requires AllDigits(s)
  {
    if s == [] then 0
    else
      assert s[|s| - 1] in s;
      10 * Decimal(s[..|s| - 1]) + (s[|s| - 1] as int - '0' as int)
  }

  /** A nonempty run of digits up to `maxInt`; -1 for anything else. */
  function Atoi(s: string, maxInt: nat): int {
    if s == [] || !AllDigits(s) || Decimal(s) > maxInt then -1 else Decimal(s)
  }

  function DigitChar(v: nat): (c: char)
    requires v < 10
    ensures IsDigit(c) && c as int - '0' as int == v
  {
    ('0' as int + v) as char
  }

  function Dec(n: nat): (s: string)
    ensures s != [] && AllDigits(s)
  {
    if n < 10 then [DigitChar(n)] else Dec(n / 10) + [DigitChar(n % 10)]
  }

  lemma {:induction false} DecRoundTrip(n: nat)
    ensures Decimal(Dec(n)) == n
  {
    if n >= 10 {
      var p := Dec(n / 10);
      DecRoundTrip(n / 10);
      assert (p + [DigitChar(n % 10)])[..|p|] == p;
    }
  }

  lemma DecReads(n: nat, maxInt: nat)
    requires n <= maxInt
    ensures Atoi(Dec(n), maxInt) == n
    ensures forall c :: c in Dec(n) ==> IsDigit(c)
  {
    DecRoundTrip(n);
  }

  lemma DecInjective(m: nat, n: nat)
    requires Dec(m) == Dec(n)
    ensures m == n
  {
    DecRoundTrip(m);
    DecRoundTrip(n);
  }

  /** A number below 10^k takes at most k digits, and no other does. */
  lemma {:induction false} DecLength(n: nat, k: nat)
    requires k > 0
    ensures |Dec(n)| <= k <==> n < Power10(k)
  {
    if n >= 10 && k > 1 {
      DecLength(n / 10, k - 1);
    }
  }
}
