/** The bypass cookie of the proof of work: issuing, checking, and what its messages keep apart. */
module PowCookie {
  import HexText
  import opened Options
  import opened PowDifficulty
  import opened Powers
  import opened Text

  const HEXLEN: nat := 2 * DIGEST_LEN
  const NONCE_MAX: nat := 64
  const TIME_LEN: nat := 20
  const NAME := "__sentinel_pow="
  const ATTRIBUTES := "; Path=/; Max-Age="
  const TAIL := "; HttpOnly"

  /** The peer: network-order address bytes, or an address text for other sockets. */
  datatype Peer = V4(bytes: string) | V6(bytes: string) | Other(bytes: string)

  /** A location's settings, with the keyed digest and the digest as parameters. */
  datatype Conf = Conf(enabled: bool, secret: string, ttl: int, difficulty: int,
                       hmac: (string, string) -> Digest, sha: string -> Digest)

  datatype CookieCheck = Valid | Absent | Invalid

  datatype PowState = Off | Verified | Challenge

  predicate Inet(a: Peer) {
    (a.V4? ==> |a.bytes| == 4) && (a.V6? ==> |a.bytes| == 16) && !a.Other?
  }

  predicate Usable(a: Peer) {
    0 < |a.bytes| <= 16
  }

  function Ttl(c: Conf): (t: int)
    ensures t >= 1
  {
    if c.ttl > 0 then c.ttl else 1
  }

  /** When a cookie issued now runs out. */
  function Expiry(c: Conf, now: nat): (t: nat)
    ensures t > now
  {
    now + Ttl(c)
  }

  // ---- Digests as text ----

  function Hex(d: seq<Byte>): (s: string)
    ensures |s| == 2 * |d|
  {
    if d == [] then []
    else Hex(d[..|d| - 1]) + [HexText.CHARS[d[|d| - 1] / 16], HexText.CHARS[d[|d| - 1] % 16]]
  }

  lemma HexCharInjective(x: nat, y: nat)
    requires x < 16 && y < 16 && HexText.CHARS[x] == HexText.CHARS[y]
    ensures x == y
  {
  }

  /** Equal texts are equal digests, so comparing texts compares digests. */
  lemma {:induction false} HexInjective(d: seq<Byte>, e: seq<Byte>)
    requires Hex(d) == Hex(e)
    ensures d == e
  {
    if d != [] {
      var n := |d| - 1;
      assert Hex(d)[..2 * n] == Hex(d[..n]) && Hex(e)[..2 * n] == Hex(e[..n]);
      HexInjective(d[..n], e[..n]);
      assert Hex(d)[2 * n] == Hex(e)[2 * n] && Hex(d)[2 * n + 1] == Hex(e)[2 * n + 1];
      HexCharInjective(d[n] / 16, e[n] / 16);
      HexCharInjective(d[n] % 16, e[n] % 16);
      assert d[n] == e[n];
      assert d == d[..n] + [d[n]] && e == e[..n] + [e[n]];
    }
  }

  /** Writes two digits a byte into the buffer. */
  method PutHex(dst: array<char>, src: seq<Byte>)
    requires dst.Length >= 2 * |src|
    modifies dst
    ensures dst[..2 * |src|] == Hex(src) && dst[2 * |src|..] == old(dst[2 * |src|..])
  {
    for i := 0 to |src|
      invariant dst[..2 * i] == Hex(src[..i]) && dst[2 * i..] == old(dst[2 * i..])
    {
      assert src[..i + 1][..i] == src[..i];
      dst[2 * i] := HexText.CHARS[src[i] / 16];
      dst[2 * i + 1] := HexText.CHARS[src[i] % 16];
      assert dst[..2 * (i + 1)] == dst[..2 * i] + [dst[2 * i], dst[2 * i + 1]];
    }
    assert src[..|src|] == src;
  }

  // ---- The authenticated message ----

  function Msg(a: Peer, n: nat): string {
    a.bytes + Dec(n)
  }

  /** The keyed digest as text; a peer without a usable address has none. */
  function Mac(c: Conf, a: Peer, n: nat): Option<string> {
    if Usable(a) then Some(Hex(c.hmac(c.secret, Msg(a, n)))) else None
  }

  lemma TwelveDigits(n: nat)
    ensures n < 1_000_000_000_000 <==> |Dec(n)| <= 12
    ensures n < 10_000_000_000_000 <==> |Dec(n)| <= 13
  {
    assert Power10(4) == 10_000;
    assert Power10(8) == 100_000_000;
    assert Power10(12) == 1_000_000_000_000;
    DecLength(n, 12);
    DecLength(n, 13);
  }

  /** For times below 10^12 the message tells the address and the time. */
  lemma MessageInjective(a: Peer, b: Peer, m: nat, n: nat)
    requires Inet(a) && Inet(b) && m < 1_000_000_000_000 && n < 1_000_000_000_000
    requires Msg(a, m) == Msg(b, n)
    ensures a == b && m == n
  {
    TwelveDigits(m);
    TwelveDigits(n);
    var s := Msg(a, m);
    assert |s| <= 16 <==> a.V4?;
    assert |s| <= 16 <==> b.V4?;
    assert a.bytes == s[..|a.bytes|] && b.bytes == s[..|b.bytes|];
    assert Dec(m) == s[|a.bytes|..] && Dec(n) == s[|b.bytes|..];
    DecInjective(m, n);
  }

  /** The bound is exact: a 13-digit time under a short address reads as a long address and one digit. */
  lemma MessageBoundIsExact(a: Peer, m: nat) returns (b: Peer, n: nat)
    requires Inet(a) && a.V4? && 1_000_000_000_000 <= m < 10_000_000_000_000
    ensures Inet(b) && b.V6? && n < 10 && Msg(a, m) == Msg(b, n)
  {
    TwelveDigits(m);
    var s := Dec(m);
    assert |s| == 13;
    b, n := V6(a.bytes + s[..12]), m % 10;
    assert s[12..] == [DigitChar(n)];
    assert Msg(b, n) == a.bytes + s[..12] + s[12..];
    assert s[..12] + s[12..] == s;
  }

  /** What a challenge authenticates is never what an unexpired cookie authenticates. */
  lemma ChallengeIsNoCookie(c: Conf, a: Peer, b: Peer, issued: nat, later: nat, expiry: nat)
    requires Inet(a) && Inet(b) && issued <= later < expiry < 1_000_000_000_000
    ensures Msg(a, Bucket(c, issued)) != Msg(b, expiry)
  {
    var bucket := Bucket(c, issued);
    assert bucket <= issued;
    if Msg(a, bucket) == Msg(b, expiry) {
      MessageInjective(a, b, bucket, expiry);
    }
  }

  // ---- Cookies ----

  /** The cookie is digits, a dot and the digest text of an expiry still to come. */
  ghost predicate Accepts(c: Conf, a: Peer, val: string, now: int, maxTime: nat) {
    exists d, m :: IsCookie(val, d, m) && Atoi(d, maxTime) > now && Atoi(d, maxTime) >= 0
                   && Mac(c, a, Atoi(d, maxTime)) == Some(m)
  }

  predicate IsCookie(val: string, digits: string, mac: string) {
    val == digits + "." + mac && '.' !in digits && |mac| == HEXLEN
  }

  /** A cookie has one reading: it is cut at its first dot. */
  lemma OneReading(val: string, d: string, m: string)
    requires IsCookie(val, d, m)
    ensures Find(val, '.') == |d| && |val| == |d| + 1 + HEXLEN
    ensures val[..|d|] == d && val[|d| + 1..] == m
  {
    SplitAt(d, '.', m);
  }

  lemma OnlyReading(val: string, d: string, m: string)
    requires IsCookie(val, d, m)
    ensures forall e, n :: IsCookie(val, e, n) ==> e == d && n == m
  {
    hide IsCookie, Find;
    OneReading(val, d, m);
    forall e, n | IsCookie(val, e, n) ensures e == d && n == m {
      OneReading(val, e, n);
    }
  }

  lemma IsReading(d: string, m: string)
    requires '.' !in d && |m| == HEXLEN
    ensures IsCookie(d + "." + m, d, m)
  {
  }

  lemma CutAtDot(val: string, i: nat)
    requires i == Find(val, '.') && i < |val| && |val| - i - 1 == HEXLEN
    ensures IsCookie(val, val[..i], val[i + 1..])
  {
    hide Find;
    assert val == val[..i] + "." + val[i + 1..];
  }

  lemma NoReading(val: string)
    requires Find(val, '.') == |val| || |val| - Find(val, '.') - 1 != HEXLEN
    ensures forall d, m :: !IsCookie(val, d, m)
  {
    hide IsCookie, Find;
    forall d, m | IsCookie(val, d, m) ensures false {
      OneReading(val, d, m);
    }
  }

  method CheckCookie(c: Conf, a: Peer, val: string, now: nat, maxTime: nat) returns (r: CookieCheck)
    ensures r.Absent? <==> val == []
    ensures r.Valid? <==> Accepts(c, a, val, now, maxTime)
  {
    hide Find, Hex, Atoi, IsCookie;
    if val == [] {
      NoCookie(c, a, now, maxTime);
      return Absent;
    }
    if |val| <= HEXLEN + 1 {
      ShortCookie(c, a, val, now, maxTime);
      return Invalid;
    }
    var dot := Find(val, '.');
    if dot == |val| || |val| - dot - 1 != HEXLEN {
      NoReading(val);
      return Invalid;
    }
    var d, m := val[..dot], val[dot + 1..];
    CutAtDot(val, dot);
    OnlyReading(val, d, m);
    var expiry := Atoi(d, maxTime);
    if expiry == -1 || expiry <= now {
      return Invalid;
    }
    var want := Mac(c, a, expiry);
    if want.None? || m != want.value {
      return Invalid;
    }
    return Valid;
  }

  /** A value too short to hold a digit, the dot and a digest is never accepted. */
  lemma ShortCookie(c: Conf, a: Peer, val: string, now: int, maxTime: nat)
    requires |val| <= HEXLEN + 1
    ensures !Accepts(c, a, val, now, maxTime) || now < -1
  {
    hide Hex;
    forall d, m | IsCookie(val, d, m) ensures Atoi(d, maxTime) == -1 {
      assert d == [];
    }
  }

  lemma NoCookie(c: Conf, a: Peer, now: int, maxTime: nat)
    ensures !Accepts(c, a, [], now, maxTime)
  {
    hide Hex, Atoi;
  }

  function CookieText(c: Conf, a: Peer, expiry: nat): string
    requires Usable(a)
  {
    Dec(expiry) + "." + Hex(c.hmac(c.secret, Msg(a, expiry)))
  }

  /** A cookie issued to one peer is taken from another exactly when it still runs and their digests agree. */
  lemma CookieIsBound(c: Conf, a: Peer, b: Peer, expiry: nat, now: int, maxTime: nat)
    requires Inet(a) && Inet(b) && expiry <= maxTime
    ensures Accepts(c, b, CookieText(c, a, expiry), now, maxTime)
            <==> now < expiry && c.hmac(c.secret, Msg(a, expiry)) == c.hmac(c.secret, Msg(b, expiry))
    ensures expiry < 1_000_000_000_000 ==> (Msg(a, expiry) == Msg(b, expiry) <==> a == b)
  {
    hide Hex, Atoi;
    IssuedIsAccepted(c, a, b, expiry, now, maxTime);
    if expiry < 1_000_000_000_000 && Msg(a, expiry) == Msg(b, expiry) {
      MessageInjective(a, b, expiry, expiry);
    }
  }

  lemma IssuedIsAccepted(c: Conf, a: Peer, b: Peer, expiry: nat, now: int, maxTime: nat)
    requires Usable(a) && Usable(b) && expiry <= maxTime
    ensures Accepts(c, b, CookieText(c, a, expiry), now, maxTime)
            <==> now < expiry && c.hmac(c.secret, Msg(a, expiry)) == c.hmac(c.secret, Msg(b, expiry))
  {
    hide Hex, Atoi, IsCookie, Msg;
    var d, m := Dec(expiry), Hex(c.hmac(c.secret, Msg(a, expiry)));
    DecReads(expiry, maxTime);
    assert '.' !in d;
    IsReading(d, m);
    OnlyReading(d + "." + m, d, m);
    if Hex(c.hmac(c.secret, Msg(a, expiry))) == Hex(c.hmac(c.secret, Msg(b, expiry))) {
      HexInjective(c.hmac(c.secret, Msg(a, expiry)), c.hmac(c.secret, Msg(b, expiry)));
    }
  }

  lemma IssuedLasts(c: Conf, a: Peer, expiry: nat, maxTime: nat)
    requires Usable(a) && expiry <= maxTime
    ensures forall t: int :: Accepts(c, a, CookieText(c, a, expiry), t, maxTime) <==> t < expiry
  {
    hide Accepts, CookieText;
    forall t: int ensures Accepts(c, a, CookieText(c, a, expiry), t, maxTime) <==> t < expiry {
      IssuedIsAccepted(c, a, a, expiry, t, maxTime);
    }
  }

  function SetCookieText(c: Conf, a: Peer, expiry: nat): string
    requires Usable(a)
  {
    NAME + CookieText(c, a, expiry) + ATTRIBUTES + Dec(Ttl(c)) + TAIL
  }

  lemma TimeFits(n: nat)
    requires n < 0x8000_0000_0000_0000
    ensures |Dec(n)| <= TIME_LEN
  {
    assert Power10(4) == 10_000;
    assert Power10(8) == 100_000_000;
    assert Power10(12) == 1_000_000_000_000;
    assert Power10(16) == 1_0000_0000_0000_0000;
    assert Power10(20) == 1_0000_0000_0000_0000_0000;
    DecLength(n, 20);
  }

  /**
   Issues a cookie good for the location's lifetime: the same peer's checks take
   it at every time before the expiry and at none from then on. The header fits
   the buffer allocated for it.
   */
  method SetCookie(c: Conf, a: Peer, now: nat, maxTime: nat, room: bool) returns (header: Option<string>)
    requires Expiry(c, now) <= maxTime < 0x8000_0000_0000_0000
    ensures header.Some? <==> Usable(a) && room
    ensures header.Some? ==> header.value == SetCookieText(c, a, Expiry(c, now))
    ensures header.Some? ==>
              forall t: int :: Accepts(c, a, CookieText(c, a, Expiry(c, now)), t, maxTime) <==> t < Expiry(c, now)
    ensures header.Some? ==> |header.value| <= |NAME| + TIME_LEN + 1 + HEXLEN + |ATTRIBUTES + TAIL| + TIME_LEN
  {
    hide Hex, Dec, Accepts, Msg;
    var expiry := Expiry(c, now);
    var mac := Mac(c, a, expiry);
    if mac.None? || !room {
      return None;
    }
    TimeFits(expiry);
    TimeFits(Ttl(c));
    IssuedLasts(c, a, expiry, maxTime);
    header := Some(NAME + (Dec(expiry) + "." + mac.value) + ATTRIBUTES + Dec(Ttl(c)) + TAIL);
  }

  function Bucket(c: Conf, now: nat): nat {
    now / Ttl(c)
  }

  /** The nonce solves the challenge of this peer and time bucket. */
  predicate Solved(c: Conf, a: Peer, nonce: string, now: nat)
    requires Usable(a)
  {
    0 < |nonce| <= NONCE_MAX && MeetsTarget(c.sha(Hex(c.hmac(c.secret, Msg(a, Bucket(c, now)))) + nonce), c.difficulty)
  }

  method CheckWork(c: Conf, a: Peer, challenge: string, nonce: string, now: nat) returns (ok: bool)
    requires Usable(a) && Mac(c, a, Bucket(c, now)) == Some(challenge)
    ensures ok <==> Solved(c, a, nonce, now)
  {
    hide Hex, Msg, MeetsTarget, Bucket;
    if nonce == [] || |nonce| > NONCE_MAX {
      return false;
    }
    var digest := c.sha(challenge + nonce);
    ok := MeetsDifficulty(digest, c.difficulty);
  }

  /**
   The challenge step: a request passes as verified exactly with a live cookie
   or with work done for its own challenge. A bad cookie is as good as none.
   */
  method Dispatch(c: Conf, a: Peer, val: string, nonce: string, now: nat, maxTime: nat, room: bool)
      returns (state: PowState, header: Option<string>)
    requires Expiry(c, now) <= maxTime < 0x8000_0000_0000_0000
    ensures !c.enabled || c.secret == [] ==> state.Off? && header.None?
    ensures c.enabled && c.secret != [] ==>
              (state.Verified? <==> Accepts(c, a, val, now, maxTime) || (Usable(a) && Solved(c, a, nonce, now)))
    ensures c.enabled && c.secret != [] ==>
              (state.Off? <==> !Usable(a))
    ensures header.Some? <==> state.Verified? && !Accepts(c, a, val, now, maxTime) && room
    ensures header.Some? ==> Usable(a) && header.value == SetCookieText(c, a, Expiry(c, now))
  {
    hide Hex, Accepts, Msg, Solved, SetCookieText, CookieText, Bucket;
    header := None;
    if !c.enabled || c.secret == [] {
      return Off, None;
    }
    OnlyWithAddress(c, a, val, now, maxTime);
    var check := CheckCookie(c, a, val, now, maxTime);
    if check.Valid? {
      return Verified, None;
    }
    var challenge := Mac(c, a, Bucket(c, now));
    if challenge.None? {
      return Off, None;
    }
    var solved := CheckWork(c, a, challenge.value, nonce, now);
    if solved {
      header := SetCookie(c, a, now, maxTime, room);
      return Verified, header;
    }
    return Challenge, None;
  }

  lemma OnlyWithAddress(c: Conf, a: Peer, val: string, now: int, maxTime: nat)
    ensures Accepts(c, a, val, now, maxTime) ==> Usable(a)
  {
    hide Hex, Atoi, IsCookie;
  }
}
