/**
 The decision feed as text: header line, decision lines, and a trailer with the
 number of decisions and the checksum of the lines.
 */
module FeedFormat {
  import opened Actions
  import opened Crc32
  import opened HexText
  import opened Text

  const HEADER := "# sentinel-crowdsec-feed v1"
  const EOF := "%%EOF "
  const MALFORMED_DENOM: nat := 4
  const MAX_TOKEN: nat := 64

  /** What the feed takes from outside: address parsing and the largest integer. */
  datatype Env = Env(inet: string -> string, maxInt: nat)

  /** A decision under the canonical text of its address. */
  datatype Decision = Decision(key: string, action: nat, expiry: nat)

  datatype Line = Blank | Malformed | Live(decision: Decision)

  /** The verdict on a whole file; an accepted one with its decision lines. */
  datatype Verdict = Declined | Accepted(body: string)

  // ---- Lines ----

  /** The canonical address, or nothing for ranges, overlong and bad tokens. */
  function CanonIp(token: string, env: Env): string {
    if |token| == 0 || |token| >= MAX_TOKEN || '/' in token then []
    else env.inet(token)
  }

  function StripReturn(line: string): string {
    if line != [] && line[|line| - 1] == '\r' then line[..|line| - 1] else line
  }

  function Fields(line: string, env: Env): (l: Line)
    ensures !l.Blank?
  {
    var i := Find(line, ' ');
    if i == |line| then Malformed
    else
      var rest := line[i + 1..];
      var j := Find(rest, ' ');
      if j == |rest| || j + 1 == |rest| then Malformed
      else
        var key := CanonIp(line[..i], env);
        var action := Action(rest[..j]);
        var expiry := Atoi(rest[j + 1..], env.maxInt);
        if key == [] || action == 0 || expiry < 0 then Malformed
        else Live(Decision(key, action, expiry))
  }

  function Classify(line: string, env: Env): Line {
    if line == [] || line[0] == '#' || StripReturn(line) == [] then Blank
    else Fields(StripReturn(line), env)
  }

  /** What follows the line that starts `s`. */
  function Rest(s: string): (r: string)
    ensures s != [] ==> |r| < |s|
  {
    var i := Find(s, '\n');
    if i < |s| then s[i + 1..] else []
  }

  function Classified(s: string, env: Env): seq<Line>
    decreases |s|
  {
    if s == [] then [] else [Classify(s[..Find(s, '\n')], env)] + Classified(Rest(s), env)
  }

  /** The decisions among lines, in order. */
  function Decisions(lines: seq<Line>): (d: seq<Decision>)
    ensures |d| <= |lines|
  {
    if lines == [] then []
    else (if lines[0].Live? then [lines[0].decision] else []) + Decisions(lines[1..])
  }

  function Bad(lines: seq<Line>): (n: nat)
    ensures n <= |lines|
  {
    if lines == [] then 0
    else (if lines[0].Malformed? then 1 else 0) + Bad(lines[1..])
  }

  // ---- The file ----

  /** Where the first trailer line starts; -1 if there is none. */
  function TrailerAt(s: string): (t: int)
    ensures -1 <= t <= |s| && (t >= 0 ==> t + 6 <= |s|)
    decreases |s|
  {
    var i := Find(s, '\n');
    if s == [] then -1
    else if i >= 6 && s[..6] == EOF then 0
    else if i == |s| then -1
    else
      var t := TrailerAt(s[i + 1..]);
      if t < 0 then -1 else i + 1 + t
  }

  function CheckTrailer(t: string, count: nat, crc: bv32, maxInt: nat): bool {
    |t| >= 9 && t[..6] == EOF &&
    var r := t[6..];
    var i := Find(r, ' ');
    0 < i < |r| && Atoi(r[..i], maxInt) == count &&
    var h := r[i + 1..];
    h != [] && AllHex(h) && HexBits(h) == crc
  }

  function TrailerLine(s: string): string {
    StripReturn(s[..Find(s, '\n')])
  }

  /** The verdict: nothing is applied unless the whole file checks. */
  function Checked(data: string, env: Env): Verdict {
    var nl := Find(data, '\n');
    if nl == |data| || data[..nl] != HEADER then Declined
    else
      var rest := data[nl + 1..];
      var t := TrailerAt(rest);
      if t < 0 then Declined
      else
        var body := rest[..t];
        var lines := Classified(body, env);
        if !CheckTrailer(TrailerLine(rest[t..]), |Decisions(lines)|, Crc(body), env.maxInt) then Declined
        else if Bad(lines) > 0 && Bad(lines) * MALFORMED_DENOM > |Decisions(lines)| + Bad(lines) then Declined
        else Accepted(body)
  }

  // ---- What the trailer check accepts ----

  lemma FindNone(s: string, c: char)
    requires c !in s
    ensures Find(s, c) == |s|
  {
  }

  /** The count field and the checksum field of a trailer line. */
  predicate IsTrailer(t: string, c: string, h: string) {
    t == EOF + c + " " + h && c != [] && ' ' !in c && h != []
  }

  lemma TrailerFields(t: string, c: string, h: string, count: nat, crc: bv32, maxInt: nat)
    requires IsTrailer(t, c, h)
    ensures CheckTrailer(t, count, crc, maxInt) <==> Atoi(c, maxInt) == count && AllHex(h) && HexBits(h) == crc
  {
    hide HexBits, Atoi, AllHex;
    var r := c + " " + h;
    assert t == EOF + r && t[..6] == EOF && t[6..] == r;
    FindIs(r, |c|, ' ');
    assert r[..|c|] == c && r[|c| + 1..] == h;
  }

  lemma TrailerHasFields(t: string, count: nat, crc: bv32, maxInt: nat)
    requires CheckTrailer(t, count, crc, maxInt)
    ensures exists c, h :: IsTrailer(t, c, h)
  {
    hide HexBits, Atoi, AllHex;
    var r := t[6..];
    var i := Find(r, ' ');
    assert r == r[..i] + " " + r[i + 1..];
    assert IsTrailer(t, r[..i], r[i + 1..]);
  }

  /** Accepted exactly when the count matches and the hex value does, modulo 2^32. */
  lemma TrailerExact(t: string, count: nat, crc: bv32, maxInt: nat)
    ensures CheckTrailer(t, count, crc, maxInt) <==>
      exists c, h :: IsTrailer(t, c, h) && Atoi(c, maxInt) == count
                     && AllHex(h) && HexNumber(h) % 0x1_0000_0000 == Number(crc)
  {
    hide HexBits, HexNumber, Number, Atoi, AllHex, IsTrailer, CheckTrailer;
    forall c, h | IsTrailer(t, c, h)
      ensures CheckTrailer(t, count, crc, maxInt) <==>
        Atoi(c, maxInt) == count && AllHex(h) && HexNumber(h) % 0x1_0000_0000 == Number(crc)
    {
      TrailerFields(t, c, h, count, crc, maxInt);
      if AllHex(h) {
        HexBitsNumber(h);
        if HexNumber(h) % 0x1_0000_0000 == Number(crc) { NumberInjective(HexBits(h), crc); }
      }
    }
    if CheckTrailer(t, count, crc, maxInt) {
      TrailerHasFields(t, count, crc, maxInt);
    }
  }
}
