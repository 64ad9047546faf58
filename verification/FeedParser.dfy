/** The byte scans of the feed loader that run before anything is applied. */
module FeedParser {
  import opened Actions
  import opened FeedFormat
  import opened Crc32
  import opened HexText
  import opened Text

  /** The first space at or after `from`, or the end of the line. */
  method SkipToSpace(line: string, from: nat) returns (e: nat)
    requires from <= |line|
    ensures e == from + Find(line[from..], ' ')
  {
    e := from;
    while e < |line| && line[e] != ' '
      invariant from <= e <= |line|
      invariant forall k :: from <= k < e ==> line[k] != ' '
    {
      e := e + 1;
    }
    if e < |line| {
      FindIs(line[from..], e - from, ' ');
    } else {
      FindNone(line[from..], ' ');
    }
  }

  lemma NextLine(s: string, env: Env)
    requires s != []
    ensures var l := Classify(s[..Find(s, '\n')], env); var ls := Classified(Rest(s), env);
      && Decisions(Classified(s, env)) == (if l.Live? then [l.decision] else []) + Decisions(ls)
      && Bad(Classified(s, env)) == (if l.Malformed? then 1 else 0) + Bad(ls)
  {
    var l, ls := Classify(s[..Find(s, '\n')], env), Classified(Rest(s), env);
    assert ([l] + ls)[1..] == ls;
  }

  /** The counting pass's scan of one line: a decision, or malformed. */
  method CountFields(line: string, env: Env) returns (good: bool)
    ensures good == Fields(line, env).Live?
  {
    hide CanonIp, Action, Atoi, Find;
    var f1end := SkipToSpace(line, 0);
    assert line[0..] == line;
    if f1end >= |line| {
      return false;
    }
    var f2 := f1end + 1;
    var f2end := SkipToSpace(line, f2);
    if f2end >= |line| {
      return false;
    }
    var f3 := f2end + 1;
    if f3 >= |line| {
      return false;
    }
    assert line[f2..][..f2end - f2] == line[f2..f2end] && line[f2..][f2end - f2 + 1..] == line[f3..];
    if CanonIp(line[..f1end], env) == [] {
      return false;
    }
    if Action(line[f2..f2end]) == 0 {
      return false;
    }
    if Atoi(line[f3..], env.maxInt) < 0 {
      return false;
    }
    return true;
  }

  /** The counting pass: how many decision lines, how many malformed ones. */
  method CountPass(body: string, env: Env) returns (count: nat, malformed: nat)
    ensures count == |Decisions(Classified(body, env))| && malformed == Bad(Classified(body, env))
  {
    hide Classified, Decisions, Bad, Fields, Find;
    count, malformed := 0, 0;
    var p := body;
    while p != []
      invariant count + |Decisions(Classified(p, env))| == |Decisions(Classified(body, env))|
      invariant malformed + Bad(Classified(p, env)) == Bad(Classified(body, env))
      decreases |p|
    {
      NextLine(p, env);
      var nl := Find(p, '\n');
      var line := p[..nl];
      p := if nl < |p| then p[nl + 1..] else [];
      if |line| == 0 || line[0] == '#' {
        continue;
      }
      if line[|line| - 1] == '\r' {
        line := line[..|line| - 1];
      }
      if |line| == 0 {
        continue;
      }
      var good := CountFields(line, env);
      if good {
        count := count + 1;
      } else {
        malformed := malformed + 1;
      }
    }
    NoLine(env);
  }

  lemma NoLine(env: Env)
    ensures Decisions(Classified([], env)) == [] && Bad(Classified([], env)) == 0
  {
  }

  lemma NextTrailer(s: string)
    requires s != []
    ensures TrailerAt(s) ==
      var i := Find(s, '\n');
      if i >= 6 && s[..6] == EOF then 0
      else if i == |s| then -1
      else var t := TrailerAt(s[i + 1..]); if t < 0 then -1 else i + 1 + t
  {
    hide Find;
  }

  /** The search for the first trailer line. */
  method LocateTrailer(rest: string) returns (trailer: int)
    ensures trailer == TrailerAt(rest)
  {
    hide TrailerAt, Find;
    var q := 0;
    while q < |rest|
      invariant 0 <= q <= |rest|
      invariant TrailerAt(rest) == if TrailerAt(rest[q..]) < 0 then -1 else q + TrailerAt(rest[q..])
      decreases |rest| - q
    {
      NextTrailer(rest[q..]);
      var ll := Find(rest[q..], '\n');
      if ll >= 6 && rest[q..][..6] == EOF {
        return q;
      }
      if ll == |rest| - q {
        return -1;
      }
      assert rest[q..][ll + 1..] == rest[q + ll + 1..];
      q := q + ll + 1;
    }
    NoTrailer(rest[q..]);
    return -1;
  }

  lemma NoTrailer(s: string)
    ensures s == [] ==> TrailerAt(s) == -1
  {
  }

  lemma HexNext(s: string, i: nat)
    requires i < |s| && AllHex(s[..i])
    ensures AllHex(s[..i + 1]) <==> IsHex(s[i])
    ensures IsHex(s[i]) ==> HexBits(s[..i + 1]) == Push4(HexBits(s[..i]), Bits4(DigitValue(s[i])))
    ensures !IsHex(s[i]) ==> !AllHex(s)
  {
    assert s[..i + 1] == s[..i] + [s[i]] && s[..i + 1][..i] == s[..i];
    assert s[i] in s;
  }

  /** The trailer check, byte by byte. */
  method CheckTrailerBytes(trailer: string, count: nat, crc: bv32, maxInt: nat) returns (ok: bool)
    ensures ok == CheckTrailer(trailer, count, crc, maxInt)
  {
    hide HexBits, AllHex, Push4, Bits4, DigitValue, IsHex, Atoi, Find;
    if |trailer| < 9 || trailer[..6] != EOF {
      return false;
    }
    var p := SkipToSpace(trailer, 6);
    var field := trailer[6..p];
    assert trailer[6..][..p - 6] == field;
    if p == 6 || p >= |trailer| {
      return false;
    }
    var n := Atoi(field, maxInt);
    if n < 0 || n != count {
      return false;
    }
    p := p + 1;
    var hex := trailer[p..];
    assert trailer[6..][p - 6..] == hex;
    if |hex| == 0 {
      return false;
    }
    var fileCrc: bv32 := 0;
    NoHex(hex);
    for i := 0 to |hex|
      invariant AllHex(hex[..i]) && fileCrc == HexBits(hex[..i])
    {
      HexNext(hex, i);
      if !IsHex(hex[i]) {
        return false;
      }
      fileCrc := Push4(fileCrc, Bits4(DigitValue(hex[i])));
    }
    assert hex[..|hex|] == hex;
    return fileCrc == crc;
  }

  lemma NoHex(s: string)
    ensures AllHex(s[..0]) && HexBits(s[..0]) == 0
  {
  }

  /** Everything the loader checks before it touches the table. */
  method Validate(data: string, env: Env) returns (verdict: Verdict)
    ensures verdict == Checked(data, env)
    ensures verdict.Accepted? ==> 4 * Bad(Classified(verdict.body, env))
                                  <= |Decisions(Classified(verdict.body, env))| + Bad(Classified(verdict.body, env))
  {
    hide Classified, Decisions, Bad, Crc, TrailerAt, CheckTrailer, Find;
    if |data| == 0 {
      return Declined;
    }
    var nl := Find(data, '\n');
    if nl != |HEADER| || data[..nl] != HEADER {
      return Declined;
    }
    if nl == |data| {
      return Declined;
    }
    var rest := data[nl + 1..];
    var trailer := LocateTrailer(rest);
    if trailer < 0 {
      return Declined;
    }
    var body := rest[..trailer];
    var crc := CrcLong(body);
    var count, malformed := CountPass(body, env);
    var te := Find(rest[trailer..], '\n');
    var line := rest[trailer..][..te];
    if |line| > 0 && line[|line| - 1] == '\r' {
      line := line[..|line| - 1];
    }
    var ok := CheckTrailerBytes(line, count, crc, env.maxInt);
    if !ok {
      return Declined;
    }
    if malformed > 0 && malformed * MALFORMED_DENOM > count + malformed {
      return Declined;
    }
    return Accepted(body);
  }
}
