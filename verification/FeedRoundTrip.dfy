/** Printing decisions as a feed and reading it back; tampering with one byte. */
module FeedRoundTrip {
  import opened Actions
  import opened FeedFormat
  import opened Crc32
  import opened HexText
  import opened Text

  /** A decision as its publisher writes it. */
  datatype Listed = Listed(ip: string, action: nat, expiry: nat)

  function LineText(d: Listed): string {
    d.ip + " " + ActionText(d.action) + " " + Dec(d.expiry)
  }

  /** The comment lines, then the decision lines. */
  function BodyText(comments: seq<string>, ds: seq<Listed>): string
    decreases |comments| + |ds|
  {
    if comments != [] then comments[0] + "\n" + BodyText(comments[1..], ds)
    else if ds != [] then LineText(ds[0]) + "\n" + BodyText([], ds[1..])
    else []
  }

  function TrailerText(count: nat, crc: bv32): string {
    EOF + Dec(count) + " " + Hex8(crc)
  }

  function FeedText(comments: seq<string>, ds: seq<Listed>): string {
    HEADER + "\n" + BodyText(comments, ds) + TrailerText(|ds|, Crc(BodyText(comments, ds))) + "\n"
  }

  predicate IsComment(line: string) {
    line != [] && line[0] == '#' && '\n' !in line
  }

  /** The address is one the reader accepts, written without separators. */
  predicate Publishable(d: Listed, env: Env) {
    && d.ip != [] && d.ip[0] != '#' && d.ip[0] != '%'
    && ' ' !in d.ip && '\n' !in d.ip && CanonIp(d.ip, env) != []
    && 1 <= d.action <= 3 && d.expiry <= env.maxInt
  }

  function Read(d: Listed, env: Env): Decision {
    Decision(CanonIp(d.ip, env), d.action, d.expiry)
  }

  function ReadAll(ds: seq<Listed>, env: Env): (r: seq<Decision>)
    ensures |r| == |ds| && forall i :: 0 <= i < |ds| ==> r[i] == Read(ds[i], env)
  {
    if ds == [] then [] else [Read(ds[0], env)] + ReadAll(ds[1..], env)
  }

  // ---- One line ----

  lemma FieldsRead(ip: string, action: string, expiry: string, env: Env)
    requires ' ' !in ip && ' ' !in action && expiry != []
    ensures Fields(ip + " " + action + " " + expiry, env) ==
      if CanonIp(ip, env) == [] || Action(action) == 0 || Atoi(expiry, env.maxInt) < 0 then Malformed
      else Live(Decision(CanonIp(ip, env), Action(action), Atoi(expiry, env.maxInt)))
  {
    hide CanonIp, Action, Atoi, Find;
    assert ip + " " + action + " " + expiry == ip + " " + (action + " " + expiry);
    SplitAt(ip, ' ', action + " " + expiry);
    SplitAt(action, ' ', expiry);
  }

  lemma LineReads(d: Listed, env: Env)
    requires Publishable(d, env)
    ensures Classify(LineText(d), env) == Live(Read(d, env))
    ensures '\n' !in LineText(d) && LineText(d) != [] && LineText(d)[0] != '%'
  {
    hide Dec, CanonIp, Atoi, Fields;
    var line, e := LineText(d), Dec(d.expiry);
    DecReads(d.expiry, env.maxInt);
    assert line[0] == d.ip[0] && line[|line| - 1] == e[|e| - 1] && e[|e| - 1] in e;
    assert StripReturn(line) == line;
    FieldsRead(d.ip, ActionText(d.action), e, env);
  }

  // ---- Lines ----

  lemma FirstLine(line: string, rest: string, env: Env)
    requires '\n' !in line
    ensures Classified(line + "\n" + rest, env) == [Classify(line, env)] + Classified(rest, env)
    ensures line != [] && line[0] != '%' && TrailerAt(rest) >= 0 ==>
      TrailerAt(line + "\n" + rest) == |line| + 1 + TrailerAt(rest)
  {
    var s := line + "\n" + rest;
    FindIs(s, |line|, '\n');
    assert s[..|line|] == line && s[|line| + 1..] == rest;
    if line != [] && line[0] != '%' {
      assert s[0] == line[0] && EOF[0] == '%';
    }
  }

  // ---- The file ----

  lemma OneMore(line: Line, lines: seq<Line>)
    ensures Decisions([line] + lines) == (if line.Live? then [line.decision] else []) + Decisions(lines)
    ensures Bad([line] + lines) == (if line.Malformed? then 1 else 0) + Bad(lines)
  {
    assert ([line] + lines)[1..] == lines;
  }

  /** What one line in front adds to the decisions, the malformed lines and the place of the trailer. */
  lemma LineInFront(line: string, rest: string, tail: string, env: Env)
    requires '\n' !in line && line != [] && line[0] != '%' && TrailerAt(rest + tail) == |rest|
    ensures var body := line + "\n" + rest; var l := Classify(line, env);
      && Decisions(Classified(body, env)) == (if l.Live? then [l.decision] else []) + Decisions(Classified(rest, env))
      && Bad(Classified(body, env)) == (if l.Malformed? then 1 else 0) + Bad(Classified(rest, env))
      && TrailerAt(body + tail) == |body|
  {
    hide Classify, Classified, Decisions, Bad, TrailerAt;
    FirstLine(line, rest, env);
    FirstLine(line, rest + tail, env);
    OneMore(Classify(line, env), Classified(rest, env));
    assert line + "\n" + rest + tail == line + "\n" + (rest + tail);
  }

  lemma {:induction false} BodyReads(comments: seq<string>, ds: seq<Listed>, tail: string, env: Env)
    requires forall c :: c in comments ==> IsComment(c)
    requires forall d :: d in ds ==> Publishable(d, env)
    requires TrailerAt(tail) == 0
    ensures var body := BodyText(comments, ds);
      && Decisions(Classified(body, env)) == ReadAll(ds, env) && Bad(Classified(body, env)) == 0
      && TrailerAt(body + tail) == |body|
    decreases |comments| + |ds|
  {
    hide Publishable, LineText, Classify, Classified, Decisions, Bad, TrailerAt;
    if comments != [] {
      CommentIsBlank(comments[0], env);
      BodyReads(comments[1..], ds, tail, env);
      LineInFront(comments[0], BodyText(comments[1..], ds), tail, env);
    } else if ds != [] {
      LineReads(ds[0], env);
      BodyReads([], ds[1..], tail, env);
      LineInFront(LineText(ds[0]), BodyText([], ds[1..]), tail, env);
    } else {
      NoLines(env);
      assert BodyText(comments, ds) + tail == tail;
    }
  }

  lemma NoLines(env: Env)
    ensures Classified([], env) == [] && Decisions([]) == [] && Bad([]) == 0
  {
  }

  lemma CommentIsBlank(line: string, env: Env)
    requires IsComment(line)
    ensures Classify(line, env) == Blank && line[0] != '%'
  {
  }

  lemma TrailerReads(count: nat, crc: bv32, maxInt: nat, env: Env)
    requires count <= maxInt
    ensures var s := TrailerText(count, crc) + "\n";
      TrailerAt(s) == 0 && CheckTrailer(TrailerLine(s), count, crc, maxInt)
  {
    hide HexBits;
    var t := TrailerText(count, crc);
    var s := t + "\n";
    var h := Hex8(crc);
    assert '\n' !in t by { hide Hex8, Dec; assert '\n' !in h && '\n' !in Dec(count) && '\n' !in EOF; }
    FindIs(s, |t|, '\n');
    assert s[..|t|] == t && s[..6] == EOF;
    assert t[|t| - 1] == h[7] && h[7] in h;
    assert ' ' !in Dec(count);
    assert IsTrailer(t, Dec(count), h);
    DecRoundTrip(count);
    Hex8RoundTrip(crc);
    TrailerFields(t, Dec(count), h, count, crc, maxInt);
  }

  /** A file whose first trailer line starts right behind `body`. */
  predicate HasBody(data: string, body: string, tail: string) {
    data == HEADER + "\n" + body + tail && TrailerAt(body + tail) == |body|
  }

  /** The verdict on such a file. */
  lemma BodyDecides(data: string, body: string, tail: string, env: Env)
    requires HasBody(data, body, tail)
    ensures var lines := Classified(body, env);
      Checked(data, env)
      == if !CheckTrailer(TrailerLine(tail), |Decisions(lines)|, Crc(body), env.maxInt) then Declined
         else if Bad(lines) > 0 && Bad(lines) * MALFORMED_DENOM > |Decisions(lines)| + Bad(lines) then Declined
         else Accepted(body)
  {
    hide Classified, Decisions, Bad, Crc, TrailerAt, CheckTrailer, TrailerLine;
    assert data == HEADER + "\n" + (body + tail);
    assert '\n' !in HEADER;
    FindIs(data, |HEADER|, '\n');
    assert data[..|HEADER|] == HEADER && data[|HEADER| + 1..] == body + tail;
    assert (body + tail)[..|body|] == body && (body + tail)[|body|..] == tail;
  }

  /** Printing any decisions and parsing them yields exactly those, in order, none malformed. */
  lemma FeedRoundTrips(comments: seq<string>, ds: seq<Listed>, env: Env)
    requires forall c :: c in comments ==> IsComment(c)
    requires forall d :: d in ds ==> Publishable(d, env)
    requires |ds| <= env.maxInt
    ensures var body := BodyText(comments, ds);
      && Checked(FeedText(comments, ds), env) == Accepted(body)
      && Decisions(Classified(body, env)) == ReadAll(ds, env)
      && Bad(Classified(body, env)) == 0
  {
    hide Publishable, Classified, TrailerText, Crc, TrailerAt, CheckTrailer, TrailerLine, BodyText, Checked;
    var body := BodyText(comments, ds);
    var tail := TrailerText(|ds|, Crc(body)) + "\n";
    TrailerReads(|ds|, Crc(body), env.maxInt, env);
    BodyReads(comments, ds, tail, env);
    assert FeedText(comments, ds) == HEADER + "\n" + body + tail;
    BodyDecides(FeedText(comments, ds), body, tail, env);
  }

  // ---- One changed byte ----

  /** An accepted trailer determines the checksum. */
  lemma TrailerFixesCrc(t: string, n: nat, m: nat, x: bv32, y: bv32, maxInt: nat)
    requires CheckTrailer(t, n, x, maxInt) && CheckTrailer(t, m, y, maxInt)
    ensures x == y && n == m
  {
  }

  /** A feed accepted as it is, is rejected when one byte of its body differs. */
  lemma TamperedByteIsRejected(head: string, c: char, d: char, rest: string, tail: string, env: Env)
    requires IsByte(c) && IsByte(d) && c != d
    requires HasBody(HEADER + "\n" + (head + [c] + rest) + tail, head + [c] + rest, tail)
    requires HasBody(HEADER + "\n" + (head + [d] + rest) + tail, head + [d] + rest, tail)
    ensures Checked(HEADER + "\n" + (head + [c] + rest) + tail, env).Accepted?
            ==> Checked(HEADER + "\n" + (head + [d] + rest) + tail, env) == Declined
  {
    hide Checked, HasBody, CheckTrailer, Crc, Classified;
    var a, b := head + [c] + rest, head + [d] + rest;
    BodyDecides(HEADER + "\n" + a + tail, a, tail, env);
    BodyDecides(HEADER + "\n" + b + tail, b, tail, env);
    OneByteChangesCrc(head, c, d, rest);
    if Checked(HEADER + "\n" + a + tail, env).Accepted? && Checked(HEADER + "\n" + b + tail, env).Accepted? {
      TrailerFixesCrc(TrailerLine(tail), |Decisions(Classified(a, env))|, |Decisions(Classified(b, env))|,
                      Crc(a), Crc(b), env.maxInt);
    }
  }
}
