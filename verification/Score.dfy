/** The weighted score of a request and its verdict. */
module Score {

  const SCORE_MAX: int := 100000
  const CS_CAPTCHA: nat := 2
  const CS_THROTTLE: nat := 3

  datatype Inputs = Inputs(
    errrateCount: nat, errrateBlocked: bool, scannerPath: bool, botUa: bool, headerAnomaly: bool,
    honeypot: bool, velocityExceeded: bool, datacenterAsn: bool, c2ipFlagged: bool, ja3Flagged: bool,
    ja4Flagged: bool, ja4tFlagged: bool, uaIncoherent: bool, crowdsecHit: bool, crowdsecAction: nat,
    knownGoodUa: bool, fcrdnsSpoofed: bool, allowlisted: bool)

  datatype Weights = Weights(
    errrate: int, blocked: int, scanner: int, bot: int, header: int, honeypot: int, velocity: int,
    asn: int, c2ip: int, ja3: int, ja4: int, ja4t: int, coherence: int, crowdsec: int)

  datatype Thresholds = Thresholds(challenge: int, tarpit: int, block: int)

  datatype Verdict = Allow | Challenge | Tarpit | Block

  /** A search engine or a trusted range, and no CrowdSec ban against it. */
  predicate Excused(i: Inputs) {
    && !i.crowdsecHit
    && ((i.knownGoodUa && !i.fcrdnsSpoofed) || i.allowlisted)
  }

  function CrowdsecTerm(action: nat, weight: int): int {
    if weight <= 0 then 0
    else if action == CS_CAPTCHA then weight * 40 / 100
    else if action == CS_THROTTLE then weight * 65 / 100
    else weight
  }

  function Flag(on: bool, weight: int): nat {
    if on then Positive(weight) else 0
  }

  function Positive(term: int): nat {
    if term > 0 then term else 0
  }

  function Errors(i: Inputs, w: Weights): nat {
    if w.errrate > 0 then
      assert w.errrate * i.errrateCount >= 0;
      w.errrate * i.errrateCount
    else 0
  }

  /** What the identity did. */
  function Conduct(i: Inputs, w: Weights): nat {
    Errors(i, w) + Flag(i.errrateBlocked, w.blocked) + Flag(i.scannerPath, w.scanner) + Flag(i.botUa, w.bot)
    + Flag(i.headerAnomaly, w.header) + Flag(i.honeypot, w.honeypot) + Flag(i.velocityExceeded, w.velocity)
  }

  /** Where it comes from and what it looks like. */
  function Origin(i: Inputs, w: Weights): nat {
    Flag(i.datacenterAsn, w.asn) + Flag(i.c2ipFlagged, w.c2ip) + Flag(i.ja3Flagged, w.ja3)
    + Flag(i.ja4Flagged, w.ja4) + Flag(i.ja4tFlagged, w.ja4t) + Flag(i.uaIncoherent, w.coherence)
    + Flag(i.crowdsecHit, CrowdsecTerm(i.crowdsecAction, w.crowdsec))
  }

  /** The exact sum of the positive contributions. */
  function Total(i: Inputs, w: Weights): nat {
    Conduct(i, w) + Origin(i, w)
  }

  function Clamp(t: int): int {
    if t > SCORE_MAX then SCORE_MAX else t
  }

  function ScoreOf(i: Inputs, w: Weights): int {
    if Excused(i) then 0 else Clamp(Total(i, w))
  }

  function ToVerdict(score: int, thr: Thresholds): Verdict {
    if score >= thr.block then Block
    else if score >= thr.tarpit then Tarpit
    else if score >= thr.challenge then Challenge
    else Allow
  }

  /** Saturating addition; anything not positive is ignored. */
  method ScoreAdd(acc: int, term: int, ghost sum: int) returns (r: int)
    requires acc == Clamp(sum)
    ensures r == Clamp(sum + Positive(term))
  {
    if term <= 0 {
      return acc;
    }
    if term > SCORE_MAX - acc {
      return SCORE_MAX;
    }
    return acc + term;
  }

  method AddIf(on: bool, acc: int, weight: int, ghost sum: int) returns (r: int)
    requires acc == Clamp(sum)
    ensures r == Clamp(sum + Flag(on, weight))
  {
    r := acc;
    if on {
      r := ScoreAdd(acc, weight, sum);
    }
  }

  /** The event count times its weight, guarded against overflow by a division. */
  method AddErrors(i: Inputs, w: Weights) returns (score: int)
    ensures score == Clamp(Errors(i, w))
  {
    score := 0;
    if w.errrate > 0 && i.errrateCount > 0 {
      CappedProduct(w.errrate, i.errrateCount);
      if i.errrateCount > SCORE_MAX / w.errrate {
        score := ScoreAdd(score, SCORE_MAX, 0);
      } else {
        score := ScoreAdd(score, w.errrate * i.errrateCount, 0);
      }
    }
  }

  lemma NoCrowdsecTerm(i: Inputs, w: Weights)
    ensures Flag(i.crowdsecHit && w.crowdsec > 0, CrowdsecTerm(i.crowdsecAction, w.crowdsec))
            == Flag(i.crowdsecHit, CrowdsecTerm(i.crowdsecAction, w.crowdsec))
  {
  }

  method AddConduct(i: Inputs, w: Weights) returns (score: int)
    ensures score == Clamp(Conduct(i, w))
  {
    hide Clamp, Flag, Errors;
    score := AddErrors(i, w);
    ghost var sum := Errors(i, w);
    score := AddIf(i.errrateBlocked, score, w.blocked, sum);
    sum := sum + Flag(i.errrateBlocked, w.blocked);
    score := AddIf(i.scannerPath, score, w.scanner, sum);
    sum := sum + Flag(i.scannerPath, w.scanner);
    score := AddIf(i.botUa, score, w.bot, sum);
    sum := sum + Flag(i.botUa, w.bot);
    score := AddIf(i.headerAnomaly, score, w.header, sum);
    sum := sum + Flag(i.headerAnomaly, w.header);
    score := AddIf(i.honeypot, score, w.honeypot, sum);
    sum := sum + Flag(i.honeypot, w.honeypot);
    score := AddIf(i.velocityExceeded, score, w.velocity, sum);
  }

  method AddOrigin(i: Inputs, w: Weights, acc: int, ghost before: int) returns (score: int)
    requires acc == Clamp(before)
    ensures score == Clamp(before + Origin(i, w))
  {
    hide Clamp, Flag, CrowdsecTerm;
    ghost var sum := before;
    score := AddIf(i.datacenterAsn, acc, w.asn, sum);
    sum := sum + Flag(i.datacenterAsn, w.asn);
    score := AddIf(i.c2ipFlagged, score, w.c2ip, sum);
    sum := sum + Flag(i.c2ipFlagged, w.c2ip);
    score := AddIf(i.ja3Flagged, score, w.ja3, sum);
    sum := sum + Flag(i.ja3Flagged, w.ja3);
    score := AddIf(i.ja4Flagged, score, w.ja4, sum);
    sum := sum + Flag(i.ja4Flagged, w.ja4);
    score := AddIf(i.ja4tFlagged, score, w.ja4t, sum);
    sum := sum + Flag(i.ja4tFlagged, w.ja4t);
    score := AddIf(i.uaIncoherent, score, w.coherence, sum);
    sum := sum + Flag(i.uaIncoherent, w.coherence);
    NoCrowdsecTerm(i, w);
    score := AddIf(i.crowdsecHit && w.crowdsec > 0, score, CrowdsecTerm(i.crowdsecAction, w.crowdsec), sum);
  }

  /** Saturating at every step gives the exact sum, clamped once. */
  method ScoreCompute(i: Inputs, w: Weights) returns (score: int)
    ensures score == ScoreOf(i, w)
  {
    if i.knownGoodUa && !i.crowdsecHit && !i.fcrdnsSpoofed {
      return 0;
    }
    if i.allowlisted && !i.crowdsecHit {
      return 0;
    }
    hide Clamp, Conduct, Origin;
    score := AddConduct(i, w);
    score := AddOrigin(i, w, score, Conduct(i, w));
  }

  /** The guard on the product fires exactly when the product is beyond the cap. */
  lemma CappedProduct(weight: int, count: nat)
    requires weight > 0
    ensures count > SCORE_MAX / weight <==> weight * count > SCORE_MAX
  {
    var q := SCORE_MAX / weight;
    assert weight * q <= SCORE_MAX < weight * (q + 1);
    if count > q {
      assert weight * count >= weight * (q + 1);
    } else {
      assert weight * count <= weight * q;
    }
  }

  // ---- What the score guarantees ----

  /** A blocked identity that is not excused is blocked again if its weight alone suffices. */
  lemma BlockedIsBlock(i: Inputs, w: Weights, thr: Thresholds)
    requires i.errrateBlocked && !Excused(i) && w.blocked >= thr.block && thr.block <= SCORE_MAX
    ensures ToVerdict(ScoreOf(i, w), thr) == Block
  {
    hide Errors;
  }

  /** No excuse ever lifts a CrowdSec ban. */
  lemma BanOverridesExcuses(i: Inputs, w: Weights, thr: Thresholds)
    requires i.crowdsecHit && i.crowdsecAction == 1 && w.crowdsec >= thr.block && thr.block <= SCORE_MAX
    ensures ToVerdict(ScoreOf(i, w), thr) == Block
  {
    hide Errors;
  }

  /** `j` shows every signal that `i` shows. */
  predicate Dominates(j: Inputs, i: Inputs) {
    && i.errrateCount <= j.errrateCount && (i.errrateBlocked ==> j.errrateBlocked)
    && (i.scannerPath ==> j.scannerPath) && (i.botUa ==> j.botUa) && (i.headerAnomaly ==> j.headerAnomaly)
    && (i.honeypot ==> j.honeypot) && (i.velocityExceeded ==> j.velocityExceeded)
    && (i.datacenterAsn ==> j.datacenterAsn) && (i.c2ipFlagged ==> j.c2ipFlagged)
    && (i.ja3Flagged ==> j.ja3Flagged) && (i.ja4Flagged ==> j.ja4Flagged) && (i.ja4tFlagged ==> j.ja4tFlagged)
    && (i.uaIncoherent ==> j.uaIncoherent)
    && (i.crowdsecHit ==> j.crowdsecHit && j.crowdsecAction == i.crowdsecAction)
  }

  function Severity(v: Verdict): nat {
    match v case Allow => 0 case Challenge => 1 case Tarpit => 2 case Block => 3
  }

  lemma ErrorsGrow(i: Inputs, j: Inputs, w: Weights)
    requires i.errrateCount <= j.errrateCount
    ensures Errors(i, w) <= Errors(j, w)
  {
    if w.errrate > 0 {
      assert w.errrate * (j.errrateCount - i.errrateCount) >= 0;
    }
  }

  lemma ConductGrows(i: Inputs, j: Inputs, w: Weights)
    requires Dominates(j, i)
    ensures Conduct(i, w) <= Conduct(j, w)
  {
    hide Errors;
    ErrorsGrow(i, j, w);
  }

  lemma OriginGrows(i: Inputs, j: Inputs, w: Weights)
    requires Dominates(j, i)
    ensures Origin(i, w) <= Origin(j, w)
  {
    hide CrowdsecTerm;
  }

  lemma TotalGrows(i: Inputs, j: Inputs, w: Weights)
    requires Dominates(j, i)
    ensures Total(i, w) <= Total(j, w)
  {
    hide Conduct, Origin;
    ConductGrows(i, j, w);
    OriginGrows(i, j, w);
  }

  /** Whatever the weights and thresholds, more signals never bring a milder verdict, unless an excuse comes along. */
  lemma MoreSignalsNeverMilder(i: Inputs, j: Inputs, w: Weights, thr: Thresholds)
    requires Dominates(j, i) && !Excused(j)
    ensures ScoreOf(i, w) <= ScoreOf(j, w)
    ensures Severity(ToVerdict(ScoreOf(i, w), thr)) <= Severity(ToVerdict(ScoreOf(j, w), thr))
  {
    hide Total, Dominates;
    TotalGrows(i, j, w);
  }
}
