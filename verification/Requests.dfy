/**
 Requests around the identity table: a verdict from the score, a soft ban on
 BLOCK, an event on every error response. A block feeds the next request's
 score, so an identity that keeps coming stays blocked.
 */
module Requests {
  import opened TableSpec
  import opened Score
  import opened SharedTable
  import I = Ideal

  const ERROR_STATUS: nat := 400

  /** An enforcing location; several may share a zone. */
  datatype Location = Location(weights: Weights, thresholds: Thresholds, blockTtl: int)

  /** A request reaching its location, or its response being logged. */
  datatype Event =
    | Arrive(key: string, now: int, loc: Location, signals: Inputs, slab: bool)
    | Logged(key: string, now: int, status: nat, slab: bool)

  function WithErrors(signals: Inputs, a: Answer): Inputs {
    match a
    case Ok(n, _) => signals.(errrateCount := n, errrateBlocked := false)
    case Busy(n, _) => signals.(errrateCount := n, errrateBlocked := true)
    case Error => signals.(errrateCount := 0, errrateBlocked := false)
  }

  function ArriveStep(v: seq<Entry>, c: Config, e: Event): (seq<Entry>, Verdict)
    requires e.Arrive?
  {
    var (w, a) := LookupStep(v, c, e.key, e.now);
    var verdict := ToVerdict(ScoreOf(WithErrors(e.signals, a), e.loc.weights), e.loc.thresholds);
    (if verdict == Block && e.loc.blockTtl > 0 then SoftbanStep(w, c, e.key, e.now, e.loc.blockTtl, e.slab).0 else w,
     verdict)
  }

  function EventStep(v: seq<Entry>, c: Config, e: Event): seq<Entry> {
    if e.Arrive? then ArriveStep(v, c, e).0
    else if e.status < ERROR_STATUS then v
    else RecordStep(v, c, e.key, e.now, e.slab).0
  }

  /** The request's pass through the zone. */
  method HandleArrival(z: Zone, e: Event) returns (verdict: Verdict)
    requires z.Valid() && e.Arrive?
    modifies z.Repr()
    ensures z.Valid() && (z.view, verdict) == ArriveStep(old(z.view), z.Conf(), e)
    ensures forall x :: x in z.queue ==> x in old(z.queue) || (fresh(x) && fresh(x.events))
  {
    hide Zone.Valid, LookupStep, SoftbanStep, ScoreOf, ToVerdict;
    var a := z.ErrrateLookup(e.key, e.now);
    var score := ScoreCompute(WithErrors(e.signals, a), e.loc.weights);
    verdict := ToVerdict(score, e.loc.thresholds);
    if verdict == Block && e.loc.blockTtl > 0 {
      var persisted := z.SoftbanSet(e.key, e.now, e.loc.blockTtl, e.slab);
    }
  }

  /** Two zones share nothing. */
  ghost predicate Separate(z: Zone, velocity: Zone)
    reads z, velocity
  {
    velocity.Repr() !! z.Repr()
  }

  /** Recording in the velocity zone leaves the other zone alone. */
  method RecordVelocity(z: Zone, velocity: Zone, e: Event, velocitySlab: bool)
    requires z.Valid() && velocity.Valid() && velocity.threshold >= 1 && Separate(z, velocity)
    modifies velocity.Repr()
    ensures z.Valid() && z.view == old(z.view) && z.queue == old(z.queue) && velocity.Valid() && Separate(z, velocity)
    ensures velocity.view == RecordStep(old(velocity.view), velocity.Conf(), e.key, e.now, velocitySlab).0
    ensures forall x :: x in velocity.queue ==> x in old(velocity.queue) || (fresh(x) && fresh(x.events))
  {
    hide Zone.Valid, RecordStep;
    assert z in z.Repr() && forall n :: n in z.queue ==> n in z.Repr() && n.events in z.Repr();
    assert velocity in velocity.Repr();
    assert forall n :: n in velocity.queue ==> n in velocity.Repr() && n.events in velocity.Repr();
    var a := velocity.ErrrateRecord(e.key, e.now, velocitySlab);
    assert forall n :: n in velocity.queue ==> n !in z.Repr() && n.events !in z.Repr();
  }

  /** The log phase: every response counts for the velocity zone if there is one, only errors for the error zone. */
  method HandleLog(z: Zone, velocity: Zone?, e: Event, velocitySlab: bool)
    requires z.Valid() && z.threshold >= 1 && e.Logged?
    requires velocity != null ==> velocity.Valid() && velocity.threshold >= 1 && Separate(z, velocity)
    modifies z.Repr(), if velocity == null then {} else velocity.Repr()
    ensures z.Valid() && z.view == EventStep(old(z.view), z.Conf(), e)
    ensures velocity != null ==>
              && velocity.Valid() && Separate(z, velocity)
              && velocity.view == RecordStep(old(velocity.view), velocity.Conf(), e.key, e.now, velocitySlab).0
              && forall x :: x in velocity.queue ==> x in old(velocity.queue) || (fresh(x) && fresh(x.events))
    ensures forall x :: x in z.queue ==> x in old(z.queue) || (fresh(x) && fresh(x.events))
  {
    hide Zone.Valid, RecordStep;
    if velocity != null {
      RecordVelocity(z, velocity, e, velocitySlab);
    }
    if e.status < ERROR_STATUS {
      return;
    }
    var a := z.ErrrateRecord(e.key, e.now, e.slab);
  }

  // ---- A block survives everything before its deadline ----

  predicate Blocked(v: seq<Entry>, key: string, until: int) {
    DistinctKeys(v) && Position(v, key) < |v| && v[Position(v, key)].blockedUntil >= until
  }

  lemma BlockedIsDistinct(v: seq<Entry>, key: string, until: int)
    requires Blocked(v, key, until)
    ensures DistinctKeys(v)
  {
  }

  /** Eviction spares a block that has not run out. */
  lemma ExpireSparesBlock(v: seq<Entry>, now: int, interval: int, batch: nat, key: string, until: int)
    requires Blocked(v, key, until) && now < until
    ensures Blocked(Expire(v, now, interval, batch), key, until)
  {
    var w := Expire(v, now, interval, batch);
    I.PositionIs(w, Position(v, key));
  }

  /** Replacing the entry of some key by one that is blocked, or is not ours. */
  lemma ToFrontSparesBlock(v: seq<Entry>, e: Entry, key: string, until: int)
    requires e.key != key ==> Blocked(v, key, until)
    requires e.key == key ==> DistinctKeys(v) && e.blockedUntil >= until
    ensures Blocked(ToFront(v, Position(v, e.key), e), key, until)
  {
    I.ToFrontDistinct(v, e);
    if e.key != key {
      I.ToFrontFinds(v, e, key);
    }
  }

  lemma LookupSparesBlock(v: seq<Entry>, c: Config, other: string, now: int, key: string, until: int)
    requires Blocked(v, key, until) && now < until
    ensures Blocked(LookupStep(v, c, other, now).0, key, until)
    ensures other == key ==> LookupStep(v, c, other, now).1.Busy? && LookupStep(v, c, other, now).1.deadline >= until
  {
    ExpireSparesBlock(v, now, c.interval, EXPIRE_BATCH, key, until);
    hide Expire, Drop, Recent, Position;
    var w := Expire(v, now, c.interval, EXPIRE_BATCH);
    var e := Seen(w, other, now);
    ToFrontSparesBlock(w, if e.blockedUntil > now then e else Refresh(c, e, now), key, until);
  }

  lemma RecordSparesBlock(v: seq<Entry>, c: Config, other: string, now: int, slab: bool, key: string, until: int)
    requires Blocked(v, key, until) && now < until
    ensures Blocked(RecordStep(v, c, other, now, slab).0, key, until)
  {
    ExpireSparesBlock(v, now, c.interval, EXPIRE_BATCH, key, until);
    hide Expire, Drop, Recent, Position;
    var w := Expire(v, now, c.interval, EXPIRE_BATCH);
    var e := Seen(w, other, now);
    ToFrontSparesBlock(w, if e.blockedUntil > now then e else Counted(c, e, now), key, until);
  }

  lemma SoftbanSparesBlock(v: seq<Entry>, c: Config, other: string, now: int, ttl: int, slab: bool,
                           key: string, until: int)
    requires Blocked(v, key, until) && now < until && (other == key ==> now + ttl >= until)
    ensures Blocked(SoftbanStep(v, c, other, now, ttl, slab).0, key, until)
  {
    ExpireSparesBlock(v, now, c.interval, EXPIRE_BATCH, key, until);
    hide Expire, Drop, Position;
    var w := Expire(v, now, c.interval, EXPIRE_BATCH);
    ToFrontSparesBlock(w, Seen(w, other, now).(blockedUntil := now + ttl, events := []), key, until);
  }

  /** A soft ban that does not fail is stored up to its deadline. */
  lemma SoftbanStores(v: seq<Entry>, c: Config, now: int, ttl: int, slab: bool, key: string)
    requires DistinctKeys(v) && SoftbanStep(v, c, key, now, ttl, slab).1 != Error
    ensures Blocked(SoftbanStep(v, c, key, now, ttl, slab).0, key, now + ttl)
  {
    hide Expire, Drop, Position, Blocked;
    var w := Expire(v, now, c.interval, EXPIRE_BATCH);
    ToFrontSparesBlock(w, Seen(w, key, now).(blockedUntil := now + ttl, events := []), key, now + ttl);
  }

  /** A soft ban on an identity already blocked cannot fail, however full the zone is. */
  lemma SoftbanCannotFail(v: seq<Entry>, c: Config, now: int, ttl: int, slab: bool, key: string, until: int)
    requires Blocked(v, key, until) && now < until && ttl > 0
    ensures SoftbanStep(v, c, key, now, ttl, slab).1 == Ok(0, 0)
  {
    ExpireSparesBlock(v, now, c.interval, EXPIRE_BATCH, key, until);
    hide Expire, Drop, Position, ToFront;
  }

  /** Calls at nondecreasing times before the deadline, soft bans on `key` reaching it. */
  predicate Harmless(calls: seq<Call>, key: string, until: int) {
    forall i :: 0 <= i < |calls| ==>
      calls[i].now < until
      && (calls[i].Softban? && calls[i].key == key ==> calls[i].now + calls[i].ttl >= until)
  }

  /** Until its deadline a stored block is what every lookup of the identity reports. */
  lemma {:induction false} BlockIsSeen(v: seq<Entry>, c: Config, calls: seq<Call>, slab: seq<bool>,
                                       key: string, until: int, j: nat)
    requires Blocked(v, key, until) && |slab| == |calls| && Harmless(calls, key, until)
    requires j < |calls| && calls[j].Lookup? && calls[j].key == key
    ensures var a := I.TableRun(v, c, calls, slab)[j]; a.Busy? && a.deadline >= until
    decreases |calls|
  {
    hide LookupStep, RecordStep, SoftbanStep, Blocked;
    assert calls[0].now < until;
    match calls[0] {
      case Lookup(k, now) => LookupSparesBlock(v, c, k, now, key, until);
      case Record(k, now) => RecordSparesBlock(v, c, k, now, slab[0], key, until);
      case Softban(k, now, ttl) => SoftbanSparesBlock(v, c, k, now, ttl, slab[0], key, until);
    }
    if j > 0 {
      var w := Step(v, c, calls[0], slab[0]).0;
      assert forall i :: 0 <= i < |calls| - 1 ==> calls[1..][i] == calls[i + 1];
      BlockIsSeen(w, c, calls[1..], slab[1..], key, until, j - 1);
    }
  }

  // ---- An identity that keeps coming stays blocked ----

  predicate TimedEvents(es: seq<Event>, clock: int) {
    es == [] || (clock <= es[0].now && TimedEvents(es[1..], es[0].now))
  }

  /** A location that blocks a blocked identity by itself. */
  predicate Enforces(loc: Location) {
    loc.blockTtl > 0 && loc.weights.blocked >= loc.thresholds.block && loc.thresholds.block <= SCORE_MAX
  }

  /**
   Each request of `key` comes, at whichever enforcing location, before the
   deadline the one before it set, and is not excused.
   */
  predicate Persistent(es: seq<Event>, key: string, until: int) {
    es != [] ==>
    if es[0].Arrive? && es[0].key == key then
      && es[0].now < until && !Excused(es[0].signals) && Enforces(es[0].loc)
      && Persistent(es[1..], key, es[0].now + es[0].loc.blockTtl)
    else Persistent(es[1..], key, until)
  }

  predicate AllBlocked(v: seq<Entry>, c: Config, es: seq<Event>, key: string)
    decreases |es|
  {
    es != [] ==>
      && (es[0].Arrive? && es[0].key == key ==> ArriveStep(v, c, es[0]).1 == Block)
      && AllBlocked(EventStep(v, c, es[0]), c, es[1..], key)
  }

  /** One request of a blocked identity: BLOCK again, and a new deadline. */
  lemma BlockedArrives(v: seq<Entry>, c: Config, e: Event, until: int)
    requires e.Arrive? && Blocked(v, e.key, until) && e.now < until && !Excused(e.signals) && Enforces(e.loc)
    ensures ArriveStep(v, c, e).1 == Block
    ensures Blocked(ArriveStep(v, c, e).0, e.key, e.now + e.loc.blockTtl)
  {
    hide LookupStep, SoftbanStep, Blocked, ScoreOf, ToVerdict;
    LookupSparesBlock(v, c, e.key, e.now, e.key, until);
    var (w, a) := LookupStep(v, c, e.key, e.now);
    BlockedIsBlock(WithErrors(e.signals, a), e.loc.weights, e.loc.thresholds);
    BlockedIsDistinct(w, e.key, until);
    SoftbanCannotFail(w, c, e.now, e.loc.blockTtl, e.slab, e.key, until);
    SoftbanStores(w, c, e.now, e.loc.blockTtl, e.slab, e.key);
  }

  /** Events of others, at any location, and logged responses, before the deadline. */
  lemma OthersSpareBlock(v: seq<Entry>, c: Config, e: Event, key: string, until: int)
    requires Blocked(v, key, until) && e.now < until && (e.Arrive? ==> e.key != key)
    ensures Blocked(EventStep(v, c, e), key, until)
  {
    hide LookupStep, RecordStep, SoftbanStep, Blocked, ScoreOf, ToVerdict;
    if e.Arrive? {
      LookupSparesBlock(v, c, e.key, e.now, key, until);
      SoftbanSparesBlock(LookupStep(v, c, e.key, e.now).0, c, e.key, e.now, e.loc.blockTtl, e.slab, key, until);
    } else {
      RecordSparesBlock(v, c, e.key, e.now, e.slab, key, until);
    }
  }

  /** Once blocked, an identity that returns before each deadline is blocked every time. */
  lemma {:induction false} StaysBlocked(v: seq<Entry>, c: Config, es: seq<Event>, clock: int, key: string, until: int)
    requires Blocked(v, key, until) || clock >= until
    requires TimedEvents(es, clock) && Persistent(es, key, until)
    ensures AllBlocked(v, c, es, key)
    decreases |es|
  {
    hide Blocked, EventStep, ArriveStep, Excused, Enforces;
    if es != [] {
      var e := es[0];
      var w := EventStep(v, c, e);
      if e.Arrive? && e.key == key {
        BlockedArrives(v, c, e, until);
        ArriveIsEvent(v, c, e);
        StaysBlocked(w, c, es[1..], e.now, key, e.now + e.loc.blockTtl);
      } else {
        if e.now < until {
          OthersSpareBlock(v, c, e, key, until);
        }
        StaysBlocked(w, c, es[1..], e.now, key, until);
      }
    }
  }

  lemma ArriveIsEvent(v: seq<Entry>, c: Config, e: Event)
    requires e.Arrive?
    ensures EventStep(v, c, e) == ArriveStep(v, c, e).0
  {
  }
}
