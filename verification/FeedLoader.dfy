/** The loader: validate, mark under a new generation in batches, sweep in batches. */
module FeedLoader {
  import opened Actions
  import opened TableSpec
  import opened Text
  import opened SharedTable
  import opened FeedFormat
  import opened FeedParser
  import opened FeedSpec
  import opened FeedReaders

  const APPLY_BATCH: nat := 256

  /** How many of the decisions are stored, not being expired already. */
  function Stored(ds: seq<Decision>, l: Load): (n: nat)
    ensures n <= |ds|
  {
    if ds == [] then 0
    else Stored(ds[..|ds| - 1], l) + (if Effective(ds[|ds| - 1], l) > l.now then 1 else 0)
  }

  lemma StoredNext(ds: seq<Decision>, d: Decision, l: Load)
    ensures Stored(ds + [d], l) == Stored(ds, l) + (if Effective(d, l) > l.now then 1 else 0)
  {
    assert (ds + [d])[..|ds|] == ds;
  }

  lemma StoredNone(l: Load)
    ensures Stored([], l) == 0
  {
  }

  /** Made while the applying pass had stored a whole number of batches. */
  predicate AtBatch(s: Sight, all: seq<Decision>, l: Load) {
    !s.sweeping && s.applied <= |all| && Stored(all[..s.applied], l) % APPLY_BATCH == 0
  }

  /** The applying pass's own scan of one line. */
  method ApplyFields(line: string, env: Env) returns (l: Line)
    ensures l == Fields(line, env)
  {
    hide CanonIp, Action, Atoi, Find;
    var f1end := SkipToSpace(line, 0);
    assert line[0..] == line;
    if f1end >= |line| {
      return Malformed;
    }
    var f2 := f1end + 1;
    var f2end := SkipToSpace(line, f2);
    if f2end >= |line| {
      return Malformed;
    }
    var f3 := f2end + 1;
    if f3 >= |line| {
      return Malformed;
    }
    assert line[f2..][..f2end - f2] == line[f2..f2end] && line[f2..][f2end - f2 + 1..] == line[f3..];
    var key := CanonIp(line[..f1end], env);
    if key == [] {
      return Malformed;
    }
    var action := Action(line[f2..f2end]);
    if action == 0 {
      return Malformed;
    }
    var expiry := Atoi(line[f3..], env.maxInt);
    if expiry < 0 {
      return Malformed;
    }
    return Live(Decision(key, action, expiry));
  }

  /** The applying pass's step to the next line. */
  method ScanLine(p: string, env: Env) returns (line: Line, rest: string)
    requires p != []
    ensures line == Classify(p[..Find(p, '\n')], env) && rest == Rest(p)
  {
    hide Fields, Find;
    var nl := Find(p, '\n');
    var text := p[..nl];
    rest := if nl < |p| then p[nl + 1..] else [];
    if |text| == 0 || text[0] == '#' {
      return Blank, rest;
    }
    if text[|text| - 1] == '\r' {
      text := text[..|text| - 1];
    }
    if |text| == 0 {
      return Blank, rest;
    }
    line := ApplyFields(text, env);
  }

  /** Taking the next decision of the rest of the body. */
  lemma NextDecision(all: seq<Decision>, taken: nat, d: Decision, rest: seq<Decision>)
    requires taken <= |all| && all[taken..] == [d] + rest
    ensures taken < |all| && all[taken] == d && all[taken + 1..] == rest && all[..taken + 1] == all[..taken] + [d]
  {
    assert all[taken..][1..] == rest;
  }

  /**
   One decision of the applying pass: skipped, refused, or stored. After every
   APPLY_BATCH stored ones the lock is released and readers come.
   */
  method ApplyOne(z: Zone, d: Decision, taken: nat, applied: nat, start: int, slab: bool, calls: seq<Read>,
                  now: int, ttl: int, generation: nat, ghost all: seq<Decision>, ghost l: Load)
    returns (ok: bool, stored: nat, clock: int, log: seq<Sight>, released: bool)
    requires taken < |all| && all[taken] == d && applied == Stored(all[..taken], l)
    requires z.Valid() && Loading(z.view, all[..taken], l, start, false)
    requires l.now == now && l.ttl == ttl && l.generation == generation
    modifies z.Repr()
    ensures z.Valid() && Loading(z.view, all[..if ok then taken + 1 else taken], l, clock, false)
    ensures stored == Stored(all[..if ok then taken + 1 else taken], l)
    ensures !ok ==> !slab && stored == applied && !released
    ensures released <==> stored == applied + 1 && stored % APPLY_BATCH == 0
    ensures stored / APPLY_BATCH == applied / APPLY_BATCH + (if released then 1 else 0)
    ensures Heard(log, if released then calls else [], start, clock) && (!released ==> log == [])
    ensures forall s :: s in log ==> s.applied == taken + 1 && AtBatch(s, all, l) && Fair(s, all, l, start, clock)
    ensures z.csGeneration == old(z.csGeneration)
    ensures forall x :: x in z.queue ==> x in old(z.queue) || (fresh(x) && fresh(x.events))
  {
    hide Zone.Valid, Loading, Stage, UpsertStep, Stored, Heard;
    assert all[..taken + 1] == all[..taken] + [d];
    StoredNext(all[..taken], d, l);
    Batches(applied);
    HeardNobody(start);
    clock, log, released, stored := start, [], false, applied;
    var exp := d.expiry;
    if exp == 0 {
      exp := now + ttl;
    }
    if exp <= now {
      SkipKeeps(z.view, all[..taken], d, l, clock);
      return true, applied, clock, log, false;
    }
    UpsertKeeps(z.view, all[..taken], d, l, clock, slab);
    UpsertRefused(z.view, d.key, exp, d.action, generation, now, slab);
    ok := z.CrowdsecUpsert(d.key, exp, d.action, generation, now, false, slab);
    if !ok {
      return;
    }
    stored := applied + 1;
    if stored % APPLY_BATCH == 0 {
      released := true;
      clock, log := LetReadersIn(z, calls, clock, taken + 1, false, all, l);
    }
  }

  lemma Batches(n: nat)
    ensures (n + 1) / APPLY_BATCH == n / APPLY_BATCH + (if (n + 1) % APPLY_BATCH == 0 then 1 else 0)
  {
  }

  /** The applying pass; the lock is released once for every APPLY_BATCH decisions stored. */
  method ApplyPass(z: Zone, body: string, env: Env, ghost l: Load, now: int, ttl: int, generation: nat,
                   start: int, first: nat, slab: nat -> bool, readers: nat -> seq<Read>)
    returns (taken: nat, clock: int, log: seq<Sight>, releases: nat)
    requires z.Valid() && Loading(z.view, [], l, start, false)
    requires l.now == now && l.ttl == ttl && l.generation == generation
    modifies z.Repr()
    ensures var all := Decisions(Classified(body, env));
      && taken <= |all| && (taken < |all| ==> !slab(taken))
      && z.Valid() && Loading(z.view, all[..taken], l, clock, false)
      && releases == Stored(all[..taken], l) / APPLY_BATCH
      && (forall s :: s in log ==> s.applied <= taken && AtBatch(s, all, l) && Fair(s, all, l, start, clock))
    ensures Heard(log, Released(readers, first, releases), start, clock)
    ensures z.csGeneration == old(z.csGeneration)
    ensures forall x :: x in z.queue ==> x in old(z.queue) || (fresh(x) && fresh(x.events))
  {
    hide Zone.Valid, Classified, Decisions, Bad, Classify, Find, Rest, Loading, Fair, AtBatch, Stored, Heard, Released;
    ghost var all := Decisions(Classified(body, env));
    assert all[..0] == [] && all[0..] == all;
    StoredNone(l);
    NobodyYet(readers, first, start);
    taken, clock, log, releases := 0, start, [], 0;
    var applied := 0;
    var p := body;
    while p != []
      invariant taken <= |all| && all[taken..] == Decisions(Classified(p, env))
      invariant z.Valid() && Loading(z.view, all[..taken], l, clock, false)
      invariant applied == Stored(all[..taken], l) && releases == applied / APPLY_BATCH
      invariant Heard(log, Released(readers, first, releases), start, clock)
      invariant forall s :: s in log ==> s.applied <= taken && AtBatch(s, all, l) && Fair(s, all, l, start, clock)
      invariant z.csGeneration == old(z.csGeneration)
      invariant forall x :: x in z.queue ==> x in old(z.queue) || (fresh(x) && fresh(x.events))
      decreases |p|
    {
      NextLine(p, env);
      var line;
      line, p := ScanLine(p, env);
      if !line.Live? {
        continue;
      }
      NextDecision(all, taken, line.decision, Decisions(Classified(p, env)));
      var ok, time, more, released;
      ghost var mid := clock;
      ok, applied, time, more, released :=
        ApplyOne(z, line.decision, taken, applied, clock, slab(taken), readers(first + releases),
                 now, ttl, generation, all, l);
      LogGrows(log, readers, first, releases, start, mid, more, released, time, all, l);
      clock, log := time, log + more;
      if released {
        releases := releases + 1;
      }
      if !ok {
        return;
      }
      taken := taken + 1;
    }
    NoLine(env);
  }

  /** The log after one more decision, with or without a release of the lock. */
  lemma LogGrows(log: seq<Sight>, readers: nat -> seq<Read>, first: nat, releases: nat, start: int, mid: int,
                 more: seq<Sight>, released: bool, clock: int, all: seq<Decision>, l: Load)
    requires Heard(log, Released(readers, first, releases), start, mid)
    requires Heard(more, if released then readers(first + releases) else [], mid, clock)
    requires forall s :: s in log ==> Fair(s, all, l, start, mid)
    requires forall s :: s in more ==> Fair(s, all, l, mid, clock)
    ensures Heard(log + more, Released(readers, first, if released then releases + 1 else releases), start, clock)
    ensures forall s :: s in log + more ==> Fair(s, all, l, start, clock)
  {
    hide Heard, Fair;
    var next := if released then readers(first + releases) else [];
    HeardJoin(log, Released(readers, first, releases), start, mid, more, next, clock);
    FairLater(log, all, l, start, mid, start, clock);
    FairLater(more, all, l, mid, clock, start, clock);
    assert Released(readers, first, releases) + [] == Released(readers, first, releases);
    assert Released(readers, first, releases + 1) == Released(readers, first, releases) + readers(first + releases);
  }

  lemma UpsertRefused(v: seq<Entry>, key: string, expiry: int, action: nat, generation: nat, now: int, slab: bool)
    ensures !UpsertStep(v, key, expiry, action, generation, now, false, slab).1 ==> !slab
  {
  }

  /**
   The sweep, releasing the lock after every batch; it ends when a batch deletes
   nothing. Between two releases at most a batch goes, and each reader evicts at
   most EXPIRE_BATCH.
   */
  method SweepLoop(z: Zone, generation: nat, start: int, taken: nat, first: nat, readers: nat -> seq<Read>,
                   ghost all: seq<Decision>, ghost l: Load)
    returns (clock: int, log: seq<Sight>, releases: nat)
    requires z.Valid() && taken <= |all| && l.generation == generation
    requires Loading(z.view, all[..taken], l, start, true)
    modifies z.Repr()
    ensures z.Valid() && Settled(z.view, all[..taken], l, clock)
    ensures Heard(log, Released(readers, first, releases), start, clock)
    ensures forall s :: s in log ==> s.applied == taken && s.sweeping && Fair(s, all, l, start, clock)
    ensures releases <= |old(z.view)| - |z.view| <= APPLY_BATCH * releases + EXPIRE_BATCH * |log|
    ensures z.csGeneration == old(z.csGeneration)
    ensures forall x :: x in z.queue ==> x in old(z.queue)
  {
    hide Zone.Valid, Loading, Fair, Sweep, Heard;
    clock, log, releases := start, [], 0;
    HeardNobody(start);
    while true
      invariant z.Valid() && Loading(z.view, all[..taken], l, clock, true)
      invariant Heard(log, Released(readers, first, releases), start, clock)
      invariant forall s :: s in log ==> s.applied == taken && s.sweeping && Fair(s, all, l, start, clock)
      invariant releases <= |old(z.view)| - |z.view| <= APPLY_BATCH * releases + EXPIRE_BATCH * |log|
      invariant z.csGeneration == old(z.csGeneration)
      invariant forall x :: x in z.queue ==> x in old(z.queue)
      decreases |z.view|
    {
      ghost var before := z.view;
      SweepKeeps(z.view, all[..taken], l, clock, true, APPLY_BATCH);
      var d := z.CrowdsecSweep(generation, APPLY_BATCH);
      if d == 0 {
        SweepIdle(before, generation, APPLY_BATCH);
        SweepSame(before, generation, APPLY_BATCH);
        break;
      }
      var time, more := LetReadersIn(z, readers(first + releases), clock, taken, true, all, l);
      LogGrows(log, readers, first, releases, start, clock, more, true, time, all, l);
      clock, log, releases := time, log + more, releases + 1;
    }
  }

  lemma {:induction false} SweepSame(v: seq<Entry>, generation: nat, batch: nat)
    requires |Sweep(v, generation, batch)| == |v|
    ensures Sweep(v, generation, batch) == v
  {
    if v != [] && batch > 0 {
      SweepSame(v[..|v| - 1], generation, batch);
    }
  }

  /** The logs of two stages of a load, one after the other. */
  lemma StagesJoin(log: seq<Sight>, readers: nat -> seq<Read>, m: nat, start: int, mid: int,
                   more: seq<Sight>, n: nat, clock: int, all: seq<Decision>, l: Load)
    requires Heard(log, Released(readers, 0, m), start, mid) && Heard(more, Released(readers, m, n), mid, clock)
    requires forall s :: s in log ==> Fair(s, all, l, start, mid)
    requires forall s :: s in more ==> Fair(s, all, l, mid, clock)
    ensures Heard(log + more, Released(readers, 0, m + n), start, clock)
    ensures forall s :: s in log + more ==> Fair(s, all, l, start, clock)
  {
    hide Heard, Fair;
    HeardJoin(log, Released(readers, 0, m), start, mid, more, Released(readers, m, n), clock);
    ReleasedJoin(readers, 0, m, n);
    FairLater(log, all, l, start, mid, start, clock);
    FairLater(more, all, l, mid, clock, start, clock);
  }

  /** The sight belongs to the stage it claims: a whole batch, the end of the applying pass, or the sweep. */
  predicate Staged(s: Sight, all: seq<Decision>, l: Load, taken: nat) {
    s.applied == taken || (s.applied < taken && AtBatch(s, all, l))
  }

  /** The marking half: readers, the applying pass, readers again. */
  method Mark(z: Zone, body: string, env: Env, ghost l: Load, now: int, ttl: int, generation: nat, start: int,
              slab: nat -> bool, readers: nat -> seq<Read>)
    returns (taken: nat, clock: int, log: seq<Sight>, releases: nat)
    requires z.Valid() && Loading(z.view, [], l, start, false)
    requires l.now == now && l.ttl == ttl && l.generation == generation
    modifies z.Repr()
    ensures var all := Decisions(Classified(body, env));
      && taken <= |all| && (taken < |all| ==> !slab(taken))
      && z.Valid() && Loading(z.view, all[..taken], l, clock, false)
      && releases == 2 + Stored(all[..taken], l) / APPLY_BATCH
      && (forall s :: s in log ==> Fair(s, all, l, start, clock) && Staged(s, all, l, taken))
    ensures Heard(log, Released(readers, 0, releases), start, clock)
    ensures z.csGeneration == old(z.csGeneration)
    ensures forall x :: x in z.queue ==> x in old(z.queue) || (fresh(x) && fresh(x.events))
  {
    hide Zone.Valid, Classified, Decisions, Heard, Fair, AtBatch, Stored, Loading, Released;
    ghost var all := Decisions(Classified(body, env));
    assert all[..0] == [];
    FirstStage(all, l, readers);
    var more, n;
    ghost var mid;
    clock, log := LetReadersIn(z, readers(0), start, 0, false, all, l);
    mid := clock;
    taken, clock, more, n := ApplyPass(z, body, env, l, now, ttl, generation, clock, 1, slab, readers);
    StagesJoin(log, readers, 1, start, mid, more, n, clock, all, l);
    log, mid := log + more, clock;
    clock, more := LetReadersIn(z, readers(1 + n), clock, taken, false, all, l);
    OneRelease(readers, 1 + n);
    StagesJoin(log, readers, 1 + n, start, mid, more, 1, clock, all, l);
    log, releases := log + more, n + 2;
  }

  /**
   A whole load. A rejected file changes nothing. An accepted one leaves exactly
   the feed, or the part of it before the first refused allocation. Every call
   let in by a release of the lock is in the log, in order, and its reading saw
   the old table overlaid with a prefix of the feed. `marked` is the table when
   the sweep began; between two releases of the sweep at most a batch goes.
   */
  method LoadFeed(z: Zone, data: string, env: Env, ttl: int, now: int, start: int,
                  slab: nat -> bool, readers: nat -> seq<Read>)
    returns (accepted: bool, taken: nat, clock: int, log: seq<Sight>, releases: nat, ghost marked: seq<Entry>)
    requires z.Valid() && StampsUpTo(z.view, z.csGeneration)
    modifies z.Repr()
    ensures z.Valid() && StampsUpTo(z.view, z.csGeneration)
    ensures accepted <==> Checked(data, env).Accepted?
    ensures !accepted ==> z.view == old(z.view) && z.csGeneration == old(z.csGeneration) && releases == 0
    ensures Heard(log, Released(readers, 0, releases), start, clock)
    ensures forall x :: x in z.queue ==> x in old(z.queue) || (fresh(x) && fresh(x.events))
    ensures accepted ==>
      var all := Decisions(Classified(Checked(data, env).body, env));
      var l := Load(now, ttl, old(z.csGeneration) + 1, old(z.view));
      && z.csGeneration == old(z.csGeneration) + 1
      && taken <= |all| && (taken < |all| ==> !slab(taken))
      && (var sweeps := releases - 2 - Stored(all[..taken], l) / APPLY_BATCH;
          sweeps <= |marked| - |z.view| <= APPLY_BATCH * sweeps + EXPIRE_BATCH * |log|)
      && (forall s :: s in log ==> Fair(s, all, l, start, clock) && Staged(s, all, l, taken))
      && (exists mid: int :: start <= mid <= clock && Loading(marked, all[..taken], l, mid, false))
      && Settled(z.view, all[..taken], l, clock) && IsFeed(z.view, all[..taken], l, clock)
  {
    hide Zone.Valid, Classified, Decisions, Checked, Heard, Fair, AtBatch, Stored, Loading, Settled, IsFeed, Released;
    taken, clock, log, releases, marked := 0, start, [], 0, z.view;
    NobodyYet(readers, 0, start);
    var verdict := Validate(data, env);
    if verdict.Declined? {
      return false, 0, start, [], 0, z.view;
    }
    ghost var all := Decisions(Classified(verdict.body, env));
    ghost var l := Load(now, ttl, z.csGeneration + 1, z.view);
    z.ValidIsDistinct();
    LoadStarts(l, start);
    var generation := z.NextGeneration();
    taken, clock, log, releases := Mark(z, verdict.body, env, l, now, ttl, generation, start, slab, readers);
    ghost var mid := clock;
    marked := z.view;
    HeardLater(log, Released(readers, 0, releases), start, mid);
    SweepingStarts(z.view, all[..taken], l, clock);
    var more, n;
    clock, more, n := SweepLoop(z, generation, clock, taken, releases, readers, all, l);
    StagesJoin(log, readers, releases, start, mid, more, n, clock, all, l);
    HeardLater(more, Released(readers, releases, n), mid, clock);
    log, releases := log + more, releases + n;
    SettledIsFeed(z.view, all[..taken], l, clock);
    accepted := true;
  }

  /**
   The life of a table: created, loaded, loaded again, then read. An accepted
   second file answers alone, whatever the first one held.
   */
  method LoadTwiceAndRead(crc: string -> nat, interval: int, first: string, second: string, env: Env, ttl: int,
                          now: int, start: int, slab: nat -> bool, readers: nat -> seq<Read>, qs: seq<Query>)
    returns (accepted: bool, taken: nat, readings: seq<Reading>, ghost l: Load, ghost clock: int)
    ensures accepted <==> Checked(second, env).Accepted?
    ensures accepted ==>
      var all := Decisions(Classified(Checked(second, env).body, env));
      && l.now == now && l.ttl == ttl && taken <= |all| && (taken < |all| ==> !slab(taken))
      && (InTime(qs, clock) ==> readings == FeedAnswers(all[..taken], l, qs))
  {
    hide Zone.Valid, Classified, Decisions, Checked, Heard, Fair, Staged, Stored, Loading, Settled, IsFeed, Released;
    hide FeedAnswers, InTime;
    var z := new Zone(crc, 0, interval, 1);
    var was, some, time, log, n;
    ghost var marked;
    was, some, time, log, n, marked := LoadFeed(z, first, env, ttl, now, start, slab, readers);
    l := Load(now, ttl, z.csGeneration + 1, z.view);
    accepted, taken, time, log, n, marked := LoadFeed(z, second, env, ttl, now, time, slab, readers);
    clock, readings := time, [];
    if accepted {
      ghost var ds := Decisions(Classified(Checked(second, env).body, env))[..taken];
      var asked := Prefix(qs, time);
      readings := ReadAll(z, asked, ds, l, time);
      PrefixWhole(qs, time);
    }
  }

  /** The lookups up to the first that would step back in time. */
  function Prefix(qs: seq<Query>, clock: int): (p: seq<Query>)
    ensures InTime(p, clock)
  {
    if qs == [] || qs[0].time < clock then [] else [qs[0]] + Prefix(qs[1..], qs[0].time)
  }

  lemma {:induction false} PrefixWhole(qs: seq<Query>, clock: int)
    ensures InTime(qs, clock) ==> Prefix(qs, clock) == qs
    decreases |qs|
  {
    if qs != [] && InTime(qs, clock) {
      PrefixWhole(qs[1..], qs[0].time);
    }
  }

  lemma HeardLater(log: seq<Sight>, calls: seq<Read>, start: int, clock: int)
    requires Heard(log, calls, start, clock)
    ensures start <= clock
  {
  }

  lemma NobodyYet(readers: nat -> seq<Read>, first: nat, clock: int)
    ensures Heard([], Released(readers, first, 0), clock, clock)
  {
    HeardNobody(clock);
  }

  lemma OneRelease(readers: nat -> seq<Read>, k: nat)
    ensures Released(readers, k, 1) == readers(k)
  {
    assert Released(readers, k, 1) == Released(readers, k, 0) + readers(k);
  }

  /** Nothing is stored yet when the first readers come. */
  lemma FirstStage(all: seq<Decision>, l: Load, readers: nat -> seq<Read>)
    ensures forall s: Sight :: s.applied == 0 && !s.sweeping ==> AtBatch(s, all, l)
    ensures Released(readers, 0, 1) == readers(0)
  {
    assert all[..0] == [];
    OneRelease(readers, 0);
  }

  lemma SettledIsFeed(v: seq<Entry>, ds: seq<Decision>, l: Load, clock: int)
    requires Settled(v, ds, l, clock)
    ensures StampsUpTo(v, l.generation) && IsFeed(v, ds, l, clock)
  {
    SweptIsFeed(v, ds, l, clock);
  }

  lemma SweepingStarts(v: seq<Entry>, ds: seq<Decision>, l: Load, clock: int)
    requires Loading(v, ds, l, clock, false)
    ensures Loading(v, ds, l, clock, true)
  {
    forall key ensures Agrees(v, ds, l, clock, true, key) {
      assert Agrees(v, ds, l, clock, false, key);
    }
  }
}
