/**
 What a feed load does to the ban table while readers run between its locked
 batches: at every moment the table is the old one overlaid with a prefix of
 the feed, and at the end it is the feed alone.
 */
module FeedSpec {
  import opened TableSpec
  import opened FeedFormat
  import I = Ideal

  datatype Ban = NoBan | Ban(expiry: int, action: nat)

  /** One load: its clock, the lifetime of undated lines, its generation, the table before it. */
  datatype Load = Load(now: int, ttl: int, generation: nat, before: seq<Entry>)

  /** One reading made during the load, after `applied` decisions, before or during the sweep. */
  datatype Sight = Sight(key: string, time: int, reading: Reading, applied: nat, sweeping: bool)

  function Effective(d: Decision, l: Load): int {
    if d.expiry == 0 then l.now + l.ttl else d.expiry
  }

  /** The last decision on `key` that was not already expired. */
  function LastLive(ds: seq<Decision>, key: string, l: Load): Ban {
    if ds == [] then NoBan
    else
      var d := ds[|ds| - 1];
      if d.key == key && Effective(d, l) > l.now then Ban(Effective(d, l), d.action)
      else LastLive(ds[..|ds| - 1], key, l)
  }

  function Held(v: seq<Entry>, key: string): Ban {
    var i := Position(v, key);
    if i == |v| then NoBan else Ban(v[i].blockedUntil, v[i].action)
  }

  function ReadingOf(b: Ban, time: int): Reading {
    if b.NoBan? || b.expiry <= time then Miss else Hit(b.action)
  }

  /** The old table overlaid with the decisions `ds`. */
  function Overlay(ds: seq<Decision>, key: string, l: Load): Ban {
    if LastLive(ds, key, l).NoBan? then Held(l.before, key) else LastLive(ds, key, l)
  }

  /** What one key of the table may hold; evicted bans have run out by `clock`. */
  predicate Agrees(v: seq<Entry>, ds: seq<Decision>, l: Load, clock: int, sweeping: bool, key: string) {
    var i := Position(v, key);
    var last := LastLive(ds, key, l);
    if i < |v| then
      && Held(v, key) == Overlay(ds, key, l)
      && (v[i].generation == l.generation <==> last.Ban?)
    else
      || (sweeping && last.NoBan?)
      || Overlay(ds, key, l).NoBan?
      || Overlay(ds, key, l).expiry <= clock
  }

  predicate StampsUpTo(v: seq<Entry>, generation: nat) {
    forall e :: e in v ==> e.generation <= generation
  }

  ghost predicate Loading(v: seq<Entry>, ds: seq<Decision>, l: Load, clock: int, sweeping: bool) {
    && DistinctKeys(v) && StampsUpTo(v, l.generation)
    && forall key :: Agrees(v, ds, l, clock, sweeping, key)
  }

  /** What a reading at this stage of the load answers. */
  predicate Stage(s: Sight, ds: seq<Decision>, l: Load)
    requires s.applied <= |ds|
  {
    var prefix := ds[..s.applied];
    || s.reading == ReadingOf(Overlay(prefix, s.key, l), s.time)
    || (s.sweeping && LastLive(prefix, s.key, l).NoBan? && s.reading == Miss)
  }

  // ---- Lookups after a load ----

  datatype Query = Query(key: string, time: int)

  function ReadRun(v: seq<Entry>, c: Config, qs: seq<Query>): (r: seq<Reading>)
    ensures |r| == |qs|
    decreases |qs|
  {
    if qs == [] then []
    else
      var (w, a) := ReadStep(v, c, qs[0].key, qs[0].time);
      [a] + ReadRun(w, c, qs[1..])
  }

  predicate InTime(qs: seq<Query>, clock: int) {
    qs == [] || (clock <= qs[0].time && InTime(qs[1..], qs[0].time))
  }

  /** What the feed alone answers. */
  function FeedAnswers(ds: seq<Decision>, l: Load, qs: seq<Query>): (r: seq<Reading>)
    ensures |r| == |qs|
    ensures forall i :: 0 <= i < |qs| ==> r[i] == ReadingOf(LastLive(ds, qs[i].key, l), qs[i].time)
  {
    seq(|qs|, i requires 0 <= i < |qs| => ReadingOf(LastLive(ds, qs[i].key, l), qs[i].time))
  }

  /** The table is the feed: any sequence of lookups from now on answers from the last live lines. */
  ghost predicate IsFeed(v: seq<Entry>, ds: seq<Decision>, l: Load, clock: int) {
    forall c: Config, qs :: InTime(qs, clock) ==> ReadRun(v, c, qs) == FeedAnswers(ds, l, qs)
  }

  /** A finished load: nothing of another generation is left. */
  ghost predicate Settled(v: seq<Entry>, ds: seq<Decision>, l: Load, clock: int) {
    Loading(v, ds, l, clock, true) && forall e :: e in v ==> e.generation == l.generation
  }

  // ---- Steps ----

  lemma LoadStarts(l: Load, clock: int)
    requires DistinctKeys(l.before) && forall e :: e in l.before ==> e.generation < l.generation
    ensures Loading(l.before, [], l, clock, false)
  {
    forall key ensures Agrees(l.before, [], l, clock, false, key) {
      var i := Position(l.before, key);
      if i < |l.before| { assert l.before[i] in l.before; }
    }
  }

  /** Evictions by readers only remove bans that ran out. */
  lemma ExpireKeeps(v: seq<Entry>, ds: seq<Decision>, l: Load, clock: int, sweeping: bool,
                    time: int, interval: int, batch: nat)
    requires Loading(v, ds, l, clock, sweeping) && clock <= time
    ensures Loading(Expire(v, time, interval, batch), ds, l, time, sweeping)
    ensures forall key :: ReadingOf(Held(Expire(v, time, interval, batch), key), time) == ReadingOf(Held(v, key), time)
  {
    hide LastLive;
    var w := Expire(v, time, interval, batch);
    forall key
      ensures Agrees(w, ds, l, time, sweeping, key) && ReadingOf(Held(w, key), time) == ReadingOf(Held(v, key), time)
    {
      assert Agrees(v, ds, l, clock, sweeping, key);
      var i := Position(v, key);
      if i < |w| { I.PositionIs(w, i); } else { assert Position(w, key) == |w|; }
    }
  }

  /** Marking an entry seen changes nothing it says. */
  lemma TouchKeeps(w: seq<Entry>, ds: seq<Decision>, l: Load, clock: int, sweeping: bool, key: string, time: int)
    requires Loading(w, ds, l, clock, sweeping) && Position(w, key) < |w|
    ensures Loading(ToFront(w, Position(w, key), Seen(w, key, time)), ds, l, clock, sweeping)
  {
    hide LastLive, Position, Drop;
    var e := Seen(w, key, time);
    var u := ToFront(w, Position(w, key), e);
    I.ToFrontDistinct(w, e);
    forall k ensures Agrees(u, ds, l, clock, sweeping, k) {
      assert Agrees(w, ds, l, clock, sweeping, k);
      if k != key { I.ToFrontFinds(w, e, k); }
    }
  }

  /** A reading during the load sees the stage the load is in. */
  lemma ReadKeeps(v: seq<Entry>, c: Config, ds: seq<Decision>, l: Load, clock: int, sweeping: bool,
                  key: string, time: int)
    requires Loading(v, ds, l, clock, sweeping) && clock <= time
    ensures var r := ReadStep(v, c, key, time);
      && Loading(r.0, ds, l, time, sweeping)
      && (forall s: Sight :: s == Sight(key, time, r.1, |ds|, sweeping) ==> Stage(s, ds, l))
  {
    hide LastLive, Expire, Drop;
    ExpireKeeps(v, ds, l, clock, sweeping, time, c.interval, EXPIRE_BATCH);
    var w := Expire(v, time, c.interval, EXPIRE_BATCH);
    assert Agrees(w, ds, l, time, sweeping, key);
    assert ds[..|ds|] == ds;
    if Position(w, key) < |w| {
      TouchKeeps(w, ds, l, time, sweeping, key, time);
    }
  }

  lemma LastLiveNext(ds: seq<Decision>, d: Decision, key: string, l: Load)
    ensures LastLive(ds + [d], key, l) ==
      if d.key == key && Effective(d, l) > l.now then Ban(Effective(d, l), d.action) else LastLive(ds, key, l)
  {
    assert (ds + [d])[..|ds|] == ds;
  }

  /** A decision that has expired is skipped. */
  lemma SkipKeeps(v: seq<Entry>, ds: seq<Decision>, d: Decision, l: Load, clock: int)
    requires Loading(v, ds, l, clock, false) && Effective(d, l) <= l.now
    ensures Loading(v, ds + [d], l, clock, false)
  {
    forall key ensures Agrees(v, ds + [d], l, clock, false, key) {
      assert Agrees(v, ds, l, clock, false, key);
      LastLiveNext(ds, d, key, l);
    }
  }

  /** A live decision is stored under the load's stamp. */
  lemma UpsertKeeps(v: seq<Entry>, ds: seq<Decision>, d: Decision, l: Load, clock: int, slab: bool)
    requires Loading(v, ds, l, clock, false) && Effective(d, l) > l.now
    ensures var r := UpsertStep(v, d.key, Effective(d, l), d.action, l.generation, l.now, false, slab);
      if r.1 then Loading(r.0, ds + [d], l, clock, false) else r.0 == v
  {
    hide LastLive, Position, Drop;
    if Available(v, d.key, slab) {
      var e := Seen(v, d.key, l.now).(blockedUntil := Effective(d, l), action := d.action, generation := l.generation,
                                        pulled := false);
      var u := ToFront(v, Position(v, d.key), e);
      I.ToFrontDistinct(v, e);
      forall k ensures Agrees(u, ds + [d], l, clock, false, k) {
        assert Agrees(v, ds, l, clock, false, k);
        LastLiveNext(ds, d, k, l);
        if k != d.key { I.ToFrontFinds(v, e, k); }
      }
    }
  }

  /** The sweep keeps every entry of its generation, in order, and adds nothing. */
  lemma {:induction false} SweepKeepsCurrent(v: seq<Entry>, generation: nat, batch: nat)
    ensures var w := Sweep(v, generation, batch);
      && (forall e :: e in w ==> e in v)
      && (forall e :: e in v && e.generation == generation ==> e in w)
      && (DistinctKeys(v) ==> DistinctKeys(w))
  {
    if v != [] && batch > 0 {
      var n := |v| - 1;
      assert v == v[..n] + [v[n]];
      if v[n].generation != generation {
        SweepKeepsCurrent(v[..n], generation, batch - 1);
      } else {
        SweepKeepsCurrent(v[..n], generation, batch);
        var p := Sweep(v[..n], generation, batch);
        if DistinctKeys(v) {
          forall i | 0 <= i < |p| ensures p[i].key != v[n].key {
            assert p[i] in v[..n];
          }
        }
      }
    }
  }

  /** A sweep that deletes nothing has nothing left to delete. */
  lemma {:induction false} SweepIdle(v: seq<Entry>, generation: nat, batch: nat)
    requires batch > 0 && |Sweep(v, generation, batch)| == |v|
    ensures forall e :: e in v ==> e.generation == generation
  {
    if v != [] {
      var n := |v| - 1;
      assert v == v[..n] + [v[n]];
      SweepIdle(v[..n], generation, batch);
    }
  }

  /** Positions say the same as membership when keys are distinct. */
  lemma EntryAt(v: seq<Entry>, e: Entry)
    requires DistinctKeys(v) && e in v
    ensures Position(v, e.key) < |v| && v[Position(v, e.key)] == e
  {
    var i :| 0 <= i < |v| && v[i] == e;
    I.PositionIs(v, i);
  }

  lemma SweepKeeps(v: seq<Entry>, ds: seq<Decision>, l: Load, clock: int, sweeping: bool, batch: nat)
    requires Loading(v, ds, l, clock, sweeping)
    ensures Loading(Sweep(v, l.generation, batch), ds, l, clock, true)
  {
    hide LastLive, Position, Sweep;
    var w := Sweep(v, l.generation, batch);
    SweepKeepsCurrent(v, l.generation, batch);
    forall key ensures Agrees(w, ds, l, clock, true, key) {
      assert Agrees(v, ds, l, clock, sweeping, key);
      var i, j := Position(v, key), Position(w, key);
      if j < |w| { EntryAt(v, w[j]); }
      if i < |v| && v[i] in w { EntryAt(w, v[i]); }
    }
  }

  /** One lookup on a settled table answers as the feed alone does. */
  lemma SettledAnswer(v: seq<Entry>, c: Config, ds: seq<Decision>, l: Load, clock: int, key: string, time: int)
    requires Settled(v, ds, l, clock) && clock <= time
    ensures ReadStep(v, c, key, time).1 == ReadingOf(LastLive(ds, key, l), time)
  {
    hide LastLive;
    assert Agrees(v, ds, l, clock, true, key);
    var w := Expire(v, time, c.interval, EXPIRE_BATCH);
    var i := Position(v, key);
    if i < |v| { assert v[i] in v; }
    if i < |w| { I.PositionIs(w, i); }
  }

  /** The table stays settled under lookups, although they evict and reorder it. */
  lemma ReadKeepsSettled(v: seq<Entry>, c: Config, ds: seq<Decision>, l: Load, clock: int, key: string, time: int)
    requires Settled(v, ds, l, clock) && clock <= time
    ensures Settled(ReadStep(v, c, key, time).0, ds, l, time)
  {
    ReadKeeps(v, c, ds, l, clock, true, key, time);
    hide Loading, LastLive;
    var w := Expire(v, time, c.interval, EXPIRE_BATCH);
    var i := Position(w, key);
    assert forall e :: e in w ==> e in v;
    if i < |w| {
      assert w[i] in w;
      assert forall e :: e in Drop(w, i) ==> e in w;
    }
  }

  lemma {:induction false} SettledAnswers(v: seq<Entry>, c: Config, ds: seq<Decision>, l: Load,
                                          clock: int, qs: seq<Query>)
    requires Settled(v, ds, l, clock) && InTime(qs, clock)
    ensures ReadRun(v, c, qs) == FeedAnswers(ds, l, qs)
    decreases |qs|
  {
    hide Settled, LastLive, ReadStep, ReadingOf;
    if qs != [] {
      var q := qs[0];
      SettledAnswer(v, c, ds, l, clock, q.key, q.time);
      ReadKeepsSettled(v, c, ds, l, clock, q.key, q.time);
      SettledAnswers(ReadStep(v, c, q.key, q.time).0, c, ds, l, q.time, qs[1..]);
      assert FeedAnswers(ds, l, qs) == [FeedAnswers(ds, l, qs)[0]] + FeedAnswers(ds, l, qs[1..]);
    }
  }

  /** After the sweep the table answers as the feed alone does, for any lookups from then on. */
  lemma SweptIsFeed(v: seq<Entry>, ds: seq<Decision>, l: Load, clock: int)
    requires Loading(v, ds, l, clock, true) && forall e :: e in v ==> e.generation == l.generation
    ensures Settled(v, ds, l, clock) && IsFeed(v, ds, l, clock)
  {
    hide Loading, ReadRun, FeedAnswers, InTime;
    assert Settled(v, ds, l, clock);
    forall c: Config, qs | InTime(qs, clock) ensures ReadRun(v, c, qs) == FeedAnswers(ds, l, qs) {
      SettledAnswers(v, c, ds, l, clock, qs);
    }
  }

  // ---- What readers can rely on ----

  /** A live line on `key` among the decisions. */
  predicate Listed(ds: seq<Decision>, key: string, l: Load, i: int) {
    0 <= i < |ds| && ds[i].key == key && Effective(ds[i], l) > l.now
  }

  lemma {:induction false} LastLiveIsListed(ds: seq<Decision>, key: string, l: Load)
    ensures var b := LastLive(ds, key, l);
      && (b.NoBan? ==> forall i :: !Listed(ds, key, l, i))
      && (b.Ban? ==> exists i :: Listed(ds, key, l, i) && b == Ban(Effective(ds[i], l), ds[i].action))
  {
    if ds != [] {
      var n := |ds| - 1;
      LastLiveIsListed(ds[..n], key, l);
      assert forall i :: i < n ==> (Listed(ds, key, l, i) <==> Listed(ds[..n], key, l, i));
      if Listed(ds, key, l, n) {
      } else if LastLive(ds[..n], key, l).Ban? {
        var i :| Listed(ds[..n], key, l, i)
                 && LastLive(ds[..n], key, l) == Ban(Effective(ds[..n][i], l), ds[..n][i].action);
        assert Listed(ds, key, l, i) && ds[i] == ds[..n][i];
      }
    }
  }

  /** Every hit comes from the old table or from a line of the feed, unexpired. */
  lemma HitIsOldOrListed(s: Sight, ds: seq<Decision>, l: Load)
    requires s.applied <= |ds| && Stage(s, ds, l) && s.reading.Hit?
    ensures var b := Held(l.before, s.key);
            || (b.Ban? && b.expiry > s.time && b.action == s.reading.action)
            || exists i :: Listed(ds, s.key, l, i) && Effective(ds[i], l) > s.time && ds[i].action == s.reading.action
  {
    var prefix := ds[..s.applied];
    LastLiveIsListed(prefix, s.key, l);
    if LastLive(prefix, s.key, l).Ban? {
      var i :| Listed(prefix, s.key, l, i)
               && LastLive(prefix, s.key, l) == Ban(Effective(prefix[i], l), prefix[i].action);
      assert Listed(ds, s.key, l, i) && ds[i] == prefix[i];
    }
  }

  /**
   A key banned before the load and still listed is never missed while none of
   its bans has run out, whichever batch boundary the reader falls into.
   */
  lemma ListedKeyIsNeverMissed(s: Sight, ds: seq<Decision>, l: Load, line: int)
    requires s.applied <= |ds| && Stage(s, ds, l) && (s.sweeping ==> s.applied == |ds|)
    requires Held(l.before, s.key).Ban? && Held(l.before, s.key).expiry > s.time
    requires Listed(ds, s.key, l, line)
    requires forall i :: Listed(ds, s.key, l, i) ==> Effective(ds[i], l) > s.time
    ensures s.reading.Hit?
  {
    var prefix := ds[..s.applied];
    assert s.sweeping ==> prefix == ds && Listed(prefix, s.key, l, line);
    LastLiveIsListed(prefix, s.key, l);
    if LastLive(prefix, s.key, l).Ban? {
      var i :| Listed(prefix, s.key, l, i)
               && LastLive(prefix, s.key, l) == Ban(Effective(prefix[i], l), prefix[i].action);
      assert Listed(ds, s.key, l, i) && ds[i] == prefix[i];
    }
  }
}
