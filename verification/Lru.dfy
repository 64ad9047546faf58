/** The queue really is in order of last sight, whatever calls are made. */
module Lru {
  import opened TableSpec

  predicate NewestFirst(v: seq<Entry>, clock: int) {
    && (forall i, j :: 0 <= i < j < |v| ==> v[i].lastSeen >= v[j].lastSeen)
    && (forall i :: 0 <= i < |v| ==> v[i].lastSeen <= clock)
  }

  lemma ToFrontKeepsOrder(v: seq<Entry>, i: nat, e: Entry, clock: int)
    requires i <= |v| && NewestFirst(v, clock) && e.lastSeen == clock
    ensures NewestFirst(ToFront(v, i, e), clock)
  {
    var d := Drop(v, i);
    assert forall j :: 0 <= j < |d| ==> d[j] == v[if j < i then j else j + 1];
  }

  lemma ExpireKeepsOrder(v: seq<Entry>, now: int, interval: int, clock: int)
    requires NewestFirst(v, clock) && clock <= now
    ensures NewestFirst(Expire(v, now, interval, EXPIRE_BATCH), now)
  {
  }

  lemma LookupKeepsOrder(v: seq<Entry>, c: Config, key: string, now: int)
    requires NewestFirst(Expire(v, now, c.interval, EXPIRE_BATCH), now)
    ensures NewestFirst(LookupStep(v, c, key, now).0, now)
  {
    hide NewestFirst, Expire, Position, ToFront, Recent;
    var w := Expire(v, now, c.interval, EXPIRE_BATCH);
    var e := Seen(w, key, now);
    ToFrontKeepsOrder(w, Position(w, key), if e.blockedUntil > now then e else Refresh(c, e, now), now);
  }

  lemma RecordKeepsOrder(v: seq<Entry>, c: Config, key: string, now: int, slab: bool)
    requires NewestFirst(Expire(v, now, c.interval, EXPIRE_BATCH), now)
    ensures NewestFirst(RecordStep(v, c, key, now, slab).0, now)
  {
    hide NewestFirst, Expire, Position, ToFront, Recent;
    var w := Expire(v, now, c.interval, EXPIRE_BATCH);
    var e := Seen(w, key, now);
    ToFrontKeepsOrder(w, Position(w, key), if e.blockedUntil > now then e else Counted(c, e, now), now);
  }

  lemma SoftbanKeepsOrder(v: seq<Entry>, c: Config, key: string, now: int, ttl: int, slab: bool)
    requires NewestFirst(v, now) && NewestFirst(Expire(v, now, c.interval, EXPIRE_BATCH), now)
    ensures NewestFirst(SoftbanStep(v, c, key, now, ttl, slab).0, now)
  {
    hide NewestFirst, Expire, Position, ToFront;
    var w := Expire(v, now, c.interval, EXPIRE_BATCH);
    ToFrontKeepsOrder(w, Position(w, key), Seen(w, key, now).(blockedUntil := now + ttl, events := []), now);
  }

  /** Every call at a later time keeps the queue newest first. */
  lemma StepKeepsOrder(v: seq<Entry>, c: Config, call: Call, slab: bool, clock: int)
    requires NewestFirst(v, clock) && clock <= call.now
    ensures NewestFirst(Step(v, c, call, slab).0, call.now)
  {
    ExpireKeepsOrder(v, call.now, c.interval, clock);
    assert NewestFirst(v, call.now);
    hide NewestFirst, Expire, LookupStep, RecordStep, SoftbanStep;
    match call {
      case Lookup(key, now) => LookupKeepsOrder(v, c, key, now);
      case Record(key, now) => RecordKeepsOrder(v, c, key, now, slab);
      case Softban(key, now, ttl) => SoftbanKeepsOrder(v, c, key, now, ttl, slab);
    }
  }

  /** Evicted entries are the least recently seen, and a tail still in its window ends the search for good. */
  lemma EvictionIsLru(v: seq<Entry>, now: int, interval: int, batch: nat, clock: int)
    requires NewestFirst(v, clock)
    ensures var w := Expire(v, now, interval, batch);
      && (forall i, j :: 0 <= i < |w| <= j < |v| ==> v[j].lastSeen <= w[i].lastSeen)
      && (w != [] && now - w[|w| - 1].lastSeen < interval ==>
            forall i :: 0 <= i < |w| ==> !Evictable(w[i], now, interval))
  {
  }
}
