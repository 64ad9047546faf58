/**
 The table as its callers think of it: nothing is evicted, nothing is pruned and
 no ring is reused. The theorem is that the real table answers the same.
 */
module Ideal {
  import opened TableSpec

  /** Per identity: the last deadline set and every event since then. */
  datatype Ident = Ident(deadline: int, times: seq<int>)

  type Memory = map<string, Ident>

  function Of(m: Memory, key: string): Ident {
    if key in m then m[key] else Ident(0, [])
  }

  /** A failed call leaves the ideal memory alone. */
  function IdealStep(m: Memory, c: Config, call: Call, failed: bool): (Memory, Answer) {
    if failed then (m, Error)
    else match call
    case Lookup(key, now) =>
      var id := Of(m, key);
      (m, if id.deadline > now then Busy(c.threshold, id.deadline)
          else Ok(|Recent(id.times, now - c.interval)|, 0))
    case Record(key, now) =>
      var id := Of(m, key);
      var n := |Recent(id.times, now - c.interval)| + 1;
      if id.deadline > now then (m, Busy(c.threshold, id.deadline))
      else if n >= c.threshold then
        (m[key := Ident(now + c.block, [])], Busy(c.threshold, now + c.block))
      else (m[key := Ident(id.deadline, id.times + [now])], Ok(n, 0))
    case Softban(key, now, ttl) =>
      (m[key := Ident(now + ttl, [])], Ok(0, 0))
  }

  predicate Admissible(c: Config) {
    c.threshold >= 1 && c.interval >= 0 && c.block >= 1
  }

  // ---- Runs ----

  /** The answers of the real table to a sequence of calls, `slab` deciding each allocation. */
  function TableRun(v: seq<Entry>, c: Config, calls: seq<Call>, slab: seq<bool>): (r: seq<Answer>)
    requires |slab| == |calls|
    ensures |r| == |calls|
    decreases |calls|
  {
    if calls == [] then []
    else
      var (w, a) := Step(v, c, calls[0], slab[0]);
      [a] + TableRun(w, c, calls[1..], slab[1..])
  }

  lemma RunFirst(v: seq<Entry>, c: Config, calls: seq<Call>, slab: seq<bool>, i: nat)
    requires |slab| == |calls| && i <= |calls|
    ensures i == |calls| ==> forall r: seq<Answer> :: r + TableRun(v, c, calls[i..], slab[i..]) == r
    ensures i < |calls| ==> forall r: seq<Answer> ::
      var (w, a) := Step(v, c, calls[i], slab[i]);
      r + TableRun(v, c, calls[i..], slab[i..]) == r + [a] + TableRun(w, c, calls[i + 1..], slab[i + 1..])
  {
    hide Step;
    if i < |calls| {
      assert calls[i..][1..] == calls[i + 1..] && slab[i..][1..] == slab[i + 1..];
    }
  }

  /** The ideal answers to the same calls, leaving out those that failed. */
  function IdealRun(m: Memory, c: Config, calls: seq<Call>, failed: seq<bool>): (r: seq<Answer>)
    requires |failed| == |calls|
    ensures |r| == |calls|
    decreases |calls|
  {
    if calls == [] then []
    else
      var (n, a) := IdealStep(m, c, calls[0], failed[0]);
      [a] + IdealRun(n, c, calls[1..], failed[1..])
  }

  function Failures(answers: seq<Answer>): (f: seq<bool>)
    ensures |f| == |answers|
    ensures forall i :: 0 <= i < |f| ==> f[i] == answers[i].Error?
  {
    seq(|answers|, i requires 0 <= i < |answers| => answers[i].Error?)
  }

  /** A call fails on a refused allocation, or for a duration that is none; a lookup never fails. */
  predicate MayFail(call: Call, slab: bool) {
    !call.Lookup? && (!slab || (call.Softban? && call.ttl <= 0))
  }

  lemma StepFailure(v: seq<Entry>, c: Config, call: Call, slab: bool)
    ensures Step(v, c, call, slab).1.Error? ==> MayFail(call, slab)
    ensures call.Softban? && call.ttl <= 0 ==> Step(v, c, call, slab).1.Error?
  {
    hide Expire, Recent, Position, ToFront;
  }

  lemma {:induction false} RunFailures(v: seq<Entry>, c: Config, calls: seq<Call>, slab: seq<bool>)
    requires |slab| == |calls|
    ensures forall i :: 0 <= i < |calls| && TableRun(v, c, calls, slab)[i].Error? ==> MayFail(calls[i], slab[i])
    decreases |calls|
  {
    hide Step, MayFail;
    if calls != [] {
      StepFailure(v, c, calls[0], slab[0]);
      var w := Step(v, c, calls[0], slab[0]).0;
      RunFailures(w, c, calls[1..], slab[1..]);
      var answers := TableRun(v, c, calls, slab);
      forall i | 0 <= i < |calls| && answers[i].Error? ensures MayFail(calls[i], slab[i]) {
        if i > 0 {
          assert answers[i] == TableRun(w, c, calls[1..], slab[1..])[i - 1];
          assert calls[1..][i - 1] == calls[i] && slab[1..][i - 1] == slab[i];
        }
      }
    }
  }

  /** Calls come at nondecreasing times, from `clock` on. */
  predicate Timed(calls: seq<Call>, clock: int) {
    calls == [] || (clock <= calls[0].now && Timed(calls[1..], calls[0].now))
  }

  // ---- The simulation ----

  predicate Matches(v: seq<Entry>, m: Memory, c: Config, clock: int, key: string) {
    var i := Position(v, key);
    var id := Of(m, key);
    if i == |v| then id.deadline <= clock && Recent(id.times, clock - c.interval) == []
    else
      && Recent(v[i].events, clock - c.interval) == Recent(id.times, clock - c.interval)
      && (v[i].blockedUntil == id.deadline || (v[i].blockedUntil == 0 && id.deadline <= clock))
      && (v[i].blockedUntil != 0 ==> v[i].events == [] && id.times == [])
  }

  /** No event of an entry is newer than its last sight, no sight newer than the clock. */
  predicate Dated(v: seq<Entry>, clock: int) {
    forall e :: e in v ==> e.lastSeen <= clock && forall t :: t in e.events ==> t <= e.lastSeen
  }

  ghost predicate Simulates(v: seq<Entry>, m: Memory, c: Config, clock: int) {
    && 0 <= clock
    && DistinctKeys(v)
    && Dated(v, clock)
    && forall key :: Matches(v, m, c, clock, key)
  }

  // ---- Windows ----

  lemma {:induction false} RecentTwice(s: seq<int>, a: int, b: int)
    requires a <= b
    ensures Recent(Recent(s, a), b) == Recent(s, b)
  {
    if s != [] {
      var n := |s| - 1;
      RecentTwice(s[..n], a, b);
      var r := Recent(s[..n], a);
      if s[n] > a {
        assert (r + [s[n]])[..|r|] == r;
      }
    }
  }

  lemma {:induction false} RecentMembers(s: seq<int>, a: int, t: int)
    ensures t in Recent(s, a) <==> t in s && t > a
  {
    if s != [] {
      RecentMembers(s[..|s| - 1], a, t);
      assert s == s[..|s| - 1] + [s[|s| - 1]];
    }
  }

  lemma RecentNone(s: seq<int>, a: int)
    requires forall t :: t in s ==> t <= a
    ensures Recent(s, a) == []
  {
    var r := Recent(s, a);
    if r != [] {
      RecentMembers(s, a, r[0]);
    }
  }

  /** Windows that agree now agree at every later time. */
  lemma RecentLater(s: seq<int>, r: seq<int>, a: int, b: int)
    requires a <= b && Recent(s, a) == Recent(r, a)
    ensures Recent(s, b) == Recent(r, b)
  {
    RecentTwice(s, a, b);
    RecentTwice(r, a, b);
  }

  lemma RecentNothing(a: int)
    ensures Recent([], a) == []
  {
  }

  lemma RecentAppend(s: seq<int>, t: int, a: int)
    ensures Recent(s + [t], a) == if t > a then Recent(s, a) + [t] else Recent(s, a)
  {
    assert (s + [t])[..|s|] == s;
  }

  // ---- Queue moves ----

  lemma PositionIs(v: seq<Entry>, i: nat)
    requires i < |v| && DistinctKeys(v)
    ensures Position(v, v[i].key) == i
  {
  }

  lemma DropAt<T>(v: seq<T>, i: nat, j: nat)
    requires i < |v| && j < |v| - 1
    ensures Drop(v, i)[j] == v[if j < i then j else j + 1]
  {
  }

  /** Without the entry of a key the rest is distinct and free of the key. */
  lemma DropDistinct(v: seq<Entry>, key: string)
    requires DistinctKeys(v)
    ensures var d := Drop(v, Position(v, key));
      && DistinctKeys(d)
      && forall j :: 0 <= j < |d| ==> d[j] in v && d[j].key != key
  {
    var i := Position(v, key);
    var d := Drop(v, i);
    if i < |v| {
      hide Position, Drop;
      forall j | 0 <= j < |d| ensures d[j] == v[if j < i then j else j + 1] {
        DropAt(v, i, j);
      }
    }
  }

  lemma PushDistinct(d: seq<Entry>, e: Entry)
    requires DistinctKeys(d) && forall j :: 0 <= j < |d| ==> d[j].key != e.key
    ensures DistinctKeys([e] + d) && Position([e] + d, e.key) == 0
  {
  }

  /** Putting a key at the front loses and duplicates nobody else. */
  lemma ToFrontDistinct(v: seq<Entry>, e: Entry)
    requires DistinctKeys(v)
    ensures var w := ToFront(v, Position(v, e.key), e);
      && DistinctKeys(w) && Position(w, e.key) == 0
      && (forall x :: x in w ==> x == e || x in v)
  {
    hide Position, Drop, DistinctKeys;
    DropDistinct(v, e.key);
    PushDistinct(Drop(v, Position(v, e.key)), e);
  }

  lemma ToFrontFinds(v: seq<Entry>, e: Entry, k: string)
    requires DistinctKeys(v) && k != e.key
    ensures var w := ToFront(v, Position(v, e.key), e);
      && (Position(w, k) == |w| <==> Position(v, k) == |v|)
      && (Position(v, k) < |v| ==> w[Position(w, k)] == v[Position(v, k)])
  {
    var i := Position(v, e.key);
    var w := ToFront(v, i, e);
    var p := Position(v, k);
    ToFrontDistinct(v, e);
    if p < |v| {
      var q := if p < i then p + 1 else p;
      assert w[q] == v[p];
      PositionIs(w, q);
    } else {
      assert forall x :: x in w ==> x.key != k;
    }
  }

  /** An entry tells what the memory tells, for every time from `now` on. */
  predicate Tells(e: Entry, id: Ident, c: Config, now: int) {
    && e.lastSeen == now && (forall t :: t in e.events ==> t <= now)
    && Recent(e.events, now - c.interval) == Recent(id.times, now - c.interval)
    && (e.blockedUntil == id.deadline || (e.blockedUntil == 0 && id.deadline <= now))
    && (e.blockedUntil != 0 ==> e.events == [] && id.times == [])
  }

  /** What an identity that is not blocked remembers after one more event. */
  function After(id: Ident, c: Config, now: int): Ident {
    if |Recent(id.times, now - c.interval)| + 1 >= c.threshold then Ident(now + c.block, [])
    else Ident(id.deadline, id.times + [now])
  }

  // ---- Steps ----

  /** Time passing breaks nothing. */
  lemma AdvanceKeeps(v: seq<Entry>, m: Memory, c: Config, clock: int, now: int)
    requires Simulates(v, m, c, clock) && clock <= now
    ensures Simulates(v, m, c, now)
  {
    forall key ensures Matches(v, m, c, now, key) {
      assert Matches(v, m, c, clock, key);
      var i := Position(v, key);
      var id := Of(m, key);
      if i < |v| {
        RecentLater(v[i].events, id.times, clock - c.interval, now - c.interval);
      } else {
        RecentLater(id.times, [], clock - c.interval, now - c.interval);
      }
    }
  }

  /** Evicting an entry out of its window and out of its block loses nothing. */
  lemma ExpireKeeps(v: seq<Entry>, m: Memory, c: Config, now: int, batch: nat)
    requires Simulates(v, m, c, now)
    ensures Simulates(Expire(v, now, c.interval, batch), m, c, now)
  {
    var w := Expire(v, now, c.interval, batch);
    forall key ensures Matches(w, m, c, now, key) {
      assert Matches(v, m, c, now, key);
      var i := Position(v, key);
      if i < |w| {
        PositionIs(w, i);
      } else {
        if i < |v| {
          assert v[i] in v;
          RecentNone(v[i].events, now - c.interval);
        }
      }
    }
  }

  /** Replacing what the table and the memory hold for one key, consistently. */
  lemma ReplaceKeeps(v: seq<Entry>, m: Memory, c: Config, now: int, e: Entry, n: Memory)
    requires Simulates(v, m, c, now)
    requires forall k :: k != e.key ==> Of(n, k) == Of(m, k)
    requires Tells(e, Of(n, e.key), c, now)
    ensures Simulates(ToFront(v, Position(v, e.key), e), n, c, now)
  {
    ToFrontDistinct(v, e);
    var w := ToFront(v, Position(v, e.key), e);
    forall key ensures Matches(w, n, c, now, key) {
      assert Matches(v, m, c, now, key);
      if key != e.key { ToFrontFinds(v, e, key); }
    }
  }

  /** What the table knows of a key, whether it is stored or not. */
  lemma SeenTells(v: seq<Entry>, m: Memory, c: Config, now: int, key: string)
    requires Simulates(v, m, c, now)
    ensures Seen(v, key, now).key == key && Tells(Seen(v, key, now), Of(m, key), c, now)
  {
    assert Matches(v, m, c, now, key);
    var i := Position(v, key);
    if i < |v| { assert v[i] in v; }
  }

  lemma RefreshTells(e: Entry, id: Ident, c: Config, now: int)
    requires Tells(e, id, c, now) && 0 <= now && e.blockedUntil <= now
    ensures Refresh(c, e, now).key == e.key && Tells(Refresh(c, e, now), id, c, now)
    ensures |Refresh(c, e, now).events| == |Recent(id.times, now - c.interval)|
    ensures Refresh(c, e, now).blockedUntil == 0 && id.deadline <= now
  {
    hide Recent;
    RecentTwice(e.events, now - c.interval, now - c.interval);
    RecentNothing(now - c.interval);
    var r := Recent(e.events, now - c.interval);
    forall i | 0 <= i < |r| ensures r[i] <= now {
      RecentMembers(e.events, now - c.interval, r[i]);
    }
  }

  lemma CountedTells(e: Entry, id: Ident, c: Config, now: int)
    requires Admissible(c) && Tells(e, id, c, now) && 0 <= now && e.blockedUntil <= now
    ensures var n := |Recent(id.times, now - c.interval)| + 1; var f := Counted(c, e, now);
      && f.key == e.key && id.deadline <= now && Tells(f, After(id, c, now), c, now)
      && if n >= c.threshold then f.blockedUntil == now + c.block
         else f.blockedUntil == 0 && |f.events| == n
  {
    hide Recent;
    RefreshTells(e, id, c, now);
    RecentNothing(now - c.interval);
    RecentAppend(Refresh(c, e, now).events, now, now - c.interval);
    RecentAppend(id.times, now, now - c.interval);
  }

  lemma LookupSimulates(v: seq<Entry>, m: Memory, c: Config, key: string, now: int)
    requires Admissible(c) && Simulates(v, m, c, now)
    ensures LookupStep(v, c, key, now).1 == IdealStep(m, c, Lookup(key, now), false).1
    ensures Simulates(LookupStep(v, c, key, now).0, m, c, now)
  {
    ExpireKeeps(v, m, c, now, EXPIRE_BATCH);
    var w := Expire(v, now, c.interval, EXPIRE_BATCH);
    var e := Seen(w, key, now);
    SeenTells(w, m, c, now, key);
    if Position(w, key) == |w| {
      assert LookupStep(v, c, key, now) == (w, Ok(0, 0));
      assert Matches(w, m, c, now, key);
    } else if e.blockedUntil > now {
      assert LookupStep(v, c, key, now) == (ToFront(w, Position(w, key), e), Busy(c.threshold, e.blockedUntil));
      ReplaceKeeps(w, m, c, now, e, m);
    } else {
      var f := Refresh(c, e, now);
      assert LookupStep(v, c, key, now) == (ToFront(w, Position(w, key), f), Ok(|f.events|, 0));
      RefreshTells(e, Of(m, key), c, now);
      ReplaceKeeps(w, m, c, now, f, m);
    }
  }

  /** What recording does for an identity that is not blocked. */
  lemma RecordOpen(v: seq<Entry>, m: Memory, c: Config, key: string, now: int, slab: bool, w: seq<Entry>, e: Entry)
    requires w == Expire(v, now, c.interval, EXPIRE_BATCH) && Available(w, key, slab) && e == Seen(w, key, now)
    requires Admissible(c) && 0 <= now && e.blockedUntil <= now && Tells(e, Of(m, key), c, now)
    ensures RecordStep(v, c, key, now, slab).0 == ToFront(w, Position(w, key), Counted(c, e, now))
    ensures RecordStep(v, c, key, now, slab).1 == IdealStep(m, c, Record(key, now), false).1
    ensures !RecordStep(v, c, key, now, slab).1.Error?
    ensures IdealStep(m, c, Record(key, now), false).0 == m[key := After(Of(m, key), c, now)]
  {
    hide Recent, Position, Expire, Seen, Counted, Tells, ToFront, Drop;
    CountedTells(e, Of(m, key), c, now);
  }

  lemma RecordSimulates(v: seq<Entry>, m: Memory, c: Config, key: string, now: int, slab: bool)
    requires Admissible(c) && Simulates(v, m, c, now)
    ensures var r := RecordStep(v, c, key, now, slab); var i := IdealStep(m, c, Record(key, now), r.1.Error?);
      r.1 == i.1 && Simulates(r.0, i.0, c, now)
  {
    hide Position, Recent, Expire, Matches, Tells, Counted, After, DistinctKeys, Dated;
    ExpireKeeps(v, m, c, now, EXPIRE_BATCH);
    var w := Expire(v, now, c.interval, EXPIRE_BATCH);
    var e := Seen(w, key, now);
    SeenTells(w, m, c, now, key);
    if Available(w, key, slab) && e.blockedUntil <= now {
      CountedTells(e, Of(m, key), c, now);
      ReplaceKeeps(w, m, c, now, Counted(c, e, now), m[key := After(Of(m, key), c, now)]);
      RecordOpen(v, m, c, key, now, slab, w, e);
    } else if Available(w, key, slab) {
      ReplaceKeeps(w, m, c, now, e, m);
    }
  }

  lemma SoftbanSimulates(v: seq<Entry>, m: Memory, c: Config, key: string, now: int, ttl: int, slab: bool)
    requires Admissible(c) && Simulates(v, m, c, now)
    ensures var r := SoftbanStep(v, c, key, now, ttl, slab);
      var i := IdealStep(m, c, Softban(key, now, ttl), r.1.Error?);
      r.1 == i.1 && Simulates(r.0, i.0, c, now)
  {
    hide Position, Recent, Expire, Matches, DistinctKeys, Dated;
    if ttl > 0 {
      ExpireKeeps(v, m, c, now, EXPIRE_BATCH);
      var w := Expire(v, now, c.interval, EXPIRE_BATCH);
      if Available(w, key, slab) {
        var e := Seen(w, key, now).(blockedUntil := now + ttl, events := []);
        RecentNothing(now - c.interval);
        ReplaceKeeps(w, m, c, now, e, m[key := Ident(now + ttl, [])]);
      }
    }
  }

  lemma StepSimulates(v: seq<Entry>, m: Memory, c: Config, call: Call, slab: bool)
    requires Admissible(c) && Simulates(v, m, c, call.now)
    ensures var r := Step(v, c, call, slab); var i := IdealStep(m, c, call, r.1.Error?);
      r.1 == i.1 && Simulates(r.0, i.0, c, call.now)
  {
    match call {
      case Lookup(key, now) => LookupSimulates(v, m, c, key, now);
      case Record(key, now) => RecordSimulates(v, m, c, key, now, slab);
      case Softban(key, now, ttl) => SoftbanSimulates(v, m, c, key, now, ttl, slab);
    }
  }

  /** The two runs agree from any pair of matching states. */
  lemma {:induction false} RunSimulates(v: seq<Entry>, m: Memory, c: Config, clock: int,
                                        calls: seq<Call>, slab: seq<bool>)
    requires Admissible(c) && Simulates(v, m, c, clock)
    requires |slab| == |calls| && Timed(calls, clock)
    ensures var answers := TableRun(v, c, calls, slab);
      answers == IdealRun(m, c, calls, Failures(answers))
    decreases |calls|
  {
    hide Matches, Step, IdealStep, Simulates;
    if calls != [] {
      AdvanceKeeps(v, m, c, clock, calls[0].now);
      StepSimulates(v, m, c, calls[0], slab[0]);
      var (w, a) := Step(v, c, calls[0], slab[0]);
      var (n, b) := IdealStep(m, c, calls[0], a.Error?);
      RunSimulates(w, n, c, calls[0].now, calls[1..], slab[1..]);
      var answers := TableRun(v, c, calls, slab);
      assert Failures(answers)[1..] == Failures(TableRun(w, c, calls[1..], slab[1..]));
    }
  }

  /**
   From an empty zone, every call that does not fail answers as the ideal
   memory does, whatever was evicted, and calls fail only for want of memory or
   of a duration.
   */
  lemma AnswersAreIdeal(c: Config, calls: seq<Call>, slab: seq<bool>)
    requires Admissible(c) && |slab| == |calls| && Timed(calls, 0)
    ensures var answers := TableRun([], c, calls, slab);
      && answers == IdealRun(map[], c, calls, Failures(answers))
      && forall i :: 0 <= i < |calls| && answers[i].Error? ==> MayFail(calls[i], slab[i])
  {
    RunSimulates([], map[], c, 0, calls, slab);
    RunFailures([], c, calls, slab);
  }
}
