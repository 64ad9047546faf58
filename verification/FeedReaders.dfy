/** Readers of the ban table: those let in whenever a load releases the lock, and those that come after it. */
module FeedReaders {
  import opened TableSpec
  import opened SharedTable
  import opened FeedFormat
  import opened FeedSpec

  /** A reader's call, `tick` seconds after the previous one. */
  datatype Read = Read(key: string, tick: nat)

  // ---- Who asked what, and when ----

  function EndOf(calls: seq<Read>, clock: int): (e: int)
    ensures clock <= e
  {
    if calls == [] then clock else EndOf(calls[..|calls| - 1], clock) + calls[|calls| - 1].tick
  }

  /** The lookups that `calls` amount to from `clock` on. */
  function Queries(calls: seq<Read>, clock: int): (q: seq<Query>)
    ensures |q| == |calls|
  {
    if calls == [] then []
    else Queries(calls[..|calls| - 1], clock) + [Query(calls[|calls| - 1].key, EndOf(calls, clock))]
  }

  function Asked(log: seq<Sight>): (q: seq<Query>)
    ensures |q| == |log|
  {
    seq(|log|, i requires 0 <= i < |log| => Query(log[i].key, log[i].time))
  }

  /** The log has one entry for each call, in order, at the time of the call; the last one came at `clock`. */
  predicate Heard(log: seq<Sight>, calls: seq<Read>, start: int, clock: int) {
    Asked(log) == Queries(calls, start) && clock == EndOf(calls, start)
  }

  lemma {:induction false} QueriesJoin(a: seq<Read>, b: seq<Read>, clock: int)
    ensures EndOf(a + b, clock) == EndOf(b, EndOf(a, clock))
    ensures Queries(a + b, clock) == Queries(a, clock) + Queries(b, EndOf(a, clock))
  {
    if b == [] {
      assert a + b == a;
    } else {
      var n := |b| - 1;
      QueriesJoin(a, b[..n], clock);
      assert (a + b)[..|a + b| - 1] == a + b[..n];
    }
  }

  lemma HeardJoin(log: seq<Sight>, calls: seq<Read>, start: int, mid: int,
                  more: seq<Sight>, next: seq<Read>, clock: int)
    requires Heard(log, calls, start, mid) && Heard(more, next, mid, clock)
    ensures Heard(log + more, calls + next, start, clock) && start <= mid <= clock
  {
    QueriesJoin(calls, next, start);
    assert Asked(log + more) == Asked(log) + Asked(more);
  }

  lemma HeardNext(log: seq<Sight>, calls: seq<Read>, i: nat, start: int, mid: int, s: Sight)
    requires i < |calls| && Heard(log, calls[..i], start, mid)
    requires s.key == calls[i].key && s.time == mid + calls[i].tick
    ensures Heard(log + [s], calls[..i + 1], start, s.time)
  {
    assert calls[..i + 1][..i] == calls[..i];
    assert Asked(log + [s]) == Asked(log) + [Query(s.key, s.time)];
  }

  lemma HeardNobody(clock: int)
    ensures Heard([], [], clock, clock)
  {
  }

  /** All calls let in by `n` releases of the lock from the `first` one on. */
  function Released(readers: nat -> seq<Read>, first: nat, n: nat): seq<Read> {
    if n == 0 then [] else Released(readers, first, n - 1) + readers(first + n - 1)
  }

  lemma {:induction false} ReleasedJoin(readers: nat -> seq<Read>, first: nat, m: nat, n: nat)
    ensures Released(readers, first, m + n) == Released(readers, first, m) + Released(readers, first + m, n)
  {
    if n > 0 {
      ReleasedJoin(readers, first, m, n - 1);
    }
  }

  // ---- Readers during a load ----

  /** A reading made between `start` and `clock` that fits its stage of the load. */
  predicate Fair(s: Sight, all: seq<Decision>, l: Load, start: int, clock: int) {
    s.applied <= |all| && start <= s.time <= clock && Stage(s, all, l)
  }

  lemma FairLater(log: seq<Sight>, all: seq<Decision>, l: Load, start: int, clock: int, from: int, to: int)
    requires from <= start && clock <= to && forall s :: s in log ==> Fair(s, all, l, start, clock)
    ensures forall s :: s in log ==> Fair(s, all, l, from, to)
  {
    hide Stage;
  }

  /** One reader's call inside a released lock. */
  method LetReaderIn(z: Zone, key: string, time: int, applied: nat, sweeping: bool,
                     ghost all: seq<Decision>, ghost l: Load, ghost clock: int)
    returns (s: Sight)
    requires z.Valid() && applied <= |all| && Loading(z.view, all[..applied], l, clock, sweeping) && clock <= time
    modifies z.Repr()
    ensures z.Valid() && Loading(z.view, all[..applied], l, time, sweeping)
    ensures s == Sight(key, time, s.reading, applied, sweeping) && Stage(s, all, l)
    ensures (z.view, s.reading) == ReadStep(old(z.view), z.Conf(), key, time)
    ensures z.csGeneration == old(z.csGeneration) && |old(z.view)| - EXPIRE_BATCH <= |z.view| <= |old(z.view)|
    ensures forall x :: x in z.queue ==> x in old(z.queue)
  {
    ReadKeeps(z.view, z.Conf(), all[..applied], l, clock, sweeping, key, time);
    ReadShrinks(z.view, z.Conf(), key, time);
    hide *;
    var r := z.CrowdsecLookup(key, time);
    s := Sight(key, time, r, applied, sweeping);
    StageOfPrefix(s, all, applied, l);
  }

  /** Readers' calls inside a released lock, one after the other. */
  method LetReadersIn(z: Zone, calls: seq<Read>, clock: int, applied: nat, sweeping: bool,
                      ghost all: seq<Decision>, ghost l: Load)
    returns (time: int, log: seq<Sight>)
    requires z.Valid() && applied <= |all| && Loading(z.view, all[..applied], l, clock, sweeping)
    modifies z.Repr()
    ensures z.Valid() && Loading(z.view, all[..applied], l, time, sweeping)
    ensures Heard(log, calls, clock, time) && |log| == |calls| && clock <= time
    ensures forall s :: s in log ==> s.applied == applied && s.sweeping == sweeping && Fair(s, all, l, clock, time)
    ensures z.csGeneration == old(z.csGeneration)
    ensures |old(z.view)| - EXPIRE_BATCH * |calls| <= |z.view| <= |old(z.view)|
    ensures forall x :: x in z.queue ==> x in old(z.queue)
  {
    hide Zone.Valid, Loading, Stage, Asked, Queries, EndOf, ReadStep;
    time, log := clock, [];
    HeardNobody(clock);
    assert calls[..0] == [];
    for i := 0 to |calls|
      invariant z.Valid() && Loading(z.view, all[..applied], l, time, sweeping) && clock <= time
      invariant Heard(log, calls[..i], clock, time) && |log| == i
      invariant forall s :: s in log ==> s.applied == applied && s.sweeping == sweeping && Fair(s, all, l, clock, time)
      invariant z.csGeneration == old(z.csGeneration)
      invariant |old(z.view)| - EXPIRE_BATCH * i <= |z.view| <= |old(z.view)|
      invariant forall x :: x in z.queue ==> x in old(z.queue)
    {
      ghost var before := time;
      time := time + calls[i].tick;
      var s := LetReaderIn(z, calls[i].key, time, applied, sweeping, all, l, before);
      HeardNext(log, calls, i, clock, before, s);
      log := log + [s];
    }
    assert calls[..|calls|] == calls;
  }

  lemma ReadShrinks(v: seq<Entry>, c: Config, key: string, time: int)
    ensures |v| - EXPIRE_BATCH <= |ReadStep(v, c, key, time).0| <= |v|
  {
  }

  lemma StageOfPrefix(s: Sight, all: seq<Decision>, applied: nat, l: Load)
    requires s.applied == applied <= |all|
    ensures Stage(s, all[..applied], l) <==> Stage(s, all, l)
  {
    assert all[..applied][..applied] == all[..applied];
  }

  // ---- Readers after a load ----

  function LastTime(qs: seq<Query>, clock: int): int {
    if qs == [] then clock else qs[|qs| - 1].time
  }

  lemma {:induction false} InTimeNext(qs: seq<Query>, clock: int, i: nat)
    requires InTime(qs, clock) && i < |qs|
    ensures LastTime(qs[..i], clock) <= qs[i].time == LastTime(qs[..i + 1], clock)
    decreases |qs|
  {
    if i > 0 {
      InTimeNext(qs[1..], qs[0].time, i - 1);
      assert qs[1..][..i - 1] == qs[1..i] && qs[1..][i - 1] == qs[i];
    }
  }

  /** Any lookups after a load answer as the feed alone does, and so will those after them. */
  method ReadAll(z: Zone, qs: seq<Query>, ghost ds: seq<Decision>, ghost l: Load, ghost clock: int)
    returns (readings: seq<Reading>)
    requires z.Valid() && InTime(qs, clock) && Settled(z.view, ds, l, clock)
    modifies z.Repr()
    ensures z.Valid() && readings == FeedAnswers(ds, l, qs) && Settled(z.view, ds, l, LastTime(qs, clock))
    ensures z.csGeneration == old(z.csGeneration)
    ensures forall x :: x in z.queue ==> x in old(z.queue)
  {
    hide Zone.Valid, ReadStep, Settled, InTime, ReadingOf, LastLive;
    readings := [];
    for i := 0 to |qs|
      invariant z.Valid() && Settled(z.view, ds, l, LastTime(qs[..i], clock)) && |readings| == i
      invariant forall k :: 0 <= k < i ==> readings[k] == FeedAnswers(ds, l, qs)[k]
      invariant z.csGeneration == old(z.csGeneration)
      invariant forall x :: x in z.queue ==> x in old(z.queue)
    {
      InTimeNext(qs, clock, i);
      SettledAnswer(z.view, z.Conf(), ds, l, LastTime(qs[..i], clock), qs[i].key, qs[i].time);
      ReadKeepsSettled(z.view, z.Conf(), ds, l, LastTime(qs[..i], clock), qs[i].key, qs[i].time);
      var r := z.CrowdsecLookup(qs[i].key, qs[i].time);
      readings := readings + [r];
    }
    assert qs[..|qs|] == qs;
  }
}
