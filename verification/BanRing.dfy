/**
 The bounded ring of bans between request handlers and the draining timer, on
 64-bit counters that wrap. The Redis push ring and the sink ring are both it.
 */
module BanRing {

  const CAPACITY: nat := 4096
  const WORD: nat := 0x1_0000_0000_0000_0000

  datatype Ban = Ban(ip: string, action: nat, expiry: int)

  /** A ban that can still be acted on: an address that fits and an expiry to come. */
  predicate Usable(b: Ban, now: int, maxIp: nat) {
    b.ip != [] && |b.ip| < maxIp && b.expiry > now
  }

  datatype Next = Empty | Next(ban: Ban)

  function Out(next: Next): seq<Ban> {
    if next.Next? then [next.ban] else []
  }

  function Wrap(n: int): (r: nat)
    ensures r < WORD
  {
    n % WORD
  }

  /** The slot `i` places behind counter value `tail`. */
  function SlotOf(tail: nat, i: nat): (r: nat)
    ensures r < CAPACITY
  {
    (tail + i) % CAPACITY
  }

  lemma AddMultiple(a: nat, k: nat)
    ensures (a + CAPACITY * k) % CAPACITY == a % CAPACITY
  {
  }

  /** Slots survive the wrap of a counter because the capacity divides its range. */
  lemma WrapKeepsSlot(n: nat, i: nat)
    ensures SlotOf(Wrap(n), i) == SlotOf(n, i)
  {
    var k := n / WORD * 0x10_0000_0000_0000;
    assert n + i == Wrap(n) + i + CAPACITY * k;
    AddMultiple(Wrap(n) + i, k);
  }

  /** Adding to a counter wraps at most once. */
  lemma WrapOnce(n: nat)
    requires n < 2 * WORD
    ensures Wrap(n) == if n < WORD then n else n - WORD
    ensures Wrap(n - WORD) == if n < WORD then n else n - WORD
  {
  }

  lemma WrapDistance(tail: nat, n: nat)
    requires tail < WORD && n <= CAPACITY
    ensures Wrap(Wrap(tail + n) - tail) == n
    ensures Wrap(Wrap(tail + n) + 1) == Wrap(tail + (n + 1))
    ensures Wrap(tail + n) == tail <==> n == 0
  {
    hide Wrap;
    WrapOnce(tail + n);
    WrapOnce(tail + n + 1);
    WrapOnce(Wrap(tail + n) + 1);
    WrapOnce(n);
  }

  lemma WrapNext(tail: nat, n: nat)
    requires tail < WORD && 0 < n <= CAPACITY
    ensures Wrap(tail + n) == Wrap(Wrap(tail + 1) + (n - 1))
  {
  }

  lemma SlotsDiffer(tail: nat, i: nat, j: nat)
    requires i < j < i + CAPACITY
    ensures SlotOf(tail, i) != SlotOf(tail, j)
  {
    var a, b := (tail + i) / CAPACITY, (tail + j) / CAPACITY;
    assert tail + i == CAPACITY * a + SlotOf(tail, i) && tail + j == CAPACITY * b + SlotOf(tail, j);
  }

  lemma SlotSum(tail: nat, n: nat)
    ensures SlotOf(tail + n, 0) == SlotOf(tail, n)
  {
  }

  lemma WrapAdd(n: nat)
    ensures Wrap(Wrap(n) + 1) == Wrap(n + 1)
  {
  }

  lemma SlotShift(tail: nat, i: nat)
    ensures SlotOf(Wrap(tail + 1), i) == SlotOf(tail, i + 1)
  {
    WrapKeepsSlot(tail + 1, i);
  }

  /** The slots from the one of `tail` on hold the bans. */
  predicate Holds(ring: seq<Ban>, tail: nat, bans: seq<Ban>)
    requires |ring| == CAPACITY
  {
    forall i: nat :: i < |bans| ==> ring[SlotOf(tail, i)] == bans[i]
  }

  lemma HoldsPush(ring: seq<Ban>, tail: nat, bans: seq<Ban>, ban: Ban)
    requires |ring| == CAPACITY && Holds(ring, tail, bans) && |bans| < CAPACITY
    ensures Holds(ring[SlotOf(tail, |bans|) := ban], tail, bans + [ban])
  {
    hide SlotOf;
    forall i: nat | i < |bans| ensures SlotOf(tail, i) != SlotOf(tail, |bans|) {
      SlotsDiffer(tail, i, |bans|);
    }
  }

  lemma HoldsPop(ring: seq<Ban>, tail: nat, bans: seq<Ban>)
    requires |ring| == CAPACITY && Holds(ring, tail, bans) && bans != []
    ensures ring[SlotOf(tail, 0)] == bans[0] && Holds(ring, Wrap(tail + 1), bans[1..])
  {
    hide SlotOf, Wrap;
    var after := Wrap(tail + 1);
    forall i: nat | i < |bans| - 1 ensures SlotOf(after, i) == SlotOf(tail, i + 1) {
      SlotShift(tail, i);
    }
  }

  class Ring {
    const maxIp: nat          // longest address text, exclusive
    const ring: array<Ban>
    var head: nat
    var tail: nat
    var dropped: nat
    ghost var pending: seq<Ban>   // the bans in the ring, oldest first
    ghost var accepted: seq<Ban>  // every ban ever stored
    ghost var drained: seq<Ban>   // every ban ever taken out
    ghost var offered: nat        // every ban ever offered with an address that fits
    ghost var refused: nat        // those found the ring full

    ghost predicate Valid()
      reads this, ring
    {
      && ring.Length == CAPACITY && tail < WORD && |pending| <= CAPACITY
      && head == Wrap(tail + |pending|)
      && Holds(ring[..], tail, pending)
      && accepted == drained + pending
      && offered == |accepted| + refused && dropped == Wrap(refused)
    }

    constructor (maxIp: nat)
      ensures Valid() && pending == [] && accepted == [] && fresh(ring) && this.maxIp == maxIp
    {
      this.maxIp := maxIp;
      ring := new Ban[CAPACITY](_ => Ban([], 0, 0));
      head, tail, dropped, pending, accepted, drained, offered, refused := 0, 0, 0, [], [], [], 0, 0;
    }

    /** The books balance: what came in went out, waits, or was counted as dropped. */
    lemma Balance()
      requires Valid()
      ensures accepted == drained + pending && |pending| <= CAPACITY
      ensures offered == |drained| + |pending| + refused
    {
    }

    predicate Fits(ip: string) {
      ip != [] && |ip| < maxIp
    }

    /** Called by any worker; a full ring drops the ban and counts it. */
    method EnqueueBan(ip: string, action: nat, expiry: int)
      requires Valid()
      modifies this, ring
      ensures Valid() && drained == old(drained)
      ensures !Fits(ip) ==> pending == old(pending) && accepted == old(accepted)
      ensures !Fits(ip) ==> offered == old(offered) && dropped == old(dropped)
      ensures Fits(ip) ==> offered == old(offered) + 1
      ensures Fits(ip) && |old(pending)| == CAPACITY ==>
                pending == old(pending) && accepted == old(accepted) && refused == old(refused) + 1
                && dropped == Wrap(old(dropped) + 1)
      ensures Fits(ip) && |old(pending)| < CAPACITY ==>
                pending == old(pending) + [Ban(ip, action, expiry)] && dropped == old(dropped)
                && accepted == old(accepted) + [Ban(ip, action, expiry)]
    {
      if ip == [] || |ip| >= maxIp {
        return;
      }
      hide Wrap, SlotOf, Holds;
      ghost var n := |pending|;
      offered := offered + 1;
      WrapDistance(tail, n);
      WrapAdd(refused);
      if Wrap(head - tail) >= CAPACITY {
        dropped := Wrap(dropped + 1);
        refused := refused + 1;
        return;
      }
      var slot := SlotOf(head, 0);
      WrapKeepsSlot(tail + n, 0);
      SlotSum(tail, n);
      var ban := Ban(ip, action, expiry);
      HoldsPush(ring[..], tail, pending, ban);
      ghost var was := ring[..];
      ring[slot] := ban;
      assert ring[..] == was[slot := ban];
      head := Wrap(head + 1);
      pending := pending + [ban];
      accepted := accepted + [ban];
    }

    /** One locked turn of the drain loop. */
    method Dequeue() returns (next: Next)
      requires Valid()
      modifies this
      ensures Valid() && accepted == old(accepted) && offered == old(offered)
      ensures dropped == old(dropped) && refused == old(refused)
      ensures old(pending) == [] ==> next == Empty && pending == [] && drained == old(drained)
      ensures old(pending) != [] ==>
                && next == Next(old(pending)[0]) && pending == old(pending)[1..]
                && drained == old(drained) + [old(pending)[0]]
    {
      hide Wrap, SlotOf, Holds;
      ghost var n := |pending|;
      WrapDistance(tail, n);
      if tail == head {
        return Empty;
      }
      WrapNext(tail, n);
      HoldsPop(ring[..], tail, pending);
      var ban := ring[SlotOf(tail, 0)];
      tail := Wrap(tail + 1);
      drained := drained + [pending[0]];
      pending := pending[1..];
      return Next(ban);
    }
  }

  /** One step of any worker or of the drain. */
  datatype Step = Offer(ip: string, action: nat, expiry: int) | Take

  /** The ring as a bounded queue: what waits, what came out, how many it refused. */
  datatype Queue = Queue(pending: seq<Ban>, out: seq<Ban>, refused: nat)

  function Move(q: Queue, s: Step, maxIp: nat): Queue {
    match s
    case Offer(ip, action, expiry) =>
      if ip == [] || |ip| >= maxIp then q
      else if |q.pending| >= CAPACITY then q.(refused := q.refused + 1)
      else q.(pending := q.pending + [Ban(ip, action, expiry)])
    case Take =>
      if q.pending == [] then q else q.(pending := q.pending[1..], out := q.out + [q.pending[0]])
  }

  function Moved(q: Queue, steps: seq<Step>, maxIp: nat): Queue {
    if steps == [] then q else Move(Moved(q, steps[..|steps| - 1], maxIp), steps[|steps| - 1], maxIp)
  }

  lemma MovedNext(q: Queue, steps: seq<Step>, i: nat, maxIp: nat)
    requires i < |steps|
    ensures Moved(q, steps[..0], maxIp) == q
    ensures Moved(q, steps[..i + 1], maxIp) == Move(Moved(q, steps[..i], maxIp), steps[i], maxIp)
  {
    assert steps[..i + 1][..i] == steps[..i];
  }

  lemma MovedNone(q: Queue, steps: seq<Step>, maxIp: nat)
    ensures Moved(q, steps[..0], maxIp) == q
  {
  }

  // ---- Turns ----

  lemma {:induction false} MovedJoin(q: Queue, a: seq<Step>, b: seq<Step>, maxIp: nat)
    ensures Moved(q, a + b, maxIp) == Moved(Moved(q, a, maxIp), b, maxIp)
  {
    hide Move;
    if b == [] {
      assert a + b == a;
    } else {
      var n := |b| - 1;
      MovedJoin(q, a, b[..n], maxIp);
      assert (a + b)[..|a + b| - 1] == a + b[..n];
    }
  }

  /** What came out before stays in front. */
  function Behind(out: seq<Ban>, q: Queue): Queue {
    q.(out := out + q.out)
  }

  lemma MoveBehind(out: seq<Ban>, q: Queue, s: Step, maxIp: nat)
    ensures Move(Behind(out, q), s, maxIp) == Behind(out, Move(q, s, maxIp))
  {
    if s.Take? && q.pending != [] {
      assert out + q.out + [q.pending[0]] == out + (q.out + [q.pending[0]]);
    }
  }

  lemma {:induction false} MovedBehind(out: seq<Ban>, q: Queue, steps: seq<Step>, maxIp: nat)
    ensures Moved(Behind(out, q), steps, maxIp) == Behind(out, Moved(q, steps, maxIp))
  {
    hide Move, Behind;
    if steps != [] {
      var n := |steps| - 1;
      MovedBehind(out, q, steps[..n], maxIp);
      MoveBehind(out, Moved(q, steps[..n], maxIp), steps[n], maxIp);
    }
  }

  /** How many takes there are among the steps. */
  function Takes(steps: seq<Step>): (n: nat)
    ensures n <= |steps|
  {
    if steps == [] then 0 else Takes(steps[..|steps| - 1]) + (if steps[|steps| - 1].Take? then 1 else 0)
  }

  lemma {:induction false} MovedTakes(q: Queue, steps: seq<Step>, maxIp: nat)
    ensures |Moved(q, steps, maxIp).out| <= |q.out| + Takes(steps)
  {
    if steps != [] {
      MovedTakes(q, steps[..|steps| - 1], maxIp);
    }
  }

  /** The steps of `n` turns: what others do in a turn, as long as they do something, then one take. */
  function Schedule(turns: seq<seq<Step>>, n: nat): seq<Step> {
    if n == 0 then []
    else Schedule(turns, n - 1) + ((if n - 1 < |turns| then turns[n - 1] else []) + [Take])
  }

  lemma ScheduleMoves(start: Queue, turns: seq<seq<Step>>, n: nat, maxIp: nat, q: Queue, more: Queue)
    requires q == Moved(start, Schedule(turns, n), maxIp)
    requires more == Moved(q.(out := []), (if n < |turns| then turns[n] else []) + [Take], maxIp)
    ensures Behind(q.out, more) == Moved(start, Schedule(turns, n + 1), maxIp)
  {
    hide Moved;
    var steps := (if n < |turns| then turns[n] else []) + [Take];
    assert Behind(q.out, q.(out := [])) == q;
    MovedBehind(q.out, q.(out := []), steps, maxIp);
    MovedJoin(start, Schedule(turns, n), steps, maxIp);
    assert Schedule(turns, n + 1) == Schedule(turns, n) + steps;
  }

  /** One step of any worker, on the ring itself. */
  method Perform(r: Ring, s: Step) returns (next: Next)
    requires r.Valid()
    modifies r, r.ring
    ensures r.Valid() && old(r.accepted) <= r.accepted
    ensures r.drained == old(r.drained) + Out(next)
    ensures next.Next? ==> s.Take?
    ensures forall out: seq<Ban> ::
      Queue(r.pending, out + Out(next), r.refused)
      == Move(Queue(old(r.pending), out, old(r.refused)), s, r.maxIp)
    ensures r.offered == old(r.offered) + (if s.Offer? && s.ip != [] && |s.ip| < r.maxIp then 1 else 0)
    ensures |r.pending| <= CAPACITY
  {
    hide Ring.Valid;
    r.Balance();
    next := Empty;
    match s {
      case Offer(ip, action, expiry) => r.EnqueueBan(ip, action, expiry);
      case Take => next := r.Dequeue();
    }
    r.Balance();
  }

  /** What `n` turns do to the ring. */
  ghost predicate RanTurns(r: Ring, start: Queue, gone: seq<Ban>, turns: seq<seq<Step>>, n: nat)
    reads r
  {
    Queue(r.pending, gone, r.refused) == Moved(start, Schedule(turns, n), r.maxIp)
  }

  lemma NoTurns(r: Ring, turns: seq<seq<Step>>)
    ensures RanTurns(r, Queue(r.pending, [], r.refused), [], turns, 0)
  {
  }

  /** Any steps on the ring are the same steps on the queue. */
  method RunSteps(r: Ring, steps: seq<Step>) returns (ghost out: seq<Ban>)
    requires r.Valid()
    modifies r, r.ring
    ensures r.Valid() && old(r.accepted) <= r.accepted && r.drained == old(r.drained) + out
    ensures Queue(r.pending, out, r.refused) == Moved(Queue(old(r.pending), [], old(r.refused)), steps, r.maxIp)
  {
    hide Ring.Valid, Move, Moved;
    ghost var start := Queue(r.pending, [], r.refused);
    out := [];
    MovedNone(start, steps, r.maxIp);
    for i := 0 to |steps|
      invariant r.Valid() && old(r.accepted) <= r.accepted && r.drained == old(r.drained) + out
      invariant Queue(r.pending, out, r.refused) == Moved(start, steps[..i], r.maxIp)
    {
      MovedNext(start, steps, i, r.maxIp);
      var next := Perform(r, steps[i]);
      out := out + Out(next);
    }
    assert steps[..|steps|] == steps;
  }

  /** What the others do while the lock is free, then one locked turn of a drain loop. */
  method Turn(r: Ring, steps: seq<Step>) returns (next: Next, ghost theirs: seq<Ban>)
    requires r.Valid()
    modifies r, r.ring
    ensures r.Valid() && old(r.accepted) <= r.accepted && |theirs| <= Takes(steps)
    ensures r.drained == old(r.drained) + theirs + Out(next)
    ensures Queue(r.pending, theirs + Out(next), r.refused)
            == Moved(Queue(old(r.pending), [], old(r.refused)), steps + [Take], r.maxIp)
    ensures next.Empty? ==> r.pending == []
    ensures steps == [] && next.Next? ==> |r.pending| < |old(r.pending)|
    ensures steps == [] ==> r.accepted == old(r.accepted)
  {
    hide Ring.Valid, Takes, Move, Moved;
    ghost var start := Queue(r.pending, [], r.refused);
    r.Balance();
    MovedTakes(start, steps, r.maxIp);
    theirs := RunSteps(r, steps);
    if steps == [] {
      NoSteps(start, r.maxIp);
    }
    TakeLast(start, steps, r.maxIp);
    r.Balance();
    next := r.Dequeue();
    r.Balance();
  }

  lemma NoSteps(q: Queue, maxIp: nat)
    ensures Moved(q, [], maxIp) == q && Takes([]) == 0
  {
  }

  lemma TakeLast(q: Queue, steps: seq<Step>, maxIp: nat)
    ensures var m := Moved(q, steps, maxIp);
      Moved(q, steps + [Take], maxIp)
      == if m.pending == [] then m else Queue(m.pending[1..], m.out + [m.pending[0]], m.refused)
  {
    assert (steps + [Take])[..|steps|] == steps;
  }

  /** The bans that fitted, in the order they were offered. */
  function Offered(steps: seq<Step>, maxIp: nat): seq<Ban> {
    if steps == [] then []
    else
      var s := steps[|steps| - 1];
      Offered(steps[..|steps| - 1], maxIp)
      + (if s.Offer? && s.ip != [] && |s.ip| < maxIp then [Ban(s.ip, s.action, s.expiry)] else [])
  }

  /** `a` is `b` with some elements left out, the order kept. */
  predicate Subsequence<T(==)>(a: seq<T>, b: seq<T>) {
    if a == [] then true
    else if b == [] then false
    else if a[|a| - 1] == b[|b| - 1] then Subsequence(a[..|a| - 1], b[..|b| - 1]) || Subsequence(a, b[..|b| - 1])
    else Subsequence(a, b[..|b| - 1])
  }

  lemma SubsequenceGrows<T>(a: seq<T>, b: seq<T>, x: T)
    requires Subsequence(a, b)
    ensures Subsequence(a, b + [x]) && Subsequence(a + [x], b + [x])
  {
    assert (b + [x])[..|b|] == b && (a + [x])[..|a|] == a;
  }

  lemma OfferedNone(steps: seq<Step>, maxIp: nat)
    ensures Offered(steps[..0], maxIp) == [] && Subsequence<Ban>([], [])
  {
  }

  lemma OfferedNext(steps: seq<Step>, i: nat, maxIp: nat)
    requires i < |steps|
    ensures var s := steps[i];
      Offered(steps[..i + 1], maxIp) ==
        if s.Offer? && s.ip != [] && |s.ip| < maxIp then Offered(steps[..i], maxIp) + [Ban(s.ip, s.action, s.expiry)]
        else Offered(steps[..i], maxIp)
  {
    assert steps[..i + 1][..i] == steps[..i];
  }

  /**
   Any interleaving of offers and takes: the ring is the bounded queue, so what
   comes out came in, once each and in order, nothing is lost but what found the
   queue full, and at most CAPACITY wait.
   */
  method Interleave(r: Ring, steps: seq<Step>) returns (out: seq<Ban>)
    requires r.Valid() && r.accepted == [] && r.offered == 0
    modifies r, r.ring
    ensures r.Valid() && out == r.drained && r.accepted == out + r.pending && |r.pending| <= CAPACITY
    ensures Queue(r.pending, out, r.refused) == Moved(Queue([], [], 0), steps, r.maxIp)
    ensures |Offered(steps, r.maxIp)| == r.refused + |out| + |r.pending|
    ensures Subsequence(out + r.pending, Offered(steps, r.maxIp))
  {
    hide Ring.Valid, Offered, Subsequence, Move, Moved;
    out := [];
    OfferedNone(steps, r.maxIp);
    MovedNone(Queue([], [], 0), steps, r.maxIp);
    r.Balance();
    for i := 0 to |steps|
      invariant r.Valid() && out == r.drained
      invariant Queue(r.pending, out, r.refused) == Moved(Queue([], [], 0), steps[..i], r.maxIp)
      invariant |Offered(steps[..i], r.maxIp)| == r.offered
      invariant Subsequence(out + r.pending, Offered(steps[..i], r.maxIp))
    {
      OfferedNext(steps, i, r.maxIp);
      MovedNext(Queue([], [], 0), steps, i, r.maxIp);
      MoveKeepsOrder(Queue(r.pending, out, r.refused), steps[i], r.maxIp, Offered(steps[..i], r.maxIp));
      var next := Perform(r, steps[i]);
      out := out + Out(next);
    }
    assert steps[..|steps|] == steps;
    r.Balance();
  }

  /** A step of the queue keeps what came out and waits in the order of the offers. */
  lemma MoveKeepsOrder(q: Queue, s: Step, maxIp: nat, offers: seq<Ban>)
    requires Subsequence(q.out + q.pending, offers)
    ensures var p := Move(q, s, maxIp);
      Subsequence(p.out + p.pending,
                  if s.Offer? && s.ip != [] && |s.ip| < maxIp then offers + [Ban(s.ip, s.action, s.expiry)] else offers)
  {
    hide Subsequence;
    match s {
      case Offer(ip, action, expiry) =>
        SubsequenceGrows(q.out + q.pending, offers, Ban(ip, action, expiry));
        assert q.out + (q.pending + [Ban(ip, action, expiry)]) == q.out + q.pending + [Ban(ip, action, expiry)];
      case Take =>
        if q.pending != [] {
          assert q.out + [q.pending[0]] + q.pending[1..] == q.out + q.pending;
        }
    }
  }
}
