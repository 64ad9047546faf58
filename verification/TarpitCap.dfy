/**
 The tarpit's connection cap: every worker counts its own connections in its
 own slot, sums all slots one read at a time, and reserves by compare-and-set.
 Steps of different workers interleave at every access to a slot.
 */
module TarpitCap {

  /**
   Where a worker is inside a reservation. `start` is history: the number of
   reservations made by all workers when this sum began.
   */
  datatype Pc =
    | Idle
    | Summing(next: nat, sum: int, max: nat, start: nat)
    | Passed(max: nat, start: nat)
    | Loaded(seen: int, max: nat, start: nat)
    | Reserved
    | Dead

  /** `live` are the counted contexts whose cleanup has not run. */
  datatype Worker = Worker(pc: Pc, slot: int, live: set<nat>)

  /** `log` is history: which worker made each reservation so far, in order. */
  datatype State = State(workers: seq<Worker>, log: seq<nat>, next: nat, released: set<nat>)

  datatype Action =
    | Begin(w: nat, max: nat)      // enter the reservation loop under a location's cap
    | ReadSlot(w: nat)             // one iteration of the summing loop
    | Decide(w: nat)               // compare the sum with the cap
    | LoadSlot(w: nat)             // read the own slot
    | CompareAndSet(w: nat)
    | AllocationFails(w: nat)      // give the reservation back by hand
    | Count(w: nat)                // the context is counted, its cleanup registered
    | Cleanup(w: nat, ctx: nat)    // the pool cleanup of a context, perhaps again
    | Kill(w: nat)                 // the process dies with its contexts
    | Respawn(w: nat)              // a new process zeroes the slot

  function SumFrom(ws: seq<Worker>, k: nat): int
    requires k <= |ws|
    decreases |ws| - k
  {
    if k == |ws| then 0 else ws[k].slot + SumFrom(ws, k + 1)
  }

  function Total(s: State): int {
    SumFrom(s.workers, 0)
  }

  predicate Enabled(s: State, a: Action) {
    a.w < |s.workers| &&
    var pc := s.workers[a.w].pc;
    match a
    case Begin(_, _) => pc.Idle?
    case ReadSlot(_) => pc.Summing? && pc.next < |s.workers|
    case Decide(_) => pc.Summing? && pc.next == |s.workers|
    case LoadSlot(_) => pc.Passed?
    case CompareAndSet(_) => pc.Loaded?
    case AllocationFails(_) => pc.Reserved?
    case Count(_) => pc.Reserved?
    case Cleanup(_, _) => pc.Idle?  // one thread: never inside a reservation
    case Kill(_) => !pc.Dead?
    case Respawn(_) => pc.Dead?
  }

  function Put(s: State, w: nat, x: Worker): State
    requires w < |s.workers|
  {
    s.(workers := s.workers[w := x])
  }

  function Do(s: State, a: Action): State
    requires Enabled(s, a)
  {
    var x := s.workers[a.w];
    match a
    case Begin(w, max) =>
      if max == 0 then s else Put(s, w, x.(pc := Summing(0, 0, max, |s.log|)))
    case ReadSlot(w) =>
      Put(s, w, x.(pc := Summing(x.pc.next + 1, x.pc.sum + s.workers[x.pc.next].slot, x.pc.max, x.pc.start)))
    case Decide(w) =>
      Put(s, w, x.(pc := if x.pc.sum >= x.pc.max then Idle else Passed(x.pc.max, x.pc.start)))
    case LoadSlot(w) =>
      Put(s, w, x.(pc := Loaded(x.slot, x.pc.max, x.pc.start)))
    case CompareAndSet(w) =>
      if x.slot == x.pc.seen then Put(s, w, x.(pc := Reserved, slot := x.pc.seen + 1)).(log := s.log + [w])
      else Put(s, w, x.(pc := Summing(0, 0, x.pc.max, |s.log|)))
    case AllocationFails(w) =>
      Put(s, w, x.(pc := Idle, slot := x.slot - 1))
    case Count(w) =>
      Put(s, w, x.(pc := Idle, live := x.live + {s.next})).(next := s.next + 1)
    case Cleanup(w, ctx) =>
      if ctx !in x.live then s
      else Put(s, w, x.(slot := x.slot - 1, live := x.live - {ctx})).(released := s.released + {ctx})
    case Kill(w) =>
      Put(s, w, x.(pc := Dead, live := {}))
    case Respawn(w) =>
      Put(s, w, Worker(Idle, 0, {}))
  }

  predicate IsStart(s: State) {
    && s.log == [] && s.next == 0 && s.released == {}
    && forall w :: 0 <= w < |s.workers| ==> s.workers[w] == Worker(Idle, 0, {})
  }

  /** A run: every action enabled, no location's cap above `cap`. */
  predicate IsRun(s: State, acts: seq<Action>, cap: nat)
    decreases |acts|
  {
    acts == [] ||
    (Enabled(s, acts[0]) && (acts[0].Begin? ==> acts[0].max <= cap) && IsRun(Do(s, acts[0]), acts[1..], cap))
  }

  function After(s: State, acts: seq<Action>, cap: nat): State
    requires IsRun(s, acts, cap)
    decreases |acts|
  {
    if acts == [] then s else After(Do(s, acts[0]), acts[1..], cap)
  }

  // ---- Accounting of one worker ----

  predicate Accounted(x: Worker) {
    && x.slot >= 0
    && (!x.pc.Dead? ==> x.slot == |x.live| + (if x.pc.Reserved? then 1 else 0))
    && (x.pc.Loaded? ==> x.pc.seen == x.slot)
    && (x.pc.Dead? ==> x.live == {})
  }

  predicate AllAccounted(s: State) {
    forall w :: 0 <= w < |s.workers| ==> Accounted(s.workers[w])
  }

  /** Live contexts are counted ones, not yet released; so are the released ones counted. */
  predicate Counted(s: State) {
    && (forall w :: 0 <= w < |s.workers| ==> forall c: nat :: c in s.workers[w].live ==> c < s.next)
    && (forall w :: 0 <= w < |s.workers| ==> forall c: nat :: c in s.workers[w].live ==> c !in s.released)
    && (forall c: nat :: c in s.released ==> c < s.next)
  }

  /** No context has two owners. */
  predicate Owned(s: State) {
    forall v, w, c: nat :: 0 <= v < |s.workers| && 0 <= w < |s.workers| && v != w && c in s.workers[v].live ==>
      c !in s.workers[w].live
  }

  /** Contexts are counted once: the ids in use are fresh, and released ones never live again. */
  predicate Disjoint(s: State) {
    Counted(s) && Owned(s)
  }

  lemma SlotAccounted(s: State, a: Action)
    requires Enabled(s, a) && Accounted(s.workers[a.w])
    requires forall c: nat :: c in s.workers[a.w].live ==> c < s.next
    ensures Accounted(Do(s, a).workers[a.w])
  {
    var x, y := s.workers[a.w], Do(s, a).workers[a.w];
    match a {
      case Count(_) =>
        assert |y.live| == |x.live| + 1;
      case Cleanup(_, c) =>
        assert c in x.live ==> |y.live| == |x.live| - 1;
      case _ =>
    }
  }

  lemma OthersStay(s: State, a: Action)
    requires Enabled(s, a)
    ensures var t := Do(s, a);
      && |t.workers| == |s.workers| && t.next == s.next + (if a.Count? then 1 else 0)
      && forall w :: 0 <= w < |s.workers| && w != a.w ==> t.workers[w] == s.workers[w]
  {
  }

  lemma OwnContexts(s: State, a: Action)
    requires Enabled(s, a)
    ensures var t := Do(s, a);
      && (forall c: nat :: c in t.workers[a.w].live ==> c in s.workers[a.w].live || (c == s.next && a.Count?))
      && (forall c: nat :: c in t.released <==>
            c in s.released || (a.Cleanup? && c == a.ctx && c in s.workers[a.w].live))
      && (a.Cleanup? ==> a.ctx !in t.workers[a.w].live)
  {
  }

  lemma CountedKept(s: State, a: Action)
    requires Enabled(s, a) && Accounted(s.workers[a.w]) && Counted(s) && Owned(s)
    ensures Counted(Do(s, a))
  {
    var x := s.workers[a.w];
    assert forall c: nat :: c in x.live ==> c < s.next && c !in s.released;
    OthersStay(s, a);
    OwnContexts(s, a);
    hide Do, Accounted, Enabled;
    var t := Do(s, a);
    forall w, c: nat | 0 <= w < |t.workers| && c in t.workers[w].live ensures c < t.next && c !in t.released {
      if w != a.w {
        assert c in s.workers[w].live;
      }
    }
  }

  lemma OwnedKept(s: State, a: Action)
    requires Enabled(s, a) && Accounted(s.workers[a.w]) && Counted(s) && Owned(s)
    ensures Owned(Do(s, a))
  {
    var x := s.workers[a.w];
    assert forall c: nat :: c in x.live ==> c < s.next;
    OthersStay(s, a);
    OwnContexts(s, a);
    hide Do, Accounted, Enabled;
    var t := Do(s, a);
    forall v, w, c: nat | 0 <= v < |t.workers| && 0 <= w < |t.workers| && v != w && c in t.workers[v].live
      ensures c !in t.workers[w].live
    {
      if v != a.w {
        assert c in s.workers[v].live;
      } else {
        assert t.workers[w] == s.workers[w];
      }
    }
  }

  lemma AccountingKept(s: State, a: Action)
    requires AllAccounted(s) && Disjoint(s) && Enabled(s, a)
    ensures AllAccounted(Do(s, a)) && Disjoint(Do(s, a))
  {
    assert Accounted(s.workers[a.w]);
    assert forall c: nat :: c in s.workers[a.w].live ==> c < s.next;
    CountedKept(s, a);
    OwnedKept(s, a);
    OthersStay(s, a);
    SlotAccounted(s, a);
    hide Do, Accounted, Counted, Owned, Enabled;
    var t := Do(s, a);
    forall w | 0 <= w < |t.workers| ensures Accounted(t.workers[w]) {
      assert Accounted(s.workers[w]);
    }
  }

  // ---- Sums ----

  lemma {:induction false} SumOfUpdate(ws: seq<Worker>, w: nat, x: Worker, k: nat)
    requires w < |ws| && k <= |ws|
    ensures SumFrom(ws[w := x], k) == SumFrom(ws, k) + (if w >= k then x.slot - ws[w].slot else 0)
    decreases |ws| - k
  {
    if k < |ws| {
      SumOfUpdate(ws, w, x, k + 1);
    }
  }

  // ---- The cap ----

  /** A sum that began after every reservation of its own worker. */
  predicate BeganAfterOwn(s: State, i: nat, start: nat) {
    start <= |s.log| && forall u :: 0 <= u < |s.log| && s.log[u] == i ==> u < start
  }

  /**
   What a sum in progress knows: it misses at most one connection for each
   reservation made since it began.
   */
  predicate Pending(s: State, i: nat, cap: nat)
    requires i < |s.workers|
  {
    match s.workers[i].pc
    case Summing(k, sum, max, start) =>
      && 1 <= max <= cap && k <= |s.workers| && BeganAfterOwn(s, i, start)
      && Total(s) <= sum + SumFrom(s.workers, k) + (|s.log| - start)
    case Passed(max, start) =>
      && 1 <= max <= cap && BeganAfterOwn(s, i, start) && Total(s) <= cap - 1 + (|s.log| - start)
    case Loaded(_, max, start) =>
      && 1 <= max <= cap && BeganAfterOwn(s, i, start) && Total(s) <= cap - 1 + (|s.log| - start)
    case _ => true
  }

  /** After two reservations of one worker, only those after the first can exceed the cap. */
  predicate Spaced(s: State, cap: nat) {
    forall u, v :: 0 <= u < v < |s.log| && s.log[u] == s.log[v] ==> Total(s) <= cap - 1 + (|s.log| - 1 - u)
  }

  predicate Logged(s: State, cap: nat) {
    && (forall u :: 0 <= u < |s.log| ==> s.log[u] < |s.workers|)
    && Total(s) <= |s.log| && (s.log != [] ==> cap >= 1)
  }

  predicate Bounded(s: State, cap: nat) {
    && Spaced(s, cap) && Logged(s, cap)
    && forall i :: 0 <= i < |s.workers| ==> Pending(s, i, cap)
  }

  /** A reservation raises the total and the log together. */
  lemma ReserveKeepsBound(s: State, w: nat, cap: nat)
    requires Bounded(s, cap) && Enabled(s, CompareAndSet(w)) && s.workers[w].slot == s.workers[w].pc.seen
    ensures Bounded(Do(s, CompareAndSet(w)), cap)
  {
    hide SumFrom;
    var t := Do(s, CompareAndSet(w));
    var x := t.workers[w];
    assert Pending(s, w, cap);
    SumOfUpdate(s.workers, w, x, 0);
    forall i | 0 <= i < |t.workers| ensures Pending(t, i, cap) {
      assert Pending(s, i, cap);
      if i != w && t.workers[i].pc.Summing? {
        SumOfUpdate(s.workers, w, x, t.workers[i].pc.next);
      }
    }
    forall u, v | 0 <= u < v < |t.log| && t.log[u] == t.log[v]
      ensures Total(t) <= cap - 1 + (|t.log| - 1 - u)
    {
      if v < |s.log| { assert s.log[u] == s.log[v]; }
    }
  }

  /** A worker changes its slot downwards, or not at all, outside the summing loop. */
  lemma ReleaseKeepsBound(s: State, t: State, w: nat, x: Worker, cap: nat)
    requires Bounded(s, cap) && w < |s.workers| && x.slot <= s.workers[w].slot
    requires t.workers == s.workers[w := x] && t.log == s.log
    requires x.pc.Idle? || x.pc.Dead?
    ensures Bounded(t, cap)
  {
    hide SumFrom;
    SumOfUpdate(s.workers, w, x, 0);
    forall i | 0 <= i < |t.workers| ensures Pending(t, i, cap) {
      assert Pending(s, i, cap);
      if i != w && t.workers[i].pc.Summing? {
        SumOfUpdate(s.workers, w, x, t.workers[i].pc.next);
      }
    }
    assert forall u, v :: 0 <= u < v < |t.log| && t.log[u] == t.log[v] ==> s.log[u] == s.log[v];
  }

  /** A worker moves on inside the reservation, touching no slot. */
  lemma MoveKeepsBound(s: State, w: nat, pc: Pc, cap: nat)
    requires Bounded(s, cap) && w < |s.workers|
    requires Pending(Put(s, w, s.workers[w].(pc := pc)), w, cap)
    ensures Bounded(Put(s, w, s.workers[w].(pc := pc)), cap)
  {
    hide SumFrom;
    var x := s.workers[w].(pc := pc);
    var t := Put(s, w, x);
    SumOfUpdate(s.workers, w, x, 0);
    forall i | 0 <= i < |t.workers| ensures Pending(t, i, cap) {
      assert Pending(s, i, cap);
      if i != w && t.workers[i].pc.Summing? {
        SumOfUpdate(s.workers, w, x, t.workers[i].pc.next);
      }
    }
    assert forall u, v :: 0 <= u < v < |t.log| && t.log[u] == t.log[v] ==> s.log[u] == s.log[v];
  }

  /** Every action keeps the bound. */
  lemma BoundKept(s: State, a: Action, cap: nat)
    requires AllAccounted(s) && Bounded(s, cap) && Enabled(s, a) && (a.Begin? ==> a.max <= cap)
    ensures Bounded(Do(s, a), cap)
  {
    var w := a.w;
    var x := s.workers[w];
    assert Accounted(x) && Pending(s, w, cap);
    match a {
      case Begin(_, max) =>
        if max > 0 {
          SumOfUpdate(s.workers, w, x.(pc := Summing(0, 0, max, |s.log|)), 0);
          MoveKeepsBound(s, w, Summing(0, 0, max, |s.log|), cap);
        }
      case ReadSlot(_) =>
        var pc := Summing(x.pc.next + 1, x.pc.sum + s.workers[x.pc.next].slot, x.pc.max, x.pc.start);
        SumOfUpdate(s.workers, w, x.(pc := pc), 0);
        SumOfUpdate(s.workers, w, x.(pc := pc), x.pc.next + 1);
        MoveKeepsBound(s, w, pc, cap);
      case Decide(_) =>
        var pc := if x.pc.sum >= x.pc.max then Idle else Passed(x.pc.max, x.pc.start);
        SumOfUpdate(s.workers, w, x.(pc := pc), 0);
        MoveKeepsBound(s, w, pc, cap);
      case LoadSlot(_) =>
        SumOfUpdate(s.workers, w, x.(pc := Loaded(x.slot, x.pc.max, x.pc.start)), 0);
        MoveKeepsBound(s, w, Loaded(x.slot, x.pc.max, x.pc.start), cap);
      case CompareAndSet(_) =>
        ReserveKeepsBound(s, w, cap);
      case AllocationFails(_) =>
        ReleaseKeepsBound(s, Do(s, a), w, x.(pc := Idle, slot := x.slot - 1), cap);
      case Count(_) =>
        ReleaseKeepsBound(s, Do(s, a), w, x.(pc := Idle, live := x.live + {s.next}), cap);
      case Cleanup(_, ctx) =>
        if ctx in x.live {
          ReleaseKeepsBound(s, Do(s, a), w, x.(slot := x.slot - 1, live := x.live - {ctx}), cap);
        }
      case Kill(_) =>
        ReleaseKeepsBound(s, Do(s, a), w, x.(pc := Dead, live := {}), cap);
      case Respawn(_) =>
        ReleaseKeepsBound(s, Do(s, a), w, Worker(Idle, 0, {}), cap);
    }
  }

  // ---- Counting reservations ----

  function Elements(s: seq<nat>): set<nat> {
    if s == [] then {} else Elements(s[..|s| - 1]) + {s[|s| - 1]}
  }

  lemma {:induction false} ElementsAre(s: seq<nat>, x: nat)
    ensures x in Elements(s) <==> x in s
  {
    if s != [] {
      var n := |s| - 1;
      ElementsAre(s[..n], x);
      assert s == s[..n] + [s[n]];
    }
  }

  lemma {:induction false} DistinctCount(s: seq<nat>)
    requires forall u, v :: 0 <= u < v < |s| ==> s[u] != s[v]
    ensures |Elements(s)| == |s|
  {
    if s != [] {
      var n := |s| - 1;
      DistinctCount(s[..n]);
      ElementsAre(s[..n], s[n]);
      OneMore(Elements(s[..n]), s[n]);
    }
  }

  lemma OneMore(e: set<nat>, x: nat)
    requires x !in e
    ensures |e + {x}| == |e| + 1
  {
  }

  function Below(n: nat): (b: set<nat>)
    ensures |b| == n && forall x :: x in b <==> 0 <= x < n
  {
    if n == 0 then {} else Below(n - 1) + {n - 1}
  }

  lemma DistinctBelow(s: seq<nat>, n: nat)
    requires forall u :: 0 <= u < |s| ==> s[u] < n
    requires forall u, v :: 0 <= u < v < |s| ==> s[u] != s[v]
    ensures |s| <= n
  {
    DistinctCount(s);
    hide Elements, Below;
    var a, b := Elements(s), Below(n);
    forall x: nat | x in a ensures x in b {
      ElementsAre(s, x);
    }
    assert b == a + (b - a);
  }

  /** More entries than workers: some worker appears twice. */
  lemma SomeWorkerTwice(s: seq<nat>, n: nat)
    requires |s| > n && forall u :: 0 <= u < |s| ==> s[u] < n
    ensures exists u, v :: 0 <= u < v < |s| && s[u] == s[v]
  {
    if forall u, v :: 0 <= u < v < |s| ==> s[u] != s[v] {
      DistinctBelow(s, n);
    }
  }

  /** The overshoot is at most the number of other workers, although sums are read slot by slot. */
  lemma BoundedTotal(s: State, cap: nat)
    requires Bounded(s, cap)
    ensures Total(s) <= cap + |s.workers| - 1 || s.log == []
  {
    var n := |s.workers|;
    if |s.log| > n {
      var b := |s.log| - n - 1;
      var last := s.log[b..];
      SomeWorkerTwice(last, n);
      var u, v :| 0 <= u < v < |last| && last[u] == last[v];
      assert s.log[b + u] == s.log[b + v];
    }
  }

  // ---- Runs ----

  ghost predicate Invariant(s: State, cap: nat) {
    AllAccounted(s) && Disjoint(s) && Bounded(s, cap)
  }

  lemma {:induction false} EmptySum(ws: seq<Worker>, k: nat)
    requires k <= |ws| && forall w :: 0 <= w < |ws| ==> ws[w].slot == 0
    ensures SumFrom(ws, k) == 0
    decreases |ws| - k
  {
    if k < |ws| {
      EmptySum(ws, k + 1);
    }
  }

  lemma StartHolds(s: State, cap: nat)
    requires IsStart(s)
    ensures Invariant(s, cap)
  {
    EmptySum(s.workers, 0);
  }

  lemma {:induction false} RunHolds(s: State, acts: seq<Action>, cap: nat)
    requires Invariant(s, cap) && IsRun(s, acts, cap)
    ensures Invariant(After(s, acts, cap), cap)
    decreases |acts|
  {
    hide AllAccounted, Disjoint, Bounded, Enabled, Do;
    if acts != [] {
      AccountingKept(s, acts[0]);
      BoundKept(s, acts[0], cap);
      RunHolds(Do(s, acts[0]), acts[1..], cap);
    }
  }

  /**
   In every run of W workers: a running worker's slot is its live contexts and
   the reservation in hand, no slot is negative, and the total stays below
   the largest cap plus the number of other workers.
   */
  lemma CapHolds(s: State, acts: seq<Action>, cap: nat)
    requires IsStart(s) && |s.workers| >= 1 && IsRun(s, acts, cap)
    ensures var t := After(s, acts, cap);
      && AllAccounted(t) && Disjoint(t)
      && Total(t) <= cap + |t.workers| - 1
  {
    StartHolds(s, cap);
    RunHolds(s, acts, cap);
    WorkersStay(s, acts, cap);
    BoundedTotal(After(s, acts, cap), cap);
  }

  lemma {:induction false} WorkersStay(s: State, acts: seq<Action>, cap: nat)
    requires IsRun(s, acts, cap)
    ensures |After(s, acts, cap).workers| == |s.workers|
    decreases |acts|
  {
    if acts != [] {
      WorkersStay(Do(s, acts[0]), acts[1..], cap);
    }
  }

  /** The compare-and-set of the loop never finds another value: only its own worker writes a slot. */
  lemma CompareAndSetSucceeds(s: State, acts: seq<Action>, cap: nat, w: nat)
    requires IsStart(s) && IsRun(s, acts, cap) && Enabled(After(s, acts, cap), CompareAndSet(w))
    ensures Do(After(s, acts, cap), CompareAndSet(w)).workers[w].pc == Reserved
  {
    StartHolds(s, cap);
    RunHolds(s, acts, cap);
    assert Accounted(After(s, acts, cap).workers[w]);
  }

  /** A context that was released is never counted again, so it is released once. */
  lemma {:induction false} ReleasedOnce(s: State, acts: seq<Action>, cap: nat, c: nat)
    requires Invariant(s, cap) && IsRun(s, acts, cap) && c in s.released
    ensures var t := After(s, acts, cap);
      c in t.released && forall w :: 0 <= w < |t.workers| ==> c !in t.workers[w].live
    decreases |acts|
  {
    hide AllAccounted, Bounded;
    if acts != [] {
      AccountingKept(s, acts[0]);
      BoundKept(s, acts[0], cap);
      ReleasedOnce(Do(s, acts[0]), acts[1..], cap, c);
    }
  }
}
