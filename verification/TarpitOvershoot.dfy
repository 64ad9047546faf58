/** The overshoot of the soft cap is real: some run reaches the bound. */
module TarpitOvershoot {
  import opened TarpitCap

  ghost predicate Reaches(s: State, t: State, cap: nat) {
    exists acts :: IsRun(s, acts, cap) && After(s, acts, cap) == t
  }

  lemma {:induction false} RunJoin(s: State, a: seq<Action>, b: seq<Action>, cap: nat)
    requires IsRun(s, a, cap) && IsRun(After(s, a, cap), b, cap)
    ensures IsRun(s, a + b, cap) && After(s, a + b, cap) == After(After(s, a, cap), b, cap)
    decreases |a|
  {
    hide Do, Enabled;
    if a == [] {
      assert a + b == b;
    } else {
      RunJoin(Do(s, a[0]), a[1..], b, cap);
      assert (a + b)[1..] == a[1..] + b && (a + b)[0] == a[0];
    }
  }

  lemma Stays(s: State, cap: nat)
    ensures Reaches(s, s, cap)
  {
    assert IsRun(s, [], cap) && After(s, [], cap) == s;
  }

  lemma OneStep(s: State, a: Action, cap: nat)
    requires Enabled(s, a) && (a.Begin? ==> a.max <= cap)
    ensures Reaches(s, Do(s, a), cap)
  {
    hide Do, Enabled;
    var acts := [a];
    assert acts[1..] == [];
    assert IsRun(Do(s, a), acts[1..], cap) && IsRun(s, acts, cap) && After(s, acts, cap) == Do(s, a);
  }

  lemma Then(s: State, t: State, u: State, cap: nat)
    requires Reaches(s, t, cap) && Reaches(t, u, cap)
    ensures Reaches(s, u, cap)
  {
    hide IsRun, After;
    var a :| IsRun(s, a, cap) && After(s, a, cap) == t;
    var b :| IsRun(t, b, cap) && After(t, b, cap) == u;
    RunJoin(s, a, b, cap);
  }

  lemma ThenStep(s: State, t: State, a: Action, cap: nat)
    requires Reaches(s, t, cap) && Enabled(t, a) && (a.Begin? ==> a.max <= cap)
    ensures Reaches(s, Do(t, a), cap)
  {
    hide Reaches, Enabled, Do;
    OneStep(t, a, cap);
    Then(s, t, Do(t, a), cap);
  }

  function At(s: State, w: nat, pc: Pc): State
    requires w < |s.workers|
  {
    Put(s, w, s.workers[w].(pc := pc))
  }

  /** Moving a worker inside its reservation changes no sum. */
  lemma AtKeepsSums(s: State, w: nat, pc: Pc, k: nat)
    requires w < |s.workers| && k <= |s.workers|
    ensures SumFrom(At(s, w, pc).workers, k) == SumFrom(s.workers, k)
  {
    SumOfUpdate(s.workers, w, s.workers[w].(pc := pc), k);
  }

  /** Undisturbed, a sum reads every slot. */
  lemma {:induction false} Reads(s: State, w: nat, k: nat, sum: int, max: nat, start: nat, cap: nat)
    requires w < |s.workers| && k <= |s.workers|
    ensures Reaches(At(s, w, Summing(k, sum, max, start)),
                    At(s, w, Summing(|s.workers|, sum + SumFrom(s.workers, k), max, start)), cap)
    decreases |s.workers| - k
  {
    hide Reaches;
    var a := At(s, w, Summing(k, sum, max, start));
    if k == |s.workers| {
      Stays(a, cap);
    } else {
      var b := At(s, w, Summing(k + 1, sum + s.workers[k].slot, max, start));
      assert Do(a, ReadSlot(w)) == b;
      OneStep(a, ReadSlot(w), cap);
      Reads(s, w, k + 1, sum + s.workers[k].slot, max, start, cap);
      Then(a, b, At(s, w, Summing(|s.workers|, sum + SumFrom(s.workers, k), max, start)), cap);
    }
  }

  /** Below the cap, an idle worker passes the check. */
  lemma Passes(s: State, w: nat, cap: nat)
    requires w < |s.workers| && s.workers[w].pc.Idle? && 0 <= Total(s) < cap
    ensures Reaches(s, At(s, w, Passed(cap, |s.log|)), cap)
  {
    hide Reaches, SumFrom;
    var a := At(s, w, Summing(0, 0, cap, |s.log|));
    var b := At(s, w, Summing(|s.workers|, Total(s), cap, |s.log|));
    assert Do(s, Begin(w, cap)) == a;
    OneStep(s, Begin(w, cap), cap);
    Reads(s, w, 0, 0, cap, |s.log|, cap);
    Then(s, a, b, cap);
    assert Do(b, Decide(w)) == At(s, w, Passed(cap, |s.log|));
    ThenStep(s, b, Decide(w), cap);
  }

  /** From a passed check the worker reserves, whatever the others did meanwhile. */
  lemma Reserves(s: State, w: nat, cap: nat) returns (t: State)
    requires w < |s.workers| && s.workers[w].pc.Passed?
    ensures Reaches(s, t, cap) && Total(t) == Total(s) + 1 && |t.workers| == |s.workers|
    ensures t.workers[w].pc.Reserved? && forall i :: 0 <= i < |s.workers| && i != w ==> t.workers[i] == s.workers[i]
  {
    hide Reaches, SumFrom;
    var a := Do(s, LoadSlot(w));
    OneStep(s, LoadSlot(w), cap);
    t := Do(a, CompareAndSet(w));
    ThenStep(s, a, CompareAndSet(w), cap);
    SumOfUpdate(s.workers, w, a.workers[w], 0);
    SumOfUpdate(a.workers, w, t.workers[w], 0);
  }

  predicate AllIdle(s: State) {
    forall i :: 0 <= i < |s.workers| ==> s.workers[i].pc.Idle?
  }

  /** One worker alone fills the cap but for one connection. */
  lemma {:induction false} Fill(s: State, n: nat, cap: nat) returns (t: State)
    requires s.workers != [] && AllIdle(s) && 0 <= Total(s) && Total(s) + n <= cap
    ensures Reaches(s, t, cap) && AllIdle(t) && Total(t) == Total(s) + n && |t.workers| == |s.workers|
  {
    hide Reaches, SumFrom;
    if n == 0 {
      Stays(s, cap);
      return s;
    }
    var a := Fill(s, n - 1, cap);
    var b := At(a, 0, Passed(cap, |a.log|));
    Passes(a, 0, cap);
    Then(s, a, b, cap);
    AtKeepsSums(a, 0, Passed(cap, |a.log|), 0);
    var c := Reserves(b, 0, cap);
    Then(s, b, c, cap);
    t := Do(c, Count(0));
    ThenStep(s, c, Count(0), cap);
    SumOfUpdate(c.workers, 0, t.workers[0], 0);
  }

  /** Every worker passes the check before any of them reserves. */
  lemma {:induction false} AllPass(s: State, k: nat, cap: nat) returns (t: State)
    requires k <= |s.workers| && AllIdle(s) && 0 <= Total(s) < cap
    ensures Reaches(s, t, cap) && Total(t) == Total(s) && |t.workers| == |s.workers|
    ensures forall i :: 0 <= i < k ==> t.workers[i].pc.Passed?
    ensures forall i :: k <= i < |t.workers| ==> t.workers[i].pc.Idle?
  {
    hide Reaches, SumFrom;
    if k == 0 {
      Stays(s, cap);
      return s;
    }
    var a := AllPass(s, k - 1, cap);
    t := At(a, k - 1, Passed(cap, |a.log|));
    Passes(a, k - 1, cap);
    Then(s, a, t, cap);
    AtKeepsSums(a, k - 1, Passed(cap, |a.log|), 0);
  }

  lemma {:induction false} AllReserve(s: State, k: nat, cap: nat) returns (t: State)
    requires k <= |s.workers| && forall i :: 0 <= i < k ==> s.workers[i].pc.Passed?
    ensures Reaches(s, t, cap) && Total(t) == Total(s) + k && |t.workers| == |s.workers|
    decreases k
  {
    hide Reaches, SumFrom;
    if k == 0 {
      Stays(s, cap);
      return s;
    }
    var a := Reserves(s, k - 1, cap);
    t := AllReserve(a, k - 1, cap);
    Then(s, a, t, cap);
  }

  /** For every number of workers and every cap, the bound of `CapHolds` is attained. */
  lemma OvershootIsReached(s: State, cap: nat) returns (acts: seq<Action>)
    requires IsStart(s) && s.workers != [] && cap >= 1
    ensures IsRun(s, acts, cap) && Total(After(s, acts, cap)) == cap + |s.workers| - 1
  {
    hide SumFrom, IsRun, After;
    EmptySum(s.workers, 0);
    var a := Fill(s, cap - 1, cap);
    var b := AllPass(a, |a.workers|, cap);
    var c := AllReserve(b, |b.workers|, cap);
    Then(s, a, b, cap);
    Then(s, b, c, cap);
    acts :| IsRun(s, acts, cap) && After(s, acts, cap) == c;
  }
}
