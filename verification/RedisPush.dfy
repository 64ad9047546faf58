/** The Redis side of the ring: one timer's flush, other workers offering and taking meanwhile. */
module RedisPush {
  import opened Actions
  import opened BanRing

  /** A SET with its expiry: which address, what to do with it, until when, for how long from now. */
  datatype Command = Command(ip: string, action: string, expiry: int, ttl: int)

  /** The commands a list of taken bans is worth, in order. */
  function Commands(bans: seq<Ban>, now: int, maxIp: nat): (c: seq<Command>)
    ensures |c| <= |bans|
    ensures forall k :: 0 <= k < |c| ==> c[k].ttl > 0 && now + c[k].ttl == c[k].expiry && 0 < |c[k].ip| < maxIp
  {
    if bans == [] then []
    else
      var b := bans[|bans| - 1];
      Commands(bans[..|bans| - 1], now, maxIp)
      + (if Usable(b, now, maxIp) then [Command(b.ip, ActionText(b.action), b.expiry, b.expiry - now)] else [])
  }

  lemma CommandsNext(bans: seq<Ban>, b: Ban, now: int, maxIp: nat)
    ensures Commands(bans + [b], now, maxIp)
            == Commands(bans, now, maxIp)
               + (if Usable(b, now, maxIp) then [Command(b.ip, ActionText(b.action), b.expiry, b.expiry - now)] else [])
  {
    assert (bans + [b])[..|bans|] == bans;
  }

  // ---- One flush among others ----

  /** `m` is `a` and `b` merged, the order of each kept. */
  predicate Merged(m: seq<Ban>, a: seq<Ban>, b: seq<Ban>) {
    if m == [] then a == [] && b == []
    else
      var n := |m| - 1;
      || (a != [] && a[|a| - 1] == m[n] && Merged(m[..n], a[..|a| - 1], b))
      || (b != [] && b[|b| - 1] == m[n] && Merged(m[..n], a, b[..|b| - 1]))
  }

  lemma MergedNext(m: seq<Ban>, a: seq<Ban>, b: seq<Ban>, x: Ban)
    requires Merged(m, a, b)
    ensures Merged(m + [x], a + [x], b) && Merged(m + [x], a, b + [x])
  {
    assert (m + [x])[..|m|] == m && (a + [x])[..|a|] == a && (b + [x])[..|b|] == b;
  }

  lemma {:induction false} MergedMore(m: seq<Ban>, a: seq<Ban>, b: seq<Ban>, more: seq<Ban>)
    requires Merged(m, a, b)
    ensures Merged(m + more, a, b + more)
  {
    hide Merged;
    if more == [] {
      assert m + more == m && b + more == b;
    } else {
      var n := |more| - 1;
      MergedMore(m, a, b, more[..n]);
      MergedNext(m + more[..n], a, b + more[..n], more[n]);
      assert m + more == m + more[..n] + [more[n]] && b + more == b + more[..n] + [more[n]];
    }
  }

  lemma {:induction false} MergedLength(m: seq<Ban>, a: seq<Ban>, b: seq<Ban>)
    requires Merged(m, a, b)
    ensures |m| == |a| + |b|
  {
    if m != [] {
      var n := |m| - 1;
      if a != [] && a[|a| - 1] == m[n] && Merged(m[..n], a[..|a| - 1], b) {
        MergedLength(m[..n], a[..|a| - 1], b);
      } else {
        MergedLength(m[..n], a, b[..|b| - 1]);
      }
    }
  }

  lemma {:induction false} MergedAlone(m: seq<Ban>, a: seq<Ban>)
    requires Merged(m, a, [])
    ensures m == a
  {
    if m != [] {
      var n := |m| - 1;
      MergedAlone(m[..n], a[..|a| - 1]);
      assert m == m[..n] + [m[n]] && a == a[..|a| - 1] + [a[|a| - 1]];
    }
  }

  lemma LastOf(s: seq<Ban>)
    requires s != []
    ensures multiset(s) == multiset(s[..|s| - 1]) + multiset{s[|s| - 1]}
  {
    assert s == s[..|s| - 1] + [s[|s| - 1]];
  }

  lemma {:induction false} MergedCounts(m: seq<Ban>, a: seq<Ban>, b: seq<Ban>)
    requires Merged(m, a, b)
    ensures multiset(m) == multiset(a) + multiset(b)
  {
    if m != [] {
      var n := |m| - 1;
      LastOf(m);
      if a != [] && a[|a| - 1] == m[n] && Merged(m[..n], a[..|a| - 1], b) {
        MergedCounts(m[..n], a[..|a| - 1], b);
        LastOf(a);
        hide Merged;
      } else {
        MergedCounts(m[..n], a, b[..|b| - 1]);
        LastOf(b);
        hide Merged;
      }
    }
  }

  /** Nothing is lost in a merge and nothing added; with one side empty it is the other. */
  lemma MergedIsBoth(m: seq<Ban>, a: seq<Ban>, b: seq<Ban>)
    requires Merged(m, a, b)
    ensures |m| == |a| + |b| && multiset(m) == multiset(a) + multiset(b)
    ensures b == [] ==> m == a
  {
    hide Merged;
    MergedLength(m, a, b);
    MergedCounts(m, a, b);
    if b == [] {
      MergedAlone(m, a);
    }
  }

  function AllTakes(turns: seq<seq<Step>>): nat {
    if turns == [] then 0 else AllTakes(turns[..|turns| - 1]) + Takes(turns[|turns| - 1])
  }

  function First<T>(s: seq<T>, n: nat): seq<T> {
    if n < |s| then s[..n] else s
  }

  /** The takes of one turn more, and at most those of all turns. */
  lemma TurnsNext(turns: seq<seq<Step>>, i: nat)
    ensures AllTakes(First(turns, i + 1)) == AllTakes(First(turns, i)) + (if i < |turns| then Takes(turns[i]) else 0)
    ensures AllTakes(First(turns, i + 1)) <= AllTakes(turns)
  {
    if i < |turns| {
      assert turns[..i + 1][..i] == turns[..i];
      assert First(turns, i + 1) == turns[..i + 1];
      MoreTurns(turns, i + 1);
    }
  }

  lemma {:induction false} MoreTurns(turns: seq<seq<Step>>, i: nat)
    requires i <= |turns|
    ensures AllTakes(turns[..i]) <= AllTakes(turns)
  {
    if i == |turns| {
      assert turns[..i] == turns;
    } else {
      var n := |turns| - 1;
      MoreTurns(turns[..n], i);
      assert turns[..n][..i] == turns[..i];
    }
  }

  lemma MergedTurn(m: seq<Ban>, a: seq<Ban>, b: seq<Ban>, more: seq<Ban>, next: Next)
    requires Merged(m, a, b)
    ensures Merged(m + more + Out(next), a + Out(next), b + more)
  {
    MergedMore(m, a, b, more);
    if next.Next? {
      MergedNext(m + more, a, b + more, next.ban);
    } else {
      assert m + more + [] == m + more && a + [] == a;
    }
  }

  // ---- What is sent ----

  /** The commands sent for the bans taken: all of them, or all but the refused last one. */
  predicate SentFor(sent: seq<Command>, failed: bool, taken: seq<Ban>, now: int, maxIp: nat, sendOk: nat -> bool) {
    var all := Commands(taken, now, maxIp);
    && (forall k :: 0 <= k < |sent| ==> sendOk(k))
    && if failed then
         && all != [] && sent == all[..|all| - 1] && !sendOk(|sent|)
         && taken != [] && Usable(taken[|taken| - 1], now, maxIp)
       else sent == all
  }

  lemma SentNext(sent: seq<Command>, taken: seq<Ban>, b: Ban, now: int, maxIp: nat, sendOk: nat -> bool)
    requires SentFor(sent, false, taken, now, maxIp, sendOk)
    ensures !Usable(b, now, maxIp) ==> SentFor(sent, false, taken + [b], now, maxIp, sendOk)
    ensures Usable(b, now, maxIp) && sendOk(|sent|) ==>
              SentFor(sent + [Command(b.ip, ActionText(b.action), b.expiry, b.expiry - now)], false,
                      taken + [b], now, maxIp, sendOk)
    ensures Usable(b, now, maxIp) && !sendOk(|sent|) ==> SentFor(sent, true, taken + [b], now, maxIp, sendOk)
  {
    hide Commands;
    CommandsNext(taken, b, now, maxIp);
  }

  /** The shares of `n` turns. */
  ghost predicate Shares(gone: seq<Ban>, taken: seq<Ban>, theirs: seq<Ban>, others: seq<seq<Step>>, n: nat) {
    Merged(gone, taken, theirs) && |theirs| <= AllTakes(First(others, n)) && (others == [] ==> theirs == [])
  }

  lemma SharesNext(gone: seq<Ban>, taken: seq<Ban>, theirs: seq<Ban>, others: seq<seq<Step>>, n: nat,
                   more: seq<Ban>, next: Next)
    requires Shares(gone, taken, theirs, others, n)
    requires |more| <= if n < |others| then Takes(others[n]) else 0
    ensures Shares(gone + (more + Out(next)), taken + Out(next), theirs + more, others, n + 1)
  {
    hide Merged, AllTakes, Takes, Out, First;
    MergedTurn(gone, taken, theirs, more, next);
    TurnsNext(others, n);
    assert gone + (more + Out(next)) == gone + more + Out(next);
  }

  /** One turn of the flush, with the others' steps before it. */
  method FlushTurn(r: Ring, others: seq<seq<Step>>, turn: nat, ghost start: Queue,
                   ghost gone: seq<Ban>, ghost taken: seq<Ban>, ghost theirs: seq<Ban>)
      returns (next: Next, ghost more: seq<Ban>)
    requires r.Valid() && RanTurns(r, start, gone, others, turn) && Shares(gone, taken, theirs, others, turn)
    modifies r, r.ring
    ensures r.Valid() && old(r.accepted) <= r.accepted && r.drained == old(r.drained) + (more + Out(next))
    ensures RanTurns(r, start, gone + (more + Out(next)), others, turn + 1)
    ensures Shares(gone + (more + Out(next)), taken + Out(next), theirs + more, others, turn + 1)
    ensures next.Empty? ==> r.pending == []
    ensures turn >= |others| && next.Next? ==> |r.pending| < |old(r.pending)|
    ensures others == [] ==> r.accepted == old(r.accepted)
  {
    hide Ring.Valid, Moved, Schedule, Shares, Takes, Out;
    var steps := if turn < |others| then others[turn] else [];
    ghost var before := Queue(r.pending, gone, r.refused);
    NoSteps(before, r.maxIp);
    next, more := Turn(r, steps);
    ScheduleMoves(start, others, turn, r.maxIp, before, Queue(r.pending, more + Out(next), r.refused));
    SharesNext(gone, taken, theirs, others, turn, more, next);
    assert old(r.drained) + more + Out(next) == old(r.drained) + (more + Out(next));
  }

  /** The loop of the flush. */
  method FlushLoop(r: Ring, others: seq<seq<Step>>, now: int, sendOk: nat -> bool)
      returns (sent: seq<Command>, failed: bool, ghost gone: seq<Ban>, ghost taken: seq<Ban>, ghost theirs: seq<Ban>)
    requires r.Valid()
    modifies r, r.ring
    ensures r.Valid() && old(r.accepted) <= r.accepted && r.drained == old(r.drained) + gone
    ensures Shares(gone, taken, theirs, others, Turns(sent, failed, taken))
    ensures RanTurns(r, Queue(old(r.pending), [], old(r.refused)), gone, others, Turns(sent, failed, taken))
    ensures others == [] ==> r.accepted == old(r.accepted)
    ensures SentFor(sent, failed, taken, now, r.maxIp, sendOk) && |sent| <= CAPACITY
    ensures !failed && |sent| < CAPACITY ==> r.pending == []
  {
    hide Ring.Valid, SentFor, Shares, RanTurns, Usable;
    sent, failed, gone, taken, theirs := [], false, [], [], [];
    ghost var start := Queue(r.pending, [], r.refused);
    NothingTaken(now, r.maxIp, others, sendOk);
    NoTurns(r, others);
    var turn := 0;
    while true
      invariant r.Valid() && old(r.accepted) <= r.accepted && r.drained == old(r.drained) + gone
      invariant RanTurns(r, start, gone, others, turn) && Shares(gone, taken, theirs, others, turn) && turn == |taken|
      invariant others == [] ==> r.accepted == old(r.accepted)
      invariant SentFor(sent, false, taken, now, r.maxIp, sendOk) && |sent| < CAPACITY && !failed
      decreases if turn < |others| then |others| - turn else 0, |r.pending|
    {
      var next, more := FlushTurn(r, others, turn, start, gone, taken, theirs);
      gone, theirs, turn := gone + (more + Out(next)), theirs + more, turn + 1;
      if next.Empty? {
        assert taken + Out(next) == taken;
        return;
      }
      var entry := next.ban;
      SentNext(sent, taken, entry, now, r.maxIp, sendOk);
      taken := taken + [entry];
      WhenUsable(entry, now, r.maxIp);
      if |entry.ip| == 0 || |entry.ip| >= r.maxIp {
        continue;
      }
      var ttl := entry.expiry - now;
      if ttl <= 0 {
        continue;
      }
      if !sendOk(|sent|) {
        failed := true;
        return;
      }
      sent := sent + [Command(entry.ip, ActionText(entry.action), entry.expiry, ttl)];
      if |sent| >= CAPACITY {
        return;
      }
    }
  }

  /** How many turns a flush has taken: one for each ban, and one more when it found the ring empty. */
  function Turns(sent: seq<Command>, failed: bool, taken: seq<Ban>): nat {
    |taken| + (if !failed && |sent| < CAPACITY then 1 else 0)
  }

  lemma WhenUsable(b: Ban, now: int, maxIp: nat)
    ensures Usable(b, now, maxIp) <==> 0 < |b.ip| < maxIp && b.expiry - now > 0
  {
  }

  lemma NothingTaken(now: int, maxIp: nat, others: seq<seq<Step>>, sendOk: nat -> bool)
    ensures SentFor([], false, [], now, maxIp, sendOk) && Shares([], [], [], others, 0)
  {
  }

  lemma AllShares(gone: seq<Ban>, taken: seq<Ban>, theirs: seq<Ban>, others: seq<seq<Step>>, n: nat)
    requires Shares(gone, taken, theirs, others, n)
    ensures |gone| == |taken| + |theirs| && multiset(gone) == multiset(taken) + multiset(theirs)
    ensures Merged(gone, taken, theirs) && |theirs| <= AllTakes(others) && (others == [] ==> gone == taken)
  {
    hide Merged, AllTakes;
    MergedIsBoth(gone, taken, theirs);
    if n < |others| {
      MoreTurns(others, n);
    }
  }

  /**
   One flush. The ring and what left it are the bounded queue run over the
   schedule of the turns: the others' steps, then one take, in each turn. What
   left is what this flush took and what the others took, merged. Every ban this
   flush took is sent once and in order, unless its address or its time is no
   good. A refused command loses the one ban already taken: whatever was
   accepted and taken by nobody is still in the ring.
   */
  method FlushPush(r: Ring, up: bool, others: seq<seq<Step>>, now: int, sendOk: nat -> bool)
      returns (sent: seq<Command>, failed: bool, ghost taken: seq<Ban>, ghost theirs: seq<Ban>)
    requires r.Valid()
    modifies r, r.ring
    ensures r.Valid() && old(r.accepted) <= r.accepted && r.accepted == r.drained + r.pending
    ensures old(r.drained) <= r.drained
    ensures var gone := r.drained[|old(r.drained)|..];
      && Merged(gone, taken, theirs) && |gone| == |taken| + |theirs|
      && multiset(gone) == multiset(taken) + multiset(theirs)
      && RanTurns(r, Queue(old(r.pending), [], old(r.refused)), gone, others,
                  if up then Turns(sent, failed, taken) else 0)
    ensures |theirs| <= AllTakes(others)
    ensures others == [] ==> r.drained == old(r.drained) + taken && r.accepted == old(r.accepted)
    ensures !up ==> taken == [] && theirs == [] && !failed && r.pending == old(r.pending)
    ensures SentFor(sent, failed, taken, now, r.maxIp, sendOk) && |sent| <= CAPACITY
    ensures up && !failed && |sent| < CAPACITY ==> r.pending == []
  {
    hide Ring.Valid, Merged, SentFor, AllTakes, RanTurns, Shares;
    r.Balance();
    ghost var gone := [];
    NoTurns(r, others);
    if up {
      sent, failed, gone, taken, theirs := FlushLoop(r, others, now, sendOk);
      AllShares(gone, taken, theirs, others, Turns(sent, failed, taken));
    } else {
      sent, failed, taken, theirs := [], false, [], [];
      NothingTaken(now, r.maxIp, others, sendOk);
      AllShares(gone, taken, theirs, others, 0);
    }
    assert r.drained[|old(r.drained)|..] == gone;
    r.Balance();
  }
}
