/**
 The sink's decision set: a slot array used as a map from address to expiry,
 fed from the ring, pruned, and written out once per live address.
 */
module SinkSet {
  import opened BanRing

  /** An active decision; expiry 0 marks an empty slot. */
  datatype Slot = Slot(ip: string, expiry: int)

  /** A line of the decisions file. */
  datatype Line = Line(ip: string, duration: int)

  /** What the owner does to the set, with the time of its tick. */
  datatype Event = Drain(ban: Ban, now: int) | Prune(now: int)

  datatype Latest = Never | Latest(expiry: int)

  // ---- The set as a map ----

  /** An address already known, or room for another, takes the new expiry. */
  function Upserted(m: map<string, int>, ip: string, expiry: int, capacity: nat): map<string, int> {
    if ip in m || |m| < capacity then m[ip := expiry] else m
  }

  function Unexpired(m: map<string, int>, now: int): map<string, int> {
    map k | k in m && m[k] > now :: m[k]
  }

  function Applied(m: map<string, int>, e: Event, maxIp: nat, capacity: nat): map<string, int> {
    match e
    case Drain(b, now) => if Usable(b, now, maxIp) then Upserted(m, b.ip, b.expiry, capacity) else m
    case Prune(now) => Unexpired(m, now)
  }

  function After(events: seq<Event>, maxIp: nat, capacity: nat): map<string, int> {
    if events == [] then map[]
    else Applied(After(events[..|events| - 1], maxIp, capacity), events[|events| - 1], maxIp, capacity)
  }

  // ---- While there is room, the set is the most recent drained expiries that still run ----

  /** The most recent usable expiry drained for an address. */
  function LatestFor(events: seq<Event>, ip: string, maxIp: nat): Latest {
    if events == [] then Never
    else
      var e := events[|events| - 1];
      if e.Drain? && Usable(e.ban, e.now, maxIp) && e.ban.ip == ip then Latest(e.ban.expiry)
      else LatestFor(events[..|events| - 1], ip, maxIp)
  }

  function LastPrune(events: seq<Event>): int {
    if events == [] then -1
    else if events[|events| - 1].Prune? then events[|events| - 1].now
    else LastPrune(events[..|events| - 1])
  }

  ghost predicate InOrder(events: seq<Event>) {
    forall i, j :: 0 <= i <= j < |events| ==> 0 <= events[i].now <= events[j].now
  }

  /** Every usable ban found its address or a free slot. */
  ghost predicate Roomy(events: seq<Event>, maxIp: nat, capacity: nat) {
    if events == [] then true
    else
      var e, m := events[|events| - 1], After(events[..|events| - 1], maxIp, capacity);
      && Roomy(events[..|events| - 1], maxIp, capacity)
      && (e.Drain? && Usable(e.ban, e.now, maxIp) ==> e.ban.ip in m || |m| < capacity)
  }

  lemma {:induction false} LastPruneIsPast(events: seq<Event>)
    requires InOrder(events) && events != []
    ensures LastPrune(events) <= events[|events| - 1].now
  {
    var n := |events| - 1;
    if n > 0 && !events[n].Prune? {
      LastPruneIsPast(events[..n]);
    }
  }

  lemma {:induction false} SetIsLatestUnexpired(events: seq<Event>, ip: string, maxIp: nat, capacity: nat)
    requires InOrder(events) && Roomy(events, maxIp, capacity)
    ensures var m, l := After(events, maxIp, capacity), LatestFor(events, ip, maxIp);
      && (ip in m <==> l.Latest? && l.expiry > LastPrune(events))
      && (ip in m ==> m[ip] == l.expiry)
  {
    if events != [] {
      var n := |events| - 1;
      SetIsLatestUnexpired(events[..n], ip, maxIp, capacity);
      LastPruneIsPast(events);
      if n > 0 {
        LastPruneIsPast(events[..n]);
      }
    }
  }

  /** The array stays within its bound whatever is drained. */
  lemma {:induction false} SetFits(events: seq<Event>, maxIp: nat, capacity: nat)
    ensures |After(events, maxIp, capacity)| <= capacity
  {
    if events != [] {
      var n := |events| - 1;
      SetFits(events[..n], maxIp, capacity);
      var m := After(events[..n], maxIp, capacity);
      match events[n] {
        case Drain(b, now) =>
          assert b.ip in m ==> m[b.ip := b.expiry].Keys == m.Keys;
          assert b.ip !in m ==> m[b.ip := b.expiry].Keys == m.Keys + {b.ip};
        case Prune(now) =>
          SubsetSize(Unexpired(m, now).Keys, m.Keys);
      }
    }
  }

  lemma {:induction false} SubsetSize<T>(a: set<T>, b: set<T>)
    requires a <= b
    ensures |a| <= |b|
  {
    if a != {} {
      var x :| x in a;
      SubsetSize(a - {x}, b - {x});
    }
  }

  // ---- The array that represents the map ----

  predicate Distinct(s: seq<Slot>) {
    forall i, j :: 0 <= i < j < |s| && s[i].expiry != 0 && s[j].expiry != 0 ==> s[i].ip != s[j].ip
  }

  predicate Listed(s: seq<Slot>, ip: string) {
    exists i :: 0 <= i < |s| && s[i].expiry != 0 && s[i].ip == ip
  }

  /** The occupied slots are exactly the map's entries, each in one slot. */
  ghost predicate Shows(s: seq<Slot>, m: map<string, int>) {
    && Distinct(s) && Occupied(s) == |m|
    && (forall i :: 0 <= i < |s| && s[i].expiry != 0 ==> s[i].ip in m)
    && (forall i :: 0 <= i < |s| && s[i].expiry != 0 && s[i].ip in m ==> m[s[i].ip] == s[i].expiry)
    && (forall k :: k in m ==> Listed(s, k))
  }

  function Occupied(s: seq<Slot>): (n: nat)
    ensures n <= |s|
  {
    if s == [] then 0
    else Occupied(s[..|s| - 1]) + (if s[|s| - 1].expiry == 0 then 0 else 1)
  }

  lemma {:induction false} OccupiedUpdate(s: seq<Slot>, i: nat, x: Slot)
    requires i < |s|
    ensures Occupied(s[i := x]) == Occupied(s) + (if x.expiry == 0 then 0 else 1) - (if s[i].expiry == 0 then 0 else 1)
  {
    var n := |s| - 1;
    if i < n {
      OccupiedUpdate(s[..n], i, x);
      assert s[i := x][..n] == s[..n][i := x];
    } else {
      assert s[i := x][..n] == s[..n];
    }
  }

  lemma {:induction false} AllOccupied(s: seq<Slot>)
    requires forall i :: 0 <= i < |s| ==> s[i].expiry != 0
    ensures Occupied(s) == |s|
  {
    if s != [] {
      AllOccupied(s[..|s| - 1]);
    }
  }

  lemma {:induction false} SomeFree(s: seq<Slot>, i: nat)
    requires i < |s| && s[i].expiry == 0
    ensures Occupied(s) < |s|
  {
    if i < |s| - 1 {
      SomeFree(s[..|s| - 1], i);
    }
  }

  lemma {:induction false} NoneOccupied(s: seq<Slot>)
    requires forall i :: 0 <= i < |s| ==> s[i].expiry == 0
    ensures Shows(s, map[]) && Occupied(s) == 0
  {
    if s != [] {
      NoneOccupied(s[..|s| - 1]);
    }
  }

  lemma OccupiedNext(s: seq<Slot>, i: nat)
    requires i < |s|
    ensures Occupied(s[..i + 1]) == Occupied(s[..i]) + (if s[i].expiry == 0 then 0 else 1)
  {
    assert s[..i + 1][..i] == s[..i];
  }

  /** Refreshing the slot an address holds. */
  lemma RefreshShows(s: seq<Slot>, m: map<string, int>, i: nat, expiry: int)
    requires Shows(s, m) && i < |s| && s[i].expiry != 0 && expiry != 0
    ensures s[i].ip in m && Shows(s[i := Slot(s[i].ip, expiry)], m[s[i].ip := expiry])
  {
    hide Occupied, Listed;
    var t := s[i := Slot(s[i].ip, expiry)];
    OccupiedUpdate(s, i, t[i]);
    assert m[s[i].ip := expiry].Keys == m.Keys;
    ListedKept(s, t);
  }

  /** A new address in a free slot. */
  lemma StoreShows(s: seq<Slot>, m: map<string, int>, i: nat, ip: string, expiry: int)
    requires Shows(s, m) && i < |s| && s[i].expiry == 0 && expiry != 0 && ip !in m
    ensures Shows(s[i := Slot(ip, expiry)], m[ip := expiry])
  {
    hide Occupied, Listed;
    var t := s[i := Slot(ip, expiry)];
    OccupiedUpdate(s, i, t[i]);
    assert m[ip := expiry].Keys == m.Keys + {ip};
    ListedKept(s, t);
    ListedAt(t, i);
  }

  lemma ListedAt(s: seq<Slot>, i: nat)
    requires i < |s| && s[i].expiry != 0
    ensures Listed(s, s[i].ip)
  {
  }

  lemma ListedKept(s: seq<Slot>, t: seq<Slot>)
    requires |s| == |t|
    requires forall i :: 0 <= i < |s| && s[i].expiry != 0 ==> t[i].expiry != 0
    requires forall i :: 0 <= i < |s| && s[i].expiry != 0 ==> t[i].ip == s[i].ip
    ensures forall k :: Listed(s, k) ==> Listed(t, k)
  {
    forall k | Listed(s, k) ensures Listed(t, k) {
      var i :| 0 <= i < |s| && s[i].expiry != 0 && s[i].ip == k;
      assert t[i].ip == k;
    }
  }

  lemma ListedButOne(s: seq<Slot>, i: nat)
    requires i < |s|
    ensures forall k :: Listed(s, k) && k != s[i].ip ==> Listed(s[i := Slot(s[i].ip, 0)], k)
  {
    var t := s[i := Slot(s[i].ip, 0)];
    forall k | Listed(s, k) && k != s[i].ip ensures Listed(t, k) {
      var j :| 0 <= j < |s| && s[j].expiry != 0 && s[j].ip == k;
      assert t[j] == s[j];
    }
  }

  /** Emptying a slot removes its address and nothing else. */
  lemma ClearShows(s: seq<Slot>, m: map<string, int>, i: nat)
    requires Shows(s, m) && i < |s| && s[i].expiry != 0
    ensures Shows(s[i := Slot(s[i].ip, 0)], m - {s[i].ip}) && |m| > 0
  {
    hide Occupied, Listed;
    var t, ip := s[i := Slot(s[i].ip, 0)], s[i].ip;
    OccupiedUpdate(s, i, t[i]);
    var less := m - {ip};
    assert less.Keys == m.Keys - {ip} && ip in m.Keys;
    assert |less.Keys| == |m.Keys| - 1;
    ListedButOne(s, i);
    assert forall j :: 0 <= j < |s| && j != i && s[j].expiry != 0 ==> s[j].ip != ip;
  }

  /** The array with its first `i` slots pruned, and what the map then is. */
  ghost predicate PrunedTo(s: seq<Slot>, was: map<string, int>, m: map<string, int>, i: nat, now: int)
    requires i <= |s|
  {
    && (forall k :: k in m ==> k in was)
    && (forall k :: k in m && k in was ==> m[k] == was[k])
    && (forall k :: k in was && was[k] > now ==> k in m)
    && (forall j :: 0 <= j < i && s[j].expiry != 0 ==> s[j].expiry > now)
  }

  lemma PrunedNone(s: seq<Slot>, m: map<string, int>, now: int)
    ensures PrunedTo(s, m, m, 0, now) && Occupied(s[..0]) == 0
  {
  }

  lemma PrunedWhole(s: seq<Slot>, was: map<string, int>, m: map<string, int>, now: int)
    requires Shows(s, m) && PrunedTo(s, was, m, |s|, now)
    ensures m == Unexpired(was, now)
  {
    forall k | k in m ensures m[k] > now {
      assert Listed(s, k);
      var i :| 0 <= i < |s| && s[i].expiry != 0 && s[i].ip == k;
    }
  }

  class Sink {
    const maxIp: nat
    const slots: array<Slot>
    var count: nat
    ghost var live: map<string, int>
    ghost var history: seq<Event>

    ghost predicate Valid()
      reads this, slots
    {
      Shows(slots[..], live) && count == |live| && live == After(history, maxIp, slots.Length)
    }

    constructor (maxIp: nat, capacity: nat)
      ensures Valid() && fresh(slots) && slots.Length == capacity && this.maxIp == maxIp
      ensures live == map[] && history == []
    {
      this.maxIp := maxIp;
      slots := new Slot[capacity](_ => Slot([], 0));
      count, live, history := 0, map[], [];
      new;
      NoneOccupied(slots[..]);
    }

    /** Refreshes the address where it stands, or takes the first free slot. */
    method SetUpsert(ip: string, expiry: int)
      requires Shows(slots[..], live) && count == |live| && expiry != 0
      modifies this`count, this`live, slots
      ensures Shows(slots[..], live) && count == |live|
      ensures live == Upserted(old(live), ip, expiry, slots.Length)
    {
      hide Shows, Occupied;
      ghost var was := slots[..];
      ShowsSize(was, live);
      var free: nat := slots.Length;
      for i := 0 to slots.Length
        invariant slots[..] == was && count == old(count) && live == old(live)
        invariant forall k :: 0 <= k < i && was[k].expiry != 0 ==> was[k].ip != ip
        invariant free == slots.Length ==> forall k :: 0 <= k < i ==> was[k].expiry != 0
        invariant free < slots.Length ==> was[free].expiry == 0
        invariant free <= slots.Length
      {
        if slots[i].expiry == 0 {
          if free == slots.Length {
            free := i;
          }
          continue;
        }
        if slots[i].ip == ip {
          RefreshShows(was, live, i, expiry);
          slots[i] := Slot(slots[i].ip, expiry);
          live := live[ip := expiry];
          assert slots[..] == was[i := Slot(ip, expiry)];
          return;
        }
      }
      Absent(was, live, ip);
      if free == slots.Length {
        AllOccupied(was);
        return;
      }
      SomeFree(was, free);
      StoreShows(was, live, free, ip, expiry);
      slots[free] := Slot(ip, expiry);
      assert slots[..] == was[free := Slot(ip, expiry)];
      live := live[ip := expiry];
      count := count + 1;
    }

    /** The pruning of one slot; the slots before it are pruned already. */
    method ExpireSlot(i: nat, now: int, ghost was: map<string, int>) returns (alive: bool)
      requires i < slots.Length && Shows(slots[..], live) && count == |live| && PrunedTo(slots[..], was, live, i, now)
      modifies this`count, this`live, slots
      ensures Shows(slots[..], live) && count == |live| && PrunedTo(slots[..], was, live, i + 1, now)
      ensures slots[..i] == old(slots[..i]) && (alive <==> slots[i].expiry != 0)
    {
      hide Shows, Occupied, Distinct;
      ghost var before := slots[..];
      if slots[i].expiry == 0 {
        return false;
      }
      ShowsAt(before, live, i);
      if slots[i].expiry <= now {
        ClearShows(before, live, i);
        slots[i] := Slot(slots[i].ip, 0);
        live := live - {before[i].ip};
        assert slots[..] == before[i := Slot(before[i].ip, 0)];
        if count > 0 {
          count := count - 1;
        }
        return false;
      }
      return true;
    }

    /** Empties the slots whose decision has run out. */
    method SetExpire(now: int) returns (left: nat)
      requires Shows(slots[..], live) && count == |live|
      modifies this`count, this`live, slots
      ensures Shows(slots[..], live) && count == |live| == left
      ensures live == Unexpired(old(live), now)
    {
      hide Shows, Occupied, Distinct, PrunedTo;
      left := 0;
      PrunedNone(slots[..], live, now);
      for i := 0 to slots.Length
        invariant Shows(slots[..], live) && count == |live|
        invariant PrunedTo(slots[..], old(live), live, i, now)
        invariant left == Occupied(slots[..i])
      {
        var alive := ExpireSlot(i, now, old(live));
        OccupiedNext(slots[..], i);
        assert slots[..][..i] == slots[..i] && slots[..][..i + 1] == slots[..i + 1];
        if alive {
          left := left + 1;
        }
      }
      assert slots[..slots.Length] == slots[..];
      PrunedWhole(slots[..], old(live), live, now);
      ShowsSize(slots[..], live);
    }

    /** The lines of the decisions file: each live address once, with the time it has left. */
    method Rewrite(now: int) returns (lines: seq<Line>)
      requires Shows(slots[..], live)
      ensures forall i, j :: 0 <= i < j < |lines| ==> lines[i].ip != lines[j].ip
      ensures forall l :: l in lines ==> l.duration > 0 && l.ip in live && live[l.ip] == now + l.duration
      ensures forall k :: k in live && live[k] > now ==> Line(k, live[k] - now) in lines
    {
      hide Shows, FromSlot, Written;
      ghost var s := slots[..];
      lines := [];
      for i := 0 to slots.Length
        invariant forall a :: 0 <= a < |lines| ==> FromSlot(lines[a], s, i, now)
        invariant forall k :: 0 <= k < i ==> Written(lines, s[k], now)
        invariant forall a, b :: 0 <= a < b < |lines| ==> lines[a].ip != lines[b].ip
      {
        NextSlot(s, live, i, now);
        if slots[i].expiry == 0 || slots[i].expiry <= now {
          SkipWritten(lines, s[i], now);
          continue;
        }
        WriteSlot(lines, s[i], now);
        lines := lines + [Line(slots[i].ip, slots[i].expiry - now)];
      }
      LinesShow(lines, s, live, now);
    }

    /** Stores one drained ban if it is usable. */
    method Absorb(ban: Ban, now: int)
      requires Valid() && now >= 0
      modifies this`count, this`live, this`history, slots
      ensures Valid() && history == old(history) + [Drain(ban, now)]
    {
      hide Shows, After, Upserted;
      AfterDrain(history, ban, now, maxIp, slots.Length);
      if ban.ip != [] && |ban.ip| < maxIp && ban.expiry > now {
        SetUpsert(ban.ip, ban.expiry);
      }
      history := history + [Drain(ban, now)];
    }

    /** At most a ring's worth of locked turns, offers arriving before each. */
    method DrainRing(r: Ring, arrivals: seq<seq<Ban>>, now: int) returns (ghost taken: seq<Ban>)
      requires Valid() && r.Valid() && now >= 0 && r.ring as object != slots
      modifies this`count, this`live, this`history, slots, r, r.ring
      ensures Valid() && r.Valid()
      ensures r.drained == old(r.drained) + taken && old(r.accepted) <= r.accepted
      ensures RanTurns(r, Queue(old(r.pending), [], old(r.refused)), taken, OfferTurns(arrivals), Turns(taken))
      ensures |taken| <= CAPACITY && (|taken| < CAPACITY ==> r.pending == [])
      ensures history == old(history) + Drains(taken, now)
    {
      hide Ring.Valid, Sink.Valid, Drains, RanTurns, Takes, Offers;
      DrainsNone(now);
      NoTurns(r, OfferTurns(arrivals));
      ghost var start := Queue(r.pending, [], r.refused);
      taken := [];
      var drained := 0;
      while true
        invariant Valid() && r.Valid() && drained == |taken| < CAPACITY
        invariant r.drained == old(r.drained) + taken && old(r.accepted) <= r.accepted
        invariant RanTurns(r, start, taken, OfferTurns(arrivals), drained)
        invariant history == old(history) + Drains(taken, now)
        decreases CAPACITY - drained
      {
        var next := DrainTurn(r, arrivals, drained, start, taken);
        if next.Empty? {
          assert taken + [] == taken;
          return;
        }
        Absorb(next.ban, now);
        DrainsNext(taken, next.ban, now);
        taken := taken + [next.ban];
        drained := drained + 1;
        if drained >= CAPACITY {
          return;
        }
      }
    }

    /** One tick of the owner: drain, prune, write. */
    method Tick(r: Ring, arrivals: seq<seq<Ban>>, now: int) returns (lines: seq<Line>, ghost taken: seq<Ban>)
      requires Valid() && r.Valid() && now >= 0 && r.ring as object != slots
      modifies this`count, this`live, this`history, slots, r, r.ring
      ensures Valid() && r.Valid()
      ensures r.drained == old(r.drained) + taken && old(r.accepted) <= r.accepted
      ensures RanTurns(r, Queue(old(r.pending), [], old(r.refused)), taken, OfferTurns(arrivals), Turns(taken))
      ensures |taken| <= CAPACITY && (|taken| < CAPACITY ==> r.pending == [])
      ensures history == old(history) + Drains(taken, now) + [Prune(now)]
      ensures forall i, j :: 0 <= i < j < |lines| ==> lines[i].ip != lines[j].ip
      ensures forall l :: l in lines <==> l.ip in live && l == Line(l.ip, live[l.ip] - now)
      ensures forall l :: l in lines ==> l.duration > 0
    {
      hide Ring.Valid, Shows, After, Unexpired, Drains, RanTurns, Turns;
      taken := DrainRing(r, arrivals, now);
      UnexpiredLater(live, now);
      AfterPrune(history, now, maxIp, slots.Length);
      var left := SetExpire(now);
      history := history + [Prune(now)];
      lines := Rewrite(now);
    }
  }

  function Offers(bans: seq<Ban>): (steps: seq<Step>)
    ensures |steps| == |bans|
  {
    seq(|bans|, i requires 0 <= i < |bans| => Offer(bans[i].ip, bans[i].action, bans[i].expiry))
  }

  function OfferTurns(arrivals: seq<seq<Ban>>): (turns: seq<seq<Step>>)
    ensures |turns| == |arrivals|
  {
    seq(|arrivals|, i requires 0 <= i < |arrivals| => Offers(arrivals[i]))
  }

  /** How many turns a tick has taken: one for each ban, and one more when it found the ring empty. */
  function Turns(taken: seq<Ban>): nat {
    |taken| + (if |taken| < CAPACITY then 1 else 0)
  }

  lemma {:induction false} OffersTakeNothing(bans: seq<Ban>)
    ensures Takes(Offers(bans)) == 0
  {
    if bans != [] {
      var n := |bans| - 1;
      OffersTakeNothing(bans[..n]);
      assert Offers(bans)[..n] == Offers(bans[..n]);
    }
  }

  /** What arrives in a turn, then the take; only the owner takes. */
  method DrainTurn(r: Ring, arrivals: seq<seq<Ban>>, turn: nat, ghost start: Queue, ghost taken: seq<Ban>)
      returns (next: Next)
    requires r.Valid() && RanTurns(r, start, taken, OfferTurns(arrivals), turn)
    modifies r, r.ring
    ensures r.Valid() && old(r.accepted) <= r.accepted && r.drained == old(r.drained) + Out(next)
    ensures RanTurns(r, start, taken + Out(next), OfferTurns(arrivals), turn + 1)
    ensures next.Empty? ==> r.pending == []
  {
    hide Ring.Valid, Moved, Schedule, Takes, Out, Offers;
    var bans := if turn < |arrivals| then arrivals[turn] else [];
    var steps := Offers(bans);
    ghost var before := Queue(r.pending, taken, r.refused);
    OffersTakeNothing(bans);
    assert steps == if turn < |arrivals| then OfferTurns(arrivals)[turn] else [];
    ghost var theirs;
    next, theirs := Turn(r, steps);
    assert theirs == [] && [] + Out(next) == Out(next);
    ScheduleMoves(start, OfferTurns(arrivals), turn, r.maxIp, before, Queue(r.pending, Out(next), r.refused));
  }

  lemma ShowsAt(s: seq<Slot>, m: map<string, int>, i: nat)
    requires Shows(s, m) && i < |s| && s[i].expiry != 0
    ensures s[i].ip in m && m[s[i].ip] == s[i].expiry
  {
  }

  lemma Absent(s: seq<Slot>, m: map<string, int>, ip: string)
    requires Shows(s, m) && forall k :: 0 <= k < |s| && s[k].expiry != 0 ==> s[k].ip != ip
    ensures ip !in m
  {
    assert !Listed(s, ip);
  }

  lemma ShowsSize(s: seq<Slot>, m: map<string, int>)
    requires Shows(s, m)
    ensures Occupied(s) == |m|
  {
  }

  /** The line written for one of the first `i` slots. */
  ghost predicate FromSlot(l: Line, s: seq<Slot>, i: nat, now: int) {
    exists k :: 0 <= k < i && k < |s| && s[k].expiry != 0 && s[k].expiry > now && l == Line(s[k].ip, s[k].expiry - now)
  }

  predicate Written(lines: seq<Line>, x: Slot, now: int) {
    x.expiry != 0 && x.expiry > now ==> Line(x.ip, x.expiry - now) in lines
  }

  /** Lines of earlier slots stay so, and none of them has this slot's address. */
  lemma NextSlot(s: seq<Slot>, m: map<string, int>, i: nat, now: int)
    requires Shows(s, m) && i < |s|
    ensures forall l :: FromSlot(l, s, i, now) ==> FromSlot(l, s, i + 1, now)
    ensures forall l :: FromSlot(l, s, i, now) && s[i].expiry != 0 ==> l.ip != s[i].ip
    ensures s[i].expiry != 0 && s[i].expiry > now ==> FromSlot(Line(s[i].ip, s[i].expiry - now), s, i + 1, now)
  {
    hide Occupied;
  }

  lemma SkipWritten(lines: seq<Line>, x: Slot, now: int)
    requires x.expiry == 0 || x.expiry <= now
    ensures Written(lines, x, now)
  {
  }

  lemma WriteSlot(lines: seq<Line>, x: Slot, now: int)
    ensures var more := lines + [Line(x.ip, x.expiry - now)];
      Written(more, x, now) && forall y :: Written(lines, y, now) ==> Written(more, y, now)
  {
  }

  lemma LinesShow(lines: seq<Line>, s: seq<Slot>, m: map<string, int>, now: int)
    requires Shows(s, m)
    requires forall a :: 0 <= a < |lines| ==> FromSlot(lines[a], s, |s|, now)
    requires forall k :: 0 <= k < |s| ==> Written(lines, s[k], now)
    ensures forall l :: l in lines ==> l.duration > 0 && l.ip in m && m[l.ip] == now + l.duration
    ensures forall k :: k in m && m[k] > now ==> Line(k, m[k] - now) in lines
  {
    hide Occupied, Distinct;
    forall k | k in m && m[k] > now ensures Line(k, m[k] - now) in lines {
      assert Listed(s, k);
      var i :| 0 <= i < |s| && s[i].expiry != 0 && s[i].ip == k;
      assert Written(lines, s[i], now);
    }
  }

  function Drains(bans: seq<Ban>, now: int): seq<Event> {
    seq(|bans|, i requires 0 <= i < |bans| => Drain(bans[i], now))
  }

  lemma DrainsNext(bans: seq<Ban>, b: Ban, now: int)
    ensures Drains(bans + [b], now) == Drains(bans, now) + [Drain(b, now)]
  {
  }

  lemma AfterDrain(events: seq<Event>, b: Ban, now: int, maxIp: nat, capacity: nat)
    ensures After(events + [Drain(b, now)], maxIp, capacity)
            == if Usable(b, now, maxIp) then Upserted(After(events, maxIp, capacity), b.ip, b.expiry, capacity)
               else After(events, maxIp, capacity)
  {
    assert (events + [Drain(b, now)])[..|events|] == events;
  }

  lemma AfterPrune(events: seq<Event>, now: int, maxIp: nat, capacity: nat)
    ensures After(events + [Prune(now)], maxIp, capacity) == Unexpired(After(events, maxIp, capacity), now)
  {
    assert (events + [Prune(now)])[..|events|] == events;
  }

  lemma UnexpiredLater(m: map<string, int>, now: int)
    ensures forall k :: k in Unexpired(m, now) ==> Unexpired(m, now)[k] > now
  {
  }

  lemma DrainsNone(now: int)
    ensures Drains([], now) == []
  {
  }
}
