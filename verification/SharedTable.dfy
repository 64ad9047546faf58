/**
 The shared-memory zone: nodes linked both into an LRU queue and into a binary
 tree, each with a ring of event times compacted in place. Every method is
 proved to do to the queue exactly what TableSpec says.
 */
module SharedTable {
  import opened TableSpec
  import opened IdentityTree
  import opened RingCompaction
  import I = Ideal

  function IndexOf(q: seq<Node>, x: Node): (i: nat)
    requires x in q
    ensures i < |q| && q[i] == x
  {
    if q[0] == x then 0 else 1 + IndexOf(q[1..], x)
  }

  // ---- Structure ----

  /** Neither nodes nor keys nor rings are shared between queue positions. */
  ghost predicate Apart(q: seq<Node>) {
    forall i, j :: 0 <= i < j < |q| ==> q[i] != q[j] && q[i].key != q[j].key && q[i].events != q[j].events
  }

  /** The tree order holds the nodes of the queue, and every node fits the zone. */
  ghost predicate Linked(q: seq<Node>, order: seq<Node>, crc: string -> nat, threshold: nat) {
    && Apart(q) && Ordered(order)
    && (forall n :: n in q ==> n in order) && (forall n :: n in order ==> n in q)
    && (forall n :: n in q ==> n.hash == crc(n.key) && n.events.Length == threshold)
  }

  lemma LinkedIsOrdered(q: seq<Node>, order: seq<Node>, crc: string -> nat, threshold: nat)
    requires Linked(q, order, crc, threshold)
    ensures Ordered(order)
    ensures forall x :: x in order ==> x in q && x.hash == crc(x.key)
  {
  }

  lemma LinkedAt(q: seq<Node>, i: nat, order: seq<Node>, crc: string -> nat, threshold: nat)
    requires Linked(q, order, crc, threshold) && i < |q|
    ensures IndexOf(q, q[i]) == i && q[i].events.Length == threshold
  {
  }

  lemma DropLinked(q: seq<Node>, i: nat, order: seq<Node>, rest: seq<Node>, crc: string -> nat, threshold: nat)
    requires Linked(q, order, crc, threshold) && i < |q| && Ordered(rest)
    requires forall x :: x in rest <==> x != q[i] && x in order
    ensures Linked(Drop(q, i), rest, crc, threshold)
    ensures forall x :: x in Drop(q, i) <==> x in q && x != q[i]
  {
    assert q == q[..i] + [q[i]] + q[i + 1..];
    assert forall j :: 0 <= j < |q| - 1 ==> Drop(q, i)[j] == q[if j < i then j else j + 1];
  }

  lemma PushLinked(q: seq<Node>, n: Node, order: seq<Node>, more: seq<Node>, crc: string -> nat, threshold: nat)
    requires Linked(q, order, crc, threshold) && Ordered(more)
    requires n !in q && n.hash == crc(n.key) && n.events.Length == threshold
    requires forall x :: x in q ==> x.key != n.key && x.events != n.events
    requires forall x :: x in more <==> x == n || x in order
    ensures Linked([n] + q, more, crc, threshold)
  {
  }

  /** `n` and its ring are no part of `q`. */
  ghost predicate Clear(n: Node, q: seq<Node>) {
    forall m :: m in q ==> m != n && m.events != n.events
  }

  lemma DropMembers(q: seq<Node>, i: nat)
    requires Apart(q) && i < |q|
    ensures Apart(Drop(q, i)) && Clear(q[i], Drop(q, i))
    ensures forall x :: x in Drop(q, i) ==> x in q && x.key != q[i].key
  {
    var d := Drop(q, i);
    assert forall j :: 0 <= j < |d| ==> d[j] == q[if j < i then j else j + 1];
  }

  lemma MoveApart(n: Node, d: seq<Node>)
    requires Apart(d) && Clear(n, d) && forall x :: x in d ==> x.key != n.key
    ensures Apart([n] + d)
  {
  }

  lemma MoveMembers(q: seq<Node>, i: nat)
    requires i < |q|
    ensures forall x :: x in [q[i]] + Drop(q, i) <==> x in q
  {
    assert q == q[..i] + [q[i]] + q[i + 1..];
  }

  lemma MoveLinked(q: seq<Node>, i: nat, order: seq<Node>, crc: string -> nat, threshold: nat)
    requires Linked(q, order, crc, threshold) && i < |q|
    ensures Linked([q[i]] + Drop(q, i), order, crc, threshold)
    ensures Clear(q[i], Drop(q, i))
    ensures forall x :: x in [q[i]] + Drop(q, i) <==> x in q
  {
    hide Apart, Clear, Drop, Ordered;
    DropMembers(q, i);
    MoveApart(q[i], Drop(q, i));
    MoveMembers(q, i);
  }

  // ---- Contents ----

  ghost function Snapshot(n: Node): Entry
    requires n.eventCount <= n.events.Length
    reads n, n.events
  {
    Entry(n.key, n.blockedUntil, n.lastSeen, n.events[..n.eventCount], n.csGeneration, n.csAction, n.redisPulled)
  }

  /** The ring starts at slot 0 and has room for one more event. */
  ghost predicate Shows(n: Node, e: Entry)
    reads n, n.events
  {
    && n.eventHead == 0 && (n.eventCount == 0 || n.eventCount < n.events.Length)
    && e == Snapshot(n)
  }

  ghost predicate Mirrors(q: seq<Node>, v: seq<Entry>)
    reads q, set n: Node | n in q :: n.events
  {
    |v| == |q| && forall i :: 0 <= i < |q| ==> Shows(q[i], v[i])
  }

  lemma DropMirrors(q: seq<Node>, v: seq<Entry>, i: nat)
    requires Mirrors(q, v) && i <= |q|
    ensures Mirrors(Drop(q, i), Drop(v, i))
  {
    var p, w := Drop(q, i), Drop(v, i);
    forall j | 0 <= j < |p| ensures Shows(p[j], w[j]) {
      var k := if j < i then j else j + 1;
      assert Shows(q[k], v[k]) && p[j] == q[k] && w[j] == v[k];
    }
  }

  lemma PushMirrors(q: seq<Node>, v: seq<Entry>, n: Node, e: Entry)
    requires Shows(n, e) && Mirrors(q, v)
    ensures Mirrors([n] + q, [e] + v)
  {
  }

  lemma MirrorsAt(q: seq<Node>, v: seq<Entry>, i: nat)
    requires Mirrors(q, v) && i < |q|
    ensures |v| == |q| && Shows(q[i], v[i])
  {
  }

  lemma KeyIsAbsent(q: seq<Node>, v: seq<Entry>, key: string)
    requires Mirrors(q, v) && Position(v, key) == |v|
    ensures forall x :: x in q ==> x.key != key
  {
    forall i | 0 <= i < |q| ensures q[i].key != key {
      assert v[i].key == q[i].key;
    }
  }

  lemma ExpireLast(v: seq<Entry>, now: int, interval: int, batch: nat)
    requires v != [] && Evictable(v[|v| - 1], now, interval) && batch > 0
    ensures Expire(v, now, interval, batch) == Expire(Drop(v, |v| - 1), now, interval, batch - 1)
  {
    assert Drop(v, |v| - 1) == v[..|v| - 1];
  }

  lemma ExpireStops(v: seq<Entry>, now: int, interval: int, batch: nat)
    requires v == [] || !Evictable(v[|v| - 1], now, interval) || batch == 0
    ensures Expire(v, now, interval, batch) == v
  {
  }

  /** One step of the sweep from the tail, `kept` being what it has passed. */
  lemma SweepLast(v: seq<Entry>, q: nat, generation: nat, batch: nat, kept: seq<Entry>)
    requires 0 < q <= |v| && batch > 0 && v == v[..q] + kept
    ensures v[q - 1].generation != generation ==>
      && Sweep(v[..q], generation, batch) == Sweep(Drop(v, q - 1)[..q - 1], generation, batch - 1)
      && Drop(v, q - 1) == Drop(v, q - 1)[..q - 1] + kept
    ensures v[q - 1].generation == generation ==>
      && Sweep(v[..q], generation, batch) + kept == Sweep(v[..q - 1], generation, batch) + ([v[q - 1]] + kept)
      && v == v[..q - 1] + ([v[q - 1]] + kept)
  {
    assert v[..q][..q - 1] == v[..q - 1] == Drop(v, q - 1)[..q - 1];
    assert v[q..] == kept;
  }

  lemma SweepEnds(v: seq<Entry>, generation: nat, batch: nat)
    ensures v == [] || batch == 0 ==> Sweep(v, generation, batch) == v
    ensures v[..|v|] == v && v + [] == v
    ensures Sweep(v, generation, batch) + [] == Sweep(v, generation, batch)
  {
  }

  // ---- The zone ----

  class Zone {
    const crc: string -> nat  // any hash, collisions allowed
    const threshold: nat      // 0 for the ban table, which has no event ring
    const interval: int
    const block: int
    var queue: seq<Node>
    var tree: Tree
    var csGeneration: nat
    ghost var order: seq<Node>  // the tree in order
    ghost var view: seq<Entry>  // the queue as values

    ghost function Repr(): set<object>
      reads this
    {
      {this} + (set n: Node | n in queue :: n as object) + (set n: Node | n in queue :: n.events as object)
    }

    ghost predicate Valid()
      reads this, queue, set n: Node | n in queue :: n.events
    {
      && order == InOrder(tree) && Linked(queue, order, crc, threshold)
      && |view| == |queue| && Mirrors(queue, view)
    }

    ghost function Conf(): Config {
      Config(threshold, interval, block)
    }

    constructor (crc: string -> nat, threshold: nat, interval: int, block: int)
      ensures Valid() && fresh(Repr()) && view == [] && csGeneration == 0
      ensures this.crc == crc && Conf() == Config(threshold, interval, block)
    {
      this.crc, this.threshold, this.interval, this.block := crc, threshold, interval, block;
      queue, tree, csGeneration, order, view := [], Leaf, 0, [], [];
    }

    lemma ValidIsDistinct()
      requires Valid()
      ensures DistinctKeys(view)
    {
    }

    lemma ValidSize()
      requires Valid()
      ensures |view| == |queue|
    {
    }

    // ---- Links ----

    /** Searching the tree finds what scanning the queue would find. */
    method Find(key: string) returns (n: Node?)
      requires Valid()
      ensures n == null <==> Position(view, key) == |view|
      ensures n != null ==> n == queue[Position(view, key)] && n.key == key
    {
      n := Search(tree, crc(key), key);
      if n == null {
        forall i | 0 <= i < |view| ensures view[i].key != key {
          assert queue[i] in order;
        }
      } else {
        assert n in order;
        var i :| 0 <= i < |queue| && queue[i] == n;
        I.PositionIs(view, i);
      }
    }

    /** `n` is at the head and shares nothing with the rest of the queue. */
    ghost predicate AtHead(n: Node)
      reads this, queue, set m: Node | m in queue :: m.events
    {
      && Valid() && queue != [] && n == queue[0] && n.events.Length == threshold
      && Clear(n, queue[1..]) && Mirrors(queue[1..], view[1..]) && Shows(n, view[0])
    }

    method Unlink(n: Node, ghost i: nat)
      requires Valid() && i < |queue| && queue[i] == n
      modifies this`queue, this`tree, this`order, this`view
      ensures Valid() && queue == Drop(old(queue), i) && view == Drop(old(view), i)
      ensures forall x :: x in queue ==> x in old(queue)
    {
      WithoutNode(n, i);
      hide Linked, Mirrors, Drop, IndexOf, Removed, Ordered, InOrder;
      var removed := Removed(tree, n);
      queue := Drop(queue, IndexOf(queue, n));
      tree := Rebalance(removed);
      order := InOrder(removed);
      view := Drop(view, i);
    }

    /** Taking one node out of queue, tree and view keeps them together. */
    lemma WithoutNode(n: Node, i: nat)
      requires Valid() && i < |queue| && queue[i] == n
      ensures IndexOf(queue, n) == i && Linked(Drop(queue, i), InOrder(Removed(tree, n)), crc, threshold)
      ensures |Drop(view, i)| == |Drop(queue, i)| && Mirrors(Drop(queue, i), Drop(view, i))
      ensures forall x :: x in Drop(queue, i) ==> x in queue
    {
      LinkedIsOrdered(queue, order, crc, threshold);
      hide Linked, Mirrors, Drop, IndexOf, Removed, Ordered, InOrder;
      LinkedAt(queue, i, order, crc, threshold);
      RemovedNodes(tree, n);
      DropLinked(queue, i, order, InOrder(Removed(tree, n)), crc, threshold);
      DropMirrors(queue, view, i);
    }

    /** Puts a new node into the tree and at the head of the queue. */
    method Link(n: Node)
      requires Valid() && n.hash == crc(n.key) && n.events.Length == threshold
      requires Position(view, n.key) == |view| && Clear(n, queue)
      requires n.eventHead == 0 && n.eventCount == 0
      modifies this`queue, this`tree, this`order, this`view
      ensures Valid() && queue == [n] + old(queue) && view == [Snapshot(n)] + old(view)
    {
      hide Linked, Mirrors, Position;
      LinkedIsOrdered(queue, order, crc, threshold);
      KeyIsAbsent(queue, view, n.key);
      InsertedNodes(tree, n);
      var inserted := Inserted(tree, n);
      PushLinked(queue, n, order, InOrder(inserted), crc, threshold);
      PushMirrors(queue, view, n, Snapshot(n));
      tree := Rebalance(inserted);
      order := InOrder(inserted);
      queue := [n] + queue;
      view := [Snapshot(n)] + view;
    }

    /** Moves a node to the head of the queue. */
    method Touch(n: Node, ghost i: nat)
      requires Valid() && i < |queue| && queue[i] == n
      modifies this`queue, this`view
      ensures AtHead(n) && view == ToFront(old(view), i, old(view)[i])
      ensures forall x :: x in queue <==> x in old(queue)
    {
      hide Linked, Mirrors, Drop, IndexOf;
      MirrorsAt(queue, view, i);
      LinkedAt(queue, i, order, crc, threshold);
      MoveLinked(queue, i, order, crc, threshold);
      DropMirrors(queue, view, i);
      PushMirrors(Drop(queue, i), Drop(view, i), n, view[i]);
      queue := [n] + Drop(queue, IndexOf(queue, n));
      view := ToFront(view, i, view[i]);
      assert queue[1..] == Drop(old(queue), i) && view[1..] == Drop(old(view), i);
    }

    /** Brings the view up to date after the node at the head was written. */
    ghost method Sync(n: Node)
      requires queue != [] && n == queue[0] && view != []
      requires order == InOrder(tree) && Linked(queue, order, crc, threshold)
      requires Mirrors(queue[1..], view[1..])
      requires n.eventHead == 0 && (n.eventCount == 0 || n.eventCount < n.events.Length)
      modifies this`view
      ensures Valid() && view == [Snapshot(n)] + old(view)[1..]
    {
      PushMirrors(queue[1..], view[1..], n, Snapshot(n));
      assert queue == [n] + queue[1..];
      hide Linked, Mirrors;
      view := [Snapshot(n)] + view[1..];
    }

    /** The tail of the queue is out of its block and out of its window. */
    method TailIsDead(now: int) returns (dead: bool)
      requires Valid() && queue != []
      ensures |view| == |queue| && dead == Evictable(view[|view| - 1], now, interval)
    {
      hide Linked, Mirrors;
      var n := queue[|queue| - 1];
      MirrorsAt(queue, view, |queue| - 1);
      if n.blockedUntil > now {
        return false;
      }
      if now - n.lastSeen < interval {
        return false;
      }
      return true;
    }

    /** Evicts dead entries from the tail of the queue, at most `batch`. */
    method ExpireTail(now: int, batch: nat)
      requires Valid()
      modifies this`queue, this`tree, this`order, this`view
      ensures Valid() && view == Expire(old(view), now, interval, batch)
      ensures forall x :: x in queue ==> x in old(queue)
    {
      hide Valid, Expire, Evictable;
      var i := 0;
      while i < batch
        invariant 0 <= i <= batch && Valid()
        invariant Expire(view, now, interval, batch - i) == Expire(old(view), now, interval, batch)
        invariant forall x :: x in queue ==> x in old(queue)
      {
        ValidSize();
        if queue == [] {
          break;
        }
        var dead := TailIsDead(now);
        if !dead {
          break;
        }
        ExpireLast(view, now, interval, batch - i);
        Unlink(queue[|queue| - 1], |queue| - 1);
        i := i + 1;
      }
      ExpireStops(view, now, interval, batch - i);
    }

    /** Drops events outside the window, in place. */
    method Prune(n: Node, now: int)
      requires n.eventHead == 0 && n.eventCount <= n.events.Length == threshold
      modifies n`eventHead, n`eventCount, n.events
      ensures n.eventHead == 0 && n.eventCount <= old(n.eventCount)
      ensures n.events[..n.eventCount] == Recent(old(n.events[..n.eventCount]), now - interval)
    {
      var cutoff := now - interval;
      var keep := 0;
      var i := 0;
      ghost var was := n.events[..];
      while i < n.eventCount
        invariant 0 <= keep <= i <= n.eventCount <= threshold
        invariant n.eventHead == 0 && n.eventCount == old(n.eventCount)
        invariant Compacted(n.events[..], 0, n.eventCount, cutoff, i, keep)
                  == Compacted(was, 0, n.eventCount, cutoff, 0, 0)
      {
        var ts := n.events[Slot(n.eventHead, i, threshold)];
        if ts > cutoff {
          ghost var before := n.events[..];
          n.events[keep] := ts;
          assert n.events[..] == before[keep := ts];
          keep := keep + 1;
        }
        i := i + 1;
      }
      CompactedIsRecent(was, 0, n.eventCount, cutoff);
      EventsInFront(was, n.eventCount);
      assert n.events[..][..keep] == n.events[..keep];
      assert was[..n.eventCount] == old(n.events[..n.eventCount]);
      n.eventHead := 0;
      n.eventCount := keep;
    }

    /** Searches for `key` and marks it seen, moving it to the head of the queue. */
    method See(key: string, now: int) returns (n: Node?)
      requires Valid()
      modifies this`queue, this`view, (set m: Node | m in queue)`lastSeen
      ensures Valid() && (n == null <==> Position(old(view), key) == |old(view)|)
      ensures n == null ==> queue == old(queue) && view == old(view)
      ensures n != null ==> AtHead(n)
      ensures n != null ==> view == ToFront(old(view), Position(old(view), key), Seen(old(view), key, now))
      ensures forall x :: x in queue <==> x in old(queue)
    {
      hide Linked, Mirrors, Position, Drop;
      n := Find(key);
      if n != null {
        Touch(n, Position(view, key));
        n.lastSeen := now;
        Sync(n);
      }
    }

    /** The same, creating the node when it is missing; null when the zone is full. */
    method SeeOrCreate(key: string, now: int, slab: bool) returns (n: Node?)
      requires Valid()
      modifies this`queue, this`tree, this`order, this`view, (set m: Node | m in queue)`lastSeen
      ensures Valid() && (n != null <==> Available(old(view), key, slab))
      ensures n == null ==> view == old(view)
      ensures n != null ==> AtHead(n) && n in queue
      ensures n != null ==> view == ToFront(old(view), Position(old(view), key), Seen(old(view), key, now))
      ensures forall x :: x in queue ==> x in old(queue) || (fresh(x) && fresh(x.events))
    {
      n := See(key, now);
      if n == null && slab {
        n := new Node(crc(key), key, threshold, now);
        Link(n);
        assert queue[1..] == old(queue) && view[1..] == old(view);
      }
    }

    // ---- Calls on an event-ring zone ----

    /** Ends a block that ran out; otherwise drops the events outside the window. */
    method RefreshHead(n: Node, now: int)
      requires AtHead(n)
      modifies n`blockedUntil, n`eventHead, n`eventCount, n.events, this`view
      ensures AtHead(n) && view == [Refresh(Conf(), old(view)[0], now)] + old(view)[1..]
    {
      hide Linked, Mirrors, Recent;
      if n.blockedUntil != 0 {
        n.blockedUntil := 0;
        n.eventHead := 0;
        n.eventCount := 0;
      } else {
        Prune(n, now);
      }
      Sync(n);
    }

    /** The current burst of an identity, or its block. */
    method ErrrateLookup(key: string, now: int) returns (a: Answer)
      requires Valid()
      modifies Repr()
      ensures Valid() && (view, a) == LookupStep(old(view), Conf(), key, now)
      ensures forall x :: x in queue ==> x in old(queue)
    {
      hide Linked, Mirrors, Expire, Position, Drop, Recent, Refresh, InOrder, Clear;
      ExpireTail(now, EXPIRE_BATCH);
      var n := See(key, now);
      if n == null {
        return Ok(0, 0);
      }
      if n.blockedUntil > now {
        return Busy(threshold, n.blockedUntil);
      }
      RefreshHead(n, now);
      return Ok(n.eventCount, 0);
    }

    /** The same for a recording call: the window is pruned in either case. */
    method PruneHead(n: Node, now: int)
      requires AtHead(n)
      modifies n`blockedUntil, n`eventHead, n`eventCount, n.events, this`view
      ensures AtHead(n) && view == [Refresh(Conf(), old(view)[0], now)] + old(view)[1..]
      ensures n.blockedUntil == 0
    {
      hide Linked, Mirrors, Recent;
      if n.blockedUntil != 0 {
        n.blockedUntil := 0;
        n.eventHead := 0;
        n.eventCount := 0;
      }
      I.RecentNothing(now - interval);
      Prune(n, now);
      Sync(n);
    }

    /** Adds an event now, blocking the identity when the burst is complete. */
    method AppendHead(n: Node, now: int)
      requires AtHead(n) && threshold >= 1
      modifies n`blockedUntil, n`eventHead, n`eventCount, n.events, this`view
      ensures AtHead(n)
      ensures var e := old(view)[0];
        view == [if |e.events| + 1 >= threshold then e.(blockedUntil := now + block, events := [])
                 else e.(events := e.events + [now])] + old(view)[1..]
    {
      hide Linked, Mirrors, Slot;
      ghost var kept := n.events[..n.eventCount];
      var idx := Slot(n.eventHead, n.eventCount, threshold);
      n.events[idx] := now;
      n.eventCount := n.eventCount + 1;
      assert n.events[..n.eventCount] == kept + [now];
      if n.eventCount >= threshold {
        n.blockedUntil := now + block;
        n.eventHead := 0;
        n.eventCount := 0;
      }
      Sync(n);
    }

    /** What recording an event does to an identity that is not blocked. */
    method CountHead(n: Node, now: int)
      requires AtHead(n) && threshold >= 1
      modifies n`blockedUntil, n`eventHead, n`eventCount, n.events, this`view
      ensures AtHead(n) && Valid() && view == [Counted(Conf(), old(view)[0], now)] + old(view)[1..]
    {
      hide Linked, Mirrors, Recent, Refresh;
      PruneHead(n, now);
      AppendHead(n, now);
    }

    /** Blocks the identity and drops its burst. */
    method BanHead(n: Node, now: int, until: int)
      requires AtHead(n)
      modifies n`blockedUntil, n`lastSeen, n`eventHead, n`eventCount, this`view
      ensures AtHead(n) && Valid()
      ensures view == [old(view)[0].(lastSeen := now, blockedUntil := until, events := [])] + old(view)[1..]
    {
      hide Linked, Mirrors;
      n.lastSeen := now;
      n.blockedUntil := until;
      n.eventHead := 0;
      n.eventCount := 0;
      Sync(n);
    }

    /** Records an error event. */
    method ErrrateRecord(key: string, now: int, slab: bool) returns (a: Answer)
      requires Valid() && threshold >= 1
      modifies Repr()
      ensures Valid() && (view, a) == RecordStep(old(view), Conf(), key, now, slab)
      ensures forall x :: x in queue ==> x in old(queue) || (fresh(x) && fresh(x.events))
    {
      hide Linked, Mirrors, Expire, Position, Drop, Recent, Counted, InOrder, Clear;
      ExpireTail(now, EXPIRE_BATCH);
      var n := SeeOrCreate(key, now, slab);
      if n == null {
        return Error;
      }
      if n.blockedUntil > now {
        return Busy(threshold, n.blockedUntil);
      }
      CountHead(n, now);
      a := if n.blockedUntil > now then Busy(threshold, n.blockedUntil) else Ok(n.eventCount, n.blockedUntil);
    }

    /** Blocks an identity for `ttl` from now on and drops its burst. */
    method SoftbanSet(key: string, now: int, ttl: int, slab: bool) returns (a: Answer)
      requires Valid()
      modifies Repr()
      ensures Valid() && (view, a) == SoftbanStep(old(view), Conf(), key, now, ttl, slab)
      ensures forall x :: x in queue ==> x in old(queue) || (fresh(x) && fresh(x.events))
    {
      hide Zone.Valid, Zone.AtHead, Expire, Position, Drop;
      if ttl <= 0 {
        return Error;
      }
      ExpireTail(now, EXPIRE_BATCH);
      var n := SeeOrCreate(key, now, slab);
      if n == null {
        return Error;
      }
      BanHead(n, now, now + ttl);
      return Ok(0, 0);
    }

    /** One call of any kind. */
    method Serve(call: Call, slab: bool) returns (a: Answer)
      requires Valid() && threshold >= 1
      modifies Repr()
      ensures Valid() && (view, a) == Step(old(view), Conf(), call, slab)
      ensures forall x :: x in queue ==> x in old(queue) || (fresh(x) && fresh(x.events))
    {
      hide Valid;
      match call
      case Lookup(key, now) => a := ErrrateLookup(key, now);
      case Record(key, now) => a := ErrrateRecord(key, now, slab);
      case Softban(key, now, ttl) => a := SoftbanSet(key, now, ttl, slab);
    }

    /** Any sequence of calls is answered as the ideal memory answers it. */
    method ServeAll(calls: seq<Call>, slab: seq<bool>) returns (answers: seq<Answer>)
      requires Valid() && |slab| == |calls| && I.Admissible(Conf()) && I.Timed(calls, 0) && view == []
      modifies Repr()
      ensures Valid() && |answers| == |calls|
      ensures answers == I.TableRun([], Conf(), calls, slab)
      ensures answers == I.IdealRun(map[], Conf(), calls, I.Failures(answers))
      ensures forall i :: 0 <= i < |calls| && answers[i].Error? ==> I.MayFail(calls[i], slab[i])
      ensures forall x :: x in queue ==> x in old(queue) || (fresh(x) && fresh(x.events))
    {
      hide Valid, I.IdealRun, I.TableRun, I.Failures, I.MayFail, Step;
      I.AnswersAreIdeal(Conf(), calls, slab);
      answers := [];
      var i := 0;
      assert calls[0..] == calls && slab[0..] == slab;
      while i < |calls|
        invariant i <= |calls| && Valid()
        invariant answers + I.TableRun(view, Conf(), calls[i..], slab[i..]) == I.TableRun([], Conf(), calls, slab)
        invariant forall x :: x in queue ==> x in old(queue) || (fresh(x) && fresh(x.events))
      {
        I.RunFirst(view, Conf(), calls, slab, i);
        var a := Serve(calls[i], slab[i]);
        answers := answers + [a];
        i := i + 1;
      }
      I.RunFirst(view, Conf(), calls, slab, i);
    }

    // ---- Calls on the CrowdSec ban table ----

    method CrowdsecLookup(key: string, now: int) returns (r: Reading)
      requires Valid()
      modifies Repr()
      ensures Valid() && (view, r) == ReadStep(old(view), Conf(), key, now)
      ensures csGeneration == old(csGeneration)
      ensures forall x :: x in queue ==> x in old(queue)
    {
      hide Linked, Mirrors, Expire, Position, Drop, InOrder, Clear;
      ExpireTail(now, EXPIRE_BATCH);
      var n := See(key, now);
      if n == null || n.blockedUntil <= now {
        return Miss;
      }
      return Hit(n.csAction);
    }

    /** A new generation stamp for one load. */
    method NextGeneration() returns (generation: nat)
      requires Valid()
      modifies this`csGeneration
      ensures Valid() && generation == csGeneration == old(csGeneration) + 1
    {
      csGeneration := csGeneration + 1;
      generation := csGeneration;
    }

    /** Stores a ban; false when the zone is full. */
    method CrowdsecUpsert(key: string, expiry: int, action: nat, generation: nat, now: int, pulled: bool, slab: bool)
        returns (ok: bool)
      requires Valid()
      modifies Repr()
      ensures Valid() && (view, ok) == UpsertStep(old(view), key, expiry, action, generation, now, pulled, slab)
      ensures csGeneration == old(csGeneration)
      ensures forall x :: x in queue ==> x in old(queue) || (fresh(x) && fresh(x.events))
    {
      hide Linked, Mirrors, Position, Drop;
      var n := SeeOrCreate(key, now, slab);
      if n == null {
        return false;
      }
      n.blockedUntil := expiry;
      n.csAction := action;
      n.csGeneration := generation;
      n.redisPulled := pulled;
      n.lastSeen := now;
      Sync(n);
      return true;
    }

    /** Drops nodes of other generations, from the tail on, at most `batch`. */
    method CrowdsecSweep(generation: nat, batch: nat) returns (deleted: nat)
      requires Valid()
      modifies this`queue, this`tree, this`order, this`view
      ensures Valid() && view == Sweep(old(view), generation, batch)
      ensures deleted == |old(view)| - |view| <= batch
      ensures forall x :: x in queue ==> x in old(queue)
    {
      hide Linked, Mirrors, Sweep, Drop;
      deleted := 0;
      var q := |queue|;
      ghost var kept := [];
      SweepEnds(view, generation, batch);
      while q > 0 && deleted < batch
        invariant Valid() && 0 <= q <= |queue| == |view| && deleted <= batch && deleted == |old(view)| - |view|
        invariant view == view[..q] + kept
        invariant Sweep(old(view), generation, batch) == Sweep(view[..q], generation, batch - deleted) + kept
        invariant forall x :: x in queue ==> x in old(queue)
        decreases q
      {
        var n := queue[q - 1];
        MirrorsAt(queue, view, q - 1);
        SweepLast(view, q, generation, batch - deleted, kept);
        if n.csGeneration != generation {
          Unlink(n, q - 1);
          deleted := deleted + 1;
        } else {
          kept := [view[q - 1]] + kept;
        }
        q := q - 1;
      }
      SweepEnds(view[..q], generation, batch - deleted);
    }
  }
}
