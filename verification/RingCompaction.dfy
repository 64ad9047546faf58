/**
 Dropping old events from a ring in place, reading from the head and writing
 from slot 0: when that is the order-preserving filter it is meant to be.
 */
module RingCompaction {
  import opened TableSpec

  function Slot(head: nat, i: nat, size: nat): (r: nat)
    requires size > 0
    ensures r < size && (head + i < size ==> r == head + i)
  {
    (head + i) % size
  }

  /** The events a ring holds, oldest first. */
  function RingEvents(ring: seq<int>, head: nat, count: nat): (r: seq<int>)
    requires count <= |ring|
    ensures |r| == count
  {
    seq(count, i requires 0 <= i < count => ring[Slot(head, i, |ring|)])
  }

  lemma EventsInFront(ring: seq<int>, count: nat)
    requires count <= |ring|
    ensures RingEvents(ring, 0, count) == ring[..count]
  {
  }

  /** The in-place compaction from step `i` on, `keep` events being already kept. */
  function Compacted(ring: seq<int>, head: nat, count: nat, cutoff: int, i: nat, keep: nat): (c: (seq<int>, nat))
    requires keep <= i <= count <= |ring|
    ensures |c.0| == |ring| && c.1 <= count
    decreases count - i
  {
    if i == count then (ring, keep)
    else
      var ts := ring[Slot(head, i, |ring|)];
      if ts > cutoff then Compacted(ring[keep := ts], head, count, cutoff, i + 1, keep + 1)
      else Compacted(ring, head, count, cutoff, i + 1, keep)
  }

  /** The kept events are the recent ones, in order. */
  predicate Filters(ring: seq<int>, head: nat, count: nat, cutoff: int)
    requires count <= |ring|
  {
    var (r, k) := Compacted(ring, head, count, cutoff, 0, 0);
    r[..k] == Recent(RingEvents(ring, head, count), cutoff)
  }

  lemma RecentStep(was: seq<int>, i: nat, cutoff: int)
    requires i < |was|
    ensures Recent(was[..i + 1], cutoff)
            == if was[i] > cutoff then Recent(was[..i], cutoff) + [was[i]] else Recent(was[..i], cutoff)
  {
    assert was[..i + 1][..i] == was[..i];
  }

  // ---- Without a wrap ----

  lemma {:induction false} UnwrappedFrom(ring: seq<int>, head: nat, count: nat, cutoff: int,
                                         i: nat, keep: nat, was: seq<int>)
    requires keep <= i <= count && head + count <= |ring| == |was|
    requires ring[..keep] == Recent(was[head..head + count][..i], cutoff) && ring[head + i..] == was[head + i..]
    ensures var (r, k) := Compacted(ring, head, count, cutoff, i, keep);
      r[..k] == Recent(was[head..head + count], cutoff)
    decreases count - i
  {
    hide Recent, Slot;
    var events := was[head..head + count];
    if i == count {
      assert events[..count] == events;
    } else {
      assert ring[head + i] == ring[head + i..][0] == was[head + i..][0] == events[i];
      assert Slot(head, i, |ring|) == head + i;
      RecentStep(events, i, cutoff);
      if ring[head + i] > cutoff {
        var next := ring[keep := ring[head + i]];
        assert next[..keep + 1] == ring[..keep] + [ring[head + i]];
        UnwrappedFrom(next, head, count, cutoff, i + 1, keep + 1, was);
      } else {
        UnwrappedFrom(ring, head, count, cutoff, i + 1, keep, was);
      }
    }
  }

  /** While the events do not wrap, writing never overtakes reading. */
  lemma CompactedIsRecent(ring: seq<int>, head: nat, count: nat, cutoff: int)
    requires head + count <= |ring|
    ensures Filters(ring, head, count, cutoff)
  {
    var events := ring[head..head + count];
    assert events[..0] == [];
    UnwrappedFrom(ring, head, count, cutoff, 0, 0, ring);
    assert RingEvents(ring, head, count) == events;
  }

  // ---- With a wrap ----

  predicate AllRecent(ring: seq<int>, cutoff: int) {
    forall j :: 0 <= j < |ring| ==> ring[j] > cutoff
  }

  lemma WriteStaysRecent(ring: seq<int>, cutoff: int, i: nat, j: nat)
    requires AllRecent(ring, cutoff) && i < |ring| && j < |ring|
    ensures ring[j] > cutoff && AllRecent(ring[i := ring[j]], cutoff)
  {
  }

  /** When everything is kept, what was written stays. */
  lemma {:induction false} KeepsWritten(ring: seq<int>, head: nat, count: nat, cutoff: int, i: nat, at: nat)
    requires at < i <= count <= |ring| && AllRecent(ring, cutoff)
    ensures var (r, k) := Compacted(ring, head, count, cutoff, i, i); k == count && r[at] == ring[at]
    decreases count - i
  {
    hide AllRecent, Slot;
    if i < count {
      var j := Slot(head, i, |ring|);
      WriteStaysRecent(ring, cutoff, i, j);
      KeepsWritten(ring[i := ring[j]], head, count, cutoff, i + 1, at);
    }
  }

  /** The event read last from slot 0 is the one written there first. */
  lemma {:induction false} SlotZeroIsReread(ring: seq<int>, head: nat, count: nat, cutoff: int, i: nat, at: nat)
    requires 1 <= i <= at < count <= |ring| && AllRecent(ring, cutoff) && Slot(head, at, |ring|) == 0
    ensures var (r, k) := Compacted(ring, head, count, cutoff, i, i); k == count && r[at] == ring[0]
    decreases at - i
  {
    hide AllRecent, Slot;
    var j := Slot(head, i, |ring|);
    WriteStaysRecent(ring, cutoff, i, j);
    if i < at {
      SlotZeroIsReread(ring[i := ring[j]], head, count, cutoff, i + 1, at);
    } else {
      KeepsWritten(ring[i := ring[0]], head, count, cutoff, i + 1, at);
    }
  }

  lemma {:induction false} AllKept(events: seq<int>, cutoff: int)
    requires AllRecent(events, cutoff)
    ensures Recent(events, cutoff) == events
  {
    if events != [] {
      var n := |events| - 1;
      assert events == events[..n] + [events[n]];
      assert AllRecent(events[..n], cutoff);
      AllKept(events[..n], cutoff);
    }
  }

  /** A wrapped ring of distinct recent events loses the event in slot 0. */
  lemma WrapLosesEvent(size: nat, head: nat, count: nat)
    requires head < size && count <= size < head + count
    ensures exists ring: seq<int> :: |ring| == size && !Filters(ring, head, count, -1)
  {
    var ring := seq(size, i requires 0 <= i < size => i as int);
    var at := size - head;
    assert (head + at) % size == 0;
    var events := RingEvents(ring, head, count);
    assert events[at] == ring[0] == 0;
    AllKept(events, -1);
    FirstWrite(ring, head, count, -1);
    SlotZeroIsReread(ring[0 := head], head, count, -1, 1, at);
    hide Compacted, Recent, RingEvents;
    var (r, k) := Compacted(ring, head, count, -1, 0, 0);
    assert r[..k][at] == head;
  }

  lemma FirstWrite(ring: seq<int>, head: nat, count: nat, cutoff: int)
    requires head < |ring| && 0 < count <= |ring| && AllRecent(ring, cutoff)
    ensures Compacted(ring, head, count, cutoff, 0, 0) == Compacted(ring[0 := ring[head]], head, count, cutoff, 1, 1)
    ensures AllRecent(ring[0 := ring[head]], cutoff)
  {
    hide Slot;
    assert Slot(head, 0, |ring|) == head;
  }

  /** The compaction is a filter on every ring exactly when the events do not wrap; the table keeps the head at 0. */
  lemma CompactionExact(size: nat, head: nat, count: nat)
    requires head < size && count <= size
    ensures (forall ring: seq<int>, cutoff: int :: |ring| == size ==> Filters(ring, head, count, cutoff))
            <==> head + count <= size
  {
    hide Filters;
    if head + count <= size {
      forall ring: seq<int>, cutoff: int | |ring| == size ensures Filters(ring, head, count, cutoff) {
        CompactedIsRecent(ring, head, count, cutoff);
      }
    } else {
      WrapLosesEvent(size, head, count);
      var ring: seq<int> :| |ring| == size && !Filters(ring, head, count, -1);
    }
  }
}
