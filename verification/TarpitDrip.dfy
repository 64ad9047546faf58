/** The drip of one tarpitted connection: bytes, timers, and the single end. */
module TarpitDrip {
  import HexText

  const TICK_BYTES: nat := 32
  const MAZE_FRAG: nat := 64
  const MULTIPLIER: nat := 1664525
  const INCREMENT: nat := 1013904223
  const WORD: nat := 0x1_0000_0000
  const LINK_OPEN := "<a href=\"/"
  const LINK_CLOSE := "/\">x</a>\n"

  /** What the output filter reports; on Again, whether the write event could be registered. */
  datatype Outcome = Delivered | Again(registered: bool) | Failed

  /** One invocation of the handler. */
  datatype Call = Call(now: nat, gone: bool, outcome: Outcome)

  /** The socket becomes writable after `wait`, unless the timer fires first. */
  datatype Wakeup = Wakeup(wait: nat, gone: bool, outcome: Outcome)

  function NextRng(rng: nat): (r: nat)
    ensures r < WORD
  {
    (rng * MULTIPLIER + INCREMENT) % WORD
  }

  function Rng(rng: nat, k: nat): nat {
    if k == 0 then rng else NextRng(Rng(rng, k - 1))
  }

  /** The decoy path: one hex digit from the top byte of each successive state. */
  function Digits(rng: nat, k: nat): (s: string)
    ensures |s| == k
  {
    if k == 0 then [] else Digits(rng, k - 1) + [HexText.CHARS[Rng(rng, k) / 0x100_0000 % 16]]
  }

  function FragmentOf(rng: nat): string {
    LINK_OPEN + Digits(rng, 16) + LINK_CLOSE
  }

  /** What one delivered tick brings the count to. */
  function Dripped(sent: nat, total: nat, maze: bool): nat {
    var tick := if maze then |FragmentOf(0)| else TICK_BYTES;
    if total - sent > tick then sent + tick else total
  }

  predicate TimersOnly(wakeups: seq<Wakeup>, delay: nat) {
    forall k :: 0 <= k < |wakeups| ==> wakeups[k].wait >= delay
  }

  class Drip {
    const deadline: nat
    const bytesTotal: nat
    const delay: nat
    const maze: bool
    var bytesSent: nat
    var rng: nat
    var due: nat          // when the armed timer fires
    var references: int   // the extra reference this module holds
    var finalized: nat    // how often the request was finalized

    ghost predicate Valid()
      reads this
    {
      && bytesSent <= bytesTotal
      && finalized <= 1 && references == 1 - finalized
    }

    /** Armed at `start`: the first timer is the plain delay. */
    constructor (start: nat, lifetime: nat, bytesTotal: nat, delay: nat, maze: bool, seed: nat)
      ensures Valid() && finalized == 0 && bytesSent == 0
      ensures deadline == start + lifetime && this.bytesTotal == bytesTotal && this.delay == delay && this.maze == maze
      ensures due == start + delay
      ensures due <= deadline <==> delay <= lifetime
    {
      deadline, this.bytesTotal, this.delay, this.maze := start + lifetime, bytesTotal, delay, maze;
      bytesSent, rng, due, references, finalized := 0, seed % WORD, start + delay, 1, 0;
    }

    method Finish()
      requires Valid() && finalized == 0
      modifies this`references, this`finalized
      ensures Valid() && finalized == 1
    {
      references := references - 1;
      finalized := finalized + 1;
    }

    /** One decoy link, within the scratch buffer. */
    method MazeFragment() returns (frag: string)
      modifies this`rng
      ensures frag == FragmentOf(old(rng)) && rng == Rng(old(rng), 16)
      ensures 1 <= |frag| == |FragmentOf(0)| <= MAZE_FRAG
    {
      frag := LINK_OPEN;
      for i := 0 to 16
        invariant rng == Rng(old(rng), i) && frag == LINK_OPEN + Digits(old(rng), i)
      {
        rng := NextRng(rng);
        frag := frag + [HexText.CHARS[rng / 0x100_0000 % 16]];
      }
      frag := frag + LINK_CLOSE;
    }

    method Arm(now: nat)
      modifies this`due
      ensures now < deadline ==> due <= deadline && due <= now + delay
      ensures now < deadline && delay > 0 ==> now < due
      ensures due == if now >= deadline || deadline - now > delay then now + delay else deadline
    {
      var wait;
      if now >= deadline {
        wait := delay;
      } else {
        wait := deadline - now;
        if wait > delay {
          wait := delay;
        }
      }
      due := now + wait;
    }

    /** The bytes of the next tick: a decoy link or a plain chunk, cut to what is left. */
    method NextTick() returns (tick: nat)
      requires bytesSent < bytesTotal
      modifies this`rng
      ensures 0 < tick <= bytesTotal - bytesSent && bytesSent + tick == Dripped(bytesSent, bytesTotal, maze)
    {
      hide FragmentOf;
      tick := bytesTotal - bytesSent;
      if maze {
        var frag := MazeFragment();
        if tick > |frag| {
          tick := |frag|;
        }
      } else {
        if tick > TICK_BYTES {
          tick := TICK_BYTES;
        }
      }
    }

    /** One tick. */
    method WriteHandler(call: Call)
      requires Valid() && finalized == 0
      modifies this
      ensures Valid() && old(bytesSent) <= bytesSent
      ensures call.now >= deadline ==> finalized == 1
      ensures bytesSent == bytesTotal ==> finalized == 1
      ensures finalized == 0 ==> call.now < deadline && due <= deadline && due <= call.now + delay
      ensures finalized == 0 && delay > 0 ==> call.now < due
      ensures call.now < deadline && !call.gone && call.outcome.Delivered? ==>
                bytesSent == Dripped(old(bytesSent), bytesTotal, maze)
      ensures call.now >= deadline || call.gone || !call.outcome.Delivered? ==> bytesSent == old(bytesSent)
      ensures finalized == 1 <==> || call.now >= deadline || old(bytesSent) == bytesTotal || call.gone
                                  || call.outcome == Failed || call.outcome == Again(false)
                                  || (call.outcome == Delivered && bytesSent == bytesTotal)
      ensures finalized == 0 ==> due == if deadline - call.now > delay then call.now + delay else deadline
    {
      if call.now >= deadline || bytesSent >= bytesTotal {
        Finish();
        return;
      }
      if call.gone {
        Finish();
        return;
      }
      hide Dripped;
      var tick := NextTick();
      match call.outcome {
        case Failed =>
          Finish();
        case Again(registered) =>
          if !registered {
            Finish();
          } else {
            Arm(call.now);
          }
        case Delivered =>
          bytesSent := bytesSent + tick;
          if bytesSent >= bytesTotal || call.now >= deadline {
            Finish();
          } else {
            Arm(call.now);
          }
      }
    }

    /**
     A whole run, each armed timer firing when due: the request ends at most
     once, by the deadline when the delay is not longer than the lifetime, and
     only at the first tick, past the deadline, when it is. Timers alone end it.
     */
    method Run(start: nat, wakeups: seq<Wakeup>) returns (handled: nat, end: nat)
      requires Valid() && finalized == 0 && bytesSent == 0 && due == start + delay && start <= deadline
      modifies this
      ensures Valid() && handled <= |wakeups| && (finalized == 0 ==> handled == |wakeups|)
      ensures start <= end && (start + delay <= deadline ==> end <= deadline)
      ensures start + delay > deadline && TimersOnly(wakeups, delay) && |wakeups| > 0 ==>
                finalized == 1 && end == start + delay && bytesSent == 0
      ensures finalized == 1 <==> references == 0
      ensures finalized == 0 && handled > 0 ==> end < deadline
      ensures TimersOnly(wakeups, delay) && |wakeups| > 0 && |wakeups| * delay >= deadline - start ==> finalized == 1
    {
      handled, end := 0, start;
      while handled < |wakeups| && finalized == 0
        invariant handled <= |wakeups| && Valid() && start <= end
        invariant start + delay <= deadline ==> end <= deadline
        invariant start + delay > deadline && TimersOnly(wakeups, delay) ==>
                    && bytesSent == 0
                    && if handled == 0 then end == start && finalized == 0 && due == start + delay
                       else end == start + delay && finalized == 1
        invariant finalized == 0 ==> end <= due && (due <= deadline || due <= start + delay)
        invariant finalized == 0 && handled > 0 ==> end < deadline
        invariant finalized == 0 ==> due == end + delay || due == deadline < end + delay
        invariant finalized == 0 && TimersOnly(wakeups, delay) ==> end >= start + handled * delay
        decreases |wakeups| - handled
      {
        var w := wakeups[handled];
        var now := if end + w.wait < due then end + w.wait else due;
        WriteHandler(Call(now, w.gone, w.outcome));
        end := now;
        assert (handled + 1) * delay == handled * delay + delay;
        handled := handled + 1;
      }
    }
  }

  /** Allowed settings with which a connection lives sixty times its lifetime: delay 60000, lifetime 1000. */
  method DelayOutlivesLifetime(bytesTotal: nat, maze: bool, seed: nat) returns (d: Drip, end: nat)
    ensures fresh(d) && d.delay == 60000 && d.deadline == 1000
    ensures d.Valid() && d.finalized == 1 && d.bytesSent == 0 && end == 60000
  {
    d := new Drip(0, 1000, bytesTotal, 60000, maze, seed);
    var handled;
    handled, end := d.Run(0, [Wakeup(60000, false, Delivered)]);
    assert d.finalized == 1;
  }
}
