/** Times told from a 32-bit counter: the periodic wake-up, and the time-out of an operation. */
module TimeOuts {
  import opened SortedInsertion
  import opened DelayedLists

  /** What a waiting operation remembers: how often the counter had wrapped around, and what it showed. */
  class TimeOut {
    var overflowCount: nat
    var timeOnEntering: Tick

    constructor ()
      ensures overflowCount == 0 && timeOnEntering == 0
    {
      overflowCount, timeOnEntering := 0, 0;
    }

    /** The time it stands for. */
    ghost function Time(): nat
      reads this
    {
      overflowCount * WRAP + timeOnEntering
    }
  }

  /** The latest time up to `now` at which the counter showed `tick`; negative if it has never shown it. */
  function LastShown(now: nat, tick: Tick): int {
    now - (now - tick) % WRAP
  }

  lemma LastShownIs(now: nat, tick: Tick, p: int)
    ensures p == LastShown(now, tick) <==> p <= now < p + WRAP && p % WRAP == tick
  {
  }

  /** The subtraction of counter values, in 32 bits. */
  function Since(later: Tick, earlier: Tick): Tick {
    (later - earlier) % WRAP
  }

  lemma CounterShows(overflows: nat, tick: Tick)
    ensures Shown(overflows * WRAP + tick) == tick
  {
  }

  /** The comparisons of the periodic wake-up find out whether the next wake time is still to come, and the
      subtraction gives the time until then. */
  lemma NextWake(now: nat, prev: Tick, increment: Tick)
    requires increment > 0
    ensures var tick, w, wake := Shown(now), Shown(prev + increment), LastShown(now, prev) + increment;
            && w == wake % WRAP
            && ((if tick < prev then w < prev && w > tick else w < prev || w > tick) <==> wake > now)
            && (wake > now ==> Since(w, tick) == wake - now)
  {
    hide *;
    LastShownBy(now, prev);
    ShownSum(prev, increment);
    SinceIs(Shown(prev + increment), Shown(now));
    SameShown(now, prev, increment);
  }

  /** The latest time of a value is in this run of the counter, or in the one before. */
  lemma LastShownBy(now: nat, prev: Tick)
    ensures var tick := Shown(now);
            LastShown(now, prev) == now - (tick - prev) - if tick < prev then 0x1_0000_0000 else 0
  {
  }

  lemma ShownSum(prev: Tick, increment: Tick)
    ensures 0 <= prev < 0x1_0000_0000 && 0 <= increment < 0x1_0000_0000
    ensures Shown(prev + increment) == prev + increment - if prev + increment < 0x1_0000_0000 then 0 else 0x1_0000_0000
  {
  }

  lemma SinceIs(later: Tick, earlier: Tick)
    ensures 0 <= later < 0x1_0000_0000 && 0 <= earlier < 0x1_0000_0000
    ensures Since(later, earlier) == later - earlier + if later < earlier then 0x1_0000_0000 else 0
  {
  }

  lemma SameShown(now: nat, prev: Tick, increment: Tick)
    ensures Shown(prev + increment) == (LastShown(now, prev) + increment) % WRAP
  {
  }

  /** The answer of the check for a time-out, as the comparisons give it. */
  predicate TimedOut(overflows: nat, tick: Tick, enteredOverflows: nat, enteredTick: Tick, ticks: Tick) {
    (overflows != enteredOverflows && tick >= enteredTick) || Since(tick, enteredTick) >= ticks
  }

  /** When the check for a time-out is right: unless the counter has gone once around or more, shows less than it did
      on entering, and has since passed fewer ticks modulo its width than the wait. */
  lemma CheckIsRight(overflows: nat, tick: Tick, enteredOverflows: nat, enteredTick: Tick, ticks: Tick)
    requires enteredOverflows * WRAP + enteredTick <= overflows * WRAP + tick
    ensures var passed, timedOut := (overflows - enteredOverflows) * WRAP + tick - enteredTick,
                                    TimedOut(overflows, tick, enteredOverflows, enteredTick, ticks);
            && ((timedOut <==> passed >= ticks) <==> !(passed >= WRAP && tick < enteredTick && passed % WRAP < ticks))
            && (!timedOut && passed < ticks ==> passed == Since(tick, enteredTick))
  {
  }

  /** One time around and one tick later, a wait of two ticks has long timed out, but the check says that it has not. */
  lemma CheckCanBeWrong()
    ensures var entered, now := MAX_DELAY, 2 * WRAP;
            && now == entered + WRAP + 1
            && Shown(now) == 0 && !TimedOut(2, 0, 0, MAX_DELAY, 2)
  {
  }
}
