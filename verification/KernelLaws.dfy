/** What the records of the kernel say in every reachable state: tasks of one priority take turns, and those who sleep wake
    on time. */
module KernelLaws {
  import opened Sequences
  import opened RoundRobin
  import opened SortedInsertion
  import opened TimerQueue
  import opened TaskOrder
  import opened TaskControl

  /** The ready list of priority p after its first m turns. */
  ghost function ReadyAfter(k: Kernel, p: nat, m: nat): (r: Ring<ListItem>)
    requires p < |k.order.first| && p < |k.turns| && m <= |k.turns[p]|
    requires k.order.first[p].cursor <= |k.order.first[p].items| && AllAllowed(k.order.first[p], k.turns[p][..m])
    reads k`turns
  {
    AfterSteps(k.order.first[p], k.turns[p][..m])
  }

  /** Fairness, for every reachable state: take a task that has been in the ready list of its priority p since the m-th
      turn there, and has not been chosen since. If the cursor was before it, with d tasks in between, then at most d
      switches have chosen a task of priority p since. Otherwise the turns since then split where the cursor has
      wrapped around, with a bound on the switches in each part. All switches are turns on p while no task of a higher
      priority is ready; ticks, events and blocking tasks may come in between as they like. */
  lemma ReadyTaskRuns(k: Kernel, p: nat, m: nat, x: ListItem) returns (wrap: nat)
    requires k.Steady() && p < |k.turns| && m <= |k.turns[p]|
    ensures |k.order.first| == |k.turns| == |k.scheduler.ready| && k.order.first[p].cursor <= |k.order.first[p].items|
    ensures AllAllowed(k.order.first[p], k.turns[p][..m])
    ensures var r, later := ReadyAfter(k, p, m), k.turns[p][m..];
            && AllAllowed(r, later) && AfterSteps(r, later) == k.scheduler.ready[p].ring
            && (WaitsThrough(r, later, x) && Upcoming(r, x) ==>
                  Gets(later) <= IndexOf(r.items, x) - r.cursor)
            && (WaitsThrough(r, later, x) && !Upcoming(r, x) ==>
                  && wrap <= |later| && WaitsThrough(r, later[..wrap], x)
                  && Gets(later[..wrap]) <= |r.items| - r.cursor + 1
                  && (wrap < |later| ==>
                        var t := Run(r, later[..wrap], x);
                        Upcoming(t, x) && Gets(later[wrap..]) <= IndexOf(t.items, x) - t.cursor))
  {
    wrap := 0;
    TurnsSplit(k, p, m);
    var r, later := ReadyAfter(k, p, m), k.turns[p][m..];
    if WaitsThrough(r, later, x) {
      if Upcoming(r, x) {
        BoundedWaiting(r, later, x);
      } else {
        wrap := NoStarvation(r, later, x);
      }
    }
  }

  lemma TurnsSplit(k: Kernel, p: nat, m: nat)
    requires k.Steady() && p < |k.turns| && m <= |k.turns[p]|
    ensures |k.order.first| == |k.turns| == |k.scheduler.ready| && k.order.first[p].Valid()
    ensures AllAllowed(k.order.first[p], k.turns[p][..m]) && ReadyAfter(k, p, m).Valid()
    ensures AllAllowed(ReadyAfter(k, p, m), k.turns[p][m..])
    ensures AfterSteps(ReadyAfter(k, p, m), k.turns[p][m..]) == k.scheduler.ready[p].ring
  {
    hide Kernel.Steady, Kernel.InOrder, Orderly, KT.Scheduler.Valid, KT.Scheduler.ReadyAgrees, AllAllowed, AfterSteps;
    k.SteadyParts();
    k.OrderParts();
    TurnsOf(k.scheduler, k.order, k.scheduler.heap.Image(), k.turns, p);
    assert k.turns[p] == k.turns[p][..m] + k.turns[p][m..];
    StepsSplit(k.order.first[p], k.turns[p][..m], k.turns[p][m..]);
  }

  /** The law of the delays, for every reachable state: exactly those owed a waking at time t were woken by the tick
      that reached it, in the order of going to sleep, or still sleep if it is to come. */
  lemma WakeTimes(k: Kernel, t: nat)
    requires k.Steady() && k.start.now < t
    ensures var owed := Owed(k.start, k.history, t, With(k.start.sleepers, t));
            if t <= k.scheduler.Line().now then WokenAt(k.start, k.history, t) == owed
            else WokenAt(k.start, k.history, t) == [] && With(k.scheduler.Line().sleepers, t) == owed
  {
    WokenAreDue(k.start, k.history, t);
    WakesOnTime(k.start, k.history, t);
  }

  /** Whoever slept after the first m events and was not woken early since then was woken by the tick that reached its
      time, or still sleeps if that is to come. */
  lemma SleeperWoken(k: Kernel, m: nat, e: Entry<ListItem>)
    requires k.Steady() && m <= |k.history|
    ensures AllPossible(k.start, k.history) && AllPossible(k.start, k.history[..m])
    ensures AllPossible(Last(k.start, k.history[..m]), k.history[m..])
    ensures e in Last(k.start, k.history[..m]).sleepers && NeverCancelled(Last(k.start, k.history[..m]), k.history[m..], e) ==>
              if e.key <= k.scheduler.Line().now then e in WokenAt(k.start, k.history, e.key)
              else e in k.scheduler.Line().sleepers
  {
    var a, b := k.history[..m], k.history[m..];
    assert k.history == a + b;
    RunSplits(k.start, a, b);
    WokenAreDue(k.start, a, 0);
    WokenAreDue(k.start, k.history, 0);
    if e in Last(k.start, a).sleepers && NeverCancelled(Last(k.start, a), b, e) {
      SleeperWakes(Last(k.start, a), b, e);
    }
  }
}
