/** What interrupts that come while the scheduler is suspended leave behind: a number of ticks to make up for, and the
    first ones out of the event lists. */
module Interrupts {
  import KH = KernelHeap

  type List = KH.List
  type ListItem = KH.ListItem

  /** A tick, or an event that tasks may wait for in a list. */
  datatype Interrupt = TickInterrupt | EventInterrupt(list: List)

  /** The event items in each event list, in order. */
  type Waiting = map<List, seq<ListItem>>

  function TicksIn(interrupts: seq<Interrupt>): nat {
    if interrupts == [] then 0 else
      var n := |interrupts| - 1;
      TicksIn(interrupts[..n]) + if interrupts[n].TickInterrupt? then 1 else 0
  }

  /** An event takes the first one out of its list, if anybody waits there. */
  function Taken(w: Waiting, i: Interrupt): seq<ListItem> {
    if i.EventInterrupt? && i.list in w && w[i.list] != [] then [w[i.list][0]] else []
  }

  function Left(w: Waiting, i: Interrupt): Waiting {
    if i.EventInterrupt? && i.list in w && w[i.list] != [] then w[i.list := w[i.list][1..]] else w
  }

  /** Who still waits after a number of interrupts. */
  function AllLeft(w: Waiting, interrupts: seq<Interrupt>): Waiting {
    if interrupts == [] then w else
      var n := |interrupts| - 1;
      Left(AllLeft(w, interrupts[..n]), interrupts[n])
  }

  /** The event items that a number of interrupts take out of the lists, in that order. */
  function AllTaken(w: Waiting, interrupts: seq<Interrupt>): seq<ListItem> {
    if interrupts == [] then [] else
      var n := |interrupts| - 1;
      AllTaken(w, interrupts[..n]) + Taken(AllLeft(w, interrupts[..n]), interrupts[n])
  }

  lemma NoInterrupts(w: Waiting)
    ensures TicksIn([]) == 0 && AllTaken(w, []) == [] && AllLeft(w, []) == w
  {
  }

  lemma OneMoreInterrupt(w: Waiting, interrupts: seq<Interrupt>, k: nat)
    requires k < |interrupts|
    ensures TicksIn(interrupts[..k + 1]) == TicksIn(interrupts[..k]) + if interrupts[k].TickInterrupt? then 1 else 0
    ensures AllTaken(w, interrupts[..k + 1])
         == AllTaken(w, interrupts[..k]) + Taken(AllLeft(w, interrupts[..k]), interrupts[k])
    ensures AllLeft(w, interrupts[..k + 1]) == Left(AllLeft(w, interrupts[..k]), interrupts[k])
  {
    assert interrupts[..k + 1][..k] == interrupts[..k];
  }

  /** Nobody is lost: what waited in a list is what was taken out of it, followed by what still waits. */
  lemma {:induction false} TakenOrLeft(w: Waiting, interrupts: seq<Interrupt>, l: List)
    requires l in w
    ensures l in AllLeft(w, interrupts) && w[l] == OutOf(w, interrupts, l) + AllLeft(w, interrupts)[l]
    decreases |interrupts|
  {
    if interrupts == [] {
    } else {
      TakenOrLeft(w, interrupts[..|interrupts| - 1], l);
    }
  }

  /** Of the event items taken, those out of list l. */
  function OutOf(w: Waiting, interrupts: seq<Interrupt>, l: List): seq<ListItem> {
    if interrupts == [] then [] else
      var n := |interrupts| - 1;
      var i := interrupts[n];
      OutOf(w, interrupts[..n], l) + if i == EventInterrupt(l) then Taken(AllLeft(w, interrupts[..n]), i) else []
  }
}
