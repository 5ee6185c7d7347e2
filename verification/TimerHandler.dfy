/** The handler of the hardware timer: all virtual timers that expire within the shortest interval the
    hardware can time are signalled, periodic ones are armed again, and the hardware is programmed
    for the earliest of the rest. */
module TimerHandler {
  import opened Basics
  import opened TimerHeap

  datatype Timer = Timer(hwtime: int, period: int, pending: set<nat>)

  ghost function Fields(d: Domain): Timer
    reads d
  {
    Timer(d.hwtime, d.period, d.pending)
  }

  /** A timer after its expiry has been signalled at `now`. */
  function Signalled(t: Timer, now: int, event: nat): Timer {
    Timer(if t.period != 0 then t.period + now else t.hwtime, t.period, t.pending + {event})
  }

  type Record = map<Domain, Timer>

  /** The domains in `served` have been signalled once, all others are as recorded, and only the
      one-shot timers served are no longer armed. */
  ghost predicate Progress(armed: set<Domain>, was: Record, served: set<Domain>, now: int, event: nat)
    reads was.Keys
  {
    && served <= was.Keys
    && (forall d :: d in was ==> Fields(d) == if d in served then Signalled(was[d], now, event) else was[d])
    && armed == set d | d in was && (d in served ==> was[d].period != 0)
  }

  lemma Begin(armed: set<Domain>, was: Record, now: int, event: nat)
    requires was.Keys == armed && forall d :: d in armed ==> was[d] == Fields(d)
    ensures Progress(armed, was, {}, now, event)
  {
  }

  lemma End(armed: set<Domain>, was: Record, served: set<Domain>, now: int, event: nat)
    requires Progress(armed, was, served, now, event)
    ensures served <= was.Keys
    ensures forall d :: d in was ==> d.period == was[d].period
    ensures forall d :: d in was && d !in served ==> d.hwtime == was[d].hwtime && d.pending == was[d].pending
    ensures forall d :: d in served ==> d.pending == was[d].pending + {event}
    ensures forall d :: d in served ==> d.hwtime == if was[d].period != 0 then now + was[d].period else was[d].hwtime
    ensures forall d :: d in armed <==> d in was && (d in served ==> was[d].period != 0)
  {
  }

  /** One turn of the loop. */
  method SignalEarliest(heap: Heap, now: int, event: nat) returns (d: Domain)
    requires heap.Valid() && heap.InOrder() && heap.members != {}
    modifies heap, heap.slots, heap.members
    ensures heap.Valid() && heap.InOrder() && d in old(heap.members)
    ensures forall x :: x in old(heap.members) ==> old(d.hwtime) <= old(x.hwtime)
    ensures heap.members == if old(d.period) != 0 then old(heap.members) else old(heap.members) - {d}
    ensures d.pending == old(d.pending) + {event} && d.period == old(d.period)
    ensures d.hwtime == if old(d.period) != 0 then now + old(d.period) else old(d.hwtime)
    ensures forall x :: x in old(heap.members) && x != d ==>
      x.pending == old(x.pending) && x.period == old(x.period) && x.hwtime == old(x.hwtime)
  {
    hide Heap.Valid, Heap.InOrder;
    d := heap.RemoveMin();
    d.pending := d.pending + {event};
    if d.period != 0 {
      d.hwtime := d.period + now;
      heap.NoSlot(d);
      var _ := heap.Insert(d);
    }
  }

  /** One turn of the loop serves a domain that had expired and was not served before. */
  method ServeOne(heap: Heap, sel: Domain, now: int, minInterval: int, event: nat, ghost was: Record,
                  ghost served: set<Domain>)
    returns (d: Domain)
    requires heap.Valid() && heap.InOrder() && sel in heap.members && sel.hwtime <= now + minInterval
    requires Progress(heap.members, was, served, now, event)
    requires forall d :: d in was ==> was[d].period == 0 || was[d].period > minInterval
    modifies heap, heap.slots, heap.members
    ensures heap.Valid() && heap.InOrder() && d in was.Keys - served && was[d].hwtime <= now + minInterval
    ensures Progress(heap.members, was, served + {d}, now, event) && heap.members <= old(heap.members)
  {
    hide Heap.Valid, Heap.InOrder;
    d := SignalEarliest(heap, now, event);
  }

  /** Starting from a well-ordered heap whose periods are zero or longer than the shortest interval,
      every expired domain, and no other, gets the timer event, once, and only what is periodic stays
      armed, a period from now; the delay programmed is that of the earliest timer left, cut to what the
      hardware can time. */
  method Handle(heap: Heap, now: int, minInterval: int, maxInterval: int, event: nat)
    returns (delay: Option<int>, ghost first: Domain?)
    requires heap.Valid() && heap.InOrder()
    requires forall d :: d in heap.members ==> d.period == 0 || d.period > minInterval
    modifies heap, heap.slots, heap.members
    ensures heap.Valid() && heap.InOrder()
    ensures forall d :: d in old(heap.members) ==>
      d.pending == if old(d.hwtime) <= now + minInterval then old(d.pending) + {event} else old(d.pending)
    ensures forall d :: d in old(heap.members) ==>
      d.hwtime == if old(d.hwtime) <= now + minInterval && old(d.period) != 0 then now + old(d.period) else old(d.hwtime)
    ensures forall d :: d in old(heap.members) ==> d.period == old(d.period)
    ensures forall d :: d in heap.members <==>
      d in old(heap.members) && (old(d.period) != 0 || old(d.hwtime) > now + minInterval)
    ensures forall d :: d in heap.members ==> d.hwtime > now + minInterval
    ensures first == null <==> heap.members == {}
    ensures first != null ==> first in heap.members && forall x :: x in heap.members ==> first.hwtime <= x.hwtime
    ensures delay == if first == null then None
      else Some(if first.hwtime - now < maxInterval then first.hwtime - now else maxInterval)
  {
    hide Heap.Valid, Heap.InOrder, Progress;
    ghost var was := map d | d in heap.members :: Fields(d);
    ghost var served: set<Domain> := {};
    Begin(heap.members, was, now, event);
    var sel := heap.Min();
    while sel != null && sel.hwtime <= now + minInterval
      invariant heap.Valid() && heap.InOrder()
      invariant Progress(heap.members, was, served, now, event)
      invariant heap.members <= was.Keys && served <= was.Keys
      invariant forall d :: d in served ==> was[d].hwtime <= now + minInterval
      invariant sel == null <==> heap.members == {}
      invariant sel != null ==> sel in heap.members && forall x :: x in heap.members ==> sel.hwtime <= x.hwtime
      decreases was.Keys - served
    {
      sel := ServeOne(heap, sel, now, minInterval, event, was, served);
      served := served + {sel};
      sel := heap.Min();
    }
    first := sel;
    End(heap.members, was, served, now, event);
    if sel != null {
      var rtime := sel.hwtime - now;
      delay := Some(if rtime < maxInterval then rtime else maxInterval);
    } else {
      delay := None;
    }
  }
}
