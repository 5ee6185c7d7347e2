/** Runs of PaRTiKle's ready queue, told by arrival numbers: whatever is queued again, served and
    withdrawn, a thread served has the most urgent priority present and came first among its equals. */
module ReadyRun {
  import opened PriorityQueue
  import opened ReadyQueue

  /** What the kernel does with threads: queue one behind its equals, taking it out first if it is
      queued, take the head out to run it, or take out any thread. */
  datatype Step = Requeue(t: Thread, prio: int) | Serve | Withdraw(t: Thread)

  /** Entries with arrival numbers, and the threads by number. */
  datatype Plain = Plain(q: seq<Entry<nat>>, arrived: seq<Thread>)

  ghost predicate Numbered(p: Plain) {
    Stable(p.q) && forall k :: 0 <= k < |p.q| ==> p.q[k].item < |p.arrived|
  }

  ghost function Drop(q: seq<Entry<nat>>, arrived: seq<Thread>, t: Thread): seq<Entry<nat>>
    requires forall k :: 0 <= k < |q| ==> q[k].item < |arrived|
  {
    if q == [] then [] else if arrived[q[0].item] == t then q[1..] else [q[0]] + Drop(q[1..], arrived, t)
  }

  lemma {:induction false} DropStable(q: seq<Entry<nat>>, arrived: seq<Thread>, t: Thread)
    requires Stable(q) && forall k :: 0 <= k < |q| ==> q[k].item < |arrived|
    ensures Stable(Drop(q, arrived, t)) && forall e :: e in Drop(q, arrived, t) ==> e in q
  {
    if q != [] && arrived[q[0].item] != t {
      DropStable(q[1..], arrived, t);
      forall e | e in Drop(q[1..], arrived, t) ensures Before(q[0], e) && e in q {
        assert e in q[1..];
      }
    }
  }

  /** The plain queue after a step. */
  ghost function After(p: Plain, step: Step): Plain
    requires Numbered(p)
  {
    match step
    case Requeue(t, prio) =>
      Plain(InsertTail(Drop(p.q, p.arrived, t), Entry(prio % 1024, |p.arrived|)), p.arrived + [t])
    case Serve => p.(q := if p.q == [] then [] else p.q[1..])
    case Withdraw(t) => p.(q := Drop(p.q, p.arrived, t))
  }

  lemma AfterNumbered(p: Plain, step: Step)
    requires Numbered(p)
    ensures Numbered(After(p, step))
  {
    match step
    case Requeue(t, prio) =>
      var q := Drop(p.q, p.arrived, t);
      var e: Entry<nat> := Entry(prio % 1024, |p.arrived|);
      DropStable(p.q, p.arrived, t);
      Bounded(q, p);
      TailStable(q, e);
      forall k | 0 <= k < |InsertTail(q, e)| ensures InsertTail(q, e)[k].item < |p.arrived| + 1 {
        assert InsertTail(q, e)[k] in multiset(InsertTail(q, e));
        assert InsertTail(q, e)[k] in q || InsertTail(q, e)[k] == e;
      }
    case Serve =>
    case Withdraw(t) =>
      DropStable(p.q, p.arrived, t);
      Bounded(Drop(p.q, p.arrived, t), p);
  }

  lemma Bounded(q: seq<Entry<nat>>, p: Plain)
    requires Numbered(p) && forall e :: e in q ==> e in p.q
    ensures forall k :: 0 <= k < |q| ==> q[k].item < |p.arrived|
  {
    forall k | 0 <= k < |q| ensures q[k].item < |p.arrived| {
      assert q[k] in p.q;
    }
  }

  /** The entries with threads in place of their numbers. */
  ghost function Named(q: seq<Entry<nat>>, arrived: seq<Thread>): (r: seq<Entry<Thread>>)
    requires forall k :: 0 <= k < |q| ==> q[k].item < |arrived|
    ensures |r| == |q|
  {
    seq(|q|, k requires 0 <= k < |q| => Entry(q[k].prio, arrived[q[k].item]))
  }

  lemma {:induction false} DropNamed(q: seq<Entry<nat>>, arrived: seq<Thread>, t: Thread)
    requires forall k :: 0 <= k < |q| ==> q[k].item < |arrived|
    ensures forall k :: 0 <= k < |Drop(q, arrived, t)| ==> Drop(q, arrived, t)[k].item < |arrived|
    ensures Named(Drop(q, arrived, t), arrived) == Without(Named(q, arrived), t)
  {
    if q != [] {
      assert Named(q, arrived)[1..] == Named(q[1..], arrived);
      DropNamed(q[1..], arrived, t);
    }
  }

  lemma {:induction false} InsertNamed(q: seq<Entry<nat>>, arrived: seq<Thread>, prio: int, n: nat)
    requires n < |arrived| && forall k :: 0 <= k < |q| ==> q[k].item < |arrived|
    ensures forall k :: 0 <= k < |InsertTail(q, Entry(prio, n))| ==> InsertTail(q, Entry(prio, n))[k].item < |arrived|
    ensures Named(InsertTail(q, Entry(prio, n)), arrived) == InsertTail(Named(q, arrived), Entry(prio, arrived[n]))
  {
    if q != [] && q[0].prio <= prio {
      assert Named(q, arrived)[1..] == Named(q[1..], arrived);
      InsertNamed(q[1..], arrived, prio, n);
    }
  }

  /** Later arrivals do not change the names of earlier ones. */
  lemma NamedMore(q: seq<Entry<nat>>, arrived: seq<Thread>, t: Thread)
    requires forall k :: 0 <= k < |q| ==> q[k].item < |arrived|
    ensures Named(q, arrived + [t]) == Named(q, arrived)
  {
  }

  /** The queue holds the entries of the plain one. */
  ghost predicate Matches(entries: seq<Entry<Thread>>, p: Plain) {
    Numbered(p) && entries == Named(p.q, p.arrived)
  }

  lemma RequeueMatches(entries: seq<Entry<Thread>>, p: Plain, t: Thread, prio: int)
    requires Matches(entries, p)
    ensures Matches(InsertTail(Without(entries, t), Entry(prio % 1024, t)), After(p, Requeue(t, prio)))
  {
    var q := Drop(p.q, p.arrived, t);
    AfterNumbered(p, Requeue(t, prio));
    DropNamed(p.q, p.arrived, t);
    NamedMore(q, p.arrived, t);
    InsertNamed(q, p.arrived + [t], prio % 1024, |p.arrived|);
  }

  lemma WithdrawMatches(entries: seq<Entry<Thread>>, p: Plain, t: Thread)
    requires Matches(entries, p)
    ensures Matches(Without(entries, t), After(p, Withdraw(t)))
  {
    AfterNumbered(p, Withdraw(t));
    DropNamed(p.q, p.arrived, t);
  }

  lemma ServeMatches(entries: seq<Entry<Thread>>, p: Plain)
    requires Matches(entries, p)
    ensures entries == [] ==> Next(p) == null && After(p, Serve) == p
    ensures entries != [] ==> Next(p) == entries[0].item
    ensures entries != [] ==> Matches(Without(entries, entries[0].item), After(p, Serve))
  {
    AfterNumbered(p, Serve);
    if p.q != [] {
      assert Named(p.q, p.arrived)[1..] == Named(p.q[1..], p.arrived);
    }
  }

  /** The thread that is first of the most urgent ones present. */
  ghost function Next(p: Plain): Thread?
    requires Numbered(p)
  {
    if p.q == [] then null else p.arrived[p.q[0].item]
  }

  /** The threads of `pool` are in the queue, or can be put in. */
  ghost predicate Ready(queue: Queue, pool: set<Thread>)
    reads queue`members, pool
  {
    forall t :: t in pool ==> t in queue.members || queue.Idle(t)
  }

  method TakeStep(queue: Queue, step: Step, ghost p: Plain, ghost pool: set<Thread>) returns (served: Thread?)
    requires queue.Valid() && Matches(queue.Entries(), p) && Ready(queue, pool) && (!step.Serve? ==> step.t in pool)
    modifies queue, queue.heads, queue.sl, queue.members, pool
    ensures queue.Valid() && Matches(queue.Entries(), After(p, step)) && Ready(queue, pool)
    ensures served == if step.Serve? then Next(p) else null
    ensures queue.members <= old(queue.members) + pool
  {
    hide Queue.Valid, Queue.Entries, After, Numbered, Matches;
    served := null;
    match step {
      case Requeue(t, prio) =>
        RequeueMatches(queue.Entries(), p, t, prio);
        queue.RemoveSs(t);
        queue.InsertSsTail(t, prio);
      case Serve =>
        ServeMatches(queue.Entries(), p);
        var prio, t := queue.GetHeadSs();
        served := t;
        if t != null {
          queue.RemoveSs(t);
        }
      case Withdraw(t) =>
        WithdrawMatches(queue.Entries(), p, t);
        queue.RemoveSs(t);
    }
  }

  /** Every run from an empty queue serves as the plain queue does: the states of that queue follow each
      other step by step, each with its entries in order of priority and, within a priority, of
      arrival, and the thread served is the one named by the first entry. */
  method Run(queue: Queue, steps: seq<Step>, ghost pool: set<Thread>) returns (served: seq<Thread?>, ghost states: seq<Plain>)
    requires queue.Valid() && queue.Entries() == [] && Ready(queue, pool)
    requires forall i :: 0 <= i < |steps| && !steps[i].Serve? ==> steps[i].t in pool
    modifies queue, queue.heads, queue.sl, queue.members, pool
    ensures queue.Valid() && |served| == |steps| && |states| == |steps| + 1 && states[0] == Plain([], [])
    ensures forall i :: 0 <= i <= |steps| ==> Numbered(states[i])
    ensures forall i :: 0 <= i < |steps| ==> states[i + 1] == After(states[i], steps[i])
    ensures forall i :: 0 <= i < |steps| && steps[i].Serve? ==> served[i] == Next(states[i])
    ensures Matches(queue.Entries(), states[|steps|])
  {
    hide Queue.Valid, Queue.Entries, After, Next, Queue.Idle;
    served := [];
    states := [Plain([], [])];
    assert Named([], []) == [];
    var i := 0;
    while i < |steps|
      invariant i <= |steps| && |served| == i && |states| == i + 1 && states[0] == Plain([], [])
      invariant queue.Valid() && Ready(queue, pool) && queue.members <= old(queue.members) + pool
      invariant forall k :: 0 <= k <= i ==> Numbered(states[k])
      invariant forall k :: 0 <= k < i ==> states[k + 1] == After(states[k], steps[k])
      invariant forall k :: 0 <= k < i && steps[k].Serve? ==> served[k] == Next(states[k])
      invariant Matches(queue.Entries(), states[i])
    {
      var t := TakeStep(queue, steps[i], states[i], pool);
      served := served + [t];
      states := states + [After(states[i], steps[i])];
      i := i + 1;
    }
  }
}
