/** XtratuM's domains in a list sorted by priority, the scheduler that scans it, and the system calls
    that are scheduling steps. */
module DomainSched {
  import opened EventScan
  import opened PriorityQueue

  class Domain {
    const priority: nat
    var state: State
    var enabled: bool
    var pending: set<nat>
    var masked: set<nat>
    var intercepted: set<nat>
    var prev: Domain?
    var next: Domain?

    constructor (priority: nat)
      ensures this.priority == priority && state == Active && prev == null && next == null
    {
      this.priority := priority;
      state, enabled, pending, masked, intercepted := Active, false, {}, {}, {};
      prev, next := null, null;
    }
  }

  // ---- the domain list ----

  ghost function At(l: seq<Domain>, k: int): Domain? {
    if 0 <= k < |l| then l[k] else null
  }

  ghost predicate Placed(l: seq<Domain>, k: nat)
    requires k < |l|
    reads {l[k]}`next, {l[k]}`prev
  {
    l[k].next == At(l, k + 1) && l[k].prev == At(l, k - 1)
  }

  ghost predicate Linked(l: seq<Domain>)
    reads (set d | d in l)`next, (set d | d in l)`prev
  {
    && (forall k :: 0 <= k < |l| ==> Placed(l, k))
    && (forall a, b :: 0 <= a < b < |l| ==> l[a] != l[b])
  }

  ghost function Ranked(l: seq<Domain>): seq<Entry<Domain>> {
    seq(|l|, k requires 0 <= k < |l| => Entry(l[k].priority, l[k]))
  }

  ghost function Viewed(l: seq<Domain>): (vs: seq<View>)
    reads set d | d in l
    ensures |vs| == |l|
  {
    seq(|l|, k requires 0 <= k < |l| reads (set d | d in l) => ViewOf(l[k]))
  }

  ghost function ViewOf(d: Domain): View
    reads d
  {
    View(d.state, d.enabled, d.pending, d.masked, d.intercepted)
  }

  /** The views `vs` of the domains in `l`, with the state and the events flag of `d` changed. */
  ghost function Marked(vs: seq<View>, l: seq<Domain>, d: Domain, state: State, enabled: bool): seq<View>
    requires |vs| == |l|
  {
    seq(|l|, k requires 0 <= k < |l| => if l[k] == d then vs[k].(state := state, enabled := enabled) else vs[k])
  }

  datatype Step =
    | Exit
    | Fault
    | Suspend(cmd: int, ret: int)
    | Pass(event: nat)
    | Schedule
    | Events(d: Domain, v: View)

  /** The running domain finishes. */
  predicate Ends(step: Step) {
    step.Exit? || step.Fault?
  }

  /** The domain that runs when step `i` is taken, after those selected by the steps before it. */
  function Running(first: Domain, selected: seq<Domain>, i: nat): Domain
    requires i <= |selected|
  {
    if i == 0 then first else selected[i - 1]
  }

  /** The view of domain `k` after the turn of domain `i`. */
  function Turned(vs: seq<View>, i: nat, k: nat): View
    requires i < |vs| && k < |vs|
  {
    if k == i && i + 1 < |vs| then vs[i].(pending := Kept(vs[i]))
    else if k == i + 1 then vs[k].(pending := vs[k].pending + Forwarded(vs[i]))
    else vs[k]
  }

  lemma TurnViews(before: seq<View>, after: seq<View>, i: nat)
    requires i < |before| == |after| && forall k :: 0 <= k < |after| ==> after[k] == Turned(before, i, k)
    ensures after == before[..i] + [First(before[i..])] + Rest(before[i..])
  {
    hide Kept, Forwarded;
    var goal := before[..i] + [First(before[i..])] + Rest(before[i..]);
    forall k | 0 <= k < |after| ensures after[k] == goal[k] {
      assert after[k] == Turned(before, i, k);
    }
  }

  class Hypervisor {
    var head: Domain?
    var current: Domain
    const root: Domain
    ghost var list: seq<Domain>

    ghost predicate Chain()
      reads this`head, this`list, (set d | d in list)`next, (set d | d in list)`prev
    {
      Linked(list) && head == At(list, 0)
    }

    /** The list is linked and sorted, and the root and the current domain are in it. */
    ghost predicate Valid()
      reads this, (set d | d in list)`next, (set d | d in list)`prev
    {
      Chain() && Sorted(Ranked(list)) && root in list && current in list
    }

    constructor (root: Domain)
      requires root.prev == null && root.next == null
      ensures Valid() && list == [root] && current == root && this.root == root
    {
      head, current, this.root, list := root, root, root, [root];
      new;
      assert Placed(list, 0);
    }

    method InsertDomain(node: Domain)
      requires Chain() && node !in list
      modifies this`head, this`list, node, set d | d in list
      ensures Chain() && Ranked(list) == InsertTail(old(Ranked(list)), Entry(node.priority, node))
      ensures old(Valid()) ==> Valid()
    {
      ghost var l := list;
      if head == null {
        head := node;
        node.prev, node.next := null, null;
        list := [node];
        assert Placed(list, 0);
        assert l == [];
      } else {
        var p1 := head;
        ghost var k := 0;
        while p1.next != null && node.priority >= p1.priority
          invariant 0 <= k < |l| && p1 == l[k] && Placed(l, k)
          invariant forall j :: 0 <= j < k ==> l[j].priority <= node.priority
          decreases |l| - k
        {
          p1 := p1.next;
          k := k + 1;
          assert Placed(l, k);
        }
        if node.priority < p1.priority {
          InsertBefore(node, p1, k);
        } else {
          InsertAfter(node, p1);
          assert l[..|l|] + [node] + l[|l|..] == l + [node];
          k := |l|;
        }
        RankedInsertion(l, k, node);
        if old(Valid()) {
          var _ := InsertTailSorted(Ranked(l), Entry(node.priority, node));
        }
      }
    }

    /** The head of the scan for one domain: its events are split between it and the next. */
    method Bypass(sel: Domain, ghost i: nat)
      requires Chain() && i < |list| && sel == list[i]
      modifies (set d | d in list)`pending
      ensures Chain()
      ensures Viewed(list) == old(Viewed(list))[..i] + [First(old(Viewed(list))[i..])] + Rest(old(Viewed(list))[i..])
    {
      hide Linked, First, Rest, Kept, Forwarded;
      ghost var before := Viewed(list);
      PassOn(sel, i);
      TurnViews(before, Viewed(list), i);
    }

    method PassOn(sel: Domain, ghost i: nat)
      requires Chain() && i < |list| && sel == list[i]
      modifies (set d | d in list)`pending
      ensures Chain()
      ensures forall k :: 0 <= k < |list| ==> Viewed(list)[k] == Turned(old(Viewed(list)), i, k)
    {
      LinkedAt(i);
      if sel.next != null {
        if sel.state != Finished {
          sel.next.pending := sel.next.pending + (sel.pending - sel.intercepted);
          sel.pending := sel.pending * sel.intercepted;
        } else {
          sel.next.pending := sel.next.pending + sel.pending;
          sel.pending := {};
        }
      }
    }

    lemma LinkedAt(i: nat)
      requires Chain() && i < |list|
      ensures list[i].next == At(list, i + 1) && (i + 1 < |list| ==> list[i] != list[i + 1])
      ensures forall k :: 0 <= k < |list| && (list[k] == list[i] || (i + 1 < |list| && list[k] == list[i + 1])) ==> i <= k <= i + 1
    {
      assert Placed(list, i);
    }

    /** The selection of `xm_sched`. */
    method Select() returns (sel: Domain?)
      requires Chain()
      modifies (set d | d in list)`pending
      ensures Chain() && Viewed(list) == Scan(old(Viewed(list))).0 && sel == At(list, Scan(old(Viewed(list))).1)
    {
      hide Linked, Viewed, Resumes, Scan;
      ghost var start, i := Viewed(list), 0;
      ResumesStart(start);
      sel := head;
      while sel != null
        invariant Chain() && 0 <= i <= |list| && sel == At(list, i) && Resumes(start, Viewed(list), i)
        decreases |list| - i
      {
        ghost var before := Viewed(list);
        Bypass(sel, i);
        SeenAt(i);
        if sel.state == Active || (sel.state == Suspended && sel.enabled && sel.pending - sel.masked != {}) {
          ResumesStop(start, before, i);
          return;
        }
        ResumesNext(start, before, i, Viewed(list));
        sel := sel.next;
        i := i + 1;
      }
      ResumesEnd(start, Viewed(list));
    }

    lemma SeenAt(i: nat)
      requires Chain() && i < |list|
      ensures Viewed(list)[i] == ViewOf(list[i]) && list[i].next == At(list, i + 1)
    {
      assert Placed(list, i);
    }

    /** The state after scheduling domains that were as in `before`. */
    ghost predicate Scheduled(before: seq<View>)
      reads this, set d | d in list
    {
      && |before| == |list|
      && var (after, i) := Scan(before);
      && current == (if i < |list| then list[i] else root)
      && forall k :: 0 <= k < |list| ==>
           ViewOf(list[k]) == if list[k] == current then after[k].(state := Active) else after[k]
    }

    /** What scheduling means for the state and the events of every domain. */
    lemma SchedExact(before: seq<View>) returns (i: nat)
      requires Scheduled(before)
      ensures i <= |list| && current == if i < |list| then list[i] else root
      ensures i < |list| && before[i].state != Active ==>
        before[i].state == Suspended && before[i].enabled && list[i].pending - before[i].masked != {}
      ensures forall k :: 0 <= k < i ==> before[k].state != Active
      ensures forall k :: 0 <= k < i && before[k].state == Suspended && before[k].enabled ==>
        list[k].pending - before[k].masked == {}
      ensures forall k: nat, e: nat :: k <= i && k + 1 < |list| ==>
        (e in list[k].pending <==> Arrives(before, e, k) && before[k].state != Finished && e in before[k].intercepted)
      ensures forall k: nat, e: nat :: k < |list| && (k == i + 1 || |list| - 1 == k <= i) ==>
        (e in list[k].pending <==> Arrives(before, e, k))
      ensures forall k :: i + 1 < k < |list| ==> list[k].pending == before[k].pending
      ensures forall k :: 0 <= k < |list| ==>
        list[k].state == if list[k] == current then Active else before[k].state
      ensures forall k :: 0 <= k < |list| ==> list[k].enabled == before[k].enabled
      ensures forall k :: 0 <= k < |list| ==> list[k].masked == before[k].masked
      ensures forall k :: 0 <= k < |list| ==> list[k].intercepted == before[k].intercepted
    {
      hide Scan, Arrives;
      var after := Scan(before).0;
      i := Scan(before).1;
      ScanSelects(before);
      forall k | 0 <= k < |list| ensures list[k].pending == after[k].pending {
        assert ViewOf(list[k]).pending == after[k].pending;
      }
      forall k: nat, e: nat | k < |list|
        ensures k <= i && k + 1 < |list| ==>
          (e in after[k].pending <==> Arrives(before, e, k) && before[k].state != Finished && e in before[k].intercepted)
        ensures k == i + 1 || |list| - 1 == k <= i ==> (e in after[k].pending <==> Arrives(before, e, k))
        ensures k > i + 1 ==> (e in after[k].pending <==> e in before[k].pending)
      {
        ScanExact(before, e, k);
      }
    }

    /** The body of `xm_sched`, told by the scan. */
    method Dispatch()
      requires Valid()
      modifies this`current, (set d | d in list)`pending, (set d | d in list)`state
      ensures Valid() && Scheduled(old(Viewed(list)))
    {
      hide Linked, Scan, Sorted;
      ghost var before := Viewed(list);
      var sel := Select();
      if sel == null {
        sel := root;
      }
      if sel != current {
        current := sel;
      }
      ghost var after := Viewed(list);
      current.state := Active;
      forall k | 0 <= k < |list|
        ensures ViewOf(list[k]) == if list[k] == current then after[k].(state := Active) else after[k]
      {
      }
    }

    /** `xm_sched`, up to the switch to the domain selected: the first that is active, or suspended with
        its events flag set and an event it does not mask, or the root if there is none. Every domain
        the scan came to but the last has kept just the events that got to it and that it intercepts. */
    method Sched() returns (ghost i: nat)
      requires Valid()
      modifies this`current, (set d | d in list)`pending, (set d | d in list)`state
      ensures Valid() && Scheduled(old(Viewed(list)))
      ensures i <= |list| && current == if i < |list| then list[i] else root
      ensures i < |list| && old(list[i].state) != Active ==>
        old(list[i].state) == Suspended && list[i].enabled && list[i].pending - list[i].masked != {}
      ensures forall k :: 0 <= k < i ==> old(list[k].state) != Active
      ensures forall k :: 0 <= k < i && old(list[k].state) == Suspended && list[k].enabled ==>
        list[k].pending - list[k].masked == {}
      ensures forall k: nat, e: nat :: k <= i && k + 1 < |list| ==>
        (e in list[k].pending <==>
          Arrives(old(Viewed(list)), e, k) && old(list[k].state) != Finished && e in list[k].intercepted)
      ensures forall k: nat, e: nat :: k < |list| && (k == i + 1 || |list| - 1 == k <= i) ==>
        (e in list[k].pending <==> Arrives(old(Viewed(list)), e, k))
      ensures forall k :: i + 1 < k < |list| ==> list[k].pending == old(list[k].pending)
      ensures forall k :: 0 <= k < |list| ==>
        list[k].state == if list[k] == current then Active else old(list[k].state)
    {
      hide Scheduled, Sorted, Linked, Arrives;
      ghost var before := Viewed(list);
      Dispatch();
      i := SchedExact(before);
    }

    /** The domains of `gone`, none of them the root, have finished and are not running. */
    ghost predicate Retired(gone: set<Domain>)
      reads this`current, this`list, gone
    {
      forall d :: d in gone ==> d in list && d != root && d.state == Finished && d != current
    }

    /** Scheduling selects no finished domain but the root. */
    lemma SchedRetires(before: seq<View>, k: nat)
      requires Scheduled(before) && k < |list| && before[k].state == Finished && list[k] != root
      requires forall a, b :: 0 <= a < b < |list| ==> list[a] != list[b]
      ensures list[k].state == Finished && list[k] != current
    {
      ScanSelects(before);
      var (after, i) := Scan(before);
      assert after[k].state == Finished;
      assert ViewOf(list[k]).state == list[k].state;
    }

    /** Scheduling as a step: whichever domains have finished stay so and are not selected. */
    method Reschedule(ghost gone: set<Domain>)
      requires Valid() && forall d :: d in gone ==> d in list && d != root && d.state == Finished
      modifies this`current, (set d | d in list)`pending, (set d | d in list)`state
      ensures Valid() && current.state == Active && Retired(gone) && Scheduled(old(Viewed(list)))
      ensures forall d :: d in list && d != current ==> d.state == old(d.state)
    {
      hide Scan, Sorted;
      ghost var before := Viewed(list);
      ghost var _ := Sched();
      forall d | d in gone ensures d.state == Finished && d != current {
        ghost var k :| 0 <= k < |list| && list[k] == d;
        assert before[k].state == Finished;
        SchedRetires(before, k);
      }
      ghost var c :| 0 <= c < |list| && list[c] == current;
      assert ViewOf(list[c]).state == Active;
    }

    /** `exit_domain_sys` */
    method ExitDomain(ghost gone: set<Domain>)
      requires Valid() && current.state == Active && Retired(gone)
      modifies this`current, set d | d in list
      ensures Valid() && current.state == Active && list == old(list)
      ensures Retired(gone) && (old(current) != root ==> Retired(gone + {old(current)}))
      ensures forall d :: d in list && d != current ==> d.state == if d == old(current) then Finished else old(d.state)
      ensures forall d :: d in list ==> d.enabled == (d != old(current) && old(d.enabled))
      ensures Scheduled(Marked(old(Viewed(list)), list, old(current), Finished, false))
    {
      hide Scheduled, Sorted, Linked;
      current.enabled := false;
      current.state := Finished;
      assert Viewed(list) == Marked(old(Viewed(list)), list, current, Finished, false);
      Reschedule(if current != root then gone + {current} else gone);
    }

    /** `generic_trap_handler` */
    method Trap(ghost gone: set<Domain>)
      requires Valid() && current.state == Active && Retired(gone)
      modifies this`current, set d | d in list
      ensures Valid() && current.state == Active && list == old(list)
      ensures Retired(gone) && (old(current) != root ==> Retired(gone + {old(current)}))
      ensures forall d :: d in list && d != current ==> d.state == if d == old(current) then Finished else old(d.state)
      ensures forall d :: d in list ==> d.enabled == old(d.enabled)
      ensures Scheduled(Marked(old(Viewed(list)), list, old(current), Finished, old(current.enabled)))
    {
      hide Scheduled, Sorted, Linked;
      current.state := Finished;
      assert Viewed(list) == Marked(old(Viewed(list)), list, current, Finished, current.enabled);
      Reschedule(if current != root then gone + {current} else gone);
    }

    /** `suspend_domain_sys`; `ret` is what the device's control call returns. */
    method SuspendDomain(cmd: int, ret: int, ghost gone: set<Domain>)
      requires Valid() && current.state == Active && Retired(gone)
      modifies this`current, set d | d in list
      ensures Valid() && current.state == Active && list == old(list) && Retired(gone)
      ensures forall d :: d in list && d != current && d != old(current) ==> d.state == old(d.state)
      ensures old(current) != current ==> old(current).state == if cmd != 0 && ret == 0 then Active else Suspended
      ensures forall d :: d in list ==> d.enabled == old(d.enabled)
      ensures Scheduled(Marked(old(Viewed(list)), list, old(current),
        if cmd != 0 && ret == 0 then Active else Suspended, old(current.enabled)))
    {
      hide Scheduled, Sorted, Linked;
      current.state := Suspended;
      if cmd != 0 {
        if ret == 0 {
          current.state := Active;
        }
      }
      assert Viewed(list) == Marked(old(Viewed(list)), list, current, current.state, current.enabled);
      Reschedule(gone);
    }

    /** `pass_event_sys` */
    method PassEvent(event: nat, ghost gone: set<Domain>)
      requires Valid() && current.state == Active && Retired(gone)
      modifies (set d | d in list)`pending
      ensures Valid() && current.state == Active && Retired(gone)
      ensures forall d :: d in list ==>
        d.pending == if d == old(current.next) then old(d.pending) + {event} else old(d.pending)
    {
      NextListed();
      if current.next != null {
        current.next.pending := current.next.pending + {event};
      }
    }

    lemma NextListed()
      requires Valid()
      ensures current.next == null || current.next in list
    {
      var k :| 0 <= k < |list| && list[k] == current;
      assert Placed(list, k);
    }

    /** A domain's event words, which it shares with its user code and the interrupt handlers,
        change in any way. */
    method Events(d: Domain, v: View, ghost gone: set<Domain>)
      requires Valid() && current.state == Active && Retired(gone) && d in list
      modifies d`enabled, d`pending, d`masked, d`intercepted
      ensures Valid() && current.state == Active && Retired(gone) && ViewOf(d) == v.(state := old(d.state))
    {
      d.enabled, d.pending, d.masked, d.intercepted := v.enabled, v.pending, v.masked, v.intercepted;
    }

    /** Over every run, a domain other than the root that has finished, before the run or at an earlier
        step of it, is never selected again. */
    method Run(steps: seq<Step>, ghost gone: set<Domain>) returns (selected: seq<Domain>)
      requires Valid() && current.state == Active && Retired(gone)
      requires forall i :: 0 <= i < |steps| && steps[i].Events? ==> steps[i].d in list
      modifies this`current, set d | d in list
      ensures Valid() && current.state == Active && Retired(gone) && list == old(list)
      ensures |selected| == |steps| && forall i :: 0 <= i < |selected| ==> selected[i] !in gone
      ensures forall i, j :: 0 <= i <= j < |steps| && Ends(steps[i]) && Running(old(current), selected, i) != root ==>
        selected[j] != Running(old(current), selected, i)
    {
      hide Scheduled, Valid;
      selected := [];
      ghost var out := gone;
      var i := 0;
      while i < |steps|
        invariant i <= |steps| && |selected| == i && list == old(list) && gone <= out
        invariant Valid() && current.state == Active && Retired(out) && current == Running(old(current), selected, i)
        invariant forall k :: 0 <= k < i ==> selected[k] !in gone
        invariant forall k :: 0 <= k < i && Ends(steps[k]) ==>
          Running(old(current), selected, k) == root || Running(old(current), selected, k) in out
        invariant forall k, l :: 0 <= k <= l < i && Ends(steps[k]) && Running(old(current), selected, k) != root ==>
          selected[l] != Running(old(current), selected, k)
      {
        ghost var was := out;
        if Ends(steps[i]) && current != root { out := out + {current}; }
        ghost var before := selected;
        match steps[i] {
          case Exit => ExitDomain(was);
          case Fault => Trap(was);
          case Suspend(cmd, ret) => SuspendDomain(cmd, ret, was);
          case Pass(event) => PassEvent(event, was);
          case Schedule => Reschedule(was);
          case Events(d, v) => Events(d, v, was);
        }
        selected := selected + [current];
        i := i + 1;
        assert forall k :: 0 <= k < i ==> Running(old(current), selected, k) == Running(old(current), before, k);
      }
    }

    method InsertBefore(node: Domain, p1: Domain, ghost k: nat)
      requires Chain() && node !in list && k < |list| && p1 == list[k]
      modifies this`head, this`list, node, set d | d in list
      ensures Chain() && list == old(list)[..k] + [node] + old(list)[k..]
    {
      ghost var l := list;
      ghost var m := l[..k] + [node] + l[k..];
      assert Placed(l, k);
      node.next := p1;
      node.prev := p1.prev;
      if p1.prev != null {
        p1.prev.next := node;
      }
      p1.prev := node;
      if head == p1 {
        head := node;
      }
      list := m;
      forall j | 0 <= j < |m| ensures Placed(m, j) {
        ghost var i := if j < k then j else j - 1;
        assert j != k ==> m[j] == l[i] && old(Placed(l, i));
      }
    }

    /** `p1` is the last of the list, so there is no next domain to be linked back. */
    method InsertAfter(node: Domain, p1: Domain)
      requires Chain() && node !in list && list != [] && p1 == list[|list| - 1]
      modifies this`list, node, set d | d in list
      ensures Chain() && list == old(list) + [node]
    {
      ghost var l := list;
      ghost var m := l + [node];
      assert Placed(l, |l| - 1);
      node.prev := p1;
      node.next := p1.next;
      p1.next := node;
      list := m;
      forall j | 0 <= j < |m| ensures Placed(m, j) {
        assert j < |l| ==> m[j] == l[j] && old(Placed(l, j));
      }
    }

    method RemoveDomain(node: Domain)
      requires Chain() && node in list
      modifies this`head, this`list, set d | d in list
      ensures Chain() && Ranked(list) == Without(old(Ranked(list)), node)
      ensures old(Valid()) && node != root && node != current ==> Valid()
    {
      ghost var l := list;
      ghost var k :| 0 <= k < |l| && l[k] == node;
      ghost var m := l[..k] + l[k + 1..];
      assert Placed(l, k);
      if head == node {
        head := node.next;
      }
      if node.prev != null {
        node.prev.next := node.next;
      }
      if node.next != null {
        node.next.prev := node.prev;
      }
      list := m;
      forall j | 0 <= j < |m| ensures Placed(m, j) {
        ghost var i := if j < k then j else j + 1;
        assert m[j] == l[i] && old(Placed(l, i));
      }
      RankedRemoval(l, k);
      if old(Valid()) {
        WithoutSorted(Ranked(l), node);
      }
    }
  }

  lemma RankedRemoval(l: seq<Domain>, k: nat)
    requires k < |l| && forall a :: 0 <= a < k ==> l[a] != l[k]
    ensures Ranked(l[..k] + l[k + 1..]) == Without(Ranked(l), l[k])
  {
    var e := Entry(l[k].priority, l[k]);
    WithoutAt(Ranked(l[..k]), e, Ranked(l[k + 1..]));
    assert Ranked(l) == Ranked(l[..k]) + [e] + Ranked(l[k + 1..]);
    assert Ranked(l[..k] + l[k + 1..]) == Ranked(l[..k]) + Ranked(l[k + 1..]);
  }

  lemma RankedInsertion(l: seq<Domain>, k: nat, d: Domain)
    requires k <= |l| && forall j :: 0 <= j < k ==> l[j].priority <= d.priority
    requires k < |l| ==> d.priority < l[k].priority
    ensures Ranked(l[..k] + [d] + l[k..]) == InsertTail(Ranked(l), Entry(d.priority, d))
  {
    var e := Entry(d.priority, d);
    var a, b := Ranked(l[..k]), Ranked(l[k..]);
    assert b != [] ==> b[0] == Entry(l[k].priority, l[k]);
    InsertTailAt(a, e, b);
    assert Ranked(l) == a + b;
    assert Ranked(l[..k] + [d] + l[k..]) == a + [e] + b;
  }
}
