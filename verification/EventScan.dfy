/** What one scan of XtratuM's scheduler computes over the domain list: pending events move down past
    domains that do not intercept them, and the first runnable domain is selected. */
module EventScan {

  datatype State = Active | Suspended | Finished

  datatype View = View(state: State, enabled: bool, pending: set<nat>, masked: set<nat>, intercepted: set<nat>)

  predicate Runnable(v: View) {
    v.state.Active? || (v.state.Suspended? && v.enabled && v.pending - v.masked != {})
  }

  /** An event `e` pending at the domain is handed on. */
  predicate Passes(v: View, e: nat) {
    v.state.Finished? || e !in v.intercepted
  }

  function Forwarded(v: View): set<nat> {
    if v.state.Finished? then v.pending else v.pending - v.intercepted
  }

  function Kept(v: View): set<nat> {
    if v.state.Finished? then {} else v.pending * v.intercepted
  }

  /** The first domain of a list after its turn; the last domain keeps everything. */
  function First(vs: seq<View>): View
    requires vs != []
  {
    if |vs| > 1 then vs[0].(pending := Kept(vs[0])) else vs[0]
  }

  /** The rest of the list after the turn of the first domain. */
  function Rest(vs: seq<View>): (r: seq<View>)
    requires vs != []
    ensures |r| == |vs| - 1
  {
    if |vs| > 1 then [vs[1].(pending := vs[1].pending + Forwarded(vs[0]))] + vs[2..] else []
  }

  /** The list after the scan, and the position selected, or the length of the list if none is. */
  function Scan(vs: seq<View>): (r: (seq<View>, nat))
    ensures |r.0| == |vs| && r.1 <= |vs|
    decreases |vs|
  {
    if vs == [] then ([], 0)
    else if Runnable(First(vs)) then ([First(vs)] + Rest(vs), 0)
    else
      var (after, k) := Scan(Rest(vs));
      ([First(vs)] + after, k + 1)
  }

  /** A scan changes nothing but pending events. */
  lemma {:induction false} ScanFields(vs: seq<View>)
    ensures forall k :: 0 <= k < |vs| ==> Scan(vs).0[k] == vs[k].(pending := Scan(vs).0[k].pending)
    decreases |vs|
  {
    hide Runnable;
    if vs != [] {
      var rest := Rest(vs);
      ScanFields(rest);
      var after := if Runnable(First(vs)) then rest else Scan(rest).0;
      forall k | 0 < k < |vs| ensures after[k - 1] == vs[k].(pending := after[k - 1].pending) {
        assert rest[k - 1] == vs[k].(pending := rest[k - 1].pending);
      }
    }
  }

  /** The scan ends at the first domain that is runnable with the events it then has. */
  lemma {:induction false} ScanEnds(vs: seq<View>)
    ensures var (after, i) := Scan(vs);
      (i < |vs| ==> Runnable(after[i])) && forall k :: 0 <= k < i ==> !Runnable(after[k])
    decreases |vs|
  {
    hide Runnable, First, Rest;
    if vs != [] && !Runnable(First(vs)) {
      ScanEnds(Rest(vs));
    }
  }

  /** The selected domain is the first that is active, or suspended with its events flag set and an
      event it has after the scan and does not mask; the scan changes nothing but pending events. */
  lemma ScanSelects(vs: seq<View>)
    ensures var (after, i) := Scan(vs);
      && (i < |vs| && vs[i].state != Active ==>
        vs[i].state == Suspended && vs[i].enabled && after[i].pending - vs[i].masked != {})
      && (forall k :: 0 <= k < i ==> vs[k].state != Active)
      && (forall k :: 0 <= k < i && vs[k].state == Suspended && vs[k].enabled ==> after[k].pending - vs[k].masked == {})
      && (forall k :: 0 <= k < |vs| ==> after[k] == vs[k].(pending := after[k].pending))
  {
    hide Scan;
    ScanFields(vs);
    ScanEnds(vs);
    var (after, i) := Scan(vs);
    forall k | 0 <= k < |vs| ensures Runnable(after[k]) <==>
      vs[k].state == Active || (vs[k].state == Suspended && vs[k].enabled && after[k].pending - vs[k].masked != {})
    {
    }
  }

  /** Every domain from `m` on and above `k` hands the event `e` on: it has finished, or does not
      intercept it. */
  ghost predicate Falls(vs: seq<View>, e: nat, m: nat, k: nat) {
    m <= k < |vs| && forall x :: m <= x < k ==> vs[x].state == Finished || e !in vs[x].intercepted
  }

  /** The event `e` gets as far as `k`. */
  ghost predicate Arrives(vs: seq<View>, e: nat, k: nat) {
    exists m: nat :: Falls(vs, e, m, k) && e in vs[m].pending
  }

  lemma FallsFurther(vs: seq<View>, e: nat, m: nat, k: nat)
    requires vs != [] && Falls(Rest(vs), e, m, k)
    ensures Falls(vs, e, m + 1, k + 1)
    ensures Passes(vs[0], e) && m == 0 ==> Falls(vs, e, 0, k + 1)
  {
    forall x | 1 <= x < |vs| ensures Passes(vs[x], e) <==> Passes(Rest(vs)[x - 1], e) {
    }
    forall x | m + 1 <= x < k + 1 ensures Passes(vs[x], e) {
      assert Passes(Rest(vs)[x - 1], e);
    }
  }

  lemma ArrivesLater(vs: seq<View>, e: nat, k: nat)
    requires 0 < k < |vs|
    ensures Arrives(vs, e, k) <==> Arrives(Rest(vs), e, k - 1)
  {
    var rest := Rest(vs);
    if m: nat :| Falls(rest, e, m, k - 1) && e in rest[m].pending {
      FallsFurther(vs, e, m, k - 1);
      assert Falls(vs, e, if m == 0 && e in Forwarded(vs[0]) then 0 else m + 1, k);
    }
    if m: nat :| Falls(vs, e, m, k) && e in vs[m].pending {
      var n := if m == 0 then 0 else m - 1;
      forall x | n <= x < k - 1 ensures rest[x].state == Finished || e !in rest[x].intercepted {
        assert vs[x + 1].state == Finished || e !in vs[x + 1].intercepted;
      }
      assert Falls(rest, e, n, k - 1) && e in rest[n].pending;
    }
  }

  /** Where every event is after the scan. A domain the scan came to, if it is not the last, has kept
      just the events that got to it and that it intercepts, and none if it has finished; the one
      after the domain selected, and the last, have all that got to them; nothing else changed. */
  lemma {:induction false} ScanExact(vs: seq<View>, e: nat, k: nat)
    requires k < |vs|
    ensures var (after, i) := Scan(vs);
      && (k <= i && k + 1 < |vs| ==>
        (e in after[k].pending <==> Arrives(vs, e, k) && vs[k].state != Finished && e in vs[k].intercepted))
      && ((k <= i && k + 1 == |vs|) || k == i + 1 ==> (e in after[k].pending <==> Arrives(vs, e, k)))
      && (k > i + 1 ==> (e in after[k].pending <==> e in vs[k].pending))
    decreases |vs|
  {
    hide Arrives;
    if k == 0 {
      ArrivesFirst(vs, e);
    } else {
      var rest := Rest(vs);
      ArrivesLater(vs, e, k);
      if Runnable(First(vs)) {
        if k == 1 { ArrivesFirst(rest, e); }
      } else {
        ScanExact(rest, e, k - 1);
      }
    }
  }

  lemma ArrivesFirst(vs: seq<View>, e: nat)
    requires vs != []
    ensures Arrives(vs, e, 0) <==> e in vs[0].pending
  {
    assert Falls(vs, e, 0, 0);
  }

  /** No event appears from nowhere: what is pending at `k` afterwards was pending at or above `k`,
      and every domain in between lets it pass. */
  lemma ScanOrigin(vs: seq<View>, e: nat, k: nat) returns (m: nat)
    requires k < |vs| && e in Scan(vs).0[k].pending
    ensures Falls(vs, e, m, k) && e in vs[m].pending
  {
    hide Scan;
    ScanExact(vs, e, k);
    if k > Scan(vs).1 + 1 {
      m := k;
    } else {
      m :| Falls(vs, e, m, k) && e in vs[m].pending;
    }
  }

  /** No event is lost: what was pending at `m` is pending at or below `m` afterwards, and every
      domain in between lets it pass. */
  lemma ScanGoal(vs: seq<View>, e: nat, m: nat) returns (k: nat)
    requires m < |vs| && e in vs[m].pending
    ensures Falls(vs, e, m, k) && e in Scan(vs).0[k].pending
  {
    hide Scan;
    var i := Scan(vs).1;
    k := m;
    while k <= i && k + 1 < |vs| && Passes(vs[k], e)
      invariant m <= k < |vs| && Falls(vs, e, m, k) && (k > i + 1 ==> k == m)
    {
      k := k + 1;
    }
    ScanExact(vs, e, k);
  }

  /** The union of all pending events is what it was. */
  lemma ScanUnion(vs: seq<View>, e: nat)
    ensures (exists m :: 0 <= m < |vs| && e in vs[m].pending) <==>
      (exists k :: 0 <= k < |vs| && e in Scan(vs).0[k].pending)
  {
    if m :| 0 <= m < |vs| && e in vs[m].pending {
      var k := ScanGoal(vs, e, m);
    }
    if k :| 0 <= k < |vs| && e in Scan(vs).0[k].pending {
      var m := ScanOrigin(vs, e, k);
    }
  }

  /** A scan resumed at `i`, with the list as it then is, ends as the whole scan. */
  ghost predicate Resumes(start: seq<View>, now: seq<View>, i: nat) {
    && |now| == |start| && i <= |now|
    && Scan(start).0 == now[..i] + Scan(now[i..]).0 && Scan(start).1 == i + Scan(now[i..]).1
  }

  lemma ResumesStart(vs: seq<View>)
    ensures Resumes(vs, vs, 0)
  {
    assert vs[0..] == vs;
  }

  /** The turn of domain `i`, which is selected. */
  lemma ResumesStop(start: seq<View>, now: seq<View>, i: nat)
    requires Resumes(start, now, i) && i < |now| && Runnable(First(now[i..]))
    ensures Scan(start) == (now[..i] + [First(now[i..])] + Rest(now[i..]), i)
  {
    hide Scan, First, Rest, Runnable;
    var vs := now[i..];
    ScanTurn(vs);
    assert now[..i] + ([First(vs)] + Rest(vs)) == now[..i] + [First(vs)] + Rest(vs);
  }

  /** The turn of domain `i`, which is not. */
  lemma ResumesNext(start: seq<View>, now: seq<View>, i: nat, next: seq<View>)
    requires Resumes(start, now, i) && i < |now| && next == now[..i] + [First(now[i..])] + Rest(now[i..])
    requires !Runnable(First(now[i..]))
    ensures Resumes(start, next, i + 1)
  {
    hide Scan, First, Rest, Runnable;
    var vs := now[i..];
    ScanTurn(vs);
    assert next[..i + 1] == now[..i] + [First(vs)];
    assert next[i + 1..] == Rest(vs);
    assert now[..i] + ([First(vs)] + Scan(Rest(vs)).0) == next[..i + 1] + Scan(Rest(vs)).0;
  }

  lemma ScanTurn(vs: seq<View>)
    requires vs != []
    ensures Runnable(First(vs)) ==> Scan(vs) == ([First(vs)] + Rest(vs), 0)
    ensures !Runnable(First(vs)) ==> Scan(vs) == ([First(vs)] + Scan(Rest(vs)).0, 1 + Scan(Rest(vs)).1)
  {
  }

  lemma ResumesEnd(start: seq<View>, now: seq<View>)
    requires Resumes(start, now, |now|)
    ensures Scan(start) == (now, |now|)
  {
    var rest := now[|now|..];
    assert rest == [] && Scan(rest) == ([], 0);
    assert now[..|now|] + [] == now;
  }
}
