/** A plain stable priority queue: entries in the order in which they will be served. It is the
    specification of PaRTiKle's ready queue. */
module PriorityQueue {

  datatype Entry<T> = Entry(prio: int, item: T)

  /** Behind all entries at least as urgent. */
  function InsertTail<T>(q: seq<Entry<T>>, e: Entry<T>): seq<Entry<T>> {
    if q == [] || q[0].prio > e.prio then [e] + q else [q[0]] + InsertTail(q[1..], e)
  }

  /** Before all entries no more urgent. */
  function InsertHead<T>(q: seq<Entry<T>>, e: Entry<T>): seq<Entry<T>> {
    if q == [] || q[0].prio >= e.prio then [e] + q else [q[0]] + InsertHead(q[1..], e)
  }

  function Without<T(==)>(q: seq<Entry<T>>, x: T): seq<Entry<T>> {
    if q == [] then [] else if q[0].item == x then q[1..] else [q[0]] + Without(q[1..], x)
  }

  lemma {:induction false} InsertTailAt<T>(a: seq<Entry<T>>, e: Entry<T>, b: seq<Entry<T>>)
    requires forall k :: 0 <= k < |a| ==> a[k].prio <= e.prio
    requires b != [] ==> b[0].prio > e.prio
    ensures InsertTail(a + b, e) == a + [e] + b
  {
    if a == [] {
      assert a + b == b;
    } else {
      InsertTailAt(a[1..], e, b);
      assert (a + b)[1..] == a[1..] + b;
      assert a == [a[0]] + a[1..];
    }
  }

  lemma {:induction false} InsertHeadAt<T>(a: seq<Entry<T>>, e: Entry<T>, b: seq<Entry<T>>)
    requires forall k :: 0 <= k < |a| ==> a[k].prio < e.prio
    requires b != [] ==> b[0].prio >= e.prio
    ensures InsertHead(a + b, e) == a + [e] + b
  {
    if a == [] {
      assert a + b == b;
    } else {
      InsertHeadAt(a[1..], e, b);
      assert (a + b)[1..] == a[1..] + b;
      assert a == [a[0]] + a[1..];
    }
  }

  lemma {:induction false} WithoutAt<T>(a: seq<Entry<T>>, e: Entry<T>, b: seq<Entry<T>>)
    requires forall k :: 0 <= k < |a| ==> a[k].item != e.item
    ensures Without(a + [e] + b, e.item) == a + b
  {
    if a == [] {
      assert a + [e] + b == [e] + b;
      assert a + b == b;
    } else {
      WithoutAt(a[1..], e, b);
      assert (a + [e] + b)[1..] == a[1..] + [e] + b;
      assert a + b == [a[0]] + (a[1..] + b);
    }
  }

  lemma {:induction false} WithoutAbsent<T>(q: seq<Entry<T>>, x: T)
    requires forall k :: 0 <= k < |q| ==> q[k].item != x
    ensures Without(q, x) == q
  {
    if q != [] {
      WithoutAbsent(q[1..], x);
    }
  }

  ghost predicate Sorted<T>(q: seq<Entry<T>>) {
    forall i, j :: 0 <= i < j < |q| ==> q[i].prio <= q[j].prio
  }

  /** In a sorted queue the new entry comes right between those at least as urgent and those less
      urgent; no other entries change places, and the queue stays sorted. */
  lemma InsertTailSorted<T>(q: seq<Entry<T>>, e: Entry<T>) returns (k: nat)
    requires Sorted(q)
    ensures k <= |q| && InsertTail(q, e) == q[..k] + [e] + q[k..] && Sorted(InsertTail(q, e))
    ensures forall i :: 0 <= i < |q| ==> (i < k <==> q[i].prio <= e.prio)
  {
    hide InsertTail, Sorted;
    k := Urgent(q, e);
    InsertTailAt(q[..k], e, q[k..]);
    assert q == q[..k] + q[k..];
    SortedAround(q, k, e);
  }

  /** A new head comes right before those no more urgent. */
  lemma InsertHeadSorted<T>(q: seq<Entry<T>>, e: Entry<T>) returns (k: nat)
    requires Sorted(q)
    ensures k <= |q| && InsertHead(q, e) == q[..k] + [e] + q[k..] && Sorted(InsertHead(q, e))
    ensures forall i :: 0 <= i < |q| ==> (i < k <==> q[i].prio < e.prio)
  {
    hide InsertHead, Sorted;
    k := Urgent(q, Entry(e.prio - 1, e.item));
    InsertHeadAt(q[..k], e, q[k..]);
    assert q == q[..k] + q[k..];
    SortedBefore(q, k, e);
  }

  lemma SortedBefore<T>(q: seq<Entry<T>>, k: nat, e: Entry<T>)
    requires Sorted(q) && k <= |q|
    requires forall i :: 0 <= i < |q| ==> (i < k <==> q[i].prio < e.prio)
    ensures Sorted(q[..k] + [e] + q[k..])
  {
    var r := q[..k] + [e] + q[k..];
    forall i, j | 0 <= i < j < |r| ensures r[i].prio <= r[j].prio {
      assert r[i] == if i < k then q[i] else if i == k then e else q[i - 1];
      assert r[j] == if j < k then q[j] else if j == k then e else q[j - 1];
    }
  }

  lemma SortedAround<T>(q: seq<Entry<T>>, k: nat, e: Entry<T>)
    requires Sorted(q) && k <= |q|
    requires forall i :: 0 <= i < |q| ==> (i < k <==> q[i].prio <= e.prio)
    ensures Sorted(q[..k] + [e] + q[k..])
  {
    var r := q[..k] + [e] + q[k..];
    forall i, j | 0 <= i < j < |r| ensures r[i].prio <= r[j].prio {
      assert r[i] == if i < k then q[i] else if i == k then e else q[i - 1];
      assert r[j] == if j < k then q[j] else if j == k then e else q[j - 1];
    }
  }

  lemma {:induction false} Urgent<T>(q: seq<Entry<T>>, e: Entry<T>) returns (k: nat)
    requires Sorted(q)
    ensures k <= |q| && forall i :: 0 <= i < |q| ==> (i < k <==> q[i].prio <= e.prio)
  {
    k := 0;
    if q != [] && q[|q| - 1].prio <= e.prio {
      k := |q|;
    } else if q != [] {
      k := Urgent(q[..|q| - 1], e);
      forall i | 0 <= i < |q| ensures i < k <==> q[i].prio <= e.prio {
        assert i < |q| - 1 ==> q[..|q| - 1][i] == q[i];
      }
    }
  }

  lemma {:induction false} WithoutSorted<T>(q: seq<Entry<T>>, x: T)
    requires Sorted(q)
    ensures Sorted(Without(q, x)) && forall e :: e in Without(q, x) ==> e in q
  {
    if q != [] && q[0].item != x {
      WithoutSorted(q[1..], x);
      forall e | e in Without(q[1..], x) ensures e in q && q[0].prio <= e.prio {
        assert e in q[1..];
      }
    }
  }

  // ---- stability ----

  /** Items stand for arrival numbers: the queue is in order of priority, and of arrival within a
      priority. */
  ghost predicate Stable(q: seq<Entry<nat>>) {
    forall i, j :: 0 <= i < j < |q| ==> Before(q[i], q[j])
  }

  predicate Before(a: Entry<nat>, b: Entry<nat>) {
    a.prio < b.prio || (a.prio == b.prio && a.item < b.item)
  }

  lemma StableCons(x: Entry<nat>, rest: seq<Entry<nat>>)
    requires Stable(rest) && forall y :: y in rest ==> Before(x, y)
    ensures Stable([x] + rest)
  {
  }

  lemma {:induction false} TailStable(q: seq<Entry<nat>>, e: Entry<nat>)
    requires Stable(q) && forall k :: 0 <= k < |q| ==> q[k].item < e.item
    ensures Stable(InsertTail(q, e))
    ensures multiset(InsertTail(q, e)) == multiset(q) + multiset{e}
  {
    if q == [] || q[0].prio > e.prio {
      StableCons(e, q);
    } else {
      hide Stable;
      var rest := InsertTail(q[1..], e);
      StableTail(q);
      TailStable(q[1..], e);
      assert q == [q[0]] + q[1..];
      forall x | x in rest ensures Before(q[0], x) {
        assert x in multiset(rest);
        assert x in q[1..] || x == e;
      }
      StableCons(q[0], rest);
    }
  }

  lemma StableTail(q: seq<Entry<nat>>)
    requires Stable(q) && q != []
    ensures Stable(q[1..]) && forall y :: y in q[1..] ==> Before(q[0], y)
  {
  }
}
