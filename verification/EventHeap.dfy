/**
 The heap of pkg/instrumentors/utils/priority_queue.go: a slice of items that know their own position,
 kept in heap order by the algorithms of Go's container/heap package.
 */
module EventHeap {
  import opened Machine

  /** An event waiting for dispatch, as a value. */
  datatype Event = Event(value: int, iType: string, arriveAt: u64, priority: u64)

  class Item {
    const value: int
    const iType: string
    const arriveAt: u64
    const priority: u64
    var index: int

    constructor (value: int, iType: string, arriveAt: u64, priority: u64)
      ensures Evt() == Event(value, iType, arriveAt, priority) && index == 0
    {
      this.value, this.iType, this.arriveAt, this.priority := value, iType, arriveAt, priority;
      index := 0;
    }

    function Evt(): Event {
      Event(value, iType, arriveAt, priority)
    }
  }

  /** The waiting events in slice order. */
  ghost function Events(q: seq<Item>): (r: seq<Event>)
    ensures |r| == |q|
  {
    seq(|q|, i requires 0 <= i < |q| => q[i].Evt())
  }

  /** Every item knows its position; in particular no item occurs twice. */
  ghost predicate Indexed(q: seq<Item>)
    reads q
  {
    forall i :: 0 <= i < |q| ==> q[i].index == i
  }

  function Parent(i: int): int
    requires i > 0
  {
    (i - 1) / 2
  }

  /** Parents come before their children, among the first n items and with the pairs above `child` exempt. */
  ghost predicate OrderedExcept(q: seq<Item>, n: nat, child: int)
    requires n <= |q|
  {
    forall i :: 0 < i < n && i != child ==> q[Parent(i)].priority <= q[i].priority
  }

  /** The children of `mid` come after its parent. */
  ghost predicate Bridged(q: seq<Item>, n: nat, mid: int)
    requires n <= |q|
  {
    forall i :: 0 < i < n && Parent(i) == mid && mid > 0 ==> q[Parent(mid)].priority <= q[i].priority
  }

  ghost predicate HeapOrder(q: seq<Item>) {
    OrderedExcept(q, |q|, 0)
  }

  /** Parents come before their children among the first n items, except where the parent is `mid`. */
  ghost predicate OrderedBelow(q: seq<Item>, n: nat, mid: int)
    requires n <= |q|
  {
    forall i :: 0 < i < n && Parent(i) != mid ==> q[Parent(i)].priority <= q[i].priority
  }

  function Swapped(q: seq<Item>, i: nat, j: nat): (r: seq<Item>)
    requires i < |q| && j < |q|
    ensures |r| == |q|
  {
    q[i := q[j]][j := q[i]]
  }

  lemma UpStep(q: seq<Item>, n: nat, j: nat)
    requires 0 < j < n <= |q| && q[j].priority < q[Parent(j)].priority
    requires OrderedExcept(q, n, j) && Bridged(q, n, j)
    ensures OrderedExcept(Swapped(q, Parent(j), j), n, Parent(j)) && Bridged(Swapped(q, Parent(j), j), n, Parent(j))
  {
    var p, r := Parent(j), Swapped(q, Parent(j), j);
    forall k | 0 < k < n && k != p
      ensures r[Parent(k)].priority <= r[k].priority
    {
      assert k != j ==> q[Parent(k)].priority <= q[k].priority;
    }
  }

  lemma UpDone(q: seq<Item>, n: nat, j: nat)
    requires j < n <= |q| && (j == 0 || q[Parent(j)].priority <= q[j].priority)
    requires OrderedExcept(q, n, j)
    ensures OrderedExcept(q, n, 0)
  {
  }

  lemma DownStep(q: seq<Item>, n: nat, i: nat, j: nat)
    requires 0 < j < n <= |q| && Parent(j) == i && q[j].priority < q[i].priority
    requires forall k :: 0 < k < n && Parent(k) == i ==> q[j].priority <= q[k].priority
    requires OrderedBelow(q, n, i) && Bridged(q, n, i)
    ensures OrderedBelow(Swapped(q, i, j), n, j) && Bridged(Swapped(q, i, j), n, j)
  {
    var r := Swapped(q, i, j);
    forall k | 0 < k < n && Parent(k) != j
      ensures r[Parent(k)].priority <= r[k].priority
    {
      assert Parent(k) != i ==> q[Parent(k)].priority <= q[k].priority;
    }
    forall k | 0 < k < n && Parent(k) == j
      ensures r[i].priority <= r[k].priority
    {
      assert q[j].priority <= q[k].priority;
    }
  }

  lemma DownDone(q: seq<Item>, n: nat, i: nat)
    requires n <= |q| && OrderedBelow(q, n, i)
    requires forall k :: 0 < k < n && Parent(k) == i ==> q[i].priority <= q[k].priority
    ensures OrderedExcept(q, n, 0)
  {
  }

  /** The children of i sit at 2i + 1 and 2i + 2. */
  lemma Children(i: nat, k: int)
    requires k > 0
    ensures Parent(k) == i <==> k == 2 * i + 1 || k == 2 * i + 2
  {
  }

  /** The root of a heap comes before everything else. */
  lemma {:induction false} RootIsLeast(q: seq<Item>, i: nat)
    requires HeapOrder(q) && i < |q|
    ensures q[0].priority <= q[i].priority
  {
    if i > 0 {
      RootIsLeast(q, Parent(i));
    }
  }

  lemma SwapKeepsEvents(q: seq<Item>, i: nat, j: nat)
    requires i < |q| && j < |q|
    ensures multiset(Events(Swapped(q, i, j))) == multiset(Events(q))
  {
    var e := Events(q);
    assert Events(Swapped(q, i, j)) == e[i := e[j]][j := e[i]];
  }

  class PriorityQueue {
    var items: seq<Item>

    constructor ()
      ensures items == []
    {
      items := [];
    }

    function Len(): nat
      reads this
    {
      |items|
    }

    predicate Less(i: nat, j: nat)
      requires i < |items| && j < |items|
      reads this
    {
      items[i].priority < items[j].priority
    }

    method Swap(i: nat, j: nat)
      requires i < |items| && j < |items|
      modifies this, items[i], items[j]
      ensures items == Swapped(old(items), i, j)
      ensures old(Indexed(items)) ==> Indexed(items)
      ensures multiset(Events(items)) == multiset(Events(old(items)))
      ensures forall x <- items :: x in old(items)
    {
      SwapKeepsEvents(items, i, j);
      items := items[i := items[j]][j := items[i]];
      items[i].index := i;
      items[j].index := j;
    }

    /** PriorityQueue.Push: append, without restoring the heap order. */
    method Append(item: Item)
      requires item !in items
      modifies this, item
      ensures items == old(items) + [item]
      ensures old(Indexed(items)) ==> Indexed(items)
    {
      var n := |items|;
      item.index := n;
      items := items + [item];
    }

    /** PriorityQueue.Pop: take the last item off. */
    method TakeLast() returns (item: Item)
      requires |items| > 0 && Indexed(items)
      modifies this, items[|items| - 1]
      ensures old(items) == items + [item] && item.index == -1 && Indexed(items)
    {
      var n := |items|;
      item := items[n - 1];
      item.index := -1;
      items := items[..n - 1];
    }

    /** container/heap's up. */
    method Up(start: nat)
      requires start < |items| && Indexed(items)
      requires OrderedExcept(items, |items|, start) && Bridged(items, |items|, start)
      modifies this, items
      ensures Indexed(items) && HeapOrder(items)
      ensures multiset(Events(items)) == old(multiset(Events(items)))
      ensures forall x <- items :: x in old(items)
    {
      hide OrderedExcept, Bridged, Events;
      var j := start;
      while true
        invariant 0 <= j < |items| && Indexed(items)
        invariant OrderedExcept(items, |items|, j) && Bridged(items, |items|, j)
        invariant multiset(Events(items)) == old(multiset(Events(items)))
        invariant forall x <- items :: x in old(items)
        decreases j
      {
        var i := if j == 0 then 0 else (j - 1) / 2;
        if i == j || !Less(j, i) {
          break;
        }
        UpStep(items, |items|, j);
        assert items[i] in items && items[j] in items;
        Swap(i, j);
        j := i;
      }
      UpDone(items, |items|, j);
    }

    /** container/heap's down on the first n items. */
    method Down(start: nat, n: nat)
      requires start <= n <= |items| && Indexed(items)
      requires OrderedBelow(items, n, start) && Bridged(items, n, start)
      modifies this, items
      ensures |items| == old(|items|) && forall k :: n <= k < |items| ==> items[k] == old(items)[k]
      ensures Indexed(items) && OrderedExcept(items, n, 0)
      ensures multiset(Events(items)) == old(multiset(Events(items)))
      ensures forall x <- items :: x in old(items)
    {
      hide OrderedExcept, OrderedBelow, Bridged, Events;
      var i := start;
      while true
        invariant 0 <= i <= n <= |items| == old(|items|) && Indexed(items)
        invariant forall k :: n <= k < |items| ==> items[k] == old(items)[k]
        invariant OrderedBelow(items, n, i) && Bridged(items, n, i)
        invariant multiset(Events(items)) == old(multiset(Events(items)))
        invariant forall x <- items :: x in old(items)
        decreases n - i
      {
        var j1 := 2 * i + 1;
        forall k | 0 < k ensures Parent(k) == i <==> k == j1 || k == j1 + 1 {
          Children(i, k);
        }
        if j1 >= n {
          break;
        }
        var j := j1;
        var j2 := j1 + 1;
        if j2 < n && Less(j2, j1) {
          j := j2;
        }
        if !Less(j, i) {
          break;
        }
        DownStep(items, n, i, j);
        assert items[i] in items && items[j] in items;
        Swap(i, j);
        i := j;
      }
      DownDone(items, n, i);
    }

    /** heap.Push */
    method HeapPush(item: Item)
      requires Indexed(items) && HeapOrder(items) && item !in items
      modifies this, items, item
      ensures Indexed(items) && HeapOrder(items)
      ensures multiset(Events(items)) == old(multiset(Events(items))) + multiset{item.Evt()}
      ensures forall x <- items :: x in old(items) || x == item
    {
      Append(item);
      assert Events(items) == Events(old(items)) + [item.Evt()];
      Up(|items| - 1);
    }

    /** heap.Pop */
    method HeapPop() returns (item: Item)
      requires Indexed(items) && HeapOrder(items) && |items| > 0
      modifies this, items
      ensures Indexed(items) && HeapOrder(items) && item !in items
      ensures item in old(items) && forall x <- items :: x in old(items)
      ensures old(multiset(Events(items))) == multiset(Events(items)) + multiset{item.Evt()}
      ensures forall x <- old(items) :: item.priority <= x.priority
    {
      var n := |items| - 1;
      forall i | 0 <= i < |items| ensures items[0].priority <= items[i].priority {
        RootIsLeast(items, i);
      }
      SwapToEnd(items);
      Swap(0, n);
      ghost var swapped := items;
      Down(0, n);
      ghost var full := items;
      assert full[n] == swapped[n] == old(items)[0];
      item := TakeLast();
      assert Events(full) == Events(items) + [item.Evt()];
      assert forall x <- items :: x in full;
    }
  }

  /** With the root moved to the end, only the new root may be out of order among the others. */
  lemma SwapToEnd(q: seq<Item>)
    requires HeapOrder(q) && |q| > 0
    ensures var n, r := |q| - 1, Swapped(q, 0, |q| - 1);
            OrderedBelow(r, n, 0) && Bridged(r, n, 0)
  {
  }
}
