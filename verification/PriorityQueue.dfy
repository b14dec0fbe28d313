/**
  The queue of delayed downloads: a slice of item pointers kept in heap order,
  each item knowing its own position. The heap operations of Go's
  container/heap are written out behind their documented contract.
 */
module PriorityQueues {

  class Item<T> {
    var value: T
    var priority: int
    var index: int

    constructor (value: T, priority: int)
      ensures this.value == value && this.priority == priority
    {
      this.value, this.priority, this.index := value, priority, -1;
    }
  }

  function Parent(k: nat): (p: nat)
    requires k > 0
    ensures p < k
  {
    (k - 1) / 2
  }

  /** Among the first n keys none is smaller than its parent's. */
  ghost predicate HeapOrdered(ks: seq<int>, n: nat)
    requires n <= |ks|
  {
    forall k {:trigger Parent(k)} :: 0 < k < n ==> ks[Parent(k)] <= ks[k]
  }

  /** Heap order everywhere but between position i and its parent; i's children respect that parent. */
  ghost predicate OrderedButUp(ks: seq<int>, n: nat, i: nat)
    requires n <= |ks|
  {
    && (forall k {:trigger Parent(k)} :: 0 < k < n && k != i ==> ks[Parent(k)] <= ks[k])
    && (forall k {:trigger Parent(k)} :: 0 < k < n && 0 < i < n && Parent(k) == i ==> ks[Parent(i)] <= ks[k])
  }

  /** Heap order everywhere but between i and its children, and, while i is the start, between i and its parent. */
  ghost predicate OrderedButDown(ks: seq<int>, n: nat, i: nat, start: nat)
    requires n <= |ks|
  {
    && (forall k {:trigger Parent(k)} :: 0 < k < n && Parent(k) != i && !(i == start && k == i) ==>
          ks[Parent(k)] <= ks[k])
    && (forall k {:trigger Parent(k)} :: 0 < k < n && 0 < i < n && Parent(k) == i ==> ks[Parent(i)] <= ks[k])
  }

  lemma {:induction false} RootIsLeast(ks: seq<int>, k: nat)
    requires HeapOrdered(ks, |ks|) && k < |ks|
    ensures ks[0] <= ks[k]
    decreases k
  {
    if k > 0 {
      RootIsLeast(ks, Parent(k));
    }
  }

  function SwapAt<X>(s: seq<X>, i: nat, j: nat): (t: seq<X>)
    requires i < |s| && j < |s|
    ensures |t| == |s| && multiset(t) == multiset(s)
    ensures t[i] == s[j] && t[j] == s[i]
    ensures forall k :: 0 <= k < |s| && k != i && k != j ==> t[k] == s[k]
  {
    s[i := s[j]][j := s[i]]
  }

  lemma SwapUp(ks: seq<int>, i: nat)
    requires OrderedButUp(ks, |ks|, i) && 0 < i < |ks| && ks[i] < ks[Parent(i)]
    ensures OrderedButUp(SwapAt(ks, Parent(i), i), |ks|, Parent(i))
  {
    var p := Parent(i);
    var ls := SwapAt(ks, p, i);
    forall k | 0 < k < |ls| && 0 < p < |ls| && Parent(k) == p
      ensures ls[Parent(p)] <= ls[k]
    {
      assert ks[Parent(p)] <= ks[p];
    }
  }

  /** j is the child of i that the descent compares with. */
  predicate IsLeastChild(ks: seq<int>, n: nat, i: nat, j: nat)
    requires n <= |ks|
  {
    var left, right := 2 * i + 1, 2 * i + 2;
    j < n && j == if right < n && ks[right] < ks[left] then right else left
  }

  lemma SwapDown(ks: seq<int>, n: nat, i: nat, j: nat, start: nat)
    requires n <= |ks| && OrderedButDown(ks, n, i, start) && start <= i < n
    requires IsLeastChild(ks, n, i, j) && ks[j] < ks[i]
    ensures OrderedButDown(SwapAt(ks, i, j), n, j, start)
  {
  }

  /** Exchanging the root with the last key leaves only the root out of order among the others. */
  lemma SwapLast(ks: seq<int>)
    requires ks != [] && HeapOrdered(ks, |ks|)
    ensures OrderedButDown(SwapAt(ks, 0, |ks| - 1), |ks| - 1, 0, 0)
  {
  }

  /** Where the descent stops, the position is in order with its children. */
  lemma StopDown(ks: seq<int>, n: nat, i: nat, start: nat, j: nat)
    requires n <= |ks| && OrderedButDown(ks, n, i, start) && start <= i < n
    requires 2 * i + 1 >= n || (IsLeastChild(ks, n, i, j) && ks[i] <= ks[j])
    ensures i > start ==> HeapOrdered(ks, n)
    ensures i == start ==> OrderedButUp(ks, n, start)
  {
    forall k | 0 < k < n && Parent(k) == i
      ensures ks[i] <= ks[k]
    {
      assert k == 2 * i + 1 || k == 2 * i + 2;
    }
  }

  /** With nothing above the root, order but for the root's parent is order. */
  lemma UpAtRoot(ks: seq<int>, n: nat)
    requires n <= |ks|
    ensures OrderedButUp(ks, n, 0) ==> HeapOrdered(ks, n)
  {
  }

  lemma PrefixOrdered(ks: seq<int>, n: nat)
    requires n <= |ks|
    ensures HeapOrdered(ks, n) ==> HeapOrdered(ks[..n], n)
    ensures n == 0 ==> HeapOrdered(ks[..n], n)
  {
  }

  lemma CutLast<X>(s: seq<X>)
    requires s != []
    ensures multiset(s) == multiset(s[..|s| - 1]) + multiset{s[|s| - 1]}
  {
    assert s == s[..|s| - 1] + [s[|s| - 1]];
  }

  class PriorityQueue<T> {
    var items: seq<Item<T>>

    constructor ()
      ensures items == []
    {
      items := [];
    }

    ghost function Keys(): (ks: seq<int>)
      reads this, items
      ensures |ks| == |items|
      ensures forall i :: 0 <= i < |items| ==> ks[i] == items[i].priority
    {
      seq(|items|, i requires 0 <= i < |items| reads this, items => items[i].priority)
    }

    /** Every item knows where it is; so no item occurs twice. */
    ghost predicate Indexed()
      reads this, items
    {
      forall i :: 0 <= i < |items| ==> items[i].index == i
    }

    ghost predicate Valid()
      reads this, items
    {
      Indexed() && HeapOrdered(Keys(), |items|)
    }

    predicate Less(i: nat, j: nat)
      requires i < |items| && j < |items|
      reads this, items
    {
      items[i].priority < items[j].priority
    }

    /** The item a consumer looks at: no queued item has a smaller priority. */
    function Top(): (top: Item<T>)
      requires Valid() && items != []
      reads this, items
      ensures top in items
      ensures forall x :: x in items ==> top.priority <= x.priority
    {
      assert forall x :: x in items ==> items[0].priority <= x.priority by {
        forall x | x in items
          ensures items[0].priority <= x.priority
        {
          var k :| 0 <= k < |items| && items[k] == x;
          RootIsLeast(Keys(), k);
        }
      }
      items[0]
    }

    method Swap(i: nat, j: nat)
      requires Indexed() && i < |items| && j < |items|
      modifies this, {items[i], items[j]}`index
      ensures Indexed()
      ensures items == SwapAt(old(items), i, j) && Keys() == SwapAt(old(Keys()), i, j)
    {
      items := SwapAt(items, i, j);
      items[i].index := i;
      items[j].index := j;
    }

    /** container/heap's up. */
    method Up(start: nat)
      requires Indexed() && start < |items| && OrderedButUp(Keys(), |items|, start)
      modifies this, items`index
      ensures Valid() && multiset(items) == multiset(old(items))
      ensures items[0] == if Keys()[0] < old(Keys())[0] then old(items)[start] else old(items)[0]
    {
      var j: nat := start;
      ghost var ks := Keys();
      while true
        invariant j <= start && |items| == |old(items)|
        invariant Indexed() && OrderedButUp(Keys(), |items|, j)
        invariant multiset(items) == multiset(old(items))
        invariant items[j] == old(items)[start]
        invariant j > 0 ==> items[0] == old(items)[0]
        invariant j == 0 && start > 0 ==> Keys()[0] < ks[0]
        decreases j
      {
        var i: nat := if j == 0 then 0 else (j - 1) / 2;
        if i == j || !Less(j, i) {
          break;
        }
        assert items[i] in multiset(items) && items[j] in multiset(items);
        SwapUp(Keys(), j);
        Swap(i, j);
        j := i;
      }
    }

    method LesserChild(i: nat, n: nat) returns (j: nat)
      requires 2 * i + 1 < n <= |items|
      ensures i < j < n && IsLeastChild(Keys(), n, i, j)
    {
      j := 2 * i + 1;
      if j + 1 < n && Less(j + 1, j) {
        j := j + 1;
      }
    }

    method MoveDown(i: nat, j: nat, n: nat, ghost start: nat)
      requires Indexed() && start <= i < n <= |items| && OrderedButDown(Keys(), n, i, start)
      requires IsLeastChild(Keys(), n, i, j) && items[j].priority < items[i].priority
      modifies this, {items[i], items[j]}`index
      ensures |items| == |old(items)| && multiset(items) == multiset(old(items))
      ensures j < n && Indexed() && OrderedButDown(Keys(), n, j, start)
      ensures forall k :: n <= k < |items| ==> items[k] == old(items)[k]
    {
      hide OrderedButDown;
      SwapDown(Keys(), n, i, j, start);
      Swap(i, j);
    }

    /** container/heap's down, over the first n positions; says whether the item moved. */
    method Down(start: nat, n: nat) returns (moved: bool)
      requires Indexed() && start < n <= |items| && OrderedButDown(Keys(), n, start, start)
      modifies this, items`index
      ensures Indexed() && multiset(items) == multiset(old(items)) && |items| == |old(items)|
      ensures forall k :: n <= k < |items| ==> items[k] == old(items)[k]
      ensures moved ==> HeapOrdered(Keys(), n)
      ensures !moved ==> items == old(items) && OrderedButUp(Keys(), n, start)
    {
      hide OrderedButDown, OrderedButUp, HeapOrdered, IsLeastChild;
      var i: nat := start;
      while true
        invariant start <= i < n <= |items| && |items| == |old(items)|
        invariant Indexed() && OrderedButDown(Keys(), n, i, start)
        invariant multiset(items) == multiset(old(items))
        invariant forall k :: n <= k < |items| ==> items[k] == old(items)[k]
        invariant i == start ==> items == old(items)
        decreases n - i
      {
        var j: nat := 2 * i + 1;
        if j >= n {
          StopDown(Keys(), n, i, start, j);
          break;
        }
        j := LesserChild(i, n);
        if !Less(j, i) {
          StopDown(Keys(), n, i, start, j);
          break;
        }
        assert items[i] in multiset(items) && items[j] in multiset(items);
        MoveDown(i, j, n, start);
        i := j;
      }
      return i > start;
    }

    /** heap.Push. The root changes only for a strictly smaller priority. */
    method HeapPush(x: Item<T>)
      requires Valid() && x !in items
      modifies this, items`index, x`index
      ensures Valid() && multiset(items) == multiset(old(items)) + multiset{x}
      ensures items != []
      ensures Top() == if old(items) == [] || x.priority < old(Keys())[0] then x else old(items)[0]
    {
      var n := |items|;
      ghost var ks := Keys();
      x.index := n;
      items := items + [x];
      assert Keys() == ks + [x.priority];
      assert items[n] == x;
      Up(n);
      assert x in multiset(items);
      assert Top().priority <= x.priority;
    }

    /** The slice's own Pop: cuts off the last item. */
    method CutOff() returns (x: Item<T>)
      requires Indexed() && items != []
      modifies this, {items[|items| - 1]}`index
      ensures var n := |old(items)| - 1;
              x == old(items)[n] && items == old(items)[..n] && Keys() == old(Keys())[..n]
      ensures Indexed() && x.index == -1 && x !in items
    {
      var n: nat := |items| - 1;
      x := items[n];
      assert forall k :: 0 <= k < n ==> items[k].index != x.index;
      items := items[..n];
      x.index := -1;
    }

    /** heap.Pop: the root goes to the end, the rest is put in order, the end is cut off. */
    method HeapPop() returns (x: Item<T>)
      requires Valid() && items != []
      modifies this, items`index
      ensures x == old(items)[0] && x.index == -1
      ensures Valid() && multiset(old(items)) == multiset(items) + multiset{x}
      ensures x !in items
    {
      hide OrderedButDown, HeapOrdered;
      var n: nat := |items| - 1;
      SwapLast(Keys());
      Swap(0, n);
      if n > 0 {
        var moved := Down(0, n);
        UpAtRoot(Keys(), n);
      }
      PrefixOrdered(Keys(), n);
      CutLast(items);
      assert items[n] in multiset(items);
      x := CutOff();
    }

    /** heap.Fix: restores the order after the priority at one position changed. */
    method Fix(i: nat)
      requires Indexed() && i < |items|
      requires OrderedButDown(Keys(), |items|, i, i)
      modifies this, items`index
      ensures Valid() && multiset(items) == multiset(old(items))
    {
      var moved := Down(i, |items|);
      if !moved {
        Up(i);
      }
    }

    /** Changes an item that is in the queue and puts it back in order. */
    method Update(x: Item<T>, value: T, priority: int)
      requires Valid() && x in items
      modifies this, items`index, x
      ensures Valid() && multiset(items) == multiset(old(items))
      ensures x.value == value && x.priority == priority
    {
      ghost var i: nat :| i < |items| && items[i] == x;
      ghost var ks := Keys();
      x.value := value;
      x.priority := priority;
      assert Keys() == ks[i := priority];
      Fix(x.index);
    }
  }
}
