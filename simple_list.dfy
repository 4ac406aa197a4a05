/**
 * A singly-linked list with head, tail and count: O(1) append, positional
 * access by walking the chain, forward enumeration, and an in-place Hoare
 * quicksort that reaches every position by walking and exchanges node data,
 * never links.
 */
module SimpleLists {
  import opened Wrappers
  import opened Ordering

  /** The error GetItem raises for a position outside [0, Count). */
  datatype ListError = OutOfRange

  /** A list item: one value and the link to the next item. */
  class Node<T> {
    var data: T
    var next: Node?<T>

    constructor (param: T)
      ensures data == param && next == null
    {
      data := param;
      next := null;
    }
  }

  /** `n / 2` as C# computes it on `int`: rounded toward zero, not down. */
  function HalfTowardZero(n: int): (h: int)
    ensures n >= 0 ==> 0 <= 2 * h <= n && n - 2 * h <= 1
    ensures n <= 0 ==> n <= 2 * h <= 0 && 2 * h - n <= 1
  {
    if n >= 0 then n / 2 else -((-n) / 2)
  }

  /** The position of the pivot of the range [low, high]: `(low + high) / 2`. */
  function PivotPosition(low: int, high: int): (p: int)
    ensures 0 <= low <= high ==> low <= p <= high
  {
    HalfTowardZero(low + high)
  }

  /** On an empty list the top-level sort asks for the pivot at position 0. */
  lemma EmptyRangePivot()
    ensures PivotPosition(0, 0 - 1) == 0
  {
  }

  class SimpleList<T> {
    var first: Node?<T>
    var last: Node?<T>
    var count: int

    /** The items from `first` on, in chain order. */
    ghost var Nodes: seq<Node<T>>
    /** The values of the items, in chain order. */
    ghost var Contents: seq<T>
    ghost var Repr: set<object>

    /**
     * The chain from `first` passes through Nodes in order and ends at `last`,
     * whose link is null; `count` is its length; the items are distinct.
     */
    ghost predicate Valid()
      reads this, Repr
    {
      && this in Repr
      && count == |Nodes| == |Contents|
      && (forall k :: 0 <= k < |Nodes| ==> Nodes[k] in Repr)
      && (forall k :: 0 <= k < |Nodes| ==> Nodes[k].data == Contents[k])
      && (forall k :: 0 <= k < |Nodes| - 1 ==> Nodes[k].next == Nodes[k + 1])
      && (forall k, l :: 0 <= k < l < |Nodes| ==> Nodes[k] != Nodes[l])
      && (if Nodes == [] then first == null && last == null
          else first == Nodes[0] && last == Nodes[|Nodes| - 1] && last.next == null)
    }

    constructor ()
      ensures Valid() && fresh(Repr)
      ensures Contents == [] && first == null && last == null
    {
      first, last, count := null, null, 0;
      Nodes, Contents := [], [];
      Repr := {this};
    }

    /** Appends `item` at the tail in constant time. */
    method Add(item: T)
      requires Valid()
      modifies Repr
      ensures Valid() && fresh(Repr - old(Repr))
      ensures Contents == old(Contents) + [item]
      ensures Nodes[..|old(Nodes)|] == old(Nodes)
      ensures old(count) == 0 ==> first == last
      ensures old(count) != 0 ==> first == old(first)
    {
      var newItem := new Node(item);
      count := count + 1;
      if last == null {
        first := newItem;
        last := newItem;
      } else {
        last.next := newItem;
        last := newItem;
      }
      Nodes := Nodes + [newItem];
      Contents := Contents + [item];
      Repr := Repr + {newItem};
    }

    /** The item `num` steps down the chain from `first`, or OutOfRange. */
    method GetItem(num: int) returns (r: Result<Node<T>, ListError>)
      requires Valid()
      ensures r.Err? <==> num < 0 || num >= |Contents|
      ensures r.Ok? ==> r.value == Nodes[num] && r.value.data == Contents[num]
    {
      if num < 0 || num >= count {
        return Err(OutOfRange);
      }
      var cur := first;
      var i := 0;
      while i < num
        invariant 0 <= i <= num && cur == Nodes[i]
      {
        cur := cur.next;
        i := i + 1;
      }
      return Ok(cur);
    }

    /** The value at position `num`, or OutOfRange. */
    method Get(num: int) returns (r: Result<T, ListError>)
      requires Valid()
      ensures r.Err? <==> num < 0 || num >= |Contents|
      ensures r.Ok? ==> r.value == Contents[num]
    {
      var item := GetItem(num);
      if item.Err? {
        return Err(item.error);
      }
      return Ok(item.value.data);
    }

    /** GetEnumerator: the values from `first` to the end of the chain, in order. */
    method Enumerate() returns (values: seq<T>)
      requires Valid()
      ensures values == Contents
    {
      values := [];
      var cur := first;
      while cur != null
        invariant |values| <= |Nodes| && values == Contents[..|values|]
        invariant cur == if |values| < |Nodes| then Nodes[|values|] else null
        decreases |Nodes| - |values|
      {
        values := values + [cur.data];
        cur := cur.next;
      }
    }

    /** Exchanges the values at positions i and j; no link and no count changes. */
    method Swap(i: int, j: int)
      requires Valid() && 0 <= i < |Contents| && 0 <= j < |Contents|
      modifies this`Contents, (Nodes[i] as Node<T>)`data, (Nodes[j] as Node<T>)`data
      ensures Valid()
      ensures Contents == old(Contents)[i := old(Contents)[j]][j := old(Contents)[i]]
    {
      var ci := GetItem(i);
      var cj := GetItem(j);
      var temp := ci.value.data;
      ci.value.data := cj.value.data;
      cj.value.data := temp;
      Contents := Contents[i := Contents[j]][j := Contents[i]];
    }

    /**
     * The exchange of one partition pass: the values at i and j, which stopped
     * the two scans, trade places, so both sides grow by one position.
     */
    method Exchange(low: int, high: int, i: int, j: int, key: T -> real, ghost kx: real)
      requires Valid() && 0 <= low <= i <= j <= high < |Contents|
      requires forall k :: low <= k < i ==> key(Contents[k]) <= kx
      requires forall k :: j < k <= high ==> key(Contents[k]) >= kx
      requires key(Contents[i]) >= kx && key(Contents[j]) <= kx
      modifies this`Contents, (Nodes[i] as Node<T>)`data, (Nodes[j] as Node<T>)`data
      ensures Valid() && PermutationWithin(Contents, old(Contents), low, high)
      ensures forall k :: low <= k <= i ==> key(Contents[k]) <= kx
      ensures forall k :: j <= k <= high ==> key(Contents[k]) >= kx
    {
      ExchangeStep(Contents, key, low, high, i, j, kx);
      Swap(i, j);
    }

    /**
     * Moves i right past the values
     * below the pivot x; a value not below x at position w stops it in range.
     */
    method ScanUp(from: int, x: T, key: T -> real, ghost w: int) returns (i: int)
      requires Valid() && 0 <= from <= w < |Contents| && key(Contents[w]) >= key(x)
      ensures from <= i <= w && key(Contents[i]) >= key(x)
      ensures forall k :: from <= k < i ==> key(Contents[k]) < key(x)
    {
      i := from;
      var ri := Get(i);
      while CompareTo(key, ri.value, x) < 0
        invariant from <= i <= w && ri == Ok(Contents[i])
        invariant forall k :: from <= k < i ==> key(Contents[k]) < key(x)
        decreases w - i
      {
        i := i + 1;
        ri := Get(i);
      }
    }

    /**
     * Moves j left past the values
     * above the pivot x; a value not above x at position w stops it in range.
     */
    method ScanDown(from: int, x: T, key: T -> real, ghost w: int) returns (j: int)
      requires Valid() && 0 <= w <= from < |Contents| && key(Contents[w]) <= key(x)
      ensures w <= j <= from && key(Contents[j]) <= key(x)
      ensures forall k :: j < k <= from ==> key(Contents[k]) > key(x)
    {
      j := from;
      var rj := Get(j);
      while CompareTo(key, rj.value, x) > 0
        invariant w <= j <= from && rj == Ok(Contents[j])
        invariant forall k :: j < k <= from ==> key(Contents[k]) > key(x)
        decreases j - w
      {
        j := j - 1;
        rj := Get(j);
      }
    }

    /**
     * One pass of the do-while body of Sort(low, high): both scans against the
     * pivot x, then the exchange if the cursors have not crossed. The scans
     * stop in range thanks to a value not below x at wi and one not above x at
     * wj; when wi <= wj (the pivot's own position, on the first pass) the
     * cursors cannot cross before the exchange.
     */
    method PartitionPass(low: int, high: int, i0: int, j0: int, x: T, key: T -> real, ghost wi: int, ghost wj: int)
      returns (i: int, j: int)
      requires Valid() && 0 <= low <= i0 <= wi <= high < |Contents| && low <= wj <= j0 <= high
      requires key(Contents[wi]) >= key(x) && key(Contents[wj]) <= key(x)
      requires forall k :: low <= k < i0 ==> key(Contents[k]) <= key(x)
      requires forall k :: j0 < k <= high ==> key(Contents[k]) >= key(x)
      modifies Repr
      ensures Valid() && Nodes == old(Nodes) && Repr == old(Repr)
      ensures PermutationWithin(Contents, old(Contents), low, high)
      ensures i0 <= i <= high + 1 && low - 1 <= j <= j0
      ensures j < i || (i0 < i && j < j0)
      ensures wi <= wj ==> i0 < i && j < j0
      ensures forall k :: low <= k < i ==> key(Contents[k]) <= key(x)
      ensures forall k :: j < k <= high ==> key(Contents[k]) >= key(x)
    {
      i := ScanUp(i0, x, key, wi);
      j := ScanDown(j0, x, key, wj);
      if i <= j {
        Exchange(low, high, i, j, key, key(x));
        i := i + 1;
        j := j - 1;
      }
    }

    /**
     * The partition step of Sort(low, high): passes over [low, high] around
     * the value at the middle position until the cursors cross. The source's
     * do-while runs as a while loop: its guard i <= j holds on entry.
     * Afterwards everything left of i is not above the pivot, everything right
     * of j is not below it, and both [low, j] and [i, high] are shorter than
     * [low, high].
     */
    method Partition(low: int, high: int, key: T -> real) returns (i: int, j: int, ghost kx: real)
      requires Valid() && 0 <= low <= high < |Contents|
      modifies Repr
      ensures Valid() && Nodes == old(Nodes) && Repr == old(Repr)
      ensures PermutationWithin(Contents, old(Contents), low, high)
      ensures low - 1 <= j < i <= high + 1 && low < i && j < high
      ensures forall k :: low <= k < i ==> key(Contents[k]) <= kx
      ensures forall k :: j < k <= high ==> key(Contents[k]) >= kx
    {
      i, j := low, high;
      var mid := PivotPosition(low, high);
      var pivot := Get(mid);
      var x := pivot.value;
      kx := key(x);
      while i <= j
        invariant Valid() && Nodes == old(Nodes) && Repr == old(Repr)
        invariant PermutationWithin(Contents, old(Contents), low, high)
        invariant low <= i <= high + 1 && low - 1 <= j <= high
        invariant (i == low && j == high && Contents[mid] == x) || (low < i && j < high)
        invariant forall k :: low <= k < i ==> key(Contents[k]) <= kx
        invariant forall k :: j < k <= high ==> key(Contents[k]) >= kx
        decreases j - i
      {
        // the values that stop the scans: the pivot itself on the first pass,
        // afterwards the pair exchanged last
        ghost var firstPass := i == low && j == high;
        ghost var before := Contents;
        i, j := PartitionPass(low, high, i, j, x, key, if firstPass then mid else j + 1, if firstPass then mid else i - 1);
        PermutationTransitive(Contents, before, old(Contents), low, high);
      }
    }

    /** Sort(low, high): partition [low, high], then sort [low, j] and [i, high]. */
    method SortRange(low: int, high: int, key: T -> real)
      requires Valid() && 0 <= low <= high < |Contents|
      modifies Repr
      ensures Valid() && Nodes == old(Nodes) && Repr == old(Repr)
      ensures PermutationWithin(Contents, old(Contents), low, high)
      ensures SortedBetween(Contents, key, low, high)
      decreases high - low
    {
      var i, j, kx := Partition(low, high, key);
      ghost var parted := Contents;
      if low < j {
        SortRange(low, j, key);
      }
      ghost var leftSorted := Contents;
      if i < high {
        SortRange(i, high, key);
      }
      QuicksortStep(old(Contents), parted, leftSorted, Contents, key, low, high, i, j, kx);
    }

    /** Sorts the whole list; an empty list is left as it is. */
    method Sort(key: T -> real)
      requires Valid()
      modifies Repr
      ensures Valid() && Nodes == old(Nodes) && Repr == old(Repr)
      ensures Sorted(Contents, key) && multiset(Contents) == multiset(old(Contents))
    {
      if count > 0 {
        SortRange(0, count - 1, key);
        PermutationWhole(Contents, old(Contents));
      }
    }

    /**
     * Sort() as written: Sort(0, Count - 1) reads the pivot at
     * (0 + Count - 1) / 2 first, which on an empty list is position 0 and fails.
     */
    method SortAsWritten(key: T -> real) returns (r: Outcome<ListError>)
      requires Valid()
      modifies Repr
      ensures Valid() && Nodes == old(Nodes) && Repr == old(Repr)
      ensures r.Fail? <==> old(|Contents|) == 0
      ensures r.Fail? ==> Contents == old(Contents)
      ensures r.Pass? ==> Sorted(Contents, key) && multiset(Contents) == multiset(old(Contents))
    {
      var pivot := Get(PivotPosition(0, count - 1));
      if pivot.Err? {
        return Fail(pivot.error);
      }
      SortRange(0, count - 1, key);
      PermutationWhole(Contents, old(Contents));
      r := Pass;
    }
  }
}
