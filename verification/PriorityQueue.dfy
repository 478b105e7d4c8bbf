/** The binary heap of src/co_pqueue.c. */
module PriorityQueue {
  import opened Basics
  import opened SortedRow

  function Parent(i: nat): nat
    requires i > 0
    ensures Parent(i) < i
  {
    (i - 1) / 2
  }

  /** No item is larger than its parent; `TotalOrder` lets items count as equal. */
  ghost predicate Heap<T>(cmp: (T, T) -> int, v: seq<T>) {
    forall i :: 0 < i < |v| ==> cmp(v[Parent(i)], v[i]) >= 0
  }

  /** A heap but for the item at `c`, which may be too large for its place. */
  ghost predicate HeapButUp<T>(cmp: (T, T) -> int, v: seq<T>, c: nat) {
    && (forall i :: 0 < i < |v| && i != c ==> cmp(v[Parent(i)], v[i]) >= 0)
    && (forall i :: 0 < i < |v| && Parent(i) == c && c > 0 ==> cmp(v[Parent(c)], v[i]) >= 0)
  }

  /** A heap but for the item at `p`, which may be too small for its place. */
  ghost predicate HeapButDown<T>(cmp: (T, T) -> int, v: seq<T>, p: nat) {
    && (forall i :: 0 < i < |v| && Parent(i) != p ==> cmp(v[Parent(i)], v[i]) >= 0)
    && (forall i :: 0 < i < |v| && Parent(i) == p && p > 0 ==> cmp(v[Parent(p)], v[i]) >= 0)
  }

  lemma {:induction false} TopIsLargest<T(!new)>(cmp: (T, T) -> int, v: seq<T>, i: nat)
    requires TotalOrder(cmp) && Heap(cmp, v) && i < |v|
    ensures cmp(v[0], v[i]) >= 0
  {
    if i > 0 {
      TopIsLargest(cmp, v, Parent(i));
      AtLeast(cmp, v[0], v[Parent(i)], v[i]);
    } else {
      EqualToItself(cmp, v[0]);
    }
  }

  lemma AtLeast<T(!new)>(cmp: (T, T) -> int, a: T, b: T, c: T)
    requires TotalOrder(cmp)
    ensures cmp(a, b) >= 0 && cmp(b, c) >= 0 ==> cmp(a, c) >= 0
    ensures cmp(a, b) < 0 ==> cmp(b, a) >= 0
  {
    if cmp(a, b) >= 0 && cmp(b, c) >= 0 { assert cmp(c, b) <= 0 && cmp(b, a) <= 0; }
  }

  ghost function Swapped<T>(v: seq<T>, i: nat, j: nat): seq<T>
    requires i < |v| && j < |v|
  {
    v[i := v[j]][j := v[i]]
  }

  lemma SwapKeepsItems<T>(v: seq<T>, i: nat, j: nat)
    requires i < |v| && j < |v|
    ensures multiset(Swapped(v, i, j)) == multiset(v) && |Swapped(v, i, j)| == |v|
  {
  }

  /** Swapping a too large item with its parent moves the trouble up. */
  lemma SwapUp<T(!new)>(cmp: (T, T) -> int, v: seq<T>, c: nat)
    requires TotalOrder(cmp) && HeapButUp(cmp, v, c) && 0 < c < |v| && cmp(v[Parent(c)], v[c]) < 0
    ensures HeapButUp(cmp, Swapped(v, c, Parent(c)), Parent(c))
  {
    var p, w := Parent(c), Swapped(v, c, Parent(c));
    forall i | 0 < i < |w| && i != p ensures cmp(w[Parent(i)], w[i]) >= 0 {
      AtLeast(cmp, v[p], v[c], v[p]);
      AtLeast(cmp, v[c], v[p], v[i]);
    }
    forall i | 0 < i < |w| && Parent(i) == p && p > 0 ensures cmp(w[Parent(p)], w[i]) >= 0 {
      AtLeast(cmp, v[Parent(p)], v[p], v[i]);
    }
  }

  /** Swapping a too small item with its larger child moves the trouble down. */
  lemma SwapDown<T(!new)>(cmp: (T, T) -> int, v: seq<T>, p: nat, c: nat)
    requires TotalOrder(cmp) && HeapButDown(cmp, v, p) && 0 < c < |v| && Parent(c) == p && cmp(v[p], v[c]) < 0
    requires forall i :: 0 < i < |v| && Parent(i) == p ==> cmp(v[c], v[i]) >= 0
    ensures HeapButDown(cmp, Swapped(v, c, p), c)
  {
    var w := Swapped(v, c, p);
    forall i | 0 < i < |w| && Parent(i) != c ensures cmp(w[Parent(i)], w[i]) >= 0 {
      AtLeast(cmp, v[p], v[c], v[p]);
    }
  }

  /** Without a child the item is in its place. */
  lemma TooSmall<T>(cmp: (T, T) -> int, v: seq<T>, p: nat)
    requires HeapButDown(cmp, v, p)
    ensures p * 2 + 1 >= |v| ==> Heap(cmp, v)
  {
  }

  /** Every one of `a` is at least as large as every one of `b`. */
  ghost predicate Above<T>(cmp: (T, T) -> int, a: seq<T>, b: seq<T>) {
    forall i, j :: 0 <= i < |a| && 0 <= j < |b| ==> cmp(a[i], b[j]) >= 0
  }

  ghost predicate Descending<T>(cmp: (T, T) -> int, a: seq<T>) {
    forall i, j :: 0 <= i < j < |a| ==> cmp(a[i], a[j]) >= 0
  }

  lemma StillAbove<T>(cmp: (T, T) -> int, a: seq<T>, b: seq<T>, c: seq<T>, x: T)
    requires Above(cmp, a, b) && multiset(b) == multiset(c) + multiset{x}
    requires forall y :: y in b ==> cmp(x, y) >= 0
    ensures Above(cmp, a, c) && Above(cmp, a, [x]) && Above(cmp, [x], c)
  {
    InBefore(b, c, x);
    forall i, j | 0 <= i < |a| && 0 <= j < |c| ensures cmp(a[i], c[j]) >= 0 { assert c[j] in b; }
    forall i | 0 <= i < |a| ensures cmp(a[i], x) >= 0 { assert x in b; }
  }

  lemma NothingTaken<T>(cmp: (T, T) -> int, v: seq<T>)
    ensures Descending(cmp, []) && Above(cmp, [], v)
  {
  }

  lemma OneMore<T>(cmp: (T, T) -> int, a: seq<T>, x: T, v: seq<T>)
    requires Descending(cmp, a) && Above(cmp, a, [x]) && Above(cmp, a, v) && Above(cmp, [x], v)
    ensures Descending(cmp, a + [x]) && Above(cmp, a + [x], v)
  {
    forall i | 0 <= i < |a| ensures cmp(a[i], x) >= 0 { assert cmp(a[i], [x][0]) >= 0; }
    forall j | 0 <= j < |v| ensures cmp(x, v[j]) >= 0 { assert cmp([x][0], v[j]) >= 0; }
  }

  lemma InBefore<T>(b: seq<T>, c: seq<T>, x: T)
    requires multiset(b) == multiset(c) + multiset{x}
    ensures x in b && (forall y :: y in c ==> y in b) && |b| == |c| + 1
  {
    assert x in multiset(b);
    forall y | y in c ensures y in b { assert y in multiset(c) && y in multiset(b); }
    assert |multiset(b)| == |b| && |multiset(c)| == |c|;
  }

  class PQueue<T(!new)> {
    const compare: (T, T) -> int
    var vec: seq<T>

    ghost predicate Valid()
      reads this
    {
      TotalOrder(compare) && Heap(compare, vec)
    }

    /** `copqueue_new` */
    constructor (comp: (T, T) -> int)
      requires TotalOrder(comp)
      ensures Valid() && vec == [] && compare == comp
    {
      compare, vec := comp, [];
    }

    /** `covec_swap` */
    method Swap(i: nat, j: nat)
      requires i < |vec| && j < |vec|
      modifies this`vec
      ensures vec == Swapped(old(vec), i, j)
    {
      vec := vec[i := vec[j]][j := vec[i]];
    }

    /** `_heap_up_tail` */
    method HeapUpTail()
      requires TotalOrder(compare) && |vec| > 0 && HeapButUp(compare, vec, |vec| - 1)
      modifies this`vec
      ensures Valid() && multiset(vec) == multiset(old(vec))
    {
      var size := |vec|;
      if size <= 1 {
        return;
      }
      var child := size - 1;
      while child > 0
        invariant child < |vec| && HeapButUp(compare, vec, child) && multiset(vec) == multiset(old(vec))
      {
        var parent := (child - 1) / 2;
        var ret := compare(vec[parent], vec[child]);
        if ret >= 0 {
          break;
        }
        SwapUp(compare, vec, child);
        SwapKeepsItems(vec, child, parent);
        Swap(child, parent);
        child := parent;
      }
    }

    /** `_heap_down_head` */
    method HeapDownHead()
      requires TotalOrder(compare) && HeapButDown(compare, vec, 0)
      modifies this`vec
      ensures Valid() && multiset(vec) == multiset(old(vec))
    {
      hide TotalOrder, HeapButDown, Heap, Swapped;
      TooSmall(compare, vec, 0);
      var size := |vec|;
      if size <= 1 {
        return;
      }
      var parent := 0;
      var child := parent * 2 + 1;
      while child < size
        invariant |vec| == size && child == parent * 2 + 1 && parent < size
        invariant HeapButDown(compare, vec, parent) && multiset(vec) == multiset(old(vec))
        invariant child >= size ==> Heap(compare, vec)
        decreases size - child
      {
        var rchild := parent * 2 + 2;
        if rchild < size {
          var ret := compare(vec[child], vec[rchild]);
          if ret < 0 {
            child := rchild;
          }
        }
        LargerChild(parent, child);
        var ret := compare(vec[parent], vec[child]);
        if ret >= 0 {
          NoTroubleLeft(parent, child);
          break;
        }
        SwapDown(compare, vec, parent, child);
        SwapKeepsItems(vec, child, parent);
        Swap(child, parent);
        parent := child;
        child := parent * 2 + 1;
        TooSmall(compare, vec, parent);
      }
    }

    lemma LargerChild(p: nat, c: nat)
      requires TotalOrder(compare) && p < |vec| && c < |vec| && (c == p * 2 + 1 || c == p * 2 + 2)
      requires c == p * 2 + 1 && c + 1 < |vec| ==> compare(vec[c], vec[c + 1]) >= 0
      requires c == p * 2 + 2 ==> compare(vec[c - 1], vec[c]) < 0
      ensures Parent(c) == p && forall i :: 0 < i < |vec| && Parent(i) == p ==> compare(vec[c], vec[i]) >= 0
    {
      EqualToItself(compare, vec[c]);
      forall i | 0 < i < |vec| && Parent(i) == p ensures compare(vec[c], vec[i]) >= 0 {
        assert i == p * 2 + 1 || i == p * 2 + 2;
        AtLeast(compare, vec[i], vec[c], vec[i]);
      }
    }

    lemma NoTroubleLeft(p: nat, c: nat)
      requires TotalOrder(compare) && HeapButDown(compare, vec, p) && p < |vec| && c < |vec|
               && compare(vec[p], vec[c]) >= 0
      requires forall i :: 0 < i < |vec| && Parent(i) == p ==> compare(vec[c], vec[i]) >= 0
      ensures Heap(compare, vec)
    {
      forall i | 0 < i < |vec| ensures compare(vec[Parent(i)], vec[i]) >= 0 {
        AtLeast(compare, vec[p], vec[c], vec[i]);
      }
    }

    /** `copqueue_push` */
    method Push(item: T)
      requires Valid()
      modifies this`vec
      ensures Valid() && multiset(vec) == multiset(old(vec)) + multiset{item}
    {
      vec := vec + [item];
      HeapUpTail();
    }

    /** `copqueue_pop`: a largest item goes. */
    method Pop() returns (item: Option<T>)
      requires Valid()
      modifies this`vec
      ensures Valid() && (item == None <==> old(vec) == [])
      ensures item == None ==> vec == []
      ensures item.Some? ==> multiset(old(vec)) == multiset(vec) + multiset{item.value}
      ensures item.Some? ==> forall x :: x in old(vec) ==> compare(item.value, x) >= 0
    {
      var size := |vec|;
      if size == 0 {
        return None;
      }
      forall x | x in vec ensures compare(vec[0], x) >= 0 {
        var i :| 0 <= i < |vec| && vec[i] == x;
        TopIsLargest(compare, vec, i);
      }
      ghost var before := vec;
      SwapKeepsItems(vec, 0, size - 1);
      Swap(0, size - 1);
      item := Some(vec[size - 1]);
      assert vec == vec[..size - 1] + [vec[size - 1]];
      vec := vec[..size - 1];
      forall i | 0 < i < |vec| && Parent(i) != 0 ensures compare(vec[Parent(i)], vec[i]) >= 0 {
        assert compare(before[Parent(i)], before[i]) >= 0;
      }
      HeapDownHead();
    }

    /** `copqueue_get`, whose index may count from the end like that of `covec_get` */
    method Get(index: int) returns (item: Option<T>)
      requires Valid()
      ensures item.Some? <==> -|vec| <= index < |vec|
      ensures item.Some? ==> item.value == vec[if index < 0 then |vec| + index else index]
      ensures index == 0 && vec != [] ==> item.Some? && forall x :: x in vec ==> compare(item.value, x) >= 0
    {
      forall x | x in vec ensures compare(vec[0], x) >= 0 {
        var i :| 0 <= i < |vec| && vec[i] == x;
        TopIsLargest(compare, vec, i);
      }
      var i := if index < 0 then |vec| + index else index;
      if i < 0 || i >= |vec| {
        return None;
      }
      return Some(vec[i]);
    }

    /** Popping until nothing is left gives all items, in descending order. */
    method Drain() returns (items: seq<T>)
      requires Valid()
      modifies this`vec
      ensures Valid() && vec == [] && multiset(items) == multiset(old(vec)) && Descending(compare, items)
    {
      hide Heap, TotalOrder, Above, Descending;
      items := [];
      var done := false;
      NothingTaken(compare, vec);
      while !done
        invariant Valid() && (done ==> vec == [])
        invariant multiset(old(vec)) == multiset(items) + multiset(vec)
        invariant Descending(compare, items) && Above(compare, items, vec)
        decreases |vec|, !done
      {
        ghost var before := vec;
        var item := Pop();
        if item.Some? {
          StillAbove(compare, items, before, vec, item.value);
          OneMore(compare, items, item.value, vec);
          InBefore(before, vec, item.value);
          items := items + [item.value];
        } else {
          done := true;
        }
      }
    }
  }
}
