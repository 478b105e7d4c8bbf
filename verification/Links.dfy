/** Circular intrusive lists (src/co_clink.h) over timer nodes.
    A ring is described by the sequence of its nodes, the list head first. */
module Links {

  /** What a node's callback pointer stands for: nothing, a client function, or
      the timer service's own handler for an item with the given period. */
  datatype Callback = NoCallback | Client | OnTimer(loop: uint32)

  type uint32 = x: nat | x < 0x1_0000_0000

  /** A timer node.  It starts with its two links, so that a pointer to it is
      also a pointer to a list link; list heads leave the other fields unused.
      `cotw_node_init` leaves both links null. */
  class Node {
    var next: Node?
    var prev: Node?
    var expire: nat
    const callback: Callback

    constructor (cb: Callback)
      ensures next == null && prev == null && expire == 0 && callback == cb
    {
      next, prev, expire, callback := null, null, 0, cb;
    }

    constructor Head()
      ensures Ring([this])
    {
      next, prev, expire, callback := this, this, 0, NoCallback;
    }
  }

  ghost predicate Ring(c: seq<Node>)
    reads c`next, c`prev
  {
    && c != []
    && (forall k {:trigger c[k].next} :: 0 <= k < |c| ==> c[k].next == Ahead(c, k))
    && (forall k {:trigger c[k].prev} :: 0 <= k < |c| ==> c[k].prev == Behind(c, k))
  }

  ghost function Ahead(c: seq<Node>, k: nat): Node
    requires k < |c|
  {
    c[if k + 1 == |c| then 0 else k + 1]
  }

  ghost function Behind(c: seq<Node>, k: nat): Node
    requires k < |c|
  {
    c[if k == 0 then |c| - 1 else k - 1]
  }

  ghost predicate NoDup<T>(c: seq<T>) {
    forall a, b :: 0 <= a < b < |c| ==> c[a] != c[b]
  }

  lemma LinksOf(c: seq<Node>)
    requires Ring(c)
    ensures c != [] && (forall k {:trigger c[k].next} :: 0 <= k < |c| ==> c[k].next == Next(c, k))
    ensures c[0].prev == c[|c| - 1] && (forall k {:trigger c[k].prev} :: 0 < k < |c| ==> c[k].prev == c[k - 1])
  {
    forall k | 0 <= k < |c| ensures c[k].next == Next(c, k) && (k > 0 ==> c[k].prev == c[k - 1]) {
      assert c[k].next == Ahead(c, k) && c[k].prev == Behind(c, k);
    }
    assert c[0].prev == Behind(c, 0);
  }

  lemma RingOfOne(n: Node)
    requires n.next == n && n.prev == n
    ensures Ring([n])
  {
  }

  lemma DifferentNodes(c: seq<Node>, e: seq<Node>)
    requires NoDup(c) && NoDup(e) && |c| > 1 && e != [] && forall n :: n in c ==> n !in e
    ensures forall j, k :: 0 <= j < |c| && 0 <= k < |e| ==> c[j] != e[k]
    ensures forall j :: 0 < j < |c| ==> c[j] != c[0]
    ensures forall j :: 0 <= j < |c| - 1 ==> c[j] != c[|c| - 1]
    ensures forall j :: 1 < j < |c| ==> c[j] != c[1]
    ensures forall k :: 0 < k < |e| ==> e[k] != e[0]
    ensures forall k :: 1 < k < |e| ==> e[k] != e[1]
  {
    forall j, k | 0 <= j < |c| && 0 <= k < |e| ensures c[j] != e[k] { assert c[j] in c && e[k] in e; }
  }

  method AddBack(head: Node, node: Node, ghost c: seq<Node>)
    requires Ring(c) && NoDup(c) && c[0] == head && node !in c
    modifies head`prev, Behind(c, 0)`next, node`next, node`prev
    ensures Ring(c + [node])
  {
    node.prev := head.prev;
    node.next := head;
    node.prev.next := node;
    head.prev := node;
  }

  function IsEmpty(head: Node): bool
    reads head
  {
    head.next == head
  }

  /** A node is alone in its ring exactly when it points to itself. */
  lemma EmptyMeansAlone(c: seq<Node>, k: nat)
    requires Ring(c) && NoDup(c) && k < |c|
    ensures IsEmpty(c[k]) <==> |c| == 1
  {
    assert c[k].next == Ahead(c, k);
  }

  lemma Alone(n: Node)
    requires Ring([n])
    ensures n.next == n
  {
    assert [n][0].next == Ahead([n], 0);
  }

  ghost function Without<T>(c: seq<T>, k: nat): seq<T>
    requires k < |c|
  {
    c[..k] + c[k + 1..]
  }

  method Remove(node: Node, ghost c: seq<Node>, ghost k: nat)
    requires Ring(c) && NoDup(c) && 0 < k < |c| && c[k] == node
    modifies Behind(c, k)`next, Ahead(c, k)`prev, node`next, node`prev
    ensures Ring(Without(c, k)) && Ring([node])
  {
    hide Ring, NoDup;
    LinksOf(c);
    DifferentNeighbours(c, k);
    node.next.prev := node.prev;
    node.prev.next := node.next;
    node.prev := node;
    node.next := node;
    RingOfOne(node);
    ShorterRing(c, k, Without(c, k));
  }

  lemma DifferentNeighbours(c: seq<Node>, k: nat)
    requires NoDup(c) && 0 < k < |c|
    ensures forall j :: 0 <= j < |c| && j != k ==> c[j] != c[k]
    ensures forall j :: 0 <= j < |c| && j != k - 1 ==> c[j] != c[k - 1]
    ensures forall j :: 0 <= j < |c| && j != (if k + 1 == |c| then 0 else k + 1) ==> c[j] != Next(c, k)
  {
  }

  /** The links that remain when member `k` is bypassed. */
  lemma ShorterRing(c: seq<Node>, k: nat, d: seq<Node>)
    requires 0 < k < |c| && d == Without(c, k) && c[k - 1].next == Next(c, k)
    requires forall j {:trigger c[j].next} :: 0 <= j < |c| && j != k && j != k - 1 ==> c[j].next == Next(c, j)
    requires forall j {:trigger c[j].prev} :: 0 < j < |c| && j != k && j != k + 1 ==> c[j].prev == c[j - 1]
    requires if k + 1 == |c| then c[0].prev == c[k - 1] else c[k + 1].prev == c[k - 1] && c[0].prev == c[|c| - 1]
    ensures Ring(d)
  {
    hide Without, Ahead, Behind;
    WithoutLength(c, k);
    forall j | 0 <= j < |d| ensures d[j].next == Ahead(d, j) && d[j].prev == Behind(d, j) {
      LinksWithout(c, k, j);
      var i := if j < k then j else j + 1;
      assert c[i].next == (if i == k - 1 then Next(c, k) else Next(c, i));
      assert i > 0 ==> c[i].prev == if i == k + 1 then c[k - 1] else c[i - 1];
    }
  }

  lemma WithoutLength(c: seq<Node>, k: nat)
    requires k < |c|
    ensures |Without(c, k)| == |c| - 1
  {
  }

  lemma LinksWithout(c: seq<Node>, k: nat, j: nat)
    requires 0 < k < |c| && j < |Without(c, k)|
    ensures var i, d := if j < k then j else j + 1, Without(c, k);
            && i < |c| && d[j] == c[i] && Ahead(d, j) == (if i == k - 1 then Next(c, k) else Next(c, i))
            && Behind(d, j) == if i == 0 then (if k + 1 == |c| then c[k - 1] else c[|c| - 1])
                               else if i == k + 1 then c[k - 1] else c[i - 1]
  {
  }

  /** Moves everything behind `head1` to the front of the list of `head2`. */
  method Splice(head1: Node, head2: Node, ghost c: seq<Node>, ghost e: seq<Node>)
    requires Ring(c) && NoDup(c) && c[0] == head1
    requires Ring(e) && NoDup(e) && e[0] == head2 && forall n :: n in c ==> n !in e
    modifies head1`next, head1`prev, head2`next, Ahead(e, 0)`prev, Ahead(c, 0)`prev, Behind(c, 0)`next
    ensures Ring([head1]) && Ring([head2] + c[1..] + e[1..])
  {
    EmptyMeansAlone(c, 0);
    hide Ring, NoDup;
    LinksOf(c);
    LinksOf(e);
    if !IsEmpty(head1) {
      var first := head1.next;
      var last := head1.prev;
      var at := head2.next;
      DifferentNodes(c, e);
      first.prev := head2;
      head2.next := first;
      last.next := at;
      at.prev := last;
      head1.prev := head1;
      head1.next := head1;
      RingOfOne(head1);
      ghost var d := [head2] + c[1..] + e[1..];
      SplicedAt(c, e, d);
      SplicedRing(c, e, d);
    } else {
      assert [head1] == c && [head2] + c[1..] + e[1..] == e;
    }
  }

  /** Ring `d` is ring `e` with the members of `c` in front of its own. */
  ghost predicate Joined(c: seq<Node>, e: seq<Node>, d: seq<Node>) {
    && |c| > 0 && |e| > 0 && |d| == |c| + |e| - 1 && d[0] == e[0]
    && (forall j :: 0 < j < |c| ==> d[j] == c[j])
    && (forall k :: 0 < k < |e| ==> d[|c| - 1 + k] == e[k])
  }

  lemma SplicedAt(c: seq<Node>, e: seq<Node>, d: seq<Node>)
    requires |c| > 0 && |e| > 0 && d == [e[0]] + c[1..] + e[1..]
    ensures Joined(c, e, d)
  {
  }

  /** The links that a splice leaves. */
  lemma SplicedRing(c: seq<Node>, e: seq<Node>, d: seq<Node>)
    requires |c| > 1 && |e| > 0 && Joined(c, e, d)
    requires e[0].next == c[1] && c[1].prev == e[0] && c[|c| - 1].next == Next(e, 0)
    requires e[0].prev == if |e| == 1 then c[|c| - 1] else e[|e| - 1]
    requires |e| > 1 ==> e[1].prev == c[|c| - 1]
    requires forall j {:trigger c[j].next} :: 0 < j < |c| - 1 ==> c[j].next == c[j + 1]
    requires forall j {:trigger c[j].prev} :: 1 < j < |c| ==> c[j].prev == c[j - 1]
    requires forall k {:trigger e[k].next} :: 0 < k < |e| ==> e[k].next == Next(e, k)
    requires forall k {:trigger e[k].prev} :: 1 < k < |e| ==> e[k].prev == e[k - 1]
    ensures Ring(d)
  {
    JoinedLength(c, e, d);
    hide Joined, Ahead, Behind;
    forall j | 0 <= j < |d| ensures d[j].next == Ahead(d, j) && d[j].prev == Behind(d, j) {
      SplicedLinks(c, e, d, j);
      if 0 < j < |c| {
        assert c[j].next == (if j + 1 == |c| then Next(e, 0) else c[j + 1]);
        assert c[j].prev == if j == 1 then e[0] else c[j - 1];
      } else if j > 0 {
        var k := j + 1 - |c|;
        assert e[k].next == Next(e, k);
        assert e[k].prev == if k == 1 then c[|c| - 1] else e[k - 1];
      }
    }
  }

  lemma JoinedLength(c: seq<Node>, e: seq<Node>, d: seq<Node>)
    requires Joined(c, e, d)
    ensures |d| == |c| + |e| - 1
  {
  }

  ghost function Next(c: seq<Node>, k: nat): Node
    requires k < |c|
  {
    if k + 1 == |c| then c[0] else c[k + 1]
  }

  lemma SplicedLinks(c: seq<Node>, e: seq<Node>, d: seq<Node>, j: nat)
    requires Joined(c, e, d) && |c| > 1 && j < |d|
    ensures Ahead(d, j) == if j + 1 < |c| then c[j + 1] else Next(e, j + 1 - |c|)
    ensures Behind(d, j) == if j == 0 then (if |e| == 1 then c[|c| - 1] else e[|e| - 1])
                            else if j == 1 then e[0] else if j <= |c| then c[j - 1] else e[j - |c|]
    ensures d[j] == if j == 0 then e[0] else if j < |c| then c[j] else e[j + 1 - |c|]
  {
    assert j >= |c| ==> d[|c| - 1 + (j + 1 - |c|)] == e[j + 1 - |c|];
    assert |c| <= j + 1 < |d| ==> d[|c| - 1 + (j + 2 - |c|)] == e[j + 2 - |c|];
    assert j > |c| ==> d[|c| - 1 + (j - |c|)] == e[j - |c|];
    assert |e| > 1 ==> d[|c| - 1 + (|e| - 1)] == e[|e| - 1];
  }
}
