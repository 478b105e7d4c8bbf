/** The two linked structures over the nodes of src/co_dict.c, as values: bucket
    chains and the list that gives the order.  Links are maps from nodes. */
module HashChains {

  class Node<K, V> {
    const key: K
    const hash: nat
    var value: V
    var next: Node?<K, V>           // in the bucket
    var listprev: Node?<K, V>       // in the list
    var listnext: Node?<K, V>

    constructor (k: K, h: nat, v: V)
      ensures key == k && hash == h && value == v && next == listprev == listnext == null
    {
      key, hash, value := k, h, v;
      next, listprev, listnext := null, null, null;
    }
  }

  type Links<!K, !V> = map<Node<K, V>, Node?<K, V>>

  ghost function First<K, V>(c: seq<Node<K, V>>): Node?<K, V> { if c == [] then null else c[0] }

  ghost function Last<K, V>(c: seq<Node<K, V>>): Node?<K, V> { if c == [] then null else c[|c| - 1] }

  ghost function After<K, V>(c: seq<Node<K, V>>, i: nat): Node?<K, V> { if i + 1 < |c| then c[i + 1] else null }

  ghost function Before<K, V>(c: seq<Node<K, V>>, i: nat): Node?<K, V> { if 0 < i <= |c| then c[i - 1] else null }

  ghost function Without<E>(c: seq<E>, k: nat): seq<E>
    requires k < |c|
  {
    c[..k] + c[k + 1..]
  }

  ghost predicate NoDup<E>(c: seq<E>) { forall i, j :: 0 <= i < j < |c| ==> c[i] != c[j] }

  lemma WithoutIs<E>(c: seq<E>, k: nat)
    requires NoDup(c) && k < |c|
    ensures NoDup(Without(c, k)) && forall n :: n in Without(c, k) <==> n in c && n != c[k]
  {
    var t := Without(c, k);
    forall i | 0 <= i < |t| ensures t[i] == c[if i < k then i else i + 1] {}
    forall n | n in c && n != c[k] ensures n in t {
      var i :| 0 <= i < |c| && c[i] == n;
      assert t[if i < k then i else i - 1] == n;
    }
  }

  // ---- bucket chains -------------------------------------------------------------

  /** From `first` the `next` links run through `c` and end. */
  ghost predicate Chain<K, V>(next: Links<K, V>, first: Node?<K, V>, c: seq<Node<K, V>>) {
    first == First(c) && forall i :: 0 <= i < |c| ==> c[i] in next && next[c[i]] == After(c, i)
  }

  lemma ChainPush<K, V>(next: Links<K, V>, first: Node?<K, V>, c: seq<Node<K, V>>, n: Node<K, V>)
    requires Chain(next, first, c) && n !in c
    ensures Chain(next[n := first], n, [n] + c)
  {
  }

  lemma ChainCut<K, V>(next: Links<K, V>, first: Node?<K, V>, c: seq<Node<K, V>>, k: nat)
    requires Chain(next, first, c) && NoDup(c) && k < |c|
    ensures k == 0 ==> Chain(next, next[c[0]], Without(c, 0))
    ensures k > 0 ==> Chain(next[c[k - 1] := next[c[k]]], first, Without(c, k))
  {
    var t := Without(c, k);
    forall i | 0 <= i < |t| ensures t[i] == c[if i < k then i else i + 1] {}
  }

  function Slot(hash: nat, cap: nat): (i: nat)
    requires cap > 0
    ensures i < cap
  {
    hash % cap
  }

  /** Each node of `order` is in the chain its hash says, once, and in no other. */
  ghost predicate Slotted<K, V>(chains: seq<seq<Node<K, V>>>, order: seq<Node<K, V>>) {
    && |chains| > 0
    && (forall i, n :: 0 <= i < |chains| && n in chains[i] ==> n in order && Slot(n.hash, |chains|) == i)
    && (forall n :: n in order ==> n in chains[Slot(n.hash, |chains|)])
    && (forall i :: 0 <= i < |chains| ==> NoDup(chains[i]))
  }

  /** The nodes of `order` are filed in the buckets their hashes say, each once. */
  ghost predicate Filed<K, V>(next: Links<K, V>, heads: seq<Node?<K, V>>, chains: seq<seq<Node<K, V>>>,
                              order: seq<Node<K, V>>) {
    && |heads| == |chains| && Slotted(chains, order)
    && forall i :: 0 <= i < |chains| ==> Chain(next, heads[i], chains[i])
  }

  lemma ChainKept<K, V>(next: Links<K, V>, next': Links<K, V>, first: Node?<K, V>, c: seq<Node<K, V>>)
    requires Chain(next, first, c)
    requires forall n :: n in c && n in next ==> n in next' && next'[n] == next[n]
    ensures Chain(next', first, c)
  {
  }

  /** Links of nodes outside the chains do not matter. */
  lemma FiledKept<K, V>(next: Links<K, V>, next': Links<K, V>, heads: seq<Node?<K, V>>,
                        chains: seq<seq<Node<K, V>>>, order: seq<Node<K, V>>)
    requires Filed(next, heads, chains, order)
    requires forall n :: n in order && n in next ==> n in next' && next'[n] == next[n]
    ensures Filed(next', heads, chains, order)
  {
    hide Chain, Slotted;
    forall i | 0 <= i < |chains| ensures Chain(next', heads[i], chains[i]) {
      InOrder(chains, order, i);
      ChainKept(next, next', heads[i], chains[i]);
    }
  }

  lemma InOrder<K, V>(chains: seq<seq<Node<K, V>>>, order: seq<Node<K, V>>, i: nat)
    requires Slotted(chains, order) && i < |chains|
    ensures forall n :: n in chains[i] ==> n in order
  {
  }

  lemma FiledPush<K, V>(next: Links<K, V>, heads: seq<Node?<K, V>>, chains: seq<seq<Node<K, V>>>,
                        order: seq<Node<K, V>>, n: Node<K, V>)
    requires Filed(next, heads, chains, order) && n !in order
    ensures var i := Slot(n.hash, |chains|);
            Filed(next[n := heads[i]], heads[i := n], chains[i := [n] + chains[i]], order + [n])
  {
    var i := Slot(n.hash, |chains|);
    ChainPush(next, heads[i], chains[i], n);
    var chains' := chains[i := [n] + chains[i]];
    forall m | m in order + [n] ensures m in chains'[Slot(m.hash, |chains|)] {
      if m == n { assert chains'[i][0] == n; }
    }
  }

  lemma InOneChain<K, V>(chains: seq<seq<Node<K, V>>>, order: seq<Node<K, V>>, i: nat, j: nat, p: Node<K, V>)
    requires Slotted(chains, order) && i < |chains| && j < |chains| && p in chains[i]
    ensures Slot(p.hash, |chains|) == i && (p in chains[j] ==> j == i)
  {
  }

  lemma OtherChainsKept<K, V>(next: Links<K, V>, heads: seq<Node?<K, V>>, chains: seq<seq<Node<K, V>>>,
                              order: seq<Node<K, V>>, i: nat, j: nat, p: Node<K, V>, to: Node?<K, V>)
    requires Filed(next, heads, chains, order) && i < |chains| && j < |chains| && i != j && p in chains[i]
    ensures Chain(next[p := to], heads[j], chains[j])
  {
    InOneChain(chains, order, i, j, p);
    assert Chain(next, heads[j], chains[j]);
  }

  lemma CutMembers<K, V>(chains: seq<seq<Node<K, V>>>, order: seq<Node<K, V>>, n: Node<K, V>, k: nat, at: nat)
    requires Slotted(chains, order) && NoDup(order) && at < |order| && order[at] == n
    requires var i := Slot(n.hash, |chains|); k < |chains[i]| && chains[i][k] == n
    ensures Slotted(chains[Slot(n.hash, |chains|) := Without(chains[Slot(n.hash, |chains|)], k)], Without(order, at))
  {
    WithoutIs(chains[Slot(n.hash, |chains|)], k);
    WithoutIs(order, at);
    hide Without;
  }

  lemma FiledCut<K, V>(next: Links<K, V>, heads: seq<Node?<K, V>>, chains: seq<seq<Node<K, V>>>,
                       order: seq<Node<K, V>>, n: Node<K, V>, k: nat, at: nat, next': Links<K, V>,
                       heads': seq<Node?<K, V>>)
    requires Filed(next, heads, chains, order) && NoDup(order) && at < |order| && order[at] == n
    requires var i := Slot(n.hash, |chains|);
             && k < |chains[i]| && chains[i][k] == n && n in next
             && (k > 0 ==> chains[i][k - 1] in next)
             && next' == (if k == 0 then next else next[chains[i][k - 1] := next[n]])
             && heads' == (if k == 0 then heads[i := next[n]] else heads)
    ensures var i := Slot(n.hash, |chains|);
            Filed(next', heads', chains[i := Without(chains[i], k)], Without(order, at))
  {
    var i := Slot(n.hash, |chains|);
    ChainCut(next, heads[i], chains[i], k);
    CutMembers(chains, order, n, k, at);
    forall j | 0 <= j < |chains| && j != i ensures Chain(next', heads'[j], chains[j]) {
      if k > 0 { OtherChainsKept(next, heads, chains, order, i, j, chains[i][k - 1], next[n]); }
    }
    hide Chain, Without, NoDup, Slotted;
  }

  // ---- the list ------------------------------------------------------------------

  /** From `last` the `prev` links run back through `c` and end. */
  ghost predicate BackChain<K, V>(prev: Links<K, V>, last: Node?<K, V>, c: seq<Node<K, V>>) {
    last == Last(c) && forall i :: 0 <= i < |c| ==> c[i] in prev && prev[c[i]] == Before(c, i)
  }

  lemma BeforeWithout<K, V>(c: seq<Node<K, V>>, k: nat, i: nat)
    requires k < |c| && i + 1 < |c|
    ensures Without(c, k)[i] == c[if i < k then i else i + 1]
    ensures Before(Without(c, k), i) == Before(c, if i <= k then i else i + 1)
  {
  }

  lemma LastWithout<K, V>(c: seq<Node<K, V>>, k: nat)
    requires k < |c|
    ensures Last(Without(c, k)) == if k + 1 == |c| then Before(c, k) else Last(c)
  {
  }

  lemma BackChainCut<K, V>(prev: Links<K, V>, last: Node?<K, V>, c: seq<Node<K, V>>, k: nat)
    requires BackChain(prev, last, c) && NoDup(c) && k < |c|
    ensures k + 1 == |c| ==> BackChain(prev, prev[c[k]], Without(c, k))
    ensures k + 1 < |c| ==> BackChain(prev[c[k + 1] := prev[c[k]]], last, Without(c, k))
  {
    hide Before, Last;
    var t := Without(c, k);
    LastWithout(c, k);
    assert prev[c[k]] == Before(c, k);
    forall i | 0 <= i < |t|
      ensures t[i] in prev && prev[t[i]] == Before(c, if i < k then i else i + 1)
      ensures t[i] == c[if i < k then i else i + 1] && Before(t, i) == Before(c, if i <= k then i else i + 1)
    {
      BeforeWithout(c, k, i);
    }
  }

  /** The doubly linked list from `head` to `tail` is `order`. */
  ghost predicate Listed<K, V>(next: Links<K, V>, prev: Links<K, V>, head: Node?<K, V>, tail: Node?<K, V>,
                               order: seq<Node<K, V>>) {
    Chain(next, head, order) && BackChain(prev, tail, order) && NoDup(order)
  }

  lemma ListedPushBack<K, V>(next: Links<K, V>, prev: Links<K, V>, head: Node?<K, V>, tail: Node?<K, V>,
                             order: seq<Node<K, V>>, n: Node<K, V>)
    requires Listed(next, prev, head, tail, order) && n !in order
    ensures head != null <==> tail != null
    ensures Listed((if tail == null then next else next[tail := n])[n := null], prev[n := tail],
                   if head == null then n else head, n, order + [n])
  {
  }

  lemma ListedPushBackOnto<K, V>(next: Links<K, V>, prev: Links<K, V>, head: Node?<K, V>, last: Node<K, V>,
                                 order: seq<Node<K, V>>, n: Node<K, V>)
    requires Listed(next, prev, head, last, order) && n !in order && last in order
    ensures Listed(next[n := null][last := n], prev[n := last], head, n, order + [n])
  {
  }

  lemma ListedPushFront<K, V>(next: Links<K, V>, prev: Links<K, V>, head: Node?<K, V>, tail: Node?<K, V>,
                              order: seq<Node<K, V>>, n: Node<K, V>)
    requires Listed(next, prev, head, tail, order) && n !in order && order != []
    ensures head != null && tail != null
    ensures Listed(next[n := head], prev[n := null][head := n], n, tail, [n] + order)
  {
    ChainPush(next, head, order, n);
    var t := [n] + order;
    forall i | 0 < i < |t| ensures t[i] == order[i - 1] {}
  }

  /** Bypassing the node at `k`. */
  lemma ListedCut<K, V>(next: Links<K, V>, prev: Links<K, V>, head: Node?<K, V>, tail: Node?<K, V>,
                        order: seq<Node<K, V>>, k: nat, next': Links<K, V>, prev': Links<K, V>)
    requires Listed(next, prev, head, tail, order) && k < |order|
    requires var n := order[k];
             && next' == (if prev[n] != null then next[prev[n] := next[n]] else next)
             && prev' == (if next[n] != null then prev[next[n] := prev[n]] else prev)
    ensures var n := order[k];
            && Listed(next', prev', if head == n then next[n] else head, if tail == n then prev[n] else tail,
                      Without(order, k))
            && next'[n] == next[n] && prev'[n] == prev[n]
  {
    ChainCut(next, head, order, k);
    BackChainCut(prev, tail, order, k);
    WithoutIs(order, k);
    assert prev[order[k]] == Before(order, k) && next[order[k]] == After(order, k);
    assert k > 0 ==> order[0] != order[k];
    assert k + 1 < |order| ==> order[|order| - 1] != order[k];
    hide Chain, BackChain, Without;
  }

  lemma ListedKept<K, V>(next: Links<K, V>, prev: Links<K, V>, next': Links<K, V>, prev': Links<K, V>,
                         head: Node?<K, V>, tail: Node?<K, V>, order: seq<Node<K, V>>)
    requires Listed(next, prev, head, tail, order)
    requires forall n :: n in order && n in next ==> n in next' && next'[n] == next[n]
    requires forall n :: n in order && n in prev ==> n in prev' && prev'[n] == prev[n]
    ensures Listed(next', prev', head, tail, order)
  {
  }

  /** The first `i` chains one behind the other. */
  ghost function Flat<E>(chains: seq<seq<E>>, i: nat): seq<E>
    requires i <= |chains|
  {
    if i == 0 then [] else Flat(chains, i - 1) + chains[i - 1]
  }

  /** Together the chains hold every node just once. */
  lemma {:induction false} FlatIsAll<K, V>(chains: seq<seq<Node<K, V>>>, order: seq<Node<K, V>>, i: nat)
    requires Slotted(chains, order) && i <= |chains|
    ensures NoDup(Flat(chains, i)) && (forall n :: n in Flat(chains, i) ==> n in order && Slot(n.hash, |chains|) < i)
    ensures forall n :: n in order && Slot(n.hash, |chains|) < i ==> n in Flat(chains, i)
  {
    if i > 0 {
      FlatIsAll(chains, order, i - 1);
      var a, b := Flat(chains, i - 1), chains[i - 1];
      forall j, k | 0 <= j < |a| && 0 <= k < |b| ensures a[j] != b[k] {
        assert a[j] in a && b[k] in b;
      }
    }
  }
}
