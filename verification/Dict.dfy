/** The hash dictionary of src/co_dict.c: bucket chains for looking up, and a
    doubly linked list over the same nodes for the order. */
module HashDict {
  import opened HashChains
  import opened Basics
  import opened OrderedMap

  const BUCKET_SIZES: seq<nat> := [
    61, 113, 251, 509, 1021, 2039, 4093, 8191, 16381,
    32749, 65521, 126727, 262063, 522713, 1046429,
    2090867, 4186067, 8363639, 16777207, 33489353]

  const LARGEST: nat := 33489353

  /** The smallest size of the table above `cap`, at the end the last one. */
  ghost predicate NextSize(cap: nat, size: nat) {
    && size in BUCKET_SIZES
    && if cap < LARGEST then cap < size && forall s :: s in BUCKET_SIZES && cap < s ==> size <= s else size == LARGEST
  }

  /** The entries in list order. */
  ghost function EntriesOf<K, V>(order: seq<Node<K, V>>, values: map<Node<K, V>, V>): (s: seq<(K, V)>)
    ensures (forall n :: n in order ==> n in values) ==> |s| == |order|
  {
    if forall n :: n in order ==> n in values then
      seq(|order|, i requires 0 <= i < |order| => (order[i].key, values[order[i]]))
    else
      []
  }

  lemma EntriesAt<K, V>(order: seq<Node<K, V>>, values: map<Node<K, V>, V>)
    requires forall n :: n in order ==> n in values
    ensures |EntriesOf(order, values)| == |order|
    ensures forall i :: 0 <= i < |order| ==>
              order[i] in values && EntriesOf(order, values)[i] == (order[i].key, values[order[i]])
  {
  }

  lemma EntriesOverwritten<K, V>(order: seq<Node<K, V>>, values: map<Node<K, V>, V>, at: nat, val: V)
    requires (forall n :: n in order ==> n in values) && NoDup(order) && at < |order|
    ensures var s := EntriesOf(order, values);
            |s| == |order| && EntriesOf(order, values[order[at] := val]) == s[at := (s[at].0, val)]
  {
    EntriesAt(order, values);
    EntriesAt(order, values[order[at] := val]);
    hide EntriesOf;
  }

  lemma EntriesLonger<K, V>(order: seq<Node<K, V>>, values: map<Node<K, V>, V>, n: Node<K, V>, val: V)
    requires (forall m :: m in order ==> m in values) && n !in order
    ensures EntriesOf(order + [n], values[n := val]) == EntriesOf(order, values) + [(n.key, val)]
    ensures |EntriesOf(order, values)| == |order|
  {
    EntriesAt(order, values);
    EntriesAt(order + [n], values[n := val]);
    hide EntriesOf;
  }

  lemma EntriesShorter<K, V>(order: seq<Node<K, V>>, values: map<Node<K, V>, V>, at: nat)
    requires (forall m :: m in order ==> m in values) && NoDup(order) && at < |order|
    ensures |EntriesOf(order, values)| == |order|
    ensures EntriesOf(Without(order, at), values - {order[at]}) == Without(EntriesOf(order, values), at)
  {
    WithoutIs(order, at);
    EntriesAt(order, values);
    EntriesAt(Without(order, at), values - {order[at]});
    hide EntriesOf;
  }

  lemma EntriesMoved<K, V>(order: seq<Node<K, V>>, values: map<Node<K, V>, V>, at: nat, head: bool)
    requires (forall m :: m in order ==> m in values) && at < |order|
    ensures |EntriesOf(order, values)| == |order|
    ensures EntriesOf(Moved(order, at, head), values) == Moved(EntriesOf(order, values), at, head)
    ensures forall m :: m in Moved(order, at, head) <==> m in order
  {
    MovedIsReordered(order, at, head);
    forall m ensures m in Moved(order, at, head) <==> m in order {
      assert m in multiset(Moved(order, at, head)) <==> m in multiset(order);
    }
    EntriesAt(order, values);
    EntriesAt(Moved(order, at, head), values);
    MovedAt(order, at, head);
    MovedAt(EntriesOf(order, values), at, head);
    hide EntriesOf, Moved;
  }

  ghost predicate IsSize(cap: nat) { cap in BUCKET_SIZES }

  // ---- freeing ---------------------------------------------------------------------

  datatype Access<K, V> = Read(node: Node<K, V>) | Free(node: Node<K, V>)

  /** The nodes of `freed` are freed in the trace, and no freed node is touched again. */
  ghost predicate Traced<K, V>(trace: seq<Access<K, V>>, freed: seq<Node<K, V>>) {
    && (forall n :: n in freed ==> Free(n) in trace)
    && (forall a :: a in trace ==> a.node in freed)
    && forall i, j :: 0 <= i < j < |trace| && trace[i].Free? ==> trace[j].node != trace[i].node
  }

  lemma NothingTraced<K, V>()
    ensures Traced<K, V>([], [])
  {
  }

  /** The successor is read before the node is freed. */
  lemma LeaveAndFree<K, V>(trace: seq<Access<K, V>>, c: seq<Node<K, V>>, k: nat)
    requires NoDup(c) && k < |c| && Traced(trace, c[..k])
    ensures Traced(trace + [Read(c[k]), Free(c[k])], c[..k + 1])
  {
    var n := c[k];
    ReadThenFree(n);
    NoDupFront(c, k + 1);
    assert c[..k + 1] == c[..k] + [n];
    TraceGoesOn(trace, c[..k], [Read(n), Free(n)], [n]);
  }

  lemma ReadThenFree<K, V>(n: Node<K, V>)
    ensures Traced([Read(n), Free(n)], [n])
  {
    var trace := [Read(n), Free(n)];
    assert trace[1] == Free(n);
  }

  lemma FirstTrace<K, V>(c: seq<Node<K, V>>)
    ensures Traced<K, V>([], c[..0])
  {
  }

  lemma NoDupFront<E>(c: seq<E>, k: nat)
    requires NoDup(c) && k <= |c|
    ensures NoDup(c[..k])
  {
  }

  lemma TraceGoesOn<K, V>(trace: seq<Access<K, V>>, freed: seq<Node<K, V>>, trace': seq<Access<K, V>>,
                          freed': seq<Node<K, V>>)
    requires Traced(trace, freed) && Traced(trace', freed') && NoDup(freed + freed')
    ensures Traced(trace + trace', freed + freed')
  {
    forall i, j | 0 <= i < |freed| && 0 <= j < |freed'| ensures freed[i] != freed'[j] {
      assert (freed + freed')[i] == freed[i] && (freed + freed')[|freed| + j] == freed'[j];
    }
  }

  class Dict<K(!new), V> {
    const hashOf: K -> nat                      // fn_hash
    const equal: (K, K) -> bool                 // fn_equal
    var buckets: array<Node?<K, V>>
    var listhead: Node?<K, V>
    var listtail: Node?<K, V>
    var cap: nat
    var count: nat
    ghost var chainNext: Links<K, V>            // the fields of all nodes
    ghost var listNext: Links<K, V>
    ghost var listPrev: Links<K, V>
    ghost var values: map<Node<K, V>, V>
    ghost var chains: seq<seq<Node<K, V>>>      // what the links mean
    ghost var order: seq<Node<K, V>>
    ghost var history: seq<Op<K, V>>            // every change made so far

    // ---- what holds between two calls ----------------------------------------------

    ghost predicate NextSynced()
      reads this`chainNext, chainNext.Keys`next
    {
      forall n :: n in chainNext ==> n.next == chainNext[n]
    }

    ghost predicate ListNextSynced()
      reads this`listNext, listNext.Keys`listnext
    {
      forall n :: n in listNext ==> n.listnext == listNext[n]
    }

    ghost predicate ListPrevSynced()
      reads this`listPrev, listPrev.Keys`listprev
    {
      forall n :: n in listPrev ==> n.listprev == listPrev[n]
    }

    ghost predicate ValueSynced()
      reads this`values, values.Keys`value
    {
      forall n :: n in values ==> n.value == values[n]
    }

    ghost predicate SameKeys()
      reads this`chainNext, this`listNext, this`listPrev, this`values
    {
      chainNext.Keys == listNext.Keys == listPrev.Keys == values.Keys
    }

    ghost predicate Synced()
      reads this`chainNext, this`listNext, this`listPrev, this`values, values.Keys
    {
      SameKeys() && NextSynced() && ListNextSynced() && ListPrevSynced() && ValueSynced()
    }

    ghost predicate Members()
      reads this`values, this`order
    {
      MembersOf(order, values.Keys)
    }

    ghost predicate MembersOf(order: seq<Node<K, V>>, nodes: set<Node<K, V>>) {
      (forall n :: n in order ==> n in nodes) && forall n :: n in nodes ==> n in order && n.hash == hashOf(n.key)
    }

    /** The buckets hold the nodes of `filed`. */
    ghost predicate InBuckets(filed: seq<Node<K, V>>)
      reads this`buckets, this`cap, this`chainNext, this`chains, buckets
    {
      buckets.Length == cap == |chains| && Filed(chainNext, buckets[..], chains, filed)
    }

    ghost predicate InList()
      reads this`listhead, this`listtail, this`listNext, this`listPrev, this`order
    {
      Listed(listNext, listPrev, listhead, listtail, order)
    }

    ghost predicate Shape()
      reads this, buckets, chainNext.Keys`next, listNext.Keys`listnext, listPrev.Keys`listprev, values.Keys`value
    {
      NextSynced() && ListNextSynced() && ListPrevSynced() && ValueSynced() && InBuckets(order) && InList()
    }

    /** The dictionary is at most three quarters full, but for one entry, unless it cannot grow. */
    ghost predicate Roomy()
      reads this`cap, this`count
    {
      IsSize(cap) && (cap == LARGEST || count * 4 < cap * 3 + 4)
    }

    ghost predicate Intact()
      reads this`buckets, this`listhead, this`listtail, this`cap, this`count, buckets, values.Keys
      reads this`chainNext, this`listNext, this`listPrev, this`values, this`chains, this`order
    {
      && Equality(equal) && Agrees(hashOf, equal)
      && Synced() && Members() && InBuckets(order) && InList() && count == |order| && Roomy()
      && Unique(equal, Entries())
    }

    /** Also, the entries are what the changes made so far amount to. */
    ghost predicate Valid()
      reads this, buckets, values.Keys
    {
      Intact() && Entries() == Run(equal, history)
    }

    /** One more change in the history. */
    ghost method Note(op: Op<K, V>)
      requires Intact() && Entries() == Step(equal, Run(equal, history), op)
      modifies this`history
      ensures Valid() && history == old(history) + [op]
    {
      hide Intact, Entries, Step;
      RunMore(equal, history, op);
      history := history + [op];
    }

    /** A lookup finds the value last set and not deleted since. */
    lemma LookupIsLastSet(key: K)
      requires Valid()
      ensures Lookup(equal, Entries(), key) == LastSet(equal, history, key)
    {
      hide NextSynced, ListNextSynced, ListPrevSynced, ValueSynced, InBuckets, InList, Members, Agrees, Unique;
      LookupFindsLastSet(equal, history, key);
    }

    /** The ordered map that the dictionary stands for. */
    ghost function Entries(): seq<(K, V)>
      reads this`order, this`values
    {
      EntriesOf(order, values)
    }

    // ---- single assignments, mirrored in the ghost maps ------------------------------

    method SetNext(n: Node<K, V>, to: Node?<K, V>)
      requires NextSynced() && n in chainNext
      modifies this`chainNext, n`next
      ensures NextSynced() && chainNext == old(chainNext)[n := to] && chainNext.Keys == old(chainNext.Keys)
    {
      n.next := to;
      chainNext := chainNext[n := to];
    }

    method SetListNext(n: Node<K, V>, to: Node?<K, V>)
      requires ListNextSynced() && n in listNext
      modifies this`listNext, n`listnext
      ensures ListNextSynced() && listNext == old(listNext)[n := to]
      ensures (old(ListPrevSynced()) ==> ListPrevSynced()) && (old(SameKeys()) ==> SameKeys())
    {
      n.listnext := to;
      listNext := listNext[n := to];
    }

    method SetListPrev(n: Node<K, V>, to: Node?<K, V>)
      requires ListPrevSynced() && n in listPrev
      modifies this`listPrev, n`listprev
      ensures ListPrevSynced() && listPrev == old(listPrev)[n := to]
      ensures (old(ListNextSynced()) ==> ListNextSynced()) && (old(SameKeys()) ==> SameKeys())
    {
      n.listprev := to;
      listPrev := listPrev[n := to];
    }

    method SetValue(n: Node<K, V>, v: V)
      requires ValueSynced() && n in values
      modifies this`values, n`value
      ensures ValueSynced() && values == old(values)[n := v] && values.Keys == old(values.Keys)
    {
      n.value := v;
      values := values[n := v];
    }

    // ---- buckets -----------------------------------------------------------------------

    /** A node is put in front of its bucket's chain. */
    method FileNode(n: Node<K, V>, ghost filed: seq<Node<K, V>>)
      requires SameKeys() && NextSynced() && InBuckets(filed) && n in values && n !in filed
      modifies this`chainNext, this`chains, n`next, buckets
      ensures SameKeys() && NextSynced() && InBuckets(filed + [n])
    {
      FiledPush(chainNext, buckets[..], chains, filed, n);
      var idx := Slot(n.hash, cap);
      ghost var heads := buckets[..];
      SetNext(n, buckets[idx]);
      buckets[idx] := n;
      assert buckets[..] == heads[idx := n];
      chains := chains[idx := [n] + chains[idx]];
    }

    /** `_check_and_resize` */
    method CheckAndResize()
      requires SameKeys() && NextSynced() && ListNextSynced() && InList() && Members() && count == |order|
      requires cap == buckets.Length && if cap == 0 then count == 0 else InBuckets(order) && Roomy()
      modifies this`buckets, this`cap, this`chains, this`chainNext, values.Keys`next
      ensures SameKeys() && NextSynced() && InBuckets(order) && IsSize(cap)
              && (cap == LARGEST || count * 4 < cap * 3)
      ensures if old(count * 4 >= cap * 3) then NextSize(old(cap), cap) && fresh(buckets)
              else cap == old(cap) && buckets == old(buckets) && buckets[..] == old(buckets[..])
    {
      hide InBuckets, InList, NextSynced, ListNextSynced, MembersOf;
      if count * 4 >= cap * 3 {
        var size := FindSize(cap);
        SizesLeaveRoom(cap, size);
        Refile(size);
      }
    }

    /** All nodes are filed anew, in list order. */
    method Refile(size: nat)
      requires SameKeys() && NextSynced() && ListNextSynced() && InList() && Members() && size > 0
      modifies this`buckets, this`cap, this`chains, this`chainNext, values.Keys`next
      ensures SameKeys() && NextSynced() && InBuckets(order) && cap == size && fresh(buckets)
    {
      hide SameKeys, InBuckets, NextSynced, ListNextSynced, InList, MembersOf, InFront;
      cap := size;
      buckets := new Node?<K, V>[cap](_ => null);
      chains := seq(cap, _ => []);
      var curr := listhead;
      ghost var filed: seq<Node<K, V>> := [];
      EmptyBuckets();
      ListStart();
      while curr != null
        invariant SameKeys() && NextSynced() && InBuckets(filed) && fresh(buckets) && cap == size
                  && InFront(filed, curr)
        decreases |order| - |filed|
      {
        ListStep(filed, curr);
        FileNode(curr, filed);
        filed := filed + [curr];
        curr := curr.listnext;
      }
      ListEnds(filed);
    }

    /** `filed` is what lies in the list in front of `n`. */
    ghost predicate InFront(filed: seq<Node<K, V>>, n: Node?<K, V>)
      reads this`order
    {
      filed <= order && n == if |filed| < |order| then order[|filed|] else null
    }

    lemma ListEnds(filed: seq<Node<K, V>>)
      requires InFront(filed, null)
      ensures filed == order
    {
    }

    lemma ListStart()
      requires InList()
      ensures InFront([], listhead)
    {
    }

    lemma ListStep(filed: seq<Node<K, V>>, n: Node<K, V>)
      requires SameKeys() && ListNextSynced() && InList() && Members() && InFront(filed, n)
      ensures |filed| < |order| && n in values && n !in filed && InFront(filed + [n], n.listnext)
    {
      hide SameKeys, ListNextSynced, MembersOf, InList;
      ListNextAt(|filed|);
      assert order[..|filed| + 1] == filed + [n];
    }

    lemma ListNextAt(at: nat)
      requires SameKeys() && ListNextSynced() && InList() && Members()
      ensures at < |order| ==>
                order[at] in values && order[at].listnext == After(order, at) && order[at] !in order[..at]
    {
      hide BackChain;
    }

    lemma EmptyBuckets()
      requires buckets.Length == cap == |chains| > 0
      requires forall i :: 0 <= i < cap ==> buckets[i] == null && chains[i] == []
      ensures InBuckets([])
    {
    }

    method FindSize(c: nat) returns (size: nat)
      ensures NextSize(c, size)
    {
      size := BUCKET_SIZES[|BUCKET_SIZES| - 1];
      for i := 0 to |BUCKET_SIZES|
        invariant size == LARGEST && forall j :: 0 <= j < i ==> BUCKET_SIZES[j] <= c
      {
        if BUCKET_SIZES[i] > c {
          FirstAbove(c, i);
          return BUCKET_SIZES[i];
        }
      }
      assert BUCKET_SIZES[|BUCKET_SIZES| - 1] <= c;
    }

    static lemma FirstAbove(c: nat, i: nat)
      requires i < |BUCKET_SIZES| && BUCKET_SIZES[i] > c && forall j :: 0 <= j < i ==> BUCKET_SIZES[j] <= c
      ensures NextSize(c, BUCKET_SIZES[i])
    {
      SizesAscend();
      forall s | s in BUCKET_SIZES && c < s ensures BUCKET_SIZES[i] <= s {
        var j :| 0 <= j < |BUCKET_SIZES| && BUCKET_SIZES[j] == s;
      }
    }

    static lemma SizesAscend()
      ensures forall i, j :: 0 <= i < j < |BUCKET_SIZES| ==> BUCKET_SIZES[i] < BUCKET_SIZES[j]
    {
    }

    static lemma SizesLeaveRoom(c: nat, size: nat)
      requires NextSize(c, size) && (c == 0 || IsSize(c))
      ensures size == LARGEST || c + 52 <= size
    {
    }

    /** `codict_new` */
    constructor (hash: K -> nat, eq: (K, K) -> bool)
      requires Equality(eq) && Agrees(hash, eq)
      ensures Valid() && Entries() == [] && hashOf == hash && equal == eq && fresh(buckets) && values.Keys == {}
      ensures history == []
    {
      hide Synced, SameKeys, NextSynced, ListNextSynced, ListPrevSynced, ValueSynced, InBuckets, InList, MembersOf,
           Equality, Agrees, EntriesOf, IsSize, Unique;
      hashOf, equal := hash, eq;
      cap, count := 0, 0;
      buckets := new Node?<K, V>[0];
      listhead, listtail := null, null;
      chainNext, listNext, listPrev, values, chains, order := map[], map[], map[], map[], [], [];
      history := [];
      new;
      NothingThere();
      CheckAndResize();
      StillSynced();
    }

    lemma NothingThere()
      requires order == [] && chainNext == listNext == listPrev == map[] && values == map[]
      requires listhead == listtail == null
      ensures SameKeys() && NextSynced() && ListNextSynced() && ListPrevSynced() && ValueSynced()
      ensures InList() && Members() && Entries() == [] && Unique(equal, Entries())
    {
    }

    lemma StillSynced()
      requires SameKeys() && NextSynced() && ListNextSynced() && ListPrevSynced() && ValueSynced()
      ensures Synced()
    {
    }

    // ---- looking up ----------------------------------------------------------------------

    lemma FoundNode(n: Node<K, V>, key: K)
      requires Intact() && n in values && equal(n.key, key)
      ensures var i := Find(equal, Entries(), key);
              i < |order| == |Entries()| && order[i] == n && Lookup(equal, Entries(), key) == Some(n.value)
    {
      var i :| 0 <= i < |order| && order[i] == n;
      FindIs(equal, Entries(), key, i);
    }

    /** None of the first `j` nodes of a chain has the key. */
    ghost predicate Passed(c: seq<Node<K, V>>, j: nat, key: K)
    {
      forall i :: 0 <= i < j && i < |c| ==> !(c[i].hash == hashOf(key) && equal(c[i].key, key))
    }

    lemma NotFound(key: K, c: seq<Node<K, V>>)
      requires Intact() && c == chains[Slot(hashOf(key), cap)] && Passed(c, |c|, key)
      ensures Find(equal, Entries(), key) == |order| == |Entries()| && Lookup(equal, Entries(), key) == None
    {
      forall i | 0 <= i < |order| ensures !equal(Entries()[i].0, key) {
        var n := order[i];
        assert Entries()[i].0 == n.key && n.hash == hashOf(n.key) && n in chains[Slot(n.hash, cap)];
      }
      LookupNone(equal, Entries(), key);
    }

    /** `codict_get` */
    method Get(key: K) returns (node: Node?<K, V>)
      requires Valid()
      ensures |Entries()| == |order|
      ensures if node == null then Find(equal, Entries(), key) == |order| && Lookup(equal, Entries(), key) == None
              else var i := Find(equal, Entries(), key);
                   i < |order| && order[i] == node && Lookup(equal, Entries(), key) == Some(node.value)
                     && equal(node.key, key)
    {
      hide Intact, Entries, Run;
      BucketsMatch();
      var hash := hashOf(key);
      var idx := Slot(hash, cap);
      node := buckets[idx];
      ghost var c, j := chains[idx], 0;
      ChainStart(idx);
      while node != null
        invariant j <= |c| && node == (if j < |c| then c[j] else null)
        invariant Passed(c, j, key)
        decreases |c| - j
      {
        ChainStep(idx, j);
        if node.hash == hash && equal(node.key, key) {
          FoundNode(node, key);
          return;
        }
        node := node.next;
        j := j + 1;
      }
      NotFound(key, c);
    }

    lemma BucketsMatch()
      requires Intact()
      ensures buckets.Length == |chains| == cap > 0
    {
    }

    lemma ChainStart(i: nat)
      requires Intact() && i < cap
      ensures buckets[i] == First(chains[i])
    {
      assert Chain(chainNext, buckets[..][i], chains[i]);
    }

    lemma ChainStep(i: nat, j: nat)
      requires Intact() && i < cap && j < |chains[i]|
      ensures chains[i][j] in values && chains[i][j].next == After(chains[i], j)
    {
      assert Chain(chainNext, buckets[..][i], chains[i]) && chains[i][j] in order;
    }

    // ---- setting -------------------------------------------------------------------------

    lemma OverwriteIs(at: nat, val: V)
      requires at < |order| && Members() && InList() && SameKeys()
      ensures order[at] in values
      ensures |Entries()| == |order|
      ensures EntriesOf(order, values[order[at] := val]) == Entries()[at := (Entries()[at].0, val)]
    {
      EntriesOverwritten(order, values, at, val);
    }

    /** The key is there: its entry gets the new value. */
    method Overwrite(n: Node<K, V>, key: K, val: V)
      requires Intact()
      requires var i := Find(equal, Entries(), key); i < |order| && order[i] == n
      modifies this`values, values.Keys`value
      ensures Intact() && Entries() == Put(equal, old(Entries()), key, val) && n.value == val
              && values.Keys == old(values.Keys)
    {
      hide NextSynced, ListNextSynced, ListPrevSynced, ValueSynced, InBuckets, InList, Equality, Agrees, Unique,
           EntriesOf, Find, MembersOf;
      OverwriteIs(Find(equal, Entries(), key), val);
      PutKeepsUnique(equal, Entries(), key, val);
      SetValue(n, val);
      ValueIs(n);
    }

    lemma ValueIs(n: Node<K, V>)
      requires ValueSynced() && n in values
      ensures n in values && n.value == values[n]
    {
    }

    /** A node whose links are still to be set. */
    method NewNode(key: K, hash: nat, val: V) returns (n: Node<K, V>)
      requires Synced() && Members() && InBuckets(order) && InList() && hash == hashOf(key)
      modifies this`chainNext, this`listNext, this`listPrev, this`values
      ensures Synced() && fresh(n) && n.key == key && n.hash == hash && n !in order && n in values && values[n] == val
      ensures InBuckets(order) && InList() && values.Keys == old(values.Keys) + {n}
      ensures MembersOf(order + [n], values.Keys) && EntriesOf(order + [n], values) == old(Entries()) + [(key, val)]
    {
      hide MembersOf, EntriesOf, Synced, InBuckets, InList;
      n := new Node(key, hash, val);
      NotListed(n);
      ListIsLonger(n, key, val);
      Register(n);
    }

    lemma NotListed(n: Node<K, V>)
      requires Members() && n !in values.Keys
      ensures n !in order
    {
    }

    ghost method RegisterNext(n: Node<K, V>)
      requires Shape() && n !in order && n.next == null
      modifies this`chainNext
      ensures Shape() && chainNext == old(chainNext)[n := null]
    {
      FiledKept(chainNext, chainNext[n := null], buckets[..], chains, order);
      hide Filed, InList, ListNextSynced, ListPrevSynced, ValueSynced;
      chainNext := chainNext[n := null];
    }

    ghost method RegisterLinks(n: Node<K, V>)
      requires Shape() && n !in order && n.listnext == n.listprev == null
      modifies this`listNext, this`listPrev
      ensures Shape() && listNext == old(listNext)[n := null] && listPrev == old(listPrev)[n := null]
    {
      ListedKept(listNext, listPrev, listNext[n := null], listPrev[n := null], listhead, listtail, order);
      hide Listed, InBuckets, NextSynced, ValueSynced;
      listNext := listNext[n := null];
      listPrev := listPrev[n := null];
    }

    ghost method RegisterValue(n: Node<K, V>)
      requires Shape()
      modifies this`values
      ensures Shape() && values == old(values)[n := n.value]
    {
      hide InBuckets, InList, NextSynced, ListNextSynced, ListPrevSynced;
      values := values[n := n.value];
    }

    /** A node joins those that the ghost maps describe. */
    ghost method Register(n: Node<K, V>)
      requires Synced() && InBuckets(order) && InList() && n !in order && n.next == n.listnext == n.listprev == null
      modifies this`chainNext, this`listNext, this`listPrev, this`values
      ensures Synced() && InBuckets(order) && InList() && values == old(values)[n := n.value]
    {
      hide NextSynced, ListNextSynced, ListPrevSynced, ValueSynced, InBuckets, InList;
      RegisterNext(n);
      RegisterLinks(n);
      RegisterValue(n);
    }

    /** The list was empty. */
    method StartList(n: Node<K, V>)
      requires SameKeys() && ListNextSynced() && ListPrevSynced() && InList() && n in values && n !in order
               && listhead == null
      modifies this`listhead, this`listtail, this`listNext, this`listPrev, this`order, values.Keys`listnext,
               values.Keys`listprev
      ensures SameKeys() && ListNextSynced() && ListPrevSynced() && InList() && order == old(order) + [n]
    {
      hide Listed, ListNextSynced, ListPrevSynced, SameKeys;
      ListedPushBack(listNext, listPrev, listhead, listtail, order, n);
      listhead, listtail := n, n;
      SetLinks(n, null, null);
      order := order + [n];
    }

    /** The list was not empty. */
    method ProlongList(n: Node<K, V>)
      requires SameKeys() && ListNextSynced() && ListPrevSynced() && InList() && n in values && n !in order
               && listhead != null
      requires listtail != null ==> listtail in values
      modifies this`listhead, this`listtail, this`listNext, this`listPrev, this`order, values.Keys`listnext,
               values.Keys`listprev
      ensures SameKeys() && ListNextSynced() && ListPrevSynced() && InList() && order == old(order) + [n]
    {
      hide Listed, ListNextSynced, ListPrevSynced, SameKeys;
      TailIsThere();
      ListedPushBack(listNext, listPrev, listhead, listtail, order, n);
      LinkBehind(n);
      order := order + [n];
    }

    /** The assignments that put a node behind the list. */
    method LinkBehind(n: Node<K, V>)
      requires SameKeys() && ListNextSynced() && ListPrevSynced()
      requires n in values && listtail != null && listtail in values
      modifies this`listtail, this`listNext, this`listPrev, n`listnext, n`listprev, listtail`listnext
      ensures SameKeys() && ListNextSynced() && ListPrevSynced() && listtail == n
      ensures listNext == old(listNext)[old(listtail) := n][n := null] && listPrev == old(listPrev)[n := old(listtail)]
    {
      hide ListNextSynced, ListPrevSynced, SameKeys;
      InLinks(listtail);
      SetListNext(listtail, n);
      SetLinks(n, listtail, null);
      listtail := n;
    }

    /** A node is put at the end of the list. */
    method Append(n: Node<K, V>)
      requires SameKeys() && ListNextSynced() && ListPrevSynced() && InList() && n in values && n !in order
      requires listtail != null ==> listtail in values
      modifies this`listhead, this`listtail, this`listNext, this`listPrev, this`order, values.Keys`listnext,
               values.Keys`listprev
      ensures SameKeys() && ListNextSynced() && ListPrevSynced() && InList() && order == old(order) + [n]
    {
      hide InList, ListNextSynced, ListPrevSynced, SameKeys;
      if listhead == null {
        StartList(n);
      } else {
        ProlongList(n);
      }
    }

    lemma InLinks(n: Node<K, V>)
      requires SameKeys() && n in values
      ensures n in listNext && n in listPrev
    {
    }

    lemma TailIsThere()
      requires SameKeys() && InList() && (listtail != null ==> listtail in values) && listhead != null
      ensures listtail != null && listtail in listNext
    {
    }

    /** `codict_set` */
    method Set(key: K, val: V) returns (node: Node<K, V>)
      requires Valid()
      modifies this, buckets, values.Keys
      ensures history == old(history) + [Op.Set(key, val)]
      ensures Valid() && fresh(values.Keys - old(values.Keys)) && (buckets == old(buckets) || fresh(buckets))
      ensures Entries() == Put(equal, old(Entries()), key, val) && node in values && node.value == val
              && equal(node.key, key)
      ensures order == (if old(Find(equal, Entries(), key) < |order|) then old(order) else old(order) + [node])
    {
      hide Intact, Put, Find, Lookup, Run;
      var found := Get(key);
      if found != null {
        Overwrite(found, key, val);
        Note(Op.Set(key, val));
        return found;
      }
      MakeRoom();
      node := Insert(key, val);
      Note(Op.Set(key, val));
    }

    /** `_check_and_resize` as `codict_set` calls it */
    method MakeRoom()
      requires Intact()
      modifies this`buckets, this`cap, this`chains, this`chainNext, values.Keys`next
      ensures Intact() && (cap == LARGEST || count * 4 < cap * 3) && (buckets == old(buckets) || fresh(buckets))
    {
      hide NextSynced, ListNextSynced, ListPrevSynced, ValueSynced, InBuckets, InList, Equality, Agrees, Unique,
           EntriesOf, MembersOf, SameKeys;
      BucketsMatch();
      CheckAndResize();
    }

    /** A new node, in its bucket and not yet in the list. */
    method NewFiled(key: K, hash: nat, val: V) returns (n: Node<K, V>)
      requires Synced() && Members() && InBuckets(order) && InList() && hash == hashOf(key)
      modifies this`chainNext, this`listNext, this`listPrev, this`values, this`chains, buckets
      ensures Synced() && fresh(n) && n.key == key && n !in order && n in values && values[n] == val
      ensures InBuckets(order + [n]) && InList() && values.Keys == old(values.Keys) + {n} && count == old(count)
      ensures MembersOf(order + [n], values.Keys) && EntriesOf(order + [n], values) == old(Entries()) + [(key, val)]
    {
      hide NextSynced, ListNextSynced, ListPrevSynced, ValueSynced, SameKeys, InBuckets, InList, EntriesOf, MembersOf;
      n := NewNode(key, hash, val);
      FileNode(n, order);
    }

    /** A key that is not there: a node for it, filed and listed. */
    method Insert(key: K, val: V) returns (node: Node<K, V>)
      requires Intact() && Find(equal, Entries(), key) == |Entries()| && (cap == LARGEST || count * 4 < cap * 3)
      modifies this`chainNext, this`listNext, this`listPrev, this`values, this`chains, this`order
      modifies this`listhead, this`listtail, this`count, buckets, values.Keys
      ensures Intact() && fresh(node) && values.Keys == old(values.Keys) + {node} && node.value == val
              && equal(node.key, key)
      ensures Entries() == Put(equal, old(Entries()), key, val) && order == old(order) + [node]
    {
      hide NextSynced, ListNextSynced, ListPrevSynced, ValueSynced, InBuckets, SameKeys, InList, Equality, Agrees,
           Unique, EntriesOf, Find, MembersOf, IsSize, Put;
      PutIsAppend(key, val);
      PutKeepsUnique(equal, Entries(), key, val);
      node := NewListed(key, val);
      EqualToSelf(equal, key);
      count := count + 1;
    }

    /** A new node, in its bucket and at the end of the list. */
    method NewListed(key: K, val: V) returns (n: Node<K, V>)
      requires Synced() && Members() && InBuckets(order) && InList()
      modifies this`chainNext, this`listNext, this`listPrev, this`values, this`chains, this`order
      modifies this`listhead, this`listtail, buckets, values.Keys
      ensures Synced() && Members() && InBuckets(order) && InList() && values.Keys == old(values.Keys) + {n}
      ensures fresh(n) && n.key == key && n.value == val && order == old(order) + [n]
      ensures Entries() == old(Entries()) + [(key, val)] && count == old(count)
    {
      hide NextSynced, ListNextSynced, ListPrevSynced, ValueSynced, InBuckets, SameKeys, InList, EntriesOf, MembersOf;
      TailIsNode();
      n := NewFiled(key, hashOf(key), val);
      Append(n);
      ValueIs(n);
    }

    lemma PutIsAppend(key: K, val: V)
      requires Find(equal, Entries(), key) == |Entries()|
      ensures Put(equal, Entries(), key, val) == Entries() + [(key, val)]
    {
    }

    lemma ListIsLonger(n: Node<K, V>, key: K, val: V)
      requires Members() && n !in values && n.key == key && n.hash == hashOf(key)
      ensures MembersOf(order + [n], values.Keys + {n}) && |Entries()| == |order|
      ensures EntriesOf(order + [n], values[n := val]) == Entries() + [(key, val)]
    {
      EntriesLonger(order, values, n, val);
    }

    lemma TailIsNode()
      requires Members() && InList()
      ensures listtail != null ==> listtail in values
    {
    }

    // ---- deleting ------------------------------------------------------------------------

    /** The search of `codict_del`: the node, and the one before it in its chain. */
    method FindWithPrev(key: K) returns (curr: Node?<K, V>, prev: Node?<K, V>, ghost k: nat)
      requires Intact()
      ensures curr == null ==> Find(equal, Entries(), key) == |Entries()| == |order|
      ensures curr != null ==> Located(curr, prev, key, k)
    {
      hide Intact, Entries;
      BucketsMatch();
      var hash := hashOf(key);
      var idx := Slot(hash, cap);
      ghost var c := chains[idx];
      k := 0;
      ChainStart(idx);
      prev := null;
      curr := buckets[idx];
      while curr != null
        invariant k <= |c| && curr == (if k < |c| then c[k] else null) && prev == (if k > 0 then c[k - 1] else null)
        invariant Passed(c, k, key)
        decreases |c| - k
      {
        ChainStep(idx, k);
        if curr.hash == hash && equal(curr.key, key) {
          FoundNode(curr, key);
          return;
        }
        prev := curr;
        curr := curr.next;
        k := k + 1;
      }
      NotFound(key, c);
    }

    /** The node of the key's entry is number `k` of its chain. */
    ghost predicate Located(n: Node<K, V>, prev: Node?<K, V>, key: K, k: nat)
      reads this`chains, this`order, this`values
    {
      && n.hash == hashOf(key) && n in order && Find(equal, Entries(), key) < |order|
      && order[Find(equal, Entries(), key)] == n
      && |chains| > 0
      && var c := chains[Slot(n.hash, |chains|)];
         k < |c| && c[k] == n && prev == if k > 0 then c[k - 1] else null
    }

    /** A node is taken out of its chain. */
    method Unfile(n: Node<K, V>, prev: Node?<K, V>, key: K, ghost k: nat, ghost at: nat)
      requires SameKeys() && NextSynced() && InBuckets(order) && Members() && NoDup(order)
      requires Located(n, prev, key, k) && at < |order| && order[at] == n
      modifies this`chainNext, this`chains, values.Keys`next, buckets
      ensures SameKeys() && NextSynced() && InBuckets(Without(order, at))
    {
      hide Filed, Without, NoDup, NextSynced, MembersOf, Located, InBuckets;
      LocatedMeans(n, prev, key, k);
      BucketsAre(order);
      var idx := Slot(n.hash, cap);
      ghost var next, heads := chainNext, buckets[..];
      ChainPlace(idx, k);
      if n == buckets[idx] {
        buckets[idx] := n.next;
      } else {
        SetNext(prev, n.next);
      }
      assert buckets[..] == if k == 0 then heads[idx := next[n]] else heads;
      FiledCut(next, heads, chains, order, n, k, at, chainNext, buckets[..]);
      chains := chains[idx := Without(chains[idx], k)];
      AreBuckets(Without(order, at));
    }

    lemma BucketsAre(filed: seq<Node<K, V>>)
      requires InBuckets(filed)
      ensures buckets.Length == cap == |chains| > 0 && Filed(chainNext, buckets[..], chains, filed)
    {
    }

    lemma AreBuckets(filed: seq<Node<K, V>>)
      requires buckets.Length == cap == |chains| && Filed(chainNext, buckets[..], chains, filed)
      ensures InBuckets(filed)
    {
    }

    lemma LocatedMeans(n: Node<K, V>, prev: Node?<K, V>, key: K, k: nat)
      requires Located(n, prev, key, k)
      ensures |chains| > 0
      ensures var c := chains[Slot(n.hash, |chains|)];
              k < |c| && c[k] == n && prev == if k > 0 then c[k - 1] else null
    {
    }

    lemma ChainPlace(i: nat, k: nat)
      requires SameKeys() && NextSynced() && InBuckets(order) && Members() && i < |chains| && k < |chains[i]|
      ensures i < buckets.Length && (chains[i][k] == buckets[i] <==> k == 0)
      ensures chains[i][k] in values && chains[i][k] in chainNext && chains[i][k].next == chainNext[chains[i][k]]
      ensures k > 0 ==> chains[i][k - 1] in values && chains[i][k - 1] in chainNext
    {
      assert Chain(chainNext, buckets[..][i], chains[i]) && NoDup(chains[i]);
      assert chains[i][k] in order && (k > 0 ==> chains[i][k - 1] in order);
    }

    lemma LookList(n: Node<K, V>)
      requires ListNextSynced() && ListPrevSynced() && n in listNext && n in listPrev
      ensures n.listnext == listNext[n] && n.listprev == listPrev[n]
    {
    }

    /** The links of the list that ran from `head` to `tail` are led past a node. */
    method Bypass(n: Node<K, V>, ghost at: nat, ghost head: Node?<K, V>, ghost tail: Node?<K, V>)
      requires SameKeys() && ListNextSynced() && ListPrevSynced() && Members() && at < |order| && order[at] == n
      requires Listed(listNext, listPrev, head, tail, order)
      modifies this`listNext, this`listPrev, values.Keys`listnext, values.Keys`listprev
      ensures SameKeys() && ListNextSynced() && ListPrevSynced() && n in listNext && n in listPrev
      ensures listNext[n] == old(n.listnext) && listPrev[n] == old(n.listprev)
      ensures Listed(listNext, listPrev, if head == n then listNext[n] else head,
                     if tail == n then listPrev[n] else tail, Without(order, at))
    {
      hide Listed, MembersOf, ListNextSynced, ListPrevSynced, SameKeys;
      ghost var next, prev := listNext, listPrev;
      ListPlace(at, head, tail);
      InLinks(n);
      LookList(n);
      if n.listprev != null {
        SetListNext(n.listprev, n.listnext);
        LookList(n);
      }
      if n.listnext != null {
        SetListPrev(n.listnext, n.listprev);
      }
      ListedCut(next, prev, head, tail, order, at, listNext, listPrev);
    }

    lemma ListPlace(at: nat, head: Node?<K, V>, tail: Node?<K, V>)
      requires SameKeys() && Listed(listNext, listPrev, head, tail, order) && Members() && at < |order|
      ensures var n := order[at];
              && n in values && n in listNext && n in listPrev
              && (listPrev[n] != null ==> listPrev[n] in values && listPrev[n] in listNext && listPrev[n] != n)
              && (listNext[n] != null ==> listNext[n] in values && listNext[n] in listPrev && listNext[n] != n)
              && (head == n ==> listNext[n] == After(order, 0)) && NoDup(order)
    {
    }

    ghost method ForgetNext(n: Node<K, V>)
      requires Shape() && n !in order
      modifies this`chainNext
      ensures Shape() && chainNext == old(chainNext) - {n}
    {
      FiledKept(chainNext, chainNext - {n}, buckets[..], chains, order);
      hide Filed, InList, ListNextSynced, ListPrevSynced, ValueSynced;
      chainNext := chainNext - {n};
    }

    ghost method ForgetLinks(n: Node<K, V>)
      requires Shape() && n !in order
      modifies this`listNext, this`listPrev
      ensures Shape() && listNext == old(listNext) - {n} && listPrev == old(listPrev) - {n}
    {
      ListedKept(listNext, listPrev, listNext - {n}, listPrev - {n}, listhead, listtail, order);
      hide Listed, InBuckets, NextSynced, ValueSynced;
      listNext := listNext - {n};
      listPrev := listPrev - {n};
    }

    ghost method ForgetValue(n: Node<K, V>)
      requires Shape()
      modifies this`values
      ensures Shape() && values == old(values) - {n}
    {
      hide InBuckets, InList, NextSynced, ListNextSynced, ListPrevSynced;
      values := values - {n};
    }

    /** The ghost maps lose a node that no chain and no list holds any more. */
    ghost method Forget(n: Node<K, V>)
      requires Synced() && InBuckets(order) && InList() && n !in order
      modifies this`chainNext, this`listNext, this`listPrev, this`values
      ensures Synced() && InBuckets(order) && InList() && values == old(values) - {n}
    {
      hide NextSynced, ListNextSynced, ListPrevSynced, ValueSynced, InBuckets, InList;
      ForgetNext(n);
      ForgetLinks(n);
      ForgetValue(n);
    }

    /** The middle of `codict_del`: list head and tail, then the neighbours. */
    method Unlist(n: Node<K, V>, ghost at: nat)
      requires SameKeys() && ListNextSynced() && ListPrevSynced() && InList() && Members() && at < |order|
               && order[at] == n
      modifies this`listhead, this`listtail, this`listNext, this`listPrev, this`order, values.Keys`listnext,
               values.Keys`listprev
      ensures SameKeys() && ListNextSynced() && ListPrevSynced() && InList() && order == Without(old(order), at)
    {
      hide Listed, MembersOf, ListNextSynced, ListPrevSynced, SameKeys;
      ghost var head, tail := listhead, listtail;
      ListPlace(at, head, tail);
      LookList(n);
      if listhead == n { listhead := n.listnext; }
      if listtail == n { listtail := n.listprev; }
      Bypass(n, at, head, tail);
      order := Without(order, at);
    }

    /** `codict_del` once the node is found. */
    method TakeOut(n: Node<K, V>, prev: Node?<K, V>, key: K, ghost k: nat)
      requires Intact() && Located(n, prev, key, k)
      modifies this`chainNext, this`chains, this`listhead, this`listtail, this`listNext, this`listPrev, this`order
      modifies this`values, values.Keys`next, values.Keys`listnext, values.Keys`listprev, buckets
      ensures Synced() && Members() && InBuckets(order) && InList() && values.Keys == old(values.Keys) - {n}
      ensures order == Without(old(order), old(Find(equal, Entries(), key)))
              && Entries() == Cut(equal, old(Entries()), key)
    {
      hide NextSynced, ListNextSynced, ListPrevSynced, ValueSynced, InBuckets, InList, EntriesOf, Find, MembersOf,
           Located, Without, Listed, NoDup, SameKeys, Cut;
      ghost var at := Find(equal, Entries(), key);
      LocatedAt(n, prev, key, k);
      Unfile(n, prev, key, k, at);
      ListIsShorter(at, key);
      Unlist(n, at);
      StillSynced();
      Forget(n);
    }

    lemma ListIsShorter(at: nat, key: K)
      requires at < |order| && NoDup(order) && Members() && SameKeys() && at == Find(equal, Entries(), key)
      ensures var n := order[at];
              && n in values && n !in Without(order, at) && MembersOf(Without(order, at), values.Keys - {n})
              && |Entries()| == |order| && EntriesOf(Without(order, at), values - {n}) == Cut(equal, Entries(), key)
    {
      WithoutIs(order, at);
      EntriesShorter(order, values, at);
    }

    lemma LocatedAt(n: Node<K, V>, prev: Node?<K, V>, key: K, k: nat)
      requires Located(n, prev, key, k) && InList()
      ensures var at := Find(equal, Entries(), key); at < |order| && order[at] == n && NoDup(order)
    {
    }

    /** `codict_del` */
    method Del(key: K) returns (found: bool)
      requires Valid()
      modifies this`chainNext, this`chains, this`listhead, this`listtail, this`listNext, this`listPrev, this`order
      modifies this`values, this`count, this`history, buckets
      modifies values.Keys`next, values.Keys`listnext, values.Keys`listprev
      ensures Valid() && values.Keys <= old(values.Keys) && history == old(history) + [Op.Del(key)]
      ensures found <==> old(Lookup(equal, Entries(), key)).Some?
      ensures Entries() == Cut(equal, old(Entries()), key) && count == if found then old(count) - 1 else old(count)
    {
      hide Intact, Cut, Lookup, Run, Located;
      var curr, prev;
      ghost var k;
      curr, prev, k := FindWithPrev(key);
      found := curr != null;
      if found {
        Remove(curr, prev, key, k);
      } else {
        NothingToCut(key);
      }
      Note(Op.Del(key));
    }

    lemma NothingToCut(key: K)
      requires Find(equal, Entries(), key) == |Entries()|
      ensures Lookup(equal, Entries(), key) == None && Cut(equal, Entries(), key) == Entries()
    {
    }

    /** The node found is taken out and counted off. */
    method Remove(curr: Node<K, V>, prev: Node?<K, V>, key: K, ghost k: nat)
      requires Intact() && Located(curr, prev, key, k)
      modifies this`chainNext, this`chains, this`listhead, this`listtail, this`listNext, this`listPrev, this`order
      modifies this`values, this`count, values.Keys`next, values.Keys`listnext, values.Keys`listprev, buckets
      ensures Intact() && values.Keys <= old(values.Keys) && count == old(count) - 1
      ensures old(Lookup(equal, Entries(), key)).Some? && Entries() == Cut(equal, old(Entries()), key)
    {
      hide NextSynced, ListNextSynced, ListPrevSynced, ValueSynced, InBuckets, InList, Equality, Agrees, Unique,
           EntriesOf, Find, MembersOf, Located;
      LookupCut(equal, Entries(), key, key);
      LocatedIn(curr, prev, key, k);
      TakeOut(curr, prev, key, k);
      count := count - 1;
    }

    lemma LocatedIn(n: Node<K, V>, prev: Node?<K, V>, key: K, k: nat)
      requires Located(n, prev, key, k) && Members()
      ensures Find(equal, Entries(), key) < |order| == |Entries()|
    {
    }

    // ---- clearing --------------------------------------------------------------------------

    /** The inner loop of `codict_clear`: each node is left before it is freed. */
    method FreeChain(first: Node?<K, V>, ghost c: seq<Node<K, V>>)
      returns (ghost freed: seq<Node<K, V>>, ghost trace: seq<Access<K, V>>)
      requires NextSynced() && Chain(chainNext, first, c) && NoDup(c)
      ensures freed == c && Traced(trace, freed)
    {
      ChainLinks(first, c);
      hide NextSynced, Chain, NoDup, Traced;
      trace := [];
      FirstTrace(c);
      var e := first;
      ghost var k := 0;
      while e != null
        invariant k <= |c| && e == (if k < |c| then c[k] else null) && Traced(trace, c[..k])
        decreases |c| - k
      {
        var t := e.next;
        LeaveAndFree(trace, c, k);
        trace, k := trace + [Read(e), Free(e)], k + 1;
        e := t;
      }
      freed := c;
      assert c[..k] == c;
    }

    lemma ChainLinks(first: Node?<K, V>, c: seq<Node<K, V>>)
      requires NextSynced() && Chain(chainNext, first, c)
      ensures first == if |c| > 0 then c[0] else null
      ensures forall k {:trigger c[k].next} :: 0 <= k < |c| ==> c[k].next == if k + 1 < |c| then c[k + 1] else null
    {
    }

    /** The loops of `codict_clear`: every node is freed once, and none is read after that. */
    method FreeAll() returns (ghost freed: seq<Node<K, V>>, ghost trace: seq<Access<K, V>>)
      requires NextSynced() && InBuckets(order) && Members()
      modifies buckets
      ensures NoDup(freed) && (set n | n in freed) == values.Keys && Traced(trace, freed)
      ensures buckets.Length == cap > 0 && forall j :: 0 <= j < cap ==> buckets[j] == null
    {
      hide NextSynced, InBuckets, Filed, MembersOf, Traced, Slotted;
      freed, trace := [], [];
      ghost var heads := buckets[..];
      BucketsAre(order);
      ChainsAreSlotted(heads);
      NothingTraced<K, V>();
      for i := 0 to cap
        invariant forall j :: 0 <= j < i ==> buckets[j] == null
        invariant forall j :: i <= j < cap ==> buckets[j] == heads[j]
        invariant freed == Flat(chains, i) && Traced(trace, freed)
      {
        OneChain(heads, i);
        ghost var c, more;
        c, more := FreeChain(buckets[i], chains[i]);
        FlatIsAll(chains, order, i + 1);
        TraceGoesOn(trace, freed, more, c);
        freed, trace := freed + c, trace + more;
        buckets[i] := null;
      }
      FlatIsAll(chains, order, cap);
      AllFreed(freed);
    }

    /** `codict_clear` */
    method Clear() returns (ghost freed: seq<Node<K, V>>, ghost trace: seq<Access<K, V>>)
      requires Valid()
      modifies this`chainNext, this`chains, this`listhead, this`listtail, this`listNext, this`listPrev, this`order
      modifies this`values, this`count, this`history, buckets
      ensures Valid() && Entries() == [] && count == 0 && cap == old(cap) && values.Keys == {}
      ensures NoDup(freed) && (set n | n in freed) == old(values.Keys) && Traced(trace, freed)
      ensures history == old(history) + [Op.Clear]
    {
      hide Intact, NextSynced, Members, InBuckets, Equality, Agrees, EntriesOf, Run, Traced, IsSize;
      IntactMeans();
      freed, trace := FreeAll();
      Reset();
      Note(Op.Clear);
    }

    /** The end of `codict_clear`. */
    method Reset()
      requires Equality(equal) && Agrees(hashOf, equal) && IsSize(cap) && buckets.Length == cap > 0
      requires forall i :: 0 <= i < cap ==> buckets[i] == null
      modifies this`chainNext, this`chains, this`listhead, this`listtail, this`listNext, this`listPrev, this`order
      modifies this`values, this`count
      ensures Intact() && Entries() == [] && count == 0 && values.Keys == {}
    {
      hide Intact, Equality, Agrees, IsSize, EntriesOf, Filed, Listed, Synced, Members;
      listhead, listtail := null, null;
      count := 0;
      chains := seq(cap, _ => []);
      order, chainNext, listNext, listPrev, values := [], map[], map[], map[], map[];
      EmptyIsValid();
    }

    lemma OneChain(heads: seq<Node?<K, V>>, i: nat)
      requires Filed(chainNext, heads, chains, order) && i < |chains|
      ensures Chain(chainNext, heads[i], chains[i]) && NoDup(chains[i])
    {
    }

    lemma ChainsAreSlotted(heads: seq<Node?<K, V>>)
      requires Filed(chainNext, heads, chains, order)
      ensures Slotted(chains, order)
    {
    }

    lemma AllFreed(freed: seq<Node<K, V>>)
      requires Members() && (forall n :: n in freed ==> n in order) && (forall n :: n in order ==> n in freed)
      ensures (set n | n in freed) == values.Keys
    {
    }

    lemma IntactMeans()
      requires Intact()
      ensures NextSynced() && InBuckets(order) && Members()
      ensures Equality(equal) && Agrees(hashOf, equal) && IsSize(cap)
    {
    }

    lemma EmptyIsValid()
      requires Equality(equal) && Agrees(hashOf, equal) && IsSize(cap) && count == 0
      requires order == [] && chainNext == listNext == listPrev == map[] && values == map[]
      requires listhead == listtail == null && buckets.Length == cap == |chains| > 0
      requires forall i :: 0 <= i < cap ==> buckets[i] == null && chains[i] == []
      ensures Intact() && Entries() == []
    {
    }

    // ---- moving ------------------------------------------------------------------------------

    lemma MoveKeeps(at: nat, head: bool)
      requires at < |order| && Members() && InList() && Equality(equal) && Unique(equal, Entries())
      ensures |Entries()| == |order| && MembersOf(Moved(order, at, head), values.Keys)
      ensures EntriesOf(Moved(order, at, head), values) == Moved(Entries(), at, head)
      ensures Unique(equal, Moved(Entries(), at, head))
      ensures Moved(order, at, head)
              == if head then [order[at]] + Without(order, at) else Without(order, at) + [order[at]]
      ensures order[at] !in Without(order, at) && |Moved(order, at, head)| == |order|
    {
      EntriesMoved(order, values, at, head);
      MovedIsUnique(equal, Entries(), at, head);
      WithoutIs(order, at);
    }

    method PushFront(n: Node<K, V>)
      requires SameKeys() && ListNextSynced() && ListPrevSynced() && n in values && n !in order && order != []
      requires InList() && (forall m :: m in order ==> m in values)
      modifies this`listhead, this`listtail, this`listNext, this`listPrev, this`order, values.Keys`listnext,
               values.Keys`listprev
      ensures SameKeys() && ListNextSynced() && ListPrevSynced() && InList() && order == [n] + old(order)
    {
      hide Listed, ListNextSynced, ListPrevSynced, SameKeys;
      EndsAreNodes();
      ListedPushFront(listNext, listPrev, listhead, listtail, order, n);
      LinkInFront(n);
      order := [n] + order;
    }

    /** Both links of a node in the list. */
    method SetLinks(n: Node<K, V>, prev: Node?<K, V>, next: Node?<K, V>)
      requires SameKeys() && ListNextSynced() && ListPrevSynced() && n in values
      modifies this`listNext, this`listPrev, n`listnext, n`listprev
      ensures SameKeys() && ListNextSynced() && ListPrevSynced()
      ensures listNext == old(listNext)[n := next] && listPrev == old(listPrev)[n := prev]
    {
      hide ListNextSynced, ListPrevSynced, SameKeys;
      InLinks(n);
      SetListPrev(n, prev);
      SetListNext(n, next);
    }

    /** The assignments that put a node in front of the list. */
    method LinkInFront(n: Node<K, V>)
      requires SameKeys() && ListNextSynced() && ListPrevSynced()
      requires n in values && listhead != null && listhead in values
      modifies this`listhead, this`listNext, this`listPrev, n`listnext, n`listprev, listhead`listprev
      ensures SameKeys() && ListNextSynced() && ListPrevSynced() && listhead == n
      ensures listNext == old(listNext)[n := old(listhead)] && listPrev == old(listPrev)[n := null][old(listhead) := n]
    {
      hide ListNextSynced, ListPrevSynced, SameKeys;
      SetLinks(n, null, listhead);
      InLinks(listhead);
      SetListPrev(listhead, n);
      listhead := n;
    }

    /** `codict_move` to the front, when the node is not there yet. */
    method MoveToHead(n: Node<K, V>, ghost at: nat)
      requires SameKeys() && ListNextSynced() && ListPrevSynced() && InList() && Members() && at < |order|
               && order[at] == n
      requires n != listhead
      modifies this`listhead, this`listtail, this`listNext, this`listPrev, this`order, values.Keys`listnext,
               values.Keys`listprev
      ensures SameKeys() && ListNextSynced() && ListPrevSynced() && InList() && order == [n] + Without(old(order), at)
    {
      hide Listed, MembersOf, ListNextSynced, ListPrevSynced, SameKeys, Without;
      ghost var head, tail := listhead, listtail;
      ListPlace(at, head, tail);
      EndsArePlaces(at);
      LookList(n);
      if listtail == n { listtail := n.listprev; }
      Bypass(n, at, head, tail);
      order := Without(order, at);
      PushFront(n);
    }

    method PushBack(n: Node<K, V>)
      requires SameKeys() && ListNextSynced() && ListPrevSynced() && n in values && n !in order && order != []
      requires InList() && (forall m :: m in order ==> m in values)
      modifies this`listhead, this`listtail, this`listNext, this`listPrev, this`order, values.Keys`listnext,
               values.Keys`listprev
      ensures SameKeys() && ListNextSynced() && ListPrevSynced() && InList() && order == old(order) + [n]
    {
      hide Listed, ListNextSynced, ListPrevSynced, SameKeys;
      EndsAreNodes();
      ListedPushBackOnto(listNext, listPrev, listhead, listtail, order, n);
      LinkAtEnd(n);
      order := order + [n];
    }

    /** The assignments that put a node back at the end of the list. */
    method LinkAtEnd(n: Node<K, V>)
      requires SameKeys() && ListNextSynced() && ListPrevSynced()
      requires n in values && listtail != null && listtail in values
      modifies this`listtail, this`listNext, this`listPrev, n`listnext, n`listprev, listtail`listnext
      ensures SameKeys() && ListNextSynced() && ListPrevSynced() && listtail == n
      ensures listNext == old(listNext)[n := null][old(listtail) := n] && listPrev == old(listPrev)[n := old(listtail)]
    {
      hide ListNextSynced, ListPrevSynced, SameKeys;
      SetLinks(n, listtail, null);
      InLinks(listtail);
      SetListNext(listtail, n);
      listtail := n;
    }

    /** `codict_move` to the end, when the node is not there yet. */
    method MoveToTail(n: Node<K, V>, ghost at: nat)
      requires SameKeys() && ListNextSynced() && ListPrevSynced() && InList() && Members() && at < |order|
               && order[at] == n
      requires n != listtail
      modifies this`listhead, this`listtail, this`listNext, this`listPrev, this`order, values.Keys`listnext,
               values.Keys`listprev
      ensures SameKeys() && ListNextSynced() && ListPrevSynced() && InList() && order == Without(old(order), at) + [n]
    {
      hide Listed, MembersOf, ListNextSynced, ListPrevSynced, SameKeys, Without;
      ghost var head, tail := listhead, listtail;
      ListPlace(at, head, tail);
      EndsArePlaces(at);
      LookList(n);
      if listhead == n { listhead := n.listnext; }
      Bypass(n, at, head, tail);
      order := Without(order, at);
      PushBack(n);
    }

    lemma EndsAreNodes()
      requires InList() && order != [] && (forall m :: m in order ==> m in values)
      ensures listhead != null && listhead in values && listtail != null && listtail in values && listtail in order
    {
    }

    lemma EndsArePlaces(at: nat)
      requires InList() && Members() && at < |order|
      ensures listhead != null && listhead in values && listtail != null && listtail in values
      ensures order[at] !in Without(order, at)
      ensures forall m :: m in Without(order, at) ==> m in values
      ensures listhead != order[at] || listtail != order[at] ==> Without(order, at) != []
    {
      WithoutIs(order, at);
      assert listhead == order[0] && listtail == order[|order| - 1];
    }

    /** `codict_move`, for the node of entry `at` */
    method Move(node: Node<K, V>, head: bool, ghost at: nat)
      requires Valid() && at < |order| && order[at] == node
      modifies this`listhead, this`listtail, this`listNext, this`listPrev, this`order, this`history
      modifies values.Keys`listnext, values.Keys`listprev
      ensures Valid() && order == Moved(old(order), at, head) && |old(Entries())| == |old(order)|
      ensures Entries() == Moved(old(Entries()), at, head) && history == old(history) + [Op.Move(node.key, head)]
    {
      hide Intact, EntriesOf, Moved, Run;
      EntryAt(at);
      MoveNode(node, head, at);
      Note(Op.Move(node.key, head));
    }

    lemma EntryAt(at: nat)
      requires Intact() && at < |order|
      ensures |Entries()| == |order| && Find(equal, Entries(), order[at].key) == at
    {
      hide NextSynced, ListNextSynced, ListPrevSynced, ValueSynced, InBuckets, InList;
      EntriesAt(order, values);
      EqualToSelf(equal, order[at].key);
      FindIs(equal, Entries(), order[at].key, at);
    }

    method MoveNode(node: Node<K, V>, head: bool, ghost at: nat)
      requires Intact() && at < |order| && order[at] == node
      modifies this`listhead, this`listtail, this`listNext, this`listPrev, this`order, values.Keys`listnext,
               values.Keys`listprev
      ensures Intact() && order == Moved(old(order), at, head) && |old(Entries())| == |old(order)|
      ensures Entries() == Moved(old(Entries()), at, head)
    {
      hide NextSynced, ListNextSynced, ListPrevSynced, ValueSynced, SameKeys, InBuckets, InList, Equality, Agrees,
           Unique, EntriesOf, MembersOf, Moved, IsSize;
      MoveKeeps(at, head);
      BucketsReordered(at, head);
      MoveInList(node, head, at);
    }

    method MoveInList(node: Node<K, V>, head: bool, ghost at: nat)
      requires SameKeys() && ListNextSynced() && ListPrevSynced() && InList() && Members()
      requires at < |order| && order[at] == node
      modifies this`listhead, this`listtail, this`listNext, this`listPrev, this`order, values.Keys`listnext,
               values.Keys`listprev
      ensures SameKeys() && ListNextSynced() && ListPrevSynced() && InList() && order == Moved(old(order), at, head)
    {
      hide ListNextSynced, ListPrevSynced, SameKeys, InList, MembersOf, Moved, Without;
      MovedIs(at, head);
      AtTheEnds(at);
      if head {
        if listhead != node {
          MoveToHead(node, at);
        }
      } else {
        if listtail != node {
          MoveToTail(node, at);
        }
      }
    }

    lemma MovedIs(at: nat, head: bool)
      requires at < |order|
      ensures Moved(order, at, head)
              == if head then [order[at]] + Without(order, at) else Without(order, at) + [order[at]]
    {
    }

    lemma AtTheEnds(at: nat)
      requires InList() && at < |order|
      ensures listhead == order[at] ==> Moved(order, at, true) == order
      ensures listtail == order[at] ==> Moved(order, at, false) == order
    {
    }

    /** What the buckets hold does not depend on the order. */
    lemma BucketsReordered(at: nat, head: bool)
      requires InBuckets(order) && at < |order|
      ensures InBuckets(Moved(order, at, head))
    {
      SlottedReordered(chains, order, at, head);
    }

    lemma SlottedReordered(chains: seq<seq<Node<K, V>>>, order: seq<Node<K, V>>, at: nat, head: bool)
      requires Slotted(chains, order) && at < |order|
      ensures Slotted(chains, Moved(order, at, head))
    {
      MovedIsReordered(order, at, head);
      var t := Moved(order, at, head);
      forall n | n in t ensures n in order { assert n in multiset(t); }
      forall n | n in order ensures n in t { assert n in multiset(order); }
    }

    // ---- iterating -----------------------------------------------------------------------------

    /** `codict_begin` and `codict_end` */
    method Ends() returns (first: Node?<K, V>, last: Node?<K, V>)
      requires Valid()
      ensures first == First(order) && last == Last(order)
    {
      first, last := listhead, listtail;
    }

    /** `codict_next` and `codict_prev`, from the node of entry `at` */
    method Neighbours(node: Node<K, V>, ghost at: nat) returns (next: Node?<K, V>, prev: Node?<K, V>)
      requires Valid() && at < |order| && order[at] == node
      ensures next == After(order, at) && prev == Before(order, at)
    {
      hide Intact, Run;
      ListLinks(at);
      next, prev := node.listnext, node.listprev;
    }

    lemma ListLinks(at: nat)
      requires Intact() && at < |order|
      ensures order[at].listnext == After(order, at) && order[at].listprev == Before(order, at)
    {
      assert order[at] in values;
    }

    // ---- any operation -------------------------------------------------------------------------

    /** Whatever a client does is a step of the ordered map. */
    method Perform(op: Op<K, V>)
      requires Valid()
      modifies this, buckets, values.Keys
      ensures Valid() && fresh(values.Keys - old(values.Keys)) && (buckets == old(buckets) || fresh(buckets))
      ensures Entries() == Step(equal, old(Entries()), op)
    {
      hide Intact, Run, Equality, Unique, EntriesOf, Find, Moved, Put, Cut;
      match op
      case Set(key, val) => var node := Set(key, val);
      case Del(key) => var found := Del(key);
      case Clear =>
        ghost var freed, trace;
        freed, trace := Clear();
      case Move(key, head) =>
        var node := Get(key);
        if node != null {
          Move(node, head, Find(equal, Entries(), key));
        }
    }
  }
}
