/** The ordered map that the dictionary of src/co_dict.c stands for: entries in
    list order, found by a client's notion of equality of keys. */
module OrderedMap {
  import opened Basics

  /** What the client's `fn_equal` and `fn_hash` are to be. */
  ghost predicate Equality<K(!new)>(eq: (K, K) -> bool) {
    && (forall a :: eq(a, a))
    && (forall a, b :: eq(a, b) ==> eq(b, a))
    && (forall a, b, c :: eq(a, b) && eq(b, c) ==> eq(a, c))
  }

  lemma Linked<K(!new)>(eq: (K, K) -> bool, a: K, b: K, c: K)
    requires Equality(eq)
    ensures eq(a, b) == eq(b, a) && eq(b, c) == eq(c, b)
    ensures eq(a, b) && eq(b, c) ==> eq(a, c)
  {
  }

  lemma EqualToSelf<K(!new)>(eq: (K, K) -> bool, a: K)
    requires Equality(eq)
    ensures eq(a, a)
  {
  }

  ghost predicate Agrees<K(!new)>(hash: K -> nat, eq: (K, K) -> bool) {
    forall a, b :: eq(a, b) ==> hash(a) == hash(b)
  }

  /** The place of the first entry for `key`, or the number of entries. */
  ghost function Find<K, V>(eq: (K, K) -> bool, s: seq<(K, V)>, key: K): (i: nat)
    ensures i <= |s| && (i < |s| ==> eq(s[i].0, key)) && forall j :: 0 <= j < i ==> !eq(s[j].0, key)
  {
    if s == [] || eq(s[0].0, key) then 0 else Find(eq, s[1..], key) + 1
  }

  ghost predicate Unique<K, V>(eq: (K, K) -> bool, s: seq<(K, V)>) {
    forall i, j :: 0 <= i < j < |s| ==> !eq(s[i].0, s[j].0)
  }

  ghost function Lookup<K, V>(eq: (K, K) -> bool, s: seq<(K, V)>, key: K): Option<V> {
    var i := Find(eq, s, key);
    if i < |s| then Some(s[i].1) else None
  }

  ghost function Put<K, V>(eq: (K, K) -> bool, s: seq<(K, V)>, key: K, val: V): seq<(K, V)> {
    var i := Find(eq, s, key);
    if i < |s| then s[i := (s[i].0, val)] else s + [(key, val)]
  }

  ghost function Cut<K, V>(eq: (K, K) -> bool, s: seq<(K, V)>, key: K): seq<(K, V)> {
    var i := Find(eq, s, key);
    if i < |s| then s[..i] + s[i + 1..] else s
  }

  /** Entry `i` moved to one end. */
  ghost function Moved<E>(s: seq<E>, i: nat, head: bool): seq<E>
    requires i < |s|
  {
    if head then [s[i]] + s[..i] + s[i + 1..] else s[..i] + s[i + 1..] + [s[i]]
  }

  /** In a row without duplicate keys every entry for the key is the one found. */
  lemma FindIs<K(!new), V>(eq: (K, K) -> bool, s: seq<(K, V)>, key: K, i: nat)
    requires Equality(eq) && Unique(eq, s) && i < |s| && eq(s[i].0, key)
    ensures Find(eq, s, key) == i && Lookup(eq, s, key) == Some(s[i].1)
  {
    var j := Find(eq, s, key);
    if j < |s| { Linked(eq, s[j].0, key, s[i].0); }
  }

  lemma LookupNone<K, V>(eq: (K, K) -> bool, s: seq<(K, V)>, key: K)
    requires forall i :: 0 <= i < |s| ==> !eq(s[i].0, key)
    ensures Find(eq, s, key) == |s| && Lookup(eq, s, key) == None
  {
  }

  lemma PutKeepsUnique<K(!new), V>(eq: (K, K) -> bool, s: seq<(K, V)>, key: K, val: V)
    requires Equality(eq) && Unique(eq, s)
    ensures Unique(eq, Put(eq, s, key, val))
  {
  }

  /** What a later lookup finds after a value is set. */
  lemma LookupPut<K(!new), V>(eq: (K, K) -> bool, s: seq<(K, V)>, key: K, val: V, other: K)
    requires Equality(eq) && Unique(eq, s)
    ensures Lookup(eq, Put(eq, s, key, val), other) == if eq(key, other) then Some(val) else Lookup(eq, s, other)
  {
    PutKeepsUnique(eq, s, key, val);
    var i, t, j := Find(eq, s, key), Put(eq, s, key, val), Find(eq, s, other);
    if eq(key, other) {
      assert eq(t[i].0, other);
      FindIs(eq, t, other, i);
    } else if j < |s| {
      Linked(eq, key, s[j].0, other);
      FindIs(eq, t, other, j);
    } else {
      assert i < |s| ==> !eq(s[i].0, other);
      LookupNone(eq, t, other);
    }
  }

  lemma PartsAreUnique<K, V>(eq: (K, K) -> bool, s: seq<(K, V)>, i: nat)
    requires i < |s| && Unique(eq, s)
    ensures Unique(eq, s[..i] + s[i + 1..])
  {
    var t := s[..i] + s[i + 1..];
    forall a, b | 0 <= a < b < |t| ensures !eq(t[a].0, t[b].0) {
      assert t[a] == s[if a < i then a else a + 1] && t[b] == s[if b < i then b else b + 1];
    }
  }

  /** ... and after a key is deleted. */
  lemma LookupCut<K(!new), V>(eq: (K, K) -> bool, s: seq<(K, V)>, key: K, other: K)
    requires Equality(eq) && Unique(eq, s)
    ensures Unique(eq, Cut(eq, s, key))
    ensures Lookup(eq, Cut(eq, s, key), other) == if eq(key, other) then None else Lookup(eq, s, other)
  {
    var i, t, j := Find(eq, s, key), Cut(eq, s, key), Find(eq, s, other);
    if i == |s| {
      if eq(key, other) {
        forall k | 0 <= k < |s| ensures !eq(s[k].0, other) { Linked(eq, s[k].0, other, key); }
        LookupNone(eq, s, other);
      }
      return;
    }
    PartsAreUnique(eq, s, i);
    forall k | 0 <= k < |t| ensures t[k] == s[if k < i then k else k + 1] {}
    if eq(key, other) {
      forall k | 0 <= k < |t| ensures !eq(t[k].0, other) {
        var k' := if k < i then k else k + 1;
        Linked(eq, s[k'].0, other, key);
        Linked(eq, s[k'].0, key, s[i].0);
      }
      LookupNone(eq, t, other);
    } else if j < |s| {
      Linked(eq, key, s[j].0, other);
      FindIs(eq, t, other, if j < i then j else j - 1);
    } else {
      LookupNone(eq, t, other);
    }
  }

  ghost function MovedFrom(i: nat, head: bool, n: nat, k: nat): nat
    requires i < n && k < n
  {
    if head then (if k == 0 then i else if k <= i then k - 1 else k)
    else (if k == n - 1 then i else if k < i then k else k + 1)
  }

  lemma MovedAt<E>(s: seq<E>, i: nat, head: bool)
    requires i < |s|
    ensures |Moved(s, i, head)| == |s|
    ensures forall k :: 0 <= k < |s| ==> Moved(s, i, head)[k] == s[MovedFrom(i, head, |s|, k)]
  {
  }

  lemma MovedIsUnique<K(!new), V>(eq: (K, K) -> bool, s: seq<(K, V)>, i: nat, head: bool)
    requires Equality(eq) && Unique(eq, s) && i < |s|
    ensures Unique(eq, Moved(s, i, head))
  {
    var t, n := Moved(s, i, head), |s|;
    MovedAt(s, i, head);
    hide Moved;
    forall a, b | 0 <= a < b < n ensures !eq(t[a].0, t[b].0) {
      var a', b' := MovedFrom(i, head, n, a), MovedFrom(i, head, n, b);
      Linked(eq, s[a'].0, s[b'].0, s[a'].0);
    }
  }

  lemma MovedIsReordered<E>(s: seq<E>, i: nat, head: bool)
    requires i < |s|
    ensures multiset(Moved(s, i, head)) == multiset(s)
  {
    assert s == s[..i] + [s[i]] + s[i + 1..];
  }

  /** Moving an entry to an end reorders the entries and changes no lookup. */
  lemma LookupMoved<K(!new), V>(eq: (K, K) -> bool, s: seq<(K, V)>, i: nat, head: bool, key: K)
    requires Equality(eq) && Unique(eq, s) && i < |s|
    ensures Unique(eq, Moved(s, i, head)) && multiset(Moved(s, i, head)) == multiset(s)
    ensures Lookup(eq, Moved(s, i, head), key) == Lookup(eq, s, key)
  {
    var t, n, j := Moved(s, i, head), |s|, Find(eq, s, key);
    MovedAt(s, i, head);
    MovedIsUnique(eq, s, i, head);
    MovedIsReordered(s, i, head);
    hide Moved;
    if j < n {
      var k := if j == i then (if head then 0 else n - 1)
               else if head then (if j < i then j + 1 else j) else (if j < i then j else j - 1);
      assert t[k] == s[MovedFrom(i, head, n, k)] == s[j];
      FindIs(eq, t, key, k);
    } else {
      LookupNone(eq, t, key);
    }
  }

  // ---- runs ----------------------------------------------------------------------

  datatype Op<K, V> = Set(key: K, val: V) | Del(key: K) | Clear | Move(key: K, head: bool)

  ghost function Step<K, V>(eq: (K, K) -> bool, s: seq<(K, V)>, op: Op<K, V>): seq<(K, V)> {
    match op
    case Set(key, val) => Put(eq, s, key, val)
    case Del(key) => Cut(eq, s, key)
    case Clear => []
    case Move(key, head) => if Find(eq, s, key) < |s| then Moved(s, Find(eq, s, key), head) else s
  }

  ghost function Run<K, V>(eq: (K, K) -> bool, ops: seq<Op<K, V>>): seq<(K, V)> {
    if ops == [] then [] else Step(eq, Run(eq, ops[..|ops| - 1]), ops[|ops| - 1])
  }

  lemma RunMore<K, V>(eq: (K, K) -> bool, ops: seq<Op<K, V>>, op: Op<K, V>)
    ensures Run(eq, ops + [op]) == Step(eq, Run(eq, ops), op)
  {
    assert (ops + [op])[..|ops|] == ops;
  }

  /** What the history says about a key: the value last set, unless deleted since. */
  ghost function LastSet<K, V>(eq: (K, K) -> bool, ops: seq<Op<K, V>>, key: K): Option<V> {
    if ops == [] then None
    else
      match ops[|ops| - 1]
      case Set(k, val) => if eq(k, key) then Some(val) else LastSet(eq, ops[..|ops| - 1], key)
      case Del(k) => if eq(k, key) then None else LastSet(eq, ops[..|ops| - 1], key)
      case Clear => None
      case Move(_, _) => LastSet(eq, ops[..|ops| - 1], key)
  }

  /** After any run a lookup finds what was set last and not deleted since. */
  lemma {:induction false} LookupFindsLastSet<K(!new), V>(eq: (K, K) -> bool, ops: seq<Op<K, V>>, key: K)
    requires Equality(eq)
    ensures Unique(eq, Run(eq, ops)) && Lookup(eq, Run(eq, ops), key) == LastSet(eq, ops, key)
  {
    if ops == [] {
      LookupNone<K, V>(eq, [], key);
    } else {
      var before := ops[..|ops| - 1];
      LookupFindsLastSet(eq, before, key);
      var s := Run(eq, before);
      match ops[|ops| - 1]
      case Set(k, val) => PutKeepsUnique(eq, s, k, val); LookupPut(eq, s, k, val, key);
      case Del(k) => LookupCut(eq, s, k, key);
      case Clear => LookupNone<K, V>(eq, [], key);
      case Move(k, head) => if Find(eq, s, k) < |s| { LookupMoved(eq, s, Find(eq, s, k), head, key); }
    }
  }
}
