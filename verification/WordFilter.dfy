/** The keyword trie and filter of misc/co_wordfilter.c. */
module WordFilter {
  import opened Keywords
  import opened Basics
  import opened Utf8

  class Node {
    const code: Code
    var chvec: seq<Node>        // children, ascending by code
    var isend: bool

    constructor (c: Code)
      ensures code == c && chvec == [] && !isend
    {
      code, chvec, isend := c, [], false;
    }
  }

  // ---- the shape of the trie, as values ------------------------------------------------

  type Nodes = map<Word, Node>
  type Kids = map<Word, seq<Node>>

  predicate Ascending(v: seq<Node>) {
    forall i, j :: 0 <= i < j < |v| ==> v[i].code < v[j].code
  }

  ghost function Init(w: Word): Word
    requires w != []
  {
    w[..|w| - 1]
  }

  ghost function Final(w: Word): Code
    requires w != []
  {
    w[|w| - 1]
  }

  ghost predicate OneEach(nodes: Nodes) {
    forall p, q :: p in nodes && q in nodes && nodes[p] == nodes[q] ==> p == q
  }

  ghost predicate Ordered(kids: Kids) { forall p :: p in kids ==> 0 !in p && Ascending(kids[p]) }

  ghost predicate KidsAreNodes(nodes: Nodes, kids: Kids) {
    forall p, i :: p in kids && 0 <= i < |kids[p]| ==>
      var q := p + [kids[p][i].code]; q in nodes && nodes[q] == kids[p][i]
  }

  ghost predicate NodesAreKids(nodes: Nodes, kids: Kids) {
    forall q :: q in nodes && q != [] ==> Init(q) in kids && nodes[q].code == Final(q) && nodes[q] in kids[Init(q)]
  }

  /** One node for each path, and its children are those of the paths one longer. */
  ghost predicate Trie(nodes: Nodes, kids: Kids) {
    kids.Keys == nodes.Keys && OneEach(nodes) && Ordered(kids) && KidsAreNodes(nodes, kids) && NodesAreKids(nodes, kids)
  }

  function InsertAt(v: seq<Node>, i: nat, n: Node): seq<Node>
    requires i <= |v|
  {
    v[..i] + [n] + v[i..]
  }

  /** Where the binary search puts a code that is not there. */
  ghost predicate Fits(v: seq<Node>, i: nat, code: Code) {
    i <= |v| && (forall j :: 0 <= j < i ==> v[j].code < code) && (forall j :: i <= j < |v| ==> code < v[j].code)
  }

  lemma PathInitFinal(p: Word, c: Code)
    ensures Init(p + [c]) == p && Final(p + [c]) == c
  {
  }

  /** A child found in the vector is the node of the longer path, and one not found has none. */
  lemma ChildIs(nodes: Nodes, kids: Kids, p: Word, i: nat, code: Code)
    requires Trie(nodes, kids) && p in nodes
    ensures i < |kids[p]| && kids[p][i].code == code ==> p + [code] in nodes && nodes[p + [code]] == kids[p][i]
    ensures Fits(kids[p], i, code) ==> p + [code] !in nodes
  {
    PathInitFinal(p, code);
  }

  lemma {:induction false} PrefixIsPath(nodes: Nodes, kids: Kids, p: Word, q: Word)
    requires Trie(nodes, kids) && q in nodes && p <= q
    ensures p in nodes
    decreases |q|
  {
    if p != q {
      assert p <= Init(q);
      PrefixIsPath(nodes, kids, p, Init(q));
    }
  }

  lemma InsertKeepsOrder(v: seq<Node>, i: nat, n: Node)
    requires Ascending(v) && Fits(v, i, n.code)
    ensures Ascending(InsertAt(v, i, n)) && forall m :: m in InsertAt(v, i, n) <==> m in v || m == n
  {
    var u := InsertAt(v, i, n);
    InsertedAt(v, i, n);
    hide InsertAt;
    forall j, k | 0 <= j < k < |u| ensures u[j].code < u[k].code {
      assert u[j] == (if j < i then v[j] else if j == i then n else v[j - 1]);
      assert u[k] == (if k < i then v[k] else if k == i then n else v[k - 1]);
    }
  }

  lemma InsertedAt(v: seq<Node>, i: nat, n: Node)
    requires i <= |v|
    ensures |InsertAt(v, i, n)| == |v| + 1 && forall m :: m in InsertAt(v, i, n) <==> m in v || m == n
    ensures forall j {:trigger InsertAt(v, i, n)[j]} :: 0 <= j <= |v| ==>
              InsertAt(v, i, n)[j] == if j < i then v[j] else if j == i then n else v[j - 1]
  {
    assert v == v[..i] + v[i..];
  }

  lemma GrowKids(nodes: Nodes, kids: Kids, p: Word, i: nat, n: Node)
    requires Trie(nodes, kids) && p in nodes && i <= |kids[p]| && p + [n.code] !in nodes
    ensures KidsAreNodes(nodes[p + [n.code] := n], kids[p := InsertAt(kids[p], i, n)][p + [n.code] := []])
  {
    hide OneEach, Ordered, NodesAreKids, Ascending;
    var q := p + [n.code];
    var nodes' := nodes[q := n];
    var kids': Kids := kids[p := InsertAt(kids[p], i, n)][q := []];
    forall a, j | a in kids' && 0 <= j < |kids'[a]|
      ensures a + [kids'[a][j].code] in nodes' && nodes'[a + [kids'[a][j].code]] == kids'[a][j]
    {
      GrownKid(nodes, kids, p, i, n, a, j);
    }
  }

  lemma GrownKid(nodes: Nodes, kids: Kids, p: Word, i: nat, n: Node, a: Word, j: nat)
    requires Trie(nodes, kids) && p in nodes && i <= |kids[p]| && p + [n.code] !in nodes
    requires var kids': Kids := kids[p := InsertAt(kids[p], i, n)][p + [n.code] := []]; a in kids' && j < |kids'[a]|
    ensures var kids': Kids := kids[p := InsertAt(kids[p], i, n)][p + [n.code] := []];
            var nodes', q := nodes[p + [n.code] := n], a + [kids'[a][j].code];
            q in nodes' && nodes'[q] == kids'[a][j]
  {
    hide OneEach, Ordered, NodesAreKids, Ascending;
    if a == p && j == i {
    } else if a == p {
      var j' := if j < i then j else j - 1;
      assert a + [kids[a][j'].code] in nodes;
    } else {
      assert a + [kids[a][j].code] in nodes;
    }
  }

  lemma GrowNodes(nodes: Nodes, kids: Kids, p: Word, i: nat, n: Node)
    requires Trie(nodes, kids) && p in nodes && i <= |kids[p]| && p + [n.code] !in nodes
    requires forall m :: m in InsertAt(kids[p], i, n) <==> m in kids[p] || m == n
    ensures NodesAreKids(nodes[p + [n.code] := n], kids[p := InsertAt(kids[p], i, n)][p + [n.code] := []])
  {
    hide InsertAt, OneEach, Ordered, KidsAreNodes, Ascending;
    PathInitFinal(p, n.code);
    var nodes', q' := nodes[p + [n.code] := n], p + [n.code];
    var kids': Kids := kids[p := InsertAt(kids[p], i, n)][q' := []];
    forall q | q in nodes' && q != []
      ensures Init(q) in kids' && nodes'[q].code == Final(q) && nodes'[q] in kids'[Init(q)]
    {
      if q != q' { assert q in nodes && Init(q) in nodes && Init(q) != q'; }
    }
  }

  lemma GrowTrie(nodes: Nodes, kids: Kids, p: Word, i: nat, n: Node)
    requires Trie(nodes, kids) && p in nodes && Fits(kids[p], i, n.code) && n !in nodes.Values && n.code != 0
    ensures Trie(nodes[p + [n.code] := n], kids[p := InsertAt(kids[p], i, n)][p + [n.code] := []])
  {
    ChildIs(nodes, kids, p, i, n.code);
    InsertKeepsOrder(kids[p], i, n);
    hide KidsAreNodes, NodesAreKids, InsertAt, Fits, OneEach, Ordered, Ascending;
    NoZero(kids, p, n.code);
    GrowKids(nodes, kids, p, i, n);
    GrowNodes(nodes, kids, p, i, n);
    GrowOneEach(nodes, p + [n.code], n);
    GrowOrdered(kids, p, InsertAt(kids[p], i, n), p + [n.code]);
  }

  lemma GrowOneEach(nodes: Nodes, q: Word, n: Node)
    requires OneEach(nodes) && n !in nodes.Values
    ensures OneEach(nodes[q := n])
  {
  }

  lemma GrowOrdered(kids: Kids, p: Word, u: seq<Node>, q: Word)
    requires Ordered(kids) && Ascending(u) && 0 !in p && 0 !in q
    ensures Ordered(kids[p := u][q := []])
  {
  }

  lemma NoZero(kids: Kids, p: Word, c: Code)
    requires Ordered(kids) && p in kids && c != 0
    ensures 0 !in p && 0 !in p + [c]
  {
  }

  // ---- freeing ---------------------------------------------------------------------------

  /** Each path once, and none before a longer one that goes on from it. */
  ghost predicate Postorder(freed: seq<Word>) {
    forall i, j :: 0 <= i < j < |freed| ==> !(freed[i] <= freed[j])
  }

  /** All nodes from path `p` down are freed. */
  ghost predicate Frees(nodes: Nodes, p: Word, freed: seq<Word>) {
    Postorder(freed) && forall q :: q in freed <==> q in nodes && p <= q
  }

  /** Path `q` goes through one of the first `k` children at path `p`. */
  ghost predicate Through(kids: Kids, p: Word, k: nat, q: Word) {
    p in kids && k <= |kids[p]| && |p| < |q| && p <= q && exists i :: 0 <= i < k && kids[p][i].code == q[|p|]
  }

  ghost predicate FreesKids(nodes: Nodes, kids: Kids, p: Word, k: nat, freed: seq<Word>) {
    Postorder(freed) && forall q :: q in freed <==> q in nodes && Through(kids, p, k, q)
  }

  lemma NoKidsFreed(nodes: Nodes, kids: Kids, p: Word)
    ensures FreesKids(nodes, kids, p, 0, [])
  {
  }

  lemma PostorderConcat(a: seq<Word>, b: seq<Word>)
    requires Postorder(a) && Postorder(b) && forall q, r :: q in a && r in b ==> !(q <= r)
    ensures Postorder(a + b)
  {
    var c := a + b;
    forall i, j | 0 <= i < j < |c| ensures !(c[i] <= c[j]) {
      if i < |a| <= j { assert a[i] in a && b[j - |a|] in b; }
    }
  }

  lemma ThroughNext(kids: Kids, p: Word, k: nat, q: Word)
    requires p in kids && k < |kids[p]|
    ensures Through(kids, p, k + 1, q) <==> Through(kids, p, k, q) || p + [kids[p][k].code] <= q
  {
    var e := p + [kids[p][k].code];
    assert e[|p|] == kids[p][k].code;
    if |p| < |q| && p <= q && q[|p|] == kids[p][k].code {
      assert q[..|p| + 1] == e;
    }
  }

  lemma OtherBranch(kids: Kids, p: Word, k: nat, q: Word, r: Word)
    requires p in kids && k < |kids[p]| && Ascending(kids[p])
    requires Through(kids, p, k, q) && p + [kids[p][k].code] <= r
    ensures !(q <= r)
  {
    assert (p + [kids[p][k].code])[|p|] == kids[p][k].code == r[|p|];
  }

  lemma OneMoreKidFreed(nodes: Nodes, kids: Kids, p: Word, k: nat, freed: seq<Word>, more: seq<Word>)
    requires Ordered(kids) && p in kids && k < |kids[p]|
    requires FreesKids(nodes, kids, p, k, freed) && Frees(nodes, p + [kids[p][k].code], more)
    ensures FreesKids(nodes, kids, p, k + 1, freed + more)
  {
    hide Through, Postorder, Ascending;
    forall q, r | q in freed && r in more ensures !(q <= r) { OtherBranch(kids, p, k, q, r); }
    PostorderConcat(freed, more);
    forall q ensures Through(kids, p, k + 1, q) <==> Through(kids, p, k, q) || p + [kids[p][k].code] <= q {
      ThroughNext(kids, p, k, q);
    }
  }

  /** A longer path in the trie goes on through a child. */
  lemma {:induction false} PathGoesThrough(nodes: Nodes, kids: Kids, p: Word, q: Word)
    requires Trie(nodes, kids) && p in nodes && q in nodes && p <= q && |p| < |q|
    ensures Through(kids, p, |kids[p]|, q)
    decreases |q|
  {
    var r := Init(q);
    assert nodes[q].code == Final(q) && nodes[q] in kids[r];
    if |q| == |p| + 1 {
      assert r == p;
    } else {
      assert p <= r;
      PathGoesThrough(nodes, kids, p, r);
      assert r[|p|] == q[|p|];
    }
  }

  lemma AllKidsFreed(nodes: Nodes, kids: Kids, p: Word, freed: seq<Word>)
    requires Trie(nodes, kids) && p in nodes && FreesKids(nodes, kids, p, |kids[p]|, freed)
    ensures Frees(nodes, p, freed + [p])
  {
    forall q | q in nodes && p <= q && q != p ensures q in freed { PathGoesThrough(nodes, kids, p, q); }
    PostorderConcat(freed, [p]);
  }

  /** `_cowf_find_child`: a binary search, which also tells where the code would go. */
  method FindChild(parent: Node, code: Code) returns (node: Node?, index: nat)
    requires Ascending(parent.chvec)
    ensures node != null ==> index < |parent.chvec| && node == parent.chvec[index] && node.code == code
    ensures node == null ==> Fits(parent.chvec, index, code)
  {
    var v := parent.chvec;
    var mid, low, high := 0, 0, |v| - 1;
    node := null;
    while low <= high
      invariant 0 <= low <= high + 1 <= |v| && 0 <= mid <= |v|
      invariant forall j :: 0 <= j < low ==> v[j].code < code
      invariant forall j :: high < j < |v| ==> code < v[j].code
      invariant node == null ==> mid == low == 0 && high == |v| - 1
      invariant node != null ==>
                  && mid < |v| && node == v[mid]
                  && (if code > node.code then low == mid + 1 else code < node.code && high == mid - 1)
      decreases high - low
    {
      mid := (high + low) / 2;
      node := v[mid];
      if code == node.code {
        return node, mid;
      } else if code > node.code {
        low := mid + 1;
      } else {
        high := mid - 1;
      }
    }
    return null, if node == null || code < node.code then mid else mid + 1;
  }

  /** A text is well formed up to its end. */
  ghost predicate Whole(t: seq<byte>) { |EncodeAll(Codes(t))| == |t| - 1 }

  /** The bytes between `start` and `p` have been read as `q`. */
  ghost predicate Read(t: seq<byte>, start: nat, p: nat, q: Word) {
    start <= p && Text(t, start) && Text(t, p) && EncodeAll(q) == t[start..p] && 0 !in q
      && Codes(t[start..]) == q + Codes(t[p..])
  }

  lemma ReadStart(t: seq<byte>, start: nat)
    requires Text(t, start)
    ensures Read(t, start, start, [])
  {
  }

  lemma ReadMore(t: seq<byte>, start: nat, p: nat, q: Word, c: Code)
    requires Read(t, start, p, q) && t[p] != 0 && Starts(t[p..], c)
    ensures Read(t, start, p + |Encode(c)|, q + [c]) && q + [c] <= Codes(t[start..])
  {
    hide Encode, EncodeAll, Codes;
    CodesStep(t[p..], c);
    StepIsText(t, p, c);
    EncodeMore(q, c);
    var n := |Encode(c)|;
    assert t[start..p + n] == t[start..p] + t[p..][..n];
    assert q + ([c] + Codes(t[p + n..])) == (q + [c]) + Codes(t[p + n..]);
  }

  lemma ReadEnds(t: seq<byte>, start: nat, p: nat, q: Word)
    requires Read(t, start, p, q) && (t[p] == 0 || Malformed(t[p..]))
    ensures Codes(t[start..]) == q && (Whole(t[start..]) <==> t[p] == 0)
  {
    CodesEnd(t[p..]);
    assert q + [] == q;
  }

  lemma ReadMeans(t: seq<byte>, start: nat, p: nat, q: Word)
    requires Read(t, start, p, q)
    ensures start <= p < |t| && EncodeAll(q) <= t[start..] && |EncodeAll(q)| == p - start
            && t[start..][p - start..] == t[p..]
  {
  }

  /** One step of reading a text. */
  method Next(text: array<byte>, p: nat, ghost start: nat, ghost q: Word) returns (next: Option<nat>, code: Code)
    requires p < text.Length && text[p] != 0 && Read(text[..], start, p, q)
    ensures next.None? ==> Malformed(text[..][p..]) && Codes(text[..][start..]) == q && !Whole(text[..][start..])
    ensures next.Some? ==> code != 0 && p < next.value < text.Length && Read(text[..], start, next.value, q + [code])
    ensures next.Some? ==> q + [code] <= Codes(text[..][start..]) && Starts(text[..][p..], code)
    ensures next.Some? ==> next.value == p + |Encode(code)|
  {
    hide Encode, EncodeAll, Codes, Malformed, Whole;
    ghost var shift;
    next, code, shift := Decode(text, p);
    assert text[..][p..] == text[p..];
    if next.None? {
      ReadEnds(text[..], start, p, q);
    } else {
      ReadMore(text[..], start, p, q, code);
      StepIsText(text[..], p, code);
    }
  }

  class KeywordTrie {
    var root: Node?
    ghost var nodes: Nodes              // the nodes by their paths
    ghost var kids: Kids                // their children
    ghost var words: set<Word>          // the keywords

    ghost predicate KidsSynced()
      reads this`nodes, this`kids, nodes.Values`chvec
    {
      forall p :: p in nodes ==> p in kids && nodes[p].chvec == kids[p]
    }

    ghost predicate EndsSynced()
      reads this`nodes, this`words, nodes.Values`isend
    {
      (forall p :: p in nodes ==> (nodes[p].isend <==> p in words)) && forall w :: w in words ==> w in nodes && w != []
    }

    ghost predicate Rooted()
      reads this`root, this`nodes
    {
      if root == null then nodes == map[] else [] in nodes && nodes[[]] == root
    }

    ghost predicate Valid()
      reads this, nodes.Values
    {
      Trie(nodes, kids) && KidsSynced() && EndsSynced() && Rooted()
    }

    /** `cowf_new` */
    constructor ()
      ensures Valid() && words == {} && nodes == map[]
    {
      root, nodes, kids, words := null, map[], map[], {};
    }

    /** What a search among the children of the node at path `p` says. */
    lemma ChildAt(p: Word, code: Code, child: Node?, i: nat)
      requires Valid() && p in nodes
      requires var v := nodes[p].chvec;
               if child != null then i < |v| && child == v[i] && child.code == code else Fits(v, i, code)
      ensures child != null <==> p + [code] in nodes
      ensures child != null ==> nodes[p + [code]] == child
    {
      ChildIs(nodes, kids, p, i, code);
    }

    lemma NodeAt(p: Word)
      requires Valid() && p in nodes
      ensures nodes[p] in nodes.Values && Ascending(nodes[p].chvec) && nodes[p].chvec == kids[p]
      ensures nodes[p].isend <==> p in words
    {
    }

    /** `_cowf_insert_child` below the node of path `p` */
    method InsertChild(parent: Node, code: Code, ghost p: Word) returns (node: Node)
      requires Valid() && p in nodes && nodes[p] == parent && code != 0
      modifies this`nodes, this`kids, nodes.Values`chvec
      ensures Valid() && p + [code] in nodes && nodes[p + [code]] == node && fresh(nodes.Values - old(nodes.Values))
    {
      hide Trie, KidsSynced, EndsSynced, Rooted;
      NodeAt(p);
      var child, index := FindChild(parent, code);
      ChildAt(p, code, child, index);
      if child != null {
        return child;
      }
      node := new Node(code);
      PushChild(parent, index, node, p);
    }

    /** A new child is put into the vector. */
    method PushChild(parent: Node, index: nat, node: Node, ghost p: Word)
      requires Valid() && p in nodes && nodes[p] == parent && node.code != 0 && Fits(kids[p], index, node.code)
      requires node !in nodes.Values && node.chvec == [] && !node.isend
      modifies this`nodes, this`kids, parent`chvec
      ensures Valid() && nodes == old(nodes)[p + [node.code] := node]
    {
      hide Trie, Ascending;
      NodeAt(p);
      Apart(p, node);
      ChildIs(nodes, kids, p, index, node.code);
      GrowTrie(nodes, kids, p, index, node);
      assert parent.chvec == kids[p];
      assert index <= |kids[p]|;
      parent.chvec := InsertAt(parent.chvec, index, node);
      nodes, kids := nodes[p + [node.code] := node], kids[p := InsertAt(kids[p], index, node)][p + [node.code] := []];
      assert p + [node.code] != p;
    }

    lemma Apart(p: Word, n: Node)
      requires Valid() && p in nodes && n !in nodes.Values
      ensures forall q :: q in nodes ==> nodes[q] != n && (nodes[q] == nodes[p] ==> q == p)
    {
    }

    /** `cowf_addword`; of a malformed word the well-formed beginning is added. */
    method AddWord(word: array<byte>)
      requires Valid() && Text(word[..], 0)
      modifies this, nodes.Values
      ensures Valid() && fresh(nodes.Values - old(nodes.Values)) && root != null
      ensures words == old(words) + if Codes(word[..]) == [] then {} else {Codes(word[..])}
    {
      hide Valid, Read;
      GetRoot();
      var parent := root;
      var child: Node? := null;
      var p := 0;
      ghost var q := [];
      ReadStart(word[..], 0);
      assert word[..][0..] == word[..];
      while word[p] != 0
        invariant Valid() && fresh(nodes.Values - old(nodes.Values)) && root != null && words == old(words)
        invariant p < word.Length && Read(word[..], 0, p, q)
        invariant q in nodes && parent == nodes[q] && child == if q == [] then null else parent
        decreases word.Length - p
      {
        var next, code := Next(word, p, 0, q);
        if next.None? {
          break;
        }
        child := InsertChild(parent, code, q);
        parent := child;
        p := next.value;
        q := q + [code];
      }
      ReadEnds(word[..], 0, p, q);
      if child != null {
        SetEnd(child, q, true);
      }
    }

    /** The root is made by the first word. */
    method GetRoot()
      requires Valid()
      modifies this`root, this`nodes, this`kids
      ensures Valid() && root != null && [] in nodes && nodes[[]] == root
      ensures fresh(nodes.Values - old(nodes.Values)) && (old(root) != null ==> nodes == old(nodes))
    {
      if root == null {
        root := new Node(0);
        nodes, kids := map[[] := root], map[[] := []];
      }
    }

    /** A node becomes the end of a keyword, or ceases to be. */
    method SetEnd(n: Node, ghost q: Word, end: bool)
      requires Valid() && q in nodes && nodes[q] == n && q != []
      modifies this`words, nodes.Values`isend
      ensures Valid() && words == if end then old(words) + {q} else old(words) - {q}
    {
      hide Trie;
      NodeAt(q);
      OnlyPath(q);
      n.isend := end;
      words := if end then words + {q} else words - {q};
    }

    lemma OnlyPath(q: Word)
      requires Valid() && q in nodes
      ensures forall p :: p in nodes && nodes[p] == nodes[q] ==> p == q
    {
    }

    lemma NoPath(p: Word, q: Word)
      requires Valid() && p !in nodes && p <= q
      ensures q !in nodes
    {
      if q in nodes { PrefixIsPath(nodes, kids, p, q); }
    }

    /** `_cowf_get_lastchild`, from the root */
    method LastChild(word: array<byte>) returns (child: Node?)
      requires Valid() && root != null && Text(word[..], 0)
      ensures child != null <==> Whole(word[..]) && Codes(word[..]) != [] && Codes(word[..]) in nodes
      ensures child != null ==> child == nodes[Codes(word[..])]
    {
      hide Valid, Read, Whole, Codes, Malformed, Ascending, Fits;
      RootIs();
      var parent := root;
      child := null;
      var p := 0;
      ghost var q := [];
      ReadStart(word[..], 0);
      assert word[..][0..] == word[..];
      while word[p] != 0
        invariant p < word.Length && Read(word[..], 0, p, q)
        invariant q in nodes && parent == nodes[q] && child == if q == [] then null else parent
        decreases word.Length - p
      {
        var next, code := Next(word, p, 0, q);
        if next.None? {
          return null;
        }
        NodeAt(q);
        var index;
        child, index := FindChild(parent, code);
        ChildAt(q, code, child, index);
        if child == null {
          NoPath(q + [code], Codes(word[..]));
          return;
        }
        parent := child;
        p := next.value;
        q := q + [code];
      }
      ReadEnds(word[..], 0, p, q);
    }

    lemma RootIs()
      requires Valid()
      ensures root == null ==> words == {}
      ensures root != null ==> [] in nodes && nodes[[]] == root
      ensures forall w :: w in words ==> w in nodes && w != [] && 0 !in w
    {
    }

    /** `cowf_exist` */
    method Exist(word: array<byte>) returns (found: bool)
      requires Valid() && Text(word[..], 0)
      ensures found <==> Whole(word[..]) && Codes(word[..]) in words
    {
      hide Valid, Whole, Codes;
      RootIs();
      if root == null {
        return false;
      }
      var child := LastChild(word);
      if child != null { NodeAt(Codes(word[..])); }
      found := child != null && child.isend;
    }

    /** `cowf_delword` */
    method DelWord(word: array<byte>)
      requires Valid() && Text(word[..], 0)
      modifies this`words, nodes.Values`isend
      ensures Valid() && words == old(words) - if Whole(word[..]) then {Codes(word[..])} else {}
    {
      hide Valid, Whole, Codes;
      RootIs();
      if root == null {
        return;
      }
      var child := LastChild(word);
      if child != null {
        SetEnd(child, Codes(word[..]), false);
      }
    }

    /** `cowf_clear` */
    method Clear() returns (ghost freed: seq<Word>)
      requires Valid()
      modifies this
      ensures Valid() && words == {} && root == null
      ensures Postorder(freed) && forall q :: q in freed <==> q in old(nodes)
    {
      freed := [];
      if root != null {
        ghost var depth := LongestPath(nodes.Keys);
        freed := FreeNode(root, [], depth);
        root := null;
      }
      nodes, kids, words := map[], map[], {};
    }

    /** `_cowf_free_node`: the children are freed before the node whose vector holds them. */
    method FreeNode(node: Node, ghost p: Word, ghost depth: nat) returns (ghost freed: seq<Word>)
      requires Valid() && p in nodes && nodes[p] == node && forall q :: q in nodes ==> |q| <= depth
      ensures Frees(nodes, p, freed)
      decreases depth - |p|
    {
      hide Frees, FreesKids, Trie, KidsSynced, EndsSynced, Rooted;
      NodeAt(p);
      TrieIs(p);
      freed := [];
      NoKidsFreed(nodes, kids, p);
      for i := 0 to |node.chvec|
        invariant FreesKids(nodes, kids, p, i, freed)
      {
        var child := node.chvec[i];
        ChildAt(p, child.code, child, i);
        ghost var more := FreeNode(child, p + [child.code], depth);
        OneMoreKidFreed(nodes, kids, p, i, freed, more);
        freed := freed + more;
      }
      AllKidsFreed(nodes, kids, p, freed);
      freed := freed + [p];
    }

    lemma TrieIs(p: Word)
      requires Valid() && p in nodes
      ensures Trie(nodes, kids) && Ordered(kids) && p in kids
    {
    }

    static lemma {:induction false} LongestPath(paths: set<Word>) returns (depth: nat)
      ensures forall q :: q in paths ==> |q| <= depth
    {
      depth := 0;
      if paths != {} {
        var p :| p in paths;
        depth := LongestPath(paths - {p});
        if depth < |p| { depth := |p|; }
      }
    }

    // ---- filtering -------------------------------------------------------------------------

    lemma NoKeywordEnds(text: seq<byte>, start: nat, p: nat, q: Word)
      requires Valid() && Read(text, start, p, q) && Unmatched(words, q) && (text[p] == 0 || Malformed(text[p..]))
      ensures Match(words, text[start..]) == 0
    {
      ReadMeans(text, start, p, q);
      RootIs();
      forall w | w in words && |w| > |q| ensures !Starts(text[p..], w[|q|]) {
        if text[p] == 0 { OneByte(text[p..], w[|q|]); }
      }
      NoMatch(words, text[start..], q);
    }

    lemma NoKeywordGoesOn(text: seq<byte>, start: nat, p: nat, q: Word, c: Code)
      requires Valid() && Read(text, start, p, q) && Unmatched(words, q) && Starts(text[p..], c) && q + [c] !in nodes
      ensures Match(words, text[start..]) == 0
    {
      hide Valid, Read, Match, Encode, EncodeAll, Unmatched, Codes;
      ReadMeans(text, start, p, q);
      RootIs();
      forall w | w in words && |w| > |q| && w[..|q|] == q ensures !Starts(text[p..], w[|q|]) {
        if Starts(text[p..], w[|q|]) { StartsOnce(text[p..], w[|q|], c); }
        if w[|q|] == c { NoPath(q + [c], w); }
      }
      NoMatch(words, text[start..], q);
    }

    /** `_cowf_check_word`, from the root */
    method CheckWord(text: array<byte>, start: nat) returns (end: Option<nat>)
      requires Valid() && root != null && Text(text[..], start)
      ensures var m := Match(words, text[..][start..]); end == if m == 0 then None else Some(start + m)
      ensures end.Some? ==> start < end.value && Text(text[..], end.value)
    {
      hide Valid, Read, Whole, Codes, Malformed, Ascending, Fits, Match, EncodeAll, Encode, Unmatched;
      RootIs();
      var parent := root;
      var p := start;
      ghost var q := [];
      ReadStart(text[..], start);
      NothingRead(words);
      while text[p] != 0
        invariant p < text.Length && Read(text[..], start, p, q) && Unmatched(words, q)
        invariant q in nodes && parent == nodes[q]
        decreases text.Length - p
      {
        var next, code := Next(text, p, start, q);
        if next.None? {
          NoKeywordEnds(text[..], start, p, q);
          return None;
        }
        NodeAt(q);
        var child, index := FindChild(parent, code);
        ChildAt(q, code, child, index);
        if child == null {
          NoKeywordGoesOn(text[..], start, p, q, code);
          return None;
        }
        NodeAt(q + [code]);
        ReadMeans(text[..], start, next.value, q + [code]);
        if child.isend {
          MatchFound(words, text[..][start..], q, code);
          return next;
        }
        StillUnmatched(words, q, code);
        parent := child;
        p := next.value;
        q := q + [code];
      }
      NoKeywordEnds(text[..], start, p, q);
      return None;
    }

    static lemma NothingRead(words: set<Word>)
      ensures Unmatched(words, [])
    {
    }

    static lemma StillUnmatched(words: set<Word>, q: Word, c: Code)
      requires Unmatched(words, q) && q + [c] !in words
      ensures Unmatched(words, q + [c])
    {
      forall k | 0 < k <= |q| + 1 ensures (q + [c])[..k] !in words {
        assert k <= |q| ==> (q + [c])[..k] == q[..k];
        assert k == |q| + 1 ==> (q + [c])[..k] == q + [c];
      }
    }

    /** `cowf_check` */
    method Check(text: array<byte>) returns (found: bool)
      requires Valid() && Text(text[..], 0)
      ensures found <==> Keywords.Check(words, text[..])
    {
      hide Valid, Match, Keywords.Check, Malformed, Encode;
      RootIs();
      if root == null {
        CheckForNothing(text[..]);
        return false;
      }
      var p := 0;
      assert text[..][0..] == text[..];
      while text[p] != 0
        invariant Text(text[..], p) && Keywords.Check(words, text[..]) == Keywords.Check(words, text[..][p..])
        decreases text.Length - p
      {
        var e := CheckWord(text, p);
        CheckStep(words, text[..][p..]);
        if e.Some? {
          return true;
        }
        var next, code;
        ghost var shift;
        next, code, shift := Decode(text, p);
        assert text[..][p..] == text[p..];
        if next.None? {
          return false;
        }
        StepIsText(text[..], p, code);
        p := next.value;
      }
      CheckStep(words, text[..][p..]);
      return false;
    }

    /** How far the filter has come: up to `p` the text is done, from there on it is as before. */
    ghost predicate Progress(before: seq<byte>, now: seq<byte>, p: nat, ch: byte, result: bool)
      reads this`words
    {
      && |now| == |before| && Text(before, p) && now[p..] == before[p..]
      && Filtered(words, before, ch) == now[..p] + Filtered(words, before[p..], ch)
      && Keywords.Check(words, before) == (result || Keywords.Check(words, before[p..]))
    }

    lemma ProgressStarts(before: seq<byte>, ch: byte)
      requires Text(before, 0)
      ensures Progress(before, before, 0, ch, false)
    {
      assert before[0..] == before;
    }

    lemma ProgressIsText(before: seq<byte>, now: seq<byte>, p: nat, ch: byte, result: bool)
      requires Progress(before, now, p, ch, result)
      ensures p < |now| && Text(now, p) && now[p..] == before[p..]
    {
      hide Filtered, Keywords.Check;
      SameTail(before, now, p);
    }

    static lemma SameTail(before: seq<byte>, now: seq<byte>, p: nat)
      requires |now| == |before| && Text(before, p) && now[p..] == before[p..]
      ensures Text(now, p)
    {
      forall i | p <= i < |now| ensures now[i] == before[i] {
        assert now[p..][i - p] == before[p..][i - p];
      }
    }

    lemma ProgressOverMatch(before: seq<byte>, now: seq<byte>, p: nat, ch: byte, result: bool, e: nat, now': seq<byte>)
      requires Progress(before, now, p, ch, result) && now[p] != 0 && p < e < |now| && Match(words, now[p..]) == e - p
      requires Text(now, e) && now' == now[..p] + Repeat(ch, e - p) + now[e..]
      ensures Progress(before, now', e, ch, true)
    {
      hide Match, Filtered, Keywords.Check;
      ProgressIsText(before, now, p, ch, result);
      FilteredStep(words, before[p..], ch);
      CheckStep(words, before[p..]);
      assert before[p..][e - p..] == before[e..] && now[p..][e - p..] == now[e..] == now'[e..];
      assert now'[..e] == now[..p] + Repeat(ch, e - p);
      forall i | e <= i < |now| ensures now[i] == before[i] { assert now[i] == now[p..][i - p] == before[p..][i - p]; }
    }

    lemma ProgressOverCode(before: seq<byte>, now: seq<byte>, p: nat, ch: byte, result: bool, c: Code)
      requires Progress(before, now, p, ch, result) && now[p] != 0 && Match(words, now[p..]) == 0 && Starts(now[p..], c)
      ensures Progress(before, now, p + |Encode(c)|, ch, result)
    {
      hide Match, Filtered, Keywords.Check, Encode;
      ProgressIsText(before, now, p, ch, result);
      FilteredStep(words, before[p..], ch);
      CheckStep(words, before[p..]);
      StepIsText(before, p, c);
      StepIsText(now, p, c);
      var n := |Encode(c)|;
      assert now[..p + n] == now[..p] + now[p..][..n];
    }

    lemma ProgressEnds(before: seq<byte>, now: seq<byte>, p: nat, ch: byte, result: bool)
      requires Progress(before, now, p, ch, result)
      requires now[p] == 0 || (Match(words, now[p..]) == 0 && Malformed(now[p..]))
      ensures now == Filtered(words, before, ch) && (result <==> Keywords.Check(words, before))
    {
      hide Match, Filtered, Keywords.Check, Malformed;
      ProgressIsText(before, now, p, ch, result);
      FilteredStep(words, before[p..], ch);
      CheckStep(words, before[p..]);
      assert now == now[..p] + now[p..];
    }

    /** `cowf_fitler` */
    method Filter(text: array<byte>, ch: byte) returns (result: bool)
      requires Valid() && Text(text[..], 0)
      modifies text
      ensures text[..] == Filtered(words, old(text[..]), ch)
      ensures result <==> Keywords.Check(words, old(text[..]))
    {
      hide Valid, Match, Keywords.Check, Malformed, Encode, Filtered, Progress;
      RootIs();
      ghost var before := text[..];
      if root == null {
        CheckForNothing(text[..]);
        FilterForNothing(text[..], ch);
        return false;
      }
      result := false;
      var p := 0;
      ProgressStarts(before, ch);
      while text[p] != 0
        invariant p < text.Length && Valid() && Progress(before, text[..], p, ch, result)
        decreases text.Length - p
      {
        ghost var now := text[..];
        ProgressIsText(before, now, p, ch, result);
        var e := CheckWord(text, p);
        if e.Some? {
          ghost var start := p;
          Overwrite(text, p, e.value, ch);
          ProgressOverMatch(before, now, start, ch, result, e.value, text[..]);
          p := e.value;
          result := true;
        } else {
          var next, code;
          ghost var shift;
          next, code, shift := Decode(text, p);
          assert text[..][p..] == text[p..];
          if next.None? {
            break;
          }
          ProgressOverCode(before, now, p, ch, result, code);
          p := next.value;
          ProgressIsText(before, now, p, ch, result);
        }
      }
      ProgressEnds(before, text[..], p, ch, result);
    }

    /** The inner loop of `cowf_fitler` */
    static method Overwrite(text: array<byte>, start: nat, end: nat, ch: byte)
      requires start <= end <= text.Length
      modifies text
      ensures text[..] == old(text[..start]) + Repeat(ch, end - start) + old(text[end..])
    {
      var p := start;
      while p != end
        invariant start <= p <= end
        invariant forall i :: 0 <= i < text.Length ==> text[i] == if start <= i < p then ch else old(text[i])
      {
        text[p] := ch;
        p := p + 1;
      }
    }
  }
}
