/** How a red-black tree lies in memory: nodes with parent links and a shared
    sentinel `nil`.  Memory is a map from nodes to the contents of their fields,
    so that everything here is about values. */
module TreeMemory {
  import opened RedBlack

  datatype Cell<N, T> = Cell(parent: N, left: N, right: N, black: bool, data: T)

  type Mem<N(==), T> = map<N, Cell<N, T>>

  ghost function Nodes<N, T>(t: Tree<N, T>): set<N> {
    match t
    case Leaf => {}
    case Br(_, l, n, _, r) => Nodes(l) + {n} + Nodes(r)
  }

  ghost function CtxNodes<N, T>(c: Ctx<N, T>): set<N> {
    match c
    case Top => {}
    case InLeft(up, _, n, _, r) => CtxNodes(up) + {n} + Nodes(r)
    case InRight(up, _, l, n, _) => CtxNodes(up) + {n} + Nodes(l)
  }

  ghost predicate Distinct<N, T>(t: Tree<N, T>) {
    match t
    case Leaf => true
    case Br(_, l, n, _, r) =>
      n !in Nodes(l) && n !in Nodes(r) && Nodes(l) !! Nodes(r) && Distinct(l) && Distinct(r)
  }

  ghost predicate CtxDistinct<N, T>(c: Ctx<N, T>) {
    c.Top? ||
    (var s := Sibling(c);
     c.node !in Nodes(s) && c.node !in CtxNodes(c.up) && Nodes(s) !! CtxNodes(c.up) && Distinct(s) && CtxDistinct(c.up))
  }

  ghost function RootOf<N, T>(t: Tree<N, T>, nil: N): N { if t.Leaf? then nil else t.node }

  ghost function ParentOf<N, T>(c: Ctx<N, T>, nil: N): N { if c.Top? then nil else c.node }

  /** The topmost node of a context whose hole holds `h`. */
  ghost function TopOf<N, T>(c: Ctx<N, T>, h: N): N { if c.Top? then h else TopOf(c.up, c.node) }

  /** The subtree `t` lies in memory below the node `p`. */
  ghost predicate Rep<N, T>(m: Mem<N, T>, t: Tree<N, T>, p: N, nil: N) {
    match t
    case Leaf => true
    case Br(b, l, n, d, r) =>
      && n in m && m[n] == Cell(p, RootOf(l, nil), RootOf(r, nil), b, d)
      && Rep(m, l, n, nil) && Rep(m, r, n, nil)
  }

  /** The context lies in memory around a subtree with root `h`. */
  ghost predicate CtxRep<N, T>(m: Mem<N, T>, c: Ctx<N, T>, h: N, nil: N) {
    match c
    case Top => true
    case InLeft(up, b, n, d, r) =>
      && n in m && m[n] == Cell(ParentOf(up, nil), h, RootOf(r, nil), b, d)
      && Rep(m, r, n, nil) && CtxRep(m, up, n, nil)
    case InRight(up, b, l, n, d) =>
      && n in m && m[n] == Cell(ParentOf(up, nil), RootOf(l, nil), h, b, d)
      && Rep(m, l, n, nil) && CtxRep(m, up, n, nil)
  }

  /** Memory holds exactly the tree made of `c` and `t`, and the black sentinel. */
  ghost predicate At<N, T>(m: Mem<N, T>, root: N, c: Ctx<N, T>, t: Tree<N, T>, nil: N) {
    && Rep(m, t, ParentOf(c, nil), nil) && CtxRep(m, c, RootOf(t, nil), nil)
    && Distinct(t) && CtxDistinct(c) && Nodes(t) !! CtxNodes(c)
    && nil !in Nodes(t) && nil !in CtxNodes(c) && nil in m && m[nil].black
    && m.Keys == Nodes(t) + CtxNodes(c) + {nil}
    && root == TopOf(c, RootOf(t, nil))
  }

  lemma {:induction false} RepKept<N, T>(m: Mem<N, T>, m': Mem<N, T>, t: Tree<N, T>, p: N, nil: N)
    requires Rep(m, t, p, nil)
    requires forall n :: n in Nodes(t) && n in m ==> n in m' && m'[n] == m[n]
    ensures Rep(m', t, p, nil)
  {
    if t.Br? {
      RepKept(m, m', t.left, t.node, nil);
      RepKept(m, m', t.right, t.node, nil);
    }
  }

  lemma {:induction false} CtxRepKept<N, T>(m: Mem<N, T>, m': Mem<N, T>, c: Ctx<N, T>, h: N, nil: N)
    requires CtxRep(m, c, h, nil)
    requires forall n :: n in CtxNodes(c) && n in m ==> n in m' && m'[n] == m[n]
    ensures CtxRep(m', c, h, nil)
  {
    if !c.Top? {
      RepKept(m, m', Sibling(c), c.node, nil);
      CtxRepKept(m, m', c.up, c.node, nil);
    }
  }

  // ---- moving about ------------------------------------------------------------

  lemma Down<N, T>(left: bool, m: Mem<N, T>, root: N, c: Ctx<N, T>, t: Tree<N, T>, nil: N)
    requires At(m, root, c, t, nil) && t.Br?
    ensures At(m, root, Hang(left, c, t.black, t.node, t.data, Far(left, t)), Near(left, t), nil)
  {
  }

  lemma Up<N, T>(m: Mem<N, T>, root: N, c: Ctx<N, T>, t: Tree<N, T>, nil: N)
    requires At(m, root, c, t, nil) && !c.Top?
    ensures At(m, root, c.up, Parent(c, t, c.black), nil)
  {
  }

  lemma {:induction false} UpToTop<N, T>(m: Mem<N, T>, root: N, c: Ctx<N, T>, t: Tree<N, T>, nil: N)
    requires At(m, root, c, t, nil)
    ensures At(m, root, Top, Plug(c, t), nil)
    decreases c
  {
    if !c.Top? {
      Up(m, root, c, t, nil);
      UpToTop(m, root, c.up, Parent(c, t, c.black), nil);
    }
  }

  // ---- changing the node in focus ------------------------------------------------

  lemma SameShape<N, T>(t: Tree<N, T>, black: bool, d: T)
    requires t.Br?
    ensures Nodes(t.(black := black, data := d)) == Nodes(t)
    ensures Distinct(t.(black := black, data := d)) == Distinct(t) && t.node in Nodes(t)
  {
  }

  lemma RewriteRep<N, T>(m: Mem<N, T>, t: Tree<N, T>, p: N, nil: N, black: bool, d: T)
    requires Rep(m, t, p, nil) && t.Br? && Distinct(t)
    ensures t.node in m
    ensures Rep(m[t.node := m[t.node].(black := black, data := d)], t.(black := black, data := d), p, nil)
  {
    var m' := m[t.node := m[t.node].(black := black, data := d)];
    RepKept(m, m', t.left, t.node, nil);
    RepKept(m, m', t.right, t.node, nil);
  }

  /** Writing the colour and the data of the node in focus. */
  lemma RewriteAt<N, T>(m: Mem<N, T>, root: N, c: Ctx<N, T>, t: Tree<N, T>, nil: N, black: bool, d: T)
    requires At(m, root, c, t, nil) && t.Br?
    ensures t.node in m
    ensures At(m[t.node := m[t.node].(black := black, data := d)], root, c, t.(black := black, data := d), nil)
  {
    hide Rep, CtxRep, Distinct, CtxDistinct, Nodes;
    SameShape(t, black, d);
    RewriteRep(m, t, ParentOf(c, nil), nil, black, d);
    CtxRepKept(m, m[t.node := m[t.node].(black := black, data := d)], c, t.node, nil);
  }

  lemma PaintAt<N, T>(m: Mem<N, T>, root: N, c: Ctx<N, T>, t: Tree<N, T>, nil: N, black: bool)
    requires At(m, root, c, t, nil) && t.Br?
    ensures t.node in m && At(m[t.node := m[t.node].(black := black)], root, c, t.(black := black), nil)
  {
    RewriteAt(m, root, c, t, nil, black, t.data);
    RewriteIs(m, t, ParentOf(c, nil), nil);
    hide At;
  }

  lemma RewriteIs<N, T>(m: Mem<N, T>, t: Tree<N, T>, p: N, nil: N)
    requires Rep(m, t, p, nil) && t.Br?
    ensures t.node in m && m[t.node].data == t.data && m[t.node].black == t.black
  {
  }

  function NearLink<N, T>(left: bool, c: Cell<N, T>): N { if left then c.left else c.right }
  function FarLink<N, T>(left: bool, c: Cell<N, T>): N { if left then c.right else c.left }
  function WithNear<N, T>(left: bool, c: Cell<N, T>, n: N): Cell<N, T> {
    if left then c.(left := n) else c.(right := n)
  }

  function WithFar<N, T>(left: bool, c: Cell<N, T>, n: N): Cell<N, T> {
    if left then c.(right := n) else c.(left := n)
  }

  /** The link of `x`'s parent is redirected from `x` to `y`; the root is not in memory. */
  ghost function Redirect<N, T>(m: Mem<N, T>, x: N, y: N, nil: N): Mem<N, T>
    requires x in m && m[x].parent in m
  {
    var p := m[x].parent;
    if p == nil then m else if x == m[p].left then m[p := m[p].(left := y)] else m[p := m[p].(right := y)]
  }

  /** The first half of a rotation: the inner grandchild `b` changes sides. */
  ghost function HandOver<N, T>(left: bool, m: Mem<N, T>, x: N, y: N, nil: N): Mem<N, T>
    requires x in m && y in m && NearLink(left, m[y]) in m
  {
    var b := NearLink(left, m[y]);
    var m1 := m[x := WithFar(left, m[x], b)];
    var m2 := if b != nil then m1[b := m1[b].(parent := x)] else m1;
    m2[y := m2[y].(parent := m2[x].parent)]
  }

  /** `_coset_leftrot` (for `left`) and `_coset_rightrot`, one assignment after another. */
  ghost function RotateMem<N, T>(left: bool, m: Mem<N, T>, x: N, nil: N): Mem<N, T>
    requires x in m && FarLink(left, m[x]) in m && NearLink(left, m[FarLink(left, m[x])]) in m
    requires m[x].parent in m && x != FarLink(left, m[x]) && x != NearLink(left, m[FarLink(left, m[x])])
  {
    var y := FarLink(left, m[x]);
    var m4 := Redirect(HandOver(left, m, x, y, nil), x, y, nil);
    var m5 := m4[y := WithNear(left, m4[y], x)];
    m5[x := m5[x].(parent := y)]
  }

  lemma HandOverInSteps<N, T>(left: bool, m: Mem<N, T>, x: N, y: N, nil: N, m1: Mem<N, T>, m2: Mem<N, T>, m3: Mem<N, T>)
    requires x in m && y in m && NearLink(left, m[y]) in m
    requires m1 == m[x := if left then m[x].(right := NearLink(left, m[y])) else m[x].(left := NearLink(left, m[y]))]
    requires var b := NearLink(left, m[y]); m2 == if b != nil then m1[b := m1[b].(parent := x)] else m1
    requires m3 == m2[y := m2[y].(parent := m2[x].parent)]
    ensures m3 == HandOver(left, m, x, y, nil)
  {
  }

  lemma HandOverLinks<N, T>(left: bool, m: Mem<N, T>, x: N, y: N, nil: N)
    requires x in m && y in m && FarLink(left, m[x]) == y && NearLink(left, m[y]) in m && x != y
             && x != NearLink(left, m[y])
    ensures var m3 := HandOver(left, m, x, y, nil);
            m3.Keys == m.Keys && m3[x].parent == m[x].parent
  {
  }

  lemma RotateInSteps<N, T>(left: bool, m: Mem<N, T>, x: N, y: N, nil: N, m3: Mem<N, T>, m4: Mem<N, T>,
                            m5: Mem<N, T>, m6: Mem<N, T>)
    requires x in m && FarLink(left, m[x]) == y && y in m && NearLink(left, m[y]) in m && m[x].parent in m
    requires x != y && x != NearLink(left, m[y])
    requires m3 == HandOver(left, m, x, y, nil) && m4 == Redirect(m3, x, y, nil)
    requires y in m4 && m5 == m4[y := if left then m4[y].(left := x) else m4[y].(right := x)]
    requires x in m5 && m6 == m5[x := m5[x].(parent := y)]
    ensures m6 == RotateMem(left, m, x, nil)
  {
  }

  /** The links around a rotation, and that the nodes they name are different. */
  lemma LinksAt<N, T>(left: bool, m: Mem<N, T>, root: N, c: Ctx<N, T>, t: Tree<N, T>, nil: N)
    requires At(m, root, c, t, nil) && t.Br? && Far(left, t).Br?
    ensures var x, s := t.node, Far(left, t);
            var b := Near(left, s);
            && x in m && s.node in m && RootOf(b, nil) in m && ParentOf(c, nil) in m
            && FarLink(left, m[x]) == s.node && NearLink(left, m[s.node]) == RootOf(b, nil)
            && m[x].parent == ParentOf(c, nil)
            && x != s.node && x != nil && s.node != nil && RootOf(b, nil) !in {x, s.node}
            && ParentOf(c, nil) !in {x, s.node}
            && (b.Br? ==> b.node != nil && ParentOf(c, nil) != b.node)
            && (!c.Top? ==> c.node != nil && (c.InLeft? <==> m[c.node].left == x))
            && root == TopOf(c, x)
  {
    var s := Far(left, t);
    var b := Near(left, s);
    assert Rep(m, s, t.node, nil) && Rep(m, b, s.node, nil);
    assert Distinct(s) && Nodes(s) == Nodes(Near(left, s)) + {s.node} + Nodes(Far(left, s));
    assert b.Br? ==> b.node in Nodes(b);
    if !c.Top? && c.InRight? && c.left.Br? { assert c.left.node in Nodes(c.left); }
  }

  lemma RotateCells<N, T>(left: bool, m: Mem<N, T>, x: N, y: N, b: N, p: N, inLeft: bool, nil: N)
    requires x in m && y in m && b in m && p in m
    requires FarLink(left, m[x]) == y && NearLink(left, m[y]) == b && m[x].parent == p
    requires x != y && b !in {x, y} && p !in {x, y} && (b != nil ==> p != b)
    requires p != nil ==> (inLeft <==> m[p].left == x)
    ensures var m' := RotateMem(left, m, x, nil);
            && m'.Keys == m.Keys
            && m'[x] == WithFar(left, m[x], b).(parent := y)
            && m'[y] == WithNear(left, m[y], x).(parent := p)
            && (b != nil ==> m'[b] == m[b].(parent := x))
            && (p != nil ==> m'[p] == if inLeft then m[p].(left := y) else m[p].(right := y))
            && forall n :: n in m && n != x && n != y && (n != b || b == nil) && (n != p || p == nil) ==> m'[n] == m[n]
  {
  }

  lemma RotateShape<N, T>(left: bool, c: Ctx<N, T>, t: Tree<N, T>, nil: N)
    requires Distinct(t) && Nodes(t) !! CtxNodes(c) && t.Br? && Far(left, t).Br? && nil !in Nodes(t)
    ensures Distinct(Rotated(left, t)) && Nodes(Rotated(left, t)) == Nodes(t)
    ensures Apart(Near(left, t), t.node, Far(left, t).node, Near(left, Far(left, t)), c, nil)
    ensures Apart(Far(left, Far(left, t)), t.node, Far(left, t).node, Near(left, Far(left, t)), c, nil)
  {
    var s := Far(left, t);
    assert Nodes(t) == Nodes(Near(left, t)) + {t.node} + Nodes(s);
    assert Nodes(s) == Nodes(Near(left, s)) + {s.node} + Nodes(Far(left, s));
    assert Distinct(s) && Distinct(Near(left, t));
    var low := Mk(left, t.black, Near(left, t), t.node, t.data, Near(left, s));
    assert Nodes(low) == Nodes(Near(left, t)) + {t.node} + Nodes(Near(left, s)) && Distinct(low);
  }

  /** The subtree `a` is untouched by a change of `x`, `y`, the root of `b` and the context. */
  ghost predicate Apart<N, T>(a: Tree<N, T>, x: N, y: N, b: Tree<N, T>, c: Ctx<N, T>, nil: N) {
    forall n :: n in Nodes(a) ==> n != x && n != y && n !in Nodes(b) && n !in CtxNodes(c) && n != nil
  }

  lemma InnerApart<N, T>(left: bool, c: Ctx<N, T>, t: Tree<N, T>, nil: N)
    requires Distinct(t) && Nodes(t) !! CtxNodes(c) && t.Br? && Far(left, t).Br? && nil !in Nodes(t)
    requires Near(left, Far(left, t)).Br?
    ensures var b := Near(left, Far(left, t));
            && b.node in Nodes(b)
            && forall n :: n in Nodes(b.left) || n in Nodes(b.right) ==>
                 n != t.node && n != Far(left, t).node && n != b.node && n !in CtxNodes(c) && n != nil
  {
    var s := Far(left, t);
    assert Nodes(t) == Nodes(Near(left, t)) + {t.node} + Nodes(s);
    assert Nodes(s) == Nodes(Near(left, s)) + {s.node} + Nodes(Far(left, s));
    assert Distinct(s) && Distinct(Near(left, s));
  }

  lemma RotateRep<N, T>(left: bool, m: Mem<N, T>, m': Mem<N, T>, c: Ctx<N, T>, t: Tree<N, T>, p: N, nil: N)
    requires Rep(m, t, p, nil) && t.Br? && Far(left, t).Br?
    requires Distinct(t) && Nodes(t) !! CtxNodes(c) && nil !in Nodes(t) && p !in Nodes(t)
    requires var x, s := t.node, Far(left, t);
             var b := Near(left, s);
             && x in m' && m'[x] == WithFar(left, m[x], RootOf(b, nil)).(parent := s.node)
             && s.node in m && s.node in m' && m'[s.node] == WithNear(left, m[s.node], x).(parent := p)
             && (b.Br? ==> b.node in m && b.node in m' && m'[b.node] == m[b.node].(parent := x))
             && forall n :: n in Nodes(t) && n in m && n != x && n != s.node && (b.Br? ==> n != b.node) ==>
                              n in m' && m'[n] == m[n]
    ensures Rep(m', Rotated(left, t), p, nil)
  {
    hide CtxNodes;
    var x, s := t.node, Far(left, t);
    var y, b := s.node, Near(left, s);
    RotateShape(left, c, t, nil);
    assert Nodes(t) == Nodes(Near(left, t)) + {x} + Nodes(s);
    assert Nodes(s) == Nodes(b) + {y} + Nodes(Far(left, s));
    assert Rep(m, s, x, nil) && Rep(m, b, y, nil) && Rep(m, Far(left, s), y, nil) && Rep(m, Near(left, t), x, nil);
    if b.Br? { InnerApart(left, c, t, nil); }
    RepKept(m, m', Near(left, t), x, nil);
    RepKept(m, m', Far(left, s), y, nil);
    if b.Br? {
      RepKept(m, m', b.left, b.node, nil);
      RepKept(m, m', b.right, b.node, nil);
    }
    assert Rep(m', b, x, nil);
    assert Rep(m', Mk(left, t.black, Near(left, t), x, t.data, b), y, nil);
  }

  lemma ReplaceBelow<N, T>(m: Mem<N, T>, m': Mem<N, T>, c: Ctx<N, T>, h: N, h': N, nil: N)
    requires CtxRep(m, c, h, nil) && CtxDistinct(c)
    requires !c.Top? ==>
               c.node in m' && m'[c.node] == if c.InLeft? then m[c.node].(left := h') else m[c.node].(right := h')
    requires forall n :: n in CtxNodes(c) && n in m && n != ParentOf(c, nil) ==> n in m' && m'[n] == m[n]
    ensures CtxRep(m', c, h', nil)
  {
    if !c.Top? {
      RepKept(m, m', Sibling(c), c.node, nil);
      CtxRepKept(m, m', c.up, c.node, nil);
    }
  }

  lemma RotateAt<N, T>(left: bool, m: Mem<N, T>, root: N, c: Ctx<N, T>, t: Tree<N, T>, nil: N)
    requires At(m, root, c, t, nil) && t.Br? && Far(left, t).Br?
    ensures t.node in m && FarLink(left, m[t.node]) in m
    ensures NearLink(left, m[FarLink(left, m[t.node])]) in m && m[t.node].parent in m
    ensures t.node != FarLink(left, m[t.node]) && t.node != NearLink(left, m[FarLink(left, m[t.node])])
    ensures At(RotateMem(left, m, t.node, nil),
               if m[t.node].parent == nil then Far(left, t).node else root, c, Rotated(left, t), nil)
    ensures nil in m && nil in RotateMem(left, m, t.node, nil) && RotateMem(left, m, t.node, nil)[nil] == m[nil]
  {
    var x, y, b := t.node, Far(left, t).node, Near(left, Far(left, t));
    LinksAt(left, m, root, c, t, nil);
    RotateCells(left, m, x, y, RootOf(b, nil), ParentOf(c, nil), c.InLeft?, nil);
    var m' := RotateMem(left, m, x, nil);
    hide RotateMem, Rep, CtxRep, Distinct, CtxDistinct;
    RotateShape(left, c, t, nil);
    NodesOfRotation(left, t);
    RotateRep(left, m, m', c, t, ParentOf(c, nil), nil);
    ReplaceBelow(m, m', c, x, y, nil);
  }

  /** The same, for the memory and root that a rotation leaves step by step. */
  lemma RotatedInSteps<N, T>(left: bool, m: Mem<N, T>, root: N, c: Ctx<N, T>, t: Tree<N, T>, nil: N, m3: Mem<N, T>,
                             m4: Mem<N, T>, m5: Mem<N, T>, m6: Mem<N, T>, root': N)
    requires At(m, root, c, t, nil) && t.Br? && Far(left, t).Br?
    requires var x, y := t.node, Far(left, t).node;
             && x in m && FarLink(left, m[x]) == y && y in m && NearLink(left, m[y]) in m && m[x].parent in m
             && x != y && x != NearLink(left, m[y])
             && m3 == HandOver(left, m, x, y, nil) && x in m3 && m3[x].parent in m3
             && root' == (if m3[x].parent == nil then y else root)
             && m4 == Redirect(m3, x, y, nil)
             && y in m4 && m5 == m4[y := if left then m4[y].(left := x) else m4[y].(right := x)]
             && x in m5 && m6 == m5[x := m5[x].(parent := y)]
    ensures At(m6, root', c, Rotated(left, t), nil) && m6.Keys == m.Keys && nil in m && m6[nil] == m[nil]
  {
    var x, y := t.node, Far(left, t).node;
    RotateAt(left, m, root, c, t, nil);
    LinksAt(left, m, root, c, t, nil);
    RotateInSteps(left, m, x, y, nil, m3, m4, m5, m6);
    HandOverLinks(left, m, x, y, nil);
    hide At, Rotated;
  }

  lemma NodesOfRotation<N, T>(left: bool, t: Tree<N, T>)
    requires t.Br? && Far(left, t).Br?
    ensures t.node in Nodes(t) && Far(left, t).node in Nodes(t)
    ensures Near(left, Far(left, t)).Br? ==> Near(left, Far(left, t)).node in Nodes(t)
  {
    var s := Far(left, t);
    assert s.node in Nodes(s);
    if Near(left, s).Br? { assert Near(left, s).node in Nodes(Near(left, s)); }
  }

  // ---- what a look at memory tells ---------------------------------------------

  lemma LookHere<N, T>(m: Mem<N, T>, root: N, c: Ctx<N, T>, t: Tree<N, T>, nil: N)
    requires At(m, root, c, t, nil)
    ensures RootOf(t, nil) in m && m[RootOf(t, nil)].black == IsBlack(t) && (t.Br? <==> RootOf(t, nil) != nil)
    ensures t.Br? ==> m[t.node] == Cell(ParentOf(c, nil), RootOf(t.left, nil), RootOf(t.right, nil), t.black, t.data)
    ensures t.Br? ==> t.node != nil && t.node in Nodes(t)
    ensures c.Top? <==> root == RootOf(t, nil)
  {
    if !c.Top? { TopOfIsAbove(c.up, c.node); }
  }

  lemma {:induction false} TopOfIsAbove<N, T>(c: Ctx<N, T>, h: N)
    ensures TopOf(c, h) == h || TopOf(c, h) in CtxNodes(c)
    decreases c
  {
    if !c.Top? { TopOfIsAbove(c.up, c.node); }
  }

  lemma LookUp<N, T>(m: Mem<N, T>, root: N, c: Ctx<N, T>, t: Tree<N, T>, nil: N)
    requires At(m, root, c, t, nil) && !c.Top?
    ensures var s := Sibling(c);
            && c.node != nil && c.node in m
            && m[c.node] == Cell(ParentOf(c.up, nil), if c.InLeft? then RootOf(t, nil) else RootOf(s, nil),
                                 if c.InLeft? then RootOf(s, nil) else RootOf(t, nil), c.black, c.data)
            && RootOf(s, nil) in m && m[RootOf(s, nil)].black == IsBlack(s) && (s.Br? <==> RootOf(s, nil) != nil)
            && (t.Br? || s.Br? ==> RootOf(t, nil) != RootOf(s, nil))
  {
    var s := Sibling(c);
    if s.Br? {
      assert s.node in Nodes(s);
      assert Rep(m, s, c.node, nil);
    }
    if t.Br? { assert t.node in Nodes(t); }
  }

  lemma LookAside<N, T>(m: Mem<N, T>, root: N, c: Ctx<N, T>, t: Tree<N, T>, nil: N)
    requires At(m, root, c, t, nil) && !c.Top? && Sibling(c).Br?
    ensures var s := Sibling(c);
            && m[s.node] == Cell(c.node, RootOf(s.left, nil), RootOf(s.right, nil), s.black, s.data)
            && RootOf(s.left, nil) in m && m[RootOf(s.left, nil)].black == IsBlack(s.left)
            && RootOf(s.right, nil) in m && m[RootOf(s.right, nil)].black == IsBlack(s.right)
            && (s.left.Br? <==> RootOf(s.left, nil) != nil) && (s.right.Br? <==> RootOf(s.right, nil) != nil)
  {
    var s := Sibling(c);
    assert Rep(m, s, c.node, nil);
    assert s.left.Br? ==> s.left.node in Nodes(s.left);
    assert s.right.Br? ==> s.right.node in Nodes(s.right);
    assert Rep(m, s.left, s.node, nil) && Rep(m, s.right, s.node, nil);
  }

  // ---- insertion -----------------------------------------------------------------

  ghost function Painted<N, T>(m: Mem<N, T>, n: N, black: bool): Mem<N, T>
    requires n in m
  {
    m[n := m[n].(black := black)]
  }

  /** Painting the parent of the subtree in focus. */
  lemma PaintParentAt<N, T>(m: Mem<N, T>, root: N, c: Ctx<N, T>, t: Tree<N, T>, nil: N, black: bool)
    requires At(m, root, c, t, nil) && !c.Top?
    ensures c.node in m && At(Painted(m, c.node, black), root, c.up, Parent(c, t, black), nil)
  {
    Up(m, root, c, t, nil);
    PaintAt(m, root, c.up, Parent(c, t, c.black), nil, black);
  }

  /** Painting the sibling of the subtree in focus. */
  lemma PaintSiblingAt<N, T>(m: Mem<N, T>, root: N, c: Ctx<N, T>, t: Tree<N, T>, nil: N, black: bool)
    requires At(m, root, c, t, nil) && !c.Top? && Sibling(c).Br?
    ensures var s, l := Sibling(c), c.InLeft?;
            s.node in m && At(Painted(m, s.node, black), root, Hang(l, c.up, c.black, c.node, c.data,
              s.(black := black)), t, nil)
  {
    var s, l := Sibling(c), c.InLeft?;
    Up(m, root, c, t, nil);
    var p := Parent(c, t, c.black);
    Down(!l, m, root, c.up, p, nil);
    var aside := Hang(!l, c.up, c.black, c.node, c.data, t);
    PaintAt(m, root, aside, s, nil, black);
    Up(Painted(m, s.node, black), root, aside, s.(black := black), nil);
    Down(l, Painted(m, s.node, black), root, c.up, Mk(l, c.black, t, c.node, c.data, s.(black := black)), nil);
  }

  lemma RecolourAt<N, T>(m: Mem<N, T>, root: N, c: Ctx<N, T>, t: Tree<N, T>, nil: N)
    requires At(m, root, c, t, nil) && !c.Top? && !c.up.Top? && Sibling(c.up).Br?
    ensures c.node in m && Sibling(c.up).node in m && c.up.node in m
    ensures At(Painted(Painted(Painted(m, c.node, true), Sibling(c.up).node, true), c.up.node, false),
               root, c.up.up, Recoloured(c, t), nil)
  {
    hide At;
    PaintParentAt(m, root, c, t, nil, true);
    var m1, p, u := Painted(m, c.node, true), Parent(c, t, true), Sibling(c.up);
    PaintSiblingAt(m1, root, c.up, p, nil, true);
    var m2 := Painted(m1, u.node, true);
    PaintParentAt(m2, root, Hang(c.up.InLeft?, c.up.up, c.up.black, c.up.node, c.up.data, u.(black := true)), p, nil,
      false);
  }

  /** The colours before the last rotation of an insertion. */
  lemma OuterPaintAt<N, T>(m: Mem<N, T>, root: N, c: Ctx<N, T>, t: Tree<N, T>, nil: N)
    requires At(m, root, c, t, nil) && !c.Top? && !c.up.Top?
    ensures c.node in m && c.up.node in m
    ensures At(Painted(Painted(m, c.node, true), c.up.node, false), root,
               c.up.up, Parent(c.up, Parent(c, t, true), false), nil)
  {
    hide At;
    PaintParentAt(m, root, c, t, nil, true);
    PaintParentAt(Painted(m, c.node, true), root, c.up, Parent(c, t, true), nil, false);
  }

  /** Stepping back down into a subtree after a change further up. */
  lemma Refocus<N, T>(m: Mem<N, T>, root: N, c: Ctx<N, T>, t: Tree<N, T>, nil: N, black: bool)
    requires !c.Top? && c.black == black && At(m, root, c.up, Parent(c, t, black), nil)
    ensures At(m, root, c, t, nil)
  {
    Down(c.InLeft?, m, root, c.up, Parent(c, t, black), nil);
  }

  /** A new red leaf is hooked in where the search ended. */
  ghost function HookMem<N, T>(m: Mem<N, T>, c: Ctx<N, T>, h: N): Mem<N, T>
    requires !c.Top? ==> c.node in m
  {
    if c.Top? then m
    else if c.InLeft? then m[c.node := m[c.node].(left := h)]
    else m[c.node := m[c.node].(right := h)]
  }

  lemma HookAt<N, T>(m: Mem<N, T>, root: N, c: Ctx<N, T>, n: N, d: T, nil: N)
    requires At(m, root, c, Leaf, nil) && n !in m
    ensures !c.Top? ==> c.node in m
    ensures At(HookMem(m[n := Cell(ParentOf(c, nil), nil, nil, false, d)], c, n),
               if c.Top? then n else root, c, Br(false, Leaf, n, d, Leaf), nil)
  {
    var m1 := m[n := Cell(ParentOf(c, nil), nil, nil, false, d)];
    CtxRepKept(m, m1, c, nil, nil);
    var m2 := HookMem(m1, c, n);
    ReplaceBelow(m1, m2, c, nil, n, nil);
  }

  /** The same, for the memory and root that the assignments leave. */
  lemma HookedInSteps<N, T>(m: Mem<N, T>, root: N, c: Ctx<N, T>, n: N, d: T, nil: N, m1: Mem<N, T>, m2: Mem<N, T>,
                            root': N)
    requires At(m, root, c, Leaf, nil) && n !in m && m1 == m[n := Cell(ParentOf(c, nil), nil, nil, false, d)]
    requires !c.Top? ==> c.node in m1
    requires m2 == if c.Top? then m1
                   else m1[c.node := if c.InLeft? then m1[c.node].(left := n) else m1[c.node].(right := n)]
    requires root' == if c.Top? then n else root
    ensures At(m2, root', c, Br(false, Leaf, n, d, Leaf), nil)
  {
    HookAt(m, root, c, n, d, nil);
  }

  // ---- deletion ------------------------------------------------------------------

  /** The context of the sibling of the subtree in focus. */
  ghost function Aside<N, T>(c: Ctx<N, T>, t: Tree<N, T>, black: bool): Ctx<N, T>
    requires !c.Top?
  {
    Hang(!c.InLeft?, c.up, black, c.node, c.data, t)
  }

  /** The context of the focus once its sibling is `s`. */
  ghost function WithSibling<N, T>(c: Ctx<N, T>, s: Tree<N, T>): Ctx<N, T>
    requires !c.Top?
  {
    Hang(c.InLeft?, c.up, c.black, c.node, c.data, s)
  }

  lemma StepAside<N, T>(m: Mem<N, T>, root: N, c: Ctx<N, T>, t: Tree<N, T>, nil: N)
    requires At(m, root, c, t, nil) && !c.Top?
    ensures At(m, root, Aside(c, t, c.black), Sibling(c), nil)
  {
    Up(m, root, c, t, nil);
    Down(!c.InLeft?, m, root, c.up, Parent(c, t, c.black), nil);
  }

  lemma StepBack<N, T>(m: Mem<N, T>, root: N, c: Ctx<N, T>, t: Tree<N, T>, s: Tree<N, T>, nil: N)
    requires !c.Top? && At(m, root, Aside(c, t, c.black), s, nil)
    ensures At(m, root, WithSibling(c, s), t, nil)
  {
    Up(m, root, Aside(c, t, c.black), s, nil);
    Down(c.InLeft?, m, root, c.up, Mk(c.InLeft?, c.black, t, c.node, c.data, s), nil);
  }

  /** Painting a child of the subtree in focus black. */
  lemma PaintChildAt<N, T>(left: bool, m: Mem<N, T>, root: N, c: Ctx<N, T>, t: Tree<N, T>, nil: N)
    requires At(m, root, c, t, nil) && t.Br? && Near(left, t).Br?
    ensures Near(left, t).node in m
    ensures At(Painted(m, Near(left, t).node, true), root, c,
               Mk(left, t.black, Blacken(Near(left, t)), t.node, t.data, Far(left, t)), nil)
  {
    var k := Near(left, t);
    var below := Hang(left, c, t.black, t.node, t.data, Far(left, t));
    Down(left, m, root, c, t, nil);
    PaintAt(m, root, below, k, nil, true);
    Up(Painted(m, k.node, true), root, below, Blacken(k), nil);
  }

  lemma RedSiblingPaintAt<N, T>(m: Mem<N, T>, root: N, c: Ctx<N, T>, t: Tree<N, T>, nil: N)
    requires At(m, root, c, t, nil) && !c.Top? && Sibling(c).Br?
    ensures Sibling(c).node in m && c.node in m
    ensures At(Painted(Painted(m, Sibling(c).node, true), c.node, false), root,
               c.up, Mk(c.InLeft?, false, t, c.node, c.data, Blacken(Sibling(c))), nil)
  {
    hide At;
    PaintSiblingAt(m, root, c, t, nil, true);
    PaintParentAt(Painted(m, Sibling(c).node, true), root, WithSibling(c, Blacken(Sibling(c))), t, nil, false);
  }

  lemma InnerNephewPaintAt<N, T>(m: Mem<N, T>, root: N, c: Ctx<N, T>, t: Tree<N, T>, nil: N)
    requires At(m, root, c, t, nil) && !c.Top? && Sibling(c).Br? && Near(c.InLeft?, Sibling(c)).Br?
    ensures Near(c.InLeft?, Sibling(c)).node in m && Sibling(c).node in m
    ensures At(Painted(Painted(m, Near(c.InLeft?, Sibling(c)).node, true), Sibling(c).node, false), root,
               Aside(c, t, c.black), RecolouredNephew(c.InLeft?, Sibling(c)), nil)
  {
    hide At;
    var l, s := c.InLeft?, Sibling(c);
    LookUp(m, root, c, t, nil);
    StepAside(m, root, c, t, nil);
    PaintChildAt(l, m, root, Aside(c, t, c.black), s, nil);
    PaintAt(Painted(m, Near(l, s).node, true), root, Aside(c, t, c.black),
            Mk(l, s.black, Blacken(Near(l, s)), s.node, s.data, Far(l, s)), nil, false);
  }

  lemma OuterNephewPaintAt<N, T>(m: Mem<N, T>, root: N, c: Ctx<N, T>, t: Tree<N, T>, nil: N)
    requires At(m, root, c, t, nil) && !c.Top? && Sibling(c).Br? && Far(c.InLeft?, Sibling(c)).Br?
    ensures Far(c.InLeft?, Sibling(c)).node in m && Sibling(c).node in m && c.node in m
    ensures var l, s := c.InLeft?, Sibling(c);
            At(Painted(Painted(Painted(m, s.node, c.black), c.node, true), Far(l, s).node, true), root, c.up,
               Mk(l, true, t, c.node, c.data, Mk(l, c.black, Near(l, s), s.node, s.data, Blacken(Far(l, s)))), nil)
  {
    hide At;
    var l, s := c.InLeft?, Sibling(c);
    PaintSiblingAt(m, root, c, t, nil, c.black);
    var m1, s1 := Painted(m, s.node, c.black), s.(black := c.black);
    PaintParentAt(m1, root, WithSibling(c, s1), t, nil, true);
    var m2, p := Painted(m1, c.node, true), Mk(l, true, t, c.node, c.data, s1);
    Down(!l, m2, root, c.up, p, nil);
    PaintChildAt(!l, m2, root, Aside(c, t, true), s1, nil);
    Up(Painted(m2, Far(l, s).node, true), root, Aside(c, t, true),
       Mk(l, c.black, Near(l, s), s.node, s.data, Blacken(Far(l, s))), nil);
  }

  // ---- taking a node out -----------------------------------------------------------

  /** What is left of a node with at most one child. */
  ghost function OnlyChild<N, T>(t: Tree<N, T>): Tree<N, T>
    requires t.Br?
  {
    if t.left.Br? then t.left else t.right
  }

  /** The child (or the sentinel) gets its grandparent as parent, and the link from above. */
  ghost function SpliceMem<N, T>(m: Mem<N, T>, n: N, child: N, nil: N): Mem<N, T>
    requires n in m && child in m && m[n].parent in m && n != child
  {
    Redirect(m[child := m[child].(parent := m[n].parent)], n, child, nil)
  }

  lemma SpliceCells<N, T>(m: Mem<N, T>, n: N, child: N, p: N, inLeft: bool, nil: N)
    requires n in m && child in m && p in m && m[n].parent == p && n != child && n != p && (p != nil ==> p != child)
    requires p != nil ==> (inLeft <==> m[p].left == n)
    ensures var m' := SpliceMem(m, n, child, nil) - {n};
            && m'.Keys == m.Keys - {n}
            && m'[child] == m[child].(parent := p)
            && (p != nil ==> m'[p] == if inLeft then m[p].(left := child) else m[p].(right := child))
            && forall x :: x in m && x != n && x != child && (x != p || p == nil) ==> m'[x] == m[x]
  {
  }

  lemma OnlyChildShape<N, T>(t: Tree<N, T>)
    requires t.Br? && (t.left.Leaf? || t.right.Leaf?) && Distinct(t)
    ensures var s := OnlyChild(t);
            && Nodes(t) == Nodes(s) + {t.node} && t.node !in Nodes(s) && Distinct(s)
            && (s.Br? ==> s.node in Nodes(s)
                          && forall x :: x in Nodes(s.left) || x in Nodes(s.right) ==> x in Nodes(s) && x != s.node)
  {
  }

  lemma SpliceAt<N, T>(m: Mem<N, T>, root: N, c: Ctx<N, T>, t: Tree<N, T>, nil: N)
    requires At(m, root, c, t, nil) && t.Br? && (t.left.Leaf? || t.right.Leaf?)
    ensures var n, s := t.node, OnlyChild(t);
            var child := RootOf(s, nil);
            && n in m && child in m && m[n].parent in m && n != child && n != nil && m[n].parent == ParentOf(c, nil)
            && var m' := SpliceMem(m, n, child, nil) - {n};
               && At(m', if ParentOf(c, nil) == nil then child else root, c, s, nil)
               && child in m' && m'[child].parent == ParentOf(c, nil)
  {
    hide SpliceMem, Redirect, Rep, CtxRep, Distinct, CtxDistinct, Nodes;
    var n, s := t.node, OnlyChild(t);
    var child := RootOf(s, nil);
    SplicePlaces(m, root, c, t, nil);
    OnlyChildShape(t);
    SpliceCells(m, n, child, ParentOf(c, nil), c.InLeft?, nil);
    var m' := SpliceMem(m, n, child, nil) - {n};
    Reparented(m, m', s, n, ParentOf(c, nil), nil);
    ReplaceBelow(m, m', c, n, child, nil);
  }

  /** The links around a node with at most one child. */
  lemma SplicePlaces<N, T>(m: Mem<N, T>, root: N, c: Ctx<N, T>, t: Tree<N, T>, nil: N)
    requires At(m, root, c, t, nil) && t.Br? && (t.left.Leaf? || t.right.Leaf?)
    ensures var n, s, p := t.node, OnlyChild(t), ParentOf(c, nil);
            && n in m && n != nil && m[n].parent == p && p in m && p != n && Rep(m, s, n, nil)
            && RootOf(s, nil) in m && RootOf(s, nil) != n && (p != nil ==> p != RootOf(s, nil))
            && (p != nil ==> p == c.node && (c.InLeft? <==> m[p].left == n)) && (p == nil <==> c.Top?)
  {
    LookHere(m, root, c, t, nil);
    if !c.Top? { LookUp(m, root, c, t, nil); }
    OnlyChildShape(t);
    hide CtxRep, CtxDistinct;
  }

  lemma Reparented<N, T>(m: Mem<N, T>, m': Mem<N, T>, s: Tree<N, T>, n: N, p: N, nil: N)
    requires Rep(m, s, n, nil) && Distinct(s)
    requires s.Br? ==> s.node in m && s.node in m' && m'[s.node] == m[s.node].(parent := p)
    requires forall x :: x in Nodes(s) && x in m && (s.Br? ==> x != s.node) ==> x in m' && m'[x] == m[x]
    ensures Rep(m', s, p, nil)
  {
    if s.Br? {
      RepKept(m, m', s.left, s.node, nil);
      RepKept(m, m', s.right, s.node, nil);
    }
  }

  lemma DataAt<N, T>(m: Mem<N, T>, root: N, c: Ctx<N, T>, t: Tree<N, T>, nil: N, d: T)
    requires At(m, root, c, t, nil) && t.Br?
    ensures t.node in m && At(m[t.node := m[t.node].(data := d)], root, c, t.(data := d), nil)
  {
    RewriteAt(m, root, c, t, nil, t.black, d);
    RewriteIs(m, t, ParentOf(c, nil), nil);
    hide At;
  }

  /** `c` goes on from `base` along left links only. */
  ghost predicate LeftSpine<N, T>(c: Ctx<N, T>, base: Ctx<N, T>) {
    c == base || (c.InLeft? && LeftSpine(c.up, base))
  }

  /** The same spine with other data in the node of its base. */
  ghost function Rebased<N, T>(c: Ctx<N, T>, base: Ctx<N, T>, d: T): Ctx<N, T>
    requires LeftSpine(c, base) && base.InRight?
  {
    if c == base then InRight(c.up, c.black, c.left, c.node, d)
    else InLeft(Rebased(c.up, base, d), c.black, c.node, c.data, c.right)
  }

  lemma {:induction false} RebasedAt<N, T>(m: Mem<N, T>, root: N, c: Ctx<N, T>, t: Tree<N, T>, nil: N,
                                           base: Ctx<N, T>, d: T)
    requires At(m, root, c, t, nil) && LeftSpine(c, base) && base.InRight?
    ensures base.node in m && At(m[base.node := m[base.node].(data := d)], root, Rebased(c, base, d), t, nil)
    decreases c
  {
    hide At;
    Up(m, root, c, t, nil);
    var p := Parent(c, t, c.black);
    LookUp(m, root, c, t, nil);
    if c == base {
      DataAt(m, root, c.up, p, nil, d);
      Down(false, m[base.node := m[base.node].(data := d)], root, c.up, p.(data := d), nil);
    } else {
      RebasedAt(m, root, c.up, p, nil, base, d);
      Down(true, m[base.node := m[base.node].(data := d)], root, Rebased(c.up, base, d), p, nil);
    }
  }

  lemma {:induction false} RebasedRow<N, T>(c: Ctx<N, T>, base: Ctx<N, T>, d: T)
    requires LeftSpine(c, base) && base.InRight?
    ensures Before(c) == Before(base.up) + Row(base.left) + [(base.node, base.data)]
    ensures Before(Rebased(c, base, d)) == Before(base.up) + Row(base.left) + [(base.node, d)]
    ensures Behind(Rebased(c, base, d)) == Behind(c)
    decreases c
  {
    if c != base { RebasedRow(c.up, base, d); }
  }

  lemma {:induction false} RebasedGood<N, T>(c: Ctx<N, T>, base: Ctx<N, T>, d: T, h: nat, black: bool)
    requires LeftSpine(c, base) && base.InRight?
    ensures GoodCtx(Rebased(c, base, d), h, black) == GoodCtx(c, h, black)
    ensures ParentOf(Rebased(c, base, d), base.node) == ParentOf(c, base.node) && !c.Top?
    decreases c
  {
    if c != base { RebasedGood(c.up, base, d, h + One(c.black), c.black); }
  }
}
