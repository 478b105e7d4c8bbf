/** Red-black trees as values: the meaning of the linked nodes in CoSet.
    A position inside a tree is a context (the path up to the root, with what
    hangs off it) and the subtree below. */
module RedBlack {

  datatype Tree<N, T> = Leaf | Br(black: bool, left: Tree<N, T>, node: N, data: T, right: Tree<N, T>)

  datatype Ctx<N, T> =
    | Top
    | InLeft(up: Ctx<N, T>, black: bool, node: N, data: T, right: Tree<N, T>)
    | InRight(up: Ctx<N, T>, black: bool, left: Tree<N, T>, node: N, data: T)

  ghost function Plug<N, T>(c: Ctx<N, T>, t: Tree<N, T>): Tree<N, T>
    decreases c
  {
    match c
    case Top => t
    case InLeft(up, b, n, d, r) => Plug(up, Br(b, t, n, d, r))
    case InRight(up, b, l, n, d) => Plug(up, Br(b, l, n, d, t))
  }

  ghost function Depth<N, T>(c: Ctx<N, T>): nat {
    if c.Top? then 0 else Depth(c.up) + 1
  }

  // ---- contents --------------------------------------------------------------

  /** The nodes in order, with the element each one holds. */
  ghost function Row<N, T>(t: Tree<N, T>): seq<(N, T)> {
    match t
    case Leaf => []
    case Br(_, l, n, d, r) => Row(l) + [(n, d)] + Row(r)
  }

  /** The elements of a row, without the nodes. */
  ghost function Data<N, T>(row: seq<(N, T)>): (s: seq<T>)
    ensures |s| == |row| && forall i :: 0 <= i < |row| ==> s[i] == row[i].1
  {
    seq(|row|, i requires 0 <= i < |row| => row[i].1)
  }

  lemma DataConcat<N, T>(a: seq<(N, T)>, b: seq<(N, T)>)
    ensures Data(a + b) == Data(a) + Data(b)
  {
  }

  lemma DataAround<N, T>(a: seq<(N, T)>, n: N, d: T, b: seq<(N, T)>)
    ensures Data(a + [(n, d)] + b) == Data(a) + [d] + Data(b)
  {
  }

  /** What precedes and what follows the hole of a context. */
  ghost function Before<N, T>(c: Ctx<N, T>): seq<(N, T)> {
    match c
    case Top => []
    case InLeft(up, _, _, _, _) => Before(up)
    case InRight(up, _, l, n, d) => Before(up) + Row(l) + [(n, d)]
  }

  ghost function Behind<N, T>(c: Ctx<N, T>): seq<(N, T)> {
    match c
    case Top => []
    case InLeft(up, _, n, d, r) => [(n, d)] + Row(r) + Behind(up)
    case InRight(up, _, _, _, _) => Behind(up)
  }

  ghost function RowAt<N, T>(c: Ctx<N, T>, t: Tree<N, T>): seq<(N, T)> {
    Before(c) + Row(t) + Behind(c)
  }

  lemma {:induction false} PlugRow<N, T>(c: Ctx<N, T>, t: Tree<N, T>)
    ensures Row(Plug(c, t)) == RowAt(c, t)
    decreases c
  {
    match c
    case Top =>
    case InLeft(up, b, n, d, r) =>
      PlugRow(up, Br(b, t, n, d, r));
      RowMovesDown(up, b, t, n, d, r);
    case InRight(up, b, l, n, d) =>
      PlugRow(up, Br(b, l, n, d, t));
      RowMovesDown(up, b, l, n, d, t);
  }

  lemma Reassociate<E>(a: seq<E>, l: seq<E>, m: seq<E>, r: seq<E>, b: seq<E>)
    ensures a + (l + m + r) + b == a + l + (m + r + b) == (a + l + m) + r + b
  {
  }

  /** Stepping into a child does not change the row. */
  lemma RowMovesDown<N, T>(c: Ctx<N, T>, b: bool, l: Tree<N, T>, n: N, d: T, r: Tree<N, T>)
    ensures RowAt(InLeft(c, b, n, d, r), l) == RowAt(c, Br(b, l, n, d, r)) == RowAt(InRight(c, b, l, n, d), r)
  {
    Reassociate(Before(c), Row(l), [(n, d)], Row(r), Behind(c));
  }

  // ---- balance ---------------------------------------------------------------

  ghost predicate IsBlack<N, T>(t: Tree<N, T>) { t.Leaf? || t.black }

  ghost function Blacken<N, T>(t: Tree<N, T>): Tree<N, T> { if t.Leaf? then t else t.(black := true) }

  ghost function One(black: bool): nat { if black then 1 else 0 }

  /** Black nodes on the leftmost path; on every path, if the tree is Good. */
  ghost function BH<N, T>(t: Tree<N, T>): nat {
    if t.Leaf? then 0 else BH(t.left) + One(t.black)
  }

  /** No red node has a red child, and all paths have equally many black nodes. */
  ghost predicate Good<N, T>(t: Tree<N, T>) {
    match t
    case Leaf => true
    case Br(b, l, _, _, r) =>
      Good(l) && Good(r) && BH(l) == BH(r) && (!b ==> IsBlack(l) && IsBlack(r))
  }

  /** The context suits a subtree of black height `h` with a root of that colour. */
  ghost predicate GoodCtx<N, T>(c: Ctx<N, T>, h: nat, black: bool) {
    match c
    case Top => black
    case InLeft(up, b, _, _, r) =>
      Good(r) && BH(r) == h && (!b ==> black && IsBlack(r)) && GoodCtx(up, h + One(b), b)
    case InRight(up, b, l, _, _) =>
      Good(l) && BH(l) == h && (!b ==> black && IsBlack(l)) && GoodCtx(up, h + One(b), b)
  }

  lemma {:induction false} PlugGood<N, T>(c: Ctx<N, T>, t: Tree<N, T>)
    requires Good(t) && GoodCtx(c, BH(t), IsBlack(t))
    ensures Good(Plug(c, t)) && IsBlack(Plug(c, t))
    decreases c
  {
    match c
    case Top =>
    case InLeft(up, b, n, d, r) => PlugGood(up, Br(b, t, n, d, r));
    case InRight(up, b, l, n, d) => PlugGood(up, Br(b, l, n, d, t));
  }

  lemma {:induction false} GoodParts<N, T>(c: Ctx<N, T>, t: Tree<N, T>)
    requires Good(Plug(c, t)) && IsBlack(Plug(c, t))
    ensures Good(t) && GoodCtx(c, BH(t), IsBlack(t))
    decreases c
  {
    match c
    case Top =>
    case InLeft(up, b, n, d, r) => GoodParts(up, Br(b, t, n, d, r));
    case InRight(up, b, l, n, d) => GoodParts(up, Br(b, l, n, d, t));
  }

  /** Three entries or more leave no side of a valid tree empty. */
  lemma RootHasBoth<N, T>(t: Tree<N, T>)
    requires Good(t) && IsBlack(t) && |Row(t)| >= 3
    ensures t.left.Br? && t.right.Br?
  {
    if t.left.Leaf? { OnlyRed(t.right); }
    if t.right.Leaf? { OnlyRed(t.left); }
  }

  /** A tree without black nodes has at most one node. */
  lemma OnlyRed<N, T>(t: Tree<N, T>)
    requires Good(t)
    ensures BH(t) == 0 ==> |Row(t)| <= 1
    ensures BH(t) == 0 && IsBlack(t) ==> t.Leaf?
  {
  }

  // ---- height ----------------------------------------------------------------

  ghost function Height<N, T>(t: Tree<N, T>): nat {
    if t.Leaf? then 0 else 1 + if Height(t.left) > Height(t.right) then Height(t.left) else Height(t.right)
  }

  ghost function Pow2(n: nat): nat { if n == 0 then 1 else 2 * Pow2(n - 1) }

  lemma {:induction false} Pow2Adds(a: nat, b: nat)
    ensures Pow2(a + b) == Pow2(a) * Pow2(b)
  {
    if a > 0 {
      Pow2Adds(a - 1, b);
      TwiceProduct(Pow2(a - 1), Pow2(b));
      assert Pow2(a + b) == 2 * Pow2(a - 1 + b);
    }
  }

  lemma TwiceProduct(x: nat, y: nat)
    ensures 2 * (x * y) == (2 * x) * y
  {
  }

  lemma {:induction false} Pow2Grows(a: nat, b: nat)
    requires a <= b
    ensures Pow2(a) <= Pow2(b)
    decreases b
  {
    if a < b { Pow2Grows(a, b - 1); }
  }

  lemma {:induction false} HeightBound<N, T>(t: Tree<N, T>)
    requires Good(t)
    ensures Height(t) <= 2 * BH(t) + if IsBlack(t) then 0 else 1
  {
    if t.Br? {
      HeightBound(t.left);
      HeightBound(t.right);
    }
  }

  lemma {:induction false} SizeBound<N, T>(t: Tree<N, T>)
    requires Good(t)
    ensures |Row(t)| + 1 >= Pow2(BH(t))
  {
    if t.Br? {
      SizeBound(t.left);
      SizeBound(t.right);
    }
  }

  /** The height of a red-black tree is at most 2 * log2(size + 1). */
  lemma HeightIsLogarithmic<N, T>(t: Tree<N, T>, k: nat)
    requires Good(t) && IsBlack(t) && k <= Height(t)
    ensures Pow2(k) <= (|Row(t)| + 1) * (|Row(t)| + 1)
  {
    HeightBound(t);
    SizeBound(t);
    PowerBound(k, BH(t), |Row(t)| + 1);
  }

  lemma PowerBound(k: nat, h: nat, n: nat)
    requires k <= 2 * h && Pow2(h) <= n
    ensures Pow2(k) <= n * n
  {
    hide Pow2;
    Pow2Grows(k, h + h);
    Pow2Adds(h, h);
    Squares(Pow2(h), n);
  }

  lemma Squares(a: nat, b: nat)
    requires a <= b
    ensures a * a <= b * b
  {
    assert a * a <= a * b <= b * b;
  }

  // ---- insertion -------------------------------------------------------------

  /** The loop invariant of `_coset_insert_fixedup`: everything is in order,
      except that the root of the red subtree `t` may have a red parent. */
  ghost predicate Inserting<N, T>(c: Ctx<N, T>, t: Tree<N, T>) {
    t.Br? && !t.black && Good(t) && GoodCtx(c, BH(t), true)
  }

  lemma InsertStarts<N, T>(c: Ctx<N, T>, t: Tree<N, T>)
    requires GoodCtx(c, 0, true) && t.Br? && !t.black && t.left.Leaf? && t.right.Leaf?
    ensures Inserting(c, t)
  {
  }

  lemma GrandparentIsBlack<N, T>(c: Ctx<N, T>, t: Tree<N, T>)
    requires Inserting(c, t) && !c.Top? && !c.black
    ensures !c.up.Top? && c.up.black
  {
    assert GoodCtx(c.up, BH(t), false);
  }

  // ---- both sides at once: `left` says on which side of its parent the hole is --

  ghost function Mk<N, T>(left: bool, black: bool, near: Tree<N, T>, n: N, d: T, far: Tree<N, T>): Tree<N, T> {
    if left then Br(black, near, n, d, far) else Br(black, far, n, d, near)
  }

  ghost function Hang<N, T>(left: bool, up: Ctx<N, T>, black: bool, n: N, d: T, far: Tree<N, T>): Ctx<N, T> {
    if left then InLeft(up, black, n, d, far) else InRight(up, black, far, n, d)
  }

  ghost function Near<N, T>(left: bool, t: Tree<N, T>): Tree<N, T>
    requires t.Br?
  {
    if left then t.left else t.right
  }

  ghost function Far<N, T>(left: bool, t: Tree<N, T>): Tree<N, T>
    requires t.Br?
  {
    if left then t.right else t.left
  }

  ghost function Sibling<N, T>(c: Ctx<N, T>): Tree<N, T>
    requires !c.Top?
  {
    if c.InLeft? then c.right else c.left
  }

  /** The subtree one level up, its root in the given colour. */
  ghost function Parent<N, T>(c: Ctx<N, T>, t: Tree<N, T>, black: bool): Tree<N, T>
    requires !c.Top?
  {
    Mk(c.InLeft?, black, t, c.node, c.data, Sibling(c))
  }

  lemma RowOfParent<N, T>(c: Ctx<N, T>, t: Tree<N, T>, black: bool)
    requires !c.Top?
    ensures RowAt(c.up, Parent(c, t, black)) == RowAt(c, t)
  {
    if c.InLeft? {
      RowMovesDown(c.up, black, t, c.node, c.data, c.right);
    } else {
      RowMovesDown(c.up, black, c.left, c.node, c.data, t);
    }
  }

  /** A rotation that lifts the child on the other side: `_coset_leftrot` for
      `left`, `_coset_rightrot` otherwise.  Nodes keep their colours. */
  ghost function Rotated<N, T>(left: bool, t: Tree<N, T>): Tree<N, T>
    requires t.Br? && Far(left, t).Br?
  {
    var y := Far(left, t);
    Mk(left, y.black, Mk(left, t.black, Near(left, t), t.node, t.data, Near(left, y)), y.node, y.data, Far(left, y))
  }

  lemma Regroup<E>(a: seq<E>, x: seq<E>, b: seq<E>, y: seq<E>, c: seq<E>)
    ensures (a + x + b) + y + c == a + x + (b + y + c)
  {
  }

  lemma RotationKeepsRow<N, T>(left: bool, t: Tree<N, T>)
    requires t.Br? && Far(left, t).Br?
    ensures Row(Rotated(left, t)) == Row(t)
  {
    var y := Far(left, t);
    var x, z := [(t.node, t.data)], [(y.node, y.data)];
    var inner := Mk(left, t.black, Near(left, t), t.node, t.data, Near(left, y));
    if left {
      assert Row(Rotated(left, t)) == Row(inner) + z + Row(y.right);
      Regroup(Row(t.left), x, Row(y.left), z, Row(y.right));
    } else {
      assert Row(Rotated(left, t)) == Row(y.left) + z + Row(inner);
      Regroup(Row(y.left), z, Row(y.right), x, Row(t.right));
    }
  }

  /** Case 1: parent and uncle turn black, the grandparent red. */
  ghost function Recoloured<N, T>(c: Ctx<N, T>, t: Tree<N, T>): Tree<N, T>
    requires !c.Top? && !c.up.Top?
  {
    Mk(c.up.InLeft?, false, Parent(c, t, true), c.up.node, c.up.data, Blacken(Sibling(c.up)))
  }

  lemma RecolourKeeps<N, T>(c: Ctx<N, T>, t: Tree<N, T>)
    requires Inserting(c, t) && !c.Top? && !c.black && !c.up.Top? && !IsBlack(Sibling(c.up))
    ensures Inserting(c.up.up, Recoloured(c, t))
    ensures RowAt(c.up.up, Recoloured(c, t)) == RowAt(c, t)
  {
    var p := Parent(c, t, true);
    RowOfParent(c, t, true);
    RowOfParent(c.up, p, false);
    GrandparentIsBlack(c, t);
    assert GoodCtx(c.up, BH(t), false);
    assert Good(p) && BH(p) == BH(t) + 1;
    assert Good(Blacken(Sibling(c.up))) && BH(Blacken(Sibling(c.up))) == BH(t) + 1;
    assert Row(Recoloured(c, t)) == Row(Parent(c.up, p, false));
  }

  /** Case 2: an inner grandchild becomes an outer one. */
  ghost function InnerCtx<N, T>(c: Ctx<N, T>, t: Tree<N, T>): Ctx<N, T>
    requires !c.Top? && t.Br?
  {
    Hang(!c.InLeft?, c.up, t.black, t.node, t.data, Near(c.InLeft?, t))
  }

  ghost function InnerTree<N, T>(c: Ctx<N, T>, t: Tree<N, T>): Tree<N, T>
    requires !c.Top? && t.Br?
  {
    Mk(c.InLeft?, c.black, Far(c.InLeft?, t), c.node, c.data, Sibling(c))
  }

  lemma InnerRotationKeeps<N, T>(c: Ctx<N, T>, t: Tree<N, T>)
    requires Inserting(c, t) && !c.Top? && !c.black
    ensures Inserting(InnerCtx(c, t), InnerTree(c, t))
    ensures RowAt(InnerCtx(c, t), InnerTree(c, t)) == RowAt(c, t)
    ensures Parent(InnerCtx(c, t), InnerTree(c, t), t.black) == Rotated(!c.InLeft?, Parent(c, t, c.black))
  {
    var P := Parent(c, t, c.black);
    RowOfParent(c, t, c.black);
    RotationKeepsRow(!c.InLeft?, P);
    RowOfParent(InnerCtx(c, t), InnerTree(c, t), t.black);
    assert Good(InnerTree(c, t)) && BH(InnerTree(c, t)) == BH(t);
  }

  /** Case 3: parent black, grandparent red, rotation at the grandparent. */
  ghost function OuterCtx<N, T>(c: Ctx<N, T>): Ctx<N, T>
    requires !c.Top? && !c.up.Top?
  {
    Hang(c.InLeft?, c.up.up, true, c.node, c.data,
         Mk(c.InLeft?, false, Sibling(c), c.up.node, c.up.data, Sibling(c.up)))
  }

  lemma OuterRotationKeeps<N, T>(c: Ctx<N, T>, t: Tree<N, T>)
    requires Inserting(c, t) && !c.Top? && !c.black && !c.up.Top?
    requires c.InLeft? == c.up.InLeft? && IsBlack(Sibling(c.up))
    ensures Inserting(OuterCtx(c), t) && OuterCtx(c).black
    ensures RowAt(OuterCtx(c), t) == RowAt(c, t)
    ensures Parent(OuterCtx(c), t, true) == Rotated(!c.InLeft?, Parent(c.up, Parent(c, t, true), false))
  {
    var p := Parent(c, t, true);
    var g := Parent(c.up, p, false);
    RowOfParent(c, t, true);
    RowOfParent(c.up, p, false);
    RotationKeepsRow(!c.InLeft?, g);
    RowOfParent(OuterCtx(c), t, true);
    GrandparentIsBlack(c, t);
    assert GoodCtx(c.up, BH(t), false);
  }

  /** The loop ends under a black parent or at the root, which is then blackened. */
  lemma InsertEnds<N, T>(c: Ctx<N, T>, t: Tree<N, T>)
    requires Inserting(c, t) && (c.Top? || c.black)
    ensures var whole := Blacken(Plug(c, t));
            Good(whole) && IsBlack(whole) && Row(whole) == RowAt(c, t)
    ensures !c.Top? ==> Blacken(Plug(c, t)) == Plug(c, t)
  {
    PlugRow(c, t);
    if !c.Top? {
      assert GoodCtx(c, BH(t), false);
      PlugGood(c, t);
    }
  }

  // ---- deletion --------------------------------------------------------------

  /** The loop invariant of `_coset_delete_fixedup`: the subtree `t` is one
      black node short, and its root may be red under a red parent. */
  ghost predicate Deleting<N, T>(c: Ctx<N, T>, t: Tree<N, T>) {
    Good(Blacken(t)) && GoodCtx(c, BH(t) + 1, true)
  }

  /** Taking out a black node leaves its place one black node short. */
  lemma DeleteStarts<N, T>(c: Ctx<N, T>, child: Tree<N, T>)
    requires Good(child) && GoodCtx(c, BH(child) + 1, true)
    ensures Deleting(c, child)
  {
  }

  /** A red node can be taken out without a trace. */
  lemma RedNodeIsSpare<N, T>(c: Ctx<N, T>, child: Tree<N, T>)
    requires Good(child) && IsBlack(child) && GoodCtx(c, BH(child), false)
    ensures Good(Plug(c, child)) && IsBlack(Plug(c, child))
  {
    RedFits(c, BH(child));
    PlugGood(c, child);
  }

  lemma RedFits<N, T>(c: Ctx<N, T>, h: nat)
    requires GoodCtx(c, h, false)
    ensures GoodCtx(c, h, true)
  {
  }

  lemma SiblingIsThere<N, T>(c: Ctx<N, T>, t: Tree<N, T>)
    requires Deleting(c, t) && !c.Top?
    ensures Sibling(c).Br?
  {
  }

  /** A red sibling is rotated up, which makes the new sibling black. */
  ghost function RedSiblingCtx<N, T>(c: Ctx<N, T>): Ctx<N, T>
    requires !c.Top? && Sibling(c).Br?
  {
    var l, s := c.InLeft?, Sibling(c);
    Hang(l, Hang(l, c.up, true, s.node, s.data, Far(l, s)), false, c.node, c.data, Near(l, s))
  }

  lemma RedSiblingKeeps<N, T>(c: Ctx<N, T>, t: Tree<N, T>)
    requires Deleting(c, t) && IsBlack(t) && !c.Top? && !IsBlack(Sibling(c))
    ensures var c' := RedSiblingCtx(c);
            && Deleting(c', t) && RowAt(c', t) == RowAt(c, t)
            && !c'.black && Sibling(c').Br? && Sibling(c').black
            && Parent(c'.up, Parent(c', t, false), true)
               == Rotated(c.InLeft?, Mk(c.InLeft?, false, t, c.node, c.data, Blacken(Sibling(c))))
  {
    var c' := RedSiblingCtx(c);
    var g := Mk(c.InLeft?, false, t, c.node, c.data, Blacken(Sibling(c)));
    RowOfParent(c, t, false);
    assert Row(g) == Row(Parent(c, t, false));
    RotationKeepsRow(c.InLeft?, g);
    RowOfParent(c', t, false);
    RowOfParent(c'.up, Parent(c', t, false), true);
    assert GoodCtx(c'.up, BH(t) + 1, false);
  }

  lemma GoodInside<N, T>(t: Tree<N, T>)
    requires Good(t) && t.Br?
    ensures Good(t.left) && Good(t.right) && BH(t.left) == BH(t.right) == BH(t) - One(t.black)
    ensures !t.black ==> IsBlack(t.left) && IsBlack(t.right)
    ensures Good(Blacken(t)) && BH(Blacken(t)) == BH(t) + One(!t.black)
  {
  }

  /** A black sibling with black children turns red, and the shortage moves up. */
  lemma BlackNephewsKeep<N, T>(c: Ctx<N, T>, t: Tree<N, T>)
    requires Deleting(c, t) && IsBlack(t) && !c.Top? && Sibling(c).Br? && Sibling(c).black
    requires IsBlack(Sibling(c).left) && IsBlack(Sibling(c).right)
    ensures var p := Mk(c.InLeft?, c.black, t, c.node, c.data, Sibling(c).(black := false));
            Deleting(c.up, p) && RowAt(c.up, p) == RowAt(c, t)
  {
    var s := Sibling(c).(black := false);
    var p := Mk(c.InLeft?, c.black, t, c.node, c.data, s);
    RowOfParent(c, t, c.black);
    assert Row(p) == Row(Parent(c, t, c.black));
    assert Good(s) && BH(s) == BH(t);
    assert Good(Blacken(p)) && BH(p) == BH(t) + One(c.black);
    if !c.black { RedFits(c.up, BH(t) + 1); }
  }

  /** A red inner nephew is rotated up to be the new sibling, with a red outer child. */
  ghost function InnerNephewCtx<N, T>(c: Ctx<N, T>): Ctx<N, T>
    requires !c.Top? && Sibling(c).Br? && Near(c.InLeft?, Sibling(c)).Br?
  {
    var l, s := c.InLeft?, Sibling(c);
    var i := Near(l, s);
    Hang(l, c.up, c.black, c.node, c.data,
         Mk(l, true, Near(l, i), i.node, i.data, Mk(l, false, Far(l, i), s.node, s.data, Far(l, s))))
  }

  lemma InnerNephewIsGood<N, T>(l: bool, s: Tree<N, T>)
    requires Good(s) && s.Br? && s.black && IsBlack(Far(l, s)) && !IsBlack(Near(l, s))
    ensures Near(l, s).Br?
    ensures var s' := Rotated(!l, RecolouredNephew(l, s));
            Good(s') && BH(s') == BH(s) && Row(s') == Row(s) && s'.Br? && s'.black && !IsBlack(Far(l, s'))
  {
    var g, i := RecolouredNephew(l, s), Near(l, s);
    GoodInside(s);
    GoodInside(i);
    RotationKeepsRow(!l, g);
    assert Row(g) == Row(s);
  }

  /** The sibling may be exchanged for an equally high one with the same row. */
  lemma SiblingMayChange<N, T>(c: Ctx<N, T>, c': Ctx<N, T>, t: Tree<N, T>)
    requires Deleting(c, t) && !c.Top? && Sibling(c).Br? && Sibling(c).black
    requires !c'.Top? && c' == Hang(c.InLeft?, c.up, c.black, c.node, c.data, Sibling(c'))
    requires Good(Sibling(c')) && BH(Sibling(c')) == BH(Sibling(c)) && IsBlack(Sibling(c'))
             && Row(Sibling(c')) == Row(Sibling(c))
    ensures Deleting(c', t) && RowAt(c', t) == RowAt(c, t)
  {
    RowOfParent(c, t, c.black);
    RowOfParent(c', t, c.black);
  }

  lemma InnerNephewKeeps<N, T>(c: Ctx<N, T>, t: Tree<N, T>)
    requires Deleting(c, t) && IsBlack(t) && !c.Top? && Sibling(c).Br? && Sibling(c).black
    requires IsBlack(Far(c.InLeft?, Sibling(c))) && !IsBlack(Near(c.InLeft?, Sibling(c)))
    ensures var c' := InnerNephewCtx(c);
            && Deleting(c', t) && RowAt(c', t) == RowAt(c, t)
            && Sibling(c').Br? && Sibling(c').black && !IsBlack(Far(c.InLeft?, Sibling(c')))
            && Sibling(c') == Rotated(!c.InLeft?, RecolouredNephew(c.InLeft?, Sibling(c)))
  {
    var c' := InnerNephewCtx(c);
    InnerNephewIsGood(c.InLeft?, Sibling(c));
    assert Sibling(c') == Rotated(!c.InLeft?, RecolouredNephew(c.InLeft?, Sibling(c)));
    hide Rotated, RecolouredNephew, InnerNephewCtx, RowAt, Row, BH;
    SiblingMayChange(c, c', t);
  }

  /** The sibling red and its inner child black, ready to be rotated. */
  ghost function RecolouredNephew<N, T>(left: bool, s: Tree<N, T>): Tree<N, T>
    requires s.Br?
  {
    Mk(left, false, Blacken(Near(left, s)), s.node, s.data, Far(left, s))
  }

  /** A red outer nephew pays for the missing black node. */
  ghost function OuterNephewTree<N, T>(c: Ctx<N, T>, t: Tree<N, T>): Tree<N, T>
    requires !c.Top? && Sibling(c).Br?
  {
    var l, s := c.InLeft?, Sibling(c);
    Mk(l, c.black, Mk(l, true, t, c.node, c.data, Near(l, s)), s.node, s.data, Blacken(Far(l, s)))
  }

  lemma OuterNephewEnds<N, T>(c: Ctx<N, T>, t: Tree<N, T>)
    requires Deleting(c, t) && IsBlack(t) && !c.Top? && Sibling(c).Br? && Sibling(c).black
    requires !IsBlack(Far(c.InLeft?, Sibling(c)))
    ensures var whole := Plug(c.up, OuterNephewTree(c, t));
            Deleting(Top, whole) && IsBlack(whole) && Row(whole) == RowAt(c, t)
    ensures OuterNephewTree(c, t) == Rotated(c.InLeft?,
              Mk(c.InLeft?, true, t, c.node, c.data,
                 Mk(c.InLeft?, c.black, Near(c.InLeft?, Sibling(c)), Sibling(c).node, Sibling(c).data,
                    Blacken(Far(c.InLeft?, Sibling(c))))))
  {
    var n := OuterNephewTree(c, t);
    OuterNephewIsGood(c, t);
    OuterNephewRow(c, t);
    hide Row, Before, Behind, Sibling;
    PlugGood(c.up, n);
    PlugRow(c.up, n);
  }

  lemma OuterNephewIsGood<N, T>(c: Ctx<N, T>, t: Tree<N, T>)
    requires Deleting(c, t) && IsBlack(t) && !c.Top? && Sibling(c).Br? && Sibling(c).black
    requires !IsBlack(Far(c.InLeft?, Sibling(c)))
    ensures var n := OuterNephewTree(c, t);
            Good(n) && BH(n) == BH(t) + 1 + One(c.black) && IsBlack(n) == c.black
  {
    var l, s := c.InLeft?, Sibling(c);
    var low := Mk(l, true, t, c.node, c.data, Near(l, s));
    GoodInside(s);
    GoodInside(Far(l, s));
    assert Good(low) && BH(low) == BH(t) + 1;
    assert Good(Blacken(Far(l, s))) && BH(Blacken(Far(l, s))) == BH(t) + 1;
  }

  lemma OuterNephewRow<N, T>(c: Ctx<N, T>, t: Tree<N, T>)
    requires !c.Top? && Sibling(c).Br? && Far(c.InLeft?, Sibling(c)).Br?
    ensures RowAt(c.up, OuterNephewTree(c, t)) == RowAt(c, t)
    ensures OuterNephewTree(c, t) == Rotated(c.InLeft?,
              Mk(c.InLeft?, true, t, c.node, c.data,
                 Mk(c.InLeft?, c.black, Near(c.InLeft?, Sibling(c)), Sibling(c).node, Sibling(c).data,
                    Blacken(Far(c.InLeft?, Sibling(c))))))
  {
    var l, s := c.InLeft?, Sibling(c);
    var s' := Mk(l, c.black, Near(l, s), s.node, s.data, Blacken(Far(l, s)));
    assert Row(s') == Row(s);
    RowOfParent(c, t, true);
    RotationKeepsRow(l, Mk(l, true, t, c.node, c.data, s'));
    assert Row(Mk(l, true, t, c.node, c.data, s')) == Row(Parent(c, t, true));
  }

  /** The loop ends at the root or at a red node, which is then blackened. */
  lemma DeleteEnds<N, T>(c: Ctx<N, T>, t: Tree<N, T>)
    requires Deleting(c, t) && (c.Top? || !IsBlack(t))
    ensures var whole := Plug(c, Blacken(t));
            Good(whole) && IsBlack(whole) && Row(whole) == RowAt(c, t)
  {
    PlugGood(c, Blacken(t));
    PlugRow(c, Blacken(t));
  }
}
