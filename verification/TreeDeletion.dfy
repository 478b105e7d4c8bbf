/** Deleting from a red-black tree as a function on values: which tree the
    assignments of `coset_delete` in src/co_set.c leave. */
module TreeDeletion {
  import opened RedBlack
  import opened TreeMemory
  import opened SortedRow

  /** What is left once a node with the colour `black` was taken out above `s`. */
  ghost predicate LeftOver<N, T>(c: Ctx<N, T>, s: Tree<N, T>, black: bool) {
    Good(s) && if black then GoodCtx(c, BH(s) + 1, true) else IsBlack(s) && GoodCtx(c, BH(s), false)
  }

  lemma OnlyChildIsGood<N, T>(c: Ctx<N, T>, t: Tree<N, T>)
    requires Good(t) && GoodCtx(c, BH(t), IsBlack(t)) && t.Br? && (t.left.Leaf? || t.right.Leaf?)
    ensures LeftOver(c, OnlyChild(t), t.black)
  {
    GoodInside(t);
  }

  lemma RebasedLeftOver<N, T>(c: Ctx<N, T>, s: Tree<N, T>, black: bool, base: Ctx<N, T>, d: T)
    requires LeftOver(c, s, black) && LeftSpine(c, base) && base.InRight?
    ensures LeftOver(Rebased(c, base, d), s, black)
  {
    RebasedGood(c, base, d, if black then BH(s) + 1 else BH(s), black);
  }

  /** The row without its entry `k`; with `two`, the node of the next entry
      goes instead and hands its element over. */
  ghost function RowWithout<N, T>(row: seq<(N, T)>, k: nat, two: bool): seq<(N, T)>
    requires if two then k + 1 < |row| else k < |row|
  {
    if two then row[..k] + [(row[k].0, row[k + 1].1)] + row[k + 2..] else row[..k] + row[k + 1..]
  }

  /** Rows around the node taken out, when it has at most one child. */
  lemma RowOfOne<N, T>(c: Ctx<N, T>, t: Tree<N, T>) returns (k: nat)
    requires t.Br? && (t.left.Leaf? || t.right.Leaf?)
    ensures k < |RowAt(c, t)| && RowAt(c, t)[k] == (t.node, t.data)
            && RowAt(c, OnlyChild(t)) == RowWithout(RowAt(c, t), k, false)
    ensures k == |Before(c)| + |Row(t.left)|
  {
    hide RowAt;
    var row, p, q := RowAt(c, t), Before(c) + Row(t.left), Row(t.right) + Behind(c);
    k := |p|;
    RowInThree(c, t);
    assert row[..k] == p && row[k + 1..] == q;
    if t.left.Br? {
      OneSided(c, t.left);
      assert q == Behind(c);
    } else {
      OneSided(c, t.right);
      assert p == Before(c);
    }
  }

  lemma RowInThree<N, T>(c: Ctx<N, T>, t: Tree<N, T>)
    requires t.Br?
    ensures RowAt(c, t) == (Before(c) + Row(t.left)) + [(t.node, t.data)] + (Row(t.right) + Behind(c))
  {
  }

  lemma OneSided<N, T>(c: Ctx<N, T>, t: Tree<N, T>)
    ensures RowAt(c, t) == Before(c) + Row(t) + Behind(c) == Before(c) + (Row(t) + Behind(c))
  {
  }

  /** ... and when its successor is taken out instead. */
  lemma RowOfTwo<N, T>(c: Ctx<N, T>, t: Tree<N, T>, base: Ctx<N, T>) returns (k: nat)
    requires t.Br? && t.left.Leaf? && LeftSpine(c, base) && base.InRight?
    ensures k + 1 < |RowAt(c, t)| && RowAt(c, t)[k] == (base.node, base.data)
            && RowAt(c, t)[k + 1] == (t.node, t.data)
    ensures RowAt(Rebased(c, base, t.data), OnlyChild(t)) == RowWithout(RowAt(c, t), k, true)
    ensures k == |Before(base.up)| + |Row(base.left)|
  {
    RebasedRow(c, base, t.data);
    var p := Before(base.up) + Row(base.left);
    k := |p|;
    assert Row(t) == [(t.node, t.data)] + Row(t.right) && OnlyChild(t) == t.right;
    TwoInRow(p, (base.node, base.data), (t.node, t.data), Row(t.right), Behind(c));
  }

  lemma TwoInRow<N, T>(p: seq<(N, T)>, x: (N, T), y: (N, T), r: seq<(N, T)>, b: seq<(N, T)>)
    ensures var row := p + [x] + ([y] + r) + b;
            && |p| + 1 < |row| && row[|p|] == x && row[|p| + 1] == y
            && RowWithout(row, |p|, true) == p + [(x.0, y.1)] + r + b
  {
    var row := p + [x] + ([y] + r) + b;
    assert row[..|p|] == p && row[|p| + 2..] == r + b;
  }

  lemma RowWithoutData<N, T>(row: seq<(N, T)>, k: nat, two: bool)
    requires if two then k + 1 < |row| else k < |row|
    ensures Data(RowWithout(row, k, two)) == Data(row)[..k] + Data(row)[k + 1..]
    ensures |RowWithout(row, k, two)| == |row| - 1
  {
    var s := RowWithout(row, k, two);
    forall i | 0 <= i < |s| ensures s[i].1 == row[if i < k then i else i + 1].1 {}
  }

  // ---- the repair as a function --------------------------------------------------------

  /** The last one or two rotations, at a black sibling with a red child. */
  ghost function RedNephewTree<N, T>(c: Ctx<N, T>, t: Tree<N, T>): Tree<N, T>
    requires Deleting(c, t) && IsBlack(t) && !c.Top? && Sibling(c).Br? && Sibling(c).black
    requires !IsBlack(Sibling(c).left) || !IsBlack(Sibling(c).right)
  {
    if IsBlack(Far(c.InLeft?, Sibling(c))) then
      InnerNephewKeeps(c, t);
      var c' := InnerNephewCtx(c);
      Plug(c'.up, OuterNephewTree(c', t))
    else
      Plug(c.up, OuterNephewTree(c, t))
  }

  /** One round of the repair once the sibling is black. */
  ghost function BlackSiblingStep<N, T>(c: Ctx<N, T>, t: Tree<N, T>): (Ctx<N, T>, Tree<N, T>)
    requires Deleting(c, t) && IsBlack(t) && !c.Top? && Sibling(c).Br? && Sibling(c).black
  {
    if IsBlack(Sibling(c).left) && IsBlack(Sibling(c).right) then
      (c.up, Mk(c.InLeft?, c.black, t, c.node, c.data, Sibling(c).(black := false)))
    else
      (Top, RedNephewTree(c, t))
  }

  /** One round of the repair. */
  ghost function RepairStep<N, T>(c: Ctx<N, T>, t: Tree<N, T>): (Ctx<N, T>, Tree<N, T>)
    requires Deleting(c, t) && IsBlack(t) && !c.Top?
  {
    SiblingIsThere(c, t);
    if IsBlack(Sibling(c)) then
      BlackSiblingStep(c, t)
    else
      RedSiblingKeeps(c, t);
      BlackSiblingStep(RedSiblingCtx(c), t)
  }

  lemma RedNephewTreeIs<N, T>(c: Ctx<N, T>, t: Tree<N, T>)
    requires Deleting(c, t) && IsBlack(t) && !c.Top? && Sibling(c).Br? && Sibling(c).black
    requires !IsBlack(Sibling(c).left) || !IsBlack(Sibling(c).right)
    ensures Deleting(Top, RedNephewTree(c, t)) && RowAt(Top, RedNephewTree(c, t)) == RowAt(c, t)
  {
    hide Deleting, InnerNephewCtx, OuterNephewTree, RowAt;
    if IsBlack(Far(c.InLeft?, Sibling(c))) {
      InnerNephewKeeps(c, t);
      InnerNephewSide(c);
      OuterNephewEnds(InnerNephewCtx(c), t);
    } else {
      OuterNephewEnds(c, t);
    }
    AloneAtTop(RedNephewTree(c, t));
  }

  lemma InnerNephewSide<N, T>(c: Ctx<N, T>)
    requires !c.Top? && Sibling(c).Br? && Near(c.InLeft?, Sibling(c)).Br?
    ensures !InnerNephewCtx(c).Top? && InnerNephewCtx(c).InLeft? == c.InLeft?
  {
  }

  lemma AloneAtTop<N, T>(t: Tree<N, T>)
    ensures RowAt(Top, t) == Row(t)
  {
  }

  lemma BlackSiblingStepKeeps<N, T>(c: Ctx<N, T>, t: Tree<N, T>)
    requires Deleting(c, t) && IsBlack(t) && !c.Top? && Sibling(c).Br? && Sibling(c).black
    ensures var r := BlackSiblingStep(c, t);
            && Deleting(r.0, r.1) && RowAt(r.0, r.1) == RowAt(c, t)
            && (r.0.Top? || (r.0 == c.up && (!c.black ==> !IsBlack(r.1))))
  {
    if IsBlack(Sibling(c).left) && IsBlack(Sibling(c).right) {
      BlackNephewsKeep(c, t);
    } else {
      RedNephewTreeIs(c, t);
    }
    hide Deleting, RowAt;
  }

  /** A round of the repair keeps the row and the shortage and comes nearer to its end. */
  lemma RepairStepKeeps<N, T>(c: Ctx<N, T>, t: Tree<N, T>)
    requires Deleting(c, t) && IsBlack(t) && !c.Top?
    ensures var r := RepairStep(c, t);
            && Deleting(r.0, r.1) && RowAt(r.0, r.1) == RowAt(c, t)
            && (r.0.Top? || !IsBlack(r.1) || Depth(r.0) < Depth(c))
  {
    hide Deleting, RowAt, BlackSiblingStep;
    SiblingIsThere(c, t);
    if IsBlack(Sibling(c)) {
      BlackSiblingStepKeeps(c, t);
    } else {
      RedSiblingKeeps(c, t);
      BlackSiblingStepKeeps(RedSiblingCtx(c), t);
    }
  }

  /** What `_coset_delete_fixedup` makes of the tree. */
  ghost function Repaired<N, T>(c: Ctx<N, T>, t: Tree<N, T>): Tree<N, T>
    requires Deleting(c, t)
    decreases if c.Top? || !IsBlack(t) then 0 else Depth(c) + 1
  {
    if c.Top? || !IsBlack(t) then
      Plug(c, Blacken(t))
    else
      RepairStepKeeps(c, t);
      var r := RepairStep(c, t);
      Repaired(r.0, r.1)
  }

  lemma {:induction false} RepairedIs<N, T>(c: Ctx<N, T>, t: Tree<N, T>)
    requires Deleting(c, t)
    ensures Good(Repaired(c, t)) && IsBlack(Repaired(c, t)) && Row(Repaired(c, t)) == RowAt(c, t)
    decreases if c.Top? || !IsBlack(t) then 0 else Depth(c) + 1
  {
    hide Deleting, RowAt, RepairStep, Good;
    if c.Top? || !IsBlack(t) {
      DeleteEnds(c, t);
    } else {
      RepairStepKeeps(c, t);
      RepairedIs(RepairStep(c, t).0, RepairStep(c, t).1);
    }
  }

  // ---- a whole deletion ------------------------------------------------------------------

  /** The tree once the node above `s`, of the colour `black`, was taken out. */
  ghost function Rebalanced<N, T>(c: Ctx<N, T>, s: Tree<N, T>, black: bool): Tree<N, T>
    requires LeftOver(c, s, black)
  {
    if black then
      DeleteStarts(c, s);
      Repaired(c, s)
    else
      Plug(c, s)
  }

  lemma RebalancedIs<N, T>(c: Ctx<N, T>, s: Tree<N, T>, black: bool)
    requires LeftOver(c, s, black)
    ensures Good(Rebalanced(c, s, black)) && IsBlack(Rebalanced(c, s, black))
    ensures Row(Rebalanced(c, s, black)) == RowAt(c, s)
  {
    if black {
      DeleteStarts(c, s);
      RepairedIs(c, s);
    } else {
      RedNodeIsSpare(c, s);
      PlugRow(c, s);
    }
  }

  /** Down the left links. */
  ghost function Leftmost<N, T>(c: Ctx<N, T>, t: Tree<N, T>): (Ctx<N, T>, Tree<N, T>)
    requires t.Br?
    decreases t
  {
    if t.left.Leaf? then (c, t) else Leftmost(Hang(true, c, t.black, t.node, t.data, t.right), t.left)
  }

  lemma {:induction false} LeftmostIs<N, T>(c: Ctx<N, T>, t: Tree<N, T>)
    requires t.Br?
    ensures var r := Leftmost(c, t);
            && r.1.Br? && r.1.left.Leaf? && LeftSpine(r.0, c)
            && Plug(r.0, r.1) == Plug(c, t) && Before(r.0) == Before(c)
    decreases t
  {
    if t.left.Br? {
      var up := Hang(true, c, t.black, t.node, t.data, t.right);
      LeftmostIs(up, t.left);
      SpineGoesUp(Leftmost(up, t.left).0, up);
    }
  }

  lemma {:induction false} SpineGoesUp<N, T>(c: Ctx<N, T>, base: Ctx<N, T>)
    requires LeftSpine(c, base) && base.InLeft?
    ensures LeftSpine(c, base.up)
    decreases c
  {
    if c != base { SpineGoesUp(c.up, base); }
  }

  /** The context of the successor's subtree. */
  ghost function RightOf<N, T>(c: Ctx<N, T>, t: Tree<N, T>): Ctx<N, T>
    requires t.Br?
  {
    Hang(false, c, t.black, t.node, t.data, t.left)
  }

  /** The node to unlink: the one in focus, or its successor if it has two children. */
  ghost function Victim<N, T>(c: Ctx<N, T>, t: Tree<N, T>): (Ctx<N, T>, Tree<N, T>)
    requires t.Br?
  {
    if t.left.Br? && t.right.Br? then Leftmost(RightOf(c, t), t.right) else (c, t)
  }

  lemma VictimIs<N, T>(c: Ctx<N, T>, t: Tree<N, T>)
    requires t.Br? && Good(Plug(c, t)) && IsBlack(Plug(c, t))
    ensures var v := Victim(c, t);
            && v.1.Br? && (v.1.left.Leaf? || v.1.right.Leaf?) && Plug(v.0, v.1) == Plug(c, t)
            && Good(v.1) && GoodCtx(v.0, BH(v.1), IsBlack(v.1)) && LeftOver(v.0, OnlyChild(v.1), v.1.black)
            && (t.left.Br? && t.right.Br? ==> v.1.left.Leaf? && LeftSpine(v.0, RightOf(c, t)))
  {
    var v := Victim(c, t);
    if t.left.Br? && t.right.Br? { LeftmostIs(RightOf(c, t), t.right); }
    hide Good, GoodCtx, IsBlack, LeftOver;
    GoodParts(v.0, v.1);
    OnlyChildIsGood(v.0, v.1);
  }

  /** Where the child of the unlinked node goes; a successor hands its data over before. */
  ghost function ChildCtx<N, T>(c: Ctx<N, T>, t: Tree<N, T>): Ctx<N, T>
    requires t.Br?
  {
    if t.left.Br? && t.right.Br? then
      LeftmostIs(RightOf(c, t), t.right);
      Rebased(Victim(c, t).0, RightOf(c, t), Victim(c, t).1.data)
    else c
  }

  lemma ChildCtxIs<N, T>(c: Ctx<N, T>, t: Tree<N, T>)
    requires t.Br? && Good(Plug(c, t)) && IsBlack(Plug(c, t))
    ensures var v := Victim(c, t); v.1.Br? && LeftOver(ChildCtx(c, t), OnlyChild(v.1), v.1.black)
  {
    VictimIs(c, t);
    hide Good, IsBlack, LeftOver;
    if t.left.Br? && t.right.Br? {
      var v := Victim(c, t);
      RebasedLeftOver(v.0, OnlyChild(v.1), v.1.black, RightOf(c, t), v.1.data);
    }
  }

  /** The tree that `coset_delete` leaves when it takes out the element in focus. */
  ghost function Removed<N, T>(c: Ctx<N, T>, t: Tree<N, T>): Tree<N, T>
    requires t.Br? && Good(Plug(c, t)) && IsBlack(Plug(c, t))
  {
    ChildCtxIs(c, t);
    Rebalanced(ChildCtx(c, t), OnlyChild(Victim(c, t).1), Victim(c, t).1.black)
  }

  lemma RemovedSteps<N, T>(c: Ctx<N, T>, t: Tree<N, T>, c0: Ctx<N, T>, dt: Tree<N, T>, dc: Ctx<N, T>)
    requires t.Br? && Good(Plug(c, t)) && IsBlack(Plug(c, t)) && Victim(c, t) == (c0, dt) && dt.Br?
    requires t.left.Br? && t.right.Br? ==> LeftSpine(c0, RightOf(c, t))
    requires dc == if t.left.Br? && t.right.Br? then Rebased(c0, RightOf(c, t), dt.data) else c
    ensures LeftOver(dc, OnlyChild(dt), dt.black) && Removed(c, t) == Rebalanced(dc, OnlyChild(dt), dt.black)
  {
    hide Good, IsBlack, LeftOver, Rebased, Victim;
    ChildCtxIs(c, t);
  }

  lemma RemovedIs<N, T>(c: Ctx<N, T>, t: Tree<N, T>)
    requires t.Br? && Good(Plug(c, t)) && IsBlack(Plug(c, t))
    ensures Good(Removed(c, t)) && IsBlack(Removed(c, t))
    ensures var k, two, row := |Before(c)| + |Row(t.left)|, t.left.Br? && t.right.Br?, Row(Plug(c, t));
            && (if two then 0 < k && k + 1 < |row| else k < |row|)
            && row[k] == (t.node, t.data) && Row(Removed(c, t)) == RowWithout(row, k, two)
  {
    hide Good, IsBlack, LeftOver, RowAt, RowWithout, Row, Before, Plug, Leftmost, Rebased, Rebalanced, LeftSpine,
         OnlyChild;
    var v, k := Victim(c, t), 0;
    VictimIs(c, t);
    ChildCtxIs(c, t);
    PlugRow(v.0, v.1);
    RebalancedIs(ChildCtx(c, t), OnlyChild(v.1), v.1.black);
    if t.left.Br? && t.right.Br? {
      k := RowOfTwo(v.0, v.1, RightOf(c, t));
      NotEmpty(t.left);
    } else {
      k := RowOfOne(c, t);
    }
  }

  lemma NotEmpty<N, T>(t: Tree<N, T>)
    requires t.Br?
    ensures |Row(t)| > 0
  {
  }

  // ---- by the number of the entry ----------------------------------------------------------

  /** Where entry `k` of the row of `t` lies. */
  ghost function FocusOn<N, T>(c: Ctx<N, T>, t: Tree<N, T>, k: nat): (Ctx<N, T>, Tree<N, T>)
    requires k < |Row(t)|
    decreases t
  {
    var l := |Row(t.left)|;
    if k == l then (c, t)
    else if k < l then FocusOn(Hang(true, c, t.black, t.node, t.data, t.right), t.left, k)
    else FocusOn(RightOf(c, t), t.right, k - l - 1)
  }

  lemma {:induction false} FocusOnIs<N, T>(c: Ctx<N, T>, t: Tree<N, T>, k: nat)
    requires k < |Row(t)|
    ensures var r := FocusOn(c, t, k);
            r.1.Br? && Plug(r.0, r.1) == Plug(c, t) && |Before(r.0)| + |Row(r.1.left)| == |Before(c)| + k
    decreases t
  {
    var l := |Row(t.left)|;
    if k < l {
      FocusOnIs(Hang(true, c, t.black, t.node, t.data, t.right), t.left, k);
    } else if k > l {
      FocusOnIs(RightOf(c, t), t.right, k - l - 1);
    }
  }

  lemma FocusHere<N, T>(c: Ctx<N, T>, t: Tree<N, T>)
    requires t.Br?
    ensures |Row(t.left)| < |Row(t)| && FocusOn(c, t, |Row(t.left)|) == (c, t)
  {
  }

  /** A focus is the one that its number finds. */
  lemma {:induction false} FocusFromTop<N, T>(c: Ctx<N, T>, t: Tree<N, T>, k: nat)
    requires k < |Row(t)|
    ensures |Before(c)| + k < |Row(Plug(c, t))| && FocusOn(Top, Plug(c, t), |Before(c)| + k) == FocusOn(c, t, k)
    decreases c
  {
    match c
    case Top =>
    case InLeft(up, b, n, d, r) => FocusFromTop(up, Br(b, t, n, d, r), k);
    case InRight(up, b, l, n, d) => FocusFromTop(up, Br(b, l, n, d, t), |Row(l)| + 1 + k);
  }

  /** The node of entry `k` has two children. */
  ghost predicate TwoAt<N, T>(t: Tree<N, T>, k: nat)
    requires k < |Row(t)|
  {
    var f := FocusOn(Top, t, k).1;
    f.Br? && f.left.Br? && f.right.Br?
  }

  /** The tree that `coset_delete` leaves when it takes out entry `k`. */
  ghost function RemovedEntry<N, T>(t: Tree<N, T>, k: nat): Tree<N, T>
    requires k < |Row(t)| && Good(t) && IsBlack(t)
  {
    FocusOnIs(Top, t, k);
    Removed(FocusOn(Top, t, k).0, FocusOn(Top, t, k).1)
  }

  /** Deleting entry `k` leaves a valid tree with the row without that entry. */
  lemma RemovedEntryIs<N, T>(t: Tree<N, T>, k: nat)
    requires k < |Row(t)| && Good(t) && IsBlack(t)
    ensures Good(RemovedEntry(t, k)) && IsBlack(RemovedEntry(t, k))
    ensures TwoAt(t, k) ==> 0 < k && k + 1 < |Row(t)|
    ensures Row(RemovedEntry(t, k)) == RowWithout(Row(t), k, TwoAt(t, k)) && |Row(RemovedEntry(t, k))| == |Row(t)| - 1
  {
    hide Good, IsBlack, Removed;
    FocusOnIs(Top, t, k);
    var f := FocusOn(Top, t, k);
    RemovedIs(f.0, f.1);
    RowWithoutData(Row(t), k, TwoAt(t, k));
  }

  // ---- deleting while going through a row ----------------------------------------------------

  /** From entry `i` on, entries that are missing from `items` are deleted one
      after the other, and each deleted one is, when its turn comes, at a node
      with at most one child. */
  ghost predicate Survives<N, T>(cmp: (T, T) -> int, items: seq<T>, t: Tree<N, T>, i: nat)
    requires Good(t) && IsBlack(t)
    decreases |Row(t)| - i
  {
    i < |Row(t)| ==>
      if Has(cmp, items, Row(t)[i].1) then
        Survives(cmp, items, t, i + 1)
      else
        !TwoAt(t, i) && (RemovedEntryIs(t, i); Survives(cmp, items, RemovedEntry(t, i), i))
  }

  /** Two entries or fewer never give a node two children. */
  lemma {:induction false} SmallSurvives<N, T>(cmp: (T, T) -> int, items: seq<T>, t: Tree<N, T>, i: nat)
    requires Good(t) && IsBlack(t) && |Row(t)| <= 2
    ensures Survives(cmp, items, t, i)
    decreases |Row(t)| - i
  {
    hide Good, IsBlack, TwoAt, RemovedEntry, Has, RowWithout, Row;
    if i < |Row(t)| {
      RemovedEntryIs(t, i);
      if Has(cmp, items, Row(t)[i].1) {
        SmallSurvives(cmp, items, t, i + 1);
      } else {
        SmallSurvives(cmp, items, RemovedEntry(t, i), i);
      }
    }
  }

  /** If the first missing entry has two children, that ends it. */
  lemma {:induction false} FirstMissingEndsIt<N, T>(cmp: (T, T) -> int, items: seq<T>, t: Tree<N, T>, i: nat, m: nat)
    requires Good(t) && IsBlack(t) && i <= m < |Row(t)| && !Has(cmp, items, Row(t)[m].1) && TwoAt(t, m)
    requires forall k :: i <= k < m ==> Has(cmp, items, Row(t)[k].1)
    ensures !Survives(cmp, items, t, i)
    decreases m - i
  {
    hide Good, IsBlack, TwoAt, RemovedEntry, Has, Row;
    if i < m { FirstMissingEndsIt(cmp, items, t, i + 1, m); }
  }

  /** Each element of `was` missing from `items` is the last of all, or everything before it is missing too. */
  ghost predicate OnlyEndsMissing<T>(cmp: (T, T) -> int, was: seq<T>, items: seq<T>) {
    forall k, l :: 0 <= l <= k && k + 1 < |was| && !Has(cmp, items, was[k]) ==> !Has(cmp, items, was[l])
  }

  /** What is still ahead of entry `i` is kept, perhaps without the last. */
  ghost predicate RestIsKept<T>(cmp: (T, T) -> int, was: seq<T>, items: seq<T>, i: nat) {
    forall k :: i <= k && k + 1 < |was| ==> Has(cmp, items, was[k])
  }

  /** Only the smallest entries, which have no left child, and the last one go. */
  lemma {:induction false} EndsSurvive<N, T>(cmp: (T, T) -> int, items: seq<T>, t: Tree<N, T>, i: nat)
    requires Good(t) && IsBlack(t)
    requires if i == 0 then OnlyEndsMissing(cmp, Data(Row(t)), items) else RestIsKept(cmp, Data(Row(t)), items, i)
    ensures Survives(cmp, items, t, i)
    decreases |Row(t)| - i
  {
    hide Good, IsBlack, TwoAt, RemovedEntry, Has, Row, RowWithout;
    if i < |Row(t)| {
      RemovedEntryIs(t, i);
      if Has(cmp, items, Row(t)[i].1) {
        EndsSurvive(cmp, items, t, i + 1);
      } else {
        RowWithoutData(Row(t), i, TwoAt(t, i));
        EndsSurvive(cmp, items, RemovedEntry(t, i), i);
      }
    }
  }
}
