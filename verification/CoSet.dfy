/** The ordered set of src/co_set.c: a red-black tree with parent links. */
module CoSet {
  import opened RedBlack
  import opened SortedRow
  import opened TreeMemory
  import opened TreeDeletion

  class Node<T> {
    var parent: Node<T>
    var left: Node<T>
    var right: Node<T>
    var black: bool         // color: 1 is black
    var data: T

    /** A node whose links are still to be set. */
    constructor (d: T)
      ensures data == d && parent == left == right == this && black
    {
      parent, left, right, black, data := this, this, this, true, d;
    }
  }

  type NTree<!T> = Tree<Node<T>, T>
  type NCtx<!T> = Ctx<Node<T>, T>

  class Set<T(!new)> {
    const nil: Node<T>
    const compare: (T, T) -> int
    var root: Node<T>
    var size: nat
    ghost var mem: Mem<Node<T>, T>              // the fields of all nodes and of nil
    ghost var tree: Tree<Node<T>, T>            // what they mean

    ghost predicate Synced()
      reads this`mem, mem.Keys
    {
      forall n :: n in mem ==> Cell(n.parent, n.left, n.right, n.black, n.data) == mem[n]
    }

    /** `coset_new`.  The data of the sentinel is never looked at. */
    constructor (comp: (T, T) -> int, nothing: T)
      requires TotalOrder(comp)
      ensures Valid() && Items() == [] && fresh(mem.Keys) && compare == comp
    {
      var n := new Node(nothing);
      nil := n;
      root := n;
      size := 0;
      compare := comp;
      mem := map[n := Cell(n, n, n, true, nothing)];
      tree := Leaf;
    }

    /** The elements in order. */
    ghost function Items(): seq<T>
      reads this`tree
    {
      Data(Row(tree))
    }

    /** A red-black tree in memory, in order, with as many nodes as counted. */
    ghost predicate Valid()
      reads this, mem.Keys
    {
      && Synced() && At(mem, root, Top, tree, nil) && Good(tree) && IsBlack(tree)
      && TotalOrder(compare) && Sorted(compare, Items()) && size == |Row(tree)|
    }

    // ---- single assignments, mirrored in `mem` -----------------------------------

    method SetParent(n: Node<T>, p: Node<T>)
      requires Synced() && n in mem
      modifies this`mem, n`parent
      ensures Synced() && mem == old(mem)[n := old(mem)[n].(parent := p)]
      ensures mem.Keys == old(mem.Keys) && root == old(root)
    {
      n.parent := p;
      mem := mem[n := mem[n].(parent := p)];
    }

    method SetLeft(n: Node<T>, p: Node<T>)
      requires Synced() && n in mem
      modifies this`mem, n`left
      ensures Synced() && mem == old(mem)[n := old(mem)[n].(left := p)]
      ensures mem.Keys == old(mem.Keys) && root == old(root)
    {
      n.left := p;
      mem := mem[n := mem[n].(left := p)];
    }

    method SetRight(n: Node<T>, p: Node<T>)
      requires Synced() && n in mem
      modifies this`mem, n`right
      ensures Synced() && mem == old(mem)[n := old(mem)[n].(right := p)]
      ensures mem.Keys == old(mem.Keys) && root == old(root)
    {
      n.right := p;
      mem := mem[n := mem[n].(right := p)];
    }

    method SetBlack(n: Node<T>, black: bool)
      requires Synced() && n in mem
      modifies this`mem, n`black
      ensures Synced() && mem == old(mem)[n := old(mem)[n].(black := black)]
      ensures mem.Keys == old(mem.Keys) && root == old(root)
    {
      n.black := black;
      mem := mem[n := mem[n].(black := black)];
    }

    method SetData(n: Node<T>, d: T)
      requires Synced() && n in mem
      modifies this`mem, n`data
      ensures Synced() && mem == old(mem)[n := old(mem)[n].(data := d)]
      ensures mem.Keys == old(mem.Keys) && root == old(root)
    {
      n.data := d;
      mem := mem[n := mem[n].(data := d)];
    }

    lemma Look(n: Node<T>)
      requires Synced() && n in mem
      ensures Cell(n.parent, n.left, n.right, n.black, n.data) == mem[n]
    {
    }

    // ---- rotations ------------------------------------------------------------------

    /** The link from above is moved from `x` to `y`. */
    method Relink(x: Node<T>, y: Node<T>)
      requires Synced() && x in mem && mem[x].parent in mem
      modifies this`mem, this`root, mem.Keys`left, mem.Keys`right
      ensures Synced() && mem.Keys == old(mem.Keys) && mem == Redirect(old(mem), x, y, nil)
      ensures root == if old(mem)[x].parent == nil then y else old(root)
    {
      if x.parent == nil {
        root := y;
      } else if x == x.parent.left {
        SetLeft(x.parent, y);
      } else {
        SetRight(x.parent, y);
      }
    }

    /** `_coset_leftrot`, first half: the inner grandchild changes sides. */
    method LeftHandOver(x: Node<T>, y: Node<T>)
      requires Synced() && x in mem && y in mem && mem[x].right == y && mem[y].left in mem
      modifies this`mem, mem.Keys
      ensures Synced() && mem.Keys == old(mem.Keys) && root == old(root)
      ensures mem == HandOver(true, old(mem), x, y, nil)
    {
      hide Synced, HandOver;
      ghost var m := mem;
      Look(y);
      SetRight(x, y.left);
      ghost var m1 := mem;
      Look(y);
      if y.left != nil {
        SetParent(y.left, x);
      }
      ghost var m2 := mem;
      Look(x);
      SetParent(y, x.parent);
      HandOverInSteps(true, m, x, y, nil, m1, m2, mem);
    }

    /** `_coset_leftrot` */
    method LeftRot(x: Node<T>, ghost c: Ctx<Node<T>, T>, ghost t: Tree<Node<T>, T>)
      requires Synced() && At(mem, root, c, t, nil) && t.Br? && t.node == x && t.right.Br?
      modifies this`mem, this`root, mem.Keys
      ensures Synced() && mem.Keys == old(mem.Keys) && At(mem, root, c, Rotated(true, t), nil)
      ensures nil in mem && nil in old(mem) && mem[nil] == old(mem)[nil]
    {
      LinksAt(true, mem, root, c, t, nil);
      hide At, Rotated, Synced, Redirect;
      ghost var m, r := mem, root;
      Look(x);
      var y := x.right;
      LeftHandOver(x, y);
      ghost var m3 := mem;
      HandOverLinks(true, m, x, y, nil);
      hide HandOver;
      Relink(x, y);
      ghost var m4 := mem;
      SetLeft(y, x);
      ghost var m5 := mem;
      SetParent(x, y);
      RotatedInSteps(true, m, r, c, t, nil, m3, m4, m5, mem, root);
    }

    /** `_coset_rightrot`, first half: the inner grandchild changes sides. */
    method RightHandOver(y: Node<T>, x: Node<T>)
      requires Synced() && y in mem && x in mem && mem[y].left == x && mem[x].right in mem
      modifies this`mem, mem.Keys
      ensures Synced() && mem.Keys == old(mem.Keys) && root == old(root)
      ensures mem == HandOver(false, old(mem), y, x, nil)
    {
      hide Synced, HandOver;
      ghost var m := mem;
      Look(x);
      SetLeft(y, x.right);
      ghost var m1 := mem;
      Look(x);
      if x.right != nil {
        SetParent(x.right, y);
      }
      ghost var m2 := mem;
      Look(y);
      SetParent(x, y.parent);
      HandOverInSteps(false, m, y, x, nil, m1, m2, mem);
    }

    /** `_coset_rightrot` */
    method RightRot(y: Node<T>, ghost c: Ctx<Node<T>, T>, ghost t: Tree<Node<T>, T>)
      requires Synced() && At(mem, root, c, t, nil) && t.Br? && t.node == y && t.left.Br?
      modifies this`mem, this`root, mem.Keys
      ensures Synced() && mem.Keys == old(mem.Keys) && At(mem, root, c, Rotated(false, t), nil)
      ensures nil in mem && nil in old(mem) && mem[nil] == old(mem)[nil]
    {
      LinksAt(false, mem, root, c, t, nil);
      hide At, Rotated, Synced, Redirect;
      ghost var m, r := mem, root;
      Look(y);
      var x := y.left;
      RightHandOver(y, x);
      ghost var m3 := mem;
      HandOverLinks(false, m, y, x, nil);
      hide HandOver;
      Relink(y, x);
      ghost var m4 := mem;
      SetRight(x, y);
      ghost var m5 := mem;
      SetParent(y, x);
      RotatedInSteps(false, m, r, c, t, nil, m3, m4, m5, mem, root);
    }

    // ---- insertion ---------------------------------------------------------------

    /** Parent and grandparent of the node in focus. */
    lemma TwoUp(curr: Node<T>, c: NCtx<T>, t: NTree<T>)
      requires Synced() && At(mem, root, c, t, nil) && t.Br? && curr == t.node && !c.Top? && !c.up.Top?
      ensures curr in mem && c.node in mem && c.up.node in mem && curr.parent == c.node && c.node.parent == c.up.node
      ensures mem[curr].parent == c.node && mem[c.node].parent == c.up.node
    {
      LookHere(mem, root, c, t, nil);
      LookUp(mem, root, c, t, nil);
      Look(curr);
      Look(c.node);
      Up(mem, root, c, t, nil);
      LookUp(mem, root, c.up, Parent(c, t, c.black), nil);
    }

    /** Case 2 of `_coset_insert_fixedup` under a left parent: the node is a right child. */
    method InsertInnerLeft(curr: Node<T>, ghost c: NCtx<T>, ghost t: NTree<T>) returns (next: Node<T>)
      requires Synced() && At(mem, root, c, t, nil) && t.Br? && curr == t.node && c.InRight?
      modifies this`mem, this`root, mem.Keys
      ensures Synced() && mem.Keys == old(mem.Keys) && next == c.node
      ensures At(mem, root, c.up, Rotated(true, Parent(c, t, c.black)), nil)
    {
      LookHere(mem, root, c, t, nil);
      LookUp(mem, root, c, t, nil);
      Up(mem, root, c, t, nil);
      Look(curr);
      hide At, Synced, Rotated;
      next := curr.parent;
      LeftRot(next, c.up, Parent(c, t, c.black));
    }

    /** Case 3 of `_coset_insert_fixedup` under a left parent: the node is a left child. */
    method InsertOuterLeft(curr: Node<T>, ghost c: NCtx<T>, ghost t: NTree<T>)
      requires Synced() && At(mem, root, c, t, nil) && t.Br? && curr == t.node && c.InLeft? && c.up.InLeft?
      modifies this`mem, this`root, mem.Keys
      ensures Synced() && mem.Keys == old(mem.Keys)
      ensures At(mem, root, c.up.up, Rotated(false, Parent(c.up, Parent(c, t, true), false)), nil)
    {
      TwoUp(curr, c, t);
      OuterPaintAt(mem, root, c, t, nil);
      hide At, Synced, Rotated;
      SetBlack(curr.parent, true);
      Look(curr);
      Look(curr.parent);
      SetBlack(curr.parent.parent, false);
      Look(curr);
      Look(curr.parent);
      RightRot(curr.parent.parent, c.up.up, Parent(c.up, Parent(c, t, true), false));
    }

    /** Case 2 of `_coset_insert_fixedup` under a right parent: the node is a left child. */
    method InsertInnerRight(curr: Node<T>, ghost c: NCtx<T>, ghost t: NTree<T>) returns (next: Node<T>)
      requires Synced() && At(mem, root, c, t, nil) && t.Br? && curr == t.node && c.InLeft?
      modifies this`mem, this`root, mem.Keys
      ensures Synced() && mem.Keys == old(mem.Keys) && next == c.node
      ensures At(mem, root, c.up, Rotated(false, Parent(c, t, c.black)), nil)
    {
      LookHere(mem, root, c, t, nil);
      LookUp(mem, root, c, t, nil);
      Up(mem, root, c, t, nil);
      Look(curr);
      hide At, Synced, Rotated;
      next := curr.parent;
      RightRot(next, c.up, Parent(c, t, c.black));
    }

    /** Case 3 of `_coset_insert_fixedup` under a right parent: the node is a right child. */
    method InsertOuterRight(curr: Node<T>, ghost c: NCtx<T>, ghost t: NTree<T>)
      requires Synced() && At(mem, root, c, t, nil) && t.Br? && curr == t.node && c.InRight? && c.up.InRight?
      modifies this`mem, this`root, mem.Keys
      ensures Synced() && mem.Keys == old(mem.Keys)
      ensures At(mem, root, c.up.up, Rotated(true, Parent(c.up, Parent(c, t, true), false)), nil)
    {
      TwoUp(curr, c, t);
      OuterPaintAt(mem, root, c, t, nil);
      hide At, Synced, Rotated;
      SetBlack(curr.parent, true);
      Look(curr);
      Look(curr.parent);
      SetBlack(curr.parent.parent, false);
      Look(curr);
      Look(curr.parent);
      LeftRot(curr.parent.parent, c.up.up, Parent(c.up, Parent(c, t, true), false));
    }

    lemma LookUncle(c: NCtx<T>, t: NTree<T>)
      requires Synced() && At(mem, root, c, t, nil) && !c.Top? && !c.up.Top?
      ensures c.up.node in mem && RootOf(Sibling(c.up), nil) in mem
      ensures (if c.up.InLeft? then c.up.node.right else c.up.node.left) == RootOf(Sibling(c.up), nil)
      ensures RootOf(Sibling(c.up), nil).black == IsBlack(Sibling(c.up))
    {
      Up(mem, root, c, t, nil);
      LookUp(mem, root, c.up, Parent(c, t, c.black), nil);
      Look(c.up.node);
      Look(RootOf(Sibling(c.up), nil));
    }

    /** Case 1 of `_coset_insert_fixedup`: parent and uncle are red. */
    method InsertRecolour(curr: Node<T>, uncle: Node<T>, ghost c: NCtx<T>, ghost t: NTree<T>) returns (next: Node<T>)
      requires Synced() && At(mem, root, c, t, nil) && t.Br? && curr == t.node && !c.Top? && !c.up.Top?
      requires Sibling(c.up).Br? && uncle == Sibling(c.up).node
      modifies this`mem, mem.Keys`black
      ensures Synced() && mem.Keys == old(mem.Keys) && Recoloured(c, t).Br? && next == Recoloured(c, t).node
      ensures At(mem, root, c.up.up, Recoloured(c, t), nil)
    {
      hide At, Synced, Recoloured;
      TwoUp(curr, c, t);
      LookUncle(c, t);
      RecolourAt(mem, root, c, t, nil);
      var parent, grandparent := curr.parent, curr.parent.parent;
      RecolouredNode(c, t);
      SetBlack(parent, true);
      SetBlack(uncle, true);
      SetBlack(grandparent, false);
      return grandparent;
    }

    lemma RecolouredNode(c: NCtx<T>, t: NTree<T>)
      requires !c.Top? && !c.up.Top? && Sibling(c.up).Br?
      ensures Recoloured(c, t).Br? && Recoloured(c, t).node == c.up.node
    {
    }

    /** One round of `_coset_insert_fixedup` under a left parent. */
    method InsertStepLeft(curr: Node<T>, ghost c: NCtx<T>, ghost t: NTree<T>)
      returns (next: Node<T>, ghost c': NCtx<T>, ghost t': NTree<T>)
      requires Synced() && At(mem, root, c, t, nil) && Inserting(c, t) && curr == t.node
      requires !c.Top? && !c.black && c.up.InLeft?
      modifies this`mem, this`root, mem.Keys
      ensures Synced() && mem.Keys == old(mem.Keys) && At(mem, root, c', t', nil)
      ensures Inserting(c', t') && next == t'.node && RowAt(c', t') == RowAt(c, t)
      ensures c'.Top? || c'.black || Depth(c') < Depth(c)
    {
      hide At, Synced, RowAt, Inserting, Good, GoodCtx, Recoloured;
      GrandparentIsBlack(c, t);
      InsertingHasNode(c, t);
      TwoUp(curr, c, t);
      LookUncle(c, t);
      var uncle := curr.parent.parent.right;
      if !uncle.black {
        RecolourKeeps(c, t);
        next := InsertRecolour(curr, uncle, c, t);
        return next, c.up.up, Recoloured(c, t);
      }
      next, c', t' := curr, c, t;
      if curr == curr.parent.right {
        InnerIsThereLeft(curr, c, t);
        InnerRotationKeeps(c, t);
        next := InsertInnerLeft(curr, c, t);
        c', t' := InnerCtx(c, t), InnerTree(c, t);
        Refocus(mem, root, c', t', nil, t.black);
      } else {
        OuterIsThereLeft(curr, c, t);
      }
      OuterRotationKeeps(c', t');
      InsertOuterLeft(next, c', t');
      Refocus(mem, root, OuterCtx(c'), t', nil, true);
      c' := OuterCtx(c');
    }

    lemma InnerIsThereLeft(curr: Node<T>, c: NCtx<T>, t: NTree<T>)
      requires Synced() && At(mem, root, c, t, nil) && t.Br? && curr == t.node && !c.Top? && curr == curr.parent.right
      ensures c.InRight?
    {
      LookHere(mem, root, c, t, nil);
      LookUp(mem, root, c, t, nil);
      Look(curr);
    }

    lemma OuterIsThereLeft(curr: Node<T>, c: NCtx<T>, t: NTree<T>)
      requires Synced() && At(mem, root, c, t, nil) && t.Br? && curr == t.node && !c.Top? && curr != curr.parent.right
      ensures c.InLeft?
    {
      LookHere(mem, root, c, t, nil);
      LookUp(mem, root, c, t, nil);
      Look(curr);
    }

    /** One round of `_coset_insert_fixedup` under a right parent. */
    method InsertStepRight(curr: Node<T>, ghost c: NCtx<T>, ghost t: NTree<T>)
      returns (next: Node<T>, ghost c': NCtx<T>, ghost t': NTree<T>)
      requires Synced() && At(mem, root, c, t, nil) && Inserting(c, t) && curr == t.node
      requires !c.Top? && !c.black && c.up.InRight?
      modifies this`mem, this`root, mem.Keys
      ensures Synced() && mem.Keys == old(mem.Keys) && At(mem, root, c', t', nil)
      ensures Inserting(c', t') && next == t'.node && RowAt(c', t') == RowAt(c, t)
      ensures c'.Top? || c'.black || Depth(c') < Depth(c)
    {
      hide At, Synced, RowAt, Inserting, Good, GoodCtx, Recoloured;
      GrandparentIsBlack(c, t);
      InsertingHasNode(c, t);
      TwoUp(curr, c, t);
      LookUncle(c, t);
      var uncle := curr.parent.parent.left;
      if !uncle.black {
        RecolourKeeps(c, t);
        next := InsertRecolour(curr, uncle, c, t);
        return next, c.up.up, Recoloured(c, t);
      }
      next, c', t' := curr, c, t;
      if curr == curr.parent.left {
        InnerIsThereRight(curr, c, t);
        InnerRotationKeeps(c, t);
        next := InsertInnerRight(curr, c, t);
        c', t' := InnerCtx(c, t), InnerTree(c, t);
        Refocus(mem, root, c', t', nil, t.black);
      } else {
        OuterIsThereRight(curr, c, t);
      }
      OuterRotationKeeps(c', t');
      InsertOuterRight(next, c', t');
      Refocus(mem, root, OuterCtx(c'), t', nil, true);
      c' := OuterCtx(c');
    }

    lemma InnerIsThereRight(curr: Node<T>, c: NCtx<T>, t: NTree<T>)
      requires Synced() && At(mem, root, c, t, nil) && t.Br? && curr == t.node && !c.Top? && curr == curr.parent.left
      ensures c.InLeft?
    {
      LookHere(mem, root, c, t, nil);
      LookUp(mem, root, c, t, nil);
      Look(curr);
    }

    lemma OuterIsThereRight(curr: Node<T>, c: NCtx<T>, t: NTree<T>)
      requires Synced() && At(mem, root, c, t, nil) && t.Br? && curr == t.node && !c.Top? && curr != curr.parent.left
      ensures c.InRight?
    {
      LookHere(mem, root, c, t, nil);
      LookUp(mem, root, c, t, nil);
      Look(curr);
    }

    /** Which half of the loop body applies. */
    lemma SideOfParent(curr: Node<T>, c: NCtx<T>, t: NTree<T>)
      requires Synced() && At(mem, root, c, t, nil) && t.Br? && curr == t.node && !c.Top? && !c.up.Top?
      ensures curr in mem && curr.parent in mem && curr.parent.parent in mem
      ensures curr.parent == curr.parent.parent.left <==> c.up.InLeft?
    {
      TwoUp(curr, c, t);
      Up(mem, root, c, t, nil);
      LookUp(mem, root, c.up, Parent(c, t, c.black), nil);
      Look(c.up.node);
    }

    lemma ColourOfParent(curr: Node<T>, c: NCtx<T>, t: NTree<T>)
      requires Synced() && At(mem, root, c, t, nil) && t.Br? && curr == t.node
      ensures curr in mem && curr.parent in mem && curr.parent.black == (c.Top? || c.black)
    {
      LookHere(mem, root, c, t, nil);
      Look(curr);
      if !c.Top? { LookUp(mem, root, c, t, nil); }
      Look(curr.parent);
    }

    /** `_coset_insert_fixedup` */
    method InsertFixup(node: Node<T>, ghost c0: NCtx<T>, ghost t0: NTree<T>) returns (ghost whole: NTree<T>)
      requires Synced() && At(mem, root, c0, t0, nil) && Inserting(c0, t0) && node == t0.node
      modifies this`mem, this`root, mem.Keys
      ensures Synced() && mem.Keys == old(mem.Keys) && At(mem, root, Top, whole, nil)
      ensures Good(whole) && IsBlack(whole) && Row(whole) == RowAt(c0, t0)
    {
      hide At, Synced, Inserting, RowAt, Good;
      var curr := node;
      ghost var c, t := c0, t0;
      InsertingHasNode(c, t);
      ColourOfParent(curr, c, t);
      while !curr.parent.black
        invariant Synced() && mem.Keys == old(mem.Keys) && At(mem, root, c, t, nil)
        invariant Inserting(c, t) && t.Br? && curr == t.node && RowAt(c, t) == RowAt(c0, t0)
        invariant curr in mem && curr.parent in mem && curr.parent.black == (c.Top? || c.black)
        decreases if c.Top? || c.black then 0 else Depth(c) + 1
      {
        GrandparentIsBlack(c, t);
        InsertingHasNode(c, t);
        SideOfParent(curr, c, t);
        if curr.parent == curr.parent.parent.left {
          curr, c, t := InsertStepLeft(curr, c, t);
        } else {
          curr, c, t := InsertStepRight(curr, c, t);
        }
        InsertingHasNode(c, t);
        ColourOfParent(curr, c, t);
      }
      InsertEnds(c, t);
      UpToTop(mem, root, c, t, nil);
      LookHere(mem, root, Top, Plug(c, t), nil);
      PlugHasNode(c, t);
      PaintAt(mem, root, Top, Plug(c, t), nil, true);
      SetBlack(root, true);
      whole := Blacken(Plug(c, t));
    }

    lemma InsertingHasNode(c: NCtx<T>, t: NTree<T>)
      requires Inserting(c, t)
      ensures t.Br? && !t.black
    {
    }

    lemma {:induction false} PlugHasNode(c: NCtx<T>, t: NTree<T>)
      requires t.Br?
      ensures Plug(c, t).Br?
      decreases c
    {
      if !c.Top? { PlugHasNode(c.up, Parent(c, t, c.black)); }
    }

    // ---- searching ---------------------------------------------------------------

    /** `x` belongs into the hole of `c`. */
    ghost predicate Brackets(c: NCtx<T>, x: T) {
      Between(compare, Data(Before(c)), x, Data(Behind(c)))
    }

    /** The decision taken at a node narrows the search to one of its subtrees. */
    lemma Narrow(left: bool, c: NCtx<T>, t: NTree<T>, x: T)
      requires TotalOrder(compare) && Sorted(compare, Data(RowAt(c, t))) && t.Br? && Brackets(c, x)
      requires if left then compare(x, t.data) < 0 else compare(x, t.data) > 0
      ensures Brackets(Hang(left, c, t.black, t.node, t.data, Far(left, t)), x)
      ensures Plug(Hang(left, c, t.black, t.node, t.data, Far(left, t)), Near(left, t)) == Plug(c, t)
    {
      hide TotalOrder, Sorted, Between;
      var a, l, r, b := Data(Before(c)), Data(Row(t.left)), Data(Row(t.right)), Data(Behind(c));
      SplitRow(c, t);
      if left {
        NarrowBefore(compare, a, l, t.data, r, b, x);
        DataAround([], t.node, t.data, Row(t.right));
        DataConcat([(t.node, t.data)] + Row(t.right), Behind(c));
        assert [] + [t.data] + r == [t.data] + r && [] + [(t.node, t.data)] + Row(t.right) == [(t.node,
          t.data)] + Row(t.right);
      } else {
        NarrowBehind(compare, a, l, t.data, r, b, x);
        DataConcat(Before(c), Row(t.left));
        DataConcat(Before(c) + Row(t.left), [(t.node, t.data)]);
        assert Data([(t.node, t.data)]) == [t.data];
      }
    }

    lemma SplitRow(c: NCtx<T>, t: NTree<T>)
      requires t.Br?
      ensures Data(RowAt(c, t))
              == (Data(Before(c)) + Data(Row(t.left))) + ([t.data] + Data(Row(t.right)) + Data(Behind(c)))
    {
      DataConcat(Before(c) + Row(t), Behind(c));
      DataConcat(Before(c), Row(t));
      DataAround(Row(t.left), t.node, t.data, Row(t.right));
      Regroup(Data(Before(c)), Data(Row(t.left)), [t.data], Data(Row(t.right)), Data(Behind(c)));
    }

    lemma Regroup(a: seq<T>, l: seq<T>, d: seq<T>, r: seq<T>, b: seq<T>)
      ensures a + (l + d + r) + b == (a + l) + (d + r + b)
    {
    }

    /** `_coset_search`, with the number of comparisons it makes. */
    method Search(x: T) returns (curr: Node<T>, ghost comparisons: nat, ghost c: NCtx<T>, ghost t: NTree<T>)
      requires Valid()
      ensures curr != nil <==> Has(compare, Items(), x)
      ensures Plug(c, t) == tree && curr == RootOf(t, nil) && (t.Br? ==> compare(x, t.data) == 0)
      ensures At(mem, root, c, t, nil) && GoodCtx(c, BH(t), IsBlack(t)) && Good(t) && RowAt(c, t) == Row(tree)
      ensures Pow2(comparisons) <= (size + 1) * (size + 1)
    {
      hide At, Synced, Good, IsBlack, TotalOrder, Sorted, RowAt, Pow2, Has;
      curr := root;
      comparisons, c, t := 0, Top, tree;
      LookHere(mem, root, c, t, nil);
      while curr != nil
        invariant At(mem, root, c, t, nil) && curr == RootOf(t, nil) && Plug(c, t) == tree && Brackets(c, x)
        invariant (t.Br? <==> curr != nil) && comparisons + Height(t) <= Height(tree)
        decreases t
      {
        PlugRow(c, t);
        LookHere(mem, root, c, t, nil);
        Look(curr);
        var ret := compare(x, curr.data);
        comparisons := comparisons + 1;
        if ret == 0 {
          break;
        }
        ghost var left := ret < 0;
        Narrow(left, c, t, x);
        Down(left, mem, root, c, t, nil);
        if ret < 0 { curr := curr.left; } else { curr := curr.right; }
        c, t := Hang(left, c, t.black, t.node, t.data, Far(left, t)), Near(left, t);
        LookHere(mem, root, c, t, nil);
      }
      PlugRow(c, t);
      GoodParts(c, t);
      HeightIsLogarithmic(tree, comparisons);
      SearchDecides(c, t, x);
    }

    lemma SearchDecides(c: NCtx<T>, t: NTree<T>, x: T)
      requires Brackets(c, x) && (t.Br? ==> compare(x, t.data) == 0)
      ensures t.Br? <==> Has(compare, Data(RowAt(c, t)), x)
    {
      var s := Data(RowAt(c, t));
      if t.Br? {
        SplitRow(c, t);
        var i := |Data(Before(c))| + |Data(Row(t.left))|;
        assert s[i] == t.data;
      } else {
        DataConcat(Before(c) + Row(t), Behind(c));
        DataConcat(Before(c), Row(t));
      }
    }

    // ---- adding ------------------------------------------------------------------

    /** The descent of `coset_add`: where the element is to be hooked in. */
    method FindPlace(x: T) returns (found: bool, parent: Node<T>, ret: int, ghost c: NCtx<T>)
      requires Valid()
      ensures found <==> Has(compare, Items(), x)
      ensures !found ==> At(mem, root, c, Leaf, nil) && GoodCtx(c, 0, true) && Brackets(c, x)
      ensures !found ==> Row(tree) == Before(c) + Behind(c)
      ensures !found ==> parent == ParentOf(c, nil) && (!c.Top? ==> (ret < 0 <==> c.InLeft?))
    {
      assert Brackets(Top, x);
      hide At, Synced, Good, IsBlack, TotalOrder, Sorted, Has, Brackets, RowAt;
      parent := nil;
      var curr := root;
      ret := 0;
      c := Top;
      ghost var t := tree;
      LookHere(mem, root, c, t, nil);
      while curr != nil
        invariant At(mem, root, c, t, nil) && curr == RootOf(t, nil) && Plug(c, t) == tree && Brackets(c, x)
        invariant (t.Br? <==> curr != nil) && parent == ParentOf(c, nil) && (!c.Top? ==> (ret < 0 <==> c.InLeft?))
        decreases t
      {
        PlugRow(c, t);
        LookHere(mem, root, c, t, nil);
        Look(curr);
        parent := curr;
        ret := compare(x, curr.data);
        if ret == 0 {
          SearchDecides(c, t, x);
          return true, parent, ret, c;
        }
        ghost var left := ret < 0;
        Narrow(left, c, t, x);
        Down(left, mem, root, c, t, nil);
        if ret < 0 { curr := curr.left; } else { curr := curr.right; }
        c, t := Hang(left, c, t.black, t.node, t.data, Far(left, t)), Near(left, t);
        LookHere(mem, root, c, t, nil);
      }
      PlugRow(c, t);
      GoodParts(c, t);
      SearchDecides(c, t, x);
      LeafIsGood(c);
      return false, parent, ret, c;
    }

    lemma LeafIsGood(c: NCtx<T>)
      ensures IsBlack<Node<T>, T>(Leaf) && BH<Node<T>, T>(Leaf) == 0 && RowAt(c, Leaf) == Before(c) + Behind(c)
    {
    }

    /** A red node whose links are set, not yet hooked in. */
    method NewNode(x: T, parent: Node<T>) returns (node: Node<T>)
      requires Synced()
      modifies this`mem
      ensures fresh(node) && Synced() && mem == old(mem)[node := Cell(parent, nil, nil, false, x)]
      ensures mem.Keys == old(mem.Keys) + {node} && node !in old(mem)
    {
      node := new Node(x);
      node.parent := parent;
      node.left := nil;
      node.right := nil;
      node.black := false;
      mem := mem[node := Cell(parent, nil, nil, false, x)];
    }

    /** A new red node below `parent`. */
    method Hook(x: T, parent: Node<T>, ret: int, ghost c: NCtx<T>) returns (node: Node<T>)
      requires Synced() && At(mem, root, c, Leaf, nil)
      requires parent == ParentOf(c, nil) && (!c.Top? ==> (ret < 0 <==> c.InLeft?))
      modifies this`mem, this`root, this`size, mem.Keys
      ensures fresh(node) && Synced() && mem.Keys == old(mem.Keys) + {node} && size == old(size) + 1
      ensures At(mem, root, c, Br(false, Leaf, node, x, Leaf), nil)
    {
      hide At, Synced;
      if !c.Top? { LookUp(mem, root, c, Leaf, nil); }
      ghost var m, r := mem, root;
      NilInMemory(c);
      node := NewNode(x, parent);
      ghost var m1 := mem;
      size := size + 1;
      if parent == nil {
        root := node;
      } else if ret < 0 {
        SetLeft(parent, node);
      } else {
        SetRight(parent, node);
      }
      HookedInSteps(m, r, c, node, x, nil, m1, mem, root);
    }

    lemma NilInMemory(c: NCtx<T>)
      requires At(mem, root, c, Leaf, nil)
      ensures nil in mem
    {
    }

    /** `coset_add`; the new element goes to place `k` of the row. */
    method Add(x: T) returns (ghost k: nat)
      requires Valid()
      modifies this`mem, this`root, this`size, this`tree, mem.Keys
      ensures Valid() && fresh(mem.Keys - old(mem.Keys)) && old(mem.Keys) <= mem.Keys
      ensures old(Has(compare, Items(), x)) ==>
                Items() == old(Items()) && size == old(size) && tree == old(tree) && mem == old(mem)
      ensures !old(Has(compare, Items(), x)) ==>
                k <= |old(Items())| && Items() == old(Items())[..k] + [x] + old(Items())[k..] && size == old(size) + 1
      ensures !old(Has(compare, Items(), x)) ==>
                k < |Row(tree)| && Row(tree)[k].0 !in old(mem)
                && Row(tree) == old(Row(tree))[..k] + [(Row(tree)[k].0, x)] + old(Row(tree))[k..]
      ensures forall y :: Has(compare, Items(), y) <==> old(Has(compare, Items(), y)) || compare(y, x) == 0
    {
      hide At, Synced, Good, IsBlack, TotalOrder, Sorted, Between, RowAt;
      var found, parent, ret;
      ghost var c;
      found, parent, ret, c := FindPlace(x);
      k := 0;
      if found {
        PresentCovers(x);
        return;
      }
      var node := Hook(x, parent, ret, c);
      ghost var leaf := Br(false, Leaf, node, x, Leaf);
      InsertStarts(c, leaf);
      tree := InsertFixup(node, c, leaf);
      ghost var a, b := Data(Before(c)), Data(Behind(c));
      k := |a|;
      DataConcat(Before(c), Behind(c));
      InsertInPlace(compare, a, x, b);
      RowOfLeaf(c, node, x);
    }

    lemma RowOfLeaf(c: NCtx<T>, n: Node<T>, x: T)
      ensures RowAt(c, Br(false, Leaf, n, x, Leaf)) == Before(c) + [(n, x)] + Behind(c)
      ensures Data(RowAt(c, Br(false, Leaf, n, x, Leaf))) == Data(Before(c)) + [x] + Data(Behind(c))
    {
      assert Row(Br(false, Leaf, n, x, Leaf)) == [(n, x)];
      DataAround(Before(c), n, x, Behind(c));
    }

    lemma PresentCovers(x: T)
      requires TotalOrder(compare) && Has(compare, Items(), x)
      ensures forall y :: compare(y, x) == 0 ==> Has(compare, Items(), y)
    {
      var i :| 0 <= i < |Items()| && compare(x, Items()[i]) == 0;
      forall y | compare(y, x) == 0 ensures Has(compare, Items(), y) {
        assert compare(x, y) == 0;
        Same(compare, y, Items()[i], x);
      }
    }

    // ---- deleting ----------------------------------------------------------------

    /** The loop state of `_coset_delete_fixedup`.  The cursor may be the
        sentinel, whose parent link has been set for the occasion. */
    ghost predicate Short(curr: Node<T>, c: NCtx<T>, t: NTree<T>)
      reads this`mem, this`root, mem.Keys
    {
      && Synced() && At(mem, root, c, t, nil) && Deleting(c, t)
      && curr == RootOf(t, nil) && nil in mem && curr in mem && mem[curr].parent == ParentOf(c, nil)
    }

    /** What the loop body sees from the cursor; that the sibling is a real node
        makes `curr == curr->parent->left` mean what it should even at the sentinel. */
    lemma LookAround(curr: Node<T>, c: NCtx<T>, t: NTree<T>)
      requires Short(curr, c, t) && !c.Top?
      ensures Sibling(c).Br? && curr.parent == c.node && c.node in mem && c.node.black == c.black
      ensures c.node != nil && Sibling(c).node != nil && curr.parent in mem
      ensures c.InLeft? <==> curr == curr.parent.left
      ensures Sibling(c).node in mem && Sibling(c).node == (if c.InLeft? then c.node.right else c.node.left)
      ensures var s := Sibling(c);
              && s.node.black == s.black && RootOf(s.left, nil) in mem && RootOf(s.right, nil) in mem
              && s.node.left == RootOf(s.left, nil) && s.node.right == RootOf(s.right, nil)
              && s.node.left.black == IsBlack(s.left) && s.node.right.black == IsBlack(s.right)
    {
      hide Deleting;
      SiblingIsThere(c, t);
      LookUp(mem, root, c, t, nil);
      LookAside(mem, root, c, t, nil);
      var s := Sibling(c);
      Look(curr);
      Look(c.node);
      Look(s.node);
      Look(RootOf(s.left, nil));
      Look(RootOf(s.right, nil));
    }

    lemma ShortAgain(curr: Node<T>, c: NCtx<T>, t: NTree<T>, before: Mem<Node<T>, T>)
      requires Synced() && At(mem, root, c, t, nil) && Deleting(c, t) && curr == RootOf(t, nil)
      requires nil in before && curr in before && nil in mem && (t.Leaf? ==> !c.Top? && before[curr].parent == c.node)
      requires mem[nil].parent == before[nil].parent
      ensures Short(curr, c, t)
    {
      LookHere(mem, root, c, t, nil);
    }

    /** The sibling on the right is red: rotate it up. */
    method DeleteRedSiblingLeft(curr: Node<T>, sibling: Node<T>, ghost c: NCtx<T>, ghost t: NTree<T>)
      requires Short(curr, c, t) && c.InLeft? && IsBlack(t) && Sibling(c).Br? && sibling == Sibling(c).node
               && !sibling.black
      modifies this`mem, this`root, mem.Keys
      ensures mem.Keys == old(mem.Keys) && Short(curr, RedSiblingCtx(c), t) && RowAt(RedSiblingCtx(c), t) == RowAt(c, t)
      ensures Sibling(RedSiblingCtx(c)).Br? && Sibling(RedSiblingCtx(c)).black && !RedSiblingCtx(c).black
    {
      LookAround(curr, c, t);
      RedSiblingKeeps(c, t);
      RedSiblingPaintAt(mem, root, c, t, nil);
      LookHere(mem, root, c, t, nil);
      hide At, Synced, Deleting, RowAt, Rotated;
      ghost var c' := RedSiblingCtx(c);
      SetBlack(sibling, true);
      Look(curr);
      SetBlack(curr.parent, false);
      Look(curr);
      LeftRot(curr.parent, c.up, Mk(true, false, t, c.node, c.data, Blacken(Sibling(c))));
      Refocus(mem, root, c'.up, Parent(c', t, false), nil, true);
      Refocus(mem, root, c', t, nil, false);
      LookHere(mem, root, c', t, nil);
      ShortAgain(curr, c', t, old(mem));
    }

    /** The right sibling is black, only its left child is red: rotate that up. */
    method DeleteInnerNephewLeft(curr: Node<T>, sibling: Node<T>, ghost c: NCtx<T>, ghost t: NTree<T>)
      requires Short(curr, c, t) && c.InLeft? && IsBlack(t) && Sibling(c).Br? && sibling == Sibling(c).node
               && Sibling(c).black
      requires IsBlack(Sibling(c).right) && !IsBlack(Sibling(c).left)
      modifies this`mem, this`root, mem.Keys
      ensures mem.Keys == old(mem.Keys) && Short(curr, InnerNephewCtx(c), t)
              && RowAt(InnerNephewCtx(c), t) == RowAt(c, t)
    {
      LookAround(curr, c, t);
      InnerNephewKeeps(c, t);
      InnerNephewPaintAt(mem, root, c, t, nil);
      LookHere(mem, root, c, t, nil);
      hide At, Synced, Deleting, RowAt, Rotated;
      ghost var c' := InnerNephewCtx(c);
      SetBlack(sibling.left, true);
      SetBlack(sibling, false);
      RightRot(sibling, Aside(c, t, c.black), RecolouredNephew(true, Sibling(c)));
      StepBack(mem, root, c, t, Sibling(c'), nil);
      LookHere(mem, root, c', t, nil);
      ShortAgain(curr, c', t, old(mem));
    }

    /** The right child of the black right sibling is red: the last rotation. */
    method DeleteOuterNephewLeft(curr: Node<T>, sibling: Node<T>, ghost c: NCtx<T>, ghost t: NTree<T>)
      requires Short(curr, c, t) && c.InLeft? && IsBlack(t) && Sibling(c).Br? && sibling == Sibling(c).node
               && Sibling(c).black
      requires !IsBlack(Sibling(c).right)
      modifies this`mem, this`root, mem.Keys
      ensures mem.Keys == old(mem.Keys) && Synced() && At(mem, root, c.up, OuterNephewTree(c, t), nil)
    {
      LookAround(curr, c, t);
      OuterNephewEnds(c, t);
      OuterNephewPaintAt(mem, root, c, t, nil);
      hide At, Synced, Deleting, Rotated;
      ghost var s := Sibling(c);
      Look(sibling);
      Look(curr);
      SetBlack(sibling, curr.parent.black);
      Look(curr);
      SetBlack(curr.parent, true);
      Look(sibling);
      SetBlack(sibling.right, true);
      Look(curr);
      LeftRot(curr.parent, c.up, Mk(true, true, t, c.node, c.data, Mk(true, c.black, s.left, s.node, s.data,
        Blacken(s.right))));
    }

    /** The sibling on the left is red: rotate it up. */
    method DeleteRedSiblingRight(curr: Node<T>, sibling: Node<T>, ghost c: NCtx<T>, ghost t: NTree<T>)
      requires Short(curr, c, t) && c.InRight? && IsBlack(t) && Sibling(c).Br? && sibling == Sibling(c).node
               && !sibling.black
      modifies this`mem, this`root, mem.Keys
      ensures mem.Keys == old(mem.Keys) && Short(curr, RedSiblingCtx(c), t) && RowAt(RedSiblingCtx(c), t) == RowAt(c, t)
      ensures Sibling(RedSiblingCtx(c)).Br? && Sibling(RedSiblingCtx(c)).black && !RedSiblingCtx(c).black
    {
      LookAround(curr, c, t);
      RedSiblingKeeps(c, t);
      RedSiblingPaintAt(mem, root, c, t, nil);
      LookHere(mem, root, c, t, nil);
      hide At, Synced, Deleting, RowAt, Rotated;
      ghost var c' := RedSiblingCtx(c);
      SetBlack(sibling, true);
      Look(curr);
      SetBlack(curr.parent, false);
      Look(curr);
      RightRot(curr.parent, c.up, Mk(false, false, t, c.node, c.data, Blacken(Sibling(c))));
      Refocus(mem, root, c'.up, Parent(c', t, false), nil, true);
      Refocus(mem, root, c', t, nil, false);
      LookHere(mem, root, c', t, nil);
      ShortAgain(curr, c', t, old(mem));
    }

    /** The left sibling is black, only its right child is red: rotate that up. */
    method DeleteInnerNephewRight(curr: Node<T>, sibling: Node<T>, ghost c: NCtx<T>, ghost t: NTree<T>)
      requires Short(curr, c, t) && c.InRight? && IsBlack(t) && Sibling(c).Br? && sibling == Sibling(c).node
               && Sibling(c).black
      requires IsBlack(Sibling(c).left) && !IsBlack(Sibling(c).right)
      modifies this`mem, this`root, mem.Keys
      ensures mem.Keys == old(mem.Keys) && Short(curr, InnerNephewCtx(c), t)
              && RowAt(InnerNephewCtx(c), t) == RowAt(c, t)
    {
      LookAround(curr, c, t);
      InnerNephewKeeps(c, t);
      InnerNephewPaintAt(mem, root, c, t, nil);
      LookHere(mem, root, c, t, nil);
      hide At, Synced, Deleting, RowAt, Rotated;
      ghost var c' := InnerNephewCtx(c);
      SetBlack(sibling.right, true);
      SetBlack(sibling, false);
      LeftRot(sibling, Aside(c, t, c.black), RecolouredNephew(false, Sibling(c)));
      StepBack(mem, root, c, t, Sibling(c'), nil);
      LookHere(mem, root, c', t, nil);
      ShortAgain(curr, c', t, old(mem));
    }

    /** The left child of the black left sibling is red: the last rotation. */
    method DeleteOuterNephewRight(curr: Node<T>, sibling: Node<T>, ghost c: NCtx<T>, ghost t: NTree<T>)
      requires Short(curr, c, t) && c.InRight? && IsBlack(t) && Sibling(c).Br? && sibling == Sibling(c).node
               && Sibling(c).black
      requires !IsBlack(Sibling(c).left)
      modifies this`mem, this`root, mem.Keys
      ensures mem.Keys == old(mem.Keys) && Synced() && At(mem, root, c.up, OuterNephewTree(c, t), nil)
    {
      LookAround(curr, c, t);
      OuterNephewEnds(c, t);
      OuterNephewPaintAt(mem, root, c, t, nil);
      hide At, Synced, Deleting, Rotated;
      ghost var s := Sibling(c);
      Look(sibling);
      Look(curr);
      SetBlack(sibling, curr.parent.black);
      Look(curr);
      SetBlack(curr.parent, true);
      Look(sibling);
      SetBlack(sibling.left, true);
      Look(curr);
      RightRot(curr.parent, c.up, Mk(false, true, t, c.node, c.data, Mk(false, c.black, s.right, s.node, s.data,
        Blacken(s.left))));
    }

    lemma ShortMeans(curr: Node<T>, c: NCtx<T>, t: NTree<T>)
      requires Short(curr, c, t)
      ensures Synced() && At(mem, root, c, t, nil) && Deleting(c, t) && curr == RootOf(t, nil)
    {
    }

    lemma InnerNephewShape(c: NCtx<T>, t: NTree<T>)
      requires Deleting(c, t) && IsBlack(t) && !c.Top? && Sibling(c).Br? && Sibling(c).black
      requires IsBlack(Far(c.InLeft?, Sibling(c))) && !IsBlack(Near(c.InLeft?, Sibling(c)))
      ensures var s := Sibling(InnerNephewCtx(c));
              s.Br? && s.black && !IsBlack(Far(c.InLeft?, s))
    {
    }

    /** After the last rotation the cursor is set to the root. */
    lemma ShortAtTop(c: NCtx<T>, t: NTree<T>)
      requires Synced() && At(mem, root, c, t, nil) && t.Br? && Deleting(Top, Plug(c, t))
      ensures Short(root, Top, Plug(c, t))
    {
      UpToTop(mem, root, c, t, nil);
      PlugHasNode(c, t);
      LookHere(mem, root, Top, Plug(c, t), nil);
    }

    /** Sibling and nephews are black: the sibling turns red. */
    method DeleteBlackNephews(curr: Node<T>, sibling: Node<T>, ghost c: NCtx<T>, ghost t: NTree<T>)
      returns (next: Node<T>)
      requires Short(curr, c, t) && !c.Top? && IsBlack(t) && Sibling(c).Br? && sibling == Sibling(c).node
               && Sibling(c).black
      requires IsBlack(Sibling(c).left) && IsBlack(Sibling(c).right)
      modifies this`mem, mem.Keys
      ensures var p := Mk(c.InLeft?, c.black, t, c.node, c.data, Sibling(c).(black := false));
              && mem.Keys == old(mem.Keys) && root == old(root) && next == c.node
              && Short(next, c.up, p) && RowAt(c.up, p) == RowAt(c, t)
    {
      LookAround(curr, c, t);
      BlackNephewsKeep(c, t);
      PaintSiblingAt(mem, root, c, t, nil, false);
      ghost var s := Sibling(c).(black := false);
      hide RowAt, Deleting;
      SetBlack(sibling, false);
      Look(curr);
      next := curr.parent;
      Up(mem, root, WithSibling(c, s), t, nil);
      LookHere(mem, root, c.up, Parent(WithSibling(c, s), t, c.black), nil);
    }

    /** One child of the black right sibling is red: the last one or two rotations. */
    method DeleteRedNephewLeft(curr: Node<T>, sibling0: Node<T>, ghost c0: NCtx<T>, ghost t: NTree<T>)
      returns (next: Node<T>, ghost t': NTree<T>)
      requires Short(curr, c0, t) && c0.InLeft? && IsBlack(t) && Sibling(c0).Br? && sibling0 == Sibling(c0).node
               && Sibling(c0).black
      requires !IsBlack(Sibling(c0).left) || !IsBlack(Sibling(c0).right)
      modifies this`mem, this`root, mem.Keys
      ensures mem.Keys == old(mem.Keys) && Short(next, Top, t') && RowAt(Top, t') == RowAt(c0, t)
      ensures t' == RedNephewTree(c0, t)
    {
      hide Short, RowAt, Good, GoodCtx;
      LookAround(curr, c0, t);
      ShortMeans(curr, c0, t);
      ghost var c := c0;
      var sibling := sibling0;
      if sibling.right.black {
        DeleteInnerNephewLeft(curr, sibling, c, t);
        InnerNephewShape(c, t);
        c := InnerNephewCtx(c);
        LookAround(curr, c, t);
        sibling := curr.parent.right;
      }
      ShortMeans(curr, c, t);
      DeleteOuterNephewLeft(curr, sibling, c, t);
      t' := Plug(c.up, OuterNephewTree(c, t));
      OuterNephewEnds(c, t);
      PlugRow(Top, t');
      next := root;
      ShortAtTop(c.up, OuterNephewTree(c, t));
    }

    /** One round of `_coset_delete_fixedup` at a left child. */
    method DeleteStepLeft(curr: Node<T>, ghost c0: NCtx<T>, ghost t: NTree<T>)
      returns (next: Node<T>, ghost c': NCtx<T>, ghost t': NTree<T>)
      requires Short(curr, c0, t) && c0.InLeft? && IsBlack(t)
      modifies this`mem, this`root, mem.Keys
      ensures mem.Keys == old(mem.Keys) && Short(next, c', t') && RowAt(c', t') == RowAt(c0, t)
      ensures c'.Top? || !IsBlack(t') || Depth(c') < Depth(c0)
      ensures (c', t') == RepairStep(c0, t)
    {
      hide Short, RowAt, RedNephewTree, Good, GoodCtx;
      ShortMeans(curr, c0, t);
      LookAround(curr, c0, t);
      ghost var c := c0;
      var sibling := curr.parent.right;
      if !sibling.black {
        DeleteRedSiblingLeft(curr, sibling, c, t);
        c := RedSiblingCtx(c);
        LookAround(curr, c, t);
        sibling := curr.parent.right;
      }
      LookAround(curr, c, t);
      if sibling.left.black && sibling.right.black {
        next := DeleteBlackNephews(curr, sibling, c, t);
        c', t' := c.up, Mk(true, c.black, t, c.node, c.data, Sibling(c).(black := false));
      } else {
        next, t' := DeleteRedNephewLeft(curr, sibling, c, t);
        c' := Top;
      }
    }

    /** One child of the black left sibling is red: the last one or two rotations. */
    method DeleteRedNephewRight(curr: Node<T>, sibling0: Node<T>, ghost c0: NCtx<T>, ghost t: NTree<T>)
      returns (next: Node<T>, ghost t': NTree<T>)
      requires Short(curr, c0, t) && c0.InRight? && IsBlack(t) && Sibling(c0).Br? && sibling0 == Sibling(c0).node
               && Sibling(c0).black
      requires !IsBlack(Sibling(c0).left) || !IsBlack(Sibling(c0).right)
      modifies this`mem, this`root, mem.Keys
      ensures mem.Keys == old(mem.Keys) && Short(next, Top, t') && RowAt(Top, t') == RowAt(c0, t)
      ensures t' == RedNephewTree(c0, t)
    {
      hide Short, RowAt, Good, GoodCtx;
      LookAround(curr, c0, t);
      ShortMeans(curr, c0, t);
      ghost var c := c0;
      var sibling := sibling0;
      if sibling.left.black {
        DeleteInnerNephewRight(curr, sibling, c, t);
        InnerNephewShape(c, t);
        c := InnerNephewCtx(c);
        LookAround(curr, c, t);
        sibling := curr.parent.left;
      }
      ShortMeans(curr, c, t);
      DeleteOuterNephewRight(curr, sibling, c, t);
      t' := Plug(c.up, OuterNephewTree(c, t));
      OuterNephewEnds(c, t);
      PlugRow(Top, t');
      next := root;
      ShortAtTop(c.up, OuterNephewTree(c, t));
    }

    /** One round of `_coset_delete_fixedup` at a right child. */
    method DeleteStepRight(curr: Node<T>, ghost c0: NCtx<T>, ghost t: NTree<T>)
      returns (next: Node<T>, ghost c': NCtx<T>, ghost t': NTree<T>)
      requires Short(curr, c0, t) && c0.InRight? && IsBlack(t)
      modifies this`mem, this`root, mem.Keys
      ensures mem.Keys == old(mem.Keys) && Short(next, c', t') && RowAt(c', t') == RowAt(c0, t)
      ensures c'.Top? || !IsBlack(t') || Depth(c') < Depth(c0)
      ensures (c', t') == RepairStep(c0, t)
    {
      hide Short, RowAt, RedNephewTree, Good, GoodCtx;
      ShortMeans(curr, c0, t);
      LookAround(curr, c0, t);
      ghost var c := c0;
      var sibling := curr.parent.left;
      if !sibling.black {
        DeleteRedSiblingRight(curr, sibling, c, t);
        c := RedSiblingCtx(c);
        LookAround(curr, c, t);
        sibling := curr.parent.left;
      }
      LookAround(curr, c, t);
      if sibling.left.black && sibling.right.black {
        next := DeleteBlackNephews(curr, sibling, c, t);
        c', t' := c.up, Mk(false, c.black, t, c.node, c.data, Sibling(c).(black := false));
      } else {
        next, t' := DeleteRedNephewRight(curr, sibling, c, t);
        c' := Top;
      }
    }

    /** One round of `_coset_delete_fixedup`. */
    method DeleteStep(curr: Node<T>, ghost c0: NCtx<T>, ghost t: NTree<T>)
      returns (next: Node<T>, ghost c': NCtx<T>, ghost t': NTree<T>)
      requires Short(curr, c0, t) && !c0.Top? && IsBlack(t)
      modifies this`mem, this`root, mem.Keys
      ensures mem.Keys == old(mem.Keys) && Short(next, c', t') && RowAt(c', t') == RowAt(c0, t)
      ensures c'.Top? || !IsBlack(t') || Depth(c') < Depth(c0)
      ensures (c', t') == RepairStep(c0, t)
    {
      LookAround(curr, c0, t);
      hide Short, RowAt, RepairStep;
      if curr == curr.parent.left {
        next, c', t' := DeleteStepLeft(curr, c0, t);
      } else {
        next, c', t' := DeleteStepRight(curr, c0, t);
      }
    }

    /** `_coset_delete_fixedup` */
    method DeleteFixup(child: Node<T>, ghost c0: NCtx<T>, ghost t0: NTree<T>) returns (ghost whole: NTree<T>)
      requires Short(child, c0, t0)
      modifies this`mem, this`root, mem.Keys
      ensures Synced() && mem.Keys == old(mem.Keys) && At(mem, root, Top, whole, nil)
      ensures Good(whole) && IsBlack(whole) && Row(whole) == RowAt(c0, t0) && whole == Repaired(c0, t0)
    {
      hide At, Synced, Deleting, RowAt, Good, Short, RepairStep;
      var curr := child;
      ghost var c, t := c0, t0;
      ShortMeans(curr, c, t);
      ShortLook(curr, c, t);
      while curr != root && curr.black
        invariant Short(curr, c, t) && mem.Keys == old(mem.Keys) && RowAt(c, t) == RowAt(c0, t0)
        invariant Deleting(c, t) && Repaired(c, t) == Repaired(c0, t0)
        invariant (curr == root <==> c.Top?) && curr.black == IsBlack(t)
        decreases if c.Top? || !IsBlack(t) then 0 else Depth(c) + 1
      {
        curr, c, t := DeleteStep(curr, c, t);
        ShortMeans(curr, c, t);
        ShortLook(curr, c, t);
      }
      ShortMeans(curr, c, t);
      DeleteEnds(c, t);
      Darken(curr, c, t);
      UpToTop(mem, root, c, Blacken(t), nil);
      whole := Plug(c, Blacken(t));
    }

    /** The assignment `curr->color = 1` at the end, also when `curr` is the sentinel. */
    method Darken(curr: Node<T>, ghost c: NCtx<T>, ghost t: NTree<T>)
      requires Synced() && At(mem, root, c, t, nil) && curr == RootOf(t, nil)
      modifies this`mem, mem.Keys
      ensures Synced() && mem.Keys == old(mem.Keys) && root == old(root) && At(mem, root, c, Blacken(t), nil)
    {
      LookHere(mem, root, c, t, nil);
      if t.Br? {
        PaintAt(mem, root, c, t, nil, true);
      }
      ghost var m := mem;
      SetBlack(curr, true);
      assert t.Leaf? ==> mem == m;
    }

    lemma ShortLook(curr: Node<T>, c: NCtx<T>, t: NTree<T>)
      requires Short(curr, c, t)
      ensures curr in mem && (curr == root <==> c.Top?) && curr.black == IsBlack(t)
    {
      LookHere(mem, root, c, t, nil);
      Look(curr);
    }

    /** `_coset_smallest`: down the left links. */
    method Smallest(start: Node<T>, ghost c0: NCtx<T>, ghost t0: NTree<T>)
      returns (curr: Node<T>, ghost c: NCtx<T>, ghost t: NTree<T>)
      requires Synced() && At(mem, root, c0, t0, nil) && t0.Br? && start == t0.node
      ensures At(mem, root, c, t, nil) && t.Br? && curr == t.node && t.left.Leaf?
      ensures LeftSpine(c, c0) && Plug(c, t) == Plug(c0, t0) && Before(c) == Before(c0) && (c, t) == Leftmost(c0, t0)
    {
      hide At, Synced;
      curr, c, t := start, c0, t0;
      LookHere(mem, root, c, t, nil);
      Look(curr);
      Down(true, mem, root, c, t, nil);
      LookHere(mem, root, Hang(true, c, t.black, t.node, t.data, t.right), t.left, nil);
      while curr.left != nil
        invariant At(mem, root, c, t, nil) && t.Br? && curr == t.node && LeftSpine(c, c0)
        invariant Plug(c, t) == Plug(c0, t0) && Before(c) == Before(c0) && (curr.left != nil <==> t.left.Br?)
        invariant Leftmost(c, t) == Leftmost(c0, t0)
        decreases t
      {
        LookHere(mem, root, c, t, nil);
        Look(curr);
        Down(true, mem, root, c, t, nil);
        curr := curr.left;
        c, t := Hang(true, c, t.black, t.node, t.data, t.right), t.left;
        LookHere(mem, root, c, t, nil);
        Look(curr);
        Down(true, mem, root, c, t, nil);
        LookHere(mem, root, Hang(true, c, t.black, t.node, t.data, t.right), t.left, nil);
      }
    }

    /** The node `dnode`, which has at most one child, is unlinked. */
    method Unlink(dnode: Node<T>, ghost c: NCtx<T>, ghost t: NTree<T>) returns (child: Node<T>)
      requires Synced() && At(mem, root, c, t, nil) && t.Br? && dnode == t.node && (t.left.Leaf? || t.right.Leaf?)
      modifies this`mem, this`root, mem.Keys`parent, mem.Keys`left, mem.Keys`right
      ensures Synced() && mem.Keys == old(mem.Keys) - {dnode} && At(mem, root, c, OnlyChild(t), nil)
      ensures child == RootOf(OnlyChild(t), nil) && child in mem && mem[child].parent == ParentOf(c, nil)
      ensures dnode.data == t.data && dnode.black == t.black
    {
      LookHere(mem, root, c, t, nil);
      Look(dnode);
      SpliceAt(mem, root, c, t, nil);
      hide At, Synced, Redirect;
      child := if dnode.left != nil then dnode.left else dnode.right;
      SetParent(child, dnode.parent);
      Relink(dnode, child);
      assert root == if ParentOf(c, nil) == nil then child else old(root);
      Forget(dnode);
    }

    /** The unlinked node is no longer part of the tree's memory. */
    ghost method Forget(n: Node<T>)
      requires Synced()
      modifies this`mem
      ensures Synced() && mem == old(mem) - {n} && mem.Keys == old(mem.Keys) - {n}
    {
      mem := mem - {n};
    }

    /** Taking a black node out starts the repair, taking a red one needs none. */
    method Rebalance(black: bool, child: Node<T>, ghost c: NCtx<T>, ghost s: NTree<T>) returns (ghost whole: NTree<T>)
      requires Synced() && At(mem, root, c, s, nil) && child == RootOf(s, nil) && child in mem
               && mem[child].parent == ParentOf(c, nil)
      requires LeftOver(c, s, black)
      modifies this`mem, this`root, mem.Keys
      ensures Synced() && mem.Keys == old(mem.Keys) && At(mem, root, Top, whole, nil)
      ensures Good(whole) && IsBlack(whole) && Row(whole) == RowAt(c, s) && whole == Rebalanced(c, s, black)
    {
      if black {
        DeleteStarts(c, s);
        LookHere(mem, root, c, s, nil);
        whole := DeleteFixup(child, c, s);
      } else {
        RedNodeIsSpare(c, s);
        UpToTop(mem, root, c, s, nil);
        PlugRow(c, s);
        whole := Plug(c, s);
      }
    }

    /** The node to unlink: `curr`, or its successor if it has two children. */
    method FindVictim(curr: Node<T>, ghost c: NCtx<T>, ghost t: NTree<T>)
      returns (dnode: Node<T>, ghost dc: NCtx<T>, ghost dt: NTree<T>)
      requires Synced() && At(mem, root, c, t, nil) && t.Br? && curr == t.node && Good(tree) && IsBlack(tree)
               && Plug(c, t) == tree
      ensures At(mem, root, dc, dt, nil) && dt.Br? && dnode == dt.node && (dt.left.Leaf? || dt.right.Leaf?)
      ensures Good(dt) && GoodCtx(dc, BH(dt), IsBlack(dt)) && RowAt(dc, dt) == Row(tree)
      ensures if t.left.Br? && t.right.Br? then
                dnode != curr && dt.left.Leaf? && LeftSpine(dc, Hang(false, c, t.black, t.node, t.data, t.left))
              else dnode == curr && dc == c && dt == t
      ensures (dc, dt) == Victim(c, t)
    {
      hide At, Synced, Good, GoodCtx, IsBlack, RowAt, Leftmost;
      LookHere(mem, root, c, t, nil);
      Look(curr);
      Down(true, mem, root, c, t, nil);
      Down(false, mem, root, c, t, nil);
      ghost var base := Hang(false, c, t.black, t.node, t.data, t.left);
      LookHere(mem, root, Hang(true, c, t.black, t.node, t.data, t.right), t.left, nil);
      LookHere(mem, root, base, t.right, nil);
      if curr.left == nil || curr.right == nil {
        dnode, dc, dt := curr, c, t;
      } else {
        dnode, dc, dt := Smallest(curr.right, base, t.right);
        SpineNodes(dc, base);
        VictimIsNew(dc, dt, base);
      }
      GoodParts(dc, dt);
      PlugRow(dc, dt);
    }

    lemma {:induction false} SpineNodes(c: NCtx<T>, base: NCtx<T>)
      requires LeftSpine(c, base) && !base.Top?
      ensures base.node in CtxNodes(c)
      decreases c
    {
      if c != base { SpineNodes(c.up, base); }
    }

    lemma VictimIsNew(c: NCtx<T>, t: NTree<T>, base: NCtx<T>)
      requires At(mem, root, c, t, nil) && t.Br? && !base.Top? && base.node in CtxNodes(c)
      ensures t.node != base.node
    {
      assert t.node in Nodes(t);
    }

    /** If the successor was unlinked, its element moves to the node found. */
    method HandData(curr: Node<T>, dnode: Node<T>, ghost c: NCtx<T>, ghost s: NTree<T>, ghost base: NCtx<T>)
      requires Synced() && At(mem, root, c, s, nil) && LeftSpine(c, base) && base.InRight? && curr == base.node
               && curr != dnode
      requires RootOf(s, nil) in mem && mem[RootOf(s, nil)].parent == ParentOf(c, nil)
      modifies this`mem, curr`data
      ensures Synced() && mem.Keys == old(mem.Keys) && At(mem, root, Rebased(c, base, dnode.data), s, nil)
      ensures RootOf(s, nil) in mem && mem[RootOf(s, nil)].parent == ParentOf(Rebased(c, base, dnode.data), nil)
      ensures dnode.data == old(dnode.data) && dnode.black == old(dnode.black)
    {
      RebasedAt(mem, root, c, s, nil, base, dnode.data);
      RebasedGood(c, base, dnode.data, 0, true);
      RebasedParent(c, base, dnode.data);
      hide At;
      SetData(curr, dnode.data);
    }

    lemma RebasedParent(c: NCtx<T>, base: NCtx<T>, d: T)
      requires LeftSpine(c, base) && base.InRight?
      ensures ParentOf(Rebased(c, base, d), nil) == ParentOf(c, nil)
    {
    }

    /** What the element search and the rows say about a deletion at entry `k`. */
    lemma DeletionRemoves(row: seq<(Node<T>, T)>, k: nat, two: bool, x: T)
      requires TotalOrder(compare) && Sorted(compare, Data(row)) && (if two then k + 1 < |row| else k < |row|)
      requires compare(x, row[k].1) == 0
      ensures var after := Data(RowWithout(row, k, two));
              && |RowWithout(row, k, two)| == |row| - 1 && after == Data(row)[..k] + Data(row)[k + 1..]
              && Sorted(compare, after)
              && forall y :: Has(compare, after, y) <==> Has(compare, Data(row), y) && compare(y, x) != 0
    {
      var a, b := Data(row)[..k], Data(row)[k + 1..];
      assert Data(row) == a + [row[k].1] + b;
      RowWithoutData(row, k, two);
      hide RowWithout, TotalOrder, Sorted, Has;
      RemoveInPlace(compare, a, row[k].1, b, x);
    }

    /** The middle of `coset_delete`: the victim is unlinked, its element handed over. */
    method TakeOut(curr: Node<T>, dnode: Node<T>, ghost c: NCtx<T>, ghost t: NTree<T>, ghost c0: NCtx<T>,
                   ghost dt: NTree<T>)
      returns (child: Node<T>, ghost dc: NCtx<T>, ghost k: nat, ghost two: bool)
      requires Synced() && t.Br? && curr == t.node && curr in mem && At(mem, root, c0, dt, nil)
      requires dt.Br? && dnode == dt.node && (dt.left.Leaf? || dt.right.Leaf?) && Good(dt)
               && GoodCtx(c0, BH(dt), IsBlack(dt))
      requires if t.left.Br? && t.right.Br? then
                 dnode != curr && dt.left.Leaf? && LeftSpine(c0, Hang(false, c, t.black, t.node, t.data, t.left))
               else dnode == curr && c0 == c && dt == t
      modifies this`mem, this`root, mem.Keys`parent, mem.Keys`left, mem.Keys`right, mem.Keys`data
      ensures var s := OnlyChild(dt);
              && Synced() && mem.Keys == old(mem.Keys) - {dnode} && At(mem, root, dc, s, nil)
              && child == RootOf(s, nil) && child in mem && mem[child].parent == ParentOf(dc, nil)
              && LeftOver(dc, s, dnode.black)
              && Taken(RowAt(c0, dt), RowAt(dc, s), k, two, (curr, t.data), dnode) && two == (t.left.Br? && t.right.Br?)
      ensures k == |Before(c)| + |Row(t.left)|
      ensures dc == (if two then Rebased(c0, RightOf(c, t), dt.data) else c) && dnode.black == dt.black
    {
      hide At, Synced, LeftOver, RowAt, RowWithout, Good, GoodCtx, Row, Before, Rebased;
      OnlyChildIsGood(c0, dt);
      child := Unlink(dnode, c0, dt);
      ghost var s := OnlyChild(dt);
      dc, two := c0, dnode != curr;
      if dnode != curr {
        ghost var base := Hang(false, c, t.black, t.node, t.data, t.left);
        k := RowOfTwo(c0, dt, base);
        HandData(curr, dnode, c0, s, base);
        RebasedLeftOver(c0, s, dt.black, base, dt.data);
        NotFirst(base, t, k);
        dc := Rebased(c0, base, dt.data);
      } else {
        k := RowOfOne(c0, dt);
      }
    }

    /** Row `after` is `row` without entry `k`, which was `e`; the node that goes is `gone`. */
    ghost predicate Taken(row: seq<(Node<T>, T)>, after: seq<(Node<T>, T)>, k: nat, two: bool, e: (Node<T>, T),
                          gone: Node<T>) {
      && (if two then 0 < k && k + 1 < |row| else k < |row|)
      && row[k] == e && after == RowWithout(row, k, two) && gone == row[if two then k + 1 else k].0
    }

    /** `coset_delete` once the node is found. */
    method Extract(curr: Node<T>, ghost c: NCtx<T>, ghost t: NTree<T>)
      returns (ghost whole: NTree<T>, ghost k: nat, ghost two: bool, ghost gone: Node<T>)
      requires Synced() && At(mem, root, c, t, nil) && t.Br? && curr == t.node && Good(tree) && IsBlack(tree)
               && Plug(c, t) == tree
      requires size > 0
      modifies this`mem, this`root, this`size, mem.Keys
      ensures Synced() && mem.Keys == old(mem.Keys) - {gone} && At(mem, root, Top, whole, nil) && Good(whole)
              && IsBlack(whole)
      ensures Taken(old(Row(tree)), Row(whole), k, two, (curr, t.data), gone) && size == old(size) - 1
      ensures two == (t.left.Br? && t.right.Br?) && k == |Before(c)| + |Row(t.left)| && whole == Removed(c, t)
    {
      hide At, Synced, Good, GoodCtx, IsBlack, RowAt, LeftOver, Taken, Rebalanced, Before, Row, Removed;
      var child, black;
      ghost var dc, s;
      child, black, dc, s, k, two, gone := Detach(curr, c, t);
      size := size - 1;
      whole := Rebalance(black, child, dc, s);
    }

    /** The first half of that: the victim is found, unlinked and its element handed over. */
    method Detach(curr: Node<T>, ghost c: NCtx<T>, ghost t: NTree<T>)
      returns (child: Node<T>, black: bool, ghost dc: NCtx<T>, ghost s: NTree<T>, ghost k: nat, ghost two: bool,
               ghost gone: Node<T>)
      requires Synced() && At(mem, root, c, t, nil) && t.Br? && curr == t.node && Good(tree) && IsBlack(tree)
               && Plug(c, t) == tree
      modifies this`mem, this`root, mem.Keys`parent, mem.Keys`left, mem.Keys`right, mem.Keys`data
      ensures Synced() && mem.Keys == old(mem.Keys) - {gone} && At(mem, root, dc, s, nil)
      ensures child == RootOf(s, nil) && child in mem && mem[child].parent == ParentOf(dc, nil)
      ensures Taken(old(Row(tree)), RowAt(dc, s), k, two, (curr, t.data), gone) && two == (t.left.Br? && t.right.Br?)
      ensures k == |Before(c)| + |Row(t.left)|
      ensures LeftOver(dc, s, black) && Removed(c, t) == Rebalanced(dc, s, black)
    {
      hide At, Synced, Good, GoodCtx, IsBlack, RowAt, LeftOver, Taken, Rebalanced, Victim, Rebased, Before, Row,
           Removed;
      LookHere(mem, root, c, t, nil);
      var dnode;
      ghost var c0, dt;
      dnode, c0, dt := FindVictim(curr, c, t);
      gone, s := dnode, OnlyChild(dt);
      child, dc, k, two := TakeOut(curr, dnode, c, t, c0, dt);
      RemovedSteps(c, t, c0, dt, dc);
      black := dnode.black;
    }

    /** The node has a child on either side. */
    predicate HasBoth(n: Node<T>)
      reads n
    {
      n.left != nil && n.right != nil
    }

    /** The same, as the memory has it. */
    ghost predicate BothLinked(n: Node<T>)
      reads this`mem
    {
      n in mem && mem[n].left != nil && mem[n].right != nil
    }

    /** `coset_delete`; entry `k` goes.  If its node has two children, the node of
        the next entry is unlinked and freed instead, and hands its element over. */
    method Delete(x: T) returns (ghost k: nat, ghost two: bool)
      requires Valid()
      modifies this`mem, this`root, this`size, this`tree, mem.Keys
      ensures Valid() && mem.Keys <= old(mem.Keys)
      ensures !old(Has(compare, Items(), x)) ==> tree == old(tree) && mem == old(mem) && size == old(size)
      ensures old(Has(compare, Items(), x)) ==>
                && k < |old(Row(tree))| && two == old(BothLinked(Row(tree)[k].0))
                && (two ==> 0 < k && k + 1 < |old(Row(tree))|)
                && Row(tree) == RowWithout(old(Row(tree)), k, two) && compare(x, old(Items())[k]) == 0
                && Items() == old(Items())[..k] + old(Items())[k + 1..] && size == old(size) - 1
                && mem.Keys == old(mem.Keys) - {old(Row(tree))[if two then k + 1 else k].0}
                && two == TwoAt(old(tree), k) && tree == RemovedEntry(old(tree), k)
      ensures forall y :: Has(compare, Items(), y) <==> old(Has(compare, Items(), y)) && compare(y, x) != 0
    {
      hide At, Synced, Good, GoodCtx, IsBlack, TotalOrder, Sorted, RowAt, Has, RowWithout, BothLinked, Row, Plug, Data,
           TwoAt, RemovedEntry, Removed, Before;
      k, two := 0, false;
      var curr;
      ghost var n, c, t;
      curr, n, c, t := Search(x);
      if curr == nil {
        AbsentStays(x);
        return;
      }
      ghost var row, whole, gone := Row(tree), tree, curr;
      RowHasFocus(c, t);
      BothThere(curr, c, t);
      FocusIs(c, t);
      whole, k, two, gone := Extract(curr, c, t);
      DeletionRemoves(row, k, two, x);
      tree := whole;
    }

    /** The node found has the number that the row gives it. */
    lemma FocusIs(c: NCtx<T>, t: NTree<T>)
      requires Plug(c, t) == tree && t.Br? && Good(tree) && IsBlack(tree)
      ensures var k := |Before(c)| + |Row(t.left)|;
              && k < |Row(tree)| && TwoAt(tree, k) == (t.left.Br? && t.right.Br?)
              && RemovedEntry(tree, k) == Removed(c, t)
    {
      hide Removed, Good, IsBlack, FocusOn, Row, Plug, Before;
      FocusHere(c, t);
      FocusFromTop(c, t, |Row(t.left)|);
    }

    lemma BothThere(n: Node<T>, c: NCtx<T>, t: NTree<T>)
      requires Synced() && At(mem, root, c, t, nil) && t.Br? && n == t.node
      ensures HasBoth(n) == BothLinked(n) == (t.left.Br? && t.right.Br?)
    {
      LookHere(mem, root, c, t, nil);
      Look(n);
      hide At, Synced;
      FirstBelow(true, n, c, t);
      FirstBelow(false, n, c, t);
    }

    lemma RowHasFocus(c: NCtx<T>, t: NTree<T>)
      requires t.Br?
      ensures |RowAt(c, t)| > 0
    {
    }

    lemma NotFirst(base: NCtx<T>, t: NTree<T>, k: nat)
      requires base.InRight? && t.Br? && t.left.Br? && base.left == t.left && k == |Before(base.up)| + |Row(base.left)|
      ensures k > 0
    {
    }

    lemma AbsentStays(x: T)
      requires TotalOrder(compare) && !Has(compare, Items(), x)
      ensures forall y :: Has(compare, Items(), y) ==> compare(y, x) != 0
    {
      forall y ensures Has(compare, Items(), y) && compare(y, x) == 0 ==> Has(compare, Items(), x) {
        if Has(compare, Items(), y) && compare(y, x) == 0 {
          var i :| 0 <= i < |Items()| && compare(y, Items()[i]) == 0;
          Same(compare, x, Items()[i], y);
        }
      }
    }

    // ---- iterating -----------------------------------------------------------------

    /** `coset_exist` */
    method Exist(x: T) returns (found: bool)
      requires Valid()
      ensures found <==> Has(compare, Items(), x)
    {
      var curr;
      ghost var comparisons, c, t;
      curr, comparisons, c, t := Search(x);
      found := curr != nil;
    }

    /** The node of entry `k` of the row. */
    ghost predicate IsEntry(n: Node<T>, k: int)
      reads this`tree
    {
      0 <= k < |Row(tree)| && Row(tree)[k].0 == n
    }

    ghost function LastEntry(): int
      reads this`tree
    {
      |Row(tree)| - 1
    }

    /** What an iteration returns at entry `k`: its node, or nothing beyond the ends. */
    ghost predicate Reached(n: Node?<T>, k: int)
      reads this`tree
    {
      if 0 <= k < |Row(tree)| then n == Row(tree)[k].0 else n == null
    }

    /** Where entry `k` lies in the tree. */
    lemma {:induction false} Focus(c0: NCtx<T>, t0: NTree<T>, k: nat) returns (c: NCtx<T>, t: NTree<T>)
      requires At(mem, root, c0, t0, nil) && k < |Row(t0)|
      ensures At(mem, root, c, t, nil) && Plug(c, t) == Plug(c0, t0) && t.Br? && (t.node, t.data) == Row(t0)[k]
      ensures |Before(c)| + |Row(t.left)| == |Before(c0)| + k
      decreases t0
    {
      hide At;
      var l := |Row(t0.left)|;
      if k == l {
        c, t := c0, t0;
      } else {
        Down(k < l, mem, root, c0, t0, nil);
        var below := Hang(k < l, c0, t0.black, t0.node, t0.data, Far(k < l, t0));
        c, t := Focus(below, Near(k < l, t0), if k < l then k else k - l - 1);
      }
    }

    lemma FocusEntry(n: Node<T>, k: int) returns (c: NCtx<T>, t: NTree<T>)
      requires At(mem, root, Top, tree, nil) && IsEntry(n, k)
      ensures At(mem, root, c, t, nil) && t.Br? && t.node == n && n in mem && t.data == Row(tree)[k].1
      ensures Row(tree) == RowAt(c, t) && |Before(c)| + |Row(t.left)| == k && Plug(c, t) == tree
    {
      c, t := Focus(Top, tree, k);
      PlugRow(c, t);
      PlugRow(Top, tree);
      LookHere(mem, root, c, t, nil);
    }

    /** An iteration's node holds the element of its entry. */
    lemma EntryData(n: Node<T>, k: int)
      requires Valid() && IsEntry(n, k)
      ensures n in mem && n.data == Items()[k]
    {
      hide At, Synced;
      var c, t := FocusEntry(n, k);
      LookHere(mem, root, c, t, nil);
      Look(n);
    }

    /** Each node is one entry only. */
    lemma EntryIsUnique(n: Node<T>, i: int, j: int)
      requires Valid() && IsEntry(n, i) && IsEntry(n, j)
      ensures i == j
    {
      hide At, Synced, TotalOrder;
      EntryData(n, i);
      EntryData(n, j);
      SortedIsOnce(compare, Items(), i, j);
    }

    lemma FirstBelow(left: bool, n: Node<T>, c: NCtx<T>, t: NTree<T>)
      requires Synced() && At(mem, root, c, t, nil) && t.Br? && n == t.node
      ensures n in mem && (if left then n.left else n.right) == RootOf(Near(left, t), nil)
      ensures At(mem, root, Hang(left, c, t.black, t.node, t.data, Far(left, t)), Near(left, t), nil)
      ensures RootOf(Near(left, t), nil) == nil <==> Near(left, t).Leaf?
    {
      hide At, Synced;
      LookHere(mem, root, c, t, nil);
      Look(n);
      Down(left, mem, root, c, t, nil);
      LookHere(mem, root, Hang(left, c, t.black, t.node, t.data, Far(left, t)), Near(left, t), nil);
    }

    /** The node above, and on which side of it the focus lies. */
    lemma LookAbove(n: Node<T>, c: NCtx<T>, t: NTree<T>)
      requires Synced() && At(mem, root, c, t, nil) && t.Br? && n == t.node
      ensures n in mem && n.parent in mem && n.parent == ParentOf(c, nil) && (n.parent == nil <==> c.Top?)
      ensures !c.Top? ==> At(mem, root, c.up, Parent(c, t, c.black), nil)
      ensures !c.Top? ==> (n == n.parent.left <==> c.InLeft?) && (n == n.parent.right <==> c.InRight?)
    {
      LookHere(mem, root, c, t, nil);
      Look(n);
      if !c.Top? {
        LookUp(mem, root, c, t, nil);
        Up(mem, root, c, t, nil);
        Look(c.node);
      }
    }

    /** `_coset_largest`: down the right links. */
    method Largest(start: Node<T>, ghost c0: NCtx<T>, ghost t0: NTree<T>)
      returns (curr: Node<T>, ghost c: NCtx<T>, ghost t: NTree<T>)
      requires Synced() && At(mem, root, c0, t0, nil) && t0.Br? && start == t0.node
      ensures At(mem, root, c, t, nil) && t.Br? && curr == t.node && t.right.Leaf?
      ensures Plug(c, t) == Plug(c0, t0) && Behind(c) == Behind(c0)
    {
      hide At, Synced;
      curr, c, t := start, c0, t0;
      FirstBelow(false, curr, c, t);
      while curr.right != nil
        invariant At(mem, root, c, t, nil) && t.Br? && curr == t.node
        invariant Plug(c, t) == Plug(c0, t0) && Behind(c) == Behind(c0)
        invariant curr.right == RootOf(t.right, nil) && (curr.right == nil <==> t.right.Leaf?)
        decreases t
      {
        FirstBelow(false, curr, c, t);
        curr := curr.right;
        c, t := Hang(false, c, t.black, t.node, t.data, t.left), t.right;
        FirstBelow(false, curr, c, t);
      }
    }

    /** `_coset_successor` */
    method Successor(node: Node<T>, ghost k: nat) returns (successor: Node<T>)
      requires Valid() && IsEntry(node, k)
      ensures if k + 1 < |Row(tree)| then IsEntry(successor, k + 1) && successor != nil else successor == nil
    {
      hide At, Synced, Good, IsBlack, TotalOrder, Sorted, Data;
      var curr := node;
      ghost var c0, t0 := FocusEntry(curr, k);
      ghost var c, t := c0, t0;
      FirstBelow(false, curr, c, t);
      if curr.right != nil {
        ghost var c1, t1;
        successor, c1, t1 := Smallest(curr.right, Hang(false, c, t.black, t.node, t.data, t.left), t.right);
        LookHere(mem, root, c1, t1, nil);
        PlugRow(Hang(false, c, t.black, t.node, t.data, t.left), t.right);
        PlugRow(c, t);
        PlugRow(c1, t1);
        NextIsAt(c, t, c1, t1);
        return;
      }
      LookAbove(curr, c, t);
      successor := curr.parent;
      while successor != nil && curr == successor.right
        invariant At(mem, root, c, t, nil) && t.Br? && curr == t.node && Behind(c) == Behind(c0)
        invariant curr in mem && successor == curr.parent && successor == ParentOf(c, nil)
        decreases c
      {
        LookAbove(curr, c, t);
        c, t := c.up, Parent(c, t, c.black);
        curr := successor;
        LookAbove(curr, c, t);
        successor := successor.parent;
      }
      LookAbove(curr, c, t);
      BehindStarts(c0, t0, c, k);
    }

    /** Behind a node without right child comes what the context begins with. */
    lemma BehindStarts(c0: NCtx<T>, t0: NTree<T>, c: NCtx<T>, k: nat)
      requires t0.Br? && t0.right.Leaf? && k == |Before(c0)| + |Row(t0.left)|
      requires Behind(c) == Behind(c0) && !c.InRight?
      ensures var row := RowAt(c0, t0);
              if c.Top? then |row| == k + 1 else k + 1 < |row| && row[k + 1].0 == c.node
    {
      assert Row(t0) == Row(t0.left) + [(t0.node, t0.data)];
      assert RowAt(c0, t0) == (Before(c0) + Row(t0.left) + [(t0.node, t0.data)]) + Behind(c);
    }

    /** Before a node without left child comes what the context ends with. */
    lemma BeforeEnds(c0: NCtx<T>, t0: NTree<T>, c: NCtx<T>, k: nat)
      requires t0.Br? && t0.left.Leaf? && k == |Before(c0)|
      requires Before(c) == Before(c0) && !c.InLeft?
      ensures var row := RowAt(c0, t0);
              if c.Top? then k == 0 else 0 < k <= |row| && row[k - 1].0 == c.node
    {
    }

    /** `_coset_predecessor` */
    method Predecessor(node: Node<T>, ghost k: nat) returns (predecessor: Node<T>)
      requires Valid() && IsEntry(node, k)
      ensures if k > 0 then IsEntry(predecessor, k - 1) && predecessor != nil else predecessor == nil
    {
      hide At, Synced, Good, IsBlack, TotalOrder, Sorted, Data;
      var curr := node;
      ghost var c0, t0 := FocusEntry(curr, k);
      ghost var c, t := c0, t0;
      FirstBelow(true, curr, c, t);
      if curr.left != nil {
        ghost var c1, t1;
        predecessor, c1, t1 := Largest(curr.left, Hang(true, c, t.black, t.node, t.data, t.right), t.left);
        LookHere(mem, root, c1, t1, nil);
        PlugRow(Hang(true, c, t.black, t.node, t.data, t.right), t.left);
        PlugRow(c, t);
        PlugRow(c1, t1);
        LastIsAt(c, t, c1, t1);
        return;
      }
      LookAbove(curr, c, t);
      predecessor := curr.parent;
      while predecessor != nil && curr == predecessor.left
        invariant At(mem, root, c, t, nil) && t.Br? && curr == t.node && Before(c) == Before(c0)
        invariant curr in mem && predecessor == curr.parent && predecessor == ParentOf(c, nil)
        decreases c
      {
        LookAbove(curr, c, t);
        c, t := c.up, Parent(c, t, c.black);
        curr := predecessor;
        LookAbove(curr, c, t);
        predecessor := predecessor.parent;
      }
      LookAbove(curr, c, t);
      BeforeEnds(c0, t0, c, k);
    }

    /** The first node of a right subtree comes right behind the node above it. */
    lemma NextIsAt(c: NCtx<T>, t: NTree<T>, c1: NCtx<T>, t1: NTree<T>)
      requires t.Br? && t1.Br? && t1.left.Leaf? && RowAt(c1, t1) == RowAt(c, t)
      requires Before(c1) == Before(Hang(false, c, t.black, t.node, t.data, t.left))
      ensures var k := |Before(c)| + |Row(t.left)|;
              k + 1 < |RowAt(c, t)| && RowAt(c, t)[k + 1].0 == t1.node
    {
      FirstNode(c1, t1);
    }

    /** The last node of a left subtree comes right before the node above it. */
    lemma LastIsAt(c: NCtx<T>, t: NTree<T>, c1: NCtx<T>, t1: NTree<T>)
      requires t.Br? && t1.Br? && t1.right.Leaf? && RowAt(c1, t1) == RowAt(c, t)
      requires Behind(c1) == Behind(Hang(true, c, t.black, t.node, t.data, t.right))
      ensures var k := |Before(c)| + |Row(t.left)|;
              0 < k <= |RowAt(c, t)| && RowAt(c, t)[k - 1].0 == t1.node
    {
      LastNode(c1, t1);
    }

    lemma FirstNode(c: NCtx<T>, t: NTree<T>)
      requires t.Br? && t.left.Leaf?
      ensures |RowAt(c, t)| > |Before(c)| && RowAt(c, t)[|Before(c)|].0 == t.node
    {
      assert Row(t)[0] == (t.node, t.data);
    }

    lemma LastNode(c: NCtx<T>, t: NTree<T>)
      requires t.Br? && t.right.Leaf?
      ensures |RowAt(c, t)| > |Behind(c)| && RowAt(c, t)[|RowAt(c, t)| - |Behind(c)| - 1].0 == t.node
    {
      assert Row(t)[|Row(t)| - 1] == (t.node, t.data);
    }

    lemma LastOfAll(c: NCtx<T>, t: NTree<T>)
      requires t.Br? && t.right.Leaf? && Behind(c) == [] && Row(tree) == RowAt(c, t)
      ensures Reached(t.node, LastEntry())
    {
      LastNode(c, t);
      assert Row(tree)[LastEntry()].0 == t.node;
    }

    /** `coset_begin` */
    method Begin() returns (first: Node?<T>)
      requires Valid()
      ensures Reached(first, 0)
    {
      hide At, Synced;
      LookHere(mem, root, Top, tree, nil);
      PlugRow(Top, tree);
      first := null;
      if root != nil {
        var curr;
        ghost var c, t;
        curr, c, t := Smallest(root, Top, tree);
        LookHere(mem, root, c, t, nil);
        PlugRow(c, t);
        FirstNode(c, t);
        first := if curr == nil then null else curr;
      }
    }

    /** `coset_end` */
    method End() returns (last: Node?<T>)
      requires Valid()
      ensures Reached(last, LastEntry())
    {
      hide At, Synced;
      LookHere(mem, root, Top, tree, nil);
      PlugRow(Top, tree);
      last := null;
      if root != nil {
        var curr;
        ghost var c, t;
        curr, c, t := Largest(root, Top, tree);
        LookHere(mem, root, c, t, nil);
        PlugRow(c, t);
        LastOfAll(c, t);
        last := if curr == nil then null else curr;
      }
    }

    /** `coset_next` */
    method Next(node: Node<T>, ghost k: nat) returns (next: Node?<T>)
      requires Valid() && IsEntry(node, k)
      ensures Reached(next, k + 1)
    {
      var curr := Successor(node, k);
      next := if curr == nil then null else curr;
    }

    /** `coset_prev` */
    method Prev(node: Node<T>, ghost k: nat) returns (prev: Node?<T>)
      requires Valid() && IsEntry(node, k)
      ensures Reached(prev, k - 1)
    {
      var curr := Predecessor(node, k);
      prev := if curr == nil then null else curr;
    }

    // ---- whole sets ----------------------------------------------------------------

    /** The element of entry `i` is deleted from its own set. */
    method DeleteEntry(curr: Node<T>, ghost i: nat) returns (ghost two: bool)
      requires Valid() && IsEntry(curr, i)
      modifies this`mem, this`root, this`size, this`tree, mem.Keys
      ensures Valid() && two == old(BothLinked(curr)) && (two ==> 0 < i && i + 1 < |old(Row(tree))|)
      ensures two == TwoAt(old(tree), i) && tree == RemovedEntry(old(tree), i)
      ensures Row(tree) == RowWithout(old(Row(tree)), i, two) && Items() == old(Items())[..i] + old(Items())[i + 1..]
      ensures mem.Keys == old(mem.Keys) - {old(Row(tree))[if two then i + 1 else i].0} && mem.Keys <= old(mem.Keys)
    {
      hide At, Synced, Good, IsBlack, Has, RowWithout, BothLinked, TwoAt, RemovedEntry;
      EntryData(curr, i);
      ghost var items := Items();
      var x := curr.data;
      FoundAt(compare, items, i);
      ghost var k;
      k, two := Delete(x);
      SameEntry(compare, items, k, i);
    }

    /** Deleting the smallest element frees its own node. */
    method DeleteFirst(curr: Node<T>)
      requires Valid() && IsEntry(curr, 0)
      modifies this`mem, this`root, this`size, this`tree, mem.Keys
      ensures Valid() && mem.Keys == old(mem.Keys) - {curr} && Row(tree) == old(Row(tree))[1..]
    {
      hide Valid, BothLinked;
      ghost var two := DeleteEntry(curr, 0);
    }

    /** One round of the loop of `coset_clear`: `curr` is freed, and the saved
        successor lives on as the first entry. */
    method ClearStep(curr: Node<T>) returns (next: Node?<T>)
      requires Valid() && IsEntry(curr, 0)
      modifies this`mem, this`root, this`size, this`tree, mem.Keys
      ensures Valid() && mem.Keys == old(mem.Keys) - {curr} && Row(tree) == old(Row(tree))[1..]
      ensures Reached(next, 0) && (next != null ==> next in mem)
    {
      hide Valid, Reached;
      next := Next(curr, 0);
      ReachedSecond(next);
      ghost var row := Row(tree);
      DeleteFirst(curr);
      SecondBecomesFirst(row, next);
      if next != null { NextIsThere(next, 0); }
    }

    /** `coset_clear`; the nodes are freed in the order of the row. */
    method Clear() returns (ghost freed: seq<Node<T>>)
      requires Valid()
      modifies this`mem, this`root, this`size, this`tree, mem.Keys
      ensures Valid() && Items() == [] && size == 0 && root == nil
      ensures freed == Entries(old(Row(tree))) && mem.Keys == old(mem.Keys) - set n | n in freed
    {
      hide Valid, IsEntry, Reached;
      freed := [];
      var curr := Begin();
      ReachedFirst(curr);
      while curr != null
        invariant Valid() && mem.Keys == old(mem.Keys) - set n | n in freed
        invariant freed + Entries(Row(tree)) == Entries(old(Row(tree)))
        invariant Reached(curr, 0)
        decreases |Row(tree)|
      {
        ReachedFirst(curr);
        freed := freed + [curr];
        curr := ClearStep(curr);
      }
      ReachedFirst(curr);
      NothingLeft();
    }

    ghost function Entries(row: seq<(Node<T>, T)>): seq<Node<T>> {
      seq(|row|, i requires 0 <= i < |row| => row[i].0)
    }

    lemma ReachedFirst(n: Node?<T>)
      requires Reached(n, 0)
      ensures n == null <==> Row(tree) == []
      ensures n != null ==> IsEntry(n, 0)
    {
    }

    lemma NothingLeft()
      requires Valid() && Row(tree) == []
      ensures Items() == [] && size == 0 && root == nil
    {
      assert tree.Br? ==> |Row(tree)| > 0;
    }

    /** All entries stay, each with its node and its element; the new ones hold
        elements of `others` that the set did not have. */
    ghost predicate Gained(was: seq<(Node<T>, T)>, row: seq<(Node<T>, T)>, others: seq<T>) {
      && (forall e :: e in was ==> e in row)
      && (forall e :: e in row && e !in was ==> e.1 in others && !Has(compare, Data(was), e.1))
    }

    lemma NothingGained(row: seq<(Node<T>, T)>, others: seq<T>)
      ensures Gained(row, row, others)
    {
    }

    lemma GainedMore(was: seq<(Node<T>, T)>, row: seq<(Node<T>, T)>, row': seq<(Node<T>, T)>, others: seq<T>, i: nat)
      requires i < |others| && Gained(was, row, others) && Gained(row, row', [others[i]])
      ensures Gained(was, row', others)
    {
      hide Has;
      forall x | Has(compare, Data(was), x) ensures Has(compare, Data(row), x) { StillHas(was, row, x); }
    }

    lemma StillHas(was: seq<(Node<T>, T)>, row: seq<(Node<T>, T)>, x: T)
      requires (forall e :: e in was ==> e in row) && Has(compare, Data(was), x)
      ensures Has(compare, Data(row), x)
    {
      var i :| 0 <= i < |was| && compare(x, Data(was)[i]) == 0;
      assert was[i] in row;
      var j :| 0 <= j < |row| && row[j] == was[i];
      assert Data(row)[j] == Data(was)[i];
    }

    /** The element of entry `i` of a set is added. */
    method AddFrom(other: Set<T>, curr: Node<T>, ghost i: nat)
      requires Valid() && other.Valid() && Apart(other) && other.IsEntry(curr, i)
      modifies this`mem, this`root, this`size, this`tree, mem.Keys
      ensures Valid() && fresh(mem.Keys - old(mem.Keys)) && old(mem.Keys) <= mem.Keys && Apart(other)
      ensures other.Valid() && other.tree == old(other.tree) && other.mem == old(other.mem)
      ensures Gained(old(Row(tree)), Row(tree), [other.Items()[i]])
      ensures forall y :: Has(compare, Items(), y) <==>
                            old(Has(compare, Items(), y)) || compare(y, other.Items()[i]) == 0
    {
      hide Valid, Has;
      other.EntryData(curr, i);
      if other == this {
        OrderIs();
        FoundAt(compare, Items(), i);
      }
      ghost var k := Add(curr.data);
    }

    /** The same set, or one that shares no node. */
    ghost predicate Apart(other: Set<T>)
      reads this`mem, other`mem
    {
      other != this ==> mem.Keys !! other.mem.Keys
    }

    /** `coset_union`, also of a set with itself. */
    method Union(other: Set<T>)
      requires Valid() && other.Valid() && Apart(other)
      modifies this`mem, this`root, this`size, this`tree, mem.Keys
      ensures Valid() && fresh(mem.Keys - old(mem.Keys)) && old(mem.Keys) <= mem.Keys && Apart(other)
      ensures other.Valid() && other.tree == old(other.tree)
      ensures Gained(old(Row(tree)), Row(tree), other.Items())
      ensures forall y :: Has(compare, Items(), y) <==> old(Has(compare, Items(), y)) || Has(compare, other.Items(), y)
    {
      hide Valid, Has, Gained;
      NothingGained(Row(tree), other.Items());
      ghost var i := 0;
      var curr := other.Begin();
      HasNone(compare, other.Items());
      while curr != null
        invariant Valid() && other.Valid() && Apart(other) && fresh(mem.Keys - old(mem.Keys))
        invariant old(mem.Keys) <= mem.Keys && Gained(old(Row(tree)), Row(tree), other.Items())
        invariant other.tree == old(other.tree) && other.Reached(curr, i) && i <= |Row(other.tree)|
        invariant forall y :: Has(compare, Items(), y) <==>
                                old(Has(compare, Items(), y)) || Has(compare, other.Items()[..i], y)
        decreases |Row(other.tree)| - i
      {
        ghost var row := Row(tree);
        AddFrom(other, curr, i);
        GainedMore(old(Row(tree)), row, Row(tree), other.Items(), i);
        curr := other.Next(curr, i);
        HasOneMore(compare, other.Items(), i);
        i := i + 1;
      }
      assert other.Items()[..i] == other.Items();
    }

    /** The element of entry `i` of another set is deleted. */
    method DeleteFrom(other: Set<T>, curr: Node<T>, ghost i: nat)
      requires Valid() && other.Valid() && other != this && mem.Keys !! other.mem.Keys && other.IsEntry(curr, i)
      modifies this`mem, this`root, this`size, this`tree, mem.Keys
      ensures Valid() && mem.Keys <= old(mem.Keys)
      ensures other.Valid() && other.tree == old(other.tree) && other.mem == old(other.mem)
      ensures forall y :: Has(compare, Items(), y) <==>
                            old(Has(compare, Items(), y)) && compare(y, other.Items()[i]) != 0
      ensures forall z :: z in Items() <==> z in old(Items()) && compare(z, other.Items()[i]) != 0
    {
      hide Valid, Has, Taken, IsEntry, Sorted, TotalOrder;
      other.EntryData(curr, i);
      var x := curr.data;
      ghost var items := Items();
      OrderIs();
      ItemsAscend();
      ghost var k, two := Delete(x);
      OthersStay(compare, items, k, x, Items());
    }

    /** `coset_minus`, up to the first time that it would go on from a node it has
        freed.  That happens exactly for a set minus itself, unless it is empty:
        the first round frees the node that the second one starts from. */
    method Minus(other: Set<T>) returns (ok: bool, ghost dangling: Node?<T>)
      requires Valid() && other.Valid() && Apart(other)
      modifies this`mem, this`root, this`size, this`tree, mem.Keys
      ensures Valid() && mem.Keys <= old(mem.Keys) && other.Valid()
      ensures ok <==> other != this || old(size) == 0
      ensures ok ==> other.tree == old(other.tree)
      ensures ok ==> forall y :: Has(compare, Items(), y) <==>
                                   old(Has(compare, Items(), y)) && !Has(compare, other.Items(), y)
      ensures ok ==> forall z :: z in Items() <==> z in old(Items()) && !Has(compare, other.Items(), z)
      ensures !ok ==> dangling != null && dangling in old(mem) && dangling !in mem && size == old(size) - 1
    {
      hide Valid, Has;
      SizeIs();
      ghost var i := 0;
      var curr := other.Begin();
      HasNone(compare, other.Items());
      while curr != null
        invariant Valid() && other.Valid() && Apart(other) && mem.Keys <= old(mem.Keys)
        invariant other.tree == old(other.tree) && other.Reached(curr, i) && i <= |Row(other.tree)|
        invariant other == this ==> i == 0 && mem == old(mem)
        invariant forall y :: Has(compare, Items(), y) <==>
                                old(Has(compare, Items(), y)) && !Has(compare, other.Items()[..i], y)
        invariant forall z :: z in Items() <==> z in old(Items()) && !Has(compare, other.Items()[..i], z)
        decreases |Row(other.tree)| - i
      {
        if other == this {
          EntryData(curr, 0);
          DeleteFirst(curr);
          SizeIs();
          return false, curr;
        }
        DeleteFrom(other, curr, i);
        curr := other.Next(curr, i);
        HasOneMore(compare, other.Items(), i);
        i := i + 1;
      }
      assert other.Items()[..i] == other.Items();
      return true, null;
    }

    /** A node saved from the row is still first once the entry before it has gone. */
    lemma SecondBecomesFirst(row: seq<(Node<T>, T)>, next: Node?<T>)
      requires row != [] && Row(tree) == row[1..]
      requires if 1 < |row| then next == row[1].0 else next == null
      ensures Reached(next, 0)
    {
    }

    lemma ReachedSecond(next: Node?<T>)
      requires Reached(next, 1)
      ensures if 1 < |Row(tree)| then next == Row(tree)[1].0 else next == null
    {
    }

    /** What `coset_intersect` has done: the elements of `was` before place `j` are sifted. */
    ghost predicate Sifted(was: seq<T>, cmp: (T, T) -> int, items: seq<T>, i: nat, j: nat)
      reads this`tree
    {
      j <= |was| && Items() == Kept(cmp, items, was[..j]) + was[j..] && i == |Kept(cmp, items, was[..j])|
    }

    lemma SiftStarts(cmp: (T, T) -> int, items: seq<T>)
      ensures Sifted(Items(), cmp, items, 0, 0)
    {
    }

    lemma SiftKeeps(was: seq<T>, cmp: (T, T) -> int, items: seq<T>, i: nat, j: nat)
      requires Sifted(was, cmp, items, i, j) && j < |was| && Has(cmp, items, was[j])
      ensures Sifted(was, cmp, items, i + 1, j + 1)
    {
      KeptNext(cmp, items, was, j);
      assert was[j..] == [was[j]] + was[j + 1..];
    }

    lemma SiftDrops(was: seq<T>, cmp: (T, T) -> int, items: seq<T>, i: nat, j: nat, before: seq<T>)
      requires j < |was| && before == Kept(cmp, items, was[..j]) + was[j..] && i == |Kept(cmp, items, was[..j])|
      requires !Has(cmp, items, was[j]) && Items() == before[..i] + before[i + 1..]
      ensures Sifted(was, cmp, items, i, j + 1)
    {
      KeptNext(cmp, items, was, j);
      assert before[..i] == Kept(cmp, items, was[..j]) && before[i + 1..] == was[j + 1..];
    }

    lemma SiftEnds(was: seq<T>, cmp: (T, T) -> int, items: seq<T>, i: nat, j: nat)
      requires Sifted(was, cmp, items, i, j) && i >= |Items()|
      ensures Items() == Kept(cmp, items, was)
    {
      assert was[..j] == was;
    }

    lemma SiftedIs(was: seq<T>, cmp: (T, T) -> int, items: seq<T>, i: nat, j: nat)
      requires Sifted(was, cmp, items, i, j) && i < |Items()|
      ensures j < |was| && Items()[i] == was[j]
      ensures Items() == Kept(cmp, items, was[..j]) + was[j..] && i == |Kept(cmp, items, was[..j])|
    {
    }

    lemma SiftedHead(was: seq<T>, cmp: (T, T) -> int, items: seq<T>, i: nat, j: nat)
      requires Sifted(was, cmp, items, i, j) && i < |Items()|
      ensures j < |was| && Items()[i] == was[j]
    {
    }

    lemma EntryIs(n: Node<T>, i: nat)
      requires Reached(n, i)
      ensures IsEntry(n, i) && i < |Items()| == |Row(tree)|
    {
    }

    lemma OrderIs()
      requires Valid()
      ensures TotalOrder(compare)
    {
    }

    lemma ItemsAscend()
      requires Valid()
      ensures Sorted(compare, Items())
    {
    }

    lemma NextIsThere(n: Node<T>, k: nat)
      requires Valid() && Reached(n, k)
      ensures n in mem
    {
      EntryData(n, k);
    }

    /** An element that the other set has not is deleted from this one. */
    method SiftOut(other: Set<T>, curr: Node<T>, ghost i: nat) returns (ghost two: bool)
      requires Valid() && other.Valid() && other != this && mem.Keys !! other.mem.Keys && IsEntry(curr, i)
      modifies this`mem, this`root, this`size, this`tree, mem.Keys
      ensures Valid() && mem.Keys <= old(mem.Keys) && two == old(BothLinked(curr)) == TwoAt(old(tree), i)
      ensures tree == RemovedEntry(old(tree), i) && (two ==> 0 < i && i + 1 < |old(Row(tree))|)
      ensures other.Valid() && other.tree == old(other.tree) && other.mem == old(other.mem)
      ensures Row(tree) == RowWithout(old(Row(tree)), i, two) && Items() == old(Items())[..i] + old(Items())[i + 1..]
      ensures two ==> old(Row(tree))[i + 1].0 !in mem
    {
      hide Valid, IsEntry, RowWithout, BothLinked, TwoAt, RemovedEntry;
      two := DeleteEntry(curr, i);
    }

    /** A node saved from the row survives the deletion of the entry before it,
        exactly when that entry's node had not two children. */
    lemma SavedNode(row: seq<(Node<T>, T)>, i: nat, two: bool, next: Node?<T>)
      requires i < |row| && (two ==> i + 1 < |row|) && Row(tree) == RowWithout(row, i, two)
      requires next == if i + 1 < |row| then row[i + 1].0 else null
      ensures !two ==> Reached(next, i)
    {
    }

    /** From entry `i` on no deletion frees the node saved before. */
    ghost predicate SafeFrom(cmp: (T, T) -> int, items: seq<T>, i: nat)
      reads this`tree
    {
      Good(tree) && IsBlack(tree) && Survives(cmp, items, tree, i)
    }

    ghost predicate FirstMissing(cmp: (T, T) -> int, was: seq<T>, items: seq<T>, m: int) {
      0 <= m < |was| && !Has(cmp, items, was[m]) && forall k :: 0 <= k < m ==> Has(cmp, items, was[k])
    }

    /** The first element missing from `items` is at a node with two children. */
    ghost predicate FirstMissingHasBoth(cmp: (T, T) -> int, items: seq<T>)
      reads this`tree, set k | 0 <= k < |Row(tree)| :: Row(tree)[k].0
    {
      exists m :: FirstMissing(cmp, Items(), items, m) && HasBoth(Row(tree)[m].0)
    }

    /** What the fields of an entry's node say about its children, the tree says too. */
    lemma TwoChildren(n: Node<T>, k: nat)
      requires Valid() && IsEntry(n, k)
      ensures HasBoth(n) == BothLinked(n) == TwoAt(tree, k)
    {
      hide At, Synced, Good, IsBlack, TwoAt;
      var c, t := FocusEntry(n, k);
      BothThere(n, c, t);
      FocusIs(c, t);
    }

    /** `coset_intersect`, up to the first deletion that frees the node saved in
        `next`; the program would go on from there.  Without such a deletion it
        keeps just the elements that the other set finds, by its own comparison. */
    method Intersect(other: Set<T>) returns (ok: bool, ghost dangling: Node?<T>)
      requires Valid() && other.Valid() && Apart(other)
      modifies this`mem, this`root, this`size, this`tree, mem.Keys
      ensures Valid() && mem.Keys <= old(mem.Keys) && other.Valid() && other.tree == old(other.tree)
      ensures ok <==> old(SafeFrom(other.compare, other.Items(), 0))
      ensures ok ==> Items() == Kept(other.compare, other.Items(), old(Items()))
      ensures ok && other.compare == compare ==>
                forall y :: Has(compare, Items(), y) <==>
                              old(Has(compare, Items(), y)) && Has(compare, other.Items(), y)
      ensures !ok ==> dangling != null && dangling in old(mem) && dangling !in mem
      ensures OnlyEndsMissing(other.compare, old(Items()), other.Items()) ==> ok
      ensures old(FirstMissingHasBoth(other.compare, other.Items())) ==> !ok
    {
      hide Valid, Has, SafeFrom, OnlyEndsMissing, FirstMissingHasBoth, Kept, TotalOrder;
      EndsAreSafe(other.compare, other.Items());
      FirstMissingIsUnsafe(other.compare, other.Items());
      other.OrderIs();
      KeptIsIntersection(other.compare, other.Items(), Items());
      ok, dangling := Sift(other);
    }

    /** The loop of `coset_intersect`. */
    method Sift(other: Set<T>) returns (ok: bool, ghost dangling: Node?<T>)
      requires Valid() && other.Valid() && Apart(other)
      modifies this`mem, this`root, this`size, this`tree, mem.Keys
      ensures Valid() && mem.Keys <= old(mem.Keys) && other.Valid() && other.tree == old(other.tree)
      ensures ok <==> old(SafeFrom(other.compare, other.Items(), 0))
      ensures ok ==> Items() == Kept(other.compare, other.Items(), old(Items()))
      ensures !ok ==> dangling != null && dangling in old(mem) && dangling !in mem
    {
      hide Valid, Has, Sifted, SafeFrom, Kept, Data, Row, Reached, IsEntry, Apart, Items;
      ghost var was, cmp, items, i, j := Items(), other.compare, other.Items(), 0, 0;
      ghost var safe := SafeFrom(cmp, items, 0);
      var curr := Begin();
      SiftStarts(cmp, items);
      while curr != null
        invariant Valid() && other.Valid() && Apart(other) && mem.Keys <= old(mem.Keys)
        invariant other.tree == old(other.tree) && Reached(curr, i) && Sifted(was, cmp, items, i, j)
        invariant SafeFrom(cmp, items, i) == safe
        decreases |was| - j
      {
        EntryIs(curr, i);
        SiftedHead(was, cmp, items, i, j);
        ghost var k;
        var next, dangles;
        next, dangles, k := IntersectStep(other, curr, was, i, j);
        if dangles {
          return false, next;
        }
        i, j := k, j + 1;
        curr := next;
      }
      NothingAhead(cmp, items, i);
      SiftEnds(was, cmp, items, i, j);
      return true, null;
    }

    lemma NothingAhead(cmp: (T, T) -> int, items: seq<T>, i: nat)
      requires Valid() && Reached(null, i)
      ensures SafeFrom(cmp, items, i) && i >= |Items()|
    {
    }

    /** One round of the loop of `coset_intersect`; `next` is freed exactly when an
        element goes whose node has two children. */
    method IntersectStep(other: Set<T>, curr: Node<T>, ghost was: seq<T>, ghost i: nat, ghost j: nat)
      returns (next: Node?<T>, dangles: bool, ghost k: nat)
      requires Valid() && other.Valid() && Apart(other) && IsEntry(curr, i)
      requires j < |was| && Items()[i] == was[j] && Sifted(was, other.compare, other.Items(), i, j)
      modifies this`mem, this`root, this`size, this`tree, mem.Keys
      ensures Valid() && mem.Keys <= old(mem.Keys) && other.Valid() && other.tree == old(other.tree)
              && other.mem == old(other.mem) && Apart(other)
      ensures dangles ==> next != null && next in old(mem) && next !in mem
      ensures dangles ==> !old(SafeFrom(other.compare, other.Items(), i))
      ensures !dangles ==> Reached(next, k) && Sifted(was, other.compare, other.Items(), k, j + 1)
      ensures !dangles ==> SafeFrom(other.compare, other.Items(), k) == old(SafeFrom(other.compare, other.Items(), i))
    {
      hide Valid, Has, Sifted, HasBoth, TotalOrder, BothLinked, SafeFrom, TwoAt, RemovedEntry;
      next := Next(curr, i);
      EntryData(curr, i);
      if next != null { NextIsThere(next, i + 1); }
      OrderIs();
      if other == this { FoundAt(compare, Items(), i); }
      dangles, k := false, i;
      var found := other.Exist(curr.data);
      if !found {
        TwoChildren(curr, i);
        dangles := HasBoth(curr);
        SiftAway(other, curr, next, was, i, j);
      } else {
        SafeStep(other.compare, other.Items(), i);
        SiftKeeps(was, other.compare, other.Items(), i, j);
        k := i + 1;
      }
    }

    /** The same round, for an element that the other set does not find. */
    method SiftAway(other: Set<T>, curr: Node<T>, ghost next: Node?<T>, ghost was: seq<T>, ghost i: nat, ghost j: nat)
      requires Valid() && other.Valid() && other != this && Apart(other) && IsEntry(curr, i) && Reached(next, i + 1)
      requires j < |was| && Items()[i] == was[j] && Sifted(was, other.compare, other.Items(), i, j)
      requires !Has(other.compare, other.Items(), was[j])
      modifies this`mem, this`root, this`size, this`tree, mem.Keys
      ensures Valid() && mem.Keys <= old(mem.Keys) && other.Valid() && other.tree == old(other.tree)
              && other.mem == old(other.mem)
      ensures old(TwoAt(tree, i)) ==> next != null && next !in mem && !old(SafeFrom(other.compare, other.Items(), i))
      ensures !old(TwoAt(tree, i)) ==> Reached(next, i) && Sifted(was, other.compare, other.Items(), i, j + 1)
      ensures !old(TwoAt(tree, i)) ==>
                SafeFrom(other.compare, other.Items(), i) == old(SafeFrom(other.compare, other.Items(), i))
    {
      hide Valid, Has, Sifted, RowWithout, TotalOrder, BothLinked, SafeFrom, TwoAt, RemovedEntry;
      ghost var cmp, items, row, before := other.compare, other.Items(), Row(tree), Items();
      SiftedIs(was, cmp, items, i, j);
      SafeStep(cmp, items, i);
      ghost var two := SiftOut(other, curr, i);
      SiftDrops(was, cmp, items, i, j, before);
      SavedNode(row, i, two, next);
      SafeIs(cmp, items, i);
    }

    /** What safety at entry `i` comes to once that entry is kept or deleted. */
    lemma SafeStep(cmp: (T, T) -> int, items: seq<T>, i: nat)
      requires Valid() && i < |Row(tree)|
      ensures Good(tree) && IsBlack(tree)
      ensures if Has(cmp, items, Items()[i]) then SafeFrom(cmp, items, i) == SafeFrom(cmp, items, i + 1)
              else if TwoAt(tree, i) then !SafeFrom(cmp, items, i)
              else
                && Good(RemovedEntry(tree, i)) && IsBlack(RemovedEntry(tree, i))
                && SafeFrom(cmp, items, i) == Survives(cmp, items, RemovedEntry(tree, i), i)
    {
      hide Good, IsBlack, TwoAt, RemovedEntry, Has, At, Synced, TotalOrder, Sorted;
      RemovedEntryIs(tree, i);
    }

    lemma SafeIs(cmp: (T, T) -> int, items: seq<T>, i: nat)
      requires Valid()
      ensures Good(tree) && IsBlack(tree) && SafeFrom(cmp, items, i) == Survives(cmp, items, tree, i)
    {
    }

    // ---- when intersecting is safe ---------------------------------------------------

    /** Nothing is freed too early when only the ends are missing, so also when nothing is ... */
    lemma EndsAreSafe(cmp: (T, T) -> int, items: seq<T>)
      requires Valid()
      ensures OnlyEndsMissing(cmp, Items(), items) ==> SafeFrom(cmp, items, 0)
    {
      hide At, Synced, Good, IsBlack, OnlyEndsMissing;
      if OnlyEndsMissing(cmp, Items(), items) { EndsSurvive(cmp, items, tree, 0); }
    }

    /** ... and something is when the first missing element has two children. */
    lemma FirstMissingIsUnsafe(cmp: (T, T) -> int, items: seq<T>)
      requires Valid()
      ensures FirstMissingHasBoth(cmp, items) ==> !SafeFrom(cmp, items, 0)
    {
      if FirstMissingHasBoth(cmp, items) {
        hide At, Synced, Good, IsBlack, Has, HasBoth, TwoAt;
        var m :| FirstMissing(cmp, Items(), items, m) && HasBoth(Row(tree)[m].0);
        TwoChildren(Row(tree)[m].0, m);
        FirstMissingEndsIt(cmp, items, tree, 0, m);
      }
    }

    /** In a set of three or more, the root is missing first from everything else. */
    lemma WithoutRoot(items: seq<T>)
      requires Valid() && size >= 3
      requires forall y :: Has(compare, items, y) <==> Has(compare, Items(), y) && compare(y, root.data) != 0
      ensures root in mem && FirstMissingHasBoth(compare, items)
    {
      hide At, Synced, Has, TotalOrder, Sorted, FirstMissing, HasBoth;
      RootHasBoth(tree);
      LookHere(mem, root, Top, tree, nil);
      Look(root);
      BothThere(root, Top, tree);
      var m := |Row(tree.left)|;
      assert Row(tree)[m] == (root, root.data);
      FirstToMiss(items, m);
    }

    lemma FirstToMiss(items: seq<T>, m: nat)
      requires TotalOrder(compare) && Sorted(compare, Items()) && m < |Items()|
      requires forall y :: Has(compare, items, y) <==> Has(compare, Items(), y) && compare(y, Items()[m]) != 0
      ensures FirstMissing(compare, Items(), items, m)
    {
      hide Has;
      EqualToItself(compare, Items()[m]);
      forall k | 0 <= k < m ensures Has(compare, items, Items()[k]) {
        FoundAt(compare, Items(), k);
      }
    }

    lemma SizeIs()
      requires Valid()
      ensures size == |Items()| == |Row(tree)|
    {
    }

    /** All elements but the root's, as a row. */
    lemma RowWithoutRoot() returns (items: seq<T>)
      requires Valid() && size >= 3
      ensures Sorted(compare, items) && FirstMissingHasBoth(compare, items)
      ensures items == Data(Row(tree.left)) + Data(Row(tree.right))
    {
      hide At, Synced, Has, TotalOrder, Sorted, FirstMissingHasBoth;
      LookHere(mem, root, Top, tree, nil);
      Look(root);
      var a, d, b := Data(Row(tree.left)), root.data, Data(Row(tree.right));
      DataAround(Row(tree.left), root, d, Row(tree.right));
      items := a + b;
      EqualToItself(compare, d);
      RemoveInPlace(compare, a, d, b, d);
      WithoutRoot(items);
    }

    lemma SmallIsSafe(cmp: (T, T) -> int, items: seq<T>)
      requires Valid() && size <= 2
      ensures SafeFrom(cmp, items, 0) && !FirstMissingHasBoth(cmp, items)
    {
      FirstMissingIsUnsafe(cmp, items);
      hide At, Synced, Good, IsBlack, FirstMissingHasBoth;
      SmallSurvives(cmp, items, tree, 0);
    }

    /** Intersecting is safe whatever the other set holds and however it compares,
        exactly for at most two elements. */
    lemma SafeWithEverySet()
      requires Valid()
      ensures size <= 2 <==> forall cmp, items | TotalOrder(cmp) && Sorted(cmp, items) :: SafeFrom(cmp, items, 0)
      ensures size <= 2 <==> forall items | Sorted(compare, items) :: !FirstMissingHasBoth(compare, items)
      ensures size <= 2 <==> forall items | Sorted(compare, items) :: OnlyEndsMissing(compare, Items(), items)
    {
      hide Valid, Has, Sorted, TotalOrder, FirstMissingHasBoth, SafeFrom;
      OrderIs();
      if size >= 3 {
        var items := RowWithoutRoot();
        FirstMissingIsUnsafe(compare, items);
        EndsAreSafe(compare, items);
      } else {
        SizeIs();
        forall cmp, items | TotalOrder(cmp) && Sorted(cmp, items) ensures SafeFrom(cmp, items, 0) {
          SmallIsSafe(cmp, items);
        }
        forall items ensures !FirstMissingHasBoth(compare, items) { SmallIsSafe(compare, items); }
      }
    }

    /** A set of three or more, intersected with all its elements but the root's. */
    method IntersectUnsafely() returns (other: Set<T>, ok: bool)
      requires Valid() && size >= 3
      modifies this`mem, this`root, this`size, this`tree, mem.Keys
      ensures fresh(other) && other.Valid() && other.compare == compare && !ok
      ensures forall y :: Has(compare, other.Items(), y) <==>
                            old(Has(compare, Items(), y)) && compare(y, old(root.data)) != 0
    {
      hide Valid, Has, HasBoth, FirstMissingHasBoth, OnlyEndsMissing, SafeFrom;
      var d := root.data;
      ghost var k, two, dangling, was := 0, false, root, Items();
      OrderIs();
      HasEmpty();
      other := new Set(compare, d);
      other.Union(this);
      k, two := other.Delete(d);
      WithoutRoot(other.Items());
      ok, dangling := Intersect(other);
    }

    /** Of three elements, the root holds the second. */
    lemma WithoutSecond(items: seq<T>)
      requires Valid() && size == 3 && items == [Items()[0], Items()[2]]
      ensures FirstMissingHasBoth(compare, items)
    {
      hide At, Synced, TotalOrder, Sorted, FirstMissingHasBoth;
      RootHasBoth(tree);
      var others := RowWithoutRoot();
      assert items == others;
    }

    lemma HasEmpty()
      ensures forall y :: !Has(compare, [], y)
    {
    }
  }

  // ---- an example --------------------------------------------------------------------

  function Difference(a: int, b: int): int { a - b }

  ghost predicate IsSetOf(s: Set<int>, items: seq<int>)
    reads s, s.mem.Keys
  {
    s.Valid() && s.compare == Difference && s.Items() == items
  }

  method NewSet() returns (s: Set<int>)
    ensures IsSetOf(s, []) && fresh(s) && fresh(s.mem.Keys)
  {
    s := new Set(Difference, 0);
  }

  /** Adds an element beyond all others. */
  method AddLast(s: Set<int>, x: int, ghost items: seq<int>)
    requires IsSetOf(s, items) && forall i :: 0 <= i < |items| ==> items[i] < x
    modifies s`mem, s`root, s`size, s`tree, s.mem.Keys
    ensures IsSetOf(s, items + [x]) && fresh(s.mem.Keys - old(s.mem.Keys))
  {
    hide Set.Valid, Has;
    NotAmong(items, x);
    ghost var k := s.Add(x);
    Ascending(s, k, k + 1);
    PutInside(items, x, k);
  }

  lemma PutInside(items: seq<int>, x: int, k: nat)
    ensures k < |items| ==>
              (items[..k] + [x] + items[k..])[k] == x && (items[..k] + [x] + items[k..])[k + 1] == items[k]
  {
  }

  lemma NotAmong(items: seq<int>, x: int)
    requires forall i :: 0 <= i < |items| ==> items[i] < x
    ensures !Has(Difference, items, x)
  {
  }

  lemma Ascending(s: Set<int>, i: nat, j: nat)
    requires s.Valid() && s.compare == Difference
    ensures i < j < |s.Items()| ==> s.Items()[i] < s.Items()[j]
  {
    hide At, Set.Synced, Good, IsBlack, Data;
    assert i < j < |s.Items()| ==> Difference(s.Items()[i], s.Items()[j]) < 0;
  }

  method Pair(x: int, y: int) returns (s: Set<int>)
    requires x < y
    ensures IsSetOf(s, [x, y]) && fresh(s) && fresh(s.mem.Keys)
  {
    hide IsSetOf;
    s := NewSet();
    assert [] + [x] == [x] && [x] + [y] == [x, y];
    AddLast(s, x, []);
    AddLast(s, y, [x]);
  }

  method IntersectSets(three: Set<int>, two: Set<int>) returns (ok: bool)
    requires IsSetOf(three, [1, 2, 3]) && IsSetOf(two, [1, 3]) && three != two && three.mem.Keys !! two.mem.Keys
    modifies three`mem, three`root, three`size, three`tree, three.mem.Keys
    ensures !ok
  {
    hide Set.Valid, Set.FirstMissingHasBoth, Set.SafeFrom, OnlyEndsMissing, Has;
    three.SizeIs();
    three.WithoutSecond(two.Items());
    ghost var dangling;
    ok, dangling := three.Intersect(two);
  }

  /** A set of one element minus itself. */
  method OneMinusItself() returns (ok: bool)
    ensures !ok
  {
    hide Set.Valid;
    var one := NewSet();
    AddLast(one, 1, []);
    assert one.Items() == [1];
    one.SizeIs();
    ghost var dangling;
    ok, dangling := one.Minus(one);
  }

  /** 1, 2 and 3 intersected with 1 and 3. */
  method OneTwoThree() returns (ok: bool)
    ensures !ok
  {
    hide IsSetOf;
    var three := Pair(1, 2);
    AddLast(three, 3, [1, 2]);
    assert [1, 2] + [3] == [1, 2, 3];
    var two := Pair(1, 3);
    ok := IntersectSets(three, two);
  }
}
