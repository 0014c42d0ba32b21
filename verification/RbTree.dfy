/** lib/libhv/base/rbtree.c: the pointer operations, on the node objects themselves. */
module RbTree {
  import opened RbShape
  import opened RbBalance
  import opened RbErasing

  class RbRoot {
    var root: RbNode?
    ghost var nodes: set<RbNode>
    ghost var rank: Ranks
    ghost var tree: Tree

    /** The nodes form a red-black tree with consistent links. */
    ghost predicate Valid()
      reads this, nodes
    {
      Holds(Top, tree) && RedBlack(tree)
    }

    constructor ()
      ensures Valid() && InOrder(tree) == [] && nodes == {}
    {
      root, nodes, rank, tree := null, {}, map[], Leaf;
    }

    ghost function Snapshot(): Mem
      reads this, nodes
    {
      map n | n in nodes :: Rec(n.parent, n.left, n.right, n.color)
    }

    /** The nodes in memory are `t` standing in the hole of `c`. */
    ghost predicate Holds(c: Ctx, t: Tree)
      reads this, nodes
    {
      Shows(Snapshot(), rank, root, c, t)
    }

    method RotateLeft(node: RbNode, ghost c: Ctx, ghost t: Tree)
      requires CanRotate(Left, t) && t.node == node && Holds(c, t)
      modifies this`root, nodes`parent, nodes`left, nodes`right
      ensures Holds(c, Rotated(Left, t))
    {
      ghost var m := Snapshot();
      RotateLeftParts(m, rank, root, c, t);
      var right := node.right;
      node.right := right.left;
      if node.right != null {
        right.left.parent := node;
      }
      right.left := node;

      right.parent := node.parent;
      if right.parent != null {
        if node == node.parent.left {
          node.parent.left := right;
        } else {
          node.parent.right := right;
        }
      } else {
        root := right;
      }
      node.parent := right;
      RotateLeftShows(m, Snapshot(), rank, old(root), root, c, t);
    }

    method RotateRight(node: RbNode, ghost c: Ctx, ghost t: Tree)
      requires CanRotate(Right, t) && t.node == node && Holds(c, t)
      modifies this`root, nodes`parent, nodes`left, nodes`right
      ensures Holds(c, Rotated(Right, t))
    {
      ghost var m := Snapshot();
      RotateRightParts(m, rank, root, c, t);
      var left := node.left;
      node.left := left.right;
      if node.left != null {
        left.right.parent := node;
      }
      left.right := node;

      left.parent := node.parent;
      if left.parent != null {
        if node == node.parent.right {
          node.parent.right := left;
        } else {
          node.parent.left := left;
        }
      } else {
        root := left;
      }
      node.parent := left;
      RotateRightShows(m, Snapshot(), rank, old(root), root, c, t);
    }

    /** `n->rb_color = col`, seen from the tree. */
    method SetColor(n: RbNode, col: Color, ghost c: Ctx, ghost t: Tree)
      requires t.Branch? && t.node == n && Holds(c, t)
      modifies nodes`color
      ensures Holds(c, Paint(t, col)) && n.color == col
      ensures forall x :: x in nodes && x != n ==> x.color == old(x.color)
    {
      ghost var m := Snapshot();
      n.color := col;
      assert Snapshot() == m[n := m[n].(color := col)];
      PaintShows(m, Snapshot(), rank, root, c, t, col);
    }

    /** The red-uncle case of `rb_insert_color`, the same three writes on either side. */
    method RecolorFamily(uncle: RbNode, parent: RbNode, gparent: RbNode, ghost s1: Side, ghost sib: Tree,
                         ghost s2: Side, ghost unc: Tree, ghost o: Ctx, ghost t: Tree)
      requires unc.Branch? && unc.node == uncle
      requires Holds(Up(s1, parent, Red, sib, Up(s2, gparent, Black, unc, o)), t)
      modifies nodes`color
      ensures Holds(o, Br(s2, Br(s1, t, parent, Black, sib), gparent, Red, Paint(unc, Black)))
    {
      ghost var p, unc' := Br(s1, t, parent, Red, sib), Paint(unc, Black);
      Refocus(Snapshot(), rank, root, s1, parent, Red, sib, Up(s2, gparent, Black, unc, o), t);
      Refocus(Snapshot(), rank, root, s2, gparent, Black, unc, o, p);
      Refocus(Snapshot(), rank, root, s2.Other(), gparent, Black, p, o, unc);
      SetColor(uncle, Black, Up(s2.Other(), gparent, Black, p, o), unc);
      Refocus(Snapshot(), rank, root, s2.Other(), gparent, Black, p, o, unc');
      Refocus(Snapshot(), rank, root, s2, gparent, Black, unc', o, p);
      SetColor(parent, Black, Up(s2, gparent, Black, unc', o), p);
      Refocus(Snapshot(), rank, root, s2, gparent, Black, unc', o, Paint(p, Black));
      SetColor(gparent, Red, o, Br(s2, Paint(p, Black), gparent, Black, unc'));
    }

    /** `parent->rb_color = RB_BLACK; gparent->rb_color = RB_RED;` and the rotation of `gparent`. */
    method RaiseParent(side: Side, parent: RbNode, gparent: RbNode, ghost sib: Tree, ghost unc: Tree, ghost o: Ctx,
            ghost t: Tree)
      requires Holds(Up(side, parent, Red, sib, Up(side, gparent, Black, unc, o)), t)
      modifies this`root, nodes`parent, nodes`left, nodes`right, nodes`color
      ensures Holds(Up(side, parent, Black, Br(side, sib, gparent, Red, unc), o), t)
    {
      ghost var p := Br(side, t, parent, Red, sib);
      ghost var p' := Paint(p, Black);
      Refocus(Snapshot(), rank, root, side, parent, Red, sib, Up(side, gparent, Black, unc, o), t);
      SetColor(parent, Black, Up(side, gparent, Black, unc, o), p);
      Refocus(Snapshot(), rank, root, side, gparent, Black, unc, o, p');
      SetColor(gparent, Red, o, Br(side, p', gparent, Black, unc));
      RotatedBr(side.Other(), unc, gparent, Red, sib, parent, Black, t);
      Rotate(side.Other(), gparent, o, Br(side, p', gparent, Red, unc));
      Refocus(Snapshot(), rank, root, side, parent, Black, Br(side, sib, gparent, Red, unc), o, t);
    }

    /** The body of the loop of `rb_insert_color`; `side` says which child of `gparent` the parent is,
        and with it which of the two mirrored branches runs. */
    method InsertSide(side: Side, n: RbNode, parent: RbNode, gparent: RbNode, ghost c: Ctx, ghost t: Tree, ghost h: nat)
      returns (next: RbNode, ghost c': Ctx, ghost t': Tree, ghost h': nat)
      requires Holds(c, t) && Inserting(c, t, h) && t.node == n
      requires c.Up? && c.color == Red && c.node == parent
      requires c.outer.node == gparent && c.outer.side == side
      modifies this`root, nodes`parent, nodes`left, nodes`right, nodes`color
      ensures Holds(c', t') && Inserting(c', t', h') && t'.node == next
      ensures Around(c', InOrder(t')) == Around(c, InOrder(t))
      ensures Depth(c') < Depth(c)
    {
      ghost var o, unc := c.outer.outer, c.outer.sib;
      FamilyParts(Snapshot(), rank, root, c, t);
      var uncle := Child(gparent, side.Other());
      if uncle != null && uncle.color == Red {
        InsertRecolor(c.side, parent, c.sib, side, gparent, unc, o, t, h);
        RecolorFamily(uncle, parent, gparent, c.side, c.sib, side, unc, o, t);
        c', t', h' := o, Br(side, Br(c.side, t, parent, Black, c.sib), gparent, Red, Paint(unc, Black)), h + 1;
        next := gparent;
      } else {
        next, c', t' := InsertBlackUncle(side, n, parent, gparent, c, t, h);
        h' := h;
      }
    }

    method InsertBlackUncle(side: Side, n: RbNode, parent: RbNode, gparent: RbNode, ghost c: Ctx, ghost t: Tree,
            ghost h: nat)
      returns (next: RbNode, ghost c': Ctx, ghost t': Tree)
      requires Holds(c, t) && Inserting(c, t, h) && t.node == n
      requires c.Up? && c.color == Red && c.node == parent
      requires c.outer.node == gparent && c.outer.side == side && !IsRed(c.outer.sib)
      modifies this`root, nodes`parent, nodes`left, nodes`right, nodes`color
      ensures Holds(c', t') && Inserting(c', t', h) && t'.node == next
      ensures Around(c', InOrder(t')) == Around(c, InOrder(t))
      ensures Depth(c') < Depth(c)
    {
      next, c', t' := n, c, t;
      var p := parent;
      FocusParts(Snapshot(), rank, root, c, t);
      if Child(p, side.Other()) == next {
        c', t' := Straighten(side, n, p, c, t, h);
        p, next := next, p;
      }
      ghost var o, unc := c.outer.outer, c.outer.sib;
      InsertRotate(side, p, c'.sib, gparent, unc, o, t', h);
      RaiseParent(side, p, gparent, c'.sib, unc, o, t');
      c' := Up(side, p, Black, Br(side, c'.sib, gparent, Red, unc), o);
    }

    /** The first rotation of `rb_insert_color`, which turns an inner grandchild into an outer one. */
    method Straighten(side: Side, n: RbNode, parent: RbNode, ghost c: Ctx, ghost t: Tree, ghost h: nat)
      returns (ghost c': Ctx, ghost t': Tree)
      requires Holds(c, t) && Inserting(c, t, h) && t.node == n
      requires c.Up? && c.color == Red && c.node == parent && c.side == side.Other()
      modifies this`root, nodes`parent, nodes`left, nodes`right
      ensures Holds(c', t') && Inserting(c', t', h) && t'.node == parent
      ensures c'.Up? && c'.side == side && c'.color == Red && c'.node == n && c'.outer == c.outer
      ensures Around(c', InOrder(t')) == Around(c, InOrder(t))
    {
      ghost var a := if side == Left then t.left else t.right;
      ghost var b := if side == Left then t.right else t.left;
      InsertStraighten(side, parent, c.sib, c.outer, n, a, b, h);
      Refocus(Snapshot(), rank, root, side.Other(), parent, Red, c.sib, c.outer, t);
      RotatedBr(side, c.sib, parent, Red, a, n, Red, b);
      Rotate(side, parent, c.outer, Br(side, c.sib, parent, Red, t));
      c', t' := Up(side, n, Red, b, c.outer), Br(side, c.sib, parent, Red, a);
      Refocus(Snapshot(), rank, root, side, n, Red, b, c.outer, t');
    }

    method InsertStep(n: RbNode, ghost c: Ctx, ghost t: Tree, ghost h: nat)
      returns (next: RbNode, ghost c': Ctx, ghost t': Tree, ghost h': nat)
      requires Holds(c, t) && Inserting(c, t, h) && t.node == n
      requires c.Up? && c.color == Red && c.node == n.parent
      modifies this`root, nodes`parent, nodes`left, nodes`right, nodes`color
      ensures Holds(c', t') && Inserting(c', t', h') && t'.node == next && next in nodes
      ensures next.parent == ParentOf(c') && (c'.Up? ==> c'.node in nodes && c'.node.color == c'.color)
      ensures Around(c', InOrder(t')) == Around(c, InOrder(t))
      ensures Depth(c') < Depth(c)
    {
      var parent := n.parent;
      FamilyParts(Snapshot(), rank, root, c, t);
      var gparent := parent.parent;
      var side := if parent == gparent.left then Left else Right;
      next, c', t', h' := InsertSide(side, n, parent, gparent, c, t, h);
      FocusParts(Snapshot(), rank, root, c', t');
    }

    /** `rb_insert_color`: `node` is the freshly linked red node in focus. */
    method InsertColor(node: RbNode, ghost c: Ctx, ghost t: Tree, ghost h: nat) returns (ghost whole: Tree)
      requires Holds(c, t) && Inserting(c, t, h) && t.node == node
      modifies this`root, nodes`parent, nodes`left, nodes`right, nodes`color
      ensures Holds(Top, whole) && RedBlack(whole)
      ensures InOrder(whole) == Around(c, InOrder(t))
    {
      var n := node;
      ghost var c', t', h' := c, t, h;
      FocusParts(Snapshot(), rank, root, c', t');
      while n.parent != null && n.parent.color == Red
        invariant Holds(c', t') && Inserting(c', t', h') && t'.node == n && n in nodes
        invariant n.parent == ParentOf(c') && (c'.Up? ==> c'.node in nodes && c'.node.color == c'.color)
        invariant Around(c', InOrder(t')) == Around(c, InOrder(t))
        decreases Depth(c')
      {
        n, c', t', h' := InsertStep(n, c', t', h');
      }
      whole := BlackenRoot(c', t', h');
    }

    /** `root->rb_node->rb_color = RB_BLACK`. */
    method BlackenRoot(ghost c: Ctx, ghost t: Tree, ghost h: nat) returns (ghost whole: Tree)
      requires Holds(c, t) && Inserting(c, t, h) && (c.Up? ==> c.color == Black)
      modifies nodes`color
      ensures Holds(Top, whole) && RedBlack(whole)
      ensures InOrder(whole) == Around(c, InOrder(t))
    {
      ghost var w := Plug(c, t);
      ShowsPlug(Snapshot(), rank, root, c, t);
      InOrderPlug(c, t);
      WholeRb(c, t, h);
      SetColor(root, Black, Top, w);
      whole := Paint(w, Black);
    }

    method Rotate(side: Side, node: RbNode, ghost c: Ctx, ghost t: Tree)
      requires CanRotate(side, t) && t.node == node && Holds(c, t)
      modifies this`root, nodes`parent, nodes`left, nodes`right
      ensures Holds(c, Rotated(side, t))
    {
      if side == Left {
        RotateLeft(node, c, t);
      } else {
        RotateRight(node, c, t);
      }
    }

    /** `rb_link_node`: `link` is the root link, or the `side` link of `parent`, and is null. */
    method LinkNode(node: RbNode, parent: RbNode?, side: Side, ghost c: Ctx)
      requires Holds(c, Leaf) && node !in nodes && ParentOf(c) == parent && (c.Up? ==> c.side == side)
      modifies this, node, nodes`left, nodes`right
      ensures Holds(c, Branch(Leaf, node, Red, Leaf))
      ensures nodes == old(nodes) + {node} && tree == old(tree)
    {
      hide Links, CtxLinks;
      ghost var m := Snapshot();
      FocusParts(m, rank, root, c, Leaf);
      node.parent := parent;
      node.color := Red;
      node.left, node.right := null, null;
      if parent == null {
        root := node;
      } else if side == Left {
        parent.left := node;
      } else {
        parent.right := node;
      }
      nodes := nodes + {node};
      rank := rank[node := (Low(rank, c) + High(rank, c)) / 2.0];
      LinkShows(m, Snapshot(), old(rank), rank, old(root), root, c, node);
    }

    /** `rb_link_node` at the place a search ended, then `rb_insert_color`. */
    method Insert(node: RbNode, parent: RbNode?, side: Side, ghost c: Ctx)
      requires Valid() && Plug(c, Leaf) == tree && node !in nodes
      requires ParentOf(c) == parent && (c.Up? ==> c.side == side)
      modifies this, node, nodes`parent, nodes`left, nodes`right, nodes`color
      ensures Valid() && nodes == old(nodes) + {node}
      ensures InOrder(tree) == Before(c) + [node] + After(c)
    {
      hide Shows, RedBlack, Inserting;
      ShowsPlug(Snapshot(), rank, root, c, Leaf);
      FreshLeaf(c, node);
      LinkNode(node, parent, side, c);
      ghost var t := Branch(Leaf, node, Red, Leaf);
      ghost var whole := InsertColor(node, c, t, 0);
      ghost var m := Snapshot();
      tree := whole;
      assert Snapshot() == m;
    }

    // -------------------------------------------------------------- __rb_erase_color

    /** `other->rb_color = no; parent->rb_color = np;` where `other` is the sibling of the focus. */
    method PaintPair(side: Side, parent: RbNode, other: RbNode, np: Color, no: Color, ghost cp: Color, ghost b: Tree,
                     ghost co: Color, ghost d: Tree, ghost out: Ctx, ghost t: Tree)
      requires Holds(Up(side, parent, cp, Br(side, b, other, co, d), out), t)
      modifies nodes`color
      ensures Holds(out, Br(side, t, parent, np, Br(side, b, other, no, d)))
    {
      hide CtxLinks, Links;
      ghost var q := Br(side, b, other, co, d);
      ghost var q' := Paint(q, no);
      Refocus(Snapshot(), rank, root, side, parent, cp, q, out, t);
      Refocus(Snapshot(), rank, root, side.Other(), parent, cp, t, out, q);
      SetColor(other, no, Up(side.Other(), parent, cp, t, out), q);
      Refocus(Snapshot(), rank, root, side.Other(), parent, cp, t, out, q');
      Refocus(Snapshot(), rank, root, side, parent, cp, q', out, t);
      SetColor(parent, np, out, Br(side, t, parent, cp, q'));
    }

    /** Red sibling. */
    method SiblingUp(side: Side, parent: RbNode, other: RbNode, ghost cp: Color, ghost b: Tree,
                     ghost d: Tree, ghost out: Ctx, ghost t: Tree)
      requires Holds(Up(side, parent, cp, Br(side, b, other, Red, d), out), t)
      modifies this`root, nodes`parent, nodes`left, nodes`right, nodes`color
      ensures Holds(Up(side, parent, Red, b, Up(side, other, Black, d, out)), t)
    {
      PaintPair(side, parent, other, Red, Black, cp, b, Red, d, out, t);
      RotatedBr(side, t, parent, Red, b, other, Black, d);
      Rotate(side, parent, out, Br(side, t, parent, Red, Br(side, b, other, Black, d)));
      Refocus(Snapshot(), rank, root, side, other, Black, d, out, Br(side, t, parent, Red, b));
      Refocus(Snapshot(), rank, root, side, parent, Red, b, Up(side, other, Black, d, out), t);
    }

    /** Near nephew red, far one black. */
    method NephewUp(side: Side, other: RbNode, near: RbNode, ghost p: RbNode, ghost cp: Color, ghost x: Tree,
            ghost y: Tree,
                    ghost d: Tree, ghost out: Ctx, ghost t: Tree)
      requires Holds(Up(side, p, cp, Br(side, Br(side, x, near, Red, y), other, Black, d), out), t)
      modifies this`root, nodes`parent, nodes`left, nodes`right, nodes`color
      ensures Holds(Up(side, p, cp, Br(side, x, near, Black, Br(side, y, other, Red, d)), out), t)
    {
      var opp := side.Other();
      ghost var f := Up(opp, p, cp, t, out);
      ghost var nt := Br(side, x, near, Red, y);
      Refocus(Snapshot(), rank, root, side, p, cp, Br(side, nt, other, Black, d), out, t);
      Refocus(Snapshot(), rank, root, opp, p, cp, t, out, Br(side, nt, other, Black, d));
      // seen from the far nephew, the near one is the sibling and `other` the parent
      Refocus(Snapshot(), rank, root, opp, other, Black, nt, f, d);
      Flip(side, x, near, Red, y);
      PaintPair(opp, other, near, Red, Black, Black, y, Red, x, f, d);
      ghost var q := Br(opp, d, other, Red, Br(opp, y, near, Black, x));
      RotatedBr(opp, d, other, Red, y, near, Black, x);
      Rotate(opp, other, f, q);
      ghost var q' := Br(side, x, near, Black, Br(side, y, other, Red, d));
      Flip(side, x, near, Black, Br(side, y, other, Red, d));
      Flip(side, y, other, Red, d);
      Refocus(Snapshot(), rank, root, opp, p, cp, t, out, q');
      Refocus(Snapshot(), rank, root, side, p, cp, q', out, t);
    }

    /** Far nephew red: the final rotation. */
    method FarNephew(side: Side, parent: RbNode, other: RbNode, far: RbNode, ghost b: Tree,
                     ghost d: Tree, ghost out: Ctx, ghost t: Tree)
      requires d.Branch? && d.node == far
      requires Holds(Up(side, parent, parent.color, Br(side, b, other, Black, d), out), t)
      modifies this`root, nodes`parent, nodes`left, nodes`right, nodes`color
      ensures Holds(out, Br(side, Br(side, t, parent, Black, b), other, old(parent.color), Paint(d, Black)))
    {
      var cp := parent.color;
      ghost var opp, d' := side.Other(), Paint(d, Black);
      PaintPair(side, parent, other, Black, cp, cp, b, Black, d, out, t);
      ghost var q := Br(side, b, other, cp, d);
      ghost var f := Up(opp, parent, Black, t, out);
      Refocus(Snapshot(), rank, root, opp, parent, Black, t, out, q);
      Refocus(Snapshot(), rank, root, opp, other, cp, b, f, d);
      SetColor(far, Black, Up(opp, other, cp, b, f), d);
      Refocus(Snapshot(), rank, root, opp, other, cp, b, f, d');
      Refocus(Snapshot(), rank, root, opp, parent, Black, t, out, Br(side, b, other, cp, d'));
      RotatedBr(side, t, parent, Black, b, other, cp, d');
      Rotate(side, parent, out, Br(side, t, parent, Black, Br(side, b, other, cp, d')));
    }

    /** The branch of `__rb_erase_color` for a black sibling `other`. */
    method EraseBlackSibling(side: Side, parent: RbNode, other: RbNode, ghost c: Ctx, ghost t: Tree, ghost h: nat)
      returns (done: bool, ghost c': Ctx, ghost t': Tree, ghost h': nat)
      requires Holds(c, t) && Erasing(c, t, h) && !IsRed(t)
      requires c.Up? && c.side == side && c.node == parent
      requires c.sib.Branch? && c.sib.node == other && c.sib.color == Black
      modifies this`root, nodes`parent, nodes`left, nodes`right, nodes`color
      ensures Holds(c', t')
      ensures !done ==> c' == c.outer && t'.Branch? && t'.node == parent && t'.color == c.color && Erasing(c', t', h')
      ensures !done ==> Around(c', InOrder(t')) == Around(c, InOrder(t))
      ensures done ==> c'.Top? && RedBlack(t') && InOrder(t') == Around(c, InOrder(t))
    {
      ghost var b := if side == Left then c.sib.left else c.sib.right;
      ghost var d := if side == Left then c.sib.right else c.sib.left;
      h' := h;
      SiblingParts(Snapshot(), rank, root, c, t);
      var near, far := Child(other, side), Child(other, side.Other());
      if (near == null || near.color == Black) && (far == null || far.color == Black) {
        done, c', t' := false, c.outer, Br(side, t, parent, c.color, Br(side, b, other, Red, d));
        h' := EraseBothBlack(side, parent, c.color, b, other, d, c.outer, t, h);
        Refocus(Snapshot(), rank, root, side, parent, c.color, c.sib, c.outer, t);
        Refocus(Snapshot(), rank, root, side.Other(), parent, c.color, t, c.outer, c.sib);
        SetColor(other, Red, Up(side.Other(), parent, c.color, t, c.outer), c.sib);
        Refocus(Snapshot(), rank, root, side.Other(), parent, c.color, t, c.outer, Paint(c.sib, Red));
        Refocus(Snapshot(), rank, root, side, parent, c.color, Paint(c.sib, Red), c.outer, t);
      } else {
        done := true;
        c', t' := EraseLast(side, parent, other, b, d, c, t, h);
      }
    }

    method EraseLast(side: Side, parent: RbNode, other: RbNode, ghost b: Tree, ghost d: Tree, ghost c: Ctx,
            ghost t: Tree, ghost h: nat)
      returns (ghost c': Ctx, ghost t': Tree)
      requires Holds(c, t) && Erasing(c, t, h) && !IsRed(t)
      requires c.Up? && c.side == side && c.node == parent
      requires c.sib == Br(side, b, other, Black, d) && (IsRed(b) || IsRed(d))
      modifies this`root, nodes`parent, nodes`left, nodes`right, nodes`color
      ensures Holds(c', t')
      ensures c'.Top? && RedBlack(t') && InOrder(t') == Around(c, InOrder(t))
    {
      var o := other;
      ghost var b', d', f := b, d, c;
      SiblingParts(Snapshot(), rank, root, c, t);
      var near, far := Child(other, side), Child(other, side.Other());
      if far == null || far.color == Black {
        ghost var x := if side == Left then b.left else b.right;
        ghost var y := if side == Left then b.right else b.left;
        EraseNearRed(side, parent, c.color, x, near, y, other, d, c.outer, t, h);
        NephewUp(side, other, near, parent, c.color, x, y, d, c.outer, t);
        f := Up(side, parent, c.color, Br(side, x, near, Black, Br(side, y, other, Red, d)), c.outer);
        b', d' := x, Br(side, y, other, Red, d);
        SiblingParts(Snapshot(), rank, root, f, t);
        o, far := Child(parent, side.Other()), other;
      }
      EraseFarRed(side, parent, f.color, b', o, d', f.outer, t, h);
      FarNephew(side, parent, o, far, b', d', f.outer, t);
      ghost var w := Br(side, Br(side, t, parent, Black, b'), o, f.color, Paint(d', Black));
      ShowsPlug(Snapshot(), rank, root, f.outer, w);
      c', t' := Top, Plug(f.outer, w);
    }

    /** The body of the loop of `__rb_erase_color`; `side` says which child of `parent` is short. */
    method EraseSide(side: Side, node: RbNode?, parent: RbNode, ghost c: Ctx, ghost t: Tree, ghost h: nat)
      returns (done: bool, ghost c': Ctx, ghost t': Tree, ghost h': nat)
      requires Holds(c, t) && Erasing(c, t, h) && !IsRed(t) && Root(t) == node
      requires c.Up? && c.side == side && c.node == parent
      modifies this`root, nodes`parent, nodes`left, nodes`right, nodes`color
      ensures Holds(c', t')
      ensures !done ==> t'.Branch? && t'.node == parent && Erasing(c', t', h') && EraseWork(c', t') < EraseWork(c, t)
      ensures !done ==> Around(c', InOrder(t')) == Around(c, InOrder(t))
      ensures done ==> c'.Top? && RedBlack(t') && InOrder(t') == Around(c, InOrder(t))
    {
      SiblingExists(c, t, h);
      SiblingParts(Snapshot(), rank, root, c, t);
      var other := Child(parent, side.Other());
      c' := c;
      if other.color == Red {
        ghost var b := if side == Left then c.sib.left else c.sib.right;
        ghost var d := if side == Left then c.sib.right else c.sib.left;
        EraseRedSibling(side, parent, c.color, b, other, d, c.outer, t, h);
        SiblingUp(side, parent, other, c.color, b, d, c.outer, t);
        c' := Up(side, parent, Red, b, Up(side, other, Black, d, c.outer));
        SiblingParts(Snapshot(), rank, root, c', t);
        other := Child(parent, side.Other());
      }
      done, c', t', h' := EraseBlackSibling(side, parent, other, c', t, h);
    }

    method EraseStep(node: RbNode?, parent: RbNode, ghost c: Ctx, ghost t: Tree, ghost h: nat)
      returns (done: bool, next: RbNode?, up: RbNode?, ghost c': Ctx, ghost t': Tree, ghost h': nat)
      requires Holds(c, t) && Erasing(c, t, h) && !IsRed(t) && Root(t) == node
      requires c.Up? && c.node == parent
      modifies this`root, nodes`parent, nodes`left, nodes`right, nodes`color
      ensures Holds(c', t') && Root(t') == next
      ensures !done ==> Erasing(c', t', h') && EraseWork(c', t') < EraseWork(c, t) && ParentOf(c') == up
      ensures !done ==> Around(c', InOrder(t')) == Around(c, InOrder(t))
      ensures done ==> c'.Top? && RedBlack(t') && InOrder(t') == Around(c, InOrder(t))
    {
      SiblingExists(c, t, h);
      SiblingParts(Snapshot(), rank, root, c, t);
      var side := if parent.left == node then Left else Right;
      done, c', t', h' := EraseSide(side, node, parent, c, t, h);
      FocusFacts(Snapshot(), rank, root, c', t');
      if done {
        next, up := root, null;
      } else {
        next, up := parent, parent.parent;
      }
    }

    /** `__rb_erase_color`: `node` (possibly null) below `parent` is one black node short. */
    method EraseColor(node: RbNode?, parent: RbNode?, ghost c: Ctx, ghost t: Tree, ghost h: nat)
      returns (ghost whole: Tree)
      requires Holds(c, t) && Erasing(c, t, h) && Root(t) == node && ParentOf(c) == parent
      modifies this`root, nodes`parent, nodes`left, nodes`right, nodes`color
      ensures Holds(Top, whole) && RedBlack(whole)
      ensures InOrder(whole) == Around(c, InOrder(t))
    {
      hide Links, CtxLinks;
      var n, p := node, parent;
      ghost var c', t', h' := c, t, h;
      var done := false;
      FocusFacts(Snapshot(), rank, root, c', t');
      while !done && (n == null || n.color == Black) && n != root
        invariant Holds(c', t') && Root(t') == n
        invariant t'.Branch? ==> t'.node in nodes && t'.node.color == t'.color
        invariant !done ==> ParentOf(c') == p && (n == root <==> c'.Top?)
        invariant !done ==> Erasing(c', t', h') && Around(c', InOrder(t')) == Around(c, InOrder(t))
        invariant done ==> c'.Top? && RedBlack(t') && InOrder(t') == Around(c, InOrder(t))
        decreases !done, EraseWork(c', t')
      {
        done, n, p, c', t', h' := EraseStep(n, p, c', t', h');
        FocusFacts(Snapshot(), rank, root, c', t');
      }
      whole := BlackenFocus(n, done, c', t', h');
    }

    /** `if (node) node->rb_color = RB_BLACK;` */
    method BlackenFocus(n: RbNode?, ghost done: bool, ghost c: Ctx, ghost t: Tree, ghost h: nat)
      returns (ghost whole: Tree)
      requires Holds(c, t) && Root(t) == n
      requires if done then c.Top? && RedBlack(t) else Erasing(c, t, h) && (IsRed(t) || c.Top?)
      modifies nodes`color
      ensures Holds(Top, whole) && RedBlack(whole)
      ensures InOrder(whole) == Around(c, InOrder(t))
    {
      ghost var t' := if t.Leaf? then Leaf else Paint(t, Black);
      if done {
        assert t' == t;
      } else {
        EraseDone(c, t, h);
      }
      if n != null {
        SetColor(n, Black, c, t);
      }
      ShowsPlug(Snapshot(), rank, root, c, t');
      whole := Plug(c, t');
    }

    // -------------------------------------------------------------- rb_erase

    /** Unlinking a node that has at most one child. */
    method Splice(node: RbNode, child: RbNode?, ghost c: Ctx, ghost t: Tree)
      requires t.Branch? && t.node == node && (t.left.Leaf? || t.right.Leaf?) && Holds(c, t)
      requires child == Root(OnlyChild(t))
      modifies this`root, nodes`parent, nodes`left, nodes`right
      ensures Holds(c, OnlyChild(t))
      ensures t.left.Leaf? && node in rank ==> Links(Snapshot(), rank, rank[node], t.right, High(rank, c), ParentOf(c))
      ensures node.parent == old(node.parent)
    {
      ghost var m := Snapshot();
      FocusParts(m, rank, root, c, t);
      ChildParts(m, rank, root, c, t);
      var parent := node.parent;
      if child != null {
        child.parent := parent;
      }
      if parent != null {
        if parent.left == node {
          parent.left := child;
        } else {
          parent.right := child;
        }
      } else {
        root := child;
      }
      SpliceShows(m, Snapshot(), rank, old(root), root, c, t);
    }

    /** The writes that put `succ`, already unlinked, in the place of `old_`. */
    method CopyLinks(old_: RbNode, succ: RbNode)
      requires {old_, succ} <= nodes && old_ != succ
      requires var l := old_.left; l != null && l in nodes && l != old_ && l != succ
      requires var r := old_.right; r != null ==> r in nodes && r != old_ && r != succ && r != old_.left
      requires var p := old_.parent; p != null ==>
          p in nodes && p != old_ && p != succ && p != old_.left && p != old_.right
      modifies this`root, nodes`parent, nodes`left, nodes`right, nodes`color
      ensures Snapshot()[succ] == old(Snapshot()[old_])
      ensures var l := old(old_.left); Snapshot()[l] == old(Snapshot())[l].(parent := succ)
      ensures var r := old(old_.right); r != null ==> Snapshot()[r] == old(Snapshot())[r].(parent := succ)
      ensures var p := old(old_.parent);
              p != null ==> Snapshot()[p] == (if old(old_.parent.left) == old_
                                              then old(Snapshot())[p].(left := succ)
                                              else old(Snapshot())[p].(right := succ))
      ensures root == if old(old_.parent) == null then succ else old(root)
      ensures forall n ::
                n in nodes && n != succ && n != old(old_.left) && n != old(old_.right) && n != old(old_.parent) ==>
                  Snapshot()[n] == old(Snapshot())[n]
    {
      succ.parent := old_.parent;
      succ.color := old_.color;
      succ.right := old_.right;
      succ.left := old_.left;
      if old_.parent != null {
        if old_.parent.left == old_ {
          old_.parent.left := succ;
        } else {
          old_.parent.right := succ;
        }
      } else {
        root := succ;
      }
      old_.left.parent := succ;
      if old_.right != null {
        old_.right.parent := succ;
      }
    }

    method Transplant(old_: RbNode, succ: RbNode, ghost inner: Ctx, ghost l: Tree, ghost c: Ctx, ghost t: Tree)
      requires LeftSpine(inner) && Holds(Below(inner, old_, old_.color, l, c), t) && l.Branch?
      requires succ in nodes && old_ in rank
          && Between(rank, rank[old_], succ, High(rank, Below(inner, old_, old_.color, l, c)))
      requires Links(Snapshot(), rank, rank[succ], t, High(rank, Below(inner, old_, old_.color, l, c)),
                     ParentOf(Below(inner, old_, old_.color, l, c)))
      modifies this`root, nodes`parent, nodes`left, nodes`right, nodes`color
      ensures Holds(Below(inner, succ, old(old_.color), l, c), t)
    {
      hide CtxLinks, High;
      ghost var m, col := Snapshot(), old_.color;
      SpineBounds(m, rank, root, inner, old_, col, l, c, Root(t));
      TransplantParts(m, rank, root, inner, old_, succ, col, l, c, t);
      CopyLinks(old_, succ);
      ReplaceShows(m, Snapshot(), rank, old(root), root, inner, old_, succ, col, l, c, t);
    }

    /** The code at the label `color` of `rb_erase`. */
    method RepairAfter(color: Color, child: RbNode?, parent: RbNode?, ghost c: Ctx, ghost t: Tree, ghost h: nat)
      returns (ghost whole: Tree)
      requires Holds(c, t) && Root(t) == child && ParentOf(c) == parent
      requires if color == Black then Erasing(c, t, h) else RedBlack(Plug(c, t))
      modifies this`root, nodes`parent, nodes`left, nodes`right, nodes`color
      ensures Holds(Top, whole) && RedBlack(whole) && InOrder(whole) == Around(c, InOrder(t))
    {
      if color == Black {
        whole := EraseColor(child, parent, c, t, h);
      } else {
        ShowsPlug(Snapshot(), rank, root, c, t);
        InOrderPlug(c, t);
        whole := Plug(c, t);
      }
    }

    /** `rb_erase` of a node with at most one child. */
    method EraseSimple(node: RbNode, child: RbNode?, ghost c: Ctx, ghost t: Tree) returns (ghost whole: Tree)
      requires t.Branch? && t.node == node && (t.left.Leaf? || t.right.Leaf?) && Holds(c, t)
      requires child == Root(OnlyChild(t)) && RedBlack(Plug(c, t))
      modifies this`root, nodes`parent, nodes`left, nodes`right, nodes`color
      ensures Holds(Top, whole) && RedBlack(whole)
      ensures RemovedAt(InOrder(Plug(c, t)), InOrder(whole), |Before(c)| + |InOrder(t.left)|, node)
    {
      ghost var t' := OnlyChild(t);
      ghost var h := SpliceRb(c, t);
      SpliceOrder(c, t);
      FocusParts(Snapshot(), rank, root, c, t);
      var parent, color := node.parent, node.color;
      Splice(node, child, c, t);
      whole := RepairAfter(color, child, parent, c, t', h);
    }

    /** The walk to the successor of `old_`: right once, then left as far as possible. */
    method Successor(old_: RbNode, ghost c: Ctx, ghost t: Tree) returns (node: RbNode, ghost inner: Ctx, ghost s: Tree)
      requires t.Branch? && t.node == old_ && t.right.Branch? && Holds(c, t)
      ensures LeftSpine(inner) && Holds(Below(inner, old_, t.color, t.left, c), s)
      ensures s.Branch? && s.node == node && s.left.Leaf?
      ensures Plug(Below(inner, old_, t.color, t.left, c), s) == Plug(c, t)
      ensures node == InOrder(t.right)[0]
    {
      inner, s := Top, t.right;
      FocusParts(Snapshot(), rank, root, c, t);
      node := old_.right;
      Refocus(Snapshot(), rank, root, Right, old_, t.color, t.left, c, s);
      FocusParts(Snapshot(), rank, root, Below(inner, old_, t.color, t.left, c), s);
      while node.left != null
        invariant LeftSpine(inner) && Holds(Below(inner, old_, t.color, t.left, c), s)
        invariant s.Branch? && s.node == node && node in nodes && node.left == Root(s.left)
        invariant Plug(Below(inner, old_, t.color, t.left, c), s) == Plug(c, t)
        invariant InOrder(t.right)[0] == InOrder(s)[0]
        decreases s
      {
        ghost var inner' := Up(Left, node, s.color, s.right, inner);
        Refocus(Snapshot(), rank, root, Left, node, s.color, s.right, Below(inner, old_, t.color, t.left, c), s.left);
        node := node.left;
        inner, s := inner', s.left;
        FocusParts(Snapshot(), rank, root, Below(inner, old_, t.color, t.left, c), s);
      }
    }

    /** `rb_erase` of a node with two children. */
    method EraseDouble(old_: RbNode, ghost c: Ctx, ghost t: Tree) returns (ghost whole: Tree)
      requires t.Branch? && t.node == old_ && t.left.Branch? && t.right.Branch? && Holds(c, t)
      requires RedBlack(Plug(c, t))
      modifies this`root, nodes`parent, nodes`left, nodes`right, nodes`color
      ensures Holds(Top, whole) && RedBlack(whole)
      ensures RemovedAt(InOrder(Plug(c, t)), InOrder(whole), |Before(c)| + |InOrder(t.left)|, old_)
    {
      hide Links, CtxLinks, RedBlack, LeftSpine, Below;
      ghost var l, col := t.left, t.color;
      var node, inner, s := Successor(old_, c, t);
      ghost var y := Below(inner, node, col, l, c);
      ghost var h := TransplantRb(inner, old_, col, l, c, s);
      TransplantOrder(inner, old_, col, l, c, s);
      var child, parent, color := ReplaceBySuccessor(old_, node, inner, col, l, c, s);
      whole := RepairAfter(color, child, parent, y, s.right, h);
    }

    method ReplaceBySuccessor(old_: RbNode, node: RbNode, ghost inner: Ctx, ghost col: Color, ghost l: Tree,
            ghost c: Ctx, ghost s: Tree)
      returns (child: RbNode?, parent: RbNode?, color: Color)
      requires LeftSpine(inner) && Holds(Below(inner, old_, col, l, c), s) && l.Branch?
      requires s.Branch? && s.node == node && s.left.Leaf?
      modifies this`root, nodes`parent, nodes`left, nodes`right, nodes`color
      ensures Holds(Below(inner, node, col, l, c), s.right)
      ensures child == Root(s.right) && color == s.color
      ensures parent == ParentOf(Below(inner, node, col, l, c))
    {
      child, parent, color := UnlinkSuccessor(old_, node, inner, col, l, c, s);
      if parent == old_ {
        parent := node;
      }
      Transplant(old_, node, inner, l, c, s.right);
    }

    method UnlinkSuccessor(old_: RbNode, node: RbNode, ghost inner: Ctx, ghost col: Color, ghost l: Tree, ghost c: Ctx,
            ghost s: Tree)
      returns (child: RbNode?, parent: RbNode?, color: Color)
      requires LeftSpine(inner) && Holds(Below(inner, old_, col, l, c), s)
      requires s.Branch? && s.node == node && s.left.Leaf?
      modifies this`root, nodes`parent, nodes`left, nodes`right
      ensures Holds(Below(inner, old_, col, l, c), s.right)
      ensures node in nodes && old_ in nodes && old_.color == col && old_ in rank
      ensures Between(rank, rank[old_], node, High(rank, Below(inner, old_, col, l, c)))
      ensures Links(Snapshot(), rank, rank[node], s.right, High(rank, Below(inner, old_, col, l, c)),
                    ParentOf(Below(inner, old_, col, l, c)))
      ensures child == Root(s.right) && color == s.color
      ensures parent == ParentOf(Below(inner, old_, col, l, c))
      ensures if inner.Top? then parent == old_ else parent == inner.node && parent != old_
    {
      ghost var x := Below(inner, old_, col, l, c);
      SpineBounds(Snapshot(), rank, root, inner, old_, col, l, c, node);
      SpineBelow(Snapshot(), rank, root, inner, old_, col, l, c, node);
      FocusParts(Snapshot(), rank, root, x, s);
      child, parent, color := node.right, node.parent, node.color;
      Splice(node, child, x, s);
    }

    method Erase(node: RbNode) returns (ghost at: nat)
      requires Valid() && node in InOrder(tree)
      modifies this, nodes`parent, nodes`left, nodes`right, nodes`color
      ensures Valid() && nodes == old(nodes) - {node} && rank == old(rank)
      ensures RemovedAt(old(InOrder(tree)), InOrder(tree), at, node) && node !in InOrder(tree)
    {
      ghost var c, t := Locate(Top, tree, node);
      ShowsPlug(Snapshot(), rank, root, c, t);
      LinksIncreasing(Snapshot(), rank, 0.0, tree, 1.0, null);
      FocusParts(Snapshot(), rank, root, c, t);
      at := |Before(c)| + |InOrder(t.left)|;
      ghost var whole;
      if node.left == null {
        whole := EraseSimple(node, node.right, c, t);
      } else if node.right == null {
        whole := EraseSimple(node, node.left, c, t);
      } else {
        whole := EraseDouble(node, c, t);
      }
      Forget(node, whole);
    }

    ghost method Forget(node: RbNode, whole: Tree)
      requires Holds(Top, whole) && RedBlack(whole) && node !in InOrder(whole)
      modifies this`tree, this`nodes
      ensures Valid() && tree == whole && nodes == old(nodes) - {node}
    {
      var m := Snapshot();
      tree := whole;
      nodes := nodes - {node};
      LinksInside(m, rank, 0.0, whole, 1.0, null);
      LinksOnNodes(m, Snapshot(), rank, rank, 0.0, whole, 1.0, null);
    }
  }

  function Child(n: RbNode, side: Side): RbNode?
    reads n
  {
    if side == Left then n.left else n.right
  }
}
