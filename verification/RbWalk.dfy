/** `rb_first`, `rb_next` and `rb_prev` of lib/libhv/base/rbtree.c: walking the sequence that the
    tree stands for, along its links. */
module RbWalk {
  import opened RbShape
  import opened RbBalance
  import opened RbErasing
  import opened RbTree

  /** Descends from `top` along the links on `side` to the outermost node of the subtree. */
  method Outermost(r: RbRoot, side: Side, top: RbNode, ghost c: Ctx, ghost t: Tree)
    returns (node: RbNode, ghost c': Ctx, ghost t': Tree)
    requires r.Holds(c, t) && t.Branch? && t.node == top
    ensures r.Holds(c', t') && t'.Branch? && t'.node == node
    ensures Plug(c', t') == Plug(c, t)
    ensures side == Left ==> t'.left.Leaf? && Before(c') == Before(c)
    ensures side == Right ==> t'.right.Leaf? && After(c') == After(c)
  {
    node, c', t' := top, c, t;
    FocusParts(r.Snapshot(), r.rank, r.root, c', t');
    while Child(node, side) != null
      invariant r.Holds(c', t') && t'.Branch? && t'.node == node && node in r.nodes
      invariant node.left == Root(t'.left) && node.right == Root(t'.right)
      invariant Plug(c', t') == Plug(c, t)
      invariant side == Left ==> Before(c') == Before(c)
      invariant side == Right ==> After(c') == After(c)
      decreases t'
    {
      ghost var sub := if side == Left then t'.left else t'.right;
      ghost var sib := if side == Left then t'.right else t'.left;
      Refocus(r.Snapshot(), r.rank, r.root, side, node, t'.color, sib, c', sub);
      node, c', t' := Child(node, side), Up(side, node, t'.color, sib, c'), sub;
      FocusParts(r.Snapshot(), r.rank, r.root, c', t');
    }
  }

  /** Climbs from `node` while it is the `side` child of its parent. */
  method Climb(r: RbRoot, side: Side, start: RbNode, ghost c: Ctx, ghost t: Tree)
    returns (parent: RbNode?, ghost c': Ctx, ghost t': Tree)
    requires r.Holds(c, t) && t.Branch? && t.node == start
    ensures r.Holds(c', t') && parent == ParentOf(c') && (c'.Up? ==> c'.side == side.Other())
    ensures Plug(c', t') == Plug(c, t)
    ensures side == Right ==> Before(c') + InOrder(t') == Before(c) + InOrder(t)
    ensures side == Left ==> InOrder(t') + After(c') == InOrder(t) + After(c)
  {
    var node := start;
    c', t' := c, t;
    FocusParts(r.Snapshot(), r.rank, r.root, c', t');
    while node.parent != null && node == Child(node.parent, side)
      invariant r.Holds(c', t') && t'.Branch? && t'.node == node && node in r.nodes
      invariant node.parent == ParentOf(c')
      invariant c'.Up? ==> c'.node in r.nodes && (Child(c'.node, side) == node <==> c'.side == side)
      invariant Plug(c', t') == Plug(c, t)
      invariant side == Right ==> Before(c') + InOrder(t') == Before(c) + InOrder(t)
      invariant side == Left ==> InOrder(t') + After(c') == InOrder(t) + After(c)
      decreases Depth(c')
    {
      Refocus(r.Snapshot(), r.rank, r.root, side, c'.node, c'.color, c'.sib, c'.outer, t');
      ClimbOrder(side, c'.node, c'.color, c'.sib, c'.outer, t');
      t', c' := Br(side, t', c'.node, c'.color, c'.sib), c'.outer;
      node := node.parent;
      FocusParts(r.Snapshot(), r.rank, r.root, c', t');
    }
    parent := node.parent;
  }

  lemma ClimbOrder(side: Side, n: RbNode, col: Color, sib: Tree, outer: Ctx, t: Tree)
    ensures var c, b := Up(side, n, col, sib, outer), Br(side, t, n, col, sib);
            && (side == Right ==> Before(outer) + InOrder(b) == Before(c) + InOrder(t))
            && (side == Left ==> InOrder(b) + After(outer) == InOrder(t) + After(c))
  {
    if side == Right {
      assert Before(outer) + (InOrder(sib) + [n] + InOrder(t)) == (Before(outer) + InOrder(sib) + [n]) + InOrder(t);
    } else {
      assert (InOrder(t) + [n] + InOrder(sib)) + After(outer) == InOrder(t) + ([n] + InOrder(sib) + After(outer));
    }
  }

  /** `rb_first`: the first node of the sequence. */
  method First(r: RbRoot) returns (n: RbNode?)
    requires r.Valid()
    ensures n == if InOrder(r.tree) == [] then null else InOrder(r.tree)[0]
  {
    n := r.root;
    FocusParts(r.Snapshot(), r.rank, r.root, Top, r.tree);
    if n == null {
      return;
    }
    ghost var c, t;
    n, c, t := Outermost(r, Left, n, Top, r.tree);
    InOrderPlug(c, t);
  }

  /** Every node stands in the sequence once. */
  lemma StandsOnce(r: RbRoot)
    requires r.Valid()
    ensures forall i, j :: 0 <= i < j < |InOrder(r.tree)| ==> InOrder(r.tree)[i] != InOrder(r.tree)[j]
  {
    LinksIncreasing(r.Snapshot(), r.rank, 0.0, r.tree, 1.0, null);
  }

  /** `rb_next`: the node after `node` in the sequence, or null. */
  method Next(r: RbRoot, node: RbNode) returns (n: RbNode?)
    requires r.Valid() && node in InOrder(r.tree)
    ensures var s := InOrder(r.tree);
            forall i :: 0 <= i < |s| && s[i] == node ==> n == if i + 1 < |s| then s[i + 1] else null
  {
    ghost var at;
    n, at := NextOf(r, node);
    StandsOnce(r);
  }

  method NextOf(r: RbRoot, node: RbNode) returns (n: RbNode?, ghost at: nat)
    requires r.Valid() && node in InOrder(r.tree)
    ensures at < |InOrder(r.tree)| && InOrder(r.tree)[at] == node
    ensures n == if at + 1 < |InOrder(r.tree)| then InOrder(r.tree)[at + 1] else null
  {
    ghost var c, t := Locate(Top, r.tree, node);
    ShowsPlug(r.Snapshot(), r.rank, r.root, c, t);
    InOrderPlug(c, t);
    FocusParts(r.Snapshot(), r.rank, r.root, c, t);
    at := |Before(c)| + |InOrder(t.left)|;
    ghost var c', t';
    if node.right != null {
      Refocus(r.Snapshot(), r.rank, r.root, Right, node, t.color, t.left, c, t.right);
      n, c', t' := Outermost(r, Left, node.right, Up(Right, node, t.color, t.left, c), t.right);
      InOrderPlug(c', t');
    } else {
      n, c', t' := Climb(r, Right, node, c, t);
      InOrderPlug(c', t');
      assert |Before(c')| + |InOrder(t')| == |Before(c) + InOrder(t)| == at + 1;
    }
  }

  /** A subtree without a right part ends just before what follows the hole. */
  lemma LastOf(c: Ctx, t: Tree)
    requires t.Branch? && t.right.Leaf?
    ensures var s := InOrder(Plug(c, t)); |After(c)| < |s| && s[|s| - |After(c)| - 1] == t.node
  {
    InOrderPlug(c, t);
    assert Around(c, InOrder(t)) == Before(c) + InOrder(t.left) + [t.node] + After(c);
  }

  /** The parent of a right child stands just before the subtree. */
  lemma BeforeHole(c: Ctx, t: Tree, rest: nat)
    requires c.Up? ==> c.side == Right
    requires |InOrder(t) + After(c)| == rest
    ensures var s := InOrder(Plug(c, t));
            && |s| == |Before(c)| + rest
            && (c.Up? ==> |Before(c)| > 0 && s[|s| - rest - 1] == c.node)
            && (c.Top? ==> |Before(c)| == 0)
  {
    InOrderPlug(c, t);
  }

  /** `rb_prev`: the node before `node` in the sequence, or null. */
  method Prev(r: RbRoot, node: RbNode) returns (n: RbNode?)
    requires r.Valid() && node in InOrder(r.tree)
    ensures var s := InOrder(r.tree);
            forall i :: 0 <= i < |s| && s[i] == node ==> n == if i > 0 then s[i - 1] else null
  {
    ghost var at;
    n, at := PrevOf(r, node);
    StandsOnce(r);
  }

  method PrevOf(r: RbRoot, node: RbNode) returns (n: RbNode?, ghost at: nat)
    requires r.Valid() && node in InOrder(r.tree)
    ensures at < |InOrder(r.tree)| && InOrder(r.tree)[at] == node
    ensures n == if at > 0 then InOrder(r.tree)[at - 1] else null
  {
    hide RedBlack, Links, CtxLinks;
    ghost var c, t := Locate(Top, r.tree, node);
    ShowsPlug(r.Snapshot(), r.rank, r.root, c, t);
    InOrderPlug(c, t);
    FocusParts(r.Snapshot(), r.rank, r.root, c, t);
    at := |Before(c)| + |InOrder(t.left)|;
    ghost var c', t';
    if node.left != null {
      Refocus(r.Snapshot(), r.rank, r.root, Left, node, t.color, t.right, c, t.left);
      n, c', t' := Outermost(r, Right, node.left, Up(Left, node, t.color, t.right, c), t.left);
      LastOf(c', t');
    } else {
      n, c', t' := Climb(r, Left, node, c, t);
      BeforeHole(c', t', |InOrder(t) + After(c)|);
    }
  }
}
