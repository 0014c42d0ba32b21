/** Colours, black heights and in-order sequences of the trees of RbShape, and what each
    rebalancing step of lib/libhv/base/rbtree.c does to them. */
module RbBalance {
  import opened RbShape

  // ---------------------------------------------------------------- in-order sequence

  ghost function InOrder(t: Tree): seq<RbNode> {
    match t
    case Leaf => []
    case Branch(l, n, _, r) => InOrder(l) + [n] + InOrder(r)
  }

  /** What stands before the hole, and after it. */
  ghost function Before(c: Ctx): seq<RbNode> {
    match c
    case Top => []
    case Up(side, n, _, sib, outer) =>
      if side == Left then Before(outer) else Before(outer) + InOrder(sib) + [n]
  }

  ghost function After(c: Ctx): seq<RbNode> {
    match c
    case Top => []
    case Up(side, n, _, sib, outer) =>
      if side == Left then [n] + InOrder(sib) + After(outer) else After(outer)
  }

  ghost function Around(c: Ctx, s: seq<RbNode>): seq<RbNode> {
    Before(c) + s + After(c)
  }

  /** Moving the focus one level does not change the sequence. */
  lemma AroundUp(side: Side, n: RbNode, col: Color, sib: Tree, outer: Ctx, t: Tree)
    ensures Around(Up(side, n, col, sib, outer), InOrder(t)) == Around(outer, InOrder(Br(side, t, n, col, sib)))
  {
    var a, x, y, b := Before(outer), InOrder(t), InOrder(sib), After(outer);
    if side == Left {
      Shifted(a, x, [n], y, b);
    } else {
      Shifted(a, y, [n], x, b);
    }
  }

  lemma Shifted<T>(a: seq<T>, x: seq<T>, m: seq<T>, y: seq<T>, b: seq<T>)
    ensures a + x + (m + y + b) == a + (x + m + y) + b == a + x + m + y + b
  {
  }

  lemma {:induction false} InOrderPlug(c: Ctx, t: Tree)
    ensures InOrder(Plug(c, t)) == Around(c, InOrder(t))
    decreases c
  {
    match c
    case Top =>
    case Up(side, n, col, sib, outer) =>
      InOrderPlug(outer, Br(side, t, n, col, sib));
  }

  // ---------------------------------------------------------------- red-black invariants

  ghost predicate IsRed(t: Tree) {
    t.Branch? && t.color == Red
  }

  /** `t` has no red node with a red child, and every path from its root has `h` black nodes. */
  ghost predicate IsRb(t: Tree, h: nat) {
    match t
    case Leaf => h == 0
    case Branch(l, _, Black, r) => h > 0 && IsRb(l, h - 1) && IsRb(r, h - 1)
    case Branch(l, _, Red, r) => !IsRed(l) && !IsRed(r) && IsRb(l, h) && IsRb(r, h)
  }

  lemma IsRbBr(side: Side, near: Tree, n: RbNode, col: Color, far: Tree, h: nat)
    ensures IsRb(Br(side, near, n, col, far), h)
       <==> if col == Black then h > 0 && IsRb(near, h - 1) && IsRb(far, h - 1)
            else !IsRed(near) && !IsRed(far) && IsRb(near, h) && IsRb(far, h)
  {
  }

  ghost function BlackHeight(t: Tree): nat {
    if t.Leaf? then 0 else BlackHeight(t.left) + if t.color == Black then 1 else 0
  }

  /** A complete red-black tree: black root, no red-red edge, equal black heights. */
  ghost predicate RedBlack(t: Tree) {
    !IsRed(t) && IsRb(t, BlackHeight(t))
  }

  /** The context is correct everywhere but at the hole, which wants black height `h`. */
  ghost predicate CtxRb(c: Ctx, h: nat) {
    match c
    case Top => true
    case Up(_, _, Black, sib, outer) => IsRb(sib, h) && CtxRb(outer, h + 1)
    case Up(_, _, Red, sib, outer) =>
      !IsRed(sib) && IsRb(sib, h) && outer.Up? && outer.color == Black && CtxRb(outer, h)
  }

  /** A red root must not stand at the top or below a red node. */
  ghost predicate Fits(c: Ctx, t: Tree) {
    IsRed(t) ==> c.Up? && c.color == Black
  }

  ghost function BlackDepth(c: Ctx): nat {
    if c.Top? then 0 else BlackDepth(c.outer) + if c.color == Black then 1 else 0
  }

  lemma {:induction false} HeightUnique(t: Tree, h: nat)
    requires IsRb(t, h)
    ensures BlackHeight(t) == h
  {
    if t.Branch? {
      HeightUnique(t.left, if t.color == Black then h - 1 else h);
    }
  }

  lemma {:induction false} PlugRb(c: Ctx, t: Tree, h: nat)
    requires IsRb(t, h) && CtxRb(c, h) && Fits(c, t)
    ensures RedBlack(Plug(c, t))
    decreases c
  {
    match c
    case Top => HeightUnique(t, h);
    case Up(side, n, col, sib, outer) =>
      PlugRb(outer, Br(side, t, n, col, sib), if col == Black then h + 1 else h);
  }

  lemma {:induction false} UnplugRb(c: Ctx, t: Tree) returns (h: nat)
    requires RedBlack(Plug(c, t))
    ensures IsRb(t, h) && CtxRb(c, h) && Fits(c, t)
    decreases c
  {
    match c
    case Top => h := BlackHeight(t);
    case Up(side, n, col, sib, outer) =>
      var g := UnplugRb(outer, Br(side, t, n, col, sib));
      h := if col == Black then g - 1 else g;
  }

  // ---------------------------------------------------------------- rotation

  /** The grandchild pair of a rotation exists. */
  ghost predicate CanRotate(side: Side, t: Tree) {
    t.Branch? && (if side == Left then t.right.Branch? else t.left.Branch?)
  }

  /** The tree after `__rb_rotate_left` (side == Left) or `__rb_rotate_right` at its root. */
  ghost function Rotated(side: Side, t: Tree): Tree
    requires CanRotate(side, t)
  {
    if side == Left then
      var y := t.right; Branch(Branch(t.left, t.node, t.color, y.left), y.node, y.color, y.right)
    else
      var y := t.left; Branch(y.left, y.node, y.color, Branch(y.right, t.node, t.color, t.right))
  }

  lemma Regroup<X>(a: seq<X>, x: X, b: seq<X>, y: X, d: seq<X>)
    ensures a + [x] + (b + [y] + d) == (a + [x] + b) + [y] + d
  {
  }

  lemma RotatedBr(side: Side, a: Tree, x: RbNode, cx: Color, b: Tree,
                  y: RbNode, cy: Color, d: Tree)
    ensures var t := Br(side, a, x, cx, Br(side, b, y, cy, d));
            && CanRotate(side, t)
            && Rotated(side, t) == Br(side, Br(side, a, x, cx, b), y, cy, d)
            && InOrder(Rotated(side, t)) == InOrder(t)
  {
    if side == Left {
      Regroup(InOrder(a), x, InOrder(b), y, InOrder(d));
    } else {
      Regroup(InOrder(d), y, InOrder(b), x, InOrder(a));
    }
  }

  lemma Flip(side: Side, near: Tree, n: RbNode, col: Color, far: Tree)
    ensures Br(side, near, n, col, far) == Br(side.Other(), far, n, col, near)
  {
  }

  ghost function Paint(t: Tree, col: Color): Tree
    requires t.Branch?
  {
    t.(color := col)
  }

  /** Writing the colour of the node in focus repaints it and touches nothing else. */
  lemma PaintShows(m: Mem, m': Mem, k: Ranks, root: RbNode?, c: Ctx, t: Tree, col: Color)
    requires t.Branch? && Shows(m, k, root, c, t)
    requires m' == m[t.node := m[t.node].(color := col)]
    ensures Shows(m', k, root, c, Paint(t, col))
  {
    var n := t.node;
    LinksFrame(m, m', k, Low(k, c), t.left, k[n], n);
    LinksFrame(m, m', k, k[n], t.right, High(k, c), n);
    CtxLinksFrame(m, m', k, root, c, n);
  }

  /** The links between a focus and its parent. */
  lemma FocusParts(m: Mem, k: Ranks, root: RbNode?, c: Ctx, t: Tree)
    requires Shows(m, k, root, c, t)
    ensures t.Branch? ==> t.node in m
                          && m[t.node] == Rec(ParentOf(c), Root(t.left), Root(t.right), t.color)
    ensures c.Up? ==> c.node in m && c.node != Root(t)
                      && m[c.node] == RecOf(ParentOf(c.outer), c.side, Root(t), Root(c.sib), c.color)
                      && (Root(c.sib) != null ==> Root(c.sib) != Root(t) && Root(c.sib) != c.node)
    ensures c.Up? && c.sib.Branch? ==>
              c.sib.node in m && m[c.sib.node] == Rec(c.node, Root(c.sib.left), Root(c.sib.right), c.sib.color)
    ensures c.Top? ==> root == Root(t)
  {
    if c.Up? {
      assert Links(m, k, SibLow(k, c), c.sib, SibHigh(k, c), c.node);
    }
  }

  /** The links around a focus whose parent and grandparent exist. */
  lemma FamilyParts(m: Mem, k: Ranks, root: RbNode?, c: Ctx, t: Tree)
    requires t.Branch? && c.Up? && c.outer.Up? && Shows(m, k, root, c, t)
    ensures t.node in m && m[t.node].parent == c.node && m[t.node].color == t.color
    ensures c.node in m && m[c.node] == RecOf(c.outer.node, c.side, t.node, Root(c.sib), c.color)
    ensures c.outer.node in m
    ensures m[c.outer.node] == RecOf(ParentOf(c.outer.outer), c.outer.side, c.node, Root(c.outer.sib), c.outer.color)
    ensures Root(c.sib) != t.node && Root(c.outer.sib) != c.node
    ensures c.outer.sib.Branch? ==> c.outer.sib.node in m && m[c.outer.sib.node].color == c.outer.sib.color
  {
    assert CtxLinks(m, k, root, c.outer, c.node);
    assert Links(m, k, SibLow(k, c), c.sib, SibHigh(k, c), c.node);
    assert Links(m, k, SibLow(k, c.outer), c.outer.sib, SibHigh(k, c.outer), c.outer.node);
  }

  /** The nodes a left rotation touches, and that they are different nodes. */
  lemma RotateLeftParts(m: Mem, k: Ranks, root: RbNode?, c: Ctx, t: Tree)
    requires CanRotate(Left, t) && Shows(m, k, root, c, t)
    ensures var x, y, b, p := t.node, t.right.node, Root(t.right.left), ParentOf(c);
            && x in m && m[x] == Rec(p, Root(t.left), y, t.color)
            && y in m && m[y] == Rec(x, b, Root(t.right.right), t.right.color)
            && x != y && b != x && b != y && p != x && p != y
            && (b != null ==> b in m && b != p)
            && (p != null ==> p in m && m[p] == RecOf(ParentOf(c.outer), c.side, x, Root(c.sib), c.color)
                              && Root(c.sib) != x)
  {
    var x, y := t.node, t.right.node;
    assert Links(m, k, k[x], t.right, High(k, c), x) && Links(m, k, k[x], t.right.left, k[y], y);
    if c.Up? {
      assert Links(m, k, SibLow(k, c), c.sib, SibHigh(k, c), c.node);
    }
  }

  /** A rotation at the root of `t` rewrites the links of the root `x`, of its child `y`, of `y`'s
      near subtree and of whatever pointed to `x`; those writes turn `t` into `Rotated(Left, t)`. */
  lemma RotateLeftShows(m: Mem, m': Mem, k: Ranks, root: RbNode?, root': RbNode?,
                        c: Ctx, t: Tree)
    requires CanRotate(Left, t) && Shows(m, k, root, c, t)
    requires var x, y, b := t.node, t.right.node, t.right.left;
             && x in m' && m'[x] == Rec(y, Root(t.left), Root(b), t.color)
             && y in m' && m'[y] == Rec(ParentOf(c), x, Root(t.right.right), t.right.color)
             && (b.Branch? ==> b.node in m && b.node in m' && m'[b.node] == m[b.node].(parent := x))
             && (forall n :: n in m && n != x && n != y && n != Root(b) && n != ParentOf(c)
                        ==> n in m' && m'[n] == m[n])
    requires c.Up? ==> c.node in m' && root' == root
    requires c.Up? ==> m'[c.node] == RecOf(ParentOf(c.outer), c.side, t.right.node, Root(c.sib), c.color)
    requires c.Top? ==> root' == t.right.node
    ensures Shows(m', k, root', c, Rotated(Left, t))
  {
    var lo, hi, x, y, b := Low(k, c), High(k, c), t.node, t.right.node, t.right.left;
    assert Links(m, k, k[x], t.right, hi, x) && Links(m, k, k[x], b, k[y], y);
    LinksFrame(m, m', k, lo, t.left, k[x], x);
    LinksFrame(m, m', k, k[y], t.right.right, hi, y);
    LinksReparent(m, m', k, k[x], b, k[y], y, x);
    CtxLinksRehole(m, m', k, root, root', c, x, y);
  }

  lemma RotateRightShows(m: Mem, m': Mem, k: Ranks, root: RbNode?, root': RbNode?,
                         c: Ctx, t: Tree)
    requires CanRotate(Right, t) && Shows(m, k, root, c, t)
    requires var x, y, b := t.node, t.left.node, t.left.right;
             && x in m' && m'[x] == Rec(y, Root(b), Root(t.right), t.color)
             && y in m' && m'[y] == Rec(ParentOf(c), Root(t.left.left), x, t.left.color)
             && (b.Branch? ==> b.node in m && b.node in m' && m'[b.node] == m[b.node].(parent := x))
             && (forall n :: n in m && n != x && n != y && n != Root(b) && n != ParentOf(c)
                        ==> n in m' && m'[n] == m[n])
    requires c.Up? ==> c.node in m' && root' == root
    requires c.Up? ==> m'[c.node] == RecOf(ParentOf(c.outer), c.side, t.left.node, Root(c.sib), c.color)
    requires c.Top? ==> root' == t.left.node
    ensures Shows(m', k, root', c, Rotated(Right, t))
  {
    var lo, hi, x, y, b := Low(k, c), High(k, c), t.node, t.left.node, t.left.right;
    assert Links(m, k, lo, t.left, k[x], x) && Links(m, k, k[y], b, k[x], y);
    LinksFrame(m, m', k, k[x], t.right, hi, x);
    LinksFrame(m, m', k, lo, t.left.left, k[y], y);
    LinksReparent(m, m', k, k[y], b, k[x], y, x);
    CtxLinksRehole(m, m', k, root, root', c, x, y);
  }

  lemma RotateRightParts(m: Mem, k: Ranks, root: RbNode?, c: Ctx, t: Tree)
    requires CanRotate(Right, t) && Shows(m, k, root, c, t)
    ensures var x, y, b, p := t.node, t.left.node, Root(t.left.right), ParentOf(c);
            && x in m && m[x] == Rec(p, y, Root(t.right), t.color)
            && y in m && m[y] == Rec(x, Root(t.left.left), b, t.left.color)
            && x != y && b != x && b != y && p != x && p != y
            && (b != null ==> b in m && b != p)
            && (p != null ==> p in m && m[p] == RecOf(ParentOf(c.outer), c.side, x, Root(c.sib), c.color)
                              && Root(c.sib) != x)
  {
    var x, y := t.node, t.left.node;
    assert Links(m, k, Low(k, c), t.left, k[x], x) && Links(m, k, k[y], t.left.right, k[x], y);
    if c.Up? {
      assert Links(m, k, SibLow(k, c), c.sib, SibHigh(k, c), c.node);
    }
  }

  ghost function Depth(c: Ctx): nat {
    if c.Top? then 0 else 1 + Depth(c.outer)
  }

  // ---------------------------------------------------------------- insertion

  /** In the middle of `rb_insert_color`: everything is red-black except that the red focus `t`
      may hang below a red parent (or be the root). */
  ghost predicate Inserting(c: Ctx, t: Tree, h: nat) {
    IsRed(t) && IsRb(t, h) && CtxRb(c, h)
  }

  /** A red leaf in an empty place may only be in conflict with its parent. */
  lemma FreshLeaf(c: Ctx, node: RbNode)
    requires RedBlack(Plug(c, Leaf))
    ensures Inserting(c, Branch(Leaf, node, Red, Leaf), 0)
    ensures InOrder(Branch(Leaf, node, Red, Leaf)) == [node]
  {
    var h := UnplugRb(c, Leaf);
  }

  /** Red uncle: the conflict moves two levels up. */
  lemma InsertRecolor(s1: Side, p: RbNode, sib: Tree, s2: Side, g: RbNode, unc: Tree,
                      o: Ctx, t: Tree, h: nat)
    requires Inserting(Up(s1, p, Red, sib, Up(s2, g, Black, unc, o)), t, h) && IsRed(unc)
    ensures var t' := Br(s2, Br(s1, t, p, Black, sib), g, Red, Paint(unc, Black));
            Inserting(o, t', h + 1)
            && Around(o, InOrder(t')) == Around(Up(s1, p, Red, sib, Up(s2, g, Black, unc, o)), InOrder(t))
  {
    var up := Up(s2, g, Black, unc, o);
    assert CtxRb(up, h);
    IsRbBr(s1, t, p, Black, sib, h + 1);
    IsRbBr(s2, Br(s1, t, p, Black, sib), g, Red, Paint(unc, Black), h + 1);
    AroundUp(s1, p, Red, sib, up, t);
    AroundUp(s2, g, Black, unc, o, Br(s1, t, p, Red, sib));
    assert InOrder(Br(s1, t, p, Red, sib)) == InOrder(Br(s1, t, p, Black, sib));
  }

  /** Black uncle, inner grandchild: a rotation makes it an outer one, with the parent in focus. */
  lemma InsertStraighten(s2: Side, p: RbNode, sib: Tree, up: Ctx, n: RbNode, a: Tree,
                         b: Tree, h: nat)
    requires Inserting(Up(s2.Other(), p, Red, sib, up), Br(s2, a, n, Red, b), h)
    ensures Inserting(Up(s2, n, Red, b, up), Br(s2, sib, p, Red, a), h)
    ensures Around(Up(s2, n, Red, b, up), InOrder(Br(s2, sib, p, Red, a)))
         == Around(Up(s2.Other(), p, Red, sib, up), InOrder(Br(s2, a, n, Red, b)))
  {
    IsRbBr(s2, a, n, Red, b, h);
    IsRbBr(s2, sib, p, Red, a, h);
    AroundUp(s2, n, Red, b, up, Br(s2, sib, p, Red, a));
    AroundUp(s2.Other(), p, Red, sib, up, Br(s2, a, n, Red, b));
    RotatedBr(s2, sib, p, Red, a, n, Red, b);
  }

  /** Black uncle, outer grandchild: one more rotation and the tree is red-black again. */
  lemma InsertRotate(s2: Side, p: RbNode, sib: Tree, g: RbNode, unc: Tree, o: Ctx, t: Tree, h: nat)
    requires Inserting(Up(s2, p, Red, sib, Up(s2, g, Black, unc, o)), t, h) && !IsRed(unc)
    ensures Inserting(Up(s2, p, Black, Br(s2, sib, g, Red, unc), o), t, h)
    ensures Around(Up(s2, p, Black, Br(s2, sib, g, Red, unc), o), InOrder(t))
         == Around(Up(s2, p, Red, sib, Up(s2, g, Black, unc, o)), InOrder(t))
  {
    var up := Up(s2, g, Black, unc, o);
    assert CtxRb(up, h);
    IsRbBr(s2, sib, g, Red, unc, h);
    AroundUp(s2, p, Red, sib, up, t);
    AroundUp(s2, g, Black, unc, o, Br(s2, t, p, Red, sib));
    AroundUp(s2, p, Black, Br(s2, sib, g, Red, unc), o, t);
    RotatedBr(s2.Other(), unc, g, Black, sib, p, Red, t);
  }

  /** With no red parent left, blackening the root completes the tree. */
  lemma WholeRb(c: Ctx, t: Tree, h: nat)
    requires Inserting(c, t, h) && (c.Up? ==> c.color == Black)
    ensures Plug(c, t).Branch? && RedBlack(Paint(Plug(c, t), Black))
    ensures InOrder(Paint(Plug(c, t), Black)) == InOrder(Plug(c, t))
  {
    if c.Top? {
      HeightUnique(Paint(t, Black), h + 1);
    } else {
      PlugRb(c, t, h);
      PlugBranch(c, t);
      assert Paint(Plug(c, t), Black) == Plug(c, t);
    }
  }

  lemma {:induction false} PlugBranch(c: Ctx, t: Tree)
    requires t.Branch?
    ensures Plug(c, t).Branch?
    decreases c
  {
    match c
    case Top =>
    case Up(side, n, col, sib, outer) => PlugBranch(outer, Br(side, t, n, col, sib));
  }
}
