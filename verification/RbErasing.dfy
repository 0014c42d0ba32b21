/** What `rb_erase` and `__rb_erase_color` of lib/libhv/base/rbtree.c do to the tree. */
module RbErasing {
  import opened Folding
  import opened RbShape
  import opened RbBalance

  // ---------------------------------------------------------------- unlinking

  /** The single child of a node that lacks the other one. */
  ghost function OnlyChild(t: Tree): Tree
    requires t.Branch?
  {
    if t.left.Leaf? then t.right else t.left
  }

  lemma {:induction false} LinksWiden(m: Mem, k: Ranks, lo: real, t: Tree, hi: real, par: RbNode?, lo': real, hi': real)
    requires Links(m, k, lo, t, hi, par) && lo' <= lo && hi <= hi'
    ensures Links(m, k, lo', t, hi', par)
    decreases t
  {
    if t.Branch? {
      LinksWiden(m, k, lo, t.left, k[t.node], t.node, lo', k[t.node]);
      LinksWiden(m, k, k[t.node], t.right, hi, t.node, k[t.node], hi');
    }
  }

  /** Bypassing a node with at most one child leaves that child standing in the hole. */
  lemma SpliceShows(m: Mem, m': Mem, k: Ranks, root: RbNode?, root': RbNode?, c: Ctx, t: Tree)
    requires t.Branch? && (t.left.Leaf? || t.right.Leaf?) && Shows(m, k, root, c, t)
    requires var ch := OnlyChild(t);
             && (ch.Branch? ==> ch.node in m && ch.node in m' && m'[ch.node] == m[ch.node].(parent := ParentOf(c)))
             && (forall n :: n in m && n != t.node && n != Root(ch) && n != ParentOf(c) ==> n in m' && m'[n] == m[n])
    requires c.Up? ==> c.node in m' && root' == root
    requires c.Up? ==> m'[c.node] == RecOf(ParentOf(c.outer), c.side, Root(OnlyChild(t)), Root(c.sib), c.color)
    requires c.Top? ==> root' == Root(OnlyChild(t))
    ensures Shows(m', k, root', c, OnlyChild(t))
    ensures t.left.Leaf? ==> Links(m', k, k[t.node], t.right, High(k, c), ParentOf(c))
  {
    var n, lo, hi := t.node, Low(k, c), High(k, c);
    if t.left.Leaf? {
      LinksReparent(m, m', k, k[n], t.right, hi, n, ParentOf(c));
      LinksWiden(m', k, k[n], t.right, hi, ParentOf(c), lo, hi);
    } else {
      LinksReparent(m, m', k, lo, t.left, k[n], n, ParentOf(c));
      LinksWiden(m', k, lo, t.left, k[n], ParentOf(c), lo, hi);
    }
    CtxLinksRehole(m, m', k, root, root', c, n, Root(OnlyChild(t)));
  }

  /** A path that only goes left from some node down to the hole. */
  ghost predicate LeftSpine(inner: Ctx) {
    inner.Up? ==> inner.side == Left && LeftSpine(inner.outer)
  }

  /** The node a non-empty path starts at. */
  ghost function SpineTop(inner: Ctx): RbNode? {
    if inner.Top? then null
    else if inner.outer.Top? then inner.node
    else SpineTop(inner.outer)
  }

  /** `old`, whose right subtree contains the hole at the end of `inner`, and its replacement. */
  ghost function Below(inner: Ctx, n: RbNode, col: Color, l: Tree, c: Ctx): Ctx {
    Append(inner, Up(Right, n, col, l, c))
  }

  lemma {:induction false} SpineBounds(m: Mem, k: Ranks, root: RbNode?, inner: Ctx, n: RbNode, col: Color,
                                        l: Tree, c: Ctx, hole: RbNode?)
    requires LeftSpine(inner) && CtxLinks(m, k, root, Below(inner, n, col, l, c), hole)
    ensures CtxLinks(m, k, root, c, n) && Between(k, Low(k, c), n, High(k, c)) && n in m
    ensures m[n] == Rec(ParentOf(c), Root(l), if inner.Top? then hole else SpineTop(inner), col)
    ensures Links(m, k, Low(k, c), l, k[n], n)
    ensures Low(k, Below(inner, n, col, l, c)) == k[n]
    ensures k[n] < High(k, Below(inner, n, col, l, c)) <= High(k, c)
    ensures inner.Up? ==> SpineTop(inner) in m
                          && Between(k, k[n], SpineTop(inner), High(k, c))
                          && High(k, Below(inner, n, col, l, c)) <= k[SpineTop(inner)]
    ensures c.Up? ==> c.node in m && c.node in k && !Between(k, Low(k, c), c.node, High(k, c))
                      && m[c.node] == RecOf(ParentOf(c.outer), c.side, n, Root(c.sib), c.color)
                      && Root(c.sib) != n
  {
    if inner.Up? {
      SpineBounds(m, k, root, inner.outer, n, col, l, c, inner.node);
    } else if c.Up? {
      assert Links(m, k, SibLow(k, c), c.sib, SibHigh(k, c), c.node);
    }
  }

  /** The writes by which `rb_erase` puts `succ` where `old` was; what stands in the hole, ranked
      below `hi`, is not looked at. */
  ghost predicate Replaced(m: Mem, m': Mem, k: Ranks, hi: real, root: RbNode?, root': RbNode?, inner: Ctx, old_: RbNode,
                           succ: RbNode, col: Color, l: Tree, c: Ctx, hole: RbNode?)
  {
    && succ in m' && m'[succ] == Rec(ParentOf(c), Root(l), if inner.Top? then hole else SpineTop(inner), col)
    && (l.Branch? ==> l.node in m && l.node in m' && m'[l.node] == m[l.node].(parent := succ))
    && (inner.Up? ==> SpineTop(inner) in m && SpineTop(inner) in m'
                      && m'[SpineTop(inner)] == m[SpineTop(inner)].(parent := succ))
    && (c.Up? ==> root' == root && c.node in m'
                  && m'[c.node] == RecOf(ParentOf(c.outer), c.side, succ, Root(c.sib), c.color))
    && (c.Top? ==> root' == succ)
    && old_ in k
    && (forall n :: n in m && n in k && n != old_ && n != succ && n != Root(l) && n != SpineTop(inner)
                    && n != ParentOf(c) && !Between(k, k[old_], n, hi)
                    ==> n in m' && m'[n] == m[n])
  }

  lemma ReplaceTop(m: Mem, m': Mem, k: Ranks, root: RbNode?, root': RbNode?,
                   old_: RbNode, succ: RbNode, col: Color, l: Tree, c: Ctx, hole: RbNode?)
    requires CtxLinks(m, k, root, Up(Right, old_, col, l, c), hole)
    requires Between(k, k[old_], succ, High(k, c))
    requires hole != null ==> Between(k, k[succ], hole, High(k, c))
    requires Replaced(m, m', k, High(k, c), root, root', Top, old_, succ, col, l, c, hole)
    ensures CtxLinks(m', k, root', Up(Right, succ, col, l, c), hole)
  {
    SpineBounds(m, k, root, Top, old_, col, l, c, hole);
    LinksReparent(m, m', k, Low(k, c), l, k[old_], old_, succ);
    LinksWiden(m', k, Low(k, c), l, k[old_], succ, Low(k, c), k[succ]);
    CtxLinksRehole(m, m', k, root, root', c, old_, succ);
  }

  /** The innermost node of a spine keeps its links, except for its parent when it is the only one. */
  lemma ReplaceNode(m: Mem, m': Mem, k: Ranks, root: RbNode?, root': RbNode?, inner: Ctx,
                    old_: RbNode, succ: RbNode, col: Color, l: Tree, c: Ctx, hole: RbNode?)
    requires inner.Up? && LeftSpine(inner) && CtxLinks(m, k, root, Below(inner, old_, col, l, c), hole)
    requires old_ in k && Between(k, k[old_], succ, High(k, Below(inner, old_, col, l, c)))
    requires hole != null ==> Between(k, k[succ], hole, High(k, Below(inner, old_, col, l, c)))
    requires Replaced(m, m', k, High(k, Below(inner, old_, col, l, c)), root, root', inner, old_, succ, col, l, c, hole)
    ensures var n := inner.node;
            && n in m' && m'[n]
              == Rec(if inner.outer.Top? then succ else inner.outer.node, hole, Root(inner.sib), inner.color)
            && k[n] == High(k, Below(inner, old_, col, l, c))
            && Links(m', k, k[n], inner.sib, High(k, Below(inner.outer, old_, col, l, c)), n)
  {
    var n := inner.node;
    SpineBounds(m, k, root, inner, old_, col, l, c, hole);
    SpineBounds(m, k, root, inner.outer, old_, col, l, c, n);
    assert n != old_ && n != succ && n != Root(l) && n != ParentOf(c) && n != hole;
    assert inner.outer.Up? ==> n != SpineTop(inner);
    LinksFrame(m, m', k, k[n], inner.sib, High(k, Below(inner.outer, old_, col, l, c)), n);
  }

  lemma {:induction false} ReplaceCtx(m: Mem, m': Mem, k: Ranks, root: RbNode?, root': RbNode?, inner: Ctx,
                                       old_: RbNode, succ: RbNode, col: Color, l: Tree, c: Ctx, hole: RbNode?)
    requires LeftSpine(inner) && CtxLinks(m, k, root, Below(inner, old_, col, l, c), hole)
    requires old_ in k && Between(k, k[old_], succ, High(k, Below(inner, old_, col, l, c)))
    requires hole != null ==> Between(k, k[succ], hole, High(k, Below(inner, old_, col, l, c)))
    requires Replaced(m, m', k, High(k, Below(inner, old_, col, l, c)), root, root', inner, old_, succ, col, l, c, hole)
    ensures CtxLinks(m', k, root', Below(inner, succ, col, l, c), hole)
    ensures Low(k, Below(inner, succ, col, l, c)) == k[succ]
    ensures High(k, Below(inner, succ, col, l, c)) == High(k, Below(inner, old_, col, l, c))
    decreases inner
  {
    hide Links;
    match inner
    case Top =>
      ReplaceTop(m, m', k, root, root', old_, succ, col, l, c, hole);
    case Up(_, n, _, sib, up) =>
      ReplaceNode(m, m', k, root, root', inner, old_, succ, col, l, c, hole);
      assert CtxLinks(m, k, root, Below(up, old_, col, l, c), n);
      ReplaceCtx(m, m', k, root, root', up, old_, succ, col, l, c, n);
  }

  lemma ReplaceShows(m: Mem, m': Mem, k: Ranks, root: RbNode?, root': RbNode?, inner: Ctx,
                     old_: RbNode, succ: RbNode, col: Color, l: Tree, c: Ctx, t: Tree)
    requires LeftSpine(inner) && Shows(m, k, root, Below(inner, old_, col, l, c), t)
    requires old_ in k && Between(k, k[old_], succ, High(k, Below(inner, old_, col, l, c)))
    requires Links(m, k, k[succ], t, High(k, Below(inner, old_, col, l, c)), ParentOf(Below(inner, old_, col, l, c)))
    requires Replaced(m, m', k, High(k, Below(inner, old_, col, l, c)), root, root', inner, old_, succ, col, l, c,
        Root(t))
    requires t.Branch? ==> t.node in k && SameIn(m, m', k, k[succ], k[t.node])
                           && SameIn(m, m', k, k[t.node], High(k, Below(inner, old_, col, l, c)))
    requires t.Branch? ==> t.node in m && t.node in m'
                           && m'[t.node] == m[t.node].(parent := ParentOf(Below(inner, succ, col, l, c)))
    ensures Shows(m', k, root', Below(inner, succ, col, l, c), t)
  {
    var hi := High(k, Below(inner, old_, col, l, c));
    ReplaceCtx(m, m', k, root, root', inner, old_, succ, col, l, c, Root(t));
    LinksReparent(m, m', k, k[succ], t, hi, ParentOf(Below(inner, old_, col, l, c)),
                  ParentOf(Below(inner, succ, col, l, c)));
  }

  /** Neither colours nor the sequence see which node was replaced by which. */
  lemma {:induction false} BelowFacts(inner: Ctx, n: RbNode, n': RbNode, col: Color, l: Tree, c: Ctx, h: nat)
    requires LeftSpine(inner)
    ensures CtxRb(Below(inner, n, col, l, c), h) <==> CtxRb(Below(inner, n', col, l, c), h)
    ensures Before(Below(inner, n, col, l, c)) == Before(c) + InOrder(l) + [n]
    ensures After(Below(inner, n, col, l, c)) == After(Below(inner, n', col, l, c))
    ensures Below(inner, n, col, l, c).Up?
    ensures Below(inner, n, col, l, c).color == Below(inner, n', col, l, c).color
  {
    if inner.Up? {
      BelowFacts(inner.outer, n, n', col, l, c, if inner.color == Black then h + 1 else h);
    }
  }

  // ---------------------------------------------------------------- __rb_erase_color

  /** In the middle of `__rb_erase_color`: the focus is one black node short, and could make up
      for it only if its root is red. A red root may have red children or a red parent. */
  ghost predicate Erasing(c: Ctx, t: Tree, h: nat) {
    && CtxRb(c, h + 1)
    && (if IsRed(t) then IsRb(t.left, h) && IsRb(t.right, h) else IsRb(t, h))
  }

  /** The sibling of a short black subtree is never null. */
  lemma SiblingExists(c: Ctx, t: Tree, h: nat)
    requires Erasing(c, t, h) && c.Up?
    ensures c.sib.Branch?
  {
  }

  /** Blackening a red focus, or reaching the top, ends the repair. */
  lemma EraseDone(c: Ctx, t: Tree, h: nat)
    requires Erasing(c, t, h) && (IsRed(t) || c.Top?)
    ensures var t' := if t.Leaf? then Leaf else Paint(t, Black);
            RedBlack(Plug(c, t')) && InOrder(Plug(c, t')) == Around(c, InOrder(t))
  {
    var t' := if t.Leaf? then Leaf else Paint(t, Black);
    InOrderPlug(c, t');
    PlugRb(c, t', if IsRed(t) then h + 1 else h);
  }

  /** Red sibling: rotate it above the parent; the new sibling is black. */
  lemma EraseRedSibling(s: Side, p: RbNode, cp: Color, b: Tree, o: RbNode, d: Tree, out: Ctx,
                        t: Tree, h: nat)
    requires Erasing(Up(s, p, cp, Br(s, b, o, Red, d), out), t, h) && !IsRed(t)
    ensures cp == Black && Erasing(Up(s, p, Red, b, Up(s, o, Black, d, out)), t, h) && b.Branch? && !IsRed(b)
    ensures Around(Up(s, p, Red, b, Up(s, o, Black, d, out)), InOrder(t))
         == Around(Up(s, p, cp, Br(s, b, o, Red, d), out), InOrder(t))
  {
    IsRbBr(s, b, o, Red, d, h + 1);
    AroundUp(s, p, cp, Br(s, b, o, Red, d), out, t);
    AroundUp(s, p, Red, b, Up(s, o, Black, d, out), t);
    AroundUp(s, o, Black, d, out, Br(s, t, p, Red, b));
    RotatedBr(s, t, p, Red, b, o, Red, d);
  }

  /** Black sibling without red children: it turns red and the parent becomes the short subtree. */
  lemma EraseBothBlack(s: Side, p: RbNode, cp: Color, b: Tree, o: RbNode, d: Tree, out: Ctx,
                       t: Tree, h: nat) returns (h': nat)
    requires Erasing(Up(s, p, cp, Br(s, b, o, Black, d), out), t, h) && !IsRed(t) && !IsRed(b) && !IsRed(d)
    ensures Erasing(out, Br(s, t, p, cp, Br(s, b, o, Red, d)), h')
    ensures Around(out, InOrder(Br(s, t, p, cp, Br(s, b, o, Red, d))))
         == Around(Up(s, p, cp, Br(s, b, o, Black, d), out), InOrder(t))
  {
    h' := if cp == Black then h + 1 else h;
    IsRbBr(s, b, o, Black, d, h + 1);
    IsRbBr(s, b, o, Red, d, h);
    IsRbBr(s, t, p, Black, Br(s, b, o, Red, d), h + 1);
    AroundUp(s, p, cp, Br(s, b, o, Black, d), out, t);
  }

  /** Black sibling whose near child is red: a rotation makes the far child the red one. */
  lemma EraseNearRed(s: Side, p: RbNode, cp: Color, x: Tree, n: RbNode, y: Tree, o: RbNode, d: Tree,
                     out: Ctx, t: Tree, h: nat)
    requires Erasing(Up(s, p, cp, Br(s, Br(s, x, n, Red, y), o, Black, d), out), t, h) && !IsRed(d)
    ensures Erasing(Up(s, p, cp, Br(s, x, n, Black, Br(s, y, o, Red, d)), out), t, h)
    ensures Around(Up(s, p, cp, Br(s, x, n, Black, Br(s, y, o, Red, d)), out), InOrder(t))
         == Around(Up(s, p, cp, Br(s, Br(s, x, n, Red, y), o, Black, d), out), InOrder(t))
  {
    var q, q' := Br(s, Br(s, x, n, Red, y), o, Black, d), Br(s, x, n, Black, Br(s, y, o, Red, d));
    IsRbBr(s, Br(s, x, n, Red, y), o, Black, d, h + 1);
    IsRbBr(s, x, n, Red, y, h);
    IsRbBr(s, y, o, Red, d, h);
    IsRbBr(s, x, n, Black, Br(s, y, o, Red, d), h + 1);
    RotatedBr(s.Other(), d, o, Black, y, n, Red, x);
    assert InOrder(q) == InOrder(q');
  }

  /** Black sibling whose far child is red: one rotation restores every black height. */
  lemma EraseFarRed(s: Side, p: RbNode, cp: Color, b: Tree, o: RbNode, d: Tree, out: Ctx,
                    t: Tree, h: nat)
    requires Erasing(Up(s, p, cp, Br(s, b, o, Black, d), out), t, h) && !IsRed(t) && IsRed(d)
    ensures var t' := Br(s, Br(s, t, p, Black, b), o, cp, Paint(d, Black));
            && RedBlack(Plug(out, t'))
            && InOrder(Plug(out, t')) == Around(Up(s, p, cp, Br(s, b, o, Black, d), out), InOrder(t))
  {
    var t' := Br(s, Br(s, t, p, Black, b), o, cp, Paint(d, Black));
    IsRbBr(s, b, o, Black, d, h + 1);
    IsRbBr(s, t, p, Black, b, h + 1);
    IsRbBr(s, Br(s, t, p, Black, b), o, cp, Paint(d, Black), if cp == Black then h + 2 else h + 1);
    PlugRb(out, t', if cp == Black then h + 2 else h + 1);
    InOrderPlug(out, t');
    AroundUp(s, p, cp, Br(s, b, o, Black, d), out, t);
    RotatedBr(s, t, p, cp, b, o, Black, d);
  }

  /** The links and colours of the nephews. */
  lemma SiblingParts(m: Mem, k: Ranks, root: RbNode?, c: Ctx, t: Tree)
    requires c.Up? && c.sib.Branch? && Shows(m, k, root, c, t)
    ensures c.node in m && m[c.node] == RecOf(ParentOf(c.outer), c.side, Root(t), c.sib.node, c.color)
    ensures c.sib.node in m && m[c.sib.node] == Rec(c.node, Root(c.sib.left), Root(c.sib.right), c.sib.color)
    ensures c.sib.left.Branch? ==> c.sib.left.node in m && m[c.sib.left.node].color == c.sib.left.color
    ensures c.sib.right.Branch? ==> c.sib.right.node in m && m[c.sib.right.node].color == c.sib.right.color
    ensures c.sib.node != Root(t)
    ensures t.Branch? ==> t.node in m && m[t.node] == Rec(c.node, Root(t.left), Root(t.right), t.color)
  {
    var q := c.sib.node;
    assert Links(m, k, SibLow(k, c), c.sib, SibHigh(k, c), c.node);
    assert Links(m, k, SibLow(k, c), c.sib.left, k[q], q) && Links(m, k, k[q], c.sib.right, SibHigh(k, c), q);
  }

  /** How far `__rb_erase_color` still has to go; a red focus ends it. */
  ghost function EraseWork(c: Ctx, t: Tree): nat {
    if IsRed(t) then 0 else 1 + Depth(c)
  }

  lemma {:induction false} RootRec(m: Mem, k: Ranks, root: RbNode?, c: Ctx, hole: RbNode?)
    requires CtxLinks(m, k, root, c, hole) && c.Up?
    ensures root != null && root in m && m[root].parent == null
  {
    if c.outer.Up? {
      RootRec(m, k, root, c.outer, c.node);
    }
  }

  /** What the loop of `__rb_erase_color` reads off its two pointers. */
  lemma FocusFacts(m: Mem, k: Ranks, root: RbNode?, c: Ctx, t: Tree)
    requires Shows(m, k, root, c, t)
    ensures Root(t) == root <==> c.Top?
    ensures t.Branch? ==> t.node in m && m[t.node].color == t.color && m[t.node].parent == ParentOf(c)
  {
    if c.Up? {
      RootRec(m, k, root, c, Root(t));
    }
  }

  // ---------------------------------------------------------------- membership

  /** Every node of the sequence has a place in the tree. */
  lemma {:induction false} Locate(c0: Ctx, t0: Tree, n: RbNode) returns (c: Ctx, t: Tree)
    requires n in InOrder(t0)
    ensures Plug(c, t) == Plug(c0, t0) && t.Branch? && t.node == n
    decreases t0
  {
    if n == t0.node {
      c, t := c0, t0;
    } else if n in InOrder(t0.left) {
      c, t := Locate(Up(Left, t0.node, t0.color, t0.right, c0), t0.left, n);
    } else {
      c, t := Locate(Up(Right, t0.node, t0.color, t0.left, c0), t0.right, n);
    }
  }

  ghost predicate Increasing(k: Ranks, lo: real, s: seq<RbNode>, hi: real) {
    && (forall i :: 0 <= i < |s| ==> Between(k, lo, s[i], hi))
    && (forall i, j :: 0 <= i < j < |s| ==> k[s[i]] < k[s[j]])
  }

  lemma {:induction false} LinksIncreasing(m: Mem, k: Ranks, lo: real, t: Tree, hi: real, par: RbNode?)
    requires Links(m, k, lo, t, hi, par)
    ensures Increasing(k, lo, InOrder(t), hi)
    decreases t
  {
    if t.Branch? {
      LinksIncreasing(m, k, lo, t.left, k[t.node], t.node);
      LinksIncreasing(m, k, k[t.node], t.right, hi, t.node);
    }
  }

  /** Snapshots that agree on the nodes of `t` lay out the same `t`, whatever else they hold. */
  lemma {:induction false} LinksOnNodes(m: Mem, m': Mem, k: Ranks, k': Ranks, lo: real, t: Tree, hi: real, par: RbNode?)
    requires Links(m, k, lo, t, hi, par)
    requires forall n :: n in InOrder(t) && n in m && n in k ==> n in m' && m'[n] == m[n] && n in k' && k'[n] == k[n]
    ensures Links(m', k', lo, t, hi, par)
    decreases t
  {
    if t.Branch? {
      assert t.node in InOrder(t);
      assert forall n :: n in InOrder(t.left) || n in InOrder(t.right) ==> n in InOrder(t);
      LinksOnNodes(m, m', k, k', lo, t.left, k[t.node], t.node);
      LinksOnNodes(m, m', k, k', k[t.node], t.right, hi, t.node);
    }
  }

  lemma {:induction false} LinksInside(m: Mem, k: Ranks, lo: real, t: Tree, hi: real, par: RbNode?)
    requires Links(m, k, lo, t, hi, par)
    ensures forall n :: n in InOrder(t) ==> n in m && n in k
    decreases t
  {
    if t.Branch? {
      LinksInside(m, k, lo, t.left, k[t.node], t.node);
      LinksInside(m, k, k[t.node], t.right, hi, t.node);
    }
  }

  /** The links of the children of the focus. */
  lemma ChildParts(m: Mem, k: Ranks, root: RbNode?, c: Ctx, t: Tree)
    requires t.Branch? && Shows(m, k, root, c, t)
    ensures t.left.Branch? ==> t.left.node in m && t.left.node != t.node && t.left.node != ParentOf(c)
                               && m[t.left.node].parent == t.node
    ensures t.right.Branch? ==> t.right.node in m && t.right.node != t.node && t.right.node != ParentOf(c)
                                && m[t.right.node].parent == t.node
    ensures t.node in k && ParentOf(c) != t.node
  {
    assert Links(m, k, Low(k, c), t.left, k[t.node], t.node);
    assert Links(m, k, k[t.node], t.right, High(k, c), t.node);
  }

  /** The nodes written when `succ` takes the place of `old`, and that they are different nodes. */
  lemma TransplantParts(m: Mem, k: Ranks, root: RbNode?, inner: Ctx, old_: RbNode, succ: RbNode,
                        col: Color, l: Tree, c: Ctx, t: Tree)
    requires LeftSpine(inner) && l.Branch? && Shows(m, k, root, Below(inner, old_, col, l, c), t)
    requires old_ in k && Between(k, k[old_], succ, High(k, Below(inner, old_, col, l, c)))
    requires Links(m, k, k[succ], t, High(k, Below(inner, old_, col, l, c)), ParentOf(Below(inner, old_, col, l, c)))
    ensures l.node in m && l.node != old_ && l.node != succ && l.node != ParentOf(c) && l.node != Root(t)
            && l.node != SpineTop(inner)
    ensures succ != old_ && succ != ParentOf(c) && succ != Root(t) && succ != SpineTop(inner)
    ensures old_ != ParentOf(c) && old_ != Root(t) && old_ != SpineTop(inner)
    ensures ParentOf(c) != null ==> ParentOf(c) != Root(t) && ParentOf(c) != SpineTop(inner)
    ensures inner.Up? ==>
        SpineTop(inner) != Root(t) && ParentOf(Below(inner, succ, col, l, c)) == ParentOf(Below(inner, old_, col, l, c))
                          && Below(inner, old_, col, l, c).node == inner.node
    ensures inner.Top? ==>
        ParentOf(Below(inner, succ, col, l, c)) == succ && ParentOf(Below(inner, old_, col, l, c)) == old_
    ensures t.Branch? ==>
        t.node in m && m[t.node].parent == ParentOf(Below(inner, old_, col, l, c)) && t.node in k && k[succ] < k[t.node]
  {
    SpineBounds(m, k, root, inner, old_, col, l, c, Root(t));
  }

  // ---------------------------------------------------------------- rb_erase as a whole

  /** `s'` is `s` without its element `n`, which stood at index `i`. */
  ghost predicate RemovedAt(s: seq<RbNode>, s': seq<RbNode>, i: nat, n: RbNode) {
    i < |s| && s[i] == n && s' == s[..i] + s[i + 1..]
  }

  /** Unlinking a red node leaves a red-black tree; unlinking a black one leaves the hole short. */
  lemma SpliceRb(c: Ctx, t: Tree) returns (h: nat)
    requires t.Branch? && (t.left.Leaf? || t.right.Leaf?) && RedBlack(Plug(c, t))
    ensures t.color == Black ==> Erasing(c, OnlyChild(t), h)
    ensures t.color == Red ==> RedBlack(Plug(c, OnlyChild(t)))
  {
    h := UnplugRb(c, t);
    if t.color == Black {
      h := h - 1;
    } else {
      PlugRb(c, OnlyChild(t), h);
    }
  }

  /** The same when the node unlinked is the successor that takes the place of the erased one. */
  lemma TransplantRb(inner: Ctx, old_: RbNode, col: Color, l: Tree, c: Ctx, t: Tree) returns (h: nat)
    requires LeftSpine(inner) && t.Branch? && t.left.Leaf? && RedBlack(Plug(Below(inner, old_, col, l, c), t))
    ensures t.color == Black ==> Erasing(Below(inner, t.node, col, l, c), t.right, h)
    ensures t.color == Red ==> RedBlack(Plug(Below(inner, t.node, col, l, c), t.right))
  {
    h := UnplugRb(Below(inner, old_, col, l, c), t);
    BelowFacts(inner, old_, t.node, col, l, c, h);
    if t.color == Black {
      h := h - 1;
    } else {
      PlugRb(Below(inner, t.node, col, l, c), t.right, h);
    }
  }

  lemma SpliceOrder(c: Ctx, t: Tree)
    requires t.Branch? && (t.left.Leaf? || t.right.Leaf?)
    ensures RemovedAt(InOrder(Plug(c, t)), Around(c, InOrder(OnlyChild(t))), |Before(c)| + |InOrder(t.left)|, t.node)
  {
    hide Plug, Before, After;
    InOrderPlug(c, t);
    assert InOrder(t) == InOrder(t.left) + [t.node] + InOrder(t.right);
    DropOne(Before(c), InOrder(t.left), t.node, InOrder(t.right), After(c));
    assert InOrder(OnlyChild(t)) == InOrder(t.left) + InOrder(t.right);
  }

  lemma DropOne(a: seq<RbNode>, l: seq<RbNode>, x: RbNode, r: seq<RbNode>, d: seq<RbNode>)
    ensures RemovedAt(a + (l + [x] + r) + d, a + (l + r) + d, |a| + |l|, x)
  {
    Assoc(l, [x], r);
    Assoc(a, l + ([x] + r), d);
    Assoc(l, [x] + r, d);
    Assoc([x], r, d);
    Assoc(a, l, [x] + (r + d));
    Assoc(a, l + r, d);
    Assoc(l, r, d);
    Assoc(a, l, r + d);
    DropMiddle(a + l, x, r + d);
  }

  lemma DropMiddle(p: seq<RbNode>, x: RbNode, q: seq<RbNode>)
    ensures RemovedAt(p + ([x] + q), p + q, |p|, x)
  {
    var s := p + ([x] + q);
    assert s[|p|] == x && s[..|p|] == p && s[|p| + 1..] == q;
  }

  lemma {:induction false} TransplantOrder(inner: Ctx, old_: RbNode, col: Color, l: Tree, c: Ctx, t: Tree)
    requires LeftSpine(inner) && t.Branch? && t.left.Leaf?
    ensures RemovedAt(InOrder(Plug(Below(inner, old_, col, l, c), t)),
                      Around(Below(inner, t.node, col, l, c), InOrder(t.right)), |Before(c)| + |InOrder(l)|, old_)
  {
    hide LeftSpine, Below, Plug, Before, After;
    var x, y := Below(inner, old_, col, l, c), Below(inner, t.node, col, l, c);
    InOrderPlug(x, t);
    BelowFacts(inner, old_, t.node, col, l, c, 0);
    BelowFacts(inner, t.node, old_, col, l, c, 0);
    assert InOrder(t) == [t.node] + InOrder(t.right);
    SkipOne(Before(c) + InOrder(l), old_, t.node, InOrder(t.right), After(x));
  }

  lemma SkipOne(a: seq<RbNode>, x: RbNode, y: RbNode, b: seq<RbNode>, d: seq<RbNode>)
    ensures RemovedAt(a + [x] + ([y] + b) + d, a + [y] + b + d, |a|, x)
  {
    Assoc(a + [x], [y] + b, d);
    Assoc([y], b, d);
    Assoc(a, [x], [y] + (b + d));
    Assoc(a + [y], b, d);
    Assoc(a, [y], b + d);
    DropMiddle(a, x, [y] + (b + d));
  }

  lemma SpineBelow(m: Mem, k: Ranks, root: RbNode?, inner: Ctx, n: RbNode, col: Color,
                   l: Tree, c: Ctx, hole: RbNode?)
    requires LeftSpine(inner) && CtxLinks(m, k, root, Below(inner, n, col, l, c), hole)
    ensures inner.Up? ==> Below(inner, n, col, l, c).node == inner.node != n
    ensures inner.Top? ==> Below(inner, n, col, l, c).node == n
  {
    if inner.Up? {
      SpineBounds(m, k, root, inner.outer, n, col, l, c, inner.node);
    }
  }

  // ---------------------------------------------------------------- linking a fresh node

  /** Giving ranks to further nodes changes nothing about the nodes already in memory. */
  ghost predicate Extends(m: Mem, k: Ranks, k': Ranks) {
    forall n :: n in m && n in k ==> n in k' && k'[n] == k[n]
  }

  lemma {:induction false} LinksExtend(m: Mem, k: Ranks, k': Ranks, lo: real, t: Tree, hi: real, par: RbNode?)
    requires Links(m, k, lo, t, hi, par) && Extends(m, k, k')
    ensures Links(m, k', lo, t, hi, par)
    decreases t
  {
    if t.Branch? {
      LinksExtend(m, k, k', lo, t.left, k[t.node], t.node);
      LinksExtend(m, k, k', k[t.node], t.right, hi, t.node);
    }
  }

  lemma {:induction false} CtxExtend(m: Mem, k: Ranks, k': Ranks, root: RbNode?, c: Ctx, hole: RbNode?)
    requires CtxLinks(m, k, root, c, hole) && Extends(m, k, k')
    ensures CtxLinks(m, k', root, c, hole)
    ensures Low(k', c) == Low(k, c) < High(k, c) == High(k', c)
  {
    if c.Up? {
      CtxExtend(m, k, k', root, c.outer, c.node);
      LinksExtend(m, k, k', SibLow(k, c), c.sib, SibHigh(k, c), c.node);
    }
  }

  /** `rb_link_node`: a fresh red leaf in an empty hole. */
  lemma LinkShows(m: Mem, m': Mem, k: Ranks, k': Ranks, root: RbNode?, root': RbNode?, c: Ctx,
          node: RbNode)
    requires Shows(m, k, root, c, Leaf) && node !in m
    requires k' == k[node := (Low(k, c) + High(k, c)) / 2.0]
    requires node in m' && m'[node] == Rec(ParentOf(c), null, null, Red)
    requires c.Up? ==> c.node in m' && root' == root
    requires c.Up? ==> m'[c.node] == RecOf(ParentOf(c.outer), c.side, node, Root(c.sib), c.color)
    requires c.Top? ==> root' == node
    requires forall n :: n in m && n != ParentOf(c) ==> n in m' && m'[n] == m[n]
    ensures Shows(m', k', root', c, Branch(Leaf, node, Red, Leaf))
  {
    CtxExtend(m, k, k', root, c, null);
    CtxLinksRehole(m, m', k', root, root', c, null, node);
  }
}
