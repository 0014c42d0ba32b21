/** Red-black trees as values: the node objects of lib/libhv/base/rbtree.h, a snapshot of
    their fields, and the coloured tree (with a hole, when a fix-up loop is in the middle of
    it) which that snapshot represents. Nothing here writes a field. */
module RbShape {
  import opened Bytes

  datatype Color = Red | Black

  datatype Side = Left | Right {
    function Other(): Side { if this == Left then Right else Left }
  }

  /** A tree node together with the record that embeds it: `addr` is the key of the
      surrounding `rudp_entry_t`, which rbtree.c itself never looks at. */
  class RbNode {
    var parent: RbNode?
    var right: RbNode?
    var left: RbNode?
    var color: Color
    const addr: seq<Byte>

    constructor (addr: seq<Byte>)
      ensures this.addr == addr
    {
      this.addr := addr;
      parent, left, right, color := null, null, null, Red;
    }
  }

  /** The link and colour fields of one node. */
  datatype Rec = Rec(parent: RbNode?, left: RbNode?, right: RbNode?, color: Color)

  type Mem = map<RbNode, Rec>

  /** A position in (0, 1) for every node, increasing from left to right. It plays no part in the
      program; it is how the proofs know that distinct places of a tree hold distinct nodes. */
  type Ranks = map<RbNode, real>

  datatype Tree = Leaf | Branch(left: Tree, node: RbNode, color: Color, right: Tree)

  /** A tree with a hole, seen from the hole outwards: the hole is the `side` child of `node`,
      whose other child is `sib`. */
  datatype Ctx = Top | Up(side: Side, node: RbNode, color: Color, sib: Tree, outer: Ctx)

  /** The node whose `side` child is `near` and whose other child is `far`. */
  ghost function Br(side: Side, near: Tree, node: RbNode, color: Color, far: Tree): Tree {
    if side == Left then Branch(near, node, color, far) else Branch(far, node, color, near)
  }

  ghost function Root(t: Tree): RbNode? {
    if t.Leaf? then null else t.node
  }

  ghost function ParentOf(c: Ctx): RbNode? {
    if c.Top? then null else c.node
  }

  ghost function Plug(c: Ctx, t: Tree): Tree {
    match c
    case Top => t
    case Up(side, n, col, sib, outer) => Plug(outer, Br(side, t, n, col, sib))
  }

  /** `inner` continued outwards by `outer`. */
  ghost function Append(inner: Ctx, outer: Ctx): Ctx {
    match inner
    case Top => outer
    case Up(side, n, col, sib, up) => Up(side, n, col, sib, Append(up, outer))
  }

  // ---------------------------------------------------------------- representation

  ghost predicate Between(k: Ranks, lo: real, n: RbNode?, hi: real) {
    n != null && n in k && lo < k[n] < hi
  }

  /** The fields of `n` when its parent is `par`, its `side` child `near`, its other child `far`. */
  ghost function RecOf(par: RbNode?, side: Side, near: RbNode?, far: RbNode?, col: Color): Rec {
    if side == Left then Rec(par, near, far, col) else Rec(par, far, near, col)
  }

  /** The snapshot lays out `t` below a node `par`, with ranks between `lo` and `hi`: child and
      parent links agree everywhere and no node occurs twice. */
  ghost predicate Links(m: Mem, k: Ranks, lo: real, t: Tree, hi: real, par: RbNode?)
    decreases t
  {
    match t
    case Leaf => true
    case Branch(l, n, col, r) =>
      && Between(k, lo, n, hi) && n in m && m[n] == Rec(par, Root(l), Root(r), col)
      && Links(m, k, lo, l, k[n], n) && Links(m, k, k[n], r, hi, n)
  }

  /** The bounds on the ranks of what may stand in the hole. */
  ghost function Low(k: Ranks, c: Ctx): real {
    match c
    case Top => 0.0
    case Up(side, n, _, _, outer) => if side == Left || n !in k then Low(k, outer) else k[n]
  }

  ghost function High(k: Ranks, c: Ctx): real {
    match c
    case Top => 1.0
    case Up(side, n, _, _, outer) => if side == Right || n !in k then High(k, outer) else k[n]
  }

  /** The bounds on the subtree beside the hole. */
  ghost function SibLow(k: Ranks, c: Ctx): real
    requires c.Up? && c.node in k
  {
    if c.side == Left then k[c.node] else Low(k, c.outer)
  }

  ghost function SibHigh(k: Ranks, c: Ctx): real
    requires c.Up? && c.node in k
  {
    if c.side == Left then High(k, c.outer) else k[c.node]
  }

  /** The snapshot lays out `c` around a hole that holds `hole`, and `root` is the top node. */
  ghost predicate CtxLinks(m: Mem, k: Ranks, root: RbNode?, c: Ctx, hole: RbNode?) {
    match c
    case Top => root == hole
    case Up(side, n, col, sib, outer) =>
      && Between(k, Low(k, outer), n, High(k, outer))
      && n in m && m[n] == RecOf(ParentOf(outer), side, hole, Root(sib), col)
      && Links(m, k, SibLow(k, c), sib, SibHigh(k, c), n)
      && CtxLinks(m, k, root, outer, n)
  }

  /** `m` with top node `root` is exactly the tree `t` standing in the hole of `c`. */
  ghost predicate Shows(m: Mem, k: Ranks, root: RbNode?, c: Ctx, t: Tree) {
    && CtxLinks(m, k, root, c, Root(t))
    && Links(m, k, Low(k, c), t, High(k, c), ParentOf(c))
  }

  /** `m'` agrees with `m` on every node ranked inside (or outside) an interval. */
  ghost predicate SameIn(m: Mem, m': Mem, k: Ranks, lo: real, hi: real) {
    forall n :: n in m && Between(k, lo, n, hi) ==> n in m' && m'[n] == m[n]
  }

  ghost predicate SameOut(m: Mem, m': Mem, k: Ranks, lo: real, hi: real) {
    forall n :: n in m && n in k && !Between(k, lo, n, hi) ==> n in m' && m'[n] == m[n]
  }

  lemma {:induction false} LinksFrame(m: Mem, m': Mem, k: Ranks, lo: real, t: Tree, hi: real, par: RbNode?)
    requires Links(m, k, lo, t, hi, par)
    requires SameIn(m, m', k, lo, hi)
    ensures Links(m', k, lo, t, hi, par)
    decreases t
  {
    match t
    case Leaf =>
    case Branch(l, n, _, r) =>
      LinksFrame(m, m', k, lo, l, k[n], n);
      LinksFrame(m, m', k, k[n], r, hi, n);
  }

  /** Only the parent field of the root of `t` depends on where `t` hangs. */
  lemma LinksReparent(m: Mem, m': Mem, k: Ranks, lo: real, t: Tree, hi: real,
                      par: RbNode?, par': RbNode?)
    requires Links(m, k, lo, t, hi, par)
    requires t.Branch? ==> t.node in m && t.node in m' && m'[t.node] == m[t.node].(parent := par')
    requires t.Branch? ==> SameIn(m, m', k, lo, k[t.node]) && SameIn(m, m', k, k[t.node], hi)
    ensures Links(m', k, lo, t, hi, par')
  {
    if t.Branch? {
      LinksFrame(m, m', k, lo, t.left, k[t.node], t.node);
      LinksFrame(m, m', k, k[t.node], t.right, hi, t.node);
    }
  }

  lemma {:induction false} CtxLinksFrame(m: Mem, m': Mem, k: Ranks, root: RbNode?, c: Ctx, hole: RbNode?)
    requires CtxLinks(m, k, root, c, hole)
    requires SameOut(m, m', k, Low(k, c), High(k, c))
    ensures CtxLinks(m', k, root, c, hole)
  {
    match c
    case Top =>
    case Up(_, n, _, sib, outer) =>
      LinksFrame(m, m', k, SibLow(k, c), sib, SibHigh(k, c), n);
      CtxLinksFrame(m, m', k, root, outer, n);
  }

  /** Only the innermost child link (or the root link) depends on what stands in the hole. */
  lemma CtxLinksRehole(m: Mem, m': Mem, k: Ranks, root: RbNode?, root': RbNode?, c: Ctx,
                       hole: RbNode?, hole': RbNode?)
    requires CtxLinks(m, k, root, c, hole)
    requires c.Top? ==> root' == hole'
    requires c.Up? ==> root' == root && c.node in m'
    requires c.Up? ==> m'[c.node] == RecOf(ParentOf(c.outer), c.side, hole', Root(c.sib), c.color)
    requires forall n :: n in m && n in k && !Between(k, Low(k, c), n, High(k, c)) && n != ParentOf(c)
                  ==> n in m' && m'[n] == m[n]
    ensures CtxLinks(m', k, root', c, hole')
  {
    if c.Up? {
      LinksFrame(m, m', k, SibLow(k, c), c.sib, SibHigh(k, c), c.node);
      CtxLinksFrame(m, m', k, root, c.outer, c.node);
    }
  }

  /** Moving the focus one level does not change what is represented. */
  lemma Refocus(m: Mem, k: Ranks, root: RbNode?, side: Side, n: RbNode, col: Color,
                sib: Tree, outer: Ctx, t: Tree)
    ensures Shows(m, k, root, Up(side, n, col, sib, outer), t)
       <==> Shows(m, k, root, outer, Br(side, t, n, col, sib))
    ensures Br(side, t, n, col, sib) == Br(side.Other(), sib, n, col, t)
  {
  }

  lemma {:induction false} ShowsPlug(m: Mem, k: Ranks, root: RbNode?, c: Ctx, t: Tree)
    ensures Shows(m, k, root, c, t) <==> Shows(m, k, root, Top, Plug(c, t))
    decreases c
  {
    match c
    case Top =>
    case Up(side, n, col, sib, outer) =>
      Refocus(m, k, root, side, n, col, sib, outer, t);
      ShowsPlug(m, k, root, outer, Br(side, t, n, col, sib));
  }
}
