/** lib/libhv/event/rudp.c: the address map of a UDP io, kept in a red-black tree ordered by
    `memcmp` on the bytes of `sockaddr_u`. Each operation runs under the map's mutex. */
module Rudp {
  import opened Bytes
  import opened RbShape
  import opened RbBalance
  import opened RbErasing
  import opened RbTree

  const ADDR_SIZE: nat := 28  // sizeof(sockaddr_u): the larger of sockaddr_in (16) and sockaddr_in6 (28)
  const IN_SIZE: nat := 16
  const AF_INET: Byte := 2

  type Addr = a: seq<Byte> | |a| == ADDR_SIZE witness seq(ADDR_SIZE, _ => 0)

  // ---------------------------------------------------------------- memcmp

  /** The sign of `memcmp(a, b, n)`: the first difference of the bytes, taken unsigned, decides. */
  function Memcmp(a: seq<Byte>, b: seq<Byte>): int
    requires |a| == |b|
  {
    if a == [] then 0
    else if a[0] < b[0] then -1
    else if b[0] < a[0] then 1
    else Memcmp(a[1..], b[1..])
  }

  predicate Less(a: seq<Byte>, b: seq<Byte>) {
    |a| == |b| && Memcmp(a, b) < 0
  }

  /** `memcmp` is a strict total order on blocks of one size. */
  lemma {:induction false} MemcmpOrder(a: seq<Byte>, b: seq<Byte>)
    requires |a| == |b|
    ensures Memcmp(a, b) == 0 <==> a == b
    ensures Memcmp(a, b) < 0 <==> Memcmp(b, a) > 0
    ensures -1 <= Memcmp(a, b) <= 1
  {
    if a != [] {
      MemcmpOrder(a[1..], b[1..]);
      assert a == [a[0]] + a[1..] && b == [b[0]] + b[1..];
    }
  }

  lemma {:induction false} LessTrans(a: seq<Byte>, b: seq<Byte>, c: seq<Byte>)
    requires Less(a, b) && Less(b, c)
    ensures Less(a, c)
  {
    if a[0] == b[0] && b[0] == c[0] {
      LessTrans(a[1..], b[1..], c[1..]);
    }
  }

  // ---------------------------------------------------------------- keys

  /** `sockaddr_len`. */
  function SockaddrLen(a: Addr): nat {
    if a[0] == AF_INET && a[1] == 0 then IN_SIZE else ADDR_SIZE
  }

  /** The key `rudp_get` stores for `a`: only `sockaddr_len(a)` bytes are copied into zeroed memory. */
  function Stored(a: Addr): Addr {
    a[..SockaddrLen(a)] + seq(ADDR_SIZE - SockaddrLen(a), _ => 0)
  }

  /** No garbage behind the part of the address that `sockaddr_len` counts. */
  predicate Clean(a: Addr) {
    forall i :: SockaddrLen(a) <= i < ADDR_SIZE ==> a[i] == 0
  }

  /** In numbers: an IPv4 address, family 2, is clean if and only if it is followed by zeros from byte 16 on;
      any other address is clean. Family, port and IPv4 address are stored in any case. */
  lemma CleanAddress(a: Addr)
    ensures Clean(a) <==> (a[0] == 2 && a[1] == 0 ==> forall i :: 16 <= i < 28 ==> a[i] == 0)
    ensures |Stored(a)| == 28 && Stored(a)[..16] == a[..16]
    ensures forall i :: 16 <= i < 28 ==> Stored(a)[i] == if a[0] == 2 && a[1] == 0 then 0 else a[i]
  {
    assert Stored(a)[..16] == a[..16];
  }

  lemma StoredClean(a: Addr)
    ensures Stored(a) == a <==> Clean(a)
    ensures Stored(a) == a || Less(Stored(a), a)
  {
    var n := SockaddrLen(a);
    if Clean(a) {
      assert Stored(a) == a;
    } else {
      var i :| n <= i < ADDR_SIZE && a[i] != 0;
      assert Stored(a)[i] == 0;
      ZeroTailLess(Stored(a), a, n);
    }
  }

  lemma {:induction false} ZeroTailLess(z: seq<Byte>, a: seq<Byte>, n: nat)
    requires |z| == |a| && n <= |a| && z[..n] == a[..n] && z != a
    requires forall i :: n <= i < |z| ==> z[i] == 0
    ensures Less(z, a)
    decreases |a|
  {
    assert z[0] == a[0] || n == 0;
    if z[0] == a[0] {
      assert z == [z[0]] + z[1..] && a == [a[0]] + a[1..];
      var k := if n > 0 then n - 1 else 0;
      assert z[1..][..k] == a[1..][..k] by {
        assert n > 0 ==> z[1..][..k] == z[..n][1..] && a[1..][..k] == a[..n][1..];
      }
      ZeroTailLess(z[1..], a[1..], k);
    }
  }

  /** The entries come in strictly increasing `memcmp` order of their keys. */
  ghost predicate Sorted(s: seq<RbNode>) {
    forall i, j :: 0 <= i < j < |s| ==> Less(s[i].addr, s[j].addr)
  }

  /** The finite map that a sorted sequence of entries stands for. */
  ghost function ViewOf(s: seq<RbNode>): map<seq<Byte>, RbNode>
    requires Sorted(s)
  {
    KeysUnique(s);
    map n | n in s :: n.addr := n
  }

  lemma KeysUnique(s: seq<RbNode>)
    requires Sorted(s)
    ensures forall m, n :: m in s && n in s && m.addr == n.addr ==> m == n
  {
    forall m, n | m in s && n in s && m.addr == n.addr
      ensures m == n
    {
      var i :| 0 <= i < |s| && s[i] == m;
      var j :| 0 <= j < |s| && s[j] == n;
      MemcmpOrder(m.addr, n.addr);
    }
  }

  lemma RemovedMembers(s: seq<RbNode>, s': seq<RbNode>, i: nat, n: RbNode)
    requires RemovedAt(s, s', i, n)
    ensures |s'| == |s| - 1 && forall j :: 0 <= j < |s'| ==> s'[j] == s[if j < i then j else j + 1]
    ensures forall x :: x in s ==> x == n || x in s'
    ensures forall x :: x in s' ==> x in s
  {
    forall x | x in s && x != n
      ensures x in s'
    {
      var j :| 0 <= j < |s| && s[j] == x;
      assert s'[if j < i then j else j - 1] == x;
    }
  }

  lemma SortedRemove(s: seq<RbNode>, s': seq<RbNode>, i: nat, n: RbNode)
    requires Sorted(s) && RemovedAt(s, s', i, n)
    ensures Sorted(s') && forall x :: x in s' ==> x.addr != n.addr
  {
    RemovedMembers(s, s', i, n);
    forall x | x in s'
      ensures x.addr != n.addr
    {
      var j :| 0 <= j < |s'| && s'[j] == x;
      MemcmpOrder(s[if j < i then j else j + 1].addr, s[i].addr);
    }
  }

  /** Erasing the entry at index `i` removes exactly its key. */
  lemma ViewRemove(s: seq<RbNode>, s': seq<RbNode>, i: nat, n: RbNode)
    requires Sorted(s) && RemovedAt(s, s', i, n)
    ensures Sorted(s') && ViewOf(s') == ViewOf(s) - {n.addr}
  {
    hide Sorted, RemovedAt, Less;
    SortedRemove(s, s', i, n);
    RemovedMembers(s, s', i, n);
    ViewMembers(s);
    ViewMembers(s');
    var v, v' := ViewOf(s), ViewOf(s');
    forall a
      ensures a in v' <==> a in v && a != n.addr
      ensures a in v' ==> v'[a] == v[a]
    {
      if a in v && a != n.addr {
        assert v[a] in s';
      }
    }
  }

  /** What the map of a sorted sequence says. */
  lemma ViewMembers(s: seq<RbNode>)
    requires Sorted(s)
    ensures forall n :: n in s ==> n.addr in ViewOf(s) && ViewOf(s)[n.addr] == n
    ensures forall a :: a in ViewOf(s) ==> ViewOf(s)[a] in s && ViewOf(s)[a].addr == a
  {
    KeysUnique(s);
  }

  /** The sequence `a + b` splits at the key `x`: all of `a` is below it and all of `b` above. */
  ghost predicate SplitAt(a: seq<RbNode>, x: seq<Byte>, b: seq<RbNode>) {
    && (forall i :: 0 <= i < |a| ==> Less(a[i].addr, x))
    && (forall i :: 0 <= i < |b| ==> Less(x, b[i].addr))
  }

  lemma SortedInsert(a: seq<RbNode>, n: RbNode, b: seq<RbNode>)
    requires Sorted(a + b) && SplitAt(a, n.addr, b)
    ensures Sorted(a + [n] + b)
  {
    var s, s' := a + b, a + [n] + b;
    forall i, j | 0 <= i < j < |s'|
      ensures Less(s'[i].addr, s'[j].addr)
    {
      if i != |a| && j != |a| {
        assert Less(s[if i < |a| then i else i - 1].addr, s[if j < |a| then j else j - 1].addr);
      }
    }
  }

  /** Inserting an entry where its key belongs adds exactly that entry to the map. */
  lemma ViewInsert(a: seq<RbNode>, n: RbNode, b: seq<RbNode>)
    requires Sorted(a + b) && SplitAt(a, n.addr, b)
    ensures Sorted(a + [n] + b) && ViewOf(a + [n] + b) == ViewOf(a + b)[n.addr := n]
  {
    hide Sorted, SplitAt, Less;
    var s, s' := a + b, a + [n] + b;
    SortedInsert(a, n, b);
    ViewMembers(s);
    ViewMembers(s');
    assert n in s' && forall x :: x in s' <==> x in s || x == n;
    var v, v' := ViewOf(s), ViewOf(s');
    forall k
      ensures k in v' <==> k in v || k == n.addr
      ensures k in v' ==> v'[k] == if k == n.addr then n else v[k]
    {
      if k in v {
        assert v[k] in s';
      }
    }
  }

  ghost predicate HasKey(s: seq<RbNode>, a: seq<Byte>) {
    exists n :: n in s && n.addr == a
  }

  /** No key lies between what `rudp_get` would store for `a` and `a` itself. */
  ghost predicate Admits(s: seq<RbNode>, a: Addr) {
    forall n :: n in s && Less(n.addr, a) ==> Less(n.addr, Stored(a))
  }

  /** What `rudp_get` does to the order of the entries on a miss, for any address. */
  lemma GetOrder(a: seq<RbNode>, e: RbNode, b: seq<RbNode>, addr: Addr)
    requires Sorted(a + b) && SplitAt(a, addr, b) && e.addr == Stored(addr)
    ensures Sorted(a + [e] + b) <==> Admits(a + b, addr)
    ensures HasKey(a + [e] + b, addr) <==> Clean(addr)
    ensures Clean(addr) ==> Sorted(a + [e] + b) && ViewOf(a + [e] + b) == ViewOf(a + b)[addr := e]
  {
    StoredClean(addr);
    GetSplits(a, e, b, addr);
    if Admits(a + b, addr) {
      forall i | 0 <= i < |a|
        ensures Less(a[i].addr, e.addr)
      {
        assert a[i] in a + b;
      }
      SortedInsert(a, e, b);
    } else {
      GetDisorder(a, e, b, addr);
    }
    if Clean(addr) {
      assert e in a + [e] + b;
      ViewInsert(a, e, b);
    }
  }

  lemma GetSplits(a: seq<RbNode>, e: RbNode, b: seq<RbNode>, addr: Addr)
    requires SplitAt(a, addr, b) && e.addr == Stored(addr)
    ensures forall i :: 0 <= i < |b| ==> Less(e.addr, b[i].addr)
    ensures forall n :: n in a || n in b ==> n.addr != addr
  {
    StoredClean(addr);
    forall i | 0 <= i < |b|
      ensures Less(e.addr, b[i].addr)
    {
      if e.addr != addr {
        LessTrans(e.addr, addr, b[i].addr);
      }
    }
    MemcmpOrder(addr, addr);
  }

  lemma GetDisorder(a: seq<RbNode>, e: RbNode, b: seq<RbNode>, addr: Addr)
    requires SplitAt(a, addr, b) && e.addr == Stored(addr) && !Admits(a + b, addr)
    ensures !Sorted(a + [e] + b)
  {
    var n :| n in a + b && Less(n.addr, addr) && !Less(n.addr, Stored(addr));
    var i :| 0 <= i < |a + b| && (a + b)[i] == n;
    if i >= |a| {
      assert b[i - |a|] == n;
      MemcmpOrder(addr, n.addr);
    }
    assert (a + [e] + b)[i] == n && (a + [e] + b)[|a|] == e;
  }

  lemma InsertMembers(s: seq<RbNode>, e: RbNode, at: nat, a: seq<Byte>)
    requires at <= |s|
    ensures forall n :: n in s[..at] + [e] + s[at..] <==> n in s || n == e
    ensures HasKey(s[..at] + [e] + s[at..], a) <==> HasKey(s, a) || e.addr == a
  {
    var s' := s[..at] + [e] + s[at..];
    assert s == s[..at] + s[at..];
    assert e in s';
    assert forall n :: n in s ==> n in s[..at] || n in s[at..];
    if HasKey(s, a) {
      var n :| n in s && n.addr == a;
      assert n in s';
    }
  }

  /** An IPv4 address whose last byte is garbage. */
  function DirtyAddr(): Addr {
    [AF_INET] + seq(ADDR_SIZE - 2, _ => 0) + [1]
  }

  /** Asking twice for an address that is not clean makes two entries with one key: the first does
      not satisfy the second search, and the order is lost. `DirtyAddr` is such an address. */
  lemma DirtyGetTwice(addr: Addr, e1: RbNode, e2: RbNode)
    requires !Clean(addr) && e1.addr == Stored(addr) && e2.addr == Stored(addr)
    ensures !HasKey([e1], addr) && SplitAt([e1], addr, []) && !Sorted([e1] + [e2] + [])
    ensures !Clean(DirtyAddr())
  {
    StoredClean(addr);
    MemcmpOrder(Stored(addr), Stored(addr));
    assert ([e1] + [e2] + [])[0] == e1 && ([e1] + [e2] + [])[1] == e2;
    assert DirtyAddr()[ADDR_SIZE - 1] == 1;
  }

  // ---------------------------------------------------------------- the search path

  /** Every comparison on the way down to the hole sent the search for `a` this way. */
  ghost predicate PathFor(c: Ctx, a: seq<Byte>) {
    match c
    case Top => true
    case Up(side, n, _, _, outer) =>
      (if side == Left then Less(a, n.addr) else Less(n.addr, a)) && PathFor(outer, a)
  }

  /** In a sorted tree, what lies beside the path is on the right side of the key searched for. */
  lemma {:induction false} PathSplits(c: Ctx, t: Tree, a: seq<Byte>)
    requires PathFor(c, a) && Sorted(Around(c, InOrder(t)))
    ensures SplitAt(Before(c), a, After(c))
    decreases c
  {
    hide Less, InOrder;
    match c
    case Top =>
    case Up(side, n, col, sib, outer) =>
      AroundUp(side, n, col, sib, outer, t);
      PathSplits(outer, Br(side, t, n, col, sib), a);
      var s := Around(c, InOrder(t));
      if side == Left {
        var from := |Before(c)| + |InOrder(t)|;
        forall i | 0 <= i < |InOrder(sib)|
          ensures Less(a, InOrder(sib)[i].addr)
        {
          assert s[from] == n && s[from + 1 + i] == InOrder(sib)[i];
          LessTrans(a, n.addr, InOrder(sib)[i].addr);
        }
      } else {
        var from := |Before(outer)|;
        forall i | 0 <= i < |InOrder(sib)|
          ensures Less(InOrder(sib)[i].addr, a)
        {
          assert s[from + i] == InOrder(sib)[i] && s[from + |InOrder(sib)|] == n;
          LessTrans(InOrder(sib)[i].addr, n.addr, a);
        }
      }
  }

  // ---------------------------------------------------------------- search depth

  ghost function Height(t: Tree): nat {
    if t.Leaf? then 0 else 1 + if Height(t.left) > Height(t.right) then Height(t.left) else Height(t.right)
  }

  /** Logarithm to base 2, rounded down. */
  function Log2(n: nat): nat
    requires n > 0
  {
    if n == 1 then 0 else 1 + Log2(n / 2)
  }

  lemma {:induction false} Log2AtLeast(h: nat, n: nat)
    requires Pow2(h) <= n
    ensures h <= Log2(n)
  {
    if h > 0 {
      Log2AtLeast(h - 1, n / 2);
    }
  }

  /** Equal black heights and no red-red edge: a tree of black height `h` has at least `2^h - 1`
      nodes and no path longer than twice that, plus one for a red root. */
  lemma {:induction false} HeightBound(t: Tree, h: nat)
    requires IsRb(t, h)
    ensures Height(t) <= 2 * h + (if IsRed(t) then 1 else 0)
    ensures Pow2(h) <= |InOrder(t)| + 1
    decreases t
  {
    if t.Branch? {
      var g := if t.color == Black then h - 1 else h;
      HeightBound(t.left, g);
      HeightBound(t.right, g);
    }
  }

  lemma {:induction false} DepthBound(c: Ctx, t: Tree)
    ensures Depth(c) + Height(t) <= Height(Plug(c, t))
    decreases c
  {
    match c
    case Top =>
    case Up(side, n, col, sib, outer) => DepthBound(outer, Br(side, t, n, col, sib));
  }

  /** No path of a red-black tree with `n` nodes is longer than `2 * log2(n + 1)`. */
  lemma PathBound(c: Ctx, t: Tree)
    requires RedBlack(Plug(c, t))
    ensures Depth(c) + Height(t) <= 2 * Log2(|InOrder(Plug(c, t))| + 1)
  {
    var w := Plug(c, t);
    DepthBound(c, t);
    HeightBound(w, BlackHeight(w));
    Log2AtLeast(BlackHeight(w), |InOrder(w)| + 1);
  }

  // ---------------------------------------------------------------- rudp_t

  class Rudp {
    var map_: RbRoot

    ghost predicate Valid()
      reads this, map_, map_.nodes
    {
      map_.Valid() && forall n :: n in map_.nodes ==> |n.addr| == ADDR_SIZE
    }

    ghost function Entries(): seq<RbNode>
      reads this, map_
    {
      InOrder(map_.tree)
    }

    constructor ()
      ensures Valid() && Entries() == [] && fresh(map_) && map_.nodes == {}
    {
      map_ := new RbRoot();
    }

    /** On the way down: `n` is the root of what is left to search. */
    ghost predicate At(addr: Addr, n: RbNode?, c: Ctx, t: Tree)
      reads this, map_, map_.nodes
    {
      && map_.Holds(c, t) && Plug(c, t) == map_.tree && Root(t) == n && PathFor(c, addr)
      && (t.Branch? ==> n in map_.nodes && n.left == Root(t.left) && n.right == Root(t.right))
    }

    /** One step down, to the side on which the address lies. */
    method Down(addr: Addr, n: RbNode, cmp: int, ghost c: Ctx, ghost t: Tree)
      returns (next: RbNode?, side: Side, ghost c': Ctx, ghost t': Tree)
      requires Valid() && At(addr, n, c, t) && cmp != 0
      requires if cmp < 0 then Less(addr, n.addr) else Less(n.addr, addr)
      ensures At(addr, next, c', t') && t.Branch? && t' < t && Depth(c') == Depth(c) + 1
      ensures ParentOf(c') == n && c'.Up? && c'.side == side
    {
      hide Links, CtxLinks, Sorted, RedBlack, Less;
      side := if cmp < 0 then Left else Right;
      t' := if cmp < 0 then t.left else t.right;
      ghost var sib := if cmp < 0 then t.right else t.left;
      Refocus(map_.Snapshot(), map_.rank, map_.root, side, n, t.color, sib, c, t');
      c' := Up(side, n, t.color, sib, c);
      next := Child(n, side);
      FocusParts(map_.Snapshot(), map_.rank, map_.root, c', t');
    }

    /** The descent that `rudp_insert`, `rudp_search` and `rudp_get` share. */
    method Descend(addr: Addr) returns (e: RbNode?, parent: RbNode?, side: Side, ghost c: Ctx, ghost steps: nat)
      requires Valid()
      ensures PathFor(c, addr)
      ensures e == null ==> Plug(c, Leaf) == map_.tree && parent == ParentOf(c) && (c.Up? ==> c.side == side)
      ensures e == null ==> InOrder(map_.tree) == Before(c) + After(c)
      ensures e != null ==> e in Entries() && e.addr == addr
      ensures steps <= 2 * Log2(|Entries()| + 1)
    {
      hide Links, CtxLinks, Sorted, RedBlack, Log2, Less, IsRb, BlackHeight, Height;
      var n := map_.root;
      ghost var t := map_.tree;
      parent, side, c := null, Left, Top;
      steps := 0;
      FocusParts(map_.Snapshot(), map_.rank, map_.root, c, t);
      while n != null
        invariant At(addr, n, c, t) && steps == Depth(c)
        invariant parent == ParentOf(c) && (c.Up? ==> c.side == side)
        decreases t
      {
        parent := n;
        steps := steps + 1;
        var cmp := Compare(addr, n.addr);
        if cmp == 0 {
          FoundAt(c, t);
          e := n;
          return;
        }
        n, side, c, t := Down(addr, n, cmp, c, t);
      }
      e := null;
      PathBound(c, t);
      InOrderPlug(c, Leaf);
    }

    ghost predicate Ordered()
      reads this, map_
    {
      Sorted(Entries())
    }

    ghost function View(): map<seq<Byte>, RbNode>
      requires Ordered()
      reads this, map_
    {
      ViewOf(Entries())
    }

    /** `rudp_search`. */
    method Search(addr: Addr) returns (e: RbNode?, ghost steps: nat)
      requires Valid()
      ensures e != null ==> e in Entries() && e.addr == addr
      ensures Ordered() ==> e == if addr in View() then View()[addr] else null
      ensures steps <= 2 * Log2(|Entries()| + 1)
    {
      var parent, side;
      ghost var c;
      e, parent, side, c, steps := Descend(addr);
      if Ordered() {
        ViewMembers(Entries());
        if e == null {
          MissMeansAbsent(map_.tree, c, addr);
        }
      }
    }

    /** `rudp_insert`. */
    method Insert(entry: RbNode) returns (ok: bool)
      requires Valid() && |entry.addr| == ADDR_SIZE && entry !in map_.nodes
      modifies map_, entry, map_.nodes
      ensures Valid()
      ensures old(Ordered()) ==> Ordered() && ok == (entry.addr !in old(View()))
      ensures old(Ordered()) ==> View() == if ok then old(View())[entry.addr := entry] else old(View())
      ensures !ok ==> Entries() == old(Entries())
    {
      ghost var s0 := Entries();
      var e, parent, side;
      ghost var c, steps;
      e, parent, side, c, steps := Descend(entry.addr);
      if e == null {
        map_.Insert(entry, parent, side, c);
        if Sorted(s0) {
          MissMeansAbsent(old(map_.tree), c, entry.addr);
          ViewInsert(Before(c), entry, After(c));
        }
      } else if Ordered() {
        ViewMembers(Entries());
      }
      ok := e == null;
    }

    /** `rudp_get`: finds the entry, or makes one. The key of a new entry is `Stored(addr)`, which is
        what was asked for only when `addr` is clean; the place is the one where `addr` belongs. */
    method Get(addr: Addr) returns (e: RbNode, ghost at: nat)
      requires Valid()
      modifies map_, map_.nodes
      ensures Valid() && e in Entries() && fresh(map_.nodes - old(map_.nodes))
      ensures forall n :: n in old(Entries()) ==> n in Entries()
      ensures old(Ordered()) && addr in old(View()) ==> e == old(View())[addr] && Entries() == old(Entries())
      ensures !HasKey(old(Entries()), addr) ==>
                && fresh(e) && e.addr == Stored(addr)
                && at <= |old(Entries())| && Entries() == old(Entries())[..at] + [e] + old(Entries())[at..]
      ensures old(Ordered()) && addr !in old(View()) ==>
                && !HasKey(old(Entries()), addr) && SplitAt(old(Entries())[..at], addr, old(Entries())[at..])
      ensures old(Ordered()) ==> (Ordered() <==> addr in old(View()) || Admits(old(Entries()), addr))
      ensures old(Ordered()) ==> (HasKey(Entries(), addr) <==> addr in old(View()) || Clean(addr))
      ensures old(Ordered()) && Clean(addr) ==>
                Ordered() && View() == if addr in old(View()) then old(View()) else old(View())[addr := e]
    {
      hide RbRoot.Valid, Less, SplitAt, Sorted, InOrder, Plug, Before, After, Admits;
      ghost var s0 := Entries();
      var hit, parent, side;
      ghost var c, steps;
      hit, parent, side, c, steps := Descend(addr);
      at := |Before(c)|;
      if hit != null {
        e := hit;
        if Ordered() {
          ViewMembers(s0);
        }
      } else {
        e := new RbNode(Stored(addr));
        map_.Insert(e, parent, side, c);
        if Sorted(s0) {
          MissMeansAbsent(old(map_.tree), c, addr);
          GetOrder(Before(c), e, After(c), addr);
        }
      }
    }

    /** Two calls of `rudp_get` for one address that the map does not have. In whatever order the entries
        are, an address that is not clean gets two entries with one key, and the order is lost; from an
        ordered map, the second call finds the entry of the first if and only if the address is clean. */
    method GetTwice(addr: Addr) returns (e1: RbNode, e2: RbNode)
      requires Valid() && !HasKey(Entries(), addr)
      modifies map_, map_.nodes
      ensures Valid() && e1 in Entries() && e2 in Entries() && e1.addr == Stored(addr)
      ensures !Clean(addr) ==> e1 != e2 && e2.addr == Stored(addr) && !Ordered() && !HasKey(Entries(), addr)
      ensures !Clean(addr) ==> |Entries()| == |old(Entries())| + 2
      ensures old(Ordered()) ==> (e1 == e2 <==> Clean(addr)) && (Ordered() <==> Clean(addr))
    {
      hide RbRoot.Valid, Less, SplitAt, InOrder, Admits, Sorted;
      ghost var at1, at2;
      ghost var s0 := Entries();
      e1, at1 := Get(addr);
      ghost var s1 := Entries();
      StoredClean(addr);
      if Sorted(s0) {
        ViewMembers(s0);
      }
      e2, at2 := Get(addr);
      if !Clean(addr) {
        InsertMembers(s0, e1, at1, addr);
        InsertMembers(s1, e2, at2, addr);
      }
      if Sorted(Entries()) {
        KeysUnique(Entries());
      }
    }

    /** `rudp_remove`: the entry leaves the map but stays allocated. */
    method Remove(addr: Addr) returns (e: RbNode?)
      requires Valid()
      modifies map_, map_.nodes
      ensures Valid()
      ensures old(Ordered()) ==> Ordered() && e == (if addr in old(View()) then old(View())[addr] else null)
      ensures old(Ordered()) ==> View() == old(View()) - {addr}
      ensures e != null ==> e in old(Entries()) && e !in Entries() && e !in map_.nodes
    {
      ghost var s0 := Entries();
      ghost var steps;
      e, steps := Search(addr);
      if e != null {
        ghost var at := map_.Erase(e);
        if Sorted(s0) {
          ViewRemove(s0, Entries(), at, e);
        }
      }
    }

    /** `rudp_del`: `rudp_remove`, after which the entry is freed. */
    method Del(addr: Addr)
      requires Valid()
      modifies map_, map_.nodes
      ensures Valid()
      ensures old(Ordered()) ==> Ordered() && View() == old(View()) - {addr}
    {
      var e := Remove(addr);
    }

    /** `rudp_cleanup`: erase the root until the tree is empty. */
    method Cleanup()
      requires Valid()
      modifies map_, map_.nodes
      ensures Valid() && Entries() == [] && map_.root == null
    {
      FocusParts(map_.Snapshot(), map_.rank, map_.root, Top, map_.tree);
      while map_.root != null
        invariant Valid() && map_ == old(map_) && map_.nodes <= old(map_.nodes)
        invariant map_.root == Root(map_.tree)
        decreases |Entries()|
      {
        var n := map_.root;
        assert n in Entries();
        ghost var at := map_.Erase(n);
        FocusParts(map_.Snapshot(), map_.rank, map_.root, Top, map_.tree);
      }
    }
  }

  lemma MissMeansAbsent(t: Tree, c: Ctx, addr: seq<Byte>)
    requires PathFor(c, addr) && Plug(c, Leaf) == t && Sorted(InOrder(t))
    ensures SplitAt(Before(c), addr, After(c)) && addr !in ViewOf(InOrder(t))
  {
    InOrderPlug(c, Leaf);
    assert Around(c, InOrder(Leaf)) == InOrder(t) == Before(c) + After(c);
    PathSplits(c, Leaf, addr);
    ViewMembers(InOrder(t));
    MemcmpOrder(addr, addr);
    assert forall n :: n in InOrder(t) ==> n in Before(c) || n in After(c);
  }

  method Compare(a: seq<Byte>, b: seq<Byte>) returns (cmp: int)
    requires |a| == |b|
    ensures cmp == 0 <==> a == b
    ensures cmp < 0 <==> Less(a, b)
    ensures cmp > 0 <==> Less(b, a)
  {
    MemcmpOrder(a, b);
    MemcmpOrder(b, a);
    cmp := Memcmp(a, b);
  }

  lemma FoundAt(c: Ctx, t: Tree)
    requires t.Branch? && RedBlack(Plug(c, t))
    ensures t.node in InOrder(Plug(c, t))
    ensures Depth(c) + 1 <= 2 * Log2(|InOrder(Plug(c, t))| + 1)
  {
    InOrderPlug(c, t);
    assert t.node in InOrder(t);
    PathBound(c, t);
  }
}
