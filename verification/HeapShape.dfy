/** The pointer heap of lib/libhv/base/heap.h as a value: the nodes in level order, and what that
    says about every link field. */
module HeapShape {

  /** A heap node together with the `htimeout_t` that embeds it. `key` is the timer's
      `next_timeout`, the only field `timers_compare` (lib/libhv/event/hloop.c) looks at; the heap
      itself writes only the three links. */
  class HeapNode {
    var parent: HeapNode?
    var left: HeapNode?
    var right: HeapNode?
    var key: nat
    var timeout: nat
    var repeat: nat
    var destroy: bool
    var active: bool
    var pending: bool

    constructor (key: nat, timeout: nat, repeat: nat)
      ensures this.key == key && this.timeout == timeout && this.repeat == repeat
      ensures left == null && right == null && parent == null && !destroy && active && !pending
    {
      this.key, this.timeout, this.repeat := key, timeout, repeat;
      parent, left, right := null, null, null;
      destroy, active, pending := false, true, false;
    }
  }

  datatype Rec = Rec(parent: HeapNode?, left: HeapNode?, right: HeapNode?)

  type Mem = map<HeapNode, Rec>

  ghost function At(s: seq<HeapNode>, k: nat): HeapNode? {
    if k < |s| then s[k] else null
  }

  ghost function Up(k: nat): nat
    requires k > 0
  {
    (k - 1) / 2
  }

  ghost function ParentAt(s: seq<HeapNode>, k: nat): HeapNode?
    requires k < |s|
  {
    if k == 0 then null else s[Up(k)]
  }

  /** The links of the node at level-order index `k` of a complete binary tree. */
  ghost function RecAt(s: seq<HeapNode>, k: nat): Rec
    requires k < |s|
  {
    Rec(ParentAt(s, k), At(s, 2 * k + 1), At(s, 2 * k + 2))
  }

  ghost predicate Differ(s: seq<HeapNode>, i: nat, j: nat) {
    i < |s| && j < |s| && i != j ==> s[i] != s[j]
  }

  ghost predicate NoDup(s: seq<HeapNode>) {
    forall i: nat, j: nat {:trigger Differ(s, i, j)} :: Differ(s, i, j)
  }

  ghost predicate Has(s: seq<HeapNode>, x: HeapNode) {
    exists k :: 0 <= k < |s| && s[k] == x
  }

  /** Every one of `nodes` has a place in `s`. */
  ghost predicate Covers(s: seq<HeapNode>, nodes: set<HeapNode>) {
    forall x {:trigger Has(s, x)} :: x in nodes ==> Has(s, x)
  }

  ghost predicate LinkedAt(m: Mem, s: seq<HeapNode>, k: nat)
    requires k < |s|
  {
    s[k] in m && m[s[k]] == RecAt(s, k)
  }

  /** The snapshot is the complete binary tree with `s` in level order, all links consistent. */
  ghost predicate Shows(m: Mem, root: HeapNode?, s: seq<HeapNode>) {
    && NoDup(s) && root == At(s, 0)
    && forall k {:trigger LinkedAt(m, s, k)} :: 0 <= k < |s| ==> LinkedAt(m, s, k)
  }

  lemma LastSlot(m: Mem, root: HeapNode?, s: seq<HeapNode>)
    requires Shows(m, root, s)
    ensures root == At(s, 0) && (s != [] ==> root in m && s[Up(|s|)] in m && LinkedAt(m, s, Up(|s|)))
  {
    assert s != [] ==> LinkedAt(m, s, Up(|s|)) && LinkedAt(m, s, 0);
  }

  ghost function Swapped(s: seq<HeapNode>, i: nat, j: nat): seq<HeapNode>
    requires i < |s| && j < |s|
  {
    s[i := s[j]][j := s[i]]
  }

  ghost predicate ChildOf(j: nat, i: nat) {
    j == 2 * i + 1 || j == 2 * i + 2
  }

  /** The links of the node at index `k` after `heap_swap` of the node at `i` with its child at `j`. */
  ghost function SwapRec(s: seq<HeapNode>, i: nat, j: nat, k: nat): Rec
    requires i < |s| && j < |s| && k < |s|
  {
    var r := RecAt(s, k);
    if k == j then
      if j == 2 * i + 1 then Rec(ParentAt(s, i), s[i], At(s, 2 * i + 2))
        else Rec(ParentAt(s, i), At(s, 2 * i + 1), s[i])
    else if k == i then Rec(s[j], At(s, 2 * j + 1), At(s, 2 * j + 2))
    else if ChildOf(k, i) then r.(parent := s[j])
    else if ChildOf(k, j) then r.(parent := s[i])
    else if i == 2 * k + 1 then r.(left := s[j])
    else if i == 2 * k + 2 then r.(right := s[j])
    else r
  }

  ghost predicate SwapWritten(m': Mem, s: seq<HeapNode>, i: nat, j: nat)
    requires i < |s| && j < |s|
  {
    forall k :: 0 <= k < |s| ==> s[k] in m' && m'[s[k]] == SwapRec(s, i, j, k)
  }

  lemma SwapShows(m': Mem, root': HeapNode?, s: seq<HeapNode>, i: nat, j: nat)
    requires NoDup(s) && j < |s| && ChildOf(j, i) && SwapWritten(m', s, i, j)
    requires root' == if i == 0 then s[j] else s[0]
    ensures Shows(m', root', Swapped(s, i, j))
  {
    var t := Swapped(s, i, j);
    SwapNoDup(s, i, j);
    forall k | 0 <= k < |t|
      ensures LinkedAt(m', t, k)
    {
      SwapAt(s, i, j, k);
      var b := if k == i then j else if k == j then i else k;
      assert t[k] == s[b];
    }
  }

  lemma SwapNoDup(s: seq<HeapNode>, i: nat, j: nat)
    requires NoDup(s) && i < |s| && j < |s|
    ensures NoDup(Swapped(s, i, j))
  {
    var t := Swapped(s, i, j);
    forall a: nat, b: nat {:trigger Differ(t, a, b)}
      ensures Differ(t, a, b)
    {
      assert Differ(s, if a == i then j else if a == j then i else a, if b == i then j else if b == j then i else b);
    }
  }

  lemma SwapAt(s: seq<HeapNode>, i: nat, j: nat, k: nat)
    requires j < |s| && ChildOf(j, i) && k < |s|
    ensures SwapRec(s, i, j, if k == i then j else if k == j then i else k) == RecAt(Swapped(s, i, j), k)
  {
    if k > 0 {
      assert Up(k) == i <==> ChildOf(k, i);
      assert Up(k) == j <==> ChildOf(k, j);
    }
  }

  // ---------------------------------------------------------------- heap_swap, node by node

  /** The nodes around a parent and its child are in memory and all different. */
  ghost predicate Family(m: Mem, p: HeapNode, c: HeapNode)
    requires p in m && c in m
  {
    var g, a, b, l, r := m[p].parent, m[p].left, m[p].right, m[c].left, m[c].right;
    && p != c
    && (g != null ==> g in m && g != p && g != c && g != a && g != b && g != l && g != r)
    && (a != null ==> a in m && a != p && a != b && a != l && a != r)
    && (b != null ==> b in m && b != p && b != l && b != r)
    && (l != null ==> l in m && l != p && l != c && l != r)
    && (r != null ==> r in m && r != p && r != c)
  }

  /** The links of any node `x` after `heap_swap(p, c)`, told from the links before. */
  ghost function FlatRec(m: Mem, p: HeapNode, c: HeapNode, x: HeapNode): Rec
    requires p in m && c in m && x in m
  {
    var g, a, b, l, r := m[p].parent, m[p].left, m[p].right, m[c].left, m[c].right;
    if x == c then (if a == c then Rec(g, p, b) else Rec(g, a, p))
    else if x == p then Rec(c, l, r)
    else if x == l || x == r then m[x].(parent := p)
    else if x == a || x == b then m[x].(parent := c)
    else if x == g then
      (if m[x].left == p then m[x].(left := c) else if m[x].right == p then m[x].(right := c) else m[x])
    else m[x]
  }

  ghost function Redirected(m: Mem, p: HeapNode?, old_: HeapNode, new_: HeapNode?): Mem
    requires p != null ==> p in m
  {
    if p == null then m
    else if m[p].left == old_ then m[p := m[p].(left := new_)]
    else if m[p].right == old_ then m[p := m[p].(right := new_)]
    else m
  }

  ghost function Adopted(m: Mem, x: HeapNode?, p: HeapNode?): Mem
    requires x != null ==> x in m
  {
    if x == null then m else m[x := m[x].(parent := p)]
  }

  /** The writes of `heap_swap` in program order: the neighbours first, then the pair itself. */
  ghost function SwapAround(m: Mem, p: HeapNode, c: HeapNode): Mem
    requires p in m && c in m && Family(m, p, c)
  {
    Adopted(Adopted(Redirected(m, m[p].parent, p, c), m[c].left, p), m[c].right, p)
  }

  ghost function SwapPair(m: Mem, p: HeapNode, c: HeapNode, g: HeapNode?, l: HeapNode?, r: HeapNode?): Mem
    requires p in m && (m[p].left != null ==> m[p].left in m) && (m[p].right != null ==> m[p].right in m)
  {
    var left := m[p].left == c;
    var sib := if left then m[p].right else m[p].left;
    Adopted(m[c := if left then Rec(g, p, sib) else Rec(g, sib, p)], sib, c)[p := Rec(c, l, r)]
  }

  ghost function SwapChain(m: Mem, p: HeapNode, c: HeapNode): Mem
    requires p in m && c in m && Family(m, p, c)
  {
    SwapPair(SwapAround(m, p, c), p, c, m[p].parent, m[c].left, m[c].right)
  }

  lemma FlatChain(m: Mem, p: HeapNode, c: HeapNode, x: HeapNode)
    requires p in m && c in m && Family(m, p, c) && (m[p].left == c || m[p].right == c) && x in m
    ensures x in SwapChain(m, p, c) && SwapChain(m, p, c)[x] == FlatRec(m, p, c, x)
  {
  }

  /** Different places hold different nodes. */
  lemma PlaceOf(s: seq<HeapNode>, k: nat, j: nat)
    requires NoDup(s) && k < |s|
    ensures At(s, j) == s[k] <==> j == k
  {
    assert Differ(s, j, k);
  }

  lemma SwapFamily(m: Mem, root: HeapNode?, s: seq<HeapNode>, i: nat, j: nat)
    requires Shows(m, root, s) && j < |s| && ChildOf(j, i)
    ensures s[i] in m && s[j] in m && Family(m, s[i], s[j])
    ensures m[s[i]] == RecAt(s, i) && m[s[j]] == RecAt(s, j) && m[s[j]].parent == s[i]
  {
    assert Up(j) == i && LinkedAt(m, s, i) && LinkedAt(m, s, j);
    assert i > 0 ==> LinkedAt(m, s, Up(i));
    assert 2 * i + 1 < |s| ==> LinkedAt(m, s, 2 * i + 1);
    assert 2 * i + 2 < |s| ==> LinkedAt(m, s, 2 * i + 2);
    assert 2 * j + 1 < |s| ==> LinkedAt(m, s, 2 * j + 1);
    assert 2 * j + 2 < |s| ==> LinkedAt(m, s, 2 * j + 2);
    var a, b, l, r := 2 * i + 1, 2 * i + 2, 2 * j + 1, 2 * j + 2;
    assert Differ(s, i, j) && Differ(s, a, b) && Differ(s, l, r);
    assert Differ(s, i, a) && Differ(s, i, b) && Differ(s, i, l) && Differ(s, i, r);
    assert Differ(s, j, l) && Differ(s, j, r);
    assert Differ(s, a, l) && Differ(s, a, r) && Differ(s, b, l) && Differ(s, b, r);
    if i > 0 {
      var g := Up(i);
      assert Differ(s, g, i) && Differ(s, g, j) && Differ(s, g, a) && Differ(s, g, b);
      assert Differ(s, g, l) && Differ(s, g, r);
    }
  }

  lemma SwapFlat(m: Mem, root: HeapNode?, s: seq<HeapNode>, i: nat, j: nat, k: nat)
    requires Shows(m, root, s) && j < |s| && ChildOf(j, i) && k < |s|
    ensures s[i] in m && s[j] in m && s[k] in m && FlatRec(m, s[i], s[j], s[k]) == SwapRec(s, i, j, k)
  {
    assert LinkedAt(m, s, i) && LinkedAt(m, s, j) && LinkedAt(m, s, k);
    PlaceOf(s, k, i);
    PlaceOf(s, k, j);
    PlaceOf(s, k, 2 * i + 1);
    PlaceOf(s, k, 2 * i + 2);
    PlaceOf(s, k, 2 * j + 1);
    PlaceOf(s, k, 2 * j + 2);
    PlaceOf(s, i, 2 * k + 1);
    PlaceOf(s, i, 2 * k + 2);
    if i > 0 {
      PlaceOf(s, k, Up(i));
    }
  }

  lemma SwapAll(m: Mem, root: HeapNode?, s: seq<HeapNode>, i: nat, j: nat)
    requires Shows(m, root, s) && j < |s| && ChildOf(j, i)
    requires s[i] in m && s[j] in m && Family(m, s[i], s[j])
    ensures SwapWritten(SwapChain(m, s[i], s[j]), s, i, j)
  {
    SwapFamily(m, root, s, i, j);
    forall k | 0 <= k < |s|
      ensures s[k] in SwapChain(m, s[i], s[j]) && SwapChain(m, s[i], s[j])[s[k]] == SwapRec(s, i, j, k)
    {
      SwapFlat(m, root, s, i, j, k);
      FlatChain(m, s[i], s[j], s[k]);
    }
  }

  lemma SwapCovers(s: seq<HeapNode>, i: nat, j: nat, nodes: set<HeapNode>)
    requires i < |s| && j < |s| && Covers(s, nodes)
    ensures Covers(Swapped(s, i, j), nodes)
  {
    var t := Swapped(s, i, j);
    forall x | x in nodes
      ensures Has(t, x)
    {
      assert Has(s, x);
      var k :| 0 <= k < |s| && s[k] == x;
      assert t[if k == i then j else if k == j then i else k] == x;
    }
  }

  /** The writes of `heap_swap` represent the sequence with the two nodes exchanged. */
  lemma SwapResult(m: Mem, root: HeapNode?, root': HeapNode?, s: seq<HeapNode>, i: nat, j: nat)
    requires Shows(m, root, s) && j < |s| && ChildOf(j, i)
    requires s[i] in m && s[j] in m && Family(m, s[i], s[j])
    requires root' == if i == 0 then s[j] else root
    ensures Shows(SwapChain(m, s[i], s[j]), root', Swapped(s, i, j))
  {
    SwapAll(m, root, s, i, j);
    SwapShows(SwapChain(m, s[i], s[j]), root', s, i, j);
  }

  // ---------------------------------------------------------------- growing, shrinking, replacing

  lemma AppendShows(m: Mem, root: HeapNode?, root': HeapNode?, s: seq<HeapNode>, n: HeapNode)
    requires Shows(m, root, s) && n !in m
    requires s != [] ==> s[Up(|s|)] in m
    requires root' == if s == [] then n else root
    ensures var p := if s == [] then null else s[Up(|s|)];
            Shows(Hooked(m, p, |s| % 2 == 0, n)[n := Rec(p, null, null)], root', s + [n])
  {
    var p := if s == [] then null else s[Up(|s|)];
    var m' := Hooked(m, p, |s| % 2 == 0, n)[n := Rec(p, null, null)];
    var t := s + [n];
    forall a: nat, b: nat {:trigger Differ(t, a, b)}
      ensures Differ(t, a, b)
    {
      assert Differ(s, a, b);
      assert a < |s| ==> LinkedAt(m, s, a);
      assert b < |s| ==> LinkedAt(m, s, b);
    }
    forall k | 0 <= k < |t|
      ensures LinkedAt(m', t, k)
    {
      if k < |s| {
        assert LinkedAt(m, s, k) && LinkedAt(m, s, Up(|s|)) && Differ(s, k, Up(|s|));
        assert k == Up(|s|) <==> |s| == 2 * k + 1 || |s| == 2 * k + 2;
      }
    }
  }

  ghost function Hooked(m: Mem, p: HeapNode?, right: bool, n: HeapNode): Mem
    requires p != null ==> p in m
  {
    if p == null then m else if right then m[p := m[p].(right := n)] else m[p := m[p].(left := n)]
  }

  /** Unhooking the last node from its parent. */
  ghost function Unhooked(m: Mem, p: HeapNode, right: bool): Mem
    requires p in m
  {
    if right then m[p := m[p].(right := null)] else m[p := m[p].(left := null)]
  }

  lemma DropShows(m: Mem, root: HeapNode?, s: seq<HeapNode>)
    requires Shows(m, root, s) && |s| >= 2
    ensures s[Up(|s| - 1)] in m
    ensures Shows(Unhooked(m, s[Up(|s| - 1)], |s| % 2 == 1), root, s[..|s| - 1])
  {
    var n := |s| - 1;
    var t := s[..n];
    assert LinkedAt(m, s, Up(n));
    var m' := Unhooked(m, s[Up(n)], |s| % 2 == 1);
    forall a: nat, b: nat {:trigger Differ(t, a, b)}
      ensures Differ(t, a, b)
    {
      assert Differ(s, a, b);
    }
    forall k | 0 <= k < |t|
      ensures LinkedAt(m', t, k)
    {
      assert LinkedAt(m, s, k) && Differ(s, k, Up(n));
      assert k == Up(n) <==> n == 2 * k + 1 || n == 2 * k + 2;
    }
  }

  /** The writes of `heap_replace(heap, x, r)`: to the neighbours, and then to `r`. */
  ghost function Around(m: Mem, x: HeapNode, r: HeapNode): Mem
    requires x in m && Closed(m, x)
  {
    Adopted(Adopted(Redirected(m, m[x].parent, x, r), m[x].left, r), m[x].right, r)
  }

  ghost function ReplaceChain(m: Mem, x: HeapNode, r: HeapNode): Mem
    requires x in m && Closed(m, x)
  {
    Around(m, x, r)[r := m[x]]
  }

  lemma AroundKeeps(m: Mem, x: HeapNode, r: HeapNode)
    requires x in m && Closed(m, x) && m[x].parent != x && m[x].left != x && m[x].right != x
    ensures Around(m, x, r).Keys == m.Keys && Around(m, x, r)[x] == m[x]
  {
  }

  /** Clearing the links of `x` afterwards touches nothing that `r` and the neighbours got. */
  lemma ReplaceUndo(m: Mem, x: HeapNode, r: HeapNode)
    requires x in m && Closed(m, x) && r != x && m[x].parent != x && m[x].left != x && m[x].right != x
    ensures Around(m, x, r)[x := Rec(null, null, null)][r := m[x]][x := m[x]] == ReplaceChain(m, x, r)
  {
  }

  ghost predicate Closed(m: Mem, x: HeapNode)
    requires x in m
  {
    && (m[x].parent != null ==> m[x].parent in m)
    && (m[x].left != null ==> m[x].left in m)
    && (m[x].right != null ==> m[x].right in m)
  }

  lemma ReplaceAt(m: Mem, root: HeapNode?, s: seq<HeapNode>, i: nat, r: HeapNode, k: nat)
    requires Shows(m, root, s) && i < |s| && k < |s| && r !in m
    requires s[i] in m && Closed(m, s[i])
    ensures LinkedAt(ReplaceChain(m, s[i], r), s[i := r], k)
  {
    var t := s[i := r];
    assert LinkedAt(m, s, i) && LinkedAt(m, s, k);
    assert i > 0 ==> LinkedAt(m, s, Up(i));
    PlaceOf(s, k, i);
    PlaceOf(s, k, 2 * i + 1);
    PlaceOf(s, k, 2 * i + 2);
    PlaceOf(s, i, 2 * k + 1);
    PlaceOf(s, i, 2 * k + 2);
    if i > 0 {
      PlaceOf(s, k, Up(i));
    }
    if k > 0 {
      assert Up(k) == i <==> ChildOf(k, i);
    }
  }

  lemma ReplaceShows(m: Mem, root: HeapNode?, root': HeapNode?, s: seq<HeapNode>, i: nat,
          r: HeapNode)
    requires Shows(m, root, s) && i < |s| && r !in m
    requires s[i] in m && Closed(m, s[i])
    requires root' == if i == 0 then r else root
    ensures Shows(ReplaceChain(m, s[i], r), root', s[i := r])
  {
    var m', t := ReplaceChain(m, s[i], r), s[i := r];
    forall a: nat, b: nat {:trigger Differ(t, a, b)}
      ensures Differ(t, a, b)
    {
      assert Differ(s, a, b);
      assert a < |s| ==> LinkedAt(m, s, a);
      assert b < |s| ==> LinkedAt(m, s, b);
    }
    forall k {:trigger LinkedAt(m', t, k)} | 0 <= k < |t|
      ensures LinkedAt(m', t, k)
    {
      ReplaceAt(m, root, s, i, r, k);
    }
  }

  /** The neighbours of a node of the heap are in memory, and none of them is the node. */
  lemma Neighbours(m: Mem, root: HeapNode?, s: seq<HeapNode>, i: nat)
    requires Shows(m, root, s) && i < |s|
    ensures s[i] in m && m[s[i]] == RecAt(s, i) && Closed(m, s[i])
    ensures m[s[i]].parent != s[i] && m[s[i]].left != s[i] && m[s[i]].right != s[i]
  {
    assert LinkedAt(m, s, i);
    assert i > 0 ==> LinkedAt(m, s, Up(i));
    assert 2 * i + 1 < |s| ==> LinkedAt(m, s, 2 * i + 1);
    assert 2 * i + 2 < |s| ==> LinkedAt(m, s, 2 * i + 2);
    assert Differ(s, i, 2 * i + 1) && Differ(s, i, 2 * i + 2) && (i > 0 ==> Differ(s, Up(i), i));
  }

  /** Only the nodes of `s` matter. */
  lemma ShowsWithin(m: Mem, m': Mem, root: HeapNode?, s: seq<HeapNode>, gone: HeapNode)
    requires Shows(m, root, s) && !Has(s, gone)
    requires forall x :: x in m && x != gone ==> x in m' && m'[x] == m[x]
    ensures Shows(m', root, s)
  {
    forall k {:trigger LinkedAt(m', s, k)} | 0 <= k < |s|
      ensures LinkedAt(m', s, k)
    {
      assert LinkedAt(m, s, k);
    }
  }

  lemma AppendCovers(s: seq<HeapNode>, n: HeapNode, nodes: set<HeapNode>)
    requires Covers(s, nodes)
    ensures Covers(s + [n], nodes + {n})
  {
    var t := s + [n];
    forall x | x in nodes + {n}
      ensures Has(t, x)
    {
      if x == n {
        assert t[|s|] == x;
      } else {
        assert Has(s, x);
        var k :| 0 <= k < |s| && s[k] == x;
        assert t[k] == x;
      }
    }
  }

  lemma PrefixCovers(s: seq<HeapNode>, nodes: set<HeapNode>)
    requires NoDup(s) && |s| > 0 && Covers(s, nodes)
    ensures var n := |s| - 1; Covers(s[..n], nodes - {s[n]}) && !Has(s[..n], s[n])
  {
    var n := |s| - 1;
    var t := s[..n];
    forall x | x in nodes - {s[n]}
      ensures Has(t, x)
    {
      assert Has(s, x);
      var k :| 0 <= k < |s| && s[k] == x;
      assert t[k] == x;
    }
    forall k | 0 <= k < |t|
      ensures t[k] != s[n]
    {
      assert Differ(s, k, n);
    }
  }

  lemma UpdateCovers(s: seq<HeapNode>, i: nat, r: HeapNode, nodes: set<HeapNode>)
    requires NoDup(s) && i < |s| && s[i] != r && Covers(s, nodes)
    ensures Covers(s[i := r], nodes - {s[i]} + {r}) && !Has(s[i := r], s[i])
  {
    var t := s[i := r];
    forall x | x in nodes - {s[i]} + {r}
      ensures Has(t, x)
    {
      if x == r {
        assert t[i] == x;
      } else {
        assert Has(s, x);
        var k :| 0 <= k < |s| && s[k] == x;
        assert t[k] == x;
      }
    }
    forall k | 0 <= k < |t|
      ensures t[k] != s[i]
    {
      assert Differ(s, k, i);
    }
  }

  /** A heap of one node. */
  lemma SingleNode(m: Mem, root: HeapNode?, s: seq<HeapNode>, nodes: set<HeapNode>)
    requires Shows(m, root, s) && |s| == 1 && m.Keys == nodes && Covers(s, nodes)
    ensures nodes == {s[0]} && root == s[0] && m[s[0]] == Rec(null, null, null)
  {
    assert LinkedAt(m, s, 0);
    forall x | x in nodes
      ensures x == s[0]
    {
      assert Has(s, x);
    }
  }

  /** The last node and its parent. */
  lemma LastParts(m: Mem, root: HeapNode?, s: seq<HeapNode>, i: nat)
    requires Shows(m, root, s) && |s| >= 2 && i < |s|
    ensures var n := |s| - 1; var p := s[Up(n)];
            && p in m && s[n] in m && m[s[n]].left == null && m[s[n]].right == null
            && (if |s| % 2 == 1 then m[p].right else m[p].left) == s[n]
            && (s[n] == s[i] <==> i == n) && m[s[n]].parent == p != s[n]
            && Shows(Unhooked(m, p, |s| % 2 == 1), root, s[..n])
  {
    var n := |s| - 1;
    DropShows(m, root, s);
    Neighbours(m, root, s, n);
    Neighbours(m, root, s, Up(n));
    assert Differ(s, n, i);
  }
}
