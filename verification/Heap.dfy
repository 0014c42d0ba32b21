/** lib/libhv/base/heap.h: a priority queue that is a complete binary tree of linked nodes, found
    by the binary digits of the element count. */
module Heap {
  import opened HeapShape
  import opened HeapOrder

  class Heap {
    var root: HeapNode?
    var nelts: nat
    /** The nodes, and the nodes in level order. */
    ghost var nodes: set<HeapNode>
    ghost var s: seq<HeapNode>

    ghost function Snapshot(): Mem
      reads this`nodes, nodes`parent, nodes`left, nodes`right
    {
      map n | n in nodes :: Rec(n.parent, n.left, n.right)
    }

    /** A complete binary tree with consistent links and the right count. */
    ghost predicate Linked()
      reads this, nodes`parent, nodes`left, nodes`right
    {
      Shows(Snapshot(), root, s) && nelts == |s| && Covers(s, nodes)
    }

    ghost function Keys(): KeyMap
      reads this`nodes, nodes`key
    {
      map n | n in nodes :: n.key
    }

    /** A linked heap in which no node is smaller than its parent. */
    ghost predicate Valid()
      reads this, nodes`parent, nodes`left, nodes`right, nodes`key
    {
      Linked() && Ordered(Keys(), s)
    }

    /** `heap_init`. */
    constructor ()
      ensures Valid() && s == [] && nodes == {}
    {
      root, nelts, s, nodes := null, 0, [], {};
    }

    /** `heap_swap`, field by field. */
    method SwapLinks(parent: HeapNode, child: HeapNode)
      requires child.parent == parent && (parent.left == child || parent.right == child)
      requires {parent, child} <= Snapshot().Keys && Family(Snapshot(), parent, child)
      modifies this`root, nodes`parent, nodes`left, nodes`right
      ensures root == if old(parent.parent) == null then child else old(root)
      ensures Snapshot() == SwapChain(old(Snapshot()), parent, child) && Keys() == old(Keys())
    {
      var pparent := parent.parent;
      var lchild := child.left;
      var rchild := child.right;
      Redirect3(pparent, lchild, rchild, parent, child, parent);
      LinkPair(parent, child, pparent, lchild, rchild);
    }

    /** The part of `heap_swap` that relinks the two nodes themselves. */
    method LinkPair(parent: HeapNode, child: HeapNode, pparent: HeapNode?, lchild: HeapNode?, rchild: HeapNode?)
      requires {parent, child} <= Snapshot().Keys && parent != child
      requires (parent.left != null ==> parent.left in nodes) && (parent.right != null ==> parent.right in nodes)
      requires parent.left != parent && parent.right != parent
      modifies nodes`parent, nodes`left, nodes`right
      ensures Snapshot() == SwapPair(old(Snapshot()), parent, child, pparent, lchild, rchild) && Keys() == old(Keys())
    {
      var sibling;
      if parent.left == child {
        sibling := parent.right;
        SetLinks(child, pparent, parent, sibling);
      } else {
        sibling := parent.left;
        SetLinks(child, pparent, sibling, parent);
      }
      Adopt(sibling, child);
      SetLinks(parent, child, lchild, rchild);
    }

    /** Whatever pointed down to `old_` now points to `new_`: the root, or a child link of `p`. */
    method Redirect(p: HeapNode?, old_: HeapNode, new_: HeapNode?)
      requires p != null ==> p in nodes
      modifies this`root, nodes`left, nodes`right
      ensures root == if p == null then new_ else old(root)
      ensures Snapshot() == Redirected(old(Snapshot()), p, old_, new_) && Keys() == old(Keys())
    {
      if p == null {
        root := new_;
      } else if p.left == old_ {
        p.left := new_;
      } else if p.right == old_ {
        p.right := new_;
      }
    }

    /** `if (x) x->parent = p;` */
    method Adopt(x: HeapNode?, p: HeapNode?)
      requires x != null ==> x in nodes
      modifies nodes`parent
      ensures Snapshot() == Adopted(old(Snapshot()), x, p) && Keys() == old(Keys())
    {
      if x != null {
        x.parent := p;
      }
    }

    method SetLinks(x: HeapNode, p: HeapNode?, l: HeapNode?, r: HeapNode?)
      requires x in nodes
      modifies nodes`parent, nodes`left, nodes`right
      ensures Snapshot() == old(Snapshot())[x := Rec(p, l, r)] && Keys() == old(Keys())
    {
      x.parent := p;
      x.left := l;
      x.right := r;
    }

    /** `heap_swap(heap, parent, child)`: two nodes change places, and nothing else does. */
    method Swap(parent: HeapNode, child: HeapNode, ghost i: nat, ghost j: nat)
      requires Linked() && j < |s| && ChildOf(j, i) && s[i] == parent && s[j] == child
      modifies this`root, this`s, nodes`parent, nodes`left, nodes`right
      ensures Linked() && s == Swapped(old(s), i, j) && Keys() == old(Keys())
    {
      ghost var m := Snapshot();
      SwapFamily(m, root, s, i, j);
      SwapLinks(parent, child);
      SwapResult(m, old(root), root, s, i, j);
      SwapCovers(s, i, j, nodes);
      Reorder(Swapped(s, i, j));
    }

    ghost method Reorder(t: seq<HeapNode>)
      requires Shows(Snapshot(), root, t) && nelts == |t| && Covers(t, nodes)
      modifies this`s
      ensures s == t && Linked() && Keys() == old(Keys())
    {
      s := t;
    }

    /** The walk along the path to the parent of the `n`-th place. */
    method FindParent(n: nat) returns (parent: HeapNode?, right: bool)
      requires n >= 1 && |s| >= n - 1 && Shows(Snapshot(), root, s)
      ensures n == 1 ==> parent == root && !right
      ensures n >= 2 ==> parent == s[Up(n - 1)] && right == (n % 2 == 1)
    {
      var path, d := LastPath(n);
      parent := root;
      ghost var p := 1;
      WalkGrows(1, path, d);
      while d > 1
        invariant p >= 1 && Walk(p, path, d) == n && (d == 0 ==> n == 1)
        invariant d >= 1 ==> p - 1 < |s| && parent == s[p - 1]
        invariant d == 0 ==> parent == root && path == 0
        decreases d
      {
        assert LinkedAt(Snapshot(), s, p - 1);
        p := 2 * p + path % 2;
        WalkGrows(p, path / 2, d - 1);
        parent := if path % 2 == 1 then parent.right else parent.left;
        d := d - 1;
        path := path / 2;
      }
      if d == 1 {
        assert Walk(p, path, 1) == Walk(2 * p + path % 2, path / 2, 0);
      }
      right := path % 2 == 1;
    }

    /** `while (v->parent && compare(v, v->parent)) heap_swap(heap, v->parent, v);` */
    method SiftUp(v: HeapNode, ghost j0: nat)
      requires Linked() && j0 < |s| && s[j0] == v && Rising(Keys(), s, j0)
      modifies this`root, this`s, nodes`parent, nodes`left, nodes`right
      ensures Valid() && Keys() == old(Keys()) && |s| == |old(s)|
    {
      ghost var j := j0;
      assert LinkedAt(Snapshot(), s, j);
      while v.parent != null && v.key < v.parent.key
        invariant Linked() && 0 <= j < |s| && s[j] == v && Rising(Keys(), s, j)
        invariant Keys() == old(Keys()) && |s| == |old(s)|
        invariant v.parent == ParentAt(s, j)
        decreases j
      {
        j := SiftUpStep(v, j);
      }
      assert OkAt(Keys(), s, j);
      Risen(Keys(), s, j);
    }

    method SiftUpStep(v: HeapNode, ghost j: nat) returns (ghost i: nat)
      requires Linked() && 0 < j < |s| && s[j] == v && v.parent == s[Up(j)] && Rising(Keys(), s, j)
      requires v.key < v.parent.key
      modifies this`root, this`s, nodes`parent, nodes`left, nodes`right
      ensures Linked() && i == Up(j) && i < |s| && s[i] == v && v.parent == ParentAt(s, i)
      ensures Keys() == old(Keys()) && Rising(Keys(), s, i) && |s| == |old(s)|
    {
      hide Covers, Rising;
      i := Up(j);
      AllKeyed(Snapshot(), Keys(), root, s);
      RiseStep(Keys(), s, j);
      Swap(v.parent, v, i, j);
      assert LinkedAt(Snapshot(), s, i);
    }

    /** `heap_insert`; the node arrives without children, as the source relies on. */
    method Insert(node: HeapNode)
      requires Valid() && node !in nodes && node.left == null && node.right == null
      modifies this, node`parent, node`left, node`right, nodes`parent, nodes`left, nodes`right
      ensures Valid() && nodes == old(nodes) + {node} && |s| == |old(s)| + 1
      ensures Keys() == old(Keys())[node := node.key]
    {
      ghost var key := Keys();
      AllKeyed(Snapshot(), key, root, s);
      LinkLast(node);
      AllKeyed(Snapshot(), Keys(), root, s);
      AppendRising(key, Keys(), old(s), node);
      SiftUp(node, |s| - 1);
    }

    /** `heap_insert` up to the sift. */
    method LinkLast(node: HeapNode)
      requires Linked() && node !in nodes && node.left == null && node.right == null
      modifies this, node`parent, nodes`left, nodes`right
      ensures Linked() && nodes == old(nodes) + {node} && s == old(s) + [node]
      ensures Keys() == old(Keys())[node := node.key]
    {
      hide Covers, Shows;
      ghost var m := Snapshot();
      LastSlot(m, root, s);
      nelts := nelts + 1;
      var parent, right := FindParent(nelts);
      Hook(parent, right, node);
      AppendShows(m, old(root), root, s, node);
      Grow(node);
    }

    method Hook(parent: HeapNode?, right: bool, node: HeapNode)
      requires node !in nodes && (parent != null ==> parent in nodes)
      modifies this`root, node`parent, nodes`left, nodes`right
      ensures root == if parent == null then node else old(root)
      ensures Snapshot() == Hooked(old(Snapshot()), parent, right, node)
      ensures node.parent == parent && Keys() == old(Keys())
    {
      node.parent := parent;
      if parent == null {
        root := node;
      } else if right {
        parent.right := node;
      } else {
        parent.left := node;
      }
    }

    ghost method Grow(node: HeapNode)
      requires node !in nodes && nelts == |s| + 1 && Covers(s, nodes)
      requires Shows(Snapshot()[node := Rec(node.parent, node.left, node.right)], root, s + [node])
      modifies this`nodes, this`s
      ensures Linked() && nodes == old(nodes) + {node} && s == old(s) + [node]
      ensures Keys() == old(Keys())[node := node.key]
    {
      AppendCovers(s, node, nodes);
      ghost var m' := Snapshot()[node := Rec(node.parent, node.left, node.right)];
      nodes := nodes + {node};
      s := s + [node];
      assert Snapshot() == m';
    }

    /** The sift-down loop of `heap_remove`. A child with an equal key also moves up. */
    method SiftDown(v: HeapNode, ghost i0: nat) returns (ghost i: nat)
      requires Linked() && i0 < |s| && s[i0] == v && Sinking(Keys(), s, i0)
      modifies this`root, this`s, nodes`parent, nodes`left, nodes`right
      ensures Linked() && i < |s| && s[i] == v && Rising(Keys(), s, i)
      ensures Keys() == old(Keys()) && |s| == |old(s)|
    {
      hide Shows, Covers, Sinking, Rising;
      i := i0;
      var est := Smallest(v, i);
      while est != v
        invariant Linked() && i < |s| && s[i] == v && Sinking(Keys(), s, i)
        invariant Keys() == old(Keys()) && |s| == |old(s)|
        invariant Best(Keys(), s, i, est)
        decreases |s| - i
      {
        ghost var j := if At(s, 2 * i + 1) == est then 2 * i + 1 else 2 * i + 2;
        SinkStep(Keys(), s, i, j);
        Swap(v, est, i, j);
        i := j;
        est := Smallest(v, i);
      }
      Sunk(Keys(), s, i);
    }

    /** The choice of `est` in the sift-down loop. */
    method Smallest(v: HeapNode, ghost i: nat) returns (est: HeapNode)
      requires Linked() && i < |s| && s[i] == v
      ensures Best(Keys(), s, i, est)
    {
      Neighbours(Snapshot(), root, s, i);
      AllKeyed(Snapshot(), Keys(), root, s);
      est := v;
      if v.left != null {
        est := if est.key < v.left.key then est else v.left;
      }
      if v.right != null {
        est := if est.key < v.right.key then est else v.right;
      }
    }

    /** `heap_remove` of any member; its own links are cleared. */
    method Remove(node: HeapNode)
      requires Valid() && node in nodes
      modifies this, nodes`parent, nodes`left, nodes`right
      ensures Valid() && nodes == old(nodes) - {node} && |s| == |old(s)| - 1
      ensures Keys() == old(Keys()) - {node}
      ensures node.parent == null && node.left == null && node.right == null
    {
      hide Ordered, Shows, NoDup, Sinking, Within;
      assert Has(s, node);
      ghost var i :| 0 <= i < |s| && s[i] == node;
      if nelts == 0 {
        return;
      }
      ghost var key := Keys();
      AllKeyed(Snapshot(), key, root, s);
      if i < |s| - 1 {
        ReplaceSinking(key, s, i);
      }
      var last := UnhookLast(node, i);
      if last == null {
        return;
      }
      ReplaceByLast(node, last, i, key);
    }

    /** The last node of a heap of two or more: what its parent's link leads to, and what is left without it. */
    lemma LastOfMany(parent: HeapNode, right: bool, i: nat)
      requires Valid() && |s| >= 2 && i < |s| && parent == s[Up(|s| - 1)] && right == (|s| % 2 == 1)
      ensures parent in nodes && NoDup(s) && Covers(s, nodes) && nelts == |s|
      ensures var last := s[|s| - 1];
              && last in nodes && last == (if right then parent.right else parent.left)
              && last.left == null && last.right == null && (s[i] == last <==> i == |s| - 1)
              && last.parent == parent != last
      ensures Shows(Unhooked(Snapshot(), parent, right), root, s[..|s| - 1]) && Ordered(Keys(), s[..|s| - 1])
    {
      hide Covers, Ordered, NoDup, Has, Unhooked;
      LastParts(Snapshot(), root, s, i);
      PrefixOrdered(Keys(), s);
    }

    /** A heap of one. */
    lemma OnlyOne()
      requires Valid() && |s| == 1
      ensures nodes == {s[0]} && root == s[0] && nelts == 1
      ensures s[0].parent == null && s[0].left == null && s[0].right == null
    {
      hide Covers, Ordered, NoDup, Has;
      SingleNode(Snapshot(), root, s, nodes);
      assert Snapshot()[s[0]] == Rec(null, null, null);
    }

    /** The part of `heap_remove` that finds the last node and unhooks it. */
    method UnhookLast(node: HeapNode, ghost i: nat) returns (last: HeapNode?)
      requires Valid() && i < |s| && s[i] == node
      modifies this, nodes`left, nodes`right
      ensures Valid() && |s| == |old(s)| - 1 && s == old(s)[..|s|]
      ensures last == null ==> |s| == 0 && nodes == {} && old(nodes) == {node}
      ensures last == null ==> node.parent == null && node.left == null && node.right == null
      ensures last != null ==> |s| > 0 && last == old(s)[|s|] && nodes == old(nodes) - {last}
      ensures last != null ==> last.left == null && last.right == null && (node == last <==> i == |s|)
      ensures last != null ==> last.parent != null && last.parent in nodes
      ensures last != null ==> Within(Keys()[last := last.key], old(Keys()))
    {
      hide Covers, Ordered, NoDup, Has, Shows, Unhooked;
      var parent, right := FindParent(nelts);
      if |s| == 1 {
        OnlyOne();
      } else {
        LastOfMany(parent, right, i);
      }
      nelts := nelts - 1;
      last := Unhook(parent, right);
      if last == null {
        if root == node {
          root := null;
        }
        Empty();
      } else {
        DropLast(last);
      }
    }

    method Unhook(parent: HeapNode, right: bool) returns (last: HeapNode?)
      requires parent in nodes
      modifies nodes`left, nodes`right
      ensures last == if right then old(parent.right) else old(parent.left)
      ensures Snapshot() == Unhooked(old(Snapshot()), parent, right) && Keys() == old(Keys())
      ensures if right then parent.right == null && parent.left == old(parent.left)
              else parent.left == null && parent.right == old(parent.right)
      ensures forall x :: x in nodes && x != parent ==> x.left == old(x.left) && x.right == old(x.right)
    {
      if right {
        last := parent.right;
        parent.right := null;
      } else {
        last := parent.left;
        parent.left := null;
      }
    }

    ghost method Empty()
      requires root == null && nelts == 0
      modifies this`s, this`nodes
      ensures Valid() && s == [] && nodes == {}
    {
      s, nodes := [], {};
    }

    ghost method DropLast(last: HeapNode)
      requires |s| >= 2 && last == s[|s| - 1] && nelts == |s| - 1 && last in nodes
      requires Covers(s, nodes) && NoDup(s) && Shows(Snapshot(), root, s[..|s| - 1]) && Ordered(Keys(), s[..|s| - 1])
      modifies this`s, this`nodes
      ensures Valid() && s == old(s)[..|old(s)| - 1] && nodes == old(nodes) - {last}
    {
      var m, key := Snapshot(), Keys();
      PrefixCovers(s, nodes);
      s := s[..|s| - 1];
      nodes := nodes - {last};
      ShowsWithin(m, Snapshot(), root, s, last);
      OrderedWithin(key, Keys(), s);
    }

    /** `heap_replace(heap, node, last)` and the clearing of the removed node's links. The last node is
        its own replacement when it is the one removed: then nothing but its own links changes. */
    method HeapReplace(node: HeapNode, last: HeapNode, ghost i: nat)
      requires Linked() && last !in nodes
      requires if node == last then Detached(last) else i < |s| && s[i] == node
      modifies this, last`parent, last`left, last`right, nodes`parent, nodes`left, nodes`right
      ensures Linked() && node.parent == null && node.left == null && node.right == null
      ensures nodes == (if node == last then old(nodes) else old(nodes) - {node} + {last})
      ensures s == if node == last then old(s) else old(s)[i := last]
      ensures node == last ==> Keys() == old(Keys())
    {
      ghost var m := Snapshot();
      if node != last {
        Neighbours(m, root, s, i);
        ReplaceShows(m, root, if i == 0 then last else root, s, i, last);
      }
      ReplaceLinks(node, last);
      if node != last {
        ReplaceUndo(m, node, last);
        Exchange(node, last, i, m[node]);
      }
    }

    /** What unhooking leaves of the last node of a heap of two or more: it still knows its parent. */
    ghost predicate Detached(last: HeapNode)
      reads this, last
    {
      last.parent != null && last.parent in nodes && last.left == null && last.right == null
    }

    method ReplaceLinks(node: HeapNode, last: HeapNode)
      requires last !in nodes
      requires if node == last then Detached(last) else node in nodes && Closed(Snapshot(), node)
      requires node.parent != node && node.left != node && node.right != node
      modifies this`root, last`parent, last`left, last`right, nodes`parent, nodes`left, nodes`right
      ensures root == if old(node.parent) == null then last else old(root)
      ensures node == last ==> root == old(root) && Snapshot() == old(Snapshot())
      ensures node != last ==>
          && Snapshot() == Around(old(Snapshot()), node, last)[node := Rec(null, null, null)]
          && Rec(last.parent, last.left, last.right) == old(Rec(node.parent, node.left, node.right))
      ensures node.parent == null && node.left == null && node.right == null
      ensures Keys() == old(Keys())
    {
      ghost var m := Snapshot();
      if node != last {
        AroundKeeps(m, node, last);
      }
      Redirect3(node.parent, node.left, node.right, node, last, last);
      TakeOver(node, last);
    }

    /** The links of the neighbours: whatever pointed to `x` points to `y`, and two nodes get a new parent. */
    method Redirect3(p: HeapNode?, l: HeapNode?, r: HeapNode?, x: HeapNode, y: HeapNode, q: HeapNode)
      requires (p != null ==> p in nodes) && (l != null ==> l in nodes) && (r != null ==> r in nodes)
      modifies this`root, nodes`parent, nodes`left, nodes`right
      ensures root == if p == null then y else old(root)
      ensures Snapshot() == Adopted(Adopted(Redirected(old(Snapshot()), p, x, y), l, q), r, q)
      ensures Keys() == old(Keys())
    {
      Redirect(p, x, y);
      Adopt(l, q);
      Adopt(r, q);
    }

    /** The node `last` gets the links of `node`, which loses them, even if it is `last` itself. */
    method TakeOver(node: HeapNode, last: HeapNode)
      requires last !in nodes && (node in nodes || node == last)
      modifies last`parent, last`left, last`right, node`parent, node`left, node`right
      ensures node != last ==>
          && Rec(last.parent, last.left, last.right) == old(Rec(node.parent, node.left, node.right))
          && Snapshot() == old(Snapshot())[node := Rec(null, null, null)]
      ensures node == last ==> Snapshot() == old(Snapshot())
      ensures node.parent == null && node.left == null && node.right == null && Keys() == old(Keys())
    {
      last.parent := node.parent;
      last.left := node.left;
      last.right := node.right;
      node.parent, node.left, node.right := null, null, null;
    }

    ghost method Exchange(node: HeapNode, last: HeapNode, i: nat, r: Rec)
      requires i < |s| && s[i] == node && node in nodes && last !in nodes && node != last
      requires nelts == |s| && NoDup(s) && Covers(s, nodes)
      requires Shows(Snapshot()[last := Rec(last.parent, last.left, last.right)][node := r], root, s[i := last])
      modifies this`s, this`nodes
      ensures Linked() && nodes == old(nodes) - {node} + {last} && s == old(s)[i := last]
    {
      var m := Snapshot()[last := Rec(last.parent, last.left, last.right)];
      UpdateCovers(s, i, last, nodes);
      s := s[i := last];
      nodes := nodes - {node} + {last};
      ShowsWithin(m[node := r], Snapshot(), root, s, node);
    }

    /** The rest of `heap_remove`: `heap_replace`, also of the last node by itself, and the sift loops. */
    method ReplaceByLast(node: HeapNode, last: HeapNode, ghost i: nat, ghost key: KeyMap)
      requires Valid() && last !in nodes && (node == last ==> Detached(last))
      requires node == last || (i < |s| && s[i] == node && Sinking(key, s[i := last], i))
      requires Within(Keys()[last := last.key], key)
      modifies this, last`parent, last`left, last`right, nodes`parent, nodes`left, nodes`right
      ensures Valid() && |s| == |old(s)|
      ensures nodes == if node == last then old(nodes) else old(nodes) - {node} + {last}
      ensures node.parent == null && node.left == null && node.right == null
    {
      HeapReplace(node, last, i);
      if node == last {
        // Both loops end at once: no child to compare with, and no parent.
        assert last.left == null && last.right == null && last.parent == null;
      } else {
        SinkingWithin(key, Keys(), s, i);
        ghost var j := SiftDown(last, i);
        SiftUp(last, j);
      }
    }

    /** `heap_dequeue`. */
    method Dequeue()
      requires Valid() && root != null
      modifies this, nodes`parent, nodes`left, nodes`right
      ensures Valid() && nodes == old(nodes) - {old(root)} && |s| == |old(s)| - 1
      ensures Keys() == old(Keys()) - {old(root)}
      ensures old(root).parent == null && old(root).left == null && old(root).right == null
    {
      RootMember();
      Remove(root);
    }

    lemma RootMember()
      requires Linked()
      ensures root != null ==> root in nodes && s != [] && s[0] == root
      ensures root == null ==> s == []
    {
      if s != [] {
        assert LinkedAt(Snapshot(), s, 0);
      }
    }
  }

  /** `est` is the node at `i` when that is smaller than its children, and otherwise a child that is
      no larger than it or its sibling. */
  ghost predicate Best(key: KeyMap, s: seq<HeapNode>, i: nat, est: HeapNode)
    requires i < |s|
  {
    && est in key && Keyed(key, s)
    && (est == s[i] || est == At(s, 2 * i + 1) || est == At(s, 2 * i + 2))
    && key[est] <= key[s[i]]
    && forall b: nat :: ChildOf(b, i) && b < |s| ==> key[est] <= key[s[b]]
  }
}
