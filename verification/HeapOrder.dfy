/** Heap order and the search path of lib/libhv/base/heap.h, on the level-order sequence. */
module HeapOrder {
  import opened HeapShape

  type KeyMap = map<HeapNode, nat>

  /** Level-order index `k` is not smaller than its parent. */
  ghost predicate OkAt(key: KeyMap, s: seq<HeapNode>, k: nat) {
    0 < k < |s| && s[k] in key && s[Up(k)] in key ==> key[s[Up(k)]] <= key[s[k]]
  }

  ghost predicate Keyed(key: KeyMap, s: seq<HeapNode>) {
    forall k :: 0 <= k < |s| ==> s[k] in key
  }

  /** Every node of a heap in memory has a key. */
  lemma AllKeyed(m: Mem, key: KeyMap, root: HeapNode?, s: seq<HeapNode>)
    requires Shows(m, root, s) && m.Keys <= key.Keys
    ensures Keyed(key, s)
  {
    forall k | 0 <= k < |s|
      ensures s[k] in key
    {
      assert LinkedAt(m, s, k);
    }
  }

  /** Min-heap: no node is smaller than its parent. */
  ghost predicate Ordered(key: KeyMap, s: seq<HeapNode>) {
    forall k {:trigger OkAt(key, s, k)} :: OkAt(key, s, k)
  }

  /** The root of a heap is a minimum. */
  lemma {:induction false} RootIsMin(key: KeyMap, s: seq<HeapNode>, k: nat)
    requires Keyed(key, s) && Ordered(key, s) && k < |s|
    ensures key[s[0]] <= key[s[k]]
  {
    if k > 0 {
      assert OkAt(key, s, k);
      RootIsMin(key, s, Up(k));
    }
  }

  // ---------------------------------------------------------------- sifting

  /** The children of index `j` are not smaller than the parent of `j`. */
  ghost predicate Bridged(key: KeyMap, s: seq<HeapNode>, j: nat) {
    0 < j < |s| && s[Up(j)] in key ==>
      && (2 * j + 1 < |s| && s[2 * j + 1] in key ==> key[s[Up(j)]] <= key[s[2 * j + 1]])
      && (2 * j + 2 < |s| && s[2 * j + 2] in key ==> key[s[Up(j)]] <= key[s[2 * j + 2]])
  }

  /** In the sift-up loop: only the node at `j` may be smaller than its parent. */
  ghost predicate Rising(key: KeyMap, s: seq<HeapNode>, j: nat) {
    && (forall k {:trigger OkAt(key, s, k)} :: k != j ==> OkAt(key, s, k))
    && Bridged(key, s, j)
  }

  /** In the sift-down loop: only the node at `i` may be out of order, with its parent or its children. */
  ghost predicate Sinking(key: KeyMap, s: seq<HeapNode>, i: nat) {
    && (forall k {:trigger OkAt(key, s, k)} :: k != i && !ChildOf(k, i) ==> OkAt(key, s, k))
    && Bridged(key, s, i)
  }

  lemma RiseStep(key: KeyMap, s: seq<HeapNode>, j: nat)
    requires Keyed(key, s) && Rising(key, s, j) && 0 < j < |s| && key[s[j]] < key[s[Up(j)]]
    ensures Rising(key, Swapped(s, Up(j), j), Up(j))
  {
    var i := Up(j);
    var t := Swapped(s, i, j);
    forall k {:trigger OkAt(key, t, k)} | k != i
      ensures OkAt(key, t, k)
    {
      assert k != j ==> OkAt(key, s, k);
      if k > 0 {
        assert Up(k) == i <==> ChildOf(k, i);
        assert Up(k) == j <==> ChildOf(k, j);
      }
    }
    assert i > 0 ==> OkAt(key, s, i);
    assert OkAt(key, s, 2 * i + 1) || 2 * i + 1 == j;
    assert OkAt(key, s, 2 * i + 2) || 2 * i + 2 == j;
  }

  lemma SinkStep(key: KeyMap, s: seq<HeapNode>, i: nat, j: nat)
    requires Keyed(key, s) && Sinking(key, s, i) && ChildOf(j, i) && j < |s| && key[s[j]] <= key[s[i]]
    requires forall b: nat :: ChildOf(b, i) && b < |s| ==> key[s[j]] <= key[s[b]]
    ensures Sinking(key, Swapped(s, i, j), j)
  {
    var t := Swapped(s, i, j);
    forall k {:trigger OkAt(key, t, k)} | k != j && !ChildOf(k, j)
      ensures OkAt(key, t, k)
    {
      if k > 0 {
        assert Up(k) == i <==> ChildOf(k, i);
        assert Up(k) == j <==> ChildOf(k, j);
      }
      assert k != i && !ChildOf(k, i) ==> OkAt(key, s, k);
    }
    assert OkAt(key, s, 2 * j + 1) && OkAt(key, s, 2 * j + 2);
  }

  lemma Sunk(key: KeyMap, s: seq<HeapNode>, i: nat)
    requires Keyed(key, s) && Sinking(key, s, i) && i < |s|
    requires forall b: nat :: ChildOf(b, i) && b < |s| ==> key[s[i]] <= key[s[b]]
    ensures Rising(key, s, i)
  {
    forall k {:trigger OkAt(key, s, k)} | k != i
      ensures OkAt(key, s, k)
    {
      if k > 0 {
        assert Up(k) == i <==> ChildOf(k, i);
      }
    }
  }

  lemma Risen(key: KeyMap, s: seq<HeapNode>, j: nat)
    requires Rising(key, s, j) && OkAt(key, s, j)
    ensures Ordered(key, s)
  {
  }

  lemma AppendRising(key: KeyMap, key': KeyMap, s: seq<HeapNode>, n: HeapNode)
    requires Keyed(key, s) && Ordered(key, s) && Keyed(key', s + [n])
    requires forall x :: x in s ==> x in key && x in key' && key'[x] == key[x]
    ensures Rising(key', s + [n], |s|)
  {
    var t := s + [n];
    forall k {:trigger OkAt(key', t, k)} | k != |s|
      ensures OkAt(key', t, k)
    {
      assert OkAt(key, s, k);
    }
  }

  /** Putting the last node in the place of the node at `i` may only put that place out of order. */
  lemma ReplaceSinking(key: KeyMap, s: seq<HeapNode>, i: nat)
    requires Keyed(key, s) && Ordered(key, s) && i < |s| - 1
    ensures Sinking(key, s[..|s| - 1][i := s[|s| - 1]], i)
  {
    var t := s[..|s| - 1][i := s[|s| - 1]];
    forall k {:trigger OkAt(key, t, k)} | k != i && !ChildOf(k, i)
      ensures OkAt(key, t, k)
    {
      assert OkAt(key, s, k);
      if k > 0 {
        assert Up(k) == i <==> ChildOf(k, i);
      }
    }
    assert OkAt(key, s, i) && OkAt(key, s, 2 * i + 1) && OkAt(key, s, 2 * i + 2);
  }

  lemma PrefixOrdered(key: KeyMap, s: seq<HeapNode>)
    requires |s| > 0 && Ordered(key, s)
    ensures Ordered(key, s[..|s| - 1])
  {
    var t := s[..|s| - 1];
    forall k {:trigger OkAt(key, t, k)}
      ensures OkAt(key, t, k)
    {
      assert OkAt(key, s, k);
    }
  }

  /** Fewer keys ask for less. */
  ghost predicate Within(key': KeyMap, key: KeyMap) {
    forall x :: x in key' ==> x in key && key'[x] == key[x]
  }

  lemma OrderedWithin(key: KeyMap, key': KeyMap, s: seq<HeapNode>)
    requires Ordered(key, s) && Within(key', key)
    ensures Ordered(key', s)
  {
    forall k {:trigger OkAt(key', s, k)}
      ensures OkAt(key', s, k)
    {
      assert OkAt(key, s, k);
    }
  }

  lemma SinkingWithin(key: KeyMap, key': KeyMap, s: seq<HeapNode>, i: nat)
    requires Sinking(key, s, i) && Within(key', key)
    ensures Sinking(key', s, i)
  {
    forall k {:trigger OkAt(key', s, k)} | k != i && !ChildOf(k, i)
      ensures OkAt(key', s, k)
    {
      assert OkAt(key, s, k);
    }
  }

  // ---------------------------------------------------------------- paths

  /** Where `d` further steps lead from position `p` (the root is position 1): the bits of `path`,
      lowest first, choose between left (0) and right (1). */
  ghost function Walk(p: nat, path: nat, d: nat): nat
    decreases d
  {
    if d == 0 then p else Walk(2 * p + path % 2, path / 2, d - 1)
  }

  /** Any step at least doubles the position. */
  lemma {:induction false} WalkGrows(p: nat, path: nat, d: nat)
    ensures Walk(p, path, d) >= p
    ensures d > 0 ==> Walk(p, path, d) >= 2 * p
    ensures d > 0 && p > 0 ==> Walk(p, path, d) > p
    decreases d
  {
    if d > 0 {
      WalkGrows(2 * p + path % 2, path / 2, d - 1);
    }
  }

  /** The first loop of `heap_insert` and `heap_remove`: the binary digits of `n` after the leading
      one, lowest in the result being highest in `n`, are the path to position `n`. */
  method LastPath(n0: nat) returns (path: nat, d: nat)
    requires n0 >= 1
    ensures Walk(1, path, d) == n0
    ensures d == 0 <==> n0 == 1
    ensures n0 == 1 ==> path == 0
  {
    path, d := 0, 0;
    var n := n0;
    while n >= 2
      invariant n >= 1 && Walk(n, path, d) == n0
      invariant d == 0 ==> n == n0 && path == 0
      decreases n
    {
      assert (2 * path + n % 2) % 2 == n % 2 && (2 * path + n % 2) / 2 == path;
      assert 2 * (n / 2) + n % 2 == n;
      path := 2 * path + n % 2;
      d := d + 1;
      n := n / 2;
    }
    WalkGrows(1, path, d);
  }
}
