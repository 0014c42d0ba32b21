/** A machine that takes one input at a time, run over a sequence of inputs. What is proved here
    holds of every resumable parser, whatever its step. */
module Folding {

  function Fold<S, B>(step: (S, B) -> S, s: S, x: seq<B>): S {
    if x == [] then s else step(Fold(step, s, x[..|x| - 1]), x[|x| - 1])
  }

  lemma {:induction false} FoldConcat<S, B>(step: (S, B) -> S, s: S, x: seq<B>, y: seq<B>)
    ensures Fold(step, s, x + y) == Fold(step, Fold(step, s, x), y)
  {
    if y == [] {
      assert x + y == x;
    } else {
      assert (x + y)[..|x + y| - 1] == x + y[..|y| - 1];
      FoldConcat(step, s, x, y[..|y| - 1]);
    }
  }

  lemma FoldOne<S, B>(step: (S, B) -> S, s: S, c: B)
    ensures Fold(step, s, [c]) == step(s, c)
  {
    assert [c][..0] == [];
  }

  lemma FoldLast<S, B>(step: (S, B) -> S, s: S, x: seq<B>, c: B)
    ensures Fold(step, s, x + [c]) == step(Fold(step, s, x), c)
  {
    assert (x + [c])[..|x|] == x;
  }

  /** One more slice of the input. */
  lemma FoldSlice<S, B>(step: (S, B) -> S, s: S, x: seq<B>, from: nat, to: nat)
    requires from <= to <= |x|
    ensures Fold(step, Fold(step, s, x[..from]), x[from..to]) == Fold(step, s, x[..to])
  {
    FoldConcat(step, s, x[..from], x[from..to]);
    assert x[..from] + x[from..to] == x[..to];
  }

  lemma Assoc<B>(a: seq<B>, b: seq<B>, c: seq<B>)
    ensures a + b + c == a + (b + c)
  {
  }

  function Join<B>(parts: seq<seq<B>>): seq<B> {
    if parts == [] then [] else parts[0] + Join(parts[1..])
  }

  /** The input in the pieces in which it arrives. */
  function FoldAll<S, B>(step: (S, B) -> S, s: S, parts: seq<seq<B>>): S
    decreases |parts|
  {
    if parts == [] then s else FoldAll(step, Fold(step, s, parts[0]), parts[1..])
  }

  /** Cutting the input into pieces makes no difference. */
  lemma {:induction false} SplitIndependence<S, B>(step: (S, B) -> S, s: S, parts: seq<seq<B>>)
    ensures FoldAll(step, s, parts) == Fold(step, s, Join(parts))
    decreases |parts|
  {
    if parts != [] {
      SplitIndependence(step, Fold(step, s, parts[0]), parts[1..]);
      FoldConcat(step, s, parts[0], Join(parts[1..]));
    }
  }
}
