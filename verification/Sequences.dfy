/** Sequence functions shared by the models. */
module Sequences {

  /** The parts of a sequence of sequences, one after another. */
  function Joined<T>(parts: seq<seq<T>>): seq<T> {
    if parts == [] then [] else Joined(parts[..|parts| - 1]) + parts[|parts| - 1]
  }

  /** Applies `f` to each element in turn. */
  function Fold<S, E>(f: (S, E) -> S, s: S, es: seq<E>): S {
    if es == [] then s else f(Fold(f, s, es[..|es| - 1]), es[|es| - 1])
  }

  lemma {:induction false} FoldJoined<S, E>(f: (S, E) -> S, s: S, a: seq<E>, b: seq<E>)
    ensures Fold(f, s, a + b) == Fold(f, Fold(f, s, a), b)
  {
    if b == [] {
      assert a + b == a;
    } else {
      assert (a + b)[..|a + b| - 1] == a + b[..|b| - 1];
      FoldJoined(f, s, a, b[..|b| - 1]);
    }
  }
}
