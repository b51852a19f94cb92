/**
 Speculative drafting with a trimmed context: each step keeps only the last `window` committed
 positions, under a causal window mask or under a mask that lets a draft block see itself both ways.
 */
module DraftWindow {
  import opened Arith
  import opened Sequences

  datatype Rule = CausalWindow | BidirectionalBlock

  /** Whether a query at `q` may see the key at `k` when committed context ends at `end`. */
  predicate Allowed(rule: Rule, window: nat, end: nat, q: nat, k: nat) {
    match rule
    case CausalWindow => k <= q && q - k < window
    case BidirectionalBlock => k >= end || q - k < window
  }

  /** Entries a query sees, in position order; entry `i` sits at position `start + i`. */
  function Seen<E>(rule: Rule, window: nat, end: nat, q: nat, start: nat, entries: seq<E>): seq<E> {
    if entries == [] then []
    else
      var n := |entries| - 1;
      Seen(rule, window, end, q, start, entries[..n])
        + if Allowed(rule, window, end, q, start + n) then [entries[n]] else []
  }

  lemma SeenAppend<E>(rule: Rule, window: nat, end: nat, q: nat, start: nat, entries: seq<E>, e: E)
    ensures Seen(rule, window, end, q, start, entries + [e])
         == Seen(rule, window, end, q, start, entries)
            + if Allowed(rule, window, end, q, start + |entries|) then [e] else []
  {
    assert (entries + [e])[..|entries|] == entries;
  }

  lemma {:induction false} SeenJoin<E>(rule: Rule, window: nat, end: nat, q: nat, start: nat, a: seq<E>, b: seq<E>)
    ensures Seen(rule, window, end, q, start, a + b)
         == Seen(rule, window, end, q, start, a) + Seen(rule, window, end, q, start + |a|, b)
  {
    if b == [] {
      assert a + b == a;
    } else {
      var init, last := b[..|b| - 1], b[|b| - 1];
      assert a + b == (a + init) + [last] && b == init + [last];
      SeenJoin(rule, window, end, q, start, a, init);
      SeenAppend(rule, window, end, q, start, a + init, last);
      SeenAppend(rule, window, end, q, start + |a|, init, last);
    }
  }

  lemma {:induction false} NothingSeen<E>(rule: Rule, window: nat, end: nat, q: nat, start: nat, entries: seq<E>)
    requires forall k :: start <= k < start + |entries| ==> !Allowed(rule, window, end, q, k)
    ensures Seen(rule, window, end, q, start, entries) == []
  {
    if entries != [] {
      NothingSeen(rule, window, end, q, start, entries[..|entries| - 1]);
    }
  }

  /** Where the kept context begins. */
  function TrimStart(end: nat, window: nat): nat {
    Max(0, end - window)
  }

  /** Dropping context before the trim point changes no draft query's visible entries. */
  lemma TrimInvisible<E>(rule: Rule, window: nat, end: nat, q: nat, context: seq<E>, block: seq<E>)
    requires |context| == end <= q
    ensures Seen(rule, window, end, q, TrimStart(end, window), context[TrimStart(end, window)..] + block)
         == Seen(rule, window, end, q, 0, context + block)
  {
    var start := TrimStart(end, window);
    NothingSeen(rule, window, end, q, 0, context[..start]);
    SeenJoin(rule, window, end, q, 0, context[..start], context[start..] + block);
    assert context[..start] + (context[start..] + block) == context + block;
  }

  /**
   A draft layer: committed captures and block states project to key/value entries by position,
   and a query's new state depends only on the entries it sees.
   */
  datatype DraftLayer<!P, !S, !E> = DraftLayer(
    project: (P, nat) -> E,
    entry: (S, nat) -> E,
    mix: (S, nat, seq<E>) -> S)

  function Projected<P, S, E>(layer: DraftLayer<P, S, E>, captures: seq<P>): (r: seq<E>)
    ensures |r| == |captures|
  {
    seq(|captures|, (i: nat) requires i < |captures| => layer.project(captures[i], i))
  }

  function Entries<P, S, E>(layer: DraftLayer<P, S, E>, states: seq<S>, end: nat): (r: seq<E>)
    ensures |r| == |states|
  {
    seq(|states|, (i: nat) requires i < |states| => layer.entry(states[i], end + i))
  }

  /** One layer over a draft block that follows `end`, with context from `start` on. */
  function Attend<P, S, E>(layer: DraftLayer<P, S, E>, rule: Rule, window: nat, end: nat, start: nat,
                           committed: seq<E>, states: seq<S>): (r: seq<S>)
    ensures |r| == |states|
    ensures forall i :: 0 <= i < |states| ==>
              r[i] == layer.mix(states[i], end + i,
                                Seen(rule, window, end, end + i, start, committed + Entries(layer, states, end)))
  {
    seq(|states|, (i: nat) requires i < |states| =>
      layer.mix(states[i], end + i, Seen(rule, window, end, end + i, start, committed + Entries(layer, states, end))))
  }

  /** The draft block's states entering layer `l` when no context is ever dropped. */
  function Untrimmed<P, S, E>(layers: seq<DraftLayer<P, S, E>>, rule: Rule, window: nat, captures: seq<P>,
                              block: seq<S>, l: nat): (r: seq<S>)
    requires l <= |layers|
    ensures |r| == |block|
  {
    if l == 0 then block
    else Attend(layers[l - 1], rule, window, |captures|, 0, Projected(layers[l - 1], captures),
                Untrimmed(layers, rule, window, captures, block, l - 1))
  }

  /** A trimmed layer mixes every block state as the untrimmed layer does. */
  lemma AttendTrimmed<P, S, E>(layer: DraftLayer<P, S, E>, rule: Rule, window: nat, captures: seq<P>, states: seq<S>)
    ensures var end := |captures|;
            var start := TrimStart(end, window);
            Attend(layer, rule, window, end, start, Projected(layer, captures)[start..], states)
              == Attend(layer, rule, window, end, 0, Projected(layer, captures), states)
  {
    forall i | 0 <= i < |states|
      ensures var end := |captures|;
              Attend(layer, rule, window, end, TrimStart(end, window),
                     Projected(layer, captures)[TrimStart(end, window)..], states)[i]
                == Attend(layer, rule, window, end, 0, Projected(layer, captures), states)[i]
    {
      TrimInvisible(rule, window, |captures|, |captures| + i, Projected(layer, captures),
                    Entries(layer, states, |captures|));
    }
  }

  /** Committed entries of one layer, from `start`. */
  datatype Context<E> = Context(committed: seq<E>, start: nat)

  /** The runner's mutable state: accepted captures so far and each layer's trimmed context. */
  class Draft<P, S, E> {
    const layers: seq<DraftLayer<P, S, E>>
    const rule: Rule
    const window: nat
    var prefixes: seq<P>
    var end: nat
    var contexts: seq<Context<E>>

    ghost predicate Valid()
      reads this
    {
      && end == |prefixes|
      && |contexts| == |layers|
      && forall l :: 0 <= l < |layers| ==>
           contexts[l] == Context(Projected(layers[l], prefixes)[TrimStart(end, window)..], TrimStart(end, window))
    }

    constructor (layers: seq<DraftLayer<P, S, E>>, rule: Rule, window: nat)
      ensures Valid() && prefixes == []
      ensures this.layers == layers && this.rule == rule && this.window == window
    {
      this.layers, this.rule, this.window := layers, rule, window;
      prefixes, end := [], 0;
      contexts := seq(|layers|, _ => Context([], 0));
    }

    /** Accepts one step's captures and rebuilds every layer's trimmed context. */
    method Commit(pending: seq<P>)
      requires Valid()
      modifies this
      ensures Valid() && prefixes == old(prefixes) + pending
    {
      prefixes := prefixes + pending;
      end := end + |pending|;
      var start := TrimStart(end, window);
      var rebuilt: seq<Context<E>> := [];
      for l := 0 to |layers|
        invariant |rebuilt| == l
        invariant forall k :: 0 <= k < l ==> rebuilt[k] == Context(Projected(layers[k], prefixes)[start..], start)
      {
        var projected := Projected(layers[l], prefixes);
        rebuilt := rebuilt + [Context(projected[start..end], start)];
      }
      contexts := rebuilt;
    }

    /** Runs the draft block through every layer against the trimmed contexts. */
    method Propose(block: seq<S>) returns (states: seq<S>)
      requires Valid()
      ensures states == Untrimmed(layers, rule, window, prefixes, block, |layers|)
    {
      states := block;
      for l := 0 to |layers|
        invariant states == Untrimmed(layers, rule, window, prefixes, block, l)
      {
        AttendTrimmed(layers[l], rule, window, prefixes, states);
        states := Attend(layers[l], rule, window, end, contexts[l].start, contexts[l].committed, states);
      }
    }
  }

  /** Every step of a drafting session proposes exactly what an untrimmed context would. */
  method RunSession<P, S, E>(layers: seq<DraftLayer<P, S, E>>, rule: Rule, window: nat,
                             steps: seq<seq<P>>, blocks: seq<seq<S>>)
    returns (proposals: seq<seq<S>>)
    requires |steps| == |blocks|
    ensures |proposals| == |steps|
    ensures forall i :: 0 <= i < |steps| ==>
              proposals[i] == Untrimmed(layers, rule, window, Joined(steps[..i + 1]), blocks[i], |layers|)
  {
    var draft := new Draft<P, S, E>(layers, rule, window);
    proposals := [];
    for step := 0 to |steps|
      invariant draft.Valid() && draft.prefixes == Joined(steps[..step]) && |proposals| == step
      invariant draft.layers == layers && draft.rule == rule && draft.window == window
      invariant forall i :: 0 <= i < step ==>
                  proposals[i] == Untrimmed(layers, rule, window, Joined(steps[..i + 1]), blocks[i], |layers|)
    {
      draft.Commit(steps[step]);
      assert steps[..step + 1][..step] == steps[..step];
      var states := draft.Propose(blocks[step]);
      proposals := proposals + [states];
    }
  }
}
