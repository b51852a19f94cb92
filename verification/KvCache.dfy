/**
 Cached decoding of the reference runner: a growing key/value cache per layer, full and
 sliding-window masks, and stepping a token sequence chunk by chunk.
 */
module KvCache {
  import opened Sequences

  /**
   One attention layer. Keys and values depend on a position's own state; a query's new state
   depends on its own state and on the visible keys and values, in position order.
   */
  datatype Layer<!S, !K, !V> = Layer(
    sliding: bool,
    key: (S, nat) -> K,
    value: (S, nat) -> V,
    mix: (S, nat, seq<(K, V)>) -> S)

  /** A query at position `q` sees key `k` of its causal past, within the window when sliding. */
  predicate Sees(q: nat, k: nat, window: int, sliding: bool) {
    k <= q && (sliding ==> k > q - window)
  }

  /** One row of the mask for `total` keys. */
  function MaskRow(q: nat, total: nat, window: int, sliding: bool): (row: seq<bool>)
    ensures |row| == total && forall k :: 0 <= k < total ==> row[k] == Sees(q, k, window, sliding)
  {
    seq(total, (k: nat) => Sees(q, k, window, sliding))
  }

  /** Keys and values left visible by a mask row. */
  function Visible<K, V>(row: seq<bool>, ks: seq<K>, vs: seq<V>): seq<(K, V)>
    requires |row| == |ks| == |vs|
  {
    if row == [] then []
    else
      var n := |row| - 1;
      Visible(row[..n], ks[..n], vs[..n]) + if row[n] then [(ks[n], vs[n])] else []
  }

  /** Masked entries past a point change nothing. */
  lemma {:induction false} VisiblePrefix<K, V>(row: seq<bool>, ks: seq<K>, vs: seq<V>, m: nat)
    requires |row| == |ks| == |vs| && m <= |row|
    requires forall k :: m <= k < |row| ==> !row[k]
    ensures Visible(row, ks, vs) == Visible(row[..m], ks[..m], vs[..m])
  {
    var n := |row|;
    if m == n {
      assert row[..m] == row && ks[..m] == ks && vs[..m] == vs;
    } else {
      VisiblePrefix(row[..n - 1], ks[..n - 1], vs[..n - 1], m);
      assert row[..n - 1][..m] == row[..m] && ks[..n - 1][..m] == ks[..m] && vs[..n - 1][..m] == vs[..m];
    }
  }

  /** A query attends alike whether or not later positions are already in the cache. */
  lemma CausalVisible<K, V>(q: nat, m: nat, window: int, sliding: bool, ks: seq<K>, vs: seq<V>)
    requires q < m <= |ks| == |vs|
    ensures Visible(MaskRow(q, |ks|, window, sliding), ks, vs) ==
            Visible(MaskRow(q, m, window, sliding), ks[..m], vs[..m])
  {
    var row := MaskRow(q, |ks|, window, sliding);
    VisiblePrefix(row, ks, vs, m);
    assert row[..m] == MaskRow(q, m, window, sliding);
  }

  // ---- one whole pass ----

  function Keys<S, K, V>(layer: Layer<S, K, V>, states: seq<S>, start: nat): (ks: seq<K>)
    ensures |ks| == |states| && forall i :: 0 <= i < |states| ==> ks[i] == layer.key(states[i], start + i)
  {
    seq(|states|, (i: nat) requires i < |states| => layer.key(states[i], start + i))
  }

  function Values<S, K, V>(layer: Layer<S, K, V>, states: seq<S>, start: nat): (vs: seq<V>)
    ensures |vs| == |states| && forall i :: 0 <= i < |states| ==> vs[i] == layer.value(states[i], start + i)
  {
    seq(|states|, (i: nat) requires i < |states| => layer.value(states[i], start + i))
  }

  /** New states of consecutive queries over all keys so far. */
  function Attend<S, K, V>(layer: Layer<S, K, V>, states: seq<S>, start: nat, window: int, ks: seq<K>,
                           vs: seq<V>): (r: seq<S>)
    requires |ks| == |vs|
    ensures |r| == |states|
    ensures forall i :: 0 <= i < |states| ==>
              r[i] == layer.mix(states[i], start + i, Visible(MaskRow(start + i, |ks|, window, layer.sliding), ks, vs))
  {
    seq(|states|, (i: nat) requires i < |states| =>
      layer.mix(states[i], start + i, Visible(MaskRow(start + i, |ks|, window, layer.sliding), ks, vs)))
  }

  function Embedded<T, S>(embed: T -> S, tokens: seq<T>): (r: seq<S>)
    ensures |r| == |tokens| && forall i :: 0 <= i < |tokens| ==> r[i] == embed(tokens[i])
  {
    seq(|tokens|, (i: nat) requires i < |tokens| => embed(tokens[i]))
  }

  /** States entering layer `l` when the whole sequence is processed at once. */
  function Hidden<T, S, K, V>(layers: seq<Layer<S, K, V>>, embed: T -> S, window: int, l: nat,
                              tokens: seq<T>): (r: seq<S>)
    requires l <= |layers|
    ensures |r| == |tokens|
  {
    if l == 0 then Embedded(embed, tokens)
    else
      var layer, states := layers[l - 1], Hidden(layers, embed, window, l - 1, tokens);
      Attend(layer, states, 0, window, Keys(layer, states, 0), Values(layer, states, 0))
  }

  /** One layer over a prefix of its states is the prefix of the layer over all of them. */
  lemma {:induction false} AttendPrefix<S, K, V>(layer: Layer<S, K, V>, states: seq<S>, window: int, m: nat)
    requires m <= |states|
    ensures Attend(layer, states[..m], 0, window, Keys(layer, states[..m], 0), Values(layer, states[..m], 0)) ==
            Attend(layer, states, 0, window, Keys(layer, states, 0), Values(layer, states, 0))[..m]
  {
    var ks, vs := Keys(layer, states, 0), Values(layer, states, 0);
    var shorter := Attend(layer, states[..m], 0, window, Keys(layer, states[..m], 0), Values(layer, states[..m], 0));
    var longer := Attend(layer, states, 0, window, ks, vs);
    assert Keys(layer, states[..m], 0) == ks[..m] && Values(layer, states[..m], 0) == vs[..m];
    forall q | 0 <= q < m
      ensures shorter[q] == longer[q]
    {
      CausalVisible(q, m, window, layer.sliding, ks, vs);
    }
  }

  /** A prefix of the tokens fixes the same prefix of every layer's states. */
  lemma {:induction false} HiddenPrefix<T, S, K, V>(layers: seq<Layer<S, K, V>>, embed: T -> S, window: int,
                                                     l: nat, tokens: seq<T>, m: nat)
    requires l <= |layers| && m <= |tokens|
    ensures Hidden(layers, embed, window, l, tokens[..m]) == Hidden(layers, embed, window, l, tokens)[..m]
    decreases l
  {
    if l > 0 {
      HiddenPrefix(layers, embed, window, l - 1, tokens, m);
      AttendPrefix(layers[l - 1], Hidden(layers, embed, window, l - 1, tokens), window, m);
    }
  }

  // ---- cached execution ----

  /** A layer's cached keys and values; a layer never updated has none. */
  function EntryOf<K, V>(caches: map<nat, (seq<K>, seq<V>)>, layer: nat): (seq<K>, seq<V>) {
    if layer in caches then caches[layer] else ([], [])
  }

  /** Keys and values of every layer, concatenated step by step. */
  class Cache<K, V> {
    var layers: map<nat, (seq<K>, seq<V>)>

    constructor ()
      ensures layers == map[]
    {
      layers := map[];
    }

    method GetSeqLength() returns (length: nat)
      ensures length == |EntryOf(layers, 0).0|
    {
      length := if 0 in layers then |layers[0].0| else 0;
    }

    method Update(keys: seq<K>, values: seq<V>, layer: nat) returns (ks: seq<K>, vs: seq<V>)
      modifies this
      ensures ks == EntryOf(old(layers), layer).0 + keys && vs == EntryOf(old(layers), layer).1 + values
      ensures layers == old(layers)[layer := (ks, vs)]
    {
      ks, vs := keys, values;
      if layer in layers {
        var previous := layers[layer];
        ks, vs := previous.0 + keys, previous.1 + values;
      }
      layers := layers[layer := (ks, vs)];
    }
  }

  /** A layer's cache holds the keys and values of all processed tokens. */
  ghost predicate HoldsLayer<T, S, K, V>(entry: (seq<K>, seq<V>), layers: seq<Layer<S, K, V>>, embed: T -> S,
                                         window: int,
                                         l: nat, done: seq<T>)
    requires l < |layers|
  {
    var states := Hidden(layers, embed, window, l, done);
    entry == (Keys(layers[l], states, 0), Values(layers[l], states, 0))
  }

  /** Attending over a suffix of the queries is the suffix of attending over all of them. */
  lemma AttendSuffix<S, K, V>(layer: Layer<S, K, V>, whole: seq<S>, n: nat, window: int, ks: seq<K>, vs: seq<V>)
    requires n <= |whole| && |ks| == |vs|
    ensures Attend(layer, whole[n..], n, window, ks, vs) == Attend(layer, whole, 0, window, ks, vs)[n..]
  {
  }

  lemma KeysJoin<S, K, V>(layer: Layer<S, K, V>, whole: seq<S>, n: nat)
    requires n <= |whole|
    ensures Keys(layer, whole[..n], 0) + Keys(layer, whole[n..], n) == Keys(layer, whole, 0)
    ensures Values(layer, whole[..n], 0) + Values(layer, whole[n..], n) == Values(layer, whole, 0)
  {
  }

  /** One cached layer over a chunk: extends the cache and yields the chunk of the whole pass. */
  lemma LayerStep<T, S, K, V>(layers: seq<Layer<S, K, V>>, embed: T -> S, window: int, l: nat, done: seq<T>,
                              chunk: seq<T>,
                              entry: (seq<K>, seq<V>), states: seq<S>, ks: seq<K>, vs: seq<V>)
    requires l < |layers| && HoldsLayer(entry, layers, embed, window, l, done)
    requires states == Hidden(layers, embed, window, l, done + chunk)[|done|..]
    requires ks == entry.0 + Keys(layers[l], states, |done|) && vs == entry.1 + Values(layers[l], states, |done|)
    ensures |ks| == |vs| && HoldsLayer((ks, vs), layers, embed, window, l, done + chunk)
    ensures Attend(layers[l], states, |done|, window, ks, vs)
         == Hidden(layers, embed, window, l + 1, done + chunk)[|done|..]
  {
    var whole := Hidden(layers, embed, window, l, done + chunk);
    HiddenPrefix(layers, embed, window, l, done + chunk, |done|);
    assert (done + chunk)[..|done|] == done;
    KeysJoin(layers[l], whole, |done|);
    AttendSuffix(layers[l], whole, |done|, window, ks, vs);
  }

  /** The first `l` layers already cover the chunk; the others still end before it. */
  ghost predicate Advanced<T, S, K, V>(caches: map<nat, (seq<K>, seq<V>)>, layers: seq<Layer<S, K, V>>, embed: T -> S,
                                       window: int, done: seq<T>, chunk: seq<T>, l: nat)
  {
    forall k :: 0 <= k < |layers| ==> AdvancedAt(caches, layers, embed, window, done, chunk, l, k)
  }

  ghost predicate AdvancedAt<T, S, K, V>(caches: map<nat, (seq<K>, seq<V>)>, layers: seq<Layer<S, K, V>>, embed: T -> S,
                                         window: int, done: seq<T>, chunk: seq<T>, l: nat, k: nat)
    requires k < |layers|
  {
    HoldsLayer(EntryOf(caches, k), layers, embed, window, k, if k < l then done + chunk else done)
  }

  lemma AdvanceLayer<T, S, K, V>(caches: map<nat, (seq<K>, seq<V>)>, layers: seq<Layer<S, K, V>>, embed: T -> S,
                                 window: int, done: seq<T>, chunk: seq<T>, l: nat, entry: (seq<K>, seq<V>))
    requires l < |layers| && Advanced(caches, layers, embed, window, done, chunk, l)
    requires HoldsLayer(entry, layers, embed, window, l, done + chunk)
    ensures Advanced(caches[l := entry], layers, embed, window, done, chunk, l + 1)
  {
    var updated, next := caches[l := entry], l + 1;
    forall k | 0 <= k < |layers|
      ensures AdvancedAt(updated, layers, embed, window, done, chunk, next, k)
    {
      if k != l { assert AdvancedAt(caches, layers, embed, window, done, chunk, l, k); }
    }
  }

  /** Between steps every layer holds exactly the processed tokens. */
  ghost predicate Covers<T, S, K, V>(caches: map<nat, (seq<K>, seq<V>)>, layers: seq<Layer<S, K, V>>, embed: T -> S,
                                     window: int, done: seq<T>)
  {
    forall k :: 0 <= k < |layers| ==> HoldsLayer(EntryOf(caches, k), layers, embed, window, k, done)
  }

  lemma CoversAdvanced<T, S, K, V>(caches: map<nat, (seq<K>, seq<V>)>, layers: seq<Layer<S, K, V>>, embed: T -> S,
                                   window: int, done: seq<T>, chunk: seq<T>)
    requires Covers(caches, layers, embed, window, done)
    ensures Advanced(caches, layers, embed, window, done, chunk, 0)
  {
  }

  lemma AdvancedCovers<T, S, K, V>(caches: map<nat, (seq<K>, seq<V>)>, layers: seq<Layer<S, K, V>>, embed: T -> S,
                                   window: int, done: seq<T>, chunk: seq<T>)
    requires Advanced(caches, layers, embed, window, done, chunk, |layers|)
    ensures Covers(caches, layers, embed, window, done + chunk)
  {
    forall k | 0 <= k < |layers|
      ensures HoldsLayer(EntryOf(caches, k), layers, embed, window, k, done + chunk)
    {
      assert AdvancedAt(caches, layers, embed, window, done, chunk, |layers|, k);
    }
  }

  /** A fresh cache covers the empty sequence. */
  lemma FreshCovers<T, S, K, V>(layers: seq<Layer<S, K, V>>, embed: T -> S, window: int)
    ensures Covers<T, S, K, V>(map[], layers, embed, window, [])
  {
  }

  lemma CoveredLength<T, S, K, V>(caches: map<nat, (seq<K>, seq<V>)>, layers: seq<Layer<S, K, V>>, embed: T -> S,
                                  window: int, done: seq<T>, l: nat)
    requires Covers(caches, layers, embed, window, done) && l < |layers|
    ensures |EntryOf(caches, l).0| == |EntryOf(caches, l).1| == |done|
  {
    assert HoldsLayer(EntryOf(caches, l), layers, embed, window, l, done);
  }

  /** Runs one layer over a chunk against the cache. */
  method ForwardLayer<T, S, K, V>(layers: seq<Layer<S, K, V>>, embed: T -> S, window: int, l: nat, before: nat,
                                  states: seq<S>,
                                  cache: Cache<K, V>, ghost done: seq<T>, ghost chunk: seq<T>)
    returns (mixed: seq<S>)
    requires l < |layers| && before == |done|
    requires states == Hidden(layers, embed, window, l, done + chunk)[|done|..]
    requires Advanced(cache.layers, layers, embed, window, done, chunk, l)
    modifies cache
    ensures mixed == Hidden(layers, embed, window, l + 1, done + chunk)[|done|..]
    ensures Advanced(cache.layers, layers, embed, window, done, chunk, l + 1)
  {
    ghost var caches := cache.layers;
    assert AdvancedAt(caches, layers, embed, window, done, chunk, l, l);
    var keys, values := Keys(layers[l], states, before), Values(layers[l], states, before);
    var ks, vs := cache.Update(keys, values, l);
    LayerStep(layers, embed, window, l, done, chunk, EntryOf(caches, l), states, ks, vs);
    AdvanceLayer(caches, layers, embed, window, done, chunk, l, (ks, vs));
    mixed := Attend(layers[l], states, before, window, ks, vs);
  }

  /** Runs every layer over one chunk against the cache. */
  method Forward<T, S, K, V>(layers: seq<Layer<S, K, V>>, embed: T -> S, window: int, chunk: seq<T>,
                             cache: Cache<K, V>, ghost done: seq<T>)
    returns (states: seq<S>, before: nat)
    requires Covers(cache.layers, layers, embed, window, done)
    modifies cache
    ensures Covers(cache.layers, layers, embed, window, done + chunk)
    ensures states == Hidden(layers, embed, window, |layers|, done + chunk)[|done|..]
    ensures 0 < |layers| ==> before == |done|
  {
    before := cache.GetSeqLength();
    if 0 < |layers| {
      CoveredLength(cache.layers, layers, embed, window, done, 0);
    }
    states := Embedded(embed, chunk);
    CoversAdvanced(cache.layers, layers, embed, window, done, chunk);
    for l := 0 to |layers|
      invariant states == Hidden(layers, embed, window, l, done + chunk)[|done|..]
      invariant Advanced(cache.layers, layers, embed, window, done, chunk, l)
    {
      states := ForwardLayer(layers, embed, window, l, before, states, cache, done, chunk);
    }
    AdvancedCovers(cache.layers, layers, embed, window, done, chunk);
  }

  /**
   Stepping any split of a token sequence through the cache yields, at every position, the state
   of one whole pass, and between steps every layer's cache covers exactly the processed tokens.
   */
  method Run<T, S, K, V>(layers: seq<Layer<S, K, V>>, embed: T -> S, window: int, chunks: seq<seq<T>>)
    returns (outputs: seq<seq<S>>, lengths: seq<nat>)
    ensures Joined(outputs) == Hidden(layers, embed, window, |layers|, Joined(chunks))
    ensures Recorded(chunks, |chunks|, outputs, lengths, 0 < |layers|)
  {
    var cache := new Cache<K, V>();
    outputs, lengths := [], [];
    ghost var done: seq<T> := [];
    FreshCovers(layers, embed, window);
    for step := 0 to |chunks|
      invariant done == Joined(chunks[..step])
      invariant Covers(cache.layers, layers, embed, window, done)
      invariant Joined(outputs) == Hidden(layers, embed, window, |layers|, done)
      invariant Recorded(chunks, step, outputs, lengths, 0 < |layers|)
    {
      var states, before := Forward(layers, embed, window, chunks[step], cache, done);
      StepJoined(layers, embed, window, done, chunks[step], outputs, states);
      RecordStep(chunks, step, outputs, lengths, 0 < |layers|, states, before);
      done := done + chunks[step];
      outputs, lengths := outputs + [states], lengths + [before];
    }
    assert chunks[..|chunks|] == chunks;
  }

  lemma RecordStep<T, S>(chunks: seq<seq<T>>, step: nat, outputs: seq<seq<S>>, lengths: seq<nat>, layered: bool,
                         states: seq<S>, before: nat)
    requires step < |chunks| && Recorded(chunks, step, outputs, lengths, layered)
    requires |states| == |chunks[step]| && (layered ==> before == |Joined(chunks[..step])|)
    ensures Recorded(chunks, step + 1, outputs + [states], lengths + [before], layered)
    ensures Joined(chunks[..step + 1]) == Joined(chunks[..step]) + chunks[step]
  {
    assert chunks[..step + 1][..step] == chunks[..step];
  }

  /** Each step yields one state per token and records the length cached before it. */
  ghost predicate Recorded<T, S>(chunks: seq<seq<T>>, step: nat, outputs: seq<seq<S>>, lengths: seq<nat>, layered: bool)
    requires step <= |chunks|
  {
    && |outputs| == |lengths| == step
    && (forall i :: 0 <= i < step ==> |outputs[i]| == |chunks[i]|)
    && (layered ==> forall i :: 0 <= i < step ==> lengths[i] == |Joined(chunks[..i])|)
  }

  lemma StepJoined<T, S, K, V>(layers: seq<Layer<S, K, V>>, embed: T -> S, window: int, done: seq<T>, chunk: seq<T>,
                               outputs: seq<seq<S>>, states: seq<S>)
    requires Joined(outputs) == Hidden(layers, embed, window, |layers|, done)
    requires states == Hidden(layers, embed, window, |layers|, done + chunk)[|done|..]
    ensures Joined(outputs + [states]) == Hidden(layers, embed, window, |layers|, done + chunk)
  {
    assert (outputs + [states])[..|outputs|] == outputs;
    HiddenPrefix(layers, embed, window, |layers|, done + chunk, |done|);
    assert (done + chunk)[..|done|] == done;
  }
}
