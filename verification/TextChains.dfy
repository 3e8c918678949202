/** Reading and rewriting the classes of one text chain inside the whole paragraph. */
module TextChains {
  import opened BidiTypes
  import opened IsolatingRuns
  import opened WeakRules

  predicate InRange(indices: seq<nat>, n: nat) {
    forall k :: 0 <= k < |indices| ==> indices[k] < n
  }

  /** What a chain sees of the text: classes or characters. */
  function View<T>(text: seq<T>, indices: seq<nat>): (v: seq<T>)
    requires InRange(indices, |text|)
    ensures |v| == |indices|
  {
    seq(|indices|, k requires 0 <= k < |indices| => text[indices[k]])
  }

  /** `types` with the classes of the chain replaced by `v`. */
  function Scatter(types: Classes, indices: seq<nat>, v: Classes): (r: Classes)
    requires InRange(indices, |types|) && |v| == |indices|
    ensures |r| == |types|
  {
    if indices == [] then types
    else
      var last := |indices| - 1;
      Scatter(types, indices[..last], v[..last])[indices[last] := v[last]]
  }

  /** `after` is `before` with the classes of the chain replaced by `v`. */
  predicate Rewrites(before: Classes, after: Classes, indices: seq<nat>, v: Classes) {
    && |after| == |before| && |v| == |indices| && InRange(indices, |before|)
    && (forall k :: 0 <= k < |indices| ==> after[indices[k]] == v[k])
    && (forall p :: 0 <= p < |before| && p !in indices ==> after[p] == before[p])
  }

  lemma RewritesView(types: Classes, indices: seq<nat>)
    requires InRange(indices, |types|)
    ensures Rewrites(types, types, indices, View(types, indices))
  {
  }

  lemma RewritesStep(before: Classes, after: Classes, indices: seq<nat>, v: Classes, k: nat, bc: BidiClass)
    requires Rewrites(before, after, indices, v) && Ascending(indices) && k < |indices|
    ensures Rewrites(before, after[indices[k] := bc], indices, v[k := bc])
  {
    var after' := after[indices[k] := bc];
    forall j | 0 <= j < |indices| ensures after'[indices[j]] == v[k := bc][j] {
      if j < k {
        assert indices[j] < indices[k];
      } else if k < j {
        assert indices[k] < indices[j];
      }
    }
  }

  lemma {:induction false} ScatterRewrites(types: Classes, indices: seq<nat>, v: Classes)
    requires InRange(indices, |types|) && |v| == |indices| && Ascending(indices)
    ensures Rewrites(types, Scatter(types, indices, v), indices, v)
  {
    if indices != [] {
      var last := |indices| - 1;
      var front, w := indices[..last], v[..last];
      ScatterRewrites(types, front, w);
      var r := Scatter(types, front, w);
      forall k | 0 <= k < |indices| ensures r[indices[last] := v[last]][indices[k]] == v[k] {
        if k < last {
          assert front[k] == indices[k] && indices[k] < indices[last];
        }
      }
      forall p | 0 <= p < |types| && p !in indices ensures r[indices[last] := v[last]][p] == types[p] {
        assert p !in front;
      }
    }
  }

  /** A rewriting is determined by what it writes. */
  lemma RewritesIsScatter(before: Classes, after: Classes, indices: seq<nat>, v: Classes)
    requires Rewrites(before, after, indices, v) && Ascending(indices)
    ensures after == Scatter(before, indices, v)
  {
    ScatterRewrites(before, indices, v);
    var r := Scatter(before, indices, v);
    forall p | 0 <= p < |before| ensures after[p] == r[p] {
      if p in indices {
        var k :| 0 <= k < |indices| && indices[k] == p;
      }
    }
  }

  lemma ViewOfScatter(types: Classes, indices: seq<nat>, v: Classes)
    requires InRange(indices, |types|) && |v| == |indices| && Ascending(indices)
    ensures View(Scatter(types, indices, v), indices) == v
  {
    ScatterRewrites(types, indices, v);
  }

  /** Rewriting one chain does not change what a disjoint chain sees. */
  lemma ViewOfOther(types: Classes, indices: seq<nat>, v: Classes, other: seq<nat>)
    requires InRange(indices, |types|) && |v| == |indices| && Ascending(indices) && InRange(other, |types|)
    requires forall p :: p in other ==> p !in indices
    ensures View(Scatter(types, indices, v), other) == View(types, other)
  {
    ScatterRewrites(types, indices, v);
    forall k | 0 <= k < |other| ensures Scatter(types, indices, v)[other[k]] == types[other[k]] {
      assert other[k] in other;
    }
  }

  /** The vector in the middle of a pass: `after` is `before` with the chain showing v. */
  predicate Shows(before: Classes, after: Classes, indices: seq<nat>, v: Classes) {
    && |v| == |indices| && InRange(indices, |before|)
    && after == Scatter(before, indices, v)
  }

  lemma ShowsItself(types: Classes, indices: seq<nat>)
    requires InRange(indices, |types|) && Ascending(indices)
    ensures Shows(types, types, indices, View(types, indices))
  {
    RewritesView(types, indices);
    RewritesIsScatter(types, types, indices, View(types, indices));
  }

  lemma ShowsView(before: Classes, after: Classes, indices: seq<nat>, v: Classes)
    requires Shows(before, after, indices, v) && Ascending(indices)
    ensures |after| == |before| && View(after, indices) == v
    ensures forall k :: 0 <= k < |indices| ==> after[indices[k]] == v[k]
  {
    ScatterRewrites(before, indices, v);
  }

  lemma ShowsStep(before: Classes, after: Classes, indices: seq<nat>, v: Classes, k: nat, bc: BidiClass)
    requires Shows(before, after, indices, v) && Ascending(indices) && k < |indices|
    ensures |after| == |before| && after[indices[k]] == v[k]
    ensures Shows(before, after[indices[k] := bc], indices, v[k := bc])
  {
    ScatterRewrites(before, indices, v);
    RewritesStep(before, after, indices, v, k, bc);
    RewritesIsScatter(before, after[indices[k] := bc], indices, v[k := bc]);
  }
}
