/**
 * Risk tiers and the lightweight reason codes of the serving layer (serving/explain.py).
 * Probabilities and coefficients are exact reals. The model's coefficient row is
 * `Some(coefs)` for a model that has `coef_` and `None` otherwise; the index order
 * that `np.argsort(coefs)` returns is a parameter constrained by `IsArgsort`, because
 * numpy does not fix the order of equal coefficients.
 */
module Explain {
  import opened Wrappers

  // ---------------------------------------------------------------------------
  // Risk tier
  // ---------------------------------------------------------------------------

  datatype Tier = Low | Medium | High

  /** The string the service reports for a tier. */
  function TierName(t: Tier): string
  {
    match t
    case Low => "low"
    case Medium => "medium"
    case High => "high"
  }

  /** Tiers ordered from low to high. */
  function Rank(t: Tier): nat
  {
    match t
    case Low => 0
    case Medium => 1
    case High => 2
  }

  const DefaultHigh: real := 0.7
  const DefaultMedium: real := 0.4

  /** `derive_risk_tier`: "high" from `high` up, "medium" from `medium` up, "low" below. */
  function DeriveRiskTier(p: real, high: real, medium: real): (t: Tier)
    ensures t == High <==> p >= high
    ensures t == Medium <==> p < high && p >= medium
    ensures t == Low <==> p < high && p < medium
  {
    if p >= high then High
    else if p >= medium then Medium
    else Low
  }

  /** With `medium <= high`, a higher probability never gets a lower tier. */
  lemma TierMonotone(p: real, q: real, high: real, medium: real)
    requires medium <= high && p <= q
    ensures Rank(DeriveRiskTier(p, high, medium)) <= Rank(DeriveRiskTier(q, high, medium))
  {
  }

  /** The service's thresholds: 0.7 and above is high, 0.4 up to 0.7 medium, below 0.4 low. */
  lemma DefaultTiers(p: real)
    ensures DeriveRiskTier(p, DefaultHigh, DefaultMedium) == High <==> p >= 0.7
    ensures DeriveRiskTier(p, DefaultHigh, DefaultMedium) == Medium <==> 0.4 <= p < 0.7
    ensures DeriveRiskTier(p, DefaultHigh, DefaultMedium) == Low <==> p < 0.4
  {
  }

  // ---------------------------------------------------------------------------
  // Reason codes
  // ---------------------------------------------------------------------------

  /** Number of global drivers reported. */
  const TopCount: nat := 5

  const NoCoefCode: string := "MODEL_NO_COEF"
  const NoTopCode: string := "NO_TOP_FEATURES"
  const TopPrefix: string := "TOP_GLOBAL_"

  /** `order` is an `np.argsort(coefs)`: every index once, ordered by non-decreasing coefficient. */
  predicate IsArgsort(coefs: seq<real>, order: seq<nat>)
  {
    && |order| == |coefs|
    && (forall k :: 0 <= k < |order| ==> order[k] < |coefs|)
    && (forall j :: 0 <= j < |coefs| ==> j in order)
    && (forall a, b :: 0 <= a < b < |order| && order[b] < |coefs| ==> order[a] < |coefs| && coefs[order[a]] <= coefs[order[b]])
  }

  function Reverse(s: seq<nat>): (r: seq<nat>)
    ensures |r| == |s|
    ensures forall k :: 0 <= k < |s| ==> r[k] == s[|s| - 1 - k]
  {
    seq(|s|, k requires 0 <= k < |s| => s[|s| - 1 - k])
  }

  /** `np.argsort(coefs)[-5:][::-1]`: the last five indices of the order (all of them when fewer), last first. */
  function TopIndices(order: seq<nat>): seq<nat>
  {
    var start := if |order| < TopCount then 0 else |order| - TopCount;
    Reverse(order[start..])
  }

  /** The indices below `n`, in their order (the `if i < len(feature_columns)` condition). */
  function IndicesBelow(idx: seq<nat>, n: nat): (r: seq<nat>)
    ensures |r| <= |idx|
    ensures forall i :: i in r <==> i in idx && i < n
    ensures forall k :: 0 <= k < |r| ==> r[k] < n
    ensures (forall i :: i in idx ==> i >= n) ==> r == []
    decreases |idx|
  {
    if idx == [] then []
    else
      var last := |idx| - 1;
      assert forall i :: i in idx <==> i in idx[..last] || i == idx[last];
      assert idx[last] in idx;
      assert (forall i :: i in idx ==> i >= n) ==> (forall i :: i in idx[..last] ==> i >= n) && idx[last] >= n;
      IndicesBelow(idx[..last], n) + (if idx[last] < n then [idx[last]] else [])
  }

  /** `[f"TOP_GLOBAL_{feature_columns[i]}" for i in kept]`. */
  function TopCodes(featureColumns: seq<string>, kept: seq<nat>): (r: seq<string>)
    requires forall k :: 0 <= k < |kept| ==> kept[k] < |featureColumns|
    ensures |r| == |kept|
  {
    seq(|kept|, k requires 0 <= k < |kept| => TopPrefix + featureColumns[kept[k]])
  }

  /** `baseline_reason_codes`. */
  function BaselineReasonCodes(coefs: Option<seq<real>>, featureColumns: seq<string>, order: seq<nat>): (r: seq<string>)
    ensures 1 <= |r| <= TopCount
    ensures coefs.None? ==> r == [NoCoefCode]
  {
    if coefs.None? then [NoCoefCode]
    else
      var kept := IndicesBelow(TopIndices(order), |featureColumns|);
      if kept == [] then [NoTopCode] else TopCodes(featureColumns, kept)
  }

  /** Coefficients never increase along `s`. */
  predicate Descending(coefs: seq<real>, s: seq<nat>)
  {
    forall a, b :: 0 <= a < b < |s| && s[b] < |coefs| ==> s[a] < |coefs| && coefs[s[a]] >= coefs[s[b]]
  }

  /** The top indices are the highest-coefficient indices, highest first. */
  lemma TopIndicesSpec(coefs: seq<real>, order: seq<nat>)
    requires IsArgsort(coefs, order)
    ensures var top := TopIndices(order);
            && |top| == (if |coefs| < TopCount then |coefs| else TopCount)
            && Descending(coefs, top)
            && (forall i :: i in top ==> i < |coefs|)
            && (forall j, i :: 0 <= j < |coefs| && j !in top && i in top ==> coefs[j] <= coefs[i])
  {
    TopIndicesShape(coefs, order);
    TopIndicesDominate(coefs, order);
  }

  /** At most five top indices, all in range, in descending coefficient order. */
  lemma TopIndicesShape(coefs: seq<real>, order: seq<nat>)
    requires IsArgsort(coefs, order)
    ensures var top := TopIndices(order);
            && |top| == (if |coefs| < TopCount then |coefs| else TopCount)
            && Descending(coefs, top)
            && (forall i :: i in top ==> i < |coefs|)
  {
    var top := TopIndices(order);
    assert forall k :: 0 <= k < |top| ==> top[k] == order[|order| - 1 - k];
  }

  /** Every index left out of the top has a coefficient no larger than any top index's. */
  lemma TopIndicesDominate(coefs: seq<real>, order: seq<nat>)
    requires IsArgsort(coefs, order)
    ensures var top := TopIndices(order);
            forall j, i :: 0 <= j < |coefs| && j !in top && i in top ==> coefs[j] <= coefs[i]
  {
    var start := if |order| < TopCount then 0 else |order| - TopCount;
    var top := TopIndices(order);
    assert forall p :: start <= p < |order| ==> order[p] == top[|order| - 1 - p];
    forall j, i | 0 <= j < |coefs| && j !in top && i in top
      ensures coefs[j] <= coefs[i]
    {
      assert j in order;
      var p :| 0 <= p < |order| && order[p] == j;
      assert p < start;
      var k :| 0 <= k < |top| && top[k] == i;
      var q := |order| - 1 - k;
      assert order[q] == i;
    }
  }

  /** Dropping indices keeps the rest in descending order. */
  lemma {:induction false} IndicesBelowDescending(coefs: seq<real>, idx: seq<nat>, n: nat)
    requires Descending(coefs, idx)
    ensures Descending(coefs, IndicesBelow(idx, n))
    decreases |idx|
  {
    if idx != [] {
      var last := |idx| - 1;
      var prefix := idx[..last];
      assert Descending(coefs, prefix);
      IndicesBelowDescending(coefs, prefix, n);
      var head := IndicesBelow(prefix, n);
      if idx[last] < n {
        var r := head + [idx[last]];
        assert IndicesBelow(idx, n) == r;
        forall a, b | 0 <= a < b < |r| && r[b] < |coefs|
          ensures r[a] < |coefs| && coefs[r[a]] >= coefs[r[b]]
        {
          if b == |head| {
            assert r[a] == head[a] && head[a] in prefix;
            var p :| 0 <= p < last && prefix[p] == r[a];
            assert idx[p] == r[a] && r[b] == idx[last];
          } else {
            assert r[a] == head[a] && r[b] == head[b];
          }
        }
      } else {
        assert IndicesBelow(idx, n) == head;
      }
    }
  }

  /**
   * With coefficients, the reason codes are "TOP_GLOBAL_" followed by the names of the
   * highest-coefficient features that have a name, highest first, at most five of them;
   * when none of the five top indices has a name, the single code is "NO_TOP_FEATURES".
   */
  lemma ReasonCodesSpec(coefs: seq<real>, featureColumns: seq<string>, order: seq<nat>)
    requires IsArgsort(coefs, order)
    ensures var r := BaselineReasonCodes(Some(coefs), featureColumns, order);
            var kept := IndicesBelow(TopIndices(order), |featureColumns|);
            && (r == [NoTopCode] <==> kept == [])
            && (kept == [] <==> forall i :: i in TopIndices(order) ==> i >= |featureColumns|)
            && (kept != [] ==>
                  && |r| == |kept|
                  && Descending(coefs, kept)
                  && (forall k :: 0 <= k < |kept| ==> kept[k] < |featureColumns| && r[k] == TopPrefix + featureColumns[kept[k]])
                  && (forall j, i :: 0 <= j < |coefs| && j !in TopIndices(order) && i in kept ==> coefs[j] <= coefs[i]))
  {
    var top := TopIndices(order);
    var kept := IndicesBelow(top, |featureColumns|);
    TopIndicesSpec(coefs, order);
    IndicesBelowDescending(coefs, top, |featureColumns|);
    if kept != [] {
      var r := TopCodes(featureColumns, kept);
      assert r[0] != NoTopCode by {
        assert r[0][..|TopPrefix|] == TopPrefix;
        assert NoTopCode[..|TopPrefix|] != TopPrefix by { assert NoTopCode[0] != TopPrefix[0]; }
      }
      forall k | 0 <= k < |kept|
        ensures kept[k] in kept
      {
      }
    }
  }
}
