/** The template bank and what the engine derives from it once, before any
    data is seen: which channels each unit is visible on, the templates with
    invisible channels zeroed, which units share a visible channel, and the
    id layout of the upsampled units. */
module TemplateBank {
  import opened ArrayOps
  import opened Outcome

  /** `temps[t][c][k]`: T time samples, C channels, K units. */
  type Tensor = seq<seq<seq<real>>>

  /** `vis[c][k]`: channel `c` is visible for unit `k`. */
  type Mask = seq<seq<bool>>

  predicate IsTensor(x: Tensor, T: nat, C: nat, K: nat) {
    && |x| == T
    && forall t :: 0 <= t < T ==>
         |x[t]| == C && forall c :: 0 <= c < C ==> |x[t][c]| == K
  }

  predicate IsMask(m: Mask, C: nat, K: nat) {
    |m| == C && forall c :: 0 <= c < C ==> |m[c]| == K
  }

  // ---------------------------------------------------------------- visibility

  function MaxOf(xs: seq<real>): (m: real)
    requires |xs| > 0
    ensures forall i :: 0 <= i < |xs| ==> xs[i] <= m
    ensures exists i :: 0 <= i < |xs| && xs[i] == m
  {
    if |xs| == 1 then xs[0]
    else
      var m' := MaxOf(xs[1..]);
      if xs[0] >= m' then xs[0] else m'
  }

  function MinOf(xs: seq<real>): (m: real)
    requires |xs| > 0
    ensures forall i :: 0 <= i < |xs| ==> m <= xs[i]
    ensures exists i :: 0 <= i < |xs| && xs[i] == m
  {
    if |xs| == 1 then xs[0]
    else
      var m' := MinOf(xs[1..]);
      if xs[0] <= m' then xs[0] else m'
  }

  /** Samples of channel `c` of unit `k` over time. */
  function Trace(x: Tensor, T: nat, C: nat, K: nat, c: nat, k: nat): (tr: seq<real>)
    requires IsTensor(x, T, C, K) && c < C && k < K
    ensures |tr| == T
  {
    seq(T, t requires 0 <= t < T => x[t][c][k])
  }

  /** Some two samples of channel `c` of unit `k` differ by more than `threshold`. */
  ghost predicate SwingsAbove(x: Tensor, T: nat, C: nat, K: nat, c: nat, k: nat, threshold: real)
    requires IsTensor(x, T, C, K) && c < C && k < K
  {
    exists t1, t2 :: 0 <= t1 < T && 0 <= t2 < T && x[t1][c][k] - x[t2][c][k] > threshold
  }

  /** `np.max(temps, 0) - np.min(temps, 0) > vis_su`: peak-to-peak amplitude
      of every channel of every unit against the visibility threshold. */
  function ComputeVisible(x: Tensor, T: nat, C: nat, K: nat, threshold: real): (vis: Mask)
    requires IsTensor(x, T, C, K) && T > 0
    ensures IsMask(vis, C, K)
  {
    seq(C, c requires 0 <= c < C =>
      seq(K, k requires 0 <= k < K =>
        var tr := Trace(x, T, C, K, c, k);
        MaxOf(tr) - MinOf(tr) > threshold))
  }

  /** A channel is visible exactly when two of its samples differ by more
      than the threshold. */
  lemma VisibleIff(x: Tensor, T: nat, C: nat, K: nat, threshold: real)
    requires IsTensor(x, T, C, K) && T > 0
    ensures forall c, k :: 0 <= c < C && 0 <= k < K ==>
      (ComputeVisible(x, T, C, K, threshold)[c][k] <==> SwingsAbove(x, T, C, K, c, k, threshold))
  {
    var vis := ComputeVisible(x, T, C, K, threshold);
    forall c, k | 0 <= c < C && 0 <= k < K
      ensures vis[c][k] <==> SwingsAbove(x, T, C, K, c, k, threshold)
    {
      var tr := Trace(x, T, C, K, c, k);
      var hi, lo := MaxOf(tr), MinOf(tr);
      if vis[c][k] {
        var t1 :| 0 <= t1 < T && tr[t1] == hi;
        var t2 :| 0 <= t2 < T && tr[t2] == lo;
        assert x[t1][c][k] - x[t2][c][k] > threshold;
      }
      if SwingsAbove(x, T, C, K, c, k, threshold) {
        var t1, t2 :| 0 <= t1 < T && 0 <= t2 < T && x[t1][c][k] - x[t2][c][k] > threshold;
        assert tr[t1] <= hi && lo <= tr[t2];
      }
    }
  }

  /** `visible_chans`: computed on first use and cached afterwards. */
  function VisibleChans(cache: Option<Mask>, x: Tensor, T: nat, C: nat, K: nat, threshold: real): (vis: Mask)
    requires IsTensor(x, T, C, K) && T > 0
    requires cache.Some? ==> IsMask(cache.value, C, K)
    ensures IsMask(vis, C, K)
    ensures cache.Some? ==> vis == cache.value
    ensures cache.None? ==> forall c, k :: 0 <= c < C && 0 <= k < K ==>
      (vis[c][k] <==> SwingsAbove(x, T, C, K, c, k, threshold))
  {
    if cache.Some? then cache.value
    else
      VisibleIff(x, T, C, K, threshold);
      ComputeVisible(x, T, C, K, threshold)
  }

  // ---------------------------------------------------------------- spatial masking

  /** `spatially_mask_templates`: every entry on a channel the unit is not
      visible on becomes zero. */
  function MaskTemplates(x: Tensor, vis: Mask, T: nat, C: nat, K: nat): (m: Tensor)
    requires IsTensor(x, T, C, K) && IsMask(vis, C, K)
    ensures IsTensor(m, T, C, K)
    ensures forall t, c, k :: 0 <= t < T && 0 <= c < C && 0 <= k < K && !vis[c][k] ==> m[t][c][k] == 0.0
    ensures forall t, c, k :: 0 <= t < T && 0 <= c < C && 0 <= k < K && vis[c][k] ==> m[t][c][k] == x[t][c][k]
  {
    seq(T, t requires 0 <= t < T =>
      seq(C, c requires 0 <= c < C =>
        seq(K, k requires 0 <= k < K =>
          // np.logical_xor(True, vis) selects the invisible entries
          if true != vis[c][k] then 0.0 else x[t][c][k])))
  }

  /** Masking twice is masking once. */
  lemma MaskIdempotent(x: Tensor, vis: Mask, T: nat, C: nat, K: nat)
    requires IsTensor(x, T, C, K) && IsMask(vis, C, K)
    ensures MaskTemplates(MaskTemplates(x, vis, T, C, K), vis, T, C, K) == MaskTemplates(x, vis, T, C, K)
  {
    var m := MaskTemplates(x, vis, T, C, K);
    var mm := MaskTemplates(m, vis, T, C, K);
    forall t | 0 <= t < T ensures mm[t] == m[t] {
      forall c | 0 <= c < C ensures mm[t][c] == m[t][c] {
        assert mm[t][c] == m[t][c];
      }
    }
  }

  /** With a non-negative threshold, the masked templates have exactly the
      visibility of the originals: a zeroed channel never swings. */
  lemma MaskKeepsVisibility(x: Tensor, T: nat, C: nat, K: nat, threshold: real)
    requires IsTensor(x, T, C, K) && T > 0 && threshold >= 0.0
    ensures ComputeVisible(MaskTemplates(x, ComputeVisible(x, T, C, K, threshold), T, C, K), T, C, K, threshold)
         == ComputeVisible(x, T, C, K, threshold)
  {
    var vis := ComputeVisible(x, T, C, K, threshold);
    var m := MaskTemplates(x, vis, T, C, K);
    var vis' := ComputeVisible(m, T, C, K, threshold);
    VisibleIff(x, T, C, K, threshold);
    VisibleIff(m, T, C, K, threshold);
    forall c | 0 <= c < C ensures vis'[c] == vis[c] {
      forall k | 0 <= k < K ensures vis'[c][k] == vis[c][k] {
        if vis[c][k] {
          var t1, t2 :| 0 <= t1 < T && 0 <= t2 < T && x[t1][c][k] - x[t2][c][k] > threshold;
          assert m[t1][c][k] - m[t2][c][k] > threshold;
        } else {
          assert !SwingsAbove(m, T, C, K, c, k, threshold);
        }
      }
    }
  }

  // ---------------------------------------------------------------- unit overlap

  /** `np.sum(vis[:, i] & vis[:, j])` over the first `n` channels. */
  function SharedChannels(vis: Mask, C: nat, K: nat, i: nat, j: nat, n: nat): (s: nat)
    requires IsMask(vis, C, K) && i < K && j < K && n <= C
    ensures s <= n
    ensures s > 0 <==> exists c :: 0 <= c < n && vis[c][i] && vis[c][j]
  {
    if n == 0 then 0
    else SharedChannels(vis, C, K, i, j, n - 1) + (if vis[n - 1][i] && vis[n - 1][j] then 1 else 0)
  }

  /** `template_overlaps` before replication: units `i` and `j` overlap when
      some channel is visible for both. */
  function BaseOverlap(vis: Mask, C: nat, K: nat): (o: seq<seq<bool>>)
    requires IsMask(vis, C, K)
    ensures |o| == K && forall i :: 0 <= i < K ==> |o[i]| == K
    ensures forall i, j :: 0 <= i < K && 0 <= j < K ==>
      (o[i][j] <==> exists c :: 0 <= c < C && vis[c][i] && vis[c][j])
    ensures forall i, j :: 0 <= i < K && 0 <= j < K ==> o[i][j] == o[j][i]
  {
    seq(K, i requires 0 <= i < K =>
      seq(K, j requires 0 <= j < K => SharedChannels(vis, C, K, i, j, C) > 0))
  }

  /** `template_overlaps`: the base relation with each row repeated once per
      upsampled variant, so that row `p` belongs to upsampled unit `p`. */
  function UnitOverlap(vis: Mask, C: nat, K: nat, F: nat): (o: seq<seq<bool>>)
    requires IsMask(vis, C, K)
    ensures |o| == K * F
  {
    Repeat(BaseOverlap(vis, C, K), F)
  }

  /** Row `p` of the replicated relation is the base row of unit `p // F`:
      upsampled unit `p` overlaps base unit `j` exactly when its parent and
      `j` share a visible channel. */
  lemma UnitOverlapRow(vis: Mask, C: nat, K: nat, F: nat, p: nat)
    requires IsMask(vis, C, K) && F > 0 && p < K * F
    ensures p / F < K
    ensures UnitOverlap(vis, C, K, F)[p] == BaseOverlap(vis, C, K)[p / F]
    ensures |UnitOverlap(vis, C, K, F)[p]| == K
    ensures forall j :: 0 <= j < K ==>
      (UnitOverlap(vis, C, K, F)[p][j] <==> exists c :: 0 <= c < C && vis[c][p / F] && vis[c][j])
  {
    RepeatAt(BaseOverlap(vis, C, K), F, p);
  }

  // ---------------------------------------------------------------- upsampled ids

  /** `n_unit = orig_n_unit * up_factor`. */
  function UpsampledUnitCount(K: nat, F: nat): nat {
    K * F
  }

  /** `orig_template_idx = np.arange(0, n_unit, up_factor)`. */
  function OrigTemplateIdx(K: nat, F: nat): seq<int>
    requires F > 0
  {
    Arange(0, UpsampledUnitCount(K, F), F)
  }

  /** Id of variant `s` of base unit `k`. */
  function UpId(F: nat, k: int, s: int): int {
    k * F + s
  }

  /** `id // up_factor`: the base unit an upsampled id belongs to. */
  function Parent(F: nat, id: int): int
    requires F > 0
  {
    id / F
  }

  /** `id % up_factor`: which variant of its base unit an upsampled id is. */
  function Variant(F: nat, id: int): int
    requires F > 0
  {
    id % F
  }

  /** The id layout is a bijection between `[0, K*F)` and base-unit/variant
      pairs, and `orig_template_idx` lists variant 0 of every base unit. */
  lemma UnitLayout(K: nat, F: nat)
    requires F > 0
    ensures |OrigTemplateIdx(K, F)| == K
    ensures forall k :: 0 <= k < K ==> OrigTemplateIdx(K, F)[k] == UpId(F, k, 0)
    ensures forall k, s :: 0 <= k < K && 0 <= s < F ==>
      && 0 <= UpId(F, k, s) < UpsampledUnitCount(K, F)
      && Parent(F, UpId(F, k, s)) == k && Variant(F, UpId(F, k, s)) == s
    ensures forall p :: 0 <= p < UpsampledUnitCount(K, F) ==>
      0 <= Parent(F, p) < K && UpId(F, Parent(F, p), Variant(F, p)) == p
  {
    OrigTemplateIdxLen(K, F);
    forall k, s | 0 <= k < K && 0 <= s < F
      ensures 0 <= UpId(F, k, s) < K * F && Parent(F, UpId(F, k, s)) == k && Variant(F, UpId(F, k, s)) == s
    {
      SplitId(K, F, k, s);
    }
    forall p | 0 <= p < K * F
      ensures 0 <= Parent(F, p) < K && UpId(F, Parent(F, p), Variant(F, p)) == p
    {
      ParentInRange(K, F, p);
    }
  }

  lemma OrigTemplateIdxLen(K: nat, F: nat)
    requires F > 0
    ensures |OrigTemplateIdx(K, F)| == K
  {
    if K > 0 {
      DivUnique(K * F + F - 1, F, K, F - 1);
    }
  }

  lemma SplitId(K: nat, F: nat, k: nat, s: nat)
    requires F > 0 && k < K && s < F
    ensures k * F + s < K * F && (k * F + s) / F == k && (k * F + s) % F == s
  {
    DivUnique(k * F + s, F, k, s);
    MulMono(k + 1, K, F);
    MulPred(k + 1, F);
  }

  lemma ParentInRange(K: nat, F: nat, p: nat)
    requires F > 0 && p < K * F
    ensures p / F < K
  {
    if p / F >= K {
      MulMono(K, p / F, F);
    }
  }

}
