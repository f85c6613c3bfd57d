/** Sub-sample resolution. Every base unit has `F` upsampled variants, one
    per fractional shift. This module holds the lookup tables that turn the
    position of a maximum in an `F`-times resampled objective window into a
    variant and a one-sample time correction, the reordering that relates
    the engine's variants to the plainly upsampled templates, and the time
    correction for spike trains read against those templates. */
module Upsampling {
  import opened ArrayOps
  import opened TemplateBank
  import opened SpikeTrain

  /** `radius = factor // 2 + factor % 2`, i.e. half the factor rounded up. */
  function Radius(F: nat): nat {
    F / 2 + F % 2
  }

  /** `off = (factor + 1) % 2`: 1 for an even factor. */
  function Off(F: nat): nat {
    (F + 1) % 2
  }

  /** `up_window`: objective offsets read around a candidate column. */
  function UpWindow(F: nat): (w: seq<int>)
    ensures |w| == 2 * Radius(F) + 2
    ensures forall i :: 0 <= i < |w| ==> w[i] == i - Radius(F) - 1
  {
    var R := Radius(F);
    seq(2 * R + 2, i requires 0 <= i < 2 * R + 2 => i - R - 1)
  }

  /** `up_window` is `np.arange(-radius - 1, radius + 1)`. */
  lemma UpWindowIsArange(F: nat)
    ensures UpWindow(F) == Arange(-(Radius(F) as int) - 1, Radius(F) + 1, 1)
  {
  }

  /** `zoom_index = (radius + 1) * factor + np.arange(-factor // 2, radius)`:
      the rows of the resampled window the maximum is searched in. */
  function ZoomIndex(F: nat): (z: seq<int>)
    requires F >= 1
    ensures |z| == 2 * Radius(F)
    ensures forall i :: 0 <= i < |z| ==> z[i] == (Radius(F) + 1) * F - Radius(F) + i
  {
    var a := Arange((-(F as int)) / 2, Radius(F), 1);
    seq(|a|, i requires 0 <= i < |a| => (Radius(F) + 1) * F + a[i])
  }

  /** `peak_to_template_idx`: the variant chosen for each zoomed position. */
  function PeakToTemplateIdx(F: nat): (p: seq<int>)
    requires F >= 1
    ensures |p| == F + 1
    ensures forall i :: 1 <= i <= F ==> p[i] == (i - 1 + Radius(F) + Off(F)) % F
    ensures p[0] == p[1] - Off(F)
  {
    var r, off := Radius(F), Off(F);
    var base := Arange(r + off, F, 1) + Arange(0, r + off, 1);
    RotationForm(F, base);
    var padded := [base[0]] + base;
    if off == 1 then padded[0 := padded[0] - 1] else padded
  }

  /** The two concatenated ranges rotate `0 .. F-1` left by `radius + off`. */
  lemma RotationForm(F: nat, base: seq<int>)
    requires F >= 1
    requires base == Arange(Radius(F) + Off(F), F, 1) + Arange(0, Radius(F) + Off(F), 1)
    ensures |base| == F
    ensures forall q :: 0 <= q < F ==> base[q] == (q + Radius(F) + Off(F)) % F
  {
    var h := Radius(F) + Off(F);
    assert h <= F;
    forall q | 0 <= q < F ensures base[q] == (q + h) % F {
      if q < F - h {
        DivUnique(q + h, F, 0, q + h);
      } else {
        DivUnique(q + h, F, 1, q + h - F);
      }
    }
  }

  /** `peak_time_jitter`: the one-sample time correction for each zoomed
      position. */
  function PeakTimeJitter(F: nat): (j: seq<int>)
    requires F >= 1
    ensures |j| == 2 * Radius(F) + 1
    ensures forall i :: 0 <= i < |j| ==> j[i] == (if i < Radius(F) && Radius(F) >= 2 then 1 else 0)
  {
    var r := Radius(F);
    var ones := Repeat([1, 0], r);
    forall i | 0 <= i < 2 * r ensures ones[i] == (if i < r then 1 else 0) {
      RepeatAt([1, 0], r, i);
      if i < r { DivUnique(i, r, 0, i); } else { DivUnique(i, r, 1, i - r); }
    }
    var cut := ones[r - 1 := 0];
    [cut[0]] + cut
  }

  /** Every position the argmax over the zoomed rows can return has an entry
      in both lookup tables. */
  lemma ShiftLookupTotal(F: nat)
    requires F >= 1
    ensures |ZoomIndex(F)| <= |PeakToTemplateIdx(F)| && |ZoomIndex(F)| < |PeakTimeJitter(F)|
  {
  }

  /** The zoomed rows lie inside the window resampled to
      `len(up_window) * factor` rows. */
  lemma ZoomInsideWindow(F: nat)
    requires F >= 1
    ensures forall i :: 0 <= i < |ZoomIndex(F)| ==> 0 <= ZoomIndex(F)[i] < |UpWindow(F)| * F
  {
    var r := Radius(F);
    MulMono(1, F, r + 1);
    assert (2 * r + 2) * F == 2 * ((r + 1) * F);
  }

  /** The time correction is always 0 or 1 samples. */
  lemma JitterIsBit(F: nat)
    requires F >= 1
    ensures forall i :: 0 <= i < |PeakTimeJitter(F)| ==> PeakTimeJitter(F)[i] in {0, 1}
  {
  }

  /** For `F = 1` or `F >= 3` every table entry names one of the `F`
      variants, so `id // F` of an emitted id is the chosen base unit. For
      `F = 2` the first entry is -1, which names the last variant of the
      previous base unit. */
  lemma VariantInRange(F: nat)
    requires F >= 1
    ensures forall i :: 0 <= i <= F ==> -1 <= PeakToTemplateIdx(F)[i] < F
    ensures F != 2 ==> forall i :: 0 <= i <= F ==> 0 <= PeakToTemplateIdx(F)[i] < F
    ensures F == 2 ==> PeakToTemplateIdx(F)[0] == -1
  {
    var p := PeakToTemplateIdx(F);
    if F % 2 == 0 && F >= 4 {
      DivUnique(Radius(F) + 1, F, 0, Radius(F) + 1);
    }
    if F == 2 {
      DivUnique(2, 2, 1, 0);
    }
  }

  // ---------------------------------------------------------------- variant order

  /** Position `s` of `[0, F-1, F-2, ..., 1]`. */
  function ReversedVariant(F: nat, s: int): int {
    if s == 0 then 0 else F - s
  }

  /** `np.append(np.arange(0, 1), np.arange(F - 1, 0, -1))`. */
  function VariantPattern(F: nat): (v: seq<int>)
    requires F >= 1
    ensures |v| == F
    ensures forall s :: 0 <= s < F ==> v[s] == ReversedVariant(F, s)
  {
    Arange(0, 1, 1) + Arange(F - 1, 0, -1)
  }

  /** `reorder_idx` of `get_upsampled_templates`: the pattern tiled once per
      base unit plus `np.arange(0, F*K, F).repeat(F)`. */
  function ReorderIdx(K: nat, F: nat): (r: seq<int>)
    requires F >= 1
    ensures |r| == K * F
  {
    var tiled := Tile(VariantPattern(F), K);
    var offsets := Repeat(Arange(0, F * K, F), F);
    OrigTemplateIdxLen(K, F);
    seq(K * F, p requires 0 <= p < K * F => tiled[p] + offsets[p])
  }

  lemma OffsetAt(K: nat, F: nat, p: nat)
    requires F >= 1 && p < K * F
    ensures |Repeat(Arange(0, F * K, F), F)| == K * F
    ensures Repeat(Arange(0, F * K, F), F)[p] == Parent(F, p) * F
  {
    OrigTemplateIdxLen(K, F);
    assert |Arange(0, F * K, F)| == K;
    RepeatAt(Arange(0, F * K, F), F, p);
  }

  lemma PatternAt(K: nat, F: nat, p: nat)
    requires F >= 1 && p < K * F
    ensures |Tile(VariantPattern(F), K)| == K * F
    ensures Tile(VariantPattern(F), K)[p] == ReversedVariant(F, Variant(F, p))
  {
    TileAt(VariantPattern(F), K, p);
  }

  /** Upsampled unit `k*F + s` takes variant `[0, F-1, ..., 1][s]` of the
      same base unit. */
  lemma ReorderAt(K: nat, F: nat, p: nat)
    requires F >= 1 && p < K * F
    ensures ReorderIdx(K, F)[p] == UpId(F, Parent(F, p), ReversedVariant(F, Variant(F, p)))
  {
    OffsetAt(K, F, p);
    PatternAt(K, F, p);
  }

  /** Reordering unit `k*F + s` and then reading its parent and variant
      gives `k` and the reversed variant. */
  lemma ReorderSplit(K: nat, F: nat, k: nat, s: nat)
    requires F >= 1 && k < K && s < F
    ensures UpId(F, k, s) < K * F
    ensures 0 <= ReorderIdx(K, F)[UpId(F, k, s)] < K * F
    ensures Parent(F, ReorderIdx(K, F)[UpId(F, k, s)]) == k
    ensures Variant(F, ReorderIdx(K, F)[UpId(F, k, s)]) == ReversedVariant(F, s)
    ensures ReorderIdx(K, F)[UpId(F, k, s)] == UpId(F, k, ReversedVariant(F, s))
  {
    SplitId(K, F, k, s);
    ReorderAt(K, F, UpId(F, k, s));
    SplitId(K, F, k, ReversedVariant(F, s));
  }

  /** The reorder keeps every upsampled unit within its base unit and is its
      own inverse, hence a permutation of `[0, K*F)`. */
  lemma ReorderInvolution(K: nat, F: nat)
    requires F >= 1
    ensures forall p :: 0 <= p < K * F ==>
      && 0 <= ReorderIdx(K, F)[p] < K * F
      && Parent(F, ReorderIdx(K, F)[p]) == Parent(F, p)
      && ReorderIdx(K, F)[ReorderIdx(K, F)[p]] == p
  {
    forall p | 0 <= p < K * F
      ensures 0 <= ReorderIdx(K, F)[p] < K * F
      ensures Parent(F, ReorderIdx(K, F)[p]) == Parent(F, p)
      ensures ReorderIdx(K, F)[ReorderIdx(K, F)[p]] == p
    {
      ReorderTwice(K, F, p);
    }
  }

  lemma ReorderTwice(K: nat, F: nat, p: nat)
    requires F >= 1 && p < K * F
    ensures 0 <= ReorderIdx(K, F)[p] < K * F
    ensures Parent(F, ReorderIdx(K, F)[p]) == Parent(F, p)
    ensures ReorderIdx(K, F)[ReorderIdx(K, F)[p]] == p
  {
    ParentInRange(K, F, p);
    var k, s := Parent(F, p), Variant(F, p);
    assert p == UpId(F, k, s);
    var s' := ReversedVariant(F, s);
    assert 0 <= s' < F && ReversedVariant(F, s') == s;
    ReorderSplit(K, F, k, s);
    ReorderSplit(K, F, k, s');
  }

  /** `resample(...)[down_sample_idx]` transposed and reshaped: variant `f`
      of unit `k` sits at id `k*F + f` and takes every `F`-th fine sample
      starting at `f`. */
  function Gathered(res: Tensor, T: nat, C: nat, K: nat, F: nat): (g: Tensor)
    requires F >= 1 && IsTensor(res, T * F, C, K)
    ensures IsTensor(g, T, C, K * F)
  {
    seq(T, t requires 0 <= t < T =>
      seq(C, c requires 0 <= c < C =>
        seq(K * F, p requires 0 <= p < K * F =>
          ParentInRange(K, F, p);
          SplitId(T, F, t, Variant(F, p));
          res[UpId(F, t, Variant(F, p))][c][Parent(F, p)])))
  }

  /** `get_upsampled_templates`. `res` is the template bank resampled to
      `T*F` samples; the gathered variants are reordered by `ReorderIdx`.
      The method also multiplies the unit count by `F` once more. */
  function UpsampledTemplates(res: Tensor, T: nat, C: nat, K: nat, F: nat, nUnit: nat): (out: (Tensor, nat))
    requires F >= 1 && IsTensor(res, T * F, C, K)
    ensures IsTensor(out.0, T, C, K * F)
    ensures out.1 == nUnit * F
  {
    var g := Gathered(res, T, C, K, F);
    var order := ReorderIdx(K, F);
    ReorderInvolution(K, F);
    var out := seq(T, t requires 0 <= t < T =>
      seq(C, c requires 0 <= c < C =>
        seq(K * F, p requires 0 <= p < K * F => g[t][c][order[p]])));
    (out, nUnit * F)
  }

  /** Variant `s` of unit `k` in the returned bank is fine-sample phase
      `[0, F-1, ..., 1][s]` of the resampled template `k`. */
  lemma UpsampledTemplatesAt(res: Tensor, T: nat, C: nat, K: nat, F: nat, nUnit: nat, t: nat, c: nat, k: nat, s: nat)
    requires F >= 1 && IsTensor(res, T * F, C, K)
    requires t < T && c < C && k < K && s < F
    ensures UpId(F, k, s) < K * F && t * F + ReversedVariant(F, s) < T * F
    ensures UpsampledTemplates(res, T, C, K, F, nUnit).0[t][c][UpId(F, k, s)] == res[t * F + ReversedVariant(F, s)][c][k]
  {
    ReorderSplit(K, F, k, s);
    SplitId(T, F, t, ReversedVariant(F, s));
  }

  // ---------------------------------------------------------------- time correction

  /** `correct_shift_deconv_spike_train`: spikes of a non-zero variant move
      one sample later; ids and the row order are kept. */
  function CorrectShift(train: seq<Spike>, F: nat): (r: seq<Spike>)
    requires F >= 1
    ensures |r| == |train|
    ensures forall i :: 0 <= i < |train| ==>
      && r[i].id == train[i].id
      && 0 <= r[i].time - train[i].time <= 1
      && (r[i].time == train[i].time + 1 <==> Variant(F, train[i].id) != 0)
  {
    seq(|train|, i requires 0 <= i < |train| =>
      if train[i].id % F > 0 then Spike(train[i].time + 1, train[i].id) else train[i])
  }

  /** Without upsampling the correction changes nothing. */
  lemma CorrectShiftWithoutUpsampling(train: seq<Spike>)
    ensures CorrectShift(train, 1) == train
  {
  }
}
