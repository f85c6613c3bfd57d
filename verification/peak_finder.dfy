/** `find_peaks` and `high_res_peak`: one greedy step's choice of spikes.
    Candidate columns are local maxima of the column maximum of the
    objective that exceed the threshold and leave room for a whole template
    before the end of the data. Each candidate takes the best base unit of
    its column; with upsampling its sub-sample variant and time correction
    come from the argmax of the resampled objective window, and a candidate
    whose window touches a switched-off cell is dropped and switches off a
    refractory stretch of its unit instead. */
module PeakFinder {
  import opened ExtReal
  import opened Outcome
  import opened ArrayOps
  import opened SpikeTrain
  import opened Upsampling
  import opened Objective
  import TemplateBank
  import opened EngineConfig

  /** The numeric kernels of one step: `scipy.signal.argrelmax` with order
      `refrac_period` over the column maxima, and the argmax over the
      `zoom_index` rows of the resampled window (`scipy.signal.resample`
      followed by `np.argmax`). */
  datatype Kernels = Kernels(relmax: seq<Ext> -> seq<int>, zoomArgmax: seq<Ext> -> int)

  /** What the engine relies on: `argrelmax` returns positions of its input
      and the zoomed argmax returns a row of `zoom_index`. */
  ghost predicate Sound(nk: Kernels, F: nat) {
    && (forall v: seq<Ext>, i :: 0 <= i < |nk.relmax(v)| ==> 0 <= nk.relmax(v)[i] < |v|)
    && (forall w: seq<Ext> :: 0 <= nk.zoomArgmax(w) < 2 * Radius(F))
  }

  /** A resolved candidate: its objective column, the base unit chosen by
      the argmax over units, the variant offset and the time correction. */
  datatype Peak = Peak(column: nat, unit: nat, shift: int, jitter: int)

  /** The spike row a peak becomes: the time moves from convolution to
      recording coordinates, and the id encodes unit and variant. */
  function SpikeOf(p: Peak, F: nat, T: nat): Spike {
    Spike(p.column - p.jitter - T + 1, p.unit * F + p.shift)
  }

  /** The ranges a resolved peak's fields stay in. */
  predicate PeakInRange(cfg: Config, dataLen: nat, p: Peak) {
    && p.column + cfg.nTime < dataLen
    && p.unit < cfg.nUnit
    && p.jitter in {0, 1}
    && -1 <= p.shift < cfg.upFactor
    && (cfg.upFactor != 2 ==> 0 <= p.shift)
  }

  ghost predicate Ready(obj: Grid, cfg: Config, dataLen: nat, nk: Kernels) {
    Valid(cfg) && Sound(nk, cfg.upFactor) && IsGrid(obj, cfg.nUnit, ObjLen(cfg, dataLen))
  }

  /** Column `c` passes every filter of `find_peaks`. */
  predicate IsCandidate(obj: Grid, cfg: Config, dataLen: nat, nk: Kernels, c: int)
    requires Ready(obj, cfg, dataLen, nk)
  {
    var mx := ColumnMax(obj, cfg.nUnit, ObjLen(cfg, dataLen));
    && c in nk.relmax(mx)
    && 0 <= c && c + cfg.nTime < dataLen
    && Above(mx[c], cfg.threshold)
  }

  /** The candidate columns in `argrelmax` order: above the threshold first,
      then before `data_len - n_time`. */
  function Candidates(obj: Grid, cfg: Config, dataLen: nat, nk: Kernels): (cs: seq<int>)
    requires Ready(obj, cfg, dataLen, nk)
    ensures forall c {:trigger c in cs} :: c in cs <==> IsCandidate(obj, cfg, dataLen, nk, c)
    ensures forall i :: 0 <= i < |cs| ==> IsCandidate(obj, cfg, dataLen, nk, cs[i])
  {
    var L := ObjLen(cfg, dataLen);
    var mx := ColumnMax(obj, cfg.nUnit, L);
    var found := nk.relmax(mx);
    var above := Select(found, c => 0 <= c < L && Above(mx[c], cfg.threshold));
    var cs := Select(above, c => c < dataLen as int - cfg.nTime as int);
    assert forall i :: 0 <= i < |cs| ==> cs[i] in cs;
    cs
  }

  /** `obj[unit, c + up_window]`: the objective of one unit around `c`. */
  function PeakWindow(obj: Grid, cfg: Config, dataLen: nat, u: nat, c: int): (w: seq<Ext>)
    requires Valid(cfg) && IsGrid(obj, cfg.nUnit, ObjLen(cfg, dataLen)) && u < cfg.nUnit
    requires 0 <= c && c + cfg.nTime < dataLen
    ensures |w| == 2 * Radius(cfg.upFactor) + 2
    ensures (WindowInside(cfg, dataLen, c); forall i :: 0 <= i < |w| ==>
      w[i] == obj[u][Wrap(c - Radius(cfg.upFactor) - 1 + i, ObjLen(cfg, dataLen))])
  {
    var R := Radius(cfg.upFactor);
    var L := ObjLen(cfg, dataLen);
    WindowInside(cfg, dataLen, c);
    seq(2 * R + 2, i requires 0 <= i < 2 * R + 2 => obj[u][Wrap(c - R - 1 + i, L)])
  }

  /** The window is read at exactly the offsets `up_window`. */
  lemma PeakWindowOffsets(obj: Grid, cfg: Config, dataLen: nat, u: nat, c: int, i: nat)
    requires Valid(cfg) && IsGrid(obj, cfg.nUnit, ObjLen(cfg, dataLen)) && u < cfg.nUnit
    requires 0 <= c && c + cfg.nTime < dataLen && i < |UpWindow(cfg.upFactor)|
    ensures (WindowInside(cfg, dataLen, c);
      PeakWindow(obj, cfg, dataLen, u, c)[i]
      == obj[u][Wrap(c + UpWindow(cfg.upFactor)[i], ObjLen(cfg, dataLen))])
  {
    var R := Radius(cfg.upFactor);
    WindowInside(cfg, dataLen, c);
    var x := c + UpWindow(cfg.upFactor)[i];
    assert x == c - R - 1 + i;
  }

  /** Every column `c + up_window` and `c - refrac .. c` of a candidate is
      an index numpy accepts for an objective row. */
  lemma WindowInside(cfg: Config, dataLen: nat, c: int)
    requires Valid(cfg) && 0 <= c && c + cfg.nTime < dataLen
    ensures -(ObjLen(cfg, dataLen) as int) <= c - Radius(cfg.upFactor) - 1
    ensures c + Radius(cfg.upFactor) < ObjLen(cfg, dataLen)
    ensures -(ObjLen(cfg, dataLen) as int) <= c - cfg.refrac
  {
  }

  /** `turn_off_idx` of one invalid candidate: columns `c - refrac .. c` of
      its unit. */
  function TurnOffCells(cfg: Config, dataLen: nat, u: nat, c: int): (cells: seq<(nat, nat)>)
    requires Valid(cfg) && 0 <= c && c + cfg.nTime < dataLen
    ensures |cells| == cfg.refrac + 1
    ensures forall i :: 0 <= i < |cells| ==>
      cells[i] == (u, Wrap(c - cfg.refrac + i, ObjLen(cfg, dataLen)))
  {
    seq(cfg.refrac + 1, i requires 0 <= i < cfg.refrac + 1 =>
      (u, Wrap(c - cfg.refrac + i, ObjLen(cfg, dataLen))))
  }

  /** The window around `c` in the chosen unit's row reaches a switched-off
      cell at one of its two ends (`np.isinf` of its first or last row). */
  predicate WindowBlocked(obj: Grid, cfg: Config, dataLen: nat, u: nat, c: int)
    requires Valid(cfg) && IsGrid(obj, cfg.nUnit, ObjLen(cfg, dataLen)) && u < cfg.nUnit
    requires 0 <= c && c + cfg.nTime < dataLen
  {
    var L := ObjLen(cfg, dataLen);
    var R := Radius(cfg.upFactor);
    obj[u][Wrap(c - R - 1, L)].NegInf? || obj[u][Wrap(c + R, L)].NegInf?
  }

  /** `high_res_peak` for one candidate column. `None` marks an invalid
      candidate. */
  function Resolve(obj: Grid, cfg: Config, dataLen: nat, nk: Kernels, c: int): (r: Option<Peak>)
    requires Ready(obj, cfg, dataLen, nk) && 0 <= c && c + cfg.nTime < dataLen
    ensures r.None? <==>
      cfg.upFactor > 1 && WindowBlocked(obj, cfg, dataLen, ArgmaxAt(obj, cfg.nUnit, ObjLen(cfg, dataLen), c), c)
    ensures r.Some? ==>
      && r.value.column == c
      && r.value.unit == ArgmaxAt(obj, cfg.nUnit, ObjLen(cfg, dataLen), c)
      && r.value.jitter in {0, 1}
      && -1 <= r.value.shift < cfg.upFactor
      && (cfg.upFactor != 2 ==> 0 <= r.value.shift)
      && (cfg.upFactor == 1 ==> r.value.shift == 0 && r.value.jitter == 0)
    ensures r.Some? && cfg.upFactor > 1 ==>
      (ShiftLookupTotal(cfg.upFactor);
       var s := nk.zoomArgmax(PeakWindow(obj, cfg, dataLen, r.value.unit, c));
       && r.value.shift == PeakToTemplateIdx(cfg.upFactor)[s]
       && r.value.jitter == PeakTimeJitter(cfg.upFactor)[s])
  {
    var F := cfg.upFactor;
    var L := ObjLen(cfg, dataLen);
    var u := ArgmaxAt(obj, cfg.nUnit, L, c);
    if F == 1 then Some(Peak(c, u, 0, 0))
    else if WindowBlocked(obj, cfg, dataLen, u, c) then None
    else
      var s := nk.zoomArgmax(PeakWindow(obj, cfg, dataLen, u, c));
      ShiftLookupTotal(F);
      VariantInRange(F);
      JitterIsBit(F);
      Some(Peak(c, u, PeakToTemplateIdx(F)[s], PeakTimeJitter(F)[s]))
  }

  /** The resolved peaks of the candidates in order, and the cells the
      invalid ones switch off. */
  function Scan(obj: Grid, cfg: Config, dataLen: nat, nk: Kernels, cs: seq<int>): (r: (seq<Peak>, seq<(nat, nat)>))
    requires Ready(obj, cfg, dataLen, nk) && Columns(cfg, dataLen, cs)
    ensures forall j :: 0 <= j < |r.0| ==> r.0[j].column in cs && PeakInRange(cfg, dataLen, r.0[j])
    ensures cfg.upFactor == 1 ==> |r.0| == |cs| && r.1 == []
  {
    if |cs| == 0 then ([], [])
    else
      var rest := Scan(obj, cfg, dataLen, nk, cs[1..]);
      match Resolve(obj, cfg, dataLen, nk, cs[0])
      case Some(p) =>
        PeaksOfColumns(cfg, dataLen, cs, [p] + rest.0);
        ([p] + rest.0, rest.1)
      case None =>
        PeaksOfColumns(cfg, dataLen, cs, rest.0);
        var u := ArgmaxAt(obj, cfg.nUnit, ObjLen(cfg, dataLen), cs[0]);
        (rest.0, TurnOffCells(cfg, dataLen, u, cs[0]) + rest.1)
  }

  /** Peaks of the head column or of later columns are peaks of the
      columns. */
  lemma PeaksOfColumns(cfg: Config, dataLen: nat, cs: seq<int>, ps: seq<Peak>)
    requires |cs| > 0
    requires forall j :: 0 <= j < |ps| ==>
      (ps[j].column == cs[0] || ps[j].column in cs[1..]) && PeakInRange(cfg, dataLen, ps[j])
    ensures forall j :: 0 <= j < |ps| ==> ps[j].column in cs && PeakInRange(cfg, dataLen, ps[j])
  {
    assert cs == [cs[0]] + cs[1..];
  }

  /** Columns that leave room for a whole template before the data end. */
  predicate Columns(cfg: Config, dataLen: nat, cs: seq<int>) {
    forall i :: 0 <= i < |cs| ==> 0 <= cs[i] && cs[i] + cfg.nTime < dataLen
  }

  /** Every peak of the scan is what `high_res_peak` makes of its column. */
  lemma {:induction false} ScanSound(obj: Grid, cfg: Config, dataLen: nat, nk: Kernels, cs: seq<int>, j: nat)
    requires Ready(obj, cfg, dataLen, nk) && Columns(cfg, dataLen, cs)
    requires j < |Scan(obj, cfg, dataLen, nk, cs).0|
    ensures var p := Scan(obj, cfg, dataLen, nk, cs).0[j];
      Resolve(obj, cfg, dataLen, nk, p.column) == Some(p)
    decreases |cs|
  {
    assert |cs| > 0;
    var rest := Scan(obj, cfg, dataLen, nk, cs[1..]);
    match Resolve(obj, cfg, dataLen, nk, cs[0])
    case Some(p) =>
      if j > 0 {
        ScanSound(obj, cfg, dataLen, nk, cs[1..], j - 1);
      }
    case None =>
      ScanSound(obj, cfg, dataLen, nk, cs[1..], j);
  }

  /** Every column `high_res_peak` resolves yields a peak of the scan. */
  lemma {:induction false} ScanComplete(obj: Grid, cfg: Config, dataLen: nat, nk: Kernels, cs: seq<int>, c: int)
    requires Ready(obj, cfg, dataLen, nk) && Columns(cfg, dataLen, cs)
    requires c in cs && Resolve(obj, cfg, dataLen, nk, c).Some?
    ensures Resolve(obj, cfg, dataLen, nk, c).value in Scan(obj, cfg, dataLen, nk, cs).0
    decreases |cs|
  {
    var rest := Scan(obj, cfg, dataLen, nk, cs[1..]);
    if c != cs[0] {
      assert c in cs[1..];
      ScanComplete(obj, cfg, dataLen, nk, cs[1..], c);
    }
  }

  /** The cells the scan switches off are exactly the refractory stretches
      of the columns `high_res_peak` rejects, in their argmax unit. */
  lemma {:induction false} ScanCells(obj: Grid, cfg: Config, dataLen: nat, nk: Kernels, cs: seq<int>, cell: (nat, nat))
    requires Ready(obj, cfg, dataLen, nk) && Columns(cfg, dataLen, cs)
    ensures cell in Scan(obj, cfg, dataLen, nk, cs).1 <==> exists c ::
      && c in cs && Resolve(obj, cfg, dataLen, nk, c).None?
      && cell in TurnOffCells(cfg, dataLen, ArgmaxAt(obj, cfg.nUnit, ObjLen(cfg, dataLen), c), c)
    decreases |cs|
  {
    if |cs| > 0 {
      var L := ObjLen(cfg, dataLen);
      var rest := Scan(obj, cfg, dataLen, nk, cs[1..]);
      ScanCells(obj, cfg, dataLen, nk, cs[1..], cell);
      if cell in Scan(obj, cfg, dataLen, nk, cs).1 {
        if Resolve(obj, cfg, dataLen, nk, cs[0]).None?
          && cell in TurnOffCells(cfg, dataLen, ArgmaxAt(obj, cfg.nUnit, L, cs[0]), cs[0]) {
          assert cs[0] in cs;
        } else {
          assert cell in rest.1;
          var c :| && c in cs[1..] && Resolve(obj, cfg, dataLen, nk, c).None?
            && cell in TurnOffCells(cfg, dataLen, ArgmaxAt(obj, cfg.nUnit, L, c), c);
          assert c in cs;
        }
      } else {
        forall c | c in cs && Resolve(obj, cfg, dataLen, nk, c).None?
          ensures cell !in TurnOffCells(cfg, dataLen, ArgmaxAt(obj, cfg.nUnit, L, c), c)
        {
          if c != cs[0] {
            assert c in cs[1..];
          }
        }
      }
    }
  }

  /** What `find_peaks` hands back: the peaks behind the spikes, the spike
      rows, their `dist_metric` entries and the objective after the invalid
      candidates have been switched off. */
  datatype Found = Found(peaks: seq<Peak>, spikes: seq<Spike>, dist: seq<real>, obj: Grid)

  /** `find_peaks`. */
  function FindPeaks(obj: Grid, cfg: Config, dataLen: nat, nk: Kernels): (r: Found)
    requires Ready(obj, cfg, dataLen, nk)
    ensures |r.spikes| == |r.peaks| && |r.dist| == |r.peaks|
    ensures IsGrid(r.obj, cfg.nUnit, ObjLen(cfg, dataLen))
    ensures forall j :: 0 <= j < |r.peaks| ==>
      PeakInRange(cfg, dataLen, r.peaks[j]) && r.spikes[j] == SpikeOf(r.peaks[j], cfg.upFactor, cfg.nTime)
    ensures forall j :: 0 <= j < |r.dist| ==> r.dist[j] > cfg.threshold
  {
    var L := ObjLen(cfg, dataLen);
    var mx := ColumnMax(obj, cfg.nUnit, L);
    var scan := ScanCandidates(obj, cfg, dataLen, nk);
    var peaks := scan.0;
    assert forall j :: 0 <= j < |peaks| ==> peaks[j].column < |mx| && Above(mx[peaks[j].column], cfg.threshold);
    Found(peaks, Spikes(peaks, cfg.upFactor, cfg.nTime), Dists(mx, peaks, cfg.threshold), SwitchOff(obj, cfg.nUnit, L, scan.1))
  }

  /** Every peak `find_peaks` returns is a candidate column resolved by
      `high_res_peak`, and its distance is the column maximum there. */
  lemma FindPeaksSound(obj: Grid, cfg: Config, dataLen: nat, nk: Kernels, j: nat)
    requires Ready(obj, cfg, dataLen, nk) && j < |FindPeaks(obj, cfg, dataLen, nk).peaks|
    ensures var r := FindPeaks(obj, cfg, dataLen, nk);
      && IsCandidate(obj, cfg, dataLen, nk, r.peaks[j].column)
      && Resolve(obj, cfg, dataLen, nk, r.peaks[j].column) == Some(r.peaks[j])
      && r.dist[j] == ColumnMax(obj, cfg.nUnit, ObjLen(cfg, dataLen))[r.peaks[j].column].r
  {
    var L := ObjLen(cfg, dataLen);
    var mx := ColumnMax(obj, cfg.nUnit, L);
    var cs := Candidates(obj, cfg, dataLen, nk);
    assert FindPeaks(obj, cfg, dataLen, nk).peaks == Scan(obj, cfg, dataLen, nk, cs).0;
    ScanSound(obj, cfg, dataLen, nk, cs, j);
  }

  /** `Scan` over the candidates of the current objective. */
  function ScanCandidates(obj: Grid, cfg: Config, dataLen: nat, nk: Kernels): (r: (seq<Peak>, seq<(nat, nat)>))
    requires Ready(obj, cfg, dataLen, nk)
    ensures forall j :: 0 <= j < |r.0| ==>
      IsCandidate(obj, cfg, dataLen, nk, r.0[j].column) && PeakInRange(cfg, dataLen, r.0[j])
  {
    var cs := Candidates(obj, cfg, dataLen, nk);
    Scan(obj, cfg, dataLen, nk, cs)
  }

  /** The spike rows of the peaks, in order. */
  function Spikes(peaks: seq<Peak>, F: nat, T: nat): (s: seq<Spike>)
    ensures |s| == |peaks| && forall j :: 0 <= j < |peaks| ==> s[j] == SpikeOf(peaks[j], F, T)
  {
    seq(|peaks|, j requires 0 <= j < |peaks| => SpikeOf(peaks[j], F, T))
  }

  /** `dist_metric` of the peaks: the column maximum at each, which exceeds
      the threshold. */
  function Dists(mx: seq<Ext>, peaks: seq<Peak>, threshold: real): (d: seq<real>)
    requires forall j :: 0 <= j < |peaks| ==> peaks[j].column < |mx| && Above(mx[peaks[j].column], threshold)
    ensures |d| == |peaks|
    ensures forall j :: 0 <= j < |peaks| ==> Fin(d[j]) == mx[peaks[j].column] && d[j] > threshold
  {
    if |peaks| == 0 then []
    else
      assert Above(mx[peaks[0].column], threshold);
      [mx[peaks[0].column].r] + Dists(mx, peaks[1..], threshold)
  }

  /** Every valid candidate becomes a spike. */
  lemma FindPeaksComplete(obj: Grid, cfg: Config, dataLen: nat, nk: Kernels, c: int)
    requires Ready(obj, cfg, dataLen, nk)
    requires IsCandidate(obj, cfg, dataLen, nk, c) && Resolve(obj, cfg, dataLen, nk, c).Some?
    ensures Resolve(obj, cfg, dataLen, nk, c).value in FindPeaks(obj, cfg, dataLen, nk).peaks
  {
    var cs := Candidates(obj, cfg, dataLen, nk);
    assert c in cs;
    ScanComplete(obj, cfg, dataLen, nk, cs, c);
  }

  /** `find_peaks` changes the objective only by switching off the
      refractory stretches of invalid candidates. */
  lemma FindPeaksSwitchesOff(obj: Grid, cfg: Config, dataLen: nat, nk: Kernels, k: nat, t: nat)
    requires Ready(obj, cfg, dataLen, nk) && k < cfg.nUnit && t < ObjLen(cfg, dataLen)
    ensures FindPeaks(obj, cfg, dataLen, nk).obj[k][t] ==
      (if SwitchedOff(obj, cfg, dataLen, nk, k, t) then NegInf else obj[k][t])
  {
    var L := ObjLen(cfg, dataLen);
    var cs := Candidates(obj, cfg, dataLen, nk);
    var scan := Scan(obj, cfg, dataLen, nk, cs);
    assert FindPeaks(obj, cfg, dataLen, nk).obj == SwitchOff(obj, cfg.nUnit, L, scan.1);
    SwitchOffAt(obj, cfg.nUnit, L, scan.1, k, t);
    ScanCells(obj, cfg, dataLen, nk, cs, (k, t));
    forall c | && IsCandidate(obj, cfg, dataLen, nk, c) && Resolve(obj, cfg, dataLen, nk, c).None?
               && (k, t) in TurnOffCells(cfg, dataLen, ArgmaxAt(obj, cfg.nUnit, L, c), c)
      ensures (k, t) in scan.1
    {
      assert c in cs;
    }
    if (k, t) in scan.1 {
      var c :| && c in cs && Resolve(obj, cfg, dataLen, nk, c).None?
        && (k, t) in TurnOffCells(cfg, dataLen, ArgmaxAt(obj, cfg.nUnit, L, c), c);
      assert IsCandidate(obj, cfg, dataLen, nk, c);
    }
  }

  /** Without upsampling every candidate becomes a spike and the objective
      is left as it is. */
  lemma FindPeaksWithoutUpsampling(obj: Grid, cfg: Config, dataLen: nat, nk: Kernels)
    requires Ready(obj, cfg, dataLen, nk) && cfg.upFactor == 1
    ensures |FindPeaks(obj, cfg, dataLen, nk).peaks| == |Candidates(obj, cfg, dataLen, nk)|
    ensures FindPeaks(obj, cfg, dataLen, nk).obj == obj
  {
    var L := ObjLen(cfg, dataLen);
    var cs := Candidates(obj, cfg, dataLen, nk);
    var scan := Scan(obj, cfg, dataLen, nk, cs);
    var r := SwitchOff(obj, cfg.nUnit, L, scan.1);
    assert r == obj by {
      forall k | 0 <= k < cfg.nUnit ensures r[k] == obj[k] {
        assert r[k] == SwitchOffRow(obj[k], k, []);
      }
    }
  }

  /** The spike row of a peak lies within a template of the data start and
      ends a template before the data end, and its id names one of the
      `orig_n_unit * up_factor` units or, for `up_factor = 2`, is -1. */
  lemma SpikeBounds(cfg: Config, dataLen: nat, p: Peak)
    requires Valid(cfg) && PeakInRange(cfg, dataLen, p)
    ensures var sp := SpikeOf(p, cfg.upFactor, cfg.nTime);
      && -(cfg.nTime as int) <= sp.time <= dataLen as int - 2 * cfg.nTime
      && -1 <= sp.id < UpUnits(cfg)
      && (cfg.upFactor != 2 ==> 0 <= sp.id)
  {
    IdBounds(p.unit, cfg.nUnit, cfg.upFactor, p.shift);
  }

  /** The id a peak becomes splits back into its unit and variant with
      factors other than 2. With factor 2 the variant table's first entry
      is -1, and a peak taking it gets the id of variant 1 of the unit
      before its own. */
  lemma SpikeUnit(cfg: Config, dataLen: nat, p: Peak)
    requires Valid(cfg) && PeakInRange(cfg, dataLen, p)
    ensures var id := SpikeOf(p, cfg.upFactor, cfg.nTime).id;
      && (cfg.upFactor != 2 ==> id / cfg.upFactor == p.unit && id % cfg.upFactor == p.shift)
      && (cfg.upFactor == 2 && p.shift == -1 ==> id / 2 == p.unit - 1 && id % 2 == 1)
  {
    var F := cfg.upFactor;
    var id := p.unit * F + p.shift;
    if F != 2 {
      ArrayOps.DivUnique(id, F, p.unit, p.shift);
    } else if p.shift == -1 {
      ArrayOps.DivUnique(id, 2, p.unit - 1, 1);
    }
  }

  /** The id `u * F + s` of variant `s` of unit `u` names an upsampled
      unit, or is -1 for the variant -1 of unit 0. */
  lemma IdBounds(u: nat, n: nat, F: nat, s: int)
    requires u < n && -1 <= s < F
    ensures -1 <= u * F + s < n * F
    ensures s >= 0 ==> 0 <= u * F + s
  {
    ArrayOps.MulMono(u + 1, n, F);
    ArrayOps.MulSucc(u, F);
    ArrayOps.MulMono(0, u, F);
  }

  /** Cell `(k, t)` lies in the refractory stretch of an invalid candidate
      whose chosen unit is `k`. */
  ghost predicate SwitchedOff(obj: Grid, cfg: Config, dataLen: nat, nk: Kernels, k: nat, t: nat)
    requires Ready(obj, cfg, dataLen, nk)
  {
    exists c ::
      && IsCandidate(obj, cfg, dataLen, nk, c)
      && Resolve(obj, cfg, dataLen, nk, c).None?
      && (k, t) in TurnOffCells(cfg, dataLen, ArgmaxAt(obj, cfg.nUnit, ObjLen(cfg, dataLen), c), c)
  }
}
