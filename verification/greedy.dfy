/** The greedy loop of `run`: find peaks, keep their spikes, subtract them,
    and repeat until a step finds nothing or `max_iter` steps have run; then
    the train is ordered by time, clipped to the segment without its
    buffers and moved to recording coordinates. */
module Greedy {
  import opened ExtReal
  import opened ArrayOps
  import opened SpikeTrain
  import opened Objective
  import opened EngineConfig
  import opened PeakFinder
  import opened Subtraction

  /** What the loop has accumulated: `dec_spike_train`, `dist_metric`, the
      objective as the loop leaves it, and the number of productive steps. */
  datatype Pursuit = Pursuit(train: seq<Spike>, dist: seq<real>, obj: Grid, steps: nat)

  /** The engine's fixed inputs besides the objective: the unit overlap and
      pairwise convolution tables and the numeric kernels. */
  ghost predicate Setup(obj: Grid, cfg: Config, dataLen: nat, nk: Kernels, overlap: seq<seq<bool>>, pc: seq<seq<seq<real>>>) {
    Ready(obj, cfg, dataLen, nk) && Tables(cfg, overlap, pc)
  }

  /** The spikes of one step stay in the range the subtraction can address,
      and every one of them clears the threshold. */
  lemma StepInRange(obj: Grid, cfg: Config, dataLen: nat, nk: Kernels)
    requires Ready(obj, cfg, dataLen, nk)
    ensures var f := FindPeaks(obj, cfg, dataLen, nk);
      && (|f.spikes| > 0 ==> TrainInRange(cfg, dataLen, f.spikes))
      && forall j :: 0 <= j < |f.dist| ==> f.dist[j] > cfg.threshold
  {
    var f := FindPeaks(obj, cfg, dataLen, nk);
    forall j | 0 <= j < |f.spikes|
      ensures -(cfg.nTime as int) <= f.spikes[j].time <= dataLen as int - 2 * cfg.nTime
      ensures -1 <= f.spikes[j].id < UpUnits(cfg)
    {
      SpikeBounds(cfg, dataLen, f.peaks[j]);
    }
    if |f.spikes| > 0 {
      assert f.peaks[0].column + cfg.nTime < dataLen;
    }
  }

  /** What one iteration leaves: the spikes and distances `find_peaks`
      returned and the objective after the iteration. */
  datatype StepResult = StepResult(spikes: seq<Spike>, dist: seq<real>, obj: Grid)

  /** One iteration: `find_peaks`, and when it found spikes,
      `subtract_spike_train` on the objective `find_peaks` left. */
  function Step(obj: Grid, cfg: Config, dataLen: nat, nk: Kernels, overlap: seq<seq<bool>>, pc: seq<seq<seq<real>>>)
    : (r: StepResult)
    requires Setup(obj, cfg, dataLen, nk, overlap, pc)
    ensures |r.dist| == |r.spikes|
    ensures IsGrid(r.obj, cfg.nUnit, ObjLen(cfg, dataLen))
    ensures |r.spikes| > 0 ==> TrainInRange(cfg, dataLen, r.spikes)
    ensures AllAbove(r.dist, cfg.threshold)
  {
    var f := FindPeaks(obj, cfg, dataLen, nk);
    StepInRange(obj, cfg, dataLen, nk);
    if |f.spikes| == 0 then StepResult([], [], f.obj)
    else StepResult(f.spikes, f.dist, SubtractSpikeTrain(f.obj, cfg, dataLen, overlap, pc, f.spikes))
  }

  /** What one iteration does to objective cell `(k, t)`. It keeps the
      spikes and distances of `find_peaks`. A cell changes only when a
      dropped candidate switched it off, a found spike's subtraction reached
      it, or it lies in a found spike's refractory stretch; refractory cells,
      and switched-off cells that no subtraction reached, end at `-inf`. */
  lemma StepCell(obj: Grid, cfg: Config, dataLen: nat, nk: Kernels, overlap: seq<seq<bool>>,
                 pc: seq<seq<seq<real>>>, k: nat, t: nat)
    requires Setup(obj, cfg, dataLen, nk, overlap, pc) && k < cfg.nUnit && t < ObjLen(cfg, dataLen)
    ensures var f := FindPeaks(obj, cfg, dataLen, nk);
      var r := Step(obj, cfg, dataLen, nk, overlap, pc);
      && r.spikes == f.spikes && r.dist == f.dist
      && (|r.spikes| == 0 ==>
            r.obj[k][t] == if SwitchedOff(obj, cfg, dataLen, nk, k, t) then NegInf else obj[k][t])
      && (|r.spikes| > 0 ==>
            && ((k, t) in RefractoryCells(cfg, dataLen, r.spikes) ==> r.obj[k][t] == NegInf)
            && ((k, t) !in RefractoryCells(cfg, dataLen, r.spikes) && !Touched(cfg, dataLen, overlap, r.spikes, k, t) ==>
                  r.obj[k][t] == if SwitchedOff(obj, cfg, dataLen, nk, k, t) then NegInf else obj[k][t]))
  {
    FindPeaksSwitchesOff(obj, cfg, dataLen, nk, k, t);
  }

  /** Every distance clears the threshold. */
  predicate AllAbove(dist: seq<real>, threshold: real) {
    forall j :: 0 <= j < |dist| ==> dist[j] > threshold
  }

  lemma ConcatAbove(a: seq<real>, b: seq<real>, threshold: real)
    requires AllAbove(a, threshold) && AllAbove(b, threshold)
    ensures AllAbove(a + b, threshold)
  {
    forall j | 0 <= j < |a + b| ensures (a + b)[j] > threshold {
      if j >= |a| {
        assert (a + b)[j] == b[j - |a|];
      }
    }
  }

  /** Two trains in range make a train in range. */
  lemma ConcatInRange(cfg: Config, dataLen: nat, a: seq<Spike>, b: seq<Spike>)
    requires TrainInRange(cfg, dataLen, a) && (b == [] || TrainInRange(cfg, dataLen, b))
    ensures TrainInRange(cfg, dataLen, a + b)
  {
    forall i | 0 <= i < |a + b|
      ensures -(cfg.nTime as int) <= (a + b)[i].time <= dataLen as int - 2 * cfg.nTime
      ensures -1 <= (a + b)[i].id < UpUnits(cfg)
    {
      if i >= |a| {
        assert (a + b)[i] == b[i - |a|];
      }
    }
  }

  /** One iteration as a function of the objective alone, the engine's
      other inputs fixed. */
  function EngineStep(cfg: Config, dataLen: nat, nk: Kernels, overlap: seq<seq<bool>>, pc: seq<seq<seq<real>>>)
    : Grid --> StepResult
  {
    o requires Setup(o, cfg, dataLen, nk, overlap, pc) => Step(o, cfg, dataLen, nk, overlap, pc)
  }

  /** What the loop needs of one iteration's result. */
  predicate StepOk(st: StepResult, cfg: Config, dataLen: nat)
    requires cfg.nTime >= 1
  {
    && |st.dist| == |st.spikes|
    && IsGrid(st.obj, cfg.nUnit, ObjLen(cfg, dataLen))
    && (|st.spikes| > 0 ==> TrainInRange(cfg, dataLen, st.spikes))
    && AllAbove(st.dist, cfg.threshold)
  }

  /** An iteration can run on every objective of the right shape, and its
      result is `StepOk`. */
  ghost predicate StepKeeps(step: Grid --> StepResult, cfg: Config, dataLen: nat) {
    && cfg.nTime >= 1
    && forall o {:trigger step.requires(o)} :: IsGrid(o, cfg.nUnit, ObjLen(cfg, dataLen)) ==>
         step.requires(o) && StepOk(step(o), cfg, dataLen)
  }

  /** The engine's iteration keeps the loop's invariant. */
  lemma EngineStepKeeps(obj: Grid, cfg: Config, dataLen: nat, nk: Kernels, overlap: seq<seq<bool>>, pc: seq<seq<seq<real>>>)
    requires Setup(obj, cfg, dataLen, nk, overlap, pc)
    ensures StepKeeps(EngineStep(cfg, dataLen, nk, overlap, pc), cfg, dataLen)
  {
    var step := EngineStep(cfg, dataLen, nk, overlap, pc);
    forall o | IsGrid(o, cfg.nUnit, ObjLen(cfg, dataLen))
      ensures step.requires(o) && StepOk(step(o), cfg, dataLen)
    {
      assert Setup(o, cfg, dataLen, nk, overlap, pc);
      var st := Step(o, cfg, dataLen, nk, overlap, pc);
      assert StepOk(st, cfg, dataLen);
    }
  }

  /** The loop as a recursion on the steps still allowed. `tot_max` is set
      to infinity before the loop and never lowered, so only `max_iter` and
      an empty step end it. */
  ghost function Pursue(step: Grid --> StepResult, cfg: Config, dataLen: nat, obj: Grid, fuel: nat): (r: Pursuit)
    requires StepKeeps(step, cfg, dataLen) && IsGrid(obj, cfg.nUnit, ObjLen(cfg, dataLen))
    ensures |r.dist| == |r.train|
    ensures r.steps <= fuel && r.steps <= |r.train|
    ensures r.train == [] <==> r.steps == 0
    ensures r.train == [] || TrainInRange(cfg, dataLen, r.train)
    ensures AllAbove(r.dist, cfg.threshold)
    ensures IsGrid(r.obj, cfg.nUnit, ObjLen(cfg, dataLen))
    decreases fuel
  {
    if fuel == 0 then Pursuit([], [], obj, 0)
    else
      var st := step(obj);
      assert StepOk(st, cfg, dataLen);
      if |st.spikes| == 0 then Pursuit([], [], st.obj, 0)
      else
        var rest := Pursue(step, cfg, dataLen, st.obj, fuel - 1);
        ConcatInRange(cfg, dataLen, st.spikes, rest.train);
        ConcatAbove(st.dist, rest.dist, cfg.threshold);
        Pursuit(st.spikes + rest.train, st.dist + rest.dist, rest.obj, rest.steps + 1)
  }

  /** The rows and steps of earlier iterations placed before a pursuit. */
  function After(train: seq<Spike>, dist: seq<real>, ctr: nat, rest: Pursuit): Pursuit {
    Pursuit(train + rest.train, dist + rest.dist, rest.obj, ctr + rest.steps)
  }

  lemma AfterNothing(p: Pursuit)
    ensures After([], [], 0, p) == p
  {
    assert [] + p.train == p.train && [] + p.dist == p.dist;
  }

  lemma AfterEmpty(train: seq<Spike>, dist: seq<real>, ctr: nat, obj: Grid)
    ensures After(train, dist, ctr, Pursuit([], [], obj, 0)) == Pursuit(train, dist, obj, ctr)
  {
    assert train + [] == train && dist + [] == dist;
  }

  lemma AfterStep(train: seq<Spike>, dist: seq<real>, ctr: nat, st: StepResult, rest: Pursuit)
    ensures After(train, dist, ctr, Pursuit(st.spikes + rest.train, st.dist + rest.dist, rest.obj, rest.steps + 1))
      == After(train + st.spikes, dist + st.dist, ctr + 1, rest)
  {
    assert train + (st.spikes + rest.train) == (train + st.spikes) + rest.train;
    assert dist + (st.dist + rest.dist) == (dist + st.dist) + rest.dist;
  }

  /** One pass of the loop body keeps the loop's invariant: an empty step
      ends the pursuit with the step's objective, and any other step moves
      its spikes and distances from the pursuit to the accumulators. */
  lemma LoopStep(step: Grid --> StepResult, cfg: Config, dataLen: nat, obj: Grid, fuel: nat,
                 train: seq<Spike>, dist: seq<real>, ctr: nat)
    requires StepKeeps(step, cfg, dataLen) && IsGrid(obj, cfg.nUnit, ObjLen(cfg, dataLen)) && fuel > 0
    ensures var st := step(obj);
      var before := After(train, dist, ctr, Pursue(step, cfg, dataLen, obj, fuel));
      && (|st.spikes| == 0 ==> Pursuit(train, dist, st.obj, ctr) == before)
      && (|st.spikes| > 0 ==>
            && IsGrid(st.obj, cfg.nUnit, ObjLen(cfg, dataLen))
            && After(train + st.spikes, dist + st.dist, ctr + 1, Pursue(step, cfg, dataLen, st.obj, fuel - 1)) == before)
  {
    var st := step(obj);
    assert StepOk(st, cfg, dataLen);
    if |st.spikes| == 0 {
      AfterEmpty(train, dist, ctr, st.obj);
    } else {
      AfterStep(train, dist, ctr, st, Pursue(step, cfg, dataLen, st.obj, fuel - 1));
    }
  }

  /** The `while` loop of `run`, appending each step's spikes and distances
      in place; it computes exactly `Pursue` with `maxIter` steps. */
  method Loop(step: Grid --> StepResult, cfg: Config, dataLen: nat, obj0: Grid, maxIter: nat)
    returns (train: seq<Spike>, dist: seq<real>, obj: Grid, ctr: nat)
    requires StepKeeps(step, cfg, dataLen) && IsGrid(obj0, cfg.nUnit, ObjLen(cfg, dataLen))
    ensures Pursuit(train, dist, obj, ctr) == Pursue(step, cfg, dataLen, obj0, maxIter)
  {
    ghost var target := Pursue(step, cfg, dataLen, obj0, maxIter);
    train, dist, obj, ctr := [], [], obj0, 0;
    AfterNothing(target);
    while ctr < maxIter
      invariant ctr <= maxIter
      invariant IsGrid(obj, cfg.nUnit, ObjLen(cfg, dataLen))
      invariant After(train, dist, ctr, Pursue(step, cfg, dataLen, obj, maxIter - ctr)) == target
    {
      assert step.requires(obj);
      var st := step(obj);
      LoopStep(step, cfg, dataLen, obj, maxIter - ctr, train, dist, ctr);
      if |st.spikes| == 0 {
        obj := st.obj;
        return;
      }
      train := train + st.spikes;
      dist := dist + st.dist;
      obj := st.obj;
      ctr := ctr + 1;
    }
    AfterEmpty(train, dist, ctr, obj);
  }

  /** The loop of `run` on the engine's iteration, `max_iter` steps. */
  method PursuitLoop(obj0: Grid, cfg: Config, dataLen: nat, nk: Kernels, overlap: seq<seq<bool>>, pc: seq<seq<seq<real>>>)
    returns (train: seq<Spike>, dist: seq<real>, obj: Grid, ctr: nat)
    requires Setup(obj0, cfg, dataLen, nk, overlap, pc)
    ensures (EngineStepKeeps(obj0, cfg, dataLen, nk, overlap, pc);
      Pursuit(train, dist, obj, ctr) == Pursue(EngineStep(cfg, dataLen, nk, overlap, pc), cfg, dataLen, obj0, cfg.maxIter))
  {
    EngineStepKeeps(obj0, cfg, dataLen, nk, overlap, pc);
    train, dist, obj, ctr := Loop(EngineStep(cfg, dataLen, nk, overlap, pc), cfg, dataLen, obj0, cfg.maxIter);
  }

  /** With `max_iter = 0` the loop does not run. */
  lemma NoStepsNoSpikes(step: Grid --> StepResult, cfg: Config, dataLen: nat, obj: Grid)
    requires StepKeeps(step, cfg, dataLen) && IsGrid(obj, cfg.nUnit, ObjLen(cfg, dataLen))
    ensures Pursue(step, cfg, dataLen, obj, 0) == Pursuit([], [], obj, 0)
  {
  }

  // ---------------------------------------------------------------- finishing a segment

  /** The end of `run`: rows ordered by time, those with time in
      `[idx_list[2], idx_list[3])` kept, and times moved by
      `idx_list[0] - idx_list[2]`. */
  function Finalize(train: seq<Spike>, start: int, lo: int, hi: int): (r: seq<Spike>)
    ensures SortedByTime(r)
  {
    InWindowSorted(SortByTime(train), lo, hi);
    ShiftTimesSorted(InWindow(SortByTime(train), lo, hi), start - lo);
    ShiftTimes(InWindow(SortByTime(train), lo, hi), start - lo)
  }

  /** Every row of the finished train is a row of the loop's train that lay
      in the window, moved to recording time. */
  lemma FinalizeSound(train: seq<Spike>, start: int, lo: int, hi: int, x: Spike) returns (y: Spike)
    requires x in Finalize(train, start, lo, hi)
    ensures y in train && lo <= y.time < hi && Moved(y, start - lo) == x
  {
    FinalizeSteps(train, start, lo, hi);
    y := ReorderedWindowSource(train, SortByTime(train), lo, hi, start - lo, x);
  }

  /** Every row of the loop's train that lay in the window is in the
      finished train, moved to recording time. */
  lemma FinalizeComplete(train: seq<Spike>, start: int, lo: int, hi: int, y: Spike)
    requires y in train && lo <= y.time < hi
    ensures Moved(y, start - lo) in Finalize(train, start, lo, hi)
  {
    FinalizeSteps(train, start, lo, hi);
    ReorderedWindowHolds(train, SortByTime(train), lo, hi, start - lo, y);
  }

  /** Sorting drops and duplicates no row: the finished train holds every
      row of the loop's train that lay in the window, moved to recording
      time, exactly as often as the train holds it. */
  lemma FinalizeKeepsRows(train: seq<Spike>, start: int, lo: int, hi: int)
    ensures multiset(Finalize(train, start, lo, hi)) == multiset(ShiftTimes(InWindow(train, lo, hi), start - lo))
    ensures |Finalize(train, start, lo, hi)| == |InWindow(train, lo, hi)|
  {
    FinalizeSteps(train, start, lo, hi);
    ReorderedWindowRows(train, SortByTime(train), start, lo, hi);
  }

  /** Unfolding step: `Finalize` spelled out as its three stages, for the
      proofs above. */
  lemma FinalizeSteps(train: seq<Spike>, start: int, lo: int, hi: int)
    ensures Finalize(train, start, lo, hi) == ShiftTimes(InWindow(SortByTime(train), lo, hi), start - lo)
  {
  }
}
