/** `subtract_spike_train` and `enforce_refractory`: after a greedy step the
    accepted spikes' pairwise convolutions are taken out of the objective of
    every overlapping unit, and a stretch of each spike's own base-unit row
    is switched off so that the next step cannot pick it again. */
module Subtraction {
  import opened ExtReal
  import opened ArrayOps
  import opened SpikeTrain
  import opened Objective
  import opened EngineConfig

  /** The rows a greedy step produces: times in `[-n_time, data_len - 2*n_time]`
      and ids in `[-1, orig_n_unit * up_factor)`. */
  predicate TrainInRange(cfg: Config, dataLen: nat, spt: seq<Spike>) {
    && cfg.nTime < dataLen
    && forall i :: 0 <= i < |spt| ==>
      && -(cfg.nTime as int) <= spt[i].time <= dataLen as int - 2 * cfg.nTime
      && -1 <= spt[i].id < UpUnits(cfg)
  }

  // ---------------------------------------------------------------- refractory masking

  /** `id // up_factor`, the objective row of a spike's base unit (wrapping
      from the end for the id -1). */
  function UnitRow(cfg: Config, id: int): (k: nat)
    requires Valid(cfg) && -1 <= id < UpUnits(cfg)
    ensures k < cfg.nUnit
  {
    TemplateBank.ParentInRange(cfg.nUnit, cfg.upFactor, if id < 0 then 0 else id);
    if id < 0 then Wrap(-1, cfg.nUnit) else id / cfg.upFactor
  }

  /** The cells one spike switches off: its base-unit row at objective
      columns `t + n_time - 1 + w` for `w` in `[-adj + 1, adj - 2]`. */
  function RefractoryCellsOf(cfg: Config, dataLen: nat, s: Spike): (cells: seq<(nat, nat)>)
    requires Valid(cfg) && cfg.nTime < dataLen
    requires -(cfg.nTime as int) <= s.time <= dataLen as int - 2 * cfg.nTime && -1 <= s.id < UpUnits(cfg)
    ensures |cells| == 2 * AdjustedRefrac(cfg) - 2
    ensures forall q :: 0 <= q < |cells| ==>
      cells[q] == (UnitRow(cfg, s.id), Wrap(s.time + cfg.nTime - AdjustedRefrac(cfg) + q, ObjLen(cfg, dataLen)))
  {
    var adj := AdjustedRefrac(cfg);
    seq(2 * adj - 2, q requires 0 <= q < 2 * adj - 2 =>
      (UnitRow(cfg, s.id), Wrap(s.time + cfg.nTime - adj + q, ObjLen(cfg, dataLen))))
  }

  /** The cells `enforce_refractory` switches off for a whole train. */
  function RefractoryCells(cfg: Config, dataLen: nat, spt: seq<Spike>): (cells: seq<(nat, nat)>)
    requires Valid(cfg) && TrainInRange(cfg, dataLen, spt)
    ensures forall cell {:trigger cell in cells} :: cell in cells <==>
      exists i :: 0 <= i < |spt| && cell in RefractoryCellsOf(cfg, dataLen, spt[i])
  {
    if |spt| == 0 then []
    else
      var rest := RefractoryCells(cfg, dataLen, spt[1..]);
      assert forall i :: 1 <= i < |spt| ==> spt[i] == spt[1..][i - 1];
      RefractoryCellsOf(cfg, dataLen, spt[0]) + rest
  }

  /** `enforce_refractory`. */
  function EnforceRefractory(obj: Grid, cfg: Config, dataLen: nat, spt: seq<Spike>): (r: Grid)
    requires Valid(cfg) && IsGrid(obj, cfg.nUnit, ObjLen(cfg, dataLen)) && TrainInRange(cfg, dataLen, spt)
    ensures IsGrid(r, cfg.nUnit, ObjLen(cfg, dataLen))
    ensures forall k, t :: 0 <= k < cfg.nUnit && 0 <= t < ObjLen(cfg, dataLen) ==>
      r[k][t] == (if (k, t) in RefractoryCells(cfg, dataLen, spt) then NegInf else obj[k][t])
  {
    SwitchOff(obj, cfg.nUnit, ObjLen(cfg, dataLen), RefractoryCells(cfg, dataLen, spt))
  }

  /** With `adjusted_refrac_radius = 1` the trimmed window is empty, so no
      cell is switched off. */
  lemma RefractoryNoOpAtOne(obj: Grid, cfg: Config, dataLen: nat, spt: seq<Spike>)
    requires Valid(cfg) && IsGrid(obj, cfg.nUnit, ObjLen(cfg, dataLen)) && TrainInRange(cfg, dataLen, spt)
    requires AdjustedRefrac(cfg) == 1
    ensures EnforceRefractory(obj, cfg, dataLen, spt) == obj
  {
    var r := EnforceRefractory(obj, cfg, dataLen, spt);
    forall i | 0 <= i < |spt| ensures RefractoryCellsOf(cfg, dataLen, spt[i]) == [] {
    }
    forall k | 0 <= k < cfg.nUnit ensures r[k] == obj[k] {
      assert forall t :: 0 <= t < ObjLen(cfg, dataLen) ==> (k, t) !in RefractoryCells(cfg, dataLen, spt);
    }
  }

  // ---------------------------------------------------------------- subtraction

  /** Length of a full convolution of two templates, `2 * n_time - 1`. */
  function ConvLen(cfg: Config): nat
    requires cfg.nTime >= 1
  {
    2 * cfg.nTime - 1
  }

  /** `unit_overlap` (`orig_n_unit * up_factor` rows of `orig_n_unit`
      flags) and `pairwise_conv` (`orig_n_unit * up_factor` blocks of
      `orig_n_unit` rows of length `2 * n_time - 1`). */
  predicate Tables(cfg: Config, overlap: seq<seq<bool>>, pc: seq<seq<seq<real>>>)
    requires cfg.nTime >= 1
  {
    && |overlap| == UpUnits(cfg) && (forall i :: 0 <= i < |overlap| ==> |overlap[i]| == cfg.nUnit)
    && |pc| == UpUnits(cfg)
    && (forall i :: 0 <= i < |pc| ==> |pc[i]| == cfg.nUnit)
    && (forall i, j :: 0 <= i < |pc| && 0 <= j < cfg.nUnit ==> |pc[i][j]| == ConvLen(cfg))
  }

  /** `np.arange(0, conv_res_len) + unit_sp[:, :1]` flattened: the objective
      columns the rows of one unit reach, spike major. */
  function SubtractColumns(cfg: Config, sp: seq<Spike>): (cols: seq<int>)
    requires cfg.nTime >= 1
    ensures |cols| == |sp| * ConvLen(cfg)
  {
    Windows(sp, ConvLen(cfg))
  }

  lemma ColumnsInBounds(cfg: Config, dataLen: nat, sp: seq<Spike>)
    requires Valid(cfg) && TrainInRange(cfg, dataLen, sp)
    ensures InBounds(SubtractColumns(cfg, sp), ObjLen(cfg, dataLen))
  {
    var cols := SubtractColumns(cfg, sp);
    forall p | 0 <= p < |cols| ensures -(ObjLen(cfg, dataLen) as int) <= cols[p] < ObjLen(cfg, dataLen) {
      var j, q := WindowAt(sp, ConvLen(cfg), p);
    }
  }

  /** The fancy `-=` on one objective row: every addressed cell is read
      first, lowered by twice the matching entry of `deltas`, and written
      back, the last write to a cell winning. */
  function SubtractRow(row: seq<Ext>, cols: seq<int>, deltas: seq<real>): (r: seq<Ext>)
    requires |deltas| == |cols| && InBounds(cols, |row|)
    ensures |r| == |row|
    ensures forall t :: 0 <= t < |row| && !Hit(cols, |row|, t) ==> r[t] == row[t]
    ensures forall p :: 0 <= p < |cols| && LastWrite(cols, |row|, p) ==>
      r[Wrap(cols[p], |row|)] == Minus(row[Wrap(cols[p], |row|)], 2.0 * deltas[p])
  {
    var before := Take(row, cols);
    var vals := seq(|cols|, p requires 0 <= p < |cols| => Minus(before[p], 2.0 * deltas[p]));
    assert forall p :: 0 <= p < |cols| ==> vals[p] == Minus(row[Wrap(cols[p], |row|)], 2.0 * deltas[p]);
    Put(row, cols, vals)
  }

  /** One pass of the loop over `np.unique(spt[:, 1])`: unit `i`'s rows
      `unit_sp` taken out of every row `j` with `unit_overlap[i][j]`, the
      pairwise convolution tiled once per spike. */
  function SubtractUnit(obj: Grid, cfg: Config, dataLen: nat, overlap: seq<seq<bool>>, pc: seq<seq<seq<real>>>,
                        i: int, sp: seq<Spike>): (r: Grid)
    requires Valid(cfg) && IsGrid(obj, cfg.nUnit, ObjLen(cfg, dataLen)) && Tables(cfg, overlap, pc)
    requires -1 <= i < UpUnits(cfg) && TrainInRange(cfg, dataLen, sp)
    ensures IsGrid(r, cfg.nUnit, ObjLen(cfg, dataLen))
    ensures forall k :: 0 <= k < cfg.nUnit && !overlap[Wrap(i, UpUnits(cfg))][k] ==> r[k] == obj[k]
    ensures (ColumnsInBounds(cfg, dataLen, sp);
      forall k, t ::
        0 <= k < cfg.nUnit && 0 <= t < ObjLen(cfg, dataLen) && !Hit(SubtractColumns(cfg, sp), ObjLen(cfg, dataLen), t)
        ==> r[k][t] == obj[k][t])
  {
    var u := Wrap(i, UpUnits(cfg));
    var cols := SubtractColumns(cfg, sp);
    ColumnsInBounds(cfg, dataLen, sp);
    seq(cfg.nUnit, k requires 0 <= k < cfg.nUnit =>
      if overlap[u][k] then SubtractRow(obj[k], cols, Tile(pc[u][k], |sp|)) else obj[k])
  }

  /** The value a cell ends with when written by one unit's subtraction: the
      last column position `p` addressing it lowers the value read before the
      pass by twice the pairwise convolution at offset `p % conv_res_len`. */
  lemma SubtractUnitAt(obj: Grid, cfg: Config, dataLen: nat, overlap: seq<seq<bool>>, pc: seq<seq<seq<real>>>,
                       i: int, sp: seq<Spike>, k: nat, p: nat)
    requires Valid(cfg) && IsGrid(obj, cfg.nUnit, ObjLen(cfg, dataLen)) && Tables(cfg, overlap, pc)
    requires -1 <= i < UpUnits(cfg) && TrainInRange(cfg, dataLen, sp)
    requires k < cfg.nUnit && overlap[Wrap(i, UpUnits(cfg))][k]
    requires p < |sp| * ConvLen(cfg)
    ensures (ColumnsInBounds(cfg, dataLen, sp);
      LastWrite(SubtractColumns(cfg, sp), ObjLen(cfg, dataLen), p) ==>
        var c := Wrap(SubtractColumns(cfg, sp)[p], ObjLen(cfg, dataLen));
        SubtractUnit(obj, cfg, dataLen, overlap, pc, i, sp)[k][c]
          == Minus(obj[k][c], 2.0 * pc[Wrap(i, UpUnits(cfg))][k][p % ConvLen(cfg)]))
  {
    var u := Wrap(i, UpUnits(cfg));
    TileAt(pc[u][k], |sp|, p);
  }

  /** Rows taken from a train stay in the range the train is in. */
  lemma SubtrainInRange(cfg: Config, dataLen: nat, spt: seq<Spike>, sub: seq<Spike>)
    requires TrainInRange(cfg, dataLen, spt) && forall x :: x in sub ==> x in spt
    ensures TrainInRange(cfg, dataLen, sub)
  {
    forall j | 0 <= j < |sub| ensures -(cfg.nTime as int) <= sub[j].time <= dataLen as int - 2 * cfg.nTime
      && -1 <= sub[j].id < UpUnits(cfg)
    {
      assert sub[j] in spt;
    }
  }

  /** Some row of the train reaches objective cell `(k, t)`: its unit
      overlaps base unit `k` and `t` is one of the `conv_res_len` columns
      starting at its time. */
  ghost predicate Touched(cfg: Config, dataLen: nat, overlap: seq<seq<bool>>, spt: seq<Spike>, k: nat, t: nat)
    requires Valid(cfg) && TrainInRange(cfg, dataLen, spt) && k < cfg.nUnit
    requires |overlap| == UpUnits(cfg) && forall i :: 0 <= i < |overlap| ==> |overlap[i]| == cfg.nUnit
  {
    exists j, q :: 0 <= j < |spt| && 0 <= q < ConvLen(cfg)
      && overlap[Wrap(spt[j].id, UpUnits(cfg))][k] && Reaches(cfg, dataLen, spt[j], q) == t
  }

  /** The objective column a row's `q`-th convolution sample lands on. */
  function Reaches(cfg: Config, dataLen: nat, s: Spike, q: nat): (t: nat)
    requires Valid(cfg) && cfg.nTime < dataLen && q < ConvLen(cfg)
    requires -(cfg.nTime as int) <= s.time <= dataLen as int - 2 * cfg.nTime
    ensures t < ObjLen(cfg, dataLen)
  {
    Wrap(s.time + q, ObjLen(cfg, dataLen))
  }

  /** A column the pass of one unit addresses comes from one of that unit's
      rows. */
  lemma HitReaches(cfg: Config, dataLen: nat, sp: seq<Spike>, t: nat)
    requires Valid(cfg) && TrainInRange(cfg, dataLen, sp)
    requires (ColumnsInBounds(cfg, dataLen, sp); Hit(SubtractColumns(cfg, sp), ObjLen(cfg, dataLen), t))
    ensures exists j, q :: 0 <= j < |sp| && 0 <= q < ConvLen(cfg) && Reaches(cfg, dataLen, sp[j], q) == t
  {
    ColumnsInBounds(cfg, dataLen, sp);
    var cols := SubtractColumns(cfg, sp);
    var p :| 0 <= p < |cols| && Wrap(cols[p], ObjLen(cfg, dataLen)) == t;
    var j, q := WindowAt(sp, ConvLen(cfg), p);
    assert Reaches(cfg, dataLen, sp[j], q) == t;
  }

  /** A pass over one unit of the train changes only cells its rows reach. */
  lemma UnitPassFrame(obj: Grid, cfg: Config, dataLen: nat, overlap: seq<seq<bool>>, pc: seq<seq<seq<real>>>,
                      spt: seq<Spike>, i: int, k: nat, t: nat)
    requires Valid(cfg) && IsGrid(obj, cfg.nUnit, ObjLen(cfg, dataLen)) && Tables(cfg, overlap, pc)
    requires TrainInRange(cfg, dataLen, spt) && -1 <= i < UpUnits(cfg)
    requires k < cfg.nUnit && t < ObjLen(cfg, dataLen) && !Touched(cfg, dataLen, overlap, spt, k, t)
    ensures (SubtrainInRange(cfg, dataLen, spt, OfUnit(spt, i));
      SubtractUnit(obj, cfg, dataLen, overlap, pc, i, OfUnit(spt, i))[k][t] == obj[k][t])
  {
    var sp := OfUnit(spt, i);
    SubtrainInRange(cfg, dataLen, spt, sp);
    ColumnsInBounds(cfg, dataLen, sp);
    if overlap[Wrap(i, UpUnits(cfg))][k] && Hit(SubtractColumns(cfg, sp), ObjLen(cfg, dataLen), t) {
      HitReaches(cfg, dataLen, sp, t);
      var j, q :| 0 <= j < |sp| && 0 <= q < ConvLen(cfg) && Reaches(cfg, dataLen, sp[j], q) == t;
      var j' := OfUnitAt(spt, i, j);
      assert false;
    }
  }

  /** The passes over `units` in order, each with the unit's own rows. */
  function SubtractUnits(obj: Grid, cfg: Config, dataLen: nat, overlap: seq<seq<bool>>, pc: seq<seq<seq<real>>>,
                         spt: seq<Spike>, units: seq<int>): (r: Grid)
    requires Valid(cfg) && IsGrid(obj, cfg.nUnit, ObjLen(cfg, dataLen)) && Tables(cfg, overlap, pc)
    requires TrainInRange(cfg, dataLen, spt) && forall u :: u in units ==> u in Ids(spt)
    ensures IsGrid(r, cfg.nUnit, ObjLen(cfg, dataLen))
    ensures forall k, t ::
      0 <= k < cfg.nUnit && 0 <= t < ObjLen(cfg, dataLen) && !Touched(cfg, dataLen, overlap, spt, k, t)
      ==> r[k][t] == obj[k][t]
    decreases |units|
  {
    if |units| == 0 then obj
    else
      var i := units[0];
      var sp := OfUnit(spt, i);
      assert -1 <= i < UpUnits(cfg) by {
        assert units[0] in units;
        assert i in Ids(spt);
        var j :| 0 <= j < |Ids(spt)| && Ids(spt)[j] == i;
      }
      SubtrainInRange(cfg, dataLen, spt, sp);
      var once := SubtractUnit(obj, cfg, dataLen, overlap, pc, i, sp);
      forall k, t | 0 <= k < cfg.nUnit && 0 <= t < ObjLen(cfg, dataLen) && !Touched(cfg, dataLen, overlap, spt, k, t)
        ensures once[k][t] == obj[k][t]
      {
        UnitPassFrame(obj, cfg, dataLen, overlap, pc, spt, i, k, t);
      }
      SubtractUnits(once, cfg, dataLen, overlap, pc, spt, units[1..])
  }

  /** `subtract_spike_train`: one pass per unit present in the train, in
      increasing id order, then `enforce_refractory`. Every cell of the
      refractory stretches ends at `-inf`; every other cell that no row
      reaches keeps its value. */
  function SubtractSpikeTrain(obj: Grid, cfg: Config, dataLen: nat, overlap: seq<seq<bool>>, pc: seq<seq<seq<real>>>,
                              spt: seq<Spike>): (r: Grid)
    requires Valid(cfg) && IsGrid(obj, cfg.nUnit, ObjLen(cfg, dataLen)) && Tables(cfg, overlap, pc)
    requires TrainInRange(cfg, dataLen, spt)
    ensures IsGrid(r, cfg.nUnit, ObjLen(cfg, dataLen))
    ensures forall k, t ::
      0 <= k < cfg.nUnit && 0 <= t < ObjLen(cfg, dataLen) && (k, t) in RefractoryCells(cfg, dataLen, spt)
      ==> r[k][t] == NegInf
    ensures forall k, t ::
      && 0 <= k < cfg.nUnit && 0 <= t < ObjLen(cfg, dataLen)
      && (k, t) !in RefractoryCells(cfg, dataLen, spt) && !Touched(cfg, dataLen, overlap, spt, k, t)
      ==> r[k][t] == obj[k][t]
  {
    var subtracted := SubtractUnits(obj, cfg, dataLen, overlap, pc, spt, Unique(Ids(spt)));
    EnforceRefractory(subtracted, cfg, dataLen, spt)
  }
}
