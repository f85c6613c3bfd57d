/** `compute_residual` and `get_unit_spikes`: the finished train's templates
    taken out of the recording, unit by unit, with numpy's fancy `-=`
    (rows read first, last write to a row winning), and a unit's clean
    spikes recovered by adding its template back. */
module Residual {
  import opened ArrayOps
  import opened SpikeTrain

  /** Rows of equal length: `data` is `(data_len, n_chan)`, a template is
      `(n_time, n_chan)`. */
  type Matrix = seq<seq<real>>

  predicate IsMatrix(m: Matrix, rows: nat, cols: nat) {
    |m| == rows && forall t :: 0 <= t < rows ==> |m[t]| == cols
  }

  function Zeros(rows: nat, cols: nat): (z: Matrix)
    ensures IsMatrix(z, rows, cols)
    ensures forall t, c :: 0 <= t < rows && 0 <= c < cols ==> z[t][c] == 0.0
  {
    seq(rows, _ => ZeroRow(cols))
  }

  function ZeroRow(cols: nat): (r: seq<real>)
    ensures |r| == cols && forall c :: 0 <= c < cols ==> r[c] == 0.0
  {
    seq(cols, _ => 0.0)
  }

  function RowMinus(a: seq<real>, b: seq<real>): (r: seq<real>)
    requires |a| == |b|
    ensures |r| == |a|
  {
    seq(|a|, c requires 0 <= c < |a| => a[c] - b[c])
  }

  function RowPlus(a: seq<real>, b: seq<real>): (r: seq<real>)
    requires |a| == |b|
    ensures |r| == |a|
  {
    seq(|a|, c requires 0 <= c < |a| => a[c] + b[c])
  }

  /** `temps` as `(n_time, n_chan, n_unit)`, stored unit major. */
  predicate Bank(temps: seq<Matrix>, nTime: nat, nChan: nat) {
    forall i :: 0 <= i < |temps| ==> IsMatrix(temps[i], nTime, nChan)
  }

  /** Every row of a unit the loop visits reaches only rows numpy accepts:
      `time >= -data_len` and `time + n_time <= data_len`. */
  predicate Fits(spt: seq<Spike>, nUnit: nat, nTime: nat, n: nat) {
    forall j :: 0 <= j < |spt| && 0 <= spt[j].id < nUnit ==>
      -(n as int) <= spt[j].time && spt[j].time + nTime <= n
  }

  /** Every window of `sp` lies inside a recording of `n` rows, counting
      numpy's negative indices from the end. */
  predicate SpikesFit(sp: seq<Spike>, nTime: nat, n: nat) {
    forall j :: 0 <= j < |sp| ==> -(n as int) <= sp[j].time && sp[j].time + nTime <= n
  }

  /** Fitting windows give fancy indices numpy accepts. */
  lemma WindowsFit(sp: seq<Spike>, nTime: nat, n: nat)
    requires SpikesFit(sp, nTime, n)
    ensures InBounds(Windows(sp, nTime), n)
  {
    var rows := Windows(sp, nTime);
    forall p | 0 <= p < |rows| ensures -(n as int) <= rows[p] < n {
      var j, q := WindowAt(sp, nTime, p);
    }
  }

  /** The rows of one unit fit. */
  lemma UnitFits(spt: seq<Spike>, nUnit: nat, nTime: nat, n: nat, u: nat)
    requires Fits(spt, nUnit, nTime, n) && u < nUnit
    ensures SpikesFit(OfUnit(spt, u), nTime, n)
  {
    var sp := OfUnit(spt, u);
    forall j | 0 <= j < |sp| ensures -(n as int) <= sp[j].time && sp[j].time + nTime <= n {
      var i := OfUnitAt(spt, u, j);
    }
  }

  /** `data[np.arange(0, n_time) + unit_sp[:, :1], :] -= temp`: every
      addressed row is read, lowered by the template row at its offset and
      written back, the last write to a row winning. */
  function SubtractTemplate(data: Matrix, temp: Matrix, sp: seq<Spike>, nTime: nat, nChan: nat): (r: Matrix)
    requires IsMatrix(data, |data|, nChan) && IsMatrix(temp, nTime, nChan)
    requires SpikesFit(sp, nTime, |data|)
    ensures IsMatrix(r, |data|, nChan)
  {
    WindowsFit(sp, nTime, |data|);
    var rows := Windows(sp, nTime);
    var before := Take(data, rows);
    var tiled := Tile(temp, |sp|);
    var vals := seq(|rows|, p requires 0 <= p < |rows| => TileAt(temp, |sp|, p); RowMinus(before[p], tiled[p]));
    var r := Put(data, rows, vals);
    assert forall t :: 0 <= t < |data| ==> |r[t]| == nChan by {
      forall t | 0 <= t < |data| ensures |r[t]| == nChan {
        if Hit(rows, |data|, t) {
          var p := LastWriteExists(rows, |data|, t);
        }
      }
    }
    r
  }

  /** The row a template subtraction leaves at a row it addresses: the
      row's value before the pass, lowered by the template row at the
      offset of the last position addressing it. */
  lemma SubtractTemplateAt(data: Matrix, temp: Matrix, sp: seq<Spike>, nTime: nat, nChan: nat, p: nat)
    requires IsMatrix(data, |data|, nChan) && IsMatrix(temp, nTime, nChan)
    requires SpikesFit(sp, nTime, |data|) && p < |sp| * nTime
    requires (WindowsFit(sp, nTime, |data|); LastWrite(Windows(sp, nTime), |data|, p))
    ensures (WindowsFit(sp, nTime, |data|); var t := Wrap(Windows(sp, nTime)[p], |data|);
      SubtractTemplate(data, temp, sp, nTime, nChan)[t] == RowMinus(data[t], temp[p % nTime]))
  {
    WindowsFit(sp, nTime, |data|);
    TileAt(temp, |sp|, p);
  }

  /** A template subtraction leaves the rows no window addresses as they
      were. */
  lemma SubtractTemplateFrame(data: Matrix, temp: Matrix, sp: seq<Spike>, nTime: nat, nChan: nat, t: nat)
    requires IsMatrix(data, |data|, nChan) && IsMatrix(temp, nTime, nChan)
    requires SpikesFit(sp, nTime, |data|) && t < |data|
    requires (WindowsFit(sp, nTime, |data|); !Hit(Windows(sp, nTime), |data|, t))
    ensures SubtractTemplate(data, temp, sp, nTime, nChan)[t] == data[t]
  {
    WindowsFit(sp, nTime, |data|);
  }

  /** A template subtraction adds the same amount to every row whatever
      the row held: the amount it adds to a row of zeros. */
  lemma SubtractTemplateShift(data: Matrix, temp: Matrix, sp: seq<Spike>, nTime: nat, nChan: nat, t: nat, c: nat)
    requires IsMatrix(data, |data|, nChan) && IsMatrix(temp, nTime, nChan)
    requires SpikesFit(sp, nTime, |data|) && t < |data| && c < nChan
    ensures SubtractTemplate(data, temp, sp, nTime, nChan)[t][c]
      == data[t][c] + SubtractTemplate(Zeros(|data|, nChan), temp, sp, nTime, nChan)[t][c]
  {
    WindowsFit(sp, nTime, |data|);
    var rows := Windows(sp, nTime);
    if Hit(rows, |data|, t) {
      var p := LastWriteExists(rows, |data|, t);
      SubtractTemplateAt(data, temp, sp, nTime, nChan, p);
      SubtractTemplateAt(Zeros(|data|, nChan), temp, sp, nTime, nChan, p);
    } else {
      SubtractTemplateFrame(data, temp, sp, nTime, nChan, t);
      SubtractTemplateFrame(Zeros(|data|, nChan), temp, sp, nTime, nChan, t);
    }
  }

  /** `compute_residual` over units `0 .. n - 1`, in that order. */
  function Derasterize(data: Matrix, temps: seq<Matrix>, spt: seq<Spike>, nTime: nat, nChan: nat, n: nat): (r: Matrix)
    requires IsMatrix(data, |data|, nChan) && Bank(temps, nTime, nChan) && n <= |temps|
    requires Fits(spt, |temps|, nTime, |data|)
    ensures IsMatrix(r, |data|, nChan)
  {
    if n == 0 then data
    else
      var prev := Derasterize(data, temps, spt, nTime, nChan, n - 1);
      UnitFits(spt, |temps|, nTime, |data|, n - 1);
      SubtractTemplate(prev, temps[n - 1], OfUnit(spt, n - 1), nTime, nChan)
  }

  /** `compute_residual`: every unit of the bank, in id order. */
  function ComputeResidual(data: Matrix, temps: seq<Matrix>, spt: seq<Spike>, nTime: nat, nChan: nat): (r: Matrix)
    requires IsMatrix(data, |data|, nChan) && Bank(temps, nTime, nChan) && Fits(spt, |temps|, nTime, |data|)
    ensures IsMatrix(r, |data|, nChan)
  {
    Derasterize(data, temps, spt, nTime, nChan, |temps|)
  }

  /** What the residual subtracts does not depend on the data: the residual
      is the data plus the residual of a zero recording. */
  lemma {:induction false} DerasterizeShift(data: Matrix, temps: seq<Matrix>, spt: seq<Spike>, nTime: nat, nChan: nat,
                                             n: nat, t: nat, c: nat)
    requires IsMatrix(data, |data|, nChan) && Bank(temps, nTime, nChan) && n <= |temps|
    requires Fits(spt, |temps|, nTime, |data|) && t < |data| && c < nChan
    ensures Derasterize(data, temps, spt, nTime, nChan, n)[t][c]
      == data[t][c] + Derasterize(Zeros(|data|, nChan), temps, spt, nTime, nChan, n)[t][c]
  {
    if n > 0 {
      var z := Zeros(|data|, nChan);
      var prev := Derasterize(data, temps, spt, nTime, nChan, n - 1);
      var prevZ := Derasterize(z, temps, spt, nTime, nChan, n - 1);
      UnitFits(spt, |temps|, nTime, |data|, n - 1);
      var sp := OfUnit(spt, n - 1);
      var zu := SubtractTemplate(z, temps[n - 1], sp, nTime, nChan)[t][c];
      assert Derasterize(data, temps, spt, nTime, nChan, n) == SubtractTemplate(prev, temps[n - 1], sp, nTime, nChan);
      assert Derasterize(z, temps, spt, nTime, nChan, n) == SubtractTemplate(prevZ, temps[n - 1], sp, nTime, nChan);
      DerasterizeShift(data, temps, spt, nTime, nChan, n - 1, t, c);
      SubtractTemplateShift(prev, temps[n - 1], sp, nTime, nChan, t, c);
      SubtractTemplateShift(prevZ, temps[n - 1], sp, nTime, nChan, t, c);
    }
  }

  /** The data row sample `q` of a window starting at `time` lands on. */
  function Lands(time: int, q: nat, len: nat): (t: nat)
    requires -(len as int) <= time + q < len
    ensures t < len
  {
    Wrap(time + q, len)
  }

  /** Row `t` lies in the window of some row of a unit below `n`. */
  ghost predicate Reached(spt: seq<Spike>, nUnit: nat, nTime: nat, len: nat, n: nat, t: nat)
    requires Fits(spt, nUnit, nTime, len) && n <= nUnit
  {
    exists j, q :: 0 <= j < |spt| && 0 <= spt[j].id < n && 0 <= q < nTime && Lands(spt[j].time, q, len) == t
  }

  lemma ReachedBy(spt: seq<Spike>, nUnit: nat, nTime: nat, len: nat, n: nat, t: nat, j: nat, q: nat)
    requires Fits(spt, nUnit, nTime, len) && n <= nUnit
    requires j < |spt| && 0 <= spt[j].id < n && q < nTime && Lands(spt[j].time, q, len) == t
    ensures Reached(spt, nUnit, nTime, len, n, t)
  {
  }

  lemma ReachedMono(spt: seq<Spike>, nUnit: nat, nTime: nat, len: nat, n: nat, m: nat, t: nat)
    requires Fits(spt, nUnit, nTime, len) && n <= m <= nUnit && Reached(spt, nUnit, nTime, len, n, t)
    ensures Reached(spt, nUnit, nTime, len, m, t)
  {
    var j, q :| 0 <= j < |spt| && 0 <= spt[j].id < n && 0 <= q < nTime && Lands(spt[j].time, q, len) == t;
    ReachedBy(spt, nUnit, nTime, len, m, t, j, q);
  }

  lemma NotReachedBelow(spt: seq<Spike>, nUnit: nat, nTime: nat, len: nat, n: nat, m: nat, t: nat)
    requires Fits(spt, nUnit, nTime, len) && n <= m <= nUnit && !Reached(spt, nUnit, nTime, len, m, t)
    ensures !Reached(spt, nUnit, nTime, len, n, t)
  {
    if Reached(spt, nUnit, nTime, len, n, t) {
      ReachedMono(spt, nUnit, nTime, len, n, m, t);
      assert false;
    }
  }

  /** A template pass changes only rows its unit's windows reach. */
  lemma UnitPassFrame(data: Matrix, temps: seq<Matrix>, spt: seq<Spike>, nTime: nat, nChan: nat, u: nat, t: nat)
    requires IsMatrix(data, |data|, nChan) && Bank(temps, nTime, nChan) && u < |temps|
    requires Fits(spt, |temps|, nTime, |data|) && t < |data| && !Reached(spt, |temps|, nTime, |data|, u + 1, t)
    ensures (UnitFits(spt, |temps|, nTime, |data|, u);
      SubtractTemplate(data, temps[u], OfUnit(spt, u), nTime, nChan)[t] == data[t])
  {
    var sp := OfUnit(spt, u);
    UnitFits(spt, |temps|, nTime, |data|, u);
    WindowsFit(sp, nTime, |data|);
    var rows := Windows(sp, nTime);
    if Hit(rows, |data|, t) {
      var p :| 0 <= p < |rows| && Wrap(rows[p], |data|) == t;
      var j, q := WindowAt(sp, nTime, p);
      var j' := OfUnitAt(spt, u, j);
      ReachedBy(spt, |temps|, nTime, |data|, u + 1, t, j', q);
      assert false;
    } else {
      SubtractTemplateFrame(data, temps[u], sp, nTime, nChan, t);
    }
  }

  /** Unfolding step of `Derasterize`: one more unit of the residual loop is
      its template pass over the residual of the units before it. */
  lemma DerasterizeStep(data: Matrix, temps: seq<Matrix>, spt: seq<Spike>, nTime: nat, nChan: nat, n: nat)
    requires IsMatrix(data, |data|, nChan) && Bank(temps, nTime, nChan) && 0 < n <= |temps|
    requires Fits(spt, |temps|, nTime, |data|)
    ensures (UnitFits(spt, |temps|, nTime, |data|, n - 1);
      Derasterize(data, temps, spt, nTime, nChan, n)
      == SubtractTemplate(Derasterize(data, temps, spt, nTime, nChan, n - 1), temps[n - 1], OfUnit(spt, n - 1), nTime, nChan))
  {
    UnitFits(spt, |temps|, nTime, |data|, n - 1);
  }

  /** The residual differs from the data only at rows some window reaches. */
  lemma {:induction false} DerasterizeFrame(data: Matrix, temps: seq<Matrix>, spt: seq<Spike>, nTime: nat, nChan: nat,
                                             n: nat, t: nat)
    requires IsMatrix(data, |data|, nChan) && Bank(temps, nTime, nChan) && n <= |temps|
    requires Fits(spt, |temps|, nTime, |data|) && t < |data| && !Reached(spt, |temps|, nTime, |data|, n, t)
    ensures Derasterize(data, temps, spt, nTime, nChan, n)[t] == data[t]
  {
    if n > 0 {
      var prev := Derasterize(data, temps, spt, nTime, nChan, n - 1);
      assert prev[t] == data[t] by {
        NotReachedBelow(spt, |temps|, nTime, |data|, n - 1, n, t);
        DerasterizeFrame(data, temps, spt, nTime, nChan, n - 1, t);
      }
      assert |prev| == |data|;
      UnitPassFrame(prev, temps, spt, nTime, nChan, n - 1, t);
      DerasterizeStep(data, temps, spt, nTime, nChan, n);
    }
  }

  /** Sample `q` of spike `y` lands on a row no other window of the bank's
      units reaches: every (row, offset) landing there is `y` at `q`. */
  ghost predicate Isolated(spt: seq<Spike>, nUnit: nat, nTime: nat, len: nat, y: Spike, q: nat)
    requires Fits(spt, nUnit, nTime, len) && y in spt && 0 <= y.id < nUnit && q < nTime
  {
    forall j, q' :: 0 <= j < |spt| && 0 <= spt[j].id < nUnit && 0 <= q' < nTime ==>
      (Lands(spt[j].time, q', len) == Lands(y.time, q, len) ==> spt[j] == y && q' == q)
  }

  /** A window position of a unit's rows that lands on the row of an
      isolated sample is that sample. */
  lemma IsolatedHit(spt: seq<Spike>, nUnit: nat, nTime: nat, len: nat, y: Spike, q: nat, u: nat, p: nat)
    requires Fits(spt, nUnit, nTime, len) && y in spt && 0 <= y.id < nUnit && q < nTime && u < nUnit
    requires Isolated(spt, nUnit, nTime, len, y, q)
    requires SpikesFit(OfUnit(spt, u), nTime, len) && p < |OfUnit(spt, u)| * nTime
    requires (WindowsFit(OfUnit(spt, u), nTime, len);
      Wrap(Windows(OfUnit(spt, u), nTime)[p], len) == Lands(y.time, q, len))
    ensures u == y.id && p % nTime == q
  {
    var sp := OfUnit(spt, u);
    WindowsFit(sp, nTime, len);
    var j, q' := WindowAt(sp, nTime, p);
    var j' := OfUnitAt(spt, u, j);
    assert Lands(spt[j'].time, q', len) == Lands(y.time, q, len);
    assert spt[j'] == y && q' == q;
  }

  /** The isolated sample's row is hit by its own unit's windows. */
  lemma IsolatedIsHit(spt: seq<Spike>, nUnit: nat, nTime: nat, len: nat, y: Spike, q: nat)
    requires Fits(spt, nUnit, nTime, len) && y in spt && 0 <= y.id < nUnit && q < nTime
    ensures SpikesFit(OfUnit(spt, y.id), nTime, len)
    ensures (WindowsFit(OfUnit(spt, y.id), nTime, len);
      Hit(Windows(OfUnit(spt, y.id), nTime), len, Lands(y.time, q, len)))
  {
    UnitFits(spt, nUnit, nTime, len, y.id);
    var sp := OfUnit(spt, y.id);
    WindowsFit(sp, nTime, len);
    assert y in sp;
    var i :| 0 <= i < |sp| && sp[i] == y;
    var p := WindowOf(sp, nTime, i, q);
    assert Wrap(Windows(sp, nTime)[p], len) == Lands(y.time, q, len);
  }

  /** One unit's pass at the row of an isolated sample: the template row
      at the sample's offset comes off when the unit is the sample's, and
      nothing changes otherwise. */
  lemma IsolatedPass(data: Matrix, temps: seq<Matrix>, spt: seq<Spike>, nTime: nat, nChan: nat,
                     u: nat, y: Spike, q: nat)
    requires IsMatrix(data, |data|, nChan) && Bank(temps, nTime, nChan) && u < |temps|
    requires Fits(spt, |temps|, nTime, |data|) && y in spt && 0 <= y.id < |temps| && q < nTime
    requires Isolated(spt, |temps|, nTime, |data|, y, q)
    ensures (UnitFits(spt, |temps|, nTime, |data|, u); var t := Lands(y.time, q, |data|);
      SubtractTemplate(data, temps[u], OfUnit(spt, u), nTime, nChan)[t]
        == if u == y.id then RowMinus(data[t], temps[u][q]) else data[t])
  {
    var t := Lands(y.time, q, |data|);
    UnitFits(spt, |temps|, nTime, |data|, u);
    var sp := OfUnit(spt, u);
    WindowsFit(sp, nTime, |data|);
    var rows := Windows(sp, nTime);
    if Hit(rows, |data|, t) {
      var p := LastWriteExists(rows, |data|, t);
      IsolatedHit(spt, |temps|, nTime, |data|, y, q, u, p);
      SubtractTemplateAt(data, temps[u], sp, nTime, nChan, p);
    } else {
      if u == y.id {
        IsolatedIsHit(spt, |temps|, nTime, |data|, y, q);
        assert false;
      }
      SubtractTemplateFrame(data, temps[u], sp, nTime, nChan, t);
    }
  }

  /** The residual loop's step at the row of an isolated sample. */
  lemma DerasterizeIsolatedStep(data: Matrix, temps: seq<Matrix>, spt: seq<Spike>, nTime: nat, nChan: nat,
                                n: nat, y: Spike, q: nat)
    requires IsMatrix(data, |data|, nChan) && Bank(temps, nTime, nChan) && 0 < n <= |temps|
    requires Fits(spt, |temps|, nTime, |data|) && y in spt && 0 <= y.id < |temps| && q < nTime
    requires Isolated(spt, |temps|, nTime, |data|, y, q)
    ensures var t := Lands(y.time, q, |data|); var prev := Derasterize(data, temps, spt, nTime, nChan, n - 1);
      Derasterize(data, temps, spt, nTime, nChan, n)[t]
        == if n - 1 == y.id then RowMinus(prev[t], temps[y.id][q]) else prev[t]
  {
    var prev := Derasterize(data, temps, spt, nTime, nChan, n - 1);
    DerasterizeStep(data, temps, spt, nTime, nChan, n);
    assert |prev| == |data|;
    IsolatedPass(prev, temps, spt, nTime, nChan, n - 1, y, q);
  }

  /** Chaining one pass onto the passes before it at an isolated row. */
  lemma IsolatedChain(now: seq<real>, prev: seq<real>, d: seq<real>, b: seq<real>, id: int, n: nat)
    requires n > 0 && |d| == |b|
    requires prev == if id < n - 1 then RowMinus(d, b) else d
    requires now == if n - 1 == id then RowMinus(prev, b) else prev
    ensures now == if id < n then RowMinus(d, b) else d
  {
  }

  /** The residual at the row of an isolated sample: the data lowered by
      the template row at the sample's offset once the sample's unit has
      been subtracted, the data before. */
  lemma {:induction false} DerasterizeIsolated(data: Matrix, temps: seq<Matrix>, spt: seq<Spike>, nTime: nat, nChan: nat,
                                                n: nat, y: Spike, q: nat)
    requires IsMatrix(data, |data|, nChan) && Bank(temps, nTime, nChan) && n <= |temps|
    requires Fits(spt, |temps|, nTime, |data|) && y in spt && 0 <= y.id < |temps| && q < nTime
    requires Isolated(spt, |temps|, nTime, |data|, y, q)
    ensures var t := Lands(y.time, q, |data|);
      Derasterize(data, temps, spt, nTime, nChan, n)[t]
        == if y.id < n then RowMinus(data[t], temps[y.id][q]) else data[t]
  {
    if n > 0 {
      var t := Lands(y.time, q, |data|);
      DerasterizeIsolated(data, temps, spt, nTime, nChan, n - 1, y, q);
      DerasterizeIsolatedStep(data, temps, spt, nTime, nChan, n, y, q);
      IsolatedChain(Derasterize(data, temps, spt, nTime, nChan, n)[t], Derasterize(data, temps, spt, nTime, nChan, n - 1)[t],
                    data[t], temps[y.id][q], y.id, n);
    }
  }

  /** `get_unit_spikes`: for every row of `unit_sp`, the `n_time` data rows
      of its window with the unit's template added back. */
  function GetUnitSpikes(data: Matrix, temps: seq<Matrix>, unit: int, sp: seq<Spike>, nTime: nat, nChan: nat)
    : (clips: seq<Matrix>)
    requires IsMatrix(data, |data|, nChan) && Bank(temps, nTime, nChan) && -|temps| <= unit < |temps|
    requires SpikesFit(sp, nTime, |data|)
    ensures |clips| == |sp|
    ensures forall j :: 0 <= j < |sp| ==> IsMatrix(clips[j], nTime, nChan)
  {
    var temp := temps[Wrap(unit, |temps|)];
    seq(|sp|, j requires 0 <= j < |sp| =>
      seq(nTime, q requires 0 <= q < nTime => RowPlus(data[Wrap(sp[j].time + q, |data|)], temp[q])))
  }

  /** Adding a template row back undoes subtracting it. */
  lemma PlusUndoesMinus(a: seq<real>, b: seq<real>)
    requires |a| == |b|
    ensures RowPlus(RowMinus(a, b), b) == a
  {
  }

  /** A clip cut from the residual gives back the recording on every
      isolated sample: `get_unit_spikes` adds back exactly the template the
      residual took away there. */
  lemma UnitSpikeRecoversData(data: Matrix, temps: seq<Matrix>, spt: seq<Spike>, nTime: nat, nChan: nat, y: Spike, q: nat)
    requires IsMatrix(data, |data|, nChan) && Bank(temps, nTime, nChan) && Fits(spt, |temps|, nTime, |data|)
    requires y in spt && 0 <= y.id < |temps| && q < nTime
    requires Isolated(spt, |temps|, nTime, |data|, y, q)
    ensures SpikesFit([y], nTime, |data|)
    ensures GetUnitSpikes(ComputeResidual(data, temps, spt, nTime, nChan), temps, y.id, [y], nTime, nChan)[0][q]
      == data[Lands(y.time, q, |data|)]
  {
    var res := ComputeResidual(data, temps, spt, nTime, nChan);
    var t := Lands(y.time, q, |data|);
    DerasterizeIsolated(data, temps, spt, nTime, nChan, |temps|, y, q);
    assert res[t] == RowMinus(data[t], temps[y.id][q]);
    PlusUndoesMinus(data[t], temps[y.id][q]);
  }
}
