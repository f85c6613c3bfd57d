/** The objective of one data segment: an `orig_n_unit x (data_len + n_time - 1)`
    grid whose cell `(k, t)` scores how much subtracting base unit `k` at
    convolution position `t` would lower the residual energy. */
module Objective {
  import opened ExtReal
  import opened TemplateBank

  type Grid = seq<seq<Ext>>

  predicate IsGrid(g: Grid, rows: nat, cols: nat) {
    |g| == rows && forall k :: 0 <= k < rows ==> |g[k]| == cols
  }

  predicate IsRealGrid(g: seq<seq<real>>, rows: nat, cols: nat) {
    |g| == rows && forall k :: 0 <= k < rows ==> |g[k]| == cols
  }

  /** The objective together with the `obj_computed` flag. */
  datatype State = State(computed: bool, obj: Grid)

  /** Sum of the convolution rows of the first `i` rank components of base
      unit `k`, at column `t`. Row `k*R + i` holds component `i` of unit `k`. */
  function RankSum(conv: seq<seq<real>>, K: nat, R: nat, L: nat, k: nat, i: nat, t: nat): real
    requires IsRealGrid(conv, K * R, L) && k < K && i <= R && t < L
  {
    if i == 0 then 0.0
    else
      SplitId(K, R, k, i - 1);
      RankSum(conv, K, R, L, k, i - 1, t) + conv[k * R + i - 1][t]
  }

  /** `compute_objective`. `conv` holds the `orig_n_unit * approx_rank`
      convolved rows. The rows of one unit's rank components are added into
      its first row, and the objective is twice that sum minus the unit's
      norm. A state whose flag is already set is returned as it is. */
  method ComputeObjective(st: State, conv: seq<seq<real>>, norm: seq<real>, K: nat, R: nat, L: nat)
    returns (r: State)
    requires R >= 1 && IsRealGrid(conv, K * R, L) && |norm| == K
    ensures st.computed ==> r == st
    ensures !st.computed ==> r.computed && IsGrid(r.obj, K, L)
    ensures !st.computed ==> forall k, t :: 0 <= k < K && 0 <= t < L ==>
      r.obj[k][t] == Fin(2.0 * RankSum(conv, K, R, L, k, R, t) - norm[k])
  {
    if st.computed {
      return st;
    }
    var acc := seq(K, k requires 0 <= k < K => SplitId(K, R, k, 0); conv[k * R]);
    var i := 1;
    while i < R
      invariant 1 <= i <= R
      invariant IsRealGrid(acc, K, L)
      invariant forall k, t :: 0 <= k < K && 0 <= t < L ==> acc[k][t] == RankSum(conv, K, R, L, k, i, t)
    {
      acc := seq(K, k requires 0 <= k < K =>
        SplitId(K, R, k, i);
        seq(L, t requires 0 <= t < L => acc[k][t] + conv[k * R + i][t]));
      i := i + 1;
    }
    var obj := seq(K, k requires 0 <= k < K =>
      seq(L, t requires 0 <= t < L => Fin(2.0 * acc[k][t] - norm[k])));
    r := State(true, obj);
  }

  /** With a single rank component the objective is `2 * conv - norm`. */
  lemma RankOneObjective(conv: seq<seq<real>>, K: nat, L: nat, k: nat, t: nat)
    requires IsRealGrid(conv, K, L) && k < K && t < L
    ensures RankSum(conv, K, 1, L, k, 1, t) == conv[k][t]
  {
  }

  // ---------------------------------------------------------------- column maxima

  /** The largest of the first `n` rows at column `t`. */
  function MaxRows(obj: Grid, K: nat, L: nat, n: nat, t: nat): (m: Ext)
    requires IsGrid(obj, K, L) && 1 <= n <= K && t < L
    ensures forall k :: 0 <= k < n ==> Le(obj[k][t], m)
    ensures exists k :: 0 <= k < n && obj[k][t] == m
  {
    if n == 1 then obj[0][t] else Max(MaxRows(obj, K, L, n - 1, t), obj[n - 1][t])
  }

  /** Some unit holds `v` at column `t`. */
  predicate Attained(obj: Grid, K: nat, L: nat, t: nat, v: Ext)
    requires IsGrid(obj, K, L) && t < L
  {
    exists k :: 0 <= k < K && obj[k][t] == v
  }

  /** `np.max(obj, axis=0)`. */
  function ColumnMax(obj: Grid, K: nat, L: nat): (m: seq<Ext>)
    requires IsGrid(obj, K, L) && K >= 1
    ensures |m| == L
    ensures forall k, t :: 0 <= k < K && 0 <= t < L ==> Le(obj[k][t], m[t])
    ensures forall t :: 0 <= t < L ==> Attained(obj, K, L, t, m[t])
  {
    var col := seq(L, t requires 0 <= t < L => MaxRows(obj, K, L, K, t));
    assert forall t :: 0 <= t < L ==> Attained(obj, K, L, t, col[t]) by {
      forall t | 0 <= t < L ensures Attained(obj, K, L, t, col[t]) {
        var k :| 0 <= k < K && obj[k][t] == MaxRows(obj, K, L, K, t);
        assert obj[k][t] == col[t];
      }
    }
    col
  }

  /** The first of the first `n` rows holding the largest value at column `t`. */
  function ArgmaxRows(obj: Grid, K: nat, L: nat, n: nat, t: nat): (u: nat)
    requires IsGrid(obj, K, L) && 1 <= n <= K && t < L
    ensures u < n
    ensures forall k :: 0 <= k < n ==> Le(obj[k][t], obj[u][t])
    ensures forall k :: 0 <= k < u ==> Lt(obj[k][t], obj[u][t])
  {
    if n == 1 then 0
    else
      var b := ArgmaxRows(obj, K, L, n - 1, t);
      if Lt(obj[b][t], obj[n - 1][t]) then n - 1 else b
  }

  /** `np.argmax(obj[:, t])`: the first unit attaining the column maximum. */
  function ArgmaxAt(obj: Grid, K: nat, L: nat, t: nat): (u: nat)
    requires IsGrid(obj, K, L) && K >= 1 && t < L
    ensures u < K
    ensures obj[u][t] == ColumnMax(obj, K, L)[t]
    ensures forall k :: 0 <= k < u ==> Lt(obj[k][t], obj[u][t])
  {
    var u := ArgmaxRows(obj, K, L, K, t);
    var m := ColumnMax(obj, K, L)[t];
    assert Le(m, obj[u][t]) && Le(obj[u][t], m);
    u
  }

  // ---------------------------------------------------------------- switching cells off

  /** `obj[rows, cols] = -np.inf` over the listed cells. All writes carry the
      same value, so their order does not matter. */
  function SwitchOff(obj: Grid, K: nat, L: nat, cells: seq<(nat, nat)>): (r: Grid)
    requires IsGrid(obj, K, L)
    ensures IsGrid(r, K, L)
    ensures forall k :: 0 <= k < K ==> r[k] == SwitchOffRow(obj[k], k, cells)
  {
    seq(K, k requires 0 <= k < K => SwitchOffRow(obj[k], k, cells))
  }

  /** Every listed cell of the grid reads minus infinity afterwards, and every
      other cell keeps its value. */
  lemma SwitchOffAt(obj: Grid, K: nat, L: nat, cells: seq<(nat, nat)>, k: nat, t: nat)
    requires IsGrid(obj, K, L) && k < K && t < L
    ensures SwitchOff(obj, K, L, cells)[k][t] == (if (k, t) in cells then NegInf else obj[k][t])
  {
    assert SwitchOff(obj, K, L, cells)[k] == SwitchOffRow(obj[k], k, cells);
  }

  /** Row `k` of `SwitchOff`. */
  function SwitchOffRow(row: seq<Ext>, k: nat, cells: seq<(nat, nat)>): (r: seq<Ext>)
    ensures |r| == |row|
    ensures forall t :: 0 <= t < |row| ==> r[t] == (if (k, t) in cells then NegInf else row[t])
  {
    seq(|row|, t requires 0 <= t < |row| => if (k, t) in cells then NegInf else row[t])
  }
}
