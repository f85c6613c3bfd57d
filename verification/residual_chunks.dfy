/** `compute_residual_parallel` and `subtract_parallel`: the recording cut
    into chunks of `len_chunks` rows with a buffer of `buffer_size` rows on
    each side, every chunk derasterized on its own, and the chunks' middles
    added back into a zeroed recording. */
module Chunks {
  import opened ArrayOps
  import opened Outcome
  import opened SpikeTrain
  import opened Residual

  /** `buffer_size`. */
  const BufferSize: nat := 200
  /** `len_chunks`: ten seconds at 20 kHz. */
  const ChunkLen: nat := 20000 * 10

  /** One entry of `indexes`: the rows `[start, end)` a chunk slices. */
  datatype Chunk = Chunk(start: int, end: int)

  /** `indexes`: the first chunk `[0, len + 2 * buffer)`, then one chunk
      `[k - 2 * buffer, k + len)` per `k` in `arange(len + 2 * buffer, n, len)`.
      Chunk `j` starts at `j * len`, so consecutive chunks overlap by
      exactly two buffers. */
  function ChunkIndexes(n: nat, b: nat, l: nat): (cs: seq<Chunk>)
    requires l > 0
    ensures |cs| == 1 + ArangeLen(l + 2 * b, n, l)
    ensures forall j :: 0 <= j < |cs| ==> cs[j].start == j * l && cs[j].end == j * l + l + 2 * b
    ensures forall j :: 0 < j < |cs| ==> cs[j].start + 2 * b < n
  {
    var ks := Arange(l + 2 * b, n, l);
    var cs := [Chunk(0, l + 2 * b)] + seq(|ks|, i requires 0 <= i < |ks| => Chunk(ks[i] - 2 * b, ks[i] + l));
    assert forall j :: 1 <= j < |cs| ==> cs[j].start == j * l && cs[j].start + 2 * b < n by {
      forall j | 1 <= j < |cs| ensures cs[j].start == j * l && cs[j].start + 2 * b < n {
        MulSucc(j - 1, l);
        ArangeBelow(l + 2 * b, n, l, j - 1);
      }
    }
    cs
  }

  /** Every element of `arange(a, n, l)` is below `n`. */
  lemma ArangeBelow(a: int, n: int, l: nat, i: nat)
    requires l > 0 && i < ArangeLen(a, n, l)
    ensures a + i * l < n
  {
    var d := n - a;
    var q, r := DivModNat(d + l - 1, l);
    MulMono(i + 1, q, l);
    MulSucc(i, l);
  }

  /** The chunks reach the end of the recording: the last one ends at or
      past row `n`, and a recording of exactly `m` chunk lengths plus two
      buffers is cut into `m` chunks, the last ending at its last row. */
  lemma ChunksCover(n: nat, b: nat, l: nat)
    requires l > 0
    ensures var cs := ChunkIndexes(n, b, l); cs[|cs| - 1].end >= n
  {
    var cs := ChunkIndexes(n, b, l);
    var m := ArangeLen(l + 2 * b, n, l);
    if l + 2 * b < n {
      var d := n - l - 2 * b;
      var q, r := DivModNat(d + l - 1, l);
      assert m == q;
      MulSucc(m, l);
    }
  }

  lemma ExactChunks(m: nat, b: nat, l: nat)
    requires l > 0 && m > 0
    ensures var cs := ChunkIndexes(m * l + 2 * b, b, l); |cs| == m && cs[m - 1].end == m * l + 2 * b
  {
    var n := m * l + 2 * b;
    MulSucc(m - 1, l);
    if m > 1 {
      DivUnique(n - l - 2 * b + l - 1, l, m - 1, l - 1);
    }
  }

  /** Row `t` lies in the middle of chunk `j`, between its two buffers,
      exactly when `j` is `(t - buffer) / len`: the middles tile the rows
      from the first buffer on. */
  lemma Owner(t: int, b: nat, l: nat, j: int)
    requires l > 0 && j >= 0
    ensures (j * l + b <= t < j * l + l + b) <==> (t >= b && (t - b) / l == j)
  {
    if j * l + b <= t < j * l + l + b {
      DivUnique(t - b, l, j, t - b - j * l);
    }
    if t >= b && (t - b) / l == j {
      var q, r := DivModNat(t - b, l);
      MulSucc(j, l);
    }
  }

  /** The spikes of one chunk: those of the full train in the chunk's
      middle `[start + buffer, end - buffer)`, in their order, with times
      made relative to the chunk's first row. The first chunk starts at
      row 0 so its times are unchanged, as in the source. */
  function ChunkTrain(spt: seq<Spike>, c: Chunk, b: nat): (r: seq<Spike>)
  {
    ShiftTimes(InWindow(spt, c.start + b, c.end - b), -c.start)
  }

  /** A chunk holds exactly the moved copies of the spikes in its middle. */
  lemma ChunkTrainMembers(spt: seq<Spike>, c: Chunk, b: nat, x: Spike)
    ensures x in ChunkTrain(spt, c, b) <==>
      exists y :: y in spt && c.start + b <= y.time < c.end - b && x == Moved(y, -c.start)
  {
    if x in ChunkTrain(spt, c, b) {
      var y := ChunkTrainSource(spt, c, b, x);
    }
    if exists y :: y in spt && c.start + b <= y.time < c.end - b && x == Moved(y, -c.start) {
      var y :| y in spt && c.start + b <= y.time < c.end - b && x == Moved(y, -c.start);
      ChunkTrainHolds(spt, c, b, y);
    }
  }

  lemma ChunkTrainSource(spt: seq<Spike>, c: Chunk, b: nat, x: Spike) returns (y: Spike)
    requires x in ChunkTrain(spt, c, b)
    ensures y in spt && c.start + b <= y.time < c.end - b && x == Moved(y, -c.start)
  {
    y := MovedWindowSource(spt, c.start + b, c.end - b, -c.start, x);
  }

  lemma ChunkTrainHolds(spt: seq<Spike>, c: Chunk, b: nat, y: Spike)
    requires y in spt && c.start + b <= y.time < c.end - b
    ensures Moved(y, -c.start) in ChunkTrain(spt, c, b)
  {
    MovedWindowHolds(spt, c.start + b, c.end - b, -c.start, y);
  }

  /** Every spike between the first buffer and the last chunk's middle end
      goes to exactly one chunk, chunk `(time - buffer) / len`. */
  lemma OneChunkPerSpike(spt: seq<Spike>, n: nat, b: nat, l: nat, y: Spike, j: nat)
    requires l > 0 && y in spt
    requires j < |ChunkIndexes(n, b, l)|
    ensures var c := ChunkIndexes(n, b, l)[j];
      Moved(y, -c.start) in ChunkTrain(spt, c, b) <==> y.time >= b && (y.time - b) / l == j
  {
    var c := ChunkIndexes(n, b, l)[j];
    Owner(y.time, b, l, j);
    ChunkTrainMembers(spt, c, b, Moved(y, -c.start));
  }

  /** `data[:buffer]` and `data[-buffer:]` are both taken out of row `t`:
      the count of the two slices holding it. `data[-0:]` is the whole
      array. */
  function BackStart(n: nat, b: nat): nat
  {
    if b == 0 then 0 else if n >= b then n - b else 0
  }

  function BufferCount(n: nat, b: nat, t: nat): (k: nat)
    ensures k <= 2
  {
    (if t < b then 1 else 0) + (if t >= BackStart(n, b) then 1 else 0)
  }

  /** `subtract_parallel`: the chunk is derasterized together with a zero
      array of its shape, and the zero array's buffer rows are taken out of
      the chunk's buffer rows once more. */
  function SubtractParallel(data: Matrix, temps: seq<Matrix>, spt: seq<Spike>, nTime: nat, nChan: nat, b: nat): (r: Matrix)
    requires IsMatrix(data, |data|, nChan) && Bank(temps, nTime, nChan) && Fits(spt, |temps|, nTime, |data|)
    ensures IsMatrix(r, |data|, nChan)
  {
    var d := ComputeResidual(data, temps, spt, nTime, nChan);
    var blank := ComputeResidual(Zeros(|data|, nChan), temps, spt, nTime, nChan);
    var front := seq(|d|, t requires 0 <= t < |d| => if t < b then RowMinus(d[t], blank[t]) else d[t]);
    seq(|d|, t requires 0 <= t < |d| => if t >= BackStart(|d|, b) then RowMinus(front[t], blank[t]) else front[t])
  }

  /** What a chunk returns at a cell: the data plus what the templates
      subtract there, in full in the middle, not at all in a buffer row, and
      with the sign turned where the two buffers overlap. */
  lemma SubtractParallelAt(data: Matrix, temps: seq<Matrix>, spt: seq<Spike>, nTime: nat, nChan: nat, b: nat, t: nat, c: nat)
    requires IsMatrix(data, |data|, nChan) && Bank(temps, nTime, nChan) && Fits(spt, |temps|, nTime, |data|)
    requires t < |data| && c < nChan
    ensures var r := SubtractParallel(data, temps, spt, nTime, nChan, b)[t][c];
      var blank := ComputeResidual(Zeros(|data|, nChan), temps, spt, nTime, nChan)[t][c];
      && (BufferCount(|data|, b, t) == 0 ==> r == data[t][c] + blank)
      && (BufferCount(|data|, b, t) == 1 ==> r == data[t][c])
      && (BufferCount(|data|, b, t) == 2 ==> r == data[t][c] - blank)
  {
    var d := ComputeResidual(data, temps, spt, nTime, nChan);
    var blank := ComputeResidual(Zeros(|data|, nChan), temps, spt, nTime, nChan);
    DerasterizeShift(data, temps, spt, nTime, nChan, |temps|, t, c);
  }

  /** With a non-empty buffer and a chunk at least two buffers long, the
      buffer rows come back as they went in and the middle rows are the
      chunk's residual. */
  lemma SubtractParallelRows(data: Matrix, temps: seq<Matrix>, spt: seq<Spike>, nTime: nat, nChan: nat, b: nat, t: nat, c: nat)
    requires IsMatrix(data, |data|, nChan) && Bank(temps, nTime, nChan) && Fits(spt, |temps|, nTime, |data|)
    requires 0 < b && 2 * b <= |data| && t < |data| && c < nChan
    ensures (t < b || t >= |data| - b) ==> SubtractParallel(data, temps, spt, nTime, nChan, b)[t][c] == data[t][c]
    ensures b <= t < |data| - b ==>
      SubtractParallel(data, temps, spt, nTime, nChan, b)[t][c] == ComputeResidual(data, temps, spt, nTime, nChan)[t][c]
  {
    SubtractParallelAt(data, temps, spt, nTime, nChan, b, t, c);
    DerasterizeShift(data, temps, spt, nTime, nChan, |temps|, t, c);
  }

  /** numpy's clipping of a slice bound into `[0, n]`. */
  function Clip(i: int, n: nat): (r: nat)
    ensures r <= n
    ensures 0 <= i <= n ==> r == i
  {
    if i < 0 then 0 else if i > n then n else i
  }

  /** The stop `-b` of `x[b:-b]` on `n` rows; `-0` is `0`. */
  function NegStop(n: nat, b: nat): (r: nat)
    ensures r <= n
  {
    if b == 0 then 0 else Clip(n - b, n)
  }

  function SpanLen(lo: nat, hi: nat): nat {
    if hi > lo then hi - lo else 0
  }

  /** `data[start:end]` of one chunk. */
  function ChunkData(data: Matrix, c: Chunk): (piece: Matrix)
    requires 0 <= c.start <= |data|
    ensures |piece| == SpanLen(c.start, Clip(c.end, |data|))
    ensures forall i :: 0 <= i < |piece| ==> piece[i] == data[c.start + i]
  {
    var e := Clip(c.end, |data|);
    if e <= c.start then [] else data[c.start..e]
  }

  /** The chunks of `compute_residual_parallel` over `n` rows. */
  function Layout(n: nat): (cs: seq<Chunk>)
    ensures cs == ChunkIndexes(n, BufferSize, ChunkLen)
    ensures |cs| > 0
    ensures forall j :: 0 <= j < |cs| ==> 0 <= cs[j].start <= n
  {
    var cs := ChunkIndexes(n, BufferSize, ChunkLen);
    assert forall j :: 0 <= j < |cs| ==> 0 <= cs[j].start <= n by {
      forall j | 0 <= j < |cs| ensures 0 <= cs[j].start <= n {
        MulMono(0, j, ChunkLen);
      }
    }
    cs
  }

  /** One chunk through `subtract_parallel`; a spike whose window leaves the
      chunk makes numpy raise. */
  function ChunkResidual(data: Matrix, temps: seq<Matrix>, spt: seq<Spike>, nTime: nat, nChan: nat, c: Chunk)
    : (r: Result<Matrix, string>)
    requires IsMatrix(data, |data|, nChan) && Bank(temps, nTime, nChan) && 0 <= c.start <= |data|
    ensures r.Success? ==> IsMatrix(r.value, |ChunkData(data, c)|, nChan)
  {
    var piece := ChunkData(data, c);
    var train := ChunkTrain(spt, c, BufferSize);
    if Fits(train, |temps|, nTime, |piece|) then Success(SubtractParallel(piece, temps, train, nTime, nChan, BufferSize))
    else Failure("index out of bounds")
  }

  /** The values of a list of results, or the first error: how the chunks
      come back from the worker pool. */
  function Collect<T>(rs: seq<Result<T, string>>): (r: Result<seq<T>, string>)
    ensures r.Success? <==> forall j :: 0 <= j < |rs| ==> rs[j].Success?
    ensures r.Success? ==> |r.value| == |rs| && forall j :: 0 <= j < |rs| ==> rs[j] == Success(r.value[j])
  {
    if |rs| == 0 then Success([])
    else
      match Collect(rs[..|rs| - 1])
      case Failure(e) => Failure(e)
      case Success(prev) =>
        match rs[|rs| - 1]
        case Failure(e) => Failure(e)
        case Success(m) => Success(prev + [m])
  }

  /** `parmap.map(subtract_parallel, ...)` over every chunk. */
  function ChunkResiduals(data: Matrix, temps: seq<Matrix>, spt: seq<Spike>, nTime: nat, nChan: nat, cs: seq<Chunk>)
    : (rs: seq<Result<Matrix, string>>)
    requires IsMatrix(data, |data|, nChan) && Bank(temps, nTime, nChan)
    requires forall j :: 0 <= j < |cs| ==> 0 <= cs[j].start <= |data|
    ensures |rs| == |cs|
    ensures forall j :: 0 <= j < |cs| ==> rs[j] == ChunkResidual(data, temps, spt, nTime, nChan, cs[j])
  {
    seq(|cs|, j requires 0 <= j < |cs| => ChunkResidual(data, temps, spt, nTime, nChan, cs[j]))
  }

  /** When every chunk succeeds, chunk `j`'s residual has the rows of
      chunk `j`'s slice. */
  lemma CollectedShapes(data: Matrix, temps: seq<Matrix>, spt: seq<Spike>, nTime: nat, nChan: nat, cs: seq<Chunk>)
    requires IsMatrix(data, |data|, nChan) && Bank(temps, nTime, nChan)
    requires forall j :: 0 <= j < |cs| ==> 0 <= cs[j].start <= |data|
    requires Collect(ChunkResiduals(data, temps, spt, nTime, nChan, cs)).Success?
    ensures var res := Collect(ChunkResiduals(data, temps, spt, nTime, nChan, cs)).value;
      && |res| == |cs|
      && forall j :: 0 <= j < |res| ==> IsMatrix(res[j], |res[j]|, nChan) && |res[j]| == |ChunkData(data, cs[j])|
  {
    var rs := ChunkResiduals(data, temps, spt, nTime, nChan, cs);
    var res := Collect(rs).value;
    forall j | 0 <= j < |res| ensures IsMatrix(res[j], |res[j]|, nChan) && |res[j]| == |ChunkData(data, cs[j])| {
      assert rs[j] == Success(res[j]);
    }
  }

  /** `data[start + b:end - b] += res[b:-b]` as numpy does it: the two slices
      must have the same number of rows, or the right one a single row,
      which is then added to every row of the left one. */
  function StitchStep(acc: Matrix, c: Chunk, res: Matrix, b: nat, nChan: nat): (r: Result<Matrix, string>)
    requires IsMatrix(acc, |acc|, nChan) && IsMatrix(res, |res|, nChan)
    ensures r.Success? ==> IsMatrix(r.value, |acc|, nChan)
  {
    var lo := Clip(c.start + b, |acc|);
    var lhs := SpanLen(lo, Clip(c.end - b, |acc|));
    var rlo := Clip(b, |res|);
    var rhs := SpanLen(rlo, NegStop(|res|, b));
    if lhs == rhs then
      Success(seq(|acc|, t requires 0 <= t < |acc| => if lo <= t < lo + lhs then RowPlus(acc[t], res[rlo + t - lo]) else acc[t]))
    else if rhs == 1 then
      Success(seq(|acc|, t requires 0 <= t < |acc| => if lo <= t < lo + lhs then RowPlus(acc[t], res[rlo]) else acc[t]))
    else Failure("could not broadcast")
  }

  /** The stitch as written: a zeroed recording, then every chunk's slice
      added in, chunk by chunk. */
  function Stitch(n: nat, cs: seq<Chunk>, res: seq<Matrix>, b: nat, nChan: nat, k: nat): (r: Result<Matrix, string>)
    requires k <= |cs| == |res| && forall j :: 0 <= j < |res| ==> IsMatrix(res[j], |res[j]|, nChan)
    ensures r.Success? ==> IsMatrix(r.value, n, nChan)
  {
    if k == 0 then Success(Zeros(n, nChan))
    else
      match Stitch(n, cs, res, b, nChan, k - 1)
      case Failure(e) => Failure(e)
      case Success(acc) => StitchStep(acc, cs[k - 1], res[k - 1], b, nChan)
  }

  /** `compute_residual_parallel` as written. */
  function ComputeResidualParallel(data: Matrix, temps: seq<Matrix>, spt: seq<Spike>, nTime: nat, nChan: nat)
    : (r: Result<Matrix, string>)
    requires IsMatrix(data, |data|, nChan) && Bank(temps, nTime, nChan)
    ensures r.Success? ==> IsMatrix(r.value, |data|, nChan)
  {
    var cs := Layout(|data|);
    var rs := ChunkResiduals(data, temps, spt, nTime, nChan, cs);
    match Collect(rs)
    case Failure(e) => Failure(e)
    case Success(res) =>
      CollectedShapes(data, temps, spt, nTime, nChan, cs);
      Stitch(|data|, cs, res, BufferSize, nChan, |cs|)
  }

  /** Chunk `j` sits at `cs[j].start` and its residual has the rows of its
      slice of an `n`-row recording. */
  predicate Placed(n: nat, cs: seq<Chunk>, res: seq<Matrix>) {
    |cs| == |res| && forall j :: 0 <= j < |cs| ==> 0 <= cs[j].start <= n && |res[j]| == SpanLen(cs[j].start, Clip(cs[j].end, n))
  }

  /** The middle of a chunk's residual, rows `[b, len - b)`, added to the
      same rows of the recording. */
  function MiddleAdd(acc: Matrix, c: Chunk, res: Matrix, b: nat, nChan: nat): (r: Matrix)
    requires IsMatrix(acc, |acc|, nChan) && IsMatrix(res, |res|, nChan)
    requires 0 <= c.start && c.start + |res| <= |acc|
    ensures IsMatrix(r, |acc|, nChan)
  {
    seq(|acc|, t requires 0 <= t < |acc| =>
      if c.start + b <= t < c.start + |res| - b then RowPlus(acc[t], res[t - c.start]) else acc[t])
  }

  lemma MiddleAddAt(acc: Matrix, c: Chunk, res: Matrix, b: nat, nChan: nat, t: nat, ch: nat)
    requires IsMatrix(acc, |acc|, nChan) && IsMatrix(res, |res|, nChan)
    requires 0 <= c.start && c.start + |res| <= |acc| && t < |acc| && ch < nChan
    ensures MiddleAdd(acc, c, res, b, nChan)[t][ch]
      == if c.start + b <= t < c.start + |res| - b then acc[t][ch] + res[t - c.start][ch] else acc[t][ch]
  {
    if c.start + b <= t < c.start + |res| - b {
      assert MiddleAdd(acc, c, res, b, nChan)[t] == RowPlus(acc[t], res[t - c.start]);
    }
  }

  /** The stitch as evidently intended: every chunk's middle added in,
      however short the last chunk is. */
  function StitchFixed(n: nat, cs: seq<Chunk>, res: seq<Matrix>, b: nat, nChan: nat, k: nat): (r: Matrix)
    requires Placed(n, cs, res) && k <= |cs| && forall j :: 0 <= j < |res| ==> IsMatrix(res[j], |res[j]|, nChan)
    ensures IsMatrix(r, n, nChan)
  {
    if k == 0 then Zeros(n, nChan)
    else MiddleAdd(StitchFixed(n, cs, res, b, nChan, k - 1), cs[k - 1], res[k - 1], b, nChan)
  }

  /** Where the two slices of a stitch step have the same length, numpy's
      step is the intended one. */
  lemma StepAgrees(acc: Matrix, c: Chunk, res: Matrix, b: nat, nChan: nat)
    requires IsMatrix(acc, |acc|, nChan) && IsMatrix(res, |res|, nChan)
    requires 0 < b && 0 <= c.start && c.start + |res| <= |acc|
    requires SpanLen(Clip(c.start + b, |acc|), Clip(c.end - b, |acc|)) == SpanLen(Clip(b, |res|), NegStop(|res|, b))
    ensures StitchStep(acc, c, res, b, nChan) == Success(MiddleAdd(acc, c, res, b, nChan))
  {
    var lo := Clip(c.start + b, |acc|);
    var lhs := SpanLen(lo, Clip(c.end - b, |acc|));
    var rlo := Clip(b, |res|);
    var rhs := SpanLen(rlo, NegStop(|res|, b));
    if |res| > 2 * b {
      assert rlo == b && rhs == |res| - 2 * b && lo == c.start + b;
    } else {
      assert rhs == 0;
    }
    var r := StitchStep(acc, c, res, b, nChan).value;
    var m := MiddleAdd(acc, c, res, b, nChan);
    assert forall t :: 0 <= t < |acc| ==> r[t] == m[t];
    assert r == m;
  }

  /** The row of chunk residuals that row `t` of an `n`-row recording takes
      once the first `k` chunks are stitched: the owning chunk's residual at
      the same place, or nothing outside the middles. */
  function StitchedValue(n: nat, b: nat, l: nat, res: seq<Matrix>, nChan: nat, k: nat, t: nat, ch: nat): real
    requires l > 0 && Placed(n, ChunkIndexes(n, b, l), res) && k <= |res| && ch < nChan
    requires forall j :: 0 <= j < |res| ==> IsMatrix(res[j], |res[j]|, nChan)
  {
    if b <= t < n - b && (t - b) / l < k then
      var cs := ChunkIndexes(n, b, l);
      var j := (t - b) / l;
      Owner(t, b, l, j);
      assert cs[j].start <= t < cs[j].end && t < n;
      assert IsMatrix(res[j], |res[j]|, nChan);
      res[j][t - cs[j].start][ch]
    else 0.0
  }

  /** The middle rows of chunk `j`'s slice are the rows it owns. */
  lemma MiddleOfChunk(n: nat, b: nat, l: nat, j: nat, len: nat, t: int)
    requires l > 0 && j < |ChunkIndexes(n, b, l)|
    requires var c := ChunkIndexes(n, b, l)[j]; 0 <= c.start <= n && len == SpanLen(c.start, Clip(c.end, n))
    ensures var c := ChunkIndexes(n, b, l)[j];
      c.start + b <= t < c.start + len - b <==> b <= t < n - b && (t - b) / l == j
  {
    Owner(t, b, l, j);
  }

  /** Stitching chunk `j` changes the closed form only at the rows chunk
      `j` owns, which held zero before. */
  lemma StitchedValueStep(n: nat, b: nat, l: nat, res: seq<Matrix>, nChan: nat, j: nat, t: nat, ch: nat)
    requires l > 0 && Placed(n, ChunkIndexes(n, b, l), res) && j < |res| && t < n && ch < nChan
    requires forall i :: 0 <= i < |res| ==> IsMatrix(res[i], |res[i]|, nChan)
    ensures var c := ChunkIndexes(n, b, l)[j];
      if c.start + b <= t < c.start + |res[j]| - b then
        && StitchedValue(n, b, l, res, nChan, j, t, ch) == 0.0
        && 0 <= t - c.start < |res[j]|
        && StitchedValue(n, b, l, res, nChan, j + 1, t, ch) == res[j][t - c.start][ch]
      else StitchedValue(n, b, l, res, nChan, j + 1, t, ch) == StitchedValue(n, b, l, res, nChan, j, t, ch)
  {
    var c := ChunkIndexes(n, b, l)[j];
    assert 0 <= c.start <= n && |res[j]| == SpanLen(c.start, Clip(c.end, n));
    MiddleOfChunk(n, b, l, j, |res[j]|, t);
  }

  /** The intended stitch in closed form: after `k` chunks, a row in the
      middle of chunk `j < k` holds chunk `j`'s residual at the same place,
      and every other row is zero. */
  lemma {:induction false} StitchFixedAt(n: nat, b: nat, l: nat, res: seq<Matrix>, nChan: nat, k: nat, t: nat, ch: nat)
    requires l > 0 && Placed(n, ChunkIndexes(n, b, l), res) && k <= |res| && t < n && ch < nChan
    requires forall j :: 0 <= j < |res| ==> IsMatrix(res[j], |res[j]|, nChan)
    ensures StitchFixed(n, ChunkIndexes(n, b, l), res, b, nChan, k)[t][ch] == StitchedValue(n, b, l, res, nChan, k, t, ch)
  {
    var cs := ChunkIndexes(n, b, l);
    if k == 0 {
      if t >= b {
        var q, r := DivModNat(t - b, l);
      }
    } else {
      var j := k - 1;
      StitchFixedAt(n, b, l, res, nChan, j, t, ch);
      var prev := StitchFixed(n, cs, res, b, nChan, j);
      assert StitchFixed(n, cs, res, b, nChan, k) == MiddleAdd(prev, cs[j], res[j], b, nChan);
      assert 0 <= cs[j].start <= n && |res[j]| == SpanLen(cs[j].start, Clip(cs[j].end, n));
      MiddleAddAt(prev, cs[j], res[j], b, nChan, t, ch);
      StitchedValueStep(n, b, l, res, nChan, j, t, ch);
    }
  }

  /** Templates no longer than a buffer, on a train that fits the whole
      recording, fit every chunk: a spike of a chunk's middle ends its
      window before the chunk ends. */
  lemma ChunkFits(spt: seq<Spike>, nUnit: nat, nTime: nat, n: nat, c: Chunk)
    requires nTime <= BufferSize && Fits(spt, nUnit, nTime, n) && 0 <= c.start <= n
    ensures Fits(ChunkTrain(spt, c, BufferSize), nUnit, nTime, SpanLen(c.start, Clip(c.end, n)))
  {
    var train := ChunkTrain(spt, c, BufferSize);
    forall i | 0 <= i < |train| && 0 <= train[i].id < nUnit
      ensures -(SpanLen(c.start, Clip(c.end, n)) as int) <= train[i].time
      ensures train[i].time + nTime <= SpanLen(c.start, Clip(c.end, n))
    {
      var y := ChunkTrainSource(spt, c, BufferSize, train[i]);
      var j :| 0 <= j < |spt| && spt[j] == y;
    }
  }

  /** `compute_residual_parallel` with the evidently intended stitch. */
  function ComputeResidualParallelFixed(data: Matrix, temps: seq<Matrix>, spt: seq<Spike>, nTime: nat, nChan: nat)
    : (r: Result<Matrix, string>)
    requires IsMatrix(data, |data|, nChan) && Bank(temps, nTime, nChan)
    ensures r.Success? ==> IsMatrix(r.value, |data|, nChan)
  {
    var cs := Layout(|data|);
    var rs := ChunkResiduals(data, temps, spt, nTime, nChan, cs);
    match Collect(rs)
    case Failure(e) => Failure(e)
    case Success(res) =>
      CollectedShapes(data, temps, spt, nTime, nChan, cs);
      Success(StitchFixed(|data|, cs, res, BufferSize, nChan, |cs|))
  }

  /** Every row between the two outer buffers has its owning chunk. */
  lemma OwnerInLayout(n: nat, b: nat, l: nat, t: nat)
    requires l > 0 && b <= t < n - b
    ensures (t - b) / l < |ChunkIndexes(n, b, l)|
  {
    var m := |ChunkIndexes(n, b, l)|;
    ChunksCover(n, b, l);
    MulSucc(m - 1, l);
    var q, r := DivModNat(t - b, l);
    if q >= m {
      MulMono(m, q, l);
    }
  }

  /** The owning chunk of a row between the outer buffers, and the row's
      place inside that chunk's slice. */
  lemma OwnerSpot(n: nat, t: nat)
    requires BufferSize <= t < n - BufferSize
    ensures (t - BufferSize) / ChunkLen < |Layout(n)|
    ensures var c := Layout(n)[(t - BufferSize) / ChunkLen];
      c.start + BufferSize <= t < c.start + SpanLen(c.start, Clip(c.end, n)) - BufferSize
  {
    OwnerInLayout(n, BufferSize, ChunkLen, t);
    Owner(t, BufferSize, ChunkLen, (t - BufferSize) / ChunkLen);
  }

  lemma PieceIsMatrix(data: Matrix, nChan: nat, c: Chunk)
    requires IsMatrix(data, |data|, nChan) && 0 <= c.start <= |data|
    ensures IsMatrix(ChunkData(data, c), |ChunkData(data, c)|, nChan)
  {
  }

  /** Row `t`, channel `ch` of the residual its owning chunk computes on
      its own, the way `compute_residual` would on that chunk's slice. */
  function ResidualInChunk(data: Matrix, temps: seq<Matrix>, spt: seq<Spike>, nTime: nat, nChan: nat, t: nat, ch: nat): real
    requires IsMatrix(data, |data|, nChan) && Bank(temps, nTime, nChan) && Fits(spt, |temps|, nTime, |data|)
    requires nTime <= BufferSize && BufferSize <= t < |data| - BufferSize && ch < nChan
  {
    OwnerSpot(|data|, t);
    var c := Layout(|data|)[(t - BufferSize) / ChunkLen];
    ChunkFits(spt, |temps|, nTime, |data|, c);
    PieceIsMatrix(data, nChan, c);
    ComputeResidual(ChunkData(data, c), temps, ChunkTrain(spt, c, BufferSize), nTime, nChan)[t - c.start][ch]
  }

  /** With templates no longer than a buffer every chunk succeeds. */
  lemma ChunksSucceed(data: Matrix, temps: seq<Matrix>, spt: seq<Spike>, nTime: nat, nChan: nat) returns (res: seq<Matrix>)
    requires IsMatrix(data, |data|, nChan) && Bank(temps, nTime, nChan) && Fits(spt, |temps|, nTime, |data|)
    requires nTime <= BufferSize
    ensures Collect(ChunkResiduals(data, temps, spt, nTime, nChan, Layout(|data|))) == Success(res)
    ensures |res| == |Layout(|data|)|
    ensures Placed(|data|, Layout(|data|), res) && forall j :: 0 <= j < |res| ==> IsMatrix(res[j], |res[j]|, nChan)
    ensures forall j :: 0 <= j < |res| ==> ChunkResidual(data, temps, spt, nTime, nChan, Layout(|data|)[j]) == Success(res[j])
    ensures ComputeResidualParallelFixed(data, temps, spt, nTime, nChan) == Success(StitchFixed(|data|, Layout(|data|), res, BufferSize, nChan, |res|))
  {
    var n := |data|;
    var cs := Layout(n);
    forall j | 0 <= j < |cs| ensures ChunkResidual(data, temps, spt, nTime, nChan, cs[j]).Success? {
      ChunkFits(spt, |temps|, nTime, n, cs[j]);
    }
    var rs := ChunkResiduals(data, temps, spt, nTime, nChan, cs);
    res := Collect(rs).value;
    CollectedShapes(data, temps, spt, nTime, nChan, cs);
  }

  /** A middle row of a chunk's returned residual is the residual
      `compute_residual` computes on the chunk's slice alone. */
  lemma ChunkMiddleRow(data: Matrix, temps: seq<Matrix>, spt: seq<Spike>, nTime: nat, nChan: nat, c: Chunk, res: Matrix, i: nat, ch: nat)
    requires IsMatrix(data, |data|, nChan) && Bank(temps, nTime, nChan) && Fits(spt, |temps|, nTime, |data|)
    requires nTime <= BufferSize && 0 <= c.start <= |data| && ch < nChan
    requires ChunkResidual(data, temps, spt, nTime, nChan, c) == Success(res)
    requires BufferSize <= i < |ChunkData(data, c)| - BufferSize
    ensures (ChunkFits(spt, |temps|, nTime, |data|, c); PieceIsMatrix(data, nChan, c);
      i < |res| && res[i][ch] == ComputeResidual(ChunkData(data, c), temps, ChunkTrain(spt, c, BufferSize), nTime, nChan)[i][ch])
  {
    ChunkFits(spt, |temps|, nTime, |data|, c);
    var piece := ChunkData(data, c);
    var train := ChunkTrain(spt, c, BufferSize);
    assert res == SubtractParallel(piece, temps, train, nTime, nChan, BufferSize);
    SubtractParallelRows(piece, temps, train, nTime, nChan, BufferSize, i, ch);
  }

  /** A middle row of chunk `j`'s returned residual is the chunk's own
      residual there. */
  lemma MiddleRow(data: Matrix, temps: seq<Matrix>, spt: seq<Spike>, nTime: nat, nChan: nat, res: Matrix, t: nat, ch: nat)
    requires IsMatrix(data, |data|, nChan) && Bank(temps, nTime, nChan) && Fits(spt, |temps|, nTime, |data|)
    requires nTime <= BufferSize && BufferSize <= t < |data| - BufferSize && ch < nChan
    requires (OwnerInLayout(|data|, BufferSize, ChunkLen, t);
      ChunkResidual(data, temps, spt, nTime, nChan, Layout(|data|)[(t - BufferSize) / ChunkLen]) == Success(res))
    ensures (OwnerInLayout(|data|, BufferSize, ChunkLen, t);
      var c := Layout(|data|)[(t - BufferSize) / ChunkLen];
      Owner(t, BufferSize, ChunkLen, (t - BufferSize) / ChunkLen);
      0 <= t - c.start < |res| && res[t - c.start][ch] == ResidualInChunk(data, temps, spt, nTime, nChan, t, ch))
  {
    OwnerSpot(|data|, t);
    var c := Layout(|data|)[(t - BufferSize) / ChunkLen];
    ChunkMiddleRow(data, temps, spt, nTime, nChan, c, res, t - c.start, ch);
  }

  /** The closed form of the stitch at a middle row is the owning chunk's
      own residual. */
  lemma MiddleValue(data: Matrix, temps: seq<Matrix>, spt: seq<Spike>, nTime: nat, nChan: nat, res: seq<Matrix>, t: nat, ch: nat)
    requires IsMatrix(data, |data|, nChan) && Bank(temps, nTime, nChan) && Fits(spt, |temps|, nTime, |data|)
    requires nTime <= BufferSize && BufferSize <= t < |data| - BufferSize && ch < nChan
    requires Placed(|data|, Layout(|data|), res) && forall j :: 0 <= j < |res| ==> IsMatrix(res[j], |res[j]|, nChan)
    requires forall j :: 0 <= j < |res| ==> ChunkResidual(data, temps, spt, nTime, nChan, Layout(|data|)[j]) == Success(res[j])
    ensures StitchedValue(|data|, BufferSize, ChunkLen, res, nChan, |res|, t, ch) == ResidualInChunk(data, temps, spt, nTime, nChan, t, ch)
  {
    var n := |data|;
    OwnerInLayout(n, BufferSize, ChunkLen, t);
    var j := (t - BufferSize) / ChunkLen;
    MiddleRow(data, temps, spt, nTime, nChan, res[j], t, ch);
  }

  /** Chunked residuals succeed when templates fit in a buffer, and the
      stitched recording holds, between the outer buffers, each chunk's own
      residual, and zeros in the outer buffers. */
  lemma ParallelFixedRows(data: Matrix, temps: seq<Matrix>, spt: seq<Spike>, nTime: nat, nChan: nat, t: nat, ch: nat)
    requires IsMatrix(data, |data|, nChan) && Bank(temps, nTime, nChan) && Fits(spt, |temps|, nTime, |data|)
    requires nTime <= BufferSize && t < |data| && ch < nChan
    ensures ComputeResidualParallelFixed(data, temps, spt, nTime, nChan).Success?
    ensures BufferSize <= t < |data| - BufferSize ==>
      ComputeResidualParallelFixed(data, temps, spt, nTime, nChan).value[t][ch] == ResidualInChunk(data, temps, spt, nTime, nChan, t, ch)
    ensures !(BufferSize <= t < |data| - BufferSize) ==>
      ComputeResidualParallelFixed(data, temps, spt, nTime, nChan).value[t][ch] == 0.0
  {
    var n := |data|;
    var res := ChunksSucceed(data, temps, spt, nTime, nChan);
    StitchFixedAt(n, BufferSize, ChunkLen, res, nChan, |res|, t, ch);
    if BufferSize <= t < n - BufferSize {
      MiddleValue(data, temps, spt, nTime, nChan, res, t, ch);
    }
  }

  /** numpy accepts `data[start + b:end - b] += res[b:-b]` with equal row
      counts on both sides. */
  predicate ShapesAgree(n: nat, c: Chunk, len: nat, b: nat) {
    SpanLen(Clip(c.start + b, n), Clip(c.end - b, n)) == SpanLen(Clip(b, len), NegStop(len, b))
  }

  /** Where every chunk's slices agree, the stitch as written is the
      intended one. */
  lemma {:induction false} StitchAgrees(n: nat, cs: seq<Chunk>, res: seq<Matrix>, b: nat, nChan: nat, k: nat)
    requires b > 0 && Placed(n, cs, res) && k <= |cs| && forall j :: 0 <= j < |res| ==> IsMatrix(res[j], |res[j]|, nChan)
    requires forall j :: 0 <= j < |cs| ==> ShapesAgree(n, cs[j], |res[j]|, b)
    ensures Stitch(n, cs, res, b, nChan, k) == Success(StitchFixed(n, cs, res, b, nChan, k))
  {
    if k > 0 {
      StitchAgrees(n, cs, res, b, nChan, k - 1);
      var acc := StitchFixed(n, cs, res, b, nChan, k - 1);
      assert ShapesAgree(n, cs[k - 1], |res[k - 1]|, b);
      StepAgrees(acc, cs[k - 1], res[k - 1], b, nChan);
    }
  }

  /** A recording of `m` chunk lengths plus two buffers gives every chunk
      slices of `len` rows on both sides. */
  lemma ExactShapes(m: nat, b: nat, l: nat, j: nat)
    requires l > 0 && b > 0 && m > 0
    requires j < |ChunkIndexes(m * l + 2 * b, b, l)|
    ensures var n := m * l + 2 * b; var c := ChunkIndexes(n, b, l)[j];
      ShapesAgree(n, c, SpanLen(c.start, Clip(c.end, n)), b)
  {
    ExactChunks(m, b, l);
    MulMono(j + 1, m, l);
    MulSucc(j, l);
  }

  /** On a recording of exactly `m` chunk lengths plus two buffers the
      stitch as written does what was meant. */
  lemma ExactFitAgrees(data: Matrix, temps: seq<Matrix>, spt: seq<Spike>, nTime: nat, nChan: nat, m: nat)
    requires IsMatrix(data, |data|, nChan) && Bank(temps, nTime, nChan)
    requires m > 0 && |data| == m * ChunkLen + 2 * BufferSize
    ensures ComputeResidualParallel(data, temps, spt, nTime, nChan) == ComputeResidualParallelFixed(data, temps, spt, nTime, nChan)
  {
    var n := |data|;
    var cs := Layout(n);
    var rs := ChunkResiduals(data, temps, spt, nTime, nChan, cs);
    if Collect(rs).Success? {
      var res := Collect(rs).value;
      CollectedShapes(data, temps, spt, nTime, nChan, cs);
      forall j | 0 <= j < |cs| ensures ShapesAgree(n, cs[j], |res[j]|, BufferSize) {
        ExactShapes(m, BufferSize, ChunkLen, j);
      }
      StitchAgrees(n, cs, res, BufferSize, nChan, |cs|);
    }
  }

  /** A chunk whose slices numpy cannot add makes the whole stitch fail. */
  lemma StitchFailsAt(n: nat, cs: seq<Chunk>, res: seq<Matrix>, b: nat, nChan: nat, k: nat)
    requires 0 < k <= |cs| == |res| && forall j :: 0 <= j < |res| ==> IsMatrix(res[j], |res[j]|, nChan)
    requires var c := cs[k - 1]; var len := |res[k - 1]|;
      var lhs := SpanLen(Clip(c.start + b, n), Clip(c.end - b, n));
      var rhs := SpanLen(Clip(b, len), NegStop(len, b));
      lhs != rhs && rhs != 1
    ensures Stitch(n, cs, res, b, nChan, k).Failure?
  {
  }

  /** A recording two rows longer than one chunk and its buffers is cut
      into two chunks, the second `[len, 2 * len + 2 * buffer)`. */
  lemma RaggedLayout(n: nat)
    requires n == ChunkLen + 2 * BufferSize + 2
    ensures |Layout(n)| == 2 && Layout(n)[1] == Chunk(ChunkLen, 2 * ChunkLen + 2 * BufferSize)
  {
    assert ArangeLen(ChunkLen + 2 * BufferSize, n, ChunkLen) == 1;
  }

  /** A recording two rows longer than one chunk and its buffers: the
      second chunk has 402 rows, so `res[1][200:-200]` has 2 rows while
      `data[200200:400200]` has 202, and numpy refuses the addition. */
  lemma RaggedRecordingFails(data: Matrix, temps: seq<Matrix>, spt: seq<Spike>, nTime: nat, nChan: nat)
    requires IsMatrix(data, |data|, nChan) && Bank(temps, nTime, nChan)
    requires |data| == ChunkLen + 2 * BufferSize + 2
    ensures ComputeResidualParallel(data, temps, spt, nTime, nChan).Failure?
  {
    var n := |data|;
    var cs := Layout(n);
    RaggedLayout(n);
    var rs := ChunkResiduals(data, temps, spt, nTime, nChan, cs);
    if Collect(rs).Success? {
      var res := Collect(rs).value;
      CollectedShapes(data, temps, spt, nTime, nChan, cs);
      assert |res[1]| == |ChunkData(data, cs[1])|;
      StitchFailsAt(n, cs, res, BufferSize, nChan, 2);
    }
  }
}
