/** The numpy indexing primitives the engine is built from, on immutable
    sequences: `arange`, `repeat`, `tile`, `unique`, fancy reads and fancy
    writes. A fancy write `a[idx] = v` (and `a[idx] -= d`, which gathers
    `a[idx]` first and then writes) wraps negative indices from the end and,
    when an index repeats, keeps the value of its last occurrence. */
module ArrayOps {

  // ---------------------------------------------------------------- division facts

  lemma MulAtLeast(d: int, s: int)
    requires d >= 1 && s > 0
    ensures d * s >= s
  {
    if d > 1 {
      MulAtLeast(d - 1, s);
      assert d * s == (d - 1) * s + s;
    }
  }

  lemma DivUnique(a: int, s: int, q: int, r: int)
    requires s > 0 && 0 <= r < s && a == q * s + r
    ensures a / s == q && a % s == r
  {
    var q0, r0 := a / s, a % s;
    assert a == q0 * s + r0;
    assert (q0 - q) * s == q0 * s - q * s;
    if q0 > q {
      MulAtLeast(q0 - q, s);
    } else if q0 < q {
      MulAtLeast(q - q0, s);
    }
  }

  /** Quotient and remainder of a natural number by a positive one. */
  lemma DivModNat(a: nat, s: int) returns (q: nat, r: nat)
    requires s > 0
    ensures q == a / s && r == a % s && r < s && a == q * s + r
  {
    q, r := a / s, a % s;
  }

  lemma MulSucc(j: int, l: int)
    ensures (j + 1) * l == j * l + l
  {
  }

  lemma MulMono(a: int, b: int, s: nat)
    requires a <= b
    ensures a * s <= b * s
  {
    assert b * s - a * s == (b - a) * s;
  }

  /** A position below `n * w` lies in one of the `n` blocks of `w`. */
  lemma DivBelow(p: nat, w: nat, n: nat)
    requires p < n * w
    ensures w > 0 && p / w < n
  {
    if w > 0 && p / w >= n {
      var j, r := DivModNat(p, w);
      MulMono(n, j, w);
    }
  }

  lemma DivSub(a: int, s: int)
    requires s > 0
    ensures (a - s) / s == a / s - 1 && (a - s) % s == a % s
  {
    DivUnique(a - s, s, a / s - 1, a % s);
  }

  lemma DivSubAll(s: int)
    requires s > 0
    ensures forall a {:trigger a / s} :: (a - s) / s == a / s - 1 && (a - s) % s == a % s
  {
    forall a {
      DivSub(a, s);
    }
  }

  /** Number of elements of `np.arange(start, stop, step)`. */
  function ArangeLen(start: int, stop: int, step: int): nat
    requires step != 0
  {
    if step > 0 then (if start < stop then (stop - start + step - 1) / step else 0)
    else (if start > stop then (start - stop + (-step) - 1) / (-step) else 0)
  }

  lemma ArangeLenStep(start: int, stop: int, step: int)
    requires (step > 0 && start < stop) || (step < 0 && start > stop)
    ensures ArangeLen(start + step, stop, step) + 1 == ArangeLen(start, stop, step)
  {
    if step > 0 {
      var d := stop - start;
      if start + step < stop {
        DivSub(d + step - 1, step);
      } else {
        DivUnique(d + step - 1, step, 1, d - 1);
      }
    } else {
      var s := -step;
      var d := start - stop;
      if start + step > stop {
        DivSub(d + s - 1, s);
      } else {
        DivUnique(d + s - 1, s, 1, d - 1);
      }
    }
  }

  lemma MulPred(k: int, step: int)
    ensures step + (k - 1) * step == k * step
  {
  }

  /** `np.arange(start, stop, step)` for a non-zero integer step. */
  function Arange(start: int, stop: int, step: int): (r: seq<int>)
    requires step != 0
    ensures |r| == ArangeLen(start, stop, step)
    ensures forall k :: 0 <= k < |r| ==> r[k] == start + k * step
  {
    seq(ArangeLen(start, stop, step), k requires 0 <= k < ArangeLen(start, stop, step) => start + k * step)
  }

  /** `np.arange(0, n)`. */
  function Offsets(n: nat): (r: seq<int>)
    ensures |r| == n && forall q :: 0 <= q < n ==> r[q] == q
  {
    DivUnique(n, 1, n, 0);
    Arange(0, n, 1)
  }

  /** `np.repeat(xs, n)`: every element `n` times in a row. */
  function Repeat<T>(xs: seq<T>, n: nat): (r: seq<T>)
    ensures |r| == |xs| * n
  {
    if |xs| == 0 then []
    else
      MulPred(|xs|, n);
      seq(n, _ => xs[0]) + Repeat(xs[1..], n)
  }

  /** Position `p` of `np.repeat(xs, n)` holds element `p // n`. */
  lemma {:induction false} RepeatAt<T>(xs: seq<T>, n: nat, p: int)
    requires n > 0 && 0 <= p < |xs| * n
    ensures p / n < |xs| && Repeat(xs, n)[p] == xs[p / n]
  {
    MulPred(|xs|, n);
    if p < n {
      DivUnique(p, n, 0, p);
    } else {
      DivSub(p, n);
      RepeatAt(xs[1..], n, p - n);
    }
  }

  /** `np.tile(xs, n)`: the whole sequence `n` times. */
  function Tile<T>(xs: seq<T>, n: nat): (r: seq<T>)
    ensures |r| == |xs| * n
  {
    if n == 0 then []
    else
      MulPred(n, |xs|);
      xs + Tile(xs, n - 1)
  }

  /** Position `p` of `np.tile(xs, n)` holds element `p % len(xs)`. */
  lemma {:induction false} TileAt<T>(xs: seq<T>, n: nat, p: int)
    requires 0 <= p < |xs| * n
    ensures |xs| > 0 && Tile(xs, n)[p] == xs[p % |xs|]
  {
    MulPred(n, |xs|);
    if p < |xs| {
      DivUnique(p, |xs|, 0, p);
    } else {
      DivSub(p, |xs|);
      TileAt(xs, n - 1, p - |xs|);
    }
  }

  /** `(xs[:, None] + ys).ravel()`: every `x + y`, `x` major. */
  function OuterSum(xs: seq<int>, ys: seq<int>): (r: seq<int>)
    ensures |r| == |xs| * |ys|
  {
    if |xs| == 0 then []
    else
      MulPred(|xs|, |ys|);
      seq(|ys|, l requires 0 <= l < |ys| => xs[0] + ys[l]) + OuterSum(xs[1..], ys)
  }

  /** Position `p` of the flattened outer sum pairs `xs[p // len(ys)]` with
      `ys[p % len(ys)]`. */
  lemma {:induction false} OuterSumAt(xs: seq<int>, ys: seq<int>, p: int)
    requires 0 <= p < |xs| * |ys|
    ensures |ys| > 0 && p / |ys| < |xs|
    ensures OuterSum(xs, ys)[p] == xs[p / |ys|] + ys[p % |ys|]
  {
    MulPred(|xs|, |ys|);
    if p < |ys| {
      DivUnique(p, |ys|, 0, p);
    } else {
      DivSub(p, |ys|);
      OuterSumAt(xs[1..], ys, p - |ys|);
    }
  }

  // ---------------------------------------------------------------- fancy indexing

  /** The cell numpy addresses with index `i` in an axis of length `n`. */
  function Wrap(i: int, n: nat): (w: nat)
    requires -(n as int) <= i < n
    ensures w < n
    ensures w == i || w == i + n
    ensures 0 <= i ==> w == i
  {
    if i < 0 then i + n else i
  }

  /** Every index is one numpy accepts for an axis of length `n`. */
  predicate InBounds(idx: seq<int>, n: nat) {
    forall k :: 0 <= k < |idx| ==> -(n as int) <= idx[k] < n
  }

  /** Some position of `idx` addresses cell `c`. */
  predicate Hit(idx: seq<int>, n: nat, c: int)
    requires InBounds(idx, n)
  {
    exists k :: 0 <= k < |idx| && Wrap(idx[k], n) == c
  }

  /** No later position of `idx` addresses the cell that position `k` does. */
  predicate LastWrite(idx: seq<int>, n: nat, k: int)
    requires InBounds(idx, n) && 0 <= k < |idx|
  {
    forall k' :: k < k' < |idx| ==> Wrap(idx[k'], n) != Wrap(idx[k], n)
  }

  /** `xs[idx]`. */
  function Take<T>(xs: seq<T>, idx: seq<int>): (r: seq<T>)
    requires InBounds(idx, |xs|)
    ensures |r| == |idx|
    ensures forall k :: 0 <= k < |idx| ==> r[k] == xs[Wrap(idx[k], |xs|)]
  {
    seq(|idx|, k requires 0 <= k < |idx| => xs[Wrap(idx[k], |xs|)])
  }

  /** `xs[idx] = vals`: the writes happen in order, so a cell addressed more
      than once keeps the value of its last write, and a cell never
      addressed keeps its old value. */
  function Put<T>(xs: seq<T>, idx: seq<int>, vals: seq<T>): (r: seq<T>)
    requires |idx| == |vals| && InBounds(idx, |xs|)
    ensures |r| == |xs|
    ensures forall c {:trigger Hit(idx, |xs|, c)} :: 0 <= c < |xs| && !Hit(idx, |xs|, c) ==> r[c] == xs[c]
    ensures forall k {:trigger LastWrite(idx, |xs|, k)} :: 0 <= k < |idx| && LastWrite(idx, |xs|, k) ==> r[Wrap(idx[k], |xs|)] == vals[k]
    decreases |idx|
  {
    if |idx| == 0 then xs
    else
      var n := |idx| - 1;
      var front := Put(xs, idx[..n], vals[..n]);
      assert forall c :: 0 <= c < |xs| && !Hit(idx, |xs|, c) ==> !Hit(idx[..n], |xs|, c);
      assert forall k :: 0 <= k < n && LastWrite(idx, |xs|, k) ==> LastWrite(idx[..n], |xs|, k);
      front[Wrap(idx[n], |xs|) := vals[n]]
  }

  /** Every addressed cell has a last write, so `Put` is fully determined by
      its contract. */
  lemma LastWriteExists(idx: seq<int>, n: nat, c: int) returns (k: nat)
    requires InBounds(idx, n) && Hit(idx, n, c)
    ensures k < |idx| && Wrap(idx[k], n) == c && LastWrite(idx, n, k)
  {
    var j :| 0 <= j < |idx| && Wrap(idx[j], n) == c;
    k := j;
    while k + 1 < |idx| && exists k' :: k < k' < |idx| && Wrap(idx[k'], n) == c
      invariant j <= k < |idx| && Wrap(idx[k], n) == c
      decreases |idx| - k
    {
      var k2 :| k < k2 < |idx| && Wrap(idx[k2], n) == c;
      k := k2;
    }
  }

  /** `xs[mask]` for the mask `keep(xs)`: the kept elements, in order. */
  function Select(xs: seq<int>, keep: int -> bool): (r: seq<int>)
    ensures forall x {:trigger x in r} :: x in r <==> x in xs && keep(x)
    ensures |r| <= |xs|
    ensures StrictlyIncreasing(xs) ==> StrictlyIncreasing(r)
  {
    if |xs| == 0 then []
    else
      var rest := Select(xs[1..], keep);
      assert xs == [xs[0]] + xs[1..];
      if keep(xs[0]) then
        HeadBelowRest(xs, rest);
        [xs[0]] + rest
      else rest
  }

  /** The head of a strictly increasing sequence stays below anything taken
      from its tail. */
  lemma HeadBelowRest(xs: seq<int>, rest: seq<int>)
    requires |xs| > 0 && forall y :: y in rest ==> y in xs[1..]
    ensures StrictlyIncreasing(xs) && StrictlyIncreasing(rest) ==> StrictlyIncreasing([xs[0]] + rest)
  {
    if StrictlyIncreasing(xs) && StrictlyIncreasing(rest) {
      forall j | 0 <= j < |rest| ensures xs[0] < rest[j] {
        assert rest[j] in rest;
        var i :| 0 <= i < |xs[1..]| && xs[1..][i] == rest[j];
        assert xs[i + 1] == rest[j];
      }
    }
  }

  // ---------------------------------------------------------------- sorted sets

  predicate StrictlyIncreasing(s: seq<int>) {
    forall i, j :: 0 <= i < j < |s| ==> s[i] < s[j]
  }

  /** Inserts `x` into a strictly increasing sequence, keeping it one. */
  function Insert(s: seq<int>, x: int): (r: seq<int>)
    requires StrictlyIncreasing(s)
    ensures StrictlyIncreasing(r)
    ensures forall y {:trigger y in r} :: y in r <==> y in s || y == x
  {
    if |s| == 0 then [x]
    else if x < s[0] then [x] + s
    else if x == s[0] then s
    else
      var rest := Insert(s[1..], x);
      InsertAfterHead(s, x, rest);
      [s[0]] + rest
  }

  /** Putting the head of `s` back in front of an insertion into its tail
      keeps the sequence strictly increasing. */
  lemma InsertAfterHead(s: seq<int>, x: int, rest: seq<int>)
    requires StrictlyIncreasing(s) && |s| > 0 && s[0] < x && StrictlyIncreasing(rest)
    requires forall y {:trigger y in rest} :: y in rest <==> y in s[1..] || y == x
    ensures StrictlyIncreasing([s[0]] + rest) && ([s[0]] + rest)[1..] == rest
  {
    forall j | 0 <= j < |rest| ensures s[0] < rest[j] {
      assert rest[j] in rest;
      if rest[j] != x {
        var i :| 0 <= i < |s[1..]| && s[1..][i] == rest[j];
        assert s[i + 1] == rest[j];
      }
    }
  }

  /** `np.unique(xs)`: the distinct values of `xs` in increasing order. */
  function Unique(xs: seq<int>): (u: seq<int>)
    ensures StrictlyIncreasing(u)
    ensures forall x {:trigger x in u} :: x in u <==> x in xs
  {
    if |xs| == 0 then []
    else
      var u := Insert(Unique(xs[..|xs| - 1]), xs[|xs| - 1]);
      assert xs == xs[..|xs| - 1] + [xs[|xs| - 1]];
      u
  }

  /** Position of `x` in a strictly increasing sequence holding it. */
  function IndexOf(s: seq<int>, x: int): (k: nat)
    requires StrictlyIncreasing(s) && x in s
    ensures k < |s| && s[k] == x
  {
    if s[0] == x then 0 else 1 + IndexOf(s[1..], x)
  }
}
