/** Spike trains: rows `(time, unit id)` as the engine stores them in its
    `(N, 2)` integer arrays, and the row selections and reorderings the
    engine applies to them. */
module SpikeTrain {
  import opened ArrayOps

  datatype Spike = Spike(time: int, id: int)

  predicate SortedByTime(s: seq<Spike>) {
    forall i, j :: 0 <= i < j < |s| ==> s[i].time <= s[j].time
  }

  /** A row placed before a sorted train whose times are all at least its
      own keeps the train sorted. */
  lemma ConsSorted(h: Spike, rest: seq<Spike>)
    requires SortedByTime(rest)
    requires forall y :: y in multiset(rest) ==> h.time <= y.time
    ensures SortedByTime([h] + rest)
  {
    forall j | 0 <= j < |rest| ensures h.time <= rest[j].time {
      assert rest[j] in multiset(rest);
    }
  }

  /** Putting the head of a sorted train before rows taken from its tail
      keeps the order. */
  lemma SubtrainSorted(s: seq<Spike>, rest: seq<Spike>)
    requires |s| > 0 && multiset(rest) <= multiset(s[1..])
    requires SortedByTime(s) ==> SortedByTime(rest)
    ensures SortedByTime(s) ==> SortedByTime([s[0]] + rest)
  {
    if SortedByTime(s) {
      forall y | y in multiset(rest) ensures s[0].time <= y.time {
        assert y in multiset(s[1..]);
        var j :| 0 <= j < |s[1..]| && s[1..][j] == y;
        assert s[j + 1] == y;
      }
      ConsSorted(s[0], rest);
    }
  }

  /** A row of any reordering of a train, clipped to a window and moved,
      comes from a row of the train in the window. */
  lemma ReorderedWindowSource(s: seq<Spike>, p: seq<Spike>, lo: int, hi: int, d: int, x: Spike) returns (y: Spike)
    requires multiset(p) == multiset(s) && x in ShiftTimes(InWindow(p, lo, hi), d)
    ensures y in s && lo <= y.time < hi && x == Moved(y, d)
  {
    y := MovedWindowSource(p, lo, hi, d, x);
    assert y in multiset(p);
  }

  /** A row of a train in the window appears, moved, in any reordering of
      the train clipped to the window and moved. */
  lemma ReorderedWindowHolds(s: seq<Spike>, p: seq<Spike>, lo: int, hi: int, d: int, y: Spike)
    requires multiset(p) == multiset(s) && y in s && lo <= y.time < hi
    ensures Moved(y, d) in ShiftTimes(InWindow(p, lo, hi), d)
  {
    assert y in multiset(s);
    MovedWindowHolds(p, lo, hi, d, y);
  }

  /** Clipping to a window and moving every time, applied to any reordering
      of a train, keeps every row of the train exactly as often as clipping
      and moving the train itself. */
  lemma ReorderedWindowRows(s: seq<Spike>, p: seq<Spike>, start: int, lo: int, hi: int)
    requires multiset(p) == multiset(s)
    ensures multiset(ShiftTimes(InWindow(p, lo, hi), start - lo)) == multiset(ShiftTimes(InWindow(s, lo, hi), start - lo))
    ensures |InWindow(p, lo, hi)| == |InWindow(s, lo, hi)|
  {
    ReorderedWindow(s, p, lo, hi);
    ReorderedShift(InWindow(s, lo, hi), InWindow(p, lo, hi), start - lo);
  }

  /** Clipping any reordering of a train keeps the rows of the clipped
      train, each as often. */
  lemma ReorderedWindow(s: seq<Spike>, p: seq<Spike>, lo: int, hi: int)
    requires multiset(p) == multiset(s)
    ensures multiset(InWindow(p, lo, hi)) == multiset(InWindow(s, lo, hi))
    ensures |InWindow(p, lo, hi)| == |InWindow(s, lo, hi)|
  {
    forall x ensures multiset(InWindow(p, lo, hi))[x] == multiset(InWindow(s, lo, hi))[x] {
      InWindowCount(p, lo, hi, x);
      InWindowCount(s, lo, hi, x);
    }
    assert multiset(InWindow(p, lo, hi)) == multiset(InWindow(s, lo, hi));
    assert |multiset(InWindow(p, lo, hi))| == |InWindow(p, lo, hi)|;
  }

  /** Moving two reorderings of the same rows gives reorderings of the
      same moved rows. */
  lemma ReorderedShift(s: seq<Spike>, p: seq<Spike>, d: int)
    requires multiset(p) == multiset(s)
    ensures multiset(ShiftTimes(p, d)) == multiset(ShiftTimes(s, d))
  {
    forall x ensures multiset(ShiftTimes(p, d))[x] == multiset(ShiftTimes(s, d))[x] {
      var y := Moved(x, -d);
      assert Moved(y, d) == x;
      ShiftTimesCount(p, d, y);
      ShiftTimesCount(s, d, y);
    }
  }

  /** A row occurs in the window as often as in the train when its time
      lies in the window, and not at all otherwise. */
  lemma {:induction false} InWindowCount(s: seq<Spike>, lo: int, hi: int, x: Spike)
    ensures multiset(InWindow(s, lo, hi))[x] == if lo <= x.time < hi then multiset(s)[x] else 0
  {
    if |s| > 0 {
      InWindowCount(s[1..], lo, hi, x);
      HeadTail(s);
    }
  }

  /** A moved row occurs in the moved train as often as the row occurs in
      the train. */
  lemma {:induction false} ShiftTimesCount(s: seq<Spike>, d: int, y: Spike)
    ensures multiset(ShiftTimes(s, d))[Moved(y, d)] == multiset(s)[y]
  {
    if |s| > 0 {
      ShiftTimesCount(s[1..], d, y);
      ShiftTimesCons(s, d);
      HeadTail(s);
      HeadTail(ShiftTimes(s, d));
      assert s[0] == y <==> Moved(s[0], d) == Moved(y, d);
    }
  }

  /** Moving a train moves its head and then its tail. */
  lemma ShiftTimesCons(s: seq<Spike>, d: int)
    requires |s| > 0
    ensures ShiftTimes(s, d)[0] == Moved(s[0], d)
    ensures ShiftTimes(s, d)[1..] == ShiftTimes(s[1..], d)
  {
  }

  /** A train's rows are its head's and its tail's. */
  lemma HeadTail(s: seq<Spike>)
    requires |s| > 0
    ensures multiset(s) == multiset{s[0]} + multiset(s[1..])
  {
    assert s == [s[0]] + s[1..];
  }

  /** Inserts `x` after every row of a time-sorted train whose time is not
      larger, so rows with equal times keep their order. */
  function InsertByTime(s: seq<Spike>, x: Spike): (r: seq<Spike>)
    requires SortedByTime(s)
    ensures SortedByTime(r)
    ensures multiset(r) == multiset(s) + multiset{x}
    ensures |r| == |s| + 1
  {
    if |s| == 0 then [x]
    else if x.time < s[0].time then
      ConsSorted(x, s);
      [x] + s
    else
      var rest := InsertByTime(s[1..], x);
      assert s == [s[0]] + s[1..];
      InsertAfterHead(s, x, rest);
      [s[0]] + rest
  }

  /** The head of a sorted train, put back before an insertion of a later
      row into its tail, keeps the train sorted. */
  lemma InsertAfterHead(s: seq<Spike>, x: Spike, rest: seq<Spike>)
    requires SortedByTime(s) && |s| > 0 && s[0].time <= x.time && SortedByTime(rest)
    requires multiset(rest) == multiset(s[1..]) + multiset{x}
    ensures SortedByTime([s[0]] + rest)
  {
    forall y | y in multiset(rest) ensures s[0].time <= y.time {
      if y != x {
        assert y in multiset(s[1..]);
        var j :| 0 <= j < |s[1..]| && s[1..][j] == y;
        assert s[j + 1] == y;
      }
    }
    ConsSorted(s[0], rest);
  }

  /** Rows ordered by time (`spt[np.argsort(spt[:, 0])]`). */
  function SortByTime(s: seq<Spike>): (r: seq<Spike>)
    ensures SortedByTime(r)
    ensures multiset(r) == multiset(s)
    ensures |r| == |s|
  {
    if |s| == 0 then []
    else
      assert s == s[..|s| - 1] + [s[|s| - 1]];
      InsertByTime(SortByTime(s[..|s| - 1]), s[|s| - 1])
  }

  /** The rows whose time lies in `[lo, hi)`, in their original order. */
  function InWindow(s: seq<Spike>, lo: int, hi: int): (r: seq<Spike>)
    ensures forall x {:trigger x in r} :: x in r <==> x in s && lo <= x.time < hi
  {
    if |s| == 0 then []
    else
      var rest := InWindow(s[1..], lo, hi);
      if lo <= s[0].time < hi then [s[0]] + rest else rest
  }

  /** The window keeps rows of the train, each at most as often. */
  lemma {:induction false} InWindowSub(s: seq<Spike>, lo: int, hi: int)
    ensures multiset(InWindow(s, lo, hi)) <= multiset(s)
  {
    if |s| > 0 {
      InWindowSub(s[1..], lo, hi);
      assert s == [s[0]] + s[1..];
    }
  }

  /** The window of a time-sorted train is time-sorted. */
  lemma {:induction false} InWindowSorted(s: seq<Spike>, lo: int, hi: int)
    requires SortedByTime(s)
    ensures SortedByTime(InWindow(s, lo, hi))
  {
    if |s| > 0 {
      InWindowSorted(s[1..], lo, hi);
      InWindowSub(s[1..], lo, hi);
      SubtrainSorted(s, InWindow(s[1..], lo, hi));
    }
  }

  /** Every time moved by `d`, ids untouched. */
  function ShiftTimes(s: seq<Spike>, d: int): (r: seq<Spike>)
    ensures |r| == |s|
    ensures forall i :: 0 <= i < |s| ==> r[i].time - d == s[i].time && r[i].id == s[i].id
  {
    seq(|s|, i requires 0 <= i < |s| => Spike(s[i].time + d, s[i].id))
  }

  /** Moving every time by the same amount keeps the order. */
  lemma ShiftTimesSorted(s: seq<Spike>, d: int)
    requires SortedByTime(s)
    ensures SortedByTime(ShiftTimes(s, d))
  {
  }

  /** `spt[spt[:, 1] == unit]`: the rows of one unit, in order. */
  function OfUnit(s: seq<Spike>, unit: int): (r: seq<Spike>)
    ensures forall x {:trigger x in r} :: x in r <==> x in s && x.id == unit
    ensures |r| <= |s|
  {
    if |s| == 0 then []
    else
      var rest := OfUnit(s[1..], unit);
      assert s == [s[0]] + s[1..];
      if s[0].id == unit then [s[0]] + rest else rest
  }

  /** Each row of a unit's train is a row of the whole train. */
  lemma OfUnitAt(s: seq<Spike>, unit: int, j: nat) returns (i: nat)
    requires j < |OfUnit(s, unit)|
    ensures i < |s| && s[i] == OfUnit(s, unit)[j] && s[i].id == unit
  {
    var r := OfUnit(s, unit);
    assert r[j] in r;
    i :| 0 <= i < |s| && s[i] == r[j];
  }

  /** The ids of the rows, in order. */
  function Ids(s: seq<Spike>): (r: seq<int>)
    ensures |r| == |s|
    ensures forall i :: 0 <= i < |s| ==> r[i] == s[i].id
  {
    seq(|s|, i requires 0 <= i < |s| => s[i].id)
  }

  /** The times of the rows, in order. */
  function Times(s: seq<Spike>): (r: seq<int>)
    ensures |r| == |s|
    ensures forall i :: 0 <= i < |s| ==> r[i] == s[i].time
  {
    seq(|s|, i requires 0 <= i < |s| => s[i].time)
  }

  /** A row moved by `d` samples. */
  function Moved(y: Spike, d: int): Spike {
    Spike(y.time + d, y.id)
  }

  /** Every row of the window moved by `d` is a moved row of the train
      that lay in the window. */
  lemma MovedWindowSource(s: seq<Spike>, lo: int, hi: int, d: int, x: Spike) returns (y: Spike)
    requires x in ShiftTimes(InWindow(s, lo, hi), d)
    ensures y in s && lo <= y.time < hi && x == Moved(y, d)
  {
    var w := InWindow(s, lo, hi);
    var i :| 0 <= i < |w| && ShiftTimes(w, d)[i] == x;
    y := w[i];
    assert y in w;
  }

  /** Every row of the train in the window is in the window moved by `d`,
      moved. */
  lemma MovedWindowHolds(s: seq<Spike>, lo: int, hi: int, d: int, y: Spike)
    requires y in s && lo <= y.time < hi
    ensures Moved(y, d) in ShiftTimes(InWindow(s, lo, hi), d)
  {
    var w := InWindow(s, lo, hi);
    assert y in w;
    var i :| 0 <= i < |w| && w[i] == y;
    assert ShiftTimes(w, d)[i] == Moved(y, d);
  }

  /** `np.arange(0, w) + spt[:, :1]` flattened: the `w` positions starting
      at each row's time, row major. */
  function Windows(s: seq<Spike>, w: nat): (pos: seq<int>)
    ensures |pos| == |s| * w
  {
    seq(|s| * w, p requires 0 <= p < |s| * w => RowOf(s, w, p).time + p % w)
  }

  /** The row position `p` of the windows belongs to. */
  function RowOf(s: seq<Spike>, w: nat, p: nat): Spike
    requires p < |s| * w
  {
    DivBelow(p, w, |s|);
    s[p / w]
  }

  /** Position `p` of the windows is offset `q = p % w` after row
      `j = p // w`. */
  lemma WindowAt(s: seq<Spike>, w: nat, p: nat) returns (j: nat, q: nat)
    requires p < |s| * w
    ensures j == p / w && q == p % w
    ensures j < |s| && q < w
    ensures Windows(s, w)[p] == s[j].time + q
  {
    DivBelow(p, w, |s|);
    j, q := DivModNat(p, w);
  }

  /** Offset `q` of row `i` sits at position `i * w + q` of the windows. */
  lemma WindowOf(s: seq<Spike>, w: nat, i: nat, q: nat) returns (p: nat)
    requires i < |s| && q < w
    ensures p < |s| * w && p / w == i && p % w == q
    ensures Windows(s, w)[p] == s[i].time + q
  {
    MulMono(0, i, w);
    MulMono(i + 1, |s|, w);
    MulSucc(i, w);
    p := i * w + q;
    DivUnique(p, w, i, q);
  }

  /** The windows are numpy's broadcast sum of the times column and the
      offsets row. */
  lemma WindowsBroadcast(s: seq<Spike>, w: nat)
    ensures Windows(s, w) == OuterSum(Times(s), Offsets(w))
  {
    var ws, os := Windows(s, w), OuterSum(Times(s), Offsets(w));
    forall p | 0 <= p < |ws| ensures ws[p] == os[p] {
      var j, q := WindowAt(s, w, p);
      OuterSumAt(Times(s), Offsets(w), p);
    }
  }
}
