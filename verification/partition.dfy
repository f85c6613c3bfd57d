/** `partition_input` and `gather_clustering_result` without their files:
    the spike index cut down to the spikes before `max_time`, regrouped per
    unit with each unit's upsampled ids renumbered densely, and the
    clustering results flattened back into one `(time, unit)` train. */
module Partition {
  import opened ArrayOps
  import opened Outcome

  /** One row `(time, unit)` of `spike_index`. */
  datatype Row = Row(time: int, unit: int)

  /** What `partition_{unit}.npz` holds besides the times when upsampled
      data is given: the renumbered up ids and the templates they index. */
  datatype UpPart<T> = UpPart(ids: seq<nat>, templates: seq<T>)

  /** One unit's partition: `spike_times`, and `up_ids` / `up_templates`
      when upsampled data is given. */
  datatype Part<T> = Part(times: seq<int>, up: Option<UpPart<T>>)

  /** The upsampled data of `fname_up`: column 1 of `spike_train_up`, row
      aligned with `spike_index`, and `templates_up` along its first axis. */
  datatype UpData<T> = UpData(ids: seq<int>, templates: seq<T>)

  /** Every position is below `n`. */
  predicate Within(idx: seq<nat>, n: nat) {
    forall k :: 0 <= k < |idx| ==> idx[k] < n
  }

  // ---------------------------------------------------------------- partition_input

  /** `np.where(spike_index[:, 0] < max_time)[0]` over the first `n` rows. */
  function KeptBelow(rows: seq<Row>, maxTime: int, n: nat): (idx: seq<nat>)
    requires n <= |rows|
    ensures Within(idx, n)
    ensures StrictlyIncreasing(idx)
    ensures forall j {:trigger j in idx} :: j in idx <==> 0 <= j < n && rows[j].time < maxTime
  {
    if n == 0 then []
    else
      var front := KeptBelow(rows, maxTime, n - 1);
      if rows[n - 1].time < maxTime then
        assert forall k :: 0 <= k < |front| ==> front[k] < n - 1;
        front + [n - 1]
      else front
  }

  /** The rows `partition_input` keeps, in their order. */
  function Kept(rows: seq<Row>, maxTime: int): (idx: seq<nat>)
    ensures Within(idx, |rows|)
    ensures StrictlyIncreasing(idx)
    ensures forall j {:trigger j in idx} :: j in idx <==> 0 <= j < |rows| && rows[j].time < maxTime
  {
    KeptBelow(rows, maxTime, |rows|)
  }

  /** `np.max(spike_index[:, 1])` over the first `n` rows. */
  function MaxUnitBelow(rows: seq<Row>, n: nat): (m: int)
    requires 0 < n <= |rows|
    ensures forall j :: 0 <= j < n ==> rows[j].unit <= m
    ensures exists j :: 0 <= j < n && rows[j].unit == m
  {
    if n == 1 then rows[0].unit
    else
      var m := MaxUnitBelow(rows, n - 1);
      if rows[n - 1].unit > m then rows[n - 1].unit else m
  }

  /** The number of lists `range(n_units)` makes, `n_units` being one more
      than the largest unit id over all rows, kept or not. */
  function Units(rows: seq<Row>): (n: nat)
    requires |rows| > 0
    ensures forall j :: 0 <= j < |rows| ==> rows[j].unit < n
    ensures n == 0 || exists j :: 0 <= j < |rows| && rows[j].unit == n - 1
  {
    var m := MaxUnitBelow(rows, |rows|);
    if m + 1 > 0 then m + 1 else 0
  }

  /** `lists[i]` among `n` Python lists: a negative index counts from the
      end, and one past either end raises. */
  function Slot(i: int, n: nat): (s: Option<nat>)
    ensures s.Some? <==> -(n as int) <= i < n
    ensures s.Some? ==> s.value < n && (s.value == i || s.value == i + n)
  {
    if -(n as int) <= i < n then Some(Wrap(i, n)) else None
  }

  /** Every row at a position of `idx` names one of the `n` lists. */
  predicate Placeable(rows: seq<Row>, idx: seq<nat>, n: nat)
    requires Within(idx, |rows|)
  {
    forall k :: 0 <= k < |idx| ==> Slot(rows[idx[k]].unit, n).Some?
  }

  /** The positions of `idx` whose row goes to list `u`, in their order. */
  function Members(rows: seq<Row>, idx: seq<nat>, n: nat, u: nat): (r: seq<nat>)
    requires Within(idx, |rows|)
    ensures Within(r, |rows|)
    ensures forall j {:trigger j in r} :: j in r <==> j in idx && j < |rows| && Slot(rows[j].unit, n) == Some(u)
    ensures StrictlyIncreasing(idx) ==> StrictlyIncreasing(r)
  {
    if |idx| == 0 then []
    else
      var last := idx[|idx| - 1];
      var front := Members(rows, idx[..|idx| - 1], n, u);
      assert idx == idx[..|idx| - 1] + [last];
      if Slot(rows[last].unit, n) == Some(u) then
        assert StrictlyIncreasing(idx) ==> forall k :: 0 <= k < |front| ==> front[k] < last by {
          if StrictlyIncreasing(idx) {
            forall k | 0 <= k < |front| ensures front[k] < last {
              assert front[k] in front;
              var i :| 0 <= i < |idx| - 1 && idx[i] == front[k];
            }
          }
        }
        front + [last]
      else front
  }

  /** A bound on the positions of `idx` bounds those of each list. */
  lemma {:induction false} MembersWithin(rows: seq<Row>, idx: seq<nat>, n: nat, u: nat, m: nat)
    requires Within(idx, |rows|) && Within(idx, m)
    ensures Within(Members(rows, idx, n, u), m)
    decreases |idx|
  {
    if |idx| > 0 {
      MembersWithin(rows, idx[..|idx| - 1], n, u, m);
    }
  }

  /** Column `col` at the rows of list `u`: what the loop appends to that
      list. */
  function Listed(rows: seq<Row>, col: seq<int>, idx: seq<nat>, n: nat, u: nat): (r: seq<int>)
    requires Within(idx, |rows|) && Within(idx, |col|)
    ensures |r| == |Members(rows, idx, n, u)|
  {
    var ms := Members(rows, idx, n, u);
    MembersWithin(rows, idx, n, u, |col|);
    Take(col, ms)
  }

  /** The `n` lists built by appending `col[j]` to list `unit[j]` for every
      position `j` of `idx`; a unit index outside the lists, or a row past
      the end of `col`, raises. */
  function Grouped(rows: seq<Row>, col: seq<int>, idx: seq<nat>, n: nat): (r: Result<seq<seq<int>>, string>)
    requires Within(idx, |rows|)
    ensures r.Success? <==> Within(idx, |col|) && Placeable(rows, idx, n)
    ensures r.Success? ==> |r.value| == n
  {
    if Within(idx, |col|) && Placeable(rows, idx, n) then
      Success(seq(n, u requires 0 <= u < n => Listed(rows, col, idx, n, u)))
    else Failure("index out of range")
  }

  lemma TakeSnoc(col: seq<int>, ms: seq<nat>, j: nat)
    requires Within(ms, |col|) && j < |col|
    ensures Within(ms + [j], |col|) && Take(col, ms + [j]) == Take(col, ms) + [col[j]]
  {
    assert Within(ms + [j], |col|);
    assert Take(col, ms + [j])[|ms|] == col[j];
  }

  /** One pass of the appending loop: list `s` grows by `col[j]`, every
      other list stays. */
  lemma GroupStep(rows: seq<Row>, col: seq<int>, idx: seq<nat>, n: nat, i: nat, s: nat, u: nat)
    requires i < |idx| && Within(idx, |rows|) && Within(idx[..i + 1], |col|)
    requires Slot(rows[idx[i]].unit, n) == Some(s) && u < n
    ensures Within(idx[..i], |rows|) && Within(idx[..i], |col|) && Within(idx[..i + 1], |rows|)
    ensures Listed(rows, col, idx[..i + 1], n, u)
      == if u == s then Listed(rows, col, idx[..i], n, u) + [col[idx[i]]] else Listed(rows, col, idx[..i], n, u)
  {
    var pre := idx[..i + 1];
    assert pre[..i] == idx[..i] && pre[i] == idx[i];
    assert Within(idx[..i], |col|);
    var ms := Members(rows, idx[..i], n, u);
    MembersWithin(rows, idx[..i], n, u, |col|);
    if u == s {
      assert Members(rows, pre, n, u) == ms + [idx[i]];
      TakeSnoc(col, ms, idx[i]);
    } else {
      assert Members(rows, pre, n, u) == ms;
    }
  }

  /** After `i` passes of the appending loop: no error so far, and each
      list holds column `col` at the rows of `idx[..i]` that went to it. */
  ghost predicate Appended(rows: seq<Row>, col: seq<int>, idx: seq<nat>, n: nat, i: nat, lists: seq<seq<int>>)
    requires Within(idx, |rows|)
  {
    && i <= |idx|
    && Within(idx[..i], |rows|) && Within(idx[..i], |col|) && Placeable(rows, idx[..i], n)
    && |lists| == n && forall u :: 0 <= u < n ==> lists[u] == Listed(rows, col, idx[..i], n, u)
  }

  /** One more pass keeps `Appended`. */
  lemma AppendedStep(rows: seq<Row>, col: seq<int>, idx: seq<nat>, n: nat, i: nat, lists: seq<seq<int>>, s: nat)
    requires Within(idx, |rows|) && Appended(rows, col, idx, n, i, lists)
    requires i < |idx| && idx[i] < |col| && Slot(rows[idx[i]].unit, n) == Some(s)
    ensures Appended(rows, col, idx, n, i + 1, lists[s := lists[s] + [col[idx[i]]]])
  {
    assert idx[..i + 1] == idx[..i] + [idx[i]];
    forall u | 0 <= u < n
      ensures Listed(rows, col, idx[..i + 1], n, u)
        == if u == s then lists[u] + [col[idx[i]]] else lists[u]
    {
      GroupStep(rows, col, idx, n, i, s, u);
    }
  }

  /** Once every pass is done the lists are `Grouped`'s. */
  lemma AppendedDone(rows: seq<Row>, col: seq<int>, idx: seq<nat>, n: nat, lists: seq<seq<int>>)
    requires Within(idx, |rows|) && Appended(rows, col, idx, n, |idx|, lists)
    ensures Grouped(rows, col, idx, n) == Success(lists)
  {
    assert idx[..|idx|] == idx;
    assert lists == seq(n, u requires 0 <= u < n => Listed(rows, col, idx, n, u));
  }

  /** The loops `for j in idx_keep: lists[ii].append(col[j])` of
      `partition_input`, on `n` empty lists: they build exactly `Grouped`,
      and raise exactly when it fails. */
  method Group(rows: seq<Row>, col: seq<int>, idx: seq<nat>, n: nat) returns (r: Result<seq<seq<int>>, string>)
    requires Within(idx, |rows|)
    ensures r == Grouped(rows, col, idx, n)
  {
    var lists: seq<seq<int>> := seq(n, _ => []);
    var i := 0;
    while i < |idx|
      invariant Appended(rows, col, idx, n, i, lists)
    {
      var j := idx[i];
      if j >= |col| {
        assert !Within(idx, |col|);
        return Failure("index out of range");
      }
      var s := Slot(rows[j].unit, n);
      if s.None? {
        assert !Placeable(rows, idx, n);
        return Failure("index out of range");
      }
      AppendedStep(rows, col, idx, n, i, lists, s.value);
      lists := lists[s.value := lists[s.value] + [col[j]]];
      i := i + 1;
    }
    AppendedDone(rows, col, idx, n, lists);
    r := Success(lists);
  }

  /** The times of list `u` are the times of the rows kept for unit `u`,
      in their order, and the up ids of list `u` are the up ids of the same
      rows: the two lists are index aligned. */
  lemma ListsAligned(rows: seq<Row>, ups: seq<int>, maxTime: int, n: nat, u: nat, k: nat)
    requires Within(Kept(rows, maxTime), |ups|) && k < |Members(rows, Kept(rows, maxTime), n, u)|
    ensures var idx := Kept(rows, maxTime); var j := Members(rows, idx, n, u)[k];
      && |Listed(rows, Times(rows), idx, n, u)| == |Listed(rows, ups, idx, n, u)|
      && j < |rows| && rows[j].time < maxTime && Slot(rows[j].unit, n) == Some(u)
      && Listed(rows, Times(rows), idx, n, u)[k] == rows[j].time
      && Listed(rows, ups, idx, n, u)[k] == ups[j]
  {
    var idx := Kept(rows, maxTime);
    var ms := Members(rows, idx, n, u);
    assert ms[k] in ms;
  }

  /** `spike_index[:, 0]`. */
  function Times(rows: seq<Row>): (ts: seq<int>)
    ensures |ts| == |rows| && forall j :: 0 <= j < |rows| ==> ts[j] == rows[j].time
  {
    seq(|rows|, j requires 0 <= j < |rows| => rows[j].time)
  }

  // ---------------------------------------------------------------- up-id remap

  /** One unit's up ids through `np.unique`, `templates_up[unique_up_ids]`
      and `new_id_map`, for a unit with at least one id. */
  function Remap<T>(ids: seq<int>, templates: seq<T>): (r: Result<UpPart<T>, string>)
    ensures r.Success? <==> InBounds(ids, |templates|)
    ensures r.Success? ==> |r.value.ids| == |ids| && |r.value.templates| == |Unique(ids)|
  {
    var uniq := Unique(ids);
    if InBounds(uniq, |templates|) then
      UniqueInBounds(ids, |templates|);
      Success(UpPart(seq(|ids|, k requires 0 <= k < |ids| => IndexOf(uniq, ids[k])), Take(templates, uniq)))
    else
      UniqueInBounds(ids, |templates|);
      Failure("index out of bounds")
  }

  /** The distinct ids are in bounds exactly when the ids are. */
  lemma UniqueInBounds(ids: seq<int>, n: nat)
    ensures InBounds(Unique(ids), n) <==> InBounds(ids, n)
  {
    var uniq := Unique(ids);
    if InBounds(uniq, n) {
      forall k | 0 <= k < |ids| ensures -(n as int) <= ids[k] < n {
        assert ids[k] in uniq;
      }
    }
    if InBounds(ids, n) {
      forall k | 0 <= k < |uniq| ensures -(n as int) <= uniq[k] < n {
        assert uniq[k] in uniq;
        var i :| 0 <= i < |ids| && ids[i] == uniq[k];
      }
    }
  }

  /** The remap is a round trip: `unique_up_ids[up_id2[k]]` is the original
      id, so the renumbered id picks out of the unit's templates the very
      template the original id picked out of `templates_up`, and the unit
      keeps one template per distinct id. */
  lemma RemapRoundTrip<T>(ids: seq<int>, templates: seq<T>, k: nat)
    requires Remap(ids, templates).Success? && k < |ids|
    ensures var p := Remap(ids, templates).value;
      && Unique(ids)[p.ids[k]] == ids[k]
      && p.ids[k] < |p.templates|
      && p.templates[p.ids[k]] == templates[Wrap(ids[k], |templates|)]
  {
    var uniq := Unique(ids);
    UniqueInBounds(ids, |templates|);
    assert ids[k] in uniq;
  }

  /** The renumbering keeps the order of the ids and tells equal ids from
      different ones: it maps the sorted distinct ids onto `0 .. m - 1` in
      order. */
  lemma RemapMonotone<T>(ids: seq<int>, templates: seq<T>, a: nat, b: nat)
    requires Remap(ids, templates).Success? && a < |ids| && b < |ids|
    ensures var p := Remap(ids, templates).value;
      (ids[a] < ids[b] <==> p.ids[a] < p.ids[b]) && (ids[a] == ids[b] <==> p.ids[a] == p.ids[b])
  {
    var uniq := Unique(ids);
    var p := Remap(ids, templates).value;
    RemapRoundTrip(ids, templates, a);
    RemapRoundTrip(ids, templates, b);
    if p.ids[a] < p.ids[b] {
      assert uniq[p.ids[a]] < uniq[p.ids[b]];
    } else if p.ids[b] < p.ids[a] {
      assert uniq[p.ids[b]] < uniq[p.ids[a]];
    }
  }

  /** Every renumbered id `0 .. m - 1` is used by some spike of the unit:
      the renumbering is dense. */
  lemma RemapDense<T>(ids: seq<int>, templates: seq<T>, i: nat) returns (k: nat)
    requires Remap(ids, templates).Success? && i < |Remap(ids, templates).value.templates|
    ensures k < |ids| && Remap(ids, templates).value.ids[k] == i
  {
    var uniq := Unique(ids);
    var p := Remap(ids, templates).value;
    assert uniq[i] in uniq;
    k :| 0 <= k < |ids| && ids[k] == uniq[i];
    RemapRoundTrip(ids, templates, k);
    assert uniq[p.ids[k]] == uniq[i];
  }

  /** `np.unique` of an empty list is a float array, and numpy refuses to
      index `templates_up` with it. */
  function RemapAsWritten<T>(ids: seq<int>, templates: seq<T>): (r: Result<UpPart<T>, string>)
    ensures r.Success? <==> |ids| > 0 && InBounds(ids, |templates|)
    ensures r.Success? ==> r == Remap(ids, templates)
  {
    if |ids| == 0 then Failure("arrays used as indices must be of integer type")
    else Remap(ids, templates)
  }

  /** The remap of one unit's list, as written or fixed. */
  function RemapUnit<T>(ids: seq<int>, templates: seq<T>, asWritten: bool): (r: Result<UpPart<T>, string>)
    ensures r.Success? <==> InBounds(ids, |templates|) && (asWritten ==> |ids| > 0)
    ensures r.Success? ==> r == Remap(ids, templates)
  {
    if asWritten then RemapAsWritten(ids, templates) else Remap(ids, templates)
  }

  /** The remap of every unit's list, or the first error. */
  function RemapAll<T>(lists: seq<seq<int>>, templates: seq<T>, asWritten: bool): (r: Result<seq<UpPart<T>>, string>)
    ensures r.Success? <==> forall u :: 0 <= u < |lists| ==> RemapUnit(lists[u], templates, asWritten).Success?
    ensures r.Success? ==> |r.value| == |lists| && forall u :: 0 <= u < |lists| ==> Success(r.value[u]) == RemapUnit(lists[u], templates, asWritten)
  {
    if |lists| == 0 then Success([])
    else
      var n := |lists| - 1;
      assert forall u :: 0 <= u < n ==> lists[..n][u] == lists[u];
      match RemapAll(lists[..n], templates, asWritten)
      case Failure(e) => Failure(e)
      case Success(front) =>
        match RemapUnit(lists[n], templates, asWritten)
        case Failure(e) => Failure(e)
        case Success(p) => Success(front + [p])
  }

  // ---------------------------------------------------------------- the whole partition

  /** The partition of every unit: the unit ids `np.arange(n_units)` and
      one partition per unit. `asWritten` selects the source's remap, which
      raises on a unit with no kept spike when upsampled data is given. */
  function Partitioned<T>(rows: seq<Row>, maxTime: int, up: Option<UpData<T>>, asWritten: bool)
    : (r: Result<(seq<int>, seq<Part<T>>), string>)
  {
    if |rows| == 0 then Failure("zero-size array to reduction operation maximum")
    else
      var n := Units(rows);
      var idx := Kept(rows, maxTime);
      match Grouped(rows, Times(rows), idx, n)
      case Failure(e) => Failure(e)
      case Success(times) =>
        match up
        case None => Success((Offsets(n), seq(n, u requires 0 <= u < n => Part(times[u], None))))
        case Some(d) =>
          match Grouped(rows, d.ids, idx, n)
          case Failure(e) => Failure(e)
          case Success(ups) =>
            match RemapAll(ups, d.templates, asWritten)
            case Failure(e) => Failure(e)
            case Success(ps) => Success((Offsets(n), seq(n, u requires 0 <= u < n => Part(times[u], Some(ps[u])))))
  }

  /** When `Partitioned` succeeds: no rows, a kept row naming no list, or,
      with upsampled data, a kept row without an up id or with one outside
      `templates_up` makes it fail; `asWritten` adds a unit with no kept
      spike. */
  ghost predicate Succeeds<T>(rows: seq<Row>, maxTime: int, up: Option<UpData<T>>, asWritten: bool) {
    var idx := Kept(rows, maxTime);
    && |rows| > 0
    && Placeable(rows, idx, Units(rows))
    && (up.Some? ==>
          && Within(idx, |up.value.ids|)
          && forall u :: 0 <= u < Units(rows) ==>
               && InBounds(Listed(rows, up.value.ids, idx, Units(rows), u), |up.value.templates|)
               && (asWritten ==> |Members(rows, idx, Units(rows), u)| > 0))
  }

  /** `partition_input` as written: with upsampled data it raises on every
      unit that keeps no spike, besides the errors of its indexing. */
  function PartitionInput<T>(rows: seq<Row>, maxTime: int, up: Option<UpData<T>>): (r: Result<(seq<int>, seq<Part<T>>), string>)
    ensures r.Success? <==> Succeeds(rows, maxTime, up, true)
    ensures forall u: nat :: up.Some? && |rows| > 0 && u < Units(rows) && |Members(rows, Kept(rows, maxTime), Units(rows), u)| == 0 ==> r.Failure?
  {
    PartitionFails(rows, maxTime, up, true);
    Partitioned(rows, maxTime, up, true)
  }

  /** `partition_input` with a unit that keeps no spike given no up ids and
      no templates: it fails only on the errors of its indexing. */
  function PartitionInputFixed<T>(rows: seq<Row>, maxTime: int, up: Option<UpData<T>>): (r: Result<(seq<int>, seq<Part<T>>), string>)
    ensures r.Success? <==> Succeeds(rows, maxTime, up, false)
  {
    PartitionFails(rows, maxTime, up, false);
    Partitioned(rows, maxTime, up, false)
  }

  /** When the partition succeeds: the unit ids are `0 .. n_units - 1`, one
      partition each; a unit's times are the times of the rows kept for it,
      in their order; with upsampled data, its up ids are aligned with its
      times and renumber the ids of the same rows. */
  lemma PartitionShape<T>(rows: seq<Row>, maxTime: int, up: Option<UpData<T>>, asWritten: bool, u: nat)
    requires Partitioned(rows, maxTime, up, asWritten).Success?
    ensures |rows| > 0
    ensures var r := Partitioned(rows, maxTime, up, asWritten).value; var n := Units(rows);
      && |r.0| == n && |r.1| == n
      && (forall i :: 0 <= i < n ==> r.0[i] == i)
      && (u < n ==>
            && r.1[u].times == Listed(rows, Times(rows), Kept(rows, maxTime), n, u)
            && (r.1[u].up.Some? <==> up.Some?)
            && (up.Some? ==>
                  && Within(Kept(rows, maxTime), |up.value.ids|)
                  && Success(r.1[u].up.value) == Remap(Listed(rows, up.value.ids, Kept(rows, maxTime), n, u), up.value.templates)))
  {
  }

  lemma PartitionFails<T>(rows: seq<Row>, maxTime: int, up: Option<UpData<T>>, asWritten: bool)
    ensures Partitioned(rows, maxTime, up, asWritten).Success? <==> Succeeds(rows, maxTime, up, asWritten)
  {
    if |rows| > 0 {
      var n := Units(rows);
      var idx := Kept(rows, maxTime);
      if up.Some? && Within(idx, |up.value.ids|) && Placeable(rows, idx, n) {
        var ups := Grouped(rows, up.value.ids, idx, n).value;
        assert forall u :: 0 <= u < n ==> ups[u] == Listed(rows, up.value.ids, idx, n, u);
      }
    }
  }

  /** Two rows, the second of unit 1 past `max_time = 100`: unit 1 keeps
      no spike. */
  lemma EmptyUnitLayout()
    ensures var rows := [Row(10, 0), Row(500, 1)];
      && Units(rows) == 2 && Kept(rows, 100) == [0]
      && Members(rows, [0], 2, 0) == [0] && Members(rows, [0], 2, 1) == []
  {
    var rows := [Row(10, 0), Row(500, 1)];
    assert MaxUnitBelow(rows, 1) == 0;
    assert MaxUnitBelow(rows, 2) == 1;
    assert KeptBelow(rows, 100, 0) == [];
    assert KeptBelow(rows, 100, 1) == [0];
    assert KeptBelow(rows, 100, 2) == [0];
    assert [0][..0] == [];
    assert Slot(0, 2) == Some(0);
    assert Members(rows, [], 2, 0) == [] && Members(rows, [], 2, 1) == [];
  }

  /** A unit whose only spike lies past `max_time` makes the partition as
      written raise when upsampled data is given. */
  lemma EmptyUnitRaises()
    ensures PartitionInput([Row(10, 0), Row(500, 1)], 100, Some(UpData([3, 4], [0.5, 1.0, 1.5, 2.0, 2.5]))).Failure?
  {
    EmptyUnitLayout();
  }

  /** A unit with no up ids remaps to no ids and no templates. */
  lemma RemapEmpty<T>(templates: seq<T>)
    ensures Remap([], templates) == Success(UpPart([], []))
  {
    assert Unique([]) == [];
  }

  /** The lists of that recording: unit 0 keeps its spike, unit 1 none. */
  lemma EmptyUnitLists()
    ensures var rows := [Row(10, 0), Row(500, 1)];
      && Listed(rows, Times(rows), [0], 2, 1) == []
      && Listed(rows, [3, 4], [0], 2, 1) == []
      && Listed(rows, [3, 4], [0], 2, 0) == [3]
  {
    EmptyUnitLayout();
  }

  /** The fixed partition gives that unit an empty partition. */
  lemma EmptyUnitFixed()
    ensures var r := PartitionInputFixed([Row(10, 0), Row(500, 1)], 100, Some(UpData([3, 4], [0.5, 1.0, 1.5, 2.0, 2.5])));
      r.Success? && r.value.1[1] == Part([], Some(UpPart([], [])))
  {
    var rows := [Row(10, 0), Row(500, 1)];
    var up := Some(UpData([3, 4], [0.5, 1.0, 1.5, 2.0, 2.5]));
    EmptyUnitLayout();
    EmptyUnitLists();
    assert Succeeds(rows, 100, up, false);
    PartitionShape(rows, 100, up, false, 1);
    RemapEmpty(up.value.templates);
  }

  // ---------------------------------------------------------------- gather_clustering_result

  /** One clustering result file: its template rows and, per unit, the
      unit's spike times. */
  datatype ClusterFile<T> = ClusterFile(templates: seq<T>, spiketime: seq<seq<int>>)

  /** The files with at least one template row, in their order. */
  function NonEmpty<T>(files: seq<ClusterFile<T>>): (r: seq<ClusterFile<T>>)
    ensures forall k :: 0 <= k < |r| ==> r[k] in files && |r[k].templates| > 0
    ensures forall i :: 0 <= i < |files| && |files[i].templates| > 0 ==> files[i] in r
  {
    if |files| == 0 then []
    else
      var front := NonEmpty(files[..|files| - 1]);
      assert files == files[..|files| - 1] + [files[|files| - 1]];
      if |files[|files| - 1].templates| > 0 then front + [files[|files| - 1]] else front
  }

  /** `spike_indexes`: the spike times of the units of the kept files, in
      file order. */
  function SpikeIndexes<T>(files: seq<ClusterFile<T>>): seq<seq<int>> {
    if |files| == 0 then [] else SpikeIndexes(files[..|files| - 1]) + files[|files| - 1].spiketime
  }

  /** `np.vstack(templates)`. */
  function Stacked<T>(files: seq<ClusterFile<T>>): seq<T> {
    if |files| == 0 then [] else Stacked(files[..|files| - 1]) + files[|files| - 1].templates
  }

  /** The rows `(spike_indexes[k][i], k)` of one unit. */
  function BlockRows(times: seq<int>, k: nat): (r: seq<Row>)
    ensures |r| == |times| && forall i :: 0 <= i < |times| ==> r[i] == Row(times[i], k)
  {
    seq(|times|, i requires 0 <= i < |times| => Row(times[i], k))
  }

  /** The loop stacking the rows of unit `k` under those of the units
      before it. */
  function Flatten(blocks: seq<seq<int>>): (train: seq<Row>)
    ensures |train| == TotalLen(blocks)
  {
    if |blocks| == 0 then []
    else Flatten(blocks[..|blocks| - 1]) + BlockRows(blocks[|blocks| - 1], |blocks| - 1)
  }

  function TotalLen(blocks: seq<seq<int>>): nat {
    if |blocks| == 0 then 0 else TotalLen(blocks[..|blocks| - 1]) + |blocks[|blocks| - 1]|
  }

  /** `gather_clustering_result` without its files: the stacked templates
      and the flattened spike train; `np.vstack` of no template block
      raises. */
  function Gather<T>(files: seq<ClusterFile<T>>): (r: Result<(seq<T>, seq<Row>), string>)
    ensures r.Failure? <==> forall i :: 0 <= i < |files| ==> |files[i].templates| == 0
    ensures r.Success? ==> |r.value.1| == TotalLen(SpikeIndexes(NonEmpty(files)))
  {
    var kept := NonEmpty(files);
    if |kept| == 0 then
      Failure("need at least one array to concatenate")
    else
      assert kept[0] in files;
      Success((Stacked(kept), Flatten(SpikeIndexes(kept))))
  }

  /** The times of the rows of a train carrying id `k`, in their order. */
  function TimesOfId(train: seq<Row>, k: int): seq<int> {
    if |train| == 0 then []
    else TimesOfId(train[..|train| - 1], k) + (if train[|train| - 1].unit == k then [train[|train| - 1].time] else [])
  }

  lemma {:induction false} TimesOfIdAppend(a: seq<Row>, b: seq<Row>, k: int)
    ensures TimesOfId(a + b, k) == TimesOfId(a, k) + TimesOfId(b, k)
    decreases |b|
  {
    if |b| == 0 {
      assert a + b == a;
    } else {
      var n := |b| - 1;
      assert (a + b)[..|a + b| - 1] == a + b[..n];
      TimesOfIdAppend(a, b[..n], k);
    }
  }

  lemma {:induction false} TimesOfBlock(times: seq<int>, j: nat, k: int)
    ensures TimesOfId(BlockRows(times, j), k) == if j == k then times else []
    decreases |times|
  {
    if |times| > 0 {
      var n := |times| - 1;
      assert BlockRows(times, j)[..n] == BlockRows(times[..n], j);
      TimesOfBlock(times[..n], j, k);
      if j == k {
        assert times == times[..n] + [times[n]];
      }
    }
  }

  /** The flattened train regrouped by id gives back every unit's spike
      times, in order, and nothing for an id past the last unit: the
      flattening loses nothing and mixes nothing. */
  lemma {:induction false} FlattenRegroups(blocks: seq<seq<int>>, k: int)
    ensures TimesOfId(Flatten(blocks), k) == if 0 <= k < |blocks| then blocks[k] else []
    decreases |blocks|
  {
    if |blocks| > 0 {
      var n := |blocks| - 1;
      FlattenRegroups(blocks[..n], k);
      TimesOfIdAppend(Flatten(blocks[..n]), BlockRows(blocks[n], n), k);
      TimesOfBlock(blocks[n], n, k);
    }
  }

  /** Every row of the flattened train is a spike time of the unit its id
      names. */
  lemma {:induction false} FlattenRowsSound(blocks: seq<seq<int>>, p: nat)
    requires p < |Flatten(blocks)|
    ensures var row := Flatten(blocks)[p];
      0 <= row.unit < |blocks| && row.time in blocks[row.unit]
    decreases |blocks|
  {
    var n := |blocks| - 1;
    var front := Flatten(blocks[..n]);
    if p < |front| {
      FlattenRowsSound(blocks[..n], p);
    } else {
      assert Flatten(blocks)[p] == BlockRows(blocks[n], n)[p - |front|];
    }
  }

  /** The train `gather_clustering_result` writes, regrouped by id, gives
      back the spike times of every unit of the kept files in order, and
      nothing for any other id. */
  lemma GatherRegroups<T>(files: seq<ClusterFile<T>>, k: int)
    requires Gather(files).Success?
    ensures var blocks := SpikeIndexes(NonEmpty(files));
      TimesOfId(Gather(files).value.1, k) == if 0 <= k < |blocks| then blocks[k] else []
  {
    FlattenRegroups(SpikeIndexes(NonEmpty(files)), k);
  }
}
