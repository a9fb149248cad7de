/** Performance results and their time slices: lnst/RecipeCommon/Perf/Results.py, over the reals. */
module PerfResults {
  import opened Sequences

  /** `PerfInterval`, `SequentialPerfResult` and `ParallelPerfResult`. */
  datatype Perf =
    | Interval(value: real, duration: real, unit: string, timestamp: real)
    | Sequential(items: seq<Perf>)
    | Parallel(items: seq<Perf>)

  function Max(a: real, b: real): real {
    if a >= b then a else b
  }

  function Min(a: real, b: real): real {
    if a <= b then a else b
  }

  // ---- Properties of results ----

  function Value(p: Perf): real
    decreases p, 1
  {
    if p.Interval? then p.value else SumValues(p.items)
  }

  function SumValues(items: seq<Perf>): real
    decreases items, 0
  {
    if items == [] then 0.0 else Value(items[0]) + SumValues(items[1..])
  }

  /** The unit of a list is that of its first item. */
  function Unit(p: Perf): Option<string> {
    if p.Interval? then Some(p.unit) else if p.items == [] then None else Unit(p.items[0])
  }

  /** Positive durations, no empty lists, and one unit per list, which is what `PerfList` checks. */
  ghost predicate Valid(p: Perf)
    decreases p, 1
  {
    if p.Interval? then p.duration > 0.0
    else p.items != [] && ValidItems(p.items, Unit(p.items[0]))
  }

  ghost predicate ValidItems(items: seq<Perf>, unit: Option<string>)
    decreases items, 0
  {
    items == [] || (Valid(items[0]) && Unit(items[0]) == unit && ValidItems(items[1..], unit))
  }

  function Start(p: Perf): real
    decreases p, 1
  {
    match p
    case Interval(_, _, _, timestamp) => timestamp
    case Sequential(items) => if items == [] then 0.0 else Start(items[0])
    case Parallel(items) => if items == [] then 0.0 else MinStart(items)
  }

  function MinStart(items: seq<Perf>): real
    requires items != []
    decreases items, 0
  {
    if |items| == 1 then Start(items[0]) else Min(Start(items[0]), MinStart(items[1..]))
  }

  function End(p: Perf): real
    decreases p, 1
  {
    match p
    case Interval(_, duration, _, timestamp) => timestamp + duration
    case Sequential(items) => if items == [] then 0.0 else End(items[|items| - 1])
    case Parallel(items) => if items == [] then 0.0 else MaxEnd(items)
  }

  function MaxEnd(items: seq<Perf>): real
    requires items != []
    decreases items, 0
  {
    if |items| == 1 then End(items[0]) else Max(End(items[0]), MaxEnd(items[1..]))
  }

  /** A sequential result lasts as long as its items together, a parallel one from the first start to the last end. */
  function Duration(p: Perf): real
    decreases p, 1
  {
    match p
    case Interval(_, duration, _, _) => duration
    case Sequential(items) => SumDurations(items)
    case Parallel(items) => End(p) - Start(p)
  }

  function SumDurations(items: seq<Perf>): real
    decreases items, 0
  {
    if items == [] then 0.0 else Duration(items[0]) + SumDurations(items[1..])
  }

  // ---- Slicing ----

  /** The value of a part of an interval. */
  function Share(value: real, part: real, whole: real): real
    requires whole != 0.0
  {
    value * (part / whole)
  }

  /** `time_slice`; `None` stands for `EmptySlice`. */
  function Slice(p: Perf, start: real, end: real): Option<Perf>
    decreases p, 1
  {
    match p
    case Interval(value, duration, unit, timestamp) =>
      if end <= timestamp || start >= timestamp + duration || duration == 0.0 then None
      else
        var newStart := Max(timestamp, start);
        var newDuration := Min(timestamp + duration, end) - newStart;
        Some(Interval(Share(value, newDuration, duration), newDuration, unit, newStart))
    case Sequential(items) =>
      var sliced := SliceItems(items, start, end);
      if sliced == [] then None else Some(Sequential(sliced))
    case Parallel(items) =>
      var sliced := SliceItems(items, start, end);
      if sliced == [] then None else Some(Parallel(sliced))
  }

  function Listed(o: Option<Perf>): seq<Perf> {
    if o.Some? then [o.value] else []
  }

  /** The slices of the items that are not empty. */
  function SliceItems(items: seq<Perf>, start: real, end: real): seq<Perf>
    decreases items, 0
  {
    if items == [] then [] else Listed(Slice(items[0], start, end)) + SliceItems(items[1..], start, end)
  }

  // ---- The loop of `PerfList.time_slice`, with the unit check of `append` ----

  datatype Outcome = Sliced(p: Perf) | EmptySlice | UnitError

  /** `append`: refuses an item of another unit than the first one's. */
  method Append(list: seq<Perf>, item: Perf) returns (r: seq<Perf>, ok: bool)
    ensures ok <==> list == [] || Unit(item) == Unit(list[0])
    ensures r == if ok then list + [item] else list
  {
    if |list| > 0 && Unit(item) != Unit(list[0]) { return list, false; }
    return list + [item], true;
  }

  /** The result's own class around the items. */
  function SameKind(p: Perf, items: seq<Perf>): Perf {
    if p.Sequential? then Sequential(items) else Parallel(items)
  }

  method TimeSlice(p: Perf, start: real, end: real) returns (r: Outcome)
    requires Valid(p)
    ensures r == match Slice(p, start, end) case None => EmptySlice case Some(q) => Sliced(q)
    decreases p, 1
  {
    if p.Interval? {
      if end <= p.timestamp || start >= p.timestamp + p.duration { return EmptySlice; }
      var newStart := Max(p.timestamp, start);
      var newEnd := Min(p.timestamp + p.duration, end);
      var newDuration := newEnd - newStart;
      var newValue := Share(p.value, newDuration, p.duration);
      return Sliced(Interval(newValue, newDuration, p.unit, newStart));
    }
    var result, ok := SliceList(p.items, Unit(p.items[0]), start, end);
    return if |result| == 0 then EmptySlice else Sliced(SameKind(p, result));
  }

  lemma SliceItemsStep(items: seq<Perf>, i: nat, start: real, end: real)
    requires i < |items|
    ensures SliceItems(items[i..], start, end) == Listed(Slice(items[i], start, end)) + SliceItems(items[i + 1..], start, end)
  {
    assert items[i..][0] == items[i] && items[i..][1..] == items[i + 1..];
  }

  /** The loop; `append` never rejects an item. */
  method SliceList(items: seq<Perf>, unit: Option<string>, start: real, end: real) returns (result: seq<Perf>, ok: bool)
    requires ValidItems(items, unit)
    ensures ok && result == SliceItems(items, start, end)
    decreases items, 0
  {
    hide Slice, SliceItems, Unit, Valid;
    result, ok := [], true;
    assert items[0..] == items;
    for i := 0 to |items|
      invariant ok && result + SliceItems(items[i..], start, end) == SliceItems(items, start, end)
      invariant result != [] ==> Unit(result[0]) == unit
    {
      ValidItemsAt(items, unit, i);
      SliceItemsStep(items, i, start, end);
      SliceUnit(items[i], start, end);
      var item := TimeSlice(items[i], start, end);
      if item.Sliced? {
        result, ok := Append(result, item.p);
      }
    }
    SliceItemsEnd(items, start, end);
  }

  lemma SliceItemsEnd(items: seq<Perf>, start: real, end: real)
    ensures SliceItems(items[|items|..], start, end) == []
  {
  }

  lemma {:induction false} ValidItemsAt(items: seq<Perf>, unit: Option<string>, i: nat)
    requires ValidItems(items, unit) && i < |items|
    ensures Valid(items[i]) && Unit(items[i]) == unit
    decreases |items|
  {
    if i > 0 {
      ValidItemsAt(items[1..], unit, i - 1);
    }
  }

  /** Unit homogeneity: a slice is a valid result of the same unit, up to zero durations. */
  lemma {:induction false} SliceUnit(p: Perf, start: real, end: real)
    requires Valid(p)
    ensures Slice(p, start, end).Some? ==> Unit(Slice(p, start, end).value) == Unit(p)
    decreases p, 1
  {
    if !p.Interval? {
      SliceItemsUnit(p.items, Unit(p.items[0]), start, end);
    }
  }

  lemma {:induction false} SliceItemsUnit(items: seq<Perf>, unit: Option<string>, start: real, end: real)
    requires ValidItems(items, unit)
    ensures SliceItems(items, start, end) != [] ==> Unit(SliceItems(items, start, end)[0]) == unit
    decreases items, 0
  {
    if items != [] {
      SliceUnit(items[0], start, end);
      SliceItemsUnit(items[1..], unit, start, end);
    }
  }

  lemma {:induction false} ConsValid(x: Perf, rest: seq<Perf>, unit: Option<string>)
    requires Valid(x) && Unit(x) == unit && ValidItems(rest, unit)
    ensures ValidItems([x] + rest, unit)
  {
    assert ([x] + rest)[1..] == rest;
  }

  /** A slice by a proper window is again a valid result. */
  lemma {:induction false} SliceValid(p: Perf, start: real, end: real)
    requires Valid(p) && start < end
    ensures Slice(p, start, end).Some? ==> Valid(Slice(p, start, end).value)
    decreases p, 1
  {
    if !p.Interval? {
      SliceItemsValid(p.items, Unit(p.items[0]), start, end);
      SliceItemsUnit(p.items, Unit(p.items[0]), start, end);
    }
  }

  lemma {:induction false} SliceItemsValid(items: seq<Perf>, unit: Option<string>, start: real, end: real)
    requires ValidItems(items, unit) && start < end
    ensures ValidItems(SliceItems(items, start, end), unit)
    decreases items, 0
  {
    if items != [] {
      SliceValid(items[0], start, end);
      SliceUnit(items[0], start, end);
      SliceItemsValid(items[1..], unit, start, end);
      var s := Slice(items[0], start, end);
      if s.Some? {
        ConsValid(s.value, SliceItems(items[1..], start, end), unit);
      } else {
        assert [] + SliceItems(items[1..], start, end) == SliceItems(items[1..], start, end);
      }
    }
  }

  ghost function LeafValues(leaves: seq<Perf>): real {
    if leaves == [] then 0.0 else (if leaves[0].Interval? then leaves[0].value else 0.0) + LeafValues(leaves[1..])
  }

  lemma {:induction false} LeafValuesAppend(a: seq<Perf>, b: seq<Perf>)
    ensures LeafValues(a + b) == LeafValues(a) + LeafValues(b)
    decreases |a|
  {
    if a == [] {
      assert a + b == b;
    } else {
      LeafValuesAppend(a[1..], b);
      assert (a + b)[0] == a[0] && (a + b)[1..] == a[1..] + b;
    }
  }

  /** The value of a result is the sum of the values measured. */
  lemma {:induction false} ValueIsLeaves(p: Perf)
    ensures Value(p) == LeafValues(Leaves(p))
    decreases p, 1
  {
    if p.Interval? {
      assert Leaves(p) == [p] && [p][1..] == [];
    } else {
      ValuesAreLeaves(p.items);
    }
  }

  lemma {:induction false} ValuesAreLeaves(items: seq<Perf>)
    ensures SumValues(items) == LeafValues(LeavesOf(items))
    decreases items, 0
  {
    if items != [] {
      ValueIsLeaves(items[0]);
      ValuesAreLeaves(items[1..]);
      LeafValuesAppend(Leaves(items[0]), LeavesOf(items[1..]));
    }
  }

  // ---- Conservation ----

  /** The value of a slice; an empty one counts zero. */
  function SliceValue(o: Option<Perf>): real {
    if o.Some? then Value(o.value) else 0.0
  }

  lemma SumAppend(a: seq<Perf>, b: seq<Perf>)
    ensures SumValues(a + b) == SumValues(a) + SumValues(b)
  {
    if a == [] {
      assert a + b == b;
    } else {
      SumAppend(a[1..], b);
      assert (a + b)[0] == a[0] && (a + b)[1..] == a[1..] + b;
    }
  }

  lemma Proportional(v: real, d: real, a: real, b: real)
    requires d > 0.0
    ensures v * (a / d) + v * (b / d) == v * ((a + b) / d)
  {
    assert a / d + b / d == (a + b) / d;
  }

  function Overlap(p: Perf, s: real, e: real): real
    requires p.Interval?
  {
    Max(0.0, Min(p.timestamp + p.duration, e) - Max(p.timestamp, s))
  }

  lemma OverlapAdds(p: Perf, s: real, t: real, e: real)
    requires p.Interval? && p.duration > 0.0 && s <= t <= e
    ensures Overlap(p, s, t) + Overlap(p, t, e) == Overlap(p, s, e)
  {
  }

  /** An interval's slice has the share of the value that the overlap has of the duration. */
  lemma IntervalSliceValue(p: Perf, s: real, e: real)
    requires p.Interval? && p.duration > 0.0 && s <= e
    ensures SliceValue(Slice(p, s, e)) == Share(p.value, Overlap(p, s, e), p.duration)
  {
    if Slice(p, s, e).None? {
      assert Overlap(p, s, e) == 0.0;
      assert 0.0 / p.duration == 0.0;
    } else {
      hide Share;
      assert Overlap(p, s, e) == Slice(p, s, e).value.duration;
    }
  }

  lemma IntervalConserved(p: Perf, s: real, t: real, e: real)
    requires p.Interval? && p.duration > 0.0 && s <= t <= e
    ensures SliceValue(Slice(p, s, t)) + SliceValue(Slice(p, t, e)) == SliceValue(Slice(p, s, e))
  {
    hide Slice, Overlap;
    IntervalSliceValue(p, s, t);
    IntervalSliceValue(p, t, e);
    IntervalSliceValue(p, s, e);
    OverlapAdds(p, s, t, e);
    Proportional(p.value, p.duration, Overlap(p, s, t), Overlap(p, t, e));
  }

  /** Cutting a window in two cuts the value of the slice in two, for every tree of results. */
  lemma {:induction false} SliceConserved(p: Perf, s: real, t: real, e: real)
    requires Valid(p) && s <= t <= e
    ensures SliceValue(Slice(p, s, t)) + SliceValue(Slice(p, t, e)) == SliceValue(Slice(p, s, e))
    decreases p, 1
  {
    if p.Interval? {
      IntervalConserved(p, s, t, e);
    } else {
      ItemsConserved(p.items, Unit(p.items[0]), s, t, e);
      assert SumValues([]) == 0.0;
    }
  }

  lemma {:induction false} ItemsConserved(items: seq<Perf>, unit: Option<string>, s: real, t: real, e: real)
    requires ValidItems(items, unit) && s <= t <= e
    ensures SumValues(SliceItems(items, s, t)) + SumValues(SliceItems(items, t, e)) == SumValues(SliceItems(items, s, e))
    decreases items, 0
  {
    if items != [] {
      SliceConserved(items[0], s, t, e);
      ItemsConserved(items[1..], unit, s, t, e);
      ListedSum(items, s, t);
      ListedSum(items, t, e);
      ListedSum(items, s, e);
    }
  }

  lemma ListedSum(items: seq<Perf>, s: real, e: real)
    requires items != []
    ensures SumValues(SliceItems(items, s, e)) == SliceValue(Slice(items[0], s, e)) + SumValues(SliceItems(items[1..], s, e))
  {
    SumAppend(Listed(Slice(items[0], s, e)), SliceItems(items[1..], s, e));
    var l := Listed(Slice(items[0], s, e));
    if l != [] {
      assert l[1..] == [] && SumValues(l) == Value(l[0]);
    }
  }

  /** Every interval of the result lies in the window. */
  ghost predicate Inside(p: Perf, s: real, e: real)
    decreases p, 1
  {
    if p.Interval? then s <= p.timestamp && End(p) <= e else InsideItems(p.items, s, e)
  }

  ghost predicate InsideItems(items: seq<Perf>, s: real, e: real)
    decreases items, 0
  {
    items == [] || (Inside(items[0], s, e) && InsideItems(items[1..], s, e))
  }

  lemma ShareOfAll(v: real, d: real)
    requires d != 0.0
    ensures Share(v, d, d) == v
  {
    assert d / d == 1.0;
  }

  /** A window that covers the whole result keeps it as it is, and with it its value. */
  lemma {:induction false} CoveringSlice(p: Perf, s: real, e: real)
    requires Valid(p) && Inside(p, s, e)
    ensures Slice(p, s, e) == Some(p)
    decreases p, 1
  {
    hide Share;
    if p.Interval? {
      ShareOfAll(p.value, p.duration);
    } else {
      CoveringItems(p.items, Unit(p.items[0]), s, e);
    }
  }

  lemma {:induction false} CoveringItems(items: seq<Perf>, unit: Option<string>, s: real, e: real)
    requires ValidItems(items, unit) && InsideItems(items, s, e)
    ensures SliceItems(items, s, e) == items
    decreases items, 0
  {
    if items != [] {
      CoveringSlice(items[0], s, e);
      CoveringItems(items[1..], unit, s, e);
    }
  }

  // ---- Slicing twice ----

  function SliceAgain(o: Option<Perf>, start: real, end: real): Option<Perf> {
    if o.Some? then Slice(o.value, start, end) else None
  }

  lemma Rescale(v: real, d: real, nd: real, nd2: real)
    requires d > 0.0 && nd > 0.0
    ensures Share(Share(v, nd, d), nd2, nd) == Share(v, nd2, d)
  {
    assert (nd / d) * (nd2 / nd) == nd2 / d;
  }

  /** The three cases of an interval of positive length. */
  lemma SliceOfInterval(p: Perf, s: real, e: real)
    requires p.Interval? && p.duration > 0.0
    ensures Slice(p, s, e) ==
            if e <= p.timestamp || s >= p.timestamp + p.duration then None
            else
              var start := Max(p.timestamp, s);
              var d := Min(p.timestamp + p.duration, e) - start;
              Some(Interval(Share(p.value, d, p.duration), d, p.unit, start))
  {
  }

  /** How the bounds of two windows that meet combine over an interval `[t, u)`. */
  lemma Windows(t: real, u: real, s: real, e: real, s': real, e': real)
    requires t < u && Max(s, s') < Min(e, e')
    ensures Min(e, e') <= t || Max(s, s') >= u <==>
            e <= t || s >= u || e' <= Max(t, s) || s' >= Min(u, e)
    ensures e > t && s < u ==> Max(t, s) < Min(u, e)
    ensures Max(Max(t, s), s') == Max(t, Max(s, s'))
    ensures Min(Min(u, e), e') == Min(u, Min(e, e'))
  {
  }

  lemma IntervalSlicedTwiceTimes(p: Perf, s: real, e: real, s': real, e': real)
    requires p.Interval? && p.duration > 0.0 && Max(s, s') < Min(e, e')
    ensures var once := Slice(p, s, e);
            var twice := SliceAgain(once, s', e');
            var direct := Slice(p, Max(s, s'), Min(e, e'));
            if direct.None? then twice.None?
            else
              && once.Some? && twice.Some? && once.value.Interval? && twice.value.Interval? && direct.value.Interval?
              && twice.value == direct.value.(value := twice.value.value)
              && once.value.duration > 0.0
              && once.value.value == Share(p.value, once.value.duration, p.duration)
              && twice.value.value == Share(once.value.value, twice.value.duration, once.value.duration)
              && direct.value.value == Share(p.value, direct.value.duration, p.duration)
  {
    hide Share, Slice, Max, Min;
    var end := p.timestamp + p.duration;
    Windows(p.timestamp, end, s, e, s', e');
    SliceOfInterval(p, s, e);
    SliceOfInterval(p, Max(s, s'), Min(e, e'));
    if Slice(p, s, e).Some? {
      var x := Slice(p, s, e).value;
      assert x.timestamp + x.duration == Min(end, e);
      SliceOfInterval(x, s', e');
    }
  }

  lemma IntervalSlicedTwice(p: Perf, s: real, e: real, s': real, e': real)
    requires p.Interval? && p.duration > 0.0 && Max(s, s') < Min(e, e')
    ensures SliceAgain(Slice(p, s, e), s', e') == Slice(p, Max(s, s'), Min(e, e'))
  {
    hide Slice, SliceAgain, Share;
    IntervalSlicedTwiceTimes(p, s, e, s', e');
    var once, twice := Slice(p, s, e), SliceAgain(Slice(p, s, e), s', e');
    if twice.Some? && once.Some? && once.value.Interval? && twice.value.Interval? && once.value.duration > 0.0 {
      Rescale(p.value, p.duration, once.value.duration, twice.value.duration);
    }
  }

  /** Slicing twice is slicing by the intersection of the windows, if there is one. */
  lemma {:induction false} SlicedTwice(p: Perf, s: real, e: real, s': real, e': real)
    requires Valid(p) && Max(s, s') < Min(e, e')
    ensures SliceAgain(Slice(p, s, e), s', e') == Slice(p, Max(s, s'), Min(e, e'))
    decreases p, 1
  {
    if p.Interval? {
      IntervalSlicedTwice(p, s, e, s', e');
    } else {
      ItemsSlicedTwice(p.items, Unit(p.items[0]), s, e, s', e');
    }
  }

  lemma {:induction false} ItemsSlicedTwice(items: seq<Perf>, unit: Option<string>, s: real, e: real, s': real, e': real)
    requires ValidItems(items, unit) && Max(s, s') < Min(e, e')
    ensures SliceItems(SliceItems(items, s, e), s', e') == SliceItems(items, Max(s, s'), Min(e, e'))
    decreases items, 0
  {
    if items != [] {
      SlicedTwice(items[0], s, e, s', e');
      ItemsSlicedTwice(items[1..], unit, s, e, s', e');
      var o := Slice(items[0], s, e);
      var rest := SliceItems(items[1..], s, e);
      if o.Some? {
        assert ([o.value] + rest)[0] == o.value && ([o.value] + rest)[1..] == rest;
      } else {
        assert [] + rest == rest;
      }
    }
  }

  // ---- Leaves ----

  function Leaves(p: Perf): seq<Perf>
    decreases p, 1
  {
    if p.Interval? then [p] else LeavesOf(p.items)
  }

  function LeavesOf(items: seq<Perf>): seq<Perf>
    decreases items, 0
  {
    if items == [] then [] else Leaves(items[0]) + LeavesOf(items[1..])
  }

  function Average(p: Perf): real {
    if p.Interval? && p.duration != 0.0 then p.value / p.duration else 0.0
  }

  /** Leaf `x` is the part of leaf `y` in the window, at the same rate. */
  ghost predicate PartInWindow(x: Perf, y: Perf, s: real, e: real) {
    && x.Interval? && y.Interval?
    && x.timestamp == Max(y.timestamp, s) && End(x) == Min(End(y), e)
    && s <= x.timestamp && End(x) <= e
    && Average(x) == Average(y) && x.unit == y.unit
  }

  /** A slice is empty exactly when no leaf reaches over both bounds of the window. */
  lemma {:induction false} EmptySliceIff(p: Perf, s: real, e: real)
    requires Valid(p)
    ensures Slice(p, s, e) == None <==> forall x :: x in Leaves(p) ==> e <= Start(x) || s >= End(x)
    decreases p, 1
  {
    if p.Interval? {
      SliceOfInterval(p, s, e);
      assert Leaves(p) == [p] && p in Leaves(p);
    } else {
      EmptyItemsIff(p.items, Unit(p.items[0]), s, e);
    }
  }

  lemma {:induction false} EmptyItemsIff(items: seq<Perf>, unit: Option<string>, s: real, e: real)
    requires ValidItems(items, unit)
    ensures SliceItems(items, s, e) == [] <==> forall x :: x in LeavesOf(items) ==> e <= Start(x) || s >= End(x)
    decreases items, 0
  {
    if items != [] {
      EmptySliceIff(items[0], s, e);
      EmptyItemsIff(items[1..], unit, s, e);
      assert forall x :: x in LeavesOf(items) <==> x in Leaves(items[0]) || x in LeavesOf(items[1..]);
    }
  }

  /**
    For windows that do not meet, slicing twice is always empty; slicing by the crossed-over bounds
    is empty, too, exactly when no leaf reaches over both of them.
   */
  lemma DisjointWindows(p: Perf, s: real, e: real, s': real, e': real)
    requires Valid(p) && s < e && s' < e' && Max(s, s') >= Min(e, e')
    ensures SliceAgain(Slice(p, s, e), s', e') == None
    ensures Slice(p, Max(s, s'), Min(e, e')) == None <==>
            forall x :: x in Leaves(p) ==> Min(e, e') <= Start(x) || Max(s, s') >= End(x)
  {
    SlicedTwiceApart(p, s, e, s', e');
    EmptySliceIff(p, Max(s, s'), Min(e, e'));
  }

  lemma IntervalSlicedApart(p: Perf, s: real, e: real, s': real, e': real)
    requires p.Interval? && p.duration > 0.0 && s < e && s' < e' && Max(s, s') >= Min(e, e')
    ensures SliceAgain(Slice(p, s, e), s', e') == None
  {
  }

  lemma {:induction false} SlicedTwiceApart(p: Perf, s: real, e: real, s': real, e': real)
    requires Valid(p) && s < e && s' < e' && Max(s, s') >= Min(e, e')
    ensures SliceAgain(Slice(p, s, e), s', e') == None
    decreases p, 1
  {
    if p.Interval? {
      IntervalSlicedApart(p, s, e, s', e');
    } else {
      ItemsSlicedApart(p.items, Unit(p.items[0]), s, e, s', e');
    }
  }

  lemma {:induction false} ItemsSlicedApart(items: seq<Perf>, unit: Option<string>, s: real, e: real, s': real, e': real)
    requires ValidItems(items, unit) && s < e && s' < e' && Max(s, s') >= Min(e, e')
    ensures SliceItems(SliceItems(items, s, e), s', e') == []
    decreases items, 0
  {
    if items != [] {
      SlicedTwiceApart(items[0], s, e, s', e');
      ItemsSlicedApart(items[1..], unit, s, e, s', e');
      var o := Slice(items[0], s, e);
      var rest := SliceItems(items[1..], s, e);
      if o.Some? {
        assert ([o.value] + rest)[0] == o.value && ([o.value] + rest)[1..] == rest;
      } else {
        assert [] + rest == rest;
      }
    }
  }

  lemma SameRate(v: real, nd: real, d: real)
    requires d > 0.0 && nd > 0.0
    ensures (v * (nd / d)) / nd == v / d
  {
    assert v * (nd / d) == (v / d) * nd;
  }

  /** Every leaf of a slice is the part of a leaf of the result that lies in the window. */
  lemma {:induction false} SliceLeaves(p: Perf, s: real, e: real, x: Perf) returns (y: Perf)
    requires Valid(p) && s < e && Slice(p, s, e).Some? && x in Leaves(Slice(p, s, e).value)
    ensures y in Leaves(p) && PartInWindow(x, y, s, e)
    decreases p, 1
  {
    if p.Interval? {
      y := p;
      SameRate(p.value, x.duration, p.duration);
    } else {
      y := SliceLeavesOf(p.items, Unit(p.items[0]), s, e, x);
    }
  }

  lemma {:induction false} LeavesSplit(a: seq<Perf>, b: seq<Perf>)
    ensures LeavesOf(a + b) == LeavesOf(a) + LeavesOf(b)
    decreases |a|
  {
    if a == [] {
      assert a + b == b;
    } else {
      LeavesSplit(a[1..], b);
      assert (a + b)[0] == a[0] && (a + b)[1..] == a[1..] + b;
    }
  }

  lemma {:induction false} SliceLeavesOf(items: seq<Perf>, unit: Option<string>, s: real, e: real, x: Perf) returns (y: Perf)
    requires ValidItems(items, unit) && s < e && x in LeavesOf(SliceItems(items, s, e))
    ensures y in LeavesOf(items) && PartInWindow(x, y, s, e)
    decreases items, 0
  {
    var o := Slice(items[0], s, e);
    LeavesSplit(Listed(o), SliceItems(items[1..], s, e));
    if x in LeavesOf(SliceItems(items[1..], s, e)) {
      y := SliceLeavesOf(items[1..], unit, s, e, x);
    } else {
      assert Listed(o)[1..] == [];
      y := SliceLeaves(items[0], s, e, x);
    }
  }

  // ---- Gap-free results ----

  /**
    Each item of a sequential result starts where the one before it ended, and the items of a parallel
    one leave no time between its start and its end uncovered.
   */
  ghost predicate GapFree(p: Perf)
    decreases p, 1
  {
    match p
    case Interval(_, _, _, _) => true
    case Sequential(items) => Chained(items)
    case Parallel(items) => AllGapFree(items) && Covered(items)
  }

  ghost predicate AllGapFree(items: seq<Perf>)
    decreases items, 0
  {
    items == [] || (GapFree(items[0]) && AllGapFree(items[1..]))
  }

  /** An item is under way from time `t` on. */
  ghost predicate From(items: seq<Perf>, t: real) {
    exists x :: x in items && Start(x) <= t < End(x)
  }

  /** An item is under way up to time `t`. */
  ghost predicate UpTo(items: seq<Perf>, t: real) {
    exists x :: x in items && Start(x) < t <= End(x)
  }

  /** Around every point of time an item is under way, up to it and from it on. */
  ghost predicate Covered(items: seq<Perf>) {
    items != [] ==>
      && (forall t: real :: MinStart(items) <= t < MaxEnd(items) ==> From(items, t))
      && (forall t: real :: MinStart(items) < t <= MaxEnd(items) ==> UpTo(items, t))
  }

  ghost predicate Chained(items: seq<Perf>)
    decreases items, 0
  {
    items == [] ||
    (GapFree(items[0]) && Chained(items[1..]) && (|items| > 1 ==> End(items[0]) == Start(items[1])))
  }

  /** A gap-free result lasts from its start to its end, and it does last. */
  lemma {:induction false} GapFreeDuration(p: Perf)
    requires Valid(p) && GapFree(p)
    ensures Duration(p) == End(p) - Start(p) && Start(p) < End(p)
    decreases p, 1
  {
    if p.Sequential? {
      ChainedDuration(p.items, Unit(p.items[0]));
    } else if p.Parallel? {
      GapFreeDuration(p.items[0]);
      Extremes(p.items, p.items[0]);
    }
  }

  /** The time between consecutive items of sequential results, on all levels down to the next parallel result; negative where they overlap. */
  ghost function Gaps(p: Perf): real
    decreases p, 1
  {
    if p.Sequential? then GapsOf(p.items) else 0.0
  }

  ghost function GapsOf(items: seq<Perf>): real
    decreases items, 0
  {
    if items == [] then 0.0
    else Gaps(items[0]) + (if |items| > 1 then Start(items[1]) - End(items[0]) else 0.0) + GapsOf(items[1..])
  }

  /** Gaps do not count: a result lasts from its start to its end, less the gaps in it. */
  lemma {:induction false} DurationWithGaps(p: Perf)
    requires Valid(p)
    ensures Duration(p) == End(p) - Start(p) - Gaps(p)
    decreases p, 1
  {
    if p.Sequential? {
      DurationsWithGaps(p.items, Unit(p.items[0]));
    }
  }

  lemma {:induction false} DurationsWithGaps(items: seq<Perf>, unit: Option<string>)
    requires items != [] && ValidItems(items, unit)
    ensures SumDurations(items) == End(items[|items| - 1]) - Start(items[0]) - GapsOf(items)
    decreases items, 0
  {
    DurationWithGaps(items[0]);
    if |items| > 1 {
      DurationsWithGaps(items[1..], unit);
    } else {
      assert items[1..] == [];
    }
  }

  /** The start of a parallel result is the least, its end the greatest. */
  lemma {:induction false} Extremes(items: seq<Perf>, x: Perf)
    requires x in items
    ensures MinStart(items) <= Start(x) && End(x) <= MaxEnd(items)
    decreases |items|
  {
    if x != items[0] {
      Extremes(items[1..], x);
    }
  }

  lemma {:induction false} ExtremesMet(items: seq<Perf>) returns (x: Perf, y: Perf)
    requires items != []
    ensures x in items && Start(x) == MinStart(items)
    ensures y in items && End(y) == MaxEnd(items)
    decreases |items|
  {
    if |items| == 1 {
      x, y := items[0], items[0];
    } else {
      x, y := ExtremesMet(items[1..]);
      if Start(items[0]) <= MinStart(items[1..]) { x := items[0]; }
      if End(items[0]) >= MaxEnd(items[1..]) { y := items[0]; }
    }
  }

  lemma {:induction false} ChainedDuration(items: seq<Perf>, unit: Option<string>)
    requires items != [] && ValidItems(items, unit) && Chained(items)
    ensures SumDurations(items) == End(items[|items| - 1]) - Start(items[0]) && Start(items[0]) < End(items[|items| - 1])
    decreases items, 0
  {
    GapFreeDuration(items[0]);
    if |items| > 1 {
      ChainedDuration(items[1..], unit);
    } else {
      assert items[1..] == [];
    }
  }

  /** What a slice of a chain looks like: a chain from the later start to the earlier end, or nothing. */
  ghost predicate ChainSlice(r: seq<Perf>, start: real, end: real, s: real, e: real) {
    if e <= start || s >= end then r == []
    else r != [] && Chained(r) && Start(r[0]) == Max(start, s) && End(r[|r| - 1]) == Min(end, e)
  }

  lemma {:induction false} GapFreeSlice(p: Perf, s: real, e: real)
    requires Valid(p) && GapFree(p) && s < e
    ensures ChainSlice(Listed(Slice(p, s, e)), Start(p), End(p), s, e)
    decreases p, 1
  {
    if p.Sequential? {
      ChainedSlice(p.items, Unit(p.items[0]), s, e);
    } else if p.Parallel? {
      ItemSlices(p.items, Unit(p.items[0]), s, e);
      CoveredSlice(p.items, s, e);
    }
    var r := Listed(Slice(p, s, e));
    if r != [] {
      assert GapFree(r[0]);
      assert r[1..] == [] && Chained(r[1..]);
    }
  }

  /** Every gap-free item is sliced as a chain is. */
  lemma {:induction false} ItemSlices(items: seq<Perf>, unit: Option<string>, s: real, e: real)
    requires ValidItems(items, unit) && AllGapFree(items) && s < e
    ensures AllGapFree(SliceItems(items, s, e))
    ensures forall x :: x in items ==> Start(x) < End(x) && ChainSlice(Listed(Slice(x, s, e)), Start(x), End(x), s, e)
    decreases items, 0
  {
    if items != [] {
      GapFreeSlice(items[0], s, e);
      GapFreeDuration(items[0]);
      ItemSlices(items[1..], unit, s, e);
      var o, rest := Listed(Slice(items[0], s, e)), SliceItems(items[1..], s, e);
      if o == [] {
        assert o + rest == rest;
      } else {
        assert o == [o[0]] && ([o[0]] + rest)[1..] == rest;
      }
    }
  }

  lemma {:induction false} SliceMember(items: seq<Perf>, s: real, e: real, x: Perf)
    requires x in items && Slice(x, s, e).Some?
    ensures Slice(x, s, e).value in SliceItems(items, s, e)
    decreases |items|
  {
    if x != items[0] {
      SliceMember(items[1..], s, e, x);
    } else {
      assert Listed(Slice(x, s, e))[0] == Slice(x, s, e).value;
    }
  }

  lemma {:induction false} SliceOrigin(items: seq<Perf>, s: real, e: real, y: Perf) returns (x: Perf)
    requires y in SliceItems(items, s, e)
    ensures x in items && Slice(x, s, e) == Some(y)
    decreases |items|
  {
    if y in SliceItems(items[1..], s, e) {
      x := SliceOrigin(items[1..], s, e, y);
    } else {
      x := items[0];
    }
  }

  /** The slices of items that are sliced as chains are. */
  ghost predicate AllSliced(items: seq<Perf>, s: real, e: real) {
    forall x :: x in items ==> Start(x) < End(x) && ChainSlice(Listed(Slice(x, s, e)), Start(x), End(x), s, e)
  }

  /** An item that is under way at a time within the window has a slice that is, too. */
  lemma SliceUnderWay(items: seq<Perf>, s: real, e: real, x: Perf)
    requires AllSliced(items, s, e) && x in items && Start(x) < e && s < End(x)
    ensures Slice(x, s, e).Some? && Slice(x, s, e).value in SliceItems(items, s, e)
    ensures Start(Slice(x, s, e).value) == Max(Start(x), s) && End(Slice(x, s, e).value) == Min(End(x), e)
  {
    hide Slice, SliceItems, Start, End;
    SliceMember(items, s, e, x);
  }

  lemma SliceBounds(items: seq<Perf>, s: real, e: real, y: Perf)
    requires AllSliced(items, s, e) && y in SliceItems(items, s, e)
    ensures Start(y) >= Max(MinStart(items), s) && End(y) <= Min(MaxEnd(items), e)
    ensures MinStart(items) < e && s < MaxEnd(items)
  {
    hide Slice, SliceItems, Start, End, MinStart, MaxEnd;
    var x := SliceOrigin(items, s, e, y);
    Extremes(items, x);
  }

  lemma CoveredSlice(items: seq<Perf>, s: real, e: real)
    requires items != [] && Covered(items) && AllSliced(items, s, e) && s < e
    ensures var r := SliceItems(items, s, e);
            if e <= MinStart(items) || s >= MaxEnd(items) then r == []
            else r != [] && Covered(r) && MinStart(r) == Max(MinStart(items), s) && MaxEnd(r) == Min(MaxEnd(items), e)
  {
    hide Slice, SliceItems, Start, End, MinStart, MaxEnd;
    var r := SliceItems(items, s, e);
    if r != [] {
      SliceBounds(items, s, e, r[0]);
    }
    Extremes(items, items[0]);
    if MinStart(items) < e && s < MaxEnd(items) {
      ParallelStart(items, s, e);
      ParallelEnd(items, s, e);
      var lo, hi := Max(MinStart(items), s), Min(MaxEnd(items), e);
      forall t: real | lo <= t < hi ensures From(r, t) {
        assert From(items, t);
        var x :| x in items && Start(x) <= t < End(x);
        SliceUnderWay(items, s, e, x);
      }
      forall t: real | lo < t <= hi ensures UpTo(r, t) {
        assert UpTo(items, t);
        var x :| x in items && Start(x) < t <= End(x);
        SliceUnderWay(items, s, e, x);
      }
    }
  }

  /** A slice of a gap-free parallel result covers the time from the later start to the earlier end, or is empty. */
  lemma ParallelSlice(items: seq<Perf>, s: real, e: real)
    requires Valid(Parallel(items)) && GapFree(Parallel(items)) && s < e
    ensures if e <= MinStart(items) || s >= MaxEnd(items) then Slice(Parallel(items), s, e) == None
            else
              && Slice(Parallel(items), s, e).Some? && GapFree(Slice(Parallel(items), s, e).value)
              && Start(Slice(Parallel(items), s, e).value) == Max(MinStart(items), s)
              && End(Slice(Parallel(items), s, e).value) == Min(MaxEnd(items), e)
  {
    ItemSlices(items, Unit(items[0]), s, e);
    CoveredSlice(items, s, e);
  }

  lemma ParallelStart(items: seq<Perf>, s: real, e: real)
    requires items != [] && Covered(items) && AllSliced(items, s, e) && s < e
    requires MinStart(items) < e && s < MaxEnd(items) && MinStart(items) < MaxEnd(items)
    ensures var r := SliceItems(items, s, e); r != [] && MinStart(r) == Max(MinStart(items), s)
  {
    hide Slice, SliceItems, Start, End, MinStart, MaxEnd;
    var t := Max(MinStart(items), s);
    assert From(items, t);
    var x :| x in items && Start(x) <= t < End(x);
    Extremes(items, x);
    SliceUnderWay(items, s, e, x);
    var r := SliceItems(items, s, e);
    Extremes(r, Slice(x, s, e).value);
    var y, _ := ExtremesMet(r);
    SliceBounds(items, s, e, y);
  }

  lemma ParallelEnd(items: seq<Perf>, s: real, e: real)
    requires items != [] && Covered(items) && AllSliced(items, s, e) && s < e
    requires MinStart(items) < e && s < MaxEnd(items) && MinStart(items) < MaxEnd(items)
    ensures var r := SliceItems(items, s, e); r != [] && MaxEnd(r) == Min(MaxEnd(items), e)
  {
    hide Slice, SliceItems, Start, End, MinStart, MaxEnd;
    var t := Min(MaxEnd(items), e);
    assert UpTo(items, t);
    var x :| x in items && Start(x) < t <= End(x);
    Extremes(items, x);
    SliceUnderWay(items, s, e, x);
    var r := SliceItems(items, s, e);
    Extremes(r, Slice(x, s, e).value);
    var _, y := ExtremesMet(r);
    SliceBounds(items, s, e, y);
  }

  lemma ChainJoin(a: Perf, b: seq<Perf>)
    requires GapFree(a) && Chained(b) && (b != [] ==> End(a) == Start(b[0]))
    ensures Chained([a] + b)
  {
    assert ([a] + b)[1..] == b;
  }

  lemma {:induction false} ChainedSlice(items: seq<Perf>, unit: Option<string>, s: real, e: real)
    requires items != [] && ValidItems(items, unit) && Chained(items) && s < e
    ensures ChainSlice(SliceItems(items, s, e), Start(items[0]), End(items[|items| - 1]), s, e)
    decreases items, 0
  {
    GapFreeSlice(items[0], s, e);
    GapFreeDuration(items[0]);
    var first := Listed(Slice(items[0], s, e));
    if |items| == 1 {
      assert SliceItems(items[1..], s, e) == [] && first + [] == first;
    } else {
      ChainedSlice(items[1..], unit, s, e);
      ChainedDuration(items[1..], unit);
      var rest := SliceItems(items[1..], s, e);
      if first == [] {
        assert first + rest == rest;
      } else {
        ChainJoin(first[0], rest);
        assert first == [first[0]];
        if rest == [] { assert first + rest == first; }
      }
    }
  }

  /** With the window inside a gap-free result, the slice starts, ends and lasts exactly as the window does. */
  lemma GapFreeWindow(p: Perf, s: real, e: real)
    requires Valid(p) && GapFree(p) && s < e && Start(p) <= s && e <= End(p)
    ensures Slice(p, s, e).Some?
    ensures var q := Slice(p, s, e).value; Start(q) == s && End(q) == e && Duration(q) == e - s
  {
    GapFreeDuration(p);
    GapFreeSlice(p, s, e);
    SliceValid(p, s, e);
    GapFreeDuration(Slice(p, s, e).value);
  }
}
