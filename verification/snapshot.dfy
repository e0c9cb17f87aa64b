/** Snapshot construction (`ColorsPerDay`, src/responses/mapvideo.ts): every
    region's trailing 7-day case sum from the seventh day on, its colour, and
    the per-day minimum / average / maximum over all regions.

    The nested loops of the source (regions, then days) are modelled as one
    flat sequence of contributions folded in the same order. Incidence
    (`sum / population * 100000`, floating point in the source) is an opaque
    function of the sum and the population, exact `real` arithmetic stands
    in for the average, and `getColorForValue` is an opaque colour lookup. */
module Snapshot {
  import opened Wrappers
  import StateCodes
  import Text

  /** A day, as a day number (the source uses ISO date strings). */
  type Date = int

  /** A fill colour. */
  type Color = string

  /** The two kinds of map the pipeline serves. */
  datatype Region = Districts | States

  /** A key of one day's entry in a snapshot: a region id, or one of the
      three aggregate entries `min`, `avg`, `max`. */
  datatype SlotKey = RegionSlot(id: string) | MinSlot | AvgSlot | MaxSlot

  /** One day of a snapshot: the colour under each key. */
  type DayColors = map<SlotKey, Color>

  /** A snapshot: the classification of every known day. */
  type ColorSnapshot = map<Date, DayColors>

  /** New cases of one region on one day. */
  datatype DayCases = DayCases(date: Date, cases: int)

  /** The case history of one region under its upstream key (district AGS or
      state abbreviation), with the population the source looks up for it. */
  datatype RegionHistory = RegionHistory(key: string, population: int, history: seq<DayCases>)

  /** The source's inner loop `for (dayOffset = offset; dayOffset > stop; dayOffset--)`
      summing the cases. */
  function SumDown(h: seq<DayCases>, offset: int, stop: int): int
    requires -1 <= stop <= offset < |h|
    decreases offset - stop
  {
    if offset == stop then 0 else h[offset].cases + SumDown(h, offset - 1, stop)
  }

  /** The trailing 7-day case sum ending at index `i`. */
  function WeekSum(h: seq<DayCases>, i: int): int
    requires 6 <= i < |h|
  {
    SumDown(h, i, i - 7)
  }

  /** The total number of cases in `s` (reference definition). */
  function CasesSum(s: seq<DayCases>): int {
    if |s| == 0 then 0 else CasesSum(s[..|s| - 1]) + s[|s| - 1].cases
  }

  lemma {:induction false} SumDownIsWindow(h: seq<DayCases>, offset: int, stop: int)
    requires -1 <= stop <= offset < |h|
    ensures SumDown(h, offset, stop) == CasesSum(h[stop + 1..offset + 1])
    decreases offset - stop
  {
    if offset > stop {
      SumDownIsWindow(h, offset - 1, stop);
      assert h[stop + 1..offset + 1][..offset - stop - 1] == h[stop + 1..offset];
    }
  }

  /** The day's sum is exactly `cases[i-6] + ... + cases[i]`. */
  lemma WeekSumIsWindow(h: seq<DayCases>, i: int)
    requires 6 <= i < |h|
    ensures WeekSum(h, i) == CasesSum(h[i - 6..i + 1])
    ensures |h[i - 6..i + 1]| == 7
  {
    SumDownIsWindow(h, i, i - 7);
  }

  /** The key a region's entries are stored under (`keyToUse`): the AGS for
      districts; for states the id of the abbreviation as a decimal string,
      `None` where the source would call `toString` on `null` and throw. */
  function SlotId(region: Region, key: string): Option<string> {
    match region
    case Districts => Some(key)
    case States =>
      match StateCodes.IdByAbbreviation(key)
      case Some(id) => Some(Text.NatToString(id))
      case None => None
  }

  /** District keys are used as they are; a state key resolves exactly when
      it is one of the sixteen abbreviations. */
  lemma SlotIdDefined(region: Region, key: string)
    ensures region == Districts ==> SlotId(region, key) == Some(key)
    ensures region == States ==> (SlotId(region, key).Some? <==> key in StateCodes.Codes)
  {
    StateCodes.IdDefinedExactlyForCodes(key);
  }

  /** The source throws a `TypeError` for a state key that is not one of the
      sixteen abbreviations. */
  datatype ClassifyError = UnknownStateKey(key: string)

  /** The regions with their keys replaced by the keys their entries use;
      the first region whose key cannot be resolved is reported. */
  function ResolveSlots(region: Region, regions: seq<RegionHistory>): (r: Result<seq<RegionHistory>, ClassifyError>)
    ensures r.Success? <==> forall i :: 0 <= i < |regions| ==> SlotId(region, regions[i].key).Some?
    ensures r.Success? ==> |r.value| == |regions| && forall i :: 0 <= i < |regions| ==>
      r.value[i] == regions[i].(key := SlotId(region, regions[i].key).value)
  {
    if |regions| == 0 then Success([])
    else
      var prefix := regions[..|regions| - 1];
      var last := regions[|regions| - 1];
      var rest := ResolveSlots(region, prefix);
      assert forall i :: 0 <= i < |prefix| ==> prefix[i] == regions[i];
      if rest.Failure? then rest
      else
        match SlotId(region, last.key)
        case None => Failure(UnknownStateKey(last.key))
        case Some(id) =>
          var r := rest.value + [last.(key := id)];
          assert forall i :: 0 <= i < |prefix| ==> r[i] == rest.value[i];
          Success(r)
  }

  /** One region's value on one day, as the inner loop produces it. */
  datatype Contribution = Contribution(slot: string, date: Date, incidence: real)

  /** The contributions of one region: one for each index from 6 on, none
      for the first six entries. */
  function RegionContributions(r: RegionHistory, incidence: (int, int) -> real): (cs: seq<Contribution>)
    ensures |cs| == if |r.history| <= 6 then 0 else |r.history| - 6
    ensures forall j :: 0 <= j < |cs| ==>
      && cs[j].slot == r.key
      && cs[j].date == r.history[j + 6].date
      && cs[j].incidence == incidence(WeekSum(r.history, j + 6), r.population)
  {
    if |r.history| <= 6 then []
    else
      seq(|r.history| - 6, j requires 0 <= j < |r.history| - 6 =>
        Contribution(r.key, r.history[j + 6].date, incidence(WeekSum(r.history, j + 6), r.population)))
  }

  /** The concatenation of `f(x)` over the elements `x` of `xs`, in order. */
  function Flatten<T, U>(xs: seq<T>, f: T -> seq<U>): seq<U> {
    if |xs| == 0 then []
    else Flatten(xs[..|xs| - 1], f) + f(xs[|xs| - 1])
  }

  /** The contributions of all regions in iteration order. */
  function Contributions(regions: seq<RegionHistory>, incidence: (int, int) -> real): seq<Contribution> {
    Flatten(regions, (r: RegionHistory) => RegionContributions(r, incidence))
  }

  /** The running min / avg / max record of one day (`MAMDayEntry`). */
  datatype DayAggregate = DayAggregate(
    sum: real, count: nat, avg: real, avgColor: Color,
    min: real, minColor: Color, max: real, maxColor: Color)

  /** The record created by the first value of a day. */
  function FirstAggregate(x: real, colorOf: real -> Color): DayAggregate {
    DayAggregate(x, 1, x, colorOf(x), x, colorOf(x), x, colorOf(x))
  }

  /** The update for each further value: running sum and count, the average
      recomputed from them, and strict-comparison min / max updates. */
  function UpdateAggregate(a: DayAggregate, x: real, colorOf: real -> Color): DayAggregate {
    var sum := a.sum + x;
    var count := a.count + 1;
    var avg := sum / (count as real);
    var (max, maxColor) := if x > a.max then (x, colorOf(x)) else (a.max, a.maxColor);
    var (min, minColor) := if x < a.min then (x, colorOf(x)) else (a.min, a.minColor);
    DayAggregate(sum, count, avg, colorOf(avg), min, minColor, max, maxColor)
  }

  /** The two objects the loops fill: colours per day, aggregates per day. */
  datatype Accumulator = Accumulator(colors: ColorSnapshot, aggregates: map<Date, DayAggregate>)

  /** One iteration of the inner loop. */
  function Step(acc: Accumulator, c: Contribution, colorOf: real -> Color): Accumulator {
    var color := colorOf(c.incidence);
    var day := if c.date in acc.colors then acc.colors[c.date] else map[];
    var aggregate :=
      if c.date in acc.aggregates then UpdateAggregate(acc.aggregates[c.date], c.incidence, colorOf)
      else FirstAggregate(c.incidence, colorOf);
    Accumulator(acc.colors[c.date := day[RegionSlot(c.slot) := color]], acc.aggregates[c.date := aggregate])
  }

  /** All iterations, in order. */
  function Fold(cs: seq<Contribution>, colorOf: real -> Color): Accumulator {
    if |cs| == 0 then Accumulator(map[], map[])
    else Step(Fold(cs[..|cs| - 1], colorOf), cs[|cs| - 1], colorOf)
  }

  /** The final loop: every day gets its `min`, `avg` and `max` entries. */
  function Finish(acc: Accumulator): ColorSnapshot
    requires acc.colors.Keys == acc.aggregates.Keys
  {
    map d | d in acc.aggregates ::
      acc.colors[d][MinSlot := acc.aggregates[d].minColor]
                   [AvgSlot := acc.aggregates[d].avgColor]
                   [MaxSlot := acc.aggregates[d].maxColor]
  }

  /** `ColorsPerDay` for the given region histories. */
  function ColorsPerDay(region: Region, regions: seq<RegionHistory>,
                        incidence: (int, int) -> real, colorOf: real -> Color)
    : (r: Result<ColorSnapshot, ClassifyError>)
    ensures r.Failure? <==> exists i :: 0 <= i < |regions| && SlotId(region, regions[i].key).None?
  {
    match ResolveSlots(region, regions)
    case Failure(e) => Failure(e)
    case Success(resolved) =>
      var acc := Fold(Contributions(resolved, incidence), colorOf);
      FoldShape(Contributions(resolved, incidence), colorOf);
      Success(Finish(acc))
  }

  // ---------------------------------------------------------------------
  // Reference definitions and the fold's invariants

  /** Sum of reals (reference definition). */
  function RealSum(vs: seq<real>): real {
    if |vs| == 0 then 0.0 else RealSum(vs[..|vs| - 1]) + vs[|vs| - 1]
  }

  /** The values contributed on day `d`, in order. */
  function DayValues(cs: seq<Contribution>, d: Date): seq<real> {
    if |cs| == 0 then []
    else DayValues(cs[..|cs| - 1], d) + (if cs[|cs| - 1].date == d then [cs[|cs| - 1].incidence] else [])
  }

  /** The value last written for region slot `k` on day `d`, if any. */
  function LastWrite(cs: seq<Contribution>, d: Date, k: string): Option<real> {
    if |cs| == 0 then None
    else if cs[|cs| - 1].date == d && cs[|cs| - 1].slot == k then Some(cs[|cs| - 1].incidence)
    else LastWrite(cs[..|cs| - 1], d, k)
  }

  /** `a` is the aggregate of the values `vs`: their count and sum, the
      average as sum over count, a least and a greatest value, and each
      colour that of its value. */
  ghost predicate Summarizes(a: DayAggregate, vs: seq<real>, colorOf: real -> Color) {
    && |vs| >= 1
    && a.count == |vs|
    && a.sum == RealSum(vs)
    && a.avg == a.sum / (a.count as real)
    && a.avgColor == colorOf(a.avg)
    && a.min in vs && (forall i :: 0 <= i < |vs| ==> a.min <= vs[i])
    && a.minColor == colorOf(a.min)
    && a.max in vs && (forall i :: 0 <= i < |vs| ==> vs[i] <= a.max)
    && a.maxColor == colorOf(a.max)
  }

  lemma UpdateSummarizes(a: DayAggregate, vs: seq<real>, x: real, colorOf: real -> Color)
    requires Summarizes(a, vs, colorOf)
    ensures Summarizes(UpdateAggregate(a, x, colorOf), vs + [x], colorOf)
  {
    assert (vs + [x])[..|vs|] == vs;
  }

  /** The invariant of the loops: both objects have the same days, exactly
      those some contribution is for; a day's aggregate summarizes its
      values; a day's region entries are those of its contributions, each
      coloured by the value written last. */
  lemma FoldShape(cs: seq<Contribution>, colorOf: real -> Color)
    ensures var acc := Fold(cs, colorOf);
      && acc.colors.Keys == acc.aggregates.Keys
      && (forall d :: d in acc.aggregates <==> DayValues(cs, d) != [])
      && (forall d :: d in acc.aggregates ==> Summarizes(acc.aggregates[d], DayValues(cs, d), colorOf))
      && (forall d, key :: d in acc.colors && key in acc.colors[d] ==> key.RegionSlot?)
      && (forall d, k :: d in acc.colors ==> (RegionSlot(k) in acc.colors[d] <==> LastWrite(cs, d, k).Some?))
      && (forall d, k :: d in acc.colors && RegionSlot(k) in acc.colors[d] ==>
            acc.colors[d][RegionSlot(k)] == colorOf(LastWrite(cs, d, k).value))
  {
    FoldDays(cs, colorOf);
    FoldAggregates(cs, colorOf);
    FoldColors(cs, colorOf);
  }

  lemma {:induction false} FoldDays(cs: seq<Contribution>, colorOf: real -> Color)
    ensures Fold(cs, colorOf).colors.Keys == Fold(cs, colorOf).aggregates.Keys
    ensures forall d :: d in Fold(cs, colorOf).aggregates <==> DayValues(cs, d) != []
  {
    if |cs| > 0 {
      FoldDays(cs[..|cs| - 1], colorOf);
    }
  }

  lemma {:induction false} FoldAggregates(cs: seq<Contribution>, colorOf: real -> Color)
    ensures forall d :: d in Fold(cs, colorOf).aggregates ==>
      Summarizes(Fold(cs, colorOf).aggregates[d], DayValues(cs, d), colorOf)
  {
    if |cs| > 0 {
      var prefix := cs[..|cs| - 1];
      FoldAggregates(prefix, colorOf);
      FoldDays(prefix, colorOf);
      forall d | d in Fold(cs, colorOf).aggregates
        ensures Summarizes(Fold(cs, colorOf).aggregates[d], DayValues(cs, d), colorOf)
      {
        FoldAggregatesDay(cs, colorOf, d);
      }
    }
  }

  /** One iteration keeps the aggregate of day `d` summarizing its values. */
  lemma FoldAggregatesDay(cs: seq<Contribution>, colorOf: real -> Color, d: Date)
    requires |cs| > 0
    requires d in Fold(cs[..|cs| - 1], colorOf).aggregates <==> DayValues(cs[..|cs| - 1], d) != []
    requires d in Fold(cs[..|cs| - 1], colorOf).aggregates ==>
      Summarizes(Fold(cs[..|cs| - 1], colorOf).aggregates[d], DayValues(cs[..|cs| - 1], d), colorOf)
    requires d in Fold(cs, colorOf).aggregates
    ensures Summarizes(Fold(cs, colorOf).aggregates[d], DayValues(cs, d), colorOf)
  {
    var prefix, c := cs[..|cs| - 1], cs[|cs| - 1];
    var before := Fold(prefix, colorOf).aggregates;
    var after := Fold(cs, colorOf).aggregates;
    var vs := DayValues(prefix, d);
    if d == c.date {
      assert DayValues(cs, d) == vs + [c.incidence];
      if d in before {
        assert after[d] == UpdateAggregate(before[d], c.incidence, colorOf);
        UpdateSummarizes(before[d], vs, c.incidence, colorOf);
      } else {
        assert after[d] == FirstAggregate(c.incidence, colorOf);
        assert vs + [c.incidence] == [c.incidence];
      }
    } else {
      assert DayValues(cs, d) == vs;
      assert after[d] == before[d];
    }
  }

  lemma {:induction false} FoldColors(cs: seq<Contribution>, colorOf: real -> Color)
    ensures var acc := Fold(cs, colorOf);
      && (forall d, k :: LastWrite(cs, d, k).Some? ==> d in acc.colors)
      && (forall d, key :: d in acc.colors && key in acc.colors[d] ==> key.RegionSlot?)
      && (forall d, k :: d in acc.colors ==> (RegionSlot(k) in acc.colors[d] <==> LastWrite(cs, d, k).Some?))
      && (forall d, k :: d in acc.colors && RegionSlot(k) in acc.colors[d] ==>
            acc.colors[d][RegionSlot(k)] == colorOf(LastWrite(cs, d, k).value))
  {
    if |cs| > 0 {
      var prefix := cs[..|cs| - 1];
      var c := cs[|cs| - 1];
      FoldColors(prefix, colorOf);
      var before := Fold(prefix, colorOf);
      var acc := Fold(cs, colorOf);
      forall d, k | d in acc.colors
        ensures RegionSlot(k) in acc.colors[d] <==> LastWrite(cs, d, k).Some?
      {
        if d == c.date && d !in before.colors {
          assert LastWrite(prefix, d, k).None?;
        }
      }
    }
  }

  // ---------------------------------------------------------------------
  // Properties of the snapshot

  /** Day `d` has a value from index `i >= 6` of some region's history. */
  ghost predicate ClassifiedOn(regions: seq<RegionHistory>, d: Date) {
    exists r, i :: 0 <= r < |regions| && 6 <= i < |regions[r].history| && regions[r].history[i].date == d
  }

  lemma {:induction false} DayValuesNonEmpty(regions: seq<RegionHistory>, incidence: (int, int) -> real, d: Date)
    ensures DayValues(Contributions(regions, incidence), d) != [] <==> ClassifiedOn(regions, d)
  {
    if |regions| > 0 {
      var prefix := regions[..|regions| - 1];
      var last := regions[|regions| - 1];
      DayValuesNonEmpty(prefix, incidence, d);
      DayValuesAppend(Contributions(prefix, incidence), RegionContributions(last, incidence), d);
      var own := RegionContributions(last, incidence);
      DayValuesOfSeq(own, d);
      if ClassifiedOn(regions, d) {
        var r, i :| 0 <= r < |regions| && 6 <= i < |regions[r].history| && regions[r].history[i].date == d;
        if r < |prefix| {
          assert prefix[r] == regions[r];
        } else {
          assert own[i - 6].date == d;
        }
      }
      if ClassifiedOn(prefix, d) {
        var r, i :| 0 <= r < |prefix| && 6 <= i < |prefix[r].history| && prefix[r].history[i].date == d;
        assert regions[r] == prefix[r];
      }
      if DayValues(own, d) != [] {
        var j :| 0 <= j < |own| && own[j].date == d;
        assert regions[|regions| - 1].history[j + 6].date == d;
      }
    }
  }

  lemma {:induction false} DayValuesAppend(a: seq<Contribution>, b: seq<Contribution>, d: Date)
    ensures DayValues(a + b, d) == DayValues(a, d) + DayValues(b, d)
    decreases |b|
  {
    if |b| > 0 {
      DayValuesAppend(a, b[..|b| - 1], d);
      assert (a + b)[..|a + b| - 1] == a + b[..|b| - 1];
    } else {
      assert a + b == a;
    }
  }

  /** `DayValues` is non-empty exactly when some contribution is for the day. */
  lemma {:induction false} DayValuesOfSeq(cs: seq<Contribution>, d: Date)
    ensures DayValues(cs, d) != [] <==> exists j :: 0 <= j < |cs| && cs[j].date == d
  {
    if |cs| > 0 {
      var prefix := cs[..|cs| - 1];
      DayValuesOfSeq(prefix, d);
      if exists j :: 0 <= j < |prefix| && prefix[j].date == d {
        var j :| 0 <= j < |prefix| && prefix[j].date == d;
        assert cs[j].date == d;
      }
      if exists j :: 0 <= j < |cs| && cs[j].date == d {
        var j :| 0 <= j < |cs| && cs[j].date == d;
        if j < |prefix| {
          assert prefix[j].date == d;
        }
      }
    }
  }

  /** The snapshot's days are exactly the dates at index 6 or later of some
      history, and every day carries `min`, `avg` and `max` entries. */
  lemma SnapshotDays(region: Region, regions: seq<RegionHistory>,
                     incidence: (int, int) -> real, colorOf: real -> Color)
    requires ColorsPerDay(region, regions, incidence, colorOf).Success?
    ensures var snap := ColorsPerDay(region, regions, incidence, colorOf).value;
      forall d :: d in snap <==> ClassifiedOn(regions, d)
    ensures var snap := ColorsPerDay(region, regions, incidence, colorOf).value;
      forall d :: d in snap ==> MinSlot in snap[d] && AvgSlot in snap[d] && MaxSlot in snap[d]
  {
    var resolved := ResolveSlots(region, regions).value;
    var cs := Contributions(resolved, incidence);
    FoldDays(cs, colorOf);
    var snap := ColorsPerDay(region, regions, incidence, colorOf).value;
    assert snap == Finish(Fold(cs, colorOf));
    forall d
      ensures d in snap <==> ClassifiedOn(regions, d)
    {
      DayValuesNonEmpty(resolved, incidence, d);
      if ClassifiedOn(regions, d) {
        var r, i :| 0 <= r < |regions| && 6 <= i < |regions[r].history| && regions[r].history[i].date == d;
        assert resolved[r].history == regions[r].history;
      }
      if ClassifiedOn(resolved, d) {
        var r, i :| 0 <= r < |resolved| && 6 <= i < |resolved[r].history| && resolved[r].history[i].date == d;
        assert resolved[r].history == regions[r].history;
      }
    }
  }

  /** A day's `min`, `avg` and `max` entries are the colours of the least
      value, of the mean, and of the greatest value of that day over all
      contributing regions. */
  lemma SnapshotAggregates(region: Region, regions: seq<RegionHistory>,
                           incidence: (int, int) -> real, colorOf: real -> Color, d: Date)
    requires ColorsPerDay(region, regions, incidence, colorOf).Success?
    requires d in ColorsPerDay(region, regions, incidence, colorOf).value
    ensures var day := ColorsPerDay(region, regions, incidence, colorOf).value[d];
      var vs := DayValues(Contributions(ResolveSlots(region, regions).value, incidence), d);
      && |vs| >= 1
      && (exists m :: m in vs && (forall i :: 0 <= i < |vs| ==> m <= vs[i]) && day[MinSlot] == colorOf(m))
      && (exists m :: m in vs && (forall i :: 0 <= i < |vs| ==> vs[i] <= m) && day[MaxSlot] == colorOf(m))
      && day[AvgSlot] == colorOf(RealSum(vs) / (|vs| as real))
  {
    var cs := Contributions(ResolveSlots(region, regions).value, incidence);
    FoldDays(cs, colorOf);
    FoldAggregates(cs, colorOf);
    var acc := Fold(cs, colorOf);
    assert ColorsPerDay(region, regions, incidence, colorOf).value == Finish(acc);
    FinishDay(acc, d);
    SummaryColors(acc.aggregates[d], DayValues(cs, d), colorOf);
  }

  /** The aggregate entries `Finish` adds to a day. */
  lemma FinishDay(acc: Accumulator, d: Date)
    requires acc.colors.Keys == acc.aggregates.Keys
    requires d in acc.aggregates
    ensures d in Finish(acc)
    ensures var day, a := Finish(acc)[d], acc.aggregates[d];
      && MinSlot in day && day[MinSlot] == a.minColor
      && AvgSlot in day && day[AvgSlot] == a.avgColor
      && MaxSlot in day && day[MaxSlot] == a.maxColor
  {
  }

  /** The colours of an aggregate are those of a least value, of the mean
      and of a greatest value. */
  lemma SummaryColors(a: DayAggregate, vs: seq<real>, colorOf: real -> Color)
    requires Summarizes(a, vs, colorOf)
    ensures |vs| >= 1
    ensures exists m :: m in vs && (forall i :: 0 <= i < |vs| ==> m <= vs[i]) && a.minColor == colorOf(m)
    ensures exists m :: m in vs && (forall i :: 0 <= i < |vs| ==> vs[i] <= m) && a.maxColor == colorOf(m)
    ensures a.avgColor == colorOf(RealSum(vs) / (|vs| as real))
  {
  }

  /** A region entry of a day is present exactly when some region with that
      key classified the day, and it is the colour of the value written last
      for that key and day. */
  lemma SnapshotRegionEntries(region: Region, regions: seq<RegionHistory>,
                              incidence: (int, int) -> real, colorOf: real -> Color, d: Date, k: string)
    requires ColorsPerDay(region, regions, incidence, colorOf).Success?
    requires d in ColorsPerDay(region, regions, incidence, colorOf).value
    ensures var snap := ColorsPerDay(region, regions, incidence, colorOf).value;
      var cs := Contributions(ResolveSlots(region, regions).value, incidence);
      && (RegionSlot(k) in snap[d] <==> LastWrite(cs, d, k).Some?)
      && (RegionSlot(k) in snap[d] ==> snap[d][RegionSlot(k)] == colorOf(LastWrite(cs, d, k).value))
  {
    var cs := Contributions(ResolveSlots(region, regions).value, incidence);
    FoldDays(cs, colorOf);
    FoldColors(cs, colorOf);
    var acc := Fold(cs, colorOf);
    var snap := ColorsPerDay(region, regions, incidence, colorOf).value;
    assert snap == Finish(acc);
    assert snap[d] == acc.colors[d][MinSlot := acc.aggregates[d].minColor]
                                   [AvgSlot := acc.aggregates[d].avgColor]
                                   [MaxSlot := acc.aggregates[d].maxColor];
  }
}
