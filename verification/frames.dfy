/** Frame numbering, incremental re-rendering and the min/avg/max legend
    grouping of the frame renderer (src/responses/mapvideo.ts). A frame is
    modelled by the day colours it was drawn from; the drawing itself is
    not part of this model. */
module Frames {
  import opened Snapshot
  import opened DiffEngine

  /** The frame of day `d` when `first` is the earliest day of the
      snapshot: whole days since `first`, plus one. */
  function FrameNumber(first: Date, d: Date): (n: int)
    ensures n == 1 <==> d == first
    ensures n >= 1 <==> d >= first
  {
    d - first + 1
  }

  /** On chronological keys every key lies at least its index of days after
      the first one. */
  lemma {:induction false} KeysSpread(keys: seq<Date>, i: int)
    requires Increasing(keys)
    requires 0 <= i < |keys|
    ensures keys[i] - keys[0] >= i
  {
    if i > 0 {
      KeysSpread(keys, i - 1);
    }
  }

  /** Frame numbers of chronological keys: the earliest day is frame 1,
      every frame number is at least one more than the key's index, and
      later days get strictly greater frame numbers. */
  lemma FrameNumbersOfKeys(keys: seq<Date>)
    requires Increasing(keys)
    requires |keys| > 0
    ensures FrameNumber(keys[0], keys[0]) == 1
    ensures forall i :: 0 <= i < |keys| ==> FrameNumber(keys[0], keys[i]) >= i + 1
    ensures forall i, j :: 0 <= i < j < |keys| ==> FrameNumber(keys[0], keys[i]) < FrameNumber(keys[0], keys[j])
  {
    forall i | 0 <= i < |keys|
      ensures FrameNumber(keys[0], keys[i]) >= i + 1
    {
      KeysSpread(keys, i);
    }
  }

  /** Keys one day apart are numbered 1, 2, 3, ... in order. */
  lemma {:induction false} ContiguousFrameNumbers(keys: seq<Date>, i: int)
    requires forall j :: 0 <= j < |keys| - 1 ==> keys[j + 1] == keys[j] + 1
    requires 0 <= i < |keys|
    ensures FrameNumber(keys[0], keys[i]) == i + 1
  {
    if i > 0 {
      ContiguousFrameNumbers(keys, i - 1);
    }
  }

  /** Rendered frames, by frame number. */
  type FrameStore = map<int, DayColors>

  /** Renders the frame of every date in `dates` from `snap`, overwriting
      a stored frame with the same number and keeping all other frames. */
  function RenderFrames(frames: FrameStore, snap: ColorSnapshot, first: Date, dates: seq<Date>): (r: FrameStore)
    requires forall i :: 0 <= i < |dates| ==> dates[i] in snap
    ensures forall i :: 0 <= i < |dates| ==> FrameNumber(first, dates[i]) in r && r[FrameNumber(first, dates[i])] == snap[dates[i]]
    ensures forall n :: n in frames ==> n in r
    ensures forall n :: n in r && (forall i :: 0 <= i < |dates| ==> FrameNumber(first, dates[i]) != n) ==>
      n in frames && r[n] == frames[n]
  {
    if |dates| == 0 then frames
    else
      var d, before := dates[|dates| - 1], dates[..|dates| - 1];
      assert forall i :: 0 <= i < |before| ==> before[i] == dates[i];
      var prev := RenderFrames(frames, snap, first, before);
      RenderOneMore(frames, prev, snap, first, before, d);
      assert dates == before + [d];
      prev[FrameNumber(first, d) := snap[d]]
  }

  /** One more rendered day keeps the three facts of `RenderFrames`. */
  lemma RenderOneMore(frames: FrameStore, prev: FrameStore, snap: ColorSnapshot, first: Date, before: seq<Date>, d: Date)
    requires d in snap && forall i :: 0 <= i < |before| ==> before[i] in snap
    requires forall i :: 0 <= i < |before| ==> FrameNumber(first, before[i]) in prev && prev[FrameNumber(first, before[i])] == snap[before[i]]
    requires forall n :: n in frames ==> n in prev
    requires forall n :: n in prev && (forall i :: 0 <= i < |before| ==> FrameNumber(first, before[i]) != n) ==>
      n in frames && prev[n] == frames[n]
    ensures var r, dates := prev[FrameNumber(first, d) := snap[d]], before + [d];
      && (forall i :: 0 <= i < |dates| ==> FrameNumber(first, dates[i]) in r && r[FrameNumber(first, dates[i])] == snap[dates[i]])
      && (forall n :: n in frames ==> n in r)
      && (forall n :: n in r && (forall i :: 0 <= i < |dates| ==> FrameNumber(first, dates[i]) != n) ==>
            n in frames && r[n] == frames[n])
  {
    var r, dates := prev[FrameNumber(first, d) := snap[d]], before + [d];
    assert forall i :: 0 <= i < |before| ==> dates[i] == before[i];
    assert dates[|before|] == d;
    forall n | n in r && (forall i :: 0 <= i < |dates| ==> FrameNumber(first, dates[i]) != n)
      ensures n in frames && r[n] == frames[n]
    {
      assert FrameNumber(first, dates[|before|]) != n;
      forall i | 0 <= i < |before|
        ensures FrameNumber(first, before[i]) != n
      {
        assert FrameNumber(first, dates[i]) != n;
      }
    }
  }

  /** A frame shows a day when it has that day's colour for every key of
      the day (extra keys are never drawn). */
  predicate Shows(frame: DayColors, day: DayColors)
  {
    forall k :: k in day ==> k in frame && frame[k] == day[k]
  }

  /** Every day of `snap` has a frame, under the numbering anchored at
      `first`, that shows it. */
  ghost predicate FramesMatch(frames: FrameStore, snap: ColorSnapshot, first: Date)
  {
    forall d :: d in snap ==> FrameNumber(first, d) in frames && Shows(frames[FrameNumber(first, d)], snap[d])
  }

  /** Rendering only the days of the diff brings frames that showed the
      previous snapshot up to date with the current one, as long as both
      are numbered from the same first day. */
  lemma IncrementalRender(frames: FrameStore, prev: ColorSnapshot, cur: ColorSnapshot, keys: seq<Date>, first: Date)
    requires forall i :: 0 <= i < |keys| ==> keys[i] in cur
    requires forall d :: d in cur ==> d in keys
    requires FramesMatch(frames, prev, first)
    ensures forall i :: 0 <= i < |StaleDates(keys, cur, prev)| ==> StaleDates(keys, cur, prev)[i] in cur
    ensures FramesMatch(RenderFrames(frames, cur, first, StaleDates(keys, cur, prev)), cur, first)
  {
    var diffs := StaleDates(keys, cur, prev);
    StaleDatesMembers(keys, cur, prev);
    forall d | d in cur
      ensures FrameNumber(first, d) in RenderFrames(frames, cur, first, diffs)
      ensures Shows(RenderFrames(frames, cur, first, diffs)[FrameNumber(first, d)], cur[d])
    {
      if d in diffs {
        RenderedDay(frames, cur, first, diffs, d);
      } else {
        assert !Stale(cur, prev, d);
        UntouchedDay(frames, cur, first, diffs, d);
      }
    }
  }

  /** A rendered day's frame is that day of the snapshot. */
  lemma RenderedDay(frames: FrameStore, snap: ColorSnapshot, first: Date, dates: seq<Date>, d: Date)
    requires forall i :: 0 <= i < |dates| ==> dates[i] in snap
    requires d in dates
    ensures FrameNumber(first, d) in RenderFrames(frames, snap, first, dates)
    ensures RenderFrames(frames, snap, first, dates)[FrameNumber(first, d)] == snap[d]
  {
    var i :| 0 <= i < |dates| && dates[i] == d;
  }

  /** The frame of a day that is not rendered is kept as it was. */
  lemma UntouchedDay(frames: FrameStore, snap: ColorSnapshot, first: Date, dates: seq<Date>, d: Date)
    requires forall i :: 0 <= i < |dates| ==> dates[i] in snap
    requires d !in dates && FrameNumber(first, d) in frames
    ensures FrameNumber(first, d) in RenderFrames(frames, snap, first, dates)
    ensures RenderFrames(frames, snap, first, dates)[FrameNumber(first, d)] == frames[FrameNumber(first, d)]
  {
    forall i | 0 <= i < |dates|
      ensures FrameNumber(first, dates[i]) != FrameNumber(first, d)
    {
      assert dates[i] in dates;
    }
  }

  /** A full render (every key, as against an empty previous snapshot)
      matches the snapshot whatever frames were stored before. */
  lemma FullRender(frames: FrameStore, cur: ColorSnapshot, keys: seq<Date>, first: Date)
    requires forall i :: 0 <= i < |keys| ==> keys[i] in cur
    requires forall d :: d in cur ==> d in keys
    ensures FramesMatch(RenderFrames(frames, cur, first, keys), cur, first)
  {
    var r := RenderFrames(frames, cur, first, keys);
    forall d | d in cur
      ensures FrameNumber(first, d) in r && Shows(r[FrameNumber(first, d)], cur[d])
    {
      var i :| 0 <= i < |keys| && keys[i] == d;
      assert r[FrameNumber(first, keys[i])] == cur[d];
    }
  }

  // ----- Legend grouping -----

  /** One legend line of the min/avg/max block (`MAM`). */
  datatype MamEntry = MamEntry(name: string, iCol: Color, nCol: string)

  /** One entry of a colour group (`MAMGrouped`): `rInd` is the index of
      the colour in the colour ranges, or -1. */
  datatype LegendEntry = LegendEntry(name: string, nCol: string, rInd: int)

  /** `findIndex` over the colours of the incidence ranges. */
  function FindIndex(ranges: seq<Color>, c: Color): (r: int)
    ensures -1 <= r < |ranges|
    ensures r == -1 <==> c !in ranges
    ensures r >= 0 ==> ranges[r] == c && forall j :: 0 <= j < r ==> ranges[j] != c
  {
    if |ranges| == 0 then -1
    else if ranges[0] == c then 0
    else
      var r := FindIndex(ranges[1..], c);
      if r == -1 then -1 else r + 1
  }

  /** The legend lines of a day: min in green, avg in orange, max in red. */
  function MinAvgMax(day: DayColors): (mam: seq<MamEntry>)
    requires MinSlot in day && AvgSlot in day && MaxSlot in day
    ensures |mam| == 3 && DistinctNames(mam)
    ensures mam[0].name == "min" && mam[0].iCol == day[MinSlot]
    ensures mam[1].name == "avg" && mam[1].iCol == day[AvgSlot]
    ensures mam[2].name == "max" && mam[2].iCol == day[MaxSlot]
  {
    [MamEntry("min", day[MinSlot], "green"), MamEntry("avg", day[AvgSlot], "orange"), MamEntry("max", day[MaxSlot], "red")]
  }

  function ToLegend(m: MamEntry, ranges: seq<Color>): LegendEntry
  {
    LegendEntry(m.name, m.nCol, FindIndex(ranges, m.iCol))
  }

  /** The source's grouping: each line in turn is appended to the group of
      its colour, which is created when absent. */
  function LegendGroups(mam: seq<MamEntry>, ranges: seq<Color>): (groups: map<Color, seq<LegendEntry>>)
    ensures forall i :: 0 <= i < |mam| ==> mam[i].iCol in groups
    ensures forall c :: c in groups ==> |groups[c]| >= 1
  {
    if |mam| == 0 then map[]
    else
      var g := LegendGroups(mam[..|mam| - 1], ranges);
      var m := mam[|mam| - 1];
      if m.iCol in g then g[m.iCol := g[m.iCol] + [ToLegend(m, ranges)]]
      else g[m.iCol := [ToLegend(m, ranges)]]
  }

  /** Reference definition of one group: the lines of colour `c`, in order. */
  function GroupOf(mam: seq<MamEntry>, c: Color, ranges: seq<Color>): seq<LegendEntry>
  {
    if |mam| == 0 then []
    else
      var m := mam[|mam| - 1];
      GroupOf(mam[..|mam| - 1], c, ranges) + (if m.iCol == c then [ToLegend(m, ranges)] else [])
  }

  /** There is one group per colour used, and it holds exactly the lines of
      that colour, in the order of the lines. */
  lemma {:induction false} LegendGroupsCorrect(mam: seq<MamEntry>, ranges: seq<Color>)
    ensures forall c :: c in LegendGroups(mam, ranges) <==> exists i :: 0 <= i < |mam| && mam[i].iCol == c
    ensures forall c :: c in LegendGroups(mam, ranges) ==> LegendGroups(mam, ranges)[c] == GroupOf(mam, c, ranges)
  {
    if |mam| > 0 {
      var prefix := mam[..|mam| - 1];
      LegendGroupsCorrect(prefix, ranges);
      var g := LegendGroups(mam, ranges);
      var gp := LegendGroups(prefix, ranges);
      var m := mam[|mam| - 1];
      assert g.Keys == gp.Keys + {m.iCol};
      forall c
        ensures c in g <==> exists i :: 0 <= i < |mam| && mam[i].iCol == c
      {
        if c in g && c != m.iCol {
          assert c in gp;
          var i :| 0 <= i < |prefix| && prefix[i].iCol == c;
          assert mam[i] == prefix[i];
        }
        if exists i :: 0 <= i < |mam| && mam[i].iCol == c {
          var i :| 0 <= i < |mam| && mam[i].iCol == c;
          if i < |prefix| {
            assert prefix[i] == mam[i];
          }
        }
      }
      forall c | c in g
        ensures g[c] == GroupOf(mam, c, ranges)
      {
        if c != m.iCol {
          assert c in LegendGroups(prefix, ranges);
        } else if c !in LegendGroups(prefix, ranges) {
          assert GroupOf(prefix, c, ranges) == [] by {
            GroupOfAbsent(prefix, c, ranges);
          }
        }
      }
    }
  }

  lemma {:induction false} GroupOfAbsent(mam: seq<MamEntry>, c: Color, ranges: seq<Color>)
    requires forall i :: 0 <= i < |mam| ==> mam[i].iCol != c
    ensures GroupOf(mam, c, ranges) == []
  {
    if |mam| > 0 {
      GroupOfAbsent(mam[..|mam| - 1], c, ranges);
    }
  }

  /** Number of entries named `name`. */
  function CountName(es: seq<LegendEntry>, name: string): nat
  {
    if |es| == 0 then 0
    else CountName(es[..|es| - 1], name) + (if es[|es| - 1].name == name then 1 else 0)
  }

  lemma {:induction false} CountNameAppend(es: seq<LegendEntry>, e: LegendEntry, name: string)
    ensures CountName(es + [e], name) == CountName(es, name) + (if e.name == name then 1 else 0)
  {
    assert (es + [e])[..|es|] == es;
  }

  predicate DistinctNames(mam: seq<MamEntry>)
  {
    forall i, j :: 0 <= i < j < |mam| ==> mam[i].name != mam[j].name
  }

  /** With distinct names, line `i` occurs exactly once in the group of its
      own colour and in no other group. */
  lemma {:induction false} LineInOneGroup(mam: seq<MamEntry>, ranges: seq<Color>, i: int, c: Color)
    requires DistinctNames(mam)
    requires 0 <= i < |mam|
    ensures CountName(GroupOf(mam, c, ranges), mam[i].name) == if c == mam[i].iCol then 1 else 0
  {
    var prefix := mam[..|mam| - 1];
    var m := mam[|mam| - 1];
    if i == |mam| - 1 {
      NameAbsent(prefix, ranges, c, m.name);
    } else {
      assert prefix[i] == mam[i];
      LineInOneGroup(prefix, ranges, i, c);
    }
    if m.iCol == c {
      CountNameAppend(GroupOf(prefix, c, ranges), ToLegend(m, ranges), mam[i].name);
    } else {
      var before := GroupOf(prefix, c, ranges);
      assert before + [] == before;
      assert GroupOf(mam, c, ranges) == before;
    }
  }

  lemma {:induction false} NameAbsent(mam: seq<MamEntry>, ranges: seq<Color>, c: Color, name: string)
    requires forall j :: 0 <= j < |mam| ==> mam[j].name != name
    ensures CountName(GroupOf(mam, c, ranges), name) == 0
  {
    if |mam| > 0 {
      var prefix := mam[..|mam| - 1];
      var m := mam[|mam| - 1];
      NameAbsent(prefix, ranges, c, name);
      if m.iCol == c {
        CountNameAppend(GroupOf(prefix, c, ranges), ToLegend(m, ranges), name);
      } else {
        var before := GroupOf(prefix, c, ranges);
      assert before + [] == before;
      assert GroupOf(mam, c, ranges) == before;
      }
    }
  }

  /** The legend of a day: one group per distinct colour among min, avg
      and max, and each of the three names exactly once, in the group of
      its own colour. */
  lemma LegendOfDay(day: DayColors, ranges: seq<Color>)
    requires MinSlot in day && AvgSlot in day && MaxSlot in day
    ensures LegendGroups(MinAvgMax(day), ranges).Keys == {day[MinSlot], day[AvgSlot], day[MaxSlot]}
    ensures forall c :: c in LegendGroups(MinAvgMax(day), ranges) ==>
      && CountName(LegendGroups(MinAvgMax(day), ranges)[c], "min") == (if c == day[MinSlot] then 1 else 0)
      && CountName(LegendGroups(MinAvgMax(day), ranges)[c], "avg") == (if c == day[AvgSlot] then 1 else 0)
      && CountName(LegendGroups(MinAvgMax(day), ranges)[c], "max") == (if c == day[MaxSlot] then 1 else 0)
  {
    var mam := MinAvgMax(day);
    LegendGroupsCorrect(mam, ranges);
    var g := LegendGroups(mam, ranges);
    forall c | c in g
      ensures && CountName(g[c], "min") == (if c == day[MinSlot] then 1 else 0)
              && CountName(g[c], "avg") == (if c == day[AvgSlot] then 1 else 0)
              && CountName(g[c], "max") == (if c == day[MaxSlot] then 1 else 0)
    {
      LineInOneGroup(mam, ranges, 0, c);
      LineInOneGroup(mam, ranges, 1, c);
      LineInOneGroup(mam, ranges, 2, c);
    }
    LegendKeys(mam, ranges);
  }

  /** Three lines give exactly the groups of their three colours. */
  lemma LegendKeys(mam: seq<MamEntry>, ranges: seq<Color>)
    requires |mam| == 3
    ensures LegendGroups(mam, ranges).Keys == {mam[0].iCol, mam[1].iCol, mam[2].iCol}
  {
    var g := LegendGroups(mam, ranges);
    LegendGroupsCorrect(mam, ranges);
    forall c | c in g
      ensures c == mam[0].iCol || c == mam[1].iCol || c == mam[2].iCol
    {
      var i :| 0 <= i < |mam| && mam[i].iCol == c;
      assert i == 0 || i == 1 || i == 2;
    }
    KeysOfThree(g, mam[0].iCol, mam[1].iCol, mam[2].iCol);
  }

  lemma KeysOfThree<K, V>(m: map<K, V>, a: K, b: K, c: K)
    requires a in m && b in m && c in m
    requires forall k :: k in m ==> k == a || k == b || k == c
    ensures m.Keys == {a, b, c}
  {
  }
}
