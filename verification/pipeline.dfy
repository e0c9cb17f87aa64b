/** One video request of a region as a state change (src/responses/mapvideo.ts,
    `VideoResponse`): today's snapshot is stored, the request is validated,
    the stale frames are rendered when the region is not ready, and the
    snapshot files are cut back. Locks, polling, the encoder and the video
    ledger are not part of this state; whether the requested video already
    exists is a parameter. Snapshot files are identified by their
    reference date, whose order is the order of their names. */
module Pipeline {
  import opened Wrappers
  import opened Snapshot
  import opened DiffEngine
  import opened Frames
  import opened Request

  /** The stored state of one region: snapshots by reference date, the
      ready flag of the status ledger and the rendered frames. */
  datatype World = World(snapshots: map<Date, ColorSnapshot>, ready: bool, frames: FrameStore)

  /** The greatest of a set of dates: the last in chronological order. */
  function Latest(dates: set<Date>): (d: Date)
    requires dates != {}
    ensures d in dates && forall e :: e in dates ==> e <= d
  {
    var ds := Chronological(dates);
    assert ds[|ds| - 1] in dates;
    forall e | e in dates
      ensures e <= ds[|ds| - 1]
    {
      var i :| 0 <= i < |ds| && ds[i] == e;
    }
    ds[|ds| - 1]
  }

  /** The second greatest of a set of dates, if there are two. */
  function SecondLatest(dates: set<Date>): (r: Option<Date>)
    ensures r.Some? <==> |dates| >= 2
    ensures r.Some? ==>
      && r.value in dates && r.value < Latest(dates)
      && forall e :: e in dates && e != Latest(dates) ==> e <= r.value
  {
    var ds := Chronological(dates);
    if |ds| > 1 then
      var d := ds[|ds| - 2];
      assert d in dates;
      assert ds[|ds| - 1] in dates;
      assert Latest(dates) == ds[|ds| - 1] by {
        var i :| 0 <= i < |ds| && ds[i] == Latest(dates);
      }
      forall e | e in dates && e != Latest(dates)
        ensures e <= d
      {
        var i :| 0 <= i < |ds| && ds[i] == e;
      }
      Some(d)
    else None
  }

  /** The two greatest of a set of dates (all of them when fewer). */
  function LatestTwo(dates: set<Date>): (top: set<Date>)
    ensures top <= dates
    ensures |top| == if |dates| < 2 then |dates| else 2
    ensures dates != {} ==> Latest(dates) in top
    ensures forall d, e :: d in dates && d !in top && e in top ==> d < e
  {
    match SecondLatest(dates)
    case None => dates
    case Some(second) =>
      TopTwo(dates, Latest(dates), second);
      {Latest(dates), second}
  }

  lemma TopTwo(dates: set<Date>, latest: Date, second: Date)
    requires latest in dates && second in dates && second < latest
    requires forall e :: e in dates && e != latest ==> e <= second
    ensures {latest, second} <= dates && |{latest, second}| == 2
    ensures forall d :: d in dates && d != latest && d != second ==> d < second < latest
  {
  }

  /** The greatest reference date of the stored snapshots. */
  function Newest(snaps: map<Date, ColorSnapshot>): (d: Date)
    requires snaps != map[]
    ensures d in snaps && forall e :: e in snaps ==> e <= d
  {
    Latest(snaps.Keys)
  }

  /** The snapshot of today's reference date is read, or stored and the
      region marked not ready. */
  function StoreSnapshot(w: World, refDate: Date, today: ColorSnapshot): (r: World)
    ensures refDate in w.snapshots ==> r == w
    ensures refDate !in w.snapshots ==> refDate in r.snapshots && r.snapshots[refDate] == today && !r.ready
    ensures refDate in r.snapshots && r.frames == w.frames
    ensures r.snapshots.Keys == w.snapshots.Keys + {refDate}
    ensures forall d :: d in w.snapshots ==> d in r.snapshots && r.snapshots[d] == w.snapshots[d]
    ensures forall d :: d in r.snapshots ==> d in w.snapshots || d == refDate
    ensures r.ready ==> w.ready && refDate in w.snapshots
  {
    if refDate in w.snapshots then w
    else w.(snapshots := w.snapshots[refDate := today], ready := false)
  }

  /** The snapshot a request works on: the one already stored for the
      reference date, else the freshly computed one. */
  function CurrentSnapshot(w: World, refDate: Date, today: ColorSnapshot): ColorSnapshot
  {
    if refDate in w.snapshots then w.snapshots[refDate] else today
  }

  /** The source's diff base: the snapshot with the second greatest
      reference date, or nothing when there is only one. */
  function PreviousAsWritten(snaps: map<Date, ColorSnapshot>): (prev: ColorSnapshot)
    ensures |snaps.Keys| < 2 ==> prev == map[]
    ensures |snaps.Keys| >= 2 ==>
      exists d :: d in snaps && prev == snaps[d] && d < Latest(snaps.Keys) && (forall e :: e in snaps && e != Latest(snaps.Keys) ==> e <= d)
  {
    match SecondLatest(snaps.Keys)
    case None => map[]
    case Some(d) => snaps[d]
  }

  /** Renders the stale days of `cur` against `prev`, numbering frames
      from the earliest day of `cur`; nothing is rendered when no day is
      stale. */
  function Render(frames: FrameStore, cur: ColorSnapshot, prev: ColorSnapshot): (r: FrameStore)
    ensures (forall d :: d in cur ==> !Stale(cur, prev, d)) ==> r == frames
    ensures forall n :: n in frames ==> n in r
    ensures |SortedDates(cur)| > 0 ==> var first := SortedDates(cur)[0];
      && (forall d :: d in cur && Stale(cur, prev, d) ==> FrameNumber(first, d) in r && r[FrameNumber(first, d)] == cur[d])
      && (forall n :: n in r && (forall d :: d in cur && Stale(cur, prev, d) ==> FrameNumber(first, d) != n) ==>
            n in frames && r[n] == frames[n])
  {
    var keys := SortedDates(cur);
    var diffs := StaleDates(keys, cur, prev);
    RenderFacts(frames, cur, prev);
    if |diffs| == 0 then frames else RenderFrames(frames, cur, keys[0], diffs)
  }

  /** The facts of `Render`, proved case by case. */
  lemma RenderFacts(frames: FrameStore, cur: ColorSnapshot, prev: ColorSnapshot)
    ensures var keys := SortedDates(cur);
      var diffs := StaleDates(keys, cur, prev);
      var r := if |diffs| == 0 then frames else RenderFrames(frames, cur, keys[0], diffs);
      && ((forall d :: d in cur ==> !Stale(cur, prev, d)) ==> r == frames)
      && (forall n :: n in frames ==> n in r)
      && (|keys| > 0 ==> var first := keys[0];
            && (forall d :: d in cur && Stale(cur, prev, d) ==> FrameNumber(first, d) in r && r[FrameNumber(first, d)] == cur[d])
            && (forall n :: n in r && (forall d :: d in cur && Stale(cur, prev, d) ==> FrameNumber(first, d) != n) ==>
                  n in frames && r[n] == frames[n]))
  {
    var keys := SortedDates(cur);
    var diffs := StaleDates(keys, cur, prev);
    StaleDatesMembers(keys, cur, prev);
    if |diffs| == 0 {
      assert forall d :: d in cur && Stale(cur, prev, d) ==> d in diffs;
    } else {
      assert diffs[0] in diffs;
      assert forall i :: 0 <= i < |diffs| ==> diffs[i] in diffs;
      RenderDiffs(frames, cur, prev, keys[0], diffs);
    }
  }

  /** `RenderFrames` over a list holding exactly the stale days. */
  lemma RenderDiffs(frames: FrameStore, cur: ColorSnapshot, prev: ColorSnapshot, first: Date, diffs: seq<Date>)
    requires forall i :: 0 <= i < |diffs| ==> diffs[i] in cur && Stale(cur, prev, diffs[i])
    requires forall d :: d in cur && Stale(cur, prev, d) ==> d in diffs
    ensures forall i :: 0 <= i < |diffs| ==> diffs[i] in cur
    ensures var r := RenderFrames(frames, cur, first, diffs);
      && (forall d :: d in cur && Stale(cur, prev, d) ==> FrameNumber(first, d) in r && r[FrameNumber(first, d)] == cur[d])
      && (forall n :: n in r && (forall d :: d in cur && Stale(cur, prev, d) ==> FrameNumber(first, d) != n) ==>
            n in frames && r[n] == frames[n])
  {
    var r := RenderFrames(frames, cur, first, diffs);
    forall d | d in cur && Stale(cur, prev, d)
      ensures FrameNumber(first, d) in r && r[FrameNumber(first, d)] == cur[d]
    {
      var i :| 0 <= i < |diffs| && diffs[i] == d;
    }
  }

  /** The snapshot-file clean-up: only the two greatest reference dates
      stay. */
  function KeepNewestTwo(snaps: map<Date, ColorSnapshot>): (r: map<Date, ColorSnapshot>)
    ensures r.Keys == LatestTwo(snaps.Keys)
    ensures forall d :: d in r ==> r[d] == snaps[d]
  {
    var top := LatestTwo(snaps.Keys);
    map d | d in snaps && d in top :: snaps[d]
  }

  /** The request as the source runs it: `cached` says whether the
      requested video file exists already. A failed validation leaves the
      stored snapshot and the cleared ready flag behind. */
  function VideoResponseAsWritten(w: World, refDate: Date, today: ColorSnapshot, days: Option<Param>, duration: Param, cached: bool)
    : (r: (World, Result<RawPlan, RequestError>))
    ensures refDate in w.snapshots ==> r.1 == ValidateAsWritten(|SortedDates(w.snapshots[refDate])|, days, duration)
    ensures refDate !in w.snapshots ==> r.1 == ValidateAsWritten(|SortedDates(today)|, days, duration)
    ensures r.1.Failure? || cached ==> r.0 == StoreSnapshot(w, refDate, today) && r.0.frames == w.frames
    ensures r.1.Success? && !cached ==> r.0.ready && r.0.snapshots.Keys == LatestTwo(w.snapshots.Keys + {refDate})
    ensures r.1.Success? && !cached && w.ready && refDate in w.snapshots ==> r.0.frames == w.frames
    ensures forall d :: d in r.0.snapshots ==>
      if d in w.snapshots then r.0.snapshots[d] == w.snapshots[d] else d == refDate && r.0.snapshots[d] == today
  {
    var w1 := StoreSnapshot(w, refDate, today);
    var cur := w1.snapshots[refDate];
    match ValidateAsWritten(|SortedDates(cur)|, days, duration)
    case Failure(e) => (w1, Failure(e))
    case Success(plan) =>
      if cached then (w1, Success(plan))
      else
        var w2 := if w1.ready then w1
                  else w1.(frames := Render(w1.frames, cur, PreviousAsWritten(w1.snapshots)), ready := true);
        (w2.(snapshots := KeepNewestTwo(w2.snapshots)), Success(plan))
  }

  // ----- Frames and snapshots -----

  /** All snapshots start on the same day `first`, which anchors the frame
      numbers. */
  ghost predicate Anchored(snap: ColorSnapshot, first: Date)
  {
    first in snap && forall d :: d in snap ==> first <= d
  }

  /** The chronological keys of an anchored snapshot start at `first`. */
  lemma AnchoredKeys(snap: ColorSnapshot, first: Date)
    requires Anchored(snap, first)
    ensures |SortedDates(snap)| > 0 && SortedDates(snap)[0] == first
  {
    var keys := SortedDates(snap);
    var i :| 0 <= i < |keys| && keys[i] == first;
    assert keys[0] in snap;
  }

  /** Rendering against a snapshot the frames already show leaves frames
      showing the current snapshot. */
  lemma RenderBringsUpToDate(frames: FrameStore, cur: ColorSnapshot, prev: ColorSnapshot, first: Date)
    requires Anchored(cur, first)
    requires FramesMatch(frames, prev, first)
    ensures FramesMatch(Render(frames, cur, prev), cur, first)
  {
    var keys := SortedDates(cur);
    AnchoredKeys(cur, first);
    IncrementalRender(frames, prev, cur, keys, first);
  }

  /** An uncached, successful request for a region that is not ready
      renders the diff against the second newest snapshot: when the frames
      showed that snapshot, they show the reference date's snapshot
      afterwards. */
  lemma AsWrittenRendersDiff(w: World, refDate: Date, today: ColorSnapshot, days: Option<Param>, duration: Param, first: Date)
    requires !w.ready || refDate !in w.snapshots
    requires Anchored(CurrentSnapshot(w, refDate, today), first)
    requires FramesMatch(w.frames, PreviousAsWritten(w.snapshots[refDate := CurrentSnapshot(w, refDate, today)]), first)
    ensures var r := VideoResponseAsWritten(w, refDate, today, days, duration, false);
      r.1.Success? ==> FramesMatch(r.0.frames, CurrentSnapshot(w, refDate, today), first)
  {
    var w1 := StoreSnapshot(w, refDate, today);
    var cur := CurrentSnapshot(w, refDate, today);
    assert w1.snapshots == w.snapshots[refDate := cur];
    assert !w1.ready && w1.snapshots[refDate] == cur;
    RenderBringsUpToDate(w1.frames, cur, PreviousAsWritten(w1.snapshots), first);
  }

  /** With one key per day, the frames the encoder reads (from the first
      frame of the plan up to the last frame) are exactly the frames of
      the last `days` keys. */
  lemma VideoShowsLastDays(keys: seq<Date>, days: Option<Param>, duration: Param, plan: Plan)
    requires forall j :: 0 <= j < |keys| - 1 ==> keys[j + 1] == keys[j] + 1
    requires Validate(|keys|, days, duration) == Success(plan)
    ensures forall i :: 0 <= i < |keys| ==>
      (plan.firstFrame <= FrameNumber(keys[0], keys[i]) <= |keys| <==> |keys| - plan.days <= i)
  {
    forall i | 0 <= i < |keys|
      ensures plan.firstFrame <= FrameNumber(keys[0], keys[i]) <= |keys| <==> |keys| - plan.days <= i
    {
      ContiguousFrameNumbers(keys, i);
    }
  }

  // ----- The corrected request -----

  /** The region's state together with the reference date of the
      snapshot its frames were last rendered from. */
  datatype Tracked = Tracked(world: World, basis: Option<Date>)

  /** The diff base of the corrected request: the snapshot the frames were
      rendered from, or nothing. */
  function Basis(t: Tracked): (prev: ColorSnapshot)
    ensures t.basis.Some? && t.basis.value in t.world.snapshots ==> prev == t.world.snapshots[t.basis.value]
    ensures !(t.basis.Some? && t.basis.value in t.world.snapshots) ==> prev == map[]
  {
    if t.basis.Some? && t.basis.value in t.world.snapshots then t.world.snapshots[t.basis.value] else map[]
  }

  /** The request with the diff taken against the snapshot the frames
      were rendered from, and with the corrected validation. */
  function VideoResponse(t: Tracked, refDate: Date, today: ColorSnapshot, days: Option<Param>, duration: Param, cached: bool)
    : (r: (Tracked, Result<Plan, RequestError>))
    ensures refDate in t.world.snapshots ==> r.1 == Validate(|SortedDates(t.world.snapshots[refDate])|, days, duration)
    ensures refDate !in t.world.snapshots ==> r.1 == Validate(|SortedDates(today)|, days, duration)
    ensures r.1.Failure? || cached ==> r.0 == t.(world := StoreSnapshot(t.world, refDate, today))
    ensures r.1.Success? && !cached ==> r.0.world.ready && r.0.world.snapshots.Keys == LatestTwo(t.world.snapshots.Keys + {refDate})
    ensures r.1.Success? && !cached && !(t.world.ready && refDate in t.world.snapshots) ==> r.0.basis == Some(refDate)
    ensures forall d :: d in r.0.world.snapshots ==>
      if d in t.world.snapshots then r.0.world.snapshots[d] == t.world.snapshots[d] else d == refDate && r.0.world.snapshots[d] == today
  {
    var w1 := StoreSnapshot(t.world, refDate, today);
    var cur := w1.snapshots[refDate];
    match Validate(|SortedDates(cur)|, days, duration)
    case Failure(e) => (t.(world := w1), Failure(e))
    case Success(plan) =>
      if cached then (t.(world := w1), Success(plan))
      else
        var t2 := if w1.ready then t.(world := w1)
                  else Tracked(w1.(frames := Render(w1.frames, cur, Basis(t.(world := w1))), ready := true), Some(refDate));
        (t2.(world := t2.world.(snapshots := KeepNewestTwo(t2.world.snapshots))), Success(plan))
  }

  /** The invariant of the corrected request: all snapshots are anchored
      at `first`, the frames show the basis snapshot, and a ready region
      has rendered its newest snapshot. So under it the diff base `Basis`
      is what the frames show, and a ready region shows its newest
      snapshot. */
  ghost predicate Consistent(t: Tracked, first: Date)
  {
    && (forall d :: d in t.world.snapshots ==> Anchored(t.world.snapshots[d], first))
    && (t.basis.Some? ==> t.basis.value in t.world.snapshots && FramesMatch(t.world.frames, t.world.snapshots[t.basis.value], first))
    && (t.world.ready ==> t.world.snapshots != map[] && t.basis == Some(Newest(t.world.snapshots)))
  }

  /** The initial state: no snapshots, not ready, no frames. */
  lemma InitiallyConsistent(first: Date)
    ensures Consistent(Tracked(World(map[], false, map[]), None), first)
  {
  }

  /** Storing a snapshot of a reference date no earlier than the stored
      ones keeps the region consistent and makes that date the newest. */
  lemma StoreConsistent(t: Tracked, first: Date, refDate: Date, today: ColorSnapshot)
    requires Consistent(t, first)
    requires Anchored(today, first)
    requires forall d :: d in t.world.snapshots ==> d <= refDate
    ensures Consistent(t.(world := StoreSnapshot(t.world, refDate, today)), first)
    ensures Newest(StoreSnapshot(t.world, refDate, today).snapshots) == refDate
  {
    var w1 := StoreSnapshot(t.world, refDate, today);
    if t.basis.Some? {
      assert w1.snapshots[t.basis.value] == t.world.snapshots[t.basis.value];
    }
  }

  /** Rendering a region that is not ready against its basis makes it
      ready with the newest snapshot as basis. */
  lemma RenderConsistent(t: Tracked, first: Date)
    requires Consistent(t, first)
    requires t.world.snapshots != map[] && !t.world.ready
    ensures var newest := Newest(t.world.snapshots);
      Consistent(Tracked(t.world.(frames := Render(t.world.frames, t.world.snapshots[newest], Basis(t)), ready := true), Some(newest)), first)
  {
    var newest := Newest(t.world.snapshots);
    assert FramesMatch(t.world.frames, Basis(t), first);
    RenderBringsUpToDate(t.world.frames, t.world.snapshots[newest], Basis(t), first);
  }

  /** The clean-up keeps a ready region consistent. */
  lemma CleanupConsistent(t: Tracked, first: Date)
    requires Consistent(t, first) && t.world.ready
    ensures var t' := t.(world := t.world.(snapshots := KeepNewestTwo(t.world.snapshots)));
      && Consistent(t', first)
      && Newest(t'.world.snapshots) == Newest(t.world.snapshots)
  {
    var kept := KeepNewestTwo(t.world.snapshots);
    var newest := Newest(t.world.snapshots);
    assert newest in kept;
    assert Newest(kept) == newest;
  }

  /** The corrected request keeps the region consistent whatever its
      outcome, as long as reference dates do not go back and every
      snapshot starts on `first`; a request that encodes a video does so
      from frames showing the snapshot of its reference date. */
  lemma VideoResponseConsistent(t: Tracked, first: Date, refDate: Date, today: ColorSnapshot, days: Option<Param>, duration: Param, cached: bool)
    requires Consistent(t, first)
    requires Anchored(today, first)
    requires forall d :: d in t.world.snapshots ==> d <= refDate
    ensures Consistent(VideoResponse(t, refDate, today, days, duration, cached).0, first)
    ensures var (t', r) := VideoResponse(t, refDate, today, days, duration, cached);
      r.Success? && !cached ==>
        && t'.world.ready
        && refDate in t'.world.snapshots
        && FramesMatch(t'.world.frames, t'.world.snapshots[refDate], first)
  {
    var w1 := StoreSnapshot(t.world, refDate, today);
    var t1 := t.(world := w1);
    StoreConsistent(t, first, refDate, today);
    var cur := w1.snapshots[refDate];
    if Validate(|SortedDates(cur)|, days, duration).Success? && !cached {
      var t2 := if w1.ready then t1
                else Tracked(w1.(frames := Render(w1.frames, cur, Basis(t1)), ready := true), Some(refDate));
      if !w1.ready {
        RenderConsistent(t1, first);
      }
      CleanupConsistent(t2, first);
    }
  }

  // ----- The stale-frames defect -----

  /** The diff base of three stored snapshots is the middle one. */
  lemma MiddleSnapshotIsBase(a: ColorSnapshot, b: ColorSnapshot, c: ColorSnapshot)
    ensures PreviousAsWritten(map[10 := a, 11 := b, 12 := c]) == b
    ensures 12 in KeepNewestTwo(map[10 := a, 11 := b, 12 := c])
  {
    var snaps := map[10 := a, 11 := b, 12 := c];
    assert snaps.Keys == {10, 11, 12};
    assert Latest(snaps.Keys) == 12;
    assert SecondLatest(snaps.Keys) == Some(11);
  }

  /** Rendering against the very snapshot being rendered changes nothing. */
  lemma RenderAgainstItself(frames: FrameStore, cur: ColorSnapshot)
    ensures Render(frames, cur, cur) == frames
  {
    DiffAgainstItself(SortedDates(cur), cur);
  }

  /** A request with unparseable days stores the new snapshot, marks the
      region not ready and answers with an error. */
  lemma FailedRequestStores(s1: ColorSnapshot, s2: ColorSnapshot, frames: FrameStore, duration: Param)
    ensures VideoResponseAsWritten(World(map[10 := s1], true, frames), 11, s2, Some(Param.NotANumber), duration, false)
      == (World(map[10 := s1, 11 := s2], false, frames), Failure(DaysNotANumber))
  {
    var w0 := World(map[10 := s1], true, frames);
    assert StoreSnapshot(w0, 11, s2) == World(map[10 := s1, 11 := s2], false, frames);
  }

  /** The next day's request brings the same snapshot again: it diffs
      against the unrendered one, renders nothing and marks the region
      ready. */
  lemma RepeatedSnapshotMarksReady(s1: ColorSnapshot, s2: ColorSnapshot, frames: FrameStore,
                                   days: Option<Param>, duration: Param)
    requires ValidateAsWritten(|SortedDates(s2)|, days, duration).Success?
    ensures var (w2, r2) := VideoResponseAsWritten(World(map[10 := s1, 11 := s2], false, frames), 12, s2, days, duration, false);
      && r2.Success? && w2.ready && w2.frames == frames
      && 12 in w2.snapshots && w2.snapshots[12] == s2
  {
    var w1 := World(map[10 := s1, 11 := s2], false, frames);
    var snaps := map[10 := s1, 11 := s2, 12 := s2];
    assert StoreSnapshot(w1, 12, s2) == World(snaps, false, frames);
    MiddleSnapshotIsBase(s1, s2, s2);
    RenderAgainstItself(frames, s2);
  }

  /** A request that fails validation after storing a new snapshot leaves
      the frames one snapshot behind; the next day's request diffs against
      that unrendered snapshot, which equals its own, finds nothing stale
      and marks the region ready although the frames do not show it. */
  lemma StaleFramesMarkedReady(s1: ColorSnapshot, s2: ColorSnapshot, frames: FrameStore, first: Date,
                               days: Option<Param>, duration: Param)
    requires FramesMatch(frames, s1, first) && !FramesMatch(frames, s2, first)
    requires ValidateAsWritten(|SortedDates(s2)|, days, duration).Success?
    ensures var (w1, r1) := VideoResponseAsWritten(World(map[10 := s1], true, frames), 11, s2, Some(Param.NotANumber), duration, false);
      var (w2, r2) := VideoResponseAsWritten(w1, 12, s2, days, duration, false);
      && r1 == Failure(DaysNotANumber)
      && r2.Success?
      && w2.ready && 12 in w2.snapshots
      && !FramesMatch(w2.frames, w2.snapshots[12], first)
  {
    FailedRequestStores(s1, s2, frames, duration);
    RepeatedSnapshotMarksReady(s1, s2, frames, days, duration);
  }

  /** The corrected request on the same two calls renders the frames. */
  lemma StaleFramesCorrected(s1: ColorSnapshot, s2: ColorSnapshot, frames: FrameStore, first: Date,
                             days: Option<Param>, duration: Param)
    requires Anchored(s1, first) && Anchored(s2, first)
    requires FramesMatch(frames, s1, first)
    requires Validate(|SortedDates(s2)|, days, duration).Success?
    ensures var (t1, r1) := VideoResponse(Tracked(World(map[10 := s1], true, frames), Some(10)), 11, s2, Some(Param.NotANumber), duration, false);
      var (t2, r2) := VideoResponse(t1, 12, s2, days, duration, false);
      && r1 == Failure(DaysNotANumber)
      && r2.Success?
      && t2.world.ready && 12 in t2.world.snapshots
      && FramesMatch(t2.world.frames, t2.world.snapshots[12], first)
  {
    var t0 := Tracked(World(map[10 := s1], true, frames), Some(10));
    var t1 := Tracked(World(map[10 := s1, 11 := s2], false, frames), Some(10));
    CorrectedFailedRequestStores(s1, s2, frames, duration);
    assert Consistent(t1, first) by {
      assert t1.world.snapshots[10] == s1;
    }
    VideoResponseConsistent(t1, first, 12, s2, days, duration, false);
  }

  /** The corrected request with unparseable days stores the snapshot and
      keeps the basis it rendered last. */
  lemma CorrectedFailedRequestStores(s1: ColorSnapshot, s2: ColorSnapshot, frames: FrameStore, duration: Param)
    ensures VideoResponse(Tracked(World(map[10 := s1], true, frames), Some(10)), 11, s2, Some(Param.NotANumber), duration, false)
      == (Tracked(World(map[10 := s1, 11 := s2], false, frames), Some(10)), Failure(DaysNotANumber))
  {
    var w0 := World(map[10 := s1], true, frames);
    assert StoreSnapshot(w0, 11, s2) == World(map[10 := s1, 11 := s2], false, frames);
  }

  const Red: DayColors := map[RegionSlot("01") := "red"]
  const Green: DayColors := map[RegionSlot("01") := "green"]

  /** Five days; day 1 is red in the first snapshot and green in the
      next ones. */
  const S1: ColorSnapshot := map[1 := Red, 2 := map[], 3 := map[], 4 := map[], 5 := map[]]
  const S2: ColorSnapshot := map[1 := Green, 2 := map[], 3 := map[], 4 := map[], 5 := map[]]

  /** Frames drawn from `S1` match `S1` but not `S2`. */
  lemma ExampleFrames()
    ensures FramesMatch(S1, S1, 1) && !FramesMatch(S1, S2, 1)
  {
    assert FrameNumber(1, 1) == 1;
    assert 1 in S2 && RegionSlot("01") in S2[1];
    assert S1[1][RegionSlot("01")] != S2[1][RegionSlot("01")];
  }

  /** The stale-frames sequence happens on the concrete history `S1`, `S2`:
      frames drawn from `S1`, a failed request on day 11 and a valid one
      on day 12 leave the region ready with frames that do not show `S2`. */
  lemma StaleFramesExample()
    ensures var (w1, r1) := VideoResponseAsWritten(World(map[10 := S1], true, S1), 11, S2, Some(Param.NotANumber), Num(1), false);
      var (w2, r2) := VideoResponseAsWritten(w1, 12, S2, None, Num(1), false);
      && r1.Failure? && r2.Success?
      && w2.ready && 12 in w2.snapshots
      && !FramesMatch(w2.frames, w2.snapshots[12], 1)
  {
    ExampleFrames();
    ExampleValid();
    StaleFramesMarkedReady(S1, S2, S1, 1, None, Num(1));
  }

  /** The corrected request on the same history leaves frames that show
      `S2`. */
  lemma StaleFramesCorrectedExample()
    ensures var (t1, r1) := VideoResponse(Tracked(World(map[10 := S1], true, S1), Some(10)), 11, S2, Some(Param.NotANumber), Num(1), false);
      var (t2, r2) := VideoResponse(t1, 12, S2, None, Num(1), false);
      && r1.Failure? && r2.Success?
      && t2.world.ready && 12 in t2.world.snapshots
      && FramesMatch(t2.world.frames, t2.world.snapshots[12], 1)
  {
    ExampleFrames();
    ExampleAnchored();
    ExampleValid();
    StaleFramesCorrected(S1, S2, S1, 1, None, Num(1));
  }

  /** Both snapshots start on day 1. */
  lemma ExampleAnchored()
    ensures Anchored(S1, 1) && Anchored(S2, 1)
  {
  }

  /** The whole history of five days at one second is a valid request. */
  lemma ExampleValid()
    ensures ValidateAsWritten(|SortedDates(S2)|, None, Num(1)).Success?
    ensures Validate(|SortedDates(S2)|, None, Num(1)).Success?
  {
    ExampleFiveDays();
    assert FrameCount(5, None) == Success(5);
    assert FloorDiv(5, 1) == Finite(5);
  }

  lemma ExampleFiveDays()
    ensures |SortedDates(S2)| == 5
  {
    var keys: set<Date> := {1, 2, 3, 4, 5};
    assert S2.Keys == keys;
    assert |keys| == 5;
  }
}
