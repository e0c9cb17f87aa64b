/** Artifact names and retention (src/responses/mapvideo.ts): the video
    ledger of a region keeps only the five newest videos of the current
    reference date, and the snapshot files of a region are cut back to the
    newest two. Directory listings are sets of distinct names. */
module Retention {
  import opened Wrappers
  import opened Text
  import opened Snapshot
  import Sorting

  /** The string value of the region enum. */
  function RegionName(region: Region): string
  {
    match region
    case Districts => "districts"
    case States => "states"
  }

  /** A number as the name shows it: `toString` padded to four digits. */
  function Padded(n: nat): string
  {
    PadStart(NatToString(n), 4, '0')
  }

  /** The name of a video: region, reference date, days and duration, the
      two numbers zero-padded to four digits. */
  function VideoFileName(region: Region, refDate: string, days: nat, duration: nat): (name: string)
    ensures Contains(name, refDate)
    ensures |name| >= |VideoPrefix(region)| && name[..|VideoPrefix(region)|] == VideoPrefix(region)
  {
    ContainsInfix(VideoPrefix(region), refDate, DaysPart(days, duration));
    VideoPrefix(region) + refDate + DaysPart(days, duration)
  }

  function VideoPrefix(region: Region): string
  {
    "./videos/" + RegionName(region) + "_"
  }

  function DaysPart(days: nat, duration: nat): string
  {
    "_Days" + (Padded(days) + DurationPart(duration))
  }

  function DurationPart(duration: nat): string
  {
    "_Duration" + (Padded(duration) + ".mp4")
  }

  /** A padded number is all digits and reads back as the number. */
  lemma PaddedNumber(n: nat)
    ensures forall i :: 0 <= i < |Padded(n)| ==> '0' <= Padded(n)[i] <= '9'
    ensures DecimalValue(Padded(n)) == n
  {
    var s := NatToString(n);
    var p := PadStart(s, 4, '0');
    NatToStringRoundTrip(n);
    var zeros := p[..|p| - |s|];
    assert p == zeros + s;
    assert forall i :: 0 <= i < |zeros| ==> zeros[i] == p[i] == '0';
    LeadingZeros(zeros, s);
    forall i | 0 <= i < |p|
      ensures '0' <= p[i] <= '9'
    {
      if i >= |zeros| {
        assert p[i] == s[i - |zeros|];
      }
    }
  }

  /** Leading zeros do not change the value of a digit string. */
  lemma {:induction false} LeadingZeros(zeros: string, s: string)
    requires forall i :: 0 <= i < |zeros| ==> zeros[i] == '0'
    ensures DecimalValue(zeros + s) == DecimalValue(s)
  {
    if |s| == 0 {
      assert zeros + s == zeros;
      AllZeros(zeros);
    } else {
      LeadingZeros(zeros, s[..|s| - 1]);
      assert (zeros + s)[..|zeros + s| - 1] == zeros + s[..|s| - 1];
    }
  }

  lemma {:induction false} AllZeros(zeros: string)
    requires forall i :: 0 <= i < |zeros| ==> zeros[i] == '0'
    ensures DecimalValue(zeros) == 0
  {
    if |zeros| > 0 {
      AllZeros(zeros[..|zeros| - 1]);
    }
  }

  predicate IsDigit(c: char)
  {
    '0' <= c <= '9'
  }

  /** The number of leading digit characters. */
  function DigitRun(s: string): nat
  {
    if |s| == 0 || !IsDigit(s[0]) then 0 else 1 + DigitRun(s[1..])
  }

  lemma {:induction false} DigitRunOfConcat(a: string, x: string)
    requires forall i :: 0 <= i < |a| ==> IsDigit(a[i])
    requires |x| > 0 && !IsDigit(x[0])
    ensures DigitRun(a + x) == |a|
  {
    if |a| == 0 {
      assert a + x == x;
    } else {
      assert (a + x)[1..] == a[1..] + x;
      DigitRunOfConcat(a[1..], x);
    }
  }

  /** Two digit strings each followed by a part that starts with a
      non-digit: equal concatenations mean equal parts. */
  lemma SplitAtSeparator(a: string, b: string, x: string, y: string)
    requires forall i :: 0 <= i < |a| ==> IsDigit(a[i])
    requires forall i :: 0 <= i < |b| ==> IsDigit(b[i])
    requires |x| > 0 && |y| > 0 && !IsDigit(x[0]) && !IsDigit(y[0])
    requires a + x == b + y
    ensures a == b && x == y
  {
    DigitRunOfConcat(a, x);
    DigitRunOfConcat(b, y);
    assert a == (a + x)[..|a|];
    assert b == (b + y)[..|b|];
    assert x == (a + x)[|a|..];
    assert y == (b + y)[|b|..];
  }

  /** A video name determines the requested days and duration, so the
      cache lookup by name never returns a video of another request. */
  lemma VideoFileNameInjective(region: Region, refDate: string, d1: nat, t1: nat, d2: nat, t2: nat)
    requires VideoFileName(region, refDate, d1, t1) == VideoFileName(region, refDate, d2, t2)
    ensures d1 == d2 && t1 == t2
  {
    var head := VideoPrefix(region) + refDate;
    var n1, n2 := VideoFileName(region, refDate, d1, t1), VideoFileName(region, refDate, d2, t2);
    assert DaysPart(d1, t1) == n1[|head|..] == n2[|head|..] == DaysPart(d2, t2);
    var r1, r2 := Padded(d1) + DurationPart(t1), Padded(d2) + DurationPart(t2);
    assert r1 == DaysPart(d1, t1)[5..] == DaysPart(d2, t2)[5..] == r2;
    PaddedNumber(d1); PaddedNumber(d2); PaddedNumber(t1); PaddedNumber(t2);
    assert DurationPart(t1)[0] == '_' && DurationPart(t2)[0] == '_';
    SplitAtSeparator(Padded(d1), Padded(d2), DurationPart(t1), DurationPart(t2));
    var e1, e2 := Padded(t1) + ".mp4", Padded(t2) + ".mp4";
    assert e1 == DurationPart(t1)[9..] == DurationPart(t2)[9..] == e2;
    SplitAtSeparator(Padded(t1), Padded(t2), ".mp4", ".mp4");
  }

  /** The reference date occurs in the name of every video made for it. */
  lemma VideoFileNameMentionsDate(region: Region, refDate: string, days: nat, duration: nat)
    ensures Contains(VideoFileName(region, refDate, days, duration), refDate)
  {
    ContainsInfix(VideoPrefix(region), refDate, DaysPart(days, duration));
  }

  // ----- Video ledger -----

  /** An entry of the per-region video list in the status ledger. */
  datatype VideoRecord = VideoRecord(filename: string, created: int)

  /** The most videos kept per region. */
  const MaxVideos: nat := 5

  predicate NewestFirst(vs: seq<VideoRecord>)
  {
    forall i, j :: 0 <= i < j < |vs| ==> vs[i].created >= vs[j].created
  }

  /** Inserts `v` before the first entry that is not newer than it. */
  function InsertNewestFirst(v: VideoRecord, vs: seq<VideoRecord>): (r: seq<VideoRecord>)
    requires NewestFirst(vs)
    ensures NewestFirst(r)
    ensures multiset(r) == multiset(vs) + multiset{v}
    ensures |r| > 0 && (r[0] == v || (|vs| > 0 && r[0] == vs[0]))
  {
    if |vs| == 0 || v.created >= vs[0].created then [v] + vs
    else
      assert vs == [vs[0]] + vs[1..];
      var rest := InsertNewestFirst(v, vs[1..]);
      ConsNewestFirst(vs[0], rest);
      [vs[0]] + rest
  }

  /** An entry no older than the head of a newest-first list may go in front. */
  lemma ConsNewestFirst(x: VideoRecord, vs: seq<VideoRecord>)
    requires NewestFirst(vs)
    requires |vs| > 0 ==> vs[0].created <= x.created
    ensures NewestFirst([x] + vs)
  {
    assert forall i :: 0 <= i < |vs| ==> vs[i].created <= x.created by {
      forall i | 0 <= i < |vs|
        ensures vs[i].created <= x.created
      {
        assert i == 0 || vs[0].created >= vs[i].created;
      }
    }
  }

  /** The stable sort by `created`, newest first: earlier entries of equal
      age stay in front. */
  function SortNewestFirst(vs: seq<VideoRecord>): (r: seq<VideoRecord>)
    ensures NewestFirst(r)
    ensures multiset(r) == multiset(vs)
  {
    if |vs| == 0 then []
    else
      assert vs == [vs[0]] + vs[1..];
      InsertNewestFirst(vs[0], SortNewestFirst(vs[1..]))
  }

  /** The entries whose file name mentions `refDate` (`keep`) or does not
      (`!keep`), in order. */
  function FilterByDate(vs: seq<VideoRecord>, refDate: string, keep: bool): (r: seq<VideoRecord>)
    ensures forall v :: v in r <==> v in vs && Contains(v.filename, refDate) == keep
  {
    if |vs| == 0 then []
    else
      assert vs == [vs[0]] + vs[1..];
      (if Contains(vs[0].filename, refDate) == keep then [vs[0]] else []) + FilterByDate(vs[1..], refDate, keep)
  }

  /** The two filters split the entries. */
  lemma {:induction false} FilterSplits(vs: seq<VideoRecord>, refDate: string)
    ensures multiset(FilterByDate(vs, refDate, true)) + multiset(FilterByDate(vs, refDate, false)) == multiset(vs)
  {
    if |vs| > 0 {
      FilterSplits(vs[1..], refDate);
      assert vs == [vs[0]] + vs[1..];
    }
  }

  /** In a newest-first list every entry of the front is at least as new
      as every entry of the back. */
  lemma FrontNewer(vs: seq<VideoRecord>, n: nat, w: VideoRecord)
    requires NewestFirst(vs) && n <= |vs|
    requires w in vs[n..]
    ensures forall u :: u in vs[..n] ==> u.created >= w.created
  {
    var j :| 0 <= j < |vs[n..]| && vs[n..][j] == w;
    forall u | u in vs[..n]
      ensures u.created >= w.created
    {
      var i :| 0 <= i < n && vs[..n][i] == u;
      assert vs[i] == u && vs[n + j] == w;
    }
  }

  /** The source's `pop` loop: removes entries from the end of a list
      until at most five are left. */
  method DropOldest(current: seq<VideoRecord>) returns (kept: seq<VideoRecord>, dropped: seq<VideoRecord>)
    ensures |kept| == if |current| < MaxVideos then |current| else MaxVideos
    ensures kept == current[..|kept|]
    ensures multiset(dropped) == multiset(current[|kept|..])
  {
    kept := current;
    dropped := [];
    while |kept| > MaxVideos
      invariant |kept| >= MaxVideos || kept == current
      invariant |kept| <= |current| && kept == current[..|kept|]
      invariant multiset(dropped) == multiset(current[|kept|..])
    {
      var last := kept[|kept| - 1];
      assert current[|kept| - 1..] == [last] + current[|kept|..];
      dropped := dropped + [last];
      kept := kept[..|kept| - 1];
    }
  }

  /** Records a new video in a region's list: the new entry is appended,
      entries of other reference dates are removed, and of the rest only
      the five newest stay. Returns the new list and the entries whose
      files are deleted. */
  method RecordVideo(videos: seq<VideoRecord>, v: VideoRecord, refDate: string)
    returns (kept: seq<VideoRecord>, deleted: seq<VideoRecord>)
    ensures forall w :: w in kept ==> Contains(w.filename, refDate)
    ensures NewestFirst(kept)
    ensures multiset(kept) + multiset(deleted) == multiset(videos + [v])
    ensures forall w :: w in deleted ==> !Contains(w.filename, refDate) || forall u :: u in kept ==> u.created >= w.created
    ensures |kept| == if |FilterByDate(videos + [v], refDate, true)| < MaxVideos then |FilterByDate(videos + [v], refDate, true)| else MaxVideos
  {
    var all := videos + [v];
    var other := FilterByDate(all, refDate, false);
    var current := SortNewestFirst(FilterByDate(all, refDate, true));
    FilterSplits(all, refDate);
    var dropped;
    kept, dropped := DropOldest(current);
    deleted := other + dropped;
    KeptAndDeleted(all, refDate, other, current, kept, dropped);
    KeptSizeAndOrder(all, refDate, other, current, kept, dropped);
  }

  /** The order, size and permutation facts of `RecordVideo`. */
  lemma KeptSizeAndOrder(all: seq<VideoRecord>, refDate: string, other: seq<VideoRecord>, current: seq<VideoRecord>,
                         kept: seq<VideoRecord>, dropped: seq<VideoRecord>)
    requires other == FilterByDate(all, refDate, false)
    requires multiset(current) == multiset(FilterByDate(all, refDate, true))
    requires multiset(FilterByDate(all, refDate, true)) + multiset(other) == multiset(all)
    requires NewestFirst(current)
    requires |kept| == if |current| < MaxVideos then |current| else MaxVideos
    requires kept == current[..|kept|]
    requires multiset(dropped) == multiset(current[|kept|..])
    ensures NewestFirst(kept)
    ensures multiset(kept) + multiset(other + dropped) == multiset(all)
    ensures |kept| == if |FilterByDate(all, refDate, true)| < MaxVideos then |FilterByDate(all, refDate, true)| else MaxVideos
  {
    assert current == kept + current[|kept|..];
    assert |current| == |FilterByDate(all, refDate, true)| by {
      assert |multiset(current)| == |multiset(FilterByDate(all, refDate, true))|;
    }
  }

  /** The facts of `RecordVideo` about the two parts of the list. */
  lemma KeptAndDeleted(all: seq<VideoRecord>, refDate: string, other: seq<VideoRecord>, current: seq<VideoRecord>,
                       kept: seq<VideoRecord>, dropped: seq<VideoRecord>)
    requires other == FilterByDate(all, refDate, false)
    requires multiset(current) == multiset(FilterByDate(all, refDate, true))
    requires NewestFirst(current)
    requires |kept| <= |current| && kept == current[..|kept|]
    requires multiset(dropped) == multiset(current[|kept|..])
    ensures forall w :: w in kept ==> Contains(w.filename, refDate)
    ensures forall w :: w in other + dropped ==> !Contains(w.filename, refDate) || forall u :: u in kept ==> u.created >= w.created
  {
    var back := current[|kept|..];
    assert current == kept + back;
    assert multiset(current) == multiset(kept) + multiset(back);
    forall w | w in other + dropped && Contains(w.filename, refDate)
      ensures forall u :: u in kept ==> u.created >= w.created
    {
      assert w !in other;
      assert w in multiset(dropped);
      FrontNewer(current, |kept|, w);
    }
    forall w | w in kept
      ensures Contains(w.filename, refDate)
    {
      assert w in multiset(current);
    }
  }

  /** A new video that is newer than every entry already listed survives
      its own clean-up, at the head of the list. */
  method RecordNewestVideo(videos: seq<VideoRecord>, region: Region, refDate: string, days: nat, duration: nat, created: int)
    returns (kept: seq<VideoRecord>, deleted: seq<VideoRecord>)
    requires forall w :: w in videos ==> w.created < created
    ensures |kept| > 0 && kept[0] == VideoRecord(VideoFileName(region, refDate, days, duration), created)
  {
    var v := VideoRecord(VideoFileName(region, refDate, days, duration), created);
    VideoFileNameMentionsDate(region, refDate, days, duration);
    kept, deleted := RecordVideo(videos, v, refDate);
    assert v in FilterByDate(videos + [v], refDate, true);
    assert |kept| > 0;
    assert v in multiset(videos + [v]);
    assert v in multiset(kept) + multiset(deleted);
    assert kept[0] in kept;
    assert kept[0] in multiset(videos + [v]);
  }

  // ----- Snapshot files -----

  /** The filter of the clean-up: every snapshot file of the region. */
  function IncidencePattern(region: Region): string
  {
    RegionName(region) + "-incidence"
  }

  /** The filter of the diff base: the colour snapshots of the region. */
  function SnapshotPattern(region: Region): string
  {
    IncidencePattern(region) + "ColorsPerDay_"
  }

  /** The name of the snapshot file of a region and reference date. */
  function SnapshotFileName(region: Region, refDate: string): (name: string)
    ensures Contains(name, SnapshotPattern(region))
    ensures Contains(name, IncidencePattern(region))
    ensures Contains(name, refDate)
  {
    var rest := refDate + ".json";
    ContainsStart(SnapshotPattern(region), rest);
    ContainsStart(IncidencePattern(region), "ColorsPerDay_");
    ContainsExtend(SnapshotPattern(region), IncidencePattern(region), rest);
    ContainsInside(SnapshotPattern(region), refDate, ".json");
    SnapshotPattern(region) + rest
  }

  /** Snapshot files of one region sort like their reference dates, as
      long as the dates are written with the same number of characters
      (as `YYYY-MM-DD` dates are). */
  lemma SnapshotNameOrder(region: Region, d1: string, d2: string)
    requires |d1| == |d2|
    ensures LexLess(SnapshotFileName(region, d1), SnapshotFileName(region, d2)) <==> LexLess(d1, d2)
  {
    var prefix := SnapshotPattern(region);
    assert SnapshotFileName(region, d1) == prefix + (d1 + ".json");
    assert SnapshotFileName(region, d2) == prefix + (d2 + ".json");
    LexLessCommonPrefix(prefix, d1 + ".json", d2 + ".json");
    LexLessCommonSuffix(d1, d2, ".json");
  }

  /** Descending order of file names (`a > b ? -1 : 1`). */
  lemma Descending()
    ensures Sorting.StrictTotalOrder((a: string, b: string) => LexLess(b, a))
  {
    forall a: string
      ensures !LexLess(a, a)
    {
      LexLessIrreflexive(a);
    }
    forall a: string, b: string, c: string | LexLess(b, a) && LexLess(c, b)
      ensures LexLess(c, a)
    {
      LexLessTransitive(c, b, a);
    }
    forall a: string, b: string | a != b
      ensures LexLess(b, a) || LexLess(a, b)
    {
      LexLessTotal(a, b);
    }
  }

  /** The names of a directory listing that contain `pattern`. */
  function Matching(files: set<string>, pattern: string): set<string>
  {
    set f | f in files && Contains(f, pattern)
  }

  /** The matching names, greatest first. */
  function NewestFirstNames(files: set<string>, pattern: string): (r: seq<string>)
    ensures forall f :: f in r <==> f in Matching(files, pattern)
    ensures |r| == |Matching(files, pattern)|
    ensures forall i, j :: 0 <= i < j < |r| ==> LexLess(r[j], r[i])
  {
    Descending();
    Sorting.SortSet(Matching(files, pattern), (a: string, b: string) => LexLess(b, a))
  }

  /** The snapshot file the stored frames are assumed to come from: the
      second greatest snapshot file name of the region, if there are two. */
  function PreviousSnapshotFile(files: set<string>, region: Region): (r: Option<string>)
    ensures var matching := Matching(files, SnapshotPattern(region));
      && (r.Some? <==> |matching| >= 2)
      && (r.Some? ==> r.value in matching
                      && (exists top :: top in matching && LexLess(r.value, top)
                                       && forall f :: f in matching && f != top && f != r.value ==> LexLess(f, r.value)))
  {
    var sorted := NewestFirstNames(files, SnapshotPattern(region));
    if |sorted| > 1 then
      assert forall f :: f in sorted && f != sorted[0] && f != sorted[1] ==> LexLess(f, sorted[1]) by {
        forall f | f in sorted && f != sorted[0] && f != sorted[1]
          ensures LexLess(f, sorted[1])
        {
          var k :| 0 <= k < |sorted| && sorted[k] == f;
        }
      }
      Some(sorted[1])
    else None
  }

  /** The snapshot files of a region to delete: all but the two greatest
      names containing `<region>-incidence`, when there are more than two. */
  function SnapshotFilesToDelete(files: set<string>, region: Region): (deleted: set<string>)
    ensures var matching := Matching(files, IncidencePattern(region));
      && deleted <= matching
      && |matching - deleted| == (if |matching| < 2 then |matching| else 2)
      && forall d, k :: d in deleted && k in matching - deleted ==> LexLess(d, k)
  {
    var matching := Matching(files, IncidencePattern(region));
    var sorted := NewestFirstNames(files, IncidencePattern(region));
    if |sorted| > 2 then
      KeepGreatestTwo(matching, sorted);
      matching - {sorted[0], sorted[1]}
    else
      {}
  }

  /** Removing the first two names of the descending listing of `matching`
      deletes every name but the two greatest. */
  lemma KeepGreatestTwo(matching: set<string>, sorted: seq<string>)
    requires forall f :: f in sorted <==> f in matching
    requires |sorted| == |matching| > 2
    requires forall i, j :: 0 <= i < j < |sorted| ==> LexLess(sorted[j], sorted[i])
    ensures var deleted := matching - {sorted[0], sorted[1]};
      && matching - deleted == {sorted[0], sorted[1]}
      && |matching - deleted| == 2
      && forall d, k :: d in deleted && k in matching - deleted ==> LexLess(d, k)
  {
    var newest := {sorted[0], sorted[1]};
    assert sorted[0] != sorted[1] by {
      LexLessIrreflexive(sorted[0]);
    }
    assert |newest| == 2;
    assert matching - (matching - newest) == newest;
    forall d | d in matching - newest
      ensures LexLess(d, sorted[0]) && LexLess(d, sorted[1])
    {
      var i :| 0 <= i < |sorted| && sorted[i] == d;
    }
  }
}
