/** The diff engine (src/responses/mapvideo.ts): which days of the current
    snapshot need a new frame, given the snapshot the stored frames were
    computed from. The source compares `JSON.stringify` of the two entries
    of a key; for `{color}` objects that is equality of the optional colour. */
module DiffEngine {
  import opened Snapshot
  import Sorting

  /** Chronological order of dates. */
  predicate Earlier(a: Date, b: Date)
  {
    a < b
  }

  /** `Earlier` is a strict total order. */
  lemma DateOrder()
    ensures Sorting.StrictTotalOrder(Earlier)
  {
  }

  /** Dates in strictly chronological order. */
  predicate Increasing(s: seq<Date>)
  {
    forall i, j :: 0 <= i < j < |s| ==> s[i] < s[j]
  }

  /** A set of dates in chronological order. */
  function Chronological(dates: set<Date>): (keys: seq<Date>)
    ensures |keys| == |dates|
    ensures forall d :: d in keys <==> d in dates
    ensures Increasing(keys)
  {
    DateOrder();
    Sorting.SortSet(dates, Earlier)
  }

  /** Any chronological listing of exactly the dates is `Chronological`. */
  lemma ChronologicalUnique(dates: set<Date>, keys: seq<Date>)
    requires Increasing(keys)
    requires forall d :: d in keys <==> d in dates
    ensures keys == Chronological(dates)
  {
    DateOrder();
    assert Sorting.StrictlySorted(keys, Earlier);
    assert forall d :: d in keys <==> d in dates;
    Sorting.SortedUnique(dates, Earlier, keys);
  }

  /** `Object.keys(colorsPerDay).sort(...)`: the days of a snapshot in
      chronological order. */
  function SortedDates(snap: ColorSnapshot): (keys: seq<Date>)
    ensures |keys| == |snap.Keys|
    ensures forall d :: d in keys <==> d in snap
    ensures Increasing(keys)
  {
    Chronological(snap.Keys)
  }

  /** Day `d` of `cur` needs a frame: it is not in `prev`, or some key of the
      current day has no entry or a different colour in the previous day. Keys
      only in the previous day play no part. */
  predicate Stale(cur: ColorSnapshot, prev: ColorSnapshot, d: Date)
    requires d in cur
  {
    d !in prev || exists k :: k in cur[d] && (k !in prev[d] || prev[d][k] != cur[d][k])
  }

  /** The stale days among `keys`, in the order of `keys` (reference
      definition of the diff). */
  function StaleDates(keys: seq<Date>, cur: ColorSnapshot, prev: ColorSnapshot): (r: seq<Date>)
    requires forall i :: 0 <= i < |keys| ==> keys[i] in cur
    ensures forall i :: 0 <= i < |r| ==> r[i] in cur
  {
    if |keys| == 0 then []
    else
      var last := keys[|keys| - 1];
      StaleDates(keys[..|keys| - 1], cur, prev) + (if Stale(cur, prev, last) then [last] else [])
  }

  /** The source's loops: each date not in the previous snapshot is taken; for
      any other date the keys of the current day are compared one by one,
      stopping at the first difference. */
  method Diff(keys: seq<Date>, cur: ColorSnapshot, prev: ColorSnapshot) returns (diffs: seq<Date>)
    requires forall i :: 0 <= i < |keys| ==> keys[i] in cur
    ensures diffs == StaleDates(keys, cur, prev)
  {
    diffs := [];
    var i := 0;
    while i < |keys|
      invariant 0 <= i <= |keys|
      invariant diffs == StaleDates(keys[..i], cur, prev)
    {
      var date := keys[i];
      assert keys[..i + 1][..i] == keys[..i];
      if date !in prev {
        diffs := diffs + [date];
      } else {
        var remaining := cur[date].Keys;
        var changed := false;
        while remaining != {}
          invariant remaining <= cur[date].Keys
          invariant !changed
          invariant forall k :: k in cur[date] && k !in remaining ==> k in prev[date] && prev[date][k] == cur[date][k]
          decreases remaining
        {
          var k :| k in remaining;
          if k !in prev[date] || prev[date][k] != cur[date][k] {
            changed := true;
            break;
          }
          remaining := remaining - {k};
        }
        if changed {
          diffs := diffs + [date];
        }
      }
      i := i + 1;
    }
    assert keys[..|keys|] == keys;
  }

  /** A date is in the diff exactly when it is one of the keys and stale. */
  lemma {:induction false} StaleDatesMembers(keys: seq<Date>, cur: ColorSnapshot, prev: ColorSnapshot)
    requires forall i :: 0 <= i < |keys| ==> keys[i] in cur
    ensures forall d :: d in StaleDates(keys, cur, prev) <==> d in keys && Stale(cur, prev, d)
  {
    if |keys| > 0 {
      var prefix := keys[..|keys| - 1];
      StaleDatesMembers(prefix, cur, prev);
      assert keys == prefix + [keys[|keys| - 1]];
    }
  }

  /** On chronologically sorted keys the diff is chronological and free of
      duplicates: an in-order subsequence of the keys. */
  lemma {:induction false} StaleDatesSorted(keys: seq<Date>, cur: ColorSnapshot, prev: ColorSnapshot)
    requires forall i :: 0 <= i < |keys| ==> keys[i] in cur
    requires Increasing(keys)
    ensures Increasing(StaleDates(keys, cur, prev))
  {
    if |keys| > 0 {
      var prefix := keys[..|keys| - 1];
      StaleDatesSorted(prefix, cur, prev);
      StaleDatesMembers(prefix, cur, prev);
      var before := StaleDates(prefix, cur, prev);
      var last := keys[|keys| - 1];
      forall i | 0 <= i < |before|
        ensures before[i] < last
      {
        assert before[i] in before;
        var j :| 0 <= j < |prefix| && prefix[j] == before[i];
        assert keys[j] == prefix[j];
      }
      var diffs := StaleDates(keys, cur, prev);
      assert diffs == before + (if Stale(cur, prev, last) then [last] else []);
      forall i, j | 0 <= i < j < |diffs|
        ensures diffs[i] < diffs[j]
      {
        assert diffs[i] == before[i];
        if j == |before| {
          assert diffs[j] == last;
        } else {
          assert diffs[j] == before[j];
        }
      }
    }
  }

  /** A day missing from the previous snapshot is always in the diff; a day whose
      current keys all have equal entries in the previous day never is. */
  lemma DiffNewAndUnchanged(keys: seq<Date>, cur: ColorSnapshot, prev: ColorSnapshot, d: Date)
    requires forall i :: 0 <= i < |keys| ==> keys[i] in cur
    requires d in keys
    ensures d !in prev ==> d in StaleDates(keys, cur, prev)
    ensures d in prev && (forall k :: k in cur[d] ==> k in prev[d] && prev[d][k] == cur[d][k]) ==>
      d !in StaleDates(keys, cur, prev)
  {
    StaleDatesMembers(keys, cur, prev);
  }

  /** Against an empty previous snapshot every day is in the diff. */
  lemma {:induction false} DiffAgainstNothing(keys: seq<Date>, cur: ColorSnapshot)
    requires forall i :: 0 <= i < |keys| ==> keys[i] in cur
    ensures StaleDates(keys, cur, map[]) == keys
  {
    if |keys| > 0 {
      DiffAgainstNothing(keys[..|keys| - 1], cur);
      assert keys == keys[..|keys| - 1] + [keys[|keys| - 1]];
    }
  }

  /** A snapshot compared with itself has no stale day, so an unchanged
      classification re-renders nothing. */
  lemma {:induction false} DiffAgainstItself(keys: seq<Date>, cur: ColorSnapshot)
    requires forall i :: 0 <= i < |keys| ==> keys[i] in cur
    ensures StaleDates(keys, cur, cur) == []
  {
    if |keys| > 0 {
      DiffAgainstItself(keys[..|keys| - 1], cur);
    }
  }

  /** Keys present only in previous days never matter: two previous snapshots with the
      same days that agree on every key of the current days give the same
      diff. */
  lemma {:induction false} DiffIgnoresDroppedKeys(keys: seq<Date>, cur: ColorSnapshot, prev1: ColorSnapshot, prev2: ColorSnapshot)
    requires forall i :: 0 <= i < |keys| ==> keys[i] in cur
    requires forall i :: 0 <= i < |keys| ==> (keys[i] in prev1 <==> keys[i] in prev2)
    requires forall i, k :: 0 <= i < |keys| && keys[i] in prev1 && k in cur[keys[i]] ==>
      (k in prev1[keys[i]] <==> k in prev2[keys[i]]) &&
      (k in prev1[keys[i]] ==> prev1[keys[i]][k] == prev2[keys[i]][k])
    ensures StaleDates(keys, cur, prev1) == StaleDates(keys, cur, prev2)
  {
    if |keys| > 0 {
      DiffIgnoresDroppedKeys(keys[..|keys| - 1], cur, prev1, prev2);
      var d := keys[|keys| - 1];
      assert Stale(cur, prev1, d) <==> Stale(cur, prev2, d);
    }
  }
}
