/** `ColorsPerDay` does not depend on the order in which the regions are
    visited (`Object.keys` promises no particular order): the aggregates are
    built from a running sum and count and strict min / max comparisons, and
    every region writes only its own entries. */
module SnapshotOrder {
  import opened Wrappers
  import opened Snapshot
  import StateCodes
  import Text
  import Sorting

  /** No two regions share a key, as for the keys of one JSON object. */
  ghost predicate DistinctKeys(rs: seq<RegionHistory>) {
    forall i, j :: 0 <= i < j < |rs| ==> rs[i].key != rs[j].key
  }

  lemma {:induction false} FlattenAppend<T, U>(a: seq<T>, b: seq<T>, f: T -> seq<U>)
    ensures Flatten(a + b, f) == Flatten(a, f) + Flatten(b, f)
    decreases |b|
  {
    if |b| == 0 {
      assert a + b == a;
    } else {
      var b', last := b[..|b| - 1], b[|b| - 1];
      FlattenAppend(a, b', f);
      assert (a + b)[..|a + b| - 1] == a + b';
      assert (a + b)[|a + b| - 1] == last;
      var fa, fb', fl := Flatten(a, f), Flatten(b', f), f(last);
      assert (fa + fb') + fl == fa + (fb' + fl);
    }
  }

  lemma ContributionsAppend(a: seq<RegionHistory>, b: seq<RegionHistory>, incidence: (int, int) -> real)
    ensures Contributions(a + b, incidence) == Contributions(a, incidence) + Contributions(b, incidence)
  {
    FlattenAppend(a, b, (r: RegionHistory) => RegionContributions(r, incidence));
  }

  lemma {:induction false} RealSumAppend(a: seq<real>, b: seq<real>)
    ensures RealSum(a + b) == RealSum(a) + RealSum(b)
    decreases |b|
  {
    if |b| == 0 {
      assert a + b == a;
    } else {
      RealSumAppend(a, b[..|b| - 1]);
      assert (a + b)[..|a + b| - 1] == a + b[..|b| - 1];
    }
  }

  /** The sum of reals depends only on the multiset of summands. */
  lemma {:induction false} RealSumPermutation(s: seq<real>, t: seq<real>)
    requires multiset(s) == multiset(t)
    ensures RealSum(s) == RealSum(t)
    decreases |s|
  {
    if |s| == 0 {
      assert |t| == |multiset(t)| == 0;
    } else {
      var x := s[|s| - 1];
      var prefix := s[..|s| - 1];
      var j := Sorting.PermutationRemoveLast(s, t);
      var rest := t[..j] + t[j + 1..];
      RealSumPermutation(prefix, rest);
      RealSumAppend(t[..j] + [x], t[j + 1..]);
      RealSumAppend(t[..j], [x]);
      RealSumAppend(t[..j], t[j + 1..]);
      assert RealSum([x]) == x by {
        assert [x][..0] == [];
      }
    }
  }

  /** An aggregate is determined by the multiset of its values. */
  lemma SummarizesUnique(a1: DayAggregate, vs1: seq<real>, a2: DayAggregate, vs2: seq<real>, colorOf: real -> Color)
    requires Summarizes(a1, vs1, colorOf) && Summarizes(a2, vs2, colorOf)
    requires multiset(vs1) == multiset(vs2)
    ensures a1 == a2
  {
    assert |vs1| == |multiset(vs1)| == |multiset(vs2)| == |vs2|;
    RealSumPermutation(vs1, vs2);
    assert a1.min in multiset(vs2) && a2.min in multiset(vs1);
    assert a1.max in multiset(vs2) && a2.max in multiset(vs1);
  }

  /** The values of a day over two lists of regions with the same elements
      form the same multiset. */
  lemma {:induction false} DayValuesPermutation(rs1: seq<RegionHistory>, rs2: seq<RegionHistory>,
                                                incidence: (int, int) -> real, d: Date)
    requires multiset(rs1) == multiset(rs2)
    ensures multiset(DayValues(Contributions(rs1, incidence), d)) == multiset(DayValues(Contributions(rs2, incidence), d))
    decreases |rs1|
  {
    if |rs1| == 0 {
      assert |rs2| == |multiset(rs2)| == 0;
    } else {
      var x := rs1[|rs1| - 1];
      var prefix := rs1[..|rs1| - 1];
      var j := Sorting.PermutationRemoveLast(rs1, rs2);
      var before, after := rs2[..j], rs2[j + 1..];
      DayValuesPermutation(prefix, before + after, incidence, d);
      var own := RegionContributions(x, incidence);
      ContributionsAppend(before + [x], after, incidence);
      ContributionsAppend(before, [x], incidence);
      ContributionsAppend(before, after, incidence);
      assert Contributions([x], incidence) == own by {
        assert [x][..0] == [];
      }
      DayValuesAppend(Contributions(prefix, incidence), own, d);
      DayValuesAppend(Contributions(before, incidence) + own, Contributions(after, incidence), d);
      DayValuesAppend(Contributions(before, incidence), own, d);
      DayValuesAppend(Contributions(before, incidence), Contributions(after, incidence), d);
    }
  }

  lemma {:induction false} LastWriteAppend(a: seq<Contribution>, b: seq<Contribution>, d: Date, k: string)
    ensures LastWrite(a + b, d, k) == if LastWrite(b, d, k).Some? then LastWrite(b, d, k) else LastWrite(a, d, k)
    decreases |b|
  {
    if |b| == 0 {
      assert a + b == a;
    } else {
      LastWriteAppend(a, b[..|b| - 1], d, k);
      assert (a + b)[..|a + b| - 1] == a + b[..|b| - 1];
    }
  }

  lemma {:induction false} LastWriteOtherSlot(cs: seq<Contribution>, d: Date, k: string)
    requires forall j :: 0 <= j < |cs| ==> cs[j].slot != k
    ensures LastWrite(cs, d, k).None?
  {
    if |cs| > 0 {
      LastWriteOtherSlot(cs[..|cs| - 1], d, k);
    }
  }

  /** With distinct keys, the last write for key `k` is that of the one
      region with key `k`, and there is none if no region has it. */
  lemma {:induction false} LastWriteByRegion(rs: seq<RegionHistory>, incidence: (int, int) -> real, d: Date, k: string)
    requires DistinctKeys(rs)
    ensures (forall i :: 0 <= i < |rs| ==> rs[i].key != k) ==> LastWrite(Contributions(rs, incidence), d, k).None?
    ensures forall i :: 0 <= i < |rs| && rs[i].key == k ==>
      LastWrite(Contributions(rs, incidence), d, k) == LastWrite(RegionContributions(rs[i], incidence), d, k)
  {
    if |rs| > 0 {
      var prefix := rs[..|rs| - 1];
      var x := rs[|rs| - 1];
      LastWriteByRegion(prefix, incidence, d, k);
      LastWriteAppend(Contributions(prefix, incidence), RegionContributions(x, incidence), d, k);
      if x.key != k {
        LastWriteOtherSlot(RegionContributions(x, incidence), d, k);
      } else {
        assert forall i :: 0 <= i < |prefix| ==> prefix[i].key != k;
      }
      forall i | 0 <= i < |rs| && rs[i].key == k
        ensures LastWrite(Contributions(rs, incidence), d, k) == LastWrite(RegionContributions(rs[i], incidence), d, k)
      {
        if i < |prefix| {
          assert prefix[i] == rs[i];
          LastWriteOtherSlot(RegionContributions(x, incidence), d, k);
        }
      }
    }
  }

  lemma LastWritePermutation(rs1: seq<RegionHistory>, rs2: seq<RegionHistory>,
                             incidence: (int, int) -> real, d: Date, k: string)
    requires multiset(rs1) == multiset(rs2)
    requires DistinctKeys(rs1) && DistinctKeys(rs2)
    ensures LastWrite(Contributions(rs1, incidence), d, k) == LastWrite(Contributions(rs2, incidence), d, k)
  {
    LastWriteByRegion(rs1, incidence, d, k);
    LastWriteByRegion(rs2, incidence, d, k);
    if i :| 0 <= i < |rs1| && rs1[i].key == k {
      assert rs1[i] in multiset(rs2);
    } else {
      forall j | 0 <= j < |rs2|
        ensures rs2[j].key != k
      {
        assert rs2[j] in multiset(rs1);
      }
    }
  }

  lemma MapsEqual<K, V>(m1: map<K, V>, m2: map<K, V>)
    requires forall k :: k in m1 <==> k in m2
    requires forall k :: k in m1 ==> m1[k] == m2[k]
    ensures m1 == m2
  {
  }

  /** Aggregates summarizing, day by day, the same multisets of values are
      equal. */
  lemma AggregateMapsEqual(a1: map<Date, DayAggregate>, a2: map<Date, DayAggregate>,
                           cs1: seq<Contribution>, cs2: seq<Contribution>, colorOf: real -> Color)
    requires forall d :: d in a1 <==> DayValues(cs1, d) != []
    requires forall d :: d in a2 <==> DayValues(cs2, d) != []
    requires forall d :: d in a1 ==> Summarizes(a1[d], DayValues(cs1, d), colorOf)
    requires forall d :: d in a2 ==> Summarizes(a2[d], DayValues(cs2, d), colorOf)
    requires forall d :: multiset(DayValues(cs1, d)) == multiset(DayValues(cs2, d))
    ensures a1 == a2
  {
    forall d
      ensures d in a1 <==> d in a2
    {
      assert |DayValues(cs1, d)| == |multiset(DayValues(cs1, d))| == |DayValues(cs2, d)|;
    }
    forall d | d in a1
      ensures a1[d] == a2[d]
    {
      SummarizesUnique(a1[d], DayValues(cs1, d), a2[d], DayValues(cs2, d), colorOf);
    }
    MapsEqual(a1, a2);
  }

  /** Contributions with the same multiset of values on every day build
      the same aggregates. */
  lemma AggregatesFromDayValues(cs1: seq<Contribution>, cs2: seq<Contribution>, colorOf: real -> Color)
    requires forall d :: multiset(DayValues(cs1, d)) == multiset(DayValues(cs2, d))
    ensures Fold(cs1, colorOf).aggregates == Fold(cs2, colorOf).aggregates
  {
    FoldDays(cs1, colorOf);
    FoldDays(cs2, colorOf);
    FoldAggregates(cs1, colorOf);
    FoldAggregates(cs2, colorOf);
    AggregateMapsEqual(Fold(cs1, colorOf).aggregates, Fold(cs2, colorOf).aggregates, cs1, cs2, colorOf);
  }

  /** Day colour maps holding only region entries, each present and
      coloured by the same last writes, are equal. */
  lemma ColorMapsEqual(c1: ColorSnapshot, c2: ColorSnapshot,
                       cs1: seq<Contribution>, cs2: seq<Contribution>, colorOf: real -> Color)
    requires c1.Keys == c2.Keys
    requires forall d, key :: d in c1 && key in c1[d] ==> key.RegionSlot?
    requires forall d, key :: d in c2 && key in c2[d] ==> key.RegionSlot?
    requires forall d, k :: d in c1 ==> (RegionSlot(k) in c1[d] <==> LastWrite(cs1, d, k).Some?)
    requires forall d, k :: d in c2 ==> (RegionSlot(k) in c2[d] <==> LastWrite(cs2, d, k).Some?)
    requires forall d, k :: d in c1 && RegionSlot(k) in c1[d] ==> c1[d][RegionSlot(k)] == colorOf(LastWrite(cs1, d, k).value)
    requires forall d, k :: d in c2 && RegionSlot(k) in c2[d] ==> c2[d][RegionSlot(k)] == colorOf(LastWrite(cs2, d, k).value)
    requires forall d, k :: LastWrite(cs1, d, k) == LastWrite(cs2, d, k)
    ensures c1 == c2
  {
    forall d | d in c1
      ensures c1[d] == c2[d]
    {
      forall key
        ensures key in c1[d] <==> key in c2[d]
      {
        if key.RegionSlot? {
          assert key == RegionSlot(key.id);
        }
      }
      forall key | key in c1[d]
        ensures c1[d][key] == c2[d][key]
      {
        assert key == RegionSlot(key.id);
      }
      MapsEqual(c1[d], c2[d]);
    }
    MapsEqual(c1, c2);
  }

  /** Contributions with the same days and the same last writes build the
      same colours. */
  lemma ColorsFromLastWrites(cs1: seq<Contribution>, cs2: seq<Contribution>, colorOf: real -> Color)
    requires Fold(cs1, colorOf).colors.Keys == Fold(cs2, colorOf).colors.Keys
    requires forall d, k :: LastWrite(cs1, d, k) == LastWrite(cs2, d, k)
    ensures Fold(cs1, colorOf).colors == Fold(cs2, colorOf).colors
  {
    FoldColors(cs1, colorOf);
    FoldColors(cs2, colorOf);
    ColorMapsEqual(Fold(cs1, colorOf).colors, Fold(cs2, colorOf).colors, cs1, cs2, colorOf);
  }

  /** Folding the contributions of the regions in any order builds the same
      colours and aggregates. */
  lemma FoldPermutation(rs1: seq<RegionHistory>, rs2: seq<RegionHistory>,
                        incidence: (int, int) -> real, colorOf: real -> Color)
    requires multiset(rs1) == multiset(rs2)
    requires DistinctKeys(rs1) && DistinctKeys(rs2)
    ensures Fold(Contributions(rs1, incidence), colorOf) == Fold(Contributions(rs2, incidence), colorOf)
  {
    var cs1, cs2 := Contributions(rs1, incidence), Contributions(rs2, incidence);
    forall d
      ensures multiset(DayValues(cs1, d)) == multiset(DayValues(cs2, d))
    {
      DayValuesPermutation(rs1, rs2, incidence, d);
    }
    forall d, k
      ensures LastWrite(cs1, d, k) == LastWrite(cs2, d, k)
    {
      LastWritePermutation(rs1, rs2, incidence, d, k);
    }
    AggregatesFromDayValues(cs1, cs2, colorOf);
    FoldDays(cs1, colorOf);
    FoldDays(cs2, colorOf);
    ColorsFromLastWrites(cs1, cs2, colorOf);
  }

  /** Resolved keys are distinct when the upstream keys are. */
  lemma SlotIdInjective(region: Region, k1: string, k2: string)
    requires SlotId(region, k1).Some? && SlotId(region, k1) == SlotId(region, k2)
    ensures k1 == k2
  {
    if region == States {
      var id1 := StateCodes.IdByAbbreviation(k1).value;
      var id2 := StateCodes.IdByAbbreviation(k2).value;
      Text.NatToStringRoundTrip(id1);
      Text.NatToStringRoundTrip(id2);
    }
  }

  /** A region with its key resolved (left as it is when it cannot be). */
  function Resolved(region: Region, r: RegionHistory): RegionHistory {
    r.(key := SlotId(region, r.key).GetOr(r.key))
  }

  /** Resolving the keys of a permutation gives a permutation. */
  lemma ResolvePermutation(region: Region, rs1: seq<RegionHistory>, rs2: seq<RegionHistory>)
    requires multiset(rs1) == multiset(rs2)
    requires ResolveSlots(region, rs1).Success? && ResolveSlots(region, rs2).Success?
    ensures multiset(ResolveSlots(region, rs1).value) == multiset(ResolveSlots(region, rs2).value)
  {
    Sorting.MapPermutation(rs1, rs2, r => Resolved(region, r),
      ResolveSlots(region, rs1).value, ResolveSlots(region, rs2).value);
  }

  /** The keys of resolved regions are distinct when the upstream keys are. */
  lemma ResolveDistinct(region: Region, rs: seq<RegionHistory>)
    requires DistinctKeys(rs)
    requires ResolveSlots(region, rs).Success?
    ensures DistinctKeys(ResolveSlots(region, rs).value)
  {
    var t := ResolveSlots(region, rs).value;
    forall i, j | 0 <= i < j < |t|
      ensures t[i].key != t[j].key
    {
      if t[i].key == t[j].key {
        SlotIdInjective(region, rs[i].key, rs[j].key);
      }
    }
  }

  /** Visiting the regions (distinct keys, as the keys of one object) in any
      order gives the same snapshot, or fails in both orders. */
  lemma ColorsPerDayOrderIndependent(region: Region, regions1: seq<RegionHistory>, regions2: seq<RegionHistory>,
                                     incidence: (int, int) -> real, colorOf: real -> Color)
    requires multiset(regions1) == multiset(regions2)
    requires DistinctKeys(regions1) && DistinctKeys(regions2)
    ensures ColorsPerDay(region, regions1, incidence, colorOf).Success?
        <==> ColorsPerDay(region, regions2, incidence, colorOf).Success?
    ensures ColorsPerDay(region, regions1, incidence, colorOf).Success? ==>
      ColorsPerDay(region, regions1, incidence, colorOf) == ColorsPerDay(region, regions2, incidence, colorOf)
  {
    if ResolveSlots(region, regions1).Success? {
      forall i | 0 <= i < |regions2|
        ensures SlotId(region, regions2[i].key).Some?
      {
        assert regions2[i] in multiset(regions1);
      }
      ResolvePermutation(region, regions1, regions2);
      ResolveDistinct(region, regions1);
      ResolveDistinct(region, regions2);
      FoldPermutation(ResolveSlots(region, regions1).value, ResolveSlots(region, regions2).value, incidence, colorOf);
    } else {
      var i :| 0 <= i < |regions1| && SlotId(region, regions1[i].key).None?;
      assert regions1[i] in multiset(regions2);
    }
  }
}
