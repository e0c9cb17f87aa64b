/** The pure parts of the state responses (src/responses/states.ts): the
    first-match lookup by id with deltas defaulting to 0, and the grouping of
    flat upstream history records into one history per state abbreviation. */
module States {
  import opened Wrappers
  import StateCodes

  /** One upstream state record. The floating-point fields `weekIncidence`
      and `casesPer100k` derived from it are not modelled. */
  datatype StateData = StateData(
    id: int, name: string, population: int, cases: int, deaths: int, casesPerWeek: int)

  /** One row of the upstream "new cases" / "new deaths" answers. */
  datatype NewCount = NewCount(id: int, count: int)

  /** A state record together with its `delta` object. */
  datatype StateEntry = StateEntry(state: StateData, deltaCases: int, deltaDeaths: int)

  /** The inner `getStateById`: the first element whose id equals `id`, or
      `None` when no element has it. */
  function FindById<T>(data: seq<T>, idOf: T -> int, id: int): (r: Option<T>)
    ensures r.None? <==> forall i :: 0 <= i < |data| ==> idOf(data[i]) != id
    ensures r.Some? ==> exists i :: 0 <= i < |data| && data[i] == r.value && FirstWithId(data, idOf, id, i)
  {
    if |data| == 0 then None
    else if idOf(data[0]) == id then
      assert FirstWithId(data, idOf, id, 0);
      Some(data[0])
    else
      var r := FindById(data[1..], idOf, id);
      assert forall j :: FirstWithId(data[1..], idOf, id, j) ==> FirstWithId(data, idOf, id, j + 1);
      r
  }

  /** `data[i]` has id `id` and no earlier element has it. */
  ghost predicate FirstWithId<T>(data: seq<T>, idOf: T -> int, id: int, i: int) {
    && 0 <= i < |data|
    && idOf(data[i]) == id
    && forall j :: 0 <= j < i ==> idOf(data[j]) != id
  }

  /** The id of a "new cases" / "new deaths" row. */
  function RowId(row: NewCount): int { row.id }

  /** `getStateById(rows, id)?.count ?? 0`. */
  function DeltaOrZero(rows: seq<NewCount>, id: int): (d: int)
    ensures (forall i :: 0 <= i < |rows| ==> rows[i].id != id) ==> d == 0
    ensures forall i :: FirstWithId(rows, RowId, id, i) ==> d == rows[i].count
  {
    match FindById(rows, RowId, id)
    case Some(row) =>
      FirstUnique(rows, RowId, id);
      row.count
    case None => 0
  }

  /** At most one index is the first one with a given id. */
  lemma FirstUnique<T>(data: seq<T>, idOf: T -> int, id: int)
    ensures forall i, j :: FirstWithId(data, idOf, id, i) && FirstWithId(data, idOf, id, j) ==> i == j
  {
  }

  /** `StatesResponse`: every state record, in input order and unchanged,
      with its new-case and new-death deltas. */
  function StatesResponse(states: seq<StateData>, newCases: seq<NewCount>, newDeaths: seq<NewCount>)
    : (r: seq<StateEntry>)
    ensures |r| == |states|
    ensures forall i :: 0 <= i < |r| ==> r[i].state == states[i]
    ensures forall i :: 0 <= i < |r| && (forall j :: 0 <= j < |newCases| ==> newCases[j].id != states[i].id) ==>
      r[i].deltaCases == 0
    ensures forall i, j :: 0 <= i < |r| && FirstWithId(newCases, RowId, states[i].id, j) ==>
      r[i].deltaCases == newCases[j].count
    ensures forall i :: 0 <= i < |r| && (forall j :: 0 <= j < |newDeaths| ==> newDeaths[j].id != states[i].id) ==>
      r[i].deltaDeaths == 0
    ensures forall i, j :: 0 <= i < |r| && FirstWithId(newDeaths, RowId, states[i].id, j) ==>
      r[i].deltaDeaths == newDeaths[j].count
  {
    seq(|states|, i requires 0 <= i < |states| =>
      StateEntry(states[i], DeltaOrZero(newCases, states[i].id), DeltaOrZero(newDeaths, states[i].id)))
  }

  /** One flat upstream history row: cases, deaths or recovered of one state
      on one day (the three responses differ only in which count it holds). */
  datatype HistoryRecord = HistoryRecord(id: int, name: string, value: int, date: int)

  /** One entry of a state's history: the count and its date. */
  datatype HistoryEntry = HistoryEntry(value: int, date: int)

  /** The history of one state as the responses return it. */
  datatype StateHistory = StateHistory(id: int, name: string, history: seq<HistoryEntry>)

  /** The key under which a record is grouped: its state's abbreviation, or
      `None` for an id that is not a state id (JavaScript turns the `null`
      key into the property name "null", so all such records share a group). */
  function GroupKey(record: HistoryRecord): Option<string> {
    StateCodes.AbbreviationById(record.id)
  }

  /** The loop of `StatesCasesHistoryResponse`, `StatesDeathsHistoryResponse`
      and `StatesRecoveredHistoryResponse`: each record is appended to the
      history of its key, the group being created from the first record
      with that key. */
  function GroupHistories(records: seq<HistoryRecord>): (groups: map<Option<string>, StateHistory>)
    ensures forall i :: 0 <= i < |records| ==> GroupKey(records[i]) in groups
    ensures forall key :: key in groups ==> |groups[key].history| >= 1
  {
    if |records| == 0 then map[]
    else
      var groups := GroupHistories(records[..|records| - 1]);
      var record := records[|records| - 1];
      var key := GroupKey(record);
      var group := if key in groups then groups[key] else StateHistory(record.id, record.name, []);
      groups[key := group.(history := group.history + [HistoryEntry(record.value, record.date)])]
  }

  /** The entries of the records with key `key`, in input order: the
      reference definition of one group's history. */
  function EntriesWithKey(records: seq<HistoryRecord>, key: Option<string>): seq<HistoryEntry>
  {
    if |records| == 0 then []
    else
      var last := records[|records| - 1];
      EntriesWithKey(records[..|records| - 1], key)
      + (if GroupKey(last) == key then [HistoryEntry(last.value, last.date)] else [])
  }

  /** Index `i` holds the first record with key `key`. */
  ghost predicate FirstWithKey(records: seq<HistoryRecord>, key: Option<string>, i: int) {
    && 0 <= i < |records|
    && GroupKey(records[i]) == key
    && forall j :: 0 <= j < i ==> GroupKey(records[j]) != key
  }

  /** The groups are exactly the keys of the records; each group's history
      lists the entries of its records in input order, and its id and name
      come from the first record with that key. */
  lemma {:induction false} GroupHistoriesCorrect(records: seq<HistoryRecord>)
    ensures forall key :: key in GroupHistories(records) <==> exists i :: 0 <= i < |records| && GroupKey(records[i]) == key
    ensures forall key :: key in GroupHistories(records) ==>
      GroupHistories(records)[key].history == EntriesWithKey(records, key)
    ensures forall key, i :: key in GroupHistories(records) && FirstWithKey(records, key, i) ==>
      GroupHistories(records)[key].id == records[i].id && GroupHistories(records)[key].name == records[i].name
  {
    if |records| > 0 {
      GroupHistoriesCorrect(records[..|records| - 1]);
      GroupKeysStep(records);
      GroupEntriesStep(records);
      GroupFirstStep(records);
    }
  }

  /** The groups after the last record, from those before it. */
  lemma GroupStep(records: seq<HistoryRecord>)
    requires |records| > 0
    ensures var before, last := GroupHistories(records[..|records| - 1]), records[|records| - 1];
      var group := if GroupKey(last) in before then before[GroupKey(last)] else StateHistory(last.id, last.name, []);
      GroupHistories(records) == before[GroupKey(last) := group.(history := group.history + [HistoryEntry(last.value, last.date)])]
  {
  }

  /** Inductive step of the group keys. */
  lemma GroupKeysStep(records: seq<HistoryRecord>)
    requires |records| > 0
    requires var prefix := records[..|records| - 1];
      forall key :: key in GroupHistories(prefix) ==> exists i :: 0 <= i < |prefix| && GroupKey(prefix[i]) == key
    ensures forall key :: key in GroupHistories(records) <==> exists i :: 0 <= i < |records| && GroupKey(records[i]) == key
  {
    var prefix := records[..|records| - 1];
    var lastKey := GroupKey(records[|records| - 1]);
    GroupStep(records);
    forall key | key in GroupHistories(records)
      ensures exists i :: 0 <= i < |records| && GroupKey(records[i]) == key
    {
      if key != lastKey {
        var i :| 0 <= i < |prefix| && GroupKey(prefix[i]) == key;
        assert records[i] == prefix[i];
      }
    }
  }

  /** Inductive step of the group histories. */
  lemma GroupEntriesStep(records: seq<HistoryRecord>)
    requires |records| > 0
    requires var prefix := records[..|records| - 1];
      forall key :: key in GroupHistories(prefix) <==> exists i :: 0 <= i < |prefix| && GroupKey(prefix[i]) == key
    requires var prefix := records[..|records| - 1];
      forall key :: key in GroupHistories(prefix) ==> GroupHistories(prefix)[key].history == EntriesWithKey(prefix, key)
    ensures forall key :: key in GroupHistories(records) ==>
      GroupHistories(records)[key].history == EntriesWithKey(records, key)
  {
    var prefix := records[..|records| - 1];
    var before := GroupHistories(prefix);
    var lastKey := GroupKey(records[|records| - 1]);
    GroupStep(records);
    if lastKey !in before && EntriesWithKey(prefix, lastKey) != [] {
      EntriesNonEmpty(prefix, lastKey);
      assert false;
    }
  }

  /** Inductive step of the group ids and names. */
  lemma GroupFirstStep(records: seq<HistoryRecord>)
    requires |records| > 0
    requires var prefix := records[..|records| - 1];
      forall key :: key in GroupHistories(prefix) ==> exists i :: 0 <= i < |prefix| && GroupKey(prefix[i]) == key
    requires var prefix := records[..|records| - 1];
      forall key, i :: key in GroupHistories(prefix) && FirstWithKey(prefix, key, i) ==>
        GroupHistories(prefix)[key].id == prefix[i].id && GroupHistories(prefix)[key].name == prefix[i].name
    ensures forall key, i :: key in GroupHistories(records) && FirstWithKey(records, key, i) ==>
      GroupHistories(records)[key].id == records[i].id && GroupHistories(records)[key].name == records[i].name
  {
    var prefix := records[..|records| - 1];
    var before := GroupHistories(prefix);
    GroupStep(records);
    forall key, i | key in GroupHistories(records) && FirstWithKey(records, key, i)
      ensures GroupHistories(records)[key].id == records[i].id && GroupHistories(records)[key].name == records[i].name
    {
      if i < |prefix| {
        assert FirstWithKey(prefix, key, i);
      } else {
        assert forall k :: 0 <= k < |prefix| ==> prefix[k] == records[k];
        assert key !in before;
      }
    }
  }

  /** A key with entries is the key of some record. */
  lemma {:induction false} EntriesNonEmpty(records: seq<HistoryRecord>, key: Option<string>)
    requires EntriesWithKey(records, key) != []
    ensures exists i :: 0 <= i < |records| && GroupKey(records[i]) == key
  {
    var prefix := records[..|records| - 1];
    if GroupKey(records[|records| - 1]) != key {
      EntriesNonEmpty(prefix, key);
      var i :| 0 <= i < |prefix| && GroupKey(prefix[i]) == key;
      assert records[i] == prefix[i];
    }
  }

  /** Each record lands in exactly one group: the one of its own key, where
      it sits after the earlier records with that key. */
  lemma {:induction false} RecordInItsGroup(records: seq<HistoryRecord>, i: int)
    requires 0 <= i < |records|
    ensures GroupKey(records[i]) in GroupHistories(records)
    ensures var h := GroupHistories(records)[GroupKey(records[i])].history;
      var k := |EntriesWithKey(records[..i], GroupKey(records[i]))|;
      k < |h| && h[k] == HistoryEntry(records[i].value, records[i].date)
  {
    GroupHistoriesCorrect(records);
    EntriesWithKeyPrefix(records, i, GroupKey(records[i]));
  }

  /** The entries with a key of a prefix extended by one record with that key. */
  lemma {:induction false} EntriesWithKeyPrefix(records: seq<HistoryRecord>, i: int, key: Option<string>)
    requires 0 <= i < |records| && GroupKey(records[i]) == key
    ensures EntriesWithKey(records[..i + 1], key) == EntriesWithKey(records[..i], key) + [HistoryEntry(records[i].value, records[i].date)]
    ensures EntriesWithKey(records[..i + 1], key) <= EntriesWithKey(records, key)
    decreases |records|
  {
    assert records[..i + 1][..i] == records[..i];
    if i + 1 < |records| {
      var prefix := records[..|records| - 1];
      EntriesWithKeyPrefix(prefix, i, key);
      assert prefix[..i + 1] == records[..i + 1] && prefix[..i] == records[..i];
    } else {
      assert records[..i + 1] == records;
    }
  }

  /** The (group, position) slots of all histories. */
  ghost function Slots(groups: map<Option<string>, StateHistory>): set<(Option<string>, int)> {
    set key, k | key in groups && 0 <= k < |groups[key].history| :: (key, k)
  }

  /** The group histories hold as many entries together as there are records. */
  lemma {:induction false} GroupSizesAddUp(records: seq<HistoryRecord>)
    ensures |Slots(GroupHistories(records))| == |records|
  {
    if |records| > 0 {
      var prefix := records[..|records| - 1];
      GroupSizesAddUp(prefix);
      var before := GroupHistories(prefix);
      var after := GroupHistories(records);
      var key := GroupKey(records[|records| - 1]);
      var n := if key in before then |before[key].history| else 0;
      assert Slots(after) == Slots(before) + {(key, n)};
      assert (key, n) !in Slots(before);
    }
  }
}
