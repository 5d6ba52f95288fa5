/** The game master's completion table (src/components/GameMaster.tsx): for each group id
    "1".."16", a JavaScript object from activity id to completed. It is filled from the
    fetched `groups` rows, toggled one cell at a time, reset one group or all groups, saved
    as a comma-joined list of the completed ids, and summarised as completed / total. */
module GameMaster {
  import opened Wrappers
  import opened Strings
  import opened JsObject
  import Schedule

  /** A station of this view's own catalogue (ids and locations differ from the
      participant view's). */
  datatype Station = Station(id: string, theme: string, location: string, order: int)

  const Stations: seq<Station> := [
    Station("mermaids-lagoon", "Mermaid's Lagoon", "Arc", 1),
    Station("krakens-wrath", "Kraken's Wrath", "LWN", 2),
    Station("plank-panic", "Plank Panic", "AIA", 3),
    Station("plank-duel", "Plank Duel", "Audi", 4),
    Station("isle-of-echoes", "Isle of Echoes", "Hive", 5),
    Station("cannonball-clash", "Cannonball Clash", "GAIA", 6),
    Station("tropical-trickery", "Tropical Trickery", "HSS", 7),
    Station("blazing-buccaneers", "Blazing Buccaneers", "CHC", 8)
  ]

  function StationIds(): seq<string>
  {
    seq(|Stations|, i requires 0 <= i < |Stations| => Stations[i].id)
  }

  /** The catalogue has eight stations with distinct ids, numbered 1..8 in order. */
  lemma StationsWellFormed()
    ensures |Stations| == 8 && |StationIds()| == 8
    ensures forall i, j :: 0 <= i < j < |Stations| ==> StationIds()[i] != StationIds()[j]
    ensures forall i :: 0 <= i < |Stations| ==> Stations[i].order == i + 1
  {
  }

  /** `i.toString()` of a group number: the key the loops of the initialisation and of
      `resetAll` write. */
  function GroupKey(n: nat): string
  {
    NatToString(n)
  }

  /** `k` is the key of a group number 1..16. */
  predicate IsGroupKey(k: string)
  {
    exists n :: 1 <= n <= Schedule.GroupCount && k == GroupKey(n)
  }

  /** `CompletionData`: group id -> activity id -> completed. */
  type Table = Object<Object<bool>>

  /** `completionData[g]?.[a]` read as a condition: the group exists and the value is `true`. */
  predicate Flag(t: Table, g: string, a: string)
  {
    var grp := Get(t, g);
    grp.Some? && Get(grp.value, a) == Some(true)
  }

  /** The stored value of cell (g, a), None when the group or the key is missing. */
  function Cell(t: Table, g: string, a: string): Option<bool>
  {
    match Get(t, g)
    case None => None
    case Some(grp) => Get(grp, a)
  }

  predicate HasGroup(t: Table, g: string)
  {
    Get(t, g).Some?
  }

  // Initialisation: every group "1".."16" maps every station id to false.

  /** Each id of `ids` assigned `false`, one assignment at a time (also the `reduce` of
      `resetGroup`). */
  function FalseFor(ids: seq<string>): Object<bool>
  {
    if ids == [] then [] else Set(FalseFor(ids[..|ids| - 1]), ids[|ids| - 1], false)
  }

  function AllFalse(): Object<bool>
  {
    FalseFor(StationIds())
  }

  lemma {:induction false} FalseForMeaning(ids: seq<string>, a: string)
    ensures Get(FalseFor(ids), a) == if a in ids then Some(false) else None
  {
    if ids != [] {
      var init, last := ids[..|ids| - 1], ids[|ids| - 1];
      FalseForMeaning(init, a);
      GetSet(FalseFor(init), last, false, a);
      assert a in ids <==> a in init || a == last by {
        assert ids == init + [last];
      }
    }
  }

  lemma {:induction false} FalseForDistinct(ids: seq<string>)
    ensures DistinctKeys(FalseFor(ids))
  {
    if ids != [] {
      FalseForDistinct(ids[..|ids| - 1]);
      SetKeys(FalseFor(ids[..|ids| - 1]), ids[|ids| - 1], false);
    }
  }

  /** Groups "1".."n", in that order, each mapped to `grp`. */
  function GroupsTable(n: nat, grp: Object<bool>): Table
  {
    seq(n, j requires 0 <= j < n => (GroupKey(j + 1), grp))
  }

  function InitialTable(): Table
  {
    GroupsTable(Schedule.GroupCount, AllFalse())
  }

  /** Assigning group n + 1 appends it after groups 1..n. */
  lemma GroupsTableStep(n: nat, grp: Object<bool>)
    ensures Set(GroupsTable(n, grp), GroupKey(n + 1), grp) == GroupsTable(n + 1, grp)
  {
    var t := GroupsTable(n, grp);
    assert GroupKey(n + 1) !in Keys(t) by {
      forall j | 0 <= j < n ensures Keys(t)[j] != GroupKey(n + 1) {
        assert DigitsValue(GroupKey(j + 1)) == j + 1;
      }
    }
    assert t + [(GroupKey(n + 1), grp)] == GroupsTable(n + 1, grp);
  }

  lemma GroupsTableMeaning(n: nat, grp: Object<bool>, g: string)
    ensures Get(GroupsTable(n, grp), g) ==
      if exists m :: 1 <= m <= n && g == GroupKey(m) then Some(grp) else None
  {
    var t := GroupsTable(n, grp);
    var i := Find(t, g);
    if i < |t| {
      assert g == GroupKey(i + 1);
    } else {
      forall m | 1 <= m <= n ensures g != GroupKey(m) {
        assert t[m - 1].0 == GroupKey(m);
      }
    }
  }

  /** After initialisation exactly the keys "1".."16" are present. */
  lemma InitialTableGroups(g: string)
    ensures HasGroup(InitialTable(), g) <==> IsGroupKey(g)
  {
    GroupsTableMeaning(Schedule.GroupCount, AllFalse(), g);
  }

  /** Each group of the initial table maps exactly the station ids, all to false. */
  lemma InitialTableCells(g: string, a: string)
    ensures IsGroupKey(g) ==> Cell(InitialTable(), g, a) == if a in StationIds() then Some(false) else None
  {
    GroupsTableMeaning(Schedule.GroupCount, AllFalse(), g);
    AllFalseMeaning(a);
  }

  lemma AllFalseMeaning(a: string)
    ensures Get(AllFalse(), a) == if a in StationIds() then Some(false) else None
    ensures DistinctKeys(AllFalse())
  {
    FalseForMeaning(StationIds(), a);
    FalseForDistinct(StationIds());
  }

  /** The nested initialisation loop of `fetchData` (and the local part of `resetAll`):
      for i = 1..16, `data[i] = {}` followed by the assignments of `FillFalse`. */
  method AllFalseTable() returns (t: Table)
    ensures t == InitialTable()
  {
    t := [];
    var i := 1;
    while i <= Schedule.GroupCount
      invariant 1 <= i <= Schedule.GroupCount + 1
      invariant t == GroupsTable(i - 1, AllFalse())
    {
      GroupsTableStep(i - 1, AllFalse());
      t := FillFalse(t, GroupKey(i), StationIds());
      i := i + 1;
    }
  }

  /** `data[key] = {}`, then `data[key][id] = false` for each of `ids` in order. */
  method FillFalse(t0: Table, key: string, ids: seq<string>) returns (t: Table)
    ensures t == Set(t0, key, FalseFor(ids))
  {
    t := Set(t0, key, []);
    var k := 0;
    assert ids[..0] == [];
    while k < |ids|
      invariant 0 <= k <= |ids|
      invariant t == Set(t0, key, FalseFor(ids[..k]))
    {
      var grp := Get(t, key).value;
      assert ids[..k + 1][..k] == ids[..k];
      SetTwice(t0, key, FalseFor(ids[..k]), Set(grp, ids[k], false));
      t := Set(t, key, Set(grp, ids[k], false));
      k := k + 1;
    }
    assert ids[..k] == ids;
  }

  // Decoding the fetched rows.

  /** A row of the `groups` table: `group_id` (None when null) and `tasks_complete` when it
      is a string (None otherwise). */
  datatype Row = Row(groupId: Option<int>, tasksComplete: Option<string>)

  /** The result of the select: an error (thrown and caught), or the rows. */
  datatype FetchResponse = FetchFailed | Fetched(rows: seq<Row>)

  /** `if (data[g]) data[g][a] = true`. */
  function Mark(t: Table, g: string, a: string): Table
  {
    match Get(t, g)
    case None => t
    case Some(grp) => Set(t, g, Set(grp, a, true))
  }

  function MarkAll(t: Table, g: string, ids: seq<string>): Table
  {
    if ids == [] then t else Mark(MarkAll(t, g, ids[..|ids| - 1]), g, ids[|ids| - 1])
  }

  /** One row: its `group_id.toString()` names the group, and the ids of its
      `tasks_complete.split(',')` are marked. */
  function DecodeRow(t: Table, row: Row): Table
  {
    if row.groupId.None? || row.tasksComplete.None? then t
    else MarkAll(t, IntToString(row.groupId.value), Split(row.tasksComplete.value, ','))
  }

  function DecodeRows(t: Table, rows: seq<Row>): Table
  {
    if rows == [] then t else DecodeRow(DecodeRows(t, rows[..|rows| - 1]), rows[|rows| - 1])
  }

  /** Every row has a `group_id`; `null.toString()` would throw. */
  predicate Readable(rows: seq<Row>)
  {
    forall j :: 0 <= j < |rows| ==> rows[j].groupId.Some?
  }

  /** The table after `fetchData`: a failed select or a row without a group id throws, is
      caught, and leaves the previous table; otherwise the rows are decoded into the
      all-false table. */
  function FetchResult(prev: Table, response: FetchResponse): Table
  {
    if response.FetchFailed? || !Readable(response.rows) then prev
    else DecodeRows(InitialTable(), response.rows)
  }

  /** Row `row` marks cell (g, a). */
  predicate Marks(row: Row, g: string, a: string)
  {
    && row.groupId.Some? && row.tasksComplete.Some?
    && IntToString(row.groupId.value) == g
    && a in Split(row.tasksComplete.value, ',')
  }

  lemma MarkMeaning(t: Table, g: string, a: string, g': string, a': string)
    ensures HasGroup(Mark(t, g, a), g') == HasGroup(t, g')
    ensures Cell(Mark(t, g, a), g', a') ==
      if g' == g && a' == a && HasGroup(t, g) then Some(true) else Cell(t, g', a')
  {
    if HasGroup(t, g) {
      var grp := Get(t, g).value;
      GetSet(t, g, Set(grp, a, true), g');
      GetSet(grp, a, true, a');
    }
  }

  lemma {:induction false} MarkAllMeaning(t: Table, g: string, ids: seq<string>, g': string, a': string)
    ensures HasGroup(MarkAll(t, g, ids), g') == HasGroup(t, g')
    ensures Cell(MarkAll(t, g, ids), g', a') ==
      if g' == g && a' in ids && HasGroup(t, g) then Some(true) else Cell(t, g', a')
  {
    if ids != [] {
      var init, last := ids[..|ids| - 1], ids[|ids| - 1];
      var before := MarkAll(t, g, init);
      MarkAllMeaning(t, g, init, g', a');
      MarkAllMeaning(t, g, init, g, a');
      MarkMeaning(before, g, last, g', a');
      assert MarkAll(t, g, ids) == Mark(before, g, last);
      assert a' in ids <==> a' in init || a' == last by {
        assert ids == init + [last];
      }
    }
  }

  /** Some row marks cell (g, a). */
  predicate MarkedBy(rows: seq<Row>, g: string, a: string)
  {
    exists j :: 0 <= j < |rows| && Marks(rows[j], g, a)
  }

  lemma MarkedByStep(rows: seq<Row>, g: string, a: string)
    requires rows != []
    ensures MarkedBy(rows, g, a) <==> MarkedBy(rows[..|rows| - 1], g, a) || Marks(rows[|rows| - 1], g, a)
  {
    var init := rows[..|rows| - 1];
    if MarkedBy(rows, g, a) && !Marks(rows[|rows| - 1], g, a) {
      var j :| 0 <= j < |rows| && Marks(rows[j], g, a);
      assert j < |init| && init[j] == rows[j];
    }
    if MarkedBy(init, g, a) {
      var j :| 0 <= j < |init| && Marks(init[j], g, a);
      assert rows[j] == init[j];
    }
  }

  lemma {:induction false} DecodeRowsKeys(t: Table, rows: seq<Row>, g: string)
    ensures HasGroup(DecodeRows(t, rows), g) == HasGroup(t, g)
  {
    if rows != [] {
      var init, row := rows[..|rows| - 1], rows[|rows| - 1];
      DecodeRowsKeys(t, init, g);
      if row.groupId.Some? && row.tasksComplete.Some? {
        MarkAllMeaning(DecodeRows(t, init), IntToString(row.groupId.value), Split(row.tasksComplete.value, ','), g, "");
      }
    }
  }

  lemma {:induction false} DecodeRowsMeaning(t: Table, rows: seq<Row>, g: string, a: string)
    ensures Cell(DecodeRows(t, rows), g, a) ==
      if MarkedBy(rows, g, a) && HasGroup(t, g) then Some(true) else Cell(t, g, a)
  {
    if rows != [] {
      var init, row := rows[..|rows| - 1], rows[|rows| - 1];
      DecodeRowsMeaning(t, init, g, a);
      DecodeRowsKeys(t, init, g);
      if row.groupId.Some? && row.tasksComplete.Some? {
        MarkAllMeaning(DecodeRows(t, init), IntToString(row.groupId.value), Split(row.tasksComplete.value, ','), g, a);
      }
      MarkedByStep(rows, g, a);
    }
  }

  /** The decoded table: exactly the groups "1".."16" are present, whatever group ids the
      rows carry; in each of them a cell is `true` when some row of that group lists the id
      (station or not, the empty id of an empty list included), `false` for the other
      station ids, and absent otherwise. */
  lemma FetchMeaning(prev: Table, rows: seq<Row>, g: string, a: string)
    requires Readable(rows)
    ensures HasGroup(FetchResult(prev, Fetched(rows)), g) <==> IsGroupKey(g)
    ensures IsGroupKey(g) ==>
      Cell(FetchResult(prev, Fetched(rows)), g, a) ==
        if MarkedBy(rows, g, a) then Some(true)
        else if a in StationIds() then Some(false)
        else None
  {
    InitialTableGroups(g);
    InitialTableCells(g, a);
    DecodeRowsKeys(InitialTable(), rows, g);
    DecodeRowsMeaning(InitialTable(), rows, g, a);
  }

  /** Group `n` of the decoded table flags exactly the ids that that group's rows list. */
  lemma FetchedFlag(prev: Table, rows: seq<Row>, n: nat, a: string)
    requires Readable(rows) && 1 <= n <= Schedule.GroupCount
    ensures Flag(FetchResult(prev, Fetched(rows)), GroupKey(n), a) <==>
      exists j :: 0 <= j < |rows| && rows[j].groupId == Some(n) && rows[j].tasksComplete.Some? &&
        a in Split(rows[j].tasksComplete.value, ',')
  {
    FetchMeaning(prev, rows, GroupKey(n), a);
    forall j | 0 <= j < |rows| && rows[j].groupId.Some?
      ensures IntToString(rows[j].groupId.value) == GroupKey(n) <==> rows[j].groupId == Some(n)
    {
      IntToStringNames(rows[j].groupId.value, n);
    }
  }

  /** `fetchData`: the loop over the rows, mutating the freshly initialised table. */
  method FetchData(prev: Table, response: FetchResponse) returns (next: Table)
    ensures next == FetchResult(prev, response)
  {
    if response.FetchFailed? {
      return prev;
    }
    var data := AllFalseTable();
    var readable;
    data, readable := DecodeAll(data, response.rows);
    next := if readable then data else prev;
  }

  /** The loop over the rows: each row's ids are marked, and a row without a group id
      stops the loop with the exception (`readable` false). */
  method DecodeAll(t0: Table, rows: seq<Row>) returns (t: Table, readable: bool)
    ensures readable == Readable(rows)
    ensures readable ==> t == DecodeRows(t0, rows)
  {
    t := t0;
    var r := 0;
    while r < |rows|
      invariant 0 <= r <= |rows|
      invariant Readable(rows[..r])
      invariant t == DecodeRows(t0, rows[..r])
    {
      var row := rows[r];
      assert rows[..r + 1] == rows[..r] + [row];
      if row.groupId.None? {
        return t, false;
      }
      if row.tasksComplete.Some? {
        t := MarkIds(t, IntToString(row.groupId.value), Split(row.tasksComplete.value, ','));
      }
      r := r + 1;
    }
    assert rows[..r] == rows;
    readable := true;
  }

  /** The loop over one row's ids: `if (data[groupId]) data[groupId][id] = true`. */
  method MarkIds(t0: Table, groupId: string, ids: seq<string>) returns (t: Table)
    ensures t == MarkAll(t0, groupId, ids)
  {
    t := t0;
    var k := 0;
    while k < |ids|
      invariant 0 <= k <= |ids|
      invariant t == MarkAll(t0, groupId, ids[..k])
    {
      assert ids[..k + 1][..k] == ids[..k];
      var grp := Get(t, groupId);
      if grp.Some? {
        t := Set(t, groupId, Set(grp.value, ids[k], true));
      }
      k := k + 1;
    }
    assert ids[..k] == ids;
  }

  // Saving, toggling and resetting.

  /** The upserted row: `group_id: parseInt(g)` (None for NaN) and `tasks_complete`. */
  datatype Upsert = Upsert(groupId: Option<int>, tasksComplete: string)

  /** The saved form of a group: its completed ids joined with ','. */
  function Encode(grp: Object<bool>): (s: string)
    ensures TrueKeys(grp) == [] ==> s == ""
  {
    Join(TrueKeys(grp), ',')
  }

  predicate CommaFree(grp: Object<bool>)
  {
    forall i :: 0 <= i < |grp| ==> ',' !in grp[i].0
  }

  /** Splitting the saved string on ',' gives back the completed ids when there is at least
      one; with none it gives the single empty id. */
  lemma EncodeSplit(grp: Object<bool>)
    requires DistinctKeys(grp) && CommaFree(grp)
    ensures TrueKeys(grp) != [] ==> Split(Encode(grp), ',') == TrueKeys(grp)
    ensures TrueKeys(grp) == [] ==> Encode(grp) == "" && Split(Encode(grp), ',') == [""]
  {
    TrueKeysDistinct(grp);
    if TrueKeys(grp) != [] {
      forall i | 0 <= i < |TrueKeys(grp)| ensures ',' !in TrueKeys(grp)[i] {
        var k :| 0 <= k < |grp| && Keys(grp)[k] == TrueKeys(grp)[i];
      }
      SplitJoin(TrueKeys(grp), ',');
    }
  }

  /** Round trip: a row saved from `grp` and fetched back flags in group `n` exactly the
      ids `grp` flags, or only the empty id when `grp` flags none. */
  lemma SaveFetchRoundTrip(prev: Table, grp: Object<bool>, n: nat, a: string)
    requires DistinctKeys(grp) && CommaFree(grp) && 1 <= n <= Schedule.GroupCount
    ensures Flag(FetchResult(prev, Fetched([Row(Some(n), Some(Encode(grp)))])), GroupKey(n), a) <==>
      if TrueKeys(grp) == [] then a == "" else Get(grp, a) == Some(true)
  {
    var rows := [Row(Some(n), Some(Encode(grp)))];
    FetchedFlag(prev, rows, n, a);
    EncodeSplit(grp);
    TrueKeysMeaning(grp, a);
    assert rows[0].groupId == Some(n);
  }

  /** A group the round trip accepts: its keys are distinct and none holds a ','. */
  predicate Saveable(grp: Object<bool>)
  {
    DistinctKeys(grp) && CommaFree(grp)
  }

  /** Every group of the table is saveable. */
  predicate AllSaveable(t: Table)
  {
    forall i :: 0 <= i < |t| ==> Saveable(t[i].1)
  }

  /** The group read from a table of saveable groups is saveable. */
  lemma GetSaveable(t: Table, g: string)
    requires AllSaveable(t)
    ensures Get(t, g).Some? ==> Saveable(Get(t, g).value)
  {
  }

  /** Assigning a saveable group keeps every group saveable. */
  lemma SetAllSaveable(t: Table, g: string, grp: Object<bool>)
    requires AllSaveable(t) && Saveable(grp)
    ensures AllSaveable(Set(t, g, grp))
  {
    var i := Find(t, g);
    if i < |t| {
      assert Set(t, g, grp) == t[i := (g, grp)];
    } else {
      assert Set(t, g, grp) == t + [(g, grp)];
    }
  }

  /** Assigning a comma-free key keeps a group saveable. */
  lemma SetSaveable(grp: Object<bool>, a: string, b: bool)
    requires Saveable(grp) && ',' !in a
    ensures Saveable(Set(grp, a, b))
  {
    SetKeys(grp, a, b);
    var i := Find(grp, a);
    if i < |grp| {
      assert Set(grp, a, b) == grp[i := (a, b)];
    } else {
      assert Set(grp, a, b) == grp + [(a, b)];
    }
  }

  /** Assigning `false` to comma-free ids one at a time builds a saveable group. */
  lemma {:induction false} FalseForSaveable(ids: seq<string>)
    requires forall k :: 0 <= k < |ids| ==> ',' !in ids[k]
    ensures Saveable(FalseFor(ids))
  {
    if ids != [] {
      FalseForSaveable(ids[..|ids| - 1]);
      SetSaveable(FalseFor(ids[..|ids| - 1]), ids[|ids| - 1], false);
    }
  }

  /** The initial table, and so the table of `resetAll`, holds only saveable groups. */
  lemma InitialTableSaveable()
    ensures Saveable(AllFalse())
    ensures AllSaveable(InitialTable())
  {
    StationIdsCommaFree();
    FalseForSaveable(StationIds());
    var t := InitialTable();
    assert forall i :: 0 <= i < |t| ==> t[i].1 == AllFalse();
  }

  /** No station id holds a ','. */
  lemma StationIdsCommaFree()
    ensures forall k :: 0 <= k < |StationIds()| ==> ',' !in StationIds()[k]
  {
    StationIdsListed();
    IdTextsCommaFree();
  }

  const IdTexts: seq<string> := ["mermaids-lagoon", "krakens-wrath", "plank-panic", "plank-duel",
    "isle-of-echoes", "cannonball-clash", "tropical-trickery", "blazing-buccaneers"]

  lemma StationIdsListed()
    ensures StationIds() == IdTexts
  {
  }

  lemma IdTextsCommaFree()
    ensures forall k :: 0 <= k < |IdTexts| ==> ',' !in IdTexts[k]
  {
    forall k | 0 <= k < |IdTexts| ensures ',' !in IdTexts[k] {
      if k < 4 {
        assert ',' !in IdTexts[0] && ',' !in IdTexts[1] && ',' !in IdTexts[2] && ',' !in IdTexts[3];
      } else {
        assert ',' !in IdTexts[4] && ',' !in IdTexts[5] && ',' !in IdTexts[6] && ',' !in IdTexts[7];
      }
    }
  }

  /** Marking ids taken from a split on ',' keeps every group saveable. */
  lemma {:induction false} MarkAllSaveable(t: Table, g: string, ids: seq<string>)
    requires AllSaveable(t)
    requires forall k :: 0 <= k < |ids| ==> ',' !in ids[k]
    ensures AllSaveable(MarkAll(t, g, ids))
  {
    if ids != [] {
      var before := MarkAll(t, g, ids[..|ids| - 1]);
      MarkAllSaveable(t, g, ids[..|ids| - 1]);
      GetSaveable(before, g);
      if Get(before, g).Some? {
        var grp := Get(before, g).value;
        SetSaveable(grp, ids[|ids| - 1], true);
        SetAllSaveable(before, g, Set(grp, ids[|ids| - 1], true));
      }
    }
  }

  lemma {:induction false} DecodeRowsSaveable(t: Table, rows: seq<Row>)
    requires AllSaveable(t)
    ensures AllSaveable(DecodeRows(t, rows))
  {
    if rows != [] {
      var before := DecodeRows(t, rows[..|rows| - 1]);
      DecodeRowsSaveable(t, rows[..|rows| - 1]);
      var row := rows[|rows| - 1];
      if row.groupId.Some? && row.tasksComplete.Some? {
        MarkAllSaveable(before, IntToString(row.groupId.value), Split(row.tasksComplete.value, ','));
      }
    }
  }

  /** Every table the fetch leaves holds only saveable groups, so the round trip applies
      to each of its groups. */
  lemma FetchResultSaveable(prev: Table, response: FetchResponse)
    requires AllSaveable(prev)
    ensures AllSaveable(FetchResult(prev, response))
  {
    if response.Fetched? {
      InitialTableSaveable();
      DecodeRowsSaveable(InitialTable(), response.rows);
    }
  }

  /** `toggleCompletion(g, a)`: group g (or `{}` when missing) with `a` negated (a missing
      value reads as false), and the row saved for it. Only cell (g, a) changes, and the
      saved string is the encoding of group g as it now stands. */
  function Toggle(t: Table, g: string, a: string): (r: (Table, Upsert))
    ensures HasGroup(r.0, g)
    ensures forall g' :: g' != g ==> Get(r.0, g') == Get(t, g')
    ensures Cell(r.0, g, a) == Some(!Flag(t, g, a))
    ensures forall a' :: a' != a ==> Cell(r.0, g, a') == Cell(t, g, a')
    ensures r.1 == Upsert(ParseInt(g), Encode(Get(r.0, g).value))
  {
    var prevGroup := match Get(t, g) case Some(grp) => grp case None => [];
    var updated := Set(prevGroup, a, !(Get(prevGroup, a) == Some(true)));
    var r := (Set(t, g, updated), Upsert(ParseInt(g), Encode(updated)));
    assert forall g' :: g' != g ==> Get(r.0, g') == Get(t, g') by {
      forall g' { GetSet(t, g, updated, g'); }
    }
    assert forall a' :: a' != a ==> Cell(r.0, g, a') == Cell(t, g, a') by {
      forall a' { GetSet(prevGroup, a, !(Get(prevGroup, a) == Some(true)), a'); }
    }
    r
  }

  /** Toggling flips the flag of (g, a) and no other. */
  lemma ToggleFlags(t: Table, g: string, a: string, g': string, a': string)
    ensures Flag(Toggle(t, g, a).0, g', a') == if g' == g && a' == a then !Flag(t, g, a) else Flag(t, g', a')
  {
    var u := Toggle(t, g, a).0;
    if g' == g {
      assert Flag(u, g, a') <==> Cell(u, g, a') == Some(true);
      assert Flag(t, g, a') <==> Cell(t, g, a') == Some(true);
    }
  }

  /** Toggling a comma-free station id keeps every group saveable. */
  lemma ToggleSaveable(t: Table, g: string, a: string)
    requires AllSaveable(t) && ',' !in a
    ensures AllSaveable(Toggle(t, g, a).0)
  {
    GetSaveable(t, g);
    var prevGroup := match Get(t, g) case Some(grp) => grp case None => [];
    var updated := Set(prevGroup, a, !(Get(prevGroup, a) == Some(true)));
    SetSaveable(prevGroup, a, !(Get(prevGroup, a) == Some(true)));
    SetAllSaveable(t, g, updated);
  }

  /** Toggling the same cell twice restores every flag; when the cell already held a value
      it restores the table itself. */
  lemma ToggleTwice(t: Table, g: string, a: string)
    ensures forall g', a' :: Flag(Toggle(Toggle(t, g, a).0, g, a).0, g', a') == Flag(t, g', a')
    ensures Cell(t, g, a).Some? ==> Toggle(Toggle(t, g, a).0, g, a).0 == t
  {
    forall g', a' ensures Flag(Toggle(Toggle(t, g, a).0, g, a).0, g', a') == Flag(t, g', a') {
      ToggleFlags(t, g, a, g', a');
      ToggleFlags(Toggle(t, g, a).0, g, a, g', a');
    }
    if Cell(t, g, a).Some? {
      var grp := Get(t, g).value;
      var b := Get(grp, a).value;
      var u := Set(grp, a, !b);
      assert Toggle(t, g, a).0 == Set(t, g, u);
      assert Get(Set(t, g, u), g) == Some(u);
      SetTwice(grp, a, !b, b);
      SetSame(grp, a, b);
      SetTwice(t, g, u, grp);
      SetSame(t, g, grp);
    }
  }

  /** `resetGroup(g)`: group g becomes the all-false object, the others are kept, and the
      empty string is saved, which is the encoding of the new group. */
  function ResetGroup(t: Table, g: string): (r: (Table, Upsert))
    ensures Get(r.0, g) == Some(AllFalse())
    ensures forall g' :: g' != g ==> Get(r.0, g') == Get(t, g')
    ensures r.1 == Upsert(ParseInt(g), Encode(AllFalse()))
  {
    AllFalseEncodesEmpty();
    var r := (Set(t, g, AllFalse()), Upsert(ParseInt(g), ""));
    assert forall g' :: g' != g ==> Get(r.0, g') == Get(t, g') by {
      forall g' { GetSet(t, g, AllFalse(), g'); }
    }
    r
  }

  /** Resetting a group keeps every group saveable. */
  lemma ResetGroupSaveable(t: Table, g: string)
    requires AllSaveable(t)
    ensures AllSaveable(ResetGroup(t, g).0)
  {
    InitialTableSaveable();
    SetAllSaveable(t, g, AllFalse());
  }

  lemma AllFalseEncodesEmpty()
    ensures Encode(AllFalse()) == ""
  {
    AllFalseMeaning("");
    if TrueKeys(AllFalse()) != [] {
      var a := TrueKeys(AllFalse())[0];
      TrueKeysMeaning(AllFalse(), a);
      AllFalseMeaning(a);
      assert false;
    }
  }

  /** `resetAll`: the all-false table, and one row saving "" for each group 1..16, which is
      the encoding of the all-false group. */
  method ResetAll() returns (t: Table, saves: seq<Upsert>)
    ensures t == InitialTable()
    ensures |saves| == Schedule.GroupCount
    ensures forall i :: 0 <= i < |saves| ==> saves[i] == Upsert(Some(i + 1), Encode(AllFalse()))
  {
    t := AllFalseTable();
    saves := ResetRows();
    AllFalseEncodesEmpty();
  }

  /** The loop of upserts in `resetAll`: `group_id: i, tasks_complete: ""` for i = 1..16. */
  method ResetRows() returns (saves: seq<Upsert>)
    ensures |saves| == Schedule.GroupCount
    ensures forall i :: 0 <= i < |saves| ==> saves[i] == Upsert(Some(i + 1), "")
  {
    saves := [];
    var i := 1;
    while i <= Schedule.GroupCount
      invariant 1 <= i <= Schedule.GroupCount + 1
      invariant |saves| == i - 1
      invariant forall j :: 0 <= j < |saves| ==> saves[j] == Upsert(Some(j + 1), "")
    {
      saves := saves + [Upsert(Some(i), "")];
      i := i + 1;
    }
  }

  // Statistics.

  datatype Stats = Stats(completed: nat, total: nat)

  /** How many of the ids group g has flagged. */
  function CountDone(t: Table, g: string, ids: seq<string>): (c: nat)
    ensures c <= |ids|
  {
    if ids == [] then 0
    else CountDone(t, g, ids[..|ids| - 1]) + (if Flag(t, g, ids[|ids| - 1]) then 1 else 0)
  }

  /** `getGroupStats(g)`: the stations group g has flagged, out of all eight. */
  function GroupStats(t: Table, g: string): (s: Stats)
    ensures s.total == |Stations| == 8
    ensures s.completed <= s.total
  {
    Stats(CountDone(t, g, StationIds()), |Stations|)
  }

  /** Only the listed ids count: two tables that agree on group g's flags for them have the
      same count. */
  lemma {:induction false} CountDoneOnlyIds(t: Table, u: Table, g: string, ids: seq<string>)
    requires forall k :: 0 <= k < |ids| ==> Flag(t, g, ids[k]) == Flag(u, g, ids[k])
    ensures CountDone(t, g, ids) == CountDone(u, g, ids)
  {
    if ids != [] {
      CountDoneOnlyIds(t, u, g, ids[..|ids| - 1]);
    }
  }

  /** Counting the flagged ids after the flag of one id `a` has been flipped. */
  lemma {:induction false} CountDoneFlip(t: Table, u: Table, g: string, ids: seq<string>, a: string)
    requires forall k :: 0 <= k < |ids| && ids[k] != a ==> Flag(t, g, ids[k]) == Flag(u, g, ids[k])
    requires Flag(u, g, a) == !Flag(t, g, a)
    requires forall i, j :: 0 <= i < j < |ids| ==> ids[i] != ids[j]
    ensures a in ids ==>
      CountDone(u, g, ids) == if Flag(t, g, a) then CountDone(t, g, ids) - 1 else CountDone(t, g, ids) + 1
    ensures a !in ids ==> CountDone(u, g, ids) == CountDone(t, g, ids)
  {
    if ids != [] {
      var init, last := ids[..|ids| - 1], ids[|ids| - 1];
      assert forall i, j :: 0 <= i < j < |init| ==> init[i] != init[j];
      CountDoneFlip(t, u, g, init, a);
      assert a in ids <==> a in init || a == last by {
        assert ids == init + [last];
      }
      assert last == a ==> a !in init by {
        forall k | 0 <= k < |init| ensures last == a ==> init[k] != a {
          assert ids[k] != ids[|ids| - 1];
        }
      }
      assert last != a ==> Flag(t, g, last) == Flag(u, g, last);
    }
  }

  /** Toggling a station moves the completed count by one, up or down; toggling any other
      id leaves it. */
  lemma ToggleStats(t: Table, g: string, a: string)
    ensures a in StationIds() ==>
      GroupStats(Toggle(t, g, a).0, g).completed ==
        if Flag(t, g, a) then GroupStats(t, g).completed - 1 else GroupStats(t, g).completed + 1
    ensures a !in StationIds() ==> GroupStats(Toggle(t, g, a).0, g) == GroupStats(t, g)
  {
    var ids := StationIds();
    StationsWellFormed();
    var u := Toggle(t, g, a).0;
    forall k | 0 <= k < |ids| && ids[k] != a
      ensures Flag(t, g, ids[k]) == Flag(u, g, ids[k])
    {
      ToggleFlags(t, g, a, g, ids[k]);
    }
    ToggleFlags(t, g, a, g, a);
    CountDoneFlip(t, u, g, ids, a);
  }

  /** A freshly initialised or reset group has completed nothing. */
  lemma ResetStats(t: Table, g: string)
    ensures GroupStats(ResetGroup(t, g).0, g).completed == 0
    ensures IsGroupKey(g) ==> GroupStats(InitialTable(), g).completed == 0
  {
    var ids := StationIds();
    forall k | 0 <= k < |ids|
      ensures !Flag(ResetGroup(t, g).0, g, ids[k]) && !Flag(InitialTable(), g, ids[k])
    {
      AllFalseMeaning(ids[k]);
      InitialTableCells(g, ids[k]);
    }
    CountDoneOnlyIds(ResetGroup(t, g).0, [], g, ids);
    CountDoneOnlyIds(InitialTable(), [], g, ids);
    CountDoneNone(g, ids);
  }

  lemma {:induction false} CountDoneNone(g: string, ids: seq<string>)
    ensures CountDone([], g, ids) == 0
  {
    if ids != [] { CountDoneNone(g, ids[..|ids| - 1]); }
  }
}
