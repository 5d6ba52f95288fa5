# Pirate's Quest: a Dafny model of the schedule, the completion table and the session

Pirate's Quest is a one-morning treasure-hunt web app. Sixteen groups rotate through
eight stations in twenty-minute slots and then meet for a shared finale. The project
models three parts of it and proves properties about each:

- **Participant view** (`src/components/Landing.tsx`):
  - the activity catalogue and the slot table;
  - `timeToMinutes`;
  - `getGroupActivities`, which builds a group's itinerary by walking the slots and then
    sorting by start time;
  - the group number taken from the signed-in user, with its fallback to group 1;
  - the entry selected by default, the highlighted card and the completed counter.
- **Game master's view** (`src/components/GameMaster.tsx`):
  - a completion table mapping group id to activity id to completed;
  - filling the table from the fetched `groups` rows;
  - toggling one cell and saving that group as a comma-joined list of completed ids;
  - resetting one group or all groups;
  - per-group completed/total statistics.
- **Session** (`src/context/AuthContext.tsx`):
  - the name-to-address normalisation (`safeName`, `fakeEmail`);
  - the profile read after sign-in;
  - the `register`, `login` and `logout` transitions of `isAuthenticated` and `user`.

Modules:

| module | file | what it holds |
|---|---|---|
| `Wrappers` | `wrappers.dfy` | `Option` |
| `Strings` | `strings.dfy` | the parts of JavaScript's `String` and `Number` the core uses |
| `Schedule` | `schedule.dfy` | the participant view's tables and `timeToMinutes` |
| `ItinerarySort` | `itinerary_sort.dfy` | the stable sort done in place on an array |
| `Landing` | `landing.dfy` | the participant view |
| `JsObject` | `js_object.dfy` | a JavaScript object as its properties in insertion order |
| `GameMaster` | `game_master.dfy` | the game master's table |
| `Auth` | `auth.dfy` | the session, as a class with the provider's two state fields |

`JsObject` is needed because `Object.entries` order decides the saved string.

How the source's code becomes Dafny:

- The `for` loops and the array `forEach` walks that change state become a `method` with
  a `while` loop, proved against a recursive function:
  - `GroupActivities` and `PushAssigned` (the slot walk);
  - `SortInPlace` and `InsertAt` (the sort);
  - `AllFalseTable` and `FillFalse` (the initialisation);
  - `DecodeAll` and `MarkIds` (the decoding);
  - `ResetRows` (the reset loop).
- The array methods that only compute a value become recursive functions:
  - the `reduce` of `resetGroup` (`GameMaster.tsx:195-198`) is `FalseFor`;
  - the `filter`/`map` of the save (`GameMaster.tsx:163-165`) is `TrueKeys`;
  - the two `filter(...).length` counters are `CountDone` (`GameMaster.tsx:254`) and
    `CompletedCount` (`Landing.tsx:311`).
- Other code that only computes a value becomes a function.
- Backend answers are parameters:
  - the sign-up, sign-in, insert and select results;
  - the fetched rows.

Results worth knowing:

- Every group of 1..16 is in exactly one list of each timed slot, and in none of the
  finale's. So a group's itinerary has eight entries: the seven stations the table assigns
  it in slot order, then the finale. Any other number sees only the finale.
- The sort never reorders what the walk produced.
- A saved group read back flags exactly the ids it had flagged, except in one case. A group
  with nothing completed is saved as `""`. Splitting `""` gives `[""]`, so on the next fetch
  that group gains a key `""` set to true. The statistics do not count it.
- The round trip needs a group whose keys are distinct and free of ','. Every table the
  fetch, a toggle of a station id or a reset produces holds only such groups.

## Model

| member | source | states |
|---|---|---|
| Schedule.TablesWellFormed | src/components/Landing.tsx:19-135 | eight activities numbered 1..8 with distinct ids, none of them `free-for-all`; eight slots of eight lists each |
| Schedule.Slot0Partition | src/components/Landing.tsx:80-84 | the 8:45 slot lists each group of 1..16 exactly once and no other number |
| Schedule.Slot1Partition | src/components/Landing.tsx:87-91 | the 9:05 slot lists each group of 1..16 exactly once and no other number |
| Schedule.Slot2Partition | src/components/Landing.tsx:94-98 | the 9:25 slot lists each group of 1..16 exactly once and no other number |
| Schedule.Slot3Partition | src/components/Landing.tsx:101-105 | the 9:45 slot lists each group of 1..16 exactly once and no other number |
| Schedule.Slot4Partition | src/components/Landing.tsx:108-112 | the 10:05 slot lists each group of 1..16 exactly once and no other number |
| Schedule.Slot5Partition | src/components/Landing.tsx:115-119 | the 10:25 slot lists each group of 1..16 exactly once and no other number |
| Schedule.Slot6Partition | src/components/Landing.tsx:122-126 | the 10:45 slot lists each group of 1..16 exactly once and no other number |
| Schedule.TimedSlotsPartitionGroups | src/components/Landing.tsx:78-127 | every timed slot lists a group exactly once when it is 1..16, and never otherwise |
| Schedule.FreeForAllSlotIsEmpty | src/components/Landing.tsx:128-134 | the last slot lists no group |
| Schedule.TimeToMinutes | src/components/Landing.tsx:151-154 | `timeToMinutes` splits on ':' and reads the first two parts as hours and minutes; a time without ':' is never a number |
| Schedule.HoursAndMinutes | src/components/Landing.tsx:152-153 | the first two parts as `hours * 60 + minutes`, `NaN` when either is not a number or a part is missing (its property is `HoursAndMinutesOfDigits`) |
| Schedule.HoursAndMinutesOfDigits | src/components/Landing.tsx:152-153 | two digit strings as parts read as hours * 60 + minutes |
| Schedule.TimeToMinutesOfDigits | src/components/Landing.tsx:151-154 | an "H:MM" string of digits reads as H * 60 + MM |
| Schedule.BoundaryReads | src/components/Landing.tsx:151-154 | the written time of boundary i reads as minute 525 + 20 i |
| Schedule.SlotBoundaries | src/components/Landing.tsx:78-135 | slot i starts at minute `Boundary(i)` and ends 20 minutes later, at `Boundary(i + 1)` |
| Schedule.SlotsContiguous | src/components/Landing.tsx:78-135 | every slot starts before it ends, and each ends where the next begins |
| Strings.NatToString | src/components/GameMaster.tsx:110-111 | `toString` of a number gives decimal digits, with no leading zero, whose value is the number |
| Strings.IntToStringNames | src/components/GameMaster.tsx:119 | `group_id.toString()` is the key of group n exactly when `group_id` is n |
| Strings.ParseIntOfIntToString | src/components/GameMaster.tsx:173 | `parseInt` of a number's `toString` gives the number back |
| Strings.StringToNumber | src/components/Landing.tsx:148 | `Number` of a string of digits is its value |
| Strings.IntToString | src/components/GameMaster.tsx:119 | `toString` of an integer is never empty and starts with '-' exactly when the integer is negative |
| Strings.ParseInt | src/components/GameMaster.tsx:173 | `parseInt` of a non-empty string of digits is its decimal value |
| Strings.Trim | src/context/AuthContext.tsx:56 | after `trim` the string is empty or ends in a character that is not whitespace |
| Strings.Join | src/components/GameMaster.tsx:174 | `join(',')`: the parts with one separator between neighbours (its inverse is `SplitJoin`) |
| Strings.BeforeFirst | src/components/Landing.tsx:194 | `split(' - ')[0]` is a prefix of the label (its value is `BeforeFirstOfJoined`) |
| Strings.LeadingDigits | src/context/AuthContext.tsx:74 | the digit run `parseInt` reads is the longest prefix of digits |
| Strings.TrimStart | src/context/AuthContext.tsx:56 | after `trim` the first character is not whitespace |
| Strings.TrimEnd | src/context/AuthContext.tsx:56 | after `trim` the last character is not whitespace |
| Strings.Split | src/components/GameMaster.tsx:121 | `split(',')` gives at least one part, no part contains the separator, and joining the parts gives the string back |
| Strings.SplitWithout | src/components/GameMaster.tsx:121 | a string without the separator splits into itself alone |
| Strings.SplitJoin | src/components/GameMaster.tsx:174 | splitting a join of parts that lack the separator gives the parts back |
| Strings.SplitPrefix | src/components/GameMaster.tsx:121 | a prefix without the separator extends the first part of a split |
| Strings.BeforeFirstOfJoined | src/components/Landing.tsx:194 | `split(' - ')[0]` of "a - b" is a, when a has no space |
| ItinerarySort.Insert | src/components/Landing.tsx:193-197 | inserting an entry adds exactly that entry (multiset) |
| ItinerarySort.InsertSorted | src/components/Landing.tsx:193-197 | inserting into a sorted run keeps it sorted by the key |
| ItinerarySort.SortBy | src/components/Landing.tsx:193-197 | the sort is a permutation of its input that is sorted by the key |
| ItinerarySort.SortByStable | src/components/Landing.tsx:193-197 | entries with equal keys keep their relative order (the language's sort is stable) |
| ItinerarySort.SortByOfSorted | src/components/Landing.tsx:193-197 | sorting input that is already sorted changes nothing |
| ItinerarySort.InsertAt | src/components/Landing.tsx:193-197 | the inner loop moves entry i into the sorted prefix and leaves the rest untouched |
| ItinerarySort.SortInPlace | src/components/Landing.tsx:193-197 | afterwards the array holds the stable sort by the key of what it held |
| Landing.SlotLabel | src/components/Landing.tsx:171 | the label `${startTime} - ${endTime}` of a slot (its properties are `LabelKey` and `LabelsDistinct`) |
| Landing.EntriesFor | src/components/Landing.tsx:179-189 | the entries of the first n lists of a slot, at most one per list, all carrying the slot's label |
| Landing.SlotEntries | src/components/Landing.tsx:160-189 | the entries of slot i: no more than there are activities, all carrying slot i's label |
| Landing.Emitted | src/components/Landing.tsx:160-190 | the entries the walk of the first n slots pushes: no more than eight per slot walked |
| Landing.StartKey | src/components/Landing.tsx:193-196 | the comparator's key: `timeToMinutes` of the label's text before " - " (its property is `StartKeyBySlot`) |
| Landing.Itinerary | src/components/Landing.tsx:157-198 | a permutation of the walk's entries, sorted by the comparator's key |
| Landing.GroupActivities | src/components/Landing.tsx:157-198 | `getGroupActivities`: the slot walk, then the sort, gives `Itinerary(userGroup)` |
| Landing.PushAssigned | src/components/Landing.tsx:179-189 | the walk over a slot's lists appends one entry per list containing the group, in list order |
| Landing.EntriesForShape | src/components/Landing.tsx:179-189 | a slot gives as many entries as it has lists containing the group; each carries the slot label, cleared flags and the activity of a list containing the group |
| Landing.SlotEntriesShape | src/components/Landing.tsx:160-176 | every entry of a slot carries its label with cleared flags; the free-for-all slot gives the finale alone |
| Landing.TimedSlotEntries | src/components/Landing.tsx:178-189 | a timed slot gives a group of 1..16 one entry, for the activity whose list holds it, and any other number none |
| Landing.LabelKey | src/components/Landing.tsx:194 | the comparator reads every label of slot i as the slot's start minute |
| Landing.LabelsDistinct | src/components/Landing.tsx:171 | two slots have the same label exactly when they are the same slot |
| Landing.StartKeyBySlot | src/components/Landing.tsx:193-197 | the comparator's key of every entry of slot i is `Boundary(i)` |
| Landing.EmittedInOrder | src/components/Landing.tsx:160-190 | the entries come out of the walk already sorted by start minute, all before the end of the last walked slot |
| Landing.ItineraryIsEmitted | src/components/Landing.tsx:192-197 | the sort leaves the walk's order unchanged |
| Landing.EmittedAt | src/components/Landing.tsx:160-190 | a group of 1..16 gets one entry per slot; entry j comes from slot j |
| Landing.EmittedNoGroup | src/components/Landing.tsx:178-189 | any other number gets nothing from the timed slots |
| Landing.ItineraryOfGroup | src/components/Landing.tsx:157-198 | a group of 1..16 has eight entries, entry j in slot j, the first seven being the activities whose lists hold it and the last the finale |
| Landing.ItineraryOfOther | src/components/Landing.tsx:157-198 | any other group number sees the finale alone |
| Landing.FinaleOnlyLast | src/components/Landing.tsx:162-175 | the finale is the last entry and no other entry is the finale |
| Landing.ItineraryFlags | src/components/Landing.tsx:185-186 | no entry is marked active or completed |
| Landing.CompletedCount | src/components/Landing.tsx:311 | the counter is at most the itinerary length, and 0 exactly when nothing is completed |
| Landing.CounterReadsZero | src/components/Landing.tsx:311 | the counter always reads 0 |
| Landing.DefaultSelection | src/components/Landing.tsx:202-206 | an existing selection is kept; with none, the first entry is selected exactly when there are entries |
| Landing.DefaultIsFirstSlot | src/components/Landing.tsx:202-206 | a group of 1..16 starts with its 8:45 entry selected |
| Landing.IsHighlighted | src/components/Landing.tsx:277-278 | a card is highlighted when the selection has its activity id and its label (its property is `OneCardHighlighted`) |
| Landing.OneCardHighlighted | src/components/Landing.tsx:276-278 | selecting an itinerary entry highlights that card and no other |
| Landing.GroupNumber | src/components/Landing.tsx:148 | `Number(user?.group)`, None for no user, a null group or text that is not a number (its property is `GroupFallback`) |
| Landing.UserGroup | src/components/Landing.tsx:148 | the group is never 0; it is the user's group number when that reads as a non-zero number, and otherwise 1 |
| Landing.SessionGroupAgrees | src/components/Landing.tsx:148 | the group chosen at registration is the group shown, both after `register` and after a later `login` |
| Landing.GroupFallback | src/components/Landing.tsx:148 | no user, a null group or a non-numeric group text shows group 1 |
| JsObject.Get | src/components/GameMaster.tsx:123 | `o[k]`, undefined when the key is missing (its properties are `GetKeys` and `GetSet`) |
| JsObject.Find | src/components/GameMaster.tsx:145 | the position found holds the key, and no earlier position does |
| JsObject.GetKeys | src/components/GameMaster.tsx:123 | a key reads as defined exactly when the object has it |
| JsObject.Set | src/components/GameMaster.tsx:146-149 | after `o[k] = v`, k reads v (an own property for every key, including "__proto__"; see "## Left out") |
| JsObject.GetSet | src/components/GameMaster.tsx:146-149 | after `o[k] = v`, every other key reads as before |
| JsObject.SetKeys | src/components/GameMaster.tsx:146-149 | assignment keeps an existing key in place or appends a new one, and no key is doubled |
| JsObject.SetSame | src/components/GameMaster.tsx:123-124 | assigning a key the value it has leaves the object as it was |
| JsObject.SetTwice | src/components/GameMaster.tsx:146-149 | a second assignment to a key overwrites the first in place |
| JsObject.TrueKeys | src/components/GameMaster.tsx:163-165 | the completed list holds at most as many ids as the object has keys |
| JsObject.TrueKeysMeaning | src/components/GameMaster.tsx:163-165 | an id is in the completed list exactly when it reads `true` |
| JsObject.TrueKeysDistinct | src/components/GameMaster.tsx:163-165 | the completed list holds keys of the object, each once |
| GameMaster.StationsWellFormed | src/components/GameMaster.tsx:37-86 | eight stations with distinct ids, numbered 1..8 in order |
| GameMaster.FalseFor | src/components/GameMaster.tsx:195-198 | each listed id assigned false in turn (its properties are `FalseForMeaning` and `FalseForDistinct`) |
| GameMaster.AllFalse | src/components/GameMaster.tsx:112-114 | the all-false object of the station ids (its property is `AllFalseMeaning`) |
| GameMaster.InitialTable | src/components/GameMaster.tsx:107-115 | groups "1".."16" each mapped to the all-false object (its properties are `InitialTableGroups` and `InitialTableCells`) |
| GameMaster.FalseForMeaning | src/components/GameMaster.tsx:112-114 | the all-false object reads false for every listed id and is undefined elsewhere |
| GameMaster.FalseForDistinct | src/components/GameMaster.tsx:195-198 | the all-false object has no doubled key |
| GameMaster.AllFalseMeaning | src/components/GameMaster.tsx:195-198 | the all-false group reads false for every station id, is undefined elsewhere, and has no doubled key |
| GameMaster.GroupsTableMeaning | src/components/GameMaster.tsx:110-115 | after n rounds of the loop, the groups "1".."n", and no others, hold the all-false object |
| GameMaster.InitialTableGroups | src/components/GameMaster.tsx:107-115 | the initial table has exactly the groups "1".."16" |
| GameMaster.InitialTableCells | src/components/GameMaster.tsx:107-115 | every cell of the initial table is false for a station id and undefined otherwise |
| GameMaster.AllFalseTable | src/components/GameMaster.tsx:107-115 | the initialisation loop builds the initial table |
| GameMaster.FillFalse | src/components/GameMaster.tsx:111-114 | the inner loop sets group g to the all-false object of the ids |
| GameMaster.Mark | src/components/GameMaster.tsx:123-125 | cell (g, a) set to true when group g exists (its property is `MarkMeaning`) |
| GameMaster.MarkAll | src/components/GameMaster.tsx:122-126 | each id of one row marked in turn (its property is `MarkAllMeaning`) |
| GameMaster.DecodeRow | src/components/GameMaster.tsx:119-127 | one row's `tasks_complete` split on ',' and marked in group `group_id.toString()` (its property is `DecodeRowsMeaning`) |
| GameMaster.DecodeRows | src/components/GameMaster.tsx:118-129 | the rows decoded in order (its properties are `DecodeRowsKeys` and `DecodeRowsMeaning`) |
| GameMaster.FetchResult | src/components/GameMaster.tsx:96-137 | the previous table on an error or a null `group_id`, otherwise the rows decoded into the initial table (its property is `FetchMeaning`) |
| GameMaster.MarkMeaning | src/components/GameMaster.tsx:123-125 | marking sets exactly cell (g, a) to true when group g exists, and changes nothing when it does not |
| GameMaster.MarkAllMeaning | src/components/GameMaster.tsx:122-126 | marking a list of ids sets exactly those cells of group g, when it exists |
| GameMaster.MarkedByStep | src/components/GameMaster.tsx:118 | a cell is marked by the rows exactly when it is marked by the earlier rows or by the last one |
| GameMaster.DecodeRowsKeys | src/components/GameMaster.tsx:118-129 | decoding adds and removes no group |
| GameMaster.DecodeRowsMeaning | src/components/GameMaster.tsx:118-129 | after decoding, a cell is true when some row marks it and its group exists, and unchanged otherwise |
| GameMaster.FetchMeaning | src/components/GameMaster.tsx:96-137 | a fetch of readable rows gives exactly the groups "1".."16"; each cell is true when a row marks it, false for other station ids and undefined otherwise |
| GameMaster.FetchedFlag | src/components/GameMaster.tsx:118-129 | group n flags id a exactly when some row with `group_id` n lists a in its `tasks_complete` (for every id but "__proto__"; see "## Left out") |
| GameMaster.FetchData | src/components/GameMaster.tsx:96-137 | `fetchData` keeps the previous table on an error or a null `group_id`, and otherwise decodes the rows into the initial table |
| GameMaster.DecodeAll | src/components/GameMaster.tsx:118-129 | the row loop reports whether every row has a `group_id`, and if so decodes them all |
| GameMaster.MarkIds | src/components/GameMaster.tsx:122-126 | the loop over one row's ids marks them all |
| GameMaster.Encode | src/components/GameMaster.tsx:163-174 | the completed ids joined with ','; a group with none completed saves "" |
| GameMaster.EncodeSplit | src/components/GameMaster.tsx:163-174 | splitting the saved string on ',' gives back the completed ids, or `[""]` when there are none |
| GameMaster.SaveFetchRoundTrip | src/components/GameMaster.tsx:162-177 | a group saved and fetched back flags exactly the ids it had flagged, or only the empty id when it had none |
| GameMaster.GetSaveable | src/components/GameMaster.tsx:143-145 | every group read from a table of saveable groups (distinct, comma-free keys) is saveable, so `SaveFetchRoundTrip` applies to it |
| GameMaster.InitialTableSaveable | src/components/GameMaster.tsx:107-115 | the all-false group and the initial table are saveable: station ids hold no ',' |
| GameMaster.MarkAllSaveable | src/components/GameMaster.tsx:121-126 | marking ids of a split on ',' keeps every group saveable |
| GameMaster.DecodeRowsSaveable | src/components/GameMaster.tsx:118-129 | decoding rows keeps every group saveable |
| GameMaster.FetchResultSaveable | src/components/GameMaster.tsx:96-137 | every table a fetch leaves holds only saveable groups |
| GameMaster.Toggle | src/components/GameMaster.tsx:143-158 | `toggleCompletion` negates cell (g, a), creating the group when missing, changes no other cell or group, and saves group g's new encoding under `parseInt(g)` |
| GameMaster.ToggleFlags | src/components/GameMaster.tsx:143-158 | toggling flips exactly the flag of (g, a) |
| GameMaster.ToggleSaveable | src/components/GameMaster.tsx:143-158 | toggling an id without ',' keeps every group saveable |
| GameMaster.ToggleTwice | src/components/GameMaster.tsx:143-158 | toggling twice restores every flag, and restores the table itself when the cell existed |
| GameMaster.ResetGroup | src/components/GameMaster.tsx:194-222 | `resetGroup` makes group g all false, keeps the other groups, and saves `""`, which is the all-false group's encoding |
| GameMaster.ResetGroupSaveable | src/components/GameMaster.tsx:194-222 | resetting a group keeps every group saveable |
| GameMaster.AllFalseEncodesEmpty | src/components/GameMaster.tsx:212 | the all-false group encodes as the empty string |
| GameMaster.ResetAll | src/components/GameMaster.tsx:225-247 | `resetAll` gives the initial table and saves one row per group 1..16 holding the all-false encoding |
| GameMaster.ResetRows | src/components/GameMaster.tsx:237-247 | the reset loop upserts `""` for groups 1..16 in order |
| GameMaster.CountDone | src/components/GameMaster.tsx:254 | the count of flagged ids is at most the number of ids |
| GameMaster.GroupStats | src/components/GameMaster.tsx:253-256 | the total is the 8 stations and the completed count never exceeds it |
| GameMaster.CountDoneOnlyIds | src/components/GameMaster.tsx:254 | the count depends only on the flags of the listed ids |
| GameMaster.CountDoneFlip | src/components/GameMaster.tsx:254 | flipping one listed id's flag moves the count by exactly one, and flipping an unlisted one does not move it |
| GameMaster.CountDoneNone | src/components/GameMaster.tsx:254 | a table without groups counts nothing |
| GameMaster.ToggleStats | src/components/GameMaster.tsx:143-158 | a toggle moves the group's completed count by exactly one for a station id, and leaves the stats alone otherwise |
| GameMaster.ResetStats | src/components/GameMaster.tsx:194-233 | after a reset, or in the initial table, a group has completed nothing |
| Auth.FetchUserProfile | src/context/AuthContext.tsx:26-48 | a profile exists exactly when the select returns a row, and it carries that row's id, name and programme, with `group_id` as the group (a number, or null) |
| Auth.LowerChar | src/context/AuthContext.tsx:56 | `toLowerCase` maps an upper-case letter to the same letter in lower case, leaves every other character alone, and keeps whitespace as whitespace |
| Auth.LowerCase | src/context/AuthContext.tsx:56 | `toLowerCase` keeps the length and leaves no upper-case letter |
| Auth.RemoveWhitespace | src/context/AuthContext.tsx:56 | `replace(/\s+/g, '')` leaves no whitespace and never lengthens the string |
| Auth.RemoveWhitespaceKeeps | src/context/AuthContext.tsx:56 | removing whitespace keeps only characters of the input |
| Auth.RemoveWhitespaceOfTrim | src/context/AuthContext.tsx:56 | removing all whitespace makes the `trim` before it redundant |
| Auth.LowerCaseRemoveWhitespace | src/context/AuthContext.tsx:56 | lower-casing and removing whitespace commute |
| Auth.FakeEmail | src/context/AuthContext.tsx:57 | the address `${safeName}@myapp.local` has no whitespace and no upper-case letter |
| Auth.SafeName | src/context/AuthContext.tsx:56 | the account name has no whitespace and no upper-case letter |
| Auth.SafeNameMeaning | src/context/AuthContext.tsx:56 | the account name is the name lower-cased with all whitespace removed, wherever in the name it stands |
| Auth.SafeNameIdempotent | src/context/AuthContext.tsx:94 | normalising an account name again changes nothing |
| Auth.SameAccount | src/context/AuthContext.tsx:93-95 | two names reach the same address exactly when they agree once lower-cased with their whitespace removed |
| Auth.AuthState.constructor | src/context/AuthContext.tsx:22-23 | the provider starts signed out, with no user |
| Auth.AuthState.Register | src/context/AuthContext.tsx:50-91 | `register` succeeds exactly when the sign-up gives a user and the profile insert succeeds. Then it stores that user with the chosen group text; otherwise the state is unchanged |
| Auth.AuthState.Login | src/context/AuthContext.tsx:93-118 | `login` succeeds exactly when the sign-in gives a user and the profile select finds the row. Then that profile is the user; otherwise the state is unchanged |
| Auth.AuthState.Logout | src/context/AuthContext.tsx:120-124 | `logout` leaves the provider signed out, with no user |

## Left out

- Network and database: the authentication service and the `users` and `groups` tables are not modelled. Their answers are parameters:
  - sign-up, sign-in and insert results;
  - the select result;
  - the fetched rows.
- The save in `toggleCompletion`, `resetGroup` and `resetAll`, and the backend's reply to it, are out of scope. The model gives the row each call upserts, not the write.
- Timing: `async`/`await` ordering and the `loading` flag are not modelled. Neither is a second run of a state updater in React's strict mode, which would save twice.
- React's rendering, JSX, the icons and the styling are not modelled. Display-only fields are left out too:
  - activity descriptions;
  - the group names of `GameMaster.tsx:12-29`;
  - `getCurrentTime` and `completionPercentage`.
- Logging: `console.error` calls are dropped.
- Logout: a failing or throwing `signOut` is not modelled. The model always clears the session, as the code does once the call returns.
- Number conversions:
  - `Number(...)` is modelled for a trimmed, optionally signed string of decimal digits. Every other string counts as NaN, so fractions, exponents, `0x…` and `Infinity` are out of scope.
  - `parseInt` is modelled for decimal input only.
- Number width: integers are unbounded, since all values in the core are small integers.
- StringToNumber: a fraction such as "2.5" counts as NaN rather than 2.5. `Number(user.group) || 1` then shows group 1 instead of an empty itinerary with only the finale.
- LowerChar: lower-cases only the ASCII letters A-Z. `toLowerCase` also maps non-ASCII letters.
- Object property order: the model keeps insertion order for every key. It does not put integer-like keys (such as "1".."16") first, as `Object.entries` does. The station ids are not integer-like, but a fetched row can list any id. For example, after a row for group 1 with `tasks_complete` "3,mermaids-lagoon", the source saves that group as "3,mermaids-lagoon" and the model as "mermaids-lagoon,3".
- JsObject.Set / GameMaster.Mark: in the source, `o[k] = v` with `k == "__proto__"` and a boolean `v` goes through the inherited `__proto__` accessor and creates no property. The model stores the pair like any other key. This concerns the assignment of the fetch (`GameMaster.tsx:124`) only: the object literal with a computed key in `toggleCompletion` (`GameMaster.tsx:146-149`) does create an own "__proto__" property, as the model does. So a fetched row listing "__proto__" flags it in the model, and a later save writes it, while the source does neither. Likewise `o[k]` of an inherited name such as "toString" is not undefined in the source, while the model reads it as missing; the code never reads such a name.
- Encode: the order of the saved ids follows insertion order. So it differs from the source's once a group holds an integer-like key, as described above.
- Comparator key: a label without a time would give `NaN` in the comparator. The model gives it 0. Every label the itinerary holds reads as a number (`Landing.StartKeyBySlot`), so this never happens.
- Where this model follows the code instead of a looser description of the app:
  - There is no error for a group that appears in no slot. Such a group gets the finale alone (`Landing.ItineraryOfOther`).
  - There is no clock-driven active/completed marking: the itinerary's flags are always false.
  - The counter's denominator is the itinerary's length, and the game master's total is `activities.length` = 8.
  - The default selection is simply the first entry of the sorted itinerary.
