/** The participant view of src/components/Landing.tsx: the group the signed-in user
    belongs to, the itinerary `getGroupActivities` builds for it from the slot tables,
    the entry selected by default, the highlighted card and the completed counter. */
module Landing {
  import opened Wrappers
  import opened Strings
  import opened Schedule
  import opened ItinerarySort
  import opened Auth

  /** The shared finale that the last slot lists for every group. */
  const FreeForAll: Activity := Activity("free-for-all", "Free For All", "Main Assembly Area", 9)

  /** `${slot.startTime} - ${slot.endTime}`. */
  function SlotLabel(slot: TimeSlot): string
  {
    slot.startTime + " - " + slot.endTime
  }

  function Entry(activity: Activity, slotText: string): GroupActivity
  {
    GroupActivity(activity, slotText, false, false)
  }

  /** What the walk over `Object.entries(slot.activities)` adds for group g after the first
      n activity numbers: an entry for each list that includes g. */
  function EntriesFor(lists: seq<seq<int>>, n: nat, g: int, slotText: string): (r: seq<GroupActivity>)
    requires n <= |lists| && n <= |Activities|
    ensures |r| <= n
    ensures forall j :: 0 <= j < |r| ==> r[j].timeSlot == slotText
  {
    if n == 0 then []
    else EntriesFor(lists, n - 1, g, slotText) + (if g in lists[n - 1] then [Entry(Activities[n - 1], slotText)] else [])
  }

  /** What slot i adds: the finale in the free-for-all slot, the assigned activities in
      the others. */
  function SlotEntries(i: nat, g: int): (r: seq<GroupActivity>)
    requires i < |TimeSlots|
    ensures |r| <= |Activities|
    ensures forall j :: 0 <= j < |r| ==> r[j].timeSlot == SlotLabel(TimeSlots[i])
  {
    var slot := TimeSlots[i];
    if i == FreeForAllSlot then [Entry(FreeForAll, SlotLabel(slot))]
    else
      SlotLength(i);
      EntriesFor(slot.groups, |slot.groups|, g, SlotLabel(slot))
  }

  /** The entries pushed by the first n slots, in push order. */
  function Emitted(n: nat, g: int): (r: seq<GroupActivity>)
    requires n <= |TimeSlots|
    ensures |r| <= n * |Activities|
  {
    if n == 0 then [] else Emitted(n - 1, g) + SlotEntries(n - 1, g)
  }

  /** The comparator's key: `timeToMinutes(a.timeSlot.split(' - ')[0])`. Every label the
      itinerary holds reads as a number (`StartKeyBySlot`); the 0 for NaN is never used. */
  function StartKey(e: GroupActivity): int
  {
    var m := TimeToMinutes(BeforeFirst(e.timeSlot, " - "));
    if m.Some? then m.value else 0
  }

  /** `getGroupActivities()` for group g: the pushed entries, stably sorted by start time. */
  function Itinerary(g: int): (r: seq<GroupActivity>)
    ensures multiset(r) == multiset(Emitted(|TimeSlots|, g))
    ensures SortedBy(r, StartKey)
  {
    SortBy(Emitted(|TimeSlots|, g), StartKey)
  }

  /** `getGroupActivities`: the loop over the slots and, inside it, over the activity
      numbers of a slot, then the sort of the array built. */
  method GroupActivities(userGroup: int) returns (r: seq<GroupActivity>)
    ensures r == Itinerary(userGroup)
  {
    var s: seq<GroupActivity> := [];
    var i := 0;
    while i < |TimeSlots|
      invariant 0 <= i <= |TimeSlots|
      invariant s == Emitted(i, userGroup)
    {
      var slot := TimeSlots[i];
      var slotText := slot.startTime + " - " + slot.endTime;
      if i == FreeForAllSlot {
        s := s + [GroupActivity(FreeForAll, slotText, false, false)];
      } else {
        SlotLength(i);
        s := PushAssigned(s, slot.groups, userGroup, slotText);
      }
      i := i + 1;
    }
    var a := new GroupActivity[|s|](j requires 0 <= j < |s| => s[j]);
    assert a[..] == s;
    SortInPlace(a, StartKey);
    r := a[..];
  }

  /** The inner loop of `getGroupActivities`: for each activity number whose list holds
      the group, push an entry for that activity. */
  method PushAssigned(s0: seq<GroupActivity>, lists: seq<seq<int>>, g: int, slotText: string)
    returns (s: seq<GroupActivity>)
    requires |lists| <= |Activities|
    ensures s == s0 + EntriesFor(lists, |lists|, g, slotText)
  {
    s := s0;
    var k := 0;
    while k < |lists|
      invariant 0 <= k <= |lists|
      invariant s == s0 + EntriesFor(lists, k, g, slotText)
    {
      if g in lists[k] {
        s := s + [GroupActivity(Activities[k], slotText, false, false)];
      }
      k := k + 1;
    }
  }

  // The slot tables as the itinerary reads them.

  /** A timed slot lists one group set per catalogue entry. */
  lemma SlotLength(i: nat)
    requires i < |TimeSlots|
    ensures |TimeSlots[i].groups| == |Activities| == 8
  {
  }

  /** A start time is digits and a colon, so it holds no space. */
  lemma StartHasNoSpace(i: nat)
    requires i < |TimeSlots|
    ensures ' ' !in TimeSlots[i].startTime
  {
    StartText(i);
    HourValue(i);
    MinuteValue(i);
    var s := TimeSlots[i].startTime;
    forall j | 0 <= j < |s| ensures s[j] != ' ' {
      if j < |HourText(i)| {
        assert s[j] == HourText(i)[j];
      } else if j > |HourText(i)| {
        assert s[j] == MinuteText(i)[j - |HourText(i)| - 1];
      }
    }
  }

  /** The comparator reads a slot's label as the slot's start minute. */
  lemma LabelKey(i: nat)
    requires i < |TimeSlots|
    ensures BeforeFirst(SlotLabel(TimeSlots[i]), " - ") == TimeSlots[i].startTime
    ensures StartKey(Entry(FreeForAll, SlotLabel(TimeSlots[i]))) == Boundary(i)
    ensures forall e: GroupActivity :: e.timeSlot == SlotLabel(TimeSlots[i]) ==> StartKey(e) == Boundary(i)
  {
    StartHasNoSpace(i);
    BeforeFirstOfJoined(TimeSlots[i].startTime, " - ", TimeSlots[i].endTime);
    SlotStart(i);
  }

  /** Distinct slots have distinct labels. */
  lemma LabelsDistinct(i: nat, j: nat)
    requires i < |TimeSlots| && j < |TimeSlots|
    ensures SlotLabel(TimeSlots[i]) == SlotLabel(TimeSlots[j]) <==> i == j
  {
    LabelKey(i);
    LabelKey(j);
    assert Boundary(i) == Boundary(0) + 20 * i && Boundary(j) == Boundary(0) + 20 * j by {
      BoundaryStep(i);
      BoundaryStep(j);
    }
  }

  lemma {:induction false} BoundaryStep(i: nat)
    requires i <= |TimeSlots|
    ensures Boundary(i) == Boundary(0) + 20 * i
  {
    if i > 0 {
      BoundaryStep(i - 1);
      BoundaryNext(i - 1);
    }
  }

  // The entries of one slot.

  /** The entries of a slot's first n lists: one per list that includes g, each carrying
      the slot's label, the activity of that list's number and both flags cleared. */
  lemma {:induction false} EntriesForShape(lists: seq<seq<int>>, n: nat, g: int, slotText: string)
    requires n <= |lists| && n <= |Activities|
    ensures |EntriesFor(lists, n, g, slotText)| == CountContaining(lists[..n], g)
    ensures forall j :: 0 <= j < |EntriesFor(lists, n, g, slotText)| ==>
      var e := EntriesFor(lists, n, g, slotText)[j];
      e.timeSlot == slotText && !e.isActive && !e.isCompleted
      && exists k :: 0 <= k < n && e.activity == Activities[k] && g in lists[k]
  {
    if n > 0 {
      EntriesForShape(lists, n - 1, g, slotText);
      CountStep(lists, n - 1, g);
      var p := EntriesFor(lists, n - 1, g, slotText);
      var e := EntriesFor(lists, n, g, slotText);
      forall j | 0 <= j < |e|
        ensures e[j].timeSlot == slotText && !e[j].isActive && !e[j].isCompleted
        ensures exists k :: 0 <= k < n && e[j].activity == Activities[k] && g in lists[k]
      {
        if j < |p| {
          assert e[j] == p[j];
          var k :| 0 <= k < n - 1 && p[j].activity == Activities[k] && g in lists[k];
        } else {
          assert e[j] == Entry(Activities[n - 1], slotText);
        }
      }
    }
  }

  /** Every entry of slot i carries the slot's label, with both flags cleared; the
      free-for-all slot yields the finale alone. */
  lemma SlotEntriesShape(i: nat, g: int)
    requires i < |TimeSlots|
    ensures forall j :: 0 <= j < |SlotEntries(i, g)| ==>
      SlotEntries(i, g)[j].timeSlot == SlotLabel(TimeSlots[i])
      && !SlotEntries(i, g)[j].isActive && !SlotEntries(i, g)[j].isCompleted
    ensures i == FreeForAllSlot ==> SlotEntries(i, g) == [Entry(FreeForAll, SlotLabel(TimeSlots[i]))]
  {
    if i != FreeForAllSlot {
      SlotLength(i);
      EntriesForShape(TimeSlots[i].groups, |TimeSlots[i].groups|, g, SlotLabel(TimeSlots[i]));
    }
  }

  /** `a` is the activity of a list of slot i that includes g. */
  ghost predicate AssignedIn(i: nat, g: int, a: Activity)
    requires i < |TimeSlots|
  {
    exists k :: 0 <= k < |TimeSlots[i].groups| && k < |Activities| && a == Activities[k] && g in TimeSlots[i].groups[k]
  }

  /** A timed slot gives a group of 1..16 exactly one entry, the activity whose list holds
      the group, and any other number none. */
  lemma TimedSlotEntries(i: nat, g: int)
    requires i < |TimeSlots| && i != FreeForAllSlot
    ensures |SlotEntries(i, g)| == if 1 <= g <= GroupCount then 1 else 0
    ensures forall j :: 0 <= j < |SlotEntries(i, g)| ==> AssignedIn(i, g, SlotEntries(i, g)[j].activity)
  {
    var lists := TimeSlots[i].groups;
    SlotLength(i);
    EntriesForShape(lists, |lists|, g, SlotLabel(TimeSlots[i]));
    assert lists[..|lists|] == lists;
    TimedSlotsPartitionGroups(i, g);
  }

  // The entries of all slots, and their order.

  /** `key` gives every entry of slot i the key `Boundary(i)`. */
  ghost predicate KeyedBySlot(key: GroupActivity -> int, g: int)
  {
    forall i, j :: 0 <= i < |TimeSlots| && 0 <= j < |SlotEntries(i, g)| ==> key(SlotEntries(i, g)[j]) == Boundary(i)
  }

  /** The comparator's key is such a key: each entry's label reads as its slot's start. */
  lemma StartKeyBySlot(g: int)
    ensures KeyedBySlot(StartKey, g)
  {
    forall i, j | 0 <= i < |TimeSlots| && 0 <= j < |SlotEntries(i, g)|
      ensures StartKey(SlotEntries(i, g)[j]) == Boundary(i)
    {
      SlotEntriesShape(i, g);
      LabelKey(i);
    }
  }

  /** Slot i's entries under such a key. */
  lemma SlotKeys(key: GroupActivity -> int, g: int, i: nat)
    requires i < |TimeSlots| && KeyedBySlot(key, g)
    ensures forall j :: 0 <= j < |SlotEntries(i, g)| ==> key(SlotEntries(i, g)[j]) == Boundary(i)
  {
  }

  /** A sorted run with keys below `b`, followed by a run with keys equal to `b`, is sorted,
      with keys below any bound above `b`. */
  lemma AppendInOrder(p: seq<GroupActivity>, q: seq<GroupActivity>, key: GroupActivity -> int, b: int, c: int)
    requires SortedBy(p, key) && b < c
    requires forall j :: 0 <= j < |p| ==> key(p[j]) < b
    requires forall j :: 0 <= j < |q| ==> key(q[j]) == b
    ensures SortedBy(p + q, key)
    ensures forall j :: 0 <= j < |p + q| ==> key((p + q)[j]) < c
  {
    SortedByAppend(p, q, key);
    forall j | 0 <= j < |p + q| ensures key((p + q)[j]) < c {
      if j < |p| { assert (p + q)[j] == p[j]; } else { assert (p + q)[j] == q[j - |p|]; }
    }
  }

  /** With such a key, the pushed entries are in order: all keys of the first n slots are
      below `Boundary(n)`, and they do not decrease. */
  lemma {:induction false} EmittedInOrder(n: nat, g: int, key: GroupActivity -> int)
    requires n <= |TimeSlots| && KeyedBySlot(key, g)
    ensures SortedBy(Emitted(n, g), key)
    ensures forall j :: 0 <= j < |Emitted(n, g)| ==> key(Emitted(n, g)[j]) < Boundary(n)
  {
    if n > 0 {
      EmittedInOrder(n - 1, g, key);
      BoundaryNext(n - 1);
      SlotKeys(key, g, n - 1);
      AppendInOrder(Emitted(n - 1, g), SlotEntries(n - 1, g), key, Boundary(n - 1), Boundary(n));
    }
  }

  /** The sort changes nothing: the itinerary is the entries in the order they are pushed. */
  lemma ItineraryIsEmitted(g: int)
    ensures Itinerary(g) == Emitted(|TimeSlots|, g)
  {
    StartKeyBySlot(g);
    EmittedInOrder(|TimeSlots|, g, StartKey);
    SortByOfSorted(Emitted(|TimeSlots|, g), StartKey);
  }

  /** A group of 1..16 gets one entry per slot ... */
  lemma {:induction false} EmittedLength(n: nat, g: int)
    requires n <= |TimeSlots| && 1 <= g <= GroupCount
    ensures |Emitted(n, g)| == n
  {
    if n > 0 {
      EmittedLength(n - 1, g);
      SlotHasOne(n - 1, g);
    }
  }

  /** ... and entry j is the one of slot j. */
  lemma {:induction false} EmittedAt(n: nat, g: int, j: nat)
    requires j < n <= |TimeSlots| && 1 <= g <= GroupCount
    ensures |Emitted(n, g)| == n && |SlotEntries(j, g)| == 1
    ensures Emitted(n, g)[j] == SlotEntries(j, g)[0]
  {
    EmittedLength(n, g);
    SlotHasOne(j, g);
    var p, q := Emitted(n - 1, g), SlotEntries(n - 1, g);
    assert Emitted(n, g) == p + q;
    if j < n - 1 {
      EmittedAt(n - 1, g, j);
      assert (p + q)[j] == p[j];
    } else {
      assert (p + q)[j] == q[0];
    }
  }

  /** Each slot gives a group of 1..16 exactly one entry. */
  lemma SlotHasOne(i: nat, g: int)
    requires i < |TimeSlots| && 1 <= g <= GroupCount
    ensures |SlotEntries(i, g)| == 1
  {
    if i == FreeForAllSlot {
      SlotEntriesShape(i, g);
    } else {
      TimedSlotEntries(i, g);
    }
  }

  /** Any other number gets no timed entry. */
  lemma {:induction false} EmittedNoGroup(n: nat, g: int)
    requires n <= FreeForAllSlot && !(1 <= g <= GroupCount)
    ensures Emitted(n, g) == []
  {
    if n > 0 {
      EmittedNoGroup(n - 1, g);
      TimedSlotEntries(n - 1, g);
    }
  }

  /** The entries of a group of 1..16, slot by slot. */
  lemma EmittedOfGroup(n: nat, g: int)
    requires n == |TimeSlots| && 1 <= g <= GroupCount
    ensures |Emitted(n, g)| == n
    ensures forall j :: 0 <= j < n ==>
      Emitted(n, g)[j].timeSlot == SlotLabel(TimeSlots[j])
      && !Emitted(n, g)[j].isActive && !Emitted(n, g)[j].isCompleted
      && (j != FreeForAllSlot ==> AssignedIn(j, g, Emitted(n, g)[j].activity))
      && (j == FreeForAllSlot ==> Emitted(n, g)[j].activity == FreeForAll)
  {
    EmittedLength(n, g);
    forall j | 0 <= j < n
      ensures Emitted(n, g)[j].timeSlot == SlotLabel(TimeSlots[j])
      ensures !Emitted(n, g)[j].isActive && !Emitted(n, g)[j].isCompleted
      ensures j != FreeForAllSlot ==> AssignedIn(j, g, Emitted(n, g)[j].activity)
      ensures j == FreeForAllSlot ==> Emitted(n, g)[j].activity == FreeForAll
    {
      EmittedAt(n, g, j);
      SlotEntriesShape(j, g);
      if j != FreeForAllSlot {
        TimedSlotEntries(j, g);
      }
    }
  }

  /** The itinerary of a group of 1..16: eight entries, entry j in slot j; the first seven are
      the activities whose lists hold the group and the last the finale. */
  lemma ItineraryOfGroup(g: int)
    requires 1 <= g <= GroupCount
    ensures |Itinerary(g)| == |TimeSlots| == 8
    ensures forall j :: 0 <= j < |Itinerary(g)| ==> Itinerary(g)[j].timeSlot == SlotLabel(TimeSlots[j])
    ensures forall j :: 0 <= j < FreeForAllSlot ==> AssignedIn(j, g, Itinerary(g)[j].activity)
    ensures Itinerary(g)[FreeForAllSlot].activity == FreeForAll
  {
    ItineraryIsEmitted(g);
    EmittedOfGroup(|TimeSlots|, g);
  }

  /** Any other number, which the tables do not list, sees the finale alone. */
  lemma ItineraryOfOther(g: int)
    requires !(1 <= g <= GroupCount)
    ensures Itinerary(g) == [Entry(FreeForAll, SlotLabel(TimeSlots[FreeForAllSlot]))]
  {
    ItineraryIsEmitted(g);
    EmittedNoGroup(FreeForAllSlot, g);
    SlotEntriesShape(FreeForAllSlot, g);
  }

  /** The finale is the last entry and the only one. */
  lemma FinaleOnlyLast(g: int, j: nat)
    requires 1 <= g <= GroupCount && j < |Itinerary(g)|
    ensures Itinerary(g)[j].activity.id == "free-for-all" <==> j == FreeForAllSlot
  {
    ItineraryOfGroup(g);
    TablesWellFormed();
  }

  /** No pushed entry is marked active or completed. */
  lemma {:induction false} EmittedFlags(n: nat, g: int)
    requires n <= |TimeSlots|
    ensures forall j :: 0 <= j < |Emitted(n, g)| ==> !Emitted(n, g)[j].isActive && !Emitted(n, g)[j].isCompleted
  {
    if n > 0 {
      EmittedFlags(n - 1, g);
      SlotEntriesShape(n - 1, g);
      var p: seq<GroupActivity>, q: seq<GroupActivity> := Emitted(n - 1, g), SlotEntries(n - 1, g);
      assert Emitted(n, g) == p + q;
      forall j | 0 <= j < |p + q| ensures !(p + q)[j].isActive && !(p + q)[j].isCompleted {
        if j < |p| { assert (p + q)[j] == p[j]; } else { assert (p + q)[j] == q[j - |p|]; }
      }
    }
  }

  /** No entry of any itinerary is marked active or completed. */
  lemma ItineraryFlags(g: int)
    ensures forall j :: 0 <= j < |Itinerary(g)| ==> !Itinerary(g)[j].isActive && !Itinerary(g)[j].isCompleted
  {
    ItineraryIsEmitted(g);
    EmittedFlags(|TimeSlots|, g);
  }

  // The counter, the default selection and the highlighted card.

  /** `groupActivities.filter(ga => ga.isCompleted).length`. */
  function CompletedCount(items: seq<GroupActivity>): (c: nat)
    ensures c <= |items|
    ensures c == 0 <==> forall j :: 0 <= j < |items| ==> !items[j].isCompleted
  {
    if items == [] then 0
    else CompletedCount(items[..|items| - 1]) + (if items[|items| - 1].isCompleted then 1 else 0)
  }

  /** The counter always reads 0 out of the itinerary's length. */
  lemma CounterReadsZero(g: int)
    ensures CompletedCount(Itinerary(g)) == 0
  {
    ItineraryFlags(g);
  }

  /** The effect: with entries and nothing selected, the first entry becomes selected. */
  function DefaultSelection(items: seq<GroupActivity>, selected: Option<GroupActivity>): (r: Option<GroupActivity>)
    ensures selected.Some? ==> r == selected
    ensures selected.None? ==> (r.Some? <==> |items| > 0)
    ensures r.Some? && selected.None? ==> r.value == items[0]
  {
    if |items| > 0 && selected.None? then Some(items[0]) else selected
  }

  /** On first render a group of 1..16 has its 8:45 entry selected. */
  lemma DefaultIsFirstSlot(g: int)
    requires 1 <= g <= GroupCount
    ensures DefaultSelection(Itinerary(g), None).Some?
    ensures DefaultSelection(Itinerary(g), None).value.timeSlot == SlotLabel(TimeSlots[0])
  {
    ItineraryOfGroup(g);
  }

  /** A card is highlighted when the selection has its activity id and its label. */
  predicate IsHighlighted(selected: Option<GroupActivity>, item: GroupActivity)
  {
    selected.Some? && selected.value.activity.id == item.activity.id && selected.value.timeSlot == item.timeSlot
  }

  /** Selecting an entry of a group's itinerary highlights that card and no other. */
  lemma OneCardHighlighted(g: int, j: nat, k: nat)
    requires 1 <= g <= GroupCount && j < |Itinerary(g)| && k < |Itinerary(g)|
    ensures IsHighlighted(Some(Itinerary(g)[j]), Itinerary(g)[k]) <==> j == k
  {
    ItineraryOfGroup(g);
    LabelsDistinct(j, k);
  }

  // The group of the signed-in user.

  /** `Number(user?.group)`: the text as `Number` reads it, a number as it is, null as 0;
      None is NaN (also for a missing user). */
  function GroupNumber(user: Option<User>): Option<int>
  {
    if user.None? then None
    else match user.value.group
      case GroupText(text) => StringToNumber(text)
      case GroupNumber(n) => Some(n)
      case GroupNull => Some(0)
  }

  /** `Number(user?.group) || 1`: NaN and 0 fall back to group 1. */
  function UserGroup(user: Option<User>): (g: int)
    ensures g != 0
    ensures g == 1 || GroupNumber(user) == Some(g)
    ensures GroupNumber(user).Some? && GroupNumber(user).value != 0 ==> g == GroupNumber(user).value
  {
    var n := GroupNumber(user);
    if n.Some? && n.value != 0 then n.value else 1
  }

  /** The group chosen at registration (one of the form's "1".."16") is the group the view
      shows, both in the session `register` opens and in a later one opened by `login`,
      whose profile holds the `parseInt` of that choice. */
  lemma SessionGroupAgrees(n: nat, id: string, name: string, programme: string)
    requires 1 <= n <= GroupCount
    ensures UserGroup(Some(User(id, name, programme, GroupText(NatToString(n))))) == n
    ensures UserGroup(FetchUserProfile(ProfileRow(id, name, programme, ParseInt(NatToString(n))))) == n
  {
    assert StringToNumber(NatToString(n)) == Some(n);
    ParseIntOfIntToString(n);
  }

  /** Without a user, or with a group that does not read as a non-zero number, the view
      shows group 1. */
  lemma GroupFallback(user: Option<User>)
    requires user.None? || user.value.group.GroupNull?
      || (user.value.group.GroupText? && StringToNumber(user.value.group.text).None?)
    ensures UserGroup(user) == 1
  {
  }
}
