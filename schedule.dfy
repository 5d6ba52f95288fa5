/** The static data of the participant view (src/components/Landing.tsx): the activity
    catalogue, the eight time slots with their activity-to-groups assignments, and the
    conversion of an "H:MM" wall-clock string to minutes since midnight. */
module Schedule {
  import opened Wrappers
  import opened Strings

  /** A station of the hunt. The narrative `description` text is not modelled. */
  datatype Activity = Activity(id: string, theme: string, location: string, order: int)

  /** A time slot; `groups[k]` lists the groups assigned to activity number `k + 1`
      (the object's integer keys 1..8, which `Object.entries` visits in ascending order). */
  datatype TimeSlot = TimeSlot(startTime: string, endTime: string, groups: seq<seq<int>>)

  const Activities: seq<Activity> := [
    Activity("mermaids-lagoon", "Mermaid's Lagoon", "Arc TR", 1),
    Activity("krakens-wrath", "Kraken's Wrath", "LWN", 2),
    Activity("cursed-compass", "Cursed Compass", "AIA", 3),
    Activity("plank-duel", "Plank Duel", "Outside Audi", 4),
    Activity("isle-of-echoes", "Isle of Echoes", "Hive", 5),
    Activity("cannonball-clash", "Cannonball Clash", "GAIA", 6),
    Activity("tropical-trickery", "Tropical Trickery", "HSS", 7),
    Activity("blazing-buccaneers", "Blazing Buccaneers", "CHC/Outside Can B", 8)
  ]

  const TimeSlots: seq<TimeSlot> := [
    TimeSlot("8:45", "9:05", Slot0Groups),
    TimeSlot("9:05", "9:25", Slot1Groups),
    TimeSlot("9:25", "9:45", Slot2Groups),
    TimeSlot("9:45", "10:05", Slot3Groups),
    TimeSlot("10:05", "10:25", Slot4Groups),
    TimeSlot("10:25", "10:45", Slot5Groups),
    TimeSlot("10:45", "11:05", Slot6Groups),
    TimeSlot("11:05", "11:25", Slot7Groups)
  ]

  // The group assignments of each slot, in the order of the slots.
  const Slot0Groups: seq<seq<int>> := [[1, 2], [3, 4], [5, 6], [7, 8], [9, 10], [11, 12], [13, 14], [15, 16]]
  const Slot1Groups: seq<seq<int>> := [[3, 5], [1, 6], [7, 2], [9, 4], [11, 8], [13, 15], [10, 16], [14, 12]]
  const Slot2Groups: seq<seq<int>> := [[8, 4], [10, 2], [12, 1], [5, 11], [13, 16], [3, 14], [6, 15], [7, 9]]
  const Slot3Groups: seq<seq<int>> := [[13, 6], [11, 14], [4, 16], [1, 10], [7, 15], [2, 9], [3, 12], [8, 5]]
  const Slot4Groups: seq<seq<int>> := [[7, 16], [15, 5], [14, 9], [6, 12], [2, 3], [1, 8], [4, 11], [10, 13]]
  const Slot5Groups: seq<seq<int>> := [[14, 10], [7, 12], [8, 15], [2, 13], [6, 4], [5, 16], [1, 9], [3, 11]]
  const Slot6Groups: seq<seq<int>> := [[11, 15], [13, 9], [10, 3], [14, 16], [12, 5], [6, 7], [2, 8], [4, 1]]
  const Slot7Groups: seq<seq<int>> := [[], [], [], [], [], [], [], []]

  /** One line of a group's itinerary (`GroupActivity`): the activity, the slot label
      "start - end", and the two display flags. */
  datatype GroupActivity = GroupActivity(activity: Activity, timeSlot: string, isActive: bool, isCompleted: bool)

  /** The index of the slot that stands for the shared, untimed finale. */
  const FreeForAllSlot: nat := 7

  /** The number of groups, "1".."16": the groups the slot table assigns and the game
      master's table and reset loop write. */
  const GroupCount: nat := 16

  /** `timeToMinutes`: split on ':', convert the first two parts with `Number` and return
      hours * 60 + minutes; a missing or non-numeric part makes the result `NaN` (None). */
  function TimeToMinutes(time: string): (r: Option<int>)
    ensures r.Some? ==> ':' in time
  {
    SplitWithout(time, ':');
    HoursAndMinutes(Split(time, ':'))
  }

  /** The first two parts as hours and minutes; fewer than two parts is `NaN`. */
  function HoursAndMinutes(parts: seq<string>): Option<int>
  {
    if |parts| < 2 then None
    else
      var hours := StringToNumber(parts[0]);
      var minutes := StringToNumber(parts[1]);
      if hours.Some? && minutes.Some? then Some(hours.value * 60 + minutes.value) else None
  }

  /** On an "H:MM" string of digits, `timeToMinutes` is H * 60 + MM. */
  lemma TimeToMinutesOfDigits(h: string, m: string)
    requires AllDigits(h) && AllDigits(m)
    ensures TimeToMinutes(h + ":" + m) == Some(DigitsValue(h) * 60 + DigitsValue(m))
  {
    var parts := [h, m];
    assert Join(parts, ':') == h + ":" + m by {
      assert parts[1..] == [m];
    }
    SplitJoin(parts, ':');
    HoursAndMinutesOfDigits(h, m);
  }

  /** Two digit strings as the parts read as hours and minutes. */
  lemma HoursAndMinutesOfDigits(h: string, m: string)
    requires AllDigits(h) && AllDigits(m)
    ensures HoursAndMinutes([h, m]) == Some(DigitsValue(h) * 60 + DigitsValue(m))
  {
    assert StringToNumber(h) == Some(DigitsValue(h));
    assert StringToNumber(m) == Some(DigitsValue(m));
  }

  /** How many of the lists contain `g`. */
  function CountContaining(lists: seq<seq<int>>, g: int): nat
  {
    if lists == [] then 0
    else CountContaining(lists[..|lists| - 1], g) + (if g in lists[|lists| - 1] then 1 else 0)
  }

  function In(list: seq<int>, g: int): nat { if g in list then 1 else 0 }

  lemma CountStep(lists: seq<seq<int>>, n: nat, g: int)
    requires n < |lists|
    ensures CountContaining(lists[..n + 1], g) == CountContaining(lists[..n], g) + In(lists[n], g)
  {
    assert lists[..n + 1][..n] == lists[..n];
  }

  lemma CountEight(lists: seq<seq<int>>, g: int)
    requires |lists| == 8
    ensures CountContaining(lists, g) == In(lists[0], g) + In(lists[1], g) + In(lists[2], g) + In(lists[3], g)
      + In(lists[4], g) + In(lists[5], g) + In(lists[6], g) + In(lists[7], g)
  {
    CountStep(lists, 0, g); CountStep(lists, 1, g); CountStep(lists, 2, g); CountStep(lists, 3, g);
    CountStep(lists, 4, g); CountStep(lists, 5, g); CountStep(lists, 6, g); CountStep(lists, 7, g);
    assert lists[..0] == [];
    assert lists[..8] == lists;
  }

  /** The count for eight two-element lists, one term per list. */
  function Hit(pair: seq<int>, g: int): nat
    requires |pair| == 2
  {
    if g == pair[0] || g == pair[1] then 1 else 0
  }

  lemma CountPairs(lists: seq<seq<int>>, g: int)
    requires |lists| == 8 && forall k :: 0 <= k < 8 ==> |lists[k]| == 2
    ensures CountContaining(lists, g) == Hit(lists[0], g) + Hit(lists[1], g) + Hit(lists[2], g) + Hit(lists[3], g)
      + Hit(lists[4], g) + Hit(lists[5], g) + Hit(lists[6], g) + Hit(lists[7], g)
  {
    CountEight(lists, g);
    assert forall k :: 0 <= k < 8 ==> lists[k] == [lists[k][0], lists[k][1]];
  }

  // Each timed slot's lists hold every group 1..16 exactly once and nothing else.
  lemma Slot0Partition(g: int)
    ensures CountContaining(Slot0Groups, g) == if 1 <= g <= GroupCount then 1 else 0
  {
    CountPairs(Slot0Groups, g);
  }

  lemma Slot1Partition(g: int)
    ensures CountContaining(Slot1Groups, g) == if 1 <= g <= GroupCount then 1 else 0
  {
    CountPairs(Slot1Groups, g);
  }

  lemma Slot2Partition(g: int)
    ensures CountContaining(Slot2Groups, g) == if 1 <= g <= GroupCount then 1 else 0
  {
    CountPairs(Slot2Groups, g);
  }

  lemma Slot3Partition(g: int)
    ensures CountContaining(Slot3Groups, g) == if 1 <= g <= GroupCount then 1 else 0
  {
    CountPairs(Slot3Groups, g);
  }

  lemma Slot4Partition(g: int)
    ensures CountContaining(Slot4Groups, g) == if 1 <= g <= GroupCount then 1 else 0
  {
    CountPairs(Slot4Groups, g);
  }

  lemma Slot5Partition(g: int)
    ensures CountContaining(Slot5Groups, g) == if 1 <= g <= GroupCount then 1 else 0
  {
    CountPairs(Slot5Groups, g);
  }

  lemma Slot6Partition(g: int)
    ensures CountContaining(Slot6Groups, g) == if 1 <= g <= GroupCount then 1 else 0
  {
    CountPairs(Slot6Groups, g);
  }

  /** In each of the seven timed slots every group 1..16 is assigned to exactly one
      activity, and a number outside 1..16 is assigned to none. */
  lemma TimedSlotsPartitionGroups(i: nat, g: int)
    requires i < |TimeSlots| && i != FreeForAllSlot
    ensures CountContaining(TimeSlots[i].groups, g) == if 1 <= g <= GroupCount then 1 else 0
  {
    if i == 0 {
      Slot0Partition(g);
    } else if i == 1 {
      Slot1Partition(g);
    } else if i == 2 {
      Slot2Partition(g);
    } else if i == 3 {
      Slot3Partition(g);
    } else if i == 4 {
      Slot4Partition(g);
    } else if i == 5 {
      Slot5Partition(g);
    } else {
      Slot6Partition(g);
    }
  }

  /** The free-for-all slot assigns no group to any activity. */
  lemma FreeForAllSlotIsEmpty(g: int)
    ensures FreeForAllSlot < |TimeSlots|
    ensures CountContaining(TimeSlots[FreeForAllSlot].groups, g) == 0
  {
    CountEight(TimeSlots[FreeForAllSlot].groups, g);
  }

  /** Each slot lists one group set per catalogue entry, and catalogue entry `k` is
      the activity numbered `k + 1`, with an id different from every other entry's
      and from the finale's. */
  lemma TablesWellFormed()
    ensures |Activities| == 8 && |TimeSlots| == 8
    ensures forall i :: 0 <= i < |TimeSlots| ==> |TimeSlots[i].groups| == |Activities|
    ensures forall k :: 0 <= k < |Activities| ==> Activities[k].order == k + 1
    ensures forall k, l :: 0 <= k < l < |Activities| ==> Activities[k].id != Activities[l].id
    ensures forall k :: 0 <= k < |Activities| ==> Activities[k].id != "free-for-all"
  {
  }

  /** Minutes since midnight of each written time: the start of slot `i`, or for
      `i == |TimeSlots|` the end of the last slot. */
  function Boundary(i: nat): nat
    requires i <= |TimeSlots|
  {
    [525, 545, 565, 585, 605, 625, 645, 665, 685][i]
  }

  /** Consecutive boundaries are 20 minutes apart. */
  lemma BoundaryNext(i: nat)
    requires i < |TimeSlots|
    ensures Boundary(i + 1) == Boundary(i) + 20
  {
  }

  /** The hour and minute digits of the written time `Boundary(i)`. */
  function HourText(i: nat): string
    requires i <= |TimeSlots|
  {
    ["8", "9", "9", "9", "10", "10", "10", "11", "11"][i]
  }

  function MinuteText(i: nat): string
    requires i <= |TimeSlots|
  {
    ["45", "05", "25", "45", "05", "25", "45", "05", "25"][i]
  }

  lemma StartText(i: nat)
    requires i < |TimeSlots|
    ensures TimeSlots[i].startTime == HourText(i) + ":" + MinuteText(i)
  {
  }

  lemma EndText(i: nat)
    requires i < |TimeSlots|
    ensures TimeSlots[i].endTime == HourText(i + 1) + ":" + MinuteText(i + 1)
  {
  }

  lemma HourValue(i: nat)
    requires i <= |TimeSlots|
    ensures AllDigits(HourText(i)) && DigitsValue(HourText(i)) == Boundary(i) / 60
  {
  }

  lemma MinuteValue(i: nat)
    requires i <= |TimeSlots|
    ensures AllDigits(MinuteText(i)) && DigitsValue(MinuteText(i)) == Boundary(i) % 60
  {
  }

  /** `timeToMinutes` reads the written time `Boundary(i)` as that many minutes. */
  lemma BoundaryReads(i: nat)
    requires i <= |TimeSlots|
    ensures TimeToMinutes(HourText(i) + ":" + MinuteText(i)) == Some(Boundary(i))
  {
    HourValue(i);
    MinuteValue(i);
    TimeToMinutesOfDigits(HourText(i), MinuteText(i));
  }

  /** Slot `i` starts at `Boundary(i)` ... */
  lemma SlotStart(i: nat)
    requires i < |TimeSlots|
    ensures TimeToMinutes(TimeSlots[i].startTime) == Some(Boundary(i))
  {
    StartText(i);
    BoundaryReads(i);
  }

  /** ... and ends at `Boundary(i + 1)`. */
  lemma SlotEnd(i: nat)
    requires i < |TimeSlots|
    ensures TimeToMinutes(TimeSlots[i].endTime) == Some(Boundary(i + 1))
  {
    EndText(i);
    BoundaryReads(i + 1);
  }

  /** Slot `i` runs from `Boundary(i)` to `Boundary(i + 1)`, and those are 20 minutes apart. */
  lemma SlotBoundaries(i: nat)
    requires i < |TimeSlots|
    ensures TimeToMinutes(TimeSlots[i].startTime) == Some(Boundary(i))
    ensures TimeToMinutes(TimeSlots[i].endTime) == Some(Boundary(i + 1))
    ensures Boundary(i + 1) == Boundary(i) + 20
  {
    SlotStart(i);
    SlotEnd(i);
    BoundaryNext(i);
  }

  /** Every slot starts before it ends and ends where the next one begins, so the eight
      slots tile 8:45 - 11:25 without overlap. */
  lemma SlotsContiguous()
    ensures forall i :: 0 <= i < |TimeSlots| ==>
      TimeToMinutes(TimeSlots[i].startTime) == Some(Boundary(i)) &&
      TimeToMinutes(TimeSlots[i].endTime) == Some(Boundary(i + 1)) &&
      Boundary(i) < Boundary(i + 1)
    ensures forall i :: 0 <= i < |TimeSlots| - 1 ==> TimeSlots[i].endTime == TimeSlots[i + 1].startTime
  {
    forall i | 0 <= i < |TimeSlots|
      ensures TimeToMinutes(TimeSlots[i].startTime) == Some(Boundary(i))
      ensures TimeToMinutes(TimeSlots[i].endTime) == Some(Boundary(i + 1))
      ensures Boundary(i) < Boundary(i + 1)
    {
      SlotBoundaries(i);
    }
    forall i | 0 <= i < |TimeSlots| - 1
      ensures TimeSlots[i].endTime == TimeSlots[i + 1].startTime
    {
      EndText(i);
      StartText(i + 1);
    }
  }
}
