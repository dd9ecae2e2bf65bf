/**
 * The timetable: the rows (every distinct lecture start time of the week, sorted), the
 * lecture of the selected day in each row, and each lecture's status relative to now.
 * Days are whole-day indices and instants are seconds, both in local time. Reading a
 * slot's clock time is a parameter: seconds after midnight, or None when it does not parse.
 */
module TimeTable {
  import opened Wrappers
  import Text
  import Lists
  import Sorting

  /** One `[start, end]` pair of a lecture's `time` list. */
  datatype Slot = Slot(start: string, end: string)

  datatype Lecture = Lecture(course: string, slots: seq<Slot>)

  /** One entry of the timetable object: its key, its `yyyy-MM-dd` date, and its classes. */
  datatype Day = Day(key: string, date: string, classes: seq<Lecture>)

  datatype Status = Ongoing | Upcoming | Completed

  type TimeParser = string -> Option<int>

  const DaySeconds: int := 86400

  function DayStart(day: int): int
  {
    day * DaySeconds
  }

  /** `endOfDay`: the last second of the day. */
  function DayEnd(day: int): int
  {
    day * DaySeconds + DaySeconds - 1
  }

  /** The day `now` falls in. */
  function Today(now: int): (d: int)
    ensures DayStart(d) <= now <= DayEnd(d)
  {
    now / DaySeconds
  }

  /** The two day-level tests compare the selected day with today. */
  lemma DayTests(day: int, now: int)
    ensures DayEnd(day) < DayStart(Today(now)) <==> day < Today(now)
    ensures DayStart(day) > now <==> day > Today(now)
  {
    var t := Today(now);
    if day < t {
      assert DayEnd(day) < DayStart(day + 1) <= DayStart(t);
    }
    if day >= t {
      assert DayEnd(day) >= DayEnd(t) > DayStart(t);
    }
    if day > t {
      assert DayStart(day) >= DayStart(t + 1) > now;
    }
    if day <= t {
      assert DayStart(day) <= DayStart(t) <= now;
    }
  }

  /** A slot's start and end instants on the selected day (None for an invalid date). */
  datatype Instants = Instants(startAt: Option<int>, endAt: Option<int>)

  function InstantsOf(slot: Slot, day: int, parse: TimeParser): Instants
  {
    var s := parse(slot.start);
    var e := parse(slot.end);
    Instants(if s.Some? then Some(DayStart(day) + s.value) else None,
             if e.Some? then Some(DayStart(day) + e.value) else None)
  }

  /**
   * What one slot says about now, if anything: within the interval (its end points taken in
   * either order), before the start, or after the end. An unreadable end point makes the
   * comparisons that involve it false.
   */
  function SlotVerdict(t: Instants, now: int): (v: Option<Status>)
    ensures t.startAt.Some? && t.endAt.Some? ==> v.Some?
    ensures t.startAt.None? && t.endAt.None? ==> v.None?
    ensures t.startAt.Some? && t.endAt.Some? && t.startAt.value <= t.endAt.value ==>
      && (v == Some(Ongoing) <==> t.startAt.value <= now <= t.endAt.value)
      && (v == Some(Upcoming) <==> now < t.startAt.value)
      && (v == Some(Completed) <==> now > t.endAt.value)
  {
    if t.startAt.Some? && t.endAt.Some?
       && Min(t.startAt.value, t.endAt.value) <= now <= Max(t.startAt.value, t.endAt.value) then Some(Ongoing)
    else if t.startAt.Some? && now < t.startAt.value then Some(Upcoming)
    else if t.endAt.Some? && now > t.endAt.value then Some(Completed)
    else None
  }

  function Min(a: int, b: int): int
  {
    if a <= b then a else b
  }

  function Max(a: int, b: int): int
  {
    if a <= b then b else a
  }

  function Verdict(slot: Slot, day: int, now: int, parse: TimeParser): Option<Status>
  {
    SlotVerdict(InstantsOf(slot, day, parse), now)
  }

  /** Slot `i` is the first slot that says something. */
  ghost predicate FirstDeciding(slots: seq<Slot>, i: int, day: int, now: int, parse: TimeParser)
  {
    && 0 <= i < |slots| && Verdict(slots[i], day, now, parse).Some?
    && forall j :: 0 <= j < i ==> Verdict(slots[j], day, now, parse).None?
  }

  /** The loop over the slots: the first slot that says something decides; none does: upcoming. */
  function SlotsStatus(slots: seq<Slot>, day: int, now: int, parse: TimeParser): (r: Status)
    ensures (forall i :: 0 <= i < |slots| ==> Verdict(slots[i], day, now, parse).None?) ==> r == Upcoming
    ensures forall i :: FirstDeciding(slots, i, day, now, parse) ==> r == Verdict(slots[i], day, now, parse).value
    decreases |slots|
  {
    if |slots| == 0 then Upcoming
    else
      var v := Verdict(slots[0], day, now, parse);
      if v.Some? then v.value
      else
        SkipSilentSlot(slots, day, now, parse);
        SlotsStatus(slots[1..], day, now, parse)
  }

  /** Past a first slot that says nothing, the remaining slots decide as the whole list does. */
  lemma SkipSilentSlot(slots: seq<Slot>, day: int, now: int, parse: TimeParser)
    requires |slots| > 0 && Verdict(slots[0], day, now, parse).None?
    ensures (forall i :: 0 <= i < |slots| ==> Verdict(slots[i], day, now, parse).None?) ==>
      forall i :: 0 <= i < |slots[1..]| ==> Verdict(slots[1..][i], day, now, parse).None?
    ensures forall i :: FirstDeciding(slots, i, day, now, parse) ==>
      FirstDeciding(slots[1..], i - 1, day, now, parse) && slots[1..][i - 1] == slots[i]
  {
    forall i | FirstDeciding(slots, i, day, now, parse)
      ensures FirstDeciding(slots[1..], i - 1, day, now, parse) && slots[1..][i - 1] == slots[i]
    {
      assert i >= 1;
      forall j | 0 <= j < i - 1
        ensures Verdict(slots[1..][j], day, now, parse).None?
      {
        assert slots[1..][j] == slots[j + 1];
      }
    }
  }

  /** `getLectureStatus`: a past day is completed, a future day upcoming, today the slots decide. */
  function LectureStatus(slots: seq<Slot>, day: int, now: int, parse: TimeParser): (r: Status)
    ensures day < Today(now) ==> r == Completed
    ensures day > Today(now) ==> r == Upcoming
    ensures day == Today(now) ==> r == SlotsStatus(slots, day, now, parse)
  {
    DayTests(day, now);
    if DayEnd(day) < DayStart(Today(now)) then Completed
    else if DayStart(day) > now then Upcoming
    else SlotsStatus(slots, day, now, parse)
  }

  /** Today, a first slot with both times readable decides alone. */
  lemma FirstReadableSlotDecides(slots: seq<Slot>, day: int, now: int, parse: TimeParser)
    requires day == Today(now) && |slots| > 0
    requires parse(slots[0].start).Some? && parse(slots[0].end).Some?
    requires parse(slots[0].start).value <= parse(slots[0].end).value
    ensures var s := DayStart(day) + parse(slots[0].start).value;
      var e := DayStart(day) + parse(slots[0].end).value;
      var r := LectureStatus(slots, day, now, parse);
      && (r == Ongoing <==> s <= now <= e)
      && (r == Upcoming <==> now < s)
      && (r == Completed <==> now > e)
  {
    assert Verdict(slots[0], day, now, parse).Some?;
  }

  // ---------------------------------------------------------------------------
  // Rows
  // ---------------------------------------------------------------------------

  function SlotStarts(slots: seq<Slot>): (r: seq<string>)
    ensures forall t :: t in r <==> exists s :: s in slots && s.start == t
    decreases |slots|
  {
    if |slots| == 0 then []
    else
      assert forall s :: s in slots <==> s == slots[0] || s in slots[1..];
      [slots[0].start] + SlotStarts(slots[1..])
  }

  function LectureStarts(lectures: seq<Lecture>): (r: seq<string>)
    ensures forall t :: t in r <==> exists l :: l in lectures && t in SlotStarts(l.slots)
    decreases |lectures|
  {
    if |lectures| == 0 then []
    else
      assert forall l :: l in lectures <==> l == lectures[0] || l in lectures[1..];
      SlotStarts(lectures[0].slots) + LectureStarts(lectures[1..])
  }

  /** Every slot start of every lecture of every day, with repetitions. */
  function TableStarts(days: seq<Day>): (r: seq<string>)
    ensures forall t :: t in r <==> exists d :: d in days && t in LectureStarts(d.classes)
    decreases |days|
  {
    if |days| == 0 then []
    else
      assert forall d :: d in days <==> d == days[0] || d in days[1..];
      LectureStarts(days[0].classes) + TableStarts(days[1..])
  }

  predicate NoDuplicates(s: seq<string>)
  {
    forall i, j :: 0 <= i < j < |s| ==> s[i] != s[j]
  }

  /** The elements of `s` in order of first appearance, each once (a `Set` filled in order). */
  function Dedup(s: seq<string>): (r: seq<string>)
    ensures forall x :: x in r <==> x in s
    ensures NoDuplicates(r)
    decreases |s|
  {
    if |s| == 0 then []
    else
      var init := s[..|s| - 1];
      var last := s[|s| - 1];
      assert forall x :: x in s <==> x in init || x == last;
      var r := Dedup(init);
      if last in r then r else r + [last]
  }

  function CompareText(a: string, b: string): int
  {
    Text.Compare(a, b)
  }

  lemma CompareTextIsPreorder()
    ensures Sorting.TotalPreorder(CompareText)
  {
    forall a, b
      ensures CompareText(a, b) == -CompareText(b, a)
    {
      Text.CompareAntisymmetric(a, b);
    }
    forall a, b, c | CompareText(a, b) <= 0 && CompareText(b, c) <= 0
      ensures CompareText(a, c) <= 0
    {
      Text.CompareTransitive(a, b, c);
    }
  }

  lemma {:induction false} NoDuplicatesCount(s: seq<string>, x: string)
    requires NoDuplicates(s)
    ensures multiset(s)[x] <= 1
    decreases |s|
  {
    if |s| > 0 {
      assert s == [s[0]] + s[1..];
      assert NoDuplicates(s[1..]) by {
        forall i, j | 0 <= i < j < |s[1..]| ensures s[1..][i] != s[1..][j] {
          assert s[1..][i] == s[i + 1] && s[1..][j] == s[j + 1];
        }
      }
      NoDuplicatesCount(s[1..], x);
      if s[0] == x {
        assert x !in s[1..] by {
          forall k | 0 <= k < |s[1..]| ensures s[1..][k] != x {
            assert s[1..][k] == s[k + 1];
          }
        }
      }
    }
  }

  lemma RepeatCount(r: seq<string>, i: int, j: int)
    requires 0 <= i < j < |r| && r[i] == r[j]
    ensures multiset(r)[r[i]] >= 2
  {
    var x := r[i];
    assert r == r[..j] + [r[j]] + r[j + 1..];
    assert r[..j][i] == x;
    assert x in multiset(r[..j]);
  }

  lemma MultisetKeepsNoDuplicates(r: seq<string>, s: seq<string>)
    requires multiset(r) == multiset(s) && NoDuplicates(s)
    ensures NoDuplicates(r)
  {
    forall i, j | 0 <= i < j < |r|
      ensures r[i] != r[j]
    {
      if r[i] == r[j] {
        RepeatCount(r, i, j);
        NoDuplicatesCount(s, r[i]);
      }
    }
  }

  /** `getAllTimeSlots`: the rows, sorted strictly increasing, holding exactly the table's start times. */
  function AllSlots(days: seq<Day>): (r: seq<string>)
    ensures forall i, j :: 0 <= i < j < |r| ==> Text.Compare(r[i], r[j]) < 0
    ensures forall t :: t in r <==> t in TableStarts(days)
  {
    var distinct := Dedup(TableStarts(days));
    var r := Sorting.Sort(distinct, CompareText);
    CompareTextIsPreorder();
    Sorting.SortSorted(distinct, CompareText);
    MultisetKeepsNoDuplicates(r, distinct);
    assert forall t :: t in r <==> t in multiset(r);
    assert forall t :: t in distinct <==> t in multiset(distinct);
    r
  }

  /** The `find` callback of the day lookup: the entry carries the selected date. */
  function DateIs(date: string): Day -> bool
  {
    (d: Day) => d.date == date
  }

  /** The fallback lookup `timeTable['']`: the entry whose key is empty. */
  predicate HasEmptyKey(d: Day)
  {
    d.key == ""
  }

  /**
   * The day shown: the first entry (in key order) with the selected date; when no entry has
   * that date, the entry under key "", and none when there is no such entry either.
   */
  function SelectedDay(days: seq<Day>, date: string): (r: Option<Day>)
    ensures (exists i :: 0 <= i < |days| && days[i].date == date) ==>
      r.Some? && exists i :: Lists.IsFirst(days, DateIs(date), i) && r.value == days[i]
    ensures (forall i :: 0 <= i < |days| ==> days[i].date != date) ==>
      && (r.None? <==> forall i :: 0 <= i < |days| ==> days[i].key != "")
      && (r.Some? ==> exists i :: Lists.IsFirst(days, HasEmptyKey, i) && r.value == days[i])
    ensures r.Some? ==> r.value in days
  {
    match Lists.Find(days, DateIs(date))
    case Some(d) => Some(d)
    case None => Lists.Find(days, HasEmptyKey)
  }

  predicate HasStart(l: Lecture, start: string)
  {
    exists i :: 0 <= i < |l.slots| && l.slots[i].start == start
  }

  /** The `find` callback of `getLectureForTimeSlot`: some slot of the lecture starts at `start`. */
  function StartsAt(start: string): Lecture -> bool
  {
    (l: Lecture) => HasStart(l, start)
  }

  /** `getLectureForTimeSlot`: the first class of the day with a slot starting at that time. */
  function LectureAt(day: Option<Day>, start: string): (r: Option<Lecture>)
    ensures day.None? ==> r.None?
    ensures r.Some? ==> HasStart(r.value, start)
    ensures r.Some? ==> exists i :: Lists.IsFirst(day.value.classes, StartsAt(start), i) && r.value == day.value.classes[i]
    ensures day.Some? && r.None? ==> forall l :: l in day.value.classes ==> !HasStart(l, start)
  {
    match day
    case None => None
    case Some(d) => Lists.Find(d.classes, StartsAt(start))
  }

  /** A row: its lecture, and a status exactly when there is a lecture. */
  function Row(day: Option<Day>, start: string, selected: int, now: int, parse: TimeParser): (r: (Option<Lecture>, Option<Status>))
    ensures r.0 == LectureAt(day, start)
    ensures r.1.None? <==> r.0.None?
    ensures r.0.Some? ==> r.1 == Some(LectureStatus(r.0.value.slots, selected, now, parse))
  {
    var lecture := LectureAt(day, start);
    (lecture, if lecture.Some? then Some(LectureStatus(lecture.value.slots, selected, now, parse)) else None)
  }
}
