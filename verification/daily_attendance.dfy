/**
 * The day's attendance records: sorted by start time, counted as present and absent, and
 * labelled by session type. `startAt` is the record's start instant in seconds.
 */
module DailyAttendance {
  import Lists
  import Sorting

  datatype Record = Record(id: int, sessionType: string, status: string, startAt: int)

  datatype Page = Page(records: seq<Record>, error: string)

  /** `a.start - b.start`: earlier first. */
  function ByStart(a: Record, b: Record): (c: int)
    ensures c < 0 <==> a.startAt < b.startAt
    ensures c == 0 <==> a.startAt == b.startAt
  {
    a.startAt - b.startAt
  }

  lemma ByStartIsPreorder()
    ensures Sorting.TotalPreorder(ByStart)
  {
  }

  /** The fetched records in order of start time: a permutation of what arrived. */
  function SortByStart(items: seq<Record>): (r: seq<Record>)
    ensures multiset(r) == multiset(items)
    ensures forall i, j :: 0 <= i < j < |r| ==> r[i].startAt <= r[j].startAt
  {
    ByStartIsPreorder();
    Sorting.SortSorted(items, ByStart);
    var r := Sorting.Sort(items, ByStart);
    assert forall i, j :: 0 <= i < j < |r| ==> ByStart(r[i], r[j]) <= 0;
    r
  }

  datatype FetchResult = Fetched(items: seq<Record>) | FetchFailed

  /** A successful fetch shows the sorted records and clears the error; a failure sets it. */
  function ApplyFetch(p: Page, result: FetchResult): (r: Page)
    ensures result.Fetched? ==> r.error == "" && multiset(r.records) == multiset(result.items)
    ensures result.Fetched? ==> forall i, j :: 0 <= i < j < |r.records| ==> r.records[i].startAt <= r.records[j].startAt
    ensures result.FetchFailed? ==> r.error == "Failed to load attendance data" && r.records == p.records
  {
    match result
    case Fetched(items) => Page(SortByStart(items), "")
    case FetchFailed => p.(error := "Failed to load attendance data")
  }

  predicate IsPresent(r: Record)
  {
    r.status == "Present"
  }

  predicate IsAbsent(r: Record)
  {
    r.status == "Absent"
  }

  function PresentCount(records: seq<Record>): (n: nat)
    ensures n <= |records|
    ensures n == 0 <==> forall i :: 0 <= i < |records| ==> records[i].status != "Present"
  {
    Lists.Count(records, IsPresent)
  }

  function AbsentCount(records: seq<Record>): (n: nat)
    ensures n <= |records|
    ensures n == 0 <==> forall i :: 0 <= i < |records| ==> records[i].status != "Absent"
  {
    Lists.Count(records, IsAbsent)
  }

  /**
   * The two counts never exceed the number of records together, and reach it exactly when
   * every record is present or absent; sorting does not change them.
   */
  lemma CountsPartition(items: seq<Record>)
    ensures var r := SortByStart(items);
      && PresentCount(r) + AbsentCount(r) <= |r|
      && (PresentCount(r) + AbsentCount(r) == |r| <==> forall i :: 0 <= i < |r| ==> r[i].status in {"Present", "Absent"})
      && PresentCount(r) == PresentCount(items) && AbsentCount(r) == AbsentCount(items)
  {
    var r := SortByStart(items);
    Lists.CountDisjoint(r, IsPresent, IsAbsent);
    Lists.CountPermutation(r, items, IsPresent);
    Lists.CountPermutation(r, items, IsAbsent);
  }

  /** The session type's label. */
  function TypeLabel(sessionType: string): (text: string)
    ensures text == "Lecture" <==> sessionType == "L"
    ensures text == "Practical" <==> sessionType != "L"
  {
    if sessionType == "L" then "Lecture" else "Practical"
  }
}
