/**
 * The attendance-details page: the course list and overall summary from one fetch, the
 * course selected through the `course_id` query parameter or a click, and the back button.
 */
module AttendanceDetails {
  import opened Wrappers
  import Text
  import Lists
  import AttendanceSummary

  type Course = AttendanceSummary.Course

  /** One attendance mark of the selected course. */
  datatype AttendanceRecord = AttendanceRecord(id: int, state: string, date: string, kind: string)

  datatype Page = Page(
    courses: seq<Course>,
    total: Option<Course>,
    selected: Option<Course>,
    records: seq<AttendanceRecord>,
    cache: map<string, Course>,
    error: string)

  datatype FetchResult = Fetched(items: seq<Course>) | FetchFailed

  /** The request for one course's attendance records, keyed by the course's `id`. */
  datatype RecordsRequest = NoRecordsRequest | RecordsFor(courseId: int)

  predicate IsTotal(c: Course)
  {
    c.code == AttendanceSummary.TotalCode
  }

  /** The overall summary: the first entry whose code is "Total", among all entries. */
  function TotalOf(items: seq<Course>): (r: Option<Course>)
    ensures r.None? <==> forall i :: 0 <= i < |items| ==> items[i].code != "Total"
    ensures r.Some? ==> r.value.code == "Total" && exists i :: Lists.IsFirst(items, IsTotal, i) && items[i] == r.value
  {
    Lists.Find(items, IsTotal)
  }

  /** The `find` callback of the selection: the course has that `cf_id`. */
  function CfIdIs(n: int): Course -> bool
  {
    (c: Course) => c.cfId == n
  }

  /**
   * The course the `course_id` parameter names: none for an empty parameter or one that
   * `parseInt` reads as `NaN`, otherwise the first course with the parsed `cf_id`.
   */
  function SelectionFor(courses: seq<Course>, courseId: string): (r: Option<Course>)
    ensures courseId == "" ==> r.None?
    ensures r.Some? ==> r.value in courses && Text.ParseInt(courseId) == Some(r.value.cfId)
    ensures r.Some? ==> exists i :: Lists.IsFirst(courses, CfIdIs(r.value.cfId), i) && r.value == courses[i]
    ensures (courseId != "" && Text.ParseInt(courseId).Some?
      && exists i :: 0 <= i < |courses| && courses[i].cfId == Text.ParseInt(courseId).value) ==> r.Some?
  {
    if courseId == "" then None
    else
      match Text.ParseInt(courseId)
      case None => None
      case Some(n) => Lists.Find(courses, CfIdIs(n))
  }

  /** Fetching the records needs a signed-in user id and a course with a non-zero `id`. */
  function RecordsRequestFor(userId: int, c: Course): (q: RecordsRequest)
    ensures q.RecordsFor? <==> userId != 0 && c.id != 0
    ensures q.RecordsFor? ==> q.courseId == c.id
  {
    if userId == 0 || c.id == 0 then NoRecordsRequest else RecordsFor(c.id)
  }

  /** The records reply: a list replaces the shown records; a failure leaves them as they were. */
  function ApplyRecords(p: Page, reply: Option<seq<AttendanceRecord>>): (r: Page)
    ensures reply.Some? ==> r == p.(records := reply.value)
    ensures reply.None? ==> r == p
  {
    if reply.Some? then p.(records := reply.value) else p
  }

  /**
   * A fetch. On success: the kept courses, cached; the overall summary; the parameter's course
   * selected (an earlier selection stays when it names none); the error cleared.
   */
  function ApplyFetch(p: Page, userId: int, result: FetchResult, courseId: string): (r: (Page, RecordsRequest))
    ensures result.Fetched? ==>
      && r.0.courses == AttendanceSummary.KeptCourses(result.items)
      && r.0.cache == AttendanceSummary.CacheCourses(p.cache, r.0.courses)
      && r.0.total == TotalOf(result.items)
      && r.0.error == "" && r.0.records == p.records
      && var chosen := SelectionFor(r.0.courses, courseId);
        && (chosen.Some? ==> r.0.selected == chosen && r.1 == RecordsRequestFor(userId, chosen.value))
        && (chosen.None? ==> r.0.selected == p.selected && r.1 == NoRecordsRequest)
    ensures result.FetchFailed? ==> r == (p.(error := "Failed to load attendance data"), NoRecordsRequest)
  {
    match result
    case FetchFailed => (p.(error := "Failed to load attendance data"), NoRecordsRequest)
    case Fetched(items) =>
      var courses := AttendanceSummary.KeptCourses(items);
      var next := p.(courses := courses, cache := AttendanceSummary.CacheCourses(p.cache, courses),
                     total := TotalOf(items), error := "");
      match SelectionFor(courses, courseId)
      case Some(c) => (next.(selected := Some(c)), RecordsRequestFor(userId, c))
      case None => (next, NoRecordsRequest)
  }

  /**
   * A course card's link leads back to that course: after a fetch, the parameter the link
   * carries selects the first kept course with its `cf_id`, so the course itself when
   * `cf_id`s are distinct.
   */
  lemma ClickTargetSelects(items: seq<Course>, c: Course)
    requires c in AttendanceSummary.KeptCourses(items)
    ensures var courses := AttendanceSummary.KeptCourses(items);
      var sel := SelectionFor(courses, AttendanceSummary.ClickTarget(c)[|AttendanceSummary.LinkPrefix|..]);
      && sel.Some? && sel.value.cfId == c.cfId
      && ((forall d :: d in courses && d.cfId == c.cfId ==> d == c) ==> sel == Some(c))
  {
    var courses := AttendanceSummary.KeptCourses(items);
    var k :| 0 <= k < |courses| && courses[k] == c;
  }

  /** A click on a course: ignored for an `id` of 0, else selects it, fetches, and navigates. */
  function ClickCourse(p: Page, userId: int, c: Course): (r: (Page, RecordsRequest, Option<string>))
    ensures c.id == 0 ==> r == (p, NoRecordsRequest, None)
    ensures c.id != 0 ==>
      && r.0 == p.(selected := Some(c))
      && r.1 == (if userId != 0 then RecordsFor(c.id) else NoRecordsRequest)
      && r.2 == Some(AttendanceSummary.ClickTarget(c))
  {
    if c.id == 0 then (p, NoRecordsRequest, None)
    else (p.(selected := Some(c)), RecordsRequestFor(userId, c), Some(AttendanceSummary.ClickTarget(c)))
  }

  /** The back button: leave a selected course (and its records) for the list, else go to the dashboard. */
  function Back(p: Page): (r: (Page, string))
    ensures p.selected.Some? ==> r.0.selected.None? && r.0.records == [] && r.1 == "/attendance" && r.0.error == p.error
    ensures p.selected.None? ==> r == (p, "/dashboard")
    ensures r.0.courses == p.courses && r.0.total == p.total && r.0.cache == p.cache
  {
    if p.selected.Some? then (p.(selected := None, records := []), "/attendance") else (p, "/dashboard")
  }

  /** Back after a click returns to the list with nothing selected and no records. */
  lemma BackUndoesClick(p: Page, userId: int, c: Course)
    requires c.id != 0 && p.selected.None? && p.records == []
    ensures Back(ClickCourse(p, userId, c).0) == (p, "/attendance")
  {
  }

  /** The overall card derives "absent" from the totals; a course card shows its own field. */
  function OverallAbsent(total: Course): (a: int)
    ensures a + total.present == total.total
  {
    total.total - total.present
  }

  function CourseAbsent(c: Course): int
  {
    c.absent
  }

  /** The two agree exactly when the server's counts add up. */
  lemma AbsentAgreement(c: Course)
    ensures OverallAbsent(c) == CourseAbsent(c) <==> c.present + c.absent == c.total
  {
  }

  /** The page colours percentages with the shared thresholds. */
  function PercentColor(percent: real): (c: AttendanceSummary.Color)
    ensures c == AttendanceSummary.Green <==> percent >= 85.0
    ensures c == AttendanceSummary.Yellow <==> 75.0 <= percent < 85.0
    ensures c == AttendanceSummary.Red <==> percent < 75.0
  {
    AttendanceSummary.ColorFor(percent)
  }
}
