/**
 * The per-course attendance grid: which entries of the summary response are shown as
 * courses, how each is cached in local storage, where a click leads, and the colour
 * given to an attendance percentage.
 */
module AttendanceSummary {
  import opened Wrappers
  import Text
  import Lists

  /**
   * One entry of the attendance-summary response. The aggregate entry carries the course
   * code "Total". `percent` is the server's `Percent` text read as a number.
   */
  datatype Course = Course(
    id: int,
    code: string,
    cfId: int,
    present: int,
    absent: int,
    total: int,
    percent: real)

  const TotalCode: string := "Total"

  predicate IsCourse(c: Course)
  {
    c.code != TotalCode && c.total > 0
  }

  /** The entries shown as courses: not the aggregate, and with at least one lecture held. */
  function KeptCourses(items: seq<Course>): (r: seq<Course>)
    ensures forall i :: 0 <= i < |r| ==> r[i].code != "Total" && r[i].total > 0
    ensures forall c :: multiset(r)[c] == if c.code != "Total" && c.total > 0 then multiset(items)[c] else 0
    ensures Lists.SubsequenceOf(r, items)
  {
    Lists.Filter(items, IsCourse)
  }

  lemma KeptCoursesMembership(items: seq<Course>, c: Course)
    ensures c in KeptCourses(items) <==> c in items && c.code != "Total" && c.total > 0
  {
    Lists.FilterMembership(items, IsCourse, c);
  }

  // ---------------------------------------------------------------------------
  // Local-storage cache: `localStorage.setItem(`course_${cf_id}`, ...)`
  // ---------------------------------------------------------------------------

  /** The local-storage key of a course: `course_` and its `cf_id`. */
  function CacheKey(cfId: int): string
  {
    "course_" + Text.IntToString(cfId)
  }

  /** The `cf_id` reads back from the key, after the `course_` prefix. */
  lemma CacheKeyReadsBack(cfId: int)
    ensures "course_" <= CacheKey(cfId) && Text.ParseInt(CacheKey(cfId)[7..]) == Some(cfId)
  {
    assert CacheKey(cfId)[7..] == Text.IntToString(cfId);
    Text.ParseIntRoundTrip(cfId);
  }

  /** Different courses (by `cf_id`) never share a cache entry. */
  lemma CacheKeyInjective(a: int, b: int)
    requires CacheKey(a) == CacheKey(b)
    ensures a == b
  {
    CacheKeyReadsBack(a);
    CacheKeyReadsBack(b);
  }

  /** Writes every course under its key, in list order; the store is an abstract key-value map. */
  function CacheCourses(store: map<string, Course>, courses: seq<Course>): (r: map<string, Course>)
    ensures r.Keys == store.Keys + set c | c in courses :: CacheKey(c.cfId)
    ensures forall k :: k in store && (forall c :: c in courses ==> CacheKey(c.cfId) != k) ==> r[k] == store[k]
    decreases |courses|
  {
    if |courses| == 0 then store
    else
      assert forall c :: c in courses <==> c == courses[0] || c in courses[1..];
      CacheCourses(store[CacheKey(courses[0].cfId) := courses[0]], courses[1..])
  }

  /** A course that no later course shares its `cf_id` with is what its cache entry holds. */
  lemma {:induction false} CacheHoldsLastWrite(store: map<string, Course>, courses: seq<Course>, i: int)
    requires 0 <= i < |courses|
    requires forall j :: i < j < |courses| ==> courses[j].cfId != courses[i].cfId
    ensures CacheKey(courses[i].cfId) in CacheCourses(store, courses)
    ensures CacheCourses(store, courses)[CacheKey(courses[i].cfId)] == courses[i]
    decreases |courses|
  {
    var c0 := courses[0];
    var next := store[CacheKey(c0.cfId) := c0];
    if i == 0 {
      var k := CacheKey(c0.cfId);
      forall c | c in courses[1..]
        ensures CacheKey(c.cfId) != k
      {
        var j :| 0 <= j < |courses[1..]| && courses[1..][j] == c;
        assert courses[j + 1] == c;
        if CacheKey(c.cfId) == k {
          CacheKeyInjective(c.cfId, c0.cfId);
        }
      }
    } else {
      forall j | i - 1 < j < |courses[1..]|
        ensures courses[1..][j].cfId != courses[1..][i - 1].cfId
      {
        assert courses[1..][j] == courses[j + 1];
      }
      CacheHoldsLastWrite(next, courses[1..], i - 1);
    }
  }

  /** The details page's URL, up to the `course_id` parameter's value. */
  const LinkPrefix: string := "/attendance?course_id="

  /** Navigation target of a click on a course card: its parameter reads back as the course's `cf_id`. */
  function ClickTarget(c: Course): (url: string)
    ensures LinkPrefix <= url
    ensures Text.ParseInt(url[|LinkPrefix|..]) == Some(c.cfId)
  {
    var url := LinkPrefix + Text.IntToString(c.cfId);
    assert url[|LinkPrefix|..] == Text.IntToString(c.cfId);
    Text.ParseIntRoundTrip(c.cfId);
    url
  }

  // ---------------------------------------------------------------------------
  // Colour of a percentage (the same thresholds are used by every attendance view)
  // ---------------------------------------------------------------------------

  datatype Color = Green | Yellow | Red

  function ColorFor(percent: real): (c: Color)
    ensures c == Green <==> percent >= 85.0
    ensures c == Yellow <==> 75.0 <= percent < 85.0
    ensures c == Red <==> percent < 75.0
  {
    if percent >= 85.0 then Green
    else if percent >= 75.0 then Yellow
    else Red
  }

  function Rank(c: Color): nat
  {
    match c
    case Red => 0
    case Yellow => 1
    case Green => 2
  }

  /** A higher percentage never gets a worse colour. */
  lemma ColorMonotonic(a: real, b: real)
    requires a <= b
    ensures Rank(ColorFor(a)) <= Rank(ColorFor(b))
  {
  }

  // ---------------------------------------------------------------------------
  // The grid's fetch
  // ---------------------------------------------------------------------------

  datatype Grid = Grid(courses: seq<Course>, cache: map<string, Course>, error: string)

  datatype FetchResult = Fetched(items: seq<Course>) | FetchFailed

  /** A successful fetch shows and caches the kept courses; a failure sets the error. */
  function ApplyFetch(g: Grid, result: FetchResult): (r: Grid)
    ensures result.Fetched? ==>
      r.courses == KeptCourses(result.items) && r.cache == CacheCourses(g.cache, r.courses) && r.error == g.error
    ensures result.FetchFailed? ==> r == g.(error := "Failed to load attendance data")
  {
    match result
    case Fetched(items) =>
      var courses := KeptCourses(items);
      g.(courses := courses, cache := CacheCourses(g.cache, courses))
    case FetchFailed => g.(error := "Failed to load attendance data")
  }

  /** After a fetch, every course shown can be read back from the cache under its own key. */
  lemma FetchCachesEveryCourse(g: Grid, items: seq<Course>, i: int)
    requires 0 <= i < |KeptCourses(items)|
    requires forall j :: i < j < |KeptCourses(items)| ==> KeptCourses(items)[j].cfId != KeptCourses(items)[i].cfId
    ensures var r := ApplyFetch(g, Fetched(items));
      CacheKey(r.courses[i].cfId) in r.cache && r.cache[CacheKey(r.courses[i].cfId)] == r.courses[i]
  {
    CacheHoldsLastWrite(g.cache, KeptCourses(items), i);
  }
}
