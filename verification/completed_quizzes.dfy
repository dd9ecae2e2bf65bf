/**
 * The completed-quizzes list: a case-insensitive search over course and quiz codes, a sort
 * on one of three keys in either order, and the key/order toggle of the sort menu.
 */
module CompletedQuizzes {
  import Text
  import Lists
  import Sorting

  /**
   * One evaluated quiz; `loggedInAt` is the login instant in seconds, and `marks` is
   * `marks_obtained`, a JavaScript number that may be fractional.
   */
  datatype CompletedQuiz = CompletedQuiz(quizCode: string, courseCode: string, marks: real, loggedInAt: int)

  datatype SortKey = ByDate | ByMarks | ByCourse

  datatype SortOrder = Asc | Desc

  datatype Page = Page(quizzes: seq<CompletedQuiz>, searchTerm: string, sortKey: SortKey, order: SortOrder, error: string)

  const DefaultKey: SortKey := ByDate
  const DefaultOrder: SortOrder := Desc

  function Initial(): Page
  {
    Page([], "", DefaultKey, DefaultOrder, "")
  }

  /** The course code or the quiz code contains the term, ignoring ASCII case. */
  predicate Matches(term: string, q: CompletedQuiz)
  {
    var t := Text.ToLower(term);
    Text.Contains(Text.ToLower(q.courseCode), t) || Text.Contains(Text.ToLower(q.quizCode), t)
  }

  /** Matching ignores ASCII case in the term as well as in the codes. */
  lemma MatchesIgnoresCase(term: string, q: CompletedQuiz)
    ensures Matches(term, q) <==> Matches(Text.ToLower(term), q)
  {
    Text.ToLowerIdempotent(term);
  }

  /** An empty search keeps everything; otherwise only the matching quizzes, in order. */
  function Search(items: seq<CompletedQuiz>, term: string): (r: seq<CompletedQuiz>)
    ensures term == "" ==> r == items
    ensures forall i :: 0 <= i < |r| ==> Matches(term, r[i])
    ensures forall q :: multiset(r)[q] == if Matches(term, q) then multiset(items)[q] else 0
    ensures Lists.SubsequenceOf(r, items)
  {
    if term == "" then
      assert forall q :: Matches(term, q) by {
        forall q ensures Matches(term, q) { EmptyTermMatches(q); }
      }
      SubsequenceOfSelf(items);
      items
    else Lists.Filter(items, q => Matches(term, q))
  }

  /** Skipping the filter for an empty term changes nothing: the empty term matches every quiz. */
  lemma EmptyTermMatches(q: CompletedQuiz)
    ensures Matches("", q)
  {
    Text.PrefixOccurs(Text.ToLower(q.courseCode), "");
  }

  lemma {:induction false} SubsequenceOfSelf<T>(s: seq<T>)
    ensures Lists.SubsequenceOf(s, s)
    decreases |s|
  {
    if |s| > 0 {
      SubsequenceOfSelf(s[1..]);
    }
  }

  lemma SearchMembership(items: seq<CompletedQuiz>, term: string, q: CompletedQuiz)
    ensures q in Search(items, term) <==> q in items && Matches(term, q)
  {
    var r := Search(items, term);
    assert q in r <==> q in multiset(r);
    assert q in items <==> q in multiset(items);
  }

  /** The sign of a marks difference: `sort` only looks at whether the comparator is negative, zero or positive. */
  function Sign(x: real): (s: int)
    ensures s == -1 <==> x < 0.0
    ensures s == 0 <==> x == 0.0
    ensures s == 1 <==> x > 0.0
  {
    if x < 0.0 then -1 else if x > 0.0 then 1 else 0
  }

  /** The comparator: newer or higher first, course codes ascending; "asc" negates it. */
  function CompareQuizzes(key: SortKey, order: SortOrder, a: CompletedQuiz, b: CompletedQuiz): (r: int)
    ensures key == ByDate && order == Desc ==> (r < 0 <==> a.loggedInAt > b.loggedInAt)
    ensures key == ByDate && order == Asc ==> (r < 0 <==> a.loggedInAt < b.loggedInAt)
    ensures key == ByDate ==> (r == 0 <==> a.loggedInAt == b.loggedInAt)
    ensures key == ByMarks && order == Desc ==> (r < 0 <==> a.marks > b.marks)
    ensures key == ByMarks && order == Asc ==> (r < 0 <==> a.marks < b.marks)
    ensures key == ByMarks ==> (r == 0 <==> a.marks == b.marks)
    ensures key == ByCourse ==> (r == 0 <==> a.courseCode == b.courseCode)
  {
    var c := match key
      case ByDate => b.loggedInAt - a.loggedInAt
      case ByMarks => Sign(b.marks - a.marks)
      case ByCourse => Text.Compare(a.courseCode, b.courseCode);
    if order == Asc then -c else c
  }

  function Comparator(key: SortKey, order: SortOrder): (CompletedQuiz, CompletedQuiz) -> int
  {
    (a, b) => CompareQuizzes(key, order, a, b)
  }

  lemma ComparatorIsPreorder(key: SortKey, order: SortOrder)
    ensures Sorting.TotalPreorder(Comparator(key, order))
  {
    var cmp := Comparator(key, order);
    forall a, b
      ensures cmp(a, b) == -cmp(b, a)
    {
      Text.CompareAntisymmetric(a.courseCode, b.courseCode);
    }
    forall a, b, c | cmp(a, b) <= 0 && cmp(b, c) <= 0
      ensures cmp(a, c) <= 0
    {
      if key == ByCourse {
        if order == Desc {
          Text.CompareTransitive(a.courseCode, b.courseCode, c.courseCode);
        } else {
          Text.CompareAntisymmetric(a.courseCode, b.courseCode);
          Text.CompareAntisymmetric(b.courseCode, c.courseCode);
          Text.CompareAntisymmetric(a.courseCode, c.courseCode);
          Text.CompareTransitive(c.courseCode, b.courseCode, a.courseCode);
        }
      }
    }
  }

  /** The list shown: the search result, sorted, and a permutation of it. */
  function Visible(p: Page): (r: seq<CompletedQuiz>)
    ensures multiset(r) == multiset(Search(p.quizzes, p.searchTerm))
    ensures Sorting.SortedBy(Comparator(p.sortKey, p.order), r)
  {
    var cmp := Comparator(p.sortKey, p.order);
    var found := Search(p.quizzes, p.searchTerm);
    ComparatorIsPreorder(p.sortKey, p.order);
    Sorting.SortSorted(found, cmp);
    Sorting.Sort(found, cmp)
  }

  /** What each key and order means for the list shown. */
  lemma VisibleOrder(p: Page)
    ensures var r := Visible(p);
      forall i, j :: 0 <= i < j < |r| ==>
        && (p.sortKey == ByDate && p.order == Desc ==> r[i].loggedInAt >= r[j].loggedInAt)
        && (p.sortKey == ByDate && p.order == Asc ==> r[i].loggedInAt <= r[j].loggedInAt)
        && (p.sortKey == ByMarks && p.order == Desc ==> r[i].marks >= r[j].marks)
        && (p.sortKey == ByMarks && p.order == Asc ==> r[i].marks <= r[j].marks)
        && (p.sortKey == ByCourse && p.order == Desc ==> Text.Compare(r[i].courseCode, r[j].courseCode) <= 0)
        && (p.sortKey == ByCourse && p.order == Asc ==> Text.Compare(r[i].courseCode, r[j].courseCode) >= 0)
  {
    var r := Visible(p);
    var cmp := Comparator(p.sortKey, p.order);
    forall i, j | 0 <= i < j < |r|
      ensures cmp(r[i], r[j]) <= 0
    {
    }
  }

  /** A quiz is shown iff it is stored and matches the search. */
  lemma VisibleMembership(p: Page, q: CompletedQuiz)
    ensures q in Visible(p) <==> q in p.quizzes && Matches(p.searchTerm, q)
  {
    var r := Visible(p);
    assert q in r <==> q in multiset(r);
    SearchMembership(p.quizzes, p.searchTerm, q);
    var found := Search(p.quizzes, p.searchTerm);
    assert q in found <==> q in multiset(found);
  }

  /** The sort menu: the current key flips the order, another key is selected in descending order. */
  function SelectSortKey(p: Page, key: SortKey): (r: Page)
    ensures r.sortKey == key
    ensures key == p.sortKey ==> r.order != p.order
    ensures key != p.sortKey ==> r.order == Desc
    ensures r.quizzes == p.quizzes && r.searchTerm == p.searchTerm && r.error == p.error
  {
    if key == p.sortKey then p.(order := if p.order == Asc then Desc else Asc)
    else p.(sortKey := key, order := Desc)
  }

  /** Choosing the current key twice restores the page; another key twice ends ascending. */
  lemma SelectTwiceRestores(p: Page, key: SortKey)
    ensures key == p.sortKey ==> SelectSortKey(SelectSortKey(p, key), key) == p
    ensures key != p.sortKey ==> SelectSortKey(SelectSortKey(p, key), key) == p.(sortKey := key, order := Asc)
  {
  }

  /** The message shown for an empty list. */
  function EmptyMessage(p: Page): (m: string)
    ensures p.searchTerm != "" ==> m == "No quizzes match your search"
    ensures p.searchTerm == "" ==> m == "No completed quizzes found"
  {
    if p.searchTerm != "" then "No quizzes match your search" else "No completed quizzes found"
  }

  /** An empty search always shows the stored list in full, so its message means nothing is stored. */
  lemma EmptyMessageMeaning(p: Page)
    requires |Visible(p)| == 0
    ensures p.searchTerm == "" ==> |p.quizzes| == 0
  {
    if p.searchTerm == "" {
      assert |multiset(p.quizzes)| == |multiset(Visible(p))|;
    }
  }

  datatype FetchResult = Fetched(items: seq<CompletedQuiz>) | FetchFailed

  /** A successful fetch replaces the list (and, as written, leaves an earlier error in place). */
  function ApplyFetch(p: Page, result: FetchResult): (r: Page)
    ensures result.Fetched? ==> r.quizzes == result.items && r.error == p.error
    ensures result.FetchFailed? ==> r.quizzes == p.quizzes && r.error == "Failed to load completed quizzes"
    ensures r.searchTerm == p.searchTerm && r.sortKey == p.sortKey && r.order == p.order
  {
    match result
    case Fetched(items) => p.(quizzes := items)
    case FetchFailed => p.(error := "Failed to load completed quizzes")
  }
}
