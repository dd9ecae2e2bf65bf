/**
 * `Array.prototype.sort(comparator)` as a stable insertion sort on sequences. The comparator
 * follows the JavaScript convention: negative puts its first argument earlier, positive later,
 * zero keeps the original order.
 */
module Sorting {

  /** `cmp(a, b)` and `cmp(b, a)` always disagree in sign, as subtraction-based comparators do. */
  ghost predicate Antisymmetric<T(!new)>(cmp: (T, T) -> int)
  {
    forall a, b :: cmp(a, b) == -cmp(b, a)
  }

  /** "May come before" (`cmp <= 0`) is transitive. */
  ghost predicate Transitive<T(!new)>(cmp: (T, T) -> int)
  {
    forall a, b, c :: cmp(a, b) <= 0 && cmp(b, c) <= 0 ==> cmp(a, c) <= 0
  }

  ghost predicate TotalPreorder<T(!new)>(cmp: (T, T) -> int)
  {
    Antisymmetric(cmp) && Transitive(cmp)
  }

  /** Every element may come before every later element. */
  ghost predicate SortedBy<T>(cmp: (T, T) -> int, s: seq<T>)
  {
    forall i, j :: 0 <= i < j < |s| ==> cmp(s[i], s[j]) <= 0
  }

  /** Puts `x` before the first element it may precede. */
  function Insert<T>(x: T, s: seq<T>, cmp: (T, T) -> int): (r: seq<T>)
    ensures multiset(r) == multiset(s) + multiset{x}
    decreases |s|
  {
    if |s| == 0 || cmp(x, s[0]) <= 0 then [x] + s
    else
      assert s == [s[0]] + s[1..];
      [s[0]] + Insert(x, s[1..], cmp)
  }

  /** Sorts `s`; an element goes before the equal elements that follow it, so the sort is stable. */
  function Sort<T>(s: seq<T>, cmp: (T, T) -> int): (r: seq<T>)
    ensures multiset(r) == multiset(s)
    decreases |s|
  {
    if |s| == 0 then []
    else
      assert s == [s[0]] + s[1..];
      Insert(s[0], Sort(s[1..], cmp), cmp)
  }

  lemma InMultiset<T>(z: T, r: seq<T>, s: seq<T>, x: T)
    requires multiset(r) == multiset(s) + multiset{x}
    requires z in r
    ensures z == x || z in s
  {
    assert z in multiset(r);
  }

  /** An element that may precede every element of a sorted sequence can lead it. */
  lemma ConsSorted<T>(h: T, s: seq<T>, cmp: (T, T) -> int)
    requires SortedBy(cmp, s)
    requires forall k :: 0 <= k < |s| ==> cmp(h, s[k]) <= 0
    ensures SortedBy(cmp, [h] + s)
  {
    var r := [h] + s;
    forall i, j | 0 <= i < j < |r|
      ensures cmp(r[i], r[j]) <= 0
    {
      if i == 0 {
        assert r[j] == s[j - 1];
      } else {
        assert r[i] == s[i - 1] && r[j] == s[j - 1];
      }
    }
  }

  /** The front case of `Insert`: `x` may precede the head, so by transitivity all of `s`. */
  lemma InsertAtFront<T(!new)>(x: T, s: seq<T>, cmp: (T, T) -> int)
    requires Transitive(cmp)
    requires SortedBy(cmp, s)
    requires |s| == 0 || cmp(x, s[0]) <= 0
    ensures SortedBy(cmp, [x] + s)
  {
    forall k | 0 <= k < |s|
      ensures cmp(x, s[k]) <= 0
    {
      if k > 0 {
        assert cmp(x, s[0]) <= 0 && cmp(s[0], s[k]) <= 0;
      }
    }
    ConsSorted(x, s, cmp);
  }

  /** The head of a sorted sequence, which `x` does not precede, may precede the insertion's result. */
  lemma HeadPrecedesInsertion<T(!new)>(h: T, x: T, s: seq<T>, rest: seq<T>, cmp: (T, T) -> int)
    requires Antisymmetric(cmp)
    requires forall k :: 0 <= k < |s| ==> cmp(h, s[k]) <= 0
    requires cmp(x, h) > 0
    requires multiset(rest) == multiset(s) + multiset{x}
    ensures forall k :: 0 <= k < |rest| ==> cmp(h, rest[k]) <= 0
  {
    forall k | 0 <= k < |rest|
      ensures cmp(h, rest[k]) <= 0
    {
      var z := rest[k];
      InMultiset(z, rest, s, x);
      if z == x {
        assert cmp(h, x) == -cmp(x, h);
      } else {
        var m :| 0 <= m < |s| && s[m] == z;
      }
    }
  }

  lemma {:induction false} InsertSorted<T(!new)>(x: T, s: seq<T>, cmp: (T, T) -> int)
    requires TotalPreorder(cmp)
    requires SortedBy(cmp, s)
    ensures SortedBy(cmp, Insert(x, s, cmp))
    decreases |s|
  {
    if |s| == 0 || cmp(x, s[0]) <= 0 {
      InsertAtFront(x, s, cmp);
    } else {
      var rest := Insert(x, s[1..], cmp);
      InsertSorted(x, s[1..], cmp);
      assert forall k :: 0 <= k < |s[1..]| ==> cmp(s[0], s[1..][k]) <= 0 by {
        forall k | 0 <= k < |s[1..]|
          ensures cmp(s[0], s[1..][k]) <= 0
        {
          assert s[1..][k] == s[k + 1];
        }
      }
      HeadPrecedesInsertion(s[0], x, s[1..], rest, cmp);
      ConsSorted(s[0], rest, cmp);
    }
  }

  /** A total preorder makes `Sort` return its input in order. */
  lemma {:induction false} SortSorted<T(!new)>(s: seq<T>, cmp: (T, T) -> int)
    requires TotalPreorder(cmp)
    ensures SortedBy(cmp, Sort(s, cmp))
    decreases |s|
  {
    if |s| > 0 {
      SortSorted(s[1..], cmp);
      InsertSorted(s[0], Sort(s[1..], cmp), cmp);
    }
  }
}
