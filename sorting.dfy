/**
 * The query helpers the SQL and ORM layers stand for: the first row that a
 * `WHERE` clause selects, the filtered rows themselves, `ORDER BY` as a sort
 * by a comparison function, and `Vec::dedup` on a sorted vector.
 */
module Sorting {
  import opened Wrappers

  /** Index of the first element satisfying `p` (`query_row`, `.one()` with no ORDER BY). */
  function FirstIndex<T>(s: seq<T>, p: T -> bool): (r: Option<nat>)
    ensures r.Some? ==> r.value < |s| && p(s[r.value]) && forall j :: 0 <= j < r.value ==> !p(s[j])
    ensures r.None? <==> forall j :: 0 <= j < |s| ==> !p(s[j])
  {
    if |s| == 0 then None
    else if p(s[0]) then Some(0)
    else
      match FirstIndex(s[1..], p)
      case None => None
      case Some(k) => Some(k + 1)
  }

  /** The elements satisfying `p`, in their original order (`WHERE p`). */
  function Filter<T(!new)>(s: seq<T>, p: T -> bool): (r: seq<T>)
    ensures |r| <= |s|
    ensures forall x :: x in r <==> x in s && p(x)
    ensures multiset(r) <= multiset(s)
  {
    if |s| == 0 then []
    else
      var rest := Filter(s[1..], p);
      assert s == [s[0]] + s[1..];
      if p(s[0]) then [s[0]] + rest else rest
  }

  /** The number of elements satisfying `p` (`rows_affected` of a `DELETE ... WHERE p`). */
  function Count<T>(s: seq<T>, p: T -> bool): nat
  {
    if |s| == 0 then 0 else (if p(s[0]) then 1 else 0) + Count(s[1..], p)
  }

  /** The elements failing `p`, in their original order: what a `DELETE ... WHERE p` leaves behind. */
  function Reject<T(!new)>(s: seq<T>, p: T -> bool): (r: seq<T>)
    ensures forall x :: x in r <==> x in s && !p(x)
    ensures |r| + Count(s, p) == |s|
    ensures multiset(r) <= multiset(s)
  {
    if |s| == 0 then []
    else
      var rest := Reject(s[1..], p);
      assert s == [s[0]] + s[1..];
      if p(s[0]) then rest else [s[0]] + rest
  }

  /** A relation that holds between every earlier and later element still holds after a `DELETE`. */
  lemma {:induction false} RejectKeepsPairwise<T(!new)>(s: seq<T>, p: T -> bool, rel: (T, T) -> bool)
    requires forall i, j :: 0 <= i < j < |s| ==> rel(s[i], s[j])
    ensures forall i, j :: 0 <= i < j < |Reject(s, p)| ==> rel(Reject(s, p)[i], Reject(s, p)[j])
  {
    if |s| > 0 {
      RejectKeepsPairwise(s[1..], p, rel);
      var rest := Reject(s[1..], p);
      if !p(s[0]) {
        var r := [s[0]] + rest;
        forall j | 0 <= j < |rest| ensures rel(s[0], rest[j]) {
          assert rest[j] in s[1..];
          var k :| 0 <= k < |s[1..]| && s[1..][k] == rest[j];
          assert s[k + 1] == rest[j];
        }
        forall i, j | 0 <= i < j < |r| ensures rel(r[i], r[j]) {
          if i == 0 {
            assert r[0] == s[0] && r[j] == rest[j - 1];
            assert rel(s[0], rest[j - 1]);
          } else {
            assert r[i] == rest[i - 1] && r[j] == rest[j - 1];
            assert rel(rest[i - 1], rest[j - 1]);
          }
        }
        assert Reject(s, p) == r;
      }
    }
  }

  /** As many elements pass a filter as `Count` counts. */
  lemma {:induction false} FilterCount<T(!new)>(s: seq<T>, p: T -> bool)
    ensures |Filter(s, p)| == Count(s, p)
  {
    if |s| > 0 {
      FilterCount(s[1..], p);
    }
  }

  /** Appending one element adds one to the count exactly when it satisfies `p`. */
  lemma {:induction false} CountAppend<T>(s: seq<T>, x: T, p: T -> bool)
    ensures Count(s + [x], p) == Count(s, p) + (if p(x) then 1 else 0)
  {
    if |s| > 0 {
      assert (s + [x])[1..] == s[1..] + [x];
      CountAppend(s[1..], x, p);
    }
  }

  /** Replacing an element by one `p` judges alike keeps the count. */
  lemma {:induction false} CountUpdate<T>(s: seq<T>, i: nat, y: T, p: T -> bool)
    requires i < |s| && p(y) == p(s[i])
    ensures Count(s[i := y], p) == Count(s, p)
  {
    if i > 0 {
      assert s[i := y][1..] == s[1..][i - 1 := y];
      CountUpdate(s[1..], i - 1, y, p);
    }
  }

  /** Two complementary predicates split a sequence's length between their counts. */
  lemma {:induction false} CountSplit<T>(s: seq<T>, p: T -> bool, q: T -> bool)
    requires forall x :: q(x) == !p(x)
    ensures Count(s, p) + Count(s, q) == |s|
  {
    if |s| > 0 {
      CountSplit(s[1..], p, q);
    }
  }

  /** A filter every element passes keeps the whole sequence. */
  lemma {:induction false} FilterAll<T(!new)>(s: seq<T>, p: T -> bool)
    requires forall j :: 0 <= j < |s| ==> p(s[j])
    ensures Filter(s, p) == s
  {
    if |s| > 0 {
      FilterAll(s[1..], p);
    }
  }

  // ----- ordering -----

  predicate SortedBy<T>(s: seq<T>, le: (T, T) -> bool)
  {
    forall i, j :: 0 <= i < j < |s| ==> le(s[i], s[j])
  }

  /** A comparison `ORDER BY` can use: total and transitive. */
  ghost predicate IsTotalPreorder<T(!new)>(le: (T, T) -> bool)
  {
    (forall a, b :: le(a, b) || le(b, a))
    && (forall a, b, c :: le(a, b) && le(b, c) ==> le(a, c))
  }

  /** `x` placed before the first element it does not follow. */
  function InsertBy<T(!new)>(x: T, s: seq<T>, le: (T, T) -> bool): (r: seq<T>)
    ensures multiset(r) == multiset(s) + multiset{x}
    ensures IsTotalPreorder(le) && SortedBy(s, le) ==> SortedBy(r, le)
  {
    if |s| == 0 then [x]
    else if le(x, s[0]) then
      assert s == [s[0]] + s[1..];
      assert IsTotalPreorder(le) && SortedBy(s, le) ==> SortedBy([x] + s, le) by {
        if IsTotalPreorder(le) && SortedBy(s, le) {
          ConsSorted(x, s, le);
        }
      }
      [x] + s
    else
      var rest := InsertBy(x, s[1..], le);
      assert s == [s[0]] + s[1..];
      assert IsTotalPreorder(le) && SortedBy(s, le) ==> SortedBy([s[0]] + rest, le) by {
        if IsTotalPreorder(le) && SortedBy(s, le) {
          assert SortedBy(s[1..], le);
          HeadBelowInserted(x, s, rest, le);
          ConsSorted(s[0], rest, le);
        }
      }
      [s[0]] + rest
  }

  /** An element below every element of a sorted sequence can go in front of it. */
  lemma ConsSorted<T(!new)>(h: T, s: seq<T>, le: (T, T) -> bool)
    requires IsTotalPreorder(le) && SortedBy(s, le)
    requires |s| == 0 || le(h, s[0])
    ensures SortedBy([h] + s, le)
  {
    var r := [h] + s;
    forall i, j | 0 <= i < j < |r| ensures le(r[i], r[j]) {
      if i > 0 {
        assert r[i] == s[i - 1] && r[j] == s[j - 1];
      } else if j > 1 {
        assert le(h, s[0]) && le(s[0], s[j - 1]);
      }
    }
  }

  /** When `x` does not go first, the head of `s` is below the first element of the insertion into the rest. */
  lemma HeadBelowInserted<T(!new)>(x: T, s: seq<T>, rest: seq<T>, le: (T, T) -> bool)
    requires IsTotalPreorder(le) && SortedBy(s, le) && |s| > 0 && !le(x, s[0])
    requires multiset(rest) == multiset(s[1..]) + multiset{x}
    ensures |rest| == 0 || le(s[0], rest[0])
  {
    if |rest| > 0 {
      assert rest[0] in multiset(rest);
      if rest[0] != x {
        assert rest[0] in multiset(s[1..]);
        var k :| 0 <= k < |s[1..]| && s[1..][k] == rest[0];
        assert s[k + 1] == rest[0];
      }
    }
  }

  /** Insertion sort: `ORDER BY le` over rows in table order. */
  function SortBy<T(!new)>(s: seq<T>, le: (T, T) -> bool): (r: seq<T>)
    ensures multiset(r) == multiset(s) && |r| == |s|
    ensures IsTotalPreorder(le) ==> SortedBy(r, le)
  {
    if |s| == 0 then []
    else
      assert s == [s[0]] + s[1..];
      InsertBy(s[0], SortBy(s[1..], le), le)
  }

  /** A sorted sequence is left as it is. */
  lemma {:induction false} SortBySorted<T(!new)>(s: seq<T>, le: (T, T) -> bool)
    requires IsTotalPreorder(le) && SortedBy(s, le)
    requires forall i, j :: 0 <= i < j < |s| ==> !le(s[j], s[i])
    ensures SortBy(s, le) == s
  {
    if |s| > 0 {
      var tail := s[1..];
      assert SortedBy(tail, le) by {
        forall i, j | 0 <= i < j < |tail| ensures le(tail[i], tail[j]) {
          assert tail[i] == s[i + 1] && tail[j] == s[j + 1];
        }
      }
      forall i, j | 0 <= i < j < |tail| ensures !le(tail[j], tail[i]) {
        assert tail[i] == s[i + 1] && tail[j] == s[j + 1];
      }
      SortBySorted(tail, le);
      assert SortBy(tail, le) == tail;
      if |s| > 1 {
        assert le(s[0], tail[0]);
      }
      assert InsertBy(s[0], tail, le) == [s[0]] + tail;
      assert s == [s[0]] + tail;
    }
  }

  /** `Vec::dedup`: consecutive equal elements collapse to one. */
  function Dedup<T(==,!new)>(s: seq<T>): (r: seq<T>)
    ensures |r| <= |s|
    ensures forall x :: x in r <==> x in s
    ensures forall i :: 0 <= i < |r| - 1 ==> r[i] != r[i + 1]
    ensures |s| > 0 ==> |r| > 0 && r[0] == s[0]
  {
    if |s| <= 1 then s
    else
      var rest := Dedup(s[1..]);
      assert s == [s[0]] + s[1..];
      if s[0] == s[1] then rest else [s[0]] + rest
  }

  /** After sorting, deduplicating leaves each value exactly once. */
  lemma {:induction false} DedupSortedDistinct<T(!new)>(s: seq<T>, le: (T, T) -> bool)
    requires IsTotalPreorder(le) && SortedBy(s, le)
    requires forall a, b :: le(a, b) && le(b, a) ==> a == b
    ensures SortedBy(Dedup(s), le)
    ensures forall i, j :: 0 <= i < j < |Dedup(s)| ==> Dedup(s)[i] != Dedup(s)[j]
  {
    if |s| > 1 {
      DedupSortedDistinct(s[1..], le);
      var rest := Dedup(s[1..]);
      if s[0] != s[1] {
        var r := [s[0]] + rest;
        forall j | 0 <= j < |rest| ensures le(s[0], rest[j]) && s[0] != rest[j] {
          assert rest[j] in s[1..];
          var k :| 0 <= k < |s[1..]| && s[1..][k] == rest[j];
          assert le(s[0], s[1]) && le(s[1], s[k + 1]);
        }
        assert forall i, j :: 0 <= i < j < |r| ==> le(r[i], r[j]) && r[i] != r[j] by {
          forall i, j | 0 <= i < j < |r| ensures le(r[i], r[j]) && r[i] != r[j] {
            if i > 0 {
              assert r[i] == rest[i - 1] && r[j] == rest[j - 1];
            } else {
              assert r[j] == rest[j - 1];
            }
          }
        }
      }
    }
  }
}
