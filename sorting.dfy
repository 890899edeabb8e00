/**
 * The two sorts the closest-pair solver performs on copies of its input: by the natural
 * order of points, and by the y-comparator. The library sort is stable; the model uses a
 * stable insertion sort and proves that it orders the list and only rearranges it.
 */
module Sorting {
  import opened Points

  /** Which comparator a sort uses. */
  datatype Order = Natural | YMajor

  /**
   * The comparator a sort uses: the natural order, or the y-comparator. Under the y-comparator
   * points with equal y compare equal.
   */
  function Compare(o: Order, p: Point, q: Point): (c: int)
    ensures -1 <= c <= 1
    ensures c == 0 <==> if o == Natural then p == q else p.y == q.y
    ensures c < 0 <==> if o == Natural then p.x < q.x || (p.x == q.x && p.y < q.y) else p.y < q.y
  {
    match o
    case Natural => CompareTo(p, q)
    case YMajor => CompareY(p, q)
  }

  /** Every element is no greater than every later element. */
  ghost predicate Sorted(o: Order, s: seq<Point>)
  {
    forall i, j :: 0 <= i < j < |s| ==> Compare(o, s[i], s[j]) <= 0
  }

  /** Puts `p` into a sorted list before the first element that is not smaller than it. */
  function Insert(o: Order, p: Point, s: seq<Point>): (r: seq<Point>)
    requires Sorted(o, s)
    ensures Sorted(o, r)
    ensures multiset(r) == multiset(s) + multiset{p}
  {
    if s == [] || Compare(o, p, s[0]) <= 0 then
      PrependSorted(o, p, s);
      [p] + s
    else
      var rest := Insert(o, p, s[1..]);
      assert s == [s[0]] + s[1..];
      HeadBelowAll(o, s, p, rest);
      assert multiset([s[0]] + rest) == multiset{s[0]} + multiset(rest);
      [s[0]] + rest
  }

  /** `p` heads a sorted list when it is no greater than the list's head. */
  lemma PrependSorted(o: Order, p: Point, s: seq<Point>)
    requires Sorted(o, s) && (s == [] || Compare(o, p, s[0]) <= 0)
    ensures Sorted(o, [p] + s)
  {
    var t := [p] + s;
    forall i, j | 0 <= i < j < |t|
      ensures Compare(o, t[i], t[j]) <= 0
    {
      if i == 0 {
        if j > 1 {
          assert Compare(o, s[0], s[j - 1]) <= 0;
          CompareTransitive(o, p, s[0], s[j - 1]);
        }
      } else {
        assert t[i] == s[i - 1] && t[j] == s[j - 1];
      }
    }
  }

  /** Both comparators are transitive. */
  lemma CompareTransitive(o: Order, p: Point, q: Point, r: Point)
    requires Compare(o, p, q) <= 0 && Compare(o, q, r) <= 0
    ensures Compare(o, p, r) <= 0
  {
    if o == Natural {
      CompareToTransitive(p, q, r);
    }
  }

  /** The head of a sorted list is below `p` and below everything else in the list. */
  lemma HeadBelowAll(o: Order, s: seq<Point>, p: Point, rest: seq<Point>)
    requires s != [] && Sorted(o, s) && Compare(o, p, s[0]) > 0
    requires Sorted(o, rest) && multiset(rest) == multiset(s[1..]) + multiset{p}
    ensures Sorted(o, [s[0]] + rest)
  {
    forall k | 0 <= k < |rest| ensures Compare(o, s[0], rest[k]) <= 0 {
      assert rest[k] in multiset(rest);
      if rest[k] != p {
        assert rest[k] in multiset(s[1..]);
        var m :| 0 <= m < |s[1..]| && s[1..][m] == rest[k];
        assert s[m + 1] == rest[k];
      }
    }
  }

  /** A list stays sorted when an element no smaller than all of it is appended. */
  lemma AppendSorted(o: Order, s: seq<Point>, p: Point)
    requires Sorted(o, s)
    requires forall k :: 0 <= k < |s| ==> Compare(o, s[k], p) <= 0
    ensures Sorted(o, s + [p])
  {
    var t := s + [p];
    forall i, j | 0 <= i < j < |t|
      ensures Compare(o, t[i], t[j]) <= 0
    {
      assert t[i] == s[i];
    }
  }

  /** A stable insertion sort. */
  function Sort(o: Order, s: seq<Point>): (r: seq<Point>)
    ensures Sorted(o, r)
    ensures multiset(r) == multiset(s)
  {
    if s == [] then []
    else
      assert s == [s[0]] + s[1..];
      Insert(o, s[0], Sort(o, s[1..]))
  }

  /** The entries of `s` that compare equal to `k`, in their order in `s`. */
  function SameKey(o: Order, s: seq<Point>, k: Point): seq<Point>
  {
    if s == [] then []
    else (if Compare(o, s[0], k) == 0 then [s[0]] else []) + SameKey(o, s[1..], k)
  }

  /** Inserting `p` puts it ahead of the entries that compare equal to it. */
  lemma {:induction false} InsertKeys(o: Order, p: Point, s: seq<Point>, k: Point)
    requires Sorted(o, s)
    ensures SameKey(o, Insert(o, p, s), k) ==
              (if Compare(o, p, k) == 0 then [p] else []) + SameKey(o, s, k)
  {
    if s == [] || Compare(o, p, s[0]) <= 0 {
      SameKeyCons(o, p, s, k);
    } else {
      var rest := Insert(o, p, s[1..]);
      assert Insert(o, p, s) == [s[0]] + rest;
      InsertKeys(o, p, s[1..], k);
      SameKeyCons(o, s[0], rest, k);
      assert s == [s[0]] + s[1..];
      SameKeyCons(o, s[0], s[1..], k);
      if Compare(o, p, k) == 0 {
        assert Compare(o, s[0], k) != 0;
        assert SameKey(o, [s[0]] + rest, k) == [p] + SameKey(o, s[1..], k);
      } else {
        assert SameKey(o, rest, k) == SameKey(o, s[1..], k);
      }
    }
  }

  /** The entries equal to `k` in a list with `x` at its head. */
  lemma SameKeyCons(o: Order, x: Point, t: seq<Point>, k: Point)
    ensures SameKey(o, [x] + t, k) == (if Compare(o, x, k) == 0 then [x] else []) + SameKey(o, t, k)
  {
    assert ([x] + t)[1..] == t;
  }

  /** The sort is stable: entries that compare equal keep their order in the input. */
  lemma {:induction false} SortStable(o: Order, s: seq<Point>, k: Point)
    ensures SameKey(o, Sort(o, s), k) == SameKey(o, s, k)
  {
    if s != [] {
      SortStable(o, s[1..], k);
      InsertKeys(o, s[0], Sort(o, s[1..]), k);
    }
  }

  /** A permutation keeps exactly the values of the list it rearranges. */
  lemma SameValues(s: seq<Point>, t: seq<Point>, p: Point)
    requires multiset(s) == multiset(t)
    ensures p in s <==> p in t
  {
    assert p in s <==> p in multiset(s);
    assert p in t <==> p in multiset(t);
  }
}
