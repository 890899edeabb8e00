/** Facts about lists of values used by both solvers and the plotting pane. */
module Sequences {

  /** No value occurs twice. */
  ghost predicate Distinct<T>(s: seq<T>)
  {
    forall i, j :: 0 <= i < j < |s| ==> s[i] != s[j]
  }

  /** A list has no repeated value exactly when every value occurs at most once in its multiset. */
  lemma {:induction false} DistinctByCount<T>(s: seq<T>)
    ensures Distinct(s) <==> forall x :: multiset(s)[x] <= 1
  {
    if s != [] {
      var t := s[1..];
      DistinctByCount(t);
      assert s == [s[0]] + t;
      assert multiset(s) == multiset{s[0]} + multiset(t);
      if Distinct(s) {
        assert Distinct(t) by {
          forall i, j | 0 <= i < j < |t| ensures t[i] != t[j] {
            assert t[i] == s[i + 1] && t[j] == s[j + 1];
          }
        }
        assert s[0] !in t;
        forall x ensures multiset(s)[x] <= 1 {
          if x == s[0] {
            assert multiset(t)[x] == 0;
          }
        }
      } else {
        var i, j :| 0 <= i < j < |s| && s[i] == s[j];
        if i == 0 {
          assert s[0] in t by { assert t[j - 1] == s[j]; }
          assert multiset(s)[s[0]] >= 2;
        } else {
          assert t[i - 1] == t[j - 1];
          assert !Distinct(t);
          var y :| multiset(t)[y] > 1;
          assert multiset(s)[y] > 1;
        }
      }
    }
  }

  /** Rearranging a list keeps it free of repeats. */
  lemma DistinctPermutation<T>(s: seq<T>, t: seq<T>)
    requires multiset(s) == multiset(t)
    requires Distinct(s)
    ensures Distinct(t)
  {
    DistinctByCount(s);
    DistinctByCount(t);
  }

  /** A list without repeats whose values all occur in `t` is no longer than `t`. */
  lemma {:induction false} DistinctWithinIsShorter<T>(s: seq<T>, t: seq<T>)
    requires Distinct(s)
    requires forall i :: 0 <= i < |s| ==> s[i] in t
    ensures |s| <= |t|
  {
    if s != [] {
      var x := s[|s| - 1];
      var k :| 0 <= k < |t| && t[k] == x;
      var t' := t[..k] + t[k + 1..];
      var s' := s[..|s| - 1];
      forall i | 0 <= i < |s'| ensures s'[i] in t' {
        assert s'[i] == s[i] && s[i] != x;
        var m :| 0 <= m < |t| && t[m] == s[i];
        if m < k {
          assert t'[m] == t[m];
        } else {
          assert m > k;
          assert t'[m - 1] == t[m];
        }
      }
      DistinctWithinIsShorter(s', t');
    }
  }

  /** Deleting one entry keeps a list free of repeats. */
  lemma DistinctRemove<T>(s: seq<T>, i: int)
    requires Distinct(s) && 0 <= i < |s|
    ensures Distinct(s[..i] + s[i + 1..])
  {
    var t := s[..i] + s[i + 1..];
    forall a, b | 0 <= a < b < |t| ensures t[a] != t[b] {
      var a' := if a < i then a else a + 1;
      var b' := if b < i then b else b + 1;
      assert t[a] == s[a'] && t[b] == s[b'];
    }
  }

  /** Appending a value the list lacks keeps it free of repeats. */
  lemma DistinctAppend<T>(s: seq<T>, x: T)
    requires Distinct(s) && x !in s
    ensures Distinct(s + [x])
  {
    var t := s + [x];
    forall a, b | 0 <= a < b < |t| ensures t[a] != t[b] {
      assert t[a] == s[a];
      if b < |s| { assert t[b] == s[b]; }
    }
  }

  /** Moving the first element of `rest` onto the end of `seen` leaves the concatenation alone. */
  lemma ShiftFirst<T>(seen: seq<T>, rest: seq<T>)
    requires rest != []
    ensures (seen + [rest[0]]) + rest[1..] == seen + rest
  {
  }

  /** A list in which each entry is `next` of the one before stays so when `next` of its last entry is appended. */
  lemma ChainAppend<T>(s: seq<T>, w: T, next: T -> T)
    requires 1 <= |s|
    requires forall i :: 0 <= i < |s| - 1 ==> s[i + 1] == next(s[i])
    requires w == next(s[|s| - 1])
    ensures forall i :: 0 <= i < |s| ==> (s + [w])[i + 1] == next((s + [w])[i])
  {
    forall i | 0 <= i < |s|
      ensures (s + [w])[i + 1] == next((s + [w])[i])
    {
      if i + 1 < |s| {
        assert (s + [w])[i] == s[i] && (s + [w])[i + 1] == s[i + 1];
      }
    }
  }
}
