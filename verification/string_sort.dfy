/** `Array.prototype.sort()` with no comparator, applied to strings: ascending
    lexicographic order, comparing character by character. */
module StringSort {
  import opened ArrayOps

  /** `a < b` as JavaScript compares two strings: the first differing character
      decides, and a proper prefix comes before the longer string. */
  predicate Less(a: string, b: string): (r: bool)
    ensures |a| < |b| && a == b[..|a|] ==> r
    ensures |b| <= |a| && b == a[..|b|] ==> !r
    decreases |a|
  {
    if a == [] then b != []
    else if b == [] then false
    else if a[0] != b[0] then a[0] < b[0]
    else Less(a[1..], b[1..])
  }

  /** At the first position where `a` and `b` differ, `a` has the smaller character. */
  predicate FirstDifferenceBelow(a: string, b: string) {
    exists k :: 0 <= k < |a| && k < |b| && a[..k] == b[..k] && a[k] < b[k]
  }

  /** `Less` is the lexicographic order: `a` is a proper prefix of `b`, or
      `a` has the smaller character where the two first differ. */
  lemma {:induction false} LessFirstDifference(a: string, b: string)
    ensures Less(a, b) <==> (|a| < |b| && a == b[..|a|]) || FirstDifferenceBelow(a, b)
    decreases |a|
  {
    if a != [] && b != [] {
      if a[0] != b[0] {
        assert a[..0] == b[..0];
      } else {
        LessFirstDifference(a[1..], b[1..]);
        if FirstDifferenceBelow(a, b) {
          var k :| 0 <= k < |a| && k < |b| && a[..k] == b[..k] && a[k] < b[k];
          assert k > 0;
          assert a[1..][..k - 1] == a[..k][1..];
          assert b[1..][..k - 1] == b[..k][1..];
          assert FirstDifferenceBelow(a[1..], b[1..]);
        }
        if FirstDifferenceBelow(a[1..], b[1..]) {
          var k :| 0 <= k < |a[1..]| && k < |b[1..]| && a[1..][..k] == b[1..][..k] && a[1..][k] < b[1..][k];
          assert a[..k + 1] == [a[0]] + a[1..][..k];
          assert b[..k + 1] == [b[0]] + b[1..][..k];
          assert FirstDifferenceBelow(a, b);
        }
        if |a| < |b| && a == b[..|a|] {
          assert a[1..] == b[1..][..|a| - 1];
        }
        if |a[1..]| < |b[1..]| && a[1..] == b[1..][..|a[1..]|] {
          assert a == [a[0]] + a[1..];
          assert b[..|a|] == [b[0]] + b[1..][..|a| - 1];
        }
      }
    }
  }

  lemma {:induction false} LessTransitive(a: string, b: string, c: string)
    requires Less(a, b) && Less(b, c)
    ensures Less(a, c)
  {
    if a != [] && b != [] && c != [] && a[0] == b[0] && b[0] == c[0] {
      LessTransitive(a[1..], b[1..], c[1..]);
    }
  }

  /** Any two different strings are ordered one way or the other. */
  lemma {:induction false} LessTotal(a: string, b: string)
    requires a != b
    ensures Less(a, b) || Less(b, a)
  {
    if a != [] && b != [] && a[0] == b[0] {
      assert a == [a[0]] + a[1..] && b == [b[0]] + b[1..];
      LessTotal(a[1..], b[1..]);
    }
  }

  /** Two strings are never below each other. */
  lemma LessAsymmetric(a: string, b: string)
    requires Less(a, b)
    ensures !Less(b, a)
  {
    if Less(b, a) {
      LessTransitive(a, b, a);
    }
  }

  /** Ascending, with equal strings allowed next to each other. */
  predicate Sorted(s: seq<string>) {
    forall i, j :: 0 <= i < j < |s| ==> !Less(s[j], s[i])
  }

  /** Ascending with no repeats. */
  predicate StrictlyAscending(s: seq<string>) {
    forall i, j :: 0 <= i < j < |s| ==> Less(s[i], s[j])
  }

  /** Places `x` before the first element of `s` that is not below it. */
  function Insert(x: string, s: seq<string>): (r: seq<string>)
    ensures multiset(r) == multiset(s) + multiset{x}
  {
    if s == [] || !Less(s[0], x) then [x] + s
    else
      assert s == [s[0]] + s[1..];
      [s[0]] + Insert(x, s[1..])
  }

  /** Inserting into a sorted list keeps it sorted. */
  lemma {:induction false} InsertSorted(x: string, s: seq<string>)
    requires Sorted(s)
    ensures Sorted(Insert(x, s))
  {
    var r := Insert(x, s);
    if s == [] || !Less(s[0], x) {
      forall j | 0 < j < |r| ensures !Less(r[j], x) {
        if Less(s[j - 1], x) && j - 1 > 0 && s[j - 1] != s[0] {
          LessTotal(s[0], s[j - 1]);
          LessTransitive(s[0], s[j - 1], x);
        }
      }
    } else {
      var rest := Insert(x, s[1..]);
      InsertSorted(x, s[1..]);
      LessAsymmetric(s[0], x);
      forall j | 0 <= j < |rest| ensures !Less(rest[j], s[0]) {
        assert rest[j] in multiset(rest);
        assert s == [s[0]] + s[1..];
      }
      assert forall j :: 0 < j < |r| ==> r[j] == rest[j - 1];
    }
  }

  /** Inserting a new string into a list without repeats adds no repeat. */
  lemma {:induction false} InsertDistinct(x: string, s: seq<string>)
    requires x !in s && Distinct(s)
    ensures Distinct(Insert(x, s))
  {
    var r := Insert(x, s);
    if s == [] || !Less(s[0], x) {
      assert forall j :: 0 < j < |r| ==> r[j] == s[j - 1];
    } else {
      var rest := Insert(x, s[1..]);
      InsertDistinct(x, s[1..]);
      assert s == [s[0]] + s[1..];
      assert s[0] !in multiset(rest);
      assert forall j :: 0 < j < |r| ==> r[j] == rest[j - 1];
    }
  }

  /** `xs.sort()`: the same strings, rearranged. */
  function Sort(xs: seq<string>): (r: seq<string>)
    ensures multiset(r) == multiset(xs)
  {
    if xs == [] then []
    else
      assert xs == [xs[0]] + xs[1..];
      Insert(xs[0], Sort(xs[1..]))
  }

  /** The sorted list is ascending. */
  lemma {:induction false} SortSorted(xs: seq<string>)
    ensures Sorted(Sort(xs))
  {
    if xs != [] {
      SortSorted(xs[1..]);
      InsertSorted(xs[0], Sort(xs[1..]));
    }
  }

  /** Sorting a list without repeats adds none. */
  lemma {:induction false} SortDistinct(xs: seq<string>)
    requires Distinct(xs)
    ensures Distinct(Sort(xs))
  {
    if xs != [] {
      assert xs == [xs[0]] + xs[1..];
      var rest := Sort(xs[1..]);
      SortDistinct(xs[1..]);
      assert xs[0] !in multiset(rest);
      InsertDistinct(xs[0], rest);
    }
  }

  /** Sorting neither adds nor drops a value. */
  lemma SortKeepsMembers(xs: seq<string>)
    ensures forall x :: x in Sort(xs) <==> x in xs
  {
    assert forall x :: x in Sort(xs) <==> x in multiset(Sort(xs));
  }

  /** A sorted list without repeats is strictly ascending. */
  lemma SortedDistinctAscending(s: seq<string>)
    requires Sorted(s) && Distinct(s)
    ensures StrictlyAscending(s)
  {
    forall i, j | 0 <= i < j < |s| ensures Less(s[i], s[j]) {
      LessTotal(s[i], s[j]);
    }
  }
}
