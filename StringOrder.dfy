/**
  Python's ordering of `str` values and the sorted, de-duplicated list that
  `sort_values().unique()` makes of a text column.
 */
module StringOrder {

  /** Python's `<` on `str`: code point by code point, a proper prefix first. */
  predicate Less(a: string, b: string)
    ensures Less(a, b) ==> a != b
    ensures |a| < |b| && a == b[..|a|] ==> Less(a, b)
    decreases |a|
  {
    if a == [] then b != []
    else if b == [] then false
    else if a[0] != b[0] then a[0] < b[0]
    else Less(a[1..], b[1..])
  }

  lemma {:induction false} LessIrreflexive(a: string)
    ensures !Less(a, a)
  {
    if a != [] {
      LessIrreflexive(a[1..]);
    }
  }

  lemma {:induction false} LessAsymmetric(a: string, b: string)
    ensures !(Less(a, b) && Less(b, a))
    decreases |a|
  {
    if a != [] && b != [] && a[0] == b[0] {
      LessAsymmetric(a[1..], b[1..]);
    }
  }

  lemma {:induction false} LessTrichotomy(a: string, b: string)
    ensures a == b || Less(a, b) || Less(b, a)
    decreases |a|
  {
    if a != [] && b != [] && a[0] == b[0] {
      LessTrichotomy(a[1..], b[1..]);
      if a[1..] == b[1..] {
        assert a == [a[0]] + a[1..] && b == [b[0]] + b[1..];
      }
    }
  }

  lemma {:induction false} LessTransitive(a: string, b: string, c: string)
    requires Less(a, b) && Less(b, c)
    ensures Less(a, c)
    decreases |a|
  {
    if a != [] && a[0] == b[0] && b[0] == c[0] {
      LessTransitive(a[1..], b[1..], c[1..]);
    }
  }

  /** Every element is strictly below every later one: sorted and free of duplicates. */
  ghost predicate StrictlySorted(s: seq<string>)
  {
    forall i, j :: 0 <= i < j < |s| ==> Less(s[i], s[j])
  }

  /** Inserts a value into a strictly sorted list unless it is already there. */
  function Insert(s: seq<string>, x: string): (r: seq<string>)
    requires StrictlySorted(s)
    ensures StrictlySorted(r)
    ensures forall y :: y in r <==> y in s || y == x
  {
    if s == [] then [x]
    else if x == s[0] then s
    else if Less(x, s[0]) then
      assert forall y :: y in s ==> Less(x, y) by {
        forall y | y in s ensures Less(x, y) {
          if y != s[0] { LessTransitive(x, s[0], y); }
        }
      }
      [x] + s
    else
      LessTrichotomy(x, s[0]);
      var t := Insert(s[1..], x);
      assert forall y :: y in t ==> Less(s[0], y);
      [s[0]] + t
  }

  /** `sort_values().unique()` of a column: its distinct values in ascending order. */
  function SortedUnique(xs: seq<string>): (r: seq<string>)
    ensures StrictlySorted(r)
    ensures forall y :: y in r <==> y in xs
  {
    if xs == [] then []
    else Insert(SortedUnique(xs[..|xs| - 1]), xs[|xs| - 1])
  }

  /** A strictly sorted list holds each of its values once. */
  lemma {:induction false} StrictlySortedDistinct(s: seq<string>)
    requires StrictlySorted(s)
    ensures forall i, j :: 0 <= i < |s| && 0 <= j < |s| && s[i] == s[j] ==> i == j
  {
    forall i, j | 0 <= i < |s| && 0 <= j < |s| && s[i] == s[j] ensures i == j {
      LessIrreflexive(s[i]);
    }
  }

  /** The length of a strictly sorted list is the number of distinct values in it. */
  lemma {:induction false} StrictlySortedCardinality(s: seq<string>)
    requires StrictlySorted(s)
    ensures |set y | y in s| == |s|
  {
    if s != [] {
      var tail := s[1..];
      StrictlySortedCardinality(tail);
      LessIrreflexive(s[0]);
      assert s[0] !in tail;
      assert (set y | y in s) == (set y | y in tail) + {s[0]};
    }
  }

  /**
    A strictly sorted list is determined by its values: whatever sorts and
    de-duplicates a column yields exactly `SortedUnique` of it.
   */
  lemma {:induction false} StrictlySortedUnique(s: seq<string>, t: seq<string>)
    requires StrictlySorted(s) && StrictlySorted(t)
    requires forall y :: y in s <==> y in t
    ensures s == t
  {
    StrictlySortedCardinality(s);
    StrictlySortedCardinality(t);
    assert (set y | y in s) == (set y | y in t);
    if s != [] {
      if s[0] != t[0] {
        assert s[0] in t && t[0] in s;
        assert Less(t[0], s[0]) by {
          var k :| 0 <= k < |t| && t[k] == s[0];
          assert k != 0;
        }
        assert Less(s[0], t[0]) by {
          var k :| 0 <= k < |s| && s[k] == t[0];
          assert k != 0;
        }
        LessAsymmetric(s[0], t[0]);
      }
      StrictlySortedDistinct(s);
      StrictlySortedDistinct(t);
      forall y ensures y in s[1..] <==> y in t[1..] {
        if y in s[1..] {
          var k :| 1 <= k < |s| && s[k] == y;
          assert y in s;
          var m :| 0 <= m < |t| && t[m] == y;
          assert m != 0;
          assert t[1..][m - 1] == y;
        }
        if y in t[1..] {
          var k :| 1 <= k < |t| && t[k] == y;
          assert y in t;
          var m :| 0 <= m < |s| && s[m] == y;
          assert m != 0;
          assert s[1..][m - 1] == y;
        }
      }
      StrictlySortedUnique(s[1..], t[1..]);
      assert s == [s[0]] + s[1..] && t == [t[0]] + t[1..];
    }
  }
}
