/**
 * `sorted(set(xs))` on strings: Python orders strings by comparing code points
 * from the left, a proper prefix coming first.
 */
module Sorting {
  import opened Strings

  /** `a < b` on Python strings. */
  predicate Less(a: string, b: string)
    decreases |a|
  {
    if a == [] then b != []
    else if b == [] then false
    else if a[0] != b[0] then a[0] < b[0]
    else Less(a[1..], b[1..])
  }

  lemma {:induction false} LessIrreflexive(a: string)
    ensures !Less(a, a)
    decreases |a|
  {
    if a != [] {
      LessIrreflexive(a[1..]);
    }
  }

  lemma {:induction false} LessTransitive(a: string, b: string, c: string)
    requires Less(a, b) && Less(b, c)
    ensures Less(a, c)
    decreases |a|
  {
    if a != [] && a[0] == b[0] && b[0] == c[0] {
      LessTransitive(a[1..], b[1..], c[1..]);
    }
  }

  /** Any two different strings are ordered one way or the other. */
  lemma {:induction false} LessTotal(a: string, b: string)
    requires a != b
    ensures Less(a, b) || Less(b, a)
    decreases |a|
  {
    if a != [] && b != [] && a[0] == b[0] {
      assert a == [a[0]] + a[1..] && b == [b[0]] + b[1..];
      LessTotal(a[1..], b[1..]);
    }
  }

  /** Strictly increasing, hence free of duplicates. */
  predicate StrictlySorted(xs: seq<string>)
  {
    forall i, j :: 0 <= i < j < |xs| ==> Less(xs[i], xs[j])
  }

  /** `x` put in its place in a strictly sorted sequence, unless already there. */
  function Insert(xs: seq<string>, x: string): (r: seq<string>)
    requires StrictlySorted(xs)
    ensures StrictlySorted(r)
    ensures forall y :: y in r <==> y in xs || y == x
  {
    if xs == [] then [x]
    else if x == xs[0] then xs
    else if Less(x, xs[0]) then
      forall j | 0 < j < |xs| ensures Less(x, xs[j]) {
        LessTransitive(x, xs[0], xs[j]);
      }
      [x] + xs
    else
      LessTotal(x, xs[0]);
      var rest := Insert(xs[1..], x);
      assert forall y :: y in xs <==> y == xs[0] || y in xs[1..];
      assert forall k :: 0 <= k < |rest| ==> Less(xs[0], rest[k]) by {
        forall k | 0 <= k < |rest| ensures Less(xs[0], rest[k]) {
          assert rest[k] in xs[1..] || rest[k] == x;
          if rest[k] in xs[1..] {
            var i :| 0 <= i < |xs[1..]| && xs[1..][i] == rest[k];
            assert xs[1 + i] == rest[k];
          }
        }
      }
      [xs[0]] + rest
  }

  /** `sorted(set(xs))`. */
  function SortedUnique(xs: seq<string>): (r: seq<string>)
    ensures StrictlySorted(r)
    ensures forall y :: y in r <==> y in xs
  {
    if xs == [] then []
    else
      var prev := SortedUnique(xs[..|xs| - 1]);
      assert forall y :: y in xs <==> y in xs[..|xs| - 1] || y == xs[|xs| - 1];
      Insert(prev, xs[|xs| - 1])
  }

  /** A strictly sorted sequence holds each string once. */
  lemma SortedIsDistinct(xs: seq<string>)
    requires StrictlySorted(xs)
    ensures Distinct(xs)
  {
    forall a, b | 0 <= a < b < |xs| ensures xs[a] != xs[b] {
      LessIrreflexive(xs[a]);
    }
  }

  lemma SameElementsBothEmpty(xs: seq<string>, ys: seq<string>)
    requires forall y :: y in xs <==> y in ys
    ensures xs == [] <==> ys == []
  {
    if xs != [] {
      assert xs[0] in xs;
    }
    if ys != [] {
      assert ys[0] in ys;
    }
  }

  /** Two strictly sorted sequences with the same elements are the same sequence. */
  lemma {:induction false} SortedUniqueness(xs: seq<string>, ys: seq<string>)
    requires StrictlySorted(xs) && StrictlySorted(ys)
    requires forall y :: y in xs <==> y in ys
    ensures xs == ys
    decreases |xs|
  {
    SameElementsBothEmpty(xs, ys);
    if xs != [] {
      if xs[0] != ys[0] {
        assert xs[0] in xs && ys[0] in ys;
        var i :| 0 <= i < |ys| && ys[i] == xs[0];
        var j :| 0 <= j < |xs| && xs[j] == ys[0];
        assert i > 0 && j > 0;
        LessTransitive(xs[0], xs[j], ys[i]);
        LessIrreflexive(xs[0]);
      }
      forall y ensures y in xs[1..] <==> y in ys[1..] {
        if y in xs[1..] {
          var k :| 0 <= k < |xs[1..]| && xs[1..][k] == y;
          assert Less(xs[0], xs[k + 1]);
          LessIrreflexive(y);
          assert y in ys;
        }
        if y in ys[1..] {
          var k :| 0 <= k < |ys[1..]| && ys[1..][k] == y;
          assert Less(ys[0], ys[k + 1]);
          LessIrreflexive(y);
          assert y in xs;
        }
      }
      SortedUniqueness(xs[1..], ys[1..]);
    }
  }
}
