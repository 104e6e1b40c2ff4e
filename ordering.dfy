/** Python's ordering of `str` values and `sorted` applied to a set of
    strings. */
module Ordering {

  /** `a < b` on Python strings: lexicographic by code point, so a proper
      prefix comes before the longer string. */
  predicate Less(a: string, b: string)
    decreases |a|
  {
    if |a| == 0 then |b| > 0
    else |b| > 0 && (a[0] < b[0] || (a[0] == b[0] && Less(a[1..], b[1..])))
  }

  lemma {:induction false} LessIrreflexive(a: string)
    ensures !Less(a, a)
    decreases |a|
  {
    if |a| > 0 {
      LessIrreflexive(a[1..]);
    }
  }

  lemma {:induction false} LessTransitive(a: string, b: string, c: string)
    requires Less(a, b) && Less(b, c)
    ensures Less(a, c)
    decreases |a|
  {
    if |a| > 0 && a[0] == b[0] && b[0] == c[0] {
      LessTransitive(a[1..], b[1..], c[1..]);
    }
  }

  /** Any two different strings are ordered one way or the other. */
  lemma {:induction false} LessTotal(a: string, b: string)
    ensures a == b || Less(a, b) || Less(b, a)
    decreases |a|
  {
    if |a| > 0 && |b| > 0 && a[0] == b[0] {
      LessTotal(a[1..], b[1..]);
      if a[1..] == b[1..] {
        assert a == [a[0]] + a[1..] && b == [b[0]] + b[1..];
      }
    }
  }

  /** A proper prefix sorts first ("java" before "javascript"). */
  lemma {:induction false} PrefixIsLess(a: string, b: string)
    requires a < b
    ensures Less(a, b)
    decreases |a|
  {
    if |a| > 0 {
      assert a[1..] < b[1..];
      PrefixIsLess(a[1..], b[1..]);
    }
  }

  /** Less is a strict total order. */
  lemma LessIsStrictTotalOrder()
    ensures forall a: string :: !Less(a, a)
    ensures forall a: string, b: string, c: string :: Less(a, b) && Less(b, c) ==> Less(a, c)
    ensures forall a: string, b: string :: a == b || Less(a, b) || Less(b, a)
  {
    forall a: string { LessIrreflexive(a); }
    forall a: string, b: string, c: string | Less(a, b) && Less(b, c) { LessTransitive(a, b, c); }
    forall a: string, b: string { LessTotal(a, b); }
  }

  /** Every element is smaller than every later element: sorted with no
      duplicates. */
  ghost predicate StrictlySorted(s: seq<string>)
  {
    forall i, j :: 0 <= i < j < |s| ==> Less(s[i], s[j])
  }

  /** `set(s)`: the elements of a list. */
  ghost function Elements(s: seq<string>): set<string>
  {
    set x | x in s
  }

  lemma ElementsMembership(s: seq<string>)
    ensures forall x :: x in Elements(s) <==> x in s
  {
  }

  lemma ElementsEmpty(s: seq<string>)
    ensures Elements(s) == {} <==> s == []
  {
    if s != [] {
      assert s[0] in Elements(s);
    }
  }

  /** The least element of a non-empty set of strings. */
  ghost function Least(s: set<string>): (m: string)
    requires s != {}
    ensures m in s
    ensures forall x :: x in s && x != m ==> Less(m, x)
  {
    var x :| x in s;
    if s == {x} then x
    else
      var y := Least(s - {x});
      LeastWith(s, x, y);
      if Less(x, y) then x else y
  }

  /** Adding x to a set whose least element is y gives the smaller of the two
      as the least element. */
  lemma LeastWith(s: set<string>, x: string, y: string)
    requires x in s && y in s - {x}
    requires forall z :: z in s - {x} && z != y ==> Less(y, z)
    ensures var m := if Less(x, y) then x else y;
            forall z :: z in s && z != m ==> Less(m, z)
  {
    if Less(x, y) {
      forall z | z in s && z != x ensures Less(x, z) {
        if z != y { LessTransitive(x, y, z); }
      }
    } else {
      LessTotal(x, y);
    }
  }

  lemma SortedCons(m: string, rest: seq<string>)
    requires StrictlySorted(rest)
    requires forall k :: 0 <= k < |rest| ==> Less(m, rest[k])
    ensures StrictlySorted([m] + rest)
  {
    var r := [m] + rest;
    forall i, j | 0 <= i < j < |r| ensures Less(r[i], r[j]) {
      if i == 0 { assert r[j] == rest[j - 1]; }
      else { assert r[i] == rest[i - 1] && r[j] == rest[j - 1]; }
    }
  }

  /** `sorted(s)` for a set of strings: its elements in increasing order,
      each exactly once. */
  ghost function SortedOf(s: set<string>): (r: seq<string>)
    ensures StrictlySorted(r)
    ensures Elements(r) == s
    ensures |r| == |s|
  {
    if s == {} then []
    else
      var m := Least(s);
      var rest := SortedOf(s - {m});
      SortedOfStep(s, m, rest);
      [m] + rest
  }

  /** Putting the least element in front of the sorted rest. */
  lemma SortedOfStep(s: set<string>, m: string, rest: seq<string>)
    requires m in s && forall x :: x in s && x != m ==> Less(m, x)
    requires StrictlySorted(rest) && Elements(rest) == s - {m} && |rest| == |s - {m}|
    ensures StrictlySorted([m] + rest)
    ensures Elements([m] + rest) == s
    ensures |[m] + rest| == |s|
  {
    assert forall k :: 0 <= k < |rest| ==> rest[k] in s - {m};
    assert Elements([m] + rest) == {m} + Elements(rest);
    assert |s - {m}| == |s| - 1;
    SortedCons(m, rest);
  }

  /** A strictly sorted list is determined by its set of elements. */
  lemma {:induction false} SortedUnique(a: seq<string>, b: seq<string>)
    requires StrictlySorted(a) && StrictlySorted(b)
    requires Elements(a) == Elements(b)
    ensures a == b
    decreases |a|
  {
    LessIsStrictTotalOrder();
    if a != [] {
      assert a[0] in Elements(b);
      assert b != [];
      assert b[0] in Elements(a);
      var i :| 0 <= i < |a| && a[i] == b[0];
      var j :| 0 <= j < |b| && b[j] == a[0];
      assert a[0] == b[0];
      assert Elements(a[1..]) == Elements(a) - {a[0]} by {
        forall x | x in a[1..] ensures x != a[0] {
          var k :| 0 <= k < |a[1..]| && a[1..][k] == x;
          assert Less(a[0], a[k + 1]);
        }
        assert a == [a[0]] + a[1..];
      }
      assert Elements(b[1..]) == Elements(b) - {b[0]} by {
        forall x | x in b[1..] ensures x != b[0] {
          var k :| 0 <= k < |b[1..]| && b[1..][k] == x;
          assert Less(b[0], b[k + 1]);
        }
        assert b == [b[0]] + b[1..];
      }
      SortedUnique(a[1..], b[1..]);
      assert a == [a[0]] + a[1..] && b == [b[0]] + b[1..];
    } else {
      ElementsEmpty(b);
    }
  }

  /** Sorting the elements of an already sorted, duplicate-free list gives
      that list back. */
  lemma SortedOfSorted(s: seq<string>)
    requires StrictlySorted(s)
    ensures SortedOf(Elements(s)) == s
  {
    SortedUnique(SortedOf(Elements(s)), s);
  }
}
