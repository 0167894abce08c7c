/**
  Python's ordering of `str` values (code point by code point, a proper
  prefix first) and `sorted()` applied to a set of strings, as the legacy
  importer uses them for ramo names and giro types.
*/
module Sorting {

  /** Python's `a < b` on strings. */
  predicate Below(a: string, b: string)
    decreases |a|
  {
    |b| > 0 && (|a| == 0 || a[0] < b[0] || (a[0] == b[0] && Below(a[1..], b[1..])))
  }

  lemma {:induction false} BelowIrreflexive(a: string)
    ensures !Below(a, a)
    decreases |a|
  {
    if |a| > 0 {
      BelowIrreflexive(a[1..]);
    }
  }

  lemma {:induction false} BelowTransitive(a: string, b: string, c: string)
    requires Below(a, b) && Below(b, c)
    ensures Below(a, c)
    decreases |a|
  {
    if |a| > 0 && a[0] == b[0] && b[0] == c[0] {
      BelowTransitive(a[1..], b[1..], c[1..]);
    }
  }

  /** Two different strings are ordered one way or the other. */
  lemma {:induction false} BelowTotal(a: string, b: string)
    requires a != b
    ensures Below(a, b) || Below(b, a)
    decreases |a|
  {
    if |a| > 0 && |b| > 0 && a[0] == b[0] {
      assert a == [a[0]] + a[1..] && b == [b[0]] + b[1..];
      BelowTotal(a[1..], b[1..]);
    }
  }

  /** Every element comes before every later one: sorted, and so without repetitions. */
  predicate StrictlySorted(r: seq<string>) {
    forall i, j :: 0 <= i < j < |r| ==> Below(r[i], r[j])
  }

  /** `x` comes before every other element of `s`. */
  predicate IsLeast(s: set<string>, x: string) {
    x in s && forall y :: y in s && y != x ==> Below(x, y)
  }

  /** A non-empty set of strings has a least element. */
  lemma {:induction false} LeastExists(s: set<string>)
    requires s != {}
    ensures exists x :: IsLeast(s, x)
    decreases |s|
  {
    var y :| y in s;
    if s - {y} == {} {
      assert s == {y};
      assert IsLeast(s, y);
    } else {
      LeastExists(s - {y});
      var m :| IsLeast(s - {y}, m);
      BelowTotal(y, m);
      if Below(y, m) {
        forall z | z in s && z != y
          ensures Below(y, z)
        {
          if z != m {
            BelowTransitive(y, m, z);
          }
        }
        assert IsLeast(s, y);
      } else {
        assert IsLeast(s, m);
      }
    }
  }

  /** There is only one least element. */
  lemma LeastUnique(s: set<string>)
    ensures forall x, y :: IsLeast(s, x) && IsLeast(s, y) ==> x == y
  {
    forall x, y | IsLeast(s, x) && IsLeast(s, y)
      ensures x == y
    {
      if x != y {
        BelowTransitive(x, y, x);
        BelowIrreflexive(x);
      }
    }
  }

  /** Python's `sorted(s)` for a set of strings: its elements in increasing order. */
  function SortSet(s: set<string>): (r: seq<string>)
    ensures StrictlySorted(r)
    ensures forall x :: x in r <==> x in s
    decreases |s|
  {
    if s == {} then []
    else
      LeastExists(s);
      LeastUnique(s);
      var x :| IsLeast(s, x);
      var rest := SortSet(s - {x});
      assert forall j :: 0 <= j < |rest| ==> rest[j] in s - {x};
      [x] + rest
  }

  /** A strictly sorted sequence holds no element twice. */
  lemma SortedDistinct(r: seq<string>, i: nat, j: nat)
    requires StrictlySorted(r) && i < |r| && j < |r| && i != j
    ensures r[i] != r[j]
  {
    if i < j {
      BelowIrreflexive(r[i]);
    } else {
      BelowIrreflexive(r[j]);
    }
  }

  /** The first element of a strictly sorted sequence comes before every other element. */
  lemma SortedFirst(r: seq<string>, x: string)
    requires StrictlySorted(r) && x in r && x != r[0]
    ensures Below(r[0], x)
  {
    var k :| 0 <= k < |r| && r[k] == x;
  }

  /** Sequences with the same elements are both empty or neither. */
  lemma SameElementsEmpty(p: seq<string>, q: seq<string>)
    requires forall x :: x in p <==> x in q
    ensures p == [] <==> q == []
  {
    if p != [] {
      assert p[0] in q;
    }
    if q != [] {
      assert q[0] in p;
    }
  }

  /** The sorted sequence of a set is the only strictly sorted sequence of its elements. */
  lemma {:induction false} SortedUnique(p: seq<string>, q: seq<string>)
    requires StrictlySorted(p) && StrictlySorted(q)
    requires forall x :: x in p <==> x in q
    ensures p == q
    decreases |p|
  {
    SameElementsEmpty(p, q);
    if p != [] {
      if p[0] != q[0] {
        SortedFirst(p, q[0]);
        SortedFirst(q, p[0]);
        BelowTransitive(p[0], q[0], p[0]);
        BelowIrreflexive(p[0]);
      }
      forall x
        ensures x in p[1..] <==> x in q[1..]
      {
        if x in p[1..] {
          var k :| 0 <= k < |p| - 1 && p[1..][k] == x;
          SortedDistinct(p, 0, k + 1);
          assert p[k + 1] == x && x in p;
          var m :| 0 <= m < |q| && q[m] == x;
          assert m != 0 && q[1..][m - 1] == x;
        }
        if x in q[1..] {
          var m :| 0 <= m < |q| - 1 && q[1..][m] == x;
          SortedDistinct(q, 0, m + 1);
          assert q[m + 1] == x && x in q;
          var k :| 0 <= k < |p| && p[k] == x;
          assert k != 0 && p[1..][k - 1] == x;
        }
      }
      SortedUnique(p[1..], q[1..]);
      assert p == [p[0]] + p[1..] && q == [q[0]] + q[1..];
    }
  }
}
