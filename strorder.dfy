/**
 * Python's ordering of `str` values (lexicographic by code point) and `sorted()`
 * applied to a set of strings.
 */
module StrOrder {

  /** `a < b` on Python strings. */
  predicate Below(a: string, b: string)
    decreases |a|
  {
    |b| > 0 && (|a| == 0 || a[0] < b[0] || (a[0] == b[0] && Below(a[1..], b[1..])))
  }

  lemma {:induction false} BelowIrreflexive(a: string)
    ensures !Below(a, a)
    decreases |a|
  {
    if |a| > 0 {
      BelowIrreflexive(a[1..]);
    }
  }

  lemma {:induction false} BelowTransitive(a: string, b: string, c: string)
    requires Below(a, b) && Below(b, c)
    ensures Below(a, c)
    decreases |a|
  {
    if |a| > 0 && a[0] == b[0] && b[0] == c[0] {
      BelowTransitive(a[1..], b[1..], c[1..]);
    }
  }

  lemma {:induction false} BelowTotal(a: string, b: string)
    ensures a == b || Below(a, b) || Below(b, a)
    decreases |a|
  {
    if |a| > 0 && |b| > 0 && a[0] == b[0] {
      BelowTotal(a[1..], b[1..]);
      if a[1..] == b[1..] {
        assert a == [a[0]] + a[1..] && b == [b[0]] + b[1..];
      }
    }
  }

  /** Nothing sorts before the empty string. */
  lemma NothingBelowEmpty(a: string)
    ensures !Below(a, [])
  {
  }

  /** Strictly increasing, hence free of duplicates: the order in which `sorted(set)` lists a set. */
  predicate StrictlyIncreasing(xs: seq<string>) {
    forall i, j :: 0 <= i < j < |xs| ==> Below(xs[i], xs[j])
  }

  /** `m` is the least element of `s`. */
  predicate IsLeast(m: string, s: set<string>) {
    m in s && forall x :: x in s ==> x == m || Below(m, x)
  }

  lemma {:induction false} LeastExists(s: set<string>)
    requires s != {}
    ensures exists m :: IsLeast(m, s)
    decreases |s|
  {
    var y :| y in s;
    if s == {y} {
      assert IsLeast(y, s);
    } else {
      LeastExists(s - {y});
      var m :| IsLeast(m, s - {y});
      BelowTotal(m, y);
      if Below(y, m) {
        forall x | x in s ensures x == y || Below(y, x) {
          if x != y && x != m { BelowTransitive(y, m, x); }
        }
        assert IsLeast(y, s);
      } else {
        assert IsLeast(m, s);
      }
    }
  }

  lemma LeastUnique(m1: string, m2: string, s: set<string>)
    requires IsLeast(m1, s) && IsLeast(m2, s)
    ensures m1 == m2
  {
    if m1 != m2 {
      assert Below(m1, m2) && Below(m2, m1);
      BelowTransitive(m1, m2, m1);
      BelowIrreflexive(m1);
    }
  }

  lemma LeastUniqueAll(s: set<string>)
    ensures forall m1, m2 :: IsLeast(m1, s) && IsLeast(m2, s) ==> m1 == m2
  {
    forall m1, m2 | IsLeast(m1, s) && IsLeast(m2, s) ensures m1 == m2 {
      LeastUnique(m1, m2, s);
    }
  }

  lemma LeastBelowAll(m: string, s: set<string>, rest: seq<string>)
    requires IsLeast(m, s)
    requires forall x :: x in rest <==> x in s - {m}
    ensures forall j :: 0 <= j < |rest| ==> Below(m, rest[j])
  {
    forall j | 0 <= j < |rest| ensures Below(m, rest[j]) {
      assert rest[j] in rest;
    }
  }

  /** `sorted(s)`: the elements of `s`, each once, in increasing order. */
  function SortedOf(s: set<string>): (r: seq<string>)
    ensures StrictlyIncreasing(r)
    ensures forall x :: x in r <==> x in s
    ensures |r| == |s|
    decreases |s|
  {
    if s == {} then [] else
      LeastExists(s);
      LeastUniqueAll(s);
      var m :| IsLeast(m, s);
      var rest := SortedOf(s - {m});
      LeastBelowAll(m, s, rest);
      [m] + rest
  }

  /** Two strictly increasing sequences with the same elements are equal: the sorted
      listing of a set does not depend on how the set was built. */
  lemma {:induction false} SortedUnique(xs: seq<string>, ys: seq<string>)
    requires StrictlyIncreasing(xs) && StrictlyIncreasing(ys)
    requires forall x :: x in xs <==> x in ys
    ensures xs == ys
    decreases |xs|
  {
    EmptyTogether(xs, ys);
    if xs != [] {
      if xs[0] != ys[0] {
        assert xs[0] in ys;
        var j :| 0 <= j < |ys| && ys[j] == xs[0];
        assert ys[0] in xs;
        var i :| 0 <= i < |xs| && xs[i] == ys[0];
        assert Below(ys[0], xs[0]) && Below(xs[0], ys[0]);
        BelowTransitive(xs[0], ys[0], xs[0]);
        BelowIrreflexive(xs[0]);
      }
      forall x ensures x in xs[1..] <==> x in ys[1..] {
        if x in xs[1..] {
          var i :| 1 <= i < |xs| && xs[i] == x;
          BelowIrreflexive(x);
          assert x != xs[0];
          assert x in ys;
        }
        if x in ys[1..] {
          var j :| 1 <= j < |ys| && ys[j] == x;
          BelowIrreflexive(x);
          assert x != ys[0];
          assert x in xs;
        }
      }
      SortedUnique(xs[1..], ys[1..]);
      assert xs == [xs[0]] + xs[1..] && ys == [ys[0]] + ys[1..];
    }
  }

  lemma EmptyTogether(xs: seq<string>, ys: seq<string>)
    requires forall x :: x in xs <==> x in ys
    ensures xs == [] <==> ys == []
  {
    if xs != [] { assert xs[0] in xs; }
    if ys != [] { assert ys[0] in ys; }
  }

}
