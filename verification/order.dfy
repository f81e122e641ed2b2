/**
 Orders used to sort table keys. Lua's `table.sort` without a comparator uses
 the `<` operator, which orders two numbers numerically and two strings by
 `strcoll`; under the C locale that is the byte-wise lexicographic order
 modelled by `StrLess`. Sorting a finite set is modelled by repeatedly taking
 its least element, which makes the result depend only on the set.
 */
module Order {

  /** Lexicographic order on strings, character code by character code. */
  predicate StrLess(a: string, b: string)
    decreases |a|
  {
    if |a| == 0 then |b| > 0
    else if |b| == 0 then false
    else if a[0] == b[0] then StrLess(a[1..], b[1..])
    else a[0] < b[0]
  }

  lemma {:induction false} StrLessIrreflexive(a: string)
    ensures !StrLess(a, a)
    decreases |a|
  {
    if |a| > 0 {
      StrLessIrreflexive(a[1..]);
    }
  }

  lemma {:induction false} StrLessTransitive(a: string, b: string, c: string)
    requires StrLess(a, b) && StrLess(b, c)
    ensures StrLess(a, c)
    decreases |a|
  {
    if |a| > 0 && a[0] == b[0] && b[0] == c[0] {
      StrLessTransitive(a[1..], b[1..], c[1..]);
    }
  }

  lemma {:induction false} StrLessTotal(a: string, b: string)
    requires a != b
    ensures StrLess(a, b) || StrLess(b, a)
    decreases |a|
  {
    if |a| > 0 && |b| > 0 && a[0] == b[0] {
      assert a == [a[0]] + a[1..] && b == [b[0]] + b[1..];
      StrLessTotal(a[1..], b[1..]);
    }
  }

  /** `less` is a strict total order on the elements of `s`. */
  ghost predicate StrictTotalOn<T>(s: set<T>, less: (T, T) -> bool) {
    && (forall a | a in s :: !less(a, a))
    && (forall a, b, c | a in s && b in s && c in s :: less(a, b) && less(b, c) ==> less(a, c))
    && (forall a, b | a in s && b in s && a != b :: less(a, b) || less(b, a))
  }

  /** `m` is the least element of `s`. */
  predicate IsLeast<T(==)>(m: T, s: set<T>, less: (T, T) -> bool) {
    m in s && forall x | x in s && x != m :: less(m, x)
  }

  /** Every element is below every later one; with an irreflexive `less` this also means no repeats. */
  ghost predicate Increasing<T>(xs: seq<T>, less: (T, T) -> bool) {
    forall i, j | 0 <= i < j < |xs| :: less(xs[i], xs[j])
  }

  lemma {:induction false} LeastExists<T>(s: set<T>, less: (T, T) -> bool)
    requires s != {} && StrictTotalOn(s, less)
    ensures exists m :: IsLeast(m, s, less)
    decreases |s|
  {
    var x :| x in s;
    if s == {x} {
      assert IsLeast(x, s, less);
    } else {
      var rest := s - {x};
      LeastExists(rest, less);
      var m :| IsLeast(m, rest, less);
      if less(x, m) {
        assert IsLeast(x, s, less);
      } else {
        assert IsLeast(m, s, less);
      }
    }
  }

  lemma LeastUnique<T>(s: set<T>, less: (T, T) -> bool)
    requires StrictTotalOn(s, less)
    ensures forall m, n | IsLeast(m, s, less) && IsLeast(n, s, less) :: m == n
  {
  }

  /**
   The elements of `s` in increasing order, as `table.sort` leaves the
   collected keys. Taking the least element each time makes the result a
   function of the set alone.
   */
  function SortSet<T(==)>(s: set<T>, less: (T, T) -> bool): (r: seq<T>)
    requires StrictTotalOn(s, less)
    ensures |r| == |s|
    ensures forall x | x in s :: x in r
    ensures forall i | 0 <= i < |r| :: r[i] in s
    ensures Increasing(r, less)
    decreases |s|
  {
    if s == {} then []
    else
      LeastExists(s, less);
      LeastUnique(s, less);
      var m :| IsLeast(m, s, less);
      [m] + SortSet(s - {m}, less)
  }

  /** Two increasing sequences with the same elements are the same sequence. */
  lemma {:induction false} IncreasingUnique<T>(xs: seq<T>, ys: seq<T>, less: (T, T) -> bool)
    requires StrictTotalOn((set x | x in xs), less)
    requires forall x :: x in xs <==> x in ys
    requires Increasing(xs, less) && Increasing(ys, less)
    ensures xs == ys
    decreases |xs|
  {
    if xs == [] {
      assert forall i | 0 <= i < |ys| :: ys[i] in ys;
    } else {
      assert ys != [] by { assert xs[0] in ys; }
      var s := set x | x in xs;
      assert IsLeast(xs[0], s, less) by {
        forall x | x in s && x != xs[0] ensures less(xs[0], x) {
          var i :| 0 <= i < |xs| && xs[i] == x;
        }
      }
      assert IsLeast(ys[0], s, less) by {
        assert ys[0] in xs;
        forall x | x in s && x != ys[0] ensures less(ys[0], x) {
          assert x in ys;
          var i :| 0 <= i < |ys| && ys[i] == x;
        }
      }
      LeastUnique(s, less);
      forall x
        ensures x in xs[1..] <==> x in ys[1..]
      {
        if x in xs[1..] {
          var i :| 1 <= i < |xs| && xs[i] == x;
          assert less(xs[0], x);
          assert x != xs[0];
          assert x in ys;
        }
        if x in ys[1..] {
          var i :| 1 <= i < |ys| && ys[i] == x;
          assert less(ys[0], x);
          assert x != ys[0];
          assert x in xs;
        }
      }
      assert (set x | x in xs[1..]) <= (set x | x in xs);
      IncreasingUnique(xs[1..], ys[1..], less);
      assert xs == [xs[0]] + xs[1..] && ys == [ys[0]] + ys[1..];
    }
  }

  /** `StrLess` is a strict total order on any set of strings. */
  lemma StrLessStrictTotal(s: set<string>)
    ensures StrictTotalOn(s, StrLess)
  {
    forall a | a in s ensures !StrLess(a, a) {
      StrLessIrreflexive(a);
    }
    forall a, b, c | a in s && b in s && c in s && StrLess(a, b) && StrLess(b, c)
      ensures StrLess(a, c)
    {
      StrLessTransitive(a, b, c);
    }
    forall a, b | a in s && b in s && a != b
      ensures StrLess(a, b) || StrLess(b, a)
    {
      StrLessTotal(a, b);
    }
  }

  /** The numeric order on integers, as a first-class function. */
  predicate IntLess(a: int, b: int) {
    a < b
  }

  lemma IntLessStrictTotal(s: set<int>)
    ensures StrictTotalOn(s, IntLess)
  {
  }
}
