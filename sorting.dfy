/** Python's `sorted` over distinct values, for a strict total order given as a function. */
module Sorting {

  /** The elements of a sequence, as a set. */
  function Elems<T>(s: seq<T>): set<T>
  {
    set x | x in s
  }

  lemma ElemsConcat<T>(a: seq<T>, b: seq<T>)
    ensures Elems(a + b) == Elems(a) + Elems(b)
  {
    forall x | x in Elems(a + b) ensures x in Elems(a) + Elems(b) {
      var i :| 0 <= i < |a + b| && (a + b)[i] == x;
      if i >= |a| { assert b[i - |a|] == x; }
    }
    forall x | x in Elems(a) + Elems(b) ensures x in Elems(a + b) {
      if x in Elems(a) {
        var i :| 0 <= i < |a| && a[i] == x;
        assert (a + b)[i] == x;
      } else {
        var i :| 0 <= i < |b| && b[i] == x;
        assert (a + b)[|a| + i] == x;
      }
    }
  }

  /** No element occurs twice. */
  predicate NoDup<T(==)>(s: seq<T>)
  {
    forall i, j :: 0 <= i < j < |s| ==> s[i] != s[j]
  }

  ghost predicate StrictTotal<T(!new)>(less: (T, T) -> bool)
  {
    && (forall a :: !less(a, a))
    && (forall a, b, c :: less(a, b) && less(b, c) ==> less(a, c))
    && (forall a, b :: a != b ==> less(a, b) || less(b, a))
  }

  /** Every element is below every later one, so no element repeats. */
  ghost predicate StrictlySorted<T>(s: seq<T>, less: (T, T) -> bool)
  {
    forall i, j :: 0 <= i < j < |s| ==> less(s[i], s[j])
  }

  /** Python's string comparison: lexicographic on code points, a proper prefix first. */
  function StrLess(a: string, b: string): bool
  {
    if |a| == 0 then |b| > 0
    else if |b| == 0 then false
    else if a[0] != b[0] then a[0] < b[0]
    else StrLess(a[1..], b[1..])
  }

  /** Inserts x into s unless it is there already. */
  function InsertUnique<T(==)>(x: T, s: seq<T>, less: (T, T) -> bool): (r: seq<T>)
    ensures Elems(r) == Elems(s) + {x}
  {
    if s == [] then [x]
    else if less(x, s[0]) then [x] + s
    else if x == s[0] then s
    else
      var r := InsertUnique(x, s[1..], less);
      ElemsConcat([s[0]], r);
      ElemsConcat([s[0]], s[1..]);
      assert s == [s[0]] + s[1..];
      [s[0]] + r
  }

  /** `sorted(set(s))` */
  function SortUnique<T(==)>(s: seq<T>, less: (T, T) -> bool): (r: seq<T>)
    ensures Elems(r) == Elems(s)
  {
    if s == [] then [] else InsertUnique(s[0], SortUnique(s[1..], less), less)
  }

  lemma {:induction false} InsertUniqueSorted<T(!new)>(x: T, s: seq<T>, less: (T, T) -> bool)
    requires StrictTotal(less) && StrictlySorted(s, less)
    ensures StrictlySorted(InsertUnique(x, s, less), less)
  {
    if s != [] && !less(x, s[0]) && x != s[0] {
      InsertUniqueSorted(x, s[1..], less);
      var r := InsertUnique(x, s[1..], less);
      assert less(s[0], x);
      forall k | 0 <= k < |r| ensures less(s[0], r[k]) {
        assert r[k] in Elems(r);
        if r[k] != x {
          var i :| 0 <= i < |s[1..]| && s[1..][i] == r[k];
          assert s[1..][i] == s[i + 1];
        }
      }
    }
  }

  /** Sorting yields a strictly ascending sequence of the distinct input values. */
  lemma {:induction false} SortUniqueSorted<T(!new)>(s: seq<T>, less: (T, T) -> bool)
    requires StrictTotal(less)
    ensures StrictlySorted(SortUnique(s, less), less)
    ensures NoDup(SortUnique(s, less))
  {
    if s != [] {
      SortUniqueSorted(s[1..], less);
      InsertUniqueSorted(s[0], SortUnique(s[1..], less), less);
    }
    StrictlySortedNoDup(SortUnique(s, less), less);
  }

  /** Sorting a strictly ascending sequence leaves it as it is. */
  lemma {:induction false} SortUniqueOfSorted<T(!new)>(s: seq<T>, less: (T, T) -> bool)
    requires StrictlySorted(s, less)
    ensures SortUnique(s, less) == s
  {
    if s != [] {
      SortUniqueOfSorted(s[1..], less);
      if |s| > 1 {
        assert less(s[0], s[1]);
        assert [s[0]] + s[1..] == s;
      }
    }
  }

  lemma StrictlySortedNoDup<T(!new)>(s: seq<T>, less: (T, T) -> bool)
    requires StrictTotal(less) && StrictlySorted(s, less)
    ensures NoDup(s)
  {
  }

  lemma {:induction false} StrLessIrreflexive(a: string)
    ensures !StrLess(a, a)
  {
    if |a| > 0 { StrLessIrreflexive(a[1..]); }
  }

  lemma {:induction false} StrLessTransitive(a: string, b: string, c: string)
    requires StrLess(a, b) && StrLess(b, c)
    ensures StrLess(a, c)
  {
    if |a| > 0 && a[0] == b[0] && b[0] == c[0] {
      StrLessTransitive(a[1..], b[1..], c[1..]);
    }
  }

  lemma {:induction false} StrLessConnected(a: string, b: string)
    requires a != b
    ensures StrLess(a, b) || StrLess(b, a)
  {
    if |a| > 0 && |b| > 0 && a[0] == b[0] {
      assert a == [a[0]] + a[1..] && b == [b[0]] + b[1..];
      StrLessConnected(a[1..], b[1..]);
    }
  }

  /** Python's string order is a strict total order. */
  lemma StrLessIsStrictTotal()
    ensures StrictTotal(StrLess)
  {
    forall a ensures !StrLess(a, a) { StrLessIrreflexive(a); }
    forall a, b, c | StrLess(a, b) && StrLess(b, c) ensures StrLess(a, c) {
      StrLessTransitive(a, b, c);
    }
    forall a, b | a != b ensures StrLess(a, b) || StrLess(b, a) { StrLessConnected(a, b); }
  }

  /**
   * Every element of `x` occurs in `y`, and elements at positions a < b of `x`
   * occur at positions i < j of `y`: `x` keeps the relative order of `y`.
   */
  ghost predicate InOrderOf<T>(x: seq<T>, y: seq<T>)
  {
    && (forall a :: 0 <= a < |x| ==> x[a] in y)
    && (forall a, b :: 0 <= a < b < |x| ==> Before(y, x[a], x[b]))
  }

  /** `u` occurs in `y` at an earlier position than `v`. */
  ghost predicate Before<T>(y: seq<T>, u: T, v: T)
  {
    exists i, j :: 0 <= i < j < |y| && y[i] == u && y[j] == v
  }

  /** Dropping the head of `y` keeps `x` in the order of what is left prepended with it. */
  lemma InOrderSkip<T>(x: seq<T>, y: seq<T>, h: T)
    requires InOrderOf(x, y)
    ensures InOrderOf(x, [h] + y)
  {
    var y' := [h] + y;
    forall a | 0 <= a < |x| ensures x[a] in y' {
      assert x[a] in y;
      var i :| 0 <= i < |y| && y[i] == x[a];
      assert y'[i + 1] == x[a];
    }
    forall a, b | 0 <= a < b < |x|
      ensures Before(y', x[a], x[b])
    {
      assert Before(y, x[a], x[b]);
      var i, j :| 0 <= i < j < |y| && y[i] == x[a] && y[j] == x[b];
      assert y'[i + 1] == x[a] && y'[j + 1] == x[b];
    }
  }

  /** Keeping the head of `y` in front of `x` keeps the order. */
  lemma InOrderKeep<T>(x: seq<T>, y: seq<T>, h: T)
    requires InOrderOf(x, y)
    ensures InOrderOf([h] + x, [h] + y)
  {
    var x', y' := [h] + x, [h] + y;
    InOrderSkip(x, y, h);
    forall a, b | 0 <= a < b < |x'|
      ensures Before(y', x'[a], x'[b])
    {
      if a == 0 {
        assert x[b - 1] in y;
        var j :| 0 <= j < |y| && y[j] == x[b - 1];
        assert y'[0] == x'[a] && y'[j + 1] == x'[b];
      } else {
        assert x'[a] == x[a - 1] && x'[b] == x[b - 1];
        assert Before(y, x[a - 1], x[b - 1]);
        var i, j :| 0 <= i < j < |y| && y[i] == x[a - 1] && y[j] == x[b - 1];
        assert y'[i + 1] == x'[a] && y'[j + 1] == x'[b];
      }
    }
  }

  /** Keeping the relative order is transitive. */
  lemma InOrderTrans<T>(x: seq<T>, y: seq<T>, z: seq<T>)
    requires InOrderOf(x, y) && InOrderOf(y, z)
    ensures InOrderOf(x, z)
  {
    forall a | 0 <= a < |x| ensures x[a] in z {
      assert x[a] in y;
      var i :| 0 <= i < |y| && y[i] == x[a];
      assert y[i] in z;
    }
    forall a, b | 0 <= a < b < |x|
      ensures Before(z, x[a], x[b])
    {
      assert Before(y, x[a], x[b]);
      var i, j :| 0 <= i < j < |y| && y[i] == x[a] && y[j] == x[b];
      assert Before(z, y[i], y[j]);
    }
  }
}
