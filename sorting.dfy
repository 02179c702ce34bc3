/**
 * Filter-and-sort over in-memory rows: the reference meaning of the
 * `SELECT ... WHERE ... ORDER BY ...` queries of the core. Rows are ordered
 * by an integer key compared lexicographically, as SQL compares the columns
 * of an ORDER BY list one after another.
 */
module Sorting {

  /** `a` comes no later than `b` in lexicographic order. */
  predicate LexLe(a: seq<int>, b: seq<int>)
  {
    |a| == 0 || (|b| > 0 && (a[0] < b[0] || (a[0] == b[0] && LexLe(a[1..], b[1..]))))
  }

  /** `a` comes strictly before `b`. */
  predicate LexLt(a: seq<int>, b: seq<int>)
  {
    LexLe(a, b) && a != b
  }

  lemma {:induction false} LexLeReflexive(a: seq<int>)
    ensures LexLe(a, a)
  {
    if |a| > 0 {
      LexLeReflexive(a[1..]);
    }
  }

  lemma {:induction false} LexLeTotal(a: seq<int>, b: seq<int>)
    ensures LexLe(a, b) || LexLe(b, a)
  {
    if |a| > 0 && |b| > 0 && a[0] == b[0] {
      LexLeTotal(a[1..], b[1..]);
    }
  }

  lemma {:induction false} LexLeTransitive(a: seq<int>, b: seq<int>, c: seq<int>)
    requires LexLe(a, b) && LexLe(b, c)
    ensures LexLe(a, c)
  {
    if |a| > 0 && |b| > 0 && |c| > 0 && a[0] == b[0] == c[0] {
      LexLeTransitive(a[1..], b[1..], c[1..]);
    }
  }

  lemma {:induction false} LexLeAntisymmetric(a: seq<int>, b: seq<int>)
    requires LexLe(a, b) && LexLe(b, a)
    ensures a == b
  {
    if |a| > 0 && |b| > 0 {
      LexLeAntisymmetric(a[1..], b[1..]);
      assert a == [a[0]] + a[1..] && b == [b[0]] + b[1..];
    }
  }

  /** Every earlier row has a key no greater than every later row. */
  ghost predicate SortedBy<T>(s: seq<T>, key: T -> seq<int>)
  {
    forall i, j :: 0 <= i < j < |s| ==> LexLe(key(s[i]), key(s[j]))
  }

  /** Every earlier row has a key strictly smaller than every later row. */
  ghost predicate StrictlySortedBy<T>(s: seq<T>, key: T -> seq<int>)
  {
    forall i, j :: 0 <= i < j < |s| ==> LexLt(key(s[i]), key(s[j]))
  }

  /** No row occurs twice. */
  ghost predicate NoDuplicates<T(!new)>(s: seq<T>)
  {
    forall x :: multiset(s)[x] <= 1
  }

  /** Two rows of `s` with the same key are the same row. */
  ghost predicate KeyDetermines<T>(s: seq<T>, key: T -> seq<int>)
  {
    forall x, y :: x in s && y in s && key(x) == key(y) ==> x == y
  }

  /** The rows that satisfy `p`, in their original order (a SQL WHERE clause). */
  function Filter<T(!new)>(s: seq<T>, p: T -> bool): (r: seq<T>)
    ensures forall x :: multiset(r)[x] == if p(x) then multiset(s)[x] else 0
    ensures |r| <= |s|
  {
    if s == [] then []
    else
      assert s == [s[0]] + s[1..];
      (if p(s[0]) then [s[0]] else []) + Filter(s[1..], p)
  }

  /** Filtering by a stronger condition never yields more rows. */
  lemma {:induction false} FilterMonotone<T(!new)>(s: seq<T>, p: T -> bool, q: T -> bool)
    requires forall x :: p(x) ==> q(x)
    ensures |Filter(s, p)| <= |Filter(s, q)|
  {
    if s != [] {
      FilterMonotone(s[1..], p, q);
    }
  }

  /** Inserts `x` before the first row whose key is not smaller than its own. */
  function InsertBy<T>(x: T, s: seq<T>, key: T -> seq<int>): (r: seq<T>)
    ensures multiset(r) == multiset(s) + multiset{x}
  {
    if s == [] then [x]
    else if LexLe(key(x), key(s[0])) then [x] + s
    else
      assert s == [s[0]] + s[1..];
      [s[0]] + InsertBy(x, s[1..], key)
  }

  /** Insertion sort: the reference meaning of ORDER BY. */
  function SortBy<T>(s: seq<T>, key: T -> seq<int>): (r: seq<T>)
    ensures multiset(r) == multiset(s)
  {
    if s == [] then []
    else
      assert s == [s[0]] + s[1..];
      InsertBy(s[0], SortBy(s[1..], key), key)
  }

  lemma {:induction false} InsertBySorted<T>(x: T, s: seq<T>, key: T -> seq<int>)
    requires SortedBy(s, key)
    ensures SortedBy(InsertBy(x, s, key), key)
  {
    if s == [] {
    } else if LexLe(key(x), key(s[0])) {
      forall j | 0 < j < |s|
        ensures LexLe(key(x), key(s[j]))
      {
        LexLeTransitive(key(x), key(s[0]), key(s[j]));
      }
    } else {
      LexLeTotal(key(x), key(s[0]));
      var t := InsertBy(x, s[1..], key);
      InsertBySorted(x, s[1..], key);
      forall y | y in t
        ensures LexLe(key(s[0]), key(y))
      {
        assert y in multiset(t);
        if y != x {
          assert y in multiset(s[1..]);
          var j :| 0 <= j < |s[1..]| && s[1..][j] == y;
          assert s[1 + j] == y;
        }
      }
      var r := [s[0]] + t;
      forall i, j | 0 <= i < j < |r|
        ensures LexLe(key(r[i]), key(r[j]))
      {
        if i == 0 {
          assert r[j] == t[j - 1];
          assert r[j] in t;
        } else {
          assert r[i] == t[i - 1] && r[j] == t[j - 1];
        }
      }
    }
  }

  lemma {:induction false} SortBySorted<T>(s: seq<T>, key: T -> seq<int>)
    ensures SortedBy(SortBy(s, key), key)
  {
    if s != [] {
      SortBySorted(s[1..], key);
      InsertBySorted(s[0], SortBy(s[1..], key), key);
    }
  }

  /** A value that appears at two positions occurs at least twice. */
  lemma TwoPositions<T>(s: seq<T>, i: int, j: int)
    requires 0 <= i < j < |s| && s[i] == s[j]
    ensures multiset(s)[s[i]] >= 2
  {
    assert s == s[..j] + [s[j]] + s[j + 1..];
    assert s[..j][i] == s[i];
    assert s[i] in multiset(s[..j]);
  }

  /**
   * Sorting rows that are pairwise distinct and distinguished by their keys
   * yields a strictly ascending sequence.
   */
  lemma SortByStrict<T(!new)>(s: seq<T>, key: T -> seq<int>)
    requires NoDuplicates(s) && KeyDetermines(s, key)
    ensures StrictlySortedBy(SortBy(s, key), key)
  {
    var r := SortBy(s, key);
    SortBySorted(s, key);
    forall i, j | 0 <= i < j < |r|
      ensures LexLt(key(r[i]), key(r[j]))
    {
      assert r[i] in multiset(r) && r[j] in multiset(r);
      if key(r[i]) == key(r[j]) {
        assert r[i] == r[j];
        TwoPositions(r, i, j);
        assert false;
      }
    }
  }

  lemma StrictTail<T>(a: seq<T>, key: T -> seq<int>)
    requires StrictlySortedBy(a, key) && a != []
    ensures StrictlySortedBy(a[1..], key)
  {
    forall i, j | 0 <= i < j < |a[1..]|
      ensures LexLt(key(a[1..][i]), key(a[1..][j]))
    {
      assert a[1..][i] == a[i + 1] && a[1..][j] == a[j + 1];
    }
  }

  lemma HeadIsLeast<T>(a: seq<T>, key: T -> seq<int>, x: T)
    requires StrictlySortedBy(a, key) && x in a && x != a[0]
    ensures LexLt(key(a[0]), key(x))
  {
    var j :| 0 <= j < |a| && a[j] == x;
  }

  /**
   * Strict ascent fixes the order completely: two strictly ascending
   * arrangements of the same rows are the same sequence. So SortBy is the only
   * result an ORDER BY over distinct keys can give.
   */
  lemma {:induction false} StrictlySortedUnique<T>(a: seq<T>, b: seq<T>, key: T -> seq<int>)
    requires StrictlySortedBy(a, key) && StrictlySortedBy(b, key)
    requires multiset(a) == multiset(b)
    ensures a == b
  {
    if a == [] || b == [] {
      assert |multiset(a)| == |a| && |multiset(b)| == |b|;
    } else {
      SameHead(a, b, key);
      SameTail(a, b);
      StrictTail(a, key);
      StrictTail(b, key);
      StrictlySortedUnique(a[1..], b[1..], key);
      assert a == [a[0]] + a[1..] && b == [b[0]] + b[1..];
    }
  }

  /** Two strictly ascending arrangements of the same rows start with the same row. */
  lemma SameHead<T>(a: seq<T>, b: seq<T>, key: T -> seq<int>)
    requires StrictlySortedBy(a, key) && StrictlySortedBy(b, key)
    requires multiset(a) == multiset(b) && a != [] && b != []
    ensures a[0] == b[0]
  {
    assert a[0] in multiset(b) && b[0] in multiset(a);
    if a[0] != b[0] {
      HeadIsLeast(a, key, b[0]);
      HeadIsLeast(b, key, a[0]);
      LexLeAntisymmetric(key(a[0]), key(b[0]));
      assert false;
    }
  }

  /** Removing the same first row from two arrangements of the same rows leaves the same rows. */
  lemma SameTail<T>(a: seq<T>, b: seq<T>)
    requires multiset(a) == multiset(b) && a != [] && b != [] && a[0] == b[0]
    ensures multiset(a[1..]) == multiset(b[1..])
  {
    assert a == [a[0]] + a[1..] && b == [b[0]] + b[1..];
    assert multiset(a) == multiset{a[0]} + multiset(a[1..]);
    assert multiset(b) == multiset{a[0]} + multiset(b[1..]);
    assert multiset(a[1..]) == multiset(a) - multiset{a[0]} == multiset(b[1..]);
  }

  /** `s` has no two positions with equal `id`. */
  ghost predicate UniqueBy<T>(s: seq<T>, id: T -> int)
  {
    forall i, j :: 0 <= i < j < |s| ==> id(s[i]) != id(s[j])
  }

  /** Distinct identifiers at every position rule out a duplicated row. */
  lemma {:induction false} UniqueByNoDuplicates<T(!new)>(s: seq<T>, id: T -> int)
    requires UniqueBy(s, id)
    ensures NoDuplicates(s)
  {
    if s != [] {
      assert UniqueBy(s[1..], id) by {
        forall i, j | 0 <= i < j < |s[1..]|
          ensures id(s[1..][i]) != id(s[1..][j])
        {
          assert s[1..][i] == s[i + 1] && s[1..][j] == s[j + 1];
        }
      }
      UniqueByNoDuplicates(s[1..], id);
      assert s == [s[0]] + s[1..];
      forall k | 0 <= k < |s[1..]|
        ensures s[1..][k] != s[0]
      {
        assert s[1..][k] == s[k + 1];
      }
      forall x
        ensures multiset(s)[x] <= 1
      {
        assert multiset(s)[x] == multiset([s[0]])[x] + multiset(s[1..])[x];
      }
    }
  }
}
