/**
 * The two pandas idioms the cleaning, encoding and scoring steps rely on:
 * `sort_values` (here a stable insertion sort under a total preorder) and
 * `drop_duplicates(keep="first")`, plus the lexicographic order of Python
 * strings that `sort_values`, `get_dummies` and `pivot_table` sort labels by.
 */
module Sorting {

  /** `le` is a total preorder: any two elements compare, and comparisons chain. */
  ghost predicate TotalPreorder<T(!new)>(le: (T, T) -> bool)
  {
    && (forall a, b :: le(a, b) || le(b, a))
    && (forall a, b, c :: le(a, b) && le(b, c) ==> le(a, c))
  }

  /** Every earlier element is `le` every later one. */
  ghost predicate Sorted<T>(s: seq<T>, le: (T, T) -> bool)
  {
    forall i, j :: 0 <= i < j < |s| ==> le(s[i], s[j])
  }

  /** Inserts `x` before the first element it is `le` to. */
  function Insert<T>(x: T, s: seq<T>, le: (T, T) -> bool): (r: seq<T>)
    ensures multiset(r) == multiset(s) + multiset{x}
    ensures |r| == |s| + 1
  {
    if s == [] then [x]
    else if le(x, s[0]) then [x] + s
    else
      assert s == [s[0]] + s[1..];
      [s[0]] + Insert(x, s[1..], le)
  }

  /** A stable sort: elements that compare equal keep their input order. */
  function SortBy<T>(s: seq<T>, le: (T, T) -> bool): (r: seq<T>)
    ensures multiset(r) == multiset(s)
    ensures |r| == |s|
  {
    if s == [] then []
    else
      assert s == [s[0]] + s[1..];
      Insert(s[0], SortBy(s[1..], le), le)
  }

  /** Sorting keeps exactly the elements it was given. */
  lemma SortByMembers<T>(s: seq<T>, le: (T, T) -> bool)
    ensures forall x :: x in SortBy(s, le) <==> x in s
  {
    assert forall x :: x in SortBy(s, le) <==> x in multiset(SortBy(s, le));
    assert forall x :: x in s <==> x in multiset(s);
  }

  lemma {:induction false} InsertSorted<T(!new)>(x: T, s: seq<T>, le: (T, T) -> bool)
    requires TotalPreorder(le)
    requires Sorted(s, le)
    ensures Sorted(Insert(x, s, le), le)
  {
    if s != [] && !le(x, s[0]) {
      var rest := Insert(x, s[1..], le);
      InsertSorted(x, s[1..], le);
      assert le(s[0], x);
      forall y | y in rest ensures le(s[0], y) {
        assert y in multiset(rest);
        if y != x {
          assert y in multiset(s[1..]);
          var j :| 0 <= j < |s[1..]| && s[1..][j] == y;
          assert s[j + 1] == y;
        }
      }
      ConsSorted(s[0], rest, le);
    } else if s != [] {
      forall y | y in s ensures le(x, y) {
        var j :| 0 <= j < |s| && s[j] == y;
        if j > 0 { assert le(s[0], s[j]); }
      }
      ConsSorted(x, s, le);
    }
  }

  /** An element below every element of a sorted list can go in front of it. */
  lemma ConsSorted<T(!new)>(h: T, s: seq<T>, le: (T, T) -> bool)
    requires Sorted(s, le) && forall y :: y in s ==> le(h, y)
    ensures Sorted([h] + s, le)
  {
    var r := [h] + s;
    forall i, j | 0 <= i < j < |r| ensures le(r[i], r[j]) {
      if i == 0 {
        assert r[j] == s[j - 1];
      } else {
        assert r[i] == s[i - 1] && r[j] == s[j - 1];
      }
    }
  }


  /** The sort's output is ordered (it is a permutation by its own contract). */
  lemma {:induction false} SortBySorted<T(!new)>(s: seq<T>, le: (T, T) -> bool)
    requires TotalPreorder(le)
    ensures Sorted(SortBy(s, le), le)
  {
    if s != [] {
      SortBySorted(s[1..], le);
      InsertSorted(s[0], SortBy(s[1..], le), le);
    }
  }

  // ---------------------------------------------------------------------
  // drop_duplicates(keep="first")

  /**
   * Keeps each element whose key has not been seen before (in `seen` or
   * earlier in `s`).
   */
  function KeepFirstAfter<T, K(==)>(s: seq<T>, key: T -> K, seen: set<K>): (r: seq<T>)
    ensures |r| <= |s|
    ensures forall i :: 0 <= i < |r| ==> r[i] in s && key(r[i]) !in seen
    ensures forall i, j :: 0 <= i < j < |r| ==> key(r[i]) != key(r[j])
  {
    if s == [] then []
    else if key(s[0]) in seen then KeepFirstAfter(s[1..], key, seen)
    else [s[0]] + KeepFirstAfter(s[1..], key, seen + {key(s[0])})
  }

  /** `drop_duplicates(subset=[key], keep="first")`. */
  function KeepFirst<T, K(==)>(s: seq<T>, key: T -> K): seq<T>
  {
    KeepFirstAfter(s, key, {})
  }

  /** Every key of the input that was not already seen survives. */
  lemma {:induction false} KeepFirstCovers<T, K>(s: seq<T>, key: T -> K, seen: set<K>, x: T)
    requires x in s && key(x) !in seen
    ensures exists y :: y in KeepFirstAfter(s, key, seen) && key(y) == key(x)
  {
    if key(s[0]) in seen {
      KeepFirstCovers(s[1..], key, seen, x);
    } else if key(s[0]) != key(x) {
      KeepFirstCovers(s[1..], key, seen + {key(s[0])}, x);
      var y :| y in KeepFirstAfter(s[1..], key, seen + {key(s[0])}) && key(y) == key(x);
      assert y in KeepFirstAfter(s, key, seen);
    } else {
      assert KeepFirstAfter(s, key, seen)[0] == s[0];
    }
  }

  /** Dropping later duplicates of a sorted sequence leaves it sorted. */
  lemma {:induction false} KeepFirstSorted<T, K>(s: seq<T>, key: T -> K, seen: set<K>, le: (T, T) -> bool)
    requires Sorted(s, le)
    ensures Sorted(KeepFirstAfter(s, key, seen), le)
  {
    if s != [] {
      assert Sorted(s[1..], le);
      var seen' := if key(s[0]) in seen then seen else seen + {key(s[0])};
      var rest := KeepFirstAfter(s[1..], key, seen');
      KeepFirstSorted(s[1..], key, seen', le);
      if key(s[0]) !in seen {
        var r := [s[0]] + rest;
        forall i, j | 0 <= i < j < |r| ensures le(r[i], r[j]) {
          assert r[j] == rest[j - 1] && r[j] in s[1..];
          if i > 0 { assert r[i] == rest[i - 1]; }
          else {
            var m :| 0 <= m < |s[1..]| && s[1..][m] == r[j];
            assert s[m + 1] == r[j];
          }
        }
      }
    }
  }

  /**
   * On a sorted input, the kept element of a key is `le` every input element
   * with that key: keep-first after a sort keeps the least row of each key.
   */
  lemma {:induction false} KeepFirstIsLeast<T(!new), K>(s: seq<T>, key: T -> K, seen: set<K>, le: (T, T) -> bool, i: nat, x: T)
    requires TotalPreorder(le)
    requires Sorted(s, le)
    requires i < |KeepFirstAfter(s, key, seen)|
    requires x in s && key(x) == key(KeepFirstAfter(s, key, seen)[i])
    ensures le(KeepFirstAfter(s, key, seen)[i], x)
  {
    var r := KeepFirstAfter(s, key, seen);
    assert Sorted(s[1..], le);
    if key(s[0]) in seen {
      assert x != s[0];
      KeepFirstIsLeast(s[1..], key, seen, le, i, x);
    } else if i == 0 {
      assert r[0] == s[0];
      if x != s[0] {
        var m :| 0 <= m < |s| && s[m] == x;
      }
    } else {
      var seen' := seen + {key(s[0])};
      assert r[i] == KeepFirstAfter(s[1..], key, seen')[i - 1];
      assert key(r[i]) !in seen';
      assert x != s[0];
      KeepFirstIsLeast(s[1..], key, seen', le, i - 1, x);
    }
  }

  // ---------------------------------------------------------------------
  // sort_values(...) followed by drop_duplicates(keep="first")

  /** The rows kept after sorting and keeping the first of each key are input rows. */
  lemma SortKeepFirstMembers<T, K>(s: seq<T>, le: (T, T) -> bool, key: T -> K)
    ensures forall r :: r in KeepFirst(SortBy(s, le), key) ==> r in s
  {
    var d := KeepFirst(SortBy(s, le), key);
    SortByMembers(s, le);
    forall r | r in d ensures r in s {
      var i :| 0 <= i < |d| && d[i] == r;
    }
  }

  /** Every key of the input is kept. */
  lemma SortKeepFirstCovers<T, K>(s: seq<T>, le: (T, T) -> bool, key: T -> K)
    ensures forall x :: x in s ==> exists r :: r in KeepFirst(SortBy(s, le), key) && key(r) == key(x)
  {
    SortByMembers(s, le);
    forall x | x in s ensures exists r :: r in KeepFirst(SortBy(s, le), key) && key(r) == key(x) {
      KeepFirstCovers(SortBy(s, le), key, {}, x);
    }
  }

  /** The kept rows are ordered, and each is `le` every input row of its key. */
  lemma SortKeepFirstLeast<T(!new), K>(s: seq<T>, le: (T, T) -> bool, key: T -> K)
    requires TotalPreorder(le)
    ensures Sorted(KeepFirst(SortBy(s, le), key), le)
    ensures forall r, x :: r in KeepFirst(SortBy(s, le), key) && x in s && key(x) == key(r) ==> le(r, x)
  {
    var sorted := SortBy(s, le);
    var d := KeepFirst(sorted, key);
    SortBySorted(s, le);
    SortByMembers(s, le);
    KeepFirstSorted(sorted, key, {}, le);
    forall r, x | r in d && x in s && key(x) == key(r) ensures le(r, x) {
      var i :| 0 <= i < |d| && d[i] == r;
      KeepFirstIsLeast(sorted, key, {}, le, i, x);
    }
  }

  // ---------------------------------------------------------------------
  // Python string order

  /** Python's `a <= b` on strings: code-point lexicographic order. */
  predicate StrLe(a: string, b: string)
  {
    if a == [] then true
    else if b == [] then false
    else if a[0] != b[0] then a[0] < b[0]
    else StrLe(a[1..], b[1..])
  }

  lemma {:induction false} StrLeTotal(a: string, b: string)
    ensures StrLe(a, b) || StrLe(b, a)
  {
    if a != [] && b != [] && a[0] == b[0] { StrLeTotal(a[1..], b[1..]); }
  }

  lemma {:induction false} StrLeTransitive(a: string, b: string, c: string)
    requires StrLe(a, b) && StrLe(b, c)
    ensures StrLe(a, c)
  {
    if a != [] && b != [] && c != [] && a[0] == b[0] && b[0] == c[0] {
      StrLeTransitive(a[1..], b[1..], c[1..]);
    }
  }

  lemma {:induction false} StrLeAntisymmetric(a: string, b: string)
    requires StrLe(a, b) && StrLe(b, a)
    ensures a == b
  {
    if a != [] && b != [] {
      StrLeAntisymmetric(a[1..], b[1..]);
      assert a == [a[0]] + a[1..] && b == [b[0]] + b[1..];
    }
  }

  lemma StrLeTotalPreorder()
    ensures TotalPreorder(StrLe)
  {
    forall a, b ensures StrLe(a, b) || StrLe(b, a) { StrLeTotal(a, b); }
    forall a, b, c | StrLe(a, b) && StrLe(b, c) ensures StrLe(a, c) { StrLeTransitive(a, b, c); }
  }

  /** The distinct strings of `s`, sorted ascending (pandas' sorted unique labels). */
  function SortedUnique(s: seq<string>): (r: seq<string>)
    ensures forall x :: x in r <==> x in s
    ensures forall i, j :: 0 <= i < j < |r| ==> r[i] != r[j]
  {
    var u := KeepFirst(s, (x: string) => x);
    forall x | x in s ensures x in u {
      KeepFirstCovers(s, (x: string) => x, {}, x);
    }
    SortKeepsDistinct(u, StrLe);
    SortBy(u, StrLe)
  }

  /** Sorting a sequence without repeats yields one without repeats, with the same members. */
  lemma SortKeepsDistinct<T>(u: seq<T>, le: (T, T) -> bool)
    requires forall i, j :: 0 <= i < j < |u| ==> u[i] != u[j]
    ensures forall x :: x in SortBy(u, le) <==> x in u
    ensures forall i, j :: 0 <= i < j < |SortBy(u, le)| ==> SortBy(u, le)[i] != SortBy(u, le)[j]
  {
    var r := SortBy(u, le);
    assert forall x :: x in r <==> x in multiset(u);
    forall i, j | 0 <= i < j < |r| ensures r[i] != r[j] {
      if r[i] == r[j] {
        TwiceMultiplicity(r, i, j);
        DistinctMultiplicity(u, r[i]);
        assert false;
      }
    }
  }

  /** An element at two positions occurs at least twice. */
  lemma TwiceMultiplicity<T>(s: seq<T>, i: nat, j: nat)
    requires i < j < |s| && s[i] == s[j]
    ensures multiset(s)[s[i]] >= 2
  {
    assert s == s[..i] + [s[i]] + s[i + 1..j] + [s[j]] + s[j + 1..];
  }

  /** In a sequence without repeats every element occurs once. */
  lemma {:induction false} DistinctMultiplicity<T>(s: seq<T>, x: T)
    requires forall i, j :: 0 <= i < j < |s| ==> s[i] != s[j]
    ensures multiset(s)[x] <= 1
  {
    if s != [] {
      assert s == [s[0]] + s[1..];
      DistinctMultiplicity(s[1..], x);
      if s[0] == x {
        assert x !in s[1..];
      }
    }
  }

  /** `SortedUnique` is ascending. */
  lemma SortedUniqueSorted(s: seq<string>)
    ensures Sorted(SortedUnique(s), StrLe)
  {
    StrLeTotalPreorder();
    SortBySorted(KeepFirst(s, (x: string) => x), StrLe);
  }
}
