/**
 * Shared building blocks of the churn pipeline model: nullable values and
 * error results, counting over sequences, numpy's first-arg-max, and the
 * small string operations the scripts apply to file paths and report lines.
 */
module Common {

  /** A nullable cell or an optional column (pandas NaN/NaT is None). */
  datatype Option<+T> = None | Some(value: T)

  /** The outcome of a step that may raise an exception. */
  datatype Result<+T, +E> = Ok(value: T) | Err(error: E)

  // ---------------------------------------------------------------------
  // Counting

  /** Number of elements of `s` satisfying `p` (a boolean mask's `.sum()`). */
  function Count<T>(s: seq<T>, p: T -> bool): (n: nat)
    ensures n <= |s|
  {
    if s == [] then 0 else (if p(s[0]) then 1 else 0) + Count(s[1..], p)
  }

  lemma {:induction false} CountAppend<T>(s: seq<T>, t: seq<T>, p: T -> bool)
    ensures Count(s + t, p) == Count(s, p) + Count(t, p)
  {
    if s == [] {
      assert s + t == t;
    } else {
      assert (s + t)[1..] == s[1..] + t;
      CountAppend(s[1..], t, p);
    }
  }

  /** A weaker filter never counts more rows. */
  lemma {:induction false} CountMono<T>(s: seq<T>, p: T -> bool, q: T -> bool)
    requires forall x :: p(x) ==> q(x)
    ensures Count(s, p) <= Count(s, q)
  {
    if s != [] { CountMono(s[1..], p, q); }
  }

  /** Counting under two filters that agree on `s` gives the same number. */
  lemma {:induction false} CountCongruent<T>(s: seq<T>, p: T -> bool, q: T -> bool)
    requires forall i :: 0 <= i < |s| ==> (p(s[i]) <==> q(s[i]))
    ensures Count(s, p) == Count(s, q)
  {
    if s != [] {
      assert forall i :: 0 <= i < |s[1..]| ==> s[1..][i] == s[i + 1];
      CountCongruent(s[1..], p, q);
    }
  }

  /** Position by position, two sequences pass their filters alike: the counts agree. */
  lemma {:induction false} CountMapped<T, U>(s: seq<T>, t: seq<U>, p: T -> bool, q: U -> bool)
    requires |s| == |t|
    requires forall i :: 0 <= i < |s| ==> (p(s[i]) <==> q(t[i]))
    ensures Count(s, p) == Count(t, q)
  {
    if s != [] {
      assert forall i :: 0 <= i < |s[1..]| ==> s[1..][i] == s[i + 1] && t[1..][i] == t[i + 1];
      CountMapped(s[1..], t[1..], p, q);
    }
  }

  /** Two filters that never hold together split the count of their union. */
  lemma {:induction false} CountDisjointUnion<T>(s: seq<T>, p: T -> bool, q: T -> bool, pq: T -> bool)
    requires forall x :: !(p(x) && q(x))
    requires forall x :: pq(x) <==> p(x) || q(x)
    ensures Count(s, pq) == Count(s, p) + Count(s, q)
  {
    if s != [] { CountDisjointUnion(s[1..], p, q, pq); }
  }

  /** Every row satisfies a filter or its negation: the two counts cover the table. */
  lemma {:induction false} CountComplement<T>(s: seq<T>, p: T -> bool, notP: T -> bool)
    requires forall x :: notP(x) <==> !p(x)
    ensures Count(s, p) + Count(s, notP) == |s|
  {
    if s != [] { CountComplement(s[1..], p, notP); }
  }

  /** The count is zero exactly when no element passes the filter. */
  lemma {:induction false} CountZero<T>(s: seq<T>, p: T -> bool)
    ensures Count(s, p) == 0 <==> forall i :: 0 <= i < |s| ==> !p(s[i])
  {
    if s != [] {
      CountZero(s[1..], p);
      assert forall i :: 1 <= i < |s| ==> s[i] == s[1..][i - 1];
    }
  }

  // ---------------------------------------------------------------------
  // Column lists

  /** `[c for c in required if c not in columns]`. */
  function Missing(required: seq<string>, columns: seq<string>): (m: seq<string>)
    ensures forall c :: c in m <==> c in required && c !in columns
    ensures |m| <= |required|
  {
    if required == [] then []
    else (if required[0] in columns then [] else [required[0]]) + Missing(required[1..], columns)
  }

  // ---------------------------------------------------------------------
  // Series.max

  /** `Series.max()` of a nullable integer series: nulls are skipped; all-null gives null. */
  function MaxOf(xs: seq<Option<int>>): (m: Option<int>)
    ensures m.Some? <==> exists i :: 0 <= i < |xs| && xs[i].Some?
    ensures m.Some? ==> m in xs
    ensures forall i :: 0 <= i < |xs| && xs[i].Some? ==> xs[i].value <= m.value
  {
    if xs == [] then None
    else
      var init := xs[..|xs| - 1];
      var m := MaxOf(init);
      var x := xs[|xs| - 1];
      assert forall i :: 0 <= i < |init| ==> xs[i] == init[i];
      if x.Some? && (m.None? || x.value > m.value) then x else m
  }

  // ---------------------------------------------------------------------
  // numpy.argmax

  /** `np.argmax`: the first index holding the maximum. */
  function FirstArgMax(s: seq<real>): (k: nat)
    requires |s| > 0
    ensures k < |s|
    ensures forall j :: 0 <= j < |s| ==> s[j] <= s[k]
    ensures forall j :: 0 <= j < k ==> s[j] < s[k]
  {
    if |s| == 1 then 0
    else
      var k := FirstArgMax(s[..|s| - 1]);
      if s[|s| - 1] > s[k] then |s| - 1 else k
  }

  // ---------------------------------------------------------------------
  // Strings

  /** `pat` occurs in `s` at position `i`. */
  predicate OccursAt(s: string, pat: string, i: nat)
  {
    i + |pat| <= |s| && s[i..i + |pat|] == pat
  }

  predicate Occurs(s: string, pat: string)
  {
    exists i: nat | i <= |s| :: OccursAt(s, pat, i)
  }

  /** Python's `s.replace(pat, rep)`: every occurrence, left to right, without overlaps. */
  function ReplaceAll(s: string, pat: string, rep: string): string
    requires pat != []
    decreases |s|
  {
    if |s| < |pat| then s
    else if s[..|pat|] == pat then rep + ReplaceAll(s[|pat|..], pat, rep)
    else [s[0]] + ReplaceAll(s[1..], pat, rep)
  }

  /** A path without the pattern is returned unchanged. */
  lemma {:induction false} ReplaceAllAbsent(s: string, pat: string, rep: string)
    requires pat != []
    requires !Occurs(s, pat)
    ensures ReplaceAll(s, pat, rep) == s
    decreases |s|
  {
    if |s| >= |pat| {
      assert !OccursAt(s, pat, 0);
      assert s[..|pat|] != pat;
      forall i: nat | OccursAt(s[1..], pat, i) ensures OccursAt(s, pat, i + 1) {
        assert s[1..][i..i + |pat|] == s[i + 1..i + 1 + |pat|];
      }
      ReplaceAllAbsent(s[1..], pat, rep);
    }
  }

  /**
   * A path whose only occurrence of the pattern is at its very end gets
   * exactly that suffix rewritten ("out.csv" with ".csv" -> "_top5.csv").
   */
  lemma {:induction false} ReplaceAllSuffix(a: string, pat: string, rep: string)
    requires pat != []
    requires forall i: nat :: i < |a| ==> !OccursAt(a + pat, pat, i)
    ensures ReplaceAll(a + pat, pat, rep) == a + rep
    decreases |a|
  {
    var s := a + pat;
    if a == [] {
      assert s == pat;
      assert s[|pat|..] == [];
    } else {
      assert !OccursAt(s, pat, 0);
      assert s[..|pat|] != pat;
      assert s[1..] == a[1..] + pat;
      forall i: nat | i < |a[1..]| ensures !OccursAt(a[1..] + pat, pat, i) {
        assert !OccursAt(s, pat, i + 1);
        if i + |pat| <= |a[1..] + pat| {
          assert (a[1..] + pat)[i..i + |pat|] == s[i + 1..i + 1 + |pat|];
        }
      }
      ReplaceAllSuffix(a[1..], pat, rep);
      assert [s[0]] + (a[1..] + rep) == a + rep;
    }
  }

  /** `os.path.basename` on a '/'-separated path: the text after the last '/'. */
  function Basename(path: string): (b: string)
    ensures '/' !in b
    ensures |b| <= |path| && path[|path| - |b|..] == b
    ensures |b| < |path| ==> path[|path| - |b| - 1] == '/'
  {
    if path == [] then []
    else if path[|path| - 1] == '/' then []
    else Basename(path[..|path| - 1]) + [path[|path| - 1]]
  }

  /** Decimal digits of a natural number, as Python's `str(n)`. */
  function NatToString(n: nat): (s: string)
    ensures |s| > 0
    ensures forall i :: 0 <= i < |s| ==> '0' <= s[i] <= '9'
  {
    if n < 10 then [DigitChar(n)] else NatToString(n / 10) + [DigitChar(n % 10)]
  }

  function DigitChar(d: nat): (c: char)
    requires d < 10
    ensures '0' <= c <= '9'
  {
    ['0', '1', '2', '3', '4', '5', '6', '7', '8', '9'][d]
  }

  /** Three digits with leading zeros, for a group after a thousands separator. */
  function Pad3(n: nat): string
    requires n < 1000
  {
    [DigitChar(n / 100), DigitChar(n / 10 % 10), DigitChar(n % 10)]
  }

  /** Python's `f"{n:,}"` for a non-negative integer: digits grouped by commas. */
  function Grouped(n: nat): (s: string)
    ensures |s| > 0
  {
    if n < 1000 then NatToString(n) else Grouped(n / 1000) + "," + Pad3(n % 1000)
  }

  /** Python's `f"{v:,}"` for any integer. */
  function SignedGrouped(v: int): string
  {
    if v < 0 then "-" + Grouped(-v) else Grouped(v)
  }

  /** A subset is no larger than its superset. */
  lemma SubsetCard<T>(a: set<T>, b: set<T>)
    requires a <= b
    ensures |a| <= |b|
  {
    assert b == a + (b - a);
  }
}
