/**
 The two enumerations the bundle search walks, as position tuples over a
 table with `n` rows, in the order Python's `itertools` produces them.

 `combinations_with_replacement(rows, k)` yields every non-decreasing
 position tuple of length `k` (a multiset of rows written in sorted order),
 and `combinations(rows, k)` every strictly increasing one (a set of rows),
 both in lexicographic order.
 */
module Combinatorics {
  import opened Seqs

  /** Puts `x` in front of every tuple of `ss`. */
  function Prepend(x: nat, ss: seq<seq<nat>>): (r: seq<seq<nat>>)
    ensures |r| == |ss|
    ensures forall k :: 0 <= k < |ss| ==> r[k] == [x] + ss[k]
  {
    seq(|ss|, k requires 0 <= k < |ss| => [x] + ss[k])
  }

  /** Every entry is at least `lo`. */
  predicate AtLeast(s: seq<nat>, lo: nat) {
    forall k :: 0 <= k < |s| ==> lo <= s[k]
  }

  /** A tuple `combinations_with_replacement(range(lo, n), k)` can yield. */
  predicate MultiTuple(s: seq<nat>, lo: nat, n: nat, k: nat) {
    |s| == k && Below(s, n) && NonDecreasing(s) && AtLeast(s, lo)
  }

  /** A tuple `combinations(range(lo, n), k)` can yield. */
  predicate SetTuple(s: seq<nat>, lo: nat, n: nat, k: nat) {
    |s| == k && Below(s, n) && Increasing(s) && AtLeast(s, lo)
  }

  lemma PrependMulti(t: seq<nat>, lo: nat, n: nat, k: nat)
    requires k > 0 && lo < n
    requires MultiTuple(t, lo, n, k - 1)
    ensures MultiTuple([lo] + t, lo, n, k)
  {
  }

  lemma PrependSet(t: seq<nat>, lo: nat, n: nat, k: nat)
    requires k > 0 && lo < n
    requires SetTuple(t, lo + 1, n, k - 1)
    ensures SetTuple([lo] + t, lo, n, k)
  {
  }

  lemma WeakenMulti(s: seq<nat>, lo: nat, n: nat, k: nat)
    requires MultiTuple(s, lo + 1, n, k)
    ensures MultiTuple(s, lo, n, k)
  {
  }

  lemma WeakenSet(s: seq<nat>, lo: nat, n: nat, k: nat)
    requires SetTuple(s, lo + 1, n, k)
    ensures SetTuple(s, lo, n, k)
  {
  }

  /** `combinations_with_replacement(range(lo, n), k)`. */
  function Multichoose(lo: nat, n: nat, k: nat): (r: seq<seq<nat>>)
    ensures forall s <- r :: MultiTuple(s, lo, n, k)
    decreases k, n - lo
  {
    if k == 0 then [[]]
    else if lo >= n then []
    else
      var rest := Multichoose(lo, n, k - 1);
      var first := Prepend(lo, rest);
      var later := Multichoose(lo + 1, n, k);
      assert forall s <- first :: MultiTuple(s, lo, n, k) by {
        forall j | 0 <= j < |first| ensures MultiTuple(first[j], lo, n, k) {
          assert rest[j] in rest;
          PrependMulti(rest[j], lo, n, k);
        }
      }
      assert forall s <- later :: MultiTuple(s, lo, n, k) by {
        forall s <- later ensures MultiTuple(s, lo, n, k) {
          WeakenMulti(s, lo, n, k);
        }
      }
      first + later
  }

  /** `combinations(range(lo, n), k)`. */
  function Choose(lo: nat, n: nat, k: nat): (r: seq<seq<nat>>)
    ensures forall s <- r :: SetTuple(s, lo, n, k)
    decreases n - lo
  {
    if k == 0 then [[]]
    else if lo >= n then []
    else
      var rest := Choose(lo + 1, n, k - 1);
      var first := Prepend(lo, rest);
      var later := Choose(lo + 1, n, k);
      assert forall s <- first :: SetTuple(s, lo, n, k) by {
        forall j | 0 <= j < |first| ensures SetTuple(first[j], lo, n, k) {
          assert rest[j] in rest;
          PrependSet(rest[j], lo, n, k);
        }
      }
      assert forall s <- later :: SetTuple(s, lo, n, k) by {
        forall s <- later ensures SetTuple(s, lo, n, k) {
          WeakenSet(s, lo, n, k);
        }
      }
      first + later
  }

  lemma TailMulti(s: seq<nat>, lo: nat, n: nat, k: nat)
    requires k > 0 && MultiTuple(s, lo, n, k) && s[0] == lo
    ensures MultiTuple(s[1..], lo, n, k - 1)
  {
  }

  lemma RaiseMulti(s: seq<nat>, lo: nat, n: nat, k: nat)
    requires k > 0 && MultiTuple(s, lo, n, k) && s[0] > lo
    ensures MultiTuple(s, lo + 1, n, k)
  {
    forall i | 0 <= i < |s| ensures lo + 1 <= s[i] {
      if i > 0 {
        assert s[0] <= s[i];
      }
    }
  }

  lemma TailSet(s: seq<nat>, lo: nat, n: nat, k: nat)
    requires k > 0 && SetTuple(s, lo, n, k)
    ensures SetTuple(s[1..], s[0] + 1, n, k - 1)
  {
    forall i | 0 <= i < |s| - 1 ensures s[0] + 1 <= s[1..][i] {
      assert s[1..][i] == s[i + 1];
    }
  }

  lemma RaiseSet(s: seq<nat>, lo: nat, n: nat, k: nat)
    requires k > 0 && SetTuple(s, lo, n, k) && s[0] > lo
    ensures SetTuple(s, lo + 1, n, k)
  {
    forall i | 0 <= i < |s| ensures lo + 1 <= s[i] {
      if i > 0 {
        assert s[0] < s[i];
      }
    }
  }

  /** Every non-decreasing tuple of the right length and range is enumerated. */
  lemma {:induction false} MultichooseComplete(lo: nat, n: nat, k: nat, s: seq<nat>)
    requires MultiTuple(s, lo, n, k)
    ensures s in Multichoose(lo, n, k)
    decreases k, n - lo
  {
    if k == 0 {
      assert s == [];
    } else {
      assert lo <= s[0] < n;
      if s[0] == lo {
        var tail := s[1..];
        assert s == [lo] + tail;
        TailMulti(s, lo, n, k);
        MultichooseComplete(lo, n, k - 1, tail);
        var rest := Multichoose(lo, n, k - 1);
        var j :| 0 <= j < |rest| && rest[j] == tail;
        assert Prepend(lo, rest)[j] == s;
      } else {
        RaiseMulti(s, lo, n, k);
        MultichooseComplete(lo + 1, n, k, s);
      }
    }
  }

  /** Every strictly increasing tuple of the right length and range is enumerated. */
  lemma {:induction false} ChooseComplete(lo: nat, n: nat, k: nat, s: seq<nat>)
    requires SetTuple(s, lo, n, k)
    ensures s in Choose(lo, n, k)
    decreases n - lo
  {
    if k == 0 {
      assert s == [];
    } else {
      assert lo <= s[0] < n;
      if s[0] == lo {
        var tail := s[1..];
        assert s == [lo] + tail;
        TailSet(s, lo, n, k);
        ChooseComplete(lo + 1, n, k - 1, tail);
        var rest := Choose(lo + 1, n, k - 1);
        var j :| 0 <= j < |rest| && rest[j] == tail;
        assert Prepend(lo, rest)[j] == s;
      } else {
        RaiseSet(s, lo, n, k);
        ChooseComplete(lo + 1, n, k, s);
      }
    }
  }

  lemma {:induction false} IncreasingAtLeastIndex(s: seq<nat>, k: nat)
    requires Increasing(s) && k < |s|
    ensures k <= s[k]
  {
    if k > 0 {
      IncreasingAtLeastIndex(s, k - 1);
      assert s[k - 1] < s[k];
    }
  }

  /** A strictly increasing tuple over `n` rows has at most `n` entries. */
  lemma IncreasingBelowLength(s: seq<nat>, n: nat)
    requires Increasing(s) && Below(s, n)
    ensures |s| <= n
  {
    if |s| > 0 {
      IncreasingAtLeastIndex(s, |s| - 1);
    }
  }

  lemma DistinctConcat<T>(a: seq<T>, b: seq<T>)
    requires Distinct(a) && Distinct(b)
    requires forall x <- a :: x !in b
    ensures Distinct(a + b)
  {
    var ab := a + b;
    forall i, j | 0 <= i < j < |ab| ensures ab[i] != ab[j] {
      if i < |a| && j >= |a| {
        assert ab[i] in a && ab[j] == b[j - |a|];
      } else if i >= |a| {
        assert ab[i] == b[i - |a|] && ab[j] == b[j - |a|];
      }
    }
  }

  lemma DistinctPrepend(x: nat, ss: seq<seq<nat>>)
    requires Distinct(ss)
    ensures Distinct(Prepend(x, ss))
  {
    var r := Prepend(x, ss);
    forall i, j | 0 <= i < j < |r| ensures r[i] != r[j] {
      assert r[i][1..] == ss[i] && r[j][1..] == ss[j];
    }
  }

  /** Tuples that start with `lo` differ from tuples that start above it. */
  lemma HeadsDiffer(a: seq<seq<nat>>, b: seq<seq<nat>>, lo: nat)
    requires forall x <- a :: |x| > 0 && x[0] == lo
    requires forall y <- b :: |y| > 0 && y[0] > lo
    ensures forall x <- a :: x !in b
  {
  }

  /** No tuple of `combinations_with_replacement` is produced twice. */
  lemma {:induction false} MultichooseDistinct(lo: nat, n: nat, k: nat)
    ensures Distinct(Multichoose(lo, n, k))
    decreases k, n - lo
  {
    if k > 0 && lo < n {
      var rest := Multichoose(lo, n, k - 1);
      var first := Prepend(lo, rest);
      var later := Multichoose(lo + 1, n, k);
      MultichooseDistinct(lo, n, k - 1);
      MultichooseDistinct(lo + 1, n, k);
      DistinctPrepend(lo, rest);
      assert forall y <- later :: |y| > 0 && y[0] > lo by {
        forall y <- later ensures |y| > 0 && y[0] > lo {
          assert MultiTuple(y, lo + 1, n, k);
        }
      }
      HeadsDiffer(first, later, lo);
      DistinctConcat(first, later);
    }
  }

  /** No tuple of `combinations` is produced twice. */
  lemma {:induction false} ChooseDistinct(lo: nat, n: nat, k: nat)
    ensures Distinct(Choose(lo, n, k))
    decreases n - lo
  {
    if k > 0 && lo < n {
      var rest := Choose(lo + 1, n, k - 1);
      var first := Prepend(lo, rest);
      var later := Choose(lo + 1, n, k);
      ChooseDistinct(lo + 1, n, k - 1);
      ChooseDistinct(lo + 1, n, k);
      DistinctPrepend(lo, rest);
      assert forall y <- later :: |y| > 0 && y[0] > lo by {
        forall y <- later ensures |y| > 0 && y[0] > lo {
          assert SetTuple(y, lo + 1, n, k);
        }
      }
      HeadsDiffer(first, later, lo);
      DistinctConcat(first, later);
    }
  }

  // ---------------------------------------------------------------------------
  // Enumeration order
  // ---------------------------------------------------------------------------

  /** `a` comes before `b` in lexicographic order: the first differing entry decides. */
  predicate LexLess(a: seq<nat>, b: seq<nat>)
    decreases |a|
  {
    |a| > 0 && |b| > 0 && (a[0] < b[0] || (a[0] == b[0] && LexLess(a[1..], b[1..])))
  }

  /** Each tuple comes before every later one in lexicographic order. */
  predicate LexSorted(ss: seq<seq<nat>>) {
    forall i, j :: 0 <= i < j < |ss| ==> LexLess(ss[i], ss[j])
  }

  /** Shorter tuples first, and tuples of one length in lexicographic order. */
  predicate SizeThenLess(a: seq<nat>, b: seq<nat>) {
    |a| < |b| || (|a| == |b| && LexLess(a, b))
  }

  predicate SizeThenLexSorted(ss: seq<seq<nat>>) {
    forall i, j :: 0 <= i < j < |ss| ==> SizeThenLess(ss[i], ss[j])
  }

  /** A common first entry keeps the order of the rest. */
  lemma PrependLexSorted(x: nat, ss: seq<seq<nat>>)
    requires LexSorted(ss)
    ensures LexSorted(Prepend(x, ss))
  {
    var r := Prepend(x, ss);
    forall i, j | 0 <= i < j < |r| ensures LexLess(r[i], r[j]) {
      assert r[i][1..] == ss[i] && r[j][1..] == ss[j];
    }
  }

  /** Tuples that start with `lo` come before tuples that start above it. */
  lemma HeadsOrdered(a: seq<seq<nat>>, b: seq<seq<nat>>, lo: nat)
    requires forall x <- a :: |x| > 0 && x[0] == lo
    requires forall y <- b :: |y| > 0 && y[0] > lo
    ensures forall x <- a, y <- b :: LexLess(x, y)
  {
  }

  lemma LexSortedConcat(a: seq<seq<nat>>, b: seq<seq<nat>>)
    requires LexSorted(a) && LexSorted(b)
    requires forall x <- a, y <- b :: LexLess(x, y)
    ensures LexSorted(a + b)
  {
    var ab := a + b;
    forall i, j | 0 <= i < j < |ab| ensures LexLess(ab[i], ab[j]) {
      if j < |a| {
        assert ab[i] == a[i] && ab[j] == a[j];
      } else if i < |a| {
        assert ab[i] in a && ab[j] in b;
      } else {
        assert ab[i] == b[i - |a|] && ab[j] == b[j - |a|];
      }
    }
  }

  /** The first tuples start at `lo`, the later ones above it. */
  lemma SplitHeads(lo: nat, n: nat, k: nat, rest: seq<seq<nat>>, later: seq<seq<nat>>)
    requires k > 0
    requires forall y <- later :: MultiTuple(y, lo + 1, n, k) || SetTuple(y, lo + 1, n, k)
    ensures forall x <- Prepend(lo, rest) :: |x| > 0 && x[0] == lo
    ensures forall y <- later :: |y| > 0 && y[0] > lo
  {
    var first := Prepend(lo, rest);
    forall x <- first ensures |x| > 0 && x[0] == lo {
      var j :| 0 <= j < |first| && first[j] == x;
      assert x == [lo] + rest[j];
    }
  }

  /** `combinations_with_replacement` yields its tuples in lexicographic order. */
  lemma {:induction false} MultichooseLexSorted(lo: nat, n: nat, k: nat)
    ensures LexSorted(Multichoose(lo, n, k))
    decreases k, n - lo
  {
    if k > 0 && lo < n {
      var rest := Multichoose(lo, n, k - 1);
      var later := Multichoose(lo + 1, n, k);
      MultichooseLexSorted(lo, n, k - 1);
      MultichooseLexSorted(lo + 1, n, k);
      PrependLexSorted(lo, rest);
      SplitHeads(lo, n, k, rest, later);
      HeadsOrdered(Prepend(lo, rest), later, lo);
      LexSortedConcat(Prepend(lo, rest), later);
    }
  }

  /** `combinations` yields its tuples in lexicographic order. */
  lemma {:induction false} ChooseLexSorted(lo: nat, n: nat, k: nat)
    ensures LexSorted(Choose(lo, n, k))
    decreases n - lo
  {
    if k > 0 && lo < n {
      var rest := Choose(lo + 1, n, k - 1);
      var later := Choose(lo + 1, n, k);
      ChooseLexSorted(lo + 1, n, k - 1);
      ChooseLexSorted(lo + 1, n, k);
      PrependLexSorted(lo, rest);
      SplitHeads(lo, n, k, rest, later);
      HeadsOrdered(Prepend(lo, rest), later, lo);
      LexSortedConcat(Prepend(lo, rest), later);
    }
  }

  /** `combinations` asked for one or more items beyond what the range holds yields nothing. */
  lemma {:induction false} ChooseTooMany(lo: nat, n: nat, k: nat)
    requires k > 0 && lo + k > n
    ensures Choose(lo, n, k) == []
    decreases n - lo
  {
    if k > 0 && lo < n {
      ChooseTooMany(lo + 1, n, k - 1);
      ChooseTooMany(lo + 1, n, k);
    }
  }

  /** The tuples of `combinations` all have length `k`, so size-then-lexicographic order is lexicographic order. */
  lemma ChooseSizeThenLex(lo: nat, n: nat, k: nat)
    ensures SizeThenLexSorted(Choose(lo, n, k))
    ensures forall s <- Choose(lo, n, k) :: |s| == k
  {
    var c := Choose(lo, n, k);
    ChooseLexSorted(lo, n, k);
    forall i, j | 0 <= i < j < |c| ensures SizeThenLess(c[i], c[j]) {
      assert c[i] in c && c[j] in c;
    }
  }

  /** Appending longer tuples after shorter ones keeps size-then-lexicographic order. */
  lemma SizeThenLexConcat(a: seq<seq<nat>>, b: seq<seq<nat>>, m: nat)
    requires SizeThenLexSorted(a) && SizeThenLexSorted(b)
    requires forall x <- a :: |x| <= m
    requires forall y <- b :: |y| == m + 1
    ensures SizeThenLexSorted(a + b)
    ensures forall x <- a + b :: |x| <= m + 1
  {
    var ab := a + b;
    forall i, j | 0 <= i < j < |ab| ensures SizeThenLess(ab[i], ab[j]) {
      if j < |a| {
        assert ab[i] == a[i] && ab[j] == a[j];
      } else if i < |a| {
        assert ab[i] in a && ab[j] in b;
      } else {
        assert ab[i] == b[i - |a|] && ab[j] == b[j - |a|];
      }
    }
  }
}
