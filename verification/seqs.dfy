/**
 Sequence vocabulary shared by the scorer, the ranker and the bundle search:
 pandas `head(n)`, runs of row positions, position filters (a boolean mask
 over positions), and the ordering and distinctness predicates the contracts
 are stated with.
 */
module Seqs {

  /** An optional value, as Python's `None` or a given argument. */
  datatype Option<T> = None | Some(value: T)

  function Min(a: int, b: int): int {
    if a <= b then a else b
  }

  /** pandas `head(n)` for a non-negative `n`: the first `min(n, |s|)` rows. */
  function Take<T>(s: seq<T>, n: nat): (r: seq<T>)
    ensures |r| == if n <= |s| then n else |s|
    ensures r == s[..|r|]
  {
    if n <= |s| then s[..n] else s
  }

  /** The positions `lo, lo + 1, ..., hi - 1`. */
  function Range(lo: nat, hi: nat): (r: seq<nat>)
    ensures |r| == if lo <= hi then hi - lo else 0
    ensures forall k :: 0 <= k < |r| ==> r[k] == lo + k
    decreases hi - lo
  {
    if lo < hi then [lo] + Range(lo + 1, hi) else []
  }

  /** The rows of `s` at the positions `ix`, in the order of `ix`. */
  function Pick<T>(s: seq<T>, ix: seq<nat>): (r: seq<T>)
    requires Below(ix, |s|)
    ensures |r| == |ix|
    ensures forall k :: 0 <= k < |ix| ==> r[k] == s[ix[k]]
  {
    seq(|ix|, k requires 0 <= k < |ix| => s[ix[k]])
  }

  /** Picked rows are rows of `s`. */
  lemma PickFrom<T>(s: seq<T>, ix: seq<nat>)
    requires Below(ix, |s|)
    ensures forall x <- Pick(s, ix) :: x in s
  {
    var r := Pick(s, ix);
    forall x <- r ensures x in s {
      var k :| 0 <= k < |r| && r[k] == x;
      assert s[ix[k]] == x;
    }
  }

  /** Strictly increasing: the shape of a filtered run of positions. */
  predicate Increasing(s: seq<nat>) {
    forall i, j :: 0 <= i < j < |s| ==> s[i] < s[j]
  }

  /** Non-decreasing: the shape of a multiset written in sorted order. */
  predicate NonDecreasing(s: seq<nat>) {
    forall i, j :: 0 <= i < j < |s| ==> s[i] <= s[j]
  }

  /** No element occurs twice. */
  predicate Distinct<T(==)>(s: seq<T>) {
    forall i, j :: 0 <= i < j < |s| ==> s[i] != s[j]
  }

  /** Every position is a valid row index of a table with `n` rows. */
  predicate Below(ix: seq<nat>, n: nat) {
    forall k :: 0 <= k < |ix| ==> ix[k] < n
  }

  /**
   The positions in `[lo, hi)` that satisfy `p`, in ascending order: a boolean
   mask applied to a table whose index is `0 .. n-1`.
   */
  function RangeWhere(lo: nat, hi: nat, p: nat -> bool): (r: seq<nat>)
    ensures forall x :: x in r <==> lo <= x < hi && p(x)
    ensures Increasing(r)
    ensures |r| <= if lo <= hi then hi - lo else 0
    decreases hi - lo
  {
    if lo < hi then
      var rest := RangeWhere(lo + 1, hi, p);
      assert forall k :: 0 <= k < |rest| ==> lo < rest[k] by {
        forall k | 0 <= k < |rest| ensures lo < rest[k] {
          assert rest[k] in rest;
        }
      }
      (if p(lo) then [lo] else []) + rest
    else
      []
  }

  lemma IncreasingIsDistinct(s: seq<nat>)
    requires Increasing(s)
    ensures Distinct(s)
  {
  }

  lemma TakeRange(lo: nat, hi: nat, t: nat)
    requires lo <= hi
    ensures Take(Range(lo, hi), t) == Range(lo, Min(hi, lo + t))
  {
    var r := Take(Range(lo, hi), t);
    var m := Min(hi, lo + t);
    assert |r| == |Range(lo, m)|;
    forall k | 0 <= k < |r| ensures r[k] == Range(lo, m)[k] {
    }
  }

  lemma RangeConcat(lo: nat, mid: nat, hi: nat)
    requires lo <= mid <= hi
    ensures Range(lo, mid) + Range(mid, hi) == Range(lo, hi)
  {
    var r := Range(lo, mid) + Range(mid, hi);
    assert |r| == |Range(lo, hi)|;
    forall k | 0 <= k < |r| ensures r[k] == Range(lo, hi)[k] {
      if k < mid - lo {
        assert r[k] == Range(lo, mid)[k];
      } else {
        assert r[k] == Range(mid, hi)[k - (mid - lo)];
      }
    }
  }

  lemma RangeIncreasing(lo: nat, hi: nat)
    ensures Increasing(Range(lo, hi))
  {
  }

  lemma RangeBelow(lo: nat, hi: nat)
    ensures Below(Range(lo, hi), hi)
  {
  }

  lemma TakeIncreasing(s: seq<nat>, n: nat)
    requires Increasing(s)
    ensures Increasing(Take(s, n))
  {
  }

  /** A prefix of distinct valid positions is again distinct and valid. */
  lemma TakeKeeps(ix: seq<nat>, t: nat, n: nat)
    requires Below(ix, n) && Distinct(ix)
    ensures Below(Take(ix, t), n) && Distinct(Take(ix, t))
  {
    var r := Take(ix, t);
    forall i, j | 0 <= i < j < |r| ensures r[i] != r[j] {
      assert r[i] == ix[i] && r[j] == ix[j];
    }
  }

  /** The first position in `[lo, hi)` where `p` fails, or `hi` if there is none. */
  function FirstFailing(lo: nat, hi: nat, p: nat -> bool): (m: nat)
    requires lo <= hi
    ensures lo <= m <= hi
    ensures forall i :: lo <= i < m ==> p(i)
    ensures m < hi ==> !p(m)
    decreases hi - lo
  {
    if lo < hi && p(lo) then FirstFailing(lo + 1, hi, p) else lo
  }

  /**
   A mask that holds on `[lo, hi)` exactly below `m` selects the run
   `lo .. m-1`.
   */
  lemma {:induction false} DownClosedIsRun(lo: nat, hi: nat, p: nat -> bool, m: nat)
    requires lo <= m <= hi
    requires forall i :: lo <= i < hi ==> (p(i) <==> i < m)
    ensures RangeWhere(lo, hi, p) == Range(lo, m)
    decreases hi - lo
  {
    if m == lo {
      UpClosedIsRun(lo, hi, p, hi);
    } else {
      DownClosedIsRun(lo + 1, hi, p, m);
      assert p(lo);
      assert RangeWhere(lo, hi, p) == [lo] + RangeWhere(lo + 1, hi, p);
      assert Range(lo, m) == [lo] + Range(lo + 1, m);
    }
  }

  /**
   A mask that holds on `[lo, hi)` exactly from `m` onwards selects the run
   `m .. hi-1`.
   */
  lemma {:induction false} UpClosedIsRun(lo: nat, hi: nat, p: nat -> bool, m: nat)
    requires lo <= m <= hi
    requires forall i :: lo <= i < hi ==> (p(i) <==> m <= i)
    ensures RangeWhere(lo, hi, p) == Range(m, hi)
    decreases hi - lo
  {
    if lo < hi {
      if lo < m {
        UpClosedIsRun(lo + 1, hi, p, m);
      } else {
        UpClosedIsRun(lo + 1, hi, p, lo + 1);
      }
    }
  }
}
