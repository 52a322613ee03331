/**
 Descending sort by an integer key, and the top-k selection built on it.

 The sort is an insertion sort that places each element after every element
 whose key is at least as large, so elements with equal keys keep their input
 order (the stability Python's `list.sort(key=..., reverse=True)` promises).
 */
module Sorting {
  import opened Seqs

  /** Keys never increase from left to right. */
  predicate NonIncreasing<T>(s: seq<T>, key: T -> int) {
    forall i, j :: 0 <= i < j < |s| ==> key(s[i]) >= key(s[j])
  }

  /** The elements of `s` whose key is `v`, in their order in `s`. */
  function WithKey<T>(s: seq<T>, key: T -> int, v: int): seq<T> {
    if |s| == 0 then []
    else (if key(s[0]) == v then [s[0]] else []) + WithKey(s[1..], key, v)
  }

  /** Inserts `x` into a descending sequence after every element whose key is `>= key(x)`. */
  function Insert<T>(x: T, s: seq<T>, key: T -> int): (r: seq<T>)
    ensures multiset(r) == multiset(s) + multiset{x}
    ensures |r| == |s| + 1
  {
    if |s| == 0 then [x]
    else if key(s[0]) >= key(x) then
      assert s == [s[0]] + s[1..];
      [s[0]] + Insert(x, s[1..], key)
    else
      [x] + s
  }

  lemma {:induction false} InsertSorted<T>(x: T, s: seq<T>, key: T -> int)
    requires NonIncreasing(s, key)
    ensures NonIncreasing(Insert(x, s, key), key)
  {
    if |s| > 0 && key(s[0]) >= key(x) {
      var tail := s[1..];
      assert NonIncreasing(tail, key) by {
        forall i, j | 0 <= i < j < |tail| ensures key(tail[i]) >= key(tail[j]) {
          assert tail[i] == s[i + 1] && tail[j] == s[j + 1];
        }
      }
      InsertSorted(x, tail, key);
      var ins := Insert(x, tail, key);
      var r := Insert(x, s, key);
      assert r == [s[0]] + ins;
      forall j | 0 <= j < |ins| ensures key(s[0]) >= key(ins[j]) {
        assert ins[j] in multiset(ins);
        assert ins[j] in multiset(tail) + multiset{x};
        if ins[j] != x {
          assert ins[j] in multiset(tail);
          var t :| 0 <= t < |tail| && tail[t] == ins[j];
          assert s[t + 1] == ins[j];
        }
      }
      forall i, j | 0 <= i < j < |r| ensures key(r[i]) >= key(r[j]) {
        if i == 0 {
          assert r[j] == ins[j - 1];
        } else {
          assert r[i] == ins[i - 1] && r[j] == ins[j - 1];
        }
      }
    }
  }

  /** Sorts by `key`, largest first, keeping the input order among equal keys. */
  function SortDesc<T>(s: seq<T>, key: T -> int): (r: seq<T>)
    ensures multiset(r) == multiset(s)
    ensures |r| == |s|
    ensures NonIncreasing(r, key)
  {
    if |s| == 0 then []
    else
      assert s == s[..|s| - 1] + [s[|s| - 1]];
      var init := SortDesc(s[..|s| - 1], key);
      InsertSorted(s[|s| - 1], init, key);
      Insert(s[|s| - 1], init, key)
  }

  lemma {:induction false} WithKeyAppend<T>(a: seq<T>, b: seq<T>, key: T -> int, v: int)
    ensures WithKey(a + b, key, v) == WithKey(a, key, v) + WithKey(b, key, v)
  {
    if |a| > 0 {
      var head := if key(a[0]) == v then [a[0]] else [];
      assert (a + b)[0] == a[0];
      assert (a + b)[1..] == a[1..] + b;
      assert WithKey(a + b, key, v) == head + WithKey(a[1..] + b, key, v);
      WithKeyAppend(a[1..], b, key, v);
      assert WithKey(a, key, v) == head + WithKey(a[1..], key, v);
    } else {
      assert a + b == b;
    }
  }

  /** An inserted element lands after every element that shares its key. */
  lemma {:induction false} InsertWithKey<T>(x: T, s: seq<T>, key: T -> int, v: int)
    requires NonIncreasing(s, key)
    ensures WithKey(Insert(x, s, key), key, v)
         == WithKey(s, key, v) + (if key(x) == v then [x] else [])
    decreases |s|
  {
    if |s| == 0 {
      SingletonWithKey(x, key, v);
    } else if key(s[0]) >= key(x) {
      NonIncreasingTail(s, key);
      InsertWithKey(x, s[1..], key, v);
      assert Insert(x, s, key) == [s[0]] + Insert(x, s[1..], key);
      ConsWithKey(s[0], Insert(x, s[1..], key), s[1..], if key(x) == v then [x] else [], key, v);
      assert [s[0]] + s[1..] == s;
    } else {
      InsertBeforeAll(x, s, key, v);
    }
  }

  lemma NonIncreasingTail<T>(s: seq<T>, key: T -> int)
    requires |s| > 0 && NonIncreasing(s, key)
    ensures NonIncreasing(s[1..], key)
  {
    var tail := s[1..];
    forall i, j | 0 <= i < j < |tail| ensures key(tail[i]) >= key(tail[j]) {
      assert tail[i] == s[i + 1] && tail[j] == s[j + 1];
    }
  }

  /** Putting one element in front of two sequences that agree on key `v` keeps them agreeing. */
  lemma ConsWithKey<T>(h: T, ins: seq<T>, tail: seq<T>, extra: seq<T>, key: T -> int, v: int)
    requires WithKey(ins, key, v) == WithKey(tail, key, v) + extra
    ensures WithKey([h] + ins, key, v) == WithKey([h] + tail, key, v) + extra
  {
    WithKeyAppend([h], ins, key, v);
    WithKeyAppend([h], tail, key, v);
  }

  /** Inserting in front: every key of `s` exceeds `key(x)`, so none equals it. */
  lemma InsertBeforeAll<T>(x: T, s: seq<T>, key: T -> int, v: int)
    requires NonIncreasing(s, key)
    requires |s| > 0 && key(s[0]) < key(x)
    ensures WithKey(Insert(x, s, key), key, v)
         == WithKey(s, key, v) + (if key(x) == v then [x] else [])
  {
    assert Insert(x, s, key) == [x] + s;
    WithKeyAppend([x], s, key, v);
    SingletonWithKey(x, key, v);
    if key(x) == v {
      forall i | 0 <= i < |s| ensures key(s[i]) != v {
        assert key(s[0]) >= key(s[i]) || i == 0;
      }
      NoneWithKey(s, key, v);
    }
  }

  lemma {:induction false} NoneWithKey<T>(s: seq<T>, key: T -> int, v: int)
    requires forall i :: 0 <= i < |s| ==> key(s[i]) != v
    ensures WithKey(s, key, v) == []
  {
    if |s| > 0 {
      NoneWithKey(s[1..], key, v);
    }
  }

  /**
   Stability: for every key value, the elements carrying it appear in the
   sorted output exactly as, and in the same order as, in the input.
   */
  lemma {:induction false} SortDescStable<T>(s: seq<T>, key: T -> int, v: int)
    ensures WithKey(SortDesc(s, key), key, v) == WithKey(s, key, v)
  {
    if |s| > 0 {
      var init, last := s[..|s| - 1], s[|s| - 1];
      SortDescUnfold(s, key);
      SortDescStable(init, key, v);
      InsertWithKey(last, SortDesc(init, key), key, v);
      StableStep(s, SortDesc(s, key), key, v);
    }
  }

  /** A sequence that lists the keyed elements of `s` without its last one, then that one, lists those of `s`. */
  lemma StableStep<T>(s: seq<T>, r: seq<T>, key: T -> int, v: int)
    requires |s| > 0
    requires WithKey(r, key, v)
          == WithKey(s[..|s| - 1], key, v) + (if key(s[|s| - 1]) == v then [s[|s| - 1]] else [])
    ensures WithKey(r, key, v) == WithKey(s, key, v)
  {
    var init, last := s[..|s| - 1], s[|s| - 1];
    SingletonWithKey(last, key, v);
    WithKeyAppend(init, [last], key, v);
    assert s == init + [last];
  }

  lemma SortDescUnfold<T>(s: seq<T>, key: T -> int)
    requires |s| > 0
    ensures SortDesc(s, key) == Insert(s[|s| - 1], SortDesc(s[..|s| - 1], key), key)
    ensures NonIncreasing(SortDesc(s[..|s| - 1], key), key)
  {
  }

  lemma SingletonWithKey<T>(x: T, key: T -> int, v: int)
    ensures WithKey([x], key, v) == if key(x) == v then [x] else []
  {
    assert [x][1..] == [];
  }

  /** Every element of `m` has a key of at most `bound`. */
  ghost predicate AllAtMost<T>(m: multiset<T>, key: T -> int, bound: int) {
    forall x :: x in m ==> key(x) <= bound
  }

  /**
   `r` holds the best elements of `s`: drawn from `s`, in descending order,
   and nothing of `s` left out has a larger key than the last one of `r`.
   */
  ghost predicate IsTop<T>(r: seq<T>, s: seq<T>, key: T -> int) {
    && multiset(r) <= multiset(s)
    && NonIncreasing(r, key)
    && (|r| > 0 ==> AllAtMost(multiset(s) - multiset(r), key, key(r[|r| - 1])))
  }

  /** A prefix of a descending sequence holds its best elements. */
  lemma PrefixOfSorted<T>(sorted: seq<T>, key: T -> int, k: nat)
    requires NonIncreasing(sorted, key)
    ensures IsTop(Take(sorted, k), sorted, key)
  {
    var r := Take(sorted, k);
    var rest := sorted[|r|..];
    assert sorted == r + rest;
    assert multiset(sorted) == multiset(r) + multiset(rest);
    assert NonIncreasing(r, key) by {
      forall i, j | 0 <= i < j < |r| ensures key(r[i]) >= key(r[j]) {
        assert r[i] == sorted[i] && r[j] == sorted[j];
      }
    }
    if |r| > 0 {
      forall x | x in multiset(sorted) - multiset(r)
        ensures key(x) <= key(r[|r| - 1])
      {
        assert x in multiset(rest);
        assert x in rest;
        var j :| 0 <= j < |rest| && rest[j] == x;
        assert sorted[|r| + j] == x;
        assert sorted[|r| - 1] == r[|r| - 1];
      }
    }
  }

  /** Being the best elements depends only on the elements, not their order. */
  lemma IsTopSameElements<T>(r: seq<T>, s: seq<T>, t: seq<T>, key: T -> int)
    requires IsTop(r, s, key)
    requires multiset(s) == multiset(t)
    ensures IsTop(r, t, key)
  {
  }

  /**
   Taking the first `k` of the sorted sequence keeps the `k` best: as many
   as the input allows, and the best of them.
   */
  lemma TopK<T>(s: seq<T>, key: T -> int, k: nat)
    ensures |Take(SortDesc(s, key), k)| == (if k <= |s| then k else |s|)
    ensures IsTop(Take(SortDesc(s, key), k), s, key)
  {
    var sorted := SortDesc(s, key);
    PrefixOfSorted(sorted, key, k);
    IsTopSameElements(Take(sorted, k), sorted, s, key);
  }

  /** Rows picked at increasing positions of a descending sequence stay descending. */
  lemma PickSorted<T>(s: seq<T>, ix: seq<nat>, key: T -> int)
    requires NonIncreasing(s, key)
    requires Increasing(ix) && Below(ix, |s|)
    ensures NonIncreasing(Pick(s, ix), key)
  {
    var r := Pick(s, ix);
    forall i, j | 0 <= i < j < |r| ensures key(r[i]) >= key(r[j]) {
      assert r[i] == s[ix[i]] && r[j] == s[ix[j]];
      assert ix[i] < ix[j];
    }
  }
}
