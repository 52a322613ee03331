/**
 The single-category ranker (`get_best_items`, app.py).

 Given the eligible pool in descending score order (the table after
 `reset_index(drop=True)`, so a row is identified by its position), the
 ranker prefers tag-matched rows, takes `limit * people` of them, backfills
 from the whole pool with rows not yet chosen, drops repeated names (only on
 the backfill path) and truncates. Positions are computed first and the rows
 picked at the end, so "each row at most once" is a statement about
 positions.
 */
module Ranker {
  import opened Seqs
  import opened Sorting
  import opened Menu

  /** Positions of the tag-matched rows (`tag_score > 0`), in pool order. */
  function Matched(pool: seq<Scored>): (r: seq<nat>)
    ensures forall i :: i in r <==> 0 <= i < |pool| && pool[i].tagScore > 0
    ensures Increasing(r)
    ensures Below(r, |pool|)
  {
    var r := RangeWhere(0, |pool|, IsMatchedAt(pool));
    assert forall k :: 0 <= k < |r| ==> r[k] < |pool| by {
      forall k | 0 <= k < |r| ensures r[k] < |pool| {
        assert r[k] in r;
      }
    }
    r
  }

  /** The mask `tag_score > 0` over pool positions. */
  function IsMatchedAt(pool: seq<Scored>): nat -> bool {
    (i: nat) => i < |pool| && pool[i].tagScore > 0
  }

  /** Positions below `n` that are not among `chosen` (`~index.isin(chosen.index)`). */
  function Unchosen(n: nat, chosen: seq<nat>): (r: seq<nat>)
    ensures forall i :: i in r <==> 0 <= i < n && i !in chosen
    ensures Increasing(r)
  {
    RangeWhere(0, n, NotIn(chosen))
  }

  /** The mask `~index.isin(chosen)` over pool positions. */
  function NotIn(chosen: seq<nat>): nat -> bool {
    (i: nat) => i !in chosen
  }

  /** The de-duplication key of the row at position `i`. */
  function NameAt(pool: seq<Scored>, i: nat): string
    requires i < |pool|
  {
    pool[i].item.name
  }

  /**
   `drop_duplicates(subset=['name'])` over the rows at positions `ix`: a
   position is kept unless its name is in `seen` or was kept earlier.
   */
  function DedupByName(pool: seq<Scored>, ix: seq<nat>, seen: set<string>): (r: seq<nat>)
    requires Below(ix, |pool|)
    ensures Below(r, |pool|)
    ensures forall k :: 0 <= k < |r| ==> r[k] in ix
    ensures |r| <= |ix|
    decreases |ix|
  {
    if |ix| == 0 then []
    else if NameAt(pool, ix[0]) in seen then
      var rest := DedupByName(pool, ix[1..], seen);
      SubseqTailIn(ix, rest);
      rest
    else
      var rest := DedupByName(pool, ix[1..], seen + {NameAt(pool, ix[0])});
      SubseqTailIn(ix, rest);
      [ix[0]] + rest
  }

  lemma SubseqTailIn(ix: seq<nat>, rest: seq<nat>)
    requires |ix| > 0
    requires forall k :: 0 <= k < |rest| ==> rest[k] in ix[1..]
    ensures forall k :: 0 <= k < |rest| ==> rest[k] in ix
  {
    forall k | 0 <= k < |rest| ensures rest[k] in ix {
      var j :| 0 <= j < |ix[1..]| && ix[1..][j] == rest[k];
      assert ix[j + 1] == rest[k];
    }
  }

  /**
   The preferred positions: the tag-matched rows when there are any, else the
   whole pool.
   */
  function Preferred(pool: seq<Scored>): (r: seq<nat>)
    ensures Increasing(r) && Below(r, |pool|)
  {
    RangeBelow(0, |pool|);
    RangeIncreasing(0, |pool|);
    if |Matched(pool)| == 0 then Range(0, |pool|) else Matched(pool)
  }

  /**
   The backfill path: `primary` followed by the first pool rows not already
   chosen, up to `target` in all, then de-duplicated by name.
   */
  function Backfilled(pool: seq<Scored>, primary: seq<nat>, target: nat): (r: seq<nat>)
    requires Below(primary, |pool|)
    requires |primary| < target
    ensures Below(r, |pool|) && Distinct(r)
  {
    var extra := Take(Unchosen(|pool|, primary), target - |primary|);
    assert Below(extra, |pool|) by {
      forall k | 0 <= k < |extra| ensures extra[k] < |pool| {
        assert extra[k] in Unchosen(|pool|, primary);
      }
    }
    var combined := primary + extra;
    DedupNamesDistinct(pool, combined, {});
    DedupByName(pool, combined, {})
  }

  /** Positions the ranker returns; `limit` is `None` or the per-person count. */
  function BestPositions(pool: seq<Scored>, limit: Option<nat>, people: nat): (r: seq<nat>)
    ensures Below(r, |pool|)
    ensures Distinct(r)
    ensures limit.Some? ==> |r| <= limit.value * people
  {
    match limit
    case None =>
      IncreasingIsDistinct(Preferred(pool));
      Preferred(pool)
    case Some(l) =>
      var target := l * people;
      var primary := Take(Preferred(pool), target);
      TakeIncreasing(Preferred(pool), target);
      IncreasingIsDistinct(primary);
      var full := if |primary| < target then Backfilled(pool, primary, target) else primary;
      TakeKeeps(full, target, |pool|);
      Take(full, target)
  }

  /** The ranker over an already sorted eligible pool. */
  function BestItemsFrom(pool: seq<Scored>, limit: Option<nat>, people: nat): seq<Scored> {
    Pick(pool, BestPositions(pool, limit, people))
  }

  /**
   `get_best_items`: nothing for an empty catalog; otherwise the ranker over
   one admissible ordering of the eligible rows.
   */
  function GetBestItems(
    catalog: seq<MenuItem>, selected: seq<string>, range: SweetRange, limit: Option<nat>, people: nat
  ): (r: seq<Scored>)
    ensures |catalog| == 0 ==> r == []
    ensures forall x <- r :: WellScored(x, range)
    ensures NonIncreasing(r, ScoreKey)
    ensures limit.Some? ==> |r| <= limit.value * people
  {
    if |catalog| == 0 then []
    else
      var pool := RankedPool(catalog, selected, range);
      BestItemsSound(pool, catalog, selected, range, limit, people);
      BestItemsFrom(pool, limit, people)
  }

  // ---------------------------------------------------------------------------
  // Properties of the ranker
  // ---------------------------------------------------------------------------

  /** No two of the positions `ix` carry the same name. */
  predicate NamesDistinct(pool: seq<Scored>, ix: seq<nat>)
    requires Below(ix, |pool|)
  {
    forall a, b :: 0 <= a < b < |ix| ==> NameAt(pool, ix[a]) != NameAt(pool, ix[b])
  }

  /** None of the positions `ix` carries a name in `seen`. */
  predicate NamesAvoid(pool: seq<Scored>, ix: seq<nat>, seen: set<string>)
    requires Below(ix, |pool|)
  {
    forall k :: 0 <= k < |ix| ==> NameAt(pool, ix[k]) !in seen
  }

  /** Kept names avoid `seen` and are pairwise different. */
  lemma {:induction false} DedupNamesDistinct(pool: seq<Scored>, ix: seq<nat>, seen: set<string>)
    requires Below(ix, |pool|)
    ensures NamesAvoid(pool, DedupByName(pool, ix, seen), seen)
    ensures NamesDistinct(pool, DedupByName(pool, ix, seen))
    decreases |ix|
  {
    if |ix| > 0 {
      var name := NameAt(pool, ix[0]);
      var r := DedupByName(pool, ix, seen);
      if name in seen {
        DedupNamesDistinct(pool, ix[1..], seen);
        assert r == DedupByName(pool, ix[1..], seen);
      } else {
        var seen' := seen + {name};
        DedupNamesDistinct(pool, ix[1..], seen');
        var rest := DedupByName(pool, ix[1..], seen');
        assert r == [ix[0]] + rest;
        assert NamesAvoid(pool, rest, seen');
        assert NamesDistinct(pool, rest);
        forall k | 0 <= k < |r| ensures NameAt(pool, r[k]) !in seen {
          if k > 0 {
            assert r[k] == rest[k - 1];
            assert NameAt(pool, rest[k - 1]) !in seen';
          }
        }
        forall a, b | 0 <= a < b < |r| ensures NameAt(pool, r[a]) != NameAt(pool, r[b]) {
          assert r[b] == rest[b - 1];
          assert NameAt(pool, rest[b - 1]) !in seen';
          if a > 0 {
            assert r[a] == rest[a - 1];
          }
        }
      }
    }
  }

  /** Keeping positions from an increasing list keeps them increasing. */
  lemma {:induction false} DedupIncreasing(pool: seq<Scored>, ix: seq<nat>, seen: set<string>)
    requires Below(ix, |pool|)
    requires Increasing(ix)
    ensures Increasing(DedupByName(pool, ix, seen))
    decreases |ix|
  {
    if |ix| > 0 {
      var name := NameAt(pool, ix[0]);
      var seen' := if name in seen then seen else seen + {name};
      var tail := ix[1..];
      IncreasingTail(ix);
      DedupIncreasing(pool, tail, seen');
      var rest := DedupByName(pool, tail, seen');
      if name !in seen {
        AboveHead(ix, rest);
        ConsIncreasing(ix[0], rest);
      }
    }
  }

  lemma IncreasingTail(ix: seq<nat>)
    requires |ix| > 0 && Increasing(ix)
    ensures Increasing(ix[1..])
  {
    var tail := ix[1..];
    forall i, j | 0 <= i < j < |tail| ensures tail[i] < tail[j] {
      assert tail[i] == ix[i + 1] && tail[j] == ix[j + 1];
    }
  }

  /** Positions drawn from the tail of an increasing list lie above its head. */
  lemma AboveHead(ix: seq<nat>, rest: seq<nat>)
    requires |ix| > 0 && Increasing(ix)
    requires forall k :: 0 <= k < |rest| ==> rest[k] in ix[1..]
    ensures forall k :: 0 <= k < |rest| ==> ix[0] < rest[k]
  {
    forall k | 0 <= k < |rest| ensures ix[0] < rest[k] {
      var j :| 0 <= j < |ix[1..]| && ix[1..][j] == rest[k];
      assert ix[j + 1] == rest[k];
    }
  }

  lemma ConsIncreasing(x: nat, rest: seq<nat>)
    requires Increasing(rest)
    requires forall k :: 0 <= k < |rest| ==> x < rest[k]
    ensures Increasing([x] + rest)
  {
    var r := [x] + rest;
    forall i, j | 0 <= i < j < |r| ensures r[i] < r[j] {
      assert r[j] == rest[j - 1];
      if i > 0 {
        assert r[i] == rest[i - 1];
      }
    }
  }

  /** With no name repeated and none already seen, nothing is dropped. */
  lemma {:induction false} DedupKeepsDistinctNames(pool: seq<Scored>, ix: seq<nat>, seen: set<string>)
    requires Below(ix, |pool|)
    requires NamesDistinct(pool, ix)
    requires NamesAvoid(pool, ix, seen)
    ensures DedupByName(pool, ix, seen) == ix
    decreases |ix|
  {
    if |ix| > 0 {
      var name := NameAt(pool, ix[0]);
      var tail := ix[1..];
      assert name !in seen;
      assert NamesAvoid(pool, tail, seen + {name}) by {
        forall k | 0 <= k < |tail| ensures NameAt(pool, tail[k]) !in seen + {name} {
          assert tail[k] == ix[k + 1];
        }
      }
      assert NamesDistinct(pool, tail) by {
        forall a, b | 0 <= a < b < |tail| ensures NameAt(pool, tail[a]) != NameAt(pool, tail[b]) {
          assert tail[a] == ix[a + 1] && tail[b] == ix[b + 1];
        }
      }
      DedupKeepsDistinctNames(pool, tail, seen + {name});
      assert DedupByName(pool, ix, seen) == [ix[0]] + tail;
      assert ix == [ix[0]] + tail;
    }
  }

  /** Some position of `r` carries `name`. */
  ghost predicate HasName(pool: seq<Scored>, r: seq<nat>, name: string)
    requires Below(r, |pool|)
  {
    exists j :: 0 <= j < |r| && NameAt(pool, r[j]) == name
  }

  lemma HasNameCons(pool: seq<Scored>, x: nat, r: seq<nat>, name: string)
    requires x < |pool| && Below(r, |pool|)
    requires HasName(pool, r, name)
    ensures Below([x] + r, |pool|) && HasName(pool, [x] + r, name)
  {
    var j :| 0 <= j < |r| && NameAt(pool, r[j]) == name;
    assert ([x] + r)[j + 1] == r[j];
  }

  /** No name of `ix` is lost: each one outside `seen` survives on some kept position. */
  lemma {:induction false} DedupKeepsEveryName(pool: seq<Scored>, ix: seq<nat>, seen: set<string>, k: nat)
    requires Below(ix, |pool|)
    requires k < |ix| && NameAt(pool, ix[k]) !in seen
    ensures HasName(pool, DedupByName(pool, ix, seen), NameAt(pool, ix[k]))
    decreases |ix|
  {
    var name := NameAt(pool, ix[0]);
    var tail := ix[1..];
    if name in seen {
      assert k > 0 && ix[k] == tail[k - 1];
      DedupKeepsEveryName(pool, tail, seen, k - 1);
    } else {
      var rest := DedupByName(pool, tail, seen + {name});
      var r := DedupByName(pool, ix, seen);
      assert r == [ix[0]] + rest;
      if NameAt(pool, ix[k]) == name {
        assert NameAt(pool, r[0]) == NameAt(pool, ix[k]);
      } else {
        assert k > 0 && ix[k] == tail[k - 1];
        DedupKeepsEveryName(pool, tail, seen + {name}, k - 1);
        HasNameCons(pool, ix[0], rest, NameAt(pool, ix[k]));
      }
    }
  }

  /**
   First occurrence wins: of two distinct positions sharing a name, the later
   one is never kept.
   */
  lemma {:induction false} DedupDropsLater(pool: seq<Scored>, ix: seq<nat>, seen: set<string>, a: nat, b: nat)
    requires Below(ix, |pool|)
    requires Distinct(ix)
    requires a < b < |ix| && NameAt(pool, ix[a]) == NameAt(pool, ix[b])
    ensures ix[b] !in DedupByName(pool, ix, seen)
    decreases |ix|
  {
    var name := NameAt(pool, ix[0]);
    var seen' := if name in seen then seen else seen + {name};
    var tail := ix[1..];
    var r := DedupByName(pool, ix, seen);
    var rest := DedupByName(pool, tail, seen');
    assert r == if name in seen then rest else [ix[0]] + rest;
    assert Distinct(tail) by {
      forall i, j | 0 <= i < j < |tail| ensures tail[i] != tail[j] {
        assert tail[i] == ix[i + 1] && tail[j] == ix[j + 1];
      }
    }
    assert ix[b] == tail[b - 1];
    assert ix[b] != ix[0];
    if a == 0 {
      // the shared name is now in seen', which no kept position of rest carries
      DedupNamesDistinct(pool, tail, seen');
    } else {
      assert ix[a] == tail[a - 1];
      DedupDropsLater(pool, tail, seen', a - 1, b - 1);
    }
  }

  /**
   In an admissible pool every tag-matched row scores above every other row,
   so the tag-matched positions are the first ones.
   */
  lemma MatchedIsLeadingRun(pool: seq<Scored>, range: SweetRange)
    requires SortedPool(pool, range)
    ensures Matched(pool) == Range(0, |Matched(pool)|)
  {
    var p := IsMatchedAt(pool);
    var m := FirstFailing(0, |pool|, p);
    forall i | 0 <= i < |pool| ensures p(i) <==> i < m {
      if m <= i {
        assert !p(m);
        assert WellScored(pool[m], range) && WellScored(pool[i], range);
        assert ScoreKey(pool[m]) >= ScoreKey(pool[i]);
      }
    }
    DownClosedIsRun(0, |pool|, p, m);
  }

  /** Over a sorted pool the preferred positions are a leading run. */
  lemma PreferredIsRun(pool: seq<Scored>, range: SweetRange)
    requires SortedPool(pool, range)
    ensures var m := |Matched(pool)|;
      Preferred(pool) == Range(0, if m == 0 then |pool| else m)
  {
    MatchedIsLeadingRun(pool, range);
  }

  /** Excluding a leading run leaves the rest of the positions. */
  lemma UnchosenAfterRun(n: nat, m: nat)
    requires m <= n
    ensures Unchosen(n, Range(0, m)) == Range(m, n)
  {
    var primary := Range(0, m);
    var p := NotIn(primary);
    forall i | 0 <= i < n ensures p(i) <==> m <= i {
      if i < m {
        assert primary[i] == i;
      }
    }
    UpClosedIsRun(0, n, p, m);
  }

  /** Backfilling after a leading run continues the run. */
  lemma BackfillAfterRun(pool: seq<Scored>, m: nat, target: nat)
    requires m < target && m <= |pool|
    ensures Below(Range(0, m), |pool|) && Below(Range(0, Min(target, |pool|)), |pool|)
    ensures Backfilled(pool, Range(0, m), target) == DedupByName(pool, Range(0, Min(target, |pool|)), {})
  {
    var n := |pool|;
    var top := Min(target, n);
    RangeBelow(0, m);
    RangeBelow(0, top);
    UnchosenAfterRun(n, m);
    TakeRange(m, n, target - m);
    assert Min(n, m + (target - m)) == top;
    var extra := Take(Unchosen(n, Range(0, m)), target - m);
    assert extra == Range(m, top);
    RangeConcat(0, m, top);
    assert Range(0, m) + extra == Range(0, top);
  }

  /** Enough preferred rows: no backfill, the first `limit * people` of them. */
  lemma ShapeWithoutBackfill(pool: seq<Scored>, l: nat, people: nat, preferred: nat)
    requires Preferred(pool) == Range(0, preferred) && preferred <= |pool|
    requires preferred >= l * people
    ensures BestPositions(pool, Some(l), people) == Range(0, l * people)
  {
    var target := l * people;
    TakeRange(0, preferred, target);
    assert Take(Preferred(pool), target) == Range(0, target);
  }

  /** Too few preferred rows: the leading run of the pool, de-duplicated by name. */
  lemma ShapeWithBackfill(pool: seq<Scored>, l: nat, people: nat, preferred: nat)
    requires Preferred(pool) == Range(0, preferred) && preferred <= |pool|
    requires preferred < l * people
    ensures Below(Range(0, Min(l * people, |pool|)), |pool|)
    ensures BestPositions(pool, Some(l), people) == DedupByName(pool, Range(0, Min(l * people, |pool|)), {})
  {
    var target := l * people;
    TakeRange(0, preferred, target);
    assert Take(Preferred(pool), target) == Range(0, preferred);
    BackfillAfterRun(pool, preferred, target);
  }

  /**
   Over a sorted eligible pool the ranker's positions are a leading run of
   the pool, de-duplicated by name exactly when the preferred rows fall short
   of `limit * people`.
   */
  lemma BestPositionsShape(pool: seq<Scored>, range: SweetRange, limit: Option<nat>, people: nat)
    requires SortedPool(pool, range)
    ensures var m := |Matched(pool)|;
      var preferred := if m == 0 then |pool| else m;
      BestPositions(pool, limit, people) ==
        match limit
        case None => Range(0, preferred)
        case Some(l) =>
          if preferred < l * people then DedupByName(pool, Range(0, Min(l * people, |pool|)), {})
          else Range(0, l * people)
  {
    PreferredIsRun(pool, range);
    var m := |Matched(pool)|;
    var preferred := if m == 0 then |pool| else m;
    if limit.Some? {
      if preferred < limit.value * people {
        ShapeWithBackfill(pool, limit.value, people, preferred);
      } else {
        ShapeWithoutBackfill(pool, limit.value, people, preferred);
      }
    }
  }

  /** The first `m` positions pick the first `m` rows. */
  lemma PickLeadingRun(pool: seq<Scored>, m: nat)
    requires m <= |pool|
    ensures Below(Range(0, m), |pool|)
    ensures Pick(pool, Range(0, m)) == pool[..m]
  {
    RangeBelow(0, m);
  }

  lemma UniqueNamesOnRun(pool: seq<Scored>, m: nat, seen: set<string>)
    requires UniqueNames(pool) && m <= |pool|
    ensures Below(Range(0, m), |pool|)
    ensures DedupByName(pool, Range(0, m), {}) == Range(0, m)
  {
    RangeBelow(0, m);
    DedupKeepsDistinctNames(pool, Range(0, m), {});
  }

  /** The ranker only returns rows of the pool (for any pool order). */
  lemma BestItemsFromPool(pool: seq<Scored>, limit: Option<nat>, people: nat)
    ensures forall x <- BestItemsFrom(pool, limit, people) :: x in pool
  {
    PickFrom(pool, BestPositions(pool, limit, people));
  }

  /** Over a sorted pool the ranker's positions increase. */
  lemma BestPositionsIncreasing(pool: seq<Scored>, range: SweetRange, limit: Option<nat>, people: nat)
    requires SortedPool(pool, range)
    ensures Increasing(BestPositions(pool, limit, people))
  {
    PreferredIsRun(pool, range);
    var m := |Matched(pool)|;
    var preferred := if m == 0 then |pool| else m;
    RangeIncreasing(0, preferred);
    if limit.Some? {
      var target := limit.value * people;
      if preferred < target {
        ShapeWithBackfill(pool, limit.value, people, preferred);
        RangeIncreasing(0, Min(target, |pool|));
        DedupIncreasing(pool, Range(0, Min(target, |pool|)), {});
      } else {
        ShapeWithoutBackfill(pool, limit.value, people, preferred);
        RangeIncreasing(0, target);
      }
    }
  }

  /** Over a sorted pool the ranker returns rows in non-increasing score order. */
  lemma BestItemsSorted(pool: seq<Scored>, range: SweetRange, limit: Option<nat>, people: nat)
    requires SortedPool(pool, range)
    ensures NonIncreasing(BestItemsFrom(pool, limit, people), ScoreKey)
  {
    BestPositionsIncreasing(pool, range, limit, people);
    PickSorted(pool, BestPositions(pool, limit, people), ScoreKey);
  }

  /**
   Whatever the order among equal scores, the ranker returns eligible rows of
   the catalog, in non-increasing score order, at most `limit * people` of
   them, and nothing when the pool is empty.
   */
  lemma BestItemsSound(
    pool: seq<Scored>, catalog: seq<MenuItem>, selected: seq<string>, range: SweetRange,
    limit: Option<nat>, people: nat)
    requires IsRankedPool(pool, catalog, selected, range)
    ensures var r := BestItemsFrom(pool, limit, people);
      && (forall x <- r :: WellScored(x, range))
      && (forall x <- r :: exists i :: 0 <= i < |catalog| && x == Score(catalog[i], selected, range))
      && NonIncreasing(r, ScoreKey)
      && (limit.Some? ==> |r| <= limit.value * people)
      && (|pool| == 0 ==> r == [])
  {
    RankedPoolRows(pool, catalog, selected, range);
    RankedPoolIsSorted(pool, catalog, selected, range);
    BestItemsFromPool(pool, limit, people);
    BestItemsSorted(pool, range, limit, people);
  }

  /** With enough tag-matched rows the ranker takes the first `limit * people` of them. */
  lemma EnoughMatchedPositions(pool: seq<Scored>, l: nat, people: nat)
    requires |Matched(pool)| >= l * people
    ensures BestPositions(pool, Some(l), people) == Take(Matched(pool), l * people)
  {
    if l * people > 0 {
      assert Preferred(pool) == Matched(pool);
    }
  }

  /**
   When at least `limit * people` rows are tag-matched, only tag-matched rows
   are returned, exactly `limit * people` of them (for any pool order).
   */
  lemma EnoughMatchedOnlyMatched(pool: seq<Scored>, l: nat, people: nat)
    requires |Matched(pool)| >= l * people
    ensures forall x <- BestItemsFrom(pool, Some(l), people) :: x.tagScore > 0
    ensures |BestItemsFrom(pool, Some(l), people)| == l * people
  {
    var r := BestItemsFrom(pool, Some(l), people);
    var ix := BestPositions(pool, Some(l), people);
    EnoughMatchedPositions(pool, l, people);
    forall k | 0 <= k < |r| ensures r[k].tagScore > 0 {
      assert ix[k] == Matched(pool)[k];
      assert ix[k] in Matched(pool);
    }
  }

  /**
   When no row is tag-matched, the result is the leading rows of the pool:
   all of them without a limit, and the first `limit * people` when the pool
   is long enough or its names are unique (for any pool order).
   */
  lemma NoMatchIsPrefix(pool: seq<Scored>, limit: Option<nat>, people: nat)
    requires |Matched(pool)| == 0
    ensures limit.None? ==> BestItemsFrom(pool, limit, people) == pool
    ensures limit.Some? && (limit.value * people <= |pool| || UniqueNames(pool)) ==>
      BestItemsFrom(pool, limit, people) == Take(pool, limit.value * people)
  {
    var n := |pool|;
    assert Preferred(pool) == Range(0, n);
    PickLeadingRun(pool, n);
    if limit.Some? {
      var target := limit.value * people;
      if target <= n {
        ShapeWithoutBackfill(pool, limit.value, people, n);
        PickLeadingRun(pool, target);
      } else if UniqueNames(pool) {
        ShapeWithBackfill(pool, limit.value, people, n);
        UniqueNamesOnRun(pool, n, {});
      }
    }
  }

  /**
   Over a sorted pool with unique names, the ranker returns exactly
   `min(limit * people, |pool|)` rows; without a limit it returns all
   tag-matched rows, or the whole pool when none is matched.
   */
  lemma BestItemsLength(pool: seq<Scored>, range: SweetRange, limit: Option<nat>, people: nat)
    requires SortedPool(pool, range)
    requires UniqueNames(pool)
    ensures limit.Some? ==> |BestItemsFrom(pool, limit, people)| == Min(limit.value * people, |pool|)
    ensures limit.None? ==>
      |BestItemsFrom(pool, limit, people)| == if |Matched(pool)| == 0 then |pool| else |Matched(pool)|
  {
    PreferredIsRun(pool, range);
    var m := |Matched(pool)|;
    var preferred := if m == 0 then |pool| else m;
    if limit.Some? {
      var target := limit.value * people;
      if preferred < target {
        ShapeWithBackfill(pool, limit.value, people, preferred);
        UniqueNamesOnRun(pool, Min(target, |pool|), {});
      } else {
        ShapeWithoutBackfill(pool, limit.value, people, preferred);
      }
    }
  }
}
