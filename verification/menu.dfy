/**
 The catalog rows and the scorer (`calculate_score`, app.py).

 A catalog row is scored against the user's selected tags and inclusive
 sweetness range: `sweetness_match` is 5 inside the range and 0 outside,
 `tag_score` is 10 for each selected tag (repeats counted again) that the
 row's tag list contains, and `total_score` is their sum. Rows with
 `sweetness_match == 0` form no part of any recommendation; the remaining
 rows, sorted by `total_score` from high to low, are the eligible pool.
 */
module Menu {
  import opened Seqs
  import opened Sorting

  /** One catalog row; `tags` is the loader's already-cleaned tag list. */
  datatype MenuItem = MenuItem(
    category: string,
    name: string,
    price: int,
    sweetness: int,
    tags: seq<string>)

  /** The user's sweetness preference, inclusive at both ends. */
  datatype SweetRange = SweetRange(lo: int, hi: int)

  /** A row together with the three columns the scorer attaches to it. */
  datatype Scored = Scored(item: MenuItem, tagScore: nat, sweetnessMatch: nat, totalScore: nat)

  /** Points for a sweetness inside the preferred range. */
  const SweetnessPoints: nat := 5

  /** Points for each selected tag found in a row's tags. */
  const TagPoints: nat := 10

  predicate InRange(sweetness: int, range: SweetRange) {
    range.lo <= sweetness <= range.hi
  }

  /** The `sweetness_match` column. */
  function SweetnessMatch(sweetness: int, range: SweetRange): (r: nat)
    ensures r == SweetnessPoints <==> InRange(sweetness, range)
    ensures r == 0 <==> !InRange(sweetness, range)
  {
    if range.lo <= sweetness <= range.hi then SweetnessPoints else 0
  }

  /** How many entries of `selected` (repeats included) occur in `tags`. */
  function Hits(selected: seq<string>, tags: seq<string>): (n: nat)
    ensures n <= |selected|
  {
    if |selected| == 0 then 0
    else Hits(selected[..|selected| - 1], tags) + (if selected[|selected| - 1] in tags then 1 else 0)
  }

  /** The inner `tag_score`: nothing for an empty tag list, else 10 per hit. */
  function TagScore(tags: seq<string>, selected: seq<string>): nat {
    if |tags| == 0 then 0 else TagPoints * Hits(selected, tags)
  }

  /** `calculate_score` applied to one row. */
  function Score(item: MenuItem, selected: seq<string>, range: SweetRange): Scored {
    var tag := TagScore(item.tags, selected);
    var sweet := SweetnessMatch(item.sweetness, range);
    Scored(item, tag, sweet, tag + sweet)
  }

  /** `calculate_score` applied to a whole catalog, row by row. */
  function ScoreAll(catalog: seq<MenuItem>, selected: seq<string>, range: SweetRange): (r: seq<Scored>)
    ensures |r| == |catalog|
    ensures forall i :: 0 <= i < |catalog| ==> r[i] == Score(catalog[i], selected, range)
  {
    seq(|catalog|, i requires 0 <= i < |catalog| => Score(catalog[i], selected, range))
  }

  /** The boolean filter `sweetness_match > 0`, keeping every surviving row. */
  function Eligible(rows: seq<Scored>): (r: seq<Scored>)
    ensures forall x :: multiset(r)[x] == if x.sweetnessMatch > 0 then multiset(rows)[x] else 0
  {
    if |rows| == 0 then []
    else
      assert rows == [rows[0]] + rows[1..];
      (if rows[0].sweetnessMatch > 0 then [rows[0]] else []) + Eligible(rows[1..])
  }

  /** The sort key `total_score`. */
  function ScoreKey(x: Scored): int {
    x.totalScore
  }

  /**
   What `sort_values(by='total_score', ascending=False)` may return for the
   eligible rows: any rearrangement of them with non-increasing scores. The
   sort is not stable, so the order among equal scores is left open.
   */
  predicate IsRankedPool(pool: seq<Scored>, catalog: seq<MenuItem>, selected: seq<string>, range: SweetRange) {
    && multiset(pool) == multiset(Eligible(ScoreAll(catalog, selected, range)))
    && NonIncreasing(pool, ScoreKey)
  }

  /** One admissible outcome of the sort: the eligible rows, highest score first. */
  function RankedPool(catalog: seq<MenuItem>, selected: seq<string>, range: SweetRange): (r: seq<Scored>)
    ensures IsRankedPool(r, catalog, selected, range)
  {
    SortDesc(Eligible(ScoreAll(catalog, selected, range)), ScoreKey)
  }

  /** The shape every row of an eligible pool has. */
  predicate WellScored(x: Scored, range: SweetRange) {
    && InRange(x.item.sweetness, range)
    && x.sweetnessMatch == SweetnessPoints
    && x.totalScore == x.tagScore + SweetnessPoints
  }

  /** A descending pool whose every row has the eligible shape. */
  predicate SortedPool(pool: seq<Scored>, range: SweetRange) {
    && NonIncreasing(pool, ScoreKey)
    && forall k :: 0 <= k < |pool| ==> WellScored(pool[k], range)
  }

  /** No two rows share a name. */
  predicate UniqueNames(rows: seq<Scored>) {
    forall i, j :: 0 <= i < j < |rows| ==> rows[i].item.name != rows[j].item.name
  }

  // ---------------------------------------------------------------------------
  // Properties of the scorer
  // ---------------------------------------------------------------------------

  lemma {:induction false} HitsCountsPositions(selected: seq<string>, tags: seq<string>, n: nat)
    requires n <= |selected|
    ensures Hits(selected[..n], tags) == |set i | 0 <= i < n && selected[i] in tags|
  {
    if n > 0 {
      HitsCountsPositions(selected, tags, n - 1);
      var before := set i | 0 <= i < n - 1 && selected[i] in tags;
      var now := set i | 0 <= i < n && selected[i] in tags;
      assert selected[..n][..n - 1] == selected[..n - 1];
      assert selected[..n][n - 1] == selected[n - 1];
      if selected[n - 1] in tags {
        assert now == before + {n - 1};
        assert n - 1 !in before;
      } else {
        assert now == before;
      }
    }
  }

  /**
   The tag score counts selected positions: 10 for every entry of `selected`
   (a repeated entry counts again) that the row's tag list contains, and
   nothing when either list is empty.
   */
  lemma TagScoreCounts(tags: seq<string>, selected: seq<string>)
    ensures TagScore(tags, selected) == TagPoints * |set i | 0 <= i < |selected| && selected[i] in tags|
    ensures |tags| == 0 || |selected| == 0 ==> TagScore(tags, selected) == 0
    ensures TagScore(tags, selected) <= TagPoints * |selected|
  {
    HitsCountsPositions(selected, tags, |selected|);
    assert selected[..|selected|] == selected;
    if |tags| == 0 {
      var hits := set i | 0 <= i < |selected| && selected[i] in tags;
      assert hits == {};
    }
  }

  /** A row is tag-matched exactly when some selected tag occurs in its tag list. */
  lemma {:induction false} TagMatchedIff(tags: seq<string>, selected: seq<string>)
    ensures TagScore(tags, selected) > 0 <==> exists i :: 0 <= i < |selected| && selected[i] in tags
  {
    TagScoreCounts(tags, selected);
    var hits := set i | 0 <= i < |selected| && selected[i] in tags;
    if exists i :: 0 <= i < |selected| && selected[i] in tags {
      var i :| 0 <= i < |selected| && selected[i] in tags;
      assert i in hits;
    } else {
      assert hits == {};
    }
  }

  /**
   `calculate_score` on one row: the sweetness column is 5 exactly inside the
   inclusive range and 0 outside it, the tag column counts selected tags the
   row carries, and the total is their sum.
   */
  lemma ScoreColumns(item: MenuItem, selected: seq<string>, range: SweetRange)
    ensures var s := Score(item, selected, range);
      && s.item == item
      && (s.sweetnessMatch == SweetnessPoints <==> range.lo <= item.sweetness <= range.hi)
      && (s.sweetnessMatch == 0 <==> !(range.lo <= item.sweetness <= range.hi))
      && s.tagScore == TagPoints * |set i | 0 <= i < |selected| && selected[i] in item.tags|
      && s.totalScore == s.tagScore + s.sweetnessMatch
  {
    TagScoreCounts(item.tags, selected);
  }

  /**
   The eligible pool holds exactly the scored rows whose sweetness lies in the
   range, each as often as the catalog holds it.
   */
  lemma EligibleIffInRange(catalog: seq<MenuItem>, selected: seq<string>, range: SweetRange, x: Scored)
    ensures x in Eligible(ScoreAll(catalog, selected, range))
        <==> exists i :: 0 <= i < |catalog| && x == Score(catalog[i], selected, range)
                         && InRange(catalog[i].sweetness, range)
  {
    var rows := ScoreAll(catalog, selected, range);
    assert x in Eligible(rows) <==> x in multiset(Eligible(rows));
    if x in Eligible(rows) {
      assert x in rows;
      var i :| 0 <= i < |rows| && rows[i] == x;
      assert x == Score(catalog[i], selected, range);
    }
    if exists i :: 0 <= i < |catalog| && x == Score(catalog[i], selected, range)
                   && InRange(catalog[i].sweetness, range) {
      var i :| 0 <= i < |catalog| && x == Score(catalog[i], selected, range)
               && InRange(catalog[i].sweetness, range);
      assert rows[i] == x;
      assert x in multiset(rows);
    }
  }

  /**
   Every row of an admissible pool is the score of some catalog row whose
   sweetness is in range, with `sweetness_match == 5`.
   */
  lemma RankedPoolRows(pool: seq<Scored>, catalog: seq<MenuItem>, selected: seq<string>, range: SweetRange)
    requires IsRankedPool(pool, catalog, selected, range)
    ensures forall x <- pool :: WellScored(x, range)
    ensures forall x <- pool :: exists i :: 0 <= i < |catalog| && x == Score(catalog[i], selected, range)
  {
    forall x <- pool
      ensures WellScored(x, range)
      ensures exists i :: 0 <= i < |catalog| && x == Score(catalog[i], selected, range)
    {
      assert x in multiset(pool);
      assert x in Eligible(ScoreAll(catalog, selected, range));
      EligibleIffInRange(catalog, selected, range, x);
    }
  }

  lemma RankedPoolIsSorted(pool: seq<Scored>, catalog: seq<MenuItem>, selected: seq<string>, range: SweetRange)
    requires IsRankedPool(pool, catalog, selected, range)
    ensures SortedPool(pool, range)
  {
    RankedPoolRows(pool, catalog, selected, range);
    forall k | 0 <= k < |pool| ensures WellScored(pool[k], range) {
      assert pool[k] in pool;
    }
  }

  /** No eligible rows at all when no catalog row's sweetness lies in the range. */
  lemma NoneInRangeNoPool(catalog: seq<MenuItem>, selected: seq<string>, range: SweetRange)
    requires forall i :: 0 <= i < |catalog| ==> !InRange(catalog[i].sweetness, range)
    ensures RankedPool(catalog, selected, range) == []
  {
    var pool := RankedPool(catalog, selected, range);
    RankedPoolRows(pool, catalog, selected, range);
  }
}
