/**
 Worked examples on small catalogs: the single-item ranking, the empty
 sweetness range, and the two budget cutoffs of the bundle search on two
 drinks priced 4000 and 4500 for a party of two.
 */
module Scenarios {
  import opened Seqs
  import opened Sorting
  import opened Menu
  import opened Ranker
  import opened Combinatorics
  import opened Bundles

  // ---------------------------------------------------------------------------
  // The ranker
  // ---------------------------------------------------------------------------

  const Croissant := MenuItem("bakery", "Croissant", 3000, 2, ["sweet"])

  /**
   One bakery item of sweetness 2 and range 1..3 with no tag selected: the
   item is returned alone, scored 0 for tags and 5 in total.
   */
  lemma SingleItemScoresFive()
    ensures GetBestItems([Croissant], [], SweetRange(1, 3), None, 1) == [Scored(Croissant, 0, 5, 5)]
  {
    var x := Scored(Croissant, 0, 5, 5);
    assert Score(Croissant, [], SweetRange(1, 3)) == x;
    var rows := ScoreAll([Croissant], [], SweetRange(1, 3));
    assert rows == [x];
    assert Eligible(rows) == [x] by {
      assert rows[1..] == [];
    }
    assert SortDesc([x], ScoreKey) == [x];
    var pool := RankedPool([Croissant], [], SweetRange(1, 3));
    assert pool == [x];
    assert !IsMatchedAt(pool)(0);
    DownClosedIsRun(0, 1, IsMatchedAt(pool), 0);
    assert Matched(pool) == [];
    assert Range(0, 1) == [0];
    assert BestPositions(pool, None, 1) == [0];
  }

  /** The range 0..0 selects nothing when no item has sweetness 0. */
  lemma EmptyRangeNothing(catalog: seq<MenuItem>, selected: seq<string>, limit: Option<nat>, people: nat)
    requires forall i :: 0 <= i < |catalog| ==> catalog[i].sweetness != 0
    ensures GetBestItems(catalog, selected, SweetRange(0, 0), limit, people) == []
  {
    if |catalog| > 0 {
      var range := SweetRange(0, 0);
      NoneInRangeNoPool(catalog, selected, range);
      var pool := RankedPool(catalog, selected, range);
      BestItemsSound(pool, catalog, selected, range, limit, people);
    }
  }

  // ---------------------------------------------------------------------------
  // The bundle search
  // ---------------------------------------------------------------------------

  /** An eligible row scored 0 for tags. */
  function Plain(category: string, name: string, price: int): Scored {
    Scored(MenuItem(category, name, price, 3, []), 0, 5, 5)
  }

  const Americano := Plain("drink", "Americano", 4000)
  const Latte := Plain("drink", "Latte", 4500)
  const Scone := Plain("bakery", "Scone", 500)
  const Drinks := [Americano, Latte]

  lemma PriceSumPair(x: Scored, y: Scored)
    ensures PriceSum([x, y]) == x.item.price + y.item.price
    ensures ScoreSum([x, y]) == x.totalScore + y.totalScore
  {
    assert [x, y][..1] == [x];
    assert [x][..0] == [];
    assert PriceSum([x, y]) == PriceSum([x]) + y.item.price;
    assert PriceSum([x]) == PriceSum([]) + x.item.price;
    assert ScoreSum([x, y]) == ScoreSum([x]) + y.totalScore;
    assert ScoreSum([x]) == ScoreSum([]) + x.totalScore;
  }

  lemma PriceSumSingle(x: Scored)
    ensures PriceSum([x]) == x.item.price
    ensures ScoreSum([x]) == x.totalScore
  {
    assert [x][..0] == [];
  }

  /** The three drink multisets for two people over two drinks. */
  lemma DrinkPairs(d: seq<nat>)
    requires IsDrinkChoice(d, 2, 2)
    ensures d == [0, 0] || d == [0, 1] || d == [1, 1]
    ensures Pick(Drinks, d) == [Drinks[d[0]], Drinks[d[1]]]
  {
    assert d[0] <= d[1] < 2;
  }

  /** Their drink subtotals: 8000, 8500 and 9000. */
  lemma DrinkSubtotals(d: seq<nat>)
    requires IsDrinkChoice(d, 2, 2)
    ensures d == [0, 0] ==> PriceSum(Pick(Drinks, d)) == 8000
    ensures d == [0, 1] ==> PriceSum(Pick(Drinks, d)) == 8500
    ensures d == [1, 1] ==> PriceSum(Pick(Drinks, d)) == 9000
    ensures ScoreSum(Pick(Drinks, d)) == 10
  {
    DrinkPairs(d);
    PriceSumPair(Drinks[d[0]], Drinks[d[1]]);
  }

  /** Over a single bakery item the only bakery choice is that item. */
  lemma SingleBakeryChoice(b: seq<nat>)
    requires IsBakeryChoice(b, 1)
    ensures b == [0]
  {
    IncreasingBelowLength(b, 1);
    assert b[0] < 1;
  }

  /** The bundle of two drinks at positions `d` with the scone. */
  function WithScone(d: seq<nat>): Bundle
    requires Below(d, 2)
  {
    MakeBundle(Drinks, [Scone], d, [0])
  }

  /** The only kept choices at budget 9000: two Americanos, or an Americano and a Latte, with the scone. */
  lemma KeptWithScone(d: seq<nat>, b: seq<nat>)
    requires Kept(Drinks, [Scone], 9000, 2, d, b)
    ensures (d == [0, 0] || d == [0, 1]) && b == [0]
  {
    SingleBakeryChoice(b);
    DrinkPairs(d);
    DrinkSubtotals(d);
  }

  lemma SconeWithin(d: seq<nat>)
    requires d == [0, 0] || d == [0, 1]
    ensures Kept(Drinks, [Scone], 9000, 2, d, [0])
  {
    PriceSumSingle(Scone);
    assert Pick([Scone], [0]) == [Scone];
    assert IsDrinkChoice(d, 2, 2);
    assert IsBakeryChoice([0], 1);
    DrinkSubtotals(d);
  }

  /**
   Budget 9000 for two people: the pair of Latte drinks (9000) is skipped by
   the strict drink cutoff, while Americano and Latte with the scone (exactly
   9000) is kept by the inclusive total cutoff; so are two Americanos with
   the scone (8500).
   */
  lemma StrictDrinkCutoff(c: Bundle)
    ensures c in Candidates(Drinks, [Scone], 9000, 2) <==> c == WithScone([0, 0]) || c == WithScone([0, 1])
  {
    CandidatesIff(Drinks, [Scone], 9000, 2, c);
    if c in Candidates(Drinks, [Scone], 9000, 2) {
      var d, b :| Kept(Drinks, [Scone], 9000, 2, d, b) && c == MakeBundle(Drinks, [Scone], d, b);
      KeptWithScone(d, b);
    } else {
      SconeWithin([0, 0]);
      SconeWithin([0, 1]);
    }
  }

  lemma SconeBundleTwoAmericanos()
    ensures WithScone([0, 0]) == Bundle(15, 8500, ["Americano", "Americano"], ["Scone"])
  {
    PriceSumSingle(Scone);
    assert Pick([Scone], [0]) == [Scone];
    assert Pick(Drinks, [0, 0]) == [Americano, Americano];
    PriceSumPair(Americano, Americano);
    assert Names([Americano, Americano]) == ["Americano", "Americano"];
    assert Names([Scone]) == ["Scone"];
  }

  lemma SconeBundleAmericanoLatte()
    ensures WithScone([0, 1]) == Bundle(15, 9000, ["Americano", "Latte"], ["Scone"])
  {
    PriceSumSingle(Scone);
    assert Pick([Scone], [0]) == [Scone];
    assert Pick(Drinks, [0, 1]) == [Americano, Latte];
    PriceSumPair(Americano, Latte);
    assert Names([Americano, Latte]) == ["Americano", "Latte"];
    assert Names([Scone]) == ["Scone"];
  }

  /**
   Budget 8000 for two people over the same drinks: every drink subtotal
   reaches the budget, so no bundle is collected whatever the bakery items
   cost, a zero-priced one included.
   */
  lemma DrinkSubtotalAtBudget(bakery: seq<Scored>)
    ensures Candidates(Drinks, bakery, 8000, 2) == []
  {
    var ds := DrinkChoices(2, 2);
    forall d <- ds ensures PriceSum(Pick(Drinks, d)) >= 8000 {
      DrinkPairs(d);
      DrinkSubtotals(d);
    }
    AllDrinksTooDear(Drinks, bakery, 8000, ds);
  }

  /** Hence the whole search returns nothing at budget 8000. */
  lemma NoBundleAtBudget(bakery: seq<Scored>)
    ensures CombinationsFrom(Drinks, bakery, 8000, 2) == []
  {
    if |bakery| > 0 {
      var top := Take(bakery, TopN);
      assert Take(Drinks, TopN) == Drinks;
      DrinkSubtotalAtBudget(top);
      TopBundlesBest(Drinks, top, 8000, 2);
    }
  }
}
