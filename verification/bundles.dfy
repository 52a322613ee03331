/**
 The bundle search (`recommend_combinations`, app.py).

 From the 20 best eligible drinks and the 20 best eligible bakery items the
 search tries every multiset of `people` drinks (one drink per person,
 repeats allowed) together with every set of one to four distinct bakery
 items. A drink multiset whose price already reaches the budget is skipped;
 a bundle is kept when drinks and bakery items together cost at most the
 budget. Kept bundles are scored by the sum of their rows' total scores, and
 the three with the highest scores are returned, ties in enumeration order.

 Rows are identified by their position in the drink and bakery pools; a
 choice of drinks is a non-decreasing position tuple and a choice of bakery
 items a strictly increasing one, exactly the tuples `itertools` yields.
 */
module Bundles {
  import opened Seqs
  import opened Sorting
  import opened Menu
  import opened Combinatorics

  /** One recommended combination, with the four keys the source's dict carries. */
  datatype Bundle = Bundle(score: int, price: int, drinks: seq<string>, bakeries: seq<string>)

  /** Only the first `TopN` rows of each pool are considered. */
  const TopN: nat := 20

  /** A bundle holds between one and `MaxBakeryItems` bakery items. */
  const MaxBakeryItems: nat := 4

  /** How many bundles are returned at most. */
  const BundleCount: nat := 3

  /** The sort key `score`. */
  function BundleScore(b: Bundle): int {
    b.score
  }

  /** `sum(r.price for r in rows)`. */
  function PriceSum(rows: seq<Scored>): int {
    if |rows| == 0 then 0 else PriceSum(rows[..|rows| - 1]) + rows[|rows| - 1].item.price
  }

  /** `sum(r.total_score for r in rows)`. */
  function ScoreSum(rows: seq<Scored>): int {
    if |rows| == 0 then 0 else ScoreSum(rows[..|rows| - 1]) + rows[|rows| - 1].totalScore
  }

  /** `[r.name for r in rows]`. */
  function Names(rows: seq<Scored>): (r: seq<string>)
    ensures |r| == |rows|
    ensures forall k :: 0 <= k < |rows| ==> r[k] == rows[k].item.name
  {
    seq(|rows|, k requires 0 <= k < |rows| => rows[k].item.name)
  }

  /** A drink choice for `people` persons over a pool of `n` drinks. */
  predicate IsDrinkChoice(d: seq<nat>, n: nat, people: nat) {
    MultiTuple(d, 0, n, people)
  }

  /** A choice of one to four distinct bakery items over a pool of `n` items. */
  predicate IsBakeryChoice(b: seq<nat>, n: nat) {
    1 <= |b| <= MaxBakeryItems && SetTuple(b, 0, n, |b|)
  }

  /** `combinations_with_replacement(drinks, people)`. */
  function DrinkChoices(n: nat, people: nat): (r: seq<seq<nat>>)
    ensures forall d <- r :: IsDrinkChoice(d, n, people)
  {
    Multichoose(0, n, people)
  }

  /** `combinations(bakery, k)` for `k` in `1 .. 4`, one size after the other. */
  function BakeryChoices(n: nat): (r: seq<seq<nat>>)
    ensures forall b <- r :: IsBakeryChoice(b, n)
  {
    Choose(0, n, 1) + Choose(0, n, 2) + Choose(0, n, 3) + Choose(0, n, 4)
  }

  /**
   The order the inner loop tries bakery choices in: all sets of one item,
   then all of two, three and four, each size in lexicographic order.
   */
  lemma BakeryChoicesOrder(n: nat)
    ensures SizeThenLexSorted(BakeryChoices(n))
  {
    var c1, c2, c3, c4 := Choose(0, n, 1), Choose(0, n, 2), Choose(0, n, 3), Choose(0, n, 4);
    ChooseSizeThenLex(0, n, 1);
    ChooseSizeThenLex(0, n, 2);
    ChooseSizeThenLex(0, n, 3);
    ChooseSizeThenLex(0, n, 4);
    SizeThenLexConcat(c1, c2, 1);
    SizeThenLexConcat(c1 + c2, c3, 2);
    SizeThenLexConcat(c1 + c2 + c3, c4, 3);
  }

  /** The drink multisets are tried in lexicographic order. */
  lemma DrinkChoicesOrder(n: nat, people: nat)
    ensures LexSorted(DrinkChoices(n, people))
  {
    MultichooseLexSorted(0, n, people);
  }

  /** The bundle made of the drinks at positions `d` and the bakery items at positions `b`. */
  function MakeBundle(drinks: seq<Scored>, bakery: seq<Scored>, d: seq<nat>, b: seq<nat>): Bundle
    requires Below(d, |drinks|) && Below(b, |bakery|)
  {
    var ds, bs := Pick(drinks, d), Pick(bakery, b);
    Bundle(ScoreSum(ds) + ScoreSum(bs), PriceSum(ds) + PriceSum(bs), Names(ds), Names(bs))
  }

  /** The two budget tests: the drinks alone stay below the budget and the whole bundle within it. */
  predicate WithinBudget(drinks: seq<Scored>, bakery: seq<Scored>, budget: int, d: seq<nat>, b: seq<nat>)
    requires Below(d, |drinks|) && Below(b, |bakery|)
  {
    && PriceSum(Pick(drinks, d)) < budget
    && PriceSum(Pick(drinks, d)) + PriceSum(Pick(bakery, b)) <= budget
  }

  /** The choices whose bundle the search appends to its list. */
  predicate Kept(drinks: seq<Scored>, bakery: seq<Scored>, budget: int, people: nat, d: seq<nat>, b: seq<nat>) {
    && IsDrinkChoice(d, |drinks|, people)
    && IsBakeryChoice(b, |bakery|)
    && WithinBudget(drinks, bakery, budget, d, b)
  }

  /** The inner loop over bakery choices for one drink choice `d`. */
  function ForBakery(drinks: seq<Scored>, bakery: seq<Scored>, budget: int, d: seq<nat>, bs: seq<seq<nat>>): seq<Bundle>
    requires Below(d, |drinks|)
    requires forall b <- bs :: Below(b, |bakery|)
    decreases |bs|
  {
    if |bs| == 0 then []
    else
      var b := bs[0];
      var total := PriceSum(Pick(drinks, d)) + PriceSum(Pick(bakery, b));
      (if total <= budget then [MakeBundle(drinks, bakery, d, b)] else [])
        + ForBakery(drinks, bakery, budget, d, bs[1..])
  }

  /** The outer loop over drink choices, skipping those that already reach the budget. */
  function ForDrinks(drinks: seq<Scored>, bakery: seq<Scored>, budget: int, ds: seq<seq<nat>>): seq<Bundle>
    requires forall d <- ds :: Below(d, |drinks|)
    decreases |ds|
  {
    if |ds| == 0 then []
    else
      var d := ds[0];
      (if PriceSum(Pick(drinks, d)) >= budget then []
       else ForBakery(drinks, bakery, budget, d, BakeryChoices(|bakery|)))
        + ForDrinks(drinks, bakery, budget, ds[1..])
  }

  /** The list `combinations` once both loops are done, in enumeration order. */
  function Candidates(drinks: seq<Scored>, bakery: seq<Scored>, budget: int, people: nat): seq<Bundle> {
    ForDrinks(drinks, bakery, budget, DrinkChoices(|drinks|, people))
  }

  /** `combinations.sort(key=score, reverse=True)` followed by `[:3]`. */
  function TopBundles(drinks: seq<Scored>, bakery: seq<Scored>, budget: int, people: nat): seq<Bundle> {
    Take(SortDesc(Candidates(drinks, bakery, budget, people), BundleScore), BundleCount)
  }

  /**
   The search over given descending pools of eligible drinks and bakery
   items: nothing when either pool is empty, else the best three bundles
   drawn from the first 20 rows of each.
   */
  function CombinationsFrom(drinkPool: seq<Scored>, bakeryPool: seq<Scored>, budget: int, people: nat): (r: seq<Bundle>)
    ensures |drinkPool| == 0 || |bakeryPool| == 0 ==> r == []
    ensures |r| <= BundleCount
    ensures NonIncreasing(r, BundleScore)
  {
    if |bakeryPool| == 0 || |drinkPool| == 0 then []
    else
      var drinks, bakery := Take(drinkPool, TopN), Take(bakeryPool, TopN);
      TopK(Candidates(drinks, bakery, budget, people), BundleScore, BundleCount);
      TopBundles(drinks, bakery, budget, people)
  }

  /**
   `recommend_combinations` with the two catalogs passed in: nothing when
   either catalog or either eligible pool is empty; otherwise at most three
   bundles, best score first, each within the budget, with one drink per
   person and one to four bakery items.
   */
  function RecommendCombinations(
    bakeryCatalog: seq<MenuItem>, drinkCatalog: seq<MenuItem>,
    budget: int, people: nat, selected: seq<string>, range: SweetRange): (r: seq<Bundle>)
    ensures |bakeryCatalog| == 0 || |drinkCatalog| == 0 ==> r == []
    ensures (forall i :: 0 <= i < |bakeryCatalog| ==> !InRange(bakeryCatalog[i].sweetness, range)) ==> r == []
    ensures (forall i :: 0 <= i < |drinkCatalog| ==> !InRange(drinkCatalog[i].sweetness, range)) ==> r == []
    ensures |r| <= BundleCount
    ensures NonIncreasing(r, BundleScore)
    ensures forall c <- r :: c.price <= budget && |c.drinks| == people && 1 <= |c.bakeries| <= MaxBakeryItems
  {
    if |bakeryCatalog| == 0 || |drinkCatalog| == 0 then []
    else
      var bakeryPool := RankedPool(bakeryCatalog, selected, range);
      var drinkPool := RankedPool(drinkCatalog, selected, range);
      assert (forall i :: 0 <= i < |bakeryCatalog| ==> !InRange(bakeryCatalog[i].sweetness, range)) ==> bakeryPool == [] by {
        if forall i :: 0 <= i < |bakeryCatalog| ==> !InRange(bakeryCatalog[i].sweetness, range) {
          NoneInRangeNoPool(bakeryCatalog, selected, range);
        }
      }
      assert (forall i :: 0 <= i < |drinkCatalog| ==> !InRange(drinkCatalog[i].sweetness, range)) ==> drinkPool == [] by {
        if forall i :: 0 <= i < |drinkCatalog| ==> !InRange(drinkCatalog[i].sweetness, range) {
          NoneInRangeNoPool(drinkCatalog, selected, range);
        }
      }
      CombinationsShape(drinkPool, bakeryPool, budget, people);
      CombinationsFrom(drinkPool, bakeryPool, budget, people)
  }

  // ---------------------------------------------------------------------------
  // Sums
  // ---------------------------------------------------------------------------

  lemma {:induction false} PriceSumConcat(a: seq<Scored>, b: seq<Scored>)
    ensures PriceSum(a + b) == PriceSum(a) + PriceSum(b)
    decreases |b|
  {
    if |b| == 0 {
      assert a + b == a;
    } else {
      var b0 := b[..|b| - 1];
      assert (a + b)[..|a + b| - 1] == a + b0;
      assert (a + b)[|a + b| - 1] == b[|b| - 1];
      PriceSumConcat(a, b0);
    }
  }

  lemma {:induction false} ScoreSumConcat(a: seq<Scored>, b: seq<Scored>)
    ensures ScoreSum(a + b) == ScoreSum(a) + ScoreSum(b)
    decreases |b|
  {
    if |b| == 0 {
      assert a + b == a;
    } else {
      var b0 := b[..|b| - 1];
      assert (a + b)[..|a + b| - 1] == a + b0;
      assert (a + b)[|a + b| - 1] == b[|b| - 1];
      ScoreSumConcat(a, b0);
    }
  }

  // ---------------------------------------------------------------------------
  // The enumerations
  // ---------------------------------------------------------------------------

  /** The drink tuples are exactly the multisets of `people` drinks, each once. */
  lemma DrinkChoicesIff(n: nat, people: nat, d: seq<nat>)
    ensures d in DrinkChoices(n, people) <==> IsDrinkChoice(d, n, people)
    ensures Distinct(DrinkChoices(n, people))
  {
    if IsDrinkChoice(d, n, people) {
      MultichooseComplete(0, n, people, d);
    }
    MultichooseDistinct(0, n, people);
  }

  /** The bakery tuples are exactly the sets of one to four bakery items. */
  lemma BakeryChoicesIff(n: nat, b: seq<nat>)
    ensures b in BakeryChoices(n) <==> IsBakeryChoice(b, n)
  {
    if IsBakeryChoice(b, n) {
      ChooseComplete(0, n, |b|, b);
    }
  }

  /** Tuples of different sizes never coincide, so the bakery tuples are produced once each. */
  lemma BakeryChoicesDistinct(n: nat)
    ensures Distinct(BakeryChoices(n))
  {
    var c1, c2, c3, c4 := Choose(0, n, 1), Choose(0, n, 2), Choose(0, n, 3), Choose(0, n, 4);
    ChooseDistinct(0, n, 1);
    ChooseDistinct(0, n, 2);
    ChooseDistinct(0, n, 3);
    ChooseDistinct(0, n, 4);
    DistinctConcat(c1, c2);
    assert forall x <- c1 + c2 :: |x| <= 2;
    DistinctConcat(c1 + c2, c3);
    assert forall x <- c1 + c2 + c3 :: |x| <= 3;
    DistinctConcat(c1 + c2 + c3, c4);
  }

  // ---------------------------------------------------------------------------
  // What the loops collect
  // ---------------------------------------------------------------------------

  lemma {:induction false} ForBakeryIff(
    drinks: seq<Scored>, bakery: seq<Scored>, budget: int, d: seq<nat>, bs: seq<seq<nat>>, c: Bundle)
    requires Below(d, |drinks|)
    requires forall b <- bs :: Below(b, |bakery|)
    ensures c in ForBakery(drinks, bakery, budget, d, bs)
        <==> exists b :: b in bs
                && PriceSum(Pick(drinks, d)) + PriceSum(Pick(bakery, b)) <= budget
                && c == MakeBundle(drinks, bakery, d, b)
    decreases |bs|
  {
    if |bs| > 0 {
      ForBakeryIff(drinks, bakery, budget, d, bs[1..], c);
      assert bs == [bs[0]] + bs[1..];
      if exists b :: b in bs
                && PriceSum(Pick(drinks, d)) + PriceSum(Pick(bakery, b)) <= budget
                && c == MakeBundle(drinks, bakery, d, b) {
        var b :| b in bs
                && PriceSum(Pick(drinks, d)) + PriceSum(Pick(bakery, b)) <= budget
                && c == MakeBundle(drinks, bakery, d, b);
        if b != bs[0] {
          assert b in bs[1..];
        }
      }
    }
  }

  /** `c` is the bundle of the drink choice `d` with some bakery choice that fits the budget. */
  ghost predicate MadeFrom(drinks: seq<Scored>, bakery: seq<Scored>, budget: int, d: seq<nat>, c: Bundle)
    requires Below(d, |drinks|)
  {
    exists b :: IsBakeryChoice(b, |bakery|)
      && WithinBudget(drinks, bakery, budget, d, b)
      && c == MakeBundle(drinks, bakery, d, b)
  }

  /**
   One pass of the outer loop: a drink choice at or above the budget adds
   nothing, and otherwise adds exactly its bundles with the bakery choices
   that fit.
   */
  lemma DrinkStep(drinks: seq<Scored>, bakery: seq<Scored>, budget: int, d: seq<nat>, c: Bundle)
    requires Below(d, |drinks|)
    ensures c in (if PriceSum(Pick(drinks, d)) >= budget then []
                  else ForBakery(drinks, bakery, budget, d, BakeryChoices(|bakery|)))
        <==> MadeFrom(drinks, bakery, budget, d, c)
  {
    if PriceSum(Pick(drinks, d)) < budget {
      var bs := BakeryChoices(|bakery|);
      ForBakeryIff(drinks, bakery, budget, d, bs, c);
      if c in ForBakery(drinks, bakery, budget, d, bs) {
        var b :| b in bs
                && PriceSum(Pick(drinks, d)) + PriceSum(Pick(bakery, b)) <= budget
                && c == MakeBundle(drinks, bakery, d, b);
        assert IsBakeryChoice(b, |bakery|);
        assert WithinBudget(drinks, bakery, budget, d, b);
      }
      if MadeFrom(drinks, bakery, budget, d, c) {
        var b :| IsBakeryChoice(b, |bakery|)
          && WithinBudget(drinks, bakery, budget, d, b)
          && c == MakeBundle(drinks, bakery, d, b);
        BakeryChoicesIff(|bakery|, b);
      }
    }
  }

  lemma {:induction false} ForDrinksIff(
    drinks: seq<Scored>, bakery: seq<Scored>, budget: int, ds: seq<seq<nat>>, c: Bundle)
    requires forall d <- ds :: Below(d, |drinks|)
    ensures c in ForDrinks(drinks, bakery, budget, ds)
        <==> exists d :: d in ds && MadeFrom(drinks, bakery, budget, d, c)
    decreases |ds|
  {
    if |ds| > 0 {
      ForDrinksIff(drinks, bakery, budget, ds[1..], c);
      DrinkStep(drinks, bakery, budget, ds[0], c);
      if exists d :: d in ds && MadeFrom(drinks, bakery, budget, d, c) {
        var d :| d in ds && MadeFrom(drinks, bakery, budget, d, c);
        if d != ds[0] {
          assert d in ds[1..];
        }
      }
    }
  }

  /** When every drink choice already reaches the budget, nothing is collected. */
  lemma {:induction false} AllDrinksTooDear(drinks: seq<Scored>, bakery: seq<Scored>, budget: int, ds: seq<seq<nat>>)
    requires forall d <- ds :: Below(d, |drinks|)
    requires forall d <- ds :: PriceSum(Pick(drinks, d)) >= budget
    ensures ForDrinks(drinks, bakery, budget, ds) == []
    decreases |ds|
  {
    if |ds| > 0 {
      assert ds[0] in ds;
      AllDrinksTooDear(drinks, bakery, budget, ds[1..]);
    }
  }

  /**
   The collected list holds exactly the bundles of kept choices: every drink
   multiset priced below the budget, with every set of one to four bakery
   items that keeps the whole bundle within the budget.
   */
  lemma CandidatesIff(drinks: seq<Scored>, bakery: seq<Scored>, budget: int, people: nat, c: Bundle)
    ensures c in Candidates(drinks, bakery, budget, people)
        <==> exists d, b :: Kept(drinks, bakery, budget, people, d, b) && c == MakeBundle(drinks, bakery, d, b)
  {
    var ds := DrinkChoices(|drinks|, people);
    ForDrinksIff(drinks, bakery, budget, ds, c);
    if c in Candidates(drinks, bakery, budget, people) {
      var d :| d in ds && MadeFrom(drinks, bakery, budget, d, c);
      var b :| IsBakeryChoice(b, |bakery|)
        && WithinBudget(drinks, bakery, budget, d, b)
        && c == MakeBundle(drinks, bakery, d, b);
      assert Kept(drinks, bakery, budget, people, d, b);
    }
    if exists d, b :: Kept(drinks, bakery, budget, people, d, b) && c == MakeBundle(drinks, bakery, d, b) {
      var d, b :| Kept(drinks, bakery, budget, people, d, b) && c == MakeBundle(drinks, bakery, d, b);
      DrinkChoicesIff(|drinks|, people, d);
      assert MadeFrom(drinks, bakery, budget, d, c);
    }
  }

  /** A kept bundle has one drink per person, one to four bakery items, and fits the budget. */
  lemma KeptShape(drinks: seq<Scored>, bakery: seq<Scored>, budget: int, people: nat, d: seq<nat>, b: seq<nat>)
    requires Kept(drinks, bakery, budget, people, d, b)
    ensures var c := MakeBundle(drinks, bakery, d, b);
      && |c.drinks| == people
      && 1 <= |c.bakeries| <= MaxBakeryItems
      && c.price <= budget
      && c.price == PriceSum(Pick(drinks, d) + Pick(bakery, b))
      && c.score == ScoreSum(Pick(drinks, d) + Pick(bakery, b))
      && (forall k :: 0 <= k < |d| ==> c.drinks[k] == drinks[d[k]].item.name)
      && (forall k :: 0 <= k < |b| ==> c.bakeries[k] == bakery[b[k]].item.name)
  {
    PriceSumConcat(Pick(drinks, d), Pick(bakery, b));
    ScoreSumConcat(Pick(drinks, d), Pick(bakery, b));
  }

  /** Every collected bundle fits the budget and has the required shape. */
  lemma CandidatesShape(drinks: seq<Scored>, bakery: seq<Scored>, budget: int, people: nat)
    ensures forall c <- Candidates(drinks, bakery, budget, people) ::
      c.price <= budget && |c.drinks| == people && 1 <= |c.bakeries| <= MaxBakeryItems
  {
    forall c <- Candidates(drinks, bakery, budget, people)
      ensures c.price <= budget && |c.drinks| == people && 1 <= |c.bakeries| <= MaxBakeryItems
    {
      CandidatesIff(drinks, bakery, budget, people, c);
      var d, b :| Kept(drinks, bakery, budget, people, d, b) && c == MakeBundle(drinks, bakery, d, b);
      KeptShape(drinks, bakery, budget, people, d, b);
    }
  }

  /** Over a pool of distinctly named bakery items, no bundle names an item twice. */
  lemma KeptBakeryNamesDistinct(drinks: seq<Scored>, bakery: seq<Scored>, budget: int, people: nat, d: seq<nat>, b: seq<nat>)
    requires Kept(drinks, bakery, budget, people, d, b)
    requires UniqueNames(bakery)
    ensures Distinct(MakeBundle(drinks, bakery, d, b).bakeries)
  {
    var names := MakeBundle(drinks, bakery, d, b).bakeries;
    forall i, j | 0 <= i < j < |names| ensures names[i] != names[j] {
      assert b[i] < b[j];
    }
  }

  // ---------------------------------------------------------------------------
  // The final selection
  // ---------------------------------------------------------------------------

  /**
   The returned bundles are the best collected ones: at most three, best
   first, each one collected, and no collected bundle left out scores above
   the last one returned.
   */
  lemma TopBundlesBest(drinks: seq<Scored>, bakery: seq<Scored>, budget: int, people: nat)
    ensures var all := Candidates(drinks, bakery, budget, people);
      var r := TopBundles(drinks, bakery, budget, people);
      && |r| == Min(BundleCount, |all|)
      && IsTop(r, all, BundleScore)
  {
    TopK(Candidates(drinks, bakery, budget, people), BundleScore, BundleCount);
  }

  lemma WithKeyPrefix<T>(s: seq<T>, key: T -> int, v: int, k: nat)
    requires k <= |s|
    ensures WithKey(s, key, v) == WithKey(s[..k], key, v) + WithKey(s[k..], key, v)
  {
    assert s == s[..k] + s[k..];
    WithKeyAppend(s[..k], s[k..], key, v);
  }

  /**
   Ties are broken by enumeration order: for every score, the returned
   bundles with that score are the earliest collected ones with that score,
   in the order they were collected.
   */
  lemma TopBundlesStable(drinks: seq<Scored>, bakery: seq<Scored>, budget: int, people: nat, v: int)
    ensures var all := Candidates(drinks, bakery, budget, people);
      var tied := WithKey(TopBundles(drinks, bakery, budget, people), BundleScore, v);
      tied <= WithKey(all, BundleScore, v)
  {
    var all := Candidates(drinks, bakery, budget, people);
    var sorted := SortDesc(all, BundleScore);
    var r := TopBundles(drinks, bakery, budget, people);
    SortDescStable(all, BundleScore, v);
    WithKeyPrefix(sorted, BundleScore, v, |r|);
    assert sorted[..|r|] == r;
  }

  /** Every bundle `CombinationsFrom` returns fits the budget and has the required shape. */
  lemma CombinationsShape(drinkPool: seq<Scored>, bakeryPool: seq<Scored>, budget: int, people: nat)
    ensures forall c <- CombinationsFrom(drinkPool, bakeryPool, budget, people) ::
      c.price <= budget && |c.drinks| == people && 1 <= |c.bakeries| <= MaxBakeryItems
  {
    if |bakeryPool| > 0 && |drinkPool| > 0 {
      var drinks, bakery := Take(drinkPool, TopN), Take(bakeryPool, TopN);
      var all := Candidates(drinks, bakery, budget, people);
      var r := CombinationsFrom(drinkPool, bakeryPool, budget, people);
      TopBundlesBest(drinks, bakery, budget, people);
      CandidatesShape(drinks, bakery, budget, people);
      forall c <- r ensures c in all {
        assert c in multiset(r);
      }
    }
  }

  /**
   Every returned bundle is the bundle of a kept choice over the first 20
   rows of each pool.
   */
  lemma CombinationsKept(drinkPool: seq<Scored>, bakeryPool: seq<Scored>, budget: int, people: nat, c: Bundle)
    requires c in CombinationsFrom(drinkPool, bakeryPool, budget, people)
    ensures var drinks, bakery := Take(drinkPool, TopN), Take(bakeryPool, TopN);
      exists d, b :: Kept(drinks, bakery, budget, people, d, b) && c == MakeBundle(drinks, bakery, d, b)
  {
    var drinks, bakery := Take(drinkPool, TopN), Take(bakeryPool, TopN);
    TopBundlesBest(drinks, bakery, budget, people);
    assert c in multiset(TopBundles(drinks, bakery, budget, people));
    CandidatesIff(drinks, bakery, budget, people, c);
  }

  /**
   Over non-empty pools the search returns the best bundles kept from the
   first 20 rows of each: as many as exist up to three, each a kept one, and
   none left out with a higher score than the last one returned.
   */
  lemma CombinationsBest(drinkPool: seq<Scored>, bakeryPool: seq<Scored>, budget: int, people: nat)
    requires |drinkPool| > 0 && |bakeryPool| > 0
    ensures var all := Candidates(Take(drinkPool, TopN), Take(bakeryPool, TopN), budget, people);
      var r := CombinationsFrom(drinkPool, bakeryPool, budget, people);
      && |r| == Min(BundleCount, |all|)
      && IsTop(r, all, BundleScore)
  {
    TopBundlesBest(Take(drinkPool, TopN), Take(bakeryPool, TopN), budget, people);
  }
}
