/** The choice of a bitrate for a video request, from the list that the server offers (src/proxy.c). */
module Bitrates {
  import opened Throughputs

  /** The smallest rate offered if nothing fits, before any offer is seen. */
  const START: int := 100

  /** `int avg_thru = thru->avg_put / 1.5` */
  function Budget(avgPut: int): int {
    Trunc(avgPut as real / 1.5)
  }

  /** What is within the budget: two thirds of the throughput, whatever the truncation. */
  lemma BudgetMeaning(avgPut: int, r: int)
    requires avgPut >= 0 || r > 0
    ensures r <= Budget(avgPut) <==> 3 * r <= 2 * avgPut
  {
    var x := avgPut as real / 1.5;
    assert 3.0 * x == 2.0 * avgPut as real;
    assert r as real <= x <==> 3 * r <= 2 * avgPut;
  }

  /** `r` is offered, positive, and within the budget. */
  predicate Fits(rates: seq<int>, budget: int, r: int) {
    r in rates && 0 < r <= budget
  }

  /** `c` is the largest offered rate that fits, or, if none does, the minimum of 100 and the offers. */
  ghost predicate IsChoice(rates: seq<int>, budget: int, c: int) {
    if exists r :: Fits(rates, budget, r) then
      Fits(rates, budget, c) && forall r :: Fits(rates, budget, r) ==> r <= c
    else
      IsFloor(rates, c)
  }

  ghost predicate IsFloor(rates: seq<int>, c: int) {
    (c == START || c in rates) && c <= START && forall r :: r in rates ==> c <= r
  }

  /** `c` is the largest offered rate that takes up at most two thirds of the throughput; if none does, it is
    * the minimum of 100 and the offers.
    */
  ghost predicate IsLargestWithin(rates: seq<int>, avgPut: int, c: int) {
    if exists r :: r in rates && 0 < r && 3 * r <= 2 * avgPut then
      && c in rates && 0 < c && 3 * c <= 2 * avgPut
      && forall r :: r in rates && 3 * r <= 2 * avgPut ==> r <= c
    else
      && (c == 100 || c in rates) && c <= 100
      && forall r :: r in rates ==> c <= r
  }

  lemma ChoiceIsLargestWithin(rates: seq<int>, avgPut: int, c: int)
    ensures IsChoice(rates, Budget(avgPut), c) <==> IsLargestWithin(rates, avgPut, c)
  {
    forall r | r > 0
      ensures r <= Budget(avgPut) <==> 3 * r <= 2 * avgPut
    {
      BudgetMeaning(avgPut, r);
    }
    assert forall r :: Fits(rates, Budget(avgPut), r) <==> r in rates && 0 < r && 3 * r <= 2 * avgPut;
  }

  /** The selection loop of `client2server`, for any list of rates at all. */
  method Choose(rates: seq<int>, avgPut: int) returns (chosenRate: int)
    ensures IsChoice(rates, Budget(avgPut), chosenRate)
    ensures IsLargestWithin(rates, avgPut, chosenRate)
  {
    var avgThru := Budget(avgPut);
    chosenRate := 0;
    var smallest := START;
    ghost var seen: seq<int> := [];
    for i := 0 to |rates|
      invariant seen == rates[..i] && IsFloor(seen, smallest)
      invariant chosenRate == 0 || Fits(seen, avgThru, chosenRate)
      invariant forall r :: Fits(seen, avgThru, r) ==> r <= chosenRate
    {
      var bitrate := rates[i];
      ghost var before := seen;
      seen := seen + [bitrate];
      assert forall r :: Fits(seen, avgThru, r) ==> r == bitrate || Fits(before, avgThru, r);
      if bitrate > chosenRate && bitrate <= avgThru {
        chosenRate := bitrate;
      }
      if bitrate < smallest {
        smallest := bitrate;
      }
    }
    assert seen == rates;
    if chosenRate <= 0 {
      assert forall r :: !Fits(rates, avgThru, r);
      chosenRate := smallest;
    } else {
      assert Fits(rates, avgThru, chosenRate);
    }
    ChoiceIsLargestWithin(rates, avgPut, chosenRate);
  }

  /** The list and the average determine the choice. */
  lemma ChoiceUnique(rates: seq<int>, budget: int, c: int, d: int)
    requires IsChoice(rates, budget, c) && IsChoice(rates, budget, d)
    ensures c == d
  {
  }

  /** So its order and repetitions do not matter. */
  lemma ChoiceIgnoresOrder(rates: seq<int>, others: seq<int>, budget: int, c: int, d: int)
    requires forall r :: r in rates <==> r in others
    requires IsChoice(rates, budget, c) && IsChoice(others, budget, d)
    ensures c == d
  {
    forall r
      ensures Fits(rates, budget, r) <==> Fits(others, budget, r)
    {
    }
    assert IsChoice(rates, budget, d);
  }

  lemma BudgetMonotone(a: int, b: int)
    requires a <= b
    ensures Budget(a) <= Budget(b)
  {
  }

  /** A rising average never lowers the rate. */
  lemma ChoiceMonotone(rates: seq<int>, a: int, b: int, c: int, d: int)
    requires a <= b && IsChoice(rates, Budget(a), c) && IsChoice(rates, Budget(b), d)
    ensures c <= d
  {
    BudgetMonotone(a, b);
    forall r | Fits(rates, Budget(a), r)
      ensures Fits(rates, Budget(b), r)
    {
    }
  }

  /** The rate asked for is one that is offered, except that 100 is asked for when no offer fits and all
    * are above 100.
    */
  lemma ChoiceOfferedExactly(rates: seq<int>, budget: int, c: int)
    requires IsChoice(rates, budget, c)
    ensures c in rates <==> (exists r :: Fits(rates, budget, r)) || exists r :: r in rates && r <= START
  {
    if c !in rates {
      assert forall r :: r in rates ==> START < r;
    }
  }

  /** Two thirds of the throughput is never exceeded by a rate that fits. */
  lemma ChoiceWithinThroughput(rates: seq<int>, avgPut: int, c: int)
    requires IsChoice(rates, Budget(avgPut), c) && exists r :: Fits(rates, Budget(avgPut), r)
    ensures 3 * c <= 2 * avgPut
  {
    assert Fits(rates, Budget(avgPut), c);
    assert c as real <= avgPut as real / 1.5;
  }
}
