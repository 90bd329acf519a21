/** The state of the `App` component: the current price and the two parallel
    windows shown by the chart, advanced once per timer tick. */
module App {
  import opened Window

  /** The price the component mounts with. */
  const InitialPrice: real := 100.0

  class PriceMonitor {
    var price: real
    var priceHistory: seq<real>
    var timeLabels: seq<string>

    /** Every price and every time label observed since mount, seed first. */
    ghost var observedPrices: seq<real>
    ghost var observedLabels: seq<string>

    /** Each window holds the `Capacity` most recent observations, the two
        observation logs have the same length and are never empty, and `price`
        is the latest observed price. Hence entry `i` of both windows comes
        from the same tick. */
    ghost predicate Valid()
      reads this
      ensures Valid() ==> 1 <= |priceHistory| == |timeLabels| <= Capacity
      ensures Valid() ==> price == priceHistory[|priceHistory| - 1]
      ensures Valid() ==> |priceHistory| <= |observedPrices| == |observedLabels|
      ensures Valid() ==>
        forall i :: 0 <= i < |priceHistory| ==>
          var tick := |observedPrices| - |priceHistory| + i;
          priceHistory[i] == observedPrices[tick] && timeLabels[i] == observedLabels[tick]
    {
      |observedPrices| == |observedLabels| >= 1 &&
      priceHistory == LastN(observedPrices, Capacity) &&
      timeLabels == LastN(observedLabels, Capacity) &&
      price == observedPrices[|observedPrices| - 1]
    }

    /** Mount: one seed entry in each window; the initial time label is the
        clock reading taken at mount. */
    constructor (initialTime: string)
      ensures Valid()
      ensures price == InitialPrice
      ensures priceHistory == [InitialPrice] && timeLabels == [initialTime]
      ensures observedPrices == [InitialPrice] && observedLabels == [initialTime]
    {
      price := InitialPrice;
      priceHistory := [InitialPrice];
      timeLabels := [initialTime];
      observedPrices := [InitialPrice];
      observedLabels := [initialTime];
    }

    /** One timer tick: store the new price, then push it and the new time
        label through the shared bounded update. */
    method Tick(newPrice: real, newTime: string)
      requires Valid()
      modifies this
      ensures Valid()
      ensures price == newPrice
      ensures priceHistory == PushBounded(old(priceHistory), newPrice)
      ensures timeLabels == PushBounded(old(timeLabels), newTime)
      ensures observedPrices == old(observedPrices) + [newPrice]
      ensures observedLabels == old(observedLabels) + [newTime]
      ensures |old(priceHistory)| == Capacity ==> |priceHistory| == Capacity
    {
      PushBoundedIsLastN(priceHistory, newPrice);
      LastNOfLastN(observedPrices, [newPrice], Capacity);
      PushBoundedIsLastN(timeLabels, newTime);
      LastNOfLastN(observedLabels, [newTime], Capacity);

      price := newPrice;
      priceHistory := PushBounded(priceHistory, newPrice);
      timeLabels := PushBounded(timeLabels, newTime);
      observedPrices := observedPrices + [newPrice];
      observedLabels := observedLabels + [newTime];
    }

    /** The trend colour of the view: the current price against the oldest
        retained price. */
    function PriceUp(): (up: bool)
      reads this
      requires Valid()
      ensures up <==> price > priceHistory[0]
    {
      IsPriceUp(priceHistory)
    }
  }
}
