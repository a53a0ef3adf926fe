/** The collection contract as the `PaymentMeans` collection implements it. */
module PaymentMeansCollection {

  /** A collection of payments, kept in the order they were added. The items
      are the instances the engine hydrated; their own structure does not
      matter here. */
  class PaymentMeans<T> {
    var items: seq<T>

    constructor ()
      ensures items == []
    {
      items := [];
    }

    /** `getIterator`: an iterator over the stored items, first added first. */
    function GetIterator(): (it: seq<T>)
      reads this
      ensures |it| == |items| && forall k :: 0 <= k < |it| ==> it[k] == items[k]
    {
      items
    }

    /** `add`: append the payment after the stored ones, which keep their
        positions, and return this same collection. */
    method Add(payment: T) returns (self: PaymentMeans<T>)
      modifies this
      ensures self == this
      ensures |items| == |old(items)| + 1 && items[|items| - 1] == payment
      ensures forall k :: 0 <= k < |old(items)| ==> items[k] == old(items)[k]
      ensures GetIterator() == old(GetIterator()) + [payment]
    {
      items := items + [payment];
      self := this;
    }
  }

  /** What the engine does with a collection (see `Engine.Hydrator`): add the
      hydrated items one by one in document order. Chaining on the collection
      each `add` returns is the same as ignoring it, since that is the
      collection itself. Iterating the result yields exactly those items, in
      that order. */
  method AddInOrder<T>(payments: seq<T>) returns (it: seq<T>)
    ensures it == payments
  {
    var means := new PaymentMeans<T>();
    var i := 0;
    while i < |payments|
      invariant 0 <= i <= |payments| && fresh(means)
      invariant means.items == payments[..i]
    {
      means := means.Add(payments[i]);
      i := i + 1;
    }
    assert payments[..i] == payments;
    it := means.GetIterator();
  }
}
