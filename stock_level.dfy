/** The stock-level classifier shown on component listings. */
module StockLevel {
  import opened Inventory

  /** Every component lands in exactly one of three states: nothing left,
      at or under its minimum, or above it. A NULL quantity or threshold
      counts as zero. */
  function Classify(quantity: Option<int>, minStockLevel: Option<int>): (s: StockState)
    ensures s == OutOfStock <==> OrZero(quantity) <= 0
    ensures s == LowStock <==> 0 < OrZero(quantity) <= OrZero(minStockLevel)
    ensures s == InStock <==> 0 < OrZero(quantity) && OrZero(minStockLevel) < OrZero(quantity)
  {
    var qty := OrZero(quantity);
    var minStock := OrZero(minStockLevel);
    if qty <= 0 then OutOfStock
    else if qty <= minStock then LowStock
    else InStock
  }

  /** The label and CSS class the listing shows for a component; the
      status label repeats the first. */
  function Badge(quantity: Option<int>, minStockLevel: Option<int>): (b: (string, string))
    ensures b.0 == "Out of Stock" <==> OrZero(quantity) <= 0
    ensures b.0 == "Low Stock" <==> 0 < OrZero(quantity) <= OrZero(minStockLevel)
    ensures b.0 == "In Stock" <==> 0 < OrZero(quantity) && OrZero(minStockLevel) < OrZero(quantity)
    ensures b.1 == "out" <==> b.0 == "Out of Stock"
    ensures b.1 == "low" <==> b.0 == "Low Stock"
    ensures b.1 == "instock" <==> b.0 == "In Stock"
  {
    var s := Classify(quantity, minStockLevel);
    (s.Label(), s.CssClass())
  }

  /** Orders the states from worst to best. */
  function Rank(s: StockState): nat {
    match s
    case OutOfStock => 0
    case LowStock => 1
    case InStock => 2
  }

  /** More stock, at the same threshold, never gives a worse state; a higher
      threshold, at the same stock, never gives a better one. */
  lemma ClassifyMonotone(q1: int, q2: int, m1: int, m2: int)
    requires q1 <= q2 && m2 <= m1
    ensures Rank(Classify(Some(q1), Some(m1))) <= Rank(Classify(Some(q2), Some(m2)))
  {
  }

  /** Attaches the stock state to every component of the listing, in place,
      and leaves every other field as it was. */
  method EnrichWithStatus(components: array<Component>)
    modifies components
    ensures forall k :: 0 <= k < components.Length ==>
      components[k] == old(components[k]).(stockState :=
        Some(Classify(old(components[k]).quantity, old(components[k]).minStockLevel)))
  {
    for i := 0 to components.Length
      invariant forall k :: 0 <= k < i ==>
        components[k] == old(components[k]).(stockState :=
          Some(Classify(old(components[k]).quantity, old(components[k]).minStockLevel)))
      invariant forall k :: i <= k < components.Length ==> components[k] == old(components[k])
    {
      var c := components[i];
      components[i] := c.(stockState := Some(Classify(c.quantity, c.minStockLevel)));
    }
  }
}
