/** The orders in which a loop over a map can visit its keys. */
module Orders {

  predicate NoRepeat(order: seq<string>)
  {
    forall i, j :: 0 <= i < j < |order| ==> order[i] != order[j]
  }

  /** The order visits each key once and nothing else. */
  predicate Lists(order: seq<string>, keys: set<string>)
  {
    && NoRepeat(order)
    && (forall k :: k in keys ==> k in order)
    && (forall i :: 0 <= i < |order| ==> order[i] in keys)
  }

  ghost function SomeOrder(keys: set<string>): (order: seq<string>)
    ensures Lists(order, keys)
    decreases keys
  {
    if keys == {} then []
    else
      var k :| k in keys;
      OrderFrom(keys, k)
  }

  /** Any key can be visited first. */
  ghost function OrderFrom(keys: set<string>, k: string): (order: seq<string>)
    requires k in keys
    ensures Lists(order, keys) && order[0] == k
    decreases keys, 0
  {
    [k] + SomeOrder(keys - {k})
  }

  /** Any key can be visited last. */
  ghost function OrderEndingIn(keys: set<string>, k: string): (order: seq<string>)
    requires k in keys
    ensures Lists(order, keys) && order[|order| - 1] == k
  {
    SomeOrder(keys - {k}) + [k]
  }
}
