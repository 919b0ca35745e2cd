/** Lists of distinct strings in ascending order, as the services keep their maps' keys. */
module KeyOrder {
  import opened Common

  predicate SortedKeys(order: seq<string>) {
    forall i, j :: 0 <= i < j < |order| ==> LexLess(order[i], order[j])
  }

  /** `order` lists exactly `keys`, each once, in ascending order. */
  ghost predicate OrderOf(order: seq<string>, keys: set<string>) {
    SortedKeys(order) && forall k :: k in order <==> k in keys
  }

  method InsertKey(order: seq<string>, key: string) returns (r: seq<string>)
    requires SortedKeys(order) && key !in order
    ensures SortedKeys(r) && forall k :: k in r <==> k in order || k == key
  {
    var i := 0;
    while i < |order| && LexLess(order[i], key)
      invariant 0 <= i <= |order|
      invariant forall j :: 0 <= j < i ==> LexLess(order[j], key)
    {
      i := i + 1;
    }
    hide SortedKeys, LexLess;
    r := order[..i] + [key] + order[i..];
    InsertedSorted(order, key, i);
    assert order == order[..i] + order[i..];
  }

  lemma InsertedSorted(order: seq<string>, key: string, i: nat)
    requires SortedKeys(order) && key !in order && i <= |order|
    requires forall j :: 0 <= j < i ==> LexLess(order[j], key)
    requires i < |order| ==> !LexLess(order[i], key)
    ensures SortedKeys(order[..i] + [key] + order[i..])
  {
    hide LexLess;
    var r := order[..i] + [key] + order[i..];
    if i < |order| {
      LexTotal(order[i], key);
      assert order[i] in order;
    }
    forall j | i <= j < |order| ensures LexLess(key, order[j]) {
      if i < j { LexTransitive(key, order[i], order[j]); }
    }
    assert forall j :: 0 <= j < |r| ==> r[j] == if j < i then order[j] else if j == i then key else order[j - 1];
  }

  /** Listing a set of keys, in whatever order it is walked, and sorting the list. */
  method SortKeys(keys: set<string>) returns (order: seq<string>)
    ensures OrderOf(order, keys)
  {
    order := [];
    var rest := keys;
    while rest != {}
      invariant rest <= keys && SortedKeys(order)
      invariant forall k :: k in order <==> k in keys - rest
      decreases rest
    {
      var accountKey :| accountKey in rest;
      order := InsertKey(order, accountKey);
      rest := rest - {accountKey};
    }
  }
}
