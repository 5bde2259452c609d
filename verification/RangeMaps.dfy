/** The plain range map: disjoint address ranges, each with a value, found by
    `lower_bound` on their high addresses. Shrinking is not enabled.
 */
module RangeMaps {
  import opened Machine

  datatype Item<+V> = Item(base: U64, high: U64, value: V) {
    predicate Holds(a: int) { base <= a <= high }
  }

  type RangeMap<V> = seq<Item<V>>

  ghost predicate Ordered<V>(m: RangeMap<V>)
  {
    && (forall i :: 0 <= i < |m| ==> m[i].base <= m[i].high)
    && (forall i, j :: 0 <= i < j < |m| ==> m[i].high < m[j].base)
  }

  function LowerBound<V>(m: RangeMap<V>, a: U64): (i: nat)
    ensures i <= |m|
    ensures forall k :: 0 <= k < i ==> m[k].high < a
    ensures i < |m| ==> a <= m[i].high
  {
    if m == [] || a <= m[0].high then 0 else 1 + LowerBound(m[1..], a)
  }

  /** The test that no stored range overlaps the new one. */
  predicate Fits<V>(m: RangeMap<V>, b: U64, high: U64)
  {
    var ib, ih := LowerBound(m, b), LowerBound(m, high);
    ib == ih && !(ih < |m| && m[ih].base <= high)
  }

  /** `StoreRange`. */
  function StoreRange<V>(m: RangeMap<V>, b: U64, size: U64, v: V): (bool, RangeMap<V>)
  {
    var high := Add64(b, Sub64(size, 1));
    if size <= 0 || high < b || !Fits(m, b, high) then (false, m)
    else
      var ih := LowerBound(m, high);
      (true, m[..ih] + [Item(b, high, v)] + m[ih..])
  }

  /** `RetrieveRange`. */
  function RetrieveRange<V>(m: RangeMap<V>, a: U64): Option<Item<V>>
  {
    var i := LowerBound(m, a);
    if i == |m| || a < m[i].base then None else Some(m[i])
  }

  ghost predicate Apart<V>(m: RangeMap<V>, b: U64, high: U64)
  {
    forall i :: 0 <= i < |m| ==> m[i].high < b || high < m[i].base
  }

  lemma FitsExact<V>(m: RangeMap<V>, b: U64, high: U64)
    requires Ordered(m) && b <= high
    ensures Fits(m, b, high) <==> Apart(m, b, high)
  {
    var ib, ih := LowerBound(m, b), LowerBound(m, high);
    if Fits(m, b, high) {
      assert forall k :: ih < k < |m| ==> m[ih].high < m[k].base;
    }
  }

  lemma Spliced<V>(m: RangeMap<V>, i: nat, it: Item<V>)
    requires Ordered(m) && i <= |m| && it.base <= it.high
    requires forall k :: 0 <= k < i ==> m[k].high < it.base
    requires forall k :: i <= k < |m| ==> it.high < m[k].base
    ensures Ordered(m[..i] + [it] + m[i..])
    ensures forall x :: x in m[..i] + [it] + m[i..] <==> x in m || x == it
  {
    var r := m[..i] + [it] + m[i..];
    assert forall k :: 0 <= k < |r| ==> r[k] == if k < i then m[k] else if k == i then it else m[k - 1];
    assert m == m[..i] + m[i..];
  }

  /** A range is stored exactly when it is non-empty, does not wrap around and
      overlaps no stored one; then it is added, and otherwise nothing changes. */
  lemma StoreRangeExact<V>(m: RangeMap<V>, b: U64, size: U64, v: V)
    requires Ordered(m)
    ensures var (ok, r) := StoreRange(m, b, size, v);
            && Ordered(r)
            && (ok <==> 0 < size && b + size <= TWO_64 && Apart(m, b, b + size - 1))
            && (forall it :: it in r <==> it in m || (ok && it == Item(b, b + size - 1, v)))
  {
    if 0 < size && b + size <= TWO_64 {
      var high := Add64(b, Sub64(size, 1));
      assert high == b + size - 1;
      FitsExact(m, b, high);
      if Apart(m, b, high) {
        var ih := LowerBound(m, high);
        assert ih == LowerBound(m, b);
        Spliced(m, ih, Item(b, high, v));
      }
    }
  }

  /** `r` holds what `m` holds, and `it`. */
  ghost predicate Adds<V(!new)>(m: RangeMap<V>, r: RangeMap<V>, it: Item<V>)
  {
    Ordered(r) && forall x :: x in r <==> x in m || x == it
  }

  lemma StoreApart<V(!new)>(m: RangeMap<V>, b: U64, size: U64, v: V)
    requires Ordered(m) && 0 < size && b + size <= TWO_64 && Apart(m, b, b + size - 1)
    ensures Adds(m, StoreRange(m, b, size, v).1, Item(b, b + size - 1, v))
  {
    StoreRangeExact(m, b, size, v);
  }

  /** Retrieval finds the stored range that holds the address, if there is one. */
  lemma RetrieveRangeExact<V>(m: RangeMap<V>, a: U64, it: Item<V>)
    requires Ordered(m)
    ensures RetrieveRange(m, a) == Some(it) <==> it in m && it.Holds(a)
  {
    if it in m && it.Holds(a) {
      var k :| 0 <= k < |m| && m[k] == it;
      assert LowerBound(m, a) <= k;
    }
  }
}
