/**
 * The default-exported `partition` of utils/partition.ts, a second copy of
 * the list partition with the same loop.
 */
module DefaultPartition {
  import Common

  /** The `for..of` loop of `partition`; its buckets are specified by the same `Filter` as the other copy. */
  method Partition<T(!new)>(items: seq<T>, pred: T -> bool) returns (matches: seq<T>, nonMatches: seq<T>)
    ensures matches == Common.Filter(items, pred)
    ensures nonMatches == Common.Filter(items, Common.Not(pred))
  {
    matches, nonMatches := [], [];
    for i := 0 to |items|
      invariant matches == Common.Filter(items[..i], pred)
      invariant nonMatches == Common.Filter(items[..i], Common.Not(pred))
    {
      var item := items[i];
      assert items[..i + 1][..i] == items[..i];
      if pred(item) {
        matches := matches + [item];
      } else {
        nonMatches := nonMatches + [item];
      }
    }
    assert items[..|items|] == items;
  }

  /** Both copies return the same pair of buckets for every list and predicate. */
  method SameAsCommon<T(==,!new)>(items: seq<T>, pred: T -> bool) returns (same: bool)
    ensures same
  {
    var m1, n1 := Partition(items, pred);
    var m2, n2 := Common.Partition(items, pred);
    same := m1 == m2 && n1 == n2;
  }
}
