/**
 * `partition` of app/utils/common.ts: one pass over a list that pushes every
 * item into `matches` or `nonMatches` according to a predicate.
 */
module Common {

  /** The negation of a predicate, as one term so that `Filter(s, Not(p))` is the same everywhere. */
  function Not<T(!new)>(p: T -> bool): (q: T -> bool)
    ensures forall x :: q(x) == !p(x)
  {
    x => !p(x)
  }

  /** JavaScript's `s.filter(p)`: the items of `s` that satisfy `p`, in the order of `s`. */
  function Filter<T(!new)>(s: seq<T>, p: T -> bool): (r: seq<T>)
    ensures |r| <= |s|
    ensures forall k :: 0 <= k < |r| ==> p(r[k])
    ensures forall x {:trigger x in r} :: x in r <==> x in s && p(x)
  {
    if |s| == 0 then []
    else
      var init := Filter(s[..|s| - 1], p);
      if p(s[|s| - 1]) then init + [s[|s| - 1]] else init
  }

  /** Nothing passes a predicate that no item satisfies. */
  lemma {:induction false} FilterNone<T(!new)>(s: seq<T>, p: T -> bool)
    requires forall i :: 0 <= i < |s| ==> !p(s[i])
    ensures Filter(s, p) == []
  {
    if |s| > 0 {
      FilterNone(s[..|s| - 1], p);
    }
  }

  /** Every item of `s` lands in exactly one bucket, so the bucket lengths add up to `|s|`. */
  lemma {:induction false} FilterLengths<T(!new)>(s: seq<T>, p: T -> bool)
    ensures |Filter(s, p)| + |Filter(s, Not(p))| == |s|
  {
    if |s| > 0 {
      FilterLengths(s[..|s| - 1], p);
    }
  }

  /** Filtering a list extended by one item extends the filtered list by that item or not at all. */
  lemma FilterSnoc<T(!new)>(init: seq<T>, last: T, p: T -> bool)
    ensures Filter(init + [last], p) == if p(last) then Filter(init, p) + [last] else Filter(init, p)
  {
    assert (init + [last])[..|init|] == init;
  }

  /** The two buckets together hold exactly the items of `s`, with multiplicity. */
  lemma {:induction false} FilterMultisets<T(!new)>(s: seq<T>, p: T -> bool)
    ensures multiset(Filter(s, p)) + multiset(Filter(s, Not(p))) == multiset(s)
  {
    if |s| > 0 {
      var init, last := s[..|s| - 1], s[|s| - 1];
      assert s == init + [last];
      FilterMultisets(init, p);
      FilterSnoc(init, last, p);
      FilterSnoc(init, last, Not(p));
    }
  }

  /**
   * Order is preserved: `Filter(s, p)` is `s` restricted to the positions
   * whose item satisfies `p`, taken in increasing order; `idx` lists them.
   */
  lemma {:induction false} FilterPositions<T(!new)>(s: seq<T>, p: T -> bool) returns (idx: seq<nat>)
    ensures |idx| == |Filter(s, p)|
    ensures forall k :: 0 <= k < |idx| ==> idx[k] < |s| && s[idx[k]] == Filter(s, p)[k]
    ensures forall k, l :: 0 <= k < l < |idx| ==> idx[k] < idx[l]
    ensures forall i :: 0 <= i < |s| ==> (p(s[i]) <==> i in idx)
  {
    if |s| == 0 {
      idx := [];
    } else {
      var n := |s| - 1;
      var init := s[..n];
      var prev := FilterPositions(init, p);
      var before := Filter(init, p);
      assert forall k :: 0 <= k < |prev| ==> prev[k] < n && s[prev[k]] == init[prev[k]];
      if p(s[n]) {
        idx := prev + [n];
        assert Filter(s, p) == before + [s[n]];
        forall i | 0 <= i < |s|
          ensures p(s[i]) <==> i in idx
        {
          if i < n {
            assert s[i] == init[i];
            assert i in idx <==> i in prev;
          }
        }
      } else {
        idx := prev;
        assert Filter(s, p) == before;
        forall i | 0 <= i < |s|
          ensures p(s[i]) <==> i in idx
        {
          if i < n {
            assert s[i] == init[i];
          } else {
            assert n !in idx;
          }
        }
      }
    }
  }

  /** The `for..of` loop of `partition`: `matches` and `nonMatches` grow one item at a time. */
  method Partition<T(!new)>(items: seq<T>, pred: T -> bool) returns (matches: seq<T>, nonMatches: seq<T>)
    ensures matches == Filter(items, pred)
    ensures nonMatches == Filter(items, Not(pred))
  {
    matches, nonMatches := [], [];
    for i := 0 to |items|
      invariant matches == Filter(items[..i], pred)
      invariant nonMatches == Filter(items[..i], Not(pred))
    {
      var item := items[i];
      assert items[..i + 1][..i] == items[..i];
      if pred(item) {
        matches := matches + [item];
      } else {
        nonMatches := nonMatches + [item];
      }
    }
    assert items[..|items|] == items;
  }
}
