/** Sums and filters over sequences, and what reordering does to them. */
module Sequences {

  function SumBy<T>(items: seq<T>, weight: T -> int): int {
    if items == [] then 0 else SumBy(items[..|items| - 1], weight) + weight(items[|items| - 1])
  }

  lemma {:induction false} SumByConcat<T>(a: seq<T>, b: seq<T>, weight: T -> int)
    ensures SumBy(a + b, weight) == SumBy(a, weight) + SumBy(b, weight)
  {
    if b == [] {
      assert a + b == a;
    } else {
      var n := |b| - 1;
      assert (a + b)[..|a + b| - 1] == a + b[..n];
      SumByConcat(a, b[..n], weight);
    }
  }

  lemma SumByNext<T>(items: seq<T>, i: nat, weight: T -> int)
    requires i < |items|
    ensures SumBy(items[..i + 1], weight) == SumBy(items[..i], weight) + weight(items[i])
  {
    assert items[..i + 1][..i] == items[..i];
  }

  lemma {:induction false} SumByPermutation<T>(a: seq<T>, b: seq<T>, weight: T -> int)
    requires multiset(a) == multiset(b)
    ensures SumBy(a, weight) == SumBy(b, weight)
    decreases |a|
  {
    if a == [] {
      assert |multiset(b)| == 0;
    } else {
      var n := |a| - 1;
      var last := a[n];
      assert a == a[..n] + [last];
      assert last in multiset(b);
      var j :| 0 <= j < |b| && b[j] == last;
      assert b == b[..j] + [last] + b[j + 1..];
      assert multiset(a[..n]) == multiset(a) - multiset{last};
      assert multiset(b[..j] + b[j + 1..]) == multiset(b) - multiset{last};
      SumByPermutation(a[..n], b[..j] + b[j + 1..], weight);
      SumByConcat(b[..j] + [last], b[j + 1..], weight);
      SumByConcat(b[..j], [last], weight);
      SumByConcat(b[..j], b[j + 1..], weight);
      assert SumBy([last], weight) == SumBy([], weight) + weight(last);
    }
  }

  function Filter<T>(items: seq<T>, p: T -> bool): seq<T> {
    if items == [] then []
    else
      var n := |items| - 1;
      Filter(items[..n], p) + if p(items[n]) then [items[n]] else []
  }

  lemma FilterNext<T>(items: seq<T>, f: T, p: T -> bool)
    ensures Filter(items + [f], p) == if p(f) then Filter(items, p) + [f] else Filter(items, p)
  {
    assert (items + [f])[..|items|] == items;
  }

  lemma {:induction false} FilterMembers<T>(items: seq<T>, p: T -> bool)
    ensures forall f :: f in Filter(items, p) <==> f in items && p(f)
  {
    if items != [] {
      var n := |items| - 1;
      FilterMembers(items[..n], p);
      assert items == items[..n] + [items[n]];
    }
  }

  lemma {:induction false} FilterCount<T>(items: seq<T>, p: T -> bool, f: T)
    ensures multiset(Filter(items, p))[f] == if p(f) then multiset(items)[f] else 0
  {
    if items != [] {
      var n := |items| - 1;
      FilterCount(items[..n], p, f);
      assert items == items[..n] + [items[n]];
    }
  }
}
