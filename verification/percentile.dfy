/** Nearest-rank percentiles over a list of durations, computed by sorting the list and picking one of its values. The
    results say which value that is, that the order of the list does not matter, and that a larger percentage never
    picks a smaller value. */
module Percentiles {
  import opened Common
  import opened Sorting

  // ----- sorting -----

  /** Integers are sorted by their value. */
  function Value(x: int): int {
    x
  }

  /** `sorted(values)`. */
  function Sorted(xs: seq<int>): seq<int> {
    Sort(xs, Value)
  }

  predicate Ascending(xs: seq<int>) {
    forall i, j :: 0 <= i < j < |xs| ==> xs[i] <= xs[j]
  }

  lemma SortSorts(xs: seq<int>)
    ensures Ascending(Sorted(xs)) && multiset(Sorted(xs)) == multiset(xs) && |Sorted(xs)| == |xs|
  {
    SortOrders(xs, Value);
    assert forall x :: Value(x) == x;
  }

  lemma LeastFirst(a: seq<int>, v: int)
    requires Ascending(a) && v in multiset(a)
    ensures a != [] && a[0] <= v
  {
    var i :| 0 <= i < |a| && a[i] == v;
  }

  lemma SameLeast(a: seq<int>, b: seq<int>)
    requires Ascending(a) && Ascending(b) && multiset(a) == multiset(b) && a != [] && b != []
    ensures a[0] == b[0]
  {
    assert a[0] in multiset(a) && b[0] in multiset(b);
    LeastFirst(a, b[0]);
    LeastFirst(b, a[0]);
  }

  /** There is one ascending order of the same values. */
  lemma {:induction false} AscendingIsUnique(a: seq<int>, b: seq<int>)
    requires Ascending(a) && Ascending(b) && multiset(a) == multiset(b)
    ensures a == b
  {
    assert |a| == |multiset(a)| && |b| == |multiset(b)|;
    if a != [] {
      SameLeast(a, b);
      TailMultiset(a);
      TailMultiset(b);
      AscendingIsUnique(a[1..], b[1..]);
      assert a == [a[0]] + a[1..];
      assert b == [b[0]] + b[1..];
    }
  }

  lemma TailMultiset(a: seq<int>)
    requires a != []
    ensures multiset(a[1..]) == multiset(a) - multiset{a[0]}
  {
    assert a == [a[0]] + a[1..];
  }

  method Pick<T>(s: set<T>) returns (x: T)
    requires s != {}
    ensures x in s
  {
    x :| x in s;
  }

  method LeastOf(s: set<int>) returns (least: int)
    requires s != {}
    ensures least in s && forall x :: x in s ==> least <= x
  {
    least := Pick(s);
    var todo := s - {least};
    while todo != {}
      invariant todo <= s && least in s
      invariant forall x :: x in s && x !in todo ==> least <= x
      decreases todo
    {
      var x := Pick(todo);
      if x < least { least := x; }
      todo := todo - {x};
    }
  }

  // ----- percentiles -----

  function Ceil(x: real): int {
    -((-x).Floor)
  }

  /** The nearest rank of p among n values, forced into 1..n. */
  function Rank(p: real, n: nat): int
    requires n > 0
  {
    var rank := Ceil((p / 100.0) * n as real);
    var rank := if rank < 1 then 1 else rank;
    if rank - 1 < n - 1 then rank else n
  }

  function Percentile(values: seq<int>, p: real): Option<int> {
    if values == [] then None
    else
      SortSorts(values);
      Some(Sorted(values)[Rank(p, |values|) - 1])
  }

  function AtMost(xs: seq<int>, v: int): nat {
    if xs == [] then 0 else (if xs[0] <= v then 1 else 0) + AtMost(xs[1..], v)
  }

  lemma {:induction false} AtMostInsert(x: int, ys: seq<int>, v: int)
    ensures AtMost(Insert(x, ys, Value), v) == AtMost([x] + ys, v)
  {
    assert ([x] + ys)[1..] == ys;
    if ys != [] && x > ys[0] {
      AtMostInsert(x, ys[1..], v);
      assert ([x] + ys[1..])[1..] == ys[1..];
      assert Insert(x, ys, Value)[1..] == Insert(x, ys[1..], Value);
    }
  }

  lemma {:induction false} AtMostSort(xs: seq<int>, v: int)
    ensures AtMost(Sorted(xs), v) == AtMost(xs, v)
  {
    if xs != [] {
      AtMostSort(xs[1..], v);
      AtMostInsert(xs[0], Sorted(xs[1..]), v);
      assert ([xs[0]] + Sorted(xs[1..]))[1..] == Sorted(xs[1..]);
    }
  }

  /** In ascending order, how many values are at most v shows where v stands. */
  lemma {:induction false} AtMostAscending(xs: seq<int>, v: int, i: nat)
    requires Ascending(xs) && i < |xs|
    ensures xs[i] <= v ==> AtMost(xs, v) >= i + 1
    ensures xs[i] > v ==> AtMost(xs, v) <= i
  {
    if i == 0 {
      if xs[0] > v { NoneAtMost(xs, v); }
    } else {
      AtMostAscending(xs[1..], v, i - 1);
    }
  }

  lemma {:induction false} NoneAtMost(xs: seq<int>, v: int)
    requires forall i :: 0 <= i < |xs| ==> xs[i] > v
    ensures AtMost(xs, v) == 0
  {
    if xs != [] { NoneAtMost(xs[1..], v); }
  }

  /** For 0 < p <= 100 the forcing does nothing: the rank is ceil(p * n / 100). */
  lemma RankInRange(p: real, n: nat)
    requires n > 0
    ensures 1 <= Rank(p, n) <= n
    ensures 0.0 < p <= 100.0 ==> Rank(p, n) == Ceil((p / 100.0) * n as real)
  {
    if 0.0 < p <= 100.0 {
      var share := p / 100.0;
      assert 0.0 < share <= 1.0;
      assert 0.0 < share * n as real <= n as real;
    }
  }

  /** v is one of the values, at least `rank` values are at or below it, and fewer than `rank` are below it. */
  ghost predicate HasRank(values: seq<int>, v: int, rank: int) {
    v in multiset(values) && AtMost(values, v) >= rank && AtMost(values, v - 1) < rank
  }

  lemma OrderedPosition(values: seq<int>, rank: int)
    requires 1 <= rank <= |values|
    ensures |Sorted(values)| == |values| && HasRank(values, Sorted(values)[rank - 1], rank)
  {
    SortSorts(values);
    var ordered, i := Sorted(values), rank - 1;
    assert ordered[i] in multiset(ordered);
    AtMostAscending(ordered, ordered[i], i);
    AtMostAscending(ordered, ordered[i] - 1, i);
    AtMostSort(values, ordered[i]);
    AtMostSort(values, ordered[i] - 1);
  }

  /** For any values and any p, the percentile is the value of the nearest rank. */
  lemma PercentileIsNearestRank(values: seq<int>, p: real, rank: int)
    requires values != [] && rank == Rank(p, |values|)
    ensures Percentile(values, p).Some? && HasRank(values, Percentile(values, p).value, rank)
  {
    RankInRange(p, |values|);
    OrderedPosition(values, rank);
    assert Percentile(values, p) == Some(Sorted(values)[rank - 1]);
  }

  /** The order of the values does not matter. */
  lemma PercentileIgnoresOrder(a: seq<int>, b: seq<int>, p: real)
    requires multiset(a) == multiset(b)
    ensures Percentile(a, p) == Percentile(b, p)
  {
    SortSorts(a);
    SortSorts(b);
    AscendingIsUnique(Sorted(a), Sorted(b));
    assert |multiset(a)| == |multiset(b)|;
  }

  lemma RankMonotone(p: real, q: real, n: nat)
    requires n > 0 && p <= q
    ensures Rank(p, n) <= Rank(q, n)
  {
    assert (p / 100.0) * n as real <= (q / 100.0) * n as real;
  }

  /** A larger p never gives a smaller value, so the median is at most the 95th percentile. */
  lemma PercentileMonotone(values: seq<int>, p: real, q: real)
    requires values != [] && p <= q
    ensures Percentile(values, p).value <= Percentile(values, q).value
  {
    SortSorts(values);
    RankMonotone(p, q, |values|);
    RankInRange(p, |values|);
    RankInRange(q, |values|);
  }
}
