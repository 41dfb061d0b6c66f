/** Insertion sort by a key, and the orders of a list that a query by that key may return. */
module Sorting {

  ghost predicate Ordered<T>(xs: seq<T>, key: T -> int) {
    forall i, j :: 0 <= i < j < |xs| ==> key(xs[i]) <= key(xs[j])
  }

  ghost predicate StrictlyOrdered<T>(xs: seq<T>, key: T -> int) {
    forall i, j :: 0 <= i < j < |xs| ==> key(xs[i]) < key(xs[j])
  }

  ghost predicate NoRepeats<T>(xs: seq<T>) {
    forall i, j :: 0 <= i < j < |xs| ==> xs[i] != xs[j]
  }

  /** x goes in front of its equals. */
  function Insert<T>(x: T, ys: seq<T>, key: T -> int): seq<T> {
    if ys == [] || key(x) <= key(ys[0]) then [x] + ys else [ys[0]] + Insert(x, ys[1..], key)
  }

  function Sort<T>(xs: seq<T>, key: T -> int): seq<T> {
    if xs == [] then [] else Insert(xs[0], Sort(xs[1..], key), key)
  }

  /** Where x goes: behind all smaller keys, in front of the rest. */
  lemma {:induction false} InsertPlace<T>(x: T, ys: seq<T>, key: T -> int) returns (p: nat)
    ensures p <= |ys| && Insert(x, ys, key) == ys[..p] + [x] + ys[p..]
    ensures forall i :: 0 <= i < p ==> key(ys[i]) < key(x)
    ensures p < |ys| ==> key(x) <= key(ys[p])
  {
    if ys == [] || key(x) <= key(ys[0]) {
      p := 0;
    } else {
      var q := InsertPlace(x, ys[1..], key);
      p := q + 1;
      assert ys[1..][..q] == ys[1..p] && ys[1..][q..] == ys[p..];
      assert [ys[0]] + ys[1..p] == ys[..p];
    }
  }

  lemma {:induction false} InsertKeeps<T>(x: T, ys: seq<T>, key: T -> int)
    ensures multiset(Insert(x, ys, key)) == multiset(ys) + multiset{x}
    ensures |Insert(x, ys, key)| == |ys| + 1
  {
    if ys != [] {
      assert ys == [ys[0]] + ys[1..];
      if key(x) > key(ys[0]) { InsertKeeps(x, ys[1..], key); }
    }
  }

  lemma InsertOrders<T>(x: T, ys: seq<T>, key: T -> int)
    requires Ordered(ys, key)
    ensures Ordered(Insert(x, ys, key), key)
  {
    var p := InsertPlace(x, ys, key);
  }

  lemma {:induction false} SortOrders<T>(xs: seq<T>, key: T -> int)
    ensures Ordered(Sort(xs, key), key) && multiset(Sort(xs, key)) == multiset(xs) && |Sort(xs, key)| == |xs|
  {
    if xs != [] {
      assert xs == [xs[0]] + xs[1..];
      SortOrders(xs[1..], key);
      InsertOrders(xs[0], Sort(xs[1..], key), key);
      InsertKeeps(xs[0], Sort(xs[1..], key), key);
    }
  }

  // ----- picking out of a list -----

  /** These are the positions of the elements to keep, in order, none left out. */
  ghost predicate Picks<T>(xs: seq<T>, keep: T -> bool, at: seq<nat>) {
    && (forall i :: 0 <= i < |at| ==> at[i] < |xs| && keep(xs[at[i]]))
    && (forall i, j :: 0 <= i < j < |at| ==> at[i] < at[j])
    && (forall p: nat :: p < |xs| && keep(xs[p]) ==> exists i :: 0 <= i < |at| && at[i] == p)
  }

  lemma PicksOneMore<T>(xs: seq<T>, x: T, keep: T -> bool, at: seq<nat>)
    requires Picks(xs, keep, at)
    ensures Picks(xs + [x], keep, if keep(x) then at + [|xs|] else at)
  {
    var all, more := xs + [x], if keep(x) then at + [|xs|] else at;
    forall p: nat | p < |all| && keep(all[p]) ensures exists i :: 0 <= i < |more| && more[i] == p {
      if p < |xs| {
        assert keep(xs[p]);
        var i :| 0 <= i < |at| && at[i] == p;
        assert more[i] == p;
      } else {
        assert more[|at|] == p;
      }
    }
  }

  /** ys shows, in order, the elements of xs to keep. */
  ghost predicate Extracts<T, U>(xs: seq<T>, keep: T -> bool, ys: seq<U>, shows: (U, T) -> bool, at: seq<nat>) {
    Picks(xs, keep, at) && |ys| == |at| && forall i :: 0 <= i < |at| ==> shows(ys[i], xs[at[i]])
  }

  /** more is ys, and one element for x if x is to be kept. */
  ghost predicate Extends<T, U>(x: T, keep: T -> bool, ys: seq<U>, more: seq<U>, shows: (U, T) -> bool) {
    if keep(x) then |more| == |ys| + 1 && more[..|ys|] == ys && shows(more[|ys|], x) else more == ys
  }

  lemma ExtractsOneMore<T, U>(xs: seq<T>, x: T, keep: T -> bool, ys: seq<U>, more: seq<U>, shows: (U, T) -> bool,
      at: seq<nat>) returns (longer: seq<nat>)
    requires Extracts(xs, keep, ys, shows, at) && Extends(x, keep, ys, more, shows)
    ensures Extracts(xs + [x], keep, more, shows, longer)
  {
    PicksOneMore(xs, x, keep, at);
    longer := if keep(x) then at + [|xs|] else at;
    assert forall i :: 0 <= i < |at| ==> (xs + [x])[at[i]] == xs[at[i]];
    assert forall i :: 0 <= i < |ys| ==> more[i] == ys[i];
  }

  // ----- orders of distinct elements -----

  /** The list holds each element of the set once. */
  ghost predicate Enumerates<T(!new)>(xs: seq<T>, s: set<T>) {
    NoRepeats(xs) && forall x :: x in xs <==> x in s
  }

  lemma {:induction false} OrderExists<T(!new)>(s: set<T>, key: T -> int) returns (xs: seq<T>)
    ensures Enumerates(xs, s) && Ordered(xs, key)
    decreases s, 1
  {
    xs := [];
    if x :| x in s {
      var p;
      xs, p := OrderWith(s, x, key);
    }
  }

  /** Any element can come in front of its equals. */
  lemma {:induction false} OrderWith<T(!new)>(s: set<T>, x: T, key: T -> int) returns (xs: seq<T>, p: nat)
    requires x in s
    ensures Enumerates(xs, s) && Ordered(xs, key)
    ensures p < |xs| && xs[p] == x && forall i :: 0 <= i < p ==> key(xs[i]) < key(x)
    decreases s, 0
  {
    var others := OrderExists(s - {x}, key);
    p := InsertPlace(x, others, key);
    InsertOrders(x, others, key);
    xs := Insert(x, others, key);
    assert others == others[..p] + others[p..] && xs == others[..p] + [x] + others[p..];
    assert forall y :: y in others <==> y in others[..p] || y in others[p..];
    assert forall y :: y in xs <==> y in others || y == x;
  }

  /** A strict order is the only order of its elements. */
  lemma {:induction false} StrictOrderIsOnly<T(!new)>(xs: seq<T>, ys: seq<T>, key: T -> int)
    requires StrictlyOrdered(xs, key) && Ordered(ys, key) && NoRepeats(ys) && forall x :: x in xs <==> x in ys
    ensures xs == ys
  {
    assert (xs != [] ==> xs[0] in xs) && (ys != [] ==> ys[0] in ys);
    if xs != [] {
      assert xs[0] == ys[0];
      assert forall x :: x in xs <==> x == xs[0] || x in xs[1..];
      assert forall x :: x in ys <==> x == ys[0] || x in ys[1..];
      StrictOrderIsOnly(xs[1..], ys[1..], key);
      assert xs == [xs[0]] + xs[1..] && ys == [ys[0]] + ys[1..];
    }
  }
}
