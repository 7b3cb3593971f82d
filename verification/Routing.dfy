/** Distributing elements over numbered lists, by a routing function that may also reject an element. */
module Routing {
  import opened Common
  import opened Ordering

  function Goes<T>(route: T -> Option<nat>, to: Option<nat>): T -> seq<T> {
    (x: T) => if route(x) == to then [x] else []
  }

  /** The elements that go to one destination, in order; None holds the rejected ones. */
  function Routed<T>(route: T -> Option<nat>, xs: seq<T>, to: Option<nat>): seq<T> {
    Gather(Goes(route, to), xs)
  }

  lemma RoutedNext<T>(route: T -> Option<nat>, xs: seq<T>, x: T, to: Option<nat>)
    ensures Routed(route, xs + [x], to) == if route(x) == to then Routed(route, xs, to) + [x] else Routed(route, xs, to)
  {
    GatherSnoc(Goes(route, to), xs, x);
  }

  /** Everything in the lists. */
  ghost function Total<T>(lists: seq<seq<T>>): multiset<T> {
    if lists == [] then multiset{} else Total(lists[..|lists| - 1]) + multiset(lists[|lists| - 1])
  }

  lemma {:induction false} RoutedMembers<T>(route: T -> Option<nat>, xs: seq<T>, to: Option<nat>)
    ensures forall x :: x in Routed(route, xs, to) <==> x in xs && route(x) == to
    decreases |xs|
  {
    if xs != [] {
      RoutedMembers(route, xs[1..], to);
      assert xs == [xs[0]] + xs[1..];
    }
  }

  /** An element goes to its destination as often as it occurs, and nowhere else. */
  lemma {:induction false} RoutedCount<T>(route: T -> Option<nat>, xs: seq<T>, to: Option<nat>, x: T)
    ensures multiset(Routed(route, xs, to))[x] == if route(x) == to then multiset(xs)[x] else 0
    decreases |xs|
  {
    if xs != [] {
      RoutedCount(route, xs[1..], to, x);
      assert xs == [xs[0]] + xs[1..];
    }
  }

  lemma {:induction false} TotalCount<T>(lists: seq<seq<T>>, x: T, count: nat, to: Option<nat>)
    requires forall i :: 0 <= i < |lists| ==> multiset(lists[i])[x] == if to == Some(i) then count else 0
    ensures Total(lists)[x] == if to.Some? && to.value < |lists| then count else 0
    decreases |lists|
  {
    if lists != [] {
      TotalCount(lists[..|lists| - 1], x, count, to);
    }
  }

  /** However each list is ordered, every element is in exactly one list or rejected. */
  lemma RoutedConserved<T(!new)>(route: T -> Option<nat>, xs: seq<T>, lists: seq<seq<T>>)
    requires forall x :: x in xs && route(x).Some? ==> route(x).value < |lists|
    requires forall i :: 0 <= i < |lists| ==> multiset(lists[i]) == multiset(Routed(route, xs, Some(i)))
    ensures Total(lists) + multiset(Routed(route, xs, None)) == multiset(xs)
  {
    var rejected := multiset(Routed(route, xs, None));
    forall x
      ensures (Total(lists) + rejected)[x] == multiset(xs)[x]
    {
      forall i | 0 <= i < |lists|
        ensures multiset(lists[i])[x] == if route(x) == Some(i) then multiset(xs)[x] else 0
      {
        RoutedCount(route, xs, Some(i), x);
      }
      TotalCount(lists, x, multiset(xs)[x], route(x));
      RoutedCount(route, xs, None, x);
      assert x in xs <==> multiset(xs)[x] > 0;
    }
  }
}
