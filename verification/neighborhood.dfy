/** The neighbourhood moves of the simulated annealing for the multiple
    travelling salesman problem. A solution is a sequence of routes, one per
    vehicle, each starting with the depot. The in-place list surgery of the
    original becomes functions that return the new lists, so the solution
    handed to `RandomNeighbor` is never changed (the original works on a
    deep copy). Every random draw is an argument. */
module Neighborhood {
  import opened Wrappers
  import opened Seqs

  // ----- List primitives with the original's semantics -------------------

  /** Index of the first entry equal to `v`. */
  function FirstOccurrence<P(==)>(s: seq<P>, v: P): (k: nat)
    requires v in s
    ensures k < |s| && s[k] == v
    ensures v !in s[..k]
  {
    FirstIndexOf(s, x => x, v)
  }

  /** `list.insert(k, v)`: `v` lands at the position Python makes of `k`,
      the entries before it stay and the entries from it on move one place
      to the right. */
  function PyInsert<P>(s: seq<P>, k: int, v: P): (r: seq<P>)
    ensures |r| == |s| + 1
    ensures var i := ClampIndex(k, |s|); r[..i] == s[..i] && r[i] == v && r[i + 1..] == s[i..]
    ensures multiset(r) == multiset(s) + multiset{v}
    ensures 0 <= k <= |s| ==> r[k] == v
    ensures k > |s| ==> r == s + [v]
  {
    var i := ClampIndex(k, |s|);
    assert InsertAt(s, i, v)[i + 1..] == s[i..];
    assert k > |s| ==> InsertAt(s, i, v) == s + [v] by {
      if k > |s| {
        assert s[..|s|] == s;
      }
    }
    InsertAt(s, i, v)
  }

  /** `list.remove(v)`: deletes the first entry equal to `v`; the entries
      before it stay and the entries after it move one place to the left. */
  function RemoveFirst<P(==)>(s: seq<P>, v: P): (r: seq<P>)
    requires v in s
    ensures |r| == |s| - 1
    ensures var k := FirstOccurrence(s, v); r[..k] == s[..k] && r[k..] == s[k + 1..]
    ensures multiset(r) + multiset{v} == multiset(s)
    ensures s[0] != v ==> |r| > 0 && r[0] == s[0]
  {
    var k := FirstOccurrence(s, v);
    assert RemoveAt(s, k)[k..] == s[k + 1..];
    RemoveAt(s, k)
  }

  // ----- The four moves ---------------------------------------------------

  /** Intra-route swap: index `i` receives `vj`, then index `j` receives
      `vi`. */
  function IntraRouteSwap<P>(route: seq<P>, i: nat, vi: P, j: nat, vj: P): (r: seq<P>)
    requires i < |route| && j < |route|
    ensures |r| == |route|
    ensures r[j] == vi
    ensures i != j ==> r[i] == vj
    ensures forall k :: 0 <= k < |route| && k != i && k != j ==> r[k] == route[k]
  {
    route[i := vj][j := vi]
  }

  /** When the values handed in are the ones stored at `i` and `j`, the swap
      exchanges the two entries, keeps the multiset of points, and swapping
      again restores the route. */
  lemma IntraRouteSwapExchanges<P>(route: seq<P>, i: nat, j: nat)
    requires i < |route| && j < |route|
    ensures var r := IntraRouteSwap(route, i, route[i], j, route[j]);
      && r[i] == route[j] && r[j] == route[i]
      && multiset(r) == multiset(route)
      && IntraRouteSwap(r, i, r[i], j, r[j]) == route
  {
    var r := IntraRouteSwap(route, i, route[i], j, route[j]);
    assert multiset(route[i := route[j]]) == multiset(route) - multiset{route[i]} + multiset{route[j]};
    assert IntraRouteSwap(r, i, r[i], j, r[j]) == route;
  }

  /** Intra-route shift: the value is removed (its first occurrence) and
      inserted at index `j`, so it moves from its first occurrence to the
      position Python makes of `j` in the shortened route. */
  function IntraRouteShift<P(==)>(route: seq<P>, v: P, j: int): (r: seq<P>)
    requires v in route
    ensures r == Shifted(route, FirstOccurrence(route, v), ClampIndex(j, |route| - 1))
    ensures |r| == |route|
    ensures multiset(r) == multiset(route)
    ensures 0 <= j < |route| ==> r[j] == v
  {
    var k := FirstOccurrence(route, v);
    var rest := RemoveFirst(route, v);
    assert rest == RemoveAt(route, k);
    assert PyInsert(rest, j, v) == InsertAt(rest, ClampIndex(j, |rest|), route[k]);
    RemoveInsertIsShift(route, k, ClampIndex(j, |route| - 1));
    PyInsert(rest, j, v)
  }

  /** Inter-route swap: index `i` of route one receives `vj` and index `j` of
      route two receives `vi`. */
  function InterRouteSwap<P>(one: seq<P>, two: seq<P>, i: nat, vi: P, j: nat, vj: P): (r: (seq<P>, seq<P>))
    requires i < |one| && j < |two|
    ensures |r.0| == |one| && |r.1| == |two|
    ensures r.0[i] == vj && r.1[j] == vi
    ensures forall k :: 0 <= k < |one| && k != i ==> r.0[k] == one[k]
    ensures forall k :: 0 <= k < |two| && k != j ==> r.1[k] == two[k]
  {
    (one[i := vj], two[j := vi])
  }

  /** With the stored values handed in, the inter-route swap keeps the
      combined multiset of the two routes. */
  lemma InterRouteSwapKeepsPoints<P>(one: seq<P>, two: seq<P>, i: nat, j: nat)
    requires i < |one| && j < |two|
    ensures var r := InterRouteSwap(one, two, i, one[i], j, two[j]);
      multiset(r.0) + multiset(r.1) == multiset(one) + multiset(two)
  {
    assert multiset(one[i := two[j]]) == multiset(one) - multiset{one[i]} + multiset{two[j]};
    assert multiset(two[j := one[i]]) == multiset(two) - multiset{two[j]} + multiset{one[i]};
  }

  /** Inter-route shift: the value leaves route one (its first occurrence)
      and is inserted into route two at index `j`. */
  function InterRouteShift<P(==)>(one: seq<P>, two: seq<P>, v: P, j: int): (r: (seq<P>, seq<P>))
    requires v in one
    ensures |r.0| == |one| - 1 && |r.1| == |two| + 1
    ensures var k := FirstOccurrence(one, v); r.0[..k] == one[..k] && r.0[k..] == one[k + 1..]
    ensures var i := ClampIndex(j, |two|); r.1[..i] == two[..i] && r.1[i] == v && r.1[i + 1..] == two[i..]
    ensures 0 <= j <= |two| ==> r.1[j] == v
    ensures multiset(r.0) + multiset(r.1) == multiset(one) + multiset(two)
  {
    (RemoveFirst(one, v), PyInsert(two, j, v))
  }

  // ----- Random choices ---------------------------------------------------

  /** The rejection loops of the original draw until a draw is acceptable.
      Here the draws are a finite stream: the result is the first
      acceptable draw, or `None` when the stream holds none (the original
      would go on drawing). */
  method FirstAccepted(draws: seq<int>, accept: int -> bool) returns (r: Option<int>)
    ensures r.Some? ==> accept(r.value)
    ensures r.Some? ==> exists k :: 0 <= k < |draws| && draws[k] == r.value &&
                                    forall m :: 0 <= m < k ==> !accept(draws[m])
    ensures r.None? <==> forall k :: 0 <= k < |draws| ==> !accept(draws[k])
  {
    var k := 0;
    while k < |draws|
      invariant 0 <= k <= |draws|
      invariant forall m :: 0 <= m < k ==> !accept(draws[m])
    {
      if accept(draws[k]) {
        return Some(draws[k]);
      }
      k := k + 1;
    }
    return None;
  }

  /** `random_route`: the first drawn route index whose route has more than
      two entries (the depot and at least two points). When no route is that
      long no draw stream ever ends the loop. */
  method RandomRoute<P>(routes: seq<seq<P>>, draws: seq<int>) returns (r: Option<nat>)
    requires forall k :: 0 <= k < |draws| ==> 0 <= draws[k] < |routes|
    ensures r.Some? ==> r.value < |routes| && |routes[r.value]| > 2
    ensures r.Some? ==> exists k :: 0 <= k < |draws| && draws[k] == r.value &&
                                    forall m :: 0 <= m < k ==> |routes[draws[m]]| <= 2
    ensures r.None? <==> forall k :: 0 <= k < |draws| ==> |routes[draws[k]]| <= 2
    ensures (forall k :: 0 <= k < |routes| ==> |routes[k]| <= 2) ==> r.None?
  {
    var d := FirstAccepted(draws, i => 0 <= i < |routes| && |routes[i]| > 2);
    if d.Some? {
      r := Some(d.value);
    } else {
      r := None;
    }
  }

  /** `random_route_two`: the first drawn route index different from
      `one`. With a single route no draw stream ever ends the loop. */
  method RandomRouteTwo<P>(routes: seq<seq<P>>, one: nat, draws: seq<int>) returns (r: Option<nat>)
    requires forall k :: 0 <= k < |draws| ==> 0 <= draws[k] < |routes|
    ensures r.Some? ==> r.value < |routes| && r.value != one
    ensures r.Some? ==> exists k :: 0 <= k < |draws| && draws[k] == r.value &&
                                    forall m :: 0 <= m < k ==> draws[m] == one
    ensures r.None? <==> forall k :: 0 <= k < |draws| ==> draws[k] == one
    ensures |routes| == 1 && one == 0 ==> r.None?
  {
    var d := FirstAccepted(draws, i => 0 <= i < |routes| && i != one);
    if d.Some? {
      r := Some(d.value);
    } else {
      r := None;
    }
  }

  /** `random_point`: the first drawn index in `[1, length - 1]` of the
      route that differs from `pointOne`, with the value stored there. */
  method RandomPoint<P>(pointOne: nat, routes: seq<seq<P>>, route: nat, draws: seq<int>) returns (r: Option<(nat, P)>)
    requires route < |routes|
    requires forall k :: 0 <= k < |draws| ==> 1 <= draws[k] <= |routes[route]| - 1
    ensures r.Some? ==> 1 <= r.value.0 < |routes[route]| && r.value.0 != pointOne
    ensures r.Some? ==> r.value.1 == routes[route][r.value.0]
    ensures r.Some? ==> exists k :: 0 <= k < |draws| && draws[k] == r.value.0 &&
                                    forall m :: 0 <= m < k ==> draws[m] == pointOne
    ensures r.None? <==> forall k :: 0 <= k < |draws| ==> draws[k] == pointOne
  {
    var d := FirstAccepted(draws, i => 1 <= i < |routes[route]| && i != pointOne);
    if d.Some? {
      r := Some((d.value, routes[route][d.value]));
    } else {
      r := None;
    }
  }

  // ----- The depot test -----------------------------------------------------

  /** `isOnlyDepot` as written: it evaluates the length test but never
      returns it, so every call yields `None`, which is falsy. */
  function IsOnlyDepotAsWritten<P>(routes: seq<seq<P>>, route: nat): (r: bool)
    requires route < |routes|
    ensures !r
  {
    false
  }

  /** `isOnlyDepot` as intended: the route holds the depot alone, that is,
      nothing but its first entry. */
  function IsOnlyDepot<P>(routes: seq<seq<P>>, route: nat): (r: bool)
    requires route < |routes|
    ensures r <==> routes[route] == [] || routes[route] == [routes[route][0]]
  {
    |routes[route]| <= 1
  }

  // ----- The composed move ------------------------------------------------

  /** Every draw `random_neighbor` makes. */
  datatype Choices = Choices(option: int, routeOne: nat, pointOne: nat, pointTwo: nat, routeTwo: nat)

  /** The ranges the draws come from: an operation in `[0, 3]`; route one
      from `random_route`; point one from `[1, length - 1]` of route one, so
      never the depot; for the intra-route moves point two from
      `random_point`; for the inter-route moves route two from
      `random_route_two` and point two from `[1, length - 1]` of route two
      unless route two holds the depot alone. */
  predicate ValidChoices<P>(routes: seq<seq<P>>, ch: Choices) {
    && 0 <= ch.option <= 3
    && ch.routeOne < |routes| && |routes[ch.routeOne]| > 2
    && 1 <= ch.pointOne < |routes[ch.routeOne]|
    && (ch.option <= 1 ==> 1 <= ch.pointTwo < |routes[ch.routeOne]| && ch.pointTwo != ch.pointOne)
    && (ch.option > 1 ==>
          && ch.routeTwo < |routes| && ch.routeTwo != ch.routeOne
          && (!IsOnlyDepot(routes, ch.routeTwo) ==> 1 <= ch.pointTwo < |routes[ch.routeTwo]|))
  }

  /** The same ranges with the depot test as written: route two is never
      treated as holding the depot alone, so point two is always drawn from
      `[1, length - 1]` of route two. */
  predicate ValidChoicesAsWritten<P>(routes: seq<seq<P>>, ch: Choices) {
    && 0 <= ch.option <= 3
    && ch.routeOne < |routes| && |routes[ch.routeOne]| > 2
    && 1 <= ch.pointOne < |routes[ch.routeOne]|
    && (ch.option <= 1 ==> 1 <= ch.pointTwo < |routes[ch.routeOne]| && ch.pointTwo != ch.pointOne)
    && (ch.option > 1 ==>
          && ch.routeTwo < |routes| && ch.routeTwo != ch.routeOne
          && (!IsOnlyDepotAsWritten(routes, ch.routeTwo) ==> 1 <= ch.pointTwo < |routes[ch.routeTwo]|))
  }

  /** As written, an inter-route move towards a route that holds the depot
      alone needs a draw from the empty range `[1, 0]`: for the solution
      [[0, 1, 2], [0]] no draw at all is acceptable. */
  lemma OnlyDepotAsWrittenHasNoDraw(option: int, pointOne: nat, pointTwo: nat)
    requires 2 <= option <= 3
    ensures !ValidChoicesAsWritten([[0, 1, 2], [0]], Choices(option, 0, pointOne, pointTwo, 1))
    ensures IsOnlyDepot([[0, 1, 2], [0]], 1) && !IsOnlyDepotAsWritten([[0, 1, 2], [0]], 1)
  {
  }

  /** With the intended depot test, every solution that `random_route` can
      serve and that has a second route admits a complete set of draws, for
      every operation and every choice of the two routes. */
  lemma NeighborChoicesExist<P>(routes: seq<seq<P>>, option: int, routeOne: nat, routeTwo: nat)
    requires 0 <= option <= 3
    requires routeOne < |routes| && |routes[routeOne]| > 2
    requires routeTwo < |routes| && routeTwo != routeOne
    ensures ValidChoices(routes, Choices(option, routeOne, 1, if option <= 1 then 2 else 1, routeTwo))
  {
  }

  /** Replacing a route by one with the same points keeps the points of the
      solution. */
  lemma PointsKeptBySamePoints<P>(routes: seq<seq<P>>, k: nat, r: seq<P>)
    requires k < |routes| && multiset(r) == multiset(routes[k])
    ensures Bag(routes[k := r]) == Bag(routes)
  {
    BagSplit(routes, k);
    BagSplit(routes[k := r], k);
    assert routes[k := r][k := []] == routes[k := []];
  }

  /** Replacing two distinct routes by two routes with the same points
      between them keeps the points of the solution. */
  lemma PointsKeptByExchange<P>(routes: seq<seq<P>>, i: nat, j: nat, ri: seq<P>, rj: seq<P>)
    requires i < |routes| && j < |routes| && i != j
    requires multiset(ri) + multiset(rj) == multiset(routes[i]) + multiset(routes[j])
    ensures Bag(routes[i := ri][j := rj]) == Bag(routes)
  {
    var after := routes[i := ri][j := rj];
    var empty := routes[i := []][j := []];
    assert routes[i := []][j] == routes[j] && after[j] == rj && after[j := []][i] == ri;
    BagSplit(routes, i);
    BagSplit(routes[i := []], j);
    BagSplit(after, j);
    BagSplit(after[j := []], i);
    assert after[j := []][i := []] == empty;
    Regroup(Bag(empty), multiset(ri), multiset(rj), multiset(routes[j]), multiset(routes[i]));
  }

  /** Multiset bookkeeping for `PointsKeptByExchange`. */
  lemma Regroup<P>(e: multiset<P>, a: multiset<P>, b: multiset<P>, c: multiset<P>, d: multiset<P>)
    requires a + b == d + c
    ensures (e + a) + b == (e + c) + d
  {
    forall x ensures ((e + a) + b)[x] == ((e + c) + d)[x] {
      assert (a + b)[x] == (d + c)[x];
    }
  }

  /** Operations 0 and 1 on route one: swap the two drawn points, or shift
      point one to index point two. */
  function IntraMove<P(==)>(route: seq<P>, ch: Choices): (r: seq<P>)
    requires ch.option <= 1
    requires 1 <= ch.pointOne < |route| && 1 <= ch.pointTwo < |route|
    ensures |r| == |route|
    ensures ch.option == 0 ==>
      && r[ch.pointOne] == route[ch.pointTwo] && r[ch.pointTwo] == route[ch.pointOne]
      && forall k :: 0 <= k < |route| && k != ch.pointOne && k != ch.pointTwo ==> r[k] == route[k]
    ensures ch.option == 1 ==> r == Shifted(route, FirstOccurrence(route, route[ch.pointOne]), ch.pointTwo)
    ensures ch.option == 1 && NoDup(route) ==> r == Shifted(route, ch.pointOne, ch.pointTwo)
    ensures multiset(r) == multiset(route)
  {
    var v1 := route[ch.pointOne];
    if ch.option == 0 then
      IntraRouteSwapExchanges(route, ch.pointOne, ch.pointTwo);
      IntraRouteSwap(route, ch.pointOne, v1, ch.pointTwo, route[ch.pointTwo])
    else
      assert NoDup(route) ==> FirstOccurrence(route, v1) == ch.pointOne;
      IntraRouteShift(route, v1, ch.pointTwo)
  }

  /** Operations 2 and 3 between route one and route two: swap the two
      drawn points, or shift point one into route two. A route two holding
      the depot alone forces a shift to its index 1. */
  function InterMove<P(==)>(one: seq<P>, two: seq<P>, ch: Choices): (r: (seq<P>, seq<P>))
    requires 2 <= ch.option <= 3
    requires 1 <= ch.pointOne < |one|
    requires |two| > 1 ==> 1 <= ch.pointTwo < |two|
    ensures ch.option == 2 && |two| > 1 ==> |r.0| == |one| && |r.1| == |two|
    ensures ch.option == 3 || |two| <= 1 ==> |r.0| == |one| - 1 && |r.1| == |two| + 1
    ensures ch.option == 2 && |two| > 1 ==>
      && r.0 == one[ch.pointOne := two[ch.pointTwo]]
      && r.1 == two[ch.pointTwo := one[ch.pointOne]]
    ensures ch.option == 3 || |two| <= 1 ==>
      var k := FirstOccurrence(one, one[ch.pointOne]);
      var i := ClampIndex(if |two| <= 1 then 1 else ch.pointTwo, |two|);
      && r.0[..k] == one[..k] && r.0[k..] == one[k + 1..]
      && r.1[..i] == two[..i] && r.1[i] == one[ch.pointOne] && r.1[i + 1..] == two[i..]
    ensures multiset(r.0) + multiset(r.1) == multiset(one) + multiset(two)
  {
    var v1 := one[ch.pointOne];
    if ch.option == 2 && |two| > 1 then
      InterRouteSwapKeepsPoints(one, two, ch.pointOne, ch.pointTwo);
      InterRouteSwap(one, two, ch.pointOne, v1, ch.pointTwo, two[ch.pointTwo])
    else
      InterRouteShift(one, two, v1, if |two| <= 1 then 1 else ch.pointTwo)
  }

  /** `random_neighbor`: applies the drawn operation to a copy of the
      solution; only route one and, for operations 2 and 3, route two
      change. */
  function RandomNeighbor<P(==)>(routes: seq<seq<P>>, ch: Choices): (r: seq<seq<P>>)
    requires ValidChoices(routes, ch)
    ensures |r| == |routes|
    ensures ch.option <= 1 ==> r[ch.routeOne] == IntraMove(routes[ch.routeOne], ch)
    ensures ch.option > 1 ==> (r[ch.routeOne], r[ch.routeTwo]) == InterMove(routes[ch.routeOne], routes[ch.routeTwo], ch)
    ensures Bag(r) == Bag(routes)
    ensures forall k :: 0 <= k < |routes| && k != ch.routeOne && (ch.option <= 1 || k != ch.routeTwo) ==> r[k] == routes[k]
    ensures ch.option <= 1 ==> |r[ch.routeOne]| == |routes[ch.routeOne]|
    ensures ch.option == 2 && !IsOnlyDepot(routes, ch.routeTwo) ==>
      |r[ch.routeOne]| == |routes[ch.routeOne]| && |r[ch.routeTwo]| == |routes[ch.routeTwo]|
    ensures ch.option == 3 || (ch.option == 2 && IsOnlyDepot(routes, ch.routeTwo)) ==>
      |r[ch.routeOne]| == |routes[ch.routeOne]| - 1 && |r[ch.routeTwo]| == |routes[ch.routeTwo]| + 1
  {
    var one := ch.routeOne;
    if ch.option <= 1 then
      var route := IntraMove(routes[one], ch);
      PointsKeptBySamePoints(routes, one, route);
      routes[one := route]
    else
      var two := ch.routeTwo;
      var pair := InterMove(routes[one], routes[two], ch);
      PointsKeptByExchange(routes, one, two, pair.0, pair.1);
      routes[one := pair.0][two := pair.1]
  }

  /** When every route starts with a depot entry that occurs nowhere else in
      it, every route of the neighbour still starts with the same entry: the
      depot is never drawn and never displaced. */
  lemma RandomNeighborKeepsDepots<P>(routes: seq<seq<P>>, ch: Choices)
    requires ValidChoices(routes, ch)
    requires forall k :: 0 <= k < |routes| ==> |routes[k]| >= 1
    requires forall k, i :: 0 <= k < |routes| && 1 <= i < |routes[k]| ==> routes[k][i] != routes[k][0]
    ensures var r := RandomNeighbor(routes, ch);
      forall k :: 0 <= k < |r| ==> |r[k]| >= 1 && r[k][0] == routes[k][0]
  {
    var r := RandomNeighbor(routes, ch);
    var one := ch.routeOne;
    var v1 := routes[one][ch.pointOne];
    assert routes[one][0] != v1;
    if ch.option <= 1 {
      if ch.option == 1 {
        var rest := RemoveFirst(routes[one], v1);
        assert rest[0] == routes[one][0];
        assert r[one] == PyInsert(rest, ch.pointTwo, v1);
      }
    } else {
      var two := ch.routeTwo;
      if IsOnlyDepot(routes, two) || ch.option == 3 {
        var rest := RemoveFirst(routes[one], v1);
        assert rest[0] == routes[one][0];
      }
    }
  }
}
