/** The structural parts of the biased random-key genetic algorithm for the
    multiple travelling salesman problem, in its variant that penalises
    keys naming a point twice. Points are identified by their index, 0 being
    the depot; a solution holds one route per vehicle, each starting at the
    depot. Route costs are abstract: the increment of appending a point
    after another is the parameter `delta`, and every random draw is an
    argument. */
module Brkga {
  import opened Seqs
  import opened Sorting

  /** One random key entry: a gene drawn from [0, 1] attached to a point. */
  datatype Gene = Gene(gene: real, index: nat)

  /** A member of the population: its key, its objective value and the
      routes its key decodes to. */
  datatype Individual = Individual(key: seq<Gene>, fo: real, solution: seq<seq<nat>>)

  /** `sort_by_gene`. */
  function GeneOf(g: Gene): real { g.gene }

  /** `sort_by_fo`. */
  function FoOf(e: Individual): real { e.fo }

  /** The points a key names, in key order. */
  function Points(key: seq<Gene>): (r: seq<nat>)
    ensures |r| == |key|
    ensures forall k :: 0 <= k < |key| ==> r[k] == key[k].index
  {
    seq(|key|, k requires 0 <= k < |key| => key[k].index)
  }

  /** The cost written into route 0 when decoding meets an entry it cannot
      place. */
  const Penalty: real := 100000000.0

  // ----- Random keys ------------------------------------------------------

  /** The genes `generate_key` draws for the points other than the depot,
      in point order. */
  function PointGenes(draws: seq<real>): (r: seq<Gene>)
    requires |draws| >= 1
    ensures |r| == |draws| - 1
    ensures forall k :: 0 <= k < |r| ==> r[k] == Gene(draws[k + 1], k + 1)
  {
    seq(|draws| - 1, k requires 0 <= k < |draws| - 1 => Gene(draws[k + 1], k + 1))
  }

  /** Any rearrangement of those genes names every point other than the
      depot, each with its own draw. */
  lemma PointGenesMembers(draws: seq<real>, r: seq<Gene>)
    requires |draws| >= 1 && multiset(r) == multiset(PointGenes(draws))
    ensures forall i :: 1 <= i < |draws| ==> Gene(draws[i], i) in r
    ensures forall k :: 0 <= k < |r| ==> 1 <= r[k].index < |draws| && r[k].gene == draws[r[k].index]
  {
    var genes := PointGenes(draws);
    forall i | 1 <= i < |draws| ensures Gene(draws[i], i) in r {
      assert genes[i - 1] == Gene(draws[i], i);
      assert Gene(draws[i], i) in multiset(genes);
    }
    forall k | 0 <= k < |r| ensures 1 <= r[k].index < |draws| && r[k].gene == draws[r[k].index] {
      assert r[k] in multiset(genes);
    }
  }

  /** Any rearrangement of those genes names no point twice. */
  lemma PointGenesDistinct(draws: seq<real>, r: seq<Gene>)
    requires |draws| >= 1 && multiset(r) == multiset(PointGenes(draws))
    ensures forall a, b :: 0 <= a < b < |r| ==> r[a].index != r[b].index
  {
    var genes := PointGenes(draws);
    PointGenesMembers(draws, r);
    assert NoDup(genes);
    NoDupPermutation(genes, r);
  }

  /** `generate_key`: one gene per point, drawn in point order, the depot's
      gene popped, the rest sorted by gene. The result names every point
      other than the depot exactly once, each with its own draw. */
  function GenerateKey(draws: seq<real>): (r: seq<Gene>)
    requires |draws| >= 1
    ensures |r| == |draws| - 1
    ensures SortedBy(r, GeneOf)
    ensures forall i :: 1 <= i < |draws| ==> Gene(draws[i], i) in r
    ensures forall k :: 0 <= k < |r| ==> 1 <= r[k].index < |draws| && r[k].gene == draws[r[k].index]
    ensures forall a, b :: 0 <= a < b < |r| ==> r[a].index != r[b].index
  {
    var r := SortBy(PointGenes(draws), GeneOf);
    PointGenesMembers(draws, r);
    PointGenesDistinct(draws, r);
    r
  }

  // ----- Decoding ---------------------------------------------------------

  /** Decoding cannot place the entry at position `k`: it names the depot,
      or an earlier entry already placed its point. */
  predicate Rejected(key: seq<Gene>, k: nat)
    requires k < |key|
  {
    key[k].index == 0 || exists a :: 0 <= a < k && key[a].index == key[k].index
  }

  /** A key the decoder reads to the end without penalty. */
  predicate Admissible(key: seq<Gene>) {
    forall k :: 0 <= k < |key| ==> !Rejected(key, k)
  }

  /** The first position from `from` on that decoding rejects, or the
      length of the key when there is none. */
  function FirstRejected(key: seq<Gene>, from: nat): (r: nat)
    requires from <= |key|
    ensures from <= r <= |key|
    ensures forall m :: from <= m < r ==> !Rejected(key, m)
    ensures r < |key| ==> Rejected(key, r)
    decreases |key| - from
  {
    if from == |key| || Rejected(key, from) then from
    else FirstRejected(key, from + 1)
  }

  /** Where decoding stops: it accepts every entry before this position
      and rejects the entry at it, if any. */
  function Stop(key: seq<Gene>): (r: nat)
    ensures r <= |key|
    ensures forall m :: 0 <= m < r ==> !Rejected(key, m)
    ensures r < |key| ==> Rejected(key, r)
  {
    FirstRejected(key, 0)
  }

  /** Decoding reads a key to the end exactly when the key is
      admissible. */
  lemma StopIffAdmissible(key: seq<Gene>)
    ensures Stop(key) == |key| <==> Admissible(key)
  {
  }

  /** Random keys from `generate_key` are read to the end. */
  lemma GeneratedKeyIsAdmissible(draws: seq<real>)
    requires |draws| >= 1
    ensures Admissible(GenerateKey(draws))
    ensures Stop(GenerateKey(draws)) == |draws| - 1
  {
    StopIffAdmissible(GenerateKey(draws));
  }

  /** The last point of a route. */
  function Last(route: seq<nat>): nat
    requires |route| > 0
  {
    route[|route| - 1]
  }

  /** A route without its first entry, the depot. */
  function Rest(route: seq<nat>): seq<nat> {
    if route == [] then [] else route[1..]
  }

  /** The points a solution visits besides the depots it starts from. */
  ghost function Placed(routes: seq<seq<nat>>): multiset<nat> {
    Bag(Map(routes, Rest))
  }

  /** Appending a point to a route adds exactly that point to the
      solution. */
  lemma PlacedAppend(routes: seq<seq<nat>>, b: nat, i: nat)
    requires b < |routes| && |routes[b]| > 0
    ensures Placed(routes[b := routes[b] + [i]]) == Placed(routes) + multiset{i}
  {
    var y := routes[b] + [i];
    var x := Map(routes, Rest);
    var u := Map(routes[b := y], Rest);
    assert Rest(y) == Rest(routes[b]) + [i];
    assert u == x[b := Rest(y)];
    BagSplit(x, b);
    BagSplit(u, b);
    assert u[b := []] == x[b := []];
  }

  /** The cost route `j` would have with point `i` appended. */
  function Candidate(routes: seq<seq<nat>>, costs: seq<real>, i: nat, delta: (nat, nat) -> real, j: nat): real
    requires j < |routes| == |costs| && |routes[j]| > 0
  {
    costs[j] + delta(Last(routes[j]), i)
  }

  /** The index of the first least entry (`fos.index(min(fos))`). */
  function ArgMinFirst(xs: seq<real>): (r: nat)
    requires |xs| > 0
    ensures r < |xs|
    ensures forall j :: 0 <= j < |xs| ==> xs[r] <= xs[j]
    ensures forall j :: 0 <= j < r ==> xs[r] < xs[j]
  {
    if |xs| == 1 then 0
    else
      var m := ArgMinFirst(xs[..|xs| - 1]);
      assert forall j :: 0 <= j < |xs| - 1 ==> xs[..|xs| - 1][j] == xs[j];
      if xs[|xs| - 1] < xs[m] then |xs| - 1 else m
  }

  /** The route that receives point `i`: the first one whose candidate cost
      is least. */
  function BestRoute(routes: seq<seq<nat>>, costs: seq<real>, i: nat, delta: (nat, nat) -> real): (b: nat)
    requires 0 < |routes| == |costs|
    requires forall j :: 0 <= j < |routes| ==> |routes[j]| > 0
    ensures b < |routes|
    ensures forall j :: 0 <= j < |routes| ==> Candidate(routes, costs, i, delta, b) <= Candidate(routes, costs, i, delta, j)
    ensures forall j :: 0 <= j < b ==> Candidate(routes, costs, i, delta, b) < Candidate(routes, costs, i, delta, j)
  {
    var fos := seq(|routes|, j requires 0 <= j < |routes| => Candidate(routes, costs, i, delta, j));
    assert forall j :: 0 <= j < |routes| ==> fos[j] == Candidate(routes, costs, i, delta, j);
    ArgMinFirst(fos)
  }

  /** The points other than the depot, `points[1:]` (`points_aux`). */
  function Customers(n: nat): (r: set<nat>)
    ensures forall i: nat :: i in r <==> 1 <= i < n
  {
    if n <= 1 then {} else Customers(n - 1) + {n - 1}
  }

  /** No entry before position `k` is rejected, so decoding has placed
      each of their points exactly once, none of them the depot. */
  lemma PlacedPrefix(key: seq<Gene>, k: nat, n: nat)
    requires k <= |key|
    requires forall m :: 0 <= m < k ==> !Rejected(key, m) && key[m].index < n
    ensures forall x :: multiset(Points(key[..k]))[x] <= 1
    ensures forall x :: x in multiset(Points(key[..k])) ==> 1 <= x < n
  {
    var placed := Points(key[..k]);
    assert NoDup(placed) by {
      forall a, b | 0 <= a < b < |placed| ensures placed[a] != placed[b] {
        assert !Rejected(key, b);
      }
    }
    NoDupIffCountsAtMostOne(placed);
    forall x | x in multiset(placed) ensures 1 <= x < n {
      assert x in placed;
      var m :| 0 <= m < k && placed[m] == x;
      assert !Rejected(key, m);
    }
  }

  /** What `points_aux` holds after the entries before position `k` have
      been placed: the points other than the depot, each placement taking
      its point out. */
  function Unplaced(key: seq<Gene>, k: nat, n: nat): set<nat>
    requires k <= |key|
  {
    if k == 0 then Customers(n) else Unplaced(key, k - 1, n) - {key[k - 1].index}
  }

  /** The unplaced points are exactly the points other than the depot that
      no entry before position `k` names. */
  lemma {:induction false} UnplacedMembers(key: seq<Gene>, k: nat, n: nat)
    requires k <= |key|
    ensures forall i: nat :: i in Unplaced(key, k, n) <==> 1 <= i < n && forall m :: 0 <= m < k ==> key[m].index != i
  {
    if k > 0 {
      UnplacedMembers(key, k - 1, n);
    }
  }

  /** One step of the decoder: the entry at `k` is rejected exactly when
      its point is no longer unplaced. */
  lemma DecodeStep(key: seq<Gene>, k: nat, n: nat)
    requires k < |key| && key[k].index < n
    ensures key[k].index !in Unplaced(key, k, n) <==> Rejected(key, k)
    ensures multiset(Points(key[..k + 1])) == multiset(Points(key[..k])) + multiset{key[k].index}
  {
    UnplacedMembers(key, k, n);
    assert Points(key[..k + 1]) == Points(key[..k]) + [key[k].index];
  }

  /** Point `i` appended to the route `BestRoute` picks, whose cost becomes
      its candidate cost; the other routes and costs stay as they are. */
  function Append(routes: seq<seq<nat>>, costs: seq<real>, i: nat, delta: (nat, nat) -> real): (r: (seq<seq<nat>>, seq<real>))
    requires 0 < |routes| == |costs|
    requires forall j :: 0 <= j < |routes| ==> |routes[j]| > 0
    ensures |r.0| == |routes| && |r.1| == |costs|
    ensures forall j :: 0 <= j < |routes| ==> |r.0[j]| > 0 && r.0[j][0] == routes[j][0]
    ensures Placed(r.0) == Placed(routes) + multiset{i}
    ensures var b := BestRoute(routes, costs, i, delta);
      && r.0 == routes[b := routes[b] + [i]]
      && r.1 == costs[b := Candidate(routes, costs, i, delta, b)]
  {
    var b := BestRoute(routes, costs, i, delta);
    PlacedAppend(routes, b, i);
    (routes[b := routes[b] + [i]], costs[b := Candidate(routes, costs, i, delta, b)])
  }

  /** Decoding stopped at `k`: every earlier entry was accepted, and
      either the key is exhausted or the entry at `k` is rejected. */
  lemma DecodeEnd(key: seq<Gene>, k: nat, n: nat)
    requires k <= |key|
    requires forall m :: 0 <= m < k ==> !Rejected(key, m) && key[m].index < n
    requires k < |key| ==> Rejected(key, k)
    ensures Stop(key) == k
    ensures forall x :: multiset(Points(key[..k]))[x] <= 1
    ensures forall x :: x in multiset(Points(key[..k])) ==> 1 <= x < n
  {
    PlacedPrefix(key, k, n);
  }

  /** The routes decoding starts from: one per vehicle, holding the depot
      alone, so no point is placed yet. */
  function StartRoutes(vehicles: nat): (r: seq<seq<nat>>)
    ensures |r| == vehicles
    ensures forall j :: 0 <= j < vehicles ==> r[j] == [0]
    ensures Placed(r) == multiset{}
  {
    var r: seq<seq<nat>> := seq(vehicles, _ => [0]);
    assert forall j :: 0 <= j < vehicles ==> Map(r, Rest)[j] == [];
    BagOfEmpties(Map(r, Rest));
    r
  }

  /** The sum of the route costs. */
  function Sum(xs: seq<real>): real {
    if xs == [] then 0.0 else xs[0] + Sum(xs[1..])
  }

  /** The decoder's state after accepting the first `k` entries of the key:
      the routes and their costs. The points still unplaced at that moment
      (`points_aux`) depend on the key alone and are `Unplaced(key, k, n)`. */
  datatype Decoding = Decoding(routes: seq<seq<nat>>, costs: seq<real>, k: nat)

  /** The shape of the decoder's routes: one route and one cost per
      vehicle, every route starting at the depot. */
  predicate Shaped(vehicles: nat, routes: seq<seq<nat>>, costs: seq<real>) {
    && |routes| == vehicles && |costs| == vehicles
    && forall j :: 0 <= j < vehicles ==> |routes[j]| >= 1 && routes[j][0] == 0
  }

  /** The state decoding starts from: every route holds the depot alone at
      cost 0, so no point is placed yet. */
  function Start(vehicles: nat): (r: Decoding)
    ensures Shaped(vehicles, r.routes, r.costs) && r.k == 0
    ensures forall j :: 0 <= j < vehicles ==> r.costs[j] == 0.0
    ensures Placed(r.routes) == multiset{}
  {
    Decoding(StartRoutes(vehicles), seq(vehicles, _ => 0.0), 0)
  }

  /** Appending the point of the entry at `k` to routes placing the points
      of the entries before `k` places the points of the entries up to
      `k`. */
  lemma AcceptPlaced(key: seq<Gene>, n: nat, k: nat, routes: seq<seq<nat>>, costs: seq<real>, delta: (nat, nat) -> real)
    requires k < |key| && key[k].index < n
    requires 0 < |routes| == |costs| && forall j :: 0 <= j < |routes| ==> |routes[j]| > 0
    requires Placed(routes) == multiset(Points(key[..k]))
    ensures Placed(Append(routes, costs, key[k].index, delta).0) == multiset(Points(key[..k + 1]))
  {
    DecodeStep(key, k, n);
  }

  /** Accepting the next entry: its point goes to the first route of least
      candidate cost, whose cost becomes that candidate cost; the other
      routes and costs stay as they are. */
  function Accept(key: seq<Gene>, vehicles: nat, delta: (nat, nat) -> real, d: Decoding): (r: Decoding)
    requires vehicles >= 1 && Shaped(vehicles, d.routes, d.costs) && d.k < |key|
    ensures Shaped(vehicles, r.routes, r.costs) && r.k == d.k + 1
    ensures var i := key[d.k].index;
      var b := BestRoute(d.routes, d.costs, i, delta);
      && r.routes == d.routes[b := d.routes[b] + [i]]
      && r.costs == d.costs[b := Candidate(d.routes, d.costs, i, delta, b)]
  {
    var i := key[d.k].index;
    var next := Append(d.routes, d.costs, i, delta);
    Decoding(next.0, next.1, d.k + 1)
  }

  /** The decoder's state after accepting the first `k` entries, each in
      turn, starting from `Start`. */
  function Run(key: seq<Gene>, vehicles: nat, delta: (nat, nat) -> real, k: nat): (r: Decoding)
    requires vehicles >= 1 && k <= |key|
    ensures Shaped(vehicles, r.routes, r.costs) && r.k == k
  {
    if k == 0 then Start(vehicles)
    else Accept(key, vehicles, delta, Run(key, vehicles, delta, k - 1))
  }

  /** The routes after accepting the first `k` entries place exactly the
      points of those entries, each once, none of them the depot. */
  lemma {:induction false} RunPlaced(key: seq<Gene>, n: nat, vehicles: nat, delta: (nat, nat) -> real, k: nat)
    requires vehicles >= 1 && k <= |key|
    requires forall m :: 0 <= m < k ==> !Rejected(key, m) && key[m].index < n
    ensures var routes := Run(key, vehicles, delta, k).routes;
      && Placed(routes) == multiset(Points(key[..k]))
      && (forall x :: Placed(routes)[x] <= 1)
      && (forall x :: x in Placed(routes) ==> 1 <= x < n)
  {
    if k == 0 {
      assert Points(key[..0]) == [];
    } else {
      RunPlaced(key, n, vehicles, delta, k - 1);
      var d := Run(key, vehicles, delta, k - 1);
      DecodeStep(key, k - 1, n);
      AcceptPlaced(key, n, k - 1, d.routes, d.costs, delta);
    }
    PlacedPrefix(key, k, n);
  }

  /** `calculate_solution`, without the rounding: every vehicle gets a route
      holding the depot; the key's points are then appended one by one,
      each to the first route of least candidate cost (`Run`), until an
      entry names the depot or an already placed point, in which case route
      0's cost becomes the penalty and decoding stops. The result is the
      routes, their costs and their sum. */
  function Decode(n: nat, vehicles: nat, key: seq<Gene>, delta: (nat, nat) -> real)
    : (r: (seq<seq<nat>>, seq<real>, real))
    requires vehicles >= 1
    requires forall k :: 0 <= k < |key| ==> key[k].index < n
    ensures |r.0| == vehicles && |r.1| == vehicles
    ensures forall j :: 0 <= j < vehicles ==> |r.0[j]| >= 1 && r.0[j][0] == 0
    ensures Placed(r.0) == multiset(Points(key[..Stop(key)]))
    ensures forall x :: Placed(r.0)[x] <= 1
    ensures forall x :: x in Placed(r.0) ==> 1 <= x < n
    ensures Stop(key) < |key| ==> r.1[0] == Penalty
    ensures var d := Run(key, vehicles, delta, Stop(key));
      && r.0 == d.routes
      && r.1 == if Stop(key) < |key| then d.costs[0 := Penalty] else d.costs
    ensures r.2 == Sum(r.1)
  {
    var k := Stop(key);
    var d := Run(key, vehicles, delta, k);
    RunPlaced(key, n, vehicles, delta, k);
    var costs := if k < |key| then d.costs[0 := Penalty] else d.costs;
    (d.routes, costs, Sum(costs))
  }

  /** The points a key from `generate_key` names: all points other than
      the depot, none twice. */
  lemma GeneratedKeyPoints(draws: seq<real>)
    requires |draws| >= 1
    ensures forall x :: x in Points(GenerateKey(draws)) <==> 1 <= x < |draws|
    ensures NoDup(Points(GenerateKey(draws)))
  {
    var key := GenerateKey(draws);
    var points := Points(key);
    forall x | 1 <= x < |draws| ensures x in points {
      var k :| 0 <= k < |key| && key[k] == Gene(draws[x], x);
      assert points[k] == x;
    }
  }

  /** Decoding a key from `generate_key` visits every point other than the
      depot exactly once. */
  lemma GeneratedKeyCoversPoints(draws: seq<real>)
    requires |draws| >= 1
    ensures var key := GenerateKey(draws);
      forall x :: multiset(Points(key[..Stop(key)]))[x] == if 1 <= x < |draws| then 1 else 0
  {
    var key := GenerateKey(draws);
    GeneratedKeyIsAdmissible(draws);
    assert key[..Stop(key)] == key;
    GeneratedKeyPoints(draws);
    NoDupIffCountsAtMostOne(Points(key));
    forall x ensures multiset(Points(key))[x] == if 1 <= x < |draws| then 1 else 0 {
      assert multiset(Points(key))[x] > 0 <==> x in Points(key);
    }
  }

  // ----- Population -------------------------------------------------------

  /** A key over `n` points: one gene per point other than the depot,
      each naming one of the `n` points. */
  predicate KeyOver(key: seq<Gene>, n: nat) {
    |key| == n - 1 && forall k :: 0 <= k < |key| ==> key[k].index < n
  }

  /** Every key of the population is a key over `n` points. */
  predicate KeyedFor(pop: seq<Individual>, n: nat) {
    forall t :: 0 <= t < |pop| ==> KeyOver(pop[t].key, n)
  }

  /** The routes and objective value of an individual are the decoding of
      its key. */
  ghost predicate DecodesKey(e: Individual, n: nat, vehicles: nat, delta: (nat, nat) -> real) {
    && vehicles >= 1
    && KeyOver(e.key, n)
    && var d := Decode(n, vehicles, e.key, delta);
       e.solution == d.0 && e.fo == d.2
  }

  /** The individual `create_solutions` makes from the draw `draw`: the key
      `generate_key` makes from it, decoded. */
  ghost function FounderOf(n: nat, vehicles: nat, draw: seq<real>, delta: (nat, nat) -> real): Individual
    requires n >= 1 && vehicles >= 1 && |draw| == n
  {
    var key := GenerateKey(draw);
    var d := Decode(n, vehicles, key, delta);
    Individual(key, d.2, d.0)
  }

  /** `e` is the founder of the draw `draw`. */
  ghost predicate Founder(e: Individual, n: nat, vehicles: nat, draw: seq<real>, delta: (nat, nat) -> real) {
    n >= 1 && vehicles >= 1 && |draw| == n && e == FounderOf(n, vehicles, draw, delta)
  }

  /** A founder carries a key over `n` points, decodes it, and its routes
      visit every point other than the depot exactly once. */
  lemma FounderVisitsEachPointOnce(n: nat, vehicles: nat, draw: seq<real>, delta: (nat, nat) -> real)
    requires n >= 1 && vehicles >= 1 && |draw| == n
    ensures var e := FounderOf(n, vehicles, draw, delta);
      && KeyOver(e.key, n)
      && DecodesKey(e, n, vehicles, delta)
      && forall x :: Placed(e.solution)[x] == if 1 <= x < n then 1 else 0
  {
    GeneratedKeyCoversPoints(draw);
  }

  /** One iteration of `create_solutions`. */
  method NewFounder(n: nat, vehicles: nat, draw: seq<real>, delta: (nat, nat) -> real) returns (e: Individual)
    requires n >= 1 && vehicles >= 1 && |draw| == n
    ensures e == FounderOf(n, vehicles, draw, delta)
    ensures e.key == GenerateKey(draw) && KeyOver(e.key, n)
    ensures forall x :: Placed(e.solution)[x] == if 1 <= x < n then 1 else 0
  {
    var key := GenerateKey(draw);
    var decoded := Decode(n, vehicles, key, delta);
    e := Individual(key, decoded.2, decoded.0);
    FounderVisitsEachPointOnce(n, vehicles, draw, delta);
  }

  /** Appending the founder of the next draw to the founders of the first
      draws gives the founders of one draw more. */
  lemma FoundersExtend(r: seq<Individual>, e: Individual, n: nat, vehicles: nat, draws: seq<seq<real>>,
                       delta: (nat, nat) -> real)
    requires |r| < |draws|
    requires forall u :: 0 <= u < |r| ==> Founder(r[u], n, vehicles, draws[u], delta)
    requires Founder(e, n, vehicles, draws[|r|], delta)
    ensures forall u :: 0 <= u < |r| + 1 ==> Founder((r + [e])[u], n, vehicles, draws[u], delta)
  {
    forall u | 0 <= u < |r| + 1 ensures Founder((r + [e])[u], n, vehicles, draws[u], delta) {
      if u < |r| {
        assert (r + [e])[u] == r[u];
      } else {
        assert (r + [e])[u] == e;
      }
    }
  }

  /** `create_solutions`: `p` individuals, the `t`-th the founder of
      `draws[t]`: the key `generate_key` makes from it, decoded into routes
      that visit every point other than the depot exactly once. */
  method CreateSolutions(n: nat, vehicles: nat, p: int, draws: seq<seq<real>>, delta: (nat, nat) -> real)
    returns (r: seq<Individual>)
    requires n >= 1 && vehicles >= 1
    requires |draws| >= p
    requires forall t :: 0 <= t < |draws| ==> |draws[t]| == n
    ensures |r| == if p > 0 then p else 0
    ensures forall t :: 0 <= t < |r| ==> Founder(r[t], n, vehicles, draws[t], delta)
    ensures KeyedFor(r, n)
    ensures forall t, x :: 0 <= t < |r| ==> Placed(r[t].solution)[x] == if 1 <= x < n then 1 else 0
  {
    r := [];
    var t := 0;
    while t < p
      invariant 0 <= t <= |draws| && |r| == t && t <= (if p > 0 then p else 0)
      invariant forall u :: 0 <= u < t ==> Founder(r[u], n, vehicles, draws[u], delta)
    {
      var e := NewFounder(n, vehicles, draws[t], delta);
      FoundersExtend(r, e, n, vehicles, draws, delta);
      r := r + [e];
      t := t + 1;
    }
    forall u | 0 <= u < |r|
      ensures KeyOver(r[u].key, n)
      ensures forall x :: Placed(r[u].solution)[x] == if 1 <= x < n then 1 else 0
    {
      FounderVisitsEachPointOnce(n, vehicles, draws[u], delta);
    }
  }

  /** Python's `int()` on a real: truncation toward zero. */
  function Truncate(x: real): int {
    if x >= 0.0 then x.Floor else -((-x).Floor)
  }

  /** The elite size `create_elite` computes from a drawn percentage. */
  function EliteSize(percent: int, size: nat): int {
    Truncate(percent as real / 100.0 * size as real)
  }

  /** For a percentage between 0 and 100 the elite size is that share of
      the population, rounded down. */
  lemma EliteSizeIsShare(percent: int, size: nat)
    requires 0 <= percent <= 100
    ensures EliteSize(percent, size) == percent * size / 100
    ensures 0 <= EliteSize(percent, size) <= size
  {
    var m := percent * size;
    var q, rem := m / 100, m % 100;
    assert m == 100 * q + rem && 0 <= rem < 100;
    var x := percent as real / 100.0 * size as real;
    assert x == m as real / 100.0 by {
      assert (percent as real) * (size as real) == m as real;
    }
    assert x == q as real + rem as real / 100.0;
    assert x.Floor == q;
    assert q <= size by {
      assert m <= 100 * size;
    }
  }

  /** `create_elite`: the population sorted by objective value and cut at
      the elite size; returns the rest and the elite, in that order. */
  function CreateElite(pop: seq<Individual>, percent: int): (r: (seq<Individual>, seq<Individual>))
    ensures multiset(r.1 + r.0) == multiset(pop)
    ensures SortedBy(r.1 + r.0, FoOf)
    ensures |r.1| == ClampIndex(EliteSize(percent, |pop|), |pop|)
    ensures 0 <= percent <= 100 ==> |r.1| == percent * |pop| / 100
  {
    var sorted := SortBy(pop, FoOf);
    var cut := ClampIndex(EliteSize(percent, |pop|), |pop|);
    assert 0 <= percent <= 100 ==> cut == percent * |pop| / 100 by {
      if 0 <= percent <= 100 {
        EliteSizeIsShare(percent, |pop|);
      }
    }
    assert sorted[..cut] + sorted[cut..] == sorted;
    (sorted[cut..], sorted[..cut])
  }

  /** No member of the elite has a larger objective value than a member of
      the rest. */
  lemma EliteIsBest(pop: seq<Individual>, percent: int)
    ensures var (rest, elite) := CreateElite(pop, percent);
      forall e, o :: e in elite && o in rest ==> e.fo <= o.fo
  {
    var (rest, elite) := CreateElite(pop, percent);
    var all := elite + rest;
    forall e, o | e in elite && o in rest ensures e.fo <= o.fo {
      var a :| 0 <= a < |elite| && elite[a] == e;
      var b :| 0 <= b < |rest| && rest[b] == o;
      assert all[a] == e && all[|elite| + b] == o;
    }
  }

  // ----- Crossover --------------------------------------------------------

  /** The draws `generate_gene` makes: the elite inheritance percentage,
      the mutation percentage, and the uniform draw `x`. */
  datatype GeneDraw = GeneDraw(rhoe: int, pm: int, x: real)

  /** A drawn percentage as a probability. */
  function Rate(percent: int): real {
    percent as real / 100.0
  }

  /** The parents' keys hold entry `i` wherever the draw reads it. */
  predicate Readable(eliteKey: seq<Gene>, nonEliteKey: seq<Gene>, d: GeneDraw, i: nat) {
    d.x > Rate(d.pm) ==>
      (d.x <= Rate(d.rhoe) ==> i < |eliteKey|) && (d.x > Rate(d.rhoe) ==> i < |nonEliteKey|)
  }

  /** `generate_gene`: a fresh gene for index `i` when `x` falls under the
      mutation rate; otherwise the elite parent's entry `i` when `x` falls
      under the elite inheritance rate, else the other parent's. */
  function GenerateGene(eliteKey: seq<Gene>, nonEliteKey: seq<Gene>, d: GeneDraw, i: nat): Gene
    requires Readable(eliteKey, nonEliteKey, d, i)
  {
    if d.x <= Rate(d.pm) then Gene(d.x, i)
    else if d.x <= Rate(d.rhoe) then eliteKey[i]
    else nonEliteKey[i]
  }

  /** A gene is fresh when `x` falls under the mutation rate; otherwise it
      is the elite parent's `i`-th entry when `x` falls under the elite
      inheritance rate and the other parent's `i`-th entry when it does not.
      So the elite parent is never the source when its rate does not exceed
      the mutation rate. */
  lemma GenerateGeneOrigin(eliteKey: seq<Gene>, nonEliteKey: seq<Gene>, d: GeneDraw, i: nat)
    requires Readable(eliteKey, nonEliteKey, d, i)
    ensures var g := GenerateGene(eliteKey, nonEliteKey, d, i);
      && (d.x <= Rate(d.pm) ==> g == Gene(d.x, i))
      && (Rate(d.pm) < d.x <= Rate(d.rhoe) ==> g == eliteKey[i])
      && (d.x > Rate(d.pm) && d.x > Rate(d.rhoe) ==> g == nonEliteKey[i])
      && (d.x > Rate(d.pm) ==> (i < |eliteKey| && g == eliteKey[i]) || (i < |nonEliteKey| && g == nonEliteKey[i]))
      && (d.rhoe <= d.pm && d.x > Rate(d.pm) ==> g == nonEliteKey[i])
  {
  }

  /** With `x` and both parents' genes in [0, 1], the gene is in [0, 1]. */
  lemma GenerateGeneInUnit(eliteKey: seq<Gene>, nonEliteKey: seq<Gene>, d: GeneDraw, i: nat)
    requires Readable(eliteKey, nonEliteKey, d, i)
    requires 0.0 <= d.x <= 1.0
    requires forall k :: 0 <= k < |eliteKey| ==> 0.0 <= eliteKey[k].gene <= 1.0
    requires forall k :: 0 <= k < |nonEliteKey| ==> 0.0 <= nonEliteKey[k].gene <= 1.0
    ensures 0.0 <= GenerateGene(eliteKey, nonEliteKey, d, i).gene <= 1.0
  {
  }

  /** The genes `generate_key_crossover` draws, in position order. */
  function CrossoverGenes(eliteKey: seq<Gene>, nonEliteKey: seq<Gene>, draws: seq<GeneDraw>): (r: seq<Gene>)
    requires forall i :: 0 <= i < |draws| ==> Readable(eliteKey, nonEliteKey, draws[i], i)
    ensures |r| == |draws|
    ensures forall i :: 0 <= i < |draws| ==> r[i] == GenerateGene(eliteKey, nonEliteKey, draws[i], i)
  {
    seq(|draws|, i requires 0 <= i < |draws| => GenerateGene(eliteKey, nonEliteKey, draws[i], i))
  }

  /** `generate_key_crossover`: one gene per position `0 .. n - 2`, drawn
      by `generate_gene`, then sorted by gene. */
  function GenerateKeyCrossover(n: nat, eliteKey: seq<Gene>, nonEliteKey: seq<Gene>, draws: seq<GeneDraw>): (r: seq<Gene>)
    requires n >= 1 && |draws| == n - 1
    requires forall i :: 0 <= i < |draws| ==> Readable(eliteKey, nonEliteKey, draws[i], i)
    ensures |r| == n - 1
    ensures SortedBy(r, GeneOf)
    ensures multiset(r) == multiset(CrossoverGenes(eliteKey, nonEliteKey, draws))
  {
    SortBy(CrossoverGenes(eliteKey, nonEliteKey, draws), GeneOf)
  }

  /** Every gene of a crossover key is an entry of one of the parents' keys
      or a mutation drawn at some position, and every mutation drawn is in
      the key. */
  lemma CrossoverKeyOrigin(n: nat, eliteKey: seq<Gene>, nonEliteKey: seq<Gene>, draws: seq<GeneDraw>)
    requires n >= 1 && |draws| == n - 1
    requires forall i :: 0 <= i < |draws| ==> Readable(eliteKey, nonEliteKey, draws[i], i)
    ensures var r := GenerateKeyCrossover(n, eliteKey, nonEliteKey, draws);
      forall g :: g in r ==>
        || g in eliteKey || g in nonEliteKey
        || exists i :: 0 <= i < |draws| && draws[i].x <= Rate(draws[i].pm) && g == Gene(draws[i].x, i)
    ensures var r := GenerateKeyCrossover(n, eliteKey, nonEliteKey, draws);
      forall i :: 0 <= i < |draws| && draws[i].x <= Rate(draws[i].pm) ==> Gene(draws[i].x, i) in r
  {
    var genes := CrossoverGenes(eliteKey, nonEliteKey, draws);
    var r := GenerateKeyCrossover(n, eliteKey, nonEliteKey, draws);
    forall g | g in r ensures
      || g in eliteKey || g in nonEliteKey
      || exists i :: 0 <= i < |draws| && draws[i].x <= Rate(draws[i].pm) && g == Gene(draws[i].x, i)
    {
      assert g in multiset(genes);
      var i :| 0 <= i < |draws| && genes[i] == g;
      GenerateGeneOrigin(eliteKey, nonEliteKey, draws[i], i);
    }
    forall i | 0 <= i < |draws| && draws[i].x <= Rate(draws[i].pm) ensures Gene(draws[i].x, i) in r {
      assert genes[i] in multiset(genes);
    }
  }

  /** Children of parents with keys over `n` points have keys over `n`
      points. */
  lemma CrossoverKeyOver(n: nat, eliteKey: seq<Gene>, nonEliteKey: seq<Gene>, draws: seq<GeneDraw>)
    requires n >= 1 && |draws| == n - 1
    requires KeyOver(eliteKey, n) && KeyOver(nonEliteKey, n)
    ensures forall i :: 0 <= i < |draws| ==> Readable(eliteKey, nonEliteKey, draws[i], i)
    ensures KeyOver(GenerateKeyCrossover(n, eliteKey, nonEliteKey, draws), n)
  {
    var key := GenerateKeyCrossover(n, eliteKey, nonEliteKey, draws);
    CrossoverKeyOrigin(n, eliteKey, nonEliteKey, draws);
    forall k | 0 <= k < |key| ensures key[k].index < n {
      assert key[k] in key;
    }
  }

  /** A mutation at position 0 names the depot, so the decoder penalises
      the crossover key. */
  lemma MutationAtZeroIsPenalised(n: nat, eliteKey: seq<Gene>, nonEliteKey: seq<Gene>, draws: seq<GeneDraw>)
    requires n >= 2 && |draws| == n - 1
    requires forall i :: 0 <= i < |draws| ==> Readable(eliteKey, nonEliteKey, draws[i], i)
    requires draws[0].x <= Rate(draws[0].pm)
    ensures !Admissible(GenerateKeyCrossover(n, eliteKey, nonEliteKey, draws))
  {
    var key := GenerateKeyCrossover(n, eliteKey, nonEliteKey, draws);
    CrossoverKeyOrigin(n, eliteKey, nonEliteKey, draws);
    assert Gene(draws[0].x, 0) in key;
    var k :| 0 <= k < |key| && key[k] == Gene(draws[0].x, 0);
    assert Rejected(key, k);
  }

  /** The parents and gene draws of one new individual: `choice` over the
      elite and over the rest, then one draw per gene. */
  datatype Mating = Mating(elite: nat, nonElite: nat, genes: seq<GeneDraw>)

  /** The child `crossover` breeds from parents with keys `eliteKey` and
      `nonEliteKey` under the gene draws `genes`: the crossover key,
      decoded. */
  ghost function Offspring(n: nat, vehicles: nat, eliteKey: seq<Gene>, nonEliteKey: seq<Gene>, genes: seq<GeneDraw>,
                           delta: (nat, nat) -> real): Individual
    requires n >= 1 && vehicles >= 1 && KeyOver(eliteKey, n) && KeyOver(nonEliteKey, n) && |genes| == n - 1
  {
    CrossoverKeyOver(n, eliteKey, nonEliteKey, genes);
    var key := GenerateKeyCrossover(n, eliteKey, nonEliteKey, genes);
    var d := Decode(n, vehicles, key, delta);
    Individual(key, d.2, d.0)
  }

  /** A child carries a key over `n` points, sorted by gene, and decodes
      it. */
  lemma OffspringDecodes(n: nat, vehicles: nat, eliteKey: seq<Gene>, nonEliteKey: seq<Gene>, genes: seq<GeneDraw>,
                         delta: (nat, nat) -> real)
    requires n >= 1 && vehicles >= 1 && KeyOver(eliteKey, n) && KeyOver(nonEliteKey, n) && |genes| == n - 1
    ensures var e := Offspring(n, vehicles, eliteKey, nonEliteKey, genes, delta);
      && KeyOver(e.key, n)
      && SortedBy(e.key, GeneOf)
      && DecodesKey(e, n, vehicles, delta)
  {
    CrossoverKeyOver(n, eliteKey, nonEliteKey, genes);
  }

  /** `e` is the child the mating `m` breeds from the elite and the
      population. */
  ghost predicate Bred(e: Individual, n: nat, vehicles: nat, pop: seq<Individual>, elite: seq<Individual>, m: Mating,
                       delta: (nat, nat) -> real)
  {
    && n >= 1 && vehicles >= 1
    && m.elite < |elite| && m.nonElite < |pop| && |m.genes| == n - 1
    && KeyOver(elite[m.elite].key, n) && KeyOver(pop[m.nonElite].key, n)
    && e == Offspring(n, vehicles, elite[m.elite].key, pop[m.nonElite].key, m.genes, delta)
  }

  /** The children of `r`, from position `|elite|` on, are bred as
      `matings` prescribes. */
  ghost predicate Children(r: seq<Individual>, n: nat, vehicles: nat, pop: seq<Individual>, elite: seq<Individual>,
                           matings: seq<Mating>, delta: (nat, nat) -> real)
  {
    forall u :: |elite| <= u < |r| ==>
      u - |elite| < |matings| && Bred(r[u], n, vehicles, pop, elite, matings[u - |elite|], delta)
  }

  /** Appending the child the next mating breeds keeps the children bred
      as prescribed. */
  lemma ChildrenExtend(r: seq<Individual>, e: Individual, n: nat, vehicles: nat, pop: seq<Individual>,
                       elite: seq<Individual>, matings: seq<Mating>, delta: (nat, nat) -> real)
    requires |elite| <= |r| && |r| - |elite| < |matings|
    requires Children(r, n, vehicles, pop, elite, matings, delta)
    requires Bred(e, n, vehicles, pop, elite, matings[|r| - |elite|], delta)
    ensures Children(r + [e], n, vehicles, pop, elite, matings, delta)
  {
    var r' := r + [e];
    forall u | |elite| <= u < |r'|
      ensures u - |elite| < |matings| && Bred(r'[u], n, vehicles, pop, elite, matings[u - |elite|], delta)
    {
      if u < |r| {
        assert r'[u] == r[u];
      } else {
        assert r'[u] == e;
      }
    }
  }

  /** One iteration of `crossover`. */
  method NewChild(n: nat, vehicles: nat, eliteKey: seq<Gene>, nonEliteKey: seq<Gene>, genes: seq<GeneDraw>,
                  delta: (nat, nat) -> real) returns (e: Individual)
    requires n >= 1 && vehicles >= 1
    requires KeyOver(eliteKey, n) && KeyOver(nonEliteKey, n) && |genes| == n - 1
    ensures e == Offspring(n, vehicles, eliteKey, nonEliteKey, genes, delta)
    ensures e.key == GenerateKeyCrossover(n, eliteKey, nonEliteKey, genes) && KeyOver(e.key, n)
  {
    CrossoverKeyOver(n, eliteKey, nonEliteKey, genes);
    var key := GenerateKeyCrossover(n, eliteKey, nonEliteKey, genes);
    var decoded := Decode(n, vehicles, key, delta);
    e := Individual(key, decoded.2, decoded.0);
  }

  /** The elite followed by children keeps keys over `n` points. */
  lemma PopulationKeyed(r: seq<Individual>, n: nat, vehicles: nat, pop: seq<Individual>, elite: seq<Individual>, matings: seq<Mating>, delta: (nat, nat) -> real)
    requires |elite| <= |r| && r[..|elite|] == elite && KeyedFor(elite, n)
    requires Children(r, n, vehicles, pop, elite, matings, delta)
    ensures KeyedFor(r, n)
  {
    forall u | 0 <= u < |r| ensures KeyOver(r[u].key, n) {
      if u < |elite| {
        assert r[u] == r[..|elite|][u];
      } else {
        assert u - |elite| < |matings| && Bred(r[u], n, vehicles, pop, elite, matings[u - |elite|], delta);
        var m := matings[u - |elite|];
        OffspringDecodes(n, vehicles, elite[m.elite].key, pop[m.nonElite].key, m.genes, delta);
      }
    }
  }

  /** One iteration of `crossover`: append the child the next mating
      breeds. */
  method AddChild(n: nat, vehicles: nat, pop: seq<Individual>, elite: seq<Individual>,
                  matings: seq<Mating>, delta: (nat, nat) -> real, r: seq<Individual>)
    returns (r': seq<Individual>)
    requires n >= 1 && vehicles >= 1
    requires KeyedFor(pop, n) && KeyedFor(elite, n)
    requires |elite| <= |r| && |r| - |elite| < |matings|
    requires var m := matings[|r| - |elite|];
      m.elite < |elite| && m.nonElite < |pop| && |m.genes| == n - 1
    requires r[..|elite|] == elite
    requires Children(r, n, vehicles, pop, elite, matings, delta)
    ensures |r'| == |r| + 1
    ensures r'[..|elite|] == elite
    ensures Children(r', n, vehicles, pop, elite, matings, delta)
  {
    var m := matings[|r| - |elite|];
    var e := NewChild(n, vehicles, elite[m.elite].key, pop[m.nonElite].key, m.genes, delta);
    ChildrenExtend(r, e, n, vehicles, pop, elite, matings, delta);
    assert (r + [e])[..|elite|] == r[..|elite|];
    r' := r + [e];
  }

  /** `crossover`: the elite, copied, followed by `p - |elite|` children,
      the `t`-th bred from the parents and gene draws `matings[t]` picks.
      Keys over `n` points stay keys over `n` points. */
  method Crossover(n: nat, vehicles: nat, p: int, pop: seq<Individual>, elite: seq<Individual>,
                   matings: seq<Mating>, delta: (nat, nat) -> real)
    returns (r: seq<Individual>)
    requires n >= 1 && vehicles >= 1
    requires KeyedFor(pop, n) && KeyedFor(elite, n)
    requires |matings| >= p - |elite|
    requires forall t :: 0 <= t < p - |elite| ==>
      matings[t].elite < |elite| && matings[t].nonElite < |pop| && |matings[t].genes| == n - 1
    ensures |r| == if p > |elite| then p else |elite|
    ensures r[..|elite|] == elite
    ensures KeyedFor(r, n)
    ensures Children(r, n, vehicles, pop, elite, matings, delta)
  {
    r := elite;
    var t := 0;
    while t < p - |elite|
      invariant 0 <= t <= (if p > |elite| then p - |elite| else 0) && |r| == |elite| + t
      invariant r[..|elite|] == elite
      invariant Children(r, n, vehicles, pop, elite, matings, delta)
    {
      r := AddChild(n, vehicles, pop, elite, matings, delta, r);
      t := t + 1;
    }
    PopulationKeyed(r, n, vehicles, pop, elite, matings, delta);
  }
}
