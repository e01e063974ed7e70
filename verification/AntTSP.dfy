/** Tours of n towns and what they cost. */
module Tours {
  /** The lengths as they are entered: whole numbers below 2^64, strictly positive off the diagonal. */
  predicate Distances(len: seq<seq<real>>, n: nat) {
    && |len| == n
    && (forall i :: 0 <= i < n ==> |len[i]| == n)
    && forall i, j :: 0 <= i < n && 0 <= j < n && i != j ==> 1.0 <= len[i][j] <= 18446744073709551615.0
  }

  /** A path over some of the towns, each at most once. */
  predicate PathOver(p: seq<nat>, n: nat) {
    && (forall i :: 0 <= i < |p| ==> p[i] < n)
    && forall i, j :: 0 <= i < j < |p| ==> p[i] != p[j]
  }

  predicate Permutation(p: seq<nat>, n: nat) {
    PathOver(p, n) && |p| == n
  }

  function Cost(len: seq<seq<real>>, p: seq<nat>): real
    requires Distances(len, |len|) && PathOver(p, |len|)
  {
    if |p| <= 1 then 0.0
    else Cost(len, p[..|p| - 1]) + len[p[|p| - 2]][p[|p| - 1]]
  }

  lemma {:induction false} CostBounds(len: seq<seq<real>>, p: seq<nat>)
    requires Distances(len, |len|) && PathOver(p, |len|)
    ensures |p| >= 2 ==> Cost(len, p) >= 1.0
    ensures 0.0 <= Cost(len, p) <= |p| as real * 18446744073709551615.0
    decreases |p|
  {
    if |p| > 1 {
      CostBounds(len, p[..|p| - 1]);
    }
  }

  /** The cost is the sum of the ways between neighbours, each in the direction in which the path goes. */
  lemma {:induction false} CostFromFront(len: seq<seq<real>>, p: seq<nat>)
    requires Distances(len, |len|) && PathOver(p, |len|) && |p| >= 2
    ensures PathOver(p[1..], |len|) && Cost(len, p) == len[p[0]][p[1]] + Cost(len, p[1..])
    decreases |p|
  {
    var k := |p| - 1;
    if k > 1 {
      CostFromFront(len, p[..k]);
      assert p[..k][1..] == p[1..][..k - 1];
    } else {
      assert |p[..k]| == 1 && |p[1..]| == 1;
    }
  }

  function Towns(n: nat): (s: set<nat>)
    ensures forall v: nat :: v in s <==> v < n
    ensures |s| == n
  {
    if n == 0 then {} else Towns(n - 1) + {n - 1}
  }

  function Seen(p: seq<nat>): (s: set<nat>)
    ensures forall v: nat :: v in s <==> v in p
  {
    set v | v in p
  }

  lemma {:induction false} SeenOnce(p: seq<nat>)
    requires forall i, j :: 0 <= i < j < |p| ==> p[i] != p[j]
    ensures |Seen(p)| == |p|
  {
    if p != [] {
      var k := |p| - 1;
      SeenOnce(p[..k]);
      assert p == p[..k] + [p[k]];
      assert Seen(p) == Seen(p[..k]) + {p[k]} && p[k] !in Seen(p[..k]);
    }
  }

  lemma {:induction false} Subset(a: set<nat>, b: set<nat>)
    requires a <= b
    ensures |a| <= |b| && (|a| == |b| ==> a == b)
    decreases |a|
  {
    if a != {} {
      var x :| x in a;
      Subset(a - {x}, b - {x});
      assert |a| == |a - {x}| + 1 && |b| == |b - {x}| + 1;
      assert a == a - {x} + {x} && b == b - {x} + {x};
    } else if |b| == 0 {
      assert b == {};
    }
  }

  /** A permutation visits every town; a shorter path leaves one out. */
  lemma Visits(p: seq<nat>, n: nat)
    requires PathOver(p, n)
    ensures |p| <= n
    ensures |p| == n <==> forall v: nat :: v < n ==> v in p
  {
    SeenOnce(p);
    Subset(Seen(p), Towns(n));
    if forall v: nat :: v < n ==> v in p {
      assert Seen(p) == Towns(n);
    }
    if |p| == n {
      forall v: nat | v < n
        ensures v in p
      {
        assert v in Towns(n) && v in Seen(p);
      }
    }
  }
}

/** What a search does, on values: tours that follow the pheromone, and the pheromone they leave. */
module Trails {
  import opened Tours

  const RHO := 0.5
  const Q := 100.0

  /** The pheromone from each town to each other. */
  type Trail = seq<seq<real>>

  predicate Square(trail: Trail, n: nat) {
    |trail| == n && forall i :: 0 <= i < n ==> |trail[i]| == n
  }

  /** What draws an ant standing at s to town i. */
  function Pull(len: seq<seq<real>>, trail: Trail, s: nat, i: nat): real
    requires Distances(len, |len|) && Square(trail, |len|) && s < |len| && i < |len| && s != i
  {
    trail[s][i] * (1.0 / len[s][i])
  }

  /** Of two towns the one with more pheromone for its distance draws more. */
  lemma PullOrder(len: seq<seq<real>>, trail: Trail, s: nat, v: nat, t: nat)
    requires Distances(len, |len|) && Square(trail, |len|) && s < |len| && v < |len| && t < |len| && s != v && s != t
    ensures Pull(len, trail, s, v) <= Pull(len, trail, s, t)
       <==> trail[s][v] * len[s][t] <= trail[s][t] * len[s][v]
  {
    CrossMultiplied(trail[s][v], len[s][v], trail[s][t], len[s][t]);
  }

  lemma CrossMultiplied(a: real, b: real, c: real, d: real)
    requires b > 0.0 && d > 0.0
    ensures a * (1.0 / b) <= c * (1.0 / d) <==> a * d <= c * b
  {
    var x, y := a * (1.0 / b), c * (1.0 / d);
    assert a * d == x * (b * d) && c * b == y * (b * d);
  }

  /** Town t is the first of those not on the path that have the most pheromone for their distance from its end. */
  ghost predicate Favourite(len: seq<seq<real>>, trail: Trail, path: seq<nat>, t: nat)
    requires Distances(len, |len|) && Square(trail, |len|) && path != [] && PathOver(path, |len|)
  {
    && t < |len| && t !in path
    && forall v: nat :: v < |len| && v !in path ==>
         var s := path[|path| - 1];
         trail[s][v] * len[s][t] <= trail[s][t] * len[s][v]
         && (v < t ==> trail[s][v] * len[s][t] < trail[s][t] * len[s][v])
  }

  /** That is the first of those that draw most. */
  lemma FavouriteDrawsMost(len: seq<seq<real>>, trail: Trail, path: seq<nat>, t: nat)
    requires Distances(len, |len|) && Square(trail, |len|) && path != [] && PathOver(path, |len|)
    requires t < |len| && t !in path
    requires forall v: nat :: v < |len| && v !in path ==>
               var s := path[|path| - 1];
               Pull(len, trail, s, v) <= Pull(len, trail, s, t)
               && (v < t ==> Pull(len, trail, s, v) < Pull(len, trail, s, t))
    ensures Favourite(len, trail, path, t)
  {
    var s := path[|path| - 1];
    forall v: nat | v < |len| && v !in path
      ensures trail[s][v] * len[s][t] <= trail[s][t] * len[s][v]
      ensures v < t ==> trail[s][v] * len[s][t] < trail[s][t] * len[s][v]
    {
      PullOrder(len, trail, s, v, t);
      PullOrder(len, trail, s, t, v);
    }
  }

  /** Where the pheromone is the same, the nearest town comes next, the first of several. */
  lemma NearestComesNext(len: seq<seq<real>>, trail: Trail, path: seq<nat>, t: nat, v: nat)
    requires Distances(len, |len|) && Square(trail, |len|) && path != [] && PathOver(path, |len|)
    requires Favourite(len, trail, path, t) && v < |len| && v !in path
    requires trail[path[|path| - 1]][v] == trail[path[|path| - 1]][t] > 0.0
    ensures len[path[|path| - 1]][t] <= len[path[|path| - 1]][v]
    ensures v < t ==> len[path[|path| - 1]][t] < len[path[|path| - 1]][v]
  {
    var s := path[|path| - 1];
    var p, x, y := trail[s][v], len[s][t], len[s][v];
    assert p * x <= p * y && (v < t ==> p * x < p * y);
  }

  lemma FavouriteIsUnique(len: seq<seq<real>>, trail: Trail, path: seq<nat>, t: nat, u: nat)
    requires Distances(len, |len|) && Square(trail, |len|) && path != [] && PathOver(path, |len|)
    requires Favourite(len, trail, path, t) && Favourite(len, trail, path, u)
    ensures t == u
  {
  }

  /** From its first town on the path goes to the favourite every time. */
  ghost predicate Greedy(len: seq<seq<real>>, trail: Trail, path: seq<nat>) {
    && Distances(len, |len|) && Square(trail, |len|) && path != [] && PathOver(path, |len|)
    && forall k {:trigger path[..k]} :: 1 <= k < |path| ==> Favourite(len, trail, path[..k], path[k])
  }

  lemma GreedyOneMore(len: seq<seq<real>>, trail: Trail, path: seq<nat>, t: nat)
    requires Greedy(len, trail, path) && Favourite(len, trail, path, t)
    ensures Greedy(len, trail, path + [t])
  {
    var all := path + [t];
    forall k | 1 <= k < |all|
      ensures Favourite(len, trail, all[..k], all[k])
    {
      if k < |path| {
        assert all[..k] == path[..k];
      } else {
        assert all[..k] == path;
      }
    }
  }

  /** The start and the pheromone decide the tour. */
  lemma {:induction false} GreedyIsUnique(len: seq<seq<real>>, trail: Trail, p: seq<nat>, q: seq<nat>, k: nat)
    requires Greedy(len, trail, p) && Greedy(len, trail, q) && p[0] == q[0] && k <= |p| && k <= |q|
    ensures p[..k] == q[..k]
  {
    if k > 1 {
      GreedyIsUnique(len, trail, p, q, k - 1);
      FavouriteIsUnique(len, trail, p[..k - 1], p[k - 1], q[k - 1]);
      assert p[..k] == p[..k - 1] + [p[k - 1]] && q[..k] == q[..k - 1] + [q[k - 1]];
    }
  }

  /** The tour goes from a to b within its first k towns. */
  predicate Edge(p: seq<nat>, k: nat, a: nat, b: nat)
    requires k <= |p|
  {
    exists i :: 1 <= i < k && p[i - 1] == a && p[i] == b
  }

  lemma EdgeOneMore(p: seq<nat>, k: nat)
    requires 1 <= k < |p| && forall i, j :: 0 <= i < j < |p| ==> p[i] != p[j]
    ensures !Edge(p, k, p[k - 1], p[k])
    ensures forall a, b :: Edge(p, k + 1, a, b) <==> Edge(p, k, a, b) || (a == p[k - 1] && b == p[k])
  {
    assert forall i :: 1 <= i < k ==> p[i] != p[k];
    assert Edge(p, k + 1, p[k - 1], p[k]);
  }

  /** Evaporation, and the mark of a tour of this cost. */
  function Marked(tau: real, cost: real): real {
    if cost == 0.0 then tau else tau * RHO + Q / cost
  }

  /** Half of the pheromone stays, and 100 is spread over the tour: the cheaper it is, the more it leaves. */
  lemma MarkIsShared(tau: real, cost: real, dearer: real)
    requires 0.0 < cost < dearer
    ensures (2.0 * Marked(tau, cost) - tau) * cost == 200.0 && Marked(tau, dearer) < Marked(tau, cost)
  {
    var share, less := Q / cost, Q / dearer;
    assert share * cost == 100.0 && less * dearer == 100.0;
    assert less * cost < less * dearer;
    assert Marked(tau, cost) - tau / 2.0 == share;
  }

  /** The pheromone after a tour: its edges are marked and no others. */
  function MarkTour(trail: Trail, tour: seq<nat>, cost: real): (r: Trail)
    requires Square(trail, |trail|)
    ensures Square(r, |trail|)
    ensures forall a, b :: 0 <= a < |trail| && 0 <= b < |trail| ==>
      r[a][b] == if Edge(tour, |tour|, a, b) then Marked(trail[a][b], cost) else trail[a][b]
  {
    seq(|trail|, a requires 0 <= a < |trail| =>
      seq(|trail|, b requires 0 <= b < |trail| =>
        if Edge(tour, |tour|, a, b) then Marked(trail[a][b], cost) else trail[a][b]))
  }

  /** Every way of the tour is marked in the direction in which it is gone, and not in the other. */
  lemma WaysAreMarked(trail: Trail, tour: seq<nat>, cost: real, i: nat)
    requires Square(trail, |trail|) && PathOver(tour, |trail|) && 1 <= i < |tour|
    ensures var r, a, b := MarkTour(trail, tour, cost), tour[i - 1], tour[i];
      r[a][b] == Marked(trail[a][b], cost) && r[b][a] == trail[b][a]
  {
    assert Edge(tour, |tour|, tour[i - 1], tour[i]);
  }

  /** After several tours, one after the other. */
  function MarkAll(len: seq<seq<real>>, trail: Trail, tours: seq<seq<nat>>): (r: Trail)
    requires Distances(len, |len|) && Square(trail, |len|)
    requires forall i :: 0 <= i < |tours| ==> PathOver(tours[i], |len|)
    ensures Square(r, |len|)
  {
    if tours == [] then trail
    else
      var k := |tours| - 1;
      MarkTour(MarkAll(len, trail, tours[..k]), tours[k], Cost(len, tours[k]))
  }

  /** The first tour is marked first, and the others on what it leaves. */
  lemma {:induction false} FirstMarksFirst(len: seq<seq<real>>, trail: Trail, tours: seq<seq<nat>>)
    requires Distances(len, |len|) && Square(trail, |len|) && tours != []
    requires forall i :: 0 <= i < |tours| ==> PathOver(tours[i], |len|)
    ensures MarkAll(len, trail, tours)
         == MarkAll(len, MarkTour(trail, tours[0], Cost(len, tours[0])), tours[1..])
    decreases |tours|
  {
    var k := |tours| - 1;
    if k > 0 {
      FirstMarksFirst(len, trail, tours[..k]);
      assert tours[..k][1..] == tours[1..][..k - 1];
    } else {
      assert tours[..k] == [] && tours[1..] == [];
    }
  }

  /** A round: every ant's tour is complete and follows the pheromone of the round's beginning from the ant's
      start, and then the tours are marked one after the other. */
  ghost predicate IsRound(len: seq<seq<real>>, starts: seq<nat>, trail: Trail, tours: seq<seq<nat>>, after: Trail) {
    Distances(len, |len|) && Square(trail, |len|) && AreTours(len, starts, trail, tours)
    && after == MarkAll(len, trail, tours)
  }

  ghost predicate AreTours(len: seq<seq<real>>, starts: seq<nat>, trail: Trail, tours: seq<seq<nat>>) {
    |tours| == |starts| && forall i :: 0 <= i < |tours| ==> IsTour(len, starts[i], trail, tours[i])
  }

  ghost predicate IsTour(len: seq<seq<real>>, start: nat, trail: Trail, tour: seq<nat>) {
    Greedy(len, trail, tour) && Permutation(tour, |len|) && tour[0] == start
  }

  lemma RoundIsUnique(len: seq<seq<real>>, starts: seq<nat>, trail: Trail, tours: seq<seq<nat>>, after: Trail,
                      tours': seq<seq<nat>>, after': Trail)
    requires IsRound(len, starts, trail, tours, after) && IsRound(len, starts, trail, tours', after')
    ensures tours == tours' && after == after'
  {
    forall i | 0 <= i < |tours|
      ensures tours[i] == tours'[i]
    {
      assert IsTour(len, starts[i], trail, tours[i]) && IsTour(len, starts[i], trail, tours'[i]);
      GreedyIsUnique(len, trail, tours[i], tours'[i], |len|);
      assert tours[i][..|len|] == tours[i] && tours'[i][..|len|] == tours'[i];
    }
  }

  /** A search: rounds from pheromone 1 everywhere, each on what the one before left. */
  ghost predicate IsRun(len: seq<seq<real>>, starts: seq<nat>, trails: seq<Trail>, rounds: seq<seq<seq<nat>>>) {
    && |trails| == |rounds| + 1 && trails[0] == Fresh(|len|)
    && forall r :: 0 <= r < |rounds| ==> IsRound(len, starts, trails[r], rounds[r], trails[r + 1])
  }

  function Fresh(n: nat): (trail: Trail)
    ensures Square(trail, n) && forall a, b :: 0 <= a < n && 0 <= b < n ==> trail[a][b] == 1.0
  {
    seq(n, _ => seq(n, _ => 1.0))
  }

  /** The lengths and the starts decide the whole search. */
  lemma {:induction false} RunIsUnique(len: seq<seq<real>>, starts: seq<nat>,
                                       trails: seq<Trail>, rounds: seq<seq<seq<nat>>>,
                                       trails': seq<Trail>, rounds': seq<seq<seq<nat>>>, r: nat)
    requires IsRun(len, starts, trails, rounds) && IsRun(len, starts, trails', rounds')
    requires r <= |rounds| && r <= |rounds'|
    ensures rounds[..r] == rounds'[..r] && trails[r] == trails'[r]
  {
    if r > 0 {
      RunIsUnique(len, starts, trails, rounds, trails', rounds', r - 1);
      RoundIsUnique(len, starts, trails[r - 1], rounds[r - 1], trails[r], rounds'[r - 1], trails'[r]);
      assert rounds[..r] == rounds[..r - 1] + [rounds[r - 1]] && rounds'[..r] == rounds'[..r - 1] + [rounds'[r - 1]];
    }
  }

  lemma RunOneMore(len: seq<seq<real>>, starts: seq<nat>, trails: seq<Trail>, rounds: seq<seq<seq<nat>>>,
                   tours: seq<seq<nat>>, after: Trail)
    requires IsRun(len, starts, trails, rounds) && IsRound(len, starts, trails[|rounds|], tours, after)
    ensures IsRun(len, starts, trails + [after], rounds + [tours])
  {
  }

  /** Place k of the tour is the nearest town that is left, the first of several. */
  ghost predicate GoesToNearest(len: seq<seq<real>>, tour: seq<nat>, k: nat)
    requires Distances(len, |len|) && PathOver(tour, |len|) && 1 <= k < |tour|
  {
    forall v: nat :: v < |len| && v !in tour[..k] ==>
      && len[tour[k - 1]][tour[k]] <= len[tour[k - 1]][v]
      && (v < tour[k] ==> len[tour[k - 1]][tour[k]] < len[tour[k - 1]][v])
  }

  /** In the first round every ant goes to the nearest town that is left every time. */
  lemma FirstToursAreNearest(len: seq<seq<real>>, starts: seq<nat>, trails: seq<Trail>, rounds: seq<seq<seq<nat>>>,
                             i: nat, k: nat)
    requires IsRun(len, starts, trails, rounds) && rounds != [] && i < |starts| && 1 <= k < |len|
    ensures |rounds[0]| == |starts| && Permutation(rounds[0][i], |len|) && rounds[0][i][0] == starts[i]
    ensures Distances(len, |len|) && GoesToNearest(len, rounds[0][i], k)
  {
    assert IsRound(len, starts, trails[0], rounds[0], trails[1]);
    var tour := rounds[0][i];
    assert IsTour(len, starts[i], trails[0], tour);
    forall v: nat | v < |len| && v !in tour[..k]
      ensures len[tour[k - 1]][tour[k]] <= len[tour[k - 1]][v]
      ensures v < tour[k] ==> len[tour[k - 1]][tour[k]] < len[tour[k - 1]][v]
    {
      assert Favourite(len, trails[0], tour[..k], tour[k]);
      NearestComesNext(len, trails[0], tour[..k], tour[k], v);
    }
  }

  /** All tours of a search, in the order in which they were finished. */
  function AllTours(rounds: seq<seq<seq<nat>>>): seq<seq<nat>> {
    if rounds == [] then [] else AllTours(rounds[..|rounds| - 1]) + rounds[|rounds| - 1]
  }

  lemma AllToursOneMore(rounds: seq<seq<seq<nat>>>, tours: seq<seq<nat>>)
    ensures AllTours(rounds + [tours]) == AllTours(rounds) + tours
  {
    assert (rounds + [tours])[..|rounds|] == rounds;
  }
}

/** The ants, the pheromone they share and the search. */
module AntColony {
  import opened Arithmetic
  import opened Tours
  import opened Trails

  const MAX_N := 400
  const MAX_ANT := 200
  const NO_SOLUTION := 10000000000000000000000000000000000000000000000000000000000000000000000000000000000000000000000000000.0

  // ----- The generator, in 32-bit arithmetic that wraps around -----

  type int32 = x: int | -0x8000_0000 <= x < 0x8000_0000

  /** In 32 bits: the number that differs from x by a multiple of 2^32. */
  function Wrap(x: int): (r: int32)
    ensures Congruent(r, x, 0x1_0000_0000)
  {
    assert DifferBy((x + 0x8000_0000) % 0x1_0000_0000 - 0x8000_0000, x, -((x + 0x8000_0000) / 0x1_0000_0000),
                    0x1_0000_0000);
    (x + 0x8000_0000) % 0x1_0000_0000 - 0x8000_0000
  }

  /** The remainder that takes the sign of the dividend. */
  function Remainder(a: int, n: nat): int
    requires n > 0
  {
    if a >= 0 then a % n else -(-a % n)
  }

  lemma RemainderDiffers(a: int, n: nat)
    requires n > 0
    ensures Congruent(Remainder(a, n), a, n) && Remainder(a, n) < n && -Remainder(a, n) < n
    ensures if a >= 0 then Remainder(a, n) >= 0 else Remainder(a, n) <= 0
  {
    if a >= 0 {
      Division(a, n);
      assert DifferBy(a % n, a, -(a / n), n);
    } else {
      Division(-a, n);
      assert DifferBy(-(-a % n), a, -a / n, n);
    }
  }

  function NextSeed(rnd: int32): int32 {
    Wrap(Wrap(rnd * 2131) + 7)
  }

  /** The generator is linear, in 32 bits. */
  lemma SeedIsLinear(rnd: int32)
    ensures Congruent(NextSeed(rnd), rnd * 2131 + 7, 0x1_0000_0000)
  {
    var k: int :| DifferBy(Wrap(rnd * 2131), rnd * 2131, k, 0x1_0000_0000);
    assert DifferBy(Wrap(rnd * 2131) + 7, rnd * 2131 + 7, k, 0x1_0000_0000);
    CongruentThrough(NextSeed(rnd), Wrap(rnd * 2131) + 7, rnd * 2131 + 7, 0x1_0000_0000);
  }

  function FourthPower(rnd: int32): int32 {
    Wrap(Wrap(Wrap(rnd * rnd) * rnd) * rnd)
  }

  lemma PowerWraps(rnd: int32)
    ensures Congruent(FourthPower(rnd), rnd * rnd * rnd * rnd, 0x1_0000_0000)
  {
    var second, third := Wrap(rnd * rnd), Wrap(Wrap(rnd * rnd) * rnd);
    WrapTimes(second, rnd * rnd, rnd);
    WrapTimes(third, rnd * rnd * rnd, rnd);
  }

  lemma WrapTimes(a: int, b: int, c: int)
    requires Congruent(a, b, 0x1_0000_0000)
    ensures Congruent(Wrap(a * c), b * c, 0x1_0000_0000)
  {
    CongruentTimes(a, b, c, 0x1_0000_0000);
    CongruentThrough(Wrap(a * c), a * c, b * c, 0x1_0000_0000);
  }

  function Draw(rnd: int32, n: nat): (r: nat)
    requires n > 0
    ensures r < n
  {
    RemainderDiffers(FourthPower(rnd), n);
    RemainderDiffers(Remainder(FourthPower(rnd), n) + n, n);
    Remainder(Remainder(FourthPower(rnd), n) + n, n)
  }

  /** What is drawn is the town congruent to the 32-bit number that the fourth power of the state wraps to. */
  lemma DrawOfPower(rnd: int32, n: nat, power: int32)
    requires n > 0 && Congruent(power, rnd * rnd * rnd * rnd, 0x1_0000_0000)
    ensures Congruent(Draw(rnd, n), power, n)
  {
    PowerIsUnique(rnd, power);
    var r := Remainder(power, n);
    RemainderDiffers(power, n);
    RemainderDiffers(r + n, n);
    assert DifferBy(r + n, r, 1, n);
    CongruentThrough(Draw(rnd, n), r + n, r, n);
    CongruentThrough(Draw(rnd, n), r, power, n);
  }

  lemma PowerIsUnique(rnd: int32, power: int32)
    requires Congruent(power, rnd * rnd * rnd * rnd, 0x1_0000_0000)
    ensures power == FourthPower(rnd)
  {
    var p := rnd * rnd * rnd * rnd;
    PowerWraps(rnd);
    Backwards(power, p, 0x1_0000_0000);
    CongruentThrough(FourthPower(rnd), p, power, 0x1_0000_0000);
    OneInRange(FourthPower(rnd), power, -0x8000_0000, 0x1_0000_0000);
  }

  lemma Backwards(a: int, b: int, m: nat)
    requires Congruent(a, b, m)
    ensures Congruent(b, a, m)
  {
    var k: int :| DifferBy(a, b, k, m);
    assert DifferBy(b, a, -k, m);
  }

  /** The generator's state after k draws. */
  function SeedAfter(k: nat): int32 {
    if k == 0 then 32767 else NextSeed(SeedAfter(k - 1))
  }

  /** The lengths of n towns, and the tables the ants read. */
  class Colony {
    const n: nat
    const len: seq<seq<real>>
    const tau: array2<real>
    const eta: array2<real>
    var rnd: int32
    ghost var trail: Trail    // what the table tau holds

    ghost predicate Valid()
      reads this, tau, eta
    {
      && 1 <= n <= MAX_N && Distances(len, n)
      && tau.Length0 == tau.Length1 == eta.Length0 == eta.Length1 == n && tau != eta
      && Square(trail, n) && (forall i, j :: 0 <= i < n && 0 <= j < n ==> tau[i, j] == trail[i][j] > 0.0)
      && (forall i, j :: 0 <= i < n && 0 <= j < n && i != j ==> eta[i, j] == 1.0 / len[i][j])
    }

    constructor (lengths: seq<seq<real>>)
      requires 1 <= |lengths| <= MAX_N && Distances(lengths, |lengths|)
      ensures Valid() && n == |lengths| && len == lengths && rnd == 32767 && fresh(tau) && fresh(eta)
      ensures trail == Fresh(n)
    {
      n, len, rnd := |lengths|, lengths, 32767;
      // A zero on the diagonal makes the source's quotient infinite; that entry is never read.
      eta := new real[|lengths|, |lengths|]((i: nat, j: nat) requires i < |lengths| && j < |lengths[i]| =>
        if lengths[i][j] == 0.0 then 0.0 else 1.0 / lengths[i][j]);
      tau := new real[|lengths|, |lengths|]((_, _) => 1.0);
      trail := Fresh(|lengths|);
    }

    method Random(k: nat) returns (r: nat)
      requires k > 0
      modifies `rnd
      ensures rnd == NextSeed(old(rnd)) && r == Draw(rnd, k) && r < k
    {
      rnd := NextSeed(rnd);
      r := Draw(rnd, k);
    }

    /** The table while a tour is being marked: its edges within the first k towns are marked. */
    ghost predicate MarkedUpTo(path: seq<nat>, k: nat, cost: real)
      requires tau.Length0 == tau.Length1 == n && k <= |path|
      reads this, tau
    {
      && Square(trail, n)
      && forall a, b :: 0 <= a < n && 0 <= b < n ==>
           0.0 < tau[a, b] == if Edge(path, k, a, b) then Marked(trail[a][b], cost) else trail[a][b]
    }

    /** One turn of the loop in step(). */
    method MarkEdge(path: seq<nat>, i: nat, tlen: real)
      requires tau.Length0 == tau.Length1 == n && 1 <= i < |path| && PathOver(path, n) && tlen > 0.0
      requires MarkedUpTo(path, i, tlen)
      modifies tau
      ensures MarkedUpTo(path, i + 1, tlen)
    {
      var src, dst := path[i - 1], path[i];
      EdgeOneMore(path, i);
      tau[src, dst] := tau[src, dst] * RHO + Q / tlen;
    }

    /** What the program computes as the pull of town i on an ant at s. */
    function Product(s: nat, i: nat): (r: real)
      requires Valid() && s < n && i < n
      reads this, tau, eta
      ensures s != i ==> r == Pull(len, trail, s, i)
    {
      tau[s, i] * eta[s, i]
    }
  }

  class Ant {
    var start: nat
    var b_can: seq<bool>
    var t_len: real
    var path: seq<nat>      // path[0 .. path_length)

    /** The path starts at start, no town is on it twice, the towns still free are the others, and t_len
        is what it costs. */
    ghost predicate OnTour(len: seq<seq<real>>)
      reads this
    {
      && Distances(len, |len|) && |len| <= |b_can|
      && path != [] && path[0] == start && PathOver(path, |len|)
      && (forall v: nat :: v < |len| ==> (b_can[v] <==> v !in path))
      && t_len == Cost(len, path)
    }

    /** Before a round: whatever is on the path is inside the tables, and nothing else is taken. */
    ghost predicate Reusable(n: nat)
      reads this
    {
      && n <= |b_can| && start < n && PathOver(path, n)
      && forall v: nat :: v < n ==> (b_can[v] <==> v !in path)
    }

    constructor (town: nat)
      ensures start == town && path == [] && |b_can| == MAX_N && (forall v :: 0 <= v < MAX_N ==> b_can[v])
      ensures t_len == 0.0
    {
      start, path, t_len := town, [], 0.0;
      b_can := seq(MAX_N, _ => true);
    }

    predicate Can(t: nat)
      requires t < |b_can|
      reads this
    {
      b_can[t]
    }

    /** The first free town of greatest pull, or -1 when no town is free. */
    method Next(c: Colony) returns (ci: int)
      requires c.Valid() && OnTour(c.len) && c.n == |c.len|
      ensures ci == -1 <==> forall v: nat :: v < c.n ==> v in path
      ensures ci != -1 ==> 0 <= ci && Favourite(c.len, c.trail, path, ci)
    {
      var s := path[|path| - 1];
      ci := -1;
      var vmax, vall := 0.0, 0.0;
      for i := 0 to c.n
        invariant -1 <= ci < i
        invariant ci == -1 ==> forall v: nat :: v < i ==> v in path
        invariant ci != -1 ==> ci !in path && vmax == c.Product(s, ci)
        invariant ci != -1 ==> forall v: nat :: v < i && v !in path ==>
                    c.Product(s, v) <= vmax && (v < ci ==> c.Product(s, v) < vmax)
      {
        if Can(i) {
          vall := vall + c.tau[s, i] * c.eta[s, i];
          if c.tau[s, i] * c.eta[s, i] > vmax || ci < 0 {
            ci := i;
            vmax := c.tau[s, i] * c.eta[s, i];
          }
        }
      }
      if ci != -1 {
        FavouriteDrawsMost(c.len, c.trail, path, ci);
      }
    }

    /** Back to the start for another round. */
    method Reuse(len: seq<seq<real>>)
      requires Distances(len, |len|) && Reusable(|len|)
      modifies this
      ensures OnTour(len) && path == [start] && start == old(start)
    {
      for i := 0 to |path|
        invariant path == old(path) && start == old(start) && |b_can| == old(|b_can|)
        invariant forall v: nat :: v < |len| ==> (b_can[v] <==> v !in path[i..])
      {
        b_can := b_can[path[i] := true];
        assert path[i..] == [path[i]] + path[i + 1..];
      }
      path := [start];
      b_can := b_can[start := false];
      t_len := 0.0;
    }

    method StepTo(t: nat, len: seq<seq<real>>)
      requires OnTour(len) && t < |len| && t !in path
      modifies this
      ensures OnTour(len) && path == old(path) + [t] && start == old(start)
    {
      path := path + [t];
      b_can := b_can[t := false];
      t_len := t_len + len[path[|path| - 2]][path[|path| - 1]];
      assert path[..|path| - 1] == old(path);
    }

    /** One turn of the inner loop: to the favourite of the free towns, if there is one. */
    method Extend(c: Colony) returns (moved: bool)
      requires c.Valid() && c.n == |c.len| && OnTour(c.len) && Greedy(c.len, c.trail, path)
      modifies this
      ensures OnTour(c.len) && Greedy(c.len, c.trail, path) && start == old(start)
      ensures moved <==> |old(path)| < c.n
      ensures if moved then |path| == |old(path)| + 1 && path[..|old(path)|] == old(path) else path == old(path)
    {
      Visits(path, c.n);
      var dec := Next(c);
      moved := dec >= 0;
      if moved {
        GreedyOneMore(c.len, c.trail, path, dec);
        StepTo(dec, c.len);
      }
    }

    /** The edges of the finished tour, and no others, are marked; the pheromone stays positive. */
    method Step(c: Colony)
      requires c.Valid() && OnTour(c.len)
      modifies c.tau, c`trail
      ensures c.Valid() && c.trail == MarkTour(old(c.trail), path, t_len)
    {
      CostBounds(c.len, path);
      var tlen := t_len;
      for i := 1 to |path|
        modifies c.tau
        invariant c.MarkedUpTo(path, i, tlen)
      {
        c.MarkEdge(path, i, tlen);
      }
      c.trail := MarkTour(c.trail, path, tlen);
    }
  }

  // ----- The search -----

  ghost predicate Apart(ants: seq<Ant>) {
    forall i, j :: 0 <= i < j < |ants| ==> ants[i] != ants[j]
  }

  ghost predicate AllOnTour(ants: seq<Ant>, len: seq<seq<real>>, length: nat)
    reads ants
  {
    forall i :: 0 <= i < |ants| ==> ants[i].OnTour(len) && |ants[i].path| == length
  }

  ghost predicate AllReusable(ants: seq<Ant>, n: nat)
    reads ants
  {
    forall i :: 0 <= i < |ants| ==> ants[i].Reusable(n)
  }

  /** The ants are on their way, each so far by the pheromone alone. */
  ghost predicate AllGreedy(ants: seq<Ant>, len: seq<seq<real>>, trail: Trail, length: nat)
    reads ants
  {
    forall i :: 0 <= i < |ants| ==> IsGreedy(ants[i], len, trail, length)
  }

  ghost predicate IsGreedy(ant: Ant, len: seq<seq<real>>, trail: Trail, length: nat)
    reads ant
  {
    ant.OnTour(len) && |ant.path| == length && Greedy(len, trail, ant.path)
  }

  /** Where the ants start. */
  ghost predicate StartAt(ants: seq<Ant>, starts: seq<nat>)
    reads ants
  {
    |starts| == |ants| && forall i :: 0 <= i < |ants| ==> ants[i].start == starts[i]
  }

  /** Before a round: the ants differ, and each can be sent from its start again. */
  ghost predicate Waiting(ants: seq<Ant>, starts: seq<nat>, n: nat)
    reads ants
  {
    Apart(ants) && AllReusable(ants, n) && StartAt(ants, starts)
  }

  /** Every ant that can goes one town further. */
  method Sweep(c: Colony, ants: seq<Ant>, ghost starts: seq<nat>, ghost length: nat) returns (b_ok: bool)
    requires c.Valid() && c.n == |c.len| && Apart(ants) && StartAt(ants, starts) && length <= c.n
    requires AllGreedy(ants, c.len, c.trail, length) && ants != []
    modifies ants
    ensures StartAt(ants, starts)
    ensures AllGreedy(ants, c.len, c.trail, if length < c.n then length + 1 else length)
    ensures b_ok <==> length < c.n
  {
    ghost var trail, next := c.trail, if length < c.n then length + 1 else length;
    b_ok := false;
    for i := 0 to |ants|
      invariant StartAt(ants, starts) && (b_ok <==> i > 0 && length < c.n)
      invariant forall j :: 0 <= j < |ants| ==> IsGreedy(ants[j], c.len, trail, if j < i then next else length)
    {
      var moved := ants[i].Extend(c);
      if moved {
        b_ok := true;
      }
    }
  }

  /** All ants back to their starts. */
  method ReuseAll(c: Colony, ants: seq<Ant>, ghost starts: seq<nat>)
    requires c.Valid() && c.n == |c.len| && Apart(ants) && AllReusable(ants, c.n) && StartAt(ants, starts)
    modifies ants
    ensures StartAt(ants, starts) && AllGreedy(ants, c.len, c.trail, 1)
  {
    for i := 0 to |ants|
      invariant StartAt(ants, starts)
      invariant forall j :: 0 <= j < i ==> IsGreedy(ants[j], c.len, c.trail, 1)
      invariant forall j :: i <= j < |ants| ==> ants[j].Reusable(c.n)
    {
      ants[i].Reuse(c.len);
    }
  }

  /** One round of tours: after n - 1 extensions of each path every ant has visited every town. */
  method BuildTours(c: Colony, ants: seq<Ant>, ghost starts: seq<nat>) returns (ghost extensions: nat)
    requires c.Valid() && c.n == |c.len| && Apart(ants) && AllReusable(ants, c.n) && ants != []
    requires StartAt(ants, starts)
    modifies ants
    ensures StartAt(ants, starts) && AllGreedy(ants, c.len, c.trail, c.n) && extensions == c.n - 1
  {
    ReuseAll(c, ants, starts);
    extensions := 0;
    while true
      invariant extensions < c.n && StartAt(ants, starts) && AllGreedy(ants, c.len, c.trail, extensions + 1)
      decreases c.n - extensions
    {
      var b_ok := Sweep(c, ants, starts, extensions + 1);
      if !b_ok {
        break;
      }
      extensions := extensions + 1;
    }
  }

  /** The best tour so far: the first of the tours built than which none is cheaper. */
  ghost predicate Best(len: seq<seq<real>>, sol: real, best: seq<nat>, built: seq<seq<nat>>)
    requires Distances(len, |len|)
  {
    && (forall i :: 0 <= i < |built| ==> Permutation(built[i], |len|) && sol <= Cost(len, built[i]))
    && if built == [] then sol == NO_SOLUTION && best == [] else exists k :: IsFirstBest(len, sol, best, built, k)
  }

  /** The best tour is number k, and those before it are dearer. */
  ghost predicate IsFirstBest(len: seq<seq<real>>, sol: real, best: seq<nat>, built: seq<seq<nat>>, k: int)
    requires Distances(len, |len|)
  {
    && 0 <= k < |built| && built[k] == best && PathOver(best, |len|) && sol == Cost(len, best)
    && forall i :: 0 <= i < k && PathOver(built[i], |len|) ==> sol < Cost(len, built[i])
  }

  lemma BestOneMore(len: seq<seq<real>>, sol: real, best: seq<nat>, built: seq<seq<nat>>, tour: seq<nat>)
    requires Distances(len, |len|) && Best(len, sol, best, built) && Permutation(tour, |len|) && |len| <= MAX_N
    ensures var cheaper := Cost(len, tour) < sol;
      Best(len, if cheaper then Cost(len, tour) else sol, if cheaper then tour else best, built + [tour])
  {
    CostBounds(len, tour);
    var all := built + [tour];
    if Cost(len, tour) < sol {
      assert IsFirstBest(len, Cost(len, tour), tour, all, |built|);
    } else {
      var k :| IsFirstBest(len, sol, best, built, k);
      assert IsFirstBest(len, sol, best, all, k);
    }
  }

  lemma BestOfSome(len: seq<seq<real>>, sol: real, best: seq<nat>, built: seq<seq<nat>>)
    requires Distances(len, |len|) && |len| <= MAX_N && Best(len, sol, best, built) && built != []
    ensures Permutation(best, |len|) && sol == Cost(len, best) < NO_SOLUTION
  {
    CostBounds(len, best);
  }

  /** One ant at the end of a round: it marks its tour, and if that is cheaper it becomes the best. */
  method FinishOne(c: Colony, ant: Ant, sol0: real, best0: seq<nat>, ghost built0: seq<seq<nat>>)
    returns (sol: real, best: seq<nat>)
    requires c.Valid() && c.n == |c.len| && ant.OnTour(c.len) && |ant.path| == c.n
    requires Best(c.len, sol0, best0, built0)
    modifies c.tau, c`trail
    ensures c.Valid() && Best(c.len, sol, best, built0 + [ant.path])
    ensures c.trail == MarkTour(old(c.trail), ant.path, Cost(c.len, ant.path))
  {
    sol, best := sol0, best0;
    ant.Step(c);
    BestOneMore(c.len, sol, best, built0, ant.path);
    if |ant.path| == c.n {
      var tlen := ant.t_len;
      if tlen < sol {
        sol, best := tlen, ant.path;
      }
    }
  }

  /** The paths of the first k ants. */
  ghost function Paths(ants: seq<Ant>, k: nat): (paths: seq<seq<nat>>)
    requires k <= |ants|
    reads ants
    ensures |paths| == k && forall i :: 0 <= i < k ==> paths[i] == ants[i].path
  {
    if k == 0 then [] else Paths(ants, k - 1) + [ants[k - 1].path]
  }

  /** The tours are the ants' paths. */
  ghost predicate Walked(ants: seq<Ant>, tours: seq<seq<nat>>)
    reads ants
  {
    |tours| == |ants| && forall i :: 0 <= i < |ants| ==> tours[i] == ants[i].path
  }

  ghost predicate PathsOver(tours: seq<seq<nat>>, n: nat) {
    forall i :: 0 <= i < |tours| ==> PathOver(tours[i], n)
  }

  lemma MarkOneMore(len: seq<seq<real>>, trail: Trail, tours: seq<seq<nat>>, i: nat, built: seq<seq<nat>>)
    requires Distances(len, |len|) && Square(trail, |len|) && i < |tours| && PathsOver(tours, |len|)
    ensures MarkAll(len, trail, tours[..i + 1])
         == MarkTour(MarkAll(len, trail, tours[..i]), tours[i], Cost(len, tours[i]))
    ensures built + tours[..i] + [tours[i]] == built + tours[..i + 1]
  {
    assert tours[..i + 1][..i] == tours[..i];
  }

  /** The end of a round: the ants mark their tours one after the other. */
  method Finish(c: Colony, ants: seq<Ant>, sol0: real, best0: seq<nat>, ghost built: seq<seq<nat>>,
                ghost tours: seq<seq<nat>>)
    returns (sol: real, best: seq<nat>)
    requires c.Valid() && c.n == |c.len| && AllOnTour(ants, c.len, c.n) && Best(c.len, sol0, best0, built)
    requires Walked(ants, tours) && PathsOver(tours, c.n)
    modifies c.tau, c`trail
    ensures c.Valid() && Best(c.len, sol, best, built + tours)
    ensures c.trail == MarkAll(c.len, old(c.trail), tours)
  {
    sol, best := sol0, best0;
    ghost var trail := c.trail;
    assert built + tours[..0] == built;
    for i := 0 to |ants|
      modifies c.tau, c`trail
      invariant c.Valid() && Best(c.len, sol, best, built + tours[..i])
      invariant c.trail == MarkAll(c.len, trail, tours[..i])
    {
      MarkOneMore(c.len, trail, tours, i, built);
      sol, best := FinishOne(c, ants[i], sol, best, built + tours[..i]);
    }
    assert tours[..|ants|] == tours;
  }

  /** An ant at its start, the next number that the generator draws. */
  method PlaceAnt(c: Colony, ghost i: nat) returns (ant: Ant)
    requires c.Valid() && c.rnd == SeedAfter(i)
    modifies c`rnd
    ensures c.Valid() && c.rnd == SeedAfter(i + 1)
    ensures fresh(ant) && ant.Reusable(c.n) && ant.start == Draw(SeedAfter(i + 1), c.n)
  {
    var start := c.Random(c.n);
    ant := new Ant(start);
  }

  lemma WaitingOneMore(ants: seq<Ant>, starts: seq<nat>, n: nat, ant: Ant)
    requires Waiting(ants, starts, n) && ant.Reusable(n) && ant !in ants
    ensures Waiting(ants + [ant], starts + [ant.start], n)
  {
  }

  /** The ants at their starts, each drawn at random. */
  method PlaceAnts(c: Colony, m: nat) returns (ants: seq<Ant>, ghost starts: seq<nat>)
    requires c.Valid() && c.rnd == 32767
    modifies c`rnd
    ensures c.Valid() && |ants| == m && Waiting(ants, starts, c.n) && Drawn(starts, c.n)
    ensures forall i :: 0 <= i < m ==> fresh(ants[i])
  {
    ants, starts := [], [];
    for i := 0 to m
      invariant c.Valid() && c.rnd == SeedAfter(i)
      invariant |ants| == i && Waiting(ants, starts, c.n) && Drawn(starts, c.n)
      invariant forall j :: 0 <= j < i ==> fresh(ants[j])
    {
      var ant := PlaceAnt(c, i);
      WaitingOneMore(ants, starts, c.n, ant);
      ants, starts := ants + [ant], starts + [ant.start];
    }
  }

  /** The starts are the first numbers that the generator draws. */
  ghost predicate Drawn(starts: seq<nat>, n: nat)
    requires n > 0
  {
    forall i :: 0 <= i < |starts| ==> starts[i] == Draw(SeedAfter(i + 1), n)
  }

  lemma ToursBuilt(ants: seq<Ant>, len: seq<seq<real>>, starts: seq<nat>, trail: Trail, tours: seq<seq<nat>>)
    requires AllGreedy(ants, len, trail, |len|) && StartAt(ants, starts) && Walked(ants, tours)
    ensures AreTours(len, starts, trail, tours)
    ensures AllOnTour(ants, len, |len|) && AllReusable(ants, |len|) && PathsOver(tours, |len|)
  {
    forall i | 0 <= i < |ants|
      ensures IsTour(len, starts[i], trail, tours[i]) && ants[i].OnTour(len) && ants[i].Reusable(|len|)
    {
      assert IsGreedy(ants[i], len, trail, |len|);
    }
  }

  /** The first half of a round: the tours, as values. */
  method CompleteTours(c: Colony, ants: seq<Ant>, ghost starts: seq<nat>) returns (ghost tours: seq<seq<nat>>)
    requires c.Valid() && c.n == |c.len| && Waiting(ants, starts, c.n) && ants != []
    modifies ants
    ensures AllOnTour(ants, c.len, c.n) && Waiting(ants, starts, c.n)
    ensures Walked(ants, tours) && PathsOver(tours, c.n) && AreTours(c.len, starts, c.trail, tours)
  {
    ghost var _ := BuildTours(c, ants, starts);
    tours := Paths(ants, |ants|);
    ToursBuilt(ants, c.len, starts, c.trail, tours);
  }

  lemma MakeRound(len: seq<seq<real>>, starts: seq<nat>, trail: Trail, tours: seq<seq<nat>>, after: Trail)
    requires Distances(len, |len|) && Square(trail, |len|) && AreTours(len, starts, trail, tours)
    requires PathsOver(tours, |len|) && after == MarkAll(len, trail, tours)
    ensures IsRound(len, starts, trail, tours, after)
  {
  }

  /** The second half: the marks and the record. */
  method LeaveMarks(c: Colony, ants: seq<Ant>, sol0: real, best0: seq<nat>, ghost built: seq<seq<nat>>,
                    ghost starts: seq<nat>, ghost tours: seq<seq<nat>>)
    returns (sol: real, best: seq<nat>)
    requires c.Valid() && c.n == |c.len| && AllOnTour(ants, c.len, c.n) && Best(c.len, sol0, best0, built)
    requires Walked(ants, tours) && PathsOver(tours, c.n) && AreTours(c.len, starts, c.trail, tours)
    modifies c.tau, c`trail
    ensures c.Valid() && Best(c.len, sol, best, built + tours)
    ensures IsRound(c.len, starts, old(c.trail), tours, c.trail)
  {
    ghost var trail := c.trail;
    sol, best := Finish(c, ants, sol0, best0, built, tours);
    MakeRound(c.len, starts, trail, tours, c.trail);
  }

  /** One round: tours for all the ants, then the marks and the record. */
  method Round(c: Colony, ants: seq<Ant>, sol0: real, best0: seq<nat>, ghost built: seq<seq<nat>>,
               ghost starts: seq<nat>)
    returns (sol: real, best: seq<nat>, ghost tours: seq<seq<nat>>)
    requires c.Valid() && c.n == |c.len| && Waiting(ants, starts, c.n) && ants != []
    requires Best(c.len, sol0, best0, built)
    modifies ants, c.tau, c`trail
    ensures c.Valid() && Waiting(ants, starts, c.n) && Walked(ants, tours)
    ensures IsRound(c.len, starts, old(c.trail), tours, c.trail)
    ensures Best(c.len, sol, best, built + tours)
  {
    tours := CompleteTours(c, ants, starts);
    sol, best := LeaveMarks(c, ants, sol0, best0, built, starts, tours);
  }

  /** The whole search: nc rounds of a tour of each of the m ants. */
  method Search(lengths: seq<seq<real>>, m: nat, nc: nat)
    returns (sol: real, best: seq<nat>, ghost starts: seq<nat>, ghost trails: seq<Trail>,
             ghost rounds: seq<seq<seq<nat>>>)
    requires 1 <= |lengths| <= MAX_N && Distances(lengths, |lengths|) && m <= MAX_ANT && (nc > 0 ==> m > 0)
    ensures |starts| == m && Drawn(starts, |lengths|)
    ensures |rounds| == nc && IsRun(lengths, starts, trails, rounds)
    ensures Best(lengths, sol, best, AllTours(rounds))
    ensures nc > 0 ==> Permutation(best, |lengths|) && sol == Cost(lengths, best) < NO_SOLUTION
    ensures nc == 0 ==> best == [] && sol == NO_SOLUTION
  {
    var c: Colony := new Colony(lengths);
    var ants;
    ants, starts := PlaceAnts(c, m);
    sol, best, trails, rounds := NO_SOLUTION, [], [c.trail], [];
    var done := 0;
    while done < nc
      modifies ants, c.tau, c`trail
      invariant c.Valid() && Waiting(ants, starts, c.n)
      invariant done == |rounds| <= nc && IsRun(lengths, starts, trails, rounds) && trails[|rounds|] == c.trail
      invariant Best(lengths, sol, best, AllTours(rounds)) && (rounds != [] ==> AllTours(rounds) != [])
      decreases nc - done
    {
      ghost var tours;
      sol, best, tours := Round(c, ants, sol, best, AllTours(rounds), starts);
      RunOneMore(lengths, starts, trails, rounds, tours, c.trail);
      AllToursOneMore(rounds, tours);
      trails, rounds := trails + [c.trail], rounds + [tours];
      done := done + if |best| == c.n then 1 else 0;
    }
    if nc > 0 {
      BestOfSome(lengths, sol, best, AllTours(rounds));
    }
  }
}
