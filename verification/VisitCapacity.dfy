/** How many tracked visits may hold at one instant, over all routes. */
module VisitCapacity {
  import opened Collections
  import opened TrajectoryGrouping

  const MAX_CLIENTS := 2

  type Routes = map<int, seq<Visit>>

  function End(v: Visit): real {
    v.arrivalTime + v.contactTime
  }

  predicate Overlap(a: Visit, b: Visit) {
    a.arrivalTime < End(b) && End(a) > b.arrivalTime
  }

  /** The visit strictly contains the instant. */
  predicate Holds(v: Visit, t: real) {
    v.arrivalTime < t < v.arrivalTime + v.contactTime
  }

  /** Both are under way at some instant; a visit that takes no time, or less, meets what contains all of it. */
  ghost predicate Meets(a: Visit, b: Visit) {
    if a.contactTime <= 0.0 then Holds(b, a.arrivalTime) && Holds(b, a.arrivalTime + a.contactTime)
    else if b.contactTime <= 0.0 then Holds(a, b.arrivalTime) && Holds(a, b.arrivalTime + b.contactTime)
    else exists t :: Holds(a, t) && Holds(b, t)
  }

  /** The overlap test finds exactly the visits that share an instant. */
  lemma OverlapExactly(a: Visit, b: Visit)
    ensures Overlap(a, b) <==> Meets(a, b)
  {
    if a.contactTime > 0.0 && b.contactTime > 0.0 && Overlap(a, b) {
      var from := if a.arrivalTime >= b.arrivalTime then a.arrivalTime else b.arrivalTime;
      var to := if End(a) <= End(b) then End(a) else End(b);
      assert Holds(a, (from + to) / 2.0) && Holds(b, (from + to) / 2.0);
    }
  }

  ghost function CountIf(vs: seq<Visit>, p: Visit -> bool): nat {
    if vs == [] then 0 else CountIf(vs[..|vs| - 1], p) + if p(vs[|vs| - 1]) then 1 else 0
  }

  function OverlapsWith(v: Visit): Visit -> bool {
    w => Overlap(v, w)
  }

  function HoldsAt(t: real): Visit -> bool {
    w => Holds(w, t)
  }

  ghost function Counter(p: Visit -> bool): seq<Visit> -> int {
    vs => CountIf(vs, p)
  }

  /** Tracked visits, over all routes, with a property. */
  ghost function Count(routes: Routes, p: Visit -> bool): int {
    MapSum(routes, Counter(p))
  }

  /** At no instant are more visits under way than one node may serve. */
  ghost predicate WithinCapacity(routes: Routes) {
    forall t :: Count(routes, HoldsAt(t)) <= MAX_CLIENTS
  }

  ghost predicate OwnDisjoint(vs: seq<Visit>) {
    forall a, b :: 0 <= a < b < |vs| ==> !Overlap(vs[a], vs[b])
  }

  /** The visits of a trajectory whose times are in order never overlap: the capacity bound applies to them. */
  lemma {:induction false} GroupedDisjoint(nodes: seq<NearestNode>, times: seq<real>, visits: seq<Visit>)
    requires |nodes| <= |times| && Grouped(nodes, times, visits)
    requires forall i, j :: 0 <= i <= j < |times| ==> times[i] <= times[j]
    ensures OwnDisjoint(visits)
  {
    var ivs :| StandsFor(nodes, times, visits, ivs);
    forall a: nat, b: nat | a < b < |visits|
      ensures !Overlap(visits[a], visits[b])
    {
      VisitsDisjointInTime(nodes, times, visits, ivs, a, b);
    }
  }

  // ----- counting -----

  lemma {:induction false} CountIfLess(vs: seq<Visit>, p: Visit -> bool, q: Visit -> bool)
    requires forall v :: p(v) ==> q(v)
    ensures CountIf(vs, p) <= CountIf(vs, q)
  {
    if vs != [] {
      CountIfLess(vs[..|vs| - 1], p, q);
    }
  }

  lemma {:induction false} MapSumLess<K, V(!new)>(m: map<K, V>, f: V -> int, g: V -> int)
    requires forall v :: f(v) <= g(v)
    ensures MapSum(m, f) <= MapSum(m, g)
    decreases |m|
  {
    if m != map[] {
      var k :| k in m && MapSum(m, f) == f(m[k]) + MapSum(m - {k}, f);
      MapSumRemove(m, g, k);
      MapSumLess(m - {k}, f, g);
    }
  }

  lemma CountLess(routes: Routes, p: Visit -> bool, q: Visit -> bool)
    requires forall v :: p(v) ==> q(v)
    ensures Count(routes, p) <= Count(routes, q)
  {
    forall vs
      ensures Counter(p)(vs) <= Counter(q)(vs)
    {
      CountIfLess(vs, p, q);
    }
    MapSumLess(routes, Counter(p), Counter(q));
  }

  /** Replacing one route's visits. */
  lemma CountUpdate(routes: Routes, token: int, vs: seq<Visit>, p: Visit -> bool)
    ensures Count(routes[token := vs], p) == Count(routes[token := []], p) + CountIf(vs, p)
    ensures Count(routes[token := []], p) <= Count(routes, p)
  {
    var c := Counter(p);
    MapSumUpdate(routes, c, token, vs);
    MapSumUpdate(routes, c, token, []);
    assert c([]) == 0;
  }

  lemma {:induction false} CountNone(vs: seq<Visit>, p: Visit -> bool)
    requires forall k :: 0 <= k < |vs| ==> !p(vs[k])
    ensures CountIf(vs, p) == 0
  {
    if vs != [] {
      CountNone(vs[..|vs| - 1], p);
    }
  }

  lemma {:induction false} CountSome(vs: seq<Visit>, p: Visit -> bool)
    requires CountIf(vs, p) > 0
    ensures exists k :: 0 <= k < |vs| && p(vs[k])
  {
    var n := |vs| - 1;
    if !p(vs[n]) {
      CountSome(vs[..n], p);
      var k :| 0 <= k < n && p(vs[..n][k]);
      assert p(vs[k]);
    }
  }

  /** Of visits that do not overlap, at most one is under way at an instant. */
  lemma {:induction false} DisjointHoldOne(vs: seq<Visit>, t: real)
    requires OwnDisjoint(vs)
    ensures CountIf(vs, HoldsAt(t)) <= 1
  {
    if vs != [] {
      var n := |vs| - 1;
      DisjointHoldOne(vs[..n], t);
      if Holds(vs[n], t) {
        forall k | 0 <= k < n
          ensures !HoldsAt(t)(vs[..n][k])
        {
          assert !Overlap(vs[k], vs[n]);
        }
        CountNone(vs[..n], HoldsAt(t));
      }
    }
  }

  /** The tracked visits with a property, each by its route and position. */
  ghost function Tracked(routes: Routes, p: Visit -> bool): set<(int, nat)> {
    set t, k: nat | t in routes && 0 <= k < |routes[t]| && p(routes[t][k]) :: (t, k)
  }

  /** The positions of the visits with a property. */
  ghost function Positions(vs: seq<Visit>, p: Visit -> bool): set<nat> {
    set k: nat | k < |vs| && p(vs[k])
  }

  lemma PositionsSnoc(vs: seq<Visit>, p: Visit -> bool)
    requires vs != []
    ensures var n: nat := |vs| - 1;
            n !in Positions(vs[..n], p)
            && Positions(vs, p) == if p(vs[n]) then Positions(vs[..n], p) + {n} else Positions(vs[..n], p)
  {
  }

  lemma {:induction false} CountIfIsSize(vs: seq<Visit>, p: Visit -> bool)
    ensures CountIf(vs, p) == |Positions(vs, p)|
  {
    if vs == [] {
      assert Positions(vs, p) == {};
    } else {
      PositionsSnoc(vs, p);
      CountIfIsSize(vs[..|vs| - 1], p);
    }
  }

  function Paired(token: int, ks: set<nat>): set<(int, nat)> {
    set k | k in ks :: (token, k)
  }

  lemma {:induction false} PairedSize(token: int, ks: set<nat>)
    ensures |Paired(token, ks)| == |ks|
    decreases |ks|
  {
    if ks == {} {
      assert Paired(token, ks) == {};
    } else {
      var k := Member(ks);
      PairedSize(token, ks - {k});
      assert Paired(token, ks) == Paired(token, ks - {k}) + {(token, k)};
    }
  }

  lemma TrackedSplit(routes: Routes, token: int, p: Visit -> bool)
    requires token in routes
    ensures var own, rest := Paired(token, Positions(routes[token], p)), Tracked(routes - {token}, p);
            Tracked(routes, p) == own + rest && own !! rest
  {
  }

  /** Counting route by route counts every tracked visit once. */
  lemma {:induction false} CountIsTracked(routes: Routes, p: Visit -> bool)
    ensures Count(routes, p) == |Tracked(routes, p)|
    decreases |routes|
  {
    if routes == map[] {
      assert Tracked(routes, p) == {};
    } else {
      var token := Member(routes.Keys);
      MapSumRemove(routes, Counter(p), token);
      CountIfIsSize(routes[token], p);
      PairedSize(token, Positions(routes[token], p));
      CountIsTracked(routes - {token}, p);
      TrackedSplit(routes, token, p);
    }
  }

  /** The tracked visits, over all routes, that share an instant with this one. */
  ghost function Clashes(routes: Routes, v: Visit): set<(int, nat)> {
    set t, k: nat | t in routes && 0 <= k < |routes[t]| && Meets(v, routes[t][k]) :: (t, k)
  }

  lemma CountIsClashes(routes: Routes, v: Visit)
    ensures Count(routes, OverlapsWith(v)) == |Clashes(routes, v)|
  {
    CountIsTracked(routes, OverlapsWith(v));
    forall w
      ensures OverlapsWith(v)(w) <==> Meets(v, w)
    {
      OverlapExactly(v, w);
    }
    hide Meets, Overlap;
    assert Tracked(routes, OverlapsWith(v)) == Clashes(routes, v);
  }

  // ----- the bound is kept -----

  /** The overlap test of one visit against what is tracked once its own route is reset. */
  ghost predicate Admitted(routes: Routes, token: int, v: Visit) {
    Count(routes[token := []], OverlapsWith(v)) < MAX_CLIENTS
  }

  /** No two of the visits are under way at one instant. */
  ghost predicate OneAtATime(vs: seq<Visit>) {
    forall t :: CountIf(vs, HoldsAt(t)) <= 1
  }

  /**
    Visit capacity is kept by every request whose own visits share no instant,
    although all are tested before any is recorded.
   */
  lemma SharelessKeepsCapacity(routes: Routes, token: int, recorded: seq<Visit>)
    requires WithinCapacity(routes) && OneAtATime(recorded)
    requires forall k :: 0 <= k < |recorded| ==> Admitted(routes, token, recorded[k])
    ensures WithinCapacity(routes[token := recorded])
  {
    forall t: real
      ensures Count(routes[token := recorded], HoldsAt(t)) <= MAX_CLIENTS
    {
      var p := HoldsAt(t);
      CountUpdate(routes, token, recorded, p);
      assert Count(routes, p) <= MAX_CLIENTS && CountIf(recorded, p) <= 1;
      hide CountIf, Count;
      if CountIf(recorded, p) == 1 {
        CountSome(recorded, p);
        var k :| 0 <= k < |recorded| && p(recorded[k]);
        CountLess(routes[token := []], p, OverlapsWith(recorded[k]));
        assert Admitted(routes, token, recorded[k]);
      }
    }
  }

  lemma CapacityKept(routes: Routes, token: int, recorded: seq<Visit>)
    requires WithinCapacity(routes) && OwnDisjoint(recorded)
    requires forall k :: 0 <= k < |recorded| ==> Admitted(routes, token, recorded[k])
    ensures WithinCapacity(routes[token := recorded])
  {
    forall t: real
      ensures CountIf(recorded, HoldsAt(t)) <= 1
    {
      DisjointHoldOne(recorded, t);
    }
    SharelessKeepsCapacity(routes, token, recorded);
  }

  /** What is counted when one route is tracked. */
  lemma CountOne(token: int, vs: seq<Visit>, p: Visit -> bool)
    ensures Count(map[token := vs], p) == CountIf(vs, p)
  {
    CountUpdate(map[], token, vs, p);
    CountUpdate(map[], token, [], p);
    assert Count(map[], p) == 0;
    MapSumNonNegative(map[token := []], Counter(p));
  }

  lemma OneVisit(v: Visit, p: Visit -> bool)
    ensures CountIf([v], p) == if p(v) then 1 else 0
  {
    assert [v][..0] == [];
  }

  /** A second route with one of the visits, when two of them share an instant. */
  lemma SharedInstantBreaksCapacity(token: int, recorded: seq<Visit>, t: real) returns (routes: Routes)
    requires CountIf(recorded, HoldsAt(t)) > 1
    ensures WithinCapacity(routes) && forall k :: 0 <= k < |recorded| ==> Admitted(routes, token, recorded[k])
    ensures !WithinCapacity(routes[token := recorded])
  {
    CountSome(recorded, HoldsAt(t));
    var k :| 0 <= k < |recorded| && HoldsAt(t)(recorded[k]);
    var v := recorded[k];
    routes := map[token + 1 := [v]];
    forall p: Visit -> bool
      ensures Count(routes, p) == if p(v) then 1 else 0
    {
      CountOne(token + 1, [v], p);
      OneVisit(v, p);
    }
    hide Count, CountIf;
    forall x: real
      ensures Count(routes, HoldsAt(x)) <= MAX_CLIENTS
    {
    }
    forall k | 0 <= k < |recorded|
      ensures Admitted(routes, token, recorded[k])
    {
      TokenAbsent(routes, token, OverlapsWith(recorded[k]));
    }
    CountUpdate(routes, token, recorded, HoldsAt(t));
    TokenAbsent(routes, token, HoldsAt(t));
    assert Count(routes[token := recorded], HoldsAt(t)) > MAX_CLIENTS;
  }

  lemma TokenAbsent(routes: Routes, token: int, p: Visit -> bool)
    requires token !in routes
    ensures Count(routes[token := []], p) == Count(routes, p)
  {
    MapSumUpdate(routes, Counter(p), token, []);
    assert Counter(p)([]) == 0;
  }

  /** The condition is exact: recording the visits is safe whatever else is tracked iff they share no instant. */
  lemma CapacityExactly(token: int, recorded: seq<Visit>)
    ensures (forall routes: Routes ::
               WithinCapacity(routes) && (forall k :: 0 <= k < |recorded| ==> Admitted(routes, token, recorded[k]))
               ==> WithinCapacity(routes[token := recorded]))
            <==> OneAtATime(recorded)
  {
    if OneAtATime(recorded) {
      forall routes: Routes |
          WithinCapacity(routes) && forall k :: 0 <= k < |recorded| ==> Admitted(routes, token, recorded[k])
        ensures WithinCapacity(routes[token := recorded])
      {
        SharelessKeepsCapacity(routes, token, recorded);
      }
    } else {
      var t :| CountIf(recorded, HoldsAt(t)) > 1;
      var routes := SharedInstantBreaksCapacity(token, recorded, t);
      assert WithinCapacity(routes) && !WithinCapacity(routes[token := recorded]);
    }
  }

  /** One request: its token, and the visits recorded for it in the end. */
  datatype Request = Request(token: int, recorded: seq<Visit>)

  ghost function Track(routes: Routes, reqs: seq<Request>): Routes {
    if reqs == [] then routes
    else Track(routes, reqs[..|reqs| - 1])[reqs[|reqs| - 1].token := reqs[|reqs| - 1].recorded]
  }

  /** The last request of a route. */
  ghost predicate LastOf(reqs: seq<Request>, token: int, i: int) {
    0 <= i < |reqs| && reqs[i].token == token && forall j :: i < j < |reqs| ==> reqs[j].token != token
  }

  /** Tracked are, for every route, the visits of its last request. */
  lemma {:induction false} TrackExactly(reqs: seq<Request>, token: int)
    ensures token in Track(map[], reqs) <==> exists i :: LastOf(reqs, token, i)
    ensures forall i :: LastOf(reqs, token, i) ==> Track(map[], reqs)[token] == reqs[i].recorded
  {
    if reqs != [] {
      var n := |reqs| - 1;
      var init := reqs[..n];
      TrackExactly(init, token);
      TrackSnoc(map[], reqs);
      forall i
        ensures LastOf(reqs, token, i) <==> if reqs[n].token == token then i == n else LastOf(init, token, i)
      {
        LastSnoc(reqs, token, i);
      }
      hide Track, LastOf;
      assert LastOf(reqs, token, n) <==> reqs[n].token == token;
      if exists i :: LastOf(init, token, i) {
        var i :| LastOf(init, token, i);
        assert reqs[n].token != token ==> LastOf(reqs, token, i);
      }
    }
  }

  lemma LastSnoc(reqs: seq<Request>, token: int, i: int)
    requires reqs != []
    ensures var n := |reqs| - 1;
            LastOf(reqs, token, i)
            <==> if reqs[n].token == token then i == n else LastOf(reqs[..n], token, i)
  {
    if LastOf(reqs, token, i) && i < |reqs| - 1 {
      assert reqs[|reqs| - 1].token != token;
    }
  }

  lemma TrackSnoc(routes: Routes, reqs: seq<Request>)
    requires reqs != []
    ensures var n := |reqs| - 1; Track(routes, reqs) == Track(routes, reqs[..n])[reqs[n].token := reqs[n].recorded]
  {
  }

  ghost predicate Proper(routes: Routes, req: Request) {
    OwnDisjoint(req.recorded)
    && forall k :: 0 <= k < |req.recorded| ==> Admitted(routes, req.token, req.recorded[k])
  }

  /** Over any sequence of requests, reused tokens included, the bound holds at every instant. */
  lemma {:induction false} CapacityOverRuns(reqs: seq<Request>)
    requires forall i :: 0 <= i < |reqs| ==> Proper(Track(map[], reqs[..i]), reqs[i])
    ensures WithinCapacity(Track(map[], reqs))
  {
    if reqs == [] {
      forall t: real
        ensures Count(map[], HoldsAt(t)) <= MAX_CLIENTS
      {
      }
    } else {
      var n := |reqs| - 1;
      forall i | 0 <= i < n
        ensures Proper(Track(map[], reqs[..n][..i]), reqs[..n][i])
      {
        assert reqs[..n][..i] == reqs[..i];
      }
      CapacityOverRuns(reqs[..n]);
      assert Proper(Track(map[], reqs[..n]), reqs[n]);
      CapacityKept(Track(map[], reqs[..n]), reqs[n].token, reqs[n].recorded);
    }
  }

  lemma ThreeVisits(u: Visit, v: Visit, w: Visit, p: Visit -> bool)
    requires p(u) && p(v) && p(w)
    ensures CountIf([u, v, w], p) == 3
  {
    OneVisit(u, p);
    assert [u, v][..1] == [u] && CountIf([u, v], p) == CountIf([u], p) + 1;
    assert [u, v, w][..2] == [u, v];
  }

  /** Even with nothing else tracked: three visits of one request that share an instant all pass the test. */
  lemma OwnOverlapBreaksCapacity(token: int, u: Visit, v: Visit, w: Visit, t: real)
    requires Holds(u, t) && Holds(v, t) && Holds(w, t)
    ensures Admitted(map[], token, u) && Admitted(map[], token, v) && Admitted(map[], token, w)
    ensures !WithinCapacity(map[token := [u, v, w]])
  {
    forall x
      ensures Admitted(map[], token, x)
    {
      CountOne(token, [], OverlapsWith(x));
    }
    ThreeVisits(u, v, w, HoldsAt(t));
    CountOne(token, [u, v, w], HoldsAt(t));
    assert Count(map[token := [u, v, w]], HoldsAt(t)) > MAX_CLIENTS;
  }
}
