/**
  The cloud planner: one video request cut into segment ranges, one per visit,
  against the estimate of each visit, the edge's ledger and the edge's answer.
 */
module Planner {
  import opened Collections
  import opened CacheModel
  import opened EdgeModel
  import opened BandwidthEstimate
  import opened TrajectoryGrouping
  import opened VisitCapacity
  import DownloadLedger

  type Candidate = DownloadLedger.Candidate
  type Node = DownloadLedger.EdgeDownloadAssignment

  /** Python's int(): towards zero. */
  function Trunc(x: real): int {
    if x >= 0.0 then x.Floor else -((-x).Floor)
  }

  /** Seconds into the video when the vehicle arrives, one segment a second. */
  function Playback(v: Visit, start: real): int {
    Trunc(v.arrivalTime - start)
  }

  /** From the index so far, or from the second the vehicle arrives in, one segment a second, if that is later. */
  ghost predicate BeginsAt(v: Visit, start: real, idx: nat, first: nat) {
    && idx <= first && v.arrivalTime - start < first as real + 1.0
    && (first == idx || first as real <= v.arrivalTime - start)
  }

  datatype Range = Range(lo: nat, hi: nat)

  function RangeSize(segs: seq<Segment>, r: Range): nat
    requires r.lo <= r.hi <= |segs|
  {
    TotalSize(segs[r.lo..r.hi])
  }

  /** The candidates stand for the segments of the range, in order. */
  predicate StandFor(cs: seq<Candidate>, segs: seq<Segment>, r: Range)
  {
    && r.lo <= r.hi <= |segs| && |cs| == r.hi - r.lo
    && forall i :: 0 <= i < |cs| ==>
         cs[i].segmentId == segs[r.lo + i].segmentId && cs[i].size == segs[r.lo + i].segmentSize
  }

  ghost predicate Increasing(rs: seq<Range>) {
    forall a, b :: 0 <= a < b < |rs| ==> rs[a].hi <= rs[b].lo
  }

  ghost predicate DistinctNodes(vs: seq<Visit>) {
    forall a, b :: 0 <= a < b < |vs| ==> vs[a].nodeId != vs[b].nodeId
  }

  ghost predicate Recorded(vs: seq<Visit>, name: string) {
    exists k :: 0 <= k < |vs| && vs[k].nodeId == name
  }

  ghost predicate OnlyRecorded(vs: seq<Visit>, assignments: map<string, seq<Candidate>>) {
    forall n :: n in assignments && !Recorded(vs, n) ==> assignments[n] == []
  }

  lemma AmongDisjoint(sub: seq<Visit>, all: seq<Visit>, at: seq<nat>)
    requires Among(sub, all, at)
    ensures OwnDisjoint(all) ==> OwnDisjoint(sub)
  {
  }

  lemma {:induction false} TotalSizeMono(segs: seq<Segment>, n: nat)
    requires n <= |segs|
    ensures TotalSize(segs[..n]) <= TotalSize(segs)
  {
    if n < |segs| {
      TotalSizePrefix(segs, n);
    } else {
      assert segs[..n] == segs;
    }
  }

  function CandidateIds(cs: seq<Candidate>): (ids: seq<string>)
    ensures |ids| == |cs|
  {
    seq(|cs|, i requires 0 <= i < |cs| => cs[i].segmentId)
  }

  /** What an edge is offered, and lists to the client, repeats nothing if the video's ids are distinct. */
  lemma OfferRepeatsNothing(cs: seq<Candidate>, segs: seq<Segment>, r: Range)
    requires StandFor(cs, segs, r) && Distinct(Ids(segs))
    ensures Distinct(CandidateIds(cs))
    ensures forall n :: 0 <= n <= |cs| ==> Distinct(CandidateIds(cs[..n]))
  {
    forall a, b | 0 <= a < b < |cs|
      ensures cs[a].segmentId != cs[b].segmentId
    {
      assert Ids(segs)[r.lo + a] != Ids(segs)[r.lo + b];
    }
  }

  /** What became of one visit: the segments that fit, how many the ledger thought possible, how many the edge took. */
  datatype Decision = NoModel | Decided(first: nat, tentative: seq<Candidate>, possible: nat, taken: nat)

  /** The segment index after a visit: what was not taken is given back, unless nothing was possible. */
  function NextIdx(idx: nat, d: Decision): nat {
    match d
    case NoModel => idx
    case Decided(first, tentative, possible, taken) => first + if possible == 0 then |tentative| else taken
  }

  function IdxAfter(ds: seq<Decision>): nat {
    if ds == [] then 0 else NextIdx(IdxAfter(ds[..|ds| - 1]), ds[|ds| - 1])
  }

  predicate Took(d: Decision) {
    d.Decided? && d.taken > 0
  }

  /** The visits that were given segments, and their ranges. */
  function RecordedOf(vs: seq<Visit>, ds: seq<Decision>): seq<Visit>
    requires |vs| == |ds|
  {
    var n := |ds| - 1;
    if n < 0 then [] else RecordedOf(vs[..n], ds[..n]) + if Took(ds[n]) then [vs[n]] else []
  }

  function RangesOf(ds: seq<Decision>): seq<Range> {
    var n := |ds| - 1;
    if n < 0 then [] else
      RangesOf(ds[..n]) + if Took(ds[n]) then [Range(ds[n].first, ds[n].first + ds[n].taken)] else []
  }

  function CountIn(rs: seq<Range>, x: nat): nat {
    var n := |rs| - 1;
    if n < 0 then 0 else CountIn(rs[..n], x) + if rs[n].lo <= x < rs[n].hi then 1 else 0
  }

  /** How often the index is jumped over on the way to a playback point. */
  function Jumps(ds: seq<Decision>, x: nat): nat {
    var n := |ds| - 1;
    if n < 0 then 0 else
      Jumps(ds[..n], x) + if ds[n].Decided? && IdxAfter(ds[..n]) <= x < ds[n].first then 1 else 0
  }

  predicate Dropped(d: Decision, x: nat) {
    d.Decided? && d.possible == 0 && d.first <= x < d.first + |d.tentative|
  }

  /** How often the index is skipped with a visit for which the ledger finds nothing possible. */
  function Drops(ds: seq<Decision>, x: nat): nat {
    var n := |ds| - 1;
    if n < 0 then 0 else Drops(ds[..n], x) + if Dropped(ds[n], x) then 1 else 0
  }

  lemma {:induction false} DropCounts(ds: seq<Decision>, k: nat, x: nat)
    requires k < |ds| && Dropped(ds[k], x)
    ensures Drops(ds, x) > 0
  {
    var n := |ds| - 1;
    if k < n {
      DropCounts(ds[..n], k, x);
    }
  }

  lemma {:induction false} NoDrops(ds: seq<Decision>, x: nat)
    requires forall k :: 0 <= k < |ds| ==> !Dropped(ds[k], x)
    ensures Drops(ds, x) == 0
  {
    if ds != [] {
      NoDrops(ds[..|ds| - 1], x);
    }
  }

  /** No segment that fitted is lost exactly when the ledger finds something possible for every visit with any. */
  lemma NothingDroppedExactly(ds: seq<Decision>)
    ensures (forall x: nat :: Drops(ds, x) == 0)
            <==> forall k :: 0 <= k < |ds| && ds[k].Decided? && ds[k].tentative != [] ==> ds[k].possible > 0
  {
    hide Drops;
    if forall k :: 0 <= k < |ds| && ds[k].Decided? && ds[k].tentative != [] ==> ds[k].possible > 0 {
      forall x: nat
        ensures Drops(ds, x) == 0
      {
        NoDrops(ds, x);
      }
    } else {
      var k :| 0 <= k < |ds| && ds[k].Decided? && ds[k].tentative != [] && ds[k].possible == 0;
      DropCounts(ds, k, ds[k].first);
    }
  }

  /** The longest run of segments from an index on whose size stays within the bytes. */
  ghost predicate MostThatFits(segs: seq<Segment>, first: nat, cs: seq<Candidate>, bytes: real) {
    && (cs != [] ==>
          && StandFor(cs, segs, Range(first, first + |cs|))
          && RangeSize(segs, Range(first, first + |cs|)) as real <= bytes)
    && (first + |cs| < |segs| ==> RangeSize(segs, Range(first, first + |cs| + 1)) as real > bytes)
  }

  /** The candidates taken so far, and the bytes left. */
  ghost predicate Filling(segs: seq<Segment>, first: nat, cs: seq<Candidate>, bytes: real, left: real) {
    && (cs != [] ==> left >= 0.0 && first + |cs| <= |segs|)
    && (first + |cs| <= |segs| ==>
          && StandFor(cs, segs, Range(first, first + |cs|))
          && left == bytes - RangeSize(segs, Range(first, first + |cs|)) as real)
  }

  lemma FillingNone(segs: seq<Segment>, first: nat, bytes: real)
    ensures Filling(segs, first, [], bytes, bytes)
  {
  }

  lemma RangeSnoc(segs: seq<Segment>, lo: nat, hi: nat)
    requires lo <= hi < |segs|
    ensures RangeSize(segs, Range(lo, hi + 1)) == RangeSize(segs, Range(lo, hi)) + segs[hi].segmentSize
  {
    assert segs[lo..hi + 1][..hi - lo] == segs[lo..hi];
  }

  lemma FillingSnoc(segs: seq<Segment>, first: nat, cs: seq<Candidate>, bytes: real, left: real, c: Candidate)
    requires Filling(segs, first, cs, bytes, left) && first + |cs| < |segs|
    requires c.segmentId == segs[first + |cs|].segmentId && c.size == segs[first + |cs|].segmentSize
    requires left >= c.size as real
    ensures Filling(segs, first, cs + [c], bytes, left - c.size as real)
  {
    hide RangeSize;
    RangeSnoc(segs, first, first + |cs|);
  }

  lemma FillingEnd(segs: seq<Segment>, first: nat, cs: seq<Candidate>, bytes: real, left: real)
    requires Filling(segs, first, cs, bytes, left)
    requires first + |cs| < |segs| ==> left < segs[first + |cs|].segmentSize as real
    ensures MostThatFits(segs, first, cs, bytes)
  {
    hide RangeSize;
    if first + |cs| < |segs| {
      RangeSnoc(segs, first, first + |cs|);
    }
  }

  /** The visits whose own test passes, in the order of the trajectory. */
  ghost function Effective(routes: Routes, vs: seq<Visit>): seq<Visit> {
    var n := |vs| - 1;
    if n < 0 then [] else
      Effective(routes, vs[..n]) + if Count(routes, OverlapsWith(vs[n])) < MAX_CLIENTS then [vs[n]] else []
  }

  lemma IncreasingSnoc(rs: seq<Range>, r: Range)
    requires Increasing(rs) && forall k :: 0 <= k < |rs| ==> rs[k].lo < rs[k].hi
    requires rs != [] ==> rs[|rs| - 1].hi <= r.lo
    ensures Increasing(rs + [r])
  {
    forall a | 0 <= a < |rs|
      ensures rs[a].hi <= r.lo
    {
      assert a < |rs| - 1 ==> rs[a].hi <= rs[|rs| - 1].lo;
    }
  }

  lemma DistinctSnoc(vs: seq<Visit>, v: Visit)
    requires DistinctNodes(vs) && !Recorded(vs, v.nodeId)
    ensures DistinctNodes(vs + [v])
  {
    NotRecorded(vs, v.nodeId);
  }

  lemma OnlySnoc(recorded: seq<Visit>, assignments: map<string, seq<Candidate>>, v: Visit, cs: seq<Candidate>)
    requires OnlyRecorded(recorded, assignments)
    ensures OnlyRecorded(recorded + [v], assignments[v.nodeId := cs])
  {
    var vs, all := recorded + [v], assignments[v.nodeId := cs];
    forall n | n in all && !Recorded(vs, n)
      ensures all[n] == []
    {
      RecordedSnoc(recorded, v, n);
    }
  }

  lemma NotRecorded(vs: seq<Visit>, name: string)
    requires !Recorded(vs, name)
    ensures forall k :: 0 <= k < |vs| ==> vs[k].nodeId != name
  {
  }

  lemma RecordedSnoc(vs: seq<Visit>, v: Visit, name: string)
    ensures Recorded(vs + [v], name) <==> Recorded(vs, name) || v.nodeId == name
  {
    var all := vs + [v];
    assert all[|vs|] == v;
    if Recorded(vs, name) {
      var k :| 0 <= k < |vs| && vs[k].nodeId == name;
      assert all[k] == vs[k];
    }
  }

  predicate WasContacted(contacted: map<string, set<int>>, name: string, token: int) {
    name in contacted && token in contacted[name]
  }

  /** Every recorded visit is at a node with a ledger, whose edge has answered for the route. */
  ghost predicate RoutesOk(routes: Routes, contacted: map<string, set<int>>, nodes: set<string>) {
    forall t, k :: t in routes && 0 <= k < |routes[t]| ==>
      routes[t][k].nodeId in nodes && WasContacted(contacted, routes[t][k].nodeId, t)
  }

  lemma RouteKnown(routes: Routes, contacted: map<string, set<int>>, nodes: set<string>, token: int, k: nat)
    requires RoutesOk(routes, contacted, nodes) && token in routes && k < |routes[token]|
    ensures routes[token][k].nodeId in nodes && WasContacted(contacted, routes[token][k].nodeId, token)
  {
  }

  lemma RoutesMore(routes: Routes, before: map<string, set<int>>, name: string, token: int, nodes: set<string>)
    requires RoutesOk(routes, before, nodes)
    ensures RoutesOk(routes, Contact(before, name, token), nodes)
  {
  }

  lemma RoutesReset(routes: Routes, contacted: map<string, set<int>>, token: int, nodes: set<string>)
    requires RoutesOk(routes, contacted, nodes)
    ensures RoutesOk(routes[token := []], contacted, nodes)
  {
  }

  /** The edge is asked only when something is possible, and answers a route with segments at most once. */
  ghost predicate Answered(before: map<string, set<int>>, after: map<string, set<int>>, name: string, token: int,
      d: Decision)
    requires d.Decided?
  {
    && after == (if d.possible == 0 then before else Contact(before, name, token))
    && (WasContacted(before, name, token) ==> d.taken == 0)
    && d.taken <= d.possible
  }

  lemma RoutesRecord(routes: Routes, before: map<string, set<int>>, after: map<string, set<int>>, token: int,
      v: Visit, d: Decision, nodes: set<string>)
    requires RoutesOk(routes, after, nodes) && token in routes && v.nodeId in nodes
    requires Took(d) && Answered(before, after, v.nodeId, token, d)
    ensures RoutesOk(routes[token := routes[token] + [v]], after, nodes)
  {
  }

  function Contact(contacted: map<string, set<int>>, name: string, token: int): (c: map<string, set<int>>)
    ensures forall n, t :: WasContacted(c, n, t) <==> WasContacted(contacted, n, t) || (n == name && t == token)
  {
    contacted[name := (if name in contacted then contacted[name] else {}) + {token}]
  }

  lemma ContactAgain(contacted: map<string, set<int>>, name: string, token: int)
    requires WasContacted(contacted, name, token)
    ensures Contact(contacted, name, token) == contacted
  {
    assert contacted[name] + {token} == contacted[name];
  }

  ghost predicate IsNew(ledger: Node, speeds: DownloadLedger.Speeds)
    reads ledger
  {
    ledger.speeds == speeds && ledger.Abs() == DownloadLedger.EMPTY
  }

  method NewLedgers(nodeIds: set<string>, downloadSources: map<string, DownloadLedger.Speeds>)
      returns (ledgers: map<string, Node>)
    requires nodeIds <= downloadSources.Keys
    ensures ledgers.Keys == nodeIds
    ensures forall n :: n in nodeIds ==>
              fresh(ledgers[n]) && IsNew(ledgers[n], downloadSources[n]) && DownloadLedger.Inv(ledgers[n].Abs())
  {
    ledgers := map[];
    var todo := nodeIds;
    while todo != {}
      invariant todo <= nodeIds && ledgers.Keys == nodeIds - todo
      invariant forall n :: n in ledgers ==>
                  fresh(ledgers[n]) && IsNew(ledgers[n], downloadSources[n])
      decreases |todo|
    {
      var n := AnyOf(todo);
      var ledger := new DownloadLedger.EdgeDownloadAssignment(downloadSources[n]);
      ledgers, todo := ledgers[n := ledger], todo - {n};
    }
  }

  /** What an edge answered to an offer for a route. */
  datatype Answer = Answer(node: string, token: int, committed: seq<string>)

  /** The answers behind these decisions: an edge is asked when something is possible, and took what it answered. */
  function AnswersOf(vs: seq<Visit>, ds: seq<Decision>, token: int): seq<Answer>
    requires |vs| == |ds|
  {
    var n := |ds| - 1;
    if n < 0 then [] else AnswersOf(vs[..n], ds[..n], token) + AnswerOf(vs[n], ds[n], token)
  }

  function AnswerOf(v: Visit, d: Decision, token: int): seq<Answer> {
    if d.Decided? && d.possible > 0 && d.taken <= |d.tentative| then
      [Answer(v.nodeId, token, CandidateIds(d.tentative[..d.taken]))]
    else []
  }

  lemma AnswersSnoc(vs: seq<Visit>, ds: seq<Decision>, v: Visit, d: Decision, token: int)
    requires |vs| == |ds|
    ensures AnswersOf(vs + [v], ds + [d], token) == AnswersOf(vs, ds, token) + AnswerOf(v, d, token)
  {
    assert (vs + [v])[..|vs|] == vs && (ds + [d])[..|ds|] == ds;
  }

  lemma NotAsked(vs: seq<Visit>, ds: seq<Decision>, v: Visit, token: int)
    requires |vs| == |ds|
    ensures AnswersOf(vs + [v], ds + [NoModel], token) == AnswersOf(vs, ds, token)
  {
    AnswersSnoc(vs, ds, v, NoModel, token);
  }

  class DownloadManager {
    const mmWaveModels: map<string, Model>
    const distances: map<string, seq<real>>
    const edgeNodeAssignments: map<string, Node>
    const defaultSource: string
    var routeInfos: Routes
    /** The routes each edge has answered for: what HandleAddRoute keeps on its side. */
    var contacted: map<string, set<int>>
    /** All that the edges answered, in order. */
    ghost var answers: seq<Answer>

    ghost predicate ModelsOk() {
      && mmWaveModels.Keys <= edgeNodeAssignments.Keys
      && mmWaveModels.Keys <= distances.Keys
      && forall n :: n in mmWaveModels ==>
           && IsDistances(mmWaveModels[n], distances[n]) && distances[n] != []
           && defaultSource in edgeNodeAssignments[n].speeds && edgeNodeAssignments[n].speeds[defaultSource] > 0.0
    }

    ghost predicate Valid()
      reads this, edgeNodeAssignments.Values
    {
      && ModelsOk()
      && (forall n :: n in edgeNodeAssignments ==> DownloadLedger.Inv(edgeNodeAssignments[n].Abs()))
      && RoutesOk(routeInfos, contacted, edgeNodeAssignments.Keys)
    }

    /** As in the source, one ledger for each node, and no route yet. */
    constructor (nodeIds: set<string>, downloadSources: map<string, DownloadLedger.Speeds>, models: map<string, Model>,
                 distances: map<string, seq<real>>, defaultSource: string)
      requires models.Keys <= nodeIds <= downloadSources.Keys && models.Keys <= distances.Keys
      requires forall n :: n in models ==>
                 && IsDistances(models[n], distances[n]) && distances[n] != []
                 && defaultSource in downloadSources[n] && downloadSources[n][defaultSource] > 0.0
      ensures Valid() && routeInfos == map[] && contacted == map[] && answers == []
      ensures mmWaveModels == models && edgeNodeAssignments.Keys == nodeIds
      ensures forall n :: n in nodeIds ==>
                && fresh(edgeNodeAssignments[n]) && edgeNodeAssignments[n].speeds == downloadSources[n]
                && edgeNodeAssignments[n].Abs() == DownloadLedger.EMPTY
    {
      hide DownloadLedger.Inv, IsDistances;
      var ledgers := NewLedgers(nodeIds, downloadSources);
      mmWaveModels, this.distances, this.defaultSource := models, distances, defaultSource;
      edgeNodeAssignments := ledgers;
      routeInfos, contacted, answers := map[], map[], [];
    }

    /** What the visit's node can deliver during the visit. */
    ghost function BytesOf(v: Visit): real
      requires ModelsOk() && v.nodeId in mmWaveModels
    {
      EstimatedBytes(mmWaveModels[v.nodeId], distances[v.nodeId], v.contactPoints)
    }

    /** One recorded visit: a range in the video, not before playback, within the visit's bytes, and its candidates. */
    ghost predicate GoodVisit(segs: seq<Segment>, start: real, v: Visit, r: Range, cs: seq<Candidate>)
      requires ModelsOk()
    {
      && v.nodeId in mmWaveModels
      && r.lo < r.hi <= |segs|
      && v.arrivalTime - start < r.lo as real + 1.0
      && RangeSize(segs, r) as real <= BytesOf(v)
      && StandFor(cs, segs, r)
    }

    /** Each recorded visit has its range and its list of candidates. */
    ghost predicate Aligned(segs: seq<Segment>, start: real, recorded: seq<Visit>, ranges: seq<Range>,
                            assignments: map<string, seq<Candidate>>)
      requires ModelsOk()
    {
      && |ranges| == |recorded|
      && forall k :: 0 <= k < |recorded| ==>
           recorded[k].nodeId in assignments
           && GoodVisit(segs, start, recorded[k], ranges[k], assignments[recorded[k].nodeId])
    }

    /** What a request's plan promises: good visits, increasing ranges, one visit a node, nothing elsewhere. */
    ghost predicate GoodPlan(segs: seq<Segment>, start: real, recorded: seq<Visit>, ranges: seq<Range>,
                             assignments: map<string, seq<Candidate>>)
      requires ModelsOk()
    {
      && Aligned(segs, start, recorded, ranges, assignments)
      && Increasing(ranges)
      && DistinctNodes(recorded)
      && OnlyRecorded(recorded, assignments)
    }

    /** One visit decided as its bytes allow, from the index so far or the playback point if that is later. */
    ghost predicate RightDecision(segs: seq<Segment>, start: real, v: Visit, idx: nat, d: Decision)
      requires ModelsOk()
    {
      match d
      case NoModel => v.nodeId !in mmWaveModels
      case Decided(first, tentative, possible, taken) =>
        && v.nodeId in mmWaveModels && idx != |segs|
        && BeginsAt(v, start, idx, first)
        && MostThatFits(segs, first, tentative, BytesOf(v))
        && taken <= possible <= |tentative|
    }

    /** The visits decided in order, each from where the one before left the index. */
    ghost predicate Follows(segs: seq<Segment>, start: real, vs: seq<Visit>, ds: seq<Decision>)
      requires ModelsOk()
      decreases |ds|
    {
      var n := |ds| - 1;
      && |vs| == |ds|
      && (n >= 0 ==>
            && Follows(segs, start, vs[..n], ds[..n])
            && RightDecision(segs, start, vs[n], IdxAfter(ds[..n]), ds[n]))
    }

    lemma FollowsSnoc(segs: seq<Segment>, start: real, vs: seq<Visit>, ds: seq<Decision>, v: Visit, d: Decision)
      requires ModelsOk() && Follows(segs, start, vs, ds) && RightDecision(segs, start, v, IdxAfter(ds), d)
      ensures Follows(segs, start, vs + [v], ds + [d])
      ensures IdxAfter(ds + [d]) == NextIdx(IdxAfter(ds), d)
      ensures RecordedOf(vs + [v], ds + [d]) == if Took(d) then RecordedOf(vs, ds) + [v] else RecordedOf(vs, ds)
      ensures RangesOf(ds + [d]) == if Took(d) then RangesOf(ds) + [Range(d.first, d.first + d.taken)] else RangesOf(ds)
    {
      hide RightDecision, NextIdx, Took, ModelsOk, IdxAfter, RecordedOf, RangesOf;
      assert (vs + [v])[..|vs|] == vs && (ds + [d])[..|ds|] == ds;
      TrailSnoc(vs, ds, v, d);
    }

    lemma TrailSnoc(vs: seq<Visit>, ds: seq<Decision>, v: Visit, d: Decision)
      requires |vs| == |ds|
      ensures IdxAfter(ds + [d]) == NextIdx(IdxAfter(ds), d)
      ensures RecordedOf(vs + [v], ds + [d]) == if Took(d) then RecordedOf(vs, ds) + [v] else RecordedOf(vs, ds)
      ensures RangesOf(ds + [d]) == if Took(d) then RangesOf(ds) + [Range(d.first, d.first + d.taken)] else RangesOf(ds)
    {
      hide NextIdx;
      assert (vs + [v])[..|vs|] == vs && (ds + [d])[..|ds|] == ds;
      assert RecordedOf(vs, ds) + [] == RecordedOf(vs, ds) && RangesOf(ds) + [] == RangesOf(ds);
    }

    /**
      The visits tile what they pass over: every index below the last one
      reached is assigned once, jumped over once, or dropped once, and no
      index is met twice.
     */
    lemma {:induction false} Tiling(segs: seq<Segment>, start: real, vs: seq<Visit>, ds: seq<Decision>, x: nat)
      requires ModelsOk() && Follows(segs, start, vs, ds)
      ensures CountIn(RangesOf(ds), x) + Jumps(ds, x) + Drops(ds, x) == if x < IdxAfter(ds) then 1 else 0
      ensures Drops(ds, x) > 0 ==> x < |segs|
      decreases |ds|
    {
      hide *;
      NoTiles(x);
      var n := |ds| - 1;
      if n >= 0 {
        FollowsParts(segs, start, vs, ds);
        Tiling(segs, start, vs[..n], ds[..n], x);
        RangesSnoc(ds, x);
        TilesSnoc(ds, x);
        TileOnce(segs, start, vs[n], IdxAfter(ds[..n]), ds[n], x);
      } else {
        assert ds == [];
      }
    }

    lemma NoTiles(x: nat)
      ensures CountIn(RangesOf([]), x) == Jumps([], x) == Drops([], x) == 0 && IdxAfter([]) == 0
    {
    }

    lemma FollowsParts(segs: seq<Segment>, start: real, vs: seq<Visit>, ds: seq<Decision>)
      requires ModelsOk() && Follows(segs, start, vs, ds) && ds != []
      ensures var n := |ds| - 1;
              && |vs| == |ds|
              && Follows(segs, start, vs[..n], ds[..n])
              && RightDecision(segs, start, vs[n], IdxAfter(ds[..n]), ds[n])
    {
      hide RightDecision;
    }

    lemma TilesSnoc(ds: seq<Decision>, x: nat)
      requires ds != []
      ensures var n := |ds| - 1;
              var idx, d := IdxAfter(ds[..n]), ds[n];
              && Jumps(ds, x) == Jumps(ds[..n], x) + (if d.Decided? && idx <= x < d.first then 1 else 0)
              && Drops(ds, x) == Drops(ds[..n], x) + (if Dropped(d, x) then 1 else 0)
              && IdxAfter(ds) == NextIdx(idx, d)
    {
      hide NextIdx, Dropped;
    }

    /** One visit passes over exactly the indices from where it begins to where it leaves, each in one way. */
    lemma TileOnce(segs: seq<Segment>, start: real, v: Visit, idx: nat, d: Decision, x: nat)
      requires ModelsOk() && RightDecision(segs, start, v, idx, d)
      ensures (if Took(d) && d.first <= x < d.first + d.taken then 1 else 0)
              + (if d.Decided? && idx <= x < d.first then 1 else 0)
              + (if Dropped(d, x) then 1 else 0)
              == if idx <= x < NextIdx(idx, d) then 1 else 0
      ensures idx <= NextIdx(idx, d) && (Dropped(d, x) ==> x < |segs|)
    {
      hide BytesOf, RangeSize, ModelsOk;
    }

    lemma RangesSnoc(ds: seq<Decision>, x: nat)
      requires ds != []
      ensures var n := |ds| - 1;
              CountIn(RangesOf(ds), x)
              == CountIn(RangesOf(ds[..n]), x)
                 + if Took(ds[n]) && ds[n].first <= x < ds[n].first + ds[n].taken then 1 else 0
    {
      var n := |ds| - 1;
      var before := RangesOf(ds[..n]);
      if Took(ds[n]) {
        assert (before + [Range(ds[n].first, ds[n].first + ds[n].taken)])[..|before|] == before;
      }
      assert before + [] == before;
    }

    /** A visit that was given segments is a good one. */
    lemma DecisionGood(segs: seq<Segment>, start: real, v: Visit, idx: nat, d: Decision)
      requires ModelsOk() && RightDecision(segs, start, v, idx, d) && Took(d)
      ensures idx <= d.first && NextIdx(idx, d) == d.first + d.taken
      ensures GoodVisit(segs, start, v, Range(d.first, d.first + d.taken), d.tentative[..d.taken])
    {
      PrefixStands(segs, d.tentative, Range(d.first, d.first + |d.tentative|), d.taken);
    }

    lemma AlignedSnoc(segs: seq<Segment>, start: real, recorded: seq<Visit>, ranges: seq<Range>,
                      assignments: map<string, seq<Candidate>>, v: Visit, r: Range, cs: seq<Candidate>)
      requires ModelsOk() && Aligned(segs, start, recorded, ranges, assignments)
      requires GoodVisit(segs, start, v, r, cs) && !Recorded(recorded, v.nodeId)
      ensures Aligned(segs, start, recorded + [v], ranges + [r], assignments[v.nodeId := cs])
    {
      NotRecorded(recorded, v.nodeId);
      hide GoodVisit, ModelsOk, Recorded;
      var vs, rs := recorded + [v], ranges + [r];
      assert forall k :: 0 <= k < |recorded| ==> vs[k] == recorded[k] && rs[k] == ranges[k];
    }

    /** A new visit, after the ranges so far and on a node not yet recorded, extends the plan. */
    lemma PlanSnoc(segs: seq<Segment>, start: real, recorded: seq<Visit>, ranges: seq<Range>,
                   assignments: map<string, seq<Candidate>>, v: Visit, r: Range, cs: seq<Candidate>)
      requires ModelsOk() && GoodPlan(segs, start, recorded, ranges, assignments)
      requires GoodVisit(segs, start, v, r, cs) && v.nodeId in assignments && !Recorded(recorded, v.nodeId)
      requires ranges != [] ==> ranges[|ranges| - 1].hi <= r.lo
      ensures GoodPlan(segs, start, recorded + [v], ranges + [r], assignments[v.nodeId := cs])
    {
      assert forall k :: 0 <= k < |ranges| ==> ranges[k].lo < ranges[k].hi;
      AlignedSnoc(segs, start, recorded, ranges, assignments, v, r, cs);
      IncreasingSnoc(ranges, r);
      DistinctSnoc(recorded, v);
      OnlySnoc(recorded, assignments, v, cs);
      hide GoodVisit, ModelsOk, Increasing, Recorded, Aligned, DistinctNodes, OnlyRecorded;
    }

    /** The overlap test, over tracked visits of every node and route. */
    method HasOverlap(v: Visit) returns (overlap: bool)
      ensures overlap <==> |Clashes(routeInfos, v)| >= MAX_CLIENTS
      ensures overlap <==> Count(routeInfos, OverlapsWith(v)) >= MAX_CLIENTS
    {
      hide Count, CountIf, OverlapsWith, Clashes;
      CountIsClashes(routeInfos, v);
      ghost var p := OverlapsWith(v);
      ghost var seen: Routes := map[];
      var count: nat := 0;
      var todo := routeInfos.Keys;
      CountNothing(p);
      while todo != {}
        invariant todo <= routeInfos.Keys && seen == routeInfos - todo
        invariant count == Count(seen, p) && count < MAX_CLIENTS
        decreases |todo|
      {
        var route := AnyOf(todo);
        var nodes := routeInfos[route];
        Seen(routeInfos, todo, route);
        SubtractSubMap(routeInfos, todo - {route});
        CountAdd(seen, route, nodes, p);
        overlap, count := CountOverlaps(v, nodes, count);
        if overlap {
          CountOfSome(routeInfos, seen[route := nodes], p);
          return;
        }
        todo, seen := todo - {route}, seen[route := nodes];
      }
      assert seen == routeInfos;
      return false;
    }

    /** Counts on over one route's visits, and stops at the bound. */
    method CountOverlaps(v: Visit, nodes: seq<Visit>, before: nat) returns (full: bool, count: nat)
      requires before < MAX_CLIENTS
      ensures full <==> before + CountIf(nodes, OverlapsWith(v)) >= MAX_CLIENTS
      ensures !full ==> count == before + CountIf(nodes, OverlapsWith(v)) < MAX_CLIENTS
    {
      ghost var p := OverlapsWith(v);
      count := before;
      for i := 0 to |nodes|
        invariant count == before + CountIf(nodes[..i], p) && count < MAX_CLIENTS
      {
        assert nodes[..i + 1][..i] == nodes[..i];
        if Overlap(v, nodes[i]) {
          count := count + 1;
          if count >= MAX_CLIENTS {
            CountIfPrefix(nodes, i + 1, p);
            return true, count;
          }
        }
      }
      assert nodes[..|nodes|] == nodes;
      full := false;
    }

    /** The visits that pass the overlap test, all tested before any is recorded. */
    method EffectiveNodes(nodeInfos: seq<Visit>) returns (order: seq<Visit>)
      ensures Keeps(order, nodeInfos, Unclashed(routeInfos, nodeInfos))
      ensures order == Effective(routeInfos, nodeInfos)
    {
      hide Count, OverlapsWith, Keeps, Unclashed;
      EffectiveExactly(routeInfos, nodeInfos);
      order := [];
      for i := 0 to |nodeInfos|
        invariant order == Effective(routeInfos, nodeInfos[..i])
      {
        assert nodeInfos[..i + 1][..i] == nodeInfos[..i];
        var overlap := HasOverlap(nodeInfos[i]);
        if !overlap {
          order := order + [nodeInfos[i]];
        }
      }
      assert nodeInfos[..|nodeInfos|] == nodeInfos;
    }

    /** Some source the edge's ledger has a speed for: the default or another edge. */
    method FindSource(name: string) returns (source: string)
      requires ModelsOk() && name in mmWaveModels
      ensures source in edgeNodeAssignments[name].speeds && edgeNodeAssignments[name].speeds[source] > 0.0
    {
      source := defaultSource;
      var other := AnyOf(edgeNodeAssignments[name].speeds.Keys);
      if * {
        if edgeNodeAssignments[name].speeds[other] > 0.0 {
          source := other;
        }
      }
    }

    /** As many segments from idx on as the visit's bytes allow. */
    method TakeTentative(v: Visit, segs: seq<Segment>, idx: nat, bytes: real) returns (cs: seq<Candidate>)
      requires ModelsOk() && v.nodeId in mmWaveModels
      ensures DownloadLedger.AllTimed(edgeNodeAssignments[v.nodeId].speeds, cs)
      ensures MostThatFits(segs, idx, cs, bytes)
      ensures forall k :: 0 <= k < |cs| ==> cs[k].arrivalTime == v.arrivalTime && cs[k].contactTime == v.contactTime
    {
      hide StandFor, RangeSize;
      cs := [];
      FillingNone(segs, idx, bytes);
      var left, at := bytes, idx;
      while at < |segs|
        invariant at == idx + |cs| && Filling(segs, idx, cs, bytes, left)
        invariant DownloadLedger.AllTimed(edgeNodeAssignments[v.nodeId].speeds, cs)
        invariant forall k :: 0 <= k < |cs| ==>
                    cs[k].arrivalTime == v.arrivalTime && cs[k].contactTime == v.contactTime
      {
        if left < segs[at].segmentSize as real {
          break;
        }
        var source := FindSource(v.nodeId);
        var c := DownloadLedger.Candidate(segs[at].segmentId, segs[at].segmentSize, source, v.arrivalTime,
            v.contactTime);
        FillingSnoc(segs, idx, cs, bytes, left, c);
        DownloadLedger.TotalTimeSnoc(edgeNodeAssignments[v.nodeId].speeds, cs, c);
        cs := cs + [c];
        left := left - segs[at].segmentSize as real;
        at := at + 1;
      }
      FillingEnd(segs, idx, cs, bytes, left);
    }

    /** Commits what the edge accepted to the ledger, which takes what its link still allows. */
    method CommitToLedger(ledger: Node, accepted: seq<Candidate>, timestamp: real) returns (agreed: seq<Candidate>)
      requires DownloadLedger.AllTimed(ledger.speeds, accepted) && DownloadLedger.Inv(ledger.Abs())
      modifies ledger
      ensures DownloadLedger.Inv(ledger.Abs())
      ensures agreed == DownloadLedger.CounterAccepts(ledger.speeds, old(ledger.maxDlcTime), accepted)
      ensures ledger.maxDlcTime == old(ledger.maxDlcTime) + DownloadLedger.TotalTime(ledger.speeds, agreed)
    {
      hide DownloadLedger.SegmentTime, DownloadLedger.Add, DownloadLedger.Accepts, DownloadLedger.TimeTo;
      agreed := [];
      DownloadLedger.CounterNone(ledger.speeds, ledger.maxDlcTime);
      for i := 0 to |accepted|
        invariant DownloadLedger.Inv(ledger.Abs())
        invariant agreed == DownloadLedger.CounterAccepts(ledger.speeds, old(ledger.maxDlcTime), accepted[..i])
        invariant ledger.maxDlcTime == old(ledger.maxDlcTime) + DownloadLedger.TotalTime(ledger.speeds, agreed)
      {
        assert accepted[..i + 1][..i] == accepted[..i];
        DownloadLedger.TotalTimeSnoc(ledger.speeds, agreed, accepted[i]);
        DownloadLedger.AddInv(ledger.speeds, ledger.Abs(), accepted[i], timestamp);
        var success := ledger.AddCandidate(accepted[i], timestamp);
        if success {
          agreed := agreed + [accepted[i]];
        }
      }
      assert accepted[..|accepted|] == accepted;
    }

    /** The edge's answer: EdgeReply is what HandleAddRoute of the metadata manager guarantees. */
    method SendAssignments(name: string, offered: seq<string>, token: int) returns (committed: seq<string>)
      modifies this`contacted, this`answers
      ensures EdgeReply(offered, WasContacted(old(contacted), name, token), committed)
      ensures contacted == Contact(old(contacted), name, token)
      ensures answers == old(answers) + [Answer(name, token, committed)]
    {
      var n: nat := 0;
      if !WasContacted(contacted, name, token) {
        n :| n <= |offered|;
      }
      contacted := Contact(contacted, name, token);
      committed := offered[..n];
      answers := answers + [Answer(name, token, committed)];
    }

    /**
      One visit of the plan: what its bytes allow, what the ledger thinks
      possible, what the edge commits.
     */
    method PlanVisit(v: Visit, start: real, segs: seq<Segment>, token: int, timestamp: real, idx: nat)
        returns (next: nat, cs: seq<Candidate>, ghost d: Decision)
      requires Valid() && v.nodeId in mmWaveModels && idx != |segs|
      modifies this`contacted, this`answers, edgeNodeAssignments.Values
      ensures Valid() && Spent(v, old(edgeNodeAssignments[v.nodeId].maxDlcTime), cs)
      ensures d.Decided? && RightDecision(segs, start, v, idx, d)
      ensures next == NextIdx(idx, d) && |cs| == d.taken <= |d.tentative| && cs == d.tentative[..d.taken]
      ensures AllOfferedTimed(v, d) && d.possible == old(Offerable(v, d))
      ensures Answered(old(contacted), contacted, v.nodeId, token, d)
      ensures answers == old(answers) + AnswerOf(v, d, token)
    {
      hide TotalSize, GetModelDist, MostThatFits, DownloadLedger.AllTimed, DownloadLedger.Inv, IsDistances, RoutesOk,
          Spent,
           RightDecision, Answered, WasContacted, BeginsAt;
      next := StartIdx(v, start, idx);
      ghost var first := next;
      var bytes := GetDownloadBytes(mmWaveModels[v.nodeId], distances[v.nodeId], v.contactPoints);
      var tentative := TakeTentative(v, segs, next, bytes);
      if |tentative| == 0 {
        SpentNothing(v);
        d := Decided(next, tentative, 0, 0);
        DecisionRight(segs, start, v, idx, d, contacted, contacted, token);
        return next, [], d;
      }
      var kept;
      ghost var p;
      cs, kept, p := AskNode(v, tentative, token, timestamp);
      d := Decided(next, tentative, p, |cs|);
      next := next + kept;
      DecisionRight(segs, start, v, idx, d, old(contacted), contacted, token);
    }

    /** From the index so far, or the playback point if that is later. */
    method StartIdx(v: Visit, start: real, idx: nat) returns (next: nat)
      ensures BeginsAt(v, start, idx, next)
    {
      next := idx;
      if next < Playback(v, start) {
        next := Playback(v, start);
      }
    }

    lemma DecisionRight(segs: seq<Segment>, start: real, v: Visit, idx: nat, d: Decision,
                        before: map<string, set<int>>, after: map<string, set<int>>, token: int)
      requires ModelsOk() && v.nodeId in mmWaveModels && idx != |segs| && d.Decided?
      requires BeginsAt(v, start, idx, d.first)
      requires MostThatFits(segs, d.first, d.tentative, BytesOf(v)) && d.taken <= d.possible <= |d.tentative|
      requires after == if d.possible == 0 then before else Contact(before, v.nodeId, token)
      requires WasContacted(before, v.nodeId, token) ==> d.taken == 0
      ensures RightDecision(segs, start, v, idx, d) && Answered(before, after, v.nodeId, token, d)
    {
    }

    /** The node's link is taken for those of the segments that its ledger still accepts. */
    ghost predicate Spent(v: Visit, before: real, cs: seq<Candidate>)
      requires ModelsOk() && v.nodeId in mmWaveModels
      reads edgeNodeAssignments.Values
    {
      var ledger := edgeNodeAssignments[v.nodeId];
      && DownloadLedger.AllTimed(ledger.speeds, cs)
      && ledger.maxDlcTime == before
           + DownloadLedger.TotalTime(ledger.speeds, DownloadLedger.CounterAccepts(ledger.speeds, before, cs))
    }

    lemma HasLedger(name: string)
      requires ModelsOk() && name in mmWaveModels
      ensures name in edgeNodeAssignments
    {
    }

    lemma SpentNothing(v: Visit)
      requires ModelsOk() && v.nodeId in mmWaveModels
      ensures Spent(v, edgeNodeAssignments[v.nodeId].maxDlcTime, [])
    {
    }

    /** How many of the tentative candidates the node's ledger thinks possible. */
    ghost function Offerable(v: Visit, d: Decision): nat
      requires ModelsOk() && v.nodeId in mmWaveModels && d.Decided? && AllOfferedTimed(v, d)
      reads edgeNodeAssignments.Values
    {
      var ledger := edgeNodeAssignments[v.nodeId];
      |DownloadLedger.Possible(ledger.speeds, ledger.Abs(), v.arrivalTime, d.tentative)|
    }

    ghost predicate AllOfferedTimed(v: Visit, d: Decision)
      requires ModelsOk() && v.nodeId in mmWaveModels && d.Decided?
    {
      DownloadLedger.AllTimed(edgeNodeAssignments[v.nodeId].speeds, d.tentative)
    }

    /**
      Offers the tentative candidates: first to the ledger, then to the edge.
      Segments not committed are given back, except when the ledger finds none
      possible: then all of them stay skipped.
     */
    method AskNode(v: Visit, tentative: seq<Candidate>, token: int, timestamp: real)
        returns (cs: seq<Candidate>, kept: nat, ghost p: nat)
      requires Valid() && v.nodeId in mmWaveModels
      requires DownloadLedger.AllTimed(edgeNodeAssignments[v.nodeId].speeds, tentative)
      modifies this`contacted, this`answers, edgeNodeAssignments[v.nodeId]
      ensures Valid() && Spent(v, old(edgeNodeAssignments[v.nodeId].maxDlcTime), cs)
      ensures p == |old(DownloadLedger.Possible(edgeNodeAssignments[v.nodeId].speeds,
          edgeNodeAssignments[v.nodeId].Abs(), v.arrivalTime, tentative))|
      ensures |cs| <= p <= |tentative| && cs == tentative[..|cs|]
      ensures kept == if p == 0 then |tentative| else |cs|
      ensures contacted == if p == 0 then old(contacted) else Contact(old(contacted), v.nodeId, token)
      ensures WasContacted(old(contacted), v.nodeId, token) ==> cs == []
      ensures answers == old(answers) + if p == 0 then [] else [Answer(v.nodeId, token, CandidateIds(cs))]
    {
      hide DownloadLedger.SegmentTime, DownloadLedger.Inv, DownloadLedger.Possible, DownloadLedger.Add, WasContacted,
          DownloadLedger.CounterAccepts, DownloadLedger.TimeTo, IsDistances, RoutesOk;
      SpentNothing(v);
      RoutesMore(routeInfos, contacted, v.nodeId, token, edgeNodeAssignments.Keys);
      var ledger := edgeNodeAssignments[v.nodeId];
      var possible := ledger.IsDownloadPossible(v.arrivalTime, tentative);
      if |possible| == 0 {
        return [], |tentative|, 0;
      }
      p := |possible|;
      var committed := SendAssignments(v.nodeId, CandidateIds(possible), token);
      var n := |committed|;
      assert CandidateIds(possible[..n]) == committed;
      if n == 0 {
        return [], 0, p;
      }
      cs, kept := possible[..n], n;
      assert cs == tentative[..n];
      var agreed := CommitToLedger(ledger, cs, timestamp);
    }

    /** Records a visit that was given segments. */
    method Record(v: Visit, cs: seq<Candidate>, assignments: map<string, seq<Candidate>>, token: int,
                  ghost before: map<string, set<int>>, ghost d: Decision) returns (now: map<string, seq<Candidate>>)
      requires Valid() && token in routeInfos && v.nodeId in mmWaveModels
      requires d.Decided? && |cs| == d.taken && Answered(before, contacted, v.nodeId, token, d)
      modifies this`routeInfos
      ensures Valid()
      ensures now == if |cs| > 0 then assignments[v.nodeId := cs] else assignments
      ensures routeInfos == if |cs| > 0 then old(routeInfos)[token := old(routeInfos)[token] + [v]] else old(routeInfos)
    {
      now := assignments;
      if |cs| > 0 {
        HasLedger(v.nodeId);
        hide ModelsOk, RoutesOk, Answered, DownloadLedger.Inv;
        RoutesRecord(routeInfos, before, contacted, token, v, d, edgeNodeAssignments.Keys);
        now := assignments[v.nodeId := cs];
        routeInfos := routeInfos[token := routeInfos[token] + [v]];
      }
    }

    /** Decides the visits in turn, from the first segment on, until the segments run out. */
    method DecideInOrder(order: seq<Visit>, lists: map<string, seq<Candidate>>, start: real, segs: seq<Segment>,
                         token: int, timestamp: real)
        returns (assignments: map<string, seq<Candidate>>, ghost trail: seq<Decision>)
      requires Valid() && token in routeInfos && routeInfos[token] == []
      requires HasLists(mmWaveModels.Keys, order, lists) && forall n :: n in lists ==> lists[n] == []
      modifies this`routeInfos, this`contacted, this`answers, edgeNodeAssignments.Values
      ensures Valid()
      ensures |trail| <= |order| && Follows(segs, start, order[..|trail|], trail)
      ensures |trail| < |order| ==> IdxAfter(trail) == |segs| && order[|trail|].nodeId in mmWaveModels
      ensures routeInfos == old(routeInfos)[token := RecordedOf(order[..|trail|], trail)]
      ensures answers == old(answers) + AnswersOf(order[..|trail|], trail, token)
      ensures GoodPlan(segs, start, RecordedOf(order[..|trail|], trail), RangesOf(trail), assignments)
      ensures assignments.Keys == lists.Keys
    {
      hide GoodPlan, GoodVisit, IsDistances, HasLists, ModelsOk, MostThatFits, Answered, TotalSize, Offerable,
          AllOfferedTimed, Spent, DownloadLedger.Inv, RightDecision, RoutesOk, Follows, Planned, IdxAfter, NextIdx,
          RecordedOf, RangesOf, AnswersOf, AnswerOf;
      assignments, trail := lists, [];
      var idx: nat := 0;
      PlanNone(segs, start, order[..0], assignments, contacted, token);
      for i := 0 to |order|
        invariant Valid() && |trail| == i && idx == IdxAfter(trail)
        invariant routeInfos == old(routeInfos)[token := RecordedOf(order[..i], trail)]
        invariant HasLists(mmWaveModels.Keys, order, assignments) && assignments.Keys == lists.Keys
        invariant answers == old(answers) + AnswersOf(order[..i], trail, token)
        invariant Planned(segs, start, order[..i], trail, assignments, contacted, token)
      {
        var node := order[i];
        assert order[..i + 1] == order[..i] + [node];
        ghost var before := contacted;
        ghost var d := NoModel;
        if node.nodeId !in mmWaveModels {
          NotAsked(order[..i], trail, node, token);
          PlannedSkip(segs, start, order[..i], trail, assignments, contacted, token, node);
          trail := trail + [d];
          continue;
        }
        if idx == |segs| {
          break;
        }
        ListsUse(mmWaveModels.Keys, order, assignments, i);
        var cs;
        idx, cs, d := PlanVisit(node, start, segs, token, timestamp, idx);
        AnswersSnoc(order[..i], trail, node, d, token);
        PlannedSnoc(segs, start, order[..i], trail, assignments, before, contacted, token, node, d);
        ListsKept(mmWaveModels.Keys, order, assignments, node.nodeId, cs);
        assignments := Record(node, cs, assignments, token, before, d);
        trail := trail + [d];
      }
      PlannedParts(segs, start, order[..|trail|], trail, assignments, contacted, token);
    }

    /** Plans a whole request and records the visits that were given segments. */
    method GetDownloadAssignment(start: real, segs: seq<Segment>, nodeInfos: seq<Visit>, token: int, timestamp: real)
        returns (order: seq<Visit>, assignments: map<string, seq<Candidate>>, ghost trail: seq<Decision>)
      requires Valid()
      modifies this`routeInfos, this`contacted, this`answers, edgeNodeAssignments.Values
      ensures Valid()
      ensures token in routeInfos && routeInfos == old(routeInfos)[token := routeInfos[token]]
      ensures order == Effective(old(routeInfos)[token := []], nodeInfos)
      ensures Keeps(order, nodeInfos, Unclashed(old(routeInfos)[token := []], nodeInfos))
      ensures |trail| <= |order| && Follows(segs, start, order[..|trail|], trail)
      ensures |trail| < |order| ==> IdxAfter(trail) == |segs| && order[|trail|].nodeId in mmWaveModels
      ensures routeInfos[token] == RecordedOf(order[..|trail|], trail)
      ensures answers == old(answers) + AnswersOf(order[..|trail|], trail, token)
      ensures GoodPlan(segs, start, routeInfos[token], RangesOf(trail), assignments)
      ensures assignments.Keys == Modelled(mmWaveModels.Keys, nodeInfos)
      ensures forall k :: 0 <= k < |routeInfos[token]| ==> Admitted(old(routeInfos), token, routeInfos[token][k])
      ensures OwnDisjoint(nodeInfos) ==> OwnDisjoint(routeInfos[token])
      ensures WithinCapacity(old(routeInfos)) && OwnDisjoint(nodeInfos) ==> WithinCapacity(routeInfos)
    {
      hide GoodPlan, WithinCapacity, OwnDisjoint, Count, OverlapsWith, Effective, IsDistances, HasLists, ModelsOk,
          AllPass, DownloadLedger.Inv, Admitted, RoutesOk, Follows, IdxAfter, RecordedOf, RangesOf, Keeps, Unclashed,
          Modelled, AnswersOf;
      var lists := InitialAssignments(nodeInfos);
      RoutesReset(routeInfos, contacted, token, edgeNodeAssignments.Keys);
      routeInfos := routeInfos[token := []];
      ghost var base := routeInfos;
      order := EffectiveNodes(nodeInfos);
      EffectiveLists(base, nodeInfos, mmWaveModels.Keys, lists);
      assignments, trail := DecideInOrder(order, lists, start, segs, token, timestamp);
      ghost var recorded := RecordedOf(order[..|trail|], trail);
      RecordedPass(base, nodeInfos, order, trail);
      if OwnDisjoint(nodeInfos) {
        RecordedDisjoint(base, nodeInfos, order, trail);
      }
      assert routeInfos == old(routeInfos)[token := recorded];
      PlanAdmitted(old(routeInfos), token, recorded);
      PlanWithin(old(routeInfos), token, nodeInfos, recorded);
    }

    /** The plan so far: decided in order, good, its ranges before the index, its edges asked. */
    ghost predicate Planned(segs: seq<Segment>, start: real, vs: seq<Visit>, ds: seq<Decision>,
                            assignments: map<string, seq<Candidate>>, contacted: map<string, set<int>>, token: int)
      requires ModelsOk()
    {
      && |vs| == |ds|
      && Follows(segs, start, vs, ds)
      && GoodPlan(segs, start, RecordedOf(vs, ds), RangesOf(ds), assignments)
      && (RangesOf(ds) != [] ==> RangesOf(ds)[|RangesOf(ds)| - 1].hi <= IdxAfter(ds))
      && AllContacted(RecordedOf(vs, ds), contacted, token)
    }

    lemma PlannedParts(segs: seq<Segment>, start: real, vs: seq<Visit>, ds: seq<Decision>,
                       assignments: map<string, seq<Candidate>>, contacted: map<string, set<int>>, token: int)
      requires ModelsOk() && Planned(segs, start, vs, ds, assignments, contacted, token)
      ensures Follows(segs, start, vs, ds)
      ensures GoodPlan(segs, start, RecordedOf(vs, ds), RangesOf(ds), assignments)
    {
    }

    lemma NoModelRight(segs: seq<Segment>, start: real, v: Visit, idx: nat)
      requires ModelsOk() && v.nodeId !in mmWaveModels
      ensures RightDecision(segs, start, v, idx, NoModel)
    {
    }

    lemma PlannedSkip(segs: seq<Segment>, start: real, vs: seq<Visit>, ds: seq<Decision>,
                      assignments: map<string, seq<Candidate>>, contacted: map<string, set<int>>, token: int, v: Visit)
      requires ModelsOk() && Planned(segs, start, vs, ds, assignments, contacted, token)
      requires v.nodeId !in mmWaveModels
      ensures Planned(segs, start, vs + [v], ds + [NoModel], assignments, contacted, token)
      ensures IdxAfter(ds + [NoModel]) == IdxAfter(ds)
      ensures RecordedOf(vs + [v], ds + [NoModel]) == RecordedOf(vs, ds)
    {
      hide Follows, GoodPlan, AllContacted, RecordedOf, RangesOf, IdxAfter, RightDecision, ModelsOk;
      NoModelRight(segs, start, v, IdxAfter(ds));
      FollowsSnoc(segs, start, vs, ds, v, NoModel);
    }

    /** One more visit decided keeps the plan. */
    lemma PlannedSnoc(segs: seq<Segment>, start: real, vs: seq<Visit>, ds: seq<Decision>,
                      assignments: map<string, seq<Candidate>>, before: map<string, set<int>>,
      after: map<string, set<int>>,
                      token: int, v: Visit, d: Decision)
      requires ModelsOk() && Planned(segs, start, vs, ds, assignments, before, token)
      requires d.Decided? && RightDecision(segs, start, v, IdxAfter(ds), d)
      requires v.nodeId in assignments && Answered(before, after, v.nodeId, token, d)
      ensures IdxAfter(ds + [d]) == NextIdx(IdxAfter(ds), d)
      ensures RecordedOf(vs + [v], ds + [d]) == if Took(d) then RecordedOf(vs, ds) + [v] else RecordedOf(vs, ds)
      ensures Planned(segs, start, vs + [v], ds + [d],
                      if Took(d) then assignments[v.nodeId := d.tentative[..d.taken]] else assignments, after, token)
    {
      hide Follows, GoodPlan, GoodVisit, AllContacted, RecordedOf, RangesOf, IdxAfter, MostThatFits, WasContacted,
          ModelsOk;
      FollowsSnoc(segs, start, vs, ds, v, d);
      ContactedMore(RecordedOf(vs, ds), before, after, v.nodeId, token, d);
      assert d.taken <= |d.tentative| && NextIdx(IdxAfter(ds), d) >= IdxAfter(ds);
      if Took(d) {
        DecisionGood(segs, start, v, IdxAfter(ds), d);
        NewVisit(RecordedOf(vs, ds), before, after, v, token, d);
        PlanSnoc(segs, start, RecordedOf(vs, ds), RangesOf(ds), assignments, v, Range(d.first, d.first + d.taken),
            d.tentative[..d.taken]);
      }
    }

    /** An empty list for every node of the trajectory that has a model. */
    method InitialAssignments(nodeInfos: seq<Visit>) returns (assignments: map<string, seq<Candidate>>)
      ensures forall n :: n in assignments ==> assignments[n] == []
      ensures HasLists(mmWaveModels.Keys, nodeInfos, assignments)
      ensures assignments.Keys == Modelled(mmWaveModels.Keys, nodeInfos)
    {
      assignments := map[];
      for i := 0 to |nodeInfos|
        invariant forall n :: n in assignments ==> assignments[n] == []
        invariant assignments.Keys <= Modelled(mmWaveModels.Keys, nodeInfos)
        invariant forall k :: 0 <= k < i && nodeInfos[k].nodeId in mmWaveModels ==> nodeInfos[k].nodeId in assignments
      {
        if nodeInfos[i].nodeId in mmWaveModels {
          assignments := assignments[nodeInfos[i].nodeId := []];
        }
      }
    }

    lemma PlanNone(segs: seq<Segment>, start: real, vs: seq<Visit>, assignments: map<string, seq<Candidate>>,
                   contacted: map<string, set<int>>, token: int)
      requires ModelsOk() && vs == [] && forall n :: n in assignments ==> assignments[n] == []
      ensures Planned(segs, start, vs, [], assignments, contacted, token)
      ensures RecordedOf(vs, []) == [] && IdxAfter([]) == 0 && AnswersOf(vs, [], token) == []
    {
    }

    /** The position after the first visit to the node. */
    method FindNext(nodes: seq<Visit>, name: string) returns (next: nat)
      ensures next == NextVisit(nodes, name)
    {
      next := 0;
      var found := false;
      while next < |nodes| && !found
        invariant next <= |nodes|
        invariant NextVisit(nodes, name) == if found then next else next + NextVisit(nodes[next..], name)
      {
        found := nodes[next].nodeId == name;
        next := next + 1;
      }
    }

    /** A next recorded visit exists. */
    predicate HasNext(token: int, name: string)
      reads this
    {
      token in routeInfos && NextVisit(routeInfos[token], name) < |routeInfos[token]|
    }

    function NextLedger(token: int, name: string): Node
      requires Valid() && HasNext(token, name)
      reads this, edgeNodeAssignments.Values
    {
      edgeNodeAssignments[routeInfos[token][NextVisit(routeInfos[token], name)].nodeId]
    }

    /**
      Forwards missed segments to the next recorded visit, as far as its ledger
      allows. That visit's edge has answered for the route before, so it commits
      nothing, although the ledger gives its link away.
     */
    method HandleMissedDelivery(token: int, name: string, segs: seq<Segment>, source: string, timestamp: real)
        returns (forwarded: Option<seq<Candidate>>, committed: seq<string>)
      requires Valid()
      requires HasNext(token, name) && segs != [] ==>
                 source in NextLedger(token, name).speeds && NextLedger(token, name).speeds[source] > 0.0
      modifies this`contacted, this`answers, edgeNodeAssignments.Values
      ensures Valid() && routeInfos == old(routeInfos) && contacted == old(contacted) && committed == []
      ensures forwarded.Some? <==> HasNext(token, name)
      ensures forwarded.None? || forwarded.value == [] ==> answers == old(answers)
      ensures HasNext(token, name) && forwarded.value != [] ==>
                answers == old(answers)
                    + [Answer(routeInfos[token][NextVisit(routeInfos[token], name)].nodeId, token, [])]
      ensures HasNext(token, name) ==>
                var ledger := NextLedger(token, name);
                var all := Offers(segs, source, routeInfos[token][NextVisit(routeInfos[token], name)]);
                && DownloadLedger.AllTimed(ledger.speeds, all)
                && (forall i :: 0 <= i < |forwarded.value| ==>
                      i < |segs| && Forwards(routeInfos[token], name, segs[i], source, forwarded.value[i]))
                && forwarded.value == all[..DownloadLedger.PossibleCount(ledger.speeds, old(ledger.maxDlcTime), all, 0)]
                && ledger.maxDlcTime
                    == old(ledger.maxDlcTime) + DownloadLedger.TotalTime(ledger.speeds, forwarded.value)
    {
      hide DownloadLedger.Inv, DownloadLedger.SegmentTime, ModelsOk, DownloadLedger.TimeTo, RoutesOk, Forwards,
          Recorded;
      committed := [];
      if token !in routeInfos {
        return None, [];
      }
      var nodes := routeInfos[token];
      var at := FindNext(nodes, name);
      if at >= |nodes| {
        return None, [];
      }
      RouteKnown(routeInfos, contacted, edgeNodeAssignments.Keys, token, at);
      ForwardsAll(nodes, name, segs, source);
      var ledger := edgeNodeAssignments[nodes[at].nodeId];
      var sent := ForwardToLedger(ledger, Offers(segs, source, nodes[at]), timestamp);
      if sent != [] {
        ContactAgain(contacted, nodes[at].nodeId, token);
        committed := SendAssignments(nodes[at].nodeId, CandidateIds(sent), token);
      }
      forwarded := Some(sent);
    }

    /** Consecutive adds until one is refused. */
    method ForwardToLedger(ledger: Node, all: seq<Candidate>, timestamp: real) returns (sent: seq<Candidate>)
      requires DownloadLedger.AllTimed(ledger.speeds, all) && DownloadLedger.Inv(ledger.Abs())
      modifies ledger
      ensures DownloadLedger.Inv(ledger.Abs())
      ensures sent == all[..DownloadLedger.PossibleCount(ledger.speeds, old(ledger.maxDlcTime), all, 0)]
      ensures ledger.maxDlcTime == old(ledger.maxDlcTime) + DownloadLedger.TotalTime(ledger.speeds, sent)
    {
      hide DownloadLedger.SegmentTime, DownloadLedger.Add, DownloadLedger.Accepts;
      ghost var first := ledger.maxDlcTime;
      sent := [];
      var i: nat := 0;
      while i < |all|
        invariant i <= |all| && sent == all[..i] && DownloadLedger.Inv(ledger.Abs())
        invariant ledger.maxDlcTime == first + DownloadLedger.TimeTo(ledger.speeds, all, i)
        invariant DownloadLedger.PossibleCount(ledger.speeds, first, all, 0)
            == DownloadLedger.PossibleCount(ledger.speeds, first, all, i)
      {
        DownloadLedger.AddInv(ledger.speeds, ledger.Abs(), all[i], timestamp);
        var success := ledger.AddCandidate(all[i], timestamp);
        if !success {
          break;
        }
        sent := sent + [all[i]];
        i := i + 1;
      }
      DownloadLedger.TimeToPrefix(ledger.speeds, sent, all, i);
    }
  }

  /** The candidate is the segment, from the given source, for the visit after the first one to the node. */
  ghost predicate Forwards(vs: seq<Visit>, name: string, seg: Segment, source: string, c: Candidate) {
    exists n :: 0 < n < |vs| && vs[n - 1].nodeId == name && !Recorded(vs[..n - 1], name)
                && c == DownloadLedger.Candidate(seg.segmentId, seg.segmentSize, source, vs[n].arrivalTime,
                                                 vs[n].contactTime)
  }

  lemma ForwardsAll(vs: seq<Visit>, name: string, segs: seq<Segment>, source: string)
    requires NextVisit(vs, name) < |vs|
    ensures forall i :: 0 <= i < |segs| ==>
              Forwards(vs, name, segs[i], source, Offers(segs, source, vs[NextVisit(vs, name)])[i])
  {
    NextVisitExactly(vs, name);
  }

  /** Position after the first visit to the node, or the list's length. */
  function NextVisit(vs: seq<Visit>, name: string): nat {
    if vs == [] then 0 else if vs[0].nodeId == name then 1 else 1 + NextVisit(vs[1..], name)
  }

  /** It is the position after the named node's first visit, and past the end if there is none. */
  lemma {:induction false} NextVisitExactly(vs: seq<Visit>, name: string)
    ensures var n := NextVisit(vs, name);
            if Recorded(vs, name) then 0 < n <= |vs| && vs[n - 1].nodeId == name && !Recorded(vs[..n - 1], name)
            else n == |vs|
  {
    if vs != [] {
      NextVisitExactly(vs[1..], name);
      var n := NextVisit(vs[1..], name);
      if vs[0].nodeId != name {
        assert forall k :: 0 < k < |vs| ==> vs[k] == vs[1..][k - 1];
        if Recorded(vs[1..], name) {
          assert vs[n].nodeId == name;
          assert forall k :: 0 < k < n ==> vs[k] == vs[1..][..n - 1][k - 1];
        }
      }
    }
  }

  function Offers(segs: seq<Segment>, source: string, v: Visit): (cs: seq<Candidate>)
    ensures |cs| == |segs|
  {
    seq(|segs|, i requires 0 <= i < |segs| =>
      DownloadLedger.Candidate(segs[i].segmentId, segs[i].segmentSize, source, v.arrivalTime, v.contactTime))
  }

  /** A prefix of what the bytes allow stands for a prefix of the range. */
  lemma PrefixStands(segs: seq<Segment>, tentative: seq<Candidate>, r: Range, n: nat)
    requires StandFor(tentative, segs, r) && n <= |tentative|
    ensures StandFor(tentative[..n], segs, Range(r.lo, r.lo + n))
    ensures RangeSize(segs, Range(r.lo, r.lo + n)) <= RangeSize(segs, r)
  {
    assert segs[r.lo..r.hi][..n] == segs[r.lo..r.lo + n];
    TotalSizeMono(segs[r.lo..r.hi], n);
  }

  /** The nodes visited that have a model. */
  ghost function Modelled(models: set<string>, vs: seq<Visit>): set<string> {
    set k | 0 <= k < |vs| && vs[k].nodeId in models :: vs[k].nodeId
  }

  /** Every visit to a node with a model has its list. */
  ghost predicate HasLists(models: set<string>, vs: seq<Visit>, assignments: map<string, seq<Candidate>>) {
    forall k :: 0 <= k < |vs| && vs[k].nodeId in models ==> vs[k].nodeId in assignments
  }

  lemma AmongLists(models: set<string>, sub: seq<Visit>, all: seq<Visit>, at: seq<nat>,
      assignments: map<string, seq<Candidate>>)
    requires Among(sub, all, at) && HasLists(models, all, assignments)
    ensures HasLists(models, sub, assignments)
  {
  }

  lemma ListsUse(models: set<string>, vs: seq<Visit>, assignments: map<string, seq<Candidate>>, k: nat)
    requires HasLists(models, vs, assignments) && k < |vs| && vs[k].nodeId in models
    ensures vs[k].nodeId in assignments
  {
  }

  lemma ListsKept(models: set<string>, vs: seq<Visit>, assignments: map<string, seq<Candidate>>, name: string,
      cs: seq<Candidate>)
    requires HasLists(models, vs, assignments)
    ensures HasLists(models, vs, assignments[name := cs])
  {
  }

  lemma CountNothing(p: Visit -> bool)
    ensures Count(map[], p) == 0
  {
  }

  lemma CountAdd(routes: Routes, token: int, vs: seq<Visit>, p: Visit -> bool)
    requires token !in routes
    ensures Count(routes[token := vs], p) == Count(routes, p) + CountIf(vs, p)
  {
    MapSumUpdate(routes, Counter(p), token, vs);
  }

  lemma {:induction false} CountIfPrefix(vs: seq<Visit>, i: nat, p: Visit -> bool)
    requires i <= |vs|
    ensures CountIf(vs[..i], p) <= CountIf(vs, p)
    decreases |vs|
  {
    if i < |vs| {
      assert vs[..|vs| - 1][..i] == vs[..i];
      CountIfPrefix(vs[..|vs| - 1], i, p);
    } else {
      assert vs[..i] == vs;
    }
  }

  /** The edge of every recorded visit has answered for the route. */
  ghost predicate AllContacted(recorded: seq<Visit>, contacted: map<string, set<int>>, token: int) {
    forall k :: 0 <= k < |recorded| ==> WasContacted(contacted, recorded[k].nodeId, token)
  }

  lemma ContactedMore(recorded: seq<Visit>, before: map<string, set<int>>, after: map<string, set<int>>,
      name: string, token: int,
                      d: Decision)
    requires AllContacted(recorded, before, token) && d.Decided? && Answered(before, after, name, token, d)
    ensures AllContacted(recorded, after, token)
  {
  }

  /** A node whose edge has not yet answered for the route has no recorded visit. */
  lemma NewVisit(recorded: seq<Visit>, before: map<string, set<int>>, after: map<string, set<int>>, v: Visit,
      token: int,
                 d: Decision)
    requires AllContacted(recorded, before, token) && AllContacted(recorded, after, token)
    requires Took(d) && Answered(before, after, v.nodeId, token, d)
    ensures !Recorded(recorded, v.nodeId) && AllContacted(recorded + [v], after, token)
  {
  }

  /** The recorded visits are among those decided. */
  lemma {:induction false} RecordedAmong(vs: seq<Visit>, ds: seq<Decision>) returns (at: seq<nat>)
    requires |vs| == |ds|
    ensures Among(RecordedOf(vs, ds), vs, at)
  {
    var n := |ds| - 1;
    if n < 0 {
      return [];
    }
    hide Among;
    at := RecordedAmong(vs[..n], ds[..n]);
    assert vs == vs[..n] + [vs[n]];
    AmongSkip(RecordedOf(vs[..n], ds[..n]), vs[..n], at, vs[n]);
    if Took(ds[n]) {
      AmongTake(RecordedOf(vs[..n], ds[..n]), vs[..n], at, vs[n]);
      at := at + [n];
    }
  }

  lemma {:induction false} EffectiveAmong(routes: Routes, vs: seq<Visit>) returns (at: seq<nat>)
    ensures Among(Effective(routes, vs), vs, at)
    ensures forall k :: 0 <= k < |Effective(routes, vs)| ==>
              Count(routes, OverlapsWith(Effective(routes, vs)[k])) < MAX_CLIENTS
  {
    var n := |vs| - 1;
    if n < 0 {
      return [];
    }
    hide Among, Count, OverlapsWith;
    at := EffectiveAmong(routes, vs[..n]);
    assert vs == vs[..n] + [vs[n]];
    AmongSkip(Effective(routes, vs[..n]), vs[..n], at, vs[n]);
    if Count(routes, OverlapsWith(vs[n])) < MAX_CLIENTS {
      AmongTake(Effective(routes, vs[..n]), vs[..n], at, vs[n]);
      at := at + [n];
    }
  }

  /** The visits that fewer tracked ones share an instant with than one node may serve. */
  ghost function Unclashed(routes: Routes, vs: seq<Visit>): set<nat> {
    set k: nat | k < |vs| && |Clashes(routes, vs[k])| < MAX_CLIENTS
  }

  lemma UnclashedSnoc(routes: Routes, vs: seq<Visit>)
    requires vs != []
    ensures var n: nat := |vs| - 1;
            Unclashed(routes, vs) == Unclashed(routes, vs[..n])
              + if |Clashes(routes, vs[n])| < MAX_CLIENTS then {n} else {}
  {
    hide Clashes;
  }

  /** What passes is exactly those visits, in order. */
  lemma {:induction false} EffectiveExactly(routes: Routes, vs: seq<Visit>)
    ensures Keeps(Effective(routes, vs), vs, Unclashed(routes, vs))
  {
    hide Count, OverlapsWith, Clashes, Keeps;
    if vs == [] {
      KeepsNothing(vs);
      assert Unclashed(routes, vs) == {};
    } else {
      var n: nat := |vs| - 1;
      EffectiveExactly(routes, vs[..n]);
      UnclashedSnoc(routes, vs);
      CountIsClashes(routes, vs[n]);
      var before, kept := Effective(routes, vs[..n]), Unclashed(routes, vs[..n]);
      assert vs == vs[..n] + [vs[n]] && before + [] == before && kept + {} == kept;
      KeepsSnoc(before, vs[..n], kept, vs[n]);
    }
  }

  lemma EffectiveLists(routes: Routes, vs: seq<Visit>, models: set<string>, assignments: map<string, seq<Candidate>>)
    requires HasLists(models, vs, assignments)
    ensures HasLists(models, Effective(routes, vs), assignments)
  {
    var at := EffectiveAmong(routes, vs);
    AmongLists(models, Effective(routes, vs), vs, at, assignments);
  }

  /** Every visit passes the overlap test against these routes. */
  ghost predicate AllPass(routes: Routes, vs: seq<Visit>) {
    forall k :: 0 <= k < |vs| ==> Count(routes, OverlapsWith(vs[k])) < MAX_CLIENTS
  }

  lemma PlanAdmitted(before: Routes, token: int, recorded: seq<Visit>)
    requires AllPass(before[token := []], recorded)
    ensures forall k :: 0 <= k < |recorded| ==> Admitted(before, token, recorded[k])
  {
    hide Count, OverlapsWith;
  }

  /** So capacity is kept. */
  lemma PlanWithin(before: Routes, token: int, nodeInfos: seq<Visit>, recorded: seq<Visit>)
    requires AllPass(before[token := []], recorded) && (OwnDisjoint(nodeInfos) ==> OwnDisjoint(recorded))
    ensures WithinCapacity(before) && OwnDisjoint(nodeInfos) ==> WithinCapacity(before[token := recorded])
  {
    hide *;
    if WithinCapacity(before) && OwnDisjoint(nodeInfos) {
      PlanAdmitted(before, token, recorded);
      CapacityKept(before, token, recorded);
    }
  }

  /** The recorded visits are some of the trajectory's, in its order: disjoint if those are. */
  lemma RecordedDisjoint(routes: Routes, nodeInfos: seq<Visit>, order: seq<Visit>, trail: seq<Decision>)
    requires order == Effective(routes, nodeInfos) && |trail| <= |order| && OwnDisjoint(nodeInfos)
    ensures OwnDisjoint(RecordedOf(order[..|trail|], trail))
  {
    hide *;
    var at := EffectiveAmong(routes, nodeInfos);
    AmongDisjoint(order, nodeInfos, at);
    DisjointPrefix(order, |trail|);
    var from := RecordedAmong(order[..|trail|], trail);
    AmongDisjoint(RecordedOf(order[..|trail|], trail), order[..|trail|], from);
  }

  lemma DisjointPrefix(vs: seq<Visit>, n: nat)
    requires OwnDisjoint(vs) && n <= |vs|
    ensures OwnDisjoint(vs[..n])
  {
  }

  /** And each passed the test. */
  lemma RecordedPass(routes: Routes, nodeInfos: seq<Visit>, order: seq<Visit>, trail: seq<Decision>)
    requires order == Effective(routes, nodeInfos) && |trail| <= |order|
    ensures AllPass(routes, RecordedOf(order[..|trail|], trail))
  {
    hide Effective, RecordedOf, Count, OverlapsWith;
    var recorded := RecordedOf(order[..|trail|], trail);
    var at := EffectiveAmong(routes, nodeInfos);
    var from := RecordedAmong(order[..|trail|], trail);
    forall k | 0 <= k < |recorded|
      ensures Count(routes, OverlapsWith(recorded[k])) < MAX_CLIENTS
    {
      assert recorded[k] == order[from[k]];
    }
  }

  /** Some of the routes have no more of anything than all of them. */
  lemma CountOfSome(all: Routes, some: Routes, p: Visit -> bool)
    requires SubMap(some, all)
    ensures Count(some, p) <= Count(all, p)
  {
    MapSumSome(all, some, Counter(p));
  }
}
