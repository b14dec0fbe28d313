/**
  From the nearest node of each route point to the visits a vehicle makes: the
  per-node interval lists, their sorting, and the merging of neighbours.
 */
module TrajectoryGrouping {
  import opened Collections
  import opened BandwidthEstimate

  /** Nearest node of a route point; an empty id means no node is near. */
  datatype NearestNode = NearestNode(nodeId: string, address: string, distance: real)

  datatype Interval = Interval(start: nat, end: int)

  datatype Visit = Visit(nodeId: string, address: string, arrivalTime: real, contactTime: real,
      contactPoints: seq<ContactPoint>)

  function NodeIds(nodes: seq<NearestNode>): (ids: seq<string>)
    ensures |ids| == |nodes|
    ensures forall i :: 0 <= i < |ids| ==> ids[i] == nodes[i].nodeId
  {
    seq(|nodes|, i requires 0 <= i < |nodes| => nodes[i].nodeId)
  }

  // ----- maximal runs of one node -----

  function SetLastEnd(ivs: seq<Interval>, end: int): seq<Interval>
    requires ivs != []
  {
    ivs[|ivs| - 1 := ivs[|ivs| - 1].(end := end)]
  }

  predicate Continues(ids: seq<string>, i: nat)
    requires i < |ids|
  {
    ids[i] != "" && i > 0 && ids[i - 1] == ids[i]
  }

  /** The maximal runs of one node among the first i points, in order. */
  function Runs(ids: seq<string>, i: nat): (ivs: seq<Interval>)
    requires i <= |ids|
    ensures forall k :: 0 <= k < |ivs| ==> ivs[k].start <= ivs[k].end < i && ids[ivs[k].start] != ""
    ensures i > 0 && ids[i - 1] != ""
        ==> ivs != [] && ivs[|ivs| - 1].end == i - 1 && ids[ivs[|ivs| - 1].start] == ids[i - 1]
  {
    if i == 0 then []
    else
      var before := Runs(ids, i - 1);
      if ids[i - 1] == "" then before
      else if Continues(ids, i - 1) then SetLastEnd(before, i - 1)
      else before + [Interval(i - 1, i - 1)]
  }

  // ----- what the visits must be -----

  /** The interval holds points of one node or of none, and begins and ends with the node. */
  ghost predicate IsVisit(ids: seq<string>, iv: Interval) {
    && iv.start <= iv.end < |ids|
    && ids[iv.start] != "" && ids[iv.end] == ids[iv.start]
    && forall j :: iv.start <= j <= iv.end ==> ids[j] == "" || ids[j] == ids[iv.start]
  }

  predicate Within(iv: Interval, j: int) {
    iv.start <= j <= iv.end
  }

  ghost predicate Ordered(ivs: seq<Interval>) {
    forall a, b :: 0 <= a < b < |ivs| ==> ivs[a].end < ivs[b].start
  }

  ghost predicate Covered(ivs: seq<Interval>, j: int) {
    exists k :: 0 <= k < |ivs| && Within(ivs[k], j)
  }

  /** Every point with a node, from `from` on, lies in some visit. */
  ghost predicate Covers(ids: seq<string>, ivs: seq<Interval>, from: nat, to: nat)
    requires to <= |ids|
  {
    forall j {:trigger Covered(ivs, j)} :: from <= j < to && ids[j] != "" ==> Covered(ivs, j)
  }

  /** Index-ordered disjoint visits of alternating nodes that cover every point with a node. */
  ghost predicate VisitsOf(ids: seq<string>, ivs: seq<Interval>, from: nat, to: nat)
    requires to <= |ids|
  {
    && (forall k :: 0 <= k < |ivs| ==> from <= ivs[k].start && ivs[k].end < to && IsVisit(ids, ivs[k]))
    && Ordered(ivs)
    && (forall a, b :: 0 <= a && b == a + 1 < |ivs| ==> ids[ivs[a].start] != ids[ivs[b].start])
    && Covers(ids, ivs, from, to)
  }

  /** A visit cannot reach into the next one of another list: that one has a different node. */
  lemma NextStartsLater(ids: seq<string>, a: seq<Interval>, b: Interval, from: nat)
    requires VisitsOf(ids, a, from, |ids|) && |a| > 1
    requires IsVisit(ids, b) && a[0].start == b.start
    ensures forall m :: 1 <= m < |a| ==> b.end < a[m].start
  {
    assert ids[a[0].start] != ids[a[1].start];
    assert b.end < a[1].start;
  }

  lemma FirstVisitFixed(ids: seq<string>, a: seq<Interval>, b: seq<Interval>, from: nat)
    requires VisitsOf(ids, a, from, |ids|) && VisitsOf(ids, b, from, |ids|)
    requires a != [] && b != []
    ensures a[0].start <= b[0].start
    ensures a[0].start == b[0].start ==> b[0].end <= a[0].end
  {
    assert Covered(a, b[0].start);
    var k :| 0 <= k < |a| && Within(a[k], b[0].start);
    assert k > 0 ==> a[0].end < a[k].start;
    if a[0].start == b[0].start {
      assert Covered(a, b[0].end);
      var m :| 0 <= m < |a| && Within(a[m], b[0].end);
      if |a| > 1 {
        NextStartsLater(ids, a, b[0], from);
      }
    }
  }

  /** Those requirements leave no choice: two lists of visits of the same points are the same list. */
  lemma {:induction false} VisitsUnique(ids: seq<string>, a: seq<Interval>, b: seq<Interval>, from: nat)
    requires from <= |ids| && VisitsOf(ids, a, from, |ids|) && VisitsOf(ids, b, from, |ids|)
    ensures a == b
    decreases |a|
  {
    if a == [] || b == [] {
      assert a == [] || Covered(b, a[0].start);
      assert b == [] || Covered(a, b[0].start);
    } else {
      FirstVisitFixed(ids, a, b, from);
      FirstVisitFixed(ids, b, a, from);
      var next := a[0].end + 1;
      TailVisits(ids, a, from);
      TailVisits(ids, b, from);
      hide VisitsOf;
      VisitsUnique(ids, a[1..], b[1..], next);
      assert a == [a[0]] + a[1..] && b == [b[0]] + b[1..];
    }
  }

  lemma TailCovers(ids: seq<string>, a: seq<Interval>, from: nat)
    requires a != [] && Covers(ids, a, from, |ids|)
    requires from <= a[0].start <= a[0].end
    ensures Covers(ids, a[1..], a[0].end + 1, |ids|)
  {
    var t := a[1..];
    forall j | a[0].end + 1 <= j < |ids| && ids[j] != ""
      ensures Covered(t, j)
    {
      assert Covered(a, j);
      var k :| 0 <= k < |a| && Within(a[k], j);
      assert t[k - 1] == a[k];
    }
  }

  lemma TailVisits(ids: seq<string>, a: seq<Interval>, from: nat)
    requires a != [] && VisitsOf(ids, a, from, |ids|)
    ensures VisitsOf(ids, a[1..], a[0].end + 1, |ids|)
  {
    TailCovers(ids, a, from);
    hide IsVisit, Covers;
    var t := a[1..];
    assert forall k :: 0 <= k < |t| ==> t[k] == a[k + 1];
  }

  // ----- merging runs of the same node in succession -----

  function Merge(ids: seq<string>, ivs: seq<Interval>): (vs: seq<Interval>)
    requires forall k :: 0 <= k < |ivs| ==> ivs[k].start < |ids|
    ensures ivs != [] ==> vs != [] && vs[|vs| - 1].end == ivs[|ivs| - 1].end
    ensures ivs == [] ==> vs == []
    ensures forall k :: 0 <= k < |vs| ==> vs[k].start < |ids|
    ensures ivs != [] ==> ids[vs[|vs| - 1].start] == ids[ivs[|ivs| - 1].start]
  {
    if ivs == [] then []
    else
      var before, last := Merge(ids, ivs[..|ivs| - 1]), ivs[|ivs| - 1];
      if before != [] && ids[before[|before| - 1].start] == ids[last.start] then SetLastEnd(before, last.end)
      else before + [last]
  }

  /** Runs in order, each of one node, whose gaps hold no node. */
  ghost predicate RunsOf(ids: seq<string>, ivs: seq<Interval>, to: nat)
    requires to <= |ids|
  {
    && (forall k :: 0 <= k < |ivs| ==> ivs[k].end < to && IsVisit(ids, ivs[k]))
    && Ordered(ivs)
    && Covers(ids, ivs, 0, to)
  }

  /** One more interval covers the points it contains. */
  lemma CoversAppend(ids: seq<string>, ivs: seq<Interval>, iv: Interval, to: nat, next: nat)
    requires to <= next <= |ids| && Covers(ids, ivs, 0, to)
    requires forall j :: to <= j < next && ids[j] != "" ==> Within(iv, j)
    ensures Covers(ids, ivs + [iv], 0, next)
  {
    var now := ivs + [iv];
    forall j | 0 <= j < next && ids[j] != ""
      ensures Covered(now, j)
    {
      if j < to {
        assert Covered(ivs, j);
        var k :| 0 <= k < |ivs| && Within(ivs[k], j);
        assert now[k] == ivs[k];
      } else {
        assert now[|ivs|] == iv;
      }
    }
  }

  /** A later end of the last interval covers the points in between. */
  lemma CoversExtend(ids: seq<string>, ivs: seq<Interval>, end: int, to: nat, next: nat)
    requires to <= next <= |ids| && Covers(ids, ivs, 0, to)
    requires ivs != [] && ivs[|ivs| - 1].end <= end
    requires forall j :: to <= j < next && ids[j] != "" ==> ivs[|ivs| - 1].start <= j <= end
    ensures Covers(ids, SetLastEnd(ivs, end), 0, next)
  {
    var now := SetLastEnd(ivs, end);
    forall j | 0 <= j < next && ids[j] != ""
      ensures Covered(now, j)
    {
      if j < to {
        assert Covered(ivs, j);
        var k :| 0 <= k < |ivs| && Within(ivs[k], j);
        assert Within(now[k], j);
      } else {
        assert Within(now[|ivs| - 1], j);
      }
    }
  }

  lemma ExtendRun(ids: seq<string>, ivs: seq<Interval>, to: nat)
    requires to < |ids| && RunsOf(ids, ivs, to) && ivs != []
    requires ivs[|ivs| - 1].end == to - 1 && ids[to] == ids[ivs[|ivs| - 1].start]
    ensures RunsOf(ids, SetLastEnd(ivs, to), to + 1)
  {
    CoversExtend(ids, ivs, to, to, to + 1);
    hide Covers;
  }

  lemma NewRun(ids: seq<string>, ivs: seq<Interval>, to: nat)
    requires to < |ids| && RunsOf(ids, ivs, to) && ids[to] != ""
    ensures RunsOf(ids, ivs + [Interval(to, to)], to + 1)
  {
    CoversAppend(ids, ivs, Interval(to, to), to, to + 1);
    hide Covers;
  }

  lemma GrowCover(ids: seq<string>, ivs: seq<Interval>, to: nat)
    requires to < |ids| && RunsOf(ids, ivs, to)
    ensures ids[to] == "" ==> RunsOf(ids, ivs, to + 1)
  {
  }

  lemma RunsStep(ids: seq<string>, i: nat)
    requires i < |ids| && RunsOf(ids, Runs(ids, i), i)
    ensures RunsOf(ids, Runs(ids, i + 1), i + 1)
  {
    var before := Runs(ids, i);
    GrowCover(ids, before, i);
    hide RunsOf, SetLastEnd;
    if Continues(ids, i) {
      ExtendRun(ids, before, i);
    } else if ids[i] != "" {
      NewRun(ids, before, i);
    }
  }

  lemma RunsNone(ids: seq<string>)
    ensures RunsOf(ids, Runs(ids, 0), 0) && Runs(ids, 0) == []
  {
  }

  lemma {:induction false} RunsAreRuns(ids: seq<string>, i: nat)
    requires i <= |ids|
    ensures RunsOf(ids, Runs(ids, i), i)
  {
    hide *;
    if i == 0 {
      RunsNone(ids);
    } else {
      RunsAreRuns(ids, i - 1);
      RunsStep(ids, i - 1);
    }
  }

  /** All points of the run have its node, and the points next to it have not. */
  ghost predicate Unbroken(ids: seq<string>, iv: Interval, to: nat)
    requires to <= |ids|
  {
    && iv.start <= iv.end < to
    && (forall j :: iv.start <= j <= iv.end ==> ids[j] == ids[iv.start])
    && (iv.start > 0 ==> ids[iv.start - 1] != ids[iv.start])
    && (iv.end + 1 < to ==> ids[iv.end + 1] != ids[iv.start])
  }

  /** One point more prolongs the run that it continues, and leaves the others. */
  lemma UnbrokenStep(ids: seq<string>, iv: Interval, i: nat, last: bool)
    requires i < |ids| && Unbroken(ids, iv, i) && ids[iv.start] != ""
    requires !last && Continues(ids, i) ==> iv.end < i - 1
    requires last && Continues(ids, i) ==> iv.end == i - 1
    ensures Unbroken(ids, if last && Continues(ids, i) then iv.(end := i) else iv, i + 1)
  {
  }

  lemma NewUnbroken(ids: seq<string>, i: nat)
    requires i < |ids| && ids[i] != "" && !Continues(ids, i)
    ensures Unbroken(ids, Interval(i, i), i + 1)
  {
  }

  /** One point more: the runs after it, and those before it that end, go on, or stay as they are. */
  lemma RunsNext(ids: seq<string>, i: nat, k: nat)
    requires i < |ids| && k < |Runs(ids, i + 1)|
    ensures var before, now := Runs(ids, i), Runs(ids, i + 1);
            && |now| == |before| + (if ids[i] != "" && !Continues(ids, i) then 1 else 0)
            && (k < |before| ==>
                  && ids[before[k].start] != ""
                  && now[k] == if k == |before| - 1 && Continues(ids, i) then before[k].(end := i) else before[k])
            && (k == |before| ==> now[k] == Interval(i, i))
            && (k == |before| - 1 && Continues(ids, i) ==> before[k].end == i - 1)
            && now[|now| - 1].start == (if |now| > |before| then i else before[|before| - 1].start)
            && now[|now| - 1].start <= i && (k < |before| ==> before[k].end < i)
  {
  }

  /** Before gaps are merged the intervals are the maximal runs of one node, without gaps. */
  lemma {:induction false} RunsUnbroken(ids: seq<string>, i: nat, k: nat)
    requires i <= |ids| && k < |Runs(ids, i)|
    ensures Unbroken(ids, Runs(ids, i)[k], i)
    ensures k < |Runs(ids, i)| - 1 ==> Runs(ids, i)[k].end < Runs(ids, i)[|Runs(ids, i)| - 1].start
  {
    RunsNone(ids);
    hide Unbroken, Runs, RunsOf, SetLastEnd, Continues;
    var n: nat := i - 1;
    var before := Runs(ids, n);
    RunsNext(ids, n, k);
    if k < |before| {
      RunsUnbroken(ids, n, k);
      LastStartsWithin(ids, n);
      UnbrokenStep(ids, before[k], n, k == |before| - 1);
    } else {
      NewUnbroken(ids, n);
    }
  }

  lemma LastStartsWithin(ids: seq<string>, i: nat)
    requires i <= |ids| && Runs(ids, i) != []
    ensures Runs(ids, i)[|Runs(ids, i)| - 1].start < i
  {
  }

  lemma NoVisits(ids: seq<string>, to: nat)
    requires to <= |ids| && RunsOf(ids, [], to)
    ensures VisitsOf(ids, [], 0, to)
  {
  }

  /** What merging has made of the runs that end before `to`. */
  lemma {:induction false} MergeIsVisits(ids: seq<string>, ivs: seq<Interval>, to: nat)
    requires to <= |ids| && RunsOf(ids, ivs, to)
    ensures VisitsOf(ids, Merge(ids, ivs), 0, to)
    decreases |ivs|
  {
    hide RunsOf, VisitsOf, SetLastEnd, IsVisit;
    if ivs == [] {
      NoVisits(ids, to);
    } else {
      var n := |ivs| - 1;
      var last := ivs[n];
      RunsPrefix(ids, ivs, to);
      MergeIsVisits(ids, ivs[..n], last.start);
      var before := Merge(ids, ivs[..n]);
      if before != [] && ids[before[|before| - 1].start] == ids[last.start] {
        MergeInto(ids, before, last, to);
      } else {
        MergeNew(ids, before, last, to);
      }
    }
  }

  /** Without the last interval the points before it are still covered, and none after it has a node. */
  lemma CoversPrefix(ids: seq<string>, ivs: seq<Interval>, to: nat)
    requires to <= |ids| && Covers(ids, ivs, 0, to) && Ordered(ivs) && ivs != []
    requires 0 <= ivs[|ivs| - 1].start <= ivs[|ivs| - 1].end < to
    ensures Covers(ids, ivs[..|ivs| - 1], 0, ivs[|ivs| - 1].start)
    ensures forall j :: ivs[|ivs| - 1].end < j < to ==> ids[j] == ""
  {
    var n := |ivs| - 1;
    var init := ivs[..n];
    forall j | 0 <= j < ivs[n].start && ids[j] != ""
      ensures Covered(init, j)
    {
      assert Covered(ivs, j);
      var k :| 0 <= k < |ivs| && Within(ivs[k], j);
      assert init[k] == ivs[k];
    }
    forall j | ivs[n].end < j < to
      ensures ids[j] == ""
    {
      assert ids[j] == "" || Covered(ivs, j);
    }
  }

  lemma RunsPrefix(ids: seq<string>, ivs: seq<Interval>, to: nat)
    requires to <= |ids| && RunsOf(ids, ivs, to) && ivs != []
    ensures var n := |ivs| - 1;
            && IsVisit(ids, ivs[n]) && 0 <= ivs[n].start <= ivs[n].end < to
            && (forall k :: 0 <= k < |ivs| ==> ivs[k].start < |ids|)
            && RunsOf(ids, ivs[..n], ivs[n].start)
            && forall j :: ivs[n].end < j < to ==> ids[j] == ""
  {
    CoversPrefix(ids, ivs, to);
    hide Covers;
  }

  /** The next run has the last visit's node: the visit is prolonged over the gap. */
  lemma MergeInto(ids: seq<string>, before: seq<Interval>, last: Interval, to: nat)
    requires to <= |ids| && last.end < to && IsVisit(ids, last)
    requires VisitsOf(ids, before, 0, last.start) && before != []
    requires ids[before[|before| - 1].start] == ids[last.start]
    requires forall j :: last.end < j < to ==> ids[j] == ""
    ensures VisitsOf(ids, SetLastEnd(before, last.end), 0, to)
  {
    var m := |before| - 1;
    var iv := before[m].(end := last.end);
    GapIsEmpty(ids, before, last.start);
    CoversExtend(ids, before, last.end, last.start, to);
    hide Covers;
    assert IsVisit(ids, iv) by {
      assert IsVisit(ids, before[m]);
    }
    var now := SetLastEnd(before, last.end);
    assert now[m] == iv && forall k :: 0 <= k < m ==> now[k] == before[k];
  }

  /** The next run has another node: a new visit. */
  lemma MergeNew(ids: seq<string>, before: seq<Interval>, last: Interval, to: nat)
    requires to <= |ids| && last.end < to && IsVisit(ids, last)
    requires VisitsOf(ids, before, 0, last.start)
    requires before != [] ==> ids[before[|before| - 1].start] != ids[last.start]
    requires forall j :: last.end < j < to ==> ids[j] == ""
    ensures VisitsOf(ids, before + [last], 0, to)
  {
    CoversAppend(ids, before, last, last.start, to);
    hide Covers, IsVisit;
  }

  /** After the last visit no point has a node. */
  lemma GapIsEmpty(ids: seq<string>, vs: seq<Interval>, to: nat)
    requires to <= |ids| && VisitsOf(ids, vs, 0, to) && vs != []
    ensures forall j :: vs[|vs| - 1].end < j < to ==> ids[j] == ""
  {
    var m := |vs| - 1;
    forall j | vs[m].end < j < to
      ensures ids[j] == ""
    {
      assert ids[j] == "" || Covered(vs, j);
    }
  }

  // ----- gathering the per-node lists and sorting them -----

  /** Those intervals whose node is in the set, in order. */
  function OfNodes(ids: seq<string>, ivs: seq<Interval>, names: set<string>): seq<Interval>
    requires forall k :: 0 <= k < |ivs| ==> ivs[k].start < |ids|
  {
    if ivs == [] then []
    else
      var last := ivs[|ivs| - 1];
      OfNodes(ids, ivs[..|ivs| - 1], names) + if ids[last.start] in names then [last] else []
  }

  lemma {:induction false} OfNodesAdd(ids: seq<string>, ivs: seq<Interval>, names: set<string>, name: string)
    requires forall k :: 0 <= k < |ivs| ==> ivs[k].start < |ids|
    requires name !in names
    ensures multiset(OfNodes(ids, ivs, names + {name}))
        == multiset(OfNodes(ids, ivs, names)) + multiset(OfNodes(ids, ivs, {name}))
  {
    if ivs != [] {
      OfNodesAdd(ids, ivs[..|ivs| - 1], names, name);
    }
  }

  lemma {:induction false} OfNodesAll(ids: seq<string>, ivs: seq<Interval>, names: set<string>)
    requires forall k :: 0 <= k < |ivs| ==> ivs[k].start < |ids| && ids[ivs[k].start] in names
    ensures OfNodes(ids, ivs, names) == ivs
  {
    if ivs != [] {
      var init, last := ivs[..|ivs| - 1], ivs[|ivs| - 1];
      assert ids[last.start] in names && ivs == init + [last];
      assert OfNodes(ids, ivs, names) == OfNodes(ids, init, names) + [last];
      hide OfNodes;
      forall k | 0 <= k < |init|
        ensures init[k].start < |ids| && ids[init[k].start] in names
      {
        assert init[k] == ivs[k];
      }
      OfNodesAll(ids, init, names);
    }
  }

  lemma {:induction false} OfNodesNone(ids: seq<string>, ivs: seq<Interval>)
    requires forall k :: 0 <= k < |ivs| ==> ivs[k].start < |ids|
    ensures OfNodes(ids, ivs, {}) == []
  {
    if ivs != [] {
      OfNodesNone(ids, ivs[..|ivs| - 1]);
    }
  }

  ghost predicate ByStart(ivs: seq<Interval>) {
    forall a, b :: 0 <= a < b < |ivs| ==> ivs[a].start <= ivs[b].start
  }

  lemma FirstOfSorted(sorted: seq<Interval>, ivs: seq<Interval>)
    requires ByStart(sorted) && multiset(sorted) == multiset(ivs) && ivs != []
    requires forall a, b :: 0 <= a < b < |ivs| ==> ivs[a].start < ivs[b].start
    ensures sorted != [] && sorted[0] == ivs[0]
  {
    assert |sorted| == |multiset(sorted)| == |ivs|;
    assert sorted[0] in multiset(ivs) && ivs[0] in multiset(sorted);
    var k :| 0 <= k < |ivs| && ivs[k] == sorted[0];
    var m :| 0 <= m < |sorted| && sorted[m] == ivs[0];
    assert sorted[0].start <= sorted[m].start;
  }

  /** Sorting by start undoes any shuffling of an ordered list. */
  lemma ByStartTail(ivs: seq<Interval>)
    requires ByStart(ivs) && ivs != []
    ensures ByStart(ivs[1..])
  {
  }

  lemma TailMultiset(ivs: seq<Interval>)
    requires ivs != []
    ensures multiset(ivs[1..]) == multiset(ivs) - multiset{ivs[0]}
  {
    assert ivs == [ivs[0]] + ivs[1..];
  }

  lemma {:induction false} SortedIsOrdered(sorted: seq<Interval>, ivs: seq<Interval>)
    requires ByStart(sorted) && multiset(sorted) == multiset(ivs)
    requires forall a, b :: 0 <= a < b < |ivs| ==> ivs[a].start < ivs[b].start
    ensures sorted == ivs
    decreases |ivs|
  {
    assert |sorted| == |multiset(sorted)| == |ivs|;
    if ivs != [] {
      FirstOfSorted(sorted, ivs);
      ByStartTail(sorted);
      TailMultiset(sorted);
      TailMultiset(ivs);
      hide ByStart;
      forall a, b | 0 <= a < b < |ivs| - 1
        ensures ivs[1..][a].start < ivs[1..][b].start
      {
        assert ivs[1..][a] == ivs[a + 1] && ivs[1..][b] == ivs[b + 1];
      }
      SortedIsOrdered(sorted[1..], ivs[1..]);
      assert sorted == [sorted[0]] + sorted[1..] && ivs == [ivs[0]] + ivs[1..];
    }
  }

  // ----- the first pass: interval lists per node -----

  datatype Tracked = Tracked(track: bool, idxs: seq<Interval>)

  /** The interval list the first pass should hold for a node after i points. */
  function ListOf(ids: seq<string>, i: nat, name: string): seq<Interval>
    requires i <= |ids|
  {
    OfNodes(ids, Runs(ids, i), {name})
  }

  function LastNode(ids: seq<string>, i: nat): Option<string>
    requires i <= |ids|
  {
    if i == 0 || ids[i - 1] == "" then None else Some(ids[i - 1])
  }

  /** One more point changes the list of its own node only. */
  lemma ListStep(ids: seq<string>, i: nat, name: string)
    requires i < |ids| && name != ""
    ensures ids[i] != name ==> ListOf(ids, i + 1, name) == ListOf(ids, i, name)
    ensures ids[i] == name && Continues(ids, i) ==>
              ListOf(ids, i, name) != [] && ListOf(ids, i + 1, name) == SetLastEnd(ListOf(ids, i, name), i)
    ensures ids[i] == name && !Continues(ids, i) ==>
              ListOf(ids, i + 1, name) == ListOf(ids, i, name) + [Interval(i, i)]
  {
    var before := Runs(ids, i);
    if Continues(ids, i) {
      OfNodesExtend(ids, before, i, name);
    } else if ids[i] != "" {
      OfNodesAppend(ids, before, Interval(i, i), name);
    }
  }

  lemma OfNodesAppend(ids: seq<string>, ivs: seq<Interval>, iv: Interval, name: string)
    requires iv.start < |ids| && forall k :: 0 <= k < |ivs| ==> ivs[k].start < |ids|
    ensures OfNodes(ids, ivs + [iv], {name}) == OfNodes(ids, ivs, {name}) + if ids[iv.start] == name then [iv] else []
  {
    assert (ivs + [iv])[..|ivs|] == ivs;
  }

  lemma OfNodesExtend(ids: seq<string>, ivs: seq<Interval>, end: int, name: string)
    requires ivs != [] && forall k :: 0 <= k < |ivs| ==> ivs[k].start < |ids|
    ensures var list, now := OfNodes(ids, ivs, {name}), OfNodes(ids, SetLastEnd(ivs, end), {name});
            if ids[ivs[|ivs| - 1].start] == name then list != [] && now == SetLastEnd(list, end) else now == list
  {
    var now := SetLastEnd(ivs, end);
    assert now[..|ivs| - 1] == ivs[..|ivs| - 1];
  }

  /** The positions of the intervals that begin with the node. */
  ghost function Begins(ids: seq<string>, ivs: seq<Interval>, name: string): set<nat>
    requires forall k :: 0 <= k < |ivs| ==> ivs[k].start < |ids|
  {
    set k: nat | k < |ivs| && ids[ivs[k].start] == name
  }

  lemma BeginsSnoc(ids: seq<string>, ivs: seq<Interval>, name: string)
    requires ivs != [] && forall k :: 0 <= k < |ivs| ==> ivs[k].start < |ids|
    ensures var n: nat := |ivs| - 1;
            Begins(ids, ivs, name) == Begins(ids, ivs[..n], name) + if ids[ivs[n].start] == name then {n} else {}
  {
  }

  /** A node's list holds exactly the runs that begin with it, in order. */
  lemma {:induction false} OfNodesKeeps(ids: seq<string>, ivs: seq<Interval>, name: string)
    requires forall k :: 0 <= k < |ivs| ==> ivs[k].start < |ids|
    ensures Keeps(OfNodes(ids, ivs, {name}), ivs, Begins(ids, ivs, name))
  {
    hide Keeps, Begins;
    if ivs == [] {
      KeepsNothing(ivs);
      assert Begins(ids, ivs, name) == {} by {
        NoneBegins(ids, name);
      }
    } else {
      var n: nat := |ivs| - 1;
      var init := ivs[..n];
      OfNodesKeeps(ids, init, name);
      BeginsSnoc(ids, ivs, name);
      OfNodesAppend(ids, init, ivs[n], name);
      hide OfNodes;
      var before, kept := OfNodes(ids, init, {name}), Begins(ids, init, name);
      KeepsSnoc(before, init, kept, ivs[n]);
      assert ivs == init + [ivs[n]] && before + [] == before && kept + {} == kept;
    }
  }

  lemma NoneBegins(ids: seq<string>, name: string)
    ensures Begins(ids, [], name) == {}
  {
  }

  lemma NoNamelessRuns(ids: seq<string>, i: nat, name: string)
    requires i <= |ids|
    ensures name == "" ==> ListOf(ids, i, name) == []
  {
    if name == "" {
      OfNodesExcept(ids, Runs(ids, i), {""});
    }
  }

  lemma {:induction false} OfNodesExcept(ids: seq<string>, ivs: seq<Interval>, names: set<string>)
    requires forall k :: 0 <= k < |ivs| ==> ivs[k].start < |ids| && ids[ivs[k].start] !in names
    ensures OfNodes(ids, ivs, names) == []
  {
    if ivs != [] {
      assert ids[ivs[|ivs| - 1].start] !in names;
      OfNodesExcept(ids, ivs[..|ivs| - 1], names);
    }
  }

  /** The first pass is right about one node. */
  ghost predicate NodeOk(ids: seq<string>, i: nat, dict: map<string, Tracked>, last: Option<string>, n: string)
    requires i <= |ids|
  {
    if n in dict then dict[n].idxs == ListOf(ids, i, n) && (dict[n].track <==> last == Some(n))
    else ListOf(ids, i, n) == []
  }

  ghost predicate PassInv(ids: seq<string>, i: nat, dict: map<string, Tracked>, last: Option<string>)
    requires i <= |ids|
  {
    && last == LastNode(ids, i)
    && (last.Some? ==> last.value in dict)
    && "" !in dict
    && forall n :: NodeOk(ids, i, dict, last, n)
  }

  /** What one turn of the first pass does to the lists, node by node. */
  ghost predicate TurnOf(i: nat, cur: string, last: Option<string>, dict: map<string, Tracked>,
      next: map<string, Tracked>) {
    && next.Keys == (if cur == "" then dict.Keys else dict.Keys + {cur})
    && (forall n :: n in dict && n != cur ==> next[n].idxs == dict[n].idxs && !next[n].track)
    && (cur != "" ==>
          && cur in next && next[cur].track
          && (if cur in dict && dict[cur].track then dict[cur].idxs != []
                && next[cur].idxs == SetLastEnd(dict[cur].idxs, i)
              else next[cur].idxs == (if cur in dict then dict[cur].idxs else []) + [Interval(i, i)]))
  }

  lemma PassNode(ids: seq<string>, i: nat, dict: map<string, Tracked>, last: Option<string>,
      next: map<string, Tracked>, n: string)
    requires i < |ids| && n != "" && last == LastNode(ids, i) && NodeOk(ids, i, dict, last, n)
    requires TurnOf(i, ids[i], last, dict, next)
    ensures NodeOk(ids, i + 1, next, LastNode(ids, i + 1), n)
  {
    ListStep(ids, i, n);
    hide ListOf;
    if n == ids[i] {
      assert Continues(ids, i) <==> n in dict && dict[n].track;
    }
  }

  lemma PassNameless(ids: seq<string>, i: nat, dict: map<string, Tracked>, last: Option<string>,
      next: map<string, Tracked>)
    requires i < |ids| && "" !in dict && TurnOf(i, ids[i], last, dict, next)
    ensures "" !in next && NodeOk(ids, i + 1, next, LastNode(ids, i + 1), "")
  {
    NoNamelessRuns(ids, i + 1, "");
  }

  lemma PassStep(ids: seq<string>, i: nat, dict: map<string, Tracked>, last: Option<string>, next: map<string, Tracked>)
    requires i < |ids| && PassInv(ids, i, dict, last)
    requires TurnOf(i, ids[i], last, dict, next)
    ensures PassInv(ids, i + 1, next, LastNode(ids, i + 1))
  {
    PassNameless(ids, i, dict, last, next);
    assert ids[i] != "" ==> ids[i] in next;
    hide NodeOk, TurnOf;
    var m, now := i + 1, LastNode(ids, i + 1);
    forall n
      ensures NodeOk(ids, m, next, now, n)
    {
      if n != "" {
        assert NodeOk(ids, i, dict, last, n);
        PassNode(ids, i, dict, last, next, n);
      }
    }
  }

  method FindIntervals(nodes: seq<NearestNode>) returns (dict: map<string, Tracked>)
    ensures forall n :: n in dict ==> dict[n].idxs == ListOf(NodeIds(nodes), |nodes|, n)
    ensures forall n :: n !in dict ==> ListOf(NodeIds(nodes), |nodes|, n) == []
  {
    hide ListOf, PassInv, SetLastEnd;
    ghost var ids := NodeIds(nodes);
    dict := map[];
    var last: Option<string> := None;
    PassStart(ids);
    for i := 0 to |nodes|
      invariant PassInv(ids, i, dict, last)
    {
      dict, last := TrackPoint(dict, last, nodes[i].nodeId, i, ids);
    }
    PassEnd(ids, dict, last);
  }

  lemma PassStart(ids: seq<string>)
    ensures PassInv(ids, 0, map[], None)
  {
  }

  lemma PassEnd(ids: seq<string>, dict: map<string, Tracked>, last: Option<string>)
    requires PassInv(ids, |ids|, dict, last)
    ensures forall n :: n in dict ==> dict[n].idxs == ListOf(ids, |ids|, n)
    ensures forall n :: n !in dict ==> ListOf(ids, |ids|, n) == []
  {
    forall n | n in dict
      ensures dict[n].idxs == ListOf(ids, |ids|, n)
    {
      assert NodeOk(ids, |ids|, dict, last, n);
    }
    forall n | n !in dict
      ensures ListOf(ids, |ids|, n) == []
    {
      assert NodeOk(ids, |ids|, dict, last, n);
    }
  }

  /** The first pass at one point. */
  method TrackPoint(dict: map<string, Tracked>, last: Option<string>, cur: string, i: nat, ghost ids: seq<string>)
      returns (next: map<string, Tracked>, now: Option<string>)
    requires i < |ids| && ids[i] == cur && PassInv(ids, i, dict, last)
    ensures PassInv(ids, i + 1, next, now)
  {
    hide ListOf;
    assert NodeOk(ids, i, dict, last, cur);
    assert last.Some? ==> NodeOk(ids, i, dict, last, last.value);
    next, now := dict, last;
    TrackedHasInterval(ids, i, dict, last, cur);
    if last.Some? && cur != last.value {
      next := next[last.value := next[last.value].(track := false)];
      now := None;
    }
    if cur != "" {
      if cur !in next {
        next := next[cur := Tracked(false, [])];
      }
      if !next[cur].track {
        SetLastEndSnoc(next[cur].idxs, i);
        next := next[cur := Tracked(true, next[cur].idxs + [Interval(i, -1)])];
      }
      if next[cur].track {
        next := next[cur := Tracked(true, SetLastEnd(next[cur].idxs, i))];
      }
      now := Some(cur);
    }
    PassStep(ids, i, dict, last, next);
  }

  lemma SetLastEndSnoc(ivs: seq<Interval>, i: nat)
    ensures SetLastEnd(ivs + [Interval(i, -1)], i) == ivs + [Interval(i, i)]
  {
  }

  lemma TrackedHasInterval(ids: seq<string>, i: nat, dict: map<string, Tracked>, last: Option<string>, cur: string)
    requires i < |ids| && PassInv(ids, i, dict, last) && ids[i] == cur
    ensures cur in dict && dict[cur].track ==> dict[cur].idxs != []
    ensures forall n :: n in dict ==> (dict[n].track <==> last == Some(n))
  {
    forall n | n in dict
      ensures dict[n].track <==> last == Some(n)
    {
      assert NodeOk(ids, i, dict, last, n);
    }
    assert NodeOk(ids, i, dict, last, cur);
    if cur != "" {
      ListStep(ids, i, cur);
    }
  }

  // ----- gathering, sorting, merging -----

  method Gather(dict: map<string, Tracked>, ghost ids: seq<string>) returns (idxs: seq<Interval>)
    requires forall n :: n in dict ==> dict[n].idxs == ListOf(ids, |ids|, n)
    requires forall n :: n !in dict ==> ListOf(ids, |ids|, n) == []
    ensures multiset(idxs) == multiset(Runs(ids, |ids|))
  {
    hide OfNodes, Runs;
    ghost var all, seen := Runs(ids, |ids|), {};
    idxs := [];
    OfNodesNone(ids, all);
    var todo := dict.Keys;
    while todo != {}
      invariant todo <= dict.Keys && seen == dict.Keys - todo
      invariant multiset(idxs) == multiset(OfNodes(ids, all, seen))
      decreases |todo|
    {
      var n := AnyOf(todo);
      OfNodesAdd(ids, all, seen, n);
      idxs := idxs + dict[n].idxs;
      todo, seen := todo - {n}, seen + {n};
    }
    assert seen == dict.Keys;
    AllListed(ids, seen);
  }

  /** Every run's node has a list. */
  lemma AllListed(ids: seq<string>, names: set<string>)
    requires forall n :: n !in names ==> ListOf(ids, |ids|, n) == []
    ensures OfNodes(ids, Runs(ids, |ids|), names) == Runs(ids, |ids|)
  {
    var ivs := Runs(ids, |ids|);
    forall k | 0 <= k < |ivs|
      ensures ids[ivs[k].start] in names
    {
      OfNodesHas(ids, ivs, k);
    }
    OfNodesAll(ids, ivs, names);
  }

  lemma {:induction false} OfNodesHas(ids: seq<string>, ivs: seq<Interval>, k: nat)
    requires k < |ivs| && forall m :: 0 <= m < |ivs| ==> ivs[m].start < |ids|
    ensures OfNodes(ids, ivs, {ids[ivs[k].start]}) != []
    decreases |ivs|
  {
    if k < |ivs| - 1 {
      OfNodesHas(ids, ivs[..|ivs| - 1], k);
    }
  }

  /** The first position from i on whose interval does not start earlier. */
  function StartPosition(ivs: seq<Interval>, iv: Interval, i: nat): (k: nat)
    requires i <= |ivs|
    ensures i <= k <= |ivs|
    ensures forall j :: i <= j < k ==> ivs[j].start < iv.start
    ensures k < |ivs| ==> iv.start <= ivs[k].start
    decreases |ivs| - i
  {
    if i == |ivs| || iv.start <= ivs[i].start then i else StartPosition(ivs, iv, i + 1)
  }

  lemma InsertOrdered(ivs: seq<Interval>, k: nat, iv: Interval)
    requires ByStart(ivs) && k <= |ivs|
    requires k > 0 ==> ivs[k - 1].start <= iv.start
    requires k < |ivs| ==> iv.start <= ivs[k].start
    ensures ByStart(InsertAt(ivs, k, iv))
  {
    var t := InsertAt(ivs, k, iv);
    forall a, b | 0 <= a < b < |t|
      ensures t[a].start <= t[b].start
    {
      if a < k {
        assert t[a] == ivs[a] && ivs[a].start <= ivs[k - 1].start;
      }
      if b > k {
        assert t[b] == ivs[b - 1] && ivs[k].start <= ivs[b - 1].start;
      }
    }
  }

  lemma InsertByStart(ivs: seq<Interval>, iv: Interval)
    requires ByStart(ivs)
    ensures var k := StartPosition(ivs, iv, 0);
            ByStart(InsertAt(ivs, k, iv)) && multiset(InsertAt(ivs, k, iv)) == multiset(ivs) + multiset{iv}
  {
    var k := StartPosition(ivs, iv, 0);
    InsertMultiset(ivs, k, iv);
    InsertOrdered(ivs, k, iv);
  }

  lemma InsertMultiset(ivs: seq<Interval>, k: nat, iv: Interval)
    requires k <= |ivs|
    ensures multiset(InsertAt(ivs, k, iv)) == multiset(ivs) + multiset{iv}
  {
    assert ivs == ivs[..k] + ivs[k..];
  }

  /** sorted() by the first element. */
  method SortByStart(ivs: seq<Interval>) returns (sorted: seq<Interval>)
    ensures ByStart(sorted) && multiset(sorted) == multiset(ivs)
  {
    sorted := [];
    for i := 0 to |ivs|
      invariant ByStart(sorted) && multiset(sorted) == multiset(ivs[..i])
    {
      assert ivs[..i + 1] == ivs[..i] + [ivs[i]];
      InsertByStart(sorted, ivs[i]);
      sorted := InsertAt(sorted, StartPosition(sorted, ivs[i], 0), ivs[i]);
    }
    assert ivs[..|ivs|] == ivs;
  }

  method MergeRuns(nodes: seq<NearestNode>, sorted: seq<Interval>) returns (merged: seq<Interval>)
    requires forall k :: 0 <= k < |sorted| ==> sorted[k].start < |nodes|
    ensures merged == Merge(NodeIds(nodes), sorted)
  {
    ghost var ids := NodeIds(nodes);
    var last: Option<string> := None;
    merged := [];
    for i := 0 to |sorted|
      invariant merged == Merge(ids, sorted[..i])
      invariant last == if i == 0 then None else Some(ids[sorted[i - 1].start])
    {
      assert sorted[..i + 1][..i] == sorted[..i];
      var cur := nodes[sorted[i].start].nodeId;
      if last == Some(cur) {
        merged := SetLastEnd(merged, sorted[i].end);
      } else {
        merged := merged + [sorted[i]];
      }
      last := Some(cur);
    }
    assert sorted[..|sorted|] == sorted;
  }

  /** The merged intervals are the visits of the trajectory. */
  method FindVisits(nodes: seq<NearestNode>) returns (merged: seq<Interval>)
    ensures VisitsOf(NodeIds(nodes), merged, 0, |nodes|)
  {
    ghost var ids := NodeIds(nodes);
    RunsAreRuns(ids, |ids|);
    MergeIsVisits(ids, Runs(ids, |ids|), |ids|);
    hide Runs, OfNodes, VisitsOf, Merge;
    var dict := FindIntervals(nodes);
    var idxs := Gather(dict, ids);
    var sorted := SortByStart(idxs);
    RunsSorted(ids, sorted);
    merged := MergeRuns(nodes, sorted);
  }

  lemma RunsSorted(ids: seq<string>, sorted: seq<Interval>)
    requires ByStart(sorted) && multiset(sorted) == multiset(Runs(ids, |ids|))
    ensures sorted == Runs(ids, |ids|)
  {
    RunsAreRuns(ids, |ids|);
    SortedIsOrdered(sorted, Runs(ids, |ids|));
  }

  // ----- the visits handed to the planner -----

  /** The visit of the interval: its node, the times of its first and last point, and all its points. */
  ghost predicate IsVisitAt(nodes: seq<NearestNode>, times: seq<real>, iv: Interval, v: Visit)
    requires |nodes| <= |times|
  {
    && iv.start <= iv.end < |nodes|
    && v.nodeId == nodes[iv.start].nodeId && v.address == nodes[iv.start].address
    && v.arrivalTime == times[iv.start] && v.arrivalTime + v.contactTime == times[iv.end]
    && |v.contactPoints| == iv.end - iv.start + 1
    && forall k :: 0 <= k < |v.contactPoints| ==>
         v.contactPoints[k] == ContactPoint(nodes[iv.start + k].distance, times[iv.start + k])
  }

  /** The visits stand for the intervals of route points that group the nodes. */
  ghost predicate StandsFor(nodes: seq<NearestNode>, times: seq<real>, visits: seq<Visit>, ivs: seq<Interval>)
    requires |nodes| <= |times|
  {
    && VisitsOf(NodeIds(nodes), ivs, 0, |nodes|)
    && |visits| == |ivs|
    && forall k :: 0 <= k < |visits| ==> IsVisitAt(nodes, times, ivs[k], visits[k])
  }

  ghost predicate Grouped(nodes: seq<NearestNode>, times: seq<real>, visits: seq<Visit>)
    requires |nodes| <= |times|
  {
    exists ivs :: StandsFor(nodes, times, visits, ivs)
  }

  lemma OneVisitAt(nodes: seq<NearestNode>, times: seq<real>, iv: Interval, v: Visit, w: Visit)
    requires |nodes| <= |times| && IsVisitAt(nodes, times, iv, v) && IsVisitAt(nodes, times, iv, w)
    ensures v == w
  {
    assert v.contactPoints == w.contactPoints;
  }

  /** There is one grouping only. */
  lemma GroupedUnique(nodes: seq<NearestNode>, times: seq<real>, visits: seq<Visit>, others: seq<Visit>)
    requires |nodes| <= |times| && Grouped(nodes, times, visits) && Grouped(nodes, times, others)
    ensures visits == others
  {
    var a :| StandsFor(nodes, times, visits, a);
    var b :| StandsFor(nodes, times, others, b);
    VisitsUnique(NodeIds(nodes), a, b, 0);
    hide VisitsOf, IsVisitAt;
    forall k | 0 <= k < |visits|
      ensures visits[k] == others[k]
    {
      OneVisitAt(nodes, times, a[k], visits[k], others[k]);
    }
  }

  method ProcessNearestNodes(nodes: seq<NearestNode>, times: seq<real>) returns (visits: seq<Visit>)
    requires |nodes| <= |times|
    ensures Grouped(nodes, times, visits)
  {
    var merged := FindVisits(nodes);
    visits := [];
    for i := 0 to |merged|
      invariant |visits| == i
      invariant forall k :: 0 <= k < i ==> IsVisitAt(nodes, times, merged[k], visits[k])
    {
      var start, end := merged[i].start, merged[i].end;
      var points: seq<ContactPoint> := [];
      var at := start;
      while at <= end
        invariant start <= at <= end + 1
        invariant |points| == at - start
        invariant forall k :: 0 <= k < |points| ==>
                    points[k] == ContactPoint(nodes[start + k].distance, times[start + k])
      {
        points := points + [ContactPoint(nodes[at].distance, times[at])];
        at := at + 1;
      }
      visits := visits + [Visit(nodes[start].nodeId, nodes[start].address, times[start], times[end] - times[start],
          points)];
    }
    assert StandsFor(nodes, times, visits, merged);
  }

  /** With times in order, a visit ends no later than the next begins. */
  lemma {:induction false} VisitsDisjointInTime(
      nodes: seq<NearestNode>, times: seq<real>, visits: seq<Visit>, ivs: seq<Interval>, a: nat, b: nat)
    requires |nodes| <= |times| && StandsFor(nodes, times, visits, ivs)
    requires forall i, j :: 0 <= i <= j < |times| ==> times[i] <= times[j]
    requires a < b < |ivs|
    ensures var u, v := visits[a], visits[b];
            u.contactTime >= 0.0 && u.arrivalTime + u.contactTime <= v.arrivalTime
  {
    assert IsVisit(NodeIds(nodes), ivs[a]) && IsVisit(NodeIds(nodes), ivs[b]);
  }
}
