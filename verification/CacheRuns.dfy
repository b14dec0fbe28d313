/** Whole runs of the segment cache: pins, the event log, and eviction order. */
module CacheRuns {
  import opened Collections
  import opened CacheModel

  datatype Op = Add(seg: Segment, route: int) | Release(id: string, route: int)

  function Step(c: Cache, op: Op): (d: Cache)
    requires ListInv(c)
    ensures ListInv(d)
  {
    match op
    case Add(seg, route) =>
      AddSegmentListInv(c, seg, route);
      AddSegment(c, seg, route)
    case Release(id, route) =>
      UpdateSegmentStatusListInv(c, id, route);
      UpdateSegmentStatus(c, id, route)
  }

  function Run(c: Cache, ops: seq<Op>): (d: Cache)
    requires ListInv(c)
    ensures ListInv(d)
  {
    if ops == [] then c else Step(Run(c, ops[..|ops| - 1]), ops[|ops| - 1])
  }

  // ----- pin safety -----

  /** Operation i of the run is a successful AddSegment for this segment and route. */
  ghost predicate AcceptedAt(c: Cache, ops: seq<Op>, i: nat, id: string, route: int)
    requires ListInv(c) && i < |ops|
  {
    && ops[i].Add?
    && ops[i].seg.segmentId == id
    && ops[i].route == route
    && Accepts(Run(c, ops[..i]), ops[i].seg.segmentSize)
  }

  ghost predicate ReleasedFrom(ops: seq<Op>, i: nat, id: string, route: int)
  {
    exists j :: i <= j < |ops| && ops[j] == Release(id, route)
  }

  ghost predicate PinnedByHistory(c: Cache, ops: seq<Op>, id: string, route: int)
    requires ListInv(c)
  {
    || (Pinned(c, id, route) && !ReleasedFrom(ops, 0, id, route))
    || exists i {:trigger AcceptedAt(c, ops, i, id, route)} ::
         0 <= i < |ops| && AcceptedAt(c, ops, i, id, route) && !ReleasedFrom(ops, i, id, route)
  }

  lemma TouchPins(c: Cache, seg: Segment, route: int, id: string, r: int)
    ensures Pinned(Touch(c, seg, route), id, r) <==> Pinned(c, id, r) || (id == seg.segmentId && r == route)
  {
  }

  lemma AddPins(c: Cache, seg: Segment, route: int, id: string, r: int)
    requires ListInv(c)
    ensures Pinned(AddSegment(c, seg, route), id, r) <==>
            Pinned(c, id, r) || (Accepts(c, seg.segmentSize) && id == seg.segmentId && r == route)
  {
    if Fits(c, seg.segmentSize) {
      var n := Victims(c, seg.segmentSize);
      PopNFrame(c, n);
      PrefixUnpinned(c, n);
      TouchPins(PopN(c, n), seg, route, id, r);
    }
  }

  lemma ReleasePins(c: Cache, id: string, route: int, other: string, r: int)
    requires ListInv(c)
    ensures Pinned(UpdateSegmentStatus(c, id, route), other, r) <==> Pinned(c, other, r) && !(id == other && route == r)
  {
  }

  /** One operation changes a pin only by adding it or by releasing it. */
  lemma PinStep(c: Cache, op: Op, id: string, route: int)
    requires ListInv(c)
    ensures Pinned(Step(c, op), id, route) <==>
            || (op.Add? && op.seg.segmentId == id && op.route == route && Accepts(c, op.seg.segmentSize))
            || (Pinned(c, id, route) && op != Release(id, route))
  {
    match op
    case Add(seg, r) => AddPins(c, seg, r, id, route);
    case Release(other, r) => ReleasePins(c, other, r, id, route);
  }

  lemma ReleasedSnoc(ops: seq<Op>, op: Op, i: nat, id: string, route: int)
    requires i <= |ops|
    ensures ReleasedFrom(ops + [op], i, id, route) <==> ReleasedFrom(ops, i, id, route) || op == Release(id, route)
  {
    var all := ops + [op];
    if op == Release(id, route) {
      assert all[|ops|] == op;
    }
    if ReleasedFrom(ops, i, id, route) {
      var j :| i <= j < |ops| && ops[j] == Release(id, route);
      assert all[j] == ops[j];
    }
  }

  /** The accepted, unreleased additions of a longer run are those of the shorter one and perhaps its last call. */
  lemma HistorySnoc(c: Cache, ops: seq<Op>, op: Op, id: string, route: int)
    requires ListInv(c)
    ensures PinnedByHistory(c, ops + [op], id, route) <==>
            || (op.Add? && op.seg.segmentId == id && op.route == route && Accepts(Run(c, ops), op.seg.segmentSize))
            || (PinnedByHistory(c, ops, id, route) && op != Release(id, route))
  {
    var all := ops + [op];
    var n := |ops|;
    assert all[..n] == ops;
    ReleasedSnoc(ops, op, 0, id, route);
    forall i: nat | i < n
      ensures AcceptedAt(c, all, i, id, route) <==> AcceptedAt(c, ops, i, id, route)
      ensures ReleasedFrom(all, i, id, route) <==> ReleasedFrom(ops, i, id, route) || op == Release(id, route)
    {
      assert all[..i] == ops[..i];
      ReleasedSnoc(ops, op, i, id, route);
    }
    assert ReleasedFrom(all, n, id, route) <==> op == Release(id, route) by {
      ReleasedSnoc(ops, op, n, id, route);
    }
    var accepted := op.Add? && op.seg.segmentId == id && op.route == route && Accepts(Run(c, ops), op.seg.segmentSize);
    assert AcceptedAt(c, all, n, id, route) <==> accepted;
    if PinnedByHistory(c, ops, id, route) && op != Release(id, route)
        && !(Pinned(c, id, route) && !ReleasedFrom(ops, 0, id, route)) {
      var i: nat :| i < n && AcceptedAt(c, ops, i, id, route) && !ReleasedFrom(ops, i, id, route);
      assert AcceptedAt(c, all, i, id, route) && !ReleasedFrom(all, i, id, route);
    }
  }

  /**
    Pin safety over whole runs, in both directions: a route pins a segment
    after any sequence of calls, whatever sizes they carry, exactly when some
    AddSegment for that pair succeeded, or it was pinned at the start, and no
    UpdateSegmentStatus for the pair came later. A pinned segment is cached.
   */
  lemma {:induction false} PinSafety(c: Cache, ops: seq<Op>, id: string, route: int)
    requires ListInv(c)
    ensures Pinned(Run(c, ops), id, route) <==> PinnedByHistory(c, ops, id, route)
  {
    if ops != [] {
      var init, last := ops[..|ops| - 1], ops[|ops| - 1];
      assert ops == init + [last];
      PinSafety(c, init, id, route);
      PinStep(Run(c, init), last, id, route);
      HistorySnoc(c, init, last, id, route);
    }
  }

  /** Every segment an operation drops was needed by no route, and was first in line. */
  lemma OnlyUnpinnedEvicted(c: Cache, op: Op, id: string)
    requires ListInv(c)
    requires id in c.segments && id !in Step(c, op).segments
    ensures op.Add? && c.segments[id].routeIds == {}
    ensures id in c.evictable[..Victims(c, op.seg.segmentSize)]
  {
    if op.Add? && Fits(c, op.seg.segmentSize) {
      PopNFrame(c, Victims(c, op.seg.segmentSize));
      PrefixUnpinned(c, Victims(c, op.seg.segmentSize));
    }
  }

  // ----- sizes that agree across a run -----

  ghost predicate StoredSizes(sizes: string -> nat, c: Cache) {
    forall id :: id in c.segments ==> c.segments[id].segSize == sizes(id)
  }

  ghost predicate CarriedSizes(sizes: string -> nat, ops: seq<Op>) {
    forall i :: 0 <= i < |ops| && ops[i].Add? ==> ops[i].seg.segmentSize == sizes(ops[i].seg.segmentId)
  }

  lemma AddStoredSizes(sizes: string -> nat, c: Cache, seg: Segment, route: int)
    requires ListInv(c) && StoredSizes(sizes, c) && seg.segmentSize == sizes(seg.segmentId)
    ensures StoredSizes(sizes, AddSegment(c, seg, route))
  {
    if Fits(c, seg.segmentSize) {
      PopNFrame(c, Victims(c, seg.segmentSize));
    }
  }

  lemma StepInv(sizes: string -> nat, c: Cache, op: Op)
    requires Inv(c) && StoredSizes(sizes, c) && CarriedSizes(sizes, [op])
    ensures Inv(Step(c, op)) && StoredSizes(sizes, Step(c, op))
  {
    assert [op][0] == op;
    match op
    case Add(seg, route) =>
      AddSegmentInvExactly(c, seg, route);
      AddStoredSizes(sizes, c, seg, route);
      assert forall id :: id in c.evictable ==> id in c.segments;
    case Release(id, route) =>
      UpdateSegmentStatusInv(c, id, route);
  }

  /** The structural invariant holds after every run whose calls agree on sizes. */
  lemma {:induction false} RunInv(sizes: string -> nat, c: Cache, ops: seq<Op>)
    requires Inv(c) && StoredSizes(sizes, c) && CarriedSizes(sizes, ops)
    ensures Inv(Run(c, ops)) && StoredSizes(sizes, Run(c, ops))
  {
    if ops != [] {
      RunInv(sizes, c, ops[..|ops| - 1]);
      StepInv(sizes, Run(c, ops[..|ops| - 1]), ops[|ops| - 1]);
    }
  }

  // ----- the event log -----

  lemma PopEventsSnoc(ids: seq<string>)
    requires ids != []
    ensures PopEvents(ids) == PopEvents(ids[..|ids| - 1]) + [Event(ids[|ids| - 1], NO_ROUTE, PopEvent)]
  {
  }

  ghost function Weigh(es: seq<Event>, w: Event -> int): int {
    if es == [] then 0 else w(es[0]) + Weigh(es[1..], w)
  }

  lemma {:induction false} WeighConcat(a: seq<Event>, b: seq<Event>, w: Event -> int)
    ensures Weigh(a + b, w) == Weigh(a, w) + Weigh(b, w)
  {
    if a == [] {
      assert a + b == b;
    } else {
      assert (a + b)[1..] == a[1..] + b;
      WeighConcat(a[1..], b, w);
    }
  }

  /** Pushes minus pops of one id. */
  function Presence(id: string): Event -> int {
    (e: Event) =>
      if e.segmentId != id then 0
      else if e.eventType == PushEvent then 1
      else if e.eventType == PopEvent then -1
      else 0
  }

  /** Pushed minus popped bytes. */
  function Bytes(sizes: string -> nat): Event -> int {
    (e: Event) =>
      if e.eventType == PushEvent then sizes(e.segmentId)
      else if e.eventType == PopEvent then -(sizes(e.segmentId) as int)
      else 0
  }

  function Occurrences(eventType: EventType): Event -> int {
    (e: Event) => if e.eventType == eventType then 1 else 0
  }

  ghost predicate LogInv(sizes: string -> nat, c: Cache) {
    && (forall id :: Weigh(c.events, Presence(id)) == if id in c.segments then 1 else 0)
    && c.evictCount == Weigh(c.events, Occurrences(PopEvent))
    && |c.evictable| == Weigh(c.events, Occurrences(EvictableEvent)) - c.evictCount - c.promoteCount
    && c.currentSize == Weigh(c.events, Bytes(sizes))
  }

  lemma {:induction false} WeighPops(ids: seq<string>, sizes: string -> nat, m: map<string, Metadata>)
    requires forall id :: id in ids ==> id in m && m[id].segSize == sizes(id)
    ensures Weigh(PopEvents(ids), Bytes(sizes)) + ListSum(m, ids) == 0
    ensures Weigh(PopEvents(ids), Occurrences(PopEvent)) == |ids|
    ensures Weigh(PopEvents(ids), Occurrences(EvictableEvent)) == 0
  {
    if ids != [] {
      assert PopEvents(ids)[1..] == PopEvents(ids[1..]);
      WeighPops(ids[1..], sizes, m);
    }
  }

  lemma {:induction false} WeighPopsOf(ids: seq<string>, id: string)
    requires Distinct(ids)
    ensures Weigh(PopEvents(ids), Presence(id)) == if id in ids then -1 else 0
  {
    if ids != [] {
      assert PopEvents(ids)[1..] == PopEvents(ids[1..]);
      WeighPopsOf(ids[1..], id);
    }
  }

  lemma {:induction false} PopNSize(c: Cache, n: nat)
    requires WellListed(c) && n <= |c.evictable|
    ensures PopN(c, n).currentSize == c.currentSize - ListSum(c.segments, c.evictable[..n])
    decreases n
  {
    if n > 0 {
      var d := Pop(c);
      PopNSize(d, n - 1);
      assert c.evictable[..n][1..] == d.evictable[..n - 1];
      ListSumFrame(c.segments, d.segments, d.evictable[..n - 1]);
    }
  }

  /** What an accepted AddSegment logs, weighed. */
  lemma AddedWeight(c: Cache, seg: Segment, route: int, w: Event -> int)
    requires ListInv(c) && Accepts(c, seg.segmentSize)
    ensures var n := Victims(c, seg.segmentSize);
            var pushed := seg.segmentId !in PopN(c, n).segments;
            Weigh(AddSegment(c, seg, route).events, w) == Weigh(c.events, w)
              + w(Event(seg.segmentId, route, if pushed then PushEvent else TouchEvent))
              + Weigh(PopEvents(c.evictable[..n]), w)
  {
    var n := Victims(c, seg.segmentSize);
    PopNFrame(c, n);
    var touched := Touch(PopN(c, n), seg, route);
    var e := touched.events[|c.events|];
    assert touched.events == c.events + [e];
    WeighConcat(c.events, [e], w);
    WeighConcat(touched.events, PopEvents(c.evictable[..n]), w);
    assert Weigh([e], w) == w(e) + Weigh([], w);
  }

  lemma AddPresence(c: Cache, seg: Segment, route: int, id: string)
    requires ListInv(c) && Accepts(c, seg.segmentSize)
    requires Weigh(c.events, Presence(id)) == if id in c.segments then 1 else 0
    ensures var d := AddSegment(c, seg, route);
            Weigh(d.events, Presence(id)) == if id in d.segments then 1 else 0
  {
    var n := Victims(c, seg.segmentSize);
    AddedWeight(c, seg, route, Presence(id));
    WeighPopsOf(c.evictable[..n], id);
    PopNFrame(c, n);
    PrefixUnpinned(c, n);
  }

  lemma AddListCounters(sizes: string -> nat, c: Cache, seg: Segment, route: int)
    requires ListInv(c) && StoredSizes(sizes, c) && Accepts(c, seg.segmentSize)
    requires c.evictCount == Weigh(c.events, Occurrences(PopEvent))
    requires |c.evictable| == Weigh(c.events, Occurrences(EvictableEvent)) - c.evictCount - c.promoteCount
    ensures var d := AddSegment(c, seg, route);
            && d.evictCount == Weigh(d.events, Occurrences(PopEvent))
            && |d.evictable| == Weigh(d.events, Occurrences(EvictableEvent)) - d.evictCount - d.promoteCount
  {
    var n := Victims(c, seg.segmentSize);
    AddedWeight(c, seg, route, Occurrences(PopEvent));
    AddedWeight(c, seg, route, Occurrences(EvictableEvent));
    PrefixUnpinned(c, n);
    WeighPops(c.evictable[..n], sizes, c.segments);
    PopNFrame(c, n);
  }

  lemma AddBytes(sizes: string -> nat, c: Cache, seg: Segment, route: int)
    requires ListInv(c) && StoredSizes(sizes, c)
    requires Accepts(c, seg.segmentSize) && seg.segmentSize == sizes(seg.segmentId)
    requires c.currentSize == Weigh(c.events, Bytes(sizes))
    ensures var d := AddSegment(c, seg, route);
            d.currentSize == Weigh(d.events, Bytes(sizes))
  {
    var n := Victims(c, seg.segmentSize);
    AddedWeight(c, seg, route, Bytes(sizes));
    PrefixUnpinned(c, n);
    WeighPops(c.evictable[..n], sizes, c.segments);
    PopNSize(c, n);
  }

  lemma AppendWeight(c: Cache, d: Cache, e: Event, w: Event -> int)
    requires d.events == c.events + [e]
    ensures Weigh(d.events, w) == Weigh(c.events, w) + w(e)
  {
    WeighConcat(c.events, [e], w);
    assert Weigh([e], w) == w(e) + Weigh([], w);
  }

  /** A release logs one event, exactly when it lists the segment. */
  lemma ReleaseEvents(c: Cache, id: string, route: int)
    requires ListInv(c)
    ensures var d := UpdateSegmentStatus(c, id, route);
            && d.segments.Keys == c.segments.Keys && d.currentSize == c.currentSize
            && d.evictCount == c.evictCount && d.promoteCount == c.promoteCount
            && if d.events == c.events then |d.evictable| == |c.evictable|
               else |d.evictable| == |c.evictable| + 1 && d.events == c.events + [Event(id, NO_ROUTE, EvictableEvent)]
  {
  }

  lemma ReleaseLog(sizes: string -> nat, c: Cache, id: string, route: int)
    requires ListInv(c) && LogInv(sizes, c)
    ensures LogInv(sizes, UpdateSegmentStatus(c, id, route))
  {
    var d := UpdateSegmentStatus(c, id, route);
    ReleaseEvents(c, id, route);
    hide UpdateSegmentStatus, ListInv, Weigh;
    if d.events != c.events {
      var e := Event(id, NO_ROUTE, EvictableEvent);
      forall k { AppendWeight(c, d, e, Presence(k)); }
      AppendWeight(c, d, e, Occurrences(PopEvent));
      AppendWeight(c, d, e, Occurrences(EvictableEvent));
      AppendWeight(c, d, e, Bytes(sizes));
    }
  }

  lemma LogStep(sizes: string -> nat, c: Cache, op: Op)
    requires Inv(c) && StoredSizes(sizes, c) && CarriedSizes(sizes, [op]) && LogInv(sizes, c)
    ensures LogInv(sizes, Step(c, op))
  {
    assert [op][0] == op;
    match op
    case Add(seg, route) =>
      AcceptsExactly(c, seg.segmentSize);
      if Accepts(c, seg.segmentSize) {
        forall id { AddPresence(c, seg, route, id); }
        AddListCounters(sizes, c, seg, route);
        AddBytes(sizes, c, seg, route);
      }
    case Release(id, route) =>
      ReleaseLog(sizes, c, id, route);
  }

  lemma {:induction false} LogRun(sizes: string -> nat, c: Cache, ops: seq<Op>)
    requires Inv(c) && StoredSizes(sizes, c) && CarriedSizes(sizes, ops) && LogInv(sizes, c)
    ensures ListInv(c) && LogInv(sizes, Run(c, ops))
  {
    hide LogInv, StoredSizes, Step;
    if ops != [] {
      var init, last := ops[..|ops| - 1], ops[|ops| - 1];
      assert CarriedSizes(sizes, init) && CarriedSizes(sizes, [last]);
      LogRun(sizes, c, init);
      RunInv(sizes, c, init);
      LogStep(sizes, Run(c, init), last);
    }
  }

  /**
    Event-log conservation over whole runs: for every id, pushes minus pops is
    one if it is cached and zero otherwise; the list's length, the eviction
    count and the bytes in use are all recoverable from the log.
   */
  lemma LogConservation(sizes: string -> nat, policy: Policy, capacity: nat, ops: seq<Op>)
    requires CarriedSizes(sizes, ops)
    ensures ListInv(Empty(policy, capacity))
    ensures LogInv(sizes, Run(Empty(policy, capacity), ops))
  {
    LogRun(sizes, Empty(policy, capacity), ops);
  }

  // ----- eviction order -----

  ghost predicate Ascending(ks: seq<nat>) {
    forall i, j :: 0 <= i < j < |ks| ==> ks[i] <= ks[j]
  }

  function Keys(c: Cache): (ks: seq<nat>)
    requires WellListed(c)
    ensures |ks| == |c.evictable|
    ensures forall i :: 0 <= i < |ks| ==> ks[i] == Key(c, c.evictable[i])
  {
    seq(|c.evictable|, i requires 0 <= i < |c.evictable| => Key(c, c.evictable[i]))
  }

  ghost predicate Sorted(c: Cache)
    requires WellListed(c)
  {
    Ascending(Keys(c))
  }

  lemma InsertAscending(ks: seq<nat>, i: nat, k: nat)
    requires Ascending(ks) && i <= |ks|
    ensures Ascending(InsertAt(ks, i, k)) <==> (i > 0 ==> ks[i - 1] <= k) && (i < |ks| ==> k <= ks[i])
  {
    var t := InsertAt(ks, i, k);
    assert t[i] == k;
    assert i > 0 ==> t[i - 1] == ks[i - 1];
    assert i < |ks| ==> t[i + 1] == ks[i];
  }

  /** Touch times are distinct and never ahead of the cache's own clock. */
  ghost predicate TimesInv(c: Cache) {
    && (forall id :: id in c.segments ==> c.segments[id].timestamp <= c.currentTimestamp)
    && (forall a, b :: a in c.segments && b in c.segments && a != b ==>
          c.segments[a].timestamp != c.segments[b].timestamp)
  }

  lemma AddTimes(c: Cache, seg: Segment, route: int)
    requires ListInv(c) && TimesInv(c)
    ensures TimesInv(AddSegment(c, seg, route))
  {
    if Fits(c, seg.segmentSize) {
      var n := Victims(c, seg.segmentSize);
      PopNFrame(c, n);
      var room := PopN(c, n);
      assert TimesInv(room);
      TouchTimes(room, seg, route);
    }
  }

  lemma TouchTimes(c: Cache, seg: Segment, route: int)
    requires TimesInv(c)
    ensures TimesInv(Touch(c, seg, route))
  {
  }

  lemma TimesStep(c: Cache, op: Op)
    requires ListInv(c) && TimesInv(c)
    ensures TimesInv(Step(c, op))
  {
    match op
    case Add(seg, route) => AddTimes(c, seg, route);
    case Release(_, _) =>
  }

  /** The call takes the last pin of a cached segment, which is then listed. */
  predicate Lists(c: Cache, op: Op) {
    op.Release? && Pinned(c, op.id, op.route) && c.segments[op.id].routeIds == {op.route}
  }

  /** The list is empty, or some listed key is larger, or the key is no larger than the first one. */
  ghost predicate GoesInOrder(c: Cache, id: string)
    requires WellListed(c) && id in c.segments
  {
    || c.evictable == []
    || Key(c, id) <= Key(c, c.evictable[0])
    || exists i :: 0 <= i < |c.evictable| && Key(c, id) < Key(c, c.evictable[i])
  }

  lemma KeysInsert(c: Cache, d: Cache, i: nat, id: string)
    requires WellListed(c) && WellListed(d) && id in c.segments && i <= |c.evictable|
    requires d.evictable == InsertAt(c.evictable, i, id)
    requires d.segments == c.segments && d.policy == c.policy
    ensures Keys(d) == InsertAt(Keys(c), i, Key(c, id))
  {
    var t := InsertAt(Keys(c), i, Key(c, id));
    hide Key;
    forall k | 0 <= k < |d.evictable|
      ensures Keys(d)[k] == t[k]
    {
      if k < i {
        assert d.evictable[k] == c.evictable[k] && t[k] == Keys(c)[k];
        SameKey(c, d, c.evictable[k]);
      } else if k == i {
        assert d.evictable[k] == id;
        SameKey(c, d, id);
      } else {
        assert d.evictable[k] == c.evictable[k - 1] && t[k] == Keys(c)[k - 1];
        SameKey(c, d, c.evictable[k - 1]);
      }
    }
  }

  lemma SameKey(c: Cache, d: Cache, id: string)
    requires id in c.segments && d.segments == c.segments && d.policy == c.policy
    ensures Key(d, id) == Key(c, id)
  {
  }

  lemma KeysRemove(c: Cache, d: Cache, i: nat)
    requires WellListed(c) && WellListed(d) && i < |c.evictable|
    requires d.evictable == RemoveAt(c.evictable, i) && d.policy == c.policy
    requires forall id :: id in d.evictable ==> Key(d, id) == Key(c, id)
    ensures Keys(d) == RemoveAt(Keys(c), i)
  {
    forall k | 0 <= k < |d.evictable|
      ensures Keys(d)[k] == RemoveAt(Keys(c), i)[k]
    {
      assert d.evictable[k] == if k < i then c.evictable[k] else c.evictable[k + 1];
    }
  }

  /** The first-larger position is where order asks for the key; nothing before it is larger. */
  lemma ListPositionOrder(c: Cache, id: string)
    requires WellListed(c) && Sorted(c) && id in c.segments
    ensures var i, ks := ListPosition(c, id), Keys(c);
            (i > 0 ==> ks[i - 1] <= Key(c, id)) && (i < |ks| ==> Key(c, id) <= ks[i]) <==> GoesInOrder(c, id)
  {
    var j := FirstLarger(c, Key(c, id), 0);
    if j < |c.evictable| {
      assert Key(c, id) < Key(c, c.evictable[j]);
    }
  }

  lemma ListingSorted(c: Cache, id: string)
    requires WellListed(c) && Sorted(c)
    requires id in c.segments && id !in c.evictable
    ensures WellListed(MakeEvictable(c, id))
    ensures Sorted(MakeEvictable(c, id)) <==> GoesInOrder(c, id)
  {
    var i := ListPosition(c, id);
    InsertAtMembers(c.evictable, i, id);
    KeysInsert(c, MakeEvictable(c, id), i, id);
    InsertAscending(Keys(c), i, Key(c, id));
    ListPositionOrder(c, id);
  }

  lemma RemoveAscending(ks: seq<nat>, i: nat)
    requires Ascending(ks) && i < |ks|
    ensures Ascending(RemoveAt(ks, i))
  {
  }

  /** Two caches with the same list and the same listed keys are sorted together. */
  lemma SameKeys(c: Cache, d: Cache)
    requires WellListed(c) && WellListed(d) && d.evictable == c.evictable
    requires forall id :: id in c.evictable ==> Key(d, id) == Key(c, id)
    ensures Keys(d) == Keys(c)
  {
  }

  lemma TouchKeys(c: Cache, seg: Segment, route: int)
    requires ListInv(c)
    ensures ListInv(Touch(c, seg, route))
    ensures forall id :: id in Touch(c, seg, route).evictable ==>
              id in c.segments && Key(Touch(c, seg, route), id) == Key(c, id)
  {
    var d := Touch(c, seg, route);
    TouchListInv(c, seg, route);
    assert route in d.segments[seg.segmentId].routeIds;
    forall id | id in d.evictable
      ensures id in c.segments && Key(d, id) == Key(c, id)
    {
      assert id != seg.segmentId;
      assert id in d.segments;
    }
  }

  lemma TouchSorted(c: Cache, seg: Segment, route: int)
    requires ListInv(c) && Sorted(c)
    ensures ListInv(Touch(c, seg, route)) && Sorted(Touch(c, seg, route))
  {
    var d := Touch(c, seg, route);
    TouchKeys(c, seg, route);
    var i := IndexOf(c.evictable, seg.segmentId);
    if i < |c.evictable| {
      KeysRemove(c, d, i);
      RemoveAscending(Keys(c), i);
    } else {
      SameKeys(c, d);
    }
  }

  lemma PopKeys(c: Cache)
    requires WellListed(c) && c.evictable != []
    ensures Keys(Pop(c)) == Keys(c)[1..]
  {
    var d := Pop(c);
    forall i | 0 <= i < |d.evictable|
      ensures Keys(d)[i] == Keys(c)[i + 1]
    {
      assert d.evictable[i] == c.evictable[i + 1];
      assert d.evictable[i] in d.evictable;
    }
  }

  lemma {:induction false} PopNSorted(c: Cache, n: nat)
    requires WellListed(c) && Sorted(c) && n <= |c.evictable|
    ensures Sorted(PopN(c, n))
    decreases n
  {
    if n > 0 {
      PopKeys(c);
      PopNSorted(Pop(c), n - 1);
    }
  }

  lemma AddSorted(c: Cache, seg: Segment, route: int)
    requires ListInv(c) && Sorted(c)
    ensures ListInv(AddSegment(c, seg, route)) && Sorted(AddSegment(c, seg, route))
  {
    AddSegmentListInv(c, seg, route);
    if Fits(c, seg.segmentSize) {
      var n := Victims(c, seg.segmentSize);
      PopNListInv(c, n);
      PopNSorted(c, n);
      TouchSorted(PopN(c, n), seg, route);
      if Accepts(c, seg.segmentSize) {
        SameKeys(Touch(PopN(c, n), seg, route), AddSegment(c, seg, route));
      }
    }
  }

  /**
    The evictable list stays sorted by the policy's key at a step exactly when
    the step lists nothing, or what it lists goes in order: the code inserts at
    the FRONT when no listed key is larger.
   */
  lemma SortedExactly(c: Cache, op: Op)
    requires ListInv(c) && Sorted(c)
    ensures Sorted(Step(c, op)) <==> (Lists(c, op) ==> GoesInOrder(c, op.id))
  {
    match op
    case Add(seg, route) =>
      AddSorted(c, seg, route);
    case Release(id, route) =>
      if Pinned(c, id, route) {
        var d := Unpin(c, id, route);
        assert Keys(d) == Keys(c);
        if Lists(c, op) {
          ListingSorted(d, id);
          assert GoesInOrder(d, id) <==> GoesInOrder(c, id);
        }
      }
  }

  /** For LRU only an empty list or a later listed touch saves the order, touch times being distinct. */
  lemma LruOrderExactly(c: Cache, op: Op)
    requires ListInv(c) && Sorted(c) && TimesInv(c) && c.policy == LRU
    ensures Sorted(Step(c, op)) <==>
            (Lists(c, op) ==> c.evictable == []
                              || exists i :: 0 <= i < |c.evictable| && Key(c, op.id) < Key(c, c.evictable[i]))
  {
    SortedExactly(c, op);
  }

  /** With the order kept, the next victim is the least recently touched segment nobody needs. */
  lemma SortedVictimIsLeastRecent(c: Cache, id: string)
    requires ListInv(c) && Sorted(c) && TimesInv(c) && c.policy == LRU
    requires id in c.segments && c.segments[id].routeIds == {}
    ensures c.segments[c.evictable[0]].timestamp <= c.segments[id].timestamp
  {
    assert id in c.evictable;
  }

  /** The listing that keeps order: before the first larger key, at the END when there is none. */
  lemma EndPositionKeepsOrder(c: Cache, id: string)
    requires WellListed(c) && Sorted(c)
    requires id in c.segments && id !in c.evictable
    ensures var d := c.(evictable := InsertAt(c.evictable, FirstLarger(c, Key(c, id), 0), id));
            WellListed(d) && Sorted(d)
  {
    var i := FirstLarger(c, Key(c, id), 0);
    var d := c.(evictable := InsertAt(c.evictable, i, id));
    InsertAtMembers(c.evictable, i, id);
    KeysInsert(c, d, i, id);
    InsertAscending(Keys(c), i, Key(c, id));
  }

  /** UpdateSegmentStatus with the end of the list as the default position. */
  function ReleaseAtEnd(c: Cache, id: string, route: int): Cache
    requires WellListed(c)
  {
    if !Lists(c, Release(id, route)) then UpdateSegmentStatus(c, id, route)
    else
      var d := Unpin(c, id, route);
      MakeEvictable(d, id).(evictable := InsertAt(d.evictable, FirstLarger(d, Key(d, id), 0), id))
  }

  lemma ReleaseAtEndListInv(c: Cache, id: string, route: int)
    requires ListInv(c)
    ensures ListInv(ReleaseAtEnd(c, id, route))
  {
    UpdateSegmentStatusListInv(c, id, route);
    if Lists(c, Release(id, route)) {
      var d := Unpin(c, id, route);
      InsertAtMembers(d.evictable, FirstLarger(d, Key(d, id), 0), id);
      var e := ReleaseAtEnd(c, id, route);
      forall k
        ensures k in e.evictable <==> k in e.segments && e.segments[k].routeIds == {}
      {
        assert k != id ==> (k in e.segments <==> k in c.segments);
      }
    }
  }

  /** A run of the cache with that default position. */
  function IntendedRun(c: Cache, ops: seq<Op>): (d: Cache)
    requires ListInv(c)
    ensures ListInv(d)
  {
    if ops == [] then c
    else
      var before, last := IntendedRun(c, ops[..|ops| - 1]), ops[|ops| - 1];
      if last.Add? then Step(before, last)
      else
        ReleaseAtEndListInv(before, last.id, last.route);
        ReleaseAtEnd(before, last.id, last.route)
  }

  /** Position i is that of the first listed segment above this one, or the end if none is. */
  ghost predicate GoesLast(c: Cache, id: string, i: int)
    requires WellListed(c) && id in c.segments
  {
    && 0 <= i <= |c.evictable|
    && (forall k :: 0 <= k < i ==> !Above(c, id, c.evictable[k]))
    && (i < |c.evictable| ==> Above(c, id, c.evictable[i]))
  }

  lemma UnpinKeepsAbove(c: Cache, id: string, route: int, other: string)
    requires id in c.segments && other in c.segments
    ensures Above(c, id, other) <==> Key(Unpin(c, id, route), id) < Key(Unpin(c, id, route), other)
  {
  }

  /** A release with the end as default position, where it lists the segment. */
  lemma ReleaseAtEndLists(c: Cache, id: string, route: int)
    requires ListInv(c) && Lists(c, Release(id, route))
    ensures var d := ReleaseAtEnd(c, id, route);
            && d == UpdateSegmentStatus(c, id, route).(evictable := d.evictable)
            && exists i :: GoesLast(c, id, i) && d.evictable == c.evictable[..i] + [id] + c.evictable[i..]
  {
    var d := Unpin(c, id, route);
    assert WellListed(d) && d.segments[id].routeIds == {};
    var i := FirstLarger(d, Key(d, id), 0);
    forall k | 0 <= k < |c.evictable| {
      UnpinKeepsAbove(c, id, route, c.evictable[k]);
    }
    hide Key, Above, FirstLarger, ListPosition;
    assert GoesLast(c, id, i);
    assert ReleaseAtEnd(c, id, route).evictable == InsertAt(c.evictable, i, id);
  }

  /** That run adds as the cache does, and releases as it does but for the place of a segment it lists. */
  lemma IntendedStep(c: Cache, ops: seq<Op>, op: Op)
    requires ListInv(c)
    ensures var before, now := IntendedRun(c, ops), IntendedRun(c, ops + [op]);
            && (!Lists(before, op) ==> now == Step(before, op))
            && (Lists(before, op) ==>
                  && now == Step(before, op).(evictable := now.evictable)
                  && exists i :: GoesLast(before, op.id, i)
                       && now.evictable == before.evictable[..i] + [op.id] + before.evictable[i..])
  {
    hide ListInv, AddSegment, GoesLast;
    assert (ops + [op])[..|ops|] == ops;
    var before := IntendedRun(c, ops);
    if Lists(before, op) {
      ReleaseAtEndLists(before, op.id, op.route);
    }
    hide Lists, UpdateSegmentStatus;
  }

  lemma ListedAtEndSorted(c: Cache, id: string, route: int)
    requires ListInv(c) && Sorted(c) && Lists(c, Release(id, route))
    ensures WellListed(ReleaseAtEnd(c, id, route)) && Sorted(ReleaseAtEnd(c, id, route))
  {
    var d := Unpin(c, id, route);
    SameKeys(c, d);
    var e := d.(evictable := InsertAt(d.evictable, FirstLarger(d, Key(d, id), 0), id));
    EndPositionKeepsOrder(d, id);
    hide Sorted, InsertAt, FirstLarger;
    SameSorted(e, ReleaseAtEnd(c, id, route));
  }

  /** Order depends on the list, the map and the policy alone. */
  lemma SameSorted(c: Cache, d: Cache)
    requires WellListed(c) && d.evictable == c.evictable && d.segments == c.segments && d.policy == c.policy
    ensures WellListed(d) && (Sorted(d) <==> Sorted(c))
  {
    SameKeys(c, d);
  }

  lemma ReleaseAtEndTimes(c: Cache, id: string, route: int)
    requires ListInv(c) && TimesInv(c)
    ensures TimesInv(ReleaseAtEnd(c, id, route))
  {
    hide ListInv;
  }

  lemma ReleaseAtEndSorted(c: Cache, id: string, route: int)
    requires ListInv(c) && Sorted(c) && TimesInv(c)
    ensures ListInv(ReleaseAtEnd(c, id, route))
    ensures Sorted(ReleaseAtEnd(c, id, route)) && TimesInv(ReleaseAtEnd(c, id, route))
  {
    ReleaseAtEndListInv(c, id, route);
    ReleaseAtEndTimes(c, id, route);
    hide ListInv, TimesInv, Sorted, GoesInOrder;
    if Lists(c, Release(id, route)) {
      ListedAtEndSorted(c, id, route);
    } else {
      SortedExactly(c, Release(id, route));
    }
  }

  /**
    With the end as the default position every reachable list is sorted, under
    either policy and whatever the calls.
   */
  lemma {:induction false} IntendedRunSorted(c: Cache, ops: seq<Op>)
    requires ListInv(c) && Sorted(c) && TimesInv(c)
    ensures Sorted(IntendedRun(c, ops)) && TimesInv(IntendedRun(c, ops))
  {
    if ops != [] {
      var init, last := ops[..|ops| - 1], ops[|ops| - 1];
      IntendedRunSorted(c, init);
      var before := IntendedRun(c, init);
      if last.Add? {
        SortedExactly(before, last);
        TimesStep(before, last);
      } else {
        ReleaseAtEndSorted(before, last.id, last.route);
      }
    }
  }

  /** Call i of the run lists nothing, or what it lists goes in order. */
  ghost predicate InOrderAt(c: Cache, ops: seq<Op>, i: nat)
    requires ListInv(c) && i < |ops|
  {
    Lists(Run(c, ops[..i]), ops[i]) ==> GoesInOrder(Run(c, ops[..i]), ops[i].id)
  }

  ghost predicate SortedAt(c: Cache, ops: seq<Op>, i: nat)
    requires ListInv(c) && i <= |ops|
  {
    Sorted(Run(c, ops[..i]))
  }

  lemma OrderStep(c: Cache, ops: seq<Op>, i: nat)
    requires ListInv(c) && i < |ops| && SortedAt(c, ops, i)
    ensures SortedAt(c, ops, i + 1) <==> InOrderAt(c, ops, i)
  {
    hide Sorted, GoesInOrder, ListInv, Step;
    assert ops[..i + 1] == ops[..i] + [ops[i]];
    RunStep(c, ops[..i], ops[i]);
    SortedExactly(Run(c, ops[..i]), ops[i]);
  }

  lemma {:induction false} SortedUpTo(c: Cache, ops: seq<Op>, n: nat)
    requires ListInv(c) && Sorted(c) && n <= |ops|
    requires forall i :: 0 <= i < n ==> InOrderAt(c, ops, i)
    ensures SortedAt(c, ops, n)
  {
    hide Sorted, InOrderAt, ListInv;
    if n > 0 {
      SortedUpTo(c, ops, n - 1);
      OrderStep(c, ops, n - 1);
    }
  }

  /** A run keeps the list sorted all along exactly when every listing goes in order. */
  lemma SortedRunExactly(c: Cache, ops: seq<Op>)
    requires ListInv(c) && Sorted(c)
    ensures (forall i :: 0 <= i <= |ops| ==> SortedAt(c, ops, i))
        <==> (forall i :: 0 <= i < |ops| ==> InOrderAt(c, ops, i))
  {
    hide Sorted, InOrderAt, SortedAt, ListInv;
    if forall i :: 0 <= i <= |ops| ==> SortedAt(c, ops, i) {
      forall i | 0 <= i < |ops|
        ensures InOrderAt(c, ops, i)
      {
        assert SortedAt(c, ops, i) && SortedAt(c, ops, i + 1);
        OrderStep(c, ops, i);
      }
    }
    if forall i :: 0 <= i < |ops| ==> InOrderAt(c, ops, i) {
      forall i | 0 <= i <= |ops|
        ensures SortedAt(c, ops, i)
      {
        SortedUpTo(c, ops, i);
      }
    }
  }

  /** Touch times stay distinct over every run. */
  lemma {:induction false} RunTimes(c: Cache, ops: seq<Op>)
    requires ListInv(c) && TimesInv(c)
    ensures TimesInv(Run(c, ops)) && Run(c, ops).policy == c.policy
  {
    if ops != [] {
      hide TimesInv, ListInv, Step;
      var before := Run(c, ops[..|ops| - 1]);
      RunTimes(c, ops[..|ops| - 1]);
      TimesStep(before, ops[|ops| - 1]);
      StepPolicy(before, ops[|ops| - 1]);
    }
  }

  lemma StepPolicy(c: Cache, op: Op)
    requires ListInv(c)
    ensures Step(c, op).policy == c.policy && Step(c, op).capacity == c.capacity
  {
    if op.Add? && Fits(c, op.seg.segmentSize) {
      PopNFrame(c, Victims(c, op.seg.segmentSize));
    }
  }

  lemma RoomyAdd(c: Cache, seg: Segment, route: int)
    requires ListInv(c) && c.currentSize + seg.segmentSize <= c.capacity
    ensures Step(c, Add(seg, route)) == Touch(c, seg, route)
  {
    var touched := Touch(c, seg, route);
    assert touched.events + PopEvents([]) == touched.events;
  }

  lemma RunStep(c: Cache, ops: seq<Op>, op: Op)
    requires ListInv(c)
    ensures Run(c, ops + [op]) == Step(Run(c, ops), op)
  {
    assert (ops + [op])[..|ops|] == ops;
  }

  /** One run after another. */
  lemma {:induction false} RunConcat(c: Cache, a: seq<Op>, b: seq<Op>)
    requires ListInv(c)
    ensures Run(c, a + b) == Run(Run(c, a), b)
  {
    hide Step, ListInv;
    if b == [] {
      assert a + b == a;
    } else {
      assert (a + b)[..|a + b| - 1] == a + b[..|b| - 1];
      RunConcat(c, a, b[..|b| - 1]);
    }
  }

  lemma TouchTwo(c: Cache)
    requires c == Empty(LRU, c.capacity) && c.capacity >= 2
    ensures var d := Step(Step(c, Add(Segment("a", 1), 1)), Add(Segment("b", 1), 2));
            && d.policy == LRU && d.evictable == []
            && d.segments == map["a" := Metadata(1, {1}, 1, 0), "b" := Metadata(1, {2}, 2, 0)]
  {
    RoomyAdd(c, Segment("a", 1), 1);
    var c1 := Touch(c, Segment("a", 1), 1);
    assert c1.segments == map["a" := Metadata(1, {1}, 1, 0)] && c1.currentSize == 1;
    RoomyAdd(c1, Segment("b", 1), 2);
  }

  /**
    The order is really lost: touch a, touch b, release a, release b lists b
    first, so the next victim is b although a was touched less recently.
   */
  lemma LruOrderLost(capacity: nat)
    requires capacity >= 2
    ensures var ops := [Add(Segment("a", 1), 1), Add(Segment("b", 1), 2), Release("a", 1), Release("b", 2)];
            var d := Run(Empty(LRU, capacity), ops);
            && d.evictable == ["b", "a"]
            && Key(d, "a") < Key(d, "b")
  {
    hide *;
    var c := Empty(LRU, capacity);
    EmptyRuns(capacity);
    var o1, o2, o3, o4 := Add(Segment("a", 1), 1), Add(Segment("b", 1), 2), Release("a", 1), Release("b", 2);
    assert [] + [o1] == [o1] && [o1] + [o2] == [o1, o2] && [o1, o2] + [o3] == [o1, o2, o3];
    assert [o1, o2, o3] + [o4] == [o1, o2, o3, o4];
    RunStep(c, [], o1);
    RunStep(c, [o1], o2);
    RunStep(c, [o1, o2], o3);
    RunStep(c, [o1, o2, o3], o4);
    TouchTwo(c);
    var c2 := Step(Step(c, o1), o2);
    ReleaseFirst(c2);
    ReleaseSecond(Step(c2, o3));
  }

  lemma EmptyRuns(capacity: nat)
    ensures var c := Empty(LRU, capacity);
            c.capacity == capacity && ListInv(c) && Run(c, []) == c
  {
  }

  lemma ReleaseFirst(c: Cache)
    requires ListInv(c) && c.evictable == []
    requires "a" in c.segments && c.segments["a"].routeIds == {1}
    ensures var d := Step(c, Release("a", 1));
            && d.evictable == ["a"]
            && d.policy == c.policy
            && d.segments == c.segments["a" := c.segments["a"].(routeIds := {})]
  {
    assert c.segments["a"].routeIds - {1} == {};
  }

  lemma ReleaseSecond(c: Cache)
    requires ListInv(c) && c.policy == LRU && c.evictable == ["a"]
    requires "b" in c.segments && c.segments["b"].routeIds == {2}
    requires c.segments["a"].timestamp < c.segments["b"].timestamp
    ensures var d := Step(c, Release("b", 2));
            d.evictable == ["b", "a"] && Key(d, "a") < Key(d, "b")
  {
    var d := Unpin(c, "b", 2);
    assert FirstLarger(d, Key(d, "b"), 1) == 1;
  }
}
