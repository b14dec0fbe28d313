/**
  The edge node's segment cache as a value: its state, its operations, and the
  structural invariant they keep. Class SegmentCache is proved against these
  functions.
 */
module CacheModel {
  import opened Collections

  datatype Policy = LRU | LFU

  datatype EventType = PushEvent | TouchEvent | EvictableEvent | PopEvent

  datatype Event = Event(segmentId: string, routeId: int, eventType: EventType)

  datatype Segment = Segment(segmentId: string, segmentSize: nat)

  datatype Metadata = Metadata(segSize: nat, routeIds: set<int>, timestamp: nat, popularity: nat)

  datatype Cache = Cache(
    policy: Policy,
    capacity: nat,
    evictable: seq<string>,
    segments: map<string, Metadata>,
    currentSize: int,
    evictableSize: int,
    currentTimestamp: nat,
    evictCount: nat,
    promoteCount: nat,
    events: seq<Event>)

  const SEG_SIZE: Metadata -> int := (md: Metadata) => md.segSize

  const NO_ROUTE := -1

  function Empty(policy: Policy, capacity: nat): Cache {
    Cache(policy, capacity, [], map[], 0, 0, 0, 0, 0, [])
  }

  // ----- the structural invariant -----

  /** Sum of the stored sizes of the listed ids. */
  ghost function ListSum(m: map<string, Metadata>, ids: seq<string>): nat {
    if ids == [] then 0
    else (if ids[0] in m then m[ids[0]].segSize else 0) + ListSum(m, ids[1..])
  }

  ghost predicate WellListed(c: Cache) {
    && Distinct(c.evictable)
    && forall id :: id in c.evictable ==> id in c.segments
  }

  /** An id is listed once, exactly when it is cached and no route needs it. */
  ghost predicate ListInv(c: Cache) {
    && Distinct(c.evictable)
    && forall id :: id in c.evictable <==> id in c.segments && c.segments[id].routeIds == {}
  }

  /** The list agrees with the map, and the running sizes with what is stored. */
  ghost predicate Inv(c: Cache) {
    && ListInv(c)
    && c.currentSize == MapSum(c.segments, SEG_SIZE)
    && c.evictableSize == ListSum(c.segments, c.evictable)
    && c.currentSize <= c.capacity
  }

  predicate Pinned(c: Cache, id: string, route: int) {
    id in c.segments && route in c.segments[id].routeIds
  }

  /** What DeliveredSegment answers. */
  predicate Delivered(c: Cache, id: string, route: int) {
    !Pinned(c, id, route)
  }

  function FreeSpace(c: Cache): int {
    c.capacity - c.currentSize + c.evictableSize
  }

  // ----- eviction -----

  function Pop(c: Cache): (d: Cache)
    requires WellListed(c) && c.evictable != []
    ensures WellListed(d)
  {
    var id := c.evictable[0];
    var size := c.segments[id].segSize;
    c.(currentSize := c.currentSize - size,
       evictableSize := c.evictableSize - size,
       evictCount := c.evictCount + 1,
       segments := c.segments - {id},
       evictable := c.evictable[1..])
  }

  function PopN(c: Cache, n: nat): (d: Cache)
    requires WellListed(c) && n <= |c.evictable|
    ensures WellListed(d)
    ensures d.evictable == c.evictable[n..]
    decreases n
  {
    if n == 0 then c else PopN(Pop(c), n - 1)
  }

  /** There is room for `excess` more bytes, possibly after evictions. */
  predicate Fits(c: Cache, excess: nat) {
    || c.currentSize + excess <= c.capacity
    || c.currentSize - c.evictableSize + excess <= c.capacity
  }

  /** How many segments the eviction loop pops to make room for `excess` bytes. */
  function Victims(c: Cache, excess: nat): (n: nat)
    requires WellListed(c)
    ensures n <= |c.evictable|
    decreases |c.evictable|
  {
    if c.currentSize + excess <= c.capacity || c.evictable == [] then 0
    else 1 + Victims(Pop(c), excess)
  }

  // ----- adding a segment -----

  function PopEvents(ids: seq<string>): (es: seq<Event>)
    ensures |es| == |ids|
  {
    seq(|ids|, i requires 0 <= i < |ids| => Event(ids[i], NO_ROUTE, PopEvent))
  }

  function Touch(c: Cache, seg: Segment, route: int): Cache {
    var id := seg.segmentId;
    var now := c.currentTimestamp + 1;
    if id !in c.segments then
      c.(segments := c.segments[id := Metadata(seg.segmentSize, {route}, now, 0)],
         currentSize := c.currentSize + seg.segmentSize,
         currentTimestamp := now,
         events := c.events + [Event(id, route, PushEvent)])
    else
      var md := c.segments[id];
      var i := IndexOf(c.evictable, id);
      var listed := i < |c.evictable|;
      c.(segments := c.segments[id := Metadata(md.segSize, md.routeIds + {route}, now, md.popularity + 1)],
         evictable := if listed then RemoveAt(c.evictable, i) else c.evictable,
         evictableSize := c.evictableSize - (if listed then seg.segmentSize else 0),
         promoteCount := c.promoteCount + (if listed then 1 else 0),
         currentTimestamp := now,
         events := c.events + [Event(id, route, TouchEvent)])
  }

  function Evicted(c: Cache, seg: Segment): seq<string>
    requires WellListed(c)
  {
    c.evictable[..Victims(c, seg.segmentSize)]
  }

  /** The call succeeds: the sizes promise room, and popping does give it. */
  predicate Accepts(c: Cache, excess: nat)
    requires WellListed(c)
  {
    Fits(c, excess) && PopN(c, Victims(c, excess)).currentSize + excess <= c.capacity
  }

  /** The cache after the call; when the loop runs out of victims, what it popped stays popped. */
  function AddSegment(c: Cache, seg: Segment, route: int): Cache
    requires WellListed(c)
  {
    if !Fits(c, seg.segmentSize) then c
    else
      var room := PopN(c, Victims(c, seg.segmentSize));
      if !Accepts(c, seg.segmentSize) then room
      else
        var touched := Touch(room, seg, route);
        touched.(events := touched.events + PopEvents(Evicted(c, seg)))
  }

  // ----- releasing a segment -----

  /** The ordering key of the policy: touch time for LRU, use count for LFU. */
  function Key(c: Cache, id: string): nat
    requires id in c.segments
  {
    match c.policy
    case LRU => c.segments[id].timestamp
    case LFU => c.segments[id].popularity
  }

  /** The first listed position from i on whose key is larger, or the list's length. */
  function FirstLarger(c: Cache, key: nat, i: nat): (j: nat)
    requires WellListed(c) && i <= |c.evictable|
    ensures i <= j <= |c.evictable|
    ensures forall k :: i <= k < j ==> Key(c, c.evictable[k]) <= key
    ensures j < |c.evictable| ==> key < Key(c, c.evictable[j])
    decreases |c.evictable| - i
  {
    if i == |c.evictable| then i
    else if key < Key(c, c.evictable[i]) then i
    else FirstLarger(c, key, i + 1)
  }

  /** Where the code lists an id: before the first larger key, and in FRONT when there is none. */
  function ListPosition(c: Cache, id: string): (i: nat)
    requires WellListed(c) && id in c.segments
    ensures i <= |c.evictable|
  {
    var j := FirstLarger(c, Key(c, id), 0);
    if j == |c.evictable| then 0 else j
  }

  function MakeEvictable(c: Cache, id: string): Cache
    requires WellListed(c) && id in c.segments
  {
    c.(evictable := InsertAt(c.evictable, ListPosition(c, id), id),
       evictableSize := c.evictableSize + c.segments[id].segSize,
       events := c.events + [Event(id, NO_ROUTE, EvictableEvent)])
  }

  function Unpin(c: Cache, id: string, route: int): Cache
    requires id in c.segments
  {
    var md := c.segments[id];
    c.(segments := c.segments[id := md.(routeIds := md.routeIds - {route})])
  }

  function UpdateSegmentStatus(c: Cache, id: string, route: int): Cache
    requires WellListed(c)
  {
    if !Pinned(c, id, route) then c
    else
      var d := Unpin(c, id, route);
      if d.segments[id].routeIds == {} then MakeEvictable(d, id) else d
  }

  // ----- sums over the evictable list -----

  lemma {:induction false} ListSumFrame(m: map<string, Metadata>, n: map<string, Metadata>, ids: seq<string>)
    requires forall id :: id in ids ==> id in m && id in n && m[id].segSize == n[id].segSize
    ensures ListSum(m, ids) == ListSum(n, ids)
  {
    if ids != [] {
      ListSumFrame(m, n, ids[1..]);
    }
  }

  lemma {:induction false} ListSumConcat(m: map<string, Metadata>, a: seq<string>, b: seq<string>)
    ensures ListSum(m, a + b) == ListSum(m, a) + ListSum(m, b)
  {
    if a == [] {
      assert a + b == b;
    } else {
      assert (a + b)[1..] == a[1..] + b;
      ListSumConcat(m, a[1..], b);
    }
  }

  lemma ListSumRemoveAt(m: map<string, Metadata>, ids: seq<string>, i: nat)
    requires i < |ids| && ids[i] in m
    ensures ListSum(m, ids) == ListSum(m, RemoveAt(ids, i)) + m[ids[i]].segSize
  {
    assert ids == ids[..i] + ([ids[i]] + ids[i + 1..]);
    ListSumConcat(m, ids[..i], [ids[i]] + ids[i + 1..]);
    ListSumConcat(m, ids[..i], ids[i + 1..]);
  }

  lemma ListSumInsertAt(m: map<string, Metadata>, ids: seq<string>, i: nat, id: string)
    requires i <= |ids| && id in m
    ensures ListSum(m, InsertAt(ids, i, id)) == ListSum(m, ids) + m[id].segSize
  {
    var t := InsertAt(ids, i, id);
    assert t[i] == id && RemoveAt(t, i) == ids;
    ListSumRemoveAt(m, t, i);
  }

  // ----- the invariant is kept -----

  lemma PopInv(c: Cache)
    requires Inv(c) && c.evictable != []
    ensures Inv(Pop(c))
    ensures FreeSpace(Pop(c)) == FreeSpace(c)
  {
    var id := c.evictable[0];
    MapSumRemove(c.segments, SEG_SIZE, id);
    ListSumFrame(c.segments, c.segments - {id}, c.evictable[1..]);
    var d := Pop(c);
    forall k | k in d.segments && d.segments[k].routeIds == {}
      ensures k in d.evictable
    {
      assert k in c.evictable;
    }
  }

  lemma {:induction false} PopNInv(c: Cache, n: nat)
    requires Inv(c) && n <= |c.evictable|
    ensures Inv(PopN(c, n))
    ensures FreeSpace(PopN(c, n)) == FreeSpace(c)
    decreases n
  {
    if n > 0 {
      PopInv(c);
      PopNInv(Pop(c), n - 1);
    }
  }

  lemma {:induction false} PopNCounters(c: Cache, n: nat)
    requires WellListed(c) && n <= |c.evictable|
    ensures var d := PopN(c, n);
            d == c.(evictable := c.evictable[n..], evictCount := c.evictCount + n,
                    segments := d.segments, currentSize := d.currentSize, evictableSize := d.evictableSize)
    decreases n
  {
    if n > 0 {
      PopNCounters(Pop(c), n - 1);
    }
  }

  lemma HeadMember(ids: seq<string>, n: nat, id: string)
    requires 0 < n <= |ids|
    ensures id in ids[..n] <==> id == ids[0] || id in ids[1..][..n - 1]
  {
    assert ids[..n] == [ids[0]] + ids[1..][..n - 1];
  }

  lemma PopOnce(c: Cache, n: nat)
    requires WellListed(c) && 0 < n <= |c.evictable|
    ensures var d := Pop(c);
            && PopN(c, n) == PopN(d, n - 1) && d.evictable == c.evictable[1..]
            && forall id :: id in d.segments <==> id in c.segments && id != c.evictable[0]
  {
    hide WellListed;
  }

  lemma {:induction false} PopNKeys(c: Cache, n: nat)
    requires WellListed(c) && n <= |c.evictable|
    ensures forall id :: id in PopN(c, n).segments <==> id in c.segments && id !in c.evictable[..n]
    decreases n
  {
    hide Pop, WellListed;
    if n > 0 {
      PopOnce(c, n);
      PopNKeys(Pop(c), n - 1);
      hide PopN;
      forall id
        ensures id in PopN(c, n).segments <==> id in c.segments && id !in c.evictable[..n]
      {
        HeadMember(c.evictable, n, id);
      }
    }
  }

  lemma {:induction false} PopNValues(c: Cache, n: nat)
    requires WellListed(c) && n <= |c.evictable|
    ensures forall id :: id in PopN(c, n).segments ==> id in c.segments && PopN(c, n).segments[id] == c.segments[id]
    decreases n
  {
    if n > 0 {
      PopNValues(Pop(c), n - 1);
    }
  }

  /** Popping touches nothing but the victims, the sizes and the eviction count. */
  lemma PopNFrame(c: Cache, n: nat)
    requires WellListed(c) && n <= |c.evictable|
    ensures var d := PopN(c, n);
            && d == c.(evictable := c.evictable[n..], evictCount := c.evictCount + n,
                       segments := d.segments, currentSize := d.currentSize, evictableSize := d.evictableSize)
    ensures PopN(c, n).segments.Keys == c.segments.Keys - (set id | id in c.evictable[..n])
    ensures forall id :: id in PopN(c, n).segments ==> PopN(c, n).segments[id] == c.segments[id]
  {
    hide PopN, WellListed;
    PopNCounters(c, n);
    PopNKeys(c, n);
    PopNValues(c, n);
  }

  /**
    AddSegment is exact and minimal: it succeeds iff the segment fits in the
    free space admission sees, and then pops the shortest prefix of the list
    that makes room.
   */
  lemma {:induction false} AcceptsExactly(c: Cache, excess: nat)
    requires Inv(c)
    ensures Accepts(c, excess) <==> FreeSpace(c) >= excess
    ensures Fits(c, excess) <==> FreeSpace(c) >= excess
    ensures FreeSpace(c) >= excess ==>
              forall j: nat :: j < Victims(c, excess) ==> PopN(c, j).currentSize + excess > c.capacity
    decreases |c.evictable|
  {
    if Fits(c, excess) && c.currentSize + excess > c.capacity {
      assert c.evictable != [];
      PopInv(c);
      AcceptsExactly(Pop(c), excess);
      forall j: nat | j < Victims(c, excess)
        ensures PopN(c, j).currentSize + excess > c.capacity
      {
        if j > 0 {
          assert PopN(c, j) == PopN(Pop(c), j - 1);
        }
      }
    }
  }

  /** The size carried by a call agrees with the stored one, or is never subtracted. */
  predicate SizeAgrees(c: Cache, seg: Segment)
    requires WellListed(c)
  {
    seg.segmentId in c.evictable[Victims(c, seg.segmentSize)..] ==>
      seg.segmentSize == c.segments[seg.segmentId].segSize
  }

  lemma TouchListInv(c: Cache, seg: Segment, route: int)
    requires ListInv(c)
    ensures ListInv(Touch(c, seg, route))
  {
    var id := seg.segmentId;
    var d := Touch(c, seg, route);
    if id in c.evictable {
      RemoveAtMembers(c.evictable, IndexOf(c.evictable, id));
    }
    assert route in d.segments[id].routeIds;
    forall k
      ensures k in d.evictable <==> k in d.segments && d.segments[k].routeIds == {}
    {
      assert k != id ==> (k in d.segments <==> k in c.segments);
    }
  }

  /** How far the size of a promoted segment drifts from the list when a call carries a wrong size. */
  lemma TouchSums(c: Cache, seg: Segment, route: int)
    requires Inv(c)
    ensures var id := seg.segmentId;
            var d := Touch(c, seg, route);
            && d.currentSize == MapSum(d.segments, SEG_SIZE)
            && d.evictableSize == ListSum(d.segments, d.evictable)
                                  + (if id in c.evictable then c.segments[id].segSize - seg.segmentSize else 0)
  {
    var id := seg.segmentId;
    var d := Touch(c, seg, route);
    MapSumUpdate(c.segments, SEG_SIZE, id, d.segments[id]);
    if id in c.evictable {
      var i := IndexOf(c.evictable, id);
      RemoveAtMembers(c.evictable, i);
      ListSumRemoveAt(c.segments, c.evictable, i);
    }
    ListSumFrame(c.segments, d.segments, d.evictable);
  }

  lemma AddSegmentListInv(c: Cache, seg: Segment, route: int)
    requires ListInv(c)
    ensures ListInv(AddSegment(c, seg, route))
  {
    if Fits(c, seg.segmentSize) {
      var n := Victims(c, seg.segmentSize);
      PopNListInv(c, n);
      TouchListInv(PopN(c, n), seg, route);
    }
  }

  lemma {:induction false} PopNListInv(c: Cache, n: nat)
    requires ListInv(c) && n <= |c.evictable|
    ensures ListInv(PopN(c, n))
    decreases n
  {
    if n > 0 {
      var d := Pop(c);
      forall k | k in d.segments && d.segments[k].routeIds == {}
        ensures k in d.evictable
      {
        assert k in c.evictable;
      }
      PopNListInv(d, n - 1);
    }
  }

  /**
    AddSegment keeps the invariant exactly when the size it is given agrees
    with the stored size of a segment it promotes out of the evictable list.
   */
  lemma AddSegmentInvExactly(c: Cache, seg: Segment, route: int)
    requires Inv(c)
    ensures Inv(AddSegment(c, seg, route)) <==> !Fits(c, seg.segmentSize) || SizeAgrees(c, seg)
  {
    AddSegmentListInv(c, seg, route);
    AcceptsExactly(c, seg.segmentSize);
    if Fits(c, seg.segmentSize) {
      var n := Victims(c, seg.segmentSize);
      PopNInv(c, n);
      PopNFrame(c, n);
      TouchSums(PopN(c, n), seg, route);
    }
  }

  lemma UpdateSegmentStatusListInv(c: Cache, id: string, route: int)
    requires ListInv(c)
    ensures ListInv(UpdateSegmentStatus(c, id, route))
  {
    if Pinned(c, id, route) {
      var d := Unpin(c, id, route);
      if d.segments[id].routeIds == {} {
        InsertAtMembers(d.evictable, ListPosition(d, id), id);
      }
      var e := UpdateSegmentStatus(c, id, route);
      forall k
        ensures k in e.evictable <==> k in e.segments && e.segments[k].routeIds == {}
      {
        assert k != id ==> (k in e.segments <==> k in c.segments);
      }
    }
  }

  lemma UpdateSegmentStatusInv(c: Cache, id: string, route: int)
    requires Inv(c)
    ensures Inv(UpdateSegmentStatus(c, id, route))
  {
    UpdateSegmentStatusListInv(c, id, route);
    if Pinned(c, id, route) {
      var d := Unpin(c, id, route);
      MapSumUpdate(c.segments, SEG_SIZE, id, d.segments[id]);
      ListSumFrame(c.segments, d.segments, c.evictable);
      if d.segments[id].routeIds == {} {
        ListSumInsertAt(d.segments, d.evictable, ListPosition(d, id), id);
      }
    }
  }

  lemma TouchFreeSpace(c: Cache, seg: Segment, route: int)
    requires ListInv(c)
    ensures var pinned := seg.segmentId in c.segments && c.segments[seg.segmentId].routeIds != {};
            FreeSpace(Touch(c, seg, route)) == FreeSpace(c) - (if pinned then 0 else seg.segmentSize)
  {
  }

  /**
    What an accepted call costs admission: nothing when the segment was pinned,
    its size otherwise, whether it was absent, promoted, or evicted to make
    room for itself.
   */
  lemma AddSegmentFreeSpace(c: Cache, seg: Segment, route: int)
    requires Inv(c) && Accepts(c, seg.segmentSize)
    ensures var pinned := seg.segmentId in c.segments && c.segments[seg.segmentId].routeIds != {};
            FreeSpace(AddSegment(c, seg, route)) == FreeSpace(c) - (if pinned then 0 else seg.segmentSize)
  {
    var n := Victims(c, seg.segmentSize);
    PopNInv(c, n);
    PopNFrame(c, n);
    TouchFreeSpace(PopN(c, n), seg, route);
    PrefixUnpinned(c, n);
  }

  function Without(ids: seq<string>, id: string): seq<string> {
    if ids == [] then []
    else (if ids[0] == id then [] else [ids[0]]) + Without(ids[1..], id)
  }

  lemma {:induction false} NothingWithout(ids: seq<string>, id: string)
    requires id !in ids
    ensures Without(ids, id) == ids
  {
    if ids != [] {
      NothingWithout(ids[1..], id);
    }
  }

  lemma DistinctTail(ids: seq<string>)
    requires ids != [] && Distinct(ids)
    ensures Distinct(ids[1..]) && ids[0] !in ids[1..]
  {
  }

  lemma IndexStep(ids: seq<string>, id: string)
    requires ids != []
    ensures IndexOf(ids, id) == if ids[0] == id then 0 else 1 + IndexOf(ids[1..], id)
    ensures IndexOf(ids[1..], id) < |ids|
  {
  }

  lemma RemoveLater(ids: seq<string>, i: nat)
    requires ids != []
    ensures i < |ids| - 1 ==> RemoveAt(ids, i + 1) == [ids[0]] + RemoveAt(ids[1..], i)
    ensures RemoveAt(ids, 0) == ids[1..] && [ids[0]] + ids[1..] == ids
  {
  }

  lemma WithoutStep(ids: seq<string>, id: string)
    requires ids != []
    ensures Without(ids, id) == if ids[0] == id then Without(ids[1..], id) else [ids[0]] + Without(ids[1..], id)
  {
  }

  lemma {:induction false} RemoveIsWithout(ids: seq<string>, id: string)
    requires Distinct(ids)
    ensures var i := IndexOf(ids, id); Without(ids, id) == if i < |ids| then RemoveAt(ids, i) else ids
  {
    hide *;
    if ids == [] {
      NothingWithout(ids, id);
    } else {
      DistinctTail(ids);
      IndexStep(ids, id);
      RemoveLater(ids, IndexOf(ids[1..], id));
      WithoutStep(ids, id);
      if ids[0] == id {
        NothingWithout(ids[1..], id);
      } else {
        RemoveIsWithout(ids[1..], id);
      }
    }
  }

  /** What an accepted call evicts, and the entries it leaves. */
  lemma AddSegmentEntries(c: Cache, seg: Segment, route: int)
    requires ListInv(c) && Accepts(c, seg.segmentSize)
    ensures var d, id, now := AddSegment(c, seg, route), seg.segmentId, c.currentTimestamp + 1;
            var gone := Evicted(c, seg);
            && gone <= c.evictable && d.currentTimestamp == now
            && d.segments.Keys == c.segments.Keys - (set k | k in gone) + {id}
            && d.segments[id] == (if id in c.segments && id !in gone then
                 var md := c.segments[id]; Metadata(md.segSize, md.routeIds + {route}, now, md.popularity + 1)
               else Metadata(seg.segmentSize, {route}, now, 0))
            && forall k :: k in d.segments && k != id ==> d.segments[k] == c.segments[k]
  {
    PopNFrame(c, Victims(c, seg.segmentSize));
    hide Victims, PopN, IndexOf, RemoveAt, PopEvents;
  }

  /** What it leaves listed, counted and logged. */
  lemma AddSegmentLog(c: Cache, seg: Segment, route: int)
    requires ListInv(c) && Accepts(c, seg.segmentSize)
    ensures var d, id, gone := AddSegment(c, seg, route), seg.segmentId, Evicted(c, seg);
            var found := id in c.segments && id !in gone;
            && |gone| <= |c.evictable|
            && d.evictable == Without(c.evictable[|gone|..], id)
            && d.evictCount == c.evictCount + |gone|
            && d.promoteCount == c.promoteCount + (if id in c.evictable[|gone|..] then 1 else 0)
            && d.events == c.events + [Event(id, route, if found then TouchEvent else PushEvent)] + PopEvents(gone)
  {
    var n := Victims(c, seg.segmentSize);
    PopNFrame(c, n);
    RemoveIsWithout(c.evictable[n..], seg.segmentId);
    NothingWithout([], seg.segmentId);
    hide Victims, PopN, RemoveAt, PopEvents, Without;
  }

  /** The second segment was touched later, or under LFU used more, than the first. */
  predicate Above(c: Cache, id: string, other: string)
    requires id in c.segments && other in c.segments
  {
    match c.policy
    case LRU => c.segments[id].timestamp < c.segments[other].timestamp
    case LFU => c.segments[id].popularity < c.segments[other].popularity
  }

  /** Position i is that of the first listed segment above this one, or the front if none is. */
  ghost predicate GoesTo(c: Cache, id: string, i: int)
    requires WellListed(c) && id in c.segments
  {
    && 0 <= i <= |c.evictable|
    && (forall k :: 0 <= k < i ==> !Above(c, id, c.evictable[k]))
    && if i < |c.evictable| && Above(c, id, c.evictable[i]) then true
       else i == 0 && forall k :: 0 <= k < |c.evictable| ==> !Above(c, id, c.evictable[k])
  }

  /** A release, whole: it takes the pin, and if that was the segment's last lists and logs it; else nothing changes. */
  lemma ReleaseExactly(c: Cache, id: string, route: int)
    requires ListInv(c)
    ensures var d := UpdateSegmentStatus(c, id, route);
            if id !in c.segments || route !in c.segments[id].routeIds then d == c
            else
              var md := c.segments[id];
              && d.segments == c.segments[id := md.(routeIds := md.routeIds - {route})]
              && (md.routeIds != {route} ==> d == c.(segments := d.segments))
              && (md.routeIds == {route} ==>
                    && d == c.(segments := d.segments, evictable := d.evictable,
                               evictableSize := c.evictableSize + md.segSize,
                               events := c.events + [Event(id, NO_ROUTE, EvictableEvent)])
                    && exists i :: GoesTo(c, id, i) && d.evictable == c.evictable[..i] + [id] + c.evictable[i..])
  {
    if Pinned(c, id, route) {
      var md, e := c.segments[id], Unpin(c, id, route);
      if md.routeIds == {route} {
        var i := ListPosition(e, id);
        assert forall k :: 0 <= k < |c.evictable| ==>
          (Above(c, id, c.evictable[k]) <==> Key(e, id) < Key(e, c.evictable[k]));
        assert GoesTo(c, id, i);
      } else {
        assert md.routeIds - {route} != {} by {
          assert md.routeIds == {route} + (md.routeIds - {route});
        }
      }
    }
  }

  lemma PrefixUnpinned(c: Cache, n: nat)
    requires ListInv(c) && n <= |c.evictable|
    ensures forall id :: id in c.evictable[..n] ==> id in c.segments && c.segments[id].routeIds == {}
  {
    forall id | id in c.evictable[..n]
      ensures id in c.evictable
    {
    }
  }
}
