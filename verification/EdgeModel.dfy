/** Admission, commitment and the overdue sweep of an edge node, as functions of its cache. */
module EdgeModel {
  import opened Collections
  import opened CacheModel
  import opened CacheRuns

  datatype Request = Request(
    tokenId: int,
    segments: seq<Segment>,
    segmentSources: map<string, string>,
    arrivalTime: int,
    contactTime: real)

  datatype Reply = Reply(tokenId: int, segmentIds: seq<string>, evictedIds: seq<string>)

  /** What the cloud may count on: a prefix of its offer, and nothing for a route the edge already has. */
  predicate EdgeReply(offered: seq<string>, seenBefore: bool, committed: seq<string>) {
    committed <= offered && (seenBefore ==> committed == [])
  }

  const CDNSTR := "ftp"
  const CDNSRC := "ftp:8000"

  predicate Contains(s: string, part: string) {
    |part| <= |s| && (part <= s || (s != [] && Contains(s[1..], part)))
  }

  /** Every CDN address is one source. */
  function Origin(source: string): string {
    if Contains(source, CDNSTR) then CDNSRC else source
  }

  /** The source a request names for a segment. */
  function SourceOf(req: Request, id: string): string {
    Origin(if id in req.segmentSources then req.segmentSources[id] else "")
  }

  /** The text has the part at some position. */
  ghost predicate PartAt(s: string, part: string, i: int) {
    0 <= i && i + |part| <= |s| && s[i..i + |part|] == part
  }

  lemma {:induction false} ContainsExactly(s: string, part: string)
    ensures Contains(s, part) <==> exists i :: PartAt(s, part, i)
  {
    if |part| <= |s| {
      if part <= s {
        assert PartAt(s, part, 0);
      } else if s != [] {
        ContainsExactly(s[1..], part);
        if Contains(s[1..], part) {
          var i :| PartAt(s[1..], part, i);
          assert PartAt(s, part, i + 1);
        }
        if exists i :: PartAt(s, part, i) {
          var i :| PartAt(s, part, i);
          assert i > 0 && PartAt(s[1..], part, i - 1);
        }
      }
    }
  }

  /** The address a request names for a segment. */
  function Named(req: Request, id: string): string {
    if id in req.segmentSources then req.segmentSources[id] else ""
  }

  ghost predicate NamesCloud(req: Request, id: string) {
    exists i :: PartAt(Named(req, id), "ftp", i)
  }

  /** An address is its own source, unless it has "ftp" in it: then it is the cloud's. */
  lemma SourceExactly(req: Request, id: string)
    ensures SourceOf(req, id) == if NamesCloud(req, id) then "ftp:8000" else Named(req, id)
    ensures NamesCloud(req, id) <==> SourceOf(req, id) == CDNSRC
  {
    ContainsExactly(Named(req, id), CDNSTR);
    assert PartAt(CDNSRC, "ftp", 0);
    hide Contains, PartAt;
  }

  function Ids(segs: seq<Segment>): (ids: seq<string>)
    ensures |ids| == |segs|
  {
    seq(|segs|, i requires 0 <= i < |segs| => segs[i].segmentId)
  }

  function TotalSize(segs: seq<Segment>): nat {
    if segs == [] then 0 else TotalSize(segs[..|segs| - 1]) + segs[|segs| - 1].segmentSize
  }

  /** Bytes of the listed segments that the cache does not hold. */
  function MissingSize(c: Cache, segs: seq<Segment>): nat {
    if segs == [] then 0
    else
      var last := segs[|segs| - 1];
      MissingSize(c, segs[..|segs| - 1]) + if last.segmentId in c.segments then 0 else last.segmentSize
  }

  function SizeAt(segs: seq<Segment>): nat -> int {
    (i: nat) => if i < |segs| then segs[i].segmentSize else 0
  }

  /** Bytes of the segments at these positions. */
  ghost function BytesAt(segs: seq<Segment>, at: set<nat>): int {
    SetSum(at, SizeAt(segs))
  }

  lemma NoBytes(segs: seq<Segment>)
    ensures BytesAt(segs, {}) == 0
  {
  }

  /** One segment more, counted or not. */
  lemma BytesSnoc(segs: seq<Segment>, at: set<nat>)
    requires segs != [] && forall i :: i in at ==> i < |segs| - 1
    ensures var n: nat := |segs| - 1;
            && BytesAt(segs, at) == BytesAt(segs[..n], at)
            && BytesAt(segs, at + {n}) == BytesAt(segs[..n], at) + segs[n].segmentSize
  {
    var n: nat := |segs| - 1;
    SetSumSame(at, SizeAt(segs), SizeAt(segs[..n]));
    SetSumAdd(at, SizeAt(segs), n);
  }

  ghost function Absent(c: Cache, segs: seq<Segment>): set<nat> {
    set i: nat | i < |segs| && segs[i].segmentId !in c.segments
  }

  /** The missing bytes are those at the positions whose id is not cached. */
  lemma {:induction false} MissingExactly(c: Cache, segs: seq<Segment>)
    ensures MissingSize(c, segs) == BytesAt(segs, Absent(c, segs))
  {
    hide BytesAt;
    if segs == [] {
      NoBytes(segs);
      assert Absent(c, segs) == {};
    } else {
      var n: nat := |segs| - 1;
      var before := Absent(c, segs[..n]);
      MissingExactly(c, segs[..n]);
      BytesSnoc(segs, before);
      assert Absent(c, segs) == if segs[n].segmentId in c.segments then before else before + {n};
    }
  }

  // ----- what admission commits -----

  /**
    Segment i passes admission: the code adds what is already promised to the
    wanted size and also takes it off the available space.
   */
  predicate Admissible(c: Cache, known: set<string>, req: Request, available: int, i: nat)
    requires i < |req.segments|
  {
    var seg := req.segments[i];
    && seg.segmentSize + 2 * TotalSize(req.segments[..i]) <= available
    && (seg.segmentId in c.segments || SourceOf(req, seg.segmentId) in known)
  }

  function CommitCount(c: Cache, known: set<string>, req: Request, available: int, i: nat): (n: nat)
    requires i <= |req.segments|
    ensures i <= n <= |req.segments|
    ensures forall k :: i <= k < n ==> Admissible(c, known, req, available, k)
    ensures n < |req.segments| ==> !Admissible(c, known, req, available, n)
    decreases |req.segments| - i
  {
    if i == |req.segments| || !Admissible(c, known, req, available, i) then i
    else CommitCount(c, known, req, available, i + 1)
  }

  /** The code's two tests at segment i decide whether the prefix goes on. */
  lemma CommitStep(c: Cache, known: set<string>, req: Request, available: int, i: nat)
    requires i < |req.segments|
    ensures var seg, promised := req.segments[i], TotalSize(req.segments[..i]);
            CommitCount(c, known, req, available, i)
            == if seg.segmentSize + promised > available - promised
                  || (seg.segmentId !in c.segments && SourceOf(req, seg.segmentId) !in known)
               then i else CommitCount(c, known, req, available, i + 1)
  {
    hide SourceOf;
  }

  lemma CommitEnd(c: Cache, known: set<string>, req: Request, available: int)
    ensures CommitCount(c, known, req, available, |req.segments|) == |req.segments|
  {
  }

  function Committed(c: Cache, pending: int, known: set<string>, req: Request): seq<Segment> {
    req.segments[..CommitCount(c, known, req, FreeSpace(c) - pending, 0)]
  }

  /** The edge has the segment, or knows a source of it: the named one, the cloud's if "ftp" is in its name. */
  ghost predicate Obtainable(c: Cache, known: set<string>, req: Request, id: string) {
    || id in c.segments
    || (if NamesCloud(req, id) then "ftp:8000" else Named(req, id)) in known
  }

  /** Segment k and what comes before it fit beside a second copy of what comes before it. */
  ghost predicate FitsTwice(c: Cache, pending: int, req: Request, k: nat)
    requires k < |req.segments|
  {
    TotalSize(req.segments[..k]) + TotalSize(req.segments[..k + 1]) <= FreeSpace(c) - pending
  }

  lemma AdmissibleExactly(c: Cache, pending: int, known: set<string>, req: Request, k: nat)
    requires k < |req.segments|
    ensures Admissible(c, known, req, FreeSpace(c) - pending, k)
            <==> FitsTwice(c, pending, req, k) && Obtainable(c, known, req, req.segments[k].segmentId)
  {
    hide SourceOf, FreeSpace, NamesCloud, Named;
    SourceExactly(req, req.segments[k].segmentId);
    assert req.segments[..k + 1][..k] == req.segments[..k];
    assert TotalSize(req.segments[..k + 1]) == TotalSize(req.segments[..k]) + req.segments[k].segmentSize;
    hide TotalSize;
  }

  ghost predicate Grantable(c: Cache, pending: int, known: set<string>, req: Request, k: nat)
    requires k < |req.segments|
  {
    FitsTwice(c, pending, req, k) && Obtainable(c, known, req, req.segments[k].segmentId)
  }

  /** The first n segments can be granted, and the one after them cannot. */
  ghost predicate LongestGrant(c: Cache, pending: int, known: set<string>, req: Request, n: nat) {
    && n <= |req.segments|
    && (forall k :: 0 <= k < n ==> Grantable(c, pending, known, req, k))
    && (n < |req.segments| ==> !Grantable(c, pending, known, req, n))
  }

  /** Admission commits the longest prefix of segments that fit so and can be obtained. */
  lemma CommittedExactly(c: Cache, pending: int, known: set<string>, req: Request)
    ensures var segs := Committed(c, pending, known, req);
            LongestGrant(c, pending, known, req, |segs|) && segs == req.segments[..|segs|]
  {
    hide FreeSpace, Admissible, FitsTwice, Obtainable;
    forall k: nat | k < |req.segments| {
      AdmissibleExactly(c, pending, known, req, k);
    }
  }

  // ----- adding what was committed -----

  function Adds(segs: seq<Segment>, route: int): (ops: seq<Op>)
    ensures |ops| == |segs|
    ensures forall i :: 0 <= i < |ops| ==> ops[i] == Add(segs[i], route)
  {
    seq(|segs|, i requires 0 <= i < |segs| => Add(segs[i], route))
  }

  ghost predicate OnlyAdds(ops: seq<Op>) {
    forall i :: 0 <= i < |ops| ==> ops[i].Add?
  }

  predicate AcceptedTurn(c: Cache, ops: seq<Op>, i: nat)
    requires ListInv(c) && i < |ops|
  {
    ops[i].Add? ==> Accepts(Run(c, ops[..i]), ops[i].seg.segmentSize)
  }

  /** Every AddSegment of the list succeeds when its turn comes. */
  ghost predicate AllAccepted(c: Cache, ops: seq<Op>)
    requires ListInv(c)
  {
    forall i :: 0 <= i < |ops| ==> AcceptedTurn(c, ops, i)
  }

  ghost predicate SizesAgree(sizes: string -> nat, segs: seq<Segment>) {
    forall i :: 0 <= i < |segs| ==> segs[i].segmentSize == sizes(segs[i].segmentId)
  }

  predicate HasPin(c: Cache, id: string) {
    id in c.segments && c.segments[id].routeIds != {}
  }

  lemma AddKeepsPin(c: Cache, seg: Segment, route: int, id: string)
    requires ListInv(c) && HasPin(c, id)
    ensures HasPin(AddSegment(c, seg, route), id)
  {
    if Fits(c, seg.segmentSize) {
      var n := Victims(c, seg.segmentSize);
      PopNFrame(c, n);
      PrefixUnpinned(c, n);
      assert HasPin(PopN(c, n), id);
      assert route in {route} + c.segments[id].routeIds;
    }
  }

  lemma {:induction false} AddsKeepPins(c: Cache, ops: seq<Op>, id: string)
    requires ListInv(c) && OnlyAdds(ops) && HasPin(c, id)
    ensures HasPin(Run(c, ops), id)
  {
    if ops != [] {
      var init, last := ops[..|ops| - 1], ops[|ops| - 1];
      AddsKeepPins(c, init, id);
      AddKeepsPin(Run(c, init), last.seg, last.route, id);
    }
  }

  lemma {:induction false} TotalSizePrefix(segs: seq<Segment>, i: nat)
    requires i < |segs|
    ensures TotalSize(segs[..i]) + segs[i].segmentSize <= TotalSize(segs)
    decreases |segs|
  {
    var init := segs[..|segs| - 1];
    if i < |init| {
      assert init[..i] == segs[..i];
      TotalSizePrefix(init, i);
    }
  }

  lemma CommittedFits(c: Cache, pending: int, known: set<string>, req: Request)
    ensures var segs := Committed(c, pending, known, req);
            segs != [] ==> TotalSize(segs) <= FreeSpace(c) - pending
  {
    var segs := Committed(c, pending, known, req);
    if segs != [] {
      var n := |segs|;
      assert segs[..n - 1] == req.segments[..n - 1];
      assert Admissible(c, known, req, FreeSpace(c) - pending, n - 1);
    }
  }

  /** Accepted additions all end up pinned. */
  lemma {:induction false} AcceptedArePinned(c: Cache, ops: seq<Op>, i: nat)
    requires ListInv(c) && OnlyAdds(ops) && i < |ops|
    requires Accepts(Run(c, ops[..i]), ops[i].seg.segmentSize)
    ensures Pinned(Run(c, ops), ops[i].seg.segmentId, ops[i].route)
  {
    PinSafety(c, ops, ops[i].seg.segmentId, ops[i].route);
    assert AcceptedAt(c, ops, i, ops[i].seg.segmentId, ops[i].route);
  }

  // ----- what accepted additions cost, exactly -----

  ghost function Sized(sizes: string -> nat): string -> int {
    id => sizes(id)
  }

  /** The ids added that were not pinned at the start. */
  ghost function NewIds(c: Cache, ops: seq<Op>): set<string> {
    set i | 0 <= i < |ops| && ops[i].Add? && !HasPin(c, ops[i].seg.segmentId) :: ops[i].seg.segmentId
  }

  lemma NewSnoc(c: Cache, ops: seq<Op>, op: Op)
    requires op.Add?
    ensures NewIds(c, ops + [op])
            == if HasPin(c, op.seg.segmentId) then NewIds(c, ops) else NewIds(c, ops) + {op.seg.segmentId}
  {
    hide HasPin;
    var all := ops + [op];
    assert all[|ops|] == op && forall i :: 0 <= i < |ops| ==> all[i] == ops[i];
    forall id | id in NewIds(c, ops)
      ensures id in NewIds(c, all)
    {
      var i :| 0 <= i < |ops| && ops[i].Add? && !HasPin(c, ops[i].seg.segmentId) && ops[i].seg.segmentId == id;
      assert all[i].seg.segmentId == id;
    }
  }

  lemma NewSum(sizes: string -> nat, c: Cache, ops: seq<Op>, op: Op)
    requires op.Add?
    ensures var id := op.seg.segmentId;
            SetSum(NewIds(c, ops + [op]), Sized(sizes))
            == SetSum(NewIds(c, ops), Sized(sizes)) + if HasPin(c, id) || id in NewIds(c, ops) then 0 else sizes(id)
  {
    NewSnoc(c, ops, op);
    hide NewIds, HasPin;
    var id, ids := op.seg.segmentId, NewIds(c, ops);
    if id in ids {
      assert ids + {id} == ids;
    } else {
      SetSumAdd(ids, Sized(sizes), id);
    }
  }

  lemma AddPinsOnlyItsOwn(c: Cache, op: Op, id: string)
    requires ListInv(c) && op.Add? && op.seg.segmentId != id && !HasPin(c, id)
    ensures !HasPin(Step(c, op), id)
  {
    if HasPin(Step(c, op), id) {
      var r := Member(Step(c, op).segments[id].routeIds);
      PinStep(c, op, id, r);
    }
  }

  /** A segment not pinned at the start and not added since is not pinned. */
  lemma {:induction false} AddsPinOnlyTheirs(c: Cache, ops: seq<Op>, id: string)
    requires ListInv(c) && OnlyAdds(ops) && !HasPin(c, id)
    requires forall i :: 0 <= i < |ops| ==> ops[i].seg.segmentId != id
    ensures !HasPin(Run(c, ops), id)
  {
    hide HasPin, Step, ListInv;
    if ops != [] {
      AddsPinOnlyTheirs(c, ops[..|ops| - 1], id);
      AddPinsOnlyItsOwn(Run(c, ops[..|ops| - 1]), ops[|ops| - 1], id);
    }
  }

  /** After accepted additions exactly what was pinned and what was added is pinned. */
  lemma PinnedByNow(c: Cache, ops: seq<Op>, id: string)
    requires ListInv(c) && OnlyAdds(ops) && AllAccepted(c, ops)
    ensures HasPin(Run(c, ops), id) <==> HasPin(c, id) || id in NewIds(c, ops)
  {
    hide ListInv, Run, Accepts, HasPin;
    if HasPin(c, id) {
      AddsKeepPins(c, ops, id);
    } else if id in NewIds(c, ops) {
      var i :| 0 <= i < |ops| && ops[i].Add? && !HasPin(c, ops[i].seg.segmentId) && ops[i].seg.segmentId == id;
      assert AcceptedTurn(c, ops, i);
      AcceptedArePinned(c, ops, i);
      PinnedHasPin(Run(c, ops), id, ops[i].route);
    } else {
      forall i | 0 <= i < |ops|
        ensures ops[i].seg.segmentId != id
      {
        assert ops[i].Add?;
      }
      AddsPinOnlyTheirs(c, ops, id);
    }
  }

  lemma PinnedHasPin(c: Cache, id: string, route: int)
    requires Pinned(c, id, route)
    ensures HasPin(c, id)
  {
  }

  /** An accepted addition lowers the free space by its size unless it was pinned. */
  lemma AddCost(c: Cache, op: Op)
    requires Inv(c) && op.Add? && Accepts(c, op.seg.segmentSize)
    ensures FreeSpace(Step(c, op)) == FreeSpace(c) - if HasPin(c, op.seg.segmentId) then 0 else op.seg.segmentSize
  {
    AddSegmentFreeSpace(c, op.seg, op.route);
  }

  lemma SameTurn(c: Cache, ops: seq<Op>, n: nat, i: nat)
    requires ListInv(c) && i < n <= |ops|
    ensures AcceptedTurn(c, ops, i) <==> AcceptedTurn(c, ops[..n], i)
  {
    assert ops[..n][..i] == ops[..i];
  }

  lemma LastTurn(c: Cache, ops: seq<Op>, op: Op)
    requires ListInv(c) && op.Add?
    ensures AcceptedTurn(c, ops + [op], |ops|) <==> Accepts(Run(c, ops), op.seg.segmentSize)
  {
    assert (ops + [op])[..|ops|] == ops;
  }

  lemma AcceptedSnoc(c: Cache, ops: seq<Op>, op: Op)
    requires ListInv(c) && op.Add?
    ensures AllAccepted(c, ops + [op]) <==> AllAccepted(c, ops) && Accepts(Run(c, ops), op.seg.segmentSize)
  {
    hide AcceptedTurn, ListInv, Run, Accepts;
    var all := ops + [op];
    LastTurn(c, ops, op);
    assert all[..|ops|] == ops;
    forall i | 0 <= i < |ops|
      ensures AcceptedTurn(c, all, i) <==> AcceptedTurn(c, ops, i)
    {
      SameTurn(c, all, |ops|, i);
    }
  }

  lemma InvLists(c: Cache)
    requires Inv(c)
    ensures ListInv(c) && WellListed(c) && forall id :: id in c.evictable ==> id in c.segments
  {
  }

  lemma NothingNew(sizes: string -> nat, c: Cache)
    requires ListInv(c)
    ensures SetSum(NewIds(c, []), Sized(sizes)) == 0 && Run(c, []) == c && AllAccepted(c, [])
  {
    assert NewIds(c, []) == {};
  }

  /** The cost is exact: each id not pinned at the start counts once, however often it is added. */
  lemma {:induction false} CostExactly(sizes: string -> nat, c: Cache, ops: seq<Op>)
    requires Inv(c) && StoredSizes(sizes, c) && CarriedSizes(sizes, ops) && OnlyAdds(ops) && AllAccepted(c, ops)
    ensures FreeSpace(Run(c, ops)) == FreeSpace(c) - SetSum(NewIds(c, ops), Sized(sizes))
  {
    hide Inv, StoredSizes, AllAccepted, NewIds, FreeSpace, Step, Accepts, ListInv, HasPin, Run;
    InvLists(c);
    NothingNew(sizes, c);
    if ops != [] {
      var init, last := ops[..|ops| - 1], ops[|ops| - 1];
      assert last.Add? && last.seg.segmentSize == sizes(last.seg.segmentId) && ops == init + [last];
      assert CarriedSizes(sizes, init) && OnlyAdds(init);
      AcceptedSnoc(c, init, last);
      RunInv(sizes, c, init);
      CostExactly(sizes, c, init);
      PinnedByNow(c, init, last.seg.segmentId);
      AddCost(Run(c, init), last);
      RunStep(c, init, last);
      NewSum(sizes, c, init, last);
    }
  }

  /** Addition i finds room: what is new before it, and itself, fit in the free space of the start. */
  ghost predicate RoomAt(sizes: string -> nat, c: Cache, ops: seq<Op>, i: nat)
    requires i < |ops| && ops[i].Add?
  {
    SetSum(NewIds(c, ops[..i]), Sized(sizes)) + ops[i].seg.segmentSize <= FreeSpace(c)
  }

  lemma RoomSnoc(sizes: string -> nat, c: Cache, ops: seq<Op>, op: Op)
    requires OnlyAdds(ops) && op.Add?
    ensures (forall i :: 0 <= i < |ops| + 1 ==> RoomAt(sizes, c, ops + [op], i))
            <==> (forall i :: 0 <= i < |ops| ==> RoomAt(sizes, c, ops, i))
                 && SetSum(NewIds(c, ops), Sized(sizes)) + op.seg.segmentSize <= FreeSpace(c)
  {
    hide NewIds, FreeSpace;
    var all := ops + [op];
    assert all[..|ops|] == ops && forall i :: 0 <= i < |ops| ==> all[..i] == ops[..i] && all[i] == ops[i];
    assert forall i :: 0 <= i < |ops| ==> (RoomAt(sizes, c, all, i) <==> RoomAt(sizes, c, ops, i));
    assert RoomAt(sizes, c, all, |ops|)
      <==> SetSum(NewIds(c, ops), Sized(sizes)) + op.seg.segmentSize <= FreeSpace(c);
  }

  /** A run of additions is accepted throughout exactly when every one of them finds that room. */
  lemma {:induction false} AllAcceptedExactly(sizes: string -> nat, c: Cache, ops: seq<Op>)
    requires Inv(c) && StoredSizes(sizes, c) && CarriedSizes(sizes, ops) && OnlyAdds(ops)
    ensures ListInv(c)
    ensures AllAccepted(c, ops) <==> forall i :: 0 <= i < |ops| ==> RoomAt(sizes, c, ops, i)
  {
    hide Inv, StoredSizes, AllAccepted, NewIds, FreeSpace, Accepts, ListInv, Run, RoomAt;
    InvLists(c);
    NothingNew(sizes, c);
    if ops != [] {
      var init, last := ops[..|ops| - 1], ops[|ops| - 1];
      assert last.Add? && ops == init + [last] && CarriedSizes(sizes, init) && OnlyAdds(init);
      AllAcceptedExactly(sizes, c, init);
      AcceptedSnoc(c, init, last);
      RoomSnoc(sizes, c, init, last);
      if AllAccepted(c, init) {
        RunInv(sizes, c, init);
        CostExactly(sizes, c, init);
        AcceptsExactly(Run(c, init), last.seg.segmentSize);
      }
    }
  }

  // ----- one request, served at once -----

  /** What is new among additions is no larger than all of them. */
  lemma {:induction false} NewAtMostTotal(sizes: string -> nat, c: Cache, segs: seq<Segment>, route: int)
    requires SizesAgree(sizes, segs)
    ensures SetSum(NewIds(c, Adds(segs, route)), Sized(sizes)) <= TotalSize(segs)
  {
    hide NewIds, HasPin;
    NoNewIds(c);
    if segs == [] {
      assert Adds(segs, route) == [];
    } else {
      var init, last := segs[..|segs| - 1], segs[|segs| - 1];
      assert Adds(segs, route) == Adds(init, route) + [Add(last, route)];
      NewAtMostTotal(sizes, c, init, route);
      NewSum(sizes, c, Adds(init, route), Add(last, route));
    }
  }

  lemma NoNewIds(c: Cache)
    ensures NewIds(c, []) == {}
  {
  }

  /** What admission commits can be added in order, if the pending counter is not negative. */
  lemma CommittedRoom(sizes: string -> nat, c: Cache, pending: int, known: set<string>, req: Request)
    requires Inv(c) && StoredSizes(sizes, c) && SizesAgree(sizes, req.segments) && pending >= 0
    ensures AllAccepted(c, Adds(Committed(c, pending, known, req), req.tokenId))
  {
    var segs := Committed(c, pending, known, req);
    var ops := Adds(segs, req.tokenId);
    assert SizesAgree(sizes, segs) && CarriedSizes(sizes, ops);
    hide Inv, StoredSizes, FreeSpace, NewIds, Committed, AllAccepted, ListInv;
    CommittedFits(c, pending, known, req);
    forall i | 0 <= i < |ops|
      ensures RoomAt(sizes, c, ops, i)
    {
      assert ops[..i] == Adds(segs[..i], req.tokenId);
      NewAtMostTotal(sizes, c, segs[..i], req.tokenId);
      TotalSizePrefix(segs, i);
    }
    AllAcceptedExactly(sizes, c, ops);
  }

  /**
    Reservation soundness: what admission commits, with the pending counter not
    negative, can be added in order, and is then pinned for the route.
   */
  lemma Reservation(sizes: string -> nat, c: Cache, pending: int, known: set<string>, req: Request)
    requires Inv(c) && StoredSizes(sizes, c) && SizesAgree(sizes, req.segments)
    requires pending >= 0
    ensures var segs := Committed(c, pending, known, req);
            var ops := Adds(segs, req.tokenId);
            && AllAccepted(c, ops)
            && forall i :: 0 <= i < |segs| ==> Pinned(Run(c, ops), segs[i].segmentId, req.tokenId)
  {
    CommittedRoom(sizes, c, pending, known, req);
    hide Inv, Committed, StoredSizes, SizesAgree, Accepts, Run, Pinned;
    var segs := Committed(c, pending, known, req);
    var ops := Adds(segs, req.tokenId);
    forall i | 0 <= i < |segs|
      ensures Pinned(Run(c, ops), segs[i].segmentId, req.tokenId)
    {
      assert AcceptedTurn(c, ops, i);
      AcceptedArePinned(c, ops, i);
    }
  }

  /**
    The bound is exact: admission honours every request it can be offered iff
    the pending counter is not negative. `unseen` is any id the cache does not
    hold and `src` any address of a source the edge knows.
   */
  lemma ReservationExactly(c: Cache, pending: int, known: set<string>, unseen: string, src: string)
    requires Inv(c)
    requires unseen !in c.segments && Origin(src) in known
    ensures (forall sizes: string -> nat, req: Request
               {:trigger StoredSizes(sizes, c), SizesAgree(sizes, req.segments)} ::
               StoredSizes(sizes, c) && SizesAgree(sizes, req.segments) ==>
                 AllAccepted(c, Adds(Committed(c, pending, known, req), req.tokenId)))
            <==> pending >= 0
  {
    if pending >= 0 {
      forall sizes: string -> nat, req: Request | StoredSizes(sizes, c) && SizesAgree(sizes, req.segments)
        ensures AllAccepted(c, Adds(Committed(c, pending, known, req), req.tokenId))
      {
        Reservation(sizes, c, pending, known, req);
      }
    } else {
      var size: nat := FreeSpace(c) - pending;
      var seg := Segment(unseen, size);
      var sizes: string -> nat := id => if id in c.segments then c.segments[id].segSize else size;
      var req := Request(0, [seg], map[unseen := src], 0, 0.0);
      assert Admissible(c, known, req, FreeSpace(c) - pending, 0);
      assert Committed(c, pending, known, req) == [seg];
      AcceptsExactly(c, size);
      var ops := Adds([seg], 0);
      assert ops[..0] == [] && !AcceptedTurn(c, ops, 0);
      assert StoredSizes(sizes, c) && SizesAgree(sizes, req.segments);
    }
  }

  // ----- several requests admitted before any is added -----

  /** The pending counter after admitting the requests in order. */
  function PendingAfter(c: Cache, pending: int, known: set<string>, reqs: seq<Request>): int {
    if reqs == [] then pending
    else
      var p := PendingAfter(c, pending, known, reqs[..|reqs| - 1]);
      p + MissingSize(c, Committed(c, p, known, reqs[|reqs| - 1]))
  }

  lemma PendingSnoc(c: Cache, pending: int, known: set<string>, reqs: seq<Request>, last: Request)
    ensures var p := PendingAfter(c, pending, known, reqs);
            PendingAfter(c, pending, known, reqs + [last]) == p + MissingSize(c, Committed(c, p, known, last))
  {
    hide Committed, MissingSize;
    assert (reqs + [last])[..|reqs|] == reqs;
  }

  lemma {:induction false} MissingAtMostTotal(c: Cache, segs: seq<Segment>)
    ensures MissingSize(c, segs) <= TotalSize(segs)
  {
    if segs != [] {
      MissingAtMostTotal(c, segs[..|segs| - 1]);
    }
  }

  /** Promoting a listed segment uses up free space that admission did not reserve. */
  lemma PromotionTakesSpace(c: Cache, listed: string, route: int)
    requires Inv(c) && listed in c.evictable && c.segments[listed].segSize > 0
    ensures var size := c.segments[listed].segSize;
            && 0 <= size <= FreeSpace(c)
            && Accepts(c, size)
            && !Accepts(Step(c, Add(Segment(listed, size), route)), FreeSpace(c))
  {
    var size := c.segments[listed].segSize;
    ListSumRemoveAt(c.segments, c.evictable, IndexOf(c.evictable, listed));
    AcceptsExactly(c, size);
    AddSegmentFreeSpace(c, Segment(listed, size), route);
    AddSegmentInvExactly(c, Segment(listed, size), route);
    assert forall id :: id in c.evictable[Victims(c, size)..] ==> id in c.evictable;
    AcceptsExactly(Step(c, Add(Segment(listed, size), route)), FreeSpace(c));
  }

  /** A one-segment request that fits and is reachable is committed whole. */
  lemma CommitOne(c: Cache, pending: int, known: set<string>, req: Request)
    requires |req.segments| == 1 && req.segments[0].segmentSize <= FreeSpace(c) - pending
    requires req.segments[0].segmentId in c.segments || SourceOf(req, req.segments[0].segmentId) in known
    ensures Committed(c, pending, known, req) == req.segments
  {
    assert Admissible(c, known, req, FreeSpace(c) - pending, 0);
  }
}
