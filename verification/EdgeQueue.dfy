/**
  Several requests admitted one after another and processed later: which of the
  edge's promises are kept, when they are served in admission order or in any
  other, as due times decide.
 */
module EdgeQueue {
  import opened Collections
  import opened CacheModel
  import opened CacheRuns
  import opened EdgeModel
  import opened EdgeSteps

  /** A queued request and how many of its leading segments the edge has committed to. */
  datatype Promise = Promise(req: Request, committed: nat)

  /** What admitting the requests in order promises; whole requests are queued, whatever was committed. */
  function Promises(c: Cache, pending: int, known: set<string>, reqs: seq<Request>): (queue: seq<Promise>)
    ensures |queue| == |reqs|
  {
    if reqs == [] then []
    else
      var init, last := reqs[..|reqs| - 1], reqs[|reqs| - 1];
      Promises(c, pending, known, init)
      + [Promise(last, |Committed(c, PendingAfter(c, pending, known, init), known, last)|)]
  }

  /** The cache after serving the queue: every offered segment in turn, up to the first refusal. */
  function Served(c: Cache, queue: seq<Promise>): (d: Cache)
    requires ListInv(c)
    ensures ListInv(d)
  {
    if queue == [] then c
    else
      var d, req := Served(c, queue[..|queue| - 1]), queue[|queue| - 1].req;
      AfterAdds(d, Attempted(d, req.segments, req.tokenId), req.tokenId)
  }

  /** No committed segment is refused at its turn, nor left out by an earlier refusal. */
  ghost predicate Kept(d: Cache, p: Promise)
    requires ListInv(d)
  {
    p.committed <= AcceptedCount(d, p.req.segments, p.req.tokenId, 0)
  }

  ghost predicate KeptAt(c: Cache, queue: seq<Promise>, k: nat)
    requires ListInv(c) && k < |queue|
  {
    Kept(Served(c, queue[..k]), queue[k])
  }

  ghost predicate Honoured(c: Cache, queue: seq<Promise>)
    requires ListInv(c)
  {
    forall k :: 0 <= k < |queue| ==> KeptAt(c, queue, k)
  }

  /** An edge admits a token once; sizes belong to ids. */
  ghost predicate Proper(sizes: string -> nat, c: Cache, reqs: seq<Request>) {
    && StoredSizes(sizes, c)
    && (forall k :: 0 <= k < |reqs| ==> SizesAgree(sizes, reqs[k].segments))
    && (forall j, k :: 0 <= j < k < |reqs| ==> reqs[j].tokenId != reqs[k].tokenId)
  }

  ghost predicate Whole(queue: seq<Promise>) {
    forall k :: 0 <= k < |queue| ==> queue[k].committed == |queue[k].req.segments|
  }

  /** The same promises, served as due times decide. */
  ghost predicate Reordered(queue: seq<Promise>, promises: seq<Promise>) {
    multiset(queue) == multiset(promises)
  }

  lemma PromisesSnoc(c: Cache, pending: int, known: set<string>, reqs: seq<Request>, last: Request)
    ensures Promises(c, pending, known, reqs + [last])
            == Promises(c, pending, known, reqs)
               + [Promise(last, |Committed(c, PendingAfter(c, pending, known, reqs), known, last)|)]
  {
    hide Committed, PendingAfter;
    assert (reqs + [last])[..|reqs|] == reqs;
  }

  lemma HonouredSnoc(c: Cache, queue: seq<Promise>, p: Promise)
    requires ListInv(c)
    ensures Honoured(c, queue + [p]) <==> Honoured(c, queue) && Kept(Served(c, queue), p)
  {
    hide Kept, Served, ListInv;
    var all := queue + [p];
    assert all[..|queue|] == queue;
    assert forall k :: 0 <= k < |queue| ==> all[..k] == queue[..k] && all[k] == queue[k];
    assert KeptAt(c, all, |queue|) <==> Kept(Served(c, queue), p);
    assert forall k :: 0 <= k < |queue| ==> (KeptAt(c, all, k) <==> KeptAt(c, queue, k));
  }

  // ----- whole requests -----

  /** The additions of the queued requests, one after another. */
  function QueueOps(queue: seq<Promise>): seq<Op> {
    if queue == [] then []
    else QueueOps(queue[..|queue| - 1]) + Adds(queue[|queue| - 1].req.segments, queue[|queue| - 1].req.tokenId)
  }

  lemma {:induction false} AcceptedConcat(c: Cache, a: seq<Op>, b: seq<Op>)
    requires ListInv(c) && OnlyAdds(a) && OnlyAdds(b)
    ensures AllAccepted(c, a + b) <==> AllAccepted(c, a) && AllAccepted(Run(c, a), b)
  {
    hide AllAccepted, Run, Accepts, ListInv;
    if b == [] {
      assert a + b == a;
      NoneRefused(Run(c, a));
    } else {
      var init, last := b[..|b| - 1], b[|b| - 1];
      assert b == init + [last] && a + b == a + init + [last];
      AcceptedConcat(c, a, init);
      RunConcat(c, a, init);
      AcceptedSnoc(c, a + init, last);
      AcceptedSnoc(Run(c, a), init, last);
    }
  }

  lemma NoneRefused(c: Cache)
    requires ListInv(c)
    ensures AllAccepted(c, []) && Run(c, []) == c
  {
  }

  lemma TurnAccepts(c: Cache, segs: seq<Segment>, route: int, k: nat)
    requires ListInv(c) && k < |segs|
    ensures AcceptedTurn(c, Adds(segs, route), k) <==> Accepts(AfterAdds(c, segs[..k], route), segs[k].segmentSize)
  {
    hide Accepts, Run, ListInv;
    AddsPrefix(segs, route, k);
  }

  /** A request is accepted whole exactly when all its additions are. */
  lemma AcceptedWhole(c: Cache, segs: seq<Segment>, route: int)
    requires ListInv(c)
    ensures AcceptedCount(c, segs, route, 0) == |segs| <==> AllAccepted(c, Adds(segs, route))
    ensures AcceptedCount(c, segs, route, 0) == |segs| ==> Attempted(c, segs, route) == segs
  {
    hide Accepts, AfterAdds, ListInv, AcceptedTurn, AcceptedCount;
    var n := AcceptedCount(c, segs, route, 0);
    if n < |segs| {
      TurnAccepts(c, segs, route, n);
      assert !AcceptedTurn(c, Adds(segs, route), n);
    } else {
      forall k | 0 <= k < |segs|
        ensures AcceptedTurn(c, Adds(segs, route), k)
      {
        TurnAccepts(c, segs, route, k);
      }
    }
  }

  /** Whole promises are kept exactly when every addition of the queue is accepted. */
  lemma {:induction false} HonouredIsAccepted(c: Cache, queue: seq<Promise>)
    requires ListInv(c) && Whole(queue)
    ensures OnlyAdds(QueueOps(queue))
    ensures Honoured(c, queue) <==> AllAccepted(c, QueueOps(queue))
    ensures Honoured(c, queue) ==> Served(c, queue) == Run(c, QueueOps(queue))
  {
    hide Accepts, ListInv, AllAccepted, Honoured, Run, Attempted;
    if queue == [] {
      NoneRefused(c);
      NonePromised(c);
    } else {
      var init, p := queue[..|queue| - 1], queue[|queue| - 1];
      var d, ops := Served(c, init), Adds(p.req.segments, p.req.tokenId);
      assert queue == init + [p] && Whole(init) && p.committed == |p.req.segments|;
      HonouredIsAccepted(c, init);
      HonouredSnoc(c, init, p);
      AcceptedConcat(c, QueueOps(init), ops);
      AcceptedWhole(d, p.req.segments, p.req.tokenId);
      RunConcat(c, QueueOps(init), ops);
    }
  }

  lemma NonePromised(c: Cache)
    requires ListInv(c)
    ensures Honoured(c, [])
  {
  }

  // ----- any requests: what is processed need not have been committed -----

  lemma AttemptedPrefix(c: Cache, segs: seq<Segment>, route: int)
    requires ListInv(c)
    ensures Attempted(c, segs, route) <= segs
  {
    hide AcceptedCount, ListInv;
  }

  lemma CarriedAdds(sizes: string -> nat, segs: seq<Segment>, some: seq<Segment>, route: int)
    requires SizesAgree(sizes, segs) && some <= segs
    ensures CarriedSizes(sizes, Adds(some, route))
  {
  }

  lemma {:induction false} ServedInv(sizes: string -> nat, c: Cache, queue: seq<Promise>)
    requires Inv(c) && StoredSizes(sizes, c)
    requires forall k :: 0 <= k < |queue| ==> SizesAgree(sizes, queue[k].req.segments)
    ensures Inv(Served(c, queue)) && StoredSizes(sizes, Served(c, queue))
  {
    hide Inv, StoredSizes, SizesAgree, ListInv, Attempted;
    InvLists(c);
    if queue != [] {
      var init, req := queue[..|queue| - 1], queue[|queue| - 1].req;
      ServedInv(sizes, c, init);
      var d := Served(c, init);
      var tried := Attempted(d, req.segments, req.tokenId);
      AttemptedPrefix(d, req.segments, req.tokenId);
      CarriedAdds(sizes, req.segments, tried, req.tokenId);
      RunInv(sizes, d, Adds(tried, req.tokenId));
    }
  }

  lemma EmptyFits(c: Cache)
    requires Inv(c)
    ensures Accepts(c, 0)
  {
    AcceptsExactly(c, 0);
  }

  /** A promise of nothing but empty segments. */
  ghost predicate Idle(sizes: string -> nat, p: Promise) {
    && SizesAgree(sizes, p.req.segments)
    && p.committed <= |p.req.segments|
    && forall i :: 0 <= i < p.committed ==> p.req.segments[i].segmentSize == 0
  }

  lemma IdleKept(sizes: string -> nat, c: Cache, p: Promise)
    requires Inv(c) && StoredSizes(sizes, c) && Idle(sizes, p)
    ensures ListInv(c) && Kept(c, p)
  {
    hide Inv, StoredSizes, SizesAgree, Accepts, AcceptedCount;
    InvLists(c);
    var segs, route := p.req.segments, p.req.tokenId;
    forall k | 0 <= k < p.committed
      ensures Accepts(AfterAdds(c, segs[..k], route), segs[k].segmentSize)
    {
      CarriedAdds(sizes, segs, segs[..k], route);
      RunInv(sizes, c, Adds(segs[..k], route));
      EmptyFits(AfterAdds(c, segs[..k], route));
    }
    AcceptedAtLeast(c, segs, route, p.committed);
  }

  lemma {:induction false} PendingGrows(c: Cache, pending: int, known: set<string>, reqs: seq<Request>)
    ensures PendingAfter(c, pending, known, reqs) >= pending
  {
    hide Committed, MissingSize;
    if reqs != [] {
      PendingGrows(c, pending, known, reqs[..|reqs| - 1]);
    }
  }

  /** Without space only empty segments are committed. */
  lemma CommitsEmpties(c: Cache, pending: int, known: set<string>, req: Request)
    requires FreeSpace(c) - pending <= 0
    ensures var n := |Committed(c, pending, known, req)|;
            n <= |req.segments| && forall i :: 0 <= i < n ==> req.segments[i].segmentSize == 0
  {
    hide SourceOf, FreeSpace, CommitCount;
    var n := |Committed(c, pending, known, req)|;
    forall i | 0 <= i < n
      ensures req.segments[i].segmentSize == 0
    {
      assert Admissible(c, known, req, FreeSpace(c) - pending, i);
    }
  }

  lemma {:induction false} PromisesIdle(
      sizes: string -> nat, c: Cache, pending: int, known: set<string>, reqs: seq<Request>, k: nat)
    requires FreeSpace(c) - pending <= 0 && k < |reqs|
    requires forall j :: 0 <= j < |reqs| ==> SizesAgree(sizes, reqs[j].segments)
    ensures Idle(sizes, Promises(c, pending, known, reqs)[k])
  {
    hide Committed, PendingAfter, FreeSpace, SizesAgree;
    var n := |reqs| - 1;
    if k < n {
      PromisesIdle(sizes, c, pending, known, reqs[..n], k);
    } else {
      PendingGrows(c, pending, known, reqs[..n]);
      CommitsEmpties(c, PendingAfter(c, pending, known, reqs[..n]), known, reqs[n]);
    }
  }

  lemma ReorderedMember(queue: seq<Promise>, promises: seq<Promise>, k: nat) returns (j: nat)
    requires Reordered(queue, promises) && k < |queue|
    ensures j < |promises| && promises[j] == queue[k]
  {
    assert queue[k] in multiset(queue);
    assert queue[k] in promises;
    j :| 0 <= j < |promises| && promises[j] == queue[k];
  }

  /** Without space to promise, whatever is promised is kept, in any order. */
  lemma NoSpaceKept(
      sizes: string -> nat, c: Cache, pending: int, known: set<string>, reqs: seq<Request>, queue: seq<Promise>)
    requires Inv(c) && Proper(sizes, c, reqs) && FreeSpace(c) - pending <= 0
    requires Reordered(queue, Promises(c, pending, known, reqs))
    ensures ListInv(c) && Honoured(c, queue)
  {
    hide Inv, StoredSizes, SizesAgree, ListInv, Kept, Served, Promises, Reordered;
    InvLists(c);
    forall k | 0 <= k < |queue|
      ensures Idle(sizes, queue[k])
    {
      var j := ReorderedMember(queue, Promises(c, pending, known, reqs), k);
      PromisesIdle(sizes, c, pending, known, reqs, j);
    }
    forall k | 0 <= k < |queue|
      ensures KeptAt(c, queue, k)
    {
      ServedInv(sizes, c, queue[..k]);
      IdleKept(sizes, Served(c, queue[..k]), queue[k]);
    }
  }

  // A first request that takes all the free space when it is processed, and a
  // second one that has been promised some of it.

  lemma FullRefuses(sizes: string -> nat, c: Cache, p: Promise, q: Promise)
    requires Inv(c) && StoredSizes(sizes, c) && SizesAgree(sizes, p.req.segments)
    requires ListInv(c) && AllAccepted(c, Adds(p.req.segments, p.req.tokenId))
    requires SetSum(NewIds(c, Adds(p.req.segments, p.req.tokenId)), Sized(sizes)) == FreeSpace(c)
    requires q.committed == 1 && |q.req.segments| == 1 && q.req.segments[0].segmentSize > 0
    ensures !Honoured(c, [p, q])
  {
    hide Inv, StoredSizes, SizesAgree, ListInv, NewIds, FreeSpace, AllAccepted, Accepts, Run, Attempted;
    var ops := Adds(p.req.segments, p.req.tokenId);
    CarriedAdds(sizes, p.req.segments, p.req.segments, p.req.tokenId);
    CostExactly(sizes, c, ops);
    RunInv(sizes, c, ops);
    AcceptedWhole(c, p.req.segments, p.req.tokenId);
    ServedOne(c, p);
    var d := Served(c, [p]);
    assert d == Run(c, ops);
    AcceptsExactly(d, q.req.segments[0].segmentSize);
    FirstRefused(d, q);
    assert [p, q][..1] == [p];
    assert !KeptAt(c, [p, q], 1);
  }

  lemma ServedOne(c: Cache, p: Promise)
    requires ListInv(c)
    ensures Served(c, [p]) == AfterAdds(c, Attempted(c, p.req.segments, p.req.tokenId), p.req.tokenId)
  {
    hide ListInv, AfterAdds, Attempted;
    assert [p][..0] == [];
    assert Served(c, []) == c;
  }

  lemma FirstRefused(c: Cache, q: Promise)
    requires ListInv(c) && q.committed > 0 && q.req.segments != []
    requires !Accepts(c, q.req.segments[0].segmentSize)
    ensures !Kept(c, q)
  {
    hide ListInv, Accepts;
    assert q.req.segments[..0] == [];
    NoneRefused(c);
    assert AfterAdds(c, [], q.req.tokenId) == c;
  }

  function OneSegment(token: int, seg: Segment, src: string): Request {
    Request(token, [seg], map[seg.segmentId := src], 0, 0.0)
  }

  lemma CommitOneSegment(c: Cache, pending: int, known: set<string>, token: int, seg: Segment, src: string)
    requires seg.segmentId in c.segments || Origin(src) in known
    requires seg.segmentSize <= FreeSpace(c) - pending
    ensures Committed(c, pending, known, OneSegment(token, seg, src)) == [seg]
  {
    hide Origin, FreeSpace;
    CommitOne(c, pending, known, OneSegment(token, seg, src));
  }

  lemma CommitUnknown(c: Cache, pending: int, known: set<string>, token: int, seg: Segment, src: string)
    requires seg.segmentId !in c.segments && Origin(src) !in known
    ensures Committed(c, pending, known, OneSegment(token, seg, src)) == []
  {
    hide Origin, FreeSpace;
    assert !Admissible(c, known, OneSegment(token, seg, src), FreeSpace(c) - pending, 0);
  }

  /** What two requests are promised, one after the other. */
  lemma TwoPromises(c: Cache, pending: int, known: set<string>, first: Request, second: Request)
    ensures var p := pending + MissingSize(c, Committed(c, pending, known, first));
            Promises(c, pending, known, [first, second])
            == [Promise(first, |Committed(c, pending, known, first)|),
                Promise(second, |Committed(c, p, known, second)|)]
  {
    hide Committed, MissingSize, Promises, PendingAfter;
    NonePending(c, pending, known);
    assert [first] == [] + [first] && [first, second] == [first] + [second];
    PromisesSnoc(c, pending, known, [], first);
    PendingSnoc(c, pending, known, [], first);
    PromisesSnoc(c, pending, known, [first], second);
  }

  lemma NonePending(c: Cache, pending: int, known: set<string>)
    ensures PendingAfter(c, pending, known, []) == pending && Promises(c, pending, known, []) == []
    ensures MissingSize(c, []) == 0
  {
  }

  /** Sizes for one new id beside what is stored. */
  function SizeFor(c: Cache, id: string, size: nat, rest: string -> nat): string -> nat {
    x => if x in c.segments then c.segments[x].segSize else if x == id then size else rest(x)
  }

  /** One unpinned segment as large as the free space fills it. */
  lemma OneFills(sizes: string -> nat, c: Cache, seg: Segment, token: int)
    requires Inv(c) && StoredSizes(sizes, c) && seg.segmentId !in c.segments
    requires seg.segmentSize == sizes(seg.segmentId) == FreeSpace(c)
    ensures ListInv(c) && AllAccepted(c, Adds([seg], token))
    ensures SetSum(NewIds(c, Adds([seg], token)), Sized(sizes)) == FreeSpace(c)
  {
    hide Inv, StoredSizes, ListInv, NewIds, FreeSpace, AllAccepted, Accepts, Run;
    InvLists(c);
    NothingNew(sizes, c);
    var op := Add(seg, token);
    assert Adds([seg], token) == [] + [op];
    AcceptsExactly(c, seg.segmentSize);
    AcceptedSnoc(c, [], op);
    NewSum(sizes, c, [], op);
    NoNewIds(c);
  }

  lemma UnknownBreaksQueue(
      c: Cache, pending: int, known: set<string>, u: string, v: string, src: string, stranger: string)
      returns (sizes: string -> nat, reqs: seq<Request>)
    requires Inv(c) && FreeSpace(c) - pending > 0
    requires u !in c.segments && v !in c.segments && u != v && Origin(src) in known && Origin(stranger) !in known
    ensures ListInv(c) && Proper(sizes, c, reqs) && !Honoured(c, Promises(c, pending, known, reqs))
  {
    hide Inv, Origin, ListInv, NewIds, AllAccepted, Committed, MissingSize, Promises, Honoured, FreeSpace;
    InvLists(c);
    SpaceLeft(c);
    var size: nat := FreeSpace(c);
    sizes := SizeFor(c, u, size, x => 1);
    var first := OneSegment(0, Segment(u, size), stranger);
    var second := OneSegment(1, Segment(v, 1), src);
    reqs := [first, second];
    assert Proper(sizes, c, reqs);
    CommitUnknown(c, pending, known, 0, Segment(u, size), stranger);
    NonePending(c, pending, known);
    CommitOneSegment(c, pending, known, 1, Segment(v, 1), src);
    TwoPromises(c, pending, known, first, second);
    OneFills(sizes, c, Segment(u, size), 0);
    FullRefuses(sizes, c, Promise(first, 0), Promise(second, 1));
  }

  lemma SpaceLeft(c: Cache)
    requires Inv(c)
    ensures FreeSpace(c) >= 0
  {
  }

  /**
    Whatever requests with distinct tokens are admitted before any is
    processed, all promises are kept, in admission order or in any, exactly
    when nothing but empty segments can be promised: processing takes whole
    offers, for which nothing was reserved beyond the committed prefix. `u` and
    `v` are ids not cached, `src` any address of a known source and `stranger`
    of an unknown one.
   */
  lemma ServedExactly(
      c: Cache, pending: int, known: set<string>, u: string, v: string, src: string, stranger: string)
    requires Inv(c)
    requires u !in c.segments && v !in c.segments && u != v && Origin(src) in known && Origin(stranger) !in known
    ensures ListInv(c)
    ensures (forall sizes: string -> nat, reqs: seq<Request> {:trigger Proper(sizes, c, reqs)} ::
               Proper(sizes, c, reqs) ==> Honoured(c, Promises(c, pending, known, reqs)))
            <==> FreeSpace(c) - pending <= 0
    ensures (forall sizes: string -> nat, reqs: seq<Request>, queue: seq<Promise>
               {:trigger Proper(sizes, c, reqs), Reordered(queue, Promises(c, pending, known, reqs))} ::
               Proper(sizes, c, reqs) && Reordered(queue, Promises(c, pending, known, reqs)) ==> Honoured(c, queue))
            <==> FreeSpace(c) - pending <= 0
  {
    hide Inv, Origin, ListInv, Proper, Promises, Honoured, FreeSpace;
    InvLists(c);
    if FreeSpace(c) - pending <= 0 {
      forall sizes: string -> nat, reqs: seq<Request>, queue: seq<Promise> |
          Proper(sizes, c, reqs) && Reordered(queue, Promises(c, pending, known, reqs))
        ensures Honoured(c, queue)
      {
        NoSpaceKept(sizes, c, pending, known, reqs, queue);
      }
      forall sizes: string -> nat, reqs: seq<Request> | Proper(sizes, c, reqs)
        ensures Honoured(c, Promises(c, pending, known, reqs))
      {
        NoSpaceKept(sizes, c, pending, known, reqs, Promises(c, pending, known, reqs));
      }
    } else {
      var sizes, reqs := UnknownBreaksQueue(c, pending, known, u, v, src, stranger);
      assert Proper(sizes, c, reqs);
      assert Reordered(Promises(c, pending, known, reqs), Promises(c, pending, known, reqs));
    }
  }

  /** It does not take an unknown source: two segments are enough, of which at most an empty one is committed. */
  lemma KnownSourcesBreakQueue(
      c: Cache, pending: int, known: set<string>, a: string, b: string, d: string, src: string)
      returns (sizes: string -> nat, reqs: seq<Request>)
    requires Inv(c) && pending >= 0 && FreeSpace(c) - pending >= 1 && FreeSpace(c) >= 2
    requires a !in c.segments && b !in c.segments && d !in c.segments && a != b && a != d && b != d
    requires Origin(src) in known
    ensures ListInv(c) && Proper(sizes, c, reqs) && !Honoured(c, Promises(c, pending, known, reqs))
    ensures forall k, i :: 0 <= k < |reqs| && 0 <= i < |reqs[k].segments| ==>
              SourceOf(reqs[k], reqs[k].segments[i].segmentId) in known
  {
    hide *;
    InvLists(c);
    var t: nat := if pending == 0 then 1 else 0;
    var rest: nat := FreeSpace(c) - t;
    var left: nat := FreeSpace(c) - pending - t;
    sizes := SizeFor(c, a, t, x => if x == b then rest else left);
    SizeForIs(c, a, t, x => if x == b then rest else left);
    var first := Request(0, [Segment(a, t), Segment(b, rest)], map[a := src, b := src], 0, 0.0);
    var second := OneSegment(1, Segment(d, left), src);
    OneSegmentIs(1, Segment(d, left), src);
    reqs := [first, second];
    TwoProper(sizes, c, first, second);
    KnownTwo(first, known, src);
    KnownTwo(second, known, src);
    CommitFirstOnly(c, pending, known, first);
    CommitOneSegment(c, pending + t, known, 1, Segment(d, left), src);
    TwoPromises(c, pending, known, first, second);
    TwoFill(sizes, c, first.segments, 0);
    FullRefuses(sizes, c, Promise(first, 1), Promise(second, 1));
  }

  lemma SizeForIs(c: Cache, id: string, size: nat, rest: string -> nat)
    ensures StoredSizes(SizeFor(c, id, size, rest), c)
    ensures forall x :: x !in c.segments ==> SizeFor(c, id, size, rest)(x) == if x == id then size else rest(x)
  {
  }

  lemma OneSegmentIs(token: int, seg: Segment, src: string)
    ensures OneSegment(token, seg, src) == Request(token, [seg], map[seg.segmentId := src], 0, 0.0)
  {
  }

  lemma ProperStored(sizes: string -> nat, c: Cache, reqs: seq<Request>)
    requires Proper(sizes, c, reqs)
    ensures StoredSizes(sizes, c)
  {
  }

  lemma TwoProper(sizes: string -> nat, c: Cache, first: Request, second: Request)
    requires StoredSizes(sizes, c) && first.tokenId != second.tokenId
    requires forall i :: 0 <= i < |first.segments| ==>
               first.segments[i].segmentSize == sizes(first.segments[i].segmentId)
    requires forall i :: 0 <= i < |second.segments| ==>
               second.segments[i].segmentSize == sizes(second.segments[i].segmentId)
    ensures Proper(sizes, c, [first, second]) && SizesAgree(sizes, first.segments)
  {
    hide StoredSizes;
  }

  lemma KnownTwo(req: Request, known: set<string>, src: string)
    requires Origin(src) in known
    requires forall seg :: seg in req.segments ==>
               seg.segmentId in req.segmentSources && req.segmentSources[seg.segmentId] == src
    ensures forall i :: 0 <= i < |req.segments| ==> SourceOf(req, req.segments[i].segmentId) in known
  {
    hide Origin;
    forall i | 0 <= i < |req.segments|
      ensures SourceOf(req, req.segments[i].segmentId) in known
    {
      assert req.segments[i] in req.segments;
    }
  }

  lemma CommitFirstOnly(c: Cache, pending: int, known: set<string>, req: Request)
    requires |req.segments| == 2 && req.segments[0].segmentId !in c.segments
    requires SourceOf(req, req.segments[0].segmentId) in known
    requires var t, rest := req.segments[0].segmentSize, req.segments[1].segmentSize;
             t <= FreeSpace(c) - pending < rest + 2 * t
    ensures Committed(c, pending, known, req) == [req.segments[0]]
    ensures MissingSize(c, [req.segments[0]]) == req.segments[0].segmentSize
  {
    hide SourceOf, FreeSpace;
    var available := FreeSpace(c) - pending;
    assert req.segments[..0] == [] && req.segments[..1] == [req.segments[0]];
    assert [req.segments[0]][..0] == [];
    assert TotalSize(req.segments[..1]) == req.segments[0].segmentSize;
    assert Admissible(c, known, req, available, 0) && !Admissible(c, known, req, available, 1);
  }

  lemma TwoFill(sizes: string -> nat, c: Cache, segs: seq<Segment>, token: int)
    requires Inv(c) && StoredSizes(sizes, c) && SizesAgree(sizes, segs) && |segs| == 2
    requires segs[0].segmentId !in c.segments && segs[1].segmentId !in c.segments
    requires segs[0].segmentId != segs[1].segmentId
    requires segs[0].segmentSize + segs[1].segmentSize == FreeSpace(c)
    ensures ListInv(c) && AllAccepted(c, Adds(segs, token))
    ensures SetSum(NewIds(c, Adds(segs, token)), Sized(sizes)) == FreeSpace(c)
  {
    hide Inv, StoredSizes, ListInv, FreeSpace, AllAccepted;
    InvLists(c);
    NoNewIds(c);
    var one, two := Add(segs[0], token), Add(segs[1], token);
    assert Adds(segs, token) == [one, two] && [one] == [] + [one] && [one, two] == [one] + [two];
    CarriedAdds(sizes, segs, segs, token);
    NewSnoc(c, [], one);
    NewSum(sizes, c, [], one);
    NewSum(sizes, c, [one], two);
    assert [one, two][..0] == [] && [one, two][..1] == [one];
    hide NewIds;
    AllAcceptedExactly(sizes, c, [one, two]);
    assert RoomAt(sizes, c, [one, two], 0) && RoomAt(sizes, c, [one, two], 1);
  }

  // ----- requests committed whole -----

  // What they take from the free space is at most every byte missing at the
  // start, each time it is promised, and every listed segment once.

  function MissingIn(c: Cache, ops: seq<Op>): nat {
    if ops == [] then 0
    else
      var last := ops[|ops| - 1];
      MissingIn(c, ops[..|ops| - 1])
      + if last.Add? && last.seg.segmentId !in c.segments then last.seg.segmentSize else 0
  }

  ghost function ListedIn(c: Cache, ops: seq<Op>): set<string> {
    set i | 0 <= i < |ops| && ops[i].Add? && ops[i].seg.segmentId in c.evictable :: ops[i].seg.segmentId
  }

  lemma {:induction false} MissingConcat(c: Cache, a: seq<Op>, b: seq<Op>)
    ensures MissingIn(c, a + b) == MissingIn(c, a) + MissingIn(c, b)
  {
    if b == [] {
      assert a + b == a;
    } else {
      assert (a + b)[..|a + b| - 1] == a + b[..|b| - 1];
      MissingConcat(c, a, b[..|b| - 1]);
    }
  }

  lemma {:induction false} MissingOfAdds(c: Cache, segs: seq<Segment>, route: int)
    ensures MissingIn(c, Adds(segs, route)) == MissingSize(c, segs)
  {
    if segs != [] {
      assert Adds(segs, route)[..|segs| - 1] == Adds(segs[..|segs| - 1], route);
      MissingOfAdds(c, segs[..|segs| - 1], route);
    }
  }

  lemma ListedSnoc(c: Cache, ops: seq<Op>, op: Op)
    requires op.Add?
    ensures var id := op.seg.segmentId;
            ListedIn(c, ops + [op]) == if id in c.evictable then ListedIn(c, ops) + {id} else ListedIn(c, ops)
  {
    var all := ops + [op];
    assert forall i :: 0 <= i < |ops| ==> all[i] == ops[i];
    assert all[|ops|] == op;
    forall id | id in ListedIn(c, ops)
      ensures id in ListedIn(c, all)
    {
      var i :| 0 <= i < |ops| && ops[i].Add? && ops[i].seg.segmentId in c.evictable && ops[i].seg.segmentId == id;
      assert all[i].seg.segmentId == id;
    }
  }

  /** What is new is missing or listed. */
  lemma {:induction false} NewAtMost(sizes: string -> nat, c: Cache, ops: seq<Op>)
    requires ListInv(c) && OnlyAdds(ops) && CarriedSizes(sizes, ops)
    ensures SetSum(NewIds(c, ops), Sized(sizes)) <= MissingIn(c, ops) + SetSum(ListedIn(c, ops), Sized(sizes))
    ensures NewIds(c, ops) >= ListedIn(c, ops)
  {
    hide NewIds, ListedIn, ListInv, HasPin;
    NothingNewOrListed(c);
    if ops != [] {
      var init, last := ops[..|ops| - 1], ops[|ops| - 1];
      assert last.Add? && ops == init + [last] && CarriedSizes(sizes, init) && OnlyAdds(init);
      NewAtMost(sizes, c, init);
      NewSum(sizes, c, init, last);
      NewSnoc(c, init, last);
      ListedSnoc(c, init, last);
      NewKinds(c, last.seg.segmentId);
      var id := last.seg.segmentId;
      if id in c.evictable && id !in ListedIn(c, init) {
        SetSumAdd(ListedIn(c, init), Sized(sizes), id);
      } else if id in c.evictable {
        assert ListedIn(c, init) + {id} == ListedIn(c, init);
      }
    }
  }

  lemma NothingNewOrListed(c: Cache)
    ensures NewIds(c, []) == {} && ListedIn(c, []) == {}
  {
  }

  lemma NewKinds(c: Cache, id: string)
    requires ListInv(c)
    ensures !HasPin(c, id) <==> id !in c.segments || id in c.evictable
  {
  }

  // ----- the listed segments at risk -----

  /** The first k listed segments of which each alone would pass admission. */
  function AtRisk(c: Cache, available: int, k: nat): seq<Segment>
    requires WellListed(c) && k <= |c.evictable|
  {
    if k == 0 then []
    else
      var id := c.evictable[k - 1];
      var size := c.segments[id].segSize;
      AtRisk(c, available, k - 1) + if size <= available then [Segment(id, size)] else []
  }

  /** Their bytes, which admission does not reserve. */
  function SizeAtRisk(c: Cache, available: int): nat
    requires WellListed(c)
  {
    TotalSize(AtRisk(c, available, |c.evictable|))
  }

  /** A cached segment among the first k listed, with its stored size, that alone would pass admission. */
  predicate IsRisk(c: Cache, available: int, k: nat, seg: Segment)
    requires k <= |c.evictable|
  {
    && seg.segmentId in c.evictable[..k] && seg.segmentId in c.segments
    && seg.segmentSize == c.segments[seg.segmentId].segSize && seg.segmentSize <= available
  }

  lemma {:induction false} RiskMembers(c: Cache, available: int, k: nat)
    requires WellListed(c) && k <= |c.evictable|
    ensures forall seg :: seg in AtRisk(c, available, k) ==> IsRisk(c, available, k, seg)
  {
    hide *;
    RiskEmpty(c, available);
    if k > 0 {
      RiskMembers(c, available, k - 1);
      RiskSnoc(c, available, k);
      forall seg | seg in AtRisk(c, available, k)
        ensures IsRisk(c, available, k, seg)
      {
        RiskMore(c, available, k, seg);
      }
    }
  }

  lemma RiskEmpty(c: Cache, available: int)
    requires WellListed(c)
    ensures AtRisk(c, available, 0) == []
  {
  }

  lemma RiskMore(c: Cache, available: int, k: nat, seg: Segment)
    requires WellListed(c) && 0 < k <= |c.evictable| && seg in AtRisk(c, available, k)
    requires seg in AtRisk(c, available, k - 1) ==> IsRisk(c, available, k - 1, seg)
    ensures IsRisk(c, available, k, seg)
  {
    var id := c.evictable[k - 1];
    assert id in c.segments && c.evictable[..k] == c.evictable[..k - 1] + [id];
  }

  lemma RiskSnoc(c: Cache, available: int, k: nat)
    requires WellListed(c) && 0 < k <= |c.evictable|
    ensures var size := c.segments[c.evictable[k - 1]].segSize;
            && AtRisk(c, available, k)
               == AtRisk(c, available, k - 1) + (if size <= available then [Segment(c.evictable[k - 1], size)] else [])
            && AtRisk(c, available, k - 1) + [] == AtRisk(c, available, k - 1)
            && TotalSize(AtRisk(c, available, k))
                == TotalSize(AtRisk(c, available, k - 1)) + if size <= available then size else 0
  {
    var id := c.evictable[k - 1];
    var init := AtRisk(c, available, k - 1);
    assert (init + [Segment(id, c.segments[id].segSize)])[..|init|] == init;
    assert init + [] == init;
  }

  lemma {:induction false} RiskBounds(sizes: string -> nat, c: Cache, available: int, k: nat, ids: set<string>)
    requires WellListed(c) && StoredSizes(sizes, c) && k <= |c.evictable|
    requires forall id :: id in ids ==> id in c.evictable[..k] && c.segments[id].segSize <= available
    ensures SetSum(ids, Sized(sizes)) <= TotalSize(AtRisk(c, available, k))
  {
    if k > 0 {
      var id := c.evictable[k - 1];
      assert c.evictable[..k] == c.evictable[..k - 1] + [id];
      RiskSnoc(c, available, k);
      var rest := ids - {id};
      if id in ids {
        SetSumRemove(ids, Sized(sizes), id);
      } else {
        assert rest == ids;
      }
      hide AtRisk, TotalSize;
      RiskBounds(sizes, c, available, k - 1, rest);
    } else {
      assert ids == {};
    }
  }

  lemma SizeAtRiskIs(c: Cache, available: int)
    requires WellListed(c)
    ensures SizeAtRisk(c, available) == TotalSize(AtRisk(c, available, |c.evictable|))
    ensures c.evictable[..|c.evictable|] == c.evictable
  {
  }

  /** The largest cached segment that alone would pass admission. */
  ghost function LargestOf(m: map<string, Metadata>, available: int): (n: nat)
    ensures forall id :: id in m && m[id].segSize <= available ==> m[id].segSize <= n
    ensures n == 0 || exists id :: id in m && m[id].segSize == n <= available
    decreases |m|
  {
    if m == map[] then 0
    else
      var id :| id in m;
      var rest := LargestOf(m - {id}, available);
      assert forall j :: j in m && j != id ==> j in m - {id} && (m - {id})[j] == m[j];
      if m[id].segSize <= available && m[id].segSize > rest then m[id].segSize else rest
  }

  ghost function LargestAtRisk(c: Cache, available: int): nat {
    LargestOf(c.segments, available)
  }

  // ----- bounds on whole queues -----

  /** Every segment of the request has its size and alone would pass admission. */
  ghost predicate Fitting(sizes: string -> nat, available: int, segs: seq<Segment>) {
    forall i :: 0 <= i < |segs| ==> segs[i].segmentSize == sizes(segs[i].segmentId) && segs[i].segmentSize <= available
  }

  ghost predicate OpsFit(sizes: string -> nat, available: int, ops: seq<Op>) {
    forall i :: 0 <= i < |ops| ==>
      ops[i].Add? && ops[i].seg.segmentSize == sizes(ops[i].seg.segmentId) && ops[i].seg.segmentSize <= available
  }

  lemma {:induction false} QueueFits(sizes: string -> nat, available: int, queue: seq<Promise>)
    requires forall k :: 0 <= k < |queue| ==> Fitting(sizes, available, queue[k].req.segments)
    ensures OpsFit(sizes, available, QueueOps(queue))
  {
    if queue != [] {
      var n := |queue| - 1;
      assert Fitting(sizes, available, queue[n].req.segments);
      QueueFits(sizes, available, queue[..n]);
    }
  }

  lemma WholeParts(c: Cache, pending: int, known: set<string>, reqs: seq<Request>)
    requires reqs != [] && Whole(Promises(c, pending, known, reqs))
    ensures var init, last := reqs[..|reqs| - 1], reqs[|reqs| - 1];
            && Promises(c, pending, known, reqs)
               == Promises(c, pending, known, init) + [Promise(last, |last.segments|)]
            && Whole(Promises(c, pending, known, init))
            && Committed(c, PendingAfter(c, pending, known, init), known, last) == last.segments
  {
    hide CommitCount, PendingAfter;
    var init, last := reqs[..|reqs| - 1], reqs[|reqs| - 1];
    var before, all := Promises(c, pending, known, init), Promises(c, pending, known, reqs);
    assert all[|init|] == Promise(last, |Committed(c, PendingAfter(c, pending, known, init), known, last)|);
    assert forall k :: 0 <= k < |before| ==> all[k] == before[k];
    assert all[|init|].committed == |last.segments|;
    assert last.segments[..|last.segments|] == last.segments;
  }

  lemma WholeFitting(sizes: string -> nat, c: Cache, pending: int, known: set<string>, req: Request)
    requires SizesAgree(sizes, req.segments) && Committed(c, pending, known, req) == req.segments
    ensures Fitting(sizes, FreeSpace(c) - pending, req.segments)
  {
    hide Committed, FreeSpace;
    CommittedFits(c, pending, known, req);
    forall i | 0 <= i < |req.segments|
      ensures req.segments[i].segmentSize <= FreeSpace(c) - pending
    {
      TotalSizePrefix(req.segments, i);
    }
  }

  lemma {:induction false} PromisesFit(
      sizes: string -> nat, c: Cache, pending: int, known: set<string>, reqs: seq<Request>, k: nat)
    requires k < |reqs| && Whole(Promises(c, pending, known, reqs))
    requires forall j :: 0 <= j < |reqs| ==> SizesAgree(sizes, reqs[j].segments)
    ensures Fitting(sizes, FreeSpace(c) - pending, Promises(c, pending, known, reqs)[k].req.segments)
  {
    hide Committed, PendingAfter, FreeSpace, SizesAgree, Promises, Whole;
    var n := |reqs| - 1;
    WholeParts(c, pending, known, reqs);
    if k < n {
      PromisesFit(sizes, c, pending, known, reqs[..n], k);
    } else {
      PendingGrows(c, pending, known, reqs[..n]);
      WholeFitting(sizes, c, PendingAfter(c, pending, known, reqs[..n]), known, reqs[n]);
    }
  }

  lemma QueueSnoc(queue: seq<Promise>, p: Promise)
    ensures QueueOps(queue + [p]) == QueueOps(queue) + Adds(p.req.segments, p.req.tokenId)
  {
    assert (queue + [p])[..|queue|] == queue;
  }

  /** The missing bytes before each addition, and the addition itself, fit. */
  ghost predicate MissingFit(c: Cache, available: int, ops: seq<Op>) {
    forall i :: 0 <= i < |ops| ==> ops[i].Add? && MissingIn(c, ops[..i]) + ops[i].seg.segmentSize <= available
  }

  /** In admission order the missing bytes and the next segment leave the pending counter's bytes free. */
  lemma {:induction false} InTurnFits(c: Cache, pending: int, known: set<string>, reqs: seq<Request>)
    requires Whole(Promises(c, pending, known, reqs))
    ensures MissingFit(c, FreeSpace(c) - pending, QueueOps(Promises(c, pending, known, reqs)))
  {
    hide *;
    if reqs == [] {
      NonePending(c, pending, known);
      NoneQueued();
      NoneFits(c, FreeSpace(c) - pending);
    } else {
      var init, last := reqs[..|reqs| - 1], reqs[|reqs| - 1];
      WholeParts(c, pending, known, reqs);
      var queue, p := Promises(c, pending, known, init), PendingAfter(c, pending, known, init);
      InTurnFits(c, pending, known, init);
      WholeMissing(c, pending, known, init);
      CommittedFits(c, p, known, last);
      QueueSnoc(queue, Promise(last, |last.segments|));
      MoreFits(c, FreeSpace(c) - pending, QueueOps(queue), last.segments, last.tokenId);
    }
  }

  lemma NoneFits(c: Cache, available: int)
    ensures MissingFit(c, available, [])
  {
  }

  lemma MoreFits(c: Cache, available: int, before: seq<Op>, segs: seq<Segment>, route: int)
    requires MissingFit(c, available, before)
    requires segs != [] ==> MissingIn(c, before) + TotalSize(segs) <= available
    ensures MissingFit(c, available, before + Adds(segs, route))
  {
    hide MissingIn, TotalSize;
    var ops := before + Adds(segs, route);
    forall i | 0 <= i < |ops|
      ensures ops[i].Add? && MissingIn(c, ops[..i]) + ops[i].seg.segmentSize <= available
    {
      if i < |before| {
        assert ops[..i] == before[..i] && ops[i] == before[i];
      } else {
        var j := i - |before|;
        assert ops[..i] == before + Adds(segs[..j], route);
        MissingConcat(c, before, Adds(segs[..j], route));
        MissingOfAdds(c, segs[..j], route);
        MissingAtMostTotal(c, segs[..j]);
        TotalSizePrefix(segs, j);
      }
    }
  }

  /** A whole queue reserves every missing byte. */
  lemma {:induction false} WholeMissing(c: Cache, pending: int, known: set<string>, reqs: seq<Request>)
    requires Whole(Promises(c, pending, known, reqs))
    ensures MissingIn(c, QueueOps(Promises(c, pending, known, reqs))) == PendingAfter(c, pending, known, reqs) - pending
    ensures MissingIn(c, QueueOps(Promises(c, pending, known, reqs))) > 0 ==>
              PendingAfter(c, pending, known, reqs) <= FreeSpace(c)
  {
    hide Committed, PendingAfter, FreeSpace, Promises, Whole, MissingIn, TotalSize, MissingSize;
    NonePending(c, pending, known);
    NoneMissing(c);
    if reqs != [] {
      var init, last := reqs[..|reqs| - 1], reqs[|reqs| - 1];
      WholeParts(c, pending, known, reqs);
      WholeMissing(c, pending, known, init);
      assert reqs == init + [last];
      PendingSnoc(c, pending, known, init, last);
      QueueSnoc(Promises(c, pending, known, init), Promise(last, |last.segments|));
      MissingConcat(c, QueueOps(Promises(c, pending, known, init)), Adds(last.segments, last.tokenId));
      MissingOfAdds(c, last.segments, last.tokenId);
      MissingAtMostTotal(c, last.segments);
      CommittedFits(c, PendingAfter(c, pending, known, init), known, last);
    }
  }

  lemma NoneMissing(c: Cache)
    ensures MissingIn(c, QueueOps([])) == 0 && MissingSize(c, []) == 0
  {
  }

  function MissingOf(c: Cache): Promise -> int {
    (p: Promise) => MissingSize(c, p.req.segments)
  }

  /** The missing bytes of a queue do not depend on its order. */
  lemma {:induction false} QueueMissing(c: Cache, queue: seq<Promise>)
    ensures MissingIn(c, QueueOps(queue)) == MultisetSum(multiset(queue), MissingOf(c))
  {
    hide MissingIn, MissingSize, QueueOps;
    NoneMissing(c);
    if queue != [] {
      var init, p := queue[..|queue| - 1], queue[|queue| - 1];
      assert queue == init + [p];
      QueueMissing(c, init);
      QueueSnoc(init, p);
      MissingConcat(c, QueueOps(init), Adds(p.req.segments, p.req.tokenId));
      MissingOfAdds(c, p.req.segments, p.req.tokenId);
      MultisetSumAdd(multiset(init), MissingOf(c), p);
    }
  }

  lemma ListedBounds(sizes: string -> nat, c: Cache, available: int, ops: seq<Op>)
    requires ListInv(c) && WellListed(c) && StoredSizes(sizes, c) && OpsFit(sizes, available, ops)
    ensures SetSum(ListedIn(c, ops), Sized(sizes)) <= SizeAtRisk(c, available)
  {
    hide ListInv, SizeAtRisk, AtRisk;
    SizeAtRiskIs(c, available);
    var ids := ListedIn(c, ops);
    forall id | id in ids
      ensures id in c.evictable[..|c.evictable|] && c.segments[id].segSize <= available
    {
      var i :| 0 <= i < |ops| && ops[i].Add? && ops[i].seg.segmentId in c.evictable && ops[i].seg.segmentId == id;
      assert ops[i].seg.segmentSize == sizes(id) == c.segments[id].segSize;
    }
    RiskBounds(sizes, c, available, |c.evictable|, ids);
  }

  lemma FitsShape(sizes: string -> nat, available: int, ops: seq<Op>)
    requires OpsFit(sizes, available, ops)
    ensures OnlyAdds(ops) && CarriedSizes(sizes, ops)
    ensures forall i :: 0 <= i <= |ops| ==> OpsFit(sizes, available, ops[..i])
  {
  }

  // ----- served in admission order -----

  /**
    Promises add up: whole requests admitted one after another before any is
    processed, and served in the same order, are all kept if the listed
    segments among them are together no larger than the pending counter was.
   */
  lemma QueuedReservations(sizes: string -> nat, c: Cache, pending: int, known: set<string>, reqs: seq<Request>)
    requires Inv(c) && Proper(sizes, c, reqs) && Whole(Promises(c, pending, known, reqs))
    requires SetSum(ListedIn(c, QueueOps(Promises(c, pending, known, reqs))), Sized(sizes)) <= pending
    ensures ListInv(c) && Honoured(c, Promises(c, pending, known, reqs))
  {
    hide Inv, ListInv, FreeSpace, SizesAgree, Promises, Whole, ListedIn, NewIds, MissingIn, QueueOps, Honoured,
        StoredSizes;
    InvLists(c);
    var queue := Promises(c, pending, known, reqs);
    var ops := QueueOps(queue);
    WholeQueueFits(sizes, c, pending, known, reqs, queue);
    FitsShape(sizes, FreeSpace(c) - pending, ops);
    InTurnFits(c, pending, known, reqs);
    forall i | 0 <= i < |ops|
      ensures RoomAt(sizes, c, ops, i)
    {
      FitsShape(sizes, FreeSpace(c) - pending, ops[..i]);
      NewAtMost(sizes, c, ops[..i]);
      ListedPrefix(sizes, c, ops, i);
    }
    AllAcceptedExactly(sizes, c, ops);
    HonouredIsAccepted(c, queue);
  }

  lemma ListedPrefix(sizes: string -> nat, c: Cache, ops: seq<Op>, i: nat)
    requires i <= |ops|
    ensures SetSum(ListedIn(c, ops[..i]), Sized(sizes)) <= SetSum(ListedIn(c, ops), Sized(sizes))
  {
    SetSumSome(ListedIn(c, ops[..i]), ListedIn(c, ops), Sized(sizes));
  }

  lemma WholeQueueFits(
      sizes: string -> nat, c: Cache, pending: int, known: set<string>, reqs: seq<Request>, queue: seq<Promise>)
    requires Proper(sizes, c, reqs) && Whole(Promises(c, pending, known, reqs))
    requires Reordered(queue, Promises(c, pending, known, reqs))
    ensures OpsFit(sizes, FreeSpace(c) - pending, QueueOps(queue)) && Whole(queue)
  {
    hide FreeSpace, SizesAgree, Promises, Reordered, Fitting;
    var promises := Promises(c, pending, known, reqs);
    forall k | 0 <= k < |queue|
      ensures Fitting(sizes, FreeSpace(c) - pending, queue[k].req.segments)
      ensures queue[k].committed == |queue[k].req.segments|
    {
      var j := ReorderedMember(queue, promises, k);
      PromisesFit(sizes, c, pending, known, reqs, j);
    }
    QueueFits(sizes, FreeSpace(c) - pending, queue);
  }

  // The witness: one request for every segment at risk, perhaps one for a
  // cached segment once more, and one for all that is still promised as free.

  function Single(token: int, seg: Segment): Request {
    Request(token, [seg], map[], 0, 0.0)
  }

  function Singles(segs: seq<Segment>): (reqs: seq<Request>)
    ensures |reqs| == |segs|
    ensures forall i :: 0 <= i < |reqs| ==> reqs[i] == Single(i, segs[i])
  {
    seq(|segs|, i requires 0 <= i < |segs| => Single(i, segs[i]))
  }

  function SinglePromises(segs: seq<Segment>): (queue: seq<Promise>)
    ensures |queue| == |segs|
    ensures forall i :: 0 <= i < |queue| ==> queue[i] == Promise(Single(i, segs[i]), 1)
  {
    seq(|segs|, i requires 0 <= i < |segs| => Promise(Single(i, segs[i]), 1))
  }

  function SingleOps(segs: seq<Segment>): (ops: seq<Op>)
    ensures |ops| == |segs|
    ensures forall i :: 0 <= i < |ops| ==> ops[i] == Add(segs[i], i)
  {
    seq(|segs|, i requires 0 <= i < |segs| => Add(segs[i], i))
  }

  lemma SinglesSnoc(segs: seq<Segment>, seg: Segment)
    ensures Singles(segs + [seg]) == Singles(segs) + [Single(|segs|, seg)]
    ensures SinglePromises(segs + [seg]) == SinglePromises(segs) + [Promise(Single(|segs|, seg), 1)]
    ensures SingleOps(segs + [seg]) == SingleOps(segs) + [Add(seg, |segs|)]
    ensures Adds([seg], |segs|) == [Add(seg, |segs|)]
  {
  }

  ghost predicate AllFit(c: Cache, available: int, segs: seq<Segment>) {
    forall i :: 0 <= i < |segs| ==>
      && segs[i].segmentId in c.segments && segs[i].segmentSize == c.segments[segs[i].segmentId].segSize
      && segs[i].segmentSize <= available
  }

  lemma CommitCached(c: Cache, pending: int, known: set<string>, token: int, seg: Segment)
    requires seg.segmentId in c.segments && seg.segmentSize <= FreeSpace(c) - pending
    ensures Committed(c, pending, known, Single(token, seg)) == [seg] && MissingSize(c, [seg]) == 0
  {
    hide FreeSpace, Origin;
    CommitOne(c, pending, known, Single(token, seg));
    assert [seg][..0] == [];
  }

  /** Requests for cached segments that fit are promised whole, and reserve nothing. */
  lemma {:induction false} SinglesPromised(c: Cache, pending: int, known: set<string>, segs: seq<Segment>)
    requires AllFit(c, FreeSpace(c) - pending, segs)
    ensures PendingAfter(c, pending, known, Singles(segs)) == pending
    ensures Promises(c, pending, known, Singles(segs)) == SinglePromises(segs)
    ensures QueueOps(SinglePromises(segs)) == SingleOps(segs)
  {
    hide PendingAfter, Promises, QueueOps, FreeSpace, Committed, MissingSize;
    if segs == [] {
      NonePending(c, pending, known);
      NoneQueued();
    } else {
      var n := |segs| - 1;
      var init, seg := segs[..n], segs[n];
      assert segs == init + [seg];
      SinglesPromised(c, pending, known, init);
      SinglesSnoc(init, seg);
      CommitCached(c, pending, known, n, seg);
      PromisesSnoc(c, pending, known, Singles(init), Single(n, seg));
      PendingSnoc(c, pending, known, Singles(init), Single(n, seg));
      QueueSnoc(SinglePromises(init), Promise(Single(n, seg), 1));
    }
  }

  lemma NoneQueued()
    ensures QueueOps([]) == []
  {
  }

  lemma RiskFits(c: Cache, available: int)
    requires WellListed(c)
    ensures AllFit(c, available, AtRisk(c, available, |c.evictable|))
  {
    RiskMembers(c, available, |c.evictable|);
    var segs := AtRisk(c, available, |c.evictable|);
    hide AtRisk, WellListed;
    forall i | 0 <= i < |segs|
      ensures IsRisk(c, available, |c.evictable|, segs[i])
    {
      assert segs[i] in segs;
    }
  }

  lemma SomethingAtRisk(c: Cache, available: int)
    requires WellListed(c) && SizeAtRisk(c, available) > 0
    ensures available >= 0
  {
    RiskFits(c, available);
    SizeAtRiskIs(c, available);
    hide AtRisk, SizeAtRisk, WellListed;
    assert AtRisk(c, available, |c.evictable|) != [];
  }

  /** The segments at risk are all new. */
  lemma {:induction false} RiskNew(sizes: string -> nat, c: Cache, available: int, k: nat)
    requires ListInv(c) && WellListed(c) && StoredSizes(sizes, c) && k <= |c.evictable|
    ensures var ops := SingleOps(AtRisk(c, available, k));
            && SetSum(NewIds(c, ops), Sized(sizes)) == TotalSize(AtRisk(c, available, k))
            && forall id :: id in NewIds(c, ops) ==> id in c.evictable[..k]
  {
    hide *;
    RiskEmpty(c, available);
    NoRiskNew(sizes, c);
    if k > 0 {
      RiskNew(sizes, c, available, k - 1);
      RiskSnoc(c, available, k);
      RiskNewStep(sizes, c, available, k);
    }
  }

  lemma NoRiskNew(sizes: string -> nat, c: Cache)
    ensures SetSum(NewIds(c, SingleOps([])), Sized(sizes)) == 0 && NewIds(c, SingleOps([])) == {} && TotalSize([]) == 0
  {
    NoNewIds(c);
    assert SingleOps([]) == [];
  }

  lemma RiskNewStep(sizes: string -> nat, c: Cache, available: int, k: nat)
    requires ListInv(c) && WellListed(c) && StoredSizes(sizes, c) && 0 < k <= |c.evictable|
    requires var ops := SingleOps(AtRisk(c, available, k - 1));
             && SetSum(NewIds(c, ops), Sized(sizes)) == TotalSize(AtRisk(c, available, k - 1))
             && forall id :: id in NewIds(c, ops) ==> id in c.evictable[..k - 1]
    ensures var ops := SingleOps(AtRisk(c, available, k));
            && SetSum(NewIds(c, ops), Sized(sizes)) == TotalSize(AtRisk(c, available, k))
            && forall id :: id in NewIds(c, ops) ==> id in c.evictable[..k]
  {
    hide *;
    NextListed(c, k);
    var id := c.evictable[k - 1];
    var size := c.segments[id].segSize;
    StoredSize(sizes, c, id);
    RiskSnoc(c, available, k);
    var init := AtRisk(c, available, k - 1);
    SinglesSnoc(init, Segment(id, size));
    NewSnoc(c, SingleOps(init), Add(Segment(id, size), |init|));
    NewSum(sizes, c, SingleOps(init), Add(Segment(id, size), |init|));
  }

  lemma NextListed(c: Cache, k: nat)
    requires ListInv(c) && WellListed(c) && 0 < k <= |c.evictable|
    ensures var id := c.evictable[k - 1];
            && id in c.segments && !HasPin(c, id)
            && id !in c.evictable[..k - 1] && c.evictable[..k] == c.evictable[..k - 1] + [id]
  {
    assert c.evictable[k - 1] in c.evictable;
  }

  lemma StoredSize(sizes: string -> nat, c: Cache, id: string)
    requires StoredSizes(sizes, c) && id in c.segments
    ensures sizes(id) == c.segments[id].segSize
  {
  }

  /** Sizes that agree with what is stored and with the witness. */
  lemma WitnessProper(c: Cache, available: nat, segs: seq<Segment>, unseen: string, src: string)
      returns (sizes: string -> nat)
    requires unseen !in c.segments && AllFit(c, available, segs)
    ensures Proper(sizes, c, Singles(segs) + [OneSegment(|segs|, Segment(unseen, available), src)])
    ensures sizes(unseen) == available
  {
    sizes := SizeFor(c, unseen, available, x => 0);
    var reqs := Singles(segs) + [OneSegment(|segs|, Segment(unseen, available), src)];
    forall k | 0 <= k < |reqs|
      ensures SizesAgree(sizes, reqs[k].segments) && reqs[k].tokenId == k
    {
    }
  }

  lemma WitnessPromised(c: Cache, pending: int, known: set<string>, segs: seq<Segment>, unseen: string, src: string)
    requires FreeSpace(c) - pending >= 0 && AllFit(c, FreeSpace(c) - pending, segs) && Origin(src) in known
    ensures var last := OneSegment(|segs|, Segment(unseen, FreeSpace(c) - pending), src);
            Promises(c, pending, known, Singles(segs) + [last]) == SinglePromises(segs) + [Promise(last, 1)]
  {
    hide Committed, PendingAfter, Promises, Origin, FreeSpace, AllFit;
    var last := OneSegment(|segs|, Segment(unseen, FreeSpace(c) - pending), src);
    SinglesPromised(c, pending, known, segs);
    PromisesSnoc(c, pending, known, Singles(segs), last);
    CommitOneSegment(c, pending, known, |segs|, Segment(unseen, FreeSpace(c) - pending), src);
  }

  /** If one addition of a whole queue finds no room, some promise is broken. */
  lemma NoRoomBreaks(sizes: string -> nat, c: Cache, queue: seq<Promise>, ops: seq<Op>, op: Op)
    requires Inv(c) && StoredSizes(sizes, c) && Whole(queue) && QueueOps(queue) == ops + [op]
    requires op.Add? && OnlyAdds(ops + [op]) && CarriedSizes(sizes, ops + [op])
    requires SetSum(NewIds(c, ops), Sized(sizes)) + op.seg.segmentSize > FreeSpace(c)
    ensures ListInv(c) && !Honoured(c, queue)
  {
    hide Inv, StoredSizes, Whole, QueueOps, NewIds, FreeSpace, Honoured, AllAccepted;
    InvLists(c);
    assert (ops + [op])[|ops|] == op && (ops + [op])[..|ops|] == ops;
    AllAcceptedExactly(sizes, c, ops + [op]);
    assert !RoomAt(sizes, c, ops + [op], |ops|);
    HonouredIsAccepted(c, queue);
  }

  lemma SinglesCarried(sizes: string -> nat, c: Cache, available: int, segs: seq<Segment>)
    requires StoredSizes(sizes, c) && AllFit(c, available, segs)
    ensures OnlyAdds(SingleOps(segs)) && CarriedSizes(sizes, SingleOps(segs)) && Whole(SinglePromises(segs))
  {
  }

  lemma RiskBreaksQueue(c: Cache, pending: int, known: set<string>, unseen: string, src: string)
      returns (sizes: string -> nat, reqs: seq<Request>)
    requires Inv(c) && unseen !in c.segments && Origin(src) in known
    requires WellListed(c) && SizeAtRisk(c, FreeSpace(c) - pending) > pending
    ensures ListInv(c) && Proper(sizes, c, reqs)
    ensures Whole(Promises(c, pending, known, reqs)) && !Honoured(c, Promises(c, pending, known, reqs))
  {
    hide *;
    InvLists(c);
    SpaceLeft(c);
    if SizeAtRisk(c, FreeSpace(c) - pending) > 0 {
      SomethingAtRisk(c, FreeSpace(c) - pending);
    }
    var available: nat := FreeSpace(c) - pending;
    var segs, seg := AtRisk(c, available, |c.evictable|), Segment(unseen, available);
    RiskFits(c, available);
    SizeAtRiskIs(c, available);
    var last, op := OneSegment(|segs|, seg, src), Add(seg, |segs|);
    OneSegmentIs(|segs|, seg, src);
    sizes := WitnessProper(c, available, segs, unseen, src);
    reqs := Singles(segs) + [last];
    ProperStored(sizes, c, reqs);
    WitnessPromised(c, pending, known, segs, unseen, src);
    SinglesPromised(c, pending, known, segs);
    QueueSnoc(SinglePromises(segs), Promise(last, 1));
    assert Adds([seg], |segs|) == [op];
    RiskNew(sizes, c, available, |c.evictable|);
    RiskShape(sizes, c, available, segs, Promise(last, 1), op);
    NoRoomBreaks(sizes, c, SinglePromises(segs) + [Promise(last, 1)], SingleOps(segs), op);
  }

  lemma RiskShape(sizes: string -> nat, c: Cache, available: int, segs: seq<Segment>, p: Promise, op: Op)
    requires StoredSizes(sizes, c) && AllFit(c, available, segs)
    requires op.Add? && op.seg.segmentSize == sizes(op.seg.segmentId)
    requires p.committed == 1 && |p.req.segments| == 1
    ensures OnlyAdds(SingleOps(segs) + [op]) && CarriedSizes(sizes, SingleOps(segs) + [op])
    ensures Whole(SinglePromises(segs) + [p])
  {
    SinglesCarried(sizes, c, available, segs);
    hide StoredSizes, AllFit;
  }

  /**
    For requests committed whole and served in admission order the condition
    is exact: all promises are kept iff the listed segments that could pass
    admission are together no larger than the pending counter. `unseen` is any
    id not cached and `src` any address of a known source.
   */
  lemma QueuedExactly(c: Cache, pending: int, known: set<string>, unseen: string, src: string)
    requires Inv(c) && unseen !in c.segments && Origin(src) in known
    ensures ListInv(c) && WellListed(c)
    ensures (forall sizes: string -> nat, reqs: seq<Request> {:trigger Proper(sizes, c, reqs)} ::
               Proper(sizes, c, reqs) && Whole(Promises(c, pending, known, reqs)) ==>
                 Honoured(c, Promises(c, pending, known, reqs)))
            <==> SizeAtRisk(c, FreeSpace(c) - pending) <= pending
  {
    hide Inv, ListInv, WellListed, Origin, Proper, Promises, Honoured, FreeSpace, SizeAtRisk, Whole, QueueOps,
        ListedIn, OpsFit, StoredSizes;
    InvLists(c);
    if SizeAtRisk(c, FreeSpace(c) - pending) <= pending {
      forall sizes: string -> nat, reqs: seq<Request> |
          Proper(sizes, c, reqs) && Whole(Promises(c, pending, known, reqs))
        ensures Honoured(c, Promises(c, pending, known, reqs))
      {
        ProperStored(sizes, c, reqs);
        var queue := Promises(c, pending, known, reqs);
        assert Reordered(queue, queue);
        WholeQueueFits(sizes, c, pending, known, reqs, queue);
        ListedBounds(sizes, c, FreeSpace(c) - pending, QueueOps(queue));
        QueuedReservations(sizes, c, pending, known, reqs);
      }
    } else {
      var sizes, reqs := RiskBreaksQueue(c, pending, known, unseen, src);
      assert Proper(sizes, c, reqs);
    }
  }

  // ----- served in any order -----

  lemma WholeMissingFits(
      sizes: string -> nat, c: Cache, pending: int, known: set<string>, reqs: seq<Request>, queue: seq<Promise>)
    requires Proper(sizes, c, reqs) && Whole(Promises(c, pending, known, reqs))
    requires Reordered(queue, Promises(c, pending, known, reqs))
    ensures MissingIn(c, QueueOps(queue)) > 0 ==> MissingIn(c, QueueOps(queue)) <= FreeSpace(c) - pending
  {
    hide Proper, Whole, Promises, MissingIn, QueueOps, FreeSpace, PendingAfter;
    QueueMissing(c, queue);
    QueueMissing(c, Promises(c, pending, known, reqs));
    WholeMissing(c, pending, known, reqs);
  }

  /** Room at every turn, wherever the request is served: what is cached may come when all else is in. */
  lemma AnyTurnFits(sizes: string -> nat, c: Cache, pending: int, ops: seq<Op>, i: nat)
    requires ListInv(c) && WellListed(c) && StoredSizes(sizes, c) && OpsFit(sizes, FreeSpace(c) - pending, ops)
    requires MissingIn(c, ops) > 0 ==> MissingIn(c, ops) <= FreeSpace(c) - pending
    requires SizeAtRisk(c, FreeSpace(c) - pending) + LargestAtRisk(c, FreeSpace(c) - pending) <= pending
    requires i < |ops|
    ensures ops[i].Add? && RoomAt(sizes, c, ops, i)
  {
    hide *;
    var available := FreeSpace(c) - pending;
    OpsFitAt(sizes, available, ops, i);
    FitsShape(sizes, available, ops);
    FitsShape(sizes, available, ops[..i]);
    NewAtMost(sizes, c, ops[..i]);
    ListedBounds(sizes, c, available, ops[..i]);
    MissingTurn(c, ops, i);
    var seg := ops[i].seg;
    if seg.segmentId in c.segments {
      StoredSize(sizes, c, seg.segmentId);
      LargestBounds(c, available, seg.segmentId);
    }
    RoomAtIs(sizes, c, ops, i);
  }

  lemma OpsFitAt(sizes: string -> nat, available: int, ops: seq<Op>, i: nat)
    requires OpsFit(sizes, available, ops) && i < |ops|
    ensures ops[i].Add? && ops[i].seg.segmentSize == sizes(ops[i].seg.segmentId) && ops[i].seg.segmentSize <= available
  {
  }

  lemma LargestBounds(c: Cache, available: int, id: string)
    requires id in c.segments && c.segments[id].segSize <= available
    ensures c.segments[id].segSize <= LargestAtRisk(c, available)
  {
  }

  lemma RoomAtIs(sizes: string -> nat, c: Cache, ops: seq<Op>, i: nat)
    requires i < |ops| && ops[i].Add?
    ensures RoomAt(sizes, c, ops, i)
            <==> SetSum(NewIds(c, ops[..i]), Sized(sizes)) + ops[i].seg.segmentSize <= FreeSpace(c)
  {
  }

  lemma MissingTurn(c: Cache, ops: seq<Op>, i: nat)
    requires i < |ops|
    ensures MissingIn(c, ops[..i]) + MissingIn(c, [ops[i]]) <= MissingIn(c, ops)
    ensures MissingIn(c, [ops[i]])
            == if ops[i].Add? && ops[i].seg.segmentId !in c.segments then ops[i].seg.segmentSize else 0
  {
    hide MissingIn;
    assert ops == ops[..i] + ops[i..] && ops[i..] == [ops[i]] + ops[i + 1..];
    MissingConcat(c, ops[..i], ops[i..]);
    MissingConcat(c, [ops[i]], ops[i + 1..]);
    MissingOne(c, ops[i]);
  }

  lemma MissingOne(c: Cache, op: Op)
    ensures MissingIn(c, [op]) == if op.Add? && op.seg.segmentId !in c.segments then op.seg.segmentSize else 0
  {
    assert [op][..0] == [];
  }

  lemma AnyOrderKept(
      sizes: string -> nat, c: Cache, pending: int, known: set<string>, reqs: seq<Request>, queue: seq<Promise>)
    requires Inv(c) && Proper(sizes, c, reqs) && Whole(Promises(c, pending, known, reqs))
    requires Reordered(queue, Promises(c, pending, known, reqs)) && WellListed(c)
    requires SizeAtRisk(c, FreeSpace(c) - pending) + LargestAtRisk(c, FreeSpace(c) - pending) <= pending
    ensures ListInv(c) && Honoured(c, queue)
  {
    hide Inv, ListInv, WellListed, FreeSpace, Promises, Whole, Reordered, QueueOps, Honoured, StoredSizes, SizesAgree,
      SizeAtRisk, LargestAtRisk, OpsFit, MissingIn, RoomAt, AllAccepted;
    InvLists(c);
    var ops := QueueOps(queue);
    WholeQueueFits(sizes, c, pending, known, reqs, queue);
    WholeMissingFits(sizes, c, pending, known, reqs, queue);
    FitsShape(sizes, FreeSpace(c) - pending, ops);
    forall i | 0 <= i < |ops|
      ensures ops[i].Add? && RoomAt(sizes, c, ops, i)
    {
      AnyTurnFits(sizes, c, pending, ops, i);
    }
    AllAcceptedExactly(sizes, c, ops);
    HonouredIsAccepted(c, queue);
  }

  lemma {:induction false} QueueConcat(a: seq<Promise>, b: seq<Promise>)
    ensures QueueOps(a + b) == QueueOps(a) + QueueOps(b)
  {
    hide QueueOps, Adds;
    NoneQueued();
    if b == [] {
      assert a + b == a;
    } else {
      var init, p := b[..|b| - 1], b[|b| - 1];
      assert b == init + [p] && a + b == a + init + [p];
      QueueConcat(a, init);
      QueueSnoc(a + init, p);
      QueueSnoc(init, p);
    }
  }

  lemma NewConcat(c: Cache, a: seq<Op>, b: seq<Op>)
    ensures NewIds(c, a + b) == NewIds(c, a) + NewIds(c, b)
  {
    hide HasPin;
    var all := a + b;
    forall id | id in NewIds(c, a)
      ensures id in NewIds(c, all)
    {
      var i :| 0 <= i < |a| && a[i].Add? && !HasPin(c, a[i].seg.segmentId) && a[i].seg.segmentId == id;
      assert all[i] == a[i];
    }
    forall id | id in NewIds(c, b)
      ensures id in NewIds(c, all)
    {
      var i :| 0 <= i < |b| && b[i].Add? && !HasPin(c, b[i].seg.segmentId) && b[i].seg.segmentId == id;
      assert all[|a| + i] == b[i];
    }
  }

  /** With the largest request served first, the segments at risk next, there is that little room left. */
  lemma LateSum(sizes: string -> nat, c: Cache, available: nat, first: Op)
    requires ListInv(c) && WellListed(c) && StoredSizes(sizes, c)
    requires first.Add? && first.seg.segmentId !in c.segments && sizes(first.seg.segmentId) == available
    ensures SetSum(NewIds(c, [first] + SingleOps(AtRisk(c, available, |c.evictable|))), Sized(sizes))
            == available + SizeAtRisk(c, available)
  {
    hide *;
    var id, ops := first.seg.segmentId, SingleOps(AtRisk(c, available, |c.evictable|));
    SizeAtRiskIs(c, available);
    RiskNew(sizes, c, available, |c.evictable|);
    UnseenIsNew(c, id);
    NewConcat(c, [first], ops);
    NoNewIds(c);
    assert [first] == [] + [first];
    NewSnoc(c, [], first);
    assert {id} + NewIds(c, ops) == NewIds(c, ops) + {id} && {} + {id} == {id};
    SetSumAdd(NewIds(c, ops), Sized(sizes), id);
    SizedIs(sizes, id);
  }

  lemma UnseenIsNew(c: Cache, id: string)
    requires WellListed(c) && id !in c.segments
    ensures !HasPin(c, id) && id !in c.evictable
  {
  }

  lemma SizedIs(sizes: string -> nat, id: string)
    ensures Sized(sizes)(id) == sizes(id)
  {
  }

  lemma LargestFits(c: Cache, available: int) returns (seg: Segment)
    requires LargestAtRisk(c, available) > 0
    ensures AllFit(c, available, [seg]) && seg.segmentSize == LargestAtRisk(c, available)
  {
    var id :| id in c.segments && c.segments[id].segSize == LargestAtRisk(c, available) <= available;
    seg := Segment(id, c.segments[id].segSize);
  }

  lemma FitConcat(c: Cache, available: int, segs: seq<Segment>, seg: Segment)
    requires AllFit(c, available, segs) && AllFit(c, available, [seg])
    ensures AllFit(c, available, segs + [seg])
  {
    assert AllFit(c, available, [seg]) && [seg][0] == seg;
  }

  lemma LateBreaksQueue(c: Cache, pending: int, known: set<string>, unseen: string, src: string)
      returns (sizes: string -> nat, reqs: seq<Request>, queue: seq<Promise>)
    requires Inv(c) && unseen !in c.segments && Origin(src) in known && WellListed(c)
    requires LargestAtRisk(c, FreeSpace(c) - pending) > 0
    requires SizeAtRisk(c, FreeSpace(c) - pending) + LargestAtRisk(c, FreeSpace(c) - pending) > pending
    ensures ListInv(c) && Proper(sizes, c, reqs) && Whole(Promises(c, pending, known, reqs))
    ensures Reordered(queue, Promises(c, pending, known, reqs)) && !Honoured(c, queue)
  {
    hide *;
    InvLists(c);
    var x := LargestFits(c, FreeSpace(c) - pending);
    LargestIsSmall(c, FreeSpace(c) - pending);
    var available: nat := FreeSpace(c) - pending;
    var risk, seg := AtRisk(c, available, |c.evictable|), Segment(unseen, available);
    RiskFits(c, available);
    FitConcat(c, available, risk, x);
    var segs := risk + [x];
    var last, first := OneSegment(|segs|, seg, src), Add(seg, |segs|);
    OneSegmentIs(|segs|, seg, src);
    sizes := WitnessProper(c, available, segs, unseen, src);
    reqs := Singles(segs) + [last];
    queue := [Promise(last, 1)] + SinglePromises(segs);
    ProperStored(sizes, c, reqs);
    WitnessPromised(c, pending, known, segs, unseen, src);
    SinglesPromised(c, pending, known, segs);
    LateOps(risk, x, Promise(last, 1), first);
    LateSum(sizes, c, available, first);
    LateShape(sizes, c, available, risk, x, Promise(last, 1), first);
    NoRoomBreaks(sizes, c, queue, [first] + SingleOps(risk), Add(x, |risk|));
  }

  lemma LateShape(sizes: string -> nat, c: Cache, available: int, risk: seq<Segment>, x: Segment, p: Promise, first: Op)
    requires StoredSizes(sizes, c) && AllFit(c, available, risk + [x])
    requires first.Add? && first.seg.segmentSize == sizes(first.seg.segmentId)
    requires p.committed == 1 && |p.req.segments| == 1
    ensures OnlyAdds([first] + SingleOps(risk) + [Add(x, |risk|)])
    ensures CarriedSizes(sizes, [first] + SingleOps(risk) + [Add(x, |risk|)])
    ensures var queue, promises := [p] + SinglePromises(risk + [x]), SinglePromises(risk + [x]) + [p];
            Whole(queue) && Whole(promises) && Reordered(queue, promises)
  {
    SinglesCarried(sizes, c, available, risk + [x]);
    SinglesSnoc(risk, x);
    hide StoredSizes, AllFit;
    var ops := [first] + SingleOps(risk) + [Add(x, |risk|)];
    assert ops == [first] + SingleOps(risk + [x]);
  }

  lemma LateOps(risk: seq<Segment>, x: Segment, p: Promise, first: Op)
    requires first.Add? && p.req.segments == [first.seg] && p.req.tokenId == first.route
    requires QueueOps(SinglePromises(risk + [x])) == SingleOps(risk + [x])
    ensures QueueOps([p] + SinglePromises(risk + [x])) == [first] + SingleOps(risk) + [Add(x, |risk|)]
  {
    hide QueueOps;
    NoneQueued();
    QueueConcat([p], SinglePromises(risk + [x]));
    QueueSnoc([], p);
    assert [] + [p] == [p] && Adds([first.seg], first.route) == [first] && [] + [first] == [first];
    SinglesSnoc(risk, x);
  }

  lemma LargestIsSmall(c: Cache, available: int)
    requires LargestAtRisk(c, available) > 0
    ensures available >= 0
  {
  }

  /**
    For whole requests served in whatever order, the largest cached segment
    counts once more, pinned or not: it may be asked for when all else is in,
    and AddSegment wants room even for what is pinned.
   */
  lemma AnyOrderExactly(c: Cache, pending: int, known: set<string>, unseen: string, src: string)
    requires Inv(c) && unseen !in c.segments && Origin(src) in known
    ensures ListInv(c) && WellListed(c)
    ensures (forall sizes: string -> nat, reqs: seq<Request>, queue: seq<Promise>
               {:trigger Proper(sizes, c, reqs), Reordered(queue, Promises(c, pending, known, reqs))} ::
               (Proper(sizes, c, reqs) && Whole(Promises(c, pending, known, reqs))
                && Reordered(queue, Promises(c, pending, known, reqs))) ==> Honoured(c, queue))
            <==> SizeAtRisk(c, FreeSpace(c) - pending) + LargestAtRisk(c, FreeSpace(c) - pending) <= pending
  {
    hide Inv, ListInv, WellListed, Origin, Proper, Promises, Honoured, FreeSpace, SizeAtRisk, LargestAtRisk, Whole;
    InvLists(c);
    var available := FreeSpace(c) - pending;
    if SizeAtRisk(c, available) + LargestAtRisk(c, available) <= pending {
      forall sizes: string -> nat, reqs: seq<Request>, queue: seq<Promise> |
          Proper(sizes, c, reqs) && Whole(Promises(c, pending, known, reqs))
          && Reordered(queue, Promises(c, pending, known, reqs))
        ensures Honoured(c, queue)
      {
        AnyOrderKept(sizes, c, pending, known, reqs, queue);
      }
    } else if LargestAtRisk(c, available) > 0 {
      var sizes, reqs, queue := LateBreaksQueue(c, pending, known, unseen, src);
      assert Proper(sizes, c, reqs) && Reordered(queue, Promises(c, pending, known, reqs));
    } else {
      var sizes, reqs := RiskBreaksQueue(c, pending, known, unseen, src);
      assert Proper(sizes, c, reqs);
      assert Reordered(Promises(c, pending, known, reqs), Promises(c, pending, known, reqs));
    }
  }

  /**
    An instance: whenever a non-empty segment is held without a route,
    committing it reserves nothing, so a second request is promised the same
    bytes and is then refused.
   */
  lemma ListedSegmentBreaksQueue(c: Cache, known: set<string>, listed: string, first: Request, second: Request)
    requires Inv(c) && listed in c.evictable && c.segments[listed].segSize > 0
    requires first.segments == [Segment(listed, c.segments[listed].segSize)]
    requires |second.segments| == 1 && second.segments[0].segmentSize == FreeSpace(c)
    requires SourceOf(second, second.segments[0].segmentId) in known
    ensures Promises(c, 0, known, [first, second]) == [Promise(first, 1), Promise(second, 1)]
    ensures ListInv(c) && !Honoured(c, Promises(c, 0, known, [first, second]))
  {
    hide SourceOf, Committed, Promises, Served, Kept;
    InvLists(c);
    var one, two := first.segments[0], second.segments[0];
    assert first.segments[..0] == [] && MissingSize(c, first.segments) == 0;
    PromotionTakesSpace(c, listed, first.tokenId);
    CommitOne(c, 0, known, first);
    CommitOne(c, 0, known, second);
    TwoPromises(c, 0, known, first, second);
    OneServed(c, Promise(first, 1), one);
    FirstRefused(Step(c, Add(one, first.tokenId)), Promise(second, 1));
    assert [Promise(first, 1), Promise(second, 1)][..1] == [Promise(first, 1)];
    assert !KeptAt(c, [Promise(first, 1), Promise(second, 1)], 1);
  }

  lemma OneServed(c: Cache, p: Promise, seg: Segment)
    requires ListInv(c) && p.req.segments == [seg] && Accepts(c, seg.segmentSize)
    ensures Served(c, [p]) == Step(c, Add(seg, p.req.tokenId))
  {
    hide ListInv, Accepts, Step;
    var route := p.req.tokenId;
    ServedOne(c, p);
    NoneRefused(c);
    assert Adds([seg], route) == [] + [Add(seg, route)];
    AcceptedSnoc(c, [], Add(seg, route));
    AcceptedWhole(c, [seg], route);
    RunStep(c, [], Add(seg, route));
  }
}
