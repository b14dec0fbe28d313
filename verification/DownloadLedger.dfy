/**
  The cloud's ledger of downloads over an edge node's single link: when each
  accepted segment is expected to be complete, and whether one more meets its
  deadline.
 */
module DownloadLedger {
  import opened Collections

  datatype Candidate = Candidate(segmentId: string, size: nat, source: string, arrivalTime: real, contactTime: real)

  datatype Entry = Entry(candidate: Candidate, expectedDlcTime: real)

  datatype Ledger = Ledger(assignments: map<string, Entry>, downloaded: set<string>, maxDlcTime: real)

  type Speeds = map<string, real>

  predicate Timed(speeds: Speeds, c: Candidate) {
    c.source in speeds && speeds[c.source] > 0.0
  }

  predicate AllTimed(speeds: Speeds, cs: seq<Candidate>) {
    forall i :: 0 <= i < |cs| ==> Timed(speeds, cs[i])
  }

  function SegmentTime(speeds: Speeds, c: Candidate): (t: real)
    requires Timed(speeds, c)
    ensures t >= 0.0
  {
    c.size as real * 8.0 / speeds[c.source]
  }

  /** Link time of the first i candidates. */
  function TimeTo(speeds: Speeds, cs: seq<Candidate>, i: nat): (t: real)
    requires AllTimed(speeds, cs) && i <= |cs|
    ensures t >= 0.0
  {
    if i == 0 then 0.0 else TimeTo(speeds, cs, i - 1) + SegmentTime(speeds, cs[i - 1])
  }

  function TotalTime(speeds: Speeds, cs: seq<Candidate>): real
    requires AllTimed(speeds, cs)
  {
    TimeTo(speeds, cs, |cs|)
  }

  lemma {:induction false} TimeToPrefix(speeds: Speeds, a: seq<Candidate>, b: seq<Candidate>, i: nat)
    requires AllTimed(speeds, a) && AllTimed(speeds, b) && i <= |a| && i <= |b| && a[..i] == b[..i]
    ensures TimeTo(speeds, a, i) == TimeTo(speeds, b, i)
  {
    if i > 0 {
      assert a[i - 1] == a[..i][i - 1] == b[i - 1];
      assert a[..i - 1] == a[..i][..i - 1] == b[..i - 1];
      TimeToPrefix(speeds, a, b, i - 1);
    }
  }

  lemma TotalTimeSnoc(speeds: Speeds, cs: seq<Candidate>, c: Candidate)
    requires AllTimed(speeds, cs) && Timed(speeds, c)
    ensures AllTimed(speeds, cs + [c])
    ensures TotalTime(speeds, cs + [c]) == TotalTime(speeds, cs) + SegmentTime(speeds, c)
  {
    TimeToPrefix(speeds, cs, cs + [c], |cs|);
  }

  function Max(a: real, b: real): real {
    if a >= b then a else b
  }

  // ----- the latest completion among some entries -----

  ghost predicate IsLatest(m: map<string, Entry>, floor: real, t: real) {
    && floor <= t
    && (forall k :: k in m ==> m[k].expectedDlcTime <= t)
    && (t == floor || exists k :: k in m && m[k].expectedDlcTime == t)
  }

  ghost function Latest(m: map<string, Entry>, floor: real): (t: real)
    ensures IsLatest(m, floor, t)
    decreases |m|
  {
    if m == map[] then floor
    else
      var k :| k in m;
      var rest := Latest(m - {k}, floor);
      assert forall j :: j in m - {k} ==> m[j] == (m - {k})[j];
      Max(rest, m[k].expectedDlcTime)
  }

  lemma LatestUnique(m: map<string, Entry>, floor: real, t: real)
    requires IsLatest(m, floor, t)
    ensures Latest(m, floor) == t
  {
  }

  function Stale(m: map<string, Entry>, timestamp: real): set<string> {
    set k | k in m && m[k].expectedDlcTime < timestamp
  }

  function Fresh(m: map<string, Entry>, timestamp: real): map<string, Entry> {
    m - Stale(m, timestamp)
  }

  // ----- add -----

  /** The completion time from which the code schedules a new candidate. */
  ghost function Horizon(l: Ledger, timestamp: real): real {
    Latest(Fresh(l.assignments, timestamp), l.maxDlcTime)
  }

  ghost predicate Accepts(speeds: Speeds, l: Ledger, c: Candidate, timestamp: real)
    requires Timed(speeds, c)
  {
    Horizon(l, timestamp) + SegmentTime(speeds, c) < c.arrivalTime
  }

  ghost function Add(speeds: Speeds, l: Ledger, c: Candidate, timestamp: real): Ledger
    requires Timed(speeds, c)
  {
    var kept := Fresh(l.assignments, timestamp);
    var done := l.downloaded + Stale(l.assignments, timestamp);
    var end := Horizon(l, timestamp) + SegmentTime(speeds, c);
    if end < c.arrivalTime then Ledger(kept[c.segmentId := Entry(c, end)], done, end)
    else Ledger(kept, done, l.maxDlcTime)
  }

  /** No stored completion is later than the running maximum, which starts at zero. */
  ghost predicate Inv(l: Ledger) {
    && l.maxDlcTime >= 0.0
    && forall k :: k in l.assignments ==> l.assignments[k].expectedDlcTime <= l.maxDlcTime
  }

  const EMPTY := Ledger(map[], {}, 0.0)

  lemma HorizonIsCounter(l: Ledger, timestamp: real)
    requires Inv(l)
    ensures Horizon(l, timestamp) == l.maxDlcTime
  {
  }

  lemma {:induction false} AddInv(speeds: Speeds, l: Ledger, c: Candidate, timestamp: real)
    requires Inv(l) && Timed(speeds, c)
    ensures Inv(Add(speeds, l, c, timestamp))
    ensures Accepts(speeds, l, c, timestamp) <==> l.maxDlcTime + SegmentTime(speeds, c) < c.arrivalTime
    ensures Add(speeds, l, c, timestamp).maxDlcTime
            == if Accepts(speeds, l, c, timestamp) then l.maxDlcTime + SegmentTime(speeds, c) else l.maxDlcTime
  {
    HorizonIsCounter(l, timestamp);
  }

  /** What is stored afterwards: the downloads not complete by then, and the candidate if it is in time. */
  lemma AddStores(speeds: Speeds, l: Ledger, c: Candidate, timestamp: real)
    requires Inv(l) && Timed(speeds, c)
    ensures var d, end := Add(speeds, l, c, timestamp), l.maxDlcTime + SegmentTime(speeds, c);
            && (forall k :: k in d.assignments <==>
                  || (k == c.segmentId && end < c.arrivalTime)
                  || (k in l.assignments && l.assignments[k].expectedDlcTime >= timestamp))
            && (forall k :: k in d.assignments ==>
                  d.assignments[k]
                  == if k == c.segmentId && end < c.arrivalTime then Entry(c, end) else l.assignments[k])
            && (forall k :: k in d.downloaded <==>
                  k in l.downloaded || (k in l.assignments && l.assignments[k].expectedDlcTime < timestamp))
  {
    HorizonIsCounter(l, timestamp);
    hide Horizon, SegmentTime;
  }

  // ----- runs of add calls -----

  datatype Call = Call(candidate: Candidate, timestamp: real)

  ghost predicate CallsTimed(speeds: Speeds, calls: seq<Call>) {
    forall i :: 0 <= i < |calls| ==> Timed(speeds, calls[i].candidate)
  }

  ghost function Run(speeds: Speeds, l: Ledger, calls: seq<Call>): Ledger
    requires CallsTimed(speeds, calls)
  {
    if calls == [] then l
    else
      var last := calls[|calls| - 1];
      Add(speeds, Run(speeds, l, calls[..|calls| - 1]), last.candidate, last.timestamp)
  }

  ghost function Accepted(speeds: Speeds, l: Ledger, calls: seq<Call>): (cs: seq<Candidate>)
    requires CallsTimed(speeds, calls)
    ensures AllTimed(speeds, cs)
  {
    if calls == [] then []
    else
      var init, last := calls[..|calls| - 1], calls[|calls| - 1];
      Accepted(speeds, l, init)
      + if Accepts(speeds, Run(speeds, l, init), last.candidate, last.timestamp) then [last.candidate] else []
  }

  /** What a single counter, never pruned, would accept. */
  ghost function CounterAccepts(speeds: Speeds, start: real, cs: seq<Candidate>): (accepted: seq<Candidate>)
    requires AllTimed(speeds, cs)
    ensures AllTimed(speeds, accepted)
  {
    if cs == [] then []
    else
      var last := cs[|cs| - 1];
      var before := CounterAccepts(speeds, start, cs[..|cs| - 1]);
      before + if start + TotalTime(speeds, before) + SegmentTime(speeds, last) < last.arrivalTime then [last] else []
  }

  lemma CounterNone(speeds: Speeds, start: real)
    ensures CounterAccepts(speeds, start, []) == [] && TotalTime(speeds, []) == 0.0
  {
  }

  function Candidates(calls: seq<Call>): (cs: seq<Candidate>)
    ensures |cs| == |calls|
    ensures forall i :: 0 <= i < |cs| ==> cs[i] == calls[i].candidate
  {
    seq(|calls|, i requires 0 <= i < |calls| => calls[i].candidate)
  }

  /**
    The ledger with its pruning refines one counter: over any run of calls, with
    any timestamps, it accepts what the counter accepts, its running maximum is
    the counter, and that bounds every stored completion.
   */
  lemma {:induction false} LedgerIsCounter(speeds: Speeds, l: Ledger, calls: seq<Call>)
    requires Inv(l) && CallsTimed(speeds, calls)
    ensures AllTimed(speeds, Candidates(calls))
    ensures Accepted(speeds, l, calls) == CounterAccepts(speeds, l.maxDlcTime, Candidates(calls))
    ensures Run(speeds, l, calls).maxDlcTime == l.maxDlcTime + TotalTime(speeds, Accepted(speeds, l, calls))
    ensures Inv(Run(speeds, l, calls))
  {
    if calls != [] {
      var init, last := calls[..|calls| - 1], calls[|calls| - 1];
      hide SegmentTime, Horizon, Add, Accepts;
      LedgerIsCounter(speeds, l, init);
      AddInv(speeds, Run(speeds, l, init), last.candidate, last.timestamp);
      assert Candidates(calls)[..|calls| - 1] == Candidates(init);
      var before := Accepted(speeds, l, init);
      TotalTimeSnoc(speeds, before, last.candidate);
      assert before + [] == before;
    }
  }

  /** Timestamps, and so pruning, never change a decision. */
  lemma PruningIrrelevant(speeds: Speeds, l: Ledger, calls: seq<Call>, others: seq<Call>)
    requires Inv(l) && CallsTimed(speeds, calls) && CallsTimed(speeds, others)
    requires Candidates(calls) == Candidates(others)
    ensures Accepted(speeds, l, calls) == Accepted(speeds, l, others)
    ensures Run(speeds, l, calls).maxDlcTime == Run(speeds, l, others).maxDlcTime
  {
    LedgerIsCounter(speeds, l, calls);
    LedgerIsCounter(speeds, l, others);
  }

  /**
    Accepted downloads are back to back, each starting when those accepted
    before it are done, and each ends before its own arrival time.
   */
  lemma {:induction false} BackToBackInTime(speeds: Speeds, start: real, cs: seq<Candidate>, i: nat)
    requires AllTimed(speeds, cs) && i < |CounterAccepts(speeds, start, cs)|
    ensures var accepted := CounterAccepts(speeds, start, cs);
            start + TimeTo(speeds, accepted, i + 1) < accepted[i].arrivalTime
  {
    hide SegmentTime;
    var init := cs[..|cs| - 1];
    var before := CounterAccepts(speeds, start, init);
    var accepted := CounterAccepts(speeds, start, cs);
    assert before <= accepted;
    if i < |before| {
      BackToBackInTime(speeds, start, init, i);
      TimeToPrefix(speeds, before, accepted, i + 1);
    } else {
      TotalTimeSnoc(speeds, before, cs[|cs| - 1]);
    }
  }

  /** Every stored completion is that of the accepted candidate stored with it. */
  ghost predicate Explained(speeds: Speeds, l: Ledger, accepted: seq<Candidate>)
    requires AllTimed(speeds, accepted)
  {
    forall k :: k in l.assignments ==>
      exists i :: 0 <= i < |accepted| && accepted[i] == l.assignments[k].candidate
                  && l.assignments[k].expectedDlcTime == TimeTo(speeds, accepted, i + 1)
  }

  lemma ExplainedStep(speeds: Speeds, l: Ledger, accepted: seq<Candidate>, c: Candidate, timestamp: real)
    requires Inv(l) && AllTimed(speeds, accepted) && Timed(speeds, c)
    requires Explained(speeds, l, accepted) && l.maxDlcTime == TotalTime(speeds, accepted)
    ensures Accepts(speeds, l, c, timestamp) ==> Explained(speeds, Add(speeds, l, c, timestamp), accepted + [c])
    ensures !Accepts(speeds, l, c, timestamp) ==> Explained(speeds, Add(speeds, l, c, timestamp), accepted)
  {
    HorizonIsCounter(l, timestamp);
    TotalTimeSnoc(speeds, accepted, c);
    hide SegmentTime, Horizon, Latest, TimeTo;
    var d := Add(speeds, l, c, timestamp);
    var all := accepted + [c];
    forall k | k in d.assignments && Accepts(speeds, l, c, timestamp)
      ensures exists i :: 0 <= i < |all| && all[i] == d.assignments[k].candidate
                          && d.assignments[k].expectedDlcTime == TimeTo(speeds, all, i + 1)
    {
      if k == c.segmentId {
        assert all[|accepted|] == c;
      } else {
        var i :| 0 <= i < |accepted| && accepted[i] == l.assignments[k].candidate
                 && l.assignments[k].expectedDlcTime == TimeTo(speeds, accepted, i + 1);
        TimeToPrefix(speeds, accepted, all, i + 1);
        assert all[i] == accepted[i];
      }
    }
  }

  /**
    The ledger over any run from the start: the running maximum is the total
    link time of what was accepted, each accepted download ends before its own
    arrival time, and each stored completion is the end of its own download.
   */
  lemma {:induction false} LedgerRun(speeds: Speeds, calls: seq<Call>)
    requires CallsTimed(speeds, calls)
    ensures var accepted, l := Accepted(speeds, EMPTY, calls), Run(speeds, EMPTY, calls);
            && l.maxDlcTime == TotalTime(speeds, accepted)
            && (forall i :: 0 <= i < |accepted| ==> TimeTo(speeds, accepted, i + 1) < accepted[i].arrivalTime)
            && Explained(speeds, l, accepted)
  {
    LedgerIsCounter(speeds, EMPTY, calls);
    var accepted := Accepted(speeds, EMPTY, calls);
    forall i | 0 <= i < |accepted|
      ensures TimeTo(speeds, accepted, i + 1) < accepted[i].arrivalTime
    {
      BackToBackInTime(speeds, 0.0, Candidates(calls), i);
    }
    if calls != [] {
      var init, last := calls[..|calls| - 1], calls[|calls| - 1];
      LedgerRun(speeds, init);
      LedgerIsCounter(speeds, EMPTY, init);
      hide SegmentTime, Accepts, Explained, Add, TimeTo;
      ExplainedStep(speeds, Run(speeds, EMPTY, init), Accepted(speeds, EMPTY, init), last.candidate, last.timestamp);
      assert Accepted(speeds, EMPTY, init) + [] == Accepted(speeds, EMPTY, init);
    }
  }

  // ----- isDownloadPossible -----

  function DueBefore(m: map<string, Entry>, deadline: real): map<string, Entry> {
    map k | k in m && m[k].expectedDlcTime < deadline :: m[k]
  }

  /** The link is free from here on: the latest of the stored completions before the deadline, or zero. */
  ghost predicate FreeFrom(l: Ledger, deadline: real, start: real) {
    && start >= 0.0
    && (forall k :: k in l.assignments && l.assignments[k].expectedDlcTime < deadline ==>
          l.assignments[k].expectedDlcTime <= start)
    && (start == 0.0 || exists k :: k in l.assignments && l.assignments[k].expectedDlcTime == start < deadline)
  }

  ghost function StartTime(l: Ledger, deadline: real): (start: real)
    ensures FreeFrom(l, deadline, start)
    ensures forall t :: FreeFrom(l, deadline, t) ==> t == start
  {
    var due := DueBefore(l.assignments, deadline);
    assert forall k :: k in due <==> k in l.assignments && l.assignments[k].expectedDlcTime < deadline;
    Latest(due, 0.0)
  }

  /** Downloaded back to back from `start`, the candidates up to k all meet their arrival. */
  ghost predicate InTimeUpTo(speeds: Speeds, start: real, cs: seq<Candidate>, k: nat)
    requires AllTimed(speeds, cs) && k < |cs|
  {
    forall j :: 0 <= j <= k ==> start + TimeTo(speeds, cs, j + 1) < cs[j].arrivalTime
  }

  /** How many leading candidates, from i on, all meet their arrival when downloaded back to back from `start`. */
  function PossibleCount(speeds: Speeds, start: real, cs: seq<Candidate>, i: nat): (n: nat)
    requires AllTimed(speeds, cs) && i <= |cs|
    ensures i <= n <= |cs|
    ensures forall k :: i <= k < n ==> start + TimeTo(speeds, cs, k + 1) < cs[k].arrivalTime
    ensures n < |cs| ==> start + TimeTo(speeds, cs, n + 1) >= cs[n].arrivalTime
    decreases |cs| - i
  {
    if i == |cs| || start + TimeTo(speeds, cs, i + 1) >= cs[i].arrivalTime then i
    else PossibleCount(speeds, start, cs, i + 1)
  }

  ghost function Possible(speeds: Speeds, l: Ledger, deadline: real, cs: seq<Candidate>): (ps: seq<Candidate>)
    requires AllTimed(speeds, cs)
    ensures ps <= cs
  {
    cs[..PossibleCount(speeds, StartTime(l, deadline), cs, 0)]
  }

  /** The check returns candidate k exactly when all up to it are in time behind the downloads due by the deadline. */
  lemma PossibleExactly(speeds: Speeds, l: Ledger, deadline: real, cs: seq<Candidate>, start: real, k: nat)
    requires AllTimed(speeds, cs) && k < |cs| && FreeFrom(l, deadline, start)
    ensures k < |Possible(speeds, l, deadline, cs)| <==> InTimeUpTo(speeds, start, cs, k)
  {
    hide FreeFrom, TimeTo;
    var n := PossibleCount(speeds, start, cs, 0);
    if n <= k {
      assert start + TimeTo(speeds, cs, n + 1) >= cs[n].arrivalTime;
    }
  }

  /** The check never starts later than the ledger would. */
  lemma StartAtMostCounter(l: Ledger, deadline: real)
    requires Inv(l)
    ensures 0.0 <= StartTime(l, deadline) <= l.maxDlcTime
  {
  }

  lemma TimeToNext(speeds: Speeds, cs: seq<Candidate>, n: nat)
    requires AllTimed(speeds, cs) && 0 < n <= |cs|
    ensures TimeTo(speeds, cs, n) == TimeTo(speeds, cs, n - 1) + SegmentTime(speeds, cs[n - 1])
  {
  }

  lemma CounterSnoc(speeds: Speeds, start: real, cs: seq<Candidate>, c: Candidate)
    requires AllTimed(speeds, cs) && Timed(speeds, c)
    ensures AllTimed(speeds, cs + [c])
    ensures var before := CounterAccepts(speeds, start, cs);
            CounterAccepts(speeds, start, cs + [c])
            == if start + TotalTime(speeds, before) + SegmentTime(speeds, c) < c.arrivalTime then before + [c]
                else before
  {
    hide SegmentTime, TimeTo;
    assert (cs + [c])[..|cs|] == cs;
    assert CounterAccepts(speeds, start, cs) + [] == CounterAccepts(speeds, start, cs);
  }

  lemma {:induction false} CounterPrefix(speeds: Speeds, start: real, cs: seq<Candidate>, n: nat)
    requires AllTimed(speeds, cs) && n <= |cs|
    requires forall k :: 0 <= k < n ==> start + TimeTo(speeds, cs, k + 1) < cs[k].arrivalTime
    ensures CounterAccepts(speeds, start, cs[..n]) == cs[..n]
  {
    hide SegmentTime, TimeTo, CounterAccepts;
    if n == 0 {
      CounterNone(speeds, start);
    } else {
      var init, last := cs[..n - 1], cs[n - 1];
      CounterPrefix(speeds, start, cs, n - 1);
      TimeToNext(speeds, cs, n);
      TimeToPrefix(speeds, init, cs, n - 1);
      CounterSnoc(speeds, start, init, last);
      assert cs[..n] == init + [last];
    }
  }

  lemma CounterPrefixBack(speeds: Speeds, start: real, cs: seq<Candidate>, n: nat, k: nat)
    requires AllTimed(speeds, cs) && k < n <= |cs|
    requires CounterAccepts(speeds, start, cs[..n]) == cs[..n]
    ensures start + TimeTo(speeds, cs, k + 1) < cs[k].arrivalTime
  {
    hide SegmentTime, CounterAccepts, TimeTo;
    BackToBackInTime(speeds, start, cs[..n], k);
    assert cs[..n][..k + 1] == cs[..k + 1];
    TimeToPrefix(speeds, cs[..n], cs, k + 1);
  }

  /**
    Check against commit: a prefix of the candidates that consecutive add calls
    all accept is a prefix of what isDownloadPossible returns.
   */
  lemma CheckCoversCommit(speeds: Speeds, l: Ledger, deadline: real, cs: seq<Candidate>, calls: seq<Call>)
    requires Inv(l) && AllTimed(speeds, cs)
    requires Candidates(calls) <= cs && CallsTimed(speeds, calls)
    requires Accepted(speeds, l, calls) == Candidates(calls)
    ensures Candidates(calls) <= Possible(speeds, l, deadline, cs)
  {
    var n := |calls|;
    assert cs[..n] == Candidates(calls);
    LedgerIsCounter(speeds, l, calls);
    hide SegmentTime, TimeTo, CounterAccepts, Latest, StartTime, Run, Accepted, Inv;
    var p := PossibleCount(speeds, StartTime(l, deadline), cs, 0);
    StartAtMostCounter(l, deadline);
    if p < n {
      CounterPrefixBack(speeds, l.maxDlcTime, cs, n, p);
    }
  }

  /** The planner's offers: every candidate of a visit arrives with it. */
  ghost predicate ArriveAt(cs: seq<Candidate>, deadline: real) {
    forall i :: 0 <= i < |cs| ==> cs[i].arrivalTime == deadline
  }

  lemma {:induction false} TimeToMono(speeds: Speeds, cs: seq<Candidate>, i: nat, j: nat)
    requires AllTimed(speeds, cs) && i <= j <= |cs|
    ensures TimeTo(speeds, cs, i) <= TimeTo(speeds, cs, j)
    decreases j
  {
    if i < j {
      hide SegmentTime;
      TimeToMono(speeds, cs, i, j - 1);
    }
  }

  /** A counter takes a whole list with one arrival time exactly when the last of it is in time. */
  lemma CounterTakesAll(speeds: Speeds, start: real, cs: seq<Candidate>, n: nat, deadline: real)
    requires AllTimed(speeds, cs) && ArriveAt(cs, deadline) && n <= |cs|
    ensures CounterAccepts(speeds, start, cs[..n]) == cs[..n] <==> n == 0 || start + TimeTo(speeds, cs, n) < deadline
  {
    hide SegmentTime, CounterAccepts, TimeTo;
    if n == 0 {
      CounterNone(speeds, start);
    } else {
      if CounterAccepts(speeds, start, cs[..n]) == cs[..n] {
        CounterPrefixBack(speeds, start, cs, n, n - 1);
      }
      if start + TimeTo(speeds, cs, n) < deadline {
        forall k | 0 <= k < n
          ensures start + TimeTo(speeds, cs, k + 1) < cs[k].arrivalTime
        {
          TimeToMono(speeds, cs, k + 1, n);
        }
        CounterPrefix(speeds, start, cs, n);
      }
    }
  }

  /**
    Check against commit, the other way: of what isDownloadPossible returns for
    a visit, any committed prefix is accepted whole by the ledger exactly when
    it is empty or its last download, started from the running maximum, is in
    time for the visit.
   */
  lemma {:induction false} CheckEqualsCommitExactly(speeds: Speeds, l: Ledger, deadline: real, cs: seq<Candidate>,
      calls: seq<Call>)
    requires Inv(l) && AllTimed(speeds, cs) && ArriveAt(cs, deadline)
    requires CallsTimed(speeds, calls) && Candidates(calls) <= Possible(speeds, l, deadline, cs)
    ensures Accepted(speeds, l, calls) == Candidates(calls)
            <==> calls == [] || l.maxDlcTime + TimeTo(speeds, cs, |calls|) < deadline
  {
    LedgerIsCounter(speeds, l, calls);
    hide SegmentTime, CounterAccepts, TimeTo, Accepted, Run, Inv;
    assert Candidates(calls) <= cs;
    assert cs[..|calls|] == Candidates(calls);
    CounterTakesAll(speeds, l.maxDlcTime, cs, |calls|, deadline);
  }

  /** On links of given speeds the ledger accepts all that the check returns for this deadline. */
  ghost predicate CheckSafeOn(speeds: Speeds, l: Ledger, deadline: real) {
    forall cs: seq<Candidate> {:trigger Possible(speeds, l, deadline, cs)} ::
      AllTimed(speeds, cs) && ArriveAt(cs, deadline) ==>
        CounterAccepts(speeds, l.maxDlcTime, Possible(speeds, l, deadline, cs)) == Possible(speeds, l, deadline, cs)
  }

  /** Some offer ends in time from the check's start, and too late from the running maximum. */
  ghost predicate FallsBetween(speeds: Speeds, l: Ledger, deadline: real, cs: seq<Candidate>) {
    && cs != [] && AllTimed(speeds, cs) && ArriveAt(cs, deadline)
    && StartTime(l, deadline) + TotalTime(speeds, cs) < deadline <= l.maxDlcTime + TotalTime(speeds, cs)
  }

  /** On given links that holds exactly when no offer's link time falls between the two starts and the deadline. */
  lemma CheckSafeOnExactly(speeds: Speeds, l: Ledger, deadline: real)
    requires Inv(l)
    ensures CheckSafeOn(speeds, l, deadline) <==> forall cs :: !FallsBetween(speeds, l, deadline, cs)
  {
    hide StartTime, SegmentTime, CounterAccepts, Inv, PossibleCount, TimeTo;
    forall cs: seq<Candidate> | AllTimed(speeds, cs) && ArriveAt(cs, deadline)
      ensures FallsBetween(speeds, l, deadline, cs) ==>
                && Possible(speeds, l, deadline, cs) == cs
                && CounterAccepts(speeds, l.maxDlcTime, cs) != cs
      ensures CounterAccepts(speeds, l.maxDlcTime, Possible(speeds, l, deadline, cs))
          == Possible(speeds, l, deadline, cs)
              || FallsBetween(speeds, l, deadline, Possible(speeds, l, deadline, cs))
    {
      OfferBetween(speeds, l, deadline, cs);
    }
  }

  lemma OfferBetween(speeds: Speeds, l: Ledger, deadline: real, cs: seq<Candidate>)
    requires AllTimed(speeds, cs) && ArriveAt(cs, deadline)
    ensures FallsBetween(speeds, l, deadline, cs) ==>
              && Possible(speeds, l, deadline, cs) == cs
              && CounterAccepts(speeds, l.maxDlcTime, cs) != cs
    ensures var possible := Possible(speeds, l, deadline, cs);
            CounterAccepts(speeds, l.maxDlcTime, possible) == possible || FallsBetween(speeds, l, deadline, possible)
  {
    hide StartTime, SegmentTime, CounterAccepts, PossibleCount, TimeTo;
    var start := StartTime(l, deadline);
    var n := PossibleCount(speeds, start, cs, 0);
    assert n > 0 ==> start + TimeTo(speeds, cs, n - 1 + 1) < cs[n - 1].arrivalTime;
    assert cs[..|cs|] == cs;
    CounterTakesAll(speeds, l.maxDlcTime, cs, n, deadline);
    CounterTakesAll(speeds, l.maxDlcTime, cs, |cs|, deadline);
    TimeToPrefix(speeds, cs[..n], cs, n);
    if n < |cs| {
      TimeToMono(speeds, cs, n + 1, |cs|);
    }
  }

  /** Links with one source: the least size that would be late there decides. */
  lemma CheckSafeOnOneSource(source: string, speed: real, l: Ledger, deadline: real, late: nat)
    requires Inv(l) && speed > 0.0
    requires l.maxDlcTime + late as real * 8.0 / speed >= deadline
    requires late > 0 ==> l.maxDlcTime + (late - 1) as real * 8.0 / speed < deadline
    ensures CheckSafeOn(map[source := speed], l, deadline)
            <==> StartTime(l, deadline) + late as real * 8.0 / speed >= deadline
  {
    var speeds: Speeds := map[source := speed];
    CheckSafeOnExactly(speeds, l, deadline);
    hide StartTime, CounterAccepts, Inv, CheckSafeOn;
    var c := Candidate("", late, source, deadline, 0.0);
    assert TimeTo(speeds, [c], 1) == SegmentTime(speeds, c);
    if StartTime(l, deadline) + late as real * 8.0 / speed < deadline {
      assert FallsBetween(speeds, l, deadline, [c]);
    } else {
      forall cs: seq<Candidate>
        ensures !FallsBetween(speeds, l, deadline, cs)
      {
        if AllTimed(speeds, cs) {
          var bytes := OneSourceTime(source, speed, cs, |cs|);
          LateOrNot(speed, l.maxDlcTime, deadline, late, bytes);
        }
      }
    }
  }

  /** On a single source link times are those of whole byte counts. */
  lemma {:induction false} OneSourceTime(source: string, speed: real, cs: seq<Candidate>, n: nat) returns (bytes: nat)
    requires speed > 0.0 && AllTimed(map[source := speed], cs) && n <= |cs|
    ensures TimeTo(map[source := speed], cs, n) == bytes as real * 8.0 / speed
  {
    if n == 0 {
      bytes := 0;
    } else {
      var before := OneSourceTime(source, speed, cs, n - 1);
      bytes := before + cs[n - 1].size;
      assert cs[n - 1].source == source;
      SumOverSpeed(before as real * 8.0, cs[n - 1].size as real * 8.0, speed);
    }
  }

  lemma SumOverSpeed(a: real, b: real, speed: real)
    requires speed > 0.0
    ensures a / speed + b / speed == (a + b) / speed
  {
  }

  lemma MoreOverSpeed(a: real, b: real, speed: real)
    requires speed > 0.0 && a <= b
    ensures a / speed <= b / speed
  {
  }

  /** Fewer bytes than the least late size are in time, as many are late. */
  lemma LateOrNot(speed: real, start: real, deadline: real, late: nat, bytes: nat)
    requires speed > 0.0 && start + late as real * 8.0 / speed >= deadline
    requires late > 0 ==> start + (late - 1) as real * 8.0 / speed < deadline
    ensures bytes < late ==> start + bytes as real * 8.0 / speed < deadline
    ensures bytes >= late ==> late as real * 8.0 / speed <= bytes as real * 8.0 / speed
  {
    if bytes < late {
      MoreOverSpeed(bytes as real * 8.0, (late - 1) as real * 8.0, speed);
    } else {
      MoreOverSpeed(late as real * 8.0, bytes as real * 8.0, speed);
    }
  }

  /** Whatever the links and the offer for this deadline, the ledger accepts all that the check returns. */
  ghost predicate CheckSafe(l: Ledger, deadline: real) {
    forall speeds: Speeds, cs: seq<Candidate> {:trigger Possible(speeds, l, deadline, cs)} ::
      AllTimed(speeds, cs) && ArriveAt(cs, deadline) ==>
        CounterAccepts(speeds, l.maxDlcTime, Possible(speeds, l, deadline, cs)) == Possible(speeds, l, deadline, cs)
  }

  /** That holds exactly when the check starts from the running maximum, or too late for anything. */
  lemma CheckSafeExactly(l: Ledger, deadline: real)
    requires Inv(l)
    ensures CheckSafe(l, deadline) <==> StartTime(l, deadline) == l.maxDlcTime || StartTime(l, deadline) >= deadline
  {
    StartAtMostCounter(l, deadline);
    var start := StartTime(l, deadline);
    hide StartTime, SegmentTime, CounterAccepts, Inv;
    if start == l.maxDlcTime || start >= deadline {
      forall speeds: Speeds, cs: seq<Candidate> | AllTimed(speeds, cs) && ArriveAt(cs, deadline)
        ensures CounterAccepts(speeds, l.maxDlcTime, Possible(speeds, l, deadline, cs))
            == Possible(speeds, l, deadline, cs)
      {
        var n := PossibleCount(speeds, start, cs, 0);
        assert n > 0 ==> start + TimeTo(speeds, cs, n) < cs[n - 1].arrivalTime;
        CounterTakesAll(speeds, l.maxDlcTime, cs, n, deadline);
      }
    } else {
      var speeds, c := TooEarly(l, deadline);
      assert Possible(speeds, l, deadline, [c]) == [c];
    }
  }

  lemma TakesAsLong(wait: real)
    requires wait > 0.0
    ensures 8.0 / wait > 0.0 && 8.0 / (8.0 / wait) == wait
  {
  }

  /** A link and a candidate that the check lets through and the ledger refuses. */
  lemma TooEarly(l: Ledger, deadline: real) returns (speeds: Speeds, c: Candidate)
    requires Inv(l) && StartTime(l, deadline) < l.maxDlcTime && StartTime(l, deadline) < deadline
    ensures Timed(speeds, c) && c.arrivalTime == deadline
    ensures Possible(speeds, l, deadline, [c]) == [c] && CounterAccepts(speeds, l.maxDlcTime, [c]) != [c]
  {
    hide StartTime, CounterAccepts, PossibleCount, Inv;
    var wait := deadline - l.maxDlcTime;
    if wait > 0.0 {
      speeds := map["" := 8.0 / wait];
      c := Candidate("", 1, "", deadline, 0.0);
      TakesAsLong(wait);
      assert SegmentTime(speeds, c) == wait;
    } else {
      speeds := map["" := 1.0];
      c := Candidate("", 0, "", deadline, 0.0);
      assert SegmentTime(speeds, c) == 0.0;
    }
    OneCandidate(speeds, l, deadline, c);
  }

  lemma OneCandidate(speeds: Speeds, l: Ledger, deadline: real, c: Candidate)
    requires Timed(speeds, c)
    ensures Possible(speeds, l, deadline, [c]) == [c]
        <==> StartTime(l, deadline) + SegmentTime(speeds, c) < c.arrivalTime
    ensures CounterAccepts(speeds, l.maxDlcTime, [c]) == [c] <==> l.maxDlcTime + SegmentTime(speeds, c) < c.arrivalTime
  {
    hide SegmentTime, StartTime;
    assert [c][..1] == [c] && [c][..0] == [];
    assert TimeTo(speeds, [c], 1) == SegmentTime(speeds, c);
  }

  /** It happens from the empty ledger: one accepted download of ten seconds, then a visit due after five. */
  lemma DriftHappens(source: string)
    ensures var speeds: Speeds := map[source := 8.0];
            var first := Call(Candidate("a", 10, source, 20.0, 1.0), 0.0);
            var next := Candidate("b", 1, source, 5.0, 1.0);
            && CallsTimed(speeds, [first])
            && Accepted(speeds, EMPTY, [first]) == [first.candidate]
            && Possible(speeds, Run(speeds, EMPTY, [first]), next.arrivalTime, [next]) == [next]
            && !Accepts(speeds, Run(speeds, EMPTY, [first]), next, 0.0)
  {
    var speeds: Speeds := map[source := 8.0];
    var c := Candidate("a", 10, source, 20.0, 1.0);
    var next := Candidate("b", 1, source, 5.0, 1.0);
    assert SegmentTime(speeds, c) == 10.0 && SegmentTime(speeds, next) == 1.0;
    FirstAdd(speeds, c, 0.0);
    hide SegmentTime, Accepts, Accepted, Add, Possible, CounterAccepts, StartTime;
    var l := Run(speeds, EMPTY, [Call(c, 0.0)]);
    NoneDue(l, 5.0);
    OneCandidate(speeds, l, 5.0, next);
    AddInv(speeds, l, next, 0.0);
  }

  /** The first download of a new ledger. */
  lemma FirstAdd(speeds: Speeds, c: Candidate, timestamp: real)
    requires Timed(speeds, c) && SegmentTime(speeds, c) < c.arrivalTime
    ensures var calls := [Call(c, timestamp)];
            && Accepted(speeds, EMPTY, calls) == [c]
            && Run(speeds, EMPTY, calls)
               == Ledger(map[c.segmentId := Entry(c, SegmentTime(speeds, c))], {}, SegmentTime(speeds, c))
  {
    hide SegmentTime;
    AddInv(speeds, EMPTY, c, timestamp);
    HorizonIsCounter(EMPTY, timestamp);
    hide Horizon;
    assert Fresh(map[], timestamp) == map[] && Stale(map[], timestamp) == {};
    assert [Call(c, timestamp)][..0] == [];
  }

  lemma NoneDue(l: Ledger, deadline: real)
    requires forall k :: k in l.assignments ==> l.assignments[k].expectedDlcTime >= deadline
    ensures StartTime(l, deadline) == 0.0
  {
    assert DueBefore(l.assignments, deadline) == map[];
  }

  // ----- one more entry seen by a loop over the stored entries -----

  lemma StaleStep(m: map<string, Entry>, timestamp: real, k: string, e: Entry)
    requires k !in m
    ensures k !in Stale(m, timestamp)
    ensures Stale(m[k := e], timestamp)
        == if e.expectedDlcTime < timestamp then Stale(m, timestamp) + {k} else Stale(m, timestamp)
  {
  }

  lemma FreshStep(m: map<string, Entry>, timestamp: real, floor: real, t: real, k: string, e: Entry)
    requires k !in m && IsLatest(Fresh(m, timestamp), floor, t)
    ensures IsLatest(Fresh(m[k := e], timestamp), floor,
                     if e.expectedDlcTime < timestamp then t else Max(t, e.expectedDlcTime))
  {
    StaleStep(m, timestamp, k, e);
    var a := Fresh(m, timestamp);
    if e.expectedDlcTime < timestamp {
      assert Fresh(m[k := e], timestamp) == a;
    } else {
      assert Fresh(m[k := e], timestamp) == a[k := e];
      LatestStep(a, floor, t, k, e);
    }
  }

  lemma DueStep(m: map<string, Entry>, deadline: real, t: real, k: string, e: Entry)
    requires k !in m && IsLatest(DueBefore(m, deadline), 0.0, t)
    ensures IsLatest(DueBefore(m[k := e], deadline), 0.0,
                     if e.expectedDlcTime < deadline then Max(t, e.expectedDlcTime) else t)
  {
    var a := DueBefore(m, deadline);
    if e.expectedDlcTime < deadline {
      assert DueBefore(m[k := e], deadline) == a[k := e];
      LatestStep(a, 0.0, t, k, e);
    } else {
      assert DueBefore(m[k := e], deadline) == a;
    }
  }

  lemma LatestStep(m: map<string, Entry>, floor: real, t: real, k: string, e: Entry)
    requires k !in m && IsLatest(m, floor, t)
    ensures IsLatest(m[k := e], floor, Max(t, e.expectedDlcTime))
  {
    var n := m[k := e];
    assert n[k] == e;
    if t != floor {
      var j :| j in m && m[j].expectedDlcTime == t;
      assert n[j] == m[j];
    }
  }

  // ----- the ledger object -----

  class EdgeDownloadAssignment {
    const speeds: Speeds
    var assignments: map<string, Entry>
    var downloadedSegments: set<string>
    var maxDlcTime: real

    ghost function Abs(): Ledger
      reads this
    {
      Ledger(assignments, downloadedSegments, maxDlcTime)
    }

    constructor (speeds: Speeds)
      ensures this.speeds == speeds && Abs() == EMPTY && Inv(Abs())
    {
      this.speeds := speeds;
      assignments, downloadedSegments, maxDlcTime := map[], {}, 0.0;
    }

    /** One stored assignment: moved aside when stale, else it may be the latest. */
    method PruneOne(segId: string, timestamp: real, before: real) returns (latest: real)
      requires segId in assignments
      modifies this`assignments, this`downloadedSegments
      ensures var e := old(assignments)[segId].expectedDlcTime;
              if e < timestamp then
                && latest == before && assignments == old(assignments) - {segId}
                && downloadedSegments == old(downloadedSegments) + {segId}
              else
                && latest == Max(before, e) && assignments == old(assignments)
                && downloadedSegments == old(downloadedSegments)
    {
      latest := before;
      var info := assignments[segId];
      if info.expectedDlcTime < timestamp {
        downloadedSegments := downloadedSegments + {segId};
        assignments := assignments - {segId};
      } else {
        latest := Max(latest, info.expectedDlcTime);
      }
    }

    /** Moves stale assignments aside and finds the completion time to schedule from. */
    method Prune(timestamp: real) returns (latest: real)
      modifies this`assignments, this`downloadedSegments
      ensures latest == Horizon(old(Abs()), timestamp)
      ensures assignments == Fresh(old(assignments), timestamp)
      ensures downloadedSegments == old(downloadedSegments) + Stale(old(assignments), timestamp)
    {
      hide Stale, Fresh, IsLatest, Latest, SegmentTime, Max;
      ghost var all, seen: map<string, Entry> := assignments, map[];
      latest := maxDlcTime;
      var todo := assignments.Keys;
      PruneStart(all, timestamp, latest);
      while todo != {}
        invariant todo <= all.Keys && seen == all - todo
        invariant assignments == all - Stale(seen, timestamp)
        invariant downloadedSegments == old(downloadedSegments) + Stale(seen, timestamp)
        invariant IsLatest(Fresh(seen, timestamp), maxDlcTime, latest)
        decreases |todo|
      {
        var segId := AnyOf(todo);
        StaleStep(seen, timestamp, segId, all[segId]);
        FreshStep(seen, timestamp, maxDlcTime, latest, segId, all[segId]);
        Seen(all, todo, segId);
        RemoveOne(all, old(downloadedSegments), Stale(seen, timestamp), segId);
        latest := PruneOne(segId, timestamp, latest);
        todo, seen := todo - {segId}, seen[segId := all[segId]];
      }
      PruneEnd(all, timestamp, maxDlcTime, latest);
    }

    method AddCandidate(candidate: Candidate, timestamp: real) returns (success: bool)
      requires Timed(speeds, candidate)
      modifies this
      ensures success <==> Accepts(speeds, old(Abs()), candidate, timestamp)
      ensures Abs() == Add(speeds, old(Abs()), candidate, timestamp)
      ensures Inv(old(Abs())) ==>
                && Inv(Abs())
                && (success <==> old(maxDlcTime) + SegmentTime(speeds, candidate) < candidate.arrivalTime)
    {
      hide SegmentTime, Stale, Fresh, IsLatest, Latest, Inv, Horizon;
      ghost var l := Abs();
      if Inv(l) {
        AddInv(speeds, l, candidate, timestamp);
      }
      var latest := Prune(timestamp);
      var segmentTime := SegmentTime(speeds, candidate);
      success := latest + segmentTime < candidate.arrivalTime;
      if success {
        assignments := assignments[candidate.segmentId := Entry(candidate, latest + segmentTime)];
        maxDlcTime := latest + segmentTime;
      }
    }

    method IsDownloadPossible(deadline: real, candidates: seq<Candidate>) returns (possible: seq<Candidate>)
      requires AllTimed(speeds, candidates)
      ensures possible == Possible(speeds, Abs(), deadline, candidates)
      ensures possible <= candidates
      ensures forall start, k :: FreeFrom(Abs(), deadline, start) && 0 <= k < |candidates| ==>
                (k < |possible| <==> InTimeUpTo(speeds, start, candidates, k))
    {
      hide SegmentTime, FreeFrom, InTimeUpTo;
      forall start, k: nat | FreeFrom(Abs(), deadline, start) && k < |candidates|
        ensures k < |Possible(speeds, Abs(), deadline, candidates)| <==> InTimeUpTo(speeds, start, candidates, k)
      {
        PossibleExactly(speeds, Abs(), deadline, candidates, start, k);
      }
      var start := LatestStart(deadline);
      ghost var first := start;
      possible := [];
      var i := 0;
      while i < |candidates|
        invariant i <= |candidates| && possible == candidates[..i]
        invariant start == first + TimeTo(speeds, candidates, i)
        invariant PossibleCount(speeds, first, candidates, 0) == PossibleCount(speeds, first, candidates, i)
      {
        var segmentTime := SegmentTime(speeds, candidates[i]);
        if start + segmentTime >= candidates[i].arrivalTime {
          break;
        }
        possible := possible + [candidates[i]];
        start := start + segmentTime;
        i := i + 1;
      }
    }

    /** The latest completion before the deadline. */
    method LatestStart(deadline: real) returns (start: real)
      ensures start == StartTime(Abs(), deadline)
    {
      hide DueBefore, IsLatest;
      start := 0.0;
      var todo := assignments.Keys;
      ghost var seen: map<string, Entry> := map[];
      DueStart(deadline);
      while todo != {}
        invariant todo <= assignments.Keys && seen == assignments - todo
        invariant IsLatest(DueBefore(seen, deadline), 0.0, start)
        decreases |todo|
      {
        var segId := AnyOf(todo);
        var info := assignments[segId];
        DueStep(seen, deadline, start, segId, info);
        Seen(assignments, todo, segId);
        if info.expectedDlcTime < deadline {
          start := Max(start, info.expectedDlcTime);
        }
        todo, seen := todo - {segId}, seen[segId := info];
      }
      assert assignments - {} == assignments;
      LatestUnique(DueBefore(seen, deadline), 0.0, start);
    }
  }

  lemma PruneStart(all: map<string, Entry>, timestamp: real, floor: real)
    ensures all - Stale(map[], timestamp) == all && Stale(map[], timestamp) == {}
    ensures IsLatest(Fresh(map[], timestamp), floor, floor)
  {
  }

  lemma PruneEnd(all: map<string, Entry>, timestamp: real, floor: real, latest: real)
    requires IsLatest(Fresh(all - {}, timestamp), floor, latest)
    ensures all - {} == all && all - Stale(all, timestamp) == Fresh(all, timestamp)
    ensures latest == Latest(Fresh(all, timestamp), floor)
  {
    assert all - {} == all;
    LatestUnique(Fresh(all, timestamp), floor, latest);
  }

  lemma RemoveOne<V>(all: map<string, V>, before: set<string>, gone: set<string>, k: string)
    requires k in all && k !in gone
    ensures k in all - gone && (all - gone)[k] == all[k]
    ensures all - (gone + {k}) == (all - gone) - {k}
    ensures before + (gone + {k}) == (before + gone) + {k}
  {
  }

  lemma DueStart(deadline: real)
    ensures IsLatest(DueBefore(map[], deadline), 0.0, 0.0)
  {
  }
}
