/**
  The producer that queues delayed downloads and the consumer that runs them,
  as interleaved steps over a shared heap, a bounded channel of tokens, and a
  mutex the consumer does not hold when it looks at the root.
 */
module TokenProtocol {
  import opened Collections

  datatype Job = Job(id: int, priority: int)

  /** The heap as PriorityQueue's contracts show it: a root and the others. */
  datatype Heap = Heap(root: Option<Job>, rest: multiset<Job>)

  datatype Producer = Idle | Wants(job: Job) | Locked(job: Job) | Pushed | Sent

  datatype Consumer =
    | Waiting
    | HasToken
    | Resending
    | Peeked(seen: Job, now: int)
    | Entered(seen: Job, now: int)
    | Popped(seen: Job)
    | Working(seen: Job)

  datatype Holder = Nobody | TheProducer | TheConsumer

  /** One completed look-and-pop: what was seen, what was popped when, and what was pushed in between. */
  datatype Round = Round(seen: Job, got: Job, now: int, arrivals: seq<Job>)

  datatype State = State(
    capacity: nat,
    heap: Heap,
    tokens: nat,
    producer: Producer,
    consumer: Consumer,
    holder: Holder,
    pushed: multiset<Job>,
    arrivals: seq<Job>,
    rounds: seq<Round>,
    processed: multiset<Job>)

  datatype Step =
    | Offer(job: Job)
    | ProducerLock
    | Push
    | Send
    | ProducerUnlock
    | Receive
    | Peek(now: int)
    | Resend
    | ConsumerLock
    | Pop(next: Option<Job>)
    | ConsumerUnlock
    | Process

  function Jobs(h: Heap): multiset<Job> {
    h.rest + match h.root case None => multiset{} case Some(j) => multiset{j}
  }

  /** heap.Push: only a strictly smaller priority takes the root. */
  function PushJob(h: Heap, j: Job): Heap {
    match h.root
    case None => Heap(Some(j), h.rest)
    case Some(r) => if j.priority < r.priority then Heap(Some(j), h.rest + multiset{r})
        else Heap(Some(r), h.rest + multiset{j})
  }

  ghost predicate Least(j: Job, jobs: multiset<Job>) {
    forall k :: k in jobs ==> j.priority <= k.priority
  }

  /** A root that heap.Pop may leave: some least job of the others, if there are any. */
  ghost predicate NextRoot(h: Heap, next: Option<Job>) {
    match next
    case None => h.rest == multiset{}
    case Some(j) => j in h.rest && Least(j, h.rest)
  }

  function PopJob(h: Heap, next: Option<Job>): Heap {
    match next
    case None => Heap(None, multiset{})
    case Some(j) => Heap(next, h.rest - multiset{j})
  }

  function Init(capacity: nat): State {
    State(capacity, Heap(None, multiset{}), 0, Idle, Waiting, Nobody, multiset{}, [], [], multiset{})
  }

  ghost predicate Enabled(s: State, step: Step) {
    match step
    case Offer(_) => s.producer.Idle?
    case ProducerLock => s.producer.Wants? && s.holder.Nobody?
    case Push => s.producer.Locked?
    case Send => s.producer.Pushed? && s.tokens < s.capacity
    case ProducerUnlock => s.producer.Sent?
    case Receive => s.consumer.Waiting? && s.tokens > 0
    case Peek(_) => s.consumer.HasToken?
    case Resend => s.consumer.Resending? && s.tokens < s.capacity
    case ConsumerLock => s.consumer.Peeked? && s.holder.Nobody?
    case Pop(next) => s.consumer.Entered? && NextRoot(s.heap, next)
    case ConsumerUnlock => s.consumer.Popped?
    case Process => s.consumer.Working?
  }

  /** Looking at, or popping, an empty heap: an index out of range in the code. */
  predicate Crashes(s: State, step: Step) {
    (step.Peek? || step.Pop?) && s.heap.root.None?
  }

  ghost function Apply(s: State, step: Step): State
    requires Enabled(s, step) && !Crashes(s, step)
  {
    match step
    case Offer(job) => s.(producer := Wants(job))
    case ProducerLock => s.(producer := Locked(s.producer.job), holder := TheProducer)
    case Push =>
      var job := s.producer.job;
      s.(producer := Pushed, heap := PushJob(s.heap, job), pushed := s.pushed + multiset{job},
         arrivals := s.arrivals + [job])
    case Send => s.(producer := Sent, tokens := s.tokens + 1)
    case ProducerUnlock => s.(producer := Idle, holder := Nobody)
    case Receive => s.(consumer := HasToken, tokens := s.tokens - 1)
    case Peek(now) =>
      var root := s.heap.root.value;
      s.(consumer := if root.priority > now then Resending else Peeked(root, now), arrivals := [])
    case Resend => s.(consumer := Waiting, tokens := s.tokens + 1)
    case ConsumerLock => s.(consumer := Entered(s.consumer.seen, s.consumer.now), holder := TheConsumer)
    case Pop(next) =>
      var round := Round(s.consumer.seen, s.heap.root.value, s.consumer.now, s.arrivals);
      s.(consumer := Popped(s.consumer.seen), heap := PopJob(s.heap, next), rounds := s.rounds + [round])
    case ConsumerUnlock => s.(consumer := Working(s.consumer.seen), holder := Nobody)
    case Process => s.(consumer := Waiting, processed := s.processed + multiset{s.consumer.seen})
  }

  ghost predicate Runs(s: State, steps: seq<Step>)
    decreases |steps|
  {
    steps == [] || (Enabled(s, steps[0]) && !Crashes(s, steps[0]) && Runs(Apply(s, steps[0]), steps[1..]))
  }

  ghost function After(s: State, steps: seq<Step>): State
    requires Runs(s, steps)
    decreases |steps|
  {
    if steps == [] then s else After(Apply(s, steps[0]), steps[1..])
  }

  // ----- the invariant -----

  function HeldTokens(c: Consumer): nat {
    if c.HasToken? || c.Resending? || c.Peeked? || c.Entered? then 1 else 0
  }

  function UnsentPushes(p: Producer): nat {
    if p.Pushed? then 1 else 0
  }

  ghost predicate NoneUndercuts(seen: Job, arrivals: seq<Job>) {
    forall i :: 0 <= i < |arrivals| ==> seen.priority <= arrivals[i].priority
  }

  ghost predicate HeapInv(h: Heap) {
    match h.root
    case None => h.rest == multiset{}
    case Some(r) => Least(r, h.rest)
  }

  /** A look still pending: the job is in the heap, due, and the root unless an arrival undercut it. */
  ghost predicate LookInv(s: State) {
    s.consumer.Peeked? || s.consumer.Entered? ==>
      && s.heap.root.Some?
      && s.consumer.seen in Jobs(s.heap)
      && s.consumer.seen.priority <= s.consumer.now
      && (if NoneUndercuts(s.consumer.seen, s.arrivals) then s.heap.root.value == s.consumer.seen
          else s.heap.root.value.priority < s.consumer.seen.priority)
  }

  /** A popped job was due at the time observed, and is the one seen iff nothing undercut it; else it is due earlier. */
  ghost predicate RoundInv(r: Round) {
    && r.got.priority <= r.now
    && (r.got == r.seen <==> NoneUndercuts(r.seen, r.arrivals))
    && (r.got != r.seen ==> r.got.priority < r.seen.priority)
  }

  function Got(rounds: seq<Round>): multiset<Job> {
    if rounds == [] then multiset{} else Got(rounds[..|rounds| - 1]) + multiset{rounds[|rounds| - 1].got}
  }

  function Seen(rounds: seq<Round>): multiset<Job> {
    if rounds == [] then multiset{} else Seen(rounds[..|rounds| - 1]) + multiset{rounds[|rounds| - 1].seen}
  }

  ghost predicate LockInv(s: State) {
    && (s.holder.TheProducer? <==> s.producer.Locked? || s.producer.Pushed? || s.producer.Sent?)
    && (s.holder.TheConsumer? <==> s.consumer.Entered? || s.consumer.Popped?)
  }

  /** Every queued job has its token: buffered, held by the consumer, or about to be sent. */
  ghost predicate CountInv(s: State) {
    && |Jobs(s.heap)| == s.tokens + HeldTokens(s.consumer) + UnsentPushes(s.producer)
    && s.tokens <= s.capacity
  }

  ghost predicate RoundsInv(s: State) {
    forall i :: 0 <= i < |s.rounds| ==> RoundInv(s.rounds[i])
  }

  /** The job the consumer has popped a place for and not finished. */
  function InWork(c: Consumer): multiset<Job> {
    if c.Popped? || c.Working? then multiset{c.seen} else multiset{}
  }

  /** Pushed jobs are popped or still queued; seen jobs are processed or about to be. */
  ghost predicate FlowInv(s: State) {
    && s.pushed == Jobs(s.heap) + Got(s.rounds)
    && Seen(s.rounds) == s.processed + InWork(s.consumer)
  }

  ghost predicate Inv(s: State) {
    CountInv(s) && HeapInv(s.heap) && LockInv(s) && LookInv(s) && RoundsInv(s) && FlowInv(s)
  }

  lemma InitInv(capacity: nat)
    ensures Inv(Init(capacity))
  {
  }

  /** Under the invariant no step looks at an empty heap. */
  lemma NeverEmptyTop(s: State, step: Step)
    requires Inv(s) && Enabled(s, step)
    ensures !Crashes(s, step)
  {
    if s.heap.root.None? {
      assert Jobs(s.heap) == multiset{};
    }
  }

  lemma PushHeap(h: Heap, j: Job)
    requires HeapInv(h)
    ensures HeapInv(PushJob(h, j)) && PushJob(h, j).root.Some?
    ensures Jobs(PushJob(h, j)) == Jobs(h) + multiset{j}
  {
  }

  lemma PopHeap(h: Heap, next: Option<Job>)
    requires HeapInv(h) && h.root.Some? && NextRoot(h, next)
    ensures HeapInv(PopJob(h, next))
    ensures Jobs(h) == Jobs(PopJob(h, next)) + multiset{h.root.value}
  {
  }

  lemma UndercutSnoc(seen: Job, arrivals: seq<Job>, job: Job)
    ensures NoneUndercuts(seen, arrivals + [job]) <==> NoneUndercuts(seen, arrivals) && seen.priority <= job.priority
  {
    var all := arrivals + [job];
    assert all[|arrivals|] == job;
    assert forall i :: 0 <= i < |arrivals| ==> all[i] == arrivals[i];
  }

  lemma PushLook(s: State)
    requires Enabled(s, Push) && HeapInv(s.heap) && LookInv(s)
    ensures LookInv(Apply(s, Push))
  {
    PushHeap(s.heap, s.producer.job);
    if s.consumer.Peeked? || s.consumer.Entered? {
      UndercutSnoc(s.consumer.seen, s.arrivals, s.producer.job);
    }
  }

  lemma PopRounds(s: State, next: Option<Job>)
    requires Enabled(s, Pop(next)) && !Crashes(s, Pop(next))
    requires HeapInv(s.heap) && LookInv(s) && RoundsInv(s)
    ensures RoundsInv(Apply(s, Pop(next)))
  {
    var round := Round(s.consumer.seen, s.heap.root.value, s.consumer.now, s.arrivals);
    assert RoundInv(round);
  }

  lemma RoundSnoc(rounds: seq<Round>, r: Round)
    ensures Got(rounds + [r]) == Got(rounds) + multiset{r.got}
    ensures Seen(rounds + [r]) == Seen(rounds) + multiset{r.seen}
  {
    assert (rounds + [r])[..|rounds|] == rounds;
  }

  lemma MoveOne<T>(a: multiset<T>, b: multiset<T>, x: T)
    ensures (a + multiset{x}) + b == a + (b + multiset{x})
  {
  }

  lemma PopFlow(s: State, next: Option<Job>)
    requires Enabled(s, Pop(next)) && !Crashes(s, Pop(next))
    requires HeapInv(s.heap) && FlowInv(s)
    ensures FlowInv(Apply(s, Pop(next)))
  {
    var round := Round(s.consumer.seen, s.heap.root.value, s.consumer.now, s.arrivals);
    PopHeap(s.heap, next);
    RoundSnoc(s.rounds, round);
    MoveOne(Jobs(PopJob(s.heap, next)), Got(s.rounds), round.got);
    hide HeapInv, Least, NextRoot, Jobs, Got, Seen, PopJob;
    assert s.processed + multiset{} == s.processed;
  }

  lemma OneMore<T>(a: multiset<T>, x: T)
    ensures |a + multiset{x}| == |a| + 1
  {
  }

  lemma PushCount(s: State)
    requires CountInv(s) && HeapInv(s.heap) && Enabled(s, Push)
    ensures CountInv(Apply(s, Push)) && HeapInv(Apply(s, Push).heap)
  {
    PushHeap(s.heap, s.producer.job);
    OneMore(Jobs(s.heap), s.producer.job);
    hide Jobs, HeapInv, PushJob;
  }

  lemma PopCount(s: State, next: Option<Job>)
    requires CountInv(s) && HeapInv(s.heap) && Enabled(s, Pop(next)) && !Crashes(s, Pop(next))
    ensures CountInv(Apply(s, Pop(next))) && HeapInv(Apply(s, Pop(next)).heap)
  {
    PopHeap(s.heap, next);
    OneMore(Jobs(PopJob(s.heap, next)), s.heap.root.value);
    hide Jobs, HeapInv, PopJob, NextRoot;
  }

  lemma CountStep(s: State, step: Step)
    requires CountInv(s) && HeapInv(s.heap) && Enabled(s, step) && !Crashes(s, step)
    ensures CountInv(Apply(s, step)) && HeapInv(Apply(s, step).heap)
  {
    hide Jobs, HeapInv, PopJob, PushJob, NextRoot;
    match step
    case Push => PushCount(s);
    case Pop(next) => PopCount(s, next);
    case _ =>
  }

  lemma LockStep(s: State, step: Step)
    requires LockInv(s) && Enabled(s, step) && !Crashes(s, step)
    ensures LockInv(Apply(s, step))
  {
    hide Jobs, PushJob, PopJob, NextRoot;
  }

  lemma LookStep(s: State, step: Step)
    requires LookInv(s) && HeapInv(s.heap) && Enabled(s, step) && !Crashes(s, step)
    ensures LookInv(Apply(s, step))
  {
    match step
    case Push => PushLook(s);
    case _ =>
  }

  lemma RoundsStep(s: State, step: Step)
    requires LookInv(s) && HeapInv(s.heap) && RoundsInv(s) && Enabled(s, step) && !Crashes(s, step)
    ensures RoundsInv(Apply(s, step))
  {
    match step
    case Pop(next) => PopRounds(s, next);
    case _ =>
      hide RoundInv;
  }

  /** No step but a push and a pop touches the heap and the history. */
  lemma QuietStep(s: State, step: Step)
    requires Enabled(s, step) && !Crashes(s, step) && !step.Push? && !step.Pop?
    ensures var t := Apply(s, step);
            && t.pushed == s.pushed && t.heap == s.heap && t.rounds == s.rounds
            && t.processed + InWork(t.consumer) == s.processed + InWork(s.consumer)
  {
    if step.Process? {
      assert s.processed + multiset{s.consumer.seen} + multiset{} == s.processed + multiset{s.consumer.seen};
    }
  }

  lemma QuietFlow(s: State, step: Step)
    requires FlowInv(s) && Enabled(s, step) && !Crashes(s, step) && !step.Push? && !step.Pop?
    ensures FlowInv(Apply(s, step))
  {
    QuietStep(s, step);
    hide Jobs, Got, Seen, InWork, Apply, Enabled;
  }

  lemma PushFlow(s: State)
    requires HeapInv(s.heap) && FlowInv(s) && Enabled(s, Push)
    ensures FlowInv(Apply(s, Push))
  {
    PushHeap(s.heap, s.producer.job);
    MoveOne(Jobs(s.heap), Got(s.rounds), s.producer.job);
    hide HeapInv, Jobs, Got, Seen, PushJob, InWork;
    var job := s.producer.job;
    assert Jobs(s.heap) + Got(s.rounds) + multiset{job} == Jobs(s.heap) + multiset{job} + Got(s.rounds);
  }

  lemma FlowStep(s: State, step: Step)
    requires HeapInv(s.heap) && FlowInv(s) && Enabled(s, step) && !Crashes(s, step)
    ensures FlowInv(Apply(s, step))
  {
    hide FlowInv, HeapInv, Apply, Enabled, Crashes;
    match step
    case Push => PushFlow(s);
    case Pop(next) => PopFlow(s, next);
    case _ => QuietFlow(s, step);
  }

  /** Every step of either side keeps the invariant and looks at no empty heap. */
  lemma StepInv(s: State, step: Step)
    requires Inv(s) && Enabled(s, step)
    ensures !Crashes(s, step) && Inv(Apply(s, step))
  {
    NeverEmptyTop(s, step);
    hide Enabled, Crashes, Apply, CountInv, HeapInv, LockInv, LookInv, RoundsInv, FlowInv;
    CountStep(s, step);
    LockStep(s, step);
    LookStep(s, step);
    RoundsStep(s, step);
    FlowStep(s, step);
  }

  /** Token and heap agree after every run, so the consumer never looks at an empty heap. */
  lemma {:induction false} TokensMatchHeap(s: State, steps: seq<Step>)
    requires Inv(s) && Runs(s, steps)
    ensures Inv(After(s, steps))
    ensures forall step :: Enabled(After(s, steps), step) ==> !Crashes(After(s, steps), step)
    decreases |steps|
  {
    if steps == [] {
      forall step | Enabled(s, step) { NeverEmptyTop(s, step); }
    } else {
      StepInv(s, steps[0]);
      TokensMatchHeap(Apply(s, steps[0]), steps[1..]);
    }
  }

  // ----- what becomes of the jobs -----

  function DueTime(): Job -> int {
    (j: Job) => j.priority
  }

  ghost predicate NeverUndercut(s: State) {
    Clean(s.rounds)
  }

  /**
    Over every run: nothing is popped before the time just observed, even when
    a push lands between the look and the pop; and a round pops the job it saw
    exactly when no job pushed in between is due earlier.
   */
  lemma PoppedWhenDue(capacity: nat, steps: seq<Step>, i: nat)
    requires Runs(Init(capacity), steps) && i < |After(Init(capacity), steps).rounds|
    ensures var r := After(Init(capacity), steps).rounds[i];
            && r.got.priority <= r.now
            && (r.got == r.seen <==> NoneUndercuts(r.seen, r.arrivals))
  {
    InitInv(capacity);
    TokensMatchHeap(Init(capacity), steps);
    assert RoundInv(After(Init(capacity), steps).rounds[i]);
  }

  /** The consumer gives its token back exactly when no queued job at all is due. */
  lemma GivesBackExactly(capacity: nat, steps: seq<Step>, now: int)
    requires Runs(Init(capacity), steps) && After(Init(capacity), steps).consumer.HasToken?
    ensures var s := After(Init(capacity), steps);
            && Enabled(s, Peek(now)) && !Crashes(s, Peek(now))
            && (Apply(s, Peek(now)).consumer.Resending? <==> forall j :: j in Jobs(s.heap) ==> j.priority > now)
  {
    InitInv(capacity);
    TokensMatchHeap(Init(capacity), steps);
    var s := After(Init(capacity), steps);
    NeverEmptyTop(s, Peek(now));
    assert s.heap.root.value in Jobs(s.heap);
  }

  /** How much later in all the seen jobs are due than the popped ones. */
  function Lag(rounds: seq<Round>): int {
    var n := |rounds| - 1;
    if n < 0 then 0 else Lag(rounds[..n]) + rounds[n].seen.priority - rounds[n].got.priority
  }

  lemma {:induction false} LagIsDifference(rounds: seq<Round>)
    ensures MultisetSum(Seen(rounds), DueTime()) - MultisetSum(Got(rounds), DueTime()) == Lag(rounds)
  {
    if rounds != [] {
      var n := |rounds| - 1;
      LagIsDifference(rounds[..n]);
      MultisetSumAdd(Got(rounds[..n]), DueTime(), rounds[n].got);
      MultisetSumAdd(Seen(rounds[..n]), DueTime(), rounds[n].seen);
    }
  }

  ghost predicate Clean(rounds: seq<Round>) {
    forall i :: 0 <= i < |rounds| ==> NoneUndercuts(rounds[i].seen, rounds[i].arrivals)
  }

  /** Every undercut round pops a job due earlier than the one seen, and no round a later one. */
  lemma {:induction false} LagExactly(rounds: seq<Round>)
    requires forall i :: 0 <= i < |rounds| ==> RoundInv(rounds[i])
    ensures Lag(rounds) >= 0 && (Lag(rounds) == 0 <==> Clean(rounds))
    ensures Clean(rounds) ==> Got(rounds) == Seen(rounds)
  {
    hide NoneUndercuts;
    if rounds != [] {
      var n := |rounds| - 1;
      assert RoundInv(rounds[n]);
      LagExactly(rounds[..n]);
      assert Clean(rounds) <==> Clean(rounds[..n]) && NoneUndercuts(rounds[n].seen, rounds[n].arrivals);
    }
  }

  lemma CancelLeft<T>(a: multiset<T>, b: multiset<T>, c: multiset<T>)
    ensures a + b == a + c <==> b == c
  {
    assert a + b - a == b && a + c - a == c;
  }

  /**
    Conservation over every run: the pushed jobs are those popped and those
    still queued. But the consumer works on the job it SAW: the pushed jobs are
    those processed, in work and queued exactly when no look was undercut.
   */
  lemma JobsConserved(capacity: nat, steps: seq<Step>)
    requires Runs(Init(capacity), steps)
    ensures var s := After(Init(capacity), steps);
            && s.pushed == Jobs(s.heap) + Got(s.rounds)
            && (s.pushed == Jobs(s.heap) + (s.processed + InWork(s.consumer)) <==> NeverUndercut(s))
  {
    InitInv(capacity);
    TokensMatchHeap(Init(capacity), steps);
    var s := After(Init(capacity), steps);
    LagExactly(s.rounds);
    LagIsDifference(s.rounds);
    CancelLeft(Jobs(s.heap), Got(s.rounds), Seen(s.rounds));
  }

  lemma {:induction false} Advance(s: State, steps: seq<Step>, step: Step)
    requires Runs(s, steps)
    requires Enabled(After(s, steps), step) && !Crashes(After(s, steps), step)
    ensures Runs(s, steps + [step])
    ensures After(s, steps + [step]) == Apply(After(s, steps), step)
    decreases |steps|
  {
    if steps == [] {
      assert steps + [step] == [step] && [step][1..] == [];
    } else {
      assert (steps + [step])[1..] == steps[1..] + [step];
      Advance(Apply(s, steps[0]), steps[1..], step);
    }
  }

  ghost predicate Reaches(s: State, t: State) {
    exists steps :: Runs(s, steps) && After(s, steps) == t
  }

  lemma Reach(s: State, t: State, step: Step)
    requires Reaches(s, t) && Enabled(t, step) && !Crashes(t, step)
    ensures Reaches(s, Apply(t, step))
  {
    var steps :| Runs(s, steps) && After(s, steps) == t;
    Advance(s, steps, step);
  }

  lemma ReachHere(s: State)
    ensures Reaches(s, s)
  {
    assert Runs(s, []) && After(s, []) == s;
  }

  /** An idle producer can queue any job while the channel has room. */
  lemma ReachPush(s: State, t: State, job: Job)
    requires Reaches(s, t) && t.producer.Idle? && t.holder.Nobody? && t.tokens < t.capacity
    ensures Reaches(s, t.(heap := PushJob(t.heap, job), pushed := t.pushed + multiset{job},
                          arrivals := t.arrivals + [job], tokens := t.tokens + 1))
  {
    Reach(s, t, Offer(job));
    var t1 := Apply(t, Offer(job));
    Reach(s, t1, ProducerLock);
    var t2 := Apply(t1, ProducerLock);
    Reach(s, t2, Push);
    var t3 := Apply(t2, Push);
    Reach(s, t3, Send);
    Reach(s, Apply(t3, Send), ProducerUnlock);
  }

  /** A consumer waiting with a token buffered can look at a root that is due. */
  lemma ReachLook(s: State, t: State, now: int)
    requires Reaches(s, t) && t.consumer.Waiting? && t.tokens > 0
    requires t.heap.root.Some? && t.heap.root.value.priority <= now
    ensures Reaches(s, t.(consumer := Peeked(t.heap.root.value, now), tokens := t.tokens - 1, arrivals := []))
  {
    Reach(s, t, Receive);
    Reach(s, Apply(t, Receive), Peek(now));
  }

  /** After a look the consumer can pop and process, if nobody holds the mutex. */
  lemma ReachProcess(s: State, t: State, next: Option<Job>)
    requires Reaches(s, t) && t.consumer.Peeked? && t.holder.Nobody?
    requires t.heap.root.Some? && NextRoot(t.heap, next)
    ensures Reaches(s, t.(consumer := Waiting, heap := PopJob(t.heap, next),
                          rounds := t.rounds + [Round(t.consumer.seen, t.heap.root.value, t.consumer.now, t.arrivals)],
                          processed := t.processed + multiset{t.consumer.seen}))
  {
    Reach(s, t, ConsumerLock);
    var t1 := Apply(t, ConsumerLock);
    Reach(s, t1, Pop(next));
    var t2 := Apply(t1, Pop(next));
    Reach(s, t2, ConsumerUnlock);
    Reach(s, Apply(t2, ConsumerUnlock), Process);
  }

  /**
    An undercut look loses a job: for any two jobs, if the earlier one is
    pushed between the look at the later one and the pop, the later one is
    processed twice, the earlier one never, and the heap is left empty.
   */
  lemma UndercutLosesJob(capacity: nat, late: Job, early: Job)
    requires capacity > 0 && early.priority < late.priority
    ensures exists t :: Reaches(Init(capacity), t)
                        && t.pushed == multiset{late, early}
                        && t.processed == multiset{late, late}
                        && Jobs(t.heap) == multiset{}
  {
    var s, now := Init(capacity), late.priority;
    ReachHere(s);
    ReachPush(s, s, late);
    var t1 := s.(heap := Heap(Some(late), multiset{}), pushed := multiset{late}, arrivals := [late], tokens := 1);
    ReachLook(s, t1, now);
    var t2 := t1.(consumer := Peeked(late, now), tokens := 0, arrivals := []);
    ReachPush(s, t2, early);
    var t3 := t2.(heap := Heap(Some(early), multiset{late}), pushed := multiset{late, early}, arrivals := [early],
        tokens := 1);
    ReachProcess(s, t3, Some(late));
    var t4 := t3.(consumer := Waiting, heap := Heap(Some(late), multiset{}),
                  rounds := [Round(late, early, now, [early])], processed := multiset{late});
    ReachLook(s, t4, now);
    var t5 := t4.(consumer := Peeked(late, now), tokens := 0, arrivals := []);
    ReachProcess(s, t5, None);
    var t6 := t5.(consumer := Waiting, heap := Heap(None, multiset{}),
                  rounds := t5.rounds + [Round(late, late, now, [])], processed := multiset{late, late});
    assert Reaches(s, t6) && Jobs(t6.heap) == multiset{};
  }

  // ----- the bounded channel -----

  /** The consumer wants to give its token back to a full channel that only it would drain. */
  predicate Stuck(s: State) {
    s.consumer.Resending? && s.tokens == s.capacity
  }

  /** Once stuck, always stuck: no step of either side frees the consumer. */
  lemma {:induction false} StuckForever(s: State, steps: seq<Step>)
    requires Stuck(s) && Runs(s, steps)
    ensures Stuck(After(s, steps)) && After(s, steps).processed == s.processed
    decreases |steps|
  {
    if steps != [] {
      StuckForever(Apply(s, steps[0]), steps[1..]);
    }
  }

  lemma {:induction false} CapacityKept(s: State, steps: seq<Step>)
    requires Runs(s, steps)
    ensures After(s, steps).capacity == s.capacity
    decreases |steps|
  {
    if steps != [] {
      CapacityKept(Apply(s, steps[0]), steps[1..]);
    }
  }

  /**
    A consumer giving its token back is stuck exactly when more jobs are queued
    than the channel and a pending send hold.
   */
  lemma StuckExactly(capacity: nat, steps: seq<Step>)
    requires Runs(Init(capacity), steps)
    ensures var s := After(Init(capacity), steps);
            Stuck(s) <==> s.consumer.Resending? && |Jobs(s.heap)| > capacity + UnsentPushes(s.producer)
  {
    InitInv(capacity);
    TokensMatchHeap(Init(capacity), steps);
    CapacityKept(Init(capacity), steps);
  }

  /** The consumer has looked, and the producer holds the mutex with no room for its token. */
  predicate Barred(s: State) {
    s.consumer.Peeked? && (s.producer.Locked? || s.producer.Pushed?) && s.tokens == s.capacity
  }

  predicate ConsumerStep(step: Step) {
    || step.Receive? || step.Peek? || step.Resend?
    || step.ConsumerLock? || step.Pop? || step.ConsumerUnlock? || step.Process?
  }

  /** Whatever follows, the consumer takes no step any more. */
  ghost predicate Halted(s: State) {
    forall steps, i :: Runs(s, steps) && 0 <= i < |steps| ==> !ConsumerStep(steps[i])
  }

  lemma HaltStep(s: State, step: Step)
    requires LockInv(s) && Enabled(s, step) && !Crashes(s, step) && (Stuck(s) || Barred(s))
    ensures !ConsumerStep(step) && (Stuck(Apply(s, step)) || Barred(Apply(s, step)))
  {
    hide PushJob, PopJob, NextRoot;
  }

  lemma {:induction false} HaltStays(s: State, steps: seq<Step>, i: nat)
    requires Inv(s) && (Stuck(s) || Barred(s)) && Runs(s, steps) && i < |steps|
    ensures !ConsumerStep(steps[i])
    decreases i
  {
    hide CountInv, HeapInv, LockInv, LookInv, RoundsInv, FlowInv, Enabled, Crashes, Apply, Stuck, Barred, ConsumerStep;
    HaltStep(s, steps[0]);
    if i > 0 {
      StepInv(s, steps[0]);
      HaltStays(Apply(s, steps[0]), steps[1..], i - 1);
    }
  }

  lemma {:induction false} LeastOf(jobs: multiset<Job>) returns (j: Job)
    requires jobs != multiset{}
    ensures j in jobs && Least(j, jobs)
    decreases |jobs|
  {
    var k :| k in jobs;
    var rest := jobs - multiset{k};
    if rest == multiset{} {
      j := k;
      assert forall l :: l in jobs ==> l == k || l in rest;
    } else {
      var l := LeastOf(rest);
      j := if k.priority < l.priority then k else l;
      assert forall x :: x in jobs ==> x == k || x in rest;
    }
  }

  lemma SomeNext(h: Heap) returns (next: Option<Job>)
    ensures NextRoot(h, next)
  {
    if h.rest == multiset{} {
      next := None;
    } else {
      var j := LeastOf(h.rest);
      next := Some(j);
    }
  }

  /** The step the consumer can take now, if it does not wait for the producer. */
  lemma ConsumerMoves(s: State) returns (step: Step)
    requires LockInv(s) && !Stuck(s) && s.tokens <= s.capacity
    requires s.consumer.Waiting? ==> s.tokens > 0
    requires s.consumer.Peeked? ==> s.holder.Nobody?
    ensures ConsumerStep(step) && Enabled(s, step)
  {
    match s.consumer
    case Waiting => step := Receive;
    case HasToken => step := Peek(0);
    case Resending => step := Resend;
    case Peeked(_, _) => step := ConsumerLock;
    case Entered(_, _) =>
      var next := SomeNext(s.heap);
      step := Pop(next);
    case Popped(_) => step := ConsumerUnlock;
    case Working(_) => step := Process;
  }

  /** How far the producer is from letting the consumer go on. */
  function Distance(s: State): nat {
    if s.consumer.Waiting? && s.tokens == 0 then
      match s.producer
      case Sent => 5
      case Idle => 4
      case Wants(_) => 3
      case Locked(_) => 2
      case Pushed => 1
    else if s.consumer.Peeked? then
      match s.producer
      case Locked(_) => 3
      case Pushed => 2
      case Sent => 1
      case _ => 0
    else 0
  }

  /** Otherwise the producer can take the step it waits for. */
  lemma ProducerMoves(s: State) returns (step: Step)
    requires LockInv(s) && s.tokens <= s.capacity && s.capacity > 0 && !Barred(s)
    requires (s.consumer.Waiting? && s.tokens == 0) || (s.consumer.Peeked? && !s.holder.Nobody?)
    ensures Enabled(s, step) && !Crashes(s, step)
    ensures var t := Apply(s, step);
            !Stuck(t) && !Barred(t) && Distance(t) < Distance(s) && t.capacity == s.capacity
  {
    hide PushJob, PopJob, NextRoot;
    match s.producer
    case Idle => step := Offer(Job(0, 0));
    case Wants(_) => step := ProducerLock;
    case Locked(_) => step := Push;
    case Pushed => step := Send;
    case Sent => step := ProducerUnlock;
  }

  /** A consumer neither stuck nor barred can be brought to its next step. */
  lemma {:induction false} Moves(s: State) returns (steps: seq<Step>)
    requires Inv(s) && s.capacity > 0 && !Stuck(s) && !Barred(s)
    ensures Runs(s, steps) && steps != [] && ConsumerStep(steps[|steps| - 1])
    decreases Distance(s)
  {
    hide HeapInv, LookInv, RoundsInv, FlowInv, LockInv, Enabled, Crashes, Apply, Stuck, Barred, ConsumerStep, Distance;
    if (s.consumer.Waiting? && s.tokens == 0) || (s.consumer.Peeked? && !s.holder.Nobody?) {
      var step := ProducerMoves(s);
      StepInv(s, step);
      var rest := Moves(Apply(s, step));
      steps := [step] + rest;
      assert steps[1..] == rest;
    } else {
      var step := ConsumerMoves(s);
      NeverEmptyTop(s, step);
      steps := [step];
      assert steps[1..] == [];
    }
  }

  /**
    The consumer of a channel with room for at least one token has taken its
    last step exactly when it is stuck or barred: when it gives its token back,
    or the producer holds the mutex it waits for, and more jobs are queued than
    the channel and a pending send hold.
   */
  lemma HaltedExactly(capacity: nat, steps: seq<Step>)
    requires capacity > 0 && Runs(Init(capacity), steps)
    ensures var s := After(Init(capacity), steps);
            && (Halted(s) <==> Stuck(s) || Barred(s))
            && (Stuck(s) || Barred(s) <==>
                  && (s.consumer.Resending? || (s.consumer.Peeked? && (s.producer.Locked? || s.producer.Pushed?)))
                  && |Jobs(s.heap)| > capacity + UnsentPushes(s.producer))
  {
    hide HeapInv, LookInv, RoundsInv, FlowInv, LockInv, Enabled, Crashes, Apply, ConsumerStep, Runs, After;
    InitInv(capacity);
    TokensMatchHeap(Init(capacity), steps);
    CapacityKept(Init(capacity), steps);
    var s := After(Init(capacity), steps);
    if Stuck(s) || Barred(s) {
      forall more, i | Runs(s, more) && 0 <= i < |more|
        ensures !ConsumerStep(more[i])
      {
        HaltStays(s, more, i);
      }
    } else {
      var more := Moves(s);
      assert Runs(s, more) && ConsumerStep(more[|more| - 1]);
    }
  }

  /** While the consumer waits for nothing of it, the producer alone can fill the channel. */
  lemma {:induction false} FillChannel(s: State, t: State, job: Job) returns (u: State)
    requires Reaches(s, t) && t.producer.Idle? && t.holder.Nobody? && t.tokens <= t.capacity
    ensures Reaches(s, u) && u.consumer == t.consumer && u.producer.Idle? && u.holder.Nobody?
    ensures u.tokens == u.capacity
    decreases t.capacity - t.tokens
  {
    u := t;
    if t.tokens < t.capacity {
      ReachPush(s, t, job);
      u := FillChannel(s, t.(heap := PushJob(t.heap, job), pushed := t.pushed + multiset{job},
                             arrivals := t.arrivals + [job], tokens := t.tokens + 1), job);
    }
  }

  /** Both do happen, for every capacity: a job not due yet lets the consumer stick, */
  lemma ChannelCanStick(capacity: nat, job: Job)
    requires capacity > 0
    ensures exists t :: Reaches(Init(capacity), t) && Stuck(t)
  {
    var s := Init(capacity);
    ReachHere(s);
    ReachPush(s, s, job);
    var t1 := s.(heap := PushJob(s.heap, job), pushed := multiset{job}, arrivals := [job], tokens := 1);
    Reach(s, t1, Receive);
    var t2 := Apply(t1, Receive);
    Reach(s, t2, Peek(job.priority - 1));
    var t := FillChannel(s, Apply(t2, Peek(job.priority - 1)), job);
    assert Reaches(s, t) && Stuck(t);
  }

  /** and one that is due lets it be barred. */
  lemma ChannelCanBar(capacity: nat, job: Job)
    requires capacity > 0
    ensures exists t :: Reaches(Init(capacity), t) && Barred(t) && !Stuck(t)
  {
    var s := Init(capacity);
    ReachHere(s);
    ReachPush(s, s, job);
    var t1 := s.(heap := PushJob(s.heap, job), pushed := multiset{job}, arrivals := [job], tokens := 1);
    ReachLook(s, t1, job.priority);
    var u := FillChannel(s, t1.(consumer := Peeked(job, job.priority), tokens := 0, arrivals := []), job);
    Reach(s, u, Offer(job));
    Reach(s, Apply(u, Offer(job)), ProducerLock);
    var t := Apply(Apply(u, Offer(job)), ProducerLock);
    assert Reaches(s, t) && Barred(t);
  }
}
