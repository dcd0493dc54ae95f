/**
  The byte-bounded exporter. Every lock region is one atomic step, so a sequence of steps is an
  interleaving of the threads that enqueue, flush and stop; `flush` holds a semaphore, so there is
  at most one batch in flight.
 */
module IndependentTelemetry {
  import opened OtlpBatch

  const BUFFER_BYTES := 8 * REQUEST_BYTES

  /**
    Where the flushing thread is: outside, holding the semaphore, about to reject the head because
    its batch came out empty, waiting for the answer to a batch, or with a batch already counted
    but still charged.
   */
  datatype Flight = Idle | Held | Rejecting | Sending(batch: seq<Envelope>) | Counted(batch: seq<Envelope>)

  /**
    What became of the records: every one ever offered, those that were exported, those that were
    dropped, and those that left with an exception the sender does not handle; and how many capture
    failures were reported.
   */
  datatype Ledger = Ledger(
    offered: multiset<Envelope>, delivered: multiset<Envelope>, discarded: multiset<Envelope>,
    lost: multiset<Envelope>, reports: nat)
  {
    function Offer(e: Envelope): Ledger { this.(offered := offered + multiset{e}) }
    function Deliver(items: seq<Envelope>): Ledger { this.(delivered := delivered + multiset(items)) }
    function Discard(items: seq<Envelope>): Ledger { this.(discarded := discarded + multiset(items)) }
    function Lose(items: seq<Envelope>): Ledger { this.(lost := lost + multiset(items)) }
    function Report(): Ledger { this.(reports := reports + 1) }
  }

  /** The exporter's fields, its flusher and the ledger. */
  datatype State = State(
    queue: seq<Envelope>, queuedBytes: int, exported: nat, dropped: nat, failed: nat, stopping: bool,
    flight: Flight, ledger: Ledger)

  const INITIAL := State([], 0, 0, 0, 0, false, Idle, Ledger(multiset{}, multiset{}, multiset{}, multiset{}, 0))

  datatype Answer =
    | Success            // a success status
    | Failure            // another status
    | Refused            // HttpRequestException or OperationCanceledException
    | Escaped            // any other exception: the batch is uncharged but counted nowhere

  datatype Step =
    | Offer(envelope: Envelope)
    | ReportFailure
    | Acquire
    | Take
    | RejectHead
    | Respond(answer: Answer)
    | Uncharge
    | Release(expired: bool)
    | BeginStop
    | FinishStop

  predicate Refuses(s: State, envelope: Envelope) {
    s.stopping || |envelope.bytes| + 65 > REQUEST_BYTES || s.queuedBytes + |envelope.bytes| + 64 > BUFFER_BYTES
  }

  // Pieces of a step

  /** A record is offered: refused, or queued and charged. */
  function Offered(s: State, e: Envelope): State {
    var met := s.(ledger := s.ledger.Offer(e));
    if Refuses(s, e) then met.(dropped := s.dropped + 1, ledger := met.ledger.Discard([e]))
    else met.(queue := s.queue + [e], queuedBytes := s.queuedBytes + |e.bytes| + 64)
  }

  /** The head is dropped, after its batch came out empty. */
  function HeadRejected(s: State): State
    requires s.queue != []
  {
    s.(queue := s.queue[1..], queuedBytes := s.queuedBytes - |s.queue[0].bytes| - 64, dropped := s.dropped + 1,
       ledger := s.ledger.Discard([s.queue[0]]), flight := Held)
  }

  /** The batch in flight is counted. */
  function Answered(s: State, answer: Answer): State
    requires s.flight.Sending?
  {
    var settled := s.(flight := Counted(s.flight.batch));
    var batch := s.flight.batch;
    match answer
    case Success => settled.(exported := s.exported + |batch|, ledger := s.ledger.Deliver(batch))
    case Escaped => settled.(ledger := s.ledger.Lose(batch))
    case _ => settled.(failed := s.failed + 1, dropped := s.dropped + |batch|, ledger := s.ledger.Discard(batch))
  }

  /** Everything queued is dropped. */
  function Emptied(s: State): State {
    s.(queue := [], dropped := s.dropped + |s.queue|, ledger := s.ledger.Discard(s.queue))
  }

  /** One atomic step; a step of the flusher at a point it is not at does nothing. */
  function Next(s: State, step: Step): State {
    match step
    case Offer(e) => Offered(s, e)
    case ReportFailure => s.(dropped := s.dropped + 1, ledger := s.ledger.Report())
    case Acquire => if s.flight.Idle? then s.(flight := Held) else s
    case Take =>
      if !s.flight.Held? || s.queue == [] then s
      else if Batch(s.queue) == [] then s.(queue := Remainder(s.queue), flight := Rejecting)
      else s.(queue := Remainder(s.queue), flight := Sending(Batch(s.queue)))
    case RejectHead => if !s.flight.Rejecting? || s.queue == [] then s else HeadRejected(s)
    case Respond(answer) => if s.flight.Sending? then Answered(s, answer) else s
    case Uncharge =>
      if !s.flight.Counted? then s
      else s.(queuedBytes := s.queuedBytes - Charges(s.flight.batch), flight := Held)
    case Release(expired) =>
      if !s.flight.Held? then s
      else if expired then Emptied(s).(queuedBytes := 0, flight := Idle)
      else s.(flight := Idle)
    case BeginStop => s.(stopping := true)
    case FinishStop => Emptied(s).(queuedBytes := s.queuedBytes - Charges(s.queue))
  }

  function Run(s: State, steps: seq<Step>): State
    decreases |steps|
  {
    if steps == [] then s else Run(Next(s, steps[0]), steps[1..])
  }

  // The invariant

  function InFlightBytes(flight: Flight): nat {
    match flight
    case Sending(batch) => Charges(batch)
    case Counted(batch) => Charges(batch)
    case _ => 0
  }

  /** Records waiting for an answer, counted nowhere yet. */
  function Pending(flight: Flight): seq<Envelope> {
    if flight.Sending? then flight.batch else []
  }

  /** The byte counter is what the queue and the batch in flight are charged, within the buffer. */
  ghost predicate Charged(queuedBytes: int, queue: seq<Envelope>, inFlight: nat) {
    queuedBytes == Charges(queue) + inFlight && queuedBytes <= BUFFER_BYTES
  }

  /** Every record offered is in exactly one of: exported, dropped, queued, waiting for an answer, escaped. */
  ghost predicate Conserved(ledger: Ledger, queue: seq<Envelope>, pending: seq<Envelope>) {
    ledger.offered == ledger.delivered + ledger.discarded + ledger.lost + multiset(queue) + multiset(pending)
  }

  /** The counters count the records exported, and the records dropped along with the failures reported. */
  ghost predicate Tallied(ledger: Ledger, exported: nat, dropped: nat) {
    exported == |ledger.delivered| && dropped == |ledger.discarded| + ledger.reports
  }

  /** The counters, the queue and the batch in flight account for every record offered and every failure reported. */
  ghost predicate Balanced(s: State) {
    s.exported + s.dropped + |s.queue| + |Pending(s.flight)| == |s.ledger.offered| + s.ledger.reports
  }

  /** What is in flight was a non-empty batch of one signal that fits a request; the reject branch is never reached. */
  ghost predicate WellFlown(flight: Flight) {
    && !flight.Rejecting?
    && (flight.Sending? ==>
          && flight.batch != []
          && (forall e :: e in flight.batch ==> e.signal == flight.batch[0].signal)
          && |Wire(flight.batch[0].signal, Payloads(flight.batch))| <= REQUEST_BYTES)
  }

  ghost predicate Valid(s: State) {
    && Charged(s.queuedBytes, s.queue, InFlightBytes(s.flight))
    && Conserved(s.ledger, s.queue, Pending(s.flight))
    && Tallied(s.ledger, s.exported, s.dropped)
    && WellFlown(s.flight) && Admissible(s.queue)
  }

  lemma TakePreservesValid(s: State)
    requires Valid(s)
    ensures Valid(Next(s, Take))
  {
    hide Wire, Payloads, Charges, Taken, Left, Offered, Answered, HeadRejected, Emptied;
    if s.flight.Held? && s.queue != [] {
      HeadLeaves(s.queue);
      SplitConserves(s.queue, s.queue[0].signal, FRAME_BYTES);
      SplitConservesCharges(s.queue, s.queue[0].signal, FRAME_BYTES);
      TakenIsMaximal(s.queue, s.queue[0].signal, FRAME_BYTES);
      BatchFitsRequest(s.queue);
      assert Batch(s.queue)[0].signal == s.queue[0].signal;
    }
  }

  lemma OfferIs(s: State, e: Envelope)
    ensures Next(s, Offer(e)) == Offered(s, e)
  {
  }

  lemma RespondIs(s: State, answer: Answer)
    requires s.flight.Sending?
    ensures Next(s, Respond(answer)) == Answered(s, answer)
  {
  }

  lemma ReleaseIs(s: State, expired: bool)
    requires s.flight.Held?
    ensures Next(s, Release(expired)) == if expired then Emptied(s).(queuedBytes := 0, flight := Idle)
                                         else s.(flight := Idle)
  {
  }

  lemma FinishStopIs(s: State)
    ensures Next(s, FinishStop) == Emptied(s).(queuedBytes := s.queuedBytes - Charges(s.queue))
  {
  }

  lemma TakeIs(s: State)
    requires s.flight.Held? && s.queue != []
    ensures Next(s, Take) ==
      s.(queue := Remainder(s.queue), flight := if Batch(s.queue) == [] then Rejecting else Sending(Batch(s.queue)))
  {
  }

  lemma OfferPreservesValid(s: State, e: Envelope)
    requires Valid(s)
    ensures Valid(Offered(s, e))
  {
    hide WellFlown;
    var ledger, waiting := s.ledger.Offer(e), Pending(s.flight);
    if Refuses(s, e) {
      assert Conserved(ledger.Discard([e]), s.queue, waiting)
             && Tallied(ledger.Discard([e]), s.exported, s.dropped + 1);
    } else {
      ChargesAppend(s.queue, [e]);
      assert Charges([e]) == |e.bytes| + 64;
      assert Conserved(ledger, s.queue + [e], waiting) && Tallied(ledger, s.exported, s.dropped);
    }
    hide Conserved, Tallied, Charges;
  }

  lemma AnswerPreservesValid(s: State, answer: Answer)
    requires Valid(s) && s.flight.Sending?
    ensures Valid(Answered(s, answer))
  {
    hide Wire, Payloads, Charged, Admissible, Conserved, Tallied;
    SettlingConserves(s.ledger, s.queue, s.flight.batch);
    SettlingTallies(s.ledger, s.exported, s.dropped, s.flight.batch);
  }

  /** Wherever a batch goes when it is answered, it goes there whole. */
  lemma SettlingConserves(ledger: Ledger, queue: seq<Envelope>, batch: seq<Envelope>)
    requires Conserved(ledger, queue, batch)
    ensures Conserved(ledger.Deliver(batch), queue, []) && Conserved(ledger.Discard(batch), queue, [])
    ensures Conserved(ledger.Lose(batch), queue, [])
  {
  }

  lemma SettlingTallies(ledger: Ledger, exported: nat, dropped: nat, batch: seq<Envelope>)
    requires Tallied(ledger, exported, dropped)
    ensures Tallied(ledger.Deliver(batch), exported + |batch|, dropped)
    ensures Tallied(ledger.Discard(batch), exported, dropped + |batch|)
            && Tallied(ledger.Lose(batch), exported, dropped)
  {
  }

  lemma EmptyingPreservesValid(s: State, queuedBytes: int)
    requires Valid(s) && ((s.flight.Held? && queuedBytes == 0) || queuedBytes == s.queuedBytes - Charges(s.queue))
    ensures Valid(Emptied(s).(queuedBytes := queuedBytes))
  {
    hide WellFlown;
  }

  lemma NextPreservesValid(s: State, step: Step)
    requires Valid(s)
    ensures Valid(Next(s, step))
  {
    match step
    case Offer(e) => OfferPreservesValid(s, e);
    case Take => TakePreservesValid(s);
    case Respond(answer) =>
      if s.flight.Sending? {
        AnswerPreservesValid(s, answer);
      }
    case Release(expired) =>
      hide Wire, Payloads, Charges, Emptied;
      if s.flight.Held? && expired {
        EmptyingPreservesValid(s, 0);
      }
    case FinishStop => EmptyingPreservesValid(s, s.queuedBytes - Charges(s.queue));
    case _ => CountersPreserveValid(s, step);
  }

  /** Steps that move no record out of the queue or into it; the head is never rejected. */
  lemma CountersPreserveValid(s: State, step: Step)
    requires Valid(s)
    requires step.ReportFailure? || step.Acquire? || step.RejectHead? || step.Uncharge? || step.BeginStop?
    ensures Valid(Next(s, step))
  {
    hide Wire, Payloads, Charges, Offered, Answered, Emptied, Admissible;
  }

  /** The invariant holds at every point of every interleaving. */
  lemma {:induction false} RunPreservesValid(s: State, steps: seq<Step>)
    requires Valid(s)
    ensures Valid(Run(s, steps))
    decreases |steps|
  {
    if steps != [] {
      NextPreservesValid(s, steps[0]);
      RunPreservesValid(Next(s, steps[0]), steps[1..]);
    }
  }

  // What the counters count

  /** The batch in flight is answered in this way. */
  predicate Meets(s: State, step: Step, answer: Answer) {
    step == Respond(answer) && s.flight.Sending?
  }

  /**
    Records are exported by a success status and by nothing else, the whole batch then and nothing
    dropped; another status or a handled exception drops the whole batch and is one failed request,
    and nothing else is.
   */
  lemma AnswersExactly(s: State, step: Step)
    ensures Meets(s, step, Success) ==>
      && Next(s, step).exported == s.exported + |s.flight.batch|
      && Next(s, step).dropped == s.dropped && Next(s, step).failed == s.failed
      && Next(s, step).ledger.delivered == s.ledger.delivered + multiset(s.flight.batch)
      && Next(s, step).ledger.discarded == s.ledger.discarded
    ensures Meets(s, step, Failure) || Meets(s, step, Refused) ==>
      && Next(s, step).dropped == s.dropped + |s.flight.batch| && Next(s, step).failed == s.failed + 1
      && Next(s, step).ledger.discarded == s.ledger.discarded + multiset(s.flight.batch)
    ensures Meets(s, step, Escaped) ==> Next(s, step).dropped == s.dropped
    ensures !Meets(s, step, Success) ==>
      Next(s, step).exported == s.exported && Next(s, step).ledger.delivered == s.ledger.delivered
    ensures !Meets(s, step, Failure) && !Meets(s, step, Refused) ==> Next(s, step).failed == s.failed
    ensures step.Respond? && s.flight.Sending? ==>
      Next(s, step).flight == Counted(s.flight.batch) && Next(s, step).queue == s.queue
  {
    hide Charges, Taken, Left;
  }

  /** The records in the batches answered with success. */
  function Succeeded(s: State, steps: seq<Step>): nat
    decreases |steps|
  {
    if steps == [] then 0
    else (if Meets(s, steps[0], Success) then |s.flight.batch| else 0) + Succeeded(Next(s, steps[0]), steps[1..])
  }

  /** The requests that failed in a way the sender handles. */
  function Failures(s: State, steps: seq<Step>): nat
    decreases |steps|
  {
    if steps == [] then 0
    else
      (if Meets(s, steps[0], Failure) || Meets(s, steps[0], Refused) then 1 else 0)
        + Failures(Next(s, steps[0]), steps[1..])
  }

  /**
    Over any run the exported counter is the records answered with success, and the failed counter
    the failing answers.
   */
  lemma {:induction false} CountsExactly(s: State, steps: seq<Step>)
    ensures Run(s, steps).exported == s.exported + Succeeded(s, steps)
    ensures Run(s, steps).failed == s.failed + Failures(s, steps)
    decreases |steps|
  {
    hide Next;
    if steps != [] {
      AnswersExactly(s, steps[0]);
      CountsExactly(Next(s, steps[0]), steps[1..]);
    }
  }

  /**
    An offered record is queued behind everything else exactly if stopping has not begun, it fits a
    request with its framing, and what is queued and in flight leaves room for it; otherwise it is
    dropped.
   */
  lemma OfferedExactly(s: State, e: Envelope)
    requires Valid(s)
    ensures var n, held := Next(s, Offer(e)), Charges(s.queue) + InFlightBytes(s.flight);
            && n.exported == s.exported && n.failed == s.failed && n.flight == s.flight && n.stopping == s.stopping
            && if !s.stopping && |e.bytes| + 65 <= 1_048_576 && held + |e.bytes| + 64 <= 8_388_608
               then n.queue == s.queue + [e] && n.dropped == s.dropped
               else n.queue == s.queue && n.dropped == s.dropped + 1
  {
    hide Charges, WellFlown, Conserved, Tallied, Admissible;
  }

  /** The flusher that holds the semaphore puts a batch in flight that begins with the head of the queue. */
  lemma TakenExactly(s: State)
    requires Valid(s) && s.flight.Held? && s.queue != []
    ensures var n := Next(s, Take);
            && n.flight.Sending? && n.flight.batch != [] && n.flight.batch[0] == s.queue[0]
            && multiset(s.queue) == multiset(n.flight.batch) + multiset(n.queue)
            && n.exported == s.exported && n.dropped == s.dropped && n.failed == s.failed
  {
    TakeIs(s);
    HeadLeaves(s.queue);
    SplitConserves(s.queue, s.queue[0].signal, FRAME_BYTES);
    hide Next, Charges, Taken, Left;
  }

  /**
    Expiry and the end of a stop drop everything queued; a flush that ends in time, and the
    beginning of a stop, drop nothing.
   */
  lemma EndsExactly(s: State, expired: bool)
    requires s.flight.Held?
    ensures var n := Next(s, Release(expired));
            && n.flight.Idle? && n.exported == s.exported && n.failed == s.failed
            && n.queue == (if expired then [] else s.queue)
            && n.dropped == s.dropped + (if expired then |s.queue| else 0)
    ensures Next(s, FinishStop).queue == [] && Next(s, FinishStop).dropped == s.dropped + |s.queue|
    ensures Next(s, BeginStop) == s.(stopping := true)
  {
    hide Charges;
  }

  /** No exception the sender does not handle ever meets a batch in flight. */
  ghost predicate Unescaped(s: State, steps: seq<Step>)
    decreases |steps|
  {
    steps != [] ==> !(steps[0] == Respond(Escaped) && s.flight.Sending?) && Unescaped(Next(s, steps[0]), steps[1..])
  }

  /** The counters account for everything exactly as long as no such exception occurs. */
  lemma AccountedExactly(s: State, steps: seq<Step>)
    requires Valid(s) && s.ledger.lost == multiset{}
    ensures Balanced(Run(s, steps)) <==> Unescaped(s, steps)
  {
    RunPreservesValid(s, steps);
    LostExactly(s, steps);
    hide Valid, Run, Unescaped, Balanced;
    BalancedUnlessLost(Run(s, steps));
  }

  lemma BalancedUnlessLost(s: State)
    requires Valid(s)
    ensures Balanced(s) <==> s.ledger.lost == multiset{}
  {
    hide Charged, WellFlown, Admissible;
    assert |s.ledger.offered| ==
      |s.ledger.delivered| + |s.ledger.discarded| + |s.ledger.lost| + |s.queue| + |Pending(s.flight)|;
    EmptyExactly(s.ledger.lost);
  }

  lemma EmptyExactly(records: multiset<Envelope>)
    ensures |records| == 0 <==> records == multiset{}
  {
  }

  lemma {:induction false} LostExactly(s: State, steps: seq<Step>)
    requires Valid(s)
    ensures |Run(s, steps).ledger.lost| >= |s.ledger.lost|
    ensures |Run(s, steps).ledger.lost| == |s.ledger.lost| <==> Unescaped(s, steps)
    decreases |steps|
  {
    hide Wire, Payloads, Taken, Left, Next;
    if steps != [] {
      NextPreservesValid(s, steps[0]);
      LostBy(s, steps[0]);
      LostExactly(Next(s, steps[0]), steps[1..]);
    }
  }

  lemma LostBy(s: State, step: Step)
    ensures |Next(s, step).ledger.lost| == |s.ledger.lost| + if step == Respond(Escaped) && s.flight.Sending?
                                                             then |s.flight.batch| else 0
  {
    hide Wire, Payloads, Taken, Left;
  }

  /** One record, sent with such an exception, is offered and counted nowhere. */
  lemma EscapesUncounted(record: Envelope)
    requires |record.bytes| + 65 <= REQUEST_BYTES
    ensures var s := Run(INITIAL, [Offer(record), Acquire, Take, Respond(Escaped)]);
            |s.ledger.offered| == 1 && s.queue == [] && s.flight == Counted([record])
              && s.exported == s.dropped == s.failed == 0
            && !Balanced(s)
  {
    var steps := [Offer(record), Acquire, Take, Respond(Escaped)];
    var held := INITIAL.(ledger := INITIAL.ledger.Offer(record), queue := [record],
                         queuedBytes := |record.bytes| + 64, flight := Held);
    BatchOfOne(record);
    hide Batch, Remainder;
    assert Next(Next(INITIAL, Offer(record)), Acquire) == held;
    TakeIs(held);
    hide Next;
    FourSteps(INITIAL, steps);
    assert Next(held, Take) == held.(queue := [], flight := Sending([record]));
    EscapeIs(Next(held, Take));
  }

  lemma BatchOfOne(record: Envelope)
    requires |record.bytes| + 65 <= REQUEST_BYTES
    ensures Batch([record]) == [record] && Remainder([record]) == []
  {
    var queue, size := [record], FRAME_BYTES + |record.bytes| + 1;
    assert Joins(record, record.signal, FRAME_BYTES) && queue[1..] == [];
    assert Taken(queue, record.signal, FRAME_BYTES) == [record] + Taken(queue[1..], record.signal, size);
    assert Left(queue, record.signal, FRAME_BYTES) == Left(queue[1..], record.signal, size);
  }

  lemma FourSteps(s: State, steps: seq<Step>)
    requires |steps| == 4
    ensures Run(s, steps) == Next(Next(Next(Next(s, steps[0]), steps[1]), steps[2]), steps[3])
  {
    hide Next;
    var second := Next(Next(s, steps[0]), steps[1]);
    assert steps[1..][1..] == steps[2..] && steps[2..][1..] == steps[3..] && steps[3..][1..] == [];
    assert Run(s, steps) == Run(Next(s, steps[0]), steps[1..]) == Run(second, steps[2..]);
    assert Run(second, steps[2..]) == Run(Next(second, steps[2]), steps[3..]);
    assert Run(Next(second, steps[2]), steps[3..]) == Run(Next(Next(second, steps[2]), steps[3]), []);
  }

  lemma EscapeIs(s: State)
    requires s.flight.Sending?
    ensures Next(s, Respond(Escaped)) == s.(flight := Counted(s.flight.batch), ledger := s.ledger.Lose(s.flight.batch))
  {
  }

  /** Once stopping has begun nothing is admitted any more, so the queue only ever loses records. */
  lemma {:induction false} StoppedQueueOnlyShrinks(s: State, steps: seq<Step>)
    requires Valid(s) && s.stopping
    ensures Run(s, steps).stopping && |Run(s, steps).queue| <= |s.queue|
    ensures s.queue == [] ==> Run(s, steps).queue == []
    decreases |steps|
  {
    hide Valid, Next;
    if steps != [] {
      StepShrinks(s, steps[0]);
      NextPreservesValid(s, steps[0]);
      StoppedQueueOnlyShrinks(Next(s, steps[0]), steps[1..]);
    }
  }

  lemma StepShrinks(s: State, step: Step)
    requires Valid(s) && s.stopping
    ensures Next(s, step).stopping && |Next(s, step).queue| <= |s.queue|
  {
    hide Wire, Payloads, Taken, Left, Conserved, Tallied, WellFlown, Charged;
    if s.queue != [] {
      HeadLeaves(s.queue);
    }
  }

  /** No byte is held, and every record offered is exported, dropped or escaped, and counted as that. */
  ghost predicate Settled(s: State) {
    && s.queuedBytes == 0
    && s.ledger.offered == s.ledger.delivered + s.ledger.discarded + s.ledger.lost
    && Tallied(s.ledger, s.exported, s.dropped)
  }

  /**
    After a stop has finished and the last flusher has released, everything ever offered has been
    accounted for and no byte is held.
   */
  lemma StopSettlesAll(steps: seq<Step>, rest: seq<Step>)
    requires BeginStop in steps
    ensures var s := Run(Next(Run(INITIAL, steps), FinishStop), rest);
            s.flight.Idle? ==> Settled(s)
  {
    hide Next, Run, Valid;
    IdleAndEmptyIsValid(INITIAL);
    RunPreservesValid(INITIAL, steps);
    FinishEmpties(Run(INITIAL, steps));
    StoppingRemembered(INITIAL, steps);
    var stopped := Next(Run(INITIAL, steps), FinishStop);
    NextPreservesValid(Run(INITIAL, steps), FinishStop);
    RunPreservesValid(stopped, rest);
    StoppedQueueOnlyShrinks(stopped, rest);
    SettledWhenEmpty(Run(stopped, rest));
  }

  lemma IdleAndEmptyIsValid(s: State)
    requires s.flight.Idle? && s.queue == [] && s.queuedBytes == 0
    requires s.ledger.offered == s.ledger.delivered == s.ledger.discarded == s.ledger.lost == multiset{}
             && s.exported == s.dropped == s.ledger.reports == 0
    ensures Valid(s)
  {
  }

  lemma SettledWhenEmpty(s: State)
    requires Valid(s)
    ensures s.queue == [] && s.flight.Idle? ==> Settled(s)
  {
  }

  lemma FinishEmpties(s: State)
    ensures Next(s, FinishStop).queue == [] && Next(s, FinishStop).stopping == s.stopping
  {
  }

  lemma {:induction false} StoppingRemembered(s: State, steps: seq<Step>)
    ensures s.stopping || BeginStop in steps ==> Run(s, steps).stopping
    decreases |steps|
  {
    if steps != [] {
      StoppingRemembered(Next(s, steps[0]), steps[1..]);
    }
  }
}
