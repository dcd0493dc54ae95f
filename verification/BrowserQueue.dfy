/**
  The browser's telemetry queue. Code between two awaits runs alone, so each stretch of it is one
  atomic step and a sequence of steps is an interleaving of callers, resets and the one drain.
 */
module BrowserQueue {
  import opened Wrappers

  const BATCH_BYTES := 49152
  const BUFFERED_BYTES := 262144
  const EVENT_BYTES := 8192
  const EVENTS := 256

  /** A sanitized Faro batch; records are left uninterpreted. */
  datatype Faro = Faro(logs: seq<nat>, exceptions: seq<nat>, measurements: seq<nat>, events: seq<nat>, spans: seq<nat>)

  const NOTHING := Faro([], [], [], [], [])

  function Merge(left: Faro, right: Faro): Faro {
    Faro(left.logs + right.logs, left.exceptions + right.exceptions, left.measurements + right.measurements,
         left.events + right.events, left.spans + right.spans)
  }

  /** An accepted record; `epoch` remembers the generation it was accepted in. */
  datatype Item = Item(payload: Faro, bytes: nat, epoch: nat)

  /** A session context; `epoch` remembers the generation whose reset obtained it. */
  datatype Context = Context(value: string, epoch: nat)

  /** Where the drain is; a drain keeps the generation it started in and whether its deadline has passed. */
  datatype Drain =
    | Off
    | Sending(epoch: nat, expired: bool, batch: seq<Item>)
    | Cancelling(epoch: nat, expired: bool, batch: seq<Item>)
    | Resetting(reset: nat)
    | Finishing

  /** A request as it left. */
  datatype Post = Post(items: seq<Item>, context: Context)

  /** A batch counted as exported, and the generation in which its answer came. */
  datatype Delivery = Delivery(items: seq<Item>, generation: nat)

  /**
    What became of the records: those accepted, those exported, those dropped, and those counted a
    second time; and how many drops are not owed to an accepted record.
   */
  datatype Ledger = Ledger(
    accepted: multiset<Item>, deliveries: seq<Delivery>, discarded: multiset<Item>, recounted: multiset<Item>,
    refused: nat)
  {
    function Accept(item: Item): Ledger { this.(accepted := accepted + multiset{item}) }
    function Deliver(items: seq<Item>, generation: nat): Ledger {
      this.(deliveries := deliveries + [Delivery(items, generation)])
    }
    function Discard(items: seq<Item>): Ledger { this.(discarded := discarded + multiset(items)) }
    function Recount(items: seq<Item>): Ledger { this.(recounted := recounted + multiset(items)) }
    function Refuse(n: nat): Ledger { this.(refused := refused + n) }
  }

  /** The closure's variables, the pending resets and the drain, the ledger, and every request posted. */
  datatype State = State(
    queue: seq<Item>, queuedBytes: int, exported: nat, dropped: nat, failed: nat,
    context: Option<Context>, generation: nat, resets: set<nat>, drain: Drain,
    ledger: Ledger, posts: seq<Post>)

  const INITIAL := State([], 0, 0, 0, 0, None, 0, {}, Off, Ledger(multiset{}, [], multiset{}, multiset{}, 0), [])

  /** How a context request ends: a response with or without a textual context, or an exception. */
  datatype ContextAnswer = Responded(ok: bool, context: Option<string>) | ContextFailed

  /** How a batch ends: the status of its response, or an exception. */
  datatype BatchAnswer = Changed | Accepted | Rejected | BatchFailed

  datatype Step =
    | Enqueue(payload: Faro, count: nat, bytes: nat, discarded: nat)  // as the sanitizer leaves it
    | Drop
    | Clear
    | Reset
    | ContextArrives(reset: nat, contextAnswer: ContextAnswer)
    | Flush
    | Expire
    | BatchArrives(batchAnswer: BatchAnswer)
    | BodyCancelled(resolved: bool)
    | Settle

  function Bytes(items: seq<Item>): nat {
    if items == [] then 0 else items[0].bytes + Bytes(items[1..])
  }

  // Pieces of a step

  function Cleared(s: State): State {
    s.(dropped := s.dropped + |s.queue|, queuedBytes := s.queuedBytes - Bytes(s.queue), queue := [],
       ledger := s.ledger.Discard(s.queue))
  }

  /** The synchronous part of a reset. */
  function ResetBegun(s: State): State {
    Cleared(s.(generation := s.generation + 1, context := None, resets := s.resets + {s.generation + 1}))
  }

  predicate TooLarge(candidate: Faro, context: string, wire: (Faro, string) -> nat) {
    || |candidate.logs| > EVENTS || |candidate.exceptions| > EVENTS || |candidate.events| > EVENTS
    || |candidate.measurements| > EVENTS || |candidate.spans| > EVENTS
    || wire(candidate, context) > BATCH_BYTES
  }

  /** How many records of the queue's front fit one request on top of `batch`. */
  function Fitting(queue: seq<Item>, batch: Faro, context: string, wire: (Faro, string) -> nat): (n: nat)
    ensures n <= |queue|
    decreases |queue|
  {
    if queue == [] then 0
    else
      var candidate := Merge(batch, queue[0].payload);
      if TooLarge(candidate, context, wire) then 0 else 1 + Fitting(queue[1..], candidate, context, wire)
  }

  /** What the drain does after its loop. */
  function AfterLoop(s: State, epoch: nat, expired: bool): State {
    if epoch != s.generation then s.(drain := Finishing)
    else if expired then Cleared(s).(drain := Finishing)
    else if s.context.None? then ResetBegun(s).(drain := Resetting(s.generation + 1))
    else s.(drain := Finishing)
  }

  /** The drain from the head of its loop to its next await; a reset aborts the signal of the generation before it. */
  function Proceed(s: State, epoch: nat, expired: bool, wire: (Faro, string) -> nat): State {
    if s.queue == [] || s.context.None? || expired || epoch != s.generation then AfterLoop(s, epoch, expired)
    else
      var n := Fitting(s.queue, NOTHING, s.context.value.value, wire);
      if n == 0 then AfterLoop(Cleared(s), epoch, expired)
      else
        s.(queue := s.queue[n..], drain := Sending(epoch, expired, s.queue[..n]),
           posts := s.posts + [Post(s.queue[..n], s.context.value)])
  }

  function Discharged(s: State, batch: seq<Item>): State {
    s.(queuedBytes := s.queuedBytes - Bytes(batch))
  }

  /** How the counters take an answer, given the generation now. */
  function Answered(s: State, epoch: nat, batch: seq<Item>, answer: BatchAnswer): State {
    if epoch != s.generation then Lost(s, batch)
    else match answer
      case Changed => Lost(Cleared(s.(context := None)), batch)
      case Accepted => s.(exported := s.exported + |batch|, ledger := s.ledger.Deliver(batch, s.generation))
      case _ => Lost(s, batch).(failed := s.failed + 1)
  }

  /** A batch is counted as dropped. */
  function Lost(s: State, batch: seq<Item>): State {
    s.(dropped := s.dropped + |batch|, ledger := s.ledger.Discard(batch))
  }

  /**
    A batch counted already is counted as dropped once more, since one handler covers the request
    and the cancellation.
   */
  function CountedAgain(s: State, batch: seq<Item>): State {
    s.(failed := s.failed + 1, dropped := s.dropped + |batch|, ledger := s.ledger.Recount(batch))
  }

  /** What the sanitizer leaves of an enqueued payload is refused, or queued and charged. */
  function Enqueued(s: State, payload: Faro, count: nat, bytes: nat, discarded: nat): State {
    if s.context.None? then Refused(s, 1)
    else
      var sanitized := Refused(s, discarded);
      if count == 0 then sanitized
      else if bytes > EVENT_BYTES || bytes + s.queuedBytes > BUFFERED_BYTES then Refused(sanitized, 1)
      else
        var item := Item(payload, bytes, s.generation);
        sanitized.(queue := s.queue + [item], queuedBytes := s.queuedBytes + bytes,
                   ledger := sanitized.ledger.Accept(item))
  }

  function Refused(s: State, n: nat): State {
    s.(dropped := s.dropped + n, ledger := s.ledger.Refuse(n))
  }

  /** One atomic step; a step nobody is waiting for does nothing. */
  function Next(s: State, step: Step, wire: (Faro, string) -> nat): State {
    match step
    case Enqueue(payload, count, bytes, discarded) => Enqueued(s, payload, count, bytes, discarded)
    case Drop => Refused(s, 1)
    case Clear => Cleared(s)
    case Reset => ResetBegun(s)
    case ContextArrives(reset, answer) =>
      if reset !in s.resets then s
      else
        var arrived := s.(resets := s.resets - {reset},
                          drain := if s.drain == Resetting(reset) then Finishing else s.drain);
        (match answer
         case ContextFailed => arrived.(failed := s.failed + 1)
         case Responded(ok, context) =>
           if ok && context.Some? && |context.value| <= EVENTS && s.generation == reset
           then arrived.(context := Some(Context(context.value, reset)))
           else arrived)
    case Flush => if s.drain.Off? then Proceed(s, s.generation, false, wire) else s
    case Expire =>
      if s.drain.Sending? || s.drain.Cancelling? then s.(drain := s.drain.(expired := true)) else s
    case BatchArrives(answer) =>
      if !s.drain.Sending? then s
      else
        var Sending(epoch, expired, batch) := s.drain;
        if answer.BatchFailed?
        then Proceed(Discharged(Lost(s, batch).(failed := s.failed + 1), batch), epoch, expired, wire)
        else Answered(s, epoch, batch, answer).(drain := Cancelling(epoch, expired, batch))
    case BodyCancelled(resolved) =>
      if !s.drain.Cancelling? then s
      else
        var Cancelling(epoch, expired, batch) := s.drain;
        Proceed(Discharged(if resolved then s else CountedAgain(s, batch), batch), epoch, expired, wire)
    case Settle => if s.drain.Finishing? then s.(drain := Off) else s
  }

  function Run(s: State, steps: seq<Step>, wire: (Faro, string) -> nat): State
    decreases |steps|
  {
    if steps == [] then s else Run(Next(s, steps[0], wire), steps[1..], wire)
  }

  // The invariant

  /** The batch that is charged besides the queue. */
  function Held(drain: Drain): seq<Item> {
    if drain.Sending? || drain.Cancelling? then drain.batch else []
  }

  /** Records waiting for an answer, counted nowhere yet. */
  function Uncounted(drain: Drain): seq<Item> {
    if drain.Sending? then drain.batch else []
  }

  /** Records counted, that might yet be counted again. */
  function Recountable(drain: Drain): seq<Item> {
    if drain.Cancelling? then drain.batch else []
  }

  function Delivered(deliveries: seq<Delivery>): multiset<Item> {
    if deliveries == [] then multiset{}
    else Delivered(deliveries[..|deliveries| - 1]) + multiset(deliveries[|deliveries| - 1].items)
  }

  /** The byte counter is the queue plus the batch in flight, within the budget. */
  ghost predicate Charged(queuedBytes: int, queue: seq<Item>, held: seq<Item>) {
    queuedBytes == Bytes(queue) + Bytes(held) && queuedBytes <= BUFFERED_BYTES
  }

  /** Every accepted record is in exactly one of: exported, dropped, queued, waiting for an answer. */
  ghost predicate Conserved(ledger: Ledger, queue: seq<Item>, waiting: seq<Item>) {
    ledger.accepted == Delivered(ledger.deliveries) + ledger.discarded + multiset(queue) + multiset(waiting)
  }

  /**
    Only a record exported or dropped is counted again, and once at most; that of a batch whose
    body is being cancelled not yet.
   */
  ghost predicate RecountedOnce(ledger: Ledger, recountable: seq<Item>) {
    ledger.recounted + multiset(recountable) <= Delivered(ledger.deliveries) + ledger.discarded
  }

  /** The counters count the records exported; and those dropped, those refused, and those counted again. */
  ghost predicate Tallied(ledger: Ledger, exported: nat, dropped: nat) {
    exported == |Delivered(ledger.deliveries)| && dropped == |ledger.discarded| + ledger.refused + |ledger.recounted|
  }

  /** The counters, the queue and the batch in flight account for every record accepted or refused. */
  ghost predicate Balanced(s: State) {
    s.exported + s.dropped + |s.queue| + |Uncounted(s.drain)| == |s.ledger.accepted| + s.ledger.refused
  }

  ghost predicate OfEpoch(items: seq<Item>, epoch: nat) {
    forall i :: 0 <= i < |items| ==> items[i].epoch == epoch
  }

  /**
    Whatever is queued, and the context if there is one, belongs to the current generation; nothing
    belongs to a later one.
   */
  ghost predicate Current(s: State) {
    && OfEpoch(s.queue, s.generation)
    && (s.context.Some? ==> s.context.value.epoch == s.generation && s.generation !in s.resets)
    && (forall e :: e in s.resets ==> e <= s.generation)
    && Flown(s.drain, s.generation)
  }

  /** The batch in flight is of one generation, the current one or an earlier one. */
  ghost predicate Flown(drain: Drain, generation: nat) {
    drain.Sending? || drain.Cancelling? ==>
      drain.epoch <= generation && drain.batch != [] && OfEpoch(drain.batch, drain.epoch)
  }

  /** Every record counted as exported was answered in the generation in which it was accepted. */
  ghost predicate Timely(deliveries: seq<Delivery>) {
    forall i :: 0 <= i < |deliveries| ==> OfEpoch(deliveries[i].items, deliveries[i].generation)
  }

  /** Every request carried records of one generation under a context obtained in that generation, within the limits. */
  ghost predicate Isolated(posts: seq<Post>, wire: (Faro, string) -> nat) {
    forall i :: 0 <= i < |posts| ==>
      && posts[i].items != []
      && OfEpoch(posts[i].items, posts[i].context.epoch)
      && !TooLarge(MergeAll(NOTHING, posts[i].items), posts[i].context.value, wire)
  }

  function MergeAll(batch: Faro, items: seq<Item>): Faro
    decreases |items|
  {
    if items == [] then batch else MergeAll(Merge(batch, items[0].payload), items[1..])
  }

  ghost predicate Valid(s: State, wire: (Faro, string) -> nat) {
    && Charged(s.queuedBytes, s.queue, Held(s.drain))
    && Conserved(s.ledger, s.queue, Uncounted(s.drain))
    && RecountedOnce(s.ledger, Recountable(s.drain))
    && Tallied(s.ledger, s.exported, s.dropped)
    && Current(s) && Timely(s.ledger.deliveries) && Isolated(s.posts, wire)
  }

  // Every step keeps it

  lemma {:induction false} BytesAppend(left: seq<Item>, right: seq<Item>)
    ensures Bytes(left + right) == Bytes(left) + Bytes(right)
  {
    if left == [] {
      assert left + right == right;
    } else {
      BytesAppend(left[1..], right);
      assert (left + right)[1..] == left[1..] + right;
    }
  }

  /** The records taken for a request fit it together. */
  lemma {:induction false} FittingFits(queue: seq<Item>, batch: Faro, context: string, wire: (Faro, string) -> nat)
    ensures var n := Fitting(queue, batch, context, wire);
            n > 0 ==> !TooLarge(MergeAll(batch, queue[..n]), context, wire)
    ensures var n := Fitting(queue, batch, context, wire);
            n < |queue| ==> TooLarge(Merge(MergeAll(batch, queue[..n]), queue[n].payload), context, wire)
    decreases |queue|
  {
    hide TooLarge, Merge;
    if queue != [] {
      var candidate := Merge(batch, queue[0].payload);
      if !TooLarge(candidate, context, wire) {
        FittingFits(queue[1..], candidate, context, wire);
        var n := Fitting(queue, batch, context, wire);
        assert queue[..n][1..] == queue[1..][..n - 1];
        assert MergeAll(batch, queue[..n]) == MergeAll(candidate, queue[1..][..n - 1]);
      } else {
        assert queue[..0] == [];
      }
    }
  }

  lemma ClearedPreservesValid(s: State, wire: (Faro, string) -> nat)
    requires Valid(s, wire)
    ensures Valid(Cleared(s), wire)
  {
    hide Isolated, Delivered, Timely;
  }

  lemma ResetPreservesValid(s: State, wire: (Faro, string) -> nat)
    requires Valid(s, wire)
    ensures Valid(ResetBegun(s), wire)
  {
    ClearedPreservesValid(s, wire);
    hide Isolated, Conserved, Tallied, RecountedOnce, Charged, Timely, Bytes;
    assert ResetBegun(s) ==
      Cleared(s).(generation := s.generation + 1, context := None, resets := s.resets + {s.generation + 1});
  }

  lemma AfterLoopPreservesValid(s: State, epoch: nat, expired: bool, wire: (Faro, string) -> nat)
    requires Valid(s.(drain := Off), wire)
    ensures Valid(AfterLoop(s, epoch, expired), wire)
  {
    ClearedPreservesValid(s.(drain := Off), wire);
    ResetPreservesValid(s.(drain := Off), wire);
    hide Isolated, Conserved, Tallied, RecountedOnce, Charged, Timely, Bytes;
    assert AfterLoop(s, epoch, expired) in {s.(drain := Finishing), Cleared(s).(drain := Finishing),
                                            ResetBegun(s).(drain := Resetting(s.generation + 1))};
  }

  /** The drain, resumed with nothing in flight, keeps the invariant up to its next await. */
  lemma ProceedPreservesValid(s: State, epoch: nat, expired: bool, wire: (Faro, string) -> nat)
    requires Valid(s.(drain := Off), wire)
    ensures Valid(Proceed(s, epoch, expired, wire), wire)
  {
    if s.queue == [] || s.context.None? || expired || epoch != s.generation {
      hide Valid, AfterLoop;
      AfterLoopPreservesValid(s, epoch, expired, wire);
    } else if Fitting(s.queue, NOTHING, s.context.value.value, wire) == 0 {
      hide Valid, AfterLoop;
      ClearedPreservesValid(s.(drain := Off), wire);
      assert Cleared(s).(drain := Off) == Cleared(s.(drain := Off));
      AfterLoopPreservesValid(Cleared(s), epoch, expired, wire);
    } else {
      PostingPreservesValid(s, epoch, wire);
    }
  }

  lemma PostingPreservesValid(s: State, epoch: nat, wire: (Faro, string) -> nat)
    requires Valid(s.(drain := Off), wire) && epoch == s.generation && s.context.Some? && s.queue != []
    requires Fitting(s.queue, NOTHING, s.context.value.value, wire) > 0
    ensures Valid(Proceed(s, epoch, false, wire), wire)
  {
    hide TooLarge, Fitting, Delivered, Timely, RecountedOnce, Tallied, Proceed, Charged, Conserved, Isolated, Bytes,
         OfEpoch;
    var n := Fitting(s.queue, NOTHING, s.context.value.value, wire);
    var batch, rest := s.queue[..n], s.queue[n..];
    PostIs(s, epoch, wire);
    CutConserves(s, n);
    FittingFits(s.queue, NOTHING, s.context.value.value, wire);
    PostIsolated(s.posts, Post(batch, s.context.value), wire);
  }

  /** Cutting the queue in two moves its front into flight. */
  lemma CutConserves(s: State, n: nat)
    requires n <= |s.queue|
    requires Charged(s.queuedBytes, s.queue, []) && Conserved(s.ledger, s.queue, []) && OfEpoch(s.queue, s.generation)
    ensures Charged(s.queuedBytes, s.queue[n..], s.queue[..n]) && Conserved(s.ledger, s.queue[n..], s.queue[..n])
    ensures OfEpoch(s.queue[..n], s.generation) && OfEpoch(s.queue[n..], s.generation)
  {
    hide Delivered;
    BytesAppend(s.queue[..n], s.queue[n..]);
    assert s.queue[..n] + s.queue[n..] == s.queue;
  }

  lemma PostIsolated(posts: seq<Post>, post: Post, wire: (Faro, string) -> nat)
    requires Isolated(posts, wire)
    requires post.items != [] && OfEpoch(post.items, post.context.epoch)
    requires !TooLarge(MergeAll(NOTHING, post.items), post.context.value, wire)
    ensures Isolated(posts + [post], wire)
  {
    hide TooLarge, MergeAll, OfEpoch;
  }

  lemma PostIs(s: State, epoch: nat, wire: (Faro, string) -> nat)
    requires epoch == s.generation && s.context.Some? && s.queue != []
    requires Fitting(s.queue, NOTHING, s.context.value.value, wire) > 0
    ensures var n := Fitting(s.queue, NOTHING, s.context.value.value, wire);
            Proceed(s, epoch, false, wire) ==
            s.(queue := s.queue[n..], drain := Sending(epoch, false, s.queue[..n]),
               posts := s.posts + [Post(s.queue[..n], s.context.value)])
  {
    hide Fitting;
  }

  lemma DeliveredAppend(deliveries: seq<Delivery>, delivery: Delivery)
    ensures Delivered(deliveries + [delivery]) == Delivered(deliveries) + multiset(delivery.items)
  {
    assert (deliveries + [delivery])[..|deliveries|] == deliveries;
  }

  /** Whatever is counted for the first time may be counted again. */
  lemma Grow(ledger: Ledger, counted: multiset<Item>, batch: seq<Item>)
    requires ledger.recounted + multiset([]) <= counted
    ensures ledger.recounted + multiset(batch) <= counted + multiset(batch)
  {
    forall item ensures (ledger.recounted + multiset(batch))[item] <= (counted + multiset(batch))[item] {
      assert (ledger.recounted + multiset([]))[item] <= counted[item];
    }
  }

  /** A batch answered, with its body still to be cancelled. */
  function Settling(s: State): State {
    if s.drain.Sending? then s.(drain := Cancelling(s.drain.epoch, s.drain.expired, s.drain.batch)) else s
  }

  /** A batch in flight is lost, and its body is still to be cancelled. */
  lemma LosingPreservesValid(s: State, failed: nat, wire: (Faro, string) -> nat)
    requires Valid(s, wire) && s.drain.Sending?
    ensures Valid(Settling(Lost(s, s.drain.batch)).(failed := failed), wire)
  {
    hide Isolated, Delivered, Timely, Charged;
    var batch := s.drain.batch;
    assert Settling(Lost(s, batch)).ledger == s.ledger.Discard(batch);
    assert Conserved(s.ledger.Discard(batch), s.queue, []);
    Grow(s.ledger, Delivered(s.ledger.deliveries) + s.ledger.discarded, batch);
    assert RecountedOnce(s.ledger.Discard(batch), batch);
  }

  /** A batch in flight is exported, and its body is still to be cancelled. */
  lemma DeliveringPreservesValid(s: State, wire: (Faro, string) -> nat)
    requires Valid(s, wire) && s.drain.Sending? && s.drain.epoch == s.generation
    ensures Valid(Settling(Answered(s, s.generation, s.drain.batch, Accepted)), wire)
  {
    hide Isolated, Delivered, Charged;
    var batch := s.drain.batch;
    DeliveredAppend(s.ledger.deliveries, Delivery(batch, s.generation));
    assert Conserved(s.ledger.Deliver(batch, s.generation), s.queue, []);
    Grow(s.ledger, Delivered(s.ledger.deliveries) + s.ledger.discarded, batch);
    assert RecountedOnce(s.ledger.Deliver(batch, s.generation), batch);
  }

  lemma AnsweredPreservesValid(s: State, answer: BatchAnswer, wire: (Faro, string) -> nat)
    requires Valid(s, wire) && s.drain.Sending?
    ensures Valid(Settling(Answered(s, s.drain.epoch, s.drain.batch, answer)), wire)
  {
    if s.drain.epoch == s.generation && answer.Accepted? {
      DeliveringPreservesValid(s, wire);
    } else if s.drain.epoch == s.generation && answer.Changed? {
      ForgettingPreservesValid(s, wire);
      ClearedPreservesValid(s.(context := None), wire);
      hide Valid, Bytes;
      LosingPreservesValid(Cleared(s.(context := None)), s.failed, wire);
      assert Cleared(s.(context := None)).drain == s.drain;
    } else {
      hide Valid, Bytes;
      LosingPreservesValid(s, if s.drain.epoch == s.generation then s.failed + 1 else s.failed, wire);
    }
  }

  lemma ForgettingPreservesValid(s: State, wire: (Faro, string) -> nat)
    requires Valid(s, wire)
    ensures Valid(s.(context := None), wire)
  {
    hide Isolated, Conserved, Tallied, RecountedOnce, Charged, Timely;
  }

  /** The body of a batch is cancelled, and the batch discharged, having been counted again or not. */
  lemma DischargingPreservesValid(s: State, resolved: bool, wire: (Faro, string) -> nat)
    requires Valid(s, wire) && s.drain.Cancelling?
    ensures Valid(Discharged(if resolved then s else CountedAgain(s, s.drain.batch), s.drain.batch).(drain := Off),
                  wire)
  {
    hide Isolated, Delivered, Timely;
  }

  lemma DrainPreservesValid(s: State, step: Step, wire: (Faro, string) -> nat)
    requires Valid(s, wire)
    requires step.BatchArrives? || step.BodyCancelled? || step.Flush?
    ensures Valid(Next(s, step, wire), wire)
  {
    hide Valid, Proceed, Answered, Bytes;
    match step
    case Flush =>
      if s.drain.Off? {
        assert s.(drain := Off) == s;
        ProceedPreservesValid(s, s.generation, false, wire);
      }
    case BatchArrives(answer) =>
      if s.drain.Sending? {
        var Sending(epoch, expired, batch) := s.drain;
        if answer.BatchFailed? {
          var lost := Settling(Lost(s, batch)).(failed := s.failed + 1);
          LosingPreservesValid(s, s.failed + 1, wire);
          DischargingPreservesValid(lost, true, wire);
          var discharged := Discharged(Lost(s, batch).(failed := s.failed + 1), batch);
          assert discharged.(drain := Off) == Discharged(lost, batch).(drain := Off);
          ProceedPreservesValid(discharged, epoch, expired, wire);
        } else {
          AnsweredPreservesValid(s, answer, wire);
          AnsweringKeepsDrain(s, answer);
        }
      }
    case BodyCancelled(resolved) =>
      if s.drain.Cancelling? {
        var Cancelling(epoch, expired, batch) := s.drain;
        DischargingPreservesValid(s, resolved, wire);
        ProceedPreservesValid(Discharged(if resolved then s else CountedAgain(s, batch), batch), epoch, expired, wire);
      }
  }

  lemma AnsweringKeepsDrain(s: State, answer: BatchAnswer)
    requires s.drain.Sending?
    ensures Answered(s, s.drain.epoch, s.drain.batch, answer).drain == s.drain
  {
  }

  lemma EnqueuePreservesValid(s: State, payload: Faro, count: nat, bytes: nat, discarded: nat,
                              wire: (Faro, string) -> nat)
    requires Valid(s, wire)
    ensures Valid(Enqueued(s, payload, count, bytes, discarded), wire)
  {
    RefusingPreservesValid(s, 1, wire);
    RefusingPreservesValid(s, discarded, wire);
    RefusingPreservesValid(Refused(s, discarded), 1, wire);
    if s.context.Some? && count > 0 && bytes <= EVENT_BYTES && bytes + s.queuedBytes <= BUFFERED_BYTES {
      AcceptingPreservesValid(Refused(s, discarded), payload, bytes, wire);
    }
    hide Valid;
  }

  lemma AcceptingPreservesValid(s: State, payload: Faro, bytes: nat, wire: (Faro, string) -> nat)
    requires Valid(s, wire) && bytes + s.queuedBytes <= BUFFERED_BYTES
    ensures var item := Item(payload, bytes, s.generation);
            Valid(s.(queue := s.queue + [item], queuedBytes := s.queuedBytes + bytes,
                     ledger := s.ledger.Accept(item)), wire)
  {
    hide Isolated, Delivered, Timely;
    var item := Item(payload, bytes, s.generation);
    BytesAppend(s.queue, [item]);
    assert Bytes([item]) == bytes;
    assert Conserved(s.ledger.Accept(item), s.queue + [item], Uncounted(s.drain));
    assert OfEpoch(s.queue + [item], s.generation);
    hide Conserved, RecountedOnce, Tallied, Bytes;
  }

  lemma RefusingPreservesValid(s: State, n: nat, wire: (Faro, string) -> nat)
    requires Valid(s, wire)
    ensures Valid(Refused(s, n), wire)
  {
    hide Isolated, Delivered, Timely, Charged;
  }

  lemma ContextPreservesValid(s: State, reset: nat, answer: ContextAnswer, wire: (Faro, string) -> nat)
    requires Valid(s, wire)
    ensures Valid(Next(s, ContextArrives(reset, answer), wire), wire)
  {
    hide Isolated, Conserved, Tallied, RecountedOnce, Charged, Timely, Bytes, Fitting, Proceed, Answered, Enqueued;
  }

  lemma NextPreservesValid(s: State, step: Step, wire: (Faro, string) -> nat)
    requires Valid(s, wire)
    ensures Valid(Next(s, step, wire), wire)
  {
    match step
    case Enqueue(payload, count, bytes, discarded) => EnqueuePreservesValid(s, payload, count, bytes, discarded, wire);
    case Drop => RefusingPreservesValid(s, 1, wire);
    case Clear => ClearedPreservesValid(s, wire);
    case Reset => ResetPreservesValid(s, wire);
    case ContextArrives(reset, answer) => ContextPreservesValid(s, reset, answer, wire);
    case Flush => DrainPreservesValid(s, step, wire);
    case BatchArrives(_) => DrainPreservesValid(s, step, wire);
    case BodyCancelled(_) => DrainPreservesValid(s, step, wire);
    case _ =>
      hide Isolated, Conserved, Tallied, RecountedOnce, Charged, Timely, Bytes, Fitting, Proceed, Answered, Enqueued;
  }

  /** Byte accounting, record accounting and epoch isolation hold at every await of every interleaving. */
  lemma {:induction false} RunPreservesValid(s: State, steps: seq<Step>, wire: (Faro, string) -> nat)
    requires Valid(s, wire)
    ensures Valid(Run(s, steps, wire), wire)
    decreases |steps|
  {
    if steps != [] {
      NextPreservesValid(s, steps[0], wire);
      RunPreservesValid(Next(s, steps[0], wire), steps[1..], wire);
    }
  }

  // What each step is

  lemma EnqueueIs(s: State, payload: Faro, count: nat, bytes: nat, discarded: nat, wire: (Faro, string) -> nat)
    ensures Next(s, Enqueue(payload, count, bytes, discarded), wire) == Enqueued(s, payload, count, bytes, discarded)
  {
  }

  lemma FlushIs(s: State, wire: (Faro, string) -> nat)
    requires s.drain.Off?
    ensures Next(s, Flush, wire) == Proceed(s, s.generation, false, wire)
  {
  }

  lemma AnswerIs(s: State, answer: BatchAnswer, wire: (Faro, string) -> nat)
    requires s.drain.Sending?
    ensures Next(s, BatchArrives(answer), wire) ==
            if answer.BatchFailed?
            then Proceed(Discharged(Lost(s, s.drain.batch).(failed := s.failed + 1), s.drain.batch), s.drain.epoch,
                         s.drain.expired, wire)
            else Settling(Answered(s, s.drain.epoch, s.drain.batch, answer))
    ensures Answered(s, s.drain.epoch, s.drain.batch, answer).drain == s.drain
  {
    hide Proceed, Bytes;
  }

  lemma CancellationIs(s: State, resolved: bool, wire: (Faro, string) -> nat)
    requires s.drain.Cancelling?
    ensures Next(s, BodyCancelled(resolved), wire) ==
            Proceed(Discharged(if resolved then s else CountedAgain(s, s.drain.batch), s.drain.batch), s.drain.epoch,
                    s.drain.expired, wire)
  {
    hide Proceed, Bytes;
  }

  /** A step keeps the invariant if it held. */
  lemma NextPreservesValidIf(s: State, step: Step, wire: (Faro, string) -> nat)
    ensures Valid(s, wire) ==> Valid(Next(s, step, wire), wire)
  {
    if Valid(s, wire) {
      NextPreservesValid(s, step, wire);
    }
  }

  lemma InitiallyValid(s: State, wire: (Faro, string) -> nat)
    requires s.queue == [] && s.posts == [] && s.resets == {} && s.drain.Off? && s.context.None? && s.queuedBytes == 0
    requires s.exported == s.dropped == 0 && s.ledger == INITIAL.ledger
    ensures Valid(s, wire)
  {
  }

  // Epoch isolation, read off single steps

  /**
    A batch is in flight, at least one reset happens before its answer, and anything else may:
    then whatever the answer, the batch is counted as dropped and never as exported.
   */
  lemma LateAnswerDrops(s: State, steps: seq<Step>, answer: BatchAnswer, wire: (Faro, string) -> nat)
    requires Valid(s, wire) && s.drain.Sending?
    requires Reset in steps && forall step :: step in steps ==> !step.BatchArrives?
    ensures var late := Run(s, steps, wire);
            var after := Next(late, BatchArrives(answer), wire);
            && late.drain.Sending? && late.drain.batch == s.drain.batch
            && after.exported == late.exported && after.dropped == late.dropped + |s.drain.batch|
            && after.ledger == late.ledger.Discard(s.drain.batch)
            && after.posts == late.posts && after.queue == late.queue && after.context == late.context
  {
    FlightWaits(s, steps, wire);
    hide Run, Valid;
    OldBatchDrops(Run(s, steps, wire), answer, wire);
  }

  lemma OldBatchDrops(s: State, answer: BatchAnswer, wire: (Faro, string) -> nat)
    requires s.drain.Sending? && s.drain.epoch < s.generation
    ensures var after := Next(s, BatchArrives(answer), wire);
            && after.exported == s.exported && after.dropped == s.dropped + |s.drain.batch|
            && after.ledger == s.ledger.Discard(s.drain.batch)
            && after.posts == s.posts && after.queue == s.queue && after.context == s.context
  {
    hide Fitting, Bytes;
  }

  /** Until its answer comes a batch stays in flight, and a reset leaves it behind. */
  lemma {:induction false} FlightWaits(s: State, steps: seq<Step>, wire: (Faro, string) -> nat)
    requires s.drain.Sending? && s.drain.epoch <= s.generation
    requires forall step :: step in steps ==> !step.BatchArrives?
    ensures var late := Run(s, steps, wire);
            && late.drain.Sending? && late.drain.batch == s.drain.batch
               && late.drain.epoch == s.drain.epoch <= s.generation <= late.generation
            && (Reset in steps ==> s.generation < late.generation)
    decreases |steps|
  {
    hide Next;
    if steps != [] {
      StepWaits(s, steps[0], wire);
      FlightWaits(Next(s, steps[0], wire), steps[1..], wire);
    }
  }

  lemma StepWaits(s: State, step: Step, wire: (Faro, string) -> nat)
    requires s.drain.Sending? && !step.BatchArrives?
    ensures var next := Next(s, step, wire);
            && next.drain.Sending? && next.drain.batch == s.drain.batch && next.drain.epoch == s.drain.epoch
            && next.generation == s.generation + if step.Reset? then 1 else 0
  {
    hide Fitting, Proceed, Bytes;
  }

  /** Only the answer to a batch of the current generation adds to what was exported, and it adds that batch. */
  lemma ExportsAreCurrent(s: State, step: Step, wire: (Faro, string) -> nat)
    ensures Next(s, step, wire).exported != s.exported ==>
      && step == BatchArrives(Accepted) && s.drain.Sending? && s.drain.epoch == s.generation
      && Next(s, step, wire).exported == s.exported + |s.drain.batch|
  {
    hide Fitting;
  }

  /**
    A reset starts a new generation: nothing queued and no context survive it, and an older reset's
    context comes too late.
   */
  lemma ResetsSeparate(s: State, steps: seq<Step>, reset: nat, answer: ContextAnswer, wire: (Faro, string) -> nat)
    requires reset < s.generation
    ensures Next(s, Reset, wire).queue == [] && Next(s, Reset, wire).context.None?
            && Next(s, Reset, wire).generation == s.generation + 1
    ensures Next(Run(s, steps, wire), ContextArrives(reset, answer), wire).context == Run(s, steps, wire).context
  {
    hide Next;
    GenerationsGrow(s, steps, wire);
    OldContextIgnored(Run(s, steps, wire), reset, answer, wire);
    ResetClears(s, wire);
  }

  lemma OldContextIgnored(s: State, reset: nat, answer: ContextAnswer, wire: (Faro, string) -> nat)
    requires reset < s.generation
    ensures Next(s, ContextArrives(reset, answer), wire).context == s.context
  {
  }

  lemma ResetClears(s: State, wire: (Faro, string) -> nat)
    ensures Next(s, Reset, wire).queue == [] && Next(s, Reset, wire).context.None?
            && Next(s, Reset, wire).generation == s.generation + 1
  {
  }

  lemma {:induction false} GenerationsGrow(s: State, steps: seq<Step>, wire: (Faro, string) -> nat)
    ensures Run(s, steps, wire).generation >= s.generation
    decreases |steps|
  {
    hide Next;
    if steps != [] {
      GenerationGrows(s, steps[0], wire);
      GenerationsGrow(Next(s, steps[0], wire), steps[1..], wire);
    }
  }

  lemma GenerationGrows(s: State, step: Step, wire: (Faro, string) -> nat)
    ensures Next(s, step, wire).generation >= s.generation
  {
    hide Fitting, Bytes;
  }

  // What an answer does

  /** The answer is to a batch in flight of the current generation. */
  predicate AnswersNow(s: State, step: Step, answer: BatchAnswer) {
    step == BatchArrives(answer) && s.drain.Sending? && s.drain.epoch == s.generation
  }

  /**
    The context has changed, says the relay: there is none any more, nothing is queued, and the batch
    and everything that was queued are dropped.
   */
  lemma ChangedForgets(s: State, wire: (Faro, string) -> nat)
    requires AnswersNow(s, BatchArrives(Changed), Changed)
    ensures var n := Next(s, BatchArrives(Changed), wire);
            && n.context.None? && n.queue == []
            && n.dropped == s.dropped + |s.drain.batch| + |s.queue|
            && n.ledger.discarded == s.ledger.discarded + multiset(s.queue) + multiset(s.drain.batch)
            && n.exported == s.exported && n.failed == s.failed && n.posts == s.posts
            && n.generation == s.generation && n.resets == s.resets
            && n.drain == Cancelling(s.drain.epoch, s.drain.expired, s.drain.batch)
  {
    hide Fitting, Bytes, Proceed, Enqueued;
  }

  /**
    Nothing is queued under no context, and a context request for a later generation than this has
    not been answered with one.
   */
  ghost predicate Silent(s: State, g: nat) {
    s.context.None? && s.queue == [] && g <= s.generation && g !in s.resets
  }

  /** The relay has answered a reset begun after generation `g` with a context. */
  predicate Obtains(step: Step, g: nat) {
    step.ContextArrives? && step.reset > g && step.contextAnswer.Responded? && step.contextAnswer.ok
      && step.contextAnswer.context.Some?
  }

  /** Whatever else happens, nothing is posted and no context held until a reset begun later has obtained one. */
  lemma {:induction false} SilentUntilObtained(s: State, steps: seq<Step>, g: nat, wire: (Faro, string) -> nat)
    requires Silent(s, g) && forall step :: step in steps ==> !Obtains(step, g)
    ensures Run(s, steps, wire).posts == s.posts && Silent(Run(s, steps, wire), g)
    decreases |steps|
  {
    hide Next;
    if steps != [] {
      StaysSilent(s, steps[0], g, wire);
      SilentUntilObtained(Next(s, steps[0], wire), steps[1..], g, wire);
    }
  }

  lemma StaysSilent(s: State, step: Step, g: nat, wire: (Faro, string) -> nat)
    requires Silent(s, g) && !Obtains(step, g)
    ensures Next(s, step, wire).posts == s.posts && Silent(Next(s, step, wire), g)
  {
    hide Fitting, Bytes;
  }

  /** So after such an answer nothing is posted until a successful answer to a later reset. */
  lemma ChangedSilences(s: State, steps: seq<Step>, wire: (Faro, string) -> nat)
    requires Valid(s, wire) && AnswersNow(s, BatchArrives(Changed), Changed) && s.context.Some?
    requires forall step :: step in steps ==> !Obtains(step, s.generation)
    ensures var late := Run(Next(s, BatchArrives(Changed), wire), steps, wire);
            late.posts == s.posts && late.context.None? && late.queue == []
  {
    ChangedForgets(s, wire);
    hide Isolated, Conserved, Tallied, RecountedOnce, Charged, Timely, Next, Run;
    SilentUntilObtained(Next(s, BatchArrives(Changed), wire), steps, s.generation, wire);
  }

  /** And if no reset and no expiry comes first, the drain begins a reset when it resumes. */
  lemma ChangedResets(s: State, steps: seq<Step>, resolved: bool, wire: (Faro, string) -> nat)
    requires Valid(s, wire) && AnswersNow(s, BatchArrives(Changed), Changed) && s.context.Some? && !s.drain.expired
    requires forall step :: step in steps ==> !step.Reset? && !step.Expire? && !step.BodyCancelled?
    ensures var late := Run(Next(s, BatchArrives(Changed), wire), steps, wire);
            var n := Next(late, BodyCancelled(resolved), wire);
            && late.drain == Cancelling(s.drain.epoch, false, s.drain.batch) && late.generation == s.generation
            && n.generation == s.generation + 1 && n.drain == Resetting(s.generation + 1)
               && s.generation + 1 in n.resets
            && n.posts == s.posts && n.context.None?
  {
    ChangedForgets(s, wire);
    var forgot := Next(s, BatchArrives(Changed), wire);
    assert Silent(forgot, s.generation);
    hide Valid, Next, Run;
    CancellationWaits(forgot, steps, s.generation, wire);
    ResumesSilent(Run(forgot, steps, wire), resolved, wire);
  }

  lemma {:induction false} CancellationWaits(s: State, steps: seq<Step>, g: nat, wire: (Faro, string) -> nat)
    requires Silent(s, g) && g == s.generation && s.drain.Cancelling? && s.drain.epoch == g
             && (forall r :: r in s.resets ==> r <= g)
    requires forall step :: step in steps ==> !step.Reset? && !step.Expire? && !step.BodyCancelled?
    ensures var late := Run(s, steps, wire);
            Silent(late, g) && late.generation == g && late.drain == s.drain && late.posts == s.posts
    decreases |steps|
  {
    hide Next;
    if steps != [] {
      StepWaitsCancelling(s, steps[0], g, wire);
      CancellationWaits(Next(s, steps[0], wire), steps[1..], g, wire);
    }
  }

  lemma StepWaitsCancelling(s: State, step: Step, g: nat, wire: (Faro, string) -> nat)
    requires Silent(s, g) && g == s.generation && s.drain.Cancelling? && (forall r :: r in s.resets ==> r <= g)
    requires !step.Reset? && !step.Expire? && !step.BodyCancelled?
    ensures var n := Next(s, step, wire);
            && Silent(n, g) && n.generation == g && n.drain == s.drain && n.posts == s.posts
            && forall r :: r in n.resets ==> r <= g
  {
    hide Fitting, Bytes, Proceed;
  }

  lemma ResumesSilent(s: State, resolved: bool, wire: (Faro, string) -> nat)
    requires s.context.None? && s.drain.Cancelling? && s.drain.epoch == s.generation && !s.drain.expired
    ensures var n := Next(s, BodyCancelled(resolved), wire);
            && n.generation == s.generation + 1 && n.drain == Resetting(s.generation + 1)
               && s.generation + 1 in n.resets
            && n.posts == s.posts && n.context.None?
  {
    hide Fitting, Bytes;
  }

  /**
    Records are exported by an accepting answer to a batch of the current generation and by nothing
    else; any other status and a failed request drop the batch and are one failed request.
   */
  lemma AnswersExactly(s: State, step: Step, wire: (Faro, string) -> nat)
    ensures AnswersNow(s, step, Accepted) ==>
      var n := Next(s, step, wire);
      && n.exported == s.exported + |s.drain.batch| && n.dropped == s.dropped && n.failed == s.failed
      && n.queue == s.queue && n.context == s.context
    ensures AnswersNow(s, step, Rejected) ==>
      var n := Next(s, step, wire);
      && n.exported == s.exported && n.dropped == s.dropped + |s.drain.batch| && n.failed == s.failed + 1
      && n.queue == s.queue && n.context == s.context
    ensures step == BatchArrives(BatchFailed) && s.drain.Sending? ==>
      var n := Next(s, step, wire);
      n.exported == s.exported && n.dropped >= s.dropped + |s.drain.batch| && n.failed == s.failed + 1
    ensures !AnswersNow(s, step, Accepted) ==> Next(s, step, wire).exported == s.exported
    ensures step.BatchArrives? && !step.batchAnswer.BatchFailed? && s.drain.Sending?
            && s.drain.epoch != s.generation ==>
      Next(s, step, wire).failed == s.failed
  {
    hide Fitting, Bytes;
  }

  /** The records in batches accepted in their own generation. */
  function Exports(s: State, steps: seq<Step>, wire: (Faro, string) -> nat): nat
    decreases |steps|
  {
    if steps == [] then 0
    else
      var count := if AnswersNow(s, steps[0], Accepted) then |s.drain.batch| else 0;
      count + Exports(Next(s, steps[0], wire), steps[1..], wire)
  }

  /** What failed: a context request, a batch refused or not answered, and a cancellation that is rejected. */
  function Failures(s: State, steps: seq<Step>, wire: (Faro, string) -> nat): nat
    decreases |steps|
  {
    if steps == [] then 0
    else (if Fails(s, steps[0]) then 1 else 0) + Failures(Next(s, steps[0], wire), steps[1..], wire)
  }

  predicate Fails(s: State, step: Step) {
    || (step.ContextArrives? && step.reset in s.resets && step.contextAnswer.ContextFailed?)
    || AnswersNow(s, step, Rejected)
    || (step == BatchArrives(BatchFailed) && s.drain.Sending?)
    || (step == BodyCancelled(false) && s.drain.Cancelling?)
  }

  /** Over any run the counters of exported records and of failed requests are just these. */
  lemma {:induction false} CountsExactly(s: State, steps: seq<Step>, wire: (Faro, string) -> nat)
    ensures Run(s, steps, wire).exported == s.exported + Exports(s, steps, wire)
    ensures Run(s, steps, wire).failed == s.failed + Failures(s, steps, wire)
    decreases |steps|
  {
    hide Next;
    if steps != [] {
      AnswersExactly(s, steps[0], wire);
      FailsExactly(s, steps[0], wire);
      CountsExactly(Next(s, steps[0], wire), steps[1..], wire);
    }
  }

  lemma FailsExactly(s: State, step: Step, wire: (Faro, string) -> nat)
    ensures Next(s, step, wire).failed == s.failed + if Fails(s, step) then 1 else 0
  {
    hide Fitting, Bytes;
  }

  // What is queued, held and posted

  /**
    A record is queued exactly under a context, if the sanitizer leaves anything of it, it is at most
    8192 bytes, and what is queued and in flight leaves room for it within 262144.
   */
  lemma EnqueuedExactly(s: State, payload: Faro, count: nat, bytes: nat, discarded: nat, wire: (Faro, string) -> nat)
    requires Valid(s, wire)
    ensures var n, held :=
      Next(s, Enqueue(payload, count, bytes, discarded), wire), Bytes(s.queue) + Bytes(Held(s.drain));
            && n.exported == s.exported && n.failed == s.failed && n.context == s.context && n.drain == s.drain
            && if s.context.Some? && count > 0 && bytes <= 8192 && bytes + held <= 262_144
               then n.queue == s.queue + [Item(payload, bytes, s.generation)] && n.dropped == s.dropped + discarded
               else n.queue == s.queue
                    && n.dropped == s.dropped + if s.context.None? then 1
                                                else if count == 0 then discarded else discarded + 1
  {
    hide Isolated, Conserved, Tallied, RecountedOnce, Timely, Bytes;
  }

  /**
    A context is taken exactly from a successful answer of at most 256 characters to the latest
    reset, if it is still waited for.
   */
  lemma ContextExactly(s: State, reset: nat, answer: ContextAnswer, wire: (Faro, string) -> nat)
    ensures var n := Next(s, ContextArrives(reset, answer), wire);
            && n.queue == s.queue && n.posts == s.posts && n.exported == s.exported && n.dropped == s.dropped
            && n.generation == s.generation && reset !in n.resets
            && n.context == if reset in s.resets && reset == s.generation && answer.Responded? && answer.ok
                               && answer.context.Some? && |answer.context.value| <= 256
                            then Some(Context(answer.context.value, reset)) else s.context
  {
    hide Fitting, Bytes, Proceed, Answered, Enqueued;
  }

  /** A request within the limits: at most 256 records of each kind and 49152 bytes. */
  ghost predicate Within(payload: Faro, context: string, wire: (Faro, string) -> nat) {
    && |payload.logs| <= 256 && |payload.exceptions| <= 256 && |payload.events| <= 256
    && |payload.measurements| <= 256 && |payload.spans| <= 256 && wire(payload, context) <= 49_152
  }

  lemma WithinExactly(payload: Faro, context: string, wire: (Faro, string) -> nat)
    ensures Within(payload, context, wire) <==> !TooLarge(payload, context, wire)
  {
  }

  /** All records of one kind in a batch, in order. */
  function Gathered(items: seq<Item>, kind: Faro -> seq<nat>): seq<nat> {
    if items == [] then [] else kind(items[0].payload) + Gathered(items[1..], kind)
  }

  /** A request carries every record of every kind of its batch, in order. */
  lemma {:induction false} MergedExactly(batch: Faro, items: seq<Item>)
    ensures MergeAll(batch, items)
         == Faro(batch.logs + Gathered(items, (f: Faro) => f.logs),
                 batch.exceptions + Gathered(items, (f: Faro) => f.exceptions),
                 batch.measurements + Gathered(items, (f: Faro) => f.measurements), batch.events
                   + Gathered(items, (f: Faro) => f.events),
                 batch.spans + Gathered(items, (f: Faro) => f.spans))
    decreases |items|
  {
    if items != [] {
      MergedExactly(Merge(batch, items[0].payload), items[1..]);
      Regroup(batch.logs, items, (f: Faro) => f.logs);
      Regroup(batch.exceptions, items, (f: Faro) => f.exceptions);
      Regroup(batch.measurements, items, (f: Faro) => f.measurements);
      Regroup(batch.events, items, (f: Faro) => f.events);
      Regroup(batch.spans, items, (f: Faro) => f.spans);
    }
  }

  lemma Regroup(front: seq<nat>, items: seq<Item>, kind: Faro -> seq<nat>)
    requires items != []
    ensures front + kind(items[0].payload) + Gathered(items[1..], kind) == front + Gathered(items, kind)
  {
  }

  /**
    What a flush begins with nothing in flight: a request with the front of the queue if the head fits
    one alone; a reset if there is no context; and if the head does not fit, everything is dropped.
   */
  lemma FlushExactly(s: State, wire: (Faro, string) -> nat)
    requires s.drain.Off?
    ensures var n := Next(s, Flush, wire);
            if s.context.None? then
              n.drain == Resetting(s.generation + 1) && n.generation == s.generation + 1 && n.posts == s.posts
              && n.queue == [] && n.dropped == s.dropped + |s.queue|
            else if s.queue == [] then n == s.(drain := Finishing)
            else if Within(Merge(NOTHING, s.queue[0].payload), s.context.value.value, wire) then
              && n.drain.Sending? && n.drain.batch != [] && n.drain.batch + n.queue == s.queue
              && n.drain.epoch == s.generation && n.dropped == s.dropped && n.context == s.context
              && n.posts == s.posts + [Post(n.drain.batch, s.context.value)]
            else n.drain == Finishing && n.queue == [] && n.dropped == s.dropped + |s.queue| && n.posts == s.posts
  {
    hide Bytes, TooLarge, Merge, Within, Next;
    FlushIs(s, wire);
    if s.context.Some? && s.queue != [] {
      WithinExactly(Merge(NOTHING, s.queue[0].payload), s.context.value.value, wire);
      FitsAlone(s.queue, s.context.value.value, wire);
    }
    hide Fitting;
  }

  lemma FitsAlone(queue: seq<Item>, context: string, wire: (Faro, string) -> nat)
    requires queue != []
    ensures Fitting(queue, NOTHING, context, wire) > 0 <==> !TooLarge(Merge(NOTHING, queue[0].payload), context, wire)
  {
    hide TooLarge, Merge;
  }

  /** A drain whose time is up drops what is queued; one that a reset has overtaken leaves it alone. */
  lemma ResumedExactly(s: State, wire: (Faro, string) -> nat)
    requires s.drain.Cancelling?
    ensures var n := Next(s, BodyCancelled(true), wire);
            && (s.drain.epoch != s.generation ==>
                  n.drain == Finishing && n.queue == s.queue && n.dropped == s.dropped && n.context == s.context
                    && n.posts == s.posts)
            && (s.drain.epoch == s.generation && s.drain.expired ==>
                  n.drain == Finishing && n.queue == [] && n.dropped == s.dropped + |s.queue|
                    && n.context == s.context && n.posts == s.posts)
  {
    hide Fitting, Bytes;
  }

  // Double counting and progress

  /** No body cancellation of an answered batch fails. */
  ghost predicate CancelsResolve(s: State, steps: seq<Step>, wire: (Faro, string) -> nat)
    decreases |steps|
  {
    steps != [] ==>
      !(steps[0] == BodyCancelled(false) && s.drain.Cancelling?)
        && CancelsResolve(Next(s, steps[0], wire), steps[1..], wire)
  }

  /**
    The counters account for every record, accepted or refused, exactly as long as every body
    cancellation resolves.
   */
  lemma CountedOnceExactly(s: State, steps: seq<Step>, wire: (Faro, string) -> nat)
    requires Valid(s, wire) && s.ledger.recounted == multiset{}
    ensures Balanced(Run(s, steps, wire)) <==> CancelsResolve(s, steps, wire)
  {
    RunPreservesValid(s, steps, wire);
    RecountedExactly(s, steps, wire);
    hide Valid, Run, CancelsResolve, Balanced;
    BalancedUnlessRecounted(Run(s, steps, wire), wire);
  }

  /** What the counters show too much is what was counted again. */
  lemma BalancedUnlessRecounted(s: State, wire: (Faro, string) -> nat)
    requires Valid(s, wire)
    ensures s.exported + s.dropped + |s.queue| + |Uncounted(s.drain)| ==
      |s.ledger.accepted| + s.ledger.refused + |s.ledger.recounted|
  {
    hide Isolated, Timely, Current, RecountedOnce, Charged, Delivered;
    var exported, dropped := Delivered(s.ledger.deliveries), s.ledger.discarded;
    assert |s.ledger.accepted| == |exported| + |dropped| + |s.queue| + |Uncounted(s.drain)|;
  }

  lemma {:induction false} RecountedExactly(s: State, steps: seq<Step>, wire: (Faro, string) -> nat)
    requires Valid(s, wire)
    ensures |Run(s, steps, wire).ledger.recounted| >= |s.ledger.recounted|
    ensures |Run(s, steps, wire).ledger.recounted| == |s.ledger.recounted| <==> CancelsResolve(s, steps, wire)
    decreases |steps|
  {
    if steps != [] {
      assert s.drain.Cancelling? ==> s.drain.batch != [];
      NextPreservesValid(s, steps[0], wire);
      RecountedBy(s, steps[0], wire);
      hide Next, Valid;
      RecountedExactly(Next(s, steps[0], wire), steps[1..], wire);
    }
  }

  lemma RecountedBy(s: State, step: Step, wire: (Faro, string) -> nat)
    ensures |Next(s, step, wire).ledger.recounted|
         == |s.ledger.recounted| + if step == BodyCancelled(false) && s.drain.Cancelling? then |s.drain.batch| else 0
  {
    hide Proceed, Bytes, Enqueued, Answered;
    match step
    case Enqueue(payload, count, bytes, discarded) => EnqueuedRecountsNone(s, payload, count, bytes, discarded);
    case Flush => ProceedRecountsNone(s, s.generation, false, wire);
    case BatchArrives(answer) =>
      if s.drain.Sending? {
        AnsweredRecountsNone(s, answer);
        ProceedRecountsNone(Discharged(Lost(s, s.drain.batch).(failed := s.failed + 1), s.drain.batch), s.drain.epoch,
                            s.drain.expired, wire);
      }
    case BodyCancelled(resolved) =>
      if s.drain.Cancelling? {
        var counted := if resolved then s else CountedAgain(s, s.drain.batch);
        ProceedRecountsNone(Discharged(counted, s.drain.batch), s.drain.epoch, s.drain.expired, wire);
      }
    case _ =>
  }

  lemma EnqueuedRecountsNone(s: State, payload: Faro, count: nat, bytes: nat, discarded: nat)
    ensures Enqueued(s, payload, count, bytes, discarded).ledger.recounted == s.ledger.recounted
  {
  }

  lemma AnsweredRecountsNone(s: State, answer: BatchAnswer)
    requires s.drain.Sending?
    ensures Answered(s, s.drain.epoch, s.drain.batch, answer).ledger.recounted == s.ledger.recounted
  {
  }

  lemma ProceedRecountsNone(s: State, epoch: nat, expired: bool, wire: (Faro, string) -> nat)
    ensures Proceed(s, epoch, expired, wire).ledger.recounted == s.ledger.recounted
  {
    hide Fitting, Bytes;
  }

  /** One record, exported, whose response body cannot be cancelled: it is counted as exported and as dropped. */
  lemma RejectedCancelCountsTwice(payload: Faro, context: string)
    requires |payload.logs| <= EVENTS && |payload.exceptions| <= EVENTS && |payload.events| <= EVENTS
    requires |payload.measurements| <= EVENTS && |payload.spans| <= EVENTS && |context| <= EVENTS
    ensures var wire := (_, _) => 100;
            var steps := [Reset, ContextArrives(1, Responded(true, Some(context))), Enqueue(payload, 1, 100, 0), Flush,
                          BatchArrives(Accepted), BodyCancelled(false)];
            var s := Run(INITIAL, steps, wire);
            && s.exported == 1 && s.dropped == 1 && s.queue == [] && s.drain == Finishing
            && |s.ledger.accepted| == 1 && s.ledger.refused == 0 && !Balanced(s)
  {
    var wire := (_, _) => 100;
    var steps := [Reset, ContextArrives(1, Responded(true, Some(context))), Enqueue(payload, 1, 100, 0), Flush,
                  BatchArrives(Accepted), BodyCancelled(false)];
    var item := Item(payload, 100, 1);
    var obtained := INITIAL.(generation := 1, context := Some(Context(context, 1)));
    var queued := obtained.(queue := [item], queuedBytes := 100, ledger := INITIAL.ledger.Accept(item));
    var sent := queued.(queue := [], drain := Sending(1, false, [item]), posts := [Post([item], Context(context, 1))]);
    ContextObtained(context, wire);
    assert Next(obtained, steps[2], wire) == queued;
    OneSent(queued, item, Context(context, 1), wire);
    OneCounted(sent, item, wire);
    hide Next;
    SixSteps(INITIAL, steps, wire);
  }

  lemma ContextObtained(context: string, wire: (Faro, string) -> nat)
    requires |context| <= EVENTS
    ensures Next(Next(INITIAL, Reset, wire), ContextArrives(1, Responded(true, Some(context))), wire)
         == INITIAL.(generation := 1, context := Some(Context(context, 1)))
  {
    assert INITIAL.ledger.Discard([]) == INITIAL.ledger;
    assert {1} - {1} == {};
  }

  lemma OneSent(s: State, item: Item, context: Context, wire: (Faro, string) -> nat)
    requires s.queue == [item] && s.context == Some(context) && s.drain.Off? && s.posts == []
    requires !TooLarge(Merge(NOTHING, item.payload), context.value, wire)
    ensures Next(s, Flush, wire) ==
      s.(queue := [], drain := Sending(s.generation, false, [item]), posts := [Post([item], context)])
  {
    hide TooLarge;
    assert s.queue[1..] == [] && s.queue[..1] == [item] && s.posts + [Post([item], context)] == [Post([item], context)];
    assert Fitting(s.queue, NOTHING, context.value, wire) ==
      1 + Fitting(s.queue[1..], Merge(NOTHING, item.payload), context.value, wire) == 1;
    hide Fitting;
    PostIs(s, s.generation, wire);
  }

  lemma OneCounted(s: State, item: Item, wire: (Faro, string) -> nat)
    requires s.queue == [] && s.context.Some? && s.drain == Sending(s.generation, false, [item])
    ensures var answered := Next(s, BatchArrives(Accepted), wire);
            Next(answered, BodyCancelled(false), wire) ==
            Discharged(CountedAgain(Answered(s, s.generation, [item], Accepted), [item]), [item]).(drain := Finishing)
  {
    hide Fitting, Bytes;
  }

  lemma SixSteps(s: State, steps: seq<Step>, wire: (Faro, string) -> nat)
    requires |steps| == 6
    ensures Run(s, steps, wire)
         == Next(Next(Next(Next(Next(Next(s, steps[0], wire), steps[1], wire), steps[2], wire),
                                steps[3], wire), steps[4], wire), steps[5], wire)
  {
    hide Next;
    ThreeSteps(s, steps, wire);
    var third := Next(Next(Next(s, steps[0], wire), steps[1], wire), steps[2], wire);
    ThreeSteps(third, steps[3..], wire);
    assert steps[3..][3..] == [];
  }

  lemma ThreeSteps(s: State, steps: seq<Step>, wire: (Faro, string) -> nat)
    requires |steps| >= 3
    ensures Run(s, steps, wire) ==
      Run(Next(Next(Next(s, steps[0], wire), steps[1], wire), steps[2], wire), steps[3..], wire)
  {
    hide Next;
    var first := Next(s, steps[0], wire);
    assert steps[1..][1..] == steps[2..] && steps[2..][1..] == steps[3..];
    assert Run(s, steps, wire) == Run(first, steps[1..], wire) == Run(Next(first, steps[1], wire), steps[2..], wire);
  }

  /**
    Each turn of the drain's loop takes a non-empty front of the queue, as long as the next record
    still fits, or ends the loop.
   */
  lemma ProceedTakesMaximalFront(s: State, epoch: nat, expired: bool, wire: (Faro, string) -> nat)
    ensures var after := Proceed(s, epoch, expired, wire);
            after.drain.Sending? ==>
              && after.drain.batch != [] && s.queue == after.drain.batch + after.queue
              && s.context.Some? && after.posts == s.posts + [Post(after.drain.batch, s.context.value)]
              && (after.queue != [] ==>
                    TooLarge(Merge(MergeAll(NOTHING, after.drain.batch), after.queue[0].payload),
                             s.context.value.value, wire))
  {
    hide TooLarge, MergeAll, Fitting;
    if !(s.queue == [] || s.context.None? || expired || epoch != s.generation) {
      FittingFits(s.queue, NOTHING, s.context.value.value, wire);
    }
  }
}
