/** The queue's closure as an object: each stretch of code between awaits as a method, proved to be its atomic step. */
module BrowserQueueObject {
  import opened Wrappers
  import opened BrowserQueue

  class BrowserQueueObject {
    var queue: seq<Item>
    var queuedBytes: int
    var exported: nat
    var dropped: nat
    var failed: nat
    var context: Option<Context>
    var generation: nat
    const wire: (Faro, string) -> nat

    // What is suspended at an await, the ledger, and the requests posted.
    ghost var resets: set<nat>
    ghost var drain: Drain
    ghost var ledger: Ledger
    ghost var posts: seq<Post>

    ghost function View(): State
      reads this
    {
      State(queue, queuedBytes, exported, dropped, failed, context, generation, resets, drain, ledger, posts)
    }

    constructor (wire: (Faro, string) -> nat)
      ensures this.wire == wire && View() == INITIAL && Valid(View(), wire)
    {
      this.wire := wire;
      queue, queuedBytes, exported, dropped, failed, context, generation := [], 0, 0, 0, 0, None, 0;
      resets, drain, ledger, posts := {}, Off, INITIAL.ledger, [];
      new;
      InitiallyValid(View(), wire);
    }

    method ClearQueue()
      modifies this
      ensures View() == Cleared(old(View()))
    {
      dropped := dropped + |queue|;
      ledger := ledger.Discard(queue);
      var items := queue;
      queue := [];
      for i := 0 to |items|
        invariant View() == old(View()).(queue := [], dropped := old(dropped) + |items|, queuedBytes := queuedBytes,
                                         ledger := old(ledger).Discard(items))
        invariant queuedBytes - Bytes(items[i..]) == old(queuedBytes) - Bytes(items)
      {
        queuedBytes := queuedBytes - items[i].bytes;
      }
    }

    method EnqueueBatch(payload: Faro, count: nat, bytes: nat, discarded: nat)
      modifies this
      ensures View() == Next(old(View()), Enqueue(payload, count, bytes, discarded), wire)
      ensures Valid(old(View()), wire) ==> Valid(View(), wire)
    {
      hide Valid, Next, Bytes, Proceed, Answered;
      NextPreservesValidIf(View(), Enqueue(payload, count, bytes, discarded), wire);
      EnqueueIs(View(), payload, count, bytes, discarded, wire);
      if context.None? {
        Refuse(1);
        return;
      }
      Refuse(discarded);
      if count == 0 {
        return;
      }
      if bytes > EVENT_BYTES || bytes + queuedBytes > BUFFERED_BYTES {
        Refuse(1);
        return;
      }
      var item := Item(payload, bytes, generation);
      queue := queue + [item];
      queuedBytes := queuedBytes + bytes;
      ledger := ledger.Accept(item);
    }

    /** Drops that are not owed to an accepted record. */
    method Refuse(n: nat)
      modifies this`dropped, this`ledger
      ensures View() == Refused(old(View()), n)
    {
      dropped := dropped + n;
      ledger := ledger.Refuse(n);
    }

    /** The synchronous front of a reset; its result is the generation it will compare with. */
    method BeginReset() returns (current: nat)
      modifies this
      ensures View() == ResetBegun(old(View())) && current == generation
    {
      generation := generation + 1;
      current := generation;
      context := None;
      resets := resets + {current};
      ClearQueue();
    }

    method EndReset(current: nat, answer: ContextAnswer)
      requires current in resets
      modifies this
      ensures View() == Next(old(View()), ContextArrives(current, answer), wire)
      ensures Valid(old(View()), wire) ==> Valid(View(), wire)
    {
      hide Valid, Bytes, Proceed, Answered, Enqueued;
      NextPreservesValidIf(View(), ContextArrives(current, answer), wire);
      resets := resets - {current};
      drain := if drain == Resetting(current) then Finishing else drain;
      match answer {
        case ContextFailed =>
          failed := failed + 1;
        case Responded(ok, value) =>
          if ok && value.Some? && |value.value| <= EVENTS && generation == current {
            context := Some(Context(value.value, current));
          }
      }
    }

    /** The inner loop: shift records off the queue while the request they make together stays within the limits. */
    method Assemble(context: string) returns (batch: seq<Item>)
      modifies this`queue
      ensures var n := Fitting(old(queue), NOTHING, context, wire);
              batch == old(queue)[..n] && queue == old(queue)[n..]
    {
      hide TooLarge, Merge;
      batch := [];
      var merged := NOTHING;
      while queue != []
        invariant old(queue) == batch + queue
        invariant Fitting(old(queue), NOTHING, context, wire) == |batch| + Fitting(queue, merged, context, wire)
        decreases |queue|
      {
        var candidate := Merge(merged, queue[0].payload);
        if TooLarge(candidate, context, wire) {
          break;
        }
        batch := batch + [queue[0]];
        queue := queue[1..];
        merged := candidate;
      }
    }

    /** From the head of the drain's loop to its next await. */
    method Resume(epoch: nat, expired: bool)
      modifies this
      ensures View() == Proceed(old(View()), epoch, expired, wire)
    {
      hide Fitting, Bytes;
      if queue != [] && context.Some? && !expired && epoch == generation {
        var batch := Assemble(context.value.value);
        if batch != [] {
          drain := Sending(epoch, expired, batch);
          posts := posts + [Post(batch, context.value)];
          return;
        }
        ClearQueue();
      }
      if epoch != generation {
        drain := Finishing;
      } else if expired {
        ClearQueue();
        drain := Finishing;
      } else if context.None? {
        var current := BeginReset();
        drain := Resetting(current);
      } else {
        drain := Finishing;
      }
    }

    method BeginFlush()
      requires drain.Off?
      modifies this
      ensures View() == Next(old(View()), Flush, wire)
      ensures Valid(old(View()), wire) ==> Valid(View(), wire)
    {
      hide Valid, Next, Proceed;
      NextPreservesValidIf(View(), Flush, wire);
      FlushIs(View(), wire);
      Resume(generation, false);
    }

    /** The response to a batch has arrived; the drain goes on to cancel its body. */
    method TakeAnswer(epoch: nat, expired: bool, batch: seq<Item>, answer: BatchAnswer)
      requires drain == Sending(epoch, expired, batch) && !answer.BatchFailed?
      modifies this
      ensures View() == Next(old(View()), BatchArrives(answer), wire)
      ensures Valid(old(View()), wire) ==> Valid(View(), wire)
    {
      hide Valid, Next, Bytes, Proceed, Answered;
      NextPreservesValidIf(View(), BatchArrives(answer), wire);
      AnswerIs(View(), answer, wire);
      CountAnswer(epoch, batch, answer);
      drain := Cancelling(epoch, expired, batch);
    }

    /** The counters take an answer. */
    method CountAnswer(epoch: nat, batch: seq<Item>, answer: BatchAnswer)
      modifies this
      ensures View() == Answered(old(View()), epoch, batch, answer)
      ensures epoch == generation && answer.Changed? ==>
        context.None? && queue == [] && dropped == old(dropped) + |old(queue)| + |batch|
      ensures epoch == generation && answer.Accepted? ==> exported == old(exported) + |batch| && dropped == old(dropped)
      ensures epoch != generation || !answer.Accepted? ==> exported == old(exported)
    {
      hide Bytes;
      if epoch != generation {
        Lose(batch);
      } else if answer.Changed? {
        context := None;
        ClearQueue();
        Lose(batch);
      } else if answer.Accepted? {
        exported := exported + |batch|;
        ledger := ledger.Deliver(batch, generation);
      } else {
        failed := failed + 1;
        Lose(batch);
      }
    }

    method Lose(batch: seq<Item>)
      modifies this`dropped, this`ledger
      ensures View() == Lost(old(View()), batch)
    {
      dropped := dropped + |batch|;
      ledger := ledger.Discard(batch);
    }

    /** The request failed before any response. */
    method TakeFailure(epoch: nat, expired: bool, batch: seq<Item>)
      requires drain == Sending(epoch, expired, batch)
      modifies this
      ensures View() == Next(old(View()), BatchArrives(BatchFailed), wire)
      ensures Valid(old(View()), wire) ==> Valid(View(), wire)
    {
      hide Valid, Next, Proceed, Answered, Bytes;
      NextPreservesValidIf(View(), BatchArrives(BatchFailed), wire);
      AnswerIs(View(), BatchFailed, wire);
      failed := failed + 1;
      Lose(batch);
      Discharge(batch);
      Resume(epoch, expired);
    }

    /** The body's cancellation has settled; a rejection is caught by the handler that counts failed requests. */
    method TakeCancellation(epoch: nat, expired: bool, batch: seq<Item>, resolved: bool)
      requires drain == Cancelling(epoch, expired, batch)
      modifies this
      ensures View() == Next(old(View()), BodyCancelled(resolved), wire)
      ensures Valid(old(View()), wire) ==> Valid(View(), wire)
    {
      hide Valid, Next, Proceed, Answered, Bytes;
      NextPreservesValidIf(View(), BodyCancelled(resolved), wire);
      CancellationIs(View(), resolved, wire);
      if !resolved {
        failed := failed + 1;
        dropped := dropped + |batch|;
        ledger := ledger.Recount(batch);
      }
      Discharge(batch);
      Resume(epoch, expired);
    }

    method Discharge(batch: seq<Item>)
      modifies this`queuedBytes
      ensures queuedBytes == old(queuedBytes) - Bytes(batch)
    {
      var held := 0;
      for i := 0 to |batch|
        invariant Bytes(batch) == held + Bytes(batch[i..])
      {
        held := held + batch[i].bytes;
      }
      queuedBytes := queuedBytes - held;
    }
  }
}
