/** The exporter object: each lock region as a method, proved to be the atomic step it stands for. */
module TelemetryExporter {
  import opened OtlpBatch
  import opened IndependentTelemetry

  class TelemetryExporter {
    var queue: seq<Envelope>
    var queuedBytes: int
    var exported: nat
    var dropped: nat
    var failed: nat
    var stopping: bool

    // Where the flusher is, and the ledger.
    ghost var flight: Flight
    ghost var ledger: Ledger

    ghost function View(): State
      reads this
    {
      State(queue, queuedBytes, exported, dropped, failed, stopping, flight, ledger)
    }

    /** A step keeps the invariant if it held. */
    static lemma NextPreservesValidIf(s: State, step: Step)
      ensures Valid(s) ==> Valid(Next(s, step))
    {
      if Valid(s) {
        NextPreservesValid(s, step);
      }
    }

    constructor ()
      ensures View() == INITIAL && Valid(View())
    {
      queue, queuedBytes, exported, dropped, failed, stopping := [], 0, 0, 0, 0, false;
      flight, ledger := Idle, INITIAL.ledger;
      new;
      IdleAndEmptyIsValid(View());
    }

    method Enqueue(signal: string, bytes: seq<Byte>)
      modifies this
      ensures View() == Next(old(View()), Offer(Envelope(signal, bytes)))
      ensures Valid(old(View())) ==> Valid(View())
    {
      hide Valid, Next;
      var envelope := Envelope(signal, bytes);
      NextPreservesValidIf(View(), Offer(envelope));
      OfferIs(View(), envelope);
      ledger := ledger.Offer(envelope);
      if stopping || |bytes| + 65 > REQUEST_BYTES || queuedBytes + |bytes| + 64 > BUFFER_BYTES {
        dropped := dropped + 1;
        ledger := ledger.Discard([envelope]);
      } else {
        queue := queue + [envelope];
        queuedBytes := queuedBytes + |bytes| + 64;
      }
    }

    method ReportCaptureFailure()
      modifies this
      ensures View() == Next(old(View()), ReportFailure)
      ensures Valid(old(View())) ==> Valid(View())
    {
      hide Valid;
      NextPreservesValidIf(View(), ReportFailure);
      ledger := ledger.Report();
      dropped := dropped + 1;
    }

    /**
      The first region of a flush iteration: every record is dequeued once and either joins the
      batch or goes to the back.
     */
    method TakeBatch() returns (batch: seq<Envelope>)
      requires flight.Held? && queue != []
      modifies this
      ensures View() == Next(old(View()), Take)
      ensures Valid(old(View())) ==> Valid(View())
      ensures batch == Batch(old(queue))
    {
      hide Valid, Next, Taken, Left;
      NextPreservesValidIf(View(), Take);
      TakeIs(View());
      batch := [];
      var size: nat := FRAME_BYTES;
      var signal := queue[0].signal;
      var pending := |queue|;
      ghost var before, rest, behind := queue, queue, [];
      for index := 0 to pending
        invariant unchanged(`queuedBytes, `exported, `dropped, `failed, `stopping, `flight, `ledger)
        invariant queue == rest + behind && |rest| == pending - index
        invariant Taken(before, signal, FRAME_BYTES) == batch + Taken(rest, signal, size)
        invariant Left(before, signal, FRAME_BYTES) == behind + Left(rest, signal, size)
      {
        TurnOnce(rest, behind, batch, signal, size);
        var next := queue[0];
        queue := queue[1..];
        rest := rest[1..];
        if next.signal == signal && size + |next.bytes| + 1 <= REQUEST_BYTES {
          batch := batch + [next];
          size := size + |next.bytes| + 1;
        } else {
          queue := queue + [next];
          behind := behind + [next];
        }
      }
      TurnedAll(rest, behind, batch, signal, size);
      flight := if batch == [] then Rejecting else Sending(batch);
    }

    /** One turn of the rotation: the head joins the batch or goes behind everything else. */
    static lemma TurnOnce(rest: seq<Envelope>, behind: seq<Envelope>, batch: seq<Envelope>, signal: string, size: nat)
      requires rest != []
      ensures (rest + behind)[0] == rest[0] && (rest + behind)[1..] == rest[1..] + behind
      ensures Joins(rest[0], signal, size) ==>
        && batch + Taken(rest, signal, size) == batch + [rest[0]] + Taken(rest[1..], signal, size + |rest[0].bytes| + 1)
        && Left(rest, signal, size) == Left(rest[1..], signal, size + |rest[0].bytes| + 1)
      ensures !Joins(rest[0], signal, size) ==>
        && Taken(rest, signal, size) == Taken(rest[1..], signal, size)
        && behind + Left(rest, signal, size) == behind + [rest[0]] + Left(rest[1..], signal, size)
        && rest[1..] + behind + [rest[0]] == rest[1..] + (behind + [rest[0]])
    {
    }

    static lemma TurnedAll(rest: seq<Envelope>, behind: seq<Envelope>, batch: seq<Envelope>, signal: string, size: nat)
      requires rest == []
      ensures rest + behind == behind == behind + Left(rest, signal, size)
      ensures batch + Taken(rest, signal, size) == batch
    {
    }

    method RejectHead()
      requires flight.Rejecting? && queue != []
      modifies this
      ensures View() == Next(old(View()), Step.RejectHead)
      ensures Valid(old(View())) ==> Valid(View())
    {
      hide Valid;
      NextPreservesValidIf(View(), Step.RejectHead);
      var rejected := queue[0];
      queue := queue[1..];
      queuedBytes := queuedBytes - |rejected.bytes| - 64;
      dropped := dropped + 1;
      ledger := ledger.Discard([rejected]);
      flight := Flight.Held;
    }

    method CountAnswer(batch: seq<Envelope>, success: bool)
      requires flight == Sending(batch)
      modifies this
      ensures View() == Next(old(View()), Respond(if success then Success else Failure))
      ensures success ==> exported == old(exported) + |batch| && dropped == old(dropped) && failed == old(failed)
      ensures !success ==> exported == old(exported) && dropped == old(dropped) + |batch| && failed == old(failed) + 1
      ensures Valid(old(View())) ==> Valid(View())
    {
      hide Valid, Next;
      NextPreservesValidIf(View(), Respond(if success then Success else Failure));
      RespondIs(View(), if success then Success else Failure);
      if success {
        exported := exported + |batch|;
        ledger := ledger.Deliver(batch);
      } else {
        failed := failed + 1;
        dropped := dropped + |batch|;
        ledger := ledger.Discard(batch);
      }
      flight := Counted(batch);
    }

    method CountFailure(batch: seq<Envelope>)
      requires flight == Sending(batch)
      modifies this
      ensures View() == Next(old(View()), Respond(Refused))
      ensures exported == old(exported) && dropped == old(dropped) + |batch| && failed == old(failed) + 1
      ensures Valid(old(View())) ==> Valid(View())
    {
      hide Valid, Next;
      NextPreservesValidIf(View(), Respond(Refused));
      RespondIs(View(), Refused);
      failed := failed + 1;
      dropped := dropped + |batch|;
      ledger := ledger.Discard(batch);
      flight := Counted(batch);
    }

    /** The bytes a batch is held for. */
    static method HeldBytes(batch: seq<Envelope>) returns (held: nat)
      ensures held == Charges(batch)
    {
      held := 0;
      for i := 0 to |batch|
        invariant Charges(batch) == held + Charges(batch[i..])
      {
        held := held + |batch[i].bytes| + 64;
      }
    }

    method ReleaseBytes(batch: seq<Envelope>)
      requires flight == Counted(batch)
      modifies this
      ensures View() == Next(old(View()), Uncharge)
      ensures Valid(old(View())) ==> Valid(View())
    {
      hide Valid;
      NextPreservesValidIf(View(), Uncharge);
      var held := HeldBytes(batch);
      queuedBytes := queuedBytes - held;
      flight := Flight.Held;
    }

    method FinishFlush(expired: bool)
      requires flight.Held?
      modifies this
      ensures View() == Next(old(View()), Release(expired))
      ensures Valid(old(View())) ==> Valid(View())
    {
      hide Valid, Next;
      NextPreservesValidIf(View(), Release(expired));
      ReleaseIs(View(), expired);
      if expired {
        dropped := dropped + |queue|;
        ledger := ledger.Discard(queue);
        queue := [];
        queuedBytes := 0;
      }
      flight := Idle;
    }

    method BeginStopping()
      modifies this
      ensures View() == Next(old(View()), BeginStop)
      ensures Valid(old(View())) ==> Valid(View())
    {
      hide Valid;
      NextPreservesValidIf(View(), BeginStop);
      stopping := true;
    }

    method FinishStopping()
      modifies this
      ensures View() == Next(old(View()), FinishStop)
      ensures Valid(old(View())) ==> Valid(View())
    {
      hide Valid, Next;
      NextPreservesValidIf(View(), FinishStop);
      FinishStopIs(View());
      dropped := dropped + |queue|;
      ledger := ledger.Discard(queue);
      var held := HeldBytes(queue);
      queuedBytes := queuedBytes - held;
      queue := [];
    }
  }
}
