/** Choosing one request's records from the queue, and the bytes that request puts on the wire. */
module OtlpBatch {
  newtype Byte = x: int | 0 <= x < 256

  const REQUEST_BYTES := 1024 * 1024

  /** The request's framing is charged in advance. */
  const FRAME_BYTES := 64

  datatype Envelope = Envelope(signal: string, bytes: seq<Byte>)

  // Choosing

  predicate Joins(next: Envelope, signal: string, size: nat) {
    next.signal == signal && size + |next.bytes| + 1 <= REQUEST_BYTES
  }

  /** The records of one signal that still fit, first come first served. */
  function Taken(queue: seq<Envelope>, signal: string, size: nat): seq<Envelope>
    decreases |queue|
  {
    if queue == [] then []
    else if Joins(queue[0], signal, size) then [queue[0]] + Taken(queue[1..], signal, size + |queue[0].bytes| + 1)
    else Taken(queue[1..], signal, size)
  }

  /** The records that stay, in their order. */
  function Left(queue: seq<Envelope>, signal: string, size: nat): seq<Envelope>
    decreases |queue|
  {
    if queue == [] then []
    else if Joins(queue[0], signal, size) then Left(queue[1..], signal, size + |queue[0].bytes| + 1)
    else [queue[0]] + Left(queue[1..], signal, size)
  }

  /** The size a batch is charged while it is put together. */
  function BatchSize(batch: seq<Envelope>): (size: nat)
    ensures size >= FRAME_BYTES
  {
    if batch == [] then FRAME_BYTES else |batch[0].bytes| + 1 + BatchSize(batch[1..])
  }

  function Charges(records: seq<Envelope>): nat {
    if records == [] then 0 else |records[0].bytes| + 64 + Charges(records[1..])
  }

  lemma {:induction false} ChargesAppend(left: seq<Envelope>, right: seq<Envelope>)
    ensures Charges(left + right) == Charges(left) + Charges(right)
  {
    if left == [] {
      assert left + right == right;
    } else {
      ChargesAppend(left[1..], right);
      assert (left + right)[1..] == left[1..] + right;
    }
  }

  /** Nothing is lost or copied: the batch and what stays are the queue. */
  lemma {:induction false} SplitConserves(queue: seq<Envelope>, signal: string, size: nat)
    ensures multiset(queue) == multiset(Taken(queue, signal, size)) + multiset(Left(queue, signal, size))
    decreases |queue|
  {
    if queue != [] {
      var rest := if Joins(queue[0], signal, size) then size + |queue[0].bytes| + 1 else size;
      SplitConserves(queue[1..], signal, rest);
      assert queue == [queue[0]] + queue[1..];
    }
  }

  /** Nor is any byte of their charges. */
  lemma {:induction false} SplitConservesCharges(queue: seq<Envelope>, signal: string, size: nat)
    ensures |queue| == |Taken(queue, signal, size)| + |Left(queue, signal, size)|
    ensures Charges(queue) == Charges(Taken(queue, signal, size)) + Charges(Left(queue, signal, size))
    decreases |queue|
  {
    if queue != [] {
      var joins := Joins(queue[0], signal, size);
      var rest := if joins then size + |queue[0].bytes| + 1 else size;
      SplitConservesCharges(queue[1..], signal, rest);
      if joins {
        assert Taken(queue, signal, size)[1..] == Taken(queue[1..], signal, rest);
      } else {
        assert Left(queue, signal, size)[1..] == Left(queue[1..], signal, rest);
      }
    }
  }

  /**
    A batch is of one signal and within the request limit, and no record left behind of that signal
    would still fit.
   */
  lemma {:induction false} TakenIsMaximal(queue: seq<Envelope>, signal: string, size: nat)
    requires FRAME_BYTES <= size <= REQUEST_BYTES
    ensures var final := size - FRAME_BYTES + BatchSize(Taken(queue, signal, size));
            && final <= REQUEST_BYTES
            && (forall e :: e in Taken(queue, signal, size) ==> e.signal == signal)
            && (forall e :: e in Left(queue, signal, size) && e.signal == signal ==>
                 final + |e.bytes| + 1 > REQUEST_BYTES)
    decreases |queue|
  {
    if queue != [] {
      var joins := Joins(queue[0], signal, size);
      TakenIsMaximal(queue[1..], signal, if joins then size + |queue[0].bytes| + 1 else size);
      if joins {
        assert Taken(queue, signal, size)[1..] == Taken(queue[1..], signal, size + |queue[0].bytes| + 1);
      } else {
        assert Left(queue, signal, size) == [queue[0]] + Left(queue[1..], signal, size);
      }
    }
  }

  // Who leaves when

  /** Where the record at index `i` is after one batch has been taken, or nothing if the batch has it. */
  function IndexAfter(queue: seq<Envelope>, signal: string, size: nat, i: nat): (after: int)
    requires i < |queue|
    ensures after == -1 || 0 <= after <= i
    decreases |queue|
  {
    var joins := Joins(queue[0], signal, size);
    if i == 0 then (if joins then -1 else 0)
    else if joins then IndexAfter(queue[1..], signal, size + |queue[0].bytes| + 1, i - 1)
    else
      var rest := IndexAfter(queue[1..], signal, size, i - 1);
      if rest == -1 then -1 else rest + 1
  }

  /** `IndexAfter` is where the record really is, so what stays keeps its order. */
  lemma {:induction false} IndexAfterIsRight(queue: seq<Envelope>, signal: string, size: nat, i: nat)
    requires i < |queue|
    ensures var after := IndexAfter(queue, signal, size, i);
            && (after != -1 ==> after < |Left(queue, signal, size)| && Left(queue, signal, size)[after] == queue[i])
            && (after == -1 ==> queue[i] in Taken(queue, signal, size))
    ensures forall j ::
              i < j < |queue| && IndexAfter(queue, signal, size, i) != -1 && IndexAfter(queue, signal, size, j) != -1
              ==> IndexAfter(queue, signal, size, i) < IndexAfter(queue, signal, size, j)
    decreases |queue|
  {
    var joins := Joins(queue[0], signal, size);
    var rest := if joins then size + |queue[0].bytes| + 1 else size;
    if i > 0 {
      IndexAfterIsRight(queue[1..], signal, rest, i - 1);
      forall j | i < j < |queue| && IndexAfter(queue, signal, size, i) != -1 && IndexAfter(queue, signal, size, j) != -1
        ensures IndexAfter(queue, signal, size, i) < IndexAfter(queue, signal, size, j)
      {
        assert IndexAfter(queue[1..], signal, rest, i - 1) < IndexAfter(queue[1..], signal, rest, j - 1);
      }
    }
  }

  ghost predicate Admissible(queue: seq<Envelope>) {
    forall e :: e in queue ==> |e.bytes| + 65 <= REQUEST_BYTES
  }

  /** The batch an iteration takes and the queue it leaves: the head decides the signal. */
  function Batch(queue: seq<Envelope>): seq<Envelope>
    requires queue != []
  {
    Taken(queue, queue[0].signal, FRAME_BYTES)
  }

  function Remainder(queue: seq<Envelope>): seq<Envelope>
    requires queue != []
  {
    Left(queue, queue[0].signal, FRAME_BYTES)
  }

  /** An admitted head always leaves, so a batch is never empty. */
  lemma HeadLeaves(queue: seq<Envelope>)
    requires queue != [] && Admissible(queue)
    ensures Batch(queue) != [] && Batch(queue)[0] == queue[0] && |Remainder(queue)| < |queue|
    ensures forall e :: e in Batch(queue) || e in Remainder(queue) ==> e in queue
    ensures Admissible(Remainder(queue))
  {
    assert queue[0] in queue;
    SplitConserves(queue, queue[0].signal, FRAME_BYTES);
    SplitConservesCharges(queue, queue[0].signal, FRAME_BYTES);
    forall e | e in Batch(queue) || e in Remainder(queue) ensures e in queue {
      assert e in multiset(Batch(queue)) + multiset(Remainder(queue));
    }
  }

  /** Where a record is after the iterations with the given arrivals behind each of them. */
  function IndexAfterAll(queue: seq<Envelope>, arrivals: seq<seq<Envelope>>, i: nat): int
    requires i < |queue|
    decreases |arrivals|
  {
    if arrivals == [] then i
    else
      var after := IndexAfter(queue, queue[0].signal, FRAME_BYTES, i);
      if after == -1 then -1
      else
        IndexAfterIsRight(queue, queue[0].signal, FRAME_BYTES, i);
        IndexAfterAll(Remainder(queue) + arrivals[0], arrivals[1..], after)
  }

  /** No starvation: the record at index `i` leaves within `i + 1` iterations, whatever else arrives meanwhile. */
  lemma {:induction false} LeavesInTime(queue: seq<Envelope>, arrivals: seq<seq<Envelope>>, i: nat)
    requires i < |queue| && i < |arrivals|
    requires Admissible(queue) && forall k :: 0 <= k < |arrivals| ==> Admissible(arrivals[k])
    ensures IndexAfterAll(queue, arrivals, i) == -1
    decreases |arrivals|
  {
    var after := IndexAfter(queue, queue[0].signal, FRAME_BYTES, i);
    assert queue[0] in queue;
    if after != -1 {
      IndexAfterIsRight(queue, queue[0].signal, FRAME_BYTES, i);
      HeadLeaves(queue);
      assert after < i;
      var next := Remainder(queue) + arrivals[0];
      assert Admissible(arrivals[0]);
      LeavesInTime(next, arrivals[1..], after);
    }
  }

  // The wire

  function Ascii(text: string): (bytes: seq<Byte>)
    requires forall i :: 0 <= i < |text| ==> text[i] < 128 as char
    ensures |bytes| == |text|
  {
    seq(|text|, i requires 0 <= i < |text| => text[i] as int as Byte)
  }

  function Prefix(signal: string): seq<Byte> {
    Ascii(if signal == "logs" then "{\"resourceLogs\":["
          else if signal == "traces" then "{\"resourceSpans\":["
          else "{\"resourceMetrics\":[")
  }

  const SUFFIX: seq<Byte> := Ascii("]}")
  const SEPARATOR: seq<Byte> := Ascii(",")

  /** Records separated by commas. */
  function Separated(records: seq<seq<Byte>>): seq<Byte> {
    if records == [] then []
    else if |records| == 1 then records[0]
    else Separated(records[..|records| - 1]) + SEPARATOR + records[|records| - 1]
  }

  function Wire(signal: string, records: seq<seq<Byte>>): seq<Byte> {
    Prefix(signal) + Separated(records) + SUFFIX
  }

  function Payloads(batch: seq<Envelope>): seq<seq<Byte>> {
    seq(|batch|, i requires 0 <= i < |batch| => batch[i].bytes)
  }

  function Lengths(records: seq<seq<Byte>>): nat {
    if records == [] then 0 else Lengths(records[..|records| - 1]) + |records[|records| - 1]|
  }

  /** The announced length is the number of bytes written. */
  method ComputeLength(signal: string, records: seq<seq<Byte>>) returns (length: nat)
    ensures length == |Wire(signal, records)|
  {
    var sum := 0;
    for i := 0 to |records|
      invariant sum == Lengths(records[..i])
    {
      assert records[..i + 1][..i] == records[..i];
      sum := sum + |records[i]|;
    }
    assert records[..|records|] == records;
    SeparatedLength(records);
    length := |Prefix(signal)| + |SUFFIX| + sum + (if |records| > 1 then |records| - 1 else 0);
  }

  method Serialize(signal: string, records: seq<seq<Byte>>) returns (stream: seq<Byte>)
    ensures stream == Wire(signal, records)
  {
    stream := Prefix(signal);
    for index := 0 to |records|
      invariant stream == Prefix(signal) + Separated(records[..index])
    {
      if index > 0 {
        stream := stream + SEPARATOR;
      }
      stream := stream + records[index];
      assert records[..index + 1][..index] == records[..index];
    }
    assert records[..|records|] == records;
    stream := stream + SUFFIX;
  }

  /** Two records of a signal as they are written; with one there is no comma. */
  lemma WireExactly(first: seq<Byte>, second: seq<Byte>)
    ensures Wire("logs", [first, second]) == Ascii("{\"resourceLogs\":[") + first + Ascii(",") + second + Ascii("]}")
    ensures Wire("traces", [first]) == Ascii("{\"resourceSpans\":[") + first + Ascii("]}")
    ensures Wire("metrics", [first]) == Ascii("{\"resourceMetrics\":[") + first + Ascii("]}")
  {
    hide Ascii;
    var both := [first, second];
    assert both[..1] == [first] && Separated([first]) == first;
    assert Separated(both) == Separated(both[..1]) + SEPARATOR + second;
    hide Separated;
    assert Ascii("{\"resourceLogs\":[") + (first + Ascii(",") + second) + Ascii("]}")
        == Ascii("{\"resourceLogs\":[") + first + Ascii(",") + second + Ascii("]}");
  }

  lemma {:induction false} SeparatedLength(records: seq<seq<Byte>>)
    ensures |Separated(records)| == Lengths(records) + (if |records| > 1 then |records| - 1 else 0)
    decreases |records|
  {
    if |records| > 1 {
      SeparatedLength(records[..|records| - 1]);
    } else if |records| == 1 {
      assert records[..0] == [];
    }
  }

  lemma {:induction false} PayloadLengths(batch: seq<Envelope>)
    ensures BatchSize(batch) == FRAME_BYTES + Lengths(Payloads(batch)) + |batch|
    decreases |batch|
  {
    if batch != [] {
      var n := |batch| - 1;
      PayloadLengths(batch[..n]);
      BatchSizeLast(batch);
      assert Payloads(batch)[..n] == Payloads(batch[..n]);
    }
  }

  lemma {:induction false} BatchSizeLast(batch: seq<Envelope>)
    requires batch != []
    ensures BatchSize(batch) == BatchSize(batch[..|batch| - 1]) + |batch[|batch| - 1].bytes| + 1
    decreases |batch|
  {
    if |batch| > 1 {
      BatchSizeLast(batch[1..]);
      assert batch[1..][..|batch| - 2] == batch[..|batch| - 1][1..];
    }
  }

  /** A request never exceeds 1 MiB on the wire. */
  lemma BatchFitsRequest(queue: seq<Envelope>)
    requires queue != []
    ensures |Wire(queue[0].signal, Payloads(Batch(queue)))| <= REQUEST_BYTES
  {
    var batch := Batch(queue);
    TakenIsMaximal(queue, queue[0].signal, FRAME_BYTES);
    PayloadLengths(batch);
    SeparatedLength(Payloads(batch));
    assert |Prefix(queue[0].signal)| + |SUFFIX| <= FRAME_BYTES;
  }
}
