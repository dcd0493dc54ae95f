/**
  The browser logger: a bounded buffer, batches split until they fit a request, and a count of what
  was dropped that is itself reported.
 */
module Logger {
  import opened Wrappers

  /** A recorded event, or the report a flush puts ahead of a batch. */
  datatype LogEvent = Recorded(text: string) | DropReport(count: nat)

  datatype Options = Options(maxBufferedEvents: nat, flushAtEvents: int, transportBackoffMs: int, maxBodyBytes: int)

  /** The UTF-8 length of a batch's JSON. */
  type Measure = seq<LogEvent> -> nat

  // Splitting one batch

  /** A body that is posted, or an event that alone exceeds the cap. */
  datatype Piece = Body(events: seq<LogEvent>) | Oversized(events: seq<LogEvent>)

  function Pieces(events: seq<LogEvent>, o: Options, bytes: Measure): seq<Piece>
    decreases |events|
  {
    if bytes(events) <= o.maxBodyBytes then [Body(events)]
    else if |events| <= 1 then [Oversized(events)]
    else Pieces(events[..|events| / 2], o, bytes) + Pieces(events[|events| / 2..], o, bytes)
  }

  function Flatten(pieces: seq<Piece>): seq<LogEvent> {
    if pieces == [] then [] else pieces[0].events + Flatten(pieces[1..])
  }

  lemma {:induction false} FlattenAppend(a: seq<Piece>, b: seq<Piece>)
    ensures Flatten(a + b) == Flatten(a) + Flatten(b)
  {
    hide Flatten;
    if a == [] {
      FlattenNone();
      assert a + b == b;
    } else {
      FlattenAppend(a[1..], b);
      assert (a + b)[1..] == a[1..] + b;
      FlattenFirst(a);
      FlattenFirst(a + b);
      assert a[0].events + Flatten(a[1..]) + Flatten(b) == a[0].events + (Flatten(a[1..]) + Flatten(b));
    }
  }

  lemma FlattenNone()
    ensures Flatten([]) == []
  {
  }

  lemma FlattenFirst(pieces: seq<Piece>)
    requires pieces != []
    ensures Flatten(pieces) == pieces[0].events + Flatten(pieces[1..])
  {
  }

  /** The pieces, in order, are the batch. */
  lemma {:induction false} PiecesAreTheBatch(events: seq<LogEvent>, o: Options, bytes: Measure)
    ensures Flatten(Pieces(events, o, bytes)) == events
    decreases |events|
  {
    hide Flatten;
    if bytes(events) > o.maxBodyBytes && |events| > 1 {
      var first, second := events[..|events| / 2], events[|events| / 2..];
      PiecesOfHalves(events, o, bytes);
      PiecesAreTheBatch(first, o, bytes);
      PiecesAreTheBatch(second, o, bytes);
      hide Pieces;
      FlattenAppend(Pieces(first, o, bytes), Pieces(second, o, bytes));
      assert first + second == events;
    } else {
      var pieces := Pieces(events, o, bytes);
      assert |pieces| == 1 && pieces[0].events == events && pieces[1..] == [];
      FlattenFirst(pieces);
      FlattenNone();
    }
  }

  /**
    Bodies are within the cap; what is dropped is a single event beyond it; no piece of a batch
    with events is empty.
   */
  lemma {:induction false} PiecesFit(events: seq<LogEvent>, o: Options, bytes: Measure, p: Piece)
    requires p in Pieces(events, o, bytes)
    ensures if p.Body? then bytes(p.events) <= o.maxBodyBytes else bytes(p.events) > o.maxBodyBytes && |p.events| <= 1
    ensures events != [] ==> p.events != []
    decreases |events|
  {
    if bytes(events) > o.maxBodyBytes && |events| > 1 {
      var first, second := events[..|events| / 2], events[|events| / 2..];
      if p in Pieces(first, o, bytes) {
        PiecesFit(first, o, bytes, p);
      } else {
        PiecesFit(second, o, bytes, p);
      }
    }
  }

  lemma SendOversized(events: seq<LogEvent>, answers: nat -> bool, calls: nat)
    ensures Send([Oversized(events)], answers, calls) == Sent([], |events|, calls, true)
  {
    assert [Oversized(events)][1..] == [];
  }

  lemma SendBody(events: seq<LogEvent>, answers: nat -> bool, calls: nat)
    ensures Send([Body(events)], answers, calls) == Sent([events], 0, calls + 1, answers(calls))
  {
    assert [Body(events)][1..] == [];
    assert Send([], answers, calls + 1).posted == [];
  }

  lemma PiecesOfHalves(events: seq<LogEvent>, o: Options, bytes: Measure)
    requires bytes(events) > o.maxBodyBytes && |events| > 1
    ensures Pieces(events, o, bytes) ==
      Pieces(events[..|events| / 2], o, bytes) + Pieces(events[|events| / 2..], o, bytes)
  {
  }

  /**
    What came of sending pieces: the bodies posted, the events dropped as oversized, the requests
    made so far, and whether all were answered.
   */
  datatype Sent = Sent(posted: seq<seq<LogEvent>>, oversized: nat, calls: nat, ok: bool)

  /** Pieces are sent in order until a request fails; `answers` says how the n-th request ends. */
  function Send(pieces: seq<Piece>, answers: nat -> bool, calls: nat): Sent
    decreases |pieces|
  {
    if pieces == [] then Sent([], 0, calls, true)
    else match pieces[0]
      case Oversized(events) =>
        var rest := Send(pieces[1..], answers, calls);
        rest.(oversized := rest.oversized + |events|)
      case Body(events) =>
        if !answers(calls) then Sent([events], 0, calls + 1, false)
        else
          var rest := Send(pieces[1..], answers, calls + 1);
          rest.(posted := [events] + rest.posted)
  }

  function Bodies(pieces: seq<Piece>): seq<seq<LogEvent>> {
    if pieces == [] then [] else (if pieces[0].Body? then [pieces[0].events] else []) + Bodies(pieces[1..])
  }

  /** How many pieces are settled before the sending ends, a failed one included. */
  function Settled(pieces: seq<Piece>, answers: nat -> bool, calls: nat): (k: nat)
    ensures k <= |pieces|
    decreases |pieces|
  {
    if pieces == [] then 0
    else if pieces[0].Body? && !answers(calls) then 1
    else 1 + Settled(pieces[1..], answers, if pieces[0].Body? then calls + 1 else calls)
  }

  /** What is posted is the bodies of a front of the pieces: all of them, or up to the one whose request failed. */
  lemma {:induction false} SentIsPrefix(pieces: seq<Piece>, answers: nat -> bool, calls: nat)
    ensures var k := Settled(pieces, answers, calls);
            var sent := Send(pieces, answers, calls);
            && sent.posted == Bodies(pieces[..k]) && sent.calls == calls + |sent.posted|
            && (sent.ok ==> k == |pieces|)
            && (!sent.ok ==> k > 0 && pieces[k - 1].Body?)
    decreases |pieces|
  {
    var k := Settled(pieces, answers, calls);
    if pieces == [] {
      assert pieces[..0] == [];
    } else if pieces[0].Body? && !answers(calls) {
      assert pieces[..1] == [pieces[0]];
      assert Bodies([pieces[0]]) == [pieces[0].events] + Bodies([]);
    } else {
      var next := if pieces[0].Body? then calls + 1 else calls;
      SentIsPrefix(pieces[1..], answers, next);
      assert pieces[..k][1..] == pieces[1..][..k - 1];
      assert k > 1 ==> pieces[1..][k - 2] == pieces[k - 1];
    }
  }

  /** Every request is answered except the last one of a sending that fails. */
  lemma {:induction false} OnlyTheLastFails(pieces: seq<Piece>, answers: nat -> bool, calls: nat, n: nat)
    requires calls <= n < Send(pieces, answers, calls).calls
    ensures answers(n) <==> Send(pieces, answers, calls).ok || n < Send(pieces, answers, calls).calls - 1
    decreases |pieces|
  {
    var next := if pieces[0].Body? then calls + 1 else calls;
    if pieces[0].Oversized? || answers(calls) {
      if next <= n {
        OnlyTheLastFails(pieces[1..], answers, next, n);
      } else {
        CallsGrow(pieces[1..], answers, next);
      }
    }
  }

  lemma {:induction false} CallsGrow(pieces: seq<Piece>, answers: nat -> bool, calls: nat)
    ensures Send(pieces, answers, calls).calls >= calls
    ensures !Send(pieces, answers, calls).ok ==> Send(pieces, answers, calls).calls > calls
    decreases |pieces|
  {
    if pieces != [] {
      CallsGrow(pieces[1..], answers, if pieces[0].Body? then calls + 1 else calls);
    }
  }

  /** The events settled are a prefix of the batch. */
  lemma SettledIsPrefix(events: seq<LogEvent>, o: Options, bytes: Measure, answers: nat -> bool, calls: nat)
    ensures var pieces := Pieces(events, o, bytes);
            Flatten(pieces[..Settled(pieces, answers, calls)]) <= events
  {
    var pieces := Pieces(events, o, bytes);
    var k := Settled(pieces, answers, calls);
    PiecesAreTheBatch(events, o, bytes);
    FlattenAppend(pieces[..k], pieces[k..]);
    assert pieces[..k] + pieces[k..] == pieces;
  }

  lemma {:induction false} SendAppend(a: seq<Piece>, b: seq<Piece>, answers: nat -> bool, calls: nat)
    ensures var first := Send(a, answers, calls);
            var second := Send(b, answers, first.calls);
            Send(a + b, answers, calls) ==
            if first.ok then Sent(first.posted + second.posted, first.oversized + second.oversized, second.calls,
                                  second.ok) else first
    decreases |a|
  {
    if a == [] {
      assert a + b == b;
      assert [] + Send(b, answers, calls).posted == Send(b, answers, calls).posted;
    } else {
      assert (a + b)[1..] == a[1..] + b;
      SendAppend(a[1..], b, answers, if a[0].Body? then calls + 1 else calls);
    }
  }

  // Any number of flushes at once

  /**
    A flush: the batch it drained, the batches it has still to post, in order, and a ledger of it:
    how many pieces it has settled, the bodies it has posted, and whether a request of it failed.
   */
  datatype Flight = Flight(drained: seq<LogEvent>, rest: seq<seq<LogEvent>>, settled: nat, posted: seq<seq<LogEvent>>,
                           failed: bool)

  /** Every event there ever was, in order, and where those no longer buffered or in flight went. */
  datatype Ledger = Ledger(
    created: seq<LogEvent>, shifted: multiset<LogEvent>, oversized: multiset<LogEvent>,
    delivered: multiset<LogEvent>, failed: multiset<LogEvent>, handedOver: multiset<LogEvent>)
  {
    function Create(event: LogEvent): Ledger { this.(created := created + [event]) }
    function Shift(events: seq<LogEvent>): Ledger { this.(shifted := shifted + multiset(events)) }
    function Oversize(events: seq<LogEvent>): Ledger { this.(oversized := oversized + multiset(events)) }
    function Deliver(events: seq<LogEvent>): Ledger { this.(delivered := delivered + multiset(events)) }
    function Fail(events: multiset<LogEvent>): Ledger { this.(failed := failed + events) }
    function HandOver(events: seq<LogEvent>): Ledger { this.(handedOver := handedOver + multiset(events)) }
    function Elsewhere(): multiset<LogEvent> { delivered + failed + shifted + oversized + handedOver }
  }

  /** The logger's core, the flushes, and the ledger. */
  datatype State = State(buffer: seq<LogEvent>, dropped: nat, disabledUntil: int, flights: seq<Flight>, ledger: Ledger)

  const INITIAL := State([], 0, 0, [], Ledger([], multiset{}, multiset{}, multiset{}, multiset{}, multiset{}))

  datatype Step =
    | Record(text: string, now: int)
    | Flush(now: int)
    | Beacon(now: int)
    | Work(flight: nat, answered: bool, now: int)

  predicate Idle(s: State, now: int) {
    (s.buffer == [] && s.dropped == 0) || now < s.disabledUntil
  }

  /** What a flush takes: the buffer behind a report of what was dropped since the last one. */
  function Drained(s: State): seq<LogEvent> {
    if s.dropped == 0 then s.buffer else [DropReport(s.dropped)] + s.buffer
  }

  function AfterDrain(s: State): State {
    s.(buffer := [], dropped := 0,
       ledger := if s.dropped == 0 then s.ledger else s.ledger.Create(DropReport(s.dropped)))
  }

  function Launched(drained: seq<LogEvent>): Flight {
    Flight(drained, [drained], 0, [], false)
  }

  function FlushBegun(s: State, now: int): State {
    if Idle(s, now) then s
    else var drained := AfterDrain(s); drained.(flights := s.flights + [Launched(Drained(s))])
  }

  /** Dropping the oldest events until the buffer is within its ceiling. */
  function Trimmed(s: State, o: Options): State {
    var n := if |s.buffer| > o.maxBufferedEvents then |s.buffer| - o.maxBufferedEvents else 0;
    s.(buffer := s.buffer[n..], dropped := s.dropped + n, ledger := s.ledger.Shift(s.buffer[..n]))
  }

  function AfterRecord(s: State, o: Options, text: string): State {
    Trimmed(s.(buffer := s.buffer + [Recorded(text)], ledger := s.ledger.Create(Recorded(text))), o)
  }

  function All(batches: seq<seq<LogEvent>>): multiset<LogEvent> {
    if batches == [] then multiset{} else multiset(batches[0]) + All(batches[1..])
  }

  /** What one step makes of a flight that has a batch to post. */
  function Worked(flight: Flight, answered: bool, o: Options, bytes: Measure): Flight
    requires flight.rest != []
  {
    var batch, rest := flight.rest[0], flight.rest[1..];
    if bytes(batch) <= o.maxBodyBytes then
      Flight(flight.drained, if answered then rest else [], flight.settled + 1, flight.posted + [batch], !answered)
    else if |batch| <= 1 then flight.(rest := rest, settled := flight.settled + 1)
    else flight.(rest := [batch[..|batch| / 2], batch[|batch| / 2..]] + rest)
  }

  /** How the ledger takes that step. */
  function Entered(ledger: Ledger, flight: Flight, answered: bool, o: Options, bytes: Measure): Ledger
    requires flight.rest != []
  {
    var batch := flight.rest[0];
    if bytes(batch) <= o.maxBodyBytes then (if answered then ledger.Deliver(batch) else ledger.Fail(All(flight.rest)))
    else if |batch| <= 1 then ledger.Oversize(batch)
    else ledger
  }

  function Next(s: State, step: Step, o: Options, bytes: Measure): State {
    match step
    case Record(text, now) =>
      var recorded := AfterRecord(s, o, text);
      if |recorded.buffer| >= o.flushAtEvents then FlushBegun(recorded, now) else recorded
    case Flush(now) => FlushBegun(s, now)
    case Beacon(now) =>
      if Idle(s, now) then s
      else var drained := AfterDrain(s); drained.(ledger := drained.ledger.HandOver(Drained(s)))
    case Work(i, answered, now) =>
      if i >= |s.flights| || s.flights[i].rest == [] then s
      else
        var batch := s.flights[i].rest[0];
        var worked := s.(flights := s.flights[i := Worked(s.flights[i], answered, o, bytes)],
                         ledger := Entered(s.ledger, s.flights[i], answered, o, bytes));
        if bytes(batch) <= o.maxBodyBytes then
          if answered then worked else worked.(disabledUntil := now + o.transportBackoffMs)
        else if |batch| <= 1 then worked.(dropped := s.dropped + |batch|)
        else worked
  }

  function Run(s: State, steps: seq<Step>, o: Options, bytes: Measure): State
    decreases |steps|
  {
    if steps == [] then s else Run(Next(s, steps[0], o, bytes), steps[1..], o, bytes)
  }

  function InFlight(flights: seq<Flight>): multiset<LogEvent> {
    if flights == [] then multiset{} else All(flights[0].rest) + InFlight(flights[1..])
  }

  /** Every event is buffered, in flight, delivered, failed, shifted out, oversized, or handed to the beacon. */
  ghost predicate Conserved(ledger: Ledger, buffer: seq<LogEvent>, inFlight: multiset<LogEvent>) {
    multiset(ledger.created) == multiset(buffer) + (inFlight + ledger.Elsewhere())
  }

  /** What the drop reports among some events add up to. */
  function Reported(events: seq<LogEvent>): nat {
    if events == [] then 0
    else
      var last := events[|events| - 1];
      Reported(events[..|events| - 1]) + if last.DropReport? then last.count else 0
  }

  /** What was shifted out or oversized is what the drop reports ever made say, and what the next one will. */
  ghost predicate Counted(ledger: Ledger, dropped: nat) {
    |ledger.shifted| + |ledger.oversized| == Reported(ledger.created) + dropped
  }

  ghost predicate Valid(s: State, o: Options) {
    Conserved(s.ledger, s.buffer, InFlight(s.flights)) && Counted(s.ledger, s.dropped)
      && |s.buffer| <= o.maxBufferedEvents
  }

  lemma AddTo(a: multiset<LogEvent>, b: multiset<LogEvent>, c: multiset<LogEvent>, d: multiset<LogEvent>,
              e: multiset<LogEvent>)
    requires b + c == d + e
    ensures (a + b) + c == (a + d) + e
  {
    assert (a + b) + c == a + (b + c);
    assert (a + d) + e == a + (d + e);
  }

  /** What one flight gives up and takes on is what all of them together do. */
  lemma {:induction false} InFlightUpdate(flights: seq<Flight>, i: nat, flight: Flight)
    requires i < |flights|
    ensures InFlight(flights[i := flight]) + All(flights[i].rest) == InFlight(flights) + All(flight.rest)
  {
    hide InFlight, All;
    var updated := flights[i := flight];
    InFlightFirst(flights);
    InFlightFirst(updated);
    if i > 0 {
      InFlightUpdate(flights[1..], i - 1, flight);
      assert updated[1..] == flights[1..][i - 1 := flight];
      AddTo(All(flights[0].rest), InFlight(updated[1..]), All(flights[i].rest), InFlight(flights[1..]),
            All(flight.rest));
    } else {
      assert updated[1..] == flights[1..];
      AddTo(multiset{}, All(flight.rest) + InFlight(flights[1..]), All(flights[0].rest),
            All(flights[0].rest) + InFlight(flights[1..]), All(flight.rest));
    }
  }

  lemma InFlightFirst(flights: seq<Flight>)
    requires flights != []
    ensures InFlight(flights) == All(flights[0].rest) + InFlight(flights[1..])
  {
  }

  lemma Cancel(a: multiset<LogEvent>, b: multiset<LogEvent>, common: multiset<LogEvent>, moved: multiset<LogEvent>)
    requires a + (moved + common) == b + common
    ensures b == a + moved
  {
    forall e ensures b[e] == (a + moved)[e] {
      assert (a + (moved + common))[e] == (b + common)[e];
    }
  }

  /** Settling a flight's first batches takes exactly their events out of flight. */
  lemma Settles(flights: seq<Flight>, i: nat, worked: Flight, moved: multiset<LogEvent>)
    requires i < |flights| && All(flights[i].rest) == moved + All(worked.rest)
    ensures InFlight(flights) == InFlight(flights[i := worked]) + moved
  {
    InFlightUpdate(flights, i, worked);
    Cancel(InFlight(flights[i := worked]), InFlight(flights), All(worked.rest), moved);
  }

  lemma {:induction false} InFlightAppend(flights: seq<Flight>, flight: Flight)
    ensures InFlight(flights + [flight]) == InFlight(flights) + All(flight.rest)
  {
    if flights == [] {
      assert flights + [flight] == [flight];
      assert InFlight([flight]) == All(flight.rest) + InFlight([]);
    } else {
      InFlightAppend(flights[1..], flight);
      assert (flights + [flight])[1..] == flights[1..] + [flight];
    }
  }

  lemma ReportedAppend(events: seq<LogEvent>, event: LogEvent)
    ensures Reported(events + [event]) == Reported(events) + if event.DropReport? then event.count else 0
    ensures multiset(events + [event]) == multiset(events) + multiset{event}
  {
    assert (events + [event])[..|events|] == events;
  }

  /** Draining moves the buffer, and a report if there is one, to where they are sent from. */
  lemma DrainConserves(s: State, inFlight: multiset<LogEvent>)
    requires Conserved(s.ledger, s.buffer, inFlight) && Counted(s.ledger, s.dropped)
    ensures Conserved(AfterDrain(s).ledger, Drained(s), inFlight) && Counted(AfterDrain(s).ledger, 0)
  {
    hide Reported;
    ReportedAppend(s.ledger.created, DropReport(s.dropped));
  }

  lemma FlushPreservesValid(s: State, o: Options, now: int)
    requires Valid(s, o)
    ensures Valid(FlushBegun(s, now), o)
  {
    hide InFlight, All, Conserved, Counted, Drained;
    DrainConserves(s, InFlight(s.flights));
    InFlightAppend(s.flights, Launched(Drained(s)));
    AllOfOne(Drained(s));
    Launches(AfterDrain(s).ledger, Drained(s), InFlight(s.flights));
  }

  lemma AllOfOne(batch: seq<LogEvent>)
    ensures All([batch]) == multiset(batch)
  {
    assert All([batch]) == multiset(batch) + All([]);
  }

  lemma Launches(ledger: Ledger, drained: seq<LogEvent>, inFlight: multiset<LogEvent>)
    requires Conserved(ledger, drained, inFlight)
    ensures Conserved(ledger, [], inFlight + multiset(drained))
    ensures Conserved(ledger.HandOver(drained), [], inFlight)
  {
  }

  lemma BeaconPreservesValid(s: State, o: Options, now: int, bytes: Measure)
    requires Valid(s, o)
    ensures Valid(Next(s, Beacon(now), o, bytes), o)
  {
    DrainConserves(s, InFlight(s.flights));
    Launches(AfterDrain(s).ledger, Drained(s), InFlight(s.flights));
    assert Counted(AfterDrain(s).ledger.HandOver(Drained(s)), 0);
    hide InFlight, Conserved, Counted, Drained;
  }

  lemma RecordPreservesValid(s: State, o: Options, text: string)
    requires Valid(s, o)
    ensures Valid(AfterRecord(s, o, text), o)
  {
    var grown, inFlight := s.buffer + [Recorded(text)], InFlight(s.flights);
    var n := if |grown| > o.maxBufferedEvents then |grown| - o.maxBufferedEvents else 0;
    var created := s.ledger.Create(Recorded(text));
    hide InFlight, Reported;
    ReportedAppend(s.ledger.created, Recorded(text));
    assert Conserved(created, grown, inFlight) && Counted(created, s.dropped);
    hide Conserved, Counted;
    ShiftConserves(created, s.dropped, grown, n, inFlight);
  }

  lemma ShiftConserves(ledger: Ledger, dropped: nat, buffer: seq<LogEvent>, n: nat, inFlight: multiset<LogEvent>)
    requires Conserved(ledger, buffer, inFlight) && Counted(ledger, dropped) && n <= |buffer|
    ensures Conserved(ledger.Shift(buffer[..n]), buffer[n..], inFlight)
            && Counted(ledger.Shift(buffer[..n]), dropped + n)
  {
    hide Reported;
    assert buffer[..n] + buffer[n..] == buffer;
    assert multiset(buffer) == multiset(buffer[..n]) + multiset(buffer[n..]);
    assert |multiset(buffer[..n])| == n;
  }

  /** Moving events out of flight to another place loses none. */
  lemma MovesConserve(ledger: Ledger, after: Ledger, buffer: seq<LogEvent>, inFlight: multiset<LogEvent>,
                      moved: multiset<LogEvent>)
    requires Conserved(ledger, buffer, inFlight + moved)
    requires after.created == ledger.created && after.Elsewhere() == ledger.Elsewhere() + moved
    ensures Conserved(after, buffer, inFlight)
  {
    assert inFlight + moved + ledger.Elsewhere() == inFlight + after.Elsewhere();
  }

  lemma WorkPreservesValid(s: State, i: nat, answered: bool, now: int, o: Options, bytes: Measure)
    requires Valid(s, o)
    ensures Valid(Next(s, Work(i, answered, now), o, bytes), o)
  {
    if i < |s.flights| && s.flights[i].rest != [] {
      var flight := s.flights[i];
      var worked := Worked(flight, answered, o, bytes);
      var moved := WorkMoves(s.ledger, flight, answered, o, bytes);
      hide InFlight, All, Reported;
      Settles(s.flights, i, worked, moved);
      WorkCounts(s.ledger, s.dropped, flight, answered, o, bytes);
      MovesConserve(s.ledger, Entered(s.ledger, flight, answered, o, bytes), s.buffer,
                    InFlight(s.flights[i := worked]), moved);
      WorkIs(s, i, answered, now, o, bytes);
      hide Conserved, Counted, Next;
    }
  }

  lemma WorkIs(s: State, i: nat, answered: bool, now: int, o: Options, bytes: Measure)
    requires i < |s.flights| && s.flights[i].rest != []
    ensures var after, batch := Next(s, Work(i, answered, now), o, bytes), s.flights[i].rest[0];
            && after.buffer == s.buffer
            && after.flights == s.flights[i := Worked(s.flights[i], answered, o, bytes)]
            && after.ledger == Entered(s.ledger, s.flights[i], answered, o, bytes)
            && after.dropped == if bytes(batch) > o.maxBodyBytes && |batch| <= 1 then s.dropped + |batch| else s.dropped
  {
    hide Entered, Worked;
  }

  /** What leaves a flight enters the ledger. */
  lemma WorkMoves(ledger: Ledger, flight: Flight, answered: bool, o: Options, bytes: Measure)
    returns (moved: multiset<LogEvent>)
    requires flight.rest != []
    ensures All(flight.rest) == moved + All(Worked(flight, answered, o, bytes).rest)
    ensures var after := Entered(ledger, flight, answered, o, bytes);
            after.created == ledger.created && after.Elsewhere() == ledger.Elsewhere() + moved
  {
    var batch, rest := flight.rest[0], flight.rest[1..];
    assert All(flight.rest) == multiset(batch) + All(rest) && All([]) == multiset{};
    hide All;
    if bytes(batch) <= o.maxBodyBytes {
      moved := if answered then multiset(batch) else All(flight.rest);
    } else if |batch| <= 1 {
      moved := multiset(batch);
    } else {
      HalvesAreAll(batch, rest);
      moved := multiset{};
    }
  }

  /** What is dropped for its size is counted. */
  lemma WorkCounts(ledger: Ledger, dropped: nat, flight: Flight, answered: bool, o: Options, bytes: Measure)
    requires flight.rest != [] && Counted(ledger, dropped)
    ensures var batch := flight.rest[0];
            Counted(Entered(ledger, flight, answered, o, bytes),
                    if bytes(batch) > o.maxBodyBytes && |batch| <= 1 then dropped + |batch| else dropped)
  {
    hide Reported, All;
  }

  lemma HalvesAreAll(batch: seq<LogEvent>, rest: seq<seq<LogEvent>>)
    requires |batch| > 1
    ensures All([batch[..|batch| / 2], batch[|batch| / 2..]] + rest) == multiset(batch) + All(rest)
  {
    var first, second := batch[..|batch| / 2], batch[|batch| / 2..];
    var halves := [first, second] + rest;
    assert halves[1..] == [second] + rest && halves[1..][1..] == rest;
    assert first + second == batch;
    assert multiset(batch) == multiset(first) + multiset(second);
    assert All(halves) == multiset(first) + (multiset(second) + All(rest));
  }

  lemma NextPreservesValid(s: State, step: Step, o: Options, bytes: Measure)
    requires Valid(s, o)
    ensures Valid(Next(s, step, o, bytes), o)
  {
    hide FlushBegun, AfterRecord, InFlight, All, Reported;
    match step
    case Record(text, now) =>
      RecordPreservesValid(s, o, text);
      FlushPreservesValid(AfterRecord(s, o, text), o, now);
    case Flush(now) => FlushPreservesValid(s, o, now);
    case Beacon(now) => BeaconPreservesValid(s, o, now, bytes);
    case Work(i, answered, now) => WorkPreservesValid(s, i, answered, now, o, bytes);
  }

  /**
    However flushes, records and failures interleave, every event there ever was is in exactly one
    place, and the counts of all drop events made and of the next one equal the events shifted out or
    dropped as oversized. A drop event can itself be lost with a failed flush.
   */
  lemma {:induction false} RunPreservesValid(s: State, steps: seq<Step>, o: Options, bytes: Measure)
    requires Valid(s, o)
    ensures Valid(Run(s, steps, o, bytes), o)
    decreases |steps|
  {
    hide Next;
    if steps != [] {
      NextPreservesValid(s, steps[0], o, bytes);
      RunPreservesValid(Next(s, steps[0], o, bytes), steps[1..], o, bytes);
    }
  }

  // What a record and a flush do

  /** A record joins the end of the buffer, and the oldest events beyond the ceiling leave it and are counted. */
  lemma NewestKept(s: State, o: Options, text: string, now: int, bytes: Measure)
    requires |s.buffer| + 1 < o.flushAtEvents
    ensures var n, grown := Next(s, Record(text, now), o, bytes), s.buffer + [Recorded(text)];
            && |n.buffer| == (if |grown| <= o.maxBufferedEvents then |grown| else o.maxBufferedEvents)
            && n.buffer == grown[|grown| - |n.buffer|..]
            && n.dropped == s.dropped + |grown| - |n.buffer| && n.flights == s.flights
  {
  }

  /**
    A flush takes everything buffered, behind a report of what was dropped since the last one if
    anything was, exactly if there is something to take or to report and no backoff is running.
   */
  lemma FlushExactly(s: State, now: int, o: Options, bytes: Measure)
    ensures var n := Next(s, Flush(now), o, bytes);
            if now >= s.disabledUntil && (s.buffer != [] || s.dropped > 0) then
              && |n.flights| == |s.flights| + 1 && n.flights[..|s.flights|] == s.flights
              && n.flights[|s.flights|].drained == (if s.dropped > 0 then [DropReport(s.dropped)] else []) + s.buffer
              && n.buffer == [] && n.dropped == 0 && n.disabledUntil == s.disabledUntil
            else n == s
  {
    assert [] + s.buffer == s.buffer;
    hide Launched;
    assert Launched(Drained(s)).drained == Drained(s) by {
      LaunchedDrains(Drained(s));
    }
  }

  lemma LaunchedDrains(drained: seq<LogEvent>)
    ensures Launched(drained).drained == drained
  {
  }

  /** A record that fills the buffer to the threshold flushes it at once, unless a backoff is running. */
  lemma FullFlushes(s: State, o: Options, text: string, now: int, bytes: Measure)
    requires |s.buffer| + 1 >= o.flushAtEvents && o.flushAtEvents <= o.maxBufferedEvents && o.maxBufferedEvents > 0
    ensures var n := Next(s, Record(text, now), o, bytes);
            if now >= s.disabledUntil then n.buffer == [] && n.dropped == 0 && |n.flights| == |s.flights| + 1
            else n.buffer != [] && n.flights == s.flights
  {
  }

  /** A request that fails starts the backoff, and only that does. */
  lemma BackoffExactly(s: State, step: Step, o: Options, bytes: Measure)
    ensures Next(s, step, o, bytes).disabledUntil ==
      if step.Work? && step.flight < |s.flights| && s.flights[step.flight].rest != []
         && bytes(s.flights[step.flight].rest[0]) <= o.maxBodyBytes && !step.answered
      then step.now + o.transportBackoffMs else s.disabledUntil
  {
    hide Worked, Entered, Launched;
  }

  predicate Before(step: Step, until: int) {
    step.now < until
  }

  /**
    While it runs, whatever happens, no flush and no beacon takes anything; failures in the
    meantime only extend it.
   */
  lemma {:induction false} SilentInBackoff(s: State, steps: seq<Step>, until: int, o: Options, bytes: Measure)
    requires until <= s.disabledUntil && forall step :: step in steps ==> Before(step, until)
    requires forall step :: step in steps && step.Work? ==> until <= step.now + o.transportBackoffMs
    ensures var n := Run(s, steps, o, bytes);
            |n.flights| == |s.flights| && n.ledger.handedOver == s.ledger.handedOver && until <= n.disabledUntil
    decreases |steps|
  {
    hide Next;
    if steps != [] {
      assert Before(steps[0], until);
      StepInBackoff(s, steps[0], until, o, bytes);
      SilentInBackoff(Next(s, steps[0], o, bytes), steps[1..], until, o, bytes);
    }
  }

  lemma StepInBackoff(s: State, step: Step, until: int, o: Options, bytes: Measure)
    requires until <= s.disabledUntil && Before(step, until)
             && (step.Work? ==> until <= step.now + o.transportBackoffMs)
    ensures var n := Next(s, step, o, bytes);
            |n.flights| == |s.flights| && n.ledger.handedOver == s.ledger.handedOver && until <= n.disabledUntil
  {
    BackoffExactly(s, step, o, bytes);
    hide Worked, Launched, Drained;
  }

  /** The lengths of some bodies together. */
  function Posted(bodies: seq<seq<LogEvent>>): nat {
    if bodies == [] then 0 else |bodies[0]| + Posted(bodies[1..])
  }

  /** Of the events settled, those that were not posted are the ones counted as oversized. */
  lemma {:induction false} OversizedExactly(pieces: seq<Piece>, answers: nat -> bool, calls: nat)
    ensures var sent, k := Send(pieces, answers, calls), Settled(pieces, answers, calls);
            |Flatten(pieces[..k])| == sent.oversized + Posted(sent.posted)
    decreases |pieces|
  {
    var k := Settled(pieces, answers, calls);
    if pieces == [] {
      assert pieces[..0] == [];
    } else if pieces[0].Body? && !answers(calls) {
      assert pieces[..1] == [pieces[0]] && [pieces[0]][1..] == [];
      assert Flatten([pieces[0]]) == pieces[0].events + Flatten([]);
    } else {
      OversizedExactly(pieces[1..], answers, if pieces[0].Body? then calls + 1 else calls);
      FlattenFirst(pieces[..k]);
      assert pieces[..k][1..] == pieces[1..][..k - 1];
    }
  }

  // The order in which a flush posts

  /** Batches, cut into the pieces that will be sent. */
  function PiecesOf(batches: seq<seq<LogEvent>>, o: Options, bytes: Measure): seq<Piece> {
    if batches == [] then [] else Pieces(batches[0], o, bytes) + PiecesOf(batches[1..], o, bytes)
  }

  /**
    A flight has posted the bodies of the first pieces of its batch, in order and nothing else, and
    has exactly the other pieces still to send unless a request failed.
   */
  ghost predicate InOrder(flight: Flight, o: Options, bytes: Measure) {
    var pieces := Pieces(flight.drained, o, bytes);
    && flight.settled <= |pieces|
    && flight.posted == Bodies(pieces[..flight.settled])
    && (flight.failed ==> flight.rest == [] && flight.settled > 0 && pieces[flight.settled - 1].Body?)
    && (!flight.failed ==> PiecesOf(flight.rest, o, bytes) == pieces[flight.settled..])
  }

  ghost predicate AllInOrder(flights: seq<Flight>, o: Options, bytes: Measure) {
    forall i :: 0 <= i < |flights| ==> InOrder(flights[i], o, bytes)
  }

  lemma LaunchedInOrder(drained: seq<LogEvent>, o: Options, bytes: Measure)
    ensures InOrder(Launched(drained), o, bytes)
  {
    var pieces := Pieces(drained, o, bytes);
    assert pieces[..0] == [] && pieces[0..] == pieces;
    assert PiecesOf([drained], o, bytes) == pieces + PiecesOf([], o, bytes);
  }

  lemma {:induction false} BodiesAppend(pieces: seq<Piece>, piece: Piece)
    ensures Bodies(pieces + [piece]) == Bodies(pieces) + (if piece.Body? then [piece.events] else [])
  {
    if pieces == [] {
      assert pieces + [piece] == [piece] && [piece][1..] == [];
    } else {
      BodiesAppend(pieces[1..], piece);
      assert (pieces + [piece])[1..] == pieces[1..] + [piece];
    }
  }

  /** One step of a flight settles its next piece, or cuts a batch without changing its pieces. */
  lemma WorkedInOrder(flight: Flight, answered: bool, o: Options, bytes: Measure)
    requires InOrder(flight, o, bytes) && flight.rest != []
    ensures InOrder(Worked(flight, answered, o, bytes), o, bytes)
  {
    var batch, rest := flight.rest[0], flight.rest[1..];
    if bytes(batch) <= o.maxBodyBytes || |batch| <= 1 {
      SettlesNext(flight, o, bytes);
    } else {
      HalvesHavePieces(batch, rest, o, bytes);
    }
    hide Bodies, PiecesOf, Pieces;
  }

  /** A batch that is not cut is the next piece. */
  lemma SettlesNext(flight: Flight, o: Options, bytes: Measure)
    requires InOrder(flight, o, bytes) && flight.rest != []
    requires bytes(flight.rest[0]) <= o.maxBodyBytes || |flight.rest[0]| <= 1
    ensures var pieces, n, batch := Pieces(flight.drained, o, bytes), flight.settled, flight.rest[0];
            && n < |pieces| && pieces[n] == (if bytes(batch) <= o.maxBodyBytes then Body(batch) else Oversized(batch))
            && pieces[n + 1..] == PiecesOf(flight.rest[1..], o, bytes)
            && Bodies(pieces[..n + 1]) == Bodies(pieces[..n]) + (if pieces[n].Body? then [batch] else [])
  {
    var pieces, n := Pieces(flight.drained, o, bytes), flight.settled;
    var batch, rest := flight.rest[0], flight.rest[1..];
    assert pieces[n..] == Pieces(batch, o, bytes) + PiecesOf(rest, o, bytes) && |Pieces(batch, o, bytes)| == 1;
    var piece := Pieces(batch, o, bytes)[0];
    assert pieces[n] == pieces[n..][0] == piece;
    hide Bodies, PiecesOf;
    assert pieces[n + 1..] == pieces[n..][1..] == PiecesOf(rest, o, bytes);
    assert pieces[..n + 1] == pieces[..n] + [piece];
    BodiesAppend(pieces[..n], piece);
  }

  lemma HalvesHavePieces(batch: seq<LogEvent>, rest: seq<seq<LogEvent>>, o: Options, bytes: Measure)
    requires bytes(batch) > o.maxBodyBytes && |batch| > 1
    ensures PiecesOf([batch[..|batch| / 2], batch[|batch| / 2..]] + rest, o, bytes) ==
      Pieces(batch, o, bytes) + PiecesOf(rest, o, bytes)
  {
    var first, second := batch[..|batch| / 2], batch[|batch| / 2..];
    var halves := [first, second] + rest;
    PiecesOfHalves(batch, o, bytes);
    hide Pieces, PiecesOf;
    assert halves[1..] == [second] + rest && halves[1..][1..] == rest;
    PiecesOfFirst(halves, o, bytes);
    PiecesOfFirst(halves[1..], o, bytes);
    assert PiecesOf(halves, o, bytes) ==
      Pieces(first, o, bytes) + (Pieces(second, o, bytes) + PiecesOf(rest, o, bytes));
  }

  lemma PiecesOfFirst(batches: seq<seq<LogEvent>>, o: Options, bytes: Measure)
    requires batches != []
    ensures PiecesOf(batches, o, bytes) == Pieces(batches[0], o, bytes) + PiecesOf(batches[1..], o, bytes)
  {
  }

  lemma StepInOrder(s: State, step: Step, o: Options, bytes: Measure)
    requires AllInOrder(s.flights, o, bytes)
    ensures AllInOrder(Next(s, step, o, bytes).flights, o, bytes)
    ensures |s.flights| <= |Next(s, step, o, bytes).flights|
    ensures forall i :: 0 <= i < |s.flights| ==> Next(s, step, o, bytes).flights[i].drained == s.flights[i].drained
  {
    hide AllInOrder, All, Worked, Drained, Entered, FlushBegun;
    match step
    case Record(text, now) => FlushInOrder(AfterRecord(s, o, text), now, o, bytes);
    case Flush(now) => FlushInOrder(s, now, o, bytes);
    case Beacon(_) =>
    case Work(i, answered, now) =>
      if i < |s.flights| && s.flights[i].rest != [] {
        WorkInOrder(s, i, answered, now, o, bytes);
      }
  }

  lemma FlushInOrder(s: State, now: int, o: Options, bytes: Measure)
    requires AllInOrder(s.flights, o, bytes)
    ensures AllInOrder(FlushBegun(s, now).flights, o, bytes)
    ensures s.flights <= FlushBegun(s, now).flights
  {
    hide InOrder, Launched, Drained;
    LaunchedInOrder(Drained(s), o, bytes);
  }

  lemma WorkInOrder(s: State, i: nat, answered: bool, now: int, o: Options, bytes: Measure)
    requires AllInOrder(s.flights, o, bytes) && i < |s.flights| && s.flights[i].rest != []
    ensures var after := Next(s, Work(i, answered, now), o, bytes).flights;
            && AllInOrder(after, o, bytes) && |after| == |s.flights|
            && forall j :: 0 <= j < |s.flights| ==> after[j].drained == s.flights[j].drained
  {
    hide InOrder, Next;
    WorkIs(s, i, answered, now, o, bytes);
    WorkedInOrder(s.flights[i], answered, o, bytes);
  }

  /**
    However flushes, records and failures interleave, every flush posts the bodies of the pieces of
    the batch it drained, in order: of all of them once it has nothing left to post, unless a request
    failed, which then was its last.
   */
  lemma {:induction false} RunInOrder(s: State, steps: seq<Step>, o: Options, bytes: Measure)
    requires AllInOrder(s.flights, o, bytes)
    ensures AllInOrder(Run(s, steps, o, bytes).flights, o, bytes)
    ensures |s.flights| <= |Run(s, steps, o, bytes).flights|
    ensures forall i :: 0 <= i < |s.flights| ==> Run(s, steps, o, bytes).flights[i].drained == s.flights[i].drained
    decreases |steps|
  {
    hide Next, AllInOrder;
    if steps != [] {
      StepInOrder(s, steps[0], o, bytes);
      RunInOrder(Next(s, steps[0], o, bytes), steps[1..], o, bytes);
    }
  }

  /** A flush that is over without a failure has posted the bodies of all pieces of its batch. */
  lemma FinishedPostsAll(flight: Flight, o: Options, bytes: Measure)
    requires InOrder(flight, o, bytes) && flight.rest == [] && !flight.failed
    ensures flight.posted == Bodies(Pieces(flight.drained, o, bytes))
  {
    var pieces := Pieces(flight.drained, o, bytes);
    assert |pieces[flight.settled..]| == 0;
    assert pieces[..flight.settled] == pieces;
  }

  /**
    However it was interleaved, a flush that is over has posted what one without interruption would
    have, its requests ending alike.
   */
  lemma EndedAsSent(flight: Flight, answers: nat -> bool, o: Options, bytes: Measure)
    requires InOrder(flight, o, bytes) && flight.rest == []
    requires forall n :: 0 <= n < |flight.posted| ==> (answers(n) <==> !flight.failed || n < |flight.posted| - 1)
    ensures var sent := Send(Pieces(flight.drained, o, bytes), answers, 0);
            sent.posted == flight.posted && sent.ok == !flight.failed
  {
    var pieces := Pieces(flight.drained, o, bytes);
    if flight.failed {
      SendStops(pieces, flight.settled, answers, 0);
    } else {
      FinishedPostsAll(flight, o, bytes);
      SendsAll(pieces, answers, 0);
    }
  }

  lemma {:induction false} SendsAll(pieces: seq<Piece>, answers: nat -> bool, calls: nat)
    requires forall n :: calls <= n < calls + |Bodies(pieces)| ==> answers(n)
    ensures Send(pieces, answers, calls).posted == Bodies(pieces) && Send(pieces, answers, calls).ok
    decreases |pieces|
  {
    if pieces != [] {
      SendsAll(pieces[1..], answers, if pieces[0].Body? then calls + 1 else calls);
    }
  }

  lemma {:induction false} SendStops(pieces: seq<Piece>, k: nat, answers: nat -> bool, calls: nat)
    requires 0 < k <= |pieces| && pieces[k - 1].Body?
    requires var b := |Bodies(pieces[..k])|;
             forall n :: calls <= n < calls + b ==> (answers(n) <==> n < calls + b - 1)
    ensures Send(pieces, answers, calls).posted == Bodies(pieces[..k]) && !Send(pieces, answers, calls).ok
    decreases |pieces|
  {
    assert pieces[..k][1..] == pieces[1..][..k - 1];
    if k == 1 {
      assert Bodies(pieces[..1]) == [pieces[0].events] + Bodies(pieces[..1][1..]) && Bodies([]) == [];
    } else {
      assert pieces[1..][k - 2].Body?;
      LastBody(pieces[1..], k - 1);
      SendStops(pieces[1..], k - 1, answers, if pieces[0].Body? then calls + 1 else calls);
    }
  }

  lemma {:induction false} LastBody(pieces: seq<Piece>, k: nat)
    requires 0 < k <= |pieces| && pieces[k - 1].Body?
    ensures Bodies(pieces[..k]) != []
    decreases k
  {
    if k > 1 {
      assert pieces[..k][1..] == pieces[1..][..k - 1];
      assert pieces[1..][k - 2].Body?;
      LastBody(pieces[1..], k - 1);
    }
  }

  /**
    The core object and the calls that change it. Between the awaits of one flush others may run;
    `Run` covers their interleavings.
   */
  class LoggerCore {
    const options: Options
    const bytes: Measure
    const answers: nat -> bool
    var buffer: seq<LogEvent>
    var dropped: nat
    var disabledUntil: int

    /** The requests made so far and their bodies. */
    ghost var calls: nat
    ghost var posted: seq<seq<LogEvent>>

    constructor (options: Options, bytes: Measure, answers: nat -> bool)
      ensures this.options == options && this.bytes == bytes && this.answers == answers
      ensures buffer == [] && dropped == 0 && disabledUntil == 0 && calls == 0 && posted == []
    {
      this.options, this.bytes, this.answers := options, bytes, answers;
      buffer, dropped, disabledUntil, calls, posted := [], 0, 0, 0, [];
    }

    /** The state machine's view of the core, with whatever is suspended elsewhere. */
    ghost function View(rest: State): State
      reads this
    {
      rest.(buffer := buffer, dropped := dropped, disabledUntil := disabledUntil)
    }

    /** Append an event and drop the oldest ones past the ceiling; says whether a flush is due. */
    method RecordEvent(text: string, ghost rest: State) returns (due: bool)
      modifies this`buffer, this`dropped
      ensures var after := AfterRecord(old(View(rest)), options, text);
              buffer == after.buffer && dropped == after.dropped
      ensures var grown, n := old(buffer) + [Recorded(text)], |buffer|;
              && n == (if |grown| <= options.maxBufferedEvents then |grown| else options.maxBufferedEvents)
              && buffer == grown[|grown| - n..] && dropped == old(dropped) + |grown| - n
      ensures due == (|buffer| >= options.flushAtEvents)
    {
      buffer := buffer + [Recorded(text)];
      ghost var grown, shifted := buffer, 0;
      while |buffer| > options.maxBufferedEvents
        invariant shifted <= |grown| && buffer == grown[shifted..] && dropped == old(dropped) + shifted
        invariant shifted > 0 ==> |buffer| >= options.maxBufferedEvents
        decreases |buffer|
      {
        buffer := buffer[1..];
        dropped := dropped + 1;
        shifted := shifted + 1;
      }
      due := |buffer| >= options.flushAtEvents;
    }

    method DrainBuffer(ghost rest: State) returns (events: seq<LogEvent>)
      modifies this`buffer, this`dropped
      ensures events == Drained(old(View(rest))) && buffer == [] && dropped == 0
    {
      events := buffer;
      buffer := [];
      if dropped == 0 {
        return;
      }
      events := [DropReport(dropped)] + events;
      dropped := 0;
    }

    /** The request itself; what answers it is not ours to decide. */
    method Fetch(events: seq<LogEvent>, ghost n: nat, ok: bool)
      requires n == calls && ok == answers(n)
      modifies this`calls, this`posted
      ensures calls == n + 1 && posted == old(posted) + [events]
    {
      calls := calls + 1;
      posted := posted + [events];
    }

    /** Post one batch, or its halves when it is too large; `next` counts requests. */
    method PostBatch(events: seq<LogEvent>, next: nat) returns (ok: bool, after: nat)
      requires next == calls
      modifies this`dropped, this`calls, this`posted
      ensures var sent := Send(Pieces(events, options, bytes), answers, next);
              && ok == sent.ok && after == calls == sent.calls
              && posted == old(posted) + sent.posted && dropped == old(dropped) + sent.oversized
      decreases |events|, 1
    {
      if bytes(events) > options.maxBodyBytes {
        ok, after := PostSplit(events, next);
        return;
      }
      ok := answers(next);
      Fetch(events, next, ok);
      after := next + 1;
      SendBody(events, answers, next);
    }

    method PostSplit(events: seq<LogEvent>, next: nat) returns (ok: bool, after: nat)
      requires next == calls && bytes(events) > options.maxBodyBytes
      modifies this`dropped, this`calls, this`posted
      ensures var sent := Send(Pieces(events, options, bytes), answers, next);
              && ok == sent.ok && after == calls == sent.calls
              && posted == old(posted) + sent.posted && dropped == old(dropped) + sent.oversized
      decreases |events|, 0
    {
      if |events| <= 1 {
        dropped := dropped + |events|;
        SendOversized(events, answers, next);
        return true, next;
      }
      PiecesOfHalves(events, options, bytes);
      hide Pieces, Send;
      var middle := |events| / 2;
      SendAppend(Pieces(events[..middle], options, bytes), Pieces(events[middle..], options, bytes), answers, next);
      ok, after := PostBatch(events[..middle], next);
      ghost var first := posted;
      if ok {
        ok, after := PostBatch(events[middle..], after);
        Regroup(old(posted), first, posted);
      }
    }

    static lemma Regroup(before: seq<seq<LogEvent>>, first: seq<seq<LogEvent>>, all: seq<seq<LogEvent>>)
      requires before <= first <= all
      ensures all == before + (first[|before|..] + all[|first|..])
    {
    }

    /**
      A whole flush: nothing in backoff or with nothing to send, else everything buffered, and
      backoff when a request fails.
     */
    method FlushCore(now: int, failedAt: int, next: nat, ghost rest: State) returns (after: nat)
      requires next == calls
      modifies this
      ensures var s := old(View(rest));
              if Idle(s, now) then View(rest) == s && posted == old(posted)
              else
                var sent := Send(Pieces(Drained(s), options, bytes), answers, next);
                && posted == old(posted) + sent.posted
                && buffer == [] && dropped == sent.oversized
                && disabledUntil == (if sent.ok then s.disabledUntil else failedAt + options.transportBackoffMs)
    {
      after := next;
      if (|buffer| == 0 && dropped == 0) || now < disabledUntil {
        return;
      }
      var events := DrainBuffer(rest);
      var ok;
      ok, after := PostBatch(events, next);
      if !ok {
        disabledUntil := failedAt + options.transportBackoffMs;
      }
    }
  }
}
