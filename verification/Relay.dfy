/**
  Admission to the browser relay: a token bucket refilled lazily and a cap on concurrent handlers.
  Tokens are counted in hundredths, which makes the arithmetic exact: a millisecond adds one and a
  request costs a hundred.
 */
module Relay {
  const TOKEN := 100
  const BURST := 20 * TOKEN
  const CONCURRENT := 16

  /** What the checks ahead of the bucket find; they neither read nor refill it. */
  datatype Preflight = WrongOrigin | WrongMethod | Passes

  /** How an admitted handler ends, as far as the counters see. */
  datatype Outcome =
    | ContextServed
    | RefusedLater(discarded: nat)          // a media type, size or payload is refused, perhaps after sanitizing
    | ContextChanged
    | Forwarded(ok: bool, discarded: nat)   // `discarded` is what the sanitizer left out
    | Faulted(discarded: nat)

  datatype Stats = Stats(accepted: nat, rejected: nat, dropped: nat, failed: nat)

  /**
    `active` and `arrivals`, `answered` are ledgers: the unfinished handlers, all requests, and
    those answered after admission otherwise than by a refusal.
   */
  datatype State = State(tokens: int, updated: int, concurrent: int, stats: Stats, active: set<nat>, arrivals: nat,
                         answered: nat)

  function Initial(now: int): State {
    State(BURST, now, 0, Stats(0, 0, 0, 0), {}, 0, 0)
  }

  function Min(a: int, b: int): int {
    if a <= b then a else b
  }

  /** The bucket at a moment not before its last refill. */
  function TokensAt(s: State, now: int): int {
    Min(BURST, s.tokens + (now - s.updated))
  }

  function Rejected(s: State): State {
    s.(stats := s.stats.(rejected := s.stats.rejected + 1))
  }

  predicate Admits(s: State, now: int, preflight: Preflight) {
    preflight.Passes? && TokensAt(s, now) >= TOKEN && s.concurrent < CONCURRENT
  }

  datatype Event = Arrive(id: nat, now: int, preflight: Preflight) | Finish(id: nat, outcome: Outcome)

  function Next(s: State, event: Event): State {
    match event
    case Arrive(id, now, preflight) =>
      var arrived := s.(arrivals := s.arrivals + 1);
      if !preflight.Passes? then Rejected(arrived)
      else
        var refilled := arrived.(tokens := TokensAt(s, now), updated := now);
        if refilled.tokens < TOKEN || s.concurrent >= CONCURRENT then Rejected(refilled)
        else refilled.(tokens := refilled.tokens - TOKEN, concurrent := s.concurrent + 1, active := s.active + {id})
    case Finish(id, outcome) =>
      if id !in s.active then s
      else
        var left := s.(concurrent := s.concurrent - 1, active := s.active - {id}, answered := s.answered + 1);
        var stats := s.stats;
        (match outcome
         case ContextServed => left
         case RefusedLater(discarded) =>
           left.(stats := stats.(rejected := stats.rejected + 1, dropped := stats.dropped + discarded),
                 answered := s.answered)
         case ContextChanged => left.(stats := stats.(dropped := stats.dropped + 1))
         case Forwarded(ok, discarded) =>
           left.(stats := if ok then stats.(accepted := stats.accepted + 1, dropped := stats.dropped + discarded)
                          else stats.(failed := stats.failed + 1, dropped := stats.dropped + discarded + 1))
         case Faulted(discarded) => left.(stats := stats.(failed := stats.failed + 1,
                                                          dropped := stats.dropped + discarded)))
  }

  function Run(s: State, trace: seq<Event>): State
    decreases |trace|
  {
    if trace == [] then s else Run(Next(s, trace[0]), trace[1..])
  }

  /** Handlers are identified by fresh numbers, and the clock does not run backwards from `now` on. */
  ghost predicate WellTimed(s: State, trace: seq<Event>, now: int)
    decreases |trace|
  {
    trace != [] ==>
      match trace[0]
      case Arrive(id, at, _) => id !in s.active && now <= at && WellTimed(Next(s, trace[0]), trace[1..], at)
      case Finish(_, _) => WellTimed(Next(s, trace[0]), trace[1..], now)
  }

  ghost predicate Valid(s: State, now: int) {
    && 0 <= s.tokens <= BURST && s.updated <= now
    && s.concurrent == |s.active| <= CONCURRENT
    && s.arrivals == s.stats.rejected + s.answered + |s.active|
  }

  lemma NextPreservesValid(s: State, event: Event, now: int)
    requires Valid(s, now)
    requires event.Arrive? ==> event.id !in s.active && now <= event.now
    ensures Valid(Next(s, event), if event.Arrive? then event.now else now)
  {
  }

  /**
    At every point of every interleaving the concurrency counter is the number of unfinished
    handlers, at most 16, and every request is rejected, answered or unfinished.
   */
  lemma {:induction false} RunPreservesValid(s: State, trace: seq<Event>, now: int)
    requires Valid(s, now) && WellTimed(s, trace, now)
    ensures Valid(Run(s, trace), Latest(trace, now))
    decreases |trace|
  {
    hide Next;
    if trace != [] {
      var at := if trace[0].Arrive? then trace[0].now else now;
      NextPreservesValid(s, trace[0], now);
      RunPreservesValid(Next(s, trace[0]), trace[1..], at);
    }
  }

  /** The time of the last arrival. */
  function Latest(trace: seq<Event>, now: int): int
    decreases |trace|
  {
    if trace == [] then now else Latest(trace[1..], if trace[0].Arrive? then trace[0].now else now)
  }

  // The bucket

  function Admitted(s: State, trace: seq<Event>, from: int, until: int): nat
    decreases |trace|
  {
    if trace == [] then 0
    else
      (if trace[0].Arrive? && from <= trace[0].now <= until && Admits(s, trace[0].now, trace[0].preflight) then 1
       else 0)
      + Admitted(Next(s, trace[0]), trace[1..], from, until)
  }

  lemma {:induction false} NoneAfter(s: State, trace: seq<Event>, from: int, until: int, now: int)
    requires WellTimed(s, trace, now) && until < now
    ensures Admitted(s, trace, from, until) == 0
    decreases |trace|
  {
    hide Next;
    if trace != [] {
      NoneAfter(Next(s, trace[0]), trace[1..], from, until, if trace[0].Arrive? then trace[0].now else now);
    }
  }

  lemma AdmissionCosts(s: State, event: Event, now: int)
    requires Valid(s, now) && (event.Arrive? ==> now <= event.now && event.id !in s.active)
    ensures var at := if event.Arrive? then event.now else now;
            TokensAt(Next(s, event), at) ==
            TokensAt(s, at) - (if event.Arrive? && Admits(s, at, event.preflight) then TOKEN else 0)
  {
  }

  /** What the bucket holds and what it gains until the end pays for every admission. */
  lemma {:induction false} TokensPay(s: State, trace: seq<Event>, from: int, until: int, now: int)
    requires Valid(s, now) && WellTimed(s, trace, now) && from <= now <= until
    ensures TOKEN * Admitted(s, trace, from, until) <= TokensAt(s, now) + (until - now)
    decreases |trace|
  {
    hide Next;
    if trace != [] {
      var at := if trace[0].Arrive? then trace[0].now else now;
      NextPreservesValid(s, trace[0], now);
      AdmissionCosts(s, trace[0], now);
      if at <= until {
        TokensPay(Next(s, trace[0]), trace[1..], from, until, at);
      } else {
        NoneAfter(Next(s, trace[0]), trace[1..], from, until, at);
      }
    }
  }

  /**
    On every trace, requests admitted at times in an interval number at most 20 plus one per 100
    milliseconds of its length.
   */
  lemma {:induction false} TokenBucket(s: State, trace: seq<Event>, from: int, until: int, now: int)
    requires Valid(s, now) && WellTimed(s, trace, now) && from <= until
    ensures 100 * Admitted(s, trace, from, until) <= 2000 + (until - from)
    decreases |trace|
  {
    hide Next;
    if until < now {
      NoneAfter(s, trace, from, until, now);
    } else if from <= now {
      TokensPay(s, trace, from, until, now);
    } else if trace != [] {
      var at := if trace[0].Arrive? then trace[0].now else now;
      NextPreservesValid(s, trace[0], now);
      if trace[0].Arrive? && at >= from {
        if at <= until {
          // The first request inside the interval finds at most a full bucket.
          AdmissionCosts(s, trace[0], now);
          TokensPay(Next(s, trace[0]), trace[1..], from, until, at);
        } else {
          NoneAfter(Next(s, trace[0]), trace[1..], from, until, at);
        }
      } else {
        TokenBucket(Next(s, trace[0]), trace[1..], from, until, at);
      }
    }
  }

  /**
    What each way of ending does to the four counters: only a batch forwarded well is accepted, and
    only one that is not, or a fault, fails.
   */
  lemma OutcomesExactly(s: State, id: nat, outcome: Outcome)
    requires id in s.active
    ensures var before, after := s.stats, Next(s, Finish(id, outcome)).stats;
            && after.accepted == before.accepted + (if outcome.Forwarded? && outcome.ok then 1 else 0)
            && after.failed == before.failed
               + (if (outcome.Forwarded? && !outcome.ok) || outcome.Faulted? then 1 else 0)
            && after.rejected == before.rejected + (if outcome.RefusedLater? then 1 else 0)
            && after.dropped == before.dropped
               + (if outcome.ContextServed? then 0
                  else if outcome.ContextChanged? then 1
                  else if outcome.Forwarded? && !outcome.ok then outcome.discarded + 1
                  else outcome.discarded)
    ensures Next(s, Finish(id, outcome)).active == s.active - {id} && Next(s, Finish(id, outcome)).tokens == s.tokens
  {
  }

  /** A request that is not admitted is counted as rejected, and one that is changes no counter. */
  lemma ArrivalsExactly(s: State, id: nat, now: int, preflight: Preflight)
    ensures var n := Next(s, Arrive(id, now, preflight));
            if preflight.Passes? && TokensAt(s, now) >= 100 && s.concurrent < 16
            then n.stats == s.stats && n.active == s.active + {id} && n.concurrent == s.concurrent + 1
            else
              && n.stats == s.stats.(rejected := s.stats.rejected + 1)
              && n.active == s.active && n.concurrent == s.concurrent
  {
  }

  // No request is refused for the rate sooner than it must be

  /** How many requests of a trace are admitted. */
  function Count(s: State, trace: seq<Event>): nat
    decreases |trace|
  {
    if trace == [] then 0
    else
      (if trace[0].Arrive? && Admits(s, trace[0].now, trace[0].preflight) then 1 else 0)
        + Count(Next(s, trace[0]), trace[1..])
  }

  ghost predicate NotBefore(trace: seq<Event>, since: int) {
    forall i :: 0 <= i < |trace| && trace[i].Arrive? ==> since <= trace[i].now
  }

  /**
    What the bucket holds at a moment is what it gained since it was last full, less what the requests
    admitted since then have cost: `k` events happened before it was full at the time `since`.
   */
  lemma BucketAccounts(now: int, trace: seq<Event>, at: int) returns (k: nat, since: int)
    requires WellTimed(Initial(now), trace, now) && Latest(trace, now) <= at
    ensures k <= |trace| && now <= since <= at && NotBefore(trace[k..], since)
    ensures TokensAt(Run(Initial(now), trace), at) ==
      2000 + (at - since) - 100 * Count(Run(Initial(now), trace[..k]), trace[k..])
  {
    var full;
    full, k, since := AccountsFrom(Initial(now), trace, now, at, now, 0);
    if !full {
      k, since := 0, now;
      LatestAtLeast(Initial(now), trace, now);
      assert trace[..0] == [] && trace[0..] == trace;
      LaterThan(Initial(now), trace, now);
    }
  }

  lemma {:induction false} LaterThan(s: State, trace: seq<Event>, now: int)
    requires WellTimed(s, trace, now)
    ensures NotBefore(trace, now)
    decreases |trace|
  {
    hide Next;
    if trace != [] {
      var at := if trace[0].Arrive? then trace[0].now else now;
      LaterThan(Next(s, trace[0]), trace[1..], at);
      assert trace == [trace[0]] + trace[1..];
    }
  }

  /** Between admissions the bucket gains one hundredth of a token a millisecond, until it is full. */
  lemma Refills(s: State, now: int, at: int)
    requires Valid(s, now) && now <= at
    ensures TokensAt(s, at) == if TokensAt(s, now) + (at - now) >= 2000 then 2000 else TokensAt(s, now) + (at - now)
  {
  }

  /**
    The same from any moment at which the bucket's content is known that way; `full` says that it
    has been full since.
   */
  lemma {:induction false} AccountsFrom(s: State, trace: seq<Event>, now: int, at: int, since: int, used: nat)
    returns (full: bool, k: nat, time: int)
    requires Valid(s, now) && WellTimed(s, trace, now) && Latest(trace, now) <= at
    requires TokensAt(s, now) == 2000 + (now - since) - 100 * used
    ensures !full ==> TokensAt(Run(s, trace), at) == 2000 + (at - since) - 100 * (used + Count(s, trace))
    ensures full ==>
      && k <= |trace| && now <= time <= at && NotBefore(trace[k..], time)
      && TokensAt(Run(s, trace), at) == 2000 + (at - time) - 100 * Count(Run(s, trace[..k]), trace[k..])
    decreases |trace|
  {
    hide Next, Valid, TokensAt, Admits, Latest, Run, Count, WellTimed, NotBefore;
    full, k, time := false, 0, at;
    if trace == [] {
      full := TokensAt(s, at) == 2000;
      NothingHappens(s, now);
      Refills(s, now, at);
      assert trace[..0] == [] && trace[0..] == [];
    } else {
      var t := if trace[0].Arrive? then trace[0].now else now;
      var fullNow := TokensAt(s, t) == 2000;
      var cost := if trace[0].Arrive? && Admits(s, t, trace[0].preflight) then 1 else 0;
      FirstHappens(s, trace, now);
      Refills(s, now, t);
      full, k, time := AccountsFrom(Next(s, trace[0]), trace[1..], t, at,
                                    if fullNow then t else since, if fullNow then cost else used + cost);
      if full {
        k := k + 1;
        LaterOn(s, trace, k);
      } else if fullNow {
        full, k, time := true, 0, t;
        NothingHappens(s, now);
        assert trace[..0] == [] && trace[0..] == trace;
      }
    }
  }

  lemma NothingHappens(s: State, now: int)
    ensures Run(s, []) == s && Count(s, []) == 0 && Latest([], now) == now
    ensures forall since :: NotBefore([], since)
  {
  }

  /** What one event does to the time, the bucket and the count of what is admitted. */
  lemma FirstHappens(s: State, trace: seq<Event>, now: int)
    requires trace != [] && Valid(s, now) && WellTimed(s, trace, now)
    ensures var t, next := if trace[0].Arrive? then trace[0].now else now, Next(s, trace[0]);
            var cost := if trace[0].Arrive? && Admits(s, t, trace[0].preflight) then 1 else 0;
            && now <= t <= Latest(trace, now) && Latest(trace, now) == Latest(trace[1..], t)
            && Valid(next, t) && WellTimed(next, trace[1..], t) && NotBefore(trace, t)
            && TokensAt(next, t) == TokensAt(s, t) - 100 * cost
            && Run(s, trace) == Run(next, trace[1..]) && Count(s, trace) == cost + Count(next, trace[1..])
  {
    var t := if trace[0].Arrive? then trace[0].now else now;
    AdmissionCosts(s, trace[0], now);
    NextPreservesValid(s, trace[0], now);
    LatestAfter(trace, now);
    hide Next, Valid, TokensAt, Admits, Latest;
    LatestAtLeast(Next(s, trace[0]), trace[1..], t);
    LaterThan(Next(s, trace[0]), trace[1..], t);
    assert trace == [trace[0]] + trace[1..];
  }

  lemma LaterOn(s: State, trace: seq<Event>, k: nat)
    requires 0 < k <= |trace|
    ensures Run(s, trace[..k]) == Run(Next(s, trace[0]), trace[1..][..k - 1]) && trace[k..] == trace[1..][k - 1..]
  {
    hide Next;
    assert trace[..k][1..] == trace[1..][..k - 1];
  }

  lemma {:induction false} LatestAtLeast(s: State, trace: seq<Event>, now: int)
    requires WellTimed(s, trace, now)
    ensures now <= Latest(trace, now)
    decreases |trace|
  {
    hide Next;
    if trace != [] {
      LatestAtLeast(Next(s, trace[0]), trace[1..], if trace[0].Arrive? then trace[0].now else now);
    }
  }

  lemma LatestAfter(trace: seq<Event>, now: int)
    requires trace != []
    ensures Latest(trace[1..], if trace[0].Arrive? then trace[0].now else now) == Latest(trace, now)
  {
  }

  /**
    A request that passes the checks ahead of the bucket, while fewer than 16 are unfinished, is
    refused only if admitting it would exceed the bound: since some moment more than 20 requests and
    one for every 100 milliseconds would have been admitted.
   */
  lemma RefusedOnlyAtTheBound(now: int, trace: seq<Event>, at: int) returns (k: nat, since: int)
    requires WellTimed(Initial(now), trace, now) && Latest(trace, now) <= at
    requires Run(Initial(now), trace).concurrent < 16 && !Admits(Run(Initial(now), trace), at, Passes)
    ensures k <= |trace| && now <= since <= at && NotBefore(trace[k..], since)
    ensures 100 * (Count(Run(Initial(now), trace[..k]), trace[k..]) + 1) > 2000 + (at - since)
  {
    k, since := BucketAccounts(now, trace, at);
  }

  // Rejected requests leave no mark

  /** Two relays that will treat every request from `now` on alike. */
  ghost predicate Alike(a: State, b: State, now: int) {
    && a.concurrent == b.concurrent && a.active == b.active
    && a.updated <= now && b.updated <= now
    && TokensAt(a, now) == TokensAt(b, now)
  }

  function OnlyAdmitted(s: State, trace: seq<Event>): seq<Event>
    decreases |trace|
  {
    if trace == [] then []
    else (if trace[0].Arrive? && !Admits(s, trace[0].now, trace[0].preflight) then [] else [trace[0]])
         + OnlyAdmitted(Next(s, trace[0]), trace[1..])
  }

  lemma StepAlike(a: State, b: State, event: Event, now: int)
    requires Alike(a, b, now) && (event.Arrive? ==> now <= event.now)
    ensures var at := if event.Arrive? then event.now else now;
            && (event.Arrive? ==> (Admits(a, at, event.preflight) <==> Admits(b, at, event.preflight)))
            && Alike(Next(a, event), Next(b, event), at)
            && (event.Arrive? && !Admits(a, at, event.preflight) ==> Alike(Next(a, event), b, at))
  {
  }

  /**
    A rejected request costs nothing: leaving all of them out of a trace changes no other decision.
    So refilling lazily, also on requests that are then refused, cannot be told from refilling
    continuously.
   */
  lemma {:induction false} RejectionsLeaveNoMark(a: State, b: State, trace: seq<Event>, from: int, until: int, now: int)
    requires Alike(a, b, now) && WellTimed(a, trace, now)
    ensures Admitted(a, trace, from, until) == Admitted(b, OnlyAdmitted(a, trace), from, until)
    ensures Run(a, trace).active == Run(b, OnlyAdmitted(a, trace)).active
    decreases |trace|
  {
    hide Next, Admits;
    if trace != [] {
      var at := if trace[0].Arrive? then trace[0].now else now;
      StepAlike(a, b, trace[0], now);
      var next := Next(a, trace[0]);
      if trace[0].Arrive? && !Admits(a, at, trace[0].preflight) {
        assert OnlyAdmitted(a, trace) == OnlyAdmitted(next, trace[1..]);
        RejectionsLeaveNoMark(next, b, trace[1..], from, until, at);
      } else {
        var rest := OnlyAdmitted(next, trace[1..]);
        assert OnlyAdmitted(a, trace) == [trace[0]] + rest;
        assert ([trace[0]] + rest)[1..] == rest;
        RejectionsLeaveNoMark(next, Next(b, trace[0]), trace[1..], from, until, at);
      }
    }
  }

  /** The relay's closure; a handler suspended at an await is one of the active ones. */
  class RelayObject {
    var tokens: int
    var updated: int
    var concurrent: int
    var stats: Stats
    ghost var active: set<nat>
    ghost var arrivals: nat
    ghost var answered: nat

    ghost function View(): State
      reads this
    {
      State(tokens, updated, concurrent, stats, active, arrivals, answered)
    }

    constructor (now: int)
      ensures View() == Initial(now) && Valid(View(), now)
    {
      tokens, updated, concurrent, stats := BURST, now, 0, Stats(0, 0, 0, 0);
      active, arrivals, answered := {}, 0, 0;
    }

    method Reject()
      modifies this`stats
      ensures stats == old(stats).(rejected := old(stats).rejected + 1)
    {
      stats := stats.(rejected := stats.rejected + 1);
    }

    /** A handler up to its first await. */
    method Begin(id: nat, now: int, preflight: Preflight) returns (admitted: bool)
      modifies this
      ensures View() == Next(old(View()), Arrive(id, now, preflight))
      ensures admitted == Admits(old(View()), now, preflight)
      ensures Valid(old(View()), now) && id !in old(active) ==> Valid(View(), now)
    {
      arrivals := arrivals + 1;
      if !preflight.Passes? {
        Reject();
        return false;
      }
      tokens := Min(BURST, tokens + (now - updated));
      updated := now;
      if tokens < TOKEN || concurrent >= CONCURRENT {
        Reject();
        return false;
      }
      tokens := tokens - TOKEN;
      concurrent := concurrent + 1;
      active := active + {id};
      return true;
    }

    /** A handler's end: its counters, and the `finally` that frees its place. */
    method End(id: nat, outcome: Outcome)
      requires id in active
      modifies this
      ensures View() == Next(old(View()), Finish(id, outcome))
      ensures forall now :: Valid(old(View()), now) ==> Valid(View(), now)
    {
      match outcome {
        case ContextServed =>
          answered := answered + 1;
        case RefusedLater(discarded) =>
          stats := stats.(dropped := stats.dropped + discarded);
          Reject();
        case ContextChanged =>
          stats := stats.(dropped := stats.dropped + 1);
          answered := answered + 1;
        case Forwarded(ok, discarded) =>
          stats := stats.(dropped := stats.dropped + discarded);
          if ok {
            stats := stats.(accepted := stats.accepted + 1);
          } else {
            stats := stats.(failed := stats.failed + 1, dropped := stats.dropped + 1);
          }
          answered := answered + 1;
        case Faulted(discarded) =>
          stats := stats.(failed := stats.failed + 1, dropped := stats.dropped + discarded);
          answered := answered + 1;
      }
      concurrent := concurrent - 1;
      active := active - {id};
    }
  }
}
