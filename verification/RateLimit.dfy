/** The bounded fixed-window limiter, the unbounded one it stands for, and what holds over whole traces. */
module RateLimit {
  import opened Wrappers

  datatype Options = Options(limit: int, windowMs: int, maxTrackedKeys: int)

  datatype Window = Window(count: int, resetAt: int)

  /** A map with its insertion order. */
  datatype Windows = Windows(order: seq<string>, byKey: map<string, Window>)

  const EMPTY := Windows([], map[])

  // Making room

  function LiveKeys(order: seq<string>, byKey: map<string, Window>, now: int): seq<string> {
    if order == [] then []
    else
      (if order[0] in byKey && byKey[order[0]].resetAt > now then [order[0]] else []) + LiveKeys(order[1..], byKey, now)
  }

  /** How many of the oldest keys go so that one more fits. */
  function Excess(size: nat, maxTrackedKeys: int): (n: nat)
    ensures n <= size
  {
    if size < maxTrackedKeys then 0 else if maxTrackedKeys <= 0 then size else size - maxTrackedKeys + 1
  }

  function Only(order: seq<string>, byKey: map<string, Window>): Windows {
    Windows(order, map k | k in byKey && k in order :: byKey[k])
  }

  function MakeRoom(w: Windows, now: int, maxTrackedKeys: int): Windows {
    var live := LiveKeys(w.order, w.byKey, now);
    Only(live[Excess(|live|, maxTrackedKeys)..], w.byKey)
  }

  /** Setting a key keeps its place if it has one and appends it otherwise. */
  function Set(w: Windows, key: string, window: Window): Windows {
    Windows(if key in w.byKey then w.order else w.order + [key], w.byKey[key := window])
  }

  predicate Running(byKey: map<string, Window>, key: string, now: int) {
    key in byKey && byKey[key].resetAt > now
  }

  function Allow(w: Windows, o: Options, key: string, now: int): (Windows, bool) {
    if !Running(w.byKey, key, now) then
      (Set(Room(w, o, now), key, Window(1, now + o.windowMs)), true)
    else if w.byKey[key].count >= o.limit then (w, false)
    else (w.(byKey := w.byKey[key := w.byKey[key].(count := w.byKey[key].count + 1)]), true)
  }

  // Well-formedness

  predicate Distinct(order: seq<string>) {
    forall i, j :: 0 <= i < j < |order| ==> order[i] != order[j]
  }

  predicate WellFormed(w: Windows) {
    && Distinct(w.order)
    && (forall i :: 0 <= i < |w.order| ==> w.order[i] in w.byKey)
    && (forall k :: k in w.byKey ==> k in w.order)
  }

  function Max(a: int, b: int): int {
    if a >= b then a else b
  }

  /** The bounds the options promise; a window's first request is counted whatever the limit. */
  ghost predicate Bounded(w: Windows, o: Options) {
    && WellFormed(w)
    && |w.order| <= Max(1, o.maxTrackedKeys)
    && forall k :: k in w.byKey ==> 1 <= w.byKey[k].count <= Max(1, o.limit)
  }

  lemma {:induction false} LiveKeysFacts(order: seq<string>, byKey: map<string, Window>, now: int)
    requires Distinct(order)
    ensures var live := LiveKeys(order, byKey, now);
            && |live| <= |order| && Distinct(live)
            && forall k :: k in live <==> k in order && Running(byKey, k, now)
    decreases |order|
  {
    if order != [] {
      assert Distinct(order[1..]);
      LiveKeysFacts(order[1..], byKey, now);
      assert order[0] !in order[1..];
      assert order == [order[0]] + order[1..];
    }
  }

  lemma MakeRoomFacts(w: Windows, now: int, maxTrackedKeys: int)
    requires WellFormed(w)
    ensures var room := MakeRoom(w, now, maxTrackedKeys);
            && WellFormed(room) && |room.order| < Max(1, maxTrackedKeys)
            && (forall k :: k in room.byKey ==> Running(w.byKey, k, now) && room.byKey[k] == w.byKey[k])
            && (|LiveKeys(w.order, w.byKey, now)| < Max(1, maxTrackedKeys) ==>
                 forall k :: Running(w.byKey, k, now) ==> k in room.byKey)
  {
    LiveKeysFacts(w.order, w.byKey, now);
    var live := LiveKeys(w.order, w.byKey, now);
    var kept := live[Excess(|live|, maxTrackedKeys)..];
    forall i | 0 <= i < |kept| ensures kept[i] in live {
      assert kept[i] == live[i + Excess(|live|, maxTrackedKeys)];
    }
  }

  /** The map a new window is set in. */
  function Room(w: Windows, o: Options, now: int): Windows {
    if |w.order| >= o.maxTrackedKeys then MakeRoom(w, now, o.maxTrackedKeys) else w
  }

  lemma RoomFacts(w: Windows, o: Options, key: string, now: int)
    requires WellFormed(w)
    ensures WellFormed(Room(w, o, now))
    ensures |Room(w, o, now).order| < Max(1, o.maxTrackedKeys)
    ensures forall k :: k in Room(w, o, now).byKey ==> k in w.byKey && Room(w, o, now).byKey[k] == w.byKey[k]
    ensures |LiveKeys(w.order, w.byKey, now)| < Max(1, o.maxTrackedKeys) ==>
      forall k :: Running(w.byKey, k, now) ==> k in Room(w, o, now).byKey
  {
    hide MakeRoom, LiveKeys;
    if |w.order| >= o.maxTrackedKeys {
      MakeRoomFacts(w, now, o.maxTrackedKeys);
    }
  }

  lemma SetFacts(w: Windows, key: string, window: Window)
    requires WellFormed(w)
    ensures WellFormed(Set(w, key, window)) && |Set(w, key, window).order| <= |w.order| + 1
    ensures key in w.byKey ==> |Set(w, key, window).order| == |w.order|
  {
  }

  lemma AllowKeepsBounded(w: Windows, o: Options, key: string, now: int)
    requires Bounded(w, o)
    ensures Bounded(Allow(w, o, key, now).0, o)
  {
    hide Room;
    if !Running(w.byKey, key, now) {
      RoomFacts(w, o, key, now);
      SetFacts(Room(w, o, now), key, Window(1, now + o.windowMs));
    }
  }

  // Traces

  datatype Request = Request(key: string, now: int)

  ghost predicate Ordered(trace: seq<Request>) {
    forall i, j :: 0 <= i < j < |trace| ==> trace[i].now <= trace[j].now
  }

  function After(w: Windows, o: Options, trace: seq<Request>): Windows
    decreases |trace|
  {
    if trace == [] then w else After(Allow(w, o, trace[0].key, trace[0].now).0, o, trace[1..])
  }

  function Answers(w: Windows, o: Options, trace: seq<Request>): seq<bool>
    decreases |trace|
  {
    if trace == [] then []
    else var (next, allowed) := Allow(w, o, trace[0].key, trace[0].now); [allowed] + Answers(next, o, trace[1..])
  }

  /** After any trace, whatever its times, the map and its counts are within the options. */
  lemma {:induction false} AlwaysBounded(w: Windows, o: Options, trace: seq<Request>)
    requires Bounded(w, o)
    ensures Bounded(After(w, o, trace), o)
    decreases |trace|
  {
    if trace != [] {
      AllowKeepsBounded(w, o, trace[0].key, trace[0].now);
      AlwaysBounded(Allow(w, o, trace[0].key, trace[0].now).0, o, trace[1..]);
    }
  }

  // The unbounded limiter

  function IdealAllow(byKey: map<string, Window>, o: Options, key: string, now: int): (map<string, Window>, bool) {
    if !Running(byKey, key, now) then (byKey[key := Window(1, now + o.windowMs)], true)
    else if byKey[key].count >= o.limit then (byKey, false)
    else (byKey[key := byKey[key].(count := byKey[key].count + 1)], true)
  }

  function IdealAnswers(byKey: map<string, Window>, o: Options, trace: seq<Request>): seq<bool>
    decreases |trace|
  {
    if trace == [] then []
    else var (next, allowed) := IdealAllow(byKey, o, trace[0].key, trace[0].now);
      [allowed] + IdealAnswers(next, o, trace[1..])
  }

  /** Requests of one key at some times. */
  function RequestsAt(key: string, times: seq<int>): seq<Request> {
    if times == [] then [] else [Request(key, times[0])] + RequestsAt(key, times[1..])
  }

  /**
    What a fixed window is: it opens with the first request that finds none running, lasts exactly as
    long as the options say, and of its requests exactly the first `limit` are allowed, and always the
    first; the next request after it is allowed again.
   */
  lemma WindowExactly(byKey: map<string, Window>, o: Options, key: string, times: seq<int>, later: int, i: nat)
    requires i < |times| && !Running(byKey, key, times[0])
    requires forall j :: 0 < j < |times| ==> times[j] < times[0] + o.windowMs
    requires times[0] + o.windowMs <= later
    ensures |IdealAnswers(byKey, o, RequestsAt(key, times + [later]))| == |times| + 1
    ensures IdealAnswers(byKey, o, RequestsAt(key, times + [later]))[i] <==> i == 0 || i < o.limit
    ensures IdealAnswers(byKey, o, RequestsAt(key, times + [later]))[|times|]
  {
    var all := times + [later];
    var next := byKey[key := Window(1, times[0] + o.windowMs)];
    assert all[1..] == times[1..] + [later];
    assert IdealAllow(byKey, o, key, times[0]) == (next, true);
    hide IdealAllow, Running;
    assert RequestsAt(key, all) == [Request(key, times[0])] + RequestsAt(key, all[1..]);
    assert RequestsAt(key, all)[1..] == RequestsAt(key, all[1..]);
    WindowGoesOn(next, o, key, times[1..], later, times[0] + o.windowMs, 1, if i == 0 then 0 else i - 1);
  }

  lemma {:induction false} WindowGoesOn(byKey: map<string, Window>, o: Options, key: string, times: seq<int>,
                                        later: int, resetAt: int, used: nat, i: nat)
    requires key in byKey && byKey[key].resetAt == resetAt && byKey[key].count == used && resetAt <= later
    requires forall j :: 0 <= j < |times| ==> times[j] < resetAt
    ensures var answers := IdealAnswers(byKey, o, RequestsAt(key, times + [later]));
            && |answers| == |times| + 1 && answers[|times|]
            && (i < |times| ==> (answers[i] <==> used + i < o.limit))
    decreases |times|
  {
    var all := times + [later];
    assert RequestsAt(key, all)[1..] == RequestsAt(key, all[1..]);
    if times == [] {
      assert all == [later] && all[1..] == [];
      var rest := IdealAllow(byKey, o, key, later).0;
      assert IdealAnswers(rest, o, []) == [];
    } else {
      assert all[1..] == times[1..] + [later];
      var (next, allowed) := IdealAllow(byKey, o, key, times[0]);
      WindowGoesOn(next, o, key, times[1..], later, resetAt, if allowed then used + 1 else used,
                   if i == 0 then 0 else i - 1);
      DeniedStays(byKey, o, key, times, later, i);
    }
  }

  /** Once denied within a window, always denied within it. */
  lemma DeniedStays(byKey: map<string, Window>, o: Options, key: string, times: seq<int>, later: int, i: nat)
    requires times != [] && key in byKey && Running(byKey, key, times[0])
    ensures IdealAllow(byKey, o, key, times[0]).1 <==> byKey[key].count < o.limit
  {
  }

  /** The answers to one key's requests. */
  function AnswersTo(byKey: map<string, Window>, o: Options, trace: seq<Request>, key: string): seq<bool>
    decreases |trace|
  {
    if trace == [] then []
    else
      var (next, allowed) := IdealAllow(byKey, o, trace[0].key, trace[0].now);
      (if trace[0].key == key then [allowed] else []) + AnswersTo(next, o, trace[1..], key)
  }

  function TimesOf(trace: seq<Request>, key: string): seq<int> {
    if trace == [] then [] else (if trace[0].key == key then [trace[0].now] else []) + TimesOf(trace[1..], key)
  }

  /** The unbounded limiter answers a key's requests as if there were no others. */
  lemma {:induction false} KeysAreApart(byKey: map<string, Window>, alone: map<string, Window>, o: Options,
                                        trace: seq<Request>, key: string)
    requires key in byKey <==> key in alone
    requires key in byKey ==> byKey[key] == alone[key]
    ensures AnswersTo(byKey, o, trace, key) == IdealAnswers(alone, o, RequestsAt(key, TimesOf(trace, key)))
    decreases |trace|
  {
    if trace != [] {
      var Request(k, at) := trace[0];
      var next := IdealAllow(byKey, o, k, at).0;
      var times, rest := TimesOf(trace, key), TimesOf(trace[1..], key);
      if k == key {
        SameAnswer(byKey, alone, o, key, at);
        var aloneNext := IdealAllow(alone, o, key, at).0;
        hide IdealAllow;
        assert times == [at] + rest && times[1..] == rest;
        assert RequestsAt(key, times) == [Request(key, at)] + RequestsAt(key, rest);
        assert RequestsAt(key, times)[1..] == RequestsAt(key, rest);
        KeysAreApart(next, aloneNext, o, trace[1..], key);
      } else {
        OtherIdealRequest(byKey, o, trace[0], key);
        hide IdealAllow;
        assert times == [] + rest == rest;
        KeysAreApart(next, alone, o, trace[1..], key);
        var answers := AnswersTo(next, o, trace[1..], key);
        assert AnswersTo(byKey, o, trace, key) == [] + answers == answers;
      }
    }
  }

  /** A limiter looks at no window but that of the key. */
  lemma SameAnswer(a: map<string, Window>, b: map<string, Window>, o: Options, key: string, now: int)
    requires (key in a <==> key in b) && (key in a ==> a[key] == b[key])
    ensures IdealAllow(a, o, key, now).1 == IdealAllow(b, o, key, now).1
    ensures var x, y := IdealAllow(a, o, key, now).0, IdealAllow(b, o, key, now).0;
            (key in x <==> key in y) && (key in x ==> x[key] == y[key])
  {
  }

  ghost function RunningKeys(byKey: map<string, Window>, now: int): set<string> {
    set k | k in byKey && Running(byKey, k, now)
  }

  /** Whenever a window opens, fewer than the maximum (read as at least one) of other windows are running. */
  ghost predicate Roomy(byKey: map<string, Window>, o: Options, trace: seq<Request>)
    decreases |trace|
  {
    trace != [] ==>
      && (!Running(byKey, trace[0].key, trace[0].now) ==> |RunningKeys(byKey, trace[0].now)| < Max(1, o.maxTrackedKeys))
      && Roomy(IdealAllow(byKey, o, trace[0].key, trace[0].now).0, o, trace[1..])
  }

  /** The two limiters have the same running windows. */
  ghost predicate Agree(bounded: map<string, Window>, ideal: map<string, Window>, now: int) {
    forall k :: (Running(bounded, k, now) <==> Running(ideal, k, now))
      && (Running(bounded, k, now) ==> bounded[k] == ideal[k])
  }

  lemma {:induction false} CountDistinct(order: seq<string>, keys: set<string>)
    requires Distinct(order) && forall k :: k in order <==> k in keys
    ensures |order| == |keys|
    decreases |order|
  {
    if order == [] {
      assert keys == {};
    } else {
      assert Distinct(order[1..]) && order[0] !in order[1..];
      assert order == [order[0]] + order[1..];
      CountDistinct(order[1..], keys - {order[0]});
    }
  }

  lemma StepRefines(w: Windows, ideal: map<string, Window>, o: Options, key: string, now: int)
    requires WellFormed(w) && Agree(w.byKey, ideal, now)
    requires !Running(ideal, key, now) ==> |RunningKeys(ideal, now)| < Max(1, o.maxTrackedKeys)
    ensures Allow(w, o, key, now).1 == IdealAllow(ideal, o, key, now).1
    ensures WellFormed(Allow(w, o, key, now).0)
    ensures Agree(Allow(w, o, key, now).0.byKey, IdealAllow(ideal, o, key, now).0, now)
  {
    hide Room, LiveKeys, WellFormed, RunningKeys;
    assert Running(w.byKey, key, now) <==> Running(ideal, key, now);
    if !Running(w.byKey, key, now) {
      RoomAgrees(w, ideal, o, key, now);
    } else {
      CountingKeepsForm(w, key, w.byKey[key].(count := w.byKey[key].count + 1));
    }
  }

  /** Making room keeps every running window when there are fewer of them than may be tracked. */
  lemma RoomAgrees(w: Windows, ideal: map<string, Window>, o: Options, key: string, now: int)
    requires WellFormed(w) && Agree(w.byKey, ideal, now) && |RunningKeys(ideal, now)| < Max(1, o.maxTrackedKeys)
    ensures Agree(Room(w, o, now).byKey, ideal, now)
    ensures WellFormed(Set(Room(w, o, now), key, Window(1, now + o.windowMs)))
  {
    hide Room, LiveKeys;
    LiveKeysFacts(w.order, w.byKey, now);
    CountDistinct(LiveKeys(w.order, w.byKey, now), RunningKeys(ideal, now));
    RoomFacts(w, o, key, now);
    SetFacts(Room(w, o, now), key, Window(1, now + o.windowMs));
  }

  lemma CountingKeepsForm(w: Windows, key: string, window: Window)
    requires WellFormed(w) && key in w.byKey
    ensures WellFormed(w.(byKey := w.byKey[key := window]))
  {
  }

  /**
    On every trace in time order that leaves room, the bounded limiter answers exactly as the
    unbounded one, so sweeping expired windows cannot be observed.
   */
  lemma {:induction false} RefinesIdeal(w: Windows, ideal: map<string, Window>, o: Options, trace: seq<Request>,
                                        now: int)
    requires WellFormed(w) && Agree(w.byKey, ideal, now)
    requires Ordered(trace) && (trace != [] ==> now <= trace[0].now) && Roomy(ideal, o, trace)
    ensures Answers(w, o, trace) == IdealAnswers(ideal, o, trace)
    decreases |trace|
  {
    hide Allow, IdealAllow;
    if trace != [] {
      var Request(key, at) := trace[0];
      assert Agree(w.byKey, ideal, at);
      StepRefines(w, ideal, o, key, at);
      RefinesIdeal(Allow(w, o, key, at).0, IdealAllow(ideal, o, key, at).0, o, trace[1..], at);
    }
  }

  // When exactly the two limiters are the same

  /** The two limiters have the same running windows after every request. */
  ghost predicate AgreeThroughout(w: Windows, ideal: map<string, Window>, o: Options, trace: seq<Request>)
    decreases |trace|
  {
    trace != [] ==>
      var Request(key, at) := trace[0];
      var next, idealNext := Allow(w, o, key, at).0, IdealAllow(ideal, o, key, at).0;
      Agree(next.byKey, idealNext, at) && AgreeThroughout(next, idealNext, o, trace[1..])
  }

  /** They keep the same running windows on a trace in time order exactly if it leaves room whenever a window opens. */
  lemma {:induction false} RoomyExactly(w: Windows, ideal: map<string, Window>, o: Options, trace: seq<Request>,
                                        now: int)
    requires WellFormed(w) && Agree(w.byKey, ideal, now)
    requires Ordered(trace) && (trace != [] ==> now <= trace[0].now)
    ensures Roomy(ideal, o, trace) <==> AgreeThroughout(w, ideal, o, trace)
    decreases |trace|
  {
    hide Allow, IdealAllow;
    if trace != [] {
      var Request(key, at) := trace[0];
      assert Agree(w.byKey, ideal, at);
      if !Running(ideal, key, at) && |RunningKeys(ideal, at)| >= Max(1, o.maxTrackedKeys) {
        CrowdingDisagrees(w, ideal, o, key, at);
      } else {
        StepRefines(w, ideal, o, key, at);
        RoomyExactly(Allow(w, o, key, at).0, IdealAllow(ideal, o, key, at).0, o, trace[1..], at);
      }
    }
  }

  /** Opening a window with no room for it closes one that is running. */
  lemma CrowdingDisagrees(w: Windows, ideal: map<string, Window>, o: Options, key: string, now: int)
    requires WellFormed(w) && Agree(w.byKey, ideal, now)
    requires !Running(ideal, key, now) && |RunningKeys(ideal, now)| >= Max(1, o.maxTrackedKeys)
    ensures !Agree(Allow(w, o, key, now).0.byKey, IdealAllow(ideal, o, key, now).0, now)
  {
    var room := Room(w, o, now);
    RoomFacts(w, o, key, now);
    hide Room, MakeRoom;
    var kept := set k | k in room.order;
    CountDistinct(room.order, kept);
    if RunningKeys(ideal, now) <= kept {
      SubsetIsSmaller(RunningKeys(ideal, now), kept);
      assert false;
    }
    var lost :| lost in RunningKeys(ideal, now) && lost !in kept;
    assert Running(IdealAllow(ideal, o, key, now).0, lost, now);
  }

  lemma {:induction false} SubsetIsSmaller(a: set<string>, b: set<string>)
    requires a <= b
    ensures |a| <= |b|
  {
    assert b == a + (b - a) && a !! (b - a);
  }

  // One key

  /** No request makes room by evicting the key while its window is running. */
  ghost predicate Unevicted(w: Windows, o: Options, trace: seq<Request>, key: string)
    decreases |trace|
  {
    trace != [] ==>
      var next := Allow(w, o, trace[0].key, trace[0].now).0;
      (Running(w.byKey, key, trace[0].now) ==> key in next.byKey) && Unevicted(next, o, trace[1..], key)
  }

  /** One key has the same running window in both limiters, if any. */
  ghost predicate SameWindow(bounded: map<string, Window>, ideal: map<string, Window>, key: string, now: int) {
    (Running(bounded, key, now) <==> Running(ideal, key, now))
      && (Running(bounded, key, now) ==> bounded[key] == ideal[key])
  }

  /** After a request of any key a window is still the same exactly if it was not evicted while running. */
  lemma KeyStep(w: Windows, ideal: map<string, Window>, o: Options, request: Request, key: string)
    requires WellFormed(w) && SameWindow(w.byKey, ideal, key, request.now)
    ensures var (next, allowed) := Allow(w, o, request.key, request.now);
            var (idealNext, idealAllowed) := IdealAllow(ideal, o, request.key, request.now);
            && WellFormed(next)
            && (request.key == key ==> allowed == idealAllowed)
            && ((Running(w.byKey, key, request.now) ==> key in next.byKey)
                 <==> SameWindow(next.byKey, idealNext, key, request.now))
  {
    AllowKeepsForm(w, o, request.key, request.now);
    if request.key != key {
      OtherRequest(w, o, request, key);
      OtherIdealRequest(ideal, o, request, key);
      hide Allow, IdealAllow, WellFormed;
    } else {
      OwnRequest(w, ideal, o, key, request.now);
      hide Allow, IdealAllow, WellFormed;
    }
  }

  lemma AllowKeepsForm(w: Windows, o: Options, key: string, now: int)
    requires WellFormed(w)
    ensures WellFormed(Allow(w, o, key, now).0)
  {
    if !Running(w.byKey, key, now) {
      RoomFacts(w, o, key, now);
      SetFacts(Room(w, o, now), key, Window(1, now + o.windowMs));
    } else {
      CountingKeepsForm(w, key, w.byKey[key].(count := w.byKey[key].count + 1));
    }
    hide Room, WellFormed;
  }

  /** A request of another key leaves a window as it is, or evicts it. */
  lemma OtherRequest(w: Windows, o: Options, request: Request, key: string)
    requires WellFormed(w) && request.key != key
    ensures var next := Allow(w, o, request.key, request.now).0.byKey;
            key in next ==> key in w.byKey && next[key] == w.byKey[key]
  {
    RoomFacts(w, o, request.key, request.now);
    hide Room, WellFormed, LiveKeys, Distinct;
  }

  lemma OtherIdealRequest(ideal: map<string, Window>, o: Options, request: Request, key: string)
    requires request.key != key
    ensures var next := IdealAllow(ideal, o, request.key, request.now).0;
            (key in next <==> key in ideal) && (key in ideal ==> next[key] == ideal[key])
  {
  }

  /** A request of the key itself is answered, and changes its window, alike in both limiters. */
  lemma OwnRequest(w: Windows, ideal: map<string, Window>, o: Options, key: string, now: int)
    requires SameWindow(w.byKey, ideal, key, now)
    ensures var (next, allowed) := Allow(w, o, key, now);
            var (idealNext, idealAllowed) := IdealAllow(ideal, o, key, now);
            allowed == idealAllowed && key in next.byKey && SameWindow(next.byKey, idealNext, key, now)
  {
    hide Room;
  }

  /**
    A key that is not evicted while its window is running is answered as by the unbounded limiter,
    whatever happens to other keys.
   */
  lemma {:induction false} UnevictedAnswersAlike(w: Windows, ideal: map<string, Window>, o: Options,
                                                 trace: seq<Request>, key: string, now: int, i: nat)
    requires WellFormed(w) && SameWindow(w.byKey, ideal, key, now) && Unevicted(w, o, trace, key)
    requires Ordered(trace) && (trace != [] ==> now <= trace[0].now)
    requires i < |trace| && trace[i].key == key
    ensures i < |Answers(w, o, trace)| && i < |IdealAnswers(ideal, o, trace)|
    ensures Answers(w, o, trace)[i] == IdealAnswers(ideal, o, trace)[i]
    decreases |trace|
  {
    hide Allow, IdealAllow;
    var Request(k, at) := trace[0];
    KeyStep(w, ideal, o, trace[0], key);
    AnswerEach(w, o, trace);
    IdealAnswersEach(ideal, o, trace);
    if i > 0 {
      assert trace[1..][i - 1] == trace[i];
      UnevictedAnswersAlike(Allow(w, o, k, at).0, IdealAllow(ideal, o, k, at).0, o, trace[1..], key, at, i - 1);
    }
  }

  lemma {:induction false} AnswerEach(w: Windows, o: Options, trace: seq<Request>)
    ensures |Answers(w, o, trace)| == |trace|
    decreases |trace|
  {
    hide Allow;
    if trace != [] {
      AnswerEach(Allow(w, o, trace[0].key, trace[0].now).0, o, trace[1..]);
    }
  }

  lemma {:induction false} IdealAnswersEach(ideal: map<string, Window>, o: Options, trace: seq<Request>)
    ensures |IdealAnswers(ideal, o, trace)| == |trace|
    decreases |trace|
  {
    hide IdealAllow;
    if trace != [] {
      IdealAnswersEach(IdealAllow(ideal, o, trace[0].key, trace[0].now).0, o, trace[1..]);
    }
  }

  // What a caller can observe

  /** Several requests of one key at once. */
  function Burst(key: string, now: int, n: nat): seq<Request> {
    if n == 0 then [] else [Request(key, now)] + Burst(key, now, n - 1)
  }

  /**
    Now and after every request of the trace, any number of requests of the key would be answered
    alike by both limiters.
   */
  ghost predicate Indistinguishable(w: Windows, ideal: map<string, Window>, o: Options, trace: seq<Request>,
                                    key: string, now: int)
    decreases |trace|
  {
    && (forall n: nat :: Answers(w, o, Burst(key, now, n)) == IdealAnswers(ideal, o, Burst(key, now, n)))
    && (trace != [] ==>
          var Request(k, at) := trace[0];
          Indistinguishable(Allow(w, o, k, at).0, IdealAllow(ideal, o, k, at).0, o, trace[1..], key, at))
  }

  /** Both limiters treat one key alike exactly if it is never evicted while its window is running. */
  lemma {:induction false} UnevictedExactly(w: Windows, ideal: map<string, Window>, o: Options, trace: seq<Request>,
                                            key: string, now: int)
    requires WellFormed(w) && SameWindow(w.byKey, ideal, key, now) && Started(ideal)
    requires Ordered(trace) && (trace != [] ==> now <= trace[0].now)
    ensures Unevicted(w, o, trace, key) <==> Indistinguishable(w, ideal, o, trace, key, now)
    decreases |trace|
  {
    forall n: nat ensures Answers(w, o, Burst(key, now, n)) == IdealAnswers(ideal, o, Burst(key, now, n)) {
      BurstAlike(w, ideal, o, key, now, n);
    }
    if trace != [] {
      var Request(k, at) := trace[0];
      var next, idealNext := Allow(w, o, k, at).0, IdealAllow(ideal, o, k, at).0;
      hide Allow, IdealAllow, Answers, IdealAnswers, WellFormed, Started;
      KeyStep(w, ideal, o, trace[0], key);
      StaysStarted(ideal, o, k, at);
      if SameWindow(next.byKey, idealNext, key, at) {
        UnevictedExactly(next, idealNext, o, trace[1..], key, at);
      } else {
        EvictionShows(w, ideal, o, trace[0], key);
      }
    }
  }

  /** A window's first request has been counted. */
  ghost predicate Started(ideal: map<string, Window>) {
    forall k :: k in ideal ==> ideal[k].count >= 1
  }

  lemma StaysStarted(ideal: map<string, Window>, o: Options, key: string, now: int)
    requires Started(ideal)
    ensures Started(IdealAllow(ideal, o, key, now).0)
  {
  }

  lemma {:induction false} BurstAlike(w: Windows, ideal: map<string, Window>, o: Options, key: string, now: int, n: nat)
    requires WellFormed(w) && SameWindow(w.byKey, ideal, key, now)
    ensures Answers(w, o, Burst(key, now, n)) == IdealAnswers(ideal, o, Burst(key, now, n))
    decreases n
  {
    hide Allow, IdealAllow;
    if n > 0 {
      KeyStep(w, ideal, o, Request(key, now), key);
      OwnRequestKeeps(w, o, key, now);
      assert Burst(key, now, n)[1..] == Burst(key, now, n - 1);
      BurstAlike(Allow(w, o, key, now).0, IdealAllow(ideal, o, key, now).0, o, key, now, n - 1);
    }
  }

  lemma OwnRequestKeeps(w: Windows, o: Options, key: string, now: int)
    ensures key in Allow(w, o, key, now).0.byKey
  {
    hide Room;
  }

  /**
    A window evicted while running shows at once: the key is allowed as many requests as in a fresh
    window, the last of which the unbounded limiter denies.
   */
  lemma EvictionShows(w: Windows, ideal: map<string, Window>, o: Options, request: Request, key: string)
    requires WellFormed(w) && SameWindow(w.byKey, ideal, key, request.now) && Started(ideal)
    requires var next, idealNext :=
      Allow(w, o, request.key, request.now).0, IdealAllow(ideal, o, request.key, request.now).0;
             !SameWindow(next.byKey, idealNext, key, request.now)
    ensures var next, idealNext :=
      Allow(w, o, request.key, request.now).0, IdealAllow(ideal, o, request.key, request.now).0;
            var burst := Burst(key, request.now, Max(1, o.limit));
            Answers(next, o, burst) != IdealAnswers(idealNext, o, burst)
  {
    var at, n := request.now, Max(1, o.limit);
    var next, idealNext := Allow(w, o, request.key, at).0, IdealAllow(ideal, o, request.key, at).0;
    KeyStep(w, ideal, o, request, key);
    Evicted(w, ideal, o, request, key);
    hide Allow, IdealAllow;
    AllAllowed(next, o, key, at, n);
    LastDenied(idealNext, o, key, at, n);
  }

  /** A window that differs is gone in the bounded limiter and running in the other. */
  lemma Evicted(w: Windows, ideal: map<string, Window>, o: Options, request: Request, key: string)
    requires WellFormed(w) && SameWindow(w.byKey, ideal, key, request.now) && Started(ideal)
    requires Running(w.byKey, key, request.now) && key !in Allow(w, o, request.key, request.now).0.byKey
    ensures var idealNext := IdealAllow(ideal, o, request.key, request.now).0;
            Running(idealNext, key, request.now) && idealNext[key].count >= 1
  {
    OwnRequestKeeps(w, o, request.key, request.now);
  }

  lemma {:induction false} AllAllowed(w: Windows, o: Options, key: string, now: int, n: nat)
    requires if Running(w.byKey, key, now) then n == 0 || w.byKey[key].count + n <= o.limit else n <= Max(1, o.limit)
    ensures |Answers(w, o, Burst(key, now, n))| == n
    ensures forall i :: 0 <= i < n ==> Answers(w, o, Burst(key, now, n))[i]
    decreases n
  {
    hide Room;
    if n > 0 {
      assert Burst(key, now, n)[1..] == Burst(key, now, n - 1);
      AllAllowed(Allow(w, o, key, now).0, o, key, now, n - 1);
    }
  }

  lemma {:induction false} LastDenied(ideal: map<string, Window>, o: Options, key: string, now: int, n: nat)
    requires n >= 1 && Running(ideal, key, now) && ideal[key].count + n - 1 >= o.limit
    ensures |IdealAnswers(ideal, o, Burst(key, now, n))| == n && !IdealAnswers(ideal, o, Burst(key, now, n))[n - 1]
    decreases n
  {
    assert Burst(key, now, n)[1..] == Burst(key, now, n - 1);
    if n > 1 {
      LastDenied(IdealAllow(ideal, o, key, now).0, o, key, now, n - 1);
    } else {
      assert IdealAnswers(IdealAllow(ideal, o, key, now).0, o, []) == [];
    }
  }

  /**
    From the start, nothing any caller may ask tells the two limiters apart exactly if the trace
    leaves room whenever a window opens.
   */
  lemma RoomyIsObservable(o: Options, trace: seq<Request>, now: int)
    requires Ordered(trace) && (trace != [] ==> now <= trace[0].now)
    ensures Roomy(map[], o, trace) <==> forall key :: Indistinguishable(EMPTY, map[], o, trace, key, now)
  {
    RoomyExactly(EMPTY, map[], o, trace, now);
    if Roomy(map[], o, trace) {
      forall key ensures Indistinguishable(EMPTY, map[], o, trace, key, now) {
        AgreementEvictsNone(EMPTY, map[], o, trace, key, now);
        UnevictedExactly(EMPTY, map[], o, trace, key, now);
      }
    } else {
      var key := DisagreementEvicts(EMPTY, map[], o, trace, now);
      UnevictedExactly(EMPTY, map[], o, trace, key, now);
    }
  }

  /** While the running windows agree no key is evicted while its window is running. */
  lemma {:induction false} AgreementEvictsNone(w: Windows, ideal: map<string, Window>, o: Options,
                                               trace: seq<Request>, key: string, now: int)
    requires WellFormed(w) && Agree(w.byKey, ideal, now) && AgreeThroughout(w, ideal, o, trace)
    requires Ordered(trace) && (trace != [] ==> now <= trace[0].now)
    ensures Unevicted(w, o, trace, key)
    decreases |trace|
  {
    hide Allow, IdealAllow, WellFormed;
    if trace != [] {
      var Request(k, at) := trace[0];
      assert SameWindow(w.byKey, ideal, key, at);
      KeyStep(w, ideal, o, trace[0], key);
      AgreementEvictsNone(Allow(w, o, k, at).0, IdealAllow(ideal, o, k, at).0, o, trace[1..], key, at);
    }
  }

  /** Once they do not agree some key has been. */
  lemma {:induction false} DisagreementEvicts(w: Windows, ideal: map<string, Window>, o: Options, trace: seq<Request>,
                                              now: int)
    returns (key: string)
    requires WellFormed(w) && Agree(w.byKey, ideal, now) && !AgreeThroughout(w, ideal, o, trace)
    requires Ordered(trace) && (trace != [] ==> now <= trace[0].now)
    ensures !Unevicted(w, o, trace, key)
    decreases |trace|
  {
    hide Allow, IdealAllow, WellFormed;
    var Request(k, at) := trace[0];
    var next, idealNext := Allow(w, o, k, at).0, IdealAllow(ideal, o, k, at).0;
    AllowKeepsForm(w, o, k, at);
    if Agree(next.byKey, idealNext, at) {
      key := DisagreementEvicts(next, idealNext, o, trace[1..], at);
    } else {
      key :| if Running(next.byKey, key, at) then !Running(idealNext, key, at) || next.byKey[key] != idealNext[key]
             else Running(idealNext, key, at);
      assert SameWindow(w.byKey, ideal, key, at);
      KeyStep(w, ideal, o, trace[0], key);
    }
  }

  /** Without room an evicted key gets a fresh allowance, where the unbounded limiter would deny it. */
  lemma EvictionAllowsMore()
    ensures var o := Options(1, 10, 1);
            var trace := [Request("a", 0), Request("b", 1), Request("a", 2)];
            Answers(EMPTY, o, trace) == [true, true, true] && IdealAnswers(map[], o, trace) == [true, true, false]
  {
  }

  /** And it gets a later window, which can deny it where the unbounded limiter would allow it. */
  lemma EvictionAllowsLess()
    ensures var o := Options(1, 10, 1);
            var trace := [Request("a", 0), Request("b", 5), Request("a", 6), Request("a", 11)];
            Answers(EMPTY, o, trace)[3] == false && IdealAnswers(map[], o, trace)[3] == true
  {
  }

  // Acceptances in an interval

  /** The requests of one key accepted at times from `from` up to but not including `until`. */
  function Accepted(w: Windows, o: Options, trace: seq<Request>, key: string, from: int, until: int): nat
    decreases |trace|
  {
    if trace == [] then 0
    else
      var (next, allowed) := Allow(w, o, trace[0].key, trace[0].now);
      (if allowed && trace[0].key == key && from <= trace[0].now < until then 1 else 0)
        + Accepted(next, o, trace[1..], key, from, until)
  }

  /** What the key's running window still allows. */
  function Remaining(w: Windows, o: Options, key: string, now: int): nat {
    if Running(w.byKey, key, now) && w.byKey[key].count < o.limit then o.limit - w.byKey[key].count else 0
  }

  lemma OneRequest(w: Windows, o: Options, request: Request, key: string)
    requires WellFormed(w)
    requires Running(w.byKey, key, request.now) ==> key in Allow(w, o, request.key, request.now).0.byKey
    ensures var (next, allowed) := Allow(w, o, request.key, request.now);
            && WellFormed(next)
            && (Running(w.byKey, key, request.now) ==>
                  && Running(next.byKey, key, request.now)
                  && next.byKey[key].resetAt == w.byKey[key].resetAt
                  && Remaining(next, o, key, request.now)
                     == Remaining(w, o, key, request.now) - (if request.key == key && allowed then 1 else 0))
            && (!Running(w.byKey, key, request.now) && request.key == key ==>
                  allowed && key in next.byKey && next.byKey[key] == Window(1, request.now + o.windowMs))
            && (!Running(w.byKey, key, request.now) && request.key != key ==> !Running(next.byKey, key, request.now))
  {
    hide Room;
    if !Running(w.byKey, request.key, request.now) {
      RoomFacts(w, o, request.key, request.now);
      SetFacts(Room(w, o, request.now), request.key, Window(1, request.now + o.windowMs));
    }
  }

  lemma {:induction false} NothingLater(w: Windows, o: Options, trace: seq<Request>, key: string, from: int, until: int)
    requires forall i :: 0 <= i < |trace| ==> trace[i].now >= until
    ensures Accepted(w, o, trace, key, from, until) == 0
    decreases |trace|
  {
    hide Allow;
    if trace != [] {
      NothingLater(Allow(w, o, trace[0].key, trace[0].now).0, o, trace[1..], key, from, until);
    }
  }

  /** As long as one window covers the rest of the interval, what it still allows is all there is. */
  lemma {:induction false} WithinOneWindow(w: Windows, o: Options, trace: seq<Request>, key: string, from: int,
                                           until: int, now: int)
    requires WellFormed(w) && Ordered(trace) && Unevicted(w, o, trace, key)
    requires forall i :: 0 <= i < |trace| ==> now <= trace[i].now
    requires Running(w.byKey, key, now) && w.byKey[key].resetAt >= until
    ensures Accepted(w, o, trace, key, from, until) <= Remaining(w, o, key, now)
    decreases |trace|
  {
    hide Allow;
    if trace != [] {
      var Request(k, at) := trace[0];
      if at >= until {
        NothingLater(w, o, trace, key, from, until);
      } else {
        OneRequest(w, o, trace[0], key);
        WithinOneWindow(Allow(w, o, k, at).0, o, trace[1..], key, from, until, at);
      }
    }
  }

  /**
    In an interval no longer than the window there is room for what the running window allows plus
    one whole window.
   */
  lemma {:induction false} WithinTwoWindows(w: Windows, o: Options, trace: seq<Request>, key: string, from: int,
                                            until: int, now: int)
    requires WellFormed(w) && Ordered(trace) && Unevicted(w, o, trace, key)
    requires forall i :: 0 <= i < |trace| ==> now <= trace[i].now
    requires from <= now && until <= from + o.windowMs
    ensures Accepted(w, o, trace, key, from, until) <= Remaining(w, o, key, now) + Max(1, o.limit)
    decreases |trace|
  {
    hide Allow;
    if trace != [] {
      var Request(k, at) := trace[0];
      if at >= until {
        NothingLater(w, o, trace, key, from, until);
      } else {
        OneRequest(w, o, trace[0], key);
        var next := Allow(w, o, k, at).0;
        if !Running(w.byKey, key, at) && k == key {
          WithinOneWindow(next, o, trace[1..], key, from, until, at);
        } else {
          WithinTwoWindows(next, o, trace[1..], key, from, until, at);
        }
      }
    }
  }

  lemma {:induction false} NothingEarlier(w: Windows, o: Options, trace: seq<Request>, key: string, from: int,
                                          until: int)
    requires WellFormed(w) && Ordered(trace) && Unevicted(w, o, trace, key)
    requires until <= from + o.windowMs
    requires forall k :: k in w.byKey ==> 1 <= w.byKey[k].count <= Max(1, o.limit)
    requires |w.order| <= Max(1, o.maxTrackedKeys)
    ensures Accepted(w, o, trace, key, from, until) <= 2 * Max(1, o.limit) - 1
    decreases |trace|
  {
    hide Allow;
    if trace != [] {
      if trace[0].now >= from {
        WithinTwoWindows(w, o, trace, key, from, until, trace[0].now);
        StartingRemainder(w, o, key, trace[0].now);
      } else {
        OneRequest(w, o, trace[0], key);
        AllowKeepsBounded(w, o, trace[0].key, trace[0].now);
        NothingEarlier(Allow(w, o, trace[0].key, trace[0].now).0, o, trace[1..], key, from, until);
      }
    }
  }

  /** A window that is running has already counted its first request. */
  lemma StartingRemainder(w: Windows, o: Options, key: string, now: int)
    requires forall k :: k in w.byKey ==> 1 <= w.byKey[k].count
    ensures Remaining(w, o, key, now) <= Max(1, o.limit) - 1
  {
  }

  /**
    On any trace in time order, from an empty map, a key that is never evicted while its window is
    running has at most twice the limit less one of its requests accepted within any window length.
   */
  lemma TwiceTheLimit(o: Options, trace: seq<Request>, key: string, from: int)
    requires Ordered(trace) && Unevicted(EMPTY, o, trace, key)
    ensures Accepted(EMPTY, o, trace, key, from, from + o.windowMs) <= 2 * Max(1, o.limit) - 1
  {
    NothingEarlier(EMPTY, o, trace, key, from, from + o.windowMs);
  }
}
