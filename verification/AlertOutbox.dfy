/**
 The alert outbox: one row per sink and event scope, attempted when due, retried with exponential delays, and
 dead-lettered after the fifth failure.
 */
module AlertOutbox {
  import opened Numbers
  import opened Wrappers

  const MAX_ATTEMPTS: nat := 5
  const FIRST_DELAY: nat := 15
  const LONGEST_DELAY: nat := 900

  datatype Sink = Wazuh | DfirIris

  datatype Status = Pending | Delivered | DeadLetter

  datatype Alert = Alert(sink: Sink, scope: string, status: Status, attempts: nat, nextAttemptAt: real,
                         lastError: Option<string>, deliveredAt: Option<real>)

  type Rows = seq<Alert>

  // ---------- Steps ----------

  /** How long the row rests after its failed attempt number `attempts`. */
  function Delay(attempts: nat): nat
    requires attempts >= 1
  {
    var delay := FIRST_DELAY * Pow2(attempts - 1);
    if delay < LONGEST_DELAY then delay else LONGEST_DELAY
  }

  predicate HasKey(rows: Rows, sink: Sink, scope: string) {
    exists i :: 0 <= i < |rows| && rows[i].sink == sink && rows[i].scope == scope
  }

  function Fresh(sink: Sink, scope: string, now: real): Alert {
    Alert(sink, scope, Pending, 0, now, None, None)
  }

  function Enqueued(rows: Rows, sink: Sink, scope: string, now: real): Rows {
    if HasKey(rows, sink, scope) then rows else rows + [Fresh(sink, scope, now)]
  }

  predicate IsDue(a: Alert, now: real) {
    a.status.Pending? && a.nextAttemptAt <= now
  }

  /** The row the dispatcher takes: due, and no due row was due earlier. */
  predicate IsNext(rows: Rows, i: nat, now: real) {
    i < |rows| && IsDue(rows[i], now) &&
    forall j :: 0 <= j < |rows| && IsDue(rows[j], now) ==> rows[i].nextAttemptAt <= rows[j].nextAttemptAt
  }

  /** One attempt; `error` is the name of the error, when there is one. */
  function Attempted(a: Alert, error: Option<string>, now: real): Alert {
    var tried := a.(attempts := a.attempts + 1);
    match error
    case None => tried.(status := Delivered, deliveredAt := Some(now), lastError := None)
    case Some(_) =>
      if tried.attempts >= MAX_ATTEMPTS then tried.(status := DeadLetter, lastError := error)
      else tried.(nextAttemptAt := now + Delay(tried.attempts) as real, lastError := error)
  }

  datatype Event = Enqueue(sink: Sink, scope: string, at: real) | Dispatch(row: nat, error: Option<string>, at: real)

  predicate Allowed(rows: Rows, e: Event) {
    e.Dispatch? ==> IsNext(rows, e.row, e.at)
  }

  function Step(rows: Rows, e: Event): Rows {
    match e
    case Enqueue(sink, scope, at) => Enqueued(rows, sink, scope, at)
    case Dispatch(i, error, at) => if i < |rows| then rows[i := Attempted(rows[i], error, at)] else rows
  }

  // ---------- Runs ----------

  function After(start: Rows, events: seq<Event>): Rows {
    if events == [] then start else Step(After(start, events[..|events| - 1]), events[|events| - 1])
  }

  /** Every dispatch of the run takes the next due row; the clock may do what it likes. */
  predicate AllAllowed(start: Rows, events: seq<Event>) {
    events == [] ||
    (AllAllowed(start, events[..|events| - 1]) && Allowed(After(start, events[..|events| - 1]), events[|events| - 1]))
  }

  predicate Runs(start: Rows, events: seq<Event>, end: Rows) {
    AllAllowed(start, events) && After(start, events) == end
  }

  lemma OneMoreEvent(start: Rows, events: seq<Event>, e: Event)
    requires AllAllowed(start, events) && Allowed(After(start, events), e)
    ensures Runs(start, events + [e], Step(After(start, events), e))
  {
    assert (events + [e])[..|events|] == events;
  }

  /** Two runs, one where the other ended, are one run. */
  lemma {:induction false} RunsJoin(start: Rows, first: seq<Event>, middle: Rows, second: seq<Event>, end: Rows)
    requires Runs(start, first, middle) && Runs(middle, second, end)
    ensures Runs(start, first + second, end)
  {
    if second == [] {
      assert first + second == first;
    } else {
      var n := |second| - 1;
      RunsJoin(start, first, middle, second[..n], After(middle, second[..n]));
      hide Step, Allowed;
      OneMoreEvent(start, first + second[..n], second[n]);
      assert first + second == first + second[..n] + [second[n]];
    }
  }

  /** When the row was attempted. */
  function Tries(events: seq<Event>, i: nat): seq<real> {
    if events == [] then []
    else
      var last := events[|events| - 1];
      Tries(events[..|events| - 1], i) + if last.Dispatch? && last.row == i then [last.at] else []
  }

  /** Each attempt waits out the delay after the one before. */
  predicate Spaced(tries: seq<real>) {
    forall k :: 0 <= k < |tries| - 1 ==> tries[k + 1] - tries[k] >= Delay(k + 1) as real
  }

  predicate RowInv(a: Alert, tries: seq<real>) {
    && a.attempts == |tries| && Spaced(tries)
    && match a.status
       case Pending =>
         |tries| < MAX_ATTEMPTS && (tries != [] ==> a.nextAttemptAt == tries[|tries| - 1] + Delay(|tries|) as real)
       case Delivered => 1 <= |tries| <= MAX_ATTEMPTS && a.deliveredAt == Some(tries[|tries| - 1])
       case DeadLetter => |tries| == MAX_ATTEMPTS
  }

  ghost predicate Inv(rows: Rows, events: seq<Event>) {
    && (forall i :: 0 <= i < |rows| ==> RowInv(rows[i], Tries(events, i)))
    && (forall i :: |rows| <= i ==> Tries(events, i) == [])
    && DistinctKeys(rows)
  }

  predicate DistinctKeys(rows: Rows) {
    forall i, j :: 0 <= i < j < |rows| ==> rows[i].sink != rows[j].sink || rows[i].scope != rows[j].scope
  }

  lemma AttemptKeepsRowInv(a: Alert, tries: seq<real>, error: Option<string>, now: real)
    requires RowInv(a, tries) && IsDue(a, now)
    ensures RowInv(Attempted(a, error, now), tries + [now])
  {
    hide Delay;
    var tries' := tries + [now];
    assert forall k :: 0 <= k < |tries| ==> tries'[k] == tries[k];
  }

  lemma TriesAfter(events: seq<Event>, e: Event, i: nat)
    ensures Tries(events + [e], i) == Tries(events, i) + if e.Dispatch? && e.row == i then [e.at] else []
  {
    assert (events + [e])[..|events|] == events;
  }

  lemma DispatchKeepsInv(rows: Rows, events: seq<Event>, e: Event)
    requires Inv(rows, events) && Allowed(rows, e) && e.Dispatch?
    ensures Inv(Step(rows, e), events + [e])
  {
    var rows' := Step(rows, e);
    AttemptKeepsRowInv(rows[e.row], Tries(events, e.row), e.error, e.at);
    hide RowInv, Tries;
    forall i | 0 <= i < |rows'|
      ensures RowInv(rows'[i], Tries(events + [e], i))
    {
      TriesAfter(events, e, i);
      assert RowInv(rows[i], Tries(events, i));
    }
    forall i | |rows'| <= i
      ensures Tries(events + [e], i) == []
    {
      TriesAfter(events, e, i);
    }
  }

  lemma EnqueueKeepsInv(rows: Rows, events: seq<Event>, e: Event)
    requires Inv(rows, events) && e.Enqueue?
    ensures Inv(Step(rows, e), events + [e])
  {
    var rows' := Step(rows, e);
    FreshRowInv(e.sink, e.scope, e.at);
    hide RowInv, Tries, Fresh;
    forall i | 0 <= i < |rows'|
      ensures RowInv(rows'[i], Tries(events + [e], i))
    {
      TriesAfter(events, e, i);
      assert i < |rows| ==> RowInv(rows[i], Tries(events, i));
    }
    forall i | |rows'| <= i
      ensures Tries(events + [e], i) == []
    {
      TriesAfter(events, e, i);
    }
    EnqueueKeepsKeysDistinct(rows, e.sink, e.scope, e.at);
  }

  lemma EnqueueKeepsKeysDistinct(rows: Rows, sink: Sink, scope: string, now: real)
    requires DistinctKeys(rows)
    ensures DistinctKeys(Enqueued(rows, sink, scope, now))
  {
  }

  lemma FreshRowInv(sink: Sink, scope: string, now: real)
    ensures RowInv(Fresh(sink, scope, now), [])
  {
  }

  /** What holds of every row in every reachable state. */
  lemma {:induction false} RunKeepsInv(events: seq<Event>, end: Rows)
    requires Runs([], events, end)
    ensures Inv(end, events)
  {
    if events != [] {
      var n := |events| - 1;
      var before := After([], events[..n]);
      RunKeepsInv(events[..n], before);
      if events[n].Enqueue? {
        EnqueueKeepsInv(before, events[..n], events[n]);
      } else {
        DispatchKeepsInv(before, events[..n], events[n]);
      }
      assert events[..n] + [events[n]] == events;
    }
  }

  /** Attempts are counted, a pending row has some left, and a delivered one was delivered by its last attempt. */
  lemma AttemptsAreCounted(events: seq<Event>, end: Rows, i: nat)
    requires Runs([], events, end) && i < |end|
    ensures end[i].attempts == |Tries(events, i)| <= MAX_ATTEMPTS
    ensures end[i].status.Pending? ==> end[i].attempts < MAX_ATTEMPTS
    ensures end[i].status.Delivered? ==>
              end[i].attempts >= 1 && end[i].deliveredAt == Some(Tries(events, i)[end[i].attempts - 1])
  {
    RunKeepsInv(events, end);
    assert RowInv(end[i], Tries(events, i));
  }

  // ---------- What the sinks answered ----------

  /** The errors of the row's attempts, in order; none where the sink took the alert. */
  function Answers(events: seq<Event>, i: nat): seq<Option<string>> {
    if events == [] then []
    else
      var last := events[|events| - 1];
      Answers(events[..|events| - 1], i) + if last.Dispatch? && last.row == i then [last.error] else []
  }

  /** The first `n` attempts all failed. */
  predicate AllFailed(answers: seq<Option<string>>, n: nat)
    requires n <= |answers|
  {
    forall k :: 0 <= k < n ==> answers[k].Some?
  }

  /** The row says what its attempts were answered. */
  predicate SaysAnswers(a: Alert, answers: seq<Option<string>>) {
    var n := |answers|;
    && n <= 5 && (n > 0 ==> AllFailed(answers, n - 1))
    && (a.status.Delivered? <==> n > 0 && answers[n - 1].None?)
    && (a.status.DeadLetter? <==> n == 5 && answers[n - 1].Some?)
    && a.lastError == if n == 0 then None else answers[n - 1]
  }

  lemma {:induction false} AnswersAreTries(events: seq<Event>, i: nat)
    ensures |Answers(events, i)| == |Tries(events, i)|
  {
    if events != [] {
      AnswersAreTries(events[..|events| - 1], i);
    }
  }

  lemma AnswerIsTold(a: Alert, answers: seq<Option<string>>, error: Option<string>, now: real)
    requires SaysAnswers(a, answers) && a.status.Pending? && a.attempts == |answers|
    ensures SaysAnswers(Attempted(a, error, now), answers + [error])
  {
    hide Delay;
    var more := answers + [error];
    assert forall k :: 0 <= k < |answers| ==> more[k] == answers[k];
  }

  /**
   In every run a row was delivered exactly if its last attempt met no error, was given up exactly after five attempts
   that all did, and shows the error of its last attempt.
   */
  lemma {:induction false} RowsSayTheirAnswers(events: seq<Event>, end: Rows, i: nat)
    requires Runs([], events, end) && i < |end|
    ensures SaysAnswers(end[i], Answers(events, i))
  {
    var n := |events| - 1;
    var rest, e := events[..n], events[n];
    var before := After([], rest);
    hide SaysAnswers, Step;
    AttemptsAreAnswers(rest, before, i);
    if i < |before| {
      RowsSayTheirAnswers(rest, before, i);
      StepSaysAnswers(before, e, i, Answers(rest, i));
    } else {
      NewRowSaysNothing(before, e, i);
      NoAnswersYet(rest, e, i);
      assert rest + [e] == events;
    }
  }

  lemma AttemptsAreAnswers(events: seq<Event>, end: Rows, i: nat)
    requires Runs([], events, end)
    ensures if i < |end| then end[i].attempts == |Answers(events, i)| else Answers(events, i) == []
  {
    RunKeepsInv(events, end);
    AnswersAreTries(events, i);
    hide Answers, Tries, Runs;
    assert i < |end| ==> RowInv(end[i], Tries(events, i));
  }

  lemma StepSaysAnswers(rows: Rows, e: Event, i: nat, answers: seq<Option<string>>)
    requires i < |rows| && Allowed(rows, e) && SaysAnswers(rows[i], answers) && rows[i].attempts == |answers|
    ensures i < |Step(rows, e)|
    ensures SaysAnswers(Step(rows, e)[i], answers + if e.Dispatch? && e.row == i then [e.error] else [])
  {
    hide SaysAnswers, Attempted;
    if e.Dispatch? && e.row == i {
      AnswerIsTold(rows[i], answers, e.error, e.at);
    } else {
      assert answers + [] == answers;
    }
  }

  lemma NewRowSaysNothing(rows: Rows, e: Event, i: nat)
    requires |rows| <= i < |Step(rows, e)|
    ensures e.Enqueue? && SaysAnswers(Step(rows, e)[i], [])
  {
    hide SaysAnswers, Fresh;
    if e.Enqueue? {
      FreshSaysNothing(e.sink, e.scope, e.at);
    }
  }

  lemma NoAnswersYet(events: seq<Event>, e: Event, i: nat)
    requires Answers(events, i) == [] && e.Enqueue?
    ensures Answers(events + [e], i) == []
  {
    assert (events + [e])[..|events|] == events;
  }

  lemma FreshSaysNothing(sink: Sink, scope: string, at: real)
    ensures SaysAnswers(Fresh(sink, scope, at), [])
  {
  }

  /** When a pending row is due: at once when it was queued, then 15, 30, 60 and 120 seconds after its attempts. */
  predicate DueAsPlanned(a: Alert, tries: seq<real>, events: seq<Event>) {
    match |tries|
    case 0 => exists k :: 0 <= k < |events| && events[k] == Enqueue(a.sink, a.scope, a.nextAttemptAt)
    case 1 => a.nextAttemptAt == tries[0] + 15.0
    case 2 => a.nextAttemptAt == tries[1] + 30.0
    case 3 => a.nextAttemptAt == tries[2] + 60.0
    case 4 => a.nextAttemptAt == tries[3] + 120.0
    case _ => false
  }

  lemma {:induction false} UntriedRowsAreDueAtOnce(events: seq<Event>, end: Rows, i: nat)
    requires Runs([], events, end) && i < |end| && Tries(events, i) == []
    ensures exists k :: 0 <= k < |events| && events[k] == Enqueue(end[i].sink, end[i].scope, end[i].nextAttemptAt)
  {
    var n := |events| - 1;
    var before, e := After([], events[..n]), events[n];
    if i < |before| {
      UntriedRowsAreDueAtOnce(events[..n], before, i);
      assert end[i] == before[i];
      var k :| 0 <= k < n && events[..n][k] == Enqueue(before[i].sink, before[i].scope, before[i].nextAttemptAt);
      assert events[k] == Enqueue(end[i].sink, end[i].scope, end[i].nextAttemptAt);
    } else {
      assert events[n] == Enqueue(end[i].sink, end[i].scope, end[i].nextAttemptAt);
    }
  }

  /** In every run each pending row is due as planned. */
  lemma PendingRowsAreDueAsPlanned(events: seq<Event>, end: Rows, i: nat)
    requires Runs([], events, end) && i < |end| && end[i].status.Pending?
    ensures DueAsPlanned(end[i], Tries(events, i), events)
  {
    RunKeepsInv(events, end);
    assert RowInv(end[i], Tries(events, i));
    assert Pow2(1) == 2 && Pow2(2) == 4 && Pow2(3) == 8;
    if Tries(events, i) == [] {
      UntriedRowsAreDueAtOnce(events, end, i);
    }
    hide Runs, Inv, Tries, Spaced;
  }

  /** A dead letter was attempted exactly five times, over at least 225 seconds. */
  lemma DeadLettersHadFiveTries(events: seq<Event>, end: Rows, i: nat)
    requires Runs([], events, end) && i < |end| && end[i].status.DeadLetter?
    ensures |Tries(events, i)| == 5 && Tries(events, i)[4] - Tries(events, i)[0] >= 225.0
  {
    RunKeepsInv(events, end);
    assert RowInv(end[i], Tries(events, i));
    DelaysAddUp(Tries(events, i));
  }

  lemma DelaysAddUp(tries: seq<real>)
    requires Spaced(tries) && |tries| == 5
    ensures tries[4] - tries[0] >= 225.0
  {
    assert Pow2(1) == 2 && Pow2(2) == 4 && Pow2(3) == 8;
    assert tries[0 + 1] - tries[0] >= 15.0 && tries[1 + 1] - tries[1] >= 30.0;
    assert tries[2 + 1] - tries[2] >= 60.0 && tries[3 + 1] - tries[3] >= 120.0;
  }

  /** Delivered and dead-lettered rows never change again, and no row is ever removed. */
  lemma {:induction false} FinalRowsAreFinal(start: Rows, events: seq<Event>, end: Rows, i: nat)
    requires Runs(start, events, end) && i < |start|
    ensures |start| <= |end| && end[i].sink == start[i].sink && end[i].scope == start[i].scope
    ensures !start[i].status.Pending? ==> end[i] == start[i]
  {
    if events != [] {
      var n := |events| - 1;
      var before := After(start, events[..n]);
      FinalRowsAreFinal(start, events[..n], before, i);
    }
  }

  /** One row per sink and scope: enqueueing again changes nothing. */
  lemma OneRowPerKey(events: seq<Event>, end: Rows, sink: Sink, scope: string, now: real)
    requires Runs([], events, end)
    ensures DistinctKeys(end)
    ensures HasKey(Enqueued(end, sink, scope, now), sink, scope)
    ensures forall later :: Enqueued(Enqueued(end, sink, scope, now), sink, scope, later) ==
              Enqueued(end, sink, scope, now)
  {
    RunKeepsInv(events, end);
    var more := end + [Fresh(sink, scope, now)];
    assert more[|end|].sink == sink && more[|end|].scope == scope;
  }

  // ---------- Progress ----------

  function Left(a: Alert): nat {
    if a.status.Pending? && a.attempts < MAX_ATTEMPTS then MAX_ATTEMPTS - a.attempts else 0
  }

  function Work(rows: Rows): nat {
    if rows == [] then 0 else Work(rows[..|rows| - 1]) + Left(rows[|rows| - 1])
  }

  lemma {:induction false} WorkOfUpdate(rows: Rows, i: nat, a: Alert)
    requires i < |rows|
    ensures Work(rows[i := a]) == Work(rows) - Left(rows[i]) + Left(a)
  {
    var n := |rows| - 1;
    var rows' := rows[i := a];
    if i == n {
      assert rows'[..n] == rows[..n];
    } else {
      WorkOfUpdate(rows[..n], i, a);
      assert rows'[..n] == rows[..n][i := a];
    }
  }

  lemma {:induction false} WorkIsBounded(rows: Rows)
    ensures Work(rows) <= MAX_ATTEMPTS * |rows|
  {
    if rows != [] {
      WorkIsBounded(rows[..|rows| - 1]);
    }
  }

  ghost predicate BelowLimit(rows: Rows) {
    forall i :: 0 <= i < |rows| && rows[i].status.Pending? ==> rows[i].attempts < MAX_ATTEMPTS
  }

  lemma DispatchDoesWork(rows: Rows, e: Event)
    requires e.Dispatch? && Allowed(rows, e) && BelowLimit(rows)
    ensures Work(Step(rows, e)) < Work(rows) && BelowLimit(Step(rows, e))
  {
    WorkOfUpdate(rows, e.row, Attempted(rows[e.row], e.error, e.at));
  }

  lemma {:induction false} DispatchesUseUpWork(start: Rows, events: seq<Event>, end: Rows)
    requires Runs(start, events, end) && BelowLimit(start) && forall i :: 0 <= i < |events| ==> events[i].Dispatch?
    ensures |events| + Work(end) <= Work(start) <= MAX_ATTEMPTS * |start| && BelowLimit(end)
  {
    WorkIsBounded(start);
    if events != [] {
      var n := |events| - 1;
      var before := After(start, events[..n]);
      DispatchesUseUpWork(start, events[..n], before);
      DispatchDoesWork(before, events[n]);
    }
  }

  lemma ReachableIsBelowLimit(events: seq<Event>, end: Rows)
    requires Runs([], events, end)
    ensures BelowLimit(end)
  {
    RunKeepsInv(events, end);
    forall i | 0 <= i < |end| && end[i].status.Pending?
      ensures end[i].attempts < MAX_ATTEMPTS
    {
      assert RowInv(end[i], Tries(events, i));
    }
  }

  /** With nothing new enqueued, dispatching ends: from every reachable state, at most five dispatches per row. */
  lemma DispatchingEnds(history: seq<Event>, start: Rows, events: seq<Event>, end: Rows)
    requires Runs([], history, start) && Runs(start, events, end)
    requires forall i :: 0 <= i < |events| ==> events[i].Dispatch?
    ensures |events| + Work(end) <= Work(start) <= MAX_ATTEMPTS * |start|
  {
    ReachableIsBelowLimit(history, start);
    hide Runs, BelowLimit;
    DispatchesUseUpWork(start, events, end);
  }

  // ---------- Fan-out ----------

  /** One enqueueing for each enabled sink of each finding, in order. */
  function FanOutEvents(scopes: seq<string>, wazuh: bool, iris: bool, now: real): seq<Event> {
    if scopes == [] then []
    else
      var last := scopes[|scopes| - 1];
      FanOutEvents(scopes[..|scopes| - 1], wazuh, iris, now)
      + (if wazuh then [Enqueue(Wazuh, last, now)] else []) + (if iris then [Enqueue(DfirIris, last, now)] else [])
  }

  lemma OneMoreScope(scopes: seq<string>, wazuh: bool, iris: bool, now: real, i: nat)
    requires i < |scopes|
    ensures FanOutEvents(scopes[..i + 1], wazuh, iris, now) ==
            FanOutEvents(scopes[..i], wazuh, iris, now)
            + (if wazuh then [Enqueue(Wazuh, scopes[i], now)] else [])
            + (if iris then [Enqueue(DfirIris, scopes[i], now)] else [])
  {
    assert scopes[..i + 1][..i] == scopes[..i];
  }

  lemma {:induction false} FanOutCount(scopes: seq<string>, wazuh: bool, iris: bool, now: real)
    ensures |FanOutEvents(scopes, wazuh, iris, now)| == |scopes| * ((if wazuh then 1 else 0) + if iris then 1 else 0)
  {
    if scopes != [] {
      FanOutCount(scopes[..|scopes| - 1], wazuh, iris, now);
    }
  }

  predicate Enables(sink: Sink, wazuh: bool, iris: bool) {
    if sink.Wazuh? then wazuh else iris
  }

  /** After the fan-out there is a row for exactly the old keys and the enabled sinks of the scopes. */
  lemma {:induction false} FanOutKeys(start: Rows, scopes: seq<string>, wazuh: bool, iris: bool, now: real)
    ensures var end := After(start, FanOutEvents(scopes, wazuh, iris, now));
            && start <= end
            && forall sink, scope :: HasKey(end, sink, scope) <==>
                 HasKey(start, sink, scope) || (scope in scopes && Enables(sink, wazuh, iris))
  {
    hide HasKey, After;
    if scopes == [] {
      NothingHappened(start);
    } else {
      var n := |scopes| - 1;
      var before := FanOutEvents(scopes[..n], wazuh, iris, now);
      FanOutKeys(start, scopes[..n], wazuh, iris, now);
      var middle := AfterSink(start, before, Wazuh, scopes[n], now, wazuh);
      var events := before + if wazuh then [Enqueue(Wazuh, scopes[n], now)] else [];
      var end := AfterSink(start, events, DfirIris, scopes[n], now, iris);
      OneMoreScope(scopes, wazuh, iris, now, n);
      hide FanOutEvents;
      assert scopes[..n + 1] == scopes && scopes == scopes[..n] + [scopes[n]];
    }
  }

  lemma NothingHappened(start: Rows)
    ensures After(start, []) == start
  {
  }

  lemma AfterSink(start: Rows, events: seq<Event>, sink: Sink, scope: string, now: real, enabled: bool)
    returns (end: Rows)
    ensures end == After(start, events + if enabled then [Enqueue(sink, scope, now)] else [])
    ensures After(start, events) <= end
    ensures forall k, c :: HasKey(end, k, c) <==>
              HasKey(After(start, events), k, c) || (enabled && k == sink && c == scope)
  {
    if enabled {
      var more := events + [Enqueue(sink, scope, now)];
      assert more[..|events|] == events;
      KeysAfter(After(start, events), sink, scope, now);
      end := After(start, more);
    } else {
      assert events + [] == events;
      end := After(start, events);
    }
  }

  // ---------- The program ----------

  class Outbox {
    var rows: Rows

    constructor ()
      ensures rows == []
    {
      rows := [];
    }

    method EnqueueAlert(sink: Sink, scope: string, now: real)
      modifies this
      ensures rows == Enqueued(old(rows), sink, scope, now)
    {
      var known := false;
      for i := 0 to |rows|
        invariant known <==> exists j :: 0 <= j < i && rows[j].sink == sink && rows[j].scope == scope
      {
        if rows[i].sink == sink && rows[i].scope == scope {
          known := true;
        }
      }
      if !known {
        rows := rows + [Fresh(sink, scope, now)];
      }
    }

    /** Takes one due row; `answers` says what each sink's adapter does, and a missing adapter is an error. */
    method DispatchNext(answers: map<Sink, Option<string>>, now: real) returns (dispatched: bool, ghost taken: nat)
      modifies this
      ensures dispatched <==>
                exists i :: 0 <= i < |old(rows)| && old(rows)[i].status.Pending? && old(rows)[i].nextAttemptAt <= now
      ensures dispatched ==>
                && IsNext(old(rows), taken, now)
                && var sink := old(rows)[taken].sink;
                && rows == Step(old(rows), Dispatch(taken, if sink in answers then answers[sink] else
                                                             Some("LookupError"), now))
      ensures !dispatched ==> rows == old(rows)
    {
      var next: Option<nat> := None;
      for i := 0 to |rows|
        invariant next.None? ==> forall j :: 0 <= j < i ==> !IsDue(rows[j], now)
        invariant next.Some? ==> next.value < i && IsDue(rows[next.value], now)
        invariant next.Some? ==>
                    forall j :: 0 <= j < i && IsDue(rows[j], now) ==>
                        rows[next.value].nextAttemptAt <= rows[j].nextAttemptAt
      {
        if IsDue(rows[i], now) && (next.None? || rows[i].nextAttemptAt < rows[next.value].nextAttemptAt) {
          next := Some(i);
        }
      }
      taken := 0;
      if next.None? {
        return false, taken;
      }
      taken := next.value;
      var alert := rows[next.value];
      alert := alert.(attempts := alert.attempts + 1);
      var error := AnswerOf(answers, alert.sink);
      if error.Some? {
        alert := alert.(lastError := error);
        if alert.attempts >= MAX_ATTEMPTS {
          alert := alert.(status := DeadLetter);
        } else {
          alert := alert.(nextAttemptAt := now + Delay(alert.attempts) as real);
        }
      } else {
        alert := alert.(status := Delivered, deliveredAt := Some(now), lastError := None);
      }
      rows := rows[next.value := alert];
      dispatched := true;
    }

    /**
     Queues the enabled sinks for each finding; `scopes` are the findings' event scopes. It is a run of enqueueings, one
     for each of those queued.
     */
    method FanOut(scopes: seq<string>, wazuh: bool, iris: bool, now: real) returns (queued: nat)
      modifies this
      ensures Runs(old(rows), FanOutEvents(scopes, wazuh, iris, now), rows)
      ensures queued == |FanOutEvents(scopes, wazuh, iris, now)|
      ensures queued == |scopes| * ((if wazuh then 1 else 0) + if iris then 1 else 0)
      ensures old(rows) <= rows
      ensures forall sink, scope :: HasKey(rows, sink, scope) <==>
                HasKey(old(rows), sink, scope) || (scope in scopes && Enables(sink, wazuh, iris))
    {
      hide *;
      ghost var start, events: seq<Event> := rows, [];
      queued := 0;
      NothingQueued(start, scopes, wazuh, iris, now);
      for i := 0 to |scopes|
        invariant events == FanOutEvents(scopes[..i], wazuh, iris, now) && FannedOut(start, events, rows, queued)
      {
        OneMoreScope(scopes, wazuh, iris, now, i);
        if wazuh {
          EnqueueRuns(start, events, rows, queued, Wazuh, scopes[i], now);
          EnqueueAlert(Wazuh, scopes[i], now);
          events, queued := events + [Enqueue(Wazuh, scopes[i], now)], queued + 1;
        }
        if iris {
          EnqueueRuns(start, events, rows, queued, DfirIris, scopes[i], now);
          EnqueueAlert(DfirIris, scopes[i], now);
          events, queued := events + [Enqueue(DfirIris, scopes[i], now)], queued + 1;
        }
      }
      assert scopes[..|scopes|] == scopes;
      AllQueued(start, scopes, wazuh, iris, now, rows, queued);
    }
  }

  /** The enqueueings made so far, and their number. */
  predicate FannedOut(start: Rows, events: seq<Event>, rows: Rows, queued: int) {
    Runs(start, events, rows) && queued == |events|
  }

  lemma NothingQueued(start: Rows, scopes: seq<string>, wazuh: bool, iris: bool, now: real)
    ensures FanOutEvents(scopes[..0], wazuh, iris, now) == [] && FannedOut(start, [], start, 0)
  {
  }

  lemma AllQueued(start: Rows, scopes: seq<string>, wazuh: bool, iris: bool, now: real, rows: Rows, queued: int)
    requires FannedOut(start, FanOutEvents(scopes, wazuh, iris, now), rows, queued)
    ensures Runs(start, FanOutEvents(scopes, wazuh, iris, now), rows)
    ensures queued == |FanOutEvents(scopes, wazuh, iris, now)|
    ensures queued == |scopes| * ((if wazuh then 1 else 0) + if iris then 1 else 0)
    ensures start <= rows
    ensures forall sink, scope :: HasKey(rows, sink, scope) <==>
              HasKey(start, sink, scope) || (scope in scopes && Enables(sink, wazuh, iris))
  {
    FanOutCount(scopes, wazuh, iris, now);
    FanOutKeys(start, scopes, wazuh, iris, now);
    hide HasKey, FanOutEvents, Enables, After, AllAllowed;
  }

  lemma EnqueueRuns(start: Rows, events: seq<Event>, rows: Rows, queued: int, sink: Sink, scope: string, now: real)
    requires FannedOut(start, events, rows, queued)
    ensures FannedOut(start, events + [Enqueue(sink, scope, now)], Enqueued(rows, sink, scope, now), queued + 1)
  {
    OneMoreEvent(start, events, Enqueue(sink, scope, now));
  }

  function AnswerOf(answers: map<Sink, Option<string>>, sink: Sink): Option<string> {
    if sink in answers then answers[sink] else Some("LookupError")
  }

  lemma KeysAfter(rows: Rows, sink: Sink, scope: string, now: real)
    ensures rows <= Enqueued(rows, sink, scope, now)
    ensures forall k, c :: HasKey(Enqueued(rows, sink, scope, now), k, c) <==>
              HasKey(rows, k, c) || (k == sink && c == scope)
  {
    var more := rows + [Fresh(sink, scope, now)];
    assert more[|rows|].sink == sink && more[|rows|].scope == scope;
    forall k, c
      ensures HasKey(more, k, c) <==> HasKey(rows, k, c) || (k == sink && c == scope)
    {
      if HasKey(rows, k, c) {
        var i :| 0 <= i < |rows| && rows[i].sink == k && rows[i].scope == c;
        assert more[i] == rows[i];
      }
    }
  }
}
