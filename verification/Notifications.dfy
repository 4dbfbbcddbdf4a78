/**
 The notification outbox: one row per user, template and set of findings, delivered at most once, and never to a user
 who was sent something within the cooldown.
 */
module Notifications {
  import opened AsciiText
  import opened Wrappers
  import opened NotificationKeys

  const DEFAULT_COOLDOWN: nat := 86400
  const LONGEST_COOLDOWN: nat := 2592000

  datatype Status = Pending | Sent | Suppressed | Failed | DryRun

  datatype Row = Row(request: Request, status: Status, attempts: nat, createdAt: real, sentAt: Option<real>)

  type Rows = seq<Row>

  /** A stored setting: not set, set to a value, or set to something that cannot be read as one. */
  datatype Setting<T> = Unset | Set(value: T) | Broken

  /** What the settings and the mail server answer while one item is delivered. */
  datatype World = World(dryRun: Setting<bool>, cooldown: Setting<int>, mailAccepted: bool)

  // ---------- Steps ----------

  predicate Queued(rows: Rows, q: Request)
    requires WellFormed(q) && AllWellFormed(rows)
  {
    exists i :: 0 <= i < |rows| && ImageOf(rows[i].request) == ImageOf(q)
  }

  predicate AllWellFormed(rows: Rows) {
    forall i :: 0 <= i < |rows| ==> WellFormed(rows[i].request)
  }

  function Enqueued(rows: Rows, q: Request, now: real): (rows': Rows)
    requires WellFormed(q) && AllWellFormed(rows)
    ensures AllWellFormed(rows')
  {
    if q.findings == [] || Queued(rows, q) then rows else rows + [Row(q, Pending, 0, now, None)]
  }

  predicate IsNext(rows: Rows, i: nat) {
    i < |rows| && rows[i].status.Pending? &&
    forall j :: 0 <= j < |rows| && rows[j].status.Pending? ==> rows[i].createdAt <= rows[j].createdAt
  }

  function CooldownOf(w: World): Option<nat> {
    match w.cooldown
    case Unset => Some(DEFAULT_COOLDOWN)
    case Broken => None
    case Set(n) => if 0 <= n <= LONGEST_COOLDOWN then Some(n) else None
  }

  /** The user was sent something within the cooldown. */
  predicate Recently(rows: Rows, user: Bytes, cooldown: nat, now: real) {
    exists j :: 0 <= j < |rows| && rows[j].request.user == user && rows[j].status.Sent? && rows[j].sentAt.Some?
                && rows[j].sentAt.value > now - cooldown as real
  }

  predicate IsDryRun(w: World) {
    w.dryRun.Unset? || (w.dryRun.Set? && w.dryRun.value)
  }

  /** Settings that cannot be read abort the transaction. */
  predicate Aborts(w: World) {
    w.dryRun.Broken? || (!IsDryRun(w) && CooldownOf(w).None?)
  }

  function DeliveredRow(rows: Rows, i: nat, w: World, now: real): Row
    requires i < |rows| && !Aborts(w)
  {
    var row := rows[i].(attempts := rows[i].attempts + 1);
    if IsDryRun(w) then row.(status := DryRun)
    else if CooldownOf(w).value > 0 && Recently(rows, row.request.user, CooldownOf(w).value, now)
    then row.(status := Suppressed)
    else if w.mailAccepted then row.(status := Sent, sentAt := Some(now))
    else row.(status := Failed)
  }

  datatype Event = Enqueue(request: Request, at: real) | Deliver(row: nat, world: World, at: real)

  predicate Allowed(rows: Rows, e: Event) {
    match e
    case Enqueue(q, at) => WellFormed(q)
    case Deliver(i, w, at) => IsNext(rows, i)
  }

  function Step(rows: Rows, e: Event): (rows': Rows)
    requires AllWellFormed(rows) && Allowed(rows, e)
    ensures AllWellFormed(rows')
  {
    match e
    case Enqueue(q, at) => Enqueued(rows, q, at)
    case Deliver(i, w, at) => if Aborts(w) then rows else rows[i := DeliveredRow(rows, i, w, at)]
  }

  // ---------- Invariants ----------

  predicate RowInv(row: Row) {
    && WellFormed(row.request) && row.request.findings != []
    && row.attempts == (if row.status.Pending? then 0 else 1)
    && (row.status.Sent? <==> row.sentAt.Some?)
  }

  predicate DistinctRequests(rows: Rows) {
    forall i, j :: 0 <= i < j < |rows| ==> !SameRequest(rows[i].request, rows[j].request)
  }

  predicate SentInPast(rows: Rows, clock: real) {
    forall i :: 0 <= i < |rows| && rows[i].sentAt.Some? ==> rows[i].sentAt.value <= clock
  }

  /** Two messages to one user were sent at least `gap` apart. */
  predicate Apart(rows: Rows, gap: real) {
    forall i, j :: 0 <= i < |rows| && 0 <= j < |rows| && i != j && rows[i].request.user == rows[j].request.user
                   && rows[i].sentAt.Some? && rows[j].sentAt.Some? ==>
      rows[i].sentAt.value - rows[j].sentAt.value >= gap || rows[j].sentAt.value - rows[i].sentAt.value >= gap
  }

  ghost predicate Inv(rows: Rows, gap: real, clock: real) {
    && (forall i :: 0 <= i < |rows| ==> RowInv(rows[i]))
    && DistinctRequests(rows) && SentInPast(rows, clock) && Apart(rows, gap)
  }

  lemma InvIsWellFormed(rows: Rows, gap: real, clock: real)
    requires Inv(rows, gap, clock)
    ensures AllWellFormed(rows)
  {
    hide WellFormed;
  }

  lemma QueuedMeansSame(rows: Rows, q: Request)
    requires AllWellFormed(rows) && WellFormed(q)
    ensures Queued(rows, q) <==> exists i :: 0 <= i < |rows| && SameRequest(rows[i].request, q)
  {
    hide ImageOf, WellFormed, SameRequest;
    forall i | 0 <= i < |rows|
      ensures ImageOf(rows[i].request) == ImageOf(q) <==> SameRequest(rows[i].request, q)
    {
      ImagesTellRequestsApart(rows[i].request, q);
    }
  }

  lemma EnqueueKeepsInv(rows: Rows, q: Request, gap: real, clock: real, now: real)
    requires Inv(rows, gap, clock) && WellFormed(q) && clock <= now
    ensures AllWellFormed(rows) && Inv(Enqueued(rows, q, now), gap, now)
  {
    InvIsWellFormed(rows, gap, clock);
    QueuedMeansSame(rows, q);
    hide ImageOf, WellFormed, SameRequest, Queued;
  }

  /** The sent row is apart from every earlier one of its user. */
  lemma DeliveryRespectsCooldown(rows: Rows, i: nat, w: World, now: real, gap: real, j: nat)
    requires i < |rows| && j < |rows| && !Aborts(w) && !IsDryRun(w) && CooldownOf(w).value as real >= gap > 0.0
    requires DeliveredRow(rows, i, w, now).status.Sent?
    requires rows[j].request.user == rows[i].request.user && rows[j].status.Sent? && rows[j].sentAt.Some?
    ensures now - rows[j].sentAt.value >= gap
  {
  }

  lemma DeliverKeepsInv(rows: Rows, i: nat, w: World, gap: real, clock: real, now: real)
    requires Inv(rows, gap, clock) && IsNext(rows, i) && !Aborts(w) && clock <= now
    requires IsDryRun(w) || CooldownOf(w).value as real >= gap > 0.0
    ensures Inv(rows[i := DeliveredRow(rows, i, w, now)], gap, now)
  {
    var row := DeliveredRow(rows, i, w, now);
    var rows' := rows[i := row];
    assert RowInv(rows[i]);
    forall j | 0 <= j < |rows| && j != i && rows[j].request.user == row.request.user && rows[j].sentAt.Some? &&
      row.sentAt.Some?
      ensures now - rows[j].sentAt.value >= gap
    {
      assert RowInv(rows[j]);
      DeliveryRespectsCooldown(rows, i, w, now, gap, j);
    }
    hide WellFormed, SameRequest, Recently, IsNext;
    DeliverKeepsShape(rows, i, w, now);
    hide DeliveredRow, Aborts, RowInv;
    assert Apart(rows', gap);
    assert SentInPast(rows', now);
    assert DistinctRequests(rows');
  }

  lemma DeliverKeepsShape(rows: Rows, i: nat, w: World, now: real)
    requires i < |rows| && RowInv(rows[i]) && rows[i].status.Pending? && !Aborts(w)
    ensures var row := DeliveredRow(rows, i, w, now);
            RowInv(row) && row.request == rows[i].request && (row.sentAt.Some? ==> row.sentAt == Some(now))
  {
    hide WellFormed, Recently;
  }

  // ---------- Runs ----------

  /** The clock does not go back, and the cooldown in force for live deliveries never falls below `gap`. */
  ghost predicate Fair(events: seq<Event>, gap: real) {
    && (forall i, j :: 0 <= i < j < |events| ==> events[i].at <= events[j].at)
    && forall i :: 0 <= i < |events| && events[i].Deliver? && !Aborts(events[i].world) && !IsDryRun(events[i].world) ==>
         CooldownOf(events[i].world).value as real >= gap
  }

  ghost predicate Runs(rows: seq<Rows>, events: seq<Event>) {
    && |rows| == |events| + 1 && rows[0] == []
    && forall i :: 0 <= i < |events| ==> Steps(rows[i], events[i], rows[i + 1])
  }

  ghost predicate Steps(rows: Rows, e: Event, rows': Rows) {
    AllWellFormed(rows) && Allowed(rows, e) && rows' == Step(rows, e)
  }

  lemma {:induction false} RunKeepsInv(rows: seq<Rows>, events: seq<Event>, gap: real, clock: real, n: nat)
    requires Runs(rows, events) && Fair(events, gap) && gap > 0.0 && n <= |events|
    requires forall i :: 0 <= i < n ==> events[i].at <= clock
    ensures Inv(rows[n], gap, clock)
    decreases n
  {
    hide AllWellFormed, Step;
    if n > 0 {
      var e := events[n - 1];
      RunKeepsInv(rows, events, gap, e.at, n - 1);
      assert Steps(rows[n - 1], events[n - 1], rows[n - 1 + 1]);
      StepKeepsInv(rows[n - 1], e, gap, e.at);
      LaterClock(rows[n], gap, e.at, clock);
    }
  }

  lemma LaterClock(rows: Rows, gap: real, clock: real, later: real)
    requires Inv(rows, gap, clock) && clock <= later
    ensures Inv(rows, gap, later)
  {
    hide RowInv, DistinctRequests, Apart;
  }

  lemma StepKeepsInv(rows: Rows, e: Event, gap: real, clock: real)
    requires Inv(rows, gap, clock) && AllWellFormed(rows) && Allowed(rows, e) && clock <= e.at && gap > 0.0
    requires e.Deliver? && !Aborts(e.world) && !IsDryRun(e.world) ==> CooldownOf(e.world).value as real >= gap
    ensures Inv(Step(rows, e), gap, e.at)
  {
    if e.Enqueue? {
      EnqueueKeepsInv(rows, e.request, gap, clock, e.at);
    } else if Aborts(e.world) {
      LaterClock(rows, gap, clock, e.at);
    } else {
      DeliverKeepsInv(rows, e.row, e.world, gap, clock, e.at);
    }
  }

  /** In every run in which the cooldown is at least `gap`, two messages to one user are sent at least `gap` apart. */
  lemma MessagesAreApart(rows: seq<Rows>, events: seq<Event>, gap: real, i: nat, j: nat)
    requires Runs(rows, events) && Fair(events, gap) && gap > 0.0
    requires i != j && i < |rows[|events|]| && j < |rows[|events|]|
    requires var last := rows[|events|];
             last[i].status.Sent? && last[j].status.Sent? && last[i].request.user == last[j].request.user
    ensures var last := rows[|events|];
            && last[i].sentAt.Some? && last[j].sentAt.Some?
            && (last[i].sentAt.value - last[j].sentAt.value >= gap ||
               last[j].sentAt.value - last[i].sentAt.value >= gap)
  {
    var clock := EndOf(events, gap);
    RunKeepsInv(rows, events, gap, clock, |events|);
    hide *;
    SentRowsAreApart(rows[|events|], gap, clock, i, j);
  }

  ghost function EndOf(events: seq<Event>, gap: real): (clock: real)
    requires Fair(events, gap)
    ensures forall i :: 0 <= i < |events| ==> events[i].at <= clock
  {
    if events == [] then 0.0 else events[|events| - 1].at
  }

  lemma SentRowsAreApart(rows: Rows, gap: real, clock: real, i: nat, j: nat)
    requires Inv(rows, gap, clock) && i < |rows| && j < |rows| && i != j
    requires rows[i].status.Sent? && rows[j].status.Sent? && rows[i].request.user == rows[j].request.user
    ensures rows[i].sentAt.Some? && rows[j].sentAt.Some?
    ensures rows[i].sentAt.value - rows[j].sentAt.value >= gap || rows[j].sentAt.value - rows[i].sentAt.value >= gap
  {
    hide WellFormed, DistinctRequests;
    assert RowInv(rows[i]) && RowInv(rows[j]);
  }

  /** A delivered row is final, and its one attempt was its last: a failed message is never tried again. */
  lemma {:induction false} DeliveredIsFinal(rows: seq<Rows>, events: seq<Event>, m: nat, n: nat, i: nat)
    requires Runs(rows, events) && m <= n <= |events| && i < |rows[m]| && !rows[m][i].status.Pending?
    ensures i < |rows[n]| && rows[n][i] == rows[m][i]
  {
    hide DeliveredRow, AllWellFormed, WellFormed, Queued;
    if m < n {
      DeliveredIsFinal(rows, events, m, n - 1, i);
      assert Steps(rows[n - 1], events[n - 1], rows[n - 1 + 1]);
    }
  }

  // ---------- What became of a row, by the settings and the mail server ----------

  /** No setting, or a setting of true: nothing is sent. */
  predicate IsQuiet(w: World) {
    w.dryRun == Unset || w.dryRun == Set(true)
  }

  predicate IsUnreadable(w: World) {
    || w.dryRun == Broken
    || (!IsQuiet(w) && (w.cooldown == Broken || (w.cooldown.Set? && !(0 <= w.cooldown.value <= 2592000))))
  }

  /** A message to the user was sent within the cooldown, a day unless it is set; none is in a cooldown of zero. */
  predicate SentLately(rows: Rows, user: Bytes, w: World, now: real) {
    var seconds := if w.cooldown.Set? then w.cooldown.value else 86400;
    seconds > 0 &&
    exists j :: 0 <= j < |rows| && rows[j].request.user == user && rows[j].status.Sent? && rows[j].sentAt.Some? &&
                rows[j].sentAt.value + seconds as real > now
  }

  /** The row as a delivery leaves it, by what the settings and the mail server said then. */
  predicate EndedAs(rows: Rows, w: World, now: real, row: Row) {
    && !IsUnreadable(w) && !row.status.Pending?
    && (row.status.DryRun? <==> IsQuiet(w))
    && (row.status.Suppressed? <==> !IsQuiet(w) && SentLately(rows, row.request.user, w, now))
    && (row.status.Sent? <==> !IsQuiet(w) && !SentLately(rows, row.request.user, w, now) && w.mailAccepted)
    && (row.status.Sent? ==> row.sentAt == Some(now))
  }

  lemma DeliveryEndsAs(rows: Rows, i: nat, w: World, now: real)
    requires i < |rows| && rows[i].status.Pending?
    ensures Aborts(w) <==> IsUnreadable(w)
    ensures !Aborts(w) ==> EndedAs(rows, w, now, DeliveredRow(rows, i, w, now))
    ensures !Aborts(w) ==> DeliveredRow(rows, i, w, now).request == rows[i].request
  {
    if !Aborts(w) && !IsDryRun(w) {
      assert CooldownOf(w).value > 0 && Recently(rows, rows[i].request.user, CooldownOf(w).value, now) <==>
             SentLately(rows, rows[i].request.user, w, now);
      hide Recently, SentLately;
    }
  }

  /** Event `k` of the run delivered row `i` of then, and left it as it is. */
  ghost predicate Ended(rows: seq<Rows>, events: seq<Event>, k: nat, i: nat, row: Row)
    requires k < |events| && |rows| == |events| + 1
  {
    && events[k].Deliver? && events[k].row == i && i < |rows[k]| && rows[k][i].status.Pending?
    && EndedAs(rows[k], events[k].world, events[k].at, row)
  }

  /**
   In every run a row that is no longer pending was delivered by one step, which decided what became of it: a dry run
   when none is set or it is set, suppressed when its user was sent something within the cooldown, and otherwise sent
   exactly if the mail server took it.
   */
  lemma {:induction false} RowsEndAsDelivered(rows: seq<Rows>, events: seq<Event>, n: nat, i: nat)
    requires Runs(rows, events) && n <= |events| && i < |rows[n]| && !rows[n][i].status.Pending?
    ensures exists k :: 0 <= k < n && Ended(rows, events, k, i, rows[n][i])
  {
    hide DeliveredRow, AllWellFormed, WellFormed, Queued, EndedAs, Aborts;
    var e := events[n - 1];
    assert Steps(rows[n - 1], events[n - 1], rows[n - 1 + 1]);
    if i < |rows[n - 1]| && !rows[n - 1][i].status.Pending? {
      DeliveredIsFinal(rows, events, n - 1, n, i);
      RowsEndAsDelivered(rows, events, n - 1, i);
    } else {
      assert e.Deliver? && e.row == i;
      DeliveryEndsAs(rows[n - 1], i, e.world, e.at);
      assert Ended(rows, events, n - 1, i, rows[n][i]);
    }
  }

  /** In every run a row that is no longer pending was attempted once, any other never. */
  lemma {:induction false} RowsAreAttemptedOnce(rows: seq<Rows>, events: seq<Event>, n: nat, i: nat)
    requires Runs(rows, events) && n <= |events| && i < |rows[n]|
    ensures rows[n][i].attempts == if rows[n][i].status.Pending? then 0 else 1
  {
    hide AllWellFormed, WellFormed, Queued, Recently;
    assert Steps(rows[n - 1], events[n - 1], rows[n - 1 + 1]);
    if i < |rows[n - 1]| {
      RowsAreAttemptedOnce(rows, events, n - 1, i);
    }
  }

  /** In every run each row was asked for, at the time it was created. */
  lemma {:induction false} RowsWereRequested(rows: seq<Rows>, events: seq<Event>, n: nat, i: nat)
    requires Runs(rows, events) && n <= |events| && i < |rows[n]|
    ensures exists k :: 0 <= k < n && events[k] == Enqueue(rows[n][i].request, rows[n][i].createdAt)
  {
    hide AllWellFormed, WellFormed, Queued, Recently;
    assert Steps(rows[n - 1], events[n - 1], rows[n - 1 + 1]);
    if i < |rows[n - 1]| {
      RowsWereRequested(rows, events, n - 1, i);
      assert rows[n][i].request == rows[n - 1][i].request && rows[n][i].createdAt == rows[n - 1][i].createdAt;
    } else {
      assert events[n - 1] == Enqueue(rows[n][i].request, rows[n][i].createdAt);
    }
  }

  /** Enqueueing adds a row exactly for a request with findings that no queued row has, by user, template and set. */
  lemma EnqueueDeduplicates(rows: Rows, q: Request, now: real)
    requires AllWellFormed(rows) && WellFormed(q)
    ensures Enqueued(rows, q, now) != rows <==>
            q.findings != [] && forall i :: 0 <= i < |rows| ==> !SameRequest(rows[i].request, q)
    ensures forall q', later :: WellFormed(q') && SameRequest(q, q') ==>
              Enqueued(Enqueued(rows, q, now), q', later) == Enqueued(rows, q, now)
  {
    QueuedMeansSame(rows, q);
    hide ImageOf, WellFormed;
    forall q', later | WellFormed(q') && SameRequest(q, q')
      ensures Enqueued(Enqueued(rows, q, now), q', later) == Enqueued(rows, q, now)
    {
      Requeueing(rows, q, q', now, later);
    }
    hide Queued;
    assert |rows + [Row(q, Pending, 0, now, None)]| == |rows| + 1;
  }

  lemma Requeueing(rows: Rows, q: Request, q': Request, now: real, later: real)
    requires AllWellFormed(rows) && WellFormed(q) && WellFormed(q') && SameRequest(q, q')
    ensures Enqueued(Enqueued(rows, q, now), q', later) == Enqueued(rows, q, now)
  {
    ImagesTellRequestsApart(q, q');
    hide ImageOf, WellFormed;
    if q.findings == [] {
      assert q'.findings == [] by {
        NoItems(q.findings, q'.findings);
      }
    } else if !Queued(rows, q) {
      var more := Enqueued(rows, q, now);
      assert ImageOf(more[|rows|].request) == ImageOf(q');
      assert Queued(more, q');
    }
  }

  lemma NoItems(a: seq<Bytes>, b: seq<Bytes>)
    requires SameItems(a, b) && a == []
    ensures b == []
  {
    BothOrNeitherEmpty(a, b);
  }

  // ---------- The daily digest ----------

  /** The user's findings among the pairs, in their order. */
  function FindingsOf(pairs: seq<(Bytes, Bytes)>, user: Bytes): seq<Bytes> {
    if pairs == [] then []
    else
      var last := pairs[|pairs| - 1];
      FindingsOf(pairs[..|pairs| - 1], user) + if last.0 == user then [last.1] else []
  }

  predicate Mentions(pairs: seq<(Bytes, Bytes)>, user: Bytes) {
    FindingsOf(pairs, user) != []
  }

  lemma OneMorePair(pairs: seq<(Bytes, Bytes)>, n: nat)
    requires n < |pairs|
    ensures forall user :: FindingsOf(pairs[..n + 1], user) ==
                           FindingsOf(pairs[..n], user) + if pairs[n].0 == user then [pairs[n].1] else []
  {
    assert pairs[..n + 1][..n] == pairs[..n];
  }

  /** Each user's findings keep their order, and every pair is in its user's group. */
  lemma {:induction false} GroupsKeepOrder(pairs: seq<(Bytes, Bytes)>, i: nat, j: nat)
    requires i < j < |pairs| && pairs[i].0 == pairs[j].0
    ensures exists m, n :: 0 <= m < n < |FindingsOf(pairs, pairs[i].0)| &&
                           FindingsOf(pairs, pairs[i].0)[m] == pairs[i].1 &&
                             FindingsOf(pairs, pairs[i].0)[n] == pairs[j].1
  {
    var k, user := |pairs| - 1, pairs[i].0;
    var before, all := FindingsOf(pairs[..k], user), FindingsOf(pairs, user);
    if j < k {
      GroupsKeepOrder(pairs[..k], i, j);
      var m, n :| 0 <= m < n < |before| && before[m] == pairs[i].1 && before[n] == pairs[j].1;
      assert all[m] == pairs[i].1 && all[n] == pairs[j].1;
    } else {
      PairIsGrouped(pairs[..k], i);
      var m :| 0 <= m < |before| && before[m] == pairs[i].1;
      assert all[m] == pairs[i].1 && all[|before|] == pairs[j].1;
    }
  }

  lemma {:induction false} PairIsGrouped(pairs: seq<(Bytes, Bytes)>, i: nat)
    requires i < |pairs|
    ensures pairs[i].1 in FindingsOf(pairs, pairs[i].0)
  {
    if i < |pairs| - 1 {
      PairIsGrouped(pairs[..|pairs| - 1], i);
    }
  }

  /** A user's group holds each finding as often as it was paired with that user. */
  lemma {:induction false} GroupsHoldTheirPairs(pairs: seq<(Bytes, Bytes)>, user: Bytes, finding: Bytes)
    ensures multiset(FindingsOf(pairs, user))[finding] == multiset(pairs)[(user, finding)]
  {
    if pairs != [] {
      var n := |pairs| - 1;
      GroupsHoldTheirPairs(pairs[..n], user, finding);
      assert pairs == pairs[..n] + [pairs[n]];
    }
  }

  /** Groups the findings by user. */
  method Group(pairs: seq<(Bytes, Bytes)>) returns (grouped: map<Bytes, seq<Bytes>>)
    ensures forall user :: user in grouped <==> Mentions(pairs, user)
    ensures forall user :: user in grouped ==> grouped[user] == FindingsOf(pairs, user)
  {
    grouped := map[];
    for n := 0 to |pairs|
      invariant forall user :: user in grouped <==> Mentions(pairs[..n], user)
      invariant forall user :: user in grouped ==> grouped[user] == FindingsOf(pairs[..n], user)
    {
      OneMorePair(pairs, n);
      hide FindingsOf;
      var (user, finding) := pairs[n];
      var found := if user in grouped then grouped[user] else [];
      grouped := grouped[user := found + [finding]];
    }
    assert pairs[..|pairs|] == pairs;
  }

  // ---------- The program ----------

  class Outbox {
    var rows: Rows

    constructor ()
      ensures rows == []
    {
      rows := [];
    }

    method EnqueueNotification(q: Request, now: real)
      requires WellFormed(q) && AllWellFormed(rows)
      modifies this
      ensures rows == Enqueued(old(rows), q, now)
    {
      if q.findings == [] {
        return;
      }
      var image := ImageOf(q);
      hide ImageOf, WellFormed;
      var queued := false;
      for i := 0 to |rows|
        invariant queued <==> exists j :: 0 <= j < i && ImageOf(rows[j].request) == image
      {
        if ImageOf(rows[i].request) == image {
          queued := true;
        }
      }
      if !queued {
        rows := rows + [Row(q, Pending, 0, now, None)];
      }
    }

    /** Delivers one row; false when nothing was committed, for want of a pending row or of readable settings. */
    method DeliverNext(w: World, now: real) returns (delivered: bool, ghost taken: nat)
      requires AllWellFormed(rows)
      modifies this
      ensures delivered <==> !IsUnreadable(w) && exists i :: 0 <= i < |old(rows)| && old(rows)[i].status.Pending?
      ensures delivered ==> IsNext(old(rows), taken) && rows == Step(old(rows), Deliver(taken, w, now))
      ensures !delivered ==> rows == old(rows)
    {
      hide AllWellFormed;
      var next: Option<nat> := None;
      for i := 0 to |rows|
        invariant next.None? ==> forall j :: 0 <= j < i ==> !rows[j].status.Pending?
        invariant next.Some? ==>
                    && next.value < i && rows[next.value].status.Pending?
                    && forall j :: 0 <= j < i && rows[j].status.Pending? ==>
                         rows[next.value].createdAt <= rows[j].createdAt
      {
        if rows[i].status.Pending? && (next.None? || rows[i].createdAt < rows[next.value].createdAt) {
          next := Some(i);
        }
      }
      taken := 0;
      if next.None? || w.dryRun.Broken? {
        return false, taken;
      }
      taken := next.value;
      var row := rows[next.value];
      row := row.(attempts := row.attempts + 1);
      if w.dryRun.Unset? || w.dryRun.value {
        rows := rows[next.value := row.(status := DryRun)];
        return true, taken;
      }
      var cooldown := CooldownOf(w);
      if cooldown.None? {
        return false, taken;
      }
      var recent := 0;
      for j := 0 to |rows|
        invariant recent > 0 <==>
                  exists i :: 0 <= i < j && rows[i].request.user == row.request.user && rows[i].status.Sent?
                              && rows[i].sentAt.Some? && rows[i].sentAt.value > now - cooldown.value as real
        invariant recent >= 0
      {
        var other := rows[j];
        if other.request.user == row.request.user && other.status.Sent? && other.sentAt.Some?
           && other.sentAt.value > now - cooldown.value as real {
          recent := recent + 1;
        }
      }
      if cooldown.value > 0 && recent > 0 {
        row := row.(status := Suppressed);
      } else if w.mailAccepted {
        row := row.(status := Sent, sentAt := Some(now));
      } else {
        row := row.(status := Failed);
      }
      rows := rows[next.value := row];
      delivered := true;
    }
  }
}
