/**
 Self-service scans: admitted one at a time per user and no sooner than the cooldown after the last start, then run to
 success or failure by a background task.
 */
module SelfScan {
  import opened Numbers
  import opened Wrappers

  const DEFAULT_COOLDOWN: int := 86400
  const SHORTEST_COOLDOWN: int := 60
  const LONGEST_COOLDOWN: int := 2592000

  type User = nat

  datatype Trigger = Own | Other

  datatype Status = Pending | Running | Succeeded | Failed

  /** `admittedAt` is when the cooldown was checked. */
  datatype Scan = Scan(user: User, trigger: Trigger, status: Status, admittedAt: real, startedAt: Option<real>,
                       finishedAt: Option<real>)

  type Scans = seq<Scan>

  /** The stored cooldown: not set, a number, or text that is not one. */
  datatype Setting = Unset | Number(seconds: int) | Unreadable

  datatype Answer = Misconfigured | InProgress | CoolingDown(retryAfter: nat) | NotConfigured | Admitted

  // ---------- Admission ----------

  function CooldownOf(setting: Setting): Option<int> {
    var value := if setting.Number? then setting.seconds else DEFAULT_COOLDOWN;
    if setting.Unreadable? || value < SHORTEST_COOLDOWN || value > LONGEST_COOLDOWN then None else Some(value)
  }

  function Remaining(startedAt: Option<real>, cooldown: int, now: real): nat {
    if startedAt.None? then 0
    else
      var elapsed := if Trunc(now - startedAt.value) > 0 then Trunc(now - startedAt.value) else 0;
      if cooldown - elapsed > 0 then cooldown - elapsed else 0
  }

  predicate IsOwn(e: Scan, user: User) {
    e.user == user && e.trigger.Own?
  }

  predicate Active(e: Scan) {
    e.status.Pending? || e.status.Running?
  }

  predicate HasActive(scans: Scans, user: User) {
    exists i :: 0 <= i < |scans| && IsOwn(scans[i], user) && Active(scans[i])
  }

  /** `latest` is the latest start among the user's own scans, failed ones included. */
  predicate IsLatest(scans: Scans, user: User, latest: Option<real>) {
    && (latest.None? ==> forall i :: 0 <= i < |scans| && IsOwn(scans[i], user) ==> scans[i].startedAt.None?)
    && (latest.Some? ==> exists i :: 0 <= i < |scans| && IsOwn(scans[i], user) && scans[i].startedAt == latest)
    && (latest.Some? ==>
        forall i :: 0 <= i < |scans| && IsOwn(scans[i], user) && scans[i].startedAt.Some? ==>
          scans[i].startedAt.value <= latest.value)
  }

  function Latest(scans: Scans, user: User): Option<real> {
    if scans == [] then None
    else
      var before, scan := Latest(scans[..|scans| - 1], user), scans[|scans| - 1];
      if IsOwn(scan, user) && scan.startedAt.Some? && (before.None? || scan.startedAt.value > before.value)
      then scan.startedAt else before
  }

  lemma {:induction false} LatestIsLatest(scans: Scans, user: User)
    ensures IsLatest(scans, user, Latest(scans, user))
  {
    if scans != [] {
      var n := |scans| - 1;
      LatestIsLatest(scans[..n], user);
      OneMoreScan(scans[..n], scans[n], user, Latest(scans[..n], user), Latest(scans, user));
      assert scans == scans[..n] + [scans[n]];
    }
  }

  /** Whole seconds lose nothing: none remain exactly when the cooldown has fully passed. */
  lemma NoneRemainsExactly(started: real, cooldown: int, now: real)
    requires cooldown > 0
    ensures Remaining(Some(started), cooldown, now) == 0 <==> now - started >= cooldown as real
  {
  }

  /** Waiting as long as the answer says is enough. */
  lemma RetryAfterSuffices(started: real, cooldown: int, now: real, later: real)
    requires cooldown > 0 && later >= now + Remaining(Some(started), cooldown, now) as real && now >= started
    ensures Remaining(Some(started), cooldown, later) == 0
  {
  }

  /** And a second less is not; before the start the whole cooldown remains. */
  lemma RetryAfterIsTight(started: real, cooldown: int, now: real, earlier: real)
    requires cooldown > 0 && Remaining(Some(started), cooldown, now) > 0
    ensures now <= started ==> Remaining(Some(started), cooldown, now) == cooldown
    ensures now >= started && earlier <= now + (Remaining(Some(started), cooldown, now) - 1) as real ==>
              Remaining(Some(started), cooldown, earlier) > 0
  {
  }

  /** Every own scan of the user that has started did so at least the cooldown ago. */
  predicate Rested(scans: Scans, user: User, cooldown: int, now: real) {
    forall i :: 0 <= i < |scans| && IsOwn(scans[i], user) && scans[i].startedAt.Some? ==>
      now - scans[i].startedAt.value >= cooldown as real
  }

  function NewScan(user: User, now: real): Scan {
    Scan(user, Own, Pending, now, None, None)
  }

  class Portal {
    var scans: Scans

    constructor ()
      ensures scans == []
    {
      scans := [];
    }

    method ActiveScan(user: User) returns (active: bool)
      ensures active == HasActive(scans, user)
    {
      active := false;
      for i := 0 to |scans|
        invariant active <==> exists j :: 0 <= j < i && IsOwn(scans[j], user) && Active(scans[j])
      {
        if IsOwn(scans[i], user) && Active(scans[i]) {
          active := true;
        }
      }
    }

    method LatestStart(user: User) returns (latest: Option<real>)
      ensures latest == Latest(scans, user) && IsLatest(scans, user, latest)
    {
      latest := None;
      for i := 0 to |scans|
        invariant latest == Latest(scans[..i], user)
      {
        var scan := scans[i];
        assert scans[..i + 1][..i] == scans[..i];
        if IsOwn(scan, user) && scan.startedAt.Some? && (latest.None? || scan.startedAt.value > latest.value) {
          latest := scan.startedAt;
        }
      }
      assert scans[..|scans|] == scans;
      LatestIsLatest(scans, user);
    }

    /** A user asks for a check of the own account. */
    method SelfCheck(user: User, setting: Setting, configured: bool, now: real) returns (answer: Answer)
      modifies this
      ensures answer.Misconfigured? <==> CooldownOf(setting).None?
      ensures answer.InProgress? <==> CooldownOf(setting).Some? && HasActive(old(scans), user)
      ensures answer.CoolingDown? <==>
                CooldownOf(setting).Some? && !HasActive(old(scans), user) &&
                !Rested(old(scans), user, CooldownOf(setting).value, now)
      ensures answer.NotConfigured? <==>
                CooldownOf(setting).Some? && !HasActive(old(scans), user) &&
                Rested(old(scans), user, CooldownOf(setting).value, now) && !configured
      ensures answer.CoolingDown? ==>
                exists latest :: IsLatest(old(scans), user, Some(latest)) && answer.retryAfter > 0 &&
                                 answer.retryAfter == Remaining(Some(latest), CooldownOf(setting).value, now)
      ensures scans == if answer.Admitted? then old(scans) + [NewScan(user, now)] else old(scans)
      ensures scans == Step(old(scans), Check(user, setting, configured, now))
    {
      var active := ActiveScan(user);
      var latest := LatestStart(user);
      var cooldown := CooldownOf(setting);
      if cooldown.None? {
        return Misconfigured;
      }
      var remaining := Remaining(latest, cooldown.value, now);
      RestedExactly(scans, user, latest, cooldown.value, now);
      if active {
        return InProgress;
      }
      if remaining > 0 {
        return CoolingDown(remaining);
      }
      if !configured {
        return NotConfigured;
      }
      scans := scans + [NewScan(user, now)];
      answer := Admitted;
    }

    /** The background task's first transaction; `began` is read just before it commits. */
    method StartScan(i: nat, began: real)
      requires i < |scans| && scans[i].status.Pending?
      modifies this
      ensures scans == Step(old(scans), Start(i, began, began))
    {
      var scan := scans[i].(status := Running);
      scan := scan.(startedAt := Some(began));
      scans := scans[i := scan];
    }

    /** The task's second transaction: `queried` says whether the query and the ingest went through. */
    method FinishScan(i: nat, began: real, queried: bool, failedAt: real)
      requires i < |scans| && scans[i].status.Running?
      modifies this
      ensures scans == Step(old(scans), if queried then Succeed(i, began, failedAt) else Fail(i, failedAt))
    {
      var stored := scans[i];
      var scan := stored.(status := Running, startedAt := Some(began));
      if queried {
        scan := scan.(status := Succeeded, finishedAt := Some(began));
      } else {
        scan := scan.(status := Failed, finishedAt := Some(began));
        // The transaction is rolled back, and the failure is written to the stored row.
        scan := stored.(status := Failed, finishedAt := Some(failedAt));
      }
      scans := scans[i := scan];
    }
  }

  lemma OneMoreScan(scans: Scans, scan: Scan, user: User, before: Option<real>, latest: Option<real>)
    requires IsLatest(scans, user, before)
    requires latest == if IsOwn(scan, user) && scan.startedAt.Some? &&
             (before.None? || scan.startedAt.value > before.value)
                       then scan.startedAt else before
    ensures IsLatest(scans + [scan], user, latest)
  {
    hide IsOwn;
    var more := scans + [scan];
    assert more[|scans|] == scan;
    if before.Some? {
      var i :| 0 <= i < |scans| && IsOwn(scans[i], user) && scans[i].startedAt == before;
      assert more[i] == scans[i];
    }
  }

  lemma RestedExactly(scans: Scans, user: User, latest: Option<real>, cooldown: int, now: real)
    requires IsLatest(scans, user, latest) && cooldown > 0
    ensures Remaining(latest, cooldown, now) == 0 <==> Rested(scans, user, cooldown, now)
  {
    hide IsOwn;
    if latest.Some? {
      NoneRemainsExactly(latest.value, cooldown, now);
    }
    hide Remaining;
    assert latest.None? ==> Remaining(latest, cooldown, now) == 0 by {
      NeverStarted(cooldown, now);
    }
  }

  lemma NeverStarted(cooldown: int, now: real)
    ensures Remaining(None, cooldown, now) == 0
  {
  }

  // ---------- Runs ----------

  /** `began` is when the task read the clock, `at` when the step took effect. */
  datatype Event =
    | Check(user: User, setting: Setting, configured: bool, at: real)
    | OtherScan(user: User, at: real)
    | Start(scan: nat, began: real, at: real)
    | Succeed(scan: nat, began: real, at: real)
    | Fail(scan: nat, at: real)

  predicate Admits(scans: Scans, user: User, setting: Setting, configured: bool, now: real) {
    && CooldownOf(setting).Some? && !HasActive(scans, user) && configured
    && Remaining(Latest(scans, user), CooldownOf(setting).value, now) == 0
  }

  lemma AdmittedIsRested(scans: Scans, user: User, setting: Setting, configured: bool, now: real)
    ensures Admits(scans, user, setting, configured, now) <==>
            && CooldownOf(setting).Some? && !HasActive(scans, user) && configured
            && Rested(scans, user, CooldownOf(setting).value, now)
  {
    LatestIsLatest(scans, user);
    if CooldownOf(setting).Some? {
      RestedExactly(scans, user, Latest(scans, user), CooldownOf(setting).value, now);
    }
    hide Latest, Remaining, Rested, HasActive;
  }

  predicate Allowed(scans: Scans, e: Event) {
    match e
    case Check(_, _, _, _) => true
    case OtherScan(_, _) => true
    case Start(i, began, at) => i < |scans| && scans[i].status.Pending? && scans[i].admittedAt <= began <= at
    case Succeed(i, began, at) =>
      i < |scans| && scans[i].status.Running? && scans[i].startedAt.Some? && scans[i].startedAt.value <= began <= at
    case Fail(i, at) => i < |scans| && scans[i].status.Running?
  }

  function Step(scans: Scans, e: Event): Scans {
    match e
    case Check(user, setting, configured, at) =>
      if Admits(scans, user, setting, configured, at) then scans + [NewScan(user, at)] else scans
    case OtherScan(user, at) => scans + [NewScan(user, at).(trigger := Other)]
    case Start(i, began, at) =>
      if i < |scans| then scans[i := scans[i].(status := Running, startedAt := Some(began))] else scans
    case Succeed(i, began, at) =>
      if i < |scans| then scans[i := scans[i].(status := Succeeded, startedAt := Some(began),
                                               finishedAt := Some(began))]
      else scans
    case Fail(i, at) => if i < |scans| then scans[i := scans[i].(status := Failed, finishedAt := Some(at))] else scans
  }

  function After(events: seq<Event>): Scans {
    if events == [] then [] else Step(After(events[..|events| - 1]), events[|events| - 1])
  }

  /** Steps are allowed where they happen, and the clock does not go back. */
  predicate Runs(events: seq<Event>) {
    events == [] ||
    var rest, e := events[..|events| - 1], events[|events| - 1];
    Runs(rest) && Allowed(After(rest), e) && (rest != [] ==> rest[|rest| - 1].at <= e.at)
  }

  predicate ScanInv(e: Scan, clock: real) {
    && e.admittedAt <= clock
    && (e.startedAt.None? <==> e.status.Pending?) && (e.finishedAt.None? <==> Active(e))
    && (e.startedAt.Some? ==> e.admittedAt <= e.startedAt.value <= clock)
    && (e.finishedAt.Some? ==> e.startedAt.Some? && e.startedAt.value <= e.finishedAt.value <= clock)
    && (e.status.Succeeded? ==> e.finishedAt == e.startedAt)
  }

  /** An earlier own scan had finished, and had started at least `gap` before, when the later one was admitted. */
  predicate Follows(a: Scan, b: Scan, gap: real) {
    a.user == b.user && a.trigger.Own? && b.trigger.Own? ==>
      !Active(a) && a.startedAt.Some? && a.startedAt.value + gap <= b.admittedAt
  }

  predicate Inv(scans: Scans, gap: real, clock: real) {
    && (forall i :: 0 <= i < |scans| ==> ScanInv(scans[i], clock))
    && forall i, j :: 0 <= i < j < |scans| ==> Follows(scans[i], scans[j], gap)
  }

  /** The cooldown in force is never below `gap`. */
  predicate CooldownsReach(events: seq<Event>, gap: real) {
    forall i :: 0 <= i < |events| && events[i].Check? && CooldownOf(events[i].setting).Some? ==>
      CooldownOf(events[i].setting).value as real >= gap
  }

  lemma AdmissionKeepsInv(scans: Scans, user: User, setting: Setting, gap: real, clock: real, at: real)
    requires Inv(scans, gap, clock) && clock <= at && Admits(scans, user, setting, true, at)
    requires CooldownOf(setting).value as real >= gap
    ensures Inv(scans + [NewScan(user, at)], gap, at)
  {
    AdmittedIsRested(scans, user, setting, true, at);
    hide Admits;
    var more := scans + [NewScan(user, at)];
    forall i | 0 <= i < |scans|
      ensures Follows(scans[i], NewScan(user, at), gap) && ScanInv(scans[i], at)
    {
      assert ScanInv(scans[i], clock);
    }
    hide Follows, ScanInv, Rested, HasActive, NewScan;
    assert ScanInv(NewScan(user, at), at) by {
      NewScanInv(user, Own, at);
    }
    assert forall i :: 0 <= i < |scans| ==> more[i] == scans[i];
  }

  lemma NewScanInv(user: User, trigger: Trigger, at: real)
    ensures ScanInv(NewScan(user, at).(trigger := trigger), at)
  {
  }

  lemma OtherScanKeepsInv(scans: Scans, user: User, gap: real, clock: real, at: real)
    requires Inv(scans, gap, clock) && clock <= at
    ensures Inv(scans + [NewScan(user, at).(trigger := Other)], gap, at)
  {
    NewScanInv(user, Other, at);
    var scan := NewScan(user, at).(trigger := Other);
    var more := scans + [scan];
    forall i | 0 <= i < |scans|
      ensures Follows(scans[i], scan, gap) && ScanInv(scans[i], at)
    {
      assert ScanInv(scans[i], clock);
    }
    hide Follows, ScanInv, NewScan;
    assert forall i :: 0 <= i < |scans| ==> more[i] == scans[i];
  }

  /** A scan that was active stays the last own one of its user, so changing it disturbs nothing. */
  lemma ProgressKeepsInv(scans: Scans, i: nat, scan: Scan, gap: real, clock: real, at: real)
    requires Inv(scans, gap, clock) && clock <= at && i < |scans| && Active(scans[i]) && ScanInv(scan, at)
    requires scan.user == scans[i].user && scan.trigger == scans[i].trigger && scan.admittedAt == scans[i].admittedAt
    ensures Inv(scans[i := scan], gap, at)
  {
    var more := scans[i := scan];
    forall j | 0 <= j < |more|
      ensures ScanInv(more[j], at)
    {
      assert ScanInv(scans[j], clock);
    }
    forall j, k | 0 <= j < k < |more|
      ensures Follows(more[j], more[k], gap)
    {
      assert Follows(scans[j], scans[k], gap);
    }
    hide Follows, ScanInv;
  }

  lemma LaterClock(scans: Scans, gap: real, clock: real, at: real)
    requires Inv(scans, gap, clock) && clock <= at
    ensures Inv(scans, gap, at)
  {
    hide Follows;
  }

  lemma StepKeepsInv(scans: Scans, e: Event, gap: real, clock: real)
    requires Inv(scans, gap, clock) && Allowed(scans, e) && clock <= e.at && gap >= 0.0
    requires e.Check? && CooldownOf(e.setting).Some? ==> CooldownOf(e.setting).value as real >= gap
    ensures Inv(Step(scans, e), gap, e.at)
  {
    match e {
      case Check(user, setting, configured, at) =>
        hide Inv, CooldownOf, HasActive, Remaining;
        if Admits(scans, user, setting, configured, at) {
          AdmissionKeepsInv(scans, user, setting, gap, clock, at);
        } else {
          LaterClock(scans, gap, clock, at);
        }
      case OtherScan(user, at) => OtherScanKeepsInv(scans, user, gap, clock, at);
      case Start(i, began, at) =>
        assert ScanInv(scans[i], clock);
        ProgressKeepsInv(scans, i, scans[i].(status := Running, startedAt := Some(began)), gap, clock, at);
      case Succeed(i, began, at) =>
        assert ScanInv(scans[i], clock);
        ProgressKeepsInv(scans, i, scans[i].(status := Succeeded, startedAt := Some(began), finishedAt := Some(began)),
                         gap, clock, at);
      case Fail(i, at) =>
        assert ScanInv(scans[i], clock);
        ProgressKeepsInv(scans, i, scans[i].(status := Failed, finishedAt := Some(at)), gap, clock, at);
    }
  }

  lemma {:induction false} RunKeepsInv(events: seq<Event>, gap: real)
    requires Runs(events) && CooldownsReach(events, gap) && gap >= 0.0
    ensures events != [] ==> Inv(After(events), gap, events[|events| - 1].at)
    ensures events == [] ==> After(events) == []
  {
    hide Inv, Step, Allowed, CooldownOf;
    if events != [] {
      var rest, e := events[..|events| - 1], events[|events| - 1];
      RunKeepsInv(rest, gap);
      if rest == [] {
        NothingYet(gap, e.at);
        StepKeepsInv([], e, gap, e.at);
      } else {
        StepKeepsInv(After(rest), e, gap, rest[|rest| - 1].at);
      }
    }
  }

  lemma NothingYet(gap: real, clock: real)
    ensures Inv([], gap, clock)
  {
  }

  // ---------- Theorems ----------

  /** A user never has two active own scans. */
  lemma {:induction false} AtMostOneActive(events: seq<Event>, i: nat, j: nat)
    requires Runs(events) && i < |After(events)| && j < |After(events)|
    requires After(events)[i].user == After(events)[j].user
    requires After(events)[i].trigger.Own? && After(events)[j].trigger.Own?
    requires Active(After(events)[i]) && Active(After(events)[j])
    ensures i == j
  {
    RunKeepsInv(events, 0.0);
    hide After, Runs, ScanInv;
  }

  /** Every finished scan has a start, no later than its end, and every own scan was admitted before it started. */
  lemma {:induction false} FinishedScansStarted(events: seq<Event>, i: nat)
    requires Runs(events) && i < |After(events)|
    ensures After(events)[i].finishedAt.Some? <==> !Active(After(events)[i])
    ensures After(events)[i].finishedAt.Some? ==>
              && After(events)[i].startedAt.Some?
              && After(events)[i].admittedAt <= After(events)[i].startedAt.value <= After(events)[i].finishedAt.value
  {
    RunKeepsInv(events, 0.0);
    hide After, Runs, Follows;
    assert ScanInv(After(events)[i], events[|events| - 1].at);
  }

  /** A successful scan ends when it starts: one clock reading is used for both. */
  lemma {:induction false} SuccessEndsAtItsStart(events: seq<Event>, i: nat)
    requires Runs(events) && i < |After(events)| && After(events)[i].status.Succeeded?
    ensures After(events)[i].finishedAt.Some? && After(events)[i].finishedAt == After(events)[i].startedAt
  {
    RunKeepsInv(events, 0.0);
    hide After, Runs, Follows;
    assert ScanInv(After(events)[i], events[|events| - 1].at);
  }

  predicate Finishes(e: Event, i: nat) {
    (e.Succeed? || e.Fail?) && e.scan == i
  }

  /** An active scan stays active exactly as long as its task does not finish it; nothing else ends it. */
  lemma {:induction false} ActiveUntilFinished(events: seq<Event>, more: seq<Event>, i: nat)
    requires Runs(events + more) && i < |After(events)| && Active(After(events)[i])
    ensures i < |After(events + more)|
    ensures After(events + more)[i].user == After(events)[i].user &&
            After(events + more)[i].trigger == After(events)[i].trigger
    ensures Active(After(events + more)[i]) <==> forall k :: 0 <= k < |more| ==> !Finishes(more[k], i)
    decreases |more|
  {
    if more == [] {
      assert events + more == events;
    } else {
      var n := |more| - 1;
      assert (events + more)[..|events| + n] == events + more[..n] && (events + more)[|events| + n] == more[n];
      ActiveUntilFinished(events, more[..n], i);
      OneStep(After(events + more[..n]), more[n], i);
      hide Step, Allowed;
      assert forall k :: 0 <= k < n ==> more[..n][k] == more[k];
    }
  }

  lemma OneStep(scans: Scans, e: Event, i: nat)
    requires Allowed(scans, e) && i < |scans|
    ensures i < |Step(scans, e)| && Step(scans, e)[i].user == scans[i].user &&
            Step(scans, e)[i].trigger == scans[i].trigger
    ensures Active(Step(scans, e)[i]) <==> Active(scans[i]) && !Finishes(e, i)
  {
    hide Admits;
  }

  /** So an own scan whose task never finishes it keeps its user from every further check. */
  lemma AbandonedScanBlocks(events: seq<Event>, more: seq<Event>, i: nat, setting: Setting, configured: bool, now: real)
    requires Runs(events + more) && i < |After(events)| && Active(After(events)[i]) && After(events)[i].trigger.Own?
    requires forall k :: 0 <= k < |more| ==> !Finishes(more[k], i)
    ensures !Admits(After(events + more), After(events)[i].user, setting, configured, now)
  {
    ActiveUntilFinished(events, more, i);
    hide After, Runs, Active;
  }

  /**
   When a check is admitted, every earlier own scan of the user, failed or not, has started, and did so at least the
   cooldown in force before.
   */
  lemma {:induction false} AdmissionWaitsOutTheCooldown(events: seq<Event>, user: User, setting: Setting, now: real,
                                                        i: nat)
    requires Runs(events) && Admits(After(events), user, setting, true, now)
    requires i < |After(events)| && IsOwn(After(events)[i], user)
    ensures After(events)[i].startedAt.Some? && CooldownOf(setting).Some?
    ensures now - After(events)[i].startedAt.value >= CooldownOf(setting).value as real
  {
    AdmittedIsRested(After(events), user, setting, true, now);
    RunKeepsInv(events, 0.0);
    hide After, Runs, Follows;
    assert ScanInv(After(events)[i], events[|events| - 1].at);
  }

  /** With a cooldown never below `gap`, the starts of two own scans of one user are at least `gap` apart. */
  lemma {:induction false} StartsAreApart(events: seq<Event>, gap: real, i: nat, j: nat)
    requires Runs(events) && CooldownsReach(events, gap) && gap >= 0.0 && i < j < |After(events)|
    requires After(events)[i].user == After(events)[j].user
    requires After(events)[i].trigger.Own? && After(events)[j].trigger.Own? && After(events)[j].startedAt.Some?
    ensures After(events)[i].startedAt.Some?
    ensures After(events)[j].startedAt.value - After(events)[i].startedAt.value >= gap
  {
    RunKeepsInv(events, gap);
    hide After, Runs, CooldownsReach;
    assert ScanInv(After(events)[j], events[|events| - 1].at);
    assert Follows(After(events)[i], After(events)[j], gap);
  }

  // ---------- What became of a scan, by what its task reported ----------

  predicate Starts(e: Event, i: nat) {
    e.Start? && e.scan == i
  }

  /** Event `k` is the only one that finished scan `i`. */
  predicate OnlyFinish(events: seq<Event>, k: nat, i: nat)
    requires k < |events|
  {
    Finishes(events[k], i) && forall l :: 0 <= l < |events| && Finishes(events[l], i) ==> l == k
  }

  /** The scan started when its task began, if it did. */
  predicate StartedBy(events: seq<Event>, i: nat, start: Option<real>) {
    exists k :: 0 <= k < |events| && Starts(events[k], i) && events[k].Start? && start == Some(events[k].began)
  }

  predicate SucceededBy(events: seq<Event>, i: nat, scan: Scan) {
    exists k :: 0 <= k < |events| && OnlyFinish(events, k, i) && events[k].Succeed? &&
                scan.startedAt == Some(events[k].began) && scan.finishedAt == Some(events[k].began)
  }

  predicate FailedBy(events: seq<Event>, i: nat, scan: Scan) {
    exists k :: 0 <= k < |events| && OnlyFinish(events, k, i) && events[k].Fail? &&
                scan.finishedAt == Some(events[k].at)
  }

  predicate Unfinished(events: seq<Event>, i: nat) {
    forall k :: 0 <= k < |events| ==> !Finishes(events[k], i)
  }

  predicate NotStarted(events: seq<Event>, i: nat) {
    forall k :: 0 <= k < |events| ==> !Starts(events[k], i)
  }

  /** The scan is what its task's events made of it. */
  predicate IsAsReported(events: seq<Event>, i: nat, scan: Scan) {
    match scan.status
    case Pending => NotStarted(events, i) && Unfinished(events, i) && scan.startedAt == None && scan.finishedAt == None
    case Running => StartedBy(events, i, scan.startedAt) && Unfinished(events, i) && scan.finishedAt == None
    case Succeeded => SucceededBy(events, i, scan)
    case Failed => StartedBy(events, i, scan.startedAt) && FailedBy(events, i, scan)
  }

  /** No event speaks of a scan that is not there. */
  lemma {:induction false} NothingAboutLaterScans(events: seq<Event>, i: nat)
    requires Runs(events) && i >= |After(events)|
    ensures NotStarted(events, i) && Unfinished(events, i)
  {
    if events != [] {
      var n := |events| - 1;
      EventsAreOfScans(After(events[..n]), events[n], i);
      hide Allowed, Step, Starts, Finishes;
      NothingAboutLaterScans(events[..n], i);
      assert forall k :: 0 <= k < n ==> events[..n][k] == events[k];
    }
  }

  lemma EventsAreOfScans(scans: Scans, e: Event, i: nat)
    requires Allowed(scans, e) && i >= |Step(scans, e)|
    ensures i >= |scans| && !Starts(e, i) && !Finishes(e, i)
  {
    hide Admits;
  }

  lemma OtherEventKeepsReport(events: seq<Event>, e: Event, i: nat, scan: Scan)
    requires IsAsReported(events, i, scan) && !Starts(e, i) && !Finishes(e, i)
    ensures IsAsReported(events + [e], i, scan)
  {
    hide Starts, Finishes;
    var more := events + [e];
    if StartedBy(events, i, scan.startedAt) {
      StartStays(events, e, i, scan.startedAt);
    }
    if SucceededBy(events, i, scan) {
      var k :| 0 <= k < |events| && OnlyFinish(events, k, i) && events[k].Succeed? &&
          scan.startedAt == Some(events[k].began) && scan.finishedAt == Some(events[k].began);
      assert more[k] == events[k] && OnlyFinish(more, k, i);
    }
    if FailedBy(events, i, scan) {
      var k :| 0 <= k < |events| && OnlyFinish(events, k, i) && events[k].Fail? &&
          scan.finishedAt == Some(events[k].at);
      assert more[k] == events[k] && OnlyFinish(more, k, i);
    }
  }

  lemma StartStays(events: seq<Event>, e: Event, i: nat, start: Option<real>)
    requires StartedBy(events, i, start)
    ensures StartedBy(events + [e], i, start)
  {
    var k :| 0 <= k < |events| && Starts(events[k], i) && events[k].Start? && start == Some(events[k].began);
    assert (events + [e])[k] == events[k];
  }

  lemma OwnEventIsReported(events: seq<Event>, scans: Scans, e: Event, i: nat)
    requires i < |scans| && IsAsReported(events, i, scans[i]) && Allowed(scans, e) && (Starts(e, i) || Finishes(e, i))
    ensures i < |Step(scans, e)| && IsAsReported(events + [e], i, Step(scans, e)[i])
  {
    var more := events + [e];
    assert more[|events|] == e;
    if e.Start? {
      assert StartedBy(more, i, Some(e.began));
    } else {
      assert OnlyFinish(more, |events|, i);
      if e.Fail? {
        StartStays(events, e, i, scans[i].startedAt);
      }
    }
  }

  /**
   In every run a scan is pending until its task starts it and running until its task finishes it, which happens once:
   it has succeeded exactly if that reported success, and its times are those the task's events carried.
   */
  lemma {:induction false} ScansAreAsReported(events: seq<Event>, i: nat)
    requires Runs(events) && i < |After(events)|
    ensures IsAsReported(events, i, After(events)[i])
  {
    var n := |events| - 1;
    var rest, e := events[..n], events[n];
    var before := After(rest);
    assert rest + [e] == events;
    hide IsAsReported, Starts, Finishes, Admits;
    if i < |before| {
      ScansAreAsReported(rest, i);
      if Starts(e, i) || Finishes(e, i) {
        OwnEventIsReported(rest, before, e, i);
      } else {
        OtherEventKeepsReport(rest, e, i, before[i]);
        OthersChangeNothing(before, e, i);
      }
    } else {
      NothingAboutLaterScans(rest, i);
      NewScanIsPending(rest, before, e, i);
    }
  }

  lemma OthersChangeNothing(scans: Scans, e: Event, i: nat)
    requires Allowed(scans, e) && i < |scans| && !Starts(e, i) && !Finishes(e, i)
    ensures i < |Step(scans, e)| && Step(scans, e)[i] == scans[i]
  {
    hide Admits;
  }

  lemma NewScanIsPending(events: seq<Event>, scans: Scans, e: Event, i: nat)
    requires Allowed(scans, e) && |scans| <= i < |Step(scans, e)| && NotStarted(events, i) && Unfinished(events, i)
    ensures IsAsReported(events + [e], i, Step(scans, e)[i])
  {
    hide Admits;
  }

  // ---------- Where scans come from ----------

  /** The cooldown in seconds that the setting stands for: a day when it is unset, and a minute to thirty days. */
  predicate Stands(setting: Setting, seconds: int) {
    (setting.Unset? && seconds == 86400) || (setting == Number(seconds) && 60 <= seconds <= 2592000)
  }

  /**
   A check is admitted exactly if the service is configured and the cooldown readable, no own scan of the user is
   pending or running, and every one that ever started did so at least the cooldown ago.
   */
  lemma AdmittedExactly(scans: Scans, user: User, setting: Setting, configured: bool, now: real)
    ensures Admits(scans, user, setting, configured, now) <==>
            && configured
            && (forall i :: 0 <= i < |scans| && scans[i].user == user && scans[i].trigger.Own? ==>
                  !scans[i].status.Pending? && !scans[i].status.Running?)
            && exists seconds :: Stands(setting, seconds) &&
                 forall i :: 0 <= i < |scans| && scans[i].user == user && scans[i].trigger.Own? &&
                             scans[i].startedAt.Some? ==>
                   scans[i].startedAt.value + seconds as real <= now
  {
    AdmittedIsRested(scans, user, setting, configured, now);
    hide Admits;
    if CooldownOf(setting).Some? {
      assert Stands(setting, CooldownOf(setting).value);
    }
    assert forall seconds :: Stands(setting, seconds) ==> CooldownOf(setting) == Some(seconds);
  }

  /** In every run an own scan was admitted by a check of its user when the check was made; others were started. */
  lemma {:induction false} ScansWereAdmitted(events: seq<Event>, i: nat)
    requires Runs(events) && i < |After(events)|
    ensures exists k :: 0 <= k < |events| && AdmittedBy(events, k, After(events)[i])
  {
    var n := |events| - 1;
    var rest, e := events[..n], events[n];
    hide Admits;
    if i < |After(rest)| {
      ScansWereAdmitted(rest, i);
      var k :| 0 <= k < n && AdmittedBy(rest, k, After(rest)[i]);
      assert events[..k] == rest[..k] && events[k] == rest[k];
      assert AdmittedBy(events, k, After(events)[i]);
    } else {
      assert AdmittedBy(events, n, After(events)[i]);
    }
  }

  predicate AdmittedBy(events: seq<Event>, k: nat, scan: Scan)
    requires k < |events|
  {
    match events[k]
    case Check(user, setting, configured, at) =>
      && scan.user == user && scan.trigger == Own && scan.admittedAt == at
      && Admits(After(events[..k]), user, setting, configured, at)
    case OtherScan(user, at) => scan.user == user && scan.trigger == Other && scan.admittedAt == at
    case _ => false
  }
}
