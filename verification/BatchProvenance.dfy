/**
 Where every column of the queue comes from: rows from the users selected, claims from the worker that came first, ends
 from what the worker reported, and the batch's stamps from its claims and finishes.
 */
module BatchProvenance {
  import opened Wrappers
  import opened BatchQueue
  import opened BatchTheorems

  // ---------- What a worker reported ----------

  /** The step reported the end of this row as it is now. */
  predicate EndedBy(step: Step, r: RowId, row: Row) {
    && step.FinishOne? && step.row == r && row.finishedAt == Some(step.at)
    && (row.status.Succeeded? <==> step.ok) && (row.status.Failed? <==> !step.ok)
    && (step.ok ==> row.lastError == None)
    && (!step.ok ==>
          row.lastError == if step.error.None? || step.error.value == "" then Some("scan failed")
                           else Some(if |step.error.value| <= 255 then step.error.value else step.error.value[..255]))
    && row.lockedBy == None && row.lockedAt == None
  }

  /** Step `k` was the report that found the row running. */
  predicate Reports(tr: seq<State>, steps: seq<Step>, k: nat, r: RowId)
    requires k < |steps| && |tr| == |steps| + 1
  {
    steps[k].FinishOne? && steps[k].row == r && r in tr[k].rows && tr[k].rows[r].status.Running?
  }

  lemma FinishEnds(s: State, step: Step, s': State)
    requires Next(s, step, s') && step.FinishOne? && step.row in s.rows && s.rows[step.row].status.Running?
    ensures step.row in s'.rows && EndedBy(step, step.row, s'.rows[step.row])
  {
    hide HandedOut, Recounted;
  }

  lemma OtherStepsEndNothing(s: State, step: Step, s': State, r: RowId)
    requires Next(s, step, s') && r in s'.rows
    requires !(step.FinishOne? && step.row == r && r in s.rows && s.rows[r].status.Running?)
    ensures s'.rows[r].status.Terminal() ==> r in s.rows && s'.rows[r] == s.rows[r]
  {
    hide HandedOut, Recounted;
    match step
    case Create(emails, fold, at) =>
    case ClaimOne(worker, skip, at) =>
      var o :| ClaimStep(s, worker, at, skip, o, s');
    case FinishOne(q, b, ok, error, at) =>
  }

  /**
   In every run a terminal row ended as one worker reported: a step that found it running said whether it succeeded,
   with which error, and when.
   */
  lemma {:induction false} RowsEndAsReported(tr: seq<State>, steps: seq<Step>, i: nat, r: RowId)
    requires Run(tr, steps) && i < |tr| && r in tr[i].rows && tr[i].rows[r].status.Terminal()
    ensures exists k :: 0 <= k < i && Reports(tr, steps, k, r) && EndedBy(steps[k], r, tr[i].rows[r])
  {
    hide EndedBy, Next;
    var step := steps[i - 1];
    if step.FinishOne? && step.row == r && r in tr[i - 1].rows && tr[i - 1].rows[r].status.Running? {
      FinishEnds(tr[i - 1], step, tr[i]);
      assert Reports(tr, steps, i - 1, r);
    } else {
      OtherStepsEndNothing(tr[i - 1], step, tr[i], r);
      RowsEndAsReported(tr, steps, i - 1, r);
    }
  }

  /** And every such report is what the row ended as. */
  lemma {:induction false} ReportsEndRows(tr: seq<State>, steps: seq<Step>, k: nat, i: nat, r: RowId)
    requires Run(tr, steps) && k < i < |tr| && Reports(tr, steps, k, r)
    ensures r in tr[i].rows && tr[i].rows[r].status.Terminal() && EndedBy(steps[k], r, tr[i].rows[r])
  {
    FinishEnds(tr[k], steps[k], tr[k + 1]);
    EndedIsTerminal(steps[k], r, tr[k + 1].rows[r]);
    hide EndedBy;
    TerminalRowIsFinal(tr, steps, k + 1, i, r);
  }

  lemma EndedIsTerminal(step: Step, r: RowId, row: Row)
    requires EndedBy(step, r, row)
    ensures row.status.Terminal() && step.FinishOne? && (row.status.Succeeded? <==> step.ok)
  {
  }

  /** Step `k` was such a report of success. */
  predicate Succeeds(tr: seq<State>, steps: seq<Step>, k: nat, r: RowId)
    requires k < |steps| && |tr| == |steps| + 1
  {
    Reports(tr, steps, k, r) && steps[k].FinishOne? && steps[k].ok
  }

  /** So a batch has succeeded exactly when every row of it was reported to have succeeded. */
  lemma BatchSucceedsExactly(tr: seq<State>, steps: seq<Step>, i: nat, b: BatchId)
    requires Run(tr, steps) && i < |tr| && b in tr[i].batches
    ensures tr[i].batches[b].status.AllSucceeded? <==>
            forall r :: r in tr[i].rows && tr[i].rows[r].batch == b ==>
              exists k :: 0 <= k < i && Succeeds(tr, steps, k, r)
  {
    BatchIsDerived(tr, steps, i, b);
    forall r | r in tr[i].rows
      ensures tr[i].rows[r].status.Succeeded? <==> exists k :: 0 <= k < i && Succeeds(tr, steps, k, r)
    {
      SucceededWhenReported(tr, steps, i, r);
    }
    hide Run, Succeeds;
  }

  lemma SucceededWhenReported(tr: seq<State>, steps: seq<Step>, i: nat, r: RowId)
    requires Run(tr, steps) && i < |tr| && r in tr[i].rows
    ensures tr[i].rows[r].status.Succeeded? <==> exists k :: 0 <= k < i && Succeeds(tr, steps, k, r)
  {
    forall k | 0 <= k < i && Succeeds(tr, steps, k, r)
      ensures tr[i].rows[r].status.Succeeded?
    {
      ReportsEndRows(tr, steps, k, i, r);
      EndedIsTerminal(steps[k], r, tr[i].rows[r]);
    }
    if tr[i].rows[r].status.Succeeded? {
      RowsEndAsReported(tr, steps, i, r);
      var k :| 0 <= k < i && Reports(tr, steps, k, r) && EndedBy(steps[k], r, tr[i].rows[r]);
      EndedIsTerminal(steps[k], r, tr[i].rows[r]);
      assert Succeeds(tr, steps, k, r);
    }
  }

  // ---------- Who holds a row ----------

  /** The step claimed the running row as it is now. */
  predicate HeldBy(step: Step, row: Row) {
    && step.ClaimOne? && row.lockedAt == Some(step.at) && row.lastError == None
    && row.lockedBy == Some(if |step.worker| <= 255 then step.worker else step.worker[..255])
  }

  /** The step claimed row `r`: the row and nobody else's has one attempt more. */
  predicate Claims(s: State, step: Step, s': State, r: RowId) {
    && step.ClaimOne? && r in s.rows && r in s'.rows && s'.rows[r].attempts == s.rows[r].attempts + 1
    && s'.rows[r].status.Running?
  }

  lemma StepKeepsHolder(s: State, step: Step, s': State, r: RowId)
    requires Next(s, step, s') && r in s'.rows && s'.rows[r].status.Running?
    ensures r in s.rows
    ensures Claims(s, step, s', r) ==> HeldBy(step, s'.rows[r])
    ensures !Claims(s, step, s', r) ==> s'.rows[r] == s.rows[r]
  {
    hide HandedOut, Recounted;
    match step
    case Create(emails, fold, at) =>
    case ClaimOne(worker, skip, at) =>
      var o :| ClaimStep(s, worker, at, skip, o, s');
    case FinishOne(q, b, ok, error, at) =>
  }

  /** In every run a running row is held by the worker and since the time of its latest claim. */
  lemma {:induction false} RunningRowsNameTheirClaimer(tr: seq<State>, steps: seq<Step>, i: nat, r: RowId)
    requires Run(tr, steps) && i < |tr| && r in tr[i].rows && tr[i].rows[r].status.Running?
    ensures exists k :: 0 <= k < i && IsLatestClaim(tr, steps, k, i, r) && HeldBy(steps[k], tr[i].rows[r])
  {
    hide HeldBy, Claims, Next;
    StepKeepsHolder(tr[i - 1], steps[i - 1], tr[i], r);
    if Claims(tr[i - 1], steps[i - 1], tr[i], r) {
      assert IsLatestClaim(tr, steps, i - 1, i, r);
    } else {
      RunningRowsNameTheirClaimer(tr, steps, i - 1, r);
      var k :| 0 <= k < i - 1 && IsLatestClaim(tr, steps, k, i - 1, r) && HeldBy(steps[k], tr[i - 1].rows[r]);
      assert IsLatestClaim(tr, steps, k, i, r);
    }
  }

  predicate IsLatestClaim(tr: seq<State>, steps: seq<Step>, k: nat, i: nat, r: RowId)
    requires k < i <= |steps| && |tr| == |steps| + 1
  {
    Claims(tr[k], steps[k], tr[k + 1], r) && forall l :: k < l < i ==> !Claims(tr[l], steps[l], tr[l + 1], r)
  }

  // ---------- Which row a claim takes ----------

  /** Work to be done: never claimed, or claimed more than ten minutes ago and not finished. */
  predicate Waits(s: State, r: RowId, at: int) {
    && r in s.rows
    && (s.rows[r].status.Queued? || (s.rows[r].status.Running? && ClaimedBefore(s.claims, r, at - 600)))
  }

  predicate ClaimedBefore(claims: seq<Claim>, r: RowId, limit: int) {
    exists i :: 0 <= i < |claims| && IsLastClaimOf(claims, i, r) && claims[i].at < limit
  }

  predicate IsLastClaimOf(claims: seq<Claim>, i: nat, r: RowId)
    requires i < |claims|
  {
    claims[i].row == r && forall j :: i < j < |claims| ==> claims[j].row != r
  }

  lemma {:induction false} LastTimeIsLastClaim(claims: seq<Claim>, r: RowId)
    requires ClaimTimes(claims, r) != []
    ensures var times := ClaimTimes(claims, r);
            exists i :: 0 <= i < |claims| && IsLastClaimOf(claims, i, r) && claims[i].at == times[|times| - 1]
  {
    var n := |claims| - 1;
    if claims[n].row == r {
      assert IsLastClaimOf(claims, n, r);
    } else {
      LastTimeIsLastClaim(claims[..n], r);
      var times := ClaimTimes(claims[..n], r);
      assert times == ClaimTimes(claims, r);
      var i :| 0 <= i < n && IsLastClaimOf(claims[..n], i, r) && claims[..n][i].at == times[|times| - 1];
      assert IsLastClaimOf(claims, i, r);
    }
  }

  lemma WaitingIsClaimable(s: State, r: RowId, at: int)
    requires Inv(s) && r in s.rows
    ensures Waits(s, r, at) <==> Claimable(s.rows[r], at)
  {
    RowAgrees(s, r);
    LastTimeDecides(s.claims, r, at - 600);
    hide Inv, RowOk, ClaimedBefore;
  }

  lemma RowAgrees(s: State, r: RowId)
    requires Inv(s) && r in s.rows
    ensures var times := ClaimTimes(s.claims, r);
            s.rows[r].status.Running? ==> times != [] && s.rows[r].lockedAt == Some(times[|times| - 1])
  {
    hide NamesOk, AllBatchesOk, FarApart;
    assert RowOk(s.rows[r], Times(s)(r));
    hide RowsOk;
  }

  lemma LastTimeDecides(claims: seq<Claim>, r: RowId, limit: int)
    ensures var times := ClaimTimes(claims, r);
            times != [] ==> (ClaimedBefore(claims, r, limit) <==> times[|times| - 1] < limit)
  {
    hide ClaimTimes;
    if ClaimTimes(claims, r) != [] {
      LastTimeIsLastClaim(claims, r);
    }
  }

  /** The waiting row that comes first: the one created first, and of those the one with the lowest id. */
  ghost predicate IsFirstWaiting(s: State, skip: set<RowId>, at: int, r: RowId) {
    && r !in skip && Waits(s, r, at)
    && forall q :: q !in skip && Waits(s, q, at) ==>
         s.rows[r].created < s.rows[q].created || (s.rows[r].created == s.rows[q].created && r <= q)
  }

  /**
   In every run a claim takes the row that has waited longest of those not locked elsewhere, an abandoned one among
   them, and takes none only when none waits; every other row stays as it is.
   */
  lemma ClaimsTakeTheFirstWaiting(tr: seq<State>, steps: seq<Step>, k: nat)
    requires Run(tr, steps) && k < |steps| && steps[k].ClaimOne?
    ensures var s, skip, at, s' := tr[k], steps[k].skip, steps[k].at, tr[k + 1];
            if exists r :: r !in skip && Waits(s, r, at)
            then exists r :: IsFirstWaiting(s, skip, at, r) && Claims(s, steps[k], s', r) && OthersStay(s, s', r)
            else s' == s
  {
    RunKeepsInv(tr, steps, k);
    assert Next(tr[k], steps[k], tr[k + 1]);
    hide Run;
    ClaimTakesTheFirstWaiting(tr[k], steps[k], tr[k + 1]);
  }

  predicate OthersStay(s: State, s': State, r: RowId) {
    s'.rows.Keys == s.rows.Keys && forall q :: q in s.rows && q != r ==> s'.rows[q] == s.rows[q]
  }

  lemma ClaimTakesTheFirstWaiting(s: State, step: Step, s': State)
    requires Inv(s) && Next(s, step, s') && step.ClaimOne?
    ensures if exists r :: r !in step.skip && Waits(s, r, step.at)
            then exists r :: IsFirstWaiting(s, step.skip, step.at, r) && Claims(s, step, s', r) && OthersStay(s, s', r)
            else s' == s
  {
    forall r | r in s.rows
      ensures Waits(s, r, step.at) <==> Claimable(s.rows[r], step.at)
    {
      WaitingIsClaimable(s, r, step.at);
    }
    hide Inv, Waits, Claimable, IsFirstWaiting, Candidates;
    var o :| ClaimStep(s, step.worker, step.at, step.skip, o, s');
    match o
    case None => NoCandidateNoneWaits(s, step.skip, step.at);
    case Some(r) =>
      FirstIsFirst(s, step.skip, step.at, r);
      CandidateWaits(s, step.skip, step.at, r);
      TakenRow(s, step, s', r);
  }

  lemma NoCandidateNoneWaits(s: State, skip: set<RowId>, at: int)
    requires forall q :: q in s.rows ==> (Waits(s, q, at) <==> Claimable(s.rows[q], at))
    requires Candidates(s.rows, skip, at) == {}
    ensures forall r :: r !in skip ==> !Waits(s, r, at)
  {
    WaitingAreStored(s, at);
    hide Waits, Claimable;
    forall r | r !in skip
      ensures !Waits(s, r, at)
    {
      assert r !in Candidates(s.rows, skip, at);
    }
  }

  lemma CandidateWaits(s: State, skip: set<RowId>, at: int, r: RowId)
    requires forall q :: q in s.rows ==> (Waits(s, q, at) <==> Claimable(s.rows[q], at))
    requires r in Candidates(s.rows, skip, at)
    ensures r !in skip && Waits(s, r, at)
  {
  }

  lemma TakenRow(s: State, step: Step, s': State, r: RowId)
    requires step.ClaimOne? && r in s.rows && s.rows[r].batch in s.batches && s' == Claimed(s, r, step.worker, step.at)
    ensures Claims(s, step, s', r) && OthersStay(s, s', r)
  {
  }

  lemma WaitingAreStored(s: State, at: int)
    ensures forall r :: Waits(s, r, at) ==> r in s.rows
  {
  }

  lemma FirstIsFirst(s: State, skip: set<RowId>, at: int, r: RowId)
    requires forall q :: q in s.rows ==> (Waits(s, q, at) <==> Claimable(s.rows[q], at))
    requires r in Candidates(s.rows, skip, at)
    requires forall q :: q in Candidates(s.rows, skip, at) ==> Precedes(s.rows, r, q)
    ensures r in s.rows && IsFirstWaiting(s, skip, at, r)
  {
    WaitingAreStored(s, at);
    hide Waits, Claimable;
    forall q | q !in skip && Waits(s, q, at)
      ensures s.rows[r].created < s.rows[q].created || (s.rows[r].created == s.rows[q].created && r <= q)
    {
      assert q in Candidates(s.rows, skip, at);
    }
  }

  // ---------- Where rows come from ----------

  /** The step queued the row for one of its users. */
  predicate QueuedBy(s: State, step: Step, row: Row) {
    && step.Create? && row.created == step.at && row.batch == s.nextBatch
    && exists i :: 0 <= i < |step.emails| && row.subject == step.fold(step.emails[i])
  }

  lemma StepKeepsRowOrigin(s: State, step: Step, s': State, r: RowId)
    requires Next(s, step, s') && r in s'.rows
    ensures r in s.rows ==>
              && s'.rows[r].batch == s.rows[r].batch && s'.rows[r].subject == s.rows[r].subject
              && s'.rows[r].created == s.rows[r].created
    ensures r !in s.rows ==> QueuedBy(s, step, s'.rows[r])
  {
    hide HandedOut, Recounted;
    match step
    case Create(emails, fold, at) =>
    case ClaimOne(worker, skip, at) =>
      var o :| ClaimStep(s, worker, at, skip, o, s');
    case FinishOne(q, b, ok, error, at) =>
  }

  /** In every run each row was queued for a user selected by the creation of its batch, at the time of that. */
  lemma {:induction false} RowsComeFromSelections(tr: seq<State>, steps: seq<Step>, i: nat, r: RowId)
    requires Run(tr, steps) && i < |tr| && r in tr[i].rows
    ensures exists k :: 0 <= k < i && QueuedBy(tr[k], steps[k], tr[i].rows[r])
  {
    hide Next, QueuedBy;
    StepKeepsRowOrigin(tr[i - 1], steps[i - 1], tr[i], r);
    if r in tr[i - 1].rows {
      RowsComeFromSelections(tr, steps, i - 1, r);
      var k :| 0 <= k < i - 1 && QueuedBy(tr[k], steps[k], tr[i - 1].rows[r]);
      SameOrigin(tr[k], steps[k], tr[i - 1].rows[r], tr[i].rows[r]);
      assert QueuedBy(tr[k], steps[k], tr[i].rows[r]);
    } else {
      assert QueuedBy(tr[i - 1], steps[i - 1], tr[i].rows[r]);
    }
  }

  lemma SameOrigin(s: State, step: Step, row: Row, row': Row)
    requires QueuedBy(s, step, row)
    requires row'.batch == row.batch && row'.subject == row.subject && row'.created == row.created
    ensures QueuedBy(s, step, row')
  {
  }

  // ---------- The stamps of a batch ----------

  /** The batch started with its first claim, and has an end exactly when it is finished. */
  ghost predicate StampsOk(claims: seq<Claim>, b: BatchId, batch: Batch) {
    && (batch.startedAt.None? <==> batch.status.Pending?) && (batch.finishedAt.Some? <==> batch.status.Finished())
    && (batch.status.Pending? ==> forall i :: 0 <= i < |claims| ==> claims[i].batch != b)
    && (batch.startedAt.Some? ==>
          exists i :: 0 <= i < |claims| && IsFirstClaimOf(claims, i, b) && batch.startedAt == Some(claims[i].at))
  }

  predicate IsFirstClaimOf(claims: seq<Claim>, i: nat, b: BatchId)
    requires i < |claims|
  {
    claims[i].batch == b && forall j :: 0 <= j < i ==> claims[j].batch != b
  }

  ghost predicate AllStamped(s: State) {
    forall b :: b in s.batches ==> StampsOk(s.claims, b, s.batches[b])
  }

  lemma ClaimKeepsStamps(claims: seq<Claim>, claim: Claim, b: BatchId, batch: Batch, batch': Batch)
    requires StampsOk(claims, b, batch)
    requires batch' == if claim.batch == b && batch.status.Pending?
                       then batch.(status := Active, startedAt := Some(claim.at)) else batch
    ensures StampsOk(claims + [claim], b, batch')
  {
    var more := claims + [claim];
    assert forall j :: 0 <= j < |claims| ==> more[j] == claims[j];
    if batch.startedAt.Some? {
      var i :| 0 <= i < |claims| && IsFirstClaimOf(claims, i, b) && batch.startedAt == Some(claims[i].at);
      assert IsFirstClaimOf(more, i, b) && more[i] == claims[i];
    } else if claim.batch == b {
      assert IsFirstClaimOf(more, |claims|, b);
    }
  }

  lemma FinishKeepsStamps(rows: map<RowId, Row>, claims: seq<Claim>, b: BatchId, batch: Batch, at: int)
    requires StampsOk(claims, b, batch)
    requires !batch.status.Pending?
    ensures StampsOk(claims, b, Recounted(rows, b, batch, at))
  {
    hide RowsOf, WithStatus;
  }

  lemma CreateKeepsStamps(s: State, emails: seq<string>, fold: string -> Subject, at: int, s': State)
    requires NamesOk(s) && AllStamped(s) && CreateStep(s, emails, fold, at, s')
    ensures AllStamped(s')
  {
    hide Filled;
    if emails != [] {
      forall b | b in s'.batches
        ensures StampsOk(s'.claims, b, s'.batches[b])
      {
        if b == s.nextBatch {
          assert forall i :: 0 <= i < |s.claims| ==> s.claims[i].batch in s.batches;
        }
      }
    }
  }

  lemma StepKeepsStamps(s: State, step: Step, s': State)
    requires Inv(s) && AllStamped(s) && Next(s, step, s')
    ensures AllStamped(s')
  {
    hide RowsOk, AllBatchesOk, StampsOk;
    match step
    case Create(emails, fold, at) => CreateKeepsStamps(s, emails, fold, at, s');
    case ClaimOne(worker, skip, at) =>
      var o :| ClaimStep(s, worker, at, skip, o, s');
      if o.Some? {
        ClaimedStamps(s, o.value, worker, at);
      }
    case FinishOne(r, b, ok, error, at) =>
      FinisherStarted(s, r, b);
      hide NamesOk, Recounted;
      FinishedStamps(s, r, b, ok, error, at);
  }

  lemma ClaimedStamps(s: State, r: RowId, worker: string, at: int)
    requires AllStamped(s) && r in s.rows && s.rows[r].batch in s.batches
    ensures AllStamped(Claimed(s, r, worker, at))
  {
    hide StampsOk;
    var s' := Claimed(s, r, worker, at);
    forall b | b in s'.batches
      ensures StampsOk(s'.claims, b, s'.batches[b])
    {
      ClaimKeepsStamps(s.claims, Claim(r, s.rows[r].batch, at), b, s.batches[b], s'.batches[b]);
    }
  }

  lemma FinisherStarted(s: State, r: RowId, b: BatchId)
    requires AllStamped(s) && HandedOut(s, r, b) && b in s.batches
    ensures !s.batches[b].status.Pending?
  {
    assert StampsOk(s.claims, b, s.batches[b]);
  }

  lemma FinishedStamps(s: State, r: RowId, b: BatchId, ok: bool, error: Option<string>, at: int)
    requires AllStamped(s) && b in s.batches && !s.batches[b].status.Pending?
    ensures AllStamped(Finished(s, r, b, ok, error, at))
  {
    hide StampsOk, Recounted, Ended;
    var s' := Finished(s, r, b, ok, error, at);
    FinishKeepsStamps(s'.rows, s.claims, b, s.batches[b], at);
  }

  /** In every run a batch has started exactly with its first claim, and has an end exactly when it is finished. */
  lemma {:induction false} BatchesAreStamped(tr: seq<State>, steps: seq<Step>, i: nat)
    requires Run(tr, steps) && i < |tr|
    ensures AllStamped(tr[i])
  {
    hide Next, Inv, AllStamped;
    if i > 0 {
      BatchesAreStamped(tr, steps, i - 1);
      RunKeepsInv(tr, steps, i - 1);
      StepKeepsStamps(tr[i - 1], steps[i - 1], tr[i]);
    } else {
      NothingStamped();
    }
  }

  lemma NothingStamped()
    ensures AllStamped(EMPTY)
  {
  }

  /** The end of a finished batch is the time of the latest report about any of its rows. */
  lemma {:induction false} FinishedAtTheLatestReport(tr: seq<State>, steps: seq<Step>, i: nat, b: BatchId)
    requires Run(tr, steps) && i < |tr| && b in tr[i].batches && tr[i].batches[b].status.Finished()
    ensures exists k :: 0 <= k < i && IsLatestReport(steps, k, i, b, tr[i].batches[b].finishedAt)
  {
    hide Inv, Next;
    RunKeepsInv(tr, steps, i);
    RunKeepsInv(tr, steps, i - 1);
    assert Next(tr[i - 1], steps[i - 1], tr[i - 1 + 1]);
    StepStampsTheEnd(tr[i - 1], steps[i - 1], tr[i], b);
    if IsReport(steps[i - 1], b) {
      assert IsLatestReport(steps, i - 1, i, b, tr[i].batches[b].finishedAt);
    } else {
      FinishedAtTheLatestReport(tr, steps, i - 1, b);
      var k :| 0 <= k < i - 1 && IsLatestReport(steps, k, i - 1, b, tr[i - 1].batches[b].finishedAt);
      assert IsLatestReport(steps, k, i, b, tr[i].batches[b].finishedAt);
    }
  }

  predicate IsReport(step: Step, b: BatchId) {
    step.FinishOne? && step.batch == b
  }

  predicate IsLatestReport(steps: seq<Step>, k: nat, i: nat, b: BatchId, end: Option<int>)
    requires k < i <= |steps|
  {
    IsReport(steps[k], b) && end == Some(steps[k].at) && forall l :: k < l < i ==> !IsReport(steps[l], b)
  }

  lemma StepStampsTheEnd(s: State, step: Step, s': State, b: BatchId)
    requires Inv(s) && Inv(s') && Next(s, step, s') && b in s'.batches && s'.batches[b].status.Finished()
    ensures IsReport(step, b) ==> s'.batches[b].finishedAt == Some(step.at)
    ensures !IsReport(step, b) ==> b in s.batches && s'.batches[b] == s.batches[b]
  {
    if step.FinishOne? && step.batch == b {
      FinishStampsTheEnd(s, step, s', b);
    } else {
      hide Inv;
      OthersKeepTheEnd(s, step, s', b);
    }
  }

  lemma OthersKeepTheEnd(s: State, step: Step, s': State, b: BatchId)
    requires Next(s, step, s') && b in s'.batches && s'.batches[b].status.Finished() && !IsReport(step, b)
    ensures b in s.batches && s'.batches[b] == s.batches[b]
  {
    hide Filled, Candidates, HandedOut, Recounted, Ended;
    match step
    case Create(emails, fold, at) =>
    case ClaimOne(worker, skip, at) =>
      var o :| ClaimStep(s, worker, at, skip, o, s');
    case FinishOne(r, c, ok, error, at) =>
  }

  lemma FinishStampsTheEnd(s: State, step: Step, s': State, b: BatchId)
    requires Inv(s') && Next(s, step, s') && IsReport(step, b) && b in s'.batches && s'.batches[b].status.Finished()
    ensures s'.batches[b].finishedAt == Some(step.at)
  {
    hide Inv, HandedOut, Ended, Fits, ShapeOf, RowsOf, WithStatus;
    BatchFits(s', b);
    FinishedMeansAll(s'.rows, b, s'.batches[b]);
  }

  lemma BatchFits(s: State, b: BatchId)
    requires Inv(s) && b in s.batches
    ensures Fits(ShapeOf(s.rows, b), s.batches[b])
  {
    hide NamesOk, RowsOk, Fits, ShapeOf;
  }

  lemma FinishedMeansAll(rows: map<RowId, Row>, b: BatchId, batch: Batch)
    requires Fits(ShapeOf(rows, b), batch) && batch.status.Finished()
    ensures |WithStatus(rows, b, Succeeded)| + |WithStatus(rows, b, Failed)| == |RowsOf(rows, b)|
  {
    StatusesAreDisjoint(rows, b);
    TerminalCount(ShapeOf(rows, b));
  }
}
