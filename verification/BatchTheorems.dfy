/** What every interleaving of creations, claims, takeovers and late finishers keeps. */
module BatchTheorems {
  import opened Wrappers
  import opened BatchQueue

  /** The times at which a row was claimed, in order. */
  function ClaimTimes(claims: seq<Claim>, r: RowId): seq<int> {
    if claims == [] then []
    else
      var last := claims[|claims| - 1];
      ClaimTimes(claims[..|claims| - 1], r) + if last.row == r then [last.at] else []
  }

  function Times(s: State): RowId -> seq<int> {
    (r: RowId) => ClaimTimes(s.claims, r)
  }

  /** Every claim of a row is stamped more than the stale period after each earlier one. */
  ghost predicate FarApart(times: seq<int>) {
    forall i, j :: 0 <= i < j < |times| ==> times[i] + STALE_AFTER < times[j]
  }

  /** A row agrees with the claims made on it. */
  ghost predicate RowOk(row: Row, times: seq<int>) {
    && row.attempts == |times| && FarApart(times)
    && (row.status.Queued? <==> times == [])
    && (row.status.Running? ==> row.lockedAt == Some(times[|times| - 1]))
    && (row.status.Terminal() ==> row.lockedAt.None?)
  }

  ghost predicate RowsOk(rows: map<RowId, Row>, next: RowId, times: RowId -> seq<int>) {
    && (forall r :: r in rows ==> r < next && RowOk(rows[r], times(r)))
    && (forall r :: r !in rows ==> times(r) == [])
  }

  /** The rows of a batch, by status. */
  datatype Shape = Shape(whole: set<RowId>, queued: set<RowId>, succeeded: set<RowId>, failed: set<RowId>)

  function ShapeOf(rows: map<RowId, Row>, b: BatchId): Shape {
    Shape(RowsOf(rows, b), WithStatus(rows, b, Queued), WithStatus(rows, b, Succeeded), WithStatus(rows, b, Failed))
  }

  /** Counters and status of a batch are what the shape of its rows says. */
  predicate Fits(shape: Shape, batch: Batch) {
    && shape.whole != {}
    && batch.completed == |shape.succeeded| && batch.failed == |shape.failed|
    && (batch.status.Pending? <==> shape.queued == shape.whole)
    && (batch.status.Finished() <==> shape.succeeded + shape.failed == shape.whole)
    && (batch.status.AllSucceeded? <==> shape.succeeded == shape.whole)
  }

  /** Rows and claims name existing batches, and agree on them. */
  ghost predicate NamesOk(s: State) {
    && (forall r :: r in s.rows ==> s.rows[r].batch in s.batches)
    && (forall b :: b in s.batches ==> b < s.nextBatch)
    && (forall i :: 0 <= i < |s.claims| ==>
         s.claims[i].row in s.rows && s.claims[i].batch == s.rows[s.claims[i].row].batch)
  }

  ghost predicate AllBatchesOk(rows: map<RowId, Row>, batches: map<BatchId, Batch>) {
    forall b :: b in batches ==> Fits(ShapeOf(rows, b), batches[b])
  }

  ghost predicate Inv(s: State) {
    NamesOk(s) && RowsOk(s.rows, s.nextRow, Times(s)) && AllBatchesOk(s.rows, s.batches)
  }

  // ---------- Claims ----------

  lemma TimesAfterClaim(claims: seq<Claim>, c: Claim, r: RowId)
    ensures ClaimTimes(claims + [c], r) == if c.row == r then ClaimTimes(claims, r) + [c.at] else ClaimTimes(claims, r)
  {
    assert (claims + [c])[..|claims|] == claims;
    assert ClaimTimes(claims, r) + [] == ClaimTimes(claims, r);
  }

  lemma ClaimedRowOk(row: Row, times: seq<int>, at: int, row': Row)
    requires RowOk(row, times) && Claimable(row, at)
    requires row'.status.Running? && row'.lockedAt == Some(at) && row'.attempts == row.attempts + 1
    ensures RowOk(row', times + [at])
  {
    var times' := times + [at];
    forall i, j | 0 <= i < j < |times'|
      ensures times'[i] + STALE_AFTER < times'[j]
    {
      if j == |times| && i < |times| - 1 {
        assert times[i] + STALE_AFTER < times[|times| - 1];
      }
    }
  }

  lemma ClaimKeepsRows(s: State, r: RowId, worker: string, at: int)
    requires RowsOk(s.rows, s.nextRow, Times(s)) && r in s.rows && s.rows[r].batch in s.batches &&
             Claimable(s.rows[r], at)
    ensures var s' := Claimed(s, r, worker, at); RowsOk(s'.rows, s'.nextRow, Times(s'))
  {
    var s' := Claimed(s, r, worker, at);
    ClaimExtendsTimes(s, r, worker, at);
    assert RowOk(s.rows[r], Times(s)(r));
    ClaimedRowOk(s.rows[r], Times(s)(r), at, s'.rows[r]);
    ClaimedRow(s, r, worker, at);
    hide *;
    OneRowChanged(s.rows, s.nextRow, Times(s), r, s'.rows, Times(s'));
  }

  lemma ClaimExtendsTimes(s: State, r: RowId, worker: string, at: int)
    requires r in s.rows && s.rows[r].batch in s.batches
    ensures forall q :: Times(Claimed(s, r, worker, at))(q) == if q == r then Times(s)(q) + [at] else Times(s)(q)
  {
    forall q {
      TimesAfterClaim(s.claims, Claim(r, s.rows[r].batch, at), q);
    }
    hide ClaimTimes;
  }

  lemma ClaimedRow(s: State, r: RowId, worker: string, at: int)
    requires r in s.rows && s.rows[r].batch in s.batches
    ensures var s' := Claimed(s, r, worker, at);
            && s'.nextRow == s.nextRow && s'.rows.Keys == s.rows.Keys
            && forall q :: q in s.rows && q != r ==> s'.rows[q] == s.rows[q]
  {
    hide Short;
  }

  /** All rows agree with their claims if the changed one does. */
  lemma OneRowChanged(rows: map<RowId, Row>, next: RowId, times: RowId -> seq<int>, r: RowId, rows': map<RowId, Row>,
                      times': RowId -> seq<int>)
    requires RowsOk(rows, next, times) && r in rows && rows'.Keys == rows.Keys && RowOk(rows'[r], times'(r))
    requires forall q :: q in rows && q != r ==> rows'[q] == rows[q]
    requires forall q :: q != r ==> times'(q) == times(q)
    ensures RowsOk(rows', next, times')
  {
    hide RowOk;
  }

  /** A batch none of whose rows changed status or membership. */
  lemma SameShape(rows: map<RowId, Row>, rows': map<RowId, Row>, b: BatchId)
    requires forall r :: (r in rows' && rows'[r].batch == b) <==> (r in rows && rows[r].batch == b)
    requires forall r :: r in rows && rows[r].batch == b ==> rows'[r].status == rows[r].status
    ensures ShapeOf(rows', b) == ShapeOf(rows, b)
  {
  }

  lemma StatusesAreDisjoint(rows: map<RowId, Row>, b: BatchId)
    ensures var t := ShapeOf(rows, b);
            t.queued !! t.succeeded !! t.failed && t.queued + t.succeeded + t.failed <= t.whole
  {
  }

  ghost predicate RowStarted(rows: map<RowId, Row>, rows': map<RowId, Row>, r: RowId) {
    && r in rows && !rows[r].status.Terminal()
    && rows'.Keys == rows.Keys && rows'[r].batch == rows[r].batch && rows'[r].status.Running?
    && forall q :: q in rows && q != r ==> rows'[q] == rows[q]
  }

  lemma StartedShape(rows: map<RowId, Row>, rows': map<RowId, Row>, r: RowId)
    requires RowStarted(rows, rows', r)
    ensures var t := ShapeOf(rows, rows[r].batch);
            ShapeOf(rows', rows[r].batch) == t.(queued := t.queued - {r}) && r in t.whole &&
              r !in t.succeeded + t.failed
  {
    var b := rows[r].batch;
    assert RowsOf(rows', b) == RowsOf(rows, b);
    assert WithStatus(rows', b, Queued) == WithStatus(rows, b, Queued) - {r};
    assert WithStatus(rows', b, Succeeded) == WithStatus(rows, b, Succeeded);
    assert WithStatus(rows', b, Failed) == WithStatus(rows, b, Failed);
  }

  lemma ClaimedFits(rows: map<RowId, Row>, rows': map<RowId, Row>, r: RowId, batch: Batch, batch': Batch)
    requires RowStarted(rows, rows', r) && Fits(ShapeOf(rows, rows[r].batch), batch)
    requires var status := if batch.status.Pending? then Active else batch.status;
             batch' == batch.(status := status, startedAt := batch'.startedAt)
    ensures Fits(ShapeOf(rows', rows[r].batch), batch')
  {
    StartedShape(rows, rows', r);
    hide RowStarted, ShapeOf;
    assert r !in ShapeOf(rows', rows[r].batch).queued;
  }

  /** Row `r` changed, and its batch is in step again; then all batches are. */
  lemma OneBatchChanged(rows: map<RowId, Row>, batches: map<BatchId, Batch>, r: RowId, rows': map<RowId, Row>,
                        batches': map<BatchId, Batch>)
    requires AllBatchesOk(rows, batches)
    requires r in rows && rows'.Keys == rows.Keys && rows'[r].batch == rows[r].batch
    requires forall q :: q in rows && q != r ==> rows'[q] == rows[q]
    requires batches'.Keys == batches.Keys && forall b :: b in batches && b != rows[r].batch ==>
               batches'[b] == batches[b]
    requires rows[r].batch in batches && Fits(ShapeOf(rows', rows[r].batch), batches'[rows[r].batch])
    ensures AllBatchesOk(rows', batches')
  {
    hide Fits;
    forall b | b in batches'
      ensures Fits(ShapeOf(rows', b), batches'[b])
    {
      if b != rows[r].batch {
        SameShape(rows, rows', b);
      }
    }
  }

  lemma ClaimKeepsInv(s: State, r: RowId, worker: string, at: int)
    requires Inv(s) && r in s.rows && Claimable(s.rows[r], at)
    ensures Inv(Claimed(s, r, worker, at))
  {
    hide Fits, ShapeOf, RowOk;
    var s', b := Claimed(s, r, worker, at), s.rows[r].batch;
    ClaimKeepsRows(s, r, worker, at);
    ClaimedFits(s.rows, s'.rows, r, s.batches[b], s'.batches[b]);
    OneBatchChanged(s.rows, s.batches, r, s'.rows, s'.batches);
  }

  // ---------- Finishing ----------

  lemma TerminalCount(t: Shape)
    requires t.succeeded !! t.failed && t.succeeded + t.failed <= t.whole
    ensures |t.succeeded| + |t.failed| == |t.whole| <==> t.succeeded + t.failed == t.whole
    ensures t.succeeded + t.failed == t.whole ==> (|t.failed| == 0 <==> t.succeeded == t.whole)
    ensures t.succeeded == t.whole ==> t.succeeded + t.failed == t.whole
  {
    var terminal := t.succeeded + t.failed;
    assert |terminal| == |t.succeeded| + |t.failed|;
    assert |t.whole - terminal| == |t.whole| - |terminal|;
    if |terminal| == |t.whole| {
      assert t.whole - terminal == {};
    }
    if t.succeeded == t.whole {
      assert terminal == t.whole && t.failed <= t.whole;
    }
    if terminal == t.whole && t.succeeded == t.whole {
      assert forall r :: r in t.failed ==> r in t.succeeded;
      assert t.failed == {};
    }
  }

  lemma CountsFit(t: Shape, before: BatchStatus, batch: Batch)
    requires t.succeeded !! t.failed && t.succeeded + t.failed <= t.whole && t.whole != {} && t.queued != t.whole
    requires t.succeeded + t.failed == t.whole || before.Active?
    requires batch.completed == |t.succeeded| && batch.failed == |t.failed|
    requires batch.status == if batch.completed + batch.failed == |t.whole|
                             then (if batch.failed == 0 then AllSucceeded else Partial) else before
    ensures Fits(t, batch)
  {
    TerminalCount(t);
  }

  /** The recount closes a batch exactly when its rows are all terminal, and as a success when none failed. */
  lemma RecountFits(rows: map<RowId, Row>, b: BatchId, batch: Batch, at: int)
    requires var t := ShapeOf(rows, b);
             && t.whole != {} && t.queued != t.whole
             && (t.succeeded + t.failed == t.whole || batch.status.Active?)
    ensures Fits(ShapeOf(rows, b), Recounted(rows, b, batch, at))
  {
    StatusesAreDisjoint(rows, b);
    hide WithStatus, RowsOf, Fits;
    CountsFit(ShapeOf(rows, b), batch.status, Recounted(rows, b, batch, at));
  }

  lemma {:induction false} ClaimIsTimed(claims: seq<Claim>, i: nat)
    requires i < |claims|
    ensures ClaimTimes(claims, claims[i].row) != []
  {
    if i < |claims| - 1 {
      ClaimIsTimed(claims[..|claims| - 1], i);
    }
  }

  lemma HandedOutWasClaimed(s: State, r: RowId, b: BatchId)
    requires NamesOk(s) && RowsOk(s.rows, s.nextRow, Times(s)) && HandedOut(s, r, b)
    ensures r in s.rows && s.rows[r].batch == b && !s.rows[r].status.Queued?
  {
    var i :| 0 <= i < |s.claims| && s.claims[i].row == r && s.claims[i].batch == b;
    ClaimIsTimed(s.claims, i);
    assert Times(s)(r) == ClaimTimes(s.claims, r);
  }

  /** A finisher turns a running row terminal, or finds it terminal and changes nothing. */
  ghost predicate RowEnded(rows: map<RowId, Row>, rows': map<RowId, Row>, r: RowId) {
    && r in rows && !rows[r].status.Queued?
    && rows'.Keys == rows.Keys && rows'[r].batch == rows[r].batch && rows'[r].status.Terminal()
    && (rows[r].status.Running? || rows'[r] == rows[r])
    && forall q :: q in rows && q != r ==> rows'[q] == rows[q]
  }

  lemma EndedShape(rows: map<RowId, Row>, rows': map<RowId, Row>, r: RowId)
    requires RowEnded(rows, rows', r)
    ensures var t, t' := ShapeOf(rows, rows[r].batch), ShapeOf(rows', rows[r].batch);
            && t'.whole == t.whole && r in t'.whole && r !in t'.queued && r !in t.queued
            && t.succeeded + t.failed <= t'.succeeded + t'.failed <= t'.whole
  {
    var b := rows[r].batch;
    assert RowsOf(rows', b) == RowsOf(rows, b);
    forall q | q in WithStatus(rows, b, Succeeded) + WithStatus(rows, b, Failed)
      ensures q in WithStatus(rows', b, Succeeded) + WithStatus(rows', b, Failed)
    {
      assert q != r ==> rows'[q] == rows[q];
    }
  }

  /** A finisher of a claimed row leaves its batch in step, whether it was in time or late. */
  lemma FinishedFits(rows: map<RowId, Row>, rows': map<RowId, Row>, r: RowId, batch: Batch, at: int)
    requires RowEnded(rows, rows', r) && Fits(ShapeOf(rows, rows[r].batch), batch)
    ensures Fits(ShapeOf(rows', rows[r].batch), Recounted(rows', rows[r].batch, batch, at))
  {
    EndedShape(rows, rows', r);
    hide RowEnded, WithStatus, RowsOf;
    var b := rows[r].batch;
    assert ShapeOf(rows', b).whole == RowsOf(rows', b);
    RecountFits(rows', b, batch, at);
  }

  lemma FinishKeepsInv(s: State, r: RowId, b: BatchId, ok: bool, error: Option<string>, at: int)
    requires Inv(s) && b in s.batches && HandedOut(s, r, b)
    ensures Inv(Finished(s, r, b, ok, error, at))
  {
    hide Fits, ShapeOf, Recounted;
    HandedOutWasClaimed(s, r, b);
    var s' := Finished(s, r, b, ok, error, at);
    FinishKeepsRows(s, r, b, ok, error, at);
    FinishedFits(s.rows, s'.rows, r, s.batches[b], at);
    OneBatchChanged(s.rows, s.batches, r, s'.rows, s'.batches);
  }

  lemma FinishKeepsRows(s: State, r: RowId, b: BatchId, ok: bool, error: Option<string>, at: int)
    requires RowsOk(s.rows, s.nextRow, Times(s)) && b in s.batches
    ensures var s' := Finished(s, r, b, ok, error, at); RowsOk(s'.rows, s'.nextRow, Times(s'))
  {
    var s' := Finished(s, r, b, ok, error, at);
    assert forall q :: Times(s')(q) == Times(s)(q);
  }

  // ---------- Creation ----------

  lemma CreatedFits(s: State, emails: seq<string>, fold: string -> Subject, at: int, s': State)
    requires NamesOk(s) && CreateStep(s, emails, fold, at, s') && emails != []
    ensures Fits(ShapeOf(s'.rows, s.nextBatch), s'.batches[s.nextBatch])
  {
    FirstRowIsQueued(s, emails, fold, at, s');
    NewRowsAreQueued(s, emails, fold, at, s');
    hide NamesOk, CreateStep, RowsOf;
    var t := ShapeOf(s'.rows, s.nextBatch);
    assert t.queued == t.whole && t.succeeded == {} && t.failed == {};
    assert s'.batches[s.nextBatch] == Batch(Pending, |emails|, 0, 0, None, None);
  }

  lemma NewRowsAreQueued(s: State, emails: seq<string>, fold: string -> Subject, at: int, s': State)
    requires NamesOk(s) && CreateStep(s, emails, fold, at, s') && emails != []
    ensures forall r :: r in RowsOf(s'.rows, s.nextBatch) <==> r in s'.rows && s'.rows[r].batch == s.nextBatch
    ensures forall r :: r in RowsOf(s'.rows, s.nextBatch) ==> s'.rows[r].status.Queued?
    ensures s.nextBatch in s'.batches && s'.batches[s.nextBatch] == Batch(Pending, |emails|, 0, 0, None, None)
  {
    hide Subjects;
  }

  lemma FirstRowIsQueued(s: State, emails: seq<string>, fold: string -> Subject, at: int, s': State)
    requires NamesOk(s) && CreateStep(s, emails, fold, at, s') && emails != []
    ensures RowsOf(s'.rows, s.nextBatch) != {}
  {
    assert emails[0] in emails && fold(emails[0]) in Subjects(emails, fold);
    var r :| r in s'.rows && r !in s.rows && s'.rows[r].subject == fold(emails[0]);
    assert r in RowsOf(s'.rows, s.nextBatch);
  }

  /** Rows of a new batch leave the other batches in step. */
  lemma OneBatchAdded(rows: map<RowId, Row>, batches: map<BatchId, Batch>, id: BatchId, rows': map<RowId, Row>,
                      batches': map<BatchId, Batch>)
    requires AllBatchesOk(rows, batches) && id !in batches && batches'.Keys == batches.Keys + {id}
    requires forall b :: b in batches ==> batches'[b] == batches[b]
    requires forall r :: r in rows ==> r in rows' && rows'[r] == rows[r]
    requires forall r :: r in rows' && r !in rows ==> rows'[r].batch == id
    requires Fits(ShapeOf(rows', id), batches'[id])
    ensures AllBatchesOk(rows', batches')
  {
    forall b | b in batches
      ensures Fits(ShapeOf(rows', b), batches[b])
    {
      SameShape(rows, rows', b);
    }
  }

  lemma CreateKeepsInv(s: State, emails: seq<string>, fold: string -> Subject, at: int, s': State)
    requires Inv(s) && CreateStep(s, emails, fold, at, s') && emails != []
    ensures Inv(s')
  {
    hide Fits, ShapeOf, RowOk;
    CreatedFits(s, emails, fold, at, s');
    OneBatchAdded(s.rows, s.batches, s.nextBatch, s'.rows, s'.batches);
    CreateKeepsRows(s, emails, fold, at, s');
  }

  lemma CreateKeepsRows(s: State, emails: seq<string>, fold: string -> Subject, at: int, s': State)
    requires RowsOk(s.rows, s.nextRow, Times(s)) && CreateStep(s, emails, fold, at, s')
    ensures RowsOk(s'.rows, s'.nextRow, Times(s'))
  {
    assert forall r :: Times(s')(r) == Times(s)(r);
  }

  // ---------- Every run ----------

  lemma StepKeepsInv(s: State, step: Step, s': State)
    requires Inv(s) && Next(s, step, s')
    ensures Inv(s')
  {
    match step
    case Create(emails, fold, at) =>
      if emails != [] {
        CreateKeepsInv(s, emails, fold, at, s');
      }
    case ClaimOne(worker, skip, at) =>
      var o :| ClaimStep(s, worker, at, skip, o, s');
      if o.Some? {
        ClaimKeepsInv(s, o.value, worker, at);
      }
    case FinishOne(r, b, ok, error, at) =>
      FinishKeepsInv(s, r, b, ok, error, at);
  }

  lemma {:induction false} RunKeepsInv(tr: seq<State>, steps: seq<Step>, i: nat)
    requires Run(tr, steps) && i <= |steps|
    ensures Inv(tr[i]) && (i > 0 ==> Inv(tr[i - 1]))
  {
    if i > 0 {
      RunKeepsInv(tr, steps, i - 1);
      StepKeepsInv(tr[i - 1], steps[i - 1], tr[i]);
    }
  }

  // ---------- What it means ----------

  /** In every reachable state the status and counters of a batch are exactly what its rows say. */
  lemma BatchIsDerived(tr: seq<State>, steps: seq<Step>, i: nat, b: BatchId)
    requires Run(tr, steps) && i < |tr| && b in tr[i].batches
    ensures var rows, batch := tr[i].rows, tr[i].batches[b];
            && (batch.status.Pending? <==> forall r :: r in rows && rows[r].batch == b ==> rows[r].attempts == 0)
            && (batch.status.Finished() <==> forall r :: r in rows && rows[r].batch == b ==> rows[r].status.Terminal())
            && (batch.status.AllSucceeded? <==>
                 forall r :: r in rows && rows[r].batch == b ==> rows[r].status.Succeeded?)
            && batch.completed == |WithStatus(rows, b, Succeeded)| && batch.failed == |WithStatus(rows, b, Failed)|
  {
    RunKeepsInv(tr, steps, i);
    var s, t := tr[i], ShapeOf(tr[i].rows, b);
    assert Fits(t, s.batches[b]);
    forall r | r in s.rows
      ensures s.rows[r].attempts == 0 <==> s.rows[r].status.Queued?
    {
      assert RowOk(s.rows[r], Times(s)(r));
    }
    ShapeSays(s.rows, b);
  }

  lemma ShapeSays(rows: map<RowId, Row>, b: BatchId)
    ensures var t := ShapeOf(rows, b);
            && (t.queued == t.whole <==> forall r :: r in rows && rows[r].batch == b ==> rows[r].status.Queued?)
            && (t.succeeded + t.failed == t.whole <==>
                 forall r :: r in rows && rows[r].batch == b ==> rows[r].status.Terminal())
            && (t.succeeded == t.whole <==> forall r :: r in rows && rows[r].batch == b ==> rows[r].status.Succeeded?)
  {
    var t := ShapeOf(rows, b);
    assert forall r :: r in t.whole <==> r in rows && rows[r].batch == b;
    assert forall r :: r in t.queued <==> r in t.whole && rows[r].status.Queued?;
    assert forall r :: r in t.succeeded <==> r in t.whole && rows[r].status.Succeeded?;
    assert forall r :: r in t.failed <==> r in t.whole && rows[r].status.Failed?;
  }

  lemma {:induction false} ClaimIsInTimes(claims: seq<Claim>, i: nat)
    requires i < |claims|
    ensures claims[i].at in ClaimTimes(claims, claims[i].row)
  {
    if i < |claims| - 1 {
      ClaimIsInTimes(claims[..|claims| - 1], i);
    }
  }

  lemma {:induction false} FarApartClaims(claims: seq<Claim>, i: nat, j: nat)
    requires i < j < |claims| && claims[i].row == claims[j].row && FarApart(ClaimTimes(claims, claims[i].row))
    ensures claims[i].at + STALE_AFTER < claims[j].at
  {
    var rest, r := claims[..|claims| - 1], claims[i].row;
    var times, before := ClaimTimes(claims, r), ClaimTimes(rest, r);
    assert forall k :: 0 <= k < |before| ==> times[k] == before[k];
    if j < |claims| - 1 {
      FarApartClaims(rest, i, j);
    } else {
      ClaimIsInTimes(rest, i);
      var k :| 0 <= k < |before| && before[k] == claims[i].at;
      assert times[k] + STALE_AFTER < times[|times| - 1];
    }
  }

  /** In every reachable state a row's attempts count the claims that were made of it. */
  lemma AttemptsCountClaims(tr: seq<State>, steps: seq<Step>, n: nat, r: RowId)
    requires Run(tr, steps) && n < |tr| && r in tr[n].rows
    ensures tr[n].rows[r].attempts == |ClaimTimes(tr[n].claims, r)|
  {
    RunKeepsInv(tr, steps, n);
    assert RowOk(tr[n].rows[r], Times(tr[n])(r));
  }

  /** Two claims of one row are stamped more than ten minutes apart. */
  lemma ClaimsAreFarApart(tr: seq<State>, steps: seq<Step>, n: nat, i: nat, j: nat)
    requires Run(tr, steps) && n < |tr| && i < j < |tr[n].claims| && tr[n].claims[i].row == tr[n].claims[j].row
    ensures tr[n].claims[i].at + 600 < tr[n].claims[j].at
  {
    RunKeepsInv(tr, steps, n);
    var r := tr[n].claims[i].row;
    assert RowOk(tr[n].rows[r], Times(tr[n])(r));
    FarApartClaims(tr[n].claims, i, j);
  }

  lemma StepKeepsTerminalRow(s: State, step: Step, s': State, r: RowId)
    requires Next(s, step, s') && r in s.rows && s.rows[r].status.Terminal()
    ensures r in s'.rows && s'.rows[r] == s.rows[r]
  {
    match step
    case ClaimOne(worker, skip, at) =>
      var o :| ClaimStep(s, worker, at, skip, o, s');
    case Create(emails, fold, at) =>
    case FinishOne(q, b, ok, error, at) =>
  }

  /** A terminal row never changes again, whoever finishes late. */
  lemma {:induction false} TerminalRowIsFinal(tr: seq<State>, steps: seq<Step>, i: nat, j: nat, r: RowId)
    requires Run(tr, steps) && i <= j < |tr| && r in tr[i].rows && tr[i].rows[r].status.Terminal()
    ensures r in tr[j].rows && tr[j].rows[r] == tr[i].rows[r]
  {
    if i < j {
      TerminalRowIsFinal(tr, steps, i, j - 1, r);
      StepKeepsTerminalRow(tr[j - 1], steps[j - 1], tr[j], r);
    }
  }

  /** What a late finisher may still change of a finished batch: the time stamps, nothing else. */
  predicate SameOutcome(b: Batch, b': Batch) {
    b'.status == b.status && b'.total == b.total && b'.completed == b.completed && b'.failed == b.failed
  }

  lemma StepKeepsTotals(s: State, step: Step, s': State, b: BatchId)
    requires Next(s, step, s') && b in s.batches && b < s.nextBatch
    ensures b in s'.batches && s'.batches[b].total == s.batches[b].total
  {
    if step.ClaimOne? {
      var o :| ClaimStep(s, step.worker, step.at, step.skip, o, s');
    }
  }

  lemma StepKeepsFinishedShape(s: State, step: Step, s': State, b: BatchId)
    requires NamesOk(s) && Next(s, step, s') && b in s.batches
    requires forall r :: r in s.rows && s.rows[r].batch == b ==> s.rows[r].status.Terminal()
    ensures ShapeOf(s'.rows, b) == ShapeOf(s.rows, b)
  {
    forall r | r in s.rows && s.rows[r].batch == b
      ensures r in s'.rows && s'.rows[r] == s.rows[r]
    {
      StepKeepsTerminalRow(s, step, s', r);
    }
    forall r | r in s'.rows && s'.rows[r].batch == b
      ensures r in s.rows && s.rows[r].batch == b
    {
      NewRowsAreInNewBatches(s, step, s', r);
    }
    hide Next, NamesOk, ShapeOf;
    SameShape(s.rows, s'.rows, b);
  }

  lemma StepKeepsFinishedBatch(s: State, step: Step, s': State, b: BatchId)
    requires Inv(s) && Inv(s') && Next(s, step, s') && b in s.batches && s.batches[b].status.Finished()
    ensures b in s'.batches && SameOutcome(s.batches[b], s'.batches[b])
  {
    hide Next, RowsOk, ShapeOf;
    ShapeSays(s.rows, b);
    StepKeepsTotals(s, step, s', b);
    StepKeepsFinishedShape(s, step, s', b);
    assert Fits(ShapeOf(s.rows, b), s.batches[b]) && Fits(ShapeOf(s'.rows, b), s'.batches[b]);
  }

  lemma NewRowsAreInNewBatches(s: State, step: Step, s': State, r: RowId)
    requires NamesOk(s) && Next(s, step, s') && r in s'.rows && s'.rows[r].batch in s.batches
    ensures r in s.rows && s.rows[r].batch == s'.rows[r].batch
  {
    match step
    case ClaimOne(worker, skip, at) =>
      var o :| ClaimStep(s, worker, at, skip, o, s');
    case Create(emails, fold, at) =>
    case FinishOne(q, b, ok, error, at) =>
  }

  /** A finished batch keeps its status and counters for ever. */
  lemma {:induction false} FinishedBatchIsFinal(tr: seq<State>, steps: seq<Step>, i: nat, j: nat, b: BatchId)
    requires Run(tr, steps) && i <= j < |tr| && b in tr[i].batches && tr[i].batches[b].status.Finished()
    ensures b in tr[j].batches && SameOutcome(tr[i].batches[b], tr[j].batches[b])
  {
    hide Inv, Next;
    if i < j {
      FinishedBatchIsFinal(tr, steps, i, j - 1, b);
      RunKeepsInv(tr, steps, j - 1);
      RunKeepsInv(tr, steps, j);
      StepKeepsFinishedBatch(tr[j - 1], steps[j - 1], tr[j], b);
    }
  }

  /** The recount of a batch whose rows are all terminal restates what the batch says, at a new time. */
  lemma RecountRestates(rows: map<RowId, Row>, b: BatchId, batch: Batch, at: int)
    requires Fits(ShapeOf(rows, b), batch) && batch.status.Finished()
    ensures Recounted(rows, b, batch, at) == batch.(finishedAt := Some(at))
  {
    StatusesAreDisjoint(rows, b);
    TerminalCount(ShapeOf(rows, b));
  }

  /** A finished batch is left exactly as it was unless it is the finisher's own, finished at another time. */
  lemma LateFinishExactly(s: State, r: RowId, b: BatchId, ok: bool, error: Option<string>, at: int, c: BatchId)
    requires Inv(s) && HandedOut(s, r, b) && b in s.batches && c in s.batches && s.batches[c].status.Finished()
    ensures Finished(s, r, b, ok, error, at).batches[c] == s.batches[c] <==>
            b != c || s.batches[c].finishedAt == Some(at)
  {
    FinishedBatchRowIsTerminal(s, r, b);
    RecountOfFinished(s, b, at);
    hide Inv, HandedOut, Recounted, Ended;
  }

  lemma FinishedBatchRowIsTerminal(s: State, r: RowId, b: BatchId)
    requires Inv(s) && HandedOut(s, r, b) && b in s.batches
    ensures s.batches[b].status.Finished() ==> r in s.rows && s.rows[r].status.Terminal()
  {
    HandedOutWasClaimed(s, r, b);
    ShapeSays(s.rows, b);
    assert Fits(ShapeOf(s.rows, b), s.batches[b]);
    hide NamesOk, RowsOk, AllBatchesOk, ShapeOf, HandedOut;
  }

  lemma RecountOfFinished(s: State, b: BatchId, at: int)
    requires Inv(s) && b in s.batches
    ensures s.batches[b].status.Finished() ==>
              Recounted(s.rows, b, s.batches[b], at) == s.batches[b].(finishedAt := Some(at))
  {
    assert Fits(ShapeOf(s.rows, b), s.batches[b]);
    hide Inv, Fits, ShapeOf, Recounted;
    if s.batches[b].status.Finished() {
      RecountRestates(s.rows, b, s.batches[b], at);
    }
  }

  /** The tables after one user's batch was created, claimed and, the third time, finished. */
  function Finishing(n: nat, first: int): State
    requires n <= 3
  {
    var queued, created := Row(0, "user", 0, Queued, 0, None, None, None, None), Batch(Pending, 1, 0, 0, None, None);
    var running, done := queued.(status := Running, lockedBy := Some("w"), lockedAt := Some(0), attempts := 1),
                         queued.(status := Succeeded, attempts := 1, finishedAt := Some(first));
    var active := created.(status := Active, startedAt := Some(0));
    if n == 0 then EMPTY
    else if n == 1 then State(map[0 := queued], map[0 := created], [], 1, 1)
    else if n == 2 then State(map[0 := running], map[0 := active], [Claim(0, 0, 0)], 1, 1)
    else
      State(map[0 := done], map[0 := active.(status := AllSucceeded, completed := 1, finishedAt := Some(first))],
            [Claim(0, 0, 0)], 1, 1)
  }

  lemma FinishingRuns(fold: string -> Subject, first: int)
    requires fold("user") == "user"
    ensures Finishing(0, first) == EMPTY
    ensures Next(Finishing(0, first), Create(["user"], fold, 0), Finishing(1, first))
    ensures Next(Finishing(1, first), ClaimOne("w", {}, 0), Finishing(2, first))
    ensures Next(Finishing(2, first), FinishOne(0, 0, true, None, first), Finishing(3, first))
  {
    FinishingClaims(first);
    FinishingFinishes(first);
    hide ClaimStep, Finished;
    var s, s' := Finishing(0, first), Finishing(1, first);
    assert Subjects(["user"], fold) == {"user"};
    assert 0 in s'.rows && 0 !in s.rows && s'.rows[0].subject == "user";
  }

  lemma FinishingClaims(first: int)
    ensures ClaimStep(Finishing(1, first), "w", 0, {}, Some(0), Finishing(2, first))
  {
    var s := Finishing(1, first);
    assert Candidates(s.rows, {}, 0) == {0};
    assert Short("w") == "w";
    assert Claimed(s, 0, "w", 0) == Finishing(2, first);
  }

  lemma FinishingFinishes(first: int)
    ensures HandedOut(Finishing(2, first), 0, 0)
    ensures Finished(Finishing(2, first), 0, 0, true, None, first) == Finishing(3, first)
  {
    var rows := Finishing(3, first).rows;
    assert Finishing(2, first).claims[0].row == 0;
    assert WithStatus(rows, 0, Succeeded) == {0} && WithStatus(rows, 0, Failed) == {} && RowsOf(rows, 0) == {0};
    assert Finishing(2, first).rows[0 := Ended(Finishing(2, first).rows[0], true, None, first)] == rows;
  }

  /** Such a change is reachable: a second finisher at any other time moves the time stamp of a finished batch. */
  lemma LateFinishMovesTheStamp(first: int, second: int) returns (tr: seq<State>, steps: seq<Step>)
    ensures Run(tr, steps) && |steps| == 4 && steps[3] == FinishOne(0, 0, true, None, second)
    ensures 0 in tr[3].batches && tr[3].batches[0].status.Finished() && tr[3].batches[0].finishedAt == Some(first)
    ensures 0 in tr[4].batches && tr[4].batches[0] == tr[3].batches[0].(finishedAt := Some(second))
  {
    var fold: string -> Subject := s => s;
    FinishingRuns(fold, first);
    var s := Finishing(3, first);
    LateFinishRuns(first, second);
    hide *;
    tr, steps := FourSteps(Finishing(0, first), Create(["user"], fold, 0), Finishing(1, first), ClaimOne("w", {}, 0),
                           Finishing(2, first), FinishOne(0, 0, true, None, first), s,
                           FinishOne(0, 0, true, None, second), Finished(s, 0, 0, true, None, second));
  }

  lemma FourSteps(s0: State, t0: Step, s1: State, t1: Step, s2: State, t2: Step, s3: State, t3: Step, s4: State)
    returns (tr: seq<State>, steps: seq<Step>)
    requires s0 == EMPTY && Next(s0, t0, s1) && Next(s1, t1, s2) && Next(s2, t2, s3) && Next(s3, t3, s4)
    ensures Run(tr, steps) && |steps| == 4 && steps[3] == t3 && tr[3] == s3 && tr[4] == s4
  {
    hide Next;
    tr, steps := [s0, s1, s2, s3, s4], [t0, t1, t2, t3];
  }

  lemma LateFinishRuns(first: int, second: int)
    ensures var s := Finishing(3, first);
            && 0 in s.batches && s.batches[0].status.Finished() && s.batches[0].finishedAt == Some(first)
            && Next(s, FinishOne(0, 0, true, None, second), Finished(s, 0, 0, true, None, second))
            && Finished(s, 0, 0, true, None, second).batches[0] == s.batches[0].(finishedAt := Some(second))
  {
    var s := Finishing(3, first);
    assert s.claims[0].row == 0;
    assert WithStatus(s.rows, 0, Succeeded) == {0} && WithStatus(s.rows, 0, Failed) == {} && RowsOf(s.rows, 0) == {0};
  }

  /** Progress: a finish in time closes exactly one open row, a late one none, and a claim opens none. */
  lemma FinishesMakeProgress(s: State, step: Step, s': State)
    requires Next(s, step, s') && !step.Create?
    ensures Open(s'.rows) <= Open(s.rows)
    ensures step.FinishOne? && step.row in s.rows && s.rows[step.row].status.Running? ==>
              step.row in Open(s.rows) && Open(s'.rows) == Open(s.rows) - {step.row}
    ensures step.ClaimOne? || (step.row in s.rows && s.rows[step.row].status.Terminal()) ==>
              Open(s'.rows) == Open(s.rows)
  {
    if step.ClaimOne? {
      var o :| ClaimStep(s, step.worker, step.at, step.skip, o, s');
    }
  }

  /** How many of the steps from `i` to `j` finished a row that was still running. */
  function TimelyFinishes(tr: seq<State>, steps: seq<Step>, i: nat, j: nat): nat
    requires i <= j <= |steps| && |tr| == |steps| + 1
    decreases j
  {
    if i == j then 0
    else
      var s, step := tr[j - 1], steps[j - 1];
      TimelyFinishes(tr, steps, i, j - 1) +
      if step.FinishOne? && step.row in s.rows && s.rows[step.row].status.Running? then 1 else 0
  }

  /** While no batch is created, the open rows go down by exactly the finishes that came in time. */
  lemma {:induction false} OpenRowsAreConsumed(tr: seq<State>, steps: seq<Step>, i: nat, j: nat)
    requires Run(tr, steps) && i <= j <= |steps| && forall k :: i <= k < j ==> !steps[k].Create?
    ensures |Open(tr[i].rows)| == |Open(tr[j].rows)| + TimelyFinishes(tr, steps, i, j)
    decreases j
  {
    if i < j {
      OpenRowsAreConsumed(tr, steps, i, j - 1);
      if steps[j - 1].FinishOne? {
        FinishedRowsWereClaimed(tr, steps, j - 1);
      }
      FinishesMakeProgress(tr[j - 1], steps[j - 1], tr[j]);
      hide Next, Open;
    }
  }

  /** A finisher's row is there, and running or terminal. */
  lemma FinishedRowsWereClaimed(tr: seq<State>, steps: seq<Step>, i: nat)
    requires Run(tr, steps) && i < |steps| && steps[i].FinishOne?
    ensures steps[i].row in tr[i].rows && !tr[i].rows[steps[i].row].status.Queued?
  {
    RunKeepsInv(tr, steps, i);
    assert Next(tr[i], steps[i], tr[i + 1]);
    HandedOutWasClaimed(tr[i], steps[i].row, steps[i].batch);
  }

  // ---------- The declared total ----------

  lemma SubjectsLast(emails: seq<string>, fold: string -> Subject)
    requires emails != []
    ensures Subjects(emails, fold) == Subjects(emails[..|emails| - 1], fold) + {fold(emails[|emails| - 1])}
  {
    assert emails == emails[..|emails| - 1] + [emails[|emails| - 1]];
  }

  lemma {:induction false} SubjectCount(emails: seq<string>, fold: string -> Subject)
    ensures |Subjects(emails, fold)| <= |emails|
    ensures |Subjects(emails, fold)| == |emails| <==> AllDiffer(emails, fold)
  {
    if emails != [] {
      var n := |emails| - 1;
      var rest, last := emails[..n], emails[n];
      SubjectCount(rest, fold);
      SubjectsLast(emails, fold);
      SubjectSeen(rest, fold, last);
      hide Subjects;
      DistinctLast(emails, fold);
    }
  }

  predicate AllDiffer(emails: seq<string>, fold: string -> Subject) {
    forall i, j :: 0 <= i < j < |emails| ==> fold(emails[i]) != fold(emails[j])
  }

  lemma SubjectSeen(emails: seq<string>, fold: string -> Subject, last: string)
    ensures fold(last) in Subjects(emails, fold) <==> exists i :: 0 <= i < |emails| && fold(emails[i]) == fold(last)
  {
    forall i | 0 <= i < |emails|
      ensures fold(emails[i]) in Subjects(emails, fold)
    {
      assert emails[i] in emails;
    }
  }

  lemma DistinctLast(emails: seq<string>, fold: string -> Subject)
    requires emails != []
    ensures var n := |emails| - 1;
            AllDiffer(emails, fold) <==>
              AllDiffer(emails[..n], fold) && !exists i :: 0 <= i < n && fold(emails[..n][i]) == fold(emails[n])
  {
    var n := |emails| - 1;
    var rest := emails[..n];
    assert forall i :: 0 <= i < n ==> rest[i] == emails[i];
    if AllDiffer(emails, fold) {
      assert forall i :: 0 <= i < n ==> fold(rest[i]) != fold(emails[n]);
    }
  }

  lemma {:induction false} RowPerSubject(rows: map<RowId, Row>, ids: set<RowId>, subjects: set<Subject>)
    requires forall r :: r in ids ==> r in rows && rows[r].subject in subjects
    requires forall x :: x in subjects ==> exists r :: r in ids && rows[r].subject == x
    requires forall q, r :: q in ids && r in ids && rows[q].subject == rows[r].subject ==> q == r
    ensures |ids| == |subjects|
    decreases ids
  {
    if ids == {} {
      assert subjects == {};
    } else {
      var r :| r in ids;
      var x := rows[r].subject;
      forall y | y in subjects - {x}
        ensures exists q :: q in ids - {r} && rows[q].subject == y
      {
        var q :| q in ids && rows[q].subject == y;
        assert q in ids - {r};
      }
      RowPerSubject(rows, ids - {r}, subjects - {x});
    }
  }

  /**
   The declared total counts the selected users, while the queue holds one row per distinct subject:
   the two agree exactly when no two selected addresses fold to the same subject.
   */
  lemma TotalCountsUsersNotRows(s: State, emails: seq<string>, fold: string -> Subject, at: int, s': State)
    requires NamesOk(s) && CreateStep(s, emails, fold, at, s') && emails != []
    ensures var b := s.nextBatch;
            && b in s'.batches && |RowsOf(s'.rows, b)| <= s'.batches[b].total
            && (s'.batches[b].total == |RowsOf(s'.rows, b)| <==>
                  forall i, j :: 0 <= i < j < |emails| ==> fold(emails[i]) != fold(emails[j]))
  {
    var b := s.nextBatch;
    var ids := RowsOf(s'.rows, b);
    assert forall r :: r in ids <==> r in s'.rows && r !in s.rows;
    RowPerSubject(s'.rows, ids, Subjects(emails, fold));
    SubjectCount(emails, fold);
  }
}
