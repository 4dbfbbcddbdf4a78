/**
 The durable batch queue: deduplicated work, claims with takeover of stale leases, finishers that
 may come late, and batch counters and status derived from the queue rows.

 Each committed transaction is one step.  `claims` records every claim ever handed out.
 */
module BatchQueue {
  import opened Wrappers

  type RowId = nat
  type BatchId = nat
  type Subject = string

  datatype RowStatus = Queued | Running | Succeeded | Failed {
    predicate Terminal() {
      Succeeded? || Failed?
    }
  }

  datatype BatchStatus = Pending | Active | AllSucceeded | Partial {
    predicate Finished() {
      AllSucceeded? || Partial?
    }
  }

  datatype Row = Row(batch: BatchId, subject: Subject, created: int, status: RowStatus, attempts: nat,
                     lockedBy: Option<string>, lockedAt: Option<int>, lastError: Option<string>,
                     finishedAt: Option<int>)
  datatype Batch = Batch(status: BatchStatus, total: nat, completed: nat, failed: nat, startedAt: Option<int>,
                         finishedAt: Option<int>)
  datatype Claim = Claim(row: RowId, batch: BatchId, at: int)
  datatype State = State(rows: map<RowId, Row>, batches: map<BatchId, Batch>, claims: seq<Claim>, nextRow: RowId,
                         nextBatch: BatchId)

  const EMPTY := State(map[], map[], [], 0, 0)
  const STALE_AFTER := 600

  // ---------- Derived counts ----------

  function RowsOf(rows: map<RowId, Row>, b: BatchId): set<RowId> {
    set r | r in rows && rows[r].batch == b
  }

  function WithStatus(rows: map<RowId, Row>, b: BatchId, status: RowStatus): set<RowId> {
    set r | r in rows && rows[r].batch == b && rows[r].status == status
  }

  function Open(rows: map<RowId, Row>): set<RowId> {
    set r | r in rows && !rows[r].status.Terminal()
  }

  // ---------- Steps ----------

  predicate Claimable(row: Row, at: int) {
    row.status.Queued? || (row.status.Running? && row.lockedAt.Some? && row.lockedAt.value < at - STALE_AFTER)
  }

  predicate Precedes(rows: map<RowId, Row>, a: RowId, b: RowId)
    requires a in rows && b in rows
  {
    rows[a].created < rows[b].created || (rows[a].created == rows[b].created && a <= b)
  }

  /** The rows a claim may take: claimable and not locked by a concurrent transaction. */
  function Candidates(rows: map<RowId, Row>, skip: set<RowId>, at: int): set<RowId> {
    set r | r in rows && r !in skip && Claimable(rows[r], at)
  }

  function Short(s: string): string {
    if |s| <= 255 then s else s[..255]
  }

  function Claimed(s: State, r: RowId, worker: string, at: int): State
    requires r in s.rows && s.rows[r].batch in s.batches
  {
    var row := s.rows[r];
    var row' := row.(status := Running, lockedBy := Some(Short(worker)), lockedAt := Some(at),
                     attempts := row.attempts + 1, lastError := None);
    var batch := s.batches[row.batch];
    var batch' := if batch.status.Pending? then batch.(status := Active, startedAt := Some(at)) else batch;
    s.(rows := s.rows[r := row'], batches := s.batches[row.batch := batch'],
       claims := s.claims + [Claim(r, row.batch, at)])
  }

  ghost predicate ClaimStep(s: State, worker: string, at: int, skip: set<RowId>, o: Option<RowId>, s': State) {
    match o
    case None => Candidates(s.rows, skip, at) == {} && s' == s
    case Some(r) =>
      && r in Candidates(s.rows, skip, at) && (forall q :: q in Candidates(s.rows, skip, at) ==> Precedes(s.rows, r, q))
      && s.rows[r].batch in s.batches && s' == Claimed(s, r, worker, at)
  }

  function Ended(row: Row, ok: bool, error: Option<string>, at: int): Row {
    var message := if error.None? || error.value == "" then "scan failed" else error.value;
    row.(status := if ok then Succeeded else Failed, finishedAt := Some(at), lockedBy := None, lockedAt := None,
         lastError := if ok then None else Some(Short(message)))
  }

  function Recounted(rows: map<RowId, Row>, b: BatchId, batch: Batch, at: int): Batch {
    var completed, failed := |WithStatus(rows, b, Succeeded)|, |WithStatus(rows, b, Failed)|;
    var counted := batch.(completed := completed, failed := failed);
    if completed + failed == |RowsOf(rows, b)|
    then counted.(status := if failed == 0 then AllSucceeded else Partial, finishedAt := Some(at)) else counted
  }

  function Finished(s: State, r: RowId, b: BatchId, ok: bool, error: Option<string>, at: int): State
    requires b in s.batches
  {
    var rows :=
      if r in s.rows && s.rows[r].status.Running? then s.rows[r := Ended(s.rows[r], ok, error, at)] else s.rows;
    s.(rows := rows, batches := s.batches[b := Recounted(rows, b, s.batches[b], at)])
  }

  /** A row that no worker has touched. */
  predicate Untouched(row: Row, b: BatchId, at: int) {
    row == Row(b, row.subject, at, Queued, 0, None, None, None, None)
  }

  function Subjects(emails: seq<string>, fold: string -> Subject): set<Subject> {
    set e | e in emails :: fold(e)
  }

  /** `rows'` is `rows` plus exactly one untouched row of batch `b` for each of `subjects`, numbered from `first`. */
  ghost predicate Filled(rows: map<RowId, Row>, rows': map<RowId, Row>, first: RowId, next: RowId, b: BatchId,
                         at: int, subjects: set<Subject>) {
    && first <= next
    && (forall r :: r in rows ==> r in rows' && rows'[r] == rows[r])
    && (forall r :: r in rows' && r !in rows ==>
          first <= r < next && Untouched(rows'[r], b, at) && rows'[r].subject in subjects)
    && (forall x :: x in subjects ==> exists r :: r in rows' && r !in rows && rows'[r].subject == x)
    && (forall q, r :: q in rows' && q !in rows && r in rows' && r !in rows && rows'[q].subject == rows'[r].subject ==>
         q == r)
  }

  /** A new batch with one untouched row per distinct subject of the selected users. */
  ghost predicate CreateStep(s: State, emails: seq<string>, fold: string -> Subject, at: int, s': State) {
    if emails == [] then s' == s
    else
      && s'.batches == s.batches[s.nextBatch := Batch(Pending, |emails|, 0, 0, None, None)]
      && s'.claims == s.claims && s'.nextBatch == s.nextBatch + 1
      && Filled(s.rows, s'.rows, s.nextRow, s'.nextRow, s.nextBatch, at, Subjects(emails, fold))
  }

  datatype Step =
    | Create(emails: seq<string>, fold: string -> Subject, at: int)
    | ClaimOne(worker: string, skip: set<RowId>, at: int)
    | FinishOne(row: RowId, batch: BatchId, ok: bool, error: Option<string>, at: int)

  predicate HandedOut(s: State, r: RowId, b: BatchId) {
    exists i :: 0 <= i < |s.claims| && s.claims[i].row == r && s.claims[i].batch == b
  }

  /** Any worker may finish work it once claimed, however late; clocks of workers need not agree. */
  ghost predicate Next(s: State, step: Step, s': State) {
    match step
    case Create(emails, fold, at) => CreateStep(s, emails, fold, at, s')
    case ClaimOne(worker, skip, at) => exists o :: ClaimStep(s, worker, at, skip, o, s')
    case FinishOne(r, b, ok, error, at) =>
      HandedOut(s, r, b) && b in s.batches && s' == Finished(s, r, b, ok, error, at)
  }

  ghost predicate Run(tr: seq<State>, steps: seq<Step>) {
    && |tr| == |steps| + 1 && tr[0] == EMPTY
    && forall i :: 0 <= i < |steps| ==> Next(tr[i], steps[i], tr[i + 1])
  }

  // ---------- The program ----------

  lemma {:induction false} SomeRowIsFirst(rows: map<RowId, Row>, ids: set<RowId>)
    requires ids != {} && ids <= rows.Keys
    ensures exists r :: r in ids && forall q :: q in ids ==> Precedes(rows, r, q)
    decreases ids
  {
    var x :| x in ids;
    var rest := ids - {x};
    if rest == {} {
      assert ids == {x};
    } else {
      SomeRowIsFirst(rows, rest);
      var r :| r in rest && forall q :: q in rest ==> Precedes(rows, r, q);
      var first := EarlierOfTwo(rows, rest, r, x);
      assert ids == rest + {x};
      assert first in ids && forall q :: q in ids ==> Precedes(rows, first, q);
    }
  }

  lemma EarlierOfTwo(rows: map<RowId, Row>, rest: set<RowId>, r: RowId, x: RowId) returns (first: RowId)
    requires r in rest && x in rows && rest <= rows.Keys && forall q :: q in rest ==> Precedes(rows, r, q)
    ensures first in rest + {x} && forall q :: q in rest + {x} ==> Precedes(rows, first, q)
  {
    first := if Precedes(rows, r, x) then r else x;
  }

  lemma FilledMore(rows: map<RowId, Row>, rows': map<RowId, Row>, first: RowId, next: RowId, b: BatchId, at: int,
                   subjects: set<Subject>, x: Subject)
    requires Filled(rows, rows', first, next, b, at, subjects) && x !in subjects
    requires forall r :: r in rows ==> r < first
    ensures Filled(rows, rows'[next := Row(b, x, at, Queued, 0, None, None, None, None)], first, next + 1, b, at,
                   subjects + {x})
  {
    var rows'' := rows'[next := Row(b, x, at, Queued, 0, None, None, None, None)];
    forall y | y in subjects + {x}
      ensures exists r :: r in rows'' && r !in rows && rows''[r].subject == y
    {
      if y == x {
        assert next in rows'' && next !in rows && rows''[next].subject == x;
      } else {
        var r :| r in rows' && r !in rows && rows'[r].subject == y;
        assert r in rows'' && r !in rows && rows''[r].subject == y;
      }
    }
  }

  class Queue {
    var rows: map<RowId, Row>
    var batches: map<BatchId, Batch>
    ghost var claims: seq<Claim>
    var nextRow: RowId
    var nextBatch: BatchId

    ghost function Tables(): State
      reads this
    {
      State(rows, batches, claims, nextRow, nextBatch)
    }

    constructor ()
      ensures Tables() == EMPTY
    {
      rows, batches, claims, nextRow, nextBatch := map[], map[], [], 0, 0;
    }

    method CreateBatch(emails: seq<string>, fold: string -> Subject, at: int) returns (b: Option<BatchId>)
      requires forall r :: r in rows ==> r < nextRow
      modifies this
      ensures CreateStep(old(Tables()), emails, fold, at, Tables())
      ensures b == if emails == [] then None else Some(old(nextBatch))
    {
      if emails == [] {
        return None;
      }
      var id := nextBatch;
      batches := batches[id := Batch(Pending, |emails|, 0, 0, None, None)];
      nextBatch := nextBatch + 1;
      ghost var before, first := rows, nextRow;
      var seen: set<Subject> := {};
      for i := 0 to |emails|
        modifies this`rows, this`nextRow
        invariant seen == Subjects(emails[..i], fold)
        invariant Filled(before, rows, first, nextRow, id, at, seen)
      {
        var subject := fold(emails[i]);
        assert emails[..i + 1] == emails[..i] + [emails[i]];
        assert Subjects(emails[..i + 1], fold) == seen + {subject};
        if subject !in seen {
          FilledMore(before, rows, first, nextRow, id, at, seen, subject);
          rows := rows[nextRow := Row(id, subject, at, Queued, 0, None, None, None, None)];
          nextRow := nextRow + 1;
          seen := seen + {subject};
        } else {
          assert seen + {subject} == seen;
        }
      }
      assert emails[..|emails|] == emails;
      b := Some(id);
    }

    method ClaimNext(worker: string, skip: set<RowId>, at: int) returns (o: Option<RowId>)
      requires forall r :: r in rows ==> rows[r].batch in batches
      modifies this
      ensures ClaimStep(old(Tables()), worker, at, skip, o, Tables())
    {
      var found := Candidates(rows, skip, at);
      if found == {} {
        return None;
      }
      SomeRowIsFirst(rows, found);
      var r :| r in found && forall q :: q in found ==> Precedes(rows, r, q);
      var row := rows[r];
      rows := rows[r := row.(status := Running, lockedBy := Some(Short(worker)), lockedAt := Some(at),
                             attempts := row.attempts + 1, lastError := None)];
      var batch := batches[row.batch];
      if batch.status.Pending? {
        batches := batches[row.batch := batch.(status := Active, startedAt := Some(at))];
      } else {
        assert batches[row.batch := batch] == batches;
      }
      claims := claims + [Claim(r, row.batch, at)];
      return Some(r);
    }

    method FinishWork(r: RowId, b: BatchId, ok: bool, error: Option<string>, at: int)
      requires b in batches
      modifies this`rows, this`batches
      ensures Tables() == Finished(old(Tables()), r, b, ok, error, at)
    {
      hide Ended, WithStatus, RowsOf;
      if r in rows && rows[r].status.Running? {
        rows := rows[r := Ended(rows[r], ok, error, at)];
      }
      var completed, failed, total :=
        |WithStatus(rows, b, Succeeded)|, |WithStatus(rows, b, Failed)|, |RowsOf(rows, b)|;
      batches := batches[b := batches[b].(completed := completed, failed := failed)];
      if completed + failed == total {
        var status := if failed == 0 then AllSucceeded else Partial;
        batches := batches[b := batches[b].(status := status, finishedAt := Some(at))];
      }
    }
  }
}
