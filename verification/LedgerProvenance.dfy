/**
 Where every column of a finding, every event and every link comes from: which step of the run put it there, told by
 what was submitted in that step and what was stored before it.
 */
module LedgerProvenance {
  import opened Wrappers
  import opened Retention
  import opened FindingLedger
  import opened LedgerHistory
  import opened LedgerInvariant
  import opened IngestIdempotence
  import opened LedgerTheorems
  import opened RetentionTheorems

  // ---------- Row ids ----------

  lemma NextNeverFalls(s: State, step: Step, s': State)
    requires Next(s, step, s')
    ensures s.next <= s'.next
  {
    hide Known, Holds, IsPredecessor, NoPredecessor;
    match step
    case IngestOne(d, actor, at) =>
      var o :| IngestStep(s, d, actor, at, o, s');
    case RemediateOne(_, _, _, _) =>
    case ReopenOne(_, _, _) =>
    case ViewOne(_, _, _) =>
    case PurgeSome(_, _, _) =>
  }

  /** A row that is not there now, but is after the next step, was never there before. */
  lemma {:induction false} NewRowsAreNew(tr: seq<State>, steps: seq<Step>, k: nat, i: nat, id: Id)
    requires Run(tr, steps) && k <= i < |tr| && id >= tr[i].next
    ensures id !in tr[k].findings
    decreases i
  {
    hide Inv, Next;
    RunKeepsInv(tr, steps, i);
    if k < i {
      NextNeverFalls(tr[i - 1], steps[i - 1], tr[i]);
      NewRowsAreNew(tr, steps, k, i - 1, id);
    } else {
      if id in tr[i].findings {
        RowsAreNumbered(tr[i], id);
      }
    }
  }

  lemma RowsAreNumbered(s: State, id: Id)
    requires Inv(s) && id in s.findings
    ensures id < s.next
  {
  }

  // ---------- What identifies a finding ----------

  /** The step ingested a record with the identifying columns of this finding, and at this time. */
  predicate FoundBy(step: Step, f: Finding) {
    && step.IngestOne? && f.firstSeen == step.at
    && f.subject == step.draft.subject && f.source == step.draft.source && f.identity == step.draft.identity
    && f.password == step.draft.password && f.fingerprint == step.draft.fingerprint
  }

  predicate SameOrigin(f: Finding, g: Finding) {
    && f.firstSeen == g.firstSeen && f.subject == g.subject && f.source == g.source && f.identity == g.identity
    && f.password == g.password && f.fingerprint == g.fingerprint
  }

  lemma IngestKeepsOrigin(s: State, d: Draft, actor: Option<Id>, at: int, o: Outcome, s': State, id: Id)
    requires IngestStep(s, d, actor, at, o, s') && s.next !in s.findings && id in s'.findings
    ensures id in s.findings ==> SameOrigin(s.findings[id], s'.findings[id])
    ensures id !in s.findings ==> id == s.next && FoundBy(IngestOne(d, actor, at), s'.findings[id])
    ensures id !in s.findings ==> forall q :: q in s.findings ==> s.findings[q].fingerprint != d.fingerprint
  {
    if !Known(s, d.fingerprint) {
      NewRows(s, d, actor, at, o, s');
      forall q | q in s.findings
        ensures s.findings[q].fingerprint != d.fingerprint
      {
        assert !Holds(s, d.fingerprint, q);
      }
      hide IngestStep, Known;
    } else {
      hide Known;
    }
  }

  lemma StepKeepsOrigin(s: State, step: Step, s': State, id: Id)
    requires Inv(s) && Next(s, step, s') && id in s'.findings
    ensures id in s.findings ==> SameOrigin(s.findings[id], s'.findings[id])
    ensures id !in s.findings ==> id == s.next && FoundBy(step, s'.findings[id])
    ensures id !in s.findings ==>
              forall q :: q in s.findings ==> s.findings[q].fingerprint != s'.findings[id].fingerprint
  {
    assert s.next !in s.findings;
    hide Inv, IngestStep;
    if step.IngestOne? {
      var o :| IngestStep(s, step.draft, step.actor, step.at, o, s');
      IngestKeepsOrigin(s, step.draft, step.actor, step.at, o, s', id);
    } else {
      OthersKeepOrigin(s, step, s', id);
    }
    hide Next, FoundBy, SameOrigin;
  }

  lemma OthersKeepOrigin(s: State, step: Step, s': State, id: Id)
    requires Next(s, step, s') && !step.IngestOne? && id in s'.findings
    ensures id in s.findings && SameOrigin(s.findings[id], s'.findings[id])
  {
    hide Eligible, Dangles, WithoutEvents;
  }

  /**
   In every run each stored finding has the subject, source, identity, password and fingerprint of a record that was
   ingested when no stored finding had its fingerprint, and was first seen then.
   */
  lemma {:induction false} FindingsComeFromRecords(tr: seq<State>, steps: seq<Step>, i: nat, id: Id)
    requires Run(tr, steps) && i < |tr| && id in tr[i].findings
    ensures exists k :: 0 <= k < i && IsOrigin(tr, steps, k, id, tr[i].findings[id])
  {
    hide Inv, Next, FoundBy, SameOrigin;
    RunKeepsInv(tr, steps, i - 1);
    StepKeepsOrigin(tr[i - 1], steps[i - 1], tr[i], id);
    if id in tr[i - 1].findings {
      FindingsComeFromRecords(tr, steps, i - 1, id);
      var k :| 0 <= k < i - 1 && IsOrigin(tr, steps, k, id, tr[i - 1].findings[id]);
      OriginStays(steps[k], tr[i - 1].findings[id], tr[i].findings[id]);
      assert IsOrigin(tr, steps, k, id, tr[i].findings[id]);
    } else {
      assert IsOrigin(tr, steps, i - 1, id, tr[i].findings[id]);
    }
  }

  lemma OriginStays(step: Step, f: Finding, g: Finding)
    requires FoundBy(step, f) && SameOrigin(f, g)
    ensures FoundBy(step, g) && g.fingerprint == f.fingerprint
  {
  }

  ghost predicate IsOrigin(tr: seq<State>, steps: seq<Step>, k: nat, id: Id, f: Finding)
    requires k < |steps| && |tr| == |steps| + 1
  {
    && id !in tr[k].findings && id in tr[k + 1].findings && FoundBy(steps[k], f)
    && forall q :: q in tr[k].findings ==> tr[k].findings[q].fingerprint != f.fingerprint
  }

  // ---------- The latest sighting ----------

  predicate Sights(step: Step, fingerprint: Digest) {
    step.IngestOne? && step.draft.fingerprint == fingerprint
  }

  lemma StepKeepsSighting(s: State, step: Step, s': State, id: Id)
    requires Inv(s) && Next(s, step, s') && id in s'.findings
    ensures Sights(step, s'.findings[id].fingerprint) ==>
              s'.findings[id].lastSeen == step.at && s'.findings[id].sighting == step.draft.sighting
    ensures !Sights(step, s'.findings[id].fingerprint) ==>
              && id in s.findings && s'.findings[id].fingerprint == s.findings[id].fingerprint
              && s'.findings[id].lastSeen == s.findings[id].lastSeen
              && s'.findings[id].sighting == s.findings[id].sighting
  {
    assert s.next !in s.findings;
    if step.IngestOne? {
      var o :| IngestStep(s, step.draft, step.actor, step.at, o, s');
      StepEffect(s, step.draft, step.actor, step.at, o, s');
      hide *;
      EffectOnSighting(s, step.draft, step.at, o, s', id);
      SightsIngested(step);
    } else {
      hide Inv, Sights;
      OthersKeepSighting(s, step, s', id);
      SightsIngested(step);
      hide Next;
    }
  }

  lemma SightsIngested(step: Step)
    ensures forall x :: Sights(step, x) <==> step.IngestOne? && step.draft.fingerprint == x
  {
  }

  lemma OthersKeepSighting(s: State, step: Step, s': State, id: Id)
    requires Next(s, step, s') && !step.IngestOne? && id in s'.findings
    ensures id in s.findings && s'.findings[id].fingerprint == s.findings[id].fingerprint
    ensures s'.findings[id].lastSeen == s.findings[id].lastSeen && s'.findings[id].sighting == s.findings[id].sighting
  {
    hide Eligible, Dangles, WithoutEvents;
  }

  lemma EffectOnSighting(s: State, d: Draft, at: int, o: Outcome, s': State, id: Id)
    requires Effect(s, d, at, o, s') && id in s'.findings
    ensures s'.findings[id].fingerprint == d.fingerprint ==>
              s'.findings[id].lastSeen == at && s'.findings[id].sighting == d.sighting
    ensures s'.findings[id].fingerprint != d.fingerprint ==>
              && id in s.findings && s'.findings[id].fingerprint == s.findings[id].fingerprint
              && s'.findings[id].lastSeen == s.findings[id].lastSeen
              && s'.findings[id].sighting == s.findings[id].sighting
  {
    hide Fingerprints, Refreshed;
  }

  /** In every run a stored finding shows the record and the time of the latest ingest of its fingerprint. */
  lemma {:induction false} SightingsAreTheLatest(tr: seq<State>, steps: seq<Step>, i: nat, id: Id)
    requires Run(tr, steps) && i < |tr| && id in tr[i].findings
    ensures exists k :: 0 <= k < i && IsLatestSighting(steps, k, i, tr[i].findings[id])
  {
    hide Inv, Next, Sights;
    RunKeepsInv(tr, steps, i - 1);
    StepKeepsSighting(tr[i - 1], steps[i - 1], tr[i], id);
    var f := tr[i].findings[id];
    if Sights(steps[i - 1], f.fingerprint) {
      assert IsLatestSighting(steps, i - 1, i, f) by {
        SightsIsIngest(steps[i - 1], f.fingerprint);
      }
    } else {
      SightingsAreTheLatest(tr, steps, i - 1, id);
      var k :| 0 <= k < i - 1 && IsLatestSighting(steps, k, i - 1, tr[i - 1].findings[id]);
      assert IsLatestSighting(steps, k, i, f);
    }
  }

  lemma SightsIsIngest(step: Step, fingerprint: Digest)
    requires Sights(step, fingerprint)
    ensures step.IngestOne?
  {
  }

  predicate IsLatestSighting(steps: seq<Step>, k: nat, i: nat, f: Finding)
    requires k < i <= |steps|
  {
    && steps[k].IngestOne? && Sights(steps[k], f.fingerprint)
    && f.lastSeen == steps[k].at && f.sighting == steps[k].draft.sighting
    && forall l :: k < l < i ==> !Sights(steps[l], f.fingerprint)
  }

  // ---------- Closings ----------

  /** The step closed the finding as it is now. */
  predicate ClosedBy(step: Step, id: Id, f: Finding) {
    && step.RemediateOne? && step.id == id
    && f.remediatedAt == Some(step.at) && f.remediatedBy == Some(step.actorId) && f.note == step.note
  }

  predicate Reopens(step: Step, id: Id) {
    step.ReopenOne? && step.id == id
  }

  predicate Closes(step: Step, id: Id) {
    step.RemediateOne? && step.id == id
  }

  lemma StepKeepsClosing(s: State, step: Step, s': State, id: Id)
    requires Inv(s) && Next(s, step, s') && id in s'.findings
    ensures id !in s.findings || Reopens(step, id) ==> s'.findings[id].remediatedAt.None?
    ensures id in s.findings && Closes(step, id) && s.findings[id].remediatedAt.None? ==>
              ClosedBy(step, id, s'.findings[id])
    ensures id in s.findings && !Reopens(step, id) && (Closes(step, id) ==> s.findings[id].remediatedAt.Some?) ==>
              && s'.findings[id].remediatedAt == s.findings[id].remediatedAt
              && s'.findings[id].remediatedBy == s.findings[id].remediatedBy
              && s'.findings[id].note == s.findings[id].note
  {
    assert s.next !in s.findings;
    hide Inv;
    if step.IngestOne? {
      var o :| IngestStep(s, step.draft, step.actor, step.at, o, s');
      IngestKeepsClosing(s, step.draft, step.actor, step.at, o, s', id);
      hide IngestStep;
    }
  }

  lemma IngestKeepsClosing(s: State, d: Draft, actor: Option<Id>, at: int, o: Outcome, s': State, id: Id)
    requires IngestStep(s, d, actor, at, o, s') && s.next !in s.findings && id in s'.findings
    ensures id !in s.findings ==> s'.findings[id].remediatedAt.None?
    ensures id in s.findings ==>
              && s'.findings[id].remediatedAt == s.findings[id].remediatedAt
              && s'.findings[id].remediatedBy == s.findings[id].remediatedBy
              && s'.findings[id].note == s.findings[id].note
  {
    if !Known(s, d.fingerprint) {
      NewRows(s, d, actor, at, o, s');
      hide IngestStep;
    }
    hide Known;
  }

  /** Step `k` closed the stored finding, which was open, and nothing reopened it until `i`. */
  ghost predicate IsClosing(tr: seq<State>, steps: seq<Step>, k: nat, i: nat, id: Id)
    requires k < i <= |steps| && |tr| == |steps| + 1
  {
    && Closes(steps[k], id) && id in tr[k].findings && tr[k].findings[id].remediatedAt.None?
    && forall l :: k < l < i ==> !Reopens(steps[l], id)
  }

  /**
   In every run a stored finding is closed exactly when some step closed it and none reopened it since; when, by whom
   and with which note are that step's.
   */
  lemma {:induction false} ClosedExactlyByItsClosing(tr: seq<State>, steps: seq<Step>, i: nat, id: Id)
    requires Run(tr, steps) && i < |tr| && id in tr[i].findings
    ensures tr[i].findings[id].remediatedAt.Some? <==> exists k :: 0 <= k < i && IsClosing(tr, steps, k, i, id)
    ensures forall k :: 0 <= k < i && IsClosing(tr, steps, k, i, id) ==> ClosedBy(steps[k], id, tr[i].findings[id])
  {
    hide Inv, Next, ClosedBy, Closes, Reopens;
    RunKeepsInv(tr, steps, i - 1);
    StepKeepsClosing(tr[i - 1], steps[i - 1], tr[i], id);
    var s, f := tr[i - 1], tr[i].findings[id];
    if id !in s.findings {
      forall k | 0 <= k < i
        ensures id !in tr[k].findings
      {
        StepKeepsOrigin(s, steps[i - 1], tr[i], id);
        NewRowsAreNew(tr, steps, k, i - 1, id);
      }
    } else {
      ClosedExactlyByItsClosing(tr, steps, i - 1, id);
      forall k | 0 <= k < i - 1
        ensures IsClosing(tr, steps, k, i, id) <==> IsClosing(tr, steps, k, i - 1, id) && !Reopens(steps[i - 1], id)
      {
      }
      ClosingOrReopening(steps[i - 1], id);
      if s.findings[id].remediatedAt.Some? && !Reopens(steps[i - 1], id) {
        var k :| 0 <= k < i - 1 && IsClosing(tr, steps, k, i - 1, id);
        assert IsClosing(tr, steps, k, i, id);
      }
      ClosedRowsStayClosed(s, steps[i - 1], tr[i], id);
      assert IsClosing(tr, steps, i - 1, i, id) <==> Closes(steps[i - 1], id) && s.findings[id].remediatedAt.None?;
    }
  }

  lemma ClosingOrReopening(step: Step, id: Id)
    ensures !(Closes(step, id) && Reopens(step, id))
  {
  }

  /** What a step that neither closes nor reopens a finding leaves of an earlier closing. */
  lemma ClosedRowsStayClosed(s: State, step: Step, s': State, id: Id)
    requires Inv(s) && Next(s, step, s') && id in s.findings && id in s'.findings
    ensures !Reopens(step, id) ==>
              forall earlier :: ClosedBy(earlier, id, s.findings[id]) ==> ClosedBy(earlier, id, s'.findings[id])
    ensures ClosedBy(step, id, s'.findings[id]) ==> s'.findings[id].remediatedAt.Some?
  {
    StepKeepsClosing(s, step, s', id);
    hide Inv, Next;
  }

  // ---------- Events ----------

  /** What a step records, by what was submitted and what was stored before and after it. */
  predicate Records(s: State, step: Step, s': State, e: Event) {
    var id := e.finding;
    match e.kind
    case Discovered =>
      step.IngestOne? && id !in s.findings && id in s'.findings && e.actor == step.actor && e.at == step.at
    case ReLeaked(p) =>
      && step.IngestOne? && id !in s.findings && id in s'.findings && e.actor == step.actor && e.at == step.at
      && p in s'.findings && s'.findings[p].supersededBy == Some(id)
    case Remediated =>
      && step.RemediateOne? && step.id == id && e.actor == Some(step.actorId) && e.at == step.at
      && id in s.findings && s.findings[id].remediatedAt.None?
    case Unremediated =>
      && step.ReopenOne? && step.id == id && e.actor == Some(step.actorId) && e.at == step.at
      && id in s.findings && s.findings[id].remediatedAt.Some?
    case PasswordViewed =>
      && step.ViewOne? && step.id == id && e.actor == Some(step.actorId) && e.at == step.at
      && id in s.findings && s.findings[id].password.Some?
  }

  /** No link leads to a row that is not there yet. */
  lemma LinksAreToRows(s: State, id: Id)
    requires Inv(s) && id !in s.findings
    ensures forall p :: p in s.findings ==> s.findings[p].supersededBy != Some(id)
  {
  }

  lemma IngestRecords(s: State, d: Draft, actor: Option<Id>, at: int, o: Outcome, s': State, e: Event)
    requires IngestStep(s, d, actor, at, o, s') && s.next !in s.findings
    requires forall p :: p in s.findings ==> s.findings[p].supersededBy != Some(s.next)
    ensures e in s'.events <==> e in s.events || Records(s, IngestOne(d, actor, at), s', e)
  {
    if Known(s, d.fingerprint) {
      assert s'.findings.Keys == s.findings.Keys;
      hide Known;
    } else {
      hide Known, NoPredecessor, Discover, Records;
      match o.previous
      case None => DiscoveryRecords(s, d, actor, at, e);
      case Some(p) => ReLeakRecords(s, d, actor, at, p, e);
    }
  }

  lemma DiscoveryRecords(s: State, d: Draft, actor: Option<Id>, at: int, e: Event)
    requires s.next !in s.findings && forall p :: p in s.findings ==> s.findings[p].supersededBy != Some(s.next)
    ensures var s' := Discover(s, d, actor, at);
            e in s'.events <==> e in s.events || Records(s, IngestOne(d, actor, at), s', e)
  {
  }

  lemma ReLeakRecords(s: State, d: Draft, actor: Option<Id>, at: int, p: Id, e: Event)
    requires s.next !in s.findings && forall p :: p in s.findings ==> s.findings[p].supersededBy != Some(s.next)
    requires s.next in Discover(s, d, actor, at).findings
    requires IsPredecessor(Discover(s, d, actor, at), s.next, d.source.name, p)
    ensures var s' := ReLeak(Discover(s, d, actor, at), p, s.next, actor, at);
            e in s'.events <==> e in s.events || Records(s, IngestOne(d, actor, at), s', e)
  {
    assert p in s.findings && p != s.next;
    hide IsPredecessor;
  }

  lemma {:induction false} PurgedEvents(events: seq<Event>, ids: set<Id>, e: Event)
    ensures e in WithoutEvents(events, ids) <==> e in events && e.finding !in ids
  {
    if events != [] {
      var n := |events| - 1;
      PurgedEvents(events[..n], ids, e);
      assert events == events[..n] + [events[n]];
    }
  }

  lemma PurgeRecords(s: State, policy: Policy, now: int, limit: nat, s': State, e: Event)
    requires PurgeStep(s, policy, now, limit, s') && e.finding in s'.findings
    ensures e in s'.events <==> e in s.events || Records(s, PurgeSome(policy, now, limit), s', e)
  {
    if policy.DeletesAnything() {
      var ids :| Selected(s, policy.Cutoff(now), limit, ids) && s' == if Dangles(s, ids) then s else Deleted(s, ids);
      PurgedEvents(s.events, ids, e);
      hide WithoutEvents, Selected, Dangles;
    }
  }

  lemma CallRecords(s: State, step: Step, s': State, e: Event)
    requires Next(s, step, s') && (step.RemediateOne? || step.ReopenOne? || step.ViewOne?)
    ensures e in s'.events <==> e in s.events || Records(s, step, s', e)
  {
  }

  lemma StepRecords(s: State, step: Step, s': State, e: Event)
    requires Inv(s) && Next(s, step, s') && e.finding in s'.findings
    ensures e in s'.events <==> e in s.events || Records(s, step, s', e)
  {
    assert s.next !in s.findings;
    LinksAreToRows(s, s.next);
    hide Inv, IngestStep, PurgeStep, Records, Remediate, Reopen, View;
    match step
    case IngestOne(d, actor, at) =>
      var o :| IngestStep(s, d, actor, at, o, s');
      IngestRecords(s, d, actor, at, o, s', e);
    case RemediateOne(_, _, _, _) => CallRecords(s, step, s', e);
    case ReopenOne(_, _, _) => CallRecords(s, step, s', e);
    case ViewOne(_, _, _) => CallRecords(s, step, s', e);
    case PurgeSome(policy, at, limit) => PurgeRecords(s, policy, at, limit, s', e);
  }

  lemma NoEventOfMissingRow(s: State, e: Event)
    requires Inv(s) && e.finding !in s.findings
    ensures e !in s.events
  {
    if e in s.events {
      var k :| 0 <= k < |s.events| && s.events[k] == e;
      EventIsInItsTrail(s.events, k);
      assert Lives(s)(e.finding) == Unborn;
      ReplayBornUnlessEmpty(Trail(s.events, e.finding));
    }
  }

  /**
   In every run the trail of a stored finding holds exactly the events that its steps recorded: discovered and re-leaked
   when it was inserted, remediated and reopened when it was open and closed, viewed when it had a password; each with
   the actor and the time of that step.
   */
  lemma {:induction false} EventsAreExactlyTheRecorded(tr: seq<State>, steps: seq<Step>, i: nat, e: Event)
    requires Run(tr, steps) && i < |tr| && e.finding in tr[i].findings
    ensures e in tr[i].events <==> exists k :: 0 <= k < i && Records(tr[k], steps[k], tr[k + 1], e)
  {
    hide Inv, Next, Records;
    RunKeepsInv(tr, steps, i - 1);
    StepRecords(tr[i - 1], steps[i - 1], tr[i], e);
    if e.finding in tr[i - 1].findings {
      EventsAreExactlyTheRecorded(tr, steps, i - 1, e);
    } else {
      NoEventOfMissingRow(tr[i - 1], e);
      StepKeepsOrigin(tr[i - 1], steps[i - 1], tr[i], e.finding);
      forall k | 0 <= k < i - 1
        ensures !Records(tr[k], steps[k], tr[k + 1], e)
      {
        NewRowsAreNew(tr, steps, k, i - 1, e.finding);
        NewRowsAreNew(tr, steps, k + 1, i - 1, e.finding);
        RecordsAreOfRows(tr[k], steps[k], tr[k + 1], e);
      }
    }
  }

  lemma RecordsAreOfRows(s: State, step: Step, s': State, e: Event)
    ensures Records(s, step, s', e) ==> e.finding in s.findings || e.finding in s'.findings
  {
  }

  // ---------- Links ----------

  /** The finding was closed and is not linked, and is the same account's at the same named source as the new record. */
  predicate LeaksAgain(f: Finding, d: Draft) {
    && d.source.name != "unknown" && f.source.name == d.source.name
    && d.identity.Some? && f.identity == d.identity && f.subject == d.subject
    && f.password != d.password && f.remediatedAt.Some? && f.supersededBy.None?
  }

  lemma CandidatesLeakAgain(s: State, d: Draft, actor: Option<Id>, at: int, q: Id)
    requires s.next !in s.findings
    ensures var found := Discover(s, d, actor, at);
            && s.next in found.findings
            && (IsCandidate(found, s.next, d.source.name, q) <==> q in s.findings && LeaksAgain(s.findings[q], d))
  {
  }

  /** What an ingest of a record with a new fingerprint does about earlier findings. */
  ghost predicate LinksTheLatest(s: State, d: Draft, s': State) {
    && s'.findings.Keys == s.findings.Keys + {s.next}
    && (s'.findings[s.next].severity.High? <==> exists q :: q in s.findings && LeaksAgain(s.findings[q], d))
    && (s'.findings[s.next].severity.High? || s'.findings[s.next].severity.Medium?)
    && (s'.findings[s.next].severity.High? ==> exists p :: p in s.findings && LinksOnly(s, d, s', p))
    && (s'.findings[s.next].severity.Medium? ==> forall q :: q in s.findings ==> s'.findings[q] == s.findings[q])
  }

  /** The link to the new row is put on `p` alone, and `p` is the one closed last of those that leaked again. */
  ghost predicate LinksOnly(s: State, d: Draft, s': State, p: Id)
    requires s.findings.Keys <= s'.findings.Keys && p in s.findings
  {
    && LeaksAgain(s.findings[p], d) && s'.findings[p] == s.findings[p].(supersededBy := Some(s.next))
    && (forall q :: q in s.findings && q != p ==> s'.findings[q] == s.findings[q])
    && forall q :: q in s.findings && LeaksAgain(s.findings[q], d) ==>
         s.findings[q].remediatedAt.value <= s.findings[p].remediatedAt.value
  }

  lemma IngestLinksTheLatest(s: State, d: Draft, actor: Option<Id>, at: int, o: Outcome, s': State)
    requires IngestStep(s, d, actor, at, o, s') && !Known(s, d.fingerprint) && s.next !in s.findings
    ensures LinksTheLatest(s, d, s')
  {
    var found := Discover(s, d, actor, at);
    forall q
      ensures IsCandidate(found, s.next, d.source.name, q) <==> q in s.findings && LeaksAgain(s.findings[q], d)
    {
      CandidatesLeakAgain(s, d, actor, at, q);
    }
    hide Known, IsCandidate, LeaksAgain;
    match o.previous
    case None =>
      assert forall q :: q in s.findings ==> found.findings[q] == s.findings[q];
    case Some(p) =>
      LinkIsTheLatest(s, d, actor, at, p, s');
      hide IngestStep, IsPredecessor, LinksOnly, Discover, ReLeak;
  }

  lemma LinkIsTheLatest(s: State, d: Draft, actor: Option<Id>, at: int, p: Id, s': State)
    requires s.next !in s.findings && IsPredecessor(Discover(s, d, actor, at), s.next, d.source.name, p)
    requires s' == ReLeak(Discover(s, d, actor, at), p, s.next, actor, at)
    ensures p in s.findings && LeaksAgain(s.findings[p], d)
    ensures s'.findings.Keys == s.findings.Keys + {s.next} && s'.findings[s.next].severity.High?
    ensures LinksOnly(s, d, s', p)
  {
    var found := Discover(s, d, actor, at);
    forall q
      ensures IsCandidate(found, s.next, d.source.name, q) <==> q in s.findings && LeaksAgain(s.findings[q], d)
    {
      CandidatesLeakAgain(s, d, actor, at, q);
    }
    hide IsCandidate;
  }

  /**
   In every run, when a record with a new fingerprint is ingested its finding is high exactly when a stored finding of
   the same account at the same named source was closed under another password and is not linked yet; of those the one
   closed last is linked to it, and no other row changes.
   */
  lemma ReLeaksAreLinkedExactly(tr: seq<State>, steps: seq<Step>, k: nat)
    requires Run(tr, steps) && k < |steps| && steps[k].IngestOne?
    requires forall q :: q in tr[k].findings ==> tr[k].findings[q].fingerprint != steps[k].draft.fingerprint
    ensures LinksTheLatest(tr[k], steps[k].draft, tr[k + 1])
  {
    RunKeepsInv(tr, steps, k);
    var s, d := tr[k], steps[k].draft;
    assert s.next !in s.findings;
    assert Next(tr[k], steps[k], tr[k + 1]);
    hide Run, Inv, LinksTheLatest, IngestStep;
    var o :| IngestStep(s, d, steps[k].actor, steps[k].at, o, tr[k + 1]);
    IngestLinksTheLatest(s, d, steps[k].actor, steps[k].at, o, tr[k + 1]);
  }

  // ---------- The summary ----------

  function LinkedRows(s: State): set<Id> {
    set p | p in s.findings && s.findings[p].supersededBy.Some?
  }

  lemma OneRecordCounts(s: State, d: Draft, actor: Option<Id>, at: int, o: Outcome, s': State)
    requires IngestStep(s, d, actor, at, o, s') && Inv(s)
    ensures Counted(s, d, o, s')
  {
    assert s.next !in s.findings;
    StepEffect(s, d, actor, at, o, s');
    hide Inv, Fingerprints;
    LinksOfOneRecord(s, d, actor, at, o, s');
    hide LinkedRows;
    if o.isNew {
      assert !Known(s, d.fingerprint);
    }
  }

  lemma LinksOfOneRecord(s: State, d: Draft, actor: Option<Id>, at: int, o: Outcome, s': State)
    requires IngestStep(s, d, actor, at, o, s') && s.next !in s.findings
    ensures |LinkedRows(s')| == |LinkedRows(s)| + if o.previous.Some? then 1 else 0
  {
    if Known(s, d.fingerprint) || o.previous.None? {
      hide Known, Holds, NoPredecessor, IsPredecessor;
      assert LinkedRows(s') == LinkedRows(s);
    } else {
      var found := Discover(s, d, actor, at);
      assert o.previous.value in found.findings && o.previous.value != s.next;
      assert found.findings[o.previous.value].supersededBy.None?;
      hide Known, Holds, NoPredecessor, IsPredecessor;
      assert LinkedRows(s') == LinkedRows(s) + {o.previous.value};
    }
  }

  /** The summary of records ingested between the two states is true of them. */
  ghost predicate TrueOf(m: IngestSummary, ds: seq<Draft>, s: State, s': State) {
    && |m.findings| == |ds|
    && (forall i :: 0 <= i < |ds| ==>
          m.findings[i] in s'.findings && s'.findings[m.findings[i]].fingerprint == ds[i].fingerprint)
    && s.findings.Keys <= s'.findings.Keys && |m.newIds| == m.newCount
    && (forall id :: id in m.newIds <==> id in s'.findings && id !in s.findings)
    && (forall i, j :: 0 <= i < j < |m.newIds| ==> m.newIds[i] != m.newIds[j])
    && |LinkedRows(s')| == |LinkedRows(s)| + m.reLeakedCount
  }

  /** What one record does to rows and links, as far as the summary tells. */
  ghost predicate Counted(s: State, d: Draft, o: Outcome, s': State) {
    && |LinkedRows(s')| == |LinkedRows(s)| + (if o.previous.Some? then 1 else 0)
    && s'.findings.Keys == s.findings.Keys + (if o.isNew then {o.finding} else {})
    && (o.isNew <==> o.finding !in s.findings) && (o.previous.Some? ==> o.isNew)
    && o.finding in s'.findings && s'.findings[o.finding].fingerprint == d.fingerprint
    && (forall id :: id in s.findings ==> s'.findings[id].fingerprint == s.findings[id].fingerprint)
  }

  lemma TalliedIsTrue(m: IngestSummary, ds: seq<Draft>, s: State, s1: State, d: Draft, o: Outcome, s2: State)
    requires TrueOf(m, ds, s, s1) && Counted(s1, d, o, s2)
    ensures TrueOf(Tallied(m, o), ds + [d], s, s2)
  {
    hide LinkedRows;
  }

  /**
   The summary of a batch is true of the database: record by record it names the row that holds its fingerprint, the new
   ids are the rows added, each once, and the two counts are the rows and the links added.
   */
  lemma {:induction false} SummaryIsTrue(tr: seq<State>, ds: seq<Draft>, actor: Option<Id>, at: int, outs: seq<Outcome>)
    requires IngestTrace(tr, ds, actor, at, outs) && Inv(tr[0])
    ensures TrueOf(Summarize(outs), ds, tr[0], tr[|ds|])
  {
    hide IngestStep, Inv, LinkedRows, Counted;
    var n := |ds| - 1;
    if n >= 0 {
      SummaryIsTrue(tr[..n + 1], ds[..n], actor, at, outs[..n]);
      TraceKeepsInv(tr, ds, actor, at, outs, n);
      OneRecordCounts(tr[n], ds[n], actor, at, outs[n], tr[n + 1]);
      hide TrueOf;
      TalliedIsTrue(Summarize(outs[..n]), ds[..n], tr[0], tr[n], ds[n], outs[n], tr[n + 1]);
      TraceExtended(tr[..n + 1], ds[..n], actor, at, outs[..n], ds[n], outs[n], tr[n + 1]);
      hide *;
      assert ds[..n] + [ds[n]] == ds && outs[..n] + [outs[n]] == outs;
    }
  }

  // ---------- The purge ----------

  /** The finding was closed by the cutoff of the stored settings. */
  predicate Expired(f: Finding, mode: Option<string>, days: StoredDays, now: int) {
    f.remediatedAt.Some? &&
    ((mode == Some("none") && !days.Unreadable? && f.remediatedAt.value <= now) ||
     (mode == Some("days") && days.Number? && days.value >= 1 && f.remediatedAt.value + 86400 * days.value <= now))
  }

  function ExpiredRows(s: State, mode: Option<string>, days: StoredDays, now: int): set<Id> {
    set id | id in s.findings && Expired(s.findings[id], mode, days, now)
  }

  /** If no link leads to an expired finding, a purge removes as many of them as its limit allows, and nothing else. */
  lemma PurgeRemovesTheExpired(s: State, mode: Option<string>, days: StoredDays, now: int, limit: nat, s': State)
    requires PurgeStep(s, LoadPolicy(mode, days), now, limit, s')
    requires NothingLinksInto(s, ExpiredRows(s, mode, days, now))
    ensures var expired, gone := ExpiredRows(s, mode, days, now), s.findings.Keys - s'.findings.Keys;
            gone <= expired && |gone| == if |expired| < limit then |expired| else limit
    ensures forall id :: id in s'.findings ==> id in s.findings && s'.findings[id] == s.findings[id]
  {
    var policy, expired := LoadPolicy(mode, days), ExpiredRows(s, mode, days, now);
    ExpiredAreEligible(s, mode, days, now);
    hide LoadPolicy, ExpiredRows, Eligible;
    if policy.DeletesAnything() {
      var ids :| Selected(s, policy.Cutoff(now), limit, ids) && s' == if Dangles(s, ids) then s else Deleted(s, ids);
      EligibleAreStored(s, policy.Cutoff(now));
      NoneDangle(s, expired, ids);
      hide Dangles, NothingLinksInto;
      DeletedAreGone(s, ids);
    } else {
      assert s.findings.Keys - s'.findings.Keys == {};
    }
  }

  lemma NoneDangle(s: State, expired: set<Id>, ids: set<Id>)
    requires NothingLinksInto(s, expired) && ids <= expired
    ensures !Dangles(s, ids)
  {
  }

  lemma DeletedAreGone(s: State, ids: set<Id>)
    requires ids <= s.findings.Keys
    ensures s.findings.Keys - Deleted(s, ids).findings.Keys == ids
    ensures forall id :: id in Deleted(s, ids).findings ==>
              id in s.findings && Deleted(s, ids).findings[id] == s.findings[id]
  {
    hide WithoutEvents;
  }

  lemma ExpiredAreEligible(s: State, mode: Option<string>, days: StoredDays, now: int)
    ensures var policy := LoadPolicy(mode, days);
            ExpiredRows(s, mode, days, now) == if policy.DeletesAnything() then Eligible(s, policy.Cutoff(now)) else {}
  {
    PolicyFailsClosed(mode, days);
  }

  lemma EligibleAreStored(s: State, cutoff: int)
    ensures Eligible(s, cutoff) <= s.findings.Keys
  {
  }

  // ---------- Sources ----------

  predicate Describes(step: Step, source: Source) {
    step.IngestOne? && step.draft.source == source
  }

  /** Step `k` is the last before `i` to name the source, with these flags. */
  predicate IsLatestDescription(steps: seq<Step>, k: nat, i: nat, source: Source, flags: SourceFlags)
    requires k < i <= |steps|
  {
    && Describes(steps[k], source) && steps[k].IngestOne? && flags == steps[k].draft.flags
    && forall l :: k < l < i ==> !Describes(steps[l], source)
  }

  /** In every run a source is stored exactly when a record named it, with the flags of the latest such record. */
  lemma {:induction false} SourcesShowTheLatestFlags(tr: seq<State>, steps: seq<Step>, i: nat, source: Source)
    requires Run(tr, steps) && i < |tr|
    ensures source in tr[i].sources ==>
              exists k :: 0 <= k < i && IsLatestDescription(steps, k, i, source, tr[i].sources[source])
    ensures forall k :: 0 <= k < i && Describes(steps[k], source) ==> source in tr[i].sources
  {
    if i > 0 {
      SourcesShowTheLatestFlags(tr, steps, i - 1, source);
      StepKeepsSources(tr[i - 1], steps[i - 1], tr[i], source);
      hide Next;
      if Describes(steps[i - 1], source) {
        assert IsLatestDescription(steps, i - 1, i, source, tr[i].sources[source]);
      } else if source in tr[i].sources {
        var flags := tr[i].sources[source];
        var k :| 0 <= k < i - 1 && IsLatestDescription(steps, k, i - 1, source, flags);
        assert IsLatestDescription(steps, k, i, source, flags);
      }
    }
  }

  lemma StepKeepsSources(s: State, step: Step, s': State, source: Source)
    requires Next(s, step, s')
    ensures s'.sources == if step.IngestOne? then s.sources[step.draft.source := step.draft.flags] else s.sources
  {
    hide Known, Holds, NoPredecessor, IsPredecessor;
    if step.IngestOne? {
      var o :| IngestStep(s, step.draft, step.actor, step.at, o, s');
    }
  }
}
