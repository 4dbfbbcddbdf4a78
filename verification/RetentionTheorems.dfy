/** Exactly when a purge does what its description promises, and when the foreign key refuses it. */
module RetentionTheorems {
  import opened Wrappers
  import opened Retention
  import opened FindingLedger
  import opened LedgerInvariant

  // ---------- Newest first ----------

  /** Nothing is left behind that was closed later than something taken. */
  predicate NewestFirst(s: State, cutoff: int, ids: set<Id>) {
    forall x, y :: x in Eligible(s, cutoff) && y in Eligible(s, cutoff) && x in ids && y !in ids ==>
      s.findings[y].remediatedAt.value <= s.findings[x].remediatedAt.value
  }

  predicate ClosedTogether(s: State, cutoff: int) {
    forall x, y :: x in Eligible(s, cutoff) && y in Eligible(s, cutoff) ==>
      s.findings[x].remediatedAt.value == s.findings[y].remediatedAt.value
  }

  /** A subset of a given size with one element and without another. */
  lemma SubsetBetween(whole: set<Id>, x: Id, y: Id, size: nat) returns (part: set<Id>)
    requires x in whole && y in whole && x != y && 1 <= size < |whole|
    ensures part <= whole && |part| == size && x in part && y !in part
  {
    var others := whole - {x, y};
    assert |others| == |whole| - 2;
    SubsetOfSize(others, size - 1);
    var rest :| rest <= others && |rest| == size - 1;
    part := rest + {x};
  }

  lemma FullSelection(whole: set<Id>, ids: set<Id>)
    requires ids <= whole && |ids| == |whole|
    ensures ids == whole
  {
    assert |whole - ids| == 0;
  }

  /**
   The purge gives no order, so it takes the newest work first exactly when there is no choice to make: none is taken,
   all are, or all were closed at the same time.
   */
  lemma NewestFirstExactly(s: State, cutoff: int, limit: nat)
    ensures (forall ids :: Selected(s, cutoff, limit, ids) ==> NewestFirst(s, cutoff, ids)) <==>
            limit == 0 || limit >= |Eligible(s, cutoff)| || ClosedTogether(s, cutoff)
  {
    var all := Eligible(s, cutoff);
    hide Eligible;
    if limit == 0 || limit >= |all| {
      forall ids | Selected(s, cutoff, limit, ids)
        ensures NewestFirst(s, cutoff, ids)
      {
        if limit >= |all| {
          FullSelection(all, ids);
        }
      }
    } else if !ClosedTogether(s, cutoff) {
      var older, newer := UnequalPair(s, cutoff);
      var ids := SubsetBetween(all, older, newer, limit);
      assert Selected(s, cutoff, limit, ids) && !NewestFirst(s, cutoff, ids);
    }
  }

  lemma UnequalPair(s: State, cutoff: int) returns (older: Id, newer: Id)
    requires !ClosedTogether(s, cutoff)
    ensures older in Eligible(s, cutoff) && newer in Eligible(s, cutoff)
    ensures s.findings[older].remediatedAt.value < s.findings[newer].remediatedAt.value
  {
    var x, y :| x in Eligible(s, cutoff) && y in Eligible(s, cutoff)
                && s.findings[x].remediatedAt.value != s.findings[y].remediatedAt.value;
    older, newer := x, y;
    if s.findings[y].remediatedAt.value < s.findings[x].remediatedAt.value {
      older, newer := y, x;
    }
  }

  // ---------- What a purge removes ----------

  predicate NothingLinksInto(s: State, ids: set<Id>) {
    forall p :: p in s.findings && s.findings[p].supersededBy.Some? ==> s.findings[p].supersededBy.value !in ids
  }

  /**
   A purge with room for every eligible row removes exactly those rows when no other row links to one of them, and
   otherwise removes nothing at all.
   */
  lemma FullPurgeExactly(s: State, policy: Policy, now: int, limit: nat, s': State)
    requires policy.DeletesAnything() && PurgeStep(s, policy, now, limit, s')
    requires limit >= |Eligible(s, policy.Cutoff(now))|
    ensures var all := Eligible(s, policy.Cutoff(now));
            && (s'.findings == s.findings - all <==> all == {} || !Dangles(s, all))
            && (Dangles(s, all) ==> s' == s)
  {
    var all := Eligible(s, policy.Cutoff(now));
    var ids :| Selected(s, policy.Cutoff(now), limit, ids) && s' == if Dangles(s, ids) then s else Deleted(s, ids);
    FullSelection(all, ids);
    if Dangles(s, all) {
      var p :| p in s.findings && p !in all && s.findings[p].supersededBy.Some? &&
          s.findings[p].supersededBy.value in all;
      var c := s.findings[p].supersededBy.value;
      assert c in s.findings && c !in s.findings - all;
    }
  }

  /**
   Whatever rows it takes, a purge is accepted exactly when it takes none, no eligible row is linked to, or it takes
   them all and every link to one of them comes from another of them.
   */
  lemma PurgeSucceedsExactly(s: State, cutoff: int, limit: nat)
    requires Inv(s)
    ensures (forall ids :: Selected(s, cutoff, limit, ids) ==> !Dangles(s, ids)) <==>
            var all := Eligible(s, cutoff);
            limit == 0 || NothingLinksInto(s, all) || (limit >= |all| && !Dangles(s, all))
  {
    var all := Eligible(s, cutoff);
    if limit == 0 || NothingLinksInto(s, all) {
      hide Inv;
    } else if limit >= |all| {
      assert Selected(s, cutoff, limit, all);
      forall ids | Selected(s, cutoff, limit, ids)
        ensures ids == all
      {
        FullSelection(all, ids);
      }
      hide Inv;
    } else {
      var p :| p in s.findings && s.findings[p].supersededBy.Some? && s.findings[p].supersededBy.value in all;
      var c := s.findings[p].supersededBy.value;
      assert p < c;
      hide Inv;
      var ids := TakenWithout(all, c, p, limit);
      assert Selected(s, cutoff, limit, ids) && Dangles(s, ids);
    }
  }

  lemma TakenWithout(all: set<Id>, c: Id, p: Id, limit: nat) returns (ids: set<Id>)
    requires c in all && p != c && 1 <= limit < |all|
    ensures ids <= all && |ids| == limit && c in ids && p !in ids
  {
    if p in all {
      ids := SubsetBetween(all, c, p, limit);
    } else {
      SubsetOfSize(all - {c}, limit - 1);
      var rest :| rest <= all - {c} && |rest| == limit - 1;
      ids := rest + {c};
    }
  }

  // ---------- A refused purge ----------

  function Leak(password: Digest, fingerprint: Digest): Draft {
    Draft(0, Source("vendor", 0), SourceFlags(None, None, None), Some("person"), Some(password), fingerprint,
          Sighting("", [], None))
  }

  /** A finding is closed, leaks again under another password, is reopened, and its successor is closed. */
  function Scenario(n: nat): State
    requires n <= 5
  {
    if n == 0 then EMPTY
    else if n == 1 then Discover(EMPTY, Leak("old", "first"), None, 1)
    else if n == 2 then Remediate(Scenario(1), 0, 7, None, 2)
    else if n == 3 then
      var found := Discover(Scenario(2), Leak("new", "second"), None, 3);
      if 0 in found.findings && 1 in found.findings then ReLeak(found, 0, 1, None, 3) else found
    else if n == 4 then Reopen(Scenario(3), 0, 7, 4)
    else Remediate(Scenario(4), 1, 7, None, 5)
  }

  function ScenarioSteps(): seq<Step> {
    [ IngestOne(Leak("old", "first"), None, 1), RemediateOne(0, 7, None, 2), IngestOne(Leak("new", "second"), None, 3),
      ReopenOne(0, 7, 4), RemediateOne(1, 7, None, 5) ]
  }

  lemma FirstIsClosed()
    ensures Scenario(2).findings ==
              map[0 := Fresh(Leak("old", "first"), 1).(remediatedAt := Some(2), remediatedBy := Some(7))]
    ensures Scenario(2).next == 1 && Next(Scenario(0), ScenarioSteps()[0], Scenario(1))
    ensures Next(Scenario(1), ScenarioSteps()[1], Scenario(2))
  {
    assert IngestStep(EMPTY, Leak("old", "first"), None, 1, Outcome(0, true, None), Scenario(1));
  }

  lemma FirstLeaksAgain(s: State)
    requires s.findings == map[0 := Fresh(Leak("old", "first"), 1).(remediatedAt := Some(2), remediatedBy := Some(7))]
    requires s.next == 1
    ensures var found := Discover(s, Leak("new", "second"), None, 3);
            && 0 in found.findings && 1 in found.findings
            && IngestStep(s, Leak("new", "second"), None, 3, Outcome(1, true, Some(0)), ReLeak(found, 0, 1, None, 3))
  {
    assert "first"[0] != "second"[0] && "old"[0] != "new"[0] && "vendor"[0] != UNKNOWN[0];
    var found := Discover(s, Leak("new", "second"), None, 3);
    assert IsCandidate(found, 1, "vendor", 0);
    assert IsPredecessor(found, 1, "vendor", 0);
  }

  lemma SecondIsClosed(s3: State, s4: State, s5: State)
    requires s3.findings.Keys == {0, 1} && s3.findings[0].supersededBy == Some(1) && s3.findings[1].remediatedAt.None?
    requires s4 == Reopen(s3, 0, 7, 4) && s5 == Remediate(s4, 1, 7, None, 5)
    ensures Eligible(s5, 5) == {1} && Dangles(s5, {1})
  {
    assert s5.findings[0].supersededBy == Some(1) && s5.findings[0].remediatedAt.None?;
    assert s5.findings[1].remediatedAt == Some(5) && s5.findings.Keys == {0, 1};
  }

  lemma SecondLeaks()
    ensures Next(Scenario(2), ScenarioSteps()[2], Scenario(3))
    ensures Scenario(3).findings.Keys == {0, 1} && Scenario(3).findings[0].supersededBy == Some(1)
    ensures Scenario(3).findings[1].remediatedAt.None?
  {
    FirstIsClosed();
    FirstLeaksAgain(Scenario(2));
    hide IngestStep, Remediate;
  }

  lemma LastSteps()
    ensures |ScenarioSteps()| == 5
    ensures Next(Scenario(3), ScenarioSteps()[3], Scenario(4)) && Next(Scenario(4), ScenarioSteps()[4], Scenario(5))
    ensures Eligible(Scenario(5), 5) == {1} && Dangles(Scenario(5), {1})
  {
    SecondLeaks();
    hide ReLeak, Discover;
    SecondIsClosed(Scenario(3), Scenario(4), Scenario(5));
    hide Reopen, Remediate, Eligible, Dangles;
  }

  lemma ScenarioRuns() returns (tr: seq<State>)
    ensures |tr| == 6 && |ScenarioSteps()| == 5 && Run(tr, ScenarioSteps())
    ensures Eligible(tr[5], 5) == {1} && Dangles(tr[5], {1})
  {
    FirstIsClosed();
    SecondLeaks();
    LastSteps();
    hide Next, ScenarioSteps, Eligible, Dangles;
    tr := [Scenario(0), Scenario(1), Scenario(2), Scenario(3), Scenario(4), Scenario(5)];
    assert Scenario(0) == EMPTY;
    hide Scenario;
  }

  /** A refused purge is reachable: one finding alone is eligible, and no purge removes it, whatever its limit. */
  lemma RefusedPurgeIsReachable() returns (tr: seq<State>, steps: seq<Step>)
    ensures Run(tr, steps) && Eligible(tr[|steps|], 5) == {1}
    ensures forall s', limit: nat :: PurgeStep(tr[|steps|], DeleteWhenClosed, 5, limit, s') ==> s' == tr[|steps|]
  {
    tr := ScenarioRuns();
    steps := ScenarioSteps();
    hide Eligible, Run, Dangles, ScenarioSteps, PurgeStep;
    forall s', limit: nat | PurgeStep(tr[5], DeleteWhenClosed, 5, limit, s')
      ensures s' == tr[5]
    {
      OnlyOneEligible(tr[5], 5, limit, 1, s');
    }
  }

  lemma OnlyOneEligible(s: State, now: int, limit: nat, c: Id, s': State)
    requires Eligible(s, now) == {c} && Dangles(s, {c}) && PurgeStep(s, DeleteWhenClosed, now, limit, s')
    ensures s' == s
  {
    var ids :| Selected(s, now, limit, ids) && s' == if Dangles(s, ids) then s else Deleted(s, ids);
    if ids == {} {
      NoneDeleted(s.events);
      assert s.findings - {} == s.findings;
    } else {
      assert ids == {c};
    }
  }

  lemma {:induction false} NoneDeleted(events: seq<Event>)
    ensures WithoutEvents(events, {}) == events
  {
    if events != [] {
      NoneDeleted(events[..|events| - 1]);
    }
  }

  // ---------- How long it is refused ----------

  predicate HoldsLink(s: State, p: Id, c: Id) {
    p in s.findings && s.findings[p].supersededBy == Some(c) && c in s.findings
  }

  predicate IsOpen(s: State, p: Id) {
    p in s.findings && s.findings[p].remediatedAt.None?
  }

  lemma IngestKeepsHeldLink(s: State, d: Draft, actor: Option<Id>, at: int, o: Outcome, s': State, p: Id, c: Id)
    requires IngestStep(s, d, actor, at, o, s') && HoldsLink(s, p, c) && p < s.next && c < s.next
    ensures HoldsLink(s', p, c)
  {
    if o.isNew && o.previous.Some? {
      assert o.previous.value != p;
    }
    hide Known, Holds, Logged, IsPredecessor, NoPredecessor;
  }

  lemma PurgeKeepsHeldLink(s: State, policy: Policy, now: int, limit: nat, s': State, p: Id, c: Id)
    requires PurgeStep(s, policy, now, limit, s') && HoldsLink(s, p, c) && IsOpen(s, p)
    ensures HoldsLink(s', p, c)
  {
    if policy.DeletesAnything() {
      var ids :| Selected(s, policy.Cutoff(now), limit, ids) && s' == if Dangles(s, ids) then s else Deleted(s, ids);
      assert p !in ids;
    }
  }

  lemma StepKeepsHeldLink(s: State, step: Step, s': State, p: Id, c: Id)
    requires Inv(s) && Next(s, step, s') && HoldsLink(s, p, c) && IsOpen(s, p)
    ensures HoldsLink(s', p, c)
  {
    assert p < s.next && c < s.next;
    hide Inv, IngestStep, PurgeStep;
    match step
    case IngestOne(d, actor, at) =>
      var o :| IngestStep(s, d, actor, at, o, s');
      IngestKeepsHeldLink(s, d, actor, at, o, s', p, c);
    case RemediateOne(id, actorId, note, at) =>
    case ReopenOne(id, actorId, at) =>
    case ViewOne(id, actorId, at) =>
    case PurgeSome(policy, at, limit) => PurgeKeepsHeldLink(s, policy, at, limit, s', p, c);
  }

  /** A purge that takes every eligible row, the given one among them. */
  ghost predicate TakesAllWith(s: State, policy: Policy, now: int, limit: nat, c: Id, s': State) {
    && policy.DeletesAnything() && PurgeStep(s, policy, now, limit, s')
    && c in Eligible(s, policy.Cutoff(now)) && limit >= |Eligible(s, policy.Cutoff(now))|
  }

  /**
   As long as the predecessor stays open its successor cannot be deleted, and every purge that takes all eligible rows
   while the successor is one of them is refused as a whole.
   */
  lemma {:induction false} RefusedWhilePredecessorIsOpen(tr: seq<State>, steps: seq<Step>, i: nat, j: nat, p: Id, c: Id)
    requires Run(tr, steps) && i <= j < |tr| && HoldsLink(tr[i], p, c)
    requires forall k :: i <= k <= j && p in tr[k].findings ==> IsOpen(tr[k], p)
    ensures HoldsLink(tr[j], p, c)
    ensures forall policy, now, limit, s' :: TakesAllWith(tr[j], policy, now, limit, c, s') ==> s' == tr[j]
    decreases j
  {
    hide Inv, Next, TakesAllWith;
    if i < j {
      RefusedWhilePredecessorIsOpen(tr, steps, i, j - 1, p, c);
      RunKeepsInv(tr, steps, j - 1);
      StepKeepsHeldLink(tr[j - 1], steps[j - 1], tr[j], p, c);
    }
    hide Run;
    forall policy, now, limit, s' | TakesAllWith(tr[j], policy, now, limit, c, s')
      ensures s' == tr[j]
    {
      OpenPredecessorRefuses(tr[j], policy, now, limit, s', p, c);
    }
  }

  lemma OpenPredecessorRefuses(s: State, policy: Policy, now: int, limit: nat, s': State, p: Id, c: Id)
    requires HoldsLink(s, p, c) && IsOpen(s, p) && TakesAllWith(s, policy, now, limit, c, s')
    ensures s' == s
  {
    OpenPredecessorDangles(s, policy.Cutoff(now), p, c);
    hide Eligible, Dangles;
    FullPurgeExactly(s, policy, now, limit, s');
  }

  lemma OpenPredecessorDangles(s: State, cutoff: int, p: Id, c: Id)
    requires HoldsLink(s, p, c) && IsOpen(s, p) && c in Eligible(s, cutoff)
    ensures Dangles(s, Eligible(s, cutoff))
  {
    assert p !in Eligible(s, cutoff);
  }
}
