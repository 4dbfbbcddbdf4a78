/** What the ledger's invariant means for an analyst reading rows, links and events. */
module LedgerTheorems {
  import opened Wrappers
  import opened Retention
  import opened FindingLedger
  import opened LedgerHistory
  import opened LedgerInvariant

  // ---------- The event trail is a faithful log ----------

  /** The trail of a stored finding determines its severity and its closing columns. */
  lemma TrailIsFaithful(tr: seq<State>, steps: seq<Step>, i: nat, id: Id)
    requires Run(tr, steps) && i < |tr| && id in tr[i].findings
    ensures var f, trail := tr[i].findings[id], Trail(tr[i].events, id);
            && trail != [] && trail[0].kind.Discovered? && Count(trail, IsDiscovery) == 1
            && Count(trail, IsReLeak) <= 1 && (f.severity == High <==> Count(trail, IsReLeak) == 1)
            && Alternates(Keep(trail, IsClosing))
            && (f.remediatedAt.Some? <==> Count(trail, IsClosing) % 2 == 1)
            && (f.remediatedAt.Some? ==>
                  var final := Keep(trail, IsClosing)[Count(trail, IsClosing) - 1];
                  f.remediatedAt == Some(final.at) && f.remediatedBy == final.actor)
            && (f.remediatedAt.None? ==> f.remediatedBy.None? && f.note.None?)
  {
    RunKeepsInv(tr, steps, i);
    var trail := Trail(tr[i].events, id);
    assert Agrees(tr[i].findings[id], Lives(tr[i])(id));
    OneDiscovery(trail);
    ClosingsAlternate(trail);
    ClosedByNobodyWhenOpen(trail);
  }

  lemma {:induction false} ClosedByNobodyWhenOpen(trail: seq<Event>)
    requires Replay(trail).Live?
    ensures Replay(trail).closedAt.None? ==> Replay(trail).closedBy.None?
  {
    var rest := trail[..|trail| - 1];
    if Replay(rest).Live? {
      ClosedByNobodyWhenOpen(rest);
    }
  }

  lemma {:induction false} EventIsInItsTrail(events: seq<Event>, i: nat)
    requires i < |events|
    ensures events[i] in Trail(events, events[i].finding)
  {
    if i < |events| - 1 {
      EventIsInItsTrail(events[..|events| - 1], i);
    }
  }

  /** No event names a finding that was purged, or that never existed. */
  lemma NoEventOutlivesItsFinding(tr: seq<State>, steps: seq<Step>, i: nat, k: nat)
    requires Run(tr, steps) && i < |tr| && k < |tr[i].events|
    ensures tr[i].events[k].finding in tr[i].findings
  {
    RunKeepsInv(tr, steps, i);
    var id := tr[i].events[k].finding;
    EventIsInItsTrail(tr[i].events, k);
    if id !in tr[i].findings {
      assert Lives(tr[i])(id) == Unborn;
      ReplayBornUnlessEmpty(Trail(tr[i].events, id));
    }
  }

  // ---------- Re-leak links form disjoint chains ----------

  /** The row reached from `id` by following `n` links. */
  function Follow(s: State, id: Id, n: nat): Option<Id>
    decreases n
  {
    if id !in s.findings then None
    else if n == 0 then Some(id)
    else if s.findings[id].supersededBy.None? then None
    else Follow(s, s.findings[id].supersededBy.value, n - 1)
  }

  lemma {:induction false} LinksMoveForward(s: State, id: Id, n: nat)
    requires Inv(s) && n > 0 && Follow(s, id, n).Some?
    ensures var last := Follow(s, id, n).value;
            && id + n <= last < s.next && last in s.findings
            && s.findings[last].subject == s.findings[id].subject
            && s.findings[last].identity == s.findings[id].identity && s.findings[id].identity.Some?
            && s.findings[last].source.name == s.findings[id].source.name != UNKNOWN
    decreases n
  {
    var c := s.findings[id].supersededBy.value;
    assert id < c && c in s.findings && Linkable(s.findings[id], s.findings[c]);
    assert c < s.next;
    if n > 1 {
      LinksMoveForward(s, c, n - 1);
    }
  }

  /**
   In every reachable state a chain of links runs strictly forward in creation order, so it never
   returns to a row it left and stops; all its rows share subject, identity and named source.
   */
  lemma ChainsRunForward(tr: seq<State>, steps: seq<Step>, i: nat, id: Id, n: nat)
    requires Run(tr, steps) && i < |tr| && n > 0 && Follow(tr[i], id, n).Some?
    ensures var s, last := tr[i], Follow(tr[i], id, n).value;
            && id + n <= last < s.next && last in s.findings
            && s.findings[last].subject == s.findings[id].subject
            && s.findings[last].identity == s.findings[id].identity && s.findings[id].identity.Some?
            && s.findings[last].source.name == s.findings[id].source.name != UNKNOWN
  {
    RunKeepsInv(tr, steps, i);
    LinksMoveForward(tr[i], id, n);
  }

  /** One link: it never dangles, its ends carry different passwords, and no other row shares its target. */
  lemma LinksAreDisjoint(tr: seq<State>, steps: seq<Step>, i: nat, p: Id)
    requires Run(tr, steps) && i < |tr| && p in tr[i].findings && tr[i].findings[p].supersededBy.Some?
    ensures var s, c := tr[i], tr[i].findings[p].supersededBy.value;
            && p < c && c in s.findings && s.findings[c].severity == High
            && s.findings[p].password != s.findings[c].password
            && Keep(Trail(s.events, c), IsReLeak) != [] && Keep(Trail(s.events, c), IsReLeak)[0].kind == ReLeaked(p)
            && forall q :: q in s.findings && s.findings[q].supersededBy == Some(c) ==> q == p
  {
    RunKeepsInv(tr, steps, i);
    var s, c := tr[i], tr[i].findings[p].supersededBy.value;
    assert Prior(Lives(s)(c)) == Some(p) && Agrees(s.findings[c], Lives(s)(c));
    OneDiscovery(Trail(s.events, c));
  }

  // ---------- Retention ----------

  lemma IngestAppends(s: State, d: Draft, actor: Option<Id>, at: int, o: Outcome, s': State, id: Id)
    requires IngestStep(s, d, actor, at, o, s')
    ensures s.findings.Keys <= s'.findings.Keys && s.events <= s'.events
    ensures Trail(s.events, id) <= Trail(s'.events, id)
  {
    if o.isNew {
      LifeAfterEvent(Inserted(WithSource(s, d), d, at), Event(s.next, Discovered, actor, at), id);
      if o.previous.Some? {
        var found := Discover(s, d, actor, at);
        LifeAfterEvent(Linked(found, o.previous.value, s.next), Event(s.next, ReLeaked(o.previous.value), actor, at),
                       id);
      }
    }
  }

  /** A finding leaves the ledger only when a deleting policy found it closed long enough ago. */
  lemma OnlyExpiredFindingsAreDeleted(s: State, step: Step, s': State, id: Id)
    requires Next(s, step, s') && id in s.findings && id !in s'.findings
    ensures step.PurgeSome? && step.policy.DeletesAnything()
    ensures s.findings[id].remediatedAt.Some? && s.findings[id].remediatedAt.value <= step.policy.Cutoff(step.at)
  {
    if step.PurgeSome? {
      var ids :| Selected(s, step.policy.Cutoff(step.at), step.limit, ids) &&
          s' == if Dangles(s, ids) then s else Deleted(s, ids);
      assert id in Eligible(s, step.policy.Cutoff(step.at));
    }
  }

  /** In every run a finding that has gone was deleted by a purge that found it closed by its cutoff. */
  lemma {:induction false} DeletedFindingsHadExpired(tr: seq<State>, steps: seq<Step>, i: nat, j: nat, id: Id)
    requires Run(tr, steps) && i <= j < |tr| && id in tr[i].findings && id !in tr[j].findings
    ensures exists k :: i <= k < j && Expires(tr[k], steps[k], id)
    decreases j
  {
    hide Next;
    if id in tr[j - 1].findings {
      OnlyExpiredFindingsAreDeleted(tr[j - 1], steps[j - 1], tr[j], id);
      assert Expires(tr[j - 1], steps[j - 1], id);
    } else {
      DeletedFindingsHadExpired(tr, steps, i, j - 1, id);
    }
  }

  /** The step is a purge under a deleting policy, and the finding was closed by its cutoff. */
  predicate Expires(s: State, step: Step, id: Id) {
    && step.PurgeSome? && step.policy.DeletesAnything() && id in s.findings && s.findings[id].remediatedAt.Some?
    && s.findings[id].remediatedAt.value <= step.policy.Cutoff(step.at)
  }

  /** Outside a purge the log is append-only. */
  lemma {:induction false} LogIsAppendOnly(s: State, step: Step, s': State, id: Id)
    requires Next(s, step, s') && !step.PurgeSome?
    ensures s.findings.Keys <= s'.findings.Keys && s.events <= s'.events && Trail(s.events, id) <= Trail(s'.events, id)
  {
    hide IngestStep;
    match step
    case IngestOne(d, actor, at) =>
      var o :| IngestStep(s, d, actor, at, o, s');
      IngestAppends(s, d, actor, at, o, s', id);
    case RemediateOne(x, actorId, note, at) => EventAppends(s, s', Event(x, Remediated, Some(actorId), at), id);
    case ReopenOne(x, actorId, at) => EventAppends(s, s', Event(x, Unremediated, Some(actorId), at), id);
    case ViewOne(x, actorId, at) => EventAppends(s, s', Event(x, PasswordViewed, Some(actorId), at), id);
    case PurgeSome(policy, at, limit) =>
  }

  lemma EventAppends(s: State, s': State, e: Event, id: Id)
    ensures s'.events == s.events + [e] ==> Trail(s.events, id) <= Trail(s'.events, id)
  {
    LifeAfterEvent(s, e, id);
    hide Trail;
  }

  /** A purge keeps every surviving finding and its trail as they were. */
  lemma PurgeSparesSurvivors(s: State, policy: Policy, now: int, limit: nat, s': State, id: Id)
    requires PurgeStep(s, policy, now, limit, s') && id in s'.findings
    ensures id in s.findings && s'.findings[id] == s.findings[id] && Trail(s'.events, id) == Trail(s.events, id)
  {
    if policy.DeletesAnything() {
      var ids :| Selected(s, policy.Cutoff(now), limit, ids) && s' == if Dangles(s, ids) then s else Deleted(s, ids);
      TrailAfterPurge(s.events, ids, id);
    }
  }

  /** Only a readable, complete policy deletes; anything malformed keeps every finding. */
  lemma PolicyFailsClosed(mode: Option<string>, days: StoredDays)
    ensures LoadPolicy(mode, days).DeletesAnything() <==>
            || (mode == Some("none") && !days.Unreadable?)
            || (mode == Some("days") && days.Number? && days.value >= 1)
    ensures forall now :: mode == Some("none") && LoadPolicy(mode, days).DeletesAnything() ==>
              LoadPolicy(mode, days).Cutoff(now) == now
    ensures forall now :: mode == Some("days") && LoadPolicy(mode, days).DeletesAnything() ==>
              LoadPolicy(mode, days).Cutoff(now) == now - 86400 * days.value
  {
  }
}
