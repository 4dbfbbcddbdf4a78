/**
 What every reachable ledger satisfies: each row agrees with its replayed trail, no event outlives
 its finding, fingerprints are unique, and re-leak links form disjoint chains that run forward in
 creation order.
 */
module LedgerInvariant {
  import opened Retention
  import opened Wrappers
  import opened FindingLedger
  import opened LedgerHistory

  predicate Agrees(f: Finding, l: Life) {
    && l.Live?
    && f.severity == (if l.previous.Some? then High else Medium)
    && f.remediatedAt == l.closedAt
    && f.remediatedBy == l.closedBy
    && (f.remediatedAt.None? ==> f.note.None?)
  }

  /** The finding that a life says it re-leaked. */
  function Prior(l: Life): Option<Id> {
    match l
    case Live(previous, _, _, _) => previous
    case _ => None
  }

  /** The two ends of a link are sightings of one account at one named source, with different passwords. */
  predicate Linkable(earlier: Finding, later: Finding) {
    && earlier.subject == later.subject
    && earlier.identity.Some? && earlier.identity == later.identity
    && earlier.source.name == later.source.name && later.source.name != UNKNOWN
    && earlier.password != later.password
  }

  /** Rows and replayed trails agree; absent rows have no trail. */
  ghost predicate RowsAgree(fs: map<Id, Finding>, next: Id, life: Id -> Life) {
    && (forall id :: id in fs ==> id < next && Agrees(fs[id], life(id)))
    && (forall id :: id !in fs ==> life(id) == Unborn)
  }

  ghost predicate UniqueFingerprints(fs: map<Id, Finding>) {
    forall a, b :: a in fs && b in fs && fs[a].fingerprint == fs[b].fingerprint ==> a == b
  }

  /** A link names a later row whose trail names it back. */
  ghost predicate LinksForward(fs: map<Id, Finding>, life: Id -> Life) {
    forall p :: p in fs && fs[p].supersededBy.Some? ==>
      var c := fs[p].supersededBy.value;
      p < c && c in fs && Prior(life(c)) == Some(p) && Linkable(fs[p], fs[c])
  }

  /** A re-leak event names an earlier row that, if it still exists, links forward to this one. */
  ghost predicate LinksBack(fs: map<Id, Finding>, life: Id -> Life) {
    forall c :: c in fs && Prior(life(c)).Some? ==>
      var p := Prior(life(c)).value;
      p < c && (p in fs ==> fs[p].supersededBy == Some(c))
  }

  ghost predicate Coherent(fs: map<Id, Finding>, next: Id, life: Id -> Life) {
    RowsAgree(fs, next, life) && UniqueFingerprints(fs) && LinksForward(fs, life) && LinksBack(fs, life)
  }

  function Lives(s: State): Id -> Life {
    (id: Id) => LifeOf(s, id)
  }

  ghost predicate Inv(s: State) {
    Coherent(s.findings, s.next, Lives(s))
  }

  // ---------- Preservation on rows and lives ----------

  lemma InsertCoherent(fs: map<Id, Finding>, next: Id, life: Id -> Life, d: Draft, at: int, life': Id -> Life)
    requires Coherent(fs, next, life)
    requires forall id :: id in fs ==> fs[id].fingerprint != d.fingerprint
    requires life'(next) == Live(None, 0, None, None)
    requires forall id :: id != next ==> life'(id) == life(id)
    ensures Coherent(fs[next := Fresh(d, at)], next + 1, life')
  {
  }

  /** `fs'` is `fs` with row `p` linked to row `c` and `c` raised to high severity. */
  ghost predicate LinkAdded(fs: map<Id, Finding>, life: Id -> Life, p: Id, c: Id, fs': map<Id, Finding>,
                            life': Id -> Life) {
    && p in fs && c in fs && p < c && life(c) == Live(None, 0, None, None)
    && Linkable(fs[p], fs[c]) && fs[p].supersededBy.None?
    && fs'.Keys == fs.Keys
    && fs'[p] == fs[p].(supersededBy := Some(c)) && fs'[c] == fs[c].(severity := High)
    && (forall id :: id in fs && id != p && id != c ==> fs'[id] == fs[id])
    && life'(c) == Live(Some(p), 0, None, None)
    && (forall id :: id != c ==> life'(id) == life(id))
  }

  lemma LinkForward(fs: map<Id, Finding>, life: Id -> Life, p: Id, c: Id, fs': map<Id, Finding>, life': Id -> Life)
    requires LinksForward(fs, life) && LinkAdded(fs, life, p, c, fs', life')
    ensures LinksForward(fs', life')
  {
    forall q | q in fs' && fs'[q].supersededBy.Some?
      ensures var r := fs'[q].supersededBy.value;
              q < r && r in fs' && Prior(life'(r)) == Some(q) && Linkable(fs'[q], fs'[r])
    {
      if q != p {
        var r := fs[q].supersededBy.value;
        assert Prior(life(r)) == Some(q) && r != c;
      }
    }
  }

  lemma LinkBack(fs: map<Id, Finding>, life: Id -> Life, p: Id, c: Id, fs': map<Id, Finding>, life': Id -> Life)
    requires LinksBack(fs, life) && LinkAdded(fs, life, p, c, fs', life')
    ensures LinksBack(fs', life')
  {
    forall r | r in fs' && Prior(life'(r)).Some?
      ensures var q := Prior(life'(r)).value;
              q < r && (q in fs' ==> fs'[q].supersededBy == Some(r))
    {
      if r != c {
        var q := Prior(life(r)).value;
        assert q in fs ==> q != p;
      }
    }
  }

  lemma LinkCoherent(fs: map<Id, Finding>, next: Id, life: Id -> Life, p: Id, c: Id, fs': map<Id, Finding>,
                     life': Id -> Life)
    requires Coherent(fs, next, life) && LinkAdded(fs, life, p, c, fs', life')
    ensures Coherent(fs', next, life')
  {
    LinkForward(fs, life, p, c, fs', life');
    LinkBack(fs, life, p, c, fs', life');
    forall id | id in fs'
      ensures id < next && Agrees(fs'[id], life'(id)) && fs'[id].fingerprint == fs[id].fingerprint
    {
    }
  }

  /** Rows and lives whose links are those of `fs` and `life`. */
  ghost predicate SameLinks(fs: map<Id, Finding>, life: Id -> Life, fs': map<Id, Finding>, life': Id -> Life) {
    && fs'.Keys == fs.Keys
    && (forall x :: x in fs ==> fs'[x].supersededBy == fs[x].supersededBy)
    && (forall x :: x in fs ==> fs'[x].subject == fs[x].subject && fs'[x].identity == fs[x].identity
                                && fs'[x].source == fs[x].source && fs'[x].password == fs[x].password)
    && (forall x :: Prior(life'(x)) == Prior(life(x)))
  }

  lemma LinksUntouched(fs: map<Id, Finding>, life: Id -> Life, fs': map<Id, Finding>, life': Id -> Life)
    requires SameLinks(fs, life, fs', life') && LinksForward(fs, life) && LinksBack(fs, life)
    ensures LinksForward(fs', life') && LinksBack(fs', life')
  {
  }

  /** Columns outside identity, fingerprint and link change together with the life they mirror. */
  lemma UpdateCoherent(fs: map<Id, Finding>, next: Id, life: Id -> Life, id: Id, f: Finding, life': Id -> Life)
    requires Coherent(fs, next, life) && id in fs
    requires f == fs[id].(lastSeen := f.lastSeen, sighting := f.sighting, remediatedAt := f.remediatedAt,
                          remediatedBy := f.remediatedBy, note := f.note)
    requires Agrees(f, life'(id)) && Prior(life'(id)) == Prior(life(id))
    requires forall x :: x != id ==> life'(x) == life(x)
    ensures Coherent(fs[id := f], next, life')
  {
    UpdateKeepsAgreement(fs, next, life, id, f, life');
    UpdateKeepsLinks(fs, life, id, f, life');
    hide *;
    UpdatedCoherent(fs, next, life, fs[id := f], life') by {
      LinksOf(fs, next, life);
    }
  }

  lemma LinksOf(fs: map<Id, Finding>, next: Id, life: Id -> Life)
    requires Coherent(fs, next, life)
    ensures LinksForward(fs, life) && LinksBack(fs, life)
  {
    hide LinksForward, LinksBack, RowsAgree, UniqueFingerprints;
  }

  lemma UpdatedCoherent(fs: map<Id, Finding>, next: Id, life: Id -> Life, fs': map<Id, Finding>, life': Id -> Life)
    requires RowsAgree(fs', next, life') && UniqueFingerprints(fs')
    requires SameLinks(fs, life, fs', life') && LinksForward(fs, life) && LinksBack(fs, life)
    ensures Coherent(fs', next, life')
  {
    LinksUntouched(fs, life, fs', life');
    hide RowsAgree, UniqueFingerprints, SameLinks, LinksForward, LinksBack;
  }

  lemma UpdateKeepsAgreement(fs: map<Id, Finding>, next: Id, life: Id -> Life, id: Id, f: Finding, life': Id -> Life)
    requires Coherent(fs, next, life) && id in fs && f.fingerprint == fs[id].fingerprint
    requires Agrees(f, life'(id)) && forall x :: x != id ==> life'(x) == life(x)
    ensures RowsAgree(fs[id := f], next, life') && UniqueFingerprints(fs[id := f])
  {
    hide LinksForward, LinksBack, Agrees;
  }

  lemma UpdateKeepsLinks(fs: map<Id, Finding>, life: Id -> Life, id: Id, f: Finding, life': Id -> Life)
    requires id in fs
    requires f == fs[id].(lastSeen := f.lastSeen, sighting := f.sighting, remediatedAt := f.remediatedAt,
                          remediatedBy := f.remediatedBy, note := f.note)
    requires Prior(life'(id)) == Prior(life(id)) && forall x :: x != id ==> life'(x) == life(x)
    ensures SameLinks(fs, life, fs[id := f], life')
  {
    hide Prior;
  }

  lemma DeleteCoherent(fs: map<Id, Finding>, next: Id, life: Id -> Life, ids: set<Id>, life': Id -> Life)
    requires Coherent(fs, next, life)
    requires forall id :: id in fs && id !in ids && fs[id].supersededBy.Some? ==> fs[id].supersededBy.value !in ids
    requires forall id :: life'(id) == if id in ids then Unborn else life(id)
    ensures Coherent(fs - ids, next, life')
  {
  }

  // ---------- Preservation by the steps ----------

  lemma LivesAfterEvent(s: State, e: Event)
    ensures forall x :: Lives(Logged(s, e))(x) == if x == e.finding then Advance(Lives(s)(x), e) else Lives(s)(x)
  {
    forall x {
      LifeAfterEvent(s, e, x);
    }
  }

  lemma DiscoverKeepsInv(s: State, d: Draft, actor: Option<Id>, at: int)
    requires Inv(s) && !Known(s, d.fingerprint)
    ensures Inv(Discover(s, d, actor, at))
    ensures LifeOf(Discover(s, d, actor, at), s.next) == Live(None, 0, None, None)
  {
    var s' := Discover(s, d, actor, at);
    LivesAfterEvent(Inserted(WithSource(s, d), d, at), Event(s.next, Discovered, actor, at));
    assert forall x :: Lives(Inserted(WithSource(s, d), d, at))(x) == Lives(s)(x);
    assert Lives(s)(s.next) == Unborn;
    forall id | id in s.findings
      ensures s.findings[id].fingerprint != d.fingerprint
    {
      assert !Holds(s, d.fingerprint, id);
    }
    InsertCoherent(s.findings, s.next, Lives(s), d, at, Lives(s'));
    assert Lives(s')(s.next) == LifeOf(s', s.next);
  }

  lemma ReLeakAddsLink(s: State, p: Id, c: Id, actor: Option<Id>, at: int)
    requires c in s.findings && p < c && LifeOf(s, c) == Live(None, 0, None, None)
    requires IsCandidate(s, c, s.findings[c].source.name, p)
    ensures var s' := ReLeak(s, p, c, actor, at);
            LinkAdded(s.findings, Lives(s), p, c, s'.findings, Lives(s'))
  {
    var s' := ReLeak(s, p, c, actor, at);
    LivesAfterEvent(Linked(s, p, c), Event(c, ReLeaked(p), actor, at));
    forall x
      ensures Lives(s')(x) == if x == c then Live(Some(p), 0, None, None) else Lives(s)(x)
    {
      assert Lives(Linked(s, p, c))(x) == Lives(s)(x);
      assert x == c ==> Lives(s)(c) == LifeOf(s, c);
    }
  }

  lemma ReLeakKeepsInv(s: State, p: Id, c: Id, actor: Option<Id>, at: int)
    requires Inv(s) && c in s.findings && p < c && LifeOf(s, c) == Live(None, 0, None, None)
    requires IsCandidate(s, c, s.findings[c].source.name, p)
    ensures Inv(ReLeak(s, p, c, actor, at))
  {
    var s' := ReLeak(s, p, c, actor, at);
    ReLeakAddsLink(s, p, c, actor, at);
    LinkCoherent(s.findings, s.next, Lives(s), p, c, s'.findings, Lives(s'));
  }

  lemma IngestKeepsInv(s: State, d: Draft, actor: Option<Id>, at: int, o: Outcome, s': State)
    requires Inv(s) && IngestStep(s, d, actor, at, o, s')
    ensures Inv(s')
  {
    if Known(s, d.fingerprint) {
      assert forall x :: Lives(s')(x) == Lives(s)(x);
      UpdateCoherent(s.findings, s.next, Lives(s), o.finding, Refreshed(s.findings[o.finding], d, at), Lives(s'));
    } else {
      DiscoverKeepsInv(s, d, actor, at);
      if o.previous.Some? {
        ReLeakKeepsInv(Discover(s, d, actor, at), o.previous.value, s.next, actor, at);
      }
    }
  }

  /** Closing, reopening or viewing: one event about `id`, and at most the closing columns of its row. */
  lemma EventKeepsInv(s: State, id: Id, f: Finding, e: Event)
    requires Inv(s) && id in s.findings && e.finding == id
    requires f == s.findings[id].(remediatedAt := f.remediatedAt, remediatedBy := f.remediatedBy, note := f.note)
    requires Agrees(f, Advance(LifeOf(s, id), e)) && Prior(Advance(LifeOf(s, id), e)) == Prior(LifeOf(s, id))
    ensures Inv(Logged(s.(findings := s.findings[id := f]), e))
  {
    var s1 := s.(findings := s.findings[id := f]);
    LivesAfterEvent(s1, e);
    assert forall x :: Lives(s1)(x) == Lives(s)(x);
    UpdateCoherent(s.findings, s.next, Lives(s), id, f, Lives(Logged(s1, e)));
  }

  lemma DeleteKeepsInv(s: State, ids: set<Id>)
    requires Inv(s) && !Dangles(s, ids)
    ensures Inv(Deleted(s, ids))
  {
    forall x
      ensures Lives(Deleted(s, ids))(x) == if x in ids then Unborn else Lives(s)(x)
    {
      TrailAfterPurge(s.events, ids, x);
    }
    DeleteCoherent(s.findings, s.next, Lives(s), ids, Lives(Deleted(s, ids)));
  }

  lemma StoredIsLive(s: State, id: Id)
    requires Inv(s) && id in s.findings
    ensures Agrees(s.findings[id], LifeOf(s, id))
  {
    assert Lives(s)(id) == LifeOf(s, id);
  }

  lemma RemediateKeepsInv(s: State, id: Id, actor: Id, note: Option<string>, at: int)
    requires Inv(s)
    ensures Inv(Remediate(s, id, actor, note, at))
  {
    hide Inv, LifeOf;
    if id in s.findings && s.findings[id].remediatedAt.None? {
      StoredIsLive(s, id);
      var f := s.findings[id].(remediatedAt := Some(at), remediatedBy := Some(actor), note := note);
      EventKeepsInv(s, id, f, Event(id, Remediated, Some(actor), at));
    }
  }

  lemma ReopenKeepsInv(s: State, id: Id, actor: Id, at: int)
    requires Inv(s)
    ensures Inv(Reopen(s, id, actor, at))
  {
    hide Inv, LifeOf;
    if id in s.findings && s.findings[id].remediatedAt.Some? {
      StoredIsLive(s, id);
      var f := s.findings[id].(remediatedAt := None, remediatedBy := None, note := None);
      EventKeepsInv(s, id, f, Event(id, Unremediated, Some(actor), at));
    }
  }

  lemma ViewKeepsInv(s: State, id: Id, actor: Id, at: int)
    requires Inv(s)
    ensures Inv(View(s, id, actor, at))
  {
    hide Inv, LifeOf;
    if id in s.findings {
      StoredIsLive(s, id);
      EventKeepsInv(s, id, s.findings[id], Event(id, PasswordViewed, Some(actor), at));
      assert s.findings[id := s.findings[id]] == s.findings;
    }
  }

  lemma PurgeKeepsInv(s: State, policy: Policy, now: int, limit: nat, s': State)
    requires Inv(s) && PurgeStep(s, policy, now, limit, s')
    ensures Inv(s')
  {
    hide Inv, Selected, Dangles, Deleted;
    if policy.DeletesAnything() {
      var ids :| Selected(s, policy.Cutoff(now), limit, ids) && s' == if Dangles(s, ids) then s else Deleted(s, ids);
      if !Dangles(s, ids) {
        DeleteKeepsInv(s, ids);
      }
    }
  }

  lemma StepKeepsInv(s: State, step: Step, s': State)
    requires Inv(s) && Next(s, step, s')
    ensures Inv(s')
  {
    hide Inv, IngestStep, PurgeStep, Remediate, Reopen, View;
    match step
    case IngestOne(d, actor, at) =>
      var o :| IngestStep(s, d, actor, at, o, s');
      IngestKeepsInv(s, d, actor, at, o, s');
    case RemediateOne(id, actorId, note, at) => RemediateKeepsInv(s, id, actorId, note, at);
    case ReopenOne(id, actorId, at) => ReopenKeepsInv(s, id, actorId, at);
    case ViewOne(id, actorId, at) => ViewKeepsInv(s, id, actorId, at);
    case PurgeSome(policy, at, limit) => PurgeKeepsInv(s, policy, at, limit, s');
  }

  /** Every state of every run satisfies the invariant. */
  lemma {:induction false} RunKeepsInv(tr: seq<State>, steps: seq<Step>, i: nat)
    requires Run(tr, steps) && i < |tr|
    ensures Inv(tr[i])
  {
    if i > 0 {
      RunKeepsInv(tr, steps, i - 1);
      StepKeepsInv(tr[i - 1], steps[i - 1], tr[i]);
    }
  }
}
