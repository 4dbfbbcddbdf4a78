/**
 The finding ledger: fingerprint-keyed ingest with re-leak linking, remediation and reopening, the
 append-only event trail, and the retention purge.

 A table is a map from row id to row.  Ids are handed out in creation order, so `p < c` says that
 row `p` was inserted before row `c`.  A breach source is named by its unique (name, date) pair.
 */
module FindingLedger {
  import opened Wrappers
  import opened Retention

  type Id = nat
  type Digest = string

  datatype Severity = Low | Medium | High
  datatype Source = Source(name: string, date: int)
  datatype SourceFlags = SourceFlags(unverified: Option<bool>, passwordless: Option<bool>, compilation: Option<bool>)

  /** The columns that a repeated sighting overwrites. */
  datatype Sighting = Sighting(raw: string, fields: seq<string>, origin: Option<string>)

  datatype Draft = Draft(subject: Id, source: Source, flags: SourceFlags, identity: Option<Digest>,
                         password: Option<Digest>, fingerprint: Digest, sighting: Sighting)

  datatype Finding = Finding(subject: Id, source: Source, identity: Option<Digest>, password: Option<Digest>,
                             fingerprint: Digest, severity: Severity, firstSeen: int, lastSeen: int,
                             sighting: Sighting, remediatedAt: Option<int>, remediatedBy: Option<Id>,
                             note: Option<string>, supersededBy: Option<Id>)

  datatype Kind = Discovered | Remediated | Unremediated | ReLeaked(previous: Id) | PasswordViewed
  datatype Event = Event(finding: Id, kind: Kind, actor: Option<Id>, at: int)

  datatype State = State(findings: map<Id, Finding>, sources: map<Source, SourceFlags>, events: seq<Event>, next: Id)

  const EMPTY := State(map[], map[], [], 0)
  const UNKNOWN := "unknown"

  /** What one record did: the row it landed in, whether that row is new, and the row it superseded. */
  datatype Outcome = Outcome(finding: Id, isNew: bool, previous: Option<Id>)

  // ---------- The effect of each repository call on the tables ----------

  function WithSource(s: State, d: Draft): State {
    s.(sources := s.sources[d.source := d.flags])
  }

  function Refreshed(f: Finding, d: Draft, at: int): Finding {
    f.(lastSeen := at, sighting := d.sighting)
  }

  function Fresh(d: Draft, at: int): Finding {
    Finding(d.subject, d.source, d.identity, d.password, d.fingerprint, Medium, at, at, d.sighting,
            None, None, None, None)
  }

  predicate Holds(s: State, fingerprint: Digest, id: Id) {
    id in s.findings && s.findings[id].fingerprint == fingerprint
  }

  predicate Known(s: State, fingerprint: Digest) {
    exists id :: id in s.findings && Holds(s, fingerprint, id)
  }

  function Logged(s: State, e: Event): State {
    s.(events := s.events + [e])
  }

  function Inserted(s: State, d: Draft, at: int): State {
    s.(findings := s.findings[s.next := Fresh(d, at)], next := s.next + 1)
  }

  /** Row `q` is one the predecessor query for row `c` under source name `name` returns. */
  predicate IsCandidate(s: State, c: Id, name: string, q: Id)
    requires c in s.findings
  {
    && name != UNKNOWN
    && q in s.findings && q != c
    && s.findings[c].identity.Some?
    && s.findings[q].subject == s.findings[c].subject
    && s.findings[q].identity == s.findings[c].identity
    && s.findings[q].remediatedAt.Some?
    && s.findings[q].supersededBy.None?
    && s.findings[q].password != s.findings[c].password
    && s.findings[q].source.name == name
  }

  predicate AtLeastAsRecent(s: State, q: Id, p: Id)
    requires q in s.findings && p in s.findings
  {
    s.findings[p].remediatedAt.Some? ==>
    s.findings[q].remediatedAt.Some? && s.findings[p].remediatedAt.value <= s.findings[q].remediatedAt.value
  }

  /** A first row of the query ordered by remediation time, newest first. */
  predicate IsPredecessor(s: State, c: Id, name: string, p: Id)
    requires c in s.findings
  {
    && IsCandidate(s, c, name, p)
    && forall q :: q in s.findings && IsCandidate(s, c, name, q) ==> AtLeastAsRecent(s, p, q)
  }

  predicate NoPredecessor(s: State, c: Id, name: string)
    requires c in s.findings
  {
    forall q :: q in s.findings ==> !IsCandidate(s, c, name, q)
  }

  function Linked(s: State, p: Id, c: Id): State
    requires p in s.findings && c in s.findings
  {
    var marked := s.findings[p := s.findings[p].(supersededBy := Some(c))];
    s.(findings := marked[c := marked[c].(severity := High)])
  }

  // ---------- The steps of the ledger ----------

  function Discover(s: State, d: Draft, actor: Option<Id>, at: int): State {
    Logged(Inserted(WithSource(s, d), d, at), Event(s.next, Discovered, actor, at))
  }

  function ReLeak(s: State, p: Id, c: Id, actor: Option<Id>, at: int): State
    requires p in s.findings && c in s.findings
  {
    Logged(Linked(s, p, c), Event(c, ReLeaked(p), actor, at))
  }

  /** One record of `ingest_records`.  A relation: the query may break ties either way. */
  ghost predicate IngestStep(s: State, d: Draft, actor: Option<Id>, at: int, o: Outcome, s': State) {
    if Known(s, d.fingerprint) then
      && Holds(s, d.fingerprint, o.finding) && !o.isNew && o.previous.None?
      && s' == WithSource(s, d).(findings := s.findings[o.finding := Refreshed(s.findings[o.finding], d, at)])
    else
      var found := Discover(s, d, actor, at);
      && o.finding == s.next && o.isNew
      && match o.previous
         case None => NoPredecessor(found, s.next, d.source.name) && s' == found
         case Some(p) => IsPredecessor(found, s.next, d.source.name, p) && s' == ReLeak(found, p, s.next, actor, at)
  }

  /** The states an ingest passes through, one record at a time. */
  ghost predicate IngestTrace(tr: seq<State>, ds: seq<Draft>, actor: Option<Id>, at: int, outs: seq<Outcome>) {
    && |tr| == |ds| + 1 && |outs| == |ds|
    && forall i :: 0 <= i < |ds| ==> IngestStep(tr[i], ds[i], actor, at, outs[i], tr[i + 1])
  }

  function NewCount(outs: seq<Outcome>): nat {
    |NewIds(outs)|
  }

  datatype IngestSummary = IngestSummary(findings: seq<Id>, newCount: nat, reLeakedCount: nat, newIds: seq<Id>)

  function Summarize(outs: seq<Outcome>): IngestSummary {
    IngestSummary(Rows(outs), NewCount(outs), ReLeakedCount(outs), NewIds(outs))
  }

  function NewIds(outs: seq<Outcome>): seq<Id> {
    if outs == [] then []
    else NewIds(outs[..|outs| - 1]) + if outs[|outs| - 1].isNew then [outs[|outs| - 1].finding] else []
  }

  function ReLeakedCount(outs: seq<Outcome>): nat {
    if outs == [] then 0
    else ReLeakedCount(outs[..|outs| - 1]) + if outs[|outs| - 1].previous.Some? then 1 else 0
  }

  function Rows(outs: seq<Outcome>): seq<Id> {
    seq(|outs|, i requires 0 <= i < |outs| => outs[i].finding)
  }

  function Remediate(s: State, id: Id, actor: Id, note: Option<string>, at: int): State {
    if id !in s.findings || s.findings[id].remediatedAt.Some? then s
    else
      Logged(s.(findings := s.findings[id := s.findings[id].(remediatedAt := Some(at), remediatedBy := Some(actor),
                                                             note := note)]),
             Event(id, Remediated, Some(actor), at))
  }

  function Reopen(s: State, id: Id, actor: Id, at: int): State {
    if id !in s.findings || s.findings[id].remediatedAt.None? then s
    else
      Logged(s.(findings := s.findings[id := s.findings[id].(remediatedAt := None, remediatedBy := None,
                                                             note := None)]),
             Event(id, Unremediated, Some(actor), at))
  }

  /** An analyst reveals a stored password; only the trail changes. */
  function View(s: State, id: Id, actor: Id, at: int): State {
    if id !in s.findings || s.findings[id].password.None? then s
    else Logged(s, Event(id, PasswordViewed, Some(actor), at))
  }

  function Eligible(s: State, cutoff: int): set<Id> {
    set id | id in s.findings && s.findings[id].remediatedAt.Some? && s.findings[id].remediatedAt.value <= cutoff
  }

  /** Deleting `ids` would leave a surviving row whose foreign key names a deleted one. */
  predicate Dangles(s: State, ids: set<Id>) {
    exists id :: id in s.findings && id !in ids && s.findings[id].supersededBy.Some? &&
      s.findings[id].supersededBy.value in ids
  }

  function WithoutEvents(events: seq<Event>, ids: set<Id>): seq<Event> {
    if events == [] then []
    else
      var last := events[|events| - 1];
      WithoutEvents(events[..|events| - 1], ids) + if last.finding in ids then [] else [last]
  }

  function Deleted(s: State, ids: set<Id>): State {
    s.(findings := s.findings - ids, events := WithoutEvents(s.events, ids))
  }

  /** `ids` is a result of the bounded eligibility query. */
  ghost predicate Selected(s: State, cutoff: int, limit: nat, ids: set<Id>) {
    ids <= Eligible(s, cutoff) && |ids| == if |Eligible(s, cutoff)| < limit then |Eligible(s, cutoff)| else limit
  }

  /** The purge transaction deletes what it selected, or the foreign key rolls all of it back. */
  ghost predicate PurgeStep(s: State, policy: Policy, now: int, limit: nat, s': State) {
    if !policy.DeletesAnything() then s' == s
    else
      exists ids ::
        Selected(s, policy.Cutoff(now), limit, ids) && s' == if Dangles(s, ids) then s else Deleted(s, ids)
  }

  datatype Step =
    | IngestOne(draft: Draft, actor: Option<Id>, at: int)
    | RemediateOne(id: Id, actorId: Id, note: Option<string>, at: int)
    | ReopenOne(id: Id, actorId: Id, at: int)
    | ViewOne(id: Id, actorId: Id, at: int)
    | PurgeSome(policy: Policy, at: int, limit: nat)

  ghost predicate Next(s: State, step: Step, s': State) {
    match step
    case IngestOne(d, actor, at) => exists o :: IngestStep(s, d, actor, at, o, s')
    case RemediateOne(id, actorId, note, at) => s' == Remediate(s, id, actorId, note, at)
    case ReopenOne(id, actorId, at) => s' == Reopen(s, id, actorId, at)
    case ViewOne(id, actorId, at) => s' == View(s, id, actorId, at)
    case PurgeSome(policy, at, limit) => PurgeStep(s, policy, at, limit, s')
  }

  /** Any interleaving of committed transactions, from the empty database. */
  ghost predicate Run(tr: seq<State>, steps: seq<Step>) {
    && |tr| == |steps| + 1 && tr[0] == EMPTY
    && forall i :: 0 <= i < |steps| ==> Next(tr[i], steps[i], tr[i + 1])
  }

  // ---------- The program: the same steps on mutable tables ----------

  lemma {:induction false} SomeRowIsMostRecent(s: State, ids: set<Id>)
    requires ids != {} && ids <= s.findings.Keys
    ensures exists p :: p in ids && forall q :: q in ids ==> AtLeastAsRecent(s, p, q)
    decreases ids
  {
    var x :| x in ids;
    var rest := ids - {x};
    if rest == {} {
      assert ids == {x};
    } else {
      SomeRowIsMostRecent(s, rest);
      var p :| p in rest && forall q :: q in rest ==> AtLeastAsRecent(s, p, q);
      var best := if AtLeastAsRecent(s, p, x) then p else x;
      assert forall q :: q in ids ==> q == x || q in rest;
      assert forall q :: q in ids ==> AtLeastAsRecent(s, best, q);
    }
  }

  lemma TraceExtended(tr: seq<State>, ds: seq<Draft>, actor: Option<Id>, at: int, outs: seq<Outcome>, d: Draft,
                      o: Outcome, s: State)
    requires IngestTrace(tr, ds, actor, at, outs) && IngestStep(tr[|ds|], d, actor, at, o, s)
    ensures IngestTrace(tr + [s], ds + [d], actor, at, outs + [o])
    ensures Summarize(outs + [o]) == Tallied(Summarize(outs), o)
  {
    assert (outs + [o])[..|outs|] == outs;
  }

  /** The summary after one more record. */
  function Tallied(t: IngestSummary, o: Outcome): IngestSummary {
    var seen := t.(findings := t.findings + [o.finding]);
    if !o.isNew then seen
    else
      var added := seen.(newCount := t.newCount + 1, newIds := t.newIds + [o.finding]);
      if o.previous.None? then added else added.(reLeakedCount := t.reLeakedCount + 1)
  }

  class Ledger {
    var findings: map<Id, Finding>
    var sources: map<Source, SourceFlags>
    var events: seq<Event>
    var next: Id

    function Tables(): State
      reads this
    {
      State(findings, sources, events, next)
    }

    constructor ()
      ensures Tables() == EMPTY
    {
      findings, sources, events, next := map[], map[], [], 0;
    }

    method ResolveSource(d: Draft)
      modifies this`sources
      ensures Tables() == WithSource(old(Tables()), d)
    {
      sources := sources[d.source := d.flags];
    }

    method UpsertFinding(d: Draft, at: int) returns (id: Id, isNew: bool)
      modifies this`findings, this`next
      ensures isNew == !Known(old(Tables()), d.fingerprint)
      ensures isNew ==> id == old(next) && Tables() == Inserted(old(Tables()), d, at)
      ensures !isNew ==> Holds(old(Tables()), d.fingerprint, id)
      ensures !isNew ==>
                Tables() == old(Tables()).(findings := old(findings)[id := Refreshed(old(findings)[id], d, at)])
    {
      if exists row :: row in findings && Holds(Tables(), d.fingerprint, row) {
        id :| id in findings && Holds(Tables(), d.fingerprint, id);
        isNew := false;
        findings := findings[id := findings[id].(lastSeen := at, sighting := d.sighting)];
      } else {
        id, isNew := next, true;
        findings := findings[id := Fresh(d, at)];
        next := next + 1;
      }
    }

    method FindRemediatedPredecessor(current: Id, name: string) returns (p: Option<Id>)
      requires current in findings
      ensures p.None? ==> NoPredecessor(Tables(), current, name)
      ensures p.Some? ==> IsPredecessor(Tables(), current, name, p.value)
    {
      if name == UNKNOWN || findings[current].identity.None? {
        return None;
      }
      var s := Tables();
      var found := set q | q in findings && IsCandidate(s, current, name, q);
      if found == {} {
        assert forall q :: q in findings && IsCandidate(s, current, name, q) ==> q in found;
        return None;
      }
      SomeRowIsMostRecent(s, found);
      var best :| best in found && forall q :: q in found ==> AtLeastAsRecent(s, best, q);
      return Some(best);
    }

    method LinkReleak(previous: Id, current: Id)
      requires previous in findings && current in findings
      modifies this`findings
      ensures Tables() == Linked(old(Tables()), previous, current)
    {
      findings := findings[previous := findings[previous].(supersededBy := Some(current))];
      findings := findings[current := findings[current].(severity := High)];
    }

    method AddEvent(id: Id, kind: Kind, actor: Option<Id>, at: int)
      modifies this`events
      ensures Tables() == Logged(old(Tables()), Event(id, kind, actor, at))
    {
      events := events + [Event(id, kind, actor, at)];
    }

    method IngestRecord(d: Draft, actor: Option<Id>, at: int) returns (o: Outcome)
      modifies this
      ensures IngestStep(old(Tables()), d, actor, at, o, Tables())
    {
      ResolveSource(d);
      var id, isNew := UpsertFinding(d, at);
      if !isNew {
        return Outcome(id, false, None);
      }
      AddEvent(id, Discovered, actor, at);
      var predecessor := FindRemediatedPredecessor(id, d.source.name);
      if predecessor.None? {
        return Outcome(id, true, None);
      }
      LinkReleak(predecessor.value, id);
      AddEvent(id, ReLeaked(predecessor.value), actor, at);
      return Outcome(id, true, predecessor);
    }

    method IngestRecords(ds: seq<Draft>, actor: Option<Id>, at: int)
      returns (summary: IngestSummary, ghost outs: seq<Outcome>, ghost tr: seq<State>)
      modifies this
      ensures IngestTrace(tr, ds, actor, at, outs) && tr[0] == old(Tables()) && tr[|ds|] == Tables()
      ensures summary == Summarize(outs)
    {
      summary, outs, tr := IngestSummary([], 0, 0, []), [], [Tables()];
      for i := 0 to |ds|
        invariant IngestTrace(tr, ds[..i], actor, at, outs) && tr[0] == old(Tables()) && tr[i] == Tables()
        invariant summary == Summarize(outs)
      {
        var o := IngestRecord(ds[i], actor, at);
        TraceExtended(tr, ds[..i], actor, at, outs, ds[i], o, Tables());
        assert ds[..i + 1] == ds[..i] + [ds[i]];
        summary, outs, tr := Tallied(summary, o), outs + [o], tr + [Tables()];
      }
      assert ds[..|ds|] == ds;
    }

    method RemediateFinding(id: Id, actor: Id, note: Option<string>, at: int) returns (found: bool)
      modifies this`findings, this`events
      ensures found == (id in old(findings))
      ensures Tables() == Remediate(old(Tables()), id, actor, note, at)
    {
      if id !in findings {
        return false;
      }
      if findings[id].remediatedAt.Some? {
        return true;
      }
      findings := findings[id := findings[id].(remediatedAt := Some(at), remediatedBy := Some(actor), note := note)];
      AddEvent(id, Remediated, Some(actor), at);
      return true;
    }

    method UnremediateFinding(id: Id, actor: Id, at: int) returns (found: bool)
      modifies this`findings, this`events
      ensures found == (id in old(findings))
      ensures Tables() == Reopen(old(Tables()), id, actor, at)
    {
      if id !in findings {
        return false;
      }
      if findings[id].remediatedAt.None? {
        return true;
      }
      findings := findings[id := findings[id].(remediatedAt := None, remediatedBy := None, note := None)];
      AddEvent(id, Unremediated, Some(actor), at);
      return true;
    }

    /** `ids` is what the query selected; `failed` says that the foreign key refused the deletion. */
    method PurgeExpiredFindings(policy: Policy, now: int, limit: nat)
      returns (removed: nat, failed: bool, ghost ids: set<Id>)
      modifies this`findings, this`events
      ensures PurgeStep(old(Tables()), policy, now, limit, Tables())
      ensures policy.DeletesAnything() ==> Selected(old(Tables()), policy.Cutoff(now), limit, ids)
      ensures failed <==> policy.DeletesAnything() && Dangles(old(Tables()), ids)
      ensures Tables() == if policy.DeletesAnything() && !failed then Deleted(old(Tables()), ids) else old(Tables())
      ensures removed == |old(findings)| - |findings|
    {
      ids := {};
      if !policy.DeletesAnything() {
        return 0, false, ids;
      }
      var selected := SelectEligible(policy.Cutoff(now), limit);
      ids := selected;
      if Dangles(Tables(), selected) {
        return 0, true, ids;
      }
      events := WithoutEvents(events, selected);
      findings := findings - selected;
      assert findings.Keys + selected == old(findings).Keys;
      removed, failed := |selected|, false;
    }

    method SelectEligible(cutoff: int, limit: nat) returns (ids: set<Id>)
      ensures Selected(Tables(), cutoff, limit, ids)
    {
      var eligible := Eligible(Tables(), cutoff);
      var size := if |eligible| < limit then |eligible| else limit;
      SubsetOfSize(eligible, size);
      ids :| ids <= eligible && |ids| == size;
    }
  }

  lemma {:induction false} SubsetOfSize<T>(whole: set<T>, size: nat)
    requires size <= |whole|
    ensures exists part :: part <= whole && |part| == size
  {
    if size == |whole| {
      assert whole <= whole;
    } else {
      var x :| x in whole;
      SubsetOfSize(whole - {x}, size);
      var part :| part <= whole - {x} && |part| == size;
      assert part <= whole;
    }
  }
}
