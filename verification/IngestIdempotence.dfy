/** Ingest can be repeated, split and reordered: what changes, what does not, and what is counted. */
module IngestIdempotence {
  import opened Wrappers
  import opened FindingLedger
  import opened LedgerInvariant

  function Fingerprints(s: State): set<Digest> {
    set id | id in s.findings :: s.findings[id].fingerprint
  }

  function Mentioned(ds: seq<Draft>): set<Digest> {
    set d | d in ds :: d.fingerprint
  }

  /** The last record of a batch that carries a fingerprint. */
  function Latest(ds: seq<Draft>, fingerprint: Digest): Option<Draft> {
    if ds == [] then None
    else if ds[|ds| - 1].fingerprint == fingerprint then Some(ds[|ds| - 1])
    else Latest(ds[..|ds| - 1], fingerprint)
  }

  function LatestFlags(ds: seq<Draft>): map<Source, SourceFlags> {
    if ds == [] then map[]
    else LatestFlags(ds[..|ds| - 1])[ds[|ds| - 1].source := ds[|ds| - 1].flags]
  }

  function SeenAgain(f: Finding, ds: seq<Draft>, at: int): Finding {
    match Latest(ds, f.fingerprint)
    case None => f
    case Some(d) => Refreshed(f, d, at)
  }

  /** `s'` is `s` after a batch whose fingerprints were all stored already: nothing but columns of a sighting. */
  ghost predicate Reseen(s: State, ds: seq<Draft>, at: int, s': State) {
    && s'.events == s.events && s'.next == s.next
    && s'.sources == s.sources + LatestFlags(ds)
    && s'.findings.Keys == s.findings.Keys
    && forall id :: id in s.findings ==> s'.findings[id] == SeenAgain(s.findings[id], ds, at)
  }

  // ---------- One record, seen from outside ----------

  /** What one record does to the stored fingerprints and to the columns of a sighting. */
  ghost predicate Effect(s: State, d: Draft, at: int, o: Outcome, s': State) {
    && s'.findings.Keys == s.findings.Keys + {o.finding}
    && s'.sources == s.sources[d.source := d.flags]
    && (o.isNew <==> d.fingerprint !in Fingerprints(s))
    && s'.findings[o.finding].fingerprint == d.fingerprint
    && s'.findings[o.finding].lastSeen == at && s'.findings[o.finding].sighting == d.sighting
    && (forall id :: id in s'.findings && s'.findings[id].fingerprint == d.fingerprint ==> id == o.finding)
    && (forall id :: id in s.findings ==> s'.findings[id].fingerprint == s.findings[id].fingerprint)
    && (forall id :: id in s.findings && id != o.finding ==>
          s'.findings[id].lastSeen == s.findings[id].lastSeen && s'.findings[id].sighting == s.findings[id].sighting)
    && (!o.isNew ==> o.previous.None? && o.finding in s.findings && s'.events == s.events && s'.next == s.next)
    && (!o.isNew ==> s'.findings == s.findings[o.finding := Refreshed(s.findings[o.finding], d, at)])
  }

  ghost predicate Effects(tr: seq<State>, ds: seq<Draft>, at: int, outs: seq<Outcome>) {
    && |tr| == |ds| + 1 && |outs| == |ds|
    && forall i :: 0 <= i < |ds| ==> Effect(tr[i], ds[i], at, outs[i], tr[i + 1])
  }

  lemma KnownIsStored(s: State, fingerprint: Digest)
    ensures Known(s, fingerprint) <==> fingerprint in Fingerprints(s)
  {
    if fingerprint in Fingerprints(s) {
      var id :| id in s.findings && s.findings[id].fingerprint == fingerprint;
      assert Holds(s, fingerprint, id);
    }
  }

  lemma KnownEffect(s: State, d: Draft, at: int, o: Outcome, s': State)
    requires UniqueFingerprints(s.findings) && Holds(s, d.fingerprint, o.finding) && !o.isNew && o.previous.None?
    requires s' == WithSource(s, d).(findings := s.findings[o.finding := Refreshed(s.findings[o.finding], d, at)])
    ensures Effect(s, d, at, o, s')
  {
    assert Known(s, d.fingerprint);
    KnownIsStored(s, d.fingerprint);
  }

  lemma NewEffect(s: State, d: Draft, at: int, o: Outcome, s': State)
    requires !Known(s, d.fingerprint) && s.next !in s.findings && o.finding == s.next && o.isNew
    requires s'.sources == s.sources[d.source := d.flags] && s'.findings.Keys == s.findings.Keys + {s.next}
    requires var f := s'.findings[s.next]; f == Fresh(d, at).(severity := f.severity)
    requires forall id :: id in s.findings ==>
               s'.findings[id] == s.findings[id].(supersededBy := s'.findings[id].supersededBy)
    ensures Effect(s, d, at, o, s')
  {
    KnownIsStored(s, d.fingerprint);
    forall id | id in s.findings
      ensures s'.findings[id].fingerprint == s.findings[id].fingerprint != d.fingerprint
    {
      assert !Holds(s, d.fingerprint, id);
    }
  }

  lemma StepEffect(s: State, d: Draft, actor: Option<Id>, at: int, o: Outcome, s': State)
    requires IngestStep(s, d, actor, at, o, s') && UniqueFingerprints(s.findings) && s.next !in s.findings
    ensures Effect(s, d, at, o, s')
  {
    hide Effect, UniqueFingerprints, Known, Holds, NoPredecessor, IsPredecessor;
    if Known(s, d.fingerprint) {
      KnownEffect(s, d, at, o, s');
    } else {
      NewRows(s, d, actor, at, o, s');
      hide *;
      NewEffect(s, d, at, o, s');
    }
  }

  /** A record with a new fingerprint adds one row and may link another to it. */
  lemma NewRows(s: State, d: Draft, actor: Option<Id>, at: int, o: Outcome, s': State)
    requires IngestStep(s, d, actor, at, o, s') && !Known(s, d.fingerprint) && s.next !in s.findings
    ensures o.finding == s.next && o.isNew
    ensures s'.sources == s.sources[d.source := d.flags] && s'.findings.Keys == s.findings.Keys + {s.next}
    ensures var f := s'.findings[s.next]; f == Fresh(d, at).(severity := f.severity)
    ensures forall id :: id in s.findings ==>
              s'.findings[id] == s.findings[id].(supersededBy := s'.findings[id].supersededBy)
  {
    var found := Discover(s, d, actor, at);
    if o.previous.Some? {
      assert o.previous.value in found.findings && o.previous.value != s.next;
    }
    hide Known, Holds, NoPredecessor, IsPredecessor;
  }

  lemma {:induction false} TraceKeepsInv(tr: seq<State>, ds: seq<Draft>, actor: Option<Id>, at: int,
                                         outs: seq<Outcome>, i: nat)
    requires IngestTrace(tr, ds, actor, at, outs) && Inv(tr[0]) && i <= |ds|
    ensures Inv(tr[i])
  {
    if i > 0 {
      TraceKeepsInv(tr, ds, actor, at, outs, i - 1);
      IngestKeepsInv(tr[i - 1], ds[i - 1], actor, at, outs[i - 1], tr[i]);
    }
  }

  lemma TraceEffects(tr: seq<State>, ds: seq<Draft>, actor: Option<Id>, at: int, outs: seq<Outcome>)
    requires IngestTrace(tr, ds, actor, at, outs) && Inv(tr[0])
    ensures Effects(tr, ds, at, outs)
  {
    forall i | 0 <= i < |ds|
      ensures Effect(tr[i], ds[i], at, outs[i], tr[i + 1])
    {
      TraceKeepsInv(tr, ds, actor, at, outs, i);
      StepEffect(tr[i], ds[i], actor, at, outs[i], tr[i + 1]);
    }
  }

  // ---------- Counting ----------

  lemma EffectFingerprints(s: State, d: Draft, at: int, o: Outcome, s': State)
    requires Effect(s, d, at, o, s')
    ensures Fingerprints(s') == Fingerprints(s) + {d.fingerprint}
  {
    forall x | x in Fingerprints(s)
      ensures x in Fingerprints(s')
    {
      var id :| id in s.findings && s.findings[id].fingerprint == x;
      assert s'.findings[id].fingerprint == x;
    }
    assert s'.findings[o.finding].fingerprint in Fingerprints(s');
  }

  lemma EffectsPrefix(tr: seq<State>, ds: seq<Draft>, at: int, outs: seq<Outcome>, n: nat)
    requires Effects(tr, ds, at, outs) && n < |ds|
    ensures Effects(tr[..n + 1], ds[..n], at, outs[..n]) && Effect(tr[n], ds[n], at, outs[n], tr[n + 1])
  {
  }

  lemma CountUnseen(before: set<Digest>, mentioned: set<Digest>, x: Digest)
    ensures |mentioned + {x} - before| == |mentioned - before| + if x in before + mentioned then 0 else 1
  {
    if x in before + mentioned {
      assert mentioned + {x} - before == mentioned - before;
    } else {
      assert mentioned + {x} - before == (mentioned - before) + {x};
    }
  }

  lemma MentionedLast(ds: seq<Draft>)
    requires ds != []
    ensures Mentioned(ds) == Mentioned(ds[..|ds| - 1]) + {ds[|ds| - 1].fingerprint}
  {
    assert ds == ds[..|ds| - 1] + [ds[|ds| - 1]];
  }

  lemma {:induction false} EffectsAddFingerprints(tr: seq<State>, ds: seq<Draft>, at: int, outs: seq<Outcome>)
    requires Effects(tr, ds, at, outs)
    ensures Fingerprints(tr[|ds|]) == Fingerprints(tr[0]) + Mentioned(ds)
  {
    var n := |ds| - 1;
    if n >= 0 {
      EffectsPrefix(tr, ds, at, outs, n);
      EffectsAddFingerprints(tr[..n + 1], ds[..n], at, outs[..n]);
      EffectFingerprints(tr[n], ds[n], at, outs[n], tr[n + 1]);
      MentionedLast(ds);
    }
  }

  lemma {:induction false} EffectsCountUnseen(tr: seq<State>, ds: seq<Draft>, at: int, outs: seq<Outcome>)
    requires Effects(tr, ds, at, outs)
    ensures NewCount(outs) == |Mentioned(ds) - Fingerprints(tr[0])|
  {
    var n := |ds| - 1;
    if n >= 0 {
      EffectsPrefix(tr, ds, at, outs, n);
      EffectsCountUnseen(tr[..n + 1], ds[..n], at, outs[..n]);
      EffectsAddFingerprints(tr[..n + 1], ds[..n], at, outs[..n]);
      MentionedLast(ds);
      CountUnseen(Fingerprints(tr[0]), Mentioned(ds[..n]), ds[n].fingerprint);
    }
  }

  /** A batch adds exactly its unseen fingerprints, and counts each of them once. */
  lemma BatchAddsItsFingerprints(tr: seq<State>, ds: seq<Draft>, actor: Option<Id>, at: int, outs: seq<Outcome>)
    requires IngestTrace(tr, ds, actor, at, outs) && Inv(tr[0])
    ensures Fingerprints(tr[|ds|]) == Fingerprints(tr[0]) + Mentioned(ds)
    ensures |Fingerprints(tr[|ds|])| == |Fingerprints(tr[0])| + NewCount(outs)
  {
    TraceEffects(tr, ds, actor, at, outs);
    EffectsAddFingerprints(tr, ds, at, outs);
    EffectsCountUnseen(tr, ds, at, outs);
    var before, added := Fingerprints(tr[0]), Mentioned(ds) - Fingerprints(tr[0]);
    assert before + Mentioned(ds) == before + added && before !! added;
  }

  /** Reordering or repeating records changes neither the stored fingerprints nor the number of new findings. */
  lemma OrderDoesNotMatter(tr: seq<State>, ds: seq<Draft>, outs: seq<Outcome>, tr': seq<State>, ds': seq<Draft>,
                           outs': seq<Outcome>, actor: Option<Id>, at: int)
    requires IngestTrace(tr, ds, actor, at, outs) && IngestTrace(tr', ds', actor, at, outs')
    requires tr[0] == tr'[0] && Inv(tr[0]) && Mentioned(ds) == Mentioned(ds')
    ensures Fingerprints(tr[|ds|]) == Fingerprints(tr'[|ds'|]) && NewCount(outs) == NewCount(outs')
  {
    BatchAddsItsFingerprints(tr, ds, actor, at, outs);
    BatchAddsItsFingerprints(tr', ds', actor, at, outs');
  }

  // ---------- Splitting ----------

  lemma {:induction false} CountsAdd(xs: seq<Outcome>, ys: seq<Outcome>)
    ensures NewIds(xs + ys) == NewIds(xs) + NewIds(ys)
    ensures ReLeakedCount(xs + ys) == ReLeakedCount(xs) + ReLeakedCount(ys)
  {
    if ys == [] {
      assert xs + ys == xs;
    } else {
      var rest := ys[..|ys| - 1];
      CountsAdd(xs, rest);
      assert (xs + ys)[..|xs + ys| - 1] == xs + rest;
    }
  }

  /** The summary of one batch after another. */
  function Joined(a: IngestSummary, b: IngestSummary): IngestSummary {
    IngestSummary(a.findings + b.findings, a.newCount + b.newCount, a.reLeakedCount + b.reLeakedCount,
                  a.newIds + b.newIds)
  }

  lemma {:induction false} SummariesJoin(a: seq<Outcome>, b: seq<Outcome>)
    ensures Summarize(a + b) == Joined(Summarize(a), Summarize(b))
  {
    CountsAdd(a, b);
    hide NewIds, ReLeakedCount;
    assert Rows(a + b) == Rows(a) + Rows(b);
  }

  /**
   One batch `xs + ys` is the batch `xs` followed by the batch `ys`: the same states, and a summary that is the two
   summaries one after the other.
   */
  lemma {:induction false} IngestSplits(tr: seq<State>, xs: seq<Draft>, ys: seq<Draft>, actor: Option<Id>, at: int,
                                        outs: seq<Outcome>)
    requires |tr| == |xs| + |ys| + 1 && |outs| == |xs| + |ys|
    ensures IngestTrace(tr, xs + ys, actor, at, outs) <==>
            && IngestTrace(tr[..|xs| + 1], xs, actor, at, outs[..|xs|])
            && IngestTrace(tr[|xs|..], ys, actor, at, outs[|xs|..])
    ensures Summarize(outs) == Joined(Summarize(outs[..|xs|]), Summarize(outs[|xs|..]))
  {
    var n, first, second := |xs|, tr[..|xs| + 1], tr[|xs|..];
    assert outs == outs[..n] + outs[n..];
    SummariesJoin(outs[..n], outs[n..]);
    hide Summarize, IngestStep, NewCount, ReLeakedCount;
    if IngestTrace(first, xs, actor, at, outs[..n]) && IngestTrace(second, ys, actor, at, outs[n..]) {
      forall i | 0 <= i < |xs + ys|
        ensures IngestStep(tr[i], (xs + ys)[i], actor, at, outs[i], tr[i + 1])
      {
        if i < n {
          assert IngestStep(first[i], xs[i], actor, at, outs[..n][i], first[i + 1]);
        } else {
          assert IngestStep(second[i - n], ys[i - n], actor, at, outs[n..][i - n], second[i - n + 1]);
        }
      }
    }
    if IngestTrace(tr, xs + ys, actor, at, outs) {
      forall i | 0 <= i < n
        ensures IngestStep(first[i], xs[i], actor, at, outs[..n][i], first[i + 1])
      {
        assert IngestStep(tr[i], (xs + ys)[i], actor, at, outs[i], tr[i + 1]);
      }
      forall j | 0 <= j < |ys|
        ensures IngestStep(second[j], ys[j], actor, at, outs[n..][j], second[j + 1])
      {
        assert IngestStep(tr[n + j], (xs + ys)[n + j], actor, at, outs[n + j], tr[n + j + 1]);
      }
    }
  }

  // ---------- Repeating ----------

  lemma SeenOneMore(f: Finding, ds: seq<Draft>, d: Draft, at: int)
    ensures var before := SeenAgain(f, ds, at);
            SeenAgain(f, ds + [d], at) == if f.fingerprint == d.fingerprint then Refreshed(before, d, at) else before
  {
    assert (ds + [d])[..|ds|] == ds;
  }

  lemma SourcesReseen(sources: map<Source, SourceFlags>, ds: seq<Draft>, d: Draft)
    ensures (sources + LatestFlags(ds))[d.source := d.flags] == sources + LatestFlags(ds + [d])
  {
    assert (ds + [d])[..|ds|] == ds;
  }

  lemma RowReseen(s: State, ds: seq<Draft>, at: int, s1: State, d: Draft, o: Outcome, s2: State, id: Id)
    requires Reseen(s, ds, at, s1) && Effect(s1, d, at, o, s2) && !o.isNew && id in s.findings
    ensures id in s2.findings && s2.findings[id] == SeenAgain(s.findings[id], ds + [d], at)
  {
    SeenOneMore(s.findings[id], ds, d, at);
    hide SeenAgain, Refreshed, Fingerprints, LatestFlags;
    assert s1.findings[id] == SeenAgain(s.findings[id], ds, at);
    assert s1.findings[id].fingerprint == d.fingerprint ==> id == o.finding;
  }

  lemma ReseenOneMore(s: State, ds: seq<Draft>, at: int, s1: State, d: Draft, o: Outcome, s2: State)
    requires Reseen(s, ds, at, s1) && Effect(s1, d, at, o, s2) && !o.isNew
    ensures Reseen(s, ds + [d], at, s2)
  {
    SourcesReseen(s.sources, ds, d);
    forall id | id in s.findings
      ensures s2.findings[id] == SeenAgain(s.findings[id], ds + [d], at)
    {
      RowReseen(s, ds, at, s1, d, o, s2, id);
      hide *;
    }
    hide SeenAgain, Refreshed, Fingerprints, LatestFlags;
  }

  lemma {:induction false} NothingCounted(outs: seq<Outcome>, i: nat)
    requires NewCount(outs) == 0 && i < |outs|
    ensures !outs[i].isNew
  {
    if i < |outs| - 1 {
      NothingCounted(outs[..|outs| - 1], i);
    }
  }

  lemma {:induction false} EffectsOnlyRefresh(tr: seq<State>, ds: seq<Draft>, at: int, outs: seq<Outcome>)
    requires Effects(tr, ds, at, outs) && forall i :: 0 <= i < |outs| ==> !outs[i].isNew
    ensures Reseen(tr[0], ds, at, tr[|ds|])
  {
    var n := |ds| - 1;
    if n >= 0 {
      EffectsPrefix(tr, ds, at, outs, n);
      EffectsOnlyRefresh(tr[..n + 1], ds[..n], at, outs[..n]);
      ReseenOneMore(tr[0], ds[..n], at, tr[n], ds[n], outs[n], tr[n + 1]);
      assert ds == ds[..n] + [ds[n]];
    }
  }

  /** Re-ingesting stored records adds no row, event or link. */
  lemma ReingestOnlyRefreshes(tr: seq<State>, ds: seq<Draft>, actor: Option<Id>, at: int, outs: seq<Outcome>)
    requires IngestTrace(tr, ds, actor, at, outs) && Inv(tr[0]) && Mentioned(ds) <= Fingerprints(tr[0])
    ensures Reseen(tr[0], ds, at, tr[|ds|])
    ensures NewCount(outs) == 0 && forall i :: 0 <= i < |outs| ==> !outs[i].isNew && outs[i].previous.None?
  {
    TraceEffects(tr, ds, actor, at, outs);
    EffectsCountUnseen(tr, ds, at, outs);
    assert Mentioned(ds) - Fingerprints(tr[0]) == {};
    forall i | 0 <= i < |outs|
      ensures !outs[i].isNew && outs[i].previous.None?
    {
      NothingCounted(outs, i);
      assert Effect(tr[i], ds[i], at, outs[i], tr[i + 1]);
    }
    EffectsOnlyRefresh(tr, ds, at, outs);
  }

  /** After a batch, every row it mentions shows its latest record and the time of the batch. */
  lemma {:induction false} EffectsRecordTheLatest(tr: seq<State>, ds: seq<Draft>, at: int, outs: seq<Outcome>)
    requires Effects(tr, ds, at, outs)
    ensures tr[|ds|].sources == tr[0].sources + LatestFlags(ds)
    ensures forall id :: id in tr[|ds|].findings ==>
              SeenAgain(tr[|ds|].findings[id], ds, at) == tr[|ds|].findings[id]
  {
    var n := |ds| - 1;
    if n >= 0 {
      EffectsRecordTheLatest(tr[..n + 1], ds[..n], at, outs[..n]);
      var s, s', d := tr[n], tr[n + 1], ds[n];
      assert Effect(s, d, at, outs[n], s');
      assert s'.sources == tr[0].sources + LatestFlags(ds);
      forall id | id in s'.findings
        ensures SeenAgain(s'.findings[id], ds, at) == s'.findings[id]
      {
        if id != outs[n].finding {
          assert s'.findings[id].fingerprint != d.fingerprint;
          assert SeenAgain(s.findings[id], ds[..n], at) == s.findings[id];
        }
      }
    }
  }

  /** `s` already shows the latest record of everything `ds` mentions. */
  ghost predicate UpToDate(s: State, ds: seq<Draft>, at: int) {
    && s.sources + LatestFlags(ds) == s.sources
    && forall id :: id in s.findings ==> SeenAgain(s.findings[id], ds, at) == s.findings[id]
  }

  lemma UpToDateIsFixed(s: State, ds: seq<Draft>, at: int, s': State)
    requires Reseen(s, ds, at, s') && UpToDate(s, ds, at)
    ensures s' == s
  {
    assert s'.findings == s.findings;
  }

  lemma BatchIsUpToDate(tr: seq<State>, ds: seq<Draft>, actor: Option<Id>, at: int, outs: seq<Outcome>)
    requires IngestTrace(tr, ds, actor, at, outs) && Inv(tr[0])
    ensures UpToDate(tr[|ds|], ds, at) && Inv(tr[|ds|])
  {
    TraceEffects(tr, ds, actor, at, outs);
    EffectsRecordTheLatest(tr, ds, at, outs);
    TraceKeepsInv(tr, ds, actor, at, outs, |ds|);
  }

  /** Repeating a batch at once, in the same transaction time, changes nothing at all. */
  lemma ImmediateReingestChangesNothing(tr: seq<State>, tr': seq<State>, ds: seq<Draft>, actor: Option<Id>, at: int,
                                        outs: seq<Outcome>, outs': seq<Outcome>)
    requires IngestTrace(tr, ds, actor, at, outs) && IngestTrace(tr', ds, actor, at, outs')
    requires Inv(tr[0]) && tr'[0] == tr[|ds|]
    ensures tr'[|ds|] == tr'[0]
  {
    BatchAddsItsFingerprints(tr, ds, actor, at, outs);
    BatchIsUpToDate(tr, ds, actor, at, outs);
    ReingestOnlyRefreshes(tr', ds, actor, at, outs');
    UpToDateIsFixed(tr'[0], ds, at, tr'[|ds|]);
  }

  // ---------- Repeating after analysts have worked on the findings ----------

  lemma StepKeepsFingerprints(s: State, step: Step, s': State)
    requires Inv(s) && Next(s, step, s') && !step.PurgeSome?
    ensures Fingerprints(s) <= Fingerprints(s')
  {
    if step.IngestOne? {
      hide IngestStep, Effect, Fingerprints;
      var o :| IngestStep(s, step.draft, step.actor, step.at, o, s');
      StepEffect(s, step.draft, step.actor, step.at, o, s');
      EffectFingerprints(s, step.draft, step.at, o, s');
    } else {
      forall x | x in Fingerprints(s)
        ensures x in Fingerprints(s')
      {
        var id :| id in s.findings && s.findings[id].fingerprint == x;
        assert s'.findings[id].fingerprint == x;
      }
    }
  }

  /** `steps` lead from `mid[0]` through `mid`, and none of them is a purge. */
  ghost predicate Worked(mid: seq<State>, steps: seq<Step>) {
    && |mid| == |steps| + 1
    && forall i :: 0 <= i < |steps| ==> Next(mid[i], steps[i], mid[i + 1]) && !steps[i].PurgeSome?
  }

  lemma {:induction false} WorkKeepsFingerprints(mid: seq<State>, steps: seq<Step>, i: nat)
    requires Worked(mid, steps) && Inv(mid[0]) && i <= |steps|
    ensures Inv(mid[i]) && Fingerprints(mid[0]) <= Fingerprints(mid[i])
  {
    if i > 0 {
      WorkKeepsFingerprints(mid, steps, i - 1);
      StepKeepsInv(mid[i - 1], steps[i - 1], mid[i]);
      StepKeepsFingerprints(mid[i - 1], steps[i - 1], mid[i]);
    }
  }

  lemma {:induction false} LatestWhenMentioned(ds: seq<Draft>, fingerprint: Digest)
    ensures Latest(ds, fingerprint).Some? <==> fingerprint in Mentioned(ds)
  {
    if ds != [] {
      var n := |ds| - 1;
      LatestWhenMentioned(ds[..n], fingerprint);
      MentionedLast(ds);
    }
  }

  /** The two states differ only in the sighting columns of the rows with these fingerprints. */
  ghost predicate OnlySightingsDiffer(s: State, fingerprints: set<Digest>, at: int, s': State) {
    && s'.events == s.events && s'.next == s.next && s'.findings.Keys == s.findings.Keys
    && forall id :: id in s.findings ==>
         if s.findings[id].fingerprint in fingerprints
         then s'.findings[id] == s.findings[id].(lastSeen := at, sighting := s'.findings[id].sighting)
         else s'.findings[id] == s.findings[id]
  }

  lemma ReseenChangesSightingsOnly(s: State, ds: seq<Draft>, at: int, s': State)
    requires Reseen(s, ds, at, s')
    ensures OnlySightingsDiffer(s, Mentioned(ds), at, s')
  {
    forall id | id in s.findings
      ensures Latest(ds, s.findings[id].fingerprint).Some? <==> s.findings[id].fingerprint in Mentioned(ds)
    {
      LatestWhenMentioned(ds, s.findings[id].fingerprint);
    }
  }

  /**
   A batch is ingested, then remediations, reopenings, views and further ingests happen in any order,
   then the same batch is ingested again: no row, event or link is added, no closing is undone, and
   exactly the rows it mentions differ, and only in when and how they were last seen.
   */
  lemma ReingestAfterWork(tr: seq<State>, mid: seq<State>, tr': seq<State>, ds: seq<Draft>, steps: seq<Step>,
                          actor: Option<Id>, at: int, outs: seq<Outcome>, actor': Option<Id>, at': int,
                          outs': seq<Outcome>)
    requires IngestTrace(tr, ds, actor, at, outs) && Inv(tr[0])
    requires Worked(mid, steps) && mid[0] == tr[|ds|]
    requires IngestTrace(tr', ds, actor', at', outs') && tr'[0] == mid[|steps|]
    ensures NewCount(outs') == 0 && OnlySightingsDiffer(tr'[0], Mentioned(ds), at', tr'[|ds|])
  {
    BatchAddsItsFingerprints(tr, ds, actor, at, outs);
    TraceKeepsInv(tr, ds, actor, at, outs, |ds|);
    WorkKeepsFingerprints(mid, steps, |steps|);
    ReingestOnlyRefreshes(tr', ds, actor', at', outs');
    ReseenChangesSightingsOnly(tr'[0], ds, at', tr'[|ds|]);
  }
}
