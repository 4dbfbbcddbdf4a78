/**
 The event trail of a finding, read back as a story.  `Replay` folds a trail into the row it
 describes and is `Broken` as soon as two events cannot follow each other, so a ledger whose rows
 agree with their replayed trails has a faithful log.
 */
module LedgerHistory {
  import opened Wrappers
  import opened FindingLedger

  datatype Life =
    | Unborn
    | Live(previous: Option<Id>, cycles: nat, closedAt: Option<int>, closedBy: Option<Id>)
    | Broken

  function Advance(l: Life, e: Event): Life {
    match e.kind
    case Discovered => if l.Unborn? then Live(None, 0, None, None) else Broken
    case ReLeaked(p) =>
      if l.Live? && l.previous.None? && l.cycles == 0 then l.(previous := Some(p)) else Broken
    case Remediated =>
      if l.Live? && l.closedAt.None? then l.(cycles := l.cycles + 1, closedAt := Some(e.at), closedBy := e.actor)
        else Broken
    case Unremediated =>
      if l.Live? && l.closedAt.Some? then l.(closedAt := None, closedBy := None) else Broken
    case PasswordViewed => if l.Live? then l else Broken
  }

  function Replay(trail: seq<Event>): Life {
    if trail == [] then Unborn else Advance(Replay(trail[..|trail| - 1]), trail[|trail| - 1])
  }

  /** The events of one finding, in order. */
  function Trail(events: seq<Event>, id: Id): seq<Event> {
    if events == [] then []
    else
      var last := events[|events| - 1];
      Trail(events[..|events| - 1], id) + if last.finding == id then [last] else []
  }

  function LifeOf(s: State, id: Id): Life {
    Replay(Trail(s.events, id))
  }

  lemma LifeAfterEvent(s: State, e: Event, id: Id)
    ensures LifeOf(Logged(s, e), id) == if e.finding == id then Advance(LifeOf(s, id), e) else LifeOf(s, id)
    ensures Trail(Logged(s, e).events, id) == Trail(s.events, id) + if e.finding == id then [e] else []
  {
    assert (s.events + [e])[..|s.events|] == s.events;
    var t := Trail(s.events, id);
    assert (t + [e])[..|t|] == t && t + [] == t;
  }

  lemma {:induction false} TrailAfterPurge(events: seq<Event>, ids: set<Id>, id: Id)
    ensures Trail(WithoutEvents(events, ids), id) == if id in ids then [] else Trail(events, id)
  {
    if events != [] {
      var rest, last := events[..|events| - 1], events[|events| - 1];
      TrailAfterPurge(rest, ids, id);
      var kept := WithoutEvents(rest, ids);
      if last.finding !in ids {
        assert (kept + [last])[..|kept|] == kept;
      } else {
        assert kept + [] == kept;
      }
    }
  }

  // ---------- What a trail that replays says about its events ----------

  function Count(trail: seq<Event>, keep: Event -> bool): nat {
    |Keep(trail, keep)|
  }

  function Keep(trail: seq<Event>, keep: Event -> bool): seq<Event> {
    if trail == [] then []
    else
      var last := trail[|trail| - 1];
      Keep(trail[..|trail| - 1], keep) + if keep(last) then [last] else []
  }

  predicate IsDiscovery(e: Event) {
    e.kind.Discovered?
  }

  predicate IsReLeak(e: Event) {
    e.kind.ReLeaked?
  }

  predicate IsClosing(e: Event) {
    e.kind.Remediated? || e.kind.Unremediated?
  }

  /** Remediated, Unremediated, Remediated, ... */
  predicate Alternates(changes: seq<Event>) {
    forall i :: 0 <= i < |changes| ==> if i % 2 == 0 then changes[i].kind.Remediated? else changes[i].kind.Unremediated?
  }

  /** A trail that replays starts with its only discovery, and re-leaks at most once. */
  lemma {:induction false} OneDiscovery(trail: seq<Event>)
    requires Replay(trail).Live?
    ensures trail != [] && trail[0].kind.Discovered? && Count(trail, IsDiscovery) == 1
    ensures Keep(trail, IsReLeak) == [] <==> Replay(trail).previous.None?
    ensures Replay(trail).previous.Some? ==>
              Count(trail, IsReLeak) == 1 && Keep(trail, IsReLeak)[0].kind == ReLeaked(Replay(trail).previous.value)
  {
    var rest, last := trail[..|trail| - 1], trail[|trail| - 1];
    if Replay(rest).Unborn? {
      assert rest == [] && Keep(rest, IsDiscovery) == [] && Keep(rest, IsReLeak) == [];
    } else {
      OneDiscovery(rest);
    }
  }

  /** Its closings and reopenings alternate, and the last of them says whether it is closed, by whom and when. */
  lemma {:induction false} ClosingsAlternate(trail: seq<Event>)
    requires Replay(trail).Live?
    ensures Alternates(Keep(trail, IsClosing))
    ensures Replay(trail).closedAt.Some? <==> Count(trail, IsClosing) % 2 == 1
    ensures Replay(trail).closedAt.Some? ==>
              var final := Keep(trail, IsClosing)[Count(trail, IsClosing) - 1];
              final.at == Replay(trail).closedAt.value && final.actor == Replay(trail).closedBy
  {
    var rest, last := trail[..|trail| - 1], trail[|trail| - 1];
    if Replay(rest).Unborn? {
      assert rest == [] && Keep(rest, IsClosing) == [];
    } else {
      ClosingsAlternate(rest);
    }
  }

  lemma {:induction false} ReplayBornUnlessEmpty(trail: seq<Event>)
    ensures Replay(trail).Unborn? <==> trail == []
  {
  }
}
