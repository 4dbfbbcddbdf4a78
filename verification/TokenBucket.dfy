/**
 The pacing token bucket with capacity one, polled by any number of tasks on a monotone clock.
 Times and tokens are exact reals.
 */
module TokenBucket {
  import opened Numbers
  import opened Wrappers

  datatype State = State(rate: real, tokens: real, updatedAt: Option<real>)

  function Fresh(rate: real): State {
    State(rate, 1.0, None)
  }

  /** The tokens that flow in during a stretch of time. */
  function Earned(span: real, rate: real): real {
    span * rate
  }

  function Refilled(b: State, now: real): State {
    match b.updatedAt
    case None => b.(updatedAt := Some(now))
    case Some(last) => b.(tokens := Min(1.0, b.tokens + Earned(Max(0.0, now - last), b.rate)), updatedAt := Some(now))
  }

  predicate Grants(b: State, now: real) {
    Refilled(b, now).tokens >= 1.0
  }

  /** One pass through the lock: a grant takes a token. */
  function Polled(b: State, now: real): State {
    var r := Refilled(b, now);
    if r.tokens >= 1.0 then r.(tokens := r.tokens - 1.0) else r
  }

  /** How long a refused task sleeps before it polls again. */
  function Delay(b: State, now: real): real
    requires b.rate != 0.0
  {
    (1.0 - Refilled(b, now).tokens) / b.rate
  }

  // ---------- The invariant ----------

  /** A whole token flows in between consecutive grants. */
  ghost predicate Spaced(rate: real, grants: seq<real>) {
    forall i :: 0 <= i < |grants| - 1 ==> Earned(grants[i + 1] - grants[i], rate) >= 1.0
  }

  /** The tokens are what has flowed in since the last grant, however often the refill was taken in parts. */
  ghost predicate Inv(b: State, grants: seq<real>, clock: real) {
    && b.rate >= 1.0 && Spaced(b.rate, grants)
    && if grants == [] then b.tokens == 1.0 && b.updatedAt.None?
       else
         && b.updatedAt.Some? && grants[|grants| - 1] <= b.updatedAt.value <= clock
         && b.tokens == Min(1.0, Earned(b.updatedAt.value - grants[|grants| - 1], b.rate))
  }

  lemma EarnedLaws(x: real, y: real, rate: real)
    requires rate > 0.0
    ensures Earned(x, rate) + Earned(y, rate) == Earned(x + y, rate)
    ensures Earned(0.0, rate) == 0.0
    ensures x < y <==> Earned(x, rate) < Earned(y, rate)
    ensures Earned(1.0 / rate, rate) == 1.0
  {
    assert (y - x) * rate == Earned(y, rate) - Earned(x, rate);
  }

  lemma RefillInParts(b: State, grants: seq<real>, clock: real, now: real)
    requires Inv(b, grants, clock) && grants != [] && clock <= now
    ensures Refilled(b, now).tokens == Min(1.0, Earned(now - grants[|grants| - 1], b.rate)) >= 0.0
  {
    hide Earned;
    var last, u := grants[|grants| - 1], b.updatedAt.value;
    EarnedLaws(now - u, u - last, b.rate);
    EarnedLaws(0.0, now - u, b.rate);
    EarnedLaws(now - last, 0.0, b.rate);
    EarnedLaws(now - u, 0.0, b.rate);
  }

  lemma PollKeepsInv(b: State, grants: seq<real>, clock: real, now: real)
    requires Inv(b, grants, clock) && (grants != [] ==> clock <= now)
    ensures Inv(Polled(b, now), if Grants(b, now) then grants + [now] else grants, now)
    ensures 0.0 <= Polled(b, now).tokens <= 1.0
  {
    hide Earned;
    EarnedLaws(0.0, 0.0, b.rate);
    var grants' := grants + [now];
    if grants != [] {
      RefillInParts(b, grants, clock, now);
      assert forall i :: 0 <= i < |grants| ==> grants'[i] == grants[i];
    }
  }

  // ---------- Every run ----------

  /** The times of the polls that were granted. */
  function GrantTimes(rate: real, polls: seq<real>): seq<real> {
    if polls == [] then []
    else
      var rest, now := polls[..|polls| - 1], polls[|polls| - 1];
      GrantTimes(rate, rest) + if Grants(After(rate, rest), now) then [now] else []
  }

  function After(rate: real, polls: seq<real>): State {
    if polls == [] then Fresh(rate) else Polled(After(rate, polls[..|polls| - 1]), polls[|polls| - 1])
  }

  predicate Monotone(polls: seq<real>) {
    forall i, j :: 0 <= i < j < |polls| ==> polls[i] <= polls[j]
  }

  lemma {:induction false} RunKeepsInv(rate: real, polls: seq<real>, clock: real)
    requires rate >= 1.0 && Monotone(polls) && forall i :: 0 <= i < |polls| ==> polls[i] <= clock
    ensures Inv(After(rate, polls), GrantTimes(rate, polls), clock)
    ensures 0.0 <= After(rate, polls).tokens <= 1.0
  {
    if polls != [] {
      var rest, now := polls[..|polls| - 1], polls[|polls| - 1];
      RunKeepsInv(rate, rest, now);
      PollKeepsInv(After(rate, rest), GrantTimes(rate, rest), now, now);
      LaterClock(After(rate, polls), GrantTimes(rate, polls), now, clock) by {
        hide Inv, Polled, Grants;
        assert GrantTimes(rate, rest) + [] == GrantTimes(rate, rest);
      }
    }
  }

  lemma LaterClock(b: State, grants: seq<real>, clock: real, later: real)
    requires Inv(b, grants, clock) && clock <= later
    ensures Inv(b, grants, later)
  {
  }

  lemma {:induction false} SpacingAdds(rate: real, grants: seq<real>, i: nat, j: nat)
    requires rate >= 1.0 && Spaced(rate, grants) && i <= j < |grants|
    ensures Earned(grants[j] - grants[i], rate) >= (j - i) as real
    decreases j
  {
    hide Earned;
    EarnedLaws(0.0, 0.0, rate);
    if i < j {
      SpacingAdds(rate, grants, i, j - 1);
      assert Earned(grants[j - 1 + 1] - grants[j - 1], rate) >= 1.0;
      EarnedLaws(grants[j] - grants[j - 1], grants[j - 1] - grants[i], rate);
    }
  }

  /** A poll is granted exactly when it is the first, or a period has gone by since the last one that was granted. */
  lemma GrantedExactly(rate: real, polls: seq<real>, now: real)
    requires rate >= 1.0 && Monotone(polls) && forall i :: 0 <= i < |polls| ==> polls[i] <= now
    ensures var grants := GrantTimes(rate, polls);
            Grants(After(rate, polls), now) <==> grants == [] || now - grants[|grants| - 1] >= 1.0 / rate
  {
    var b, grants := After(rate, polls), GrantTimes(rate, polls);
    RunKeepsInv(rate, polls, now);
    RunKeepsRate(rate, polls);
    hide Earned, After, GrantTimes;
    if grants != [] {
      RefillInParts(b, grants, now, now);
      EarnedLaws(now - grants[|grants| - 1], 1.0 / rate, rate);
    }
  }

  /** A refused poll is told to wait exactly until a period has gone by since the last grant. */
  lemma DelayIsExact(rate: real, polls: seq<real>, now: real)
    requires rate >= 1.0 && Monotone(polls) && (forall i :: 0 <= i < |polls| ==> polls[i] <= now)
    requires !Grants(After(rate, polls), now)
    ensures After(rate, polls).rate == rate && GrantTimes(rate, polls) != []
    ensures var grants := GrantTimes(rate, polls);
            now + Delay(After(rate, polls), now) == grants[|grants| - 1] + 1.0 / rate
  {
    RunKeepsInv(rate, polls, now);
    RunKeepsRate(rate, polls);
    hide After, GrantTimes;
    RefusedHasGrants(After(rate, polls), GrantTimes(rate, polls), now);
    DelayReachesThePeriod(After(rate, polls), GrantTimes(rate, polls), now);
  }

  lemma RefusedHasGrants(b: State, grants: seq<real>, now: real)
    requires Inv(b, grants, now) && !Grants(b, now)
    ensures grants != []
  {
  }

  lemma DelayReachesThePeriod(b: State, grants: seq<real>, now: real)
    requires Inv(b, grants, now) && grants != [] && !Grants(b, now)
    ensures b.rate != 0.0 && now + Delay(b, now) == grants[|grants| - 1] + 1.0 / b.rate
  {
    RefillInParts(b, grants, now, now);
    hide Earned, Refilled, Spaced;
    WaitIsTheRest(now - grants[|grants| - 1], b.rate);
  }

  lemma WaitIsTheRest(since: real, rate: real)
    requires rate >= 1.0
    ensures (1.0 - Earned(since, rate)) / rate == 1.0 / rate - since
  {
  }

  function Ceil(x: real): int {
    -(-x).Floor
  }

  ghost function LastPoll(polls: seq<real>): (clock: real)
    requires Monotone(polls)
    ensures forall i :: 0 <= i < |polls| ==> polls[i] <= clock
  {
    if polls == [] then 0.0 else polls[|polls| - 1]
  }

  lemma RunIsSpaced(rate: real, polls: seq<real>)
    requires rate >= 1.0 && Monotone(polls)
    ensures Spaced(rate, GrantTimes(rate, polls))
  {
    RunKeepsInv(rate, polls, LastPoll(polls));
    InvIsSpaced(rate, After(rate, polls), GrantTimes(rate, polls), LastPoll(polls)) by {
      hide *;
      RunKeepsRate(rate, polls);
    }
  }

  lemma {:induction false} RunKeepsRate(rate: real, polls: seq<real>)
    ensures After(rate, polls).rate == rate
  {
    if polls != [] {
      RunKeepsRate(rate, polls[..|polls| - 1]);
    }
  }

  lemma InvIsSpaced(rate: real, b: State, grants: seq<real>, clock: real)
    requires Inv(b, grants, clock) && b.rate == rate
    ensures Spaced(rate, grants)
  {
  }

  lemma SpacedGrantsAreBounded(rate: real, grants: seq<real>, span: real, i: nat, j: nat)
    requires rate >= 1.0 && Spaced(rate, grants) && i <= j < |grants| && grants[j] - grants[i] < span
    ensures j - i + 1 <= Ceil(span * rate)
  {
    SpacingAdds(rate, grants, i, j);
    EarnedLaws(grants[j] - grants[i], span, rate);
    assert Earned(span, rate) == span * rate;
  }

  lemma SpacedGap(rate: real, grants: seq<real>, i: nat)
    requires rate >= 1.0 && Spaced(rate, grants) && i + 1 < |grants|
    ensures grants[i + 1] - grants[i] >= 1.0 / rate
  {
    hide Earned;
    EarnedLaws(grants[i + 1] - grants[i], 1.0 / rate, rate);
  }

  /**
   However many tasks poll, in whatever order: a half-open interval of length `span` holds at most
   `ceil(span * rate)` grants.
   */
  lemma GrantsAreBounded(rate: real, polls: seq<real>, from: real, span: real, i: nat, j: nat)
    requires rate >= 1.0 && Monotone(polls) && i <= j < |GrantTimes(rate, polls)|
    requires from <= GrantTimes(rate, polls)[i] && GrantTimes(rate, polls)[j] < from + span
    ensures j - i + 1 <= Ceil(span * rate)
  {
    hide *;
    RunIsSpaced(rate, polls);
    SpacedGrantsAreBounded(rate, GrantTimes(rate, polls), span, i, j);
  }

  /** Consecutive grants are at least `1 / rate` apart. */
  lemma GrantsAreSpaced(rate: real, polls: seq<real>, i: nat)
    requires rate >= 1.0 && Monotone(polls) && i + 1 < |GrantTimes(rate, polls)|
    ensures GrantTimes(rate, polls)[i + 1] - GrantTimes(rate, polls)[i] >= 1.0 / rate
  {
    hide *;
    RunIsSpaced(rate, polls);
    SpacedGap(rate, GrantTimes(rate, polls), i);
  }

  /** A refused task that polls again after its delay, with no poll in between, is granted. */
  lemma OneSleepSuffices(b: State, now: real, late: real)
    requires b.rate >= 1.0 && !Grants(b, now) && Refilled(b, now).tokens >= 0.0 && late >= 0.0
    ensures Delay(b, now) > 0.0 && Grants(Polled(b, now), now + Delay(b, now) + late)
  {
    var missing, wait := 1.0 - Refilled(b, now).tokens, Delay(b, now);
    assert Earned(wait, b.rate) == missing;
    hide Earned;
    EarnedLaws(0.0, wait, b.rate);
    EarnedLaws(wait + late, wait, b.rate);
  }

  // ---------- The program ----------

  class Bucket {
    const rate: real
    var tokens: real
    var updatedAt: Option<real>

    function Value(): State
      reads this
    {
      State(rate, tokens, updatedAt)
    }

    constructor (rate: real)
      requires rate >= 1.0
      ensures Value() == Fresh(rate)
    {
      this.rate := rate;
      tokens, updatedAt := 1.0, None;
    }

    method Poll(now: real) returns (granted: bool, delay: real)
      requires rate >= 1.0
      modifies this
      ensures Value() == Polled(old(Value()), now) && granted == Grants(old(Value()), now)
      ensures !granted ==> delay == Delay(old(Value()), now)
    {
      if updatedAt.None? {
        updatedAt := Some(now);
      } else {
        var elapsed := Max(0.0, now - updatedAt.value);
        tokens := Min(1.0, tokens + Earned(elapsed, rate));
        updatedAt := Some(now);
      }
      if tokens >= 1.0 {
        tokens := tokens - 1.0;
        return true, 0.0;
      }
      delay := (1.0 - tokens) / rate;
      granted := false;
    }

    /** `acquire` by the only waiting task; `late` is how much longer than asked its sleeps take. */
    method Acquire(start: real, late: real, ghost grants: seq<real>, ghost clock: real) returns (at: real, sleeps: nat)
      requires Inv(Value(), grants, clock) && (grants != [] ==> clock <= start) && late >= 0.0
      modifies this
      ensures Inv(Value(), grants + [at], at) && start <= at && sleeps <= 1
      ensures sleeps == 0 <==> Grants(old(Value()), start)
      ensures sleeps == 1 ==> at == start + Delay(old(Value()), start) + late
    {
      at, sleeps := start, 0;
      while true
        invariant sleeps <= 1 && start <= at
        invariant sleeps == 0 ==> Value() == old(Value()) && at == start
        invariant sleeps == 1 ==>
                    && !Grants(old(Value()), start) && Value() == Polled(old(Value()), start)
                    && at == start + Delay(old(Value()), start) + late && Grants(Value(), at)
        decreases 1 - sleeps
      {
        ghost var before := Value();
        var granted, delay := Poll(at);
        PollKeepsInv(old(Value()), grants, clock, start);
        if granted {
          if sleeps == 1 {
            PollKeepsInv(before, grants, start, at);
          }
          return;
        }
        OneSleepSuffices(before, at, late);
        at, sleeps := at + delay + late, sleeps + 1;
      }
    }
  }
}
