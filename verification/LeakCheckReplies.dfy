/** What each reply of the breach search does, by its status: to the request it answers and to the circuit. */
module LeakCheckReplies {
  import opened Numbers
  import opened Wrappers
  import opened LeakCheckClient

  /** No answer, too many requests, or an error of the server. */
  predicate IsFailure<T>(reply: Reply<T>) {
    reply.NetworkError? || (reply.Answer? && (reply.status == 429 || reply.status >= 500))
  }

  /** An answer that is final, whatever it says. */
  predicate IsFinal<T>(reply: Reply<T>) {
    reply.Answer? && reply.status != 429 && reply.status < 500
  }

  // ---------- Requests ----------

  /**
   A request stops at an attempt exactly when every earlier one was sent and failed, and this one was refused, did not
   fail, or was the last allowed.
   */
  lemma RequestStopsExactly<T>(cfg: Config, c: Circuit, script: seq<Exchange<T>>, k: nat)
    requires k < |script|
    ensures StopsAt(cfg, c, script, k) <==>
            && (forall i :: 0 <= i < k ==> Sent(cfg, c, script, i) && IsFailure(script[i].reply))
            && (!Sent(cfg, c, script, k) || !IsFailure(script[k].reply) || k == |script| - 1)
  {
    hide Sent;
  }

  /** What the request then ends in is decided by that attempt. */
  lemma OutcomesExactly<T>(cfg: Config, c: Circuit, script: seq<Exchange<T>>, k: nat)
    requires k < |script|
    ensures var end, sent, reply := EndOf(cfg, c, script, k), Sent(cfg, c, script, k), script[k].reply;
            && (end == Failed(Unavailable) <==> !sent || IsFailure(reply))
            && (end == Failed(EscapedError) <==> sent && reply.Escaped?)
            && (end == Failed(Configuration) <==> sent && reply.Answer? && reply.status == 401)
            && (end.Success? <==> sent && reply.Answer? && reply.status == 200 && reply.page.Some?)
            && (end.Success? ==> end.page == reply.page.value)
            && (end == Failed(Protocol) <==>
                 sent && IsFinal(reply) && reply.status != 401 && (reply.status == 200 ==> reply.page.None?))
  {
    hide Sent;
  }

  // ---------- The circuit ----------

  /** The circuit is open, and its reset time has not gone by. */
  predicate IsRefused(cfg: Config, c: Circuit, now: real) {
    c.openedAt.Some? && now - c.openedAt.value < cfg.resetSeconds
  }

  /**
   One exchange: a refused one changes nothing; a failure adds one to the failures since the last reset, and opens the
   circuit when they reach the threshold; a final answer closes it; an error while reading is not counted.
   */
  lemma ExchangeCounts<T>(cfg: Config, c: Circuit, xs: seq<Exchange<T>>, k: nat)
    requires k < |xs|
    ensures var before, after, x := After(cfg, c, xs[..k]), After(cfg, c, xs[..k + 1]), xs[k];
            var counted: nat := if before.openedAt.Some? then 0 else before.failures;
            && (Sent(cfg, c, xs, k) <==> !IsRefused(cfg, before, x.checkAt))
            && (IsRefused(cfg, before, x.checkAt) ==> after == before)
            && (!IsRefused(cfg, before, x.checkAt) && IsFailure(x.reply) ==>
                  after == Circuit(counted + 1, if counted + 1 >= cfg.threshold then Some(x.doneAt) else None))
            && (!IsRefused(cfg, before, x.checkAt) && IsFinal(x.reply) ==> after == Circuit(0, None))
            && (!IsRefused(cfg, before, x.checkAt) && x.reply.Escaped? ==> after == Circuit(counted, None))
  {
    AfterOne(cfg, c, xs, k);
    hide After;
  }

  /** Attempt `f` failed and reached the threshold, and none was sent between it and `k`. */
  predicate IsLastFailure<T>(cfg: Config, xs: seq<Exchange<T>>, f: nat, k: nat)
    requires f < k < |xs|
  {
    && Sent(cfg, CLOSED, xs, f) && IsFailure(xs[f].reply) && After(cfg, CLOSED, xs[..f + 1]).failures >= Limit(cfg)
    && forall g :: f < g < k ==> !Sent(cfg, CLOSED, xs, g)
  }

  lemma {:induction false} NothingSentNothingChanged<T>(cfg: Config, xs: seq<Exchange<T>>, i: nat, k: nat)
    requires i <= k <= |xs| && forall g :: i <= g < k ==> !Sent(cfg, CLOSED, xs, g)
    ensures After(cfg, CLOSED, xs[..k]) == After(cfg, CLOSED, xs[..i])
    decreases k
  {
    hide After;
    if i < k {
      NothingSentNothingChanged(cfg, xs, i, k - 1);
      AfterOne(cfg, CLOSED, xs, k - 1);
      assert !Sent(cfg, CLOSED, xs, k - 1);
    }
  }

  /**
   An attempt is refused exactly when the last one sent before it failed, reached the threshold, and ended less than the
   reset time ago: so after the reset time the next attempt is always made.
   */
  lemma RefusedExactly<T>(cfg: Config, xs: seq<Exchange<T>>, k: nat)
    requires k < |xs|
    ensures !Sent(cfg, CLOSED, xs, k) <==>
            exists f :: 0 <= f < k && IsLastFailure(cfg, xs, f, k) && xs[k].checkAt - xs[f].doneAt < cfg.resetSeconds
  {
    if After(cfg, CLOSED, xs[..k]).openedAt.Some? {
      OpenedByTheLastFailure(cfg, xs, k);
      var f: nat :| f < k && OpenedBy(cfg, xs, f, k);
      OpeningIsLastFailure(cfg, xs, f, k);
    }
    hide After;
    forall f: nat | f < k && IsLastFailure(cfg, xs, f, k)
      ensures After(cfg, CLOSED, xs[..k]).openedAt == Some(xs[f].doneAt)
    {
      LastFailureOpens(cfg, xs, f, k);
    }
    OnlyOneLastFailure(cfg, xs, k);
  }

  lemma OpeningIsLastFailure<T>(cfg: Config, xs: seq<Exchange<T>>, f: nat, k: nat)
    requires f < k < |xs| && OpenedBy(cfg, xs, f, k)
    ensures IsLastFailure(cfg, xs, f, k)
  {
    NothingSentNothingChanged(cfg, xs, f + 1, k);
    OpenExactlyAtThreshold(cfg, xs[..f + 1]);
    hide After, Sent;
  }

  lemma LastFailureOpens<T>(cfg: Config, xs: seq<Exchange<T>>, f: nat, k: nat)
    requires f < k < |xs| && IsLastFailure(cfg, xs, f, k)
    ensures After(cfg, CLOSED, xs[..k]).openedAt == Some(xs[f].doneAt)
  {
    NothingSentNothingChanged(cfg, xs, f + 1, k);
    OpenExactlyAtThreshold(cfg, xs[..f + 1]);
    ExchangeCounts(cfg, CLOSED, xs, f);
    hide After;
  }

  lemma OnlyOneLastFailure<T>(cfg: Config, xs: seq<Exchange<T>>, k: nat)
    requires k < |xs|
    ensures forall f, g :: 0 <= f < k && 0 <= g < k && IsLastFailure(cfg, xs, f, k) && IsLastFailure(cfg, xs, g, k)
              ==> f == g
  {
    hide After, Sent, IsFailure;
  }
}
