/**
 The breach-search client: retries with backoff, the circuit breaker and the paged domain query.
 Requests are issued one at a time on a monotone clock; what the network does is a script of exchanges.
 */
module LeakCheckClient {
  import opened Numbers
  import opened Wrappers

  const PAGE_SIZE: nat := 1000
  const LONGEST_BACKOFF: nat := 8

  datatype Config = Config(maxRetries: nat, maxPages: nat, threshold: int, resetSeconds: real)

  datatype Circuit = Circuit(failures: nat, openedAt: Option<real>)

  datatype Page<T> = Page(records: seq<T>, quota: Option<nat>)

  /** What sending one request yields. `Escaped` is an error raised while reading the response. */
  datatype Reply<T> = NetworkError | Escaped | Answer(status: int, page: Option<Page<T>>)

  /** One attempt: when the circuit is consulted, when the reply is in, and the reply. */
  datatype Exchange<T> = Exchange(checkAt: real, doneAt: real, reply: Reply<T>)

  datatype Failure = Configuration | Protocol | Unavailable | EscapedError

  datatype Outcome<T> = Success(page: Page<T>) | Failed(failure: Failure)

  datatype Mark = Succeeded | Failing | Unmarked

  // ---------- The circuit breaker ----------

  predicate Retryable<T>(reply: Reply<T>) {
    reply.NetworkError? || (reply.Answer? && (reply.status == 429 || reply.status >= 500))
  }

  /** What a reply tells the circuit breaker. */
  function MarkOf<T>(reply: Reply<T>): Mark {
    if Retryable(reply) then Failing else if reply.Escaped? then Unmarked else Succeeded
  }

  function Verdict<T>(reply: Reply<T>): Outcome<T> {
    if Retryable(reply) then Failed(Unavailable)
    else if reply.Escaped? then Failed(EscapedError)
    else if reply.status == 401 then Failed(Configuration)
    else if reply.status == 400 || reply.status != 200 || reply.page.None? then Failed(Protocol)
    else Success(reply.page.value)
  }

  predicate Admits(cfg: Config, c: Circuit, now: real) {
    c.openedAt.Some? ==> now - c.openedAt.value >= cfg.resetSeconds
  }

  function Marked(cfg: Config, c: Circuit, mark: Mark, now: real): Circuit {
    match mark
    case Succeeded => Circuit(0, None)
    case Unmarked => c
    case Failing =>
      Circuit(c.failures + 1, if c.failures + 1 >= cfg.threshold then Some(now) else c.openedAt)
  }

  function Ensured(c: Circuit): Circuit {
    if c.openedAt.Some? then Circuit(0, None) else c
  }

  /** One attempt: refused by the open circuit, or sent and marked. */
  function Attempted<T>(cfg: Config, c: Circuit, x: Exchange<T>): Circuit {
    if Admits(cfg, c, x.checkAt) then Marked(cfg, Ensured(c), MarkOf(x.reply), x.doneAt) else c
  }

  function After<T>(cfg: Config, c: Circuit, xs: seq<Exchange<T>>): Circuit {
    if xs == [] then c else Attempted(cfg, After(cfg, c, xs[..|xs| - 1]), xs[|xs| - 1])
  }

  predicate Sent<T>(cfg: Config, c: Circuit, xs: seq<Exchange<T>>, k: nat)
    requires k < |xs|
  {
    Admits(cfg, After(cfg, c, xs[..k]), xs[k].checkAt)
  }

  lemma AfterOne<T>(cfg: Config, c: Circuit, xs: seq<Exchange<T>>, k: nat)
    requires k < |xs|
    ensures After(cfg, c, xs[..k + 1]) == Attempted(cfg, After(cfg, c, xs[..k]), xs[k])
  {
    assert xs[..k + 1][..k] == xs[..k];
  }

  lemma {:induction false} AfterSplit<T>(cfg: Config, c: Circuit, xs: seq<Exchange<T>>, ys: seq<Exchange<T>>)
    ensures After(cfg, c, xs + ys) == After(cfg, After(cfg, c, xs), ys)
  {
    if ys == [] {
      assert xs + ys == xs;
    } else {
      AfterSplit(cfg, c, xs, ys[..|ys| - 1]);
      assert (xs + ys)[..|xs + ys| - 1] == xs + ys[..|ys| - 1];
    }
  }

  const CLOSED := Circuit(0, None)

  /** A threshold below one acts as one: the first failure opens the circuit. */
  function Limit(cfg: Config): nat {
    if cfg.threshold < 1 then 1 else cfg.threshold
  }

  /** The circuit is open exactly when the failure count has reached the threshold. */
  lemma {:induction false} OpenExactlyAtThreshold<T>(cfg: Config, xs: seq<Exchange<T>>)
    ensures After(cfg, CLOSED, xs).openedAt.Some? <==> After(cfg, CLOSED, xs).failures >= Limit(cfg)
    ensures After(cfg, CLOSED, xs).failures <= Limit(cfg)
  {
    if xs != [] {
      OpenExactlyAtThreshold(cfg, xs[..|xs| - 1]);
    }
  }

  ghost predicate Timely<T>(xs: seq<Exchange<T>>) {
    && (forall i :: 0 <= i < |xs| ==> xs[i].checkAt <= xs[i].doneAt)
    && forall i, j :: 0 <= i < j < |xs| ==> xs[i].doneAt <= xs[j].checkAt
  }

  predicate FailedSend<T>(cfg: Config, xs: seq<Exchange<T>>, k: nat)
    requires k < |xs|
  {
    Sent(cfg, CLOSED, xs, k) && MarkOf(xs[k].reply).Failing?
  }

  predicate SucceededSend<T>(cfg: Config, xs: seq<Exchange<T>>, k: nat)
    requires k < |xs|
  {
    Sent(cfg, CLOSED, xs, k) && MarkOf(xs[k].reply).Succeeded?
  }

  function FailedSends<T>(cfg: Config, xs: seq<Exchange<T>>, i: nat, j: nat): nat
    requires i <= j <= |xs|
    decreases j
  {
    if i == j then 0 else FailedSends(cfg, xs, i, j - 1) + if FailedSend(cfg, xs, j - 1) then 1 else 0
  }

  /**
   Open and full agree in every run exactly for a threshold of at least one, which the constructor does not ask for.
   */
  lemma ThresholdMustBePositive<T(!new)>(cfg: Config)
    ensures (forall xs: seq<Exchange<T>> :: OpenWhenFull(cfg, xs)) <==> cfg.threshold >= 1
  {
    var none: seq<Exchange<T>> := [];
    assert OpenWhenFull(cfg, none) <==> cfg.threshold > 0;
    forall xs: seq<Exchange<T>> | cfg.threshold >= 1
      ensures OpenWhenFull(cfg, xs)
    {
      OpenExactlyAtThreshold(cfg, xs);
    }
  }

  /** The circuit is open exactly when the failures have reached the configured threshold as it stands. */
  predicate OpenWhenFull<T>(cfg: Config, xs: seq<Exchange<T>>) {
    After(cfg, CLOSED, xs).openedAt.Some? <==> After(cfg, CLOSED, xs).failures >= cfg.threshold
  }

  /** An open circuit was opened by the end of the last attempt that was sent, which failed. */
  lemma {:induction false} OpenedByTheLastFailure<T>(cfg: Config, xs: seq<Exchange<T>>, k: nat)
    requires k <= |xs| && After(cfg, CLOSED, xs[..k]).openedAt.Some?
    ensures exists f: nat :: f < k && OpenedBy(cfg, xs, f, k)
    decreases k
  {
    AfterOne(cfg, CLOSED, xs, k - 1);
    if FailedSend(cfg, xs, k - 1) {
      assert OpenedBy(cfg, xs, k - 1, k);
    } else {
      OpenedByTheLastFailure(cfg, xs, k - 1);
      var f: nat :| f < k - 1 && OpenedBy(cfg, xs, f, k - 1);
      assert OpenedBy(cfg, xs, f, k);
    }
  }

  /** Attempt `f` was the last one sent before `k`; it failed, and its end opened the circuit. */
  ghost predicate OpenedBy<T>(cfg: Config, xs: seq<Exchange<T>>, f: nat, k: nat)
    requires f < k <= |xs|
  {
    && FailedSend(cfg, xs, f) && After(cfg, CLOSED, xs[..k]).openedAt == Some(xs[f].doneAt)
    && forall g :: f < g < k ==> !Sent(cfg, CLOSED, xs, g)
  }

  // ---------- Quiet ----------

  /** Since the failed attempt `f` opened the circuit: nothing sent yet, or the reset time has gone by. */
  ghost predicate QuietSince<T>(cfg: Config, xs: seq<Exchange<T>>, f: nat, j: nat)
    requires f < j <= |xs|
  {
    || After(cfg, CLOSED, xs[..j]).openedAt == Some(xs[f].doneAt)
    || exists m :: f < m < j && xs[m].checkAt - xs[f].doneAt >= cfg.resetSeconds
  }

  lemma {:induction false} OpenCircuitStaysQuiet<T>(cfg: Config, xs: seq<Exchange<T>>, f: nat, j: nat)
    requires f < j <= |xs| && FailedSend(cfg, xs, f) && After(cfg, CLOSED, xs[..f + 1]).openedAt.Some?
    ensures QuietSince(cfg, xs, f, j)
    decreases j
  {
    AfterOne(cfg, CLOSED, xs, j - 1);
    if f + 1 < j {
      OpenCircuitStaysQuiet(cfg, xs, f, j - 1);
      hide After;
      if After(cfg, CLOSED, xs[..j - 1]).openedAt == Some(xs[f].doneAt) && Sent(cfg, CLOSED, xs, j - 1) {
        assert f < j - 1 < j && xs[j - 1].checkAt - xs[f].doneAt >= cfg.resetSeconds;
      }
    }
  }

  /** Once a failure has opened the circuit, nothing is sent until the reset time after that failure. */
  lemma NothingIsSentBeforeTheReset<T>(cfg: Config, xs: seq<Exchange<T>>, f: nat, k: nat)
    requires Timely(xs) && f < k < |xs| && FailedSend(cfg, xs, f) && Sent(cfg, CLOSED, xs, k)
    requires After(cfg, CLOSED, xs[..f + 1]).openedAt.Some?
    ensures xs[k].checkAt - xs[f].doneAt >= cfg.resetSeconds
  {
    OpenCircuitStaysQuiet(cfg, xs, f, k);
    hide After;
    if After(cfg, CLOSED, xs[..k]).openedAt != Some(xs[f].doneAt) {
      var m :| f < m < k && xs[m].checkAt - xs[f].doneAt >= cfg.resetSeconds;
      assert xs[m].checkAt <= xs[m].doneAt <= xs[k].checkAt;
    }
  }

  // ---------- Bursts of failures ----------

  /** After the failed send `i`: either every later failure is still counted, or the reset time has gone by. */
  ghost predicate StillCounted<T>(cfg: Config, xs: seq<Exchange<T>>, i: nat, j: nat)
    requires i < j <= |xs|
  {
    var c := After(cfg, CLOSED, xs[..j]);
    && (c.openedAt.Some? ==> c.openedAt.value >= xs[i].doneAt)
    && (c.failures >= FailedSends(cfg, xs, i, j) || xs[j - 1].checkAt >= xs[i].doneAt + cfg.resetSeconds)
  }

  lemma {:induction false} FailuresStayCounted<T>(cfg: Config, xs: seq<Exchange<T>>, i: nat, j: nat)
    requires Timely(xs) && i < j <= |xs| && FailedSend(cfg, xs, i)
    requires forall k :: i < k < j ==> !SucceededSend(cfg, xs, k)
    ensures StillCounted(cfg, xs, i, j)
    decreases j
  {
    AfterOne(cfg, CLOSED, xs, j - 1);
    if j == i + 1 {
      assert FailedSends(cfg, xs, i, i) == 0;
    } else {
      FailuresStayCounted(cfg, xs, i, j - 1);
      assert !SucceededSend(cfg, xs, j - 1);
    }
  }

  /**
   As many failed sends as the threshold, with no success among them, are followed by no send before the reset
   time has passed since the first of them.
   */
  lemma {:induction false} BurstsAreFollowedByQuiet<T>(cfg: Config, xs: seq<Exchange<T>>, i: nat, j: nat)
    requires Timely(xs) && i < j < |xs| && FailedSend(cfg, xs, i) && Sent(cfg, CLOSED, xs, j)
    requires forall k :: i < k < j ==> !SucceededSend(cfg, xs, k)
    requires FailedSends(cfg, xs, i, j) >= Limit(cfg)
    ensures xs[j].checkAt - xs[i].doneAt >= cfg.resetSeconds
  {
    FailuresStayCounted(cfg, xs, i, j);
    OpenExactlyAtThreshold(cfg, xs[..j]);
    assert xs[j - 1].checkAt <= xs[j - 1].doneAt <= xs[j].checkAt;
  }

  // ---------- One page ----------

  /**
   Attempt `k` is the last one made for a page: every earlier one was sent and had a retryable reply, and this one was
   refused by the circuit, got a final reply, or was the last one allowed.
   */
  ghost predicate StopsAt<T>(cfg: Config, c: Circuit, script: seq<Exchange<T>>, k: nat) {
    && k < |script| && AllRetried(cfg, c, script, k)
    && (Sent(cfg, c, script, k) && Retryable(script[k].reply) ==> k == |script| - 1)
  }

  /** The first `k` attempts were sent and had retryable replies. */
  ghost predicate AllRetried<T>(cfg: Config, c: Circuit, script: seq<Exchange<T>>, k: nat)
    requires k <= |script|
  {
    forall i :: 0 <= i < k ==> Sent(cfg, c, script, i) && Retryable(script[i].reply)
  }

  /** One more attempt: refused and the last, sent and retried, or sent and the last. */
  lemma OneAttempt<T>(cfg: Config, c: Circuit, script: seq<Exchange<T>>, k: nat)
    requires k < |script| && AllRetried(cfg, c, script, k)
    ensures var now, x, next := After(cfg, c, script[..k]), script[k], After(cfg, c, script[..k + 1]);
            if !Admits(cfg, now, x.checkAt)
            then StopsAt(cfg, c, script, k) && EndOf(cfg, c, script, k) == Failed(Unavailable) && next == now
            else
              && next == Marked(cfg, Ensured(now), MarkOf(x.reply), x.doneAt)
              && (Retryable(x.reply) ==> AllRetried(cfg, c, script, k + 1))
              && (!Retryable(x.reply) || k == |script| - 1 ==>
                    StopsAt(cfg, c, script, k) && EndOf(cfg, c, script, k) == Verdict(x.reply))
  {
    AfterOne(cfg, c, script, k);
    hide After, Marked, Ensured, MarkOf, Verdict, Retryable, Admits;
  }

  function EndOf<T>(cfg: Config, c: Circuit, script: seq<Exchange<T>>, k: nat): Outcome<T>
    requires k < |script|
  {
    if Sent(cfg, c, script, k) then Verdict(script[k].reply) else Failed(Unavailable)
  }

  /**
   A request ends in one way only: with a page exactly on a parsable 200, and unavailable exactly when the circuit
   refuses it or the last attempt allowed meets a retryable reply.
   */
  lemma {:induction false} RequestEndsOneWay<T>(cfg: Config, c: Circuit, script: seq<Exchange<T>>, j: nat, k: nat)
    requires StopsAt(cfg, c, script, j) && StopsAt(cfg, c, script, k)
    ensures j == k
    ensures forall page :: EndOf(cfg, c, script, k) == Success(page) <==>
              Sent(cfg, c, script, k) && script[k].reply == Answer(200, Some(page))
    ensures EndOf(cfg, c, script, k) == Failed(Unavailable) <==>
              !Sent(cfg, c, script, k) || (k == |script| - 1 && Retryable(script[k].reply))
  {
    NoEarlierStop(cfg, c, script, j, k);
    NoEarlierStop(cfg, c, script, k, j);
    hide Sent;
  }

  lemma NoEarlierStop<T>(cfg: Config, c: Circuit, script: seq<Exchange<T>>, j: nat, k: nat)
    requires StopsAt(cfg, c, script, k)
    ensures j < k ==> !StopsAt(cfg, c, script, j)
  {
    hide Sent, Retryable;
  }

  /** The last attempt made, from attempt `k` on. */
  function LastFrom<T>(cfg: Config, c: Circuit, script: seq<Exchange<T>>, k: nat): (last: nat)
    requires k < |script|
    ensures k <= last < |script|
    decreases |script| - k
  {
    if k == |script| - 1 || !Sent(cfg, c, script, k) || !Retryable(script[k].reply) then k
    else LastFrom(cfg, c, script, k + 1)
  }

  function PageOutcome<T>(cfg: Config, c: Circuit, script: seq<Exchange<T>>): Outcome<T>
    requires script != []
  {
    EndOf(cfg, c, script, LastFrom(cfg, c, script, 0))
  }

  /** The exchanges made for one page. */
  function Exchanged<T>(cfg: Config, c: Circuit, script: seq<Exchange<T>>): seq<Exchange<T>>
    requires script != []
  {
    script[..LastFrom(cfg, c, script, 0) + 1]
  }

  lemma {:induction false} StopsAtLast<T>(cfg: Config, c: Circuit, script: seq<Exchange<T>>, k: nat)
    requires k < |script| && AllRetried(cfg, c, script, k)
    ensures StopsAt(cfg, c, script, LastFrom(cfg, c, script, k))
    decreases |script| - k
  {
    hide Sent, Retryable;
    if k < |script| - 1 && Sent(cfg, c, script, k) && Retryable(script[k].reply) {
      StopsAtLast(cfg, c, script, k + 1);
    }
  }

  /** Where a request stops decides its outcome and the exchanges made for it. */
  lemma StopDecidesPage<T>(cfg: Config, c: Circuit, script: seq<Exchange<T>>, last: nat)
    requires StopsAt(cfg, c, script, last)
    ensures last < |script| && EndOf(cfg, c, script, last) == PageOutcome(cfg, c, script)
    ensures script[..last + 1] == Exchanged(cfg, c, script)
  {
    StopsAtLast(cfg, c, script, 0);
    RequestEndsOneWay(cfg, c, script, last, LastFrom(cfg, c, script, 0));
  }

  // ---------- Backoff ----------

  function Backoff(attempt: nat): nat {
    if Pow2(attempt) < LONGEST_BACKOFF then Pow2(attempt) else LONGEST_BACKOFF
  }

  function TotalBackoff(retries: nat): nat {
    if retries == 0 then 0 else TotalBackoff(retries - 1) + Backoff(retries - 1)
  }

  lemma {:induction false} PowersGrow(n: nat)
    requires n >= 3
    ensures Pow2(n) >= LONGEST_BACKOFF
  {
    if n == 3 {
      assert Pow2(1) == 2;
    } else {
      PowersGrow(n - 1);
    }
  }

  lemma {:induction false} BackoffGrows(m: nat, n: nat)
    requires m <= n
    ensures TotalBackoff(m) <= TotalBackoff(n)
  {
    if m < n {
      BackoffGrows(m, n - 1);
    }
  }

  lemma {:induction false} TotalBackoffClosedForm(retries: nat)
    ensures TotalBackoff(retries) == if retries <= 4 then Pow2(retries) - 1 else 15 + 8 * (retries - 4)
  {
    if retries > 0 {
      TotalBackoffClosedForm(retries - 1);
      if retries <= 4 {
        assert Pow2(2) == 4 && Pow2(3) == 8 && Pow2(4) == 16;
      } else {
        PowersGrow(retries - 1);
        assert Pow2(2) == 4 && Pow2(3) == 8 && Pow2(4) == 16;
      }
    }
  }

  // ---------- The paged query ----------

  function Concat<T>(pages: seq<Page<T>>): seq<T> {
    if pages == [] then [] else Concat(pages[..|pages| - 1]) + pages[|pages| - 1].records
  }

  predicate AllFull<T>(pages: seq<Page<T>>) {
    forall i :: 0 <= i < |pages| ==> |pages[i].records| >= PAGE_SIZE
  }

  /** Paging stops at the first short page, or at the page limit. */
  predicate PagedOut<T>(pages: seq<Page<T>>, maxPages: nat) {
    && 0 < |pages| <= maxPages
    && AllFull(pages[..|pages| - 1])
    && (|pages| == maxPages || |pages[|pages| - 1].records| < PAGE_SIZE)
  }

  function AtMost(n: nat, bound: nat): nat {
    if n < bound then n else bound
  }

  /** The server answers offset `o` with the records from `o` on, up to a page of them. */
  ghost predicate Serves<T>(data: seq<T>, pages: seq<Page<T>>) {
    forall i :: 0 <= i < |pages| ==>
      pages[i].records == data[AtMost(i * PAGE_SIZE, |data|)..AtMost((i + 1) * PAGE_SIZE, |data|)]
  }

  lemma {:induction false} ServedPagesJoin<T>(data: seq<T>, pages: seq<Page<T>>)
    requires Serves(data, pages)
    ensures Concat(pages) == data[..AtMost(|pages| * PAGE_SIZE, |data|)]
  {
    if pages != [] {
      var n := |pages| - 1;
      ServedPagesJoin(data, pages[..n]);
      assert pages[n].records == data[AtMost(n * PAGE_SIZE, |data|)..AtMost((n + 1) * PAGE_SIZE, |data|)];
      hide Serves, Concat;
      SlicesJoin(data, AtMost(n * PAGE_SIZE, |data|), AtMost((n + 1) * PAGE_SIZE, |data|));
    }
  }

  lemma SlicesJoin<T>(data: seq<T>, i: nat, j: nat)
    requires i <= j <= |data|
    ensures data[..i] + data[i..j] == data[..j]
  {
  }

  /**
   Against such a server the query returns the first records, up to the limit, and says exactly when it stopped short.
   */
  lemma PagedQueryIsExact<T>(data: seq<T>, pages: seq<Page<T>>, maxPages: nat)
    requires Serves(data, pages) && PagedOut(pages, maxPages)
    ensures Concat(pages) == data[..AtMost(|data|, PAGE_SIZE * maxPages)]
    ensures |pages[|pages| - 1].records| >= PAGE_SIZE <==> |data| >= PAGE_SIZE * maxPages
    ensures |pages| == AtMost(|data| / PAGE_SIZE + 1, maxPages)
  {
    ServedPagesJoin(data, pages);
    var n := |pages|;
    if n > 1 {
      assert |pages[n - 2].records| >= PAGE_SIZE;
    }
    assert |pages[n - 1].records| >= 0;
  }

  /** The page is one the network delivered. */
  ghost predicate Delivers<T>(script: seq<Exchange<T>>, page: Page<T>) {
    exists k :: 0 <= k < |script| && script[k].reply == Answer(200, Some(page))
  }

  /** Whatever page the network delivers for an offset, it is the server's page for that offset. */
  ghost predicate Honest<T(!new)>(data: seq<T>, scripts: seq<seq<Exchange<T>>>) {
    forall i, page: Page<T> :: 0 <= i < |scripts| && Delivers(scripts[i], page) ==>
      page.records == data[AtMost(i * PAGE_SIZE, |data|)..AtMost((i + 1) * PAGE_SIZE, |data|)]
  }

  datatype QueryResult<T> =
    | Complete(records: seq<T>, quota: Option<nat>, found: nat, truncated: bool)
    | Aborted(failure: Failure)

  predicate Scripted<T>(scripts: seq<seq<Exchange<T>>>) {
    forall i :: 0 <= i < |scripts| ==> scripts[i] != []
  }

  /**
   All the exchanges made for the first `n` pages; `scripts[i]` is what the network does while page `i` is asked for.
   */
  function Used<T>(cfg: Config, c: Circuit, scripts: seq<seq<Exchange<T>>>, n: nat): seq<Exchange<T>>
    requires n <= |scripts| && Scripted(scripts)
  {
    if n == 0 then []
    else
      var before := Used(cfg, c, scripts, n - 1);
      before + Exchanged(cfg, After(cfg, c, before), scripts[n - 1])
  }

  function CircuitBefore<T>(cfg: Config, c: Circuit, scripts: seq<seq<Exchange<T>>>, n: nat): Circuit
    requires n <= |scripts| && Scripted(scripts)
  {
    After(cfg, c, Used(cfg, c, scripts, n))
  }

  /** How asking for page `n` ends, when the pages before it were asked for. */
  function OutcomeAt<T>(cfg: Config, c: Circuit, scripts: seq<seq<Exchange<T>>>, n: nat): Outcome<T>
    requires n < |scripts| && Scripted(scripts)
  {
    PageOutcome(cfg, CircuitBefore(cfg, c, scripts, n), scripts[n])
  }

  lemma CircuitAfterPage<T>(cfg: Config, c: Circuit, scripts: seq<seq<Exchange<T>>>, n: nat)
    requires n < |scripts| && Scripted(scripts)
    ensures var before := CircuitBefore(cfg, c, scripts, n);
            CircuitBefore(cfg, c, scripts, n + 1) == After(cfg, before, Exchanged(cfg, before, scripts[n]))
  {
    var used := Used(cfg, c, scripts, n);
    AfterSplit(cfg, c, used, Exchanged(cfg, After(cfg, c, used), scripts[n]));
  }

  /** The pages are those that the requests for them ended in, one after another. */
  ghost predicate Answered<T>(cfg: Config, c: Circuit, scripts: seq<seq<Exchange<T>>>, pages: seq<Page<T>>)
    requires Scripted(scripts)
  {
    |pages| <= |scripts| && forall i :: 0 <= i < |pages| ==> OutcomeAt(cfg, c, scripts, i) == Success(pages[i])
  }

  /**
   The query read `pages` and ended with this result and this circuit: it sums them up when paging is done, and is
   aborted by the failure of the next page otherwise.
   */
  ghost predicate Queried<T>(cfg: Config, c: Circuit, scripts: seq<seq<Exchange<T>>>, pages: seq<Page<T>>,
                             result: QueryResult<T>, c': Circuit)
    requires Scripted(scripts)
  {
    && Answered(cfg, c, scripts, pages)
    && match result
       case Aborted(failure) =>
         && |pages| < |scripts| && AllFull(pages) && OutcomeAt(cfg, c, scripts, |pages|) == Failed(failure)
         && c' == CircuitBefore(cfg, c, scripts, |pages| + 1)
       case Complete(records, quota, found, truncated) =>
         && PagedOut(pages, |scripts|) && records == Concat(pages) && found == |records|
         && (truncated <==> AllFull(pages)) && quota == pages[|pages| - 1].quota
         && c' == CircuitBefore(cfg, c, scripts, |pages|)
  }

  /** The first `n` requests end in pages, and paging stops with the last of them. */
  ghost predicate DoneAfter<T>(cfg: Config, c: Circuit, scripts: seq<seq<Exchange<T>>>, n: nat)
    requires Scripted(scripts)
  {
    && 1 <= n <= |scripts|
    && (forall i :: 0 <= i < n ==> OutcomeAt(cfg, c, scripts, i).Success?)
    && (forall i :: 0 <= i < n - 1 ==> |OutcomeAt(cfg, c, scripts, i).page.records| >= PAGE_SIZE)
    && (n == |scripts| || |OutcomeAt(cfg, c, scripts, n - 1).page.records| < PAGE_SIZE)
  }

  /** The query completes exactly when every page it has to ask for arrives. */
  lemma QueryCompletesExactly<T>(cfg: Config, c: Circuit, scripts: seq<seq<Exchange<T>>>, pages: seq<Page<T>>,
                                 result: QueryResult<T>, c': Circuit)
    requires Scripted(scripts) && Queried(cfg, c, scripts, pages, result, c')
    ensures result.Complete? <==> exists n :: DoneAfter(cfg, c, scripts, n)
    ensures result.Complete? ==> DoneAfter(cfg, c, scripts, |pages|)
  {
    hide OutcomeAt, Concat, CircuitBefore;
    if result.Complete? {
      assert AllFull(pages[..|pages| - 1]);
      forall i | 0 <= i < |pages| - 1
        ensures |pages[i].records| >= PAGE_SIZE
      {
        assert pages[..|pages| - 1][i] == pages[i];
      }
      assert DoneAfter(cfg, c, scripts, |pages|);
    } else {
      forall n: nat
        ensures !DoneAfter(cfg, c, scripts, n)
      {
        AbortedIsNotDone(cfg, c, scripts, pages, n);
      }
    }
  }

  lemma AbortedIsNotDone<T>(cfg: Config, c: Circuit, scripts: seq<seq<Exchange<T>>>, pages: seq<Page<T>>, n: nat)
    requires Scripted(scripts) && Answered(cfg, c, scripts, pages) && AllFull(pages) && |pages| < |scripts|
    requires OutcomeAt(cfg, c, scripts, |pages|).Failed?
    ensures !DoneAfter(cfg, c, scripts, n)
  {
    hide OutcomeAt;
    if 1 <= n <= |pages| {
      assert OutcomeAt(cfg, c, scripts, n - 1) == Success(pages[n - 1]);
    }
  }

  /** How many pages a server of `count` records is asked for. */
  function PagesNeeded(count: nat, maxPages: nat): nat {
    AtMost(count / PAGE_SIZE + 1, maxPages)
  }

  /**
   Against a server whose pages the network delivers honestly: the query completes exactly when every page needed
   arrives, and then returns exactly the first records up to the limit, saying exactly whether it stopped short.
   */
  lemma HonestQueryIsExact<T(!new)>(cfg: Config, c: Circuit, data: seq<T>, scripts: seq<seq<Exchange<T>>>,
                                    pages: seq<Page<T>>, result: QueryResult<T>, c': Circuit)
    requires Scripted(scripts) && Honest(data, scripts) && Queried(cfg, c, scripts, pages, result, c')
    ensures result.Complete? <==>
            forall i :: 0 <= i < PagesNeeded(|data|, |scripts|) ==> OutcomeAt(cfg, c, scripts, i).Success?
    ensures result.Complete? ==>
              && |pages| == PagesNeeded(|data|, |scripts|) && result.found == |result.records|
              && result.records == data[..AtMost(|data|, 1000 * |scripts|)]
              && (result.truncated <==> |data| >= 1000 * |scripts|)
              && OutcomeAt(cfg, c, scripts, |pages| - 1).Success?
              && result.quota == OutcomeAt(cfg, c, scripts, |pages| - 1).page.quota
  {
    HonestPagesAreServed(cfg, c, data, scripts, pages);
    if result.Complete? {
      PagedQueryIsExact(data, pages, |scripts|);
      LastPageDecides(pages, |scripts|);
      hide OutcomeAt, Honest, Serves, Concat, CircuitBefore;
    } else {
      FullPagesAreNeeded(data, pages, |scripts|);
      hide *;
      assert OutcomeAt(cfg, c, scripts, |pages|).Failed? by {
        AbortedFails(cfg, c, scripts, pages, result, c');
      }
    }
  }

  lemma AbortedFails<T>(cfg: Config, c: Circuit, scripts: seq<seq<Exchange<T>>>, pages: seq<Page<T>>,
                        result: QueryResult<T>, c': Circuit)
    requires Scripted(scripts) && Queried(cfg, c, scripts, pages, result, c') && result.Aborted?
    ensures |pages| < |scripts| && AllFull(pages) && OutcomeAt(cfg, c, scripts, |pages|).Failed?
  {
  }

  lemma LastPageDecides<T>(pages: seq<Page<T>>, maxPages: nat)
    requires PagedOut(pages, maxPages)
    ensures AllFull(pages) <==> |pages[|pages| - 1].records| >= PAGE_SIZE
  {
    assert forall i :: 0 <= i < |pages| - 1 ==> pages[..|pages| - 1][i] == pages[i];
  }

  lemma FullPagesAreNeeded<T>(data: seq<T>, pages: seq<Page<T>>, maxPages: nat)
    requires Serves(data, pages)
    ensures AllFull(pages) && |pages| < maxPages ==> |pages| < PagesNeeded(|data|, maxPages)
  {
    if pages != [] && AllFull(pages) {
      assert |pages[|pages| - 1].records| >= PAGE_SIZE;
    }
  }

  lemma HonestPagesAreServed<T(!new)>(cfg: Config, c: Circuit, data: seq<T>, scripts: seq<seq<Exchange<T>>>,
                                      pages: seq<Page<T>>)
    requires Scripted(scripts) && Honest(data, scripts) && Answered(cfg, c, scripts, pages)
    ensures Serves(data, pages)
  {
    hide Delivers, CircuitBefore, PageOutcome;
    forall i | 0 <= i < |pages|
      ensures Delivers(scripts[i], pages[i])
    {
      PageIsDelivered(cfg, CircuitBefore(cfg, c, scripts, i), scripts[i], pages[i]);
    }
  }

  lemma PageIsDelivered<T>(cfg: Config, c: Circuit, script: seq<Exchange<T>>, page: Page<T>)
    requires script != [] && PageOutcome(cfg, c, script) == Success(page)
    ensures Delivers(script, page)
  {
    assert script[LastFrom(cfg, c, script, 0)].reply == Answer(200, Some(page));
  }

  // ---------- A healthy network ----------

  /** Every page is answered at once. */
  predicate Healthy<T>(scripts: seq<seq<Exchange<T>>>) {
    forall i :: 0 <= i < |scripts| ==>
      scripts[i] != [] && scripts[i][0].reply.Answer? && scripts[i][0].reply.status == 200 &&
        scripts[i][0].reply.page.Some?
  }

  lemma HealthyPage<T>(cfg: Config, c: Circuit, script: seq<Exchange<T>>)
    requires c.openedAt.None? && script != [] && script[0].reply.Answer? && script[0].reply.status == 200
    requires script[0].reply.page.Some?
    ensures PageOutcome(cfg, c, script).Success? && After(cfg, c, Exchanged(cfg, c, script)).openedAt.None?
  {
    assert script[..0] == [] && script[..1] == [script[0]] && [script[0]][..0] == [];
  }

  /** On a healthy network, with the circuit closed, every page arrives. */
  lemma {:induction false} HealthyPagesArrive<T>(cfg: Config, c: Circuit, scripts: seq<seq<Exchange<T>>>, n: nat)
    requires Healthy(scripts) && Scripted(scripts) && c.openedAt.None? && n <= |scripts|
    ensures CircuitBefore(cfg, c, scripts, n).openedAt.None?
    ensures forall i :: 0 <= i < n ==> OutcomeAt(cfg, c, scripts, i).Success?
  {
    hide CircuitBefore, Exchanged, PageOutcome, After;
    if n == 0 {
      NothingUsed(cfg, c, scripts);
    } else {
      HealthyPagesArrive(cfg, c, scripts, n - 1);
      CircuitAfterPage(cfg, c, scripts, n - 1);
      HealthyPage(cfg, CircuitBefore(cfg, c, scripts, n - 1), scripts[n - 1]);
    }
  }

  lemma NothingUsed<T>(cfg: Config, c: Circuit, scripts: seq<seq<Exchange<T>>>)
    requires Scripted(scripts)
    ensures CircuitBefore(cfg, c, scripts, 0) == c
  {
  }

  /** So an honest and healthy network yields exactly the server's first records. */
  lemma HealthyQueryIsExact<T(!new)>(cfg: Config, c: Circuit, data: seq<T>, scripts: seq<seq<Exchange<T>>>,
                                     pages: seq<Page<T>>, result: QueryResult<T>, c': Circuit)
    requires Scripted(scripts) && Honest(data, scripts) && Queried(cfg, c, scripts, pages, result, c')
    requires Healthy(scripts) && c.openedAt.None?
    ensures result.Complete? && result.records == data[..AtMost(|data|, PAGE_SIZE * |scripts|)]
    ensures result.found == |result.records| && (result.truncated <==> |data| >= PAGE_SIZE * |scripts|)
  {
    HealthyPagesArrive(cfg, c, scripts, |scripts|);
    HonestQueryIsExact(cfg, c, data, scripts, pages, result, c');
    hide OutcomeAt, Honest, Queried, Healthy;
  }

  // ---------- The loop over pages ----------

  /** Where the loop stands: `number` full pages read and summed. */
  ghost predicate Reading<T>(cfg: Config, c: Circuit, scripts: seq<seq<Exchange<T>>>, pages: seq<Page<T>>, number: nat,
                             records: seq<T>, quota: Option<nat>, found: nat, now: Circuit)
    requires Scripted(scripts)
  {
    && number == |pages| && Answered(cfg, c, scripts, pages) && AllFull(pages)
    && records == Concat(pages) && found == |records| && (pages != [] ==> quota == pages[number - 1].quota)
    && now == CircuitBefore(cfg, c, scripts, number)
  }

  lemma NothingRead<T>(cfg: Config, c: Circuit, scripts: seq<seq<Exchange<T>>>)
    requires Scripted(scripts)
    ensures Reading<T>(cfg, c, scripts, [], 0, [], None, 0, c)
  {
  }

  /** One more request: its outcome and the circuit it leaves are those of the page's turn. */
  lemma PageAsked<T>(cfg: Config, c: Circuit, scripts: seq<seq<Exchange<T>>>, pages: seq<Page<T>>, number: nat,
                     records: seq<T>, quota: Option<nat>, found: nat, now: Circuit, last: nat)
    requires number < |scripts| && Scripted(scripts)
    requires Reading(cfg, c, scripts, pages, number, records, quota, found, now)
    requires StopsAt(cfg, now, scripts[number], last)
    ensures last < |scripts[number]|
    ensures EndOf(cfg, now, scripts[number], last) == OutcomeAt(cfg, c, scripts, number)
    ensures After(cfg, now, scripts[number][..last + 1]) == CircuitBefore(cfg, c, scripts, number + 1)
  {
    StopDecidesPage(cfg, now, scripts[number], last);
    CircuitAfterPage(cfg, c, scripts, number);
    hide After, PageOutcome, Exchanged, EndOf, StopsAt, CircuitBefore, Concat, Answered;
  }

  lemma StopsInFailure<T>(cfg: Config, c: Circuit, scripts: seq<seq<Exchange<T>>>, pages: seq<Page<T>>, number: nat,
                          records: seq<T>, quota: Option<nat>, found: nat, now: Circuit, failure: Failure)
    requires number < |scripts| && Scripted(scripts)
    requires Reading(cfg, c, scripts, pages, number, records, quota, found, now)
    requires OutcomeAt(cfg, c, scripts, number) == Failed(failure)
    ensures Queried(cfg, c, scripts, pages, Aborted(failure), CircuitBefore(cfg, c, scripts, number + 1))
  {
    hide Answered, Concat, OutcomeAt, CircuitBefore;
  }

  lemma OnePageMore<T>(cfg: Config, c: Circuit, scripts: seq<seq<Exchange<T>>>, pages: seq<Page<T>>, number: nat,
                       records: seq<T>, quota: Option<nat>, found: nat, now: Circuit, page: Page<T>)
    requires number < |scripts| && Scripted(scripts)
    requires Reading(cfg, c, scripts, pages, number, records, quota, found, now)
    requires OutcomeAt(cfg, c, scripts, number) == Success(page)
    ensures var more, next := pages + [page], CircuitBefore(cfg, c, scripts, number + 1);
            var records', found' := records + page.records, found + |page.records|;
            if |page.records| >= PAGE_SIZE
            then Reading(cfg, c, scripts, more, number + 1, records', page.quota, found', next)
            else Queried(cfg, c, scripts, more, Complete(records', page.quota, found', false), next)
  {
    var more := pages + [page];
    ReadSoFar(cfg, c, scripts, pages, number, records, quota, found, now);
    AnsweredOneMore(cfg, c, scripts, pages, page, more);
    ConcatOneMore(pages, page, more);
    FullOneMore(pages, page, more);
    hide Concat, OutcomeAt, CircuitBefore, AllFull, Answered;
    assert more[..|more| - 1] == pages && more[|more| - 1] == page;
  }

  lemma ReadSoFar<T>(cfg: Config, c: Circuit, scripts: seq<seq<Exchange<T>>>, pages: seq<Page<T>>, number: nat,
                     records: seq<T>, quota: Option<nat>, found: nat, now: Circuit)
    requires Scripted(scripts) && Reading(cfg, c, scripts, pages, number, records, quota, found, now)
    ensures number == |pages| && Answered(cfg, c, scripts, pages) && AllFull(pages)
    ensures records == Concat(pages) && found == |records|
  {
  }

  lemma AnsweredOneMore<T>(cfg: Config, c: Circuit, scripts: seq<seq<Exchange<T>>>, pages: seq<Page<T>>, page: Page<T>,
                           more: seq<Page<T>>)
    requires Scripted(scripts) && Answered(cfg, c, scripts, pages) && more == pages + [page] && |pages| < |scripts|
    requires OutcomeAt(cfg, c, scripts, |pages|) == Success(page)
    ensures Answered(cfg, c, scripts, more)
  {
    hide OutcomeAt;
  }

  lemma FullOneMore<T>(pages: seq<Page<T>>, page: Page<T>, more: seq<Page<T>>)
    requires more == pages + [page]
    ensures AllFull(more) <==> AllFull(pages) && |page.records| >= PAGE_SIZE
  {
    if AllFull(more) {
      assert forall i :: 0 <= i < |pages| ==> pages[i] == more[i];
      assert page == more[|pages|];
    }
  }

  lemma ConcatOneMore<T>(pages: seq<Page<T>>, page: Page<T>, more: seq<Page<T>>)
    requires more == pages + [page]
    ensures Concat(more) == Concat(pages) + page.records
  {
    assert more[..|more| - 1] == pages && more[|more| - 1] == page;
  }

  lemma ReadToTheLimit<T>(cfg: Config, c: Circuit, scripts: seq<seq<Exchange<T>>>, pages: seq<Page<T>>, number: nat,
                          records: seq<T>, quota: Option<nat>, found: nat, now: Circuit)
    requires Scripted(scripts) && number == |scripts| > 0
    requires Reading(cfg, c, scripts, pages, number, records, quota, found, now)
    ensures Queried(cfg, c, scripts, pages, Complete(records, quota, found, true), now)
  {
    hide Answered, Concat, CircuitBefore;
  }

  lemma NoAttempts<T>(cfg: Config, c: Circuit, script: seq<Exchange<T>>)
    ensures After(cfg, c, script[..0]) == c && AllRetried(cfg, c, script, 0)
  {
  }

  // ---------- The program ----------

  class Client {
    const cfg: Config
    var failures: nat
    var openedAt: Option<real>

    function Breaker(): Circuit
      reads this
    {
      Circuit(failures, openedAt)
    }

    constructor (cfg: Config)
      ensures this.cfg == cfg && Breaker() == CLOSED
    {
      this.cfg := cfg;
      failures, openedAt := 0, None;
    }

    method EnsureCircuitAvailable(now: real) returns (available: bool)
      modifies this
      ensures available == Admits(cfg, old(Breaker()), now)
      ensures Breaker() == if available then Ensured(old(Breaker())) else old(Breaker())
    {
      if openedAt.None? {
        return true;
      }
      if now - openedAt.value < cfg.resetSeconds {
        return false;
      }
      openedAt := None;
      failures := 0;
      available := true;
    }

    method RecordFailure(now: real)
      modifies this
      ensures Breaker() == Marked(cfg, old(Breaker()), Failing, now)
    {
      failures := failures + 1;
      if failures >= cfg.threshold {
        openedAt := Some(now);
      }
    }

    method RecordSuccess()
      modifies this
      ensures forall now :: Breaker() == Marked(cfg, old(Breaker()), Succeeded, now)
    {
      failures := 0;
      openedAt := None;
    }

    /** Asks for one page, retrying; `last` is the last attempt made. */
    method RequestPage<T>(script: seq<Exchange<T>>) returns (outcome: Outcome<T>, last: nat, slept: nat)
      requires |script| == cfg.maxRetries + 1
      modifies this
      ensures StopsAt(cfg, old(Breaker()), script, last) && outcome == EndOf(cfg, old(Breaker()), script, last)
      ensures Breaker() == After(cfg, old(Breaker()), script[..last + 1])
      ensures slept == TotalBackoff(last) <= TotalBackoff(cfg.maxRetries)
    {
      hide After, StopsAt, EndOf, AllRetried;
      ghost var start := Breaker();
      NoAttempts(cfg, start, script);
      slept := 0;
      last := 0;
      while true
        invariant last <= cfg.maxRetries && slept == TotalBackoff(last)
        invariant Breaker() == After(cfg, start, script[..last])
        invariant AllRetried(cfg, start, script, last)
        decreases cfg.maxRetries - last
      {
        OneAttempt(cfg, start, script, last);
        BackoffGrows(last, cfg.maxRetries);
        var x := script[last];
        var available := EnsureCircuitAvailable(x.checkAt);
        if !available {
          return Failed(Unavailable), last, slept;
        }
        if x.reply.NetworkError? || (x.reply.Answer? && (x.reply.status == 429 || x.reply.status >= 500)) {
          RecordFailure(x.doneAt);
          if last < cfg.maxRetries {
            slept := slept + Backoff(last);
            last := last + 1;
            continue;
          }
          return Failed(Unavailable), last, slept;
        }
        if x.reply.Escaped? {
          return Failed(EscapedError), last, slept;
        }
        RecordSuccess();
        if x.reply.status == 401 {
          outcome := Failed(Configuration);
        } else if x.reply.status != 200 {
          outcome := Failed(Protocol);
        } else {
          outcome := if x.reply.page.Some? then Success(x.reply.page.value) else Failed(Protocol);
        }
        return;
      }
    }

    /** The domain query, up to the limit of pages. */
    method QueryDomain<T(!new)>(scripts: seq<seq<Exchange<T>>>)
      returns (result: QueryResult<T>, ghost pages: seq<Page<T>>)
      requires cfg.maxPages >= 1 && |scripts| == cfg.maxPages
      requires forall i :: 0 <= i < |scripts| ==> |scripts[i]| == cfg.maxRetries + 1
      modifies this
      ensures Scripted(scripts) && Queried(cfg, old(Breaker()), scripts, pages, result, Breaker())
    {
      assert Scripted(scripts);
      hide *;
      ghost var start := Breaker();
      var records: seq<T>, quota: Option<nat>, found: nat := [], None, 0;
      pages := [];
      var number := 0;
      NothingRead(cfg, start, scripts);
      while number < cfg.maxPages
        invariant number <= cfg.maxPages
        invariant Reading(cfg, start, scripts, pages, number, records, quota, found, Breaker())
      {
        ghost var before := Breaker();
        var outcome, last, _ := RequestPage(scripts[number]);
        PageAsked(cfg, start, scripts, pages, number, records, quota, found, before, last);
        if outcome.Failed? {
          StopsInFailure(cfg, start, scripts, pages, number, records, quota, found, before, outcome.failure);
          return Aborted(outcome.failure), pages;
        }
        var page := outcome.page;
        OnePageMore(cfg, start, scripts, pages, number, records, quota, found, before, page);
        pages := pages + [page];
        records := records + page.records;
        quota := page.quota;
        found := found + |page.records|;
        if |page.records| < PAGE_SIZE {
          return Complete(records, quota, found, false), pages;
        }
        number := number + 1;
      }
      ReadToTheLimit(cfg, start, scripts, pages, number, records, quota, found, Breaker());
      result := Complete(records, quota, found, true);
    }
  }
}
