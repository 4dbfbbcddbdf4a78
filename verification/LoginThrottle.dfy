/**
 Local super-admin login: a fixed-window failure counter with a block per client address, a failure
 counter with a lockout per account, and the factor checks between them.

 Clocks are passed in.  Whether a submitted password or one-time code verifies is an input, because
 hashing and decryption are foreign code.
 */
module LoginThrottle {
  import opened Wrappers

  type Address = string
  type Email = string

  /** Limits and durations, in the unit of the clock. */
  datatype Config = Config(accountMax: nat, accountLockout: nat, ipMax: nat, ipWindow: nat, ipLockout: nat) {
    predicate Valid() {
      accountMax >= 1 && ipMax >= 1 && ipWindow >= 1
    }
  }

  datatype Limit = Limit(windowStart: int, attempts: nat, blockedUntil: Option<int>)
  datatype Account = Account(active: bool, superAdmin: bool, enrolled: bool, failed: nat, lockedUntil: Option<int>,
                             lastLogin: Option<int>)
  datatype Tables = Tables(limits: map<Address, Limit>, accounts: map<Email, Account>)

  /** A submitted login; `None` stands for an address or an email that does not parse. */
  datatype Attempt = Attempt(address: Option<Address>, email: Option<Email>, passwordValid: bool, codeValid: bool,
                             now: int)

  datatype Verdict = BadAddress | AddressBlocked | NoSuchAccount | Ineligible | AccountLocked | WrongFactors | Granted {
    predicate CountsAgainstAddress() {
      NoSuchAccount? || Ineligible? || AccountLocked? || WrongFactors?
    }
  }

  // ---------- The effect of one login ----------

  function LimitOf(t: Tables, address: Address, now: int): Limit {
    if address in t.limits then t.limits[address] else Limit(now, 0, None)
  }

  function ResetIfElapsed(c: Config, l: Limit, now: int): Limit {
    if l.blockedUntil.Some? && now >= l.blockedUntil.value then Limit(now, 0, None)
    else if now >= l.windowStart + c.ipWindow then l.(attempts := 0, windowStart := now)
    else l
  }

  function WithFailure(c: Config, l: Limit, now: int): Limit {
    var reset := ResetIfElapsed(c, l, now);
    var counted := reset.(attempts := reset.attempts + 1);
    if counted.attempts >= c.ipMax then counted.(blockedUntil := Some(now + c.ipLockout)) else counted
  }

  predicate Blocked(l: Limit, now: int) {
    l.blockedUntil.Some? && now < l.blockedUntil.value
  }

  predicate StillLocked(u: Account, now: int) {
    u.lockedUntil.Some? && now < u.lockedUntil.value
  }

  predicate FactorsValid(u: Account, a: Attempt) {
    a.passwordValid && (u.enrolled ==> a.codeValid)
  }

  function VerdictFor(t: Tables, a: Attempt): Verdict {
    if a.address.None? then BadAddress
    else if Blocked(LimitOf(t, a.address.value, a.now), a.now) then AddressBlocked
    else if a.email.None? || a.email.value !in t.accounts then NoSuchAccount
    else
      var u := t.accounts[a.email.value];
      if !u.active || !u.superAdmin then Ineligible
      else if StillLocked(u, a.now) then AccountLocked
      else if !FactorsValid(u, a) then WrongFactors
      else Granted
  }

  function AfterFactors(c: Config, u: Account, granted: bool, now: int): Account {
    var ready := if u.lockedUntil.Some? then u.(failed := 0, lockedUntil := None) else u;
    if granted then ready.(failed := 0, lockedUntil := None, lastLogin := Some(now))
    else
      var counted := ready.(failed := ready.failed + 1);
      if counted.failed >= c.accountMax then counted.(lockedUntil := Some(now + c.accountLockout)) else counted
  }

  function AfterLogin(c: Config, t: Tables, a: Attempt): Tables {
    var v := VerdictFor(t, a);
    if v.BadAddress? then t
    else
      var l := LimitOf(t, a.address.value, a.now);
      if v.AddressBlocked? then t.(limits := t.limits[a.address.value := l])
      else
        var reset := ResetIfElapsed(c, l, a.now);
        var limit := if v.CountsAgainstAddress() then WithFailure(c, reset, a.now) else reset;
        var accounts :=
          if v.WrongFactors? || v.Granted?
          then t.accounts[a.email.value := AfterFactors(c, t.accounts[a.email.value], v.Granted?, a.now)]
          else t.accounts;
        Tables(t.limits[a.address.value := limit], accounts)
  }

  lemma ResetLeavesNoBlock(c: Config)
    ensures forall l, now :: !Blocked(l, now) ==> !Blocked(ResetIfElapsed(c, l, now), now)
  {
  }

  // ---------- The program ----------

  class LocalAuthenticator {
    const c: Config
    var limits: map<Address, Limit>
    var accounts: map<Email, Account>

    function Db(): Tables
      reads this
    {
      Tables(limits, accounts)
    }

    constructor (c: Config)
      ensures this.c == c && Db() == Tables(map[], map[])
    {
      this.c := c;
      limits, accounts := map[], map[];
    }

    method LoadIpLimit(address: Address, now: int)
      modifies this`limits
      ensures limits == old(limits)[address := LimitOf(old(Db()), address, now)]
    {
      if address !in limits {
        limits := limits[address := Limit(now, 0, None)];
      }
    }

    method ResetIpLimitIfElapsed(address: Address, now: int)
      requires address in limits
      modifies this`limits
      ensures limits == old(limits)[address := ResetIfElapsed(c, old(limits)[address], now)]
    {
      var l := limits[address];
      if l.blockedUntil.Some? && now >= l.blockedUntil.value {
        limits := limits[address := Limit(now, 0, None)];
      } else if now >= l.windowStart + c.ipWindow {
        limits := limits[address := Limit(now, 0, l.blockedUntil)];
      }
    }

    method RecordIpFailure(address: Address, now: int)
      requires address in limits
      modifies this`limits
      ensures limits == old(limits)[address := WithFailure(c, old(limits)[address], now)]
    {
      ResetIpLimitIfElapsed(address, now);
      var l := limits[address];
      limits := limits[address := l.(attempts := l.attempts + 1)];
      if limits[address].attempts >= c.ipMax {
        limits := limits[address := limits[address].(blockedUntil := Some(now + c.ipLockout))];
      }
    }

    method Authenticate(a: Attempt) returns (user: Option<Email>)
      modifies this
      ensures Db() == AfterLogin(c, old(Db()), a)
      ensures user == if VerdictFor(old(Db()), a).Granted? then a.email else None
    {
      hide WithFailure, ResetIfElapsed, AfterFactors, FactorsValid;
      ResetLeavesNoBlock(c);
      if a.address.None? {
        return None;
      }
      var address := a.address.value;
      LoadIpLimit(address, a.now);
      if limits[address].blockedUntil.Some? && a.now < limits[address].blockedUntil.value {
        return None;
      }
      ResetIpLimitIfElapsed(address, a.now);
      var granted := CheckAccount(address, a);
      return if granted then a.email else None;
    }

    /** Everything behind the address gate. */
    method CheckAccount(address: Address, a: Attempt) returns (granted: bool)
      requires a.address == Some(address) && address in limits && !Blocked(limits[address], a.now)
      modifies this
      ensures granted == VerdictFor(old(Db()), a).Granted?
      ensures limits == if granted then old(limits)
              else old(limits)[address := WithFailure(c, old(limits)[address], a.now)]
      ensures accounts == if VerdictFor(old(Db()), a).WrongFactors? || granted
                          then old(accounts)[a.email.value := AfterFactors(c, old(accounts)[a.email.value], granted,
                                                                           a.now)]
                          else old(accounts)
    {
      if a.email.None? || a.email.value !in accounts {
        RecordIpFailure(address, a.now);
        return false;
      }
      var u := accounts[a.email.value];
      if !u.active || !u.superAdmin {
        RecordIpFailure(address, a.now);
        return false;
      }
      if u.lockedUntil.Some? {
        if a.now < u.lockedUntil.value {
          RecordIpFailure(address, a.now);
          return false;
        }
        u := u.(failed := 0, lockedUntil := None);
      }
      granted := CheckFactors(a.email.value, u, a);
      if !granted {
        RecordIpFailure(address, a.now);
      }
    }

    /** The factor checks on an account row whose expired lock, if any, is already lifted in `u`. */
    method CheckFactors(email: Email, u: Account, a: Attempt) returns (granted: bool)
      requires u.lockedUntil.None?
      modifies this`accounts
      ensures granted == FactorsValid(u, a)
      ensures accounts == old(accounts)[email := AfterFactors(c, u, granted, a.now)]
    {
      var codeValid := !u.enrolled;
      if a.passwordValid && u.enrolled {
        codeValid := a.codeValid;
      }
      if !a.passwordValid || !codeValid {
        var counted := u.(failed := u.failed + 1);
        if counted.failed >= c.accountMax {
          counted := counted.(lockedUntil := Some(a.now + c.accountLockout));
        }
        accounts := accounts[email := counted];
        return false;
      }
      accounts := accounts[email := u.(failed := 0, lockedUntil := None, lastLogin := Some(a.now))];
      return true;
    }
  }

  // ---------- Runs ----------

  /** A login, or an administrator creating an account or changing its role, activity or enrolment. */
  datatype Event =
    | Login(attempt: Attempt)
    | Administer(email: Email, active: bool, superAdmin: bool, enrolled: bool)

  function AfterEvent(c: Config, t: Tables, e: Event): Tables {
    match e
    case Login(a) => AfterLogin(c, t, a)
    case Administer(email, active, superAdmin, enrolled) =>
      var u := if email in t.accounts then t.accounts[email] else Account(true, true, false, 0, None, None);
      t.(accounts := t.accounts[email := u.(active := active, superAdmin := superAdmin, enrolled := enrolled)])
  }

  function After(c: Config, es: seq<Event>): Tables {
    if es == [] then Tables(map[], map[])
    else AfterEvent(c, After(c, es[..|es| - 1]), es[|es| - 1])
  }

  /** Login times never go back. */
  predicate Monotone(es: seq<Event>) {
    forall i, j :: 0 <= i < j < |es| && es[i].Login? && es[j].Login? ==> es[i].attempt.now <= es[j].attempt.now
  }

  function NewFailures(t: Tables, e: Event, address: Address): seq<int> {
    if e.Login? && e.attempt.address == Some(address) && VerdictFor(t, e.attempt).CountsAgainstAddress()
    then [e.attempt.now] else []
  }

  /** When a failure was recorded against `address`, in order. */
  function Failures(c: Config, es: seq<Event>, address: Address): seq<int> {
    if es == [] then []
    else Failures(c, es[..|es| - 1], address) + NewFailures(After(c, es[..|es| - 1]), es[|es| - 1], address)
  }

  datatype Check = Check(at: int, ok: bool)

  function NewChecks(t: Tables, e: Event, email: Email): seq<Check> {
    if e.Login? && e.attempt.email == Some(email)
    then match VerdictFor(t, e.attempt)
         case WrongFactors => [Check(e.attempt.now, false)]
         case Granted => [Check(e.attempt.now, true)]
         case _ => []
    else []
  }

  /** The factor checks made on an account, in order. */
  function Checks(c: Config, es: seq<Event>, email: Email): seq<Check> {
    if es == [] then []
    else Checks(c, es[..|es| - 1], email) + NewChecks(After(c, es[..|es| - 1]), es[|es| - 1], email)
  }

  // ---------- The address throttle ----------

  function Gap(c: Config): nat {
    if c.ipWindow < c.ipLockout then c.ipWindow else c.ipLockout
  }

  ghost predicate Sorted(h: seq<int>, clock: int) {
    && (forall i, j :: 0 <= i <= j < |h| ==> h[i] <= h[j])
    && (forall i :: 0 <= i < |h| ==> h[i] <= clock)
  }

  /** The counter covers the latest failures, and the block is set exactly when it is full. */
  ghost predicate CounterInv(c: Config, l: Limit, h: seq<int>, clock: int)
    requires c.Valid()
  {
    && Sorted(h, clock) && l.windowStart <= clock
    && l.attempts <= c.ipMax && l.attempts <= |h|
    && (l.blockedUntil.None? <==> l.attempts < c.ipMax)
    && (l.blockedUntil.Some? ==> l.blockedUntil.value == h[|h| - 1] + c.ipLockout)
    && (forall i :: 0 <= i < |h| - l.attempts ==> h[i] <= l.windowStart)
  }

  /** A full count of failures before the current window lies at least a gap before it. */
  ghost predicate WindowInv(c: Config, l: Limit, h: seq<int>)
    requires c.Valid()
  {
    l.attempts <= |h| - c.ipMax ==> h[|h| - l.attempts - c.ipMax] + Gap(c) <= l.windowStart
  }

  /** Any `2 * ipMax` consecutive failures span at least a gap. */
  ghost predicate Spaced(c: Config, h: seq<int>)
    requires c.Valid()
  {
    forall i :: 0 <= i && i + 2 * c.ipMax - 1 < |h| ==> h[i] + Gap(c) <= h[i + 2 * c.ipMax - 1]
  }

  /** With a block of at least one unit, no more than `ipMax` failures fall on one instant. */
  ghost predicate InstantInv(c: Config, l: Limit, h: seq<int>)
    requires l.attempts <= |h|
  {
    c.ipLockout >= 1 ==>
      && (l.attempts > 0 ==> h[|h| - 1] < l.windowStart + c.ipWindow)
      && (forall i :: 0 <= i < |h| - l.attempts ==> h[i] < l.windowStart)
      && forall i, j :: 0 <= i && i + c.ipMax <= j < |h| ==> h[i] < h[j]
  }

  ghost predicate LimitInv(c: Config, l: Limit, h: seq<int>, clock: int) {
    c.Valid() && CounterInv(c, l, h, clock) && WindowInv(c, l, h) && Spaced(c, h) && InstantInv(c, l, h)
  }

  lemma ResetKeepsLimit(c: Config, l: Limit, h: seq<int>, clock: int, now: int)
    requires LimitInv(c, l, h, clock) && clock <= now && !Blocked(l, now)
    ensures LimitInv(c, ResetIfElapsed(c, l, now), h, now)
    ensures ResetIfElapsed(c, l, now).blockedUntil.None?
    ensures now < ResetIfElapsed(c, l, now).windowStart + c.ipWindow
  {
    var n := |h|;
    if n >= c.ipMax && ResetIfElapsed(c, l, now) != l {
      if l.blockedUntil.Some? {
        assert h[n - c.ipMax] <= h[n - 1];
      } else {
        assert h[n - c.ipMax] <= l.windowStart;
      }
    }
  }

  lemma FailureKeepsCounter(c: Config, l: Limit, h: seq<int>, now: int)
    requires c.Valid() && CounterInv(c, l, h, now) && l.blockedUntil.None? && now < l.windowStart + c.ipWindow
    ensures CounterInv(c, WithFailure(c, l, now), h + [now], now)
    ensures WithFailure(c, l, now).windowStart == l.windowStart && WithFailure(c, l, now).attempts == l.attempts + 1
  {
    var h' := h + [now];
    assert forall i :: 0 <= i < |h| ==> h'[i] == h[i];
  }

  lemma FailureKeepsSpacing(c: Config, l: Limit, h: seq<int>, now: int)
    requires c.Valid() && CounterInv(c, l, h, now) && WindowInv(c, l, h) && Spaced(c, h) && l.attempts < c.ipMax
    ensures Spaced(c, h + [now])
  {
    var n, h', span := |h|, h + [now], 2 * c.ipMax - 1;
    forall i | 0 <= i && i + span < |h'|
      ensures h'[i] + Gap(c) <= h'[i + span]
    {
      if i + span < n {
        assert h[i] + Gap(c) <= h[i + span];
      } else {
        var k := n - l.attempts - c.ipMax;
        assert h[i] <= h[k] && h[k] + Gap(c) <= l.windowStart;
      }
    }
  }

  lemma FailureKeepsInstants(c: Config, l: Limit, h: seq<int>, now: int)
    requires c.Valid() && CounterInv(c, l, h, now) && InstantInv(c, l, h) && l.blockedUntil.None?
    requires now < l.windowStart + c.ipWindow
    ensures l.attempts + 1 <= |h| + 1 && InstantInv(c, l.(attempts := l.attempts + 1), h + [now])
  {
    var h' := h + [now];
    assert forall i :: 0 <= i < |h| ==> h'[i] == h[i];
  }

  lemma FailureKeepsLimit(c: Config, l: Limit, h: seq<int>, now: int)
    requires LimitInv(c, l, h, now) && l.blockedUntil.None? && now < l.windowStart + c.ipWindow
    ensures LimitInv(c, WithFailure(c, l, now), h + [now], now)
  {
    FailureKeepsCounter(c, l, h, now);
    FailureKeepsSpacing(c, l, h, now);
    FailureKeepsInstants(c, l, h, now);
  }

  /** The counter of `address`, if any, is in step with its failures `h`. */
  ghost predicate AddressTracked(c: Config, t: Tables, address: Address, h: seq<int>, clock: int) {
    if address in t.limits then LimitInv(c, t.limits[address], h, clock) else h == []
  }

  lemma {:induction false} RunTracksAddresses(c: Config, es: seq<Event>, address: Address, clock: int)
    requires c.Valid() && Monotone(es)
    requires forall i :: 0 <= i < |es| && es[i].Login? ==> es[i].attempt.now <= clock
    ensures AddressTracked(c, After(c, es), address, Failures(c, es, address), clock)
  {
    if es != [] {
      var rest, e := es[..|es| - 1], es[|es| - 1];
      RunTracksAddresses(c, rest, address, if e.Login? then e.attempt.now else clock);
      EventKeepsAddress(c, After(c, rest), e, address, Failures(c, rest, address), clock);
    }
  }

  lemma EventKeepsAddress(c: Config, t: Tables, e: Event, address: Address, h: seq<int>, clock: int)
    requires c.Valid() && (e.Login? ==> e.attempt.now <= clock)
    requires AddressTracked(c, t, address, h, if e.Login? then e.attempt.now else clock)
    ensures AddressTracked(c, AfterEvent(c, t, e), address, h + NewFailures(t, e, address), clock)
  {
    if e.Login? && e.attempt.address == Some(address) {
      LoginKeepsLimit(c, t, e.attempt, address, h, clock);
    } else {
      assert h + [] == h;
      assert address in AfterEvent(c, t, e).limits <==> address in t.limits;
    }
  }

  lemma LoginKeepsLimit(c: Config, t: Tables, a: Attempt, address: Address, h: seq<int>, clock: int)
    requires c.Valid() && a.address == Some(address) && a.now <= clock
    requires if address in t.limits then LimitInv(c, t.limits[address], h, a.now) else h == []
    ensures var h' := h + if VerdictFor(t, a).CountsAgainstAddress() then [a.now] else [];
            address in AfterLogin(c, t, a).limits && LimitInv(c, AfterLogin(c, t, a).limits[address], h', clock)
  {
    var l := LimitOf(t, address, a.now);
    var l' := AfterLogin(c, t, a).limits[address];
    assert h + [] == h;
    assert LimitInv(c, l, h, a.now);
    if VerdictFor(t, a).AddressBlocked? {
      assert l' == l;
      LaterClock(c, l', h, a.now, clock);
    } else {
      ResetKeepsLimit(c, l, h, a.now, a.now);
      if VerdictFor(t, a).CountsAgainstAddress() {
        FailureKeepsLimit(c, ResetIfElapsed(c, l, a.now), h, a.now);
        LaterClock(c, l', h + [a.now], a.now, clock);
      } else {
        LaterClock(c, l', h, a.now, clock);
      }
    }
  }

  lemma LaterClock(c: Config, l: Limit, h: seq<int>, clock: int, later: int)
    requires LimitInv(c, l, h, clock) && clock <= later
    ensures LimitInv(c, l, h, later)
  {
  }

  /**
   The bound the two counters imply together: within any time shorter than both the window and the
   block, one address has at most `2 * ipMax - 1` recorded failures.
   */
  lemma AddressFailuresAreBounded(c: Config, es: seq<Event>, address: Address, i: nat, j: nat)
    requires c.Valid() && Monotone(es) && i <= j < |Failures(c, es, address)|
    requires Failures(c, es, address)[j] < Failures(c, es, address)[i] + c.ipWindow
    requires Failures(c, es, address)[j] < Failures(c, es, address)[i] + c.ipLockout
    ensures j - i + 1 <= 2 * c.ipMax - 1
  {
    var clock, h := LastLogin(es), Failures(c, es, address);
    RunTracksAddresses(c, es, address, clock);
    if j - i + 1 >= 2 * c.ipMax {
      ManyFailuresSpanAGap(c, h, clock, i, j);
    }
  }

  lemma ManyFailuresSpanAGap(c: Config, h: seq<int>, clock: int, i: nat, j: nat)
    requires c.Valid() && Sorted(h, clock) && Spaced(c, h) && j < |h| && j - i + 1 >= 2 * c.ipMax
    ensures h[i] + Gap(c) <= h[j]
  {
    assert h[i] + Gap(c) <= h[i + 2 * c.ipMax - 1];
  }

  ghost function LastLogin(es: seq<Event>): (clock: int)
    ensures forall i :: 0 <= i < |es| && es[i].Login? ==> es[i].attempt.now <= clock
  {
    if es == [] then 0
    else
      var rest, e := LastLogin(es[..|es| - 1]), es[|es| - 1];
      if e.Login? && e.attempt.now > rest then e.attempt.now else rest
  }

  // ---------- The bound is attained ----------

  /** A run whose logins end by `clock`, with failures `h` and `n` of them in the window that started at `start`. */
  ghost predicate Reached(c: Config, es: seq<Event>, address: Address, start: int, n: nat, h: seq<int>, clock: int) {
    && Monotone(es) && (forall i :: 0 <= i < |es| && es[i].Login? ==> es[i].attempt.now <= clock)
    && Failures(c, es, address) == h
    && address in After(c, es).limits
    && var l := After(c, es).limits[address];
    && l.windowStart == start && l.attempts == n && (n < c.ipMax ==> l.blockedUntil.None?)
  }

  lemma OneFailure(c: Config, es: seq<Event>, address: Address, start: int, n: nat, h: seq<int>, clock: int, now: int)
    returns (es': seq<Event>)
    requires c.Valid() && Reached(c, es, address, start, n, h, clock) && n < c.ipMax && clock <= now
    ensures if now < start + c.ipWindow then Reached(c, es', address, start, n + 1, h + [now], now)
            else Reached(c, es', address, now, 1, h + [now], now)
  {
    var e := Login(Attempt(Some(address), None, false, false, now));
    OneMore(c, es, e, address);
    es' := es + [e];
  }

  lemma {:induction false} ManyFailures(c: Config, es: seq<Event>, address: Address, start: int, n: nat, h: seq<int>,
                                        clock: int, now: int, k: nat)
    returns (es': seq<Event>)
    requires c.Valid() && Reached(c, es, address, start, n, h, clock) && n + k <= c.ipMax &&
             clock <= now < start + c.ipWindow
    ensures Reached(c, es', address, start, n + k, h + Repeat(now, k), now)
    decreases k
  {
    if k == 0 {
      assert h + Repeat(now, 0) == h;
      es' := es;
    } else {
      var es1 := OneFailure(c, es, address, start, n, h, clock, now);
      es' := ManyFailures(c, es1, address, start, n + 1, h + [now], now, now, k - 1);
      assert h + [now] + Repeat(now, k - 1) == h + Repeat(now, k);
    }
  }

  function Repeat(x: int, k: nat): seq<int> {
    seq(k, _ => x)
  }

  lemma GoodLogin(c: Config) returns (es: seq<Event>)
    requires c.Valid()
    ensures Reached(c, es, "a", 0, 0, [], 0)
  {
    var e0, e1 := Administer("u", true, true, false), Login(Attempt(Some("a"), Some("u"), true, false, 0));
    OneMore(c, [], e0, "a");
    OneMore(c, [e0], e1, "a");
    es := [e0, e1];
    assert [] + [e0] == [e0] && [e0] + [e1] == es;
    assert After(c, [e0]) == Tables(map[], map["u" := Account(true, true, false, 0, None, None)]);
    assert VerdictFor(After(c, [e0]), e1.attempt) == Granted;
  }

  function WorstTimes(c: Config): seq<int>
    requires c.Valid()
  {
    Repeat(c.ipWindow - 1, c.ipMax - 1) + [c.ipWindow] + Repeat(c.ipWindow, c.ipMax - 1)
  }

  /** A good login at time 0, then a nearly full window at its last moment. */
  lemma NearlyFull(c: Config) returns (es: seq<Event>)
    requires c.Valid()
    ensures Reached(c, es, "a", 0, c.ipMax - 1, Repeat(c.ipWindow - 1, c.ipMax - 1), c.ipWindow - 1)
  {
    var es0 := GoodLogin(c);
    es := ManyFailures(c, es0, "a", 0, 0, [], 0, c.ipWindow - 1, c.ipMax - 1);
    assert [] + Repeat(c.ipWindow - 1, c.ipMax - 1) == Repeat(c.ipWindow - 1, c.ipMax - 1);
  }

  /** Then the window has elapsed, and a new one fills at once. */
  lemma NextFull(c: Config, es: seq<Event>, h: seq<int>) returns (es': seq<Event>)
    requires c.Valid() && Reached(c, es, "a", 0, c.ipMax - 1, h, c.ipWindow - 1)
    ensures Reached(c, es', "a", c.ipWindow, c.ipMax, h + [c.ipWindow] + Repeat(c.ipWindow, c.ipMax - 1), c.ipWindow)
  {
    var es1 := OneFailure(c, es, "a", 0, c.ipMax - 1, h, c.ipWindow - 1, c.ipWindow);
    es' := ManyFailures(c, es1, "a", c.ipWindow, 1, h + [c.ipWindow], c.ipWindow, c.ipWindow, c.ipMax - 1);
  }

  /** For every configuration some run has this many failures, within one unit of time. */
  lemma AddressBoundIsAttained(c: Config)
    requires c.Valid()
    ensures |WorstTimes(c)| == 2 * c.ipMax - 1
    ensures forall at :: at in WorstTimes(c) ==> c.ipWindow - 1 <= at <= c.ipWindow
    ensures exists es :: Monotone(es) && Failures(c, es, "a") == WorstTimes(c)
  {
    var es1 := NearlyFull(c);
    var es := NextFull(c, es1, Repeat(c.ipWindow - 1, c.ipMax - 1));
  }

  /** The run has `2 * ipMax - 1` failures of the address within a time shorter than both the window and the block. */
  ghost predicate AttainsBound(c: Config, es: seq<Event>, address: Address, i: nat)
    requires c.Valid()
  {
    var h := Failures(c, es, address);
    && Monotone(es) && i + 2 * c.ipMax - 2 < |h|
    && h[i + 2 * c.ipMax - 2] < h[i] + c.ipWindow && h[i + 2 * c.ipMax - 2] < h[i] + c.ipLockout
  }

  lemma InstantsAreBounded(c: Config, es: seq<Event>, address: Address, i: nat, j: nat)
    requires c.Valid() && Monotone(es) && c.ipLockout >= 1
    requires i + c.ipMax <= j < |Failures(c, es, address)|
    ensures Failures(c, es, address)[i] < Failures(c, es, address)[j]
  {
    RunTracksAddresses(c, es, address, LastLogin(es));
  }

  /**
   The bound is sharp exactly when window and block last at least two units of the clock; with one unit a single
   instant is left, which holds at most `ipMax` failures.
   */
  lemma AddressBoundIsSharpExactly(c: Config)
    requires c.Valid()
    ensures (exists es, address, i :: AttainsBound(c, es, address, i)) <==>
            Gap(c) >= 2 || (Gap(c) == 1 && c.ipMax == 1)
  {
    if Gap(c) >= 2 || (Gap(c) == 1 && c.ipMax == 1) {
      AddressBoundIsAttained(c);
      var es :| Monotone(es) && Failures(c, es, "a") == WorstTimes(c);
      var h, k := WorstTimes(c), 2 * c.ipMax - 2;
      assert h[0] in h && h[k] in h;
      assert AttainsBound(c, es, "a", 0);
    }
    forall es, address, i: nat | AttainsBound(c, es, address, i)
      ensures Gap(c) >= 2 || (Gap(c) == 1 && c.ipMax == 1)
    {
      SharpnessNeedsTime(c, es, address, i);
    }
  }

  lemma SharpnessNeedsTime(c: Config, es: seq<Event>, address: Address, i: nat)
    requires c.Valid() && AttainsBound(c, es, address, i)
    ensures Gap(c) >= 2 || (Gap(c) == 1 && c.ipMax == 1)
  {
    var h := Failures(c, es, address);
    RunTracksAddresses(c, es, address, LastLogin(es));
    assert h[i] <= h[i + 2 * c.ipMax - 2];
    if c.ipMax >= 2 {
      InstantsAreBounded(c, es, address, i, i + 2 * c.ipMax - 2);
    }
  }

  lemma OneMore(c: Config, es: seq<Event>, e: Event, address: Address)
    ensures After(c, es + [e]) == AfterEvent(c, After(c, es), e)
    ensures Failures(c, es + [e], address) == Failures(c, es, address) + NewFailures(After(c, es), e, address)
  {
    assert (es + [e])[..|es|] == es;
  }

  // ---------- The account lockout ----------

  predicate AllFail(h: seq<Check>, from: nat, to: nat)
    requires from <= to <= |h|
  {
    forall i :: from <= i < to ==> !h[i].ok
  }

  /** The failure counter covers the latest failing checks; an earlier failing check ended in a lockout. */
  ghost predicate TallyInv(c: Config, u: Account, h: seq<Check>, clock: int)
    requires c.Valid()
  {
    && (forall i, j :: 0 <= i <= j < |h| ==> h[i].at <= h[j].at) && (forall i :: 0 <= i < |h| ==> h[i].at <= clock)
    && u.failed <= c.accountMax && u.failed <= |h| && AllFail(h, |h| - u.failed, |h|)
    && (u.lockedUntil.None? <==> u.failed < c.accountMax)
    && (u.lockedUntil.Some? ==> u.lockedUntil.value == h[|h| - 1].at + c.accountLockout)
    && (u.failed < |h| && !h[|h| - u.failed - 1].ok ==>
          u.failed >= 1 && h[|h| - u.failed - 1].at + c.accountLockout <= h[|h| - u.failed].at)
  }

  ghost predicate Spread(c: Config, h: seq<Check>) {
    forall i :: 0 <= i && i + c.accountMax < |h| && AllFail(h, i, i + c.accountMax + 1) ==>
      h[i].at + c.accountLockout <= h[i + c.accountMax].at
  }

  ghost predicate AccountInv(c: Config, u: Account, h: seq<Check>, clock: int) {
    c.Valid() && TallyInv(c, u, h, clock) && Spread(c, h)
  }

  lemma CheckKeepsTally(c: Config, u: Account, h: seq<Check>, ok: bool, now: int)
    requires c.Valid() && TallyInv(c, u, h, now) && !StillLocked(u, now)
    ensures TallyInv(c, AfterFactors(c, u, ok, now), h + [Check(now, ok)], now)
  {
    var h' := h + [Check(now, ok)];
    assert forall i :: 0 <= i < |h| ==> h'[i] == h[i];
  }

  /** After a full count of failures a further check comes at least a lockout after the first of them. */
  lemma NextCheckIsLate(c: Config, u: Account, h: seq<Check>, now: int)
    requires c.Valid() && TallyInv(c, u, h, now) && !StillLocked(u, now)
    requires |h| >= c.accountMax && AllFail(h, |h| - c.accountMax, |h|)
    ensures h[|h| - c.accountMax].at + c.accountLockout <= now
  {
    var n, i := |h|, |h| - c.accountMax;
    if u.lockedUntil.Some? {
      assert h[i].at <= h[n - 1].at;
    } else {
      assert !h[n - u.failed - 1].ok;
      assert h[i].at <= h[n - u.failed - 1].at;
    }
  }

  lemma CheckKeepsSpread(c: Config, u: Account, h: seq<Check>, ok: bool, now: int)
    requires AccountInv(c, u, h, now) && !StillLocked(u, now)
    ensures Spread(c, h + [Check(now, ok)])
  {
    var n, h' := |h|, h + [Check(now, ok)];
    forall i | 0 <= i && i + c.accountMax < |h'| && AllFail(h', i, i + c.accountMax + 1)
      ensures h'[i].at + c.accountLockout <= h'[i + c.accountMax].at
    {
      assert forall k :: i <= k < i + c.accountMax ==> h'[k] == h[k];
      if i + c.accountMax < n {
        assert h'[i + c.accountMax] == h[i + c.accountMax];
        assert AllFail(h, i, i + c.accountMax + 1);
      } else {
        assert AllFail(h, i, n);
        NextCheckIsLate(c, u, h, now);
      }
    }
  }

  /** The counter of `email`, if it has an account, is in step with its factor checks `h`. */
  ghost predicate AccountTracked(c: Config, t: Tables, email: Email, h: seq<Check>, clock: int) {
    if email in t.accounts then AccountInv(c, t.accounts[email], h, clock) else h == []
  }

  lemma {:induction false} RunTracksAccounts(c: Config, es: seq<Event>, email: Email, clock: int)
    requires c.Valid() && Monotone(es)
    requires forall i :: 0 <= i < |es| && es[i].Login? ==> es[i].attempt.now <= clock
    ensures AccountTracked(c, After(c, es), email, Checks(c, es, email), clock)
  {
    if es != [] {
      var rest, e := es[..|es| - 1], es[|es| - 1];
      RunTracksAccounts(c, rest, email, if e.Login? then e.attempt.now else clock);
      EventKeepsAccount(c, After(c, rest), e, email, Checks(c, rest, email), clock);
    }
  }

  lemma EventKeepsAccount(c: Config, t: Tables, e: Event, email: Email, h: seq<Check>, clock: int)
    requires c.Valid() && (e.Login? ==> e.attempt.now <= clock)
    requires AccountTracked(c, t, email, h, if e.Login? then e.attempt.now else clock)
    ensures AccountTracked(c, AfterEvent(c, t, e), email, h + NewChecks(t, e, email), clock)
  {
    if NewChecks(t, e, email) != [] {
      LoginKeepsAccount(c, t, e.attempt, email, h);
      var u', h' := AfterLogin(c, t, e.attempt).accounts[email], h + NewChecks(t, e, email);
      assert AccountInv(c, u', h', e.attempt.now);
      SameCounters(c, u', u', h', e.attempt.now, clock);
    } else {
      assert h + NewChecks(t, e, email) == h;
      OtherEventKeepsCounters(c, t, e, email);
      if email in t.accounts {
        var u' := AfterEvent(c, t, e).accounts[email];
        SameCounters(c, t.accounts[email], u', h, if e.Login? then e.attempt.now else clock, clock);
      }
    }
  }

  lemma OtherEventKeepsCounters(c: Config, t: Tables, e: Event, email: Email)
    requires NewChecks(t, e, email) == []
    ensures var t' := AfterEvent(c, t, e);
            && (email in t.accounts ==> email in t'.accounts)
            && (email in t'.accounts ==>
                  var u := if email in t.accounts then t.accounts[email] else Account(true, true, false, 0, None, None);
                  t'.accounts[email].failed == u.failed && t'.accounts[email].lockedUntil == u.lockedUntil)
  {
  }

  lemma SameCounters(c: Config, u: Account, u': Account, h: seq<Check>, clock: int, later: int)
    requires AccountInv(c, u, h, clock) && clock <= later
    requires u'.failed == u.failed && u'.lockedUntil == u.lockedUntil
    ensures AccountInv(c, u', h, later)
  {
  }

  lemma LoginKeepsAccount(c: Config, t: Tables, a: Attempt, email: Email, h: seq<Check>)
    requires NewChecks(t, Login(a), email) != []
    requires AccountInv(c, t.accounts[email], h, a.now)
    ensures email in AfterLogin(c, t, a).accounts
    ensures AccountInv(c, AfterLogin(c, t, a).accounts[email], h + NewChecks(t, Login(a), email), a.now)
  {
    CheckKeepsTally(c, t.accounts[email], h, VerdictFor(t, a).Granted?, a.now);
    CheckKeepsSpread(c, t.accounts[email], h, VerdictFor(t, a).Granted?, a.now);
  }

  /** Any `accountMax + 1` consecutive failed factor checks on one account span at least the lockout. */
  lemma GuessesAreSpread(c: Config, es: seq<Event>, email: Email, i: nat)
    requires c.Valid() && Monotone(es) && i + c.accountMax < |Checks(c, es, email)|
    requires AllFail(Checks(c, es, email), i, i + c.accountMax + 1)
    ensures Checks(c, es, email)[i].at + c.accountLockout <= Checks(c, es, email)[i + c.accountMax].at
  {
    RunTracksAccounts(c, es, email, LastLogin(es));
  }

  /** Exactly when a user is returned: every gate is open and every enrolled factor is right. */
  lemma GrantedExactlyWhen(t: Tables, a: Attempt)
    ensures VerdictFor(t, a).Granted? <==>
            && a.address.Some? && a.email.Some? && a.email.value in t.accounts
            && (a.address.value in t.limits && t.limits[a.address.value].blockedUntil.Some? ==>
                  t.limits[a.address.value].blockedUntil.value <= a.now)
            && var u := t.accounts[a.email.value];
            && u.active && u.superAdmin
            && (u.lockedUntil.Some? ==> u.lockedUntil.value <= a.now)
            && a.passwordValid && (a.codeValid || !u.enrolled)
  {
  }
}
