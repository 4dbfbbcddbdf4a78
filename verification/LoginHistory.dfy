/**
 What the counters of the login throttle count, told by the logins alone: which submissions were refused, and which of
 them were guesses at an account's factors.
 */
module LoginHistory {
  import opened Wrappers
  import opened LoginThrottle

  // ---------- Logins, by what was submitted and stored ----------

  /** No block stands against the address at this time. */
  predicate AddressOpen(t: Tables, address: Address, now: int) {
    address in t.limits && t.limits[address].blockedUntil.Some? ==> t.limits[address].blockedUntil.value <= now
  }

  /** The account exists, is an active super-admin's, and no lockout stands against it. */
  predicate AccountOpen(t: Tables, email: Email, now: int) {
    && email in t.accounts && t.accounts[email].active && t.accounts[email].superAdmin
    && (t.accounts[email].lockedUntil.Some? ==> t.accounts[email].lockedUntil.value <= now)
  }

  /** The password is right, and so is the code of an account that has one. */
  predicate RightFactors(u: Account, a: Attempt) {
    a.passwordValid && (a.codeValid || !u.enrolled)
  }

  /** A login from the address reaches an account and its factors are checked. */
  predicate IsGuess(t: Tables, a: Attempt, email: Email) {
    && a.address.Some? && AddressOpen(t, a.address.value, a.now)
    && a.email == Some(email) && AccountOpen(t, email, a.now)
  }

  predicate IsGranted(t: Tables, a: Attempt) {
    a.email.Some? && IsGuess(t, a, a.email.value) && RightFactors(t.accounts[a.email.value], a)
  }

  /** A login from the address that is let in at the address gate and returns no user. */
  predicate IsRefusal(t: Tables, a: Attempt, address: Address) {
    a.address == Some(address) && AddressOpen(t, address, a.now) && !IsGranted(t, a)
  }

  // ---------- One login ----------

  /** Failures counted against the address in the window of this time. */
  function Counted(c: Config, t: Tables, address: Address, now: int): nat {
    if address !in t.limits then 0
    else
      var l := t.limits[address];
      if l.blockedUntil.Some? || now >= l.windowStart + c.ipWindow then 0 else l.attempts
  }

  /**
   A refused login adds exactly one failure to the count of its address, whatever was wrong, and the one that fills the
   count blocks the address for the block time; a granted one adds none.
   */
  lemma RefusalsAreCounted(c: Config, t: Tables, a: Attempt, address: Address)
    requires a.address == Some(address) && AddressOpen(t, address, a.now)
    ensures var t', before := AfterLogin(c, t, a), Counted(c, t, address, a.now);
            && address in t'.limits
            && t'.limits[address].attempts == before + (if IsGranted(t, a) then 0 else 1)
            && (!IsGranted(t, a) ==>
                  t'.limits[address].blockedUntil == if before + 1 >= c.ipMax then Some(a.now + c.ipLockout) else None)
            && (IsGranted(t, a) ==> t'.limits[address].blockedUntil == None)
  {
    hide FactorsValid, AfterFactors;
    GrantedIsGranted(t, a);
  }

  lemma GrantedIsGranted(t: Tables, a: Attempt)
    ensures VerdictFor(t, a).Granted? <==> IsGranted(t, a)
  {
    GrantedExactlyWhen(t, a);
    hide VerdictFor;
  }

  /** A login touches no row but those of its own address and of the account it guesses at. */
  lemma OthersAreUntouched(c: Config, t: Tables, a: Attempt)
    ensures var t' := AfterLogin(c, t, a);
            && (forall x :: a.address != Some(x) ==>
                  (x in t'.limits <==> x in t.limits) && (x in t.limits ==> t'.limits[x] == t.limits[x]))
            && (forall x :: x in t.limits && a.address == Some(x) && !AddressOpen(t, x, a.now) ==>
                  x in t'.limits && t'.limits[x] == t.limits[x])
            && t'.accounts.Keys == t.accounts.Keys
            && forall email :: email in t.accounts && !IsGuess(t, a, email) ==>
                 t'.accounts[email] == t.accounts[email]
  {
    hide FactorsValid, AfterFactors, WithFailure, ResetIfElapsed;
  }

  /**
   A guess at an account: wrong factors add exactly one to the failures since its last lockout, and the one that fills
   the count locks it; right ones clear both and are its last login.
   */
  lemma GuessesAreCounted(c: Config, t: Tables, a: Attempt, email: Email)
    requires IsGuess(t, a, email)
    ensures var u, u' := t.accounts[email], AfterLogin(c, t, a).accounts[email];
            var before := if u.lockedUntil.Some? then 0 else u.failed;
            if RightFactors(u, a)
            then u' == u.(failed := 0, lockedUntil := None, lastLogin := Some(a.now))
            else
              u' == u.(failed := before + 1,
                       lockedUntil := if before + 1 >= c.accountMax then Some(a.now + c.accountLockout) else None)
  {
    hide WithFailure, ResetIfElapsed;
  }

  // ---------- Every run ----------

  /** The times of the refused logins from the address, in order. */
  function Refusals(c: Config, es: seq<Event>, address: Address): seq<int> {
    if es == [] then []
    else
      var rest, e := es[..|es| - 1], es[|es| - 1];
      Refusals(c, rest, address) +
      if e.Login? && IsRefusal(After(c, rest), e.attempt, address) then [e.attempt.now] else []
  }

  /** In every run the failures recorded against an address are exactly its refused logins. */
  lemma {:induction false} FailuresAreTheRefusals(c: Config, es: seq<Event>, address: Address)
    ensures Failures(c, es, address) == Refusals(c, es, address)
  {
    if es != [] {
      var rest, e := es[..|es| - 1], es[|es| - 1];
      FailuresAreTheRefusals(c, rest, address);
      if e.Login? {
        RefusalIsCounted(After(c, rest), e.attempt, address);
      }
      hide IsRefusal, After;
    }
  }

  lemma RefusalIsCounted(t: Tables, a: Attempt, address: Address)
    ensures NewFailures(t, Login(a), address) == if IsRefusal(t, a, address) then [a.now] else []
  {
    GrantedIsGranted(t, a);
    hide IsGranted, FactorsValid;
  }

  /** The factor checks made on an account: when, and whether the factors were right. */
  function Guesses(c: Config, es: seq<Event>, email: Email): seq<Check> {
    if es == [] then []
    else
      var rest, e := es[..|es| - 1], es[|es| - 1];
      var t := After(c, rest);
      Guesses(c, rest, email) +
      if e.Login? && IsGuess(t, e.attempt, email)
      then [Check(e.attempt.now, RightFactors(t.accounts[email], e.attempt))] else []
  }

  /** In every run the factor checks of an account are exactly the logins that reached it. */
  lemma {:induction false} ChecksAreTheGuesses(c: Config, es: seq<Event>, email: Email)
    ensures Checks(c, es, email) == Guesses(c, es, email)
  {
    if es != [] {
      var rest, e := es[..|es| - 1], es[|es| - 1];
      ChecksAreTheGuesses(c, rest, email);
      if e.Login? {
        GuessIsChecked(After(c, rest), e.attempt, email);
      }
      hide IsGuess, RightFactors, After;
    }
  }

  lemma GuessIsChecked(t: Tables, a: Attempt, email: Email)
    ensures NewChecks(t, Login(a), email) ==
            if IsGuess(t, a, email) then [Check(a.now, RightFactors(t.accounts[email], a))] else []
  {
  }

  function LastRight(h: seq<Check>): Option<int> {
    if h == [] then None
    else if h[|h| - 1].ok then Some(h[|h| - 1].at)
    else LastRight(h[..|h| - 1])
  }

  /** In every run an account's last login is the last of its guesses with the right factors. */
  lemma {:induction false} LastLoginIsTheLastRightGuess(c: Config, es: seq<Event>, email: Email)
    requires email in After(c, es).accounts
    ensures After(c, es).accounts[email].lastLogin == LastRight(Guesses(c, es, email))
  {
    var rest, e := es[..|es| - 1], es[|es| - 1];
    var t, h := After(c, rest), Guesses(c, rest, email);
    if email in t.accounts {
      LastLoginIsTheLastRightGuess(c, rest, email);
    } else {
      NoGuessesYet(c, rest, email);
    }
    if e.Login? {
      OthersAreUntouched(c, t, e.attempt);
      if IsGuess(t, e.attempt, email) {
        GuessesAreCounted(c, t, e.attempt, email);
      }
      var ok := email in t.accounts && RightFactors(t.accounts[email], e.attempt);
      assert (h + [Check(e.attempt.now, ok)])[..|h|] == h;
    }
    assert h + [] == h;
    hide AfterLogin, RightFactors, IsGuess;
  }

  lemma {:induction false} NoGuessesYet(c: Config, es: seq<Event>, email: Email)
    requires email !in After(c, es).accounts
    ensures Guesses(c, es, email) == []
  {
    if es != [] {
      var rest, e := es[..|es| - 1], es[|es| - 1];
      if e.Login? {
        OthersAreUntouched(c, After(c, rest), e.attempt);
      }
      hide AfterLogin;
      NoGuessesYet(c, rest, email);
    }
  }

  /** So the bounds hold of logins as they were submitted: refused ones by address, wrong guesses by account. */
  lemma RefusalsAreBounded(c: Config, es: seq<Event>, address: Address, i: nat, j: nat)
    requires c.Valid() && Monotone(es) && i <= j < |Refusals(c, es, address)|
    requires Refusals(c, es, address)[j] < Refusals(c, es, address)[i] + c.ipWindow
    requires Refusals(c, es, address)[j] < Refusals(c, es, address)[i] + c.ipLockout
    ensures j - i + 1 <= 2 * c.ipMax - 1
  {
    FailuresAreTheRefusals(c, es, address);
    AddressFailuresAreBounded(c, es, address, i, j);
  }

  lemma WrongGuessesAreSpread(c: Config, es: seq<Event>, email: Email, i: nat)
    requires c.Valid() && Monotone(es) && i + c.accountMax < |Guesses(c, es, email)|
    requires forall k :: i <= k <= i + c.accountMax ==> !Guesses(c, es, email)[k].ok
    ensures Guesses(c, es, email)[i].at + c.accountLockout <= Guesses(c, es, email)[i + c.accountMax].at
  {
    ChecksAreTheGuesses(c, es, email);
    GuessesAreSpread(c, es, email, i);
  }
}
