/**
  Reconciling an external (Google) sign-in with the user store: sign the user in when
  an account with the provider's e-mail exists, register one otherwise.
 */
module OAuthAuthentication {
  import opened Wrappers
  import opened Identity
  import opened AuthDtos
  import PasswordAuth

  datatype Claim = Claim(claimType: string, value: string)

  const EmailClaimType: string := "http://schemas.xmlsoap.org/ws/2005/05/identity/claims/emailaddress"
  const NameClaimType: string := "http://schemas.xmlsoap.org/ws/2005/05/identity/claims/name"

  /**
    The outcome of the external handler. `claims` is None when there is no principal
    or it has no identity; otherwise it holds the first identity's claims.
   */
  datatype ExternalAuthResult = ExternalAuthResult(succeeded: bool, claims: Option<seq<Claim>>)

  /** The value of the first claim of type `t`, if any. */
  function FirstClaimValue(claims: seq<Claim>, t: string): (r: Option<string>)
    ensures r.None? <==> forall i | 0 <= i < |claims| :: claims[i].claimType != t
    ensures r.Some? ==> exists i | 0 <= i < |claims| ::
      claims[i] == Claim(t, r.value) && forall j | 0 <= j < i :: claims[j].claimType != t
  {
    if claims == [] then None
    else if claims[0].claimType == t then Some(claims[0].value)
    else
      var r := FirstClaimValue(claims[1..], t);
      assert r.Some? ==> exists i | 1 <= i < |claims| ::
        claims[i] == Claim(t, r.value) && forall j | 0 <= j < i :: claims[j].claimType != t
      by {
        if r.Some? {
          var i :| 0 <= i < |claims[1..]| && claims[1..][i] == Claim(t, r.value)
            && forall j | 0 <= j < i :: claims[1..][j].claimType != t;
          assert claims[i + 1] == Claim(t, r.value);
          assert forall j | 1 <= j < i + 1 :: claims[j].claimType != t by {
            forall j | 1 <= j < i + 1
              ensures claims[j].claimType != t
            {
              assert claims[j] == claims[1..][j - 1];
            }
          }
        }
      }
      r
  }

  function ClaimValue(claims: Option<seq<Claim>>, t: string): Option<string> {
    if claims.None? then None else FirstClaimValue(claims.value, t)
  }

  const NotSucceeded: AuthenticationResult := AuthenticationResult(false, false, false, None)

  /** AuthenticateOrRegisterAsync on the store's contents `m`. */
  function Reconciliation(m: Accounts, ext: ExternalAuthResult, now: int): Step<AuthenticationResult>
  {
    if !ext.succeeded then Step(NotSucceeded, m)
    else
      var email := ClaimValue(ext.claims, EmailClaimType);
      if email.None? || email.value == "" then Step(NotSucceeded, m)
      else if email.value !in m then
        var reg := PasswordAuth.Registration(m, email.value, None, ClaimValue(ext.claims, NameClaimType), false);
        if !reg.result.succeeded || reg.result.user.None? then Step(NotSucceeded.(user := reg.result.user), reg.accounts)
        else Step(AuthenticationResult(true, false, true, reg.result.user), reg.accounts)
      else
        var a := m[email.value];
        var r := AuthenticationResult(false, IsLockedOut(a, now), a.emailConfirmed, Some(a.user));
        if r.isEmailConfirmed && !r.isLockedOut then
          Step(r.(succeeded := true), m[email.value := ResetAccessFailedCount(a)])
        else
          var failed := AccessFailed(a, now);
          Step(if IsLockedOut(failed, now) then r.(isLockedOut := true) else r, m[email.value := failed])
  }

  method AuthenticateOrRegister(store: UserStore, ext: ExternalAuthResult, now: int) returns (r: AuthenticationResult)
    requires store.Valid()
    modifies store
    ensures store.Valid()
    ensures Step(r, store.accounts) == Reconciliation(old(store.accounts), ext, now)
  {
    r := NotSucceeded;

    if !ext.succeeded {
      return r;
    }

    var email := ClaimValue(ext.claims, EmailClaimType);
    if email.None? || email.value == "" {
      return r;
    }

    var user := store.FindByEmail(email.value);
    if user.None? {
      var credentials := new RegistrationCredentials(email.value, None, ClaimValue(ext.claims, NameClaimType));
      var created := PasswordAuth.Register(store, credentials, false);
      if !created.succeeded || created.user.None? {
        r := r.(user := created.user);
      } else {
        r := r.(user := created.user, succeeded := true, isEmailConfirmed := true, isLockedOut := false);
      }
    } else {
      var address := user.value.email;
      var confirmed := store.IsEmailConfirmed(address);
      var lockedOut := store.IsLockedOutAt(address, now);
      r := r.(user := user, isEmailConfirmed := confirmed, isLockedOut := lockedOut);
      if ext.succeeded && r.isEmailConfirmed && !r.isLockedOut {
        r := r.(succeeded := true);
        store.ResetAccessFailedCountOf(address);
      } else {
        store.AccessFailedOf(address, now);
        var nowLockedOut := store.IsLockedOutAt(address, now);
        if nowLockedOut {
          r := r.(isLockedOut := true);
        }
      }
    }
  }

  /** A failed external sign-in, or one without an e-mail claim, changes nothing. */
  lemma NoEmailNoChange(m: Accounts, ext: ExternalAuthResult, now: int)
    requires !ext.succeeded || ClaimValue(ext.claims, EmailClaimType) in {None, Some("")}
    ensures Reconciliation(m, ext, now) == Step(NotSucceeded, m)
  {
  }

  /**
    Success always names the user, whose account then exists under the provider's
    e-mail, confirmed and not locked out; every other account is unchanged.
   */
  lemma SucceededMeansSignedInAccount(m: Accounts, ext: ExternalAuthResult, now: int)
    requires ValidAccounts(m)
    ensures var s := Reconciliation(m, ext, now);
      s.result.succeeded ==>
        && var email := ClaimValue(ext.claims, EmailClaimType);
        && email.Some?
        && s.result.user.Some? && s.result.user.value.email == email.value
        && s.result.isEmailConfirmed && !s.result.isLockedOut
        && email.value in s.accounts
        && s.accounts[email.value].emailConfirmed
        && !IsLockedOut(s.accounts[email.value], now)
        && s.accounts[email.value].accessFailedCount == 0
        && forall e | e in m && e != email.value :: e in s.accounts && s.accounts[e] == m[e]
  {
    var email := ClaimValue(ext.claims, EmailClaimType);
    if ext.succeeded && email.Some? && email.value != "" {
      if email.value !in m {
        NewAccountStep(m, ext, now, email.value);
      } else {
        ExistingAccountStep(m, ext, now, email.value);
      }
    }
  }

  /** One external sign-in with an e-mail no account has: success registers a confirmed, unlocked account for it. */
  lemma NewAccountStep(m: Accounts, ext: ExternalAuthResult, now: int, email: string)
    requires ValidAccounts(m)
    requires ext.succeeded && ClaimValue(ext.claims, EmailClaimType) == Some(email) && email != ""
    requires email !in m
    ensures var s := Reconciliation(m, ext, now);
      s.result.succeeded ==>
        && s.result.user.Some? && s.result.user.value.email == email
        && s.result.isEmailConfirmed && !s.result.isLockedOut
        && email in s.accounts && s.accounts.Keys == m.Keys + {email}
        && s.accounts[email].user == s.result.user.value
        && s.accounts[email].emailConfirmed
        && s.accounts[email].lockoutEnd.None? && s.accounts[email].accessFailedCount == 0
        && forall e | e in m :: s.accounts[e] == m[e]
  {
    PasswordAuth.RegistrationSuccess(m, email, None, ClaimValue(ext.claims, NameClaimType), false);
  }

  /** One external sign-in against an existing account: it succeeds exactly when that account is confirmed and not locked out. */
  lemma ExistingAccountStep(m: Accounts, ext: ExternalAuthResult, now: int, email: string)
    requires ValidAccounts(m)
    requires ext.succeeded && ClaimValue(ext.claims, EmailClaimType) == Some(email) && email != ""
    requires email in m
    ensures var s := Reconciliation(m, ext, now);
      && (s.result.succeeded <==> m[email].emailConfirmed && !IsLockedOut(m[email], now))
      && s.result.user == Some(m[email].user) && m[email].user.email == email
      && (s.result.succeeded ==> s.accounts == m[email := ResetAccessFailedCount(m[email])])
      && (!s.result.succeeded ==> s.accounts == m[email := AccessFailed(m[email], now)])
  {
  }

  /**
    A first external sign-in registers a confirmed account without a password, named
    after the provider's name claim (or the e-mail's local part), sanitised.
   */
  lemma FirstSignInRegistersConfirmedAccount(m: Accounts, ext: ExternalAuthResult, now: int)
    requires ValidAccounts(m)
    requires ext.succeeded
    requires var email := ClaimValue(ext.claims, EmailClaimType);
      email.Some? && email.value != "" && email.value !in m
    ensures var email := ClaimValue(ext.claims, EmailClaimType).value;
      var s := Reconciliation(m, ext, now);
      s.result.succeeded ==>
        && email in s.accounts && s.accounts.Keys == m.Keys + {email}
        && s.accounts[email].emailConfirmed
        && s.accounts[email].user.userName
           == PasswordAuth.SanitizeUserName(PasswordAuth.DerivedUserName(email, ClaimValue(ext.claims, NameClaimType)))
        && forall p :: !CheckPassword(s.accounts[email], p)
  {
    var email := ClaimValue(ext.claims, EmailClaimType).value;
    PasswordAuth.RegistrationSuccess(m, email, None, ClaimValue(ext.claims, NameClaimType), false);
  }

  /**
    Unlike the password sign-in, an external sign-in against a locked-out account still
    counts a failure, and the account stays locked out.
   */
  lemma LockedOutAccountStaysLockedOut(m: Accounts, ext: ExternalAuthResult, now: int)
    requires ValidAccounts(m)
    requires ext.succeeded
    requires var email := ClaimValue(ext.claims, EmailClaimType);
      email.Some? && email.value != "" && email.value in m && IsLockedOut(m[email.value], now)
    ensures var email := ClaimValue(ext.claims, EmailClaimType).value;
      var s := Reconciliation(m, ext, now);
      && !s.result.succeeded && s.result.isLockedOut
      && s.accounts == m[email := AccessFailed(m[email], now)]
      && IsLockedOut(s.accounts[email], now)
  {
    var email := ClaimValue(ext.claims, EmailClaimType).value;
    var a := m[email];
    if a.accessFailedCount + 1 < MaxFailedAccessAttempts {
      assert AccessFailed(a, now).lockoutEnd == a.lockoutEnd;
    }
  }

  /** One external sign-in against an existing, unconfirmed account. */
  lemma UnconfirmedStep(m: Accounts, ext: ExternalAuthResult, now: int, email: string)
    requires ext.succeeded && ClaimValue(ext.claims, EmailClaimType) == Some(email) && email != ""
    requires email in m && !m[email].emailConfirmed
    ensures var s := Reconciliation(m, ext, now);
      && !s.result.succeeded
      && s.accounts == m[email := AccessFailed(m[email], now)]
      && (s.result.isLockedOut <==> IsLockedOut(m[email], now) || IsLockedOut(AccessFailed(m[email], now), now))
  {
  }

  /** The store after `k` external sign-ins with the same result at the same instant. */
  function Reconciliations(m: Accounts, ext: ExternalAuthResult, now: int, k: nat): Accounts
  {
    if k == 0 then m else Reconciliation(Reconciliations(m, ext, now, k - 1), ext, now).accounts
  }

  /**
    External sign-ins against an existing account whose e-mail is not confirmed each
    count a failure; the (MaxFailedAccessAttempts - c)-th one locks the account.
   */
  lemma {:induction false} UnconfirmedAccountLocksOut(m: Accounts, ext: ExternalAuthResult, now: int, email: string, k: nat)
    requires ValidAccounts(m)
    requires ext.succeeded && ClaimValue(ext.claims, EmailClaimType) == Some(email) && email != ""
    requires email in m && !m[email].emailConfirmed && !IsLockedOut(m[email], now)
    requires k < MaxFailedAccessAttempts - m[email].accessFailedCount
    ensures email in Reconciliations(m, ext, now, k)
    ensures Reconciliations(m, ext, now, k)[email] == Failures(m[email], k, now)
    ensures var s := Reconciliation(Reconciliations(m, ext, now, k), ext, now);
      && !s.result.succeeded
      && (s.result.isLockedOut <==> k == MaxFailedAccessAttempts - m[email].accessFailedCount - 1)
  {
    var a := m[email];
    var before := Reconciliations(m, ext, now, k);
    assert email in before && before[email] == Failures(a, k, now) by {
      if k > 0 {
        UnconfirmedAccountLocksOut(m, ext, now, email, k - 1);
        var previous := Reconciliations(m, ext, now, k - 1);
        assert email in previous && !previous[email].emailConfirmed;
        UnconfirmedStep(previous, ext, now, email);
      }
    }
    assert !before[email].emailConfirmed;
    ConsecutiveFailuresLockOut(a, now, k);
    ConsecutiveFailuresLockOut(a, now, k + 1);
    assert AccessFailed(before[email], now) == Failures(a, k + 1, now);
    UnconfirmedStep(before, ext, now, email);
  }
}
