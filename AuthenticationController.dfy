/**
  The outcome branches of the web authentication endpoints: which response an
  authentication, registration or OTP result turns into, and the cookies a session
  is given. Token issuance and the OTP service are opaque: a response names the
  user a session is opened for instead of carrying a token.
 */
module AuthenticationController {
  import opened Wrappers
  import opened Identity
  import opened AuthDtos
  import PasswordAuth
  import OAuthAuthentication

  const IsLoggedInCookieKey: string := "isLoggedIn"
  const UserInfoCookieKey: string := "userInfo"

  const WrongCodeMessage: string := "Wrong code or code may have expired"
  const InvalidKeyMessage: string := "Invalid key"
  const OAuthFailedLocation: string := "/login?error=OAuth%20failed"

  /** A session about to be opened: a token is generated for `user` and the auth cookies are set. */
  datatype Session = Session(user: AppUser, remember: bool)

  datatype SignInResponse =
    /** 200 { Succeeded } with a session. */
    | SignedIn(session: Session)
    /** 200 { Succeeded, IsEmailConfirmed = false, ConfirmationToken } after sending an OTP to `user`. */
    | ConfirmationRequired(user: AppUser)
    /** 401 { Succeeded, IsLockedOut }. */
    | Unauthorized(succeeded: bool, isLockedOut: bool)

  /** DefaultSignIn, from the authentication result and the `remember` query flag. */
  function SignInResponseOf(r: AuthenticationResult, remember: Option<bool>): (resp: SignInResponse)
    ensures resp.SignedIn? <==> r.succeeded && r.user.Some? && r.isEmailConfirmed
    ensures resp.SignedIn? ==> resp.session == Session(r.user.value, remember == Some(true))
    ensures resp.ConfirmationRequired? <==> r.succeeded && r.user.Some? && !r.isEmailConfirmed
    ensures resp.Unauthorized? ==> resp.isLockedOut == r.isLockedOut && (r.isLockedOut ==> !resp.succeeded)
  {
    if r.succeeded && r.user.Some? then
      if r.isEmailConfirmed then SignedIn(Session(r.user.value, remember.GetOr(false)))
      else ConfirmationRequired(r.user.value)
    else Unauthorized(if r.isLockedOut then false else r.succeeded, r.isLockedOut)
  }

  /**
    As written, password sign-in opens a session exactly when the account exists, is
    confirmed and the password checks: lockout is not consulted.
   */
  lemma SignInIgnoresLockout(m: Accounts, email: string, password: string, now: int, remember: Option<bool>)
    ensures var resp := SignInResponseOf(PasswordAuth.Authentication(m, email, password, now).result, remember);
      resp.SignedIn? <==> email in m && m[email].emailConfirmed && CheckPassword(m[email], password)
  {
  }

  /** Counter-example: a confirmed account that is locked out is signed in with its password. */
  lemma LockedOutAccountSignsIn(m: Accounts, email: string, password: string, now: int)
    requires email in m && m[email].emailConfirmed && IsLockedOut(m[email], now)
    requires CheckPassword(m[email], password)
    ensures SignInResponseOf(PasswordAuth.Authentication(m, email, password, now).result, None)
      == SignedIn(Session(m[email].user, false))
  {
    PasswordAuth.LockedOutCorrectPasswordSucceeds(m, email, password, now);
  }

  /**
    With the intended sign-in, a session is opened exactly when the account exists, is
    confirmed, is not locked out and the password checks.
   */
  lemma SignInIntendedRespectsLockout(m: Accounts, email: string, password: string, now: int, remember: Option<bool>)
    ensures var resp := SignInResponseOf(PasswordAuth.AuthenticationIntended(m, email, password, now).result, remember);
      resp.SignedIn? <==>
        email in m && m[email].emailConfirmed && !IsLockedOut(m[email], now) && CheckPassword(m[email], password)
  {
    PasswordAuth.IntendedRespectsLockout(m, email, password, now);
  }

  /** A 401 for a password sign-in never claims success. */
  lemma UnauthorizedNeverSucceeded(m: Accounts, email: string, password: string, now: int, remember: Option<bool>)
    ensures var resp := SignInResponseOf(PasswordAuth.Authentication(m, email, password, now).result, remember);
      resp.Unauthorized? ==> !resp.succeeded
  {
  }

  datatype SignUpResponse =
    /** 200 with the OTP confirmation token, after sending an OTP to `user`. */
    | VerificationPending(user: AppUser)
    /** 400 with the registration message. */
    | SignUpRejected(message: string)

  /** DefaultSignUp, from the result of a registration that requires verification. */
  function SignUpResponseOf(reg: RegistrationResult): (resp: SignUpResponse)
    ensures resp.VerificationPending? <==> reg.succeeded && reg.user.Some?
    ensures resp.VerificationPending? ==> resp.user == reg.user.value
    ensures resp.SignUpRejected? ==> resp.message == reg.message
  {
    if reg.succeeded && reg.user.Some? then VerificationPending(reg.user.value) else SignUpRejected(reg.message)
  }

  /** The sign-up endpoint's registration: always with verification required. */
  function SignUp(m: Accounts, email: string, password: Option<string>, userName: Option<string>): Step<SignUpResponse>
  {
    var reg := PasswordAuth.Registration(m, email, password, userName, true);
    Step(SignUpResponseOf(reg.result), reg.accounts)
  }

  /**
    Sign-up leaves a new, unconfirmed account, and signing in to it with its password
    asks for the e-mail confirmation instead of opening a session.
   */
  lemma SignUpThenSignInNeedsConfirmation(m: Accounts, email: string, password: string, userName: Option<string>,
                                          now: int, remember: Option<bool>)
    requires ValidAccounts(m)
    requires password != ""
    ensures var s := SignUp(m, email, Some(password), userName);
      s.result.VerificationPending? ==>
        && email in s.accounts && !s.accounts[email].emailConfirmed
        && s.result.user == s.accounts[email].user
        && SignInResponseOf(PasswordAuth.Authentication(s.accounts, email, password, now).result, remember)
           == ConfirmationRequired(s.accounts[email].user)
  {
    PasswordAuth.RegistrationSuccess(m, email, Some(password), userName, true);
  }

  /** A rejected sign-up changes nothing and reports the registration's message. */
  lemma SignUpRejectedChangesNothing(m: Accounts, email: string, password: Option<string>, userName: Option<string>)
    ensures var s := SignUp(m, email, password, userName);
      s.result.SignUpRejected? ==>
        s.accounts == m
        && s.result.message == PasswordAuth.Registration(m, email, password, userName, true).result.message
  {
    PasswordAuth.RegistrationFailure(m, email, password, userName, true);
  }

  /** What the opaque OTP service's VerifyAsync reports. */
  datatype OtpVerification = OtpVerification(succeeded: bool, user: Option<AppUser>)

  datatype VerifyResponse =
    | AccountVerified(session: Session)
    | VerifyRejected(message: string)
    | VerifyServerError

  /**
    VerifyAccountSignUp, from what VerifyAsync returned or threw. `result.User!` checks
    nothing at run time: a successful verification without a user fails inside the token
    and cookie code, and the general catch answers 500.
   */
  function VerifyResponseOf(v: Result<OtpVerification>): (resp: VerifyResponse)
    ensures resp.AccountVerified? <==> v.Ok? && v.value.succeeded && v.value.user.Some?
    ensures resp.AccountVerified? ==> resp.session == Session(v.value.user.value, false)
    ensures v.Ok? && !v.value.succeeded ==> resp == VerifyRejected(WrongCodeMessage)
    ensures v.Ok? && v.value.succeeded && v.value.user.None? ==> resp == VerifyServerError
    ensures v.Err? ==> (resp == VerifyRejected(InvalidKeyMessage) <==> v.error.InvalidOperation?)
    ensures v.Err? ==> (resp == VerifyServerError <==> !v.error.InvalidOperation?)
  {
    match v
    case Err(InvalidOperation(_)) => VerifyRejected(InvalidKeyMessage)
    case Err(_) => VerifyServerError
    case Ok(o) =>
      if !o.succeeded then VerifyRejected(WrongCodeMessage)
      else if o.user.None? then VerifyServerError
      else AccountVerified(Session(o.user.value, false))
  }

  /** The callback redirects, opening a session only on success, or answers 500. */
  datatype CallbackResponse =
    | CallbackRedirect(location: string, session: Option<Session>)
    | CallbackServerError

  /**
    GoogleCallback, from the reconciliation result. As in the verification endpoint,
    `result.User!` checks nothing: success without a user ends in the general catch.
   */
  function GoogleCallbackResponseOf(r: AuthenticationResult, remember: Option<bool>): (resp: CallbackResponse)
    ensures resp.CallbackServerError? <==> r.succeeded && r.user.None?
    ensures resp.CallbackRedirect? ==> (resp.session.Some? <==> r.succeeded)
    ensures resp.CallbackRedirect? ==> resp.location == (if r.succeeded then "/" else OAuthFailedLocation)
    ensures resp.CallbackRedirect? && resp.session.Some? ==> resp.session.value == Session(r.user.value, remember == Some(true))
  {
    if !r.succeeded then CallbackRedirect(OAuthFailedLocation, None)
    else if r.user.None? then CallbackServerError
    else CallbackRedirect("/", Some(Session(r.user.value, remember.GetOr(false))))
  }

  /**
    A reconciliation result never sends the callback to its 500 branch, and the session
    the callback opens is for the account stored under the provider's e-mail.
   */
  lemma GoogleCallbackOpensStoredAccount(m: Accounts, ext: OAuthAuthentication.ExternalAuthResult, now: int,
                                         remember: Option<bool>)
    requires ValidAccounts(m)
    ensures var s := OAuthAuthentication.Reconciliation(m, ext, now);
      && (s.result.succeeded ==> s.result.user.Some?)
      && var resp := GoogleCallbackResponseOf(s.result, remember);
      && resp.CallbackRedirect?
      && (resp.session.Some? ==>
           var email := OAuthAuthentication.ClaimValue(ext.claims, OAuthAuthentication.EmailClaimType);
           email.Some? && email.value in s.accounts && resp.session.value.user.email == email.value
           && s.accounts[email.value].emailConfirmed)
  {
    OAuthAuthentication.SucceededMeansSignedInAccount(m, ext, now);
  }

  datatype Cookie = Cookie(
    name: string,
    value: string,
    secure: bool,
    sameSiteStrict: bool,
    httpOnly: bool,
    expires: Option<int>)

  /** The cookie expiry: persistent for `expirationInMinutes` when remembered, a session cookie otherwise. */
  function CookieExpiry(remember: bool, now: int, expirationInMinutes: int): Option<int> {
    if remember then Some(now + expirationInMinutes) else None
  }

  /**
    SetAuthCookies: the token cookie (HTTP-only), the user-info cookie and the
    logged-in flag, all secure and same-site strict, sharing one expiry.
    `userInfo` is the Base64 JSON of the user, built outside this model.
   */
  function AuthCookies(jwtToken: string, userInfo: string, remember: bool, now: int, expirationInMinutes: int)
    : (cs: seq<Cookie>)
    ensures |cs| == 3
    ensures cs[0].name == JwtCookieKey && cs[0].value == jwtToken && cs[0].httpOnly
    ensures cs[1].name == UserInfoCookieKey && cs[1].value == userInfo && !cs[1].httpOnly
    ensures cs[2].name == IsLoggedInCookieKey && cs[2].value == "true" && !cs[2].httpOnly
    ensures forall i | 0 <= i < 3 :: cs[i].secure && cs[i].sameSiteStrict
    ensures forall i | 0 <= i < 3 :: cs[i].expires.Some? <==> remember
    ensures forall i | 0 <= i < 3 :: remember ==> cs[i].expires == Some(now + expirationInMinutes)
  {
    var expires := CookieExpiry(remember, now, expirationInMinutes);
    [Cookie(JwtCookieKey, jwtToken, true, true, true, expires),
     Cookie(UserInfoCookieKey, userInfo, true, true, false, expires),
     Cookie(IsLoggedInCookieKey, "true", true, true, false, expires)]
  }
}
