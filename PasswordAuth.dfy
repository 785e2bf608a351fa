/**
  The password authenticator: sign-in with lockout accounting, registration with
  user-name derivation, e-mail confirmation, and the password-reset link.
  Each operation is a method on the user store, proved against a function of the
  store's contents before the call (`Authentication`, `Registration`, ...); the
  lemmas state what the source promises about those functions.
 */
module PasswordAuth {
  import opened Wrappers
  import opened Identity
  import opened AuthDtos
  import Utf8
  import Base64Url


  const VerificationRequiredMessage: string := "Registration successful. Please verify your email."
  const NoVerificationMessage: string := "Registration successful without email verification."

  /** The line terminator StringBuilder.AppendLine writes (Environment.NewLine on Linux). */
  const NewLine: string := "\n"

  // ---------------------------------------------------------------------------
  // Sign-in

  /** AuthenticateAsync, as written. */
  function Authentication(m: Accounts, email: string, password: string, now: int): Step<AuthenticationResult>
  {
    if email !in m then Step(AuthenticationResult(false, false, false, None), m)
    else
      var a := m[email];
      var r := AuthenticationResult(CheckPassword(a, password), IsLockedOut(a, now), a.emailConfirmed, Some(a.user));
      if !r.isEmailConfirmed || r.isLockedOut then Step(r, m)
      else if r.succeeded then Step(r, m[email := ResetAccessFailedCount(a)])
      else
        var failed := AccessFailed(a, now);
        Step(if IsLockedOut(failed, now) then r.(isLockedOut := true) else r, m[email := failed])
  }

  /**
    The evidently intended sign-in: a locked-out account never reports success.
    An unconfirmed account still reports the password check, which the sign-in
    endpoint relies on to send the confirmation code.
   */
  function AuthenticationIntended(m: Accounts, email: string, password: string, now: int): (s: Step<AuthenticationResult>)
    ensures s.accounts == Authentication(m, email, password, now).accounts
  {
    var s := Authentication(m, email, password, now);
    if email in m && IsLockedOut(m[email], now) then s.(result := s.result.(succeeded := false)) else s
  }

  method Authenticate(store: UserStore, credentials: PasswordCredentials, now: int) returns (r: AuthenticationResult)
    requires store.Valid()
    modifies store
    ensures store.Valid()
    ensures Step(r, store.accounts) == Authentication(old(store.accounts), credentials.email, credentials.password, now)
  {
    var user := store.FindByEmail(credentials.email);
    if user.None? {
      return AuthenticationResult(false, false, false, None);
    }
    var email := user.value.email;
    var confirmed := store.IsEmailConfirmed(email);
    var lockedOut := store.IsLockedOutAt(email, now);
    var succeeded := store.CheckPasswordOf(email, credentials.password);
    r := AuthenticationResult(succeeded, lockedOut, confirmed, user);

    if !r.isEmailConfirmed || r.isLockedOut {
      return r;
    }

    if r.succeeded {
      store.ResetAccessFailedCountOf(email);
    } else {
      store.AccessFailedOf(email, now);
      var nowLockedOut := store.IsLockedOutAt(email, now);
      if nowLockedOut {
        r := r.(isLockedOut := true);
      }
    }
  }

  lemma UnknownEmailRevealsNothing(m: Accounts, email: string, password: string, now: int)
    requires email !in m
    ensures Authentication(m, email, password, now) == Step(AuthenticationResult(false, false, false, None), m)
  {
  }

  /**
    An unconfirmed or locked-out account returns before any accounting: the counter
    is untouched and `succeeded` is the bare password check, whatever the lockout.
   */
  lemma EarlyReturnLeavesCounter(m: Accounts, email: string, password: string, now: int)
    requires email in m && (!m[email].emailConfirmed || IsLockedOut(m[email], now))
    ensures var s := Authentication(m, email, password, now);
      && s.accounts == m
      && s.result.succeeded == CheckPassword(m[email], password)
      && s.result.isLockedOut == IsLockedOut(m[email], now)
      && s.result.isEmailConfirmed == m[email].emailConfirmed
      && s.result.user == Some(m[email].user)
  {
  }

  lemma CorrectPasswordResetsCounter(m: Accounts, email: string, password: string, now: int)
    requires email in m && m[email].emailConfirmed && !IsLockedOut(m[email], now)
    requires CheckPassword(m[email], password)
    ensures var s := Authentication(m, email, password, now);
      && s.result == AuthenticationResult(true, false, true, Some(m[email].user))
      && s.accounts == m[email := m[email].(accessFailedCount := 0)]
  {
  }

  /**
    A wrong password on a confirmed, unlocked account counts exactly one failure;
    the result reports lockout exactly when that failure was the last one allowed.
   */
  lemma WrongPasswordCountsOnce(m: Accounts, email: string, password: string, now: int)
    requires ValidAccounts(m)
    requires email in m && m[email].emailConfirmed && !IsLockedOut(m[email], now)
    requires !CheckPassword(m[email], password)
    ensures var s := Authentication(m, email, password, now);
      && !s.result.succeeded
      && s.accounts == m[email := AccessFailed(m[email], now)]
      && (s.result.isLockedOut <==> IsLockedOut(s.accounts[email], now))
      && (s.result.isLockedOut <==> m[email].accessFailedCount + 1 == MaxFailedAccessAttempts)
  {
  }

  lemma AuthenticationKeepsStoreValid(m: Accounts, email: string, password: string, now: int)
    requires ValidAccounts(m)
    ensures var s := Authentication(m, email, password, now);
      ValidAccounts(s.accounts) && s.accounts.Keys == m.Keys
  {
  }

  /** The store after `k` sign-in attempts with the same password at the same instant. */
  function Attempts(m: Accounts, email: string, password: string, now: int, k: nat): Accounts
  {
    if k == 0 then m else Authentication(Attempts(m, email, password, now, k - 1), email, password, now).accounts
  }

  /**
    Wrong passwords on a confirmed account whose counter is c: the
    (MaxFailedAccessAttempts - c)-th attempt locks it, and the attempts before do not.
   */
  lemma {:induction false} WrongPasswordsLockOut(m: Accounts, email: string, password: string, now: int, k: nat)
    requires ValidAccounts(m)
    requires email in m && m[email].emailConfirmed && !IsLockedOut(m[email], now)
    requires !CheckPassword(m[email], password)
    requires k < MaxFailedAccessAttempts - m[email].accessFailedCount
    ensures var before := Attempts(m, email, password, now, k);
      && email in before
      && before[email] == Failures(m[email], k, now)
      && !IsLockedOut(before[email], now)
      && var s := Authentication(before, email, password, now);
         (s.result.isLockedOut <==> k == MaxFailedAccessAttempts - m[email].accessFailedCount - 1)
  {
    ConsecutiveFailuresLockOut(m[email], now, k);
    ConsecutiveFailuresLockOut(m[email], now, k + 1);
    if k > 0 {
      WrongPasswordsLockOut(m, email, password, now, k - 1);
    }
  }

  /**
    As written, a confirmed but locked-out account with the right password is
    reported as succeeded (and locked out), with no change to the store.
   */
  lemma LockedOutCorrectPasswordSucceeds(m: Accounts, email: string, password: string, now: int)
    requires email in m && m[email].emailConfirmed && IsLockedOut(m[email], now)
    requires CheckPassword(m[email], password)
    ensures Authentication(m, email, password, now)
      == Step(AuthenticationResult(true, true, true, Some(m[email].user)), m)
  {
  }

  /** The intended sign-in never reports success for a locked-out account, and agrees otherwise. */
  lemma IntendedRespectsLockout(m: Accounts, email: string, password: string, now: int)
    ensures var s := AuthenticationIntended(m, email, password, now);
      s.result.succeeded ==> email in m && !IsLockedOut(m[email], now) && !s.result.isLockedOut
    ensures !(email in m && IsLockedOut(m[email], now)) ==>
      AuthenticationIntended(m, email, password, now) == Authentication(m, email, password, now)
  {
  }

  // ---------------------------------------------------------------------------
  // Registration: user-name derivation

  /**
    The characters a derived user name may keep: the ASCII letters and digits and
    the five characters "-._@+".
   */
  predicate IsAllowedForUsername(c: char) {
    IsAsciiLower(c) || IsAsciiUpper(c) || IsAsciiDigit(c) || c in "-._@+"
  }

  /** Every allowed character is printable ASCII from '+' to 'z'; in particular none is white space. */
  lemma AllowedIsPrintable(c: char)
    requires IsAllowedForUsername(c)
    ensures '+' <= c <= 'z' && !IsWhiteSpace(c)
  {
  }

  /** The text before the first '@' (Split("@")[0]); the whole address when there is none. */
  function LocalPart(email: string): (r: string)
    ensures r <= email
    ensures forall i | 0 <= i < |r| :: r[i] != '@'
    ensures |r| < |email| ==> email[|r|] == '@'
  {
    if email == [] || email[0] == '@' then [] else [email[0]] + LocalPart(email[1..])
  }

  /** Replace(" ", "_"). */
  function ReplaceSpaces(s: string): string {
    seq(|s|, i requires 0 <= i < |s| => if s[i] == ' ' then '_' else s[i])
  }

  /** Keeps the characters of the allow-list, in order. */
  function KeepAllowed(s: string): string {
    if s == [] then [] else (if IsAllowedForUsername(s[0]) then [s[0]] else []) + KeepAllowed(s[1..])
  }

  function SanitizeUserName(name: string): string {
    KeepAllowed(ReplaceSpaces(name))
  }

  /** The user name when none is given. */
  function DerivedUserName(email: string, userName: Option<string>): string {
    userName.GetOr(LocalPart(email))
  }

  lemma {:induction false} KeepAllowedAppend(a: string, b: string)
    ensures KeepAllowed(a + b) == KeepAllowed(a) + KeepAllowed(b)
  {
    if a != [] {
      assert (a + b)[1..] == a[1..] + b;
      KeepAllowedAppend(a[1..], b);
    } else {
      assert a + b == b;
    }
  }

  lemma {:induction false} KeepAllowedOnlyAllowed(s: string)
    ensures forall i | 0 <= i < |KeepAllowed(s)| :: IsAllowedForUsername(KeepAllowed(s)[i])
    ensures |KeepAllowed(s)| <= |s|
  {
    if s != [] {
      KeepAllowedOnlyAllowed(s[1..]);
    }
  }

  lemma {:induction false} KeepAllowedOfAllowed(s: string)
    requires forall i | 0 <= i < |s| :: IsAllowedForUsername(s[i])
    ensures KeepAllowed(s) == s
  {
    if s != [] {
      KeepAllowedOfAllowed(s[1..]);
    }
  }

  /**
    Sanitising works character by character: a space becomes '_', an allowed
    character stays, anything else is dropped, and the order is kept.
   */
  lemma SanitizeIsPointwise(a: string, b: string, c: char)
    ensures SanitizeUserName(a + b) == SanitizeUserName(a) + SanitizeUserName(b)
    ensures SanitizeUserName([c]) == if c == ' ' then "_" else if IsAllowedForUsername(c) then [c] else []
  {
    assert ReplaceSpaces(a + b) == ReplaceSpaces(a) + ReplaceSpaces(b);
    KeepAllowedAppend(ReplaceSpaces(a), ReplaceSpaces(b));
    var r := ReplaceSpaces([c]);
    assert r == [if c == ' ' then '_' else c];
    assert r[1..] == [];
    assert KeepAllowed(r) == (if IsAllowedForUsername(r[0]) then [r[0]] else []) + KeepAllowed(r[1..]);
    assert IsAllowedForUsername('_');
  }

  /** The sanitised name holds allowed characters only, hence no space, and is no longer than the input. */
  lemma SanitizedIsAllowed(name: string)
    ensures forall i | 0 <= i < |SanitizeUserName(name)| ::
      IsAllowedForUsername(SanitizeUserName(name)[i]) && SanitizeUserName(name)[i] != ' '
    ensures |SanitizeUserName(name)| <= |name|
  {
    var t := SanitizeUserName(name);
    KeepAllowedOnlyAllowed(ReplaceSpaces(name));
    forall i | 0 <= i < |t|
      ensures t[i] != ' '
    {
      AllowedIsPrintable(t[i]);
    }
  }

  lemma SanitizeIdempotent(name: string)
    ensures SanitizeUserName(SanitizeUserName(name)) == SanitizeUserName(name)
  {
    var once := SanitizeUserName(name);
    SanitizedIsAllowed(name);
    assert ReplaceSpaces(once) == once;
    KeepAllowedOfAllowed(once);
  }

  /** A name already made of allowed characters is kept as it is. */
  lemma SanitizeKeepsAllowedNames(name: string)
    requires forall i | 0 <= i < |name| :: IsAllowedForUsername(name[i])
    ensures SanitizeUserName(name) == name
  {
    forall i | 0 <= i < |name|
      ensures name[i] != ' '
    {
      AllowedIsPrintable(name[i]);
    }
    assert ReplaceSpaces(name) == name;
    KeepAllowedOfAllowed(name);
  }

  /** The user validator never rejects a non-empty sanitised name as invalid: the two allow-lists agree. */
  lemma SanitizedNamePassesValidator(m: Accounts, name: string, email: string)
    requires SanitizeUserName(name) != []
    ensures var u := AppUser(SanitizeUserName(name), email);
      forall err | err in UserErrors(m, u) :: err.code != "InvalidUserName"
  {
    var s := SanitizeUserName(name);
    SanitizedIsAllowed(name);
    AllowedIsPrintable(s[0]);
  }

  // ---------------------------------------------------------------------------
  // Registration: account creation and the error message

  function Descriptions(errors: seq<IdentityError>): seq<string> {
    seq(|errors|, i requires 0 <= i < |errors| => errors[i].description)
  }

  /** StringBuilder.AppendLine over each line in turn. */
  function AppendLines(lines: seq<string>): string {
    if lines == [] then "" else lines[0] + NewLine + AppendLines(lines[1..])
  }

  /** Splits text into its lines, each terminated by a line break (the last one may not be). */
  function Lines(s: string): seq<string>
    decreases |s|
  {
    if s == [] then []
    else
      var k := IndexOfNewLine(s, 0);
      [s[..k]] + (if k < |s| then Lines(s[k + 1..]) else [])
  }

  function IndexOfNewLine(s: string, from: nat): (k: nat)
    requires from <= |s|
    ensures from <= k <= |s|
    ensures k < |s| ==> s[k] == '\n'
    ensures forall j | from <= j < k :: s[j] != '\n'
    decreases |s| - from
  {
    if from == |s| || s[from] == '\n' then from else IndexOfNewLine(s, from + 1)
  }

  lemma {:induction false} AppendLinesSnoc(lines: seq<string>, line: string)
    ensures AppendLines(lines + [line]) == AppendLines(lines) + line + NewLine
  {
    if lines == [] {
      assert lines + [line] == [line];
    } else {
      assert (lines + [line])[1..] == lines[1..] + [line];
      AppendLinesSnoc(lines[1..], line);
    }
  }

  /** The message can be split back into the error descriptions when none holds a line break. */
  lemma {:induction false} LinesOfAppendLines(lines: seq<string>)
    requires forall i, j | 0 <= i < |lines| && 0 <= j < |lines[i]| :: lines[i][j] != '\n'
    ensures Lines(AppendLines(lines)) == lines
  {
    if lines != [] {
      var s := AppendLines(lines);
      var first := lines[0];
      assert s == first + ("\n" + AppendLines(lines[1..]));
      var k := IndexOfNewLine(s, 0);
      assert s[|first|] == '\n';
      assert k == |first|;
      assert s[..k] == first;
      assert s[k + 1..] == AppendLines(lines[1..]);
      LinesOfAppendLines(lines[1..]);
      assert [first] + lines[1..] == lines;
    }
  }

  /** The failure message: every error description followed by a line break. */
  method BuildErrorMessage(errors: seq<IdentityError>) returns (message: string)
    ensures message == AppendLines(Descriptions(errors))
  {
    message := "";
    var i := 0;
    while i < |errors|
      invariant 0 <= i <= |errors|
      invariant message == AppendLines(Descriptions(errors[..i]))
    {
      assert Descriptions(errors[..i + 1]) == Descriptions(errors[..i]) + [errors[i].description];
      AppendLinesSnoc(Descriptions(errors[..i]), errors[i].description);
      message := message + errors[i].description + NewLine;
      i := i + 1;
    }
    assert errors[..i] == errors;
  }

  /** A null or empty password creates the account without a password. */
  function PasswordToSet(password: Option<string>): Option<string> {
    if password.None? || password.value == "" then None else password
  }

  /** RegisterAsync on the store's contents `m`. */
  function Registration(m: Accounts, email: string, password: Option<string>, userName: Option<string>,
                        requiresVerification: bool): Step<RegistrationResult>
  {
    var user := AppUser(SanitizeUserName(DerivedUserName(email, userName)), email);
    var errors := CreateErrors(m, user, PasswordToSet(password));
    if errors == [] then
      var message := if requiresVerification then VerificationRequiredMessage else NoVerificationMessage;
      Step(RegistrationResult(true, requiresVerification, Some(user), None, message),
           m[email := NewAccount(user, !requiresVerification, PasswordToSet(password))])
    else
      Step(RegistrationResult(false, requiresVerification, None, None, AppendLines(Descriptions(errors))), m)
  }

  method Register(store: UserStore, credentials: RegistrationCredentials, requiresVerification: bool)
    returns (r: RegistrationResult)
    requires store.Valid()
    modifies store, credentials
    ensures store.Valid()
    ensures credentials.email == old(credentials.email) && credentials.password == old(credentials.password)
    ensures credentials.redirectUrl == old(credentials.redirectUrl)
    ensures credentials.userName == Some(DerivedUserName(credentials.email, old(credentials.userName)))
    ensures Step(r, store.accounts)
      == Registration(old(store.accounts), credentials.email, credentials.password, old(credentials.userName), requiresVerification)
  {
    if credentials.userName.None? {
      credentials.userName := Some(LocalPart(credentials.email));
    }

    var refinedUsername := ReplaceSpaces(credentials.userName.value);
    refinedUsername := KeepAllowed(refinedUsername);

    var user := AppUser(refinedUsername, credentials.email);

    var result: IdentityResult;
    if credentials.password.None? || credentials.password.value == "" {
      result := store.Create(user, !requiresVerification, None);
    } else {
      result := store.Create(user, !requiresVerification, credentials.password);
    }

    if result.succeeded {
      var message := if requiresVerification then VerificationRequiredMessage else NoVerificationMessage;
      return RegistrationResult(true, requiresVerification, Some(user), None, message);
    }

    var message := BuildErrorMessage(result.errors);
    r := RegistrationResult(false, requiresVerification, None, None, message);
  }

  /**
    A successful registration adds exactly one account, under the given e-mail, with the
    derived, sanitised user name, EmailConfirmed == !requiresVerification, a fresh counter
    and no lockout; no confirmation token is issued here.
   */
  lemma RegistrationSuccess(m: Accounts, email: string, password: Option<string>, userName: Option<string>, requiresVerification: bool)
    requires ValidAccounts(m)
    ensures var s := Registration(m, email, password, userName, requiresVerification);
      s.result.succeeded ==>
        && email !in m
        && s.accounts.Keys == m.Keys + {email}
        && (forall e | e in m :: s.accounts[e] == m[e])
        && ValidAccounts(s.accounts)
        && var a := s.accounts[email];
        && s.result.user == Some(a.user)
        && a.user == AppUser(SanitizeUserName(DerivedUserName(email, userName)), email)
        && a.emailConfirmed == !requiresVerification
        && (a.password.None? <==> password.None? || password == Some(""))
        && a.accessFailedCount == 0 && a.lockoutEnd.None?
        && s.result.confirmationToken.None?
        && s.result.requiresVerification == requiresVerification
        && s.result.message == (if requiresVerification then VerificationRequiredMessage else NoVerificationMessage)
  {
    var user := AppUser(SanitizeUserName(DerivedUserName(email, userName)), email);
    if CreateErrors(m, user, PasswordToSet(password)) == [] {
      var accounts := m[email := NewAccount(user, !requiresVerification, PasswordToSet(password))];
      assert ValidAccounts(accounts);
    }
  }

  /** A failed registration changes nothing and reports every store error, one per line. */
  lemma RegistrationFailure(m: Accounts, email: string, password: Option<string>, userName: Option<string>, requiresVerification: bool)
    ensures var s := Registration(m, email, password, userName, requiresVerification);
      !s.result.succeeded ==>
        && s.accounts == m
        && s.result.user.None? && s.result.confirmationToken.None?
        && var errors := CreateErrors(m, AppUser(SanitizeUserName(DerivedUserName(email, userName)), email), PasswordToSet(password));
        && errors != []
        && s.result.message == AppendLines(Descriptions(errors))
  {
  }

  /** Registering an address that already has an account always fails and changes nothing. */
  lemma DuplicateEmailRejected(m: Accounts, email: string, password: Option<string>, userName: Option<string>, requiresVerification: bool)
    requires email in m
    ensures var s := Registration(m, email, password, userName, requiresVerification);
      !s.result.succeeded && s.accounts == m
  {
  }

  method VerifyAccountEmail(store: UserStore, user: AppUser, token: string, now: int) returns (succeeded: bool)
    requires store.Valid()
    modifies store
    ensures store.Valid()
    ensures succeeded <==> user.email in old(store.accounts) && TokenValid(old(store.accounts)[user.email].confirmationTokens, token, now)
    ensures store.accounts == if succeeded
      then old(store.accounts)[user.email := old(store.accounts)[user.email].(emailConfirmed := true)]
      else old(store.accounts)
  {
    var result := store.ConfirmEmail(user.email, token, now);
    succeeded := result.succeeded;
  }

  // ---------------------------------------------------------------------------
  // Password reset link: base64url(utf8(email + "::" + token))

  const Separator: string := "::"

  predicate SeparatorAt(s: string, i: int) {
    0 <= i && i + 1 < |s| && s[i] == ':' && s[i + 1] == ':'
  }

  predicate HasNoSeparator(s: string) {
    forall i | 0 <= i < |s| :: !SeparatorAt(s, i)
  }

  /** The first "::" at or after `from`. */
  function IndexOfSeparator(s: string, from: nat): (r: Option<nat>)
    ensures r.Some? ==> from <= r.value && SeparatorAt(s, r.value)
    ensures r.Some? ==> forall j | from <= j < r.value :: !SeparatorAt(s, j)
    ensures r.None? ==> forall j | from <= j :: !SeparatorAt(s, j)
    decreases |s| - from
  {
    if from + 1 >= |s| then None
    else if SeparatorAt(s, from) then Some(from)
    else IndexOfSeparator(s, from + 1)
  }

  /** String.Split("::"): every piece between separators, empty ones included. */
  function Split(s: string): (parts: seq<string>)
    ensures |parts| >= 1
    decreases |s|
  {
    match IndexOfSeparator(s, 0)
    case None => [s]
    case Some(i) => [s[..i]] + Split(s[i + 2..])
  }

  function ResetComposite(email: string, token: string): string {
    email + Separator + token
  }

  function EncodeResetToken(email: string, token: string): string {
    Base64Url.Encode(Utf8.Encode(ResetComposite(email, token)))
  }

  /** The decoding half of ResetPasswordAsync: parts[0] is the e-mail, parts[1] the token. */
  function DecodeResetToken(encoded: string): Result<(string, string)>
  {
    var bytes :- Base64Url.Decode(encoded);
    match Utf8.Decode(bytes)
    case None => Err(Format("Invalid UTF-8"))
    case Some(composite) =>
      var parts := Split(composite);
      if |parts| < 2 then Err(IndexOutOfRange) else Ok((parts[0], parts[1]))
  }

  lemma SplitNoSeparator(s: string)
    requires HasNoSeparator(s)
    ensures Split(s) == [s]
  {
  }

  /**
    Splitting the composite gives back the e-mail and the token when neither holds
    "::" and the e-mail does not end in ':'.
   */
  lemma SplitComposite(email: string, token: string)
    requires HasNoSeparator(email) && HasNoSeparator(token)
    requires email == [] || email[|email| - 1] != ':'
    ensures Split(ResetComposite(email, token)) == [email, token]
  {
    var s := ResetComposite(email, token);
    var n := |email|;
    assert SeparatorAt(s, n);
    forall j | 0 <= j < n
      ensures !SeparatorAt(s, j)
    {
      if j < n - 1 {
        assert !SeparatorAt(email, j);
      }
    }
    var r := IndexOfSeparator(s, 0);
    assert r == Some(n);
    assert s[..n] == email;
    assert s[n + 2..] == token;
    SplitNoSeparator(token);
  }

  /** The reset link decodes to the e-mail and token it was built from. */
  lemma ResetTokenRoundTrip(email: string, token: string)
    requires HasNoSeparator(email) && HasNoSeparator(token)
    requires email == [] || email[|email| - 1] != ':'
    ensures DecodeResetToken(EncodeResetToken(email, token)) == Ok((email, token))
  {
    var composite := ResetComposite(email, token);
    Base64Url.DecodeEncode(Utf8.Encode(composite));
    Utf8.DecodeEncode(composite);
    SplitComposite(email, token);
  }

  /** Decoding a link this server built comes down to splitting the composite. */
  lemma DecodeOfEncodedResetToken(email: string, token: string)
    ensures var parts := Split(ResetComposite(email, token));
      DecodeResetToken(EncodeResetToken(email, token))
        == if |parts| < 2 then Err(IndexOutOfRange) else Ok((parts[0], parts[1]))
  {
    var s := ResetComposite(email, token);
    Base64Url.DecodeEncode(Utf8.Encode(s));
    Utf8.DecodeEncode(s);
  }

  lemma SplitWithSeparatorInEmail()
    ensures Split(ResetComposite("a::b@c", "t")) == ["a", "b@c", "t"]
  {
    var s := ResetComposite("a::b@c", "t");
    assert s == "a::b@c::t";
    assert !SeparatorAt(s, 0) && SeparatorAt(s, 1);
    assert IndexOfSeparator(s, 0) == Some(1);
    var rest := s[3..];
    assert rest == "b@c::t";
    assert !SeparatorAt(rest, 0) && !SeparatorAt(rest, 1) && !SeparatorAt(rest, 2) && SeparatorAt(rest, 3);
    assert IndexOfSeparator(rest, 0) == Some(3);
    assert rest[..3] == "b@c";
    assert rest[5..] == "t";
    SplitNoSeparator("t");
    assert Split(rest) == ["b@c", "t"];
    assert s[..1] == "a";
  }

  /**
    Counter-example: "a::b@c" passes the e-mail validator, but the reset link built
    for it decodes to the e-mail "a" and the token "b@c".
   */
  lemma ResetTokenMisreadsSeparatorInEmail()
    ensures IsValidEmailAddress("a::b@c")
    ensures DecodeResetToken(EncodeResetToken("a::b@c", "t")) == Ok(("a", "b@c"))
  {
    SeparatorEmailIsValid();
    DecodeOfEncodedResetToken("a::b@c", "t");
    SplitWithSeparatorInEmail();
  }

  lemma SeparatorEmailIsValid()
    ensures IsValidEmailAddress("a::b@c")
  {
    var e := "a::b@c";
    assert e[4] == '@';
    assert forall i | 0 <= i < |e| :: e[i] == '@' ==> i == 4;
  }

  /** The last "::" below position `n`. */
  function LastSeparatorBelow(s: string, n: nat): (r: Option<nat>)
    ensures r.Some? ==> r.value < n && SeparatorAt(s, r.value)
    ensures r.Some? ==> forall j | r.value < j < n :: !SeparatorAt(s, j)
    ensures r.None? ==> forall j | 0 <= j < n :: !SeparatorAt(s, j)
  {
    if n == 0 then None
    else if SeparatorAt(s, n - 1) then Some(n - 1)
    else LastSeparatorBelow(s, n - 1)
  }

  /**
    The evidently intended decoding: the token is what follows the last "::", the
    e-mail everything before it. Generated tokens never contain ':'.
   */
  function DecodeResetTokenIntended(encoded: string): Result<(string, string)>
  {
    var bytes :- Base64Url.Decode(encoded);
    match Utf8.Decode(bytes)
    case None => Err(Format("Invalid UTF-8"))
    case Some(composite) =>
      match LastSeparatorBelow(composite, |composite|)
      case None => Err(IndexOutOfRange)
      case Some(i) => Ok((composite[..i], composite[i + 2..]))
  }

  /** With the intended decoding, every e-mail round-trips, whatever it contains. */
  lemma ResetTokenRoundTripIntended(email: string, token: string)
    requires forall i | 0 <= i < |token| :: token[i] != ':'
    ensures DecodeResetTokenIntended(EncodeResetToken(email, token)) == Ok((email, token))
  {
    var s := ResetComposite(email, token);
    CompositeDecodes(email, token);
    LastSeparatorOfComposite(email, token);
    CompositeParts(email, token);
  }

  /** The encoded link decodes back to the composite string. */
  lemma CompositeDecodes(email: string, token: string)
    ensures var s := ResetComposite(email, token);
      Base64Url.Decode(Base64Url.Encode(Utf8.Encode(s))) == Ok(Utf8.Encode(s))
      && Utf8.Decode(Utf8.Encode(s)) == Some(s)
  {
    var s := ResetComposite(email, token);
    Base64Url.DecodeEncode(Utf8.Encode(s));
    Utf8.DecodeEncode(s);
  }

  /** The composite splits back into the e-mail and the token around the separator. */
  lemma CompositeParts(email: string, token: string)
    ensures var s := ResetComposite(email, token);
      s[..|email|] == email && s[|email| + 2..] == token
  {
    var s := ResetComposite(email, token);
    assert s[..|email|] == email;
    assert s[|email| + 2..] == token;
  }

  lemma LastSeparatorOfComposite(email: string, token: string)
    requires forall i | 0 <= i < |token| :: token[i] != ':'
    ensures var s := ResetComposite(email, token);
      LastSeparatorBelow(s, |s|) == Some(|email|)
  {
    var s := ResetComposite(email, token);
    var n := |email|;
    assert SeparatorAt(s, n);
    forall j | n < j < |s|
      ensures !SeparatorAt(s, j)
    {
      if j + 1 < |s| {
        assert s[j + 1] == token[j + 1 - n - 2];
      }
    }
  }

  /** The e-mail RequestResetPasswordAsync hands to the notification sender. */
  datatype ResetMail = ResetMail(recipient: string, subject: string, body: string, isHtmlBody: bool)

  const ResetSubject: string := "Your link to reset password"

  function ResetUrl(scheme: string, host: string, email: string, token: string): string {
    scheme + "://" + host + "/recover-password/" + EncodeResetToken(email, token)
  }

  function ResetMailFor(email: string, token: string, scheme: string, host: string): ResetMail {
    var url := ResetUrl(scheme, host, email, token);
    ResetMail(email, ResetSubject,
              "<p>Visit here to reset your password: <a href=\"" + url + "\">" + url + "</a></p>", true)
  }

  /**
    RequestResetPasswordAsync. `token` is the one the store's token provider generates at
    `now`; scheme and host come from the current request. The mail is returned instead of sent.
   */
  method RequestResetPassword(store: UserStore, email: string, token: string, now: int, scheme: string, host: string)
    returns (r: Result<ResetMail>)
    requires store.Valid()
    modifies store
    ensures store.Valid()
    ensures email !in old(store.accounts) ==>
      r == Err(InvalidOperation("User email not found")) && store.accounts == old(store.accounts)
    ensures email in old(store.accounts) ==>
      && r == Ok(ResetMailFor(email, token, scheme, host))
      && store.accounts == old(store.accounts)[email := old(store.accounts)[email].(resetTokens := old(store.accounts)[email].resetTokens[token := now])]
  {
    var user := store.FindByEmail(email);
    if user.None? {
      return Err(InvalidOperation("User email not found"));
    }
    store.GeneratePasswordResetToken(user.value.email, token, now);
    r := Ok(ResetMailFor(user.value.email, token, scheme, host));
  }

  /** ResetPasswordAsync on the store's contents `m`. */
  function PasswordReset(m: Accounts, encoded: string, newPassword: string, now: int): Step<Result<bool>>
  {
    match DecodeResetToken(encoded)
    case Err(e) => Step(Err(e), m)
    case Ok((email, token)) =>
      if email !in m then Step(Err(Argument("User not found")), m)
      else
        var a := m[email];
        if TokenValid(a.resetTokens, token, now) && PasswordErrors(newPassword) == []
        then Step(Ok(true), m[email := a.(password := Some(newPassword), resetTokens := map[], confirmationTokens := map[])])
        else Step(Ok(false), m)
  }

  method ResetPassword(store: UserStore, encodedToken: string, newPassword: string, now: int) returns (r: Result<bool>)
    requires store.Valid()
    modifies store
    ensures store.Valid()
    ensures Step(r, store.accounts) == PasswordReset(old(store.accounts), encodedToken, newPassword, now)
  {
    var decoded := DecodeResetToken(encodedToken);
    if decoded.Err? {
      return Err(decoded.error);
    }
    var (userEmail, token) := decoded.value;
    var user := store.FindByEmail(userEmail);
    if user.None? {
      return Err(Argument("User not found"));
    }
    var result := store.ResetPassword(user.value.email, token, newPassword, now);
    r := Ok(result.succeeded);
  }

  /**
    A reset link works once within its lifespan: after the request at `issued`, following
    the link at a `now` no more than a day later with a password the validator accepts
    succeeds and sets it; following it again fails, because the successful reset
    invalidated every outstanding token.
   */
  lemma ResetLinkWorksOnce(m: Accounts, email: string, token: string, newPassword: string, issued: int, now: int)
    requires ValidAccounts(m) && email in m
    requires HasNoSeparator(email) && HasNoSeparator(token)
    requires email == [] || email[|email| - 1] != ':'
    requires PasswordErrors(newPassword) == []
    requires now <= issued + TokenLifespanMinutes
    ensures var requested := m[email := m[email].(resetTokens := m[email].resetTokens[token := issued])];
      var link := EncodeResetToken(email, token);
      var first := PasswordReset(requested, link, newPassword, now);
      && first.result == Ok(true)
      && first.accounts[email].password == Some(newPassword)
      && PasswordReset(first.accounts, link, newPassword, now).result == Ok(false)
  {
    ResetTokenRoundTrip(email, token);
  }

  /** A reset link followed more than a day after its request fails and changes nothing. */
  lemma ExpiredResetLinkFails(m: Accounts, email: string, token: string, newPassword: string, issued: int, now: int)
    requires email in m
    requires HasNoSeparator(email) && HasNoSeparator(token)
    requires email == [] || email[|email| - 1] != ':'
    requires now > issued + TokenLifespanMinutes
    ensures var requested := m[email := m[email].(resetTokens := m[email].resetTokens[token := issued])];
      PasswordReset(requested, EncodeResetToken(email, token), newPassword, now) == Step(Ok(false), requested)
  {
    ResetTokenRoundTrip(email, token);
  }
}
