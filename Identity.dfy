/**
  The ASP.NET Identity user store (UserManager<AppUser>) as the core sees it: a
  map from e-mail address to an account record holding the confirmation flag, the
  password, the failed-access counter and the lockout end. Hashing and token
  generation are abstracted: the password is kept as given, and tokens are chosen
  by the caller. Times are whole minutes.
 */
module Identity {
  import opened Wrappers

  /** Lockout options set at start-up (Program.cs): five failures lock for five minutes. */
  const DefaultLockoutMinutes: int := 5
  const MaxFailedAccessAttempts: nat := 5

  /**
    Identity's default UserOptions.AllowedUserNameCharacters: the ASCII letters and
    digits and the five characters "-._@+".
   */
  predicate IsDefaultUserNameChar(c: char) {
    IsAsciiLower(c) || IsAsciiUpper(c) || IsAsciiDigit(c) || c in "-._@+"
  }

  /** Identity's default minimum password length (PasswordOptions.RequiredLength). */
  const RequiredPasswordLength: nat := 6

  /** The user reference handed back to callers (AppUser). */
  datatype AppUser = AppUser(userName: string, email: string)

  datatype Account = Account(
    user: AppUser,
    emailConfirmed: bool,
    password: Option<string>,
    accessFailedCount: nat,
    lockoutEnd: Option<int>,
    resetTokens: map<string, int>,
    confirmationTokens: map<string, int>)

  type Accounts = map<string, Account>

  /** What an operation returns, together with the store's contents after it. */
  datatype Step<T> = Step(result: T, accounts: Accounts)

  datatype IdentityError = IdentityError(code: string, description: string)

  datatype IdentityResult = IdentityResult(succeeded: bool, errors: seq<IdentityError>)

  function ResultOf(errors: seq<IdentityError>): (r: IdentityResult)
    ensures r.succeeded <==> errors == []
    ensures r.errors == errors
  {
    IdentityResult(errors == [], errors)
  }

  /** Every account is filed under its own e-mail and its counter stays below the threshold. */
  ghost predicate ValidAccounts(m: Accounts) {
    forall e | e in m :: m[e].user.email == e && m[e].accessFailedCount < MaxFailedAccessAttempts
  }

  /** IsLockedOutAsync: the lockout end is set and not yet past. */
  predicate IsLockedOut(a: Account, now: int) {
    a.lockoutEnd.Some? && a.lockoutEnd.value >= now
  }

  /** CheckPasswordAsync: compares the password only; it does not look at lockout. */
  predicate CheckPassword(a: Account, password: string) {
    a.password == Some(password)
  }

  /**
    AccessFailedAsync: one more failure; on reaching MaxFailedAccessAttempts the
    account is locked for DefaultLockoutMinutes and the counter starts again at zero.
   */
  function AccessFailed(a: Account, now: int): (r: Account)
    ensures r.accessFailedCount < MaxFailedAccessAttempts
    ensures r.accessFailedCount == a.accessFailedCount + 1 || r.accessFailedCount == 0
    ensures a.accessFailedCount + 1 < MaxFailedAccessAttempts ==> r == a.(accessFailedCount := a.accessFailedCount + 1)
    ensures a.accessFailedCount + 1 >= MaxFailedAccessAttempts ==>
      r.lockoutEnd == Some(now + DefaultLockoutMinutes) && IsLockedOut(r, now)
    ensures r.user == a.user && r.emailConfirmed == a.emailConfirmed && r.password == a.password
  {
    var count := a.accessFailedCount + 1;
    if count < MaxFailedAccessAttempts then a.(accessFailedCount := count)
    else a.(accessFailedCount := 0, lockoutEnd := Some(now + DefaultLockoutMinutes))
  }

  /** ResetAccessFailedCountAsync. */
  function ResetAccessFailedCount(a: Account): Account {
    a.(accessFailedCount := 0)
  }

  /** `k` consecutive AccessFailed calls at the same instant. */
  function Failures(a: Account, k: nat, now: int): (r: Account)
    ensures r.user == a.user && r.emailConfirmed == a.emailConfirmed && r.password == a.password
    ensures r.resetTokens == a.resetTokens && r.confirmationTokens == a.confirmationTokens
  {
    if k == 0 then a else AccessFailed(Failures(a, k - 1, now), now)
  }

  /**
    Starting from an unlocked account whose counter is c, the account locks on
    exactly the (MaxFailedAccessAttempts - c)-th consecutive failure and not before.
   */
  lemma {:induction false} ConsecutiveFailuresLockOut(a: Account, now: int, k: nat)
    requires a.accessFailedCount < MaxFailedAccessAttempts && !IsLockedOut(a, now)
    requires k <= MaxFailedAccessAttempts - a.accessFailedCount
    ensures k < MaxFailedAccessAttempts - a.accessFailedCount ==>
      !IsLockedOut(Failures(a, k, now), now) && Failures(a, k, now).accessFailedCount == a.accessFailedCount + k
    ensures k == MaxFailedAccessAttempts - a.accessFailedCount ==> IsLockedOut(Failures(a, k, now), now)
  {
    if k > 0 {
      ConsecutiveFailuresLockOut(a, now, k - 1);
    }
  }

  /** char.IsWhiteSpace: the space, line and paragraph separators, U+0009..U+000D, U+0085 and U+00A0. */
  predicate IsWhiteSpace(c: char) {
    || '\t' <= c <= '\r' || c == ' ' || c == '\U{85}' || c == '\U{A0}' || c == '\U{1680}'
    || '\U{2000}' <= c <= '\U{200A}' || c == '\U{2028}' || c == '\U{2029}' || c == '\U{202F}'
    || c == '\U{205F}' || c == '\U{3000}'
  }

  predicate IsNullOrWhiteSpace(s: string) {
    forall i | 0 <= i < |s| :: IsWhiteSpace(s[i])
  }

  predicate IsAsciiDigit(c: char) { '0' <= c <= '9' }
  predicate IsAsciiLower(c: char) { 'a' <= c <= 'z' }
  predicate IsAsciiUpper(c: char) { 'A' <= c <= 'Z' }

  /** What the password validator counts as non-alphanumeric. */
  predicate IsNonAlphanumeric(c: char) {
    !IsAsciiDigit(c) && !IsAsciiLower(c) && !IsAsciiUpper(c)
  }

  predicate HasChar(s: string, p: char -> bool) {
    exists i | 0 <= i < |s| :: p(s[i])
  }

  /**
    String length as .NET and JavaScript count it: UTF-16 code units, two for a
    character outside the Basic Multilingual Plane.
   */
  function Utf16Length(s: string): (n: nat)
    ensures |s| <= n <= 2 * |s|
  {
    if s == [] then 0 else (if s[0] as int >= 0x1_0000 then 2 else 1) + Utf16Length(s[1..])
  }

  lemma {:induction false} Utf16LengthAppend(a: string, b: string)
    ensures Utf16Length(a + b) == Utf16Length(a) + Utf16Length(b)
  {
    if a != [] {
      assert (a + b)[1..] == a[1..] + b;
      Utf16LengthAppend(a[1..], b);
    } else {
      assert a + b == b;
    }
  }

  /** The characters of `s` outside the Basic Multilingual Plane. */
  function AstralCount(s: string): nat {
    if s == [] then 0 else (if s[0] as int >= 0x1_0000 then 1 else 0) + AstralCount(s[1..])
  }

  /** Each character counts one unit, and each one outside the Basic Multilingual Plane one more. */
  lemma {:induction false} Utf16LengthCountsAstralTwice(s: string)
    ensures Utf16Length(s) == |s| + AstralCount(s)
  {
    if s != [] {
      Utf16LengthCountsAstralTwice(s[1..]);
    }
  }

  /** A string of Basic Multilingual Plane characters counts one unit per character. */
  lemma {:induction false} BmpUtf16Length(s: string)
    requires forall i | 0 <= i < |s| :: s[i] as int < 0x1_0000
    ensures Utf16Length(s) == |s|
  {
    if s != [] {
      BmpUtf16Length(s[1..]);
    }
  }

  const PasswordTooShort := IdentityError("PasswordTooShort", "Passwords must be at least 6 characters.")
  const PasswordRequiresNonAlphanumeric :=
    IdentityError("PasswordRequiresNonAlphanumeric", "Passwords must have at least one non alphanumeric character.")
  const PasswordRequiresDigit := IdentityError("PasswordRequiresDigit", "Passwords must have at least one digit ('0'-'9').")
  const PasswordRequiresLower := IdentityError("PasswordRequiresLower", "Passwords must have at least one lowercase ('a'-'z').")
  const PasswordRequiresUpper := IdentityError("PasswordRequiresUpper", "Passwords must have at least one uppercase ('A'-'Z').")

  /** One error when the check fails, none when it passes. */
  function ErrorUnless(ok: bool, e: IdentityError): seq<IdentityError> {
    if ok then [] else [e]
  }

  /** The default PasswordValidator: its checks, in the order it reports them. */
  function PasswordErrors(p: string): (errs: seq<IdentityError>)
    ensures errs == [] <==>
      !IsNullOrWhiteSpace(p) && Utf16Length(p) >= RequiredPasswordLength && HasChar(p, IsAsciiDigit)
      && HasChar(p, IsAsciiLower) && HasChar(p, IsAsciiUpper) && HasChar(p, IsNonAlphanumeric)
    ensures |errs| > 0 && errs[0] == PasswordTooShort <==> IsNullOrWhiteSpace(p) || Utf16Length(p) < RequiredPasswordLength
  {
    ErrorUnless(!IsNullOrWhiteSpace(p) && Utf16Length(p) >= RequiredPasswordLength, PasswordTooShort)
    + ErrorUnless(HasChar(p, IsNonAlphanumeric), PasswordRequiresNonAlphanumeric)
    + ErrorUnless(HasChar(p, IsAsciiDigit), PasswordRequiresDigit)
    + ErrorUnless(HasChar(p, IsAsciiLower), PasswordRequiresLower)
    + ErrorUnless(HasChar(p, IsAsciiUpper), PasswordRequiresUpper)
  }

  /** A white-space character is neither an ASCII digit nor an ASCII letter. */
  lemma WhiteSpaceIsNonAlphanumeric(c: char)
    requires IsWhiteSpace(c)
    ensures IsNonAlphanumeric(c)
  {
  }

  /**
    A password of white space only, however long (six spaces, say), gets the too-short
    error first, then the digit, lower-case and upper-case errors; white space counts
    as non-alphanumeric, so that error is absent.
   */
  lemma BlankPasswordErrors(p: string)
    requires p != [] && IsNullOrWhiteSpace(p)
    ensures PasswordErrors(p) == [PasswordTooShort, PasswordRequiresDigit, PasswordRequiresLower, PasswordRequiresUpper]
  {
    WhiteSpaceIsNonAlphanumeric(p[0]);
    forall i | 0 <= i < |p|
      ensures IsNonAlphanumeric(p[i])
    {
      WhiteSpaceIsNonAlphanumeric(p[i]);
    }
    assert HasChar(p, IsNonAlphanumeric);
  }

  /** EmailAddressAttribute.IsValid: one '@', neither first nor last, and no line break. */
  predicate IsValidEmailAddress(e: string) {
    && (exists i | 0 < i < |e| - 1 :: e[i] == '@')
    && (forall i, j | 0 <= i < j < |e| :: !(e[i] == '@' && e[j] == '@'))
    && e[0] != '@' && e[|e| - 1] != '@'
    && (forall i | 0 <= i < |e| :: e[i] != '\r' && e[i] != '\n')
  }

  /** The default UserValidator: user-name checks, then e-mail checks (unique e-mail required). */
  function UserErrors(m: Accounts, user: AppUser): seq<IdentityError>
  {
    var name := user.userName;
    var nameErrors :=
      if IsNullOrWhiteSpace(name) || exists i | 0 <= i < |name| :: !IsDefaultUserNameChar(name[i])
      then [IdentityError("InvalidUserName", "Username '" + name + "' is invalid, can only contain letters or digits.")]
      else if exists e | e in m :: m[e].user.userName == name
      then [IdentityError("DuplicateUserName", "Username '" + name + "' is already taken.")]
      else [];
    var email := user.email;
    var emailErrors :=
      if IsNullOrWhiteSpace(email) || !IsValidEmailAddress(email)
      then [IdentityError("InvalidEmail", "Email '" + email + "' is invalid.")]
      else if email in m
      then [IdentityError("DuplicateEmail", "Email '" + email + "' is already taken.")]
      else [];
    nameErrors + emailErrors
  }

  /** CreateAsync(user[, password]): a given password is validated first, then the user. */
  function CreateErrors(m: Accounts, user: AppUser, password: Option<string>): (errs: seq<IdentityError>)
    ensures errs == [] ==> user.email !in m && !IsNullOrWhiteSpace(user.userName)
  {
    if password.Some? && PasswordErrors(password.value) != [] then PasswordErrors(password.value)
    else UserErrors(m, user)
  }

  function NewAccount(user: AppUser, emailConfirmed: bool, password: Option<string>): Account {
    Account(user, emailConfirmed, password, 0, None, map[], map[])
  }

  /** DataProtectorTokenProviderOptions.TokenLifespan: one day, in minutes. */
  const TokenLifespanMinutes: int := 24 * 60

  /**
    DataProtectorTokenProvider.ValidateAsync: a token issued for this account whose
    issue time plus the lifespan is not yet past.
   */
  predicate TokenValid(tokens: map<string, int>, token: string, now: int) {
    token in tokens && now <= tokens[token] + TokenLifespanMinutes
  }

  class UserStore {
    var accounts: Accounts

    ghost predicate Valid()
      reads this
    {
      ValidAccounts(accounts)
    }

    constructor ()
      ensures Valid() && accounts == map[]
    {
      accounts := map[];
    }

    method FindByEmail(email: string) returns (u: Option<AppUser>)
      requires Valid()
      ensures u.Some? <==> email in accounts
      ensures u.Some? ==> u.value == accounts[email].user && u.value.email == email
    {
      u := if email in accounts then Some(accounts[email].user) else None;
    }

    method IsEmailConfirmed(email: string) returns (b: bool)
      requires email in accounts
      ensures b == accounts[email].emailConfirmed
    {
      b := accounts[email].emailConfirmed;
    }

    method IsLockedOutAt(email: string, now: int) returns (b: bool)
      requires email in accounts
      ensures b == IsLockedOut(accounts[email], now)
    {
      b := IsLockedOut(accounts[email], now);
    }

    method CheckPasswordOf(email: string, password: string) returns (b: bool)
      requires email in accounts
      ensures b == CheckPassword(accounts[email], password)
    {
      b := CheckPassword(accounts[email], password);
    }

    method ResetAccessFailedCountOf(email: string)
      requires Valid() && email in accounts
      modifies this
      ensures Valid()
      ensures accounts == old(accounts)[email := ResetAccessFailedCount(old(accounts)[email])]
    {
      accounts := accounts[email := ResetAccessFailedCount(accounts[email])];
    }

    method AccessFailedOf(email: string, now: int)
      requires Valid() && email in accounts
      modifies this
      ensures Valid()
      ensures accounts == old(accounts)[email := AccessFailed(old(accounts)[email], now)]
    {
      accounts := accounts[email := AccessFailed(accounts[email], now)];
    }

    method Create(user: AppUser, emailConfirmed: bool, password: Option<string>) returns (r: IdentityResult)
      requires Valid()
      modifies this
      ensures Valid()
      ensures r == ResultOf(CreateErrors(old(accounts), user, password))
      ensures accounts == if r.succeeded then old(accounts)[user.email := NewAccount(user, emailConfirmed, password)]
                          else old(accounts)
    {
      r := ResultOf(CreateErrors(accounts, user, password));
      if r.succeeded {
        accounts := accounts[user.email := NewAccount(user, emailConfirmed, password)];
      }
    }

    /** GeneratePasswordResetTokenAsync, with the generated token supplied by the caller; it is stamped with `now`. */
    method GeneratePasswordResetToken(email: string, token: string, now: int)
      requires Valid() && email in accounts
      modifies this
      ensures Valid()
      ensures accounts == old(accounts)[email := old(accounts)[email].(resetTokens := old(accounts)[email].resetTokens[token := now])]
    {
      var a := accounts[email];
      accounts := accounts[email := a.(resetTokens := a.resetTokens[token := now])];
    }

    /**
      ResetPasswordAsync: the token must be one issued for this user and not yet expired;
      the new password must pass the validator. Success changes the security stamp, which
      invalidates every outstanding token.
     */
    method ResetPassword(email: string, token: string, newPassword: string, now: int) returns (r: IdentityResult)
      requires Valid() && email in accounts
      modifies this
      ensures Valid()
      ensures var a := old(accounts)[email];
        r == ResultOf(if !TokenValid(a.resetTokens, token, now) then [IdentityError("InvalidToken", "Invalid token.")]
                      else PasswordErrors(newPassword))
      ensures var a := old(accounts)[email];
        accounts == if r.succeeded
                    then old(accounts)[email := a.(password := Some(newPassword), resetTokens := map[], confirmationTokens := map[])]
                    else old(accounts)
    {
      var a := accounts[email];
      if !TokenValid(a.resetTokens, token, now) {
        r := ResultOf([IdentityError("InvalidToken", "Invalid token.")]);
      } else {
        r := ResultOf(PasswordErrors(newPassword));
        if r.succeeded {
          accounts := accounts[email := a.(password := Some(newPassword), resetTokens := map[], confirmationTokens := map[])];
        }
      }
    }

    /** ConfirmEmailAsync: a token issued for this user and not yet expired marks the address confirmed. */
    method ConfirmEmail(email: string, token: string, now: int) returns (r: IdentityResult)
      requires Valid()
      modifies this
      ensures Valid()
      ensures r.succeeded <==> email in old(accounts) && TokenValid(old(accounts)[email].confirmationTokens, token, now)
      ensures accounts == if r.succeeded then old(accounts)[email := old(accounts)[email].(emailConfirmed := true)]
                          else old(accounts)
    {
      if email in accounts && TokenValid(accounts[email].confirmationTokens, token, now) {
        accounts := accounts[email := accounts[email].(emailConfirmed := true)];
        r := ResultOf([]);
      } else {
        r := ResultOf([IdentityError("InvalidToken", "Invalid token.")]);
      }
    }
  }
}
