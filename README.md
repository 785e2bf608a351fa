# Demo authentication web app: a verified model of its core

This project models the authentication and data-access core of a small ASP.NET Core
backend together with the helpers of its React frontend, and proves what each part
promises.

- **Password authenticator** (`PasswordAuth`):
  - sign-in, with its failed-access counter and lockout;
  - registration, with its user-name sanitiser and its error message;
  - e-mail confirmation;
  - the password-reset link, which is Base64url (RFC 4648 section 5) over the UTF-8 (RFC 3629) bytes of `email::token`, and the reset that decodes it: the link is written without padding, and the decoder also accepts the "=" padding.
- **OAuth reconciler** (`OAuthAuthentication`): maps an external identity to an existing or newly registered local account.
- **Authentication controller** (`AuthenticationController`):
  - maps sign-in, sign-up, account-verification and Google-callback results to responses;
  - sets the cookie lifetimes.
- **Unit of work** (`UnitOfWork`): at most one active database transaction.
- **Product repository** (`ProductRepository`):
  - the search / sort / soft-delete filter / projection pipeline;
  - the defaults for a missing query;
  - the field-restricted update.
- **Frontend helpers** (`Common`, `EntityTable`):
  - the strong-password check;
  - the cookie lookup with `decodeURIComponent` (ECMAScript section 19.2.6.2);
  - the user-info cookie;
  - the query-string builder over `URLSearchParams` (WHATWG URL section 5, `application/x-www-form-urlencoded`);
  - the entity table's header text, paging, search and sort transitions.

Helper modules:
- `Wrappers`: Option and Result.
- `Identity`: the ASP.NET Identity user store, as configured by the application. It holds:
  - a class over a map from e-mail to account;
  - the lockout rule of 5 failures giving 5 minutes;
  - the default password and user validators.
- `Utf8` and `Base64Url`: the codecs, each proved to round-trip.

Methods that change state are proved against specification functions:
- `Authentication`, `Registration`, `PasswordReset` and `Reconciliation` each return a `Step(result, accounts)`.
- The properties the source promises are proved as lemmas about those functions.

Time is an explicit parameter (`now`, in minutes). Tokens generated by the store are parameters too.

The code is inconsistent in a few places, and the model follows what it does:
- `BaseQueryParams` with `sortProperty`/`sortOrder` on the backend;
- `sortBy` in the frontend type, while `EntityTable` sets `sortProperty`/`sortOrder`;
- `Succeeded` computed before the lockout check.

## Model

| member | source | states |
|---|---|---|
| Identity.ResultOf | Backend/DemoAuthWebBackend/Infrastructure/AuthenticationService/PasswordAuthentication/PasswordAuth.cs:97-108 | an identity result succeeds exactly when it carries no errors, and keeps them in order |
| Identity.AccessFailed | Backend/DemoAuthWebBackend/Program.cs:104-105 | one failed access adds one to the counter; the fifth locks the account for 5 minutes and resets the counter to 0; nothing else about the account changes |
| Identity.Failures | Backend/DemoAuthWebBackend/Program.cs:104-105 | repeated failed accesses never change the user, confirmation, password or tokens |
| Identity.ConsecutiveFailuresLockOut | Backend/DemoAuthWebBackend/Program.cs:104-105 | from an unlocked account, fewer failures than remain to the maximum leave it unlocked, and exactly that many lock it |
| Identity.Utf16Length | Frontend/src/utils/common.ts:11 | the UTF-16 length used by `.length` and `string.Length` lies between the number of code points and twice it |
| Identity.Utf16LengthAppend | Frontend/src/utils/common.ts:11 | UTF-16 length adds up over concatenation |
| Identity.Utf16LengthCountsAstralTwice | Frontend/src/utils/common.ts:11 | the UTF-16 length of any text is its number of code points plus the number of those outside the Basic Multilingual Plane |
| Identity.PasswordErrors | Backend/DemoAuthWebBackend/Infrastructure/AuthenticationService/PasswordAuthentication/PasswordAuth.cs:99-106 | the default password validator accepts exactly passwords that are not all white space, have 6 or more UTF-16 units, a digit, a lower-case letter, an upper-case letter and a non-alphanumeric character; the too-short error comes first exactly when the password is all white space or shorter than 6 units |
| Identity.BlankPasswordErrors | Backend/DemoAuthWebBackend/Infrastructure/AuthenticationService/PasswordAuthentication/PasswordAuth.cs:99-106 | a non-empty password of white space only, six spaces say, gets exactly the too-short, digit, lower-case and upper-case errors, in that order |
| Identity.CreateErrors | Backend/DemoAuthWebBackend/Infrastructure/AuthenticationService/PasswordAuthentication/PasswordAuth.cs:90-106 | an account is created only for an unused e-mail and a user name that is not blank |
| Identity.UserStore.FindByEmail | Backend/DemoAuthWebBackend/Infrastructure/AuthenticationService/PasswordAuthentication/PasswordAuth.cs:33 | finds the stored user with that e-mail, and nothing when there is none |
| Identity.UserStore.IsEmailConfirmed | Backend/DemoAuthWebBackend/Infrastructure/AuthenticationService/PasswordAuthentication/PasswordAuth.cs:49 | reports the stored confirmation flag |
| Identity.UserStore.IsLockedOutAt | Backend/DemoAuthWebBackend/Infrastructure/AuthenticationService/PasswordAuthentication/PasswordAuth.cs:50 | reports whether the lockout end has not yet passed |
| Identity.UserStore.CheckPasswordOf | Backend/DemoAuthWebBackend/Infrastructure/AuthenticationService/PasswordAuthentication/PasswordAuth.cs:51 | compares with the stored password, ignoring lockout |
| Identity.UserStore.ResetAccessFailedCountOf | Backend/DemoAuthWebBackend/Infrastructure/AuthenticationService/PasswordAuthentication/PasswordAuth.cs:63 | only that account's counter becomes 0 |
| Identity.UserStore.AccessFailedOf | Backend/DemoAuthWebBackend/Infrastructure/AuthenticationService/PasswordAuthentication/PasswordAuth.cs:68 | only that account changes, by one failed access |
| Identity.UserStore.Create | Backend/DemoAuthWebBackend/Infrastructure/AuthenticationService/PasswordAuthentication/PasswordAuth.cs:99-106 | adds the account exactly when validation finds no errors, and otherwise changes nothing |
| Identity.UserStore.GeneratePasswordResetToken | Backend/DemoAuthWebBackend/Infrastructure/AuthenticationService/PasswordAuthentication/PasswordAuth.cs:158 | records the new reset token, stamped with the time it was issued, for that account only |
| Identity.UserStore.ResetPassword | Backend/DemoAuthWebBackend/Infrastructure/AuthenticationService/PasswordAuthentication/PasswordAuth.cs:184 | sets the password and voids all outstanding tokens exactly when the token is outstanding, issued no more than one day (the token provider's lifespan) before `now`, and the password valid; an expired or unknown token gives InvalidToken |
| Identity.UserStore.ConfirmEmail | Backend/DemoAuthWebBackend/Infrastructure/AuthenticationService/PasswordAuthentication/PasswordAuth.cs:142 | confirms the e-mail exactly when the token was issued for it no more than one day before `now` |
| AuthDtos.RegistrationCredentials.constructor | Backend/DemoAuthWebBackend/Infrastructure/AuthenticationService/DTOs/RegistrationCredentialsDto.cs:1-9 | builds the sign-up request with no redirect URL |
| Utf8.EncodeChar | Backend/DemoAuthWebBackend/Infrastructure/AuthenticationService/PasswordAuthentication/PasswordAuth.cs:160 | a code point takes 1 to 4 bytes, one exactly for ASCII, every byte after the first a continuation byte |
| Utf8.DecodeFirstOfEncodeChar | Backend/DemoAuthWebBackend/Infrastructure/AuthenticationService/PasswordAuthentication/PasswordAuth.cs:160 | decoding the first character of an encoding gives back that character and its length |
| Utf8.DecodeEncode | Backend/DemoAuthWebBackend/Infrastructure/AuthenticationService/PasswordAuthentication/PasswordAuth.cs:159-180 | UTF-8 decoding inverts encoding |
| Utf8.EncodeAppend | Backend/DemoAuthWebBackend/Infrastructure/AuthenticationService/PasswordAuthentication/PasswordAuth.cs:159-160 | encoding distributes over concatenation |
| Utf8.EncodeAscii | Backend/DemoAuthWebBackend/Infrastructure/AuthenticationService/PasswordAuthentication/PasswordAuth.cs:159-160 | ASCII text encodes byte for character |
| Base64Url.EncodeLength | Backend/DemoAuthWebBackend/Infrastructure/AuthenticationService/PasswordAuthentication/PasswordAuth.cs:160 | unpadded output has ceil(4n/3) characters, all URL-safe |
| Base64Url.DecodeSextetOfEncode | Backend/DemoAuthWebBackend/Infrastructure/AuthenticationService/PasswordAuthentication/PasswordAuth.cs:159-180 | each alphabet character decodes to its six bits |
| Base64Url.DecodeFullGroup | Backend/DemoAuthWebBackend/Infrastructure/AuthenticationService/PasswordAuthentication/PasswordAuth.cs:159-180 | four characters written for three bytes decode to those bytes |
| Base64Url.DecodeTwoByteGroup | Backend/DemoAuthWebBackend/Infrastructure/AuthenticationService/PasswordAuthentication/PasswordAuth.cs:159-180 | three characters written for a final two bytes decode to those bytes |
| Base64Url.DecodeOneByteGroup | Backend/DemoAuthWebBackend/Infrastructure/AuthenticationService/PasswordAuthentication/PasswordAuth.cs:159-180 | two characters written for a final byte decode to that byte |
| Base64Url.DecodeEncodeTwo | Backend/DemoAuthWebBackend/Infrastructure/AuthenticationService/PasswordAuthentication/PasswordAuth.cs:159-180 | a two-byte input, padded with one '=', round-trips through the standard decoder |
| Base64Url.DecodeEncodeOne | Backend/DemoAuthWebBackend/Infrastructure/AuthenticationService/PasswordAuthentication/PasswordAuth.cs:159-180 | a one-byte input, padded with "==", round-trips through the standard decoder |
| Base64Url.DecodeEncodeShort | Backend/DemoAuthWebBackend/Infrastructure/AuthenticationService/PasswordAuthentication/PasswordAuth.cs:159-180 | inputs shorter than one full group round-trip through the standard decoder once padded |
| Base64Url.DecodeEncode | Backend/DemoAuthWebBackend/Infrastructure/AuthenticationService/PasswordAuthentication/PasswordAuth.cs:159-180 | Base64url decoding inverts encoding |
| Base64Url.DecodeSextet | Backend/DemoAuthWebBackend/Infrastructure/AuthenticationService/PasswordAuthentication/PasswordAuth.cs:175-180 | a character decodes exactly when it is in the URL-safe or the standard alphabet, and a URL-safe character decodes to the value it encodes |
| Base64Url.Decode | Backend/DemoAuthWebBackend/Infrastructure/AuthenticationService/PasswordAuthentication/PasswordAuth.cs:175-180 | an empty link is no bytes; a length of 1 mod 4 is the FormatException with the length in its message; any character outside both alphabets other than '=' is an error |
| Base64Url.DecodeBase64Rejects | Backend/DemoAuthWebBackend/Infrastructure/AuthenticationService/PasswordAuthentication/PasswordAuth.cs:175-180 | the standard decoder fails on any character outside both alphabets other than '=' |
| Base64Url.DecodePaddedEncode | Backend/DemoAuthWebBackend/Infrastructure/AuthenticationService/PasswordAuthentication/PasswordAuth.cs:175-180 | the encoder's output, padded as Base64UrlDecode pads it, decodes back to the bytes through the standard decoder |
| Base64Url.DecodeStandardPadding | Backend/DemoAuthWebBackend/Infrastructure/AuthenticationService/PasswordAuthentication/PasswordAuth.cs:175-180 | the '='-padded form decodes to the same bytes as the unpadded one |
| Base64Url.PaddedAndUnpaddedAgree | Backend/DemoAuthWebBackend/Infrastructure/AuthenticationService/PasswordAuthentication/PasswordAuth.cs:175-180 | "QUI" and "QUI=" both decode to the bytes of "AB" |
| PasswordAuth.Authenticate | Backend/DemoAuthWebBackend/Infrastructure/AuthenticationService/PasswordAuthentication/PasswordAuth.cs:31-77 | the sign-in method's result and new store are those of `Authentication`, and the store stays valid |
| PasswordAuth.UnknownEmailRevealsNothing | Backend/DemoAuthWebBackend/Infrastructure/AuthenticationService/PasswordAuthentication/PasswordAuth.cs:33-44 | an unknown e-mail gives no user, all flags false, and no change |
| PasswordAuth.EarlyReturnLeavesCounter | Backend/DemoAuthWebBackend/Infrastructure/AuthenticationService/PasswordAuthentication/PasswordAuth.cs:46-58 | an unconfirmed or locked-out account is left untouched; Succeeded is the raw password check and the flags report the store |
| PasswordAuth.CorrectPasswordResetsCounter | Backend/DemoAuthWebBackend/Infrastructure/AuthenticationService/PasswordAuthentication/PasswordAuth.cs:60-64 | a confirmed, unlocked account with the right password succeeds and only its counter is reset |
| PasswordAuth.WrongPasswordCountsOnce | Backend/DemoAuthWebBackend/Infrastructure/AuthenticationService/PasswordAuthentication/PasswordAuth.cs:65-74 | a wrong password counts exactly one failure; IsLockedOut is true exactly when the store now reports lockout, that is on the fifth failure |
| PasswordAuth.AuthenticationKeepsStoreValid | Backend/DemoAuthWebBackend/Infrastructure/AuthenticationService/PasswordAuthentication/PasswordAuth.cs:31-77 | sign-in keeps the store well formed and adds or removes no account |
| PasswordAuth.WrongPasswordsLockOut | Backend/DemoAuthWebBackend/Infrastructure/AuthenticationService/PasswordAuthentication/PasswordAuth.cs:65-74 | after k wrong sign-ins the account is k failures on and unlocked; the next one reports lockout exactly when it is the last allowed |
| PasswordAuth.LockedOutCorrectPasswordSucceeds | Backend/DemoAuthWebBackend/Infrastructure/AuthenticationService/PasswordAuthentication/PasswordAuth.cs:46-58 | as written, a confirmed, locked-out account with the right password gets Succeeded true (see Findings) |
| PasswordAuth.AuthenticationIntended | Backend/DemoAuthWebBackend/Infrastructure/AuthenticationService/PasswordAuthentication/PasswordAuth.cs:46-58 | the corrected sign-in changes the store exactly as the written one |
| PasswordAuth.IntendedRespectsLockout | Backend/DemoAuthWebBackend/Infrastructure/AuthenticationService/PasswordAuthentication/PasswordAuth.cs:46-58 | the corrected sign-in never succeeds for a locked-out account and otherwise agrees with the written one |
| PasswordAuth.AllowedIsPrintable | Backend/DemoAuthWebBackend/Infrastructure/AuthenticationService/PasswordAuthentication/PasswordAuth.cs:14 | every allowed user-name character is printable ASCII, never white space |
| PasswordAuth.LocalPart | Backend/DemoAuthWebBackend/Infrastructure/AuthenticationService/PasswordAuthentication/PasswordAuth.cs:81-84 | the derived user name is the prefix of the e-mail before its first '@' (all of it when there is none) |
| PasswordAuth.KeepAllowedAppend | Backend/DemoAuthWebBackend/Infrastructure/AuthenticationService/PasswordAuthentication/PasswordAuth.cs:88 | the allow-list filter distributes over concatenation |
| PasswordAuth.KeepAllowedOnlyAllowed | Backend/DemoAuthWebBackend/Infrastructure/AuthenticationService/PasswordAuthentication/PasswordAuth.cs:88 | the filter keeps only allowed characters and never lengthens |
| PasswordAuth.KeepAllowedOfAllowed | Backend/DemoAuthWebBackend/Infrastructure/AuthenticationService/PasswordAuthentication/PasswordAuth.cs:88 | the filter leaves an all-allowed text as it is |
| PasswordAuth.SanitizeIsPointwise | Backend/DemoAuthWebBackend/Infrastructure/AuthenticationService/PasswordAuthentication/PasswordAuth.cs:87-88 | sanitising works character by character and in order: a space becomes '_', an allowed character stays, any other is dropped |
| PasswordAuth.SanitizedIsAllowed | Backend/DemoAuthWebBackend/Infrastructure/AuthenticationService/PasswordAuthentication/PasswordAuth.cs:14-88 | a sanitised name holds only allowed characters and no space, and is no longer than the input |
| PasswordAuth.SanitizeIdempotent | Backend/DemoAuthWebBackend/Infrastructure/AuthenticationService/PasswordAuthentication/PasswordAuth.cs:87-88 | sanitising twice is sanitising once |
| PasswordAuth.SanitizeKeepsAllowedNames | Backend/DemoAuthWebBackend/Infrastructure/AuthenticationService/PasswordAuthentication/PasswordAuth.cs:87-88 | a name of allowed characters is kept unchanged |
| PasswordAuth.SanitizedNamePassesValidator | Backend/DemoAuthWebBackend/Infrastructure/AuthenticationService/PasswordAuthentication/PasswordAuth.cs:87-95 | a non-empty sanitised name is never rejected as an invalid user name |
| PasswordAuth.IndexOfNewLine | Backend/DemoAuthWebBackend/Infrastructure/AuthenticationService/PasswordAuthentication/PasswordAuth.cs:124-128 | finds the first line break at or after a position |
| PasswordAuth.AppendLinesSnoc | Backend/DemoAuthWebBackend/Infrastructure/AuthenticationService/PasswordAuthentication/PasswordAuth.cs:125-128 | one more AppendLine adds the line and a line break at the end |
| PasswordAuth.LinesOfAppendLines | Backend/DemoAuthWebBackend/Infrastructure/AuthenticationService/PasswordAuthentication/PasswordAuth.cs:124-136 | the failure message splits back into exactly the error descriptions, in order |
| PasswordAuth.BuildErrorMessage | Backend/DemoAuthWebBackend/Infrastructure/AuthenticationService/PasswordAuthentication/PasswordAuth.cs:124-128 | the StringBuilder loop produces every description followed by a line break |
| PasswordAuth.Register | Backend/DemoAuthWebBackend/Infrastructure/AuthenticationService/PasswordAuthentication/PasswordAuth.cs:79-138 | registration overwrites only the request's user name, with the derived one, and its result and new store are those of `Registration` |
| PasswordAuth.RegistrationSuccess | Backend/DemoAuthWebBackend/Infrastructure/AuthenticationService/PasswordAuthentication/PasswordAuth.cs:90-122 | on success exactly one account is added, under the e-mail, every existing account is left as it was, the new one has the sanitised name, EmailConfirmed = !requiresVerification, no password for a null or empty one, a clean counter, no confirmation token and the message chosen by requiresVerification |
| PasswordAuth.RegistrationFailure | Backend/DemoAuthWebBackend/Infrastructure/AuthenticationService/PasswordAuthentication/PasswordAuth.cs:124-137 | on failure the store is unchanged, User and token are null, and the message is every validation error's description followed by a line break |
| PasswordAuth.DuplicateEmailRejected | Backend/DemoAuthWebBackend/Infrastructure/AuthenticationService/PasswordAuthentication/PasswordAuth.cs:99-106 | registering a known e-mail fails and changes nothing |
| PasswordAuth.VerifyAccountEmail | Backend/DemoAuthWebBackend/Infrastructure/AuthenticationService/PasswordAuthentication/PasswordAuth.cs:140-151 | confirmation succeeds exactly for a token issued for that account within the one-day lifespan, and then only sets that account's flag |
| PasswordAuth.IndexOfSeparator | Backend/DemoAuthWebBackend/Infrastructure/AuthenticationService/PasswordAuthentication/PasswordAuth.cs:178 | finds the first "::" at or after a position |
| PasswordAuth.Split | Backend/DemoAuthWebBackend/Infrastructure/AuthenticationService/PasswordAuthentication/PasswordAuth.cs:178 | splitting always gives at least one part |
| PasswordAuth.SplitNoSeparator | Backend/DemoAuthWebBackend/Infrastructure/AuthenticationService/PasswordAuthentication/PasswordAuth.cs:178 | a text without "::" splits into itself |
| PasswordAuth.SplitComposite | Backend/DemoAuthWebBackend/Infrastructure/AuthenticationService/PasswordAuthentication/PasswordAuth.cs:159-178 | `email::token` splits into e-mail and token when neither holds "::" and the e-mail does not end in ':' |
| PasswordAuth.ResetTokenRoundTrip | Backend/DemoAuthWebBackend/Infrastructure/AuthenticationService/PasswordAuthentication/PasswordAuth.cs:159-180 | decoding a reset link gives back the e-mail and token under those conditions |
| PasswordAuth.DecodeOfEncodedResetToken | Backend/DemoAuthWebBackend/Infrastructure/AuthenticationService/PasswordAuthentication/PasswordAuth.cs:177-180 | for any e-mail and token, decoding the link gives the first two "::"-parts of the composite, or the index error when there is only one |
| PasswordAuth.SplitWithSeparatorInEmail | Backend/DemoAuthWebBackend/Infrastructure/AuthenticationService/PasswordAuthentication/PasswordAuth.cs:178 | "a::b@c::t" splits into three parts |
| PasswordAuth.ResetTokenMisreadsSeparatorInEmail | Backend/DemoAuthWebBackend/Infrastructure/AuthenticationService/PasswordAuthentication/PasswordAuth.cs:177-180 | as written, the valid address "a::b@c" with token "t" decodes to e-mail "a" and token "b@c" (see Findings) |
| PasswordAuth.SeparatorEmailIsValid | Backend/DemoAuthWebBackend/Infrastructure/AuthenticationService/PasswordAuthentication/PasswordAuth.cs:90-106 | "a::b@c" passes the store's e-mail check |
| PasswordAuth.LastSeparatorBelow | Backend/DemoAuthWebBackend/Infrastructure/AuthenticationService/PasswordAuthentication/PasswordAuth.cs:178 | finds the last "::" below a position |
| PasswordAuth.ResetTokenRoundTripIntended | Backend/DemoAuthWebBackend/Infrastructure/AuthenticationService/PasswordAuthentication/PasswordAuth.cs:159-180 | the corrected decoder, splitting at the last "::", round-trips every e-mail whatever it contains, for tokens without ':' |
| PasswordAuth.LastSeparatorOfComposite | Backend/DemoAuthWebBackend/Infrastructure/AuthenticationService/PasswordAuthentication/PasswordAuth.cs:159 | the last "::" of the composite is the one the encoder inserted |
| PasswordAuth.RequestResetPassword | Backend/DemoAuthWebBackend/Infrastructure/AuthenticationService/PasswordAuthentication/PasswordAuth.cs:153-173 | an unknown e-mail throws InvalidOperationException and changes nothing; otherwise the token is recorded with its issue time and the mail links to scheme://host/recover-password/ plus the encoded composite |
| PasswordAuth.ResetPassword | Backend/DemoAuthWebBackend/Infrastructure/AuthenticationService/PasswordAuthentication/PasswordAuth.cs:175-193 | the reset's result and new store are those of `PasswordReset`: decode error, ArgumentException for an unknown user, or the store's verdict |
| PasswordAuth.ResetLinkWorksOnce | Backend/DemoAuthWebBackend/Infrastructure/AuthenticationService/PasswordAuthentication/PasswordAuth.cs:153-193 | a requested link followed within one day resets the password once with a valid password and fails when used again |
| PasswordAuth.ExpiredResetLinkFails | Backend/DemoAuthWebBackend/Infrastructure/AuthenticationService/PasswordAuthentication/PasswordAuth.cs:175-193 | a link followed more than one day after its request fails and leaves the store unchanged |
| OAuthAuthentication.FirstClaimValue | Backend/DemoAuthWebBackend/Infrastructure/AuthenticationService/OAuthAuthentication/OAuthAuthentication.cs:27-28 | the value of the first claim of the type, none exactly when no claim has it |
| OAuthAuthentication.AuthenticateOrRegister | Backend/DemoAuthWebBackend/Infrastructure/AuthenticationService/OAuthAuthentication/OAuthAuthentication.cs:15-79 | the method's result and new store are those of `Reconciliation`, and the store stays valid |
| OAuthAuthentication.NoEmailNoChange | Backend/DemoAuthWebBackend/Infrastructure/AuthenticationService/OAuthAuthentication/OAuthAuthentication.cs:17-33 | a failed provider result or a missing or empty e-mail claim gives Succeeded false and no change |
| OAuthAuthentication.SucceededMeansSignedInAccount | Backend/DemoAuthWebBackend/Infrastructure/AuthenticationService/OAuthAuthentication/OAuthAuthentication.cs:35-76 | success means a user with the claimed e-mail whose account is confirmed, unlocked and at counter 0, with every other account untouched |
| OAuthAuthentication.NewAccountStep | Backend/DemoAuthWebBackend/Infrastructure/AuthenticationService/OAuthAuthentication/OAuthAuthentication.cs:35-58 | with no account under the e-mail, success registers a confirmed, unlocked account for it at counter 0 and leaves the other accounts as they were |
| OAuthAuthentication.ExistingAccountStep | Backend/DemoAuthWebBackend/Infrastructure/AuthenticationService/OAuthAuthentication/OAuthAuthentication.cs:60-76 | with an account under the e-mail, success happens exactly when it is confirmed and not locked out; success resets its counter, anything else counts a failure |
| OAuthAuthentication.FirstSignInRegistersConfirmedAccount | Backend/DemoAuthWebBackend/Infrastructure/AuthenticationService/OAuthAuthentication/OAuthAuthentication.cs:35-58 | a new e-mail registers one confirmed, password-less account named from the Name claim |
| OAuthAuthentication.LockedOutAccountStaysLockedOut | Backend/DemoAuthWebBackend/Infrastructure/AuthenticationService/OAuthAuthentication/OAuthAuthentication.cs:60-76 | a locked-out account fails, counts one more failure and stays locked |
| OAuthAuthentication.UnconfirmedStep | Backend/DemoAuthWebBackend/Infrastructure/AuthenticationService/OAuthAuthentication/OAuthAuthentication.cs:70-75 | an unconfirmed account fails, counts one failure, is never confirmed, and reports lockout as the store does |
| OAuthAuthentication.UnconfirmedAccountLocksOut | Backend/DemoAuthWebBackend/Infrastructure/AuthenticationService/OAuthAuthentication/OAuthAuthentication.cs:70-75 | repeated external sign-ins of an unconfirmed account lock it on the fifth |
| AuthenticationController.SignInResponseOf | Backend/DemoAuthWebBackend/Controllers/Apis/AuthenticationController.cs:41-70 | sign-in opens a session exactly when Succeeded, User and IsEmailConfirmed hold; asks for confirmation exactly when confirmation is missing; a 401 never reports success for a locked-out account |
| AuthenticationController.SignInIgnoresLockout | Backend/DemoAuthWebBackend/Controllers/Apis/AuthenticationController.cs:40-52 | as written, a session opens exactly for a known, confirmed account with the right password, locked out or not |
| AuthenticationController.LockedOutAccountSignsIn | Backend/DemoAuthWebBackend/Controllers/Apis/AuthenticationController.cs:40-52 | a confirmed, locked-out account with the right password is signed in (see Findings) |
| AuthenticationController.SignInIntendedRespectsLockout | Backend/DemoAuthWebBackend/Controllers/Apis/AuthenticationController.cs:40-52 | with the corrected authenticator a session opens exactly for a known, confirmed, unlocked account with the right password |
| AuthenticationController.UnauthorizedNeverSucceeded | Backend/DemoAuthWebBackend/Controllers/Apis/AuthenticationController.cs:63-70 | a 401 reports Succeeded false whenever lockout is reported |
| AuthenticationController.SignUpResponseOf | Backend/DemoAuthWebBackend/Controllers/Apis/AuthenticationController.cs:84-91 | an OTP goes out exactly when registration succeeded with a user; otherwise BadRequest carries the registration message |
| AuthenticationController.SignUpThenSignInNeedsConfirmation | Backend/DemoAuthWebBackend/Controllers/Apis/AuthenticationController.cs:80-98 | a successful sign-up leaves an unconfirmed account, so signing in with its password asks for confirmation |
| AuthenticationController.SignUpRejectedChangesNothing | Backend/DemoAuthWebBackend/Controllers/Apis/AuthenticationController.cs:84-91 | a rejected sign-up leaves the store unchanged and returns the registration message |
| AuthenticationController.VerifyResponseOf | Backend/DemoAuthWebBackend/Controllers/Apis/AuthenticationController.cs:101-128 | a session opens exactly when verification succeeded with a user; a wrong code, an InvalidOperationException and any other exception each get their own response; a success without a user fails on `result.User!` and gets the 500 of the general catch |
| AuthenticationController.GoogleCallbackResponseOf | Backend/DemoAuthWebBackend/Controllers/Apis/AuthenticationController.cs:200-220 | a failed callback redirects to the OAuth error page with no session; a successful one with a user opens a session and redirects to "/"; a success without a user fails on `result.User!` and gets the 500 of the general catch |
| AuthenticationController.GoogleCallbackOpensStoredAccount | Backend/DemoAuthWebBackend/Controllers/Apis/AuthenticationController.cs:200-220 | a callback never reaches the 500 branch, and its session is always for a stored, confirmed account with the claimed e-mail |
| AuthenticationController.AuthCookies | Backend/DemoAuthWebBackend/Controllers/Apis/AuthenticationController.cs:240-277 | three secure, strict cookies (an HTTP-only session token, the user info, "isLoggedIn"=true) that expire at now + the configured minutes exactly when `remember` is set |
| UnitOfWork.Active | Backend/DemoAuthWebBackend/Repository/_UoW/AppUnitOfWork.cs:10 | every transaction counted active was begun |
| UnitOfWork.ActiveBelow | Backend/DemoAuthWebBackend/Repository/_UoW/AppUnitOfWork.cs:10 | active transactions carry numbers the database has already given out |
| UnitOfWork.NumberedAppend | Backend/DemoAuthWebBackend/Repository/_UoW/AppUnitOfWork.cs:20-34 | logging a properly numbered event keeps the log numbered |
| UnitOfWork.ActiveAppend | Backend/DemoAuthWebBackend/Repository/_UoW/AppUnitOfWork.cs:20-88 | beginning adds a transaction to the active ones, disposing removes it, anything else leaves them alone |
| UnitOfWork.AppUnitOfWork.constructor | Backend/DemoAuthWebBackend/Repository/_UoW/AppUnitOfWork.cs:10 | a fresh unit of work has no transaction |
| UnitOfWork.AppUnitOfWork.BeginTransaction | Backend/DemoAuthWebBackend/Repository/_UoW/AppUnitOfWork.cs:20-26 | begins a transaction only when none is active, returns the active one, and it is the only active transaction |
| UnitOfWork.AppUnitOfWork.BeginTransactionAsync | Backend/DemoAuthWebBackend/Repository/_UoW/AppUnitOfWork.cs:28-34 | as BeginTransaction |
| UnitOfWork.AppUnitOfWork.End | Backend/DemoAuthWebBackend/Repository/_UoW/AppUnitOfWork.cs:36-88 | with no active transaction, InvalidOperationException and no change; otherwise ends the transaction, disposes it and clears it |
| UnitOfWork.AppUnitOfWork.CommitTransaction | Backend/DemoAuthWebBackend/Repository/_UoW/AppUnitOfWork.cs:36-44 | commits, disposes and clears the active transaction, or throws and changes nothing |
| UnitOfWork.AppUnitOfWork.CommitTransactionAsync | Backend/DemoAuthWebBackend/Repository/_UoW/AppUnitOfWork.cs:46-54 | as CommitTransaction |
| UnitOfWork.AppUnitOfWork.RollbackTransaction | Backend/DemoAuthWebBackend/Repository/_UoW/AppUnitOfWork.cs:70-78 | rolls back, disposes and clears the active transaction, or throws and changes nothing |
| UnitOfWork.AppUnitOfWork.RollbackTransactionAsync | Backend/DemoAuthWebBackend/Repository/_UoW/AppUnitOfWork.cs:80-88 | as RollbackTransaction |
| UnitOfWork.AppUnitOfWork.Dispose | Backend/DemoAuthWebBackend/Repository/_UoW/AppUnitOfWork.cs:56-60 | disposes the active transaction if any, then the context; no transaction is left active |
| UnitOfWork.AppUnitOfWork.DisposeAsync | Backend/DemoAuthWebBackend/Repository/_UoW/AppUnitOfWork.cs:62-68 | as Dispose |
| UnitOfWork.AppUnitOfWork.SaveChanges | Backend/DemoAuthWebBackend/Repository/_UoW/AppUnitOfWork.cs:90-93 | passes the save to the context and returns its count, leaving the transaction alone |
| UnitOfWork.AppUnitOfWork.SaveChangesAsync | Backend/DemoAuthWebBackend/Repository/_UoW/AppUnitOfWork.cs:95-98 | as SaveChanges |
| UnitOfWork.BeginCommitBegin | Backend/DemoAuthWebBackend/Repository/_UoW/AppUnitOfWork.cs:20-54 | a repeated Begin returns the same transaction; after a Commit the next Begin starts a fresh one |
| ProductRepository.Filter | Backend/DemoAuthWebBackend/Repository/ProductRepository/ProductRepository.cs:59-76 | `Where` keeps exactly the elements that satisfy the predicate, taken from the input |
| ProductRepository.FilterKeepsOrder | Backend/DemoAuthWebBackend/Repository/ProductRepository/ProductRepository.cs:73-76 | filtering a sorted sequence keeps it sorted |
| ProductRepository.FilterAll | Backend/DemoAuthWebBackend/Repository/ProductRepository/ProductRepository.cs:59-76 | a predicate that holds everywhere filters nothing |
| ProductRepository.Insert | Backend/DemoAuthWebBackend/Repository/ProductRepository/ProductRepository.cs:68-70 | inserting into a sorted sequence keeps it sorted and adds exactly that element |
| ProductRepository.SortBy | Backend/DemoAuthWebBackend/Repository/ProductRepository/ProductRepository.cs:68-70 | `OrderBy` yields a sorted permutation of its input |
| ProductRepository.Project | Backend/DemoAuthWebBackend/Repository/ProductRepository/ProductRepository.cs:79-80 | the projection keeps the number of rows |
| ProductRepository.QueryAndSelectSelects | Backend/DemoAuthWebBackend/Repository/ProductRepository/ProductRepository.cs:55-82 | the query result holds exactly the input products that match a non-empty search term in name or description and the FlagDel filter, each no more often than in the input |
| ProductRepository.QueryAndSelectOrders | Backend/DemoAuthWebBackend/Repository/ProductRepository/ProductRepository.cs:64-76 | with property and order set, the result is ascending or descending on the property and stays so after the FlagDel filter |
| ProductRepository.UnfilteredQueryIsPermutation | Backend/DemoAuthWebBackend/Repository/ProductRepository/ProductRepository.cs:59-76 | with no search and no FlagDel the result is a permutation of the input, and the input itself when no sort is asked |
| ProductRepository.SortNeedsPropertyAndOrder | Backend/DemoAuthWebBackend/Repository/ProductRepository/ProductRepository.cs:64 | without both a property and an order, nothing is sorted |
| ProductRepository.DefaultQueryIsNoQuery | Backend/DemoAuthWebBackend/Repository/_QueryParams/BaseQueryParams.cs:10-26 | the default query (page 1, size 10, no search, no sort, no FlagDel) selects as no query at all |
| ProductRepository.ListingsAgree | Backend/DemoAuthWebBackend/Repository/ProductRepository/ProductRepository.cs:20-40 | GetList, GetListAsync and the items of GetPagedList coincide, a missing query meaning all products |
| ProductRepository.ProductEntity.constructor | Backend/DemoAuthWebBackend/Entities/Product.cs:12-18 | wraps the product row |
| ProductRepository.ChangeTracker.constructor | Backend/DemoAuthWebBackend/Repository/ProductRepository/ProductRepository.cs:45 | nothing is tracked |
| ProductRepository.ChangeTracker.Attach | Backend/DemoAuthWebBackend/Repository/ProductRepository/ProductRepository.cs:45 | the entity is tracked with no field marked |
| ProductRepository.ChangeTracker.MarkModified | Backend/DemoAuthWebBackend/Repository/ProductRepository/ProductRepository.cs:47-50 | marks one more field of that entity only |
| ProductRepository.ChangeTracker.MarkUpdatedFields | Backend/DemoAuthWebBackend/Repository/ProductRepository/ProductRepository.cs:47-50 | on a freshly attached entity, exactly Name, Description, Price and UpdatedAt end up marked |
| ProductRepository.Update | Backend/DemoAuthWebBackend/Repository/ProductRepository/ProductRepository.cs:42-53 | stamps UpdatedAt, marks exactly Name, Description, Price and UpdatedAt as modified (never CreatedAt or FlagDel) and returns the same entity |
| Common.HasCharAppend | Frontend/src/utils/common.ts:5-8 | a character class found in a part is found in the whole |
| Common.StrongPasswordExtends | Frontend/src/utils/common.ts:3-17 | adding text on either side of a strong password keeps it strong |
| Common.StrongPasswordPassesIdentity | Frontend/src/utils/common.ts:3-17 | every password the frontend calls strong passes the backend's password validator |
| Common.IdentityAcceptsShorterPassword | Frontend/src/utils/common.ts:4 | the backend accepts "Aa1!aa", which the frontend calls weak |
| Common.AstralCharactersCountTwice | Frontend/src/utils/common.ts:11 | an illustration of the rule below: a password of six code points, two outside the BMP, is long enough, because `.length` counts UTF-16 units |
| Common.HexValue | Frontend/src/utils/common.ts:21 | a hex digit's value is below 16 |
| Common.HexDigit | Frontend/src/utils/common.ts:21 | the upper-case digit for a value reads back as that value |
| Common.Escape | Frontend/src/utils/common.ts:21 | "%HH" with HH the byte's value |
| Common.EscapeBytes | Frontend/src/utils/common.ts:21 | three characters per byte |
| Common.ReadEscapes | Frontend/src/utils/common.ts:21 | reading `count` escapes consumes 3·count characters and gives count bytes |
| Common.ReadEscapesOfEscapeBytes | Frontend/src/utils/common.ts:21 | reading escapes back gives the escaped bytes |
| Common.DecodeUnescaped | Frontend/src/utils/common.ts:21 | `decodeURIComponent` leaves text without '%' unchanged |
| Common.EscapeDataString | Backend/DemoAuthWebBackend/Controllers/Apis/AuthenticationController.cs:246-276 | a cookie value as the server escapes it holds no ';' and no space, and is no shorter |
| Common.EscapeBytesChars | Frontend/src/utils/common.ts:21 | escapes consist of '%' and hex digits only |
| Common.DecodeEscapedChar | Frontend/src/utils/common.ts:21 | decoding a character's escaped UTF-8 bytes gives the character back |
| Common.DecodeEscapeDataString | Frontend/src/utils/common.ts:21 | `decodeURIComponent` inverts the server's escaping of cookie values |
| Common.TakeValue | Frontend/src/utils/common.ts:20 | `([^;]+)` takes the longest prefix without ';' |
| Common.FindEntry | Frontend/src/utils/common.ts:20 | finds the leftmost match of `(^| )name=` followed by a value at or after a position |
| Common.CookieValueIsLeftmostMatch | Frontend/src/utils/common.ts:20 | no value exactly when the pattern matches nowhere; otherwise the value after the leftmost match |
| Common.GetCookie | Frontend/src/utils/common.ts:19-22 | null exactly when the pattern does not match; otherwise the URI-decoded matched value (a URIError for malformed escapes) |
| Common.EntryStart | Frontend/src/utils/common.ts:20 | a cookie entry starts a match exactly when its name is the one asked |
| Common.EntryValue | Frontend/src/utils/common.ts:20 | the value taken after `name=` is the entry's value |
| Common.TakeValuePrefix | Frontend/src/utils/common.ts:20 | the value stops at the next ';' |
| Common.MatchesInTail | Frontend/src/utils/common.ts:20 | past a first entry without spaces, matches in the rest are matches of the rest |
| Common.JarLookup | Frontend/src/utils/common.ts:19-22 | the first cookie of the jar with that name, none exactly when there is none |
| Common.FirstEntry | Frontend/src/utils/common.ts:20 | the cookie header is the first entry, then "; " and the rest |
| Common.HeadEntryMatches | Frontend/src/utils/common.ts:20 | a first cookie with the name is the one found |
| Common.OnlyEntryOther | Frontend/src/utils/common.ts:20 | a single cookie with another name gives no match |
| Common.FindEntryInTail | Frontend/src/utils/common.ts:20 | searching from inside the rest of the header finds what the search in the rest alone finds, shifted |
| Common.FindEntryPastHead | Frontend/src/utils/common.ts:20 | the search skips a first entry with another name |
| Common.SkipEntry | Frontend/src/utils/common.ts:20 | a first entry with another name is skipped |
| Common.TailEntries | Frontend/src/utils/common.ts:20 | looking up past a first cookie with another name is looking up in the rest of the jar |
| Common.CookieValueOfJar | Frontend/src/utils/common.ts:19-22 | on a well-formed cookie header the regex finds exactly the first cookie with that name |
| Common.GetCookieReadsEscapedValue | Frontend/src/utils/common.ts:19-22 | getCookie returns the value the server stored, escaped, under that name |
| Common.GetUserInfo | Frontend/src/utils/common.ts:24-40 | an absent cookie gives null; any user info returned is the parse of a non-empty cookie value |
| Common.NoUserInfoCookie | Frontend/src/utils/common.ts:24-26 | without a `userInfo` cookie in the jar there is no user info |
| Common.ElementPairs | Frontend/src/utils/common.ts:48-56 | one pair per array element |
| Common.ElementPairsInOrder | Frontend/src/utils/common.ts:48-56 | the i-th pair is the key with the i-th element's text (String or JSON) |
| Common.QueryPairsAppend | Frontend/src/utils/common.ts:45 | the pairs of a concatenation are the concatenation of the pairs, in entry order |
| Common.QueryPairsSnoc | Frontend/src/utils/common.ts:45 | one more entry appends its own pairs at the end |
| Common.AbsentValueSkipped | Frontend/src/utils/common.ts:46 | an undefined or null value contributes nothing |
| Common.QueryPairsComeFromParams | Frontend/src/utils/common.ts:45-61 | every pair is made from one of the entries under its own key |
| Common.AppendParam | Frontend/src/utils/common.ts:45-62 | the callback for one entry appends exactly that entry's pairs: none for undefined or null, one per array element in order, one otherwise |
| Common.SearchParams.constructor | Frontend/src/utils/common.ts:43 | an empty list of pairs |
| Common.SearchParams.Append | Frontend/src/utils/common.ts:52-60 | `append` adds the pair at the end |
| Common.ToQueryString | Frontend/src/utils/common.ts:42-65 | the nested loops append exactly the pairs `QueryPairs` describes, and the result is their serialisation |
| Common.FormEncodeByte | Frontend/src/utils/common.ts:64 | an encoded byte holds no '&', '=' or ';' |
| Common.FormEncodeBytes | Frontend/src/utils/common.ts:64 | encoded bytes hold no '&' or '=' |
| Common.FormEncode | Frontend/src/utils/common.ts:64 | an encoded name or value holds no '&' or '=' |
| Common.FormDecodeBytesOfEncode | Frontend/src/utils/common.ts:64 | form-decoding inverts form-encoding on bytes |
| Common.FormDecodeEncode | Frontend/src/utils/common.ts:64 | form-decoding inverts form-encoding on text |
| Common.IndexOfChar | Frontend/src/utils/common.ts:64 | finds the first occurrence of a character |
| Common.IndexOfCharAfter | Frontend/src/utils/common.ts:64 | a prefix without the character shifts its first occurrence |
| Common.EncodedPart | Frontend/src/utils/common.ts:64 | an encoded pair holds no '&' and its first '=' is the separator |
| Common.ParseEncodedPair | Frontend/src/utils/common.ts:64 | an encoded pair parses back to name and value |
| Common.ParseLastPair | Frontend/src/utils/common.ts:64 | a lone encoded pair parses to itself |
| Common.ParseFirstPair | Frontend/src/utils/common.ts:64 | an encoded pair before '&' is parsed first, then the rest |
| Common.ParseSerialize | Frontend/src/utils/common.ts:64 | parsing the serialised pairs gives back the pairs, in order |
| Common.QueryStringRoundTrip | Frontend/src/utils/common.ts:42-65 | the query string parses back to exactly the pairs toQueryString appended |
| EntityTable.SpaceBeforeCapitalsShape | Frontend/src/components/table/EntityTable.tsx:45-46 | one space before every A–Z letter: the length grows by their number, a leading capital gets a space in front, any other first character stays first |
| EntityTable.SpaceBeforeCapitalsAppend | Frontend/src/components/table/EntityTable.tsx:45-46 | the replacement works character by character: it distributes over concatenation |
| EntityTable.NoCapitalsUnchanged | Frontend/src/components/table/EntityTable.tsx:45-46 | a string without A–Z letters is left as it is |
| EntityTable.CapitalWordSpaced | Frontend/src/components/table/EntityTable.tsx:45-46 | a word whose only capital is its first letter gains exactly one space, in front |
| EntityTable.SpacedCamelCase | Frontend/src/components/table/EntityTable.tsx:45-46 | a two-word camelCase name gets one space, between its words |
| EntityTable.ToUpperAscii | Frontend/src/components/table/EntityTable.tsx:47 | lower-case letters become upper-case, nothing else changes |
| EntityTable.CapitalizeFirst | Frontend/src/components/table/EntityTable.tsx:47 | only the first character changes, upper-cased, unless it is a line terminator |
| EntityTable.FormatHeaderLength | Frontend/src/components/table/EntityTable.tsx:43-48 | the header is one character longer than the field for every A–Z letter in it |
| EntityTable.CapitalFieldGainsLeadingSpace | Frontend/src/components/table/EntityTable.tsx:43-48 | a field starting with a capital gets a header starting with a space |
| EntityTable.RemoveSpacesAppend | Frontend/src/components/table/EntityTable.tsx:43-48 | removing spaces distributes over concatenation |
| EntityTable.RemoveInsertedSpaces | Frontend/src/components/table/EntityTable.tsx:45-46 | removing the inserted spaces gives back a field that had none |
| EntityTable.FormatHeaderWords | Frontend/src/components/table/EntityTable.tsx:43-48 | the header is the capitalised field split at its capitals: without its spaces it is the capitalised field |
| EntityTable.CamelCaseHeader | Frontend/src/components/table/EntityTable.tsx:43-48 | a two-word camelCase field becomes its first word capitalised, a space, and its second word |
| EntityTable.FormatHeaderExample | Frontend/src/components/table/EntityTable.tsx:43-48 | "createdAt" becomes "Created At" |
| EntityTable.HandlePageChange | Frontend/src/components/table/EntityTable.tsx:109-116 | a page outside 1..pageCount is ignored; otherwise only the page number changes |
| EntityTable.PageChangeKeepsPageInRange | Frontend/src/components/table/EntityTable.tsx:109-116 | the page number stays within 1..pageCount |
| EntityTable.EdgeButtonsAreInert | Frontend/src/components/table/EntityTable.tsx:109-331 | Previous on the first page and Next on the last change nothing |
| EntityTable.HandleSearchConfirm | Frontend/src/components/table/EntityTable.tsx:118-124 | back to page 1 with the new search term, nothing else changed |
| EntityTable.SearchConfirmIdempotent | Frontend/src/components/table/EntityTable.tsx:118-124 | confirming the same search twice is confirming it once |
| EntityTable.Toggled | Frontend/src/components/table/EntityTable.tsx:146-153 | descending exactly when it was ascending |
| EntityTable.OnHeaderClick | Frontend/src/components/table/EntityTable.tsx:146-153 | sorts by the clicked field with an order set, paging and search untouched |
| EntityTable.HeaderClicksAlternate | Frontend/src/components/table/EntityTable.tsx:146-153 | unset or descending becomes ascending, ascending becomes descending, and two clicks restore a set order |
| EntityTable.EndIdx | Frontend/src/components/table/EntityTable.tsx:99 | the minimum of the page's end and the total |
| EntityTable.ShownRange | Frontend/src/components/table/EntityTable.tsx:98-99 | on a page holding items, the range shown lies in 1..total, covers at most one page, and a short page is the last |
| EntityTable.ConsecutivePagesAdjoin | Frontend/src/components/table/EntityTable.tsx:98-99 | consecutive pages show adjacent ranges |
| EntityTable.PageLinks | Frontend/src/components/table/EntityTable.tsx:338 | the links are 1..pageCount, in order |
| EntityTable.PageLinksAreAcceptedPages | Frontend/src/components/table/EntityTable.tsx:109-338 | a page is offered as a link exactly when handlePageChange accepts it |

## Left out

- The OTP service (send, verify, resend, expiry) is not part of this model. Its source is not available. Only its cache-entry shape and limits are mirrored (`AuthDtos`), and its verdict is an input to `VerifyResponseOf`.
- The resend-OTP, forgot-password, reset-password and sign-out actions of the controller are not modelled; they only forward to the operations above.
- JWT issuance: the token is an opaque string.
- E-mail dispatch: `RequestResetPassword` returns the mail instead of sending it.
- `DateTime.UtcNow` and the request's scheme and host are parameters.
- The `ExpirationInMinutes` setting is an integer parameter. Its parsing and a parse failure are not modelled.
- Exceptions that become HTTP 500 are a response of their own, with no further detail.
- ASP.NET Identity internals are not modelled:
  - password hashing: the store compares plain passwords;
  - token generation: the tokens are parameters;
  - normalisation of e-mails and user names for lookup: lookups are exact;
  - the security stamp and concurrency stamp: a successful reset voids every outstanding token of that account instead;
  - the token payload (purpose, user id, stamp): a token is valid for the account it was recorded for, until one day (the token provider's default lifespan, which the application does not change) after it was issued.
- Identity.PasswordErrors: the default validator's unique-characters rule (1 by default) is implied by its other rules and is not listed separately.
- Base64Url.Decode: white space inside a link is an error, while `Convert.FromBase64CharArray` skips it; a link with white space is outside this model. Padding, the standard alphabet and ignored low bits follow the decoder.
- Malformed UTF-8 in a reset link: `Utf8.Decode` returns an error, while .NET substitutes U+FFFD. The round-trip lemmas only concern links built by the encoder.
- The sort property's name is not resolved: `rank` is a parameter giving the key of the named property.
- `OrderBy` stability is not modelled: `SortBy` is some sorted permutation, and the lemmas only rely on sortedness and permutation.
- Paging (`ToPagedList`) is not sliced. `GetPagedList` records the page request next to the items.
- SQL collation: `Contains` is exact substring matching.
- Entity Framework conflicts on `Attach` are not modelled.
- UnitOfWork: use after `Dispose` is excluded by precondition. The source checks nothing itself (AppUnitOfWork.cs:20-98). `Dispose` leaves `_transaction` set, so a later `BeginTransaction` returns the disposed transaction, and `CommitTransaction` or `RollbackTransaction` call into it. With no transaction held, `BeginTransaction` asks the disposed context for a new one and commit or rollback throw `InvalidOperationException`. `SaveChanges` and a repeated `Dispose` reach the disposed context. What the disposed context and transaction then do (typically `ObjectDisposedException`) is Entity Framework behaviour outside this model.
- UnitOfWork.AppUnitOfWork.SaveChanges: the number of rows written is a parameter.
- The async variants behave as the synchronous ones. Cancellation and concurrency are not modelled; the model is sequential.
- Console logging is left out.
- EntityTable.ToUpperAscii and EntityTable.CapitalizeFirst upper-case ASCII letters only. JavaScript's full Unicode `toUpperCase`, which can lengthen a string, is not modelled.
- Common.GetCookie requires a cookie name without regular-expression metacharacters, because the name is pasted into the pattern unescaped. Both names the application uses satisfy this.
- Common.GetUserInfo: `atob` and `JSON.parse` are the `parse` parameter; a throw inside it is its `None`.
- Common.ToQueryString: the values are given already rendered by `String()` and `JSON.stringify`. `Object.entries` order is the order of the entry sequence.
- Common.FormDecode is strict UTF-8, while the WHATWG parser substitutes replacement characters. This only matters for text that was not produced by the serializer.
- Common.EscapeDataString is the server's cookie-value escaping (`Uri.EscapeDataString`, unreserved characters per section 2.3 of RFC 3986), taken as library behaviour.
- The entity table's DOM copy loop (`copyTableAsText`), its data fetching and its React state hooks are not modelled. Neither are `AutoTable.tsx` (duplicate helpers) and `ProductsTable.tsx` (refers to undefined names).
- The frontend `BaseQueryParams` type declares `sortBy`, but the table sets `sortProperty` and `sortOrder`. The model follows the code that sets them.
- DI, middleware, CORS, static files, the CRUD controllers and the generic repository are not part of this model.

## Findings

| source | as written | input that shows it | evidently intended | confidence | as-written member | corrected member |
|---|---|---|---|---|---|---|
| Backend/DemoAuthWebBackend/Infrastructure/AuthenticationService/PasswordAuthentication/PasswordAuth.cs:46-58 | `Succeeded` is the raw password check, made before the lockout test; the controller (AuthenticationController.cs:41-52) signs in on `Succeeded && User != null && IsEmailConfirmed` without looking at `IsLockedOut` | a confirmed account locked out after five wrong passwords, then signed in with the right password before the lockout ends | a locked-out account cannot sign in until the lockout ends | not executed | PasswordAuth.LockedOutCorrectPasswordSucceeds, AuthenticationController.LockedOutAccountSignsIn | PasswordAuth.AuthenticationIntended with PasswordAuth.IntendedRespectsLockout and AuthenticationController.SignInIntendedRespectsLockout |
| Backend/DemoAuthWebBackend/Infrastructure/AuthenticationService/PasswordAuthentication/PasswordAuth.cs:175-180 | the decoded `email::token` is split at every "::" and parts 0 and 1 are taken | the valid address "a::b@c" with token "t": the link decodes to e-mail "a" and token "b@c" | the e-mail is everything before the separator the encoder inserted | not executed | PasswordAuth.ResetTokenMisreadsSeparatorInEmail | PasswordAuth.DecodeResetTokenIntended with PasswordAuth.ResetTokenRoundTripIntended |
