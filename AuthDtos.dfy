/** The authentication core's data-transfer objects and constants. */
module AuthDtos {
  import opened Wrappers
  import opened Identity

  /** Produced fresh by every authentication attempt. */
  datatype AuthenticationResult = AuthenticationResult(
    succeeded: bool,
    isLockedOut: bool,
    isEmailConfirmed: bool,
    user: Option<AppUser>)

  /** Produced once per registration call. */
  datatype RegistrationResult = RegistrationResult(
    succeeded: bool,
    requiresVerification: bool,
    user: Option<AppUser>,
    confirmationToken: Option<string>,
    message: string)

  datatype PasswordCredentials = PasswordCredentials(email: string, password: string)

  /** Registration input. Registration fills in a missing user name in place. */
  class RegistrationCredentials {
    var email: string
    var password: Option<string>
    var userName: Option<string>
    var redirectUrl: Option<string>

    constructor (email: string, password: Option<string>, userName: Option<string>)
      ensures this.email == email && this.password == password && this.userName == userName
      ensures redirectUrl == None
    {
      this.email := email;
      this.password := password;
      this.userName := userName;
      redirectUrl := None;
    }
  }

  /** One pending OTP confirmation, as the OTP service caches it. */
  datatype OtpCacheData = OtpCacheData(
    otpCode: Option<string>,
    confirmationToken: Option<string>,
    userId: Option<string>,
    failedAttempts: int)

  const EmptyOtpCacheData: OtpCacheData := OtpCacheData(None, None, None, 0)

  /** Name of the cookie carrying the session token. */
  const JwtCookieKey: string := "user_session"
  const OtpCacheKeyPrefix: string := "46ec1e05f1c82f7be23eec90d1df8ed5cce8d19"
  const OtpMaxFailedAttempts: int := 5
  const OtpTimeExpiredInMinutes: int := 5
}
