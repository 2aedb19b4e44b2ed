/** SASL mechanisms. */
module Authentication {
  import opened Text
  import opened Errors

  datatype Credentials = Credentials(authenticationIdentity: string, secret: string)

  datatype Mechanism = Plain | Login | Xoauth2
  {
    function ToString(): string {
      match this
      case Plain => "PLAIN"
      case Login => "LOGIN"
      case Xoauth2 => "XOAUTH2"
    }

    predicate SupportsInitialResponse() {
      Plain? || Xoauth2?
    }

    /** The string to send for the challenge, or without one. */
    function Response(credentials: Credentials, challenge: Option<string>): Result<string> {
      match this
      case Plain =>
        if challenge.Some? then Failure(Client("This mechanism does not expect a challenge"))
        else Success("\0" + credentials.authenticationIdentity + "\0" + credentials.secret)
      case Login =>
        if challenge.None? then Failure(Client("This mechanism does expect a challenge"))
        else if challenge.value in USERNAME_CHALLENGES then Success(credentials.authenticationIdentity)
        else if challenge.value in PASSWORD_CHALLENGES then Success(credentials.secret)
        else Failure(Client("Unrecognized challenge"))
      case Xoauth2 =>
        if challenge.Some? then Failure(Client("This mechanism does not expect a challenge"))
        else Success("user=" + credentials.authenticationIdentity + "\U{1}auth=Bearer "
                     + credentials.secret + "\U{1}\U{1}")
    }
  }

  const USERNAME_CHALLENGES: seq<string> := ["User Name", "Username:", "Username"]
  const PASSWORD_CHALLENGES: seq<string> := ["Password", "Password:"]
}
