/** Commands as they are printed to the server. */
module Commands {
  import opened Text
  import opened Errors
  import opened Response
  import opened Types
  import opened Authentication
  import opened Extension

  datatype EhloCommand = EhloCommand(clientId: ClientId)
  {
    function ToString(): string {
      "EHLO " + clientId.ToString() + CRLF
    }
  }

  const STARTTLS_COMMAND := "STARTTLS\r\n"
  const DATA_COMMAND := "DATA\r\n"

  /** Parameters, each with a space before it. */
  function ParametersText(parameters: seq<MailParameter>): string {
    if parameters == [] then "" else " " + parameters[0].ToString() + ParametersText(parameters[1..])
  }

  lemma {:induction false} ParametersTextAppend(a: seq<MailParameter>, b: seq<MailParameter>)
    ensures ParametersText(a + b) == ParametersText(a) + ParametersText(b)
  {
    if a == [] {
      assert a + b == b;
    } else {
      assert (a + b)[1..] == a[1..] + b;
      ParametersTextAppend(a[1..], b);
    }
  }

  method FormatParameters(parameters: seq<MailParameter>) returns (f: string)
    ensures f == ParametersText(parameters)
  {
    hide MailParameter.ToString;
    f := "";
    for k := 0 to |parameters|
      invariant f == ParametersText(parameters[..k])
    {
      var text := parameters[k].Format();
      f := f + (" " + text);
      assert parameters[..k + 1] == parameters[..k] + [parameters[k]];
      ParametersTextAppend(parameters[..k], [parameters[k]]);
      assert " " + text + "" == " " + text;
    }
    assert parameters[..|parameters|] == parameters;
  }

  function SenderText(sender: Option<EmailAddress>): string {
    if sender.Some? then sender.value else ""
  }

  datatype MailCommand = MailCommand(sender: Option<EmailAddress>, parameters: seq<MailParameter>)
  {
    function ToString(): string {
      "MAIL FROM:<" + SenderText(sender) + ">" + ParametersText(parameters) + CRLF
    }

    method Format() returns (f: string)
      ensures f == ToString()
    {
      f := "MAIL FROM:<" + (if sender.Some? then sender.value else "") + ">";
      var p := FormatParameters(parameters);
      f := f + p;
      f := f + CRLF;
    }
  }

  datatype RcptCommand = RcptCommand(recipient: EmailAddress, parameters: seq<RcptParameter>)
  {
    function ToString(): string {
      "RCPT TO:<" + recipient + ">" + ParametersText(parameters) + CRLF
    }

    method Format() returns (f: string)
      ensures f == ToString()
    {
      f := "RCPT TO:<" + recipient + ">";
      var p := FormatParameters(parameters);
      f := f + p;
      f := f + CRLF;
    }
  }

  // ---------- AUTH ----------

  /** Base64 of a text, and its decoding as text; either step of the latter may fail. */
  datatype Base64 = Base64(encode: string -> string, decode: string -> Result<string>)

  datatype AuthCommand = AuthCommand(
    mechanism: Mechanism,
    credentials: Credentials,
    challenge: Option<string>,
    response: Option<string>)
  {
    function ToString(base64: Base64): string {
      (if mechanism.SupportsInitialResponse() then
         "AUTH " + mechanism.ToString() + " " + (if response.Some? then base64.encode(response.value) else "")
       else if response.Some? then base64.encode(response.value)
       else "AUTH " + mechanism.ToString()) + CRLF
    }
  }

  function NewAuthCommand(mechanism: Mechanism, credentials: Credentials, challenge: Option<string>): Result<AuthCommand> {
    if mechanism.SupportsInitialResponse() || challenge.Some? then
      var response :- mechanism.Response(credentials, challenge);
      Success(AuthCommand(mechanism, credentials, challenge, Some(response)))
    else Success(AuthCommand(mechanism, credentials, challenge, None))
  }

  function NewAuthCommandFromResponse(mechanism: Mechanism, credentials: Credentials, response: Response, base64: Base64)
    : Result<AuthCommand>
  {
    if !response.HasCode(334) then Failure(ResponseParsing("Expecting a challenge"))
    else if response.FirstWord().None? then Failure(ResponseParsing("Could not read auth challenge"))
    else
      var decoded :- base64.decode(response.FirstWord().value);
      var answer :- mechanism.Response(credentials, Some(decoded));
      Success(AuthCommand(mechanism, credentials, Some(decoded), Some(answer)))
  }
}
