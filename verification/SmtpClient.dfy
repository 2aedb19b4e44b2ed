/** The SMTP client: connecting, logging in, and sending an email. */
module SmtpClient {
  import opened Text
  import opened Response
  import opened Errors
  import opened Connection
  import opened Stream
  import opened Reader
  import opened Types
  import opened Commands
  import opened Authentication
  import opened Extension

  datatype SmtpClient = SmtpClient(helloName: ClientId, smtpUtf8: bool, expectGreeting: bool, pipelining: bool)

  // ---------- the command phase of a transaction, as a function of the connection ----------

  /** Each command waits for its reply; the first bad reply ends the phase. */
  function LockStep(c: Conn, commands: seq<string>): (r: (Conn, Result<()>))
    requires c.Valid()
    ensures r.0.Valid() && r.0.server == c.server
    decreases |commands|
  {
    if commands == [] then (c, Success(()))
    else
      match AfterCommand(c, commands[0])
      case (d, Failure(e)) => (d, Failure(e))
      case (d, Success(_)) => LockStep(d, commands[1..])
  }

  /** Reads `n` replies, up to the first bad one. */
  function ReadReplies(c: Conn, n: nat): (r: (Conn, Result<()>))
    requires c.Valid()
    ensures r.0.Valid() && r.0.server == c.server && r.0.written == c.written
    decreases n
  {
    hide AfterRead, Causal;
    if n == 0 then (c, Success(()))
    else
      match AfterRead(c)
      case (d, Failure(e)) => (d, Failure(e))
      case (d, Success(_)) => ReadReplies(d, n - 1)
  }

  /** All commands go out before the first reply is read. */
  function Pipelined(c: Conn, commands: seq<string>): (r: (Conn, Result<()>))
    requires c.Valid()
    ensures r.0.Valid() && r.0.server == c.server && r.0.written == c.written + Flatten(commands)
  {
    ReadReplies(c.Write(Flatten(commands)), |commands|)
  }

  function AfterSend(c: Conn, pipelining: bool, commands: seq<string>, message: string): (r: (Conn, SmtpResult))
    requires c.Valid()
    ensures r.0.Valid() && r.0.server == c.server
  {
    match if pipelining then Pipelined(c, commands) else LockStep(c, commands)
    case (d, Failure(e)) => (d, Failure(e))
    case (d, Success(_)) => AfterMessage(d, message)
  }

  function RcptCommands(to: seq<EmailAddress>): seq<string> {
    if to == [] then [] else [RcptCommand(to[0], []).ToString()] + RcptCommands(to[1..])
  }

  /** The commands of a transaction: MAIL, one RCPT for each recipient, DATA. */
  function TransactionCommands(envelope: Envelope, options: seq<MailParameter>): seq<string> {
    [MailCommand(envelope.reversePath, options).ToString()] + RcptCommands(envelope.forwardPath) + [DATA_COMMAND]
  }

  function MailOptions(info: ServerInfo, client: SmtpClient): seq<MailParameter> {
    (if info.SupportsFeature(Extension.EightBitMime) then [Body(MailBodyParameter.EightBitMime)] else [])
    + (if info.SupportsFeature(Extension.SmtpUtfEight) && client.smtpUtf8 then [MailParameter.SmtpUtfEight] else [])
  }

  // ---------- authentication, as a function of the connection ----------

  /** A line sent and what came back. */
  datatype Exchange = Exchange(line: string, reply: SmtpResult)

  const TOO_MANY_CHALLENGES: Error := ResponseParsing("Unexpected number of challenges")

  /** The challenge loop with `challenges` rounds left after `response`, and the exchanges it makes. */
  function AuthRounds(c: Conn, challenges: nat, mechanism: Mechanism, credentials: Credentials, base64: Base64,
                      response: Response): (r: (Conn, SmtpResult, seq<Exchange>))
    requires c.Valid()
    ensures r.0.Valid() && r.0.server == c.server
    decreases challenges
  {
    hide AfterCommand, NewAuthCommandFromResponse, Causal;
    if challenges > 0 && response.HasCode(334) then
      match NewAuthCommandFromResponse(mechanism, credentials, response, base64)
      case Failure(e) => (c, Failure(e), [])
      case Success(command) =>
        var line := command.ToString(base64);
        match AfterCommand(c, line)
        case (d, Failure(e)) => (d, Failure(e), [Exchange(line, Failure(e))])
        case (d, Success(next)) =>
          var (last, result, log) := AuthRounds(d, challenges - 1, mechanism, credentials, base64, next);
          (last, result, [Exchange(line, Success(next))] + log)
    else (c, if challenges == 0 then Failure(TOO_MANY_CHALLENGES) else Success(response), [])
  }

  function AfterAuth(c: Conn, mechanism: Mechanism, credentials: Credentials, base64: Base64)
    : (r: (Conn, SmtpResult, seq<Exchange>))
    requires c.Valid()
    ensures r.0.Valid() && r.0.server == c.server
  {
    match NewAuthCommand(mechanism, credentials, None)
    case Failure(e) => (c, Failure(e), [])
    case Success(command) =>
      var line := command.ToString(base64);
      match AfterCommand(c, line)
      case (d, Failure(e)) => (d, Failure(e), [Exchange(line, Failure(e))])
      case (d, Success(response)) =>
        var (last, result, log) := AuthRounds(d, 10, mechanism, credentials, base64, response);
        (last, result, [Exchange(line, Success(response))] + log)
  }

  // ---------- connecting, as a function of the connection ----------

  /** The greeting, should there be one, and the reply to EHLO. */
  function AfterHello(c: Conn, client: SmtpClient): (r: (Conn, SmtpResult))
    requires c.Valid()
    ensures r.0.Valid() && r.0.server == c.server
  {
    var ehlo := EhloCommand(Domain(client.helloName.ToString())).ToString();
    if client.expectGreeting then
      match AfterRead(c)
      case (d, Failure(e)) => (d, Failure(e))
      case (d, Success(_)) => AfterCommand(d, ehlo)
    else AfterCommand(c, ehlo)
  }

  /** STARTTLS and the reply to it, if the server offers that. */
  function AfterStartTls(c: Conn, info: ServerInfo): (r: (Conn, SmtpResult))
    requires c.Valid()
    ensures r.0.Valid() && r.0.server == c.server
  {
    if info.SupportsFeature(Extension.StartTls) then AfterCommand(c, STARTTLS_COMMAND)
    else (c, Failure(Client("server does not support STARTTLS")))
  }

  class SmtpTransport {
    const serverInfo: ServerInfo
    const clientInfo: SmtpClient
    const stream: SmtpStream

    constructor (serverInfo: ServerInfo, clientInfo: SmtpClient, stream: SmtpStream)
      ensures this.serverInfo == serverInfo && this.clientInfo == clientInfo && this.stream == stream
    {
      this.serverInfo, this.clientInfo, this.stream := serverInfo, clientInfo, stream;
    }

    function View(): Conn
      reads stream.inner
    {
      stream.inner.View()
    }

    ghost predicate Valid()
      reads stream.inner
    {
      View().Valid()
    }

    /** Reads the greeting, says EHLO and learns what the server offers. */
    static method Connect(builder: SmtpClient, inner: ByteStream) returns (r: Result<SmtpTransport>)
      requires inner.Valid()
      modifies inner
      ensures inner.Valid() && inner.View() == AfterHello(old(inner.View()), builder).0
      ensures match AfterHello(old(inner.View()), builder).1
              case Failure(e) => r == Failure(e)
              case Success(reply) =>
                if reply.FirstWord().None? then r == Failure(ResponseParsing("Could not read server name"))
                else
                  && r.Success? && r.value.stream.inner == inner && r.value.clientInfo == builder
                  && Some(r.value.serverInfo.name) == reply.FirstWord()
                  && AreFeaturesOf(r.value.serverInfo.features, reply.message)
    {
      hide Causal, AfterRead, AfterCommand, AreFeaturesOf, Response.FirstWord;
      var stream := new SmtpStream(inner);
      if builder.expectGreeting {
        var greeting := stream.ReadResponse();
        if greeting.Failure? {
          return Failure(greeting.error);
        }
      }
      var ehlo := stream.Command(EhloCommand(Domain(builder.helloName.ToString())).ToString());
      if ehlo.Failure? {
        return Failure(ehlo.error);
      }
      var info := ServerInfoFromResponse(ehlo.value);
      if info.Failure? {
        return Failure(info.error);
      }
      var transport := new SmtpTransport(info.value, builder, stream);
      return Success(transport);
    }

    /** The server offers the accepted mechanism at `k` and none before it. */
    predicate IsFirstSupported(accepted: seq<Mechanism>, k: nat)
      requires k < |accepted|
    {
      Authentication(accepted[k]) in serverInfo.features
      && forall j :: 0 <= j < k ==> Authentication(accepted[j]) !in serverInfo.features
    }

    /** Logs in with the first accepted mechanism that the server supports, if there is one. */
    method TryLogin(credentials: Credentials, accepted: seq<Mechanism>, base64: Base64) returns (r: Result<()>)
      requires Valid()
      modifies stream.inner
      ensures Valid()
      ensures (forall m :: m in accepted ==> Authentication(m) !in serverInfo.features) ==>
                View() == old(View()) && r == Success(())
      ensures forall k | 0 <= k < |accepted| && IsFirstSupported(accepted, k) ::
                var (c, result, _) := AfterAuth(old(View()), accepted[k], credentials, base64);
                View() == c && (if result.Success? then r == Success(()) else r == Failure(result.error))
    {
      hide Causal, AfterAuth;
      match ChooseMechanism(serverInfo, accepted) {
        case Some(mechanism) =>
          var result := Auth(mechanism, credentials, base64);
          if result.Failure? {
            return Failure(result.error);
          }
        case None =>
      }
      return Success(());
    }

    /** Asks the server to start TLS, if it offers that, and hands out the byte stream. */
    method StartTls() returns (r: Result<ByteStream>)
      requires Valid()
      modifies stream.inner
      ensures Valid()
      ensures var (c, result) := AfterStartTls(old(View()), serverInfo);
              View() == c && r == (if result.Success? then Success(stream.inner) else Failure(result.error))
    {
      if !serverInfo.SupportsFeature(Extension.StartTls) {
        return Failure(Client("server does not support STARTTLS"));
      }
      var result := stream.Command(STARTTLS_COMMAND);
      if result.Failure? {
        return Failure(result.error);
      }
      return Success(stream.inner);
    }

    /** Sends an AUTH command and answers challenges, ten at most. */
    method Auth(mechanism: Mechanism, credentials: Credentials, base64: Base64) returns (r: SmtpResult)
      requires Valid()
      modifies stream.inner
      ensures Valid()
      ensures var (c, result, _) := AfterAuth(old(View()), mechanism, credentials, base64);
              View() == c && r == result
    {
      hide Conn.Valid, AfterCommand, NewAuthCommand, NewAuthCommandFromResponse, AuthCommand.ToString, Response.HasCode;
      ghost var start := View();
      var challenges := 10;
      var command := NewAuthCommand(mechanism, credentials, None);
      if command.Failure? {
        return Failure(command.error);
      }
      var reply := stream.Command(command.value.ToString(base64));
      if reply.Failure? {
        return reply;
      }
      var response := reply.value;
      while challenges > 0 && response.HasCode(334)
        invariant 0 <= challenges && Valid()
        invariant var (c, result, _) := AfterAuth(start, mechanism, credentials, base64);
                  var (d, result', _) := AuthRounds(View(), challenges, mechanism, credentials, base64, response);
                  c == d && result == result'
      {
        challenges := challenges - 1;
        command := NewAuthCommandFromResponse(mechanism, credentials, response, base64);
        if command.Failure? {
          return Failure(command.error);
        }
        reply := stream.Command(command.value.ToString(base64));
        if reply.Failure? {
          return reply;
        }
        response := reply.value;
      }
      if challenges == 0 {
        return Failure(ResponseParsing("Unexpected number of challenges"));
      } else {
        return Success(response);
      }
    }

    /** Sends an email: the command phase, pipelined if both sides agree on it, then the content. */
    method Send(email: SendableEmail) returns (r: SmtpResult)
      requires Valid()
      modifies stream.inner
      ensures Valid()
      ensures (View(), r) == AfterSend(old(View()),
                                       Extension.Pipelining in serverInfo.features && clientInfo.pipelining,
                                       TransactionCommands(email.envelope, MailOptions(serverInfo, clientInfo)),
                                       email.message)
    {
      hide Causal, AfterCommand, AfterMessage, AfterRead;
      var options := [];
      if serverInfo.SupportsFeature(Extension.EightBitMime) {
        options := options + [Body(MailBodyParameter.EightBitMime)];
      }
      if serverInfo.SupportsFeature(Extension.SmtpUtfEight) && clientInfo.smtpUtf8 {
        options := options + [MailParameter.SmtpUtfEight];
      }
      assert options == MailOptions(serverInfo, clientInfo);
      var pipelining := serverInfo.SupportsFeature(Extension.Pipelining) && clientInfo.pipelining;
      var phase: Result<()>;
      if pipelining {
        phase := SendPipelined(email.envelope, options);
      } else {
        phase := SendLockStep(email.envelope, options);
      }
      if phase.Failure? {
        return Failure(phase.error);
      }
      r := stream.Message(email.message);
    }

    method SendPipelined(envelope: Envelope, options: seq<MailParameter>) returns (r: Result<()>)
      requires Valid()
      modifies stream.inner
      ensures Valid()
      ensures (View(), r) == Pipelined(old(View()), TransactionCommands(envelope, options))
    {
      hide Conn.Valid, AfterRead, TransactionCommands, DecidesAsOneParse, ReadReply;
      ghost var start := View();
      ghost var commands := TransactionCommands(envelope, options);
      var sentCommands := WriteCommands(envelope, options);
      for k := 0 to sentCommands
        invariant Valid()
        invariant ReadReplies(View(), sentCommands - k) == Pipelined(start, commands)
      {
        var reply := stream.ReadResponse();
        if reply.Failure? {
          return Failure(reply.error);
        }
      }
      return Success(());
    }

    /** Writes all commands without waiting and counts them. */
    method WriteCommands(envelope: Envelope, options: seq<MailParameter>) returns (sentCommands: nat)
      requires Valid()
      modifies stream.inner
      ensures Valid() && sentCommands == |TransactionCommands(envelope, options)|
      ensures View() == old(View()).Write(Flatten(TransactionCommands(envelope, options)))
    {
      hide Causal, MailCommand.ToString, RcptCommand.ToString;
      ghost var commands := TransactionCommands(envelope, options);
      ghost var start := View();
      var to := envelope.forwardPath;
      RcptCommandsAt(to);
      var mail := MailCommand(envelope.reversePath, options).Format();
      FlattenSnoc(commands, 0);
      assert commands[..0] == [] && "" + mail == mail;
      stream.SendCommand(mail);
      sentCommands := 1;
      for k := 0 to |to|
        invariant Valid() && sentCommands == k + 1
        invariant View() == start.Write(Flatten(commands[..k + 1]))
      {
        var rcpt := RcptCommand(to[k], []).Format();
        stream.SendCommand(rcpt);
        FlattenSnoc(commands, k + 1);
        WriteTwice(start, Flatten(commands[..k + 1]), rcpt);
        sentCommands := sentCommands + 1;
      }
      stream.SendCommand(DATA_COMMAND);
      FlattenSnoc(commands, |to| + 1);
      WriteTwice(start, Flatten(commands[..|to| + 1]), DATA_COMMAND);
      assert commands[..|commands|] == commands;
      sentCommands := sentCommands + 1;
    }

    method SendLockStep(envelope: Envelope, options: seq<MailParameter>) returns (r: Result<()>)
      requires Valid()
      modifies stream.inner
      ensures Valid()
      ensures (View(), r) == LockStep(old(View()), TransactionCommands(envelope, options))
    {
      hide Causal, AfterCommand, MailCommand.ToString, RcptCommand.ToString;
      ghost var commands := TransactionCommands(envelope, options);
      ghost var start := View();
      var to := envelope.forwardPath;
      RcptCommandsAt(to);
      var mail := MailCommand(envelope.reversePath, options).Format();
      var reply := stream.Command(mail);
      if reply.Failure? {
        return Failure(reply.error);
      }
      for k := 0 to |to|
        invariant Valid()
        invariant LockStep(View(), commands[k + 1..]) == LockStep(start, commands)
      {
        var rcpt := RcptCommand(to[k], []).Format();
        assert commands[k + 1..][0] == rcpt && commands[k + 1..][1..] == commands[k + 2..];
        reply := stream.Command(rcpt);
        if reply.Failure? {
          return Failure(reply.error);
        }
      }
      assert commands[|to| + 1..] == [DATA_COMMAND];
      reply := stream.Command(DATA_COMMAND);
      if reply.Failure? {
        return Failure(reply.error);
      }
      return Success(());
    }
  }

  lemma {:induction false} RcptCommandsAt(to: seq<EmailAddress>)
    ensures |RcptCommands(to)| == |to|
    ensures forall k :: 0 <= k < |to| ==> RcptCommands(to)[k] == RcptCommand(to[k], []).ToString()
  {
    if to == [] {
    } else {
      RcptCommandsAt(to[1..]);
    }
  }

  lemma WriteTwice(c: Conn, a: string, b: string)
    requires c.Valid()
    ensures c.Write(a).Write(b) == c.Write(a + b)
  {
    assert c.written + a + b == c.written + (a + b);
  }

  lemma FlattenSnoc(commands: seq<string>, k: nat)
    requires k < |commands|
    ensures Flatten(commands[..k + 1]) == Flatten(commands[..k]) + commands[k]
  {
    assert commands[..k + 1] == commands[..k] + [commands[k]];
    FlattenAppend(commands[..k], [commands[k]]);
    assert Flatten([commands[k]]) == commands[k] + "";
  }
}
