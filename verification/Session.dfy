/** Whole transactions: what a server that reads the bytes on its own makes of what the client wrote. */
module Session {
  import opened Text
  import opened Response
  import opened ReplyGrammar
  import opened Errors
  import opened Types
  import opened Extension
  import opened Commands
  import opened Connection
  import opened Reader
  import opened Stream
  import opened Transparency
  import opened SmtpClient
  import opened ServerGrammar
  import opened Pipelining

  function Recipients(to: seq<EmailAddress>): seq<Recipient> {
    if to == [] then [] else [Recipient(to[0], [])] + Recipients(to[1..])
  }

  /** The transaction the client means: sender or the empty path, what the options mean, the recipients in order,
      and the body with the CRLF that ends it. */
  function Intended(envelope: Envelope, options: seq<MailParameter>, body: string): Transaction {
    Transaction(SenderText(envelope.reversePath), Meanings(options), Recipients(envelope.forwardPath), body + CRLF)
  }

  // ---------- command lines ----------

  lemma NoCrNoCrlf(s: string)
    requires '\r' !in s
    ensures NoCrlf(s)
  {
    forall k
      ensures !CrlfAt(s, k)
    {
      assert 0 <= k < |s| ==> s[k] in s;
    }
  }

  lemma AddressChars(address: EmailAddress)
    ensures '>' !in address && '\r' !in address
  {
    assert forall c :: c in address ==> exists k :: 0 <= k < |address| && address[k] == c;
  }

  function PathLine(command: string, address: string, parameters: string): string {
    command + "<" + address + ">" + parameters
  }

  lemma PathRoundTrip(command: string, address: EmailAddress, parameters: string)
    ensures ParsePath(PathLine(command, address, parameters), command)
         == match ParseParameters(parameters) case None => None case Some(ps) => Some(Recipient(address, ps))
  {
    hide ParseParameters;
    AddressChars(address);
    var line := PathLine(command, address, parameters);
    var text := address + ">" + parameters;
    assert line == command + "<" + text && line[|command| + 1..] == text;
    assert text[..|address|] == address && text[|address| + 1..] == parameters;
    FindIs(text, '>', |address|);
  }

  lemma PathLineClean(command: string, address: EmailAddress, parameters: seq<MailParameter>)
    requires '\r' !in command && GoodParameters(parameters)
    ensures NoCrlf(PathLine(command, address, ParametersText(parameters)))
  {
    AddressChars(address);
    ParametersTextClean(parameters);
    NoCrNoCrlf(PathLine(command, address, ParametersText(parameters)));
  }

  /** The recipients come back in order, and DATA ends them. */
  lemma {:induction false} RecipientsRoundTrip(to: seq<EmailAddress>, data: string)
    ensures ParseRecipients(Flatten(RcptCommands(to)) + (DATA_COMMAND + data)) == Some((Recipients(to), data))
  {
    hide ParsePath;
    var wire := Flatten(RcptCommands(to)) + (DATA_COMMAND + data);
    if to == [] {
      assert wire == "DATA" + CRLF + data;
      NoCrNoCrlf("DATA");
      FindCrlfAfterLine("DATA", data);
    } else {
      var line := PathLine("RCPT TO:", to[0], "");
      var rest := Flatten(RcptCommands(to[1..])) + (DATA_COMMAND + data);
      assert RcptCommand(to[0], []).ToString() == line + CRLF;
      assert wire == line + CRLF + rest;
      PathLineClean("RCPT TO:", to[0], []);
      FindCrlfAfterLine(line, rest);
      PathRoundTrip("RCPT TO:", to[0], "");
      assert line[0] == 'R';
      RecipientsRoundTrip(to[1..], data);
    }
  }

  function TransactionBytes(envelope: Envelope, options: seq<MailParameter>, body: string): string {
    Flatten(TransactionCommands(envelope, options)) + MessageBytes(body)
  }

  lemma Regroup(a: string, b: string, c: string, d: string, e: string)
    ensures a + b + c + d + e == a + (b + (c + (d + e)))
  {
  }

  lemma TransactionLayout(envelope: Envelope, options: seq<MailParameter>, body: string, rest: string)
    ensures TransactionBytes(envelope, options, body) + rest
         == PathLine("MAIL FROM:", SenderText(envelope.reversePath), ParametersText(options)) + CRLF
            + (Flatten(RcptCommands(envelope.forwardPath)) + (DATA_COMMAND + (MessageBytes(body) + rest)))
  {
    hide MessageBytes, ParametersText, RcptCommands;
    var mail := MailCommand(envelope.reversePath, options).ToString();
    var rcpts := RcptCommands(envelope.forwardPath);
    assert mail == PathLine("MAIL FROM:", SenderText(envelope.reversePath), ParametersText(options)) + CRLF;
    assert Flatten([mail]) == mail + "" == mail;
    assert Flatten([DATA_COMMAND]) == DATA_COMMAND + "" == DATA_COMMAND;
    hide MailCommand.ToString, PathLine, Flatten;
    FlattenAppend([mail] + rcpts, [DATA_COMMAND]);
    FlattenAppend([mail], rcpts);
    Regroup(mail, Flatten(rcpts), DATA_COMMAND, MessageBytes(body), rest);
  }

  /** A server that parses the bytes of a transaction on its own gets the sender, the parameters and the recipients in
      order, whatever the body, and the data and the leftover that the receiver makes of the body. */
  lemma TransactionParse(envelope: Envelope, options: seq<MailParameter>, body: string, rest: string)
    requires GoodParameters(options) && GoodValues(options)
    ensures Receive(MessageBytes(body) + rest).Some?
    ensures var (data, after) := Receive(MessageBytes(body) + rest).value;
            ParseTransaction(TransactionBytes(envelope, options, body) + rest)
            == Some((Transaction(SenderText(envelope.reversePath), Meanings(options), Recipients(envelope.forwardPath), data),
                     after))
  {
    hide MessageBytes, ParametersText, RcptCommands, Safe, Receive, ParseParameters, ParsePath, ParseRecipients;
    hide GoodParameters, GoodValues, TransactionBytes;
    var sender: EmailAddress := SenderText(envelope.reversePath);
    var data := MessageBytes(body) + rest;
    var line := PathLine("MAIL FROM:", sender, ParametersText(options));
    var after := Flatten(RcptCommands(envelope.forwardPath)) + (DATA_COMMAND + data);
    TransactionLayout(envelope, options, body, rest);
    PathLineClean("MAIL FROM:", sender, options);
    FindCrlfAfterLine(line, after);
    PathRoundTrip("MAIL FROM:", sender, ParametersText(options));
    ParametersRoundTrip(options);
    RecipientsRoundTrip(envelope.forwardPath, data);
    BodyTransparency(body, rest);
  }

  /** It gets the transaction that was meant, with nothing of what follows touched, if and only if the body is safe
      and not empty. */
  lemma TransactionRoundTrip(envelope: Envelope, options: seq<MailParameter>, body: string, rest: string)
    requires GoodParameters(options) && GoodValues(options)
    ensures ParseTransaction(TransactionBytes(envelope, options, body) + rest)
         == Some((Intended(envelope, options, body), rest))
       <==> body != "" && Safe(body)
  {
    hide MessageBytes, Safe, Receive, ParseTransaction, TransactionBytes, GoodParameters, GoodValues, Meanings, Recipients;
    TransactionParse(envelope, options, body, rest);
    BodyTransparency(body, rest);
    var (data, after) := Receive(MessageBytes(body) + rest).value;
    assert Receive(MessageBytes(body) + rest) == Some((data, after));
  }

  lemma MailOptionsAreGood(info: ServerInfo, client: SmtpClient)
    ensures GoodParameters(MailOptions(info, client)) && GoodValues(MailOptions(info, client))
  {
  }

  lemma {:induction false} MeaningsAppend(a: seq<MailParameter>, b: seq<MailParameter>)
    ensures Meanings(a + b) == Meanings(a) + Meanings(b)
  {
    if a == [] {
      assert a + b == b;
    } else {
      assert (a + b)[1..] == a[1..] + b;
      MeaningsAppend(a[1..], b);
    }
  }

  /** A MAIL line is read back as its sender and what its parameters mean. */
  lemma MailLine(from: Option<EmailAddress>, options: seq<MailParameter>)
    requires GoodParameters(options) && GoodValues(options)
    ensures var text := MailCommand(from, options).ToString();
            && FindCrlf(text) == Some(|text| - 2)
            && ParsePath(text[..|text| - 2], "MAIL FROM:") == Some(Recipient(SenderText(from), Meanings(options)))
  {
    hide MailCommand.ToString, ParametersText, PathLine, ParsePath, ParseParameters, Meanings, FindCrlf, NoCrlf;
    hide GoodParameters, GoodValues;
    var parameters := ParametersText(options);
    var line := PathLine("MAIL FROM:", SenderText(from), parameters);
    MailText(from, options);
    PathLineClean("MAIL FROM:", SenderText(from), options);
    FindCrlfAfterLine(line, "");
    PathRoundTrip("MAIL FROM:", SenderText(from), parameters);
    ParametersRoundTrip(options);
  }

  lemma MailText(from: Option<EmailAddress>, options: seq<MailParameter>)
    ensures MailCommand(from, options).ToString()
         == PathLine("MAIL FROM:", SenderText(from), ParametersText(options)) + CRLF + ""
  {
    hide ParametersText;
  }

  /** The MAIL line, as the server reads it, names the sender and carries BODY=8BITMIME if the server offers 8BITMIME,
      SMTPUTF8 if the server offers it and the client wants it, each once, and no other parameter. */
  lemma OptionsAnnounced(from: Option<EmailAddress>, info: ServerInfo, client: SmtpClient)
    ensures var text := MailCommand(from, MailOptions(info, client)).ToString();
            && FindCrlf(text) == Some(|text| - 2)
            && var mail := ParsePath(text[..|text| - 2], "MAIL FROM:");
               && mail.Some? && mail.value.address == SenderText(from)
               && forall p :: multiset(mail.value.parameters)[p] ==
                    if || (p == Parameter("BODY", Some("8BITMIME")) && Extension.EightBitMime in info.features)
                       || (p == Parameter("SMTPUTF8", None) && Extension.SmtpUtfEight in info.features && client.smtpUtf8)
                    then 1 else 0
  {
    hide MailCommand.ToString, MailOptions, ParsePath, Meanings, FindCrlf, GoodParameters, GoodValues;
    MailOptionsAreGood(info, client);
    MailLine(from, MailOptions(info, client));
    MeaningsOfOptions(info, client);
  }

  lemma MeaningsOfOptions(info: ServerInfo, client: SmtpClient)
    ensures Meanings(MailOptions(info, client))
         == (if Extension.EightBitMime in info.features then [Parameter("BODY", Some("8BITMIME"))] else [])
            + (if Extension.SmtpUtfEight in info.features && client.smtpUtf8 then [Parameter("SMTPUTF8", None)] else [])
  {
    var body := if Extension.EightBitMime in info.features then [Body(MailBodyParameter.EightBitMime)] else [];
    var utf8 := if Extension.SmtpUtfEight in info.features && client.smtpUtf8 then [MailParameter.SmtpUtfEight] else [];
    MeaningsAppend(body, utf8);
    assert MailOptions(info, client) == body + utf8;
    assert body != [] ==> body[1..] == [];
    assert utf8 != [] ==> utf8[1..] == [];
  }

  // ---------- connecting ----------

  /** The line for a domain name, and those for address literals (section 4.1.3 of RFC 5321). */
  function EhloLine(client: SmtpClient): string {
    match client.helloName
    case Domain(name) => "EHLO " + name + "\r\n"
    case Ipv4(address) => "EHLO [" + address + "]\r\n"
    case Ipv6(address) => "EHLO [IPv6:" + address + "]\r\n"
  }

  lemma EhloPrinted(client: SmtpClient)
    ensures EhloCommand(Domain(client.helloName.ToString())).ToString() == EhloLine(client)
    ensures EhloLine(client) != ""
  {
  }

  /** A server that greets, if a greeting is expected, and answers EHLO, whatever it sends besides: a bad greeting ends
      the connection before anything is written; otherwise exactly one EHLO line goes out, its reply decides, and what
      follows that reply is left unread. */
  lemma HelloExchange(c: Conn, client: SmtpClient, greeting: Response, reply: Response, x: string, y: string)
    requires c.Valid() && WellFormed(greeting) && WellFormed(reply)
    requires c.Unread() == (if client.expectGreeting then Render(greeting) else "") + x
    requires c.Write(EhloLine(client)).Unread()
          == (if client.expectGreeting then Render(greeting) else "") + (Render(reply) + y)
    ensures var (d, r) := AfterHello(c, client);
            if client.expectGreeting && !greeting.IsPositive()
            then d.written == c.written && d.Unread() == x && r == Failure(FromResponse(greeting))
            else d.written == c.written + EhloLine(client) && d.Unread() == y && r == Verdict(reply)
  {
    hide Causal, ReadReply, Render, AfterRead;
    var ehlo := EhloCommand(Domain(client.helloName.ToString())).ToString();
    EhloPrinted(client);
    hide EhloLine, EhloCommand.ToString;
    if client.expectGreeting {
      AfterReadOf(c, greeting, x);
      if greeting.IsPositive() {
        var d := AfterRead(c).0;
        DropRead(c, d, ehlo, Render(greeting));
        AfterReadOf(d.Write(ehlo), reply, y);
      }
    } else {
      assert "" + (Render(reply) + y) == Render(reply) + y;
      AfterReadOf(c.Write(ehlo), reply, y);
    }
  }

  /** Whatever the server does: either reading the greeting failed and nothing was written, or one EHLO line was written,
      after a positive greeting if one is expected, and what one parse makes of the bytes behind it is the result. */
  lemma HelloWaitsForGreeting(c: Conn, client: SmtpClient) returns (skipped: string)
    requires c.Valid()
    ensures var (d, r) := AfterHello(c, client);
            if d.written == c.written then
              client.expectGreeting && r.Failure? && DecidesAsOneParse(c.Unread(), r, d.Unread())
            else
              var unread := c.Write(EhloLine(client)).Unread();
              && d.written == c.written + EhloLine(client)
              && (if client.expectGreeting then PositiveReply(skipped) else skipped == "")
              && skipped <= c.Unread() && skipped <= unread
              && DecidesAsOneParse(unread[|skipped|..], r, d.Unread())
  {
    hide Causal, ReadReply, Render, AfterRead, WellFormed, DecidesAsOneParse, ParseResponse;
    var ehlo := EhloCommand(Domain(client.helloName.ToString())).ToString();
    EhloPrinted(client);
    hide EhloLine, EhloCommand.ToString;
    skipped := "";
    if client.expectGreeting {
      var (d, r) := AfterRead(c);
      ReadIsOneParse(c);
      if r.Success? {
        skipped := GreetingRead(c);
        DropRead(c, d, ehlo, skipped);
        ReadIsOneParse(d.Write(ehlo));
        assert c.Write(ehlo).Unread()[|skipped|..] == d.Write(ehlo).Unread();
      }
    } else {
      ReadIsOneParse(c.Write(ehlo));
      assert c.Write(ehlo).Unread()[0..] == c.Write(ehlo).Unread();
    }
  }

  /** The text is a positive reply. */
  ghost predicate PositiveReply(text: string) {
    exists r: Response :: WellFormed(r) && r.IsPositive() && text == Render(r)
  }

  lemma GreetingRead(c: Conn) returns (text: string)
    requires c.Valid() && AfterRead(c).1.Success?
    ensures PositiveReply(text) && c.Unread() == text + AfterRead(c).0.Unread()
  {
    hide ReadReply, Conn.Valid, Render, ParseResponse, AfterRead;
    ReadIsOneParse(c);
    RenderOfParse(c.Unread());
    text := Render(ParseResponse(c.Unread()).value);
  }

  // ---------- starting TLS ----------

  /** Without the feature nothing is written and the stream is not handed out. */
  lemma StartTlsNotOffered(c: Conn, info: ServerInfo)
    requires c.Valid() && Extension.StartTls !in info.features
    ensures AfterStartTls(c, info) == (c, Failure(Client("server does not support STARTTLS")))
  {
  }

  /** With it exactly the line STARTTLS is written, and if a reply follows, whatever comes behind it, that reply decides
      and all bytes behind it are left unread. */
  lemma StartTlsExchange(c: Conn, info: ServerInfo, reply: Response, y: string)
    requires c.Valid() && Extension.StartTls in info.features && WellFormed(reply)
    requires c.Write("STARTTLS\r\n").Unread() == Render(reply) + y
    ensures var (d, r) := AfterStartTls(c, info);
            d.written == c.written + "STARTTLS\r\n" && d.Unread() == y && r == Verdict(reply)
  {
    hide Causal, AfterRead, Render;
    AfterReadOf(c.Write("STARTTLS\r\n"), reply, y);
  }

  /** Whatever the server does, the stream is handed out only if it offers the feature and has sent a positive reply, which
      is all that was read since the line STARTTLS was written. */
  lemma StartTlsAgreed(c: Conn, info: ServerInfo)
    requires c.Valid()
    ensures var (d, r) := AfterStartTls(c, info);
            r.Success? ==>
              && Extension.StartTls in info.features && d.written == c.written + "STARTTLS\r\n"
              && WellFormed(r.value) && r.value.IsPositive()
              && c.Write("STARTTLS\r\n").Unread() == Render(r.value) + d.Unread()
  {
    hide Causal, AfterRead, Render, ParseResponse, ReadReply, ConsumedToVerdict, WellFormed;
    if Extension.StartTls in info.features {
      var w := c.Write("STARTTLS\r\n");
      ReadIsOneParse(w);
      if AfterRead(w).1.Success? {
        RenderOfParse(w.Unread());
      }
    }
  }

  // ---------- whole sessions ----------

  /** Whenever sending succeeds, in either mode and whatever the server: the bytes written are those of one transaction,
      and parsed independently they are the intended one if and only if the body is safe and not empty. */
  lemma SentTransaction(c: Conn, info: ServerInfo, client: SmtpClient, pipelining: bool, email: SendableEmail)
    requires c.Valid()
    requires AfterSend(c, pipelining, TransactionCommands(email.envelope, MailOptions(info, client)), email.message).1.Success?
    ensures var options := MailOptions(info, client);
            var d := AfterSend(c, pipelining, TransactionCommands(email.envelope, options), email.message).0;
            && d.written == c.written + TransactionBytes(email.envelope, options, email.message)
            && (ParseTransaction(d.written[|c.written|..]) == Some((Intended(email.envelope, options, email.message), ""))
                <==> email.message != "" && Safe(email.message))
  {
    hide AfterSend, Conn.Valid, MessageBytes, TransactionCommands, ParseTransaction, Intended, Safe;
    var options := MailOptions(info, client);
    var commands := TransactionCommands(email.envelope, options);
    SentBytes(c, pipelining, commands, email.message);
    var d := AfterSend(c, pipelining, commands, email.message).0;
    var bytes := TransactionBytes(email.envelope, options, email.message);
    assert d.written[|c.written|..] == bytes == bytes + "";
    MailOptionsAreGood(info, client);
    TransactionRoundTrip(email.envelope, options, email.message, "");
  }

  // ---------- what send makes of any well-formed replies ----------

  /** The server answers the body, received behind all commands, with one more reply. */
  ghost predicate AnswersBody(c: Conn, commands: seq<string>, message: string, final: Response) {
    && WellFormed(final)
    && c.server(c.written + (Flatten(commands) + MessageBytes(message)))
       == c.server(c.written + Flatten(commands)) + Render(final)
  }

  /** The server answers every command and, should it get that far, the body. */
  ghost predicate ServesTransaction(c: Conn, commands: seq<string>, message: string, replies: seq<Response>, final: Response) {
    && Answers(c, commands, replies)
    && (FirstNegative(replies) == |replies| ==> AnswersBody(c, commands, message, final))
  }

  /** With positive replies only, the command phase goes through in both modes and leaves nothing unread. */
  lemma CommandsAnswered(c: Conn, commands: seq<string>, replies: seq<Response>)
    requires Answers(c, commands, replies) && forall k :: 0 <= k < |replies| ==> replies[k].IsPositive()
    ensures LockStep(c, commands).1.Success? && Pipelined(c, commands) == LockStep(c, commands)
    ensures LockStep(c, commands).0.Unread() == "" && LockStep(c, commands).0.written == c.written + Flatten(commands)
  {
    assert c.Valid();
    hide Conn.Valid, LockStep, Pipelined;
    assert FirstNegative(replies) == |replies|;
    var written := LockStepAccounting(c, commands, replies);
    PipelinedRefinesLockStep(c, commands);
  }

  lemma DropAll(s: string, t: string)
    ensures (s + t)[|s|..] == t
  {
  }

  lemma BodyReply(c: Conn, commands: seq<string>, message: string, final: Response, d: Conn)
    requires AnswersBody(c, commands, message, final)
    requires d.Valid() && d.server == c.server && d.written == c.written + Flatten(commands) && d.Unread() == ""
    ensures AfterMessage(d, message).1 == Verdict(final) && AfterMessage(d, message).0.Unread() == ""
  {
    hide Causal, AfterRead, MessageBytes, Render;
    var w := d.Write(MessageBytes(message));
    assert w.written == c.written + (Flatten(commands) + MessageBytes(message));
    DropAll(c.server(d.written), Render(final));
    assert w.Unread() == Render(final) == Render(final) + "";
    AfterReadOf(w, final, "");
  }

  lemma SendContinues(c: Conn, pipelining: bool, commands: seq<string>, message: string)
    requires c.Valid() && LockStep(c, commands).1.Success? && Pipelined(c, commands) == LockStep(c, commands)
    ensures AfterSend(c, pipelining, commands, message) == AfterMessage(LockStep(c, commands).0, message)
  {
    hide Conn.Valid, LockStep, Pipelined, AfterMessage;
  }

  lemma SendStops(c: Conn, pipelining: bool, commands: seq<string>, message: string)
    requires c.Valid()
    ensures var (d, r) := if pipelining then Pipelined(c, commands) else LockStep(c, commands);
            r.Failure? ==> AfterSend(c, pipelining, commands, message).0 == d
                           && AfterSend(c, pipelining, commands, message).1 == Failure(r.error)
  {
    hide Conn.Valid, LockStep, Pipelined, AfterMessage;
  }

  lemma SendAccepted(c: Conn, pipelining: bool, commands: seq<string>, message: string,
                     replies: seq<Response>, final: Response)
    requires ServesTransaction(c, commands, message, replies, final) && FirstNegative(replies) == |replies|
    ensures var (d, r) := AfterSend(c, pipelining, commands, message);
            && r == Verdict(final) && d.Unread() == ""
            && d.written == c.written + (Flatten(commands) + MessageBytes(message))
  {
    assert c.Valid();
    hide Conn.Valid, LockStep, Pipelined, MessageBytes, AfterSend, AfterMessage, Verdict, Causal, Render, Flatten;
    CommandsAnswered(c, commands, replies);
    hide Answers, FirstNegative;
    var d := LockStep(c, commands).0;
    BodyReply(c, commands, message, final, d);
    hide AnswersBody, Conn.Unread;
    SendContinues(c, pipelining, commands, message);
    DistributeWrite(c.written, Flatten(commands), MessageBytes(message));
  }

  lemma DistributeWrite(w: string, a: string, b: string)
    ensures w + a + b == w + (a + b)
  {
  }

  lemma PipelinedRefused(c: Conn, commands: seq<string>, replies: seq<Response>)
    requires Answers(c, commands, replies) && FirstNegative(replies) < |replies|
    ensures var i := FirstNegative(replies);
            var (d, r) := Pipelined(c, commands);
            && r == Failure(FromResponse(replies[i]))
            && d.written == c.written + Flatten(commands) && d.Unread() == RenderAll(replies[i + 1..])
  {
    hide Conn.Valid, Conn.Unread, Pipelined, Render, RenderAll, Causal, Flatten, FirstNegative;
    PipelinedAccounting(c, commands, replies);
  }

  lemma LockStepRefused(c: Conn, commands: seq<string>, replies: seq<Response>)
    requires Answers(c, commands, replies) && FirstNegative(replies) < |replies|
    ensures var i := FirstNegative(replies);
            var (d, r) := LockStep(c, commands);
            && r == Failure(FromResponse(replies[i]))
            && d.written == c.written + Flatten(commands[..i + 1]) && d.Unread() == ""
  {
    hide Conn.Valid, Conn.Unread, LockStep, Render, RenderAll, Causal, Flatten, FirstNegative;
    var written := LockStepAccounting(c, commands, replies);
  }

  lemma SendRefused(c: Conn, pipelining: bool, commands: seq<string>, message: string, replies: seq<Response>)
    requires Answers(c, commands, replies) && FirstNegative(replies) < |replies|
    ensures var i := FirstNegative(replies);
            var (d, r) := AfterSend(c, pipelining, commands, message);
            && r == Failure(FromResponse(replies[i]))
            && d.written == c.written + Flatten(if pipelining then commands else commands[..i + 1])
            && d.Unread() == if pipelining then RenderAll(replies[i + 1..]) else ""
  {
    PipelinedRefused(c, commands, replies);
    LockStepRefused(c, commands, replies);
    SendStops(c, pipelining, commands, message);
    hide Answers, Conn.Valid, Conn.Unread, LockStep, Pipelined, AfterSend, RenderAll, Flatten, FirstNegative;
  }

  /** Every run of `send` with well-formed replies. The first negative reply to a command is the error and no byte of the
      body is written; pipelining leaves the replies behind it unread, lock-step has sent no command behind it and
      leaves nothing unread. Without one the reply to the body decides, positive or not, with every reply read and
      every byte written. */
  lemma SendAccounting(c: Conn, pipelining: bool, commands: seq<string>, message: string,
                       replies: seq<Response>, final: Response)
    requires ServesTransaction(c, commands, message, replies, final)
    ensures var i := FirstNegative(replies);
            var (d, r) := AfterSend(c, pipelining, commands, message);
            if i == |replies| then
              && r == Verdict(final) && d.Unread() == ""
              && d.written == c.written + (Flatten(commands) + MessageBytes(message))
            else
              && r == Failure(FromResponse(replies[i]))
              && d.written == c.written + Flatten(if pipelining then commands else commands[..i + 1])
              && d.Unread() == if pipelining then RenderAll(replies[i + 1..]) else ""
  {
    hide AfterSend, Render, RenderAll, MessageBytes, Flatten, Verdict, AnswersBody;
    if FirstNegative(replies) == |replies| {
      SendAccepted(c, pipelining, commands, message, replies, final);
    } else {
      SendRefused(c, pipelining, commands, message, replies);
    }
  }

  /** The same for a transaction with `n` recipients: there is one at least and there are `n + 2` commands; a pipelined
      failure on reply `i` leaves exactly `n + 1 - i` replies unread. */
  lemma TransactionAccounting(c: Conn, pipelining: bool, envelope: Envelope, options: seq<MailParameter>, message: string,
                              replies: seq<Response>, final: Response)
    requires ServesTransaction(c, TransactionCommands(envelope, options), message, replies, final)
    ensures var commands := TransactionCommands(envelope, options);
            var n, i := |envelope.forwardPath|, FirstNegative(replies);
            var (d, r) := AfterSend(c, pipelining, commands, message);
            && n > 0 && |commands| == |replies| == n + 2
            && if i == n + 2 then
                 && r == Verdict(final) && d.Unread() == ""
                 && d.written == c.written + TransactionBytes(envelope, options, message)
               else
                 && r == Failure(FromResponse(replies[i]))
                 && d.written == c.written + Flatten(if pipelining then commands else commands[..i + 1])
                 && d.Unread() == (if pipelining then RenderAll(replies[i + 1..]) else "")
                 && |replies[i + 1..]| == n + 1 - i
  {
    hide AfterSend, Render, MessageBytes, AnswersBody, MailCommand.ToString, RcptCommand.ToString;
    RcptCommandsAt(envelope.forwardPath);
    SendAccounting(c, pipelining, TransactionCommands(envelope, options), message, replies, final);
  }

  /** The whole session: if every reply is well formed and positive, sending succeeds in either mode with the last
      reply and leaves none unread, and a server that parses the bytes on its own recovers the sender, the
      parameters, the recipients in order and the body, with nothing left over, if and only if the body is safe and
      not empty. */
  lemma WholeSessionFidelity(c: Conn, info: ServerInfo, client: SmtpClient, pipelining: bool, email: SendableEmail,
                             replies: seq<Response>, final: Response)
    requires ServesTransaction(c, TransactionCommands(email.envelope, MailOptions(info, client)), email.message, replies, final)
    requires final.IsPositive() && forall k :: 0 <= k < |replies| ==> replies[k].IsPositive()
    ensures var options := MailOptions(info, client);
            var (d, r) := AfterSend(c, pipelining, TransactionCommands(email.envelope, options), email.message);
            && r == Success(final) && d.Unread() == "" && c.written <= d.written
            && (ParseTransaction(d.written[|c.written|..]) == Some((Intended(email.envelope, options, email.message), ""))
                <==> email.message != "" && Safe(email.message))
  {
    hide AfterSend, MessageBytes, TransactionCommands, ParseTransaction, Intended, Safe, AnswersBody;
    var commands := TransactionCommands(email.envelope, MailOptions(info, client));
    assert FirstNegative(replies) == |replies|;
    SendAccounting(c, pipelining, commands, email.message, replies, final);
    SentTransaction(c, info, client, pipelining, email);
  }

  // ---------- the body waits ----------

  /** The bytes begin with a positive reply to MAIL, one to each of `n` RCPTs, and one to DATA. */
  ghost predicate Accepts(sent: string, mail: Response, rcpts: seq<Response>, data: Response, n: nat) {
    && WellFormed(mail) && AllWellFormed(rcpts) && WellFormed(data) && |rcpts| == n
    && mail.IsPositive() && (forall k :: 0 <= k < n ==> rcpts[k].IsPositive()) && data.IsPositive()
    && Render(mail) + RenderAll(rcpts) + Render(data) <= sent
  }

  /** Against every server and in both modes, `send` writes whole commands from the front of the transaction, and the
      body behind all of them only after the server, having received nothing of it, has accepted the sender, every
      recipient, of which there is one at least, and DATA. */
  lemma BodyWaitsForAcceptance(c: Conn, pipelining: bool, envelope: Envelope, options: seq<MailParameter>, message: string)
    requires c.Valid()
    ensures var commands := TransactionCommands(envelope, options);
            var d := AfterSend(c, pipelining, commands, message).0;
            || (exists k :: 0 <= k <= |commands| && d.written == c.written + Flatten(commands[..k]))
            || (&& d.written == c.written + Flatten(commands) + MessageBytes(message)
                && |envelope.forwardPath| > 0
                && exists mail, rcpts, data ::
                     Accepts(c.Write(Flatten(commands)).Unread(), mail, rcpts, data, |envelope.forwardPath|))
  {
    var commands := TransactionCommands(envelope, options);
    RcptCommandsAt(envelope.forwardPath);
    assert |commands| == |envelope.forwardPath| + 2;
    hide TransactionCommands, AfterSend, MessageBytes, Conn.Valid, Render;
    BodyWaitsForReplies(c, pipelining, commands, message);
    var sent := c.Write(Flatten(commands)).Unread();
    forall replies: seq<Response> | PositiveReplies(replies, |commands|) && RenderAll(replies) <= sent
      ensures exists mail, rcpts, data :: Accepts(sent, mail, rcpts, data, |envelope.forwardPath|)
    {
      AcceptedInOrder(sent, replies, |envelope.forwardPath|);
    }
  }

  lemma AcceptedInOrder(sent: string, replies: seq<Response>, n: nat)
    requires PositiveReplies(replies, n + 2) && RenderAll(replies) <= sent
    ensures Accepts(sent, replies[0], replies[1..n + 1], replies[n + 1], n)
  {
    hide Render;
    var rcpts := replies[1..n + 1];
    assert replies == [replies[0]] + (rcpts + [replies[n + 1]]);
    assert replies[1..] == rcpts + [replies[n + 1]];
    RenderAllAppend(rcpts, replies[n + 1]);
    assert RenderAll(replies) == Render(replies[0]) + RenderAll(replies[1..]);
    DistributeWrite(Render(replies[0]), RenderAll(rcpts), Render(replies[n + 1]));
  }

  // ---------- servers that answer exist ----------

  /** How many of the commands have come in completely. */
  function Received(w: string, commands: seq<string>): (n: nat)
    ensures n <= |commands|
  {
    if commands == [] || !(commands[0] <= w) then 0 else 1 + Received(w[|commands[0]|..], commands[1..])
  }

  lemma {:induction false} ReceivedGrows(w: string, x: string, commands: seq<string>)
    ensures Received(w, commands) <= Received(w + x, commands)
  {
    if commands == [] || !(commands[0] <= w) {
    } else {
      assert (w + x)[|commands[0]|..] == w[|commands[0]|..] + x;
      ReceivedGrows(w[|commands[0]|..], x, commands[1..]);
    }
  }

  lemma {:induction false} ReceivedExactly(commands: seq<string>, k: nat)
    requires k <= |commands| && "" !in commands
    ensures Received(Flatten(commands[..k]), commands) == k
  {
    if k == 0 {
      assert commands != [] ==> commands[0] in commands;
    } else {
      var w := Flatten(commands[..k]);
      assert commands[..k][1..] == commands[1..][..k - 1];
      assert w == commands[0] + Flatten(commands[1..][..k - 1]);
      assert w[|commands[0]|..] == Flatten(commands[1..][..k - 1]);
      ReceivedExactly(commands[1..], k - 1);
    }
  }

  lemma {:induction false} RenderAllPrefix(replies: seq<Response>, i: nat, j: nat)
    requires AllWellFormed(replies) && i <= j <= |replies|
    ensures RenderAll(replies[..i]) <= RenderAll(replies[..j])
  {
    hide Render;
    if i == 0 {
    } else {
      assert replies[..i][1..] == replies[1..][..i - 1] && replies[..j][1..] == replies[1..][..j - 1];
      RenderAllPrefix(replies[1..], i - 1, j - 1);
    }
  }

  ghost function ServerOf(commands: seq<string>, replies: seq<Response>): string -> string
    requires |replies| == |commands| && AllWellFormed(replies)
  {
    (w: string) => RenderAll(replies[..Received(w, commands)])
  }

  lemma ServerOfIsCausal(commands: seq<string>, replies: seq<Response>)
    requires |replies| == |commands| && AllWellFormed(replies)
    ensures Causal(ServerOf(commands, replies))
  {
    hide Render, Received, RenderAll;
    var server := ServerOf(commands, replies);
    forall w, x
      ensures server(w) <= server(w + x)
    {
      ReceivedGrows(w, x, commands);
      RenderAllPrefix(replies, Received(w, commands), Received(w + x, commands));
    }
  }

  lemma ServerOfAt(commands: seq<string>, replies: seq<Response>, k: nat)
    requires "" !in commands && k <= |replies| == |commands| && AllWellFormed(replies)
    ensures ServerOf(commands, replies)("") == ""
    ensures ServerOf(commands, replies)("" + Flatten(commands[..k]))
         == ServerOf(commands, replies)("") + RenderAll(replies[..k])
  {
    hide Render, Received;
    ReceivedExactly(commands, 0);
    ReceivedExactly(commands, k);
    assert commands[..0] == [] && replies[..0] == [];
    assert "" + Flatten(commands[..k]) == Flatten(commands[..k]);
    assert "" + RenderAll(replies[..k]) == RenderAll(replies[..k]);
  }

  /** For any commands and as many well-formed replies there is a server that answers the one with the other. */
  lemma AnsweringServer(commands: seq<string>, replies: seq<Response>) returns (c: Conn)
    requires "" !in commands && |replies| == |commands| && AllWellFormed(replies)
    ensures c.written == "" && Answers(c, commands, replies)
  {
    hide Render, RenderAll, Causal, ServerOf, Flatten;
    ServerOfIsCausal(commands, replies);
    ServerOfAt(commands, replies, 0);
    c := Conn(ServerOf(commands, replies), "", 0);
    forall k | 0 <= k <= |commands|
      ensures c.server(c.written + Flatten(commands[..k])) == c.server(c.written) + RenderAll(replies[..k])
    {
      ServerOfAt(commands, replies, k);
    }
  }

  lemma {:induction false} RenderAllConcat(a: seq<Response>, b: seq<Response>)
    requires AllWellFormed(a) && AllWellFormed(b)
    ensures AllWellFormed(a + b) && RenderAll(a + b) == RenderAll(a) + RenderAll(b)
  {
    hide Render;
    if a == [] {
      assert a + b == b;
    } else {
      assert (a + b)[1..] == a[1..] + b;
      RenderAllConcat(a[1..], b);
    }
  }

  lemma RenderAllAppend(replies: seq<Response>, final: Response)
    requires AllWellFormed(replies) && WellFormed(final)
    ensures AllWellFormed(replies + [final]) && RenderAll(replies + [final]) == RenderAll(replies) + Render(final)
  {
    hide Render;
    RenderAllConcat(replies, [final]);
    assert RenderAll([final]) == Render(final) + "";
  }

  /** A server that answers a list of lines answers the first of them. */
  lemma AnswersFront(c: Conn, a: seq<string>, b: seq<string>, ra: seq<Response>, rb: seq<Response>)
    requires Answers(c, a + b, ra + rb) && |a| == |ra|
    ensures Answers(c, a, ra)
  {
    hide Causal, Render;
    assert forall k :: 0 <= k < |ra| ==> ra[k] == (ra + rb)[k];
    forall k | 0 <= k <= |a|
      ensures c.server(c.written + Flatten(a[..k])) == c.server(c.written) + RenderAll(ra[..k])
    {
      assert (a + b)[..k] == a[..k] && (ra + rb)[..k] == ra[..k];
    }
  }

  /** A server that answers has, after all commands, sent all replies and nothing else. */
  lemma AnswersAll(c: Conn, commands: seq<string>, replies: seq<Response>)
    requires Answers(c, commands, replies)
    ensures AllWellFormed(replies)
    ensures c.server(c.written + Flatten(commands)) == c.server(c.written) + RenderAll(replies)
  {
    hide Causal, Render;
    assert commands[..|commands|] == commands && replies[..|replies|] == replies;
  }

  /** A server that answers a whole list of lines, the last one being the body, serves the transaction. */
  lemma AnswersSplit(c: Conn, commands: seq<string>, message: string, replies: seq<Response>, final: Response)
    requires Answers(c, commands + [MessageBytes(message)], replies + [final]) && |commands| == |replies|
    ensures ServesTransaction(c, commands, message, replies, final)
  {
    hide Causal, Render, MessageBytes, WellFormed;
    var last, rs := MessageBytes(message), replies + [final];
    assert rs[|replies|] == final;
    AnswersFront(c, commands, [last], replies, [final]);
    AnswersAll(c, commands, replies);
    AnswersAll(c, commands + [last], rs);
    RenderAllAppend(replies, final);
    hide Answers, AllWellFormed, RenderAll;
    FlattenAppend(commands, [last]);
    assert Flatten([last]) == last + "" == last;
  }

  /** Whatever the commands, the body and the replies, there is a server that gives these replies to them. */
  lemma ServerExists(commands: seq<string>, message: string, replies: seq<Response>, final: Response) returns (c: Conn)
    requires "" !in commands && |replies| == |commands| && AllWellFormed(replies) && WellFormed(final)
    ensures ServesTransaction(c, commands, message, replies, final)
  {
    hide MessageBytes, Answers, Render;
    RenderAllAppend(replies, final);
    assert MessageBytes(message) != "" by {
      MessageBytesNotEmpty(message);
    }
    c := AnsweringServer(commands + [MessageBytes(message)], replies + [final]);
    AnswersSplit(c, commands, message, replies, final);
  }
}
