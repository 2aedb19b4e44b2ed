/** What every run of the AUTH exchange keeps to, whatever the server answers. */
module AuthBounds {
  import opened Text
  import opened Response
  import opened ReplyGrammar
  import opened Errors
  import opened Connection
  import opened Reader
  import opened Stream
  import opened Commands
  import opened Authentication
  import opened SmtpClient
  import opened Pipelining

  function Lines(log: seq<Exchange>): seq<string> {
    if log == [] then [] else [log[0].line] + Lines(log[1..])
  }

  /** A reply with code 334. */
  predicate IsChallenge(reply: SmtpResult) {
    reply.Success? && reply.value.code.ToString() == "334"
  }

  /** The line carries, in base64, the username or the secret that the decoded challenge asked for. */
  predicate AnswersChallenge(reply: SmtpResult, line: string, credentials: Credentials, base64: Base64) {
    && IsChallenge(reply)
    && reply.value.FirstWord().Some?
    && var challenge := base64.decode(reply.value.FirstWord().value);
       challenge.Success? &&
       ((challenge.value in ["User Name", "Username:", "Username"]
         && line == base64.encode(credentials.authenticationIdentity) + CRLF)
        || (challenge.value in ["Password", "Password:"] && line == base64.encode(credentials.secret) + CRLF))
  }

  /** Each line answers the reply before it, the first one the reply `first`. */
  predicate Dialogue(first: SmtpResult, log: seq<Exchange>, credentials: Credentials, base64: Base64)
    decreases |log|
  {
    log == [] ||
    (AnswersChallenge(first, log[0].line, credentials, base64) && Dialogue(log[0].reply, log[1..], credentials, base64))
  }

  lemma SuccessIsPositive(c: Conn, line: string)
    requires c.Valid() && AfterCommand(c, line).1.Success?
    ensures AfterCommand(c, line).1.value.IsPositive() && WellFormed(AfterCommand(c, line).1.value)
  {
    hide ParseResponse, ReadReply, Render, WellFormed;
    ReaderIsOneParse(c.Write(line).Unread());
    RenderOfParse(c.Write(line).Unread());
  }

  lemma OnlyLoginAnswers(mechanism: Mechanism, credentials: Credentials, base64: Base64, response: Response)
    ensures var r := NewAuthCommandFromResponse(mechanism, credentials, response, base64);
            r.Success? ==>
              mechanism.Login? && AnswersChallenge(Success(response), r.value.ToString(base64), credentials, base64)
  {
    hide Response.HasCode, Response.FirstWord, Code.ToString;
    ChallengeCode(response);
  }

  /** Why a reply is not answered. */
  lemma ChallengeErrors(mechanism: Mechanism, credentials: Credentials, base64: Base64, response: Response)
    ensures var r := NewAuthCommandFromResponse(mechanism, credentials, response, base64);
            r.Failure? ==>
              if !IsChallenge(Success(response)) then r.error == ResponseParsing("Expecting a challenge")
              else if response.FirstWord().None? then r.error == ResponseParsing("Could not read auth challenge")
              else
                match base64.decode(response.FirstWord().value)
                case Failure(e) => r.error == e
                case Success(_) =>
                  r.error == Client(if mechanism.Login? then "Unrecognized challenge"
                                    else "This mechanism does not expect a challenge")
  {
    hide Response.HasCode, Response.FirstWord, Code.ToString;
    ChallengeCode(response);
  }

  /** The command for a challenge given as text. */
  lemma ChallengeCommand(mechanism: Mechanism, credentials: Credentials, base64: Base64, challenge: string)
    ensures var r := NewAuthCommand(mechanism, credentials, Some(challenge));
            if !mechanism.Login? then r == Failure(Client("This mechanism does not expect a challenge"))
            else if challenge in ["User Name", "Username:", "Username"] then
              r.Success? && r.value.ToString(base64) == base64.encode(credentials.authenticationIdentity) + CRLF
            else if challenge in ["Password", "Password:"] then
              r.Success? && r.value.ToString(base64) == base64.encode(credentials.secret) + CRLF
            else r == Failure(Client("Unrecognized challenge"))
    ensures Login.Response(credentials, None) == Failure(Client("This mechanism does expect a challenge"))
  {
  }

  lemma {:induction false} RoundsWritten(c: Conn, challenges: nat, mechanism: Mechanism, credentials: Credentials,
                                         base64: Base64, response: Response)
    requires c.Valid()
    ensures var (d, _, log) := AuthRounds(c, challenges, mechanism, credentials, base64, response);
            |log| <= challenges && d.written == c.written + Flatten(Lines(log))
    decreases challenges
  {
    hide AfterCommand, Conn.Valid, Response.HasCode, NewAuthCommandFromResponse, AuthCommand.ToString;
    assert c.written + "" == c.written;
    var command := NewAuthCommandFromResponse(mechanism, credentials, response, base64);
    if challenges == 0 || !response.HasCode(334) || command.Failure? {
    } else {
      var line := command.value.ToString(base64);
      var (d, reply) := AfterCommand(c, line);
      assert Flatten([line]) == line + "" == line && Lines([Exchange(line, reply)]) == [line];
      if reply.Success? {
        RoundsWritten(d, challenges - 1, mechanism, credentials, base64, reply.value);
        var log := AuthRounds(d, challenges - 1, mechanism, credentials, base64, reply.value).2;
        assert ([Exchange(line, reply)] + log)[1..] == log;
      }
    }
  }

  lemma {:induction false} RoundsAnswer(c: Conn, challenges: nat, mechanism: Mechanism, credentials: Credentials,
                                        base64: Base64, response: Response)
    requires c.Valid()
    ensures var log := AuthRounds(c, challenges, mechanism, credentials, base64, response).2;
            (!mechanism.Login? ==> log == []) && Dialogue(Success(response), log, credentials, base64)
    decreases challenges
  {
    hide AfterCommand, Conn.Valid, Response.HasCode, AnswersChallenge, NewAuthCommandFromResponse, AuthCommand.ToString;
    var command := NewAuthCommandFromResponse(mechanism, credentials, response, base64);
    if challenges == 0 || !response.HasCode(334) || command.Failure? {
    } else {
      OnlyLoginAnswers(mechanism, credentials, base64, response);
      var line := command.value.ToString(base64);
      var (d, reply) := AfterCommand(c, line);
      if reply.Success? {
        RoundsAnswer(d, challenges - 1, mechanism, credentials, base64, reply.value);
        var log := AuthRounds(d, challenges - 1, mechanism, credentials, base64, reply.value).2;
        assert ([Exchange(line, reply)] + log)[1..] == log;
      }
    }
  }

  lemma {:induction false} RoundsSucceed(c: Conn, challenges: nat, mechanism: Mechanism, credentials: Credentials,
                                         base64: Base64, response: Response)
    requires c.Valid() && response.IsPositive() && WellFormed(response)
    ensures var (_, result, log) := AuthRounds(c, challenges, mechanism, credentials, base64, response);
            result.Success? ==>
              && |log| < challenges && result.value.IsPositive() && WellFormed(result.value) && !IsChallenge(result)
              && result == if log == [] then Success(response) else log[|log| - 1].reply
    decreases challenges
  {
    hide WellFormed, Code.ToString;
    ChallengeCode(response);
    hide AfterCommand, Conn.Valid, Response.HasCode, NewAuthCommandFromResponse, AuthCommand.ToString;
    var command := NewAuthCommandFromResponse(mechanism, credentials, response, base64);
    if challenges == 0 || !response.HasCode(334) || command.Failure? {
    } else {
      var line := command.value.ToString(base64);
      var (d, reply) := AfterCommand(c, line);
      if reply.Success? {
        SuccessIsPositive(c, line);
        RoundsSucceed(d, challenges - 1, mechanism, credentials, base64, reply.value);
      }
    }
  }

  lemma FirstLine(mechanism: Mechanism, credentials: Credentials, base64: Base64)
    ensures var r := NewAuthCommand(mechanism, credentials, None);
            r.Success? && (mechanism.Login? ==> r.value.ToString(base64) == "AUTH LOGIN" + CRLF)
  {
  }

  /** Every run of the exchange writes at least one line and at most eleven, one only unless the mechanism is LOGIN,
      and each later LOGIN line answers the challenge before it. */
  lemma AuthLines(c: Conn, mechanism: Mechanism, credentials: Credentials, base64: Base64)
    requires c.Valid()
    ensures var (d, _, log) := AfterAuth(c, mechanism, credentials, base64);
            && 1 <= |log| <= 11
            && d.written == c.written + Flatten(Lines(log))
            && (!mechanism.Login? ==> |log| == 1)
            && (mechanism.Login? ==> log[0].line == "AUTH LOGIN" + CRLF)
            && Dialogue(log[0].reply, log[1..], credentials, base64)
  {
    hide AfterCommand, Conn.Valid, Response.HasCode, NewAuthCommand, AuthCommand.ToString, AnswersChallenge, AuthRounds;
    FirstLine(mechanism, credentials, base64);
    var line := NewAuthCommand(mechanism, credentials, None).value.ToString(base64);
    var (e, reply) := AfterCommand(c, line);
    var log := AfterAuth(c, mechanism, credentials, base64).2;
    assert Flatten([line]) == line + "" == line && Lines([Exchange(line, reply)]) == [line];
    if reply.Success? {
      RoundsWritten(e, 10, mechanism, credentials, base64, reply.value);
      RoundsAnswer(e, 10, mechanism, credentials, base64, reply.value);
      assert log[1..] == AuthRounds(e, 10, mechanism, credentials, base64, reply.value).2;
    }
  }

  /** A success is the positive reply to the last line; it is not a challenge, and fewer than ten challenges came
      before it, so ten challenges always end in an error. */
  lemma AuthSuccess(c: Conn, mechanism: Mechanism, credentials: Credentials, base64: Base64)
    requires c.Valid()
    ensures var (_, result, log) := AfterAuth(c, mechanism, credentials, base64);
            && (result.Success? ==>
                  && 1 <= |log| <= 10 && result == log[|log| - 1].reply
                  && result.value.IsPositive() && WellFormed(result.value) && !("334" <= Render(result.value))
                  && forall k :: 0 <= k < |log| - 1 ==> IsChallenge(log[k].reply))
            && (|log| >= 10 && (forall k :: 0 <= k < 10 ==> IsChallenge(log[k].reply)) ==> result.Failure?)
  {
    hide AfterCommand, Conn.Valid, Response.HasCode, NewAuthCommand, AuthCommand.ToString, AuthRounds;
    FirstLine(mechanism, credentials, base64);
    var line := NewAuthCommand(mechanism, credentials, None).value.ToString(base64);
    var (e, reply) := AfterCommand(c, line);
    var (_, result, log) := AfterAuth(c, mechanism, credentials, base64);
    if reply.Success? {
      SuccessIsPositive(c, line);
      hide WellFormed, Render, Code.ToString;
      RoundsSucceed(e, 10, mechanism, credentials, base64, reply.value);
      RoundsAnswer(e, 10, mechanism, credentials, base64, reply.value);
      var rounds := AuthRounds(e, 10, mechanism, credentials, base64, reply.value).2;
      assert log == [Exchange(line, reply)] + rounds;
      DialogueChallenges(reply, rounds, credentials, base64);
      if result.Success? {
        ChallengeOnWire(result.value);
        ChallengeCode(result.value);
      }
    }
  }

  lemma {:induction false} DialogueChallenges(first: SmtpResult, log: seq<Exchange>, credentials: Credentials,
                                              base64: Base64)
    requires Dialogue(first, log, credentials, base64)
    ensures log != [] ==> IsChallenge(first)
    ensures forall k :: 0 <= k < |log| - 1 ==> IsChallenge(log[k].reply)
    decreases |log|
  {
    hide IsChallenge;
    if log == [] {
    } else {
      DialogueChallenges(log[0].reply, log[1..], credentials, base64);
      assert forall k :: 0 < k < |log| ==> log[k] == log[1..][k - 1];
    }
  }

  // ---------- lines on the wire ----------

  /** Base64 output without line breaks. */
  ghost predicate OneLine(base64: Base64) {
    forall text :: NoCrlf(base64.encode(text))
  }

  /** The text cut behind each CRLF; an open line at the end is a line of its own. */
  function WireLines(s: string): seq<string>
    decreases |s|
  {
    match FindCrlf(s)
    case None => if s == "" then [] else [s]
    case Some(k) => [s[..k + 2]] + WireLines(s[k + 2..])
  }

  ghost predicate IsWireLine(line: string) {
    exists text :: NoCrlf(text) && line == text + CRLF
  }

  lemma WireLinesCons(line: string, rest: string)
    requires IsWireLine(line)
    ensures WireLines(line + rest) == [line] + WireLines(rest)
  {
    hide NoCrlf;
    var text :| NoCrlf(text) && line == text + CRLF;
    FindCrlfAfterLine(text, rest);
    var s := text + CRLF + rest;
    assert s[..|text| + 2] == line;
  }

  lemma {:induction false} WireLinesOf(lines: seq<string>)
    requires forall k :: 0 <= k < |lines| ==> IsWireLine(lines[k])
    ensures WireLines(Flatten(lines)) == lines
  {
    if lines == [] {
    } else {
      hide IsWireLine, WireLines;
      WireLinesCons(lines[0], Flatten(lines[1..]));
      WireLinesOf(lines[1..]);
    }
  }

  lemma NoCrlfBehind(command: string, text: string)
    requires '\r' !in command && NoCrlf(text)
    ensures NoCrlf(command + text)
  {
    var s := command + text;
    forall k
      ensures !CrlfAt(s, k)
    {
      assert 0 <= k < |command| ==> s[k] in command;
      assert k >= |command| && CrlfAt(s, k) ==> CrlfAt(text, k - |command|);
    }
  }

  lemma FirstWireLine(mechanism: Mechanism, credentials: Credentials, base64: Base64)
    requires OneLine(base64)
    ensures IsWireLine(NewAuthCommand(mechanism, credentials, None).value.ToString(base64))
  {
    var command := NewAuthCommand(mechanism, credentials, None).value;
    if mechanism.Login? {
      NoCrlfBehind("AUTH LOGIN", "");
      assert command.ToString(base64) == "AUTH LOGIN" + "" + CRLF;
    } else {
      var text := base64.encode(command.response.value);
      var word := "AUTH " + mechanism.ToString() + " ";
      NoCrlfBehind(word, text);
      assert command.ToString(base64) == word + text + CRLF;
    }
  }

  lemma {:induction false} DialogueWireLines(first: SmtpResult, log: seq<Exchange>, credentials: Credentials, base64: Base64)
    requires OneLine(base64) && Dialogue(first, log, credentials, base64)
    ensures forall k :: 0 <= k < |Lines(log)| ==> IsWireLine(Lines(log)[k])
    decreases |log|
  {
    hide NoCrlf;
    if log == [] {
    } else {
      DialogueWireLines(log[0].reply, log[1..], credentials, base64);
      assert IsWireLine(log[0].line);
      assert forall k :: 0 < k < |Lines(log)| ==> Lines(log)[k] == Lines(log[1..])[k - 1];
    }
  }

  /** If base64 does not break its output, what the server receives in an exchange are exactly the lines of the log. */
  lemma AuthWireLines(c: Conn, mechanism: Mechanism, credentials: Credentials, base64: Base64)
    requires c.Valid() && OneLine(base64)
    ensures var (d, _, log) := AfterAuth(c, mechanism, credentials, base64);
            c.written <= d.written && WireLines(d.written[|c.written|..]) == Lines(log)
  {
    hide AfterCommand, Conn.Valid, NewAuthCommand, AuthCommand.ToString, OneLine, IsWireLine, WireLines, AnswersChallenge;
    var (d, _, log) := AfterAuth(c, mechanism, credentials, base64);
    AuthLines(c, mechanism, credentials, base64);
    FirstLine(mechanism, credentials, base64);
    FirstWireLine(mechanism, credentials, base64);
    assert log[0].line == NewAuthCommand(mechanism, credentials, None).value.ToString(base64);
    hide AfterAuth;
    DialogueWireLines(log[0].reply, log[1..], credentials, base64);
    assert forall k :: 0 < k < |Lines(log)| ==> Lines(log)[k] == Lines(log[1..])[k - 1];
    WireLinesOf(Lines(log));
    assert d.written[|c.written|..] == Flatten(Lines(log));
  }

  // ---------- scripted exchanges ----------

  /** A challenge that LOGIN answers is answered by exactly this line. */
  lemma ChallengeAnswered(response: Response, line: string, credentials: Credentials, base64: Base64)
    requires AnswersChallenge(Success(response), line, credentials, base64)
    ensures var r := NewAuthCommandFromResponse(Login, credentials, response, base64);
            r.Success? && r.value.ToString(base64) == line
  {
    hide Response.HasCode, Response.FirstWord, Code.ToString;
    ChallengeCode(response);
  }

  /** No line answers the reply. */
  ghost predicate Unanswered(mechanism: Mechanism, response: Response, credentials: Credentials, base64: Base64) {
    mechanism.Login? ==> forall line :: !AnswersChallenge(Success(response), line, credentials, base64)
  }

  /** With `challenges` rounds left after `response`: each line answers the reply before it; after the last one there is
      no round left, or nothing to answer, or the reply to it is negative. */
  ghost predicate RoundsScript(challenges: nat, mechanism: Mechanism, credentials: Credentials, base64: Base64,
                               response: Response, lines: seq<string>, replies: seq<Response>)
    decreases |lines|
  {
    && |lines| == |replies|
    && if lines == [] then challenges == 0 || Unanswered(mechanism, response, credentials, base64)
       else
         && challenges > 0 && mechanism.Login? && AnswersChallenge(Success(response), lines[0], credentials, base64)
         && if replies[0].IsPositive()
            then RoundsScript(challenges - 1, mechanism, credentials, base64, replies[0], lines[1..], replies[1..])
            else |lines| == 1
  }

  ghost predicate AuthScript(mechanism: Mechanism, credentials: Credentials, base64: Base64, lines: seq<string>,
                             replies: seq<Response>)
  {
    var first := NewAuthCommand(mechanism, credentials, None);
    && first.Success? && |lines| == |replies| > 0 && lines[0] == first.value.ToString(base64)
    && if replies[0].IsPositive()
       then RoundsScript(10, mechanism, credentials, base64, replies[0], lines[1..], replies[1..])
       else |lines| == 1
  }

  /** What the last reply means with `left` rounds left. */
  ghost predicate AuthOutcome(left: int, last: Response, result: SmtpResult) {
    if !last.IsPositive() then result == Failure(FromResponse(last))
    else if left == 0 then result == Failure(TOO_MANY_CHALLENGES)
    else if last.code.ToString() == "334" then result.Failure?
    else result == Success(last)
  }

  lemma {:induction false} RoundsAccounting(c: Conn, challenges: nat, mechanism: Mechanism, credentials: Credentials,
                                            base64: Base64, response: Response, lines: seq<string>, replies: seq<Response>)
    requires Answers(c, lines, replies) && response.IsPositive()
    requires RoundsScript(challenges, mechanism, credentials, base64, response, lines, replies)
    ensures var (d, result, _) := AuthRounds(c, challenges, mechanism, credentials, base64, response);
            && d.written == c.written + Flatten(lines) && d.Unread() == ""
            && AuthOutcome(challenges - |lines|, ([response] + replies)[|replies|], result)
    decreases |lines|
  {
    hide ReadReply, RenderAll, WellFormed, Causal, AfterCommand, Response.HasCode, NewAuthCommandFromResponse,
         AuthCommand.ToString, AnswersChallenge, Response.IsPositive, Code.ToString;
    if lines == [] {
      RoundsEnd(c, challenges, mechanism, credentials, base64, response);
      assert c.written + "" == c.written;
    } else {
      ChallengeAnswered(response, lines[0], credentials, base64);
      AnsweredHasCode(response, lines[0], credentials, base64);
      AnswersNext(c, lines, replies);
      var (d, r) := AfterCommand(c, lines[0]);
      assert ([response] + replies)[|replies|] == ([replies[0]] + replies[1..])[|replies| - 1];
      WrittenCons(c.written, lines);
      assert lines[1..] == [] ==> Flatten(lines[1..]) == "";
      hide Answers, Flatten;
      if replies[0].IsPositive() {
        RoundsAccounting(d, challenges - 1, mechanism, credentials, base64, replies[0], lines[1..], replies[1..]);
      } else {
        assert lines[1..] == [];
      }
    }
  }

  lemma AnsweredHasCode(response: Response, line: string, credentials: Credentials, base64: Base64)
    requires AnswersChallenge(Success(response), line, credentials, base64)
    ensures response.HasCode(334)
  {
    hide Response.HasCode, Code.ToString;
    ChallengeCode(response);
  }

  lemma RoundsEnd(c: Conn, challenges: nat, mechanism: Mechanism, credentials: Credentials, base64: Base64,
                  response: Response)
    requires c.Valid() && response.IsPositive()
    requires challenges == 0 || Unanswered(mechanism, response, credentials, base64)
    ensures var (d, result, _) := AuthRounds(c, challenges, mechanism, credentials, base64, response);
            d == c && AuthOutcome(challenges, response, result)
  {
    hide Conn.Valid, AfterCommand, Response.HasCode, NewAuthCommandFromResponse, AnswersChallenge, Response.IsPositive;
    hide Code.ToString;
    OnlyLoginAnswers(mechanism, credentials, base64, response);
    ChallengeCode(response);
  }

  /** Every AUTH exchange with well-formed replies: the lines of the script and no others are written, every reply is
      read, and the last one decides: a negative one is the error, ten answered challenges and a challenge without an
      answer end in errors, and any other reply is the success. */
  lemma AuthAccounting(c: Conn, mechanism: Mechanism, credentials: Credentials, base64: Base64,
                       lines: seq<string>, replies: seq<Response>)
    requires Answers(c, lines, replies) && AuthScript(mechanism, credentials, base64, lines, replies)
    ensures var (d, result, _) := AfterAuth(c, mechanism, credentials, base64);
            && d.written == c.written + Flatten(lines) && d.Unread() == ""
            && AuthOutcome(11 - |lines|, replies[|replies| - 1], result)
            && ("334" <= Render(replies[|replies| - 1]) ==> result.Failure?)
  {
    hide AfterAuth, RoundsScript, AuthOutcome, Response.IsPositive, Answers, NewAuthCommand, AuthCommand.ToString, Render;
    hide Flatten, Conn.Unread, RenderAll, ReadReply, Causal, Code.ToString;
    AnsweredWell(c, lines, replies);
    FinalChallenge(11 - |lines|, replies[|replies| - 1]);
    if replies[0].IsPositive() {
      AuthGoesOn(c, mechanism, credentials, base64, lines, replies);
    } else {
      AuthRefused(c, mechanism, credentials, base64, lines, replies);
    }
  }

  lemma AnsweredWell(c: Conn, lines: seq<string>, replies: seq<Response>)
    requires Answers(c, lines, replies) && replies != []
    ensures c.Valid() && lines != [] && WellFormed(replies[|replies| - 1])
  {
    hide Causal, WellFormed, Render, RenderAll, Flatten;
  }

  /** A challenge as the last reply is no success, by the first bytes of that reply. */
  lemma FinalChallenge(left: int, last: Response)
    requires WellFormed(last)
    ensures "334" <= Render(last) ==> forall result :: AuthOutcome(left, last, result) ==> result.Failure?
  {
    hide Render, Response.HasCode, Code.ToString;
    ChallengeOnWire(last);
    ChallengeCode(last);
  }

  lemma AuthGoesOn(c: Conn, mechanism: Mechanism, credentials: Credentials, base64: Base64,
                   lines: seq<string>, replies: seq<Response>)
    requires Answers(c, lines, replies) && AuthScript(mechanism, credentials, base64, lines, replies)
    requires replies[0].IsPositive()
    ensures var (d, result, _) := AfterAuth(c, mechanism, credentials, base64);
            && d.written == c.written + Flatten(lines) && d.Unread() == ""
            && AuthOutcome(11 - |lines|, replies[|replies| - 1], result)
  {
    hide AfterAuth, RoundsScript, AuthOutcome, Response.IsPositive, NewAuthCommand, AuthCommand.ToString, AfterCommand,
         ReadReply, Flatten, Causal, RenderAll, WellFormed, Code.ToString, Answers, Conn.Valid, Conn.Unread;
    AnsweredWell(c, lines, replies);
    AnswersNext(c, lines, replies);
    var d := AfterCommand(c, lines[0]).0;
    AuthGoesOnFrom(c, mechanism, credentials, base64, replies[0], lines[1..], replies[1..]);
    WrittenCons(c.written, lines);
    LastOf(replies);
  }

  lemma LastOf(replies: seq<Response>)
    requires replies != []
    ensures ([replies[0]] + replies[1..])[|replies| - 1] == replies[|replies| - 1]
  {
  }

  lemma AuthGoesOnFrom(c: Conn, mechanism: Mechanism, credentials: Credentials, base64: Base64, reply: Response,
                       lines: seq<string>, replies: seq<Response>)
    requires c.Valid() && reply.IsPositive() && NewAuthCommand(mechanism, credentials, None).Success?
    requires var (d, r) := AfterCommand(c, NewAuthCommand(mechanism, credentials, None).value.ToString(base64));
             r == Success(reply) && Answers(d, lines, replies)
    requires RoundsScript(10, mechanism, credentials, base64, reply, lines, replies)
    ensures var d := AfterCommand(c, NewAuthCommand(mechanism, credentials, None).value.ToString(base64)).0;
            var (e, result, _) := AfterAuth(c, mechanism, credentials, base64);
            && e.written == d.written + Flatten(lines) && e.Unread() == ""
            && AuthOutcome(10 - |lines|, ([reply] + replies)[|replies|], result)
  {
    hide AfterAuth, AuthOutcome, Response.IsPositive, NewAuthCommand, AuthCommand.ToString, AfterCommand, ReadReply;
    hide Flatten, Causal, AuthRounds, Conn.Valid, Conn.Unread, Answers, RoundsScript;
    AuthStarts(c, mechanism, credentials, base64);
    var d := AfterCommand(c, NewAuthCommand(mechanism, credentials, None).value.ToString(base64)).0;
    RoundsAccounting(d, 10, mechanism, credentials, base64, reply, lines, replies);
    assert |lines| == |replies| by {
      ScriptLength(10, mechanism, credentials, base64, reply, lines, replies);
    }
  }

  lemma ScriptLength(challenges: nat, mechanism: Mechanism, credentials: Credentials, base64: Base64, reply: Response,
                     lines: seq<string>, replies: seq<Response>)
    requires RoundsScript(challenges, mechanism, credentials, base64, reply, lines, replies)
    ensures |lines| == |replies|
  {
  }

  lemma AuthRefused(c: Conn, mechanism: Mechanism, credentials: Credentials, base64: Base64,
                    lines: seq<string>, replies: seq<Response>)
    requires Answers(c, lines, replies) && AuthScript(mechanism, credentials, base64, lines, replies)
    requires !replies[0].IsPositive()
    ensures var (d, result, _) := AfterAuth(c, mechanism, credentials, base64);
            && d.written == c.written + Flatten(lines) && d.Unread() == ""
            && AuthOutcome(11 - |lines|, replies[|replies| - 1], result)
  {
    hide AfterAuth, RoundsScript, AuthRounds, NewAuthCommand, AuthCommand.ToString, AfterCommand, Causal;
    AuthStarts(c, mechanism, credentials, base64);
    AnswersNext(c, lines, replies);
    assert lines == [lines[0]] && Flatten(lines) == lines[0] + "" == lines[0];
  }

  lemma WrittenCons(written: string, lines: seq<string>)
    requires lines != []
    ensures written + lines[0] + Flatten(lines[1..]) == written + Flatten(lines)
  {
  }

  lemma AuthStarts(c: Conn, mechanism: Mechanism, credentials: Credentials, base64: Base64)
    requires c.Valid()
    ensures var first := NewAuthCommand(mechanism, credentials, None);
            first.Success? ==>
              var (d, r) := AfterCommand(c, first.value.ToString(base64));
              var (e, result, _) := AfterAuth(c, mechanism, credentials, base64);
              if r.Failure? then e == d && result == r
              else
                && e == AuthRounds(d, 10, mechanism, credentials, base64, r.value).0
                && result == AuthRounds(d, 10, mechanism, credentials, base64, r.value).1
  {
    hide Conn.Valid, AfterCommand, AuthRounds, NewAuthCommand, AuthCommand.ToString;
  }
}
