/** Several emails on one transport: what all sends together write, and where a server finds them again. */
module Delivery {
  import opened Text
  import opened Response
  import opened ReplyGrammar
  import opened Types
  import opened Extension
  import opened Authentication
  import opened Commands
  import opened Connection
  import opened Reader
  import opened Stream
  import opened Transparency
  import opened SmtpClient
  import opened ServerGrammar
  import opened Pipelining
  import opened AuthBounds
  import opened Session

  /** `send` called for one email after another as long as it succeeds. */
  function AfterSends(c: Conn, info: ServerInfo, client: SmtpClient, pipelining: bool, emails: seq<SendableEmail>)
    : (r: (Conn, bool))
    requires c.Valid()
    ensures r.0.Valid()
    decreases |emails|
  {
    hide Conn.Valid, AfterSend;
    if emails == [] then (c, true)
    else
      var commands := TransactionCommands(emails[0].envelope, MailOptions(info, client));
      var (d, r) := AfterSend(c, pipelining, commands, emails[0].message);
      if r.Success? then AfterSends(d, info, client, pipelining, emails[1..]) else (d, false)
  }

  function SessionBytes(info: ServerInfo, client: SmtpClient, emails: seq<SendableEmail>): string {
    if emails == [] then ""
    else
      TransactionBytes(emails[0].envelope, MailOptions(info, client), emails[0].message)
      + SessionBytes(info, client, emails[1..])
  }

  function AllIntended(info: ServerInfo, client: SmtpClient, emails: seq<SendableEmail>): seq<Transaction> {
    if emails == [] then []
    else
      [Intended(emails[0].envelope, MailOptions(info, client), emails[0].message)] + AllIntended(info, client, emails[1..])
  }

  /** `n` transactions off the wire, one after another. */
  function ParseTransactions(n: nat, wire: string): Option<(seq<Transaction>, string)> {
    if n == 0 then Some(([], wire))
    else
      match ParseTransaction(wire)
      case None => None
      case Some((transaction, after)) =>
        match ParseTransactions(n - 1, after)
        case None => None
        case Some((more, rest)) => Some(([transaction] + more, rest))
  }

  ghost predicate AllDeliverable(emails: seq<SendableEmail>) {
    forall k :: 0 <= k < |emails| ==> emails[k].message != "" && Safe(emails[k].message)
  }

  lemma {:induction false} SendsWrite(c: Conn, info: ServerInfo, client: SmtpClient, pipelining: bool,
                                      emails: seq<SendableEmail>)
    requires c.Valid() && AfterSends(c, info, client, pipelining, emails).1
    ensures AfterSends(c, info, client, pipelining, emails).0.written == c.written + SessionBytes(info, client, emails)
    decreases |emails|
  {
    hide Conn.Valid, AfterSend, MessageBytes, TransactionCommands, MailOptions;
    if emails == [] {
      assert c.written + "" == c.written;
    } else {
      var commands := TransactionCommands(emails[0].envelope, MailOptions(info, client));
      var d := AfterSend(c, pipelining, commands, emails[0].message).0;
      SentBytes(c, pipelining, commands, emails[0].message);
      SendsWrite(d, info, client, pipelining, emails[1..]);
      var bytes := TransactionBytes(emails[0].envelope, MailOptions(info, client), emails[0].message);
      assert d.written == c.written + bytes;
      hide TransactionBytes;
      DistributeWrite(c.written, bytes, SessionBytes(info, client, emails[1..]));
    }
  }

  /** What stands in front of a well-read remainder decides: the transaction is the one meant and leaves the remainder,
      or it is another one, or, for an empty body, no transaction follows it. */
  lemma FirstTransaction(envelope: Envelope, options: seq<MailParameter>, body: string, n: nat, rest: string,
                         more: seq<Transaction>, last: string)
    requires GoodParameters(options) && GoodValues(options)
    requires |more| == n && (n == 0 ==> rest == last)
    ensures ParseTransactions(n + 1, TransactionBytes(envelope, options, body) + rest)
         == Some(([Intended(envelope, options, body)] + more, last))
       <==> body != "" && Safe(body) && ParseTransactions(n, rest) == Some((more, last))
  {
    hide MessageBytes, Safe, Receive, ParseTransaction, TransactionBytes, GoodParameters, GoodValues, Meanings, Recipients;
    TransactionParse(envelope, options, body, rest);
    BodyTransparency(body, rest);
    var wire := TransactionBytes(envelope, options, body) + rest;
    var (transaction, after) := ParseTransaction(wire).value;
    var intended := Intended(envelope, options, body);
    if body == "" {
      EmptyBody(rest);
      NoTransactionInside(rest);
      assert n > 0 ==> ParseTransactions(n, after) == None;
    } else if Safe(body) {
      SameHead(transaction, more, ParseTransactions(n, after), last);
    } else {
      assert transaction != intended;
      assert forall ts: seq<Transaction> :: ([transaction] + ts)[0] != ([intended] + more)[0];
    }
  }

  lemma SameHead(t: Transaction, more: seq<Transaction>, r: Option<(seq<Transaction>, string)>, last: string)
    ensures (match r case None => None case Some((ts, end)) => Some(([t] + ts, end))) == Some(([t] + more, last))
       <==> r == Some((more, last))
  {
    if r.Some? {
      assert ([t] + r.value.0)[1..] == r.value.0 && ([t] + more)[1..] == more;
    }
  }

  lemma NoTransactionInside(rest: string)
    ensures ParseTransaction("\r\n.\r\n" + rest) == None
  {
    var wire := "\r\n.\r\n" + rest;
    assert CrlfAt(wire, 0);
    FindCrlfIs(wire, 0);
    assert wire[..0] == "";
  }

  lemma SessionCons(info: ServerInfo, client: SmtpClient, emails: seq<SendableEmail>, rest: string)
    requires emails != []
    ensures SessionBytes(info, client, emails) + rest
         == TransactionBytes(emails[0].envelope, MailOptions(info, client), emails[0].message)
            + (SessionBytes(info, client, emails[1..]) + rest)
    ensures AllIntended(info, client, emails)
         == [Intended(emails[0].envelope, MailOptions(info, client), emails[0].message)]
            + AllIntended(info, client, emails[1..])
  {
    hide TransactionBytes, Intended, MailOptions;
  }

  /** Transactions back to back are parsed one by one as they were meant, leaving exactly what follows them, if and only
      if every body is safe and not empty. */
  lemma {:induction false} SessionRoundTrip(info: ServerInfo, client: SmtpClient, emails: seq<SendableEmail>, rest: string)
    ensures ParseTransactions(|emails|, SessionBytes(info, client, emails) + rest)
         == Some((AllIntended(info, client, emails), rest))
       <==> AllDeliverable(emails)
  {
    if emails == [] {
      assert "" + rest == rest;
    } else {
      hide Safe, MailOptions, ParseTransactions, TransactionBytes, Intended, AllIntended, SessionBytes, AllDeliverable;
      var email, more := emails[0], emails[1..];
      SessionCons(info, client, emails, rest);
      AllDeliverableCons(emails);
      SessionRoundTrip(info, client, more, rest);
      MailOptionsAreGood(info, client);
      AllIntendedLength(info, client, more);
      SessionEnd(info, client, more, rest);
      FirstTransaction(email.envelope, MailOptions(info, client), email.message, |more|,
                       SessionBytes(info, client, more) + rest, AllIntended(info, client, more), rest);
    }
  }

  lemma AllDeliverableCons(emails: seq<SendableEmail>)
    requires emails != []
    ensures AllDeliverable(emails) <==> emails[0].message != "" && Safe(emails[0].message) && AllDeliverable(emails[1..])
  {
    hide Safe;
    assert forall k :: 0 < k < |emails| ==> emails[k] == emails[1..][k - 1];
  }

  lemma AllIntendedLength(info: ServerInfo, client: SmtpClient, emails: seq<SendableEmail>)
    ensures |AllIntended(info, client, emails)| == |emails|
  {
  }

  lemma SessionEnd(info: ServerInfo, client: SmtpClient, emails: seq<SendableEmail>, rest: string)
    ensures emails == [] ==> SessionBytes(info, client, emails) + rest == rest
  {
  }

  /** However many emails are sent on one transport, in either mode and whatever the server: if every `send` succeeds, the
      bytes written are their transactions back to back, and parsed independently they are the intended ones in
      order, with nothing left over, if and only if every body is safe and not empty. */
  lemma SentSession(c: Conn, info: ServerInfo, client: SmtpClient, pipelining: bool, emails: seq<SendableEmail>)
    requires c.Valid() && AfterSends(c, info, client, pipelining, emails).1
    ensures var d := AfterSends(c, info, client, pipelining, emails).0;
            && d.written == c.written + SessionBytes(info, client, emails)
            && (ParseTransactions(|emails|, d.written[|c.written|..]) == Some((AllIntended(info, client, emails), ""))
                <==> AllDeliverable(emails))
  {
    hide AfterSends, Conn.Valid, SessionBytes, AllIntended, ParseTransactions, AllDeliverable;
    SendsWrite(c, info, client, pipelining, emails);
    SessionRoundTrip(info, client, emails, "");
    var bytes := SessionBytes(info, client, emails);
    assert (c.written + bytes)[|c.written|..] == bytes == bytes + "";
  }

  // ---------- where one transaction ends and the next begins ----------

  /** A body whose data ends where the client means it to end. */
  ghost predicate Bounded(message: string) {
    message != "" && LoneDotsDoubled(message + CRLF, 0)
  }

  ghost predicate AllBounded(emails: seq<SendableEmail>) {
    forall k :: 0 <= k < |emails| ==> Bounded(emails[k].message)
  }

  /** `j` transactions can be parsed off the wire, and this is left. */
  predicate LeavesAfter(j: nat, wire: string, left: string) {
    ParseTransactions(j, wire).Some? && ParseTransactions(j, wire).value.1 == left
  }

  /** After each of the emails the server is exactly in front of the bytes of the next one. */
  ghost predicate Framed(info: ServerInfo, client: SmtpClient, emails: seq<SendableEmail>, rest: string) {
    forall j :: 0 <= j <= |emails| ==> FramedAt(info, client, emails, rest, j)
  }

  predicate FramedAt(info: ServerInfo, client: SmtpClient, emails: seq<SendableEmail>, rest: string, j: nat)
    requires j <= |emails|
  {
    LeavesAfter(j, SessionBytes(info, client, emails) + rest, SessionBytes(info, client, emails[j..]) + rest)
  }

  lemma FirstLeaves(email: SendableEmail, options: seq<MailParameter>, tail: string)
    requires GoodParameters(options) && GoodValues(options)
    ensures ParseTransaction(TransactionBytes(email.envelope, options, email.message) + tail).Some?
    ensures ParseTransaction(TransactionBytes(email.envelope, options, email.message) + tail).value.1 == tail
       <==> Bounded(email.message)
  {
    hide GoodParameters, GoodValues, TransactionBytes, ParseTransaction, Receive, MessageBytes, LoneDotsDoubled;
    TransactionParse(email.envelope, options, email.message, tail);
    BodyBoundary(email.message, tail);
  }

  lemma LeavesCons(j: nat, wire: string, left: string)
    requires ParseTransaction(wire).Some?
    ensures LeavesAfter(j + 1, wire, left) <==> LeavesAfter(j, ParseTransaction(wire).value.1, left)
    ensures LeavesAfter(0, wire, wire)
  {
    hide ParseTransaction;
  }

  lemma FramedNext(info: ServerInfo, client: SmtpClient, emails: seq<SendableEmail>, rest: string, j: nat)
    requires j < |emails| && Bounded(emails[0].message)
    ensures FramedAt(info, client, emails, rest, j + 1) <==> FramedAt(info, client, emails[1..], rest, j)
  {
    hide ParseTransaction, ParseTransactions, TransactionBytes, SessionBytes, Bounded, LeavesAfter, MailOptions;
    var options := MailOptions(info, client);
    MailOptionsAreGood(info, client);
    SessionCons(info, client, emails, rest);
    var tail := SessionBytes(info, client, emails[1..]) + rest;
    FirstLeaves(emails[0], options, tail);
    LeavesCons(j, SessionBytes(info, client, emails) + rest, SessionBytes(info, client, emails[j + 1..]) + rest);
    assert emails[1..][j..] == emails[j + 1..];
  }

  lemma FramedFirst(info: ServerInfo, client: SmtpClient, emails: seq<SendableEmail>, rest: string)
    requires emails != []
    ensures FramedAt(info, client, emails, rest, 0)
    ensures FramedAt(info, client, emails, rest, 1) <==> Bounded(emails[0].message)
  {
    hide ParseTransaction, ParseTransactions, TransactionBytes, SessionBytes, Bounded, LeavesAfter, MailOptions;
    var options := MailOptions(info, client);
    MailOptionsAreGood(info, client);
    SessionCons(info, client, emails, rest);
    var tail := SessionBytes(info, client, emails[1..]) + rest;
    FirstLeaves(emails[0], options, tail);
    var wire := SessionBytes(info, client, emails) + rest;
    LeavesCons(0, wire, tail);
    LeavesNone(ParseTransaction(wire).value.1, tail);
    assert emails[0..] == emails;
  }

  lemma LeavesNone(wire: string, left: string)
    ensures LeavesAfter(0, wire, left) <==> wire == left
  {
  }

  /** A server that parses the bytes of all emails finds each of them exactly where the client put it, if and only if
      no body is empty and each line of a body that is a single dot is doubled. This asks less of the bodies than
      that they arrive unchanged. */
  lemma {:induction false} SessionFraming(info: ServerInfo, client: SmtpClient, emails: seq<SendableEmail>, rest: string)
    ensures Framed(info, client, emails, rest) <==> AllBounded(emails)
  {
    if emails == [] {
      assert emails[0..] == emails;
      LeavesNone(SessionBytes(info, client, emails) + rest, SessionBytes(info, client, emails[0..]) + rest);
    } else {
      hide FramedAt, Bounded;
      FramedFirst(info, client, emails, rest);
      SessionFraming(info, client, emails[1..], rest);
      AllBoundedCons(emails);
      if Bounded(emails[0].message) {
        forall j: nat | j < |emails|
          ensures FramedAt(info, client, emails, rest, j + 1) <==> FramedAt(info, client, emails[1..], rest, j)
        {
          FramedNext(info, client, emails, rest, j);
        }
        FramedShift(info, client, emails, rest);
      } else {
        assert !FramedAt(info, client, emails, rest, 1);
      }
    }
  }

  lemma FramedShift(info: ServerInfo, client: SmtpClient, emails: seq<SendableEmail>, rest: string)
    requires emails != [] && FramedAt(info, client, emails, rest, 0)
    requires forall j: nat :: j < |emails| ==>
               (FramedAt(info, client, emails, rest, j + 1) <==> FramedAt(info, client, emails[1..], rest, j))
    ensures Framed(info, client, emails, rest) <==> Framed(info, client, emails[1..], rest)
  {
    hide FramedAt;
    if Framed(info, client, emails[1..], rest) {
      forall j | 0 <= j <= |emails|
        ensures FramedAt(info, client, emails, rest, j)
      {
        assert j > 0 ==> FramedAt(info, client, emails[1..], rest, j - 1);
      }
    }
  }

  lemma AllBoundedCons(emails: seq<SendableEmail>)
    requires emails != []
    ensures AllBounded(emails) <==> Bounded(emails[0].message) && AllBounded(emails[1..])
  {
    hide Bounded;
    assert forall k :: 0 < k < |emails| ==> emails[k] == emails[1..][k - 1];
  }

  /** Equal in everything but the data. */
  ghost predicate SameEnvelopes(a: seq<Transaction>, b: seq<Transaction>) {
    |a| == |b| && forall k :: 0 <= k < |a| ==> a[k] == b[k].(data := a[k].data)
  }

  /** Then senders, parameters and recipients are all those that were meant, in order, whatever happened to the data. */
  lemma {:induction false} SessionEnvelopes(info: ServerInfo, client: SmtpClient, emails: seq<SendableEmail>, rest: string)
    requires AllBounded(emails)
    ensures var r := ParseTransactions(|emails|, SessionBytes(info, client, emails) + rest);
            r.Some? && r.value.1 == rest && SameEnvelopes(r.value.0, AllIntended(info, client, emails))
  {
    if emails == [] {
      assert "" + rest == rest;
    } else {
      hide ParseTransaction, ParseTransactions, TransactionBytes, SessionBytes, AllIntended, Intended, Bounded, MailOptions;
      hide SameEnvelopes, AllBounded;
      SessionCons(info, client, emails, rest);
      AllBoundedCons(emails);
      MailOptionsAreGood(info, client);
      var tail := SessionBytes(info, client, emails[1..]) + rest;
      FirstLeaves(emails[0], MailOptions(info, client), tail);
      FirstEnvelope(emails[0], MailOptions(info, client), tail);
      SessionEnvelopes(info, client, emails[1..], rest);
      var first := ParseTransaction(SessionBytes(info, client, emails) + rest).value.0;
      var (more, _) := ParseTransactions(|emails| - 1, tail).value;
      ParsedCons(|emails| - 1, SessionBytes(info, client, emails) + rest);
      EnvelopesCons(first, Intended(emails[0].envelope, MailOptions(info, client), emails[0].message), more,
                    AllIntended(info, client, emails[1..]));
    }
  }

  lemma ParsedCons(n: nat, wire: string)
    requires ParseTransaction(wire).Some? && ParseTransactions(n, ParseTransaction(wire).value.1).Some?
    ensures var (more, rest) := ParseTransactions(n, ParseTransaction(wire).value.1).value;
            ParseTransactions(n + 1, wire) == Some(([ParseTransaction(wire).value.0] + more, rest))
  {
    hide ParseTransaction;
  }

  lemma EnvelopesCons(a: Transaction, b: Transaction, as': seq<Transaction>, bs: seq<Transaction>)
    requires a == b.(data := a.data) && SameEnvelopes(as', bs)
    ensures SameEnvelopes([a] + as', [b] + bs)
  {
  }

  lemma FirstEnvelope(email: SendableEmail, options: seq<MailParameter>, tail: string)
    requires GoodParameters(options) && GoodValues(options)
    ensures var r := ParseTransaction(TransactionBytes(email.envelope, options, email.message) + tail);
            r.Some? && r.value.0 == Intended(email.envelope, options, email.message).(data := r.value.0.data)
  {
    hide GoodParameters, GoodValues, TransactionBytes, ParseTransaction, Receive, MessageBytes, Meanings, Recipients;
    TransactionParse(email.envelope, options, email.message, tail);
  }

  // ---------- a server that answers everything ----------

  function SendLines(info: ServerInfo, client: SmtpClient, email: SendableEmail): seq<string> {
    TransactionCommands(email.envelope, MailOptions(info, client)) + [MessageBytes(email.message)]
  }

  /** The commands and bodies of all emails in order. */
  function SessionLines(info: ServerInfo, client: SmtpClient, emails: seq<SendableEmail>): seq<string> {
    if emails == [] then [] else SendLines(info, client, emails[0]) + SessionLines(info, client, emails[1..])
  }

  ghost predicate AllPositiveReplies(replies: seq<Response>) {
    forall k :: 0 <= k < |replies| ==> replies[k].IsPositive()
  }

  /** Behind the lines already answered, a server that answers a list of lines answers the others. */
  lemma AnswersBack(c: Conn, d: Conn, a: seq<string>, b: seq<string>, ra: seq<Response>, rb: seq<Response>)
    requires Answers(c, a + b, ra + rb) && |a| == |ra|
    requires d.Valid() && d.server == c.server && d.written == c.written + Flatten(a) && d.Unread() == ""
    ensures Answers(d, b, rb)
  {
    hide Causal, Render;
    AnswersFront(c, a, b, ra, rb);
    AnswersAll(c, a, ra);
    assert forall k :: 0 <= k < |rb| ==> rb[k] == (ra + rb)[|ra| + k];
    forall k | 0 <= k <= |b|
      ensures AllWellFormed(rb[..k])
      ensures d.server(d.written + Flatten(b[..k])) == d.server(d.written) + RenderAll(rb[..k])
    {
      hide Flatten, RenderAll;
      assert c.server(c.written + Flatten((a + b)[..|a| + k])) == c.server(c.written) + RenderAll((ra + rb)[..|a| + k]);
      AnswersBackAt(c.written, c.server(c.written), a, b, ra, rb, k);
    }
  }

  lemma AnswersBackAt(written: string, sent: string, a: seq<string>, b: seq<string>, ra: seq<Response>, rb: seq<Response>,
                      k: nat)
    requires k <= |b| == |rb| && |a| == |ra| && AllWellFormed(ra) && AllWellFormed(rb)
    ensures AllWellFormed((ra + rb)[..|a| + k]) && AllWellFormed(rb[..k])
    ensures written + Flatten((a + b)[..|a| + k]) == written + Flatten(a) + Flatten(b[..k])
    ensures sent + RenderAll((ra + rb)[..|a| + k]) == sent + RenderAll(ra) + RenderAll(rb[..k])
  {
    hide Render, RenderAll, Flatten;
    assert (a + b)[..|a| + k] == a + b[..k] && (ra + rb)[..|a| + k] == ra + rb[..k];
    FlattenAppend(a, b[..k]);
    RenderAllConcat(ra, rb[..k]);
  }

  /** One email of several: it is sent, its replies are read, and the server goes on with the others. */
  lemma SendAnswered(c: Conn, info: ServerInfo, client: SmtpClient, pipelining: bool, email: SendableEmail,
                     more: seq<string>, ra: seq<Response>, rb: seq<Response>)
    requires Answers(c, SendLines(info, client, email) + more, ra + rb) && |SendLines(info, client, email)| == |ra|
    requires AllPositiveReplies(ra)
    ensures var commands := TransactionCommands(email.envelope, MailOptions(info, client));
            var (d, r) := AfterSend(c, pipelining, commands, email.message);
            r.Success? && d.Unread() == "" && Answers(d, more, rb)
  {
    assert c.Valid();
    hide Conn.Valid, Conn.Unread, MessageBytes, TransactionCommands, MailOptions, Answers, AfterSend, Render, RenderAll,
         Response.IsPositive, Causal, Flatten, AllPositiveReplies;
    AnswersFront(c, SendLines(info, client, email), more, ra, rb);
    OneSend(c, pipelining, TransactionCommands(email.envelope, MailOptions(info, client)), email.message, ra);
    var d := AfterSend(c, pipelining, TransactionCommands(email.envelope, MailOptions(info, client)), email.message).0;
    AnswersBack(c, d, SendLines(info, client, email), more, ra, rb);
  }

  lemma OneSend(c: Conn, pipelining: bool, commands: seq<string>, message: string, replies: seq<Response>)
    requires Answers(c, commands + [MessageBytes(message)], replies) && AllPositiveReplies(replies)
    ensures c.Valid()
    ensures var (d, r) := AfterSend(c, pipelining, commands, message);
            r.Success? && d.Unread() == "" && d.written == c.written + Flatten(commands + [MessageBytes(message)])
  {
    assert c.Valid() && |replies| == |commands| + 1;
    hide Conn.Valid, Conn.Unread, MessageBytes, Answers, AfterSend, Render, RenderAll, Causal, Flatten, AnswersBody,
         Response.IsPositive;
    var n := |commands|;
    assert replies == replies[..n] + [replies[n]];
    AnswersSplit(c, commands, message, replies[..n], replies[n]);
    SendAccounting(c, pipelining, commands, message, replies[..n], replies[n]);
    FlattenAppend(commands, [MessageBytes(message)]);
    FlattenOne(MessageBytes(message));
  }

  lemma FlattenOne(piece: string)
    ensures Flatten([piece]) == piece
  {
    assert Flatten([piece]) == piece + "";
  }

  lemma {:induction false} SendsAnswered(c: Conn, info: ServerInfo, client: SmtpClient, pipelining: bool,
                                         emails: seq<SendableEmail>, replies: seq<Response>)
    requires Answers(c, SessionLines(info, client, emails), replies) && AllPositiveReplies(replies)
    ensures c.Valid()
    ensures AfterSends(c, info, client, pipelining, emails).1
    ensures AfterSends(c, info, client, pipelining, emails).0.Unread() == ""
    decreases |emails|
  {
    hide Conn.Valid, AfterSend, Render, RenderAll, Response.IsPositive, SendLines, MailOptions, TransactionCommands, Causal;
    if emails == [] {
    } else {
      var lines, more := SendLines(info, client, emails[0]), SessionLines(info, client, emails[1..]);
      var ra, rb := replies[..|lines|], replies[|lines|..];
      assert replies == ra + rb;
      SendAnswered(c, info, client, pipelining, emails[0], more, ra, rb);
      var commands := TransactionCommands(emails[0].envelope, MailOptions(info, client));
      var d := AfterSend(c, pipelining, commands, emails[0].message).0;
      hide Answers;
      SendsAnswered(d, info, client, pipelining, emails[1..], rb);
    }
  }

  /** Any number of emails to a server that answers every command and body positively: all sends succeed in either mode,
      every reply is read, and the server recovers all transactions as they were meant if and only if every body is
      safe and not empty. */
  lemma DeliveryFidelity(c: Conn, info: ServerInfo, client: SmtpClient, pipelining: bool, emails: seq<SendableEmail>,
                         replies: seq<Response>)
    requires Answers(c, SessionLines(info, client, emails), replies) && AllPositiveReplies(replies)
    ensures c.Valid()
    ensures var (d, ok) := AfterSends(c, info, client, pipelining, emails);
            && ok && d.Unread() == "" && c.written <= d.written
            && (ParseTransactions(|emails|, d.written[|c.written|..]) == Some((AllIntended(info, client, emails), ""))
                <==> AllDeliverable(emails))
  {
    hide AfterSends, Answers, Conn.Valid, SessionBytes, AllIntended, ParseTransactions, AllDeliverable, SessionLines;
    SendsAnswered(c, info, client, pipelining, emails, replies);
    SentSession(c, info, client, pipelining, emails);
  }

  /** There is such a server for any emails, and for any well-formed replies, one to each line. */
  lemma DeliveryServer(info: ServerInfo, client: SmtpClient, emails: seq<SendableEmail>, replies: seq<Response>)
    returns (c: Conn)
    requires |replies| == |SessionLines(info, client, emails)| && AllWellFormed(replies)
    ensures c.written == "" && Answers(c, SessionLines(info, client, emails), replies)
  {
    hide Answers, AllWellFormed;
    SessionLinesNotEmpty(info, client, emails);
    c := AnsweringServer(SessionLines(info, client, emails), replies);
  }

  lemma {:induction false} SessionLinesNotEmpty(info: ServerInfo, client: SmtpClient, emails: seq<SendableEmail>)
    ensures "" !in SessionLines(info, client, emails)
  {
    hide MessageBytes, MailOptions;
    if emails == [] {
    } else {
      SessionLinesNotEmpty(info, client, emails[1..]);
      MessageBytesNotEmpty(emails[0].message);
      CommandsNotEmpty(emails[0].envelope, MailOptions(info, client));
    }
  }

  lemma CommandsNotEmpty(envelope: Envelope, options: seq<MailParameter>)
    ensures "" !in TransactionCommands(envelope, options)
  {
    RcptCommandsAt(envelope.forwardPath);
    assert forall k :: 0 <= k < |RcptCommands(envelope.forwardPath)| ==> RcptCommands(envelope.forwardPath)[k] != "";
    assert MailCommand(envelope.reversePath, options).ToString() != "";
  }

  // ---------- from the greeting to the last email ----------

  /** Logging in with the mechanism chosen, or not at all. */
  function AfterLogin(c: Conn, mechanism: Option<Mechanism>, credentials: Credentials, base64: Base64)
    : (r: (Conn, bool, seq<Exchange>))
    requires c.Valid()
    ensures r.0.Valid()
  {
    match mechanism
    case None => (c, true, [])
    case Some(m) =>
      var (d, result, log) := AfterAuth(c, m, credentials, base64);
      (d, result.Success?, log)
  }

  /** A whole run against any server, every step of which succeeds: the bytes written are one EHLO line, the lines of the
      login, none without a mechanism and else ten at most, and the transactions of the emails; and from behind the
      login a server recovers these as they were meant if and only if every body is safe and not empty. */
  lemma WholeRun(c: Conn, info: ServerInfo, client: SmtpClient, mechanism: Option<Mechanism>, credentials: Credentials,
                 base64: Base64, pipelining: bool, emails: seq<SendableEmail>)
    requires c.Valid() && AfterHello(c, client).1.Success?
    requires AfterLogin(AfterHello(c, client).0, mechanism, credentials, base64).1
    requires AfterSends(AfterLogin(AfterHello(c, client).0, mechanism, credentials, base64).0, info, client, pipelining, emails).1
    ensures var (d, _, log) := AfterLogin(AfterHello(c, client).0, mechanism, credentials, base64);
            var e := AfterSends(d, info, client, pipelining, emails).0;
            && (if mechanism.None? then log == [] else 1 <= |log| <= 10)
            && d.written == c.written + EhloLine(client) + Flatten(Lines(log))
            && e.written == d.written + SessionBytes(info, client, emails)
            && (ParseTransactions(|emails|, e.written[|d.written|..]) == Some((AllIntended(info, client, emails), ""))
                <==> AllDeliverable(emails))
  {
    hide AfterSends, AfterHello, AfterAuth, Conn.Valid, SessionBytes, AllIntended, ParseTransactions, AllDeliverable;
    hide AnswersChallenge, Dialogue, Response.HasCode, IsChallenge, EhloLine;
    HelloWrites(c, client);
    var d := AfterHello(c, client).0;
    if mechanism.Some? {
      AuthLines(d, mechanism.value, credentials, base64);
      AuthSuccess(d, mechanism.value, credentials, base64);
    } else {
      assert d.written + "" == d.written;
    }
    SentSession(AfterLogin(d, mechanism, credentials, base64).0, info, client, pipelining, emails);
  }

  lemma HelloWrites(c: Conn, client: SmtpClient)
    requires c.Valid() && AfterHello(c, client).1.Success?
    ensures AfterHello(c, client).0.written == c.written + EhloLine(client)
  {
    hide Conn.Valid, AfterRead;
  }
}
