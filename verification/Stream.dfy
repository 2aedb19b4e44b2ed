/** The SMTP stream: commands out, replies in. */
module Stream {
  import opened Response
  import opened Errors
  import opened Connection
  import opened Reader
  import opened Codec
  import opened Transparency

  // ---------- what each operation does to the connection ----------

  function AfterRead(c: Conn): (r: (Conn, SmtpResult))
    requires c.Valid()
    ensures r.0.Valid() && r.0.server == c.server && r.0.written == c.written
    ensures r.0.Unread() == ReadReply(c.Unread()).1
  {
    hide Causal, ParseResponse;
    ReadLoopLeavesSuffix("", c.Unread());
    var (result, rest) := ReadReply(c.Unread());
    hide ReadReply, ReadLoop;
    (c.LeaveUnread(rest), result)
  }

  lemma AfterReadIs(c: Conn, c': Conn, result: SmtpResult)
    requires c.Valid() && c'.Valid() && c'.server == c.server && c'.written == c.written
    requires (result, c'.Unread()) == ReadReply(c.Unread())
    ensures (c', result) == AfterRead(c)
    ensures DecidesAsOneParse(c.Unread(), result, c'.Unread())
  {
    hide Causal, ReadReply, ConsumedToVerdict, ParseResponse, DecidesAsOneParse;
    ReaderIsOneParse(c.Unread());
    ReadLoopLeavesSuffix("", c.Unread());
  }

  lemma ReadIsOneParse(c: Conn)
    requires c.Valid()
    ensures DecidesAsOneParse(c.Unread(), AfterRead(c).1, AfterRead(c).0.Unread())
  {
    hide Causal, ReadReply, DecidesAsOneParse, ParseResponse;
    ReaderIsOneParse(c.Unread());
  }

  function AfterCommand(c: Conn, text: string): (r: (Conn, SmtpResult))
    requires c.Valid()
    ensures r.0.Valid() && r.0.server == c.server && r.0.written == c.written + text
  {
    AfterRead(c.Write(text))
  }

  function AfterMessage(c: Conn, message: string): (r: (Conn, SmtpResult))
    requires c.Valid()
    ensures r.0.Valid() && r.0.server == c.server && r.0.written == c.written + MessageBytes(message)
  {
    AfterRead(c.Write(MessageBytes(message)))
  }

  class SmtpStream {
    const inner: ByteStream

    constructor (stream: ByteStream)
      ensures inner == stream
    {
      inner := stream;
    }

    /** Sends a command and reads the reply to it. */
    method Command(command: string) returns (result: SmtpResult)
      requires inner.Valid()
      modifies inner
      ensures inner.Valid() && (inner.View(), result) == AfterCommand(old(inner.View()), command)
    {
      SendCommand(command);
      result := ReadResponse();
    }

    /** Sends a command without waiting for the reply. */
    method SendCommand(command: string)
      requires inner.Valid()
      modifies inner
      ensures inner.Valid() && inner.View() == old(inner.View()).Write(command)
    {
      inner.WriteAll(command);
    }

    /** Reads lines until they make up a reply. The verdict is that of one parse of everything the server
        has sent, and after a reply exactly the bytes behind it remain unread. */
    method ReadResponse() returns (result: SmtpResult)
      requires inner.Valid()
      modifies inner`consumed
      ensures inner.Valid() && (inner.View(), result) == AfterRead(old(inner.View()))
      ensures DecidesAsOneParse(old(inner.View().Unread()), result, inner.View().Unread())
    {
      hide Causal, ParseResponse, DecidesAsOneParse, AfterRead, Verdict;
      ghost var c := inner.View();
      var buffer := "";
      while true
        invariant inner.Valid() && inner.written == c.written
        invariant ReadLoop(buffer, inner.View().Unread()) == ReadReply(c.Unread())
        decreases |inner.View().Unread()|
      {
        var line := inner.ReadLine();
        if |line| == 0 {
          break;
        }
        buffer := buffer + line;
        match ParseResponse(buffer) {
          case Ok(_, response) =>
            result := Verdict(response);
            AfterReadIs(c, inner.View(), result);
            return;
          case Incomplete =>
          case Failure =>
            AfterReadIs(c, inner.View(), Failure(Parsing));
            return Failure(Parsing);
          case Error =>
            AfterReadIs(c, inner.View(), Failure(Parsing));
            return Failure(Parsing);
        }
      }
      AfterReadIs(c, inner.View(), Failure(INCOMPLETE));
      return Failure(INCOMPLETE);
    }

    /** Sends the message content and reads the reply to it. */
    method Message(message: string) returns (result: SmtpResult)
      requires inner.Valid()
      modifies inner
      ensures inner.Valid() && (inner.View(), result) == AfterMessage(old(inner.View()), message)
    {
      hide Encoded, CountAfter, Causal;
      var codec := new ClientCodec();
      codec.Encode(message, inner);
      inner.WriteAll("\r\n.\r\n");
      assert inner.written == old(inner.written) + MessageBytes(message);
      result := ReadResponse();
    }
  }
}
