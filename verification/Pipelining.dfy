/** The two ways to run the command phase compared, against any server whatever. */
module Pipelining {
  import opened Text
  import opened Response
  import opened ReplyGrammar
  import opened Errors
  import opened Connection
  import opened Reader
  import opened Stream
  import opened Transparency
  import opened SmtpClient

  // ---------- pipelined refines lock-step ----------

  /** Bytes that arrive early do not change what a read returns, unless it had run out of bytes. */
  lemma MoreInput(pending: string, more: string)
    ensures var (result, rest) := ReadReply(pending);
            var (result', rest') := ReadReply(pending + more);
            && (result != Failure(INCOMPLETE) ==> result' == result)
            && (result.Success? ==> rest' == rest + more)
  {
    hide ConsumedToVerdict, ParseResponse, ReadReply;
    ReaderIsOneParse(pending);
    ReaderIsOneParse(pending + more);
    ResponseStable(pending, more);
  }

  /** Having more to read from the server does not move a successful read. */
  lemma ReadAhead(c: Conn, more: string)
    requires c.Valid()
    ensures var (d, r) := AfterRead(c);
            var (e, s) := AfterRead(c.Write(more));
            && (r != Failure(INCOMPLETE) ==> s == r)
            && (r.Success? ==> e == d.Write(more))
  {
    hide ReadReply;
    var w := c.Write(more);
    var p, p' := c.Unread(), w.Unread();
    var x := p'[|p|..];
    assert p' == p + x;
    var (r, rest) := ReadReply(p);
    var (s, rest') := ReadReply(p');
    ReadLoopLeavesSuffix("", p);
    ReadLoopLeavesSuffix("", p');
    MoreInput(p, x);
    hide Causal;
    if r.Success? {
      assert rest' == rest + x;
      SameConn(AfterRead(w).0, AfterRead(c).0.Write(more));
    }
  }

  lemma SameConn(a: Conn, b: Conn)
    requires a.server == b.server && a.written == b.written && a.consumed == b.consumed
    ensures a == b
  {
  }

  /** Against every server: if lock-step is not left waiting for a reply that never comes, pipelining gives the
      same result; if lock-step succeeds, both leave the connection in the same state; and what lock-step has
      written is always a beginning of what pipelining has written, made of whole commands. */
  lemma {:induction false} PipelinedRefinesLockStep(c: Conn, commands: seq<string>)
    requires c.Valid()
    ensures var (d, r) := LockStep(c, commands);
            var (e, s) := Pipelined(c, commands);
            && (r != Failure(INCOMPLETE) ==> s == r)
            && (r.Success? ==> d == e)
            && exists k :: 0 <= k <= |commands| && d.written == c.written + Flatten(commands[..k])
    decreases |commands|
  {
    hide AfterRead, Conn.Valid, ReadReply;
    if commands == [] {
      assert c.Write("") == c by {
        assert c.written + "" == c.written;
      }
      assert c.written == c.written + Flatten(commands[..0]);
    } else {
      var first, rest := commands[0], commands[1..];
      assert commands == [first] + rest;
      LockStepNext(c, first, rest);
      PipelinedNext(c, first, rest);
      hide LockStep, Pipelined, AfterCommand;
      var (d, r) := AfterCommand(c, first);
      if r.Success? {
        PipelinedRefinesLockStep(d, rest);
        var k :| 0 <= k <= |rest| && LockStep(d, rest).0.written == d.written + Flatten(rest[..k]);
        WholeCommands(c.written, first, rest, k);
      } else {
        WholeCommands(c.written, first, rest, 0);
        assert Flatten(rest[..0]) == "" && c.written + first + "" == c.written + first;
      }
    }
  }

  lemma WholeCommands(written: string, first: string, rest: seq<string>, k: nat)
    requires k <= |rest|
    ensures written + first + Flatten(rest[..k]) == written + Flatten(([first] + rest)[..k + 1])
  {
    FlattenFront(first, rest, k);
    assert written + first + Flatten(rest[..k]) == written + (first + Flatten(rest[..k]));
  }

  lemma LockStepNext(c: Conn, first: string, rest: seq<string>)
    requires c.Valid()
    ensures var (d, r) := AfterCommand(c, first);
            LockStep(c, [first] + rest) == if r.Success? then LockStep(d, rest) else (d, Failure(r.error))
  {
    hide AfterCommand, Conn.Valid;
    assert ([first] + rest)[1..] == rest;
  }

  /** Pipelining reads the first reply as lock-step does, and goes on from the same place. */
  lemma PipelinedNext(c: Conn, first: string, rest: seq<string>)
    requires c.Valid()
    ensures var (d, r) := AfterCommand(c, first);
            && (r.Success? ==> Pipelined(c, [first] + rest) == Pipelined(d, rest))
            && (r.Failure? && r != Failure(INCOMPLETE) ==> Pipelined(c, [first] + rest).1 == Failure(r.error))
  {
    hide AfterRead, Conn.Valid;
    assert ([first] + rest)[1..] == rest;
    WriteTwice(c, first, Flatten(rest));
    ReadAhead(c.Write(first), Flatten(rest));
  }

  // ---------- when the modes agree ----------

  ghost predicate PositiveReplies(replies: seq<Response>, n: nat) {
    |replies| == n && AllWellFormed(replies) && forall k :: 0 <= k < n ==> replies[k].IsPositive()
  }

  /** What the server has sent is `n` positive replies and the beginning of another reply, or nothing, on which the
      parser asks for more. */
  ghost predicate RunsOut(sent: string, n: nat) {
    exists replies: seq<Response> :: PositiveReplies(replies, n) && RunsOutBehind(sent, replies)
  }

  ghost predicate RunsOutBehind(sent: string, replies: seq<Response>)
    requires AllWellFormed(replies)
  {
    RenderAll(replies) <= sent && ParseResponse(sent[|RenderAll(replies)|..]).Incomplete?
  }

  lemma RunsOutCons(r: Response, replies: seq<Response>, rest: string, n: nat)
    requires WellFormed(r) && r.IsPositive() && PositiveReplies(replies, n) && RunsOutBehind(rest, replies)
    ensures RunsOut(Render(r) + rest, n + 1)
  {
    hide ParseResponse, Render, Response.IsPositive;
    var all, sent := [r] + replies, Render(r) + rest;
    assert all[1..] == replies;
    assert RenderAll(all) == Render(r) + RenderAll(replies);
    assert sent[|RenderAll(all)|..] == rest[|RenderAll(replies)|..];
    assert PositiveReplies(all, n + 1) && RunsOutBehind(sent, all);
  }

  lemma RunsOutTail(sent: string, replies: seq<Response>, n: nat)
    requires n > 0 && PositiveReplies(replies, n) && RunsOutBehind(sent, replies)
    ensures var r := replies[0];
            var rest := sent[|Render(r)|..];
            WellFormed(r) && r.IsPositive() && sent == Render(r) + rest && RunsOut(rest, n - 1)
  {
    hide ParseResponse, Render, Response.IsPositive;
    var r, more := replies[0], replies[1..];
    var rest := sent[|Render(r)|..];
    assert RenderAll(replies) == Render(r) + RenderAll(more);
    assert sent == RenderAll(replies) + sent[|RenderAll(replies)|..];
    assert rest[|RenderAll(more)|..] == sent[|RenderAll(replies)|..];
    assert PositiveReplies(more, n - 1) && RunsOutBehind(rest, more);
  }

  /** The first parse decides, and behind a positive reply the same question is asked again. */
  lemma RunsOutStep(sent: string, n: nat)
    ensures RunsOut(sent, n)
       <==> match ParseResponse(sent)
            case Incomplete => n == 0
            case Ok(rest, r) => n > 0 && r.IsPositive() && RunsOut(rest, n - 1)
            case Error => false
            case Failure => false
  {
    hide ParseResponse, Render, Response.IsPositive, RunsOutBehind;
    if replies: seq<Response> :| PositiveReplies(replies, n) && RunsOutBehind(sent, replies) {
      if n == 0 {
        NothingBefore(sent, replies);
      } else {
        RunsOutTail(sent, replies, n);
        ParseOfRender(replies[0], sent[|Render(replies[0])|..]);
      }
    }
    if ParseResponse(sent).Incomplete? && n == 0 {
      NothingBefore(sent, []);
      assert PositiveReplies([], 0);
    }
    if ParseResponse(sent).Ok? && n > 0 {
      var Ok(rest, r) := ParseResponse(sent);
      RenderOfParse(sent);
      if r.IsPositive() && RunsOut(rest, n - 1) {
        var replies: seq<Response> :| PositiveReplies(replies, n - 1) && RunsOutBehind(rest, replies);
        RunsOutCons(r, replies, rest, n - 1);
      }
    }
  }

  lemma NothingBefore(sent: string, replies: seq<Response>)
    requires replies == []
    ensures AllWellFormed(replies) && (RunsOutBehind(sent, replies) <==> ParseResponse(sent).Incomplete?)
  {
    hide ParseResponse;
    assert sent[0..] == sent;
  }

  ghost predicate StarvesAt(c: Conn, commands: seq<string>, k: nat)
    requires c.Valid() && k < |commands|
  {
    RunsOut(c.Write(Flatten(commands[..k + 1])).Unread(), k)
  }

  /** Waiting for the reply to some command, all before it having been answered positively, when nothing but this and
      the commands before it have been sent. */
  ghost predicate LockStepStarves(c: Conn, commands: seq<string>)
    requires c.Valid()
  {
    exists k: nat :: k < |commands| && StarvesAt(c, commands, k)
  }

  /** The same when all commands have been sent. */
  ghost predicate PipelinedStarves(c: Conn, commands: seq<string>)
    requires c.Valid()
  {
    exists k: nat :: k < |commands| && RunsOut(c.Write(Flatten(commands)).Unread(), k)
  }

  lemma {:induction false} ReadRepliesStarve(c: Conn, n: nat)
    requires c.Valid()
    ensures ReadReplies(c, n).1 == Failure(INCOMPLETE) <==> exists k: nat :: k < n && RunsOut(c.Unread(), k)
    decreases n
  {
    hide ConsumedToVerdict, ReadReply, Conn.Valid, AfterRead, RunsOut, ParseResponse;
    if n == 0 {
    } else {
      ReadIsOneParse(c);
      forall k: nat
        ensures RunsOut(c.Unread(), k)
           <==> match ParseResponse(c.Unread())
                case Incomplete => k == 0
                case Ok(rest, r) => k > 0 && r.IsPositive() && RunsOut(rest, k - 1)
                case Error => false
                case Failure => false
      {
        RunsOutStep(c.Unread(), k);
      }
      assert ParseResponse(c.Unread()).Incomplete? ==> RunsOut(c.Unread(), 0);
      if ParseResponse(c.Unread()).Ok? && ParseResponse(c.Unread()).value.IsPositive() {
        var d := AfterRead(c).0;
        ReadRepliesStarve(d, n - 1);
        if k: nat :| k < n - 1 && RunsOut(d.Unread(), k) {
          assert RunsOut(c.Unread(), k + 1);
        }
        if k: nat :| k < n && RunsOut(c.Unread(), k) {
          assert RunsOut(d.Unread(), k - 1);
        }
      }
    }
  }

  lemma StarvesFirst(c: Conn, first: string, rest: seq<string>)
    requires c.Valid()
    ensures StarvesAt(c, [first] + rest, 0) <==> ParseResponse(c.Write(first).Unread()).Incomplete?
  {
    hide Causal, ParseResponse, RunsOut;
    assert ([first] + rest)[..1] == [first] && Flatten([first]) == first + "" == first;
    RunsOutStep(c.Write(first).Unread(), 0);
  }

  /** Once the first command has its verdict, starving on a later one is starving on the rest. */
  lemma StarvesLater(c: Conn, first: string, rest: seq<string>, k: nat)
    requires c.Valid() && 0 < k <= |rest| && !ParseResponse(c.Write(first).Unread()).Incomplete?
    ensures StarvesAt(c, [first] + rest, k)
       <==> var (d, r) := AfterCommand(c, first); r.Success? && StarvesAt(d, rest, k - 1)
  {
    hide ConsumedToVerdict, ReadReply, Causal, Conn.Valid, ParseResponse, RunsOut, AfterRead, Render, Flatten;
    var w, text := c.Write(first), Flatten(rest[..k]);
    FlattenFront(first, rest, k);
    WriteTwice(c, first, text);
    var sent := w.Write(text).Unread();
    assert sent == w.Unread() + sent[|w.Unread()|..];
    ResponseStable(w.Unread(), sent[|w.Unread()|..]);
    ReadIsOneParse(w);
    RunsOutStep(sent, k);
    if ParseResponse(w.Unread()).Ok? {
      var d := AfterRead(w).0;
      RenderOfParse(w.Unread());
      var r := ParseResponse(w.Unread()).value;
      DropRead(w, d, text, Render(r));
      ParseOfRender(r, d.Write(text).Unread());
    }
  }

  lemma FlattenFront(first: string, rest: seq<string>, k: nat)
    requires k <= |rest|
    ensures Flatten(([first] + rest)[..k + 1]) == first + Flatten(rest[..k])
  {
    assert ([first] + rest)[..k + 1] == [first] + rest[..k];
    assert ([first] + rest[..k])[1..] == rest[..k];
  }

  /** Lock-step is left without a reply exactly if the server's output runs out on one of its commands. */
  lemma {:induction false} LockStepStarvesIff(c: Conn, commands: seq<string>)
    requires c.Valid()
    ensures LockStep(c, commands).1 == Failure(INCOMPLETE) <==> LockStepStarves(c, commands)
    decreases |commands|
  {
    hide ConsumedToVerdict, ReadReply, Conn.Valid, AfterRead, RunsOut, ParseResponse, StarvesAt;
    if commands == [] {
    } else {
      var first, rest := commands[0], commands[1..];
      assert commands == [first] + rest;
      var w := c.Write(first);
      LockStepNext(c, first, rest);
      ReadIsOneParse(w);
      StarvesFirst(c, first, rest);
      hide LockStep;
      if ParseResponse(w.Unread()).Incomplete? {
        assert StarvesAt(c, commands, 0);
      } else {
        var (d, r) := AfterCommand(c, first);
        forall k: nat | 0 < k <= |rest|
          ensures StarvesAt(c, commands, k) <==> r.Success? && StarvesAt(d, rest, k - 1)
        {
          StarvesLater(c, first, rest, k);
        }
        if r.Success? {
          LockStepStarvesIff(d, rest);
          if k: nat :| k < |rest| && StarvesAt(d, rest, k) {
            assert StarvesAt(c, commands, k + 1);
          }
        }
      }
    }
  }

  /** Pipelining is left without a reply exactly if the server's output on all commands runs out. */
  lemma PipelinedStarvesIff(c: Conn, commands: seq<string>)
    requires c.Valid()
    ensures Pipelined(c, commands).1 == Failure(INCOMPLETE) <==> PipelinedStarves(c, commands)
  {
    hide Conn.Valid, ReadReplies, RunsOut;
    ReadRepliesStarve(c.Write(Flatten(commands)), |commands|);
  }

  /** Against every server the two modes give the same result if and only if pipelining starves wherever lock-step does. */
  lemma ModesAgree(c: Conn, commands: seq<string>)
    requires c.Valid()
    ensures LockStep(c, commands).1 == Pipelined(c, commands).1
       <==> (LockStepStarves(c, commands) ==> PipelinedStarves(c, commands))
  {
    hide Conn.Valid, LockStep, Pipelined, LockStepStarves, PipelinedStarves;
    PipelinedRefinesLockStep(c, commands);
    LockStepStarvesIff(c, commands);
    PipelinedStarvesIff(c, commands);
  }

  // ---------- whole transactions ----------

  /** The server's output runs out on a command, or on the body when all commands have been answered positively. */
  ghost predicate PipelinedSendStarves(c: Conn, commands: seq<string>, message: string)
    requires c.Valid()
  {
    || PipelinedStarves(c, commands)
    || RunsOut(c.Write(Flatten(commands) + MessageBytes(message)).Unread(), |commands|)
  }

  /** Reading `n` replies and then, after writing, one more is left without a reply exactly if the output runs out on
      the last one, unless one of the `n` was bad or missing. */
  lemma {:induction false} ReadRepliesThenOne(c: Conn, n: nat, text: string)
    requires c.Valid() && ReadReplies(c, n).1 != Failure(INCOMPLETE)
    ensures RunsOut(c.Write(text).Unread(), n)
       <==> var (d, r) := ReadReplies(c, n); r.Success? && AfterRead(d.Write(text)).1 == Failure(INCOMPLETE)
    decreases n
  {
    hide ConsumedToVerdict, ReadReply, Conn.Valid, AfterRead, RunsOut, ParseResponse, Render;
    var w := c.Write(text);
    RunsOutStep(w.Unread(), n);
    if n == 0 {
      assert ReadReplies(c, n).0.Write(text) == w;
      ReadIsOneParse(w);
    } else {
      var d := AfterRead(c).0;
      ReadIsOneParse(c);
      assert w.Unread() == c.Unread() + w.Unread()[|c.Unread()|..];
      ResponseStable(c.Unread(), w.Unread()[|c.Unread()|..]);
      if ParseResponse(c.Unread()).Ok? {
        RenderOfParse(c.Unread());
        var r := ParseResponse(c.Unread()).value;
        DropRead(c, d, text, Render(r));
        ParseOfRender(r, d.Write(text).Unread());
        if r.IsPositive() {
          assert ReadReplies(c, n) == ReadReplies(d, n - 1);
          ReadRepliesThenOne(d, n - 1, text);
        }
      }
    }
  }

  lemma PipelinedSendStarvesIff(c: Conn, commands: seq<string>, message: string)
    requires c.Valid()
    ensures AfterSend(c, true, commands, message).1 == Failure(INCOMPLETE) <==> PipelinedSendStarves(c, commands, message)
  {
    hide Conn.Valid, ReadReplies, RunsOut, AfterRead, MessageBytes, PipelinedStarves, Flatten;
    PipelinedStarvesIff(c, commands);
    if Pipelined(c, commands).1 != Failure(INCOMPLETE) {
      WriteTwice(c, Flatten(commands), MessageBytes(message));
      ReadRepliesThenOne(c.Write(Flatten(commands)), |commands|, MessageBytes(message));
    }
  }

  /** Against every server the two modes of `send` give the same result if and only if pipelining starves wherever
      lock-step starves on a command; when lock-step gets through the commands everything is the same, and lock-step
      never writes anything but a beginning of what pipelining writes. */
  lemma SendModesAgree(c: Conn, commands: seq<string>, message: string)
    requires c.Valid()
    ensures AfterSend(c, true, commands, message).1 == AfterSend(c, false, commands, message).1
       <==> (LockStepStarves(c, commands) ==> PipelinedSendStarves(c, commands, message))
    ensures LockStep(c, commands).1.Success? ==>
              AfterSend(c, true, commands, message) == AfterSend(c, false, commands, message)
    ensures AfterSend(c, false, commands, message).0.written <= AfterSend(c, true, commands, message).0.written
  {
    hide LockStep, Pipelined, AfterMessage, Conn.Valid, LockStepStarves, PipelinedSendStarves, MessageBytes;
    PipelinedRefinesLockStep(c, commands);
    LockStepStarvesIff(c, commands);
    PipelinedSendStarvesIff(c, commands, message);
    var k :| 0 <= k <= |commands| && LockStep(c, commands).0.written == c.written + Flatten(commands[..k]);
    assert commands == commands[..k] + commands[k..];
    FlattenAppend(commands[..k], commands[k..]);
  }

  // ---------- servers that answer every command ----------

  /** The server answers each command, when it has received it and those before it, with the corresponding reply. */
  ghost predicate Answers(c: Conn, commands: seq<string>, replies: seq<Response>) {
    && c.Valid() && c.Unread() == ""
    && |replies| == |commands| && AllWellFormed(replies)
    && forall k :: 0 <= k <= |commands| ==>
         c.server(c.written + Flatten(commands[..k])) == c.server(c.written) + RenderAll(replies[..k])
  }

  /** Position of the first reply that is not positive, or their number. */
  function FirstNegative(replies: seq<Response>): (i: nat)
    ensures i <= |replies|
    ensures forall k :: 0 <= k < i ==> replies[k].IsPositive()
    ensures i < |replies| ==> !replies[i].IsPositive()
  {
    if replies == [] || !replies[0].IsPositive() then 0 else 1 + FirstNegative(replies[1..])
  }

  lemma AfterReadOf(c: Conn, r: Response, rest: string)
    requires c.Valid() && WellFormed(r) && c.Unread() == Render(r) + rest
    ensures AfterRead(c).1 == Verdict(r) && AfterRead(c).0.Unread() == rest
  {
    hide ReadReply, WellFormed;
    ReadRendered(r, rest);
  }

  lemma FirstNegativeCons(r: Response, replies: seq<Response>)
    ensures var i := FirstNegative(replies);
            if !r.IsPositive() then FirstNegative([r] + replies) == 0
            else
              && FirstNegative([r] + replies) == i + 1
              && (i < |replies| ==> ([r] + replies)[i + 1] == replies[i] && ([r] + replies)[i + 2..] == replies[i + 1..])
  {
    assert ([r] + replies)[1..] == replies;
  }

  /** The first negative reply is the result and those behind it stay unread, or all are read. */
  ghost predicate ReadOutcome(replies: seq<Response>, rest: string, result: Result<()>, unread: string)
    requires AllWellFormed(replies)
  {
    var i := FirstNegative(replies);
    if i == |replies| then result == Success(()) && unread == rest
    else result == Failure(FromResponse(replies[i])) && unread == RenderAll(replies[i + 1..]) + rest
  }

  lemma ReadOutcomeCons(r: Response, more: seq<Response>, rest: string, result: Result<()>, unread: string)
    requires WellFormed(r) && AllWellFormed(more)
    requires if r.IsPositive() then ReadOutcome(more, rest, result, unread)
             else result == Failure(FromResponse(r)) && unread == RenderAll(more) + rest
    ensures AllWellFormed([r] + more) && ReadOutcome([r] + more, rest, result, unread)
  {
    FirstNegativeCons(r, more);
    hide Render, RenderAll, FirstNegative, WellFormed;
    assert ([r] + more)[0] == r && ([r] + more)[1..] == more;
  }

  /** Reading as many replies as there are. */
  lemma {:induction false} ReadRepliesOf(c: Conn, replies: seq<Response>, rest: string)
    requires c.Valid() && AllWellFormed(replies) && c.Unread() == RenderAll(replies) + rest
    ensures ReadOutcome(replies, rest, ReadReplies(c, |replies|).1, ReadReplies(c, |replies|).0.Unread())
    decreases |replies|
  {
    hide AfterRead, Conn.Valid, Render;
    if replies == [] {
      assert "" + rest == rest;
    } else {
      var r, more := replies[0], replies[1..];
      var tail := RenderAll(more) + rest;
      assert replies == [r] + more;
      assert RenderAll(replies) + rest == Render(r) + tail;
      hide ReadOutcome;
      AfterReadOf(c, r, tail);
      if r.IsPositive() {
        ReadRepliesOf(AfterRead(c).0, more, rest);
      }
      var (d, result) := ReadReplies(c, |replies|);
      ReadOutcomeCons(r, more, rest, result, d.Unread());
    }
  }

  lemma SilenceStarves(c: Conn, first: string, rest: seq<string>)
    requires c.Valid() && c.Write(first).Unread() == ""
    ensures LockStep(c, [first] + rest).1 == Failure(INCOMPLETE)
  {
    LockStepNext(c, first, rest);
    hide LockStep, Causal;
  }

  lemma AllPositive(c: Conn, commands: seq<string>, replies: seq<Response>)
    requires c.Valid() && |replies| == |commands| && AllWellFormed(replies)
    requires c.Write(Flatten(commands)).Unread() == RenderAll(replies)
    requires FirstNegative(replies) == |replies|
    ensures Pipelined(c, commands).1.Success?
  {
    hide Causal, ReadReplies, Render, RenderAll, Flatten;
    assert RenderAll(replies) + "" == RenderAll(replies);
    ReadRepliesOf(c.Write(Flatten(commands)), replies, "");
  }

  /** A server that says nothing until it has received `n` bytes. */
  ghost function SilentUntil(n: nat, text: string): string -> string {
    (received: string) => if |received| < n then "" else text
  }

  lemma SilentUntilIsCausal(n: nat, text: string)
    ensures Causal(SilentUntil(n, text))
  {
  }

  /** The modes do not always agree: a server that says nothing until it has both of two
      commands starves lock-step only. */
  lemma StarvingServer(a: string, b: string, ok: Response) returns (c: Conn)
    requires b != "" && WellFormed(ok) && ok.IsPositive()
    ensures c.Valid()
    ensures LockStep(c, [a] + [b]).1 == Failure(INCOMPLETE) && Pipelined(c, [a] + [b]).1.Success?
  {
    var replies := [ok, ok];
    TwoOks(ok);
    var text := RenderAll(replies);
    assert Flatten([a] + [b]) == a + b by {
      assert ([a] + [b])[1..] == [b] && Flatten([b]) == b + "" == b;
    }
    hide RenderAll, LockStep, Pipelined, Flatten, FirstNegative, Causal, WellFormed;
    SilentUntilIsCausal(|a| + |b|, text);
    c := Conn(SilentUntil(|a| + |b|, text), "", 0);
    assert c.Write(a).Unread() == "" && c.Write(a + b).Unread() == text by {
      assert "" + a == a && "" + (a + b) == a + b;
    }
    hide SilentUntil, Conn.Valid;
    SilenceStarves(c, a, [b]);
    AllPositive(c, [a] + [b], replies);
  }

  lemma TwoOks(ok: Response)
    requires WellFormed(ok) && ok.IsPositive()
    ensures AllWellFormed([ok, ok]) && FirstNegative([ok, ok]) == 2
  {
    assert [ok, ok][1..] == [ok];
  }

  /** Pipelining against a server that answers: a failure on reply `i` leaves exactly the replies behind it. */
  lemma PipelinedAccounting(c: Conn, commands: seq<string>, replies: seq<Response>)
    requires Answers(c, commands, replies)
    ensures Pipelined(c, commands).0.written == c.written + Flatten(commands)
    ensures ReadOutcome(replies, "", Pipelined(c, commands).1, Pipelined(c, commands).0.Unread())
  {
    hide Causal, ReadReplies, Render, ReadOutcome;
    var n := |commands|;
    assert commands[..n] == commands && replies[..n] == replies;
    var e := c.Write(Flatten(commands));
    assert e.Unread() == RenderAll(replies) + "";
    ReadRepliesOf(e, replies, "");
  }

  /** One command answered leaves a server that answers the others. */
  lemma AnswersNext(c: Conn, commands: seq<string>, replies: seq<Response>)
    requires Answers(c, commands, replies) && commands != []
    ensures var (d, r) := AfterCommand(c, commands[0]);
            r == Verdict(replies[0]) && Answers(d, commands[1..], replies[1..])
  {
    hide Causal, Render, ReadReply;
    var w := c.Write(commands[0]);
    assert commands[..1] == [commands[0]] && replies[..1] == [replies[0]];
    assert Flatten([commands[0]]) == commands[0] + "" == commands[0];
    assert RenderAll([replies[0]]) == Render(replies[0]) + "" == Render(replies[0]);
    assert w.Unread() == Render(replies[0]) + "";
    AfterReadOf(w, replies[0], "");
    var d := AfterRead(w).0;
    forall k | 0 <= k <= |commands[1..]|
      ensures d.server(d.written + Flatten(commands[1..][..k])) == d.server(d.written) + RenderAll(replies[1..][..k])
    {
      assert commands[..k + 1] == [commands[0]] + commands[1..][..k];
      assert replies[..k + 1] == [replies[0]] + replies[1..][..k];
      assert c.written + Flatten(commands[..k + 1]) == d.written + Flatten(commands[1..][..k]);
      assert c.server(c.written) + RenderAll(replies[..k + 1])
          == c.server(c.written) + Render(replies[0]) + RenderAll(replies[1..][..k]);
    }
  }

  /** The phase ends with the first negative reply, the commands up to that one sent, or with all commands sent. */
  ghost predicate LockStepOutcome(commands: seq<string>, replies: seq<Response>, result: Result<()>, written: string)
    requires |commands| == |replies|
  {
    var i := FirstNegative(replies);
    if i == |replies| then result == Success(()) && written == Flatten(commands)
    else result == Failure(FromResponse(replies[i])) && written == Flatten(commands[..i + 1])
  }

  lemma LockStepOutcomeCons(first: string, commands: seq<string>, r: Response, more: seq<Response>,
                            result: Result<()>, written: string)
    requires |commands| == |more|
    requires if r.IsPositive() then LockStepOutcome(commands, more, result, written)
             else result == Failure(FromResponse(r)) && written == ""
    ensures LockStepOutcome([first] + commands, [r] + more, result, first + written)
  {
    FirstNegativeCons(r, more);
    var all, i := [first] + commands, FirstNegative(more);
    assert all[1..] == commands && ([r] + more)[0] == r;
    assert all[..1] == [first] && Flatten([first]) == first + "";
    if i < |more| {
      assert all[..i + 2] == [first] + commands[..i + 1];
    }
  }

  /** Lock-step against a server that answers: it stops at the first negative reply, with every command sent answered. */
  lemma {:induction false} LockStepAccounting(c: Conn, commands: seq<string>, replies: seq<Response>)
    returns (written: string)
    requires Answers(c, commands, replies)
    ensures LockStep(c, commands).0.Unread() == "" && LockStep(c, commands).0.written == c.written + written
    ensures LockStepOutcome(commands, replies, LockStep(c, commands).1, written)
    decreases |commands|
  {
    if commands == [] {
      LockStepNone(c, replies);
      written := "";
    } else {
      hide Conn.Valid, LockStepOutcome, LockStep;
      assert commands == [commands[0]] + commands[1..] && replies == [replies[0]] + replies[1..];
      AnswersNext(c, commands, replies);
      hide Answers, AfterCommand;
      var d := AfterCommand(c, commands[0]).0;
      if replies[0].IsPositive() {
        written := LockStepAccounting(d, commands[1..], replies[1..]);
      } else {
        written := "";
      }
      LockStepExtend(c, commands[0], commands[1..], replies[0], replies[1..], written);
      written := commands[0] + written;
    }
  }

  /** What one command and its reply add to the rest of the phase. */
  lemma LockStepExtend(c: Conn, first: string, rest: seq<string>, r: Response, more: seq<Response>, written: string)
    requires c.Valid() && AfterCommand(c, first).1 == Verdict(r) && |rest| == |more|
    requires var d := AfterCommand(c, first).0;
             if r.IsPositive() then
               && LockStep(d, rest).0.Unread() == "" && LockStep(d, rest).0.written == d.written + written
               && LockStepOutcome(rest, more, LockStep(d, rest).1, written)
             else d.Unread() == "" && written == ""
    ensures var (e, result) := LockStep(c, [first] + rest);
            && e.Unread() == "" && e.written == c.written + (first + written)
            && LockStepOutcome([first] + rest, [r] + more, result, first + written)
  {
    hide AfterCommand, Conn.Valid, LockStepOutcome;
    LockStepNext(c, first, rest);
    hide LockStep;
    LockStepOutcomeCons(first, rest, r, more, LockStep(c, [first] + rest).1, written);
    assert c.written + first + written == c.written + (first + written);
    assert first + "" == first;
  }

  lemma LockStepNone(c: Conn, replies: seq<Response>)
    requires c.Valid() && replies == []
    ensures LockStep(c, []) == (c, Success(())) && LockStepOutcome([], replies, Success(()), "")
    ensures c.written == c.written + ""
  {
  }

  // ---------- the body waits for the replies ----------

  /** Reads that all succeed have read that many positive replies off the wire. */
  lemma {:induction false} RepliesRead(c: Conn, n: nat) returns (replies: seq<Response>)
    requires c.Valid() && ReadReplies(c, n).1.Success?
    ensures |replies| == n && AllWellFormed(replies) && forall k :: 0 <= k < n ==> replies[k].IsPositive()
    ensures c.Unread() == RenderAll(replies) + ReadReplies(c, n).0.Unread()
    decreases n
  {
    hide ConsumedToVerdict, ReadReply, Conn.Valid, Render, ParseResponse;
    if n == 0 {
      replies := [];
      assert c.Unread() == "" + c.Unread();
    } else {
      var d := AfterRead(c).0;
      var more := RepliesRead(d, n - 1);
      ReaderIsOneParse(c.Unread());
      RenderOfParse(c.Unread());
      replies := [ParseResponse(c.Unread()).value] + more;
    }
  }

  /** Against every server and in both modes, the bytes written are whole commands in order, and the body follows them
      only after the server, having received nothing but the commands, has sent a positive reply to each. */
  lemma BodyWaitsForReplies(c: Conn, pipelining: bool, commands: seq<string>, message: string)
    requires c.Valid()
    ensures var d := AfterSend(c, pipelining, commands, message).0;
            || (exists k :: 0 <= k <= |commands| && d.written == c.written + Flatten(commands[..k]))
            || (d.written == c.written + Flatten(commands) + MessageBytes(message)
                && exists replies: seq<Response> :: PositiveReplies(replies, |commands|)
                     && RenderAll(replies) <= c.Write(Flatten(commands)).Unread())
  {
    hide Conn.Valid, LockStep, ReadReplies, AfterMessage, MessageBytes;
    PipelinedRefinesLockStep(c, commands);
    assert commands[..|commands|] == commands;
    var (e, s) := Pipelined(c, commands);
    var (d, r) := LockStep(c, commands);
    if s.Success? && (pipelining || r.Success?) {
      var replies := RepliesRead(c.Write(Flatten(commands)), |commands|);
      assert PositiveReplies(replies, |commands|);
    }
  }

  lemma AllCommandsWritten(c: Conn, commands: seq<string>)
    requires c.Valid() && LockStep(c, commands).1.Success?
    ensures LockStep(c, commands).0.written == c.written + Flatten(commands)
  {
    hide Conn.Valid, LockStep, ReadReplies;
    PipelinedRefinesLockStep(c, commands);
  }

  /** A transaction that succeeds has written all commands and the body. */
  lemma SentBytes(c: Conn, pipelining: bool, commands: seq<string>, message: string)
    requires c.Valid() && AfterSend(c, pipelining, commands, message).1.Success?
    ensures AfterSend(c, pipelining, commands, message).0.written
         == c.written + (Flatten(commands) + MessageBytes(message))
  {
    hide Conn.Valid, LockStep, Pipelined, AfterMessage, MessageBytes;
    if !pipelining {
      AllCommandsWritten(c, commands);
    }
    assert c.written + Flatten(commands) + MessageBytes(message)
        == c.written + (Flatten(commands) + MessageBytes(message));
  }
}
