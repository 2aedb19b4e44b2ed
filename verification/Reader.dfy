/** Reading replies from the inbound bytes: the line-by-line loop of the client, and the proof that it
    decides as one parse of everything available would, without touching what follows the reply. */
module Reader {
  import opened Response
  import opened ReplyGrammar
  import opened Errors
  import opened Connection

  const INCOMPLETE: Error := Io("incomplete")

  /** The reading loop with `buffer` read so far: its result and the bytes left unread. */
  function ReadLoop(buffer: string, pending: string): (SmtpResult, string)
    decreases |pending|
  {
    if pending == "" then (Failure(INCOMPLETE), "")
    else
      var line := NextLine(pending);
      var rest := pending[|line|..];
      match ParseResponse(buffer + line)
      case Ok(_, r) => (Verdict(r), rest)
      case Incomplete => ReadLoop(buffer + line, rest)
      case Error => (Failure(Parsing), rest)
      case Failure => (Failure(Parsing), rest)
  }

  function ReadReply(pending: string): (SmtpResult, string) {
    ReadLoop("", pending)
  }

  predicate EndsWith(s: string, rest: string) {
    |rest| <= |s| && rest == s[|s| - |rest|..]
  }

  lemma EndsWithTail(s: string, n: nat, rest: string)
    requires n <= |s|
    ensures EndsWith(s, s[n..]) && (EndsWith(s[n..], rest) ==> EndsWith(s, rest))
  {
  }

  lemma {:induction false} ReadLoopLeavesSuffix(buffer: string, pending: string)
    ensures EndsWith(pending, ReadLoop(buffer, pending).1)
    decreases |pending|
  {
    hide ParseResponse, NextLine, EndsWith;
    if pending == "" {
      EndsWithTail(pending, 0, "");
    } else {
      var line := NextLine(pending);
      var rest := pending[|line|..];
      EndsWithTail(pending, |line|, ReadLoop(buffer + line, rest).1);
      if ParseResponse(buffer + line).Incomplete? {
        ReadLoopLeavesSuffix(buffer + line, rest);
      }
    }
  }

  predicate WholeLines(s: string) {
    s == "" || s[|s| - 1] == '\n'
  }

  /** What is in front of `rest` are the lines of `s` up to the first one with a verdict; there is no verdict on fewer
      lines, and only the last line of `s` may be without its newline. */
  ghost predicate ConsumedToVerdict(s: string, rest: string) {
    && EndsWith(s, rest)
    && var consumed := s[..|s| - |rest|];
       && !ParseResponse(consumed).Incomplete?
       && (WholeLines(consumed) || rest == "")
       && forall q :: q <= consumed && |q| < |consumed| && WholeLines(q) ==> ParseResponse(q).Incomplete?
  }

  /** What one parse of all available bytes makes of them, and what it leaves. */
  ghost predicate DecidesAsOneParse(s: string, result: SmtpResult, rest: string) {
    match ParseResponse(s)
    case Ok(after, r) => result == Verdict(r) && rest == after
    case Incomplete => result == Failure(INCOMPLETE) && rest == ""
    case Error => result == Failure(Parsing) && ConsumedToVerdict(s, rest)
    case Failure => result == Failure(Parsing) && ConsumedToVerdict(s, rest)
  }

  /** No line ends inside the line that is read next. */
  lemma NoLineEndsInside(buffer: string, line: string, q: string)
    requires forall k :: 0 <= k < |line| - 1 ==> line[k] != '\n'
    requires WholeLines(q) && q <= buffer + line && |q| < |buffer + line|
    ensures |q| <= |buffer|
  {
    forall j | |buffer| <= j < |buffer + line| - 1
      ensures (buffer + line)[j] != '\n'
    {
      assert (buffer + line)[j] == line[j - |buffer|];
    }
    assert q == (buffer + line)[..|q|];
  }

  lemma LineEnd(buffer: string, pending: string)
    requires pending != ""
    ensures WholeLines(buffer + NextLine(pending)) || pending[|NextLine(pending)|..] == ""
  {
  }

  /** One line more brings the first verdict. */
  lemma FirstVerdict(buffer: string, pending: string)
    requires ParseResponse(buffer).Incomplete? && WholeLines(buffer) && pending != ""
    requires !ParseResponse(buffer + NextLine(pending)).Incomplete?
    ensures ConsumedToVerdict(buffer + pending, pending[|NextLine(pending)|..])
  {
    hide ParseResponse, WholeLines;
    var line := NextLine(pending);
    LineEnd(buffer, pending);
    var rest, consumed := pending[|line|..], buffer + line;
    assert buffer + pending == consumed + rest;
    forall q | q <= consumed && |q| < |consumed| && WholeLines(q)
      ensures ParseResponse(q).Incomplete?
    {
      NoLineEndsInside(buffer, line, q);
      assert buffer == q + buffer[|q|..];
      ResponseStable(q, buffer[|q|..]);
    }
  }

  /** A line read inside a reply does not reach beyond it. */
  lemma LineWithinReply(buffer: string, pending: string, r: Response, after: string)
    requires WellFormed(r) && buffer + pending == Render(r) + after
    requires ParseResponse(buffer).Incomplete? && pending != ""
    ensures |buffer + NextLine(pending)| <= |Render(r)|
  {
    hide ParseResponse;
    var s := buffer + pending;
    if |Render(r)| <= |buffer| {
      assert buffer == s[..|buffer|] == Render(r) + buffer[|Render(r)|..];
      ParseOfRender(r, buffer[|Render(r)|..]);
      assert false;
    }
    RenderEndsLine(r.code, r.message);
    var last := |Render(r)| - 1;
    assert s[last] == '\n' && pending[last - |buffer|] == '\n';
  }

  lemma EmptyIsIncomplete()
    ensures ParseResponse("").Incomplete?
  {
    ParseSeverityIs("");
  }

  lemma {:induction false} ReadLoopIsOneParse(buffer: string, pending: string)
    requires ParseResponse(buffer).Incomplete? && (WholeLines(buffer) || pending == "")
    ensures DecidesAsOneParse(buffer + pending, ReadLoop(buffer, pending).0, ReadLoop(buffer, pending).1)
    decreases |pending|
  {
    hide ParseResponse, Render, WellFormed, ConsumedToVerdict;
    var s := buffer + pending;
    if pending == "" {
      assert s == buffer;
    } else {
      var line := NextLine(pending);
      var buffer', rest := buffer + line, pending[|line|..];
      assert s == buffer' + rest;
      ResponseStable(buffer', rest);
      if ParseResponse(s).Ok? {
        RenderOfParse(s);
        var Ok(after, r) := ParseResponse(s);
        LineWithinReply(buffer, pending, r, after);
        if ParseResponse(buffer').Ok? {
          RenderOfParse(buffer');
          assert ParseResponse(buffer').value == r;
          assert rest == after;
        }
      }
      if ParseResponse(buffer').Incomplete? {
        ReadLoopIsOneParse(buffer', rest);
      } else {
        FirstVerdict(buffer, pending);
      }
    }
  }

  /** The line-by-line reader gives the verdict of a single parse of everything available. A reply is consumed exactly:
      what the parser leaves over and the reader drops is always empty. On an error the lines up to the first one
      with a verdict are consumed. */
  lemma ReaderIsOneParse(pending: string)
    ensures DecidesAsOneParse(pending, ReadReply(pending).0, ReadReply(pending).1)
  {
    hide ParseResponse, ConsumedToVerdict;
    EmptyIsIncomplete();
    ReadLoopIsOneParse("", pending);
    assert "" + pending == pending;
  }

  // ---------- several replies in a row ----------

  function RenderAll(replies: seq<Response>): string
    requires forall k :: 0 <= k < |replies| ==> |replies[k].message| > 0
  {
    if replies == [] then "" else Render(replies[0]) + RenderAll(replies[1..])
  }

  ghost predicate AllWellFormed(replies: seq<Response>) {
    forall k :: 0 <= k < |replies| ==> WellFormed(replies[k])
  }

  function Verdicts(replies: seq<Response>): seq<SmtpResult> {
    if replies == [] then [] else [Verdict(replies[0])] + Verdicts(replies[1..])
  }

  /** `n` reads in a row, whatever each of them gives. */
  function ReadMany(n: nat, pending: string): (seq<SmtpResult>, string) {
    if n == 0 then ([], pending)
    else
      var (result, rest) := ReadReply(pending);
      var (results, last) := ReadMany(n - 1, rest);
      ([result] + results, last)
  }

  lemma ReadRendered(r: Response, rest: string)
    requires WellFormed(r)
    ensures ReadReply(Render(r) + rest) == (Verdict(r), rest)
  {
    hide ParseResponse, ReadReply;
    ReaderIsOneParse(Render(r) + rest);
    ParseOfRender(r, rest);
  }

  /** The first byte on the wire decides how the caller sees a reply: 2 and 3 as success, 4 as a transient and
      5 as a permanent error, and there is no other. */
  lemma ReplyClass(r: Response, rest: string)
    requires WellFormed(r)
    ensures var (result, first) := (ReadReply(Render(r) + rest).0, Render(r)[0]);
            || ((first == '2' || first == '3') && result == Success(r))
            || (first == '4' && result == Failure(Transient(r)))
            || (first == '5' && result == Failure(Permanent(r)))
  {
    ReadRendered(r, rest);
    hide ReadReply;
    assert Render(r)[0] == r.code.ToString()[0];
  }

  /** Replies written back to back are read back one by one, and exactly what follows them is left. */
  lemma {:induction false} ReplySequence(replies: seq<Response>, rest: string)
    requires AllWellFormed(replies)
    ensures ReadMany(|replies|, RenderAll(replies) + rest) == (Verdicts(replies), rest)
  {
    hide ReadReply;
    if replies == [] {
      assert "" + rest == rest;
    } else {
      var tail := RenderAll(replies[1..]) + rest;
      assert RenderAll(replies) + rest == Render(replies[0]) + tail;
      ReadRendered(replies[0], tail);
      ReplySequence(replies[1..], rest);
    }
  }
}
