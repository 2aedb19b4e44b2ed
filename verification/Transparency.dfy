/** The receiver of section 4.5.2 of RFC 5321, written line by line, and when it gets back what the codec sent. */
module Transparency {
  import opened Text
  import opened Codec

  /** Mail data and what follows the end-of-data line: a line that is a single dot ends the data,
      any other line loses one leading dot. */
  function Receive(wire: string): Option<(string, string)>
    decreases |wire|
  {
    match FindCrlf(wire)
    case None => None
    case Some(k) =>
      var line, rest := wire[..k], wire[k + 2..];
      if line == "." then Some(("", rest))
      else
        match Receive(rest)
        case None => None
        case Some((data, after)) => Some((WithoutLeadingDot(line) + CRLF + data, after))
  }

  function WithoutLeadingDot(line: string): string {
    if line != "" && line[0] == '.' then line[1..] else line
  }

  /** Every dot at the start of a line is one the codec doubles: the data does not start with a dot,
      and each CRLF before a dot ends a run of CRs of odd length. */
  ghost predicate Safe(m: string) {
    && (m != "" ==> m[0] != '.')
    && forall k :: CrlfAt(m, k) && k + 2 < |m| && m[k + 2] == '.' ==> CrRun(m[..k + 1]) % 2 == 1
  }

  /** What the data becomes when the end-of-data mark completes its last line. */
  function Closed(m: string): string {
    match CountAfter(0, m)
    case 0 => m + CRLF
    case 1 => m + "\n"
    case _ => m
  }

  predicate EndsLine(s: string) {
    s == "" || (|s| >= 2 && s[|s| - 2..] == CRLF)
  }

  // ---------- one line ----------

  /** Text in which no dot follows a CRLF goes through unchanged. */
  lemma {:induction false} PlainText(count: EscapeCount, s: string)
    requires forall k :: CrlfAt(s, k) && k + 2 < |s| ==> s[k + 2] != '.'
    requires s != "" && s[0] == '.' ==> count != 2
    requires |s| >= 2 && s[0] == '\n' && s[1] == '.' ==> count != 1
    ensures Encoded(count, s) == s
    decreases |s|
  {
    if s == "" {
    } else {
      assert forall k :: CrlfAt(s[1..], k) ==> CrlfAt(s, k + 1) && (k + 2 < |s[1..]| ==> s[1..][k + 2] == s[k + 1 + 2]);
      assert |s| >= 3 && s[0] == '\r' && s[1] == '\n' ==> CrlfAt(s, 0);
      PlainText(NextCount(count, s[0]), s[1..]);
    }
  }

  lemma CrlfOnlyAtEnd(line: string)
    requires NoCrlf(line)
    ensures forall k :: CrlfAt(line + CRLF, k) <==> k == |line|
  {
    forall k
      ensures CrlfAt(line + CRLF, k) <==> k == |line|
    {
      assert !CrlfAt(line, k);
    }
  }

  lemma EncodedLine(count: EscapeCount, line: string)
    requires NoCrlf(line) && count != 1
    ensures Encoded(count, line + CRLF)
         == (if count == 2 && line != "" && line[0] == '.' then "." else "") + line + CRLF
  {
    var s := line + CRLF;
    CrlfOnlyAtEnd(line);
    if count == 2 && line != "" && line[0] == '.' {
      assert forall k :: CrlfAt(s[1..], k) ==> CrlfAt(s, k + 1);
      assert Encoded(count, s) == "." + [s[0]] + Encoded(0, s[1..]);
      hide Encoded;
      PlainText(0, s[1..]);
      assert s == [s[0]] + s[1..];
    } else {
      hide Encoded;
      PlainText(count, s);
    }
  }

  // ---------- all lines ----------

  predicate LineStart(m: string, p: int) {
    p == 0 || CrlfAt(m, p - 2)
  }

  /** Each dot that starts a line, from position `n` on, is doubled. */
  ghost predicate SafeFrom(m: string, n: nat) {
    forall p :: n <= p < |m| && LineStart(m, p) && m[p] == '.' ==> DoubledAt(m, p)
  }

  lemma SafeIsSafeFrom(m: string)
    ensures Safe(m) <==> SafeFrom(m, 0)
  {
    forall k | CrlfAt(m, k) && k + 2 < |m| && m[k + 2] == '.'
      ensures LineStart(m, k + 2) && (DoubledAt(m, k + 2) <==> CrRun(m[..k + 1]) % 2 == 1)
    {
      assert m[..k + 2][..k + 1] == m[..k + 1];
    }
    if Safe(m) {
      forall p | 0 <= p < |m| && LineStart(m, p) && m[p] == '.'
        ensures DoubledAt(m, p)
      {
        assert CrlfAt(m, p - 2);
      }
    } else if m == "" || m[0] != '.' {
      var k :| CrlfAt(m, k) && k + 2 < |m| && m[k + 2] == '.' && CrRun(m[..k + 1]) % 2 != 1;
      assert LineStart(m, k + 2) && !DoubledAt(m, k + 2);
    } else {
      assert LineStart(m, 0) && !DoubledAt(m, 0);
    }
  }

  lemma CountAtLineStart(u: string)
    requires EndsLine(u)
    ensures CountAfter(0, u) == if AfterOddCrLf(u) then 2 else 0
  {
    CountIsParity(u);
    assert u != "" ==> u[|u| - 1] == CRLF[1];
  }

  lemma SplitLine(m: string)
    requires m != "" && EndsLine(m)
    ensures FindCrlf(m).Some?
    ensures EndsLine(m[FindCrlf(m).value + 2..])
  {
    assert m[|m| - 2] == CRLF[0] && m[|m| - 1] == CRLF[1];
    assert CrlfAt(m, |m| - 2);
    var k := FindCrlf(m).value;
    assert !CrlfAt(m, k) || m[k + 1] == '\n';
    assert k + 2 != |m| - 1;
    if m[k + 2..] != "" {
      assert m[k + 2..][|m| - k - 4..] == m[|m| - 2..];
    }
  }

  /** Within a line only its first position starts a line. */
  lemma LineStartsOnce(u: string, line: string, rest: string, p: int)
    requires EndsLine(u) && NoCrlf(line)
    requires |u| <= p < |u| + |line| + 2
    ensures LineStart(u + (line + CRLF + rest), p) <==> p == |u|
  {
    var m := u + (line + CRLF + rest);
    CrlfOnlyAtEnd(line);
    if u != "" {
      assert u[|u| - 2..][0] == m[|u| - 2] && u[|u| - 2..][1] == m[|u| - 1];
    }
    if p - 2 >= |u| {
      assert CrlfAt(m, p - 2) ==> CrlfAt(line + CRLF, p - 2 - |u|);
    }
  }

  lemma SafeFromNextLine(u: string, line: string, rest: string)
    requires EndsLine(u) && NoCrlf(line)
    ensures var m := u + (line + CRLF + rest);
            SafeFrom(m, |u|) <==>
            (line != "" && line[0] == '.' ==> AfterOddCrLf(u)) && SafeFrom(m, |u| + |line| + 2)
  {
    hide AfterOddCrLf, EndsLine;
    var m := u + (line + CRLF + rest);
    var n := |u| + |line| + 2;
    assert m[..|u|] == u;
    forall p | |u| <= p < n
      ensures LineStart(m, p) <==> p == |u|
    {
      LineStartsOnce(u, line, rest, p);
    }
    hide LineStart;
    assert m[|u|] == (line + CRLF)[0];
    if line != "" && line[0] == '.' {
      assert DoubledAt(m, |u|) <==> AfterOddCrLf(u);
    }
  }

  lemma ReceiveStep(line: string, rest: string)
    requires NoCrlf(line)
    ensures Receive(line + CRLF + rest)
         == if line == "." then Some(("", rest))
            else
              match Receive(rest)
              case None => None
              case Some((data, after)) => Some((WithoutLeadingDot(line) + CRLF + data, after))
  {
    FindCrlfAfterLine(line, rest);
  }

  predicate DotFirst(line: string) {
    line != "" && line[0] == '.'
  }

  /** One round of the receiver on a line sent with its leading dot, should it have one, doubled. */
  lemma ReceiveKept(sent: string, line: string, wire: string, data: string, after: string)
    requires NoCrlf(sent) && sent != "." && WithoutLeadingDot(sent) == line
    requires Receive(wire) == Some((data, after))
    ensures Receive(sent + CRLF + wire) == Some((line + CRLF + data, after))
  {
    hide Receive, NoCrlf;
    ReceiveStep(sent, wire);
  }

  /** One round on a line whose leading dot was not doubled: it ends the data or loses the dot. */
  lemma ReceiveLost(line: string, wire: string, data: string, after: string)
    requires NoCrlf(line) && DotFirst(line)
    requires Receive(wire) == Some((data, after))
    ensures Receive(line + CRLF + wire).Some? && |Receive(line + CRLF + wire).value.0| < |line| + 2 + |data|
  {
    hide Receive, NoCrlf;
    ReceiveStep(line, wire);
  }

  lemma {:induction false} ReceiveLines(u: string, m: string, rest: string)
    requires EndsLine(u) && EndsLine(m)
    ensures var r := Receive(Encoded(CountAfter(0, u), m) + ".\r\n" + rest);
            && r.Some?
            && (SafeFrom(u + m, |u|) ==> r.value == (m, rest))
            && (!SafeFrom(u + m, |u|) ==> |r.value.0| < |m|)
    decreases |m|
  {
    hide Receive, SafeFrom, EndsLine;
    if m == "" {
      assert Encoded(CountAfter(0, u), m) + ".\r\n" + rest == "." + CRLF + rest;
      ReceiveStep(".", rest);
      SafeFromEnd(u + m);
    } else {
      SplitLine(m);
      SplitAtFirstCrlf(m);
      var k := FindCrlf(m).value;
      var line, m' := m[..k], m[k + 2..];
      assert m == line + CRLF + m';
      ReceiveFirstLine(u, line, m', rest);
    }
  }

  lemma SafeFromEnd(m: string)
    ensures SafeFrom(m, |m|)
  {
  }

  lemma ReceiveFirstLine(u: string, line: string, m: string, rest: string)
    requires EndsLine(u) && NoCrlf(line) && EndsLine(m)
    ensures var r := Receive(Encoded(CountAfter(0, u), line + CRLF + m) + ".\r\n" + rest);
            && r.Some?
            && (SafeFrom(u + (line + CRLF + m), |u|) ==> r.value == (line + CRLF + m, rest))
            && (!SafeFrom(u + (line + CRLF + m), |u|) ==> |r.value.0| < |line + CRLF + m|)
    decreases |m| + |line| + 2, 0
  {
    hide Encoded, CountAfter, AfterOddCrLf, SafeFrom, Receive, EndsLine;
    var u' := u + (line + CRLF);
    EndsLineAppend(u, line);
    FirstLineSent(u, line, m, rest);
    ReceiveLines(u', m, rest);
    SafeFromNextLine(u, line, m);
    var wire := Encoded(CountAfter(0, u'), m) + ".\r\n" + rest;
    var (data, after) := Receive(wire).value;
    assert u + (line + CRLF + m) == u' + m && |u'| == |u| + |line| + 2;
    if DotFirst(line) && AfterOddCrLf(u) {
      NoCrlfAfterDot(line);
      ReceiveKept("." + line, line, wire, data, after);
    } else if DotFirst(line) {
      ReceiveLost(line, wire, data, after);
    } else {
      ReceiveKept(line, line, wire, data, after);
    }
  }

  /** The line as it is sent: with its leading dot, should it have one, doubled after an odd run of CRs. */
  function SentLine(u: string, line: string): string {
    if DotFirst(line) && AfterOddCrLf(u) then "." + line else line
  }

  lemma FirstLineSent(u: string, line: string, m: string, rest: string)
    requires EndsLine(u) && NoCrlf(line)
    ensures Encoded(CountAfter(0, u), line + CRLF + m) + ".\r\n" + rest
         == SentLine(u, line) + CRLF + (Encoded(CountAfter(0, u + (line + CRLF)), m) + ".\r\n" + rest)
  {
    hide Encoded, CountAfter, AfterOddCrLf, EndsLine;
    CountAtLineStart(u);
    EncodedSplit(CountAfter(0, u), line + CRLF, m);
    EncodedSplit(0, u, line + CRLF);
    EncodedLine(CountAfter(0, u), line);
  }

  lemma NoCrlfAfterDot(line: string)
    requires NoCrlf(line)
    ensures NoCrlf("." + line) && "" + line == line
  {
    forall k
      ensures !CrlfAt("." + line, k)
    {
      assert CrlfAt("." + line, k) ==> CrlfAt(line, k - 1);
    }
  }

  lemma EndsLineAppend(u: string, line: string)
    ensures EndsLine(u + (line + CRLF))
  {
    var s := u + (line + CRLF);
    assert s[|s| - 2..] == CRLF;
  }

  // ---------- where the data ends ----------

  /** The line that starts at `p` is a single dot. */
  predicate LoneDotAt(m: string, p: nat) {
    LineStart(m, p) && p < |m| && m[p] == '.' && CrlfAt(m, p + 1)
  }

  /** Each line that is a single dot, from position `n` on, has its dot doubled. */
  ghost predicate LoneDotsDoubled(m: string, n: nat) {
    forall p: nat :: n <= p && LoneDotAt(m, p) ==> DoubledAt(m, p)
  }

  lemma LoneDotsNextLine(u: string, line: string, rest: string)
    requires EndsLine(u) && NoCrlf(line)
    ensures var m := u + (line + CRLF + rest);
            LoneDotsDoubled(m, |u|) <==>
            (line == "." ==> AfterOddCrLf(u)) && LoneDotsDoubled(m, |u| + |line| + 2)
  {
    hide AfterOddCrLf, EndsLine;
    var m := u + (line + CRLF + rest);
    var n := |u| + |line| + 2;
    assert m[..|u|] == u;
    forall p | |u| <= p < n
      ensures LineStart(m, p) <==> p == |u|
    {
      LineStartsOnce(u, line, rest, p);
    }
    hide LineStart;
    assert forall k :: 0 <= k < |line| + 2 ==> m[|u| + k] == (line + CRLF)[k];
    assert CrlfAt(m, |u| + 1) && m[|u|] == '.' ==> CrlfAt(line + CRLF, 1) by {
      assert |line| == 0 ==> m[|u|] == '\r';
    }
    CrlfOnlyAtEnd(line);
    assert LoneDotAt(m, |u|) <==> line == ".";
    if line == "." {
      assert DoubledAt(m, |u|) <==> AfterOddCrLf(u);
    }
  }

  lemma LoneDotsEnd(m: string)
    ensures LoneDotsDoubled(m, |m|)
  {
  }

  /** From any line start, what is left over behind complete lines is exactly what follows them if each lone dot
      is doubled; otherwise more bytes are left over. */
  lemma {:induction false} BoundaryLines(u: string, m: string, rest: string)
    requires EndsLine(u) && EndsLine(m)
    ensures var r := Receive(Encoded(CountAfter(0, u), m) + ".\r\n" + rest);
            && r.Some?
            && (LoneDotsDoubled(u + m, |u|) ==> r.value.1 == rest)
            && (!LoneDotsDoubled(u + m, |u|) ==> |r.value.1| > |rest|)
    decreases |m|
  {
    hide Receive, LoneDotsDoubled, EndsLine;
    if m == "" {
      assert Encoded(CountAfter(0, u), m) + ".\r\n" + rest == "." + CRLF + rest;
      ReceiveStep(".", rest);
      LoneDotsEnd(u + m);
    } else {
      SplitLine(m);
      SplitAtFirstCrlf(m);
      var k := FindCrlf(m).value;
      assert m == m[..k] + CRLF + m[k + 2..];
      BoundaryFirstLine(u, m[..k], m[k + 2..], rest);
    }
  }

  lemma BoundaryFirstLine(u: string, line: string, m: string, rest: string)
    requires EndsLine(u) && NoCrlf(line) && EndsLine(m)
    ensures var r := Receive(Encoded(CountAfter(0, u), line + CRLF + m) + ".\r\n" + rest);
            && r.Some?
            && (LoneDotsDoubled(u + (line + CRLF + m), |u|) ==> r.value.1 == rest)
            && (!LoneDotsDoubled(u + (line + CRLF + m), |u|) ==> |r.value.1| > |rest|)
    decreases |m| + |line| + 2, 0
  {
    hide Encoded, CountAfter, AfterOddCrLf, LoneDotsDoubled, Receive, EndsLine;
    var u' := u + (line + CRLF);
    EndsLineAppend(u, line);
    FirstLineSent(u, line, m, rest);
    BoundaryLines(u', m, rest);
    LoneDotsNextLine(u, line, m);
    var wire := Encoded(CountAfter(0, u'), m) + ".\r\n" + rest;
    assert u + (line + CRLF + m) == u' + m && |u'| == |u| + |line| + 2;
    NoCrlfAfterDot(line);
    hide NoCrlf;
    ReceiveStep(SentLine(u, line), wire);
  }

  // ---------- whole messages ----------

  /** Appending the end of the last line neither starts a new line with a dot nor moves an old one. */
  lemma SafeWithTail(m: string, tail: string)
    requires tail == CRLF || tail == "\n" || tail == ""
    ensures Safe(m + tail) <==> Safe(m)
  {
    hide CrRun;
    var s := m + tail;
    forall k | k + 2 < |m|
      ensures CrlfAt(s, k) <==> CrlfAt(m, k)
      ensures 0 <= k ==> s[..k + 1] == m[..k + 1] && s[k + 2] == m[k + 2]
    {
    }
    if Safe(m) {
      forall k | CrlfAt(s, k) && k + 2 < |s| && s[k + 2] == '.'
        ensures CrRun(s[..k + 1]) % 2 == 1
      {
        assert CrlfAt(m, k);
      }
    }
    if Safe(s) {
      assert m != "" ==> s[0] == m[0];
      forall k | CrlfAt(m, k) && k + 2 < |m| && m[k + 2] == '.'
        ensures CrRun(m[..k + 1]) % 2 == 1
      {
        assert CrlfAt(s, k);
      }
    }
  }

  /** Complete lines come back as they are if and only if they are safe; otherwise bytes are lost. */
  lemma CompleteLines(m: string, rest: string)
    requires EndsLine(m)
    ensures var r := Receive(Encoded(0, m) + ".\r\n" + rest);
            r.Some? && (Safe(m) ==> r.value == (m, rest)) && (!Safe(m) ==> |r.value.0| < |m|)
  {
    ReceiveLines("", m, rest);
    SafeIsSafeFrom(m);
    assert "" + m == m;
  }

  /** The bytes the client writes for a body: one call of a fresh encoder and a whole end-of-data mark. */
  function MessageBytes(m: string): string {
    EncodeFrame(0, m).1 + "\r\n.\r\n"
  }

  /** The receiver gets back the body and the CRLF that ends it, and leaves what follows untouched,
      if and only if the body is safe and not empty. */
  lemma BodyTransparency(m: string, rest: string)
    ensures Receive(MessageBytes(m) + rest).Some?
    ensures Receive(MessageBytes(m) + rest) == Some((m + CRLF, rest)) <==> m != "" && Safe(m)
    ensures m != "" && !Safe(m) ==> |Receive(MessageBytes(m) + rest).value.0| < |m| + 2
  {
    hide Safe, Encoded, Receive;
    if m == "" {
      EmptyBody(rest);
    } else {
      MessageLayout(m, rest);
      SafeWithTail(m, CRLF);
      CompleteLines(m + CRLF, rest);
    }
  }

  lemma MessageBytesNotEmpty(message: string)
    ensures MessageBytes(message) != ""
  {
    hide EncodeFrame;
  }

  /** A body of one piece with the end of its last line. */
  lemma MessageLayout(m: string, rest: string)
    requires m != ""
    ensures MessageBytes(m) + rest == Encoded(0, m + CRLF) + ".\r\n" + rest
    ensures EndsLine(m + CRLF)
  {
    hide Encoded;
    assert MessageBytes(m) == Encoded(0, m) + CRLF + ".\r\n";
    LineEndUnchanged(CountAfter(0, m));
    EncodedSplit(0, m, CRLF);
    EndsLineAppend(m, "");
    assert m + ("" + CRLF) == m + CRLF;
  }

  /** The data ends where the client means it to end if and only if the body is not empty and each of its lines that
      is a single dot is doubled; otherwise bytes of the message are left over in front of what follows. */
  lemma BodyBoundary(m: string, rest: string)
    ensures Receive(MessageBytes(m) + rest).Some?
    ensures var after := Receive(MessageBytes(m) + rest).value.1;
            (after == rest <==> m != "" && LoneDotsDoubled(m + CRLF, 0)) && (after == rest || |after| > |rest|)
  {
    hide LoneDotsDoubled, Receive, MessageBytes;
    if m == "" {
      EmptyBody(rest);
    } else {
      MessageLayout(m, rest);
      BoundaryLines("", m + CRLF, rest);
      assert "" + (m + CRLF) == m + CRLF;
    }
  }

  /** A body that comes through unchanged ends where it should; `.a` ends where it should and does not come through. */
  lemma SafeBodyEnds(m: string)
    ensures Safe(m) ==> LoneDotsDoubled(m + CRLF, 0)
    ensures !Safe(".a") && LoneDotsDoubled(".a" + CRLF, 0)
  {
    hide DoubledAt;
    SafeWithTail(m, CRLF);
    SafeIsSafeFrom(m + CRLF);
    assert ".a"[0] == '.';
  }

  // ---------- bodies that do not come through ----------

  /** The message and what follows it, from behind a line that was taken for the end-of-data mark. */
  function LeftOver(t: string, rest: string): string {
    Encoded(2, t) + "\r\n.\r\n" + rest
  }

  lemma LoneDotLayout(u: string, t: string, rest: string)
    requires EndsLine(u) && !AfterOddCrLf(u)
    ensures MessageBytes(u + ("." + CRLF + t)) + rest == Encoded(0, u) + ("." + CRLF + LeftOver(t, rest))
  {
    hide Encoded, CountAfter, EndsLine, AfterOddCrLf;
    CountAtLineStart(u);
    EncodedSplit(0, u, "." + CRLF + t);
    EncodedSplit(0, "." + CRLF, t);
    NoCrlfDot();
    EncodedLine(0, ".");
    assert CountAfter(0, "." + CRLF) == 2 by {
      CountAtLineStart("." + CRLF);
      OddDot();
    }
  }

  lemma NoCrlfDot()
    ensures NoCrlf(".")
  {
  }

  lemma OddDot()
    ensures AfterOddCrLf("." + CRLF) && EndsLine("." + CRLF)
  {
    var s := "." + CRLF;
    assert s[..2] == ".\r" && s[..2][..1] == ".";
  }

  /** A body that starts with a lone dot: the data ends at once, and the rest of the body is taken for commands. */
  lemma LeadingLoneDot(t: string, rest: string)
    ensures Receive(MessageBytes("." + CRLF + t) + rest) == Some(("", LeftOver(t, rest)))
  {
    assert Encoded(0, "") == "";
    hide Receive, LeftOver, MessageBytes, Encoded;
    LoneDotLayout("", t, rest);
    NoCrlfDot();
    assert "" + ("." + CRLF + t) == "." + CRLF + t;
    assert "" + ("." + CRLF + LeftOver(t, rest)) == "." + CRLF + LeftOver(t, rest);
    ReceiveStep(".", LeftOver(t, rest));
  }

  /** A lone dot after any first line that ends in an odd run of CRs, which makes the run before the newline even,
      ends the data as well. */
  lemma LoneDotAfterEvenRun(line: string, t: string, rest: string)
    requires NoCrlf(line) && !DotFirst(line) && CrRun(line) % 2 == 1
    ensures Receive(MessageBytes(line + CRLF + ("." + CRLF + t)) + rest) == Some((line + CRLF, LeftOver(t, rest)))
  {
    hide Receive, LeftOver, MessageBytes, Encoded, NoCrlf;
    var u := line + CRLF;
    assert u[..|u| - 1] == line + "\r" && (line + "\r")[..|line|] == line;
    EndsLineAppend("", line);
    assert "" + (line + CRLF) == u;
    LoneDotLayout(u, t, rest);
    EncodedLine(0, line);
    NoCrlfDot();
    ReceiveStep(".", LeftOver(t, rest));
    ReceiveStep(line, "." + CRLF + LeftOver(t, rest));
    assert "" + line + CRLF == line + CRLF && u + "" == u;
  }

  lemma ShortestEvenRun(t: string, rest: string)
    ensures Receive(MessageBytes("\r\r\n.\r\n" + t) + rest) == Some(("\r\r\n", LeftOver(t, rest)))
  {
    assert CrRun("\r") == 1 && "\r"[..0] == "";
    hide Receive, LeftOver, MessageBytes, CrRun;
    LoneDotAfterEvenRun("\r", t, rest);
    assert "\r" + CRLF == "\r\r\n";
    assert "\r" + CRLF + ("." + CRLF + t) == "\r\r\n.\r\n" + t;
  }

  /** Any other first line with a dot in front loses the dot. */
  lemma LeadingDot(line: string, rest: string)
    requires NoCrlf(line) && line != ""
    ensures Receive(MessageBytes("." + line) + rest) == Some((line + CRLF, rest))
  {
    hide Receive, MessageBytes, Encoded;
    var s := "." + line;
    NoCrlfAfterDot(line);
    NoCrlfDot();
    hide NoCrlf;
    MessageLayout(s, rest);
    EncodedLine(0, s);
    ReceiveStep(".", rest);
    ReceiveStep(s, "." + CRLF + rest);
    assert Encoded(0, s + CRLF) + ".\r\n" + rest == s + CRLF + ("." + CRLF + rest);
    assert s[1..] == line && line + CRLF + "" == line + CRLF;
  }

  lemma LineEndUnchanged(count: EscapeCount)
    ensures Encoded(count, CRLF) == CRLF && Encoded(count, "\n") == "\n"
    ensures Encoded(count, "") == ""
  {
    assert CRLF[1..] == "\n" && "\n"[1..] == "";
    assert Encoded(NextCount(count, '\r'), "\n") == "\n";
  }

  /** For an empty body two end-of-data marks are written; the second one is left over. */
  lemma EmptyBody(rest: string)
    ensures Receive(MessageBytes("") + rest) == Some((CRLF, "\r\n.\r\n" + rest))
  {
    var after := "\r\n.\r\n" + rest;
    assert MessageBytes("") + rest == "" + CRLF + ("." + CRLF + after);
    ReceiveStep("", "." + CRLF + after);
    ReceiveStep(".", after);
    assert WithoutLeadingDot("") + CRLF + "" == CRLF;
  }

  // ---------- messages on one codec ----------

  /** Messages, each in frames, each closed by an empty frame. */
  function ClosedFrames(messages: seq<seq<string>>): seq<string> {
    if messages == [] then [] else messages[0] + [""] + ClosedFrames(messages[1..])
  }

  function ClosedAll(messages: seq<seq<string>>): seq<string> {
    if messages == [] then [] else [Closed(Flatten(messages[0]))] + ClosedAll(messages[1..])
  }

  /** `n` messages off the wire, one after another. */
  function ReceiveMany(n: nat, wire: string): Option<(seq<string>, string)> {
    if n == 0 then Some(([], wire))
    else
      match Receive(wire)
      case None => None
      case Some((data, after)) =>
        match ReceiveMany(n - 1, after)
        case None => None
        case Some((more, rest)) => Some(([data] + more, rest))
  }

  /** Any message closed by an empty frame comes back with the end of its last line completed, and what follows it
      untouched, if and only if it is safe; otherwise bytes are lost. */
  lemma ClosedMessage(m: string, rest: string)
    ensures var r := Receive(Encoded(0, m) + Terminator(CountAfter(0, m)) + rest);
            && r.Some?
            && (r == Some((Closed(m), rest)) <==> Safe(m))
            && (!Safe(m) ==> |r.value.0| < |Closed(m)|)
  {
    hide Safe, Encoded, Receive, CountAfter, Terminator, Closed;
    ClosedLayout(m, rest);
    ClosedEndsLine(m);
    CompleteLines(Closed(m), rest);
  }

  lemma ClosedLayout(m: string, rest: string)
    ensures Encoded(0, m) + Terminator(CountAfter(0, m)) + rest == Encoded(0, Closed(m)) + ".\r\n" + rest
    ensures Safe(Closed(m)) <==> Safe(m)
  {
    hide Safe, Encoded, CountAfter;
    var count := CountAfter(0, m);
    var tail := if count == 0 then CRLF else if count == 1 then "\n" else "";
    assert Closed(m) == m + tail;
    SafeWithTail(m, tail);
    EncodedSplit(0, m, tail);
    LineEndUnchanged(count);
    assert Terminator(count) == tail + ".\r\n";
  }

  lemma ClosedMessageThen(m: string, bytes: string, rest: string)
    ensures var r := Receive(Encoded(0, m) + (Terminator(CountAfter(0, m)) + bytes) + rest);
            && r.Some?
            && (r == Some((Closed(m), bytes + rest)) <==> Safe(m))
            && (!Safe(m) ==> r.value.0 != Closed(m))
  {
    hide Safe, Encoded, Receive, CountAfter, Terminator, Closed;
    var end := Terminator(CountAfter(0, m));
    assert Encoded(0, m) + (end + bytes) + rest == Encoded(0, m) + end + (bytes + rest);
    ClosedMessage(m, bytes + rest);
  }

  lemma ClosedEndsLine(m: string)
    ensures EndsLine(Closed(m))
  {
    hide CountAfter;
    CountIsParity(m);
    LastTwo(m, "\r\n");
    var last := |m| - 1;
    if AfterOddCrLf(m) {
      assert m[..last] != "" && m[..last][last - 1] == '\r';
      assert m[last - 1..] == CRLF;
    } else if CrRun(m) % 2 == 1 {
      assert m[last] == '\r';
      assert (m + "\n")[last..] == CRLF;
    }
  }

  lemma LastTwo(m: string, two: string)
    requires |two| == 2
    ensures (m + two)[|m + two| - 2..] == two
  {
  }

  lemma EncodeEmptyFrame(count: EscapeCount, more: seq<string>)
    ensures EncodeFrames(count, [""] + more)
         == (EncodeFrames(0, more).0, Terminator(count) + EncodeFrames(0, more).1)
  {
    hide Encoded, CountAfter, Terminator;
    var frames := [""] + more;
    assert frames[0] == "" && frames[1..] == more;
    assert EncodeFrame(count, "") == (0, Terminator(count));
  }

  /** A message cut into frames and closed: the codec writes the whole of it, then its end, and starts afresh. */
  lemma EncodeClosedFrames(frames: seq<string>, more: seq<string>)
    requires "" !in frames
    ensures var m := Flatten(frames);
            EncodeFrames(0, frames + [""] + more)
            == (EncodeFrames(0, more).0, Encoded(0, m) + (Terminator(CountAfter(0, m)) + EncodeFrames(0, more).1))
  {
    hide Encoded, CountAfter, EncodeFrames, Terminator, Flatten;
    ChunkingIndependence(0, frames);
    EncodeFramesAppend(0, frames, [""] + more);
    EncodeEmptyFrame(CountAfter(0, Flatten(frames)), more);
    assert frames + [""] + more == frames + ([""] + more);
  }

  /** The first message decides together with what is behind it. */
  lemma ReceiveManyCons(n: nat, wire: string, closed: string, after: string, more: seq<string>, rest: string)
    requires var r := Receive(wire); r == Some((closed, after)) || (r.Some? && r.value.0 != closed)
    ensures ReceiveMany(n + 1, wire) == Some(([closed] + more, rest))
       <==> Receive(wire) == Some((closed, after)) && ReceiveMany(n, after) == Some((more, rest))
  {
    var r := ReceiveMany(n, Receive(wire).value.1);
    hide Receive;
    if r.Some? {
      var data := Receive(wire).value.0;
      assert ([data] + r.value.0)[0] == data && ([data] + r.value.0)[1..] == r.value.0;
      assert ([closed] + more)[0] == closed && ([closed] + more)[1..] == more;
    }
  }

  lemma ClosedCons(messages: seq<seq<string>>)
    requires messages != []
    ensures ClosedFrames(messages) == messages[0] + [""] + ClosedFrames(messages[1..])
    ensures ClosedAll(messages) == [Closed(Flatten(messages[0]))] + ClosedAll(messages[1..])
  {
    hide Closed;
  }

  ghost predicate AllSafe(messages: seq<seq<string>>) {
    forall k :: 0 <= k < |messages| ==> Safe(Flatten(messages[k]))
  }

  lemma AllSafeCons(messages: seq<seq<string>>)
    requires messages != []
    ensures AllSafe(messages) <==> Safe(Flatten(messages[0])) && AllSafe(messages[1..])
  {
    hide Safe, Flatten;
    assert forall k :: 0 < k < |messages| ==> messages[k] == messages[1..][k - 1];
  }

  /** A codec used for message after message starts afresh after each: messages, each cut into frames anywhere and
      closed by an empty frame, come back one by one, with no more added than was missing of their last CRLF, if and
      only if all of them are safe. */
  lemma {:induction false} MessageStream(messages: seq<seq<string>>, rest: string)
    requires forall k :: 0 <= k < |messages| ==> "" !in messages[k]
    ensures var (count, bytes) := EncodeFrames(0, ClosedFrames(messages));
            && count == 0
            && (ReceiveMany(|messages|, bytes + rest) == Some((ClosedAll(messages), rest)) <==> AllSafe(messages))
  {
    if messages == [] {
      assert "" + rest == rest;
    } else {
      var frames, more := messages[0], messages[1..];
      var m := Flatten(frames);
      ClosedCons(messages);
      AllSafeCons(messages);
      hide Safe, Encoded, Receive, CountAfter, EncodeFrames, Terminator, Closed, ReceiveMany, Flatten, ClosedFrames, ClosedAll;
      hide AllSafe;
      MessageStream(more, rest);
      EncodeClosedFrames(frames, ClosedFrames(more));
      var bytes := EncodeFrames(0, ClosedFrames(more)).1;
      ClosedMessageThen(m, bytes, rest);
      ReceiveManyCons(|more|, EncodeFrames(0, ClosedFrames(messages)).1 + rest, Closed(m), bytes + rest, ClosedAll(more), rest);
    }
  }
}
