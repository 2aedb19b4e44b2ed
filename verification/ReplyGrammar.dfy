/** The reply syntax of section 4.2 of RFC 5321 written as a printer, and what the streaming parser
    has to do with it: the two are inverse, verdicts are stable under more input, and a parse that
    asks for more can always be brought to a verdict. */
module ReplyGrammar {
  import opened Text
  import opened Nom
  import opened Response

  // ---------- the printer ----------

  ghost predicate WellFormed(r: Response) {
    |r.message| > 0 && forall k :: 0 <= k < |r.message| ==> NoCrlf(r.message[k])
  }

  function RenderLines(code: Code, lines: seq<string>): string
    requires |lines| > 0
  {
    if |lines| == 1 then code.ToString() + " " + lines[0] + CRLF
    else code.ToString() + "-" + lines[0] + CRLF + RenderLines(code, lines[1..])
  }

  function Render(r: Response): string
    requires |r.message| > 0
  {
    RenderLines(r.code, r.message)
  }

  /** Continuation lines, each with a code of its own. */
  function RenderContinuations(lines: seq<(Code, string)>): string {
    if lines == [] then ""
    else lines[0].0.ToString() + "-" + lines[0].1 + CRLF + RenderContinuations(lines[1..])
  }

  ghost predicate NoCrlfIn(lines: seq<(Code, string)>) {
    forall k :: 0 <= k < |lines| ==> NoCrlf(lines[k].1)
  }

  function Tagged(code: Code, texts: seq<string>): seq<(Code, string)> {
    if texts == [] then [] else [(code, texts[0])] + Tagged(code, texts[1..])
  }

  // ---------- one line ----------

  /** Each digit parser reads one character, the one printed for the value it gives. */
  lemma ParseSeverityIs(i: string)
    ensures match ParseSeverity(i)
            case Ok(rest, v) => i != "" && i[0] == SeverityChar(v) && rest == i[1..]
            case Error => i != "" && forall v :: SeverityChar(v) != i[0]
            case Incomplete => i == ""
            case Failure => false
  {
  }

  lemma ParseCategoryIs(i: string)
    ensures match ParseCategory(i)
            case Ok(rest, v) => i != "" && i[0] == CategoryChar(v) && rest == i[1..]
            case Error => i != "" && forall v :: CategoryChar(v) != i[0]
            case Incomplete => i == ""
            case Failure => false
  {
  }

  lemma ParseDetailIs(i: string)
    ensures match ParseDetail(i)
            case Ok(rest, v) => i != "" && i[0] == DetailChar(v) && rest == i[1..]
            case Error => i != "" && forall v :: DetailChar(v) != i[0]
            case Incomplete => i == ""
            case Failure => false
  {
  }

  lemma CodeTextInjective(c: Code, d: Code)
    ensures c.ToString() == d.ToString() ==> c == d
  {
    assert c.ToString()[0] == SeverityChar(c.severity) && c.ToString()[1] == CategoryChar(c.category)
        && c.ToString()[2] == DetailChar(c.detail);
    assert d.ToString()[0] == SeverityChar(d.severity) && d.ToString()[1] == CategoryChar(d.category)
        && d.ToString()[2] == DetailChar(d.detail);
  }

  lemma SameChars(s: Severity, s': Severity, c: Category, c': Category, d: Detail, d': Detail)
    ensures SeverityChar(s) == SeverityChar(s') ==> s == s'
    ensures CategoryChar(c) == CategoryChar(c') ==> c == c'
    ensures DetailChar(d) == DetailChar(d') ==> d == d'
  {
  }

  /** The code parser reads exactly a printed code and asks for more only inside one. */
  lemma ParseCodeIs(i: string)
    ensures !ParseCode(i).Failure?
    ensures ParseCode(i).Ok? ==> i == ParseCode(i).value.ToString() + ParseCode(i).rest
    ensures ParseCode(i).Incomplete? ==> |i| < 3 && exists c :: StartsLike(i, c)
  {
    hide ParseSeverity, ParseCategory, ParseDetail;
    ParseSeverityIs(i);
    if i == "" {
      assert StartsLike(i, Code(PositiveCompletion, Syntax, Zero));
    } else if ParseSeverity(i).Ok? {
      var Ok(i1, s) := ParseSeverity(i);
      ParseCategoryIs(i1);
      if i1 == "" {
        assert StartsLike(i, Code(s, Syntax, Zero));
      } else if ParseCategory(i1).Ok? {
        var Ok(i2, c) := ParseCategory(i1);
        ParseDetailIs(i2);
        if i2 == "" {
          assert StartsLike(i, Code(s, c, Zero));
        } else if ParseDetail(i2).Ok? {
          var d := ParseDetail(i2).value;
          assert i == [i[0]] + ([i1[0]] + ([i2[0]] + i2[1..])) == Code(s, c, d).ToString() + i2[1..];
        }
      }
    }
  }

  lemma ParseCodeOf(c: Code, x: string)
    ensures ParseCode(c.ToString() + x) == Ok(x, c)
  {
    var i := c.ToString() + x;
    assert i[0] == SeverityChar(c.severity) && i[1] == CategoryChar(c.category) && i[2] == DetailChar(c.detail);
    var i1, i2 := i[1..], i[1..][1..];
    assert i1[0] == i[1] && i2[0] == i[2] && i2[1..] == x;
    ParseSeverityIs(i);
    ParseCategoryIs(i1);
    ParseDetailIs(i2);
    SameChars(ParseSeverity(i).value, c.severity, ParseCategory(i1).value, c.category, ParseDetail(i2).value, c.detail);
  }

  lemma TagOne(c: char, j: string)
    ensures Tag([c], j) == if j == "" then Incomplete else if j[0] == c then Ok(j[1..], [c]) else Error
  {
  }

  lemma LineLayout(code: string, separator: string, text: string, x: string)
    ensures code + separator + text + CRLF + x == code + (separator + (text + CRLF + x))
  {
  }

  lemma ContinuationLineOf(c: Code, text: string, x: string)
    requires NoCrlf(text)
    ensures ContinuationLine(c.ToString() + "-" + text + CRLF + x) == Ok(x, (c, text))
  {
    var y := text + CRLF + x;
    LineLayout(c.ToString(), "-", text, x);
    ParseCodeOf(c, "-" + y);
    TagOne('-', "-" + y);
    assert Tag(CRLF, CRLF + x) == Ok(x, CRLF);
    hide ParseCode, FindCrlf, Code.ToString, Tag;
    assert ("-" + y)[1..] == y;
    FindCrlfAfterLine(text, x);
  }

  lemma LastLineOf(c: Code, text: string, x: string)
    requires NoCrlf(text)
    ensures LastLine(c.ToString() + " " + text + CRLF + x) == Ok(CRLF + x, (c, text))
    ensures ContinuationLine(c.ToString() + " " + text + CRLF + x).Error?
  {
    var y := text + CRLF + x;
    LineLayout(c.ToString(), " ", text, x);
    ParseCodeOf(c, " " + y);
    TagOne(' ', " " + y);
    TagOne('-', " " + y);
    hide ParseCode, FindCrlf, Code.ToString, Tag;
    assert (" " + y)[1..] == y;
    FindCrlfAfterLine(text, x);
  }

  /** A line still open: as much of a code as there is, then a separator and text without CRLF. */
  ghost predicate PartialLine(part: string) {
    && (exists c: Code :: StartsLike(part, c))
    && (|part| > 3 ==> (part[3] == '-' || part[3] == ' ') && NoCrlf(part[4..]))
  }

  /** The first three characters of a line, as far as they are there, are those of code `c`. */
  predicate StartsLike(line: string, c: Code) {
    if |line| <= 3 then line <= c.ToString() else line[..3] == c.ToString()
  }

  /** Text taken after a one-character separator. */
  lemma TakenText(j: string)
    requires j != "" && TakeUntilCrlf(j[1..]).Ok?
    ensures var Ok(rest, text) := TakeUntilCrlf(j[1..]);
            NoCrlf(text) && CRLF <= rest && j == [j[0]] + text + CRLF + rest[2..]
  {
    SplitAtFirstCrlf(j[1..]);
  }

  lemma OpenLine(i: string, c: Code, j: string)
    requires i == c.ToString() + j
    requires j == "" || ((j[0] == '-' || j[0] == ' ') && TakeUntilCrlf(j[1..]).Incomplete?)
    ensures PartialLine(i)
  {
    assert StartsLike(i, c);
    if j != "" {
      assert i[4..] == j[1..];
    }
  }

  lemma ContinuationLineInverse(i: string)
    ensures !ContinuationLine(i).Failure?
    ensures ContinuationLine(i).Incomplete? ==> PartialLine(i)
    ensures ContinuationLine(i).Ok? ==>
              var Ok(rest, line) := ContinuationLine(i);
              NoCrlf(line.1) && i == line.0.ToString() + "-" + line.1 + CRLF + rest
  {
    hide ParseCode, FindCrlf, Code.ToString, PartialLine, StartsLike, NoCrlf;
    ParseCodeIs(i);
    if ParseCode(i).Ok? {
      var Ok(j, c) := ParseCode(i);
      TagOne('-', j);
      if j == "" {
        OpenLine(i, c, j);
      } else if j[0] == '-' {
        if TakeUntilCrlf(j[1..]).Ok? {
          TakenText(j);
        } else {
          OpenLine(i, c, j);
        }
      }
    } else if ParseCode(i).Incomplete? {
      OpenCode(i);
    }
  }

  lemma OpenCode(i: string)
    requires |i| < 3 && exists c :: StartsLike(i, c)
    ensures PartialLine(i)
  {
  }

  lemma LastLineInverse(i: string)
    requires ContinuationLine(i).Error?
    ensures !LastLine(i).Failure?
    ensures LastLine(i).Incomplete? ==> PartialLine(i)
    ensures LastLine(i).Ok? ==>
              var Ok(rest, line) := LastLine(i);
              CRLF <= rest && NoCrlf(line.1) && i == line.0.ToString() + " " + line.1 + CRLF + rest[2..]
  {
    hide ParseCode, FindCrlf, Code.ToString, PartialLine, StartsLike, NoCrlf;
    ParseCodeIs(i);
    if ParseCode(i).Ok? {
      var Ok(j, c) := ParseCode(i);
      TagOne('-', j);
      TagOne(' ', j);
      if j != "" && j[0] == ' ' {
        if TakeUntilCrlf(j[1..]).Ok? {
          TakenText(j);
        } else {
          OpenLine(i, c, j);
        }
      }
    }
  }

  // ---------- many lines ----------

  lemma {:induction false} RepeatOf(lines: seq<(Code, string)>, y: string)
    requires NoCrlfIn(lines)
    ensures match Repeat(ContinuationLine, y)
            case Ok(last, more) => Repeat(ContinuationLine, RenderContinuations(lines) + y) == Ok(last, lines + more)
            case Incomplete => Repeat(ContinuationLine, RenderContinuations(lines) + y).Incomplete?
            case Error => true
            case Failure => true
  {
    hide ContinuationLine;
    if lines == [] {
      assert RenderContinuations(lines) + y == y;
      assert forall more: seq<(Code, string)> :: lines + more == more;
    } else {
      var tail := RenderContinuations(lines[1..]) + y;
      RepeatOf(lines[1..], y);
      ContinuationLineOf(lines[0].0, lines[0].1, tail);
      assert RenderContinuations(lines) + y == lines[0].0.ToString() + "-" + lines[0].1 + CRLF + tail;
      assert forall more: seq<(Code, string)> :: [lines[0]] + (lines[1..] + more) == lines + more;
    }
  }

  /** The continuation lines in front of `s` and what stands behind them. */
  lemma {:induction false} RepeatInverse(s: string) returns (lines: seq<(Code, string)>, y: string)
    ensures NoCrlfIn(lines) && s == RenderContinuations(lines) + y
    ensures match Repeat(ContinuationLine, s)
            case Ok(last, ls) => last == y && ls == lines && ContinuationLine(y).Error?
            case Incomplete => ContinuationLine(y).Incomplete?
            case Error => false
            case Failure => false
    decreases |s|
  {
    hide ContinuationLine;
    ContinuationLineInverse(s);
    match ContinuationLine(s)
    case Ok(rest, line) =>
      var ls, z := RepeatInverse(rest);
      lines, y := [line] + ls, z;
    case _ =>
      lines, y := [], s;
  }

  lemma {:induction false} TaggedTexts(code: Code, texts: seq<string>)
    ensures Texts(Tagged(code, texts)) == texts && AllCodes(Tagged(code, texts), code) && |Tagged(code, texts)| == |texts|
    ensures forall k :: 0 <= k < |texts| ==> Tagged(code, texts)[k].1 == texts[k]
  {
    if texts == [] {
    } else {
      TaggedTexts(code, texts[1..]);
    }
  }

  lemma {:induction false} TextsOf(lines: seq<(Code, string)>)
    ensures |Texts(lines)| == |lines|
    ensures forall k :: 0 <= k < |lines| ==> Texts(lines)[k] == lines[k].1
  {
    if lines == [] {
    } else {
      TextsOf(lines[1..]);
    }
  }

  lemma RenderLinesCons(code: Code, text: string, more: seq<string>)
    requires |more| > 0
    ensures RenderLines(code, [text] + more) == code.ToString() + "-" + text + CRLF + RenderLines(code, more)
  {
    assert ([text] + more)[1..] == more;
  }

  lemma {:induction false} RenderSplit(code: Code, lines: seq<(Code, string)>, text: string)
    requires AllCodes(lines, code)
    ensures RenderLines(code, Texts(lines) + [text])
         == RenderContinuations(lines) + (code.ToString() + " " + text + CRLF)
  {
    hide Code.ToString;
    if lines == [] {
      assert Texts(lines) + [text] == [text];
    } else {
      AllCodesCons(lines, code);
      RenderSplit(code, lines[1..], text);
      hide RenderLines, AllCodes;
      assert Texts(lines) + [text] == [lines[0].1] + (Texts(lines[1..]) + [text]);
      RenderLinesCons(code, lines[0].1, Texts(lines[1..]) + [text]);
    }
  }

  /** What the parser answers once all lines and the last one are there. */
  lemma ParseLines(lines: seq<(Code, string)>, code: Code, text: string, x: string)
    requires NoCrlfIn(lines) && NoCrlf(text)
    ensures ParseResponse(RenderContinuations(lines) + (code.ToString() + " " + text + CRLF + x))
         == if AllCodes(lines, code) then Ok(x, Response(code, Texts(lines) + [text])) else Failure
  {
    hide ContinuationLine, LastLine;
    var y := code.ToString() + " " + text + CRLF + x;
    LastLineOf(code, text, x);
    assert Repeat(ContinuationLine, y) == Ok(y, []);
    RepeatOf(lines, y);
    assert lines + [] == lines;
    assert (CRLF + x)[2..] == x;
  }

  /** A code followed by anything but a hyphen or a space is refused. */
  lemma CodeWithoutSpace(lines: seq<(Code, string)>, code: Code, tail: string)
    requires NoCrlfIn(lines) && tail != "" && tail[0] != '-' && tail[0] != ' '
    ensures ParseResponse(RenderContinuations(lines) + (code.ToString() + tail)).Error?
  {
    var y := code.ToString() + tail;
    ParseCodeOf(code, tail);
    TagOne('-', tail);
    TagOne(' ', tail);
    hide ParseCode, Code.ToString, Tag;
    assert ContinuationLine(y).Error? && LastLine(y).Error?;
    hide ContinuationLine, LastLine;
    assert Repeat(ContinuationLine, y) == Ok(y, []);
    RepeatOf(lines, y);
    assert lines + [] == lines;
  }

  /** So is a last line that is a code alone, which section 4.2 of RFC 5321 allows a server to send. */
  lemma BareCodeIsRefused(lines: seq<(Code, string)>, code: Code, x: string)
    requires NoCrlfIn(lines)
    ensures ParseResponse(RenderContinuations(lines) + (code.ToString() + (CRLF + x))).Error?
  {
    assert (CRLF + x)[0] == '\r';
    hide ParseResponse;
    CodeWithoutSpace(lines, code, CRLF + x);
  }

  // ---------- the parser and the printer are inverse ----------

  lemma ParseOfRender(r: Response, x: string)
    requires WellFormed(r)
    ensures ParseResponse(Render(r) + x) == Ok(x, r)
  {
    hide ParseResponse;
    var n := |r.message| - 1;
    var lines := Tagged(r.code, r.message[..n]);
    TaggedTexts(r.code, r.message[..n]);
    assert Texts(lines) + [r.message[n]] == r.message;
    RenderSplit(r.code, lines, r.message[n]);
    ParseLines(lines, r.code, r.message[n], x);
    assert Render(r) + x
        == RenderContinuations(lines) + (r.code.ToString() + " " + r.message[n] + CRLF + x);
  }

  /** The lines a reply was read from: all codes are equal to that of the last line. */
  lemma OkShape(s: string) returns (lines: seq<(Code, string)>, last: string)
    requires ParseResponse(s).Ok?
    ensures Repeat(ContinuationLine, s) == Ok(last, lines) && LastLine(last).Ok? && CRLF <= LastLine(last).rest
    ensures var Ok(after, (code, text)) := LastLine(last);
            AllCodes(lines, code) && ParseResponse(s) == Ok(after[2..], Response(code, Texts(lines) + [text]))
  {
    hide ContinuationLine, LastLine;
    last, lines := Repeat(ContinuationLine, s).rest, Repeat(ContinuationLine, s).value;
  }

  lemma RenderRejoin(lines: seq<(Code, string)>, code: Code, text: string, rest: string)
    requires AllCodes(lines, code) && NoCrlfIn(lines) && NoCrlf(text)
    ensures var r := Response(code, Texts(lines) + [text]);
            WellFormed(r) && Render(r) + rest == RenderContinuations(lines) + (code.ToString() + " " + text + CRLF + rest)
  {
    hide Code.ToString, NoCrlf;
    TextsOf(lines);
    RenderSplit(code, lines, text);
    hide RenderLines, RenderContinuations;
    var end := code.ToString() + " " + text + CRLF;
    assert RenderContinuations(lines) + (end + rest) == (RenderContinuations(lines) + end) + rest;
  }

  lemma RenderOfParse(s: string)
    requires ParseResponse(s).Ok?
    ensures WellFormed(ParseResponse(s).value)
    ensures s == Render(ParseResponse(s).value) + ParseResponse(s).rest
  {
    var lines, y := RepeatInverse(s);
    var all, last := OkShape(s);
    hide ContinuationLine, LastLine, Code.ToString, ParseResponse, Render, RenderContinuations, WellFormed, NoCrlf;
    assert all == lines && last == y;
    LastLineInverse(y);
    var (code, text) := LastLine(y).value;
    RenderRejoin(lines, code, text, LastLine(y).rest[2..]);
  }

  /** No rendered reply is the beginning of another one. */
  lemma RenderPrefixFree(a: Response, b: Response)
    requires WellFormed(a) && WellFormed(b) && Render(a) <= Render(b)
    ensures a == b
  {
    hide ParseResponse;
    var x := Render(b)[|Render(a)|..];
    assert Render(b) == Render(a) + x == Render(b) + "";
    ParseOfRender(a, x);
    ParseOfRender(b, "");
  }

  lemma {:induction false} RenderEndsLine(code: Code, lines: seq<string>)
    requires |lines| > 0
    ensures |RenderLines(code, lines)| >= 6
    ensures RenderLines(code, lines)[|RenderLines(code, lines)| - 1] == '\n'
  {
    if |lines| <= 1 {
    } else {
      RenderEndsLine(code, lines[1..]);
    }
  }

  // ---------- codes as numbers ----------

  function DigitValue(c: char): int {
    c as int - '0' as int
  }

  /** A reply has a code exactly if that is the number its three digits stand for. */
  lemma HasCodeIs(r: Response, n: nat)
    ensures r.HasCode(n)
       <==> n == 100 * DigitValue(SeverityChar(r.code.severity)) + 10 * DigitValue(CategoryChar(r.code.category))
                 + DigitValue(DetailChar(r.code.detail))
  {
    var code := r.code.ToString();
    assert code[0] != '0' && AllDigits(code);
    hide Dec, ReadDecimal;
    DecOfRead(code);
    DecReads(n);
    ThreeDigits(SeverityChar(r.code.severity), CategoryChar(r.code.category), DetailChar(r.code.detail));
  }

  lemma ThreeDigits(a: char, b: char, c: char)
    requires IsDigit(a) && IsDigit(b) && IsDigit(c)
    ensures ReadDecimal([a, b, c]) == 100 * DigitValue(a) + 10 * DigitValue(b) + DigitValue(c)
  {
    assert [a, b, c][1..] == [b, c] && [b, c][1..] == [c] && [c][1..] == "";
    assert ReadDecimal([c], 10 * DigitValue(a) + DigitValue(b)) == 100 * DigitValue(a) + 10 * DigitValue(b) + DigitValue(c);
  }

  /** On the wire these are the first three bytes of the reply. */
  lemma CodeOnWire(r: Response, n: nat)
    requires WellFormed(r)
    ensures |Render(r)| >= 3 && AllDigits(Render(r)[..3])
    ensures r.HasCode(n) <==> ReadDecimal(Render(r)[..3]) == n
  {
    CodeIsFront(r);
    var code := r.code.ToString();
    assert code[0] != '0' && AllDigits(code);
    DecOfRead(code);
    DecReads(n);
  }

  lemma CodeIsFront(r: Response)
    requires WellFormed(r)
    ensures |Render(r)| >= 3 && Render(r)[..3] == r.code.ToString()
  {
  }

  /** What makes a reply a challenge. */
  lemma ChallengeOnWire(r: Response)
    requires WellFormed(r)
    ensures r.HasCode(334) <==> "334" <= Render(r)
  {
    CodeIsFront(r);
    ChallengeCode(r);
    hide Render, Response.HasCode;
    assert "334" <= Render(r) <==> Render(r)[..3] == "334";
  }

  lemma ChallengeCode(r: Response)
    ensures r.HasCode(334) <==> r.code.ToString() == "334"
  {
    DecOfRead("334");
    assert ReadDecimal("334") == 334 by {
      assert "334"[1..] == "34" && "34"[1..] == "4" && "4"[1..] == "";
    }
  }

  // ---------- stability ----------

  // The digits are alternatives of one-character tags, so their stability is that of `tag`.

  lemma SeverityStable(s: string, x: string)
    ensures Extends(ParseSeverity(s), ParseSeverity(s + x), x)
  {
    hide CharAs;
    CharAsStable('2', PositiveCompletion, s, x);
    CharAsStable('3', PositiveIntermediate, s, x);
    CharAsStable('4', TransientNegativeCompletion, s, x);
    CharAsStable('5', PermanentNegativeCompletion, s, x);
  }

  lemma CategoryStable(s: string, x: string)
    ensures Extends(ParseCategory(s), ParseCategory(s + x), x)
  {
    hide CharAs;
    CharAsStable('0', Syntax, s, x);
    CharAsStable('1', Information, s, x);
    CharAsStable('2', Connections, s, x);
    CharAsStable('3', Unspecified3, s, x);
    CharAsStable('4', Unspecified4, s, x);
    CharAsStable('5', MailSystem, s, x);
  }

  lemma DetailStable(s: string, x: string)
    ensures Extends(ParseDetail(s), ParseDetail(s + x), x)
  {
    hide CharAs;
    CharAsStable('0', Zero, s, x);
    CharAsStable('1', One, s, x);
    CharAsStable('2', Two, s, x);
    CharAsStable('3', Three, s, x);
    CharAsStable('4', Four, s, x);
    CharAsStable('5', Five, s, x);
    CharAsStable('6', Six, s, x);
    CharAsStable('7', Seven, s, x);
    CharAsStable('8', Eight, s, x);
    CharAsStable('9', Nine, s, x);
  }

  lemma CodeStable()
    ensures Stable(ParseCode)
  {
    hide ParseSeverity, ParseCategory, ParseDetail;
    forall s, x
      ensures StableAt(ParseCode, s, x)
    {
      SeverityStable(s, x);
      if ParseSeverity(s).Ok? {
        var i1 := ParseSeverity(s).rest;
        CategoryStable(i1, x);
        if ParseCategory(i1).Ok? {
          DetailStable(ParseCategory(i1).rest, x);
        }
      }
    }
  }

  lemma LinesStable()
    ensures Stable(ContinuationLine) && Stable(LastLine)
  {
    hide ParseCode;
    CodeStable();
    TakeUntilStable();
    forall s, x
      ensures StableAt(ContinuationLine, s, x) && StableAt(LastLine, s, x)
    {
      assert StableAt(ParseCode, s, x);
      if ParseCode(s).Ok? {
        var y := ParseCode(s).rest;
        TagStable("-", y, x);
        TagStable(" ", y, x);
        if y != "" {
          assert StableAt(TakeUntilCrlf, y[1..], x);
          if TakeUntilCrlf(y[1..]).Ok? {
            TagStable(CRLF, TakeUntilCrlf(y[1..]).rest, x);
          }
        }
      }
    }
  }

  /** A verdict on a reply is final: more input only lengthens what is left over.
      `complete(tag(CRLF))` is not stable by itself; it is here, because the text before it
      was taken up to a CRLF that is already there. */
  lemma ResponseStable(s: string, x: string)
    ensures StableAt(ParseResponse, s, x)
  {
    hide ContinuationLine, LastLine;
    LinesStable();
    Many0Stable(ContinuationLine);
    assert StableAt(Many0(ContinuationLine), s, x);
    var lines, y := RepeatInverse(s);
    if Repeat(ContinuationLine, s).Ok? {
      LastLineInverse(y);
      assert StableAt(LastLine, y, x);
      if LastLine(y).Ok? {
        var rest := LastLine(y).rest;
        assert (rest + x)[2..] == rest[2..] + x;
      }
    }
  }

  // ---------- asking for more is never a dead end ----------

  /** Every line of `s`, the open one at the end included, starts with the digits of `c` as far as it goes. */
  ghost predicate AgreesWith(s: string, c: Code)
    decreases |s|
  {
    match FindCrlf(s)
    case None => StartsLike(s, c)
    case Some(k) => StartsLike(s[..k], c) && AgreesWith(s[k + 2..], c)
  }

  /** An input on which the parser asks for more: whole continuation lines, then a line still open. */
  lemma IncompleteShape(s: string) returns (lines: seq<(Code, string)>, part: string)
    requires ParseResponse(s).Incomplete?
    ensures NoCrlfIn(lines) && PartialLine(part) && s == RenderContinuations(lines) + part
  {
    hide ContinuationLine, LastLine;
    lines, part := RepeatInverse(s);
    ContinuationLineInverse(part);
    if ContinuationLine(part).Error? {
      LastLineInverse(part);
    }
  }

  lemma PartialLineHasNoCrlf(part: string, c: Code)
    requires PartialLine(part)
    ensures NoCrlf(part)
  {
    var d: Code :| StartsLike(part, d);
    assert forall k :: 0 <= k < 3 && k < |part| ==> part[k] == d.ToString()[k];
    forall k
      ensures !CrlfAt(part, k)
    {
      if CrlfAt(part, k) {
        assert k > 3 ==> CrlfAt(part[4..], k - 4);
      }
    }
  }

  lemma LineAgrees(d: Code, text: string, c: Code)
    requires NoCrlf(text)
    ensures NoCrlf(d.ToString() + "-" + text)
    ensures StartsLike(d.ToString() + "-" + text, c) <==> c == d
  {
    var line := d.ToString() + "-" + text;
    forall k
      ensures !CrlfAt(line, k)
    {
      assert CrlfAt(line, k) && k > 3 ==> CrlfAt(text, k - 4);
    }
    assert line[..3] == d.ToString();
    CodeTextInjective(c, d);
  }

  lemma AgreesWithLine(line: string, rest: string, c: Code)
    requires NoCrlf(line)
    ensures AgreesWith(line + CRLF + rest, c) <==> StartsLike(line, c) && AgreesWith(rest, c)
  {
    hide StartsLike;
    FindCrlfAfterLine(line, rest);
  }

  lemma AllCodesCons(lines: seq<(Code, string)>, c: Code)
    requires lines != []
    ensures AllCodes(lines, c) <==> lines[0].0 == c && AllCodes(lines[1..], c)
  {
    assert forall k :: 0 < k < |lines| ==> lines[k] == lines[1..][k - 1];
  }

  lemma {:induction false} AgreementOfShape(lines: seq<(Code, string)>, part: string, c: Code)
    requires NoCrlfIn(lines) && NoCrlf(part)
    ensures AgreesWith(RenderContinuations(lines) + part, c) <==> AllCodes(lines, c) && StartsLike(part, c)
  {
    hide StartsLike, Code.ToString;
    var s := RenderContinuations(lines) + part;
    if lines == [] {
      assert s == part;
      assert forall k :: !CrlfAt(s, k);
    } else {
      hide AgreesWith;
      var line := lines[0].0.ToString() + "-" + lines[0].1;
      var rest := RenderContinuations(lines[1..]) + part;
      assert s == line + CRLF + rest;
      LineAgrees(lines[0].0, lines[0].1, c);
      AgreesWithLine(line, rest, c);
      AgreementOfShape(lines[1..], part, c);
      AllCodesCons(lines, c);
    }
  }

  /** Closing the open line with code `c` brings the parse to a verdict: the reply, when all codes agree. */
  lemma CloseLine(lines: seq<(Code, string)>, part: string, c: Code) returns (t: string)
    requires NoCrlfIn(lines) && PartialLine(part) && StartsLike(part, c)
    ensures var r := ParseResponse(RenderContinuations(lines) + part + t);
            if AllCodes(lines, c) then r.Ok? else r.Failure?
  {
    if |part| <= 3 {
      t := c.ToString()[|part|..] + " " + CRLF;
      CloseLast(lines, part, c, "", t);
    } else if part[3] == ' ' {
      t := CRLF;
      CloseLast(lines, part, c, part[4..], t);
    } else {
      t := CRLF + c.ToString() + " " + CRLF;
      CloseContinuation(lines, part, c, t);
    }
  }

  lemma CloseLast(lines: seq<(Code, string)>, part: string, c: Code, text: string, t: string)
    requires NoCrlfIn(lines) && NoCrlf(text) && part + t == c.ToString() + " " + text + CRLF
    ensures var r := ParseResponse(RenderContinuations(lines) + part + t);
            if AllCodes(lines, c) then r.Ok? else r.Failure?
  {
    hide ParseResponse, NoCrlf, Code.ToString;
    ParseLines(lines, c, text, "");
    var s := RenderContinuations(lines);
    assert s + part + t == s + (part + t) == s + (c.ToString() + " " + text + CRLF + "");
  }

  lemma ContinuationClosed(s: string, part: string, code: string)
    requires |part| > 3 && part[..3] == code && part[3] == '-'
    ensures s + part + (CRLF + code + " " + CRLF)
         == (s + (code + "-" + part[4..] + CRLF)) + (code + " " + "" + CRLF + "")
  {
    var t := CRLF + code + " " + CRLF;
    assert part == code + "-" + part[4..];
    assert part + t == (code + "-" + part[4..] + CRLF) + (code + " " + "" + CRLF + "");
    assert s + part + t == s + (part + t);
  }

  lemma CloseContinuation(lines: seq<(Code, string)>, part: string, c: Code, t: string)
    requires NoCrlfIn(lines) && |part| > 3 && part[..3] == c.ToString() && part[3] == '-' && NoCrlf(part[4..])
    requires t == CRLF + c.ToString() + " " + CRLF
    ensures var r := ParseResponse(RenderContinuations(lines) + part + t);
            if AllCodes(lines, c) then r.Ok? else r.Failure?
  {
    assert NoCrlf("");
    hide ParseResponse, NoCrlf, Code.ToString, RenderContinuations;
    var line := (c, part[4..]);
    ParseLines(lines + [line], c, "", "");
    RenderContinuationsAppend(lines, line);
    ContinuationClosed(RenderContinuations(lines), part, c.ToString());
    AllCodesSnoc(lines, line);
  }

  lemma AllCodesSnoc(lines: seq<(Code, string)>, line: (Code, string))
    ensures AllCodes(lines + [line], line.0) <==> AllCodes(lines, line.0)
  {
    assert forall k :: 0 <= k < |lines| ==> (lines + [line])[k] == lines[k];
  }

  lemma {:induction false} RenderContinuationsAppend(lines: seq<(Code, string)>, line: (Code, string))
    ensures RenderContinuations(lines + [line])
         == RenderContinuations(lines) + (line.0.ToString() + "-" + line.1 + CRLF)
  {
    if lines == [] {
      assert lines + [line] == [line];
    } else {
      assert (lines + [line])[1..] == lines[1..] + [line];
      RenderContinuationsAppend(lines[1..], line);
    }
  }

  lemma AllCodesAppend(a: seq<(Code, string)>, b: seq<(Code, string)>, c: Code)
    requires AllCodes(a + b, c)
    ensures AllCodes(a, c) && AllCodes(b, c)
  {
    assert forall k :: 0 <= k < |a| ==> a[k] == (a + b)[k];
    assert forall k :: 0 <= k < |b| ==> b[k] == (a + b)[|a| + k];
  }

  lemma FirstDigits(lines: seq<(Code, string)>, last: string, tail: string, c: Code)
    requires AllCodes(lines, c) && last == c.ToString() + tail
    ensures |RenderContinuations(lines) + last| >= 3 && (RenderContinuations(lines) + last)[..3] == c.ToString()
  {
    if lines != [] {
      assert lines[0].0 == c;
    }
  }

  /** Codes already seen that disagree with `c` rule out a reply with code `c`. */
  lemma OkNeedsAgreement(lines: seq<(Code, string)>, part: string, t: string)
    requires NoCrlfIn(lines) && PartialLine(part)
    requires ParseResponse(RenderContinuations(lines) + part + t).Ok?
    ensures exists c :: AllCodes(lines, c) && StartsLike(part, c)
  {
    hide ContinuationLine, LastLine, ParseResponse, NoCrlf;
    var y := part + t;
    var s := RenderContinuations(lines) + y;
    assert RenderContinuations(lines) + part + t == s;
    var all, z := OkShape(s);
    var c := LastLine(z).value.0;
    RepeatOf(lines, y);
    var more, w := RepeatInverse(y);
    assert w == z && all == lines + more;
    LastLineInverse(z);
    AllCodesAppend(lines, more, c);
    LastLineStarts(z);
    FirstDigits(more, z, z[3..], c);
    PrefixStartsLike(part, t, c);
  }

  lemma LastLineStarts(z: string)
    requires LastLine(z).Ok?
    ensures |z| >= 3 && z == LastLine(z).value.0.ToString() + z[3..]
  {
    hide ParseCode, FindCrlf, Tag;
    ParseCodeIs(z);
  }

  lemma PrefixStartsLike(part: string, t: string, c: Code)
    requires |part + t| >= 3 && (part + t)[..3] == c.ToString()
    ensures StartsLike(part, c)
  {
    if |part| <= 3 {
      assert part == c.ToString()[..|part|];
    } else {
      assert part[..3] == (part + t)[..3];
    }
  }

  /** Some code fits all lines of `s`. */
  ghost predicate CodesAgree(s: string) {
    exists c :: AgreesWith(s, c)
  }

  ghost predicate CanBecomeReply(s: string) {
    exists t :: ParseResponse(s + t).Ok?
  }

  ghost predicate CanBecomeMismatch(s: string) {
    exists t :: ParseResponse(s + t).Failure?
  }

  lemma AgreementDecides(lines: seq<(Code, string)>, part: string)
    requires NoCrlfIn(lines) && PartialLine(part)
    ensures CodesAgree(RenderContinuations(lines) + part) <==> exists c :: AllCodes(lines, c) && StartsLike(part, c)
  {
    var s := RenderContinuations(lines) + part;
    var c0: Code :| StartsLike(part, c0);
    PartialLineHasNoCrlf(part, c0);
    forall c
      ensures AgreesWith(s, c) <==> AllCodes(lines, c) && StartsLike(part, c)
    {
      AgreementOfShape(lines, part, c);
    }
  }

  /** Whenever the parser asks for more, more input can bring it to a verdict: to a reply if and only if
      the codes seen so far, complete and partial, agree, and otherwise to the failure for codes that differ. */
  lemma IncompleteIsNeverADeadEnd(s: string)
    requires ParseResponse(s).Incomplete?
    ensures CanBecomeReply(s) <==> CodesAgree(s)
    ensures !CodesAgree(s) ==> CanBecomeMismatch(s)
  {
    hide ParseResponse, CodesAgree, StartsLike;
    var lines, part := IncompleteShape(s);
    AgreementDecides(lines, part);
    if CodesAgree(s) {
      var c :| AllCodes(lines, c) && StartsLike(part, c);
      var t := CloseLine(lines, part, c);
      assert ParseResponse(s + t).Ok?;
    } else {
      var c0: Code :| StartsLike(part, c0);
      assert !AllCodes(lines, c0);
      var t := CloseLine(lines, part, c0);
      assert ParseResponse(s + t).Failure?;
      if u :| ParseResponse(s + u).Ok? {
        OkNeedsAgreement(lines, part, u);
      }
    }
  }
}
