/** Reply codes, replies, and the streaming reply parser. */
module Response {
  import opened Text
  import opened Nom

  datatype Severity =
    | PositiveCompletion
    | PositiveIntermediate
    | TransientNegativeCompletion
    | PermanentNegativeCompletion

  datatype Category = Syntax | Information | Connections | Unspecified3 | Unspecified4 | MailSystem

  datatype Detail = Zero | One | Two | Three | Four | Five | Six | Seven | Eight | Nine

  function SeverityChar(s: Severity): char {
    match s
    case PositiveCompletion => '2'
    case PositiveIntermediate => '3'
    case TransientNegativeCompletion => '4'
    case PermanentNegativeCompletion => '5'
  }

  function CategoryChar(c: Category): char {
    match c
    case Syntax => '0'
    case Information => '1'
    case Connections => '2'
    case Unspecified3 => '3'
    case Unspecified4 => '4'
    case MailSystem => '5'
  }

  function DetailChar(d: Detail): char {
    match d
    case Zero => '0'
    case One => '1'
    case Two => '2'
    case Three => '3'
    case Four => '4'
    case Five => '5'
    case Six => '6'
    case Seven => '7'
    case Eight => '8'
    case Nine => '9'
  }

  datatype Code = Code(severity: Severity, category: Category, detail: Detail)
  {
    function ToString(): string {
      [SeverityChar(severity), CategoryChar(category), DetailChar(detail)]
    }
  }

  datatype Response = Response(code: Code, message: seq<string>)
  {
    predicate IsPositive() {
      code.severity.PositiveCompletion? || code.severity.PositiveIntermediate?
    }

    predicate HasCode(n: nat) {
      code.ToString() == Dec(n)
    }

    function FirstWord(): Option<string> {
      if message == [] then None
      else
        var words := Words(message[0]);
        if words == [] then None else Some(words[0])
    }
  }

  // ---------- the parser ----------

  function ParseSeverity(i: string): IResult<Severity> {
    Alt(CharAs('2', PositiveCompletion, i),
    Alt(CharAs('3', PositiveIntermediate, i),
    Alt(CharAs('4', TransientNegativeCompletion, i),
        CharAs('5', PermanentNegativeCompletion, i))))
  }

  function ParseCategory(i: string): IResult<Category> {
    Alt(CharAs('0', Syntax, i),
    Alt(CharAs('1', Information, i),
    Alt(CharAs('2', Connections, i),
    Alt(CharAs('3', Unspecified3, i),
    Alt(CharAs('4', Unspecified4, i),
        CharAs('5', MailSystem, i))))))
  }

  function ParseDetail(i: string): IResult<Detail> {
    Alt(CharAs('0', Zero, i),
    Alt(CharAs('1', One, i),
    Alt(CharAs('2', Two, i),
    Alt(CharAs('3', Three, i),
    Alt(CharAs('4', Four, i),
    Alt(CharAs('5', Five, i),
    Alt(CharAs('6', Six, i),
    Alt(CharAs('7', Seven, i),
    Alt(CharAs('8', Eight, i),
        CharAs('9', Nine, i))))))))))
  }

  function ParseCode(i: string): IResult<Code> {
    var (i, severity) :- ParseSeverity(i);
    var (i, category) :- ParseCategory(i);
    var (i, detail) :- ParseDetail(i);
    Ok(i, Code(severity, category, detail))
  }

  /** A line that is not the last one: code, `-`, text, CRLF. */
  function ContinuationLine(i: string): IResult<(Code, string)> {
    var (i, code) :- ParseCode(i);
    var (i, _) :- Tag("-", i);
    var (i, text) :- TakeUntilCrlf(i);
    var (i, _) :- Tag(CRLF, i);
    Ok(i, (code, text))
  }

  /** The last line up to its CRLF: code, space, text. */
  function LastLine(i: string): IResult<(Code, string)> {
    var (i, code) :- ParseCode(i);
    var (i, _) :- Tag(" ", i);
    var (i, text) :- TakeUntilCrlf(i);
    Ok(i, (code, text))
  }

  predicate AllCodes(lines: seq<(Code, string)>, code: Code) {
    forall k :: 0 <= k < |lines| ==> lines[k].0 == code
  }

  function Texts(lines: seq<(Code, string)>): seq<string> {
    if lines == [] then [] else [lines[0].1] + Texts(lines[1..])
  }

  function ParseResponse(i: string): IResult<Response> {
    var (i, lines) :- Many0(ContinuationLine)(i);
    var (i, last) :- LastLine(i);
    var (i, _) :- Complete(Tag(CRLF, i));
    if AllCodes(lines, last.0) then Ok(i, Response(last.0, Texts(lines) + [last.1])) else Failure
  }
}
