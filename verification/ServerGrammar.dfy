/** The server's side of MAIL, RCPT and DATA (section 3.3 of RFC 5321), as a parser of the bytes received. */
module ServerGrammar {
  import opened Text
  import opened Extension
  import opened Commands
  import opened Transparency
  import XText

  datatype Parameter = Parameter(keyword: string, value: Option<string>)

  datatype Recipient = Recipient(address: string, parameters: seq<Parameter>)

  datatype Transaction = Transaction(
    sender: string,
    parameters: seq<Parameter>,
    recipients: seq<Recipient>,
    data: string)

  function Find(s: string, c: char): (r: Option<nat>)
    ensures r.Some? ==> r.value < |s| && s[r.value] == c && c !in s[..r.value]
    ensures r.None? ==> c !in s
  {
    if s == "" then None
    else if s[0] == c then Some(0)
    else
      match Find(s[1..], c)
      case None => None
      case Some(k) => Some(k + 1)
  }

  function ParseParameter(word: string): Option<Parameter> {
    match Find(word, '=')
    case None => Some(Parameter(word, None))
    case Some(k) =>
      match XText.Decode(word[k + 1..])
      case None => None
      case Some(value) => Some(Parameter(word[..k], Some(value)))
  }

  /** Words, each with a space before it. */
  function ParseParameters(s: string): Option<seq<Parameter>>
    decreases |s|
  {
    if s == "" then Some([])
    else if s[0] != ' ' then None
    else
      var end := match Find(s[1..], ' ') case None => |s| case Some(k) => k + 1;
      match (ParseParameter(s[1..end]), ParseParameters(s[end..]))
      case (Some(p), Some(more)) => Some([p] + more)
      case _ => None
  }

  /** The command word, an address in angle brackets, and parameters. */
  function ParsePath(line: string, command: string): Option<Recipient> {
    if !(command + "<" <= line) then None
    else
      var text := line[|command| + 1..];
      match Find(text, '>')
      case None => None
      case Some(k) =>
        match ParseParameters(text[k + 1..])
        case None => None
        case Some(parameters) => Some(Recipient(text[..k], parameters))
  }

  /** RCPT commands up to DATA; what follows is mail data. */
  function ParseRecipients(wire: string): Option<(seq<Recipient>, string)>
    decreases |wire|
  {
    match FindCrlf(wire)
    case None => None
    case Some(k) =>
      if wire[..k] == "DATA" then Some(([], wire[k + 2..]))
      else
        match (ParsePath(wire[..k], "RCPT TO:"), ParseRecipients(wire[k + 2..]))
        case (Some(r), Some((more, rest))) => Some(([r] + more, rest))
        case _ => None
  }

  /** One transaction off the wire, and what comes after it. DATA without a recipient is no transaction. */
  function ParseTransaction(wire: string): Option<(Transaction, string)> {
    match FindCrlf(wire)
    case None => None
    case Some(k) =>
      match (ParsePath(wire[..k], "MAIL FROM:"), ParseRecipients(wire[k + 2..]))
      case (Some(mail), Some((recipients, rest))) =>
        if recipients == [] then None
        else
          (match Receive(rest)
           case None => None
           case Some((data, after)) => Some((Transaction(mail.address, mail.parameters, recipients, data), after)))
      case _ => None
  }

  // ---------- parameters ----------

  /** A keyword that can be told apart from its neighbours on the wire. */
  predicate GoodKeyword(keyword: string) {
    ' ' !in keyword && '=' !in keyword && '\r' !in keyword && '\n' !in keyword
  }

  predicate GoodParameter(p: MailParameter) {
    p.Other? ==> GoodKeyword(p.keyword)
  }

  predicate GoodParameters(parameters: seq<MailParameter>) {
    forall k :: 0 <= k < |parameters| ==> GoodParameter(parameters[k])
  }

  /** A value, if there is one, that xtext carries. */
  predicate GoodValue(p: MailParameter) {
    p.Other? && p.value.Some? ==> XText.Recoverable(p.value.value)
  }

  function Meaning(p: MailParameter): Parameter {
    match p
    case Body(SevenBit) => Parameter("BODY", Some("7BIT"))
    case Body(EightBitMime) => Parameter("BODY", Some("8BITMIME"))
    case Size(size) => Parameter("SIZE", Some(Dec(size)))
    case SmtpUtfEight => Parameter("SMTPUTF8", None)
    case Other(keyword, value) => Parameter(keyword, value)
  }

  function Meanings(parameters: seq<MailParameter>): seq<Parameter> {
    if parameters == [] then [] else [Meaning(parameters[0])] + Meanings(parameters[1..])
  }

  lemma FindIs(s: string, c: char, k: nat)
    requires k < |s| && s[k] == c && c !in s[..k]
    ensures Find(s, c) == Some(k)
  {
    assert s[k] in s;
    var j := Find(s, c).value;
    assert forall i :: 0 <= i < k ==> s[..k][i] == s[i];
    assert forall i :: 0 <= i < j ==> s[..j][i] == s[i];
  }

  /** Text in which nothing is escaped decodes to itself. */
  lemma {:induction false} DecodePlain(s: string)
    requires forall k :: 0 <= k < |s| ==> XText.IsXchar(s[k])
    ensures XText.Decode(s) == Some(s)
  {
    if s == "" {
    } else {
      DecodePlain(s[1..]);
      assert s == [s[0]] + s[1..];
    }
  }

  lemma KeywordAndValue(keyword: string, value: string)
    requires '=' !in keyword
    ensures ParseParameter(keyword + "=" + value)
         == match XText.Decode(value) case None => None case Some(v) => Some(Parameter(keyword, Some(v)))
  {
    var s := keyword + "=" + value;
    assert s[..|keyword|] == keyword && s[|keyword|] == '=' && s[|keyword| + 1..] == value;
    FindIs(s, '=', |keyword|);
  }

  lemma PlainValue(keyword: string, value: string)
    requires '=' !in keyword
    requires forall k :: 0 <= k < |value| ==> XText.IsXchar(value[k])
    ensures ParseParameter(keyword + "=" + value) == Some(Parameter(keyword, Some(value)))
  {
    hide XText.Decode;
    KeywordAndValue(keyword, value);
    DecodePlain(value);
  }

  lemma NoEquals(keyword: string)
    requires '=' !in keyword
    ensures ParseParameter(keyword) == Some(Parameter(keyword, None))
  {
    assert Find(keyword, '=').Some? ==> '=' in keyword;
  }

  lemma ParameterClean(p: MailParameter)
    requires GoodParameter(p)
    ensures forall c :: c in p.ToString() ==> c != ' ' && c != '\r' && c != '\n'
  {
    match p
    case Other(keyword, Some(value)) =>
      hide XText.Encode;
      XText.EncodedChars(value);
    case _ =>
  }

  lemma PlainParameter(p: MailParameter, keyword: string, value: string)
    requires p.ToString() == keyword + "=" + value && Meaning(p) == Parameter(keyword, Some(value))
    requires '=' !in keyword && forall c :: c in value ==> XText.IsXchar(c)
    ensures ParseParameter(p.ToString()) == Some(Meaning(p))
  {
    hide ParseParameter, MailParameter.ToString, Meaning;
    assert forall k :: 0 <= k < |value| ==> value[k] in value;
    PlainValue(keyword, value);
  }

  /** The parse of a printed parameter is its meaning if and only if its value is well-behaved. */
  lemma ParameterRoundTrip(p: MailParameter)
    requires GoodParameter(p)
    ensures ParseParameter(p.ToString()) == Some(Meaning(p)) <==> GoodValue(p)
  {
    hide XText.Encode, XText.Decode, XText.Recoverable, ParseParameter;
    match p
    case Body(body) =>
      assert "BODY" + "=" == "BODY=";
      PlainParameter(p, "BODY", body.ToString());
    case Size(size) =>
      assert "SIZE" + "=" == "SIZE=";
      PlainParameter(p, "SIZE", Dec(size));
    case SmtpUtfEight =>
      NoEquals("SMTPUTF8");
    case Other(keyword, None) =>
      NoEquals(keyword);
    case Other(keyword, Some(value)) =>
      KeywordAndValue(keyword, XText.Encode(value));
      XText.RoundTrip(value);
  }

  lemma ParametersStep(word: string, rest: string)
    requires ' ' !in word && (rest == "" || rest[0] == ' ')
    ensures ParseParameters(" " + word + rest)
         == match (ParseParameter(word), ParseParameters(rest))
            case (Some(p), Some(more)) => Some([p] + more)
            case _ => None
  {
    hide ParseParameter;
    var s := " " + word + rest;
    assert s[1..] == word + rest;
    if rest == "" {
      assert word + rest == word;
    } else {
      assert (word + rest)[..|word|] == word;
      FindIs(word + rest, ' ', |word|);
    }
    assert s[1..|word| + 1] == word && s[|word| + 1..] == rest;
  }

  predicate GoodValues(parameters: seq<MailParameter>) {
    forall k :: 0 <= k < |parameters| ==> GoodValue(parameters[k])
  }

  lemma GoodValuesCons(parameters: seq<MailParameter>)
    requires parameters != []
    ensures GoodValues(parameters) <==> GoodValue(parameters[0]) && GoodValues(parameters[1..])
  {
    hide GoodValue;
    assert forall k :: 0 < k < |parameters| ==> parameters[k] == parameters[1..][k - 1];
  }

  /** A printed list of parameters parses back to what it means if and only if xtext carries
      every value. */
  lemma {:induction false} ParametersRoundTrip(parameters: seq<MailParameter>)
    requires GoodParameters(parameters)
    ensures ParseParameters(ParametersText(parameters)) == Some(Meanings(parameters)) <==> GoodValues(parameters)
  {
    if parameters == [] {
    } else {
      hide GoodValue, GoodValues, Meaning, MailParameter.ToString, ParseParameter, ParseParameters;
      var p, more := parameters[0], parameters[1..];
      assert GoodParameter(p);
      ParameterRoundTrip(p);
      ParameterClean(p);
      ParametersRoundTrip(more);
      assert more != [] ==> ParametersText(more)[0] == ' ';
      hide ParametersText;
      ParametersStep(p.ToString(), ParametersText(more));
      GoodValuesCons(parameters);
      ConsEqual(ParseParameter(p.ToString()), Meaning(p), ParseParameters(ParametersText(more)), Meanings(more));
    }
  }

  lemma {:induction false} ParametersTextClean(parameters: seq<MailParameter>)
    requires GoodParameters(parameters)
    ensures '\r' !in ParametersText(parameters)
  {
    if parameters == [] {
    } else {
      hide MailParameter.ToString;
      assert GoodParameter(parameters[0]);
      ParameterClean(parameters[0]);
      ParametersTextClean(parameters[1..]);
    }
  }

  lemma ConsEqual<T>(p: Option<T>, q: T, ps: Option<seq<T>>, qs: seq<T>)
    ensures (match (p, ps) case (Some(x), Some(xs)) => Some([x] + xs) case _ => None) == Some([q] + qs)
       <==> p == Some(q) && ps == Some(qs)
  {
    if p.Some? && ps.Some? {
      assert ([p.value] + ps.value)[0] == p.value && ([p.value] + ps.value)[1..] == ps.value;
      assert ([q] + qs)[0] == q && ([q] + qs)[1..] == qs;
    }
  }
}
