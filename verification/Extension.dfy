/** ESMTP features of the server and the parameters of MAIL and RCPT. */
module Extension {
  import opened Text
  import opened Errors
  import opened Response
  import opened Authentication
  import XText

  /** Text put after EHLO; addresses are given by their own text. */
  datatype ClientId = Domain(name: string) | Ipv4(address: string) | Ipv6(address: string)
  {
    function ToString(): string {
      match this
      case Domain(name) => name
      case Ipv4(address) => "[" + address + "]"
      case Ipv6(address) => "[IPv6:" + address + "]"
    }
  }

  datatype Extension = Pipelining | EightBitMime | SmtpUtfEight | StartTls | Authentication(mechanism: Mechanism)
  {
    /** How the feature is printed, which is also a line that offers it and nothing else. */
    function ToString(): string {
      match this
      case Pipelining => "PIPELINING"
      case EightBitMime => "8BITMIME"
      case SmtpUtfEight => "SMTPUTF8"
      case StartTls => "STARTTLS"
      case Authentication(m) => "AUTH " + m.ToString()
    }
  }

  datatype ServerInfo = ServerInfo(name: string, features: set<Extension>)
  {
    predicate SupportsFeature(keyword: Extension) {
      keyword in features
    }

    predicate SupportsAuthMechanism(mechanism: Mechanism) {
      Authentication(mechanism) in features
    }
  }

  // ---------- features ----------

  /** The words of a line offer a feature: the first one is the keyword, for AUTH with the mechanism among the others. */
  predicate WordsOffer(words: seq<string>, e: Extension) {
    words != [] &&
    match e
    case Pipelining => words[0] == "PIPELINING"
    case EightBitMime => words[0] == "8BITMIME"
    case SmtpUtfEight => words[0] == "SMTPUTF8"
    case StartTls => words[0] == "STARTTLS"
    case Authentication(m) => words[0] == "AUTH" && m.ToString() in words[1..]
  }

  predicate Offers(line: string, e: Extension) {
    WordsOffer(Words(line), e)
  }

  predicate OfferedBy(lines: seq<string>, e: Extension) {
    exists k :: 0 <= k < |lines| && Offers(lines[k], e)
  }

  /** Exactly the features some line offers. */
  ghost predicate AreFeaturesOf(features: set<Extension>, lines: seq<string>) {
    forall e :: e in features <==> OfferedBy(lines, e)
  }

  function MechanismNamed(word: string): Option<Mechanism> {
    if word == "PLAIN" then Some(Plain)
    else if word == "LOGIN" then Some(Login)
    else if word == "XOAUTH2" then Some(Xoauth2)
    else None
  }

  lemma MechanismNames(word: string, m: Mechanism)
    ensures MechanismNamed(word) == Some(m) <==> m.ToString() == word
  {
  }

  /** Adds the features of one EHLO line. */
  method AddFeatures(line: string, features: set<Extension>) returns (all: set<Extension>)
    ensures forall e :: e in all <==> e in features || Offers(line, e)
  {
    all := features;
    var split := Words(line);
    if split == [] {
      return;
    }
    match split[0] {
      case "PIPELINING" => all := all + {Pipelining};
      case "8BITMIME" => all := all + {Extension.EightBitMime};
      case "SMTPUTF8" => all := all + {Extension.SmtpUtfEight};
      case "STARTTLS" => all := all + {StartTls};
      case "AUTH" =>
        for k := 1 to |split|
          invariant forall e :: e in all <==>
            e in features || (e.Authentication? && e.mechanism.ToString() in split[1..k])
        {
          assert split[1..k + 1] == split[1..k] + [split[k]];
          forall m
            ensures MechanismNamed(split[k]) == Some(m) <==> m.ToString() == split[k]
          {
            MechanismNames(split[k], m);
          }
          match MechanismNamed(split[k]) {
            case Some(m) => all := all + {Authentication(m)};
            case None =>
          }
        }
        assert split[1..|split|] == split[1..];
      case _ =>
    }
  }

  /** Reads the server's name and features off its EHLO reply. */
  method ServerInfoFromResponse(response: Response) returns (r: Result<ServerInfo>)
    ensures r.Failure? <==> response.FirstWord().None?
    ensures r.Failure? ==> r.error == ResponseParsing("Could not read server name")
    ensures r.Success? ==> Some(r.value.name) == response.FirstWord()
    ensures r.Success? ==> AreFeaturesOf(r.value.features, response.message)
  {
    var name := response.FirstWord();
    if name.None? {
      return Failure(ResponseParsing("Could not read server name"));
    }
    var features: set<Extension> := {};
    for k := 0 to |response.message|
      invariant AreFeaturesOf(features, response.message[..k])
    {
      var line := response.message[k];
      OfferedSnoc(response.message, k);
      if |line| == 0 {
        continue;
      }
      features := AddFeatures(line, features);
    }
    assert response.message[..|response.message|] == response.message;
    return Success(ServerInfo(name.value, features));
  }

  lemma OfferedSnoc(lines: seq<string>, k: nat)
    requires k < |lines|
    ensures forall e :: OfferedBy(lines[..k + 1], e) <==> OfferedBy(lines[..k], e) || Offers(lines[k], e)
  {
    forall e
      ensures OfferedBy(lines[..k + 1], e) <==> OfferedBy(lines[..k], e) || Offers(lines[k], e)
    {
      if OfferedBy(lines[..k], e) {
        var j :| 0 <= j < k && Offers(lines[j], e);
        assert Offers(lines[..k + 1][j], e);
      }
      if Offers(lines[k], e) {
        assert Offers(lines[..k + 1][k], e);
      }
      if OfferedBy(lines[..k + 1], e) && !Offers(lines[k], e) {
        var j :| 0 <= j < k + 1 && Offers(lines[..k + 1][j], e);
        assert Offers(lines[..k][j], e);
      }
    }
  }

  /** Order and repetition of the lines after the first make no difference to what is read off a reply. */
  lemma FeaturesIgnoreLineOrder(a: ServerInfo, b: ServerInfo, r: Response, s: Response)
    requires |r.message| > 0 && |s.message| > 0 && r.message[0] == s.message[0]
    requires forall l :: l in r.message[1..] <==> l in s.message[1..]
    requires Some(a.name) == r.FirstWord() && AreFeaturesOf(a.features, r.message)
    requires Some(b.name) == s.FirstWord() && AreFeaturesOf(b.features, s.message)
    ensures a == b
  {
    forall l
      ensures l in r.message <==> l in s.message
    {
      assert r.message == [r.message[0]] + r.message[1..] && s.message == [s.message[0]] + s.message[1..];
    }
    assert a.features == b.features by {
      hide Offers;
      forall e
        ensures e in a.features <==> e in b.features
      {
        OfferedTransfer(r.message, s.message, e);
        OfferedTransfer(s.message, r.message, e);
      }
    }
  }

  lemma OfferedTransfer(lines: seq<string>, lines': seq<string>, e: Extension)
    requires forall l :: l in lines ==> l in lines'
    ensures OfferedBy(lines, e) ==> OfferedBy(lines', e)
  {
    if OfferedBy(lines, e) {
      var k :| 0 <= k < |lines| && Offers(lines[k], e);
      assert lines[k] in lines';
      var j :| 0 <= j < |lines'| && lines'[j] == lines[k];
      assert Offers(lines'[j], e);
    }
  }

  // ---------- replies as they are written ----------

  lemma PrintableWord(s: string)
    requires s != "" && forall k :: 0 <= k < |s| ==> '!' <= s[k] <= '~'
    ensures IsWord(s)
  {
    forall k | 0 <= k < |s|
      ensures !IsWhitespace(s[k])
    {
      WhitespaceIs(s[k]);
    }
  }

  lemma OneWord(word: string)
    requires IsWord(word)
    ensures Words(word) == [word]
  {
    WordAlone(word);
    WordsOfSpaced([word], ["", ""]);
  }

  lemma WordInFront(first: string, rest: string)
    requires IsWord(first)
    ensures Words(first + " " + rest) == [first] + Words(rest)
  {
    hide IsWhitespace;
    WhitespaceIs(' ');
    WordsOfChunk("", first, " " + rest);
    WordsBehindBlank(" ", rest);
    assert "" + (first + (" " + rest)) == first + " " + rest;
  }

  /** A printed feature offers that feature and no other. */
  lemma KeywordRoundTrip(e: Extension, other: Extension)
    ensures Offers(e.ToString(), other) <==> e == other
  {
    hide IsWord, Words;
    match e
    case Authentication(m) =>
      PrintableWord("AUTH");
      PrintableWord(m.ToString());
      OneWord(m.ToString());
      WordInFront("AUTH", m.ToString());
      assert e.ToString() == "AUTH" + " " + m.ToString();
      if other.Authentication? {
        MechanismNames(m.ToString(), m);
        MechanismNames(m.ToString(), other.mechanism);
      }
      assert ["AUTH", m.ToString()][1..] == [m.ToString()];
    case _ =>
      PrintableWord(e.ToString());
      OneWord(e.ToString());
  }

  /** The name and the features of a reply whose lines are given by their words, however these are spaced. */
  lemma EhloReplyRead(r: Response, words: seq<seq<string>>, gaps: seq<seq<string>>, features: set<Extension>)
    requires |words| == |gaps| == |r.message| > 0
    requires forall k :: 0 <= k < |words| ==> IsSpacing(words[k], gaps[k]) && r.message[k] == Spaced(words[k], gaps[k])
    requires AreFeaturesOf(features, r.message)
    ensures r.FirstWord() == if words[0] == [] then None else Some(words[0][0])
    ensures forall e :: e in features <==> exists k :: 0 <= k < |words| && WordsOffer(words[k], e)
  {
    hide WordsOffer, IsSpacing, Spaced, Words;
    forall k | 0 <= k < |words|
      ensures Words(r.message[k]) == words[k]
    {
      WordsOfSpaced(words[k], gaps[k]);
    }
    forall e
      ensures OfferedBy(r.message, e) <==> exists k :: 0 <= k < |words| && WordsOffer(words[k], e)
    {
      if k :| 0 <= k < |words| && WordsOffer(words[k], e) {
        assert Offers(r.message[k], e);
      }
      if k :| 0 <= k < |r.message| && Offers(r.message[k], e) {
        assert WordsOffer(words[k], e);
      }
    }
  }

  lemma WordAlone(word: string)
    requires IsWord(word)
    ensures IsSpacing([word], ["", ""]) && Spaced([word], ["", ""]) == word
  {
    assert "" + word + "" == word;
  }

  lemma AuthWords()
    ensures IsWord("AUTH") && IsWord("PLAIN") && IsWord("LOGIN")
  {
    hide IsWord;
    PrintableWord("AUTH");
    PrintableWord("PLAIN");
    PrintableWord("LOGIN");
  }

  lemma AuthLineWords()
    ensures Words("AUTH PLAIN LOGIN") == ["AUTH", "PLAIN", "LOGIN"]
  {
    hide IsWord, Words;
    AuthWords();
    OneWord("LOGIN");
    WordInFront("PLAIN", "LOGIN");
    WordInFront("AUTH", "PLAIN" + " " + "LOGIN");
    assert "AUTH" + " " + ("PLAIN" + " " + "LOGIN") == "AUTH PLAIN LOGIN";
  }

  lemma AuthLineExample(e: Extension)
    ensures Offers("AUTH PLAIN LOGIN", e) <==> e == Authentication(Plain) || e == Authentication(Login)
  {
    AuthLineWords();
    hide Words;
    assert ["AUTH", "PLAIN", "LOGIN"][1..] == ["PLAIN", "LOGIN"];
  }

  /** An ordinary reply. */
  lemma EhloExample(code: Code, features: set<Extension>)
    requires AreFeaturesOf(features, ["mx.example.org", "8BITMIME", "AUTH PLAIN LOGIN"])
    ensures Response(code, ["mx.example.org", "8BITMIME", "AUTH PLAIN LOGIN"]).FirstWord() == Some("mx.example.org")
    ensures features == {Extension.EightBitMime, Authentication(Plain), Authentication(Login)}
  {
    PrintableWord("mx.example.org");
    OneWord("mx.example.org");
    hide IsWord, Words;
    var lines := ["mx.example.org", "8BITMIME", "AUTH PLAIN LOGIN"];
    forall e
      ensures OfferedBy(lines, e) <==> e in {Extension.EightBitMime, Authentication(Plain), Authentication(Login)}
    {
      assert !Offers(lines[0], e);
      hide Offers;
      KeywordRoundTrip(Extension.EightBitMime, e);
      AuthLineExample(e);
      assert Offers(lines[1], e) ==> OfferedBy(lines, e);
      assert Offers(lines[2], e) ==> OfferedBy(lines, e);
    }
  }

  /** The first of the accepted mechanisms that is among the features of the server. */
  function ChooseMechanism(info: ServerInfo, accepted: seq<Mechanism>): (r: Option<Mechanism>)
    ensures r.None? ==> forall k :: 0 <= k < |accepted| ==> Authentication(accepted[k]) !in info.features
    ensures r.Some? ==>
              exists k :: 0 <= k < |accepted| && accepted[k] == r.value && Authentication(accepted[k]) in info.features
                && forall j :: 0 <= j < k ==> Authentication(accepted[j]) !in info.features
  {
    if accepted == [] then None
    else if info.SupportsAuthMechanism(accepted[0]) then Some(accepted[0])
    else
      assert forall k :: 0 <= k < |accepted[1..]| ==> accepted[1..][k] == accepted[k + 1];
      ChooseMechanism(info, accepted[1..])
  }

  // ---------- parameters ----------

  datatype MailBodyParameter = SevenBit | EightBitMime
  {
    function ToString(): string {
      match this
      case SevenBit => "7BIT"
      case EightBitMime => "8BITMIME"
    }
  }

  /** Parameters of MAIL; RCPT has the last kind only. */
  datatype MailParameter =
    | Body(body: MailBodyParameter)
    | Size(size: nat)
    | SmtpUtfEight
    | Other(keyword: string, value: Option<string>)
  {
    function ToString(): string {
      match this
      case Body(body) => "BODY=" + body.ToString()
      case Size(size) => "SIZE=" + Dec(size)
      case SmtpUtfEight => "SMTPUTF8"
      case Other(keyword, Some(value)) => keyword + "=" + XText.Encode(value)
      case Other(keyword, None) => keyword
    }

    method Format() returns (f: string)
      ensures f == ToString()
    {
      match this
      case Body(body) => f := "BODY=" + body.ToString();
      case Size(size) => f := "SIZE=" + Dec(size);
      case SmtpUtfEight => f := "SMTPUTF8";
      case Other(keyword, Some(value)) =>
        var x := XText.Format(value);
        f := keyword + "=" + x;
      case Other(keyword, None) => f := keyword;
    }
  }

  type RcptParameter = p: MailParameter | p.Other? witness Other("", None)
}
