/** The xtext encoding of section 4 of RFC 3461. */
module XText {
  import opened Text

  /** Characters written as `+` and their number in hexadecimal. */
  predicate IsEscaped(c: char) {
    c < '!' || c == '+' || c == '='
  }

  function HexDigit(n: nat): char
    requires n < 16
  {
    "0123456789ABCDEF"[n]
  }

  /** Upper-case hexadecimal digits of one byte, not padded. */
  function Hex(n: nat): string
    requires n < 256
  {
    if n < 16 then [HexDigit(n)] else [HexDigit(n / 16), HexDigit(n % 16)]
  }

  function EncodeChar(c: char): string {
    if IsEscaped(c) then "+" + Hex(c as int % 256) else [c]
  }

  function Encode(s: string): string {
    if s == "" then "" else EncodeChar(s[0]) + Encode(s[1..])
  }

  function FindEscaped(s: string): (r: Option<nat>)
    ensures r.Some? ==> r.value < |s| && IsEscaped(s[r.value]) && forall k :: 0 <= k < r.value ==> !IsEscaped(s[k])
    ensures r.None? ==> forall k :: 0 <= k < |s| ==> !IsEscaped(s[k])
  {
    if s == "" then None
    else if IsEscaped(s[0]) then Some(0)
    else
      match FindEscaped(s[1..])
      case None => None
      case Some(k) => Some(k + 1)
  }

  lemma {:induction false} EncodePlain(plain: string, s: string)
    requires forall k :: 0 <= k < |plain| ==> !IsEscaped(plain[k])
    ensures Encode(plain + s) == plain + Encode(s)
  {
    if plain == "" {
      assert plain + s == s;
    } else {
      assert (plain + s)[0] == plain[0] && (plain + s)[1..] == plain[1..] + s;
      assert EncodeChar(plain[0]) == [plain[0]];
      hide EncodeChar;
      EncodePlain(plain[1..], s);
      assert plain == [plain[0]] + plain[1..];
    }
  }

  lemma EncodeJump(s: string, idx: nat)
    requires FindEscaped(s) == Some(idx)
    ensures Encode(s) == s[..idx] + ("+" + Hex(s[idx] as int % 256)) + Encode(s[idx..][1..])
  {
    assert s == s[..idx] + s[idx..];
    EncodePlain(s[..idx], s[idx..]);
  }

  lemma Regroup(before: string, start: string, escape: string, more: string)
    ensures before + (start + escape + more) == before + start + escape + more
  {
  }

  /** The printing loop jumps from one escaped character to the next; it prints the per-character encoding. */
  method Format(text: string) returns (f: string)
    ensures f == Encode(text)
  {
    hide Hex, EncodeChar;
    f := "";
    var rest := text;
    while FindEscaped(rest).Some?
      invariant f + Encode(rest) == Encode(text)
      decreases |rest|
    {
      var idx := FindEscaped(rest).value;
      var start, end := rest[..idx], rest[idx..];
      EncodeJump(rest, idx);
      ghost var before := f;
      f := f + start;
      var c := end[0];
      f := f + "+" + Hex(c as int % 256);
      Regroup(before, start, "+" + Hex(c as int % 256), Encode(end[1..]));
      assert f == before + start + ("+" + Hex(c as int % 256));
      if |end| > 1 {
        rest := end[1..];
      } else {
        assert end[1..] == "";
        rest := "";
      }
    }
    EncodePlain(rest, "");
    assert rest + "" == rest;
    assert Encode("") == "" && Encode(rest) == rest;
    f := f + rest;
  }

  // ---------- the receiving side ----------

  predicate IsHexDigit(c: char) {
    '0' <= c <= '9' || 'A' <= c <= 'F'
  }

  function HexValue(c: char): (n: nat)
    requires IsHexDigit(c)
    ensures n < 16
  {
    if c <= '9' then c as int - '0' as int else c as int - 'A' as int + 10
  }

  /** A character that may stand for itself. */
  predicate IsXchar(c: char) {
    '!' <= c <= '~' && c != '+' && c != '='
  }

  /** Characters that stand for themselves, and `+` followed by two upper-case hexadecimal digits. */
  function Decode(s: string): Option<string> {
    if s == "" then Some("")
    else if s[0] == '+' then
      if |s| >= 3 && IsHexDigit(s[1]) && IsHexDigit(s[2]) then
        match Decode(s[3..])
        case None => None
        case Some(t) => Some([(16 * HexValue(s[1]) + HexValue(s[2])) as char] + t)
      else None
    else if !IsXchar(s[0]) then None
    else
      match Decode(s[1..])
      case None => None
      case Some(t) => Some([s[0]] + t)
  }

  /** The characters that the client escapes with two digits and those that may stand for themselves. */
  predicate IsRecoverable(c: char) {
    c as int >= 16 && c <= '~'
  }

  predicate Recoverable(s: string) {
    forall k :: 0 <= k < |s| ==> IsRecoverable(s[k])
  }

  lemma HexRoundTrip(n: nat)
    requires n < 256
    ensures forall c :: c in Hex(n) ==> IsHexDigit(c)
    ensures n >= 16 ==> |Hex(n)| == 2 && 16 * HexValue(Hex(n)[0]) + HexValue(Hex(n)[1]) == n
    ensures n < 16 ==> |Hex(n)| == 1 && HexValue(Hex(n)[0]) == n
  {
    HexDigitValue(n / 16);
    HexDigitValue(n % 16);
  }

  lemma HexDigitValue(n: nat)
    requires n < 16
    ensures IsHexDigit(HexDigit(n)) && HexValue(HexDigit(n)) == n
  {
  }

  /** An encoding that starts with a hexadecimal digit starts with a character sent as itself. */
  lemma PlainHead(s: string)
    requires Encode(s) != "" && IsHexDigit(Encode(s)[0])
    ensures s != "" && !IsEscaped(s[0]) && IsHexDigit(s[0]) && Encode(s)[1..] == Encode(s[1..])
  {
    assert s != "";
  }

  lemma EscapedText(c: char)
    requires IsEscaped(c)
    ensures c as int < 256 && EncodeChar(c) == "+" + Hex(c as int)
  {
    hide Hex;
  }

  /** One round of the decoder on an escape. */
  lemma DecodeEscape(a: char, b: char, e: string)
    ensures Decode(['+', a, b] + e)
         == if !(IsHexDigit(a) && IsHexDigit(b)) then None
            else match Decode(e) case None => None case Some(t) => Some([(16 * HexValue(a) + HexValue(b)) as char] + t)
    ensures Decode(['+', a]) == None
  {
    var s := ['+', a, b] + e;
    assert s[0] == '+' && s[1] == a && s[2] == b && s[3..] == e;
  }

  /** What the decoder makes of one more character in front: the character, if it was sent as itself or with two digits. */
  lemma DecodeFirst(c: char, e: string)
    requires IsRecoverable(c)
    ensures Decode(EncodeChar(c) + e) == match Decode(e) case None => None case Some(t) => Some([c] + t)
  {
    if IsEscaped(c) {
      EscapedText(c);
      HexRoundTrip(c as int);
      var hex := Hex(c as int);
      hide Decode, Hex, HexValue, IsHexDigit, EncodeChar;
      DecodeEscape(hex[0], hex[1], e);
      assert EncodeChar(c) + e == ['+', hex[0], hex[1]] + e;
      assert hex[0] in hex && hex[1] in hex;
    } else {
      assert ([c] + e)[1..] == e;
    }
  }

  /** A character above `~` is sent as itself, which the decoder refuses. */
  lemma DecodeHigh(c: char, e: string)
    requires c > '~'
    ensures Decode(EncodeChar(c) + e) == None
  {
    assert ([c] + e)[0] == c;
  }

  /** A character below U+0010 is written with a single digit. */
  lemma LowEscape(c: char) returns (digit: char)
    requires c as int < 16
    ensures EncodeChar(c) == ['+', digit] && IsHexDigit(digit) && HexValue(digit) == c as int
  {
    EscapedText(c);
    HexRoundTrip(c as int);
    hide HexValue, IsHexDigit, EncodeChar, IsEscaped;
    digit := Hex(c as int)[0];
    assert digit in Hex(c as int);
  }

  /** After a single digit the decoder takes a second one from what follows, or gives up. */
  lemma DecodeMisread(c: char, e: string)
    requires c as int < 16
    ensures var r := Decode(EncodeChar(c) + e);
            if e != "" && IsHexDigit(e[0]) then
              r.Some? ==> Decode(e[1..]).Some? && |r.value| == 1 + |Decode(e[1..]).value|
            else r.None?
  {
    hide Decode, HexValue, IsHexDigit, EncodeChar, IsEscaped;
    var digit := LowEscape(c);
    if e == "" {
      DecodeEscape(digit, '0', e);
      assert EncodeChar(c) + e == ['+', digit];
    } else {
      DecodeEscape(digit, e[0], e[1..]);
      assert EncodeChar(c) + e == ['+', digit, e[0]] + e[1..];
    }
  }

  /** One character more in front of an encoded text: it is read, or the text is refused or has a character less than it
      should when decoded. */
  lemma Step(c: char, t: string)
    ensures var r := Decode(EncodeChar(c) + Encode(t));
            if IsRecoverable(c) then
              r == match Decode(Encode(t)) case None => None case Some(u) => Some([c] + u)
            else
              r.Some? ==> t != "" && Decode(Encode(t[1..])).Some? && |r.value| == 1 + |Decode(Encode(t[1..])).value|
  {
    hide Decode, EncodeChar, IsHexDigit;
    if IsRecoverable(c) {
      DecodeFirst(c, Encode(t));
    } else if c > '~' {
      DecodeHigh(c, Encode(t));
    } else {
      DecodeMisread(c, Encode(t));
      if Encode(t) != "" && IsHexDigit(Encode(t)[0]) {
        PlainHead(t);
      }
    }
  }

  /** A decoded text has no more characters than the one encoded, even where the decoder misreads. */
  lemma {:induction false} DecodeNotLonger(s: string)
    ensures Decode(Encode(s)).Some? ==> |Decode(Encode(s)).value| <= |s|
    decreases |s|
  {
    if s == "" {
    } else {
      hide Decode, EncodeChar;
      assert Encode(s) == EncodeChar(s[0]) + Encode(s[1..]);
      Step(s[0], s[1..]);
      hide Encode;
      DecodeNotLonger(s[1..]);
      if |s| > 1 {
        DecodeNotLonger(s[1..][1..]);
      }
    }
  }

  /** The decoder gives back the text if and only if every character of it is from U+0010 to `~`. */
  lemma {:induction false} RoundTrip(s: string)
    ensures Decode(Encode(s)) == Some(s) <==> Recoverable(s)
  {
    if s == "" {
    } else {
      var c, t := s[0], s[1..];
      assert s == [c] + t;
      assert Recoverable(s) <==> IsRecoverable(c) && Recoverable(t);
      hide Decode, EncodeChar, Recoverable;
      assert Encode(s) == EncodeChar(c) + Encode(t);
      Step(c, t);
      hide Encode;
      RoundTrip(t);
      if t != "" {
        DecodeNotLonger(t[1..]);
      }
      if IsRecoverable(c) {
        SameTail(c, t, Decode(Encode(t)));
      }
    }
  }

  /** A character below U+0010 at the end of a text is refused. */
  lemma LowCharacterLast(c: char)
    requires c as int < 16
    ensures Decode(Encode([c])) == None
  {
    var digit := LowEscape(c);
    hide Decode, EncodeChar;
    DecodeEscape(digit, '0', "");
    assert [c][1..] == "" && Encode([c]) == EncodeChar(c) + "" == ['+', digit];
  }

  /** A text with a character above `~` anywhere is refused. */
  lemma {:induction false} HighCharacter(s: string, k: nat)
    requires k < |s| && s[k] > '~'
    ensures Decode(Encode(s)) == None
    decreases |s|
  {
    var c, t := s[0], s[1..];
    assert Encode(s) == EncodeChar(c) + Encode(t);
    hide Decode, Encode, EncodeChar;
    if c > '~' {
      DecodeHigh(c, Encode(t));
    } else if IsRecoverable(c) {
      DecodeFirst(c, Encode(t));
      HighCharacter(t, k - 1);
    } else {
      DecodeMisread(c, Encode(t));
      if Encode(t) != "" && IsHexDigit(Encode(t)[0]) {
        PlainHead(t);
        HighCharacter(t[1..], k - 2);
      }
    }
  }

  lemma EncodeTwo(c: char, d: char, t: string)
    ensures Encode([c, d] + t) == EncodeChar(c) + (EncodeChar(d) + Encode(t))
  {
    hide EncodeChar;
    var s := [c, d] + t;
    assert s[0] == c && s[1..] == [d] + t;
    assert s[1..][0] == d && s[1..][1..] == t;
  }

  /** Before a hexadecimal digit it takes that digit for its own second one, and both come back as one other character. */
  lemma LowCharacter(c: char, digit: char, t: string)
    requires c as int < 16 && IsHexDigit(digit)
    ensures Decode(Encode([c, digit] + t))
         == match Decode(Encode(t))
            case None => None
            case Some(u) => Some([(16 * c as int + HexValue(digit)) as char] + u)
  {
    hide Decode, Encode, EncodeChar, HexValue;
    HexDigitIsPlain(digit);
    var first := LowEscape(c);
    EncodeTwo(c, digit, t);
    hide IsEscaped, IsHexDigit;
    ThreeInFront('+', first, digit, Encode(t));
    DecodeEscape(first, digit, Encode(t));
  }

  lemma HexDigitIsPlain(digit: char)
    requires IsHexDigit(digit)
    ensures EncodeChar(digit) == [digit]
  {
  }

  lemma ThreeInFront(a: char, b: char, c: char, s: string)
    ensures [a, b] + ([c] + s) == [a, b, c] + s
  {
  }

  /** U+007F is refused, and so is the name in the program's own example, sent as it is. */
  lemma HighIsNotRead()
    ensures Decode(Encode("\U{7F}")) == None
    ensures Encode("bj\U{F8}rn") == "bj\U{F8}rn" && Decode("bj\U{F8}rn") == None
  {
    hide Decode;
    HighCharacter("\U{7F}", 0);
    EncodePlain("bj\U{F8}rn", "");
    assert "bj\U{F8}rn" + "" == "bj\U{F8}rn";
    HighCharacter("bj\U{F8}rn", 2);
  }

  /** A tab alone is refused, and a tab before `A` comes back as U+009A. */
  lemma TabIsNotRead()
    ensures Decode(Encode("\t")) == None
    ensures Decode(Encode("\tA")) == Some("\U{9A}")
  {
    assert Decode(Encode("")) == Some("") && HexValue('A') == 10;
    hide Decode, Encode, HexValue;
    LowCharacterLast('\t');
    LowCharacter('\t', 'A', "");
    assert ['\t'] == "\t" && ['\t', 'A'] + "" == "\tA" && [0x9A as char] + "" == "\U{9A}";
  }

  lemma SameTail(c: char, t: string, r: Option<string>)
    ensures (match r case None => None case Some(u) => Some([c] + u)) == Some([c] + t) <==> r == Some(t)
  {
    if r.Some? {
      assert ([c] + r.value)[1..] == r.value && ([c] + t)[1..] == t;
    }
  }

  /** Text is sent as it is exactly if no character of it is below `!`, `+` or `=`. */
  lemma {:induction false} EncodeUnchanged(s: string)
    ensures Encode(s) == s <==> forall k :: 0 <= k < |s| ==> s[k] >= '!' && s[k] != '+' && s[k] != '='
  {
    if s == "" {
    } else {
      var c, t := s[0], s[1..];
      EncodeUnchanged(t);
      EncodeLonger(t);
      assert (forall k :: 0 <= k < |s| ==> s[k] >= '!' && s[k] != '+' && s[k] != '=')
        <==> c >= '!' && c != '+' && c != '=' && forall k :: 0 <= k < |t| ==> t[k] >= '!' && t[k] != '+' && t[k] != '=' by {
        assert s == [c] + t;
      }
      if c >= '!' && c != '+' && c != '=' {
        assert EncodeChar(c) == [c] && ([c] + Encode(t))[1..] == Encode(t);
      } else {
        assert |EncodeChar(c)| > 1;
      }
    }
  }

  lemma {:induction false} EncodeLonger(s: string)
    ensures |Encode(s)| >= |s|
  {
    if s == "" {
    } else {
      EncodeLonger(s[1..]);
      assert |EncodeChar(s[0])| >= 1;
    }
  }

  /** The encoding never contains `=` nor anything below `!`. */
  lemma {:induction false} EncodedChars(s: string)
    ensures forall c :: c in Encode(s) ==> c >= '!' && c != '='
  {
    if s == "" {
    } else {
      EncodedChars(s[1..]);
      if IsEscaped(s[0]) {
        HexRoundTrip(s[0] as int % 256);
      }
    }
  }
}
