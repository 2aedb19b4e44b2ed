/** Strings of wire characters and the few string searches that the client and the receiver share.
    A byte on the wire is represented by the character with the same number. */
module Text {
  datatype Option<+T> = None | Some(value: T)

  const CRLF: string := "\r\n"

  predicate CrlfAt(s: string, k: int) {
    0 <= k < |s| - 1 && s[k] == '\r' && s[k + 1] == '\n'
  }

  ghost predicate NoCrlf(s: string) {
    forall k :: !CrlfAt(s, k)
  }

  /** Position of the first CRLF. */
  function FindCrlf(s: string): (r: Option<nat>)
    ensures r.Some? ==> CrlfAt(s, r.value) && forall k :: k < r.value ==> !CrlfAt(s, k)
    ensures r.None? ==> NoCrlf(s)
  {
    if |s| < 2 then None
    else if CrlfAt(s, 0) then Some(0)
    else
      assert forall k :: k > 0 && CrlfAt(s, k) ==> CrlfAt(s[1..], k - 1);
      match FindCrlf(s[1..])
      case None => None
      case Some(k) => Some(k + 1)
  }

  lemma FindCrlfIs(s: string, k: nat)
    requires CrlfAt(s, k)
    requires forall j :: j < k ==> !CrlfAt(s, j)
    ensures FindCrlf(s) == Some(k)
  {
  }

  lemma Parts(line: string, rest: string)
    ensures (line + CRLF + rest)[..|line|] == line
    ensures (line + CRLF + rest)[|line|..] == CRLF + rest
    ensures (line + CRLF + rest)[|line| + 2..] == rest
    ensures CrlfAt(line + CRLF + rest, |line|)
    ensures forall j :: j < |line| && CrlfAt(line + CRLF + rest, j) ==> CrlfAt(line, j)
  {
  }

  /** A line free of CRLF ends exactly at the CRLF written after it. */
  lemma FindCrlfAfterLine(line: string, rest: string)
    requires NoCrlf(line)
    ensures FindCrlf(line + CRLF + rest) == Some(|line|)
    ensures (line + CRLF + rest)[..|line|] == line
    ensures (line + CRLF + rest)[|line|..] == CRLF + rest
    ensures (line + CRLF + rest)[|line| + 2..] == rest
  {
    hide FindCrlf, CrlfAt;
    Parts(line, rest);
    FindCrlfIs(line + CRLF + rest, |line|);
  }

  lemma SplitAt(s: string, k: nat)
    requires CrlfAt(s, k)
    ensures k + 2 <= |s| && s[k..] == CRLF + s[k + 2..] && s == s[..k] + CRLF + s[k + 2..]
    ensures forall j :: CrlfAt(s[..k], j) ==> j < k && CrlfAt(s, j)
  {
    assert s[k..] == CRLF + s[k + 2..];
    assert s == s[..k] + s[k..];
  }

  /** Splitting at the first CRLF leaves a line free of CRLF. */
  lemma SplitAtFirstCrlf(s: string)
    requires FindCrlf(s).Some?
    ensures var k := FindCrlf(s).value;
            k + 2 <= |s| && NoCrlf(s[..k]) && s == s[..k] + CRLF + s[k + 2..] && s[k..] == CRLF + s[k + 2..]
  {
    hide FindCrlf, CrlfAt;
    SplitAt(s, FindCrlf(s).value);
  }

  /** All pieces, one after another. */
  function Flatten(pieces: seq<string>): string {
    if pieces == [] then "" else pieces[0] + Flatten(pieces[1..])
  }

  lemma {:induction false} FlattenAppend(a: seq<string>, b: seq<string>)
    ensures Flatten(a + b) == Flatten(a) + Flatten(b)
  {
    if a == [] {
      assert a + b == b;
    } else {
      assert (a + b)[1..] == a[1..] + b;
      FlattenAppend(a[1..], b);
    }
  }

  /** Decimal digits of a number, without leading zeros. */
  function Dec(n: nat): (r: string)
    ensures |r| > 0 && forall c :: c in r ==> '0' <= c <= '9'
  {
    if n < 10 then [('0' as int + n) as char] else Dec(n / 10) + [('0' as int + n % 10) as char]
  }

  predicate IsDigit(c: char) {
    '0' <= c <= '9'
  }

  predicate AllDigits(s: string) {
    forall k :: 0 <= k < |s| ==> IsDigit(s[k])
  }

  /** Digits read from left to right in base ten, behind those that gave `read`. */
  function ReadDecimal(s: string, read: nat := 0): nat
    requires AllDigits(s)
    decreases |s|
  {
    if s == "" then read else ReadDecimal(s[1..], 10 * read + (s[0] as int - '0' as int))
  }

  lemma {:induction false} ReadDecimalSnoc(s: string, c: char, read: nat)
    requires AllDigits(s) && IsDigit(c)
    ensures AllDigits(s + [c])
    ensures ReadDecimal(s + [c], read) == 10 * ReadDecimal(s, read) + (c as int - '0' as int)
    decreases |s|
  {
    if s == "" {
      assert (s + [c])[1..] == "";
    } else {
      assert (s + [c])[1..] == s[1..] + [c];
      ReadDecimalSnoc(s[1..], c, 10 * read + (s[0] as int - '0' as int));
    }
  }

  /** A number printed in decimal reads back as that number, without a leading zero unless it is zero. */
  lemma {:induction false} DecReads(n: nat)
    ensures AllDigits(Dec(n)) && ReadDecimal(Dec(n)) == n
    ensures Dec(n)[0] == '0' <==> n == 0
    ensures n == 0 ==> Dec(n) == "0"
  {
    if n < 10 {
      assert Dec(n)[1..] == "";
    } else {
      DecReads(n / 10);
      ReadDecimalSnoc(Dec(n / 10), ('0' as int + n % 10) as char, 0);
    }
  }

  /** Any digits without a leading zero are what the number they read as is printed as. */
  lemma {:induction false} DecOfRead(s: string)
    requires s != "" && AllDigits(s) && (s[0] == '0' ==> |s| == 1)
    ensures Dec(ReadDecimal(s)) == s
    ensures s[0] != '0' ==> ReadDecimal(s) > 0
    decreases |s|
  {
    var last := |s| - 1;
    var t, c := s[..last], s[last];
    assert s == t + [c];
    ReadDecimalSnoc(t, c, 0);
    if last == 0 {
      assert t == "" && ReadDecimal(t) == 0;
    } else {
      assert t[0] == s[0];
      DecOfRead(t);
    }
  }

  /** The characters with Unicode property White_Space. */
  predicate IsWhitespace(c: char) {
    var n := c as int;
    || 0x09 <= n <= 0x0D || n == 0x20 || n == 0x85 || n == 0xA0 || n == 0x1680
    || 0x2000 <= n <= 0x200A || n == 0x2028 || n == 0x2029 || n == 0x202F || n == 0x205F || n == 0x3000
  }

  /** Words between whitespace, `word` being the one under way. */
  function Words(s: string, word: string := ""): seq<string> {
    if s == "" then (if word == "" then [] else [word])
    else if IsWhitespace(s[0]) then (if word == "" then [] else [word]) + Words(s[1..])
    else Words(s[1..], word + [s[0]])
  }

  /** All characters with Unicode property White_Space. */
  const WHITE_SPACE: string := "\t\n\U{B}\U{C}\r \U{85}\U{A0}\U{1680}\U{2000}\U{2001}\U{2002}\U{2003}\U{2004}\U{2005}"
                               + "\U{2006}\U{2007}\U{2008}\U{2009}\U{200A}\U{2028}\U{2029}\U{202F}\U{205F}\U{3000}"

  lemma WhitespaceIs(c: char)
    ensures IsWhitespace(c) <==> c in WHITE_SPACE
    ensures '!' <= c <= '~' ==> !IsWhitespace(c)
  {
  }

  predicate IsBlank(s: string) {
    forall k :: 0 <= k < |s| ==> IsWhitespace(s[k])
  }

  predicate IsWord(s: string) {
    s != "" && forall k :: 0 <= k < |s| ==> !IsWhitespace(s[k])
  }

  /** Words and the white space around them: before the first, between two, which is never empty, and behind the last. */
  ghost predicate IsSpacing(words: seq<string>, gaps: seq<string>) {
    && |gaps| == |words| + 1
    && (forall k :: 0 <= k < |words| ==> IsWord(words[k]))
    && (forall k :: 0 <= k < |gaps| ==> IsBlank(gaps[k]))
    && (forall k :: 0 < k < |words| ==> gaps[k] != "")
  }

  function Spaced(words: seq<string>, gaps: seq<string>): string
    requires |gaps| == |words| + 1
  {
    if words == [] then gaps[0] else gaps[0] + words[0] + Spaced(words[1..], gaps[1..])
  }

  lemma {:induction false} WordsBehindBlank(gap: string, s: string)
    requires IsBlank(gap)
    ensures Words(gap + s) == Words(s)
    decreases |gap|
  {
    if gap == "" {
      assert gap + s == s;
    } else {
      assert (gap + s)[1..] == gap[1..] + s;
      WordsBehindBlank(gap[1..], s);
    }
  }

  lemma {:induction false} WordsBehindText(text: string, s: string, word: string)
    requires forall k :: 0 <= k < |text| ==> !IsWhitespace(text[k])
    ensures Words(text + s, word) == Words(s, word + text)
    decreases |text|
  {
    if text == "" {
      assert text + s == s && word + text == word;
    } else {
      assert (text + s)[1..] == text[1..] + s;
      assert word + [text[0]] + text[1..] == word + text;
      WordsBehindText(text[1..], s, word + [text[0]]);
    }
  }

  /** However the words are spaced, splitting gives them back. */
  lemma {:induction false} WordsOfSpaced(words: seq<string>, gaps: seq<string>)
    requires IsSpacing(words, gaps)
    ensures Words(Spaced(words, gaps)) == words
    decreases |words|
  {
    hide IsWhitespace;
    if words == [] {
      assert gaps[0] + "" == gaps[0];
      WordsBehindBlank(gaps[0], "");
    } else {
      var rest := Spaced(words[1..], gaps[1..]);
      assert Spaced(words, gaps) == gaps[0] + (words[0] + rest);
      assert gaps[1] == gaps[1..][0];
      if rest != "" {
        SpacedStartsBlank(words[1..], gaps[1..]);
      }
      WordsOfChunk(gaps[0], words[0], rest);
      WordsOfSpaced(words[1..], gaps[1..]);
    }
  }

  lemma SpacedStartsBlank(words: seq<string>, gaps: seq<string>)
    requires IsSpacing(words, gaps) && (words == [] || gaps[0] != "") && Spaced(words, gaps) != ""
    ensures IsWhitespace(Spaced(words, gaps)[0])
  {
    hide IsWhitespace;
  }

  lemma FirstChunk(s: string) returns (gap: string, word: string, rest: string)
    ensures s == gap + (word + rest) && IsBlank(gap) && (word != "" ==> IsWord(word))
    ensures word == "" ==> rest == ""
    ensures rest != "" ==> IsWhitespace(rest[0])
  {
    hide IsWhitespace;
    var i := 0;
    while i < |s| && IsWhitespace(s[i])
      invariant i <= |s| && IsBlank(s[..i])
    {
      i := i + 1;
    }
    var j := i;
    while j < |s| && !IsWhitespace(s[j])
      invariant i <= j <= |s| && forall k :: i <= k < j ==> !IsWhitespace(s[k])
    {
      j := j + 1;
    }
    gap, word, rest := s[..i], s[i..j], s[j..];
  }

  lemma WordsOfChunk(gap: string, word: string, rest: string)
    requires IsBlank(gap) && IsWord(word) && (rest != "" ==> IsWhitespace(rest[0]))
    ensures Words(gap + (word + rest)) == [word] + Words(rest)
  {
    hide IsWhitespace;
    WordsBehindBlank(gap, word + rest);
    WordsBehindText(word, rest, "");
    assert "" + word == word;
    if rest != "" {
      assert rest[..1] + rest[1..] == rest;
      WordsBehindBlank(rest[..1], rest[1..]);
    }
  }

  /** Every text is its words with white space around them. */
  lemma {:induction false} SpacedWords(s: string) returns (gaps: seq<string>)
    ensures IsSpacing(Words(s), gaps) && Spaced(Words(s), gaps) == s
    decreases |s|
  {
    hide IsWhitespace;
    var gap, word, rest := FirstChunk(s);
    if word == "" {
      WordsBehindBlank(gap, "");
      assert s == gap == gap + "";
      gaps := [s];
    } else {
      WordsOfChunk(gap, word, rest);
      hide Words;
      var more := SpacedWords(rest);
      if Words(rest) != [] {
        FirstGap(Words(rest), more);
      }
      gaps := [gap] + more;
      SpacingCons(gap, word, Words(rest), more);
    }
  }

  lemma SpacingCons(gap: string, word: string, words: seq<string>, gaps: seq<string>)
    requires IsBlank(gap) && IsWord(word) && IsSpacing(words, gaps) && (words == [] || gaps[0] != "")
    ensures IsSpacing([word] + words, [gap] + gaps)
    ensures Spaced([word] + words, [gap] + gaps) == gap + (word + Spaced(words, gaps))
  {
    hide IsWhitespace;
    assert ([word] + words)[1..] == words && ([gap] + gaps)[1..] == gaps;
    assert gap + word + Spaced(words, gaps) == gap + (word + Spaced(words, gaps));
  }

  /** With words in it, a text starts with white space exactly if its first gap is not empty. */
  lemma FirstGap(words: seq<string>, gaps: seq<string>)
    requires IsSpacing(words, gaps) && words != []
    ensures Spaced(words, gaps) != "" && (IsWhitespace(Spaced(words, gaps)[0]) <==> gaps[0] != "")
  {
    hide IsWhitespace;
    var s := Spaced(words, gaps);
    if gaps[0] == "" {
      assert s[0] == words[0][0];
    } else {
      assert s[0] == gaps[0][0];
    }
  }
}
