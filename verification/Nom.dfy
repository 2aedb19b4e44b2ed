/** The streaming parser combinators that the reply grammar uses. */
module Nom {
  import opened Text

  /** Outcome of a parser: `Incomplete` asks for more input, `Error` lets an alternative try,
      `Failure` and `Incomplete` end the parse at once. */
  datatype IResult<+T> = Ok(rest: string, value: T) | Incomplete | Error | Failure
  {
    predicate IsFailure() {
      !Ok?
    }

    function PropagateFailure<U>(): IResult<U>
      requires IsFailure()
    {
      match this
      case Incomplete => Incomplete
      case Error => Error
      case Failure => Failure
    }

    function Extract(): (string, T)
      requires !IsFailure()
    {
      (rest, value)
    }
  }

  type Parser<+T> = string -> IResult<T>

  function Tag(t: string, i: string): IResult<string> {
    if t <= i then Ok(i[|t|..], t) else if i < t then Incomplete else Error
  }

  /** `take_until("\r\n")`: the CRLF itself stays in front of what is left over. */
  function TakeUntilCrlf(i: string): IResult<string> {
    match FindCrlf(i)
    case None => Incomplete
    case Some(k) => Ok(i[k..], i[..k])
  }

  /** `map(tag(c), |_| v)` for a tag of one character. */
  function CharAs<T>(c: char, v: T, i: string): IResult<T> {
    if i == "" then Incomplete else if i[0] == c then Ok(i[1..], v) else Error
  }

  /** `alt` of two parsers, given by their results on the same input: the second counts only if the first
      answers `Error`. */
  function Alt<T>(r: IResult<T>, q: IResult<T>): IResult<T> {
    if r.Error? then q else r
  }

  function Complete<T>(r: IResult<T>): IResult<T> {
    if r.Incomplete? then Error else r
  }

  function Many0<T>(p: Parser<T>): Parser<seq<T>> {
    (i: string) => Repeat(p, i)
  }

  /** Runs `p` until it answers `Error`; a round that consumes nothing is an error (no parser leaves more over
      than it was given). */
  function Repeat<T>(p: Parser<T>, i: string): IResult<seq<T>>
    decreases |i|
  {
    var r := p(i);
    if r.Error? then Ok(i, [])
    else
      var (rest, v) :- r;
      if |rest| >= |i| then Error
      else
        var (last, vs) :- Repeat(p, rest);
        Ok(last, [v] + vs)
  }

  /** The result on more input keeps the verdict already reached and only extends what is left over. */
  ghost predicate Extends<T(!new)>(r: IResult<T>, r': IResult<T>, x: string) {
    match r
    case Ok(rest, v) => r' == Ok(rest + x, v)
    case Incomplete => true
    case Error => r'.Error?
    case Failure => r'.Failure?
  }

  ghost predicate StableAt<T(!new)>(p: Parser<T>, s: string, x: string) {
    Extends(p(s), p(s + x), x)
  }

  ghost predicate Stable<T(!new)>(p: Parser<T>) {
    forall s, x :: StableAt(p, s, x)
  }

  lemma TagStable(t: string, s: string, x: string)
    ensures Extends(Tag(t, s), Tag(t, s + x), x)
  {
    if t <= s {
      assert (s + x)[|t|..] == s[|t|..] + x;
    } else if t <= s + x || s + x < t {
      assert s == t[..|s|] by {
        assert |s| < |t|;
      }
    }
  }

  /** A tag of one character read as a value is that tag. */
  lemma CharAsIsTag<T>(c: char, v: T, i: string)
    ensures CharAs(c, v, i) == match Tag([c], i)
                               case Ok(rest, _) => Ok(rest, v)
                               case Incomplete => Incomplete
                               case Error => Error
                               case Failure => Failure
  {
  }

  lemma CharAsStable<T(!new)>(c: char, v: T, s: string, x: string)
    ensures Extends(CharAs(c, v, s), CharAs(c, v, s + x), x)
  {
    hide CharAs, Tag;
    CharAsIsTag(c, v, s);
    CharAsIsTag(c, v, s + x);
    TagStable([c], s, x);
  }

  lemma FirstCrlfStays(s: string, x: string)
    requires FindCrlf(s).Some?
    ensures var k := FindCrlf(s).value;
            FindCrlf(s + x) == Some(k) && k <= |s| && (s + x)[..k] == s[..k] && (s + x)[k..] == s[k..] + x
  {
    hide FindCrlf, NoCrlf;
    SplitAtFirstCrlf(s);
    var k := FindCrlf(s).value;
    var line, rest := s[..k], s[k + 2..];
    assert s + x == line + CRLF + (rest + x);
    FindCrlfAfterLine(line, rest + x);
  }

  lemma TakeUntilStable()
    ensures Stable(TakeUntilCrlf)
  {
    forall s, x
      ensures StableAt(TakeUntilCrlf, s, x)
    {
      if FindCrlf(s).Some? {
        FirstCrlfStays(s, x);
        hide FindCrlf;
      }
    }
  }

  lemma {:induction false} RepeatStable<T(!new)>(p: Parser<T>, s: string, x: string)
    requires Stable(p)
    ensures StableAt(Many0(p), s, x)
    decreases |s|
  {
    assert StableAt(p, s, x);
    if !p(s).Ok? || |p(s).rest| >= |s| {
    } else {
      RepeatStable(p, p(s).rest, x);
    }
  }

  /** The stability of sequencing and repetition, whatever stable parsers they are built from. */
  lemma Many0Stable<T(!new)>(p: Parser<T>)
    requires Stable(p)
    ensures Stable(Many0(p))
  {
    forall s, x
      ensures StableAt(Many0(p), s, x)
    {
      RepeatStable(p, s, x);
    }
  }
}
