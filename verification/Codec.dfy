/** The dot-stuffing codec. */
module Codec {
  import opened Text
  import opened Connection

  /** How far the bytes so far have come towards CRLF: 0 nothing, 1 CR, 2 CRLF. */
  type EscapeCount = n: nat | n <= 2

  function NextCount(count: EscapeCount, byte: char): EscapeCount {
    match count
    case 0 => if byte == '\r' then 1 else 0
    case 1 => if byte == '\n' then 2 else 0
    case _ => if byte == '\r' then 1 else 0
  }

  function CountAfter(count: EscapeCount, s: string): EscapeCount
    decreases |s|
  {
    if s == "" then count else CountAfter(NextCount(count, s[0]), s[1..])
  }

  /** The bytes of `s` with a dot put before each dot that the codec sees in state 2. */
  function Encoded(count: EscapeCount, s: string): string
    decreases |s|
  {
    if s == "" then ""
    else (if count == 2 && s[0] == '.' then "." else "") + [s[0]] + Encoded(NextCount(count, s[0]), s[1..])
  }

  /** The end-of-data mark after an empty frame, which completes the CRLF already begun. */
  function Terminator(count: EscapeCount): string {
    match count
    case 0 => "\r\n.\r\n"
    case 1 => "\n.\r\n"
    case _ => ".\r\n"
  }

  /** One call of the encoder: the state it leaves and the bytes it writes. */
  function EncodeFrame(count: EscapeCount, frame: string): (EscapeCount, string) {
    if frame == "" then (0, Terminator(count)) else (CountAfter(count, frame), Encoded(count, frame))
  }

  lemma {:induction false} EncodedSplit(count: EscapeCount, a: string, b: string)
    ensures CountAfter(count, a + b) == CountAfter(CountAfter(count, a), b)
    ensures Encoded(count, a + b) == Encoded(count, a) + Encoded(CountAfter(count, a), b)
    decreases |a|
  {
    if a == "" {
      assert a + b == b;
    } else {
      assert (a + b)[1..] == a[1..] + b;
      EncodedSplit(NextCount(count, a[0]), a[1..], b);
    }
  }

  lemma EncodedSnoc(count: EscapeCount, s: string, idx: nat)
    requires idx < |s|
    ensures CountAfter(count, s[..idx + 1]) == NextCount(CountAfter(count, s[..idx]), s[idx])
    ensures Encoded(count, s[..idx + 1])
         == Encoded(count, s[..idx]) + (if CountAfter(count, s[..idx]) == 2 && s[idx] == '.' then "." else "") + [s[idx]]
  {
    assert s[..idx + 1] == s[..idx] + [s[idx]];
    EncodedSplit(count, s[..idx], [s[idx]]);
  }

  lemma SliceSnoc(emitted: string, frame: string, start: nat, idx: nat)
    requires start <= idx < |frame|
    ensures emitted + frame[start..idx + 1] == emitted + frame[start..idx] + [frame[idx]]
    ensures emitted + frame[idx..idx] == emitted
  {
  }

  class ClientCodec {
    var escapeCount: nat

    constructor ()
      ensures escapeCount == 0
    {
      escapeCount := 0;
    }

    /** Adds transparency. Slices of the frame are written only when a dot has to go in or at the end. */
    method Encode(frame: string, buf: ByteStream)
      requires escapeCount <= 2 && buf.Valid()
      modifies this, buf`written
      ensures escapeCount <= 2 && buf.Valid()
      ensures var (count, bytes) := EncodeFrame(old(escapeCount), frame);
              escapeCount == count && buf.written == old(buf.written) + bytes
    {
      hide Causal, ByteStream.Valid, Conn.Valid, ByteStream.View;
      if |frame| == 0 {
        match escapeCount {
          case 0 => buf.WriteAll("\r\n.\r\n");
          case 1 => buf.WriteAll("\n.\r\n");
          case 2 => buf.WriteAll(".\r\n");
          case _ => assert false;
        }
        escapeCount := 0;
      } else {
        var start := 0;
        ghost var count: EscapeCount := escapeCount;
        ghost var emitted := "";
        assert frame[..0] == "" && Encoded(count, frame[..0]) == "" && CountAfter(count, frame[..0]) == count;
        hide Encoded, CountAfter;
        for idx := 0 to |frame|
          invariant 0 <= start <= idx && buf.Valid()
          invariant escapeCount == CountAfter(count, frame[..idx])
          invariant buf.written == old(buf.written) + emitted
          invariant emitted + frame[start..idx] == Encoded(count, frame[..idx])
        {
          var byte := frame[idx];
          EncodedSnoc(count, frame, idx);
          SliceSnoc(emitted, frame, start, idx);
          match escapeCount {
            case 0 => escapeCount := if byte == '\r' then 1 else 0;
            case 1 => escapeCount := if byte == '\n' then 2 else 0;
            case 2 => escapeCount := if byte == '.' then 3 else if byte == '\r' then 1 else 0;
            case _ => assert false;
          }
          if escapeCount == 3 {
            escapeCount := 0;
            buf.WriteAll(frame[start..idx]);
            buf.WriteAll(".");
            emitted := emitted + frame[start..idx] + ".";
            start := idx;
            SliceSnoc(emitted, frame, start, idx);
          }
        }
        assert frame[..|frame|] == frame && frame[start..|frame|] == frame[start..];
        buf.WriteAll(frame[start..]);
      }
    }
  }

  // ---------- when the codec doubles a dot ----------

  /** Length of the run of CRs at the end of `s`. */
  function CrRun(s: string): nat {
    if s == "" || s[|s| - 1] != '\r' then 0 else 1 + CrRun(s[..|s| - 1])
  }

  /** `s` ends in a newline whose run of CRs has odd length. */
  predicate AfterOddCrLf(s: string) {
    s != "" && s[|s| - 1] == '\n' && CrRun(s[..|s| - 1]) % 2 == 1
  }

  predicate DoubledAt(s: string, p: nat) {
    p < |s| && s[p] == '.' && AfterOddCrLf(s[..p])
  }

  /** `s` with a dot before each position where one is due, by looking back at the bytes before it. */
  function Stuffed(s: string): string {
    if s == "" then ""
    else
      var p := |s| - 1;
      Stuffed(s[..p]) + (if DoubledAt(s, p) then "." else "") + [s[p]]
  }

  lemma {:induction false} CountIsParity(s: string)
    ensures CountAfter(0, s) == if AfterOddCrLf(s) then 2 else CrRun(s) % 2
  {
    if s == "" {
    } else {
      var p := |s| - 1;
      CountIsParity(s[..p]);
      assert s[..p + 1] == s;
      EncodedSnoc(0, s, p);
    }
  }

  lemma {:induction false} EncodedIsStuffed(s: string)
    ensures Encoded(0, s) == Stuffed(s)
  {
    if s == "" {
    } else {
      var p := |s| - 1;
      EncodedIsStuffed(s[..p]);
      CountIsParity(s[..p]);
      assert s[..p + 1] == s;
      EncodedSnoc(0, s, p);
    }
  }

  ghost function DoubledPositions(s: string): set<nat> {
    set p: nat | p < |s| && DoubledAt(s, p)
  }

  lemma DoubledPositionsSnoc(s: string, p: nat)
    requires p + 1 == |s|
    ensures DoubledPositions(s) == DoubledPositions(s[..p]) + (if DoubledAt(s, p) then {p} else {})
    ensures |DoubledPositions(s)| == |DoubledPositions(s[..p])| + (if DoubledAt(s, p) then 1 else 0)
  {
    hide AfterOddCrLf;
    assert forall q: nat :: q < p ==> s[..p][..q] == s[..q];
    assert p !in DoubledPositions(s[..p]);
  }

  lemma {:induction false} StuffedLength(s: string)
    ensures |Stuffed(s)| == |s| + |DoubledPositions(s)|
  {
    if s == "" {
      assert DoubledPositions(s) == {};
    } else {
      hide DoubledPositions;
      StuffedLength(s[..|s| - 1]);
      DoubledPositionsSnoc(s, |s| - 1);
    }
  }

  // ---------- frames ----------

  /** The encoder called on one frame after another. */
  function EncodeFrames(count: EscapeCount, frames: seq<string>): (EscapeCount, string)
    decreases |frames|
  {
    if frames == [] then (count, "")
    else
      var (next, bytes) := EncodeFrame(count, frames[0]);
      var (last, more) := EncodeFrames(next, frames[1..]);
      (last, bytes + more)
  }

  lemma {:induction false} EncodeFramesAppend(count: EscapeCount, a: seq<string>, b: seq<string>)
    ensures var (next, bytes) := EncodeFrames(count, a);
            EncodeFrames(count, a + b) == (EncodeFrames(next, b).0, bytes + EncodeFrames(next, b).1)
    decreases |a|
  {
    hide EncodeFrame;
    if a == [] {
      assert a + b == b && "" + EncodeFrames(count, b).1 == EncodeFrames(count, b).1;
    } else {
      var (next, bytes) := EncodeFrame(count, a[0]);
      assert (a + b)[0] == a[0] && (a + b)[1..] == a[1..] + b;
      EncodeFramesAppend(next, a[1..], b);
      var (after, more) := EncodeFrames(next, a[1..]);
      var last := EncodeFrames(after, b).1;
      assert bytes + (more + last) == bytes + more + last;
    }
  }

  /** Where the input is cut into frames makes no difference, even inside CRLF and dot. */
  lemma {:induction false} ChunkingIndependence(count: EscapeCount, frames: seq<string>)
    requires "" !in frames
    ensures EncodeFrames(count, frames) == (CountAfter(count, Flatten(frames)), Encoded(count, Flatten(frames)))
    decreases |frames|
  {
    if frames == [] {
    } else {
      assert frames[0] in frames;
      ChunkingIndependence(CountAfter(count, frames[0]), frames[1..]);
      EncodedSplit(count, frames[0], Flatten(frames[1..]));
    }
  }

  /** From a fresh codec, over any non-empty frames: a dot goes in before byte `p` of the whole input exactly
      when that byte is a dot after a newline with an odd run of CRs, and nothing else is added. */
  lemma FramesAreStuffed(frames: seq<string>)
    requires "" !in frames
    ensures EncodeFrames(0, frames).1 == Stuffed(Flatten(frames))
    ensures |EncodeFrames(0, frames).1| == |Flatten(frames)| + |DoubledPositions(Flatten(frames))|
  {
    ChunkingIndependence(0, frames);
    EncodedIsStuffed(Flatten(frames));
    StuffedLength(Flatten(frames));
  }
}
