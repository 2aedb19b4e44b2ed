/** The byte stream between the client and a server.
    A server is a function from all bytes it has received so far to all bytes it has sent so far. */
module Connection {
  /** What a server has said stays said, whatever it receives later. */
  ghost predicate Causal(server: string -> string) {
    forall received, more :: server(received) <= server(received + more)
  }

  /** The stream as a value: everything written to the server and how much of its output was read. */
  datatype Conn = Conn(server: string -> string, written: string, consumed: nat)
  {
    ghost predicate Valid() {
      Causal(server) && consumed <= |server(written)|
    }

    function Unread(): string
      requires Valid()
    {
      server(written)[consumed..]
    }

    function Write(s: string): (c: Conn)
      requires Valid()
      ensures c.Valid() && Unread() <= c.Unread()
    {
      assert server(written) <= server(written + s);
      this.(written := written + s)
    }

    /** The connection after reading everything up to `rest`. */
    function LeaveUnread(rest: string): (c: Conn)
      requires Valid() && |rest| <= |Unread()| && rest == Unread()[|Unread()| - |rest|..]
      ensures c.Valid() && c.Unread() == rest
    {
      this.(consumed := |server(written)| - |rest|)
    }
  }

  /** What was read before a line is written is no part of what is unread after it. */
  lemma DropRead(c: Conn, d: Conn, text: string, first: string)
    requires c.Valid() && d.Valid() && d.server == c.server && d.written == c.written
    requires c.Unread() == first + d.Unread()
    ensures c.Write(text).Unread() == first + d.Write(text).Unread()
  {
    var sent, all := c.server(c.written), c.server(c.written + text);
    assert sent <= all;
    hide Causal;
    assert c.consumed + |first| == d.consumed && first == sent[c.consumed..][..|first|];
    assert all[c.consumed..][..|first|] == first && all[c.consumed..][|first|..] == all[d.consumed..];
  }

  class ByteStream {
    const server: string -> string
    var written: string
    var consumed: nat

    function View(): Conn
      reads this
    {
      Conn(server, written, consumed)
    }

    ghost predicate Valid()
      reads this
    {
      View().Valid()
    }

    constructor (server: string -> string)
      requires Causal(server)
      ensures Valid() && View() == Conn(server, "", 0)
    {
      this.server := server;
      written, consumed := "", 0;
    }

    method WriteAll(s: string)
      requires Valid()
      modifies this`written
      ensures Valid() && written == old(written) + s && consumed == old(consumed)
    {
      assert server(written) <= server(written + s);
      written := written + s;
    }

    /** Reads up to and including the next newline, or to the end of what there is. */
    method ReadLine() returns (line: string)
      requires Valid()
      modifies this`consumed
      ensures Valid() && written == old(written)
      ensures line == NextLine(old(View().Unread()))
      ensures View().Unread() == old(View().Unread())[|line|..]
    {
      line := NextLine(View().Unread());
      consumed := consumed + |line|;
    }
  }

  function NextLine(s: string): (line: string)
    ensures line <= s
    ensures s != "" ==> line != ""
    ensures forall k :: 0 <= k < |line| - 1 ==> line[k] != '\n'
    ensures |line| < |s| ==> line[|line| - 1] == '\n'
  {
    if s == "" then ""
    else if s[0] == '\n' then [s[0]]
    else [s[0]] + NextLine(s[1..])
  }
}
