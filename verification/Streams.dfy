/** The two ends of a connection: what has been written, and what remains to be read. */
module Streams {
  import opened Numbers
  import opened Text

  class Writer {
    var sent: string

    constructor ()
      ensures sent == ""
    {
      sent := "";
    }

    method Write(bytes: string)
      modifies this
      ensures sent == old(sent) + bytes
    {
      sent := sent + bytes;
    }
  }

  /** The first line of `s` with its line feed; all of `s` when it has none. */
  function FirstLine(s: string): (line: string)
    ensures line <= s
    ensures s != "" ==> line != ""
  {
    if s == "" then ""
    else if s[0] == '\n' then "\n"
    else [s[0]] + FirstLine(s[1..])
  }

  /** A line with its line feed: exactly one, at the end. */
  predicate IsLine(line: string) {
    line != "" && line[|line| - 1] == '\n' && forall k :: 0 <= k < |line| - 1 ==> line[k] != '\n'
  }

  lemma {:induction false} FirstLineIs(line: string, rest: string)
    requires IsLine(line)
    ensures FirstLine(line + rest) == line
    decreases |line|
  {
    var s := line + rest;
    assert s[0] == line[0];
    if |line| == 1 {
      assert line == "\n";
    } else {
      assert s[1..] == line[1..] + rest;
      FirstLineIs(line[1..], rest);
      assert line == [line[0]] + line[1..];
    }
  }

  lemma LineBehind(c: char, line: string)
    requires c != '\n' && IsLine(line)
    ensures IsLine([c] + line)
  {
  }

  lemma {:induction false} FirstLineIsLine(s: string)
    requires s != "" && s[|s| - 1] == '\n'
    ensures IsLine(FirstLine(s))
    decreases |s|
  {
    if s[0] != '\n' {
      FirstLineIsLine(s[1..]);
      LineBehind(s[0], FirstLine(s[1..]));
    }
  }

  lemma AfterFirstLine(s: string)
    requires s != "" && s[|s| - 1] == '\n'
    ensures s == FirstLine(s) + s[|FirstLine(s)|..]
    ensures var rest := s[|FirstLine(s)|..]; rest == "" || rest[|rest| - 1] == '\n'
  {
    var line := FirstLine(s);
    assert s[..|line|] == line;
  }

  /** Rust's `str::trim` removes the characters with the Unicode property White_Space. */
  predicate IsSpace(c: char) {
    var n := c as int;
    9 <= n <= 13 || n == 0x20 || n == 0x85 || n == 0xA0 || n == 0x1680 || 0x2000 <= n <= 0x200A ||
    n == 0x2028 || n == 0x2029 || n == 0x202F || n == 0x205F || n == 0x3000
  }

  function TrimLeft(s: string): string {
    if s != "" && IsSpace(s[0]) then TrimLeft(s[1..]) else s
  }

  function TrimRight(s: string): string {
    if s != "" && IsSpace(s[|s| - 1]) then TrimRight(s[..|s| - 1]) else s
  }

  function Trim(s: string): string {
    TrimRight(TrimLeft(s))
  }

  lemma TrimLeftStarts(s: string)
    requires s != "" && !IsSpace(s[0])
    ensures TrimLeft(s) == s
  {
  }

  lemma {:induction false} TrimRightPrefix(s: string)
    ensures TrimRight(s) <= s
  {
    if s != "" && IsSpace(s[|s| - 1]) {
      TrimRightPrefix(s[..|s| - 1]);
    }
  }

  lemma {:induction false} TrimRightStops(s: string, n: nat)
    requires 0 < n <= |s| && !IsSpace(s[n - 1])
    ensures s[..n] <= TrimRight(s)
  {
    if n < |s| && IsSpace(s[|s| - 1]) {
      TrimRightStops(s[..|s| - 1], n);
    }
  }

  lemma TrimKeepsFirst(s: string)
    requires s != "" && !IsSpace(s[0])
    ensures Trim(s) != "" && Trim(s)[0] == s[0]
  {
    TrimLeftStarts(s);
    TrimRightStops(s, 1);
  }

  /** What was read so far, before what a reader makes of the rest of a stream. */
  function Prepend(data: string, r: Option<(string, string)>): Option<(string, string)> {
    if r.Some? then Some((data + r.value.0, r.value.1)) else None
  }

  lemma PrependNothing(r: Option<(string, string)>)
    ensures Prepend("", r) == r
  {
    if r.Some? {
      assert "" + r.value.0 == r.value.0;
    }
  }

  lemma PrependTwice(a: string, b: string, r: Option<(string, string)>)
    ensures Prepend(a, Prepend(b, r)) == Prepend(a + b, r)
  {
    if r.Some? {
      Assoc(a, b, r.value.0);
    }
  }

  /** How much one `read` returns: at most what was asked for, and of what remains what has arrived, but at least one byte. */
  function ChunkSize(most: nat, arrived: nat, remaining: nat): nat {
    Min(Min(Max(arrived, 1), most), remaining)
  }

  /** The buffered reader of a carrier session, over all the text the server will send before it closes. */
  class LineReader {
    var pending: string

    constructor (text: string)
      ensures pending == text
    {
      pending := text;
    }

    /** `carrier_io::read_line`: the end of the stream is an error, never an empty line. */
    method ReadLine() returns (line: Option<string>)
      modifies this
      ensures old(pending) == "" ==> line == None && pending == ""
      ensures old(pending) != "" ==> line == Some(FirstLine(old(pending))) && pending == old(pending)[|FirstLine(old(pending))|..]
    {
      if pending == "" {
        line := None;
      } else {
        line := Some(FirstLine(pending));
        pending := pending[|FirstLine(pending)|..];
      }
    }

    /** One `read` of at most `most` bytes, of which `arrived` and at least one are there unless the stream is at its end. */
    method Read(most: nat, arrived: nat) returns (chunk: string)
      requires most > 0
      modifies this
      ensures chunk + pending == old(pending) && |chunk| <= most
      ensures chunk == "" <==> old(pending) == ""
    {
      var n := ChunkSize(most, arrived, |pending|);
      chunk := pending[..n];
      pending := pending[n..];
    }
  }
}
