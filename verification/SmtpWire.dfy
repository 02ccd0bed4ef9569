/** The DATA phase of SMTP between two FATMAMAs, and from ANTIE's SMTP carrier to a FATMAMA.

    FATMAMA's cross-site sender dot-stuffs a message and appends the terminator; its intake
    finds the terminator on a byte stream (or falls back to reading chunks) and un-stuffs. */
module SmtpWire {
  import opened Text
  import opened Streams

  const TERMINATOR := "\r\n.\r\n"

  // ---------------------------------------------------------------- sender

  /** `raw.replace(b"\r\n.", b"\r\n..")` */
  function DotStuff(raw: string): string {
    ReplaceAll(raw, "\r\n.", "\r\n..")
  }

  /** The bytes the cross-site sender writes after the 354 reply. */
  function DataOf(raw: string): string {
    var body := DotStuff(raw);
    body + (if EndsWith(body, CRLF) then "" else CRLF) + ".\r\n"
  }

  /** The bytes ANTIE's SMTP carrier writes after the 354 reply: nothing is stuffed. */
  function CarrierDataOf(raw: string): string {
    raw + TERMINATOR
  }

  method SendData(writer: Writer, raw: string)
    modifies writer
    ensures writer.sent == old(writer.sent) + DataOf(raw)
  {
    var body := DotStuff(raw);
    writer.Write(body);
    if !EndsWith(body, CRLF) {
      writer.Write(CRLF);
    }
    writer.Write(".\r\n");
  }

  // ---------------------------------------------------------------- intake

  function UnstuffLine(line: string): string {
    if ".." <= line then line[1..] else line
  }

  function UnstuffLines(lines: seq<string>): (r: seq<string>)
    ensures |r| == |lines|
    ensures forall i :: 0 <= i < |lines| ==> r[i] == UnstuffLine(lines[i])
  {
    seq(|lines|, i requires 0 <= i < |lines| => UnstuffLine(lines[i]))
  }

  function Unstuff(data: string): string {
    Join(UnstuffLines(Split(data, CRLF)), CRLF)
  }

  /** What stands before the terminator; everything, when the stream ends without one. */
  function BeforeTerminator(stream: string): string {
    match Find(stream, TERMINATOR)
    case Some(i) => stream[..i]
    case None => stream
  }

  /** The message FATMAMA stores for a stream that follows the 354 reply. */
  function Message(stream: string): string {
    Unstuff(BeforeTerminator(stream))
  }

  datatype ReadResult = Complete(data: string) | Incomplete(partial: string) | LimitOverrun

  const READ_CHUNK := 262144

  /** asyncio's StreamReader over all the bytes the peer will send before it closes. */
  class StreamReader {
    var pending: string
    const limit: nat

    constructor (bytes: string, limit: nat)
      ensures pending == bytes && this.limit == limit
    {
      pending := bytes;
      this.limit := limit;
    }

    method ReadUntil(separator: string) returns (r: ReadResult)
      requires separator != ""
      modifies this
      ensures match Find(old(pending), separator)
              case Some(i) =>
                if i <= limit then
                  r == Complete(old(pending)[..i + |separator|]) && pending == old(pending)[i + |separator|..]
                else
                  r == LimitOverrun && pending == old(pending)
              case None =>
                if |old(pending)| + 1 - |separator| <= limit then
                  r == Incomplete(old(pending)) && pending == ""
                else
                  r == LimitOverrun && pending == old(pending)
    {
      match Find(pending, separator)
      case Some(i) =>
        if i <= limit {
          SliceApart(pending, i, separator);
          r := Complete(pending[..i + |separator|]);
          pending := pending[i + |separator|..];
        } else {
          r := LimitOverrun;
        }
      case None =>
        if |pending| + 1 - |separator| <= limit {
          r := Incomplete(pending);
          pending := "";
        } else {
          r := LimitOverrun;
        }
    }

    /** Some bytes, as many as have arrived but at most `most`; none only at the end of the stream. */
    method Read(most: nat, arrived: nat) returns (chunk: string)
      requires most > 0
      modifies this
      ensures old(pending) == chunk + pending
      ensures chunk == "" <==> old(pending) == ""
      ensures |chunk| <= most
    {
      var n := ChunkSize(most, arrived, |pending|);
      chunk := pending[..n];
      pending := pending[n..];
    }
  }

  /** The fallback for a message that outgrows the buffer; `arrivals` decides the size of each chunk. */
  method ReadChunked(reader: StreamReader, arrivals: seq<nat>) returns (data: string)
    modifies reader
    ensures data == BeforeTerminator(old(reader.pending))
  {
    var buf := "";
    var k := 0;
    while true
      invariant buf + reader.pending == old(reader.pending)
      invariant Find(buf, TERMINATOR).None?
      decreases |reader.pending|
    {
      var chunk := reader.Read(READ_CHUNK, if k < |arrivals| then arrivals[k] else READ_CHUNK);
      k := k + 1;
      if chunk == "" {
        assert buf + "" == buf;
        break;
      }
      assert (buf + chunk) + reader.pending == old(reader.pending);
      buf := buf + chunk;
      var idx := Find(buf, TERMINATOR);
      if idx.Some? {
        FindPrefix(buf, reader.pending, TERMINATOR);
        assert buf[..idx.value] == old(reader.pending)[..idx.value];
        buf := buf[..idx.value];
        break;
      }
    }
    data := buf;
  }

  /** Un-stuffing, line by line, as the intake does it. */
  method UnstuffInPlace(data: string) returns (r: string)
    ensures r == Unstuff(data)
  {
    var lines := Split(data, CRLF);
    ghost var split := lines;
    for i := 0 to |lines|
      invariant |lines| == |split|
      invariant forall j :: 0 <= j < i ==> lines[j] == UnstuffLine(split[j])
      invariant forall j :: i <= j < |lines| ==> lines[j] == split[j]
    {
      if ".." <= lines[i] {
        lines := lines[i := lines[i][1..]];
      }
    }
    assert lines == UnstuffLines(split);
    r := Join(lines, CRLF);
  }

  /** The DATA command after its 354 reply: the same message whichever way it is read, and the stream
      left exactly after the terminator unless the buffer limit forced the fallback. */
  method ReceiveData(reader: StreamReader, arrivals: seq<nat>) returns (message: string)
    modifies reader
    ensures message == Message(old(reader.pending))
    ensures var i := Find(old(reader.pending), TERMINATOR);
            i.Some? && i.value <= reader.limit ==>
              i.value + |TERMINATOR| <= |old(reader.pending)| &&
              reader.pending == old(reader.pending)[i.value + |TERMINATOR|..]
  {
    var r := reader.ReadUntil(TERMINATOR);
    var data: string;
    match r {
      case Complete(raw) =>
        data := raw[..|raw| - |TERMINATOR|];
        assert data == old(reader.pending)[..Find(old(reader.pending), TERMINATOR).value];
      case Incomplete(partial) =>
        data := partial;
      case LimitOverrun =>
        data := ReadChunked(reader, arrivals);
    }
    message := UnstuffInPlace(data);
  }

  // ---------------------------------------------------------------- lines and the terminator

  predicate NoBreaks(lines: seq<string>) {
    forall line :: line in lines ==> NoBreak(line)
  }

  predicate StuffedDotAt(s: string, i: nat) {
    i + 3 <= |s| && s[i] == '\r' && s[i + 1] == '\n' && s[i + 2] == '.'
  }

  predicate TerminatorAt(s: string, i: nat) {
    i + 5 <= |s| && s[i] == '\r' && s[i + 1] == '\n' && s[i + 2] == '.' && s[i + 3] == '\r' && s[i + 4] == '\n'
  }

  lemma PatternsAre(s: string, i: nat)
    requires i <= |s|
    ensures "\r\n." <= s[i..] <==> StuffedDotAt(s, i)
    ensures At(s, i, TERMINATOR) <==> TerminatorAt(s, i)
  {
  }

  lemma DotsAre(s: string)
    ensures ".." <= s <==> |s| >= 2 && s[0] == '.' && s[1] == '.'
  {
  }

  function StuffLine(line: string): string {
    if "." <= line then "." + line else line
  }

  function StuffLines(lines: seq<string>): (r: seq<string>)
    ensures |r| == |lines| && forall i :: 0 <= i < |lines| ==> r[i] == StuffLine(lines[i])
  {
    seq(|lines|, i requires 0 <= i < |lines| => StuffLine(lines[i]))
  }

  lemma StuffKeepsNoBreaks(lines: seq<string>)
    requires NoBreaks(lines)
    ensures NoBreaks(StuffLines(lines))
  {
    forall line | line in StuffLines(lines)
      ensures NoBreak(line)
    {
      var i :| 0 <= i < |lines| && line == StuffLine(lines[i]);
      assert NoBreak(lines[i]);
    }
  }

  lemma {:induction false} StuffSkipsLine(line: string, rest: string)
    requires NoBreak(line)
    requires rest == "" || rest[0] == '\r'
    ensures DotStuff(line + rest) == line + DotStuff(rest)
    decreases |line|
  {
    if line == "" {
      assert line + rest == rest;
    } else {
      var s := line + rest;
      assert s[1..] == line[1..] + rest;
      PatternsAre(s, 0);
      assert s[0..] == s;
      assert |line| == 1 && rest != "" ==> s[1] == '\r';
      StuffSkipsLine(line[1..], rest);
      assert [s[0]] + (line[1..] + DotStuff(rest)) == line + DotStuff(rest);
    }
  }

  lemma StuffAfterBreak(rest: string)
    ensures DotStuff(CRLF + rest) ==
            if "." <= rest then CRLF + ".." + DotStuff(rest[1..]) else CRLF + DotStuff(rest)
  {
    var s := CRLF + rest;
    PatternsAre(s, 0);
    assert s[0..] == s;
    if "." <= rest {
      assert s[3..] == rest[1..];
    } else {
      assert s[1..] == "\n" + rest && s[1..][1..] == rest;
      assert DotStuff("\n" + rest) == "\n" + DotStuff(rest);
      assert DotStuff(s) == "\r" + DotStuff("\n" + rest);
    }
  }

  lemma StuffBrokenLine(line: string, rest: string)
    requires NoBreak(line)
    requires rest == "" || rest[0] == '\r'
    ensures DotStuff(CRLF + line + rest) == CRLF + StuffLine(line) + DotStuff(rest)
  {
    Assoc(CRLF, line, rest);
    StuffAfterBreak(line + rest);
    if "." <= line {
      StuffDottedLine(line, rest);
    } else {
      assert DotStuff(line + rest) == line + DotStuff(rest) by {
        StuffSkipsLine(line, rest);
      }
      assert !("." <= line + rest) by {
        assert line != "" ==> (line + rest)[0] == line[0];
      }
      Assoc(CRLF, line, DotStuff(rest));
    }
  }

  lemma StuffDottedLine(line: string, rest: string)
    requires NoBreak(line) && "." <= line
    requires rest == "" || rest[0] == '\r'
    ensures "." <= line + rest && CRLF + ".." + DotStuff((line + rest)[1..]) == CRLF + StuffLine(line) + DotStuff(rest)
  {
    assert (line + rest)[0] == line[0] == '.';
    assert (line + rest)[1..] == line[1..] + rest;
    StuffSkipsLine(line[1..], rest);
    assert line == "." + line[1..];
    RegroupDots(line[1..], DotStuff(rest));
  }

  lemma RegroupDots(line: string, rest: string)
    ensures CRLF + ".." + (line + rest) == CRLF + ("." + ("." + line)) + rest
  {
  }

  lemma RestStartsWithBreak(lines: seq<string>)
    ensures lines == [] || CRLF <= JoinRest(lines, CRLF)
    ensures JoinRest(lines, CRLF) == "" || JoinRest(lines, CRLF)[0] == '\r'
  {
  }

  /** Stuffing works line by line: every line after the first that starts with a dot gets another. */
  lemma {:induction false} StuffJoined(lines: seq<string>)
    requires NoBreaks(lines)
    ensures DotStuff(JoinRest(lines, CRLF)) == JoinRest(StuffLines(lines), CRLF)
    decreases |lines|
  {
    if lines != [] {
      var tail := JoinRest(lines[1..], CRLF);
      StuffJoined(lines[1..]);
      RestStartsWithBreak(lines[1..]);
      StuffBrokenLine(lines[0], tail);
      assert StuffLines(lines)[1..] == StuffLines(lines[1..]);
    }
  }

  /** Behind a line and its break, a terminator stands at the break or inside the tail. */
  lemma TerminatorShifts(line: string, tail: string, j: nat)
    requires NoBreak(line)
    ensures TerminatorAt(line + CRLF + tail, j) <==>
            if j == |line| then |tail| >= 3 && tail[0] == '.' && tail[1] == '\r' && tail[2] == '\n'
            else j >= |line| + 2 && TerminatorAt(tail, j - |line| - 2)
  {
    var s := line + CRLF + tail;
    assert s[|line|] == '\r' && s[|line| + 1] == '\n';
    assert forall k :: |line| + 2 <= k < |s| ==> s[k] == tail[k - |line| - 2];
    assert forall k :: 0 <= k < |line| ==> s[k] == line[k];
  }

  ghost predicate FirstTerminatorAt(s: string, n: nat) {
    TerminatorAt(s, n) && forall j: nat :: j < n ==> !TerminatorAt(s, j)
  }

  lemma FindsTerminator(s: string, n: nat)
    requires FirstTerminatorAt(s, n)
    ensures Find(s, TERMINATOR) == Some(n)
  {
    PatternsAre(s, n);
    forall j: nat | j < n
      ensures !At(s, j, TERMINATOR)
    {
      PatternsAre(s, j);
      assert !TerminatorAt(s, j);
    }
  }

  lemma Regroup(line: string, next: string, after: string, end: string, rest: string)
    ensures line + (CRLF + next + after) + end + rest == line + CRLF + (next + after + end + rest)
  {
  }

  /** The terminator appended to the lines is the first one, unless a later line is a lone dot. */
  lemma {:induction false} FirstTerminator(line: string, lines: seq<string>, rest: string)
    requires NoBreak(line) && NoBreaks(lines)
    ensures var s := line + JoinRest(lines, CRLF);
            if "." !in lines then FirstTerminatorAt(s + TERMINATOR + rest, |s|)
            else exists n: nat :: n < |s| && FirstTerminatorAt(s + TERMINATOR + rest, n)
    decreases |lines|
  {
    var joined := JoinRest(lines, CRLF);
    if lines == [] {
      assert line + joined + TERMINATOR + rest == line + CRLF + (".\r\n" + rest);
      TerminatorAlone(line, rest);
    } else {
      var next, after := lines[0], JoinRest(lines[1..], CRLF);
      var tail := next + after + TERMINATOR + rest;
      FirstTerminator(next, lines[1..], rest);
      assert line + joined + TERMINATOR + rest == line + CRLF + tail by {
        Regroup(line, next, after, TERMINATOR, rest);
      }
      var n: nat :| n <= |next + after| && FirstTerminatorAt(tail, n) && (n == |next + after| <==> "." !in lines[1..]);
      NextIsDot(next, lines[1..], rest);
      TerminatorFollows(line, tail, n);
      if next == "." {
        assert FirstTerminatorAt(line + joined + TERMINATOR + rest, |line|);
      } else {
        assert FirstTerminatorAt(line + joined + TERMINATOR + rest, |line| + 2 + n);
        assert |line + joined| == |line| + 2 + |next + after|;
      }
    }
  }

  lemma TerminatorAlone(line: string, rest: string)
    requires NoBreak(line)
    ensures FirstTerminatorAt(line + CRLF + (".\r\n" + rest), |line|)
  {
    forall j: nat | j <= |line|
      ensures TerminatorAt(line + CRLF + (".\r\n" + rest), j) <==> j == |line|
    {
      TerminatorShifts(line, ".\r\n" + rest, j);
    }
  }

  lemma TerminatorFollows(line: string, tail: string, n: nat)
    requires NoBreak(line) && FirstTerminatorAt(tail, n)
    ensures if |tail| >= 3 && tail[0] == '.' && tail[1] == '\r' && tail[2] == '\n'
            then FirstTerminatorAt(line + CRLF + tail, |line|)
            else FirstTerminatorAt(line + CRLF + tail, |line| + 2 + n)
  {
    forall j: nat
      ensures TerminatorAt(line + CRLF + tail, j) <==>
              if j == |line| then |tail| >= 3 && tail[0] == '.' && tail[1] == '\r' && tail[2] == '\n'
              else j >= |line| + 2 && TerminatorAt(tail, j - |line| - 2)
    {
      TerminatorShifts(line, tail, j);
    }
  }

  /** What follows a break begins with a lone dot's line exactly when that line is a lone dot. */
  lemma NextIsDot(next: string, lines: seq<string>, rest: string)
    requires NoBreak(next)
    ensures var tail := next + JoinRest(lines, CRLF) + TERMINATOR + rest;
            |tail| >= 3 && (tail[0] == '.' && tail[1] == '\r' && tail[2] == '\n' <==> next == ".")
  {
    var after := JoinRest(lines, CRLF) + TERMINATOR + rest;
    assert after[0] == '\r' && after[1] == '\n' by {
      RestStartsWithBreak(lines);
    }
    assert next + JoinRest(lines, CRLF) + TERMINATOR + rest == next + after;
    assert |next| < 3 ==> (next + after)[|next|] == '\r';
  }

  // ---------------------------------------------------------------- the messages that survive

  function LessOneCrlf(s: string): string {
    if EndsWith(s, CRLF) then s[..|s| - 2] else s
  }

  lemma {:induction false} JoinRestSnoc(lines: seq<string>, last: string)
    ensures JoinRest(lines + [last], CRLF) == JoinRest(lines, CRLF) + CRLF + last
    decreases |lines|
  {
    var all := lines + [last];
    if lines == [] {
      assert all[1..] == [];
      assert JoinRest(all, CRLF) == CRLF + last + "";
    } else {
      JoinRestSnoc(lines[1..], last);
      assert all[1..] == lines[1..] + [last];
      var head, mid := CRLF + lines[0], JoinRest(lines[1..], CRLF);
      assert head + (mid + CRLF + last) == (head + mid) + CRLF + last;
    }
  }

  lemma JoinRestLast(lines: seq<string>)
    requires lines != []
    ensures JoinRest(lines, CRLF) == JoinRest(lines[..|lines| - 1], CRLF) + CRLF + lines[|lines| - 1]
  {
    assert lines == lines[..|lines| - 1] + [lines[|lines| - 1]];
    JoinRestSnoc(lines[..|lines| - 1], lines[|lines| - 1]);
  }

  /** Joined lines end in CRLF exactly when the last of several is empty. */
  lemma EndsInBreak(line: string, lines: seq<string>)
    requires NoBreak(line) && NoBreaks(lines)
    ensures EndsWith(line + JoinRest(lines, CRLF), CRLF) <==> lines != [] && lines[|lines| - 1] == ""
  {
    if lines == [] {
      assert line + JoinRest(lines, CRLF) == line;
      EndsOpen(line);
    } else {
      assert NoBreak(lines[|lines| - 1]);
      JoinedEnd(line, lines);
    }
  }

  lemma JoinedEnd(line: string, lines: seq<string>)
    requires lines != [] && NoBreak(lines[|lines| - 1])
    ensures EndsWith(line + JoinRest(lines, CRLF), CRLF) <==> lines[|lines| - 1] == ""
  {
    var front, last := JoinRest(lines[..|lines| - 1], CRLF), lines[|lines| - 1];
    assert line + JoinRest(lines, CRLF) == line + (front + CRLF + last) by {
      JoinRestLast(lines);
    }
    AssocFour(line, front, CRLF, last);
    EndsInEmptyLine(line + front, last);
  }

  lemma AssocFour(a: string, b: string, c: string, d: string)
    ensures a + (b + c + d) == (a + b) + c + d
  {
  }

  lemma EndsOpen(line: string)
    requires NoBreak(line)
    ensures !EndsWith(line, CRLF)
  {
    if |line| >= 2 { CrlfIs(line[|line| - 2..]); }
  }

  lemma EndsInEmptyLine(front: string, last: string)
    requires NoBreak(last)
    ensures EndsWith(front + CRLF + last, CRLF) <==> last == ""
  {
    var s := front + CRLF + last;
    CrlfIs(s[|s| - 2..]);
    assert |last| == 1 ==> s[|s| - 2] == '\n';
    assert |last| >= 2 ==> s[|s| - 2] == last[|last| - 2] && s[|s| - 1] == last[|last| - 1];
  }

  /** The lines of a message that reach the mailbox: a final CRLF is taken for the terminator's. */
  function Kept(lines: seq<string>): seq<string> {
    if lines != [] && lines[|lines| - 1] == "" then lines[..|lines| - 1] else lines
  }

  lemma Terminated(s: string)
    ensures (s + CRLF) + "" + ".\r\n" == s + TERMINATOR
    ensures s + CRLF + ".\r\n" == s + TERMINATOR
  {
  }

  /** The wire form is the stuffed lines, the terminator, and nothing else. */
  lemma DataIsLines(line: string, lines: seq<string>)
    requires NoBreak(line) && NoBreaks(lines)
    ensures DataOf(line + JoinRest(lines, CRLF)) == line + JoinRest(StuffLines(Kept(lines)), CRLF) + TERMINATOR
  {
    var stuffed := StuffLines(lines);
    var body := line + JoinRest(stuffed, CRLF);
    assert DotStuff(line + JoinRest(lines, CRLF)) == body by {
      StuffJoined(lines);
      RestStartsWithBreak(lines);
      StuffSkipsLine(line, JoinRest(lines, CRLF));
    }
    assert EndsWith(body, CRLF) <==> stuffed != [] && stuffed[|stuffed| - 1] == "" by {
      StuffKeepsNoBreaks(lines);
      EndsInBreak(line, stuffed);
    }
    if lines != [] && lines[|lines| - 1] == "" {
      var kept := StuffLines(Kept(lines));
      assert body == line + JoinRest(kept, CRLF) + CRLF by {
        JoinRestLast(stuffed);
        assert stuffed[..|stuffed| - 1] == kept;
        Assoc(line, JoinRest(kept, CRLF), CRLF);
      }
      Terminated(line + JoinRest(kept, CRLF));
    } else {
      Terminated(body);
    }
  }

  lemma UnstuffJoined(line: string, lines: seq<string>)
    requires NoBreak(line) && NoBreaks(lines)
    ensures Unstuff(line + JoinRest(lines, CRLF)) == UnstuffLine(line) + JoinRest(UnstuffLines(lines), CRLF)
  {
    var all := [line] + lines;
    SplitJoin(all);
    assert Join(all, CRLF) == line + JoinRest(lines, CRLF);
    assert UnstuffLines(all)[1..] == UnstuffLines(lines);
  }

  lemma UnstuffWhole(line: string, lines: seq<string>)
    ensures UnstuffLine(line + JoinRest(lines, CRLF)) == UnstuffLine(line) + JoinRest(lines, CRLF)
  {
    RestStartsWithBreak(lines);
    var s := line + JoinRest(lines, CRLF);
    DotsAre(s);
    DotsAre(line);
    if ".." <= line {
      assert s[1..] == line[1..] + JoinRest(lines, CRLF);
    }
  }

  lemma LessOneIsKept(line: string, lines: seq<string>)
    requires NoBreak(line) && NoBreaks(lines)
    ensures LessOneCrlf(line + JoinRest(lines, CRLF)) == line + JoinRest(Kept(lines), CRLF)
  {
    EndsInBreak(line, lines);
    if lines != [] && lines[|lines| - 1] == "" {
      JoinRestLast(lines);
      assert line + JoinRest(lines, CRLF) == line + JoinRest(Kept(lines), CRLF) + CRLF;
    }
  }

  /** The lines of a message, the first apart. */
  lemma Lines(raw: string) returns (line: string, lines: seq<string>)
    ensures NoBreak(line) && NoBreaks(lines)
    ensures raw == line + JoinRest(lines, CRLF)
  {
    var all := Split(raw, CRLF);
    JoinSplit(raw, CRLF);
    SplitHasNoBreaks(raw);
    line, lines := all[0], all[1..];
  }

  /** What FATMAMA's sender writes, FATMAMA's intake reads: the first terminator is the sender's, so
      exactly `rest` remains, and the message lacks one final CRLF and, if it began with two dots, one dot. */
  lemma DataRoundTrip(raw: string, rest: string)
    ensures Find(DataOf(raw) + rest, TERMINATOR) == Some(|DataOf(raw)| - |TERMINATOR|)
    ensures Message(DataOf(raw) + rest) == LessOneCrlf(UnstuffLine(raw))
  {
    var line, lines := Lines(raw);
    DataIsLines(line, lines);
    LinesRoundTrip(line, lines, rest);
  }

  lemma LinesRoundTrip(line: string, lines: seq<string>, rest: string)
    requires NoBreak(line) && NoBreaks(lines)
    ensures var wire := line + JoinRest(StuffLines(Kept(lines)), CRLF) + TERMINATOR;
            Find(wire + rest, TERMINATOR) == Some(|wire| - |TERMINATOR|) &&
            Message(wire + rest) == LessOneCrlf(UnstuffLine(line + JoinRest(lines, CRLF)))
  {
    var stuffed := StuffLines(Kept(lines));
    StuffKeepsNoBreaks(Kept(lines));
    FoundBefore(line, stuffed, rest);
    SurvivingLines(line, lines);
  }

  lemma UnstuffStuffed(lines: seq<string>)
    ensures UnstuffLines(StuffLines(lines)) == lines
  {
    forall i | 0 <= i < |lines|
      ensures UnstuffLine(StuffLine(lines[i])) == lines[i]
    {
      DotsAre(StuffLine(lines[i]));
    }
  }

  lemma SurvivingLines(line: string, lines: seq<string>)
    requires NoBreak(line) && NoBreaks(lines)
    ensures Unstuff(line + JoinRest(StuffLines(Kept(lines)), CRLF)) ==
            LessOneCrlf(UnstuffLine(line + JoinRest(lines, CRLF)))
  {
    var kept := Kept(lines);
    assert Unstuff(line + JoinRest(StuffLines(kept), CRLF)) == UnstuffLine(line) + JoinRest(kept, CRLF) by {
      StuffKeepsNoBreaks(kept);
      UnstuffJoined(line, StuffLines(kept));
      UnstuffStuffed(kept);
    }
    UnstuffWhole(line, lines);
    LessOneIsKept(UnstuffLine(line), lines);
  }

  lemma FoundBefore(line: string, lines: seq<string>, rest: string)
    requires NoBreak(line) && NoBreaks(lines) && "." !in lines
    ensures var s := line + JoinRest(lines, CRLF);
            Find(s + TERMINATOR + rest, TERMINATOR) == Some(|s|) && BeforeTerminator(s + TERMINATOR + rest) == s
  {
    var s := line + JoinRest(lines, CRLF);
    FirstTerminator(line, lines, rest);
    FindsTerminator(s + TERMINATOR + rest, |s|);
    assert (s + TERMINATOR + rest)[..|s|] == s;
  }

  lemma NoTerminatorInside(s: string)
    requires FirstTerminatorAt(s + TERMINATOR + "", |s|)
    ensures Find(s, TERMINATOR).None?
  {
    if Find(s, TERMINATOR).Some? {
      var i := Find(s, TERMINATOR).value;
      PatternsAre(s, i);
      assert TerminatorAt(s + TERMINATOR + "", i);
    }
  }

  lemma StuffedIsNoDot(lines: seq<string>)
    ensures "." !in StuffLines(lines)
  {
  }

  /** A sender that hangs up before the terminator has its message filed all the same, as far as it came: the intake tells no
      difference. */
  lemma HangUpIsFiled(raw: string)
    ensures Find(DotStuff(raw), TERMINATOR).None? && Message(DotStuff(raw)) == UnstuffLine(raw)
  {
    var line, lines := Lines(raw);
    var stuffed := StuffLines(lines);
    var s := line + JoinRest(stuffed, CRLF);
    assert DotStuff(raw) == s by {
      StuffJoined(lines);
      RestStartsWithBreak(lines);
      StuffSkipsLine(line, JoinRest(lines, CRLF));
    }
    StuffKeepsNoBreaks(lines);
    StuffedIsNoDot(lines);
    FirstTerminator(line, stuffed, "");
    NoTerminatorInside(s);
    UnstuffJoined(line, stuffed);
    UnstuffStuffed(lines);
    UnstuffWhole(line, lines);
  }

  /** Transparency holds for a message exactly when it does not begin with two dots. */
  lemma Transparency(raw: string, rest: string)
    ensures Message(DataOf(raw) + rest) == LessOneCrlf(raw) <==> !(".." <= raw)
  {
    assert Message(DataOf(raw) + rest) == LessOneCrlf(UnstuffLine(raw)) by {
      DataRoundTrip(raw, rest);
    }
    if ".." <= raw {
      LostDot(raw);
    }
  }

  lemma LostDot(raw: string)
    requires ".." <= raw
    ensures |LessOneCrlf(raw[1..])| == |LessOneCrlf(raw)| - 1
  {
    assert |raw| >= 3 ==> raw[1..][|raw| - 3..] == raw[|raw| - 2..];
    assert raw[0] == '.' && raw[1] == '.';
    CrlfIs(raw[|raw| - 2..]);
    assert EndsWith(raw[1..], CRLF) == EndsWith(raw, CRLF);
  }

  /** A message whose first line begins with two dots loses one of them. */
  lemma LeadingDotsAreLost()
    ensures Message(DataOf("..sig") + "QUIT\r\n") == ".sig"
  {
    DataRoundTrip("..sig", "QUIT\r\n");
  }

  // ---------------------------------------------------------------- a carrier that does not stuff

  /** No line begins with two dots and no line after the first is a lone dot. */
  predicate NeedsNoStuffing(raw: string) {
    var lines := Split(raw, CRLF);
    (forall line :: line in lines ==> !(".." <= line)) && "." !in lines[1..]
  }

  /** ANTIE's carrier does not stuff; its message arrives unchanged, and the stream is left after the
      terminator, exactly when the message needs no stuffing. */
  lemma CarrierTransparency(raw: string, rest: string)
    ensures NeedsNoStuffing(raw) <==>
              Message(CarrierDataOf(raw) + rest) == raw &&
              Find(CarrierDataOf(raw) + rest, TERMINATOR) == Some(|raw|)
  {
    var all := Split(raw, CRLF);
    var line, lines := all[0], all[1..];
    JoinSplit(raw, CRLF);
    SplitHasNoBreaks(raw);
    if "." !in lines {
      FoundBefore(line, lines, rest);
      UnstuffKeepsExactly(all, raw);
    } else {
      FirstTerminator(line, lines, rest);
      var n: nat :| n < |raw| && FirstTerminatorAt(raw + TERMINATOR + rest, n);
      FindsTerminator(raw + TERMINATOR + rest, n);
    }
  }

  lemma UnstuffKeepsExactly(lines: seq<string>, raw: string)
    requires lines == Split(raw, CRLF)
    ensures Unstuff(raw) == raw <==> forall line :: line in lines ==> !(".." <= line)
  {
    JoinSplit(raw, CRLF);
    UnstuffShrinks(lines[1..]);
    assert UnstuffLines(lines)[1..] == UnstuffLines(lines[1..]);
    assert |Unstuff(raw)| == |UnstuffLine(lines[0])| + |JoinRest(UnstuffLines(lines[1..]), CRLF)|;
    assert |raw| == |lines[0]| + |JoinRest(lines[1..], CRLF)|;
    if line :| line in lines && ".." <= line {
      assert line == lines[0] || line in lines[1..];
    } else {
      UnstuffsNothing(lines);
    }
  }

  lemma UnstuffsNothing(lines: seq<string>)
    requires forall line :: line in lines ==> !(".." <= line)
    ensures UnstuffLines(lines) == lines
  {
    forall i | 0 <= i < |lines|
      ensures UnstuffLine(lines[i]) == lines[i]
    {
      assert lines[i] in lines;
    }
  }

  lemma {:induction false} UnstuffShrinks(lines: seq<string>)
    ensures |JoinRest(UnstuffLines(lines), CRLF)| <= |JoinRest(lines, CRLF)|
    ensures (exists l :: l in lines && ".." <= l) ==>
              |JoinRest(UnstuffLines(lines), CRLF)| < |JoinRest(lines, CRLF)|
    decreases |lines|
  {
    if lines != [] {
      UnstuffShrinks(lines[1..]);
      assert UnstuffLines(lines)[1..] == UnstuffLines(lines[1..]);
      assert forall l :: l in lines <==> l == lines[0] || l in lines[1..];
    }
  }
}
