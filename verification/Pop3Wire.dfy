/** RETR over POP3: FATMAMA byte-stuffs a stored message, ANTIE's POP3 carrier reads it back line by line.

    The carrier reads text, so here a string is the text of a UTF-8 stream. Stuffing touches only
    ASCII characters and is the same on the text as on its bytes. */
module Pop3Wire {
  import opened Text
  import opened Streams
  import opened SmtpWire

  // ---------------------------------------------------------------- the server's reply

  /** FATMAMA's multi-line response to RETR, after the status line. */
  function RetrBody(data: string): string {
    var replaced := DotStuff(data);
    var stuffed := if "." <= replaced then "." + replaced else replaced;
    stuffed + (if EndsWith(stuffed, CRLF) then "" else CRLF) + ".\r\n"
  }

  method SendRetrBody(writer: Writer, data: string)
    modifies writer
    ensures writer.sent == old(writer.sent) + RetrBody(data)
  {
    var stuffed := DotStuff(data);
    if "." <= stuffed {
      stuffed := "." + stuffed;
    }
    ghost var before, end := writer.sent, if EndsWith(stuffed, CRLF) then "" else CRLF;
    writer.Write(stuffed);
    if !EndsWith(stuffed, CRLF) {
      writer.Write(CRLF);
    }
    assert writer.sent == before + (stuffed + end);
    writer.Write(".\r\n");
    Assoc(before, stuffed + end, ".\r\n");
  }

  // ---------------------------------------------------------------- the carrier's reader

  /** The message and what remains of the stream, or nothing when it ends before the lone dot. */
  function Multiline(stream: string): Option<(string, string)>
    decreases |stream|
  {
    if stream == "" then None
    else
      var line := FirstLine(stream);
      var rest := stream[|line|..];
      if Trim(line) == "." then Some(("", rest))
      else Prepend(UnstuffLine(line), Multiline(rest))
  }

  method ReadMultiline(reader: LineReader) returns (data: Option<string>)
    modifies reader
    ensures var r := Multiline(old(reader.pending));
            if r.Some? then data == Some(r.value.0) && reader.pending == r.value.1 else data == None
  {
    var read := "";
    PrependNothing(Multiline(reader.pending));
    while true
      invariant Multiline(old(reader.pending)) == Prepend(read, Multiline(reader.pending))
      decreases |reader.pending|
    {
      var line := reader.ReadLine();
      if line.None? {
        return None;
      }
      if Trim(line.value) == "." {
        assert read + "" == read;
        return Some(read);
      }
      var content := if ".." <= line.value then line.value[1..] else line.value;
      PrependTwice(read, content, Multiline(reader.pending));
      read := read + content;
    }
  }

  // ---------------------------------------------------------------- which messages survive

  function WithFinalCrlf(s: string): string {
    if EndsWith(s, CRLF) then s else s + CRLF
  }

  /** Some line that the server did not stuff reads as the end of the message or as a stuffed line.
      `stuffs` tells whether the server stuffs the first line: it does at the start and behind CRLF. */
  predicate Hazard(text: string, stuffs: bool)
    decreases |text|
  {
    text != "" &&
    var line := FirstLine(text);
    (!(stuffs && "." <= line) && (Trim(line) == "." || ".." <= line)) ||
    Hazard(text[|line|..], EndsWith(line, CRLF))
  }

  /** The stuffed text of which the first line is stuffed or not. */
  function Stuffed(text: string, stuffs: bool): string {
    if stuffs && "." <= text then ".." + DotStuff(text[1..]) else DotStuff(text)
  }

  lemma {:induction false} StuffOneLine(line: string, rest: string)
    requires IsLine(line)
    ensures DotStuff(line + rest) == line + Stuffed(rest, EndsWith(line, CRLF))
    decreases |line|
  {
    if line == CRLF {
      StuffAfterBreak(rest);
      RegroupAfter(rest);
    } else {
      var tail := line[1..];
      StuffFirstChar(line, rest);
      if |line| == 1 {
        assert tail + rest == rest && line == [line[0]];
      } else {
        EndsWithTail(line);
        StuffOneLine(tail, rest);
        Assoc([line[0]], tail, Stuffed(rest, EndsWith(line, CRLF)));
        assert [line[0]] + tail == line;
      }
    }
  }

  /** A line other than a lone CRLF does not begin with a break. */
  lemma StuffFirstChar(line: string, rest: string)
    requires IsLine(line) && line != CRLF
    ensures DotStuff(line + rest) == [line[0]] + DotStuff(line[1..] + rest)
  {
    var s := line + rest;
    PatternsAre(s, 0);
    assert s[0..] == s && s[0] == line[0] && s[1..] == line[1..] + rest;
    assert !("\r\n." <= s) by {
      assert |line| == 2 ==> line == [line[0]] + "\n";
      assert |line| > 1 ==> s[1] == line[1];
    }
  }

  lemma RegroupAfter(rest: string)
    ensures "." <= rest ==> CRLF + ".." + DotStuff(rest[1..]) == CRLF + Stuffed(rest, true)
  {
  }

  lemma EndsWithTail(line: string)
    requires IsLine(line) && |line| >= 2 && line != CRLF
    ensures EndsWith(line[1..], CRLF) == EndsWith(line, CRLF)
  {
    CrlfIs(line[|line| - 2..]);
    if |line| >= 3 {
      assert line[1..][|line| - 3..] == line[|line| - 2..];
    }
  }

  lemma StartsWithDot(line: string, rest: string)
    requires line != ""
    ensures "." <= line + rest <==> "." <= line
    ensures "." <= line <==> line[0] == '.'
  {
    assert (line + rest)[0] == line[0];
  }

  lemma TailAfterDot(line: string, rest: string)
    requires IsLine(line) && line[0] == '.'
    ensures line == "." + line[1..] && (line + rest)[1..] == line[1..] + rest
    ensures IsLine(line[1..]) && EndsWith(line[1..], CRLF) == EndsWith(line, CRLF)
  {
    EndsWithTail(line);
  }

  /** Stuffing a text takes its lines one at a time. */
  lemma StuffedLine(line: string, rest: string, stuffs: bool)
    requires IsLine(line)
    ensures Stuffed(line + rest, stuffs) ==
            (if stuffs && "." <= line then "." + line else line) + Stuffed(rest, EndsWith(line, CRLF))
  {
    var after := Stuffed(rest, EndsWith(line, CRLF));
    StartsWithDot(line, rest);
    if stuffs && "." <= line {
      assert DotStuff((line + rest)[1..]) == line[1..] + after by {
        TailAfterDot(line, rest);
        StuffOneLine(line[1..], rest);
      }
      assert line == "." + line[1..];
      RegroupDot(line[1..], after);
    } else {
      StuffOneLine(line, rest);
    }
  }

  lemma RegroupDot(line: string, after: string)
    ensures ".." + (line + after) == "." + ("." + line) + after
  {
  }

  lemma {:induction false} StuffFinalCrlf(s: string)
    ensures DotStuff(s + CRLF) == DotStuff(s) + CRLF
    decreases |s|
  {
    if s == "" {
      StuffAfterBreak("");
      assert CRLF + "" == CRLF;
      assert "" + CRLF == CRLF;
    } else {
      var t := s + CRLF;
      PatternsAre(s, 0);
      PatternsAre(t, 0);
      assert s[0..] == s && t[0..] == t;
      if "\r\n." <= s {
        assert t[3..] == s[3..] + CRLF;
        StuffFinalCrlf(s[3..]);
        Assoc("\r\n..", DotStuff(s[3..]), CRLF);
      } else {
        assert t[|s|] == '\r' && t[|s| + 1] == '\n';
        assert t[1..] == s[1..] + CRLF;
        StuffFinalCrlf(s[1..]);
        Assoc([s[0]], DotStuff(s[1..]), CRLF);
      }
    }
  }

  /** The reply is the stuffed lines of the message, a final CRLF supplied, and the lone dot. */
  lemma BodyIsStuffed(data: string)
    ensures RetrBody(data) == Stuffed(WithFinalCrlf(data), true) + ".\r\n"
  {
    var replaced := DotStuff(data);
    var stuffed := if "." <= replaced then "." + replaced else replaced;
    LeadingDotStuffed(data);
    assert EndsWith(stuffed, CRLF) == EndsWith(data, CRLF) by {
      StuffedEnd(data);
      DotBeforeEnd(replaced);
    }
    if EndsWith(data, CRLF) {
      assert stuffed + "" == stuffed;
    } else {
      StuffedCrlf(data);
    }
  }

  lemma LeadingDotStuffed(data: string)
    ensures var replaced := DotStuff(data);
            (if "." <= replaced then "." + replaced else replaced) == Stuffed(data, true)
  {
    if "." <= data {
      PatternsAre(data, 0);
      assert data[0..] == data;
      assert DotStuff(data) == [data[0]] + DotStuff(data[1..]);
      assert "." + ("." + DotStuff(data[1..])) == ".." + DotStuff(data[1..]);
    }
  }

  lemma DotBeforeEnd(s: string)
    ensures EndsWith("." + s, CRLF) == EndsWith(s, CRLF)
  {
    if |s| >= 2 {
      assert ("." + s)[|s| - 1..] == s[|s| - 2..];
    } else if |s| == 1 {
      CrlfIs("." + s);
      assert ("." + s)[0..] == "." + s;
    }
  }

  lemma StuffedCrlf(data: string)
    ensures Stuffed(data + CRLF, true) == Stuffed(data, true) + CRLF
  {
    if "." <= data {
      assert (data + CRLF)[1..] == data[1..] + CRLF;
      StuffFinalCrlf(data[1..]);
      Assoc("..", DotStuff(data[1..]), CRLF);
    } else {
      StuffFinalCrlf(data);
      assert !("." <= data + CRLF);
    }
  }

  lemma StuffedEnd(data: string)
    ensures EndsWith(DotStuff(data), CRLF) == EndsWith(data, CRLF)
  {
    var line, lines := Lines(data);
    StuffJoined(lines);
    RestStartsWithBreak(lines);
    StuffSkipsLine(line, JoinRest(lines, CRLF));
    EndsInBreak(line, lines);
    StuffKeepsNoBreaks(lines);
    EndsInBreak(line, StuffLines(lines));
  }

  /** A stuffed line does not end the message, and un-stuffing gives the line back. */
  lemma StuffedLineReads(line: string)
    requires IsLine(line) && "." <= line
    ensures IsLine("." + line) && Trim("." + line) != "." && UnstuffLine("." + line) == line
  {
    var stuffed := "." + line;
    DotsAre(stuffed);
    assert stuffed[1..] == line;
    assert TrimLeft(stuffed) == stuffed;
    TrimRightStops(stuffed, 2);
  }

  /** Reading the stuffed lines of a text and the lone dot: exactly the text, unless a hazard shortens it. */
  lemma {:induction false} ReadsStuffed(text: string, stuffs: bool, rest: string)
    requires text == "" || text[|text| - 1] == '\n'
    ensures var r := Multiline(Stuffed(text, stuffs) + ".\r\n" + rest);
            if Hazard(text, stuffs) then r.Some? ==> |r.value.0| < |text|
            else r == Some((text, rest))
    decreases |text|
  {
    var end := ".\r\n" + rest;
    if text == "" {
      ReadsEnd(rest);
      assert Stuffed(text, stuffs) + ".\r\n" + rest == end;
    } else {
      FirstLineIsLine(text);
      AfterFirstLine(text);
      var line := FirstLine(text);
      var more := text[|line|..];
      var next := EndsWith(line, CRLF);
      var sent := if stuffs && "." <= line then "." + line else line;
      StuffedLine(line, more, stuffs);
      var stream := Stuffed(more, next) + ".\r\n" + rest;
      assert Stuffed(text, stuffs) + ".\r\n" + rest == sent + stream by {
        AssocFour(sent, Stuffed(more, next), ".\r\n", rest);
        Assoc(sent, Stuffed(more, next) + ".\r\n", rest);
        Assoc(sent, Stuffed(more, next), ".\r\n");
      }
      ReadsStuffed(more, next, rest);
      if stuffs && "." <= line {
        StuffedLineReads(line);
      }
      ReadsOneLine(sent, stream);
    }
  }

  lemma ReadsEnd(rest: string)
    ensures Multiline(".\r\n" + rest) == Some(("", rest))
  {
    var stream := ".\r\n" + rest;
    FirstLineIs(".\r\n", rest);
    assert stream[3..] == rest;
    assert TrimLeft(".\r\n") == ".\r\n";
    assert ".\r\n"[..2] == ".\r" && ".\r"[..1] == ".";
    assert TrimRight(".") == "." && TrimRight(".\r") == "." && TrimRight(".\r\n") == ".";
  }

  lemma ReadsOneLine(line: string, stream: string)
    requires IsLine(line)
    ensures Multiline(line + stream) ==
            if Trim(line) == "." then Some(("", stream)) else Prepend(UnstuffLine(line), Multiline(stream))
  {
    FirstLineIs(line, stream);
    assert (line + stream)[|line|..] == stream;
  }

  /** Byte-stuffing of RETR: the carrier reads back exactly the message, with a final CRLF when it had none,
      and is left exactly after the reply, if and only if no unstuffed line is a hazard. */
  lemma RetrRoundTrip(data: string, rest: string)
    ensures Multiline(RetrBody(data) + rest) == Some((WithFinalCrlf(data), rest)) <==>
              !Hazard(WithFinalCrlf(data), true)
  {
    BodyIsStuffed(data);
    var text := WithFinalCrlf(data);
    assert text[|text| - 1] == '\n' by {
      assert text[|text| - 2..] == CRLF;
    }
    ReadsStuffed(text, true, rest);
  }

  /** Every line feed follows a carriage return. */
  predicate NoBareLf(text: string) {
    forall k :: 0 <= k < |text| && text[k] == '\n' ==> k > 0 && text[k - 1] == '\r'
  }

  /** No line is white space around a lone dot that does not begin the line. */
  predicate NoIndentedDot(text: string)
    decreases |text|
  {
    text == "" ||
    var line := FirstLine(text);
    ("." <= line || Trim(line) != ".") && NoIndentedDot(text[|line|..])
  }

  /** A first line that is not the last ends in CRLF, and what follows it has no bare line feed either. */
  lemma RestHasNoBareLf(text: string)
    requires text != "" && NoBareLf(text)
    ensures var line := FirstLine(text);
            var more := text[|line|..];
            NoBareLf(more) && (more != "" ==> EndsWith(line, CRLF))
  {
    var line := FirstLine(text);
    var more := text[|line|..];
    FirstLineEnds(text);
    if more != "" {
      assert line[|line| - 1] == text[|line| - 1] == '\n' && text[|line| - 2] == '\r';
      CrlfIs(line[|line| - 2..]);
    }
    forall k | 0 <= k < |more| && more[k] == '\n'
      ensures k > 0 && more[k - 1] == '\r'
    {
      assert text[|line| + k] == '\n';
      assert text[|line| + k - 1] == '\r';
    }
  }

  /** The messages of section 3 of RFC 1939 are safe: their lines end in CRLF, and none is an indented dot. */
  lemma {:induction false} CanonicalIsSafe(text: string)
    requires NoBareLf(text) && NoIndentedDot(text)
    ensures !Hazard(text, true)
    decreases |text|
  {
    if text != "" {
      FirstLineEnds(text);
      RestHasNoBareLf(text);
      DotsAre(FirstLine(text));
      CanonicalIsSafe(text[|FirstLine(text)|..]);
    }
  }

  /** What follows the first line is not empty only if that line ends in a line feed. */
  lemma {:induction false} FirstLineEnds(text: string)
    requires text != ""
    ensures var line := FirstLine(text);
            0 < |line| <= |text| && line == text[..|line|] && (|line| < |text| ==> line[|line| - 1] == '\n')
    decreases |text|
  {
    if text[0] != '\n' && |text| > 1 {
      FirstLineEnds(text[1..]);
    }
  }

  /** A message with an indented lone dot is read short, whatever follows the reply. */
  lemma IndentedDotTruncates(rest: string)
    ensures Multiline(RetrBody(" .\r\n") + rest) != Some((" .\r\n", rest))
  {
    var text := " .\r\n";
    FirstLineIs(text, "");
    assert text + "" == text;
    assert text[1..] == ".\r\n" && TrimLeft(text) == ".\r\n";
    assert ".\r\n"[..2] == ".\r" && ".\r"[..1] == ".";
    assert TrimRight(".") == "." && TrimRight(".\r") == "." && TrimRight(".\r\n") == ".";
    assert Hazard(text, true);
    assert text[2..] == CRLF;
    RetrRoundTrip(text, rest);
  }

  // ---------------------------------------------------------------- the reader, line by line

  /** The lines of a stream, each with its line feed; the last may have none. */
  function LinesWithFeeds(stream: string): (lines: seq<string>)
    decreases |stream|
  {
    if stream == "" then [] else [FirstLine(stream)] + LinesWithFeeds(stream[|FirstLine(stream)|..])
  }

  function Concat(lines: seq<string>): string {
    if lines == [] then "" else lines[0] + Concat(lines[1..])
  }

  lemma {:induction false} LinesAreTheStream(stream: string)
    ensures Concat(LinesWithFeeds(stream)) == stream
    decreases |stream|
  {
    if stream != "" {
      FirstLineEnds(stream);
      var line := FirstLine(stream);
      LinesAreTheStream(stream[|line|..]);
      assert LinesWithFeeds(stream)[1..] == LinesWithFeeds(stream[|line|..]);
      assert line + stream[|line|..] == stream;
    }
  }

  lemma MultilineStep(stream: string)
    requires stream != ""
    ensures var line := FirstLine(stream);
            Multiline(stream) == if Trim(line) == "." then Some(("", stream[|line|..]))
                                 else Prepend(UnstuffLine(line), Multiline(stream[|line|..]))
  {
  }

  /** The message ends at the first line that trims to a dot, and is the lines before it, each less a dot if it begins with two; what
      is behind it remains. A stream without such a line is an error. */
  lemma {:induction false} MultilineIs(stream: string, i: nat)
    requires var lines := LinesWithFeeds(stream);
             i <= |lines| && (forall j :: 0 <= j < i ==> Trim(lines[j]) != ".") && (i < |lines| ==> Trim(lines[i]) == ".")
    ensures var lines := LinesWithFeeds(stream);
            Multiline(stream) == if i == |lines| then None else Some((Concat(UnstuffLines(lines[..i])), Concat(lines[i + 1..])))
    decreases |stream|
  {
    if stream != "" {
      var line, lines := FirstLine(stream), LinesWithFeeds(stream);
      var rest := stream[|line|..];
      assert lines == [line] + LinesWithFeeds(rest) && lines[1..] == LinesWithFeeds(rest);
      MultilineStep(stream);
      if i == 0 {
        LinesAreTheStream(rest);
        assert lines[..0] == [] && Concat(UnstuffLines([])) == "";
      } else {
        assert forall j :: 0 <= j < i - 1 ==> lines[1..][j] == lines[j + 1];
        MultilineIs(rest, i - 1);
        OneLineMore(line, lines, i, Multiline(rest));
      }
    }
  }

  lemma OneLineMore(line: string, lines: seq<string>, i: nat, r: Option<(string, string)>)
    requires 0 < i <= |lines| && lines[0] == line
    requires r == if i == |lines| then None else Some((Concat(UnstuffLines(lines[1..][..i - 1])), Concat(lines[1..][i..])))
    ensures Prepend(UnstuffLine(line), r) ==
            if i == |lines| then None else Some((Concat(UnstuffLines(lines[..i])), Concat(lines[i + 1..])))
  {
    if i < |lines| {
      assert lines[1..][i..] == lines[i + 1..];
      UnstuffFirst(lines[..i]);
      assert lines[..i][1..] == lines[1..][..i - 1];
    }
  }

  lemma UnstuffFirst(lines: seq<string>)
    requires lines != []
    ensures Concat(UnstuffLines(lines)) == UnstuffLine(lines[0]) + Concat(UnstuffLines(lines[1..]))
  {
    assert UnstuffLines(lines)[1..] == UnstuffLines(lines[1..]);
  }

  // ---------------------------------------------------------------- a reply that is cut short

  /** What stands behind the last line feed. */
  function LastPiece(s: string): string {
    match CutLast(s, '\n')
    case Some((_, piece)) => piece
    case None => s
  }

  lemma PieceBehind(line: string, rest: string)
    requires IsLine(line)
    ensures LastPiece(line + rest) == LastPiece(rest)
  {
    match CutLast(rest, '\n') {
      case Some((front, piece)) =>
        assert line + rest == (line + front) + ['\n'] + piece;
        OneLastCut(line + rest, '\n', line + front, piece);
      case None =>
        assert line == line[..|line| - 1] + ['\n'];
        OneLastCut(line + rest, '\n', line[..|line| - 1], rest);
    }
  }

  lemma {:induction false} NoFeedIsOneLine(s: string)
    requires '\n' !in s
    ensures FirstLine(s) == s && LastPiece(s) == s
  {
    LastIndexIsThere(s, '\n');
    if s != "" {
      NoFeedIsOneLine(s[1..]);
    }
  }

  /** A piece without a line feed is read as a line. */
  lemma ReadsPiece(s: string)
    requires '\n' !in s
    ensures Multiline(s).Some? <==> Trim(s) == "."
  {
    NoFeedIsOneLine(s);
    if s != "" {
      assert s[|s|..] == "";
      assert Multiline("") == None;
    }
  }

  lemma PartOfLine(line: string, k: nat)
    requires IsLine(line) && k < |line|
    ensures '\n' !in line[..k]
  {
  }

  lemma CutOf(line: string, rest: string, k: nat)
    requires k <= |line + rest|
    ensures (line + rest)[..k] == if k < |line| then line[..k] else line + rest[..k - |line|]
  {
  }

  lemma CutEnd(k: nat)
    requires k < 3
    ensures Multiline(".\r\n"[..k]).Some? <==> Trim(LastPiece(".\r\n"[..k])) == "."
  {
    assert IsLine(".\r\n");
    PartOfLine(".\r\n", k);
    NoFeedIsOneLine(".\r\n"[..k]);
    ReadsPiece(".\r\n"[..k]);
  }

  lemma CutLineThen(line: string, rest: string, k: nat)
    requires IsLine(line) && Trim(line) != "." && k < |line + rest|
    requires k >= |line| ==> (Multiline(rest[..k - |line|]).Some? <==> Trim(LastPiece(rest[..k - |line|])) == ".")
    ensures Multiline((line + rest)[..k]).Some? <==> Trim(LastPiece((line + rest)[..k])) == "."
  {
    CutOf(line, rest, k);
    if k < |line| {
      PartOfLine(line, k);
      NoFeedIsOneLine(line[..k]);
      ReadsPiece(line[..k]);
    } else {
      ReadsOneLine(line, rest[..k - |line|]);
      PieceBehind(line, rest[..k - |line|]);
    }
  }

  lemma {:induction false} CutStuffed(text: string, stuffs: bool, k: nat)
    requires text == "" || text[|text| - 1] == '\n'
    requires !Hazard(text, stuffs) && k < |Stuffed(text, stuffs) + ".\r\n"|
    ensures var cut := (Stuffed(text, stuffs) + ".\r\n")[..k]; Multiline(cut).Some? <==> Trim(LastPiece(cut)) == "."
    decreases |text|
  {
    if text == "" {
      assert Stuffed(text, stuffs) + ".\r\n" == ".\r\n";
      CutEnd(k);
    } else {
      FirstLineIsLine(text);
      AfterFirstLine(text);
      var line := FirstLine(text);
      var more := text[|line|..];
      var next := EndsWith(line, CRLF);
      var sent := if stuffs && "." <= line then "." + line else line;
      StuffedLine(line, more, stuffs);
      Assoc(sent, Stuffed(more, next), ".\r\n");
      if stuffs && "." <= line {
        StuffedLineReads(line);
      }
      if k >= |sent| {
        CutStuffed(more, next, k - |sent|);
      }
      CutLineThen(sent, Stuffed(more, next) + ".\r\n", k);
    }
  }

  /** A reply that breaks off anywhere is an error, unless it breaks off behind what trims to a dot: before the terminator that is right
      behind the first dot of a stuffed line, and then a shortened message is taken for the whole. */
  lemma CutReplyIff(data: string, k: nat)
    requires !Hazard(WithFinalCrlf(data), true) && k < |RetrBody(data)|
    ensures var cut := RetrBody(data)[..k]; Multiline(cut).Some? <==> Trim(LastPiece(cut)) == "."
  {
    BodyIsStuffed(data);
    var text := WithFinalCrlf(data);
    assert text[|text| - 1] == '\n' by {
      assert text[|text| - 2..] == CRLF;
    }
    CutStuffed(text, true, k);
  }

  lemma ReadsDot()
    ensures Multiline(".") == Some(("", ""))
  {
    NoFeedIsOneLine(".");
    assert TrimLeft(".") == "." && TrimRight(".") == ".";
    assert "."[1..] == "";
  }

  /** So every message that begins with a dot has such a place: cut behind its first byte, the reply reads as a whole and empty message. */
  lemma CutBehindDotReadsAsWhole(data: string)
    requires "." <= data
    ensures |RetrBody(data)| > 1 && Multiline(RetrBody(data)[..1]) == Some(("", ""))
  {
    BodyIsStuffed(data);
    var text := WithFinalCrlf(data);
    assert "." <= text by {
      assert data[0] == '.' && text[0] == data[0];
    }
    var after := DotStuff(text[1..]) + ".\r\n";
    assert RetrBody(data) == ".." + after by {
      Assoc("..", DotStuff(text[1..]), ".\r\n");
    }
    assert RetrBody(data)[..1] == ".";
    ReadsDot();
  }
}
