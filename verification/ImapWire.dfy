/** IMAP on ANTIE's side: a FETCH response whose literal is read byte for byte (section 4.3 of RFC 9051), and quoted
    arguments. */
module ImapWire {
  import opened Text
  import opened Streams

  // ---------------------------------------------------------------- numbers

  const TWO_TO_THE_64: nat := 0x1_0000_0000_0000_0000

  function Digit(d: nat): char
    requires d < 10
  {
    '0' + d as char
  }

  function Decimal(n: nat): (s: string)
    ensures s != ""
  {
    (if n < 10 then "" else Decimal(n / 10)) + [Digit(n % 10)]
  }

  function DigitsValue(s: string): Option<nat> {
    if s == "" then Some(0)
    else
      var last := s[|s| - 1];
      match DigitsValue(s[..|s| - 1])
      case Some(v) => if '0' <= last <= '9' then Some(10 * v + (last - '0') as nat) else None
      case None => None
  }

  /** `parse::<usize>` on a 64-bit machine. */
  function ParseUsize(s: string): Option<nat> {
    var digits := if |s| >= 2 && s[0] == '+' then s[1..] else s;
    match DigitsValue(digits)
    case Some(v) => if digits == "" || v >= TWO_TO_THE_64 then None else Some(v)
    case None => None
  }

  lemma {:induction false} DecimalIsRead(n: nat)
    ensures DigitsValue(Decimal(n)) == Some(n) && Decimal(n)[0] != '+' && '{' !in Decimal(n)
  {
    var s, last := Decimal(n), Digit(n % 10);
    assert s[..|s| - 1] == if n < 10 then "" else Decimal(n / 10);
    assert '0' <= last <= '9' && (last - '0') as nat == n % 10;
    if n >= 10 {
      DecimalIsRead(n / 10);
    }
  }

  predicate AllZeros(s: string) {
    forall i :: 0 <= i < |s| ==> s[i] == '0'
  }

  lemma {:induction false} ZerosAreNothing(zeros: string)
    requires AllZeros(zeros)
    ensures DigitsValue(zeros) == Some(0)
  {
    if zeros != "" {
      ZerosAreNothing(zeros[..|zeros| - 1]);
    }
  }

  lemma {:induction false} NumeralIsRead(zeros: string, n: nat)
    requires AllZeros(zeros)
    ensures DigitsValue(zeros + Decimal(n)) == Some(n)
    decreases n
  {
    var s, last := zeros + Decimal(n), Digit(n % 10);
    assert s[|s| - 1] == last && (last - '0') as nat == n % 10;
    if n < 10 {
      assert s[..|s| - 1] == zeros;
      ZerosAreNothing(zeros);
    } else {
      assert s[..|s| - 1] == zeros + Decimal(n / 10);
      NumeralIsRead(zeros, n / 10);
    }
  }

  lemma {:induction false} ReadIsNumeral(s: string) returns (zeros: string)
    requires s != "" && DigitsValue(s).Some?
    ensures AllZeros(zeros) && s == zeros + Decimal(DigitsValue(s).value)
  {
    var front, last := s[..|s| - 1], s[|s| - 1];
    assert s == front + [last];
    var d := (last - '0') as nat;
    assert last == Digit(d);
    if front == "" {
      zeros := "";
      assert Decimal(d) == "" + [Digit(d)];
    } else {
      zeros := ReadIsNumeral(front);
      var v := DigitsValue(front).value;
      if v == 0 {
        assert Decimal(0) == "" + ['0'];
        zeros := zeros + "0";
        assert Decimal(d) == "" + [Digit(d)];
      } else {
        assert (10 * v + d) / 10 == v && (10 * v + d) % 10 == d;
        Assoc(zeros, Decimal(v), [last]);
      }
    }
  }

  /** A size is read from a decimal number, with leading zeros or a plus sign or without, and from nothing else; one of 2^64 or more is
      not read. */
  lemma ParseUsizeIff(s: string, n: nat)
    ensures ParseUsize(s) == Some(n) <==>
            n < TWO_TO_THE_64 &&
            exists zeros: string :: AllZeros(zeros) && (s == zeros + Decimal(n) || s == "+" + (zeros + Decimal(n)))
  {
    if zeros: string :| AllZeros(zeros) && (s == zeros + Decimal(n) || s == "+" + (zeros + Decimal(n))) {
      NumeralIsRead(zeros, n);
      DigitsOnly(zeros + Decimal(n));
      if s == "+" + (zeros + Decimal(n)) {
        assert s[1..] == zeros + Decimal(n);
      }
    }
    if ParseUsize(s) == Some(n) {
      if |s| >= 2 && s[0] == '+' {
        var zeros := ReadIsNumeral(s[1..]);
        assert s == "+" + s[1..];
      } else {
        var zeros := ReadIsNumeral(s);
      }
    }
  }

  lemma {:induction false} DigitsOnly(s: string)
    requires DigitsValue(s).Some?
    ensures forall i :: 0 <= i < |s| ==> '0' <= s[i] <= '9'
  {
    if s != "" {
      DigitsOnly(s[..|s| - 1]);
    }
  }

  // ---------------------------------------------------------------- fetch_message

  /** The number in braces at the end of a line. */
  function LiteralSize(trimmed: string): Option<nat> {
    if trimmed == "" || trimmed[|trimmed| - 1] != '}' then None
    else match CutLast(trimmed[..|trimmed| - 1], '{')
         case Some((_, digits)) => ParseUsize(digits)
         case None => None
  }

  /** A line announces a literal by the number in the last braces, and only at its very end. */
  lemma LiteralSizeIs(front: string, digits: string, other: string)
    requires '{' !in digits
    ensures LiteralSize(front + "{" + digits + "}") == ParseUsize(digits)
    ensures other == "" || other[|other| - 1] != '}' || '{' !in other ==> LiteralSize(other) == None
  {
    var t := front + "{" + digits + "}";
    assert t[..|t| - 1] == front + ['{'] + digits;
    OneLastCut(t[..|t| - 1], '{', front, digits);
    if other != "" && '{' !in other {
      LastIndexIsThere(other[..|other| - 1], '{');
    }
  }

  /** What `fetch_message` makes of everything the server will send: the data and the rest of the stream, or an error
      when it ends first. */
  function Fetch(stream: string, tag: string): Option<(string, string)>
    decreases |stream|
  {
    if stream == "" then None
    else
      var line := FirstLine(stream);
      var rest := stream[|line|..];
      if tag <= Trim(line) then Some(("", rest))
      else match LiteralSize(Trim(line))
           case None => Fetch(rest, tag)
           case Some(n) => if |rest| < n then None else Prepend(rest[..n], Fetch(rest[n..], tag))
  }

  /** `carrier_io::read_exact`: fills a buffer from chunks of any sizes, or fails at the end of the stream. */
  method ReadExact(reader: LineReader, size: nat, chunks: nat -> nat) returns (buf: Option<string>)
    modifies reader
    ensures var before := old(reader.pending);
            if |before| < size then buf == None
            else buf == Some(before[..size]) && reader.pending == before[size..]
  {
    var got, turn := "", 0;
    while |got| < size
      invariant |got| <= size
      invariant got + reader.pending == old(reader.pending)
      decreases size - |got|
    {
      var chunk := reader.Read(size - |got|, chunks(turn));
      if chunk == "" {
        return None;
      }
      Assoc(got, chunk, reader.pending);
      got, turn := got + chunk, turn + 1;
    }
    buf := Some(got);
  }

  method FetchMessage(reader: LineReader, tag: string, chunks: nat -> nat) returns (data: Option<string>)
    modifies reader
    ensures var r := Fetch(old(reader.pending), tag);
            if r.Some? then data == Some(r.value.0) && reader.pending == r.value.1 else data == None
  {
    var got := "";
    PrependNothing(Fetch(reader.pending, tag));
    while true
      invariant Fetch(old(reader.pending), tag) == Prepend(got, Fetch(reader.pending, tag))
      decreases |reader.pending|
    {
      ghost var stream := reader.pending;
      var line := reader.ReadLine();
      if line.None? {
        return None;
      }
      var trimmed := Trim(line.value);
      if tag <= trimmed {
        assert got + "" == got;
        return Some(got);
      }
      var size := LiteralSize(trimmed);
      if size.Some? {
        var literal := ReadExact(reader, size.value, chunks);
        if literal.None? {
          return None;
        }
        PrependTwice(got, literal.value, Fetch(reader.pending, tag));
        got := got + literal.value;
      }
    }
  }

  // ---------------------------------------------------------------- a literal comes through whole

  /** A line, or any part of it from its start, that does not read as the tagged answer. */
  predicate IsUntagged(line: string, tag: string) {
    IsLine(line) && forall k :: 0 <= k <= |line| ==> !(tag <= Trim(line[..k]))
  }

  lemma FirstDiffers(a: string, b: string)
    requires a != "" && b != "" && a[0] != b[0]
    ensures !(a <= b)
  {
  }

  /** An untagged response line begins with an asterisk, what follows a literal with a parenthesis; no tag does. */
  lemma StartsUntagged(line: string, tag: string)
    requires IsLine(line) && !IsSpace(line[0]) && tag != "" && tag[0] != line[0]
    ensures IsUntagged(line, tag)
  {
    forall k | 0 <= k <= |line|
      ensures !(tag <= Trim(line[..k]))
    {
      if k > 0 {
        TrimKeepsFirst(line[..k]);
        FirstDiffers(tag, Trim(line[..k]));
      }
    }
  }

  /** The line that announces a literal of `n` bytes. */
  function Announcement(front: string, n: nat): string {
    front + "{" + Decimal(n) + "}" + CRLF
  }

  lemma TrimEnds(s: string)
    requires s != "" && !IsSpace(s[|s| - 1])
    ensures TrimRight(s + CRLF) == s
  {
    var one := s + "\r";
    assert s + CRLF == one + "\n";
    assert (one + "\n")[..|one|] == one && one[..|s|] == s;
    assert TrimRight(one) == TrimRight(s) == s;
  }

  lemma AnnouncementSize(front: string, n: nat)
    requires front != "" && !IsSpace(front[0]) && n < TWO_TO_THE_64
    ensures LiteralSize(Trim(Announcement(front, n))) == Some(n)
  {
    var body := front + "{" + Decimal(n) + "}";
    TrimLeftStarts(body + CRLF);
    TrimEnds(body);
    assert body[..|body| - 1] == front + "{" + Decimal(n);
    DecimalIsRead(n);
    OneLastCut(body[..|body| - 1], '{', front, Decimal(n));
  }

  lemma {:induction false} DecimalHasNoBreak(n: nat)
    ensures forall c :: c in Decimal(n) ==> '0' <= c <= '9'
  {
    if n >= 10 {
      DecimalHasNoBreak(n / 10);
    }
  }

  lemma AnnouncementIsLine(front: string, n: nat)
    requires '\n' !in front
    ensures IsLine(Announcement(front, n))
  {
    DecimalHasNoBreak(n);
    var body := front + "{" + Decimal(n) + "}";
    assert '\n' !in Decimal(n);
    assert '\n' !in body + "\r";
    assert Announcement(front, n) == body + "\r" + "\n";
    assert forall k :: 0 <= k < |body| + 1 ==> Announcement(front, n)[k] == (body + "\r")[k];
  }

  /** One line that is not the tagged answer, at the head of what remains. */
  lemma SkipLine(line: string, rest: string, tag: string)
    requires IsUntagged(line, tag)
    ensures Fetch(line + rest, tag) ==
            match LiteralSize(Trim(line)) {
              case None => Fetch(rest, tag)
              case Some(n) => if |rest| < n then None else Prepend(rest[..n], Fetch(rest[n..], tag))
            }
  {
    FirstLineIs(line, rest);
    assert (line + rest)[|line|..] == rest;
    assert line[..|line|] == line;
  }

  lemma StopsAtTag(answer: string, rest: string, tag: string)
    requires IsLine(answer) && tag <= Trim(answer)
    ensures Fetch(answer + rest, tag) == Some(("", rest))
  {
    FirstLineIs(answer, rest);
    assert (answer + rest)[|answer|..] == rest;
  }

  /** What a response to FETCH consists of before its tagged answer: lines that announce nothing, and literals. */
  datatype Part = Line(text: string) | Literal(front: string, payload: string)

  datatype Response = Response(parts: seq<Part>, answer: string)

  function PartText(part: Part): string {
    match part
    case Line(text) => text
    case Literal(front, payload) => Announcement(front, |payload|) + payload
  }

  function PartsText(parts: seq<Part>): string {
    if parts == [] then "" else PartText(parts[0]) + PartsText(parts[1..])
  }

  function ResponseText(r: Response): string {
    PartsText(r.parts) + r.answer
  }

  /** The bytes of the literals, one after another. */
  function Payloads(parts: seq<Part>): string {
    if parts == [] then ""
    else (match parts[0] { case Line(_) => "" case Literal(_, payload) => payload }) + Payloads(parts[1..])
  }

  predicate IsPart(part: Part, tag: string)
    requires tag != ""
  {
    match part
    case Line(text) => IsUntagged(text, tag) && LiteralSize(Trim(text)) == None
    case Literal(front, payload) =>
      front != "" && !IsSpace(front[0]) && front[0] != tag[0] && '\n' !in front && |payload| < TWO_TO_THE_64
  }

  predicate IsTag(tag: string) {
    tag != "" && !IsSpace(tag[0]) && !IsSpace(tag[|tag| - 1])
  }

  /** Untagged lines and literals in any number and order, then a line that begins with the tag, whatever it says. */
  predicate IsResponse(r: Response, tag: string) {
    IsTag(tag) && (forall i :: 0 <= i < |r.parts| ==> IsPart(r.parts[i], tag)) && IsLine(r.answer) && tag <= r.answer
  }

  lemma AnnouncementIsUntagged(part: Part, tag: string)
    requires tag != "" && part.Literal? && IsPart(part, tag)
    ensures var head := Announcement(part.front, |part.payload|);
            IsUntagged(head, tag) && LiteralSize(Trim(head)) == Some(|part.payload|)
  {
    AnnouncementIsLine(part.front, |part.payload|);
    StartsUntagged(Announcement(part.front, |part.payload|), tag);
    AnnouncementSize(part.front, |part.payload|);
  }

  /** A line is passed over; the announced bytes are taken as they are, whatever they look like. */
  lemma TakesPart(part: Part, tag: string, rest: string)
    requires tag != "" && IsPart(part, tag)
    ensures Fetch(PartText(part) + rest, tag) == Prepend(Payloads([part]), Fetch(rest, tag))
  {
    assert [part][1..] == [];
    PrependNothing(Fetch(rest, tag));
    match part {
      case Line(text) =>
        SkipLine(text, rest, tag);
        assert Payloads([part]) == "";
      case Literal(front, payload) =>
        var head := Announcement(front, |payload|);
        AnnouncementIsUntagged(part, tag);
        Assoc(head, payload, rest);
        SkipLine(head, payload + rest, tag);
        assert (payload + rest)[..|payload|] == payload && (payload + rest)[|payload|..] == rest;
        assert Payloads([part]) == payload + "" == payload;
    }
  }

  lemma PayloadsFirst(parts: seq<Part>)
    requires parts != []
    ensures Payloads(parts) == Payloads([parts[0]]) + Payloads(parts[1..])
  {
    assert [parts[0]][1..] == [];
    assert parts[0].Literal? ==> Payloads([parts[0]]) == parts[0].payload + "" == parts[0].payload;
  }

  lemma {:induction false} TakesParts(parts: seq<Part>, tag: string, rest: string)
    requires tag != "" && forall i :: 0 <= i < |parts| ==> IsPart(parts[i], tag)
    ensures Fetch(PartsText(parts) + rest, tag) == Prepend(Payloads(parts), Fetch(rest, tag))
  {
    if parts == [] {
      assert PartsText(parts) + rest == rest;
      PrependNothing(Fetch(rest, tag));
    } else {
      var more := PartsText(parts[1..]) + rest;
      Assoc(PartText(parts[0]), PartsText(parts[1..]), rest);
      TakesPart(parts[0], tag, more);
      TakesParts(parts[1..], tag, rest);
      PayloadsFirst(parts);
      PrependTwice(Payloads([parts[0]]), Payloads(parts[1..]), Fetch(rest, tag));
    }
  }

  lemma TagSurvivesTrim(answer: string, tag: string, k: nat)
    requires tag != "" && tag <= answer && !IsSpace(tag[0]) && !IsSpace(tag[|tag| - 1]) && |tag| <= k <= |answer|
    ensures tag <= Trim(answer[..k])
  {
    TrimLeftStarts(answer[..k]);
    TrimRightStops(answer[..k], |tag|);
  }

  /** For every response: exactly the bytes of its literals come back, tagged-looking lines and braces included, and the
      stream is left right behind the tagged answer. */
  lemma FetchReturnsLiterals(r: Response, tag: string, rest: string)
    requires IsResponse(r, tag)
    ensures Fetch(ResponseText(r) + rest, tag) == Some((Payloads(r.parts), rest))
  {
    Assoc(PartsText(r.parts), r.answer, rest);
    TakesParts(r.parts, tag, r.answer + rest);
    TagSurvivesTrim(r.answer, tag, |r.answer|);
    assert r.answer[..|r.answer|] == r.answer;
    StopsAtTag(r.answer, rest, tag);
    assert Payloads(r.parts) + "" == Payloads(r.parts);
  }

  predicate HasNoLiteral(parts: seq<Part>) {
    forall i :: 0 <= i < |parts| ==> parts[i].Line?
  }

  /** A response without a literal reads as an empty message, whether its answer is NO, BAD, or OK behind a quoted string. */
  lemma {:induction false} NoLiteralIsEmpty(parts: seq<Part>)
    requires HasNoLiteral(parts)
    ensures Payloads(parts) == ""
  {
    if parts != [] {
      NoLiteralIsEmpty(parts[1..]);
    }
  }

  /** One with a single literal is that literal. */
  lemma {:induction false} OneLiteralIs(before: seq<Part>, front: string, payload: string, after: seq<Part>)
    requires HasNoLiteral(before) && HasNoLiteral(after)
    ensures Payloads(before + [Literal(front, payload)] + after) == payload
  {
    var parts := before + [Literal(front, payload)] + after;
    if before == [] {
      assert parts[0] == Literal(front, payload) && parts[1..] == after;
      NoLiteralIsEmpty(after);
    } else {
      assert parts[0] == before[0] && parts[1..] == before[1..] + [Literal(front, payload)] + after;
      OneLiteralIs(before[1..], front, payload, after);
    }
  }

  // ---------------------------------------------------------------- a stream that ends early

  /** A last line without its line feed that is not the tagged answer ends in an error, even when it reads as a literal. */
  lemma PartOfLine(line: string, k: nat, tag: string)
    requires IsUntagged(line, tag) && k <= |line|
    ensures Fetch(line[..k], tag) == None
  {
    if k == |line| {
      assert line[..k] == line + "";
      SkipLine(line, "", tag);
    } else if k > 0 {
      NoFeed(line[..k]);
    }
  }

  lemma {:induction false} NoFeed(s: string)
    requires '\n' !in s
    ensures FirstLine(s) == s
  {
    if s != "" {
      NoFeed(s[1..]);
    }
  }

  /** Text without a line feed is one line, and the last. */
  lemma LastLine(part: string, tag: string)
    requires '\n' !in part && part != ""
    ensures tag <= Trim(part) ==> Fetch(part, tag) == Some(("", ""))
    ensures !(tag <= Trim(part)) ==> Fetch(part, tag) == None
  {
    NoFeed(part);
    assert part[|part|..] == "";
    assert Fetch("", tag) == None;
  }

  lemma PartOfAnswer(answer: string, k: nat, tag: string)
    requires IsLine(answer) && tag != "" && tag <= answer && !IsSpace(tag[0]) && !IsSpace(tag[|tag| - 1]) && k <= |answer|
    ensures Fetch(answer[..k], tag) == if k < |tag| then None else Some(("", ""))
  {
    var part := answer[..k];
    if k == |answer| {
      TagSurvivesTrim(answer, tag, k);
      assert part == answer == answer + "";
      StopsAtTag(answer, "", tag);
    } else if k >= |tag| {
      TagSurvivesTrim(answer, tag, k);
      LastLine(part, tag);
    } else {
      TrimIsShorter(part);
      if part != "" {
        LastLine(part, tag);
      }
    }
  }

  lemma {:induction false} TrimLeftShorter(s: string)
    ensures |TrimLeft(s)| <= |s|
  {
    if s != "" && IsSpace(s[0]) {
      TrimLeftShorter(s[1..]);
    }
  }

  lemma TrimIsShorter(s: string)
    ensures |Trim(s)| <= |s|
  {
    TrimLeftShorter(s);
    TrimRightPrefix(TrimLeft(s));
  }

  /** A stream that ends within a line or a literal, or right behind it, ends in an error. */
  lemma CutPart(part: Part, k: nat, tag: string)
    requires tag != "" && IsPart(part, tag) && k <= |PartText(part)|
    ensures Fetch(PartText(part)[..k], tag) == None
  {
    match part {
      case Line(text) => PartOfLine(text, k, tag);
      case Literal(front, payload) =>
        var head := Announcement(front, |payload|);
        AnnouncementIsUntagged(part, tag);
        if k <= |head| {
          assert PartText(part)[..k] == head[..k];
          PartOfLine(head, k, tag);
        } else {
          assert PartText(part)[..k] == head + payload[..k - |head|];
          SkipLine(head, payload[..k - |head|], tag);
          assert Fetch("", tag) == None;
        }
    }
  }

  lemma CutTwo(a: string, b: string, k: nat)
    requires k <= |a + b|
    ensures (a + b)[..k] == if k <= |a| then a[..k] else a + b[..k - |a|]
  {
  }

  lemma {:induction false} CutParts(parts: seq<Part>, tail: string, k: nat, tag: string)
    requires tag != "" && (forall i :: 0 <= i < |parts| ==> IsPart(parts[i], tag)) && k <= |PartsText(parts) + tail|
    requires Fetch("", tag) == None
    ensures Fetch((PartsText(parts) + tail)[..k], tag) ==
            if k <= |PartsText(parts)| then None else Prepend(Payloads(parts), Fetch(tail[..k - |PartsText(parts)|], tag))
  {
    CutTwo(PartsText(parts), tail, k);
    if k > |PartsText(parts)| {
      TakesParts(parts, tag, tail[..k - |PartsText(parts)|]);
    } else if parts != [] {
      CutWithin(parts, k, tag);
    }
  }

  lemma {:induction false} CutWithin(parts: seq<Part>, k: nat, tag: string)
    requires tag != "" && (forall i :: 0 <= i < |parts| ==> IsPart(parts[i], tag)) && k <= |PartsText(parts)|
    ensures Fetch(PartsText(parts)[..k], tag) == None
  {
    if parts == [] {
      assert PartsText(parts)[..k] == "";
    } else {
      var first, rest := PartText(parts[0]), PartsText(parts[1..]);
      CutTwo(first, rest, k);
      if k <= |first| {
        CutPart(parts[0], k, tag);
      } else {
        TakesPart(parts[0], tag, rest[..k - |first|]);
        CutWithin(parts[1..], k - |first|, tag);
      }
    }
  }

  /** However early the stream ends, what comes back is an error or the bytes of all literals: the latter exactly when the tag
      of the answer had arrived. */
  lemma TruncationIsAnError(r: Response, tag: string, k: nat)
    requires IsResponse(r, tag) && k <= |ResponseText(r)|
    ensures Fetch(ResponseText(r)[..k], tag) ==
            if k < |PartsText(r.parts)| + |tag| then None else Some((Payloads(r.parts), ""))
  {
    var n := |PartsText(r.parts)|;
    assert Fetch("", tag) == None;
    if k <= n {
      CutBefore(r.parts, r.answer, ResponseText(r), k, tag);
    } else {
      CutBehind(r.parts, r.answer, ResponseText(r), k, tag, r.answer[..k - n]);
      PartOfAnswer(r.answer, k - n, tag);
      NothingMore(Payloads(r.parts), Fetch(r.answer[..k - n], tag));
    }
  }

  lemma CutBefore(parts: seq<Part>, answer: string, whole: string, k: nat, tag: string)
    requires tag != "" && (forall i :: 0 <= i < |parts| ==> IsPart(parts[i], tag)) && whole == PartsText(parts) + answer
    requires k <= |PartsText(parts)| && Fetch("", tag) == None
    ensures Fetch(whole[..k], tag) == None
  {
    CutParts(parts, answer, k, tag);
  }

  lemma CutBehind(parts: seq<Part>, answer: string, whole: string, k: nat, tag: string, come: string)
    requires tag != "" && (forall i :: 0 <= i < |parts| ==> IsPart(parts[i], tag)) && whole == PartsText(parts) + answer
    requires |PartsText(parts)| < k <= |whole| && Fetch("", tag) == None && come == answer[..k - |PartsText(parts)|]
    ensures Fetch(whole[..k], tag) == Prepend(Payloads(parts), Fetch(come, tag))
  {
    CutParts(parts, answer, k, tag);
  }

  lemma NothingMore(data: string, r: Option<(string, string)>)
    requires r == None || r == Some(("", ""))
    ensures Prepend(data, r) == if r == None then None else Some((data, ""))
  {
    assert data + "" == data;
  }

  // ---------------------------------------------------------------- imap_quote

  /** `imap_quote`: nothing for a string with a CR or an LF. */
  function Quote(s: string): Option<string> {
    if '\r' in s || '\n' in s then None
    else Some("\"" + ReplaceAll(ReplaceAll(s, "\\", "\\\\"), "\"", "\\\"") + "\"")
  }

  /** The inside of a quoted string (section 4.3 of RFC 9051) up to its closing quote, and what follows it. */
  function Unquoted(q: string): Option<(string, string)> {
    if q == "" || q[0] == '\r' || q[0] == '\n' then None
    else if q[0] == '"' then Some(("", q[1..]))
    else if q[0] == '\\' then
      if |q| >= 2 && (q[1] == '"' || q[1] == '\\') then Prepend([q[1]], Unquoted(q[2..])) else None
    else Prepend([q[0]], Unquoted(q[1..]))
  }

  function Unquote(q: string): Option<(string, string)> {
    if q != "" && q[0] == '"' then Unquoted(q[1..]) else None
  }

  function EscapeChar(c: char): string {
    if c == '\\' then "\\\\" else if c == '"' then "\\\"" else [c]
  }

  function Escape(s: string): string {
    if s == "" then "" else EscapeChar(s[0]) + Escape(s[1..])
  }

  lemma ReplaceOne(c: char, s: string, pat: char, rep: string)
    ensures ReplaceAll([c] + s, [pat], rep) == (if c == pat then rep else [c]) + ReplaceAll(s, [pat], rep)
  {
    assert ([c] + s)[1..] == s && ([c] + s)[0] == c;
    assert ([c] + s)[..1] == [c];
  }

  /** The two replacements together escape each character by itself: the second does not touch what the first wrote. */
  lemma {:induction false} ReplacesEscape(s: string)
    ensures ReplaceAll(ReplaceAll(s, "\\", "\\\\"), "\"", "\\\"") == Escape(s)
  {
    if s != "" {
      var c, rest := s[0], s[1..];
      var inner := ReplaceAll(rest, "\\", "\\\\");
      ReplacesEscape(rest);
      assert s == [c] + rest;
      ReplaceOne(c, rest, '\\', "\\\\");
      if c == '\\' {
        assert "\\\\" + inner == ['\\'] + (['\\'] + inner);
        ReplaceOne('\\', ['\\'] + inner, '"', "\\\"");
        ReplaceOne('\\', inner, '"', "\\\"");
        assert ['\\'] + (['\\'] + Escape(rest)) == "\\\\" + Escape(rest);
      } else {
        ReplaceOne(c, inner, '"', "\\\"");
      }
    }
  }

  lemma UnquotesOne(c: char, more: string)
    requires c != '\r' && c != '\n'
    ensures Unquoted(EscapeChar(c) + more) == Prepend([c], Unquoted(more))
  {
    var q := EscapeChar(c) + more;
    assert q[|EscapeChar(c)|..] == more;
    assert q[0] == EscapeChar(c)[0];
  }

  lemma {:induction false} UnquotesEscaped(s: string, rest: string)
    requires '\r' !in s && '\n' !in s
    ensures Unquoted(Escape(s) + ("\"" + rest)) == Some((s, rest))
  {
    var end := "\"" + rest;
    if s == "" {
      assert Escape(s) + end == end && end[1..] == rest;
    } else {
      UnquotesEscaped(s[1..], rest);
      Assoc(EscapeChar(s[0]), Escape(s[1..]), end);
      UnquotesOne(s[0], Escape(s[1..]) + end);
      assert [s[0]] + s[1..] == s;
    }
  }

  /** Un-quoting gives back every string that can be quoted; those that cannot are the ones with a CR or an LF. */
  lemma QuoteRoundTrip(s: string, rest: string)
    ensures Quote(s).None? <==> '\r' in s || '\n' in s
    ensures Quote(s).Some? ==> Unquote(Quote(s).value + rest) == Some((s, rest))
  {
    if Quote(s).Some? {
      ReplacesEscape(s);
      UnquotesEscaped(s, rest);
      assert (Quote(s).value + rest)[1..] == Escape(s) + ("\"" + rest);
    }
  }
}
