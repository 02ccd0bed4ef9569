/** The mails ANTIE builds: they need no dot-stuffing, so its SMTP carrier, which does none, delivers them whole; the
    collector finds their recipient, and the parser their type and request id. */
module BuiltMail {
  import opened Text
  import opened MailStore
  import opened DeliveryAddress
  import opened SmtpWire

  // ---------------------------------------------------------------- build_response

  predicate IsPlain(s: string) {
    '\r' !in s && '\n' !in s
  }

  /** `sanitize_header` */
  function Sanitize(value: string): (r: string)
    ensures IsPlain(r)
    ensures IsPlain(value) ==> r == value
  {
    if value == "" then ""
    else if value[0] == '\r' || value[0] == '\n' then Sanitize(value[1..])
    else
      assert value == [value[0]] + value[1..];
      [value[0]] + Sanitize(value[1..])
  }

  /** `validate_email_addr` */
  predicate IsValidAddress(addr: string) {
    IsPlain(addr) && addr != "" && '@' in addr
  }

  predicate IsBase64Char(c: char) {
    'A' <= c <= 'Z' || 'a' <= c <= 'z' || '0' <= c <= '9' || c == '+' || c == '/' || c == '='
  }

  predicate IsBase64(s: string) {
    forall c :: c in s ==> IsBase64Char(c)
  }

  /** What other crates supply: a message id and a date, each on one line, and the encoded body. */
  datatype Supplied = Supplied(messageId: string, date: string, encoded: string)

  predicate IsSupplied(made: Supplied) {
    IsPlain(made.messageId) && IsPlain(made.date) && IsBase64(made.encoded)
  }

  function SubjectText(messageType: string, requestId: string): string {
    "AXIOM/" + Sanitize(messageType) + "/" + Sanitize(requestId)
  }

  function HeaderLines(to: string, from: string, messageType: string, requestId: string, replyTo: Option<string>, made: Supplied): seq<string> {
    ["From: " + Sanitize(from), "To: " + Sanitize(to), "Subject: " + SubjectText(messageType, requestId),
     "Message-ID: " + made.messageId, "Date: " + made.date, "Content-Type: text/plain; charset=utf-8"] +
    match replyTo { case None => [] case Some(id) => ["In-Reply-To: " + Sanitize(id)] }
  }

  /** Headers, a blank line, the body, and the CRLF at its end. */
  function MailLines(to: string, from: string, messageType: string, requestId: string, replyTo: Option<string>, made: Supplied): seq<string> {
    HeaderLines(to, from, messageType, requestId, replyTo, made) + ["", made.encoded, ""]
  }

  method BuildResponse(to: string, from: string, messageType: string, requestId: string, replyTo: Option<string>, made: Supplied)
    returns (mail: Option<string>)
    ensures mail.Some? <==> '@' in to && '\r' !in to && '\n' !in to && '@' in from && '\r' !in from && '\n' !in from
    ensures mail.Some? ==> mail.value == Join(MailLines(to, from, messageType, requestId, replyTo, made), CRLF)
  {
    if !IsValidAddress(to) || !IsValidAddress(from) {
      return None;
    }
    var email, lines := AddHeaders(to, from, SubjectText(messageType, requestId), made);
    if replyTo.Some? {
      email, lines := AddLine(email, lines, "In-Reply-To: " + Sanitize(replyTo.value));
    }
    assert lines == HeaderLines(to, from, messageType, requestId, replyTo, made);
    email := AddBody(email, lines, made.encoded);
    mail := Some(email);
  }

  method AddHeaders(to: string, from: string, subject: string, made: Supplied) returns (email: string, lines: seq<string>)
    ensures lines == ["From: " + Sanitize(from), "To: " + Sanitize(to), "Subject: " + subject,
                      "Message-ID: " + made.messageId, "Date: " + made.date, "Content-Type: text/plain; charset=utf-8"]
    ensures email == Join(lines, CRLF) + CRLF
  {
    lines := ["From: " + Sanitize(from)];
    email := lines[0] + CRLF;
    assert Join(lines, CRLF) == lines[0];
    email, lines := AddLine(email, lines, "To: " + Sanitize(to));
    email, lines := AddLine(email, lines, "Subject: " + subject);
    email, lines := AddLine(email, lines, "Message-ID: " + made.messageId);
    email, lines := AddLine(email, lines, "Date: " + made.date);
    email, lines := AddLine(email, lines, "Content-Type: text/plain; charset=utf-8");
  }

  /** The blank line and the body. */
  method AddBody(head: string, headers: seq<string>, encoded: string) returns (email: string)
    requires headers != [] && head == Join(headers, CRLF) + CRLF
    ensures email == Join(headers + ["", encoded, ""], CRLF)
  {
    var lines;
    email, lines := AddLine(head, headers, "");
    email, lines := AddLine(email, lines, encoded);
    JoinSnoc(lines, "");
    assert lines + [""] == headers + ["", encoded, ""];
    assert email + "" == email;
  }

  /** One `push_str` of a line and its CRLF. */
  method AddLine(email: string, lines: seq<string>, line: string) returns (longer: string, more: seq<string>)
    requires lines != [] && email == Join(lines, CRLF) + CRLF
    ensures more == lines + [line] && longer == Join(more, CRLF) + CRLF
  {
    JoinSnoc(lines, line);
    longer, more := email + line + CRLF, lines + [line];
  }

  lemma {:induction false} JoinSnoc(lines: seq<string>, last: string)
    requires lines != []
    ensures Join(lines + [last], CRLF) == Join(lines, CRLF) + CRLF + last
    decreases |lines|
  {
    assert (lines + [last])[1..] == lines[1..] + [last];
    JoinRestSnoc(lines[1..], last);
    Assoc(lines[0], JoinRest(lines[1..], CRLF), CRLF + last);
    Assoc(lines[0] + JoinRest(lines[1..], CRLF), CRLF, last);
  }

  // ---------------------------------------------------------------- such a mail needs no stuffing

  /** A header line begins with a capital letter; a body line holds no dot. */
  predicate IsDotless(line: string) {
    IsPlain(line) && (line == "" || line[0] != '.')
  }

  predicate AllDotless(lines: seq<string>) {
    forall i :: 0 <= i < |lines| ==> IsDotless(lines[i])
  }

  lemma HeaderIsDotless(name: string, value: string)
    requires IsPlain(name) && IsPlain(value) && name != "" && name[0] != '.'
    ensures IsDotless(name + value)
  {
  }

  lemma NamesArePlain()
    ensures IsPlain("From: ") && IsPlain("To: ") && IsPlain("Subject: ") && IsPlain("Message-ID: ") && IsPlain("Date: ")
    ensures IsPlain("In-Reply-To: ")
  {
  }

  lemma ContentTypeIsDotless()
    ensures IsDotless("Content-Type: text/plain; charset=utf-8")
  {
  }

  lemma SixAreDotless(a: string, b: string, c: string, d: string, e: string, f: string)
    requires IsDotless(a) && IsDotless(b) && IsDotless(c) && IsDotless(d) && IsDotless(e) && IsDotless(f)
    ensures AllDotless([a, b, c, d, e, f])
  {
  }

  lemma HeadersAreDotless(to: string, from: string, messageType: string, requestId: string, replyTo: Option<string>, made: Supplied)
    requires IsSupplied(made)
    ensures AllDotless(HeaderLines(to, from, messageType, requestId, replyTo, made))
  {
    NamesArePlain();
    var f, t, s := "From: " + Sanitize(from), "To: " + Sanitize(to), "Subject: " + SubjectText(messageType, requestId);
    var i, d, c := "Message-ID: " + made.messageId, "Date: " + made.date, "Content-Type: text/plain; charset=utf-8";
    assert IsDotless(f) by { HeaderIsDotless("From: ", Sanitize(from)); }
    assert IsDotless(t) by { HeaderIsDotless("To: ", Sanitize(to)); }
    assert IsDotless(s) by {
      SubjectIsPlain(messageType, requestId);
      HeaderIsDotless("Subject: ", SubjectText(messageType, requestId));
    }
    assert IsDotless(i) by { HeaderIsDotless("Message-ID: ", made.messageId); }
    assert IsDotless(d) by { HeaderIsDotless("Date: ", made.date); }
    assert IsDotless(c) by { ContentTypeIsDotless(); }
    SixAreDotless(f, t, s, i, d, c);
    if replyTo.Some? {
      HeaderIsDotless("In-Reply-To: ", Sanitize(replyTo.value));
      TwoPartsDotless([f, t, s, i, d, c], ["In-Reply-To: " + Sanitize(replyTo.value)]);
    }
  }

  lemma SubjectIsPlain(messageType: string, requestId: string)
    ensures IsPlain(SubjectText(messageType, requestId))
  {
    assert IsPlain("AXIOM/") && IsPlain("/");
  }

  lemma Base64IsDotless(encoded: string)
    requires IsBase64(encoded)
    ensures IsDotless(encoded)
  {
    assert !IsBase64Char('\r') && !IsBase64Char('\n') && !IsBase64Char('.');
  }

  lemma LinesAreDotless(to: string, from: string, messageType: string, requestId: string, replyTo: Option<string>, made: Supplied)
    requires IsSupplied(made)
    ensures AllDotless(MailLines(to, from, messageType, requestId, replyTo, made))
  {
    HeadersAreDotless(to, from, messageType, requestId, replyTo, made);
    Base64IsDotless(made.encoded);
    TwoPartsDotless(HeaderLines(to, from, messageType, requestId, replyTo, made), ["", made.encoded, ""]);
  }

  lemma TwoPartsDotless(a: seq<string>, b: seq<string>)
    requires AllDotless(a) && AllDotless(b)
    ensures AllDotless(a + b)
  {
  }

  lemma DotlessLines(lines: seq<string>)
    requires lines != [] && AllDotless(lines)
    ensures NeedsNoStuffing(Join(lines, CRLF))
  {
    forall line | line in lines
      ensures NoBreak(line) && !(".." <= line) && line != "."
    {
      assert IsDotless(line);
    }
    assert forall line :: line in lines[1..] ==> line in lines;
    SplitJoin(lines);
  }

  /** Whatever the addresses, headers and payload: the mail arrives byte for byte through a carrier that stuffs nothing,
      and the intake is left right behind its terminator. */
  lemma BuiltMailArrives(to: string, from: string, messageType: string, requestId: string, replyTo: Option<string>, made: Supplied, rest: string)
    requires IsSupplied(made)
    ensures var mail := Join(MailLines(to, from, messageType, requestId, replyTo, made), CRLF);
            Message(CarrierDataOf(mail) + rest) == mail && Find(CarrierDataOf(mail) + rest, TERMINATOR) == Some(|mail|)
  {
    var lines := MailLines(to, from, messageType, requestId, replyTo, made);
    LinesAreDotless(to, from, messageType, requestId, replyTo, made);
    DotlessLines(lines);
    CarrierTransparency(Join(lines, CRLF), rest);
  }

  // ---------------------------------------------------------------- the collector finds the recipient

  lemma {:induction false} StripBytesStarts(s: string)
    requires s != "" && !IsByteBlank(s[0])
    ensures StripBytes(s) <= s && StripBytes(s) != "" && StripBytes(s)[0] == s[0]
  {
    if IsByteBlank(s[|s| - 1]) {
      StripBytesStarts(s[..|s| - 1]);
    }
  }

  lemma {:induction false} StripBytesReaches(s: string, n: nat)
    requires 0 < n <= |s| && !IsByteBlank(s[0]) && !IsByteBlank(s[n - 1])
    ensures s[..n] <= StripBytes(s)
  {
    if n < |s| && IsByteBlank(s[|s| - 1]) {
      StripBytesReaches(s[..|s| - 1], n);
    }
  }

  /** `strip()` on the text takes what `strip()` on the bytes took, and perhaps more. */
  lemma {:induction false} StripsOnce(s: string)
    ensures Strip(StripBytes(s)) == Strip(s)
  {
    if s != "" && IsByteBlank(s[0]) {
      StripsOnce(s[1..]);
    } else if s != "" && IsByteBlank(s[|s| - 1]) {
      StripsOnce(s[..|s| - 1]);
      StripEnd(s);
    }
  }

  /** A blank at the end goes, whether the blanks at the start go before it or after. */
  lemma {:induction false} StripEnd(s: string)
    requires s != "" && IsBlank(s[|s| - 1])
    ensures Strip(s) == Strip(s[..|s| - 1])
  {
    if IsBlank(s[0]) {
      if |s| > 1 {
        StripEnd(s[1..]);
        assert s[1..][..|s| - 2] == s[..|s| - 1][1..];
      }
    }
  }

  /** Blanks in front make no difference. */
  lemma StripSpace(s: string)
    ensures StripBytes(" " + s) == StripBytes(s) && Strip(" " + s) == Strip(s)
  {
    assert (" " + s)[1..] == s;
  }

  lemma {:induction false} StripBytesEnd(s: string)
    requires s != "" && IsByteBlank(s[|s| - 1])
    ensures StripBytes(s) == StripBytes(s[..|s| - 1])
  {
    if IsByteBlank(s[0]) {
      if |s| > 1 {
        StripBytesEnd(s[1..]);
        assert s[1..][..|s| - 2] == s[..|s| - 1][1..];
      }
    }
  }

  lemma ToLineIsTo(to: string)
    ensures IsToLine("To: " + to + "\r")
  {
    var line := "To: " + to + "\r";
    assert line[..3] == "To:";
    StripBytesReaches(line, 3);
    assert Lower(StripBytes(line))[..3] == "to:";
  }

  /** Of a `To:` line as the mail has it, with the CR that a split on LF leaves. */
  lemma ToLineAddress(to: string)
    requires IsPlain(to)
    ensures HeaderAddress("To: " + to + "\r") == AddressIn(StripBytes(to))
  {
    var value := " " + to + "\r";
    assert "To: " + to + "\r" == "To" + [':'] + value;
    OneFirstCut("To: " + to + "\r", ':', "To", value);
    assert StripBytes(value) == StripBytes(to) by {
      assert value[..|to| + 1] == " " + to;
      StripBytesEnd(value);
      StripSpace(to);
    }
  }

  /** The first line is passed over, the second is the recipient's. */
  lemma RecipientOfSecondLine(from: string, to: string, rest: string)
    requires IsPlain(from) && IsPlain(to)
    ensures Recipient("From: " + from + CRLF + ("To: " + to + CRLF + rest)) == AddressIn(StripBytes(to))
  {
    NamesArePlain();
    var first, second := "From: " + from + "\r", "To: " + to + "\r";
    var tail := "To: " + to + CRLF + rest;
    LineFeedApart("From: ", from, tail);
    LineFeedApart("To: ", to, rest);
    NotAToLine(first);
    ToLineIsTo(to);
    ToLineAddress(to);
    RecipientSteps(first, tail, HEADER_LINES);
    RecipientSteps(second, rest, HEADER_LINES - 1);
  }

  lemma LineFeedApart(name: string, value: string, rest: string)
    ensures name + value + CRLF + rest == (name + value + "\r") + "\n" + rest
    ensures '\n' !in name && '\n' !in value ==> '\n' !in name + value + "\r"
  {
  }

  lemma NotAToLine(line: string)
    requires line != "" && line[0] == 'F'
    ensures !IsToLine(line) && StripBytes(line) != ""
  {
    StripBytesStarts(line);
    assert Lower(StripBytes(line))[0] == 'f';
  }

  lemma RecipientSteps(line: string, rest: string, budget: nat)
    requires '\n' !in line && budget > 0
    ensures RecipientIn(line + "\n" + rest, budget) ==
            if IsToLine(line) then HeaderAddress(line)
            else if StripBytes(line) == "" then "" else RecipientIn(rest, budget - 1)
  {
    FirstIndexAt(line, '\n', rest);
  }

  lemma {:induction false} StripKeeps(s: string, i: nat, j: nat)
    requires i <= j < |s| && !IsBlank(s[i]) && !IsBlank(s[j])
    ensures |Strip(s)| >= j - i + 1
  {
    if IsBlank(s[0]) {
      StripKeeps(s[1..], i - 1, j - 1);
    } else if IsBlank(s[|s| - 1]) {
      StripKeeps(s[..|s| - 1], i, j);
    }
  }

  lemma {:induction false} StripShorter(s: string)
    ensures |Strip(s)| <= |s|
  {
    if s != "" && IsBlank(s[0]) {
      StripShorter(s[1..]);
    } else if s != "" && IsBlank(s[|s| - 1]) {
      StripShorter(s[..|s| - 1]);
    }
  }

  lemma {:induction false} StripBytesKeepsChar(s: string, c: char)
    requires !IsByteBlank(c)
    ensures c in StripBytes(s) <==> c in s
  {
    if s != "" && IsByteBlank(s[0]) {
      assert s == [s[0]] + s[1..];
      StripBytesKeepsChar(s[1..], c);
    } else if s != "" && IsByteBlank(s[|s| - 1]) {
      assert s == s[..|s| - 1] + [s[|s| - 1]];
      StripBytesKeepsChar(s[..|s| - 1], c);
    }
  }

  lemma BracketsCut(v: string)
    ensures AddressIn(v) == Lower(Strip(v)) <==> !('<' in v && '>' in v)
  {
    if '<' in v && '>' in v {
      var open, close := FirstIndex(v, '<').value, FirstIndex(v, '>').value;
      var between := if open + 1 <= close then v[open + 1..close] else "";
      StripShorter(between);
      if open <= close {
        StripKeeps(v, open, close);
      } else {
        StripKeeps(v, close, open);
      }
      assert |Lower(Strip(between))| < |Lower(Strip(v))|;
    }
  }

  /** The collector reads the address the mail was built for, in lower case and stripped, exactly when that address does
      not hold both angle brackets. */
  lemma CollectorFindsRecipientIff(to: string, from: string, messageType: string, requestId: string, replyTo: Option<string>, made: Supplied)
    requires IsValidAddress(to) && IsValidAddress(from)
    ensures var mail := Join(MailLines(to, from, messageType, requestId, replyTo, made), CRLF);
            Recipient(mail) == Normal(to) <==> !('<' in to && '>' in to)
  {
    var lines := MailLines(to, from, messageType, requestId, replyTo, made);
    FirstTwoLines(lines, to, from);
    var rest := Join(lines[2..], CRLF);
    RecipientOfSecondLine(from, to, rest);
    StripsOnce(to);
    StripBytesKeepsChar(to, '<');
    StripBytesKeepsChar(to, '>');
    BracketsCut(StripBytes(to));
  }

  lemma FirstTwoLines(lines: seq<string>, to: string, from: string)
    requires |lines| > 2 && lines[0] == "From: " + from && lines[1] == "To: " + to
    ensures Join(lines, CRLF) == "From: " + from + CRLF + ("To: " + to + CRLF + Join(lines[2..], CRLF))
  {
    assert lines == [lines[0]] + lines[1..] && lines[1..] == [lines[1]] + lines[2..];
    JoinCons(lines[0], lines[1..], CRLF);
    JoinCons(lines[1], lines[2..], CRLF);
  }

  // ---------------------------------------------------------------- the parser finds type and request id

  /** `parse_subject` */
  function ParseSubject(subject: string): Option<(string, string)> {
    var parts := Split(subject, "/");
    if |parts| < 3 || parts[0] != "AXIOM" then None else Some((parts[1], Join(parts[2..], "/")))
  }

  lemma SlashAt(s: string, i: nat)
    ensures At(s, i, "/") <==> i < |s| && s[i] == '/'
  {
    if i < |s| {
      assert s[i..][0] == s[i];
    }
  }

  /** A part without a slash is split off. */
  lemma SplitsPart(part: string, rest: string)
    requires '/' !in part
    ensures Split(part + "/" + rest, "/") == [part] + Split(rest, "/")
  {
    var s := part + "/" + rest;
    SlashAt(s, |part|);
    assert At(s, |part|, "/");
    var i := Find(s, "/").value;
    SlashAt(s, i);
    assert i <= |part|;
    assert i == |part| by {
      assert forall k :: 0 <= k < |part| ==> s[k] == part[k];
    }
    assert s[..|part|] == part && s[|part| + 1..] == rest;
  }

  /** What stands before the first separator holds none. */
  lemma FirstPartIsWhole(s: string) returns (rest: string)
    requires |Split(s, "/")| > 1
    ensures '/' !in Split(s, "/")[0] && s == Split(s, "/")[0] + "/" + rest && Split(rest, "/") == Split(s, "/")[1..]
  {
    var i := Find(s, "/").value;
    SliceApart(s, i, "/");
    rest := s[i + 1..];
    forall k | 0 <= k < i
      ensures s[..i][k] != '/'
    {
      SlashAt(s, k);
    }
  }

  lemma BuiltSubjectParses(subject: string, messageType: string, requestId: string)
    requires '/' !in messageType && subject == "AXIOM/" + messageType + "/" + requestId
    ensures ParseSubject(subject) == Some((messageType, requestId))
  {
    var tail := messageType + "/" + requestId;
    assert subject == "AXIOM" + "/" + tail;
    SplitsPart("AXIOM", tail);
    SplitsPart(messageType, requestId);
    assert Split(subject, "/")[2..] == Split(requestId, "/");
    JoinSplit(requestId, "/");
  }

  lemma RegroupSubject(messageType: string, requestId: string)
    ensures "AXIOM" + "/" + (messageType + "/" + requestId) == "AXIOM/" + messageType + "/" + requestId
  {
  }

  lemma ParsedSubjectIsBuilt(subject: string)
    requires ParseSubject(subject).Some?
    ensures var (messageType, requestId) := ParseSubject(subject).value;
            '/' !in messageType && subject == "AXIOM/" + messageType + "/" + requestId
  {
    var parts := Split(subject, "/");
    var tail := FirstPartIsWhole(subject);
    var id := FirstPartIsWhole(tail);
    assert parts[1..][1..] == parts[2..];
    JoinSplit(id, "/");
    RegroupSubject(parts[1], id);
  }

  /** A subject parses to a type and a request id exactly when it is built from them; the id keeps its slashes, the type
      can have none. */
  lemma SubjectParsesIff(subject: string, messageType: string, requestId: string)
    ensures ParseSubject(subject) == Some((messageType, requestId)) <==>
            '/' !in messageType && subject == "AXIOM/" + messageType + "/" + requestId
  {
    if '/' !in messageType && subject == "AXIOM/" + messageType + "/" + requestId {
      BuiltSubjectParses(subject, messageType, requestId);
    }
    if ParseSubject(subject).Some? {
      ParsedSubjectIsBuilt(subject);
    }
  }

  /** So the subject of a built mail gives back the type and the id it was built with. */
  lemma SubjectRoundTrip(messageType: string, requestId: string)
    requires IsPlain(messageType) && IsPlain(requestId)
    ensures ParseSubject(SubjectText(messageType, requestId)) == Some((messageType, requestId)) <==> '/' !in messageType
  {
    SubjectParsesIff(SubjectText(messageType, requestId), messageType, requestId);
  }

  // ---------------------------------------------------------------- what a reader of the mail finds

  /** Sanitizing drops every CR and LF and keeps all else in place. */
  lemma {:induction false} SanitizeIs(a: string, b: string)
    ensures Sanitize(a + b) == Sanitize(a) + Sanitize(b)
    ensures |a| == 1 ==> Sanitize(a) == if a == "\r" || a == "\n" then "" else a
    decreases |a|
  {
    if a == "" {
      assert a + b == b;
    } else {
      assert (a + b)[1..] == a[1..] + b;
      SanitizeIs(a[1..], b);
      if !(a[0] == '\r' || a[0] == '\n') {
        Assoc([a[0]], Sanitize(a[1..]), Sanitize(b));
      }
      if |a| == 1 {
        assert a[1..] == "" && a == [a[0]];
      }
    }
  }

  /** The value of the first header of that name, among the lines before the first blank one. */
  function HeaderOf(lines: seq<string>, name: string): Option<string> {
    if lines == [] || lines[0] == "" then None
    else if name + ": " <= lines[0] then Some(lines[0][|name + ": "|..])
    else HeaderOf(lines[1..], name)
  }

  /** The lines behind the first blank one. */
  function BodyOf(lines: seq<string>): seq<string> {
    if lines == [] then [] else if lines[0] == "" then lines[1..] else BodyOf(lines[1..])
  }

  /** A header line, by what its name begins with. */
  predicate IsHeaderLine(line: string, c: char) {
    line != "" && line[0] == c
  }

  lemma HeaderPassed(line: string, c: char, rest: seq<string>, name: string)
    requires IsHeaderLine(line, c) && name != "" && name[0] != c
    ensures HeaderOf([line] + rest, name) == HeaderOf(rest, name)
    ensures BodyOf([line] + rest) == BodyOf(rest)
  {
    assert ([line] + rest)[1..] == rest;
    assert (name + ": ")[0] == name[0];
  }

  lemma HeaderFound(name: string, value: string, rest: seq<string>)
    requires name != ""
    ensures HeaderOf([name + ": " + value] + rest, name) == Some(value)
  {
    var line := name + ": " + value;
    assert line[..|name + ": "|] == name + ": " && line[|name + ": "|..] == value;
  }

  lemma {:induction false} HeadersPassed(lines: seq<string>, rest: seq<string>, name: string)
    requires name != "" && forall i :: 0 <= i < |lines| ==> lines[i] != "" && lines[i][0] != name[0]
    ensures HeaderOf(lines + rest, name) == HeaderOf(rest, name)
    decreases |lines|
  {
    if lines == [] {
      assert lines + rest == rest;
    } else {
      assert lines + rest == [lines[0]] + (lines[1..] + rest);
      HeaderPassed(lines[0], lines[0][0], lines[1..] + rest, name);
      HeadersPassed(lines[1..], rest, name);
    }
  }

  lemma {:induction false} BodyBehind(lines: seq<string>, rest: seq<string>)
    requires forall i :: 0 <= i < |lines| ==> lines[i] != ""
    ensures BodyOf(lines + ([""] + rest)) == rest
    decreases |lines|
  {
    var all := lines + ([""] + rest);
    if lines == [] {
      assert all == [""] + rest && all[1..] == rest;
    } else {
      assert all[0] == lines[0] && all[1..] == lines[1..] + ([""] + rest);
      BodyBehind(lines[1..], rest);
    }
  }

  lemma BlankStops(rest: seq<string>, name: string)
    ensures HeaderOf([""] + rest, name) == None
  {
  }

  /** The lines of a built mail are read back. */
  lemma MailLinesReadBack(to: string, from: string, messageType: string, requestId: string, replyTo: Option<string>, made: Supplied)
    requires IsSupplied(made)
    ensures var lines := MailLines(to, from, messageType, requestId, replyTo, made); Split(Join(lines, CRLF), CRLF) == lines
  {
    var lines := MailLines(to, from, messageType, requestId, replyTo, made);
    LinesAreDotless(to, from, messageType, requestId, replyTo, made);
    forall line | line in lines
      ensures NoBreak(line)
    {
      assert IsDotless(line);
    }
    SplitJoin(lines);
  }

  /** The `k`-th header is found under its name, as no header before it begins with the same letter. */
  lemma FoundBehind(lines: seq<string>, k: nat, name: string, value: string)
    requires k < |lines| && lines[k] == name + ": " + value && name != ""
    requires forall i :: 0 <= i < k ==> lines[i] != "" && lines[i][0] != name[0]
    ensures HeaderOf(lines, name) == Some(value)
  {
    assert lines == lines[..k] + ([lines[k]] + lines[k + 1..]);
    HeadersPassed(lines[..k], [lines[k]] + lines[k + 1..], name);
    HeaderFound(name, value, lines[k + 1..]);
  }

  lemma FirstLetters(to: string, from: string, messageType: string, requestId: string, made: Supplied)
    ensures var lines := HeaderLines(to, from, messageType, requestId, None, made);
            |lines| == 6 && IsHeaderLine(lines[0], 'F') && IsHeaderLine(lines[1], 'T') && IsHeaderLine(lines[2], 'S') &&
            IsHeaderLine(lines[3], 'M') && IsHeaderLine(lines[4], 'D') && IsHeaderLine(lines[5], 'C')
  {
  }

  lemma FiveFound(lines: seq<string>, from: string, to: string, subject: string, messageId: string, date: string)
    requires |lines| >= 5 && lines[0] == "From: " + from && lines[1] == "To: " + to && lines[2] == "Subject: " + subject
    requires lines[3] == "Message-ID: " + messageId && lines[4] == "Date: " + date
    ensures HeaderOf(lines, "From") == Some(from) && HeaderOf(lines, "To") == Some(to) && HeaderOf(lines, "Subject") == Some(subject)
    ensures HeaderOf(lines, "Message-ID") == Some(messageId) && HeaderOf(lines, "Date") == Some(date)
  {
    assert lines[0][0] == 'F' && lines[1][0] == 'T' && lines[2][0] == 'S' && lines[3][0] == 'M' && lines[4][0] == 'D';
    FoundBehind(lines, 0, "From", from);
    FoundBehind(lines, 1, "To", to);
    FoundBehind(lines, 2, "Subject", subject);
    FoundBehind(lines, 3, "Message-ID", messageId);
    FoundBehind(lines, 4, "Date", date);
  }

  /** Who opens a built mail finds under each header what it was built with, less any line breaks, and behind the blank line the
      encoded body and nothing else. */
  lemma HeadersReadBack(to: string, from: string, messageType: string, requestId: string, replyTo: Option<string>, made: Supplied)
    requires IsSupplied(made)
    ensures var lines := Split(Join(MailLines(to, from, messageType, requestId, replyTo, made), CRLF), CRLF);
            HeaderOf(lines, "From") == Some(Sanitize(from)) && HeaderOf(lines, "To") == Some(Sanitize(to)) &&
            HeaderOf(lines, "Subject") == Some("AXIOM/" + Sanitize(messageType) + "/" + Sanitize(requestId)) &&
            HeaderOf(lines, "Message-ID") == Some(made.messageId) && HeaderOf(lines, "Date") == Some(made.date) &&
            HeaderOf(lines, "In-Reply-To") == (match replyTo { case None => None case Some(id) => Some(Sanitize(id)) }) &&
            BodyOf(lines) == [made.encoded, ""]
  {
    var lines := MailLines(to, from, messageType, requestId, replyTo, made);
    var six := HeaderLines(to, from, messageType, requestId, None, made);
    MailLinesReadBack(to, from, messageType, requestId, replyTo, made);
    FirstLetters(to, from, messageType, requestId, made);
    FiveFound(lines, Sanitize(from), Sanitize(to), SubjectText(messageType, requestId), made.messageId, made.date);
    EndsOfMail(six, replyTo, made, lines);
  }

  /** The header that only a reply has, and the body. */
  lemma EndsOfMail(six: seq<string>, replyTo: Option<string>, made: Supplied, lines: seq<string>)
    requires |six| == 6 && (forall i :: 0 <= i < 6 ==> six[i] != "" && six[i][0] != 'I')
    requires lines == six + (match replyTo { case None => [] case Some(id) => ["In-Reply-To: " + Sanitize(id)] }) + ["", made.encoded, ""]
    ensures HeaderOf(lines, "In-Reply-To") == (match replyTo { case None => None case Some(id) => Some(Sanitize(id)) })
    ensures BodyOf(lines) == [made.encoded, ""]
  {
    var rest := [made.encoded, ""];
    assert ["", made.encoded, ""] == [""] + rest;
    match replyTo {
      case None =>
        assert lines == six + ([""] + rest);
        HeadersPassed(six, [""] + rest, "In-Reply-To");
        BlankStops(rest, "In-Reply-To");
        BodyBehind(six, rest);
      case Some(id) =>
        var seven := six + ["In-Reply-To: " + Sanitize(id)];
        assert lines == seven + ([""] + rest);
        FoundBehind(lines, 6, "In-Reply-To", Sanitize(id));
        BodyBehind(seven, rest);
    }
  }

  /** So the subject found in a built mail gives back the type and the id it was built with, exactly when the type has no slash. */
  lemma SubjectOfBuiltMail(to: string, from: string, messageType: string, requestId: string, replyTo: Option<string>, made: Supplied)
    requires IsSupplied(made) && IsPlain(messageType) && IsPlain(requestId)
    ensures var found := HeaderOf(Split(Join(MailLines(to, from, messageType, requestId, replyTo, made), CRLF), CRLF), "Subject");
            found.Some? && (ParseSubject(found.value) == Some((messageType, requestId)) <==> '/' !in messageType)
  {
    HeadersReadBack(to, from, messageType, requestId, replyTo, made);
    SubjectParsesIff("AXIOM/" + messageType + "/" + requestId, messageType, requestId);
  }
}
