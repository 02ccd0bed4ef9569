/** How FATMAMA reads addresses: the dual-`@` delivery form, and the `To:` header of an outbox message. */
module DeliveryAddress {
  import opened Text
  import opened MailStore

  // ---------------------------------------------------------------- delivery addresses

  function DropDots(s: string): string {
    if s != "" && s[|s| - 1] == '.' then DropDots(s[..|s| - 1]) else s
  }

  function Unbracket(h: string): string {
    if |h| >= 2 && h[0] == '[' && h[|h| - 1] == ']' then h[1..|h| - 1] else h
  }

  function Untag(h: string): string {
    if "ipv6:" <= h then h[5..] else h
  }

  /** `canonical_host` */
  function CanonicalHost(host: string): string {
    Untag(Unbracket(DropDots(Lower(Strip(host)))))
  }

  /** `parse_delivery_address`: the inner cluster address and the host, or two empty strings. */
  function ParseDelivery(site: Site, addr: string): (string, string) {
    match CutLast(addr, '@')
    case None => ("", "")
    case Some((local, domain)) =>
      var inner := Lower(Strip(local));
      if '@' !in inner || !IsClusterRecipient(site, inner) then ("", "")
      else (inner, CanonicalHost(domain))
  }

  /** What the parser takes apart: something with an `@` of its own, and a cluster address when stripped and in lower case, before
      the last `@`. */
  ghost predicate IsWrapped(site: Site, addr: string, inner: string, host: string) {
    exists local: string, domain: string ::
      addr == local + "@" + domain && '@' !in domain && inner == Lower(Strip(local)) && host == CanonicalHost(domain) &&
      '@' in inner && IsClusterRecipient(site, inner)
  }

  lemma ParseDeliveryIff(site: Site, addr: string, inner: string, host: string)
    ensures IsWrapped(site, addr, inner, host) <==> ParseDelivery(site, addr) == (inner, host) && inner != ""
  {
    if local: string, domain: string :|
      addr == local + "@" + domain && '@' !in domain && inner == Lower(Strip(local)) && host == CanonicalHost(domain) &&
      '@' in inner && IsClusterRecipient(site, inner)
    {
      OneLastCut(addr, '@', local, domain);
    }
  }

  predicate AllDots(s: string) {
    forall i :: 0 <= i < |s| ==> s[i] == '.'
  }

  lemma {:induction false} DotsDrop(s: string, dots: string)
    requires AllDots(dots) && s != "" && s[|s| - 1] != '.'
    ensures DropDots(s + dots) == s
    decreases |dots|
  {
    var whole := s + dots;
    if dots == "" {
      assert whole == s;
    } else {
      assert whole[..|whole| - 1] == s + dots[..|dots| - 1];
      DotsDrop(s, dots[..|dots| - 1]);
    }
  }

  /** A host name in lower case with neither brackets, a tag, a final dot nor blanks around it. */
  predicate IsBareHost(h: string) {
    h != "" && Lower(h) == h && h[0] != '[' && h[|h| - 1] != '.' && h[|h| - 1] != ']' && !("ipv6:" <= h) &&
    !IsBlank(h[0]) && !IsBlank(h[|h| - 1])
  }

  datatype Spelling = Bare | Tagged | Bracketed | TaggedInBrackets

  /** The ways to write a host: an address literal bears a tag or brackets, or both. */
  function Spelled(h: string, how: Spelling): string {
    match how
    case Bare => h
    case Tagged => "ipv6:" + h
    case Bracketed => "[" + h + "]"
    case TaggedInBrackets => "[ipv6:" + h + "]"
  }

  lemma SpelledIsBare(h: string, how: Spelling)
    requires IsBareHost(h)
    ensures Untag(Unbracket(Spelled(h, how))) == h
    ensures var s := Spelled(h, how); s != "" && s[|s| - 1] != '.' && !IsBlank(s[0]) && !IsBlank(s[|s| - 1])
  {
    var s := Spelled(h, how);
    if how.Bracketed? {
      assert s[1..|s| - 1] == h;
    }
    if how.TaggedInBrackets? {
      assert s[1..|s| - 1] == "ipv6:" + h && ("ipv6:" + h)[5..] == h;
    }
    if how.Tagged? {
      assert s[5..] == h;
    }
  }

  /** Whatever the capitals, brackets, tag, final dots and blanks around it: one host has one canonical name. */
  lemma CanonicalHostIs(written: string, h: string, how: Spelling, dots: string, front: string, back: string)
    requires IsBareHost(h) && AllDots(dots) && AllBlank(front) && AllBlank(back)
    requires Lower(written) == Spelled(h, how) + dots
    ensures CanonicalHost(front + written + back) == h
  {
    var s := Spelled(h, how);
    SpelledIsBare(h, how);
    BlanksStayOutside(written, s, dots);
    StripAround(front, written, back);
    DotsDrop(s, dots);
  }

  lemma BlanksStayOutside(written: string, s: string, dots: string)
    requires s != "" && !IsBlank(s[0]) && !IsBlank(s[|s| - 1]) && AllDots(dots) && Lower(written) == s + dots
    ensures written != "" && !IsBlank(written[0]) && !IsBlank(written[|written| - 1])
  {
    assert Lower(written)[0] == s[0];
    assert Lower(written)[|written| - 1] == if dots == "" then s[|s| - 1] else dots[|dots| - 1];
  }

  /** `unwrap_delivery_address`: only what is addressed to one of our own hosts. */
  function Unwrap(site: Site, mine: set<string>, addr: string): string {
    var (inner, host) := ParseDelivery(site, addr);
    if inner == "" || host !in mine then "" else inner
  }

  // ---------------------------------------------------------------- the RCPT command

  /** `s.strip("<>")` */
  function StripAngles(s: string): string {
    if s != "" && (s[0] == '<' || s[0] == '>') then StripAngles(s[1..])
    else if s != "" && (s[|s| - 1] == '<' || s[|s| - 1] == '>') then StripAngles(s[..|s| - 1])
    else s
  }

  predicate AllAngles(s: string) {
    forall i :: 0 <= i < |s| ==> s[i] == '<' || s[i] == '>'
  }

  /** Angle brackets go from both ends, all of them, and from nowhere else. */
  lemma {:induction false} StripAnglesIs(s: string) returns (front: string, back: string)
    ensures s == front + StripAngles(s) + back && AllAngles(front) && AllAngles(back)
    ensures StripAngles(s) != "" ==> !AllAngles(StripAngles(s)[..1]) && !AllAngles(StripAngles(s)[|StripAngles(s)| - 1..])
  {
    if s != "" && (s[0] == '<' || s[0] == '>') {
      front, back := StripAnglesIs(s[1..]);
      OneBefore(s, front, StripAngles(s), back);
      front := [s[0]] + front;
    } else if s != "" && (s[|s| - 1] == '<' || s[|s| - 1] == '>') {
      front, back := StripAnglesIs(s[..|s| - 1]);
      OneBehind(s, front, StripAngles(s), back);
      back := back + [s[|s| - 1]];
    } else {
      front, back := "", "";
      assert "" + s + "" == s;
      if s != "" {
        assert s[..1][0] == s[0] && s[|s| - 1..][0] == s[|s| - 1];
      }
    }
  }

  /** The address in a RCPT command: between angle brackets, or behind a colon, or else the one before it. */
  function RcptAddress(previous: string, cmd: string): string {
    var open, close := FirstIndex(cmd, '<'), FirstIndex(cmd, '>');
    if open.Some? && close.Some? && close.value > open.value then Lower(Strip(cmd[open.value + 1..close.value]))
    else match CutFirst(cmd, ':')
         case Some((_, v)) => Lower(StripAngles(Strip(v)))
         case None => previous
  }

  /** The recipient that RCPT leaves for DATA, and whether it was accepted: a delivery address wrapped for this site is
      unwrapped before the cluster check. */
  function Admitted(site: Site, mine: set<string>, previous: string, cmd: string): (string, bool) {
    var asked := RcptAddress(previous, cmd);
    var inner := if asked == "" || IsClusterRecipient(site, asked) then "" else Unwrap(site, mine, asked);
    var rcpt := if inner == "" then asked else inner;
    if rcpt != "" && !IsClusterRecipient(site, rcpt) then ("", false) else (rcpt, true)
  }

  lemma BracketsAre(short: string, addr: string, rest: string)
    requires '<' !in short && '>' !in short && '>' !in addr
    ensures var v := short + "<" + addr + ">" + rest;
            FirstIndex(v, '<') == Some(|short|) && FirstIndex(v, '>') == Some(|short + "<" + addr|) &&
            v[|short| + 1..|short + "<" + addr|] == addr
  {
    var v := short + "<" + addr + ">" + rest;
    assert v == short + ['<'] + (addr + ">" + rest);
    FirstIndexAt(short, '<', addr + ">" + rest);
    FirstIndexAt(short + "<" + addr, '>', rest);
  }

  /** What a RCPT command asks for: what stands in its angle brackets; without them, what follows its first colon, less any
      bracket at its ends; and without a colon either, what the command before it left. */
  lemma RcptAddressIs(previous: string, front: string, addr: string, rest: string)
    requires '<' !in front && '>' !in front && '>' !in addr
    ensures RcptAddress(previous, front + "<" + addr + ">" + rest) == Lower(Strip(addr))
    ensures '<' !in addr && ':' !in front ==> RcptAddress(previous, front + ":" + addr) == Lower(Strip(addr))
    ensures ':' !in front ==> RcptAddress(previous, front) == previous
  {
    BracketsAre(front, addr, rest);
    if '<' !in addr && ':' !in front {
      var cmd := front + ":" + addr;
      assert '<' !in cmd;
      OneFirstCut(cmd, ':', front, addr);
      IndexIsThere(cmd, '<');
      NoAngles(addr);
    }
  }

  lemma {:induction false} NoAngles(s: string)
    requires '<' !in s && '>' !in s
    ensures StripAngles(Strip(s)) == Strip(s)
  {
    var front, back := StripIs(s);
    assert forall k :: 0 <= k < |Strip(s)| ==> Strip(s)[k] == s[|front| + k];
  }

  /** A recipient is accepted exactly when it is a cluster address, or one that is wrapped for a host of this site, and then it is
      the address inside; whatever is accepted is a cluster address. */
  lemma AdmittedIff(site: Site, mine: set<string>, previous: string, cmd: string)
    requires RcptAddress(previous, cmd) != ""
    ensures var asked := RcptAddress(previous, cmd);
            var (rcpt, accepted) := Admitted(site, mine, previous, cmd);
            (accepted <==> IsClusterRecipient(site, asked) ||
                           exists inner: string, host: string :: IsWrapped(site, asked, inner, host) && host in mine) &&
            (accepted ==> IsClusterRecipient(site, rcpt)) &&
            (IsClusterRecipient(site, asked) ==> rcpt == asked) &&
            (accepted && rcpt != asked ==> exists host: string :: IsWrapped(site, asked, rcpt, host) && host in mine) &&
            (!accepted ==> rcpt == "")
  {
    var asked := RcptAddress(previous, cmd);
    var (inner, host) := ParseDelivery(site, asked);
    ParseDeliveryIff(site, asked, inner, host);
    if i: string, h: string :| IsWrapped(site, asked, i, h) && h in mine {
      ParseDeliveryIff(site, asked, i, h);
    }
  }

  // ---------------------------------------------------------------- the To: header

  predicate IsByteBlank(c: char) {
    c == ' ' || '\t' <= c <= '\r'
  }

  /** `strip()` on bytes. */
  function StripBytes(s: string): string {
    if s != "" && IsByteBlank(s[0]) then StripBytes(s[1..])
    else if s != "" && IsByteBlank(s[|s| - 1]) then StripBytes(s[..|s| - 1])
    else s
  }

  predicate AllByteBlank(s: string) {
    forall i :: 0 <= i < |s| ==> IsByteBlank(s[i])
  }

  /** Blank bytes go from both ends, all of them, and from nowhere else. */
  lemma {:induction false} StripBytesIs(s: string) returns (front: string, back: string)
    ensures s == front + StripBytes(s) + back && AllByteBlank(front) && AllByteBlank(back)
    ensures StripBytes(s) != "" ==> !IsByteBlank(StripBytes(s)[0]) && !IsByteBlank(StripBytes(s)[|StripBytes(s)| - 1])
  {
    if s != "" && IsByteBlank(s[0]) {
      front, back := StripBytesIs(s[1..]);
      OneBefore(s, front, StripBytes(s), back);
      front := [s[0]] + front;
    } else if s != "" && IsByteBlank(s[|s| - 1]) {
      front, back := StripBytesIs(s[..|s| - 1]);
      OneBehind(s, front, StripBytes(s), back);
      back := back + [s[|s| - 1]];
    } else {
      front, back := "", "";
      assert "" + s + "" == s;
    }
  }

  /** The address in the value of a header: between angle brackets if it has both. */
  function AddressIn(v: string): string {
    match (FirstIndex(v, '<'), FirstIndex(v, '>')) {
      case (Some(open), Some(close)) => Lower(Strip(if open + 1 <= close then v[open + 1..close] else ""))
      case _ => Lower(Strip(v))
    }
  }

  /** Of a header line: the address behind its first colon. */
  function HeaderAddress(line: string): string {
    match CutFirst(line, ':')
    case None => ""
    case Some((_, value)) => AddressIn(StripBytes(value))
  }

  predicate IsToLine(line: string) {
    "to:" <= Lower(StripBytes(line))
  }

  const HEADER_LINES := 200

  /** `parse_recipient`, with at most `budget` lines left to look at. */
  function RecipientIn(raw: string, budget: nat): string {
    if budget == 0 then ""
    else
      var lf := FirstIndex(raw, '\n');
      var line := if lf.Some? then raw[..lf.value] else raw;
      if IsToLine(line) then HeaderAddress(line)
      else if StripBytes(line) == "" || lf.None? then ""
      else RecipientIn(raw[lf.value + 1..], budget - 1)
  }

  function Recipient(raw: string): string {
    RecipientIn(raw, HEADER_LINES)
  }

  /** The loop over the header lines; `split` cuts off at most that many. */
  method ParseRecipient(raw: string) returns (rcpt: string)
    ensures rcpt == Recipient(raw)
  {
    var rest, looked := raw, 0;
    while looked < HEADER_LINES
      invariant looked <= HEADER_LINES
      invariant Recipient(raw) == RecipientIn(rest, HEADER_LINES - looked)
    {
      ghost var left: nat := HEADER_LINES - looked;
      var lf := FirstIndex(rest, '\n');
      var line := if lf.Some? then rest[..lf.value] else rest;
      LineStep(rest, left, line, lf);
      if IsToLine(line) {
        rcpt := HeaderAddress(line);
        return;
      }
      if StripBytes(line) == "" || lf.None? {
        return "";
      }
      rest, looked := rest[lf.value + 1..], looked + 1;
    }
    rcpt := "";
  }

  lemma LineStep(raw: string, budget: nat, line: string, lf: Option<nat>)
    requires budget > 0 && lf == FirstIndex(raw, '\n') && line == if lf.Some? then raw[..lf.value] else raw
    ensures RecipientIn(raw, budget) ==
            if IsToLine(line) then HeaderAddress(line)
            else if StripBytes(line) == "" || lf.None? then "" else RecipientIn(raw[lf.value + 1..], budget - 1)
  {
  }

  // ---------------------------------------------------------------- which line names the recipient

  /** No line before the `i`-th is a `To:` line or ends the headers. */
  predicate IsPassed(lines: seq<string>, i: nat)
    requires i <= |lines|
  {
    forall j :: 0 <= j < i ==> !IsToLine(lines[j]) && StripBytes(lines[j]) != ""
  }

  lemma CharAt(s: string, i: nat, c: char)
    ensures At(s, i, [c]) <==> i < |s| && s[i] == c
  {
    if i < |s| {
      assert s[i..][0] == s[i];
    }
  }

  /** Where the first line ends. */
  lemma LfAt(raw: string)
    ensures match FirstIndex(raw, '\n')
            case None => Split(raw, "\n") == [raw]
            case Some(lf) => Split(raw, "\n") == [raw[..lf]] + Split(raw[lf + 1..], "\n")
  {
    forall i: nat
      ensures At(raw, i, "\n") <==> i < |raw| && raw[i] == '\n'
    {
      CharAt(raw, i, '\n');
    }
    match FirstIndex(raw, '\n') {
      case None =>
        assert Find(raw, "\n").None?;
      case Some(lf) =>
        assert At(raw, lf, "\n");
        assert Find(raw, "\n") == Some(lf);
    }
  }

  /** The lines of a text, without their line feeds. */
  function LinesOf(raw: string): seq<string>
    decreases |raw|
  {
    match FirstIndex(raw, '\n')
    case None => [raw]
    case Some(lf) => [raw[..lf]] + LinesOf(raw[lf + 1..])
  }

  lemma {:induction false} LinesAreSplit(raw: string)
    ensures LinesOf(raw) == Split(raw, "\n")
    decreases |raw|
  {
    LfAt(raw);
    match FirstIndex(raw, '\n') {
      case None =>
      case Some(lf) => LinesAreSplit(raw[lf + 1..]);
    }
  }

  /** The same on lines. */
  function FirstTo(lines: seq<string>, budget: nat): string {
    if budget == 0 || lines == [] then ""
    else if IsToLine(lines[0]) then HeaderAddress(lines[0])
    else if StripBytes(lines[0]) == "" then ""
    else FirstTo(lines[1..], budget - 1)
  }

  lemma FirstToStep(line: string, more: seq<string>, budget: nat)
    requires budget > 0
    ensures FirstTo([line] + more, budget) ==
            if IsToLine(line) then HeaderAddress(line) else if StripBytes(line) == "" then "" else FirstTo(more, budget - 1)
  {
    assert ([line] + more)[1..] == more;
  }

  lemma RecipientStep(raw: string, budget: nat)
    requires budget > 0
    ensures RecipientIn(raw, budget) ==
            match FirstIndex(raw, '\n') {
              case None => if IsToLine(raw) then HeaderAddress(raw) else ""
              case Some(lf) =>
                if IsToLine(raw[..lf]) then HeaderAddress(raw[..lf])
                else if StripBytes(raw[..lf]) == "" then "" else RecipientIn(raw[lf + 1..], budget - 1)
            }
  {
  }

  lemma {:induction false} RecipientOfLines(raw: string, budget: nat)
    ensures RecipientIn(raw, budget) == FirstTo(LinesOf(raw), budget)
    decreases budget
  {
    if budget > 0 {
      RecipientStep(raw, budget);
      match FirstIndex(raw, '\n') {
        case None =>
          FirstToStep(raw, [], budget);
          assert [raw] + [] == [raw] && FirstTo([], budget - 1) == "";
        case Some(lf) =>
          var rest := raw[lf + 1..];
          RecipientOfLines(rest, budget - 1);
          FirstToStep(raw[..lf], LinesOf(rest), budget);
      }
    }
  }

  lemma {:induction false} FirstToIs(lines: seq<string>, budget: nat, i: nat)
    requires i < |lines| && i < budget && IsPassed(lines, i) && IsToLine(lines[i])
    ensures FirstTo(lines, budget) == HeaderAddress(lines[i])
    decreases budget
  {
    if i > 0 {
      FirstToIs(lines[1..], budget - 1, i - 1);
    }
  }

  lemma {:induction false} FirstToIsNone(lines: seq<string>, budget: nat)
    requires forall i :: 0 <= i < |lines| && i < budget && IsPassed(lines, i) ==> !IsToLine(lines[i])
    ensures FirstTo(lines, budget) == ""
    decreases budget
  {
    if budget > 0 && lines != [] {
      assert IsPassed(lines, 0);
      if StripBytes(lines[0]) != "" {
        var more := lines[1..];
        forall i | 0 <= i < |more| && i < budget - 1 && IsPassed(more, i)
          ensures !IsToLine(more[i])
        {
          assert forall j :: 0 < j <= i ==> lines[j] == more[j - 1];
          assert IsPassed(lines, i + 1);
        }
        FirstToIsNone(more, budget - 1);
      }
    }
  }

  /** The recipient is read from the first `To:` line, if it is among the first 200 lines and no blank line stands before it; there
      is none otherwise. */
  lemma RecipientIs(raw: string)
    ensures var lines := Split(raw, "\n");
            (forall i :: 0 <= i < |lines| && i < 200 && IsPassed(lines, i) && IsToLine(lines[i]) ==> Recipient(raw) == HeaderAddress(lines[i])) &&
            ((forall i :: 0 <= i < |lines| && i < 200 && IsPassed(lines, i) ==> !IsToLine(lines[i])) ==> Recipient(raw) == "")
  {
    var lines := Split(raw, "\n");
    RecipientOfLines(raw, HEADER_LINES);
    LinesAreSplit(raw);
    forall i | 0 <= i < |lines| && i < 200 && IsPassed(lines, i) && IsToLine(lines[i])
      ensures Recipient(raw) == HeaderAddress(lines[i])
    {
      FirstToIs(lines, HEADER_LINES, i);
    }
    if forall i :: 0 <= i < |lines| && i < 200 && IsPassed(lines, i) ==> !IsToLine(lines[i]) {
      FirstToIsNone(lines, HEADER_LINES);
    }
  }

  lemma AddressInBrackets(short: string, addr: string, rest: string)
    requires '<' !in short && '>' !in short && '>' !in addr
    ensures AddressIn(short + "<" + addr + ">" + rest) == Lower(Strip(addr))
  {
    BracketsAre(short, addr, rest);
  }

  lemma ValueIsRead(header: string, value: string)
    requires ':' !in header
    ensures HeaderAddress(header + ":" + value) == AddressIn(StripBytes(value))
  {
    OneFirstCut(header + ":" + value, ':', header, value);
  }

  lemma SuffixHasNone(s: string, i: nat, c: char)
    requires i <= |s| && c !in s
    ensures c !in s[i..]
  {
  }

  /** What stands in angle brackets is the address, whatever name precedes it. */
  lemma BracketedIsRead(header: string, name: string, addr: string, tail: string)
    requires ':' !in header && '<' !in name && '>' !in name && '>' !in addr
    ensures HeaderAddress(header + ":" + (name + "<" + addr + ">" + tail)) == Lower(Strip(addr))
  {
    var value := name + "<" + addr + ">" + tail;
    var front, back := StripBytesIs(value);
    BracketsStay(name, addr, tail, front, StripBytes(value), back);
    SuffixHasNone(name, |front|, '<');
    SuffixHasNone(name, |front|, '>');
    AddressInBrackets(name[|front|..], addr, tail[..|tail| - |back|]);
    ValueIsRead(header, value);
  }

  /** Stripping blanks does not reach the brackets. */
  lemma BracketsStay(name: string, addr: string, tail: string, front: string, v: string, back: string)
    requires name + "<" + addr + ">" + tail == front + v + back && AllByteBlank(front) && AllByteBlank(back)
    ensures |front| <= |name| && |back| <= |tail|
    ensures v == name[|front|..] + "<" + addr + ">" + tail[..|tail| - |back|]
  {
    var value := name + "<" + addr + ">" + tail;
    assert value[|name|] == '<' && value[|name| + 1 + |addr|] == '>';
    assert forall k :: 0 <= k < |front| ==> value[k] == front[k];
    assert forall k :: |value| - |back| <= k < |value| ==> value[k] == back[k - |value| + |back|];
    assert v == value[|front|..|value| - |back|];
  }
}
