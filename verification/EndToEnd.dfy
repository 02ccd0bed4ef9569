/** A mail's whole way: built by ANTIE, collected from its outbox, dialled to another site, admitted and filed there, and
    read over POP3. What each leg adds or loses at the end of a mail, the next makes good. */
module EndToEnd {
  import opened Text
  import opened Streams
  import opened MailStore
  import opened DeliveryAddress
  import opened SmtpWire
  import opened Pop3Wire
  import opened BuiltMail
  import opened CareOf
  import C = Collector

  // ---------------------------------------------------------------- a built mail is safe on POP3

  /** Empty, or beginning with a character that is neither white space nor a dot. */
  predicate IsSafeLine(line: string) {
    IsPlain(line) && (line == "" || (line[0] != '.' && !IsSpace(line[0])))
  }

  predicate AllSafe(lines: seq<string>) {
    forall i :: 0 <= i < |lines| ==> IsSafeLine(lines[i])
  }

  lemma SafeLineReads(line: string)
    requires IsSafeLine(line)
    ensures IsLine(line + CRLF) && Trim(line + CRLF) != "." && !(".." <= line + CRLF) && EndsWith(line + CRLF, CRLF)
  {
    var text := line + CRLF;
    assert text == line + "\r" + "\n";
    assert forall k :: 0 <= k < |text| - 1 ==> text[k] == (line + "\r")[k];
    assert text[|text| - 2..] == CRLF;
    if line == "" {
      assert text[1..] == "\n" && "\n"[1..] == "";
      assert TrimLeft("\n") == "" && TrimLeft(text) == "";
    } else {
      TrimKeepsFirst(text);
    }
  }

  /** Lines of which none reads as a dot line are no hazard, as long as each ends in CRLF. */
  lemma {:induction false} SafeLinesAreNoHazard(lines: seq<string>)
    requires lines != [] && AllSafe(lines) && lines[|lines| - 1] == ""
    ensures !Hazard(Join(lines, CRLF), true)
    decreases |lines|
  {
    if |lines| == 1 {
      assert Join(lines, CRLF) == "";
    } else {
      var line, rest := lines[0] + CRLF, Join(lines[1..], CRLF);
      assert lines == [lines[0]] + lines[1..];
      JoinCons(lines[0], lines[1..], CRLF);
      SafeLinesAreNoHazard(lines[1..]);
      SafeLineFirst(lines[0], rest);
    }
  }

  lemma SafeLineFirst(line: string, rest: string)
    requires IsSafeLine(line)
    ensures Hazard(line + CRLF + rest, true) == Hazard(rest, true)
  {
    SafeLineReads(line);
    FirstLineIs(line + CRLF, rest);
    assert (line + CRLF + rest)[|line + CRLF|..] == rest;
  }

  lemma HeadersAreSafe(to: string, from: string, messageType: string, requestId: string, replyTo: Option<string>, made: Supplied)
    requires IsSupplied(made)
    ensures AllSafe(HeaderLines(to, from, messageType, requestId, replyTo, made))
  {
    HeadersAreDotless(to, from, messageType, requestId, replyTo, made);
    var lines := HeaderLines(to, from, messageType, requestId, replyTo, made);
    forall i | 0 <= i < |lines|
      ensures IsSafeLine(lines[i])
    {
      assert IsDotless(lines[i]);
      assert lines[i][0] in "FTSMDCI";
    }
  }

  lemma BodyIsSafe(encoded: string)
    requires IsBase64(encoded)
    ensures AllSafe(["", encoded, ""])
  {
    Base64IsDotless(encoded);
    assert encoded != "" ==> IsBase64Char(encoded[0]);
  }

  lemma BuiltMailIsSafe(to: string, from: string, messageType: string, requestId: string, replyTo: Option<string>, made: Supplied)
    requires IsSupplied(made)
    ensures !Hazard(Join(MailLines(to, from, messageType, requestId, replyTo, made), CRLF), true)
  {
    HeadersAreSafe(to, from, messageType, requestId, replyTo, made);
    BodyIsSafe(made.encoded);
    SafeLinesAreNoHazard(MailLines(to, from, messageType, requestId, replyTo, made));
  }

  // ---------------------------------------------------------------- the CRLF at the end

  /** A built mail ends in its body and one CRLF. */
  lemma BuiltMailEnds(to: string, from: string, messageType: string, requestId: string, replyTo: Option<string>, made: Supplied)
    returns (front: string)
    requires IsSupplied(made) && made.encoded != ""
    ensures Join(MailLines(to, from, messageType, requestId, replyTo, made), CRLF) == front + CRLF
    ensures front != "" && front[0] == 'F' && !EndsWith(front, CRLF)
  {
    var headers := HeaderLines(to, from, messageType, requestId, replyTo, made);
    var lines := headers + [""] + [made.encoded];
    assert MailLines(to, from, messageType, requestId, replyTo, made) == lines + [""];
    front := Join(lines, CRLF);
    JoinSnoc(lines, "");
    assert front + CRLF + "" == front + CRLF;
    JoinSnoc(headers + [""], made.encoded);
    LastIsBase64(Join(headers + [""], CRLF) + CRLF, made.encoded);
    assert lines[0][0] == 'F';
    assert front[0] == lines[0][0];
  }

  lemma LastIsBase64(front: string, encoded: string)
    requires IsBase64(encoded) && encoded != ""
    ensures !EndsWith(front + encoded, CRLF)
  {
    var s := front + encoded;
    assert IsBase64Char(s[|s| - 1]);
    if |s| >= 2 {
      assert s[|s| - 2..][1] == s[|s| - 1];
    }
  }

  /** SMTP takes the final CRLF away, POP3 puts it back. */
  lemma CrlfComesBack(front: string)
    requires front != "" && front[0] == 'F' && !EndsWith(front, CRLF)
    ensures LessOneCrlf(UnstuffLine(front + CRLF)) == front && WithFinalCrlf(front) == front + CRLF
  {
    var mail := front + CRLF;
    assert mail[0] == 'F';
    assert !(".." <= mail) by {
      DotsAre(mail);
    }
    assert mail[|mail| - 2..] == CRLF && mail[..|mail| - 2] == front;
  }

  // ---------------------------------------------------------------- the collector and the far site

  /** An outbox file whose recipient is wrapped for a site that is not ours goes there. */
  lemma CollectedForHost(site: Site, names: C.Names, routes: map<string, Path>, item: C.Item, raw: string, inner: string, host: string)
    requires item.agent.OutboxAgent? && Recipient(raw) == inner + "@" + host && inner + "@" + host !in routes
    requires Strip(inner) == inner == Lower(inner) && '@' in inner && IsClusterRecipient(site, inner)
    requires '@' !in host && CanonicalHost(host) == host && host !in names.mine
    ensures C.Decide(site, names, routes, item, raw) == C.Remote(host, inner + "@" + host)
  {
    FatmamaSplits(site, inner + "@" + host, inner, host);
  }

  /** What the sender's RCPT names, the far site reads. */
  lemma RcptIsRead(previous: string, to: string)
    requires Strip(to) == to == Lower(to) && '<' !in to && '>' !in to
    ensures RcptAddress(previous, "RCPT TO:<" + to + ">") == to
  {
    var cmd := "RCPT TO:<" + to + ">";
    assert FirstIndex(cmd, '<') == Some(8) by {
      RcptParts(to);
      FirstIndexAt("RCPT TO:", '<', to + ">");
    }
    assert FirstIndex(cmd, '>') == Some(9 + |to|) by {
      RcptParts(to);
      FirstIndexAt("RCPT TO:<" + to, '>', "");
    }
    assert cmd[9..9 + |to|] == to;
  }

  lemma RcptParts(to: string)
    ensures "RCPT TO:<" + to + ">" == "RCPT TO:" + ['<'] + (to + ">")
    ensures "RCPT TO:<" + to + ">" == "RCPT TO:<" + to + ['>'] + ""
    ensures '<' !in "RCPT TO:" && '>' !in "RCPT TO:<"
  {
  }

  /** The far site unwraps an address that is wrapped for it. */
  lemma FarSiteAdmits(site: Site, mine: set<string>, previous: string, inner: string, host: string)
    requires Strip(inner) == inner == Lower(inner) && inner != "" && '@' in inner && IsClusterRecipient(site, inner)
    requires '@' !in host && CanonicalHost(host) == host && host in mine && Lower(Strip(host)) !in site.domains
    requires var to := inner + "@" + host; Strip(to) == to == Lower(to) && '<' !in to && '>' !in to
    ensures Admitted(site, mine, previous, "RCPT TO:<" + (inner + "@" + host) + ">") == (inner, true)
  {
    var to := inner + "@" + host;
    RcptIsRead(previous, to);
    FatmamaSplits(site, to, inner, host);
    OneLastCut(to, '@', inner, host);
    assert to[LastIndex(to, '@').value + 1..] == host;
  }

  /** With a route, or on a site that creates one, the message is filed. */
  lemma FarSiteFiles(site: Site, store: Store, inner: string, name: string, bytes: string)
    requires Strip(inner) == inner == Lower(inner) && inner != "" && IsRegistrable(site, inner)
    requires inner in store.routes || site.autoCreate
    ensures var after := Deliver(site, store, inner, name, bytes, true);
            inner in after.routes && Loc(after.routes[inner], New, name) in after.mail &&
            after.mail[Loc(after.routes[inner], New, name)] == bytes
  {
  }

  // ---------------------------------------------------------------- the whole way

  /** How the two sites stand to a wrapped address: the sender's hosts do not include the destination, the receiver's do. */
  predicate IsAddressedTo(here: Site, mineHere: set<string>, there: Site, mineThere: set<string>, inner: string, host: string) {
    var to := inner + "@" + host;
    Strip(inner) == inner == Lower(inner) && inner != "" && '@' in inner && IsClusterRecipient(here, inner) && IsRegistrable(there, inner) &&
    '@' !in host && CanonicalHost(host) == host && host !in mineHere && host in mineThere &&
    Lower(Strip(host)) !in there.domains &&
    Strip(to) == to == Lower(to) && '<' !in to && '>' !in to && IsPlain(to)
  }

  /** For every accepted address, header and payload: the collector sends the mail to the host its address names, the far
      site admits it for the wallet's own address and files it, and the wallet's carrier reads over POP3 exactly the bytes
      ANTIE built. */
  lemma BuiltMailReachesWallet(here: Site, names: C.Names, routes: map<string, Path>, item: C.Item,
                               there: Site, mineThere: set<string>, store: Store, name: string,
                               inner: string, host: string, from: string, messageType: string, requestId: string,
                               replyTo: Option<string>, made: Supplied, previous: string, afterMail: string, afterReply: string)
    requires IsAddressedTo(here, names.mine, there, mineThere, inner, host)
    requires IsValidAddress(from) && IsSupplied(made) && made.encoded != ""
    requires item.agent.OutboxAgent? && inner + "@" + host !in routes && (inner in store.routes || there.autoCreate)
    ensures var to := inner + "@" + host;
            var mail := Join(MailLines(to, from, messageType, requestId, replyTo, made), CRLF);
            var filed := Message(DataOf(mail) + afterMail);
            var after := Deliver(there, store, inner, name, filed, true);
            C.Decide(here, names, routes, item, mail) == C.Remote(host, to) &&
            Admitted(there, mineThere, previous, "RCPT TO:<" + to + ">") == (inner, true) &&
            inner in after.routes && Loc(after.routes[inner], New, name) in after.mail &&
            Multiline(RetrBody(after.mail[Loc(after.routes[inner], New, name)]) + afterReply) == Some((mail, afterReply))
  {
    var to := inner + "@" + host;
    var mail := Join(MailLines(to, from, messageType, requestId, replyTo, made), CRLF);
    assert C.Decide(here, names, routes, item, mail) == C.Remote(host, to) by {
      CollectorFindsRecipientIff(to, from, messageType, requestId, replyTo, made);
      CollectedForHost(here, names, routes, item, mail, inner, host);
    }
    assert Admitted(there, mineThere, previous, "RCPT TO:<" + to + ">") == (inner, true) by {
      assert IsClusterRecipient(there, inner);
      FarSiteAdmits(there, mineThere, previous, inner, host);
    }
    var filed := Message(DataOf(mail) + afterMail);
    FarSiteFiles(there, store, inner, name, filed);
    assert Multiline(RetrBody(filed) + afterReply) == Some((mail, afterReply)) by {
      FiledReadsBack(to, from, messageType, requestId, replyTo, made, afterMail, afterReply);
    }
  }

  /** The two wires after one another are the identity on built mails. */
  lemma FiledReadsBack(to: string, from: string, messageType: string, requestId: string, replyTo: Option<string>, made: Supplied,
                       afterMail: string, afterReply: string)
    requires IsSupplied(made) && made.encoded != ""
    ensures var mail := Join(MailLines(to, from, messageType, requestId, replyTo, made), CRLF);
            Multiline(RetrBody(Message(DataOf(mail) + afterMail)) + afterReply) == Some((mail, afterReply))
  {
    var mail := Join(MailLines(to, from, messageType, requestId, replyTo, made), CRLF);
    var front := BuiltMailEnds(to, from, messageType, requestId, replyTo, made);
    DataRoundTrip(mail, afterMail);
    CrlfComesBack(front);
    BuiltMailIsSafe(to, from, messageType, requestId, replyTo, made);
    RetrRoundTrip(front, afterReply);
  }

  /** On the way through ANTIE's own carrier nothing is lost in between either. */
  lemma CarrierMailReadsBack(to: string, from: string, messageType: string, requestId: string, replyTo: Option<string>, made: Supplied,
                             afterMail: string, afterReply: string)
    requires IsSupplied(made) && made.encoded != ""
    ensures var mail := Join(MailLines(to, from, messageType, requestId, replyTo, made), CRLF);
            Multiline(RetrBody(Message(CarrierDataOf(mail) + afterMail)) + afterReply) == Some((mail, afterReply))
  {
    var mail := Join(MailLines(to, from, messageType, requestId, replyTo, made), CRLF);
    var front := BuiltMailEnds(to, from, messageType, requestId, replyTo, made);
    BuiltMailArrives(to, from, messageType, requestId, replyTo, made, afterMail);
    BuiltMailIsSafe(to, from, messageType, requestId, replyTo, made);
    assert WithFinalCrlf(mail) == mail by {
      assert mail[|mail| - 2..] == CRLF;
    }
    RetrRoundTrip(mail, afterReply);
  }

  // ---------------------------------------------------------------- the way through a pickup directory

  /** A verified care-of address is deposited under its host, with its mail built for the inner address. */
  lemma CareOfIsDeposited(inner: string, host: string, fp: string, walletId: string, validates: string -> bool)
    requires OneAt(inner) && fp != "" && '/' !in fp && validates(inner + "/" + fp)
    requires '@' !in host && Lower(host) == host && IsDepositable(host)
    ensures PlanDelivery(Some(inner + "@" + host + "/" + fp), walletId, true, validates) == Deposit(host, inner)
  {
    var addr := inner + "@" + host + "/" + fp;
    ParseInvertsBuild(addr, inner, host, fp);
    assert addr[|inner + "@" + host|] == '/';
  }

  /** The pickup collector sends what lies under a foreign host to that host, for the address in its header. */
  lemma PickedUpForHost(site: Site, names: C.Names, routes: map<string, Path>, item: C.Item, raw: string, inner: string)
    requires item.agent.PickupAgent? && CanonicalHost(item.dir) == item.dir && inner != "" && Recipient(raw) == inner
    requires item.dir !in names.mine && item.dir !in names.advertised
    ensures C.Decide(site, names, routes, item, raw) == C.Remote(item.dir, inner)
  {
  }

  lemma PlainAddressIsAdmitted(site: Site, mine: set<string>, previous: string, inner: string)
    requires Strip(inner) == inner == Lower(inner) && inner != "" && IsClusterRecipient(site, inner)
    requires '<' !in inner && '>' !in inner
    ensures Admitted(site, mine, previous, "RCPT TO:<" + inner + ">") == (inner, true)
  {
    RcptIsRead(previous, inner);
  }

  /** The same for a care-of address at an ANTIE with a pickup directory: planned, deposited, collected, admitted, filed and
      read over POP3, the mail is the one that was built. */
  lemma DepositReachesWallet(here: Site, names: C.Names, routes: map<string, Path>, fileName: string,
                             there: Site, mineThere: set<string>, store: Store, name: string,
                             inner: string, host: string, fp: string, walletId: string, validates: string -> bool,
                             from: string, messageType: string, requestId: string,
                             replyTo: Option<string>, made: Supplied, previous: string, afterMail: string, afterReply: string)
    requires OneAt(inner) && IsPlain(inner) && Strip(inner) == inner == Lower(inner) && '<' !in inner && '>' !in inner
    requires fp != "" && '/' !in fp && validates(inner + "/" + fp)
    requires '@' !in host && Lower(host) == host && IsDepositable(host) && CanonicalHost(host) == host
    requires host !in names.mine && host !in names.advertised
    requires IsRegistrable(there, inner) && (inner in store.routes || there.autoCreate)
    requires IsValidAddress(from) && IsSupplied(made) && made.encoded != ""
    ensures var mail := Join(MailLines(inner, from, messageType, requestId, replyTo, made), CRLF);
            var filed := Message(DataOf(mail) + afterMail);
            var after := Deliver(there, store, inner, name, filed, true);
            PlanDelivery(Some(inner + "@" + host + "/" + fp), walletId, true, validates) == Deposit(host, inner) &&
            C.Decide(here, names, routes, C.Item(C.PickupAgent, host, fileName), mail) == C.Remote(host, inner) &&
            Admitted(there, mineThere, previous, "RCPT TO:<" + inner + ">") == (inner, true) &&
            inner in after.routes && Loc(after.routes[inner], New, name) in after.mail &&
            Multiline(RetrBody(after.mail[Loc(after.routes[inner], New, name)]) + afterReply) == Some((mail, afterReply))
  {
    var mail := Join(MailLines(inner, from, messageType, requestId, replyTo, made), CRLF);
    var filed := Message(DataOf(mail) + afterMail);
    CareOfIsDeposited(inner, host, fp, walletId, validates);
    assert '@' in inner && inner != "";
    assert Recipient(mail) == inner by {
      CollectorFindsRecipientIff(inner, from, messageType, requestId, replyTo, made);
    }
    PickedUpForHost(here, names, routes, C.Item(C.PickupAgent, host, fileName), mail, inner);
    PlainAddressIsAdmitted(there, mineThere, previous, inner);
    FarSiteFiles(there, store, inner, name, filed);
    FiledReadsBack(inner, from, messageType, requestId, replyTo, made, afterMail, afterReply);
  }
}
