# AXIOM mail: a verification model

AXIOM's validators talk by mail. FATMAMA (`fatmama/fatmama.py`) is the dev mail server: it takes mail over SMTP, keeps
it in maildirs, hands it out over POP3, and collects what validators leave for other sites. ANTIE (`antie/src/`) is a
validator's mail gateway: it pulls mail over POP3 or IMAP, stages it in a local maildir, passes requests to a Lambda
child over a pipe, and writes replies. This project models the parts of both that move bytes and keep state, and proves
what they keep: over every byte string, every run, every interleaving and every failure of an await.

`dafny verify dfyconfig.toml` checks all of it.

## How the files fit together

| file | models |
|---|---|
| `Numbers.dfy`, `Text.dfy`, `Streams.dfy` | minima, maxima and a saturating counter; text searching and splitting; the two ends of a connection |
| `SmtpWire.dfy` | SMTP DATA between FATMAMAs, and from ANTIE's carrier, which stuffs nothing |
| `Pop3Wire.dfy` | RETR on FATMAMA's side, `read_multiline` on ANTIE's |
| `ImapWire.dfy` | FETCH literals and quoted arguments |
| `LegacyCodec.dfy`, `CborRoundTrip.dfy`, `CborMeaning.dfy`, `NestingLimit.dfy` | the hand-written CBOR codec kept as the compatibility oracle; its round trip; what it makes of any bytes; the limit of 33 |
| `MailStore.dfy` | FATMAMA's routes, maildirs, markers, POP3 sessions, admin delete |
| `MailboxNames.dfy`, `StoreLaws.dfy` | slugs, own and protected mailboxes, cluster addresses; what each operation of the store does, in those terms |
| `StoreSafety.dfy`, `AccountSafety.dfy` | whole runs of the store: no mail lost, which accounts stay |
| `DeliveryAddress.dfy`, `CareOf.dfy` | the address splitters of both sides |
| `Collector.dfy`, `CollectorProgress.dfy`, `Spacing.dfy` | the outbox and pickup collectors; which files they deliver and which they leave; how many spaced moments fit a window |
| `Funnel.dfy`, `FunnelPass.dfy` | ANTIE's IMAP pull funnel; a pass over any number of messages as a run of it |
| `LambdaPipe.dfy` | the framed request/reply pipe to the Lambda child |
| `BuiltMail.dfy` | the mails ANTIE builds, and the subject parser |
| `EndToEnd.dfy` | a mail's whole way, across all of these |
| `WalletLimiter.dfy`, `EventRing.dfy`, `CarrierBackoff.dfy`, `CarrierGauges.dfy` | limiter, event ring, backoff, gauges |

Code that changes state is a class whose methods equal a specification function; the theorems are about those functions,
composed into state machines whose steps are the stretches between awaits (or single atomic operations). Bytes are
characters in the wire and store modules, so a theorem over all strings covers all byte strings, and a `byte` type in the
codec and the pipe.

## Where the code does less than its words

Each of these is a lemma with the exact condition, or a run that shows it.

- The intake removes a dot from a first line that begins with two although the sender added none there
  (`SmtpWire.Transparency`, `SmtpWire.LeadingDotsAreLost`).
- `read_multiline` trims a line before comparing it with the lone dot, so an indented dot ends a message early
  (`Pop3Wire.RetrRoundTrip`, `Pop3Wire.IndentedDotTruncates`).
- `read_multiline` takes a line that the end of the stream cuts off for a whole one, so a reply that breaks off right behind the first dot
  of a stuffed line reads as a complete, shorter message (`Pop3Wire.CutReplyIff`, `Pop3Wire.CutBehindDotReadsAsWhole`).
- A sender that hangs up before the terminator of DATA has its message filed as far as it came (`SmtpWire.HangUpIsFiled`).
- A CBOR integer below -2^63 is read as a positive number (`CborMeaning.IntegerIs`).
- `fetch_message` does not look at the tagged status: a FETCH answered NO or BAD, or OK with the body as a quoted string, yields
  an empty message, which is staged, and the original is then deleted upstream (`Funnel.OnePassKeepsIff`).
- DATA is answered 250 also when the message could not be written or had no mailbox, so a collector that has its 250 unlinks a
  message that the other site may not have filed (`StoreSafety.FiledIff`).
- A registered account can be reclaimed if another address has the same slug (`AccountSafety.SharedSlugLosesAccount`; which do, says
  `MailboxNames.SameSlugIff`), and
  a USER re-issued after DELE keeps the old numbers, which then stand for other messages (`AccountSafety.UserThenQuitIff`,
  `AccountSafety.SecondUserPullsUnmarked`).
- `outbox_for` says it mirrors `recipient_is_local` so that the two can never disagree; they do on capitals, on a slash before
  the `@`, on an address wrapped for a host outside the cluster, and on an `@` behind the slash
  (`CareOf.TableAgreesWithRouterIff` and the three lemmas after it).
- A reply over 10 MiB ends its call with an error and leaves its body in the Lambda pipe, where later calls take it for frames
  until it is used up (`LambdaPipe.EachGetsItsOwnIff`, `LambdaPipe.CallAfterOversize`).
- The backoff's exponent stops at 16, so an interval below 28 ms never reaches the cap (`CarrierBackoff.ReachesCapIff`).
- The streak gauge can read 0 while a loop is failing (`CarrierGauges.LateReportIsLost`, `CarrierGauges.RaceLosesStreak`).
- A restart forgets the last dial (`Collector.RestartsReachBound`), and a ring that has dropped a delivery at the very moment of
  the cutoff reports short totals with the truncated flag down (`EventRing.FlagMissesTies`).

## Model

| member | source | states |
|---|---|---|
| `SmtpWire.SendData` | fatmama/fatmama.py:299-303 | The cross-site sender writes the stuffed body, a CRLF if it lacks one, and the lone dot. |
| `SmtpWire.StreamReader.ReadUntil` | fatmama/fatmama.py:917-925 | Reading up to the terminator: complete just behind the first occurrence, partial at the end of the stream, or over the buffer limit with nothing consumed. |
| `SmtpWire.ReadChunked` | fatmama/fatmama.py:927-937 | The chunked fallback returns what stands before the first terminator, for every sequence of chunk sizes. |
| `SmtpWire.UnstuffInPlace` | fatmama/fatmama.py:939-943 | Un-stuffing in place takes one dot off each line that begins with two. |
| `SmtpWire.ReceiveData` | fatmama/fatmama.py:910-943 | Whichever way a message is read, it is the same message, and the stream is left right behind the terminator when it fits the buffer. |
| `SmtpWire.DataRoundTrip` | fatmama/fatmama.py:299-303 | What the sender writes, the intake reads: its terminator is the first one, so exactly what follows remains, and the message lacks at most a final CRLF and a dot of a first line with two. |
| `SmtpWire.Transparency` | fatmama/fatmama.py:939-943 | Section 4.5.2 of RFC 5321: transparency holds exactly for messages that do not begin with two dots. |
| `SmtpWire.LeadingDotsAreLost` | fatmama/fatmama.py:299-299 | A message that begins with two dots loses one. |
| `SmtpWire.HangUpIsFiled` | fatmama/fatmama.py:922-923 | A message whose sender hangs up before the terminator is filed all the same, less a dot if it begins with two. |
| `SmtpWire.CarrierTransparency` | antie/src/carrier.rs:1160-1164 | ANTIE's carrier, which stuffs nothing, delivers a message unchanged and leaves the stream behind its terminator exactly when no line begins with two dots and no line after the first is a lone dot. |
| `Pop3Wire.SendRetrBody` | fatmama/fatmama.py:1683-1692 | The RETR body: stuffed, CRLF-terminated, closed by the lone dot. |
| `Pop3Wire.ReadMultiline` | antie/src/carrier.rs:545-560 | The carrier's reader returns the un-stuffed lines before the first line that trims to a dot, or an error when the stream ends first. |
| `Pop3Wire.RetrRoundTrip` | antie/src/carrier.rs:545-560 | Section 3 of RFC 1939: the carrier reads back the message, with a final CRLF added when missing, and is left right behind the reply, exactly when no line that was not stuffed reads as a dot line. |
| `Pop3Wire.CanonicalIsSafe` | fatmama/fatmama.py:1683-1692 | Messages without bare LF and without an indented lone dot have no such line. |
| `Pop3Wire.IndentedDotTruncates` | antie/src/carrier.rs:552-554 | A message with an indented lone dot is not read back. |
| `Pop3Wire.MultilineIs` | antie/src/carrier.rs:545-560 | The message ends at the first line that trims to a dot and is the lines before it, each less a dot if it begins with two; what follows remains; a stream without such a line is an error. |
| `Pop3Wire.CutReplyIff` | antie/src/carrier.rs:550-554 | A reply that breaks off anywhere is an error, unless what stands behind its last line feed trims to a dot. |
| `Pop3Wire.CutBehindDotReadsAsWhole` | antie/src/carrier.rs:550-554 | Every message that begins with a dot has a cut that reads as a whole and empty message. |
| `ImapWire.ReadExact` | antie/src/carrier.rs:120-142 | The literal reader returns exactly the bytes asked for, for every chunking, or an error at the end of the stream. |
| `ImapWire.FetchMessage` | antie/src/carrier.rs:867-903 | The response loop returns the concatenated literals before the tagged line, or an error when the stream ends first. |
| `ImapWire.FetchReturnsLiterals` | antie/src/carrier.rs:883-903 | Section 4.3 of RFC 9051: for every response, of untagged lines and literals in any number and order, exactly the bytes of its literals come back, tagged-looking lines and braces included, and the stream is left behind the tagged line. |
| `ImapWire.OneLiteralIs` | antie/src/carrier.rs:890-898 | A response with one literal is that literal. |
| `ImapWire.NoLiteralIsEmpty` | antie/src/carrier.rs:883-888 | A response without a literal reads as an empty message, whatever its tagged line says. |
| `ImapWire.TruncationIsAnError` | antie/src/carrier.rs:883-903 | A response cut anywhere gives an error, or all of its literals exactly when the tag of the answer had arrived. |
| `ImapWire.LiteralSizeIs` | antie/src/carrier.rs:890-898 | A line announces a literal by the number in its last braces, and only at its very end. |
| `ImapWire.ParseUsizeIff` | antie/src/carrier.rs:893-893 | The number is read from its decimal text, with leading zeros or a plus sign or without, and from nothing else. |
| `ImapWire.QuoteRoundTrip` | antie/src/carrier.rs:804-810 | Quoting refuses exactly the strings with CR or LF; un-quoting gives back every other. |
| `LegacyCodec.Decode` | antie/src/email.rs:1569-1676 | The recursive decoder computes the specification, terminates, and leaves its position within the data. |
| `LegacyCodec.DecodeArray` | antie/src/email.rs:1618-1632 | The element loop of arrays. |
| `LegacyCodec.DecodeMap` | antie/src/email.rs:1633-1658 | The entry loop of maps: keys become strings, a repeated key replaces. |
| `LegacyCodec.DecodeArg` | antie/src/email.rs:1679-1720 | The argument of a head leaves the position within the data. |
| `CborRoundTrip.HeadIsShortest` | antie/src/email.rs:1780-1798 | No head that decodes to an argument is shorter than the one the encoder writes for it. |
| `LegacyCodec.EncodeValue` | antie/src/email.rs:1728-1778 | The encoder appends the encoding of a value to its buffer and changes nothing before it. |
| `LegacyCodec.EncodeAll` | antie/src/email.rs:1752-1760 | The loop over an array's elements. |
| `LegacyCodec.EncodeAllEntries` | antie/src/email.rs:1762-1776 | The loop over an object's entries. |
| `CborRoundTrip.DecodesEncoding` | antie/src/email.rs:1564-1807 | At any position and depth the encoding of a value decodes to the value and its end exactly when it fits the depth that is left, and to an error otherwise. |
| `CborRoundTrip.RoundTrip` | antie/src/email.rs:1564-1807 | For every JSON value and every suffix the decoder gives back the value and the position of the suffix if and only if the value nests at most 32 deep and its containers are bounded, although arrays of small integers are written as byte strings. |
| `CborRoundTrip.EncodingsAreSelfDelimiting` | antie/src/email.rs:1722-1807 | No encoding is a prefix of another, so the encoder is injective, at any nesting. |
| `CborMeaning.InsertIs` | antie/src/email.rs:1653-1653 | After an insertion the key has the value, every other key has what it had, and the keys ascend. |
| `CborMeaning.DecodedMapIs` | antie/src/email.rs:1633-1658 | A decoded map has exactly the keys that were read, each with the value read last, in whatever order and however often they came. |
| `CborMeaning.AnyOrderDecodes` | antie/src/email.rs:1633-1658 | A map written with its entries in any order and with repetitions decodes to the map that has for each key the value written last. |
| `CborMeaning.IntegerKeyDecodes` | antie/src/email.rs:1648-1652 | An integer key becomes a text that denotes that integer. |
| `CborMeaning.AnyHeadDecodes` | antie/src/email.rs:1679-1720 | A head may announce its argument in more bytes than it needs; one cut short, reserved or indefinite is refused. |
| `CborMeaning.IntegerIs` | antie/src/email.rs:1586-1593 | Non-negative integers are read right, negative ones if and only if they are not below -2^63; those come out positive. |
| `CborMeaning.StringIs` | antie/src/email.rs:1595-1615 | A string is its announced bytes and is refused when they are not all there; text must be UTF-8. |
| `CborMeaning.SimpleIs` | antie/src/email.rs:1659-1675 | The simple values that are read, and doubles that are neither infinite nor NaN; all else is refused. |
| `CborMeaning.ByteStringIff` | antie/src/email.rs:1752-1757 | An array is written as a byte string exactly when it is not empty and holds only integers from 0 to 255, and then as these bytes. |
| `CborMeaning.Utf8Iff` | antie/src/email.rs:1612-1612 | Text is what is the encoding of some Unicode scalar values, as section 3 of RFC 3629 has it. |
| `CborMeaning.DecodedIsValid` | antie/src/email.rs:1569-1676 | Whatever is accepted is a JSON value, with its keys in order and once each, and fits the depth that was left. |
| `CborMeaning.ReencodingKeeps` | antie/src/email.rs:1564-1807 | Whatever body is accepted, however it was written: what the encoder makes of its value decodes to the same value. |
| `NestingLimit.CapIsItemDepth` | antie/src/email.rs:1569-1572 | What a depth cap accepts of a readable item is decided by the depth of its deepest item. |
| `NestingLimit.LimitIsContainers` | antie/src/email.rs:634-643 | What the typed decoder's limit refuses is decided by how many containers nest. |
| `NestingLimit.LimitsCompared` | antie/src/email.rs:634-643 | On every readable body: the limit of 33 refuses, on depth, nothing that the cap of 32 accepted, and the two differ exactly when items 33 deep exist and are all scalars. |
| `NestingLimit.SmallerLimitsRefuse` | antie/src/email.rs:2003-2028 | 33 is the least such limit: every smaller one refuses a body that was accepted. |
| `MailStore.FatmamaServer.RegisterEmail` | fatmama/fatmama.py:620-670 | Registration adds a route to the address's own directory, once, or refuses and changes nothing. |
| `MailStore.FatmamaServer.HandleRegister` | fatmama/fatmama.py:831-871 | The REGISTER verb: refused in production and outside the cluster; otherwise the route exists and its mark is cleared. |
| `MailStore.FatmamaServer.HandleData` | fatmama/fatmama.py:945-981 | The end of DATA files the message in the recipient's `new/`, creating and marking a route first when the site does so, or drops it, or fails to write it; the counters, also those by recipient, follow; the peer is answered 250 in any case. |
| `MailStore.FatmamaServer.DeleteAddress` | fatmama/fatmama.py:714-735 | One address of a delete call: deleted with its mailbox, protected, or not found. |
| `MailStore.FatmamaServer.DeleteRoutes` | fatmama/fatmama.py:698-748 | The whole call, and the summary it returns. |
| `MailStore.FatmamaServer.UnlinkFile` | fatmama/fatmama.py:1564-1568 | Unlinking one message; one that is gone is passed over. |
| `MailStore.FatmamaServer.UnlinkMarked` | fatmama/fatmama.py:1560-1570 | QUIT unlinks exactly the messages the marks point at and counts those that were there. |
| `MailStore.FatmamaServer.HandleQuit` | fatmama/fatmama.py:1558-1609 | QUIT: nothing without authentication; otherwise the unlinks, and then a reclamation under all four conditions. |
| `MailboxNames.ProtectedIff` | fatmama/fatmama.py:672-694 | A route is protected exactly when its path names a local validator or is not of the form of the mailboxes FATMAMA makes. |
| `MailboxNames.ClusterIff` | fatmama/fatmama.py:107-115 | A site takes an address by what follows its last `@`, if something stands before it. |
| `MailboxNames.RegistrableIff` | fatmama/fatmama.py:645-659 | It gives a mailbox to those with something before their first `@` and behind it. |
| `MailboxNames.SlugIs` | fatmama/fatmama.py:662-662 | The slug of an address is its runs of lower-case letters and digits joined by dashes, or `anon`. |
| `MailboxNames.SlugCharIff` | fatmama/fatmama.py:662-662 | What stays in a slug: the letters from a to z and the digits. |
| `MailboxNames.SameSlugIff` | fatmama/fatmama.py:662-664 | Two addresses share a mailbox directory exactly when these runs are the same, or one has none and the other is `anon`. |
| `StoreLaws.QuitIs` | fatmama/fatmama.py:1558-1609 | The whole effect of an authenticated QUIT: the messages its marks stand for go and no other; the route goes, with what lies below its directory, if and only if something was marked, the account was auto-created, its mailbox is FATMAMA's own and no validator's, and it is now empty. |
| `StoreLaws.IdlePollChangesNothing` | fatmama/fatmama.py:1578-1594 | A QUIT with nothing marked, or without authentication, leaves the store as it was. |
| `StoreLaws.PollingKeepsAccounts` | fatmama/fatmama.py:1578-1594 | Over every run in which no message is marked and no admin deletes, every account keeps its route. |
| `StoreLaws.RouteDeletedIff` | fatmama/fatmama.py:698-748 | A delete call takes exactly the routes it was asked for whose mailboxes are FATMAMA's own and no validator's. |
| `StoreLaws.DeleteAllIs` | fatmama/fatmama.py:714-735 | With its maildirs it takes all that lies below the mailbox directories of the addresses it deletes and nothing else, on any layout; without them no message. |
| `StoreLaws.RegisterIs` | fatmama/fatmama.py:831-871 | The whole effect of a registration: nothing in production or for an address the site does not take; else a route to the address's own directory unless it has one, and no mark. |
| `StoreLaws.DeliverIs` | fatmama/fatmama.py:945-976 | The whole effect of a delivery: a marked account when the site creates one, and the message in the `new/` of the recipient's inbox if it could be written. |
| `StoreLaws.CountedIs` | fatmama/fatmama.py:959-964 | Over any deliveries the counters of an address are the sums of its own. |
| `StoreSafety.OneInboxPerMailbox` | fatmama/fatmama.py:543-551 | Below a mailbox directory of the site's layout lies one inbox. |
| `StoreSafety.DeleteOneTakes` | fatmama/fatmama.py:714-735 | A deletion takes the messages of its own inbox and of no other, although it removes the parent directory. |
| `StoreSafety.DeleteAllTakes` | fatmama/fatmama.py:698-748 | A delete call removes exactly the routes of its deletable addresses, and no message outside the inboxes those addresses were routed to. |
| `StoreSafety.ReclaimRemovesNoMail` | fatmama/fatmama.py:1594-1601 | Reclamation removes no message, also when routes share a directory. |
| `StoreSafety.QuitTakes` | fatmama/fatmama.py:1558-1609 | QUIT removes the messages its marks point at and no other, no protected route, and no route whose directory is unmarked. |
| `StoreSafety.DeliverAdds` | fatmama/fatmama.py:945-976 | A delivery adds one message and perhaps one route and touches nothing else. |
| `StoreSafety.FiledIff` | fatmama/fatmama.py:950-981 | The message is filed exactly when its file could be written and the recipient had a route or was given one. |
| `StoreSafety.AccountedStep` | fatmama/fatmama.py:797-1012 | Every step of every connection keeps the invariant: each message is accounted for, and each mark points at the message it was made for. |
| `StoreSafety.NoMailLost` | fatmama/fatmama.py:1495-1712 | Over every interleaving of deliveries, registrations, sessions, drops, QUITs and admin deletes: each message ever filed is in its mailbox unchanged, or was DELE-marked in an authenticated session that reached QUIT, or was removed by an admin delete that asked for its own inbox, which was not protected. |
| `AccountSafety.DeleteSplits` | fatmama/fatmama.py:714-748 | The three lists of a delete call together hold each address of the input exactly as often as the input does. |
| `AccountSafety.DeleteReports` | fatmama/fatmama.py:714-748 | The deleted list holds, once each, exactly the addresses whose routes go; the protected list exactly the protected ones. |
| `AccountSafety.NotFoundIs` | fatmama/fatmama.py:714-720 | The not-found list holds exactly the addresses that had no route, or stood in the list before and were deleted then. |
| `AccountSafety.ProtectedStays` | fatmama/fatmama.py:672-696 | Over every run a protected route stays, and its mail leaves only by being pulled. |
| `AccountSafety.LeavesOnlyByPull` | fatmama/fatmama.py:1558-1609 | Over every run without an admin delete, mail leaves only by being pulled. |
| `AccountSafety.RegisteredStays` | fatmama/fatmama.py:586-618 | Over every run whose addresses have distinct slugs, a registered account keeps its route and is never up for reclamation until an admin deletes it. |
| `AccountSafety.SharedSlugLosesAccount` | fatmama/fatmama.py:659-661 | Any two addresses with the same slug have a run without an admin in which one of them, registered, loses its account. |
| `AccountSafety.SlugsCollide` | fatmama/fatmama.py:659-659 | Two ordinary addresses with the same slug. |
| `AccountSafety.UserThenQuitIff` | fatmama/fatmama.py:1521-1570 | A USER followed by QUIT removes a message that was never marked exactly when some marked number stands for an unmarked message of the new listing. |
| `AccountSafety.SecondUserPullsUnmarked` | fatmama/fatmama.py:1521-1543 | A run from a start, without an admin, at whose end a message is gone that no one marked. |
| `AccountSafety.ReclaimIsSafeIff` | fatmama/fatmama.py:1594-1601 | On any layout, a reclamation removes a message exactly when one lies elsewhere below the same mailbox directory. |
| `DeliveryAddress.ParseRecipient` | fatmama/fatmama.py:420-437 | The loop over at most 200 header lines finds the first `To:` before a blank line. |
| `DeliveryAddress.RecipientIs` | fatmama/fatmama.py:420-437 | The recipient is read from the first `To:` line among the first 200, if no blank line stands before it, and otherwise there is none. |
| `DeliveryAddress.BracketedIsRead` | fatmama/fatmama.py:432-434 | What stands in angle brackets is the address, whatever name precedes it. |
| `DeliveryAddress.ParseDeliveryIff` | fatmama/fatmama.py:324-365 | A delivery address is taken apart into exactly the stripped lower-case cluster address, with an `@` of its own, before its last `@`, and the canonical name of the host behind it. |
| `DeliveryAddress.CanonicalHostIs` | fatmama/fatmama.py:172-186 | However a host is written, with capitals, brackets, tag, final dots or blanks, it has one canonical name. |
| `DeliveryAddress.RcptAddressIs` | fatmama/fatmama.py:878-885 | RCPT asks for what stands in its angle brackets, or follows its first colon, or for what was asked before. |
| `DeliveryAddress.AdmittedIff` | fatmama/fatmama.py:886-909 | A recipient is accepted exactly when it is a cluster address or wrapped for a host of this site, and then it is the address inside; all that is accepted are cluster addresses. |
| `CareOf.ParseInvertsBuild` | antie/src/care_of.rs:32-45 | Parsing `inner@pickup/fp` gives its parts for every inner with one `@`. |
| `CareOf.ParsesOnlyBuilt` | antie/src/care_of.rs:32-45 | An address parses to given parts exactly when it is built from them. |
| `CareOf.PlansAreVerified` | antie/src/care_of.rs:84-145 | For an override with a slash, the mailbox of every plan that is not refused, joined to the override's tail, validates. |
| `CareOf.PickupOnlyDeposits` | antie/src/care_of.rs:118-127 | Declaring a pickup directory only turns an email into a deposit for the same mailbox, under a name with no separator and no `..`. |
| `CareOf.PlainReceiverIs` | antie/src/care_of.rs:89-104 | Without an override that names a fingerprint, the mail goes to the address in the wallet id, and nowhere without one. |
| `CareOf.CareOfPlanIs` | antie/src/care_of.rs:106-128 | A care-of override is refused exactly when its inner address does not checksum to its fingerprint, deposited exactly when a pickup directory is supported and its name is plain, and mailed to the inner address otherwise. |
| `CareOf.PlainOverrideIs` | antie/src/care_of.rs:130-145 | Any other override goes to the address before its last slash exactly when it checksums. |
| `CareOf.PickupDomainIs` | antie/src/care_of.rs:50-55 | A pickup directory is named after what follows the last `@`, in lower case. |
| `CareOf.DepositableIff` | antie/src/care_of.rs:61-66 | Which names are plain. |
| `CareOf.OutboxForIff` | antie/src/config.rs:105-123 | A recipient gets the outbox of the first row for his domain, matched exactly but for case, and is refused exactly when there is a table and no row is for it. |
| `CareOf.WrappingKeepsOutbox` | antie/src/config.rs:73-118 | Wrapping an address in `@host/fp` leaves its outbox as it was. |
| `CareOf.TableAgreesWithRouterIff` | antie/src/carrier.rs:1181-1188 | On every string: `outbox_for` and `recipient_is_local` agree exactly when the inner domain before the first slash is a cluster domain in any case if and only if the domain behind the last `@` is one as written. |
| `CareOf.AgreeOnOneAtIff` | antie/src/carrier.rs:1181-1188 | With one `@` they differ exactly on a slash before it and on capitals, where that hides or makes a cluster domain. |
| `CareOf.AgreeOnWrappedIff` | antie/src/config.rs:86-103 | With two, they differ exactly when one of the inner domain and the host is of the cluster and the other is not. |
| `CareOf.AgreeOnAtInTailIff` | antie/src/carrier.rs:1181-1188 | With an `@` behind the first slash, exactly when the domain there and the address before the slash differ in this. |
| `CareOf.SplittersAgree` | fatmama/fatmama.py:324-365 | On lower-case cluster addresses with a canonical host FATMAMA's splitter and ANTIE's give the same inner address and host. |
| `Spacing.AtMostInWindow` | fatmama/fatmama.py:415-417 | Events a gap apart unless reset in between: at most floor(T / gap) + 1 + r lie in a window T with r resets. |
| `Collector.Collectors.DeliverLocally` | fatmama/fatmama.py:1415-1423 | A local delivery copies and then unlinks, and may stop before, between or after. |
| `Collector.Collectors.MayDial` | fatmama/fatmama.py:1394-1399 | A dial is recorded before it is made, and refused within two seconds of the last. |
| `Collector.Collectors.CollectOutboxFile` | fatmama/fatmama.py:1339-1423 | One outbox file, up to the peer's answer. |
| `Collector.Collectors.CollectPickupFile` | fatmama/fatmama.py:1444-1488 | One pickup file, up to the peer's answer. |
| `Collector.Collectors.Answered` | fatmama/fatmama.py:1408-1414 | A file leaves only when the peer has accepted it. |
| `CollectorProgress.HomeMailIsDelivered` | fatmama/fatmama.py:1415-1423 | An outbox file for an address with a mailbox here is moved to the `new/` of that mailbox. |
| `CollectorProgress.WrappedMailIsDelivered` | fatmama/fatmama.py:1376-1391 | So is one that is wrapped for a host of this site, to the mailbox of the address inside. |
| `CollectorProgress.PickupMailIsDelivered` | fatmama/fatmama.py:1459-1477 | And one in a pickup directory named after a host of this site. |
| `CollectorProgress.ForeignMailIsOffered` | fatmama/fatmama.py:1392-1414 | A file for another host is offered to it, unless it was dialled less than two seconds ago, and leaves exactly when it is accepted and can be unlinked. |
| `CollectorProgress.LeftInPlaceIff` | fatmama/fatmama.py:1353-1383 | When nothing fails, exactly the files without a recipient, without a delivery form, or without a mailbox at this site are left in place. |
| `CollectorProgress.DialsIff` | fatmama/fatmama.py:1394-1399 | Over every run a look at a file for another host dials it exactly when two seconds have passed since either collector last did, since the last restart. |
| `Collector.ConservedStep` | fatmama/fatmama.py:1339-1493 | Every step keeps the invariant: each file is there, or its receipt names a copy or an acceptance of exactly these bytes at the place they were meant for. |
| `Collector.NoFileLost` | fatmama/fatmama.py:1339-1493 | Over every run, with deliveries, unlinks and peers failing and restarts anywhere: each file ever written is still there, or has a copy in the `new/` of a mailbox its recipient was routed to, or was taken by the peer its address names. |
| `Collector.DialBound` | fatmama/fatmama.py:1394-1399 | Over every run both collectors together dial one host at most floor(T / 2) + 1 times in any T seconds, and once more for each restart in them. |
| `Collector.RestartsReachBound` | fatmama/fatmama.py:487-487 | The bound is reached: for every r a run from a start restarts r times and dials a host r + 1 times at one moment. |
| `Funnel.MailFunnel.CheckNew` | antie/src/carrier.rs:975-984 | The fetch loop over the replies as the reader takes them: all messages or an error, and no flag changed. |
| `Funnel.MailFunnel.WriteMessage` | antie/src/maildir.rs:96-118 | Staging writes to `tmp/` and renames into `new/`. |
| `Funnel.MailFunnel.MarkProcessed` | antie/src/carrier.rs:993-1012 | STORE, and EXPUNGE of everything flagged only if STORE was seen to succeed. |
| `Funnel.MailFunnel.DeliverMessages` | antie/src/gateway.rs:953-999 | The loop over fetched messages: staging comes before deletion, one failure does not stop the rest. |
| `Funnel.MailFunnel.Dispatched` | antie/src/maildir.rs:81-94 | The dispatcher moves a file from `new/` to `cur/`. |
| `Funnel.HandleOneIsSteps` | antie/src/gateway.rs:976-995 | The code for one message is its four steps when nothing comes between them. |
| `Funnel.KeepsStep` | antie/src/gateway.rs:953-999 | Every step keeps the invariant: a message is on the server or staged, and flagged only if staged. |
| `Funnel.NoMessageLost` | antie/src/gateway.rs:953-999 | Over every run, whatever the server replies, with any await failing and crashes anywhere: each message ever on the server is there unchanged, or in `new/` or `cur/` byte for byte, unless a FETCH of it was read as something else. |
| `Funnel.HonestIsRead` | antie/src/carrier.rs:883-903 | A reply whose literals are the message, complete or cut short, is never read as something else. |
| `Funnel.HonestServerLosesNothing` | antie/src/gateway.rs:953-999 | So over every run with such replies no message is lost. |
| `Funnel.ResponseIsRead` | antie/src/carrier.rs:883-888 | Any response is read as its literals: as nothing after NO, BAD, or an OK with a quoted string. |
| `Funnel.OnePassKeepsIff` | antie/src/carrier.rs:883-888 | One undisturbed pass removes the message upstream, and keeps it exactly when the literals of the response are its bytes. |
| `FunnelPass.FetchAllIs` | antie/src/carrier.rs:975-984 | The fetch loop gives nothing if and only if some reply reads as an error, and otherwise for each UID, in order, a message with that UID and what its own reply reads as. |
| `FunnelPass.PassIsRun` | antie/src/gateway.rs:961-999 | The code of a pass over any number of messages computes what the run of its steps does. |
| `FunnelPass.PassLosesNothing` | antie/src/gateway.rs:961-999 | So after any run a pass, however its awaits turn out, loses no message, unless a FETCH of it was read as something else. |
| `FunnelPass.UndisturbedPassDrains` | antie/src/gateway.rs:961-999 | When every reply brings its message and nothing fails, a pass and the dispatcher take all of them off the server and leave each in `cur/`, byte for byte, under its own name. |
| `LambdaPipe.LambdaChild.WriteRequest` | antie/src/lambda_client.rs:843-846 | A request is written as its length and its bytes. |
| `LambdaPipe.LambdaChild.ReadExact` | antie/src/lambda_client.rs:850-858 | Reading as the bytes arrive neither loses nor reorders any. |
| `LambdaPipe.LambdaChild.ReadReply` | antie/src/lambda_client.rs:848-882 | A read takes exactly one frame off what is on its way, leaves the body of one that is too large, and on a timeout has consumed what had arrived. |
| `LambdaPipe.ReadsFrame` | antie/src/lambda_client.rs:848-860 | Reading a frame gives the payload that was framed. |
| `LambdaPipe.PartOfFrameIsLost` | antie/src/lambda_client.rs:861-882 | What has come of a frame that is not all there is lost when the reader gives up. |
| `LambdaPipe.LengthIsBigEndian` | antie/src/lambda_client.rs:843-844 | A length is written with its most significant byte first. |
| `LambdaPipe.RepliesLag` | antie/src/lambda_client.rs:833-882 | Over every interleaving of callers, the child and the pipes: after k reads abandoned before their first byte every later call gets the reply to the request k before its own; with none, its own. |
| `LambdaPipe.PipesAreCleanIff` | antie/src/lambda_client.rs:944-991 | Both pipes are empty whenever the lock is free exactly as long as no read was abandoned. |
| `LambdaPipe.EachGetsItsOwnIff` | antie/src/lambda_client.rs:850-858 | With no read abandoned, in all runs each call gets the reply to its own request and the pipes are empty whenever the lock is free, if and only if no reply exceeds 10 MiB. |
| `LambdaPipe.CallAfterOversize` | antie/src/lambda_client.rs:852-855 | After a reply over the limit whose body begins with a whole frame, the next call gets that frame, and its own reply only if they happen to be equal. |
| `BuiltMail.BuildResponse` | antie/src/email.rs:701-760 | The mail is its header lines, a blank line and the body, built for exactly the accepted address pairs. |
| `BuiltMail.BuiltMailArrives` | antie/src/email.rs:736-760 | Every built mail passes byte for byte through a carrier that stuffs nothing. |
| `BuiltMail.CollectorFindsRecipientIff` | fatmama/fatmama.py:420-437 | The collector reads the lower-cased address the mail was built for exactly when it does not hold both angle brackets. |
| `BuiltMail.SubjectParsesIff` | antie/src/email.rs:483-493 | A subject parses to a type and a request id exactly when it is built from them; the id may hold slashes, the type not. |
| `BuiltMail.SubjectRoundTrip` | antie/src/email.rs:740-741 | The subject of a built mail gives back type and id exactly when the type has no slash. |
| `BuiltMail.SanitizeIs` | antie/src/email.rs:679-681 | Sanitizing drops every CR and LF and keeps all else in place. |
| `BuiltMail.HeadersReadBack` | antie/src/email.rs:736-760 | Under each header of a built mail stands what it was built with, and behind the blank line the encoded body and nothing else. |
| `BuiltMail.SubjectOfBuiltMail` | antie/src/email.rs:483-493 | The subject found in a built mail gives back its type and id exactly when the type has no slash. |
| `EndToEnd.BuiltMailReachesWallet` | fatmama/fatmama.py:1364-1414 | For every accepted address `inner@host`, header and payload: the collector sends the mail ANTIE built to that host, the far site admits it for the inner address and files it, and the wallet's carrier reads over POP3 exactly the bytes that were built: the CRLF that SMTP takes away, POP3 puts back. |
| `EndToEnd.DepositReachesWallet` | antie/src/care_of.rs:104-128 | The same for a verified care-of address at an ANTIE with a pickup directory: planned, deposited, collected by directory name, admitted, filed and read back byte for byte. |
| `EndToEnd.FiledReadsBack` | fatmama/fatmama.py:1683-1692 | SMTP between FATMAMAs and POP3 after one another are the identity on built mails. |
| `EndToEnd.CarrierMailReadsBack` | antie/src/carrier.rs:1160-1164 | So are ANTIE's own carrier, which stuffs nothing, and POP3. |
| `EndToEnd.BuiltMailIsSafe` | antie/src/email.rs:736-760 | No line of a built mail reads as a dot line over POP3. |
| `EndToEnd.RcptIsRead` | fatmama/fatmama.py:878-885 | The intake reads from RCPT the address the sender named. |
| `EndToEnd.FarSiteAdmits` | fatmama/fatmama.py:894-906 | An address wrapped for this site is unwrapped and admitted. |
| `WalletLimiter.WalletRateLimiter.CheckAndRecord` | antie/src/gateway.rs:94-103 | A request is refused within a cooldown of the last accepted one, and recorded otherwise. |
| `WalletLimiter.WalletRateLimiter.EvictStale` | antie/src/gateway.rs:106-109 | A sweep keeps what is younger than two cooldowns. |
| `WalletLimiter.WalletRateLimiter.Admit` | antie/src/gateway.rs:1478-1497 | Which requests are checked, and when the table is swept. |
| `WalletLimiter.EvictionIsInvisible` | antie/src/gateway.rs:94-109 | Over every trace with evictions at any moments the limiter decides as one that never forgets. |
| `WalletLimiter.DeniedIff` | antie/src/gateway.rs:94-109 | Over every trace with evictions: a request is refused exactly when the wallet's last accepted one is less than a cooldown ago. |
| `WalletLimiter.SweptHoldsRecent` | antie/src/gateway.rs:106-109 | A sweep leaves exactly the wallets with a request accepted less than two cooldowns ago. |
| `WalletLimiter.AcceptBound` | antie/src/gateway.rs:94-109 | With cooldown c at most floor(T / c) + 1 requests of a wallet are accepted in any window T. |
| `EventRing.Ring.Record` | fatmama/fatmama.py:508-514 | The ring holds the newest events of the history, as many as fit. |
| `EventRing.Ring.Events` | fatmama/fatmama.py:1151-1181 | `/events` gives the newest matching events of the ring after `since`, at most the clamped limit, oldest first, when time does not run backwards. |
| `EventRing.Ring.PerRecipient` | fatmama/fatmama.py:1208-1235 | `/per-recipient` gives the totals over the ring and the truncated flag. |
| `EventRing.WantedIs` | fatmama/fatmama.py:1172-1181 | Matching picks each event that is newer and passes the filters as often as it stands there, and no other. |
| `EventRing.WantedIsOrdered` | fatmama/fatmama.py:1172-1181 | And keeps them in order of time. |
| `EventRing.ClampIs` | fatmama/fatmama.py:1151-1170 | A limit counts as the nearest number from 1 to 2000. |
| `EventRing.TallyIs` | fatmama/fatmama.py:1216-1225 | The totals of an address are the number and bytes of its deliveries in the window. |
| `EventRing.TotalsAreCompleteIff` | fatmama/fatmama.py:1216-1225 | The totals over the ring are those over all events ever recorded exactly when no delivery of the window was dropped. |
| `EventRing.FlagIff` | fatmama/fatmama.py:1226-1235 | The flag is up exactly when the history fills the ring and its oldest event is newer than the cutoff. |
| `EventRing.FlagMissesTies` | fatmama/fatmama.py:1226-1235 | When time does not run backwards and the flag is down, they fall short exactly when a delivery at the very moment of the cutoff was dropped. |
| `EventRing.TotalsAreComplete` | fatmama/fatmama.py:1226-1235 | With strictly increasing timestamps, whenever the flag is down they are complete. |
| `EventRing.EqualTimesLoseTotals` | fatmama/fatmama.py:1231-1233 | Two deliveries at one moment for which they are not. |
| `EventRing.EventsAreCompleteIff` | fatmama/fatmama.py:1170-1181 | When exactly `/events` gives the newest matching events of the whole history. |
| `CarrierBackoff.PullLoop` | antie/src/gateway.rs:889-911 | The loop waits after each attempt by the length of the current failure streak. |
| `CarrierBackoff.StreakIs` | antie/src/gateway.rs:889-911 | The streak is the number of failures since the last attempt that reached the server. |
| `CarrierBackoff.BackoffDoubles` | antie/src/gateway.rs:936-941 | No failure waits the interval; each of the first sixteen doubles the wait, up to the cap, and later ones leave it. |
| `CarrierBackoff.NeverDecreases` | antie/src/gateway.rs:936-941 | Within a streak the delay never decreases and never exceeds the cap, for any interval not above it. |
| `CarrierBackoff.AboveTheCap` | antie/src/gateway.rs:936-941 | For an interval above the cap the first failure shortens it. |
| `CarrierBackoff.CappedByTwelveIff` | antie/src/config.rs:748-762 | The cap is reached within 12 failures exactly for intervals of at least 440 ms, hence for all that are allowed for a network carrier. |
| `CarrierBackoff.ReachesCapIff` | antie/src/gateway.rs:936-941 | The cap is reached at all exactly for intervals of at least 28 ms. |
| `CarrierBackoff.AttemptBound` | antie/src/gateway.rs:889-911 | A loop failing throughout a time T makes at most T / cap + 12 attempts in it. |
| `CarrierGauges.AntieStats.NoteCarrierAttempt` | antie/src/stats.rs:209-227 | What one undisturbed call does to the three gauges and the loop's own count. |
| `CarrierGauges.ConsistentStep` | antie/src/stats.rs:209-227 | Every atomic operation keeps the gauges equal to what the loops' positions say. |
| `CarrierGauges.GaugesAreRight` | antie/src/stats.rs:209-227 | For any number of loops interleaved at single atomic operations the backoff gauge never underflows, and at rest it is the number of failing loops and the total is that of all failures. |
| `CarrierGauges.StreakGaugeIs` | antie/src/stats.rs:209-227 | With whole calls as steps the streak gauge is the largest streak since the last all-clear, and 0 when none fails. |
| `CarrierGauges.CallIsSteps` | antie/src/stats.rs:209-227 | An undisturbed call is its atomic operations. |
| `CarrierGauges.WholeCallsAreARun` | antie/src/stats.rs:209-227 | Every trace of whole calls is a run, and leaves gauges and counts as the trace says. |
| `CarrierGauges.StreakIsRightUnlessLate` | antie/src/stats.rs:209-227 | In every interleaving in which no streak is reported between a loop's last subtraction and its store, the streak gauge at rest is the largest streak since no loop was in backoff. |
| `CarrierGauges.LateReportIsLost` | antie/src/stats.rs:213-216 | A report that does come between is lost when the store follows, whatever went before. |
| `CarrierGauges.RaceLosesStreak` | antie/src/stats.rs:213-216 | A run from fresh loops in which that happens. |

## Left out

- Core, Lambda's answers, wallet-id checksums, envelope sealing, `mail_parser` and base64 are other crates: the checksum is a
  predicate and the child's answer a function that the theorems are stated for; encoded bodies, message ids and dates are given
  with what their format guarantees.
- NestingLimit.LimitIsContainers: the typed decoder's library is represented by its depth accounting alone; tags are not read.
- Text: case folding and `strip` are ASCII; `trim` follows the Unicode White_Space property. POP3 text that is not UTF-8 is an
  error in the original and not modelled.
- LegacyCodec.Decode: a position sum over 64 bits is an error where the original would abort; the decimal text of a floating-point
  map key is a parameter.
- MailStore.FatmamaServer.HandleData: the event it records is modelled apart, in EventRing.
- MailStore.FatmamaServer.DeleteRoutes: the `errors` list and the counts of files and directories in its summary are not modelled.
- MailStore: failing directory, marker and route-file writes, log lines and the reload of an edited routes file;
  the order of a POP3 listing is a parameter of USER; MAIL and the command loop stand before the store. A second RCPT replaces the first, as in the original.
- AccountSafety.RegisteredStays: an operator who edits the routes file by hand can remove any route.
- `Pop3Carrier::mark_processed` deletes by message number in a fresh session, where numbers may have shifted; no conservation is
  claimed for it. The low-entropy drop of POP3 mail is not modelled: IMAP passes no threshold.
- LambdaPipe.RepliesLag: a read abandoned in the middle of a frame breaks the framing itself, and a reply over the limit leaves its body behind; a child that dies and is
  respawned starts with fresh pipes.
- Collector: the order of files within a pass, and how `my_domains` is derived; the sets of host names are inputs of each look.
- CarrierGauges: a loop that ends while failing, as IMAP's fall-back to poll mode does, leaves the backoff gauge raised; loops of the
  model do not end. Counters do not wrap.
- Sockets, TLS, wall-clock timeouts, inotify, the supervisor and CLI, TOT, the skip list, custody and uncle sinks, and the large response builders:
  I/O, or members that would add only easy ones. The limits of time are choices of the steps (an answer, a failure, a crash).
