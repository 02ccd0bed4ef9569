/** Care-of addresses `inner@pickup/fingerprint` on ANTIE's side, the outbox table, and how far ANTIE's and FATMAMA's
    splitters agree. */
module CareOf {
  import opened Text
  import opened MailStore
  import opened DeliveryAddress

  // ---------------------------------------------------------------- parse_care_of

  datatype CareOf = CareOf(inner: string, pickup: string, fingerprint: string)

  /** `parse_care_of`: the tail after the last slash, then the two sides of the second `@`. */
  function ParseCareOf(addr: string): Option<CareOf> {
    match CutLast(addr, '/')
    case None => None
    case Some((addressed, fp)) =>
      match CutSecond(addressed)
      case None => None
      case Some((inner, pickup)) => if fp == "" || pickup == "" then None else Some(CareOf(inner, pickup, fp))
  }

  function CutSecond(addressed: string): Option<(string, string)> {
    match CutFirst(addressed, '@')
    case None => None
    case Some((local, rest)) =>
      match CutFirst(rest, '@')
      case None => None
      case Some((domain, pickup)) => Some((local + "@" + domain, pickup))
  }

  /** Exactly one `@`. */
  predicate OneAt(s: string) {
    match CutFirst(s, '@')
    case None => false
    case Some((_, domain)) => '@' !in domain
  }

  lemma OneAtIs(local: string, domain: string)
    requires '@' !in local && '@' !in domain
    ensures OneAt(local + "@" + domain) && CutFirst(local + "@" + domain, '@') == Some((local, domain))
  {
    OneFirstCut(local + "@" + domain, '@', local, domain);
  }

  lemma CutSecondIs(inner: string, pickup: string)
    requires OneAt(inner)
    ensures CutSecond(inner + "@" + pickup) == Some((inner, pickup))
  {
    var (local, domain) := CutFirst(inner, '@').value;
    var rest := domain + "@" + pickup;
    assert inner + "@" + pickup == local + "@" + rest;
    OneFirstCut(inner + "@" + pickup, '@', local, rest);
    OneFirstCut(rest, '@', domain, pickup);
  }

  lemma CutSecondGives(addressed: string)
    requires CutSecond(addressed).Some?
    ensures var (inner, pickup) := CutSecond(addressed).value; OneAt(inner) && addressed == inner + "@" + pickup
  {
    var local, rest := CutFirst(addressed, '@').value.0, CutFirst(addressed, '@').value.1;
    var domain, pickup := CutFirst(rest, '@').value.0, CutFirst(rest, '@').value.1;
    OneAtIs(local, domain);
    RegroupAts(local, domain, pickup);
  }

  lemma RegroupAts(local: string, domain: string, pickup: string)
    ensures local + "@" + (domain + "@" + pickup) == local + "@" + domain + "@" + pickup
  {
  }

  /** Parsing a care-of address gives the parts it was built from. */
  lemma ParseInvertsBuild(addr: string, inner: string, pickup: string, fp: string)
    requires OneAt(inner) && pickup != "" && fp != "" && '/' !in fp && addr == inner + "@" + pickup + "/" + fp
    ensures ParseCareOf(addr) == Some(CareOf(inner, pickup, fp))
  {
    OneLastCut(addr, '/', inner + "@" + pickup, fp);
    CutSecondIs(inner, pickup);
  }

  /** And what parses was built that way: the two are inverse, on exactly these parts. */
  lemma ParsesOnlyBuilt(addr: string, co: CareOf)
    ensures ParseCareOf(addr) == Some(co) <==>
            OneAt(co.inner) && co.pickup != "" && co.fingerprint != "" && '/' !in co.fingerprint &&
            addr == co.inner + "@" + co.pickup + "/" + co.fingerprint
  {
    if OneAt(co.inner) && co.pickup != "" && co.fingerprint != "" && '/' !in co.fingerprint &&
       addr == co.inner + "@" + co.pickup + "/" + co.fingerprint
    {
      ParseInvertsBuild(addr, co.inner, co.pickup, co.fingerprint);
    }
    if ParseCareOf(addr) == Some(co) {
      CutSecondGives(CutLast(addr, '/').value.0);
    }
  }

  // ---------------------------------------------------------------- plan_receiver_delivery

  function PickupDomain(pickup: string): string {
    match CutLast(pickup, '@')
    case Some((_, domain)) => Lower(domain)
    case None => Lower(pickup)
  }

  predicate IsHostChar(c: char) {
    'a' <= c <= 'z' || 'A' <= c <= 'Z' || '0' <= c <= '9' || c == '.' || c == '-' || c == '[' || c == ']' || c == ':'
  }

  /** `domain_is_depositable` */
  predicate IsDepositable(domain: string) {
    domain != "" && !Contains(domain, "..") && forall c :: c in domain ==> IsHostChar(c)
  }

  datatype Plan = Email(to: string) | Deposit(domain: string, inner: string) | Refuse

  /** `plan_receiver_delivery`; `validates` is the wallet-id checksum. */
  function PlanDelivery(address: Option<string>, walletId: string, pickupSupported: bool, validates: string -> bool): Plan {
    if address.None? || '/' !in address.value then
      match CutLast(walletId, '/')
      case Some((email, _)) => Email(email)
      case None => Refuse
    else
      var addr := address.value;
      match ParseCareOf(addr)
      case Some(co) =>
        if !validates(co.inner + "/" + co.fingerprint) then Refuse
        else if pickupSupported && IsDepositable(PickupDomain(co.pickup)) then Deposit(PickupDomain(co.pickup), co.inner)
        else Email(co.inner)
      case None =>
        if !validates(addr) then Refuse
        else match CutLast(addr, '/')
             case Some((email, _)) => Email(email)
             case None => Refuse
  }

  function Mailbox(plan: Plan): string
    requires !plan.Refuse?
  {
    match plan
    case Email(to) => to
    case Deposit(_, inner) => inner
  }

  /** The text after the last slash. */
  function Tail(addr: string): string {
    match CutLast(addr, '/')
    case Some((_, tail)) => tail
    case None => addr
  }

  /** Nothing goes where an override points unless the mailbox it reaches checksums to the override's own tail. */
  lemma PlansAreVerified(addr: string, walletId: string, supported: bool, validates: string -> bool)
    requires '/' in addr
    ensures var plan := PlanDelivery(Some(addr), walletId, supported, validates);
            !plan.Refuse? ==> validates(Mailbox(plan) + "/" + Tail(addr))
  {
    assert CutLast(addr, '/').Some?;
  }

  /** Declaring a pickup directory changes no mailbox and no refusal: it only turns an email to some mailbox into a
      deposit for the same mailbox, in a directory whose name is a plain host. */
  lemma PickupOnlyDeposits(address: Option<string>, walletId: string, validates: string -> bool)
    ensures var off, on := PlanDelivery(address, walletId, false, validates), PlanDelivery(address, walletId, true, validates);
            !off.Deposit? &&
            (on == off ||
             (off.Email? && on.Deposit? && on.inner == off.to &&
              on.domain != "" && '/' !in on.domain && '\\' !in on.domain && !Contains(on.domain, "..")))
  {
    var on := PlanDelivery(address, walletId, true, validates);
    assert !IsHostChar('/') && !IsHostChar('\\');
  }

  /** Without an override that names a fingerprint, the mail goes to the address in the receiver's wallet id, unverified; without one
      there either, nowhere. */
  lemma PlainReceiverIs(address: Option<string>, email: string, fp: string, supported: bool, validates: string -> bool)
    requires address.None? || '/' !in address.value
    requires '/' !in fp
    ensures PlanDelivery(address, email + "/" + fp, supported, validates) == Email(email)
    ensures PlanDelivery(address, fp, supported, validates) == Refuse
  {
    OneLastCut(email + "/" + fp, '/', email, fp);
    LastIndexIsThere(fp, '/');
  }

  /** A care-of override goes nowhere unless its inner address checksums to its fingerprint; then to the pickup directory of its host
      where there is one and its name is plain, and to the inner address otherwise. */
  lemma CareOfPlanIs(inner: string, pickup: string, fp: string, walletId: string, supported: bool, validates: string -> bool)
    requires OneAt(inner) && pickup != "" && fp != "" && '/' !in fp
    ensures var plan := PlanDelivery(Some(inner + "@" + pickup + "/" + fp), walletId, supported, validates);
            (plan.Refuse? <==> !validates(inner + "/" + fp)) &&
            (plan.Deposit? <==> validates(inner + "/" + fp) && supported && IsDepositable(PickupDomain(pickup))) &&
            (plan.Deposit? ==> plan.domain == PickupDomain(pickup)) && (!plan.Refuse? ==> Mailbox(plan) == inner)
  {
    var addr := inner + "@" + pickup + "/" + fp;
    ParseInvertsBuild(addr, inner, pickup, fp);
    assert addr[|inner + "@" + pickup|] == '/';
  }

  /** Any other override goes to the address before its last slash, if it checksums, and nowhere otherwise. */
  lemma PlainOverrideIs(email: string, fp: string, walletId: string, supported: bool, validates: string -> bool)
    requires '/' !in fp && ParseCareOf(email + "/" + fp) == None
    ensures PlanDelivery(Some(email + "/" + fp), walletId, supported, validates) ==
            if validates(email + "/" + fp) then Email(email) else Refuse
  {
    var addr := email + "/" + fp;
    OneLastCut(addr, '/', email, fp);
    assert addr[|email|] == '/';
  }

  /** The name of a pickup directory: what follows the last `@`, in lower case. */
  lemma PickupDomainIs(front: string, domain: string)
    requires '@' !in domain
    ensures PickupDomain(front + "@" + domain) == PickupDomain(domain) == Lower(domain)
  {
    OneLastCut(front + "@" + domain, '@', front, domain);
    LastIndexIsThere(domain, '@');
  }

  /** A plain name: not empty, no two dots in a row, and only characters of host names and address literals. */
  lemma DepositableIff(domain: string)
    ensures IsDepositable(domain) <==>
            domain != "" && (forall i :: 0 <= i < |domain| - 1 ==> !(domain[i] == '.' && domain[i + 1] == '.')) &&
            forall c :: c in domain ==> 'a' <= c <= 'z' || 'A' <= c <= 'Z' || '0' <= c <= '9' || c in ".-[]:"
  {
    TwoDotsIff(domain);
  }

  lemma TwoDotsAt(s: string, i: nat)
    ensures At(s, i, "..") <==> i + 1 < |s| && s[i] == '.' && s[i + 1] == '.'
  {
    if i + 1 < |s| {
      assert s[i..][0] == s[i] && s[i..][1] == s[i + 1];
      assert ".." <= s[i..] <==> s[i..][..2] == "..";
      assert s[i..][..2] == [s[i], s[i + 1]];
    }
  }

  lemma TwoDotsIff(s: string)
    ensures Contains(s, "..") <==> exists i :: 0 <= i < |s| - 1 && s[i] == '.' && s[i + 1] == '.'
  {
    forall i: nat
      ensures At(s, i, "..") <==> i + 1 < |s| && s[i] == '.' && s[i + 1] == '.'
    {
      TwoDotsAt(s, i);
    }
    if Contains(s, "..") {
      var i := Find(s, "..").value;
      assert 0 <= i < |s| - 1 && s[i] == '.' && s[i + 1] == '.';
    }
  }

  // ---------------------------------------------------------------- the outbox table

  datatype Route = Route(domain: string, outbox: string)

  datatype Outbox = Unused | To(outbox: string) | Rejected

  function UpTo(s: string, c: char): string {
    match CutFirst(s, c)
    case Some((front, _)) => front
    case None => s
  }

  /** The domain `outbox_for` looks up: of the inner address when there are two. */
  function RouteDomain(recipient: string): Option<string> {
    var addressed := UpTo(recipient, '/');
    var inner := match CutLast(addressed, '@') case Some((front, _)) => front case None => addressed;
    match CutLast(if '@' in inner then inner else addressed, '@')
    case Some((_, domain)) => Some(Lower(UpTo(domain, '/')))
    case None => None
  }

  function FirstRoute(routes: seq<Route>, domain: string): Outbox {
    if routes == [] then Rejected
    else if Lower(routes[0].domain) == domain then To(routes[0].outbox)
    else FirstRoute(routes[1..], domain)
  }

  /** `outbox_for` */
  function OutboxFor(routes: seq<Route>, recipient: string): Outbox {
    if routes == [] then Unused
    else match RouteDomain(recipient)
         case None => Rejected
         case Some(domain) => FirstRoute(routes, domain)
  }

  /** The first row for a domain, whatever the case it is written in. */
  predicate IsFirstFor(routes: seq<Route>, domain: string, i: nat) {
    i < |routes| && Lower(routes[i].domain) == domain && forall j :: 0 <= j < i ==> Lower(routes[j].domain) != domain
  }

  lemma {:induction false} FirstRouteIs(routes: seq<Route>, domain: string, o: string)
    ensures FirstRoute(routes, domain) == To(o) <==> exists i :: 0 <= i < |routes| && IsFirstFor(routes, domain, i) && routes[i].outbox == o
    ensures FirstRoute(routes, domain) == Rejected <==> forall i :: 0 <= i < |routes| ==> Lower(routes[i].domain) != domain
    ensures !FirstRoute(routes, domain).Unused?
    decreases |routes|
  {
    if routes != [] {
      var rest := routes[1..];
      FirstRouteIs(rest, domain, o);
      if Lower(routes[0].domain) == domain {
        assert IsFirstFor(routes, domain, 0);
      } else {
        if i :| 0 <= i < |rest| && IsFirstFor(rest, domain, i) && rest[i].outbox == o {
          assert forall j :: 0 < j <= i ==> routes[j] == rest[j - 1];
          assert IsFirstFor(routes, domain, i + 1);
        }
        if i :| 0 <= i < |routes| && IsFirstFor(routes, domain, i) && routes[i].outbox == o {
          assert forall j :: 0 <= j < i ==> rest[j] == routes[j + 1];
          assert IsFirstFor(rest, domain, i - 1);
        }
      }
    }
  }

  /** A recipient gets the outbox of the first row for his domain, matched exactly but for case: no suffix, no subdomain and no
      fallback. He is refused exactly when there is a table and no row of it is for his domain, or he has none. */
  lemma OutboxForIff(routes: seq<Route>, recipient: string, o: string)
    ensures OutboxFor(routes, recipient) == To(o) <==>
            RouteDomain(recipient).Some? &&
            exists i :: 0 <= i < |routes| && IsFirstFor(routes, RouteDomain(recipient).value, i) && routes[i].outbox == o
    ensures OutboxFor(routes, recipient) == Rejected <==>
            routes != [] &&
            (RouteDomain(recipient).Some? ==> forall i :: 0 <= i < |routes| ==> Lower(routes[i].domain) != RouteDomain(recipient).value)
    ensures OutboxFor(routes, recipient) == Unused <==> routes == []
  {
    if RouteDomain(recipient).Some? {
      FirstRouteIs(routes, RouteDomain(recipient).value, o);
    }
  }

  predicate IsLocalDomain(domain: string) {
    domain == "axiom" || domain == "axiom.internal"
  }

  /** `recipient_is_local` */
  predicate RecipientIsLocal(to: string) {
    match CutLast(to, '@')
    case None => false
    case Some((_, domain)) => IsLocalDomain(UpTo(domain, '/'))
  }

  lemma UpToTail(s: string, c: char, tail: string)
    requires c !in s && (tail == "" || tail[0] == c)
    ensures UpTo(s + tail, c) == s
  {
    if tail == "" {
      assert s + tail == s;
    } else {
      assert s + tail == s + [c] + tail[1..];
      OneFirstCut(s + tail, c, s, tail[1..]);
    }
  }

  lemma UpToAll(s: string, c: char)
    requires c !in s
    ensures UpTo(s, c) == s
  {
  }

  /** One `@`: its own domain is looked up. */
  lemma PlainDomain(addressed: string, local: string, domain: string)
    requires addressed == local + "@" + domain && '@' !in local && '@' !in domain && '/' !in addressed
    ensures RouteDomain(addressed) == Some(Lower(domain))
  {
    UpToAll(addressed, '/');
    OneLastCut(addressed, '@', local, domain);
    UpToAll(domain, '/');
  }

  /** Two: the domain of the inner address. */
  lemma WrappedDomain(addressed: string, inner: string, local: string, domain: string, host: string)
    requires addressed == inner + "@" + host && inner == local + "@" + domain
    requires '@' !in local && '@' !in domain && '@' !in host && '/' !in addressed
    ensures RouteDomain(addressed) == Some(Lower(domain))
  {
    UpToAll(addressed, '/');
    OneLastCut(addressed, '@', inner, host);
    assert inner[|local|] == '@';
    OneLastCut(inner, '@', local, domain);
    assert '/' !in inner;
    UpToAll(domain, '/');
  }

  /** What follows the first slash plays no part. */
  lemma TailIsIgnored(addressed: string, tail: string)
    requires '/' !in addressed && (tail == "" || tail[0] == '/')
    ensures RouteDomain(addressed + tail) == RouteDomain(addressed)
  {
    UpToTail(addressed, '/', tail);
    UpToAll(addressed, '/');
  }

  lemma SameDomainSameOutbox(routes: seq<Route>, a: string, b: string)
    requires RouteDomain(a) == RouteDomain(b)
    ensures OutboxFor(routes, a) == OutboxFor(routes, b)
  {
  }

  lemma WrappedSlashes(inner: string, host: string, fp: string)
    ensures inner + "@" + host + "/" + fp == inner + "@" + host + ("/" + fp)
    ensures '/' !in inner && '/' !in host ==> '/' !in inner + "@" + host
  {
  }

  /** Wrapping an address for another site leaves its outbox as it was. */
  lemma WrappingKeepsOutbox(routes: seq<Route>, inner: string, host: string, fp: string)
    requires OneAt(inner) && '/' !in inner && '@' !in host && '/' !in host
    ensures OutboxFor(routes, inner + "@" + host + "/" + fp) == OutboxFor(routes, inner)
    ensures OutboxFor(routes, inner + "@" + host) == OutboxFor(routes, inner)
  {
    var local, domain := CutFirst(inner, '@').value.0, CutFirst(inner, '@').value.1;
    var addressed, whole := inner + "@" + host, inner + "@" + host + "/" + fp;
    WrappedSlashes(inner, host, fp);
    assert RouteDomain(whole) == RouteDomain(addressed) by {
      TailIsIgnored(addressed, "/" + fp);
    }
    assert RouteDomain(inner) == Some(Lower(domain)) by {
      PlainDomain(inner, local, domain);
    }
    assert RouteDomain(addressed) == Some(Lower(domain)) by {
      WrappedDomain(addressed, inner, local, domain, host);
    }
    SameDomainSameOutbox(routes, whole, inner);
    SameDomainSameOutbox(routes, addressed, inner);
  }

  lemma RouterDomain(to: string, local: string, domain: string, tail: string)
    requires to == local + "@" + (domain + tail)
    requires '@' !in domain && '/' !in domain && '@' !in tail && (tail == "" || tail[0] == '/')
    ensures RecipientIsLocal(to) <==> IsLocalDomain(domain)
  {
    OneLastCut(to, '@', local, domain + tail);
    UpToTail(domain, '/', tail);
  }

  /** A slash before the only `@` hides it from the table. */
  lemma HiddenDomain(to: string, local: string, rest: string)
    requires to == local + "@" + rest && '@' !in local && '/' in local
    ensures RouteDomain(to) == None
  {
    var (front, back) := CutFirst(local, '/').value;
    OneFirstCut(to, '/', front, back + "@" + rest);
    assert '@' !in front by {
      assert forall k :: 0 <= k < |front| ==> front[k] == local[k];
    }
  }

  lemma TableDomain(to: string, local: string, domain: string, tail: string)
    requires to == local + "@" + domain + tail
    requires '@' !in local && '@' !in domain && '/' !in domain && '@' !in tail && (tail == "" || tail[0] == '/')
    ensures RouteDomain(to) == if '/' in local then None else Some(Lower(domain))
  {
    if '/' in local {
      assert to == local + "@" + (domain + tail);
      HiddenDomain(to, local, domain + tail);
    } else {
      PlainDomain(local + "@" + domain, local, domain);
      TailIsIgnored(local + "@" + domain, tail);
    }
  }

  /** The table takes the address for one of the cluster. */
  predicate IsListed(to: string) {
    RouteDomain(to).Some? && IsLocalDomain(RouteDomain(to).value)
  }

  predicate Agree(to: string) {
    RecipientIsLocal(to) <==> IsListed(to)
  }

  /** Between the last two `@`, or behind the only one. */
  function InnerDomain(addressed: string): Option<string> {
    match CutLast(addressed, '@')
    case None => None
    case Some((inner, host)) =>
      match CutLast(inner, '@')
      case None => Some(host)
      case Some((_, domain)) => Some(domain)
  }

  /** Behind the last `@` of all, up to the next slash. */
  function OuterDomain(to: string): Option<string> {
    match CutLast(to, '@')
    case None => None
    case Some((_, tail)) => Some(UpTo(tail, '/'))
  }

  lemma UpToHasNone(s: string, c: char)
    ensures c !in UpTo(s, c)
  {
  }

  lemma SidesHaveNone(s: string, front: string, c: char, back: string, x: char)
    requires s == front + [c] + back && x !in s
    ensures x !in front && x !in back
  {
    assert forall k :: 0 <= k < |front| ==> front[k] == s[k];
    assert forall k :: 0 <= k < |back| ==> back[k] == s[|front| + 1 + k];
  }

  /** The domain of what has no slash. */
  lemma LastDomain(s: string)
    requires '/' !in s
    ensures CutLast(s, '@').Some? ==> UpTo(CutLast(s, '@').value.1, '/') == CutLast(s, '@').value.1
  {
    if CutLast(s, '@').Some? {
      var front, back := CutLast(s, '@').value.0, CutLast(s, '@').value.1;
      SidesHaveNone(s, front, '@', back, '/');
      UpToAll(back, '/');
    }
  }

  lemma TableLooksInside(to: string)
    ensures RouteDomain(to) ==
            match InnerDomain(UpTo(to, '/')) { case None => None case Some(domain) => Some(Lower(domain)) }
  {
    var addressed := UpTo(to, '/');
    UpToHasNone(to, '/');
    LastDomain(addressed);
    if CutLast(addressed, '@').Some? {
      var inner := CutLast(addressed, '@').value.0;
      SidesHaveNone(addressed, inner, '@', CutLast(addressed, '@').value.1, '/');
      LastDomain(inner);
      assert '@' in inner <==> CutLast(inner, '@').Some? by {
        if CutLast(inner, '@').Some? {
          assert inner[|CutLast(inner, '@').value.0|] == '@';
        }
      }
    }
  }

  /** On every string: the table and the old router agree exactly when the inner domain of what stands before the first slash
      is a cluster domain, in whatever case, if and only if the domain behind the very last `@` is one as it is written. */
  lemma TableAgreesWithRouterIff(to: string)
    ensures Agree(to) <==>
            ((OuterDomain(to).Some? && IsLocalDomain(OuterDomain(to).value)) <==>
             (InnerDomain(UpTo(to, '/')).Some? && IsLocalDomain(Lower(InnerDomain(UpTo(to, '/')).value))))
  {
    TableLooksInside(to);
  }

  /** One `@`: they differ on a slash before it, which hides a cluster domain from the table, and on a cluster domain written
      with capitals, which the router does not take for one. */
  lemma AgreeOnOneAtIff(local: string, domain: string, tail: string)
    requires '@' !in local && '@' !in domain && '/' !in domain && '@' !in tail
    requires tail == "" || tail[0] == '/'
    ensures Agree(local + "@" + domain + tail) <==>
            (if '/' in local then !IsLocalDomain(domain) else IsLocalDomain(Lower(domain)) ==> IsLocalDomain(domain))
  {
    var to := local + "@" + domain + tail;
    assert to == local + "@" + (domain + tail);
    RouterDomain(to, local, domain, tail);
    TableDomain(to, local, domain, tail);
    LowerOfLocal(domain);
  }

  /** Two and no slash before them: they differ when exactly one of the inner domain and the host is of the cluster, as on
      every address that is wrapped for another site. */
  lemma AgreeOnWrappedIff(inner: string, local: string, domain: string, host: string, tail: string)
    requires inner == local + "@" + domain && '@' !in local && '@' !in domain && '@' !in host && '@' !in tail
    requires '/' !in inner && '/' !in host && (tail == "" || tail[0] == '/')
    ensures Agree(inner + "@" + host + tail) <==> (IsLocalDomain(host) <==> IsLocalDomain(Lower(domain)))
  {
    var addressed := inner + "@" + host;
    assert '/' !in addressed;
    assert addressed + tail == inner + "@" + (host + tail);
    RouterDomain(addressed + tail, inner, host, tail);
    TailIsIgnored(addressed, tail);
    WrappedDomain(addressed, inner, local, domain, host);
  }

  /** An `@` behind the first slash: the router looks there, the table does not. */
  lemma AgreeOnAtInTailIff(addressed: string, between: string, last: string, tail: string)
    requires '/' !in addressed && '@' !in last && '/' !in last && '@' !in tail && (tail == "" || tail[0] == '/')
    ensures Agree(addressed + "/" + between + "@" + last + tail) <==> (IsLocalDomain(last) <==> IsListed(addressed))
  {
    var front := addressed + "/" + between;
    var to := front + "@" + last + tail;
    RegroupTail(addressed, between, last, tail);
    assert RecipientIsLocal(to) <==> IsLocalDomain(last) by {
      RouterDomain(to, front, last, tail);
    }
    assert RouteDomain(to) == RouteDomain(addressed) by {
      TailIsIgnored(addressed, "/" + (between + "@" + last + tail));
    }
  }

  lemma RegroupTail(addressed: string, between: string, last: string, tail: string)
    ensures addressed + "/" + between + "@" + last + tail == (addressed + "/" + between) + "@" + (last + tail)
    ensures addressed + "/" + between + "@" + last + tail == addressed + ("/" + (between + "@" + last + tail))
  {
  }

  lemma LowerOfLocal(domain: string)
    ensures IsLocalDomain(domain) ==> Lower(domain) == domain
  {
  }

  // ---------------------------------------------------------------- ANTIE's splitter and FATMAMA's

  /** On a lower-case cluster address wrapped for a canonical host, FATMAMA's parser and ANTIE's find the same inner
      address and the same host. */
  lemma SplittersAgree(site: Site, inner: string, host: string, fp: string)
    requires OneAt(inner) && Strip(inner) == inner == Lower(inner) && IsClusterRecipient(site, inner)
    requires host != "" && '@' !in host && CanonicalHost(host) == host && fp != "" && '/' !in fp
    ensures ParseDelivery(site, inner + "@" + host) == (inner, host)
    ensures ParseCareOf(inner + "@" + host + "/" + fp) == Some(CareOf(inner, host, fp))
  {
    assert '@' in inner;
    FatmamaSplits(site, inner + "@" + host, inner, host);
    ParseInvertsBuild(inner + "@" + host + "/" + fp, inner, host, fp);
  }

  lemma FatmamaSplits(site: Site, addr: string, inner: string, host: string)
    requires addr == inner + "@" + host && '@' !in host && '@' in inner
    requires Strip(inner) == inner == Lower(inner) && IsClusterRecipient(site, inner) && CanonicalHost(host) == host
    ensures ParseDelivery(site, addr) == (inner, host)
  {
    OneLastCut(addr, '@', inner, host);
  }
}
