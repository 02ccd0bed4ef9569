/** FATMAMA as a mail store: the route table, the maildirs below it, and what each operation does to them.

    A path is the sequence of its components. A maildir is known by the path of its inbox; a message by its
    inbox, its subdirectory and its file name. Every stretch of the server between two awaits is one operation. */
module MailStore {
  import opened Text

  type Path = seq<string>

  datatype Sub = New | Cur | Tmp

  datatype Loc = Loc(inbox: Path, sub: Sub, name: string)

  /** What the server keeps: routes in memory, messages and auto-create markers on disk. */
  datatype Store = Store(routes: map<string, Path>, mail: map<Loc, string>, markers: set<Path>)

  /** How the site is run: where the routes file lies, the domains it takes, and two switches. */
  datatype Site = Site(base: Path, domains: set<string>, autoCreate: bool, production: bool)

  // ---------------------------------------------------------------- names and paths

  const MAILBOX_PREFIX := "fatmama-mailbox-"
  const VALIDATOR_MARK := "axiom-first-penguin-"

  predicate IsManagedName(component: string) {
    MAILBOX_PREFIX <= component
  }

  function Parent(path: Path): Path {
    if path == [] then [] else path[..|path| - 1]
  }

  /** `_is_fatmama_managed_mailbox`: the parent directory bears the mailbox prefix. */
  predicate IsManaged(inbox: Path) {
    |inbox| >= 2 && IsManagedName(inbox[|inbox| - 2])
  }

  /** `_is_protected_route` */
  predicate IsProtected(inbox: Path) {
    (exists i :: 0 <= i < |inbox| && Contains(inbox[i], VALIDATOR_MARK)) || !IsManaged(inbox)
  }

  predicate IsSlugChar(c: char) {
    'a' <= c <= 'z' || '0' <= c <= '9'
  }

  /** `re.sub(r"[^a-z0-9]+", "-", s)`; `inRun` tells that the run already has its dash. */
  function Dashed(s: string, inRun: bool): string {
    if s == "" then ""
    else if IsSlugChar(s[0]) then [s[0]] + Dashed(s[1..], false)
    else (if inRun then "" else "-") + Dashed(s[1..], true)
  }

  function Slug(addr: string): string {
    var slug := StripDashes(Dashed(addr, false));
    if slug == "" then "anon" else slug
  }

  function InboxFor(site: Site, addr: string): (inbox: Path)
    ensures IsManaged(inbox)
  {
    var mailbox := MAILBOX_PREFIX + Slug(addr);
    assert MAILBOX_PREFIX <= mailbox;
    site.base + [mailbox, "inbox"]
  }

  /** `is_cluster_recipient`: a local part, and a domain the site takes, exactly. */
  predicate IsClusterRecipient(site: Site, addr: string) {
    match LastIndex(addr, '@')
    case None => false
    case Some(i) => i > 0 && Lower(Strip(addr[i + 1..])) in site.domains
  }

  /** The guard of `_register_route`. */
  predicate IsRegistrable(site: Site, addr: string) {
    match FirstIndex(addr, '@')
    case None => false
    case Some(i) => i > 0 && i + 1 < |addr| && IsClusterRecipient(site, addr)
  }

  function Normal(raw: string): string {
    Lower(Strip(raw))
  }

  // ---------------------------------------------------------------- specifications of the operations

  /** `_register_route`: nothing for a refused address or one that has a route. */
  function RegisterRoute(site: Site, store: Store, email: string): Store {
    var addr := Normal(email);
    if !IsRegistrable(site, addr) || addr in store.routes then store
    else store.(routes := store.routes[addr := InboxFor(site, addr)])
  }

  function MarkAuto(store: Store, addr: string): Store {
    if Lower(addr) in store.routes then store.(markers := store.markers + {store.routes[Lower(addr)]}) else store
  }

  function MarkRegistered(store: Store, addr: string): Store {
    if Lower(addr) in store.routes then store.(markers := store.markers - {store.routes[Lower(addr)]}) else store
  }

  predicate IsAutoCreated(store: Store, addr: string) {
    Lower(addr) in store.routes && store.routes[Lower(addr)] in store.markers
  }

  /** XAXIOM-REGISTER, up to its reply. */
  function Register(site: Site, store: Store, argument: string): Store {
    var raw := Lower(argument);
    if site.production || !IsRegistrable(site, Normal(raw)) then store
    else MarkRegistered(RegisterRoute(site, store, raw), raw)
  }

  /** The route a message finds: an unknown recipient's is created first when the site auto-creates. */
  function WithRoute(site: Site, store: Store, rcpt: string): Store {
    if site.autoCreate && rcpt != "" && rcpt !in store.routes && IsRegistrable(site, Normal(rcpt))
    then MarkAuto(RegisterRoute(site, store, rcpt), rcpt)
    else store
  }

  /** The end of DATA: the message is filed in the recipient's `new/` under a fresh name, or dropped. `written` tells
      whether the file could be written. */
  function Deliver(site: Site, store: Store, rcpt: string, name: string, bytes: string, written: bool): Store {
    var routed := WithRoute(site, store, rcpt);
    if rcpt in routed.routes && written then routed.(mail := routed.mail[Loc(routed.routes[rcpt], New, name) := bytes])
    else routed
  }

  /** A counter of one address, raised. */
  function Bumped(counts: map<string, nat>, addr: string, n: nat): map<string, nat> {
    counts[addr := (if addr in counts then counts[addr] else 0) + n]
  }

  /** `shutil.rmtree`: everything at or below a directory. */
  function RemoveTree(store: Store, dir: Path): Store {
    store.(mail := map l | l in store.mail && !(dir <= l.inbox) :: store.mail[l],
           markers := set m | m in store.markers && !(dir <= m))
  }

  /** `_clear_maildir_contents` */
  function ClearMaildir(store: Store, inbox: Path): Store {
    store.(mail := map l | l in store.mail && l.inbox != inbox :: store.mail[l])
  }

  function RemoveMaildir(store: Store, inbox: Path): Store {
    var cleared := ClearMaildir(store, inbox);
    if IsManaged(inbox) then RemoveTree(cleared, Parent(inbox)) else cleared
  }

  datatype Summary = Summary(deleted: seq<string>, unprotected: seq<string>, notFound: seq<string>)

  datatype Fate = Deleted | Protected | NotFound

  function FateOf(store: Store, raw: string): Fate {
    var addr := Normal(raw);
    if addr == "" || addr !in store.routes then NotFound
    else if IsProtected(store.routes[addr]) then Protected
    else Deleted
  }

  /** One address of a delete call. */
  function DeleteOne(store: Store, raw: string, withMaildir: bool): Store {
    if FateOf(store, raw) != Deleted then store
    else
      var addr := Normal(raw);
      var unrouted := store.(routes := store.routes - {addr});
      if withMaildir then RemoveMaildir(unrouted, store.routes[addr]) else unrouted
  }

  function DeleteAll(store: Store, addrs: seq<string>, withMaildir: bool): Store
    decreases |addrs|
  {
    if addrs == [] then store
    else DeleteAll(DeleteOne(store, addrs[0], withMaildir), addrs[1..], withMaildir)
  }

  /** `_mailbox_is_empty`: no message in `new/` or `cur/`. */
  predicate IsEmpty(store: Store, inbox: Path) {
    forall l :: l in store.mail && l.inbox == inbox ==> l.sub == Tmp
  }

  predicate MayReclaim(store: Store, addr: string) {
    addr in store.routes && IsAutoCreated(store, addr) && IsManaged(store.routes[addr]) &&
    !IsProtected(store.routes[addr]) && IsEmpty(store, store.routes[addr])
  }

  function Reclaim(store: Store, addr: string): Store {
    if MayReclaim(store, addr) then DeleteAll(store, [addr], true) else store
  }

  // ---------------------------------------------------------------- POP3 sessions

  /** The local variables of one POP3 connection. */
  datatype Session = Session(mailbox: Option<string>, snapshot: seq<Loc>, deleted: set<nat>, authed: bool)

  const FRESH_SESSION := Session(None, [], {}, false)

  /** `listing` enumerates the messages in a maildir's `new/`, in whatever order the names sort. */
  ghost predicate IsListing(store: Store, inbox: Path, listing: seq<Loc>) {
    (forall i, j :: 0 <= i < j < |listing| ==> listing[i] != listing[j]) &&
    forall l :: l in listing <==> l in store.mail && l.inbox == inbox && l.sub == New
  }

  function User(store: Store, s: Session, name: string, listing: seq<Loc>): Session {
    var mailbox := Lower(name);
    s.(mailbox := Some(mailbox), snapshot := if mailbox in store.routes then listing else [])
  }

  function Pass(s: Session): Session {
    if s.mailbox.None? then s else s.(authed := true)
  }

  function Dele(s: Session, n: nat): Session {
    if s.authed && 1 <= n <= |s.snapshot| && n !in s.deleted then s.(deleted := s.deleted + {n}) else s
  }

  function Rset(s: Session): Session {
    if s.authed then s.(deleted := {}) else s
  }

  /** The messages QUIT unlinks. */
  function Doomed(s: Session): set<Loc> {
    DoomedBy(s.snapshot, s.deleted)
  }

  function DoomedBy(snapshot: seq<Loc>, marks: set<nat>): set<Loc> {
    set n | n in marks && 1 <= n <= |snapshot| :: snapshot[n - 1]
  }

  function Quit(store: Store, s: Session): Store {
    if !s.authed || s.mailbox.None? then store
    else
      var unlinked := store.(mail := store.mail - Doomed(s));
      if s.deleted == {} then unlinked else Reclaim(unlinked, s.mailbox.value)
  }

  // ---------------------------------------------------------------- the server

  class FatmamaServer {
    const site: Site
    var routes: map<string, Path>
    var mail: map<Loc, string>
    var markers: set<Path>
    var totalDelivered: nat
    var totalDropped: nat
    var totalRetrieved: nat
    var bytesTotal: nat
    var countBy: map<string, nat>
    var bytesBy: map<string, nat>

    function Contents(): Store
      reads this
    {
      Store(routes, mail, markers)
    }

    constructor (site: Site, store: Store)
      ensures this.site == site && Contents() == store
      ensures totalDelivered == totalDropped == totalRetrieved == bytesTotal == 0 && countBy == bytesBy == map[]
    {
      this.site := site;
      routes, mail, markers := store.routes, store.mail, store.markers;
      totalDelivered, totalDropped, totalRetrieved, bytesTotal := 0, 0, 0, 0;
      countBy, bytesBy := map[], map[];
    }

    /** `_register_route`; refuses where the original raises. */
    method RegisterEmail(email: string) returns (added: bool, refused: bool)
      modifies this`routes
      ensures Contents() == RegisterRoute(site, old(Contents()), email)
      ensures refused <==> !IsRegistrable(site, Normal(email))
      ensures added <==> Contents() != old(Contents())
    {
      var addr := Normal(email);
      refused := !IsRegistrable(site, addr);
      added := !refused && addr !in routes;
      if added {
        routes := routes[addr := InboxFor(site, addr)];
        assert addr in routes && addr !in old(routes);
      }
    }

    method HandleRegister(argument: string) returns (accepted: bool)
      modifies this`routes, this`markers
      ensures Contents() == Register(site, old(Contents()), argument)
      ensures accepted <==> !site.production && IsRegistrable(site, Normal(Lower(argument)))
    {
      accepted := false;
      if site.production {
        return;
      }
      var raw := Lower(argument);
      var added, refused := RegisterEmail(raw);
      if refused {
        return;
      }
      if Lower(raw) in routes {
        markers := markers - {routes[Lower(raw)]};
      }
      accepted := true;
    }

    /** The end of the DATA command. Whatever becomes of the message, the peer is answered 250. */
    method HandleData(rcpt: string, name: string, message: string, written: bool) returns (filed: bool, reply: nat)
      modifies this`routes, this`markers, this`mail, this`totalDelivered, this`totalDropped, this`bytesTotal, this`countBy, this`bytesBy
      ensures Contents() == Deliver(site, old(Contents()), rcpt, name, message, written)
      ensures reply == 250 && (filed <==> rcpt in routes && written)
      ensures totalDelivered == old(totalDelivered) + (if filed then 1 else 0)
      ensures totalDropped == old(totalDropped) + (if rcpt !in routes && rcpt != "" then 1 else 0)
      ensures bytesTotal == old(bytesTotal) + (if filed then |message| else 0)
      ensures countBy == if filed then Bumped(old(countBy), rcpt, 1) else old(countBy)
      ensures bytesBy == if filed then Bumped(old(bytesBy), rcpt, |message|) else old(bytesBy)
    {
      if site.autoCreate && rcpt != "" && rcpt !in routes {
        var added, refused := RegisterEmail(rcpt);
        if !refused && Lower(rcpt) in routes {
          markers := markers + {routes[Lower(rcpt)]};
        }
      }
      filed, reply := rcpt in routes && written, 250;
      if filed {
        mail := mail[Loc(routes[rcpt], New, name) := message];
        countBy := Bumped(countBy, rcpt, 1);
        totalDelivered := totalDelivered + 1;
        bytesTotal := bytesTotal + |message|;
        bytesBy := Bumped(bytesBy, rcpt, |message|);
      } else if rcpt !in routes && rcpt != "" {
        totalDropped := totalDropped + 1;
      }
    }

    /** `_delete_routes` */
    method DeleteRoutes(addrs: seq<string>, withMaildir: bool) returns (summary: Summary)
      modifies this`routes, this`mail, this`markers
      ensures Contents() == DeleteAll(old(Contents()), addrs, withMaildir)
      ensures summary == SummaryOf(old(Contents()), addrs, withMaildir)
    {
      summary := Summary([], [], []);
      PrependedNothing(SummaryOf(Contents(), addrs, withMaildir));
      assert addrs[0..] == addrs;
      for i := 0 to |addrs|
        invariant DeleteAll(old(Contents()), addrs, withMaildir) == DeleteAll(Contents(), addrs[i..], withMaildir)
        invariant SummaryOf(old(Contents()), addrs, withMaildir) ==
                  Prepended(summary, SummaryOf(Contents(), addrs[i..], withMaildir))
      {
        ghost var before, so := Contents(), summary;
        var one := DeleteAddress(addrs[i], withMaildir);
        summary := Prepended(summary, one);
        assert addrs[i..][1..] == addrs[i + 1..];
        PrependedAssoc(so, one, SummaryOf(Contents(), addrs[i + 1..], withMaildir));
      }
      PrependedNothing(summary);
    }

    /** The body of the loop of `_delete_routes`. */
    method DeleteAddress(raw: string, withMaildir: bool) returns (one: Summary)
      modifies this`routes, this`mail, this`markers
      ensures Contents() == DeleteOne(old(Contents()), raw, withMaildir)
      ensures one == SummaryOfOne(old(Contents()), raw)
    {
      var addr := Normal(raw);
      if addr == "" || addr !in routes {
        one := Summary([], [], [raw]);
      } else if IsProtected(routes[addr]) {
        one := Summary([], [addr], []);
      } else {
        var maildir := routes[addr];
        routes := routes - {addr};
        one := Summary([addr], [], []);
        if withMaildir {
          var removed := RemoveMaildir(Contents(), maildir);
          mail, markers := removed.mail, removed.markers;
        }
      }
    }

    /** QUIT, up to its reply: unlink what is marked, then reclaim a drained auto-created account. */
    method HandleQuit(s: Session)
      modifies this`routes, this`markers, this`mail, this`totalRetrieved
      ensures Contents() == Quit(old(Contents()), s)
      ensures totalRetrieved == old(totalRetrieved) + (if s.authed && s.mailbox.Some? then |Doomed(s) * old(mail).Keys| else 0)
    {
      if !s.authed || s.mailbox.None? {
        return;
      }
      UnlinkMarked(s);
      if s.deleted != {} && MayReclaim(Contents(), s.mailbox.value) {
        var summary := DeleteRoutes([s.mailbox.value], true);
      }
    }

    method UnlinkMarked(s: Session)
      modifies this`mail, this`totalRetrieved
      ensures mail == old(mail) - Doomed(s)
      ensures totalRetrieved == old(totalRetrieved) + |Doomed(s) * old(mail).Keys|
    {
      var todo := s.deleted;
      ghost var gone: set<Loc> := {};
      while todo != {}
        invariant todo <= s.deleted
        invariant mail == old(mail) - gone
        invariant gone == DoomedBy(s.snapshot, s.deleted - todo)
        invariant totalRetrieved == old(totalRetrieved) + |gone * old(mail).Keys|
        decreases todo
      {
        var idx :| idx in todo;
        DoomedOneMore(s.snapshot, s.deleted - todo, idx);
        assert s.deleted - (todo - {idx}) == (s.deleted - todo) + {idx};
        todo := todo - {idx};
        if 1 <= idx <= |s.snapshot| {
          var f := s.snapshot[idx - 1];
          RemoveOneMore(old(mail), gone, f);
          gone := gone + {f};
          UnlinkFile(f);
        }
      }
      assert s.deleted - todo == s.deleted;
    }

    /** A file that is already gone is passed over. */
    method UnlinkFile(f: Loc)
      modifies this`mail, this`totalRetrieved
      ensures mail == old(mail) - {f}
      ensures totalRetrieved == old(totalRetrieved) + if f in old(mail) then 1 else 0
    {
      if f in mail {
        mail := mail - {f};
        totalRetrieved := totalRetrieved + 1;
      } else {
        assert mail - {f} == mail;
      }
    }
  }

  lemma RemoveOneMore<K, V>(m: map<K, V>, gone: set<K>, k: K)
    ensures m - (gone + {k}) == (m - gone) - {k}
    ensures k in m - gone <==> k in m && k !in gone
    ensures |(gone + {k}) * m.Keys| == |gone * m.Keys| + if k in m && k !in gone then 1 else 0
  {
    RemoveTwice(m, gone, {k});
    CountOneMore(m.Keys, gone, k);
  }

  lemma RemoveTwice<K, V>(m: map<K, V>, a: set<K>, b: set<K>)
    ensures m - (a + b) == (m - a) - b
    ensures (m - a).Keys !! b ==> m - (a + b) == m - a
  {
  }

  lemma CountOneMore<K>(keys: set<K>, gone: set<K>, k: K)
    ensures |(gone + {k}) * keys| == |gone * keys| + if k in keys && k !in gone then 1 else 0
  {
    if k in keys && k !in gone {
      assert (gone + {k}) * keys == gone * keys + {k};
    } else {
      assert (gone + {k}) * keys == gone * keys;
    }
  }

  lemma DoomedOneMore(snapshot: seq<Loc>, marks: set<nat>, n: nat)
    ensures DoomedBy(snapshot, marks + {n}) ==
            DoomedBy(snapshot, marks) + if 1 <= n <= |snapshot| then {snapshot[n - 1]} else {}
  {
  }

  function Prepended(a: Summary, b: Summary): Summary {
    Summary(a.deleted + b.deleted, a.unprotected + b.unprotected, a.notFound + b.notFound)
  }

  function SummaryOfOne(store: Store, raw: string): Summary {
    match FateOf(store, raw)
    case Deleted => Summary([Normal(raw)], [], [])
    case Protected => Summary([], [Normal(raw)], [])
    case NotFound => Summary([], [], [raw])
  }

  function SummaryOf(store: Store, addrs: seq<string>, withMaildir: bool): Summary
    decreases |addrs|
  {
    if addrs == [] then Summary([], [], [])
    else Prepended(SummaryOfOne(store, addrs[0]), SummaryOf(DeleteOne(store, addrs[0], withMaildir), addrs[1..], withMaildir))
  }

  lemma PrependedNothing(a: Summary)
    ensures Prepended(Summary([], [], []), a) == a && Prepended(a, Summary([], [], [])) == a
  {
    assert [] + a.deleted == a.deleted == a.deleted + [];
    assert [] + a.unprotected == a.unprotected == a.unprotected + [];
    assert [] + a.notFound == a.notFound == a.notFound + [];
  }

  lemma PrependedAssoc(a: Summary, b: Summary, c: Summary)
    ensures Prepended(a, Prepended(b, c)) == Prepended(Prepended(a, b), c)
  {
    assert a.deleted + (b.deleted + c.deleted) == (a.deleted + b.deleted) + c.deleted;
    assert a.unprotected + (b.unprotected + c.unprotected) == (a.unprotected + b.unprotected) + c.unprotected;
    assert a.notFound + (b.notFound + c.notFound) == (a.notFound + b.notFound) + c.notFound;
  }
}
