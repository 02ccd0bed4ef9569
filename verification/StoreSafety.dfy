/** FATMAMA's mail store over whole runs: every interleaving of deliveries, registrations, auto-creates, POP3
    sessions, dropped connections, reclamations and admin deletes. */
module StoreSafety {
  import opened Text
  import opened MailStore

  // ---------------------------------------------------------------- runs

  datatype Step =
    | Data(rcpt: string, name: string, bytes: string, written: bool)
    | RegisterVerb(argument: string)
    | Open(sid: nat)
    | UserCmd(sid: nat, user: string, listing: seq<Loc>)
    | PassCmd(sid: nat)
    | DeleCmd(sid: nat, n: nat)
    | RsetCmd(sid: nat)
    | QuitCmd(sid: nat)
    | Close(sid: nat)
    | Admin(addrs: seq<string>, withMaildir: bool)

  /** What has happened so far. `mail` is every message that was ever filed; `marks` the messages each open session
      has DELE-marked and not reset, through whatever USER commands; `pulled` those marked in an authenticated session
      that reached QUIT; `wiped` those removed by an admin delete, and `erased` the inboxes that admins asked to have
      deleted; `registered` the accounts registered by a client and not deleted by an admin. */
  datatype History = History(mail: map<Loc, string>, marks: map<nat, set<Loc>>, pulled: set<Loc>, wiped: set<Loc>,
                             erased: set<Path>, registered: set<string>)

  datatype Machine = Machine(store: Store, sessions: map<nat, Session>, past: History)

  /** File names are unique, RCPT lower-cases its address, and a USER command's argument has no white space
      around it and finds the listing of its maildir. */
  ghost predicate Enabled(m: Machine, step: Step) {
    match step
    case Data(rcpt, name, _, _) =>
      Lower(rcpt) == rcpt && forall l :: l in m.store.mail || l in m.past.mail ==> l.name != name
    case RegisterVerb(_) => true
    case Open(sid) => sid !in m.sessions
    case UserCmd(sid, user, listing) =>
      sid in m.sessions && Strip(Lower(user)) == Lower(user) && (Lower(user) in m.store.routes ==> IsListing(m.store, m.store.routes[Lower(user)], listing))
    case Admin(_, _) => true
    case _ => step.sid in m.sessions
  }

  /** One USER per session before any mark, as sections 4 and 5 of RFC 1939 have it. */
  predicate OneUser(m: Machine, step: Step) {
    step.UserCmd? && step.sid in m.sessions ==> m.sessions[step.sid].deleted == {}
  }

  function WithSession(m: Machine, sid: nat, s: Session, marks: set<Loc>): Machine {
    m.(sessions := m.sessions[sid := s], past := m.past.(marks := m.past.marks[sid := marks]))
  }

  function Marked(m: Machine, sid: nat): set<Loc> {
    if sid in m.past.marks then m.past.marks[sid] else {}
  }

  /** The message a DELE marks; none when it is refused. */
  function NewlyMarked(s: Session, n: nat): set<Loc> {
    if s.authed && 1 <= n <= |s.snapshot| && n !in s.deleted then {s.snapshot[n - 1]} else {}
  }

  /** The inboxes that a delete call with maildirs asks for: those its deletable addresses are routed to. */
  function InboxesOf(store: Store, addrs: seq<string>): set<Path> {
    set raw | raw in addrs && FateOf(store, raw) == Deleted :: store.routes[Normal(raw)]
  }

  function Next(site: Site, m: Machine, step: Step): Machine {
    var store := m.store;
    match step
    case Data(rcpt, name, bytes, written) =>
      var after := Deliver(site, store, rcpt, name, bytes, written);
      var filed := if rcpt in after.routes && written then m.past.mail[Loc(after.routes[rcpt], New, name) := bytes] else m.past.mail;
      m.(store := after, past := m.past.(mail := filed))
    case RegisterVerb(argument) =>
      var after := Register(site, store, argument);
      var addr := Lower(argument);
      var accepted := !site.production && IsRegistrable(site, Normal(addr)) && addr in after.routes;
      m.(store := after, past := m.past.(registered := m.past.registered + if accepted then {addr} else {}))
    case Open(sid) => WithSession(m, sid, FRESH_SESSION, {})
    case Admin(addrs, withMaildir) =>
      var after := DeleteAll(store, addrs, withMaildir);
      m.(store := after,
         past := m.past.(wiped := m.past.wiped + (store.mail.Keys - after.mail.Keys),
                         erased := m.past.erased + if withMaildir then InboxesOf(store, addrs) else {},
                         registered := set a | a in m.past.registered && a !in SummaryOf(store, addrs, withMaildir).deleted))
    case _ =>
      if step.sid !in m.sessions then m
      else
        var s := m.sessions[step.sid];
        var marks := Marked(m, step.sid);
        match step
        case UserCmd(sid, user, listing) => WithSession(m, sid, User(store, s, user, listing), marks)
        case PassCmd(sid) => WithSession(m, sid, Pass(s), marks)
        case DeleCmd(sid, n) =>
          WithSession(m, sid, Dele(s, n), marks + NewlyMarked(s, n))
        case RsetCmd(sid) => WithSession(m, sid, Rset(s), if s.authed then {} else marks)
        case QuitCmd(sid) =>
          m.(store := Quit(store, s),
             sessions := m.sessions - {sid},
             past := m.past.(pulled := m.past.pulled + if s.authed then marks else {}))
        case Close(sid) => m.(sessions := m.sessions - {sid})
  }

  function After(site: Site, m: Machine, steps: seq<Step>): Machine
    decreases |steps|
  {
    if steps == [] then m else After(site, Next(site, m, steps[0]), steps[1..])
  }

  ghost predicate IsRun(site: Site, m: Machine, steps: seq<Step>)
    decreases |steps|
  {
    steps == [] || (Enabled(m, steps[0]) && IsRun(site, Next(site, m, steps[0]), steps[1..]))
  }

  predicate OneUserEach(site: Site, m: Machine, steps: seq<Step>)
    decreases |steps|
  {
    steps == [] || (OneUser(m, steps[0]) && OneUserEach(site, Next(site, m, steps[0]), steps[1..]))
  }

  /** A server that starts with what its disk holds. */
  predicate IsStart(m: Machine) {
    m.sessions == map[] &&
    m.past.mail == (map l | l in m.store.mail && l.sub != Tmp :: m.store.mail[l]) &&
    m.past.pulled == {} && m.past.wiped == {} && m.past.erased == {} && m.past.registered == {} && m.past.marks == map[]
  }

  // ---------------------------------------------------------------- the layout of the site

  /** Maildirs lie either where FATMAMA creates them or outside of all its mailbox directories. */
  predicate InLayout(base: Path, inbox: Path) {
    (forall i :: 0 <= i < |inbox| ==> !IsManagedName(inbox[i])) ||
    (|inbox| == |base| + 2 && base <= inbox && IsManagedName(inbox[|base|]) && inbox[|base| + 1] == "inbox")
  }

  predicate BaseIsPlain(base: Path) {
    forall i :: 0 <= i < |base| ==> !IsManagedName(base[i])
  }

  predicate Tidy(base: Path, store: Store) {
    BaseIsPlain(base) &&
    (forall a :: a in store.routes ==> InLayout(base, store.routes[a])) &&
    (forall l :: l in store.mail ==> InLayout(base, l.inbox))
  }

  /** Below a mailbox directory there is one inbox only. */
  lemma OneInboxPerMailbox(base: Path, inbox: Path, other: Path)
    requires BaseIsPlain(base) && InLayout(base, inbox) && InLayout(base, other) && IsManaged(inbox)
    requires Parent(inbox) <= other
    ensures other == inbox
  {
    assert IsManagedName(inbox[|inbox| - 2]);
    var parent := Parent(inbox);
    assert parent[|base|] == inbox[|base|] == other[|base|];
    assert other == base + [other[|base|], other[|base| + 1]];
    assert inbox == base + [inbox[|base|], inbox[|base| + 1]];
  }

  lemma InboxForIsInLayout(site: Site, addr: string)
    ensures InLayout(site.base, InboxFor(site, addr))
  {
    var inbox := InboxFor(site, addr);
    assert inbox[|site.base|] == MAILBOX_PREFIX + Slug(addr);
  }

  // ---------------------------------------------------------------- what each operation removes

  /** Removing a tidy maildir takes the messages of that inbox and of no other. */
  lemma RemoveMaildirTakes(base: Path, store: Store, inbox: Path)
    requires Tidy(base, store) && InLayout(base, inbox)
    ensures var after := RemoveMaildir(store, inbox);
            after.routes == store.routes && after.markers <= store.markers &&
            after.mail == map l | l in store.mail && l.inbox != inbox :: store.mail[l]
  {
    if IsManaged(inbox) {
      forall l | l in store.mail && Parent(inbox) <= l.inbox
        ensures l.inbox == inbox
      {
        OneInboxPerMailbox(base, inbox, l.inbox);
      }
    }
  }

  lemma DeleteOneTakes(base: Path, store: Store, raw: string, withMaildir: bool)
    requires Tidy(base, store)
    ensures var after := DeleteOne(store, raw, withMaildir);
            Tidy(base, after) && after.markers <= store.markers &&
            after.routes == store.routes - (if FateOf(store, raw) == Deleted then {Normal(raw)} else {}) &&
            after.mail == (if FateOf(store, raw) == Deleted && withMaildir
                           then map l | l in store.mail && l.inbox != store.routes[Normal(raw)] :: store.mail[l]
                           else store.mail)
  {
    if FateOf(store, raw) == Deleted && withMaildir {
      var unrouted := store.(routes := store.routes - {Normal(raw)});
      RemoveMaildirTakes(base, unrouted, store.routes[Normal(raw)]);
    }
  }

  /** Reclamation removes no message, whoever shares the directory: the mailbox it removes is empty. */
  lemma ReclaimRemovesNoMail(base: Path, store: Store, addr: string)
    requires Tidy(base, store) && Normal(addr) == addr
    ensures var after := Reclaim(store, addr);
            Tidy(base, after) && after.markers <= store.markers &&
            after.routes == store.routes - (if MayReclaim(store, addr) && addr != "" then {addr} else {}) &&
            (forall l :: l in after.mail ==> l in store.mail && after.mail[l] == store.mail[l]) &&
            forall l :: l in store.mail && l.sub != Tmp ==> l in after.mail
  {
    if MayReclaim(store, addr) {
      DeleteOneTakes(base, store, addr, true);
      assert DeleteAll(store, [addr], true) == DeleteOne(store, addr, true) by {
        assert [addr][1..] == [];
      }
    }
  }

  /** What QUIT takes: by unlinking, the messages that the marks point at, and all of them; by reclamation, none. */
  lemma QuitTakes(base: Path, store: Store, s: Session)
    requires Tidy(base, store) && (s.mailbox.Some? ==> Normal(s.mailbox.value) == s.mailbox.value)
    ensures var after := Quit(store, s);
            Tidy(base, after) && after.markers <= store.markers &&
            (forall a :: a in after.routes ==> a in store.routes && after.routes[a] == store.routes[a]) &&
            (forall a :: a in store.routes && store.routes[a] !in store.markers ==> a in after.routes) &&
            (forall a :: a in store.routes && IsProtected(store.routes[a]) ==> a in after.routes) &&
            (forall l :: l in after.mail ==> l in store.mail && after.mail[l] == store.mail[l]) &&
            (s.authed && s.mailbox.Some? ==> forall l :: l in Doomed(s) ==> l !in after.mail) &&
            forall l :: l in store.mail && l.sub != Tmp && l !in after.mail ==> s.authed && l in Doomed(s)
  {
    if s.authed && s.mailbox.Some? {
      var unlinked := store.(mail := store.mail - Doomed(s));
      if s.deleted != {} {
        LowerTwice(Strip(s.mailbox.value));
        ReclaimRemovesNoMail(base, unlinked, s.mailbox.value);
      }
    }
  }

  /** The addresses of the routes a delete call removes. */
  function DeletedBy(store: Store, addrs: seq<string>): set<string> {
    set raw | raw in addrs && FateOf(store, raw) == Deleted :: Normal(raw)
  }

  lemma {:induction false} DeleteAllTakes(base: Path, store: Store, addrs: seq<string>, withMaildir: bool)
    requires Tidy(base, store)
    ensures var after := DeleteAll(store, addrs, withMaildir);
            Tidy(base, after) && after.markers <= store.markers &&
            after.routes == store.routes - DeletedBy(store, addrs) &&
            (forall l :: l in after.mail ==> l in store.mail && after.mail[l] == store.mail[l]) &&
            forall l :: l in store.mail && l !in after.mail ==> withMaildir && l.inbox in InboxesOf(store, addrs)
    decreases |addrs|
  {
    if addrs != [] {
      InboxesFirst(store, addrs, withMaildir);
      var one, rest := DeleteOne(store, addrs[0], withMaildir), addrs[1..];
      DeleteOneTakes(base, store, addrs[0], withMaildir);
      DeleteAllTakes(base, one, rest, withMaildir);
      DeletedFirst(store, one, addrs);
    }
  }

  /** What the rest of the list asks for, after the first address, the whole list asks for. */
  lemma InboxesFirst(store: Store, addrs: seq<string>, withMaildir: bool)
    requires addrs != []
    ensures InboxesOf(DeleteOne(store, addrs[0], withMaildir), addrs[1..]) <= InboxesOf(store, addrs)
    ensures FateOf(store, addrs[0]) == Deleted ==> store.routes[Normal(addrs[0])] in InboxesOf(store, addrs)
  {
    var one := DeleteOne(store, addrs[0], withMaildir);
    assert addrs[0] in addrs && forall raw :: raw in addrs[1..] ==> raw in addrs;
    forall inbox | inbox in InboxesOf(one, addrs[1..])
      ensures inbox in InboxesOf(store, addrs)
    {
      var raw :| raw in addrs[1..] && FateOf(one, raw) == Deleted && one.routes[Normal(raw)] == inbox;
      assert raw in addrs && FateOf(store, raw) == Deleted && store.routes[Normal(raw)] == inbox;
    }
  }

  lemma InboxesAreUnprotected(store: Store, addrs: seq<string>)
    ensures forall inbox :: inbox in InboxesOf(store, addrs) ==> !IsProtected(inbox)
  {
  }

  lemma DeletedFirst(store: Store, one: Store, addrs: seq<string>)
    requires addrs != []
    requires one.routes == store.routes - (if FateOf(store, addrs[0]) == Deleted then {Normal(addrs[0])} else {})
    ensures store.routes - DeletedBy(store, addrs) == one.routes - DeletedBy(one, addrs[1..])
  {
    var first, rest := addrs[0], addrs[1..];
    assert forall raw :: raw in addrs <==> raw == first || raw in rest;
    forall a
      ensures a in DeletedBy(store, addrs) <==>
              a in DeletedBy(one, rest) || (FateOf(store, first) == Deleted && a == Normal(first))
    {
      if a in DeletedBy(store, addrs) {
        var raw :| raw in addrs && FateOf(store, raw) == Deleted && a == Normal(raw);
        assert raw == first || FateOf(one, raw) == Deleted || Normal(raw) == Normal(first);
      }
      if a in DeletedBy(one, rest) {
        var raw :| raw in rest && FateOf(one, raw) == Deleted && a == Normal(raw);
        assert FateOf(store, raw) == Deleted;
      }
    }
  }

  /** A delivery files one message under a fresh name, perhaps on a new route, and touches nothing else. */
  lemma DeliverAdds(site: Site, store: Store, rcpt: string, name: string, bytes: string, written: bool)
    requires Tidy(site.base, store) && forall l :: l in store.mail ==> l.name != name
    ensures var after := Deliver(site, store, rcpt, name, bytes, written);
            Tidy(site.base, after) &&
            (forall a :: a in store.routes ==> a in after.routes && after.routes[a] == store.routes[a]) &&
            after.mail == (if rcpt in after.routes && written then store.mail[Loc(after.routes[rcpt], New, name) := bytes] else store.mail)
  {
    InboxForIsInLayout(site, Normal(rcpt));
  }

  /** DATA is answered 250 in any case; the message is filed exactly when its file could be written and the recipient had a
      route or was given one. */
  lemma FiledIff(site: Site, store: Store, rcpt: string, name: string, bytes: string, written: bool)
    requires Normal(rcpt) == rcpt && forall l :: l in store.mail ==> l.name != name
    ensures (exists l :: l in Deliver(site, store, rcpt, name, bytes, written).mail && l.name == name) <==>
            written && (rcpt in store.routes || (site.autoCreate && IsRegistrable(site, rcpt)))
  {
    var after := Deliver(site, store, rcpt, name, bytes, written);
    if written && rcpt in after.routes {
      assert Loc(after.routes[rcpt], New, name) in after.mail;
    }
  }

  // ---------------------------------------------------------------- no mail is lost

  /** Whatever was ever filed is still in its mailbox, unchanged, or was pulled by its owner, or wiped with an inbox that
      an admin asked to have deleted, which no protected one is; and every mark still points at the message it was made
      for. */
  ghost predicate Accounted(site: Site, m: Machine) {
    Tidy(site.base, m.store) &&
    (forall l :: l in m.past.mail ==>
       l.sub != Tmp &&
       ((l in m.store.mail && m.store.mail[l] == m.past.mail[l]) || l in m.past.pulled || l in m.past.wiped)) &&
    (forall l :: l in m.past.wiped ==> l.inbox in m.past.erased) &&
    (forall inbox :: inbox in m.past.erased ==> !IsProtected(inbox)) &&
    (forall sid :: sid in m.sessions ==> SessionIsSound(m.sessions[sid], Marked(m, sid)))
  }

  predicate SessionIsSound(s: Session, marks: set<Loc>) {
    (s.mailbox.Some? ==> Normal(s.mailbox.value) == s.mailbox.value) && (s.authed ==> s.mailbox.Some?) &&
    (s.deleted == {} ==> marks == {}) &&
    forall n :: n in s.deleted ==> 1 <= n <= |s.snapshot| && s.snapshot[n - 1] in marks
  }

  lemma LowerTwice(s: string)
    ensures Lower(Lower(s)) == Lower(s)
  {
  }

  /** A command of an open session leaves its marks sound. */
  lemma SessionStaysSound(site: Site, m: Machine, step: Step)
    requires Enabled(m, step) && OneUser(m, step)
    requires !step.Data? && !step.RegisterVerb? && !step.Open? && !step.Admin? && !step.QuitCmd? && !step.Close?
    requires SessionIsSound(m.sessions[step.sid], Marked(m, step.sid))
    ensures var after := Next(site, m, step);
            after.store == m.store && SessionIsSound(after.sessions[step.sid], Marked(after, step.sid))
  {
    if step.UserCmd? {
      LowerTwice(step.user);
    }
  }

  lemma DataAccounted(site: Site, m: Machine, step: Step)
    requires Accounted(site, m) && Enabled(m, step) && step.Data?
    ensures Accounted(site, Next(site, m, step))
  {
    DeliverAdds(site, m.store, step.rcpt, step.name, step.bytes, step.written);
  }

  lemma AdminAccounted(site: Site, m: Machine, step: Step)
    requires Accounted(site, m) && step.Admin?
    ensures Accounted(site, Next(site, m, step))
  {
    DeleteAllTakes(site.base, m.store, step.addrs, step.withMaildir);
    InboxesAreUnprotected(m.store, step.addrs);
  }

  lemma QuitAccounted(site: Site, m: Machine, step: Step)
    requires Accounted(site, m) && Enabled(m, step) && step.QuitCmd?
    ensures Accounted(site, Next(site, m, step))
  {
    var s := m.sessions[step.sid];
    QuitTakes(site.base, m.store, s);
    assert Doomed(s) <= Marked(m, step.sid);
  }

  lemma RegisterAccounted(site: Site, m: Machine, step: Step)
    requires Accounted(site, m) && step.RegisterVerb?
    ensures Accounted(site, Next(site, m, step))
  {
    InboxForIsInLayout(site, Normal(Lower(step.argument)));
    assert Next(site, m, step).store.mail == m.store.mail;
  }

  lemma ConnectionAccounted(site: Site, m: Machine, step: Step)
    requires Accounted(site, m) && Enabled(m, step) && (step.Open? || step.Close?)
    ensures Accounted(site, Next(site, m, step))
  {
  }

  lemma CommandAccounted(site: Site, m: Machine, step: Step)
    requires Accounted(site, m) && Enabled(m, step) && OneUser(m, step)
    requires step.UserCmd? || step.PassCmd? || step.DeleCmd? || step.RsetCmd?
    ensures Accounted(site, Next(site, m, step))
  {
    SessionStaysSound(site, m, step);
  }

  lemma AccountedStep(site: Site, m: Machine, step: Step)
    requires Accounted(site, m) && Enabled(m, step) && OneUser(m, step)
    ensures Accounted(site, Next(site, m, step))
  {
    match step {
      case Data(_, _, _, _) => DataAccounted(site, m, step);
      case RegisterVerb(_) => RegisterAccounted(site, m, step);
      case Open(_) => ConnectionAccounted(site, m, step);
      case Close(_) => ConnectionAccounted(site, m, step);
      case Admin(_, _) => AdminAccounted(site, m, step);
      case QuitCmd(_) => QuitAccounted(site, m, step);
      case _ => CommandAccounted(site, m, step);
    }
  }

  lemma {:induction false} AccountedRun(site: Site, m: Machine, steps: seq<Step>)
    requires Accounted(site, m) && IsRun(site, m, steps) && OneUserEach(site, m, steps)
    ensures Accounted(site, After(site, m, steps))
    decreases |steps|
  {
    if steps != [] {
      AccountedStep(site, m, steps[0]);
      AccountedRun(site, Next(site, m, steps[0]), steps[1..]);
    }
  }

  /** Over every run from any tidy disk: each message ever in a mailbox is still there, byte for byte, or was
      DELE-marked in an authenticated session that reached QUIT, or was removed by an admin delete that asked for its own
      inbox, which was not protected. */
  lemma NoMailLost(site: Site, start: Machine, steps: seq<Step>, l: Loc)
    requires IsStart(start) && Tidy(site.base, start.store)
    requires IsRun(site, start, steps) && OneUserEach(site, start, steps)
    requires l in After(site, start, steps).past.mail
    ensures var end := After(site, start, steps);
            (l in end.store.mail && end.store.mail[l] == end.past.mail[l]) ||
            l in end.past.pulled || (l in end.past.wiped && l.inbox in end.past.erased && !IsProtected(l.inbox))
  {
    AccountedRun(site, start, steps);
  }
}
