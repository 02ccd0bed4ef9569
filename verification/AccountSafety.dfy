/** Which accounts a run keeps: protected routes and their mail always, registered accounts until an admin deletes
    them, provided that no two addresses in use have the same slug. */
module AccountSafety {
  import opened Text
  import opened MailStore
  import opened StoreSafety

  // ---------------------------------------------------------------- a delete call splits its list

  function NormalAll(addrs: seq<string>): (r: seq<string>)
    ensures |r| == |addrs|
  {
    seq(|addrs|, i requires 0 <= i < |addrs| => Normal(addrs[i]))
  }

  lemma NormalAllJoined(a: seq<string>, b: seq<string>)
    ensures NormalAll(a + b) == NormalAll(a) + NormalAll(b)
  {
  }

  /** How often an address stands in the three lists together. */
  function Listed(s: Summary): multiset<string> {
    multiset(s.deleted) + multiset(s.unprotected) + multiset(NormalAll(s.notFound))
  }

  lemma ListedJoined(a: Summary, b: Summary)
    ensures Listed(Prepended(a, b)) == Listed(a) + Listed(b)
  {
    NormalAllJoined(a.notFound, b.notFound);
  }

  lemma ListedOne(store: Store, raw: string)
    ensures Listed(SummaryOfOne(store, raw)) == multiset{Normal(raw)}
  {
    assert NormalAll([raw]) == [Normal(raw)];
    assert NormalAll([]) == [];
  }

  lemma NormalAllFirst(addrs: seq<string>)
    requires addrs != []
    ensures multiset(NormalAll(addrs)) == multiset{Normal(addrs[0])} + multiset(NormalAll(addrs[1..]))
  {
    assert NormalAll(addrs) == [Normal(addrs[0])] + NormalAll(addrs[1..]);
  }

  /** No address of the list is dropped, and none is reported twice. */
  lemma {:induction false} DeleteSplits(store: Store, addrs: seq<string>, withMaildir: bool)
    ensures Listed(SummaryOf(store, addrs, withMaildir)) == multiset(NormalAll(addrs))
    decreases |addrs|
  {
    if addrs == [] {
      assert NormalAll([]) == [];
    } else {
      var one, rest := SummaryOfOne(store, addrs[0]), addrs[1..];
      var after := DeleteOne(store, addrs[0], withMaildir);
      ListedOne(store, addrs[0]);
      DeleteSplits(after, rest, withMaildir);
      ListedJoined(one, SummaryOf(after, rest, withMaildir));
      NormalAllFirst(addrs);
    }
  }

  lemma DeleteOneRoutes(store: Store, raw: string, withMaildir: bool)
    ensures DeleteOne(store, raw, withMaildir).routes ==
            store.routes - (if FateOf(store, raw) == Deleted then {Normal(raw)} else {})
  {
  }

  /** An address is not found when it had no route, or stood in the list before and was deleted then. */
  predicate IsMissing(store: Store, addrs: seq<string>, j: nat)
    requires j < |addrs|
  {
    FateOf(store, addrs[j]) == NotFound ||
    (FateOf(store, addrs[j]) == Deleted && exists i :: 0 <= i < j && Normal(addrs[i]) == Normal(addrs[j]))
  }

  lemma MissingLater(store: Store, after: Store, addrs: seq<string>, j: nat)
    requires 0 < j < |addrs|
    requires after.routes == store.routes - (if FateOf(store, addrs[0]) == Deleted then {Normal(addrs[0])} else {})
    ensures IsMissing(after, addrs[1..], j - 1) <==> IsMissing(store, addrs, j)
  {
    var x, rest := addrs[j], addrs[1..];
    assert rest[j - 1] == x;
    if i :| 0 <= i < j && Normal(addrs[i]) == Normal(x) {
      assert i > 0 ==> rest[i - 1] == addrs[i];
    }
    if i :| 0 <= i < j - 1 && Normal(rest[i]) == Normal(x) {
      assert addrs[i + 1] == rest[i];
    }
  }

  /** The third list holds exactly the addresses that are missing when their turn comes, as they were given. */
  lemma {:induction false} NotFoundIs(store: Store, addrs: seq<string>, withMaildir: bool, raw: string)
    ensures raw in SummaryOf(store, addrs, withMaildir).notFound <==>
            exists j :: 0 <= j < |addrs| && addrs[j] == raw && IsMissing(store, addrs, j)
    decreases |addrs|
  {
    if addrs != [] {
      var rest, after := addrs[1..], DeleteOne(store, addrs[0], withMaildir);
      DeleteOneRoutes(store, addrs[0], withMaildir);
      NotFoundIs(after, rest, withMaildir, raw);
      forall j | 0 < j < |addrs|
        ensures rest[j - 1] == addrs[j] && (IsMissing(after, rest, j - 1) <==> IsMissing(store, addrs, j))
      {
        MissingLater(store, after, addrs, j);
      }
      if k :| 0 <= k < |rest| && rest[k] == raw && IsMissing(after, rest, k) {
        assert addrs[k + 1] == raw && IsMissing(store, addrs, k + 1);
      }
      if j :| 0 <= j < |addrs| && addrs[j] == raw && IsMissing(store, addrs, j) {
        if j > 0 {
          assert rest[j - 1] == raw && IsMissing(after, rest, j - 1);
        } else {
          assert FateOf(store, raw) == NotFound;
        }
      } else {
        assert addrs[0] == raw ==> !IsMissing(store, addrs, 0);
      }
    }
  }

  predicate AllDistinct(s: seq<string>) {
    forall i, j :: 0 <= i < j < |s| ==> s[i] != s[j]
  }

  lemma AllDistinctBehind(one: seq<string>, s: seq<string>)
    requires |one| <= 1 && AllDistinct(s) && forall a :: a in one ==> a !in s
    ensures AllDistinct(one + s)
  {
    if one != [] {
      assert one[0] in one;
    }
  }

  /** The other two are what they are called: the first holds, once each, the addresses whose routes go; the second the
      protected ones, whose routes stay. */
  lemma {:induction false} DeleteReports(store: Store, addrs: seq<string>, withMaildir: bool)
    ensures var s := SummaryOf(store, addrs, withMaildir);
            (forall a :: a in s.deleted <==> a in DeletedBy(store, addrs)) &&
            AllDistinct(s.deleted) &&
            (forall a :: a in s.unprotected <==>
               exists raw :: raw in addrs && Normal(raw) == a && FateOf(store, raw) == Protected)
    decreases |addrs|
  {
    if addrs != [] {
      var raw, rest := addrs[0], addrs[1..];
      var after := DeleteOne(store, raw, withMaildir);
      var s := SummaryOf(after, rest, withMaildir);
      DeleteReports(after, rest, withMaildir);
      DeleteOneRoutes(store, raw, withMaildir);
      DeletedByFirst(store, after, addrs);
      FatesAfter(store, after, raw);
      assert forall x :: x in addrs <==> x == raw || x in rest;
      AllDistinctBehind(SummaryOfOne(store, raw).deleted, s.deleted);
    }
  }

  lemma DeletedByFirst(store: Store, after: Store, addrs: seq<string>)
    requires addrs != []
    requires after.routes == store.routes - (if FateOf(store, addrs[0]) == Deleted then {Normal(addrs[0])} else {})
    ensures forall a :: a in DeletedBy(store, addrs) <==>
              a in DeletedBy(after, addrs[1..]) || (FateOf(store, addrs[0]) == Deleted && a == Normal(addrs[0]))
    ensures FateOf(store, addrs[0]) == Deleted ==> Normal(addrs[0]) !in DeletedBy(after, addrs[1..])
  {
    DeletedFirst(store, after, addrs);
    assert forall raw :: raw in addrs <==> raw == addrs[0] || raw in addrs[1..];
    assert forall raw :: FateOf(after, raw) == Deleted ==> FateOf(store, raw) == Deleted;
    assert forall a, s: Store, l: seq<string> :: a in DeletedBy(s, l) ==> a in s.routes;
    forall a
      ensures a in DeletedBy(store, addrs) <==> a in store.routes && a !in store.routes - DeletedBy(store, addrs)
      ensures a in DeletedBy(after, addrs[1..]) <==> a in after.routes && a !in after.routes - DeletedBy(after, addrs[1..])
    {
    }
  }

  lemma FatesAfter(store: Store, after: Store, raw: string)
    requires after.routes == store.routes - (if FateOf(store, raw) == Deleted then {Normal(raw)} else {})
    ensures forall x :: FateOf(after, x) == Protected <==> FateOf(store, x) == Protected
    ensures forall x :: FateOf(after, x) == NotFound <==>
              FateOf(store, x) == NotFound || (FateOf(store, raw) == Deleted && Normal(x) == Normal(raw))
  {
  }

  // ---------------------------------------------------------------- protected routes

  lemma ProtectedStaysStep(site: Site, m: Machine, step: Step, addr: string)
    requires Accounted(site, m) && Enabled(m, step)
    requires addr in m.store.routes && IsProtected(m.store.routes[addr])
    ensures var after := Next(site, m, step).store;
            addr in after.routes && after.routes[addr] == m.store.routes[addr]
  {
    match step {
      case Data(rcpt, name, bytes, written) => DeliverAdds(site, m.store, rcpt, name, bytes, written);
      case QuitCmd(sid) => QuitTakes(site.base, m.store, m.sessions[sid]);
      case Admin(addrs, withMaildir) =>
        DeleteAllTakes(site.base, m.store, addrs, withMaildir);
        assert addr !in DeletedBy(m.store, addrs);
      case RegisterVerb(argument) => RegisterStays(site, m.store, argument, addr);
      case _ => assert Next(site, m, step).store == m.store;
    }
  }

  lemma RegisterStays(site: Site, store: Store, argument: string, addr: string)
    requires addr in store.routes
    ensures var after := Register(site, store, argument); addr in after.routes && after.routes[addr] == store.routes[addr]
  {
  }

  lemma {:induction false} ProtectedStaysRun(site: Site, m: Machine, steps: seq<Step>, addr: string)
    requires Accounted(site, m) && IsRun(site, m, steps) && OneUserEach(site, m, steps)
    requires addr in m.store.routes && IsProtected(m.store.routes[addr])
    ensures var end := After(site, m, steps).store;
            addr in end.routes && end.routes[addr] == m.store.routes[addr]
    decreases |steps|
  {
    if steps != [] {
      AccountedStep(site, m, steps[0]);
      ProtectedStaysStep(site, m, steps[0], addr);
      ProtectedStaysRun(site, Next(site, m, steps[0]), steps[1..], addr);
    }
  }

  /** Whatever clients and admins do, a protected route stays where it points, and a message in a protected maildir
      leaves it only by being pulled. */
  lemma ProtectedStays(site: Site, start: Machine, steps: seq<Step>, addr: string)
    requires IsStart(start) && Tidy(site.base, start.store)
    requires IsRun(site, start, steps) && OneUserEach(site, start, steps)
    requires addr in start.store.routes && IsProtected(start.store.routes[addr])
    ensures var end := After(site, start, steps);
            addr in end.store.routes && end.store.routes[addr] == start.store.routes[addr] &&
            forall l :: l in end.past.mail && IsProtected(l.inbox) ==>
              (l in end.store.mail && end.store.mail[l] == end.past.mail[l]) || l in end.past.pulled
  {
    ProtectedStaysRun(site, start, steps, addr);
    AccountedRun(site, start, steps);
  }

  /** Without an admin delete nothing is ever wiped: what is not in its mailbox was pulled. */
  lemma {:induction false} WipedOnlyByAdmin(site: Site, m: Machine, steps: seq<Step>)
    requires forall i :: 0 <= i < |steps| ==> !steps[i].Admin?
    ensures After(site, m, steps).past.wiped == m.past.wiped
    decreases |steps|
  {
    if steps != [] {
      WipedOnlyByAdmin(site, Next(site, m, steps[0]), steps[1..]);
    }
  }

  lemma LeavesOnlyByPull(site: Site, start: Machine, steps: seq<Step>, l: Loc)
    requires IsStart(start) && Tidy(site.base, start.store)
    requires IsRun(site, start, steps) && OneUserEach(site, start, steps)
    requires forall i :: 0 <= i < |steps| ==> !steps[i].Admin?
    requires l in After(site, start, steps).past.mail
    ensures var end := After(site, start, steps);
            (l in end.store.mail && end.store.mail[l] == end.past.mail[l]) || l in end.past.pulled
  {
    NoMailLost(site, start, steps, l);
    WipedOnlyByAdmin(site, start, steps);
  }

  // ---------------------------------------------------------------- registered accounts

  /** The addresses a run may create routes for. */
  function Named(steps: seq<Step>): set<string>
    decreases |steps|
  {
    if steps == [] then {} else NamedBy(steps[0]) + Named(steps[1..])
  }

  function NamedBy(step: Step): set<string> {
    match step
    case Data(rcpt, _, _, _) => {Normal(rcpt)}
    case RegisterVerb(argument) => {Normal(Lower(argument))}
    case _ => {}
  }

  predicate DistinctSlugs(addrs: set<string>) {
    forall a, b :: a in addrs && b in addrs && Slug(a) == Slug(b) ==> a == b
  }

  /** Every mailbox directory that a route points into is the one FATMAMA makes for that address. */
  predicate OwnDirectories(site: Site, store: Store) {
    forall a :: a in store.routes && IsManaged(store.routes[a]) ==> store.routes[a] == InboxFor(site, a)
  }

  lemma InboxTellsSlug(site: Site, a: string, b: string)
    requires InboxFor(site, a) == InboxFor(site, b)
    ensures Slug(a) == Slug(b)
  {
    var k := |site.base|;
    assert InboxFor(site, a)[k] == MAILBOX_PREFIX + Slug(a);
    assert InboxFor(site, b)[k] == MAILBOX_PREFIX + Slug(b);
    assert (MAILBOX_PREFIX + Slug(a))[|MAILBOX_PREFIX|..] == Slug(a);
    assert (MAILBOX_PREFIX + Slug(b))[|MAILBOX_PREFIX|..] == Slug(b);
  }

  /** Every registered account has its route, and nothing marks it as one to reclaim. */
  predicate RegisteredKept(m: Machine) {
    forall a :: a in m.past.registered ==> a in m.store.routes && m.store.routes[a] !in m.store.markers
  }

  /** Routes name no one outside `used`. */
  predicate Known(m: Machine, used: set<string>) {
    m.store.routes.Keys <= used
  }

  ghost predicate Persistent(site: Site, m: Machine, used: set<string>) {
    Accounted(site, m) && OwnDirectories(site, m.store) && Known(m, used) && RegisteredKept(m)
  }

  lemma PersistentData(site: Site, m: Machine, step: Step, used: set<string>)
    requires Persistent(site, m, used) && DistinctSlugs(used)
    requires step.Data? && Enabled(m, step) && NamedBy(step) <= used
    ensures Persistent(site, Next(site, m, step), used)
  {
    var routed := WithRoute(site, m.store, step.rcpt);
    var rcpt := Normal(step.rcpt);
    assert rcpt in used;
    DataAccounted(site, m, step);
    forall a | a in m.past.registered
      ensures a in routed.routes && routed.routes[a] !in routed.markers
    {
      if InboxFor(site, rcpt) == m.store.routes[a] {
        InboxTellsSlug(site, rcpt, a);
      }
    }
  }

  lemma PersistentRegister(site: Site, m: Machine, step: Step, used: set<string>)
    requires Persistent(site, m, used)
    requires step.RegisterVerb? && Enabled(m, step) && NamedBy(step) <= used
    ensures Persistent(site, Next(site, m, step), used)
  {
    AccountedStep(site, m, step);
    assert Normal(Lower(step.argument)) in used;
    RegisterKeeps(site, m.store, step.argument, m.past.registered);
  }

  /** A registration adds at most its own route, and clears its mark. */
  lemma RegisterKeeps(site: Site, store: Store, argument: string, registered: set<string>)
    requires OwnDirectories(site, store)
    requires forall a :: a in registered ==> a in store.routes && store.routes[a] !in store.markers
    ensures var after := Register(site, store, argument);
            var addr := Lower(argument);
            OwnDirectories(site, after) && after.routes.Keys <= store.routes.Keys + {Normal(addr)} &&
            (forall a :: a in registered ==> a in after.routes && after.routes[a] !in after.markers) &&
            (!site.production && IsRegistrable(site, Normal(addr)) && addr in after.routes ==>
               after.routes[addr] !in after.markers)
  {
    LowerTwice(argument);
  }

  lemma PersistentAdmin(site: Site, m: Machine, step: Step, used: set<string>)
    requires Persistent(site, m, used) && step.Admin?
    ensures Persistent(site, Next(site, m, step), used)
  {
    AdminAccounted(site, m, step);
    DeleteAllTakes(site.base, m.store, step.addrs, step.withMaildir);
    DeleteReports(m.store, step.addrs, step.withMaildir);
  }

  lemma PersistentQuit(site: Site, m: Machine, step: Step, used: set<string>)
    requires Persistent(site, m, used) && step.QuitCmd? && Enabled(m, step)
    ensures Persistent(site, Next(site, m, step), used)
  {
    QuitAccounted(site, m, step);
    QuitKeeps(site, m.store, m.sessions[step.sid], m.past.registered);
  }

  lemma QuitKeeps(site: Site, store: Store, s: Session, registered: set<string>)
    requires Tidy(site.base, store) && (s.mailbox.Some? ==> Normal(s.mailbox.value) == s.mailbox.value)
    requires OwnDirectories(site, store)
    requires forall a :: a in registered ==> a in store.routes && store.routes[a] !in store.markers
    ensures var after := Quit(store, s);
            OwnDirectories(site, after) && after.routes.Keys <= store.routes.Keys &&
            forall a :: a in registered ==> a in after.routes && after.routes[a] !in after.markers
  {
    QuitTakes(site.base, store, s);
  }

  /** The other commands of a session touch neither routes nor registrations. */
  lemma PersistentCommand(site: Site, m: Machine, step: Step, used: set<string>)
    requires Persistent(site, m, used) && Enabled(m, step) && OneUser(m, step)
    requires !step.Data? && !step.RegisterVerb? && !step.Admin? && !step.QuitCmd?
    ensures Persistent(site, Next(site, m, step), used)
  {
    AccountedStep(site, m, step);
    assert Next(site, m, step).store == m.store;
    assert Next(site, m, step).past.registered == m.past.registered;
  }

  lemma PersistentStep(site: Site, m: Machine, step: Step, used: set<string>)
    requires Persistent(site, m, used) && DistinctSlugs(used)
    requires Enabled(m, step) && OneUser(m, step) && NamedBy(step) <= used
    ensures Persistent(site, Next(site, m, step), used)
  {
    match step {
      case Data(_, _, _, _) => PersistentData(site, m, step, used);
      case RegisterVerb(_) => PersistentRegister(site, m, step, used);
      case Admin(_, _) => PersistentAdmin(site, m, step, used);
      case QuitCmd(_) => PersistentQuit(site, m, step, used);
      case _ => PersistentCommand(site, m, step, used);
    }
  }

  lemma {:induction false} PersistentRun(site: Site, m: Machine, steps: seq<Step>, used: set<string>)
    requires Persistent(site, m, used) && DistinctSlugs(used)
    requires IsRun(site, m, steps) && OneUserEach(site, m, steps) && Named(steps) <= used
    ensures Persistent(site, After(site, m, steps), used)
    decreases |steps|
  {
    if steps != [] {
      PersistentStep(site, m, steps[0], used);
      PersistentRun(site, Next(site, m, steps[0]), steps[1..], used);
    }
  }

  /** Over every run whose addresses have distinct slugs: an account registered by a client has its route, and is not
      up for reclamation, until an admin deletes it. */
  lemma RegisteredStays(site: Site, start: Machine, steps: seq<Step>)
    requires IsStart(start) && Tidy(site.base, start.store) && OwnDirectories(site, start.store)
    requires IsRun(site, start, steps) && OneUserEach(site, start, steps)
    requires DistinctSlugs(start.store.routes.Keys + Named(steps))
    ensures RegisteredKept(After(site, start, steps))
  {
    PersistentRun(site, start, steps, start.store.routes.Keys + Named(steps));
  }

  // ---------------------------------------------------------------- and what happens otherwise

  /** One more step at the end of a run. */
  lemma {:induction false} OneMore(site: Site, m: Machine, steps: seq<Step>, step: Step)
    requires IsRun(site, m, steps) && OneUserEach(site, m, steps)
    requires Enabled(After(site, m, steps), step) && OneUser(After(site, m, steps), step)
    ensures IsRun(site, m, steps + [step]) && OneUserEach(site, m, steps + [step])
    ensures After(site, m, steps + [step]) == Next(site, After(site, m, steps), step)
    decreases |steps|
  {
    if steps == [] {
      assert [] + [step] == [step];
    } else {
      assert (steps + [step])[1..] == steps[1..] + [step];
      OneMore(site, Next(site, m, steps[0]), steps[1..], step);
    }
  }

  const EMPTY_SERVER := Machine(Store(map[], map[], {}), map[], History(map[], map[], {}, {}, {}, {}))

  /** A run from the empty server to `end` that names no one but `a` and `b`, with one USER per session and no admin. */
  ghost predicate Leads(site: Site, steps: seq<Step>, end: Machine, a: string, b: string) {
    IsRun(site, EMPTY_SERVER, steps) && OneUserEach(site, EMPTY_SERVER, steps) &&
    After(site, EMPTY_SERVER, steps) == end && Named(steps) <= {a, b} &&
    forall i :: 0 <= i < |steps| ==> !steps[i].Admin?
  }

  lemma LeadsOn(site: Site, steps: seq<Step>, m: Machine, step: Step, end: Machine, a: string, b: string)
    requires Leads(site, steps, m, a, b) && Enabled(m, step) && OneUser(m, step)
    requires !step.Admin? && NamedBy(step) <= {a, b} && Next(site, m, step) == end
    ensures Leads(site, steps + [step], end, a, b)
  {
    OneMore(site, EMPTY_SERVER, steps, step);
    NamedOneMore(steps, step);
  }

  /** Distinct slugs are needed: any two addresses that share one give a run in which one of them, registered, loses its
      account to a reclamation it never asked for. */
  lemma SharedSlugLosesAccount(site: Site, a: string, b: string) returns (steps: seq<Step>, end: Machine)
    requires site.autoCreate && !site.production
    requires a != b && Slug(a) == Slug(b) && !IsProtected(InboxFor(site, a))
    requires Strip(a) == a == Lower(a) && IsRegistrable(site, a)
    requires Strip(b) == b == Lower(b) && IsRegistrable(site, b)
    ensures Leads(site, steps, end, a, b)
    ensures a in end.past.registered && a !in end.store.routes
  {
    var inbox := InboxFor(site, a);
    var l := Loc(inbox, New, "1");
    var store := Store(map[a := inbox, b := inbox], map[l := "hello"], {inbox});
    var past;
    steps, past := SharedMailbox(site, a, b);
    steps := ListingSession(site, a, b, l, steps, store, past);
    steps := MarkingSession(site, a, b, l, steps, store, past);
    var m := Machine(store, map[0 := Session(Some(a), [l], {1}, true)], past.(marks := map[0 := {l}]));
    end := Next(site, m, QuitCmd(0));
    LeadsOn(site, steps, m, QuitCmd(0), end, a, b);
    steps := steps + [QuitCmd(0)];
    DrainedIsReclaimed(store, m.sessions[0], a, l);
  }

  /** The first two steps: `a` is registered, and mail for `b` marks the directory they share. */
  lemma SharedMailbox(site: Site, a: string, b: string) returns (steps: seq<Step>, past: History)
    requires site.autoCreate && !site.production
    requires a != b && Slug(a) == Slug(b)
    requires Strip(a) == a == Lower(a) && IsRegistrable(site, a)
    requires Strip(b) == b == Lower(b) && IsRegistrable(site, b)
    ensures var inbox := InboxFor(site, a);
            var store := Store(map[a := inbox, b := inbox], map[Loc(inbox, New, "1") := "hello"], {inbox});
            Leads(site, steps, Machine(store, map[], past), a, b)
    ensures past.registered == {a} && past.marks == map[]
  {
    var inbox := InboxFor(site, a);
    var l := Loc(inbox, New, "1");
    var m := Machine(Store(map[a := inbox], map[], {}), map[], EMPTY_SERVER.past.(registered := {a}));
    assert Leads(site, [], EMPTY_SERVER, a, b);
    LeadsOn(site, [], EMPTY_SERVER, RegisterVerb(a), m, a, b);
    steps := [] + [RegisterVerb(a)];
    past := m.past.(mail := map[l := "hello"]);
    var store := Store(map[a := inbox, b := inbox], map[l := "hello"], {inbox});
    LeadsOn(site, steps, m, Data(b, "1", "hello", true), Machine(store, map[], past), a, b);
    steps := steps + [Data(b, "1", "hello", true)];
  }

  /** The owner of `a` lists the mailbox. */
  lemma ListingSession(site: Site, a: string, b: string, l: Loc, soFar: seq<Step>, store: Store, past: History)
    returns (steps: seq<Step>)
    requires Leads(site, soFar, Machine(store, map[], past), a, b) && past.marks == map[]
    requires Strip(a) == a == Lower(a) && a in store.routes
    requires store.mail.Keys == {l} && l.inbox == store.routes[a] && l.sub == New
    ensures Leads(site, steps,
                  Machine(store, map[0 := Session(Some(a), [l], {}, false)], past.(marks := map[0 := {}])), a, b)
  {
    var m := Machine(store, map[0 := FRESH_SESSION], past.(marks := map[0 := {}]));
    LeadsOn(site, soFar, Machine(store, map[], past), Open(0), m, a, b);
    var end := m.(sessions := map[0 := Session(Some(a), [l], {}, false)]);
    LeadsOn(site, soFar + [Open(0)], m, UserCmd(0, a, [l]), end, a, b);
    steps := soFar + [Open(0)] + [UserCmd(0, a, [l])];
  }

  /** And marks its only message. */
  lemma MarkingSession(site: Site, a: string, b: string, l: Loc, soFar: seq<Step>, store: Store, past: History)
    returns (steps: seq<Step>)
    requires Leads(site, soFar,
                   Machine(store, map[0 := Session(Some(a), [l], {}, false)], past.(marks := map[0 := {}])), a, b)
    ensures Leads(site, steps,
                  Machine(store, map[0 := Session(Some(a), [l], {1}, true)], past.(marks := map[0 := {l}])), a, b)
  {
    var m0 := Machine(store, map[0 := Session(Some(a), [l], {}, false)], past.(marks := map[0 := {}]));
    var m1 := m0.(sessions := map[0 := Session(Some(a), [l], {}, true)]);
    var m2 := Machine(store, map[0 := Session(Some(a), [l], {1}, true)], past.(marks := map[0 := {l}]));
    LeadsOn(site, soFar, m0, PassCmd(0), m1, a, b);
    MarkTheFirst(site, m1, a, l, m2);
    LeadsOn(site, soFar + [PassCmd(0)], m1, DeleCmd(0, 1), m2, a, b);
    steps := soFar + [PassCmd(0)] + [DeleCmd(0, 1)];
  }

  lemma MarkTheFirst(site: Site, m: Machine, a: string, l: Loc, after: Machine)
    requires m.sessions == map[0 := Session(Some(a), [l], {}, true)] && m.past.marks == map[0 := {}]
    requires after == m.(sessions := map[0 := Session(Some(a), [l], {1}, true)], past := m.past.(marks := map[0 := {l}]))
    ensures Next(site, m, DeleCmd(0, 1)) == after
  {
    assert Dele(m.sessions[0], 1) == Session(Some(a), [l], {1}, true);
    assert Marked(m, 0) + NewlyMarked(m.sessions[0], 1) == {l};
  }

  lemma {:induction false} NamedOneMore(steps: seq<Step>, step: Step)
    ensures Named(steps + [step]) == Named(steps) + NamedBy(step)
    decreases |steps|
  {
    if steps == [] {
      assert [] + [step] == [step];
      assert [step][1..] == [];
    } else {
      assert (steps + [step])[1..] == steps[1..] + [step];
      NamedOneMore(steps[1..], step);
    }
  }

  lemma DrainedIsReclaimed(store: Store, s: Session, addr: string, l: Loc)
    requires Normal(addr) == addr != "" && Lower(addr) == addr && addr in store.routes
    requires store.routes[addr] == l.inbox && store.routes[addr] in store.markers
    requires IsManaged(l.inbox) && !IsProtected(l.inbox) && store.mail.Keys == {l}
    requires s == Session(Some(addr), [l], {1}, true)
    ensures addr !in Quit(store, s).routes
  {
    assert s.snapshot[1 - 1] == l;
    assert l in Doomed(s);
    var unlinked := store.(mail := store.mail - Doomed(s));
    assert MayReclaim(unlinked, addr);
    assert [addr][1..] == [];
    assert DeleteAll(unlinked, [addr], true) == DeleteOne(unlinked, addr, true);
  }

  lemma SlugsCollide()
    ensures Slug("a.b@axiom") == Slug("a-b@axiom")
  {
    assert "a.b@axiom"[1..] == ".b@axiom" && "a-b@axiom"[1..] == "-b@axiom";
    assert ".b@axiom"[1..] == "b@axiom" == "-b@axiom"[1..];
  }

  // ---------------------------------------------------------------- a second USER after a DELE

  /** The listing a USER command leaves in its session. */
  function ShownTo(store: Store, user: string, listing: seq<Loc>): seq<Loc> {
    if Lower(user) in store.routes then listing else []
  }

  /** One USER per session is needed, since marks are numbers and outlive the listing they were made on: a USER that is
      followed by QUIT removes a message that was never marked exactly when some marked number stands for an unmarked
      message of the new listing. What was marked is known through every USER. */
  lemma UserThenQuitIff(site: Site, m: Machine, sid: nat, user: string, listing: seq<Loc>)
    requires Tidy(site.base, m.store) && sid in m.sessions && m.sessions[sid].authed
    requires Enabled(m, UserCmd(sid, user, listing))
    ensures var end := Next(site, Next(site, m, UserCmd(sid, user, listing)), QuitCmd(sid));
            var shown := ShownTo(m.store, user, listing);
            end.past.pulled == m.past.pulled + Marked(m, sid) &&
            ((exists l :: l in m.store.mail && l.sub != Tmp && l !in end.store.mail && l !in Marked(m, sid)) <==>
             (exists n :: n in m.sessions[sid].deleted && 1 <= n <= |shown| && shown[n - 1] !in Marked(m, sid)))
  {
    var s := User(m.store, m.sessions[sid], user, listing);
    var shown := ShownTo(m.store, user, listing);
    var end := Next(site, Next(site, m, UserCmd(sid, user, listing)), QuitCmd(sid));
    LowerTwice(user);
    QuitTakes(site.base, m.store, s);
    assert end.store == Quit(m.store, s);
    if n :| n in s.deleted && 1 <= n <= |shown| && shown[n - 1] !in Marked(m, sid) {
      assert shown[n - 1] in listing;
      assert shown[n - 1] in Doomed(s);
    }
  }

  /** A server with one message in each of two mailboxes. */
  function TwoMailboxes(a: string, la: Loc, b: string, lb: Loc): Machine {
    var mail := map[la := "for a", lb := "for b"];
    Machine(Store(map[a := la.inbox, b := lb.inbox], mail, {}), map[], History(mail, map[], {}, {}, {}, {}))
  }

  lemma TwoMailboxesIsStart(a: string, la: Loc, b: string, lb: Loc)
    requires la.sub == lb.sub == New
    ensures IsStart(TwoMailboxes(a, la, b, lb))
  {
  }

  /** The six commands: the owner of `a` marks its message, asks for `b` instead, and quits. */
  function TwoUsers(a: string, la: Loc, b: string, lb: Loc): seq<Step> {
    [Open(0), UserCmd(0, a, [la]), PassCmd(0), DeleCmd(0, 1), UserCmd(0, b, [lb]), QuitCmd(0)]
  }

  lemma UnfoldRun(site: Site, m: Machine, step: Step, next: Machine, rest: seq<Step>)
    requires Next(site, m, step) == next
    ensures IsRun(site, m, [step] + rest) == (Enabled(m, step) && IsRun(site, next, rest))
    ensures After(site, m, [step] + rest) == After(site, next, rest)
  {
    assert ([step] + rest)[1..] == rest;
  }

  lemma ListingStep(site: Site, store: Store, s: Session, past: History, user: string, l: Loc)
    requires Strip(user) == user == Lower(user) && user in store.routes && store.routes[user] == l.inbox && l.sub == New
    requires l in store.mail && forall other :: other in store.mail && other.inbox == l.inbox ==> other == l
    requires past.marks.Keys == {0}
    ensures var m := Machine(store, map[0 := s], past);
            Enabled(m, UserCmd(0, user, [l])) &&
            Next(site, m, UserCmd(0, user, [l])) == m.(sessions := map[0 := Session(Some(user), [l], s.deleted, s.authed)])
  {
    assert past.marks[0 := past.marks[0]] == past.marks;
  }

  /** The last two commands. */
  lemma SecondListing(site: Site, store: Store, s: Session, past: History, b: string, lb: Loc)
    requires Strip(b) == b == Lower(b) && b in store.routes && store.routes[b] == lb.inbox && lb.sub == New
    requires lb in store.mail && forall other :: other in store.mail && other.inbox == lb.inbox ==> other == lb
    requires s.authed && s.deleted == {1} && past.marks.Keys == {0}
    ensures var m := Machine(store, map[0 := s], past);
            var rest := [UserCmd(0, b, [lb])] + [QuitCmd(0)];
            var end := After(site, m, rest);
            IsRun(site, m, rest) && lb !in end.store.mail && end.past.mail == past.mail &&
            end.past.pulled == past.pulled + past.marks[0] && end.past.wiped == past.wiped
  {
    var m := Machine(store, map[0 := s], past);
    var next := m.(sessions := map[0 := Session(Some(b), [lb], s.deleted, s.authed)]);
    ListingStep(site, store, s, past, b, lb);
    UnfoldRun(site, m, UserCmd(0, b, [lb]), next, [QuitCmd(0)]);
    var end := Next(site, next, QuitCmd(0));
    assert [QuitCmd(0)] == [QuitCmd(0)] + [];
    UnfoldRun(site, next, QuitCmd(0), end, []);
    var quitting := next.sessions[0];
    assert quitting.snapshot[1 - 1] == lb;
    assert lb in Doomed(quitting);
    ReclaimAddsNothing(store.(mail := store.mail - Doomed(quitting)), b);
  }

  /** So it happens, from a start: the message of `b` is gone, though no one ever marked it and no admin wiped it. */
  lemma SecondUserPullsUnmarked(site: Site, a: string, la: Loc, b: string, lb: Loc)
    requires Strip(a) == a == Lower(a) && Strip(b) == b == Lower(b) && a != b
    requires la.sub == lb.sub == New && la.inbox != lb.inbox
    ensures var start := TwoMailboxes(a, la, b, lb);
            var end := After(site, start, TwoUsers(a, la, b, lb));
            IsStart(start) && IsRun(site, start, TwoUsers(a, la, b, lb)) &&
            lb in end.past.mail && lb !in end.store.mail && lb !in end.past.pulled && lb !in end.past.wiped
  {
    var start := TwoMailboxes(a, la, b, lb);
    TwoMailboxesIsStart(a, la, b, lb);
    var past := start.past.(marks := map[0 := {la}]);
    TwoUsersMark(site, start.store, start.past, a, la, b, lb);
    SecondListing(site, start.store, Session(Some(a), [la], {1}, true), past, b, lb);
  }

  lemma TwoUsersAre(a: string, la: Loc, b: string, lb: Loc)
    ensures TwoUsers(a, la, b, lb) ==
            [Open(0)] + ([UserCmd(0, a, [la])] + ([PassCmd(0)] + ([DeleCmd(0, 1)] + ([UserCmd(0, b, [lb])] + [QuitCmd(0)]))))
  {
  }

  lemma OpenFirst(site: Site, store: Store, past: History)
    requires past.marks == map[]
    ensures var m := Machine(store, map[], past);
            Enabled(m, Open(0)) && Next(site, m, Open(0)) == Machine(store, map[0 := FRESH_SESSION], past.(marks := map[0 := {}]))
  {
  }

  /** The first four commands leave the message of `a` marked. */
  lemma TwoUsersMark(site: Site, store: Store, past: History, a: string, la: Loc, b: string, lb: Loc)
    requires Strip(a) == a == Lower(a) && a in store.routes && store.routes[a] == la.inbox && la.sub == New
    requires la in store.mail && forall other :: other in store.mail && other.inbox == la.inbox ==> other == la
    requires past.marks == map[]
    ensures var m, rest := Machine(store, map[], past), [UserCmd(0, b, [lb])] + [QuitCmd(0)];
            var m4 := Machine(store, map[0 := Session(Some(a), [la], {1}, true)], past.(marks := map[0 := {la}]));
            IsRun(site, m, TwoUsers(a, la, b, lb)) == IsRun(site, m4, rest) &&
            After(site, m, TwoUsers(a, la, b, lb)) == After(site, m4, rest)
  {
    var rest := [UserCmd(0, b, [lb])] + [QuitCmd(0)];
    var open := past.(marks := map[0 := {}]);
    TwoUsersAre(a, la, b, lb);
    OpenFirst(site, store, past);
    FirstMark(site, store, open, a, la, rest);
    UnfoldRun(site, Machine(store, map[], past), Open(0), Machine(store, map[0 := FRESH_SESSION], open),
              [UserCmd(0, a, [la])] + ([PassCmd(0)] + ([DeleCmd(0, 1)] + rest)));
  }

  /** The commands up to the mark. */
  lemma FirstMark(site: Site, store: Store, past: History, a: string, la: Loc, rest: seq<Step>)
    requires Strip(a) == a == Lower(a) && a in store.routes && store.routes[a] == la.inbox && la.sub == New
    requires la in store.mail && forall other :: other in store.mail && other.inbox == la.inbox ==> other == la
    requires past.marks == map[0 := {}]
    ensures var m1 := Machine(store, map[0 := FRESH_SESSION], past);
            var m4 := Machine(store, map[0 := Session(Some(a), [la], {1}, true)], past.(marks := map[0 := {la}]));
            var steps := [UserCmd(0, a, [la])] + ([PassCmd(0)] + ([DeleCmd(0, 1)] + rest));
            IsRun(site, m1, steps) == IsRun(site, m4, rest) && After(site, m1, steps) == After(site, m4, rest)
  {
    var m1 := Machine(store, map[0 := FRESH_SESSION], past);
    var m2 := m1.(sessions := map[0 := Session(Some(a), [la], {}, false)]);
    var m3 := m1.(sessions := map[0 := Session(Some(a), [la], {}, true)]);
    var m4 := Machine(store, map[0 := Session(Some(a), [la], {1}, true)], past.(marks := map[0 := {la}]));
    ListingStep(site, store, FRESH_SESSION, past, a, la);
    UnfoldRun(site, m1, UserCmd(0, a, [la]), m2, [PassCmd(0)] + ([DeleCmd(0, 1)] + rest));
    assert Next(site, m2, PassCmd(0)) == m3;
    UnfoldRun(site, m2, PassCmd(0), m3, [DeleCmd(0, 1)] + rest);
    MarkTheFirst(site, m3, a, la, m4);
    UnfoldRun(site, m3, DeleCmd(0, 1), m4, rest);
  }

  lemma ReclaimAddsNothing(store: Store, addr: string)
    ensures forall l :: l in Reclaim(store, addr).mail ==> l in store.mail
  {
    assert [addr][1..] == [];
    assert DeleteAll(store, [addr], true) == DeleteOne(store, addr, true);
  }

  /** On any layout, tidy or not: a reclamation removes a message exactly when another inbox below the same mailbox
      directory holds one. */
  lemma ReclaimIsSafeIff(store: Store, addr: string)
    requires Normal(addr) == addr != ""
    ensures (forall l :: l in store.mail && l.sub != Tmp ==> l in Reclaim(store, addr).mail) <==>
            (MayReclaim(store, addr) ==>
               forall l :: l in store.mail && l.sub != Tmp ==> !(Parent(store.routes[addr]) <= l.inbox))
  {
    assert [addr][1..] == [];
    if MayReclaim(store, addr) {
      assert DeleteAll(store, [addr], true) == DeleteOne(store, addr, true);
      var inbox := store.routes[addr];
      assert Reclaim(store, addr).mail == map l | l in store.mail && l.inbox != inbox && !(Parent(inbox) <= l.inbox) :: store.mail[l];
      assert Parent(inbox) <= inbox;
    }
  }
}
