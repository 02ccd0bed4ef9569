/** What each operation of the mail store does to routes, messages and markers, said of the paths and addresses alone: when
    mail is pulled and when an account is reclaimed, which routes and messages a delete takes, what a registration and a
    delivery add. */
module StoreLaws {
  import opened Text
  import opened MailStore
  import opened MailboxNames
  import opened StoreSafety
  import opened AccountSafety

  // ---------------------------------------------------------------- QUIT

  /** Some mark of the session stands for this message. */
  predicate IsPulled(s: Session, l: Loc) {
    exists n :: n in s.deleted && 1 <= n <= |s.snapshot| && s.snapshot[n - 1] == l
  }

  /** Every message of the inbox, outside `tmp/`, is being pulled. */
  predicate IsDrained(store: Store, s: Session, inbox: Path) {
    forall l :: l in store.mail && l.inbox == inbox && l.sub != Tmp ==> IsPulled(s, l)
  }

  /** Something was marked, the account was created by the site for a delivery, its mailbox is FATMAMA's own and no
      validator's, and it is now empty. */
  ghost predicate IsReclaimed(store: Store, s: Session, addr: string) {
    s.deleted != {} && addr != "" && addr in store.routes &&
    var inbox := store.routes[addr];
    inbox in store.markers && IsOwnMailbox(inbox) && !NamesValidator(inbox) && IsDrained(store, s, inbox)
  }

  lemma DoomedIs(s: Session, l: Loc)
    ensures l in Doomed(s) <==> IsPulled(s, l)
  {
  }

  lemma ReclaimedIff(store: Store, s: Session, addr: string)
    requires Normal(addr) == addr == Lower(addr)
    ensures var unlinked := store.(mail := store.mail - Doomed(s));
            s.deleted != {} && MayReclaim(unlinked, addr) && FateOf(unlinked, addr) == Deleted <==> IsReclaimed(store, s, addr)
  {
    if addr in store.routes {
      var inbox := store.routes[addr];
      ManagedIff(inbox);
      ProtectedIff(inbox);
      forall l | l in store.mail
        ensures l in Doomed(s) <==> IsPulled(s, l)
      {
        DoomedIs(s, l);
      }
    }
  }

  /** The whole effect of an authenticated QUIT: the messages its marks stand for are gone and no other; and exactly if the account
      is to be reclaimed, so are its route, and what is left and marked below its mailbox directory. */
  lemma QuitIs(store: Store, s: Session, addr: string)
    requires s.authed && s.mailbox == Some(addr) && Normal(addr) == addr == Lower(addr)
    ensures var after, gone := Quit(store, s), IsReclaimed(store, s, addr);
            after.routes == (if gone then store.routes - {addr} else store.routes) &&
            (forall l :: l in after.mail <==>
               l in store.mail && !IsPulled(s, l) && !(gone && Parent(store.routes[addr]) <= l.inbox)) &&
            (forall l :: l in after.mail ==> after.mail[l] == store.mail[l]) &&
            (forall m :: m in after.markers <==> m in store.markers && !(gone && Parent(store.routes[addr]) <= m))
  {
    var unlinked := store.(mail := store.mail - Doomed(s));
    ReclaimedIff(store, s, addr);
    forall l | l in store.mail
      ensures l in Doomed(s) <==> IsPulled(s, l)
    {
      DoomedIs(s, l);
    }
    if s.deleted != {} && MayReclaim(unlinked, addr) {
      assert [addr][1..] == [];
      assert DeleteAll(unlinked, [addr], true) == DeleteOne(unlinked, addr, true);
      var inbox := store.routes[addr];
      assert Parent(inbox) <= inbox;
    }
  }

  /** An idle poll changes nothing, whatever the account; nor does a session that never authenticated. */
  lemma IdlePollChangesNothing(store: Store, s: Session)
    requires s.deleted == {} || !s.authed
    ensures Quit(store, s) == store
  {
    assert Doomed(s) == {} || !s.authed;
    assert store.mail - {} == store.mail;
  }

  predicate NothingMarked(m: Machine) {
    forall sid :: sid in m.sessions ==> m.sessions[sid].deleted == {}
  }

  predicate Keeps(before: Store, after: Store) {
    forall a :: a in before.routes ==> a in after.routes && after.routes[a] == before.routes[a]
  }

  lemma PollingStep(site: Site, m: Machine, step: Step)
    requires NothingMarked(m) && !step.DeleCmd? && !step.Admin?
    ensures NothingMarked(Next(site, m, step)) && Keeps(m.store, Next(site, m, step).store)
  {
    if step.QuitCmd? && step.sid in m.sessions {
      IdlePollChangesNothing(m.store, m.sessions[step.sid]);
    }
  }

  /** So over every run in which no message is marked and no admin deletes, every account keeps its route, however often it is
      polled. */
  lemma {:induction false} PollingKeepsAccounts(site: Site, m: Machine, steps: seq<Step>)
    requires NothingMarked(m) && forall i :: 0 <= i < |steps| ==> !steps[i].DeleCmd? && !steps[i].Admin?
    ensures Keeps(m.store, After(site, m, steps).store)
    decreases |steps|
  {
    if steps != [] {
      PollingStep(site, m, steps[0]);
      PollingKeepsAccounts(site, Next(site, m, steps[0]), steps[1..]);
    }
  }

  // ---------------------------------------------------------------- deletion

  lemma {:induction false} DeleteAllRoutes(store: Store, addrs: seq<string>, withMaildir: bool)
    ensures DeleteAll(store, addrs, withMaildir).routes == store.routes - DeletedBy(store, addrs)
    decreases |addrs|
  {
    if addrs != [] {
      var one := DeleteOne(store, addrs[0], withMaildir);
      DeleteOneRoutes(store, addrs[0], withMaildir);
      DeleteAllRoutes(one, addrs[1..], withMaildir);
      DeletedFirst(store, one, addrs);
    }
  }

  /** A delete call takes exactly the routes it was asked for whose mailboxes are FATMAMA's own and no validator's. */
  lemma RouteDeletedIff(store: Store, addrs: seq<string>, withMaildir: bool, addr: string)
    requires addr in store.routes
    ensures var after := DeleteAll(store, addrs, withMaildir).routes;
            (addr !in after <==>
               addr != "" && (exists raw :: raw in addrs && Normal(raw) == addr) &&
               IsOwnMailbox(store.routes[addr]) && !NamesValidator(store.routes[addr])) &&
            (addr in after ==> after[addr] == store.routes[addr])
  {
    DeleteAllRoutes(store, addrs, withMaildir);
    ProtectedIff(store.routes[addr]);
    if addr in DeletedBy(store, addrs) {
      var raw :| raw in addrs && FateOf(store, raw) == Deleted && Normal(raw) == addr;
    }
    if raw :| raw in addrs && Normal(raw) == addr {
      assert FateOf(store, raw) == Deleted || IsProtected(store.routes[addr]) || addr == "";
    }
  }

  /** The path lies at or below the mailbox directory of a deleted address. */
  predicate IsBelow(inboxes: set<Path>, path: Path) {
    exists inbox :: inbox in inboxes && Parent(inbox) <= path
  }

  lemma DeleteOneIs(store: Store, raw: string, withMaildir: bool)
    ensures var after := DeleteOne(store, raw, withMaildir);
            var taken := FateOf(store, raw) == Deleted && withMaildir;
            (forall l :: l in after.mail <==> l in store.mail && !(taken && Parent(store.routes[Normal(raw)]) <= l.inbox)) &&
            (forall l :: l in after.mail ==> after.mail[l] == store.mail[l]) &&
            (forall m :: m in after.markers <==> m in store.markers && !(taken && Parent(store.routes[Normal(raw)]) <= m))
  {
    if FateOf(store, raw) == Deleted && withMaildir {
      assert Parent(store.routes[Normal(raw)]) <= store.routes[Normal(raw)];
    }
  }

  lemma InboxesAre(store: Store, addrs: seq<string>, withMaildir: bool)
    requires addrs != []
    ensures var one := DeleteOne(store, addrs[0], withMaildir);
            InboxesOf(store, addrs) ==
            InboxesOf(one, addrs[1..]) + if FateOf(store, addrs[0]) == Deleted then {store.routes[Normal(addrs[0])]} else {}
  {
    var one, first, rest := DeleteOne(store, addrs[0], withMaildir), addrs[0], addrs[1..];
    InboxesFirst(store, addrs, withMaildir);
    DeleteOneRoutes(store, first, withMaildir);
    assert forall raw :: raw in addrs <==> raw == first || raw in rest;
    forall inbox | inbox in InboxesOf(store, addrs)
      ensures inbox in InboxesOf(one, rest) || (FateOf(store, first) == Deleted && inbox == store.routes[Normal(first)])
    {
      var raw :| raw in addrs && FateOf(store, raw) == Deleted && store.routes[Normal(raw)] == inbox;
      if Normal(raw) != Normal(first) {
        assert raw in rest && FateOf(one, raw) == Deleted && one.routes[Normal(raw)] == inbox;
      }
    }
  }

  lemma BelowOneMore(inboxes: set<Path>, inbox: Path, path: Path)
    ensures IsBelow(inboxes + {inbox}, path) <==> IsBelow(inboxes, path) || Parent(inbox) <= path
  {
    if Parent(inbox) <= path {
      assert inbox in inboxes + {inbox};
    }
  }

  /** With its maildirs, a delete call takes all that lies below the mailbox directories of the addresses it deletes, and nothing
      else, however the directories are laid out; without them it takes no message at all. */
  lemma {:induction false} DeleteAllIs(store: Store, addrs: seq<string>, withMaildir: bool, l: Loc, m: Path)
    ensures var after, taken := DeleteAll(store, addrs, withMaildir), InboxesOf(store, addrs);
            (l in after.mail <==> l in store.mail && !(withMaildir && IsBelow(taken, l.inbox))) &&
            (l in after.mail ==> after.mail[l] == store.mail[l]) &&
            (m in after.markers <==> m in store.markers && !(withMaildir && IsBelow(taken, m)))
    decreases |addrs|
  {
    if addrs != [] {
      var one := DeleteOne(store, addrs[0], withMaildir);
      DeleteOneIs(store, addrs[0], withMaildir);
      DeleteAllIs(one, addrs[1..], withMaildir, l, m);
      InboxesAre(store, addrs, withMaildir);
      if FateOf(store, addrs[0]) == Deleted {
        BelowOneMore(InboxesOf(one, addrs[1..]), store.routes[Normal(addrs[0])], l.inbox);
        BelowOneMore(InboxesOf(one, addrs[1..]), store.routes[Normal(addrs[0])], m);
      }
    }
  }

  // ---------------------------------------------------------------- registration and delivery

  /** The directory that the site makes for an address. */
  function OwnDirectory(site: Site, addr: string): Path {
    site.base + ["fatmama-mailbox-" + (if Words(addr) == [] then "anon" else Join(Words(addr), "-")), "inbox"]
  }

  lemma InboxForIs(site: Site, addr: string)
    ensures InboxFor(site, addr) == OwnDirectory(site, addr)
  {
    SlugIs(addr);
  }

  /** A registration in production, or of an address the site does not take, changes nothing; any other gives the address its own
      directory unless it has one, takes the mark off it, and touches nothing else. */
  lemma RegisterIs(site: Site, store: Store, argument: string)
    requires Strip(Lower(argument)) == Lower(argument)
    ensures var after, addr := Register(site, store, argument), Lower(argument);
            if site.production || !IsRegistrable(site, addr) then after == store
            else
              after.mail == store.mail &&
              after.routes == store.routes[addr := if addr in store.routes then store.routes[addr] else OwnDirectory(site, addr)] &&
              after.markers == store.markers - {after.routes[addr]}
  {
    LowerTwice(argument);
    InboxForIs(site, Lower(argument));
    if Lower(argument) in store.routes {
      assert store.routes[Lower(argument) := store.routes[Lower(argument)]] == store.routes;
    }
  }

  /** A delivery to an unknown address of an auto-creating site gives it its own directory and marks that; the message goes into the
      `new/` of the recipient's inbox under its name, unless it could not be written or there is no inbox; nothing else changes. */
  lemma DeliverIs(site: Site, store: Store, rcpt: string, name: string, bytes: string, written: bool)
    requires Normal(rcpt) == rcpt == Lower(rcpt)
    ensures var after := Deliver(site, store, rcpt, name, bytes, written);
            var creates := site.autoCreate && rcpt !in store.routes && IsRegistrable(site, rcpt);
            after.routes == (if creates then store.routes[rcpt := OwnDirectory(site, rcpt)] else store.routes) &&
            after.markers == (if creates then store.markers + {OwnDirectory(site, rcpt)} else store.markers) &&
            after.mail == if written && rcpt in after.routes then store.mail[Loc(after.routes[rcpt], New, name) := bytes] else store.mail
  {
    InboxForIs(site, rcpt);
  }

  // ---------------------------------------------------------------- counters

  /** What the deliveries add to a counter by recipient, one after another. */
  function Counted(counts: map<string, nat>, deliveries: seq<(string, nat)>): map<string, nat>
    decreases |deliveries|
  {
    if deliveries == [] then counts
    else Counted(Bumped(counts, deliveries[0].0, deliveries[0].1), deliveries[1..])
  }

  /** The sum of what was delivered to one address. */
  function SumFor(deliveries: seq<(string, nat)>, addr: string): nat
    decreases |deliveries|
  {
    if deliveries == [] then 0
    else (if deliveries[0].0 == addr then deliveries[0].1 else 0) + SumFor(deliveries[1..], addr)
  }

  /** Over any deliveries the counter of each address is the sum of its own, and no other address gets one. */
  lemma {:induction false} CountedIs(counts: map<string, nat>, deliveries: seq<(string, nat)>, addr: string)
    ensures var after := Counted(counts, deliveries);
            (addr in after <==> addr in counts || exists i :: 0 <= i < |deliveries| && deliveries[i].0 == addr) &&
            (addr in after ==> after[addr] == (if addr in counts then counts[addr] else 0) + SumFor(deliveries, addr))
    decreases |deliveries|
  {
    if deliveries != [] {
      var first, rest := deliveries[0], deliveries[1..];
      CountedIs(Bumped(counts, first.0, first.1), rest, addr);
      if i :| 0 <= i < |deliveries| && deliveries[i].0 == addr {
        assert i > 0 ==> rest[i - 1].0 == addr;
      }
      if i :| 0 <= i < |rest| && rest[i].0 == addr {
        assert deliveries[i + 1].0 == addr;
      }
    }
  }
}
