/** That the collectors do what they are for: which files leave, and where to; which are left in place; and when a peer is
    dialled. */
module CollectorProgress {
  import opened Text
  import opened MailStore
  import opened DeliveryAddress
  import opened Collector

  // ---------------------------------------------------------------- mail for this site

  /** The file is gone, and a copy of it lies in the `new/` of the inbox under the given name; nothing else has changed. */
  predicate IsMoved(before: World, after: World, item: Item, inbox: Path, name: string)
    requires item in before.files
  {
    after == before.(files := before.files - {item}, mail := before.mail[Loc(inbox, New, name) := before.files[item]])
  }

  /** An outbox file for an address with a mailbox here is delivered to that mailbox. */
  lemma HomeMailIsDelivered(site: Site, names: Names, w: World, item: Item, now: real, later: real, name: string)
    requires item in w.files && item.agent.OutboxAgent?
    requires Recipient(w.files[item]) != "" && Recipient(w.files[item]) in w.routes
    ensures IsMoved(w, Look(site, names, w, item, now, later, Moved(name)), item, w.routes[Recipient(w.files[item])], name)
  {
  }

  /** So is one for an address without a mailbox here that is wrapped for a host of this site, to the mailbox of the address
      inside. */
  lemma WrappedMailIsDelivered(site: Site, names: Names, w: World, item: Item, now: real, later: real, name: string,
                               inner: string, host: string)
    requires item in w.files && item.agent.OutboxAgent? && Recipient(w.files[item]) !in w.routes
    requires IsWrapped(site, Recipient(w.files[item]), inner, host) && host in names.mine && inner in w.routes
    ensures IsMoved(w, Look(site, names, w, item, now, later, Moved(name)), item, w.routes[inner], name)
  {
    ParseDeliveryIff(site, Recipient(w.files[item]), inner, host);
  }

  /** And one in a pickup directory named after a host of this site. */
  lemma PickupMailIsDelivered(site: Site, names: Names, w: World, item: Item, now: real, later: real, name: string)
    requires item in w.files && item.agent.PickupAgent?
    requires CanonicalHost(item.dir) in names.mine || CanonicalHost(item.dir) in names.advertised
    requires Recipient(w.files[item]) != "" && Recipient(w.files[item]) in w.routes
    ensures IsMoved(w, Look(site, names, w, item, now, later, Moved(name)), item, w.routes[Recipient(w.files[item])], name)
  {
  }

  // ---------------------------------------------------------------- mail for elsewhere

  /** The host a file is for, when that is not this site: for an outbox file the one its recipient, who has no mailbox here, is
      wrapped for; for a pickup file the one its directory is named after. */
  ghost predicate IsForHost(site: Site, names: Names, routes: map<string, Path>, item: Item, raw: string, host: string) {
    match item.agent
    case OutboxAgent =>
      Recipient(raw) != "" && Recipient(raw) !in routes && host !in names.mine && exists inner: string :: IsWrapped(site, Recipient(raw), inner, host)
    case PickupAgent =>
      host == CanonicalHost(item.dir) && host !in names.mine && host !in names.advertised
  }

  function NamedFor(raw: string, host: string): string {
    if Recipient(raw) == "" then "pickup@" + host else Recipient(raw)
  }

  lemma ForHostIsRemote(site: Site, names: Names, routes: map<string, Path>, item: Item, raw: string, host: string)
    requires IsForHost(site, names, routes, item, raw, host)
    ensures Decide(site, names, routes, item, raw) == Remote(host, NamedFor(raw, host))
  {
    if item.agent.OutboxAgent? {
      var inner: string :| IsWrapped(site, Recipient(raw), inner, host);
      ParseDeliveryIff(site, Recipient(raw), inner, host);
    }
  }

  /** A look at a file for a host, and the host's answer. */
  lemma RemoteIsOffered(site: Site, names: Names, w: World, item: Item, now: real, later: real, outcome: Outcome,
                        host: string, rcpt: string, raw: string, accepted: bool, unlinked: bool)
    requires item in w.files && w.files[item] == raw && Decide(site, names, w.routes, item, raw) == Remote(host, rcpt)
    requires item.agent !in w.pending
    ensures var looked := Look(site, names, w, item, now, later, outcome);
            if now - LastDial(w, host) < MIN_INTERVAL then looked == w
            else
              looked == w.(lastDial := w.lastDial[host := later], pending := w.pending[item.agent := Pending(item, host, rcpt, raw)]) &&
              Answer(looked, item.agent, accepted, unlinked) ==
                w.(lastDial := w.lastDial[host := later], files := if accepted && unlinked then w.files - {item} else w.files)
  {
    assert w.pending[item.agent := Pending(item, host, rcpt, raw)] - {item.agent} == w.pending;
  }

  /** Such a file is offered to that host, under the address in its header, unless the host was dialled less than two seconds ago;
      and it leaves exactly when the host accepts it and it can be unlinked. */
  lemma ForeignMailIsOffered(site: Site, names: Names, w: World, item: Item, now: real, later: real, outcome: Outcome,
                             host: string, raw: string, accepted: bool, unlinked: bool)
    requires item in w.files && w.files[item] == raw && IsForHost(site, names, w.routes, item, raw, host) && item.agent !in w.pending
    ensures var looked := Look(site, names, w, item, now, later, outcome);
            if now - (if host in w.lastDial then w.lastDial[host] else 0.0) < 2.0 then looked == w
            else
              looked == w.(lastDial := w.lastDial[host := later],
                           pending := w.pending[item.agent := Pending(item, host, NamedFor(raw, host), raw)]) &&
              Answer(looked, item.agent, accepted, unlinked) ==
                w.(lastDial := w.lastDial[host := later], files := if accepted && unlinked then w.files - {item} else w.files)
  {
    ForHostIsRemote(site, names, w.routes, item, raw, host);
    RemoteIsOffered(site, names, w, item, now, later, outcome, host, NamedFor(raw, host), raw, accepted, unlinked);
  }

  // ---------------------------------------------------------------- what is left in place

  /** No recipient is named; or he has no mailbox here, and his address is wrapped for no host, or for one of this site where the
      address inside has no mailbox either. */
  ghost predicate HasNowhereToGo(site: Site, names: Names, routes: map<string, Path>, item: Item, raw: string) {
    var rcpt := Recipient(raw);
    match item.agent
    case OutboxAgent =>
      rcpt == "" ||
      (rcpt !in routes &&
       forall inner: string, host: string :: IsWrapped(site, rcpt, inner, host) ==> host in names.mine && inner !in routes)
    case PickupAgent =>
      (CanonicalHost(item.dir) in names.mine || CanonicalHost(item.dir) in names.advertised) && (rcpt == "" || rcpt !in routes)
  }

  /** The look at a file and, if a peer was dialled, its answer, when nothing fails. */
  function Handled(site: Site, names: Names, w: World, item: Item, now: real, later: real, name: string): World {
    var looked := Look(site, names, w, item, now, later, Moved(name));
    if item.agent in looked.pending then Answer(looked, item.agent, true, true) else looked
  }

  /** No host was dialled less than two seconds ago. */
  predicate IsRested(w: World, now: real) {
    now >= 2.0 && forall host :: host in w.lastDial ==> now - w.lastDial[host] >= 2.0
  }

  lemma WrapsAre(site: Site, rcpt: string)
    ensures var (inner, host) := ParseDelivery(site, rcpt);
            forall i: string, h: string :: IsWrapped(site, rcpt, i, h) <==> inner != "" && i == inner && h == host
  {
    forall i: string, h: string
      ensures var (inner, host) := ParseDelivery(site, rcpt);
              IsWrapped(site, rcpt, i, h) <==> inner != "" && i == inner && h == host
    {
      ParseDeliveryIff(site, rcpt, i, h);
    }
  }

  lemma OutboxStaysIff(site: Site, names: Names, routes: map<string, Path>, rcpt: string, inner: string, host: string)
    requires ParseDelivery(site, rcpt) == (inner, host)
    ensures (forall i: string, h: string :: IsWrapped(site, rcpt, i, h) ==> h in names.mine && i !in routes) <==>
            inner == "" || (host in names.mine && inner !in routes)
  {
    WrapsAre(site, rcpt);
    assert inner != "" ==> IsWrapped(site, rcpt, inner, host);
  }

  lemma NowhereToGoIff(site: Site, names: Names, routes: map<string, Path>, item: Item, raw: string)
    ensures HasNowhereToGo(site, names, routes, item, raw) <==> Decide(site, names, routes, item, raw) == Leave
  {
    if item.agent.OutboxAgent? {
      var (inner, host) := ParseDelivery(site, Recipient(raw));
      OutboxStaysIff(site, names, routes, Recipient(raw), inner, host);
    }
  }

  /** When nothing fails and no peer was dialled just before, exactly the files that have nowhere to go are left in place. */
  lemma LeftInPlaceIff(site: Site, names: Names, w: World, item: Item, now: real, later: real, name: string)
    requires item in w.files && item.agent !in w.pending && IsRested(w, now)
    ensures item in Handled(site, names, w, item, now, later, name).files <==>
            HasNowhereToGo(site, names, w.routes, item, w.files[item])
  {
    var raw := w.files[item];
    NowhereToGoIff(site, names, w.routes, item, raw);
    match Decide(site, names, w.routes, item, raw) {
      case Leave =>
      case Local(_, _) =>
      case Remote(host, rcpt) => RemoteIsOffered(site, names, w, item, now, later, Moved(name), host, rcpt, raw, true, true);
    }
  }

  // ---------------------------------------------------------------- when a peer is dialled

  /** When a host was last dialled since the last restart. */
  function LastDialOf(dials: seq<DialMark>, host: string): Option<real> {
    if dials == [] then None
    else
      var last := dials[|dials| - 1];
      if last.Restarted? then None
      else if last.host == host then Some(last.at)
      else LastDialOf(dials[..|dials| - 1], host)
  }

  predicate RemembersDial(m: Machine, host: string) {
    (host in m.w.lastDial <==> LastDialOf(m.past.dials, host).Some?) &&
    (host in m.w.lastDial ==> LastDialOf(m.past.dials, host) == Some(m.w.lastDial[host]))
  }

  lemma DialOneMore(dials: seq<DialMark>, dial: DialMark, host: string)
    ensures LastDialOf(dials + [dial], host) ==
            if dial.Restarted? then None else if dial.host == host then Some(dial.at) else LastDialOf(dials, host)
  {
    assert (dials + [dial])[..|dials|] == dials;
  }

  lemma {:induction false} RemembersRun(site: Site, m: Machine, steps: seq<Step>, host: string)
    requires RemembersDial(m, host) && IsRun(site, m, steps)
    ensures RemembersDial(After(site, m, steps), host)
    decreases |steps|
  {
    if steps != [] {
      var after := Next(site, m, steps[0]);
      StepDials(site, m, steps[0]);
      if after.past.dials != m.past.dials {
        DialOneMore(m.past.dials, after.past.dials[|m.past.dials|], host);
      }
      RemembersRun(site, after, steps[1..], host);
    }
  }

  /** Over every run: a look at a file for another host dials it exactly when two seconds have passed since it was last dialled, by
      either collector and since the last restart, or since the clock's zero if it never was. */
  lemma DialsIff(site: Site, start: Machine, steps: seq<Step>, item: Item, names: Names, now: real, later: real, outcome: Outcome, host: string)
    requires IsStart(start) && IsRun(site, start, steps)
    requires var m := After(site, start, steps);
             Enabled(m, LookAt(item, names, now, later, outcome)) && item in m.w.files &&
             IsForHost(site, names, m.w.routes, item, m.w.files[item], host)
    ensures var m := After(site, start, steps);
            var after := Next(site, m, LookAt(item, names, now, later, outcome));
            var last := match LastDialOf(m.past.dials, host) { case Some(at) => at case None => 0.0 };
            after.past.dials == if now - last >= 2.0 then m.past.dials + [Dial(host, later)] else m.past.dials
  {
    var m := After(site, start, steps);
    RemembersRun(site, start, steps, host);
    var raw := m.w.files[item];
    ForHostIsRemote(site, names, m.w.routes, item, raw, host);
    RemoteLook(site, m, LookAt(item, names, now, later, outcome), host, NamedFor(raw, host));
  }
}
