/** FATMAMA's two collectors: one drains ANTIE's outboxes, the other its pickup directories. Each handles one file at
    a time; between dialling a peer and its answer anything may happen, and anything may fail. */
module Collector {
  import opened Text
  import opened MailStore
  import opened DeliveryAddress
  import opened Spacing

  datatype Agent = OutboxAgent | PickupAgent

  /** A file in the `new/` of an outbox, or of the pickup directory named after a domain. */
  datatype Item = Item(agent: Agent, dir: string, name: string)

  /** A file whose peer has been dialled and has not answered. */
  datatype Pending = Pending(item: Item, host: string, rcpt: string, raw: string)

  datatype World = World(routes: map<string, Path>, files: map<Item, string>, mail: map<Loc, string>,
                         lastDial: map<string, real>, pending: map<Agent, Pending>)

  const MIN_INTERVAL := 2.0

  /** The host names of this site, as derived from what it advertises when a file is looked at. */
  datatype Names = Names(mine: set<string>, advertised: set<string>)

  datatype Decision = Leave | Local(addr: string, inbox: Path) | Remote(host: string, rcpt: string)

  function ToMailbox(routes: map<string, Path>, addr: string): Decision {
    if addr in routes then Local(addr, routes[addr]) else Leave
  }

  /** Where a file goes. An outbox file goes by its `To:` header, a pickup file by its directory. */
  function Decide(site: Site, names: Names, routes: map<string, Path>, item: Item, raw: string): Decision {
    var rcpt := Recipient(raw);
    match item.agent
    case OutboxAgent =>
      if rcpt == "" then Leave
      else if rcpt in routes then Local(rcpt, routes[rcpt])
      else
        var (inner, host) := ParseDelivery(site, rcpt);
        if inner == "" then Leave
        else if host in names.mine then ToMailbox(routes, inner)
        else Remote(host, rcpt)
    case PickupAgent =>
      var domain := CanonicalHost(item.dir);
      if domain in names.mine || domain in names.advertised then
        if rcpt == "" then Leave else ToMailbox(routes, rcpt)
      else Remote(domain, if rcpt == "" then "pickup@" + domain else rcpt)
  }

  /** How a local delivery ends: nothing was copied; it was copied but the file could not be unlinked, or the server
      stopped between the two; or both were done. */
  datatype Outcome = Failed | Copied(name: string) | Moved(name: string)

  function FileLocally(w: World, item: Item, raw: string, inbox: Path, outcome: Outcome): World {
    match outcome
    case Failed => w
    case Copied(name) => w.(mail := w.mail[Loc(inbox, New, name) := raw])
    case Moved(name) => w.(mail := w.mail[Loc(inbox, New, name) := raw], files := w.files - {item})
  }

  function LastDial(w: World, host: string): real {
    if host in w.lastDial then w.lastDial[host] else 0.0
  }

  /** The body of a collector's loop up to the peer's answer. The clock is read twice: to check, and to record. */
  function Look(site: Site, names: Names, w: World, item: Item, now: real, later: real, outcome: Outcome): World {
    if item !in w.files then w
    else
      var raw := w.files[item];
      match Decide(site, names, w.routes, item, raw)
      case Leave => w
      case Local(_, inbox) => FileLocally(w, item, raw, inbox, outcome)
      case Remote(host, rcpt) =>
        if now - LastDial(w, host) < MIN_INTERVAL then w
        else w.(lastDial := w.lastDial[host := later], pending := w.pending[item.agent := Pending(item, host, rcpt, raw)])
  }

  /** The rest of it: a file leaves only when the peer has accepted it. */
  function Answer(w: World, agent: Agent, accepted: bool, unlinked: bool): World {
    if agent !in w.pending then w
    else
      var item := w.pending[agent].item;
      w.(pending := w.pending - {agent}, files := if accepted && unlinked then w.files - {item} else w.files)
  }

  class Collectors {
    const site: Site
    var routes: map<string, Path>
    var files: map<Item, string>
    var mail: map<Loc, string>
    var lastDial: map<string, real>
    var pending: map<Agent, Pending>

    function Contents(): World
      reads this
    {
      World(routes, files, mail, lastDial, pending)
    }

    constructor (site: Site, w: World)
      ensures this.site == site && Contents() == w
    {
      this.site := site;
      routes, files, mail, lastDial, pending := w.routes, w.files, w.mail, w.lastDial, w.pending;
    }

    /** `deliver_to_maildir` and the unlink after it. */
    method DeliverLocally(item: Item, raw: string, inbox: Path, outcome: Outcome)
      modifies this`mail, this`files
      ensures Contents() == FileLocally(old(Contents()), item, raw, inbox, outcome)
    {
      if outcome.Failed? {
        return;
      }
      mail := mail[Loc(inbox, New, outcome.name) := raw];
      if outcome.Moved? {
        files := files - {item};
      }
    }

    /** Dials a peer unless it was dialled too recently. */
    method MayDial(item: Item, host: string, rcpt: string, raw: string, now: real, later: real)
      modifies this`lastDial, this`pending
      ensures Contents() == if now - LastDial(old(Contents()), host) < MIN_INTERVAL then old(Contents())
                            else old(Contents()).(lastDial := old(lastDial)[host := later],
                                                  pending := old(pending)[item.agent := Pending(item, host, rcpt, raw)])
    {
      var last := if host in lastDial then lastDial[host] else 0.0;
      if now - last < MIN_INTERVAL {
        return;
      }
      lastDial := lastDial[host := later];
      pending := pending[item.agent := Pending(item, host, rcpt, raw)];
    }

    /** A file of an outbox, up to the peer's answer. */
    method CollectOutboxFile(item: Item, names: Names, now: real, later: real, outcome: Outcome)
      requires item.agent.OutboxAgent?
      modifies this`mail, this`files, this`lastDial, this`pending
      ensures Contents() == Look(site, names, old(Contents()), item, now, later, outcome)
    {
      if item !in files {
        return;
      }
      var raw := files[item];
      var rcpt := ParseRecipient(raw);
      if rcpt == "" {
        return;
      }
      if rcpt in routes {
        DeliverLocally(item, raw, routes[rcpt], outcome);
        return;
      }
      var (inner, host) := ParseDelivery(site, rcpt);
      if inner == "" {
        return;
      }
      if host in names.mine {
        if inner in routes {
          DeliverLocally(item, raw, routes[inner], outcome);
        }
        return;
      }
      MayDial(item, host, rcpt, raw, now, later);
    }

    /** A file of a pickup directory, up to the peer's answer. */
    method CollectPickupFile(item: Item, names: Names, now: real, later: real, outcome: Outcome)
      requires item.agent.PickupAgent?
      modifies this`mail, this`files, this`lastDial, this`pending
      ensures Contents() == Look(site, names, old(Contents()), item, now, later, outcome)
    {
      if item !in files {
        return;
      }
      var raw := files[item];
      var domain := CanonicalHost(item.dir);
      var rcpt := ParseRecipient(raw);
      if domain in names.mine || domain in names.advertised {
        if rcpt != "" && rcpt in routes {
          DeliverLocally(item, raw, routes[rcpt], outcome);
        }
        return;
      }
      MayDial(item, domain, if rcpt == "" then "pickup@" + domain else rcpt, raw, now, later);
    }

    method Answered(agent: Agent, accepted: bool, unlinked: bool)
      modifies this`files, this`pending
      ensures Contents() == Answer(old(Contents()), agent, accepted, unlinked)
    {
      if agent in pending {
        if accepted && unlinked {
          files := files - {pending[agent].item};
        }
        pending := pending - {agent};
      }
    }
  }

  // ---------------------------------------------------------------- runs

  datatype Receipt = Filed(addr: string, loc: Loc) | Accepted(host: string, rcpt: string)

  /** A dial, when it was recorded; or a restart, not before the clock was last read. */
  datatype DialMark = Dial(host: string, at: real) | Restarted(at: real)

  /** What has happened so far: every file ever written, every route ever loaded, every copy ever filed, everything a
      peer took, why each missing file is missing, and every dial and restart. */
  datatype Past = Past(written: map<Item, string>, routed: set<(string, Path)>, filed: map<Loc, string>,
                       taken: set<(string, string, string)>, receipts: map<Item, Receipt>, dials: seq<DialMark>)

  datatype Machine = Machine(w: World, past: Past, clock: real)

  datatype Step =
    | Write(item: Item, raw: string)
    | Reload(routes: map<string, Path>)
    | LookAt(item: Item, names: Names, now: real, later: real, outcome: Outcome)
    | PeerAnswers(agent: Agent, took: bool, accepted: bool, unlinked: bool)
    | Pulled(loc: Loc)
    | Restart

  /** File names are unique, a collector handles one file at a time, the clock does not go back, and a peer that answers
      250 took the message; one that took it may fail to answer. */
  ghost predicate Enabled(m: Machine, step: Step) {
    match step
    case Write(item, _) => item !in m.past.written
    case LookAt(item, _, now, later, outcome) =>
      item.agent !in m.w.pending && m.clock <= now <= later &&
      (!outcome.Failed? ==> forall l :: l in m.past.filed ==> l.name != outcome.name)
    case PeerAnswers(agent, took, accepted, _) => agent in m.w.pending && (accepted ==> took)
    case _ => true
  }

  function Pairs(routes: map<string, Path>): set<(string, Path)> {
    set a | a in routes :: (a, routes[a])
  }

  function Next(site: Site, m: Machine, step: Step): Machine {
    match step
    case Write(item, raw) =>
      m.(w := m.w.(files := m.w.files[item := raw]), past := m.past.(written := m.past.written[item := raw]))
    case Reload(routes) =>
      m.(w := m.w.(routes := routes), past := m.past.(routed := m.past.routed + Pairs(routes)))
    case LookAt(item, names, now, later, outcome) =>
      var after := Look(site, names, m.w, item, now, later, outcome);
      Machine(after, Looked(site, names, m, item, later, outcome, after), later)
    case PeerAnswers(agent, took, accepted, unlinked) =>
      var after := Answer(m.w, agent, accepted, unlinked);
      if agent !in m.w.pending then m
      else
        var p := m.w.pending[agent];
        m.(w := after,
           past := m.past.(taken := m.past.taken + if took then {(p.host, p.rcpt, p.raw)} else {},
                           receipts := if p.item in after.files then m.past.receipts
                                       else m.past.receipts[p.item := Accepted(p.host, p.rcpt)]))
    case Pulled(loc) => m.(w := m.w.(mail := m.w.mail - {loc}))
    case Restart =>
      m.(w := m.w.(lastDial := map[], pending := map[]), past := m.past.(dials := m.past.dials + [Restarted(m.clock)]))
  }

  function Looked(site: Site, names: Names, m: Machine, item: Item, later: real, outcome: Outcome, after: World): Past {
    if item !in m.w.files then m.past
    else
      var raw := m.w.files[item];
      match Decide(site, names, m.w.routes, item, raw)
      case Leave => m.past
      case Local(addr, inbox) =>
        if outcome.Failed? then m.past
        else
          var loc := Loc(inbox, New, outcome.name);
          m.past.(filed := m.past.filed[loc := raw],
                  receipts := if item in after.files then m.past.receipts
                              else m.past.receipts[item := Filed(addr, loc)])
      case Remote(host, _) =>
        if after == m.w then m.past else m.past.(dials := m.past.dials + [Dial(host, later)])
  }

  function After(site: Site, m: Machine, steps: seq<Step>): Machine
    decreases |steps|
  {
    if steps == [] then m else After(site, Next(site, m, steps[0]), steps[1..])
  }

  ghost predicate IsRun(site: Site, m: Machine, steps: seq<Step>)
    decreases |steps|
  {
    steps == [] || (Enabled(m, steps[0]) && IsRun(site, Next(site, m, steps[0]), steps[1..]))
  }

  // ---------------------------------------------------------------- no file is lost

  /** A receipt names a copy, or an acceptance, of exactly this file at the place it was meant for. */
  predicate IsRightful(site: Site, past: Past, item: Item, raw: string, receipt: Receipt) {
    match receipt
    case Filed(addr, loc) =>
      (addr == Recipient(raw) || (item.agent.OutboxAgent? && addr == ParseDelivery(site, Recipient(raw)).0)) &&
      (addr, loc.inbox) in past.routed && loc.sub == New && loc in past.filed && past.filed[loc] == raw
    case Accepted(host, rcpt) =>
      (host, rcpt, raw) in past.taken &&
      match item.agent
      case OutboxAgent => rcpt == Recipient(raw) && host == ParseDelivery(site, rcpt).1
      case PickupAgent => host == CanonicalHost(item.dir)
  }

  predicate IsKept(site: Site, m: Machine, item: Item, raw: string) {
    (item in m.w.files && m.w.files[item] == raw) ||
    (item !in m.w.files && item in m.past.receipts && IsRightful(site, m.past, item, raw, m.past.receipts[item]))
  }

  /** A pending file is still there, and was decided to go where it was sent. */
  predicate IsSound(site: Site, m: Machine, agent: Agent, p: Pending) {
    p.item.agent == agent && p.item in m.w.files && m.w.files[p.item] == p.raw &&
    match agent
    case OutboxAgent => p.rcpt == Recipient(p.raw) && p.host == ParseDelivery(site, p.rcpt).1
    case PickupAgent => p.host == CanonicalHost(p.item.dir)
  }

  predicate Conserved(site: Site, m: Machine) {
    (forall item :: item in m.past.written ==> IsKept(site, m, item, m.past.written[item])) &&
    (forall item :: item in m.w.files ==> item in m.past.written) &&
    Pairs(m.w.routes) <= m.past.routed &&
    forall agent :: agent in m.w.pending ==> IsSound(site, m, agent, m.w.pending[agent])
  }

  /** A history that grows keeps every receipt. */
  predicate Grows(before: Past, after: Past) {
    before.routed <= after.routed && before.taken <= after.taken &&
    forall l :: l in before.filed ==> l in after.filed && after.filed[l] == before.filed[l]
  }

  lemma GrowingKeeps(site: Site, before: Past, after: Past, item: Item, raw: string, receipt: Receipt)
    requires Grows(before, after) && IsRightful(site, before, item, raw, receipt)
    ensures IsRightful(site, after, item, raw, receipt)
  {
  }

  /** If a step grows the history and touches no other file or receipt, only `item` remains to be looked at. */
  lemma OthersKept(site: Site, m: Machine, after: Machine, item: Item)
    requires Conserved(site, m) && Grows(m.past, after.past)
    requires after.w.files - {item} == m.w.files - {item} && after.past.receipts - {item} == m.past.receipts - {item}
    ensures forall other :: other in m.past.written && other != item ==> IsKept(site, after, other, m.past.written[other])
  {
    forall other | other in m.past.written && other != item
      ensures IsKept(site, after, other, m.past.written[other])
    {
      var raw := m.past.written[other];
      assert IsKept(site, m, other, raw);
      assert other in after.w.files <==> other in after.w.files - {item};
      assert other in m.w.files <==> other in m.w.files - {item};
      assert other in after.past.receipts <==> other in after.past.receipts - {item};
      assert other in m.past.receipts <==> other in m.past.receipts - {item};
      if other !in m.w.files {
        GrowingKeeps(site, m.past, after.past, other, raw, m.past.receipts[other]);
      }
    }
  }

  lemma PairIn(routes: map<string, Path>, addr: string)
    ensures addr in routes ==> (addr, routes[addr]) in Pairs(routes)
  {
  }

  /** What a look at a file for a local mailbox does. */
  lemma LocalLook(site: Site, m: Machine, step: Step, addr: string, inbox: Path)
    requires step.LookAt? && step.item in m.w.files
    requires Decide(site, step.names, m.w.routes, step.item, m.w.files[step.item]) == Local(addr, inbox)
    ensures var after := Next(site, m, step);
            var raw := m.w.files[step.item];
            var done := step.outcome.Moved?;
            after.w == FileLocally(m.w, step.item, raw, inbox, step.outcome) &&
            after.past == (if step.outcome.Failed? then m.past
                           else m.past.(filed := m.past.filed[Loc(inbox, New, step.outcome.name) := raw],
                                        receipts := if done then m.past.receipts[step.item := Filed(addr, Loc(inbox, New, step.outcome.name))]
                                                    else m.past.receipts))
  {
  }

  lemma LocalAddress(site: Site, names: Names, routes: map<string, Path>, item: Item, raw: string, addr: string, inbox: Path)
    requires Decide(site, names, routes, item, raw) == Local(addr, inbox)
    ensures addr in routes && routes[addr] == inbox
    ensures addr == Recipient(raw) || (item.agent.OutboxAgent? && addr == ParseDelivery(site, Recipient(raw)).0)
  {
  }

  lemma ConservedLocal(site: Site, m: Machine, step: Step, addr: string, inbox: Path)
    requires Conserved(site, m) && Enabled(m, step) && step.LookAt? && step.item in m.w.files
    requires Decide(site, step.names, m.w.routes, step.item, m.w.files[step.item]) == Local(addr, inbox)
    ensures Conserved(site, Next(site, m, step))
  {
    var after, raw := Next(site, m, step), m.w.files[step.item];
    LocalLook(site, m, step, addr, inbox);
    OthersKept(site, m, after, step.item);
    assert IsKept(site, m, step.item, m.past.written[step.item]);
    assert IsKept(site, after, step.item, raw) by {
      LocalAddress(site, step.names, m.w.routes, step.item, raw, addr, inbox);
      PairIn(m.w.routes, addr);
    }
    forall agent | agent in m.w.pending
      ensures IsSound(site, after, agent, m.w.pending[agent])
    {
      assert IsSound(site, m, agent, m.w.pending[agent]);
    }
  }

  /** What a look at a file for a remote host does: nothing, or one dial. */
  lemma RemoteLook(site: Site, m: Machine, step: Step, host: string, rcpt: string)
    requires step.LookAt? && step.item in m.w.files
    requires Decide(site, step.names, m.w.routes, step.item, m.w.files[step.item]) == Remote(host, rcpt)
    ensures var after := Next(site, m, step);
            var p := Pending(step.item, host, rcpt, m.w.files[step.item]);
            after.clock == step.later &&
            (step.now - LastDial(m.w, host) < MIN_INTERVAL ==> after.w == m.w && after.past == m.past) &&
            (step.now - LastDial(m.w, host) >= MIN_INTERVAL && step.item.agent !in m.w.pending ==>
               after.w == m.w.(lastDial := m.w.lastDial[host := step.later], pending := m.w.pending[step.item.agent := p]) &&
               after.past == m.past.(dials := m.past.dials + [Dial(host, step.later)]))
  {
    var after := Next(site, m, step);
    assert after.w == m.w || step.item.agent in after.w.pending;
  }

  lemma RemoteHost(site: Site, names: Names, routes: map<string, Path>, item: Item, raw: string, host: string, rcpt: string)
    requires Decide(site, names, routes, item, raw) == Remote(host, rcpt)
    ensures match item.agent
            case OutboxAgent => rcpt == Recipient(raw) && host == ParseDelivery(site, rcpt).1
            case PickupAgent => host == CanonicalHost(item.dir)
  {
  }

  /** Files, routes and receipts as before, and nothing pending that should not be. */
  lemma ConservedByPending(site: Site, m: Machine, after: Machine)
    requires Conserved(site, m)
    requires after.w.files == m.w.files && after.w.routes == m.w.routes && after.past.written == m.past.written
    requires after.past.receipts == m.past.receipts && Grows(m.past, after.past)
    requires forall agent :: agent in after.w.pending ==> IsSound(site, after, agent, after.w.pending[agent])
    ensures Conserved(site, after)
  {
    forall item | item in m.past.written
      ensures IsKept(site, after, item, m.past.written[item])
    {
      assert IsKept(site, m, item, m.past.written[item]);
    }
  }

  lemma ConservedRemote(site: Site, m: Machine, step: Step, host: string, rcpt: string)
    requires Conserved(site, m) && Enabled(m, step) && step.LookAt? && step.item in m.w.files
    requires Decide(site, step.names, m.w.routes, step.item, m.w.files[step.item]) == Remote(host, rcpt)
    ensures Conserved(site, Next(site, m, step))
  {
    var after := Next(site, m, step);
    RemoteLook(site, m, step, host, rcpt);
    RemoteHost(site, step.names, m.w.routes, step.item, m.w.files[step.item], host, rcpt);
    forall agent | agent in after.w.pending
      ensures IsSound(site, after, agent, after.w.pending[agent])
    {
      assert agent in m.w.pending ==> IsSound(site, m, agent, m.w.pending[agent]);
    }
    ConservedByPending(site, m, after);
  }

  lemma ConservedAnswer(site: Site, m: Machine, step: Step)
    requires Conserved(site, m) && Enabled(m, step) && step.PeerAnswers?
    ensures Conserved(site, Next(site, m, step))
  {
    var after := Next(site, m, step);
    var p := m.w.pending[step.agent];
    assert IsKept(site, m, p.item, m.past.written[p.item]);
    OthersKept(site, m, after, p.item);
    forall agent | agent in after.w.pending
      ensures IsSound(site, after, agent, after.w.pending[agent])
    {
      assert IsSound(site, m, agent, m.w.pending[agent]);
    }
  }

  lemma ConservedWrite(site: Site, m: Machine, step: Step)
    requires Conserved(site, m) && Enabled(m, step) && step.Write?
    ensures Conserved(site, Next(site, m, step))
  {
    OthersKept(site, m, Next(site, m, step), step.item);
  }

  lemma ConservedStep(site: Site, m: Machine, step: Step)
    requires Conserved(site, m) && Enabled(m, step)
    ensures Conserved(site, Next(site, m, step))
  {
    match step {
      case Write(_, _) => ConservedWrite(site, m, step);
      case LookAt(item, names, _, _, _) =>
        if item in m.w.files {
          match Decide(site, names, m.w.routes, item, m.w.files[item])
          case Leave =>
          case Local(addr, inbox) => ConservedLocal(site, m, step, addr, inbox);
          case Remote(host, rcpt) => ConservedRemote(site, m, step, host, rcpt);
        }
      case PeerAnswers(_, _, _, _) => ConservedAnswer(site, m, step);
      case _ =>
    }
  }

  lemma {:induction false} ConservedRun(site: Site, m: Machine, steps: seq<Step>)
    requires Conserved(site, m) && IsRun(site, m, steps)
    ensures Conserved(site, After(site, m, steps))
    decreases |steps|
  {
    if steps != [] {
      ConservedStep(site, m, steps[0]);
      ConservedRun(site, Next(site, m, steps[0]), steps[1..]);
    }
  }

  /** A server that starts with what its disk holds and has dialled no one. */
  predicate IsStart(m: Machine) {
    m.past == Past(m.w.files, Pairs(m.w.routes), m.w.mail, {}, map[], []) &&
    m.w.pending == map[] && m.w.lastDial == map[]
  }

  /** Over every run, with any deliveries, unlinks and peers failing and restarts at any moment: each file ever written
      is still there unchanged, or a copy of it was filed in the `new/` of a mailbox its recipient was routed to, or
      the peer its address names took it. */
  lemma NoFileLost(site: Site, start: Machine, steps: seq<Step>, item: Item)
    requires IsStart(start) && IsRun(site, start, steps)
    requires item in After(site, start, steps).past.written
    ensures var end := After(site, start, steps);
            IsKept(site, end, item, end.past.written[item])
  {
    ConservedRun(site, start, steps);
  }

  // ---------------------------------------------------------------- dials are spaced

  /** What the dials to one host look like: events, and a reset for each restart. */
  function MarksOf(dials: seq<DialMark>, host: string): seq<Mark> {
    if dials == [] then []
    else
      var earlier := MarksOf(dials[..|dials| - 1], host);
      var last := dials[|dials| - 1];
      if last.Restarted? then earlier + [Reset(last.at)]
      else if last.host == host then earlier + [Event(last.at)]
      else earlier
  }

  predicate HostIsSpaced(m: Machine, host: string) {
    var marks := MarksOf(m.past.dials, host);
    IsSpaced(marks, MIN_INTERVAL) &&
    (marks != [] ==>
       var last := marks[|marks| - 1];
       last.at <= m.clock && (last.Event? ==> host in m.w.lastDial && m.w.lastDial[host] == last.at))
  }

  lemma MarksOfOneMore(dials: seq<DialMark>, dial: DialMark, host: string)
    ensures MarksOf(dials + [dial], host) ==
            if dial.Restarted? then MarksOf(dials, host) + [Reset(dial.at)]
            else if dial.host == host then MarksOf(dials, host) + [Event(dial.at)]
            else MarksOf(dials, host)
  {
    assert (dials + [dial])[..|dials|] == dials;
  }

  /** A step dials no one, or one host that was last dialled long enough ago; or it restarts the server. */
  predicate DialsNoneOrOne(before: Machine, after: Machine) {
    before.clock <= after.clock &&
    ((after.past.dials == before.past.dials && after.w.lastDial == before.w.lastDial) ||
     (after.past.dials == before.past.dials + [Restarted(before.clock)] && after.w.lastDial == map[]) ||
     (|after.past.dials| == |before.past.dials| + 1 &&
      var dial := after.past.dials[|before.past.dials|];
      dial.Dial? && after.past.dials == before.past.dials + [dial] && dial.at == after.clock &&
      after.w.lastDial == before.w.lastDial[dial.host := dial.at] &&
      LastDial(before.w, dial.host) + MIN_INTERVAL <= dial.at))
  }

  lemma StepDials(site: Site, m: Machine, step: Step)
    requires Enabled(m, step)
    ensures DialsNoneOrOne(m, Next(site, m, step))
  {
    if step.LookAt? && step.item in m.w.files {
      match Decide(site, step.names, m.w.routes, step.item, m.w.files[step.item])
      case Leave =>
      case Local(_, _) =>
      case Remote(host, rcpt) => RemoteLook(site, m, step, host, rcpt);
    }
  }

  lemma HostAfterRestart(before: Machine, after: Machine, host: string)
    requires HostIsSpaced(before, host) && before.clock <= after.clock
    requires after.past.dials == before.past.dials + [Restarted(before.clock)] && after.w.lastDial == map[]
    ensures HostIsSpaced(after, host)
  {
    MarksOfOneMore(before.past.dials, Restarted(before.clock), host);
    SpacedOneMore(MarksOf(before.past.dials, host), Reset(before.clock), MIN_INTERVAL);
  }

  lemma HostAfterDial(before: Machine, after: Machine, host: string, to: string)
    requires HostIsSpaced(before, host) && before.clock <= after.clock
    requires after.past.dials == before.past.dials + [Dial(to, after.clock)]
    requires after.w.lastDial == before.w.lastDial[to := after.clock]
    requires LastDial(before.w, to) + MIN_INTERVAL <= after.clock
    ensures HostIsSpaced(after, host)
  {
    MarksOfOneMore(before.past.dials, Dial(to, after.clock), host);
    if to == host {
      SpacedOneMore(MarksOf(before.past.dials, host), Event(after.clock), MIN_INTERVAL);
    }
  }

  lemma HostStaysSpaced(before: Machine, after: Machine, host: string)
    requires HostIsSpaced(before, host) && DialsNoneOrOne(before, after)
    ensures HostIsSpaced(after, host)
  {
    if after.past.dials != before.past.dials {
      var dial := after.past.dials[|before.past.dials|];
      if dial.Restarted? {
        HostAfterRestart(before, after, host);
      } else {
        HostAfterDial(before, after, host, dial.host);
      }
    }
  }

  lemma {:induction false} HostSpacedRun(site: Site, m: Machine, steps: seq<Step>, host: string)
    requires HostIsSpaced(m, host) && IsRun(site, m, steps)
    ensures HostIsSpaced(After(site, m, steps), host)
    decreases |steps|
  {
    if steps != [] {
      StepDials(site, m, steps[0]);
      HostStaysSpaced(m, Next(site, m, steps[0]), host);
      HostSpacedRun(site, Next(site, m, steps[0]), steps[1..], host);
    }
  }

  /** Over every run: both collectors together dial one host at most floor(T / 2) + 1 times in any T seconds, and once more
      for each restart in them. */
  lemma DialBound(site: Site, start: Machine, steps: seq<Step>, host: string, from: real, to: real)
    requires IsStart(start) && IsRun(site, start, steps) && from <= to
    ensures var marks := MarksOf(After(site, start, steps).past.dials, host);
            CountEvents(marks, from, to) <= Quotient(to - from, MIN_INTERVAL) + 1 + CountResets(marks, from, to)
  {
    HostSpacedRun(site, start, steps, host);
    AtMostInWindow(MarksOf(After(site, start, steps).past.dials, host), MIN_INTERVAL, from, to);
  }

  // ---------------------------------------------------------------- and the bound is reached

  lemma {:induction false} RunOneMore(site: Site, m: Machine, steps: seq<Step>, step: Step)
    requires IsRun(site, m, steps) && Enabled(After(site, m, steps), step)
    ensures IsRun(site, m, steps + [step]) && After(site, m, steps + [step]) == Next(site, After(site, m, steps), step)
    decreases |steps|
  {
    if steps == [] {
      assert [] + [step] == [step] && [step][1..] == [];
    } else {
      assert (steps + [step])[1..] == steps[1..] + [step];
      RunOneMore(site, Next(site, m, steps[0]), steps[1..], step);
    }
  }

  /** At the moment `at`, having dialled `host` again after each of `r` restarts. */
  predicate IsDialledOften(start: Machine, m: Machine, host: string, at: real, r: nat) {
    var marks := MarksOf(m.past.dials, host);
    m.clock == at && m.w.files == start.w.files && m.w.routes == start.w.routes &&
    CountEvents(marks, at, at) == r + 1 && CountResets(marks, at, at) == r
  }

  /** A dial at the moment `at` by a server that remembers none. */
  lemma DialsAgain(site: Site, m: Machine, again: Step, host: string, rcpt: string, at: real)
    requires again.LookAt? && again.now == again.later == at && again.item in m.w.files
    requires Decide(site, again.names, m.w.routes, again.item, m.w.files[again.item]) == Remote(host, rcpt)
    requires m.clock <= at && at >= MIN_INTERVAL && m.w.lastDial == map[] && m.w.pending == map[] && again.outcome.Failed?
    ensures var after := Next(site, m, again);
            Enabled(m, again) && after.clock == at && after.w.files == m.w.files && after.w.routes == m.w.routes &&
            CountEvents(MarksOf(after.past.dials, host), at, at) == CountEvents(MarksOf(m.past.dials, host), at, at) + 1 &&
            CountResets(MarksOf(after.past.dials, host), at, at) == CountResets(MarksOf(m.past.dials, host), at, at)
  {
    RemoteLook(site, m, again, host, rcpt);
    MarksOfOneMore(m.past.dials, Dial(host, at), host);
    CountOneMore(MarksOf(m.past.dials, host), Event(at), at);
  }

  lemma CountOneMore(marks: seq<Mark>, mark: Mark, at: real)
    requires mark.at == at
    ensures CountEvents(marks + [mark], at, at) == CountEvents(marks, at, at) + (if mark.Event? then 1 else 0)
    ensures CountResets(marks + [mark], at, at) == CountResets(marks, at, at) + (if mark.Reset? then 1 else 0)
  {
    assert (marks + [mark])[..|marks|] == marks;
  }

  lemma RestartMarks(site: Site, m: Machine, host: string, at: real)
    requires m.clock == at
    ensures var after := Next(site, m, Restart);
            CountEvents(MarksOf(after.past.dials, host), at, at) == CountEvents(MarksOf(m.past.dials, host), at, at) &&
            CountResets(MarksOf(after.past.dials, host), at, at) == CountResets(MarksOf(m.past.dials, host), at, at) + 1
  {
    MarksOfOneMore(m.past.dials, Restarted(at), host);
    CountOneMore(MarksOf(m.past.dials, host), Reset(at), at);
  }

  /** A restart forgets the last dial. From any start with a file for a remote host there is, for every r, a run that
      restarts r times and dials that host r + 1 times within no time at all: the bound is reached. */
  lemma {:induction false} RestartsReachBound(site: Site, start: Machine, item: Item, names: Names, host: string, rcpt: string,
                                              at: real, r: nat) returns (steps: seq<Step>)
    requires IsStart(start) && start.clock <= at && at >= MIN_INTERVAL && item in start.w.files
    requires Decide(site, names, start.w.routes, item, start.w.files[item]) == Remote(host, rcpt)
    ensures IsRun(site, start, steps) && IsDialledOften(start, After(site, start, steps), host, at, r)
    ensures CountEvents(MarksOf(After(site, start, steps).past.dials, host), at, at) == Quotient(at - at, MIN_INTERVAL) + 1 + r
  {
    var again := LookAt(item, names, at, at, Failed);
    QuotientOfNothing();
    if r == 0 {
      assert MarksOf(start.past.dials, host) == [];
      DialsAgain(site, start, again, host, rcpt, at);
      assert IsRun(site, start, []) && After(site, start, []) == start;
      RunOneMore(site, start, [], again);
      steps := [] + [again];
    } else {
      var before := RestartsReachBound(site, start, item, names, host, rcpt, at, r - 1);
      var m := After(site, start, before);
      RunOneMore(site, start, before, Restart);
      RestartMarks(site, m, host, at);
      DialsAgain(site, Next(site, m, Restart), again, host, rcpt, at);
      RunOneMore(site, start, before + [Restart], again);
      steps := before + [Restart] + [again];
    }
  }

  lemma QuotientOfNothing()
    ensures Quotient(0.0, MIN_INTERVAL) == 0
  {
  }
}
