/** ANTIE's pull funnel on IMAP UIDs: fetch, stage in the inbox's `new/`, delete upstream, dispatch to `cur/`. Every
    await is a step of its own, so that the dispatcher, new arrivals and crashes can come between any two. */
module Funnel {
  import opened Text
  import opened Streams
  import I = ImapWire

  datatype Message = Message(uid: nat, raw: string)

  /** The IMAP mailbox, and the inbox maildir by file name. */
  datatype World = World(mail: map<nat, string>, seen: set<nat>, flagged: set<nat>, nextUid: nat,
                         inTmp: map<string, string>, inNew: map<string, string>, inCur: map<string, string>)

  /** Where the pull loop is: what it has still to fetch and has fetched, or to stage. */
  datatype Phase =
    | Idle
    | Fetching(todo: seq<nat>, got: seq<Message>)
    | Staging(msgs: seq<Message>)
    | Written(name: string, msgs: seq<Message>)
    | Staged(msgs: seq<Message>)
    | Flagged(msgs: seq<Message>)

  /** Everything the server sends after one FETCH, until its answer or the end of the connection. */
  datatype FetchReply = FetchReply(tag: string, text: string)

  /** What the reader makes of it: some data, or an error. */
  function Reads(reply: FetchReply): Option<string> {
    match I.Fetch(reply.text, reply.tag)
    case None => None
    case Some((data, _)) => Some(data)
  }

  // ---------------------------------------------------------------- what one await does

  function WriteTmp(w: World, name: string, raw: string): World {
    w.(inTmp := w.inTmp[name := raw])
  }

  function MoveToNew(w: World, name: string): World {
    if name in w.inTmp then w.(inTmp := w.inTmp - {name}, inNew := w.inNew[name := w.inTmp[name]]) else w
  }

  /** `UID STORE uid +FLAGS (\Deleted)` */
  function Flag(w: World, uid: nat): World {
    if uid in w.mail then w.(flagged := w.flagged + {uid}) else w
  }

  /** `EXPUNGE` removes every message that is flagged, not only the one at hand. */
  function Expunge(w: World): World {
    w.(mail := w.mail - w.flagged, flagged := {})
  }

  /** The dispatcher's `mark_processed`. */
  function MoveToCur(w: World, name: string): World {
    if name in w.inNew then w.(inNew := w.inNew - {name}, inCur := w.inCur[name + ":2,S" := w.inNew[name]]) else w
  }

  // ---------------------------------------------------------------- the code between the awaits

  /** How the awaits for one message turn out; a reply that is lost leaves the deed done. */
  datatype Fate = Fate(name: string, wrote: bool, moved: bool, flagged: bool, reported: bool, expunged: bool)

  /** `write_message` and then `mark_processed`, each stopping at the first error it sees. */
  function HandleOne(w: World, msg: Message, fate: Fate): World {
    if !fate.wrote then w
    else
      var written := WriteTmp(w, fate.name, msg.raw);
      if !fate.moved then written
      else
        var staged := MoveToNew(written, fate.name);
        var flagged := if fate.flagged then Flag(staged, msg.uid) else staged;
        if fate.reported && fate.expunged then Expunge(flagged) else flagged
  }

  function HandleAll(w: World, msgs: seq<Message>, fates: seq<Fate>): World
    requires |fates| == |msgs|
    decreases |msgs|
  {
    if msgs == [] then w else HandleAll(HandleOne(w, msgs[0], fates[0]), msgs[1..], fates[1..])
  }

  /** The messages fetched so far and those to come; one error gives up all of them. */
  function FetchAll(uids: seq<nat>, replies: seq<FetchReply>, got: seq<Message>): Option<seq<Message>>
    requires |replies| == |uids|
    decreases |uids|
  {
    if uids == [] then Some(got)
    else match Reads(replies[0])
         case None => None
         case Some(data) => FetchAll(uids[1..], replies[1..], got + [Message(uids[0], data)])
  }

  class MailFunnel {
    var mail: map<nat, string>
    var seen: set<nat>
    var flagged: set<nat>
    var nextUid: nat
    var inTmp: map<string, string>
    var inNew: map<string, string>
    var inCur: map<string, string>

    function Contents(): World
      reads this
    {
      World(mail, seen, flagged, nextUid, inTmp, inNew, inCur)
    }

    constructor (w: World)
      ensures Contents() == w
    {
      mail, seen, flagged, nextUid := w.mail, w.seen, w.flagged, w.nextUid;
      inTmp, inNew, inCur := w.inTmp, w.inNew, w.inCur;
    }

    /** The fetch loop of `check_new`: one error gives up all of it. BODY.PEEK changes no flag. */
    method CheckNew(uids: seq<nat>, replies: seq<FetchReply>, chunks: nat -> nat) returns (messages: Option<seq<Message>>)
      requires |replies| == |uids|
      ensures messages == FetchAll(uids, replies, [])
    {
      var got: seq<Message> := [];
      assert uids[0..] == uids && replies[0..] == replies;
      for i := 0 to |uids|
        invariant FetchAll(uids, replies, []) == FetchAll(uids[i..], replies[i..], got)
      {
        assert uids[i..][1..] == uids[i + 1..] && replies[i..][1..] == replies[i + 1..];
        var reader := new LineReader(replies[i].text);
        var data := I.FetchMessage(reader, replies[i].tag, chunks);
        if data.None? {
          return None;
        }
        got := got + [Message(uids[i], data.value)];
      }
      messages := Some(got);
    }

    /** `Maildir::write_message`: written to `tmp/`, then renamed into `new/`. */
    method WriteMessage(content: string, fate: Fate) returns (ok: bool)
      modifies this`inTmp, this`inNew
      ensures ok <==> fate.wrote && fate.moved
      ensures Contents() == if !fate.wrote then old(Contents())
                            else if !fate.moved then WriteTmp(old(Contents()), fate.name, content)
                            else MoveToNew(WriteTmp(old(Contents()), fate.name, content), fate.name)
    {
      ok := fate.wrote;
      if ok {
        inTmp := inTmp[fate.name := content];
        ok := fate.moved;
        if ok {
          inNew := inNew[fate.name := inTmp[fate.name]];
          inTmp := inTmp - {fate.name};
        }
      }
    }

    /** `ImapCarrier::mark_processed`: STORE, and EXPUNGE only if STORE was seen to succeed. */
    method MarkProcessed(uid: nat, fate: Fate)
      modifies this`mail, this`flagged
      ensures var stored := if fate.flagged then Flag(old(Contents()), uid) else old(Contents());
              Contents() == if fate.reported && fate.expunged then Expunge(stored) else stored
    {
      if fate.flagged && uid in mail {
        flagged := flagged + {uid};
      }
      if fate.reported && fate.expunged {
        mail, flagged := mail - flagged, {};
      }
    }

    /** `deliver_carrier_messages`, once the messages are fetched. */
    method DeliverMessages(msgs: seq<Message>, fates: seq<Fate>)
      requires |fates| == |msgs|
      modifies this`mail, this`flagged, this`inTmp, this`inNew
      ensures Contents() == HandleAll(old(Contents()), msgs, fates)
    {
      for i := 0 to |msgs|
        invariant HandleAll(old(Contents()), msgs, fates) == HandleAll(Contents(), msgs[i..], fates[i..])
      {
        assert msgs[i..][1..] == msgs[i + 1..] && fates[i..][1..] == fates[i + 1..];
        var staged := WriteMessage(msgs[i].raw, fates[i]);
        if staged {
          MarkProcessed(msgs[i].uid, fates[i]);
        }
      }
      assert msgs[|msgs|..] == [];
    }

    /** The dispatcher's `Maildir::mark_processed`; a file that is gone is passed over. */
    method Dispatched(name: string)
      modifies this`inNew, this`inCur
      ensures Contents() == MoveToCur(old(Contents()), name)
    {
      if name in inNew {
        inCur := inCur[name + ":2,S" := inNew[name]];
        inNew := inNew - {name};
      }
    }
  }

  // ---------------------------------------------------------------- runs

  datatype Step =
    | Arrive(raw: string)
    | SetSeen(uid: nat)
    | Search(uids: seq<nat>)
    | FetchOne(reply: FetchReply)
    | WriteOne(name: string, ok: bool)
    | MoveOne(ok: bool)
    | StoreOne(done: bool, reported: bool)
    | ExpungeOne(done: bool)
    | Dispatch(name: string)
    | Crash

  /** What has happened so far: every message that was ever on the server, the file each was last staged as, every file
      name ever used, and the messages for which a FETCH was read as something else. */
  datatype Past = Past(arrived: map<nat, string>, stagedAs: map<nat, string>, names: set<string>, misread: set<nat>)

  datatype Machine = Machine(w: World, phase: Phase, past: Past)

  /** Each step comes where the code is; SEARCH names unseen messages, file names are unique, an OK reply tells true. */
  predicate Enabled(m: Machine, step: Step) {
    match step
    case Search(uids) => m.phase.Idle? && forall u :: u in uids ==> u in m.w.mail && u !in m.w.seen
    case FetchOne(_) => m.phase.Fetching? && m.phase.todo != []
    case WriteOne(name, _) => m.phase.Staging? && m.phase.msgs != [] && name !in m.past.names
    case MoveOne(_) => m.phase.Written? && m.phase.msgs != []
    case StoreOne(done, reported) => m.phase.Staged? && m.phase.msgs != [] && (reported ==> done)
    case ExpungeOne(_) => m.phase.Flagged? && m.phase.msgs != []
    case _ => true
  }

  function Rest(msgs: seq<Message>): Phase {
    if |msgs| <= 1 then Idle else Staging(msgs[1..])
  }

  function Next(m: Machine, step: Step): Machine {
    match step
    case Arrive(raw) =>
      m.(w := m.w.(mail := m.w.mail[m.w.nextUid := raw], nextUid := m.w.nextUid + 1),
         past := m.past.(arrived := m.past.arrived[m.w.nextUid := raw]))
    case SetSeen(uid) => m.(w := m.w.(seen := m.w.seen + {uid}))
    case Search(uids) => m.(phase := if uids == [] then Idle else Fetching(uids, []))
    case FetchOne(reply) =>
      if !m.phase.Fetching? || m.phase.todo == [] || Reads(reply).None? then m.(phase := Idle)
      else
        var uid, data := m.phase.todo[0], Reads(reply).value;
        var got := m.phase.got + [Message(uid, data)];
        m.(phase := if |m.phase.todo| == 1 then Staging(got) else Fetching(m.phase.todo[1..], got),
           past := m.past.(misread := m.past.misread + if uid in m.w.mail && m.w.mail[uid] == data then {} else {uid}))
    case WriteOne(name, ok) =>
      if !m.phase.Staging? || m.phase.msgs == [] then m
      else if !ok then m.(phase := Rest(m.phase.msgs))
      else m.(w := WriteTmp(m.w, name, m.phase.msgs[0].raw), phase := Written(name, m.phase.msgs),
              past := m.past.(names := m.past.names + {name}))
    case MoveOne(ok) =>
      if !m.phase.Written? || m.phase.msgs == [] then m
      else if !ok then m.(phase := Rest(m.phase.msgs))
      else m.(w := MoveToNew(m.w, m.phase.name), phase := Staged(m.phase.msgs),
              past := m.past.(stagedAs := m.past.stagedAs[m.phase.msgs[0].uid := m.phase.name]))
    case StoreOne(done, reported) =>
      if !m.phase.Staged? || m.phase.msgs == [] then m
      else m.(w := if done then Flag(m.w, m.phase.msgs[0].uid) else m.w,
              phase := if reported then Flagged(m.phase.msgs) else Rest(m.phase.msgs))
    case ExpungeOne(done) =>
      if !m.phase.Flagged? || m.phase.msgs == [] then m
      else m.(w := if done then Expunge(m.w) else m.w, phase := Rest(m.phase.msgs))
    case Dispatch(name) => m.(w := MoveToCur(m.w, name))
    case Crash => m.(phase := Idle)
  }

  function After(m: Machine, steps: seq<Step>): Machine
    decreases |steps|
  {
    if steps == [] then m else After(Next(m, steps[0]), steps[1..])
  }

  predicate IsRun(m: Machine, steps: seq<Step>)
    decreases |steps|
  {
    steps == [] || (Enabled(m, steps[0]) && IsRun(Next(m, steps[0]), steps[1..]))
  }

  /** The steps that the code takes for one message. */
  function StepsOf(fate: Fate): seq<Step> {
    [WriteOne(fate.name, fate.wrote)] +
    if !fate.wrote then []
    else [MoveOne(fate.moved)] +
         if !fate.moved then []
         else [StoreOne(fate.flagged, fate.reported)] + if fate.reported then [ExpungeOne(fate.expunged)] else []
  }

  /** The method for one message does what its steps do when nothing comes between them. */
  lemma HandleOneIsSteps(m: Machine, fate: Fate)
    requires m.phase.Staging? && m.phase.msgs != []
    ensures After(m, StepsOf(fate)).w == HandleOne(m.w, m.phase.msgs[0], fate)
    ensures After(m, StepsOf(fate)).phase == Rest(m.phase.msgs)
  {
    var a, b, c, d := WriteOne(fate.name, fate.wrote), MoveOne(fate.moved), StoreOne(fate.flagged, fate.reported), ExpungeOne(fate.expunged);
    var last := if fate.reported then [d] else [];
    var middle := if fate.moved then [c] + last else [];
    var rest := if fate.wrote then [b] + middle else [];
    OneStep(m, a, rest);
    if fate.wrote {
      var m1 := Next(m, a);
      OneStep(m1, b, middle);
      if fate.moved {
        var m2 := Next(m1, b);
        OneStep(m2, c, last);
        if fate.reported {
          OneStep(Next(m2, c), d, []);
          assert [d] + [] == [d];
        }
      }
    }
  }

  lemma OneStep(m: Machine, step: Step, rest: seq<Step>)
    ensures After(m, [step] + rest) == After(Next(m, step), rest)
    ensures rest == [] ==> After(m, [step]) == Next(m, step)
  {
    assert ([step] + rest)[1..] == rest;
    assert [step][1..] == [];
  }

  // ---------------------------------------------------------------- no message is lost

  /** The message lies in `new/` or `cur/`, byte for byte. */
  predicate IsStaged(m: Machine, uid: nat) {
    uid in m.past.stagedAs && uid in m.past.arrived &&
    var name := m.past.stagedAs[uid];
    name in m.past.names &&
    ((name in m.w.inNew && m.w.inNew[name] == m.past.arrived[uid]) ||
     (name !in m.w.inNew && name + ":2,S" in m.w.inCur && m.w.inCur[name + ":2,S"] == m.past.arrived[uid]))
  }

  /** What the pull loop holds of this message is the message itself. */
  predicate Holds(msgs: seq<Message>, uid: nat, raw: string) {
    forall i :: 0 <= i < |msgs| && msgs[i].uid == uid ==> msgs[i].raw == raw
  }

  predicate PhaseIsSound(m: Machine, uid: nat)
    requires uid in m.past.arrived
  {
    match m.phase
    case Idle => true
    case Fetching(todo, got) => Holds(got, uid, m.past.arrived[uid]) && (uid in todo ==> uid in m.w.mail)
    case Staged(msgs) =>
      Holds(msgs, uid, m.past.arrived[uid]) && (msgs != [] && msgs[0].uid == uid ==> IsStaged(m, uid))
    case _ => Holds(m.phase.msgs, uid, m.past.arrived[uid])
  }

  /** The message is on the server or staged, and it is flagged `\Deleted` only if it is staged. */
  predicate Keeps(m: Machine, uid: nat) {
    uid in m.past.arrived && (uid in m.w.mail || IsStaged(m, uid)) &&
    (uid in m.w.mail ==> m.w.mail[uid] == m.past.arrived[uid]) &&
    (uid in m.w.flagged ==> IsStaged(m, uid)) &&
    PhaseIsSound(m, uid)
  }

  predicate AllBelow(msgs: seq<Message>, n: nat) {
    forall i :: 0 <= i < |msgs| ==> msgs[i].uid < n
  }

  /** Every UID in sight was given out, only what is there is flagged, a file bears a name that was given out, and a message that is being staged lies
      in `tmp/` under a name that nothing else bears. */
  ghost predicate IsOrderly(m: Machine) {
    (forall u :: u in m.w.mail || u in m.past.arrived ==> u < m.w.nextUid) && m.w.flagged <= m.w.mail.Keys &&
    (forall n :: n !in m.past.names ==> n !in m.w.inTmp && n !in m.w.inNew && n + ":2,S" !in m.w.inCur) &&
    match m.phase
    case Idle => true
    case Fetching(todo, got) => AllBelow(got, m.w.nextUid) && forall u :: u in todo ==> u < m.w.nextUid
    case Written(name, msgs) =>
      AllBelow(msgs, m.w.nextUid) && msgs != [] && name in m.past.names &&
      name !in m.w.inNew && name + ":2,S" !in m.w.inCur && name in m.w.inTmp && m.w.inTmp[name] == msgs[0].raw
    case _ => AllBelow(m.phase.msgs, m.w.nextUid)
  }

  lemma SeenNameTells(a: string, b: string)
    requires a + ":2,S" == b + ":2,S"
    ensures a == b
  {
    assert a == (a + ":2,S")[..|a|] == (b + ":2,S")[..|b|] == b;
  }

  lemma OthersInCur(w: World, name: string)
    ensures forall n :: n != name ==>
              (n + ":2,S" in MoveToCur(w, name).inCur <==> n + ":2,S" in w.inCur) &&
              (n + ":2,S" in w.inCur ==> MoveToCur(w, name).inCur[n + ":2,S"] == w.inCur[n + ":2,S"])
  {
    forall n | n != name
      ensures n + ":2,S" != name + ":2,S"
    {
      if n + ":2,S" == name + ":2,S" {
        SeenNameTells(n, name);
      }
    }
  }

  lemma OrderlyStep(m: Machine, step: Step)
    requires IsOrderly(m) && Enabled(m, step)
    ensures IsOrderly(Next(m, step))
  {
    if step.Dispatch? {
      OthersInCur(m.w, step.name);
    }
    if step.FetchOne? {
      var todo := m.phase.todo;
      assert todo[0] in todo && forall u :: u in todo[1..] ==> u in todo;
    }
  }

  /** Changes elsewhere keep a staged message staged. */
  lemma StaysStaged(before: Machine, after: Machine, uid: nat)
    requires IsStaged(before, uid)
    requires uid in after.past.stagedAs && after.past.stagedAs[uid] == before.past.stagedAs[uid]
    requires uid in after.past.arrived && after.past.arrived[uid] == before.past.arrived[uid]
    requires before.past.names <= after.past.names
    requires before.w.inNew == after.w.inNew && before.w.inCur == after.w.inCur
    ensures IsStaged(after, uid)
  {
  }

  lemma DispatchKeeps(m: Machine, name: string, uid: nat)
    requires IsOrderly(m) && Keeps(m, uid)
    ensures Keeps(Next(m, Dispatch(name)), uid)
  {
    OthersInCur(m.w, name);
    assert IsStaged(m, uid) ==> IsStaged(Next(m, Dispatch(name)), uid);
  }

  lemma MoveKeeps(m: Machine, ok: bool, uid: nat)
    requires IsOrderly(m) && Keeps(m, uid) && Enabled(m, MoveOne(ok))
    ensures Keeps(Next(m, MoveOne(ok)), uid)
  {
    var after := Next(m, MoveOne(ok));
    if ok {
      if m.phase.msgs[0].uid == uid {
        assert IsStaged(after, uid);
      } else {
        assert IsStaged(m, uid) ==> IsStaged(after, uid);
      }
    }
  }

  lemma FetchKeeps(m: Machine, reply: FetchReply, uid: nat)
    requires Keeps(m, uid) && Enabled(m, FetchOne(reply))
    requires uid !in Next(m, FetchOne(reply)).past.misread
    ensures Keeps(Next(m, FetchOne(reply)), uid)
  {
    var after := Next(m, FetchOne(reply));
    if IsStaged(m, uid) {
      StaysStaged(m, after, uid);
    }
    if Reads(reply).Some? {
      var todo := m.phase.todo;
      assert todo == [todo[0]] + todo[1..];
      assert todo[0] == uid ==> Reads(reply).value == m.past.arrived[uid];
    }
  }

  lemma ElsewhereKeeps(m: Machine, step: Step, uid: nat)
    requires IsOrderly(m) && Keeps(m, uid) && Enabled(m, step)
    requires !step.Dispatch? && !step.MoveOne? && !step.FetchOne?
    ensures Keeps(Next(m, step), uid)
  {
    if IsStaged(m, uid) {
      StaysStaged(m, Next(m, step), uid);
    }
  }

  /** A message that has just arrived is on the server, and the loop knows nothing of it. */
  lemma ArrivalKeeps(m: Machine, raw: string)
    requires IsOrderly(m)
    ensures Keeps(Next(m, Arrive(raw)), m.w.nextUid)
  {
  }

  lemma KeepsStep(m: Machine, step: Step, uid: nat)
    requires IsOrderly(m) && Keeps(m, uid) && Enabled(m, step) && uid !in Next(m, step).past.misread
    ensures Keeps(Next(m, step), uid)
  {
    match step {
      case Dispatch(name) => DispatchKeeps(m, name, uid);
      case MoveOne(ok) => MoveKeeps(m, ok, uid);
      case FetchOne(reply) => FetchKeeps(m, reply, uid);
      case _ => ElsewhereKeeps(m, step, uid);
    }
  }

  ghost predicate AllKept(m: Machine) {
    IsOrderly(m) && forall uid :: uid in m.past.arrived && uid !in m.past.misread ==> Keeps(m, uid)
  }

  lemma {:induction false} AllKeptRun(m: Machine, steps: seq<Step>)
    requires AllKept(m) && IsRun(m, steps)
    ensures AllKept(After(m, steps))
    decreases |steps|
  {
    if steps != [] {
      var after := Next(m, steps[0]);
      OrderlyStep(m, steps[0]);
      forall uid | uid in after.past.arrived && uid !in after.past.misread
        ensures Keeps(after, uid)
      {
        if uid in m.past.arrived && !(steps[0].Arrive? && uid == m.w.nextUid) {
          KeepsStep(m, steps[0], uid);
        } else {
          ArrivalKeeps(m, steps[0].raw);
        }
      }
      AllKeptRun(after, steps[1..]);
    }
  }

  /** A mailbox with some messages, and an inbox with no file in it. */
  predicate IsStart(m: Machine) {
    m.phase == Idle && m.w.inTmp == map[] && m.w.inNew == map[] && m.w.inCur == map[] && m.w.flagged == {} &&
    (forall u :: u in m.w.mail ==> u < m.w.nextUid) && m.past == Past(m.w.mail, map[], {}, {})
  }

  /** Over every run, with any await failing and crashes anywhere: each message that was ever on the server is still
      there, unchanged, or lies in the inbox's `new/` or `cur/` byte for byte, unless some FETCH of it was read as something
      else. */
  lemma NoMessageLost(start: Machine, steps: seq<Step>, uid: nat)
    requires IsStart(start) && IsRun(start, steps)
    requires uid in After(start, steps).past.arrived && uid !in After(start, steps).past.misread
    ensures var end := After(start, steps);
            (uid in end.w.mail && end.w.mail[uid] == end.past.arrived[uid]) || IsStaged(end, uid)
  {
    AllKeptRun(start, steps);
  }

  // ---------------------------------------------------------------- which replies are read as something else

  /** The reply carries the message: its literals are, together, the message's bytes. It may end early. */
  ghost predicate IsHonest(reply: FetchReply, raw: string) {
    exists r: I.Response, rest: string, k: nat ::
      I.IsResponse(r, reply.tag) && I.Payloads(r.parts) == raw && k <= |I.ResponseText(r) + rest| &&
      reply.text == (I.ResponseText(r) + rest)[..k]
  }

  /** An honest reply gives the message, or an error if it ends before the tag of its answer. */
  lemma HonestIsRead(reply: FetchReply, raw: string)
    requires IsHonest(reply, raw)
    ensures Reads(reply) == None || Reads(reply) == Some(raw)
  {
    var r: I.Response, rest: string, k: nat :|
      I.IsResponse(r, reply.tag) && I.Payloads(r.parts) == raw && k <= |I.ResponseText(r) + rest| &&
      reply.text == (I.ResponseText(r) + rest)[..k];
    var whole := I.ResponseText(r);
    I.CutTwo(whole, rest, k);
    if k <= |whole| {
      I.TruncationIsAnError(r, reply.tag, k);
    } else {
      I.FetchReturnsLiterals(r, reply.tag, rest[..k - |whole|]);
    }
  }

  /** Whatever its tagged answer says, a response is read as the bytes of its literals: as nothing when it has none. */
  lemma ResponseIsRead(reply: FetchReply, r: I.Response, rest: string)
    requires I.IsResponse(r, reply.tag) && reply.text == I.ResponseText(r) + rest
    ensures Reads(reply) == Some(I.Payloads(r.parts))
    ensures I.HasNoLiteral(r.parts) ==> Reads(reply) == Some("")
  {
    I.FetchReturnsLiterals(r, reply.tag, rest);
    if I.HasNoLiteral(r.parts) {
      I.NoLiteralIsEmpty(r.parts);
    }
  }

  /** In a run in which every FETCH of a message is answered honestly, if at all. */
  ghost predicate IsHonestStep(m: Machine, step: Step) {
    step.FetchOne? && m.phase.Fetching? && m.phase.todo != [] && m.phase.todo[0] in m.w.mail ==>
      IsHonest(step.reply, m.w.mail[m.phase.todo[0]])
  }

  ghost predicate IsHonestRun(m: Machine, steps: seq<Step>)
    decreases |steps|
  {
    steps == [] || (IsHonestStep(m, steps[0]) && IsHonestRun(Next(m, steps[0]), steps[1..]))
  }

  /** What is still to be fetched is on the server. */
  predicate TodoIsThere(m: Machine) {
    m.phase.Fetching? ==> forall u :: u in m.phase.todo ==> u in m.w.mail
  }

  lemma {:induction false} HonestRunMisreadsNothing(m: Machine, steps: seq<Step>)
    requires IsRun(m, steps) && IsHonestRun(m, steps) && TodoIsThere(m)
    ensures After(m, steps).past.misread == m.past.misread
    decreases |steps|
  {
    if steps != [] {
      if steps[0].FetchOne? {
        var todo := m.phase.todo;
        assert todo[0] in todo && forall u :: u in todo[1..] ==> u in todo;
        HonestIsRead(steps[0].reply, m.w.mail[todo[0]]);
      }
      HonestRunMisreadsNothing(Next(m, steps[0]), steps[1..]);
    }
  }

  /** So with honest replies, complete or cut short, no message is ever lost. */
  lemma HonestServerLosesNothing(start: Machine, steps: seq<Step>, uid: nat)
    requires IsStart(start) && IsRun(start, steps) && IsHonestRun(start, steps) && uid in After(start, steps).past.arrived
    ensures var end := After(start, steps);
            (uid in end.w.mail && end.w.mail[uid] == end.past.arrived[uid]) || IsStaged(end, uid)
  {
    HonestRunMisreadsNothing(start, steps);
    NoMessageLost(start, steps, uid);
  }

  /** And the condition is exact. One undisturbed pass removes the message upstream whatever was read, and what lies in
      `new/` is the message exactly when the literals of the response were: a NO or BAD, or an OK that brings the body as a
      quoted string, has none, and loses every message that is not empty. */
  lemma OnePassKeepsIff(w: World, uid: nat, reply: FetchReply, r: I.Response, rest: string, fate: Fate)
    requires uid in w.mail && I.IsResponse(r, reply.tag) && reply.text == I.ResponseText(r) + rest
    requires fate == Fate(fate.name, true, true, true, true, true)
    ensures var fetched := FetchAll([uid], [reply], []);
            fetched.Some? && |fetched.value| == 1 &&
            var after := HandleAll(w, fetched.value, [fate]);
            uid !in after.mail && fate.name in after.inNew &&
            (after.inNew[fate.name] == w.mail[uid] <==> I.Payloads(r.parts) == w.mail[uid]) &&
            (I.HasNoLiteral(r.parts) ==> after.inNew[fate.name] == "")
  {
    ResponseIsRead(reply, r, rest);
    var msg := Message(uid, I.Payloads(r.parts));
    assert [uid][1..] == [] && [reply][1..] == [] && [fate][1..] == [] && [msg][1..] == [] && [] + [msg] == [msg];
    assert FetchAll([uid], [reply], []) == FetchAll([], [], [msg]) == Some([msg]);
    assert HandleAll(w, [msg], [fate]) == HandleOne(w, msg, fate);
  }
}
