/** One pass of the pull loop over any number of messages: what it fetches, what it stages and deletes, and that it is a run of
    the funnel's steps, so that what holds of every run holds of it. */
module FunnelPass {
  import opened Text
  import opened Funnel

  // ---------------------------------------------------------------- what is fetched

  function Behind(got: seq<Message>, r: Option<seq<Message>>): Option<seq<Message>> {
    if r.None? then None else Some(got + r.value)
  }

  lemma {:induction false} FetchesBehind(uids: seq<nat>, replies: seq<FetchReply>, got: seq<Message>)
    requires |replies| == |uids|
    ensures FetchAll(uids, replies, got) == Behind(got, FetchAll(uids, replies, []))
    decreases |uids|
  {
    if uids == [] {
      assert got + [] == got;
    } else if Reads(replies[0]).Some? {
      var first := [Message(uids[0], Reads(replies[0]).value)];
      FetchesBehind(uids[1..], replies[1..], got + first);
      FetchesBehind(uids[1..], replies[1..], first);
      assert [] + first == first;
      var rest := FetchAll(uids[1..], replies[1..], []);
      assert rest.Some? ==> (got + first) + rest.value == got + (first + rest.value);
    }
  }

  lemma FetchesFirst(uids: seq<nat>, replies: seq<FetchReply>)
    requires |replies| == |uids| && uids != []
    ensures FetchAll(uids, replies, []) ==
            match Reads(replies[0]) {
              case None => None
              case Some(data) => Behind([Message(uids[0], data)], FetchAll(uids[1..], replies[1..], []))
            }
  {
    if Reads(replies[0]).Some? {
      var first := [Message(uids[0], Reads(replies[0]).value)];
      assert [] + first == first;
      FetchesBehind(uids[1..], replies[1..], first);
    }
  }

  /** All messages or none: none if and only if some reply reads as an error, and otherwise for each UID, in order, a message with
      that UID and what its own reply reads as. */
  lemma {:induction false} FetchAllIs(uids: seq<nat>, replies: seq<FetchReply>)
    requires |replies| == |uids|
    ensures var r := FetchAll(uids, replies, []);
            (r == None <==> exists i :: 0 <= i < |uids| && Reads(replies[i]) == None) &&
            (r.Some? ==>
               |r.value| == |uids| &&
               forall i :: 0 <= i < |uids| ==> Reads(replies[i]).Some? && r.value[i] == Message(uids[i], Reads(replies[i]).value))
    decreases |uids|
  {
    if uids != [] {
      FetchesFirst(uids, replies);
      FetchAllIs(uids[1..], replies[1..]);
      assert forall i :: 0 < i < |uids| ==> uids[1..][i - 1] == uids[i] && replies[1..][i - 1] == replies[i];
    }
  }

  // ---------------------------------------------------------------- the loops are runs

  /** The steps of the fetch loop: one for each reply, up to the first error. */
  function FetchSteps(replies: seq<FetchReply>): seq<Step> {
    if replies == [] then []
    else [FetchOne(replies[0])] + if Reads(replies[0]).None? then [] else FetchSteps(replies[1..])
  }

  /** What the steps of fetching leave as it was. */
  predicate SameButPhase(before: Machine, after: Machine) {
    before.w == after.w && before.past.(misread := {}) == after.past.(misread := {})
  }

  lemma {:induction false} FetchIsSteps(m: Machine, replies: seq<FetchReply>)
    requires m.phase.Fetching? && m.phase.todo != [] && |replies| == |m.phase.todo|
    ensures var end, fetched := After(m, FetchSteps(replies)), FetchAll(m.phase.todo, replies, m.phase.got);
            IsRun(m, FetchSteps(replies)) && SameButPhase(m, end) &&
            end.phase == if fetched.None? then Idle else Staging(fetched.value)
    decreases |replies|
  {
    var step := FetchOne(replies[0]);
    var next := Next(m, step);
    if Reads(replies[0]).None? {
      assert FetchSteps(replies) == [step] && [step][1..] == [];
    } else {
      assert FetchSteps(replies)[1..] == FetchSteps(replies[1..]);
      if |replies| == 1 {
        assert FetchSteps(replies[1..]) == [];
        assert FetchAll(m.phase.todo[1..], replies[1..], next.phase.msgs) == Some(next.phase.msgs);
      } else {
        FetchIsSteps(next, replies[1..]);
      }
    }
  }

  /** The steps for all messages, in turn. */
  function AllSteps(fates: seq<Fate>): seq<Step> {
    if fates == [] then [] else StepsOf(fates[0]) + AllSteps(fates[1..])
  }

  predicate AreFresh(fates: seq<Fate>, names: set<string>) {
    (forall i :: 0 <= i < |fates| ==> fates[i].name !in names && (fates[i].reported ==> fates[i].flagged)) &&
    forall i, j :: 0 <= i < j < |fates| ==> fates[i].name != fates[j].name
  }

  lemma {:induction false} AfterJoined(m: Machine, a: seq<Step>, b: seq<Step>)
    ensures After(m, a + b) == After(After(m, a), b)
    ensures IsRun(m, a + b) == (IsRun(m, a) && IsRun(After(m, a), b))
    decreases |a|
  {
    if a == [] {
      assert a + b == b;
    } else {
      assert (a + b)[1..] == a[1..] + b;
      AfterJoined(Next(m, a[0]), a[1..], b);
    }
  }

  lemma RunStep(m: Machine, step: Step, rest: seq<Step>)
    ensures IsRun(m, [step] + rest) == (Enabled(m, step) && IsRun(Next(m, step), rest))
  {
    assert ([step] + rest)[1..] == rest;
  }

  /** The steps for one message can be taken, and use up its file name. */
  lemma OneIsRun(m: Machine, fate: Fate)
    requires m.phase.Staging? && m.phase.msgs != [] && fate.name !in m.past.names && (fate.reported ==> fate.flagged)
    ensures IsRun(m, StepsOf(fate)) && After(m, StepsOf(fate)).past.names <= m.past.names + {fate.name}
  {
    var a, b, c, d := WriteOne(fate.name, fate.wrote), MoveOne(fate.moved), StoreOne(fate.flagged, fate.reported), ExpungeOne(fate.expunged);
    var last := if fate.reported then [d] else [];
    var middle := if fate.moved then [c] + last else [];
    var rest := if fate.wrote then [b] + middle else [];
    RunStep(m, a, rest);
    OneStep(m, a, rest);
    if fate.wrote {
      var m1 := Next(m, a);
      RunStep(m1, b, middle);
      OneStep(m1, b, middle);
      if fate.moved {
        var m2 := Next(m1, b);
        RunStep(m2, c, last);
        OneStep(m2, c, last);
        if fate.reported {
          assert [d] + [] == [d];
          RunStep(Next(m2, c), d, []);
          OneStep(Next(m2, c), d, []);
        }
      }
    }
  }

  /** The loop over the messages does what their steps do when nothing comes between them. */
  lemma {:induction false} HandleIsSteps(m: Machine, fates: seq<Fate>)
    requires m.phase.Staging? && m.phase.msgs != [] && |fates| == |m.phase.msgs| && AreFresh(fates, m.past.names)
    ensures var end := After(m, AllSteps(fates));
            IsRun(m, AllSteps(fates)) && end.w == HandleAll(m.w, m.phase.msgs, fates) && end.phase == Idle
    decreases |fates|
  {
    var msgs, next := m.phase.msgs, After(m, StepsOf(fates[0]));
    HandleOneIsSteps(m, fates[0]);
    OneIsRun(m, fates[0]);
    AfterJoined(m, StepsOf(fates[0]), AllSteps(fates[1..]));
    if |msgs| == 1 {
      assert AllSteps(fates[1..]) == [];
      assert msgs[1..] == [] && HandleAll(next.w, msgs[1..], fates[1..]) == next.w;
    } else {
      assert AreFresh(fates[1..], next.past.names) by {
        assert forall i :: 0 <= i < |fates| - 1 ==> fates[1..][i] == fates[i + 1];
      }
      HandleIsSteps(next, fates[1..]);
    }
  }

  /** A pass: SEARCH, the fetches, and then, unless one failed, the loop over the messages. */
  function PassSteps(uids: seq<nat>, replies: seq<FetchReply>, fates: seq<Fate>): seq<Step>
    requires |replies| == |uids|
  {
    [Search(uids)] + if uids == [] then [] else FetchSteps(replies) + if FetchAll(uids, replies, []).None? then [] else AllSteps(fates)
  }

  /** What the code computes for a pass, from its two loops. */
  function Passed(w: World, uids: seq<nat>, replies: seq<FetchReply>, fates: seq<Fate>): World
    requires |replies| == |uids| == |fates|
  {
    var fetched := FetchAll(uids, replies, []);
    if fetched.None? then w else (FetchAllIs(uids, replies); HandleAll(w, fetched.value, fates))
  }

  lemma PassIsRun(m: Machine, uids: seq<nat>, replies: seq<FetchReply>, fates: seq<Fate>)
    requires Enabled(m, Search(uids)) && |replies| == |uids| == |fates| && AreFresh(fates, m.past.names)
    ensures var end := After(m, PassSteps(uids, replies, fates));
            IsRun(m, PassSteps(uids, replies, fates)) && end.w == Passed(m.w, uids, replies, fates) && end.phase == Idle
  {
    var fetched, next := FetchAll(uids, replies, []), Next(m, Search(uids));
    FetchAllIs(uids, replies);
    if uids == [] {
      assert PassSteps(uids, replies, fates) == [Search(uids)] + [];
      RunStep(m, Search(uids), []);
      OneStep(m, Search(uids), []);
    } else {
      var rest := if fetched.None? then [] else AllSteps(fates);
      RunStep(m, Search(uids), FetchSteps(replies) + rest);
      OneStep(m, Search(uids), FetchSteps(replies) + rest);
      FetchIsSteps(next, replies);
      AfterJoined(next, FetchSteps(replies), rest);
      if fetched.Some? {
        HandleIsSteps(After(next, FetchSteps(replies)), fates);
      }
    }
  }

  /** After any run from the start, a pass over any number of messages, however its awaits turn out: each message that ever arrived
      is still on the server unchanged, or staged byte for byte, unless some FETCH of it was read as something else. */
  lemma PassLosesNothing(start: Machine, steps: seq<Step>, uids: seq<nat>, replies: seq<FetchReply>, fates: seq<Fate>, uid: nat)
    requires IsStart(start) && IsRun(start, steps) && Enabled(After(start, steps), Search(uids))
    requires |replies| == |uids| == |fates| && AreFresh(fates, After(start, steps).past.names)
    requires var end := After(After(start, steps), PassSteps(uids, replies, fates));
             uid in end.past.arrived && uid !in end.past.misread
    ensures var m := After(start, steps);
            var end := After(m, PassSteps(uids, replies, fates));
            end.w == Passed(m.w, uids, replies, fates) &&
            ((uid in end.w.mail && end.w.mail[uid] == end.past.arrived[uid]) || IsStaged(end, uid))
  {
    var m := After(start, steps);
    PassIsRun(m, uids, replies, fates);
    AfterJoined(start, steps, PassSteps(uids, replies, fates));
    NoMessageLost(start, steps + PassSteps(uids, replies, fates), uid);
  }

  // ---------------------------------------------------------------- a pass that nothing disturbs

  predicate AllGoWell(fates: seq<Fate>) {
    forall i :: 0 <= i < |fates| ==> fates[i].wrote && fates[i].moved && fates[i].flagged && fates[i].reported && fates[i].expunged
  }

  predicate AreNew(w: World, fates: seq<Fate>) {
    (forall i :: 0 <= i < |fates| ==> fates[i].name !in w.inNew) &&
    forall i, j :: 0 <= i < j < |fates| ==> fates[i].name != fates[j].name
  }

  lemma OneDelivered(w: World, msg: Message, fate: Fate)
    requires AllGoWell([fate])
    ensures var after := HandleOne(w, msg, fate);
            after.inNew == w.inNew[fate.name := msg.raw] && after.inTmp == w.inTmp - {fate.name} && msg.uid !in after.mail &&
            forall u :: u in w.mail && u != msg.uid && u !in w.flagged ==> u in after.mail && after.mail[u] == w.mail[u]
    ensures var after := HandleOne(w, msg, fate);
            after.flagged == {} && forall u :: u in after.mail ==> u in w.mail
  {
    assert [fate][0] == fate;
  }

  predicate IsDelivered(w: World, msg: Message, name: string) {
    name in w.inNew && w.inNew[name] == msg.raw && name !in w.inTmp && msg.uid !in w.mail
  }

  /** Later messages take nothing from `new/`, leave nothing in `tmp/` and bring nothing back. */
  lemma {:induction false} LaterLeave(w: World, msgs: seq<Message>, fates: seq<Fate>)
    requires |fates| == |msgs| && AllGoWell(fates) && AreNew(w, fates)
    ensures var after := HandleAll(w, msgs, fates);
            (forall n :: n in w.inNew ==> n in after.inNew && after.inNew[n] == w.inNew[n]) &&
            (forall n :: n in after.inTmp ==> n in w.inTmp) &&
            forall u :: u in after.mail ==> u in w.mail
    decreases |msgs|
  {
    if msgs != [] {
      assert [fates[0]][0] == fates[0];
      OneDelivered(w, msgs[0], fates[0]);
      RestIsNew(w, msgs[0], fates);
      LaterLeave(HandleOne(w, msgs[0], fates[0]), msgs[1..], fates[1..]);
    }
  }

  lemma RestIsNew(w: World, msg: Message, fates: seq<Fate>)
    requires fates != [] && AllGoWell(fates) && AreNew(w, fates)
    ensures AllGoWell(fates[1..]) && AreNew(HandleOne(w, msg, fates[0]), fates[1..])
  {
    assert [fates[0]][0] == fates[0];
    OneDelivered(w, msg, fates[0]);
    assert forall i :: 0 <= i < |fates| - 1 ==> fates[1..][i] == fates[i + 1];
  }

  /** Every message is in `new/` under its own name and off the server. */
  lemma {:induction false} AllDelivered(w: World, msgs: seq<Message>, fates: seq<Fate>, i: nat)
    requires |fates| == |msgs| && AllGoWell(fates) && AreNew(w, fates) && i < |msgs|
    ensures IsDelivered(HandleAll(w, msgs, fates), msgs[i], fates[i].name)
    decreases |msgs|
  {
    var next := HandleOne(w, msgs[0], fates[0]);
    assert [fates[0]][0] == fates[0];
    OneDelivered(w, msgs[0], fates[0]);
    RestIsNew(w, msgs[0], fates);
    if i == 0 {
      LaterLeave(next, msgs[1..], fates[1..]);
    } else {
      AllDelivered(next, msgs[1..], fates[1..], i - 1);
    }
  }

  /** And no other message is taken off the server, unless it was flagged before. */
  lemma {:induction false} OthersStay(w: World, msgs: seq<Message>, fates: seq<Fate>, uid: nat)
    requires |fates| == |msgs| && AllGoWell(fates)
    requires uid in w.mail && uid !in w.flagged && forall i :: 0 <= i < |msgs| ==> msgs[i].uid != uid
    ensures var after := HandleAll(w, msgs, fates); uid in after.mail && after.mail[uid] == w.mail[uid]
    decreases |msgs|
  {
    if msgs != [] {
      assert [fates[0]][0] == fates[0];
      OneDelivered(w, msgs[0], fates[0]);
      assert forall i :: 0 <= i < |fates| - 1 ==> fates[1..][i] == fates[i + 1];
      OthersStay(HandleOne(w, msgs[0], fates[0]), msgs[1..], fates[1..], uid);
    }
  }

  /** The dispatcher's moves, one after another. */
  function DispatchAll(w: World, fates: seq<Fate>): World
    decreases |fates|
  {
    if fates == [] then w else DispatchAll(MoveToCur(w, fates[0].name), fates[1..])
  }

  lemma {:induction false} AllDispatched(w: World, fates: seq<Fate>)
    requires forall i :: 0 <= i < |fates| ==> fates[i].name in w.inNew
    requires forall i, j :: 0 <= i < j < |fates| ==> fates[i].name != fates[j].name
    ensures var after := DispatchAll(w, fates);
            (forall i :: 0 <= i < |fates| ==>
               fates[i].name !in after.inNew && fates[i].name + ":2,S" in after.inCur &&
               after.inCur[fates[i].name + ":2,S"] == w.inNew[fates[i].name]) &&
            (forall n :: n in after.inNew ==> n in w.inNew && after.inNew[n] == w.inNew[n]) &&
            (forall n :: (forall i :: 0 <= i < |fates| ==> fates[i].name != n) && n + ":2,S" in w.inCur ==>
               n + ":2,S" in after.inCur && after.inCur[n + ":2,S"] == w.inCur[n + ":2,S"]) &&
            after.mail == w.mail && after.inTmp == w.inTmp
    decreases |fates|
  {
    if fates != [] {
      var name, rest := fates[0].name, fates[1..];
      var next := MoveToCur(w, name);
      assert forall i :: 0 <= i < |rest| ==> rest[i] == fates[i + 1];
      OthersInCur(w, name);
      AllDispatched(next, rest);
      assert forall i :: 0 <= i < |rest| ==> rest[i].name != name;
    }
  }

  predicate AllBring(w: World, uids: seq<nat>, replies: seq<FetchReply>)
    requires |replies| == |uids|
  {
    forall i :: 0 <= i < |uids| ==> uids[i] in w.mail && Reads(replies[i]) == Some(w.mail[uids[i]])
  }

  lemma BroughtAre(w: World, uids: seq<nat>, replies: seq<FetchReply>) returns (msgs: seq<Message>)
    requires |replies| == |uids| && AllBring(w, uids, replies)
    ensures FetchAll(uids, replies, []) == Some(msgs) && |msgs| == |uids|
    ensures forall i :: 0 <= i < |uids| ==> msgs[i] == Message(uids[i], w.mail[uids[i]])
  {
    FetchAllIs(uids, replies);
    msgs := FetchAll(uids, replies, []).value;
  }

  lemma MessagesAreFiled(w: World, msgs: seq<Message>, fates: seq<Fate>)
    requires |fates| == |msgs| && AllGoWell(fates) && AreNew(w, fates)
    ensures forall i :: 0 <= i < |msgs| ==> IsDelivered(HandleAll(w, msgs, fates), msgs[i], fates[i].name)
  {
    forall i | 0 <= i < |msgs|
      ensures IsDelivered(HandleAll(w, msgs, fates), msgs[i], fates[i].name)
    {
      AllDelivered(w, msgs, fates, i);
    }
  }

  /** When every reply brings its message and nothing fails, a pass over any number of messages and the dispatcher after it take all
      of them off the server and leave each, byte for byte, in `cur/`, under its own name and marked as seen. */
  lemma UndisturbedPassDrains(w: World, uids: seq<nat>, replies: seq<FetchReply>, fates: seq<Fate>)
    requires |replies| == |uids| == |fates| && AllBring(w, uids, replies) && AllGoWell(fates) && AreNew(w, fates)
    ensures var end := DispatchAll(Passed(w, uids, replies, fates), fates);
            forall i :: 0 <= i < |uids| ==>
              uids[i] !in end.mail && fates[i].name !in end.inNew && fates[i].name !in end.inTmp &&
              fates[i].name + ":2,S" in end.inCur && end.inCur[fates[i].name + ":2,S"] == w.mail[uids[i]]
  {
    var msgs := BroughtAre(w, uids, replies);
    MessagesAreFiled(w, msgs, fates);
    AllDispatched(HandleAll(w, msgs, fates), fates);
  }
}
