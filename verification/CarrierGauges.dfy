/** The gauges that the pull loops keep together: each call of `note_carrier_attempt` is a few atomic operations, and the
    calls of different loops interleave between them. */
module CarrierGauges {
  import opened Numbers

  datatype Gauges = Gauges(inBackoff: int, streak: nat, total: nat)

  // ---------------------------------------------------------------- one whole call

  /** What an undisturbed call does to the gauges and to the loop's own count. */
  function Noted(g: Gauges, failures: nat, reached: bool): (Gauges, nat) {
    if reached then
      if failures == 0 then (g, 0)
      else (Gauges(g.inBackoff - 1, if g.inBackoff == 1 then 0 else g.streak, g.total), 0)
    else
      (Gauges(if failures == 0 then g.inBackoff + 1 else g.inBackoff, Max(g.streak, OneMore(failures)), g.total + 1),
       OneMore(failures))
  }

  class AntieStats {
    var carriersInBackoff: int
    var consecutiveFailures: nat
    var failuresTotal: nat

    function Contents(): Gauges
      reads this
    {
      Gauges(carriersInBackoff, consecutiveFailures, failuresTotal)
    }

    constructor ()
      ensures Contents() == Gauges(0, 0, 0)
    {
      carriersInBackoff, consecutiveFailures, failuresTotal := 0, 0, 0;
    }

    method NoteCarrierAttempt(failures: nat, reached: bool) returns (after: nat)
      modifies this
      ensures (Contents(), after) == Noted(old(Contents()), failures, reached)
    {
      after := failures;
      if reached {
        if after > 0 {
          after := 0;
          var before := carriersInBackoff;
          carriersInBackoff := carriersInBackoff - 1;
          if before == 1 {
            consecutiveFailures := 0;
          }
        }
      } else {
        if after == 0 {
          carriersInBackoff := carriersInBackoff + 1;
        }
        after := OneMore(after);
        failuresTotal := failuresTotal + 1;
        consecutiveFailures := Max(consecutiveFailures, after);
      }
    }
  }

  // ---------------------------------------------------------------- interleaved atomic operations

  /** Where a loop is: outside a call, or about to execute one of its atomic operations. */
  datatype Pc = Outside | SubBackoff | StoreZero | AddBackoff | AddTotal | MaxStreak

  datatype Loop = Loop(pc: Pc, failures: nat)

  /** `failed` counts the calls that were begun with an unreachable server. */
  datatype Machine = Machine(g: Gauges, loops: map<nat, Loop>, failed: nat)

  datatype Step = Begin(loop: nat, reached: bool) | Advance(loop: nat)

  predicate Enabled(m: Machine, step: Step) {
    step.loop in m.loops && (step.Begin? <==> m.loops[step.loop].pc == Outside)
  }

  function Set(m: Machine, loop: nat, l: Loop, g: Gauges): Machine {
    m.(g := g, loops := m.loops[loop := l])
  }

  /** A call begins by deciding, on the loop's own count, which operation comes first; or does one operation. */
  function Next(m: Machine, step: Step): Machine
    requires step.loop in m.loops
  {
    var l := m.loops[step.loop];
    match step
    case Begin(loop, reached) =>
      if reached then
        if l.failures == 0 then m else Set(m, loop, Loop(SubBackoff, 0), m.g)
      else
        Set(m, loop, Loop(if l.failures == 0 then AddBackoff else AddTotal, OneMore(l.failures)), m.g).(failed := m.failed + 1)
    case Advance(loop) =>
      match l.pc
      case Outside => m
      case SubBackoff =>
        Set(m, loop, Loop(if m.g.inBackoff == 1 then StoreZero else Outside, l.failures), m.g.(inBackoff := m.g.inBackoff - 1))
      case StoreZero => Set(m, loop, Loop(Outside, l.failures), m.g.(streak := 0))
      case AddBackoff => Set(m, loop, Loop(AddTotal, l.failures), m.g.(inBackoff := m.g.inBackoff + 1))
      case AddTotal => Set(m, loop, Loop(MaxStreak, l.failures), m.g.(total := m.g.total + 1))
      case MaxStreak => Set(m, loop, Loop(Outside, l.failures), m.g.(streak := Max(m.g.streak, l.failures)))
  }

  predicate IsRun(m: Machine, steps: seq<Step>)
    decreases |steps|
  {
    steps == [] || (Enabled(m, steps[0]) && IsRun(Next(m, steps[0]), steps[1..]))
  }

  function After(m: Machine, steps: seq<Step>): Machine
    requires IsRun(m, steps)
    decreases |steps|
  {
    if steps == [] then m else After(Next(m, steps[0]), steps[1..])
  }

  /** The loops for which the backoff gauge is up by one. */
  predicate IsCounted(l: Loop) {
    match l.pc
    case Outside => l.failures > 0
    case SubBackoff => true
    case StoreZero => false
    case AddBackoff => false
    case AddTotal => true
    case MaxStreak => true
  }

  /** Those whose failure is still to be added to the total. */
  predicate IsOwing(l: Loop) {
    l.pc == AddBackoff || l.pc == AddTotal
  }

  function Counted(loops: map<nat, Loop>): set<nat> {
    set i | i in loops && IsCounted(loops[i])
  }

  function Owing(loops: map<nat, Loop>): set<nat> {
    set i | i in loops && IsOwing(loops[i])
  }

  predicate IsConsistent(m: Machine) {
    m.g.inBackoff == |Counted(m.loops)| && m.g.total + |Owing(m.loops)| == m.failed &&
    forall i :: i in m.loops ==>
      (m.loops[i].pc == SubBackoff || m.loops[i].pc == StoreZero ==> m.loops[i].failures == 0) &&
      (m.loops[i].pc == AddBackoff || m.loops[i].pc == AddTotal || m.loops[i].pc == MaxStreak ==> m.loops[i].failures > 0)
  }

  lemma OneChanges(before: set<nat>, after: set<nat>, i: nat)
    requires before - {i} == after - {i}
    ensures |after| == |before| + (if i in after then 1 else 0) - (if i in before then 1 else 0)
  {
    assert before == (before - {i}) + (if i in before then {i} else {});
    assert after == (after - {i}) + (if i in after then {i} else {});
  }

  lemma SetChanges(loops: map<nat, Loop>, i: nat, l: Loop)
    requires i in loops
    ensures |Counted(loops[i := l])| == |Counted(loops)| + (if IsCounted(l) then 1 else 0) - (if IsCounted(loops[i]) then 1 else 0)
    ensures |Owing(loops[i := l])| == |Owing(loops)| + (if IsOwing(l) then 1 else 0) - (if IsOwing(loops[i]) then 1 else 0)
  {
    OneChanges(Counted(loops), Counted(loops[i := l]), i);
    OneChanges(Owing(loops), Owing(loops[i := l]), i);
  }

  lemma ConsistentStep(m: Machine, step: Step)
    requires IsConsistent(m) && Enabled(m, step)
    ensures IsConsistent(Next(m, step)) && Next(m, step).g.inBackoff >= 0
  {
    var after := Next(m, step);
    var l := after.loops[step.loop];
    assert after.loops == m.loops[step.loop := l];
    SetChanges(m.loops, step.loop, l);
  }

  lemma {:induction false} ConsistentRun(m: Machine, steps: seq<Step>)
    requires IsConsistent(m) && IsRun(m, steps)
    ensures IsConsistent(After(m, steps))
    decreases |steps|
  {
    if steps != [] {
      ConsistentStep(m, steps[0]);
      ConsistentRun(Next(m, steps[0]), steps[1..]);
    }
  }

  /** Loops that have not called yet. */
  function Fresh(ids: set<nat>): Machine {
    Machine(Gauges(0, 0, 0), map i | i in ids :: Loop(Outside, 0), 0)
  }

  /** For any number of loops, interleaved at single atomic operations: the backoff gauge is never below 0, so no
      subtraction wraps; and when no call is in progress it is the number of failing loops, and the total is the number of
      failed attempts. */
  lemma GaugesAreRight(ids: set<nat>, steps: seq<Step>)
    requires IsRun(Fresh(ids), steps)
    ensures var end := After(Fresh(ids), steps);
            end.g.inBackoff >= 0 &&
            ((exists i :: i in end.loops && end.loops[i].pc == SubBackoff) ==> end.g.inBackoff >= 1) &&
            ((forall i :: i in end.loops ==> end.loops[i].pc == Outside) ==>
               end.g.inBackoff == |set i | i in end.loops && end.loops[i].failures > 0| && end.g.total == end.failed)
  {
    assert Counted(Fresh(ids).loops) == {} && Owing(Fresh(ids).loops) == {};
    ConsistentRun(Fresh(ids), steps);
    var end := After(Fresh(ids), steps);
    if i :| i in end.loops && end.loops[i].pc == SubBackoff {
      assert i in Counted(end.loops);
    }
    if forall i :: i in end.loops ==> end.loops[i].pc == Outside {
      assert Counted(end.loops) == set i | i in end.loops && end.loops[i].failures > 0;
      assert Owing(end.loops) == {};
    }
  }

  // ---------------------------------------------------------------- whole calls

  datatype Call = Call(loop: nat, reached: bool)

  /** A loop's own streak: its failing calls at the end of the trace. */
  function StreakOf(trace: seq<Call>, loop: nat): nat {
    if trace == [] then 0
    else
      var last, earlier := trace[|trace| - 1], trace[..|trace| - 1];
      if last.loop != loop then StreakOf(earlier, loop)
      else if last.reached then 0
      else OneMore(StreakOf(earlier, loop))
  }

  /** The loops that are failing after the trace. */
  function Failing(trace: seq<Call>): set<nat> {
    set c | c in trace && StreakOf(trace, c.loop) > 0 :: c.loop
  }

  /** The largest streak any loop has had since the last moment when none was failing. */
  function LargestSinceClear(trace: seq<Call>): nat {
    if trace == [] || Failing(trace) == {} then 0
    else Max(LargestSinceClear(trace[..|trace| - 1]), StreakOf(trace, trace[|trace| - 1].loop))
  }

  /** The gauges after the trace, each call undisturbed. */
  function GaugesAfter(trace: seq<Call>): Gauges {
    if trace == [] then Gauges(0, 0, 0)
    else
      var last, earlier := trace[|trace| - 1], trace[..|trace| - 1];
      Noted(GaugesAfter(earlier), StreakOf(earlier, last.loop), last.reached).0
  }

  lemma {:induction false} FailingIs(trace: seq<Call>, loop: nat)
    ensures loop in Failing(trace) <==> StreakOf(trace, loop) > 0
  {
    if StreakOf(trace, loop) > 0 {
      HasCalled(trace, loop);
      var c :| c in trace && c.loop == loop;
    }
  }

  lemma {:induction false} HasCalled(trace: seq<Call>, loop: nat)
    requires StreakOf(trace, loop) > 0
    ensures exists c :: c in trace && c.loop == loop
  {
    var last, earlier := trace[|trace| - 1], trace[..|trace| - 1];
    assert last in trace;
    if last.loop != loop {
      HasCalled(earlier, loop);
      var c :| c in earlier && c.loop == loop;
      assert c in trace;
    }
  }

  lemma FailingChanges(trace: seq<Call>)
    requires trace != []
    ensures var last, earlier := trace[|trace| - 1], trace[..|trace| - 1];
            Failing(trace) - {last.loop} == Failing(earlier) - {last.loop} &&
            (last.loop in Failing(trace) <==> !last.reached) &&
            (last.loop in Failing(earlier) <==> StreakOf(earlier, last.loop) > 0)
  {
    var last, earlier := trace[|trace| - 1], trace[..|trace| - 1];
    forall loop
      ensures loop in Failing(trace) <==> StreakOf(trace, loop) > 0
      ensures loop in Failing(earlier) <==> StreakOf(earlier, loop) > 0
    {
      FailingIs(trace, loop);
      FailingIs(earlier, loop);
    }
  }

  /** With whole calls as steps the streak gauge is the largest streak since the last all-clear, and 0 when none fails. */
  lemma {:induction false} StreakGaugeIs(trace: seq<Call>)
    ensures GaugesAfter(trace).inBackoff == |Failing(trace)|
    ensures GaugesAfter(trace).streak == LargestSinceClear(trace)
    ensures Failing(trace) == {} ==> GaugesAfter(trace).streak == 0
  {
    if trace != [] {
      var last, earlier := trace[|trace| - 1], trace[..|trace| - 1];
      StreakGaugeIs(earlier);
      FailingChanges(trace);
      OneChanges(Failing(earlier), Failing(trace), last.loop);
      if last.reached && StreakOf(earlier, last.loop) == 0 {
        assert Failing(trace) == Failing(earlier);
      }
    }
  }

  /** Two loops with their gauges. */
  function Two(g: Gauges, a: Loop, b: Loop, failed: nat): Machine {
    Machine(g, map[0 := a, 1 := b], failed)
  }

  predicate Leads(steps: seq<Step>, end: Machine) {
    IsRun(Fresh({0, 1}), steps) && After(Fresh({0, 1}), steps) == end
  }

  lemma LeadsOn(steps: seq<Step>, m: Machine, step: Step, end: Machine) returns (more: seq<Step>)
    requires Leads(steps, m) && Enabled(m, step) && Next(m, step) == end
    ensures Leads(more, end)
  {
    more := steps + [step];
    RunOneMore(Fresh({0, 1}), steps, step);
  }

  lemma {:induction false} RunOneMore(m: Machine, steps: seq<Step>, step: Step)
    requires IsRun(m, steps) && Enabled(After(m, steps), step)
    ensures IsRun(m, steps + [step]) && After(m, steps + [step]) == Next(After(m, steps), step)
    decreases |steps|
  {
    if steps == [] {
      assert [] + [step] == [step] && [step][1..] == [];
    } else {
      assert (steps + [step])[1..] == steps[1..] + [step];
      RunOneMore(Next(m, steps[0]), steps[1..], step);
    }
  }

  lemma FirstEnters() returns (steps: seq<Step>)
    ensures Leads(steps, Two(Gauges(1, 1, 1), Loop(Outside, 1), Loop(Outside, 0), 1))
  {
    var idle := Loop(Outside, 0);
    var m0 := Two(Gauges(0, 0, 0), idle, idle, 0);
    var m1 := Two(Gauges(0, 0, 0), Loop(AddBackoff, 1), idle, 1);
    var m2 := Two(Gauges(1, 0, 0), Loop(AddTotal, 1), idle, 1);
    var m3 := Two(Gauges(1, 0, 1), Loop(MaxStreak, 1), idle, 1);
    assert Fresh({0, 1}) == m0;
    assert Leads([], m0);
    steps := LeadsOn([], m0, Begin(0, false), m1);
    steps := LeadsOn(steps, m1, Advance(0), m2);
    steps := LeadsOn(steps, m2, Advance(0), m3);
    steps := LeadsOn(steps, m3, Advance(0), Two(Gauges(1, 1, 1), Loop(Outside, 1), idle, 1));
  }

  lemma FirstLeaves() returns (steps: seq<Step>)
    ensures Leads(steps, Two(Gauges(0, 1, 1), Loop(StoreZero, 0), Loop(Outside, 0), 1))
  {
    var idle := Loop(Outside, 0);
    var m0 := Two(Gauges(1, 1, 1), Loop(Outside, 1), idle, 1);
    var m1 := Two(Gauges(1, 1, 1), Loop(SubBackoff, 0), idle, 1);
    steps := FirstEnters();
    steps := LeadsOn(steps, m0, Begin(0, true), m1);
    steps := LeadsOn(steps, m1, Advance(0), Two(Gauges(0, 1, 1), Loop(StoreZero, 0), idle, 1));
  }

  lemma SecondEnters() returns (steps: seq<Step>)
    ensures Leads(steps, Two(Gauges(1, 1, 2), Loop(StoreZero, 0), Loop(MaxStreak, 1), 2))
  {
    var leaving := Loop(StoreZero, 0);
    var m0 := Two(Gauges(0, 1, 1), leaving, Loop(Outside, 0), 1);
    var m1 := Two(Gauges(0, 1, 1), leaving, Loop(AddBackoff, 1), 2);
    var m2 := Two(Gauges(1, 1, 1), leaving, Loop(AddTotal, 1), 2);
    steps := FirstLeaves();
    steps := LeadsOn(steps, m0, Begin(1, false), m1);
    steps := LeadsOn(steps, m1, Advance(1), m2);
    steps := LeadsOn(steps, m2, Advance(1), Two(Gauges(1, 1, 2), leaving, Loop(MaxStreak, 1), 2));
  }

  /** Interleaved calls lose this: a loop that leaves backoff stores its 0 over the streak of one that has just entered,
      and with both calls over, one loop failing, the streak gauge is 0. */
  lemma RaceLosesStreak() returns (steps: seq<Step>)
    ensures Leads(steps, Two(Gauges(1, 0, 2), Loop(Outside, 0), Loop(Outside, 1), 2))
  {
    var m3 := Two(Gauges(1, 1, 2), Loop(StoreZero, 0), Loop(MaxStreak, 1), 2);
    var m4 := Two(Gauges(1, 1, 2), Loop(StoreZero, 0), Loop(Outside, 1), 2);
    steps := SecondEnters();
    steps := LeadsOn(steps, m3, Advance(1), m4);
    steps := LeadsOn(steps, m4, Advance(0), Two(Gauges(1, 0, 2), Loop(Outside, 0), Loop(Outside, 1), 2));
  }

  // ---------------------------------------------------------------- whole calls are steps that nothing comes between

  /** The steps of a call that is not disturbed. */
  function CallSteps(g: Gauges, loop: nat, failures: nat, reached: bool): seq<Step> {
    [Begin(loop, reached)] +
    if reached then
      if failures == 0 then []
      else [Advance(loop)] + if g.inBackoff == 1 then [Advance(loop)] else []
    else
      (if failures == 0 then [Advance(loop)] else []) + ([Advance(loop)] + [Advance(loop)])
  }

  lemma FirstStep(m: Machine, step: Step, next: Machine, rest: seq<Step>)
    requires Enabled(m, step) && Next(m, step) == next
    ensures IsRun(m, [step] + rest) == IsRun(next, rest)
    ensures IsRun(next, rest) ==> After(m, [step] + rest) == After(next, rest)
  {
    assert ([step] + rest)[1..] == rest;
  }

  lemma CallIsSteps(m: Machine, loop: nat, reached: bool, rest: seq<Step>)
    requires loop in m.loops && m.loops[loop].pc == Outside
    ensures var failures := m.loops[loop].failures;
            var (g, after) := Noted(m.g, failures, reached);
            var end := Machine(g, m.loops[loop := Loop(Outside, after)], m.failed + if reached then 0 else 1);
            var steps := CallSteps(m.g, loop, failures, reached) + rest;
            IsRun(m, steps) == IsRun(end, rest) && (IsRun(end, rest) ==> After(m, steps) == After(end, rest))
  {
    if reached {
      ReachedIsSteps(m, loop, rest);
    } else {
      FailedIsSteps(m, loop, rest);
    }
  }

  lemma ReachedIsSteps(m: Machine, loop: nat, rest: seq<Step>)
    requires loop in m.loops && m.loops[loop].pc == Outside
    ensures var failures := m.loops[loop].failures;
            var (g, after) := Noted(m.g, failures, true);
            var end := Machine(g, m.loops[loop := Loop(Outside, after)], m.failed);
            var steps := CallSteps(m.g, loop, failures, true) + rest;
            IsRun(m, steps) == IsRun(end, rest) && (IsRun(end, rest) ==> After(m, steps) == After(end, rest))
  {
    var failures := m.loops[loop].failures;
    var (g, after) := Noted(m.g, failures, true);
    var end := Machine(g, m.loops[loop := Loop(Outside, after)], m.failed);
    var steps := CallSteps(m.g, loop, failures, true) + rest;
    if failures == 0 {
      assert m.loops[loop := m.loops[loop]] == m.loops && m.loops[loop] == Loop(Outside, 0);
      assert steps == [Begin(loop, true)] + rest;
      FirstStep(m, Begin(loop, true), end, rest);
    } else {
      var m1 := Next(m, Begin(loop, true));
      var m2 := Next(m1, Advance(loop));
      if m.g.inBackoff == 1 {
        assert m2.loops[loop := Loop(Outside, 0)] == end.loops;
        FirstStep(m2, Advance(loop), end, rest);
        FirstStep(m1, Advance(loop), m2, [Advance(loop)] + rest);
        FirstStep(m, Begin(loop, true), m1, [Advance(loop)] + ([Advance(loop)] + rest));
        assert steps == [Begin(loop, true)] + ([Advance(loop)] + ([Advance(loop)] + rest));
      } else {
        assert m2 == end;
        FirstStep(m1, Advance(loop), end, rest);
        FirstStep(m, Begin(loop, true), m1, [Advance(loop)] + rest);
        assert steps == [Begin(loop, true)] + ([Advance(loop)] + rest);
      }
    }
  }

  lemma FailedIsSteps(m: Machine, loop: nat, rest: seq<Step>)
    requires loop in m.loops && m.loops[loop].pc == Outside
    ensures var failures := m.loops[loop].failures;
            var (g, after) := Noted(m.g, failures, false);
            var end := Machine(g, m.loops[loop := Loop(Outside, after)], m.failed + 1);
            var steps := CallSteps(m.g, loop, failures, false) + rest;
            IsRun(m, steps) == IsRun(end, rest) && (IsRun(end, rest) ==> After(m, steps) == After(end, rest))
  {
    var failures := m.loops[loop].failures;
    var (g, after) := Noted(m.g, failures, false);
    var end := Machine(g, m.loops[loop := Loop(Outside, after)], m.failed + 1);
    var last := [Advance(loop)] + ([Advance(loop)] + rest);
    var m1 := Next(m, Begin(loop, false));
    var counting := Machine(m.g.(inBackoff := g.inBackoff), m.loops[loop := Loop(AddTotal, after)], m.failed + 1);
    var m3 := Next(counting, Advance(loop));
    assert Next(m3, Advance(loop)).loops == end.loops;
    FirstStep(m3, Advance(loop), end, rest);
    FirstStep(counting, Advance(loop), m3, [Advance(loop)] + rest);
    if failures == 0 {
      assert Next(m1, Advance(loop)).loops == counting.loops;
      FirstStep(m1, Advance(loop), counting, last);
      FirstStep(m, Begin(loop, false), m1, [Advance(loop)] + last);
      assert CallSteps(m.g, loop, failures, false) + rest == [Begin(loop, false)] + ([Advance(loop)] + last);
    } else {
      assert m1 == counting;
      FirstStep(m, Begin(loop, false), m1, last);
      assert CallSteps(m.g, loop, failures, false) + rest == [Begin(loop, false)] + last;
    }
  }

  /** So a trace of whole calls is a run, and leaves the gauges and the loops' own counts as the trace says. */
  lemma {:induction false} WholeCallsAreARun(ids: set<nat>, trace: seq<Call>, rest: seq<Step>) returns (steps: seq<Step>)
    requires forall i :: 0 <= i < |trace| ==> trace[i].loop in ids
    ensures var end := AfterCalls(ids, trace);
            IsRun(Fresh(ids), steps) == IsRun(end, rest) && (IsRun(end, rest) ==> After(Fresh(ids), steps) == After(end, rest))
    decreases |trace|
  {
    if trace == [] {
      steps := rest;
      assert AfterCalls(ids, trace).loops == Fresh(ids).loops;
    } else {
      var last, earlier := trace[|trace| - 1], trace[..|trace| - 1];
      var m := AfterCalls(ids, earlier);
      CallIsSteps(m, last.loop, last.reached, rest);
      CallLeaves(ids, trace);
      var more := CallSteps(m.g, last.loop, StreakOf(earlier, last.loop), last.reached) + rest;
      steps := WholeCallsAreARun(ids, earlier, more);
    }
  }

  function FailuresIn(trace: seq<Call>): nat {
    if trace == [] then 0
    else FailuresIn(trace[..|trace| - 1]) + if trace[|trace| - 1].reached then 0 else 1
  }

  /** At rest after a trace. */
  function AfterCalls(ids: set<nat>, trace: seq<Call>): Machine {
    Machine(GaugesAfter(trace), map i | i in ids :: Loop(Outside, StreakOf(trace, i)), FailuresIn(trace))
  }

  lemma CallLeaves(ids: set<nat>, trace: seq<Call>)
    requires trace != [] && trace[|trace| - 1].loop in ids
    ensures var last, m := trace[|trace| - 1], AfterCalls(ids, trace[..|trace| - 1]);
            var (g, after) := Noted(m.g, m.loops[last.loop].failures, last.reached);
            AfterCalls(ids, trace) ==
            Machine(g, m.loops[last.loop := Loop(Outside, after)], m.failed + if last.reached then 0 else 1)
  {
  }

  // ---------------------------------------------------------------- the streak gauge under interleaving

  /** Some loop has taken the backoff gauge to 0 and not yet stored its 0 as the streak. */
  predicate IsClearing(loops: map<nat, Loop>) {
    exists i :: i in loops && loops[i].pc == StoreZero
  }

  /** A loop reports its streak. */
  predicate IsReport(m: Machine, step: Step) {
    step.Advance? && step.loop in m.loops && m.loops[step.loop].pc == MaxStreak
  }

  /** No streak is reported between a loop's last subtraction and its store. */
  predicate NoneLate(m: Machine, steps: seq<Step>)
    requires IsRun(m, steps)
    decreases |steps|
  {
    steps == [] || ((IsReport(m, steps[0]) ==> !IsClearing(m.loops)) && NoneLate(Next(m, steps[0]), steps[1..]))
  }

  /** The largest streak reported since the last moment when no loop was in backoff. */
  function Peak(m: Machine, steps: seq<Step>, soFar: nat): nat
    requires IsRun(m, steps)
    decreases |steps|
  {
    if steps == [] then soFar
    else
      var after := Next(m, steps[0]);
      Peak(after, steps[1..], PeakStep(m, steps[0], soFar))
  }

  function PeakStep(m: Machine, step: Step, soFar: nat): nat
    requires Enabled(m, step)
  {
    if Counted(Next(m, step).loops) == {} then 0
    else if IsReport(m, step) then Max(soFar, m.loops[step.loop].failures)
    else soFar
  }

  predicate ShowsPeak(m: Machine, peak: nat) {
    IsConsistent(m) && (Counted(m.loops) == {} || IsClearing(m.loops) ==> peak == 0) &&
    (!IsClearing(m.loops) ==> m.g.streak == peak)
  }

  lemma NoneCounted(loops: map<nat, Loop>, i: nat)
    requires i in loops && IsCounted(loops[i])
    ensures Counted(loops) != {} && |Counted(loops)| >= 1
    ensures |Counted(loops)| == 1 ==> Counted(loops) == {i}
  {
    assert i in Counted(loops);
    assert Counted(loops) == (Counted(loops) - {i}) + {i};
  }

  /** Setting one loop changes `IsClearing` only by that loop. */
  lemma ClearingAfter(loops: map<nat, Loop>, i: nat, l: Loop)
    requires i in loops
    ensures l.pc == StoreZero ==> IsClearing(loops[i := l])
    ensures loops[i].pc != StoreZero && l.pc != StoreZero ==> (IsClearing(loops[i := l]) <==> IsClearing(loops))
    ensures IsClearing(loops[i := l]) && l.pc != StoreZero ==> IsClearing(loops)
  {
    if j :| j in loops && loops[j].pc == StoreZero && j != i {
      assert loops[i := l][j].pc == StoreZero;
    }
    if l.pc == StoreZero {
      assert loops[i := l][i].pc == StoreZero;
    }
  }

  lemma ShowsPeakStep(m: Machine, step: Step, peak: nat)
    requires ShowsPeak(m, peak) && Enabled(m, step) && (IsReport(m, step) ==> !IsClearing(m.loops))
    ensures ShowsPeak(Next(m, step), PeakStep(m, step, peak))
  {
    var after := Next(m, step);
    var i, l := step.loop, Next(m, step).loops[step.loop];
    assert after.loops == m.loops[i := l];
    ConsistentStep(m, step);
    SetChanges(m.loops, i, l);
    ClearingAfter(m.loops, i, l);
    if IsCounted(m.loops[i]) {
      NoneCounted(m.loops, i);
    }
    if IsCounted(l) {
      NoneCounted(after.loops, i);
    }
  }

  lemma {:induction false} ShowsPeakRun(m: Machine, steps: seq<Step>, peak: nat)
    requires ShowsPeak(m, peak) && IsRun(m, steps) && NoneLate(m, steps)
    ensures ShowsPeak(After(m, steps), Peak(m, steps, peak))
    decreases |steps|
  {
    if steps != [] {
      ShowsPeakStep(m, steps[0], peak);
      ShowsPeakRun(Next(m, steps[0]), steps[1..], PeakStep(m, steps[0], peak));
    }
  }

  /** In every interleaving in which no streak is reported between a loop's last subtraction and its store, the streak gauge at
      rest is the largest streak since the last moment when no loop was in backoff. */
  lemma StreakIsRightUnlessLate(ids: set<nat>, steps: seq<Step>)
    requires IsRun(Fresh(ids), steps) && NoneLate(Fresh(ids), steps)
    ensures var end := After(Fresh(ids), steps);
            (forall i :: i in end.loops ==> end.loops[i].pc == Outside) ==> end.g.streak == Peak(Fresh(ids), steps, 0)
  {
    assert Counted(Fresh(ids).loops) == {} && Owing(Fresh(ids).loops) == {};
    ShowsPeakRun(Fresh(ids), steps, 0);
  }

  /** And a report that does come between is lost, whatever went before: when the store follows, the gauge reads 0 although the
      reporting loop is in backoff. */
  lemma LateReportIsLost(m: Machine, i: nat, j: nat, peak: nat)
    requires IsConsistent(m) && i in m.loops && m.loops[i].pc == StoreZero && j in m.loops && m.loops[j].pc == MaxStreak
    ensures Enabled(m, Advance(j)) && Enabled(Next(m, Advance(j)), Advance(i))
    ensures var reported := Next(m, Advance(j));
            var end := Next(reported, Advance(i));
            end.g.streak == 0 && end.loops[j] == Loop(Outside, m.loops[j].failures) && m.loops[j].failures > 0 &&
            PeakStep(reported, Advance(i), PeakStep(m, Advance(j), peak)) >= m.loops[j].failures
  {
    var reported := Next(m, Advance(j));
    var end := Next(reported, Advance(i));
    NoneCounted(reported.loops, j);
    NoneCounted(end.loops, j);
  }
}
