/** ANTIE's pipe to its Lambda child: length-framed requests and replies on two pipes, one call at a time under the
    child lock, with nothing in a reply that tells which request it answers. */
module LambdaPipe {
  import opened LegacyCodec

  type Bytes = seq<byte>

  const MAX_REPLY: nat := 10 * 1024 * 1024
  const TWO_TO_THE_32: nat := 0x1_0000_0000

  // ---------------------------------------------------------------- frames

  /** `(len as u32).to_be_bytes()` */
  function Length4(n: nat): (b: Bytes)
    ensures |b| == 4
  {
    [(n / 0x100_0000 % 256) as byte, (n / 0x1_0000 % 256) as byte, (n / 256 % 256) as byte, (n % 256) as byte]
  }

  /** `u32::from_be_bytes` */
  function Value4(b: Bytes): nat
    requires |b| >= 4
  {
    b[0] as nat * 0x100_0000 + b[1] as nat * 0x1_0000 + b[2] as nat * 256 + b[3] as nat
  }

  lemma LengthIsRead(n: nat)
    ensures Value4(Length4(n)) == n % TWO_TO_THE_32
  {
    var a, b, c := n / 256, n / 0x1_0000, n / 0x100_0000;
    assert n == a * 256 + n % 256;
    assert a == b * 256 + a % 256 by { TwoDigits(n); }
    assert b == c * 256 + b % 256 by { ThreeDigits(n); }
    assert c == n / TWO_TO_THE_32 * 256 + c % 256 by { FourDigits(n); }
    var v := Value4(Length4(n));
    assert v == c % 256 * 0x100_0000 + b % 256 * 0x1_0000 + a % 256 * 256 + n % 256;
    assert n == n / TWO_TO_THE_32 * TWO_TO_THE_32 + v && v < TWO_TO_THE_32;
  }

  lemma TwoDigits(n: nat)
    ensures n / 0x1_0000 == n / 256 / 256
  {
  }

  lemma ThreeDigits(n: nat)
    ensures n / 0x100_0000 == n / 0x1_0000 / 256
  {
  }

  lemma FourDigits(n: nat)
    ensures n / TWO_TO_THE_32 == n / 0x100_0000 / 256
  {
  }

  /** The most significant byte comes first. */
  lemma LengthIsBigEndian(n: nat)
    requires n < TWO_TO_THE_32
    ensures Length4(n) == BigEndian(n, 4)
  {
    var a, b, c := n / 256, n / 0x1_0000, n / 0x100_0000;
    TwoDigits(n);
    ThreeDigits(n);
    assert BigEndian(c, 1) == [(c % 256) as byte] by {
      assert BigEndian(c / 256, 0) == [];
    }
    assert BigEndian(b, 2) == BigEndian(c, 1) + [(b % 256) as byte];
    assert BigEndian(a, 3) == BigEndian(b, 2) + [(a % 256) as byte];
    assert BigEndian(n, 4) == BigEndian(a, 3) + [(n % 256) as byte];
  }

  function Frame(payload: Bytes): (b: Bytes)
    ensures |b| == 4 + |payload|
  {
    Length4(|payload|) + payload
  }

  datatype Read = Done(reply: Bytes) | TooLarge | TimedOut

  /** What a reader makes of the bytes that arrive before its timeout, and what it leaves in the pipe. Bytes read before
      a timeout are gone; a reply that is too large is left where it is. */
  function ReadFrame(arrived: Bytes): (Read, Bytes) {
    if |arrived| < 4 then (TimedOut, [])
    else
      var n := Value4(arrived[..4]);
      if n > MAX_REPLY then (TooLarge, arrived[4..])
      else if |arrived| < 4 + n then (TimedOut, [])
      else (Done(arrived[4..4 + n]), arrived[4 + n..])
  }

  /** Reading one frame that is followed by more. */
  lemma ReadsFrame(payload: Bytes, rest: Bytes)
    requires |payload| < TWO_TO_THE_32
    ensures ReadFrame(Frame(payload) + rest) ==
            if |payload| > MAX_REPLY then (TooLarge, payload + rest) else (Done(payload), rest)
  {
    var head := FrameHead(payload);
    ReadsParts(head, payload, rest);
  }

  lemma FrameHead(payload: Bytes) returns (head: Bytes)
    requires |payload| < TWO_TO_THE_32
    ensures |head| == 4 && Value4(head) == |payload| && Frame(payload) == head + payload
  {
    head := Length4(|payload|);
    LengthIsRead(|payload|);
  }

  lemma ReadsParts(head: Bytes, payload: Bytes, rest: Bytes)
    requires |head| == 4 && Value4(head) == |payload|
    ensures ReadFrame(head + payload + rest) == if |payload| > MAX_REPLY then (TooLarge, payload + rest) else (Done(payload), rest)
  {
    Assoc(head, payload, rest);
    if |payload| > MAX_REPLY {
      HeadRead(head + payload + rest, head, payload + rest);
    } else {
      BodyRead(head + payload + rest, head, payload, rest);
    }
  }

  /** What has come of a frame that is not all there is lost when the reader gives up. */
  lemma PartOfFrameIsLost(payload: Bytes, k: nat)
    requires |payload| <= MAX_REPLY && k < |Frame(payload)|
    ensures ReadFrame(Frame(payload)[..k]) == (TimedOut, [])
  {
    if k >= 4 {
      LengthIsRead(|payload|);
      assert Frame(payload)[..k][..4] == Length4(|payload|);
    }
  }

  /** A frame that is all there is read the same whatever comes after it. */
  lemma ReadsSamePrefix(arrived: Bytes, more: Bytes)
    ensures var (r, left) := ReadFrame(arrived);
            !r.TimedOut? ==> ReadFrame(arrived + more) == (r, left + more)
  {
    if |arrived| >= 4 {
      assert (arrived + more)[..4] == arrived[..4];
      var n := Value4(arrived[..4]);
      assert (arrived + more)[4..] == arrived[4..] + more;
      if n <= MAX_REPLY && |arrived| >= 4 + n {
        assert (arrived + more)[4..4 + n] == arrived[4..4 + n];
        assert (arrived + more)[4 + n..] == arrived[4 + n..] + more;
      }
    }
  }

  // ---------------------------------------------------------------- the two ends

  /** One child and its two pipes. `coming` is what the child has written and the pipe has not carried yet. */
  class LambdaChild {
    var toChild: Bytes
    var coming: Bytes
    var fromChild: Bytes

    constructor ()
      ensures toChild == coming == fromChild == []
    {
      toChild, coming, fromChild := [], [], [];
    }

    /** The writing half of a call. */
    method WriteRequest(payload: Bytes)
      modifies this`toChild
      ensures toChild == old(toChild) + Frame(payload)
    {
      toChild := toChild + Length4(|payload|);
      toChild := toChild + payload;
      assert old(toChild) + Length4(|payload|) + payload == old(toChild) + Frame(payload);
    }

    /** The child's next bytes come through. */
    method Arrive(n: nat)
      modifies this`coming, this`fromChild
      ensures fromChild + coming == old(fromChild + coming)
    {
      var k := if n <= |coming| then n else |coming|;
      assert coming == coming[..k] + coming[k..];
      Assoc(fromChild, coming[..k], coming[k..]);
      fromChild, coming := fromChild + coming[..k], coming[k..];
    }

    /** One `read`: what is there, up to what is wanted. */
    method Take(most: nat) returns (chunk: Bytes)
      modifies this`fromChild
      ensures chunk + fromChild == old(fromChild)
      ensures |chunk| <= most && (|chunk| < most ==> fromChild == [])
    {
      var k := if |fromChild| <= most then |fromChild| else most;
      chunk := fromChild[..k];
      fromChild := fromChild[k..];
    }

    /** `read_exact` into a buffer of the given size, as the bytes arrive; what was read is gone on a timeout. */
    method ReadExact(size: nat, arrivals: seq<nat>) returns (buf: Bytes, used: nat)
      modifies this`coming, this`fromChild
      ensures used <= |arrivals| && |buf| <= size && (|buf| < size ==> fromChild == [])
      ensures buf + (fromChild + coming) == old(fromChild + coming)
    {
      used := 0;
      buf := Take(size);
      Assoc(buf, fromChild, coming);
      while |buf| < size && used < |arrivals|
        invariant used <= |arrivals| && |buf| <= size && (|buf| < size ==> fromChild == [])
        invariant buf + (fromChild + coming) == old(fromChild + coming)
      {
        Arrive(arrivals[used]);
        used := used + 1;
        var chunk := Take(size - |buf|);
        Assoc(chunk, fromChild, coming);
        Assoc(buf, chunk, fromChild + coming);
        buf := buf + chunk;
      }
    }

    /** The reading half of a call, under its timeout: it takes exactly one frame off what is on its way, or loses the
        part of one that it had read. */
    method ReadReply(arrivals: seq<nat>) returns (r: Read, lost: Bytes)
      modifies this`coming, this`fromChild
      ensures !r.TimedOut? ==> (r, fromChild + coming) == ReadFrame(old(fromChild + coming))
      ensures r.TimedOut? ==> fromChild == [] && lost + coming == old(fromChild + coming) && ReadFrame(lost).0.TimedOut?
    {
      ghost var whole := fromChild + coming;
      var head, used := ReadExact(4, arrivals);
      lost := head;
      if |head| < 4 {
        assert [] + coming == coming;
        return TimedOut, lost;
      }
      var n := Value4(head);
      ghost var middle := fromChild + coming;
      HeadRead(whole, head, middle);
      if n > MAX_REPLY {
        return TooLarge, lost;
      }
      var body, _ := ReadExact(n, arrivals[used..]);
      if |body| < n {
        lost := head + body;
        PartRead(head, body);
        assert [] + coming == coming;
        Assoc(head, body, coming);
        return TimedOut, lost;
      }
      BodyRead(whole, head, body, fromChild + coming);
      r := Done(body);
    }
  }

  lemma HeadRead(whole: Bytes, head: Bytes, rest: Bytes)
    requires whole == head + rest && |head| == 4
    ensures Value4(head) > MAX_REPLY ==> ReadFrame(whole) == (TooLarge, rest)
  {
    assert whole[..4] == head && whole[4..] == rest;
  }

  lemma BodyRead(whole: Bytes, head: Bytes, body: Bytes, rest: Bytes)
    requires whole == head + (body + rest) && |head| == 4 && Value4(head) == |body| <= MAX_REPLY
    ensures ReadFrame(whole) == (Done(body), rest)
  {
    assert whole[..4] == head && whole[4..4 + |body|] == body && whole[4 + |body|..] == rest;
  }

  lemma PartRead(head: Bytes, body: Bytes)
    requires |head| == 4 && |body| < Value4(head) <= MAX_REPLY
    ensures ReadFrame(head + body).0.TimedOut?
  {
    assert (head + body)[..4] == head;
  }

  // ---------------------------------------------------------------- runs of calls

  /** Calls of `send_raw_request` give up after a while; those of `send_witness_request_stdio` wait for ever. */
  datatype Kind = Raw | Witness

  /** The reply a call got, how many requests had been sent before its own, and how many reads had been abandoned. */
  datatype Result = Result(index: nat, abandoned: nat, reply: Bytes)

  datatype Machine = Machine(toChild: Bytes, coming: Bytes, fromChild: Bytes, holder: set<Kind>,
                             sent: seq<Bytes>, served: nat, abandoned: nat, results: seq<Result>)

  datatype Step =
    | Request(kind: Kind, payload: Bytes)
    | ChildServes
    | ChildEmits(n: nat)
    | Reply
    | Abandon

  /** A call writes when it has got the lock; a reader that has a whole frame before it does not time out. */
  predicate Enabled(m: Machine, step: Step) {
    match step
    case Request(_, payload) => m.holder == {} && |payload| < TWO_TO_THE_32
    case ChildServes => ReadsRequest(m.toChild)
    case ChildEmits(n) => n <= |m.coming|
    case Reply => m.holder != {} && !ReadFrame(m.fromChild).0.TimedOut?
    case Abandon => Raw in m.holder && ReadFrame(m.fromChild).0.TimedOut?
  }

  /** The child has a whole request before it. */
  predicate ReadsRequest(bytes: Bytes) {
    |bytes| >= 4 && |bytes| >= 4 + Value4(bytes[..4])
  }

  /** One step; `serve` is what the child answers to its n-th request. */
  function Next(serve: (nat, Bytes) -> Bytes, m: Machine, step: Step): Machine {
    match step
    case Request(kind, payload) =>
      m.(holder := {kind}, toChild := m.toChild + Frame(payload), sent := m.sent + [payload])
    case ChildServes =>
      if !ReadsRequest(m.toChild) then m
      else
        var end := 4 + Value4(m.toChild[..4]);
        m.(toChild := m.toChild[end..], coming := m.coming + Frame(serve(m.served, m.toChild[4..end])), served := m.served + 1)
    case ChildEmits(n) =>
      if n > |m.coming| then m
      else m.(coming := m.coming[n..], fromChild := m.fromChild + m.coming[..n])
    case Reply =>
      var (r, left) := ReadFrame(m.fromChild);
      m.(fromChild := left, holder := {},
         results := if r.Done? && m.sent != [] then m.results + [Result(|m.sent| - 1, m.abandoned, r.reply)] else m.results)
    case Abandon => m.(fromChild := [], holder := {}, abandoned := m.abandoned + 1)
  }

  function After(serve: (nat, Bytes) -> Bytes, m: Machine, steps: seq<Step>): Machine
    decreases |steps|
  {
    if steps == [] then m else After(serve, Next(serve, m, steps[0]), steps[1..])
  }

  /** A run in which every read that is abandoned is abandoned before its first byte. */
  predicate IsRun(serve: (nat, Bytes) -> Bytes, m: Machine, steps: seq<Step>)
    decreases |steps|
  {
    steps == [] ||
    (Enabled(m, steps[0]) && (steps[0].Abandon? ==> m.fromChild == []) && IsRun(serve, Next(serve, m, steps[0]), steps[1..]))
  }

  const FRESH := Machine([], [], [], {}, [], 0, 0, [])

  // ---------------------------------------------------------------- who gets which reply

  function Requests(sent: seq<Bytes>, from: nat): Bytes
    decreases |sent| - from
  {
    if from >= |sent| then [] else Frame(sent[from]) + Requests(sent, from + 1)
  }

  function Replies(serve: (nat, Bytes) -> Bytes, sent: seq<Bytes>, from: nat): Bytes
    decreases |sent| - from
  {
    if from >= |sent| then [] else Frame(serve(from, sent[from])) + Replies(serve, sent, from + 1)
  }

  lemma {:induction false} RequestsOneMore(sent: seq<Bytes>, payload: Bytes, from: nat)
    requires from <= |sent|
    ensures Requests(sent + [payload], from) == Requests(sent, from) + Frame(payload)
    decreases |sent| - from
  {
    var more := sent + [payload];
    if from == |sent| {
      assert Requests(more, from) == Frame(payload) + Requests(more, from + 1);
    } else {
      RequestsOneMore(sent, payload, from + 1);
      Assoc(Frame(sent[from]), Requests(sent, from + 1), Frame(payload));
    }
  }

  lemma {:induction false} RepliesOneMore(serve: (nat, Bytes) -> Bytes, sent: seq<Bytes>, payload: Bytes, from: nat)
    requires from <= |sent|
    ensures Replies(serve, sent + [payload], from) == Replies(serve, sent, from) + Frame(serve(|sent|, payload))
    decreases |sent| - from
  {
    var more := sent + [payload];
    if from == |sent| {
      assert Replies(serve, more, from) == Frame(serve(from, payload)) + Replies(serve, more, from + 1);
    } else {
      RepliesOneMore(serve, sent, payload, from + 1);
      Assoc(Frame(serve(from, sent[from])), Replies(serve, sent, from + 1), Frame(serve(|sent|, payload)));
    }
  }

  /** No request that can be framed is answered with more than the limit. */
  ghost predicate IsModest(serve: (nat, Bytes) -> Bytes) {
    forall i, p :: |p| < TWO_TO_THE_32 ==> |serve(i, p)| <= MAX_REPLY
  }

  predicate IsPaired(serve: (nat, Bytes) -> Bytes, sent: seq<Bytes>, r: Result) {
    r.abandoned <= r.index < |sent| && r.reply == serve(r.index - r.abandoned, sent[r.index - r.abandoned])
  }

  /** How many replies have been read off the pipe. */
  function Taken(m: Machine): int {
    |m.sent| - m.abandoned - (if m.holder == {} then 0 else 1)
  }

  /** On their way to the readers are, in order, exactly the replies not yet taken. */
  predicate InStep(serve: (nat, Bytes) -> Bytes, m: Machine) {
    m.served <= |m.sent| && (forall i :: 0 <= i < |m.sent| ==> |m.sent[i]| < TWO_TO_THE_32) &&
    m.toChild == Requests(m.sent, m.served) && 0 <= Taken(m) &&
    m.fromChild + m.coming + Replies(serve, m.sent, m.served) == Replies(serve, m.sent, Taken(m)) &&
    forall i :: 0 <= i < |m.results| ==> IsPaired(serve, m.sent, m.results[i])
  }

  lemma RequestStep(serve: (nat, Bytes) -> Bytes, m: Machine, kind: Kind, payload: Bytes)
    requires InStep(serve, m) && Enabled(m, Request(kind, payload))
    ensures InStep(serve, Next(serve, m, Request(kind, payload)))
  {
    RequestsOneMore(m.sent, payload, m.served);
    RepliesOneMore(serve, m.sent, payload, m.served);
    RepliesOneMore(serve, m.sent, payload, Taken(m));
    Assoc(m.fromChild + m.coming, Replies(serve, m.sent, m.served), Frame(serve(|m.sent|, payload)));
  }

  lemma ServeStep(serve: (nat, Bytes) -> Bytes, m: Machine)
    requires InStep(serve, m) && Enabled(m, ChildServes)
    ensures InStep(serve, Next(serve, m, ChildServes))
  {
    assert m.served < |m.sent|;
    var payload, rest := m.sent[m.served], Requests(m.sent, m.served + 1);
    HeadRequest(payload, rest);
    var reply, replies := Frame(serve(m.served, payload)), Replies(serve, m.sent, m.served + 1);
    RegroupReply(m.fromChild, m.coming, reply, replies);
  }

  lemma HeadRequest(payload: Bytes, rest: Bytes)
    requires |payload| < TWO_TO_THE_32
    ensures var all := Frame(payload) + rest;
            Value4(all[..4]) == |payload| && all[4..4 + |payload|] == payload && all[4 + |payload|..] == rest
  {
    assert (Frame(payload) + rest)[..4] == Length4(|payload|);
    LengthIsRead(|payload|);
  }

  lemma RegroupReply(a: Bytes, b: Bytes, c: Bytes, d: Bytes)
    ensures a + (b + c) + d == a + b + (c + d)
  {
  }

  lemma EmitStep(serve: (nat, Bytes) -> Bytes, m: Machine, n: nat)
    requires InStep(serve, m) && Enabled(m, ChildEmits(n))
    ensures InStep(serve, Next(serve, m, ChildEmits(n)))
  {
    assert m.coming == m.coming[..n] + m.coming[n..];
    Assoc(m.fromChild, m.coming[..n], m.coming[n..]);
  }

  /** A reader that has a whole frame before it takes the first frame on the way. */
  lemma TakesFirst(arrived: Bytes, more: Bytes, reply: Bytes, rest: Bytes)
    requires arrived + more == Frame(reply) + rest && |reply| <= MAX_REPLY && !ReadFrame(arrived).0.TimedOut?
    ensures ReadFrame(arrived).0 == Done(reply) && ReadFrame(arrived).1 + more == rest
  {
    ReadsSamePrefix(arrived, more);
    ReadsFrame(reply, rest);
  }

  lemma ReplyStep(serve: (nat, Bytes) -> Bytes, m: Machine)
    requires IsModest(serve) && InStep(serve, m) && Enabled(m, Reply)
    ensures InStep(serve, Next(serve, m, Reply))
  {
    var k := Taken(m);
    var unserved := Replies(serve, m.sent, m.served);
    var reply, rest := serve(k, m.sent[k]), Replies(serve, m.sent, k + 1);
    Assoc(m.fromChild, m.coming, unserved);
    TakesFirst(m.fromChild, m.coming + unserved, reply, rest);
    var left := ReadFrame(m.fromChild).1;
    Assoc(left, m.coming, unserved);
    assert Next(serve, m, Reply).results == m.results + [Result(|m.sent| - 1, m.abandoned, reply)];
  }

  lemma InStepStep(serve: (nat, Bytes) -> Bytes, m: Machine, step: Step)
    requires IsModest(serve) && InStep(serve, m) && Enabled(m, step) && (step.Abandon? ==> m.fromChild == [])
    ensures InStep(serve, Next(serve, m, step))
  {
    match step {
      case Request(kind, payload) => RequestStep(serve, m, kind, payload);
      case ChildServes => ServeStep(serve, m);
      case ChildEmits(n) => EmitStep(serve, m, n);
      case Reply => ReplyStep(serve, m);
      case Abandon =>
    }
  }

  lemma {:induction false} InStepRun(serve: (nat, Bytes) -> Bytes, m: Machine, steps: seq<Step>)
    requires IsModest(serve) && InStep(serve, m) && IsRun(serve, m, steps)
    ensures InStep(serve, After(serve, m, steps))
    decreases |steps|
  {
    if steps != [] {
      InStepStep(serve, m, steps[0]);
      InStepRun(serve, Next(serve, m, steps[0]), steps[1..]);
    }
  }

  /** After k reads abandoned before their first byte, every later call gets the reply to the request sent k before its
      own; with none abandoned, each call gets its own. */
  lemma RepliesLag(serve: (nat, Bytes) -> Bytes, steps: seq<Step>, i: nat)
    requires IsModest(serve) && IsRun(serve, FRESH, steps) && i < |After(serve, FRESH, steps).results|
    ensures var end := After(serve, FRESH, steps);
            var r := end.results[i];
            r.abandoned <= r.index < |end.sent| &&
            r.reply == serve(r.index - r.abandoned, end.sent[r.index - r.abandoned])
  {
    InStepRun(serve, FRESH, steps);
  }

  /** And nothing is under way in either pipe whenever the lock is free, exactly as long as no read was abandoned. */
  lemma PipesAreCleanIff(serve: (nat, Bytes) -> Bytes, steps: seq<Step>)
    requires IsModest(serve) && IsRun(serve, FRESH, steps) && After(serve, FRESH, steps).holder == {}
    ensures var end := After(serve, FRESH, steps);
            end.abandoned == 0 <==> end.toChild == [] && end.coming == [] && end.fromChild == []
  {
    InStepRun(serve, FRESH, steps);
    var end := After(serve, FRESH, steps);
    var k := Taken(end);
    if end.abandoned == 0 {
      assert Replies(serve, end.sent, k) == [];
      assert end.served == |end.sent|;
    } else {
      assert Replies(serve, end.sent, k) == Frame(serve(k, end.sent[k])) + Replies(serve, end.sent, k + 1);
      if end.toChild == [] {
        assert end.served == |end.sent|;
      }
    }
  }

  // ---------------------------------------------------------------- and exactly when each call gets its own

  /** Every call has got the reply to its own request, in order, and nothing is left in the pipes. */
  predicate IsServed(serve: (nat, Bytes) -> Bytes, m: Machine) {
    m.toChild == [] && m.coming == [] && m.fromChild == [] && |m.results| == |m.sent| &&
    forall i :: 0 <= i < |m.sent| ==> m.results[i] == Result(i, 0, serve(i, m.sent[i]))
  }

  predicate NeverAbandons(steps: seq<Step>) {
    forall i :: 0 <= i < |steps| ==> !steps[i].Abandon?
  }

  /** No call has failed: the n-th result is of the n-th call. */
  predicate IsGapless(m: Machine) {
    m.abandoned == 0 && |m.results| == Taken(m) &&
    forall i :: 0 <= i < |m.results| ==> m.results[i].index == i && m.results[i].abandoned == 0
  }

  lemma {:induction false} GaplessRun(serve: (nat, Bytes) -> Bytes, m: Machine, steps: seq<Step>)
    requires IsModest(serve) && InStep(serve, m) && IsGapless(m) && IsRun(serve, m, steps) && NeverAbandons(steps)
    ensures InStep(serve, After(serve, m, steps)) && IsGapless(After(serve, m, steps))
    decreases |steps|
  {
    if steps != [] {
      InStepStep(serve, m, steps[0]);
      if steps[0].Reply? {
        ReplyIsDone(serve, m);
      }
      GaplessRun(serve, Next(serve, m, steps[0]), steps[1..]);
    }
  }

  lemma ReplyIsDone(serve: (nat, Bytes) -> Bytes, m: Machine)
    requires IsModest(serve) && InStep(serve, m) && Enabled(m, Reply)
    ensures ReadFrame(m.fromChild).0.Done? && m.sent != []
  {
    var k, unserved := Taken(m), Replies(serve, m.sent, m.served);
    Assoc(m.fromChild, m.coming, unserved);
    TakesFirst(m.fromChild, m.coming + unserved, serve(k, m.sent[k]), Replies(serve, m.sent, k + 1));
  }

  lemma ServedWhenModest(serve: (nat, Bytes) -> Bytes, steps: seq<Step>)
    requires IsModest(serve) && IsRun(serve, FRESH, steps) && NeverAbandons(steps) && After(serve, FRESH, steps).holder == {}
    ensures IsServed(serve, After(serve, FRESH, steps))
  {
    GaplessRun(serve, FRESH, steps);
    PipesAreCleanIff(serve, steps);
    var end := After(serve, FRESH, steps);
    forall i | 0 <= i < |end.sent|
      ensures end.results[i] == Result(i, 0, serve(i, end.sent[i]))
    {
      assert IsPaired(serve, end.sent, end.results[i]);
    }
  }

  // ---------------------------------------------------------------- one call, undisturbed

  /** Nothing is under way, except for `junk` that an earlier reply has left. */
  predicate IsIdle(m: Machine, junk: Bytes) {
    m.toChild == [] && m.coming == [] && m.fromChild == junk && m.holder == {} && m.served == |m.sent|
  }

  function CallSteps(payload: Bytes, reply: Bytes): seq<Step> {
    [Request(Raw, payload)] + ([ChildServes] + ([ChildEmits(|Frame(reply)|)] + [Reply]))
  }

  lemma FirstStep(serve: (nat, Bytes) -> Bytes, m: Machine, step: Step, next: Machine, rest: seq<Step>)
    requires Enabled(m, step) && !step.Abandon? && Next(serve, m, step) == next
    ensures IsRun(serve, m, [step] + rest) == IsRun(serve, next, rest)
    ensures After(serve, m, [step] + rest) == After(serve, next, rest)
  {
    assert ([step] + rest)[1..] == rest;
  }

  /** The machine after a call that found `junk` before its reply. */
  function Ended(serve: (nat, Bytes) -> Bytes, m: Machine, junk: Bytes, payload: Bytes): Machine {
    var (r, left) := ReadFrame(junk + Frame(serve(|m.sent|, payload)));
    Machine([], [], left, {}, m.sent + [payload], m.served + 1, m.abandoned,
            m.results + if r.Done? then [Result(|m.sent|, m.abandoned, r.reply)] else [])
  }

  /** It ends as one who read both would. */
  lemma CallEnds(serve: (nat, Bytes) -> Bytes, m: Machine, junk: Bytes, payload: Bytes, rest: seq<Step>)
    requires IsIdle(m, junk) && |payload| < TWO_TO_THE_32
    requires !ReadFrame(junk + Frame(serve(|m.sent|, payload))).0.TimedOut?
    ensures var steps, end := CallSteps(payload, serve(|m.sent|, payload)) + rest, Ended(serve, m, junk, payload);
            IsRun(serve, m, steps) == IsRun(serve, end, rest) && After(serve, m, steps) == After(serve, end, rest)
  {
    var frame, end := Frame(serve(|m.sent|, payload)), Ended(serve, m, junk, payload);
    var m1 := m.(holder := {Raw}, toChild := Frame(payload), sent := m.sent + [payload]);
    var m2 := m1.(toChild := [], coming := frame, served := m.served + 1);
    var m3 := m2.(coming := [], fromChild := junk + frame);
    var s3 := [Reply] + rest;
    assert m.results + [] == m.results;
    FirstStep(serve, m3, Reply, end, rest);
    assert frame[..|frame|] == frame && frame[|frame|..] == [];
    FirstStep(serve, m2, ChildEmits(|frame|), m3, s3);
    ServesOne(serve, m1, payload, m2);
    FirstStep(serve, m1, ChildServes, m2, [ChildEmits(|frame|)] + s3);
    assert m.toChild + Frame(payload) == Frame(payload);
    FirstStep(serve, m, Request(Raw, payload), m1, [ChildServes] + ([ChildEmits(|frame|)] + s3));
    assert CallSteps(payload, serve(|m.sent|, payload)) + rest ==
           [Request(Raw, payload)] + ([ChildServes] + ([ChildEmits(|frame|)] + s3));
  }

  lemma ServesOne(serve: (nat, Bytes) -> Bytes, m: Machine, payload: Bytes, next: Machine)
    requires m.toChild == Frame(payload) && |payload| < TWO_TO_THE_32 && m.coming == []
    requires next == m.(toChild := [], coming := Frame(serve(m.served, payload)), served := m.served + 1)
    ensures Enabled(m, ChildServes) && Next(serve, m, ChildServes) == next
  {
    HeadRequest(payload, []);
    assert Frame(payload) + [] == Frame(payload);
    assert [] + Frame(serve(m.served, payload)) == Frame(serve(m.served, payload));
  }

  lemma ReadsOwnFrame(reply: Bytes)
    requires |reply| < TWO_TO_THE_32
    ensures ReadFrame([] + Frame(reply)) == if |reply| > MAX_REPLY then (TooLarge, reply) else (Done(reply), [])
  {
    ReadsFrame(reply, []);
    assert [] + Frame(reply) == Frame(reply) + [] && reply + [] == reply;
  }

  // ---------------------------------------------------------------- a reply over the limit

  /** What a 32-bit length can announce. */
  ghost predicate IsFramed(serve: (nat, Bytes) -> Bytes) {
    forall i, p :: |p| < TWO_TO_THE_32 ==> |serve(i, p)| < TWO_TO_THE_32
  }

  /** Calls that get their replies, up to the `n`-th, which gets none and leaves its reply in the pipe. */
  lemma {:induction false} CallsThenOversize(serve: (nat, Bytes) -> Bytes, m: Machine, n: nat, payload: Bytes) returns (steps: seq<Step>)
    requires IsFramed(serve) && IsIdle(m, []) && |payload| < TWO_TO_THE_32 && |m.sent| <= n
    requires forall i :: |m.sent| <= i < n ==> |serve(i, [])| <= MAX_REPLY
    requires |serve(n, payload)| > MAX_REPLY
    ensures IsRun(serve, m, steps) && NeverAbandons(steps)
    ensures IsIdle(After(serve, m, steps), serve(n, payload))
    decreases n - |m.sent|
  {
    var p := if |m.sent| == n then payload else [];
    ReadsOwnFrame(serve(|m.sent|, p));
    var more: seq<Step> := [];
    if |m.sent| < n {
      more := CallsThenOversize(serve, Ended(serve, m, [], p), n, payload);
    }
    CallEnds(serve, m, [], p, more);
    steps := CallSteps(p, serve(|m.sent|, p)) + more;
  }

  /** Without a read ever abandoned: each call gets the reply to its own request, and the pipes are empty whenever the lock
      is free, in all runs if and only if no reply exceeds the limit. */
  lemma EachGetsItsOwnIff(serve: (nat, Bytes) -> Bytes)
    requires IsFramed(serve)
    ensures (forall steps :: IsRun(serve, FRESH, steps) && NeverAbandons(steps) && After(serve, FRESH, steps).holder == {} ==>
               IsServed(serve, After(serve, FRESH, steps))) <==>
            IsModest(serve)
  {
    if IsModest(serve) {
      forall steps | IsRun(serve, FRESH, steps) && NeverAbandons(steps) && After(serve, FRESH, steps).holder == {}
        ensures IsServed(serve, After(serve, FRESH, steps))
      {
        ServedWhenModest(serve, steps);
      }
    } else {
      var i, p :| |p| < TWO_TO_THE_32 && |serve(i, p)| > MAX_REPLY;
      var n, payload := FirstOversize(serve, i, p);
      var steps := CallsThenOversize(serve, FRESH, n, payload);
      assert !IsServed(serve, After(serve, FRESH, steps));
    }
  }

  lemma {:induction false} FirstOversize(serve: (nat, Bytes) -> Bytes, i: nat, p: Bytes) returns (n: nat, payload: Bytes)
    requires |p| < TWO_TO_THE_32 && |serve(i, p)| > MAX_REPLY
    ensures |payload| < TWO_TO_THE_32 && |serve(n, payload)| > MAX_REPLY
    ensures forall j :: 0 <= j < n ==> |serve(j, [])| <= MAX_REPLY
    decreases i
  {
    if j :| 0 <= j < i && |serve(j, [])| > MAX_REPLY {
      n, payload := FirstOversize(serve, j, []);
    } else {
      n, payload := i, p;
    }
  }

  /** What the call after an oversize reply gets: whatever the reply's body, taken for frames, begins with. If that is a whole
      frame `first`, the call gets `first`, whatever it asked, and it is the right reply only by chance. */
  lemma CallAfterOversize(serve: (nat, Bytes) -> Bytes, p: Bytes, q: Bytes, first: Bytes, rest: Bytes) returns (steps: seq<Step>)
    requires IsFramed(serve) && |p| < TWO_TO_THE_32 && |q| < TWO_TO_THE_32
    requires serve(0, p) == Frame(first) + rest && |first| <= MAX_REPLY < |serve(0, p)|
    ensures IsRun(serve, FRESH, steps) && NeverAbandons(steps)
    ensures var end := After(serve, FRESH, steps);
            end.holder == {} && end.sent == [p, q] && end.results == [Result(1, 0, first)] &&
            (IsPaired(serve, end.sent, end.results[0]) <==> first == serve(1, q))
  {
    var body, own := serve(0, p), Frame(serve(1, q));
    var asked := CallSteps(q, serve(1, q)) + [];
    ReadsOwnFrame(body);
    CallEnds(serve, FRESH, [], p, asked);
    Assoc(Frame(first), rest, own);
    ReadsFrame(first, rest + own);
    CallEnds(serve, Ended(serve, FRESH, [], p), body, q, []);
    steps := CallSteps(p, body) + asked;
  }
}
