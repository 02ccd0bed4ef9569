/** ANTIE's per-wallet rate limiter, which forgets old entries to bound its memory. */
module WalletLimiter {
  import opened Spacing

  type Table = map<string, nat>

  /** `check_and_record` refuses when the last accepted request is less than a cooldown ago. */
  predicate IsDenied(cooldown: nat, last: Table, wallet: string, now: nat) {
    wallet in last && now - last[wallet] < cooldown
  }

  function Recorded(cooldown: nat, last: Table, wallet: string, now: nat): Table {
    if IsDenied(cooldown, last, wallet, now) then last else last[wallet := now]
  }

  /** `evict_stale` keeps what is younger than two cooldowns. */
  function Evicted(cooldown: nat, last: Table, now: nat): Table {
    map w | w in last && last[w] > now - 2 * cooldown :: last[w]
  }

  datatype Verdict = Exempt | Allowed | RateLimited

  class WalletRateLimiter {
    var lastRequest: Table
    const cooldown: nat

    constructor (cooldownMs: nat)
      ensures lastRequest == map[] && cooldown == cooldownMs
    {
      lastRequest, cooldown := map[], cooldownMs;
    }

    method CheckAndRecord(wallet: string, now: nat) returns (allowed: bool)
      modifies this`lastRequest
      ensures allowed <==> !IsDenied(cooldown, old(lastRequest), wallet, now)
      ensures lastRequest == Recorded(cooldown, old(lastRequest), wallet, now)
    {
      if wallet in lastRequest {
        if now - lastRequest[wallet] < cooldown {
          return false;
        }
      }
      lastRequest := lastRequest[wallet := now];
      allowed := true;
    }

    method EvictStale(now: nat)
      modifies this`lastRequest
      ensures lastRequest == Evicted(cooldown, old(lastRequest), now)
    {
      var cutoff := now - cooldown * 2;
      lastRequest := map w | w in lastRequest && lastRequest[w] > cutoff :: lastRequest[w];
    }

    /** What a witness request meets: overlap requests and those without a wallet are exempt; a large table is swept. */
    method Admit(hasOverlap: bool, wallet: string, now: nat, later: nat) returns (v: Verdict)
      modifies this`lastRequest
      ensures v == if hasOverlap || wallet == "" then Exempt
                   else if IsDenied(cooldown, old(lastRequest), wallet, now) then RateLimited else Allowed
      ensures lastRequest == if v.Allowed? then
                               var recorded := Recorded(cooldown, old(lastRequest), wallet, now);
                               if |recorded| > 100 then Evicted(cooldown, recorded, later) else recorded
                             else old(lastRequest)
    {
      if hasOverlap || wallet == "" {
        return Exempt;
      }
      var allowed := CheckAndRecord(wallet, now);
      if !allowed {
        return RateLimited;
      }
      if |lastRequest| > 100 {
        EvictStale(later);
      }
      v := Allowed;
    }
  }

  // ---------------------------------------------------------------- traces

  datatype Event = Request(wallet: string, now: nat) | Evict(now: nat)

  predicate IsTimely(trace: seq<Event>) {
    forall i, j :: 0 <= i < j < |trace| ==> trace[i].now <= trace[j].now
  }

  /** The decisions on the requests of a trace, from a given table; `evicts` switches the sweeping on. */
  function Decisions(cooldown: nat, last: Table, trace: seq<Event>, evicts: bool): seq<bool>
    decreases |trace|
  {
    if trace == [] then []
    else match trace[0]
         case Request(wallet, now) =>
           [!IsDenied(cooldown, last, wallet, now)] +
           Decisions(cooldown, Recorded(cooldown, last, wallet, now), trace[1..], evicts)
         case Evict(now) =>
           Decisions(cooldown, if evicts then Evicted(cooldown, last, now) else last, trace[1..], evicts)
  }

  /** A swept table agrees with a full one except for entries that could no longer refuse anything. */
  predicate Agrees(cooldown: nat, swept: Table, full: Table, now: nat) {
    (forall w :: w in swept ==> w in full && full[w] == swept[w]) &&
    (forall w :: w in full && w !in swept ==> full[w] + 2 * cooldown <= now)
  }

  lemma {:induction false} SweptAgrees(cooldown: nat, swept: Table, full: Table, trace: seq<Event>, now: nat)
    requires Agrees(cooldown, swept, full, now) && IsTimely(trace) && (trace != [] ==> now <= trace[0].now)
    ensures Decisions(cooldown, swept, trace, true) == Decisions(cooldown, full, trace, false)
    decreases |trace|
  {
    if trace != [] {
      var t := trace[0].now;
      match trace[0] {
        case Request(wallet, _) =>
          SweptAgrees(cooldown, Recorded(cooldown, swept, wallet, t), Recorded(cooldown, full, wallet, t), trace[1..], t);
        case Evict(_) =>
          SweptAgrees(cooldown, Evicted(cooldown, swept, t), full, trace[1..], t);
      }
    }
  }

  /** Over every trace, with evictions at any moments: the limiter decides as one that never forgets. */
  lemma EvictionIsInvisible(cooldown: nat, trace: seq<Event>)
    requires IsTimely(trace)
    ensures Decisions(cooldown, map[], trace, true) == Decisions(cooldown, map[], trace, false)
  {
    SweptAgrees(cooldown, map[], map[], trace, 0);
  }

  /** When the requests of one wallet were accepted. */
  function AcceptedTimes(cooldown: nat, last: Table, trace: seq<Event>, evicts: bool, wallet: string): seq<Mark>
    decreases |trace|
  {
    if trace == [] then []
    else match trace[0]
         case Request(w, now) =>
           (if w == wallet && !IsDenied(cooldown, last, w, now) then [Mark.Event(now as real)] else []) +
           AcceptedTimes(cooldown, Recorded(cooldown, last, w, now), trace[1..], evicts, wallet)
         case Evict(now) =>
           AcceptedTimes(cooldown, if evicts then Evicted(cooldown, last, now) else last, trace[1..], evicts, wallet)
  }

  lemma SpacedBehind(first: seq<Mark>, rest: seq<Mark>, gap: real)
    requires |first| <= 1 && IsSpaced(rest, gap) && gap >= 0.0
    requires first != [] && rest != [] ==> first[0].at + gap <= rest[0].at
    ensures IsSpaced(first + rest, gap)
  {
  }

  /** Events a cooldown apart, none earlier than `start`, and none within a cooldown of the wallet's last request. */
  predicate AreSpaced(cooldown: nat, last: Table, times: seq<Mark>, wallet: string, start: real) {
    IsSpaced(times, cooldown as real) && (forall i :: 0 <= i < |times| ==> times[i].Event?) &&
    (times != [] && wallet in last ==> last[wallet] as real + cooldown as real <= times[0].at) &&
    (times != [] ==> start <= times[0].at)
  }

  lemma SpacedAccepted(cooldown: nat, last: Table, now: nat, rest: seq<Mark>, wallet: string)
    requires !IsDenied(cooldown, last, wallet, now) && AreSpaced(cooldown, last[wallet := now], rest, wallet, now as real)
    ensures AreSpaced(cooldown, last, [Mark.Event(now as real)] + rest, wallet, now as real)
  {
    var first := [Mark.Event(now as real)];
    SpacedBehind(first, rest, cooldown as real);
    assert forall i :: 0 < i < |first + rest| ==> (first + rest)[i] == rest[i - 1];
  }

  lemma SpacedRequest(cooldown: nat, last: Table, w: string, now: nat, rest: seq<Mark>, wallet: string)
    requires AreSpaced(cooldown, Recorded(cooldown, last, w, now), rest, wallet, now as real)
    ensures AreSpaced(cooldown, last, (if w == wallet && !IsDenied(cooldown, last, w, now) then [Mark.Event(now as real)] else []) + rest,
                      wallet, now as real)
  {
    if w == wallet && !IsDenied(cooldown, last, w, now) {
      SpacedAccepted(cooldown, last, now, rest, wallet);
    } else {
      assert [] + rest == rest;
    }
  }

  /** Accepted requests keep a cooldown's distance, from each other and from the last one recorded. */
  lemma {:induction false} AcceptedAreSpaced(cooldown: nat, last: Table, trace: seq<Event>, wallet: string, start: nat)
    requires IsTimely(trace) && (trace != [] ==> start <= trace[0].now)
    ensures AreSpaced(cooldown, last, AcceptedTimes(cooldown, last, trace, false, wallet), wallet, start as real)
    decreases |trace|
  {
    if trace != [] {
      match trace[0] {
        case Request(w, now) =>
          var after := Recorded(cooldown, last, w, now);
          AcceptedAreSpaced(cooldown, after, trace[1..], wallet, now);
          SpacedRequest(cooldown, last, w, now, AcceptedTimes(cooldown, after, trace[1..], false, wallet), wallet);
        case Evict(now) => AcceptedAreSpaced(cooldown, last, trace[1..], wallet, now);
      }
    }
  }

  lemma {:induction false} SweptAccepts(cooldown: nat, swept: Table, full: Table, trace: seq<Event>, now: nat, wallet: string)
    requires Agrees(cooldown, swept, full, now) && IsTimely(trace) && (trace != [] ==> now <= trace[0].now)
    ensures AcceptedTimes(cooldown, swept, trace, true, wallet) == AcceptedTimes(cooldown, full, trace, false, wallet)
    decreases |trace|
  {
    if trace != [] {
      var t := trace[0].now;
      match trace[0] {
        case Request(w, _) =>
          SweptAccepts(cooldown, Recorded(cooldown, swept, w, t), Recorded(cooldown, full, w, t), trace[1..], t, wallet);
        case Evict(_) =>
          SweptAccepts(cooldown, Evicted(cooldown, swept, t), full, trace[1..], t, wallet);
      }
    }
  }

  // ---------------------------------------------------------------- exactly which requests are refused

  /** The table after a trace. */
  function TableAfter(cooldown: nat, last: Table, trace: seq<Event>): Table
    decreases |trace|
  {
    if trace == [] then last
    else match trace[0]
         case Request(wallet, now) => TableAfter(cooldown, Recorded(cooldown, last, wallet, now), trace[1..])
         case Evict(now) => TableAfter(cooldown, Evicted(cooldown, last, now), trace[1..])
  }

  function LastOf(times: seq<Mark>, before: real): real {
    if times == [] then before else times[|times| - 1].at
  }

  lemma LastOfMore(first: Mark, rest: seq<Mark>, before: real)
    ensures LastOf([first] + rest, before) == LastOf(rest, first.at)
  {
  }

  /** A full table holds for each wallet when its last request was accepted. */
  lemma {:induction false} FullTableIs(cooldown: nat, last: Table, trace: seq<Event>, wallet: string)
    requires IsTimely(trace)
    ensures var full, times := FullAfter(cooldown, last, trace), AcceptedTimes(cooldown, last, trace, false, wallet);
            (wallet in full <==> wallet in last || times != []) &&
            (wallet in full ==> full[wallet] as real == LastOf(times, if wallet in last then last[wallet] as real else 0.0))
    decreases |trace|
  {
    if trace != [] {
      match trace[0] {
        case Request(w, now) =>
          var after := Recorded(cooldown, last, w, now);
          FullTableIs(cooldown, after, trace[1..], wallet);
          var rest := AcceptedTimes(cooldown, after, trace[1..], false, wallet);
          LastOfMore(Mark.Event(now as real), rest, 0.0);
          assert [] + rest == rest;
        case Evict(_) => FullTableIs(cooldown, last, trace[1..], wallet);
      }
    }
  }

  /** The table of a limiter that never forgets. */
  function FullAfter(cooldown: nat, last: Table, trace: seq<Event>): Table
    decreases |trace|
  {
    if trace == [] then last
    else match trace[0]
         case Request(wallet, now) => FullAfter(cooldown, Recorded(cooldown, last, wallet, now), trace[1..])
         case Evict(_) => FullAfter(cooldown, last, trace[1..])
  }

  lemma {:induction false} TablesAgree(cooldown: nat, swept: Table, full: Table, trace: seq<Event>, now: nat, end: nat)
    requires Agrees(cooldown, swept, full, now) && IsTimely(trace)
    requires (trace != [] ==> now <= trace[0].now && trace[|trace| - 1].now <= end) && now <= end
    ensures Agrees(cooldown, TableAfter(cooldown, swept, trace), FullAfter(cooldown, full, trace), end)
    decreases |trace|
  {
    if trace != [] {
      var t := trace[0].now;
      assert t <= trace[|trace| - 1].now;
      match trace[0] {
        case Request(w, _) =>
          TablesAgree(cooldown, Recorded(cooldown, swept, w, t), Recorded(cooldown, full, w, t), trace[1..], t, end);
        case Evict(_) =>
          TablesAgree(cooldown, Evicted(cooldown, swept, t), full, trace[1..], t, end);
      }
    }
  }

  lemma {:induction false} DecisionsOneMore(cooldown: nat, last: Table, trace: seq<Event>, wallet: string, now: nat)
    ensures Decisions(cooldown, last, trace + [Request(wallet, now)], true) ==
            Decisions(cooldown, last, trace, true) + [!IsDenied(cooldown, TableAfter(cooldown, last, trace), wallet, now)]
    decreases |trace|
  {
    var more := trace + [Request(wallet, now)];
    if trace == [] {
      assert more == [Request(wallet, now)] && more[1..] == [];
      assert Decisions(cooldown, Recorded(cooldown, last, wallet, now), more[1..], true) == [];
    } else {
      assert more[0] == trace[0] && more[1..] == trace[1..] + [Request(wallet, now)];
      match trace[0] {
        case Request(w, t) => DecisionsOneMore(cooldown, Recorded(cooldown, last, w, t), trace[1..], wallet, now);
        case Evict(t) => DecisionsOneMore(cooldown, Evicted(cooldown, last, t), trace[1..], wallet, now);
      }
    }
  }

  /** Over every trace with evictions at any moments: one more request is decided last, and is refused exactly when the wallet's last
      accepted one is less than a cooldown ago. */
  lemma DeniedIff(cooldown: nat, trace: seq<Event>, wallet: string, now: nat)
    requires IsTimely(trace) && (trace != [] ==> trace[|trace| - 1].now <= now)
    ensures var times := AcceptedTimes(cooldown, map[], trace, true, wallet);
            var refused := times != [] && now as real - times[|times| - 1].at < cooldown as real;
            Decisions(cooldown, map[], trace + [Request(wallet, now)], true) == Decisions(cooldown, map[], trace, true) + [!refused]
  {
    DecisionsOneMore(cooldown, map[], trace, wallet, now);
    TablesAgree(cooldown, map[], map[], trace, 0, now);
    FullTableIs(cooldown, map[], trace, wallet);
    SweptAccepts(cooldown, map[], map[], trace, 0, wallet);
  }

  /** A sweep leaves exactly the wallets with a request accepted less than two cooldowns ago: that bounds the table. */
  lemma SweptHoldsRecent(cooldown: nat, trace: seq<Event>, wallet: string, now: nat)
    requires IsTimely(trace) && (trace != [] ==> trace[|trace| - 1].now <= now)
    ensures var times := AcceptedTimes(cooldown, map[], trace, true, wallet);
            wallet in Evicted(cooldown, TableAfter(cooldown, map[], trace), now) <==>
            times != [] && now as real - times[|times| - 1].at < 2.0 * cooldown as real
  {
    TablesAgree(cooldown, map[], map[], trace, 0, now);
    FullTableIs(cooldown, map[], trace, wallet);
    SweptAccepts(cooldown, map[], map[], trace, 0, wallet);
  }

  /** With a positive cooldown c, the limiter accepts at most floor(T / c) + 1 requests of a wallet in any window T. */
  lemma AcceptBound(cooldown: nat, trace: seq<Event>, wallet: string, from: real, to: real)
    requires IsTimely(trace) && cooldown > 0 && from <= to
    ensures CountEvents(AcceptedTimes(cooldown, map[], trace, true, wallet), from, to) <= Quotient(to - from, cooldown as real) + 1
  {
    SweptAccepts(cooldown, map[], map[], trace, 0, wallet);
    AcceptedAreSpaced(cooldown, map[], trace, wallet, 0);
    var times := AcceptedTimes(cooldown, map[], trace, false, wallet);
    AtMostInWindow(times, cooldown as real, from, to);
    NoResets(times, from, to);
  }

  lemma {:induction false} NoResets(times: seq<Mark>, from: real, to: real)
    requires forall i :: 0 <= i < |times| ==> times[i].Event?
    ensures CountResets(times, from, to) == 0
  {
    if times != [] {
      NoResets(times[..|times| - 1], from, to);
    }
  }
}
