/** FATMAMA's bounded ring of events, and what its dashboard reads from it: the newest events, and totals by recipient
    over a window, both compared with the full history that the ring forgets. */
module EventRing {
  datatype Event = Event(ts: real, kind: string, addr: string, bytes: nat)

  datatype Totals = Totals(count: nat, bytes: nat)

  // ---------------------------------------------------------------- /events

  /** Newer than `since`, and of the kind and address asked for; an empty filter asks for none. */
  predicate IsWanted(ev: Event, since: real, kind: string, addr: string) {
    ev.ts > since && (kind == "" || ev.kind == kind) && (addr == "" || ev.addr == addr)
  }

  function Wanted(events: seq<Event>, since: real, kind: string, addr: string): seq<Event> {
    if events == [] then []
    else
      var last := events[|events| - 1];
      Wanted(events[..|events| - 1], since, kind, addr) + if IsWanted(last, since, kind, addr) then [last] else []
  }

  function Clamp(limit: int): nat {
    if limit < 1 then 1 else if limit > 2000 then 2000 else limit
  }

  function Newest<T>(s: seq<T>, n: nat): seq<T> {
    if |s| <= n then s else s[|s| - n..]
  }

  // ---------------------------------------------------------------- /per-recipient

  predicate IsCounted(ev: Event, cutoff: real) {
    ev.ts >= cutoff && ev.kind == "DELIVER" && ev.addr != ""
  }

  function Added(recipients: map<string, Totals>, ev: Event): map<string, Totals> {
    var d := if ev.addr in recipients then recipients[ev.addr] else Totals(0, 0);
    recipients[ev.addr := Totals(d.count + 1, d.bytes + ev.bytes)]
  }

  /** The flag: the ring is full and does not reach back to the cutoff. */
  predicate IsTruncated(ring: seq<Event>, capacity: nat, cutoff: real) {
    ring != [] && |ring| == capacity && ring[0].ts > cutoff
  }

  function Tally(events: seq<Event>, cutoff: real): map<string, Totals> {
    if events == [] then map[]
    else
      var last := events[|events| - 1];
      var earlier := Tally(events[..|events| - 1], cutoff);
      if IsCounted(last, cutoff) then Added(earlier, last) else earlier
  }

  // ---------------------------------------------------------------- the ring

  class Ring {
    const capacity: nat
    var ring: seq<Event>
    ghost var history: seq<Event>

    /** The ring holds the newest events ever recorded, as many as fit. */
    ghost predicate Valid()
      reads this
    {
      ring == Newest(history, capacity)
    }

    constructor (capacity: nat)
      ensures Valid() && history == [] && this.capacity == capacity
    {
      this.capacity := capacity;
      ring := [];
      history := [];
    }

    /** `_record_event` on a deque with a maximal length. */
    method Record(ev: Event)
      requires Valid()
      modifies this`ring, this`history
      ensures Valid() && history == old(history) + [ev]
    {
      history := history + [ev];
      ring := ring + [ev];
      if |ring| > capacity {
        ring := ring[1..];
      }
    }

    /** `/events`: from the newest backwards, up to the limit, then turned round. */
    method Events(since: real, limit: int, kind: string, addr: string) returns (events: seq<Event>)
      requires IsOrdered(ring)
      ensures events == Newest(Wanted(ring, since, kind, addr), Clamp(limit))
    {
      var most := Clamp(limit);
      events := [];
      var i := |ring|;
      assert ring[..i] == ring;
      ghost var all := Wanted(ring, since, kind, addr);
      assert all == Wanted(ring[..i], since, kind, addr) + events;
      while i > 0
        invariant 0 <= i <= |ring| && |events| < most
        invariant all == Wanted(ring[..i], since, kind, addr) + events
      {
        i := i - 1;
        var ev := ring[i];
        assert ring[..i + 1][..i] == ring[..i];
        if ev.ts <= since {
          NoneWanted(ring[..i + 1], since, kind, addr);
          assert all == events;
          return;
        }
        if IsWanted(ev, since, kind, addr) {
          assert Wanted(ring[..i], since, kind, addr) + [ev] + events == Wanted(ring[..i], since, kind, addr) + ([ev] + events);
          events := [ev] + events;
          if |events| >= most {
            NewestTail(Wanted(ring[..i], since, kind, addr), events);
            return;
          }
        }
      }
      assert all == events;
    }

    /** `/per-recipient`: totals by address since the cutoff, and whether the ring may have forgotten some. */
    method PerRecipient(cutoff: real) returns (recipients: map<string, Totals>, truncated: bool)
      ensures recipients == Tally(ring, cutoff)
      ensures truncated <==> IsTruncated(ring, capacity, cutoff)
    {
      recipients := map[];
      for i := 0 to |ring|
        invariant recipients == Tally(ring[..i], cutoff)
      {
        var ev := ring[i];
        assert ring[..i + 1][..i] == ring[..i];
        if ev.ts >= cutoff && ev.kind == "DELIVER" && ev.addr != "" {
          var d := if ev.addr in recipients then recipients[ev.addr] else Totals(0, 0);
          recipients := recipients[ev.addr := Totals(d.count + 1, d.bytes + ev.bytes)];
        }
      }
      assert ring[..|ring|] == ring;
      truncated := ring != [] && |ring| == capacity && ring[0].ts > cutoff;
    }
  }

  predicate IsOrdered(events: seq<Event>) {
    forall i, j :: 0 <= i < j < |events| ==> events[i].ts <= events[j].ts
  }

  predicate IsIncreasing(events: seq<Event>) {
    forall i, j :: 0 <= i < j < |events| ==> events[i].ts < events[j].ts
  }

  lemma NewestTail<T>(front: seq<T>, tail: seq<T>)
    ensures Newest(front + tail, |tail|) == tail
  {
  }

  lemma {:induction false} NoneWanted(events: seq<Event>, since: real, kind: string, addr: string)
    requires forall i :: 0 <= i < |events| ==> events[i].ts <= since
    ensures Wanted(events, since, kind, addr) == []
  {
    if events != [] {
      NoneWanted(events[..|events| - 1], since, kind, addr);
    }
  }

  // ---------------------------------------------------------------- what the readers mean

  lemma OneMoreTimes(front: seq<Event>, last: Event, ev: Event)
    ensures multiset(front + [last])[ev] == multiset(front)[ev] + if ev == last then 1 else 0
  {
  }

  lemma {:induction false} PickedIs(events: seq<Event>, since: real, kind: string, addr: string, ev: Event)
    ensures multiset(Wanted(events, since, kind, addr))[ev] == if IsWanted(ev, since, kind, addr) then multiset(events)[ev] else 0
  {
    if events != [] {
      var front, last := events[..|events| - 1], events[|events| - 1];
      var picked := Wanted(front, since, kind, addr);
      PickedIs(front, since, kind, addr, ev);
      assert events == front + [last];
      OneMoreTimes(front, last, ev);
      OneMoreTimes(picked, last, ev);
      assert picked + [] == picked;
    }
  }

  /** Each event that is newer than `since` and of the kind and the address asked for, where one is asked for, is picked as often as
      it stands there, and no other. */
  lemma WantedIs(events: seq<Event>, since: real, kind: string, addr: string, ev: Event)
    ensures multiset(Wanted(events, since, kind, addr))[ev] ==
            if since < ev.ts && kind in {"", ev.kind} && addr in {"", ev.addr} then multiset(events)[ev] else 0
  {
    PickedIs(events, since, kind, addr, ev);
  }

  /** A limit counts as the nearest number from 1 to 2000. */
  lemma ClampIs(limit: int, n: nat)
    requires 1 <= n <= 2000
    ensures 1 <= Clamp(limit) <= 2000
    ensures (if limit < Clamp(limit) then Clamp(limit) - limit else limit - Clamp(limit)) <= if limit < n then n - limit else limit - n
  {
  }

  /** And what was in order of time stays in it. */
  lemma {:induction false} WantedIsOrdered(events: seq<Event>, since: real, kind: string, addr: string)
    requires IsOrdered(events)
    ensures IsOrdered(Wanted(events, since, kind, addr))
  {
    if events != [] {
      var front := events[..|events| - 1];
      WantedIsOrdered(front, since, kind, addr);
      WantedAreThere(front, since, kind, addr);
      forall ev | ev in Wanted(front, since, kind, addr)
        ensures ev.ts <= events[|events| - 1].ts
      {
        assert ev in front;
      }
    }
  }

  lemma {:induction false} WantedAreThere(events: seq<Event>, since: real, kind: string, addr: string)
    ensures forall ev :: ev in Wanted(events, since, kind, addr) ==> ev in events
  {
    if events != [] {
      WantedAreThere(events[..|events| - 1], since, kind, addr);
    }
  }

  /** A delivery to the address in the window. */
  predicate IsDeliveryTo(ev: Event, cutoff: real, addr: string) {
    ev.kind == "DELIVER" && ev.addr == addr && ev.addr != "" && cutoff <= ev.ts
  }

  function CountFor(events: seq<Event>, cutoff: real, addr: string): nat {
    |set i | 0 <= i < |events| && IsDeliveryTo(events[i], cutoff, addr)|
  }

  function BytesFor(events: seq<Event>, cutoff: real, addr: string): nat {
    if events == [] then 0
    else
      var last := events[|events| - 1];
      BytesFor(events[..|events| - 1], cutoff, addr) + if IsDeliveryTo(last, cutoff, addr) then last.bytes else 0
  }

  lemma CountsNone(events: seq<Event>, cutoff: real, addr: string)
    requires forall i :: 0 <= i < |events| ==> !IsDeliveryTo(events[i], cutoff, addr)
    ensures CountFor(events, cutoff, addr) == 0
  {
    assert (set i | 0 <= i < |events| && IsDeliveryTo(events[i], cutoff, addr)) == {};
  }

  lemma CountOneMore(events: seq<Event>, last: Event, cutoff: real, addr: string)
    ensures CountFor(events + [last], cutoff, addr) == CountFor(events, cutoff, addr) + if IsDeliveryTo(last, cutoff, addr) then 1 else 0
  {
    var all := events + [last];
    var before := set i | 0 <= i < |events| && IsDeliveryTo(events[i], cutoff, addr);
    var after := set i | 0 <= i < |all| && IsDeliveryTo(all[i], cutoff, addr);
    assert forall i :: 0 <= i < |events| ==> all[i] == events[i];
    assert after == before + if IsDeliveryTo(last, cutoff, addr) then {|events|} else {};
  }

  /** The totals of an address are the number and the bytes of its deliveries in the window; an address without any has no entry. */
  lemma {:induction false} TallyIs(events: seq<Event>, cutoff: real, addr: string)
    ensures var t := Tally(events, cutoff);
            (addr in t <==> CountFor(events, cutoff, addr) > 0) &&
            (addr in t ==> t[addr] == Totals(CountFor(events, cutoff, addr), BytesFor(events, cutoff, addr))) &&
            (addr !in t ==> BytesFor(events, cutoff, addr) == 0)
  {
    if events != [] {
      var front, last := events[..|events| - 1], events[|events| - 1];
      TallyIs(front, cutoff, addr);
      assert events == front + [last];
      CountOneMore(front, last, cutoff, addr);
    } else {
      CountsNone(events, cutoff, addr);
    }
  }

  // ---------------------------------------------------------------- the ring and the history

  lemma {:induction false} TallyOfNewer(dropped: seq<Event>, ring: seq<Event>, cutoff: real)
    requires forall i :: 0 <= i < |dropped| ==> !IsCounted(dropped[i], cutoff)
    ensures Tally(dropped + ring, cutoff) == Tally(ring, cutoff)
    decreases |dropped| + |ring|
  {
    if ring != [] {
      assert (dropped + ring)[..|dropped| + |ring| - 1] == dropped + ring[..|ring| - 1];
      TallyOfNewer(dropped, ring[..|ring| - 1], cutoff);
    } else if dropped != [] {
      assert dropped + ring == dropped;
      TallyOfNewer(dropped[..|dropped| - 1], [], cutoff);
      assert dropped[..|dropped| - 1] + [] == dropped[..|dropped| - 1];
    }
  }

  lemma {:induction false} WantedOfNewer(dropped: seq<Event>, ring: seq<Event>, since: real, kind: string, addr: string)
    ensures Wanted(dropped + ring, since, kind, addr) == Wanted(dropped, since, kind, addr) + Wanted(ring, since, kind, addr)
  {
    if ring == [] {
      assert dropped + ring == dropped;
      assert Wanted(dropped, since, kind, addr) + [] == Wanted(dropped, since, kind, addr);
    } else {
      assert (dropped + ring)[..|dropped| + |ring| - 1] == dropped + ring[..|ring| - 1];
      WantedOfNewer(dropped, ring[..|ring| - 1], since, kind, addr);
    }
  }

  lemma {:induction false} CountForJoined(dropped: seq<Event>, ring: seq<Event>, cutoff: real, addr: string)
    ensures CountFor(dropped + ring, cutoff, addr) == CountFor(dropped, cutoff, addr) + CountFor(ring, cutoff, addr)
  {
    if ring == [] {
      assert dropped + ring == dropped;
      CountsNone(ring, cutoff, addr);
    } else {
      var front, last := ring[..|ring| - 1], ring[|ring| - 1];
      assert ring == front + [last] && dropped + ring == (dropped + front) + [last];
      CountForJoined(dropped, front, cutoff, addr);
      CountOneMore(dropped + front, last, cutoff, addr);
      CountOneMore(front, last, cutoff, addr);
    }
  }

  lemma CountedIsFound(events: seq<Event>, cutoff: real, i: nat)
    requires i < |events| && IsCounted(events[i], cutoff)
    ensures CountFor(events, cutoff, events[i].addr) > 0
  {
    var found := set k | 0 <= k < |events| && IsDeliveryTo(events[k], cutoff, events[i].addr);
    assert i in found;
    assert found == (found - {i}) + {i};
  }

  /** What the ring no longer holds. */
  function Dropped(history: seq<Event>, capacity: nat): (dropped: seq<Event>)
    ensures history == dropped + Newest(history, capacity)
  {
    history[..|history| - |Newest(history, capacity)|]
  }

  /** The totals over the ring are those over all events ever recorded exactly when no event of the window was dropped. */
  lemma TotalsAreCompleteIff(history: seq<Event>, capacity: nat, cutoff: real)
    ensures var dropped := Dropped(history, capacity);
            Tally(Newest(history, capacity), cutoff) == Tally(history, cutoff) <==>
            forall i :: 0 <= i < |dropped| ==> !IsCounted(dropped[i], cutoff)
  {
    var ring, dropped := Newest(history, capacity), Dropped(history, capacity);
    if i :| 0 <= i < |dropped| && IsCounted(dropped[i], cutoff) {
      var addr := dropped[i].addr;
      CountedIsFound(dropped, cutoff, i);
      CountForJoined(dropped, ring, cutoff, addr);
      TallyIs(ring, cutoff, addr);
      TallyIs(history, cutoff, addr);
    } else {
      TallyOfNewer(dropped, ring, cutoff);
    }
  }

  /** The flag is up exactly when the history fills the ring and the oldest event the ring still holds is newer than the cutoff. */
  lemma FlagIff(history: seq<Event>, capacity: nat, cutoff: real)
    requires capacity > 0
    ensures IsTruncated(Newest(history, capacity), capacity, cutoff) <==>
            |history| >= capacity && history[|history| - capacity].ts > cutoff
  {
  }

  /** When time does not run backwards and the flag is down, the totals miss something exactly when a delivery at the very
      moment of the cutoff was dropped; the flag compares with the oldest event that is left. */
  lemma FlagMissesTies(history: seq<Event>, capacity: nat, cutoff: real)
    requires IsOrdered(history) && capacity > 0 && !IsTruncated(Newest(history, capacity), capacity, cutoff)
    ensures var dropped := Dropped(history, capacity);
            Tally(Newest(history, capacity), cutoff) != Tally(history, cutoff) <==>
            exists i :: 0 <= i < |dropped| && dropped[i].ts == cutoff && IsCounted(dropped[i], cutoff)
  {
    TotalsAreCompleteIff(history, capacity, cutoff);
    DroppedAreNotNewer(history, capacity, cutoff);
  }

  lemma DroppedAreNotNewer(history: seq<Event>, capacity: nat, cutoff: real)
    requires IsOrdered(history) && capacity > 0 && !IsTruncated(Newest(history, capacity), capacity, cutoff)
    ensures var dropped := Dropped(history, capacity);
            forall i :: 0 <= i < |dropped| ==>
              dropped[i].ts <= cutoff && (IsIncreasing(history) ==> dropped[i].ts < cutoff)
  {
    var ring, dropped := Newest(history, capacity), Dropped(history, capacity);
    if dropped != [] {
      assert |ring| == capacity && ring[0] == history[|dropped|] && ring[0].ts <= cutoff;
      assert forall i :: 0 <= i < |dropped| ==> dropped[i] == history[i];
    }
  }

  /** With a clock that always moves on, the flag misses nothing: whenever it is down the totals are complete. */
  lemma TotalsAreComplete(history: seq<Event>, capacity: nat, cutoff: real)
    requires IsIncreasing(history) && capacity > 0 && !IsTruncated(Newest(history, capacity), capacity, cutoff)
    ensures Tally(Newest(history, capacity), cutoff) == Tally(history, cutoff)
  {
    FlagMissesTies(history, capacity, cutoff);
    DroppedAreNotNewer(history, capacity, cutoff);
  }

  /** Two events at the same moment are enough to break this: the flag is down, and one of them is missing. */
  lemma EqualTimesLoseTotals()
    ensures var a := Event(1.0, "DELIVER", "a", 10);
            var ring := Newest([a, a], 1);
            ring[0].ts <= 1.0 && Tally(ring, 1.0) == map["a" := Totals(1, 10)] && Tally([a, a], 1.0) == map["a" := Totals(2, 20)]
  {
    var a := Event(1.0, "DELIVER", "a", 10);
    assert Newest([a, a], 1) == [a];
    assert [a][..0] == [] && [a, a][..1] == [a];
    assert Tally([a], 1.0) == map["a" := Totals(1, 10)];
  }

  /** `/events` gives the newest wanted events of the whole history exactly when the ring has not dropped one that the
      limit would have let through. */
  lemma EventsAreCompleteIff(history: seq<Event>, capacity: nat, since: real, limit: int, kind: string, addr: string)
    ensures var ring, dropped := Newest(history, capacity), Dropped(history, capacity);
            Newest(Wanted(ring, since, kind, addr), Clamp(limit)) == Newest(Wanted(history, since, kind, addr), Clamp(limit)) <==>
            |Wanted(ring, since, kind, addr)| >= Clamp(limit) || Wanted(dropped, since, kind, addr) == []
  {
    var ring, dropped := Newest(history, capacity), Dropped(history, capacity);
    WantedOfNewer(dropped, ring, since, kind, addr);
    NewestOfTwo(Wanted(dropped, since, kind, addr), Wanted(ring, since, kind, addr), Clamp(limit));
  }

  lemma NewestOfTwo<T>(front: seq<T>, tail: seq<T>, n: nat)
    ensures Newest(front + tail, n) == Newest(tail, n) <==> |tail| >= n || front == []
  {
    if |tail| >= n {
      assert (front + tail)[|front| + |tail| - n..] == tail[|tail| - n..];
    } else if front == [] {
      assert front + tail == tail;
    }
  }
}
