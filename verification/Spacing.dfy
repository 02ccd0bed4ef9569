/** Events that keep a least distance from one another, unless what they go by is reset in between: how many of them fit
    into a window. */
module Spacing {
  datatype Mark = Event(at: real) | Reset(at: real)

  /** In order of time, and two events with no reset between them a gap apart. */
  predicate IsSpaced(marks: seq<Mark>, gap: real) {
    forall i :: 0 <= i < |marks| - 1 ==>
      marks[i].at <= marks[i + 1].at &&
      (marks[i].Event? && marks[i + 1].Event? ==> marks[i].at + gap <= marks[i + 1].at)
  }

  lemma SpacedOneMore(marks: seq<Mark>, mark: Mark, gap: real)
    requires IsSpaced(marks, gap)
    requires marks != [] ==>
               var last := marks[|marks| - 1];
               last.at <= mark.at && (last.Event? && mark.Event? ==> last.at + gap <= mark.at)
    ensures IsSpaced(marks + [mark], gap)
  {
  }

  predicate IsWithin(mark: Mark, from: real, to: real) {
    from <= mark.at <= to
  }

  /** How many of the events lie from `from` to `to`. */
  function CountEvents(marks: seq<Mark>, from: real, to: real): nat {
    if marks == [] then 0
    else
      var last := marks[|marks| - 1];
      CountEvents(marks[..|marks| - 1], from, to) + if last.Event? && IsWithin(last, from, to) then 1 else 0
  }

  function CountResets(marks: seq<Mark>, from: real, to: real): nat {
    if marks == [] then 0
    else
      var last := marks[|marks| - 1];
      CountResets(marks[..|marks| - 1], from, to) + if last.Reset? && IsWithin(last, from, to) then 1 else 0
  }

  function Quotient(width: real, gap: real): int
    requires gap > 0.0
  {
    (width / gap).Floor
  }

  lemma ZeroFactor(x: real, gap: real)
    requires gap > 0.0 && x * gap == 0.0
    ensures x == 0.0
  {
  }

  lemma QuotientOneLess(width: real, gap: real)
    requires gap > 0.0
    ensures Quotient(width - gap, gap) == Quotient(width, gap) - 1
  {
    var x, y := width / gap, (width - gap) / gap;
    assert x * gap == width && y * gap == width - gap;
    ZeroFactor(x - 1.0 - y, gap);
  }

  lemma QuotientMonotone(small: real, large: real, gap: real)
    requires gap > 0.0 && small <= large
    ensures Quotient(small, gap) <= Quotient(large, gap)
  {
    var x, y := small / gap, large / gap;
    assert x * gap == small && y * gap == large;
    if x > y {
      assert (x - y) * gap > 0.0;
    }
  }

  lemma QuotientNotNegative(width: real, gap: real)
    requires gap > 0.0 && width >= 0.0
    ensures Quotient(width, gap) >= 0
  {
    assert 0.0 / gap == 0.0;
    QuotientMonotone(0.0, width, gap);
  }

  lemma {:induction false} InOrder(marks: seq<Mark>, gap: real, i: nat)
    requires IsSpaced(marks, gap) && i < |marks|
    ensures marks[i].at <= marks[|marks| - 1].at
    decreases |marks| - i
  {
    if i < |marks| - 1 {
      InOrder(marks, gap, i + 1);
    }
  }

  predicate AllUpTo(marks: seq<Mark>, cut: real) {
    forall i :: 0 <= i < |marks| ==> marks[i].at <= cut
  }

  lemma LastIsLatest(marks: seq<Mark>, gap: real)
    requires marks != [] && IsSpaced(marks, gap)
    ensures AllUpTo(marks, marks[|marks| - 1].at)
  {
    forall i | 0 <= i < |marks|
      ensures marks[i].at <= marks[|marks| - 1].at
    {
      InOrder(marks, gap, i);
    }
  }

  /** Cutting a window after the last mark before its end loses none. */
  lemma {:induction false} CountCut(marks: seq<Mark>, from: real, to: real, cut: real)
    requires cut <= to && AllUpTo(marks, cut)
    ensures CountEvents(marks, from, to) == CountEvents(marks, from, cut)
    ensures CountResets(marks, from, to) == CountResets(marks, from, cut)
    ensures cut < from ==> CountEvents(marks, from, to) == 0
  {
    if marks != [] {
      CountCut(marks[..|marks| - 1], from, to, cut);
    }
  }

  /** A window of width T holds at most floor(T / gap) + 1 events, and one more for each reset in it. */
  lemma {:induction false} AtMostInWindow(marks: seq<Mark>, gap: real, from: real, to: real)
    requires IsSpaced(marks, gap) && gap > 0.0 && from <= to
    ensures CountEvents(marks, from, to) <= Quotient(to - from, gap) + 1 + CountResets(marks, from, to)
    decreases |marks|, 0
  {
    QuotientNotNegative(to - from, gap);
    if marks != [] {
      var last, before := marks[|marks| - 1], marks[..|marks| - 1];
      if last.Event? && IsWithin(last, from, to) && before != [] {
        LastIsLatest(before, gap);
        if before[|before| - 1].Reset? {
          BehindReset(before, gap, from, to);
        } else {
          BehindEvent(before, gap, from, to, last.at);
        }
      } else {
        AtMostInWindow(before, gap, from, to);
      }
    }
  }

  /** An event behind an event is a gap later, so the window before it is a gap shorter. */
  lemma {:induction false} BehindEvent(before: seq<Mark>, gap: real, from: real, to: real, at: real)
    requires IsSpaced(before, gap) && gap > 0.0 && AllUpTo(before, at - gap) && from <= at <= to
    ensures CountEvents(before, from, to) + 1 <= Quotient(to - from, gap) + 1 + CountResets(before, from, to)
    decreases |before|, 1
  {
    QuotientNotNegative(to - from, gap);
    CountCut(before, from, to, at - gap);
    if from <= at - gap {
      AtMostInWindow(before, gap, from, at - gap);
      QuotientOneLess(at - from, gap);
      assert at - gap - from == at - from - gap;
      QuotientMonotone(at - from, to - from, gap);
    }
  }

  /** An event behind a reset is paid for by the reset, or is the only one of the window. */
  lemma {:induction false} BehindReset(before: seq<Mark>, gap: real, from: real, to: real)
    requires IsSpaced(before, gap) && gap > 0.0 && from <= to
    requires before != [] && before[|before| - 1].Reset? && before[|before| - 1].at <= to
    ensures CountEvents(before, from, to) + 1 <= Quotient(to - from, gap) + 1 + CountResets(before, from, to)
    decreases |before|, 1
  {
    QuotientNotNegative(to - from, gap);
    var reset := before[|before| - 1];
    if IsWithin(reset, from, to) {
      AtMostInWindow(before[..|before| - 1], gap, from, to);
    } else {
      LastIsLatest(before, gap);
      CountCut(before, from, to, reset.at);
    }
  }
}
