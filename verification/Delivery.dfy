/**
  End to end: senders number their messages per port, the network interleaves all streams and
  swaps neighbours that arrive back to back, and the receiver delivers every stream as sent.
 */
module Delivery {
  import opened Numbers
  import opened Wire
  import opened Sorter
  import opened SorterRuns
  import opened LossCounter
  import opened Buffers
  import opened Receiver

  // ---------- Arrival schedules ----------

  /** One message in its place, or two messages of one stream of which the second arrives first. */
  datatype Unit = Single(m: Msg) | Swapped(first: Msg, second: Msg) {
    predicate Proper() {
      Swapped? ==> !first.Special() && On(second, first.Origin())
    }

    function Sent(): seq<Msg> {
      if Single? then [m] else [first, second]
    }

    function Arriving(): seq<Msg> {
      if Single? then [m] else [second, first]
    }
  }

  /** All messages in their original order. */
  function SentAll(units: seq<Unit>): seq<Msg> {
    if |units| == 0 then [] else SentAll(units[..|units| - 1]) + units[|units| - 1].Sent()
  }

  /** All messages in their order of arrival. */
  function ArriveAll(units: seq<Unit>): seq<Msg> {
    if |units| == 0 then [] else ArriveAll(units[..|units| - 1]) + units[|units| - 1].Arriving()
  }

  function Swaps(units: seq<Unit>, cid: byte): nat {
    if |units| == 0 then 0
    else
      var u := units[|units| - 1];
      Swaps(units[..|units| - 1], cid) + if u.Swapped? && u.first.cid == cid then 1 else 0
  }

  /** Every stream is numbered 1, 2, 3, ... modulo 2^16. */
  ghost predicate Numbered(ms: seq<Msg>) {
    |ms| > 0 ==>
      var n := |ms| - 1;
      && Numbered(ms[..n])
      && (!ms[n].Special() ==> ms[n].num == Wrap16(|Project(ms[..n], ms[n].Origin())| + 1))
  }

  // ---------- One unit ----------

  lemma ProjectSnoc(ms: seq<Msg>, m: Msg)
    ensures forall st :: Project(ms + [m], st) == Project(ms, st) + if On(m, st) then [m] else []
    ensures Numbered(ms + [m]) <==>
            Numbered(ms) && (!m.Special() ==> m.num == Wrap16(|Project(ms, m.Origin())| + 1))
  {
    assert (ms + [m])[..|ms|] == ms;
  }

  lemma {:induction false} NumberedLast(ms: seq<Msg>, st: Stream)
    requires Numbered(ms)
    ensures LastNum(ms, st) == Wrap16(|Project(ms, st)|)
  {
    if |ms| > 0 {
      NumberedLast(ms[..|ms| - 1], st);
    }
  }

  /** The last arrival of a stream is its last message or, after a swap, the one before it. */
  predicate Near(last: i16, n: nat) {
    last == Wrap16(n) || (n >= 2 && last == Wrap16(n - 1))
  }

  /** What the receiver has done with everything that arrived so far. */
  ghost predicate InStep(arrivals: seq<Msg>, sent: seq<Msg>) {
    && Numbered(sent)
    && Delivered(arrivals) == sent
    && Held(After(arrivals)) == []
    && forall st :: Near(LastNum(arrivals, st), |Project(sent, st)|)
  }

  lemma NearArithmetic(last: i16, n: nat)
    requires Near(last, n)
    ensures 1 <= Wrap16(Wrap16(n + 1) - last) <= 2
    ensures 2 <= Wrap16(Wrap16(n + 2) - last) <= 3
    ensures Wrap16(Wrap16(n + 1) - Wrap16(n)) == 1
    ensures Wrap16(Wrap16(n + 2) - Wrap16(n)) == 2
    ensures Wrap16(Wrap16(n + 1) - Wrap16(n + 2)) == -1
  {
    hide Wrap16;
    var k := if last == Wrap16(n) then n else n - 1;
    WrapApart(n + 1, k);
    WrapApart(n + 2, k);
    WrapApart(n + 1, n);
    WrapApart(n + 2, n);
    WrapApart(n + 1, n + 2);
  }

  /** The next message in line leaves at once. */
  lemma NextInLine(arrivals: seq<Msg>, sent: seq<Msg>, m: Msg, n: nat)
    requires !m.Special() && m.num == Wrap16(n + 1)
    requires Near(LastNum(arrivals, m.Origin()), n) && LastNum(sent, m.Origin()) == Wrap16(n)
    ensures !GapAfter(arrivals, sent, m) && NextOut(arrivals, sent, [], m) == [m]
    ensures Wrap16(m.num - LastNum(arrivals, m.Origin())) > 0
  {
    hide Wrap16, LastNum, Near;
    NearArithmetic(LastNum(arrivals, m.Origin()), n);
    assert [m] + [] == [m];
  }

  /** A message that overtook its predecessor is held. */
  lemma OneTooEarly(arrivals: seq<Msg>, sent: seq<Msg>, m: Msg, n: nat)
    requires !m.Special() && m.num == Wrap16(n + 2)
    requires Near(LastNum(arrivals, m.Origin()), n) && LastNum(sent, m.Origin()) == Wrap16(n)
    ensures GapAfter(arrivals, sent, m) && Wrap16(m.num - LastNum(arrivals, m.Origin())) > 0
  {
    hide Wrap16, LastNum, Near;
    NearArithmetic(LastNum(arrivals, m.Origin()), n);
  }

  /** The overtaken message leaves at once, followed by the held one. */
  lemma OneTooLate(arrivals: seq<Msg>, sent: seq<Msg>, m: Msg, held: Msg, n: nat)
    requires !m.Special() && m.num == Wrap16(n + 1) && held.num == Wrap16(n + 2) && On(held, m.Origin())
    requires LastNum(arrivals, m.Origin()) == held.num && LastNum(sent, m.Origin()) == Wrap16(n)
    ensures !GapAfter(arrivals, sent, m) && NextOut(arrivals, sent, [held], m) == [m] + [held]
    ensures Wrap16(m.num - held.num) == -1
  {
    hide Wrap16, LastNum;
    NearArithmetic(Wrap16(n), n);
  }

  lemma SingleStep(arrivals: seq<Msg>, sent: seq<Msg>, m: Msg)
    requires InStep(arrivals, sent) && Numbered(sent + [m])
    ensures InStep(arrivals + [m], sent + [m])
    ensures !m.Special() ==> Wrap16(m.num - LastNum(arrivals, m.Origin())) > 0
  {
    hide Run, Wrap16, Numbered, Project, LastNum, HeldGoesFirst;
    ProjectSnoc(sent, m);
    Snoc(arrivals, m);
    if !m.Special() {
      NumberedLast(sent, m.Origin());
      NextInLine(arrivals, sent, m, |Project(sent, m.Origin())|);
    }
    NextMessage(arrivals, m);
    assert [m] + [] == [m];
  }

  /** What the numbers of a swapped pair are, and what arrived and left before it. */
  lemma PairNumbers(arrivals: seq<Msg>, sent: seq<Msg>, first: Msg, second: Msg) returns (n: nat)
    requires InStep(arrivals, sent) && Numbered(sent + [first] + [second])
    requires !first.Special() && On(second, first.Origin())
    ensures first.num == Wrap16(n + 1) && second.num == Wrap16(n + 2)
    ensures Near(LastNum(arrivals, first.Origin()), n) && LastNum(sent, first.Origin()) == Wrap16(n)
  {
    hide Run, Wrap16, Numbered, Project, LastNum, Near;
    n := |Project(sent, first.Origin())|;
    ProjectSnoc(sent, first);
    ProjectSnoc(sent + [first], second);
    NumberedLast(sent, first.Origin());
  }

  lemma SwapFirstHalf(arrivals: seq<Msg>, sent: seq<Msg>, first: Msg, second: Msg)
    requires InStep(arrivals, sent) && Numbered(sent + [first] + [second])
    requires !first.Special() && On(second, first.Origin())
    ensures Delivered(arrivals + [second]) == sent && Held(After(arrivals + [second])) == [second]
    ensures Wrap16(second.num - LastNum(arrivals, first.Origin())) > 0
  {
    hide Run, Wrap16, Numbered, Project, LastNum, Near, GapAfter;
    var n := PairNumbers(arrivals, sent, first, second);
    OneTooEarly(arrivals, sent, second, n);
    NextMessage(arrivals, second);
    assert sent + [] == sent;
  }

  lemma SwapSecondHalf(arrivals: seq<Msg>, sent: seq<Msg>, first: Msg, second: Msg)
    requires InStep(arrivals, sent) && Numbered(sent + [first] + [second])
    requires !first.Special() && On(second, first.Origin())
    ensures Delivered(arrivals + [second] + [first]) == sent + [first] + [second]
    ensures Held(After(arrivals + [second] + [first])) == []
    ensures Wrap16(first.num - second.num) == -1
  {
    hide Run, Wrap16, Numbered, Project, LastNum, Near, GapAfter, NextOut;
    var n := PairNumbers(arrivals, sent, first, second);
    SwapFirstHalf(arrivals, sent, first, second);
    Snoc(arrivals, second);
    OneTooLate(arrivals + [second], sent, first, second, n);
    NextMessage(arrivals + [second], first);
    assert sent + ([first] + [second]) == sent + [first] + [second];
  }

  lemma SwapStep(arrivals: seq<Msg>, sent: seq<Msg>, first: Msg, second: Msg)
    requires InStep(arrivals, sent) && Numbered(sent + [first] + [second])
    requires !first.Special() && On(second, first.Origin())
    ensures InStep(arrivals + [second] + [first], sent + [first] + [second])
  {
    hide Run, Wrap16, Numbered, Project;
    SwapSecondHalf(arrivals, sent, first, second);
    ProjectSnoc(sent, first);
    ProjectSnoc(sent + [first], second);
    Snoc(arrivals, second);
    Snoc(arrivals + [second], first);
  }

  // ---------- Whole schedules ----------

  ghost predicate AllProper(units: seq<Unit>) {
    forall k :: 0 <= k < |units| ==> units[k].Proper()
  }

  lemma FlattenSnoc(units: seq<Unit>)
    requires |units| > 0
    ensures var n := |units| - 1;
            var u := units[n];
            && SentAll(units) == (if u.Single? then SentAll(units[..n]) + [u.m]
                                  else SentAll(units[..n]) + [u.first] + [u.second])
            && ArriveAll(units) == (if u.Single? then ArriveAll(units[..n]) + [u.m]
                                    else ArriveAll(units[..n]) + [u.second] + [u.first])
  {
    var n := |units| - 1;
    var u := units[n];
    if u.Swapped? {
      TwoMore(SentAll(units[..n]), u.first, u.second);
      TwoMore(ArriveAll(units[..n]), u.second, u.first);
    }
  }

  lemma TwoMore(ms: seq<Msg>, a: Msg, b: Msg)
    ensures ms + [a, b] == ms + [a] + [b]
  {
  }

  /** The sorter undoes every swap: messages are delivered exactly in their original order. */
  lemma {:induction false} SwapsAreUndone(units: seq<Unit>)
    requires AllProper(units) && Numbered(SentAll(units))
    ensures InStep(ArriveAll(units), SentAll(units))
  {
    hide Run, Wrap16, Project, LastNum, SentAll, ArriveAll, Numbered;
    if |units| == 0 {
      EmptyStep(units);
    } else {
      var n := |units| - 1;
      var u := units[n];
      var sent := SentAll(units[..n]);
      FlattenSnoc(units);
      if u.Single? {
        ProjectSnoc(sent, u.m);
      } else {
        ProjectSnoc(sent, u.first);
        ProjectSnoc(sent + [u.first], u.second);
        assert u.Proper();
      }
      SwapsAreUndone(units[..n]);
      if u.Single? {
        SingleStep(ArriveAll(units[..n]), sent, u.m);
      } else {
        SwapStep(ArriveAll(units[..n]), sent, u.first, u.second);
      }
    }
  }

  lemma EmptyStep(units: seq<Unit>)
    requires units == []
    ensures InStep(ArriveAll(units), SentAll(units))
  {
    RunEmpty();
  }

  // ---------- The error counters ----------

  lemma {:induction false} NumberedNeverDescends(ms: seq<Msg>, cid: byte)
    requires Numbered(ms)
    ensures Descents(ms, cid) == 0
  {
    if |ms| > 0 {
      var n := |ms| - 1;
      NumberedNeverDescends(ms[..n], cid);
      if !ms[n].Special() {
        NumberedLast(ms[..n], ms[n].Origin());
        var k := |Project(ms[..n], ms[n].Origin())|;
        WrapApart(k + 1, k);
      }
    }
  }

  lemma DescentsSnoc(ms: seq<Msg>, m: Msg, cid: byte)
    ensures Descents(ms + [m], cid) ==
            Descents(ms, cid) + if DataFrom(m, cid) && Wrap16(m.num - LastNum(ms, m.Origin())) < 0 then 1 else 0
  {
    SnocCounts(ms, m, cid);
  }

  lemma SingleDescents(arrivals: seq<Msg>, sent: seq<Msg>, m: Msg, cid: byte)
    requires InStep(arrivals, sent) && Numbered(sent + [m])
    ensures Descents(arrivals + [m], cid) == Descents(arrivals, cid)
  {
    hide InStep, Wrap16, Numbered, Descents;
    SingleStep(arrivals, sent, m);
    DescentsSnoc(arrivals, m, cid);
  }

  lemma SameSender(first: Msg, second: Msg, cid: byte)
    requires !first.Special() && On(second, first.Origin())
    ensures DataFrom(first, cid) == DataFrom(second, cid) == (first.cid == cid)
  {
  }

  lemma SwapDescents(arrivals: seq<Msg>, sent: seq<Msg>, first: Msg, second: Msg, cid: byte)
    requires InStep(arrivals, sent) && Numbered(sent + [first] + [second])
    requires !first.Special() && On(second, first.Origin())
    ensures Descents(arrivals + [second] + [first], cid) ==
            Descents(arrivals, cid) + if first.cid == cid then 1 else 0
  {
    hide InStep, Wrap16, Numbered, Descents, LastNum, Count, Loss, Seen, Run, DataFrom;
    assert DataFrom(first, cid) == DataFrom(second, cid) == (first.cid == cid) by { SameSender(first, second, cid); }
    SwapFirstHalf(arrivals, sent, first, second);
    SwapSecondHalf(arrivals, sent, first, second);
    DescentsSnoc(arrivals, second, cid);
    Snoc(arrivals, second);
    DescentsSnoc(arrivals + [second], first, cid);
  }

  lemma {:induction false} EverySwapDescends(units: seq<Unit>, cid: byte)
    requires AllProper(units) && Numbered(SentAll(units))
    ensures Descents(ArriveAll(units), cid) == Swaps(units, cid)
  {
    hide SentAll, ArriveAll, Numbered, InStep;
    if |units| == 0 {
      assert ArriveAll(units) == [] by { FlattenEmpty(units); }
    } else {
      var n := |units| - 1;
      var u := units[n];
      var sent, arrivals := SentAll(units[..n]), ArriveAll(units[..n]);
      FlattenSnoc(units);
      if u.Single? {
        ProjectSnoc(sent, u.m);
        SwapsAreUndone(units[..n]);
        SingleDescents(arrivals, sent, u.m, cid);
      } else {
        assert u.Proper();
        ProjectSnoc(sent, u.first);
        ProjectSnoc(sent + [u.first], u.second);
        SwapsAreUndone(units[..n]);
        SwapDescents(arrivals, sent, u.first, u.second, cid);
      }
      EverySwapDescends(units[..n], cid);
    }
  }

  lemma FlattenEmpty(units: seq<Unit>)
    requires units == []
    ensures SentAll(units) == [] && ArriveAll(units) == []
  {
  }

  // ---------- The loss counter under swaps ----------

  /** 1 if the last unit on the stream is a swap. */
  function Ends(units: seq<Unit>, st: Stream): nat {
    if |units| == 0 then 0
    else
      var u := units[|units| - 1];
      if u.Single? && On(u.m, st) then 0
      else if u.Swapped? && On(u.first, st) then 1
      else Ends(units[..|units| - 1], st)
  }

  /** 1 if the first unit on the stream is a swap. */
  function Starts(units: seq<Unit>, st: Stream): nat {
    if |units| == 0 then 0
    else
      var u := units[|units| - 1];
      if Project(SentAll(units[..|units| - 1]), st) == [] && u.Swapped? && On(u.first, st) then 1
      else Starts(units[..|units| - 1], st)
  }

  lemma StreamLossSnoc(ms: seq<Msg>, m: Msg, st: Stream)
    ensures StreamLoss(ms + [m], st) == StreamLoss(ms, st) + if On(m, st) then Skipped(ms, m) else 0
  {
    assert (ms + [m])[..|ms|] == ms;
  }

  lemma SkippedBy(ms: seq<Msg>, m: Msg, i: int, last: int)
    requires m.num == Wrap16(i) && LastNum(ms, m.Origin()) == Wrap16(last) && -0x8000 < i - last < 0x8000 && i != last
    ensures Skipped(ms, m) == if Seen(ms, m.Origin()) then i - last - 1 else 0
  {
    hide Wrap16;
    WrapApart(i, last);
  }

  /** Loss, last number and presence of a stream that started with `s` and ended with `e` swaps. */
  ghost predicate LossIs(arrivals: seq<Msg>, sent: seq<Msg>, st: Stream, s: nat, e: nat) {
    && StreamLoss(arrivals, st) == 0 - s - e
    && LastNum(arrivals, st) == Wrap16(|Project(sent, st)| - e)
    && (Seen(arrivals, st) <==> |Project(sent, st)| > 0)
    && (|Project(sent, st)| == 0 ==> s == 0 && e == 0)
    && s <= 1 && e <= 1
  }

  lemma SingleLoss(arrivals: seq<Msg>, sent: seq<Msg>, m: Msg, s: nat, e: nat)
    requires Numbered(sent + [m]) && !m.Special() && LossIs(arrivals, sent, m.Origin(), s, e)
    ensures LossIs(arrivals + [m], sent + [m], m.Origin(), s, 0)
  {
    hide Wrap16, Numbered, Skipped, StreamLoss, Seen, LastNum, Project;
    var k := |Project(sent, m.Origin())|;
    ProjectSnoc(sent, m);
    Snoc(arrivals, m);
    StreamLossSnoc(arrivals, m, m.Origin());
    SkippedBy(arrivals, m, k + 1, k - e);
  }

  lemma SwappedLoss(arrivals: seq<Msg>, sent: seq<Msg>, first: Msg, second: Msg, s: nat, e: nat)
    requires Numbered(sent + [first] + [second]) && !first.Special() && On(second, first.Origin())
    requires LossIs(arrivals, sent, first.Origin(), s, e)
    ensures LossIs(arrivals + [second] + [first], sent + [first] + [second], first.Origin(),
                   if Project(sent, first.Origin()) == [] then 1 else s, 1)
  {
    hide Wrap16, Numbered, Skipped, StreamLoss, Seen, LastNum, Project;
    var k := |Project(sent, first.Origin())|;
    ProjectSnoc(sent, first);
    ProjectSnoc(sent + [first], second);
    Snoc(arrivals, second);
    Snoc(arrivals + [second], first);
    StreamLossSnoc(arrivals, second, first.Origin());
    StreamLossSnoc(arrivals + [second], first, first.Origin());
    SkippedBy(arrivals, second, k + 2, k - e);
    SkippedBy(arrivals + [second], first, k + 1, k + 2);
  }

  /** Messages of other streams change nothing. */
  lemma OtherMessage(arrivals: seq<Msg>, sent: seq<Msg>, m: Msg, st: Stream)
    requires !On(m, st)
    ensures StreamLoss(arrivals + [m], st) == StreamLoss(arrivals, st)
    ensures LastNum(arrivals + [m], st) == LastNum(arrivals, st)
    ensures Seen(arrivals + [m], st) <==> Seen(arrivals, st)
    ensures Project(sent + [m], st) == Project(sent, st)
  {
    hide StreamLoss, LastNum, Seen, Project, Wrap16, Numbered, Skipped;
    ProjectSnoc(sent, m);
    Snoc(arrivals, m);
    StreamLossSnoc(arrivals, m, st);
  }

  lemma OtherLoss(arrivals: seq<Msg>, sent: seq<Msg>, u: Unit, st: Stream, s: nat, e: nat)
    requires u.Proper() && !On(if u.Single? then u.m else u.first, st) && LossIs(arrivals, sent, st, s, e)
    ensures u.Single? ==> LossIs(arrivals + [u.m], sent + [u.m], st, s, e)
    ensures u.Swapped? ==> LossIs(arrivals + [u.second] + [u.first], sent + [u.first] + [u.second], st, s, e)
  {
    hide StreamLoss, LastNum, Seen, Project, Wrap16;
    if u.Single? {
      OtherMessage(arrivals, sent, u.m, st);
    } else {
      OtherMessage(arrivals, sent + [u.first], u.second, st);
      OtherMessage(arrivals + [u.second], sent, u.first, st);
    }
  }

  /** A stream's loss is minus one for a swap at its start and minus one for a swap at its end. */
  lemma {:induction false} SwapLoss(units: seq<Unit>, st: Stream)
    requires AllProper(units) && Numbered(SentAll(units))
    ensures LossIs(ArriveAll(units), SentAll(units), st, Starts(units, st), Ends(units, st))
  {
    hide LossIs, SentAll, ArriveAll, Numbered;
    if |units| == 0 {
      EmptyLoss(units, st);
    } else {
      var n := |units| - 1;
      var u := units[n];
      var sent, arrivals := SentAll(units[..n]), ArriveAll(units[..n]);
      var s, e := Starts(units[..n], st), Ends(units[..n], st);
      FlattenSnoc(units);
      if u.Single? {
        ProjectSnoc(sent, u.m);
      } else {
        ProjectSnoc(sent, u.first);
        ProjectSnoc(sent + [u.first], u.second);
      }
      SwapLoss(units[..n], st);
      assert u.Proper();
      if u.Single? && On(u.m, st) {
        SingleLoss(arrivals, sent, u.m, s, e);
      } else if u.Swapped? && On(u.first, st) {
        SwappedLoss(arrivals, sent, u.first, u.second, s, e);
      } else {
        OtherLoss(arrivals, sent, u, st, s, e);
      }
    }
  }

  lemma EmptyLoss(units: seq<Unit>, st: Stream)
    requires units == []
    ensures LossIs(ArriveAll(units), SentAll(units), st, Starts(units, st), Ends(units, st))
  {
    FlattenEmpty(units);
  }

  /** Swaps at the start or the end of a sender's streams with a port below `ports`. */
  function EdgeSwaps(units: seq<Unit>, cid: byte, ports: nat): nat
    requires ports <= PORTS
  {
    if ports == 0 then 0
    else
      var st := Stream(cid, ports - 1);
      EdgeSwaps(units, cid, ports - 1) + Starts(units, st) + Ends(units, st)
  }

  lemma {:induction false} EdgeSwapsBelow(units: seq<Unit>, cid: byte, ports: nat)
    requires ports <= PORTS && AllProper(units) && Numbered(SentAll(units))
    ensures LossBelow(ArriveAll(units), cid, ports) == -(EdgeSwaps(units, cid, ports) as int)
    ensures EdgeSwaps(units, cid, ports) <= 2 * ports
    ensures EdgeSwaps(units, cid, ports) == 0 <==>
            forall p: u16 :: p < ports ==> Starts(units, Stream(cid, p)) + Ends(units, Stream(cid, p)) == 0
  {
    hide StreamLoss, Starts, Ends, Numbered, LastNum, Seen, Project, Wrap16, SentAll, ArriveAll;
    if ports > 0 {
      EdgeSwapsBelow(units, cid, ports - 1);
      SwapLoss(units, Stream(cid, ports - 1));
      assert 0 <= ports - 1 < PORTS;
      ghost var p: u16 := ports - 1;
      assert Stream(cid, p) == Stream(cid, ports - 1);
    }
  }

  /**
    Although nothing is missing, a swap at the very start or end of a stream drives the `lost`
    counter below zero, so that it wraps around; it is 0 exactly if there is no such swap.
   */
  lemma LostCounterUnderSwaps(units: seq<Unit>, cid: byte)
    requires AllProper(units) && Numbered(SentAll(units))
    ensures StatOf(After(ArriveAll(units)), cid).lost == Wrap64(-(EdgeSwaps(units, cid, PORTS) as int))
    ensures StatOf(After(ArriveAll(units)), cid).lost == 0 <==>
            forall p: u16 :: Starts(units, Stream(cid, p)) + Ends(units, Stream(cid, p)) == 0
  {
    hide Run, Starts, Ends, SentAll, ArriveAll, Numbered;
    CountersOverRuns(ArriveAll(units), cid);
    LossIsSumOverPorts(ArriveAll(units), cid);
    EdgeSwapsBelow(units, cid, PORTS);
  }

  // ---------- From the senders' calls to the receiver's deliveries ----------

  /** Everything a session's senders packed; `senders` holds the calls each of them made. */
  function SentBy(secret: u32, senders: map<byte, seq<Call>>, cid: byte): seq<Msg> {
    if cid in senders then Packed(secret, cid, senders[cid]) else []
  }

  lemma {:induction false} PackedIsNumbered(secret: u32, cid: byte, calls: seq<Call>, st: Stream)
    ensures var p := Project(Packed(secret, cid, calls), st);
            && (st.cid == cid && st.port > MAXSPECIALPORT ==> |p| == CallsTo(calls, st.port))
            && forall k :: 0 <= k < |p| ==> p[k].num == Wrap16(k + 1)
  {
    hide Wrap16, Packet, Project;
    if |calls| == 0 {
      ProjectEmpty(Packed(secret, cid, calls), st);
    } else {
      var n := |calls| - 1;
      var last := PackedLast(secret, cid, calls);
      var before := Project(Packed(secret, cid, calls[..n]), st);
      PackedIsNumbered(secret, cid, calls[..n], st);
      ProjectSnoc(Packed(secret, cid, calls[..n]), last);
      var p := Project(Packed(secret, cid, calls), st);
      assert p == before + if On(last, st) then [last] else [];
      if On(last, st) {
        assert last.num == Wrap16(CallsTo(calls, st.port)) && CallsTo(calls, st.port) == |before| + 1;
      }
    }
  }

  lemma ProjectEmpty(ms: seq<Msg>, st: Stream)
    requires ms == []
    ensures Project(ms, st) == []
  {
  }

  /** The message is the packet of the call: sender, port and payload are those of the call. */
  predicate Carries(secret: u32, cid: byte, c: Call, m: Msg) {
    && m.cid == cid && m.port == c.port
    && |m.bytes| >= HEADERLEN && m.bytes[HEADERLEN..] == c.payload
    && SecretOf(m.bytes) == secret && CidOf(m.bytes) == cid && PortOf(m.bytes) == c.port
  }

  /** Among the messages packed for a data port, that of a call is where the call is among those for the port. */
  lemma {:induction false} PackedPayload(secret: u32, cid: byte, calls: seq<Call>, j: nat)
    requires j < |calls| && calls[j].port > MAXSPECIALPORT
    ensures var mine := Project(Packed(secret, cid, calls), Stream(cid, calls[j].port));
            var k := CallsTo(calls[..j], calls[j].port);
            k < |mine| && Carries(secret, cid, calls[j], mine[k])
  {
    hide Wrap16, Packet, Project, CallsTo;
    var n := |calls| - 1;
    var st := Stream(cid, calls[j].port);
    var last := PackedLast(secret, cid, calls);
    PackedIsNumbered(secret, cid, calls[..n], st);
    ProjectSnoc(Packed(secret, cid, calls[..n]), last);
    if j == n {
      PacketRoundTrip(secret, cid, last.port, last.num, calls[n].payload);
    } else {
      PackedPayload(secret, cid, calls[..n], j);
      assert calls[..n][..j] == calls[..j];
    }
  }

  lemma {:induction false} NumberedPerStream(ms: seq<Msg>)
    requires forall st, k :: 0 <= k < |Project(ms, st)| ==> Project(ms, st)[k].num == Wrap16(k + 1)
    ensures Numbered(ms)
  {
    hide Wrap16;
    if |ms| > 0 {
      var n := |ms| - 1;
      assert ms == ms[..n] + [ms[n]];
      ProjectSnoc(ms[..n], ms[n]);
      forall st, k | 0 <= k < |Project(ms[..n], st)| ensures Project(ms[..n], st)[k].num == Wrap16(k + 1) {
        assert Project(ms[..n], st)[k] == Project(ms, st)[k];
      }
      NumberedPerStream(ms[..n]);
      if !ms[n].Special() {
        var p := Project(ms, ms[n].Origin());
        assert p[|p| - 1] == ms[n];
      }
    }
  }

  lemma {:induction false} ProjectMembers(ms: seq<Msg>, st: Stream, m: Msg)
    ensures m in Project(ms, st) <==> m in ms && On(m, st)
  {
    if |ms| > 0 {
      var n := |ms| - 1;
      assert ms == ms[..n] + [ms[n]];
      ProjectMembers(ms[..n], st, m);
    }
  }

  lemma {:induction false} ArrivalMembers(units: seq<Unit>)
    ensures multiset(ArriveAll(units)) == multiset(SentAll(units))
  {
    if |units| > 0 {
      ArrivalMembers(units[..|units| - 1]);
    }
  }

  /** The message is what the receiver makes of its bytes. */
  ghost predicate Genuinely(secret: u32, m: Msg) {
    && HEADERLEN <= |m.bytes| <= BUFSIZE && SecretOf(m.bytes) == secret
    && m == Msg(CidOf(m.bytes), PortOf(m.bytes), NumOf(m.bytes), m.bytes)
  }

  ghost predicate AllFit(calls: seq<Call>) {
    forall k :: 0 <= k < |calls| ==> HEADERLEN + |calls[k].payload| <= BUFSIZE
  }

  lemma {:induction false} PackedIsGenuine(secret: u32, cid: byte, calls: seq<Call>, m: Msg)
    requires AllFit(calls) && m in Packed(secret, cid, calls)
    ensures Genuinely(secret, m)
  {
    hide Packet, CallsTo, Wrap16;
    var n := |calls| - 1;
    var last := PackedLast(secret, cid, calls);
    if m == last {
      PacketRoundTrip(secret, cid, last.port, last.num, calls[n].payload);
    } else {
      PackedIsGenuine(secret, cid, calls[..n], m);
    }
  }

  lemma {:induction false} AcceptedIsGenuine(secret: u32, inputs: seq<Option<seq<byte>>>, k: nat)
    requires k < |Accepted(secret, inputs)|
    ensures Genuinely(secret, Accepted(secret, inputs)[k])
  {
    if k < |Accepted(secret, inputs[..|inputs| - 1])| {
      AcceptedIsGenuine(secret, inputs[..|inputs| - 1], k);
    }
  }

  function BytesOf(ms: seq<Msg>): seq<seq<byte>> {
    seq(|ms|, k requires 0 <= k < |ms| => ms[k].bytes)
  }

  /** Messages that the receiver recognises are determined by their bytes. */
  lemma SameBytes(secret: u32, a: seq<Msg>, b: seq<Msg>)
    requires BytesOf(a) == BytesOf(b)
    requires forall k :: 0 <= k < |a| ==> Genuinely(secret, a[k])
    requires forall k :: 0 <= k < |b| ==> Genuinely(secret, b[k])
    ensures a == b
  {
    assert |a| == |BytesOf(a)| == |b|;
    forall k | 0 <= k < |a| ensures a[k] == b[k] {
      assert BytesOf(a)[k] == BytesOf(b)[k];
    }
  }

  /**
    What the network did to the senders' messages: all streams interleaved, each complete, each
    changed only by disjoint swaps of neighbours that arrive back to back; control messages of the
    session may come in between.
   */
  ghost predicate Schedule(secret: u32, senders: map<byte, seq<Call>>, units: seq<Unit>) {
    && AllProper(units)
    && (forall cid :: cid in senders ==> AllFit(senders[cid]))
    && (forall st :: Project(SentAll(units), st) == Project(SentBy(secret, senders, st.cid), st))
    && (forall m :: m in SentAll(units) && m.Special() ==> Genuinely(secret, m))
  }

  lemma ScheduleIsNumbered(secret: u32, senders: map<byte, seq<Call>>, units: seq<Unit>)
    requires Schedule(secret, senders, units)
    ensures Numbered(SentAll(units))
  {
    hide Wrap16, SentAll, Packed;
    forall st, k | 0 <= k < |Project(SentAll(units), st)|
      ensures Project(SentAll(units), st)[k].num == Wrap16(k + 1)
    {
      if st.cid in senders {
        PackedIsNumbered(secret, st.cid, senders[st.cid], st);
      }
    }
    NumberedPerStream(SentAll(units));
  }

  lemma ScheduleIsGenuine(secret: u32, senders: map<byte, seq<Call>>, units: seq<Unit>, m: Msg)
    requires Schedule(secret, senders, units) && m in ArriveAll(units)
    ensures Genuinely(secret, m)
  {
    hide SentAll, ArriveAll, Packed, Project;
    ArrivalMembers(units);
    assert m in multiset(SentAll(units));
    if !m.Special() {
      var st := m.Origin();
      ProjectMembers(SentAll(units), st, m);
      ProjectMembers(SentBy(secret, senders, st.cid), st, m);
      PackedIsGenuine(secret, st.cid, senders[st.cid], m);
    }
  }

  /**
    Whatever the receiver's socket yields in between, if the datagrams it accepts are those of
    such a schedule, every stream is delivered completely, once and in sending order, also across
    the wrap-around of the 16-bit numbers: the k-th delivered message of a port carries the payload
    of the k-th call for it. No output error is counted, and one input error per swap.
   */
  lemma EndToEnd(secret: u32, senders: map<byte, seq<Call>>, units: seq<Unit>, inputs: seq<Option<seq<byte>>>)
    requires Schedule(secret, senders, units)
    requires BytesOf(Accepted(secret, inputs)) == BytesOf(ArriveAll(units))
    ensures var arrivals := Accepted(secret, inputs);
            && Held(After(arrivals)) == []
            && Delivered(arrivals) == SentAll(units)
            && (forall st :: Project(Delivered(arrivals), st) == Project(SentBy(secret, senders, st.cid), st))
            && (forall cid, j :: cid in senders && 0 <= j < |senders[cid]| && senders[cid][j].port > MAXSPECIALPORT ==>
                                   var c := senders[cid][j];
                                   var mine := Project(Delivered(arrivals), Stream(cid, c.port));
                                   var k := CallsTo(senders[cid][..j], c.port);
                                   && |mine| == CallsTo(senders[cid], c.port)
                                   && k < |mine| && Carries(secret, cid, c, mine[k]))
            && (forall cid :: StatOf(After(arrivals), cid).seqerrOut == 0
                              && StatOf(After(arrivals), cid).seqerrIn == Wrap64(Swaps(units, cid)))
  {
    hide Run, SentAll, ArriveAll, Packed, Project, Accepted, Wrap16, Numbered;
    var arrivals := ArriveAll(units);
    forall k | 0 <= k < |Accepted(secret, inputs)| ensures Genuinely(secret, Accepted(secret, inputs)[k]) {
      AcceptedIsGenuine(secret, inputs, k);
    }
    forall k | 0 <= k < |arrivals| ensures Genuinely(secret, arrivals[k]) {
      ScheduleIsGenuine(secret, senders, units, arrivals[k]);
    }
    SameBytes(secret, Accepted(secret, inputs), arrivals);
    ScheduleIsNumbered(secret, senders, units);
    SwapsAreUndone(units);
    forall cid, j | cid in senders && 0 <= j < |senders[cid]| && senders[cid][j].port > MAXSPECIALPORT
      ensures var c := senders[cid][j];
              var mine := Project(SentAll(units), Stream(cid, c.port));
              var k := CallsTo(senders[cid][..j], c.port);
              |mine| == CallsTo(senders[cid], c.port) && k < |mine| && Carries(secret, cid, c, mine[k])
    {
      PackedIsNumbered(secret, cid, senders[cid], Stream(cid, senders[cid][j].port));
      PackedPayload(secret, cid, senders[cid], j);
    }
    forall cid ensures StatOf(After(arrivals), cid).seqerrOut == 0
                       && StatOf(After(arrivals), cid).seqerrIn == Wrap64(Swaps(units, cid)) {
      CountersOverRuns(arrivals, cid);
      NumberedNeverDescends(SentAll(units), cid);
      EverySwapDescends(units, cid);
    }
  }
}
