/**
  What the sorter does over whole runs with arbitrary arrivals: which messages it holds and for
  how long, that it neither loses nor invents messages, and what its four counters count.
 */
module SorterRuns {
  import opened Numbers
  import opened Sorter

  // ---------- Message lists, described without the sorter ----------

  predicate DataFrom(m: Msg, cid: byte) {
    !m.Special() && m.cid == cid
  }

  predicate On(m: Msg, st: Stream) {
    !m.Special() && m.Origin() == st
  }

  /** Some data message of the stream occurs in the list. */
  predicate Seen(ms: seq<Msg>, st: Stream) {
    exists k :: 0 <= k < |ms| && On(ms[k], st)
  }

  /** The number of the stream's last data message in the list, 0 if there is none. */
  function LastNum(ms: seq<Msg>, st: Stream): i16 {
    if |ms| == 0 then 0
    else if On(ms[|ms| - 1], st) then ms[|ms| - 1].num
    else LastNum(ms[..|ms| - 1], st)
  }

  /** The data messages of one stream. */
  function Project(ms: seq<Msg>, st: Stream): seq<Msg> {
    if |ms| == 0 then []
    else Project(ms[..|ms| - 1], st) + if On(ms[|ms| - 1], st) then [ms[|ms| - 1]] else []
  }

  /** How far message `k` is ahead of its predecessor on the same stream, as a 16-bit difference. */
  function Ahead(ms: seq<Msg>, k: nat): i16
    requires k < |ms|
  {
    Wrap16(ms[k].num - LastNum(ms[..k], ms[k].Origin()))
  }

  /** How many data messages of a sender are in the list. */
  function Count(ms: seq<Msg>, cid: byte): nat {
    if |ms| == 0 then 0
    else Count(ms[..|ms| - 1], cid) + if DataFrom(ms[|ms| - 1], cid) then 1 else 0
  }

  /** How many data messages of a sender are behind their predecessor on the same stream. */
  function Descents(ms: seq<Msg>, cid: byte): nat {
    if |ms| == 0 then 0
    else
      var n := |ms| - 1;
      Descents(ms[..n], cid) + if DataFrom(ms[n], cid) && Ahead(ms, n) < 0 then 1 else 0
  }

  /** The numbers skipped by a sender, a step back counting negative; first messages do not count. */
  function Loss(ms: seq<Msg>, cid: byte): int {
    if |ms| == 0 then 0
    else
      var n := |ms| - 1;
      Loss(ms[..n], cid) +
      if DataFrom(ms[n], cid) && Seen(ms[..n], ms[n].Origin()) && Ahead(ms, n) != 0 then Ahead(ms, n) - 1 else 0
  }

  // ---------- One received message ----------

  /**
    The state between two receptions: the second buffer is empty, and a held message carries the
    last input number of its stream, more than one ahead of what that stream has delivered.
   */
  predicate Quiet(s: State) {
    && s.buf2.None?
    && (s.buf1.Some? ==>
          var b := s.buf1.value;
          && !b.Special()
          && Num(s.seqIn, b.Origin()) == b.num
          && Wrap16(b.num - Num(s.seqOut, b.Origin())) > 1)
  }

  function Held(s: State): seq<Msg> {
    if s.buf1.Some? then [s.buf1.value] else []
  }

  /** What one received message makes the drain loop deliver. */
  function Emission(s: State, m: Msg): seq<Msg> {
    if m.Special() then [m] + Held(s)
    else if Gap(s, m) then []
    else if HeldFirst(s, m) then Held(s) + [m]
    else [m] + Held(s)
  }

  function LeaveAll(s: State, out: seq<Msg>): State {
    if |out| == 0 then s
    else
      var before := LeaveAll(s, out[..|out| - 1]);
      if out[|out| - 1].Special() then before else Leave(before, out[|out| - 1])
  }

  function Admit(s: State, m: Msg): State {
    if m.Special() then s else Enter(s, m)
  }

  lemma LeaveTwo(s: State, a: Msg, b: Msg)
    ensures LeaveAll(s, [a]) == if a.Special() then s else Leave(s, a)
    ensures LeaveAll(s, [a, b]) ==
            var t := if a.Special() then s else Leave(s, a);
            if b.Special() then t else Leave(t, b)
  {
    assert [a, b][..1] == [a] && [a][..0] == [];
  }

  /** After the received message is consumed, at most one message is still waiting. */
  lemma DrainForm(s: State)
    requires Pending(s) <= 1
    ensures Drain(s) ==
            if s.buf1.Some? then Batch(Leave(s, s.buf1.value).(buf1 := None), [s.buf1.value])
            else if s.buf2.Some? then Batch(Leave(s, s.buf2.value).(buf2 := None), [s.buf2.value])
            else Batch(s, [])
  {
    var step := Process(s, None);
    if step.out.Some? {
      assert Process(step.next, None).out.None?;
      assert Drain(step.next) == Batch(step.next, []);
    }
  }

  /** Booking out only touches the output numbers and the statistics. */
  lemma LeaveKeepsBuffers(s: State, m: Msg, b: Option<Msg>)
    ensures Leave(s, m).buf1 == s.buf1 && Leave(s, m).buf2 == s.buf2 && Leave(s, m).seqIn == s.seqIn
    ensures Leave(s.(buf1 := b), m) == Leave(s, m).(buf1 := b)
    ensures forall c :: Leave(s.(buf1 := b, buf2 := c), m) == Leave(s, m).(buf1 := b, buf2 := c)
  {
  }

  lemma EnterKeepsBuffers(s: State, m: Msg)
    ensures Enter(s, m).buf1 == s.buf1 && Enter(s, m).buf2 == s.buf2
  {
  }

  /** The drain loop in one step: book the message in, then book out everything it releases. */
  lemma ReceiveForm(s: State, m: Msg)
    requires Quiet(s)
    ensures Receive(s, m) ==
            if !m.Special() && Gap(s, m) then Batch(Enter(s, m).(buf1 := Some(m)), [])
            else Batch(LeaveAll(Admit(s, m).(buf1 := None), Emission(s, m)), Emission(s, m))
  {
    hide Wrap16, Enter, Gap, Drain, LeaveAll, Leave;
    var step := Process(s, Some(m));
    var e := Admit(s, m);
    var s0 := e.(buf1 := None);
    EnterKeepsBuffers(s, m);
    LeaveKeepsBuffers(e, m, None);
    if m.Special() {
      DrainForm(s);
      LeaveTwo(s0, m, m);
      assert Emission(s, m) == if s.buf1.Some? then [m, s.buf1.value] else [m];
      if s.buf1.Some? {
        LeaveKeepsBuffers(s, s.buf1.value, None);
        LeaveTwo(s0, m, s.buf1.value);
      }
    } else if Gap(s, m) {
    } else if HeldFirst(s, m) {
      var b := s.buf1.value;
      LeaveKeepsBuffers(e, b, None);
      var t := Leave(e, b).(buf1 := None, buf2 := Some(m));
      assert step == Step(t, Some(b));
      DrainForm(t);
      LeaveTwo(s0, b, m);
      LeaveKeepsBuffers(Leave(e, b), m, None);
      assert Leave(t, m).(buf2 := None) == Leave(Leave(s0, b), m);
      assert Emission(s, m) == [b, m];
    } else {
      var t := Leave(e, m);
      assert step == Step(t, Some(m));
      DrainForm(t);
      LeaveTwo(s0, m, m);
      assert Emission(s, m) == if s.buf1.Some? then [m, s.buf1.value] else [m];
      if s.buf1.Some? {
        var b := s.buf1.value;
        LeaveTwo(s0, m, b);
        LeaveKeepsBuffers(t, b, None);
        assert Leave(s0, m) == t.(buf1 := None);
      }
    }
  }

  // ---------- Whole runs ----------

  /** The number maps hold the last number that arrived, or was delivered, on each stream. */
  ghost predicate NumberBooks(s: State, arrivals: seq<Msg>, out: seq<Msg>) {
    && (forall st :: st in s.seqIn <==> Seen(arrivals, st))
    && (forall st :: Num(s.seqIn, st) == LastNum(arrivals, st))
    && (forall st :: Num(s.seqOut, st) == LastNum(out, st))
  }

  /** The four counters a sender should have, each modulo 2^64. */
  function Books(arrivals: seq<Msg>, out: seq<Msg>, cid: byte): Stat {
    Stat(Wrap64(Count(arrivals, cid)), Wrap64(Loss(arrivals, cid)),
         Wrap64(Descents(arrivals, cid)), Wrap64(Descents(out, cid)))
  }

  ghost predicate CounterBooks(s: State, arrivals: seq<Msg>, out: seq<Msg>) {
    forall cid :: StatOf(s, cid) == Books(arrivals, out, cid)
  }

  ghost predicate Balanced(s: State, arrivals: seq<Msg>, out: seq<Msg>) {
    NumberBooks(s, arrivals, out) && CounterBooks(s, arrivals, out)
  }

  lemma Snoc(ms: seq<Msg>, m: Msg)
    ensures (ms + [m])[..|ms + [m]| - 1] == ms
    ensures forall st :: Seen(ms + [m], st) <==> Seen(ms, st) || On(m, st)
    ensures forall st :: LastNum(ms + [m], st) == if On(m, st) then m.num else LastNum(ms, st)
    ensures Ahead(ms + [m], |ms|) == Wrap16(m.num - LastNum(ms, m.Origin()))
  {
    var all := ms + [m];
    assert all[..|ms|] == ms && all[|ms|] == m;
    forall st ensures Seen(all, st) <==> Seen(ms, st) || On(m, st) {
      if Seen(ms, st) {
        var k :| 0 <= k < |ms| && On(ms[k], st);
        assert On(all[k], st);
      }
      if On(m, st) {
        assert On(all[|ms|], st);
      }
      if Seen(all, st) {
        var k :| 0 <= k < |all| && On(all[k], st);
        assert k < |ms| ==> On(ms[k], st);
      }
    }
  }

  lemma SnocCounts(ms: seq<Msg>, m: Msg, cid: byte)
    ensures var d: int := Wrap16(m.num - LastNum(ms, m.Origin()));
            && Count(ms + [m], cid) == Count(ms, cid) + (if DataFrom(m, cid) then 1 else 0)
            && Descents(ms + [m], cid) == Descents(ms, cid) + (if DataFrom(m, cid) && d < 0 then 1 else 0)
            && Loss(ms + [m], cid) == Loss(ms, cid) +
                                      if DataFrom(m, cid) && Seen(ms, m.Origin()) && d != 0 then d - 1 else 0
  {
    Snoc(ms, m);
  }

  lemma EnterNumbers(s: State, arrivals: seq<Msg>, out: seq<Msg>, m: Msg)
    requires NumberBooks(s, arrivals, out)
    ensures NumberBooks(Admit(s, m), arrivals + [m], out)
  {
    Snoc(arrivals, m);
  }

  lemma CountsWrap(count: int, loss: int, errIn: int, errOut: int, d: i16, notFirst: bool)
    ensures var st := Stat(Wrap64(count), Wrap64(loss), Wrap64(errIn), Wrap64(errOut));
            && CountArrival(st, d, notFirst) ==
               Stat(Wrap64(count + 1), Wrap64(loss + if d != 0 && notFirst then d as int - 1 else 0),
                    Wrap64(errIn + if d < 0 then 1 else 0), Wrap64(errOut))
            && CountDelivery(st, d) == st.(seqerrOut := Wrap64(errOut + if d < 0 then 1 else 0))
  {
    Wrap64Add(count, 1);
    Wrap64Add(loss, if d != 0 && notFirst then d as int - 1 else 0);
    Wrap64Add(errIn, if d < 0 then 1 else 0);
    Wrap64Add(errOut, if d < 0 then 1 else 0);
  }

  lemma EnterCounter(s: State, arrivals: seq<Msg>, out: seq<Msg>, m: Msg, cid: byte)
    requires NumberBooks(s, arrivals, out)
    requires StatOf(s, cid) == Books(arrivals, out, cid)
    ensures StatOf(Admit(s, m), cid) == Books(arrivals + [m], out, cid)
  {
    hide Wrap64, Wrap16, Count, Loss, Descents, LastNum, Seen, CountArrival;
    SnocCounts(arrivals, m, cid);
    if DataFrom(m, cid) {
      assert m.Origin() in s.seqIn <==> Seen(arrivals, m.Origin());
      assert Num(s.seqIn, m.Origin()) == LastNum(arrivals, m.Origin());
      CountsWrap(Count(arrivals, cid), Loss(arrivals, cid), Descents(arrivals, cid), Descents(out, cid),
                 Wrap16(m.num - LastNum(arrivals, m.Origin())), Seen(arrivals, m.Origin()));
    }
  }

  lemma LeaveCounter(s: State, arrivals: seq<Msg>, out: seq<Msg>, m: Msg, cid: byte)
    requires NumberBooks(s, arrivals, out) && !m.Special()
    requires StatOf(s, cid) == Books(arrivals, out, cid)
    ensures StatOf(Leave(s, m), cid) == Books(arrivals, out + [m], cid)
  {
    hide Wrap64, Wrap16, Count, Loss, Descents, LastNum, CountDelivery;
    SnocCounts(out, m, cid);
    if DataFrom(m, cid) {
      assert Num(s.seqOut, m.Origin()) == LastNum(out, m.Origin());
      CountsWrap(Count(arrivals, cid), Loss(arrivals, cid), Descents(arrivals, cid), Descents(out, cid),
                 Wrap16(m.num - LastNum(out, m.Origin())), false);
    }
  }

  lemma EnterCounters(s: State, arrivals: seq<Msg>, out: seq<Msg>, m: Msg)
    requires Balanced(s, arrivals, out)
    ensures CounterBooks(Admit(s, m), arrivals + [m], out)
  {
    forall cid ensures StatOf(Admit(s, m), cid) == Books(arrivals + [m], out, cid) {
      EnterCounter(s, arrivals, out, m, cid);
    }
  }

  lemma LeaveBooks(s: State, arrivals: seq<Msg>, out: seq<Msg>, m: Msg)
    requires Balanced(s, arrivals, out)
    ensures Balanced(if m.Special() then s else Leave(s, m), arrivals, out + [m])
  {
    Snoc(out, m);
    forall cid ensures StatOf(if m.Special() then s else Leave(s, m), cid) == Books(arrivals, out + [m], cid) {
      if m.Special() {
        SnocCounts(out, m, cid);
        assert StatOf(s, cid) == Books(arrivals, out, cid);
      } else {
        LeaveCounter(s, arrivals, out, m, cid);
      }
    }
  }

  lemma {:induction false} LeaveAllBooks(s: State, arrivals: seq<Msg>, out: seq<Msg>, more: seq<Msg>)
    requires Balanced(s, arrivals, out)
    ensures Balanced(LeaveAll(s, more), arrivals, out + more)
  {
    if |more| == 0 {
      assert out + more == out;
    } else {
      var n := |more| - 1;
      LeaveAllBooks(s, arrivals, out, more[..n]);
      LeaveBooks(LeaveAll(s, more[..n]), arrivals, out + more[..n], more[n]);
      assert out + more == out + more[..n] + [more[n]];
    }
  }

  lemma RunEmpty()
    ensures After([]) == INITIAL_STATE && Delivered([]) == [] && Held(INITIAL_STATE) == []
  {
  }

  lemma RunSnoc(arrivals: seq<Msg>, m: Msg)
    ensures var r := Receive(After(arrivals), m);
            After(arrivals + [m]) == r.next && Delivered(arrivals + [m]) == Delivered(arrivals) + r.out
  {
    assert (arrivals + [m])[..|arrivals|] == arrivals;
  }

  lemma ReceiveBooks(s: State, arrivals: seq<Msg>, out: seq<Msg>, m: Msg)
    requires Quiet(s) && Balanced(s, arrivals, out)
    ensures var r := Receive(s, m); Balanced(r.next, arrivals + [m], out + r.out)
  {
    hide Wrap16, Enter, Gap, LeaveAll, Emission, Books;
    ReceiveForm(s, m);
    EnterNumbers(s, arrivals, out, m);
    EnterCounters(s, arrivals, out, m);
    var e := Admit(s, m);
    assert forall b :: forall cid :: StatOf(e.(buf1 := b), cid) == StatOf(e, cid);
    if !m.Special() && Gap(s, m) {
      assert out + [] == out;
    } else {
      LeaveAllBooks(e.(buf1 := None), arrivals + [m], out, Emission(s, m));
    }
  }

  lemma ReceiveQuiet(s: State, m: Msg)
    requires Quiet(s)
    ensures var r := Receive(s, m);
            && Quiet(r.next)
            && Held(r.next) == (if !m.Special() && Gap(s, m) then [m] else [])
            && r.out == (if !m.Special() && Gap(s, m) then [] else Emission(s, m))
            && |r.out| <= 2
  {
    ReceiveForm(s, m);
    if m.Special() || !Gap(s, m) {
      var s0 := Admit(s, m).(buf1 := None);
      LeaveAllKeepsBuffers(s0, Emission(s, m));
    }
  }

  lemma {:induction false} LeaveAllKeepsBuffers(s: State, out: seq<Msg>)
    ensures LeaveAll(s, out).buf1 == s.buf1 && LeaveAll(s, out).buf2 == s.buf2
  {
    if |out| > 0 {
      LeaveAllKeepsBuffers(s, out[..|out| - 1]);
    }
  }

  lemma EmptyInvariant(arrivals: seq<Msg>)
    requires arrivals == []
    ensures Quiet(After(arrivals)) && Balanced(After(arrivals), arrivals, Delivered(arrivals))
  {
  }

  /**
    Every reachable state between two receptions is quiet, and the books agree with what arrived
    and what was delivered.
   */
  lemma {:induction false} RunInvariant(arrivals: seq<Msg>)
    ensures Quiet(After(arrivals))
    ensures Balanced(After(arrivals), arrivals, Delivered(arrivals))
  {
    hide Run, Quiet, Balanced, Receive;
    if |arrivals| == 0 {
      EmptyInvariant(arrivals);
    } else {
      var n := |arrivals| - 1;
      var front, m := arrivals[..n], arrivals[n];
      RunInvariant(front);
      RunSnoc(front, m);
      ReceiveQuiet(After(front), m);
      ReceiveBooks(After(front), front, Delivered(front), m);
      assert front + [m] == arrivals;
    }
  }

  /**
    Over every run the four counters of a sender are, modulo 2^64: its data messages, the numbers
    they skipped, their steps back in order of arrival and those in order of delivery.
   */
  lemma CountersOverRuns(arrivals: seq<Msg>, cid: byte)
    ensures StatOf(After(arrivals), cid) ==
            Stat(Wrap64(Count(arrivals, cid)), Wrap64(Loss(arrivals, cid)),
                 Wrap64(Descents(arrivals, cid)), Wrap64(Descents(Delivered(arrivals), cid)))
  {
    RunInvariant(arrivals);
  }

  /** The message is more than one ahead of the last arrival and the last delivery of its stream. */
  predicate GapAfter(arrivals: seq<Msg>, out: seq<Msg>, m: Msg) {
    && !m.Special()
    && Wrap16(m.num - LastNum(arrivals, m.Origin())) > 1
    && Wrap16(m.num - LastNum(out, m.Origin())) > 1
  }

  /** The pair (held, new) belongs to one stream and is delivered in this order. */
  predicate HeldGoesFirst(arrivals: seq<Msg>, out: seq<Msg>, held: seq<Msg>, m: Msg) {
    var dIn := Wrap16(m.num - LastNum(arrivals, m.Origin()));
    var dIo := Wrap16(m.num - LastNum(out, m.Origin()));
    && |held| == 1 && On(m, held[0].Origin())
    && (dIn < -1 || (dIo > 1 && dIn > 0))
    && held[0].num < m.num
  }

  /** What the next message releases, from the lists of arrivals and deliveries alone. */
  function NextOut(arrivals: seq<Msg>, out: seq<Msg>, held: seq<Msg>, m: Msg): seq<Msg> {
    if GapAfter(arrivals, out, m) then []
    else if HeldGoesFirst(arrivals, out, held, m) then held + [m]
    else [m] + held
  }

  lemma NextOutForm(s: State, arrivals: seq<Msg>, out: seq<Msg>, m: Msg)
    requires Quiet(s) && NumberBooks(s, arrivals, out)
    ensures (!m.Special() && Gap(s, m)) == GapAfter(arrivals, out, m)
    ensures Emission(s, m) == NextOut(arrivals, out, Held(s), m)
  {
    hide Wrap16, LastNum, Seen;
    assert Num(s.seqIn, m.Origin()) == LastNum(arrivals, m.Origin());
    assert Num(s.seqOut, m.Origin()) == LastNum(out, m.Origin());
  }

  /**
    The law of the next message: it is held exactly if it is more than one ahead of both the last
    arrival and the last delivery of its stream; otherwise it leaves at once, with the held one.
   */
  lemma NextMessage(arrivals: seq<Msg>, m: Msg)
    ensures var held, out := Held(After(arrivals)), Delivered(arrivals);
            && Held(After(arrivals + [m])) == (if GapAfter(arrivals, out, m) then [m] else [])
            && Delivered(arrivals + [m]) == out + NextOut(arrivals, out, held, m)
  {
    RunInvariant(arrivals);
    NextOutForm(After(arrivals), arrivals, Delivered(arrivals), m);
    ReceiveQuiet(After(arrivals), m);
    RunSnoc(arrivals, m);
  }

  /** Control messages pass at once, before a held message, and take no part in the counts of arrivals. */
  lemma ControlPassesThrough(arrivals: seq<Msg>, m: Msg, cid: byte)
    requires m.port <= 12
    ensures Delivered(arrivals + [m]) == Delivered(arrivals) + [m] + Held(After(arrivals))
    ensures Held(After(arrivals + [m])) == []
    ensures var was, now := StatOf(After(arrivals), cid), StatOf(After(arrivals + [m]), cid);
            now.received == was.received && now.lost == was.lost && now.seqerrIn == was.seqerrIn
  {
    hide Run, Count, Loss, Descents, LastNum, Wrap16, Wrap64;
    var held := Held(After(arrivals));
    NextMessage(arrivals, m);
    assert Delivered(arrivals) + ([m] + held) == Delivered(arrivals) + [m] + held;
    CountersOverRuns(arrivals, cid);
    CountersOverRuns(arrivals + [m], cid);
    SnocCounts(arrivals, m, cid);
  }

  /** Every data message is counted as received, for its sender only. */
  lemma DataIsCounted(arrivals: seq<Msg>, m: Msg, cid: byte)
    requires m.port > 12
    ensures StatOf(After(arrivals + [m]), cid).received ==
            Wrap64(StatOf(After(arrivals), cid).received + if m.cid == cid then 1 else 0)
  {
    hide Run, Count, Loss, Descents, LastNum, Wrap16, Wrap64;
    CountersOverRuns(arrivals, cid);
    CountersOverRuns(arrivals + [m], cid);
    SnocCounts(arrivals, m, cid);
    Wrap64Add(Count(arrivals, cid), if m.cid == cid then 1 else 0);
  }

  /** A held message is the last arrival, and more than one ahead of what its stream has delivered. */
  lemma HeldIsLast(arrivals: seq<Msg>)
    ensures |Held(After(arrivals))| <= 1
    ensures forall b :: Held(After(arrivals)) == [b] ==>
                          && |arrivals| > 0 && b == arrivals[|arrivals| - 1] && !b.Special()
                          && LastNum(arrivals, b.Origin()) == b.num
                          && Wrap16(b.num - LastNum(Delivered(arrivals), b.Origin())) > 1
  {
    hide Run;
    if |arrivals| > 0 {
      var n := |arrivals| - 1;
      var out := Delivered(arrivals[..n]);
      assert arrivals[..n] + [arrivals[n]] == arrivals;
      NextMessage(arrivals[..n], arrivals[n]);
      assert out + [] == out;
    } else {
      assert arrivals == [];
      RunEmpty();
    }
  }

  /** The messages that were held when a further gap took their place. */
  function Overwritten(arrivals: seq<Msg>): seq<Msg> {
    if |arrivals| == 0 then []
    else
      var front := arrivals[..|arrivals| - 1];
      Overwritten(front) + if Held(After(arrivals)) != [] then Held(After(front)) else []
  }

  lemma NextOutBalance(arrivals: seq<Msg>, out: seq<Msg>, held: seq<Msg>, m: Msg)
    ensures GapAfter(arrivals, out, m) ==> NextOut(arrivals, out, held, m) == []
    ensures !GapAfter(arrivals, out, m) ==> multiset(NextOut(arrivals, out, held, m)) == multiset(held) + multiset{m}
  {
    hide GapAfter, HeldGoesFirst;
  }

  /** Nothing is duplicated, altered or invented; only overwritten messages are missing. */
  lemma {:induction false} Conservation(arrivals: seq<Msg>)
    ensures multiset(arrivals) ==
            multiset(Delivered(arrivals)) + multiset(Held(After(arrivals))) + multiset(Overwritten(arrivals))
  {
    hide Run, NextOut, GapAfter;
    if |arrivals| == 0 {
      assert arrivals == [];
      RunEmpty();
    } else {
      var n := |arrivals| - 1;
      var front, m := arrivals[..n], arrivals[n];
      assert front + [m] == arrivals;
      Conservation(front);
      NextMessage(front, m);
      NextOutBalance(front, Delivered(front), Held(After(front)), m);
    }
  }

  // ---------- A held message and its successor on the same stream ----------

  /** Two numbers so close that their plain difference is their 16-bit difference. */
  predicate NoBoundary(a: i16, b: i16) {
    -0x8000 < a - b < 0x8000
  }

  lemma PairOut(arrivals: seq<Msg>, out: seq<Msg>, b: Msg, m: Msg)
    requires On(m, b.Origin()) && LastNum(arrivals, b.Origin()) == b.num
    requires var o := LastNum(out, b.Origin());
             Wrap16(b.num - o) > 1 && NoBoundary(b.num, o) && NoBoundary(m.num, o) && NoBoundary(m.num, b.num)
    ensures GapAfter(arrivals, out, m) <==> m.num > b.num + 1
    ensures m.num <= b.num + 1 ==> NextOut(arrivals, out, [b], m) == if b.num < m.num then [b, m] else [m, b]
  {
    hide LastNum;
    var o := LastNum(out, b.Origin());
    assert Wrap16(m.num - b.num) == m.num - b.num && Wrap16(m.num - o) == m.num - o && Wrap16(b.num - o) == b.num - o;
    hide Wrap16;
  }

  /**
    Without a 16-bit boundary between them, a held message and the next one of its stream are
    delivered in order of their numbers, unless a further gap replaces the held one.
   */
  lemma HeldPairInOrder(arrivals: seq<Msg>, b: Msg, m: Msg, o: i16)
    requires Held(After(arrivals)) == [b] && On(m, b.Origin())
    requires o == LastNum(Delivered(arrivals), b.Origin())
    requires NoBoundary(b.num, o) && NoBoundary(m.num, o) && NoBoundary(m.num, b.num)
    ensures m.num > b.num + 1 ==>
              Delivered(arrivals + [m]) == Delivered(arrivals) && Held(After(arrivals + [m])) == [m]
    ensures m.num == b.num + 1 ==> Delivered(arrivals + [m]) == Delivered(arrivals) + [b, m]
    ensures m.num <= b.num ==> Delivered(arrivals + [m]) == Delivered(arrivals) + [m, b]
  {
    hide Run;
    HeldIsLast(arrivals);
    NextMessage(arrivals, m);
    PairOut(arrivals, Delivered(arrivals), b, m);
  }

  /** When the pair (held, new) leaves in modular order, by the guard of `process`. */
  predicate GuardAgrees(o: i16, b: i16, m: i16) {
    var d := Wrap16(m - b);
    && (d > 0 ==> b < m && Wrap16(m - o) > 1)
    && (d < -1 ==> m <= b && d != -0x8000)
  }

  lemma GuardArithmetic(o: i16, b: i16, m: i16)
    ensures var dIn := Wrap16(m - b);
            var heldFirst := (dIn < -1 || (Wrap16(m - o) > 1 && dIn > 0)) && b < m;
            (if heldFirst then dIn >= 0 else Wrap16(b - m) >= 0) <==> GuardAgrees(o, b, m)
  {
  }

  lemma GuardOut(arrivals: seq<Msg>, out: seq<Msg>, b: Msg, m: Msg)
    requires On(m, b.Origin()) && LastNum(arrivals, b.Origin()) == b.num
    requires !GapAfter(arrivals, out, m)
    ensures var pair := NextOut(arrivals, out, [b], m);
            && |pair| == 2
            && (Wrap16(pair[1].num - pair[0].num) >= 0 <==> GuardAgrees(LastNum(out, b.Origin()), b.num, m.num))
  {
    hide Wrap16, GuardAgrees, LastNum;
    GuardArithmetic(LastNum(out, b.Origin()), b.num, m.num);
  }

  /**
    In general the comparison of the two numbers in `process` is plain while their order is
    modular. They leave in modular order exactly when the two agree as `GuardAgrees` states.
   */
  lemma HeldPairOrderedIff(arrivals: seq<Msg>, b: Msg, m: Msg)
    requires Held(After(arrivals)) == [b] && On(m, b.Origin())
    requires !GapAfter(arrivals, Delivered(arrivals), m)
    ensures Held(After(arrivals + [m])) == []
    ensures var n := |Delivered(arrivals)|;
            var all := Delivered(arrivals + [m]);
            && |all| == n + 2
            && (Wrap16(all[n + 1].num - all[n].num) >= 0
                <==> GuardAgrees(LastNum(Delivered(arrivals), b.Origin()), b.num, m.num))
  {
    hide Run;
    HeldIsLast(arrivals);
    NextMessage(arrivals, m);
    GuardOut(arrivals, Delivered(arrivals), b, m);
  }

  lemma OvertakenPrefix(a: Msg, again: Msg, st: Stream)
    requires On(a, st) && On(again, st) && a.num == 0x7ffd && again.num == 0x7ffd
    ensures Held(After([a, again])) == [] && Delivered([a, again]) == [again, a]
  {
    hide Run;
    assert [] + [a] == [a] && [a] + [again] == [a, again];
    RunEmpty();
    assert GapAfter([], [], a);
    NextMessage([], a);
    assert [] + NextOut([], [], [], a) == [];
    Snoc([], a);
    assert Wrap16(again.num - LastNum([a], st)) == 0;
    assert NextOut([a], [], [a], again) == [again] + [a];
    NextMessage([a], again);
  }

  lemma OvertakeStep(arrivals: seq<Msg>, b: Msg, m: Msg)
    requires Held(After(arrivals)) == [b] && On(m, b.Origin()) && b.num == 0x7fff && m.num == -0x8000
    ensures Delivered(arrivals + [m]) == Delivered(arrivals) + [m, b]
  {
    hide Run;
    HeldIsLast(arrivals);
    NextMessage(arrivals, m);
  }

  /**
    32765 arrives, twice, and 32766 is lost; 32768, which is numbered -32768, then overtakes the
    held 32767.
   */
  lemma OvertakenAtBoundary(st: Stream, a: Msg, again: Msg, b: Msg, m: Msg)
    requires On(a, st) && On(again, st) && On(b, st) && On(m, st)
    requires a.num == again.num == 0x7ffd && b.num == 0x7fff && m.num == -0x8000
    ensures Delivered([a, again] + [b] + [m]) == [again, a] + [m, b]
  {
    hide Run;
    var two := [a, again];
    OvertakenPrefix(a, again, st);
    assert two == [a] + [again];
    assert [again, a] == [again] + [a];
    Snoc([a], again);
    Snoc([again], a);
    assert GapAfter(two, [again, a], b);
    NextMessage(two, b);
    OvertakeStep(two + [b], b, m);
  }
}
