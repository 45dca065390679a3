/**
  Streams that lose messages on the way, but are not reordered: exactly when the sorter, which holds
  a message back after every gap, still delivers everything that arrived, and in order.
 */
module LossyStreams {
  import opened Numbers
  import opened Sorter
  import opened SorterRuns
  import opened LossCounter

  // ---------- Lists of messages by stream ----------

  lemma ProjectNext(ms: seq<Msg>, m: Msg, st: Stream)
    ensures Project(ms + [m], st) == Project(ms, st) + if On(m, st) then [m] else []
  {
    assert (ms + [m])[..|ms|] == ms;
  }

  lemma {:induction false} LastOfProject(ms: seq<Msg>, st: Stream)
    ensures var p := Project(ms, st); LastNum(ms, st) == if |p| == 0 then 0 else p[|p| - 1].num
    ensures Seen(ms, st) <==> |Project(ms, st)| > 0
  {
    if |ms| > 0 {
      var n := |ms| - 1;
      assert ms == ms[..n] + [ms[n]];
      LastOfProject(ms[..n], st);
      Snoc(ms[..n], ms[n]);
    }
  }

  /** Delivered and held messages together are, stream by stream, what arrived, in order. */
  ghost predicate InOrder(ms: seq<Msg>, out: seq<Msg>, held: seq<Msg>) {
    forall st :: Project(out + held, st) == Project(ms, st)
  }

  /** The sorter has kept everything that arrived. */
  ghost predicate Kept(ms: seq<Msg>) {
    InOrder(ms, Delivered(ms), Held(After(ms)))
  }

  /** Whatever happens, no stream grows. */
  ghost predicate NotMore(ms: seq<Msg>, out: seq<Msg>, held: seq<Msg>) {
    forall st :: |Project(out + held, st)| <= |Project(ms, st)|
  }

  /** The state after one more message, from the lists alone. */
  function NextHeld(ms: seq<Msg>, out: seq<Msg>, m: Msg): seq<Msg> {
    if GapAfter(ms, out, m) then [m] else []
  }

  function NextAll(ms: seq<Msg>, out: seq<Msg>, held: seq<Msg>, m: Msg): seq<Msg> {
    out + NextOut(ms, out, held, m) + NextHeld(ms, out, m)
  }

  /** The projections of what was delivered and is held after one more message. */
  lemma NextProject(ms: seq<Msg>, out: seq<Msg>, held: seq<Msg>, m: Msg, st: Stream)
    requires |held| <= 1
    ensures var p, one := Project(out, st), if On(m, st) then [m] else [];
            var h := if |held| == 1 && On(held[0], st) then held else [];
            && Project(out + held, st) == p + h
            && Project(NextAll(ms, out, held, m), st) ==
               if GapAfter(ms, out, m) then p + one
               else if HeldGoesFirst(ms, out, held, m) then p + h + one
               else p + one + h
  {
    hide GapAfter, HeldGoesFirst, Project;
    var p := Project(out, st);
    ProjectNext(out, m, st);
    if |held| == 1 {
      assert held == [held[0]];
      ProjectNext(out, held[0], st);
      ProjectNext(out + held, m, st);
      ProjectNext(out + [m], held[0], st);
      assert out + (held + [m]) + [] == out + held + [m];
      assert out + ([m] + held) + [] == out + [m] + held;
    } else {
      assert held == [] && out + held == out;
      assert out + ([m] + held) + [] == out + [m];
      assert out + (held + [m]) + [] == out + [m];
    }
    assert out + [] + [m] == out + [m];
  }

  lemma NextNotMore(ms: seq<Msg>, out: seq<Msg>, held: seq<Msg>, m: Msg)
    requires |held| <= 1 && NotMore(ms, out, held)
    ensures NotMore(ms + [m], out + NextOut(ms, out, held, m), NextHeld(ms, out, m))
  {
    hide GapAfter, HeldGoesFirst, Project, NextOut, NextHeld;
    forall st ensures |Project(NextAll(ms, out, held, m), st)| <= |Project(ms + [m], st)| {
      NextProject(ms, out, held, m, st);
      ProjectNext(ms, m, st);
      assert |Project(out + held, st)| <= |Project(ms, st)|;
    }
  }

  /** What is lost or out of order on a stream stays so. */
  lemma NextKept(ms: seq<Msg>, out: seq<Msg>, held: seq<Msg>, m: Msg)
    requires |held| <= 1 && NotMore(ms, out, held)
    requires forall st :: Project(NextAll(ms, out, held, m), st) == Project(ms + [m], st)
    ensures InOrder(ms, out, held)
  {
    hide Project, NextAll;
    forall st ensures Project(out + held, st) == Project(ms, st) {
      assert |Project(out + held, st)| <= |Project(ms, st)|;
      NextKeptOn(ms, out, held, m, st);
    }
  }

  lemma NextKeptOn(ms: seq<Msg>, out: seq<Msg>, held: seq<Msg>, m: Msg, st: Stream)
    requires |held| <= 1 && |Project(out + held, st)| <= |Project(ms, st)|
    requires Project(NextAll(ms, out, held, m), st) == Project(ms + [m], st)
    ensures Project(out + held, st) == Project(ms, st)
  {
    hide GapAfter, HeldGoesFirst, Project, NextAll;
    NextProject(ms, out, held, m, st);
    ProjectNext(ms, m, st);
    var p, q := Project(out, st), Project(ms, st);
    if On(m, st) {
      if |held| == 1 && On(held[0], st) {
        assert held == [held[0]];
        SameEnd(p, held[0], m, q, GapAfter(ms, out, m), HeldGoesFirst(ms, out, held, m));
      } else {
        assert p + [] == p;
        CancelEnd(p, q, m);
      }
    } else {
      assert p + [] == p && q + [] == q;
    }
  }

  lemma CancelEnd(p: seq<Msg>, q: seq<Msg>, m: Msg)
    requires p + [m] == q + [m]
    ensures p == q
  {
    assert (p + [m])[..|p|] == p && (q + [m])[..|q|] == q && |p + [m]| == |p| + 1;
  }

  lemma SameEnd(p: seq<Msg>, h: Msg, m: Msg, q: seq<Msg>, gap: bool, heldFirst: bool)
    requires |p| + 1 <= |q|
    requires (if gap then p + [m] else if heldFirst then p + [h] + [m] else p + [m] + [h]) == q + [m]
    ensures p + [h] == q
  {
    if gap {
      assert false;
    } else if heldFirst {
      assert (p + [h] + [m])[..|p| + 1] == p + [h];
      assert (q + [m])[..|q|] == q;
      assert |q| == |p| + 1;
    } else {
      assert (p + [m] + [h])[|p| + 1] == h && (q + [m])[|q|] == m && |q| == |p| + 1;
      assert (p + [m] + [h])[..|p| + 1] == p + [m] && (q + [m])[..|q|] == q;
    }
  }

  // ---------- One more message on rising streams ----------

  /** The message leaves a gap behind. */
  predicate Leaps(ms: seq<Msg>, k: nat)
    requires k < |ms|
  {
    !ms[k].Special() && Ahead(ms, k) > 1
  }

  /** Every message but the first of a stream is ahead of its predecessor: some are lost, none reordered. */
  ghost predicate Rising(ms: seq<Msg>) {
    |ms| > 0 ==>
      var n := |ms| - 1;
      && Rising(ms[..n])
      && (!ms[n].Special() && Seen(ms[..n], ms[n].Origin()) ==> Ahead(ms, n) > 0)
  }

  /**
    A message that leaves a gap behind is not followed by another such message, nor by the next one
    of its own stream across the 16-bit boundary or after a gap of the largest size.
   */
  predicate Resolved(ms: seq<Msg>, k: nat)
    requires k + 1 < |ms|
  {
    Leaps(ms, k) ==>
      || ms[k + 1].Special()
      || (&& !Leaps(ms, k + 1)
          && (ms[k + 1].Origin() == ms[k].Origin() ==> ms[k].num != 0x7fff && Ahead(ms, k) != 0x7fff))
  }

  /** Exactly the last message is held, if it leaves a gap behind. */
  ghost predicate HeldIsLeap(ms: seq<Msg>, held: seq<Msg>) {
    held == if |ms| > 0 && Leaps(ms, |ms| - 1) then [ms[|ms| - 1]] else []
  }

  lemma PairArithmetic(o: i16, b: i16, m: i16)
    requires Wrap16(b - o) > 1 && Wrap16(m - b) > 0
    ensures Wrap16(m - b) > 1 ==> !(Wrap16(m - o) > 1 && b < m && Wrap16(m - b) <= 1)
    ensures Wrap16(m - b) == 1 ==>
              (Wrap16(m - o) > 1 && b < m <==> b != 0x7fff && Wrap16(b - o) != 0x7fff)
  {
  }

  /** Nothing is held: the message is kept, held if it leaves a gap behind. */
  lemma StepFree(ms: seq<Msg>, out: seq<Msg>, m: Msg)
    requires InOrder(ms, out, [])
    ensures InOrder(ms + [m], out + NextOut(ms, out, [], m), NextHeld(ms, out, m))
    ensures HeldIsLeap(ms + [m], NextHeld(ms, out, m))
  {
    hide Project, Wrap16, LastNum;
    Snoc(ms, m);
    assert out + [] == out;
    forall st ensures Project(NextAll(ms, out, [], m), st) == Project(ms + [m], st) {
      NextProject(ms, out, [], m, st);
      ProjectNext(ms, m, st);
      assert Project(out + [], st) == Project(ms, st);
    }
    LastOfProject(ms, m.Origin());
    LastOfProject(out, m.Origin());
    assert Project(out + [], m.Origin()) == Project(ms, m.Origin());
    assert (ms + [m])[|ms|] == m;
  }

  /** A message of another stream, or a control message, releases the held one unless it replaces it. */
  lemma StepOther(front: seq<Msg>, b: Msg, out: seq<Msg>, m: Msg)
    requires InOrder(front + [b], out, [b]) && !b.Special() && !On(m, b.Origin())
    ensures var ms := front + [b];
            && (InOrder(ms + [m], out + NextOut(ms, out, [b], m), NextHeld(ms, out, m)) <==> !GapAfter(ms, out, m))
            && (GapAfter(ms, out, m) <==> Leaps(ms + [m], |ms|))
  {
    hide Project, Wrap16, LastNum, GapAfter;
    var ms, st := front + [b], m.Origin();
    forall s: Stream
      ensures !GapAfter(ms, out, m) ==> Project(NextAll(ms, out, [b], m), s) == Project(ms + [m], s)
      ensures s == b.Origin() && GapAfter(ms, out, m) ==> Project(NextAll(ms, out, [b], m), s) != Project(ms + [m], s)
    {
      OtherProject(ms, out, b, m, s);
    }
    assert out + NextOut(ms, out, [b], m) + NextHeld(ms, out, m) == NextAll(ms, out, [b], m);
    if InOrder(ms + [m], out + NextOut(ms, out, [b], m), NextHeld(ms, out, m)) {
      assert Project(NextAll(ms, out, [b], m), b.Origin()) == Project(ms + [m], b.Origin());
    }
    if !m.Special() {
      OtherLast(ms, out, b, m);
    }
    GapIsLeap(ms, out, m);
  }

  lemma OtherProject(ms: seq<Msg>, out: seq<Msg>, b: Msg, m: Msg, s: Stream)
    requires InOrder(ms, out, [b]) && !b.Special() && !On(m, b.Origin())
    ensures !GapAfter(ms, out, m) ==> Project(NextAll(ms, out, [b], m), s) == Project(ms + [m], s)
    ensures s == b.Origin() && GapAfter(ms, out, m) ==> Project(NextAll(ms, out, [b], m), s) != Project(ms + [m], s)
  {
    hide Project, GapAfter, HeldGoesFirst, NextAll;
    NextProject(ms, out, [b], m, s);
    ProjectNext(ms, m, s);
    assert Project(out + [b], s) == Project(ms, s);
    if s == b.Origin() {
      assert |Project(out, s) + [b]| == |Project(out, s)| + 1;
    }
  }

  lemma OtherLast(ms: seq<Msg>, out: seq<Msg>, b: Msg, m: Msg)
    requires InOrder(ms, out, [b]) && !On(b, m.Origin())
    ensures LastNum(out, m.Origin()) == LastNum(ms, m.Origin())
  {
    ProjectNext(out, b, m.Origin());
    assert Project(out + [b], m.Origin()) == Project(ms, m.Origin());
    LastOfProject(ms, m.Origin());
    LastOfProject(out, m.Origin());
  }

  lemma GapIsLeap(ms: seq<Msg>, out: seq<Msg>, m: Msg)
    ensures (ms + [m])[|ms|] == m
    ensures !m.Special() && LastNum(out, m.Origin()) == LastNum(ms, m.Origin()) ==>
              (GapAfter(ms, out, m) <==> Leaps(ms + [m], |ms|))
    ensures m.Special() ==> !GapAfter(ms, out, m) && !Leaps(ms + [m], |ms|)
  {
    hide Wrap16, LastNum;
    Snoc(ms, m);
  }

  /** The next message of the held one's stream. */
  lemma StepSame(front: seq<Msg>, b: Msg, out: seq<Msg>, m: Msg)
    requires InOrder(front + [b], out, [b]) && !b.Special() && On(m, b.Origin())
    requires Wrap16(b.num - LastNum(front, b.Origin())) > 1 && Wrap16(m.num - b.num) > 0
    ensures var ms := front + [b];
            && (InOrder(ms + [m], out + NextOut(ms, out, [b], m), NextHeld(ms, out, m)) <==>
                && Wrap16(m.num - b.num) == 1
                && b.num != 0x7fff && Wrap16(b.num - LastNum(front, b.Origin())) != 0x7fff)
            && (Wrap16(m.num - b.num) == 1 ==> !GapAfter(ms, out, m))
  {
    hide Project, LastNum;
    var ms, st := front + [b], b.Origin();
    SameLast(front, b, out);
    var o := LastNum(front, st);
    PairArithmetic(o, b.num, m.num);
    hide Wrap16;
    assert LastNum(ms, st) == b.num by { Snoc(front, b); }
    forall s: Stream
      ensures Project(NextAll(ms, out, [b], m), s) == Project(ms + [m], s) <==>
              s != st || (!GapAfter(ms, out, m) && HeldGoesFirst(ms, out, [b], m))
    {
      SameProject(ms, out, b, m, s);
    }
    assert out + NextOut(ms, out, [b], m) + NextHeld(ms, out, m) == NextAll(ms, out, [b], m);
    assert InOrder(ms + [m], out + NextOut(ms, out, [b], m), NextHeld(ms, out, m)) <==>
           !GapAfter(ms, out, m) && HeldGoesFirst(ms, out, [b], m) by {
      if InOrder(ms + [m], out + NextOut(ms, out, [b], m), NextHeld(ms, out, m)) {
        assert Project(NextAll(ms, out, [b], m), st) == Project(ms + [m], st);
      }
    }
  }

  lemma SameLast(front: seq<Msg>, b: Msg, out: seq<Msg>)
    requires InOrder(front + [b], out, [b]) && !b.Special()
    ensures LastNum(out, b.Origin()) == LastNum(front, b.Origin())
  {
    hide Project;
    var st := b.Origin();
    ProjectNext(out, b, st);
    ProjectNext(front, b, st);
    assert Project(out + [b], st) == Project(front + [b], st);
    var p, q := Project(out, st), Project(front, st);
    assert (p + [b])[..|p|] == p && (q + [b])[..|q|] == q && |p| == |q|;
    LastOfProject(front, st);
    LastOfProject(out, st);
  }

  lemma SameProject(ms: seq<Msg>, out: seq<Msg>, b: Msg, m: Msg, s: Stream)
    requires InOrder(ms, out, [b]) && !b.Special() && On(m, b.Origin()) && b.num != m.num
    ensures Project(NextAll(ms, out, [b], m), s) == Project(ms + [m], s) <==>
            s != b.Origin() || (!GapAfter(ms, out, m) && HeldGoesFirst(ms, out, [b], m))
  {
    hide Project, GapAfter, HeldGoesFirst, NextAll;
    NextProject(ms, out, [b], m, s);
    ProjectNext(ms, m, s);
    assert Project(out + [b], s) == Project(ms, s);
    var p := Project(out, s);
    if s == b.Origin() {
      assert (p + [m] + [b])[|p|] == m && (p + [b] + [m])[|p|] == b;
      assert |p + [m]| == |p| + 1;
    }
  }

  // ---------- Whole runs ----------

  /** `NextMessage` in terms of `NextAll`. */
  lemma NextState(ms: seq<Msg>, m: Msg)
    ensures var out, held := Delivered(ms), Held(After(ms));
            && |held| <= 1
            && Delivered(ms + [m]) == out + NextOut(ms, out, held, m)
            && Held(After(ms + [m])) == NextHeld(ms, out, m)
            && Delivered(ms + [m]) + Held(After(ms + [m])) == NextAll(ms, out, held, m)
  {
    hide Run, NextOut, GapAfter;
    HeldIsLast(ms);
    NextMessage(ms, m);
  }

  lemma {:induction false} NeverMore(ms: seq<Msg>)
    ensures NotMore(ms, Delivered(ms), Held(After(ms)))
  {
    hide Run, Project, NextAll;
    if |ms| == 0 {
      EmptyKept(ms);
    } else {
      var n := |ms| - 1;
      assert ms == ms[..n] + [ms[n]];
      NeverMore(ms[..n]);
      NextState(ms[..n], ms[n]);
      NextNotMore(ms[..n], Delivered(ms[..n]), Held(After(ms[..n])), ms[n]);
    }
  }

  /** On every run, with arbitrary arrivals: what has been lost or misplaced once remains so. */
  lemma KeptBefore(ms: seq<Msg>, m: Msg)
    requires Kept(ms + [m])
    ensures Kept(ms)
  {
    hide Run, Project, NextAll, NextOut, NextHeld;
    NeverMore(ms);
    NextState(ms, m);
    NextKept(ms, Delivered(ms), Held(After(ms)), m);
  }

  lemma KeptNext(ms: seq<Msg>, m: Msg)
    requires Kept(ms) && HeldIsLeap(ms, Held(After(ms))) && Rising(ms + [m])
    ensures Kept(ms + [m]) <==> |ms| == 0 || Resolved(ms + [m], |ms| - 1)
    ensures Kept(ms + [m]) ==> HeldIsLeap(ms + [m], Held(After(ms + [m])))
  {
    hide Run, NextOut, NextHeld, Resolved, InOrder, HeldIsLeap;
    NextState(ms, m);
    StepKept(ms, Delivered(ms), Held(After(ms)), m);
  }

  lemma StepKept(ms: seq<Msg>, out: seq<Msg>, held: seq<Msg>, m: Msg)
    requires InOrder(ms, out, held) && HeldIsLeap(ms, held) && Rising(ms + [m])
    ensures var next := InOrder(ms + [m], out + NextOut(ms, out, held, m), NextHeld(ms, out, m));
            && (next <==> |ms| == 0 || Resolved(ms + [m], |ms| - 1))
            && (next ==> HeldIsLeap(ms + [m], NextHeld(ms, out, m)))
  {
    if held == [] {
      hide InOrder;
      StepFree(ms, out, m);
      NotResolvedLeaps(ms, m);
    } else {
      hide InOrder, NextOut, GapAfter, Wrap16, LastNum, Rising;
      var n := |ms| - 1;
      var front, b := ms[..n], ms[n];
      assert ms == front + [b] && held == [b];
      StepWaiting(front, b, out, m);
    }
  }

  lemma StepWaiting(front: seq<Msg>, b: Msg, out: seq<Msg>, m: Msg)
    requires var ms := front + [b];
             InOrder(ms, out, [b]) && Leaps(ms, |front|) && Rising(ms + [m])
    ensures var ms := front + [b];
            var next := InOrder(ms + [m], out + NextOut(ms, out, [b], m), NextHeld(ms, out, m));
            && (next <==> Resolved(ms + [m], |front|))
            && (next ==> HeldIsLeap(ms + [m], NextHeld(ms, out, m)))
  {
    hide InOrder, NextOut, NextHeld, GapAfter, Wrap16, LastNum, Rising, HeldIsLeap, Seen;
    var ms := front + [b];
    LastPair(front, b, m);
    RisingLast(ms, m);
    if On(m, b.Origin()) {
      StepSame(front, b, out, m);
    } else {
      StepOther(front, b, out, m);
    }
    if InOrder(ms + [m], out + NextOut(ms, out, [b], m), NextHeld(ms, out, m)) {
      LeapHeld(ms, out, m);
    }
  }

  lemma RisingLast(ms: seq<Msg>, m: Msg)
    requires Rising(ms + [m])
    ensures !m.Special() && Seen(ms, m.Origin()) ==> Wrap16(m.num - LastNum(ms, m.Origin())) > 0
  {
    Snoc(ms, m);
  }

  lemma NotResolvedLeaps(ms: seq<Msg>, m: Msg)
    requires HeldIsLeap(ms, [])
    ensures |ms| == 0 || Resolved(ms + [m], |ms| - 1)
  {
    if |ms| > 0 {
      assert (ms + [m])[..|ms| - 1] == ms[..|ms| - 1];
    }
  }

  /** The differences of the last two messages. */
  lemma LastPair(front: seq<Msg>, b: Msg, m: Msg)
    ensures var ms := front + [b];
            && (ms + [m])[|front|] == b && (ms + [m])[|front| + 1] == m && ms[|front|] == b
            && Ahead(ms, |front|) == Ahead(ms + [m], |front|) == Wrap16(b.num - LastNum(front, b.Origin()))
            && Ahead(ms + [m], |front| + 1) == Wrap16(m.num - LastNum(ms, m.Origin()))
            && (!b.Special() && m.Origin() == b.Origin() ==> LastNum(ms, m.Origin()) == b.num && Seen(ms, m.Origin()))
  {
    hide Wrap16, LastNum, Seen;
    var ms := front + [b];
    Snoc(front, b);
    Snoc(ms, m);
    assert (ms + [m])[..|front|] == front && ms[..|front|] == front;
  }

  lemma LeapHeld(ms: seq<Msg>, out: seq<Msg>, m: Msg)
    requires GapAfter(ms, out, m) <==> Leaps(ms + [m], |ms|)
    ensures HeldIsLeap(ms + [m], NextHeld(ms, out, m))
  {
    assert (ms + [m])[|ms|] == m;
  }

  /**
    For every interleaving of streams that lose messages but are not reordered: everything that
    arrived has been delivered or is held, stream by stream and in order, if and only if every
    message that left a gap behind was resolved by its successor.
   */
  lemma {:induction false} LossyKeptIff(ms: seq<Msg>)
    requires Rising(ms)
    ensures Kept(ms) <==> forall k :: 0 <= k < |ms| - 1 ==> Resolved(ms, k)
    ensures Kept(ms) ==> HeldIsLeap(ms, Held(After(ms)))
  {
    hide Run, Kept, Resolved, HeldIsLeap, InOrder;
    if |ms| == 0 {
      EmptyKept(ms);
    } else {
      var n := |ms| - 1;
      var front, m := ms[..n], ms[n];
      assert ms == front + [m];
      LossyKeptIff(front);
      forall k | 0 <= k < n - 1 ensures Resolved(ms, k) <==> Resolved(front, k) {
        ResolvedPrefix(front, m, k);
      }
      if Kept(front) {
        KeptNext(front, m);
      } else if Kept(ms) {
        KeptBefore(front, m);
      }
    }
  }

  lemma EmptyKept(ms: seq<Msg>)
    requires ms == []
    ensures Kept(ms) && HeldIsLeap(ms, Held(After(ms))) && NotMore(ms, Delivered(ms), Held(After(ms)))
  {
    RunEmpty();
  }

  lemma ResolvedPrefix(front: seq<Msg>, m: Msg, k: nat)
    requires k + 1 < |front|
    ensures Resolved(front + [m], k) <==> Resolved(front, k)
  {
    assert (front + [m])[..k] == front[..k] && (front + [m])[..k + 1] == front[..k + 1];
  }

  /** Streams rise when their unbounded numbers do, in steps below half the 16-bit range. */
  lemma {:induction false} RisingNumbers(ms: seq<Msg>, index: seq<int>)
    requires Genuine(ms, index)
    requires forall st, j :: 0 < j < |Track(ms, index, st)| ==>
                               0 < Track(ms, index, st)[j] - Track(ms, index, st)[j - 1] < 0x8000
    ensures Rising(ms)
  {
    hide Wrap16, Track;
    if |ms| > 0 {
      var n := |ms| - 1;
      forall st ensures TrackGrows(ms, index, st) {
        TrackLast(ms, index, st);
      }
      forall st, j | 0 < j < |Track(ms[..n], index[..n], st)|
        ensures 0 < Track(ms[..n], index[..n], st)[j] - Track(ms[..n], index[..n], st)[j - 1] < 0x8000
      {
        assert TrackGrows(ms, index, st);
        assert Track(ms[..n], index[..n], st)[j] == Track(ms, index, st)[j];
        assert Track(ms[..n], index[..n], st)[j - 1] == Track(ms, index, st)[j - 1];
      }
      RisingNumbers(ms[..n], index[..n]);
      var st := ms[n].Origin();
      if !ms[n].Special() && Seen(ms[..n], st) {
        TrackEnd(ms[..n], index[..n], st);
        assert TrackGrows(ms, index, st);
        var before := Track(ms[..n], index[..n], st);
        var j := |before|;
        assert Track(ms, index, st)[j] == index[n] && Track(ms, index, st)[j - 1] == before[j - 1];
        assert 0 < index[n] - before[j - 1] < 0x8000;
        WrapApart(index[n], before[j - 1]);
      }
    }
  }

  ghost predicate TrackGrows(ms: seq<Msg>, index: seq<int>, st: Stream)
    requires |index| == |ms| > 0
  {
    var n := |ms| - 1;
    Track(ms, index, st) == Track(ms[..n], index[..n], st) + if On(ms[n], st) then [index[n]] else []
  }

  lemma TrackLast(ms: seq<Msg>, index: seq<int>, st: Stream)
    requires |index| == |ms| > 0
    ensures TrackGrows(ms, index, st)
  {
  }

  /**
    How bad it gets: while every message leaves a gap behind, as when every second one is lost,
    nothing but the first is delivered, although everything else arrived in order.
   */
  lemma {:induction false} EveryGapOverwrites(ms: seq<Msg>, st: Stream)
    requires |ms| > 0 && ms[0].num == 1 && forall k :: 0 <= k < |ms| ==> On(ms[k], st)
    requires forall k :: 0 < k < |ms| ==> ms[k - 1].num + 1 < ms[k].num
    ensures Delivered(ms) == [ms[0]] && Held(After(ms)) == if |ms| == 1 then [] else [ms[|ms| - 1]]
    ensures LastNum(ms, st) == ms[|ms| - 1].num >= 1
  {
    hide Run, Wrap16, LastNum, NextOut, GapAfter;
    var n := |ms| - 1;
    var front, m := ms[..n], ms[n];
    assert ms == front + [m];
    Snoc(front, m);
    NextMessage(front, m);
    if n == 0 {
      assert front == [];
      RunEmpty();
      FirstLeaves(m);
    } else {
      EveryGapOverwrites(front, st);
      assert ms[n - 1].num + 1 < m.num;
      GapAgain(front, ms[0], m, st);
      assert [ms[0]] + [] == [ms[0]];
    }
  }

  lemma FirstLeaves(m: Msg)
    requires m.num == 1
    ensures !GapAfter([], [], m) && [] + NextOut([], [], [], m) == [m]
  {
  }

  lemma GapAgain(front: seq<Msg>, first: Msg, m: Msg, st: Stream)
    requires On(first, st) && On(m, st) && first.num == 1
    requires 1 <= LastNum(front, st) && LastNum(front, st) as int + 1 < m.num
    ensures GapAfter(front, [first], m) && forall held :: NextOut(front, [first], held, m) == []
  {
    Snoc([], first);
    assert [] + [first] == [first];
    hide LastNum;
    assert Wrap16(m.num - 1) == m.num - 1;
  }
}
