/**
  The `lost` counter. The 16-bit differences it accumulates telescope: per stream they add up to
  the distance from the first to the last arrival in the sender's own unbounded numbering, less
  the number of arrivals that moved. The counter sums this over the streams of a sender.
 */
module LossCounter {
  import opened Numbers
  import opened Sorter
  import opened SorterRuns

  // ---------- Per stream ----------

  /** What message `m` adds to the loss, arriving after `ms`. */
  function Skipped(ms: seq<Msg>, m: Msg): int {
    var d: int := Wrap16(m.num - LastNum(ms, m.Origin()));
    if Seen(ms, m.Origin()) && d != 0 then d - 1 else 0
  }

  function StreamLoss(ms: seq<Msg>, st: Stream): int {
    if |ms| == 0 then 0
    else
      var n := |ms| - 1;
      StreamLoss(ms[..n], st) + if On(ms[n], st) then Skipped(ms[..n], ms[n]) else 0
  }

  /** The loss on all streams of a sender with a port below `ports`. */
  function LossBelow(ms: seq<Msg>, cid: byte, ports: nat): int
    requires ports <= PORTS
  {
    if ports == 0 then 0 else LossBelow(ms, cid, ports - 1) + StreamLoss(ms, Stream(cid, ports - 1))
  }

  lemma {:induction false} LossBelowSnoc(ms: seq<Msg>, m: Msg, cid: byte, ports: nat)
    requires ports <= PORTS
    ensures LossBelow(ms + [m], cid, ports) ==
            LossBelow(ms, cid, ports) + if DataFrom(m, cid) && m.port < ports then Skipped(ms, m) else 0
  {
    if ports > 0 {
      LossBelowSnoc(ms, m, cid, ports - 1);
      assert (ms + [m])[..|ms|] == ms;
    }
  }

  /** A sender's loss is the sum over its ports of the loss on each of its streams. */
  lemma {:induction false} LossIsSumOverPorts(ms: seq<Msg>, cid: byte)
    ensures Loss(ms, cid) == LossBelow(ms, cid, PORTS)
  {
    if |ms| == 0 {
      LossBelowEmpty(cid, PORTS);
      assert ms == [];
    } else {
      var n := |ms| - 1;
      LossIsSumOverPorts(ms[..n], cid);
      assert ms == ms[..n] + [ms[n]];
      SnocCounts(ms[..n], ms[n], cid);
      LossBelowSnoc(ms[..n], ms[n], cid, PORTS);
    }
  }

  lemma {:induction false} LossBelowEmpty(cid: byte, ports: nat)
    requires ports <= PORTS
    ensures LossBelow([], cid, ports) == 0
  {
    if ports > 0 {
      LossBelowEmpty(cid, ports - 1);
    }
  }

  // ---------- Telescoping ----------

  /** The sender's unbounded numbers of the arrivals on one stream, in order of arrival. */
  function Track(ms: seq<Msg>, index: seq<int>, st: Stream): seq<int>
    requires |index| == |ms|
  {
    if |ms| == 0 then []
    else
      var n := |ms| - 1;
      Track(ms[..n], index[..n], st) + if On(ms[n], st) then [index[n]] else []
  }

  /** Every message carries its unbounded number, cut to 16 bits. */
  ghost predicate Genuine(ms: seq<Msg>, index: seq<int>) {
    |index| == |ms| && forall k :: 0 <= k < |ms| ==> ms[k].num == Wrap16(index[k])
  }

  /** How often consecutive entries differ. */
  function Moves(track: seq<int>): nat {
    if |track| <= 1 then 0
    else
      var n := |track| - 1;
      Moves(track[..n]) + if track[n] != track[n - 1] then 1 else 0
  }

  /** Consecutive entries are less than half the 16-bit range apart. */
  ghost predicate SmallSteps(track: seq<int>) {
    forall j :: 0 < j < |track| ==> -0x8000 < track[j] - track[j - 1] < 0x8000
  }

  /** Last minus first number, less the number of moves. */
  function Span(track: seq<int>): int {
    if |track| == 0 then 0 else track[|track| - 1] - track[0] - Moves(track)
  }

  lemma {:induction false} TrackEnd(ms: seq<Msg>, index: seq<int>, st: Stream)
    requires Genuine(ms, index)
    ensures var track := Track(ms, index, st);
            && (Seen(ms, st) <==> |track| > 0)
            && (|track| > 0 ==> LastNum(ms, st) == Wrap16(track[|track| - 1]))
  {
    if |ms| > 0 {
      var n := |ms| - 1;
      TrackEnd(ms[..n], index[..n], st);
      assert ms == ms[..n] + [ms[n]];
      Snoc(ms[..n], ms[n]);
    }
  }

  lemma SpanSnoc(track: seq<int>, i: int)
    requires |track| > 0
    ensures var d := i - track[|track| - 1];
            Span(track + [i]) == Span(track) + if d != 0 then d - 1 else 0
  {
    assert (track + [i])[..|track|] == track;
  }

  lemma SkippedIsDistance(ms: seq<Msg>, m: Msg, i: int, last: int, track: seq<int>)
    requires Seen(ms, m.Origin()) && LastNum(ms, m.Origin()) == Wrap16(last) && m.num == Wrap16(i)
    requires |track| > 1 && track[|track| - 1] == i && track[|track| - 2] == last && SmallSteps(track)
    ensures Skipped(ms, m) == if i != last then i - last - 1 else 0
  {
    WrapDifference(i, last);
  }

  /** The loss on one stream telescopes. */
  lemma {:induction false} StreamLossTelescopes(ms: seq<Msg>, index: seq<int>, st: Stream)
    requires Genuine(ms, index) && SmallSteps(Track(ms, index, st))
    ensures StreamLoss(ms, st) == Span(Track(ms, index, st))
  {
    hide Wrap16;
    if |ms| > 0 {
      var n := |ms| - 1;
      var before, track := Track(ms[..n], index[..n], st), Track(ms, index, st);
      assert before == track[..|before|];
      assert SmallSteps(before);
      StreamLossTelescopes(ms[..n], index[..n], st);
      TrackEnd(ms[..n], index[..n], st);
      if On(ms[n], st) && |before| > 0 {
        SkippedIsDistance(ms[..n], ms[n], index[n], before[|before| - 1], track);
        SpanSnoc(before, index[n]);
      } else {
        assert track == if On(ms[n], st) then [index[n]] else before;
      }
    }
  }

  function SpanBelow(ms: seq<Msg>, index: seq<int>, cid: byte, ports: nat): int
    requires ports <= PORTS && |index| == |ms|
  {
    if ports == 0 then 0
    else SpanBelow(ms, index, cid, ports - 1) + Span(Track(ms, index, Stream(cid, ports - 1)))
  }

  lemma {:induction false} LossBelowTelescopes(ms: seq<Msg>, index: seq<int>, cid: byte, ports: nat)
    requires Genuine(ms, index) && ports <= PORTS
    requires forall st: Stream :: st.cid == cid ==> SmallSteps(Track(ms, index, st))
    ensures LossBelow(ms, cid, ports) == SpanBelow(ms, index, cid, ports)
  {
    hide Track, StreamLoss, Span, SmallSteps;
    if ports > 0 {
      LossBelowTelescopes(ms, index, cid, ports - 1);
      StreamLossTelescopes(ms, index, Stream(cid, ports - 1));
    }
  }

  /**
    After any run, the `lost` counter of a sender is the sum over its ports of last minus first
    number, less the number of arrivals that moved, modulo 2^64.
   */
  lemma LostCounterTelescopes(ms: seq<Msg>, index: seq<int>, cid: byte)
    requires Genuine(ms, index)
    requires forall st: Stream :: st.cid == cid ==> SmallSteps(Track(ms, index, st))
    ensures StatOf(After(ms), cid).lost == Wrap64(SpanBelow(ms, index, cid, PORTS))
  {
    hide Run, Wrap64;
    CountersOverRuns(ms, cid);
    LossIsSumOverPorts(ms, cid);
    LossBelowTelescopes(ms, index, cid, PORTS);
  }

  // ---------- What the counter says about missing messages ----------

  /** No message arrives twice in a row. */
  ghost predicate NoRepeat(track: seq<int>) {
    forall j :: 0 < j < |track| ==> track[j] != track[j - 1]
  }

  lemma {:induction false} MovesWithoutRepeat(track: seq<int>)
    requires NoRepeat(track) && |track| > 0
    ensures Moves(track) == |track| - 1
  {
    if |track| > 1 {
      MovesWithoutRepeat(track[..|track| - 1]);
    }
  }

  /**
    Whatever the order of arrival, the loss on a stream is the number of messages between the
    first and the last arrival less the messages that arrived; it is 0 exactly when they agree.
   */
  lemma StreamLossCountsMissing(ms: seq<Msg>, index: seq<int>, st: Stream)
    requires Genuine(ms, index)
    requires var track := Track(ms, index, st); |track| > 0 && SmallSteps(track) && NoRepeat(track)
    ensures var track := Track(ms, index, st);
            StreamLoss(ms, st) == (track[|track| - 1] - track[0] + 1) - |track|
  {
    StreamLossTelescopes(ms, index, st);
    MovesWithoutRepeat(Track(ms, index, st));
  }

  /** The numbers from `lo` to `hi`, each once. */
  function Range(lo: int, hi: int): (r: seq<int>)
    requires lo <= hi + 1
    ensures |r| == hi + 1 - lo
    decreases hi + 1 - lo
  {
    if lo > hi then [] else Range(lo, hi - 1) + [hi]
  }

  /** The stream is silent, or every number from its first to its last arrival arrives exactly once. */
  ghost predicate Complete(track: seq<int>) {
    |track| > 0 ==>
      && track[0] <= track[|track| - 1]
      && multiset(track) == multiset(Range(track[0], track[|track| - 1]))
      && SmallSteps(track) && NoRepeat(track)
  }

  lemma CompleteSpan(track: seq<int>)
    requires Complete(track)
    ensures Span(track) == 0 && SmallSteps(track)
  {
    if |track| > 0 {
      MovesWithoutRepeat(track);
      assert |multiset(track)| == |track|;
      assert |multiset(Range(track[0], track[|track| - 1]))| == |Range(track[0], track[|track| - 1])|;
    }
  }

  lemma {:induction false} CompleteBelow(ms: seq<Msg>, index: seq<int>, cid: byte, ports: nat)
    requires ports <= PORTS && |index| == |ms|
    requires forall st: Stream :: st.cid == cid ==> Complete(Track(ms, index, st))
    ensures SpanBelow(ms, index, cid, ports) == 0
  {
    hide Track, Span, Complete;
    if ports > 0 {
      CompleteBelow(ms, index, cid, ports - 1);
      CompleteSpan(Track(ms, index, Stream(cid, ports - 1)));
    }
  }

  /**
    If all streams of a sender arrive completely, in any order that starts with the first and ends
    with the last number, the `lost` counter is 0.
   */
  lemma CompleteStreamsLoseNothing(ms: seq<Msg>, index: seq<int>, cid: byte)
    requires Genuine(ms, index)
    requires forall st: Stream :: st.cid == cid ==> Complete(Track(ms, index, st))
    ensures StatOf(After(ms), cid).lost == 0
  {
    hide Run, Track, SpanBelow, Complete;
    forall st: Stream | st.cid == cid ensures SmallSteps(Track(ms, index, st)) {
      CompleteSpan(Track(ms, index, st));
    }
    LostCounterTelescopes(ms, index, cid);
    CompleteBelow(ms, index, cid, PORTS);
  }
}
