/**
  Round-trip times in a ring buffer, their order statistics, and the reports made from counters.
  Times are real numbers; rounding of floating-point arithmetic is not modelled.
 */
module PingStat {
  import opened Numbers

  // ---------- Sums, windows, sorting ----------

  function Sum(s: seq<real>): real {
    if |s| == 0 then 0.0 else s[0] + Sum(s[1..])
  }

  lemma {:induction false} SumSnoc(s: seq<real>, x: real)
    ensures Sum(s + [x]) == Sum(s) + x
  {
    if |s| == 0 {
      assert (s + [x])[1..] == [];
    } else {
      SumSnoc(s[1..], x);
      assert (s + [x])[1..] == s[1..] + [x];
    }
  }

  /** The last `n` values, or all if there are fewer. */
  function Last(values: seq<real>, n: nat): seq<real> {
    if |values| <= n then values else values[|values| - n..]
  }

  ghost predicate Sorted(s: seq<real>) {
    forall i, j :: 0 <= i < j < |s| ==> s[i] <= s[j]
  }

  /** `std::sort` on a copy. */
  method Sort(v: seq<real>) returns (s: seq<real>)
    ensures Sorted(s) && multiset(s) == multiset(v)
  {
    s := [];
    for n := 0 to |v|
      invariant Sorted(s) && multiset(s) == multiset(v[..n])
    {
      var k := 0;
      while k < |s| && s[k] <= v[n]
        invariant k <= |s|
        invariant forall i :: 0 <= i < k ==> s[i] <= v[n]
      {
        k := k + 1;
      }
      assert v[..n + 1] == v[..n] + [v[n]];
      assert s == s[..k] + s[k..];
      s := s[..k] + [v[n]] + s[k..];
    }
    assert v[..|v|] == v;
  }

  lemma SortedEmpty(s: seq<real>)
    requires s == []
    ensures Sorted([]) && multiset(s) == multiset([])
  {
  }

  lemma SortedDropLast(s: seq<real>)
    requires Sorted(s) && |s| > 0
    ensures var n := |s| - 1;
            && Sorted(s[..n]) && multiset(s[..n]) == multiset(s) - multiset{s[n]}
            && s == s[..n] + [s[n]]
            && s[n] in multiset(s) && forall v :: v in multiset(s) ==> v <= s[n]
  {
    var n := |s| - 1;
    assert s == s[..n] + [s[n]];
    forall v | v in multiset(s) ensures v <= s[n] {
      assert v in s;
      var k :| 0 <= k < |s| && s[k] == v;
    }
  }

  /** A sorted sequence is determined by its elements. */
  lemma {:induction false} SortedUnique(a: seq<real>, b: seq<real>)
    requires Sorted(a) && Sorted(b) && multiset(a) == multiset(b)
    ensures a == b
  {
    hide Sorted;
    SameSize(a, b);
    if |a| > 0 {
      SortedDropLast(a);
      SortedDropLast(b);
      var x, y := a[|a| - 1], b[|b| - 1];
      assert x <= y && y <= x;
      SortedUnique(a[..|a| - 1], b[..|b| - 1]);
    }
  }

  lemma SameSize(a: seq<real>, b: seq<real>)
    requires multiset(a) == multiset(b)
    ensures |a| == |b|
  {
    assert |a| == |multiset(a)| == |multiset(b)| == |b|;
  }

  // ---------- Reports ----------

  /** `ping_stat_t` */
  datatype Report = Report(tMin: real, tMed: real, tP99: real, tMean: real,
                           received: u64, lost: u64, stateSent: u64, stateReceived: u64)

  /** `std::round` for a value that is not negative. */
  function Round(x: real): int {
    (x + 0.5).Floor
  }

  lemma MedianIndex(n: nat)
    requires n > 0
    ensures Round(0.5 * (n as real - 1.0)) == n / 2
  {
    var x := 0.5 * (n as real - 1.0) + 0.5;
    assert x == 0.5 * n as real;
    assert (n / 2) as real <= x < (n / 2) as real + 1.0;
  }

  /** The position of the 99th percentile among `n` sorted values, rounded to the nearest. */
  function Rank99(n: nat): (r: int)
    requires n > 0
    ensures 0 <= r < n && 99 * (n - 1) - 50 < 100 * r <= 99 * (n - 1) + 50
  {
    (99 * (n - 1) + 50) / 100
  }

  lemma Index99(n: nat)
    requires n > 0
    ensures Round(0.99 * (n as real - 1.0)) == Rank99(n)
    ensures n / 2 <= Rank99(n) < n
  {
    var x := 0.99 * (n as real - 1.0) + 0.5;
    var m: nat := 99 * (n - 1) + 50;
    assert x == m as real / 100.0;
    assert (m / 100) as real <= x < (m / 100) as real + 1.0;
  }

  /**
    A ring that is not full holds all values so far, then zeros; a full one, read from the oldest
    value on, is the window of the last values.
   */
  ghost predicate RingHolds(ring: seq<real>, idx: nat, filled: nat, history: seq<real>)
    requires idx < |ring|
  {
    && filled == (if |history| < |ring| then |history| else |ring|)
    && (filled < |ring| ==>
          && idx == filled && ring[..idx] == history
          && forall k :: idx <= k < |ring| ==> ring[k] == 0.0)
    && (filled == |ring| ==> ring[idx..] + ring[..idx] == Last(history, |ring|))
  }

  /** The report is about the values of a window; `sb` are these values, sorted. */
  ghost predicate Describes(r: Report, sb: seq<real>, window: seq<real>) {
    && Sorted(sb) && multiset(sb) == multiset(window)
    && (sb == [] ==> r.tMin == r.tMed == r.tP99 == r.tMean == -1.0)
    && (sb != [] ==>
          var n := |sb|;
          && r.tMin in sb && (forall v :: v in sb ==> r.tMin <= v)
          && r.tMed == (if n % 2 == 1 then sb[n / 2] else (sb[n / 2 - 1] + sb[n / 2]) / 2.0)
          && r.tMean == Sum(window) / n as real
          && r.tP99 == sb[Rank99(n)] && r.tMin <= r.tMed <= r.tP99)
  }

  /** `ping_stat_collector_t` */
  class Collector {
    var sent: nat
    var received: nat
    const data: array<real>
    var idx: nat
    var filled: nat
    var sum: real
    /// all values ever added
    ghost var history: seq<real>

    /** The ring holds the window of the last values, and `sum` is their sum. */
    ghost predicate Valid()
      reads this, data
    {
      && 0 < data.Length && idx < data.Length
      && received == |history|
      && RingHolds(data[..], idx, filled, history)
      && sum == Sum(Last(history, data.Length))
    }

    constructor (n: nat)
      requires n > 0
      ensures Valid() && history == [] && sent == 0 && data.Length == n && fresh(data)
    {
      sent, received, idx, filled, sum := 0, 0, 0, 0, 0.0;
      data := new real[n](_ => 0.0);
      history := [];
    }

    /** Whatever has been added, the filled part of the ring holds exactly the last values. */
    lemma FilledIsWindow()
      requires Valid()
      ensures multiset(data[..filled]) == multiset(Last(history, data.Length))
      ensures filled == |Last(history, data.Length)|
      ensures var from := if |history| > data.Length then |history| - data.Length else 0;
              multiset(data[..filled]) == multiset(history[from..]) && sum == Sum(history[from..])
    {
      if filled == data.Length {
        assert data[..filled] == data[..idx] + data[idx..];
      }
    }

    method AddValue(pt: real)
      requires Valid()
      modifies this, data
      ensures Valid() && history == old(history) + [pt] && sent == old(sent)
    {
      hide Sum, Last, RingHolds;
      ghost var ring, was := data[..], idx;
      WindowStep(history, data.Length, pt);
      RingAdd(ring, idx, filled, history, pt);
      received := received + 1;
      sum := sum - data[idx];
      data[idx] := pt;
      sum := sum + pt;
      idx := idx + 1;
      if idx >= data.Length {
        idx := 0;
      }
      assert data[..] == ring[was := pt];
      if filled < data.Length {
        filled := filled + 1;
      }
      history := history + [pt];
    }

    method UpdatePingStat(ps: Report) returns (r: Report, ghost sb: seq<real>)
      requires Valid()
      ensures Describes(r, sb, Last(history, data.Length))
      ensures r.received == Wrap64(received - ps.stateReceived)
      ensures var s := Wrap64(sent - ps.stateSent); r.lost == if s > r.received then s - r.received else 0
      ensures r.stateSent == Wrap64(sent) && r.stateReceived == Wrap64(received)
    {
      hide Sum, Last, Round, Sorted, Wrap64;
      var rec := Wrap64(received - ps.stateReceived);
      var lost := Wrap64(sent - ps.stateSent);
      lost := lost - if rec < lost then rec else lost;
      r := Report(-1.0, -1.0, -1.0, -1.0, rec, lost, Wrap64(sent), Wrap64(received));
      FilledIsWindow();
      sb := [];
      if filled == 0 {
        SortedEmpty(data[..filled]);
        return;
      }
      var sorted := Sort(data[..filled]);
      sb := sorted;
      assert |sb| == |multiset(sb)| == filled;
      var tMed, tP99 := OrderStatistics(sorted);
      r := r.(tMed := tMed, tMin := sorted[0], tP99 := tP99, tMean := sum / filled as real);
    }
  }

  /** Median and 99th percentile by their positions in the sorted values. */
  method OrderStatistics(sb: seq<real>) returns (tMed: real, tP99: real)
    requires |sb| > 0 && Sorted(sb)
    ensures var n := |sb|;
            && 0 <= Rank99(n) < n
            && tMed == (if n % 2 == 1 then sb[n / 2] else (sb[n / 2 - 1] + sb[n / 2]) / 2.0)
            && tP99 == sb[Rank99(n)] && sb[0] <= tMed <= tP99 && forall v :: v in sb ==> sb[0] <= v
  {
    hide Round;
    var filled := |sb|;
    MedianIndex(filled);
    Index99(filled);
    var idxMed := Round(0.5 * (filled as real - 1.0));
    var idx99 := Round(0.99 * (filled as real - 1.0));
    tMed := sb[idxMed];
    assert sb[0] <= sb[idxMed] <= sb[idx99];
    if filled % 2 == 0 {
      if idxMed > 0 {
        tMed := tMed + sb[idxMed - 1];
        assert sb[0] <= sb[idxMed - 1] <= sb[idxMed];
      } else {
        assert false;
      }
      tMed := tMed * 0.5;
    }
    tP99 := sb[idx99];
  }

  /** Overwriting the oldest entry of a full ring drops the first value of the window. */
  lemma RingStep(ring: seq<real>, idx: nat, window: seq<real>, pt: real)
    requires idx < |ring| && ring[idx..] + ring[..idx] == window
    ensures window[0] == ring[idx]
    ensures var next := if idx + 1 >= |ring| then 0 else idx + 1;
            ring[idx := pt][next..] + ring[idx := pt][..next] == window[1..] + [pt]
  {
    var updated := ring[idx := pt];
    if idx + 1 >= |ring| {
      assert updated[0..] + updated[..0] == ring[..idx] + [pt];
      assert window[1..] == ring[..idx];
    } else {
      assert updated[idx + 1..] == ring[idx + 1..] && updated[..idx + 1] == ring[..idx] + [pt];
      assert window[1..] == ring[idx + 1..] + ring[..idx];
    }
  }

  /** Overwriting the slot at the index keeps the ring in step with the history. */
  lemma RingAdd(ring: seq<real>, idx: nat, filled: nat, history: seq<real>, pt: real)
    requires idx < |ring| && RingHolds(ring, idx, filled, history)
    ensures ring[idx] == if |history| < |ring| then 0.0 else Last(history, |ring|)[0]
    ensures RingHolds(ring[idx := pt], if idx + 1 >= |ring| then 0 else idx + 1,
                      if filled < |ring| then filled + 1 else filled, history + [pt])
  {
    var n, updated := |ring|, ring[idx := pt];
    if filled < n {
      assert updated[..idx + 1] == history + [pt];
      if idx + 1 == n {
        assert updated[0..] + updated[..0] == updated == history + [pt];
      }
    } else {
      RingStep(ring, idx, Last(history, n), pt);
      assert Last(history + [pt], n) == Last(history, n)[1..] + [pt];
    }
  }

  lemma WindowStep(history: seq<real>, n: nat, pt: real)
    requires n > 0
    ensures var window := Last(history, n);
            && (|history| < n ==> Last(history + [pt], n) == window + [pt]
                                  && Sum(Last(history + [pt], n)) == Sum(window) + pt)
            && (|history| >= n ==> Last(history + [pt], n) == window[1..] + [pt]
                                   && Sum(Last(history + [pt], n)) == Sum(window) - window[0] + pt)
  {
    var window := Last(history, n);
    if |history| < n {
      SumSnoc(window, pt);
    } else {
      assert Last(history + [pt], n) == window[1..] + [pt];
      SumSnoc(window[1..], pt);
    }
  }
}
