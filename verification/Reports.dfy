/** Package statistics as differences to the previous report of the same reporter. */
module Reports {
  import opened Numbers
  import opened Sorter
  import opened PingStat

  const MAXREPORTEDLOSS: nat := 0x4000_0000

  /** The counters that are reported as plain differences. */
  datatype Field = Received | SeqerrIn | SeqerrOut

  function Get(s: Stat, field: Field): u64 {
    match field
    case Received => s.received
    case SeqerrIn => s.seqerrIn
    case SeqerrOut => s.seqerrOut
  }

  function Total(reports: seq<Stat>, field: Field): int {
    if |reports| == 0 then 0 else Total(reports[..|reports| - 1], field) + Get(reports[|reports| - 1], field)
  }

  lemma TotalSnoc(reports: seq<Stat>, r: Stat, field: Field)
    ensures Total(reports + [r], field) == Total(reports, field) + Get(r, field)
  {
    assert (reports + [r])[..|reports|] == reports;
  }

  /** Adding a wrapped difference leads to the minuend. */
  lemma WrappedDifference(sum: int, new_: u64, old_: u64)
    requires Wrap64(sum) == old_
    ensures Wrap64(sum + Wrap64(new_ - old_)) == new_
  {
  }

  function ReceivedTotal(reports: seq<Report>): int {
    if |reports| == 0 then 0 else ReceivedTotal(reports[..|reports| - 1]) + reports[|reports| - 1].received
  }

  function LostTotal(reports: seq<Report>): int {
    if |reports| == 0 then 0 else LostTotal(reports[..|reports| - 1]) + reports[|reports| - 1].lost
  }

  /** The count of pings sent when the last report was made. */
  function SentBefore(reports: seq<Report>): u64 {
    if |reports| == 0 then 0 else reports[|reports| - 1].stateSent
  }

  /** All pings that were new to some report. */
  function SentTotal(reports: seq<Report>): nat {
    if |reports| == 0 then 0
    else
      var before, r := reports[..|reports| - 1], reports[|reports| - 1];
      SentTotal(before) + Wrap64(r.stateSent - SentBefore(before))
  }

  /** The surplus of answers over new pings in each report; these must answer earlier pings. */
  function LateTotal(reports: seq<Report>): nat {
    if |reports| == 0 then 0
    else
      var before, r := reports[..|reports| - 1], reports[|reports| - 1];
      var sent := Wrap64(r.stateSent - SentBefore(before));
      LateTotal(before) + if r.received > sent then r.received - sent else 0
  }

  lemma PingTotalsSnoc(reports: seq<Report>, r: Report)
    ensures ReceivedTotal(reports + [r]) == ReceivedTotal(reports) + r.received
    ensures LostTotal(reports + [r]) == LostTotal(reports) + r.lost
    ensures var sent := Wrap64(r.stateSent - SentBefore(reports));
            && SentTotal(reports + [r]) == SentTotal(reports) + sent
            && LateTotal(reports + [r]) == LateTotal(reports) + if r.received > sent then r.received - sent else 0
    ensures SentBefore(reports + [r]) == r.stateSent
  {
    assert (reports + [r])[..|reports|] == reports;
  }

  /**
    The account of all reports. Answers are those collected and pings those sent, modulo 2^64; every
    ping is reported as answered or as lost, and as many as there are surplus answers as both.
   */
  ghost predicate Accounts(reports: seq<Report>, received: u64, sent: u64) {
    && Wrap64(ReceivedTotal(reports)) == received && Wrap64(SentTotal(reports)) == sent
    && SentBefore(reports) == sent
    && ReceivedTotal(reports) + LostTotal(reports) == SentTotal(reports) + LateTotal(reports)
  }

  /** One more report, whose loss is what is left of the new pings after the new answers. */
  lemma ReportAccounts(reports: seq<Report>, before: Report, r: Report, received: nat, sent: nat)
    requires Accounts(reports, before.stateReceived, before.stateSent)
    requires r.stateReceived == Wrap64(received) && r.stateSent == Wrap64(sent)
    requires r.received == Wrap64(received - before.stateReceived)
    requires var s := Wrap64(sent - before.stateSent); r.lost == if s > r.received then s - r.received else 0
    ensures Accounts(reports + [r], Wrap64(received), Wrap64(sent))
  {
    hide Wrap64;
    PingTotalsSnoc(reports, r);
    Wrap64Difference(received, before.stateReceived);
    Wrap64Difference(sent, before.stateSent);
    WrappedDifference(ReceivedTotal(reports), Wrap64(received), before.stateReceived);
    WrappedDifference(SentTotal(reports), Wrap64(sent), before.stateSent);
  }

  /** Differences may be taken before or after cutting to 64 bits. */
  lemma Wrap64Difference(total: nat, state: u64)
    ensures Wrap64(total - state) == Wrap64(Wrap64(total) as int - state)
  {
  }

  /** No ping that is unanswered is missing from the losses, and no other is in them without a surplus. */
  lemma LossesCover(reports: seq<Report>, received: u64, sent: u64)
    requires Accounts(reports, received, sent)
    ensures ReceivedTotal(reports) + LostTotal(reports) >= sent
    ensures LostTotal(reports) == SentTotal(reports) - ReceivedTotal(reports) <==> LateTotal(reports) == 0
  {
  }

  /** A ping is still unanswered in the first report; a second one is sent and both answers come before the next. */
  lemma LateAnswerReportedTwice()
    ensures var first, second := Report(-1.0, -1.0, -1.0, -1.0, 0, 1, 1, 0), Report(9.0, 9.0, 9.0, 9.0, 2, 0, 2, 2);
            && Accounts([first, second], 2, 2) && LostTotal([first, second]) == LateTotal([first, second]) == 1
            && SentTotal([first, second]) == ReceivedTotal([first, second]) == 2
  {
    var none := Report(0.0, 0.0, 0.0, 0.0, 0, 0, 0, 0);
    var first, second := Report(-1.0, -1.0, -1.0, -1.0, 0, 1, 1, 0), Report(9.0, 9.0, 9.0, 9.0, 2, 0, 2, 2);
    ReportAccounts([], none, first, 0, 1);
    assert [] + [first] == [first] && [first] + [second] == [first, second];
    ReportAccounts([first], first, second, 2, 2);
    PingTotalsSnoc([], first);
    PingTotalsSnoc([first], second);
  }

  /** `ping_stat_t` with the history of its updates from one collector, whose counters only grow. */
  class PingReporter {
    const collector: Collector
    var report: Report
    /// all reports made from this object
    ghost var reports: seq<Report>

    ghost predicate Valid()
      reads this
    {
      Accounts(reports, report.stateReceived, report.stateSent)
    }

    constructor (collector: Collector)
      ensures Valid() && reports == [] && this.collector == collector
    {
      this.collector := collector;
      report := Report(0.0, 0.0, 0.0, 0.0, 0, 0, 0, 0);
      reports := [];
    }

    /** `update_ping_stat` */
    method Update()
      requires Valid() && collector.Valid()
      modifies this
      ensures Valid() && collector.Valid() && reports == old(reports) + [report]
      ensures exists sb :: Describes(report, sb, Last(collector.history, collector.data.Length))
      ensures Accounts(reports, Wrap64(collector.received), Wrap64(collector.sent))
      ensures ReceivedTotal(reports) + LostTotal(reports) >= Wrap64(collector.sent)
      ensures report.stateReceived == Wrap64(collector.received) && report.stateSent == Wrap64(collector.sent)
    {
      hide Wrap64, Accounts, Describes, Last;
      ghost var before := report;
      ghost var sb;
      report, sb := collector.UpdatePingStat(report);
      ReportAccounts(reports, before, report, collector.received, collector.sent);
      reports := reports + [report];
      LossesCover(reports, report.stateReceived, report.stateSent);
    }
  }

  /** `client_stats_t` */
  class ClientStats {
    const pingP2p: PingReporter
    const pingSrv: PingReporter
    const pingLoc: PingReporter
    var packages: Stat
    var statePackages: Stat
    /// all reports on packages made from this object
    ghost var reports: seq<Stat>

    /** All package counters but the loss add up to the totals seen last, modulo 2^64. */
    ghost predicate PackagesValid()
      reads this
    {
      forall f: Field :: Wrap64(Total(reports, f)) == Get(statePackages, f)
    }

    ghost predicate Valid()
      reads this, pingP2p, pingSrv, pingLoc
    {
      && PackagesValid() && pingP2p.Valid() && pingSrv.Valid() && pingLoc.Valid()
      && pingP2p != pingSrv && pingSrv != pingLoc && pingLoc != pingP2p
    }

    ghost predicate CollectorsValid()
      reads set p: PingReporter | p in {pingP2p, pingSrv, pingLoc} :: p.collector
      reads set p: PingReporter | p in {pingP2p, pingSrv, pingLoc} :: p.collector.data
    {
      forall p: PingReporter | p in {pingP2p, pingSrv, pingLoc} :: p.collector.Valid()
    }

    constructor (p2p: Collector, srv: Collector, loc: Collector)
      ensures Valid() && statePackages == NO_STAT && reports == []
      ensures pingP2p.collector == p2p && pingSrv.collector == srv && pingLoc.collector == loc
      ensures pingP2p.reports == pingSrv.reports == pingLoc.reports == []
    {
      pingP2p := new PingReporter(p2p);
      pingSrv := new PingReporter(srv);
      pingLoc := new PingReporter(loc);
      packages, statePackages, reports := NO_STAT, NO_STAT, [];
    }

    /** The report on packages; `total` are the sorter's counters. */
    method UpdatePackages(total: Stat)
      requires PackagesValid()
      modifies this
      ensures PackagesValid() && statePackages == total && reports == old(reports) + [packages]
      ensures packages.lost <= MAXREPORTEDLOSS
      ensures var d := Wrap64(total.lost - old(statePackages.lost));
              packages.lost == if d <= MAXREPORTEDLOSS then d else 0
      ensures packages.received == Wrap64(total.received - old(statePackages.received))
      ensures packages.seqerrIn == Wrap64(total.seqerrIn - old(statePackages.seqerrIn))
      ensures packages.seqerrOut == Wrap64(total.seqerrOut - old(statePackages.seqerrOut))
    {
      hide Wrap64;
      packages := total;
      var ostat := statePackages;
      statePackages := packages;
      packages := Stat(Wrap64(packages.received - ostat.received), Wrap64(packages.lost - ostat.lost),
                       Wrap64(packages.seqerrIn - ostat.seqerrIn), Wrap64(packages.seqerrOut - ostat.seqerrOut));
      if packages.lost > MAXREPORTEDLOSS {
        packages := packages.(lost := 0);
      }
      forall f: Field ensures Wrap64(Total(reports + [packages], f)) == Get(total, f) {
        TotalSnoc(reports, packages, f);
        WrappedDifference(Total(reports, f), Get(total, f), Get(ostat, f));
      }
      reports := reports + [packages];
    }

    /**
      `update_client_stats`: the reported loss of packages is the increase since the last report if
      that is at most 2^30, and 0 otherwise; every other counter adds up to its total.
     */
    method Update(total: Stat)
      requires Valid() && CollectorsValid()
      modifies this, pingP2p, pingSrv, pingLoc
      ensures Valid() && statePackages == total && reports == old(reports) + [packages]
      ensures var d := Wrap64(total.lost - old(statePackages.lost));
              packages.lost == if d <= MAXREPORTEDLOSS then d else 0
      ensures pingP2p.reports == old(pingP2p.reports) + [pingP2p.report]
      ensures pingSrv.reports == old(pingSrv.reports) + [pingSrv.report]
      ensures pingLoc.reports == old(pingLoc.reports) + [pingLoc.report]
      ensures forall p: PingReporter | p in {pingP2p, pingSrv, pingLoc} ::
                && Accounts(p.reports, Wrap64(p.collector.received), Wrap64(p.collector.sent))
                && exists sb :: Describes(p.report, sb, Last(p.collector.history, p.collector.data.Length))
      ensures packages.received == Wrap64(total.received - old(statePackages.received))
      ensures packages.seqerrIn == Wrap64(total.seqerrIn - old(statePackages.seqerrIn))
      ensures packages.seqerrOut == Wrap64(total.seqerrOut - old(statePackages.seqerrOut))
    {
      hide Wrap64, Accounts, Total, Describes, Last;
      UpdatePackages(total);
      pingP2p.Update();
      pingSrv.Update();
      pingLoc.Update();
    }
  }
}
