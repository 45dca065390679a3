/**
  The list of peers: registrations, pings and the periodic status check, and the announcements of
  new and lost connections they lead to.
 */
module Endpoints {
  import opened Numbers

  const MAX_STAGE_ID: nat := 32
  const STAGE_ID_SERVER: byte := 0xff
  const CALLERLIST_TIMEOUT: nat := 120
  const PUBLICKEYBYTES: nat := 32
  const B_PEER2PEER: bv8 := 0x01

  datatype Addr = Addr(ip: u32, port: u16)

  /** `ep_desc_t` */
  datatype Peer = Peer(
    ep: Addr, localep: Addr, timeout: nat, announced: bool, mode: bv8, version: string,
    pingMin: real, pingMax: real, pingSum: real, pingN: u32, hasPubkey: bool, pubkey: seq<byte>)

  const NO_PEER := Peer(Addr(0, 0), Addr(0, 0), 0, false, B_PEER2PEER, "", 10000.0, 0.0, 0.0, 0, false, [])

  /** What can happen to the list; `locked` tells whether `try_lock` succeeded. */
  datatype Op =
    | Register(cid: byte, ep: Addr, mode: bv8, version: string, locked: bool)
    | SetLocalIp(cid: byte, localep: Addr)
    | SetPingTime(cid: byte, pingtime: real, locked: bool)
    | SetPubkey(cid: byte, key: seq<byte>)
    | Tick
    | LogPings

  datatype Note = New(cid: byte) | Lost(cid: byte)

  // ---------- One peer ----------

  function Pinged(p: Peer, t: real): Peer {
    p.(pingN := (p.pingN as int + 1) % 0x1_0000_0000, pingSum := p.pingSum + t,
       pingMax := if t > p.pingMax then t else p.pingMax,
       pingMin := if t < p.pingMin then t else p.pingMin)
  }

  /** The statistics of an active peer start again once they have been logged. */
  function Restarted(p: Peer): Peer {
    p.(pingN := 0, pingSum := 0.0, pingMax := 0.0, pingMin := 1000.0)
  }

  function Ticked(p: Peer): Peer {
    if p.timeout > 0 then p.(timeout := p.timeout - 1, announced := true)
    else if p.announced then NO_PEER
    else p
  }

  function Announced(p: Peer, cid: byte): seq<Note> {
    if p.timeout > 0 then (if p.announced then [] else [New(cid)])
    else if p.announced then [Lost(cid)]
    else []
  }

  function Step(p: Peer, cid: byte, op: Op): Peer {
    match op
    case Register(c, ep, mode, version, locked) =>
      if c != cid || !locked then p
      else p.(ep := ep, announced := p.announced && mode == p.mode, mode := mode,
              timeout := CALLERLIST_TIMEOUT, version := version)
    case SetLocalIp(c, localep) => if c != cid then p else p.(localep := localep)
    case SetPingTime(c, t, locked) =>
      if c != cid then p else
        var q := p.(timeout := CALLERLIST_TIMEOUT);
        if t > 0.0 && locked then Pinged(q, t) else q
    case SetPubkey(c, key) =>
      if c != cid || |key| != PUBLICKEYBYTES then p else p.(hasPubkey := true, pubkey := key)
    case Tick => Ticked(p)
    case LogPings => if p.timeout > 0 then Restarted(p) else p
  }

  /** The peer after a history of operations. */
  function After(cid: byte, ops: seq<Op>): Peer {
    if |ops| == 0 then NO_PEER else Step(After(cid, ops[..|ops| - 1]), cid, ops[|ops| - 1])
  }

  /** What operation `k` of a history announces about the peer. */
  function NoteAt(cid: byte, ops: seq<Op>, k: nat): seq<Note>
    requires k < |ops|
  {
    if ops[k].Tick? then Announced(After(cid, ops[..k]), cid) else []
  }

  /** All announcements about the peer. */
  function Notes(cid: byte, ops: seq<Op>): seq<Note> {
    if |ops| == 0 then []
    else
      var n := |ops| - 1;
      Notes(cid, ops[..n]) + NoteAt(cid, ops, n)
  }

  /** A successful registration or a ping: the peer is alive. */
  predicate Refresh(op: Op, cid: byte) {
    (op.Register? && op.cid == cid && op.locked) || (op.SetPingTime? && op.cid == cid)
  }

  /** A successful registration with another mode than the peer has. */
  predicate ModeChange(p: Peer, op: Op, cid: byte) {
    op.Register? && op.cid == cid && op.locked && op.mode != p.mode
  }

  function Ticks(ops: seq<Op>): nat {
    if |ops| == 0 then 0 else Ticks(ops[..|ops| - 1]) + if ops[|ops| - 1].Tick? then 1 else 0
  }

  // ---------- Announcements over every history ----------

  lemma AfterSnoc(cid: byte, ops: seq<Op>, op: Op)
    ensures After(cid, ops + [op]) == Step(After(cid, ops), cid, op)
  {
    assert (ops + [op])[..|ops|] == ops;
  }

  /** The announcements are about this peer, and each "lost" directly follows a "new". */
  ghost predicate Alternating(notes: seq<Note>, cid: byte) {
    forall k {:trigger notes[k]} :: 0 <= k < |notes| ==>
                  && notes[k].cid == cid
                  && (notes[k].Lost? ==> k > 0 && notes[k - 1].New?)
  }

  lemma {:induction false} LostFollowsNew(cid: byte, ops: seq<Op>)
    ensures Alternating(Notes(cid, ops), cid)
    ensures After(cid, ops).announced ==> |Notes(cid, ops)| > 0 && Notes(cid, ops)[|Notes(cid, ops)| - 1].New?
  {
    if |ops| > 0 {
      var n := |ops| - 1;
      LostFollowsNew(cid, ops[..n]);
      AlternatingSnoc(Notes(cid, ops[..n]), NoteAt(cid, ops, n), cid);
    }
  }

  lemma AlternatingSnoc(before: seq<Note>, last: seq<Note>, cid: byte)
    requires Alternating(before, cid)
    requires last == [] || last == [New(cid)] || (last == [Lost(cid)] && |before| > 0 && before[|before| - 1].New?)
    ensures Alternating(before + last, cid)
  {
    var all := before + last;
    forall k | 0 <= k < |all|
      ensures all[k].cid == cid && (all[k].Lost? ==> k > 0 && all[k - 1].New?)
    {
      if k < |before| {
        assert all[k] == before[k] && (k > 0 ==> all[k - 1] == before[k - 1]);
      }
    }
  }

  /** From a "new" on, the peer stays announced until it is lost or registers with another mode. */
  lemma {:induction false} StaysAnnounced(cid: byte, ops: seq<Op>, a: nat, b: nat)
    requires a < b <= |ops| && NoteAt(cid, ops, a) == [New(cid)]
    requires forall k :: a < k < b ==> NoteAt(cid, ops, k) != [Lost(cid)]
    requires forall k :: a < k < b ==> !ModeChange(After(cid, ops[..k]), ops[k], cid)
    ensures After(cid, ops[..b]).announced
    decreases b
  {
    var p := After(cid, ops[..b - 1]);
    assert ops[..b][..b - 1] == ops[..b - 1] && ops[..b][b - 1] == ops[b - 1];
    if b > a + 1 {
      StaysAnnounced(cid, ops, a, b - 1);
      assert NoteAt(cid, ops, b - 1) != [Lost(cid)] && !ModeChange(p, ops[b - 1], cid);
    }
  }

  /**
    Between two announcements of the same peer as new, without a loss in between, it has registered
    with a changed mode.
   */
  lemma NewTwiceNeedsModeChange(cid: byte, ops: seq<Op>, a: nat, b: nat)
    requires a < b < |ops|
    requires NoteAt(cid, ops, a) == [New(cid)] && NoteAt(cid, ops, b) == [New(cid)]
    requires forall k :: a < k < b ==> NoteAt(cid, ops, k) != [Lost(cid)]
    ensures exists k :: a < k < b && ModeChange(After(cid, ops[..k]), ops[k], cid)
  {
    if forall k :: a < k < b ==> !ModeChange(After(cid, ops[..k]), ops[k], cid) {
      StaysAnnounced(cid, ops, a, b);
    }
  }

  /** The countdown since the last sign of life. */
  lemma {:induction false} Countdown(cid: byte, before: seq<Op>, refresh: Op, rest: seq<Op>)
    requires Refresh(refresh, cid)
    requires forall k :: 0 <= k < |rest| ==> !Refresh(rest[k], cid)
    ensures var p := After(cid, before + [refresh] + rest);
            var n := Ticks(rest);
            && p.timeout == (if n <= CALLERLIST_TIMEOUT then CALLERLIST_TIMEOUT - n else 0)
            && (0 < n <= CALLERLIST_TIMEOUT ==> p.announced)
            && (n > CALLERLIST_TIMEOUT ==> !p.announced)
  {
    var all := before + [refresh] + rest;
    if |rest| == 0 {
      assert all[..|all| - 1] == before && all[|all| - 1] == refresh;
    } else {
      var n := |rest| - 1;
      Countdown(cid, before, refresh, rest[..n]);
      assert all[..|all| - 1] == before + [refresh] + rest[..n];
    }
  }

  /** A status check announces the loss exactly if it is the 121st since the last sign of life. */
  lemma LostAtTick121(cid: byte, before: seq<Op>, refresh: Op, rest: seq<Op>)
    requires Refresh(refresh, cid)
    requires forall k :: 0 <= k < |rest| ==> !Refresh(rest[k], cid)
    ensures NoteAt(cid, before + [refresh] + rest + [Tick], |before| + 1 + |rest|) == [Lost(cid)] <==> Ticks(rest) == 120
    ensures NoteAt(cid, before + [refresh] + rest + [Tick], |before| + 1 + |rest|) == [New(cid)] ==> Ticks(rest) == 0
  {
    var all := before + [refresh] + rest;
    Countdown(cid, before, refresh, rest);
    assert (all + [Tick])[..|all|] == all;
  }

  /** The peer does not register with another mode from operation `from` on. */
  predicate SameModeFrom(cid: byte, ops: seq<Op>, from: nat) {
    forall k :: from <= k < |ops| ==> !ModeChange(After(cid, ops[..k]), ops[k], cid)
  }

  lemma SameModeBefore(cid: byte, ops: seq<Op>, from: nat, n: nat)
    requires SameModeFrom(cid, ops, from) && n <= |ops|
    ensures SameModeFrom(cid, ops[..n], from)
  {
    forall k | from <= k < n ensures !ModeChange(After(cid, ops[..n][..k]), ops[..n][k], cid) {
      assert ops[..n][..k] == ops[..k];
    }
  }

  /** Without status checks and mode changes nothing about an announcement changes. */
  lemma {:induction false} NoTickNoNews(cid: byte, before: seq<Op>, rest: seq<Op>)
    requires Ticks(rest) == 0 && SameModeFrom(cid, before + rest, |before|)
    ensures After(cid, before + rest).announced == After(cid, before).announced
    ensures After(cid, before).timeout > 0 ==> After(cid, before + rest).timeout > 0
  {
    hide Step, ModeChange;
    var all := before + rest;
    if |rest| == 0 {
      assert all == before;
    } else {
      var n := |all| - 1;
      assert all[..n] == before + rest[..|rest| - 1] && all[n] == rest[|rest| - 1];
      SameModeBefore(cid, all, |before|, n);
      NoTickNoNews(cid, before, rest[..|rest| - 1]);
      StepWithoutNews(After(cid, all[..n]), cid, all[n]);
    }
  }

  lemma StepWithoutNews(p: Peer, cid: byte, op: Op)
    requires !op.Tick? && !ModeChange(p, op, cid)
    ensures Step(p, cid, op).announced == p.announced && (p.timeout > 0 ==> Step(p, cid, op).timeout > 0)
  {
  }

  /**
    The first status check after a sign of life announces the peer as new exactly if it was not
    announced before, or that sign was a registration with another mode.
   */
  lemma NewAfterRefreshIff(cid: byte, before: seq<Op>, refresh: Op, rest: seq<Op>)
    requires Refresh(refresh, cid) && Ticks(rest) == 0
    requires SameModeFrom(cid, before + [refresh] + rest, |before| + 1)
    ensures var all := before + [refresh] + rest;
            NoteAt(cid, all + [Tick], |all|) ==
            if !After(cid, before).announced || ModeChange(After(cid, before), refresh, cid) then [New(cid)] else []
  {
    var all := before + [refresh] + rest;
    AfterSnoc(cid, before, refresh);
    NoTickNoNews(cid, before + [refresh], rest);
    assert (all + [Tick])[..|all|] == all;
  }

  /** A peer that never gave a sign of life is never announced. */
  lemma {:induction false} SilentWithoutRefresh(cid: byte, ops: seq<Op>)
    requires forall k :: 0 <= k < |ops| ==> !Refresh(ops[k], cid)
    ensures Notes(cid, ops) == [] && After(cid, ops).timeout == 0 && !After(cid, ops).announced
  {
    if |ops| > 0 {
      SilentWithoutRefresh(cid, ops[..|ops| - 1]);
    }
  }

  // ---------- What is known about a peer ----------

  /** No loss of the peer is announced among the operations from `from` on. */
  predicate NotLostFrom(cid: byte, ops: seq<Op>, from: nat) {
    forall k :: from <= k < |ops| ==> NoteAt(cid, ops, k) != [Lost(cid)]
  }

  /** The announcements among the first operations do not depend on later ones. */
  lemma NotLostBefore(cid: byte, ops: seq<Op>, from: nat, n: nat)
    requires NotLostFrom(cid, ops, from) && n <= |ops|
    ensures NotLostFrom(cid, ops[..n], from)
  {
    forall k | from <= k < n ensures NoteAt(cid, ops[..n], k) != [Lost(cid)] {
      assert ops[..n][..k] == ops[..k] && NoteAt(cid, ops, k) != [Lost(cid)];
    }
  }

  predicate Registers(op: Op, cid: byte) {
    op.Register? && op.cid == cid && op.locked
  }

  predicate TellsLocalIp(op: Op, cid: byte) {
    op.SetLocalIp? && op.cid == cid
  }

  predicate TellsPubkey(op: Op, cid: byte) {
    op.SetPubkey? && op.cid == cid && |op.key| == PUBLICKEYBYTES
  }

  lemma StepKeeps(p: Peer, cid: byte, op: Op)
    requires op.Tick? ==> Announced(p, cid) != [Lost(cid)]
    ensures var now := Step(p, cid, op);
            && (!Registers(op, cid) ==> now.ep == p.ep && now.mode == p.mode && now.version == p.version)
            && (!TellsLocalIp(op, cid) ==> now.localep == p.localep)
            && (!TellsPubkey(op, cid) ==> now.hasPubkey == p.hasPubkey && now.pubkey == p.pubkey)
  {
  }

  /** Until a peer is lost, its data change only by what brings new data of the same kind. */
  lemma {:induction false} KeptUntilLost(cid: byte, before: seq<Op>, rest: seq<Op>)
    requires NotLostFrom(cid, before + rest, |before|)
    ensures var was, now := After(cid, before), After(cid, before + rest);
            && ((forall k :: 0 <= k < |rest| ==> !Registers(rest[k], cid)) ==>
                  now.ep == was.ep && now.mode == was.mode && now.version == was.version)
            && ((forall k :: 0 <= k < |rest| ==> !TellsLocalIp(rest[k], cid)) ==>
                  now.localep == was.localep)
            && ((forall k :: 0 <= k < |rest| ==> !TellsPubkey(rest[k], cid)) ==>
                  now.hasPubkey == was.hasPubkey && now.pubkey == was.pubkey)
  {
    hide Step, Announced, Registers, TellsLocalIp, TellsPubkey;
    var all := before + rest;
    if |rest| == 0 {
      assert all == before;
    } else {
      var n := |all| - 1;
      assert all[..n] == before + rest[..|rest| - 1] && all[n] == rest[|rest| - 1];
      NotLostBefore(cid, all, |before|, n);
      KeptUntilLost(cid, before, rest[..|rest| - 1]);
      assert NoteAt(cid, all, n) != [Lost(cid)];
      StepKeeps(After(cid, all[..n]), cid, all[n]);
    }
  }

  /** A registered peer has the end point, mode and version of its last registration, until it is lost. */
  lemma RegistrationKept(cid: byte, before: seq<Op>, ep: Addr, mode: bv8, version: string, rest: seq<Op>)
    requires var all := before + [Register(cid, ep, mode, version, true)] + rest; NotLostFrom(cid, all, |before| + 1)
    requires forall k :: 0 <= k < |rest| ==> !Registers(rest[k], cid)
    ensures var p := After(cid, before + [Register(cid, ep, mode, version, true)] + rest);
            p.ep == ep && p.mode == mode && p.version == version
  {
    hide After, NotLostFrom;
    AfterSnoc(cid, before, Register(cid, ep, mode, version, true));
    KeptUntilLost(cid, before + [Register(cid, ep, mode, version, true)], rest);
  }

  /** A peer has the local address it told last, until it is lost. */
  lemma LocalIpKept(cid: byte, before: seq<Op>, localep: Addr, rest: seq<Op>)
    requires NotLostFrom(cid, before + [SetLocalIp(cid, localep)] + rest, |before| + 1)
    requires forall k :: 0 <= k < |rest| ==> !TellsLocalIp(rest[k], cid)
    ensures After(cid, before + [SetLocalIp(cid, localep)] + rest).localep == localep
  {
    hide After, NotLostFrom;
    AfterSnoc(cid, before, SetLocalIp(cid, localep));
    KeptUntilLost(cid, before + [SetLocalIp(cid, localep)], rest);
  }

  /** A peer has the last public key of the right length it told, until it is lost. */
  lemma PubkeyKept(cid: byte, before: seq<Op>, key: seq<byte>, rest: seq<Op>)
    requires |key| == PUBLICKEYBYTES && NotLostFrom(cid, before + [SetPubkey(cid, key)] + rest, |before| + 1)
    requires forall k :: 0 <= k < |rest| ==> !TellsPubkey(rest[k], cid)
    ensures var p := After(cid, before + [SetPubkey(cid, key)] + rest); p.hasPubkey && p.pubkey == key
  {
    hide After, NotLostFrom;
    AfterSnoc(cid, before, SetPubkey(cid, key));
    KeptUntilLost(cid, before + [SetPubkey(cid, key)], rest);
  }

  /** Within 120 status checks of a sign of life a peer is not lost, and its time-out has not run down. */
  lemma {:induction false} NotLostSoon(cid: byte, before: seq<Op>, refresh: Op, rest: seq<Op>)
    requires Refresh(refresh, cid) && Ticks(rest) <= CALLERLIST_TIMEOUT
    ensures NotLostFrom(cid, before + [refresh] + rest, |before| + 1)
    ensures After(cid, before + [refresh] + rest).timeout >= CALLERLIST_TIMEOUT - Ticks(rest)
  {
    hide Step, Announced, Refresh;
    var all := before + [refresh] + rest;
    var n := |all| - 1;
    if |rest| == 0 {
      AfterSnoc(cid, before, refresh);
      RefreshStep(After(cid, before), cid, refresh);
      assert all == before + [refresh];
    } else {
      assert all[..n] == before + [refresh] + rest[..|rest| - 1] && all[n] == rest[|rest| - 1];
      NotLostSoon(cid, before, refresh, rest[..|rest| - 1]);
      TimeoutStep(After(cid, all[..n]), cid, all[n], CALLERLIST_TIMEOUT - Ticks(rest[..|rest| - 1]));
      forall k | |before| + 1 <= k < |all| ensures NoteAt(cid, all, k) != [Lost(cid)] {
        assert k < n ==> all[..n][..k] == all[..k] && NoteAt(cid, all[..n], k) != [Lost(cid)];
      }
    }
  }

  lemma RefreshStep(p: Peer, cid: byte, op: Op)
    requires Refresh(op, cid)
    ensures Step(p, cid, op).timeout == CALLERLIST_TIMEOUT
  {
  }

  /** Only a status check lowers a time-out, by one, and none is lost before it has run down. */
  lemma TimeoutStep(p: Peer, cid: byte, op: Op, atLeast: nat)
    requires atLeast <= CALLERLIST_TIMEOUT && p.timeout >= atLeast && (op.Tick? ==> atLeast > 0)
    ensures Step(p, cid, op).timeout >= if op.Tick? then atLeast - 1 else atLeast
    ensures op.Tick? ==> Announced(p, cid) != [Lost(cid)]
  {
  }

  /** For 120 status checks a registration is remembered whatever else happens, unless another one comes. */
  lemma RegistrationLasts(cid: byte, before: seq<Op>, ep: Addr, mode: bv8, version: string, rest: seq<Op>)
    requires forall k :: 0 <= k < |rest| ==> !Registers(rest[k], cid)
    requires Ticks(rest) <= CALLERLIST_TIMEOUT
    ensures var p := After(cid, before + [Register(cid, ep, mode, version, true)] + rest);
            p.ep == ep && p.mode == mode && p.version == version
  {
    NotLostSoon(cid, before, Register(cid, ep, mode, version, true), rest);
    RegistrationKept(cid, before, ep, mode, version, rest);
  }

  /** Of a peer that is announced as lost nothing is left. */
  lemma LostIsForgotten(cid: byte, ops: seq<Op>, k: nat)
    requires k < |ops| && NoteAt(cid, ops, k) == [Lost(cid)]
    ensures After(cid, ops[..k + 1]) == NO_PEER
  {
    assert ops[..k + 1][..k] == ops[..k];
  }

  /** A positive ping time that comes while the list can be locked is collected; logging or a loss forgets all. */
  function Collected(times: seq<real>, p: Peer, cid: byte, op: Op): seq<real> {
    if (op.Tick? && Announced(p, cid) == [Lost(cid)]) || (op.LogPings? && p.timeout > 0) then []
    else if op.SetPingTime? && op.cid == cid && op.locked && op.pingtime > 0.0 then times + [op.pingtime]
    else times
  }

  /** The ping times collected since the peer was lost, or logged, last. */
  function PingTimes(cid: byte, ops: seq<Op>): seq<real> {
    if |ops| == 0 then []
    else
      var n := |ops| - 1;
      Collected(PingTimes(cid, ops[..n]), After(cid, ops[..n]), cid, ops[n])
  }

  function SumOf(times: seq<real>): real {
    if |times| == 0 then 0.0 else SumOf(times[..|times| - 1]) + times[|times| - 1]
  }

  /** Number, sum, largest and smallest of the times, within the initial values. */
  ghost predicate Summarises(p: Peer, times: seq<real>) {
    && p.pingN == |times| % 0x1_0000_0000 && p.pingSum == SumOf(times)
    && (p.pingMax == 0.0 || p.pingMax in times) && (p.pingMin in {1000.0, 10000.0} || p.pingMin in times)
    && 0.0 <= p.pingMax && p.pingMin <= 10000.0
    && forall t :: t in times ==> p.pingMin <= t <= p.pingMax
  }

  lemma OneMorePing(p: Peer, times: seq<real>, t: real)
    requires Summarises(p, times)
    ensures Summarises(Pinged(p, t), times + [t])
  {
    assert (times + [t])[..|times|] == times;
    assert t in times + [t];
  }

  lemma StepSummarises(p: Peer, cid: byte, op: Op, times: seq<real>)
    requires Summarises(p, times)
    ensures Summarises(Step(p, cid, op), Collected(times, p, cid, op))
  {
    hide Pinged;
    if op.SetPingTime? && op.cid == cid {
      OneMorePing(p.(timeout := CALLERLIST_TIMEOUT), times, op.pingtime);
    }
  }

  /** A peer's ping statistics are those of the times collected since it was lost or logged last. */
  lemma {:induction false} PingStatistics(cid: byte, ops: seq<Op>)
    ensures Summarises(After(cid, ops), PingTimes(cid, ops))
  {
    if |ops| > 0 {
      hide Summarises, Step, Collected;
      var n := |ops| - 1;
      PingStatistics(cid, ops[..n]);
      StepSummarises(After(cid, ops[..n]), cid, ops[n], PingTimes(cid, ops[..n]));
    }
  }

  // ---------- The list of all peers ----------

  /** The announcements about one peer. */
  function About(cid: byte, notes: seq<Note>): seq<Note> {
    if |notes| == 0 then []
    else About(cid, notes[..|notes| - 1]) + if notes[|notes| - 1].cid == cid then [notes[|notes| - 1]] else []
  }

  lemma AboutSnoc(notes: seq<Note>, n: Note)
    ensures forall cid :: About(cid, notes + [n]) == About(cid, notes) + if n.cid == cid then [n] else []
  {
    assert (notes + [n])[..|notes|] == notes;
  }

  class EndpointList {
    const endpoints: array<Peer>
    var srvHasPubkey: bool
    var srvPubkey: seq<byte>
    /// what `announce_new_connection` and `announce_connection_lost` were called with
    var notes: seq<Note>
    ghost var history: seq<Op>

    /** Every peer and the announcements about it are determined by the history. */
    ghost predicate Valid()
      reads this, endpoints
    {
      && endpoints.Length == MAX_STAGE_ID
      && (forall i: byte :: i < MAX_STAGE_ID ==> endpoints[i] == After(i, history))
      && (forall i: byte :: i < MAX_STAGE_ID ==> About(i, notes) == Notes(i, history))
    }

    constructor ()
      ensures Valid() && history == [] && notes == [] && fresh(endpoints)
    {
      endpoints := new Peer[MAX_STAGE_ID](_ => NO_PEER);
      srvHasPubkey, srvPubkey, notes, history := false, [], [], [];
    }

    /** An operation that may change one peer and announces nothing. */
    ghost method Record(op: Op)
      requires endpoints.Length == MAX_STAGE_ID && !op.Tick?
      requires forall i: byte :: i < MAX_STAGE_ID ==> endpoints[i] == Step(After(i, history), i, op)
      requires forall i: byte :: i < MAX_STAGE_ID ==> About(i, notes) == Notes(i, history)
      modifies this`history
      ensures Valid() && history == old(history) + [op]
    {
      history := history + [op];
      assert history[..|history| - 1] == old(history);
    }

    method CidRegister(cid: byte, ep: Addr, mode: bv8, version: string, tryLock: bool)
      requires Valid()
      modifies this, endpoints
      ensures Valid() && history == old(history) + [Register(cid, ep, mode, version, tryLock)]
      ensures cid < MAX_STAGE_ID && tryLock ==>
                var p := endpoints[cid];
                p.ep == ep && p.mode == mode && p.version == version && p.timeout == CALLERLIST_TIMEOUT
      ensures forall i: byte :: i < MAX_STAGE_ID && (i != cid || !tryLock) ==> endpoints[i] == old(endpoints[i])
    {
      if cid < MAX_STAGE_ID {
        if tryLock {
          var p := endpoints[cid].(ep := ep);
          if mode != p.mode {
            p := p.(announced := false);
          }
          endpoints[cid] := p.(mode := mode, timeout := CALLERLIST_TIMEOUT, version := version);
        }
      }
      Record(Register(cid, ep, mode, version, tryLock));
    }

    method CidSetLocalIp(cid: byte, localep: Addr)
      requires Valid()
      modifies this, endpoints
      ensures Valid() && history == old(history) + [SetLocalIp(cid, localep)]
      ensures cid < MAX_STAGE_ID ==> endpoints[cid] == old(endpoints[cid]).(localep := localep)
      ensures forall i: byte :: i < MAX_STAGE_ID && i != cid ==> endpoints[i] == old(endpoints[i])
    {
      if cid < MAX_STAGE_ID {
        endpoints[cid] := endpoints[cid].(localep := localep);
      }
      Record(SetLocalIp(cid, localep));
    }

    method CidSetPingTime(cid: byte, pingtime: real, tryLock: bool)
      requires Valid()
      modifies this, endpoints
      ensures Valid() && history == old(history) + [SetPingTime(cid, pingtime, tryLock)]
      ensures cid < MAX_STAGE_ID ==> endpoints[cid].timeout == CALLERLIST_TIMEOUT
      ensures forall i: byte :: i < MAX_STAGE_ID && i != cid ==> endpoints[i] == old(endpoints[i])
    {
      if cid < MAX_STAGE_ID {
        endpoints[cid] := endpoints[cid].(timeout := CALLERLIST_TIMEOUT);
        if pingtime > 0.0 && tryLock {
          endpoints[cid] := Pinged(endpoints[cid], pingtime);
        }
      }
      Record(SetPingTime(cid, pingtime, tryLock));
    }

    method CidSetPubkey(cid: byte, key: seq<byte>)
      requires Valid()
      modifies this, endpoints
      ensures Valid() && history == old(history) + [SetPubkey(cid, key)]
      ensures |key| == PUBLICKEYBYTES && cid < MAX_STAGE_ID ==>
                endpoints[cid] == old(endpoints[cid]).(pubkey := key, hasPubkey := true)
      ensures forall i: byte :: i < MAX_STAGE_ID && (i != cid || |key| != PUBLICKEYBYTES) ==>
                                  endpoints[i] == old(endpoints[i])
      ensures |key| == PUBLICKEYBYTES && cid == STAGE_ID_SERVER ==> srvHasPubkey && srvPubkey == key
      ensures !(|key| == PUBLICKEYBYTES && cid == STAGE_ID_SERVER) ==>
                srvHasPubkey == old(srvHasPubkey) && srvPubkey == old(srvPubkey)
    {
      if |key| == PUBLICKEYBYTES {
        if cid < MAX_STAGE_ID {
          endpoints[cid] := endpoints[cid].(pubkey := key, hasPubkey := true);
        } else if cid == STAGE_ID_SERVER {
          srvPubkey := key;
          srvHasPubkey := true;
        }
      }
      Record(SetPubkey(cid, key));
    }

    /** One round of `checkstatus` for one peer. */
    method CheckPeer(k: byte)
      requires k < MAX_STAGE_ID && endpoints.Length == MAX_STAGE_ID
      modifies this`notes, endpoints
      ensures endpoints[..] == old(endpoints[..])[k as int := Ticked(old(endpoints[k]))]
      ensures notes == old(notes) + Announced(old(endpoints[k]), k)
    {
      if endpoints[k].timeout > 0 {
        if !endpoints[k].announced {
          notes := notes + [New(k)];
          endpoints[k] := endpoints[k].(announced := true);
        }
        endpoints[k] := endpoints[k].(timeout := endpoints[k].timeout - 1);
      } else if endpoints[k].announced {
        notes := notes + [Lost(k)];
        endpoints[k] := NO_PEER;
      }
    }

    /** One round of `checkstatus` over all peers. */
    method CheckStatus()
      requires Valid()
      modifies this, endpoints
      ensures Valid() && history == old(history) + [Tick]
    {
      hide After, Notes, Ticked, Announced, About;
      ghost var was, before := endpoints[..], notes;
      for k := 0 to MAX_STAGE_ID
        invariant endpoints.Length == MAX_STAGE_ID && history == old(history)
        invariant forall i: byte :: i < MAX_STAGE_ID ==> endpoints[i] == if i < k then Ticked(was[i]) else was[i]
        invariant forall i: byte :: i < MAX_STAGE_ID ==>
                                      About(i, notes) == About(i, before) + if i < k then Announced(was[i], i) else []
      {
        ghost var now, peer := notes, endpoints[k];
        CheckPeer(k as byte);
        AboutAnnounced(now, peer, k as byte);
        assert forall i: byte :: i < MAX_STAGE_ID ==> endpoints[i] == endpoints[..][i];
      }
      forall i: byte | i < MAX_STAGE_ID
        ensures endpoints[i] == After(i, history + [Tick]) && About(i, notes) == Notes(i, history + [Tick])
      {
        TickHistory(i, history);
      }
      history := history + [Tick];
    }

    /** The minute's log of ping times: every active peer is reported, and its statistics start again. */
    method LogStatistics() returns (latencies: seq<Latency>)
      requires Valid()
      modifies this, endpoints
      ensures Valid() && history == old(history) + [LogPings]
      ensures forall l :: l in latencies <==>
                            l.cid < MAX_STAGE_ID && old(endpoints[l.cid]).timeout > 0
                            && l == LatencyOf(old(endpoints[l.cid]), l.cid)
    {
      hide After, Notes, About, LatencyOf, Restarted;
      latencies := [];
      ghost var was := endpoints[..];
      for k := 0 to MAX_STAGE_ID
        invariant history == old(history) && notes == old(notes)
        invariant forall i: byte :: i < MAX_STAGE_ID ==>
                                      endpoints[i] == if i < k && was[i].timeout > 0 then Restarted(was[i]) else was[i]
        invariant forall l :: l in latencies <==> l.cid < k && was[l.cid].timeout > 0 && l == LatencyOf(was[l.cid], l.cid)
      {
        if endpoints[k].timeout > 0 {
          LatencyOfCid(endpoints[k], k as byte);
          latencies := latencies + [LatencyOf(endpoints[k], k as byte)];
          endpoints[k] := Restarted(endpoints[k]);
        }
      }
      forall i: byte | i < MAX_STAGE_ID
        ensures endpoints[i] == After(i, history + [LogPings]) && About(i, notes) == Notes(i, history + [LogPings])
      {
        LogHistory(i, history);
      }
      history := history + [LogPings];
    }
  }

  lemma LatencyOfCid(p: Peer, cid: byte)
    ensures LatencyOf(p, cid).cid == cid
  {
  }

  /** What is logged about an active peer. */
  datatype Latency = Latency(cid: byte, tMin: real, tMean: real, tMax: real)

  function LatencyOf(p: Peer, cid: byte): Latency {
    Latency(cid, p.pingMin, p.pingSum / (if p.pingN > 1 then p.pingN else 1) as real, p.pingMax)
  }

  lemma LogHistory(cid: byte, ops: seq<Op>)
    ensures After(cid, ops + [LogPings]) == if After(cid, ops).timeout > 0 then Restarted(After(cid, ops)) else After(cid, ops)
    ensures Notes(cid, ops + [LogPings]) == Notes(cid, ops)
  {
    assert (ops + [LogPings])[..|ops|] == ops;
    assert Notes(cid, ops) + [] == Notes(cid, ops);
  }

  lemma AboutAnnounced(notes: seq<Note>, p: Peer, k: byte)
    ensures forall cid :: About(cid, notes + Announced(p, k)) == About(cid, notes) + if cid == k then Announced(p, k) else []
  {
    AboutSnoc(notes, New(k));
    AboutSnoc(notes, Lost(k));
    assert notes + [] == notes;
  }

  lemma TickHistory(cid: byte, ops: seq<Op>)
    ensures After(cid, ops + [Tick]) == Ticked(After(cid, ops))
    ensures Notes(cid, ops + [Tick]) == Notes(cid, ops) + Announced(After(cid, ops), cid)
  {
    assert (ops + [Tick])[..|ops|] == ops;
  }
}
