/**
  The sorter and its receive loop as they run: buffers updated in place, and a message pointer
  that the sorter redirects to its own buffers.
 */
module Receiver {
  import opened Numbers
  import opened Sorter
  import opened SorterRuns
  import opened Buffers
  import opened Wire

  /** What happens to a data message that leaves no gap, in terms of its two differences. */
  lemma Outcome(s: State, m: Msg, dIn: i16, dIo: i16)
    requires !m.Special() && !Gap(s, m)
    requires dIn == Wrap16(m.num - Num(s.seqIn, m.Origin())) && dIo == Wrap16(m.num - Num(s.seqOut, m.Origin()))
    ensures Sorter.Process(s, Some(m)) ==
            if (dIn < -1 || (dIo > 1 && dIn > 0)) && s.buf1.Some?
               && s.buf1.value.Origin() == m.Origin() && s.buf1.value.num < m.num
            then Step(Leave(Enter(s, m), s.buf1.value).(buf1 := None, buf2 := Some(m)), s.buf1)
            else Step(Leave(Enter(s, m), m), Some(m))
  {
    hide Wrap16, Enter, Leave;
  }

  class MessageSorter {
    var seqIn: map<Stream, i16>
    var seqOut: map<Stream, i16>
    const buf1: MsgBuf
    const buf2: MsgBuf
    var stat: map<byte, Stat>

    ghost predicate Valid()
      reads this, buf1, buf2
    {
      && buf1.Fits() && buf2.Fits()
      && buf1 != buf2 && buf1.rawbuffer != buf2.rawbuffer
    }

    ghost function State(): State
      requires Valid()
      reads this, buf1, buf1.rawbuffer, buf2, buf2.rawbuffer
    {
      Sorter.State(seqIn, seqOut,
                   if buf1.valid then Some(buf1.Value()) else None,
                   if buf2.valid then Some(buf2.Value()) else None,
                   stat)
    }

    constructor ()
      ensures Valid() && State() == INITIAL_STATE
      ensures fresh(buf1) && fresh(buf2) && fresh(buf1.rawbuffer) && fresh(buf2.rawbuffer)
    {
      seqIn, seqOut, stat := map[], map[], map[];
      buf1 := new MsgBuf();
      buf2 := new MsgBuf();
    }

    /** The number maps and statistics are those of `s`. */
    ghost predicate HasBooks(s: State)
      reads this
    {
      seqIn == s.seqIn && seqOut == s.seqOut && stat == s.stat
    }

    /** `deltaseq` on the output numbers, with the check for an output sequence error. */
    method Deliver(p: MsgBuf, ghost before: State)
      requires p.Fits() && HasBooks(before)
      modifies this
      ensures HasBooks(Leave(before, p.Value()))
    {
      hide Wrap16, CountArrival, CountDelivery;
      var st := Stream(p.cid, p.destport);
      var dOut := Wrap16(p.num - Num(seqOut, st));
      seqOut := seqOut[st := p.num];
      var c := if p.cid in stat then stat[p.cid] else NO_STAT;
      stat := stat[p.cid := CountDelivery(c, dOut)];
    }

    /**
      The bookkeeping of `process` for a new data message. Steps back are counted here already,
      which a held message, being ahead, does not notice.
     */
    method Enroll(p: MsgBuf, ghost before: State) returns (dIn: i16, dIo: i16)
      requires p.Fits() && HasBooks(before)
      modifies this
      ensures HasBooks(Enter(before, p.Value()))
      ensures dIn == Wrap16(p.num - Num(before.seqIn, p.Value().Origin()))
      ensures dIo == Wrap16(p.num - Num(before.seqOut, p.Value().Origin()))
    {
      hide Wrap16, CountArrival, CountDelivery;
      var st := Stream(p.cid, p.destport);
      var c := if p.cid in stat then stat[p.cid] else NO_STAT;
      var notFirst := st in seqIn;
      dIn := Wrap16(p.num - Num(seqIn, st));
      seqIn := seqIn[st := p.num];
      seqOut := seqOut[st := Num(seqOut, st)];
      dIo := Wrap16(p.num - seqOut[st]);
      stat := stat[p.cid := CountArrival(c, dIn, notFirst)];
    }

    /** The part of `process` for a pointer to a message that is still to be handled. */
    method ProcessNew(p: MsgBuf) returns (more: bool, q: MsgBuf)
      requires Valid() && p.Fits() && p.valid && p != buf1 && p != buf2
      requires p.rawbuffer != buf1.rawbuffer && p.rawbuffer != buf2.rawbuffer
      modifies this, buf1, buf1.rawbuffer, buf2, buf2.rawbuffer, p`valid
      ensures Valid() && q.Fits() && (q == p || q == buf1)
      ensures !q.valid
      ensures var step := Sorter.Process(old(State()), Some(old(p.Value())));
              State() == step.next && (if more then step.out == Some(q.Value()) else step.out == None)
    {
      hide Wrap16, Enter, Leave;
      q := p;
      if p.destport <= MAXSPECIALPORT {
        p.valid := false;
        return true, q;
      }
      ghost var before := State();
      EnterKeepsBuffers(before, p.Value());
      var dIn, dIo := Enroll(p, before);
      if dIn > 1 && dIo > 1 {
        buf1.Copy(p);
        p.valid := false;
        return false, q;
      }
      more, q := ReleaseNew(p, dIn, dIo, before);
    }

    /** The rest of `process` for an enrolled message that leaves no gap. */
    method ReleaseNew(p: MsgBuf, dIn: i16, dIo: i16, ghost before: State) returns (more: bool, q: MsgBuf)
      requires Valid() && p.Fits() && p.valid && p != buf1 && p != buf2
      requires p.rawbuffer != buf1.rawbuffer && p.rawbuffer != buf2.rawbuffer
      requires !p.Value().Special() && !Gap(before, p.Value()) && State() == Enter(before, p.Value())
      requires dIn == Wrap16(p.num - Num(before.seqIn, p.Value().Origin()))
      requires dIo == Wrap16(p.num - Num(before.seqOut, p.Value().Origin()))
      modifies this, buf1, buf1.rawbuffer, buf2, buf2.rawbuffer, p`valid
      ensures Valid() && q.Fits() && (q == p || q == buf1)
      ensures more && !q.valid
      ensures var step := Sorter.Process(before, Some(old(p.Value())));
              State() == step.next && step.out == Some(q.Value())
    {
      hide Wrap16, Enter, Leave, Gap, Sorter.Process, HeldFirst;
      q := p;
      ghost var entered, m := State(), p.Value();
      EnterKeepsBuffers(before, m);
      Outcome(before, m, dIn, dIo);
      if dIn < -1 || (dIo > 1 && dIn > 0) {
        if buf1.valid && buf1.cid == p.cid && buf1.destport == p.destport && buf1.num < p.num {
          ghost var b := buf1.Value();
          LeaveKeepsBuffers(entered, b, None);
          buf2.Copy(p);
          q := buf1;
          buf1.valid := false;
          Deliver(buf1, entered);
          assert q.Value() == b && buf2.Value() == m;
          return true, q;
        }
      }
      LeaveKeepsBuffers(entered, m, None);
      Deliver(p, entered);
      p.valid := false;
      return true, q;
    }

    /**
      `process`: `p` is where the caller's pointer points, `q` where it points afterwards. When
      the call returns true, `q` holds the message to deliver.
     */
    method Process(p: MsgBuf) returns (more: bool, q: MsgBuf)
      requires Valid() && p.Fits()
      requires p.valid ==> p != buf1 && p != buf2
      requires p != buf1 && p != buf2 ==> p.rawbuffer != buf1.rawbuffer && p.rawbuffer != buf2.rawbuffer
      modifies this, buf1, buf1.rawbuffer, buf2, buf2.rawbuffer, p`valid
      ensures Valid() && q.Fits() && (q == p || q == buf1 || q == buf2)
      ensures !q.valid
      ensures var step := Sorter.Process(old(State()), if old(p.valid) then Some(old(p.Value())) else None);
              State() == step.next && (if more then step.out == Some(q.Value()) else step.out == None)
    {
      hide Wrap16, Leave;
      q := p;
      ghost var before := State();
      if p.valid {
        more, q := ProcessNew(p);
        return;
      }
      if buf1.valid {
        q := buf1;
        LeaveKeepsBuffers(before, buf1.Value(), None);
        Deliver(buf1, before);
        buf1.valid := false;
        return true, q;
      }
      if buf2.valid {
        LeaveKeepsBuffers(before, buf2.Value(), None);
        Deliver(buf2, before);
        q := buf2;
        buf2.valid := false;
        return true, q;
      }
      return false, q;
    }
  }

  /** The messages a sequence of receptions yields; timeouts and foreign datagrams yield none. */
  function Accepted(secret: u32, inputs: seq<Option<seq<byte>>>): seq<Msg> {
    if |inputs| == 0 then []
    else
      var n := |inputs| - 1;
      var last := Accept(secret, inputs[n]);
      Accepted(secret, inputs[..n]) + if last.Some? then [last.value] else []
  }

  /** A datagram with a header and the session's secret; anything longer than the buffer is cut. */
  predicate OfSession(secret: u32, input: Option<seq<byte>>) {
    input.Some? && |input.value| >= HEADERLEN && SecretOf(input.value) == secret
  }

  /** Every datagram of the session counts with the fields of its bytes, and nothing else counts. */
  lemma AcceptedNext(secret: u32, inputs: seq<Option<seq<byte>>>, input: Option<seq<byte>>)
    ensures var was, now := Accepted(secret, inputs), Accepted(secret, inputs + [input]);
            if OfSession(secret, input) then
              var p := if |input.value| > BUFSIZE then input.value[..BUFSIZE] else input.value;
              now == was + [Msg(CidOf(p), PortOf(p), NumOf(p), p)]
            else now == was
  {
    assert (inputs + [input])[..|inputs|] == inputs;
    if input.Some? && |input.value| >= HEADERLEN {
      var p := if |input.value| > BUFSIZE then input.value[..BUFSIZE] else input.value;
      assert p[..POS_CALLERID] == input.value[..POS_CALLERID];
    }
  }

  lemma {:induction false} AcceptedConcat(secret: u32, a: seq<Option<seq<byte>>>, b: seq<Option<seq<byte>>>)
    ensures Accepted(secret, a + b) == Accepted(secret, a) + Accepted(secret, b)
  {
    hide Accept;
    if |b| == 0 {
      assert a + b == a;
    } else {
      var n := |b| - 1;
      AcceptedConcat(secret, a, b[..n]);
      assert (a + b)[..|a| + n] == a + b[..n] && (a + b)[|a| + n] == b[n];
    }
  }

  /**
    A timeout or a datagram of another session, whenever it comes, changes neither what is
    delivered nor any state of the sorter, its counters included.
   */
  lemma ForeignIgnored(secret: u32, before: seq<Option<seq<byte>>>, foreign: Option<seq<byte>>,
                       rest: seq<Option<seq<byte>>>)
    requires foreign.None? || |foreign.value| < HEADERLEN || SecretOf(foreign.value) != secret
    ensures var without, with := Accepted(secret, before + rest), Accepted(secret, before + [foreign] + rest);
            && Delivered(with) == Delivered(without) && After(with) == After(without)
  {
    hide Run, Accepted;
    AcceptedNext(secret, before, foreign);
    AcceptedConcat(secret, before, rest);
    AcceptedConcat(secret, before + [foreign], rest);
  }

  /** What the drain loop still has to do. */
  ghost function ToGo(more: bool, s: State): Batch {
    if more then Sorter.Drain(s) else Batch(s, [])
  }

  lemma ToGoFirst(s: State, m: Msg)
    ensures var step, batch := Sorter.Process(s, Some(m)), Sorter.Receive(s, m);
            && ToGo(step.out.Some?, step.next).next == batch.next
            && (if step.out.Some? then [step.out.value] else []) + ToGo(step.out.Some?, step.next).out == batch.out
  {
    hide Sorter.Process, Sorter.Drain;
  }

  lemma ToGoDone(s: State)
    ensures ToGo(false, s) == Batch(s, []) && ToGo(true, s) == Sorter.Drain(s)
  {
  }

  lemma ToGoStep(s: State, handled: seq<Msg>, total: seq<Msg>)
    requires handled + Sorter.Drain(s).out == total
    ensures var step := Sorter.Process(s, None);
            && ToGo(step.out.Some?, step.next).next == Sorter.Drain(s).next
            && handled + (if step.out.Some? then [step.out.value] else []) + ToGo(step.out.Some?, step.next).out == total
            && (if step.out.Some? then Pending(step.next) < Pending(s) else step.next == s)
  {
  }

  /** The receiving thread of `ovboxclient_t`; `handled` is what reached `process_msg`. */
  class Client {
    const socket: Socket
    const sorter: MessageSorter
    const msg: MsgBuf
    var handled: seq<Msg>

    ghost const repr: set<object>

    ghost predicate Valid()
      reads this, sorter, sorter.buf1, sorter.buf2, msg
    {
      && sorter.Valid() && msg.Fits()
      && msg != sorter.buf1 && msg != sorter.buf2
      && msg.rawbuffer != sorter.buf1.rawbuffer && msg.rawbuffer != sorter.buf2.rawbuffer
      && repr == {this, sorter, msg, msg.rawbuffer, sorter.buf1, sorter.buf1.rawbuffer,
                  sorter.buf2, sorter.buf2.rawbuffer}
    }

    constructor (secret: u32, callerid: byte)
      ensures Valid() && sorter.State() == INITIAL_STATE && handled == [] && socket.secret == secret
    {
      socket := new Socket(secret, callerid);
      var sorter := new MessageSorter();
      var msg := new MsgBuf();
      this.sorter, this.msg, handled := sorter, msg, [];
      repr := {this, sorter, msg, msg.rawbuffer, sorter.buf1, sorter.buf1.rawbuffer,
               sorter.buf2, sorter.buf2.rawbuffer};
    }

    /** The entry of `process_msg`: the buffer is released and its message handled. */
    method ProcessMsg(p: MsgBuf)
      requires p.Fits()
      modifies this`handled, p`valid
      ensures !p.valid && handled == old(handled) + [old(p.Value())]
    {
      p.valid := false;
      handled := handled + [p.Value()];
    }

    /** The body of the drain loop. */
    method HandleNext(p: MsgBuf, ghost batch: Batch, ghost total: seq<Msg>) returns (more: bool, q: MsgBuf)
      requires Valid() && p.Fits() && !p.valid && (p == msg || p == sorter.buf1 || p == sorter.buf2)
      requires Sorter.Drain(sorter.State()).next == batch.next
      requires handled + [p.Value()] + Sorter.Drain(sorter.State()).out == total
      modifies repr
      ensures Valid() && q.Fits() && !q.valid && (q == msg || q == sorter.buf1 || q == sorter.buf2)
      ensures ToGo(more, sorter.State()).next == batch.next
      ensures handled + (if more then [q.Value()] else []) + ToGo(more, sorter.State()).out == total
      ensures if more then Pending(sorter.State()) < old(Pending(sorter.State()))
              else sorter.State() == old(sorter.State())
    {
      hide Sorter.Process, Pending, Sorter.Drain, ToGo;
      ghost var before := sorter.State();
      ProcessMsg(p);
      assert sorter.State() == before;
      more, q := sorter.Process(p);
      ToGoStep(before, handled, total);
    }

    /** The drain loop after a successful reception. */
    method Drain()
      requires Valid() && msg.valid
      modifies repr
      ensures Valid()
      ensures var batch := Sorter.Receive(old(sorter.State()), old(msg.Value()));
              sorter.State() == batch.next && handled == old(handled) + batch.out
    {
      hide Sorter.Process, Pending, Sorter.Receive, Sorter.Drain, ToGo;
      ghost var batch, total := Sorter.Receive(sorter.State(), msg.Value()), handled;
      total := total + batch.out;
      ToGoFirst(sorter.State(), msg.Value());
      var more, pmsg := sorter.Process(msg);
      while more
        invariant Valid() && pmsg.Fits() && !pmsg.valid
        invariant pmsg == msg || pmsg == sorter.buf1 || pmsg == sorter.buf2
        invariant ToGo(more, sorter.State()).next == batch.next
        invariant handled + (if more then [pmsg.Value()] else []) + ToGo(more, sorter.State()).out == total
        decreases Pending(sorter.State()) + if more then 1 else 0
      {
        ToGoDone(sorter.State());
        more, pmsg := HandleNext(pmsg, batch, total);
      }
      ToGoDone(sorter.State());
    }

    /** `sendsrv` over any sequence of receptions and timeouts. */
    method Sendsrv(inputs: seq<Option<seq<byte>>>)
      requires Valid() && sorter.State() == INITIAL_STATE && handled == []
      modifies repr
      ensures Valid()
      ensures sorter.State() == After(Accepted(socket.secret, inputs))
      ensures handled == Delivered(Accepted(socket.secret, inputs))
    {
      hide Run;
      RunEmpty();
      for k := 0 to |inputs|
        invariant Valid()
        invariant sorter.State() == After(Accepted(socket.secret, inputs[..k]))
        invariant handled == Delivered(Accepted(socket.secret, inputs[..k]))
      {
        assert inputs[..k + 1][..k] == inputs[..k];
        ghost var before, arrivals := sorter.State(), Accepted(socket.secret, inputs[..k]);
        var canProcess := socket.Receive(msg, inputs[k]);
        assert sorter.State() == before;
        if canProcess {
          RunSnoc(arrivals, msg.Value());
          Drain();
        } else {
          assert Accepted(socket.secret, inputs[..k + 1]) == arrivals;
        }
      }
      assert inputs[..|inputs|] == inputs;
    }
  }
}
