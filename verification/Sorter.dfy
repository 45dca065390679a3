/**
  The message sorter on values: what one call of `message_sorter_t::process` does to the
  sorter's state, and what the drain loop of `sendsrv` makes of one received message.
 */
module Sorter {
  import opened Numbers

  const MAXSPECIALPORT: u16 := 12

  /** A sequence of numbered messages: one sender and one destination port. */
  datatype Stream = Stream(cid: byte, port: u16)

  /** A received message; `bytes` is the whole packet, header included. */
  datatype Msg = Msg(cid: byte, port: u16, num: i16, bytes: seq<byte>) {
    function Origin(): Stream {
      Stream(cid, port)
    }

    /** Control messages bypass the sorter. */
    predicate Special() {
      port <= MAXSPECIALPORT
    }
  }

  /** `message_stat_t` */
  datatype Stat = Stat(received: u64, lost: u64, seqerrIn: u64, seqerrOut: u64)

  const NO_STAT := Stat(0, 0, 0, 0)

  /** The fields of `message_sorter_t`; a buffer that is not `valid` is `None`. */
  datatype State = State(
    seqIn: map<Stream, i16>,
    seqOut: map<Stream, i16>,
    buf1: Option<Msg>,
    buf2: Option<Msg>,
    stat: map<byte, Stat>)

  const INITIAL_STATE := State(map[], map[], None, None, map[])

  /** Reading a `sequence_map_t` entry; absent entries read as 0. */
  function Num(numbers: map<Stream, i16>, st: Stream): i16 {
    if st in numbers then numbers[st] else 0
  }

  function StatOf(s: State, cid: byte): Stat {
    if cid in s.stat then s.stat[cid] else NO_STAT
  }

  /** The counters after a data message that is `d` ahead of its predecessor arrived. */
  function CountArrival(st: Stat, d: i16, notFirst: bool): Stat {
    Stat(Wrap64(st.received + 1),
         Wrap64(st.lost + if d != 0 && notFirst then d - 1 else 0),
         Wrap64(st.seqerrIn + if d < 0 then 1 else 0),
         st.seqerrOut)
  }

  /** The counters after a data message that is `d` ahead of the last delivered one left. */
  function CountDelivery(st: Stat, d: i16): Stat {
    st.(seqerrOut := Wrap64(st.seqerrOut + if d < 0 then 1 else 0))
  }

  /** The bookkeeping done when a data message leaves the sorter. */
  function Leave(s: State, m: Msg): State {
    var d := Wrap16(m.num - Num(s.seqOut, m.Origin()));
    s.(seqOut := s.seqOut[m.Origin() := m.num],
       stat := s.stat[m.cid := CountDelivery(StatOf(s, m.cid), d)])
  }

  /** The bookkeeping done when a data message enters the sorter. */
  function Enter(s: State, m: Msg): State {
    var d := Wrap16(m.num - Num(s.seqIn, m.Origin()));
    s.(seqIn := s.seqIn[m.Origin() := m.num],
       seqOut := s.seqOut[m.Origin() := Num(s.seqOut, m.Origin())],
       stat := s.stat[m.cid := CountArrival(StatOf(s, m.cid), d, m.Origin() in s.seqIn)])
  }

  /** Both the input and the output number are more than one behind: the message is held back. */
  predicate Gap(s: State, m: Msg) {
    Wrap16(m.num - Num(s.seqIn, m.Origin())) > 1 && Wrap16(m.num - Num(s.seqOut, m.Origin())) > 1
  }

  /** The held message leaves before the new one. */
  predicate HeldFirst(s: State, m: Msg) {
    var dIn := Wrap16(m.num - Num(s.seqIn, m.Origin()));
    var dIo := Wrap16(m.num - Num(s.seqOut, m.Origin()));
    && (dIn < -1 || (dIo > 1 && dIn > 0))
    && s.buf1.Some?
    && s.buf1.value.Origin() == m.Origin()
    && s.buf1.value.num < m.num
  }

  datatype Step = Step(next: State, out: Option<Msg>)

  /**
    One call of `process`; `cur` is the message the caller's pointer refers to, `None` if it is
    not valid. Whatever happens, the message the pointer refers to afterwards is not valid.
   */
  function Process(s: State, cur: Option<Msg>): Step {
    match cur
    case Some(m) =>
      if m.Special() then Step(s, Some(m))
      else if Gap(s, m) then Step(Enter(s, m).(buf1 := Some(m)), None)
      else if HeldFirst(s, m) then
        Step(Leave(Enter(s, m), s.buf1.value).(buf1 := None, buf2 := Some(m)), s.buf1)
      else Step(Leave(Enter(s, m), m), Some(m))
    case None =>
      match s.buf1
      case Some(b) => Step(Leave(s, b).(buf1 := None), Some(b))
      case None =>
        match s.buf2
        case Some(b) => Step(Leave(s, b).(buf2 := None), Some(b))
        case None => Step(s, None)
  }

  function Pending(s: State): nat {
    (if s.buf1.Some? then 1 else 0) + (if s.buf2.Some? then 1 else 0)
  }

  datatype Batch = Batch(next: State, out: seq<Msg>)

  /** The rest of the drain loop, once the received message has been consumed. */
  function Drain(s: State): Batch
    decreases Pending(s)
  {
    var step := Process(s, None);
    if step.out.None? then Batch(s, []) else
      var rest := Drain(step.next);
      Batch(rest.next, [step.out.value] + rest.out)
  }

  /** The whole drain loop for one received message. */
  function Receive(s: State, m: Msg): Batch {
    var step := Process(s, Some(m));
    if step.out.None? then Batch(step.next, []) else
      var rest := Drain(step.next);
      Batch(rest.next, [step.out.value] + rest.out)
  }

  /** The state and the messages delivered after receiving `arrivals`, starting from scratch. */
  function Run(arrivals: seq<Msg>): Batch {
    if |arrivals| == 0 then Batch(INITIAL_STATE, []) else
      var before := Run(arrivals[..|arrivals| - 1]);
      var batch := Receive(before.next, arrivals[|arrivals| - 1]);
      Batch(batch.next, before.out + batch.out)
  }

  function After(arrivals: seq<Msg>): State {
    Run(arrivals).next
  }

  function Delivered(arrivals: seq<Msg>): seq<Msg> {
    Run(arrivals).out
  }
}
