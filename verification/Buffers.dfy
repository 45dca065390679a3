/** `msgbuf_t`, an unpacked message next to its raw bytes, and the numbering and receiving socket. */
module Buffers {
  import opened Numbers
  import opened Wire
  import opened Sorter

  class MsgBuf {
    var valid: bool
    var cid: byte
    var destport: u16
    var num: i16
    var size: nat
    const rawbuffer: array<byte>

    ghost predicate Fits()
      reads this
    {
      rawbuffer.Length == BUFSIZE && HEADERLEN + size <= BUFSIZE
    }

    /** The message in the buffer, whether marked valid or not. */
    function Value(): Msg
      requires Fits()
      reads this, rawbuffer
    {
      Msg(cid, destport, num, rawbuffer[..HEADERLEN + size])
    }

    constructor ()
      ensures Fits() && !valid && fresh(rawbuffer)
    {
      valid, cid, destport, num, size := false, 0, 0, 0, 0;
      rawbuffer := new byte[BUFSIZE](_ => 0);
    }

    method Copy(src: MsgBuf)
      requires Fits() && src.Fits() && src != this && src.rawbuffer != rawbuffer
      modifies this, rawbuffer
      ensures Fits() && valid == src.valid && Value() == src.Value()
    {
      valid := src.valid;
      cid := src.cid;
      destport := src.destport;
      num := src.num;
      size := src.size;
      forall k | 0 <= k < BUFSIZE {
        rawbuffer[k] := src.rawbuffer[k];
      }
    }

    /** Reads the header of a packet of the given length; invalid unless the length is plausible. */
    method Unpack(msglen: nat)
      requires Fits()
      modifies this
      ensures Fits() && (valid <==> HEADERLEN <= msglen <= BUFSIZE)
      ensures valid ==> var p := rawbuffer[..msglen]; Value() == Msg(CidOf(p), PortOf(p), NumOf(p), p)
    {
      valid := false;
      if HEADERLEN <= msglen <= BUFSIZE {
        var p := rawbuffer[..msglen];
        cid := CidOf(p);
        destport := PortOf(p);
        num := NumOf(p);
        size := msglen - HEADERLEN;
        valid := true;
      }
    }

    /** Packing and unpacking restores every field, and succeeds exactly when the packet fits. */
    method Pack(secret: u32, callerid: byte, port: u16, number: i16, msg: seq<byte>)
      requires Fits()
      modifies this, rawbuffer
      ensures Fits() && (valid <==> HEADERLEN + |msg| <= BUFSIZE)
      ensures valid ==>
                && cid == callerid && destport == port && num == number && size == |msg|
                && rawbuffer[HEADERLEN..HEADERLEN + size] == msg
                && SecretOf(rawbuffer[..HEADERLEN]) == secret
    {
      var len := PackMsg(rawbuffer, BUFSIZE, secret, callerid, port, number, msg);
      Unpack(len);
      if valid {
        ghost var p := Packet(secret, callerid, port, number, msg);
        PacketRoundTrip(secret, callerid, port, number, msg);
        assert rawbuffer[..len] == p;
        assert rawbuffer[HEADERLEN..len] == p[HEADERLEN..];
        assert rawbuffer[..HEADERLEN][..POS_CALLERID] == p[..POS_CALLERID];
      }
    }
  }

  // ---------- Sending: consecutive numbers per destination port ----------

  /** One call of `ovbox_udpsocket_t::packmsg`. */
  datatype Call = Call(port: u16, payload: seq<byte>)

  /** How many of the calls were for this port. */
  function CallsTo(calls: seq<Call>, port: u16): nat {
    if |calls| == 0 then 0
    else CallsTo(calls[..|calls| - 1], port) + if calls[|calls| - 1].port == port then 1 else 0
  }

  lemma CallsToSnoc(calls: seq<Call>, c: Call)
    ensures forall port: u16 :: CallsTo(calls + [c], port) == CallsTo(calls, port) + if c.port == port then 1 else 0
  {
    assert (calls + [c])[..|calls|] == calls;
  }

  /** The message packed by the last call. */
  function PackedLast(secret: u32, cid: byte, calls: seq<Call>): Msg
    requires |calls| > 0
  {
    var c := calls[|calls| - 1];
    var num := if c.port >= MAXSPECIALPORT then Wrap16(CallsTo(calls, c.port)) else 0;
    Msg(cid, c.port, num, Packet(secret, cid, c.port, num, c.payload))
  }

  /** All messages packed by a sequence of calls. */
  function Packed(secret: u32, cid: byte, calls: seq<Call>): (ms: seq<Msg>)
    ensures |ms| == |calls|
  {
    if |calls| == 0 then []
    else Packed(secret, cid, calls[..|calls| - 1]) + [PackedLast(secret, cid, calls)]
  }

  // ---------- Receiving: length and secret are checked ----------

  /** What one call of `recvfrom` and the checks of `recv_sec_msg` make of a datagram or timeout. */
  function Accept(secret: u32, input: Option<seq<byte>>): Option<Msg> {
    if input.None? then None else
      var p := if |input.value| > BUFSIZE then input.value[..BUFSIZE] else input.value;
      if |p| < HEADERLEN || SecretOf(p) != secret then None else Some(Msg(CidOf(p), PortOf(p), NumOf(p), p))
  }

  class Socket {
    const secret: u32
    const callerid: byte
    var seqmap: map<u16, i16>
    ghost var calls: seq<Call>

    /** The next number of a data port is the 16-bit count of messages packed for it so far. */
    ghost predicate Valid()
      reads this
    {
      forall port: u16 :: (if port in seqmap then seqmap[port] else 0) ==
                          if port >= MAXSPECIALPORT then Wrap16(CallsTo(calls, port)) else 0
    }

    constructor (secret: u32, callerid: byte)
      ensures Valid() && calls == [] && this.secret == secret && this.callerid == callerid
    {
      this.secret, this.callerid := secret, callerid;
      seqmap, calls := map[], [];
    }

    /** Counts the call and steps the port's number; control ports keep number 0. */
    method NextNumber(destport: u16, ghost msg: seq<byte>) returns (number: i16)
      requires Valid()
      modifies this
      ensures Valid() && calls == old(calls) + [Call(destport, msg)]
      ensures number == if destport >= MAXSPECIALPORT then Wrap16(CallsTo(calls, destport)) else 0
    {
      hide Wrap16, CallsTo;
      ghost var before := calls;
      calls := calls + [Call(destport, msg)];
      CallsToSnoc(before, Call(destport, msg));
      Wrap16Next(CallsTo(before, destport));
      number := if destport in seqmap then seqmap[destport] else 0;
      seqmap := seqmap[destport := number];
      if destport >= MAXSPECIALPORT {
        number := Wrap16(number as int + 1);
        seqmap := seqmap[destport := number];
      }
    }

    method PackMsg(destbuf: array<byte>, maxlen: nat, destport: u16, msg: seq<byte>) returns (n: nat)
      requires Valid() && maxlen <= destbuf.Length
      modifies this, destbuf
      ensures Valid() && calls == old(calls) + [Call(destport, msg)]
      ensures maxlen < HEADERLEN + |msg| ==> n == 0 && destbuf[..] == old(destbuf[..])
      ensures maxlen >= HEADERLEN + |msg| ==>
                && n == HEADERLEN + |msg|
                && destbuf[..n] == PackedLast(secret, callerid, calls).bytes
                && destbuf[n..] == old(destbuf[n..])
      ensures n > 0 ==>
                && HEADERLEN <= n <= maxlen && destbuf[HEADERLEN..n] == msg
                && SecretOf(destbuf[..n]) == secret && CidOf(destbuf[..n]) == callerid
                && PortOf(destbuf[..n]) == destport
                && NumOf(destbuf[..n]) == if destport >= MAXSPECIALPORT then Wrap16(CallsTo(calls, destport)) else 0
    {
      hide Packet, CallsTo, Wrap16;
      var number := NextNumber(destport, msg);
      n := Wire.PackMsg(destbuf, maxlen, secret, callerid, destport, number, msg);
      PacketRoundTrip(secret, callerid, destport, number, msg);
      assert n > 0 ==> destbuf[..n] == Packet(secret, callerid, destport, number, msg);
      assert n > 0 ==> destbuf[HEADERLEN..n] == destbuf[..n][HEADERLEN..];
    }

    /**
      `recv_sec_msg`; `input` is what `recvfrom` delivers, `None` for a timeout or an error. It is
      accepted exactly if it has a header with the session's secret, and cut to the buffer's size.
     */
    method Receive(msg: MsgBuf, input: Option<seq<byte>>) returns (ok: bool)
      requires msg.Fits()
      modifies msg, msg.rawbuffer
      ensures msg.Fits() && ok == msg.valid == Accept(secret, input).Some?
      ensures ok ==> msg.Value() == Accept(secret, input).value
      ensures ok <==> input.Some? && |input.value| >= HEADERLEN && SecretOf(input.value) == secret
      ensures ok ==>
                var p := if |input.value| > BUFSIZE then input.value[..BUFSIZE] else input.value;
                && msg.cid == CidOf(p) && msg.destport == PortOf(p) && msg.num == NumOf(p)
                && msg.size == |p| - HEADERLEN && msg.rawbuffer[..|p|] == p
    {
      hide Value2, Value4, Wrap16;
      msg.valid := false;
      if input.None? {
        return false;
      }
      var ilen := if |input.value| > BUFSIZE then BUFSIZE else |input.value|;
      Store(msg.rawbuffer, 0, input.value[..ilen]);
      ghost var p := if |input.value| > BUFSIZE then input.value[..BUFSIZE] else input.value;
      assert msg.rawbuffer[..ilen] == p;
      assert ilen >= HEADERLEN ==> p[..POS_CALLERID] == input.value[..POS_CALLERID];
      if ilen < HEADERLEN {
        return false;
      }
      if SecretOf(msg.rawbuffer[..ilen]) != secret {
        return false;
      }
      msg.Unpack(ilen);
      return msg.valid;
    }
  }
}
