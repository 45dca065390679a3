/** Pings and pongs on the wire, and the encryption of payloads. */
module Ping {
  import opened Numbers
  import opened Wire

  const TIMESTAMPLEN: nat := 8
  const ENDPOINTLEN: nat := 16
  /// header, time stamp, device id, end point and some spare room
  const PINGBUFSIZE: nat := 9 + 8 + 1 + 16 + 100

  predicate IsPing(port: u16) {
    port == PORT_PING || port == PORT_PING_SRV || port == PORT_PING_LOCAL
  }

  /** The port of the answer. */
  function PongPort(port: u16): u16 {
    if port == PORT_PING then PORT_PONG
    else if port == PORT_PING_SRV then PORT_PONG_SRV
    else if port == PORT_PING_LOCAL then PORT_PONG_LOCAL
    else port
  }

  /** Only a ping through the server names the device it is for. */
  function Addressee(proto: u16, destid: byte): seq<byte> {
    if proto == PORT_PING_SRV then [destid] else []
  }

  /** `send_ping` up to the call that sends the datagram; the time stamp is a foreign 8-byte value. */
  method SendPing(secret: u32, callerid: byte, ep: seq<byte>, destid: byte, proto: u16, t1: seq<byte>)
    returns (datagram: seq<byte>)
    requires |t1| == TIMESTAMPLEN && |ep| == ENDPOINTLEN && IsPing(proto)
    ensures datagram == Packet(secret, callerid, proto, 0, Addressee(proto, destid) + t1 + ep)
  {
    hide Packet;
    var buffer := new byte[PINGBUFSIZE](_ => 0);
    var n := PackMsg(buffer, PINGBUFSIZE, secret, callerid, proto, 0, []);
    ghost var head := Packet(secret, callerid, proto, 0, []);
    assert buffer[..n] == head;
    if proto == PORT_PING_SRV {
      n := Append(buffer, n, [destid], head);
    }
    ghost var to := Addressee(proto, destid);
    assert buffer[..n] == head + to;
    n := Append(buffer, n, t1, head + to);
    n := Append(buffer, n, ep, head + to + t1);
    assert head + to + t1 + ep == head + (to + t1 + ep);
    PacketAppend(secret, callerid, proto, to + t1 + ep);
    datagram := buffer[..n];
  }

  /** `addmsg` to a ping, which always has room. */
  method Append(buffer: array<byte>, len: nat, more: seq<byte>, ghost soFar: seq<byte>) returns (n: nat)
    requires buffer.Length == PINGBUFSIZE && len + |more| <= PINGBUFSIZE && buffer[..len] == soFar
    modifies buffer
    ensures n == len + |more| && buffer[..n] == soFar + more
  {
    n := AddMsg(buffer, PINGBUFSIZE, len, more);
    assert buffer[..n] == buffer[..][..n];
  }

  lemma PacketAppend(secret: u32, cid: byte, port: u16, payload: seq<byte>)
    ensures Packet(secret, cid, port, 0, []) + payload == Packet(secret, cid, port, 0, payload)
  {
  }

  /**
    `process_ping_msg`: the packet in the buffer becomes the answer, in place. `cid` is the sender
    of the ping, which the answer through the server is addressed to; if that ping is empty, the
    addressee is written behind the message and not sent.
   */
  method ProcessPing(raw: array<byte>, len: nat, callerid: byte, destport: u16, cid: byte)
    requires HEADERLEN <= len <= raw.Length == BUFSIZE && IsPing(destport)
    modifies raw
    ensures raw[..len] == Answer(old(raw[..len]), callerid, destport, cid)
    ensures raw[4] == callerid && raw[6] == 0
    ensures raw[5] == if destport == 2 then 3 else if destport == 7 then 8 else 10
    ensures destport == 7 && len > 9 ==> raw[9] == cid
    ensures forall k :: 0 <= k < len && k != 4 && k != 5 && k != 6 && (k == 9 ==> destport != 7) ==> raw[k] == old(raw[k])
  {
    hide PongPort, Bytes2, Answer;
    ghost var ping := raw[..];
    var port := Bytes2(PongPort(destport));
    raw[POS_CALLERID] := callerid;
    ghost var named := raw[..];
    assert named == ping[POS_CALLERID := callerid];
    Store(raw, POS_PORT, port);
    ghost var ported := raw[..];
    assert ported == named[..POS_PORT] + port + named[POS_SEQ..];
    if destport == PORT_PING_SRV {
      raw[HEADERLEN] := cid;
    }
    assert raw[..] == if destport == PORT_PING_SRV then ported[HEADERLEN := cid] else ported;
    AnswerByWrites(ping, named, ported, port, callerid, destport, cid);
    AnswerAt(ping, raw[..], len, callerid, destport, cid);
    AnswerBytes(ping, raw[..], callerid, destport, cid);
  }

  /** The answer, byte by byte. */
  lemma AnswerBytes(ping: seq<byte>, answer: seq<byte>, callerid: byte, destport: u16, cid: byte)
    requires |ping| > HEADERLEN && IsPing(destport) && answer == Answer(ping, callerid, destport, cid)
    ensures |answer| == |ping| && answer[4] == callerid && answer[6] == 0
    ensures answer[5] == if destport == 2 then 3 else if destport == 7 then 8 else 10
    ensures destport == 7 ==> answer[9] == cid
    ensures forall k :: 0 <= k < |ping| && k != 4 && k != 5 && k != 6 && (k == 9 ==> destport != 7) ==>
                          answer[k] == ping[k]
  {
    hide Bytes2;
    var port := Bytes2(PongPort(destport));
    var head := ping[..POS_CALLERID] + [callerid] + port + ping[POS_SEQ..HEADERLEN];
    var tail := if destport == PORT_PING_SRV then [cid] + ping[HEADERLEN + 1..] else ping[HEADERLEN..];
    assert port[0] == PongPort(destport) && port[1] == 0 by { SmallPort(PongPort(destport)); }
    assert answer == head + tail && |head| == HEADERLEN;
    assert head[4] == callerid && head[5] == port[0] && head[6] == port[1];
    assert forall k :: HEADERLEN <= k < |ping| ==> answer[k] == tail[k - HEADERLEN];
  }

  lemma SmallPort(port: u16)
    requires port < 0x100
    ensures Bytes2(port)[0] == port && Bytes2(port)[1] == 0
  {
  }

  /** The three writes, one after the other. */
  lemma AnswerByWrites(ping: seq<byte>, named: seq<byte>, ported: seq<byte>, port: seq<byte>,
                       callerid: byte, destport: u16, cid: byte)
    requires |ping| >= HEADERLEN && (destport == PORT_PING_SRV ==> |ping| > HEADERLEN)
    requires port == Bytes2(PongPort(destport)) && named == ping[POS_CALLERID := callerid]
    requires ported == named[..POS_PORT] + port + named[POS_SEQ..]
    ensures |ported| == |ping|
    ensures (if destport == PORT_PING_SRV then ported[HEADERLEN := cid] else ported) ==
            Answer(ping, callerid, destport, cid)
  {
    hide PongPort, Bytes2;
    var head := ping[..POS_CALLERID] + [callerid] + port;
    assert named[..POS_PORT] == ping[..POS_CALLERID] + [callerid];
    assert named[POS_SEQ..] == ping[POS_SEQ..] == ping[POS_SEQ..HEADERLEN] + ping[HEADERLEN..];
    assert ported == (head + ping[POS_SEQ..HEADERLEN]) + ping[HEADERLEN..];
    if destport == PORT_PING_SRV {
      PutAfter(head + ping[POS_SEQ..HEADERLEN], ping[HEADERLEN..], cid);
      assert ping[HEADERLEN..][1..] == ping[HEADERLEN + 1..];
    }
  }

  lemma PutAfter(head: seq<byte>, tail: seq<byte>, x: byte)
    requires |tail| > 0
    ensures (head + tail)[|head| := x] == head + ([x] + tail[1..])
  {
  }

  /** The answer in a buffer that is longer than the packet. */
  lemma AnswerAt(ping: seq<byte>, raw: seq<byte>, len: nat, callerid: byte, destport: u16, cid: byte)
    requires HEADERLEN <= len <= |ping| && HEADERLEN < |ping|
    requires raw == Answer(ping, callerid, destport, cid)
    ensures raw[..len] == Answer(ping[..len], callerid, destport, cid)
  {
    hide PongPort, Bytes2;
    var head := ping[..POS_CALLERID] + [callerid] + Bytes2(PongPort(destport)) + ping[POS_SEQ..HEADERLEN];
    var tail := if destport == PORT_PING_SRV then [cid] + ping[HEADERLEN + 1..] else ping[HEADERLEN..];
    assert raw == head + tail && |head| == HEADERLEN;
    assert raw[..len] == head + tail[..len - HEADERLEN];
    assert ping[..len][POS_SEQ..HEADERLEN] == ping[POS_SEQ..HEADERLEN];
    assert ping[..len][..POS_CALLERID] == ping[..POS_CALLERID];
  }

  /** The answer differs from the ping in sender, port and, through the server, the addressee. */
  function Answer(ping: seq<byte>, callerid: byte, destport: u16, cid: byte): seq<byte>
    requires |ping| >= HEADERLEN
  {
    ping[..POS_CALLERID] + [callerid] + Bytes2(PongPort(destport)) + ping[POS_SEQ..HEADERLEN] +
    if destport == PORT_PING_SRV && |ping| > HEADERLEN then [cid] + ping[HEADERLEN + 1..] else ping[HEADERLEN..]
  }

  /** The time stamp `process_pong_msg` reads from a payload, if the payload is long enough. */
  function TimeStamp(payload: seq<byte>, destport: u16): Option<seq<byte>> {
    var t := if destport == PORT_PONG_SRV && |payload| > 0 then payload[1..] else payload;
    if |t| >= TIMESTAMPLEN then Some(t[..TIMESTAMPLEN]) else None
  }

  /**
    A ping that went out and was answered comes back as the answerer's message on the matching
    port, with the very time stamp that was packed; through the server it names the pinging device.
   */
  lemma PingComesBack(secret: u32, a: byte, b: byte, ep: seq<byte>, destid: byte, proto: u16, t1: seq<byte>)
    requires |t1| == TIMESTAMPLEN && IsPing(proto)
    ensures var ping := Packet(secret, a, proto, 0, Addressee(proto, destid) + t1 + ep);
            var pong := Answer(ping, b, PortOf(ping), CidOf(ping));
            && pong == Packet(secret, b, PongPort(proto), 0, Addressee(proto, a) + t1 + ep)
            && SecretOf(pong) == secret && CidOf(pong) == b && PortOf(pong) == PongPort(proto)
            && (proto == 2 ==> PortOf(pong) == 3) && (proto == 7 ==> PortOf(pong) == 8) && (proto == 9 ==> PortOf(pong) == 10)
            && (proto == 7 ==> pong[HEADERLEN] == a)
            && TimeStamp(pong[HEADERLEN..], PortOf(pong)) == Some(t1)
  {
    hide Packet, Answer, SecretOf, CidOf, PortOf, TimeStamp;
    var payload, back := Addressee(proto, destid) + t1 + ep, Addressee(proto, a) + t1 + ep;
    PacketRoundTrip(secret, a, proto, 0, payload);
    PacketRoundTrip(secret, b, PongPort(proto), 0, back);
    AnswerIsPacket(secret, a, b, proto, payload);
    assert proto == PORT_PING_SRV ==> [a] + payload[1..] == back;
    TimeStampOf(proto, a, t1, ep);
  }

  lemma TimeStampOf(proto: u16, a: byte, t1: seq<byte>, ep: seq<byte>)
    requires |t1| == TIMESTAMPLEN && IsPing(proto)
    ensures TimeStamp(Addressee(proto, a) + t1 + ep, PongPort(proto)) == Some(t1)
  {
    var back := Addressee(proto, a) + t1 + ep;
    assert back[|Addressee(proto, a)|..] == t1 + ep && (t1 + ep)[..TIMESTAMPLEN] == t1;
  }

  lemma AnswerIsPacket(secret: u32, a: byte, b: byte, proto: u16, payload: seq<byte>)
    requires IsPing(proto) && (proto == PORT_PING_SRV ==> |payload| > 0)
    ensures Answer(Packet(secret, a, proto, 0, payload), b, proto, a) ==
            Packet(secret, b, PongPort(proto), 0, if proto == PORT_PING_SRV then [a] + payload[1..] else payload)
  {
    var ping := Packet(secret, a, proto, 0, payload);
    assert ping[..POS_CALLERID] == Bytes4(secret);
    assert ping[POS_SEQ..HEADERLEN] == Bytes2(Bits(0));
    assert ping[HEADERLEN..] == payload;
  }

  // ---------- Encryption ----------

  /** `encryptmsg`; the header stays readable, nothing is written if the result does not fit. */
  function Encrypt(maxlen: nat, packet: seq<byte>, seal: seq<byte> -> seq<byte>): seq<byte>
    requires |packet| >= HEADERLEN
  {
    if maxlen < |packet| + SEALBYTES then [] else packet[..HEADERLEN] + seal(packet[HEADERLEN..])
  }

  /** `decryptmsg`; what cannot be opened is returned as it is. */
  function Decrypt(packet: seq<byte>, open: seq<byte> -> Option<seq<byte>>): seq<byte> {
    if |packet| <= HEADERLEN then packet
    else if open(packet[HEADERLEN..]).None? then packet
    else packet[..HEADERLEN] + open(packet[HEADERLEN..]).value
  }

  /** `encryptmsg` */
  method EncryptMsg(destmsg: array<byte>, maxlen: nat, srcmsg: seq<byte>, seal: seq<byte> -> seq<byte>) returns (n: nat)
    requires |srcmsg| >= HEADERLEN && maxlen <= destmsg.Length
    requires |seal(srcmsg[HEADERLEN..])| == |srcmsg| - HEADERLEN + SEALBYTES
    modifies destmsg
    ensures n <= maxlen && destmsg[..n] == Encrypt(maxlen, srcmsg, seal)
    ensures n == 0 ==> destmsg[..] == old(destmsg[..])
    ensures n == 0 <==> maxlen < |srcmsg| + SEALBYTES
    ensures n > 0 ==>
              && n == |srcmsg| + SEALBYTES
              && destmsg[..HEADERLEN] == srcmsg[..HEADERLEN] && destmsg[HEADERLEN..n] == seal(srcmsg[HEADERLEN..])
  {
    if maxlen < |srcmsg| + SEALBYTES {
      return 0;
    }
    n := |srcmsg| + SEALBYTES;
    HeadAndBody(destmsg, srcmsg[..HEADERLEN], seal(srcmsg[HEADERLEN..]));
    assert destmsg[..HEADERLEN] == destmsg[..n][..HEADERLEN] && destmsg[HEADERLEN..n] == destmsg[..n][HEADERLEN..];
  }

  /** `decryptmsg` */
  method DecryptMsg(destmsg: array<byte>, srcmsg: seq<byte>, open: seq<byte> -> Option<seq<byte>>) returns (n: nat)
    requires |srcmsg| <= destmsg.Length
    requires |srcmsg| > HEADERLEN ==>
               var plain := open(srcmsg[HEADERLEN..]);
               plain.Some? ==> |plain.value| + SEALBYTES == |srcmsg| - HEADERLEN
    modifies destmsg
    ensures n <= |srcmsg| && destmsg[..n] == Decrypt(srcmsg, open)
    ensures |srcmsg| <= HEADERLEN || open(srcmsg[HEADERLEN..]).None? ==> destmsg[..n] == srcmsg
    ensures |srcmsg| > HEADERLEN && open(srcmsg[HEADERLEN..]).Some? ==>
              && n == |srcmsg| - SEALBYTES && destmsg[..HEADERLEN] == srcmsg[..HEADERLEN]
              && destmsg[HEADERLEN..n] == open(srcmsg[HEADERLEN..]).value
  {
    if |srcmsg| <= HEADERLEN {
      Store(destmsg, 0, srcmsg);
      return |srcmsg|;
    }
    var plain := open(srcmsg[HEADERLEN..]);
    if plain.None? {
      Store(destmsg, 0, srcmsg);
      return |srcmsg|;
    }
    HeadAndBody(destmsg, srcmsg[..HEADERLEN], plain.value);
    n := |srcmsg| - SEALBYTES;
    assert destmsg[..HEADERLEN] == destmsg[..n][..HEADERLEN] && destmsg[HEADERLEN..n] == destmsg[..n][HEADERLEN..];
  }

  method HeadAndBody(destmsg: array<byte>, head: seq<byte>, body: seq<byte>)
    requires |head| + |body| <= destmsg.Length
    modifies destmsg
    ensures destmsg[..|head| + |body|] == head + body
  {
    Store(destmsg, 0, head);
    ghost var after := destmsg[..];
    assert after[..|head|] == head;
    Store(destmsg, |head|, body);
    assert destmsg[..] == head + body + after[|head| + |body|..];
  }

  /** Decryption undoes encryption, whose result is longer by the fixed overhead. */
  lemma EncryptRoundTrip(maxlen: nat, packet: seq<byte>, seal: seq<byte> -> seq<byte>,
                         open: seq<byte> -> Option<seq<byte>>)
    requires |packet| >= HEADERLEN && maxlen >= |packet| + SEALBYTES
    requires forall m :: |seal(m)| == |m| + SEALBYTES && open(seal(m)) == Some(m)
    ensures |Encrypt(maxlen, packet, seal)| == |packet| + SEALBYTES
    ensures Decrypt(Encrypt(maxlen, packet, seal), open) == packet
  {
    var sealed := Encrypt(maxlen, packet, seal);
    assert sealed[HEADERLEN..] == seal(packet[HEADERLEN..]) && sealed[..HEADERLEN] == packet[..HEADERLEN];
  }
}
