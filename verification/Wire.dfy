/**
  The packet format: a header of session secret, sender id, destination port and sequence number,
  followed by the payload. Multi-byte fields are little-endian, as on the supported hosts.
 */
module Wire {
  import opened Numbers

  const BUFSIZE: nat := 8192
  const POS_CALLERID: nat := 4
  const POS_PORT: nat := 5
  const POS_SEQ: nat := 7
  const HEADERLEN: nat := 9

  /// `crypto_box_SEALBYTES`, by which encryption makes a payload longer
  const SEALBYTES: nat := 48

  const PORT_PING: u16 := 2
  const PORT_PONG: u16 := 3
  const PORT_PING_SRV: u16 := 7
  const PORT_PONG_SRV: u16 := 8
  const PORT_PING_LOCAL: u16 := 9
  const PORT_PONG_LOCAL: u16 := 10

  // ---------- Packets as byte sequences ----------

  function Bytes2(x: u16): (b: seq<byte>)
    ensures |b| == 2
  {
    [x % 0x100, x / 0x100]
  }

  function Bytes4(x: u32): (b: seq<byte>)
    ensures |b| == 4
  {
    [x % 0x100, x / 0x100 % 0x100, x / 0x1_0000 % 0x100, x / 0x100_0000]
  }

  function Value2(b: seq<byte>): u16
    requires |b| == 2
  {
    b[0] as int + 0x100 * b[1] as int
  }

  function Value4(b: seq<byte>): u32
    requires |b| == 4
  {
    b[0] as int + 0x100 * b[1] as int + 0x1_0000 * b[2] as int + 0x100_0000 * b[3] as int
  }

  /** The two's complement bits of a sequence number. */
  function Bits(num: i16): u16 {
    num % 0x1_0000
  }

  function Packet(secret: u32, cid: byte, port: u16, num: i16, payload: seq<byte>): (p: seq<byte>)
    ensures |p| == HEADERLEN + |payload|
  {
    Bytes4(secret) + [cid] + Bytes2(port) + Bytes2(Bits(num)) + payload
  }

  function SecretOf(p: seq<byte>): u32
    requires |p| >= HEADERLEN
  {
    Value4(p[..POS_CALLERID])
  }

  function CidOf(p: seq<byte>): byte
    requires |p| >= HEADERLEN
  {
    p[POS_CALLERID]
  }

  function PortOf(p: seq<byte>): u16
    requires |p| >= HEADERLEN
  {
    Value2(p[POS_PORT..POS_SEQ])
  }

  function NumOf(p: seq<byte>): i16
    requires |p| >= HEADERLEN
  {
    Wrap16(Value2(p[POS_SEQ..HEADERLEN]))
  }

  lemma BytesRoundTrip(s: u32, x: u16, num: i16)
    ensures Value4(Bytes4(s)) == s && Value2(Bytes2(x)) == x && Wrap16(Value2(Bytes2(Bits(num)))) == num
  {
    hide Wrap16, Bits, Bytes4, Value4, Bytes2, Value2;
    Bytes4RoundTrip(s);
    Bytes2RoundTrip(x);
    Bytes2RoundTrip(Bits(num));
    BitsRoundTrip(num);
  }

  lemma Bytes4RoundTrip(s: u32)
    ensures Value4(Bytes4(s)) == s
  {
    var a: int, b: int, c: int := s / 0x100, s / 0x1_0000, s / 0x100_0000;
    assert s == 0x100 * a + s % 0x100;
    assert a == 0x100 * b + a % 0x100;
    assert b == 0x100 * c + b % 0x100;
  }

  lemma Bytes2RoundTrip(x: u16)
    ensures Value2(Bytes2(x)) == x
  {
  }

  lemma BitsRoundTrip(num: i16)
    ensures Wrap16(Bits(num)) == num
  {
  }

  /** Every header field and the payload can be read back from a packet. */
  lemma PacketRoundTrip(secret: u32, cid: byte, port: u16, num: i16, payload: seq<byte>)
    ensures var p := Packet(secret, cid, port, num, payload);
            && SecretOf(p) == secret && CidOf(p) == cid && PortOf(p) == port && NumOf(p) == num
            && p[HEADERLEN..] == payload
  {
    var p := Packet(secret, cid, port, num, payload);
    BytesRoundTrip(secret, port, num);
    assert p[..POS_CALLERID] == Bytes4(secret);
    assert p[POS_PORT..POS_SEQ] == Bytes2(port);
    assert p[POS_SEQ..HEADERLEN] == Bytes2(Bits(num));
  }

  /** Where each field is, byte by byte. */
  lemma PacketLayout(secret: u32, cid: byte, port: u16, num: i16, payload: seq<byte>)
    ensures var p := Packet(secret, cid, port, num, payload);
            && |p| == 9 + |payload| && p[9..] == payload
            && p[0] as int + 0x100 * p[1] as int + 0x1_0000 * p[2] as int + 0x100_0000 * p[3] as int == secret
            && p[4] == cid
            && p[5] as int + 0x100 * p[6] as int == port
            && (p[7] as int + 0x100 * p[8] as int - num) % 0x1_0000 == 0
  {
    PacketRoundTrip(secret, cid, port, num, payload);
  }

  // ---------- Packing into a buffer ----------

  lemma Extend(head: seq<byte>, tail: seq<byte>, more: seq<byte>)
    requires |more| <= |tail|
    ensures (head + tail)[..|head|] + more + (head + tail)[|head| + |more|..] == (head + more) + tail[|more|..]
  {
  }

  lemma PutNext(buf: seq<byte>, src: seq<byte>, at: nat, k: nat)
    requires at + k < |buf| && k < |src|
    ensures (buf[..at] + src[..k] + buf[at + k..])[at + k := src[k]] == buf[..at] + src[..k + 1] + buf[at + k + 1..]
  {
    assert src[..k + 1] == src[..k] + [src[k]];
    assert buf[at + k..] == [buf[at + k]] + buf[at + k + 1..];
  }

  /** `memcpy` of `src` to position `at` of a buffer. */
  method Store(buf: array<byte>, at: nat, src: seq<byte>)
    requires at + |src| <= buf.Length
    modifies buf
    ensures buf[..] == old(buf[..at]) + src + old(buf[at + |src|..])
  {
    for k := 0 to |src|
      invariant buf[..] == old(buf[..at]) + src[..k] + old(buf[at + k..])
    {
      ghost var was := buf[..];
      buf[at + k] := src[k];
      assert buf[..] == was[at + k := src[k]];
      PutNext(old(buf[..]), src, at, k);
    }
    assert src[..|src|] == src;
  }

  method PackMsg(destbuf: array<byte>, maxlen: nat, secret: u32, cid: byte, destport: u16, num: i16, msg: seq<byte>)
    returns (n: nat)
    requires maxlen <= destbuf.Length
    modifies destbuf
    ensures maxlen < HEADERLEN + |msg| ==> n == 0 && destbuf[..] == old(destbuf[..])
    ensures maxlen >= HEADERLEN + |msg| ==>
              && n == HEADERLEN + |msg|
              && destbuf[..] == Packet(secret, cid, destport, num, msg) + old(destbuf[n..])
  {
    if maxlen < HEADERLEN + |msg| {
      return 0;
    }
    hide Bytes2, Bytes4, Bits;
    ghost var was := destbuf[..];
    ghost var a, b, c, d := Bytes4(secret), [cid], Bytes2(destport), Bytes2(Bits(num));
    Store(destbuf, 0, Bytes4(secret));
    assert destbuf[..] == a + was[4..];
    Store(destbuf, POS_CALLERID, [cid]);
    Extend(a, was[4..], b);
    assert destbuf[..] == (a + b) + was[5..];
    Store(destbuf, POS_PORT, Bytes2(destport));
    Extend(a + b, was[5..], c);
    assert destbuf[..] == (a + b + c) + was[7..];
    Store(destbuf, POS_SEQ, Bytes2(Bits(num)));
    Extend(a + b + c, was[7..], d);
    assert destbuf[..] == (a + b + c + d) + was[9..];
    Store(destbuf, HEADERLEN, msg);
    Extend(a + b + c + d, was[9..], msg);
    return HEADERLEN + |msg|;
  }

  method AddMsg(destbuf: array<byte>, maxlen: nat, currentlen: nat, msg: seq<byte>) returns (n: nat)
    requires maxlen <= destbuf.Length
    modifies destbuf
    ensures maxlen < currentlen + |msg| ==> n == 0 && destbuf[..] == old(destbuf[..])
    ensures maxlen >= currentlen + |msg| ==>
              n == currentlen + |msg| && destbuf[..] == old(destbuf[..currentlen]) + msg + old(destbuf[n..])
  {
    if maxlen < currentlen + |msg| {
      return 0;
    }
    Store(destbuf, currentlen, msg);
    return currentlen + |msg|;
  }
}
