/**
  The TCP tunnel: datagrams framed by a four-byte length, written and read in arbitrary pieces.
  A socket is a plan of results; errors and end of file are permanent.
 */
module Tunnel {
  import opened Numbers
  import opened Wire

  // ---------- Frames ----------

  function Frame(d: seq<byte>): (f: seq<byte>)
    requires |d| <= BUFSIZE
    ensures |f| == 4 + |d|
  {
    Bytes4(|d|) + d
  }

  /** The length comes first, least significant byte first, then the datagram. */
  lemma FrameLayout(d: seq<byte>)
    requires |d| <= BUFSIZE
    ensures var f := Frame(d);
            && f[0] as int + 0x100 * f[1] as int + 0x1_0000 * f[2] as int + 0x100_0000 * f[3] as int == |d|
            && f[4..] == d
  {
    Bytes4RoundTrip(|d|);
  }

  ghost predicate Fitting(ds: seq<seq<byte>>) {
    forall k :: 0 <= k < |ds| ==> |ds[k]| <= BUFSIZE
  }

  /** The bytes that carry the datagrams. */
  function Framed(ds: seq<seq<byte>>): seq<byte>
    requires Fitting(ds)
  {
    if |ds| == 0 then [] else Frame(ds[0]) + Framed(ds[1..])
  }

  /** The datagrams whose frames are complete in the bytes, up to the first oversized one. */
  function Parse(s: seq<byte>): seq<seq<byte>> {
    if |s| < 4 then []
    else
      var size := Value4(s[..4]);
      if size > BUFSIZE || |s| < 4 + size then [] else [s[4..4 + size]] + Parse(s[4 + size..])
  }

  lemma ParseFrame(d: seq<byte>, rest: seq<byte>)
    requires |d| <= BUFSIZE
    ensures Parse(Frame(d) + rest) == [d] + Parse(rest)
  {
    var s := Frame(d) + rest;
    assert s[..4] == Bytes4(|d|);
    BytesRoundTrip(|d|, 0, 0);
    assert s[4..4 + |d|] == d && s[4 + |d|..] == rest;
  }

  lemma {:induction false} ParseFramed(ds: seq<seq<byte>>, rest: seq<byte>)
    requires Fitting(ds)
    ensures Parse(Framed(ds) + rest) == ds + Parse(rest)
  {
    hide Parse, Frame;
    if |ds| == 0 {
      assert Framed(ds) + rest == rest;
    } else {
      ParseFrame(ds[0], Framed(ds[1..]) + rest);
      ParseFramed(ds[1..], rest);
      assert Framed(ds) + rest == Frame(ds[0]) + (Framed(ds[1..]) + rest);
    }
  }

  lemma {:induction false} FramedConcat(a: seq<seq<byte>>, b: seq<seq<byte>>)
    requires Fitting(a) && Fitting(b)
    ensures Fitting(a + b) && Framed(a + b) == Framed(a) + Framed(b)
  {
    hide Frame, Framed;
    if |a| == 0 {
      assert a + b == b && a == [];
      FramedEmpty();
    } else {
      FramedConcat(a[1..], b);
      assert (a + b)[1..] == a[1..] + b && (a + b)[0] == a[0];
      FramedFirst(a);
      FramedFirst(a + b);
    }
  }

  lemma FramedFirst(ds: seq<seq<byte>>)
    requires Fitting(ds) && |ds| > 0
    ensures Fitting(ds[1..]) && |ds[0]| <= BUFSIZE && Framed(ds) == Frame(ds[0]) + Framed(ds[1..])
  {
  }

  /**
    Any initial part of the byte stream parses to exactly those datagrams whose frames have
    arrived completely, in order.
   */
  lemma {:induction false} PrefixParses(ds: seq<seq<byte>>, s: seq<byte>)
    requires Fitting(ds) && s <= Framed(ds)
    ensures var n := |Parse(s)|;
            && n <= |ds| && Parse(s) == ds[..n]
            && |Framed(ds[..n])| <= |s|
            && (n < |ds| ==> |s| < |Framed(ds[..n + 1])|)
  {
    hide Frame, Parse;
    if |ds| == 0 {
      ParseShort(s);
    } else {
      var f := Frame(ds[0]);
      assert Framed(ds) == f + Framed(ds[1..]);
      if |s| < |f| {
        PartialFrame(ds[0], Framed(ds[1..]), s);
        assert ds[..1] == [ds[0]] && Framed([ds[0]]) == f + Framed([ds[0]][1..]);
      } else {
        var rest := s[|f|..];
        assert s[..|f|] == f && s == f + rest;
        assert rest <= Framed(ds[1..]);
        PrefixParses(ds[1..], rest);
        ParseFrame(ds[0], rest);
        var n := |Parse(rest)|;
        FramedTake(ds, n + 1);
        if n + 1 < |ds| {
          FramedTake(ds, n + 2);
        }
      }
    }
  }

  lemma PartialFrame(d: seq<byte>, more: seq<byte>, s: seq<byte>)
    requires |d| <= BUFSIZE && |s| < |Frame(d)| && s <= Frame(d) + more
    ensures Parse(s) == []
  {
    hide Parse;
    if |s| >= 4 {
      assert s[..4] == (Frame(d) + more)[..4] == Bytes4(|d|);
      BytesRoundTrip(|d|, 0, 0);
    }
    ParseShort(s);
  }

  lemma FramedTake(ds: seq<seq<byte>>, n: nat)
    requires Fitting(ds) && 0 < n <= |ds|
    ensures Framed(ds[..n]) == Frame(ds[0]) + Framed(ds[1..][..n - 1])
    ensures ds[..n] == [ds[0]] + ds[1..][..n - 1]
  {
    assert ds[..n][1..] == ds[1..][..n - 1];
  }

  /**
    The tunnel as a whole: `wire` is what a sender has written for `sent`, `got` what the receiver
    has read of it. The forwarded datagrams are a prefix of those sent, exactly those that have
    arrived completely, and all of them once all bytes arrived.
   */
  lemma TunnelForwardsPrefix(sent: seq<seq<byte>>, wire: seq<byte>, got: seq<byte>)
    requires Fitting(sent) && wire <= Framed(sent) && got <= wire
    ensures Parse(got) <= sent
    ensures Parse(got) == sent <==> got == Framed(sent)
  {
    PrefixParses(sent, got);
    if got == Framed(sent) {
      ParseFramed(sent, []);
      assert got + [] == got && sent + [] == sent;
    }
  }

  // ---------- Writing ----------

  /** What the operating system will answer to the next call on a socket. */
  datatype Event =
    | Transfer(n: nat)   // some bytes are transferred
    | Again              // EAGAIN or EWOULDBLOCK
    | Stop               // meanwhile `run_server` is cleared
    | Error              // any other error, from now on
    | Eof                // nothing can be transferred any more

  /** How many calls can transfer something before the connection ends; each transfers a byte or more. */
  function Transfers(plan: seq<Event>): nat {
    if |plan| == 0 || plan[0].Stop? || plan[0].Error? || plan[0].Eof? then 0
    else Transfers(plan[1..]) + if plan[0].Transfer? then 1 else 0
  }

  datatype Io = Bytes(n: nat) | Retry | Failure | End

  /** The sending end of a connection; an exhausted plan is an error. */
  class Outbound {
    var plan: seq<Event>
    var wire: seq<byte>
    var runServer: bool

    constructor (plan: seq<Event>)
      ensures this.plan == plan && wire == [] && runServer
    {
      this.plan, wire, runServer := plan, [], true;
    }

    /** Nothing can be written any more. */
    predicate Dead()
      reads this
    {
      !runServer || |plan| == 0 || plan[0].Error? || plan[0].Eof?
    }

    /** How many transfers are still to come. */
    function Moves(): nat
      reads this
    {
      if runServer then Transfers(plan) else 0
    }

    /** `write` on the socket. */
    method Write(buf: seq<byte>) returns (r: Io)
      requires |buf| > 0 && runServer
      modifies this
      ensures r.Bytes? ==> 0 < r.n <= |buf| && wire == old(wire) + buf[..r.n] && runServer
      ensures !r.Bytes? ==> wire == old(wire)
      ensures r.Bytes? || r.Retry? ==> !old(Dead()) && |plan| < |old(plan)|
      ensures r.Failure? || r.End? ==> Dead() && plan == old(plan)
      ensures |wire| + Moves() >= old(|wire| + Moves())
    {
      if |plan| == 0 || plan[0].Error? {
        return Failure;
      }
      if plan[0].Eof? {
        return End;
      }
      var event := plan[0];
      plan := plan[1..];
      match event
      case Transfer(n) =>
        var k := if n == 0 then 1 else if n > |buf| then |buf| else n;
        wire := wire + buf[..k];
        r := Bytes(k);
      case Stop =>
        runServer := false;
        r := Retry;
      case _ =>
        r := Retry;
    }

    /** `nbwrite`; `done` bytes of the buffer have been written. */
    method NbWrite(buf: seq<byte>) returns (rcnt: int, ghost done: nat)
      modifies this
      ensures done <= |buf| && wire == old(wire) + buf[..done]
      ensures rcnt == |buf| ==> done == |buf|
      ensures rcnt != |buf| ==> Dead() && rcnt < |buf|
      ensures old(Dead()) ==> done == 0
      ensures old(Dead()) ==> Dead()
      ensures |wire| + Moves() >= old(|wire| + Moves())
    {
      var cnt: nat := |buf|;
      rcnt, done := 0, 0;
      while runServer && cnt > 0
        invariant rcnt + cnt == |buf| && rcnt == done
        invariant wire == old(wire) + buf[..done]
        invariant old(Dead()) ==> done == 0 && Dead()
        invariant |wire| + Moves() >= old(|wire| + Moves())
        decreases |plan|
      {
        var lrcnt := Write(buf[rcnt..]);
        match lrcnt
        case Bytes(n) =>
          assert buf[..done] + buf[rcnt..][..n] == buf[..done + n];
          cnt := cnt - n;
          rcnt := rcnt + n;
          done := done + n;
        case Retry =>
        case Failure =>
          return -1, done;
        case End =>
          return -2, done;
      }
    }

    /** `send`: the length, least significant byte first, and the payload. */
    method Send(buf: seq<byte>) returns (r: int, ghost done: nat)
      requires |buf| <= BUFSIZE
      modifies this
      ensures done <= 4 + |buf| && wire == old(wire) + Frame(buf)[..done]
      ensures r == |buf| ==> done == 4 + |buf|
      ensures r != |buf| ==> Dead()
      ensures old(Dead()) ==> done == 0 && Dead()
      ensures |wire| + Moves() >= old(|wire| + Moves())
    {
      var csize: seq<byte> := [|buf| % 0x100, |buf| / 0x100 % 0x100, |buf| / 0x1_0000 % 0x100, |buf| / 0x100_0000 % 0x100];
      assert csize == Bytes4(|buf|);
      var wcnt;
      wcnt, done := NbWrite(csize);
      if wcnt < 4 {
        assert Frame(buf)[..done] == csize[..done];
        return -4, done;
      }
      ghost var more;
      r, more := NbWrite(buf);
      assert Frame(buf)[..4 + more] == csize[..4] + buf[..more];
      done := 4 + more;
    }

    /** `udpreceive`: every datagram of positive length is sent, whatever became of the earlier ones. */
    method UdpReceive(datagrams: seq<seq<byte>>)
      requires wire == [] && Fitting(datagrams)
      requires forall k :: 0 <= k < |datagrams| ==> |datagrams[k]| > 0
      modifies this
      ensures wire <= Framed(datagrams)
      ensures !Dead() ==> wire == Framed(datagrams)
      ensures wire == Framed(datagrams) || |wire| >= old(Moves())
    {
      hide Framed, Frame, Fitting;
      FramedEmpty();
      assert datagrams[..0] == [];
      for i := 0 to |datagrams|
        invariant FittingTake(datagrams, i)
        invariant wire <= Framed(datagrams[..i])
        invariant !Dead() ==> wire == Framed(datagrams[..i])
        invariant |wire| + Moves() >= old(Moves())
      {
        FramedNext(datagrams, i);
        var slen, done := Send(datagrams[i]);
      }
      assert datagrams[..|datagrams|] == datagrams;
    }
  }

  ghost predicate FittingTake(ds: seq<seq<byte>>, i: nat) {
    i <= |ds| && Fitting(ds) && Fitting(ds[..i])
  }

  lemma FramedEmpty()
    ensures Fitting([]) && Framed([]) == []
  {
  }

  lemma FramedNext(ds: seq<seq<byte>>, i: nat)
    requires i < |ds| && FittingTake(ds, i)
    ensures FittingTake(ds, i + 1) && |ds[i]| <= BUFSIZE
    ensures Framed(ds[..i + 1]) == Framed(ds[..i]) + Frame(ds[i])
  {
    FramedConcat(ds[..i], [ds[i]]);
    assert ds[..i + 1] == ds[..i] + [ds[i]];
    FramedOne(ds[i]);
  }

  // ---------- Reading ----------

  /** The receiving end: `incoming` is all the network will bring, `pos` how much was read. */
  class Inbound {
    var plan: seq<Event>
    const incoming: seq<byte>
    var pos: nat
    var runServer: bool
    var forwarded: seq<seq<byte>>

    constructor (plan: seq<Event>, incoming: seq<byte>)
      ensures this.plan == plan && this.incoming == incoming && pos == 0 && runServer && forwarded == []
    {
      this.plan, this.incoming, pos, runServer, forwarded := plan, incoming, 0, true, [];
    }

    ghost predicate Valid()
      reads this
    {
      pos <= |incoming|
    }

    predicate Dead()
      reads this
    {
      !runServer || |plan| == 0 || plan[0].Error? || plan[0].Eof?
    }

    /** How many transfers are still to come. */
    function Moves(): nat
      reads this
    {
      if runServer then Transfers(plan) else 0
    }

    /** `read` on the socket into the buffer, from position `at`. */
    method Read(buf: array<byte>, at: nat, cnt: nat) returns (r: Io)
      requires Valid() && 0 < cnt && at + cnt <= buf.Length && runServer
      modifies this`plan, this`pos, this`runServer, buf
      ensures Valid()
      ensures r.Bytes? ==>
                && 0 < r.n <= cnt && pos == old(pos) + r.n && runServer
                && buf[..at + r.n] == old(buf[..at]) + incoming[old(pos)..pos]
      ensures !r.Bytes? ==> pos == old(pos) && buf[..] == old(buf[..])
      ensures r.Bytes? || r.Retry? ==> !old(Dead()) && |plan| < |old(plan)|
      ensures r.Failure? || r.End? ==> Dead() && plan == old(plan) && runServer
      ensures pos + Moves() >= old(pos + Moves()) || pos == |incoming|
    {
      if |plan| == 0 || plan[0].Error? {
        return Failure;
      }
      if plan[0].Eof? {
        return End;
      }
      var event := plan[0];
      plan := plan[1..];
      if event.Stop? {
        runServer := false;
      }
      if event.Transfer? && pos < |incoming| {
        var most := if cnt < |incoming| - pos then cnt else |incoming| - pos;
        var k := if event.n == 0 then 1 else if event.n > most then most else event.n;
        Store(buf, at, incoming[pos..pos + k]);
        pos := pos + k;
        return Bytes(k);
      }
      return Retry;
    }

    /** `nbread` */
    method NbRead(buf: array<byte>, want: nat) returns (rcnt: int)
      requires Valid() && want <= buf.Length
      modifies this`plan, this`pos, this`runServer, buf
      ensures Valid() && old(pos) <= pos <= old(pos) + want && rcnt <= want
      ensures rcnt == want ==> buf[..want] == incoming[old(pos)..pos]
      ensures rcnt != want ==> Dead() && pos - old(pos) < want
      ensures rcnt < 0 <==> runServer && pos - old(pos) < want
      ensures old(Dead()) ==> Dead() && pos == old(pos)
      ensures pos + Moves() >= old(pos + Moves()) || pos == |incoming|
    {
      var cnt: nat := want;
      var at: nat := 0;
      while runServer && cnt > 0
        invariant Valid() && at + cnt == want && pos == old(pos) + at
        invariant buf[..at] == incoming[old(pos)..pos]
        invariant old(Dead()) ==> Dead() && at == 0
        invariant pos + Moves() >= old(pos + Moves()) || pos == |incoming|
        decreases |plan|
      {
        ghost var filled, from := buf[..], pos;
        var lrcnt := Read(buf, at, cnt);
        assert filled[..at] == incoming[old(pos)..from];
        assert !lrcnt.Bytes? ==> buf[..at] == filled[..at];
        match lrcnt
        case Bytes(n) =>
          assert incoming[old(pos)..from] + incoming[from..pos] == incoming[old(pos)..pos];
          cnt := cnt - n;
          at := at + n;
        case Retry =>
        case Failure =>
          return -1;
        case End =>
          return -2;
      }
      return at;
    }

    /** Everything read so far is the frames of what was forwarded and the start `rest` of another. */
    ghost predicate Consumed(rest: seq<byte>)
      reads this
    {
      Valid() && Fitting(forwarded) && incoming[..pos] == Framed(forwarded) + rest && Parse(rest) == []
    }

    /** The bytes begin with a length that exceeds the buffer. */
    predicate Oversized(rest: seq<byte>) {
      |rest| >= 4 && Value4(rest[..4]) > BUFSIZE
    }

    /** Reads the length of a frame; false if it is incomplete. */
    method ReadHeader(ghost rest: seq<byte>) returns (ok: bool, csize: array<byte>, ghost left: seq<byte>)
      requires Consumed(rest) && (rest != [] ==> Dead())
      modifies this`plan, this`pos, this`runServer
      ensures Valid() && old(pos) <= pos && fresh(csize) && csize.Length == 4
      ensures !ok ==> Consumed(left)
      ensures ok ==> rest == [] && left == csize[..] && pos == old(pos) + 4
      ensures ok ==> incoming[..pos] == Framed(forwarded) + left
      ensures !ok ==> Dead()
      ensures pos + Moves() >= old(pos + Moves()) || pos == |incoming|
    {
      hide Framed, Parse, Fitting;
      ghost var start := pos;
      csize := new byte[4];
      var cnt := NbRead(csize, 4);
      ghost var header := incoming[start..pos];
      left := rest + header;
      ReadOn(incoming, start, pos, Framed(forwarded), rest);
      ok := cnt >= 4;
      if ok {
        assert header == csize[..] && rest == [] && left == header;
      } else if rest == [] {
        assert left == header;
        ParseShort(header);
      } else {
        assert header == [] && left == rest;
      }
    }

    /**
      One round of the frame loop; false if the loop is left. `zeroAt` is where the program stores a
      terminating zero: inside the buffer exactly if a complete frame is shorter than the buffer, or
      reading an incomplete one was stopped rather than failed. A store outside is not carried out.
     */
    method HandleFrame(buf: array<byte>, ghost rest: seq<byte>)
      returns (more: bool, ghost left: seq<byte>, ghost zeroAt: int)
      requires Consumed(rest) && (rest != [] ==> Dead()) && buf.Length == BUFSIZE
      modifies this, buf
      ensures Consumed(left) && old(pos) <= pos
      ensures more ==> rest == [] && old(pos) < pos && (left != [] ==> Dead())
      ensures left == [] && more ==> forwarded != [] && forwarded[..|forwarded| - 1] == old(forwarded)
      ensures !more || left != [] ==> forwarded == old(forwarded)
      ensures more ==> (0 <= zeroAt < BUFSIZE <==>
                          if left == [] then |forwarded[|forwarded| - 1]| < BUFSIZE else !runServer)
      ensures !more ==> Dead() || Oversized(left)
      ensures pos + Moves() >= old(pos + Moves()) || pos == |incoming|
    {
      hide Framed, Frame, Parse, Fitting;
      var ok, csize;
      ok, csize, left := ReadHeader(rest);
      if !ok {
        return false, left, 0;
      }
      ghost var header := left;
      assert header[..4] == header;
      var size := Value4(csize[..]);
      if size > BUFSIZE {
        ParseShort(header);
        return false, left, 0;
      }
      ghost var body := pos;
      var cnt := NbRead(buf, size);
      if 0 <= cnt < BUFSIZE {
        buf[cnt] := 0;
      }
      ghost var payload := incoming[body..pos];
      ReadOn(incoming, body, pos, Framed(forwarded), header);
      if cnt == size {
        assert buf[..cnt] == payload;
        ForwardNext(forwarded, payload, header);
        forwarded := forwarded + [buf[..cnt]];
        left := [];
        ParseShort([]);
        assert Framed(forwarded) + left == Framed(forwarded);
      } else {
        left := header + payload;
        assert left[..4] == header;
        ParseShort(left);
      }
      return true, left, cnt;
    }

    /**
      The frame loop of `handleconnection`: complete frames are forwarded as they are read. It ends
      when nothing can be read any more, or at an oversized frame.
     */
    method HandleConnection()
      requires Valid() && pos == 0 && forwarded == []
      modifies this
      ensures Valid() && forwarded == Parse(incoming[..pos])
      ensures exists rest :: Consumed(rest) && (Dead() || Oversized(rest))
      ensures pos >= old(Moves()) || pos == |incoming| || exists rest :: Consumed(rest) && Oversized(rest)
    {
      hide Framed, Frame, Parse, Fitting;
      FramedEmpty();
      ParseShort([]);
      var buf := new byte[BUFSIZE];
      ghost var rest := [];
      while runServer
        invariant Consumed(rest) && fresh(buf)
        invariant rest != [] ==> Dead()
        invariant pos + Moves() >= old(Moves()) || pos == |incoming|
        decreases if rest == [] then 1 else 0, |incoming| - pos
      {
        var more;
        ghost var zeroAt;
        more, rest, zeroAt := HandleFrame(buf, rest);
        if !more {
          break;
        }
      }
      ParseForwarded(forwarded, rest);
    }
  }

  lemma ReadOn(incoming: seq<byte>, from: nat, to: nat, done: seq<byte>, rest: seq<byte>)
    requires from <= to <= |incoming| && incoming[..from] == done + rest
    ensures incoming[..to] == done + (rest + incoming[from..to])
  {
    assert incoming[..to] == incoming[..from] + incoming[from..to];
  }

  /** Less than a frame, or the header of an oversized one, parses to nothing. */
  lemma ParseShort(s: seq<byte>)
    ensures |s| < 4 || Value4(s[..4]) > BUFSIZE || |s| < 4 + Value4(s[..4]) ==> Parse(s) == []
  {
  }

  lemma ForwardNext(forwarded: seq<seq<byte>>, d: seq<byte>, header: seq<byte>)
    requires Fitting(forwarded) && |header| == 4 && Value4(header) == |d| <= BUFSIZE
    ensures Fitting(forwarded + [d])
    ensures Framed(forwarded + [d]) == Framed(forwarded) + (header + d)
  {
    hide Framed;
    assert Bytes4(|d|) == header;
    assert Frame(d) == header + d;
    FramedConcat(forwarded, [d]);
    FramedOne(d);
  }

  lemma FramedOne(d: seq<byte>)
    requires |d| <= BUFSIZE
    ensures Fitting([d]) && Framed([d]) == Frame(d)
  {
    hide Frame;
    assert Framed([d]) == Frame(d) + Framed([d][1..]);
  }

  lemma ParseForwarded(forwarded: seq<seq<byte>>, rest: seq<byte>)
    requires Fitting(forwarded) && Parse(rest) == []
    ensures Parse(Framed(forwarded) + rest) == forwarded
  {
    ParseFramed(forwarded, rest);
  }

  /** What has been read of proper frames never ends in the header of an oversized one. */
  lemma NotOversized(sent: seq<seq<byte>>, forwarded: seq<seq<byte>>, rest: seq<byte>)
    requires Fitting(sent) && Fitting(forwarded) && Framed(forwarded) + rest <= Framed(sent) && Parse(rest) == []
    requires |rest| >= 4
    ensures Value4(rest[..4]) <= BUFSIZE
  {
    hide Framed, Frame, Parse;
    var got := Framed(forwarded) + rest;
    ParseForwarded(forwarded, rest);
    PrefixParses(sent, got);
    var n := |forwarded|;
    assert sent == sent[..n] + sent[n..];
    FramedConcat(sent[..n], sent[n..]);
    assert Framed(sent)[..|got|] == got;
    assert Framed(sent[n..]) == Framed(sent)[|Framed(forwarded)|..];
    if n < |sent| {
      FramedFirst(sent[n..]);
      HeaderOf(sent[n..][0], Framed(sent[n..][1..]));
      assert rest[..4] == Framed(sent[n..])[..4];
    } else {
      assert sent[n..] == [];
      FramedEmpty();
      assert false;
    }
  }

  lemma HeaderOf(d: seq<byte>, more: seq<byte>)
    requires |d| <= BUFSIZE
    ensures Value4((Frame(d) + more)[..4]) == |d|
  {
    assert (Frame(d) + more)[..4] == Bytes4(|d|);
    Bytes4RoundTrip(|d|);
  }

  /**
    A connection from end to end, for every plan of both sockets. If both sockets transfer something
    often enough, all datagrams arrive.
   */
  method Carry(sent: seq<seq<byte>>, writing: seq<Event>, reading: seq<Event>)
    returns (received: seq<seq<byte>>, written: nat, read: nat)
    requires Fitting(sent) && forall k :: 0 <= k < |sent| ==> |sent[k]| > 0
    ensures read <= written <= |Framed(sent)|
    ensures received == Parse(Framed(sent)[..read]) && received <= sent
    ensures received == sent <==> read == |Framed(sent)|
    ensures written == |Framed(sent)| || written >= Transfers(writing)
    ensures read == written || read >= Transfers(reading)
    ensures Transfers(writing) >= |Framed(sent)| && Transfers(reading) >= |Framed(sent)| ==> received == sent
  {
    var outbound := new Outbound(writing);
    outbound.UdpReceive(sent);
    var inbound := new Inbound(reading, outbound.wire);
    inbound.HandleConnection();
    forall rest | inbound.Consumed(rest) ensures !inbound.Oversized(rest) {
      if |rest| >= 4 {
        assert Framed(inbound.forwarded) + rest <= outbound.wire <= Framed(sent);
        NotOversized(sent, inbound.forwarded, rest);
      }
    }
    received, written, read := inbound.forwarded, |outbound.wire|, inbound.pos;
    ghost var got := inbound.incoming[..read];
    assert got == Framed(sent)[..read];
    TunnelForwardsPrefix(sent, outbound.wire, got);
  }
}
