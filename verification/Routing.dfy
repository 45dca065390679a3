/** Whom a local message is sent to, and what the encryption state says about it. */
module Routing {
  import opened Numbers
  import opened Wire
  import opened Endpoints

  const B_RECEIVEDOWNMIX: bv8 := 0x02
  const B_DONOTSEND: bv8 := 0x04
  const B_SENDDOWNMIX: bv8 := 0x08
  const B_USINGPROXY: bv8 := 0x10
  const B_ENCRYPTION: bv8 := 0x20

  /** One bit of a mode mask. */
  predicate Has(mode: bv8, bit: bv8) {
    mode & bit != 0
  }

  /** What the routing depends on; `len` is the length of the packed message. */
  datatype Net = Net(mode: bv8, callerid: nat, sendlocal: bool, srvHasPubkey: bool, peers: seq<Peer>, len: nat) {
    /** The message was packed, so it is longer than its header and fits the buffer. */
    ghost predicate Valid() {
      callerid < |peers| && HEADERLEN < len <= BUFSIZE
    }

    // ---------- The recipients, peer by peer ----------

    predicate Active(i: nat)
      requires i < |peers|
    {
      peers[i].timeout > 0 && i != callerid
    }

    /** An active peer in peer-to-peer mode, of a device that is in peer-to-peer mode itself. */
    predicate Counted(i: nat)
      requires i < |peers|
    {
      Has(mode, B_PEER2PEER) && Active(i) && Has(peers[i].mode, B_PEER2PEER)
    }

    predicate SameNetwork(i: nat)
      requires Valid() && i < |peers|
    {
      peers[callerid].ep.ip == peers[i].ep.ip && peers[i].localep.ip != 0
    }

    predicate Recipient(i: nat)
      requires Valid() && i < |peers|
    {
      && Counted(i)
      && (!Has(peers[i].mode, B_DONOTSEND) || (Has(peers[i].mode, B_USINGPROXY) && SameNetwork(i)))
      && Has(peers[i].mode, B_RECEIVEDOWNMIX) == Has(mode, B_SENDDOWNMIX)
    }

    predicate PeerSealed(i: nat)
      requires i < |peers|
    {
      Has(mode, B_ENCRYPTION) && Has(peers[i].mode, B_ENCRYPTION) && peers[i].hasPubkey
    }

    function PeerCopy(i: nat): Send
      requires Valid() && i < |peers|
    {
      Send(ToPeer(i, if sendlocal && SameNetwork(i) then peers[i].localep else peers[i].ep), Data(PeerSealed(i)))
    }

    /** The server relays if this device is not peer-to-peer or some active peer is not. */
    predicate ServerNeeded() {
      !Has(mode, B_PEER2PEER) || exists i :: 0 <= i < |peers| && Active(i) && !Has(peers[i].mode, B_PEER2PEER)
    }

    predicate ServerSealed() {
      Has(mode, B_ENCRYPTION) && srvHasPubkey
    }

    /** The message or its encryption, which is empty if it does not fit the buffer. */
    function Data(encrypted: bool): Content {
      if !encrypted then Plain(len) else Sealed(if len + SEALBYTES > BUFSIZE then 0 else len + SEALBYTES)
    }

    // ---------- What the encryption state counts ----------

    /** Some counted target, or a needed server, gets (or would get) an encrypted copy. */
    predicate AnySealed() {
      (exists i :: 0 <= i < |peers| && Counted(i) && PeerSealed(i)) || (ServerNeeded() && ServerSealed())
    }

    predicate AllSealed() {
      (forall i :: 0 <= i < |peers| && Counted(i) ==> PeerSealed(i)) && (ServerNeeded() ==> ServerSealed())
    }

    function CountedBelow(n: nat): nat
      requires n <= |peers|
    {
      if n == 0 then 0 else CountedBelow(n - 1) + if Counted(n - 1) then 1 else 0
    }

    function SealedBelow(n: nat): nat
      requires n <= |peers|
    {
      if n == 0 then 0 else SealedBelow(n - 1) + if Counted(n - 1) && PeerSealed(n - 1) then 1 else 0
    }

    /** All copies for peers below `n`, in order. */
    function CopiesBelow(n: nat): seq<Send>
      requires Valid() && n <= |peers|
    {
      if n == 0 then [] else CopiesBelow(n - 1) + if Recipient(n - 1) then [PeerCopy(n - 1)] else []
    }

    /** All copies that are sent: those for the peers, then the one for the server. */
    function Copies(): seq<Send>
      requires Valid()
    {
      CopiesBelow(|peers|) + if ServerNeeded() then [Send(ToServer, Data(ServerSealed()))] else []
    }
  }

  datatype Target = ToPeer(i: nat, addr: Addr) | ToServer

  datatype Content = Plain(len: nat) | Sealed(len: nat)

  datatype Send = Send(target: Target, content: Content)

  /** The copies sent to one peer, or to the server. */
  function CopiesFor(sends: seq<Send>, peer: Option<nat>): seq<Send> {
    if |sends| == 0 then []
    else
      var s := sends[|sends| - 1];
      var mine := match s.target
                  case ToPeer(i, _) => peer == Some(i)
                  case ToServer => peer == None;
      CopiesFor(sends[..|sends| - 1], peer) + if mine then [s] else []
  }

  lemma CopiesForSnoc(sends: seq<Send>, s: Send, peer: Option<nat>)
    ensures CopiesFor(sends + [s], peer) ==
            CopiesFor(sends, peer) +
            if (match s.target case ToPeer(i, _) => peer == Some(i) case ToServer => peer == None) then [s] else []
  {
    assert (sends + [s])[..|sends|] == sends;
  }

  /** Each recipient gets one copy, every other peer none. */
  lemma {:induction false} OneCopyEach(net: Net, n: nat, peer: Option<nat>)
    requires net.Valid() && n <= |net.peers|
    ensures CopiesFor(net.CopiesBelow(n), peer) ==
            if peer.Some? && peer.value < n && net.Recipient(peer.value) then [net.PeerCopy(peer.value)] else []
  {
    hide Net.Recipient, Net.PeerCopy, Net.CopiesBelow, CopiesFor, Has;
    if n > 0 {
      OneCopyEach(net, n - 1, peer);
      CopiesBelowNext(net, n - 1, peer);
    } else {
      NoCopies(net, peer);
    }
  }

  lemma NoCopies(net: Net, peer: Option<nat>)
    requires net.Valid()
    ensures CopiesFor(net.CopiesBelow(0), peer) == []
  {
  }

  lemma CopiesBelowNext(net: Net, k: nat, peer: Option<nat>)
    requires net.Valid() && k < |net.peers|
    ensures CopiesFor(net.CopiesBelow(k + 1), peer) ==
            CopiesFor(net.CopiesBelow(k), peer) + if net.Recipient(k) && peer == Some(k) then [net.PeerCopy(k)] else []
  {
    hide Net.Recipient, Has;
    var before := net.CopiesBelow(k);
    CopiesForSnoc(before, net.PeerCopy(k), peer);
    assert before + [] == before;
  }

  /** The copies for the peers below `n` are those of the recipients among them. */
  lemma {:induction false} CopiesAre(net: Net, n: nat)
    requires net.Valid() && n <= |net.peers|
    ensures forall s :: s in net.CopiesBelow(n) <==>
                          s.target.ToPeer? && s.target.i < n && net.Recipient(s.target.i) && s == net.PeerCopy(s.target.i)
  {
    hide Net.Recipient;
    if n > 0 {
      CopiesAre(net, n - 1);
    }
  }

  /**
    Who gets what, said on the table alone: a copy goes to the local address exactly in the same
    network and if local sending is on, and is encrypted exactly if both sides can.
   */
  lemma CopiesOnTable(net: Net, s: Send)
    requires net.Valid()
    ensures s in net.Copies() && s.target.ToPeer? ==>
              && s.target.i < |net.peers|
              && var p := net.peers[s.target.i];
              && s.target.addr == (if net.sendlocal && net.peers[net.callerid].ep.ip == p.ep.ip && p.localep.ip != 0
                                   then p.localep else p.ep)
              && s.content == if Has(net.mode, B_ENCRYPTION) && Has(p.mode, B_ENCRYPTION) && p.hasPubkey
                              then Sealed(if net.len + SEALBYTES <= BUFSIZE then net.len + SEALBYTES else 0)
                              else Plain(net.len)
    ensures s in net.Copies() && s.target.ToServer? ==>
              s.content == if Has(net.mode, B_ENCRYPTION) && net.srvHasPubkey
                           then Sealed(if net.len + SEALBYTES <= BUFSIZE then net.len + SEALBYTES else 0)
                           else Plain(net.len)
  {
    hide Has;
    CopiesAre(net, |net.peers|);
  }

  /** Who gets a copy, said on the table alone. */
  lemma RecipientsOnTable(net: Net, i: nat)
    requires net.Valid() && i < |net.peers|
    ensures (exists s :: s in net.Copies() && s.target.ToPeer? && s.target.i == i) <==>
            var p := net.peers[i];
            && p.timeout > 0 && i != net.callerid
            && Has(net.mode, B_PEER2PEER) && Has(p.mode, B_PEER2PEER)
            && (Has(p.mode, B_DONOTSEND) ==>
                  Has(p.mode, B_USINGPROXY) && net.peers[net.callerid].ep.ip == p.ep.ip && p.localep.ip != 0)
            && (Has(p.mode, B_RECEIVEDOWNMIX) <==> Has(net.mode, B_SENDDOWNMIX))
    ensures (exists s :: s in net.Copies() && s.target.ToServer?) <==>
            !Has(net.mode, B_PEER2PEER)
            || exists k :: 0 <= k < |net.peers| && net.peers[k].timeout > 0 && k != net.callerid
                           && !Has(net.peers[k].mode, B_PEER2PEER)
  {
    hide Has;
    CopiesAre(net, |net.peers|);
    if net.Recipient(i) {
      assert net.PeerCopy(i) in net.Copies();
    }
    if net.ServerNeeded() {
      assert Send(ToServer, net.Data(net.ServerSealed())) in net.Copies();
    }
  }

  /** Which targets the encryption state counts, said on the table alone. */
  lemma StateOnTable(net: Net)
    requires net.Valid()
    ensures var server := !Has(net.mode, B_PEER2PEER)
                          || exists k :: 0 <= k < |net.peers| && net.peers[k].timeout > 0 && k != net.callerid
                                         && !Has(net.peers[k].mode, B_PEER2PEER);
            && (net.AnySealed() <==>
                  || (server && Has(net.mode, B_ENCRYPTION) && net.srvHasPubkey)
                  || (Has(net.mode, B_PEER2PEER) && Has(net.mode, B_ENCRYPTION) &&
                      exists k :: 0 <= k < |net.peers| && net.peers[k].timeout > 0 && k != net.callerid
                                  && Has(net.peers[k].mode, B_PEER2PEER) && Has(net.peers[k].mode, B_ENCRYPTION)
                                  && net.peers[k].hasPubkey))
            && (net.AllSealed() <==>
                  && (server ==> Has(net.mode, B_ENCRYPTION) && net.srvHasPubkey)
                  && (Has(net.mode, B_PEER2PEER) ==>
                        forall k :: 0 <= k < |net.peers| && net.peers[k].timeout > 0 && k != net.callerid
                                    && Has(net.peers[k].mode, B_PEER2PEER) ==>
                                      Has(net.mode, B_ENCRYPTION) && Has(net.peers[k].mode, B_ENCRYPTION)
                                      && net.peers[k].hasPubkey))
  {
    hide Has;
    assert forall k :: 0 <= k < |net.peers| ==>
                         (net.Active(k) <==> net.peers[k].timeout > 0 && k != net.callerid);
    assert forall k :: 0 <= k < |net.peers| ==>
                         (net.Counted(k) <==> Has(net.mode, B_PEER2PEER) && net.Active(k) && Has(net.peers[k].mode, B_PEER2PEER));
    assert forall k :: 0 <= k < |net.peers| ==>
                         (net.PeerSealed(k) <==>
                            Has(net.mode, B_ENCRYPTION) && Has(net.peers[k].mode, B_ENCRYPTION) && net.peers[k].hasPubkey);
  }

  /** The counts of targets say whether any, and whether all of them, get encrypted copies. */
  lemma {:induction false} CountsMean(net: Net, n: nat)
    requires n <= |net.peers|
    ensures net.SealedBelow(n) <= net.CountedBelow(n)
    ensures net.SealedBelow(n) > 0 <==> exists i :: 0 <= i < n && net.Counted(i) && net.PeerSealed(i)
    ensures net.SealedBelow(n) == net.CountedBelow(n) <==> forall i :: 0 <= i < n && net.Counted(i) ==> net.PeerSealed(i)
  {
    if n > 0 {
      CountsMean(net, n - 1);
    }
  }

  /** The body of the loop over all endpoints. */
  method RoutePeer(net: Net, ocid: nat) returns (copies: seq<Send>, counted: nat, sealed: nat, relay: bool)
    requires net.Valid() && ocid < |net.peers| && Has(net.mode, B_PEER2PEER)
    ensures copies == if net.Recipient(ocid) then [net.PeerCopy(ocid)] else []
    ensures counted == if net.Counted(ocid) then 1 else 0
    ensures sealed == if net.Counted(ocid) && net.PeerSealed(ocid) then 1 else 0
    ensures relay <==> net.Active(ocid) && !Has(net.peers[ocid].mode, B_PEER2PEER)
  {
    hide Has;
    copies, counted, sealed, relay := [], 0, 0, false;
    var ep := net.peers[ocid];
    if ep.timeout > 0 {
      if ocid != net.callerid {
        if Has(ep.mode, B_PEER2PEER) {
          counted := 1;
          var seal := Has(net.mode, B_ENCRYPTION) && Has(ep.mode, B_ENCRYPTION) && ep.hasPubkey;
          if seal {
            sealed := 1;
          }
          var targetInSameNetwork := net.peers[net.callerid].ep.ip == ep.ep.ip && ep.localep.ip != 0;
          if !Has(ep.mode, B_DONOTSEND) || (Has(ep.mode, B_USINGPROXY) && targetInSameNetwork) {
            if Has(ep.mode, B_RECEIVEDOWNMIX) == Has(net.mode, B_SENDDOWNMIX) {
              if net.sendlocal && targetInSameNetwork {
                copies := [Send(ToPeer(ocid, ep.localep), net.Data(seal))];
              } else {
                copies := [Send(ToPeer(ocid, ep.ep), net.Data(seal))];
              }
            }
          }
        } else {
          relay := true;
        }
      }
    }
  }

  /**
    The forwarding loop of `recsrv` for one message: a copy for every recipient, none for any other
    peer, and one for the server exactly if it is needed; together with the encryption state.
   */
  method Route(net: Net) returns (sends: seq<Send>, encryptState: nat)
    requires net.Valid()
    ensures sends == net.Copies()
    ensures forall i: nat :: i < |net.peers| ==>
                               CopiesFor(sends, Some(i)) == if net.Recipient(i) then [net.PeerCopy(i)] else []
    ensures CopiesFor(sends, None) ==
            if net.ServerNeeded() then [Send(ToServer, net.Data(net.ServerSealed()))] else []
    ensures forall i: nat :: i >= |net.peers| ==> CopiesFor(sends, Some(i)) == []
    ensures encryptState == if net.AnySealed() then (if net.AllSealed() then 2 else 1) else 0
    ensures forall k :: 0 <= k < |sends| && sends[k].target.ToPeer? ==>
                          && sends[k].target.i < |net.peers|
                          && var p := net.peers[sends[k].target.i];
                          && sends[k].target.addr ==
                             (if net.sendlocal && net.peers[net.callerid].ep.ip == p.ep.ip && p.localep.ip != 0
                              then p.localep else p.ep)
                          && (sends[k].content.Sealed? <==>
                              Has(net.mode, B_ENCRYPTION) && Has(p.mode, B_ENCRYPTION) && p.hasPubkey)
  {
    hide Has, CopiesFor, Net.Recipient, Net.PeerCopy;
    sends := [];
    var sendToServer := !Has(net.mode, B_PEER2PEER);
    var total, encrypted := 0, 0;
    if Has(net.mode, B_PEER2PEER) {
      for ocid := 0 to |net.peers|
        invariant sends == net.CopiesBelow(ocid)
        invariant sendToServer <==> exists i :: 0 <= i < ocid && net.Active(i) && !Has(net.peers[i].mode, B_PEER2PEER)
        invariant encrypted == net.SealedBelow(ocid) && total == net.CountedBelow(ocid)
      {
        var copies, counted, sealed, relay := RoutePeer(net, ocid);
        sends := sends + copies;
        total := total + counted;
        encrypted := encrypted + sealed;
        if relay {
          sendToServer := true;
        }
      }
    } else {
      NobodyCounted(net, |net.peers|);
    }
    CountsMean(net, |net.peers|);
    assert sendToServer <==> net.ServerNeeded();
    if sendToServer {
      total := total + 1;
      var seal := Has(net.mode, B_ENCRYPTION) && net.srvHasPubkey;
      if seal {
        encrypted := encrypted + 1;
      }
      sends := sends + [Send(ToServer, net.Data(seal))];
    }
    AllCopies(net, sends);
    forall k | 0 <= k < |sends| {
      CopiesOnTable(net, sends[k]);
    }
    var sendEncryptAny := encrypted > 0;
    var sendEncryptAll := sendEncryptAny && encrypted == total;
    encryptState := (if sendEncryptAny then 1 else 0) + (if sendEncryptAll then 1 else 0);
  }

  function ExpectedFor(net: Net, peer: Option<nat>): seq<Send>
    requires net.Valid()
  {
    match peer
    case Some(i) => if i < |net.peers| && net.Recipient(i) then [net.PeerCopy(i)] else []
    case None => if net.ServerNeeded() then [Send(ToServer, net.Data(net.ServerSealed()))] else []
  }

  lemma AllCopies(net: Net, sends: seq<Send>)
    requires net.Valid()
    requires sends == net.Copies()
    ensures forall peer :: CopiesFor(sends, peer) == ExpectedFor(net, peer)
  {
    var toPeers := net.CopiesBelow(|net.peers|);
    forall peer: Option<nat> ensures CopiesFor(sends, peer) == ExpectedFor(net, peer) {
      OneCopyEach(net, |net.peers|, peer);
      CopiesForSnoc(toPeers, Send(ToServer, net.Data(net.ServerSealed())), peer);
      assert toPeers + [] == toPeers;
    }
  }

  lemma {:induction false} NobodyCounted(net: Net, n: nat)
    requires net.Valid() && n <= |net.peers| && !Has(net.mode, B_PEER2PEER)
    ensures net.CopiesBelow(n) == [] && net.CountedBelow(n) == 0 && net.SealedBelow(n) == 0
  {
    if n > 0 {
      NobodyCounted(net, n - 1);
    }
  }

  // ---------- What the encryption state says about the copies ----------

  predicate AllCopiesSealed(sends: seq<Send>) {
    forall k :: 0 <= k < |sends| ==> sends[k].content.Sealed?
  }

  /** The copies for the peers below `n` are encrypted exactly if every recipient among them can decrypt. */
  lemma {:induction false} SealedCopiesBelow(net: Net, n: nat)
    requires net.Valid() && n <= |net.peers|
    ensures AllCopiesSealed(net.CopiesBelow(n)) <==>
            forall i :: 0 <= i < n && net.Recipient(i) ==> net.PeerSealed(i)
    ensures net.CopiesBelow(n) == [] <==> forall i :: 0 <= i < n ==> !net.Recipient(i)
  {
    hide Net.Recipient, Net.PeerSealed;
    if n > 0 {
      SealedCopiesBelow(net, n - 1);
      var before, copy := net.CopiesBelow(n - 1), net.PeerCopy(n - 1);
      SealedSnoc(before, copy);
      assert net.CopiesBelow(n) == if net.Recipient(n - 1) then before + [copy] else before;
      assert copy.content.Sealed? <==> net.PeerSealed(n - 1);
    }
  }

  lemma SealedSnoc(sends: seq<Send>, s: Send)
    ensures AllCopiesSealed(sends + [s]) <==> AllCopiesSealed(sends) && s.content.Sealed?
  {
    if AllCopiesSealed(sends + [s]) {
      assert (sends + [s])[|sends|] == s;
      forall k | 0 <= k < |sends| ensures sends[k].content.Sealed? {
        assert (sends + [s])[k] == sends[k];
      }
    }
  }

  /** All copies, the server's included. */
  lemma SealedCopies(net: Net)
    requires net.Valid()
    ensures AllCopiesSealed(net.Copies()) <==>
            && (forall i :: 0 <= i < |net.peers| && net.Recipient(i) ==> net.PeerSealed(i))
            && (net.ServerNeeded() ==> net.ServerSealed())
    ensures net.Copies() == [] <==>
            (forall i :: 0 <= i < |net.peers| ==> !net.Recipient(i)) && !net.ServerNeeded()
  {
    hide Net.Recipient, Net.PeerSealed, Net.ServerNeeded, Net.ServerSealed;
    SealedCopiesBelow(net, |net.peers|);
    SealedSnoc(net.CopiesBelow(|net.peers|), Send(ToServer, net.Data(net.ServerSealed())));
    assert net.CopiesBelow(|net.peers|) + [] == net.CopiesBelow(|net.peers|);
  }

  /** No peer that is counted but not sent to lacks encryption. */
  predicate UnsentSealed(net: Net)
    requires net.Valid()
  {
    forall i :: 0 <= i < |net.peers| && net.Counted(i) && !net.Recipient(i) ==> net.PeerSealed(i)
  }

  /**
    State 2 for every table: some target is counted, every copy that is sent is encrypted, and no
    peer that is counted but not sent to lacks encryption.
   */
  lemma FullStateIff(net: Net)
    requires net.Valid()
    ensures net.AnySealed() && net.AllSealed() <==>
            && AllCopiesSealed(net.Copies()) && UnsentSealed(net)
            && (net.ServerNeeded() || exists i :: 0 <= i < |net.peers| && net.Counted(i))
  {
    hide Net.PeerSealed, Net.ServerNeeded, Net.ServerSealed, Net.CopiesBelow;
    SealedCopies(net);
    if AllCopiesSealed(net.Copies()) && UnsentSealed(net) {
      forall i | 0 <= i < |net.peers| && net.Counted(i) ensures net.PeerSealed(i) {
        assert net.Recipient(i) || !net.Recipient(i);
      }
    }
  }

  /** State 2 promises that every copy is encrypted. */
  lemma FullStateMeansSealed(net: Net)
    requires net.Valid() && net.AnySealed() && net.AllSealed()
    ensures AllCopiesSealed(net.Copies())
  {
    hide *;
    FullStateIff(net);
  }

  /** When some copy is sent and all are encrypted, the state is 2 exactly if the unsent peers agree. */
  lemma SealedMeansFullState(net: Net)
    requires net.Valid() && net.Copies() != [] && AllCopiesSealed(net.Copies())
    ensures net.AnySealed() && net.AllSealed() <==> UnsentSealed(net)
  {
    hide Net.PeerSealed, Net.ServerNeeded, Net.ServerSealed, Net.CopiesBelow, Net.AnySealed, Net.AllSealed;
    FullStateIff(net);
    SealedCopies(net);
    if !net.ServerNeeded() {
      var i :| 0 <= i < |net.peers| && net.Recipient(i);
      assert net.Counted(i);
    }
  }

  /** Every copy has content exactly if the encrypted message fits, or no copy is encrypted. */
  lemma CopiesHaveContent(net: Net)
    requires net.Valid()
    ensures HaveContent(net.Copies()) <==>
            || net.len + SEALBYTES <= BUFSIZE
            || ((forall i :: 0 <= i < |net.peers| && net.Recipient(i) ==> !net.PeerSealed(i))
                && (net.ServerNeeded() ==> !net.ServerSealed()))
  {
    hide Net.PeerSealed, Net.ServerNeeded, Net.ServerSealed, Net.Recipient;
    ContentBelow(net, |net.peers|);
    var sends := net.CopiesBelow(|net.peers|);
    var server := Send(ToServer, net.Data(net.ServerSealed()));
    ContentSnoc(sends, server);
    assert net.Copies() == if net.ServerNeeded() then sends + [server] else sends;
    assert HaveContent(net.Copies()) <==> HaveContent(sends) && (net.ServerNeeded() ==> server.content.len > 0);
  }

  predicate HaveContent(sends: seq<Send>) {
    forall k :: 0 <= k < |sends| ==> sends[k].content.len > 0
  }

  lemma ContentSnoc(sends: seq<Send>, s: Send)
    ensures HaveContent(sends + [s]) <==> HaveContent(sends) && s.content.len > 0
  {
    if HaveContent(sends + [s]) {
      assert (sends + [s])[|sends|] == s;
      forall k | 0 <= k < |sends| ensures sends[k].content.len > 0 {
        assert (sends + [s])[k] == sends[k];
      }
    }
  }

  lemma {:induction false} ContentBelow(net: Net, n: nat)
    requires net.Valid() && n <= |net.peers|
    ensures HaveContent(net.CopiesBelow(n)) <==>
            net.len + SEALBYTES <= BUFSIZE || forall i :: 0 <= i < n && net.Recipient(i) ==> !net.PeerSealed(i)
  {
    hide Net.PeerSealed, Net.Recipient;
    if n > 0 {
      ContentBelow(net, n - 1);
      var before, copy := net.CopiesBelow(n - 1), net.PeerCopy(n - 1);
      ContentSnoc(before, copy);
      assert net.CopiesBelow(n) == if net.Recipient(n - 1) then before + [copy] else before;
      assert copy.content.len > 0 <==> net.len + SEALBYTES <= BUFSIZE || !net.PeerSealed(n - 1);
    }
  }

  /** A table of all peers, of which only those in `first` are there. */
  function Table(first: seq<Peer>): (t: seq<Peer>)
    requires |first| <= MAX_STAGE_ID
    ensures |t| == MAX_STAGE_ID
  {
    first + seq(MAX_STAGE_ID - |first|, k requires 0 <= k => NO_PEER)
  }

  /**
    Peers that asked not to be sent to are counted as well. Here the only copy is encrypted, but a
    peer without a key that gets nothing keeps the state at 1.
   */
  lemma SilentPeerLowersState()
    ensures var friend := NO_PEER.(timeout := 1, mode := B_PEER2PEER | B_ENCRYPTION, hasPubkey := true);
            var silent := NO_PEER.(timeout := 1, mode := B_PEER2PEER | B_DONOTSEND);
            var net := Net(B_PEER2PEER | B_ENCRYPTION, 0, false, false, Table([NO_PEER, friend, silent]), 100);
            && net.Valid() && net.Recipient(1) && net.Copies() != [] && AllCopiesSealed(net.Copies())
            && !UnsentSealed(net) && net.AnySealed() && !net.AllSealed()
  {
    var friend := NO_PEER.(timeout := 1, mode := B_PEER2PEER | B_ENCRYPTION, hasPubkey := true);
    var silent := NO_PEER.(timeout := 1, mode := B_PEER2PEER | B_DONOTSEND);
    var net := Net(B_PEER2PEER | B_ENCRYPTION, 0, false, false, Table([NO_PEER, friend, silent]), 100);
    assert net.peers[0] == NO_PEER && net.peers[1] == friend && net.peers[2] == silent;
    assert forall i :: 3 <= i < |net.peers| ==> net.peers[i] == NO_PEER;
    assert net.Recipient(1) && net.Counted(2) && !net.Recipient(2) && !net.PeerSealed(2) && net.PeerSealed(1);
    assert !net.ServerNeeded();
    SealedCopies(net);
  }

  /** The same table with a message that fills the buffer: the encrypted copy does not fit and is sent empty. */
  lemma FullMessageSentEmpty()
    ensures var friend := NO_PEER.(timeout := 1, mode := B_PEER2PEER | B_ENCRYPTION, hasPubkey := true);
            var net := Net(B_PEER2PEER | B_ENCRYPTION, 0, false, false, Table([NO_PEER, friend]), BUFSIZE);
            net.Valid() && net.Recipient(1) && net.PeerSealed(1) && !HaveContent(net.Copies())
  {
    var friend := NO_PEER.(timeout := 1, mode := B_PEER2PEER | B_ENCRYPTION, hasPubkey := true);
    var net := Net(B_PEER2PEER | B_ENCRYPTION, 0, false, false, Table([NO_PEER, friend]), BUFSIZE);
    assert net.peers[0] == NO_PEER && net.peers[1] == friend;
    assert net.Recipient(1) && net.PeerSealed(1);
    CopiesHaveContent(net);
  }
}
