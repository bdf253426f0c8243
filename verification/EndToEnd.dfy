/** Server and client objects put together: a run of access units through the sending
    routines, the TCP byte stream in any chunking or the datagrams as the network leaves them,
    and the receiving routines; with given keys, or with those of a key agreement. */
module EndToEnd {
  import opened Bytes
  import AriaCipher
  import AnnexB
  import Handshake
  import KeySchedule
  import Network
  import opened Reassembly
  import Srtp
  import opened PacketStream
  import Sockets
  import opened RtspServer
  import RtspClient

  lemma {:induction false} RunAppend(s: Sender, aus: seq<bytes>, au: bytes)
    ensures s.Run(aus + [au]) == s.Run(aus) + s.AfterAll(aus).PacketsOf(au)
    decreases |aus|
  {
    hide Sender.PacketsOf, Sender.After;
    if aus == [] {
      assert [au][1..] == [];
      assert s.Run([au]) == s.PacketsOf(au) + [];
    } else {
      assert (aus + [au])[1..] == aus[1..] + [au];
      RunAppend(s.After(aus[0]), aus[1..], au);
    }
  }

  lemma {:induction false} AfterAllAppend(s: Sender, aus: seq<bytes>, au: bytes)
    ensures s.AfterAll(aus + [au]) == s.AfterAll(aus).After(au)
    decreases |aus|
  {
    hide Sender.After;
    if aus == [] {
      assert [au][1..] == [];
    } else {
      assert (aus + [au])[1..] == aus[1..] + [au];
      AfterAllAppend(s.After(aus[0]), aus[1..], au);
    }
  }

  /** The sender that a server and one of its sessions make up. */
  ghost function SenderOf(server: RtspServer, s: Session): Sender
    requires server.fps > 0
    reads server, s
  {
    Sender(server.frameIndex, Clock(server.fps), s.seqNo, s.ssrc)
  }

  lemma RunNothing(s: Sender)
    ensures s.Run([]) == [] && s.AfterAll([]) == s
  {}

  /** The effect of one access unit on an active session and on the server's frame count. */
  ghost predicate UnitSent(a: View, b: View, sender: Sender, next: Sender, au: bytes) {
    && a.Active() && a.seqNo == sender.seqNo && a.ssrc == sender.ssrc
    && (if au != [] then Served(a, b, AllPayloads(AnnexB.Split(au)), sender.clock(sender.frame)) else b == a)
    && next == sender.(seqNo := b.seqNo, frame := if au != [] then (sender.frame + 1) % FRAME_WRAP else sender.frame)
  }

  lemma ServedPackets(a: View, b: View, sender: Sender, next: Sender, au: bytes)
    requires UnitSent(a, b, sender, next, au)
    ensures a.link.Carries(a.out, b.out, sender.PacketsOf(au))
    ensures next == sender.After(au) && b.link == a.link && b.Active()
  {
    hide AnnexB.Split, AllPayloads;
    if au == [] { CarriesNone(a.link, a.out); }
  }

  /** One more access unit on a run. */
  lemma RunStep(start: Sender, aus: seq<bytes>, i: nat, first: Output, a: View, b: View, sender: Sender, next: Sender)
    requires i < |aus| && UnitSent(a, b, sender, next, aus[i])
    requires a.link.Carries(first, a.out, start.Run(aus[..i])) && sender == start.AfterAll(aus[..i])
    ensures a.link.Carries(first, b.out, start.Run(aus[..i + 1])) && next == start.AfterAll(aus[..i + 1])
    ensures b.link == a.link && b.Active()
  {
    hide Link.Carries, Sender.PacketsOf, Sender.After, Sender.AfterAll, Sender.Run, UnitSent;
    ServedPackets(a, b, sender, next, aus[i]);
    assert aus[..i + 1] == aus[..i] + [aus[i]];
    RunAppend(start, aus[..i], aus[i]);
    AfterAllAppend(start, aus[..i], aus[i]);
    CarriesBoth(a.link, first, a.out, b.out, start.Run(aus[..i]), sender.PacketsOf(aus[i]));
  }

  method SendOne(server: RtspServer, s: Session, au: bytes)
    requires server.Valid() && server.running && s in server.sessions && s.Active()
    modifies server`frameIndex, (set t | t in server.sessions)`seqNo, (set t | t in server.sessions)`datagrams,
             set t | t in server.sessions :: t.sock
    ensures server.Valid() && UnitSent(old(s.Look()), s.Look(), old(SenderOf(server, s)), SenderOf(server, s), au)
  {
    hide Served, AnnexB.Split, AllPayloads;
    server.SendNal(au);
  }

  /** The encoder's callbacks, one access unit after the other, as one active session sees them. */
  method SendRun(server: RtspServer, s: Session, aus: seq<bytes>)
    requires server.Valid() && server.running && s in server.sessions && s.Active()
    modifies server`frameIndex, (set t | t in server.sessions)`seqNo, (set t | t in server.sessions)`datagrams,
             set t | t in server.sessions :: t.sock
    ensures server.Valid() && s.LinkOf() == old(s.LinkOf())
    ensures s.LinkOf().Carries(old(s.Out()), s.Out(), old(SenderOf(server, s)).Run(aus))
    ensures SenderOf(server, s) == old(SenderOf(server, s)).AfterAll(aus)
  {
    hide Link.Carries, Sender.AfterAll, Sender.Run, UnitSent, SenderOf;
    ghost var start, l, first := SenderOf(server, s), s.LinkOf(), s.Out();
    CarriesNone(l, first);
    RunNothing(start);
    for i := 0 to |aus|
      invariant server.Valid() && server.running && s.Look().Active() && s.Look().link == l
      invariant l.Carries(first, s.Look().out, start.Run(aus[..i]))
      invariant SenderOf(server, s) == start.AfterAll(aus[..i])
    {
      ghost var before, sender := s.Look(), SenderOf(server, s);
      SendOne(server, s, aus[i]);
      RunStep(start, aus, i, first, before, s.Look(), sender, SenderOf(server, s));
    }
    assert aus[..|aus|] == aus;
  }

  /** The whole path as it runs.  Over a TCP session whose keys the client shares, and with no failing
      send or receive, the client's signals are exactly the NAL units of the access units if and only
      if each of these is deliverable.  Chunking of the stream is arbitrary on both sides. */
  method Relay(server: RtspServer, s: Session, aus: seq<bytes>, cipher: AriaCipher.AriaCipher, authKey: bytes)
    returns (client: RtspClient.RtspClient)
    requires server.Valid() && server.running && s in server.sessions && s.Active() && s.tcpTransport
    requires cipher.Valid() && cipher.Ready()
    requires cipher.key == s.cipher.key && cipher.iv == s.cipher.iv && authKey == s.authKey
    modifies server`frameIndex, (set t | t in server.sessions)`seqNo, (set t | t in server.sessions)`datagrams,
             set t | t in server.sessions :: t.sock
    ensures s.sock.clean && client.control.clean ==>
              (client.received == AllNals(aus) <==> forall n | n in AllNals(aus) :: Deliverable(n))
  {
    hide Wire, AllNals, Deliverable, Sender.Run, Srtp.AcceptedPayloads, Deliver, AriaCipher.CipherOf;
    var already := |s.sock.sent|;
    ghost var start := SenderOf(server, s);
    SendRun(server, s, aus);
    var stream := if already <= |s.sock.sent| then s.sock.sent[already..] else [];
    client := ReceiveTcp(stream, cipher, authKey, s.hmac);
    if s.sock.clean && client.control.clean {
      assert stream == Wire(s.hmac, s.Keys(), s.rtpChannel, start.Run(aus));
      ReceivedFrom(s.hmac, s.cipher.key, s.cipher.iv, authKey, s.rtpChannel, start, aus, stream);
    }
  }

  /** A new client on a byte stream. */
  method ReceiveTcp(stream: bytes, cipher: AriaCipher.AriaCipher, authKey: bytes, hmac: Srtp.Hmac)
    returns (client: RtspClient.RtspClient)
    requires cipher.Valid() && cipher.Ready()
    ensures var k := Srtp.MediaKeys(AriaCipher.CipherOf(cipher.key, cipher.iv), authKey);
            client.control.clean ==>
              client.received == Deliver(State([], false), Srtp.AcceptedPayloads(hmac, k, stream)).emitted
  {
    hide Srtp.AcceptedPayloads, Deliver, AriaCipher.CipherOf;
    var control := new Sockets.InSocket(stream);
    client := new RtspClient.RtspClient(control, cipher, authKey, hmac);
    client.RtpLoop();
  }

  /** The client's signals when it starts on exactly the bytes of a run. */
  lemma ReceivedFrom(hmac: Srtp.Hmac, key: KeySchedule.UserKey, iv: Network.Block, authKey: bytes, channel: byte,
                     start: Sender, aus: seq<bytes>, stream: bytes)
    requires stream == Wire(hmac, Srtp.MediaKeys(AriaCipher.CipherOf(key, iv), authKey), channel, start.Run(aus))
    ensures var k := Srtp.MediaKeys(AriaCipher.CipherOf(key, iv), authKey);
            var received := Deliver(State([], false), Srtp.AcceptedPayloads(hmac, k, stream)).emitted;
            received == AllNals(aus) <==> forall n | n in AllNals(aus) :: Deliverable(n)
  {
    hide Wire, AllNals, Deliverable, Sender.Run, Srtp.AcceptedPayloads, Deliver, AriaCipher.CipherOf;
    AriaCipher.CipherSelfInverse(key, iv);
    var k := Srtp.MediaKeys(AriaCipher.CipherOf(key, iv), authKey);
    EndToEnd(hmac, k, channel, start, aus, State([], false), stream);
  }

  /** The whole path over UDP.  `order` is what the network makes of the datagrams: any may be lost,
      repeated or overtaken.  The client's signals are what reassembly makes of exactly these payloads;
      with none lost and in order they are the NAL units of the access units if and only if each is
      deliverable, and if each unit loses only last packets they are the units that arrive whole. */
  method RelayUdp(server: RtspServer, s: Session, aus: seq<bytes>, cipher: AriaCipher.AriaCipher, authKey: bytes,
                  order: seq<nat>)
    returns (client: RtspClient.RtspClient)
    requires server.Valid() && server.running && s in server.sessions && s.Active() && !s.tcpTransport
    requires cipher.Valid() && cipher.Ready()
    requires cipher.key == s.cipher.key && cipher.iv == s.cipher.iv && authKey == s.authKey
    requires Within(order, PacketCount(aus))
    modifies server`frameIndex, (set t | t in server.sessions)`seqNo, (set t | t in server.sessions)`datagrams,
             set t | t in server.sessions :: t.sock
    ensures ReceivedUdp(aus, order, client.received)
    ensures order == seq(PacketCount(aus), i => i) ==>
              (client.received == AllNals(aus) <==> forall n | n in AllNals(aus) :: Deliverable(n))
    ensures forall ts | OnlyTails(ts, aus, order) :: client.received == Complete(ts)
  {
    hide AllNals, Deliverable, Sender.Run, Srtp.AcceptedDatagrams, Deliver, AriaCipher.CipherOf, Datagrams, PacketCount,
         ReceivedUdp, OnlyTails, Complete;
    var already := |s.datagrams|;
    ghost var start := SenderOf(server, s);
    SendRun(server, s, aus);
    var sent := s.datagrams[already..];
    assert sent == Datagrams(s.hmac, s.Keys(), start.Run(aus));
    UdpSizes(s.hmac, s.cipher.key, s.cipher.iv, authKey, start, aus, order);
    client := ReceiveUdp(Pick(sent, order), cipher, authKey, s.hmac);
    UdpReceived(s.hmac, s.cipher.key, s.cipher.iv, authKey, start, aus, order, client.received);
  }

  /** A new client on the datagrams that arrive. */
  method ReceiveUdp(arriving: seq<bytes>, cipher: AriaCipher.AriaCipher, authKey: bytes, hmac: Srtp.Hmac)
    returns (client: RtspClient.RtspClient)
    requires cipher.Valid() && cipher.Ready() && forall d | d in arriving :: |d| <= Srtp.BUFFER_SIZE
    ensures var k := Srtp.MediaKeys(AriaCipher.CipherOf(cipher.key, cipher.iv), authKey);
            client.received == Deliver(State([], false), Srtp.AcceptedDatagrams(hmac, k, arriving)).emitted
  {
    hide Srtp.AcceptedDatagrams, Deliver, AriaCipher.CipherOf, RtspClient.Arrived;
    var arrivals := seq(|arriving|, i requires 0 <= i < |arriving| => RtspClient.Datagram(arriving[i]));
    RtspClient.ArrivedWhole(arriving);
    var control := new Sockets.InSocket([]);
    client := new RtspClient.RtspClient(control, cipher, authKey, hmac);
    client.RtpLoopUdp(arrivals);
  }

  /** What arrives are exactly the first packets of each NAL unit, as many as `ts` says. */
  ghost predicate OnlyTails(ts: seq<Transfer>, aus: seq<bytes>, order: seq<nat>) {
    (forall t | t in ts :: t.Valid()) && NalsOf(ts) == AllNals(aus) && order == Positions(ts, 0)
  }

  /** The signals of a client that starts on the payloads at these positions. */
  ghost predicate ReceivedUdp(aus: seq<bytes>, order: seq<nat>, received: seq<bytes>) {
    && Within(order, |AllPayloads(AllNals(aus))|)
    && received == Deliver(State([], false), Pick(AllPayloads(AllNals(aus)), order)).emitted
  }

  lemma UdpSizes(hmac: Srtp.Hmac, key: KeySchedule.UserKey, iv: Network.Block, authKey: bytes,
                 s: Sender, aus: seq<bytes>, order: seq<nat>)
    requires s.frame < FRAME_WRAP && Within(order, PacketCount(aus))
    ensures var all := Datagrams(hmac, Srtp.MediaKeys(AriaCipher.CipherOf(key, iv), authKey), s.Run(aus));
            |all| == PacketCount(aus) && forall d | d in Pick(all, order) :: |d| <= Srtp.BUFFER_SIZE
  {
    hide Sender.Run, PacketBytes, PacketCount, AriaCipher.CipherOf;
    AriaCipher.CipherSelfInverse(key, iv);
    var k := Srtp.MediaKeys(AriaCipher.CipherOf(key, iv), authKey);
    RunCounts(s, aus);
    DatagramSizes(hmac, k, s, aus);
    var all := Datagrams(hmac, k, s.Run(aus));
    forall d | d in Pick(all, order) ensures |d| <= Srtp.BUFFER_SIZE {
      var i :| 0 <= i < |order| && all[order[i]] == d;
    }
  }

  lemma UdpReceived(hmac: Srtp.Hmac, key: KeySchedule.UserKey, iv: Network.Block, authKey: bytes,
                    s: Sender, aus: seq<bytes>, order: seq<nat>, received: seq<bytes>)
    requires s.frame < FRAME_WRAP && Within(order, PacketCount(aus))
    requires var k := Srtp.MediaKeys(AriaCipher.CipherOf(key, iv), authKey);
             && |Datagrams(hmac, k, s.Run(aus))| == PacketCount(aus)
             && var arrived := Pick(Datagrams(hmac, k, s.Run(aus)), order);
                received == Deliver(State([], false), Srtp.AcceptedDatagrams(hmac, k, arrived)).emitted
    ensures ReceivedUdp(aus, order, received)
    ensures order == seq(PacketCount(aus), i => i) ==>
              (received == AllNals(aus) <==> forall n | n in AllNals(aus) :: Deliverable(n))
    ensures forall ts | OnlyTails(ts, aus, order) :: received == Complete(ts)
  {
    hide Sender.Run, AriaCipher.CipherOf, Srtp.AcceptedDatagrams, Deliver, Datagrams, PacketCount, AllNals, OnlyTails,
         Deliverable, Complete, AllPayloads;
    AriaCipher.CipherSelfInverse(key, iv);
    PickedAccepted(hmac, Srtp.MediaKeys(AriaCipher.CipherOf(key, iv), authKey), s, aus, order);
    UdpDelivered(aus, order, received);
  }

  lemma UdpDelivered(aus: seq<bytes>, order: seq<nat>, received: seq<bytes>)
    requires ReceivedUdp(aus, order, received) && |AllPayloads(AllNals(aus))| == PacketCount(aus)
    ensures order == seq(PacketCount(aus), i => i) ==>
              (received == AllNals(aus) <==> forall n | n in AllNals(aus) :: Deliverable(n))
    ensures forall ts | OnlyTails(ts, aus, order) :: received == Complete(ts)
  {
    hide AllNals, Deliverable, Deliver, PacketCount, AllPayloads, Positions;
    if order == seq(PacketCount(aus), i => i) {
      PickAll(AllPayloads(AllNals(aus)));
      AllNalsNonEmpty(aus);
      DeliveryExact(State([], false), AllNals(aus));
    }
    forall ts | OnlyTails(ts, aus, order) ensures received == Complete(ts) {
      PositionsPick([], ts);
      assert [] + AllPayloads(NalsOf(ts)) == AllPayloads(AllNals(aus));
      TailLoss(State([], false), ts);
    }
  }

  /** The same after a key agreement: the session has the ciphers and keys of the server's handshake
      object, the client makes its own from the client's object, and nothing else is shared. */
  method RelayAfterHandshake(server: RtspServer, s: Session, aus: seq<bytes>,
                             ghost ours: Handshake.MlKemHandshake, theirs: Handshake.MlKemHandshake,
                             ghost l: Handshake.Library, ghost sk: bytes, ghost coins: bytes,
                             ghost serverRandom: Handshake.Random, ghost clientRandom: Handshake.Random,
                             ghost toServer: bytes, ghost toClient: bytes)
    returns (client: RtspClient.RtspClient)
    requires Handshake.Completed(ours, theirs, l, sk, coins, serverRandom, clientRandom, toServer, toClient)
    requires server.Valid() && server.running && s in server.sessions && s.Active() && s.tcpTransport
    requires s.cipher.key == ours.srtpKey && s.cipher.iv == ours.srtpIv && s.authKey == ours.srtpAuthKey
    modifies server`frameIndex, (set t | t in server.sessions)`seqNo, (set t | t in server.sessions)`datagrams,
             set t | t in server.sessions :: t.sock
    ensures s.sock.clean && client.control.clean ==>
              (client.received == AllNals(aus) <==> forall n | n in AllNals(aus) :: Deliverable(n))
  {
    hide AllNals, Deliverable, Handshake.Completed;
    Handshake.PeersShareKeys(ours, theirs, l, sk, coins, serverRandom, clientRandom, toServer, toClient);
    var cipher := theirs.CreateSrtpCipher();
    client := Relay(server, s, aus, cipher, theirs.srtpAuthKey);
  }

  /** A server whose only session plays over TCP under the keys of a completed handshake. */
  method OnePlaying(ours: Handshake.MlKemHandshake, fps: nat, sock: Sockets.OutSocket, hmac: Srtp.Hmac, ssrc: u32,
                    channel: byte)
    returns (server: RtspServer, s: Session)
    requires fps > 0 && ours.complete && exists k :: ours.Holds(k)
    ensures fresh(server) && fresh(s) && server.Valid() && server.running && server.sessions == [s]
    ensures s.Active() && s.tcpTransport && s.sock == sock
    ensures s.cipher.key == ours.srtpKey && s.cipher.iv == ours.srtpIv && s.authKey == ours.srtpAuthKey
  {
    var cipher := ours.CreateSrtpCipher();
    s := new Session(sock, cipher, ours.srtpAuthKey, hmac, ssrc);
    s.playing, s.tcpTransport, s.rtpChannel := true, true, channel;
    server := new RtspServer(fps);
    server.running, server.sessions := true, [s];
  }

  /** One run through such a server, to a client with the keys of the other handshake object. */
  method PlayOnce(ours: Handshake.MlKemHandshake, theirs: Handshake.MlKemHandshake, ghost l: Handshake.Library,
                  ghost sk: bytes, ghost coins: bytes, ghost serverRandom: Handshake.Random,
                  ghost clientRandom: Handshake.Random, ghost toServer: bytes, ghost toClient: bytes,
                  fps: nat, sock: Sockets.OutSocket, hmac: Srtp.Hmac, ssrc: u32, channel: byte, aus: seq<bytes>)
    returns (client: RtspClient.RtspClient)
    requires Handshake.Completed(ours, theirs, l, sk, coins, serverRandom, clientRandom, toServer, toClient)
    requires fps > 0
    modifies sock
    ensures sock.clean && client.control.clean ==>
              (client.received == AllNals(aus) <==> forall n | n in AllNals(aus) :: Deliverable(n))
  {
    hide AllNals, Deliverable, Handshake.Completed, Separate, Session.Valid;
    Handshake.PeersShareKeys(ours, theirs, l, sk, coins, serverRandom, clientRandom, toServer, toClient);
    var server, s := OnePlaying(ours, fps, sock, hmac, ssrc, channel);
    client := RelayAfterHandshake(server, s, aus, ours, theirs, l, sk, coins, serverRandom, clientRandom,
                                  toServer, toClient);
  }

  /** From nothing shared to the picture: two new handshake objects exchange their messages, the server
      puts its keys into a new session that plays over TCP, and the run goes through it. */
  method Connect(fps: nat, hmac: Srtp.Hmac, ssrc: u32, channel: byte, aus: seq<bytes>, l: Handshake.Library,
                 sk: bytes, coins: bytes, serverRandom: Handshake.Random, clientRandom: Handshake.Random)
    returns (ok: bool, x: Handshake.Exchange, sock: Sockets.OutSocket, client: RtspClient.RtspClient?)
    requires fps > 0 && l.Correct()
    ensures ok <==> client != null
    ensures x.Clean() ==> (ok <==> Handshake.LibrarySucceeds(l, sk, coins, serverRandom, clientRandom))
    ensures ok && sock.clean && client.control.clean ==>
              (client.received == AllNals(aus) <==> forall n | n in AllNals(aus) :: Deliverable(n))
  {
    hide AllNals, Deliverable, Handshake.Completed, Handshake.LibrarySucceeds;
    var ours := new Handshake.MlKemHandshake();
    var theirs := new Handshake.MlKemHandshake();
    sock := new Sockets.OutSocket();
    client := null;
    ok, x := Handshake.Shake(ours, theirs, l, sk, coins, serverRandom, clientRandom);
    if ok {
      client := PlayOnce(ours, theirs, l, sk, coins, serverRandom, clientRandom, x.toServer, x.toClient,
                         fps, sock, hmac, ssrc, channel, aus);
    }
  }
}
