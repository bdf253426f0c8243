/** The server's sending path as it runs: packet building in a fixed buffer, fragmentation,
    and distribution of one access unit to all playing sessions. */
module RtspServer {
  import opened Bytes
  import AriaCipher
  import KeySchedule
  import Network
  import AnnexB
  import opened Payload
  import opened Reassembly
  import opened Srtp
  import opened PacketStream
  import Sockets

  /** What has left a session: bytes on its TCP connection, whether every send has succeeded, and
      UDP datagrams. */
  datatype Output = Output(sent: bytes, clean: bool, datagrams: seq<bytes>)

  datatype Link = Link(hmac: Hmac, keys: MediaKeys, tcp: bool, channel: byte) {

    /** From `a` to `b` exactly the packets `ps` have been sent; on TCP, unless a send has failed. */
    ghost predicate Carries(a: Output, b: Output, ps: seq<Packet>) {
      if tcp then
        && b.datagrams == a.datagrams
        && (b.clean ==> a.clean && b.sent == a.sent + Wire(hmac, keys, channel, ps))
      else
        b == a.(datagrams := a.datagrams + Datagrams(hmac, keys, ps))
    }
  }

  datatype View = View(link: Link, out: Output, playing: bool, udpOpen: bool, seqNo: u16, ssrc: u32) {

    /** A playing session with a transport. */
    predicate Active() { playing && (link.tcp || udpOpen) }
  }

  /** The effect of one access unit with the given payloads on a session. */
  ghost predicate Served(a: View, b: View, payloads: seq<bytes>, ts: u32) {
    if a.Active() then
      && b == a.(out := b.out, seqNo := Low16(a.seqNo + |payloads|))
      && a.link.Carries(a.out, b.out, Number(payloads, a.seqNo, ts, a.ssrc, true))
    else b == a
  }

  lemma CarriesNone(l: Link, a: Output)
    ensures l.Carries(a, a, [])
  {}

  lemma CarriesBoth(l: Link, a: Output, b: Output, c: Output, ps: seq<Packet>, qs: seq<Packet>)
    requires l.Carries(a, b, ps) && l.Carries(b, c, qs)
    ensures l.Carries(a, c, ps + qs)
  {
    hide Wire, PacketBytes;
    WireConcat(l.hmac, l.keys, l.channel, ps, qs);
    assert Datagrams(l.hmac, l.keys, ps + qs) == Datagrams(l.hmac, l.keys, ps) + Datagrams(l.hmac, l.keys, qs);
  }

  class Session {
    const sock: Sockets.OutSocket
    const cipher: AriaCipher.AriaCipher
    const authKey: bytes
    const hmac: Hmac
    const ssrc: u32
    var seqNo: u16
    var playing: bool
    var tcpTransport: bool
    var udpOpen: bool
    var rtpChannel: byte
    /** The datagrams handed to the UDP socket so far. */
    var datagrams: seq<bytes>

    ghost predicate Valid()
      reads this, cipher, cipher.rdKey
    {
      cipher.Valid() && cipher.Ready()
    }

    ghost function Keys(): MediaKeys
      requires Valid()
      reads this, cipher, cipher.rdKey
    {
      MediaKeys(AriaCipher.CipherOf(cipher.key, cipher.iv), authKey)
    }

    /** Everything about this session that a send may depend on or change. */
    ghost function Look(): View
      requires Valid()
      reads this, sock, cipher, cipher.rdKey
    {
      View(LinkOf(), Out(), playing, udpOpen, seqNo, ssrc)
    }

    constructor (sock: Sockets.OutSocket, cipher: AriaCipher.AriaCipher, authKey: bytes, hmac: Hmac, ssrc: u32)
      requires cipher.Valid() && cipher.Ready()
      ensures this.sock == sock && this.cipher == cipher && this.authKey == authKey
      ensures this.hmac == hmac && this.ssrc == ssrc
      ensures Valid() && seqNo == 0 && !playing && !tcpTransport && !udpOpen && rtpChannel == 0 && datagrams == []
    {
      this.sock, this.cipher, this.authKey, this.hmac, this.ssrc := sock, cipher, authKey, hmac, ssrc;
      seqNo, playing, tcpTransport, udpOpen, rtpChannel, datagrams := 0, false, false, false, 0, [];
    }

    /** Header, encrypted payload and tag, written into a buffer of fixed size. */
    method BuildPacket(rtpTs: u32, marker: bool, payload: bytes) returns (packet: array<byte>, totalLen: nat)
      requires Valid() && |payload| <= MAX_RTP_PAYLOAD + 2
      modifies this`seqNo
      ensures seqNo == Low16(old(seqNo) + 1)
      ensures fresh(packet) && totalLen <= packet.Length && totalLen == |payload| + 22
      ensures packet[..totalLen] == Protect(hmac, Keys(), HeaderBytes(marker, old(seqNo), rtpTs, ssrc), payload)
      ensures SentAs(hmac, Keys(), packet[..totalLen], marker, old(seqNo), rtpTs, ssrc, payload)
    {
      hide AriaCipher.AriaCtr, HeaderBytes, Low16, SentAs;
      PacketForm(hmac, cipher.key, cipher.iv, authKey, marker, seqNo, rtpTs, ssrc, payload);
      var size := |payload|;
      packet := new byte[12 + MAX_RTP_PAYLOAD + 2 + AUTH_TAG_LEN];
      FillPacket(packet, marker, seqNo, rtpTs, ssrc, payload);
      ghost var header := packet[..12];
      var ok := cipher.Encrypt(packet, 12, size);
      seqNo := Low16(seqNo + 1);

      var rtpLen := 12 + size;
      ghost var rtp := header + AriaCipher.AriaCtr(cipher.key, cipher.iv, payload);
      assert packet[..rtpLen] == rtp;
      AppendTag(packet, rtpLen, hmac(authKey, packet[..rtpLen]));
      totalLen := rtpLen + AUTH_TAG_LEN;
      assert packet[..totalLen] == packet[..rtpLen] + packet[rtpLen..totalLen];
    }

    /** How this session turns packets into output. */
    ghost function LinkOf(): Link
      requires Valid()
      reads this, cipher, cipher.rdKey
    {
      Link(hmac, Keys(), tcpTransport, rtpChannel)
    }

    /** A playing session with a transport. */
    predicate Active()
      reads this
    {
      playing && (tcpTransport || udpOpen)
    }

    ghost function Out(): Output
      reads this, sock
    {
      Output(sock.sent, sock.clean, datagrams)
    }

    /** Sends one packet; a failed send drops the rest of it. */
    method SendRtpPacket(rtpTs: u32, marker: bool, payload: bytes)
      requires Valid() && |payload| <= MAX_RTP_PAYLOAD + 2
      modifies this`seqNo, this`datagrams, sock
      ensures Valid() && seqNo == Low16(old(seqNo) + 1)
      ensures LinkOf() == old(LinkOf())
      ensures LinkOf().Carries(old(Out()), Out(), [Packet(marker, old(seqNo), rtpTs, ssrc, payload)])
    {
      hide Protect, HeaderBytes, Low16, Frame;
      ghost var p := Packet(marker, seqNo, rtpTs, ssrc, payload);
      var packet, totalLen := BuildPacket(rtpTs, marker, payload);
      ghost var bytes := PacketBytes(hmac, Keys(), p);
      assert bytes == packet[..totalLen];
      if tcpTransport {
        SendFrame(sock, rtpChannel, packet, totalLen);
        assert Wire(hmac, Keys(), rtpChannel, [p]) == Frame(rtpChannel, bytes) + [];
        assert Frame(rtpChannel, bytes) + [] == Frame(rtpChannel, bytes);
      } else {
        datagrams := datagrams + [packet[..totalLen]];
      }
    }

    /** Sends one NAL unit, whole or in FU-A fragments. */
    method SendNalToSession(rtpTs: u32, nal: bytes, lastNal: bool)
      requires Valid() && nal != []
      modifies this`seqNo, this`datagrams, sock
      ensures Valid() && seqNo == Low16(old(seqNo) + |Payloads(nal)|)
      ensures LinkOf() == old(LinkOf())
      ensures LinkOf().Carries(old(Out()), Out(), Number(Payloads(nal), old(seqNo), rtpTs, ssrc, lastNal))
    {
      PayloadCases(nal);
      hide PacketBytes, Low16, Wire, Frame, Link.Carries, Payloads, Fragments, FuHeader, FuIndicator;
      ghost var start := seqNo;
      if |nal| <= MAX_RTP_PAYLOAD {
        NumberOne(nal, start, rtpTs, ssrc, lastNal);
        SendRtpPacket(rtpTs, lastNal, nal);
        return;
      }
      var header := nal[0];
      var at: nat, remaining: nat, first := 1, |nal| - 1, true;
      ghost var done: seq<bytes> := [];
      ghost var l := LinkOf();
      CarriesNone(l, Out());
      NumberNone(start, rtpTs, ssrc);
      while remaining > 0
        invariant at + remaining == |nal|
        invariant Valid() && LinkOf() == l
        invariant Payloads(nal) == done + Fragments(header, nal[at..], first)
        invariant remaining == 0 ==> !first
        invariant seqNo == Low16(start + |done|)
        invariant l.Carries(old(Out()), Out(), Number(done, start, rtpTs, ssrc, lastNal && remaining == 0))
      {
        var chunkSize := if remaining < MAX_BODY then remaining else MAX_BODY;
        var last := chunkSize == remaining;
        var fragment := BuildFragment(nal, at, chunkSize, first, last);
        FragmentsStep(header, nal[at..], first, done);
        assert nal[at..][chunkSize..] == nal[at + chunkSize..];

        ghost var before, number := Out(), seqNo;
        SendRtpPacket(rtpTs, last && lastNal, fragment);
        CarriesNext(l, old(Out()), before, Out(), done, fragment, start, number, rtpTs, ssrc, last && lastNal);
        Low16Again(start, |done|, 1);

        done := done + [fragment];
        at, remaining, first := at + chunkSize, remaining - chunkSize, false;
      }
      NoFragments(header, nal[at..]);
      assert done + [] == done;
    }

    /** Sends the NAL units of one access unit; the last one carries the marker. */
    method SendUnits(rtpTs: u32, nals: seq<bytes>)
      requires Valid() && forall n | n in nals :: n != []
      modifies this`seqNo, this`datagrams, sock
      ensures Valid() && seqNo == Low16(old(seqNo) + |AllPayloads(nals)|)
      ensures LinkOf() == old(LinkOf())
      ensures LinkOf().Carries(old(Out()), Out(), Number(AllPayloads(nals), old(seqNo), rtpTs, ssrc, true))
    {
      hide PacketBytes, Low16, Wire, Frame, Link.Carries, Payloads;
      ghost var l, start := LinkOf(), seqNo;
      CarriesNone(l, Out());
      NumberNone(start, rtpTs, ssrc);
      for n := 0 to |nals|
        invariant Valid() && LinkOf() == l
        invariant seqNo == Low16(start + |AllPayloads(nals[..n])|)
        invariant l.Carries(old(Out()), Out(), Number(AllPayloads(nals[..n]), start, rtpTs, ssrc, n > 0 && n == |nals|))
      {
        ghost var before, number, done := Out(), seqNo, AllPayloads(nals[..n]);
        assert nals[n] in nals;
        SendNalToSession(rtpTs, nals[n], n == |nals| - 1);
        CarriesUnit(l, old(Out()), before, Out(), nals, n, start, number, rtpTs, ssrc);
        Low16Again(start, |done|, |Payloads(nals[n])|);
      }
      assert nals[..|nals|] == nals;
      NumberNoneMarked(start, rtpTs, ssrc);
    }
  }

  /** Indicator, FU header and the slice of the NAL unit, in a buffer of fixed size. */
  method BuildFragment(nal: bytes, at: nat, chunkSize: nat, first: bool, last: bool) returns (fragment: bytes)
    requires 0 < at && at + chunkSize <= |nal| && chunkSize <= MAX_BODY
    ensures fragment == [FuIndicator(nal[0]), FuHeader(nal[0], first, last)] + nal[at..][..chunkSize]
  {
    var packet := new byte[2 + MAX_RTP_PAYLOAD];
    packet[0] := FuIndicator(nal[0]);
    packet[1] := FuHeader(nal[0], first, last);
    forall i | 0 <= i < chunkSize { packet[2 + i] := nal[at + i]; }
    fragment := packet[..chunkSize + 2];
  }

  lemma PacketForm(hmac: Hmac, key: KeySchedule.UserKey, iv: Network.Block, authKey: bytes,
                   marker: bool, seqNo: u16, ts: u32, ssrc: u32, payload: bytes)
    ensures var k := MediaKeys(AriaCipher.CipherOf(key, iv), authKey);
      SentAs(hmac, k, Protect(hmac, k, HeaderBytes(marker, seqNo, ts, ssrc), payload), marker, seqNo, ts, ssrc, payload)
  {
    hide AriaCipher.CipherOf, SentAs, Protect, HeaderBytes;
    AriaCipher.CipherSelfInverse(key, iv);
    ProtectedFields(hmac, MediaKeys(AriaCipher.CipherOf(key, iv), authKey), marker, seqNo, ts, ssrc, payload);
  }

  lemma CarriesNext(l: Link, a: Output, b: Output, c: Output, done: seq<bytes>, payload: bytes,
                    start: u16, number: u16, ts: u32, ssrc: u32, last: bool)
    requires number == Low16(start + |done|)
    requires l.Carries(a, b, Number(done, start, ts, ssrc, false))
    requires l.Carries(b, c, [Packet(last, number, ts, ssrc, payload)])
    ensures l.Carries(a, c, Number(done + [payload], start, ts, ssrc, last))
  {
    hide Link.Carries, Low16;
    NumberOne(payload, number, ts, ssrc, last);
    NumberConcat(done, [payload], start, ts, ssrc, last);
    CarriesBoth(l, a, b, c, Number(done, start, ts, ssrc, false), Number([payload], number, ts, ssrc, last));
  }

  lemma CarriesUnit(l: Link, a: Output, b: Output, c: Output, nals: seq<bytes>, n: nat,
                    start: u16, number: u16, ts: u32, ssrc: u32)
    requires n < |nals| && nals[n] != [] && number == Low16(start + |AllPayloads(nals[..n])|)
    requires l.Carries(a, b, Number(AllPayloads(nals[..n]), start, ts, ssrc, false))
    requires l.Carries(b, c, Number(Payloads(nals[n]), number, ts, ssrc, n == |nals| - 1))
    ensures AllPayloads(nals[..n + 1]) == AllPayloads(nals[..n]) + Payloads(nals[n])
    ensures l.Carries(a, c, Number(AllPayloads(nals[..n + 1]), start, ts, ssrc, n == |nals| - 1))
  {
    hide Link.Carries, Low16, Payloads;
    var done := AllPayloads(nals[..n]);
    PayloadSizes(nals[n]);
    AllPayloadsNext(nals, n);
    NumberConcat(done, Payloads(nals[n]), start, ts, ssrc, n == |nals| - 1);
    CarriesBoth(l, a, b, c, Number(done, start, ts, ssrc, false),
                Number(Payloads(nals[n]), number, ts, ssrc, n == |nals| - 1));
  }

  lemma AllPayloadsNext(nals: seq<bytes>, n: nat)
    requires n < |nals|
    ensures AllPayloads(nals[..n + 1]) == AllPayloads(nals[..n]) + Payloads(nals[n])
  {
    hide Payloads;
    assert nals[..n + 1] == nals[..n] + [nals[n]];
    AllPayloadsConcat(nals[..n], [nals[n]]);
    assert AllPayloads([nals[n]]) == Payloads(nals[n]) + [];
    assert Payloads(nals[n]) + [] == Payloads(nals[n]);
  }

  lemma NumberNoneMarked(seqNo: u16, ts: u32, ssrc: u32)
    ensures Number([], seqNo, ts, ssrc, false) == Number([], seqNo, ts, ssrc, true)
  {}

  lemma NumberOne(payload: bytes, seqNo: u16, ts: u32, ssrc: u32, last: bool)
    ensures Number([payload], seqNo, ts, ssrc, last) == [Packet(last, seqNo, ts, ssrc, payload)]
  {
    assert Number([payload], seqNo, ts, ssrc, last)[0] == Packet(last, Low16(seqNo + 0), ts, ssrc, payload);
  }

  lemma NumberNone(seqNo: u16, ts: u32, ssrc: u32)
    ensures Number([], seqNo, ts, ssrc, false) == [] && Low16(seqNo) == seqNo
  {}

  lemma PayloadCases(nal: bytes)
    ensures |nal| <= MAX_RTP_PAYLOAD ==> Payloads(nal) == [nal]
    ensures |nal| > MAX_RTP_PAYLOAD ==> Payloads(nal) == [] + Fragments(nal[0], nal[1..], true)
  {}

  lemma FragmentsStep(header: byte, body: bytes, first: bool, done: seq<bytes>)
    requires body != []
    ensures var n := if |body| < MAX_BODY then |body| else MAX_BODY;
            var f := [FuIndicator(header), FuHeader(header, first, n == |body|)] + body[..n];
            done + Fragments(header, body, first) == done + [f] + Fragments(header, body[n..], false)
  {}

  /** The interleaved frame: four header bytes in one send, then the packet. */
  method SendFrame(sock: Sockets.OutSocket, channel: byte, packet: array<byte>, totalLen: nat)
    requires totalLen <= packet.Length && totalLen < 0x1_0000
    modifies sock
    ensures sock.clean ==> old(sock.clean) && sock.sent == old(sock.sent) + Frame(channel, packet[..totalLen])
  {
    var header := new byte[4];
    header[0], header[1] := 0x24, channel;
    header[2], header[3] := totalLen / 0x100 % 0x100, totalLen % 0x100;
    ghost var sent, body := sock.sent, packet[..totalLen];
    assert header[0..4] + body == Frame(channel, body);
    var n := sock.Send(header, 0, 4);
    if n != 4 {
      sock.clean := false;
      return;
    }
    var ok := sock.SendAll(packet, totalLen);
    assert sent + header[0..4] + body == sent + (header[0..4] + body);
  }

  /** Header and payload, not yet encrypted. */
  method FillPacket(packet: array<byte>, marker: bool, seqNo: u16, rtpTs: u32, ssrc: u32, payload: bytes)
    requires packet.Length >= 12 + |payload|
    modifies packet
    ensures packet[..12] == HeaderBytes(marker, seqNo, rtpTs, ssrc) && packet[12..12 + |payload|] == payload
  {
    hide HeaderBytes, Fields;
    WriteHeader(packet, marker, seqNo, rtpTs, ssrc);
    ghost var header := packet[..12];
    forall i | 0 <= i < |payload| { packet[12 + i] := payload[i]; }
    assert packet[..12] == header;
  }

  method WriteHeader(packet: array<byte>, marker: bool, seqNo: u16, rtpTs: u32, ssrc: u32)
    requires packet.Length >= 12
    modifies packet
    ensures packet[..12] == HeaderBytes(marker, seqNo, rtpTs, ssrc)
    ensures Fields(packet[..12], marker, seqNo, rtpTs, ssrc)
    ensures packet[12..] == old(packet[12..])
  {
    hide U32Bytes, Fields;
    HeaderFields(marker, seqNo, rtpTs, ssrc);
    packet[0] := 0x80;
    packet[1] := if marker then 96 + 0x80 else 96;
    packet[2] := seqNo / 0x100 % 0x100;
    packet[3] := seqNo % 0x100;
    assert packet[..4] == [0x80, if marker then 96 + 0x80 else 96] + U16Bytes(seqNo);
    ghost var start := packet[..4];
    WriteWord(packet, 4, rtpTs);
    WriteWord(packet, 8, ssrc);
    assert packet[..4] == start && packet[4..8] == U32Bytes(rtpTs);
    ghost var b := packet[..12];
    assert b[..4] == start && b[4..8] == packet[4..8] && b[8..12] == packet[8..12];
    ThreeFields(b);
  }

  lemma ThreeFields(b: bytes)
    requires |b| == 12
    ensures b == b[..4] + b[4..8] + b[8..12]
  {}

  /** Four bytes of a 32-bit field, most significant first. */
  method WriteWord(packet: array<byte>, at: nat, n: u32)
    requires at + 4 <= packet.Length
    modifies packet
    ensures packet[at..at + 4] == U32Bytes(n)
    ensures forall i | 0 <= i < at || at + 4 <= i < packet.Length :: packet[i] == old(packet[i])
  {
    packet[at] := n / 0x100_0000 % 0x100;
    packet[at + 1] := n / 0x1_0000 % 0x100;
    packet[at + 2] := n / 0x100 % 0x100;
    packet[at + 3] := n % 0x100;
    U32BytesAt(n);
  }

  /** Copies the truncated digest behind the `rtpLen` bytes that it covers. */
  method AppendTag(packet: array<byte>, rtpLen: nat, digest: Digest)
    requires rtpLen + AUTH_TAG_LEN <= packet.Length
    modifies packet
    ensures packet[..rtpLen] == old(packet[..rtpLen])
    ensures packet[rtpLen..rtpLen + AUTH_TAG_LEN] == digest[..AUTH_TAG_LEN]
  {
    forall i | 0 <= i < AUTH_TAG_LEN { packet[rtpLen + i] := digest[i]; }
  }

  // ---- Distribution to the sessions ------------------------------------------------------------

  class RtspServer {
    const fps: nat
    var running: bool
    var frameIndex: nat
    var sessions: seq<Session>

    constructor (fps: nat)
      requires fps > 0
      ensures Valid() && this.fps == fps && !running && frameIndex == 0 && sessions == []
    {
      this.fps, running, frameIndex, sessions := fps, false, 0, [];
    }

    ghost predicate Valid()
      reads this, sessions, set s | s in sessions :: s.cipher, set s | s in sessions :: s.cipher.rdKey
    {
      fps > 0 && frameIndex < FRAME_WRAP && Separate(sessions)
    }

    /** Sends one access unit to every active session, in consecutive packets of that session with one
        common time stamp; other sessions are left alone, and so is everything while not running. */
    method SendNal(nalData: bytes)
      requires Valid()
      modifies this`frameIndex, (set s | s in sessions)`seqNo, (set s | s in sessions)`datagrams,
               set s | s in sessions :: s.sock
      ensures Valid()
      ensures var sends := running && nalData != [];
              && frameIndex == (if sends then (old(frameIndex) + 1) % 0x1_0000_0000_0000_0000 else old(frameIndex))
              && forall s | s in sessions ::
                   if sends then
                     Served(old(s.Look()), s.Look(), AllPayloads(AnnexB.Split(nalData)),
                            Timestamp(old(frameIndex), fps))
                   else s.Look() == old(s.Look())
    {
      hide AnnexB.Split, Served, AllPayloads, Timestamp;
      if !running || nalData == [] { return; }
      var rtpTs := Timestamp(frameIndex, fps);
      frameIndex := (frameIndex + 1) % FRAME_WRAP;
      var nals, _ := AnnexB.ExtractNals(nalData);
      forall n | n in nals ensures n != [] { AnnexB.SplitClean(nalData, n); }
      Distribute(sessions, rtpTs, nals);
    }
  }

  /** Sessions are valid and share no session object and no socket. */
  ghost predicate Separate(sessions: seq<Session>)
    reads sessions, set s | s in sessions :: s.cipher, set s | s in sessions :: s.cipher.rdKey
  {
    && (forall s | s in sessions :: s.Valid())
    && (forall i, j | 0 <= i < j < |sessions| :: sessions[i] != sessions[j] && sessions[i].sock != sessions[j].sock)
  }

  /** The loop over the sessions. */
  method Distribute(sessions: seq<Session>, rtpTs: u32, nals: seq<bytes>)
    requires Separate(sessions) && forall n | n in nals :: n != []
    modifies (set s | s in sessions)`seqNo, (set s | s in sessions)`datagrams, set s | s in sessions :: s.sock
    ensures Separate(sessions)
    ensures forall s | s in sessions :: Served(old(s.Look()), s.Look(), AllPayloads(nals), rtpTs)
  {
    hide Served, AllPayloads, Session.Look, Session.Valid;
    for i := 0 to |sessions|
      invariant Separate(sessions)
      invariant forall j | 0 <= j < i :: Served(old(sessions[j].Look()), sessions[j].Look(), AllPayloads(nals), rtpTs)
      invariant forall j | i <= j < |sessions| :: sessions[j].Look() == old(sessions[j].Look())
    {
      ServeOne(sessions[i], rtpTs, nals);
    }
  }

  /** The body of that loop: inactive sessions are skipped. */
  method ServeOne(s: Session, rtpTs: u32, nals: seq<bytes>)
    requires s.Valid() && forall n | n in nals :: n != []
    modifies s`seqNo, s`datagrams, s.sock
    ensures s.Valid() && Served(old(s.Look()), s.Look(), AllPayloads(nals), rtpTs)
    // the same in the session's own fields
    ensures old(s.playing) && old(s.tcpTransport) && s.sock.clean ==>
      s.sock.sent == old(s.sock.sent) + Wire(s.hmac, s.Keys(), s.rtpChannel,
                                             Number(AllPayloads(nals), old(s.seqNo), rtpTs, s.ssrc, true))
    ensures old(s.playing) && !old(s.tcpTransport) && old(s.udpOpen) ==>
      s.datagrams == old(s.datagrams) + Datagrams(s.hmac, s.Keys(),
                                                  Number(AllPayloads(nals), old(s.seqNo), rtpTs, s.ssrc, true))
    ensures !old(s.playing) || (!old(s.tcpTransport) && !old(s.udpOpen)) ==>
      s.sock.sent == old(s.sock.sent) && s.datagrams == old(s.datagrams) && s.seqNo == old(s.seqNo)
  {
    hide Low16, AllPayloads, Wire, Datagrams;
    if s.Active() {
      s.SendUnits(rtpTs, nals);
    }
  }
}
