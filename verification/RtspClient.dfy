/** The client's receive path as it runs: deframing, authentication, header parsing,
    decryption in place, and NAL unit reassembly. */
module RtspClient {
  import opened Bytes
  import AriaCipher
  import opened Reassembly
  import opened Srtp
  import Sockets

  /** What one receive on the UDP socket brings: a datagram, a reason to try again, or an error. */
  datatype Arrival = Datagram(data: bytes) | Retry | Broken

  /** The datagrams up to the first error, each cut to the size of the receive buffer. */
  function Arrived(arrivals: seq<Arrival>): seq<bytes> {
    if arrivals == [] then []
    else
      match arrivals[0]
      case Broken => []
      case Retry => Arrived(arrivals[1..])
      case Datagram(d) => [if |d| > BUFFER_SIZE then d[..BUFFER_SIZE] else d] + Arrived(arrivals[1..])
  }

  class RtspClient {
    const control: Sockets.InSocket
    const srtpCipher: AriaCipher.AriaCipher
    const srtpAuthKey: bytes
    const hmac: Hmac
    var fuBuffer: bytes
    var fuInProgress: bool
    /** The arguments of all `nalReceived` signals so far. */
    var received: seq<bytes>

    ghost predicate Valid()
      reads this, srtpCipher, srtpCipher.rdKey
    {
      srtpCipher.Valid() && srtpCipher.Ready()
    }

    ghost function Keys(): MediaKeys
      requires Valid()
      reads this, srtpCipher, srtpCipher.rdKey
    {
      MediaKeys(AriaCipher.CipherOf(srtpCipher.key, srtpCipher.iv), srtpAuthKey)
    }

    ghost function Fu(): State
      reads this
    {
      State(fuBuffer, fuInProgress)
    }

    constructor (control: Sockets.InSocket, cipher: AriaCipher.AriaCipher, authKey: bytes, hmac: Hmac)
      requires cipher.Valid() && cipher.Ready()
      ensures this.control == control && srtpCipher == cipher && srtpAuthKey == authKey && this.hmac == hmac
      ensures Valid() && Fu() == State([], false) && received == []
    {
      this.control, srtpCipher, srtpAuthKey, this.hmac := control, cipher, authKey, hmac;
      fuBuffer, fuInProgress, received := [], false, [];
    }

    /** Single NAL units, STAP-A and FU-A; other types are ignored. */
    method HandleRtpPayload(payload: bytes)
      requires payload != []
      modifies this
      ensures Fu() == Handle(old(Fu()), payload).state
      ensures received == old(received) + Handle(old(Fu()), payload).emitted
    {
      hide Handle, Aggregated;
      var size := |payload|;
      var nalType := payload[0] % 32;
      OtherPayload(Fu(), payload);
      if 1 <= nalType <= 23 {
        received := received + [payload];
        return;
      }
      if nalType == 24 {
        HandleStapA(payload);
        return;
      }
      if nalType == 28 && size >= 2 {
        HandleFuA(payload);
      }
    }

    method HandleStapA(payload: bytes)
      requires payload != []
      modifies this`received
      ensures received == old(received) + Aggregated(payload, 1)
    {
      hide Aggregated, U16;
      var size, offset := |payload|, 1;
      while offset + 2 <= size
        invariant 1 <= offset <= size
        invariant received + Aggregated(payload, offset) == old(received) + Aggregated(payload, 1)
      {
        AggregatedNext(payload, offset, received);
        var nalSize := U16(payload[offset], payload[offset + 1]);
        offset := offset + 2;
        if offset + nalSize > size { return; }
        received := received + [payload[offset..offset + nalSize]];
        offset := offset + nalSize;
      }
      AggregatedEnd(payload, offset, received);
    }

    method HandleFuA(payload: bytes)
      requires |payload| >= 2 && payload[0] % 32 == 28
      modifies this
      ensures Fu() == Handle(old(Fu()), payload).state
      ensures received == old(received) + Handle(old(Fu()), payload).emitted
    {
      var fuIndicator, fuHeader := payload[0], payload[1];
      var start, end := fuHeader / 0x80 == 1, fuHeader / 0x40 % 2 == 1;
      var nalBits := fuHeader % 32;
      if start {
        fuBuffer := [fuIndicator / 32 * 32 + nalBits];
        fuInProgress := true;
      }
      if !fuInProgress { return; }
      fuBuffer := fuBuffer + payload[2..];
      if end {
        received := received + [fuBuffer];
        fuBuffer, fuInProgress := [], false;
      }
    }

    /** One received packet in `buf[..n]`: verify, parse, decrypt in place, hand on. */
    method ProcessPacket(buf: array<byte>, n: nat)
      requires Valid() && n <= buf.Length && buf != srtpCipher.rdKey as object
      modifies this, buf
      ensures Valid() && Keys() == old(Keys())
      ensures match Unprotect(hmac, Keys(), old(buf[..n]))
              case None => Fu() == old(Fu()) && received == old(received)
              case Some(p) =>
                var o := Handle(old(Fu()), p);
                Fu() == o.state && received == old(received) + o.emitted
      // a packet that does not end in the HMAC of all before its last ten bytes has no effect
      ensures n < 22 || old(buf[n - 10..n]) != hmac(srtpAuthKey, old(buf[..n - 10]))[..10] ==>
        Fu() == old(Fu()) && received == old(received)
    {
      hide Handle, HeaderLength, AriaCipher.AriaCtr;
      if n < 12 + AUTH_TAG_LEN { return; }
      ghost var packet := buf[..n];
      var rtpLen := n - AUTH_TAG_LEN;
      var rtp := buf[..rtpLen];
      assert packet[..rtpLen] == rtp && packet[rtpLen..] == buf[rtpLen..n];
      var digest := hmac(srtpAuthKey, rtp);
      if digest[..AUTH_TAG_LEN] != buf[rtpLen..n] { return; }

      var parsed := ParseHeader(buf, rtpLen);
      if parsed == None { return; }
      var headerLen := parsed.value;
      var payloadSize := rtpLen - headerLen;
      if payloadSize == 0 { return; }
      assert rtp[headerLen..] == buf[headerLen..headerLen + payloadSize];
      var ok := srtpCipher.Decrypt(buf, headerLen, payloadSize);
      var payload := buf[headerLen..headerLen + payloadSize];
      assert payload == AriaCipher.AriaCtr(srtpCipher.key, srtpCipher.iv, rtp[headerLen..]);
      HandleRtpPayload(payload);
    }

    /** Contributors and one header extension are skipped; nothing if they do not fit. */
    method ParseHeader(buf: array<byte>, rtpLen: nat) returns (r: Option<nat>)
      requires 12 <= rtpLen <= buf.Length
      ensures r == HeaderLength(buf[..rtpLen])
    {
      hide Contributors, Extended, U16;
      ghost var rtp := buf[..rtpLen];
      assert rtp[0] == buf[0];
      var headerLen: nat := 12 + Contributors(buf[0]) * 4;
      if rtpLen < headerLen { return None; }
      if Extended(buf[0]) {
        if rtpLen < headerLen + 4 { return None; }
        var extLen: nat := U16(buf[headerLen + 2], buf[headerLen + 3]);
        headerLen := headerLen + 4 + extLen * 4;
        if rtpLen < headerLen { return None; }
      }
      return Some(headerLen);
    }

    /** Reads one frame into `buf`; a result of zero stops the receive loop. */
    method ReadFrame(buf: array<byte>) returns (n: nat)
      requires buf.Length == BUFFER_SIZE
      modifies control, buf
      ensures n <= BUFFER_SIZE
      ensures n > 0 ==> NextPacket(old(control.pending)) == Some((buf[..n], control.pending))
                        && control.clean == old(control.clean)
      ensures n == 0 && control.clean ==> NextPacket(old(control.pending)) == None
    {
      ghost var stream := control.pending;
      var header := new byte[4];
      var ok := control.RecvAll(header, 0, 4);
      if !ok { return 0; }
      ghost var h := header[0..4];
      assert h == stream[..4] && h[0] == header[0] && h[2] == header[2] && h[3] == header[3];
      if header[0] != 0x24 { return 0; }
      var srtpLen := U16(header[2], header[3]);
      if srtpLen == 0 || srtpLen > BUFFER_SIZE { return 0; }
      ok := control.RecvAll(buf, 0, srtpLen);
      if !ok { return 0; }
      assert stream[4..][..srtpLen] == stream[4..4 + srtpLen] && stream[4..][srtpLen..] == stream[4 + srtpLen..];
      assert buf[..srtpLen] == buf[0..srtpLen];
      return srtpLen;
    }

    /** The receive loop over the interleaved stream: it ends with the stream, at a malformed frame, or
        when a receive fails. */
    method RtpLoop()
      requires Valid()
      modifies this, control
      ensures Valid() && Keys() == old(Keys())
      ensures var all := Deliver(old(Fu()), AcceptedPayloads(hmac, Keys(), old(control.pending)));
              && old(received) <= received <= old(received) + all.emitted
              && (control.clean ==> received == old(received) + all.emitted && Fu() == all.state)
    {
      hide Handle, Unprotect, Keys, NextPacket, Deliver, AcceptedPayloads;
      var buf := new byte[BUFFER_SIZE];
      ghost var keys := Keys();
      ghost var all := Deliver(Fu(), AcceptedPayloads(hmac, keys, control.pending));
      while true
        invariant Valid() && Keys() == keys && fresh(buf) && buf.Length == BUFFER_SIZE
        invariant old(received) <= received
        invariant var rest := Deliver(Fu(), AcceptedPayloads(hmac, keys, control.pending));
                  old(received) + all.emitted == received + rest.emitted && all.state == rest.state
        decreases |control.pending|
      {
        ghost var stream, st := control.pending, Fu();
        var n := ReadFrame(buf);
        if n == 0 {
          if control.clean { EndOfStream(hmac, keys, stream, st); }
          break;
        }
        StepOfStream(hmac, keys, stream, st, buf[..n], control.pending);
        ProcessPacket(buf, n);
      }
    }

    /** The receive loop over UDP, for whatever the socket brings until the client stops. */
    method RtpLoopUdp(arrivals: seq<Arrival>)
      requires Valid()
      modifies this
      ensures Valid() && Keys() == old(Keys())
      ensures var all := Deliver(old(Fu()), AcceptedDatagrams(hmac, Keys(), Arrived(arrivals)));
              received == old(received) + all.emitted && Fu() == all.state
    {
      hide Handle, Unprotect, Keys, Deliver, AcceptedDatagrams, Arrived;
      var buf := new byte[BUFFER_SIZE];
      ghost var keys := Keys();
      ghost var all := Deliver(Fu(), AcceptedDatagrams(hmac, keys, Arrived(arrivals)));
      assert arrivals[0..] == arrivals;
      var i := 0;
      while i < |arrivals|
        invariant Valid() && Keys() == keys && fresh(buf) && buf.Length == BUFFER_SIZE && i <= |arrivals|
        invariant var rest := Deliver(Fu(), AcceptedDatagrams(hmac, keys, Arrived(arrivals[i..])));
                  old(received) + all.emitted == received + rest.emitted && all.state == rest.state
      {
        ghost var st := Fu();
        ArrivedNext(arrivals, i);
        if arrivals[i].Broken? {
          NoDatagrams(hmac, keys, st);
          return;
        }
        i := i + 1;
        if arrivals[i - 1].Retry? { continue; }
        var d := arrivals[i - 1].data;
        var n := if |d| > BUFFER_SIZE then BUFFER_SIZE else |d|;
        forall k | 0 <= k < n { buf[k] := d[k]; }
        assert buf[..n] == if |d| > BUFFER_SIZE then d[..BUFFER_SIZE] else d;
        StepOfDatagrams(hmac, keys, st, buf[..n], Arrived(arrivals[i..]));
        ProcessPacket(buf, n);
      }
      NothingArrived(arrivals);
      NoDatagrams(hmac, keys, Fu());
    }
  }

  /** Every payload but a fragment. */
  lemma OtherPayload(st: State, p: bytes)
    requires p != []
    ensures var t := p[0] % 32;
      && (1 <= t <= 23 ==> Handle(st, p) == Outcome(st, [p]))
      && (t == 24 ==> Handle(st, p) == Outcome(st, Aggregated(p, 1)))
      && (!(1 <= t <= 24) && !(t == 28 && |p| >= 2) ==> Handle(st, p) == Outcome(st, []))
  {}

  lemma AggregatedNext(p: bytes, offset: nat, before: seq<bytes>)
    requires offset + 2 <= |p|
    ensures var size := U16(p[offset], p[offset + 1]);
      before + Aggregated(p, offset) ==
        if offset + 2 + size > |p| then before
        else before + [p[offset + 2..offset + 2 + size]] + Aggregated(p, offset + 2 + size)
  {
    hide U16;
  }

  lemma AggregatedEnd(p: bytes, offset: nat, before: seq<bytes>)
    requires offset + 2 > |p|
    ensures before + Aggregated(p, offset) == before
  {}

  lemma StepOfDatagrams(hmac: Hmac, k: MediaKeys, st: State, packet: bytes, more: seq<bytes>)
    ensures var later := AcceptedDatagrams(hmac, k, more);
            match Unprotect(hmac, k, packet)
            case None => Deliver(st, AcceptedDatagrams(hmac, k, [packet] + more)) == Deliver(st, later)
            case Some(p) =>
              var o := Handle(st, p);
              var r := Deliver(o.state, later);
              Deliver(st, AcceptedDatagrams(hmac, k, [packet] + more)) == Outcome(r.state, o.emitted + r.emitted)
  {
    hide Unprotect, Handle;
    var later := AcceptedDatagrams(hmac, k, more);
    assert ([packet] + more)[1..] == more;
    match Unprotect(hmac, k, packet)
    case None => assert [] + later == later;
    case Some(p) => assert ([p] + later)[1..] == later;
  }

  lemma NoDatagrams(hmac: Hmac, k: MediaKeys, st: State)
    ensures Deliver(st, AcceptedDatagrams(hmac, k, [])) == Outcome(st, [])
  {}

  /** Datagrams that fit into the receive buffer arrive as they are. */
  lemma {:induction false} ArrivedWhole(datagrams: seq<bytes>)
    requires forall d | d in datagrams :: |d| <= BUFFER_SIZE
    ensures Arrived(seq(|datagrams|, i requires 0 <= i < |datagrams| => Datagram(datagrams[i]))) == datagrams
  {
    if datagrams != [] {
      ArrivedWhole(datagrams[1..]);
      var all := seq(|datagrams|, i requires 0 <= i < |datagrams| => Datagram(datagrams[i]));
      var more := seq(|datagrams[1..]|, i requires 0 <= i < |datagrams[1..]| => Datagram(datagrams[1..][i]));
      assert all[1..] == more;
      assert datagrams[0] in datagrams;
    }
  }

  lemma NothingArrived(arrivals: seq<Arrival>)
    ensures Arrived(arrivals[|arrivals|..]) == []
  {}

  lemma ArrivedNext(arrivals: seq<Arrival>, i: nat)
    requires i < |arrivals|
    ensures match arrivals[i]
            case Broken => Arrived(arrivals[i..]) == []
            case Retry => Arrived(arrivals[i..]) == Arrived(arrivals[i + 1..])
            case Datagram(d) =>
              Arrived(arrivals[i..]) == [if |d| > BUFFER_SIZE then d[..BUFFER_SIZE] else d] + Arrived(arrivals[i + 1..])
  {
    assert arrivals[i..][1..] == arrivals[i + 1..];
  }

  lemma EndOfStream(hmac: Hmac, k: MediaKeys, stream: bytes, st: State)
    requires NextPacket(stream) == None
    ensures Deliver(st, AcceptedPayloads(hmac, k, stream)) == Outcome(st, [])
  {}

  lemma StepOfStream(hmac: Hmac, k: MediaKeys, stream: bytes, st: State, packet: bytes, rest: bytes)
    requires NextPacket(stream) == Some((packet, rest))
    ensures var later := AcceptedPayloads(hmac, k, rest);
            |rest| < |stream|
            && match Unprotect(hmac, k, packet)
               case None => Deliver(st, AcceptedPayloads(hmac, k, stream)) == Deliver(st, later)
               case Some(p) =>
                 var o := Handle(st, p);
                 var r := Deliver(o.state, later);
                 Deliver(st, AcceptedPayloads(hmac, k, stream)) == Outcome(r.state, o.emitted + r.emitted)
  {
    hide Unprotect, Handle;
    var later := AcceptedPayloads(hmac, k, rest);
    match Unprotect(hmac, k, packet)
    case None => assert [] + later == later;
    case Some(p) => assert ([p] + later)[1..] == later;
  }
}
