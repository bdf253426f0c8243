/** The server's packet stream for one session over a whole run: packet numbering and time
    stamps (RFC 3550 sections 5.1 and 5.3.1), and delivery from end to end. */
module PacketStream {
  import opened Bytes
  import opened AnnexB
  import Payload
  import opened Reassembly
  import opened Srtp

  datatype Packet = Packet(marker: bool, seqNo: u16, ts: u32, ssrc: u32, payload: bytes)

  const FRAME_WRAP: nat := 0x1_0000_0000_0000_0000

  /** The 90 kHz time stamp of frame `n`: the product wraps at 64 bits, the result at 32. */
  function Timestamp(n: nat, fps: nat): u32
    requires fps > 0
  {
    n * 90000 % FRAME_WRAP / fps % 0x1_0000_0000
  }

  /** The clock of a server with a fixed frame rate. */
  function Clock(fps: nat): nat -> u32
    requires fps > 0
  {
    n => Timestamp(n, fps)
  }

  /** Packets with consecutive numbers and one time stamp; the last one is marked if `last`. */
  function Number(payloads: seq<bytes>, seqNo: u16, ts: u32, ssrc: u32, last: bool): seq<Packet> {
    seq(|payloads|, i requires 0 <= i < |payloads| =>
      Packet(last && i == |payloads| - 1, Low16(seqNo + i), ts, ssrc, payloads[i]))
  }

  lemma NumberConcat(a: seq<bytes>, b: seq<bytes>, seqNo: u16, ts: u32, ssrc: u32, last: bool)
    requires last ==> b != []
    ensures Number(a + b, seqNo, ts, ssrc, last)
         == Number(a, seqNo, ts, ssrc, false) + Number(b, Low16(seqNo + |a|), ts, ssrc, last)
  {
    hide Low16;
    var whole := Number(a + b, seqNo, ts, ssrc, last);
    var parts := Number(a, seqNo, ts, ssrc, false) + Number(b, Low16(seqNo + |a|), ts, ssrc, last);
    forall i | 0 <= i < |whole| ensures whole[i] == parts[i] {
      if i >= |a| { Low16Again(seqNo, |a|, i - |a|); }
    }
  }

  /** A sender: the frame counter and clock of the server, and number and source of one session. */
  datatype Sender = Sender(frame: nat, clock: nat -> u32, seqNo: u16, ssrc: u32) {

    /** The packets for the access unit `au`; an empty one is ignored. */
    function PacketsOf(au: bytes): seq<Packet> {
      if au == [] then [] else Number(AllPayloads(Split(au)), seqNo, clock(frame), ssrc, true)
    }

    function After(au: bytes): Sender {
      if au == [] then this
      else this.(frame := (frame + 1) % FRAME_WRAP, seqNo := Low16(seqNo + |AllPayloads(Split(au))|))
    }

    function AfterAll(aus: seq<bytes>): Sender
      decreases |aus|
    {
      if aus == [] then this else After(aus[0]).AfterAll(aus[1..])
    }

    /** The packets for a list of access units. */
    function Run(aus: seq<bytes>): seq<Packet>
      decreases |aus|
    {
      if aus == [] then [] else PacketsOf(aus[0]) + After(aus[0]).Run(aus[1..])
    }
  }

  // ---- Numbering and time stamps -----------------------------------------------------------------

  lemma Low16Again(a: u16, b: nat, c: nat)
    ensures Low16(Low16(a + b) + c) == Low16(a + b + c) && Low16(a) == a
  {}

  lemma {:induction false} RunCounted(s: Sender, aus: seq<bytes>, k: nat)
    requires k < |s.Run(aus)|
    ensures s.Run(aus)[k].seqNo == Low16(s.seqNo + k) && s.Run(aus)[k].ssrc == s.ssrc
    decreases |aus|
  {
    hide Split, AllPayloads, Low16;
    var first := s.PacketsOf(aus[0]);
    if k >= |first| {
      RunCounted(s.After(aus[0]), aus[1..], k - |first|);
      Low16Again(s.seqNo, |first|, k - |first|);
    }
  }

  /** Over a whole run the k-th packet of a session carries its first number plus k, modulo 2^16. */
  lemma RunNumbered(s: Sender, aus: seq<bytes>, k: nat)
    requires k < |s.Run(aus)|
    ensures s.Run(aus)[k].seqNo == (s.seqNo + k) % 0x1_0000 && s.Run(aus)[k].ssrc == s.ssrc
  {
    hide Sender.Run;
    RunCounted(s, aus, k);
  }

  /** The packets that access units are cut into. */
  function PacketCount(aus: seq<bytes>): nat {
    if aus == [] then 0 else |AllPayloads(Split(aus[0]))| + PacketCount(aus[1..])
  }

  /** The access units that count as frames: those that are not empty. */
  function FrameCount(aus: seq<bytes>): nat {
    if aus == [] then 0 else (if aus[0] == [] then 0 else 1) + FrameCount(aus[1..])
  }

  lemma UnitCounts(s: Sender, au: bytes)
    ensures |s.PacketsOf(au)| == |AllPayloads(Split(au))|
    ensures s.After(au).frame == if au == [] then s.frame else (s.frame + 1) % FRAME_WRAP
    ensures s.After(au).clock == s.clock
  {
    EmptySplit();
  }

  lemma WrapAgain(a: nat, b: nat, c: nat)
    ensures ((a + b) % FRAME_WRAP + c) % FRAME_WRAP == (a + (b + c)) % FRAME_WRAP
  {}

  /** How many packets a run sends, and the frame counter it leaves. */
  lemma {:induction false} RunCounts(s: Sender, aus: seq<bytes>)
    requires s.frame < FRAME_WRAP
    ensures |s.Run(aus)| == PacketCount(aus)
    ensures s.AfterAll(aus).frame == (s.frame + FrameCount(aus)) % FRAME_WRAP
    decreases |aus|
  {
    hide Sender.PacketsOf, Sender.After, Split, AllPayloads;
    if aus != [] {
      UnitCounts(s, aus[0]);
      RunCounts(s.After(aus[0]), aus[1..]);
      WrapAgain(s.frame, if aus[0] == [] then 0 else 1, FrameCount(aus[1..]));
    }
  }

  lemma MarkerAndStamp(s: Sender, au: bytes, k: nat)
    requires k < |s.PacketsOf(au)|
    ensures s.PacketsOf(au)[k].marker <==> k + 1 == |s.PacketsOf(au)|
    ensures s.PacketsOf(au)[k].ts == s.clock(s.frame)
  {}

  lemma FirstOf(aus: seq<bytes>, n: nat)
    requires n < |aus|
    ensures aus[..n + 1][0] == aus[0] && aus[..n + 1][1..] == aus[1..][..n]
  {}

  /** Over a whole run, packet `j` of access unit `n` carries the time stamp of its frame, the first frame
      plus the number of non-empty units before it; and the marker exactly if it is the unit's last. */
  lemma {:induction false} RunFramed(s: Sender, aus: seq<bytes>, n: nat, j: nat)
    requires s.frame < FRAME_WRAP && n < |aus| && PacketCount(aus[..n]) <= j < PacketCount(aus[..n + 1])
    ensures j < |s.Run(aus)|
    ensures s.Run(aus)[j].ts == s.clock((s.frame + FrameCount(aus[..n])) % FRAME_WRAP)
    ensures s.Run(aus)[j].marker <==> j + 1 == PacketCount(aus[..n + 1])
    decreases |aus|
  {
    hide Sender.PacketsOf, Sender.After, Split, AllPayloads;
    var first, after := s.PacketsOf(aus[0]), s.After(aus[0]);
    UnitCounts(s, aus[0]);
    RunCounts(s, aus);
    FirstOf(aus, n);
    if n == 0 {
      assert PacketCount(aus[..1]) == |first|;
      MarkerAndStamp(s, aus[0], j);
      assert s.Run(aus)[j] == first[j];
    } else {
      FirstOf(aus, n - 1);
      RunFramed(after, aus[1..], n - 1, j - |first|);
      WrapAgain(s.frame, if aus[0] == [] then 0 else 1, FrameCount(aus[1..][..n - 1]));
      assert s.Run(aus)[j] == after.Run(aus[1..])[j - |first|];
    }
  }

  /** Every packet of a run belongs to one access unit. */
  lemma {:induction false} UnitOf(aus: seq<bytes>, j: nat) returns (n: nat)
    requires j < PacketCount(aus)
    ensures n < |aus| && PacketCount(aus[..n]) <= j < PacketCount(aus[..n + 1])
    decreases |aus|
  {
    hide Split, AllPayloads;
    var first := |AllPayloads(Split(aus[0]))|;
    if j < first {
      n := 0;
      FirstOf(aus, 0);
    } else {
      var m := UnitOf(aus[1..], j - first);
      n := m + 1;
      FirstOf(aus, m);
      FirstOf(aus, m + 1);
    }
  }

  lemma {:induction false} MultiplesApart(p: nat, q: nat, d: nat)
    ensures p < q ==> p * d + d <= q * d
  {
    if p < q {
      MultiplesApart(p, q - 1, d);
      assert q * d == (q - 1) * d + d;
    }
  }

  lemma QuotientIs(a: nat, d: nat, q: nat)
    requires q * d <= a < q * d + d
    ensures a / d == q
  {
    var p := a / d;
    assert p * d <= a < p * d + d;
    MultiplesApart(p, q, d);
    MultiplesApart(q, p, d);
  }

  lemma DivideShifted(a: nat, c: nat, fps: nat)
    requires fps > 0
    ensures (a + c * fps) / fps == a / fps + c
  {
    var q := a / fps;
    assert q * fps <= a < q * fps + fps;
    assert (q + c) * fps == q * fps + c * fps;
    QuotientIs(a + c * fps, fps, q + c);
  }

  /** The time stamp of every frame: the 90 kHz time as a whole number of ticks, of the 64-bit remainder of
      the product, in 32 bits. */
  lemma StampExact(n: nat, fps: nat, wraps: nat, ticks: nat)
    requires fps > 0
    requires var rest := 90000 * n - 0x1_0000_0000_0000_0000 * wraps;
      0 <= rest < 0x1_0000_0000_0000_0000 && ticks * fps <= rest < ticks * fps + fps
    ensures Timestamp(n, fps) == ticks % 0x1_0000_0000
  {
    Remainder(n * 90000, wraps);
    QuotientIs(n * 90000 % FRAME_WRAP, fps, ticks);
  }

  lemma Remainder(a: nat, wraps: nat)
    requires 0 <= a - 0x1_0000_0000_0000_0000 * wraps < 0x1_0000_0000_0000_0000
    ensures a % FRAME_WRAP == a - 0x1_0000_0000_0000_0000 * wraps
  {}

  /** Until the 64-bit product wraps, `fps` frames advance the time stamp by exactly 90000 ticks. */
  lemma StampPerSecond(n: nat, fps: nat)
    requires fps > 0 && (n + fps) * 90000 < FRAME_WRAP
    ensures Timestamp(n + fps, fps) == (Timestamp(n, fps) + 90000) % 0x1_0000_0000
  {
    hide Timestamp, Ticks;
    StampUnwrapped(n, fps);
    StampUnwrapped(n + fps, fps);
    TicksShifted(n, fps);
    AddBeforeWrap(Ticks(n, fps));
  }

  /** The time of frame `n` on the 90 kHz clock. */
  function Ticks(n: nat, fps: nat): nat
    requires fps > 0
  {
    n * 90000 / fps
  }

  lemma TicksShifted(n: nat, fps: nat)
    requires fps > 0
    ensures Ticks(n + fps, fps) == Ticks(n, fps) + 90000
  {
    DivideShifted(n * 90000, 90000, fps);
    assert (n + fps) * 90000 == n * 90000 + 90000 * fps;
  }

  lemma AddBeforeWrap(q: nat)
    ensures (q + 90000) % 0x1_0000_0000 == (q % 0x1_0000_0000 + 90000) % 0x1_0000_0000
  {}

  lemma StampUnwrapped(n: nat, fps: nat)
    requires fps > 0 && n * 90000 < FRAME_WRAP
    ensures Timestamp(n, fps) == Ticks(n, fps) % 0x1_0000_0000
  {}

  // ---- End to end ----------------------------------------------------------------------------------

  function PacketBytes(hmac: Hmac, k: MediaKeys, p: Packet): bytes {
    Protect(hmac, k, HeaderBytes(p.marker, p.seqNo, p.ts, p.ssrc), p.payload)
  }

  /** The bytes on the TCP connection for a list of packets. */
  function Wire(hmac: Hmac, k: MediaKeys, channel: byte, ps: seq<Packet>): bytes {
    if ps == [] then [] else Frame(channel, PacketBytes(hmac, k, ps[0])) + Wire(hmac, k, channel, ps[1..])
  }

  lemma {:induction false} WireConcat(hmac: Hmac, k: MediaKeys, channel: byte, a: seq<Packet>, b: seq<Packet>)
    ensures Wire(hmac, k, channel, a + b) == Wire(hmac, k, channel, a) + Wire(hmac, k, channel, b)
    decreases |a|
  {
    hide Frame, PacketBytes;
    if a == [] {
      assert a + b == b;
    } else {
      assert (a + b)[1..] == a[1..] + b;
      WireConcat(hmac, k, channel, a[1..], b);
    }
  }

  /** The UDP datagrams for a list of packets. */
  function Datagrams(hmac: Hmac, k: MediaKeys, ps: seq<Packet>): seq<bytes> {
    seq(|ps|, i requires 0 <= i < |ps| => PacketBytes(hmac, k, ps[i]))
  }

  function PayloadsOf(ps: seq<Packet>): seq<bytes> {
    if ps == [] then [] else [ps[0].payload] + PayloadsOf(ps[1..])
  }

  predicate Sendable(payload: bytes) { 0 < |payload| <= Payload.MAX_RTP_PAYLOAD }

  /** The client accepts exactly the sent payloads, in order. */
  lemma {:induction false} WireAccepted(hmac: Hmac, k: MediaKeys, channel: byte, ps: seq<Packet>)
    requires SelfInverse(k.cipher) && forall p | p in ps :: Sendable(p.payload)
    ensures AcceptedPayloads(hmac, k, Wire(hmac, k, channel, ps)) == PayloadsOf(ps)
  {
    hide Protect, Frame, HeaderBytes;
    if ps != [] {
      var p := ps[0];
      assert Sendable(p.payload) && forall q | q in ps[1..] :: q in ps;
      WireAccepted(hmac, k, channel, ps[1..]);
      AcceptedFrame(hmac, k, channel, HeaderBytes(p.marker, p.seqNo, p.ts, p.ssrc), p.payload,
                    Wire(hmac, k, channel, ps[1..]));
    } else {
      assert NextPacket([]) == None;
    }
  }

  /** Over UDP as well. */
  lemma {:induction false} DatagramsAccepted(hmac: Hmac, k: MediaKeys, ps: seq<Packet>)
    requires SelfInverse(k.cipher) && forall p | p in ps :: Sendable(p.payload)
    ensures AcceptedDatagrams(hmac, k, Datagrams(hmac, k, ps)) == PayloadsOf(ps)
  {
    hide Protect, Unprotect, HeaderBytes, SelfInverse;
    if ps != [] {
      var p := ps[0];
      assert Sendable(p.payload) && forall q | q in ps[1..] :: q in ps;
      DatagramsAccepted(hmac, k, ps[1..]);
      UnprotectProtect(hmac, k, HeaderBytes(p.marker, p.seqNo, p.ts, p.ssrc), p.payload);
      assert Datagrams(hmac, k, ps)[1..] == Datagrams(hmac, k, ps[1..]);
    }
  }

  /** The NAL units of a list of access units, in order. */
  function AllNals(aus: seq<bytes>): seq<bytes> {
    if aus == [] then [] else Split(aus[0]) + AllNals(aus[1..])
  }

  lemma {:induction false} AllPayloadsConcat(a: seq<bytes>, b: seq<bytes>)
    ensures AllPayloads(a + b) == AllPayloads(a) + AllPayloads(b)
    decreases |a|
  {
    hide Payload.Payloads;
    if a == [] {
      assert a + b == b;
    } else {
      assert (a + b)[1..] == a[1..] + b;
      AllPayloadsConcat(a[1..], b);
    }
  }

  lemma {:induction false} PayloadsOfConcat(a: seq<Packet>, b: seq<Packet>)
    ensures PayloadsOf(a + b) == PayloadsOf(a) + PayloadsOf(b)
    decreases |a|
  {
    if a == [] {
      assert a + b == b;
    } else {
      assert (a + b)[1..] == a[1..] + b;
      PayloadsOfConcat(a[1..], b);
    }
  }

  lemma {:induction false} PayloadsAt(ps: seq<Packet>)
    ensures |PayloadsOf(ps)| == |ps| && forall i | 0 <= i < |ps| :: PayloadsOf(ps)[i] == ps[i].payload
  {
    if ps != [] { PayloadsAt(ps[1..]); }
  }

  lemma EmptySplit()
    ensures Split([]) == [] && AllPayloads(Split([])) == []
  {
    SplitIsFromStart([]);
    SplitFromSame([], 0, 0);
  }

  /** The payloads of a run are those of all its NAL units. */
  lemma {:induction false} RunPayloads(s: Sender, aus: seq<bytes>)
    ensures PayloadsOf(s.Run(aus)) == AllPayloads(AllNals(aus))
    decreases |aus|
  {
    hide Split, Payload.Payloads;
    if aus != [] {
      var first := s.PacketsOf(aus[0]);
      EmptySplit();
      PayloadsAt(first);
      assert PayloadsOf(first) == AllPayloads(Split(aus[0]));
      PayloadsOfConcat(first, s.After(aus[0]).Run(aus[1..]));
      RunPayloads(s.After(aus[0]), aus[1..]);
      AllPayloadsConcat(Split(aus[0]), AllNals(aus[1..]));
    }
  }

  lemma {:induction false} AllNalsNonEmpty(aus: seq<bytes>)
    ensures forall n | n in AllNals(aus) :: n != []
  {
    hide Split;
    if aus != [] {
      AllNalsNonEmpty(aus[1..]);
      forall n | n in Split(aus[0]) ensures n != [] { SplitClean(aus[0], n); }
    }
  }

  lemma {:induction false} AllPayloadsSendable(nals: seq<bytes>)
    requires forall n | n in nals :: n != []
    ensures forall p | p in AllPayloads(nals) :: Sendable(p)
  {
    hide Payload.Payloads;
    if nals != [] {
      assert nals[0] in nals && forall n | n in nals[1..] :: n in nals;
      Payload.PayloadSizes(nals[0]);
      AllPayloadsSendable(nals[1..]);
    }
  }

  /** What the client emits for a byte stream. */
  function Emitted(hmac: Hmac, k: MediaKeys, st: State, stream: bytes): seq<bytes> {
    Deliver(st, AcceptedPayloads(hmac, k, stream)).emitted
  }

  /** A packet whose tag is not the HMAC of the bytes before it, put in anywhere between frames or datagrams,
      changes nothing of what the client emits and keeps. */
  lemma WrongTagIgnored(hmac: Hmac, k: MediaKeys, st: State, channel: byte, before: seq<bytes>, rtp: bytes, tag: bytes,
                        rest: bytes, others: seq<bytes>)
    requires |tag| == 10 && tag != hmac(k.authKey, rtp)[..10] && |rtp| + 10 <= BUFFER_SIZE
    requires forall p | p in before :: 0 < |p| <= BUFFER_SIZE
    ensures Deliver(st, AcceptedPayloads(hmac, k, Frames(channel, before) + Frame(channel, rtp + tag) + rest))
         == Deliver(st, AcceptedPayloads(hmac, k, Frames(channel, before) + rest))
    ensures Deliver(st, AcceptedDatagrams(hmac, k, before + [rtp + tag] + others))
         == Deliver(st, AcceptedDatagrams(hmac, k, before + others))
  {
    hide Deliver, AcceptedPayloads, AcceptedDatagrams, Unprotect, Frame, Frames;
    WrongTagRefused(hmac, k, rtp, tag);
    RefusedInStream(hmac, k, channel, before, rtp + tag, rest);
    RefusedDatagram(hmac, k, before, rtp + tag, others);
  }

  lemma PacketsSendable(ps: seq<Packet>, nals: seq<bytes>)
    requires PayloadsOf(ps) == AllPayloads(nals) && forall n | n in nals :: n != []
    ensures forall p | p in ps :: Sendable(p.payload)
  {
    hide AllPayloads;
    AllPayloadsSendable(nals);
    PayloadsAt(ps);
    forall p | p in ps ensures Sendable(p.payload) {
      var i :| 0 <= i < |ps| && ps[i] == p;
      assert PayloadsOf(ps)[i] in PayloadsOf(ps);
    }
  }

  /** Packets that carry the payloads of some NAL units deliver exactly these units if and only if
      each of them is deliverable. */
  lemma PacketsDelivered(hmac: Hmac, k: MediaKeys, channel: byte, ps: seq<Packet>, nals: seq<bytes>, st: State,
                         wire: bytes)
    requires SelfInverse(k.cipher) && NothingPending(st) && wire == Wire(hmac, k, channel, ps)
    requires PayloadsOf(ps) == AllPayloads(nals) && forall n | n in nals :: n != []
    ensures Emitted(hmac, k, st, wire) == nals
       <==> forall n | n in nals :: Deliverable(n)
  {
    hide Deliver, AcceptedPayloads, AllPayloads, Deliverable;
    PacketsSendable(ps, nals);
    WireAccepted(hmac, k, channel, ps);
    DeliveryExact(st, nals);
  }

  /** From end to end: any access units, sent in one run under shared keys to a client with
      nothing pending, arrive as exactly their NAL units if and only if every one of these is deliverable. */
  lemma EndToEnd(hmac: Hmac, k: MediaKeys, channel: byte, s: Sender, aus: seq<bytes>, st: State, wire: bytes)
    requires SelfInverse(k.cipher) && NothingPending(st) && wire == Wire(hmac, k, channel, s.Run(aus))
    ensures Emitted(hmac, k, st, wire) == AllNals(aus)
       <==> forall n | n in AllNals(aus) :: Deliverable(n)
  {
    hide Deliver, AcceptedPayloads, AllPayloads, Sender.Run, Deliverable;
    RunPayloads(s, aus);
    AllNalsNonEmpty(aus);
    PacketsDelivered(hmac, k, channel, s.Run(aus), AllNals(aus), st, wire);
  }

  // ---- The bytes of a run ---------------------------------------------------------------------------

  /** On TCP a run is its datagrams, each in a frame. */
  lemma {:induction false} WireIsFrames(hmac: Hmac, k: MediaKeys, channel: byte, ps: seq<Packet>)
    ensures Wire(hmac, k, channel, ps) == Frames(channel, Datagrams(hmac, k, ps))
    decreases |ps|
  {
    hide PacketBytes, Frame;
    if ps != [] {
      WireIsFrames(hmac, k, channel, ps[1..]);
      assert Datagrams(hmac, k, ps)[1..] == Datagrams(hmac, k, ps[1..]);
    }
  }

  /** The bytes of packet `j` of a run, in access unit `n`: its number is the first one plus `j`, its time
      stamp that of the frame, the marker is on the unit's last packet, and the payload is encrypted. */
  lemma RunBytes(hmac: Hmac, k: MediaKeys, s: Sender, aus: seq<bytes>, n: nat, j: nat)
    requires SelfInverse(k.cipher) && s.frame < FRAME_WRAP
    requires n < |aus| && PacketCount(aus[..n]) <= j < PacketCount(aus[..n + 1])
    ensures j < |Datagrams(hmac, k, s.Run(aus))| == |AllPayloads(AllNals(aus))|
    ensures SentAs(hmac, k, Datagrams(hmac, k, s.Run(aus))[j],
                   j + 1 == PacketCount(aus[..n + 1]), (s.seqNo + j) % 0x1_0000,
                   s.clock((s.frame + FrameCount(aus[..n])) % 0x1_0000_0000_0000_0000), s.ssrc,
                   AllPayloads(AllNals(aus))[j])
  {
    hide Sender.Run, PacketCount, FrameCount, AllPayloads, AllNals, SentAs, HeaderBytes, Protect, SelfInverse;
    RunFramed(s, aus, n, j);
    RunNumbered(s, aus, j);
    RunPayloads(s, aus);
    PayloadsAt(s.Run(aus));
    var p := s.Run(aus)[j];
    ProtectedFields(hmac, k, p.marker, p.seqNo, p.ts, p.ssrc, p.payload);
  }

  // ---- Lost, repeated and reordered datagrams ----------------------------------------------------

  /** Only positions below `n`. */
  predicate Within(order: seq<nat>, n: nat) {
    forall i :: 0 <= i < |order| ==> order[i] < n
  }

  /** The elements at these positions: what arrives when the network loses, repeats or reorders. */
  function Pick<T>(s: seq<T>, order: seq<nat>): seq<T>
    requires Within(order, |s|)
  {
    seq(|order|, i requires 0 <= i < |order| => s[order[i]])
  }

  lemma PickMore<T>(s: seq<T>, order: seq<nat>, more: seq<nat>)
    requires Within(order, |s|) && Within(more, |s|)
    ensures Within(order + more, |s|) && Pick(s, order + more) == Pick(s, order) + Pick(s, more)
  {}

  lemma PickAll<T>(s: seq<T>)
    ensures var all := seq(|s|, i => i);
            Within(all, |s|) && Pick(s, all) == s
  {}

  lemma PickedPayloads(ps: seq<Packet>, order: seq<nat>)
    requires Within(order, |ps|)
    ensures |PayloadsOf(ps)| == |ps| && PayloadsOf(Pick(ps, order)) == Pick(PayloadsOf(ps), order)
  {
    PayloadsAt(ps);
    PayloadsAt(Pick(ps, order));
  }

  /** Whatever datagrams of a run arrive, in whatever order, the client accepts their payloads. */
  lemma PickedAccepted(hmac: Hmac, k: MediaKeys, s: Sender, aus: seq<bytes>, order: seq<nat>)
    requires SelfInverse(k.cipher) && s.frame < FRAME_WRAP && Within(order, PacketCount(aus))
    ensures |s.Run(aus)| == |AllPayloads(AllNals(aus))| == PacketCount(aus)
    ensures AcceptedDatagrams(hmac, k, Pick(Datagrams(hmac, k, s.Run(aus)), order))
         == Pick(AllPayloads(AllNals(aus)), order)
  {
    hide AcceptedDatagrams, AllPayloads, AllNals, Sender.Run, PacketBytes, Sendable, SelfInverse;
    var ps := s.Run(aus);
    RunCounts(s, aus);
    RunPayloads(s, aus);
    AllNalsNonEmpty(aus);
    PacketsSendable(ps, AllNals(aus));
    PickedPayloads(ps, order);
    assert Pick(Datagrams(hmac, k, ps), order) == Datagrams(hmac, k, Pick(ps, order));
    forall p | p in Pick(ps, order) ensures Sendable(p.payload) {
      var i :| 0 <= i < |order| && ps[order[i]] == p;
    }
    DatagramsAccepted(hmac, k, Pick(ps, order));
  }

  /** A datagram of a run is its packet's payload with twelve header and ten tag bytes. */
  lemma DatagramSizes(hmac: Hmac, k: MediaKeys, s: Sender, aus: seq<bytes>)
    requires SelfInverse(k.cipher)
    ensures forall d | d in Datagrams(hmac, k, s.Run(aus)) :: 22 < |d| <= Payload.MAX_RTP_PAYLOAD + 22
  {
    hide AllPayloads, AllNals, Sender.Run, HeaderBytes;
    RunPayloads(s, aus);
    AllNalsNonEmpty(aus);
    PacketsSendable(s.Run(aus), AllNals(aus));
  }

  /** The packets that arrive of some NAL units: their positions, the first one being `start`. */
  function Positions(ts: seq<Transfer>, start: nat): seq<nat> {
    if ts == [] then []
    else seq(ts[0].kept, i requires 0 <= i => start + i) + Positions(ts[1..], start + |Payload.Payloads(ts[0].nal)|)
  }

  function NalsOf(ts: seq<Transfer>): seq<bytes> {
    if ts == [] then [] else [ts[0].nal] + NalsOf(ts[1..])
  }

  lemma PickFirst<T>(before: seq<T>, ps: seq<T>, more: seq<T>, kept: nat)
    requires kept <= |ps|
    ensures var first := seq(kept, i requires 0 <= i => |before| + i);
            Within(first, |before + ps + more|) && Pick(before + ps + more, first) == ps[..kept]
  {}

  lemma PositionsCons(ts: seq<Transfer>, start: nat)
    requires ts != []
    ensures Positions(ts, start)
         == seq(ts[0].kept, i requires 0 <= i => start + i)
            + Positions(ts[1..], start + |Payload.Payloads(ts[0].nal)|)
    ensures AllPayloads(NalsOf(ts)) == Payload.Payloads(ts[0].nal) + AllPayloads(NalsOf(ts[1..]))
  {
    hide Payload.Payloads;
    assert NalsOf(ts)[1..] == NalsOf(ts[1..]);
  }

  lemma {:induction false} PositionsPick(before: seq<bytes>, ts: seq<Transfer>)
    requires forall t | t in ts :: t.Valid()
    ensures var all := before + AllPayloads(NalsOf(ts));
            Within(Positions(ts, |before|), |all|) && Pick(all, Positions(ts, |before|)) == Arriving(ts)
    decreases |ts|
  {
    hide Payload.Payloads, Pick, Within, AllPayloads, Positions, NalsOf;
    if ts == [] {
      NothingPicked(before);
    } else {
      assert ts[0] in ts && ts[0].Valid() && forall t | t in ts[1..] :: t in ts;
      var ps, more := Payload.Payloads(ts[0].nal), AllPayloads(NalsOf(ts[1..]));
      PositionsCons(ts, |before|);
      PositionsPick(before + ps, ts[1..]);
      assert before + (ps + more) == before + ps + more;
      PickFirst(before, ps, more, ts[0].kept);
      PickMore(before + ps + more, seq(ts[0].kept, i requires 0 <= i => |before| + i),
               Positions(ts[1..], |before + ps|));
    }
  }

  lemma NothingPicked(before: seq<bytes>)
    ensures Within(Positions([], |before|), |before + AllPayloads(NalsOf([]))|)
    ensures Pick(before + AllPayloads(NalsOf([])), Positions([], |before|)) == []
  {}

  /** If of each NAL unit of a run only the first packets arrive, the client emits exactly the units
      that arrived whole, in every state. */
  lemma DatagramLoss(hmac: Hmac, k: MediaKeys, s: Sender, aus: seq<bytes>, ts: seq<Transfer>, st: State)
    requires SelfInverse(k.cipher) && s.frame < FRAME_WRAP
    requires (forall t | t in ts :: t.Valid()) && NalsOf(ts) == AllNals(aus)
    ensures Within(Positions(ts, 0), |s.Run(aus)|)
    ensures var arrived := Pick(Datagrams(hmac, k, s.Run(aus)), Positions(ts, 0));
            Deliver(st, AcceptedDatagrams(hmac, k, arrived)).emitted == Complete(ts)
  {
    hide Deliver, AllPayloads, AllNals, Sender.Run, SelfInverse, AcceptedDatagrams, Positions;
    PositionsPick([], ts);
    assert [] + AllPayloads(NalsOf(ts)) == AllPayloads(AllNals(aus));
    RunCounts(s, aus);
    RunPayloads(s, aus);
    PayloadsAt(s.Run(aus));
    PickedAccepted(hmac, k, s, aus, Positions(ts, 0));
    TailLoss(st, ts);
  }

  // ---- Access units as an encoder writes them -------------------------------------------------------

  function AllUnits(aus: seq<seq<Unit>>): seq<bytes> {
    if aus == [] then [] else Nals(aus[0]) + AllUnits(aus[1..])
  }

  function JoinEach(aus: seq<seq<Unit>>): seq<bytes> {
    if aus == [] then [] else [Join(aus[0])] + JoinEach(aus[1..])
  }

  lemma {:induction false} NalsOfJoined(aus: seq<seq<Unit>>)
    requires forall au | au in aus :: Recoverable(au)
    ensures AllNals(JoinEach(aus)) == AllUnits(aus)
  {
    hide Split, Recoverable, Join, Nals;
    if aus != [] {
      assert aus[0] in aus && forall au | au in aus[1..] :: au in aus;
      JoinRoundTrip(aus[0]);
      NalsOfJoined(aus[1..]);
      assert JoinEach(aus)[1..] == JoinEach(aus[1..]);
    }
  }

  /** What an encoder writes as well-formed access units with deliverable NAL units is what the
      client emits, in order and complete, whatever bytes are left in its buffer. */
  lemma EncoderToClient(hmac: Hmac, k: MediaKeys, channel: byte, s: Sender, aus: seq<seq<Unit>>, st: State, wire: bytes)
    requires SelfInverse(k.cipher) && wire == Wire(hmac, k, channel, s.Run(JoinEach(aus)))
    requires forall au | au in aus :: Recoverable(au)
    requires forall n | n in AllUnits(aus) :: Deliverable(n)
    ensures Emitted(hmac, k, st, wire) == AllUnits(aus)
  {
    hide Deliver, AcceptedPayloads, Sender.Run, Wire, Deliverable;
    NalsOfJoined(aus);
    RunDelivered(hmac, k, channel, s, JoinEach(aus), st);
  }

  /** Deliverable units arrive in every state of the client. */
  lemma RunDelivered(hmac: Hmac, k: MediaKeys, channel: byte, s: Sender, aus: seq<bytes>, st: State)
    requires SelfInverse(k.cipher) && forall n | n in AllNals(aus) :: Deliverable(n)
    ensures Emitted(hmac, k, st, Wire(hmac, k, channel, s.Run(aus))) == AllNals(aus)
  {
    hide Deliver, AcceptedPayloads, Sender.Run, Wire, Deliverable;
    var ps := s.Run(aus);
    RunPayloads(s, aus);
    AllNalsNonEmpty(aus);
    PacketsSendable(ps, AllNals(aus));
    WireAccepted(hmac, k, channel, ps);
    DeliverAll(st, AllNals(aus));
  }
}
