/** Protected RTP packets and their interleaved framing on the TCP connection (RFC 3550
    section 5.1, RFC 2326 section 10.12), as both programs see them.  Main result: the
    client's view of a framed packet is the payload the server put in. */
module Srtp {
  import opened Bytes

  datatype Option<+T> = None | Some(value: T)

  type Digest = b: bytes | |b| == 20 witness seq(20, _ => 0)

  /** HMAC-SHA1 of a message under a key; the library function is left open. */
  type Hmac = (bytes, bytes) -> Digest

  /** What a cipher object under fixed keys does to a buffer; the same operation encrypts and decrypts. */
  type Cipher = bytes -> bytes

  ghost predicate SelfInverse(c: Cipher) {
    forall d: bytes :: |c(d)| == |d| && c(c(d)) == d
  }

  /** The media protection of one session: payload cipher and authentication key. */
  datatype MediaKeys = MediaKeys(cipher: Cipher, authKey: bytes)

  const AUTH_TAG_LEN := 10

  /** The twelve header bytes: version 2, no padding, extension or contributors, payload type 96. */
  function HeaderBytes(marker: bool, seqNo: u16, ts: u32, ssrc: u32): (b: bytes)
    ensures |b| == 12 && b[0] == 0x80
  {
    [0x80, if marker then 96 + 0x80 else 96] + U16Bytes(seqNo) + U32Bytes(ts) + U32Bytes(ssrc)
  }

  /** Header, encrypted payload, and the first ten bytes of the digest over both. */
  function Protect(hmac: Hmac, k: MediaKeys, header: bytes, payload: bytes): bytes {
    var rtp := header + k.cipher(payload);
    rtp + hmac(k.authKey, rtp)[..AUTH_TAG_LEN]
  }

  /** `$`, the channel, and the length, before the packet. */
  function Frame(channel: byte, packet: bytes): bytes {
    [0x24, channel] + U16Bytes(Low16(|packet|)) + packet
  }

  /** The contributor count and the extension bit in the first byte of a header. */
  function Contributors(first: byte): nat { first % 16 }

  predicate Extended(first: byte) { first / 16 % 2 == 1 }

  /** The length of the header of an authenticated packet, if it fits into the `rtp` bytes. */
  function HeaderLength(rtp: bytes): (r: Option<nat>)
    requires |rtp| >= 12
    ensures r.Some? ==> r.value <= |rtp|
  {
    var base := 12 + Contributors(rtp[0]) * 4;
    if |rtp| < base then None
    else if !Extended(rtp[0]) then Some(base)
    else if |rtp| < base + 4 then None
    else
      var end := base + 4 + U16(rtp[base + 2], rtp[base + 3]) * 4;
      if |rtp| < end then None else Some(end)
  }

  /** The last ten bytes are the truncated digest of the bytes before them. */
  predicate TagMatches(hmac: Hmac, k: MediaKeys, packet: bytes)
    requires |packet| >= AUTH_TAG_LEN
  {
    packet[|packet| - AUTH_TAG_LEN..] == hmac(k.authKey, packet[..|packet| - AUTH_TAG_LEN])[..AUTH_TAG_LEN]
  }

  /** The decrypted payload of a received packet, or nothing if the packet is dropped: too short,
      wrong tag, bad header or empty payload. */
  function Unprotect(hmac: Hmac, k: MediaKeys, packet: bytes): (r: Option<bytes>)
  {
    if |packet| < 12 + AUTH_TAG_LEN then None
    else
      var rtp := packet[..|packet| - AUTH_TAG_LEN];
      if !TagMatches(hmac, k, packet) then None
      else
        match HeaderLength(rtp)
        case None => None
        case Some(h) => if h == |rtp| then None else Some(k.cipher(rtp[h..]))
  }

  lemma PlainFirstByte(first: byte)
    requires first == 0x80
    ensures Contributors(first) == 0 && !Extended(first)
  {}

  lemma PlainHeader(rtp: bytes)
    requires |rtp| >= 12 && rtp[0] == 0x80
    ensures HeaderLength(rtp) == Some(12)
  {
    hide Contributors, Extended, U16;
    PlainFirstByte(rtp[0]);
  }

  /** With shared keys the client recovers every non-empty payload. */
  lemma UnprotectProtect(hmac: Hmac, k: MediaKeys, header: bytes, payload: bytes)
    requires SelfInverse(k.cipher) && |header| == 12 && header[0] == 0x80 && payload != []
    ensures Unprotect(hmac, k, Protect(hmac, k, header, payload)) == Some(payload)
  {
    hide HeaderLength;
    var enc := k.cipher(payload);
    var rtp := header + enc;
    var tag := hmac(k.authKey, rtp)[..AUTH_TAG_LEN];
    var packet := rtp + tag;
    assert packet[..|packet| - AUTH_TAG_LEN] == rtp && packet[|packet| - AUTH_TAG_LEN..] == tag;
    PlainHeader(rtp);
    assert rtp[12..] == enc;
  }

  // ---- What a sent packet is, byte by byte ---------------------------------------------------------

  /** The header fields where RFC 3550 section 5.1 puts them: version 2 without padding, extension or
      contributors; marker and payload type 96; sequence number, time stamp and source. */
  predicate Fields(b: bytes, marker: bool, seqNo: u16, ts: u32, ssrc: u32) {
    && |b| >= 12
    && b[0] == 0x80 && b[1] % 128 == 96 && (b[1] >= 128 <==> marker)
    && b[2] as int * 256 + b[3] as int == seqNo
    && ((b[4] as int * 256 + b[5] as int) * 256 + b[6] as int) * 256 + b[7] as int == ts
    && ((b[8] as int * 256 + b[9] as int) * 256 + b[10] as int) * 256 + b[11] as int == ssrc
  }

  lemma HeaderFields(marker: bool, seqNo: u16, ts: u32, ssrc: u32)
    ensures Fields(HeaderBytes(marker, seqNo, ts, ssrc), marker, seqNo, ts, ssrc)
  {
    hide U32Bytes;
    WordBytes(ts);
    WordBytes(ssrc);
  }

  lemma WordBytes(n: u32)
    ensures var b := U32Bytes(n);
      |b| == 4 && ((b[0] as int * 256 + b[1] as int) * 256 + b[2] as int) * 256 + b[3] as int == n
  {
    var hi, lo := n / 0x1_0000, n % 0x1_0000;
    assert n == hi * 0x1_0000 + lo && hi == hi / 256 * 256 + hi % 256 && lo == lo / 256 * 256 + lo % 256;
    assert U32Bytes(n) == [hi / 256, hi % 256, lo / 256, lo % 256];
  }

  /** The twelve header bytes in the clear, then the encrypted payload, then ten bytes of the HMAC over all
      before them. */
  ghost predicate SentAs(hmac: Hmac, k: MediaKeys, b: bytes, marker: bool, seqNo: u16, ts: u32, ssrc: u32,
                         payload: bytes)
  {
    && |b| == |payload| + 22 && Fields(b, marker, seqNo, ts, ssrc)
    && b[12..|b| - 10] == k.cipher(payload)
    && b[|b| - 10..] == hmac(k.authKey, b[..|b| - 10])[..10]
  }

  lemma ProtectedFields(hmac: Hmac, k: MediaKeys, marker: bool, seqNo: u16, ts: u32, ssrc: u32, payload: bytes)
    requires SelfInverse(k.cipher)
    ensures SentAs(hmac, k, Protect(hmac, k, HeaderBytes(marker, seqNo, ts, ssrc), payload),
                   marker, seqNo, ts, ssrc, payload)
  {
    var header := HeaderBytes(marker, seqNo, ts, ssrc);
    HeaderFields(marker, seqNo, ts, ssrc);
    hide HeaderBytes;
    var rtp := header + k.cipher(payload);
    var b := Protect(hmac, k, header, payload);
    assert b[..|b| - 10] == rtp && rtp[12..] == k.cipher(payload) && b[12..|b| - 10] == rtp[12..];
    assert forall i | 0 <= i < 12 :: b[i] == header[i];
  }

  // ---- What the client refuses ---------------------------------------------------------------------

  /** Whatever stands before it, a tag that is not the digest of the bytes before it is refused. */
  lemma WrongTagRefused(hmac: Hmac, k: MediaKeys, rtp: bytes, tag: bytes)
    requires |tag| == 10 && tag != hmac(k.authKey, rtp)[..10]
    ensures Unprotect(hmac, k, rtp + tag) == None
  {
    hide HeaderLength;
    var packet := rtp + tag;
    assert packet[..|packet| - 10] == rtp && packet[|packet| - 10..] == tag;
  }

  /** An accepted packet is longer than header and tag and ends in the HMAC of all before its last ten bytes. */
  lemma AcceptedIsAuthentic(hmac: Hmac, k: MediaKeys, packet: bytes)
    requires Unprotect(hmac, k, packet).Some?
    ensures |packet| > 22
    ensures packet[|packet| - 10..] == hmac(k.authKey, packet[..|packet| - 10])[..10]
  {
    hide HeaderLength;
    HeaderAtLeastTwelve(packet[..|packet| - 10]);
  }

  lemma HeaderAtLeastTwelve(rtp: bytes)
    requires |rtp| >= 12
    ensures HeaderLength(rtp).Some? ==> 12 <= HeaderLength(rtp).value
  {}

  /** The header of a packet of any sender: twelve bytes, as many sources of four bytes as the low four bits
      of the first byte say, and with bit 0x10 an extension of a length in words. */
  ghost predicate AnyHeader(fixed: bytes, sources: bytes, extension: bytes) {
    && |fixed| == 12 && |sources| == fixed[0] % 16 * 4
    && (if fixed[0] / 16 % 2 == 0 then extension == []
        else |extension| >= 4 && |extension| == 4 + 4 * (extension[2] as int * 256 + extension[3] as int))
  }

  /** The payload is found behind every such header. */
  lemma AnyHeaderSkipped(hmac: Hmac, k: MediaKeys, fixed: bytes, sources: bytes, extension: bytes, payload: bytes)
    requires SelfInverse(k.cipher) && AnyHeader(fixed, sources, extension) && payload != []
    ensures Unprotect(hmac, k, Protect(hmac, k, fixed + sources + extension, payload)) == Some(payload)
  {
    var header := fixed + sources + extension;
    var rtp := header + k.cipher(payload);
    var packet := Protect(hmac, k, header, payload);
    assert packet[..|packet| - 10] == rtp && rtp[|header|..] == k.cipher(payload);
    assert packet[|packet| - 10..] == hmac(k.authKey, rtp)[..10];
    assert rtp[0] == fixed[0];
    if extension != [] {
      var base := 12 + |sources|;
      assert rtp[base + 2] == extension[2] && rtp[base + 3] == extension[3];
    }
  }

  /** And the client finds no payload in a packet that ends inside its header or with it. */
  lemma NoPayloadRefused(hmac: Hmac, k: MediaKeys, fixed: bytes, sources: bytes, extension: bytes, n: nat)
    requires AnyHeader(fixed, sources, extension) && n <= |fixed + sources + extension|
    ensures var rtp := (fixed + sources + extension)[..n];
      Unprotect(hmac, k, rtp + hmac(k.authKey, rtp)[..10]) == None
  {
    var header := fixed + sources + extension;
    var rtp := header[..n];
    var packet := rtp + hmac(k.authKey, rtp)[..10];
    assert packet[..|packet| - 10] == rtp;
    if n >= 12 {
      assert rtp[0] == fixed[0];
      var base := 12 + |sources|;
      if extension != [] && n >= base + 4 {
        assert rtp[base + 2] == extension[2] && rtp[base + 3] == extension[3];
      }
    }
  }

  // ---- The client's reading of the byte stream -------------------------------------------------

  const BUFFER_SIZE := 2048

  /** The next packet of the interleaved stream and the bytes after it; nothing when the stream ends
      inside a frame or the frame is one the client stops at. */
  function NextPacket(stream: bytes): (r: Option<(bytes, bytes)>)
    ensures r.Some? ==> |r.value.1| < |stream|
  {
    if |stream| < 4 || stream[0] != 0x24 then None
    else
      var n := U16(stream[2], stream[3]);
      if n == 0 || n > BUFFER_SIZE || |stream| < 4 + n then None
      else Some((stream[4..4 + n], stream[4 + n..]))
  }

  /** The decrypted payloads of all packets the client accepts from the stream, in order. */
  function AcceptedPayloads(hmac: Hmac, k: MediaKeys, stream: bytes): seq<bytes>
    decreases |stream|
  {
    match NextPacket(stream)
    case None => []
    case Some((packet, rest)) =>
      (match Unprotect(hmac, k, packet) case None => [] case Some(p) => [p]) + AcceptedPayloads(hmac, k, rest)
  }

  lemma NextOfFrame(channel: byte, packet: bytes, rest: bytes)
    requires 0 < |packet| <= BUFFER_SIZE
    ensures NextPacket(Frame(channel, packet) + rest) == Some((packet, rest))
  {
    var stream := Frame(channel, packet) + rest;
    U16RoundTrip(|packet|);
    assert stream[2] == U16Bytes(|packet|)[0] && stream[3] == U16Bytes(|packet|)[1];
    assert stream[4..4 + |packet|] == packet && stream[4 + |packet|..] == rest;
  }

  lemma AcceptedFrame(hmac: Hmac, k: MediaKeys, channel: byte, header: bytes, payload: bytes, rest: bytes)
    requires SelfInverse(k.cipher) && |header| == 12 && header[0] == 0x80 && 0 < |payload| <= BUFFER_SIZE - 22
    ensures AcceptedPayloads(hmac, k, Frame(channel, Protect(hmac, k, header, payload)) + rest)
         == [payload] + AcceptedPayloads(hmac, k, rest)
  {
    var packet := Protect(hmac, k, header, payload);
    assert |packet| == 22 + |payload|;
    UnprotectProtect(hmac, k, header, payload);
    NextOfFrame(channel, packet, rest);
  }

  /** The payloads the client accepts from datagrams, received one by one. */
  function AcceptedDatagrams(hmac: Hmac, k: MediaKeys, datagrams: seq<bytes>): seq<bytes> {
    if datagrams == [] then []
    else
      (match Unprotect(hmac, k, datagrams[0]) case None => [] case Some(p) => [p])
      + AcceptedDatagrams(hmac, k, datagrams[1..])
  }

  // ---- Refused packets among others ------------------------------------------------------------------

  /** The header bytes of a frame: `$`, the channel, and the length, most significant byte first. */
  lemma FrameFields(channel: byte, packet: bytes)
    requires |packet| < 0x1_0000
    ensures var f := Frame(channel, packet);
      && |f| == 4 + |packet| && f[0] == '$' as int && f[1] == channel
      && f[2] as int * 256 + f[3] as int == |packet| && f[4..] == packet
  {}

  /** The reader takes exactly such frames of 1 to 2048 bytes. */
  lemma NextExactly(stream: bytes, packet: bytes, rest: bytes)
    ensures NextPacket(stream) == Some((packet, rest))
       <==> 1 <= |packet| <= 2048 && |stream| >= 4 && stream == Frame(stream[1], packet) + rest
  {
    if NextPacket(stream) == Some((packet, rest)) {
      assert stream == stream[..4] + (packet + rest);
      U16Value(stream[2], stream[3]);
      assert Frame(stream[1], packet)[..4] == stream[..4];
      assert Frame(stream[1], packet) == stream[..4] + packet;
    } else if 1 <= |packet| <= 2048 && |stream| >= 4 && stream == Frame(stream[1], packet) + rest {
      NextOfFrame(stream[1], packet, rest);
    }
  }

  lemma U16Value(hi: byte, lo: byte)
    ensures U16Bytes(U16(hi, lo)) == [hi, lo]
  {}

  function Frames(channel: byte, packets: seq<bytes>): bytes {
    if packets == [] then [] else Frame(channel, packets[0]) + Frames(channel, packets[1..])
  }

  lemma AcceptedNext(hmac: Hmac, k: MediaKeys, channel: byte, packet: bytes, rest: bytes)
    requires 0 < |packet| <= BUFFER_SIZE
    ensures AcceptedPayloads(hmac, k, Frame(channel, packet) + rest)
         == (match Unprotect(hmac, k, packet) case None => [] case Some(p) => [p]) + AcceptedPayloads(hmac, k, rest)
  {
    hide Unprotect, Frame, NextPacket;
    NextOfFrame(channel, packet, rest);
  }

  /** A refused packet between others of a stream leaves no trace: what is accepted is what would be
      without its frame. */
  lemma {:induction false} RefusedInStream(hmac: Hmac, k: MediaKeys, channel: byte, before: seq<bytes>, bad: bytes,
                                           rest: bytes)
    requires Unprotect(hmac, k, bad) == None && 0 < |bad| <= BUFFER_SIZE
    requires forall p | p in before :: 0 < |p| <= BUFFER_SIZE
    ensures AcceptedPayloads(hmac, k, Frames(channel, before) + Frame(channel, bad) + rest)
         == AcceptedPayloads(hmac, k, Frames(channel, before) + rest)
    decreases |before|
  {
    hide Unprotect, Frame, NextPacket, AcceptedPayloads;
    if before == [] {
      AcceptedNext(hmac, k, channel, bad, rest);
      assert [] + Frame(channel, bad) + rest == Frame(channel, bad) + rest && [] + rest == rest;
    } else {
      assert before[0] in before && forall p | p in before[1..] :: p in before;
      var f, fs := Frame(channel, before[0]), Frames(channel, before[1..]);
      RefusedInStream(hmac, k, channel, before[1..], bad, rest);
      AcceptedNext(hmac, k, channel, before[0], fs + Frame(channel, bad) + rest);
      AcceptedNext(hmac, k, channel, before[0], fs + rest);
      assert f + fs + Frame(channel, bad) + rest == f + (fs + Frame(channel, bad) + rest);
      assert f + fs + rest == f + (fs + rest);
    }
  }

  lemma {:induction false} RefusedDatagram(hmac: Hmac, k: MediaKeys, before: seq<bytes>, bad: bytes, rest: seq<bytes>)
    requires Unprotect(hmac, k, bad) == None
    ensures AcceptedDatagrams(hmac, k, before + [bad] + rest) == AcceptedDatagrams(hmac, k, before + rest)
    decreases |before|
  {
    hide Unprotect;
    if before == [] {
      assert [] + [bad] + rest == [bad] + rest && ([bad] + rest)[1..] == rest && [] + rest == rest;
    } else {
      RefusedDatagram(hmac, k, before[1..], bad, rest);
      assert (before + [bad] + rest)[1..] == before[1..] + [bad] + rest && (before + rest)[1..] == before[1..] + rest;
    }
  }
}
