/** Encrypted control messages on a stream socket: a four-byte length, then the encrypted text.
    Main results: over arbitrary partial sends and receives the peer reads back exactly the
    messages written, one by one, as long as each has a length from 1 to 65536; and any
    other message is not delivered. */
module ControlChannel {
  import opened Bytes
  import opened AriaCipher
  import opened Srtp
  import Sockets

  const MAX_MESSAGE := 65536

  /** The conversion to 32 bits. */
  function Low32(n: nat): u32 {
    if n < 0x1_0000_0000 then n else n % 0x1_0000_0000
  }

  // ---- Framing --------------------------------------------------------------------------------------

  function Framed(c: Cipher, message: bytes): bytes { U32Bytes(Low32(|message|)) + c(message) }

  /** The first message of a stream and what follows it. */
  function Unframed(c: Cipher, stream: bytes): Option<(bytes, bytes)> {
    if |stream| < 4 then None
    else
      var length := U32(stream[..4]);
      if length == 0 || length > MAX_MESSAGE || |stream| - 4 < length then None
      else Some((c(stream[4..4 + length]), stream[4 + length..]))
  }

  /** Before the encrypted text stands its length in four bytes, most significant first. */
  lemma FramedFields(c: Cipher, message: bytes)
    requires |message| < 0x1_0000_0000
    ensures var f := Framed(c, message);
      && |f| >= 4 && f[4..] == c(message)
      && ((f[0] as int * 256 + f[1] as int) * 256 + f[2] as int) * 256 + f[3] as int == |message|
  {
    hide U32Bytes;
    var word := U32Bytes(|message|);
    WordBytes(|message|);
    assert Framed(c, message) == word + c(message);
    assert forall i | 0 <= i < 4 :: (word + c(message))[i] == word[i];
  }

  predicate Acceptable(message: bytes) { 1 <= |message| <= MAX_MESSAGE }

  /** A message arrives unchanged exactly when its length is acceptable. */
  lemma {:induction false} MessageArrives(c: Cipher, message: bytes, rest: bytes)
    requires SelfInverse(c)
    ensures Unframed(c, Framed(c, message) + rest) == Some((message, rest)) <==> 1 <= |message| <= 65536
  {
    hide U32, U32Bytes;
    var stream, body, length := Framed(c, message) + rest, c(message), Low32(|message|);
    assert |body| == |message| && c(body) == message;
    U32RoundTrip(length);
    assert stream == U32Bytes(length) + (body + rest);
    assert stream[..4] == U32Bytes(length) && stream[4..] == body + rest;
    if Acceptable(message) {
      assert length == |message|;
      assert stream[4..4 + length] == body && stream[4 + length..] == rest;
    } else if Unframed(c, stream).Some? {
      assert |Unframed(c, stream).value.0| == length;
    }
  }

  /** Texts of one-byte characters, as they are sent. */
  predicate OneByte(text: string) { forall i :: 0 <= i < |text| ==> text[i] as int < 256 }

  function ByteOf(c: char): byte
    requires c as int < 256
  {
    c as int
  }

  function ToBytes(text: string): bytes
    requires OneByte(text)
  {
    seq(|text|, i requires 0 <= i < |text| => ByteOf(text[i]))
  }

  function ToText(b: bytes): string {
    seq(|b|, i requires 0 <= i < |b| => b[i] as char)
  }

  /** A text goes through the encrypted channel unchanged exactly when its length is acceptable. */
  lemma {:induction false} TextArrives(c: Cipher, text: string, rest: bytes)
    requires SelfInverse(c) && OneByte(text)
    ensures ToText(ToBytes(text)) == text
    ensures Unframed(c, Framed(c, ToBytes(text)) + rest) == Some((ToBytes(text), rest)) <==> 1 <= |text| <= 65536
  {
    MessageArrives(c, ToBytes(text), rest);
  }

  /** What the receiver makes of one text. */
  function Through(c: Cipher, text: string): Option<string>
    requires OneByte(text)
  {
    match Unframed(c, Framed(c, ToBytes(text)))
    case None => None
    case Some((message, _)) => Some(ToText(message))
  }

  /** As long as its length fits into the four length bytes, a text is either received as it is or refused. */
  lemma {:induction false} ThroughExactly(c: Cipher, text: string)
    requires SelfInverse(c) && OneByte(text) && |text| < 0x1_0000_0000
    ensures Through(c, text) == if 1 <= |text| <= 65536 then Some(text) else None
  {
    hide U32, U32Bytes;
    var stream := Framed(c, ToBytes(text));
    TextArrives(c, text, []);
    assert stream + [] == stream;
    U32RoundTrip(|text|);
    assert stream[..4] == U32Bytes(|text|);
  }

  lemma ReceivedOneByte(c: Cipher, text: string)
    requires OneByte(text)
    ensures Through(c, text).Some? ==> OneByte(Through(c, text).value)
  {
    hide Unframed, Framed, ToBytes;
  }

  function FramedAll(c: Cipher, messages: seq<bytes>): bytes {
    if messages == [] then [] else Framed(c, messages[0]) + FramedAll(c, messages[1..])
  }

  /** The messages of a stream, up to the first that is missing or refused. */
  function UnframedAll(c: Cipher, stream: bytes): seq<bytes>
    decreases |stream|
  {
    match Unframed(c, stream)
    case None => []
    case Some((message, rest)) => [message] + UnframedAll(c, rest)
  }

  /** A conversation arrives message by message; one that is not acceptable ends it. */
  lemma {:induction false} ConversationArrives(c: Cipher, messages: seq<bytes>)
    requires SelfInverse(c)
    ensures UnframedAll(c, FramedAll(c, messages)) == messages <==> forall m :: m in messages ==> Acceptable(m)
  {
    hide SelfInverse, Unframed, Framed;
    if messages == [] {
      EmptyStream(c);
    } else {
      var m, later := messages[0], messages[1..];
      MessageArrives(c, m, FramedAll(c, later));
      ConversationArrives(c, later);
      assert messages == [m] + later;
      if !Acceptable(m) && UnframedAll(c, FramedAll(c, messages)) == messages {
        RefusedMessage(c, m, FramedAll(c, later));
      }
    }
  }

  lemma EmptyStream(c: Cipher)
    ensures UnframedAll(c, []) == []
  {
  }

  /** A message that is not acceptable does not come out, whatever follows it. */
  lemma {:induction false} RefusedMessage(c: Cipher, message: bytes, rest: bytes)
    requires SelfInverse(c) && !Acceptable(message)
    ensures UnframedAll(c, Framed(c, message) + rest) == [] || UnframedAll(c, Framed(c, message) + rest)[0] != message
  {
    hide U32, U32Bytes;
    var stream, length := Framed(c, message) + rest, Low32(|message|);
    U32RoundTrip(length);
    assert stream[..4] == U32Bytes(length);
    if Unframed(c, stream).Some? {
      assert |Unframed(c, stream).value.0| == length <= MAX_MESSAGE;
    }
  }

  // ---- Over the sockets -----------------------------------------------------------------------------

  /** The encrypted copy of a message. */
  method EncryptedCopy(cipher: AriaCipher, data: bytes) returns (buf: array<byte>)
    requires cipher.Valid() && cipher.Ready()
    ensures fresh(buf) && buf.Length == |data|
    ensures buf[..] == CipherOf(cipher.key, cipher.iv)(data)
  {
    hide AriaCtr;
    var n := |data|;
    buf := new byte[n](i requires 0 <= i < n => data[i]);
    assert buf[..] == data && buf[0..0 + n] == data;
    var _ := cipher.Encrypt(buf, 0, n);
    assert buf[..] == AriaCtr(cipher.key, cipher.iv, data);
  }

  /** Only part of the length bytes was taken. */
  ghost predicate LengthCut(before: bytes, message: bytes, now: bytes) {
    |message| >= 4 && exists m :: 0 < m < 4 && now == before + message[..m]
  }

  lemma HeaderCut(before: bytes, word: bytes, body: bytes, m: int, now: bytes)
    requires |word| == 4 && m < 4 && now == if m > 0 then before + word[..m] else before
    ensures before <= now <= before + (word + body)
    ensures m > 0 ==> LengthCut(before, word + body, now)
  {
    if m > 0 { assert (word + body)[..m] == word[..m]; }
  }

  lemma BodyCut(before: bytes, word: bytes, body: bytes, now: bytes)
    requires before + word <= now <= before + word + body
    ensures before <= now <= before + (word + body)
  {
    assert before + word + body == before + (word + body);
  }

  lemma FramedParts(c: Cipher, data: bytes)
    ensures Framed(c, data) == U32Bytes(Low32(|data|)) + c(data)
  {}

  /** A success adds the framed message.  A failure leaves a prefix of it: either a send failed, or only some
      of the four length bytes were taken. */
  method SendEncrypted(sock: Sockets.OutSocket, cipher: AriaCipher, data: bytes) returns (ok: bool)
    requires cipher.Valid() && cipher.Ready()
    modifies sock
    ensures ok ==> sock.sent == old(sock.sent) + Framed(CipherOf(cipher.key, cipher.iv), data)
    ensures ok ==> sock.clean == old(sock.clean)
    ensures old(sock.sent) <= sock.sent <= old(sock.sent) + Framed(CipherOf(cipher.key, cipher.iv), data)
    ensures !ok && sock.clean ==> LengthCut(old(sock.sent), Framed(CipherOf(cipher.key, cipher.iv), data), sock.sent)
  {
    hide CipherOf, U32Bytes, LengthCut, Framed, Low32;
    var buf := EncryptedCopy(cipher, data);
    ghost var before, body := sock.sent, buf[..];
    var word := U32Bytes(Low32(|data|));
    FramedParts(CipherOf(cipher.key, cipher.iv), data);
    var m := SendWord(sock, word);
    if m != 4 {
      HeaderCut(before, word, body, m, sock.sent);
      return false;
    }
    assert buf[..buf.Length] == body && word[..4] == word;
    ok := sock.SendAll(buf, |data|);
    BodyCut(before, word, body, sock.sent);
  }

  /** One send of four bytes. */
  method SendWord(sock: Sockets.OutSocket, word: bytes) returns (m: int)
    requires |word| == 4
    modifies sock
    ensures m <= 4 && sock.clean == (old(sock.clean) && m > 0)
    ensures sock.sent == if m > 0 then old(sock.sent) + word[..m] else old(sock.sent)
  {
    var header := new byte[4](i requires 0 <= i < 4 => word[i]);
    assert header[..] == word;
    m := sock.Send(header, 0, 4);
    assert m > 0 ==> header[0..0 + m] == word[..m];
  }

  lemma UnframedParts(c: Cipher, stream: bytes, length: nat)
    requires |stream| >= 4 && length == U32(stream[..4])
    ensures length == 0 || length > MAX_MESSAGE || |stream[4..]| < length ==> Unframed(c, stream) == None
    ensures 0 < length <= MAX_MESSAGE && length <= |stream[4..]| ==>
      Unframed(c, stream) == Some((c(stream[4..][..length]), stream[4..][length..]))
  {
    hide U32;
    if 0 < length <= MAX_MESSAGE && length <= |stream[4..]| {
      assert stream[4..][..length] == stream[4..4 + length] && stream[4..][length..] == stream[4 + length..];
    }
  }

  lemma TooShortToUnframe(c: Cipher, stream: bytes)
    requires |stream| < 4
    ensures Unframed(c, stream) == None
  {}

  /** Decrypts the whole buffer. */
  method DecryptAll(cipher: AriaCipher, buf: array<byte>)
    requires cipher.Valid() && cipher.Ready() && buf != cipher.rdKey as object
    modifies buf
    ensures buf[..] == CipherOf(cipher.key, cipher.iv)(old(buf[..]))
  {
    hide AriaCtr;
    ghost var was := buf[..];
    assert buf[0..0 + buf.Length] == was;
    var _ := cipher.Decrypt(buf, 0, buf.Length);
    assert buf[..] == AriaCtr(cipher.key, cipher.iv, was);
  }

  method RecvEncrypted(sock: Sockets.InSocket, cipher: AriaCipher) returns (r: Option<bytes>)
    requires cipher.Valid() && cipher.Ready()
    modifies sock
    ensures r.Some? ==> Unframed(CipherOf(cipher.key, cipher.iv), old(sock.pending)) == Some((r.value, sock.pending))
    ensures r.None? && sock.clean ==> Unframed(CipherOf(cipher.key, cipher.iv), old(sock.pending)) == None
  {
    hide CipherOf, Unframed, U32;
    ghost var c, stream := CipherOf(cipher.key, cipher.iv), sock.pending;
    var header := new byte[4];
    var ok := sock.RecvAll(header, 0, 4);
    if !ok {
      if |stream| < 4 { TooShortToUnframe(c, stream); }
      return None;
    }
    assert header[..] == header[0..0 + 4] == stream[..4];
    var length := U32(header[..]);
    UnframedParts(c, stream, length);
    if length == 0 || length > MAX_MESSAGE { return None; }
    var buf := new byte[length];
    ok := sock.RecvAll(buf, 0, length);
    if !ok { return None; }
    assert buf[..] == buf[0..0 + length] == stream[4..][..length];
    DecryptAll(cipher, buf);
    return Some(buf[..]);
  }
}
