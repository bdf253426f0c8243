/** The ML-KEM handshake: message framing over partial sends and receives, key slicing, and
    the two roles.  Main result: two roles that complete on untampered messages hold the
    same five keys, so each peer's ciphers undo the other's; and the exchange completes exactly
    if the library's functions succeed. */
module Handshake {
  import opened Bytes
  import opened AriaCipher
  import opened Srtp
  import Sockets

  const PUBLIC_KEY_BYTES := 1184
  const CIPHERTEXT_BYTES := 1088
  const CLIENT_HELLO: byte := 1
  const SERVER_HELLO: byte := 2
  const RANDOM_SIZE := 32
  const HEADER_SIZE := 1 + 2 + RANDOM_SIZE
  const KEY_MATERIAL := 16 + 16 + 20 + 16 + 16
  const LABEL: string := "hailo-kem-srtp-keys"

  type Random = r: bytes | |r| == RANDOM_SIZE witness seq(RANDOM_SIZE, _ => 0)
  type KeyMaterial = k: bytes | |k| == KEY_MATERIAL witness seq(KEY_MATERIAL, _ => 0)

  /** The library functions: each may fail.  A public key belongs to each secret key; encapsulation
      depends on the library's random coins. */
  datatype Library = Library(
    publicKey: bytes -> bytes,
    encapsulate: (bytes, bytes) -> Option<(bytes, bytes)>,
    decapsulate: (bytes, bytes) -> Option<bytes>,
    hkdf: (bytes, bytes, string) -> Option<KeyMaterial>)
  {
    /** The sizes of ML-KEM-768, and its correctness: decapsulation recovers the secret. */
    ghost predicate Correct() {
      && (forall sk :: |publicKey(sk)| == PUBLIC_KEY_BYTES)
      && (forall pk, coins :: encapsulate(pk, coins).Some? ==> |encapsulate(pk, coins).value.0| == CIPHERTEXT_BYTES)
      && (forall sk, coins :: encapsulate(publicKey(sk), coins).Some? ==>
            decapsulate(sk, encapsulate(publicKey(sk), coins).value.0)
            == Some(encapsulate(publicKey(sk), coins).value.1))
    }

    /** The key material for a shared secret and both random numbers. */
    function Derive(secret: bytes, clientRandom: Random, serverRandom: Random): Option<KeyMaterial> {
      hkdf(clientRandom + serverRandom, secret, LABEL)
    }
  }

  // ---- Messages -------------------------------------------------------------------------------------

  /** Type, version 0x0304, random number, payload. */
  function Message(msgType: byte, random: Random, payload: bytes): bytes {
    [msgType, 0x03, 0x04] + random + payload
  }

  /** Random number and payload of a message of the expected type and version. */
  function Open(msg: bytes, expectedType: byte): Option<(Random, bytes)>
    requires |msg| >= HEADER_SIZE
  {
    if msg[0] != expectedType || U16(msg[1], msg[2]) != 0x0304 then None
    else Some((msg[3..HEADER_SIZE], msg[HEADER_SIZE..]))
  }

  lemma OpenMessage(msgType: byte, random: Random, payload: bytes)
    ensures Open(Message(msgType, random, payload), msgType) == Some((random, payload))
  {
    var msg := Message(msgType, random, payload);
    assert msg[3..HEADER_SIZE] == random && msg[HEADER_SIZE..] == payload;
  }

  method SendHandshakeMsg(sock: Sockets.OutSocket, msgType: byte, random: Random, payload: bytes) returns (ok: bool)
    modifies sock
    ensures ok ==> sock.sent == old(sock.sent) + Message(msgType, random, payload)
    ensures old(sock.sent) <= sock.sent <= old(sock.sent) + Message(msgType, random, payload)
    ensures ok ==> sock.clean == old(sock.clean)
    ensures !ok ==> !sock.clean
  {
    var msgSize := HEADER_SIZE + |payload|;
    var msg := new byte[msgSize];
    msg[0], msg[1], msg[2] := msgType, 0x0304 / 0x100 % 0x100, 0x0304 % 0x100;
    forall i | 0 <= i < RANDOM_SIZE { msg[3 + i] := random[i]; }
    forall i | 0 <= i < |payload| { msg[HEADER_SIZE + i] := payload[i]; }
    assert msg[..msgSize] == Message(msgType, random, payload);
    ok := sock.SendAll(msg, msgSize);
  }

  /** The next message of a stream, if it is whole and of the expected type and version. */
  function NextMessage(stream: bytes, expectedType: byte, payloadLen: nat): Option<(Random, bytes)> {
    if |stream| < HEADER_SIZE + payloadLen then None else Open(stream[..HEADER_SIZE + payloadLen], expectedType)
  }

  /** Returns the next message, and without a receive error exactly when there is one. */
  method RecvHandshakeMsg(sock: Sockets.InSocket, expectedType: byte, payloadLen: nat)
    returns (r: Option<(Random, bytes)>)
    modifies sock
    ensures r.Some? ==> r == NextMessage(old(sock.pending), expectedType, payloadLen)
                        && sock.pending == old(sock.pending)[HEADER_SIZE + payloadLen..]
    ensures sock.clean ==> old(sock.clean) && r == NextMessage(old(sock.pending), expectedType, payloadLen)
  {
    var msgSize := HEADER_SIZE + payloadLen;
    var msg := new byte[msgSize];
    var ok := sock.RecvAll(msg, 0, msgSize);
    if !ok { return None; }
    assert msg[..] == msg[0..0 + msgSize];
    ghost var m := msg[..];
    if msg[0] != expectedType { return None; }
    if U16(msg[1], msg[2]) != 0x0304 { return None; }
    assert m[3..HEADER_SIZE] == msg[3..HEADER_SIZE] && m[HEADER_SIZE..] == msg[HEADER_SIZE..];
    return Some((msg[3..HEADER_SIZE], msg[HEADER_SIZE..]));
  }

  // ---- What each role computes from the bytes it receives -------------------------------------------

  /** The server's key material, from its secret key, its random number and the incoming stream. */
  function ServerKeys(l: Library, sk: bytes, serverRandom: Random, incoming: bytes): Option<KeyMaterial> {
    match NextMessage(incoming, CLIENT_HELLO, CIPHERTEXT_BYTES)
    case None => None
    case Some((clientRandom, ct)) =>
      match l.decapsulate(sk, ct)
      case None => None
      case Some(secret) => l.Derive(secret, clientRandom, serverRandom)
  }

  /** The client's answer and key material, from its coins, its random number and the incoming stream. */
  function ClientKeys(l: Library, coins: bytes, clientRandom: Random, incoming: bytes): Option<(bytes, KeyMaterial)> {
    match NextMessage(incoming, SERVER_HELLO, PUBLIC_KEY_BYTES)
    case None => None
    case Some((serverRandom, pk)) =>
      match l.encapsulate(pk, coins)
      case None => None
      case Some((ct, secret)) =>
        match l.Derive(secret, clientRandom, serverRandom)
        case None => None
        case Some(k) => Some((Message(CLIENT_HELLO, clientRandom, ct), k))
  }

  /** The bytes of the two messages: type, version 3.4, 32 random bytes, and the public key or the ciphertext. */
  lemma MessageBytes(random: Random, payload: bytes)
    ensures Message(SERVER_HELLO, random, payload) == [2, 3, 4] + random + payload
    ensures Message(CLIENT_HELLO, random, payload) == [1, 3, 4] + random + payload
  {}

  /** The server derives keys exactly from a stream that begins with a whole client message, and if the library can
      decapsulate its ciphertext and expand the secret, with the client's and then the server's random number as
      salt and the fixed label. */
  lemma ServerKeysExactly(l: Library, sk: bytes, serverRandom: Random, incoming: bytes, k: KeyMaterial)
    ensures ServerKeys(l, sk, serverRandom, incoming) == Some(k) <==>
      && |incoming| >= 1123 && incoming[..3] == [1, 3, 4]
      && l.decapsulate(sk, incoming[35..1123]).Some?
      && l.hkdf(incoming[3..35] + serverRandom, l.decapsulate(sk, incoming[35..1123]).value, "hailo-kem-srtp-keys")
         == Some(k)
  {
    if |incoming| >= 1123 {
      var msg := incoming[..1123];
      assert msg[3..35] == incoming[3..35] && msg[35..] == incoming[35..1123];
      VersionBytes(msg, 1);
      assert msg[..3] == incoming[..3];
    }
  }

  lemma VersionBytes(msg: bytes, msgType: byte)
    requires |msg| >= 3
    ensures msg[0] == msgType && U16(msg[1], msg[2]) == 0x0304 <==> msg[..3] == [msgType, 3, 4]
  {
    assert msg[..3] == [msg[0], msg[1], msg[2]];
  }

  /** The client answers a whole server message, if the library can encapsulate to its key and expand the secret,
      with the ciphertext, and derives keys with the same salt and label. */
  lemma ClientKeysExactly(l: Library, coins: bytes, clientRandom: Random, incoming: bytes, answer: bytes,
                          k: KeyMaterial)
    ensures ClientKeys(l, coins, clientRandom, incoming) == Some((answer, k)) <==>
      && |incoming| >= 1219 && incoming[..3] == [2, 3, 4]
      && var sealed := l.encapsulate(incoming[35..1219], coins);
         && sealed.Some? && answer == [1, 3, 4] + clientRandom + sealed.value.0
         && l.hkdf(clientRandom + incoming[3..35], sealed.value.1, "hailo-kem-srtp-keys") == Some(k)
  {
    if |incoming| >= 1219 {
      var msg := incoming[..1219];
      assert msg[3..35] == incoming[3..35] && msg[35..] == incoming[35..1219];
      VersionBytes(msg, 2);
      assert msg[..3] == incoming[..3];
    }
  }

  /** If each role reads first what the other one sent, both arrive at the same key material. */
  lemma Agreement(l: Library, sk: bytes, coins: bytes, serverRandom: Random, clientRandom: Random,
                  toServer: bytes, toClient: bytes,
                  serverKeys: KeyMaterial, clientHello: bytes, clientKeys: KeyMaterial)
    requires l.Correct()
    requires ServerKeys(l, sk, serverRandom, toServer) == Some(serverKeys)
    requires ClientKeys(l, coins, clientRandom, toClient) == Some((clientHello, clientKeys))
    requires Message(SERVER_HELLO, serverRandom, l.publicKey(sk)) <= toClient
    requires clientHello <= toServer
    ensures serverKeys == clientKeys
  {
    var pk := l.publicKey(sk);
    var hello := Message(SERVER_HELLO, serverRandom, pk);
    OpenMessage(SERVER_HELLO, serverRandom, pk);
    assert toClient[..|hello|] == hello;
    var sealed := l.encapsulate(pk, coins).value;
    OpenMessage(CLIENT_HELLO, clientRandom, sealed.0);
    assert toServer[..|clientHello|] == clientHello;
  }

  // ---- The handshake object -------------------------------------------------------------------------

  class MlKemHandshake {
    var srtpKey: bytes
    var srtpIv: bytes
    var srtpAuthKey: bytes
    var rtspKey: bytes
    var rtspIv: bytes
    var complete: bool

    constructor ()
      ensures !complete
    {
      srtpKey, srtpIv, srtpAuthKey, rtspKey, rtspIv, complete := [], [], [], [], [], false;
    }

    /** The object is complete and its five keys are the slices of `k`: 16, 16, 20, 16 and 16 bytes. */
    ghost predicate Holds(k: KeyMaterial)
      reads this
    {
      && complete
      && |srtpKey| == 16 && |srtpIv| == 16 && |srtpAuthKey| == 20 && |rtspKey| == 16 && |rtspIv| == 16
      && srtpKey + srtpIv + srtpAuthKey + rtspKey + rtspIv == k
    }

    method DeriveKeys(l: Library, secret: bytes, clientRandom: Random, serverRandom: Random) returns (ok: bool)
      modifies this
      ensures match l.hkdf(clientRandom + serverRandom, secret, "hailo-kem-srtp-keys")
              case None => !ok && unchanged(this)
              case Some(k) => ok && Holds(k)
    {
      var salt := clientRandom + serverRandom;
      var okm := l.hkdf(salt, secret, LABEL);
      if okm == None { return false; }
      var offset := 0;
      srtpKey := okm.value[offset..offset + 16];
      offset := offset + 16;
      srtpIv := okm.value[offset..offset + 16];
      offset := offset + 16;
      srtpAuthKey := okm.value[offset..offset + 20];
      offset := offset + 20;
      rtspKey := okm.value[offset..offset + 16];
      offset := offset + 16;
      rtspIv := okm.value[offset..offset + 16];
      complete := true;
      return true;
    }

    /** The server's role.  `sk` and `random` are what the library generates, or nothing if it fails. */
    method PerformServerHandshake(output: Sockets.OutSocket, input: Sockets.InSocket, l: Library, sk: Option<bytes>,
                                  random: Option<Random>)
      returns (ok: bool)
      modifies this, output, input
      ensures ok ==> sk.Some? && random.Some?
      ensures ok ==> output.sent == old(output.sent) + Message(SERVER_HELLO, random.value, l.publicKey(sk.value))
      ensures ok ==> var k := ServerKeys(l, sk.value, random.value, old(input.pending)); k.Some? && Holds(k.value)
      ensures ok ==> input.pending == old(input.pending)[HEADER_SIZE + CIPHERTEXT_BYTES..]
      ensures output.clean && input.clean && sk.Some? && random.Some? && |l.publicKey(sk.value)| == PUBLIC_KEY_BYTES ==>
        (ok <==> ServerKeys(l, sk.value, random.value, old(input.pending)).Some?)
      ensures !ok ==> unchanged(this)
    {
      if sk == None { return false; }
      var pk := l.publicKey(sk.value);
      if |pk| != PUBLIC_KEY_BYTES { return false; }
      if random == None { return false; }
      var sent := SendHandshakeMsg(output, SERVER_HELLO, random.value, pk);
      if !sent { return false; }
      var hello := RecvHandshakeMsg(input, CLIENT_HELLO, CIPHERTEXT_BYTES);
      if hello == None { return false; }
      var (clientRandom, ct) := hello.value;
      var secret := l.decapsulate(sk.value, ct);
      if secret == None { return false; }
      ok := DeriveKeys(l, secret.value, clientRandom, random.value);
    }

    /** The client's role. */
    method PerformClientHandshake(output: Sockets.OutSocket, input: Sockets.InSocket, l: Library, coins: bytes,
                                  random: Option<Random>)
      returns (ok: bool)
      modifies this, output, input
      ensures ok ==> random.Some?
      ensures ok ==> var r := ClientKeys(l, coins, random.value, old(input.pending));
                     r.Some? && output.sent == old(output.sent) + r.value.0 && Holds(r.value.1)
      ensures ok ==> input.pending == old(input.pending)[HEADER_SIZE + PUBLIC_KEY_BYTES..]
      ensures output.clean && input.clean && random.Some? ==>
        (ok <==> ClientKeys(l, coins, random.value, old(input.pending)).Some?)
      ensures !ok ==> unchanged(this)
    {
      var hello := RecvHandshakeMsg(input, SERVER_HELLO, PUBLIC_KEY_BYTES);
      if hello == None { return false; }
      var (serverRandom, pk) := hello.value;
      var sealed := l.encapsulate(pk, coins);
      if sealed == None { return false; }
      var (ct, secret) := sealed.value;
      if random == None { return false; }
      var sent := SendHandshakeMsg(output, CLIENT_HELLO, random.value, ct);
      if !sent { return false; }
      ok := DeriveKeys(l, secret, random.value, serverRandom);
    }

    /** The payload cipher, if the handshake is complete. */
    method CreateSrtpCipher() returns (c: AriaCipher?)
      requires complete ==> exists k :: Holds(k)
      ensures !complete ==> c == null
      ensures complete ==> c != null && fresh(c) && c.Valid() && c.Ready() && c.key == srtpKey && c.iv == srtpIv
    {
      if !complete { return null; }
      c := new AriaCipher();
      var _ := c.SetKey(srtpKey);
      var _ := c.SetIv(srtpIv);
    }

    /** The control-message cipher, if the handshake is complete. */
    method CreateRtspCipher() returns (c: AriaCipher?)
      requires complete ==> exists k :: Holds(k)
      ensures !complete ==> c == null
      ensures complete ==> c != null && fresh(c) && c.Valid() && c.Ready() && c.key == rtspKey && c.iv == rtspIv
    {
      if !complete { return null; }
      c := new AriaCipher();
      var _ := c.SetKey(rtspKey);
      var _ := c.SetIv(rtspIv);
    }
  }

  /** Objects that hold the same key material have the same five keys. */
  lemma SameKeys(a: MlKemHandshake, b: MlKemHandshake, k: KeyMaterial)
    requires a.Holds(k) && b.Holds(k)
    ensures a.srtpKey == b.srtpKey == k[..16] && a.srtpIv == b.srtpIv == k[16..32]
    ensures a.srtpAuthKey == b.srtpAuthKey == k[32..52]
    ensures a.rtspKey == b.rtspKey == k[52..68] && a.rtspIv == b.rtspIv == k[68..84]
  {
    SlicesOf(a.srtpKey, a.srtpIv, a.srtpAuthKey, a.rtspKey, a.rtspIv, k);
    SlicesOf(b.srtpKey, b.srtpIv, b.srtpAuthKey, b.rtspKey, b.rtspIv, k);
  }

  lemma SlicesOf(a: bytes, b: bytes, c: bytes, d: bytes, e: bytes, k: KeyMaterial)
    requires |a| == 16 && |b| == 16 && |c| == 20 && |d| == 16 && |e| == 16 && a + b + c + d + e == k
    ensures a == k[..16] && b == k[16..32] && c == k[32..52] && d == k[52..68] && e == k[68..84]
  {}

  /** Both roles have succeeded, each object holds what its role derived, and each has read first what the
      other one sent. */
  ghost predicate Completed(server: MlKemHandshake, client: MlKemHandshake, l: Library, sk: bytes, coins: bytes,
                            serverRandom: Random, clientRandom: Random, toServer: bytes, toClient: bytes)
    reads server, client
  {
    var k := ServerKeys(l, sk, serverRandom, toServer);
    var r := ClientKeys(l, coins, clientRandom, toClient);
    && l.Correct()
    && k.Some? && server.Holds(k.value)
    && r.Some? && client.Holds(r.value.1) && r.value.0 <= toServer
    && Message(SERVER_HELLO, serverRandom, l.publicKey(sk)) <= toClient
  }

  /** The four ends of one exchange, and the bytes that went each way. */
  datatype Exchange = Exchange(serverOut: Sockets.OutSocket, serverIn: Sockets.InSocket,
                               clientOut: Sockets.OutSocket, clientIn: Sockets.InSocket,
                               toServer: bytes, toClient: bytes)
  {
    /** No send or receive has failed. */
    ghost predicate Clean()
      reads serverOut, serverIn, clientOut, clientIn
    {
      serverOut.clean && serverIn.clean && clientOut.clean && clientIn.clean
    }
  }

  /** The library can encapsulate to the server's key and expand the secret. */
  ghost predicate LibrarySucceeds(l: Library, sk: bytes, coins: bytes, serverRandom: Random, clientRandom: Random) {
    var sealed := l.encapsulate(l.publicKey(sk), coins);
    sealed.Some? && l.Derive(sealed.value.1, clientRandom, serverRandom).Some?
  }

  /** The exchange: the client on the server's message, then the server on what the client sent.  Without a
      failed send or receive it completes exactly if the library succeeds, and the server has then sent
      exactly what the client read. */
  method Shake(server: MlKemHandshake, client: MlKemHandshake, l: Library, sk: bytes, coins: bytes,
               serverRandom: Random, clientRandom: Random)
    returns (ok: bool, x: Exchange)
    requires server != client && l.Correct()
    modifies server, client
    ensures fresh(x.serverOut) && fresh(x.serverIn) && fresh(x.clientOut) && fresh(x.clientIn)
    ensures ok ==> Completed(server, client, l, sk, coins, serverRandom, clientRandom, x.toServer, x.toClient)
    ensures ok ==> x.serverOut.sent == x.toClient && x.clientOut.sent == x.toServer
    ensures x.Clean() ==> (ok <==> LibrarySucceeds(l, sk, coins, serverRandom, clientRandom))
  {
    hide ServerKeys, ClientKeys, LibrarySucceeds, NextMessage, MlKemHandshake.Holds, Message;
    var hello := Message(SERVER_HELLO, serverRandom, l.publicKey(sk));
    var serverOut := new Sockets.OutSocket();
    var clientOut := new Sockets.OutSocket();
    var clientIn := new Sockets.InSocket(hello);
    ok := client.PerformClientHandshake(clientOut, clientIn, l, coins, Some(clientRandom));
    var answer := clientOut.sent;
    assert forall b: bytes :: [] + b == b;
    var serverIn := new Sockets.InSocket(answer);
    x := Exchange(serverOut, serverIn, clientOut, clientIn, answer, hello);
    HonestClient(l, sk, coins, serverRandom, clientRandom);
    if !ok { return; }
    ok := server.PerformServerHandshake(serverOut, serverIn, l, Some(sk), Some(serverRandom));
    HonestServer(l, sk, coins, serverRandom, clientRandom);
  }

  /** On the server's message the client succeeds exactly if the library does. */
  lemma HonestClient(l: Library, sk: bytes, coins: bytes, serverRandom: Random, clientRandom: Random)
    requires l.Correct()
    ensures ClientKeys(l, coins, clientRandom, Message(SERVER_HELLO, serverRandom, l.publicKey(sk))).Some?
       <==> LibrarySucceeds(l, sk, coins, serverRandom, clientRandom)
  {
    var hello := Message(SERVER_HELLO, serverRandom, l.publicKey(sk));
    OpenMessage(SERVER_HELLO, serverRandom, l.publicKey(sk));
    assert hello[..|hello|] == hello;
  }

  /** And on the client's answer so does the server. */
  lemma HonestServer(l: Library, sk: bytes, coins: bytes, serverRandom: Random, clientRandom: Random)
    requires l.Correct() && LibrarySucceeds(l, sk, coins, serverRandom, clientRandom)
    ensures var r := ClientKeys(l, coins, clientRandom, Message(SERVER_HELLO, serverRandom, l.publicKey(sk)));
            r.Some? && ServerKeys(l, sk, serverRandom, r.value.0) == Some(r.value.1)
  {
    var hello := Message(SERVER_HELLO, serverRandom, l.publicKey(sk));
    OpenMessage(SERVER_HELLO, serverRandom, l.publicKey(sk));
    assert hello[..|hello|] == hello;
    var ct := l.encapsulate(l.publicKey(sk), coins).value.0;
    var answer := Message(CLIENT_HELLO, clientRandom, ct);
    OpenMessage(CLIENT_HELLO, clientRandom, ct);
    assert answer[..|answer|] == answer;
  }

  /** Then both objects hold the same five keys. */
  lemma PeersShareKeys(server: MlKemHandshake, client: MlKemHandshake, l: Library, sk: bytes, coins: bytes,
                       serverRandom: Random, clientRandom: Random, toServer: bytes, toClient: bytes)
    requires Completed(server, client, l, sk, coins, serverRandom, clientRandom, toServer, toClient)
    ensures server.srtpKey == client.srtpKey && server.srtpIv == client.srtpIv
    ensures server.srtpAuthKey == client.srtpAuthKey
    ensures server.rtspKey == client.rtspKey && server.rtspIv == client.rtspIv
    ensures |client.srtpKey| == |client.srtpIv| == |client.rtspKey| == |client.rtspIv| == 16
    ensures client.complete && exists k :: client.Holds(k)
    ensures server.complete && exists k :: server.Holds(k)
  {
    var k := ServerKeys(l, sk, serverRandom, toServer).value;
    var r := ClientKeys(l, coins, clientRandom, toClient).value;
    Agreement(l, sk, coins, serverRandom, clientRandom, toServer, toClient, k, r.0, r.1);
    SameKeys(server, client, k);
  }

  /** And the ciphers made from one object undo those made from the other, on every buffer. */
  lemma PeersShareCiphers(server: MlKemHandshake, client: MlKemHandshake, l: Library, sk: bytes, coins: bytes,
                          serverRandom: Random, clientRandom: Random, toServer: bytes, toClient: bytes, data: bytes)
    requires Completed(server, client, l, sk, coins, serverRandom, clientRandom, toServer, toClient)
    ensures server.srtpAuthKey == client.srtpAuthKey
    ensures |server.srtpKey| == |client.srtpKey| == |server.srtpIv| == |client.srtpIv| == 16
    ensures |server.rtspKey| == |client.rtspKey| == |server.rtspIv| == |client.rtspIv| == 16
    ensures AriaCtr(client.srtpKey, client.srtpIv, AriaCtr(server.srtpKey, server.srtpIv, data)) == data
    ensures AriaCtr(client.rtspKey, client.rtspIv, AriaCtr(server.rtspKey, server.rtspIv, data)) == data
  {
    hide AriaCtr, Completed;
    PeersShareKeys(server, client, l, sk, coins, serverRandom, clientRandom, toServer, toClient);
    AriaCtrTwice(server.srtpKey, server.srtpIv, data);
    AriaCtrTwice(server.rtspKey, server.rtspIv, data);
  }
}
