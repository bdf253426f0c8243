/** RTSP signalling: the client's URL parsing and its four requests, and what the server reads
    from them.  Main results: the URL that the client window joins is taken apart again exactly
    under a condition on its parts; each header is found exactly when the URL does not hold
    its name; and the run of OPTIONS, DESCRIBE, SETUP and PLAY through the encrypted channel
    succeeds exactly if no text is too long, and then both sides agree on the sequence numbers,
    the transport, the channel or port, and the session. */
module Signalling {
  import Bytes
  import opened ControlChannel
  import Srtp
  import opened Text

  // ---- The URL --------------------------------------------------------------------------------------

  datatype Url = Url(host: string, port: int, path: string)

  const SCHEME := "rtsp://"

  predicate Starts(s: string, word: string) { |s| >= |word| && s[..|word|] == word }

  function HostAndPort(url: string): string
    requires Starts(url, SCHEME)
  {
    var slash := Find(url, "/", |SCHEME|);
    if slash == NOT_FOUND then url[|SCHEME|..] else url[|SCHEME|..slash]
  }

  function PathOf(url: string): string
    requires Starts(url, SCHEME)
  {
    var slash := Find(url, "/", |SCHEME|);
    if slash == NOT_FOUND then "/" else url[slash..]
  }

  const DEFAULT_PORT := 554

  function Parsed(url: string): Url
    requires Starts(url, SCHEME)
  {
    var hostPort := HostAndPort(url);
    var colon := Find(hostPort, ":", 0);
    if colon == NOT_FOUND then Url(hostPort, DEFAULT_PORT, PathOf(url))
    else
      var port := Atoi(hostPort[colon + 1..]);
      Url(hostPort[..colon], if port <= 0 then DEFAULT_PORT else port, PathOf(url))
  }

  /** Parts that survive being joined. */
  predicate Separable(u: Url) {
    '/' !in u.host && ':' !in u.host && u.port > 0 && u.path != [] && u.path[0] == '/'
  }

  lemma {:induction false} CharAbsent(s: string, c: char, from: nat, i: nat)
    requires from <= i < |s| && (Find(s, [c], from) == NOT_FOUND || i < Find(s, [c], from))
    ensures s[i] != c
  {
    assert s[i..i + 1] == [s[i]];
    assert !At(s, [c], i);
  }

  lemma {:induction false} FindChar(a: string, c: char, b: string)
    requires c !in a
    ensures Find(a + [c] + b, [c], 0) == |a|
  {
    var s := a + [c] + b;
    assert s[|a|..|a| + 1] == [c];
    forall i | 0 <= i < |a| ensures !At(s, [c], i) { assert s[i..i + 1][0] == a[i]; }
    FirstUnique(s, [c], 0, |a|);
  }

  /** Whatever the URL, what is parsed has this shape. */
  lemma {:induction false} ParsedSeparable(url: string)
    requires Starts(url, SCHEME)
    ensures Separable(Parsed(url))
  {
    var hostPort := HostAndPort(url);
    var slash, colon := Find(url, "/", |SCHEME|), Find(hostPort, ":", 0);
    if slash != NOT_FOUND { assert url[slash..slash + 1] == "/"; assert PathOf(url)[0] == '/'; }
    var host := Parsed(url).host;
    forall i | 0 <= i < |host| ensures host[i] != '/' && host[i] != ':' {
      CharAbsent(url, '/', |SCHEME|, |SCHEME| + i);
      CharAbsent(hostPort, ':', 0, i);
    }
  }

  /** The URL as the client window joins it. */
  function Joined(u: Url): string { SCHEME + u.host + ":" + Print(u.port) + u.path }

  lemma CutAtSlash(hostPort: string, path: string)
    requires '/' !in hostPort && path != [] && path[0] == '/'
    ensures Starts(SCHEME + (hostPort + path), SCHEME)
    ensures HostAndPort(SCHEME + (hostPort + path)) == hostPort && PathOf(SCHEME + (hostPort + path)) == path
  {
    assert hostPort + path == hostPort + ['/'] + path[1..];
    FindChar(hostPort, '/', path[1..]);
    FindAfter(SCHEME, hostPort + path, "/");
  }

  lemma CutAtColon(host: string, port: int)
    requires ':' !in host
    ensures var hostPort := host + ":" + Print(port);
      Find(hostPort, ":", 0) == |host| && hostPort[..|host|] == host && Atoi(hostPort[|host| + 1..]) == port
  {
    hide Atoi, Print, Find;
    FindChar(host, ':', Print(port));
    var hostPort := host + ":" + Print(port);
    assert hostPort[|host| + 1..] == Print(port) + [];
    ReadPrint(port, []);
  }

  lemma NoSlashInPort(host: string, port: int)
    requires '/' !in host
    ensures '/' !in host + ":" + Print(port)
  {
  }

  lemma JoinedText(u: Url)
    ensures Joined(u) == SCHEME + ((u.host + ":" + Print(u.port)) + u.path)
  {
    hide Print;
  }

  lemma {:induction false} SeparableRecovered(u: Url)
    requires Separable(u)
    ensures Starts(Joined(u), SCHEME) && Parsed(Joined(u)) == u
  {
    NoSlashInPort(u.host, u.port);
    JoinedText(u);
    hide Find, Atoi, Print, HostAndPort, PathOf, Joined, Starts;
    CutAtSlash(u.host + ":" + Print(u.port), u.path);
    CutAtColon(u.host, u.port);
  }

  lemma JoinedStarts(u: Url)
    ensures Starts(Joined(u), SCHEME)
  {
    JoinedText(u);
  }

  /** Parsing recovers the joined parts exactly when they are separable. */
  lemma {:induction false} UrlRecovered(u: Url)
    ensures Starts(Joined(u), SCHEME)
    ensures Parsed(Joined(u)) == u <==> Separable(u)
  {
    JoinedStarts(u);
    hide Joined, Parsed, Separable, Starts;
    ParsedSeparable(Joined(u));
    if Separable(u) { SeparableRecovered(u); }
  }

  /** Without a port, or with one that is not a positive number, the port is 554; without a path it is "/". */
  lemma {:induction false} DefaultsRead(host: string, number: string, path: string)
    requires '/' !in host && ':' !in host && '/' !in number && (path != [] ==> path[0] == '/')
    ensures Parsed(SCHEME + (host + path)) == Url(host, 554, if path == [] then "/" else path)
    ensures Parsed(SCHEME + (host + ":" + number + path))
         == Url(host, if Atoi(number) > 0 then Atoi(number) else 554, if path == [] then "/" else path)
  {
    hide Find, Atoi;
    AnyPath(host, path);
    AnyPath(host + ":" + number, path);
    assert host + ":" + number + path == (host + ":" + number) + path;
    FindChar(host, ':', number);
    assert host + ":" + number == host + [':'] + number;
    assert (host + ":" + number)[..|host|] == host && (host + ":" + number)[|host| + 1..] == number;
    NoColon(host);
  }

  lemma NoColon(host: string)
    requires ':' !in host
    ensures Find(host, ":", 0) == NOT_FOUND
  {
    MissingChar(host, ":", ':');
    FindContains(host, ":");
  }

  lemma AnyPath(hostPort: string, path: string)
    requires '/' !in hostPort && (path != [] ==> path[0] == '/')
    ensures Starts(SCHEME + (hostPort + path), SCHEME) && HostAndPort(SCHEME + (hostPort + path)) == hostPort
    ensures PathOf(SCHEME + (hostPort + path)) == if path == [] then "/" else path
  {
    if path == [] {
      hide Find;
      assert hostPort + path == hostPort;
      FindAfter(SCHEME, hostPort, "/");
      MissingChar(hostPort, "/", '/');
      FindContains(hostPort, "/");
    } else {
      CutAtSlash(hostPort, path);
    }
  }

  // ---- Requests -------------------------------------------------------------------------------------

  function RequestLine(word: string, url: string): string { word + " " + url + " RTSP/1.0\r\n" }

  function Trailer(sessionId: string, extra: string): string {
    "User-Agent: hailo-rtsp-client\r\n"
    + (if sessionId == [] then [] else "Session: " + sessionId + "\r\n") + extra + "\r\n"
  }

  function Request(word: string, url: string, cseq: int, sessionId: string, extra: string): string {
    RequestLine(word, url) + ("CSeq: " + Print(cseq) + "\r\n" + Trailer(sessionId, extra))
  }

  function TransportLine(transport: string): string { "Transport: " + transport + "\r\n" }

  const TCP_TRANSPORT := "RTP/AVP/TCP;unicast;interleaved=0-1"

  function UdpTransport(port: int): string {
    "RTP/AVP;unicast;client_port=" + Print(port) + "-" + Print(port + 1)
  }

  // ---- What the server reads ------------------------------------------------------------------------

  /** Where a header is, by its name or else its lower-case name. */
  function HeaderAt(message: string, name: string, lower: string): int {
    var p := Find(message, name, 0);
    if p == NOT_FOUND then Find(message, lower, 0) else p
  }

  function CSeqOf(request: string): int {
    var p := HeaderAt(request, "CSeq:", "cseq:");
    if p == NOT_FOUND then 1 else Atoi(request[p + 5..])
  }

  function UriOf(request: string): string {
    var sp := Find(request, " ", 0);
    var ep := Find(request, " ", sp + 1);
    Substr(request, sp + 1, ep - sp - 1)
  }

  /** The rest of the line after a header name of `width` characters, or of the message. */
  function FieldAt(message: string, at: nat, width: nat): string
    requires at + width <= |message|
  {
    SkipBlanks(Substr(message, at + width, Find(message, "\r\n", at) - at - width))
  }

  function TransportOf(request: string): string {
    var p := HeaderAt(request, "Transport:", "transport:");
    if p == NOT_FOUND then [] else FieldAt(request, p, 10)
  }

  predicate IsTcp(transport: string) { Find(transport, "RTP/AVP/TCP", 0) != NOT_FOUND }

  function NumberAfter(transport: string, key: string): int {
    var p := Find(transport, key, 0);
    if p == NOT_FOUND then 0 else Atoi(transport[p + |key|..])
  }

  // ---- The request line does not disturb the search -------------------------------------------------

  /** A header name: no blank, no line break, and not part of the fixed text of the request line. */
  ghost predicate Name(pattern: string, word: string) {
    && pattern != [] && ' ' !in pattern && '\n' !in pattern
    && !Contains(word, pattern) && !Contains("RTSP/1.0\r", pattern)
  }

  /** The search passes over the request line exactly when the URL does not hold the name. */
  lemma {:induction false} PastRequestLine(word: string, url: string, rest: string, pattern: string)
    requires Name(pattern, word)
    ensures !Contains(url, pattern) ==>
      Find(RequestLine(word, url) + rest, pattern, 0)
        == if Find(rest, pattern, 0) == NOT_FOUND then NOT_FOUND else |RequestLine(word, url)| + Find(rest, pattern, 0)
    ensures Contains(url, pattern) ==> 0 <= Find(RequestLine(word, url) + rest, pattern, 0) < |word| + 1 + |url|
  {
    var version := "RTSP/1.0\r" + ['\n'] + rest;
    var afterWord := url + [' '] + version;
    assert RequestLine(word, url) + rest == word + [' '] + afterWord;
    FindAcross(word, ' ', afterWord, pattern);
    if Contains(url, pattern) {
      FindBefore(url, ' ', version, pattern);
    } else {
      FindAcross(url, ' ', version, pattern);
      FindAcross("RTSP/1.0\r", '\n', rest, pattern);
    }
  }

  lemma {:induction false} PastLine(line: string, rest: string, pattern: string)
    requires pattern != [] && '\n' !in pattern && !Contains(line + "\r", pattern)
    ensures Find(line + "\r\n" + rest, pattern, 0)
         == if Find(rest, pattern, 0) == NOT_FOUND then NOT_FOUND else |line| + 2 + Find(rest, pattern, 0)
  {
    assert line + "\r\n" + rest == (line + "\r") + ['\n'] + rest;
    FindAcross(line + "\r", '\n', rest, pattern);
  }

  // ---- The sequence number --------------------------------------------------------------------------

  /** A request word holds no part of a header name. */
  predicate RequestWord(word: string) { word in ["OPTIONS", "DESCRIBE", "SETUP", "PLAY"] }

  lemma CSeqName(word: string)
    requires RequestWord(word)
    ensures Name("CSeq:", word)
  {
    assert "CSeq:"[3] == 'q';
    MissingChar(word, "CSeq:", 'q');
    MissingChar("RTSP/1.0\r", "CSeq:", 'q');
  }

  /** The server finds the client's CSeq line, and reads its number, exactly when the URL does not hold "CSeq:". */
  lemma {:induction false} CSeqRead(word: string, url: string, cseq: int, sessionId: string, extra: string)
    requires RequestWord(word)
    ensures HeaderAt(Request(word, url, cseq, sessionId, extra), "CSeq:", "cseq:") == |RequestLine(word, url)|
       <==> !Contains(url, "CSeq:")
    ensures !Contains(url, "CSeq:") ==> CSeqOf(Request(word, url, cseq, sessionId, extra)) == cseq
  {
    hide Name, Find, Print, Atoi;
    var rest := "CSeq: " + Print(cseq) + "\r\n" + Trailer(sessionId, extra);
    var tail := "\r\n" + Trailer(sessionId, extra);
    CSeqName(word);
    PastRequestLine(word, url, rest, "CSeq:");
    assert rest == "CSeq:" + (" " + (Print(cseq) + tail));
    FindHere("CSeq:", " " + (Print(cseq) + tail));
    assert Request(word, url, cseq, sessionId, extra)[|RequestLine(word, url)| + 5..] == " " + (Print(cseq) + tail);
    ReadAfterBlank(Print(cseq) + tail);
    ReadPrint(cseq, tail);
  }

  /** From any client: the lower-case name counts if the other one is missing, and without either the number is 1. */
  lemma OtherNumbersRead(before: string, cseq: int, rest: string, request: string)
    requires request == before + ("cseq:" + (" " + (Print(cseq) + ("\r\n" + rest))))
    requires !Contains(request, "CSeq:") && Find(request, "cseq:", 0) == |before|
    ensures CSeqOf(request) == cseq
  {
    hide Find, Print, Atoi, Contains;
    var tail := "\r\n" + rest;
    FindContains(request, "CSeq:");
    assert request[|before| + 5..] == " " + (Print(cseq) + tail);
    ReadAfterBlank(Print(cseq) + tail);
    ReadPrint(cseq, tail);
  }

  lemma NoNumberRead(request: string)
    requires !Contains(request, "CSeq:") && !Contains(request, "cseq:")
    ensures CSeqOf(request) == 1
  {
    hide Find, Contains;
    FindContains(request, "CSeq:");
    FindContains(request, "cseq:");
  }

  // ---- The resource ---------------------------------------------------------------------------------

  lemma {:induction false} BetweenBlanks(word: string, url: string, rest: string)
    requires ' ' !in word
    ensures var request := word + [' '] + (url + [' '] + rest);
      Find(request, " ", 0) == |word| && Find(request, " ", |word| + 1) == |word| + 1 + Find(url + [' '] + rest, " ", 0)
  {
    var after := url + [' '] + rest;
    FindChar(word, ' ', after);
    FindAfter(word + [' '], after, " ");
    assert after[|url|..|url| + 1] == " ";
    assert At(after, " ", |url|);
  }

  lemma {:induction false} FirstBlank(url: string, rest: string)
    ensures 0 <= Find(url + [' '] + rest, " ", 0) <= |url|
    ensures Find(url + [' '] + rest, " ", 0) == |url| <==> ' ' !in url
  {
    var after := url + [' '] + rest;
    var f := Find(after, " ", 0);
    assert after[|url|..|url| + 1] == " ";
    assert At(after, " ", |url|);
    if ' ' in url {
      var i :| 0 <= i < |url| && url[i] == ' ';
      assert after[i..i + 1] == " ";
      assert At(after, " ", i);
    } else {
      FindChar(url, ' ', rest);
    }
  }

  lemma RequestLineParts(word: string, url: string, rest: string)
    ensures RequestLine(word, url) + rest == word + [' '] + (url + [' '] + ("RTSP/1.0\r\n" + rest))
  {
    assert " RTSP/1.0\r\n" == [' '] + "RTSP/1.0\r\n";
    assert " " == [' '];
  }

  lemma WordHasNoBlank(word: string)
    requires RequestWord(word)
    ensures ' ' !in word
  {
  }

  /** The server reads the whole URL exactly when it holds no blank. */
  lemma {:induction false} UriRead(word: string, url: string, rest: string)
    requires RequestWord(word)
    ensures UriOf(RequestLine(word, url) + rest) == url <==> ' ' !in url
  {
    hide Find, RequestWord, RequestLine;
    var after := "RTSP/1.0\r\n" + rest;
    WordHasNoBlank(word);
    RequestLineParts(word, url, rest);
    BetweenBlanks(word, url, after);
    FirstBlank(url, after);
    CutUrl(word, url, after, Find(url + [' '] + after, " ", 0));
  }

  lemma CutUrl(word: string, url: string, after: string, f: nat)
    requires f <= |url|
    ensures (word + [' '] + (url + [' '] + after))[|word| + 1..|word| + 1 + f] == url[..f]
  {
  }

  // ---- The transport --------------------------------------------------------------------------------

  lemma TransportName()
    ensures Name("Transport:", "SETUP")
  {
    TooShort("SETUP", "Transport:");
    TooShort("RTSP/1.0\r", "Transport:");
  }

  lemma NoTransportInCSeq(cseq: int)
    ensures !Contains("CSeq: " + Print(cseq) + "\r", "Transport:")
  {
    assert "Transport:"[0] == 'T';
    MissingChar("CSeq: " + Print(cseq) + "\r", "Transport:", 'T');
  }

  lemma NoTransportInAgent()
    ensures !Contains("User-Agent: hailo-rtsp-client" + "\r", "Transport:")
  {
    assert "Transport:"[0] == 'T';
    MissingChar("User-Agent: hailo-rtsp-client" + "\r", "Transport:", 'T');
  }

  /** The field on a header line, when the line follows `before`. */
  lemma {:induction false} FieldRead(before: string, name: string, field: string, rest: string)
    requires '\r' !in name && '\r' !in field && field != [] && !Blank(field[0])
    ensures FieldAt(before + (name + " " + field + "\r\n" + rest), |before|, |name|) == field
  {
    hide SkipBlanks;
    var line := name + " " + field;
    var message := before + (name + " " + field + "\r\n" + rest);
    FindLineEnd(line, rest);
    FindAfter(before, line + "\r\n" + rest, "\r\n");
    assert message == before + (line + "\r\n" + rest);
    var end := |before| + |line|;
    assert Find(message, "\r\n", |before|) == end;
    assert message[|before| + |name|..end] == " " + field;
    SkipOneBlank(field);
  }

  /** The search passes over two more lines. */
  lemma {:induction false} PastThreeLines(word: string, url: string, line1: string, line2: string, rest: string,
                                          pattern: string)
    requires Name(pattern, word) && !Contains(line1 + "\r", pattern) && !Contains(line2 + "\r", pattern)
    requires Find(rest, pattern, 0) == 0
    ensures var before := RequestLine(word, url) + line1 + "\r\n" + line2 + "\r\n";
      && (!Contains(url, pattern) ==> Find(before + rest, pattern, 0) == |before|)
      && (Contains(url, pattern) ==> 0 <= Find(before + rest, pattern, 0) < |RequestLine(word, url)|)
  {
    hide Find, RequestLine;
    var tail := line2 + "\r\n" + rest;
    PastLine(line2, rest, pattern);
    PastLine(line1, tail, pattern);
    PastRequestLine(word, url, line1 + "\r\n" + tail, pattern);
    assert RequestLine(word, url) + line1 + "\r\n" + line2 + "\r\n" + rest
        == RequestLine(word, url) + (line1 + "\r\n" + (line2 + "\r\n" + rest));
    RequestLineLength(word, url);
  }

  lemma RequestLineLength(word: string, url: string)
    ensures |RequestLine(word, url)| > |word| + 1 + |url|
  {
  }

  const AGENT := "User-Agent: hailo-rtsp-client"

  function BeforeTransport(url: string, cseq: int): string {
    RequestLine("SETUP", url) + ("CSeq: " + Print(cseq)) + "\r\n" + AGENT + "\r\n"
  }

  lemma SetupText(url: string, cseq: int, transport: string)
    ensures Request("SETUP", url, cseq, [], TransportLine(transport))
         == BeforeTransport(url, cseq) + ("Transport:" + " " + transport + "\r\n" + "\r\n")
  {
    hide RequestLine, Print;
    assert "User-Agent: hailo-rtsp-client\r\n" == AGENT + "\r\n";
    assert "Transport: " == "Transport:" + " ";
    SetupTextParts(RequestLine("SETUP", url), "CSeq: " + Print(cseq), AGENT, "Transport:" + " ", transport, "\r\n");
    assert TransportLine(transport) == ("Transport:" + " ") + transport + "\r\n";
  }

  lemma SetupTextParts(a: string, b: string, c: string, d: string, e: string, n: string)
    ensures a + (b + n + ((c + n) + [] + (d + e + n) + n)) == (a + b + n + c + n) + (d + e + n + n)
  {
  }

  /** The server finds the client's Transport line exactly when the URL does not hold "Transport:", and
      then reads what the client wrote. */
  lemma {:induction false} TransportRead(url: string, cseq: int, transport: string)
    requires '\r' !in transport && transport != [] && !Blank(transport[0])
    ensures HeaderAt(Request("SETUP", url, cseq, [], TransportLine(transport)), "Transport:", "transport:")
              == |BeforeTransport(url, cseq)|
       <==> !Contains(url, "Transport:")
    ensures !Contains(url, "Transport:") ==>
      TransportOf(Request("SETUP", url, cseq, [], TransportLine(transport))) == transport
  {
    hide Name, Find, Print, FieldAt, RequestLine, Request, Contains;
    var name := "Transport:";
    var rest := " " + transport + "\r\n" + "\r\n";
    TransportName();
    NoTransportInCSeq(cseq);
    NoTransportInAgent();
    FindHere(name, rest);
    SetupText(url, cseq, transport);
    assert name + " " + transport + "\r\n" + "\r\n" == name + rest;
    PastThreeLines("SETUP", url, "CSeq: " + Print(cseq), AGENT, name + rest, name);
    FieldRead(BeforeTransport(url, cseq), name, transport, "\r\n");
  }

  // ---- Channel and port -----------------------------------------------------------------------------

  /** The number after the key in the third part of a transport. */
  lemma {:induction false} ThirdPart(a: string, b: string, key: string, numbers: string)
    requires key != [] && ';' !in key && !Contains(a, key) && !Contains(b, key)
    ensures NumberAfter(a + [';'] + (b + [';'] + (key + numbers)), key) == Atoi(numbers)
  {
    hide Find, Atoi;
    FindHere(key, numbers);
    FindAcross(b, ';', key + numbers, key);
    FindAcross(a, ';', b + [';'] + (key + numbers), key);
    var p := |a| + 1 + |b| + 1;
    assert (a + [';'] + (b + [';'] + (key + numbers)))[p + |key|..] == numbers;
  }

  lemma {:induction false} ThirdPartOnly(a: string, b: string, c: string, pattern: string)
    requires pattern != [] && ';' !in pattern && !Contains(a, pattern) && !Contains(b, pattern) && !Contains(c, pattern)
    ensures Find(a + [';'] + (b + [';'] + c), pattern, 0) == NOT_FOUND
  {
    FindContains(c, pattern);
    FindAcross(b, ';', c, pattern);
    FindAcross(a, ';', b + [';'] + c, pattern);
  }

  lemma TcpParts()
    ensures TCP_TRANSPORT == "RTP/AVP/TCP" + [';'] + ("unicast" + [';'] + ("interleaved=" + "0-1"))
    ensures TCP_TRANSPORT == "RTP/AVP/TCP" + ";unicast;interleaved=0-1"
  {
  }

  lemma ZeroPrinted()
    ensures "0-1" == Print(0) + "-1"
  {
  }

  lemma TcpTransportRead()
    ensures IsTcp(TCP_TRANSPORT) && NumberAfter(TCP_TRANSPORT, "interleaved=") == 0
  {
    hide Find, Atoi, Contains, NumberAfter, Print;
    var key := "interleaved=";
    TcpParts();
    FindHere("RTP/AVP/TCP", ";unicast;interleaved=0-1");
    assert key[11] == '=';
    MissingChar("RTP/AVP/TCP", key, '=');
    MissingChar("unicast", key, '=');
    ThirdPart("RTP/AVP/TCP", "unicast", key, "0-1");
    ZeroPrinted();
    ReadPrint(0, "-1");
  }

  lemma UdpParts(numbers: string)
    ensures "RTP/AVP;unicast;client_port=" + numbers
         == "RTP/AVP" + [';'] + ("unicast" + [';'] + ("client_port=" + numbers))
  {
    assert "RTP/AVP;unicast;client_port=" == "RTP/AVP" + [';'] + "unicast" + [';'] + "client_port=";
  }

  lemma UdpIsNotTcp(numbers: string)
    requires '/' !in numbers
    ensures !IsTcp("RTP/AVP;unicast;client_port=" + numbers)
  {
    hide Find, Contains;
    var pattern := "RTP/AVP/TCP";
    assert pattern[3] == '/';
    TooShort("RTP/AVP", pattern);
    TooShort("unicast", pattern);
    MissingChar("client_port=" + numbers, pattern, '/');
    UdpParts(numbers);
    ThirdPartOnly("RTP/AVP", "unicast", "client_port=" + numbers, pattern);
  }

  lemma UdpTransportRead(port: int)
    ensures !IsTcp(UdpTransport(port)) && NumberAfter(UdpTransport(port), "client_port=") == port
  {
    hide Find, Atoi, Print, Contains, NumberAfter;
    var key, numbers := "client_port=", Print(port) + ("-" + Print(port + 1));
    PrintedChars(port);
    PrintedChars(port + 1);
    assert UdpTransport(port) == "RTP/AVP;unicast;client_port=" + numbers;
    UdpIsNotTcp(numbers);
    assert key[11] == '=';
    MissingChar("RTP/AVP", key, '=');
    MissingChar("unicast", key, '=');
    UdpParts(numbers);
    ThirdPart("RTP/AVP", "unicast", key, numbers);
    ReadPrint(port, "-" + Print(port + 1));
  }

  lemma PrintedChars(n: int)
    ensures forall c :: c in Print(n) ==> Digit(c) || c == '-'
  {
  }

  /** The number behind the header name in a URL. */
  function NumberIn(url: string): int
    requires Find(url, "CSeq:", 0) != NOT_FOUND
  {
    Atoi(url[Find(url, "CSeq:", 0) + 5..] + " R")
  }

  lemma {:induction false} KeyInUrl(word: string, url: string, rest: string, key: string)
    requires key != [] && ' ' !in key && !Contains(word, key) && Contains(url, key)
    ensures var s := word + [' '] + (url + [' '] + rest);
      var q := Find(url, key, 0);
      && q != NOT_FOUND && Find(s, key, 0) == |word| + 1 + q
      && s[|word| + 1 + q + |key|..] == url[q + |key|..] + [' '] + rest
  {
    hide Find;
    FindBefore(url, ' ', rest, key);
    FindAcross(word, ' ', url + [' '] + rest, key);
  }

  lemma {:induction false} NumberEnds(a: string, rest: string)
    ensures Atoi(a + [' '] + ("RTSP/1.0\r\n" + rest)) == Atoi(a + " R")
  {
    hide Atoi;
    var more := "TSP/1.0\r\n" + rest;
    assert a + [' '] + ("RTSP/1.0\r\n" + rest) == (a + [' ']) + ['R'] + more;
    AtoiUntil(a + [' '], 'R', more);
    assert (a + [' ']) + ['R'] == a + " R";
  }

  lemma RequestParts(word: string, url: string, cseq: int, sessionId: string, extra: string) returns (rest: string)
    ensures Request(word, url, cseq, sessionId, extra) == word + [' '] + (url + [' '] + ("RTSP/1.0\r\n" + rest))
  {
    hide Print, Trailer, RequestLine;
    rest := "CSeq: " + Print(cseq) + "\r\n" + Trailer(sessionId, extra);
    RequestLineParts(word, url, rest);
  }

  lemma CSeqHere(request: string, p: nat)
    requires Find(request, "CSeq:", 0) == p
    ensures p + 5 <= |request| && CSeqOf(request) == Atoi(request[p + 5..])
  {
  }

  lemma NotInWord(word: string)
    requires RequestWord(word)
    ensures !Contains(word, "CSeq:")
  {
    CSeqName(word);
  }

  /** If the URL holds the header name, the server reads the number behind it there, whatever number the
      client printed. */
  lemma {:induction false} ClashIsRead(word: string, url: string, cseq: int, sessionId: string, extra: string)
    requires RequestWord(word) && Contains(url, "CSeq:")
    ensures Find(url, "CSeq:", 0) != NOT_FOUND
    ensures CSeqOf(Request(word, url, cseq, sessionId, extra)) == NumberIn(url)
  {
    hide Find, Atoi, Contains, Request, RequestWord, CSeqOf;
    NotInWord(word);
    var rest := RequestParts(word, url, cseq, sessionId, extra);
    KeyInUrl(word, url, "RTSP/1.0\r\n" + rest, "CSeq:");
    var q := Find(url, "CSeq:", 0);
    CSeqHere(Request(word, url, cseq, sessionId, extra), |word| + 1 + q);
    NumberEnds(url[q + 5..], rest);
  }

  // ---- Responses ------------------------------------------------------------------------------------

  const STATUS := "RTSP/1.0 200 OK\r\n"

  const PUBLIC := "Public: OPTIONS, DESCRIBE, " + "SETUP, PLAY, TEARDOWN\r\n\r\n"

  function OptionsResponse(cseq: int): string {
    STATUS + "CSeq: " + Print(cseq) + "\r\n" + PUBLIC
  }

  const SDP_ORIGIN := "v=0\r\no=- 0 0 IN IP4 0.0.0.0\r\n"
  const SDP_NAME := "s=Hailo Stream\r\nc=IN IP4 0.0.0.0\r\n"
  const SDP_MEDIA := "t=0 0\r\nm=video 0 RTP/AVP 96\r\n"
  const SDP_FORMAT := "a=rtpmap:96 H264/90000\r\n"
  const SDP_CONTROL := "a=control:trackID=0\r\n"
  const SDP := SDP_ORIGIN + SDP_NAME + SDP_MEDIA + SDP_FORMAT + SDP_CONTROL

  function DescribeResponse(cseq: int, uri: string): string {
    STATUS + "CSeq: " + Print(cseq) + "\r\n" + "Content-Base: " + uri + "/\r\n" +
    "Content-Type: application/sdp\r\n" + "Content-Length: " + Print(|SDP|) + "\r\n\r\n" + SDP
  }

  function SetupResponse(cseq: int, id: string, transport: string): string {
    STATUS + "CSeq: " + Print(cseq) + "\r\n" + "Session: " + id + "\r\n" + "Transport: " + transport + "\r\n\r\n"
  }

  function PlayResponse(cseq: int, id: string): string {
    STATUS + "CSeq: " + Print(cseq) + "\r\n" + "Session: " + id + "\r\n" + "Range: npt=0.000-\r\n\r\n"
  }

  function OkResponse(cseq: int, id: string): string {
    STATUS + "CSeq: " + Print(cseq) + "\r\n" + "Session: " + id + "\r\n\r\n"
  }

  predicate Succeeded(response: string) { Find(response, "RTSP/1.0 200", 0) != NOT_FOUND }

  lemma {:induction false} StatusSucceeds(response: string)
    requires Starts(response, STATUS)
    ensures Succeeded(response)
  {
    var word := "RTSP/1.0 200";
    assert STATUS[..|word|] == word;
    assert response[..|STATUS|][..|word|] == response[..|word|];
    assert response == word + response[|word|..];
    FindHere(word, response[|word|..]);
  }

  /** The session named by a response, or else the one known before. */
  function SessionOf(response: string, known: string): string {
    var p := HeaderAt(response, "Session:", "session:");
    if p == NOT_FOUND then known
    else
      var field := FieldAt(response, p, 8);
      var semi := Find(field, ";", 0);
      if semi == NOT_FOUND then field else field[..semi]
  }

  lemma SessionName()
    ensures !Contains("RTSP/1.0 200 OK" + "\r", "Session:")
  {
    assert "Session:"[2] == 's';
    MissingChar("RTSP/1.0 200 OK" + "\r", "Session:", 's');
  }

  lemma NoSessionInCSeq(cseq: int)
    ensures !Contains("CSeq: " + Print(cseq) + "\r", "Session:")
  {
    assert "Session:"[2] == 's';
    MissingChar("CSeq: " + Print(cseq) + "\r", "Session:", 's');
  }

  lemma SetupResponseText(cseq: int, id: string, transport: string)
    ensures SetupResponse(cseq, id, transport)
         == "RTSP/1.0 200 OK" + "\r\n" + ("CSeq: " + Print(cseq) + "\r\n"
            + ("Session:" + (" " + id + "\r\n" + ("Transport: " + transport + "\r\n\r\n"))))
  {
    hide Print;
    assert STATUS == "RTSP/1.0 200 OK" + "\r\n";
    assert "Session: " == "Session:" + " ";
  }

  /** The client reads the whole session name exactly when it holds no semicolon. */
  lemma {:induction false} SessionRead(cseq: int, id: string, transport: string, known: string)
    requires '\r' !in id && id != [] && !Blank(id[0])
    ensures SessionOf(SetupResponse(cseq, id, transport), known) == id <==> ';' !in id
  {
    hide Find, Print, FieldAt, Contains;
    var name, rest := "Session:", "Transport: " + transport + "\r\n\r\n";
    var last := name + (" " + id + "\r\n" + rest);
    var response := SetupResponse(cseq, id, transport);
    SetupResponseText(cseq, id, transport);
    FindHere(name, " " + id + "\r\n" + rest);
    NoSessionInCSeq(cseq);
    PastLine("CSeq: " + Print(cseq), last, name);
    SessionName();
    PastLine("RTSP/1.0 200 OK", "CSeq: " + Print(cseq) + "\r\n" + last, name);
    var before := "RTSP/1.0 200 OK" + "\r\n" + ("CSeq: " + Print(cseq) + "\r\n");
    assert response == before + (name + " " + id + "\r\n" + rest);
    FieldRead(before, name, id, rest);
    SemicolonDecides(id);
  }

  lemma SemicolonDecides(id: string)
    ensures Find(id, ";", 0) == NOT_FOUND <==> ';' !in id
  {
    if ';' in id {
      var i :| 0 <= i < |id| && id[i] == ';';
      assert id[i..i + 1] == ";";
      assert At(id, ";", i);
    } else {
      MissingChar(id, ";", ';');
      FindContains(id, ";");
    }
  }

  // ---- The server's session -------------------------------------------------------------------------

  function HexDigit(d: nat): (c: char)
    requires d < 16
    ensures c in "0123456789abcdef"
  {
    "0123456789abcdef"[d]
  }

  predicate HexName(id: string) { id != [] && forall c :: c in id ==> c in "0123456789abcdef" }

  lemma HexNameNotEmpty(id: string)
    requires HexName(id)
    ensures id != []
  {
  }

  /** A session name as the server makes it from a random number. */
  function PrintHex(n: nat): (s: string)
    ensures HexName(s)
  {
    if n < 16 then [HexDigit(n)] else PrintHex(n / 16) + [HexDigit(n % 16)]
  }

  lemma SmallNumbers(n: nat)
    ensures n < 0x100 ==> Bytes.Low8(n) == n
    ensures n < 0x1_0000 ==> Bytes.Low16(n) == n
  {
  }

  datatype Settings = Settings(tcp: bool, channel: nat, port: nat, playing: bool)

  /** What a request changes. */
  function After(s: Settings, request: string): Settings {
    if Starts(request, "OPTIONS") || Starts(request, "DESCRIBE") then s
    else if Starts(request, "SETUP") then
      var transport := TransportOf(request);
      if IsTcp(transport) then s.(tcp := true, channel := Bytes.Low8(NumberAfter(transport, "interleaved=")))
      else s.(tcp := false, port := Bytes.Low16(NumberAfter(transport, "client_port=")))
    else if Starts(request, "PLAY") then s.(playing := true)
    else s
  }

  /** What is answered, when the server's own port is `serverPort`. */
  function Answer(id: string, request: string, serverPort: nat): string {
    var cseq := CSeqOf(request);
    if Starts(request, "OPTIONS") then OptionsResponse(cseq)
    else if Starts(request, "DESCRIBE") then DescribeResponse(cseq, UriOf(request))
    else if Starts(request, "SETUP") then
      var transport := TransportOf(request);
      if IsTcp(transport) then SetupResponse(cseq, id, transport)
      else SetupResponse(cseq, id, transport + ";server_port=" + (Print(serverPort) + "-" + Print(serverPort + 1)))
    else if Starts(request, "PLAY") then PlayResponse(cseq, id)
    else OkResponse(cseq, id)
  }

  lemma WordNotEmpty(word: string)
    requires RequestWord(word)
    ensures word != []
  {
  }

  lemma SameFirst(request: string, word: string)
    requires Starts(request, word) && RequestWord(word)
    ensures request[0] == word[0]
  {
    WordNotEmpty(word);
    assert request[..|word|][0] == request[0];
  }

  lemma TearDownOnly(request: string)
    requires Starts(request, "TEARDOWN")
    ensures forall word :: RequestWord(word) ==> !Starts(request, word)
    ensures !Starts(request, "OPTIONS") && !Starts(request, "DESCRIBE")
    ensures !Starts(request, "SETUP") && !Starts(request, "PLAY")
  {
    assert request[..8][0] == request[0] == 'T';
    forall word | RequestWord(word) ensures !Starts(request, word) {
      if Starts(request, word) { SameFirst(request, word); }
    }
    assert RequestWord("OPTIONS") && RequestWord("DESCRIBE") && RequestWord("SETUP") && RequestWord("PLAY");
  }

  class ServerSession {
    const id: string
    var tcpTransport: bool
    var rtpChannel: nat
    var clientPort: nat
    var playing: bool
    /** The sequence numbers read so far. */
    ghost var read: seq<int>

    constructor (random: nat)
      ensures id == PrintHex(random) && !tcpTransport && rtpChannel == 0 && clientPort == 0 && !playing && read == []
    {
      id, tcpTransport, rtpChannel, clientPort, playing, read := PrintHex(random), false, 0, 0, false, [];
    }

    ghost function Look(): Settings
      reads this
    {
      Settings(tcpTransport, rtpChannel, clientPort, playing)
    }

    /** `answered` tells whether the answer can be sent. */
    method HandleRequest(request: string, serverPort: nat, answered: bool) returns (keep: bool, response: string)
      modifies this
      ensures Look() == After(old(Look()), request) && response == Answer(id, request, serverPort)
      ensures keep <==> !Starts(request, "TEARDOWN") && answered
      ensures read == old(read) + [CSeqOf(request)]
    {
      if Starts(request, "TEARDOWN") { TearDownOnly(request); }
      hide OptionsResponse, DescribeResponse, SetupResponse, PlayResponse, OkResponse, Starts;
      hide CSeqOf, UriOf, TransportOf, IsTcp, NumberAfter, Print, Bytes.Low8, Bytes.Low16;
      var cseq := CSeqOf(request);
      read := read + [cseq];
      keep := answered;
      if Starts(request, "OPTIONS") {
        response := OptionsResponse(cseq);
      } else if Starts(request, "DESCRIBE") {
        response := DescribeResponse(cseq, UriOf(request));
      } else if Starts(request, "SETUP") {
        var transport := TransportOf(request);
        tcpTransport := IsTcp(transport);
        if tcpTransport {
          rtpChannel := Bytes.Low8(NumberAfter(transport, "interleaved="));
          response := SetupResponse(cseq, id, transport);
        } else {
          clientPort := Bytes.Low16(NumberAfter(transport, "client_port="));
          var ports := Print(serverPort) + "-" + Print(serverPort + 1);
          response := SetupResponse(cseq, id, transport + ";server_port=" + ports);
        }
      } else if Starts(request, "PLAY") {
        playing := true;
        response := PlayResponse(cseq, id);
      } else if Starts(request, "TEARDOWN") {
        response := OkResponse(cseq, id);
        keep := false;
      } else {
        response := OkResponse(cseq, id);
      }
    }
  }

  // ---- What each request of the client brings about -------------------------------------------------

  const TRACK := "/trackID=0"

  /** The client's addition to the URL holds no part of a header name. */
  lemma {:induction false} TrackAddsNoName(url: string)
    ensures Contains(url + TRACK, "CSeq:") <==> Contains(url, "CSeq:")
    ensures Contains(url + TRACK, "Transport:") <==> Contains(url, "Transport:")
  {
    hide Contains;
    assert url + TRACK == url + ['/'] + "trackID=0";
    assert "CSeq:"[3] == 'q' && "Transport:"[0] == 'T';
    MissingChar("trackID=0", "CSeq:", 'q');
    MissingChar("trackID=0", "Transport:", 'T');
    ContainsAcross(url, '/', "trackID=0", "CSeq:");
    ContainsAcross(url, '/', "trackID=0", "Transport:");
  }

  lemma FirstLetters(a: string, b: string)
    requires RequestWord(a) && RequestWord(b) && a[0] == b[0]
    ensures a == b
  {
  }

  lemma StartsWithWord(word: string, url: string, cseq: int, sessionId: string, extra: string, other: string)
    requires RequestWord(word) && RequestWord(other)
    ensures Starts(Request(word, url, cseq, sessionId, extra), other) <==> word == other
  {
    var request := Request(word, url, cseq, sessionId, extra);
    WordNotEmpty(word);
    WordNotEmpty(other);
    RequestStarts(word, url, cseq, sessionId, extra);
    hide Request, RequestWord;
    if Starts(request, other) {
      assert request[..|other|][0] == request[0] && request[..|word|][0] == request[0];
      FirstLetters(word, other);
    }
  }

  lemma RequestStarts(word: string, url: string, cseq: int, sessionId: string, extra: string)
    ensures Starts(Request(word, url, cseq, sessionId, extra), word)
  {
    hide Trailer, Print;
  }

  lemma OptionsExchange(s: Settings, id: string, url: string, cseq: int, serverPort: nat)
    ensures var request := Request("OPTIONS", url, cseq, [], []);
      After(s, request) == s && Succeeded(Answer(id, request, serverPort))
  {
    hide OptionsResponse, DescribeResponse, SetupResponse, PlayResponse, OkResponse;
    hide Request, Starts, CSeqOf, Succeeded, Contains;
    StartsWithWord("OPTIONS", url, cseq, [], [], "OPTIONS");
    AllSucceed(CSeqOf(Request("OPTIONS", url, cseq, [], [])), id, []);
  }

  lemma AllSucceed(cseq: int, id: string, text: string)
    ensures Succeeded(OptionsResponse(cseq)) && Succeeded(DescribeResponse(cseq, text))
    ensures Succeeded(SetupResponse(cseq, id, text)) && Succeeded(PlayResponse(cseq, id))
  {
    hide Print, Succeeded;
    StatusSucceeds(OptionsResponse(cseq));
    StatusSucceeds(DescribeResponse(cseq, text));
    StatusSucceeds(SetupResponse(cseq, id, text));
    StatusSucceeds(PlayResponse(cseq, id));
  }

  const ACCEPT := "Accept: application/sdp\r\n"

  lemma DescribeExchange(s: Settings, id: string, url: string, cseq: int, serverPort: nat)
    ensures var request := Request("DESCRIBE", url, cseq, [], ACCEPT);
      After(s, request) == s && Succeeded(Answer(id, request, serverPort))
  {
    hide OptionsResponse, DescribeResponse, SetupResponse, PlayResponse, OkResponse;
    hide Request, Starts, CSeqOf, Succeeded, Contains, UriOf;
    var request := Request("DESCRIBE", url, cseq, [], ACCEPT);
    StartsWithWord("DESCRIBE", url, cseq, [], ACCEPT, "OPTIONS");
    StartsWithWord("DESCRIBE", url, cseq, [], ACCEPT, "DESCRIBE");
    AllSucceed(CSeqOf(request), id, UriOf(request));
  }

  function Transport(tcp: bool, port: nat): string { if tcp then TCP_TRANSPORT else UdpTransport(port) }

  lemma SetupRequest(url: string, cseq: int, tcp: bool, port: nat)
    ensures var request := Request("SETUP", url, cseq, [], TransportLine(Transport(tcp, port)));
      && Starts(request, "SETUP") && !Starts(request, "OPTIONS") && !Starts(request, "DESCRIBE")
      && (!Contains(url, "Transport:") ==> TransportOf(request) == Transport(tcp, port))
  {
    TransportShape(tcp, port);
    var transport := Transport(tcp, port);
    var extra := TransportLine(transport);
    hide Request, Starts, CSeqOf, Contains, TransportOf, Print, Blank, Transport, TransportLine;
    StartsWithWord("SETUP", url, cseq, [], extra, "OPTIONS");
    StartsWithWord("SETUP", url, cseq, [], extra, "DESCRIBE");
    StartsWithWord("SETUP", url, cseq, [], extra, "SETUP");
    TransportRead(url, cseq, transport);
  }

  /** A set-up: the client reads the server's session, and unless the URL holds "Transport:" the server's
      transport and channel or port are as the client wrote them. */
  lemma SetupExchange(s: Settings, id: string, known: string, url: string, cseq: int, tcp: bool, port: nat,
                      serverPort: nat)
    requires port < 0x1_0000 && HexName(id)
    ensures var request := Request("SETUP", url, cseq, [], TransportLine(Transport(tcp, port)));
      && Succeeded(Answer(id, request, serverPort)) && SessionOf(Answer(id, request, serverPort), known) == id
      && (!Contains(url, "Transport:") ==>
            After(s, request) == (if tcp then s.(tcp := true, channel := 0) else s.(tcp := false, port := port)))
  {
    SessionShape(id);
    hide Request, Starts, CSeqOf, Succeeded, Contains, TransportOf, IsTcp, NumberAfter, SessionOf, Print, UdpTransport;
    SmallNumbers(0);
    SmallNumbers(port);
    hide TransportLine, SetupResponse, HexName, After, Answer, Transport, Bytes.Low8, Bytes.Low16;
    var request := Request("SETUP", url, cseq, [], TransportLine(Transport(tcp, port)));
    SetupRequest(url, cseq, tcp, port);
    TransportMeaning(tcp, port);
    SetupSettings(s, request);
    var echoed := SetupAnswer(id, request, serverPort);
    SessionRead(CSeqOf(request), id, echoed, known);
    AllSucceed(CSeqOf(request), id, echoed);
  }

  lemma TransportMeaning(tcp: bool, port: nat)
    ensures IsTcp(Transport(tcp, port)) == tcp
    ensures if tcp then NumberAfter(Transport(tcp, port), "interleaved=") == 0
            else NumberAfter(Transport(tcp, port), "client_port=") == port
  {
    hide IsTcp, NumberAfter, UdpTransport;
    if tcp { TcpTransportRead(); } else { UdpTransportRead(port); }
  }

  lemma SetupSettings(s: Settings, request: string)
    requires Starts(request, "SETUP") && !Starts(request, "OPTIONS") && !Starts(request, "DESCRIBE")
    ensures After(s, request)
         == var transport := TransportOf(request);
            if IsTcp(transport) then s.(tcp := true, channel := Bytes.Low8(NumberAfter(transport, "interleaved=")))
            else s.(tcp := false, port := Bytes.Low16(NumberAfter(transport, "client_port=")))
  {
  }

  /** The answer echoes the transport, over UDP with the server's ports. */
  lemma SetupAnswer(id: string, request: string, serverPort: nat) returns (echoed: string)
    requires Starts(request, "SETUP") && !Starts(request, "OPTIONS") && !Starts(request, "DESCRIBE")
    ensures Answer(id, request, serverPort) == SetupResponse(CSeqOf(request), id, echoed)
  {
    hide SetupResponse, CSeqOf, TransportOf, IsTcp, Print, Starts;
    var transport := TransportOf(request);
    echoed := if IsTcp(transport) then transport
              else transport + ";server_port=" + (Print(serverPort) + "-" + Print(serverPort + 1));
  }

  lemma TransportShape(tcp: bool, port: nat)
    ensures var transport := Transport(tcp, port);
      '\r' !in transport && transport != [] && !Blank(transport[0])
  {
    hide Print;
    PrintedChars(port);
    PrintedChars(port + 1);
  }

  lemma SessionShape(id: string)
    requires HexName(id)
    ensures '\r' !in id && ';' !in id && !Blank(id[0])
  {
    assert id[0] in id;
  }

  const RANGE := "Range: npt=0.000-\r\n"

  lemma PlayExchange(s: Settings, id: string, url: string, cseq: int, serverPort: nat)
    ensures var request := Request("PLAY", url, cseq, id, RANGE);
      After(s, request) == s.(playing := true) && Succeeded(Answer(id, request, serverPort))
  {
    hide OptionsResponse, DescribeResponse, SetupResponse, PlayResponse, OkResponse;
    hide Request, Starts, CSeqOf, Succeeded, Contains, Print;
    StartsWithWord("PLAY", url, cseq, id, RANGE, "OPTIONS");
    StartsWithWord("PLAY", url, cseq, id, RANGE, "DESCRIBE");
    StartsWithWord("PLAY", url, cseq, id, RANGE, "SETUP");
    StartsWithWord("PLAY", url, cseq, id, RANGE, "PLAY");
    AllSucceed(CSeqOf(Request("PLAY", url, cseq, id, RANGE)), id, []);
  }

  lemma EchoedNumber(cseq: int, rest: string)
    ensures CSeqOf(STATUS + "CSeq: " + Print(cseq) + "\r\n" + rest) == cseq
  {
    hide Find, Print, Atoi, Contains;
    var tail := "\r\n" + rest;
    var last := "CSeq:" + (" " + (Print(cseq) + tail));
    var response := STATUS + "CSeq: " + Print(cseq) + "\r\n" + rest;
    assert "CSeq:"[3] == 'q';
    MissingChar("RTSP/1.0 200 OK" + "\r", "CSeq:", 'q');
    PastLine("RTSP/1.0 200 OK", last, "CSeq:");
    assert response == "RTSP/1.0 200 OK" + "\r\n" + last;
    FindHere("CSeq:", " " + (Print(cseq) + tail));
    assert response[17 + 5..] == " " + (Print(cseq) + tail);
    ReadAfterBlank(Print(cseq) + tail);
    ReadPrint(cseq, tail);
  }

  /** What follows the sequence number in each of the answers. */
  lemma AnswerTails(cseq: int, id: string, text: string)
    ensures var head := STATUS + "CSeq: " + Print(cseq) + "\r\n";
      && OptionsResponse(cseq) == head + PUBLIC
      && DescribeResponse(cseq, text)
         == head + ("Content-Base: " + text + "/\r\n" + "Content-Type: application/sdp\r\n" + "Content-Length: "
                    + Print(|SDP|) + "\r\n\r\n" + SDP)
      && SetupResponse(cseq, id, text) == head + ("Session: " + id + "\r\n" + "Transport: " + text + "\r\n\r\n")
      && PlayResponse(cseq, id) == head + ("Session: " + id + "\r\n" + "Range: npt=0.000-\r\n\r\n")
      && OkResponse(cseq, id) == head + ("Session: " + id + "\r\n\r\n")
  {
    hide Print;
  }

  /** Every answer bears the sequence number that was read from its request. */
  lemma AnswerEchoes(id: string, request: string, serverPort: nat)
    ensures CSeqOf(Answer(id, request, serverPort)) == CSeqOf(request)
  {
    hide CSeqOf, UriOf, TransportOf, IsTcp, Print, Starts;
    hide OptionsResponse, DescribeResponse, SetupResponse, PlayResponse, OkResponse;
    var cseq, transport := CSeqOf(request), TransportOf(request);
    var ports := Print(serverPort) + "-" + Print(serverPort + 1);
    EchoesAll(cseq, id, UriOf(request));
    EchoesAll(cseq, id, transport);
    EchoesAll(cseq, id, transport + ";server_port=" + ports);
  }

  lemma EchoesAll(cseq: int, id: string, text: string)
    ensures CSeqOf(OptionsResponse(cseq)) == CSeqOf(DescribeResponse(cseq, text)) == cseq
    ensures CSeqOf(SetupResponse(cseq, id, text)) == CSeqOf(PlayResponse(cseq, id)) == cseq
    ensures CSeqOf(OkResponse(cseq, id)) == cseq
  {
    hide Print, CSeqOf, OptionsResponse, DescribeResponse, SetupResponse, PlayResponse, OkResponse;
    AnswerTails(cseq, id, text);
    EchoedNumber(cseq, PUBLIC);
    EchoedNumber(cseq, "Content-Base: " + text + "/\r\n" + "Content-Type: application/sdp\r\n" + "Content-Length: "
                       + Print(|SDP|) + "\r\n\r\n" + SDP);
    EchoedNumber(cseq, "Session: " + id + "\r\n" + "Transport: " + text + "\r\n\r\n");
    EchoedNumber(cseq, "Session: " + id + "\r\n" + "Range: npt=0.000-\r\n\r\n");
    EchoedNumber(cseq, "Session: " + id + "\r\n\r\n");
  }

  /** The settings after any request text: only a SETUP changes transport, channel and port, and only a PLAY
      starts the playing, which nothing ends. */
  lemma SettingsMeaning(s: Settings, request: string)
    ensures var t := After(s, request);
      && (!Starts(request, "SETUP") && !Starts(request, "PLAY") ==> t == s)
      && (Starts(request, "PLAY") ==> t == s.(playing := true))
      && (Starts(request, "SETUP") ==>
            && t.playing == s.playing
            && var transport := TransportOf(request);
               if Contains(transport, "RTP/AVP/TCP") then
                 t.tcp && t.port == s.port && t.channel == NumberAfter(transport, "interleaved=") % 256
               else !t.tcp && t.channel == s.channel && t.port == NumberAfter(transport, "client_port=") % 65536)
  {
    hide TransportOf, NumberAfter, Contains, Find;
    FindContains(TransportOf(request), "RTP/AVP/TCP");
    FirstCharacter(request);
  }

  lemma FirstCharacter(request: string)
    ensures Starts(request, "SETUP") ==> request[0] == 'S'
    ensures Starts(request, "PLAY") ==> request[0] == 'P'
    ensures Starts(request, "OPTIONS") ==> request[0] == 'O'
    ensures Starts(request, "DESCRIBE") ==> request[0] == 'D'
  {
    if Starts(request, "SETUP") { assert request[..5][0] == request[0]; }
    if Starts(request, "PLAY") { assert request[..4][0] == request[0]; }
    if Starts(request, "OPTIONS") { assert request[..7][0] == request[0]; }
    if Starts(request, "DESCRIBE") { assert request[..8][0] == request[0]; }
  }

  // ---- A request and its answer through the encrypted channel ---------------------------------------

  lemma JoinOneByte(a: string, b: string)
    requires OneByte(a) && OneByte(b)
    ensures OneByte(a + b)
  {}

  lemma SliceOneByte(s: string, from: nat, to: nat)
    requires OneByte(s) && from <= to <= |s|
    ensures OneByte(s[from..to])
  {
    forall c | c in s[from..to] ensures c as int < 256 {
      assert c in s;
    }
  }

  lemma SubstrOneByte(s: string, pos: nat, count: int)
    requires OneByte(s) && pos <= |s|
    ensures OneByte(Substr(s, pos, count))
  {
    hide OneByte;
    SliceOneByte(s, pos, if count < 0 || pos + count > |s| then |s| else pos + count);
    assert s[pos..] == s[pos..|s|];
  }

  lemma {:induction false} StrippedOneByte(s: string)
    requires OneByte(s)
    ensures OneByte(Stripped(s))
    decreases |s|
  {
    hide OneByte;
    if s != [] && Blank(s[0]) {
      SliceOneByte(s, 1, |s|);
      assert s[1..] == s[1..|s|];
      StrippedOneByte(s[1..]);
    }
  }

  lemma FieldOneByte(message: string, at: nat, width: nat)
    requires OneByte(message) && at + width <= |message|
    ensures OneByte(FieldAt(message, at, width))
  {
    hide OneByte, Find, Substr;
    var count := Find(message, "\r\n", at) - at - width;
    SubstrOneByte(message, at + width, count);
    StrippedOneByte(Substr(message, at + width, count));
  }

  lemma ShortOneByte()
    ensures OneByte("CSeq: ") && OneByte("\r\n") && OneByte("Session: ") && OneByte("Transport: ") && OneByte("-")
    ensures OneByte("\r\n\r\n") && OneByte("/\r\n") && OneByte([])
  {}

  lemma StatusOneByte()
    ensures OneByte(STATUS) && OneByte("Content-Base: ") && OneByte("Content-Length: ")
  {}

  lemma LineOneByte()
    ensures OneByte("Content-Type: application/sdp\r\n")
  {}

  lemma PublicOneByte()
    ensures OneByte(PUBLIC)
  {
    assert OneByte("Public: OPTIONS, DESCRIBE, ") && OneByte("SETUP, PLAY, TEARDOWN\r\n\r\n");
    JoinOneByte("Public: OPTIONS, DESCRIBE, ", "SETUP, PLAY, TEARDOWN\r\n\r\n");
  }

  lemma OriginOneByte()
    ensures OneByte(SDP_ORIGIN) && OneByte(SDP_CONTROL)
  {}

  lemma NameOneByte()
    ensures OneByte(SDP_NAME)
  {}

  lemma MediaOneByte()
    ensures OneByte(SDP_MEDIA) && OneByte(SDP_FORMAT)
  {}

  lemma SdpOneByte()
    ensures OneByte(SDP)
  {
    hide OneByte;
    OriginOneByte();
    NameOneByte();
    MediaOneByte();
    JoinFive(SDP_ORIGIN, SDP_NAME, SDP_MEDIA, SDP_FORMAT, SDP_CONTROL);
  }

  lemma JoinFive(a: string, b: string, c: string, d: string, e: string)
    requires OneByte(a) && OneByte(b) && OneByte(c) && OneByte(d) && OneByte(e)
    ensures OneByte(a + b + c + d) && OneByte(a + b + c + d + e)
  {
    hide OneByte;
    JoinOneByte(a, b);
    JoinOneByte(a + b, c);
    JoinOneByte(a + b + c, d);
    JoinOneByte(a + b + c + d, e);
  }

  lemma PortOneByte()
    ensures OneByte("Range: npt=0.000-\r\n\r\n") && OneByte(";server_port=")
  {}

  lemma PrintOneByte(n: int)
    ensures OneByte(Print(n))
  {
    PrintedChars(n);
    forall i | 0 <= i < |Print(n)| ensures Print(n)[i] as int < 256 { assert Print(n)[i] in Print(n); }
  }

  lemma HeadOneByte(cseq: int)
    ensures OneByte(STATUS + "CSeq: " + Print(cseq) + "\r\n")
  {
    hide OneByte, Print;
    StatusOneByte();
    ShortOneByte();
    PrintOneByte(cseq);
    JoinFive(STATUS, "CSeq: ", Print(cseq), "\r\n", []);
  }

  lemma DescribeOneByte(cseq: int, uri: string)
    requires OneByte(uri)
    ensures OneByte(DescribeResponse(cseq, uri))
  {
    hide OneByte, Print;
    HeadOneByte(cseq);
    StatusOneByte();
    ShortOneByte();
    LineOneByte();
    PrintOneByte(|SDP|);
    SdpOneByte();
    var head := STATUS + "CSeq: " + Print(cseq) + "\r\n";
    JoinFive(head, "Content-Base: ", uri, "/\r\n", "Content-Type: application/sdp\r\n");
    JoinFive(head + "Content-Base: " + uri + "/\r\n" + "Content-Type: application/sdp\r\n",
             "Content-Length: ", Print(|SDP|), "\r\n\r\n", SDP);
  }

  lemma SetupOneByte(cseq: int, id: string, transport: string)
    requires OneByte(id) && OneByte(transport)
    ensures OneByte(SetupResponse(cseq, id, transport))
  {
    hide OneByte, Print;
    HeadOneByte(cseq);
    ShortOneByte();
    var head := STATUS + "CSeq: " + Print(cseq) + "\r\n";
    JoinFive(head, "Session: ", id, "\r\n", "Transport: ");
    JoinFive(head + "Session: " + id + "\r\n" + "Transport: ", transport, "\r\n\r\n", [], []);
    assert SetupResponse(cseq, id, transport)
        == head + "Session: " + id + "\r\n" + "Transport: " + transport + "\r\n\r\n" + [];
  }

  lemma PlayOneByte(cseq: int, id: string)
    requires OneByte(id)
    ensures OneByte(PlayResponse(cseq, id)) && OneByte(OkResponse(cseq, id)) && OneByte(OptionsResponse(cseq))
  {
    hide OneByte, Print;
    HeadOneByte(cseq);
    ShortOneByte();
    PortOneByte();
    PublicOneByte();
    var head := STATUS + "CSeq: " + Print(cseq) + "\r\n";
    JoinFive(head, "Session: ", id, "\r\n", "Range: npt=0.000-\r\n\r\n");
    JoinFive(head, "Session: ", id, "\r\n\r\n", []);
    JoinOneByte(head, PUBLIC);
    assert OkResponse(cseq, id) == head + "Session: " + id + "\r\n\r\n" + [];
  }

  lemma HexOneByte(id: string)
    requires HexName(id)
    ensures OneByte(id)
  {
    forall i | 0 <= i < |id| ensures id[i] as int < 256 { assert id[i] in id; }
  }

  /** The parts of a request that the server echoes are one-byte texts if the request is one. */
  lemma EchoedOneByte(request: string)
    requires OneByte(request)
    ensures OneByte(TransportOf(request)) && OneByte(UriOf(request))
  {
    hide OneByte, FieldAt, Substr;
    ShortOneByte();
    var p := HeaderAt(request, "Transport:", "transport:");
    if p != NOT_FOUND { FieldOneByte(request, p, 10); }
    var sp := Find(request, " ", 0);
    SubstrOneByte(request, sp + 1, Find(request, " ", sp + 1) - sp - 1);
  }

  /** Answers to one-byte texts are one-byte texts. */
  lemma AnswerOneByte(id: string, request: string, serverPort: nat)
    requires OneByte(request) && HexName(id)
    ensures OneByte(Answer(id, request, serverPort))
  {
    hide OneByte, HexName, OptionsResponse, DescribeResponse, SetupResponse, PlayResponse, OkResponse, Starts;
    hide CSeqOf, UriOf, TransportOf, IsTcp, Print;
    var cseq, transport := CSeqOf(request), TransportOf(request);
    HexOneByte(id);
    EchoedOneByte(request);
    ShortOneByte();
    PortOneByte();
    PrintOneByte(serverPort);
    PrintOneByte(serverPort + 1);
    JoinFive(Print(serverPort), "-", Print(serverPort + 1), [], []);
    var ports := Print(serverPort) + "-" + Print(serverPort + 1);
    assert ports + [] + [] == ports;
    JoinFive(transport, ";server_port=", ports, [], []);
    assert transport + ";server_port=" + ports + [] + [] == transport + ";server_port=" + ports;
    DescribeOneByte(cseq, UriOf(request));
    SetupOneByte(cseq, id, transport);
    SetupOneByte(cseq, id, transport + ";server_port=" + ports);
    PlayOneByte(cseq, id);
  }

  lemma AnswerNotEmpty(id: string, request: string, serverPort: nat)
    ensures Answer(id, request, serverPort) != []
  {
    hide CSeqOf, UriOf, TransportOf, IsTcp, Print, Starts;
  }

  lemma WordsOneByte(word: string)
    requires RequestWord(word)
    ensures OneByte(word) && OneByte(" ") && OneByte(" RTSP/1.0\r\n")
  {}

  lemma AgentOneByte()
    ensures OneByte("User-Agent: hailo-rtsp-client\r\n") && OneByte(TRACK)
  {}

  lemma ExtrasOneByte()
    ensures OneByte(ACCEPT) && OneByte(RANGE)
  {}

  lemma RequestOneByte(word: string, url: string, cseq: int, sessionId: string, extra: string)
    requires RequestWord(word) && OneByte(url) && OneByte(sessionId) && OneByte(extra)
    ensures OneByte(Request(word, url, cseq, sessionId, extra))
  {
    hide OneByte, Print, RequestWord;
    WordsOneByte(word);
    ShortOneByte();
    AgentOneByte();
    PrintOneByte(cseq);
    JoinFive(word, " ", url, " RTSP/1.0\r\n", []);
    JoinFive("Session: ", sessionId, "\r\n", [], []);
    assert "Session: " + sessionId + "\r\n" + [] == "Session: " + sessionId + "\r\n";
    var session := if sessionId == [] then [] else "Session: " + sessionId + "\r\n";
    JoinFive("User-Agent: hailo-rtsp-client\r\n", session, extra, "\r\n", []);
    JoinFive("CSeq: ", Print(cseq), "\r\n", Trailer(sessionId, extra), []);
    JoinOneByte(RequestLine(word, url), "CSeq: " + Print(cseq) + "\r\n" + Trailer(sessionId, extra));
  }

  lemma TransportLineOneByte(tcp: bool, port: nat)
    ensures OneByte(TransportLine(Transport(tcp, port)))
  {
    TcpFixedOneByte();
    UdpFixedOneByte();
    hide OneByte, Print;
    ShortOneByte();
    PrintOneByte(port);
    PrintOneByte(port + 1);
    JoinFive("RTP/AVP;unicast;client_port=", Print(port), "-", Print(port + 1), []);
    JoinFive("Transport: ", Transport(tcp, port), "\r\n", [], []);
    assert "Transport: " + Transport(tcp, port) + "\r\n" + [] == TransportLine(Transport(tcp, port));
  }

  lemma TcpFixedOneByte()
    ensures OneByte(TCP_TRANSPORT)
  {}

  lemma UdpFixedOneByte()
    ensures OneByte("RTP/AVP;unicast;client_port=")
  {}

  lemma RequestNotEmpty(word: string, url: string, cseq: int, sessionId: string, extra: string)
    requires RequestWord(word)
    ensures Request(word, url, cseq, sessionId, extra) != []
  {
    hide Trailer, Print;
  }

  /** What the client sends are non-empty one-byte texts. */
  predicate Sendable(request: string) { request != [] && OneByte(request) }

  lemma FirstRequests(url: string, first: int, tcp: bool, port: nat)
    requires OneByte(url)
    ensures Sendable(Request("OPTIONS", url, first, [], []))
    ensures Sendable(Request("DESCRIBE", url, first + 1, [], ACCEPT))
    ensures Sendable(Request("SETUP", url + TRACK, first + 2, [], TransportLine(Transport(tcp, port))))
  {
    hide Request, TransportLine, Transport, OneByte;
    ShortOneByte();
    ExtrasOneByte();
    AgentOneByte();
    TransportLineOneByte(tcp, port);
    JoinOneByte(url, TRACK);
    RequestOneByte("OPTIONS", url, first, [], []);
    RequestOneByte("DESCRIBE", url, first + 1, [], ACCEPT);
    RequestOneByte("SETUP", url + TRACK, first + 2, [], TransportLine(Transport(tcp, port)));
    RequestNotEmpty("OPTIONS", url, first, [], []);
    RequestNotEmpty("DESCRIBE", url, first + 1, [], ACCEPT);
    RequestNotEmpty("SETUP", url + TRACK, first + 2, [], TransportLine(Transport(tcp, port)));
  }

  lemma LastRequest(url: string, cseq: int, sessionId: string)
    requires OneByte(url) && OneByte(sessionId)
    ensures Sendable(Request("PLAY", url, cseq, sessionId, RANGE))
  {
    hide Request, OneByte;
    ExtrasOneByte();
    RequestOneByte("PLAY", url, cseq, sessionId, RANGE);
    RequestNotEmpty("PLAY", url, cseq, sessionId, RANGE);
  }

  /** Three requests of the client, line by line (RFC 2326 section 6). */
  lemma RequestLines(url: string, first: int, id: string)
    requires id != []
    ensures Request("OPTIONS", url, first, [], [])
         == "OPTIONS" + " " + url + " RTSP/1.0\r\n" + "CSeq: " + Print(first) + "\r\n"
            + "User-Agent: hailo-rtsp-client\r\n" + "\r\n"
    ensures Request("DESCRIBE", url, first, [], ACCEPT)
         == "DESCRIBE" + " " + url + " RTSP/1.0\r\n" + "CSeq: " + Print(first) + "\r\n"
            + "User-Agent: hailo-rtsp-client\r\n" + "Accept: application/sdp\r\n" + "\r\n"
    ensures Request("PLAY", url, first, id, RANGE)
         == "PLAY" + " " + url + " RTSP/1.0\r\n" + "CSeq: " + Print(first) + "\r\n"
            + "User-Agent: hailo-rtsp-client\r\n" + ("Session: " + id + "\r\n") + "Range: npt=0.000-\r\n" + "\r\n"
  {
    hide Print;
    Lines("OPTIONS", url, first, [], []);
    Lines("DESCRIBE", url, first, [], ACCEPT);
    Lines("PLAY", url, first, id, RANGE);
    hide Request;
  }

  /** And the set-up, over TCP and over UDP. */
  lemma SetUpLines(url: string, first: int, port: nat)
    ensures Request("SETUP", url + TRACK, first, [], TransportLine(Transport(true, port)))
         == "SETUP" + " " + (url + "/trackID=0") + " RTSP/1.0\r\n" + "CSeq: " + Print(first) + "\r\n"
            + "User-Agent: hailo-rtsp-client\r\n"
            + ("Transport: " + "RTP/AVP/TCP;unicast;interleaved=0-1" + "\r\n") + "\r\n"
    ensures Request("SETUP", url + TRACK, first, [], TransportLine(Transport(false, port)))
         == "SETUP" + " " + (url + "/trackID=0") + " RTSP/1.0\r\n" + "CSeq: " + Print(first) + "\r\n"
            + "User-Agent: hailo-rtsp-client\r\n"
            + ("Transport: " + ("RTP/AVP;unicast;client_port=" + Print(port) + "-" + Print(port + 1)) + "\r\n") + "\r\n"
  {
    hide Print;
    Lines("SETUP", url + TRACK, first, [], TransportLine(Transport(true, port)));
    Lines("SETUP", url + TRACK, first, [], TransportLine(Transport(false, port)));
    hide Request;
  }

  lemma Lines(word: string, url: string, cseq: int, id: string, extra: string)
    ensures Request(word, url, cseq, id, extra)
         == word + " " + url + " RTSP/1.0\r\n" + "CSeq: " + Print(cseq) + "\r\n"
            + "User-Agent: hailo-rtsp-client\r\n" + (if id == [] then [] else "Session: " + id + "\r\n")
            + extra + "\r\n"
  {
    hide Print;
  }

  lemma SessionOneByte(response: string, known: string)
    requires OneByte(response) && OneByte(known)
    ensures OneByte(SessionOf(response, known))
  {
    hide OneByte, FieldAt;
    var p := HeaderAt(response, "Session:", "session:");
    if p != NOT_FOUND {
      FieldOneByte(response, p, 8);
      var field := FieldAt(response, p, 8);
      var semi := Find(field, ";", 0);
      if semi != NOT_FOUND { SliceOneByte(field, 0, semi); }
    }
  }

  /** Neither the request nor its answer is longer than `limit`. */
  predicate Carried(id: string, request: string, serverPort: nat, limit: nat) {
    |request| <= limit && |Answer(id, request, serverPort)| <= limit
  }

  /** So for the client's four requests. */
  predicate AllCarried(url: string, first: int, id: string, tcp: bool, port: nat, serverPort: nat, limit: nat) {
    && Carried(id, Request("OPTIONS", url, first, [], []), serverPort, limit)
    && Carried(id, Request("DESCRIBE", url, first + 1, [], ACCEPT), serverPort, limit)
    && Carried(id, Request("SETUP", url + TRACK, first + 2, [], TransportLine(Transport(tcp, port))), serverPort, limit)
    && Carried(id, Request("PLAY", url, first + 3, id, RANGE), serverPort, limit)
  }

  const MAX_COUNT := 0xFFFF_FFFF

  // ---- The client -----------------------------------------------------------------------------------

  class Client {
    const rtpTcp: bool
    var host: string
    var port: int
    var path: string
    var baseUrl: string
    var sessionId: string
    var cseq: int
    var clientRtpPort: nat

    constructor (rtpTcp: bool)
      ensures this.rtpTcp == rtpTcp && port == DEFAULT_PORT && sessionId == [] && cseq == 1 && clientRtpPort == 0
    {
      this.rtpTcp := rtpTcp;
      host, port, path, baseUrl, sessionId, cseq, clientRtpPort := [], DEFAULT_PORT, [], [], [], 1, 0;
    }

    /** Accepts a URL with the scheme and a host, and takes it apart. */
    method ParseUrl(url: string) returns (ok: bool)
      modifies this`host, this`port, this`path
      ensures ok <==> Starts(url, SCHEME) && Parsed(url).host != []
      ensures Starts(url, SCHEME) ==> Url(host, port, path) == Parsed(url)
      ensures !Starts(url, SCHEME) ==> host == old(host) && port == old(port) && path == old(path)
    {
      if !Starts(url, SCHEME) { return false; }
      var slash := Find(url, "/", |SCHEME|);
      var hostPort := if slash == NOT_FOUND then url[|SCHEME|..] else url[|SCHEME|..slash];
      path := if slash == NOT_FOUND then "/" else url[slash..];
      var colon := Find(hostPort, ":", 0);
      if colon == NOT_FOUND {
        host, port := hostPort, DEFAULT_PORT;
      } else {
        host, port := hostPort[..colon], Atoi(hostPort[colon + 1..]);
        if port <= 0 { port := DEFAULT_PORT; }
      }
      ok := host != [];
    }

    /** One request and its answer through the encrypted channel.  A text over the channel's limit is refused
        by its receiver: the server then does nothing but close the session. */
    method SendRequest(server: ServerSession, serverPort: nat, c: Srtp.Cipher, request: string)
      returns (r: Srtp.Option<string>)
      requires Srtp.SelfInverse(c) && Sendable(request) && HexName(server.id)
      modifies server
      ensures Carried(server.id, request, serverPort, 65536) ==>
        && r == Srtp.Some(Answer(server.id, request, serverPort))
        && server.Look() == After(old(server.Look()), request)
        && server.read == old(server.read) + [CSeqOf(request)]
      ensures Carried(server.id, request, serverPort, MAX_COUNT) ==>
        (r.Some? <==> Carried(server.id, request, serverPort, 65536))
      ensures 65536 < |request| <= MAX_COUNT ==> unchanged(server)
      ensures r.Some? ==> OneByte(r.value)
    {
      hide HexName, OneByte, After, Answer, CSeqOf, Through;
      ReceivedOneByte(c, request);
      if |request| <= MAX_COUNT { ThroughExactly(c, request); }
      var received := Through(c, request);
      if received == Srtp.None { return Srtp.None; }
      var keep, answer := server.HandleRequest(received.value, serverPort, true);
      AnswerOneByte(server.id, received.value, serverPort);
      AnswerNotEmpty(server.id, received.value, serverPort);
      ReceivedOneByte(c, answer);
      if |answer| <= MAX_COUNT { ThroughExactly(c, answer); }
      r := Through(c, answer);
    }

    /** OPTIONS, DESCRIBE, SETUP and PLAY.  The run succeeds if and only if none of the four requests and
        answers is longer than the channel allows.  Then the server plays and both sides know the same
        session; the server reads the four numbers that were printed if and only if the URL does not hold
        "CSeq:"; and transport and channel or port agree unless it holds "Transport:". */
    method PerformSignaling(server: ServerSession, serverPort: nat, c: Srtp.Cipher) returns (ok: bool)
      requires clientRtpPort < 0x1_0000 && HexName(server.id) && Srtp.SelfInverse(c)
      requires OneByte(baseUrl) && OneByte(sessionId)
      modifies this`cseq, this`sessionId, server
      ensures AllCarried(baseUrl, old(cseq), server.id, rtpTcp, clientRtpPort, serverPort, MAX_COUNT) ==>
        (ok <==> AllCarried(baseUrl, old(cseq), server.id, rtpTcp, clientRtpPort, serverPort, 65536))
      ensures AllCarried(baseUrl, old(cseq), server.id, rtpTcp, clientRtpPort, serverPort, 65536) ==>
        && ok && server.playing && sessionId == server.id && cseq == old(cseq) + 4
        && (server.read == old(server.read) + Printed(old(cseq)) <==> !Contains(baseUrl, "CSeq:"))
        && (!Contains(baseUrl, "Transport:") ==>
              && server.tcpTransport == rtpTcp
              && (if rtpTcp then server.rtpChannel == 0 else server.clientPort == clientRtpPort))
    {
      hide HexName, Request, After, Answer, CSeqOf, Transport, TransportLine;
      hide Succeeded, SessionOf, Contains, Print, Printed, OneByte, Sendable, Carried;
      FirstRequests(baseUrl, cseq, rtpTcp, clientRtpPort);
      OptionsExchange(server.Look(), server.id, baseUrl, cseq, serverPort);
      var response := SendRequest(server, serverPort, c, Request("OPTIONS", baseUrl, cseq, [], []));
      cseq := cseq + 1;
      if response == Srtp.None || !Succeeded(response.value) { return false; }
      DescribeExchange(server.Look(), server.id, baseUrl, cseq, serverPort);
      response := SendRequest(server, serverPort, c, Request("DESCRIBE", baseUrl, cseq, [], ACCEPT));
      cseq := cseq + 1;
      if response == Srtp.None || !Succeeded(response.value) { return false; }
      var transport := TransportLine(Transport(rtpTcp, clientRtpPort));
      TrackAddsNoName(baseUrl);
      SetupExchange(server.Look(), server.id, sessionId, baseUrl + TRACK, cseq, rtpTcp, clientRtpPort, serverPort);
      response := SendRequest(server, serverPort, c, Request("SETUP", baseUrl + TRACK, cseq, [], transport));
      cseq := cseq + 1;
      if response == Srtp.None || !Succeeded(response.value) { return false; }
      SessionOneByte(response.value, sessionId);
      sessionId := SessionOf(response.value, sessionId);
      HexNameNotEmpty(server.id);
      if sessionId == [] { return false; }
      LastRequest(baseUrl, cseq, sessionId);
      PlayExchange(server.Look(), sessionId, baseUrl, cseq, serverPort);
      response := SendRequest(server, serverPort, c, Request("PLAY", baseUrl, cseq, sessionId, RANGE));
      cseq := cseq + 1;
      ok := response.Some? && Succeeded(response.value);
      if AllCarried(baseUrl, old(cseq), server.id, rtpTcp, clientRtpPort, serverPort, 65536) {
        NumbersRead(old(server.read), old(cseq), baseUrl, server.id, transport, server.read);
      }
    }
  }

  /** The sequence numbers of one run. */
  function Printed(first: int): seq<int> { [first, first + 1, first + 2, first + 3] }

  /** The numbers read in one run are those printed exactly if the URL does not hold the header name: if
      it does, the first two requests are read with one and the same number. */
  lemma NumbersRead(before: seq<int>, first: int, url: string, id: string, transport: string, after: seq<int>)
    requires after == before + [CSeqOf(Request("OPTIONS", url, first, [], []))]
      + [CSeqOf(Request("DESCRIBE", url, first + 1, [], ACCEPT))]
      + [CSeqOf(Request("SETUP", url + TRACK, first + 2, [], transport))]
      + [CSeqOf(Request("PLAY", url, first + 3, id, RANGE))]
    ensures after == before + Printed(first) <==> !Contains(url, "CSeq:")
  {
    hide Request, CSeqOf, Contains, NumberIn;
    var n := |before|;
    if Contains(url, "CSeq:") {
      ClashIsRead("OPTIONS", url, first, [], []);
      ClashIsRead("DESCRIBE", url, first + 1, [], ACCEPT);
      assert after[n] == after[n + 1];
      assert (before + Printed(first))[n] != (before + Printed(first))[n + 1];
    } else {
      TrackAddsNoName(url);
      CSeqRead("OPTIONS", url, first, [], []);
      CSeqRead("DESCRIBE", url, first + 1, [], ACCEPT);
      CSeqRead("SETUP", url + TRACK, first + 2, [], transport);
      CSeqRead("PLAY", url, first + 3, id, RANGE);
      assert after == before + Printed(first);
    }
  }
}
