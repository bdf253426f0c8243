/** The two threads that write to one TCP session: the session thread answering requests,
    and the encoder thread sending packets.  A step model over all interleavings, with
    partial body writes.  Main results: for a history of requests, every interleaving leaves
    whole records on the connection, in each thread's order, if and only if no UDP set-up
    arrives while the session plays over TCP; and the answer to PLAY precedes every packet if
    and only if PLAY does not find a TCP session. */
module TcpWriters {
  import opened Bytes
  import ControlChannel
  import Srtp

  // ---- Records ---------------------------------------------------------------------------------

  /** A control message with its four-byte length, or an interleaved packet. */
  datatype Record = Control(body: bytes) | Media(channel: byte, packet: bytes)

  predicate Sized(r: Record) {
    match r
    case Control(body) => |body| < 0x2400_0000
    case Media(_, packet) => |packet| < 0x1_0000
  }

  function Head(r: Record): (h: bytes)
    requires Sized(r)
    ensures |h| == 4
  {
    match r
    case Control(body) => U32Bytes(|body|)
    case Media(channel, packet) => [0x24, channel] + U16Bytes(|packet|)
  }

  function Body(r: Record): bytes {
    match r
    case Control(body) => body
    case Media(_, packet) => packet
  }

  function RecordBytes(r: Record): bytes
    requires Sized(r)
  {
    Head(r) + Body(r)
  }

  /** A packet's record is the sender's frame. */
  lemma MediaIsFrame(channel: byte, packet: bytes)
    requires Sized(Media(channel, packet))
    ensures RecordBytes(Media(channel, packet)) == Srtp.Frame(channel, packet)
  {
  }

  /** A control record with an encrypted body is the framed message. */
  lemma ControlIsFramed(c: Srtp.Cipher, message: bytes)
    requires |c(message)| == |message| && Sized(Control(c(message)))
    ensures RecordBytes(Control(c(message))) == ControlChannel.Framed(c, message)
  {
  }

  function Stream(rs: seq<Record>): bytes
    requires forall r | r in rs :: Sized(r)
  {
    if rs == [] then [] else
    assert rs[0] in rs;
    RecordBytes(rs[0]) + Stream(rs[1..])
  }

  // ---- The two threads ---------------------------------------------------------------------------

  datatype Request = SetUp(tcp: bool) | Play | Other

  /** Where a thread is: doing nothing, waiting to write a record (with or without the lock), or in
      the middle of a record with `left` body bytes to go. */
  datatype Writer =
    | Idle
    | Waiting(record: Record, locked: bool)
    | Writing(record: Record, left: bytes, locked: bool)

  datatype Owner = Nobody | SessionThread | EncoderThread

  datatype State = State(
    tcpTransport: bool,
    playing: bool,
    session: Writer,
    encoder: Writer,
    owner: Owner,
    wire: bytes,
    records: seq<Record>,
    /** History: the requests, and the records that each thread has been given to write. */
    requests: seq<Request>,
    answers: seq<Record>,
    packets: seq<Record>)

  ghost predicate Init(s: State) {
    s == State(false, false, Idle, Idle, Nobody, [], [], [], [], [])
  }

  // ---- Histories of requests

  datatype Mode = Mode(tcp: bool, playing: bool)

  function ModeAfter(m: Mode, req: Request): Mode {
    Mode(if req.SetUp? then req.tcp else m.tcp, m.playing || req.Play?)
  }

  /** The settings that a history of requests leaves. */
  function ModeOf(h: seq<Request>): Mode {
    if h == [] then Mode(false, false) else ModeAfter(ModeOf(h[..|h| - 1]), h[|h| - 1])
  }

  /** A UDP set-up while the session plays over TCP. */
  predicate TurnsToUdp(m: Mode, req: Request) { m.tcp && m.playing && req == SetUp(false) }

  /** No request of the history is one. */
  predicate Harmless(h: seq<Request>) {
    h == [] || (Harmless(h[..|h| - 1]) && !TurnsToUdp(ModeOf(h[..|h| - 1]), h[|h| - 1]))
  }

  lemma HistoryAppend(h: seq<Request>, req: Request)
    ensures ModeOf(h + [req]) == ModeAfter(ModeOf(h), req)
    ensures Harmless(h + [req]) <==> Harmless(h) && !TurnsToUdp(ModeOf(h), req)
  {
    assert (h + [req])[..|h|] == h;
  }

  /** The last set-up of the history, if there is one, is for TCP. */
  ghost predicate OverTcp(h: seq<Request>) {
    exists j :: 0 <= j < |h| && h[j] == SetUp(true) && forall i :: j < i < |h| ==> !h[i].SetUp?
  }

  lemma OverTcpAppend(h: seq<Request>, req: Request)
    ensures OverTcp(h + [req]) <==> if req.SetUp? then req.tcp else OverTcp(h)
  {
    var more := h + [req];
    if OverTcp(more) {
      var j :| 0 <= j < |more| && more[j] == SetUp(true) && forall i :: j < i < |more| ==> !more[i].SetUp?;
      assert j < |h| ==> !more[|h|].SetUp? && h[j] == SetUp(true) && forall i :: j < i < |h| ==> h[i] == more[i];
    }
    if req == SetUp(true) { assert more[|h|] == SetUp(true); }
    if !req.SetUp? && OverTcp(h) {
      var j :| 0 <= j < |h| && h[j] == SetUp(true) && forall i :: j < i < |h| ==> !h[i].SetUp?;
      assert more[j] == SetUp(true);
    }
  }

  /** The session plays once there was a PLAY, over TCP if the last set-up was for TCP. */
  lemma {:induction false} ModeMeaning(h: seq<Request>)
    ensures ModeOf(h) == Mode(OverTcp(h), Play in h)
    decreases |h|
  {
    hide OverTcp;
    if h == [] {
      NoSetUp();
    } else {
      var k := |h| - 1;
      ModeMeaning(h[..k]);
      assert h == h[..k] + [h[k]];
      OverTcpAppend(h[..k], h[k]);
    }
  }

  lemma NoSetUp()
    ensures !OverTcp([])
  {}

  /** Request `k` is a UDP set-up behind a PLAY, and the last set-up before it was for TCP. */
  ghost predicate Disturbs(h: seq<Request>, k: nat)
    requires k < |h|
  {
    h[k] == SetUp(false) && Play in h[..k] && OverTcp(h[..k])
  }

  /** A history is harmless if and only if no request in it disturbs. */
  lemma {:induction false} HarmlessMeaning(h: seq<Request>)
    ensures Harmless(h) <==> forall k | 0 <= k < |h| :: !Disturbs(h, k)
    decreases |h|
  {
    hide OverTcp, ModeOf;
    if h != [] {
      var n := |h| - 1;
      var before := h[..n];
      HarmlessMeaning(before);
      ModeMeaning(before);
      assert Disturbs(h, n) <==> TurnsToUdp(ModeOf(before), h[n]);
      forall k | 0 <= k < n ensures Disturbs(h, k) <==> Disturbs(before, k) {
        assert before[..k] == h[..k];
      }
      hide Disturbs, TurnsToUdp;
      assert (forall k | 0 <= k < |h| :: !Disturbs(h, k))
        <==> !Disturbs(h, n) && forall k | 0 <= k < n :: !Disturbs(h, k);
    }
  }

  // ---- Steps of the session thread

  /** A request changes the session's settings, and then its answer is to be written: under the lock
      if the session is a TCP session by now. */
  ghost predicate TakeRequest(s: State, t: State, req: Request, answer: bytes) {
    && s.session.Idle? && Sized(Control(answer))
    && var tcp := if req.SetUp? then req.tcp else s.tcpTransport;
       t == s.(tcpTransport := tcp, playing := s.playing || req.Play?, session := Waiting(Control(answer), tcp),
                requests := s.requests + [req], answers := s.answers + [Control(answer)])
  }

  // ---- Steps of the encoder thread

  /** A playing session gets a packet: over UDP it never touches the connection. */
  ghost predicate TakePacket(s: State, t: State, channel: byte, packet: bytes) {
    && s.encoder.Idle? && s.playing && s.tcpTransport && Sized(Media(channel, packet))
    && t == s.(encoder := Waiting(Media(channel, packet), true), packets := s.packets + [Media(channel, packet)])
  }

  // ---- Steps of either thread while it writes

  function WriterOf(s: State, o: Owner): Writer
    requires !o.Nobody?
  {
    if o.SessionThread? then s.session else s.encoder
  }

  function WithWriter(s: State, o: Owner, w: Writer): State
    requires !o.Nobody?
  {
    if o.SessionThread? then s.(session := w) else s.(encoder := w)
  }

  /** Takes the lock if it needs it and sends the four header bytes. */
  ghost predicate Begin(s: State, t: State, o: Owner) {
    && !o.Nobody? && WriterOf(s, o).Waiting?
    && var w := WriterOf(s, o);
       && Sized(w.record) && (w.locked ==> s.owner.Nobody?)
       && t == WithWriter(s, o, Writing(w.record, Body(w.record), w.locked))
                 .(owner := if w.locked then o else s.owner, wire := s.wire + Head(w.record))
  }

  /** Sends some more body bytes, as many as the socket takes. */
  ghost predicate Continue(s: State, t: State, o: Owner, n: nat) {
    && !o.Nobody? && WriterOf(s, o).Writing?
    && var w := WriterOf(s, o);
       && 0 < n <= |w.left|
       && t == WithWriter(s, o, w.(left := w.left[n..])).(wire := s.wire + w.left[..n])
  }

  /** The record is complete; the lock is given back. */
  ghost predicate Finish(s: State, t: State, o: Owner) {
    && !o.Nobody? && WriterOf(s, o).Writing? && WriterOf(s, o).left == []
    && t == WithWriter(s, o, Idle).(owner := if WriterOf(s, o).locked then Nobody else s.owner,
                                    records := s.records + [WriterOf(s, o).record])
  }

  /** Any step of either thread. */
  ghost predicate Next(s: State, t: State) {
    || (exists req, answer :: TakeRequest(s, t, req, answer))
    || (exists channel, packet :: TakePacket(s, t, channel, packet))
    || (exists o :: Begin(s, t, o) || Finish(s, t, o))
    || (exists o, n :: Continue(s, t, o, n))
  }

  // ---- Invariant ---------------------------------------------------------------------------------

  /** The bytes of a record of which `left` is still to be written. */
  predicate Partial(part: bytes, w: Writer)
    requires w.Writing? && Sized(w.record)
  {
    part + w.left == RecordBytes(w.record)
  }

  /** The control records, or the media records, of a list. */
  function Only(control: bool, rs: seq<Record>): seq<Record> {
    if rs == [] then []
    else Only(control, rs[..|rs| - 1]) + (if rs[|rs| - 1].Control? == control then [rs[|rs| - 1]] else [])
  }

  function Owed(w: Writer): seq<Record> {
    if w.Idle? then [] else [w.record]
  }

  ghost predicate Inv(s: State) {
    // nothing that a thread has been given is lost, repeated or reordered
    && Only(true, s.records) + Owed(s.session) == s.answers
    && Only(false, s.records) + Owed(s.encoder) == s.packets
    && (forall r | r in s.records :: Sized(r))
    && (!s.session.Idle? ==> Sized(s.session.record) && s.session.record.Control?)
    && (!s.encoder.Idle? ==> Sized(s.encoder.record) && s.encoder.record.Media? && s.encoder.locked)
    // a packet is only under way while the session plays over TCP
    && (!s.encoder.Idle? ==> s.tcpTransport && s.playing)
    && Mode(s.tcpTransport, s.playing) == ModeOf(s.requests)
    // an unlocked answer is only pending while the session is not a TCP session
    && (!s.session.Idle? && s.tcpTransport ==> s.session.locked)
    // the lock is held exactly by the thread that is writing under it
    && (s.owner.SessionThread? <==> s.session.Writing? && s.session.locked)
    && (s.owner.EncoderThread? <==> s.encoder.Writing?)
    // everything on the connection is complete records and the written part of at most one more
    && (if s.session.Writing? then
          exists part :: s.wire == Stream(s.records) + part && Partial(part, s.session)
        else if s.encoder.Writing? then
          exists part :: s.wire == Stream(s.records) + part && Partial(part, s.encoder)
        else s.wire == Stream(s.records))
  }

  lemma {:induction false} StreamAppend(rs: seq<Record>, r: Record)
    requires Sized(r) && forall q | q in rs :: Sized(q)
    ensures (forall q | q in rs + [r] :: Sized(q)) && Stream(rs + [r]) == Stream(rs) + RecordBytes(r)
  {
    hide RecordBytes, Sized;
    if rs == [] {
      assert ([] + [r])[1..] == [];
      assert Stream([r]) == RecordBytes(r) + [];
    } else {
      assert (rs + [r])[1..] == rs[1..] + [r];
      assert rs[0] in rs && forall q | q in rs[1..] :: q in rs;
      StreamAppend(rs[1..], r);
      assert RecordBytes(rs[0]) + (Stream(rs[1..]) + RecordBytes(r))
          == RecordBytes(rs[0]) + Stream(rs[1..]) + RecordBytes(r);
    }
  }

  lemma RequestKeepsInv(s: State, t: State, req: Request, answer: bytes)
    requires Inv(s) && TakeRequest(s, t, req, answer) && Harmless(t.requests)
    ensures Inv(t)
  {
    hide Stream, RecordBytes, Only, Sized, ModeOf, Harmless;
    HistoryAppend(s.requests, req);
  }

  lemma PacketKeepsInv(s: State, t: State, channel: byte, packet: bytes)
    requires Inv(s) && TakePacket(s, t, channel, packet)
    ensures Inv(t)
  {
    hide Stream, RecordBytes, Only, Sized, ModeOf;
  }

  lemma HeadIsPartial(r: Record, locked: bool)
    requires Sized(r)
    ensures Partial(Head(r), Writing(r, Body(r), locked))
  {
  }

  lemma BeginKeepsInv(s: State, t: State, o: Owner)
    requires Inv(s) && Begin(s, t, o)
    ensures Inv(t)
  {
    var w := WriterOf(s, o);
    HeadIsPartial(w.record, w.locked);
    hide Stream, RecordBytes, Only, Sized, ModeOf, Partial;
  }

  lemma PartMore(before: bytes, part: bytes, w: Writer, n: nat)
    requires w.Writing? && n <= |w.left| && Sized(w.record) && Partial(part, w)
    ensures Partial(part + w.left[..n], w.(left := w.left[n..]))
    ensures before + part + w.left[..n] == before + (part + w.left[..n])
  {
    assert w.left == w.left[..n] + w.left[n..];
  }

  lemma ContinueKeepsInv(s: State, t: State, o: Owner, n: nat)
    requires Inv(s) && Continue(s, t, o, n)
    ensures Inv(t)
  {
    hide Stream, RecordBytes, Only, Sized, ModeOf, Partial;
    var w := WriterOf(s, o);
    var part :| s.wire == Stream(s.records) + part && Partial(part, w);
    PartMore(Stream(s.records), part, w, n);
  }

  lemma OnlyAppend(control: bool, rs: seq<Record>, r: Record)
    ensures Only(control, rs + [r]) == Only(control, rs) + (if r.Control? == control then [r] else [])
  {
    assert (rs + [r])[..|rs|] == rs;
  }

  lemma WholePart(part: bytes, w: Writer)
    requires w.Writing? && w.left == [] && Sized(w.record) && Partial(part, w)
    ensures part == RecordBytes(w.record)
  {
    assert part + [] == part;
  }

  lemma FinishKeepsInv(s: State, t: State, o: Owner)
    requires Inv(s) && Finish(s, t, o)
    ensures Inv(t)
  {
    hide Stream, RecordBytes, Only, Sized, ModeOf;
    var w := WriterOf(s, o);
    var part :| s.wire == Stream(s.records) + part && Partial(part, w);
    WholePart(part, w);
    hide Partial;
    StreamAppend(s.records, w.record);
    OnlyAppend(true, s.records, w.record);
    OnlyAppend(false, s.records, w.record);
  }

  /** Every step that leaves a harmless history keeps the invariant. */
  lemma NextKeepsInv(s: State, t: State)
    requires Inv(s) && Next(s, t) && Harmless(t.requests)
    ensures Inv(t)
  {
    hide Inv, Begin, Continue, Finish, TakeRequest, TakePacket, Harmless;
    if exists o :: Begin(s, t, o) {
      var o :| Begin(s, t, o);
      BeginKeepsInv(s, t, o);
    } else if exists o :: Finish(s, t, o) {
      var o :| Finish(s, t, o);
      FinishKeepsInv(s, t, o);
    } else if exists o, n :: Continue(s, t, o, n) {
      var o, n :| Continue(s, t, o, n);
      ContinueKeepsInv(s, t, o, n);
    } else if exists req, answer :: TakeRequest(s, t, req, answer) {
      var req, answer :| TakeRequest(s, t, req, answer);
      RequestKeepsInv(s, t, req, answer);
    } else {
      var channel, packet :| TakePacket(s, t, channel, packet);
      PacketKeepsInv(s, t, channel, packet);
    }
  }

  /** No step takes a request back. */
  lemma HistoryGrows(s: State, t: State)
    requires Next(s, t) && Harmless(t.requests)
    ensures Harmless(s.requests)
  {
    if exists req, answer :: TakeRequest(s, t, req, answer) {
      var req, answer :| TakeRequest(s, t, req, answer);
      HistoryAppend(s.requests, req);
    }
  }

  // ---- Runs ----------------------------------------------------------------------------------------

  ghost predicate Steps(run: seq<State>) {
    run != [] && forall i | 0 <= i < |run| - 1 :: Next(run[i], run[i + 1])
  }

  ghost predicate Run(run: seq<State>) {
    Steps(run) && Init(run[0])
  }

  lemma {:induction false} RunKeepsInv(run: seq<State>, k: nat)
    requires Run(run) && k < |run| && Harmless(run[k].requests)
    ensures Inv(run[k])
  {
    hide Harmless, Next;
    if k > 0 {
      assert Next(run[k - 1], run[k - 1 + 1]);
      HistoryGrows(run[k - 1], run[k]);
      RunKeepsInv(run, k - 1);
      NextKeepsInv(run[k - 1], run[k]);
    } else {
      InitialInv(run[0]);
    }
  }

  lemma InitialInv(s: State)
    requires Init(s)
    ensures Inv(s)
  {
  }

  // ---- Reading the connection -----------------------------------------------------------------------

  /** The whole records at the start of a byte stream: `$` begins a packet, anything else a length. */
  function Parse(stream: bytes): seq<Record>
    decreases |stream|
  {
    if |stream| < 4 then []
    else
      var media := stream[0] == 0x24;
      var n := if media then U16(stream[2], stream[3]) else U32(stream[..4]);
      if |stream| < 4 + n then []
      else
        var body := stream[4..4 + n];
        [if media then Media(stream[1], body) else Control(body)] + Parse(stream[4 + n..])
  }

  /** `$` never begins the length of a control message. */
  lemma HeadTellsKind(r: Record)
    requires Sized(r)
    ensures Head(r)[0] == 0x24 <==> r.Media?
  {}

  lemma ParseFirst(r: Record, rest: bytes)
    requires Sized(r)
    ensures Parse(RecordBytes(r) + rest) == [r] + Parse(rest)
  {
    var stream := RecordBytes(r) + rest;
    var n := |Body(r)|;
    assert stream[..4] == Head(r) && stream[4..4 + n] == Body(r) && stream[4 + n..] == rest;
    assert forall i | 0 <= i < 4 :: stream[i] == Head(r)[i];
    HeadTellsKind(r);
    match r
    case Control(body) => U32RoundTrip(n);
    case Media(_, _) => U16RoundTrip(n);
  }

  /** A concatenation of records is separated in exactly one way. */
  lemma {:induction false} ParseStream(rs: seq<Record>, rest: bytes)
    requires forall r | r in rs :: Sized(r)
    ensures Parse(Stream(rs) + rest) == rs + Parse(rest)
  {
    hide Parse, RecordBytes;
    if rs == [] {
      assert [] + rest == rest;
      assert Stream(rs) + rest == rest;
    } else {
      assert rs[0] in rs && forall r | r in rs[1..] :: r in rs;
      ParseStream(rs[1..], rest);
      ParseFirst(rs[0], Stream(rs[1..]) + rest);
      assert Stream(rs) + rest == RecordBytes(rs[0]) + (Stream(rs[1..]) + rest);
    }
  }

  /** The bytes on the connection are whole records, and each thread's records are among them in the
      order in which they were given to it. */
  ghost predicate Separates(s: State, rs: seq<Record>) {
    && (forall r | r in rs :: Sized(r))
    && Stream(rs) == s.wire && Only(true, rs) == s.answers && Only(false, rs) == s.packets
  }

  ghost predicate Whole(s: State) { exists rs :: Separates(s, rs) }

  predicate Quiet(s: State) { s.session.Idle? && s.encoder.Idle? }

  /** At any time of a run with a harmless history: the connection starts with the complete records, each
      thread's records are complete in their order, and when both threads are quiet a reader separates
      exactly these. */
  lemma WholeRecords(run: seq<State>, k: nat)
    requires Run(run) && k < |run| && Harmless(run[k].requests)
    ensures var s := run[k];
            && (forall r | r in s.records :: Sized(r))
            && Stream(s.records) <= s.wire
            && Only(true, s.records) <= s.answers && Only(false, s.records) <= s.packets
            && (Quiet(s) ==> Parse(s.wire) == s.records && Separates(s, s.records))
  {
    hide Parse, Only, Stream, Harmless, ModeOf;
    RunKeepsInv(run, k);
    var s := run[k];
    if Quiet(s) {
      ParseStream(s.records, []);
      NothingToParse();
      assert Stream(s.records) + [] == s.wire;
      assert Only(true, s.records) + [] == Only(true, s.records);
      assert Only(false, s.records) + [] == Only(false, s.records);
    }
  }

  lemma NothingToParse()
    ensures Parse([]) == []
  {}

  // ---- Histories with a UDP set-up while playing over TCP -------------------------------------------

  lemma JoinSteps(a: seq<State>, b: seq<State>)
    requires Steps(a) && Steps(b) && a[|a| - 1] == b[0]
    ensures Steps(a + b[1..]) && (a + b[1..])[|a + b[1..]| - 1] == b[|b| - 1] && (a + b[1..])[0] == a[0]
  {
    hide Next;
    var run := a + b[1..];
    forall i | 0 <= i < |run| - 1 ensures Next(run[i], run[i + 1]) {
      if i >= |a| - 1 { assert run[i] == b[i - (|a| - 1)] && run[i + 1] == b[i - (|a| - 1) + 1]; }
    }
  }

  /** The session thread writes its answer without interruption. */
  lemma WriteAnswer(s: State, body: bytes, locked: bool) returns (run: seq<State>)
    requires s.session == Waiting(Control(body), locked) && body != [] && Sized(Control(body))
    requires locked ==> s.owner.Nobody?
    ensures Steps(run) && run[0] == s
    ensures run[|run| - 1]
         == s.(session := Idle, wire := s.wire + RecordBytes(Control(body)), records := s.records + [Control(body)])
  {
    var r := Control(body);
    var t := s.(session := Writing(r, body, locked), owner := if locked then SessionThread else s.owner,
                wire := s.wire + Head(r));
    assert Begin(s, t, SessionThread);
    var u := t.(session := Writing(r, body[|body|..], locked), wire := t.wire + body[..|body|]);
    assert Continue(t, u, SessionThread, |body|);
    var v := u.(session := Idle, owner := if locked then Nobody else s.owner, records := s.records + [r]);
    assert Finish(u, v, SessionThread);
    assert s.wire + Head(r) + body[..|body|] == s.wire + RecordBytes(r);
    run := [s, t, u, v];
  }

  /** The session thread takes a request. */
  function Taken(s: State, req: Request, body: bytes): State {
    var tcp := if req.SetUp? then req.tcp else s.tcpTransport;
    s.(tcpTransport := tcp, playing := s.playing || req.Play?, session := Waiting(Control(body), tcp),
       requests := s.requests + [req], answers := s.answers + [Control(body)])
  }

  lemma TakenNext(s: State, req: Request, body: bytes)
    requires s.session.Idle? && Sized(Control(body))
    ensures Steps([s, Taken(s, req, body)])
  {
    assert TakeRequest(s, Taken(s, req, body), req, body);
  }

  /** Answers as the code writes them: not empty, and far shorter than this bound. */
  predicate AnswerForm(body: bytes) { 0 < |body| < 0x100_0000 }

  /** The session thread takes a request and answers it without interruption. */
  lemma Answer(s: State, req: Request, body: bytes) returns (run: seq<State>)
    requires s.session.Idle? && AnswerForm(body)
    requires (if req.SetUp? then req.tcp else s.tcpTransport) ==> s.owner.Nobody?
    ensures Sized(Control(body)) && Steps(run) && run[0] == s
    ensures run[|run| - 1]
         == Taken(s, req, body).(session := Idle, wire := s.wire + RecordBytes(Control(body)),
                                 records := s.records + [Control(body)])
  {
    hide Next, RecordBytes;
    TakenNext(s, req, body);
    run := [s, Taken(s, req, body)];
    var written := WriteAnswer(run[1], body, run[1].session.locked);
    JoinSteps(run, written);
    run := run + written[1..];
  }

  lemma StepsOfThree(s: State, t: State, u: State)
    requires Next(s, t) && Next(t, u)
    ensures Steps([s, t, u])
  {}

  function Answers(bodies: seq<bytes>): seq<Record> {
    seq(|bodies|, i requires 0 <= i < |bodies| => Control(bodies[i]))
  }

  lemma AnswersAppend(bodies: seq<bytes>)
    requires bodies != []
    ensures Answers(bodies) == Answers(bodies[..|bodies| - 1]) + [Control(bodies[|bodies| - 1])]
  {}

  /** A history served without a single packet. */
  lemma {:induction false} QuietRun(h: seq<Request>, bodies: seq<bytes>) returns (run: seq<State>)
    requires |bodies| == |h| && forall b | b in bodies :: AnswerForm(b)
    ensures Run(run)
    ensures var s := run[|run| - 1];
            && Quiet(s) && s.owner.Nobody? && s.requests == h && Mode(s.tcpTransport, s.playing) == ModeOf(h)
            && s.packets == [] && s.answers == s.records == Answers(bodies)
            && (forall r | r in s.records :: Sized(r)) && s.wire == Stream(s.records)
  {
    hide Next, Sized, RecordBytes, AnswerForm, Stream;
    if h == [] {
      StartOfAll();
      run := [State(false, false, Idle, Idle, Nobody, [], [], [], [], [])];
    } else {
      var k := |h| - 1;
      var before, req, body := h[..k], h[k], bodies[k];
      assert body in bodies && forall b | b in bodies[..k] :: b in bodies;
      run := QuietRun(before, bodies[..k]);
      var s := run[|run| - 1];
      var last := Answer(s, req, body);
      JoinSteps(run, last);
      run := run + last[1..];
      StreamAppend(s.records, Control(body));
      AnswersAppend(bodies);
      assert before + [req] == h;
    }
  }

  lemma StartOfAll()
    ensures Stream([]) == []
  {}

  // ---- A packet with an answer between its header and its body

  /** Packets that the sender can write: not empty, and beginning with a byte that no answer's length has. */
  predicate Recognisable(packet: bytes) { 0 < |packet| < 0x1_0000 && packet[0] != 0 }

  /** What a reader takes for the packet begins with the length of the answer. */
  ghost predicate Interrupted(s: State, rs: seq<Record>, misread: Record, rest: bytes) {
    && (forall r | r in rs :: Sized(r))
    && misread.Media? && Sized(misread) && misread.packet != [] && misread.packet[0] == 0
    && s.wire == Stream(rs) + (RecordBytes(misread) + rest)
  }

  ghost predicate Broken(s: State) {
    && (forall r | r in s.packets :: r.Media? && Recognisable(r.packet))
    && exists rs, misread, rest :: Interrupted(s, rs, misread, rest)
  }

  lemma {:induction false} OnlyMember(control: bool, rs: seq<Record>, r: Record)
    requires r in rs && r.Control? == control
    ensures r in Only(control, rs)
  {
    if r != rs[|rs| - 1] { OnlyMember(control, rs[..|rs| - 1], r); }
  }

  /** Then the bytes are not whole records of the two threads, in whatever way they are cut. */
  lemma BrokenIsNotWhole(s: State)
    requires Broken(s)
    ensures !Whole(s)
  {
    hide Parse, RecordBytes, Only, Stream;
    var rs, misread, rest :| Interrupted(s, rs, misread, rest);
    ParseStream(rs, RecordBytes(misread) + rest);
    ParseFirst(misread, rest);
    forall cut ensures !Separates(s, cut) {
      if Separates(s, cut) {
        ParseStream(cut, []);
        NothingToParse();
        assert Stream(cut) + [] == s.wire;
        assert cut + [] == cut == rs + ([misread] + Parse(rest));
        assert cut[|rs|] == misread;
        OnlyMember(false, cut, misread);
      }
    }
  }

  lemma BrokenStays(s: State, t: State, more: bytes)
    requires Broken(s) && t.wire == s.wire + more && t.packets == s.packets
    ensures Broken(t)
  {
    hide Stream, RecordBytes, Sized;
    var rs, misread, rest :| Interrupted(s, rs, misread, rest);
    assert t.wire == Stream(rs) + (RecordBytes(misread) + (rest + more));
    assert Interrupted(t, rs, misread, rest + more);
  }

  lemma LengthBeginsWithZero(body: bytes)
    requires AnswerForm(body)
    ensures Sized(Control(body)) && RecordBytes(Control(body)) != [] && RecordBytes(Control(body))[0] == 0
  {}

  lemma TakeAndRest(s: bytes, n: nat)
    requires n <= |s|
    ensures s == s[..n] + s[n..]
  {}

  /** Behind the header of a packet of `n` bytes, the reader takes the first `n` bytes that come. */
  lemma Misread(channel: byte, n: nat, behind: bytes)
    requires n <= |behind| && n < 0x1_0000
    ensures var misread := Media(channel, behind[..n]);
      Sized(misread) && RecordBytes(misread) + behind[n..] == Head(misread) + behind
  {
    TakeAndRest(behind, n);
  }

  lemma SameHead(channel: byte, a: bytes, b: bytes)
    requires |a| == |b| < 0x1_0000
    ensures Head(Media(channel, a)) == Head(Media(channel, b))
  {}

  /** The bytes of a packet interrupted by an answer. */
  lemma InterruptedBytes(before: bytes, channel: byte, packet: bytes, body: bytes)
      returns (misread: Record, rest: bytes)
    requires Recognisable(packet) && AnswerForm(body)
    ensures Sized(Media(channel, packet)) && Sized(Control(body))
    ensures misread.Media? && Sized(misread) && misread.packet != [] && misread.packet[0] == 0
    ensures before + Head(Media(channel, packet)) + RecordBytes(Control(body)) + packet
         == before + (RecordBytes(misread) + rest)
  {
    hide RecordBytes, Head;
    LengthBeginsWithZero(body);
    var n, behind := |packet|, RecordBytes(Control(body)) + packet;
    misread, rest := Media(channel, behind[..n]), behind[n..];
    Misread(channel, n, behind);
    SameHead(channel, packet, behind[..n]);
    Regroup(before, Head(misread), RecordBytes(Control(body)), packet);
  }

  lemma Regroup(a: bytes, b: bytes, c: bytes, d: bytes)
    ensures a + b + c + d == a + (b + (c + d))
  {}

  /** The encoder thread begins a packet and is interrupted after the header. */
  lemma PacketBegun(s: State, channel: byte, packet: bytes) returns (run: seq<State>)
    requires s.encoder.Idle? && s.owner.Nobody? && s.tcpTransport && s.playing && Sized(Media(channel, packet))
    ensures Steps(run) && run[0] == s
    ensures var m := Media(channel, packet);
      run[|run| - 1] == s.(encoder := Writing(m, packet, true), owner := EncoderThread, wire := s.wire + Head(m),
                           packets := s.packets + [m])
  {
    var m := Media(channel, packet);
    var t := s.(encoder := Waiting(m, true), packets := s.packets + [m]);
    assert TakePacket(s, t, channel, packet);
    var u := t.(encoder := Writing(m, packet, true), owner := EncoderThread, wire := s.wire + Head(m));
    assert Begin(t, u, EncoderThread);
    StepsOfThree(s, t, u);
    run := [s, t, u];
  }

  lemma PacketEnded(s: State, channel: byte, packet: bytes) returns (run: seq<State>)
    requires s.encoder == Writing(Media(channel, packet), packet, true) && packet != []
    ensures Steps(run) && run[0] == s
    ensures var m := Media(channel, packet);
      run[|run| - 1] == s.(encoder := Idle, owner := Nobody, wire := s.wire + packet, records := s.records + [m])
  {
    var n := |packet|;
    var t := s.(encoder := Writing(Media(channel, packet), packet[n..], true), wire := s.wire + packet[..n]);
    assert Continue(s, t, EncoderThread, n);
    assert packet[..n] == packet;
    var u := t.(encoder := Idle, owner := Nobody, records := s.records + [Media(channel, packet)]);
    assert Finish(t, u, EncoderThread);
    StepsOfThree(s, t, u);
    run := [s, t, u];
  }

  /** From a session that plays over TCP: a UDP set-up is answered without the lock, inside a packet. */
  lemma InterruptPacket(s: State, channel: byte, packet: bytes, body: bytes) returns (run: seq<State>)
    requires Quiet(s) && s.owner.Nobody? && s.tcpTransport && s.playing
    requires s.packets == [] && (forall r | r in s.records :: Sized(r)) && s.wire == Stream(s.records)
    requires Recognisable(packet) && AnswerForm(body)
    ensures Steps(run) && run[0] == s
    ensures var t := run[|run| - 1];
      && Quiet(t) && t.owner.Nobody? && t.requests == s.requests + [SetUp(false)]
      && t.answers == s.answers + [Control(body)] && t.packets == [Media(channel, packet)] && Broken(t)
  {
    hide Next, RecordBytes, Stream, Head;
    var misread, rest := InterruptedBytes(s.wire, channel, packet, body);
    run := PacketBegun(s, channel, packet);
    var answered := Answer(run[|run| - 1], SetUp(false), body);
    JoinSteps(run, answered);
    run := run + answered[1..];
    var ended := PacketEnded(run[|run| - 1], channel, packet);
    JoinSteps(run, ended);
    run := run + ended[1..];
    assert Interrupted(run[|run| - 1], s.records, misread, rest);
  }

  /** Every history with such a set-up has a run that ends quietly with the connection broken, whatever
      answers the session thread writes and whatever packet the encoder thread writes. */
  lemma {:induction false} BreakingRun(h: seq<Request>, bodies: seq<bytes>, channel: byte, packet: bytes)
      returns (run: seq<State>)
    requires !Harmless(h) && |bodies| == |h| && (forall b | b in bodies :: AnswerForm(b)) && Recognisable(packet)
    ensures Run(run)
    ensures var s := run[|run| - 1];
      && Quiet(s) && s.owner.Nobody? && s.requests == h && s.answers == Answers(bodies)
      && s.packets == [Media(channel, packet)] && Broken(s)
  {
    hide Next, RecordBytes, Stream, ModeOf, Broken, AnswerForm;
    var k := |h| - 1;
    var before, req, body := h[..k], h[k], bodies[k];
    assert before + [req] == h;
    assert body in bodies && forall b | b in bodies[..k] :: b in bodies;
    AnswersAppend(bodies);
    var last;
    if Harmless(before) {
      run := QuietRun(before, bodies[..k]);
      last := InterruptPacket(run[|run| - 1], channel, packet, body);
    } else {
      run := BreakingRun(before, bodies[..k], channel, packet);
      last := Answer(run[|run| - 1], req, body);
      BrokenStays(run[|run| - 1], last[|last| - 1], RecordBytes(Control(body)));
    }
    JoinSteps(run, last);
    run := run + last[1..];
  }

  // ---- The exact condition ----------------------------------------------------------------------------------

  /** Packets as the sender builds them: at least 23 bytes, of which the first is 0x80. */
  predicate PacketForm(packet: bytes) { 23 <= |packet| < 0x1_0000 && packet[0] == 0x80 }

  lemma ProtectedForm(hmac: Srtp.Hmac, k: Srtp.MediaKeys, header: bytes, payload: bytes)
    requires Srtp.SelfInverse(k.cipher) && |header| == 12 && header[0] == 0x80 && 0 < |payload| <= 1402
    ensures PacketForm(Srtp.Protect(hmac, k, header, payload))
  {}

  /** A run that has served the history with these answers and with packets of this form, and is over. */
  ghost predicate Serves(run: seq<State>, h: seq<Request>, bodies: seq<bytes>) {
    && Run(run) && Quiet(run[|run| - 1])
    && run[|run| - 1].requests == h && run[|run| - 1].answers == Answers(bodies)
    && forall r | r in run[|run| - 1].packets :: r.Media? && PacketForm(r.packet)
  }

  ghost predicate EndsWhole(run: seq<State>) { run != [] && Whole(run[|run| - 1]) }

  /** For every history and whatever is answered: all interleavings with all packets leave whole records
      if and only if no UDP set-up arrives while the session plays over TCP. */
  lemma WholeExactly(h: seq<Request>, bodies: seq<bytes>)
    requires |bodies| == |h| && forall b | b in bodies :: AnswerForm(b)
    ensures Harmless(h) <==> forall run :: Serves(run, h, bodies) ==> EndsWhole(run)
  {
    hide Next, Harmless, Parse, Stream, Only, AnswerForm, Broken;
    if Harmless(h) {
      forall run | Serves(run, h, bodies) ensures EndsWhole(run) {
        WholeRecords(run, |run| - 1);
      }
    } else {
      var packet: bytes := [0x80] + seq(22, _ => 0);
      var run := BreakingRun(h, bodies, 0, packet);
      BrokenIsNotWhole(run[|run| - 1]);
      assert Serves(run, h, bodies) && !EndsWhole(run);
    }
  }

  // ---- The answer to PLAY and the first packet --------------------------------------------------------------

  /** How many requests there are up to the first PLAY. */
  function UpToPlay(h: seq<Request>): nat {
    if h == [] then 0
    else if ModeOf(h[..|h| - 1]).playing then UpToPlay(h[..|h| - 1])
    else |h|
  }

  /** The session is not yet a TCP session when the first PLAY arrives. */
  predicate PlayBeforeTcp(h: seq<Request>) {
    h == []
    || (PlayBeforeTcp(h[..|h| - 1])
        && !(h[|h| - 1].Play? && !ModeOf(h[..|h| - 1]).playing && ModeOf(h[..|h| - 1]).tcp))
  }

  /** The first PLAY is the last of the counted requests, and does not find the session set up for TCP. */
  lemma {:induction false} PlayMeaning(h: seq<Request>)
    ensures Play !in h ==> PlayBeforeTcp(h)
    ensures Play in h ==>
      var n := UpToPlay(h);
      0 < n <= |h| && h[n - 1] == Play && Play !in h[..n - 1] && (PlayBeforeTcp(h) <==> !OverTcp(h[..n - 1]))
    decreases |h|
  {
    hide OverTcp, ModeOf;
    if h != [] {
      var k := |h| - 1;
      var before := h[..k];
      PlayMeaning(before);
      ModeMeaning(before);
      assert h == before + [h[k]];
      if Play in before {
        var n := UpToPlay(before);
        assert before[..n - 1] == h[..n - 1];
      }
    }
  }

  lemma PlayAppend(h: seq<Request>, req: Request)
    ensures UpToPlay(h + [req]) == if ModeOf(h).playing then UpToPlay(h) else |h| + 1
    ensures PlayBeforeTcp(h + [req])
       <==> PlayBeforeTcp(h) && !(req.Play? && !ModeOf(h).playing && ModeOf(h).tcp)
  {
    assert (h + [req])[..|h|] == h;
  }

  /** At least `n` answers stand before every packet. */
  predicate AnswersFirst(rs: seq<Record>, n: nat) {
    forall j | 0 <= j < |rs| && rs[j].Media? :: |Only(true, rs[..j])| >= n
  }

  lemma AnswersFirstAppend(rs: seq<Record>, r: Record, n: nat)
    ensures AnswersFirst(rs + [r], n) <==> AnswersFirst(rs, n) && (r.Media? ==> |Only(true, rs)| >= n)
  {
    hide Only;
    var more := rs + [r];
    assert more[..|rs|] == rs;
    assert forall j | 0 <= j < |rs| :: more[..j] == rs[..j] && more[j] == rs[j];
    if AnswersFirst(more, n) {
      assert r.Media? ==> more[|rs|].Media?;
      forall j | 0 <= j < |rs| && rs[j].Media? ensures |Only(true, rs[..j])| >= n {
        assert more[j].Media?;
      }
    }
  }

  lemma NothingYet(n: nat)
    ensures AnswersFirst([], n)
  {}

  /** What holds of every run, harmless or not, in which PLAY finds no TCP session: a thread that has a
      packet has it after the answer to PLAY is complete. */
  ghost predicate Ordered(s: State) {
    && Mode(s.tcpTransport, s.playing) == ModeOf(s.requests)
    && |Only(true, s.records)| + |Owed(s.session)| == |s.requests|
    && (!s.session.Idle? ==> s.session.record.Control?)
    && (!s.encoder.Idle? ==> s.encoder.record.Media? && s.playing)
    && (!s.playing ==> forall r | r in s.records :: r.Control?)
    && (s.playing ==> AnswersFirst(s.records, UpToPlay(s.requests)))
    && (!s.encoder.Idle? ==> |Only(true, s.records)| >= UpToPlay(s.requests))
    && (s.playing && |Only(true, s.records)| < UpToPlay(s.requests) ==> !s.tcpTransport)
    && UpToPlay(s.requests) <= |s.requests|
  }

  lemma {:induction false} NoPacketYet(rs: seq<Record>, n: nat)
    requires forall r | r in rs :: r.Control?
    ensures AnswersFirst(rs, n)
  {
    hide Only;
    forall j | 0 <= j < |rs| ensures rs[j].Control? { assert rs[j] in rs; }
  }

  lemma RequestKeepsOrder(s: State, t: State, req: Request, answer: bytes)
    requires Ordered(s) && TakeRequest(s, t, req, answer) && PlayBeforeTcp(t.requests)
    ensures Ordered(t)
  {
    HistoryAppend(s.requests, req);
    PlayAppend(s.requests, req);
    if !s.playing { NoPacketYet(s.records, UpToPlay(t.requests)); }
    hide Only, ModeOf, UpToPlay, PlayBeforeTcp, AnswersFirst, Sized;
  }

  lemma FinishKeepsOrder(s: State, t: State, o: Owner)
    requires Ordered(s) && Finish(s, t, o)
    ensures Ordered(t)
  {
    var r := WriterOf(s, o).record;
    OnlyAppend(true, s.records, r);
    AnswersFirstAppend(s.records, r, UpToPlay(s.requests));
    hide Only, ModeOf, UpToPlay, AnswersFirst, Sized;
  }

  lemma OtherStepsKeepOrder(s: State, t: State, o: Owner, n: nat, channel: byte, packet: bytes)
    requires Ordered(s) && (Begin(s, t, o) || Continue(s, t, o, n) || TakePacket(s, t, channel, packet))
    ensures Ordered(t)
  {
    hide Only, ModeOf, UpToPlay, AnswersFirst, Sized, Head, Body;
  }

  lemma NextKeepsOrder(s: State, t: State)
    requires Ordered(s) && Next(s, t) && PlayBeforeTcp(t.requests)
    ensures Ordered(t)
  {
    hide Ordered, Begin, Continue, Finish, TakeRequest, TakePacket, PlayBeforeTcp;
    if exists o :: Begin(s, t, o) {
      var o :| Begin(s, t, o);
      OtherStepsKeepOrder(s, t, o, 0, 0, []);
    } else if exists o :: Finish(s, t, o) {
      var o :| Finish(s, t, o);
      FinishKeepsOrder(s, t, o);
    } else if exists o, n :: Continue(s, t, o, n) {
      var o, n :| Continue(s, t, o, n);
      OtherStepsKeepOrder(s, t, o, n, 0, []);
    } else if exists req, answer :: TakeRequest(s, t, req, answer) {
      var req, answer :| TakeRequest(s, t, req, answer);
      RequestKeepsOrder(s, t, req, answer);
    } else {
      var channel, packet :| TakePacket(s, t, channel, packet);
      OtherStepsKeepOrder(s, t, Nobody, 0, channel, packet);
    }
  }

  lemma PlayHistoryGrows(s: State, t: State)
    requires Next(s, t) && PlayBeforeTcp(t.requests)
    ensures PlayBeforeTcp(s.requests)
  {
    if exists req, answer :: TakeRequest(s, t, req, answer) {
      var req, answer :| TakeRequest(s, t, req, answer);
      PlayAppend(s.requests, req);
    }
  }

  lemma InitialOrder(s: State)
    requires Init(s)
    ensures Ordered(s)
  {
    NothingYet(0);
  }

  lemma {:induction false} RunKeepsOrder(run: seq<State>, k: nat)
    requires Run(run) && k < |run| && PlayBeforeTcp(run[k].requests)
    ensures Ordered(run[k])
  {
    hide PlayBeforeTcp, Next, Ordered;
    if k > 0 {
      assert Next(run[k - 1], run[k - 1 + 1]);
      PlayHistoryGrows(run[k - 1], run[k]);
      RunKeepsOrder(run, k - 1);
      NextKeepsOrder(run[k - 1], run[k]);
    } else {
      InitialOrder(run[0]);
    }
  }

  /** A PLAY that finds a TCP session: a whole packet is written before its answer. */
  lemma PacketFirst(s: State, channel: byte, packet: bytes, body: bytes) returns (run: seq<State>)
    requires Quiet(s) && s.owner.Nobody? && s.tcpTransport
    requires packet != [] && Sized(Media(channel, packet)) && AnswerForm(body)
    ensures Steps(run) && run[0] == s
    ensures var t := run[|run| - 1];
      && Quiet(t) && t.owner.Nobody? && t.requests == s.requests + [Play]
      && t.answers == s.answers + [Control(body)] && t.packets == s.packets + [Media(channel, packet)]
      && t.records == s.records + [Media(channel, packet)] + [Control(body)]
  {
    hide Next, RecordBytes, Head;
    TakenNext(s, Play, body);
    run := [s, Taken(s, Play, body)];
    var begun := PacketBegun(run[1], channel, packet);
    JoinSteps(run, begun);
    run := run + begun[1..];
    var ended := PacketEnded(run[|run| - 1], channel, packet);
    JoinSteps(run, ended);
    run := run + ended[1..];
    var written := WriteAnswer(run[|run| - 1], body, true);
    JoinSteps(run, written);
    run := run + written[1..];
  }

  lemma {:induction false} OnlyOfAnswers(bodies: seq<bytes>)
    ensures Only(true, Answers(bodies)) == Answers(bodies)
  {
    if bodies != [] {
      var k := |bodies| - 1;
      AnswersAppend(bodies);
      OnlyOfAnswers(bodies[..k]);
      OnlyAppend(true, Answers(bodies[..k]), Control(bodies[k]));
    }
  }

  /** Every history whose first PLAY finds a TCP session has a run with a packet before the answer to it,
      whatever the two threads write. */
  lemma {:induction false} EarlyPacketRun(h: seq<Request>, bodies: seq<bytes>, channel: byte, packet: bytes)
      returns (run: seq<State>)
    requires !PlayBeforeTcp(h) && |bodies| == |h| && (forall b | b in bodies :: AnswerForm(b))
    requires packet != [] && Sized(Media(channel, packet))
    ensures Run(run)
    ensures var s := run[|run| - 1];
      && Quiet(s) && s.owner.Nobody? && s.requests == h && s.answers == Answers(bodies)
      && s.packets == [Media(channel, packet)] && ModeOf(h).playing && !AnswersFirst(s.records, UpToPlay(h))
  {
    hide Next, RecordBytes, Stream, AnswerForm, AnswersFirst, Only;
    var k := |h| - 1;
    var before, req, body := h[..k], h[k], bodies[k];
    assert before + [req] == h;
    assert body in bodies && forall b | b in bodies[..k] :: b in bodies;
    AnswersAppend(bodies);
    HistoryAppend(before, req);
    PlayAppend(before, req);
    hide ModeOf, PlayBeforeTcp, UpToPlay;
    var last;
    if PlayBeforeTcp(before) {
      run := QuietRun(before, bodies[..k]);
      var s := run[|run| - 1];
      last := PacketFirst(s, channel, packet, body);
      OnlyOfAnswers(bodies[..k]);
      AnswersFirstAppend(s.records, Media(channel, packet), k + 1);
      AnswersFirstAppend(s.records + [Media(channel, packet)], Control(body), k + 1);
    } else {
      run := EarlyPacketRun(before, bodies[..k], channel, packet);
      var s := run[|run| - 1];
      last := Answer(s, req, body);
      AnswersFirstAppend(s.records, Control(body), UpToPlay(before));
    }
    JoinSteps(run, last);
    run := run + last[1..];
  }

  ghost predicate PlayAnsweredFirst(run: seq<State>) {
    run != [] && (ModeOf(run[|run| - 1].requests).playing ==>
      AnswersFirst(run[|run| - 1].records, UpToPlay(run[|run| - 1].requests)))
  }

  /** For every history and whatever is answered: the answer to the first PLAY is complete before every
      packet, in all interleavings, if and only if that PLAY does not find a TCP session. */
  lemma PlayAnswerExactly(h: seq<Request>, bodies: seq<bytes>)
    requires |bodies| == |h| && forall b | b in bodies :: AnswerForm(b)
    ensures PlayBeforeTcp(h) <==> forall run :: Serves(run, h, bodies) ==> PlayAnsweredFirst(run)
  {
    hide Next, PlayBeforeTcp, AnswersFirst, AnswerForm, UpToPlay, ModeOf;
    if PlayBeforeTcp(h) {
      forall run | Serves(run, h, bodies) ensures PlayAnsweredFirst(run) {
        RunKeepsOrder(run, |run| - 1);
      }
    } else {
      var packet: bytes := [0x80] + seq(22, _ => 0);
      var run := EarlyPacketRun(h, bodies, 0, packet);
      assert Serves(run, h, bodies) && !PlayAnsweredFirst(run);
    }
  }
}
