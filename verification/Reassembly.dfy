/** The client's reassembly of NAL units from RTP payloads (RFC 6184), as a state machine
    over payloads.  Main results: what the packetizer sends for a NAL unit comes out as
    that unit; lists are delivered exactly iff every unit is deliverable; lost tails and
    a lost beginning cost only the units they hit; the exact effect of a lost fragment. */
module Reassembly {
  import opened Bytes
  import opened AnnexB
  import opened Payload

  datatype State = State(buffer: bytes, inProgress: bool)

  /** A state and the NAL units emitted so far. */
  datatype Outcome = Outcome(state: State, emitted: seq<bytes>)

  /** The NAL units packed in a STAP-A payload from `offset` on, as far as their sizes fit. */
  function Aggregated(p: bytes, offset: nat): seq<bytes>
    decreases |p| - offset
  {
    if offset + 2 > |p| then []
    else
      var size := U16(p[offset], p[offset + 1]);
      if offset + 2 + size > |p| then []
      else [p[offset + 2..offset + 2 + size]] + Aggregated(p, offset + 2 + size)
  }

  /** Reaction to one payload; the receive loop drops an empty one. */
  function Handle(st: State, p: bytes): Outcome {
    if p == [] then Outcome(st, []) else
    var t := TypeOf(p[0]);
    if 1 <= t <= 23 then Outcome(st, [p])
    else if t == 24 then Outcome(st, Aggregated(p, 1))
    else if t == 28 && |p| >= 2 then
      var st1 := if StartBit(p) then State([p[0] / 32 * 32 + TypeOf(p[1])], true) else st;
      if !st1.inProgress then Outcome(st1, [])
      else if EndBit(p) then Outcome(State([], false), [st1.buffer + p[2..]])
      else Outcome(State(st1.buffer + p[2..], true), [])
    else Outcome(st, [])
  }

  /** Reaction to a list of payloads. */
  function Deliver(st: State, ps: seq<bytes>): Outcome
    decreases |ps|
  {
    if ps == [] then Outcome(st, [])
    else
      var o := Handle(st, ps[0]);
      var rest := Deliver(o.state, ps[1..]);
      Outcome(rest.state, o.emitted + rest.emitted)
  }

  lemma {:induction false} DeliverConcat(st: State, a: seq<bytes>, b: seq<bytes>)
    ensures var o := Deliver(st, a);
            var r := Deliver(o.state, b);
            Deliver(st, a + b) == Outcome(r.state, o.emitted + r.emitted)
    decreases |a|
  {
    if a == [] {
      assert a + b == b;
    } else {
      var o := Handle(st, a[0]);
      assert (a + b)[1..] == a[1..] + b;
      DeliverConcat(o.state, a[1..], b);
      var o1 := Deliver(o.state, a[1..]);
      var r := Deliver(o1.state, b);
      assert o.emitted + (o1.emitted + r.emitted) == (o.emitted + o1.emitted) + r.emitted;
    }
  }

  // ---- One NAL unit ------------------------------------------------------------------------

  /** The NAL units that can cross the link: of type 1..23, or too long for a single packet. */
  predicate Deliverable(nal: bytes) {
    nal != [] && (|nal| > MAX_RTP_PAYLOAD || 1 <= TypeOf(nal[0]) <= 23)
  }

  lemma DeliverableMeaning(nal: bytes)
    ensures Deliverable(nal) <==> |nal| > 1400 || (|nal| > 0 && 1 <= nal[0] % 32 <= 23)
  {}

  // ---- Payloads of any sender --------------------------------------------------------------------

  /** A single unit is signalled as it is, and a payload of another type than 1 to 24 and 28 is ignored; neither
      touches a unit in reassembly. */
  lemma SingleOrForeign(st: State, p: bytes)
    requires p != [] && p[0] % 32 != 24 && p[0] % 32 != 28
    ensures Handle(st, p) == Outcome(st, if p[0] % 32 == 0 || p[0] % 32 > 23 then [] else [p])
  {}

  /** Units packed one behind the other, each after its size in two bytes, most significant first. */
  function Packed(nals: seq<bytes>): bytes
    requires forall n | n in nals :: |n| < 0x1_0000
  {
    if nals == [] then []
    else
      assert nals[0] in nals;
      [|nals[0]| / 256, |nals[0]| % 256] + nals[0] + Packed(nals[1..])
  }

  /** What is left behind the last whole unit: less than two bytes, or a size and less than that many. */
  predicate Leftover(tail: bytes) {
    |tail| < 2 || tail[0] as int * 256 + tail[1] as int > |tail| - 2
  }

  lemma PackedCons(nals: seq<bytes>)
    requires nals != [] && forall n | n in nals :: |n| < 0x1_0000
    ensures nals[0] in nals && forall n | n in nals[1..] :: n in nals
    ensures Packed(nals) == [|nals[0]| / 256, |nals[0]| % 256] + nals[0] + Packed(nals[1..])
  {}

  lemma AggregatedNone(p: bytes, at: nat)
    requires at + 2 > |p| || at + 2 + U16(p[at], p[at + 1]) > |p|
    ensures Aggregated(p, at) == []
  {}

  lemma NothingPacked(before: bytes, tail: bytes)
    requires Leftover(tail)
    ensures Aggregated(before + Packed([]) + tail, |before|) == []
  {
    hide Aggregated;
    var p := before + tail;
    assert before + Packed([]) + tail == p;
    if |tail| >= 2 { assert p[|before|] == tail[0] && p[|before| + 1] == tail[1]; }
    AggregatedNone(p, |before|);
  }

  lemma {:induction false} UnpackFrom(before: bytes, nals: seq<bytes>, tail: bytes)
    requires (forall n | n in nals :: |n| < 0x1_0000) && Leftover(tail)
    ensures Aggregated(before + Packed(nals) + tail, |before|) == nals
    decreases |nals|
  {
    hide Packed, Aggregated, Leftover;
    if nals == [] {
      NothingPacked(before, tail);
    } else {
      PackedCons(nals);
      var nal, more := nals[0], Packed(nals[1..]);
      var size := [|nal| / 256, |nal| % 256];
      Located(before, size, nal, more, tail);
      AggregatedOne(before + (size + nal + more) + tail, |before|, nal);
      UnpackFrom(before + size + nal, nals[1..], tail);
    }
  }

  lemma Located(before: bytes, size: bytes, nal: bytes, more: bytes, tail: bytes)
    requires |size| == 2
    ensures var p := before + (size + nal + more) + tail;
      && p == before + size + nal + more + tail
      && p[|before|] == size[0] && p[|before| + 1] == size[1]
      && p[|before| + 2..|before| + 2 + |nal|] == nal
  {
    assert before + (size + nal + more) == before + size + nal + more;
    assert before + size + nal + more + tail == (before + size) + nal + (more + tail);
    Middle(before + size, nal, more + tail);
  }

  lemma Middle(a: bytes, b: bytes, c: bytes)
    ensures (a + b + c)[|a|..|a| + |b|] == b
  {}

  lemma AggregatedOne(p: bytes, at: nat, nal: bytes)
    requires |nal| < 0x1_0000 && at + 2 + |nal| <= |p|
    requires p[at] == |nal| / 256 && p[at + 1] == |nal| % 256 && p[at + 2..at + 2 + |nal|] == nal
    ensures Aggregated(p, at) == [nal] + Aggregated(p, at + 2 + |nal|)
  {}

  /** RFC 6184 section 5.7.1: of an aggregate exactly the units packed in it are signalled, in order; a piece of a
      unit at its end is dropped; and a unit in reassembly stays as it is. */
  lemma AggregateDelivered(st: State, first: byte, nals: seq<bytes>, tail: bytes)
    requires first % 32 == 24 && (forall n | n in nals :: |n| < 0x1_0000) && Leftover(tail)
    ensures Handle(st, [first] + Packed(nals) + tail) == Outcome(st, nals)
  {
    hide Packed, Leftover, Aggregated;
    UnpackFrom([first], nals, tail);
  }

  /** RFC 6184 section 5.8, for any two header bytes: S starts a new unit with the F and NRI bits of the first byte
      and the type of the second, whatever was in reassembly; without S and without a unit in reassembly the
      body is dropped; E signals the unit.  A single byte is ignored. */
  lemma FragmentMeaning(st: State, indicator: byte, header: byte, body: bytes)
    requires indicator % 32 == 28
    ensures var o := Handle(st, [indicator, header] + body);
      var unit := if header >= 128 then [indicator / 32 * 32 + header % 32] + body else st.buffer + body;
      if header < 128 && !st.inProgress then o == Outcome(st, [])
      else if header / 64 % 2 == 1 then o == Outcome(State([], false), [unit])
      else o == Outcome(State(unit, true), [])
    ensures Handle(st, [indicator]) == Outcome(st, [])
  {
    var p := [indicator, header] + body;
    assert p[2..] == body;
  }

  lemma FragmentHandled(st: State, header: byte, chunk: bytes, first: bool, last: bool)
    requires first || st.inProgress
    ensures var p := [FuIndicator(header), FuHeader(header, first, last)] + chunk;
            var b := (if first then [header] else st.buffer) + chunk;
            Handle(st, p) == if last then Outcome(State([], false), [b]) else Outcome(State(b, true), [])
  {
    var p := [FuIndicator(header), FuHeader(header, first, last)] + chunk;
    assert p[2..] == chunk;
    assert TypeOf(p[0]) == 28 && TypeOf(p[1]) == TypeOf(header) && p[0] / 32 == header / 32;
    assert StartBit(p) == first && EndBit(p) == last;
  }

  lemma {:induction false} DeliverFragments(st: State, header: byte, body: bytes, first: bool)
    requires body != [] && (first || st.inProgress)
    ensures Deliver(st, Fragments(header, body, first))
         == Outcome(State([], false), [(if first then [header] else st.buffer) + body])
    decreases |body|
  {
    var n := if |body| < MAX_BODY then |body| else MAX_BODY;
    var f := [FuIndicator(header), FuHeader(header, first, n == |body|)] + body[..n];
    var rest := Fragments(header, body[n..], false);
    assert Fragments(header, body, first) == [f] + rest;
    FragmentHandled(st, header, body[..n], first, n == |body|);
    assert ([f] + rest)[1..] == rest;
    if n == |body| {
      assert body[..n] == body && rest == [];
    } else {
      var b := (if first then [header] else st.buffer) + body[..n];
      DeliverFragments(State(b, true), header, body[n..], false);
      assert b + body[n..] == (if first then [header] else st.buffer) + body by {
        assert body[..n] + body[n..] == body;
      }
    }
  }

  /** Whatever state the client is in, the payloads of a deliverable NAL unit yield that unit. */
  lemma DeliverNal(st: State, nal: bytes)
    requires Deliverable(nal)
    ensures Deliver(st, Payloads(nal)).emitted == [nal]
  {
    hide Fragments;
    if |nal| > MAX_RTP_PAYLOAD {
      DeliverFragments(st, nal[0], nal[1..], true);
      assert [nal[0]] + nal[1..] == nal;
    } else {
      assert Deliver(st, [nal]).emitted == Handle(st, nal).emitted;
    }
  }

  // ---- Lists of NAL units: exact delivery -----------------------------------------------------

  function AllPayloads(nals: seq<bytes>): seq<bytes> {
    if nals == [] then [] else Payloads(nals[0]) + AllPayloads(nals[1..])
  }

  lemma {:induction false} DeliverAll(st: State, nals: seq<bytes>)
    requires forall n | n in nals :: Deliverable(n)
    ensures Deliver(st, AllPayloads(nals)).emitted == nals
    decreases |nals|
  {
    if nals != [] {
      DeliverNal(st, nals[0]);
      var o := Deliver(st, Payloads(nals[0]));
      DeliverConcat(st, Payloads(nals[0]), AllPayloads(nals[1..]));
      DeliverAll(o.state, nals[1..]);
      assert nals == [nals[0]] + nals[1..];
    }
  }

  // No reaction creates bytes: what is emitted plus what is buffered never grows by more than the
  // payload, and a payload that is not a deliverable NAL unit loses at least one byte.

  lemma {:induction false} TotalSizeConcat(a: seq<bytes>, b: seq<bytes>)
    ensures TotalSize(a + b) == TotalSize(a) + TotalSize(b)
  {
    if a == [] {
      assert a + b == b;
    } else {
      assert (a + b)[1..] == a[1..] + b;
      TotalSizeConcat(a[1..], b);
    }
  }

  lemma {:induction false} AggregatedSize(p: bytes, offset: nat)
    requires offset <= |p|
    ensures TotalSize(Aggregated(p, offset)) <= |p| - offset
    decreases |p| - offset
  {
    if offset + 2 <= |p| {
      var size := U16(p[offset], p[offset + 1]);
      if offset + 2 + size <= |p| {
        AggregatedSize(p, offset + 2 + size);
        TotalSizeCons(p[offset + 2..offset + 2 + size], Aggregated(p, offset + 2 + size));
      }
    }
  }

  function Stored(o: Outcome): nat {
    TotalSize(o.emitted) + |o.state.buffer|
  }

  lemma HandleSize(st: State, p: bytes)
    requires p != [] && !(1 <= TypeOf(p[0]) <= 23)
    ensures Stored(Handle(st, p)) <= |st.buffer| + |p| - 1
  {
    if TypeOf(p[0]) == 24 {
      AggregatedSize(p, 1);
    } else if TypeOf(p[0]) == 28 && |p| >= 2 {
      var st1 := if StartBit(p) then State([p[0] / 32 * 32 + TypeOf(p[1])], true) else st;
      assert TotalSize([st1.buffer + p[2..]]) == |st1.buffer| + |p| - 2;
    }
  }

  lemma NalSize(st: State, nal: bytes)
    requires nal != []
    ensures Stored(Deliver(st, Payloads(nal))) <= |st.buffer| + |nal| - (if Deliverable(nal) then 0 else 1)
  {
    hide Fragments;
    if |nal| > MAX_RTP_PAYLOAD {
      DeliverFragments(st, nal[0], nal[1..], true);
      assert [nal[0]] + nal[1..] == nal;
      assert TotalSize([nal]) == |nal|;
    } else {
      assert Deliver(st, [nal]) == Outcome(Handle(st, nal).state, Handle(st, nal).emitted + []);
      assert Handle(st, nal).emitted + [] == Handle(st, nal).emitted;
      if !Deliverable(nal) { HandleSize(st, nal); } else { assert TotalSize([nal]) == |nal|; }
    }
  }

  lemma {:induction false} ListSize(st: State, nals: seq<bytes>)
    requires forall n | n in nals :: n != []
    ensures Stored(Deliver(st, AllPayloads(nals))) <= |st.buffer| + TotalSize(nals)
    ensures (exists n :: n in nals && !Deliverable(n)) ==>
              Stored(Deliver(st, AllPayloads(nals))) < |st.buffer| + TotalSize(nals)
    decreases |nals|
  {
    hide Payloads, Handle;
    if nals != [] {
      assert nals[0] in nals && forall n | n in nals[1..] :: n in nals;
      NalSize(st, nals[0]);
      var o := Deliver(st, Payloads(nals[0]));
      DeliverConcat(st, Payloads(nals[0]), AllPayloads(nals[1..]));
      ListSize(o.state, nals[1..]);
      TotalSizeConcat(o.emitted, Deliver(o.state, AllPayloads(nals[1..])).emitted);
      assert nals == [nals[0]] + nals[1..];
    }
  }

  /** What an idle client has left in its buffer has no effect: the next start fragment replaces it. */
  lemma {:induction false} IdleBuffer(st: State, ps: seq<bytes>)
    requires !st.inProgress
    ensures Deliver(st, ps).emitted == Deliver(State([], false), ps).emitted
    decreases |ps|
  {
    if ps != [] {
      var o, e := Handle(st, ps[0]), Handle(State([], false), ps[0]);
      assert o.emitted == e.emitted && (o.state == e.state || (o.state == st && e.state == State([], false)));
      if o.state != e.state {
        IdleBuffer(st, ps[1..]);
      }
    }
  }

  /** The client has no bytes that could reach a NAL unit: none at all, or only stale ones. */
  predicate NothingPending(st: State) { st.buffer == [] || !st.inProgress }

  /** With nothing pending, a list of non-empty NAL units comes out unchanged if and only if each of
      them is deliverable. */
  lemma DeliveryExact(st: State, nals: seq<bytes>)
    requires NothingPending(st) && forall n | n in nals :: n != []
    ensures Deliver(st, AllPayloads(nals)).emitted == nals <==> forall n | n in nals :: Deliverable(n)
  {
    hide Handle, Payloads;
    if forall n | n in nals :: Deliverable(n) {
      DeliverAll(st, nals);
    } else if st.inProgress {
      ListSize(st, nals);
    } else {
      IdleBuffer(st, AllPayloads(nals));
      ListSize(State([], false), nals);
    }
  }

  // ---- Losses ----------------------------------------------------------------------------------

  /** A NAL unit of which only the first `kept` packets arrive. */
  datatype Transfer = Transfer(nal: bytes, kept: nat) {
    predicate Valid() { Deliverable(nal) && kept <= |Payloads(nal)| }
    predicate Complete() { kept == |Payloads(nal)| }
  }

  function Arriving(ts: seq<Transfer>): seq<bytes>
    requires forall t | t in ts :: t.Valid()
  {
    if ts == [] then []
    else
      assert ts[0].Valid();
      Payloads(ts[0].nal)[..ts[0].kept] + Arriving(ts[1..])
  }

  /** The NAL units of which every packet arrives. */
  function Complete(ts: seq<Transfer>): seq<bytes> {
    if ts == [] then []
    else (if ts[0].Complete() then [ts[0].nal] else []) + Complete(ts[1..])
  }

  /** A proper prefix of the fragments of one NAL unit emits nothing. */
  lemma {:induction false} PartialFragments(st: State, header: byte, body: bytes, first: bool, kept: nat)
    requires (first || st.inProgress) && kept < |Fragments(header, body, first)|
    ensures Deliver(st, Fragments(header, body, first)[..kept]).emitted == []
    decreases |body|
  {
    var n := if |body| < MAX_BODY then |body| else MAX_BODY;
    var f := [FuIndicator(header), FuHeader(header, first, n == |body|)] + body[..n];
    var rest := Fragments(header, body[n..], false);
    assert Fragments(header, body, first) == [f] + rest;
    if kept > 0 {
      FragmentHandled(st, header, body[..n], first, n == |body|);
      assert ([f] + rest)[..kept] == [f] + rest[..kept - 1];
      assert ([f] + rest[..kept - 1])[1..] == rest[..kept - 1];
      var b := (if first then [header] else st.buffer) + body[..n];
      PartialFragments(State(b, true), header, body[n..], false, kept - 1);
    }
  }

  lemma PartialNal(st: State, t: Transfer)
    requires t.Valid()
    ensures Deliver(st, Payloads(t.nal)[..t.kept]).emitted == if t.Complete() then [t.nal] else []
  {
    hide Fragments, Handle;
    if t.Complete() {
      assert Payloads(t.nal)[..t.kept] == Payloads(t.nal);
      DeliverNal(st, t.nal);
    } else if |t.nal| > MAX_RTP_PAYLOAD {
      PartialFragments(st, t.nal[0], t.nal[1..], true, t.kept);
    }
  }

  /** Under loss of packet tails the client emits exactly the complete NAL units, in order, whatever
      bytes are left in its buffer and whether or not a reassembly is in progress. */
  lemma {:induction false} TailLoss(st: State, ts: seq<Transfer>)
    requires forall t | t in ts :: t.Valid()
    ensures Deliver(st, Arriving(ts)).emitted == Complete(ts)
    decreases |ts|
  {
    hide Payloads, Handle;
    if ts != [] {
      assert ts[0] in ts && forall t | t in ts[1..] :: t in ts;
      var first := Payloads(ts[0].nal)[..ts[0].kept];
      PartialNal(st, ts[0]);
      DeliverConcat(st, first, Arriving(ts[1..]));
      TailLoss(Deliver(st, first).state, ts[1..]);
    }
  }

  /** An FU-A payload without the S bit. */
  predicate Continuation(p: bytes) {
    |p| >= 2 && TypeOf(p[0]) == 28 && !StartBit(p)
  }

  /** Continuations are ignored while no reassembly is in progress. */
  lemma {:induction false} ContinuationsIgnored(st: State, ps: seq<bytes>)
    requires !st.inProgress && forall p | p in ps :: Continuation(p)
    ensures Deliver(st, ps) == Outcome(st, [])
    decreases |ps|
  {
    if ps != [] {
      assert ps[0] in ps && forall p | p in ps[1..] :: p in ps;
      ContinuationsIgnored(st, ps[1..]);
    }
  }

  lemma TailContinues(nal: bytes, k: nat)
    requires 1 <= k <= |Payloads(nal)|
    ensures forall p | p in Payloads(nal)[k..] :: Continuation(p)
  {
    if |nal| > MAX_RTP_PAYLOAD {
      forall i | k <= i < |Payloads(nal)| ensures Continuation(Payloads(nal)[i]) {
        FragmentShape(nal, i);
      }
    }
  }

  /** Joining in the middle of a NAL unit: its remaining packets are ignored, and everything after it
      is received as if the client had just started. */
  lemma JoinMidNal(st: State, nal: bytes, k: nat, ts: seq<Transfer>)
    requires !st.inProgress && 1 <= k <= |Payloads(nal)|
    requires forall t | t in ts :: t.Valid()
    ensures Deliver(st, Payloads(nal)[k..] + Arriving(ts)).emitted == Complete(ts)
  {
    hide Payloads, Handle;
    TailContinues(nal, k);
    ContinuationsIgnored(st, Payloads(nal)[k..]);
    DeliverConcat(st, Payloads(nal)[k..], Arriving(ts));
    TailLoss(st, ts);
  }

  // ---- Lost fragments anywhere in one NAL unit ---------------------------------------------------

  /** The payloads that are marked as kept. */
  function Select(ps: seq<bytes>, keep: seq<bool>): seq<bytes>
    requires |ps| == |keep|
  {
    if ps == [] then [] else (if keep[0] then [ps[0]] else []) + Select(ps[1..], keep[1..])
  }

  /** The first of some later fragments, and the others. */
  lemma LaterFragments(header: byte, body: bytes)
    requires body != []
    ensures var n := if |body| < MAX_BODY then |body| else MAX_BODY;
      && n <= |body|
      && Fragments(header, body, false)
         == [[FuIndicator(header), FuHeader(header, false, n == |body|)] + body[..n]]
            + Fragments(header, body[n..], false)
      && (n == |body| ==> Fragments(header, body[n..], false) == [])
  {}

  lemma {:induction false} GapInside(st: State, header: byte, body: bytes, keep: seq<bool>)
    requires st.inProgress && body != [] && |keep| == |Fragments(header, body, false)|
    ensures keep != []
    ensures Deliver(st, Select(Fragments(header, body, false), keep)).emitted
         == if keep[|keep| - 1] then [st.buffer + Bodies(Select(Fragments(header, body, false), keep))] else []
    decreases |body|
  {
    hide Handle, Select, Fragments, Bodies, Deliver;
    LaterFragments(header, body);
    var n := if |body| < MAX_BODY then |body| else MAX_BODY;
    var f := [FuIndicator(header), FuHeader(header, false, n == |body|)] + body[..n];
    var rest := Fragments(header, body[n..], false);
    var kept := Select(rest, keep[1..]);
    SelectCons(f, rest, keep);
    FragmentHandled(st, header, body[..n], false, n == |body|);
    DeliverCons(st, f, kept);
    BodiesCons(f, kept);
    assert f[2..] == body[..n] && body[..n] + [] == body[..n];
    if n == |body| {
      SelectNone(rest, keep[1..]);
      NothingDelivered(State([], false));
      NothingDelivered(st);
    } else {
      var b := st.buffer + body[..n];
      GapInside(if keep[0] then State(b, true) else st, header, body[n..], keep[1..]);
      LastOfRest(keep);
      ThreeParts(st.buffer, body[..n], Bodies(kept));
    }
  }

  lemma DeliverCons(st: State, p: bytes, rest: seq<bytes>)
    ensures var o := Handle(st, p);
            var r := Deliver(o.state, rest);
            Deliver(st, [p] + rest) == Outcome(r.state, o.emitted + r.emitted)
  {
    assert ([p] + rest)[1..] == rest;
  }

  lemma NothingDelivered(st: State)
    ensures Deliver(st, []) == Outcome(st, []) && Bodies([]) == []
  {}

  lemma LastOfRest(keep: seq<bool>)
    requires |keep| > 1
    ensures keep[1..][|keep[1..]| - 1] == keep[|keep| - 1]
  {}

  lemma ThreeParts(a: bytes, b: bytes, c: bytes)
    ensures a + b + c == a + (b + c)
  {}

  lemma NoFragments(header: byte, body: bytes)
    ensures body == [] ==> Fragments(header, body, false) == []
  {}

  lemma SelectNone(ps: seq<bytes>, keep: seq<bool>)
    requires ps == [] && keep == []
    ensures Select(ps, keep) == []
  {}

  predicate AllKept(keep: seq<bool>) {
    forall k | 0 <= k < |keep| :: keep[k]
  }

  lemma AllKeptCons(keep: seq<bool>)
    requires keep != []
    ensures AllKept(keep) <==> keep[0] && AllKept(keep[1..])
  {
    assert keep == [keep[0]] + keep[1..];
  }

  lemma BodiesCons(p: bytes, rest: seq<bytes>)
    ensures Bodies([p] + rest) == (if |p| >= 2 then p[2..] else []) + Bodies(rest)
  {
    assert ([p] + rest)[1..] == rest;
  }

  lemma {:induction false} SelectBodies(ps: seq<bytes>, keep: seq<bool>)
    requires |ps| == |keep| && forall p | p in ps :: |p| > 2
    ensures |Bodies(Select(ps, keep))| <= |Bodies(ps)|
    ensures |Bodies(Select(ps, keep))| == |Bodies(ps)| <==> AllKept(keep)
    ensures AllKept(keep) ==> Select(ps, keep) == ps
    decreases |ps|
  {
    hide AllKept;
    if ps != [] {
      var p, rest := ps[0], ps[1..];
      assert p in ps && forall q | q in rest :: q in ps;
      SelectBodies(rest, keep[1..]);
      AllKeptCons(keep);
      assert ps == [p] + rest;
      BodiesCons(p, rest);
      var kept := Select(rest, keep[1..]);
      assert Select(ps, keep) == if keep[0] then [p] + kept else kept;
      BodiesCons(p, kept);
    } else {
      EmptyKept(keep);
    }
  }

  lemma EmptyKept(keep: seq<bool>)
    ensures keep == [] ==> AllKept(keep)
  {}

  lemma {:induction false} SelectIn(ps: seq<bytes>, keep: seq<bool>)
    requires |ps| == |keep|
    ensures forall p | p in Select(ps, keep) :: p in ps
    decreases |ps|
  {
    if ps != [] {
      SelectIn(ps[1..], keep[1..]);
      assert forall p | p in ps[1..] :: p in ps;
    }
  }

  lemma LongPayloads(nal: bytes)
    requires |nal| > MAX_RTP_PAYLOAD
    ensures var f := [FuIndicator(nal[0]), FuHeader(nal[0], true, false)] + nal[1..][..MAX_BODY];
            var rest := Fragments(nal[0], nal[1..][MAX_BODY..], false);
            Payloads(nal) == [f] + rest && rest != []
  {}

  lemma SelectCons(p: bytes, rest: seq<bytes>, keep: seq<bool>)
    requires |keep| == |rest| + 1
    ensures Select([p] + rest, keep) == if keep[0] then [p] + Select(rest, keep[1..]) else Select(rest, keep[1..])
  {
    assert ([p] + rest)[1..] == rest;
  }

  /** What a long NAL unit with gaps makes the client emit, in every state: nothing without its last
      fragment; what arrived of it with its first; and without its first, what arrived of it behind the
      bytes of an earlier unit, if the end of that unit was lost. */
  lemma GapEmission(st: State, nal: bytes, keep: seq<bool>)
    requires |nal| > MAX_RTP_PAYLOAD && |keep| == |Payloads(nal)|
    ensures |keep| >= 2
    ensures Deliver(st, Select(Payloads(nal), keep)).emitted
         == if !keep[|keep| - 1] then []
            else if keep[0] then [[nal[0]] + Bodies(Select(Payloads(nal), keep))]
            else if st.inProgress then [st.buffer + Bodies(Select(Payloads(nal), keep))]
            else []
  {
    hide Payloads, Fragments, Select, Handle, Deliver, Bodies;
    LongPayloads(nal);
    var header, head, tail := nal[0], nal[1..][..MAX_BODY], nal[1..][MAX_BODY..];
    var f := [FuIndicator(header), FuHeader(header, true, false)] + head;
    var rest := Fragments(header, tail, false);
    var kept := Select(rest, keep[1..]);
    SelectCons(f, rest, keep);
    LastOfRest(keep);
    if keep[0] {
      FragmentHandled(st, header, head, true, false);
      DeliverCons(st, f, kept);
      GapInside(State([header] + head, true), header, tail, keep[1..]);
      BodiesCons(f, kept);
      assert f[2..] == head;
      ThreeParts([header], head, Bodies(kept));
    } else if st.inProgress {
      GapInside(st, header, tail, keep[1..]);
    } else {
      SelectIn(rest, keep[1..]);
      TailContinues(nal, 1);
      ContinuationsIgnored(st, kept);
    }
  }

  /** What arrived of the unit happens to complete the bytes left of an earlier one to this unit. */
  predicate Coincides(st: State, nal: bytes, keep: seq<bool>)
    requires |keep| == |Payloads(nal)|
  {
    && keep != [] && !keep[0] && keep[|keep| - 1] && st.inProgress
    && st.buffer + Bodies(Select(Payloads(nal), keep)) == nal
  }

  /** The exact effect of losing any fragments of one long NAL unit, in every state: something is emitted
      iff the last fragment arrives and either the first one does or an earlier unit was cut off; and it
      is the unit iff all fragments arrive, or the leftover bytes happen to complete it. */
  lemma GapDelivery(st: State, nal: bytes, keep: seq<bool>)
    requires |nal| > MAX_RTP_PAYLOAD && |keep| == |Payloads(nal)|
    ensures |keep| >= 2
    ensures Deliver(st, Select(Payloads(nal), keep)).emitted != []
       <==> keep[|keep| - 1] && (keep[0] || st.inProgress)
    ensures Deliver(st, Select(Payloads(nal), keep)).emitted == [nal] <==> AllKept(keep) || Coincides(st, nal, keep)
  {
    hide Payloads, Select, Deliver;
    GapEmission(st, nal, keep);
    forall p | p in Payloads(nal) ensures |p| > 2 {
      var k :| 0 <= k < |Payloads(nal)| && Payloads(nal)[k] == p;
      FragmentShape(nal, k);
    }
    SelectBodies(Payloads(nal), keep);
    FragmentsRebuild(nal);
    if AllKept(keep) {
      assert Select(Payloads(nal), keep) == Payloads(nal);
    }
  }

  lemma TakeCons(p: bytes, rest: seq<bytes>, k: nat)
    requires 1 <= k <= |rest| + 1
    ensures ([p] + rest)[..k] == [p] + rest[..k - 1]
    ensures ([p] + rest)[..k][0] == p && ([p] + rest)[..k][1..] == rest[..k - 1]
  {}

  lemma {:induction false} PartialBuffer(st: State, header: byte, body: bytes, k: nat)
    requires st.inProgress && body != [] && k < |Fragments(header, body, false)|
    ensures Deliver(st, Fragments(header, body, false)[..k])
         == Outcome(State(st.buffer + Bodies(Fragments(header, body, false)[..k]), true), [])
    decreases |body|
  {
    hide Handle, Fragments, Deliver, Bodies;
    if k == 0 {
      assert Fragments(header, body, false)[..0] == [];
      assert st.buffer + [] == st.buffer;
      NothingDelivered(st);
    } else {
      LaterFragments(header, body);
      var n := if |body| < MAX_BODY then |body| else MAX_BODY;
      var f := [FuIndicator(header), FuHeader(header, false, n == |body|)] + body[..n];
      var rest := Fragments(header, body[n..], false);
      TakeCons(f, rest, k);
      FragmentHandled(st, header, body[..n], false, false);
      DeliverCons(st, f, rest[..k - 1]);
      PartialBuffer(State(st.buffer + body[..n], true), header, body[n..], k - 1);
      BodiesCons(f, rest[..k - 1]);
      assert f[2..] == body[..n];
      ThreeParts(st.buffer, body[..n], Bodies(rest[..k - 1]));
    }
  }

  /** Losing the end of one long unit and the beginning of the next, but not its last fragment, makes the
      client emit one unit: the start of the first with what arrived of the second. */
  lemma GluedUnits(st: State, a: bytes, k: nat, b: bytes, keep: seq<bool>)
    requires |a| > MAX_RTP_PAYLOAD && 1 <= k < |Payloads(a)|
    requires |b| > MAX_RTP_PAYLOAD && |keep| == |Payloads(b)| && !keep[0] && keep[|keep| - 1]
    ensures Deliver(st, Payloads(a)[..k] + Select(Payloads(b), keep)).emitted
         == [[a[0]] + Bodies(Payloads(a)[..k]) + Bodies(Select(Payloads(b), keep))]
  {
    CutOff(st, a, k);
    hide Payloads, Fragments, Select, Handle, Deliver, Bodies;
    var first := Payloads(a)[..k];
    GapEmission(State([a[0]] + Bodies(first), true), b, keep);
    DeliverConcat(st, first, Select(Payloads(b), keep));
  }

  lemma {:induction false} SelectTail(ps: seq<bytes>, m: nat, keep: seq<bool>)
    requires m <= |ps| == |keep| && forall i | 0 <= i < |keep| :: keep[i] <==> m <= i
    ensures Select(ps, keep) == ps[m..]
    decreases |ps|
  {
    if ps != [] {
      SelectTail(ps[1..], if m == 0 then 0 else m - 1, keep[1..]);
    }
  }

  lemma GluedLengths(a: bytes, i: nat, b: bytes, j: nat)
    requires i <= |a| && j <= |b|
    ensures a[..i] + b[j..] == b <==> i == j && a[..i] == b[..j]
    ensures a[..i] + b[j..] == a <==> b[j..] == a[i..]
  {
    assert a[..i] + a[i..] == a && b[..j] + b[j..] == b;
    assert (a[..i] + b[j..])[..i] == a[..i] && (a[..i] + b[j..])[i..] == b[j..];
  }

  /** The exact effect of one burst of losses across the boundary of two long units, in every state: the
      client emits the start of the first with the end of the second.  That is the second unit iff the
      units are cut at the same place and agree before it, and the first iff they end in the same way;
      in all other cases the client emits a unit that is neither. */
  lemma BurstLoss(st: State, a: bytes, k: nat, b: bytes, m: nat)
    requires |a| > MAX_RTP_PAYLOAD && 1 <= k < |Payloads(a)|
    requires |b| > MAX_RTP_PAYLOAD && 1 <= m < |Payloads(b)|
    ensures 1 + k * MAX_BODY < |a| && 1 + m * MAX_BODY < |b|
    ensures var emitted := Deliver(st, Payloads(a)[..k] + Payloads(b)[m..]).emitted;
      && emitted == [a[..1 + k * MAX_BODY] + b[1 + m * MAX_BODY..]]
      && (emitted == [b] <==> k == m && a[..1 + k * MAX_BODY] == b[..1 + k * MAX_BODY])
      && (emitted == [a] <==> a[1 + k * MAX_BODY..] == b[1 + m * MAX_BODY..])
  {
    hide Payloads, Deliver, Bodies, Select;
    var keep := seq(|Payloads(b)|, i => m <= i);
    SelectTail(Payloads(b), m, keep);
    GluedUnits(st, a, k, b, keep);
    BodiesSplit(a, k);
    BodiesSplit(b, m);
    GluedLengths(a, 1 + k * MAX_BODY, b, 1 + m * MAX_BODY);
  }

  /** The state that a long unit leaves when its end is lost. */
  lemma CutOff(st: State, nal: bytes, k: nat)
    requires |nal| > MAX_RTP_PAYLOAD && 1 <= k < |Payloads(nal)|
    ensures Deliver(st, Payloads(nal)[..k]) == Outcome(State([nal[0]] + Bodies(Payloads(nal)[..k]), true), [])
  {
    hide Payloads, Fragments, Handle, Deliver, Bodies;
    LongPayloads(nal);
    var header, head, tail := nal[0], nal[1..][..MAX_BODY], nal[1..][MAX_BODY..];
    var f := [FuIndicator(header), FuHeader(header, true, false)] + head;
    var rest := Fragments(header, tail, false);
    TakeCons(f, rest, k);
    FragmentHandled(st, header, head, true, false);
    DeliverCons(st, f, rest[..k - 1]);
    PartialBuffer(State([header] + head, true), header, tail, k - 1);
    BodiesCons(f, rest[..k - 1]);
    assert f[2..] == head;
    ThreeParts([header], head, Bodies(rest[..k - 1]));
  }
}
