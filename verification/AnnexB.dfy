/** The Annex B byte stream (ITU-T H.264): cutting an access unit into NAL units at the
    start codes, and joining NAL units again. */
module AnnexB {
  import opened Bytes

  // ---- Specification -----------------------------------------------------------------

  /** The three bytes 00 00 01 stand at position `i`. */
  predicate CodeAt(d: bytes, i: nat) {
    i + 3 <= |d| && d[i] == 0 && d[i + 1] == 0 && d[i + 2] == 1
  }

  /** The four bytes 00 00 00 01 stand at position `i`. */
  predicate LongCodeAt(d: bytes, i: nat) {
    i + 4 <= |d| && d[i] == 0 && CodeAt(d, i + 1)
  }

  /** The positions of 00 00 01 from `from` on, in ascending order. */
  function Codes(d: bytes, from: nat): seq<nat>
    decreases |d| - from
  {
    if from >= |d| then []
    else (if CodeAt(d, from) then [from] else []) + Codes(d, from + 1)
  }

  /** Where the segment after code `p` ends when the next code is `q`: a zero byte just before
      `q` belongs to the start code, unless `p` has consumed it. */
  function EndBefore(d: bytes, p: nat, q: nat): (e: nat)
    requires p + 3 <= q <= |d|
    ensures p + 3 <= e <= |d|
  {
    if q > p + 3 && d[q - 1] == 0 then q - 1 else q
  }

  /** Codes lie inside the data and do not overlap. */
  predicate Spaced(d: bytes, codes: seq<nat>) {
    && (forall k | 0 <= k < |codes| :: codes[k] + 3 <= |d|)
    && (forall k | 0 <= k < |codes| - 1 :: codes[k] + 3 <= codes[k + 1])
  }

  /** One segment for each code, up to the next code or the end of the data. */
  function Segments(d: bytes, codes: seq<nat>): seq<bytes>
    requires Spaced(d, codes)
  {
    if codes == [] then []
    else
      var end := if |codes| == 1 then |d| else EndBefore(d, codes[0], codes[1]);
      [d[codes[0] + 3..end]] + Segments(d, codes[1..])
  }

  function NonEmpty(segments: seq<bytes>): seq<bytes> {
    if segments == [] then []
    else (if segments[0] == [] then [] else [segments[0]]) + NonEmpty(segments[1..])
  }

  /** The NAL units of an access unit. */
  function Split(d: bytes): seq<bytes> {
    CodesSpaced(d, 0);
    NonEmpty(Segments(d, Codes(d, 0)))
  }

  // ---- The list of codes ---------------------------------------------------------------

  lemma {:induction false} CodesMeaning(d: bytes, from: nat, p: nat)
    ensures p in Codes(d, from) <==> from <= p && CodeAt(d, p)
    decreases |d| - from
  {
    if from < |d| { CodesMeaning(d, from + 1, p); }
  }

  lemma {:induction false} CodesSpaced(d: bytes, from: nat)
    ensures Spaced(d, Codes(d, from))
    ensures Codes(d, from) != [] ==> from <= Codes(d, from)[0] && CodeAt(d, Codes(d, from)[0])
    decreases |d| - from
  {
    if from < |d| {
      CodesSpaced(d, from + 1);
      var rest := Codes(d, from + 1);
      if CodeAt(d, from) { PrependSpaced(d, from, rest); }
    }
  }

  lemma PrependSpaced(d: bytes, p: nat, rest: seq<nat>)
    requires CodeAt(d, p) && Spaced(d, rest)
    requires rest != [] ==> p < rest[0] && CodeAt(d, rest[0])
    ensures Spaced(d, [p] + rest)
  {
    var c := [p] + rest;
    assert forall k | 0 < k < |c| :: c[k] == rest[k - 1];
  }

  lemma {:induction false} NoCodesBetween(d: bytes, from: nat, to: nat)
    requires from <= to && forall i | from <= i < to :: !CodeAt(d, i)
    ensures Codes(d, from) == Codes(d, to)
  {
    if from < to { NoCodesBetween(d, from, to - 1); }
  }

  /** After the code at `p` the next one can only start three bytes later. */
  lemma CodesAfter(d: bytes, p: nat)
    requires CodeAt(d, p)
    ensures Codes(d, p) == [p] + Codes(d, p + 3)
  {
    NoCodesBetween(d, p + 1, p + 3);
  }

  // ---- The splitter as it runs -----------------------------------------------------------

  /** The NAL units that start at or after position `i`. */
  function SplitFrom(d: bytes, i: nat): seq<bytes> {
    CodesSpaced(d, i);
    NonEmpty(Segments(d, Codes(d, i)))
  }

  /** The bytes before the first start code, which belong to no NAL unit. */
  function LeadIn(d: bytes): nat {
    if Codes(d, 0) == [] then |d|
    else var q := Codes(d, 0)[0]; if q > 0 && q <= |d| && d[q - 1] == 0 then q - 1 else q
  }

  /** Position `e` is where the scan from `from` for the next start code stops. */
  ghost predicate StopsAt(d: bytes, from: nat, e: nat) {
    && from <= e <= |d|
    && (forall i | from <= i < e :: !CodeAt(d, i) && !LongCodeAt(d, i))
    && (e < |d| ==> CodeAt(d, e) || LongCodeAt(d, e))
  }

  lemma NonEmptyCons(x: bytes, rest: seq<bytes>)
    ensures NonEmpty([x] + rest) == (if x == [] then [] else [x]) + NonEmpty(rest)
  {
    assert ([x] + rest)[1..] == rest;
  }

  lemma StopIsEnd(d: bytes, p: nat, e: nat)
    requires CodeAt(d, p) && StopsAt(d, p + 3, e)
    ensures Codes(d, p) == [p] + Codes(d, e)
    ensures Codes(d, e) == [] ==> e == |d|
    ensures Codes(d, e) != [] ==> p + 3 <= Codes(d, e)[0] <= |d| && EndBefore(d, p, Codes(d, e)[0]) == e
  {
    hide Codes;
    CodesAfter(d, p);
    NoCodesBetween(d, p + 3, e);
    FirstCodeAtStop(d, e);
    if Codes(d, e) != [] && CodeAt(d, e) && e > p + 3 {
      assert !LongCodeAt(d, e - 1);
    }
  }

  lemma FirstCodeAtStop(d: bytes, e: nat)
    requires e <= |d| && (e < |d| ==> CodeAt(d, e) || LongCodeAt(d, e))
    ensures Codes(d, e) == [] <==> e == |d|
    ensures Codes(d, e) != [] ==> Codes(d, e)[0] == if CodeAt(d, e) then e else e + 1
  {
    if e < |d| && !CodeAt(d, e) {
      assert Codes(d, e) == Codes(d, e + 1);
    }
  }

  lemma SegmentStep(d: bytes, p: nat, e: nat)
    requires CodeAt(d, p) && StopsAt(d, p + 3, e)
    ensures SplitFrom(d, p) == (if e > p + 3 then [d[p + 3..e]] else []) + SplitFrom(d, e)
  {
    hide Codes, CodeAt, EndBefore;
    StopIsEnd(d, p, e);
    CodesSpaced(d, p);
    CodesSpaced(d, e);
    assert Codes(d, p)[1..] == Codes(d, e);
    assert Segments(d, Codes(d, p)) == [d[p + 3..e]] + Segments(d, Codes(d, e));
    NonEmptyCons(d[p + 3..e], Segments(d, Codes(d, e)));
  }

  /** The inner loop: the first place from `from` on where a start code begins, or the end. */
  method FindEnd(nalData: bytes, nalStart: nat) returns (nalEnd: nat)
    requires nalStart <= |nalData|
    ensures StopsAt(nalData, nalStart, nalEnd)
  {
    nalEnd := |nalData|;
    var j := nalStart;
    while j + 3 <= |nalData|
      invariant nalStart <= j && nalEnd == |nalData|
      invariant forall k | nalStart <= k < j :: !CodeAt(nalData, k) && !LongCodeAt(nalData, k)
    {
      if nalData[j] == 0 && nalData[j + 1] == 0
         && (nalData[j + 2] == 1 || (j + 3 < |nalData| && nalData[j + 2] == 0 && nalData[j + 3] == 1)) {
        nalEnd := j;
        break;
      }
      j := j + 1;
    }
  }

  lemma SplitIsFromStart(d: bytes)
    ensures Split(d) == SplitFrom(d, 0)
  {}

  lemma SplitFromSame(d: bytes, i: nat, j: nat)
    requires i <= j && forall k | i <= k < j :: !CodeAt(d, k)
    ensures SplitFrom(d, i) == SplitFrom(d, j)
    ensures j >= |d| ==> SplitFrom(d, j) == []
  {
    NoCodesBetween(d, i, j);
  }

  /** No start code begins before `i`. */
  ghost predicate Leading(d: bytes, i: nat) {
    Codes(d, 0) == Codes(d, i) && (i > 0 ==> !LongCodeAt(d, i - 1))
  }

  lemma LeadingNext(d: bytes, i: nat)
    requires Leading(d, i) && !CodeAt(d, i) && !LongCodeAt(d, i)
    ensures Leading(d, i + 1)
  {
    NoCodesBetween(d, i, i + 1);
  }

  lemma LeadingEnds(d: bytes, i: nat)
    requires Leading(d, i) && i <= |d| && (i < |d| ==> CodeAt(d, i) || LongCodeAt(d, i))
    ensures LeadIn(d) == i
  {
    hide Codes;
    if i < |d| {
      var p := if CodeAt(d, i) then i else i + 1;
      NoCodesBetween(d, i, p);
      CodesAfter(d, p);
    } else {
      NoCodesBetween(d, i, |d|);
      CodesPastEnd(d);
    }
  }

  lemma CodesPastEnd(d: bytes)
    ensures Codes(d, |d|) == []
  {}

  /** One round of the outer loop: the segment after the start code at `i`. */
  lemma SplitStep(d: bytes, i: nat, start: nat, e: nat)
    requires if CodeAt(d, i) then start == i + 3 else LongCodeAt(d, i) && start == i + 4
    requires StopsAt(d, start, e)
    ensures SplitFrom(d, i) == (if e > start then [d[start..e]] else []) + SplitFrom(d, e)
  {
    hide SplitFrom;
    SplitFromSame(d, i, start - 3);
    SegmentStep(d, start - 3, e);
  }

  /** Cuts a byte stream into NAL units; `skipped` counts the runs of the skip branch. */
  method ExtractNals(nalData: bytes) returns (nals: seq<bytes>, ghost skipped: nat)
    ensures nals == Split(nalData)
    ensures skipped == LeadIn(nalData)
  {
    hide SplitFrom, Split, Leading, LeadIn, StopsAt;
    SplitIsFromStart(nalData);
    LeadingStarts(nalData);
    var n := |nalData|;
    nals, skipped := [], 0;
    var i := 0;
    ghost var found := false;
    while i < n
      invariant i <= n
      invariant SplitFrom(nalData, 0) == nals + SplitFrom(nalData, i)
      invariant !found ==> skipped == i && Leading(nalData, i)
      invariant found ==> skipped == LeadIn(nalData) && (i < n ==> CodeAt(nalData, i) || LongCodeAt(nalData, i))
      decreases n - i
    {
      var scLen := 0;
      if i + 3 <= n && nalData[i] == 0 && nalData[i + 1] == 0 && nalData[i + 2] == 1 {
        scLen := 3;
      } else if i + 4 <= n && nalData[i] == 0 && nalData[i + 1] == 0 && nalData[i + 2] == 0 && nalData[i + 3] == 1 {
        scLen := 4;
      } else {
        SplitFromSame(nalData, i, i + 1);
        LeadingNext(nalData, i);
        i, skipped := i + 1, skipped + 1;
        continue;
      }
      if !found { LeadingEnds(nalData, i); }
      found := true;

      var nalStart := i + scLen;
      var nalEnd := FindEnd(nalData, nalStart);
      SplitStep(nalData, i, nalStart, nalEnd);
      StopMeaning(nalData, nalStart, nalEnd);
      ghost var segment := if nalEnd > nalStart then [nalData[nalStart..nalEnd]] else [];
      SegmentTaken(nals, segment, SplitFrom(nalData, nalEnd));
      if nalEnd > nalStart {
        nals := nals + [nalData[nalStart..nalEnd]];
      }
      i := nalEnd;
    }
    if !found { LeadingEnds(nalData, n); }
    SplitFromSame(nalData, n, n);
  }

  lemma SegmentTaken(taken: seq<bytes>, segment: seq<bytes>, rest: seq<bytes>)
    ensures taken + segment + rest == taken + (segment + rest)
    ensures segment == [] ==> taken + segment == taken
  {}

  lemma LeadingStarts(d: bytes)
    ensures Leading(d, 0)
  {}

  lemma StopMeaning(d: bytes, from: nat, e: nat)
    requires StopsAt(d, from, e)
    ensures from <= e <= |d| && (e < |d| ==> CodeAt(d, e) || LongCodeAt(d, e))
  {}

  // ---- What splitting guarantees -----------------------------------------------------------

  /** No 00 00 01 inside. */
  ghost predicate Clean(nal: bytes) {
    forall i :: !CodeAt(nal, i)
  }

  lemma {:induction false} SegmentsClean(d: bytes, from: nat)
    ensures forall s | s in SplitFrom(d, from) :: s != [] && Clean(s)
    decreases |d| - from
  {
    CodesSpaced(d, from);
    if Codes(d, from) != [] {
      var p := Codes(d, from)[0];
      CodesMeaning(d, from, p);
      var e := StopFrom(d, p + 3);
      FirstCode(d, from);
      SegmentStep(d, p, e);
      SegmentsClean(d, e);
      forall i {:trigger CodeAt(d[p + 3..e], i)} ensures !CodeAt(d[p + 3..e], i) {
        assert CodeAt(d[p + 3..e], i) ==> CodeAt(d, p + 3 + i);
      }
    }
  }

  lemma {:induction false} FirstCode(d: bytes, from: nat)
    requires Codes(d, from) != []
    ensures Codes(d, from) == Codes(d, Codes(d, from)[0])
    decreases |d| - from
  {
    if !CodeAt(d, from) { FirstCode(d, from + 1); }
  }

  function StopFrom(d: bytes, from: nat): (e: nat)
    requires from <= |d|
    ensures StopsAt(d, from, e)
    decreases |d| - from
  {
    if from == |d| || CodeAt(d, from) || LongCodeAt(d, from) then from else StopFrom(d, from + 1)
  }

  /** Every NAL unit that splitting yields is non-empty and free of 00 00 01. */
  lemma SplitClean(d: bytes, nal: bytes)
    requires nal in Split(d)
    ensures nal != [] && Clean(nal)
  {
    SplitIsFromStart(d);
    SegmentsClean(d, 0);
  }

  // ---- Joining -----------------------------------------------------------------------------

  /** A NAL unit to be written with a four-byte (`long`) or three-byte start code. */
  datatype Unit = Unit(long: bool, nal: bytes)

  function CodeBytes(long: bool): bytes {
    if long then [0, 0, 0, 1] else [0, 0, 1]
  }

  function Join(units: seq<Unit>): bytes {
    if units == [] then [] else CodeBytes(units[0].long) + units[0].nal + Join(units[1..])
  }

  /** What splitting gives back for the first of `units`: its NAL unit, less a final zero byte when
      a three-byte start code follows. */
  function Received(units: seq<Unit>): bytes
    requires units != []
  {
    var nal := units[0].nal;
    if |units| > 1 && !units[1].long && nal != [] && nal[|nal| - 1] == 0 then nal[..|nal| - 1] else nal
  }

  function AllReceived(units: seq<Unit>): seq<bytes> {
    if units == [] then [] else [Received(units)] + AllReceived(units[1..])
  }

  function Nals(units: seq<Unit>): seq<bytes> {
    if units == [] then [] else [units[0].nal] + Nals(units[1..])
  }

  /** A clean NAL unit `nal` stands between the code at `p` and the start code or end at `next`. */
  ghost predicate Layout(d: bytes, p: nat, nal: bytes, next: nat) {
    && CodeAt(d, p) && next == p + 3 + |nal| && next <= |d|
    && d[p + 3..next] == nal && Clean(nal)
    && (next < |d| ==> CodeAt(d, next) || LongCodeAt(d, next))
  }

  lemma NoInnerCode(d: bytes, p: nat, nal: bytes, next: nat)
    requires Layout(d, p, nal, next)
    ensures forall i | p + 3 <= i < next :: !CodeAt(d, i)
  {
    forall i | p + 3 <= i < next ensures !CodeAt(d, i) {
      if i + 3 <= next {
        assert !CodeAt(nal, i - (p + 3));
        assert d[i] == nal[i - (p + 3)] && d[i + 1] == nal[i + 1 - (p + 3)] && d[i + 2] == nal[i + 2 - (p + 3)];
      }
    }
  }

  lemma LayoutStop(d: bytes, p: nat, nal: bytes, next: nat, e: nat)
    requires Layout(d, p, nal, next)
    requires e == if next < |d| && CodeAt(d, next) && nal != [] && nal[|nal| - 1] == 0 then next - 1 else next
    ensures StopsAt(d, p + 3, e) && CodeAt(d, p) && d[p + 3..next] == nal && next <= |d|
  {
    NoInnerCode(d, p, nal, next);
    assert nal != [] ==> d[next - 1] == nal[|nal| - 1];
  }

  /** The first unit of a joined stream, seen at its place in a longer byte string. */
  lemma JoinLayout(d: bytes, at: nat, units: seq<Unit>)
    requires units != [] && at <= |d| && d[at..] == Join(units) && Clean(units[0].nal)
    ensures var p := at + (if units[0].long then 1 else 0);
            var next := p + 3 + |units[0].nal|;
            && Layout(d, p, units[0].nal, next)
            && d[next..] == Join(units[1..])
            && (units[0].long ==> LongCodeAt(d, at) && !CodeAt(d, at))
            && (|units| > 1 <==> next < |d|)
            && (|units| > 1 ==> (CodeAt(d, next) <==> !units[1].long))
  {
    hide CodeAt, LongCodeAt, Clean, Join, Layout, CodeBytes;
    var code, nal, rest := CodeBytes(units[0].long), units[0].nal, Join(units[1..]);
    var next := at + |code| + |nal|;
    JoinFirst(units);
    StartOfJoin(d, at, units);
    LongHoldsShort(d, at);
    JoinNotEmpty(units[1..]);
    JoinStart(d, at, code, nal, rest);
    if |units| > 1 { StartOfJoin(d, next, units[1..]); }
    MakeLayout(d, next - 3 - |nal|, nal, next);
  }

  lemma JoinFirst(units: seq<Unit>)
    requires units != []
    ensures Join(units) == CodeBytes(units[0].long) + units[0].nal + Join(units[1..])
    ensures |CodeBytes(units[0].long)| == if units[0].long then 4 else 3
  {}

  lemma MakeLayout(d: bytes, p: nat, nal: bytes, next: nat)
    requires CodeAt(d, p) && next == p + 3 + |nal| <= |d| && d[p + 3..next] == nal && Clean(nal)
    requires next < |d| ==> CodeAt(d, next) || LongCodeAt(d, next)
    ensures Layout(d, p, nal, next)
  {}

  lemma LongHoldsShort(d: bytes, at: nat)
    ensures LongCodeAt(d, at) ==> CodeAt(d, at + 1)
  {}

  lemma JoinNotEmpty(units: seq<Unit>)
    ensures Join(units) == [] <==> units == []
  {}

  lemma JoinStart(d: bytes, at: nat, code: bytes, nal: bytes, rest: bytes)
    requires at <= |d| && d[at..] == code + nal + rest
    ensures d[at..at + |code|] == code && d[at + |code|..at + |code| + |nal|] == nal
    ensures d[at + |code| + |nal|..] == rest
  {
    var t := d[at..];
    assert t[..|code|] == code && t[|code|..|code| + |nal|] == nal && t[|code| + |nal|..] == rest;
  }

  lemma StartOfJoin(d: bytes, at: nat, units: seq<Unit>)
    requires units != [] && at <= |d| && d[at..] == Join(units)
    ensures if units[0].long then LongCodeAt(d, at) && !CodeAt(d, at) else CodeAt(d, at)
  {
    var t := d[at..];
    var code := CodeBytes(units[0].long);
    assert t[..|code|] == code;
    assert forall i | 0 <= i < |code| :: d[at + i] == code[i];
    assert d[at] == code[0] && d[at + 1] == code[1] && d[at + 2] == code[2];
  }

  lemma ShorterSlice(d: bytes, from: nat, e: nat, next: nat)
    requires from <= e <= next <= |d|
    ensures d[from..e] == d[from..next][..e - from]
  {}

  lemma ReceivedIsPrefix(units: seq<Unit>)
    requires units != []
    ensures |Received(units)| <= |units[0].nal| && Received(units) == units[0].nal[..|Received(units)|]
  {}

  /** The start of a stream from `at` on, when all its NAL units are clean. */
  lemma {:induction false} SplitJoinFrom(d: bytes, at: nat, units: seq<Unit>)
    requires at <= |d| && d[at..] == Join(units) && forall u | u in units :: Clean(u.nal)
    ensures SplitFrom(d, at) == NonEmpty(AllReceived(units))
    decreases |units|
  {
    hide SplitFrom, CodeAt, LongCodeAt, Clean, Join, StopsAt, Codes, Layout;
    if units == [] {
      JoinNotEmpty(units);
      SplitFromSame(d, at, at);
    } else {
      assert units[0] in units;
      JoinLayout(d, at, units);
      var p := at + (if units[0].long then 1 else 0);
      var next := p + 3 + |units[0].nal|;
      var e := p + 3 + |Received(units)|;
      LayoutStop(d, p, units[0].nal, next, e);
      SplitFromSame(d, at, p);
      SegmentStep(d, p, e);
      NoInnerCode(d, p, units[0].nal, next);
      SplitFromSame(d, e, next);
      SplitJoinFrom(d, next, units[1..]);
      ReceivedIsPrefix(units);
      ShorterSlice(d, p + 3, e, next);
      NonEmptyCons(Received(units), AllReceived(units[1..]));
    }
  }

  /** Splitting a joined stream of clean NAL units gives back each of them, except that a final
      zero byte is lost to a following three-byte start code and empty ones disappear. */
  lemma SplitJoin(units: seq<Unit>)
    requires forall u | u in units :: Clean(u.nal)
    ensures Split(Join(units)) == NonEmpty(AllReceived(units))
  {
    var d := Join(units);
    assert d[0..] == d;
    SplitIsFromStart(d);
    SplitJoinFrom(d, 0, units);
  }

  // ---- The exact condition for the round trip ------------------------------------------------

  /** Each NAL unit is non-empty and clean, and does not end in zero before a three-byte code. */
  ghost predicate Recoverable(units: seq<Unit>) {
    forall k | 0 <= k < |units| ::
      && units[k].nal != [] && Clean(units[k].nal)
      && (k + 1 < |units| && !units[k + 1].long ==> units[k].nal[|units[k].nal| - 1] != 0)
  }

  function TotalSize(nals: seq<bytes>): nat {
    if nals == [] then 0 else |nals[0]| + TotalSize(nals[1..])
  }

  lemma TotalSizeCons(x: bytes, rest: seq<bytes>)
    ensures TotalSize([x] + rest) == |x| + TotalSize(rest)
  {
    assert ([x] + rest)[1..] == rest;
  }

  lemma {:induction false} NonEmptySize(nals: seq<bytes>)
    ensures TotalSize(NonEmpty(nals)) == TotalSize(nals)
    ensures (forall n | n in nals :: n != []) ==> NonEmpty(nals) == nals
    ensures forall n | n in NonEmpty(nals) :: n in nals && n != []
  {
    if nals != [] {
      var x, rest := nals[0], nals[1..];
      NonEmptySize(rest);
      TotalSizeCons(x, NonEmpty(rest));
      assert nals == [x] + rest;
      assert forall n | n in rest :: n in nals;
      assert x in nals;
      assert NonEmpty(nals) == if x == [] then NonEmpty(rest) else [x] + NonEmpty(rest);
    }
  }

  lemma {:induction false} ReceivedSize(units: seq<Unit>)
    ensures TotalSize(AllReceived(units)) <= TotalSize(Nals(units))
    ensures Recoverable(units) ==> AllReceived(units) == Nals(units)
    ensures TotalSize(AllReceived(units)) == TotalSize(Nals(units))
            && (forall u | u in units :: u.nal != [] && Clean(u.nal))
            ==> Recoverable(units)
  {
    if units != [] {
      ReceivedSize(units[1..]);
      assert AllReceived(units)[1..] == AllReceived(units[1..]);
      assert Nals(units)[1..] == Nals(units[1..]);
      assert Recoverable(units) ==> Recoverable(units[1..]) && Received(units) == units[0].nal by {
        assert forall k | 0 <= k < |units| - 1 :: units[1..][k] == units[k + 1];
      }
    }
  }

  /** Join and split is the identity exactly on the recoverable lists. */
  lemma JoinRoundTrip(units: seq<Unit>)
    ensures Split(Join(units)) == Nals(units) <==> Recoverable(units)
  {
    hide Split, Join, Clean;
    ReceivedSize(units);
    NonEmptySize(AllReceived(units));
    if Recoverable(units) {
      SplitJoin(units);
      NalsNonEmpty(units);
    }
    if Split(Join(units)) == Nals(units) {
      forall u | u in units ensures u.nal != [] && Clean(u.nal) {
        NalOf(units, u);
        SplitClean(Join(units), u.nal);
      }
      SplitJoin(units);
    }
  }

  lemma {:induction false} NalOf(units: seq<Unit>, u: Unit)
    requires u in units
    ensures u.nal in Nals(units)
  {
    if u != units[0] { NalOf(units[1..], u); }
  }

  lemma {:induction false} NalsNonEmpty(units: seq<Unit>)
    requires forall u | u in units :: u.nal != []
    ensures forall n | n in Nals(units) :: n != []
  {
    if units != [] { NalsNonEmpty(units[1..]); }
  }

  // ---- Every byte string is a joined stream ----------------------------------------------------

  /** Bytes before the first start code belong to no unit. */
  lemma LeadInIgnored(lead: bytes, units: seq<Unit>)
    requires Clean(lead) && forall u | u in units :: Clean(u.nal)
    ensures Split(lead + Join(units)) == NonEmpty(AllReceived(units)) == Split(Join(units))
  {
    hide SplitFrom, Join, Codes;
    var d := lead + Join(units);
    assert d[|lead|..] == Join(units);
    JoinNotEmpty(units);
    if units != [] { StartOfJoin(d, |lead|, units); }
    forall k | 0 <= k < |lead| ensures !CodeAt(d, k) {
      if k + 3 <= |lead| {
        assert !CodeAt(lead, k);
        assert d[k] == lead[k] && d[k + 1] == lead[k + 1] && d[k + 2] == lead[k + 2];
      }
    }
    SplitIsFromStart(d);
    SplitFromSame(d, 0, |lead|);
    SplitJoinFrom(d, |lead|, units);
    SplitJoin(units);
  }

  /** The form in which a zero byte before 00 00 01 always belongs to the start code. */
  ghost predicate Canonical(units: seq<Unit>) {
    forall k | 0 <= k < |units| ::
      && Clean(units[k].nal)
      && (k + 1 < |units| && !units[k + 1].long && units[k].nal != [] ==> units[k].nal[|units[k].nal| - 1] != 0)
  }

  lemma CanonicalCons(u: Unit, rest: seq<Unit>)
    requires Clean(u.nal) && Canonical(rest)
    requires rest != [] && !rest[0].long && u.nal != [] ==> u.nal[|u.nal| - 1] != 0
    ensures Canonical([u] + rest)
  {
    hide Clean;
    var units := [u] + rest;
    forall k | 0 <= k < |units|
      ensures Clean(units[k].nal)
      ensures k + 1 < |units| && !units[k + 1].long && units[k].nal != [] ==> units[k].nal[|units[k].nal| - 1] != 0
    {
      if k > 0 { assert units[k] == rest[k - 1] && (k + 1 < |units| ==> units[k + 1] == rest[k]); }
    }
  }

  lemma SliceClean(d: bytes, from: nat, e: nat)
    requires from <= e <= |d| && forall i | from <= i < e :: !CodeAt(d, i)
    ensures Clean(d[from..e])
  {
    forall i {:trigger CodeAt(d[from..e], i)} ensures !CodeAt(d[from..e], i) {
      assert CodeAt(d[from..e], i) ==> CodeAt(d, from + i);
    }
  }

  lemma TakeUnit(d: bytes, i: nat, start: nat, e: nat, rest: bytes)
    requires if CodeAt(d, i) then start == i + 3 else LongCodeAt(d, i) && start == i + 4
    requires start <= e <= |d| && d[e..] == rest
    ensures d[i..] == CodeBytes(!CodeAt(d, i)) + d[start..e] + rest
  {
    assert d[i..] == d[i..start] + d[start..e] + d[e..];
  }

  lemma {:induction false} DecomposeFrom(d: bytes, i: nat) returns (units: seq<Unit>)
    requires i <= |d| && (i < |d| ==> CodeAt(d, i) || LongCodeAt(d, i))
    ensures d[i..] == Join(units) && Canonical(units)
    ensures SplitFrom(d, i) == NonEmpty(Nals(units))
    ensures units == [] <==> i == |d|
    ensures units != [] ==> (units[0].long <==> !CodeAt(d, i))
    decreases |d| - i
  {
    hide SplitFrom, Codes, Clean;
    if i == |d| {
      units := [];
      SplitFromSame(d, i, i);
    } else {
      var start := if CodeAt(d, i) then i + 3 else i + 4;
      var e := StopFrom(d, start);
      var rest := DecomposeFrom(d, e);
      var u := Unit(!CodeAt(d, i), d[start..e]);
      SliceClean(d, start, e);
      if rest != [] && !rest[0].long && u.nal != [] {
        assert !LongCodeAt(d, e - 1);
        assert u.nal[|u.nal| - 1] == d[e - 1];
      }
      CanonicalCons(u, rest);
      TakeUnit(d, i, start, e, Join(rest));
      SplitStep(d, i, start, e);
      units := [u] + rest;
      assert units[1..] == rest;
      NonEmptyCons(u.nal, Nals(rest));
    }
  }

  /** Every byte string is some bytes in which no start code begins, followed by units with their start codes, and
      splitting yields exactly the non-empty ones of these. */
  lemma Decompose(d: bytes) returns (lead: bytes, units: seq<Unit>)
    ensures d == lead + Join(units) && |lead| == LeadIn(d) && Canonical(units)
    ensures forall i | 0 <= i < |lead| :: !CodeAt(d, i) && !LongCodeAt(d, i)
    ensures Split(d) == NonEmpty(Nals(units))
  {
    hide SplitFrom, Codes, LeadIn, Canonical;
    var i := StopFrom(d, 0);
    lead := d[..i];
    units := DecomposeFrom(d, i);
    SplitIsFromStart(d);
    SplitFromSame(d, 0, i);
    NoCodesBetween(d, 0, i);
    LeadingEnds(d, i);
  }
}
