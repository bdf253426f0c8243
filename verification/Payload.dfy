/** RTP payloads for H.264 (RFC 6184): the server's packetizer and its properties. */
module Payload {
  import opened Bytes

  const MAX_RTP_PAYLOAD := 1400

  /** The largest fragment body of an FU-A payload. */
  const MAX_BODY := MAX_RTP_PAYLOAD - 2

  /** Low five bits of a NAL header: the NAL unit type. */
  function TypeOf(header: byte): byte { header % 32 }

  /** F and NRI bits of `header` with type 28: `(header & 0xE0) | 28`. */
  function FuIndicator(header: byte): byte { header / 32 * 32 + 28 }

  /** Type bits of `header` with the S and E bits on top. */
  function FuHeader(header: byte, first: bool, last: bool): byte {
    TypeOf(header) + (if first then 0x80 else 0) + (if last then 0x40 else 0)
  }

  function Fragments(header: byte, body: bytes, first: bool): seq<bytes>
    decreases |body|
  {
    if body == [] then []
    else
      var n := if |body| < MAX_BODY then |body| else MAX_BODY;
      [[FuIndicator(header), FuHeader(header, first, n == |body|)] + body[..n]] + Fragments(header, body[n..], false)
  }

  /** The payloads that carry one NAL unit. */
  function Payloads(nal: bytes): seq<bytes> {
    if |nal| <= MAX_RTP_PAYLOAD then [nal] else Fragments(nal[0], nal[1..], true)
  }

  function FragmentCount(size: nat): nat { (size + MAX_BODY - 1) / MAX_BODY }

  lemma CountStep(size: nat)
    ensures size == 0 ==> FragmentCount(size) == 0
    ensures 0 < size <= MAX_BODY ==> FragmentCount(size) == 1
    ensures size > MAX_BODY ==> FragmentCount(size) == 1 + FragmentCount(size - MAX_BODY)
  {}

  lemma ShiftedSlice(s: bytes, m: nat, from: nat, to: nat)
    requires m <= |s| && from <= to <= |s| - m
    ensures s[m..][from..to] == s[m + from..m + to]
  {}

  /** Where fragment `k` of a body ends. */
  function FragmentEnd(size: nat, k: nat): nat {
    if (k + 1) * MAX_BODY < size then (k + 1) * MAX_BODY else size
  }

  /** Fragment `k` in closed form: both header bytes and the slice of the body. */
  lemma {:induction false} FragmentAt(header: byte, body: bytes, first: bool, k: nat)
    requires k < FragmentCount(|body|)
    ensures |Fragments(header, body, first)| == FragmentCount(|body|)
    ensures k * MAX_BODY < FragmentEnd(|body|, k) <= |body|
    ensures Fragments(header, body, first)[k]
         == [FuIndicator(header), FuHeader(header, first && k == 0, k == FragmentCount(|body|) - 1)]
            + body[k * MAX_BODY..FragmentEnd(|body|, k)]
    decreases |body|
  {
    hide FragmentCount, FuIndicator, FuHeader;
    CountStep(|body|);
    if |body| > MAX_BODY {
      var rest := body[MAX_BODY..];
      CountStep(|rest|);
      FragmentAt(header, rest, false, if k == 0 then 0 else k - 1);
      if k > 0 {
        ShiftedSlice(body, MAX_BODY, (k - 1) * MAX_BODY, FragmentEnd(|rest|, k - 1));
      }
    }
  }

  predicate StartBit(p: bytes) requires |p| >= 2 { p[1] / 128 == 1 }
  predicate EndBit(p: bytes) requires |p| >= 2 { p[1] / 64 % 2 == 1 }

  /** RFC 6184 section 5.8 for a long NAL unit: at least two fragments, none over 1400 bytes, S on
      the first only, E on the last only. */
  lemma FragmentShape(nal: bytes, k: nat)
    requires |nal| > MAX_RTP_PAYLOAD && k < |Payloads(nal)|
    ensures |Payloads(nal)| == (|nal| - 1 + 1397) / 1398 >= 2
    ensures var p := Payloads(nal)[k];
            && 2 < |p| <= 1400
            && p[0] % 32 == 28 && p[0] / 32 == nal[0] / 32 && p[1] % 32 == nal[0] % 32 && p[1] / 32 % 2 == 0
            && (p[1] >= 128 <==> k == 0) && (p[1] / 64 % 2 == 1 <==> k == |Payloads(nal)| - 1)
            && p[2..] == nal[1..][1398 * k..if k == |Payloads(nal)| - 1 then |nal| - 1 else 1398 * (k + 1)]
  {
    FragmentAt(nal[0], nal[1..], true, 0);
    FragmentAt(nal[0], nal[1..], true, k);
  }

  /** The bodies of a list of FU-A payloads, end to end. */
  function Bodies(ps: seq<bytes>): bytes {
    if ps == [] then [] else (if |ps[0]| >= 2 then ps[0][2..] else []) + Bodies(ps[1..])
  }

  /** Header byte and fragment bodies rebuild the NAL unit. */
  lemma {:induction false} BodiesOfFragments(header: byte, body: bytes, first: bool)
    ensures Bodies(Fragments(header, body, first)) == body
    decreases |body|
  {
    if body != [] {
      var n := if |body| < MAX_BODY then |body| else MAX_BODY;
      BodiesOfFragments(header, body[n..], false);
      var f := [FuIndicator(header), FuHeader(header, first, n == |body|)] + body[..n];
      assert Fragments(header, body, first) == [f] + Fragments(header, body[n..], false);
      assert f[2..] == body[..n];
    }
  }

  lemma {:induction false} BodiesConcat(a: seq<bytes>, b: seq<bytes>)
    ensures Bodies(a + b) == Bodies(a) + Bodies(b)
  {
    if a == [] {
      assert a + b == b;
    } else {
      assert (a + b)[1..] == a[1..] + b;
      BodiesConcat(a[1..], b);
    }
  }

  lemma SliceBoth(s: bytes, m: nat, n: nat)
    requires m + n <= |s|
    ensures s[..m] + s[m..][..n] == s[..m + n]
  {}

  lemma {:induction false} BodiesOfPrefix(header: byte, body: bytes, first: bool, k: nat)
    requires k < |Fragments(header, body, first)|
    ensures k * MAX_BODY < |body|
    ensures Bodies(Fragments(header, body, first)[..k]) == body[..k * MAX_BODY]
    decreases |body|
  {
    if k > 0 {
      var f := [FuIndicator(header), FuHeader(header, first, MAX_BODY == |body|)] + body[..MAX_BODY];
      var rest := Fragments(header, body[MAX_BODY..], false);
      BodiesOfPrefix(header, body[MAX_BODY..], false, k - 1);
      assert Fragments(header, body, first)[..k] == [f] + rest[..k - 1];
      assert f[2..] == body[..MAX_BODY];
      SliceBoth(body, MAX_BODY, (k - 1) * MAX_BODY);
    }
  }

  /** What the first `k` fragments of a long NAL unit carry, and what the others do. */
  lemma BodiesSplit(nal: bytes, k: nat)
    requires |nal| > MAX_RTP_PAYLOAD && k < |Payloads(nal)|
    ensures 1 + k * MAX_BODY < |nal|
    ensures [nal[0]] + Bodies(Payloads(nal)[..k]) == nal[..1 + k * MAX_BODY]
    ensures Bodies(Payloads(nal)[k..]) == nal[1 + k * MAX_BODY..]
  {
    hide Fragments, Bodies;
    var ps, body := Payloads(nal), nal[1..];
    BodiesOfPrefix(nal[0], body, true, k);
    BodiesOfFragments(nal[0], body, true);
    BodiesConcat(ps[..k], ps[k..]);
    assert ps[..k] + ps[k..] == ps;
    assert body[..k * MAX_BODY] + Bodies(ps[k..]) == body;
    assert Bodies(ps[k..]) == body[k * MAX_BODY..];
  }

  lemma FragmentsRebuild(nal: bytes)
    requires |nal| > MAX_RTP_PAYLOAD
    ensures [nal[0]] + Bodies(Payloads(nal)) == nal
  {
    BodiesOfFragments(nal[0], nal[1..], true);
  }

  /** No payload is empty or over 1400 bytes, and a unit of up to 1400 bytes is its own payload. */
  lemma PayloadSizes(nal: bytes)
    requires nal != []
    ensures Payloads(nal) != [] && forall p | p in Payloads(nal) :: 0 < |p| <= 1400
    ensures Payloads(nal) == [nal] <==> |nal| <= 1400
  {
    if |nal| > MAX_RTP_PAYLOAD {
      FragmentAt(nal[0], nal[1..], true, 0);
      forall p | p in Payloads(nal) ensures 0 < |p| <= MAX_RTP_PAYLOAD {
        var k :| 0 <= k < |Payloads(nal)| && Payloads(nal)[k] == p;
        FragmentShape(nal, k);
      }
    }
  }
}
