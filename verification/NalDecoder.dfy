/** The player's feed: each received NAL unit is pushed with a four-byte start code.
    Main results: what is fed splits back into the received list, whatever the server's
    stream was, and equals that stream when all its start codes were long. */
module NalDecoder {
  import opened Bytes
  import opened AnnexB

  /** The buffer pushed for one NAL unit; an empty one is not pushed. */
  function Pushed(nal: bytes): bytes {
    if nal == [] then [] else [0, 0, 0, 1] + nal
  }

  function Feed(nals: seq<bytes>): bytes {
    if nals == [] then [] else Pushed(nals[0]) + Feed(nals[1..])
  }

  class NalDecoderPipeline {
    var running: bool
    var hasSource: bool
    /** The concatenation of the buffers handed to the decoder so far. */
    var fed: bytes

    method PushNal(nal: bytes)
      modifies this`fed
      ensures fed == if running && hasSource then old(fed) + Pushed(nal) else old(fed)
    {
      if !running || nal == [] { return; }
      if !hasSource { return; }
      var buf := new byte[4 + |nal|];
      buf[0], buf[1], buf[2], buf[3] := 0, 0, 0, 1;
      forall i | 0 <= i < |nal| { buf[4 + i] := nal[i]; }
      assert buf[..] == [0, 0, 0, 1] + nal;
      fed := fed + buf[..];
    }
  }

  function LongUnits(nals: seq<bytes>): seq<Unit> {
    if nals == [] then [] else [Unit(true, nals[0])] + LongUnits(nals[1..])
  }

  lemma {:induction false} FeedIsJoin(nals: seq<bytes>)
    requires forall n | n in nals :: n != []
    ensures Feed(nals) == Join(LongUnits(nals)) && Nals(LongUnits(nals)) == nals
  {
    if nals != [] {
      assert nals[0] in nals;
      assert forall n | n in nals[1..] :: n in nals;
      FeedIsJoin(nals[1..]);
      assert LongUnits(nals)[1..] == LongUnits(nals[1..]);
    }
  }

  lemma {:induction false} LongUnitsRecoverable(nals: seq<bytes>)
    requires forall n | n in nals :: n != [] && Clean(n)
    ensures Recoverable(LongUnits(nals)) && forall u | u in LongUnits(nals) :: u.long
  {
    if nals != [] {
      var rest := LongUnits(nals[1..]);
      assert nals[0] in nals;
      assert forall n | n in nals[1..] :: n in nals;
      LongUnitsRecoverable(nals[1..]);
      var units := LongUnits(nals);
      assert units == [Unit(true, nals[0])] + rest;
      forall k | 0 <= k < |units|
        ensures units[k].nal != [] && Clean(units[k].nal) && units[k].long
      {
        if k > 0 { assert units[k] == rest[k - 1]; }
      }
    }
  }

  /** Splitting what the decoder is fed gives the same NAL units, for every original stream. */
  lemma RefeedStable(d: bytes)
    ensures Split(Feed(Split(d))) == Split(d)
  {
    hide Split, Clean, Recoverable;
    var nals := Split(d);
    forall n | n in nals ensures n != [] && Clean(n) {
      SplitClean(d, n);
    }
    FeedIsJoin(nals);
    LongUnitsRecoverable(nals);
    JoinRoundTrip(LongUnits(nals));
  }

  /** A stream written with long start codes only is reproduced byte for byte. */
  lemma RefeedReproduces(nals: seq<bytes>)
    requires forall n | n in nals :: n != [] && Clean(n)
    ensures Feed(Split(Join(LongUnits(nals)))) == Join(LongUnits(nals))
  {
    hide Split, Clean, Recoverable;
    LongUnitsRecoverable(nals);
    JoinRoundTrip(LongUnits(nals));
    FeedIsJoin(nals);
  }
}
