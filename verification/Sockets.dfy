/** Stream sockets: sends and receives transfer an arbitrary part of what is asked for. */
module Sockets {
  import opened Bytes

  /** The sending side of a connection. */
  class OutSocket {
    /** Every byte accepted so far. */
    var sent: bytes
    /** No send has failed so far. */
    ghost var clean: bool

    constructor ()
      ensures sent == [] && clean
    {
      sent, clean := [], true;
    }

    /** Takes over some of the `len` bytes from `at` on, or fails with a result of at most zero. */
    method Send(buf: array<byte>, at: nat, len: nat) returns (n: int)
      requires at + len <= buf.Length
      modifies this
      ensures n <= len
      ensures sent == if n > 0 then old(sent) + buf[at..at + n] else old(sent)
      ensures clean == (old(clean) && n > 0)
    {
      n :| -1 <= n <= len;
      if n > 0 { sent := sent + buf[at..at + n]; }
      clean := clean && n > 0;
    }

    /** The send loop: everything, unless a send fails. */
    method SendAll(buf: array<byte>, len: nat) returns (ok: bool)
      requires len <= buf.Length
      modifies this
      ensures old(sent) <= sent <= old(sent) + buf[..len]
      ensures ok ==> sent == old(sent) + buf[..len] && clean == old(clean)
      ensures !ok ==> !clean
    {
      var done := 0;
      while done < len
        invariant done <= len && sent == old(sent) + buf[..done] && clean == old(clean)
      {
        var n := Send(buf, done, len - done);
        if n <= 0 {
          assert buf[..len] == buf[..done] + buf[done..len];
          return false;
        }
        assert buf[..done + n] == buf[..done] + buf[done..done + n];
        done := done + n;
      }
      return true;
    }
  }

  /** `now` is `was` with the first `n` bytes of the stream in place from `at` on. */
  ghost predicate Filled(was: bytes, at: nat, stream: bytes, n: nat, now: bytes) {
    at + n <= |was| && n <= |stream| && now == was[..at] + stream[..n] + was[at + n..]
  }

  lemma FilledNone(was: bytes, at: nat, stream: bytes)
    requires at <= |was|
    ensures Filled(was, at, stream, 0, was) && stream[0..] == stream
  {}

  lemma FilledMore(was: bytes, at: nat, stream: bytes, n: nat, before: bytes, m: nat, now: bytes)
    requires Filled(was, at, stream, n, before) && at + n + m <= |was| && n + m <= |stream|
    requires now == before[..at + n] + stream[n..][..m] + before[at + n + m..]
    ensures Filled(was, at, stream, n + m, now) && stream[n..][m..] == stream[n + m..]
  {}

  lemma FilledParts(was: bytes, at: nat, stream: bytes, n: nat, now: bytes, len: nat)
    requires Filled(was, at, stream, n, now) && n <= len && at + len <= |was|
    ensures |now| == |was| && now[..at] == was[..at] && now[at + len..] == was[at + len..]
    ensures now[at..at + n] == stream[..n]
  {}

  /** The receiving side of a connection. */
  class InSocket {
    /** The bytes that the peer's stream still holds. */
    var pending: bytes
    /** No receive has failed while bytes were left. */
    ghost var clean: bool

    constructor (stream: bytes)
      ensures pending == stream && clean
    {
      pending, clean := stream, true;
    }

    /** Delivers some of the pending bytes, or fails with a result of at most zero. */
    method Recv(buf: array<byte>, at: nat, len: nat) returns (n: int)
      requires at + len <= buf.Length
      modifies this, buf
      ensures n <= len && n <= |old(pending)|
      ensures n > 0 ==> pending == old(pending)[n..] && clean == old(clean)
                        && buf[..] == old(buf[..])[..at] + old(pending)[..n] + old(buf[..])[at + n..]
      ensures n <= 0 ==> pending == old(pending) && buf[..] == old(buf[..])
                         && clean == (old(clean) && pending == [])
    {
      var most := if len < |pending| then len else |pending|;
      n :| -1 <= n <= most;
      if n <= 0 {
        clean := clean && pending == [];
        return;
      }
      forall i | 0 <= i < n { buf[at + i] := pending[i]; }
      pending := pending[n..];
    }

    /** Receives exactly `len` bytes from `at` on, or fails. */
    method RecvAll(buf: array<byte>, at: nat, len: nat) returns (ok: bool)
      requires at + len <= buf.Length
      modifies this, buf
      ensures buf[..at] == old(buf[..at]) && buf[at + len..] == old(buf[at + len..])
      ensures exists n :: 0 <= n <= |old(pending)| && pending == old(pending)[n..]
      ensures ok ==> |old(pending)| >= len && clean == old(clean)
                     && buf[at..at + len] == old(pending)[..len] && pending == old(pending)[len..]
      ensures !ok ==> (clean ==> old(clean) && |old(pending)| < len)
    {
      hide Filled;
      ghost var was, start := pending, buf[..];
      FilledNone(start, at, was);
      var done := 0;
      while done < len
        invariant done <= len && done <= |was| && pending == was[done..] && clean == old(clean)
        invariant Filled(start, at, was, done, buf[..])
      {
        ghost var before := buf[..];
        var n := Recv(buf, at + done, len - done);
        if n <= 0 {
          FilledParts(start, at, was, done, buf[..], len);
          return false;
        }
        FilledMore(start, at, was, done, before, n, buf[..]);
        done := done + n;
      }
      FilledParts(start, at, was, done, buf[..], len);
      return true;
    }
  }
}
