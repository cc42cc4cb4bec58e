/**
 * The loops of the C++ socket over a transport that takes and gives as little as it likes at a time:
 * `write`, `read_raw` and `read_until`.
 */
module Socket {
  import opened Bytes
  import opened Boundary
  import opened Session

  class LinuxSocket {
    var isOpen: bool
    /** Bytes the peer has sent and nobody has read; after them the transport ends or fails. */
    var incoming: seq<byte>
    var out: Output

    constructor (incoming: seq<byte>, out: Output)
      ensures isOpen && this.incoming == incoming && this.out == out
    {
      isOpen, this.incoming, this.out := true, incoming, out;
    }

    /** `send` or `SSL_write`: any positive number of the bytes offered, or 0 for a failure. */
    method Send(data: seq<byte>) returns (n: nat)
      requires data != []
      modifies this`out
      ensures n <= |data| && Write(old(out), data[..n]) == (out, true)
      ensures n == 0 <==> old(out).capacity == Some(0)
    {
      var room := if out.capacity.None? || out.capacity.value > |data| then |data| else out.capacity.value;
      if room == 0 {
        assert data[..0] == [] && out.bytes + [] == out.bytes;
        return 0;
      }
      n :| 1 <= n <= room;
      var r := Write(out, data[..n]);
      out := r.0;
    }

    /** `recv` or `SSL_read`: any positive number of bytes up to `size`, or none at the end of the stream. */
    method Receive(size: nat) returns (data: seq<byte>)
      requires size > 0
      modifies this`incoming
      ensures |data| <= size && old(incoming) == data + incoming
      ensures data == [] <==> old(incoming) == []
    {
      if incoming == [] {
        return [];
      }
      var n :| 1 <= n <= size && n <= |incoming|;
      data := incoming[..n];
      incoming := incoming[n..];
    }

    /**
     * `write`: however the transport cuts it up, every byte goes out once and in order, or the exact
     * prefix that did is reported with an error.
     */
    method WriteAll(data: seq<byte>) returns (total: nat, failed: bool)
      modifies this`out
      ensures total <= |data|
      ensures old(isOpen) ==> (out, !failed) == Write(old(out), data)
      ensures old(isOpen) ==> out.bytes == old(out).bytes + data[..total] && (failed <==> total < |data|)
      ensures !old(isOpen) ==> failed && total == 0 && out == old(out)
    {
      if !isOpen {
        return 0, true;
      }
      total := 0;
      ghost var start := out;
      assert data[..0] == [] && start.bytes + [] == start.bytes;
      while total < |data|
        invariant total <= |data| && Write(start, data[..total]) == (out, true)
        decreases |data| - total
      {
        var n := Send(data[total..]);
        WriteTwice(start, data, total, n);
        if n == 0 {
          FullStops(start, data, total);
          return total, true;
        }
        total := total + n;
      }
      assert data[..total] == data;
      return total, false;
    }

    /** `read_raw`: all of `size` bytes if `exact`, at least one otherwise, or an error with what there was. */
    method ReadRaw(size: nat, exact: bool) returns (data: seq<byte>, failed: bool)
      modifies this`incoming
      ensures old(incoming) == data + incoming && |data| <= size
      ensures exact ==> (failed <==> |old(incoming)| < size)
      ensures exact ==> if failed then incoming == [] else |data| == size
      ensures !exact && size > 0 ==> (failed <==> old(incoming) == []) && (!failed ==> |data| > 0)
    {
      data, failed := [], false;
      while |data| < size
        invariant |data| <= size && old(incoming) == data + incoming
        invariant !exact ==> data == []
        decreases size - |data|
      {
        ghost var before := data;
        var piece := Receive(size - |data|);
        if piece == [] {
          return data, true;
        }
        data := data + piece;
        if !exact {
          break;
        }
      }
    }

    /**
     * `read_until`: appends to the buffer up to the first point where it ends in the delimiter, whatever
     * pieces the bytes arrive in. From an empty buffer this consumes exactly the shortest prefix of the
     * stream that ends in the delimiter and leaves every later byte; if there is none, everything is
     * consumed and an error reported.
     */
    method ReadUntil(buffer: seq<byte>, delim: seq<byte>) returns (buf: seq<byte>, failed: bool)
      modifies this`incoming
      ensures buffer + old(incoming) == buf + incoming && |buffer| <= |buf|
      ensures !isOpen ==> failed && buf == buffer
      ensures isOpen && delim == [] ==> !failed && buf == buffer
      ensures isOpen && delim != [] ==>
                && (forall k | |buffer| < k < |buf| :: !EndsWith((buffer + old(incoming))[..k], delim))
                && (!failed ==> |buf| > |buffer| && EndsWith(buf, delim))
                && (failed ==> incoming == [] && (|buf| > |buffer| ==> !EndsWith(buf, delim)))
      ensures isOpen && delim != [] && buffer == [] ==>
              FirstEnd(old(incoming), delim) == if failed then None else Some(|buf|)
    {
      buf, failed := buffer, false;
      if !isOpen {
        return buf, true;
      }
      if delim == [] {
        return;
      }
      hide EndsWith, FirstEnd;
      ghost var s := buffer + incoming;
      while true
        invariant s == buf + incoming && !failed && |buffer| <= |buf|
        invariant forall k | |buffer| < k <= |buf| :: !EndsWith(s[..k], delim)
        decreases |incoming|
      {
        ghost var before := buf;
        var octet;
        octet, failed := ReadRaw(1, true);
        if failed {
          assert octet == [];
          assert s[..|buf|] == buf;
          Missed(buffer, old(incoming), delim);
          return;
        }
        buf := buf + octet;
        assert s[..|buf|] == buf;
        if EndsWith(buf, delim) {
          Found(buffer, old(incoming), delim, |buf|);
          return;
        }
      }
    }
  }

  lemma Found(buffer: seq<byte>, stream: seq<byte>, delim: seq<byte>, n: nat)
    requires delim != [] && |buffer| < n <= |buffer + stream| && EndsWith((buffer + stream)[..n], delim)
    requires forall k | |buffer| < k < n :: !EndsWith((buffer + stream)[..k], delim)
    ensures buffer == [] ==> FirstEnd(stream, delim) == Some(n)
  {
    if buffer == [] {
      assert buffer + stream == stream;
      FirstEndIs(stream, delim, n);
    }
  }

  lemma Missed(buffer: seq<byte>, stream: seq<byte>, delim: seq<byte>)
    requires delim != [] && forall k | |buffer| < k <= |buffer + stream| :: !EndsWith((buffer + stream)[..k], delim)
    ensures buffer == [] ==> FirstEnd(stream, delim) == None
  {
    if buffer == [] {
      assert buffer + stream == stream;
      FirstEndNone(stream, delim);
    }
  }

  /** A write after a successful write is one write of both. */
  lemma WriteTwice(start: Output, data: seq<byte>, total: nat, n: nat)
    requires total + n <= |data| && Write(start, data[..total]).1
    requires Write(Write(start, data[..total]).0, data[total..][..n]).1
    ensures Write(start, data[..total + n]) == Write(Write(start, data[..total]).0, data[total..][..n])
  {
    hide Write;
    assert data[..total + n] == data[..total] + data[total..][..n];
    WriteBoth(start, data[..total], data[total..][..n]);
  }

  lemma WriteBoth(start: Output, a: seq<byte>, b: seq<byte>)
    requires Write(start, a).1 && Write(Write(start, a).0, b).1
    ensures Write(start, a + b) == Write(Write(start, a).0, b)
  {
    assert start.bytes + (a + b) == start.bytes + a + b;
  }

  /** A transport that has taken part of the data and takes no more has failed the write just there. */
  lemma FullStops(start: Output, data: seq<byte>, total: nat)
    requires total < |data| && Write(start, data[..total]).1 && Write(start, data[..total]).0.capacity == Some(0)
    ensures Write(start, data) == (Write(start, data[..total]).0, false)
  {
  }
}
