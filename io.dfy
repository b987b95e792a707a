// The operating-system endpoints the control client talks to, reduced to
// byte sequences: a readable stream (the socket's receive side, or standard
// input), the socket's send side, and standard output.

module Io {
  import opened Bytes

  function Min(a: nat, b: nat): nat { if a <= b then a else b }

  /** A byte stream whose remaining bytes have all arrived and whose writer
      closes after them. Reads may return fewer bytes than asked for, in any
      pattern; an unreliable stream may also fail any call. */
  class Source {
    var pending: seq<byte>
    const reliable: bool

    constructor (data: seq<byte>, reliable: bool)
      ensures pending == data && this.reliable == reliable
    {
      pending := data;
      this.reliable := reliable;
    }

    /** `recv(fd, dst, n, MSG_PEEK)`: copies what is there, up to `n` bytes,
        and leaves it in the stream; a negative count is an error. */
    method Peek(dst: array<byte>, n: nat) returns (got: int)
      requires n <= dst.Length
      modifies dst
      ensures got < 0 ==> !reliable && dst[..] == old(dst[..])
      ensures got >= 0 ==> got == Min(n, |pending|)
      ensures got >= 0 ==> dst[..got] == pending[..got] && dst[got..] == old(dst[got..])
    {
      if !reliable {
        var fails: bool :| true;
        if fails {
          return -1;
        }
      }
      got := Min(n, |pending|);
      var i := 0;
      while i < got
        invariant 0 <= i <= got
        invariant dst[..i] == pending[..i] && dst[got..] == old(dst[got..])
      {
        dst[i] := pending[i];
        i := i + 1;
      }
    }

    /** `read(fd, dst + off, n)` or `recv(fd, dst + off, n, 0)`: consumes between
        one and `n` bytes, 0 only at the end of the stream (or when `n` is 0),
        and a negative count on error. */
    method Read(dst: array<byte>, off: nat, n: nat) returns (got: int)
      requires off + n <= dst.Length
      modifies this, dst
      ensures got < 0 ==> !reliable && pending == old(pending) && dst[..] == old(dst[..])
      ensures got >= 0 ==> got <= n && (got == 0 <==> n == 0 || old(pending) == [])
      ensures got >= 0 ==> got <= |old(pending)| && pending == old(pending)[got..]
      ensures got >= 0 ==> dst[off..off + got] == old(pending)[..got]
      ensures got >= 0 ==> dst[..off] == old(dst[..off]) && dst[off + got..] == old(dst[off + got..])
    {
      if !reliable {
        var fails: bool :| true;
        if fails {
          return -1;
        }
      }
      if n == 0 || pending == [] {
        return 0;
      }
      var data := pending;
      var k: nat :| 1 <= k <= n && k <= |data|;
      var i := 0;
      while i < k
        invariant 0 <= i <= k
        invariant dst[off..off + i] == data[..i]
        invariant dst[..off] == old(dst[..off]) && dst[off + k..] == old(dst[off + k..])
      {
        dst[off + i] := data[i];
        i := i + 1;
      }
      pending := data[k..];
      got := k;
    }
  }

  /** The sending side of the socket. `send` on a blocking socket is taken to
      transmit the whole range it is given. */
  class Sink {
    var sent: seq<byte>

    constructor ()
      ensures sent == []
    {
      sent := [];
    }

    /** `send(fd, buf, n, 0)`. */
    method Send(buf: array<byte>, n: nat)
      requires n <= buf.Length
      modifies this
      ensures sent == old(sent) + buf[..n]
    {
      sent := sent + buf[..n];
    }
  }

  /** Standard output, one entry per `printf("%s\n", ...)`. */
  class Console {
    var lines: seq<seq<byte>>

    constructor ()
      ensures lines == []
    {
      lines := [];
    }

    /** `printf("%s\n", buf)`: the bytes before the first NUL. */
    method PrintString(buf: array<byte>)
      modifies this
      ensures lines == old(lines) + [CString(buf[..])]
    {
      lines := lines + [CString(buf[..])];
    }
  }
}
