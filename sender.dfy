// The sending half of `main`: the one-shot command from the command line and
// the interactive relay of standard input, both staged in the 256-byte buffer.

module Sender {
  import opened Bytes
  import opened Framing
  import opened Io

  /** What `strncpy(dst, cmd, n)` leaves in `n` bytes: the string, cut at `n`,
      then NUL padding. */
  function Strncpy(cmd: seq<byte>, n: nat): (r: seq<byte>)
    ensures |r| == n
  {
    seq(n, i requires 0 <= i < n => if i < |cmd| then cmd[i] else 0)
  }

  /** For a C string, what `%s` reads back from the `strncpy` result is the
      string cut at the bound. */
  lemma StrncpyCString(cmd: seq<byte>, n: nat)
    requires NoNul(cmd)
    ensures CString(Strncpy(cmd, n)) == cmd[..Min(|cmd|, n)]
  {
    var r := Strncpy(cmd, n);
    if n <= |cmd| {
      assert r == cmd[..n];
      CStringWhole(cmd[..n]);
    } else {
      assert r == cmd + [0] + r[|cmd| + 1..];
      CStringTerminated(cmd, r[|cmd| + 1..]);
      CStringWhole(cmd);
      assert cmd[..|cmd|] == cmd;
    }
  }

  /** Lines 110-113: the header declaring `strlen(cmd) + 2` in `buff[0..2]`
      and the command, NUL padded, in `buff[2..256]`. */
  method StageOneShot(buff: array<byte>, cmd: seq<byte>) returns (len: nat)
    requires buff.Length == StagingSize && NoNul(cmd)
    modifies buff
    ensures len == |cmd| + HeaderSize
    ensures buff[..HeaderSize] == BE16(len)
    ensures buff[HeaderSize..] == Strncpy(cmd, MaxCommand)
    ensures CString(buff[HeaderSize..]) == cmd[..Min(|cmd|, MaxCommand)]
  {
    len := |cmd| + HeaderSize;
    var hdr := BE16(len);
    buff[0], buff[1] := hdr[0], hdr[1];
    var i := 0;
    while i < MaxCommand
      invariant 0 <= i <= MaxCommand
      invariant buff[..HeaderSize] == hdr
      invariant forall j :: HeaderSize <= j < HeaderSize + i ==>
                  buff[j] == if j - HeaderSize < |cmd| then cmd[j - HeaderSize] else 0
    {
      buff[HeaderSize + i] := if i < |cmd| then cmd[i] else 0;
      i := i + 1;
    }
    assert buff[HeaderSize..] == Strncpy(cmd, MaxCommand) by {
      forall j | 0 <= j < MaxCommand
        ensures buff[HeaderSize..][j] == Strncpy(cmd, MaxCommand)[j]
      {
        assert buff[HeaderSize..][j] == buff[HeaderSize + j];
      }
    }
    StrncpyCString(cmd, MaxCommand);
  }

  /** Lines 108-114: stage the command and send `strlen(cmd) + 2` bytes of the
      buffer. When the command exceeds 254 bytes that count runs past the end of
      the 256-byte buffer; the model reports the over-read and sends nothing. */
  method SendOneShot(cmd: seq<byte>, buff: array<byte>, sock: Sink) returns (overread: bool)
    requires buff.Length == StagingSize && NoNul(cmd)
    modifies buff, sock
    ensures overread <==> |cmd| > MaxCommand
    ensures !overread ==> sock.sent == old(sock.sent) + Encode(cmd)
    ensures overread ==> sock.sent == old(sock.sent)
    ensures buff[..HeaderSize] == BE16(|cmd| + HeaderSize)
    ensures buff[HeaderSize..] == Strncpy(cmd, MaxCommand)
  {
    var len := StageOneShot(buff, cmd);
    if len > buff.Length {
      return true;
    }
    StagedIsEncode(buff[..], cmd);
    assert buff[..len] == buff[..][..len];
    sock.Send(buff, len);
    overread := false;
  }

  /** A staged buffer holding a command of at most 254 bytes starts with that
      command's frame. */
  lemma StagedIsEncode(staged: seq<byte>, cmd: seq<byte>)
    requires |staged| == StagingSize && |cmd| <= MaxCommand
    requires staged[..HeaderSize] == BE16(|cmd| + HeaderSize)
    requires staged[HeaderSize..] == Strncpy(cmd, MaxCommand)
    ensures staged[..|cmd| + HeaderSize] == Encode(cmd)
  {
    var pad := staged[HeaderSize..];
    assert pad[..|cmd|] == cmd by {
      forall i | 0 <= i < |cmd|
        ensures pad[..|cmd|][i] == cmd[i]
      {
      }
    }
    assert staged[..|cmd| + HeaderSize] == staged[..HeaderSize] + pad[..|cmd|];
  }

  /** The staged one-shot frame fits the buffer exactly when the command has at
      most 254 bytes: one byte more and the send count passes 256. */
  lemma OneShotOverreadBoundary(cmd: seq<byte>)
    ensures |Encode(cmd)| <= StagingSize <==> |cmd| <= MaxCommand
    ensures |cmd| == MaxCommand + 1 ==> |Encode(cmd)| == StagingSize + 1
  {
  }

  /** All chunks read, back to back. */
  function Concat(chunks: seq<seq<byte>>): (s: seq<byte>)
    ensures chunks == [] ==> s == []
  {
    if chunks == [] then [] else Concat(chunks[..|chunks| - 1]) + chunks[|chunks| - 1]
  }

  /** Chunks as standard input hands them over: non-empty, at most 254 bytes. */
  predicate ValidChunks(chunks: seq<seq<byte>>)
  {
    forall i :: 0 <= i < |chunks| ==> 0 < |chunks[i]| <= MaxCommand
  }

  /** Everything the interactive loop sends for a series of chunks. */
  function InteractiveWireAll(chunks: seq<seq<byte>>): (s: seq<byte>)
    requires ValidChunks(chunks)
  {
    if chunks == [] then []
    else InteractiveWireAll(chunks[..|chunks| - 1]) + InteractiveWire(chunks[|chunks| - 1])
  }

  /** Lines 126-128 for one chunk already read into `buff[2..2 + len]`:
      write the header declaring `len + 2`, then send the first `len` bytes. */
  method SendChunk(buff: array<byte>, len: nat, sock: Sink)
    requires buff.Length == StagingSize && 0 < len <= MaxCommand
    modifies buff, sock
    ensures sock.sent == old(sock.sent) + InteractiveWire(old(buff[HeaderSize..HeaderSize + len]))
    ensures buff[..HeaderSize] == BE16(len + HeaderSize)
    ensures buff[HeaderSize..] == old(buff[HeaderSize..])
  {
    ghost var chunk := buff[HeaderSize..HeaderSize + len];
    var hdr := BE16(len + HeaderSize);
    buff[0], buff[1] := hdr[0], hdr[1];
    assert buff[..HeaderSize + len] == hdr + chunk;
    assert buff[..len] == (hdr + chunk)[..len];
    sock.Send(buff, len);
  }

  /** One turn of the loop at lines 125-128: read up to 254 bytes into
      `buff[2..]`; when `read` delivers a chunk, frame it and send it. */
  method RelayChunk(stdin: Source, sock: Sink, buff: array<byte>) returns (len: int, ghost chunk: seq<byte>)
    requires buff.Length == StagingSize
    modifies stdin, sock, buff
    ensures len <= 0 ==> stdin.pending == old(stdin.pending) && sock.sent == old(sock.sent)
    ensures len == 0 ==> stdin.pending == []
    ensures len < 0 ==> !stdin.reliable
    ensures len > 0 ==> len == |chunk| && 0 < |chunk| <= MaxCommand && old(stdin.pending) == chunk + stdin.pending
    ensures len > 0 ==> sock.sent == old(sock.sent) + InteractiveWire(chunk)
    ensures len > 0 ==> buff[..HeaderSize] == BE16(len + HeaderSize)
                        && buff[HeaderSize..HeaderSize + len] == chunk
  {
    chunk := [];
    len := stdin.Read(buff, HeaderSize, MaxCommand);
    if len <= 0 {
      return;
    }
    chunk := buff[HeaderSize..HeaderSize + len];
    ghost var staged := buff[HeaderSize..];
    assert chunk == staged[..len];
    SendChunk(buff, len, sock);
    assert buff[HeaderSize..HeaderSize + len] == buff[HeaderSize..][..len];
  }

  /** Lines 124-129: relay standard input chunk by chunk until `read` returns 0
      or an error, each chunk behind a header declaring `len + 2` of which only
      `len` bytes are sent. `chunks` names the chunks `read` delivered. */
  method SendInteractive(stdin: Source, sock: Sink, buff: array<byte>) returns (ghost chunks: seq<seq<byte>>)
    requires buff.Length == StagingSize
    modifies stdin, sock, buff
    ensures ValidChunks(chunks)
    ensures Concat(chunks) + stdin.pending == old(stdin.pending)
    ensures stdin.reliable ==> stdin.pending == []
    ensures sock.sent == old(sock.sent) + InteractiveWireAll(chunks)
  {
    chunks := [];
    while true
      invariant ValidChunks(chunks)
      invariant Concat(chunks) + stdin.pending == old(stdin.pending)
      invariant sock.sent == old(sock.sent) + InteractiveWireAll(chunks)
      decreases |stdin.pending|
    {
      ghost var before := stdin.pending;
      var len, chunk := RelayChunk(stdin, sock, buff);
      if len <= 0 {
        break;
      }
      RelayStep(chunks, chunk, before, stdin.pending, old(stdin.pending), old(sock.sent));
      chunks := chunks + [chunk];
    }
  }

  /** Appending one chunk appends its bytes and its wire image. */
  lemma ChunksSnoc(chunks: seq<seq<byte>>, chunk: seq<byte>)
    requires ValidChunks(chunks) && 0 < |chunk| <= MaxCommand
    ensures ValidChunks(chunks + [chunk])
    ensures Concat(chunks + [chunk]) == Concat(chunks) + chunk
    ensures InteractiveWireAll(chunks + [chunk]) == InteractiveWireAll(chunks) + InteractiveWire(chunk)
  {
    assert (chunks + [chunk])[..|chunks|] == chunks;
  }

  /** One relayed chunk keeps the invariant of the interactive loop: the
      chunks so far followed by what is left is the whole input, and the wire
      holds their images. */
  lemma RelayStep(chunks: seq<seq<byte>>, chunk: seq<byte>, before: seq<byte>, after: seq<byte>,
                  input: seq<byte>, sent0: seq<byte>)
    requires ValidChunks(chunks) && 0 < |chunk| <= MaxCommand
    requires Concat(chunks) + before == input && before == chunk + after
    ensures ValidChunks(chunks + [chunk])
    ensures Concat(chunks + [chunk]) + after == input
    ensures sent0 + InteractiveWireAll(chunks) + InteractiveWire(chunk) == sent0 + InteractiveWireAll(chunks + [chunk])
  {
    ChunksSnoc(chunks, chunk);
    Regroup(Concat(chunks), chunk, after);
    Regroup(sent0, InteractiveWireAll(chunks), InteractiveWire(chunk));
  }

  lemma Regroup(a: seq<byte>, b: seq<byte>, c: seq<byte>)
    ensures a + b + c == a + (b + c)
  {
  }
}
