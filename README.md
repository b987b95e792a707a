# sndcmd control-channel framing, in Dafny

`sndcmd` is the command client of a proxy: it connects to the proxy's control
port and sends textual commands, each framed by a 2-byte big-endian length
that counts itself (so a command of `n` bytes travels as `n + 2` bytes). It
runs in one of two modes:

- In one-shot mode the command comes from the command line.
- In interactive mode standard input is relayed chunk by chunk, and a receive
  loop (`recvMsg`) prints the frames the proxy sends back.

This project models that framing and the option scan in `main`:

- `bytes.dfy` (module `Bytes`): octets, `htons`/`ntohs` on a 16-bit length
  (with the narrowing of an `int` to `uint16_t`), and what `%s` prints from a
  buffer.
- `framing.dfy` (module `Framing`): the pure view of the wire.
  - `Encode` is the frame of one command.
  - `NextFrame` is what one turn of the receive loop does with the bytes still
    to come, and `Decode` is the whole loop.
  - It also holds the round trips and the byte accounting of both senders.
- `io.dfy` (module `Io`): the endpoints as classes.
  - A `Source` holds the bytes still to be read. Its `Peek` does not consume;
    its `Read` returns any non-empty prefix of at most the requested size, 0
    at the end, and may fail only on an unreliable stream.
  - A `Sink` records what was sent, and a `Console` records the printed lines.
- `sender.dfy` (module `Sender`): the 256-byte staging buffer as an `array`,
  filled in place by the one-shot path and by the interactive loop.
- `receiver.dfy` (module `Receiver`): `recvMsg` as methods.
  - The header peek.
  - The gathering loop, whose invariant is `mlen + blen == declared`.
  - The in-place `memmove` and terminator.
  - The outer loop, proved against `Decode` for every pattern of short reads.
- `args.dfy` (module `Args`): the option loop as a method, proved against the
  recursive `Scan`, plus lemmas on what `Scan` yields.
- `session.dfy` (module `Session`): the one-shot sender's output read back by
  the receive loop.

The reference definitions the contracts below are stated against are
`Bytes.BE16` and `Bytes.FromBE16` (`htons` and `ntohs` on the length header),
`Bytes.CString` (what `%s` prints), `Framing.Encode` (the frame of one
command), `Framing.Decode` (the receive loop as a function) and `Args.Scan`
(the option loop as a function).

Three behaviours of the code are reported rather than reproduced:

- For a one-shot command over 254 bytes the code sends `strlen(cmd) + 2`
  bytes, past the end of the 256-byte buffer that `strncpy` filled.
  `Sender.SendOneShot` reports that over-read and sends nothing.
- The code ignores the return value of `send`, so a partial write would lose
  bytes. The model's `Io.Sink.Send` always writes every byte.
- `-p` as the last argument makes `atoi` read `argv[argc]`, a null pointer.
  `Scan` reports this as `MissingPortValue`.

The model keeps these behaviours of the code:

- The command is the last positional word after the host: each later word
  overwrites the one before.
- Interactive mode relays whatever one `read` returns, up to 254 bytes, as
  one chunk, with no regard for line ends.
- A received frame is printed only up to its first NUL byte (`printf("%s")`).

## Model

| member | source | states |
|---|---|---|
| Bytes.BE16RoundTrip | proxy/sndcmd.cc:110-111 | reading back the header `htons` wrote gives the length modulo 2^16 |
| Bytes.FromBE16RoundTrip | proxy/sndcmd.cc:169-170 | every pair of header bytes is the encoding of the value `ntohs` reads from it |
| Bytes.CStringWhole | proxy/sndcmd.cc:199 | a message without NUL bytes is printed whole |
| Bytes.CStringTerminated | proxy/sndcmd.cc:196-199 | nothing after the terminator written at `mlen - 2` is printed |
| Framing.NextFrame | proxy/sndcmd.cc:157-196 | one receive turn: end of stream iff nothing is left; stalled iff one or two bytes remain; never a receive error on a plain stream; a delivered message is a frame `Encode(content)` cut from the front of the stream, the rest left unread; a short frame declares fewer than 2 bytes and leaves the stream after the bytes it declares |
| Framing.NextFrameByLength | proxy/sndcmd.cc:169-192 | with three bytes visible, the declared length decides: the peer closed mid-frame iff it exceeds the stream, a short frame iff it is below 2, a message iff it lies between, and then the content is the declared length minus 2 |
| Framing.Decode | proxy/sndcmd.cc:154-201 | the whole receive loop: when it ends at the peer's close the stream was exactly the frames of the messages; when it stalls, the frames plus one or two bytes |
| Framing.NextFrameOfEncode | proxy/sndcmd.cc:180-196 | a frame of any command under 65534 bytes is decoded back to exactly that command, consuming the frame and nothing after it (an empty command needs a byte behind it) |
| Framing.DecodeSplits | proxy/sndcmd.cc:154-201 | for every stream, the stream is the frames of the delivered messages followed by a tail on which the next turn ends for the reason, and with the rest, that `Decode` reports |
| Framing.DecodeEncodeAll | proxy/sndcmd.cc:154-201 | commands of at most 254 bytes sent back to back are delivered in order, each whole, then the loop sees the close, provided the last is not empty |
| Framing.EmptyFinalFrameStalls | proxy/sndcmd.cc:157-166 | an empty command alone on the stream is never delivered: the 3-byte peek cannot complete |
| Framing.PrintedAppend | proxy/sndcmd.cc:199 | each message is printed on its own: the lines of two runs of messages are the lines of the first, then those of the second |
| Framing.PrintedWithoutNul | proxy/sndcmd.cc:199 | messages without NUL bytes are printed exactly |
| Framing.InteractiveWire | proxy/sndcmd.cc:125-128 | a chunk of `len` bytes goes out as the first `len` bytes of its frame: for `len` of 2 or more, a header declaring `len + 2` and then the chunk without its last two bytes; for `len` 1, the header's high byte alone |
| Framing.InteractiveChunkAloneIsCut | proxy/sndcmd.cc:128 | a chunk of 3 or more bytes sent alone is never delivered: the receiver runs out of stream mid-frame |
| Framing.InteractiveChunkDesyncs | proxy/sndcmd.cc:128 | with a frame behind it, the receiver delivers the chunk minus its last two bytes plus the next frame's header, and loses frame alignment |
| Framing.ChunkFrameRoundTrip | proxy/sndcmd.cc:126-128 | the intended interactive frame, all `len + 2` bytes of the buffer (`Encode(chunk)`), is decoded back to its chunk, whatever follows |
| Framing.BoundedFrame | proxy/sndcmd.cc:113-114 | the one-shot frame cut to 254 command bytes never exceeds the 256-byte buffer and equals `Encode` for commands that fit |
| Framing.BoundedFrameRoundTrip | proxy/sndcmd.cc:113-114 | the bounded frame is decoded back to the command cut to 254 bytes |
| Framing.PingExample | proxy/sndcmd.cc:110-114 | "ping" is framed as 00 06 'p' 'i' 'n' 'g' and decoded back to "ping" |
| Framing.NulInsideContent | proxy/sndcmd.cc:195-199 | the frame 00 09 "ok" NUL "done" carries seven content bytes and prints "ok" |
| Io.Source.Peek | proxy/sndcmd.cc:158 | `MSG_PEEK` copies what is there, up to the requested size, and consumes nothing |
| Io.Source.Read | proxy/sndcmd.cc:181 | a read consumes between one byte and the requested size into the buffer at the cursor, returns 0 only at the end, fails only on an unreliable stream |
| Io.Sink.Send | proxy/sndcmd.cc:114 | `send` appends the first `n` bytes of the buffer to the wire |
| Io.Console.PrintString | proxy/sndcmd.cc:199 | `printf("%s\n")` adds the buffer's bytes before its first NUL as a line |
| Sender.StrncpyCString | proxy/sndcmd.cc:113 | for a command without NUL, the C string `strncpy` leaves in a buffer of `n` bytes is the command cut to `n` bytes |
| Sender.StageOneShot | proxy/sndcmd.cc:110-113 | the buffer holds the header declaring `strlen(cmd) + 2` and the NUL-padded command, whose C string is the command cut to 254 bytes; the returned count is `strlen(cmd) + 2` |
| Sender.SendOneShot | proxy/sndcmd.cc:108-114 | a command of at most 254 bytes goes out as exactly `Encode(cmd)`; a longer one is reported as a read past the buffer; either way the buffer is left holding the header declaring `strlen(cmd) + 2` and the NUL-padded command |
| Sender.OneShotOverreadBoundary | proxy/sndcmd.cc:105-114 | the send count fits the 256-byte buffer iff the command has at most 254 bytes; 255 bytes give a count of 257 |
| Sender.SendChunk | proxy/sndcmd.cc:126-128 | `buff[0..2]` now holds the header declaring `len + 2`, the chunk stays in place behind it, and the first `len` bytes of the buffer are sent |
| Sender.RelayChunk | proxy/sndcmd.cc:125-128 | one loop turn: a delivered chunk of 1 to 254 bytes is consumed from standard input, left in the buffer behind the header declaring `len + 2`, and sent as `InteractiveWire(chunk)`; at the end of input or on an error nothing is sent |
| Sender.SendInteractive | proxy/sndcmd.cc:124-129 | the chunks relayed are standard input in order (all of it on a reliable stream), and the wire receives their `InteractiveWire` images in order |
| Receiver.PeekHeader | proxy/sndcmd.cc:156-170 | with three bytes visible, the declared length is the big-endian value of the first two, nothing consumed; otherwise the end, stall or error `NextFrame` names |
| Receiver.ReceiveFrame | proxy/sndcmd.cc:171-192 | on completion the buffer holds exactly the first `declared` bytes of the stream and only those were consumed; a close mid-frame means the stream was shorter than declared |
| Receiver.StripHeader | proxy/sndcmd.cc:195-196 | the buffer becomes bytes `[2, mlen)` of the old buffer, then a NUL at `mlen - 2`, then the old bytes from `mlen - 1` on |
| Receiver.RecvOne | proxy/sndcmd.cc:155-200 | one outer turn does what `NextFrame` says: print the message's C string and leave the rest, or stop for the reason it gives (or an error on an unreliable stream) |
| Receiver.RecvMsg | proxy/sndcmd.cc:145-202 | whatever short counts `recv` returns, the lines printed are `Printed(Decode(stream).messages)` and the loop stops for `Decode`'s reason; an error can only cut the list short |
| Args.ScanArgs | proxy/sndcmd.cc:35-65 | the option loop yields `Scan(argv)`, and a run's port is within 1..65535 |
| Args.ScanPortInRange | proxy/sndcmd.cc:45-51 | every port a run uses passed the range check, whatever `atoi` returns |
| Args.WordsAfterHost | proxy/sndcmd.cc:52-57 | when the host is set and every argument left is a word, each overwrites `cmd`: the last one wins |
| Args.ScanWordsOnly | proxy/sndcmd.cc:35-65 | with no options the port is 3333, the host is the first word or "localhost", and the command is the last later word |
| Args.ScanFromRunsIff | proxy/sndcmd.cc:35-65 | from any point, the scan ends in a run iff each argument left is a word or `-p` with a value `atoi` puts in 1..65535 |
| Args.ScanRunShape | proxy/sndcmd.cc:35-65 | for every `argv`: the scan runs iff no argument exits it, and then the port is the last `-p` value (3333 without one), the host the first positional word ("localhost" without one), the command the last positional word after the host (none without one) |
| Args.ScanExitIsFinal | proxy/sndcmd.cc:41-60 | once `-V`, `-h`, an unknown option or a bad port has been met, arguments after it change nothing |
| Args.ScanPortFlag | proxy/sndcmd.cc:45-51 | `-p` at any position the scan reaches: as the last argument it has no value; with a value outside 1..65535 the usage is printed; with a value in range that no later `-p` replaces, the run's port is `atoi(v)` |
| Args.ScanUnknownOption | proxy/sndcmd.cc:58-60 | any other dash argument at any position the scan reaches prints the usage |
| Args.ScanPortBeforeWords | proxy/sndcmd.cc:45-57 | in `-p v host cmd` the value of `-p` is not taken for the host: the run has port `atoi(v)`, that host and that command |
| Session.OneShotDelivers | proxy/sndcmd.cc:108-202 | a one-shot command of 1 to 254 bytes without NUL is printed by the receive loop as exactly itself, for any pattern of short reads, then the loop sees the close |
| Session.EmptyOneShotStalls | proxy/sndcmd.cc:157-166 | an empty one-shot command is never printed: the receiver stalls on the 2-byte frame |

## Findings

| source | as written | input that shows it | evidently intended | confidence | as-written member | corrected member |
|---|---|---|---|---|---|---|
| proxy/sndcmd.cc:128 | `send(sock,buff,len,0)` sends `len` bytes, but the header written at line 126 declares `len + 2` | a 5-byte chunk "ping\n" goes out as 00 07 'p' 'i' 'n'; alone it is never delivered; followed by another frame, the receiver takes that frame's header as the last two bytes | send `len + 2` bytes, the whole frame | high; not executed | Framing.InteractiveChunkDesyncs | Framing.ChunkFrameRoundTrip |
| proxy/sndcmd.cc:110-114 | the send count is `strlen(cmd) + 2`, while `strncpy` fills at most 254 bytes of the 256-byte buffer | a 255-byte command makes `send` read 257 bytes from the 256-byte buffer | cut the command to 254 bytes and declare the cut length | high; not executed | Sender.OneShotOverreadBoundary | Framing.BoundedFrameRoundTrip |

`Sender.SendInteractive` and `Sender.SendOneShot` model the code as written.
The corrected frames are `Encode(chunk)` and `Framing.BoundedFrame`.

## Left out

- Name resolution, socket creation, `connect` and `close` (lines 67-102, 133) are operating-system calls. The model starts from a connected byte stream.
- The receive thread (lines 116-122, 138-143) is not modelled as concurrent. `recvMsg` is a sequential method on the stream, and the sending loop is a separate method. How the two paths interleave is not modelled.
- The `version` and `usage` texts, `dbgprintf` and the `exit` codes are output only. The scan returns `ShowVersion` or `ShowUsage` instead.
- `malloc` failure (lines 174-177) is left out because allocation in Dafny does not fail. The buffer leaked on the early returns at lines 183 and 186 is not modelled either.
- `atoi` is a parameter of the scan. How it parses digits is not modelled.
- Io.Sink.Send: a send always transmits every byte it is given. The source ignores the return value of `send`, so a short write would lose bytes; that is not modelled.
- Io.Source.Peek: all of the stream has arrived before the peek, so a peek sees everything up to the requested size. Data arriving later, between peeks, is not modelled.
- Receiver.PeekHeader: when only one or two bytes remain, the source retries the peek forever. The model returns `Stalled` instead of looping.
- Receiver.RecvOne: a declared length of 0 or 1 makes `mlen - 2` negative in the source, so the `memmove` and the terminator write are undefined behaviour. The model stops with `ShortFrame` once those bytes are consumed.
- Sender.SendOneShot: a command over 254 bytes makes `send` read past the staging buffer. The model reports the over-read and sends nothing, rather than sending whatever lies beyond the buffer.
- Sender.SendInteractive: what the staging buffer holds once the loop ends is not stated; each turn's contents are stated by `Sender.RelayChunk`.
- A `Source` that is not reliable may fail any call. The model does not say when a real socket fails.
