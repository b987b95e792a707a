// The control channel's wire format: a 2-byte big-endian length that counts
// itself, followed by the command bytes. This module holds the pure view of
// what the sender puts on the wire and of what the receive loop makes of the
// bytes it finds there; the imperative code in Sender and Receiver is proved
// against it.

module Framing {
  import opened Bytes

  /** Size of the staging buffer `buff` in `main`. */
  const StagingSize: nat := 256
  /** Header bytes in front of every command. */
  const HeaderSize: nat := 2
  /** Room left for a command behind the header (the `strncpy` and `read` bound). */
  const MaxCommand: nat := 254
  /** Bytes the receiver peeks at before it trusts the header. */
  const PeekSize: nat := 3

  /** A frame: the declared length `|content| + 2`, narrowed to 16 bits, then the content. */
  function Encode(content: seq<byte>): (f: seq<byte>)
    ensures |f| == |content| + HeaderSize && f[HeaderSize..] == content
    ensures |content| + HeaderSize < U16Limit ==> FromBE16(f[0], f[1]) == |f|
  {
    BE16RoundTrip(|content| + HeaderSize);
    BE16(|content| + HeaderSize) + content
  }

  /** Frames of several commands, back to back. */
  function EncodeAll(cmds: seq<seq<byte>>): (s: seq<byte>)
  {
    if cmds == [] then [] else Encode(cmds[0]) + EncodeAll(cmds[1..])
  }

  /** Why the receive loop stopped. */
  datatype Ending =
    | PeerClosed      // the header peek saw the end of the stream
    | Stalled         // one or two bytes remain: the 3-byte peek never completes
    | ClosedMidFrame  // the stream ended before the declared length was gathered
    | ShortFrame      // declared length below 2: no header to strip
    | RecvFailed      // `recv` returned a negative count

  /** One turn of the receive loop on the bytes still to come. */
  datatype Step =
    | Done(why: Ending, rest: seq<byte>)
    | Message(content: seq<byte>, rest: seq<byte>)

  /** What one turn of the receive loop does with a stream whose bytes have all
      arrived and whose peer closes after them. */
  function NextFrame(s: seq<byte>): (r: Step)
    ensures r.Done? && r.why == PeerClosed <==> s == []
    ensures r.Done? && r.why == Stalled <==> 0 < |s| < PeekSize
    ensures r.Done? ==> r.why != RecvFailed
    ensures r.Message? ==> s == Encode(r.content) + r.rest
    ensures r.Done? && r.why == ShortFrame ==>
              |s| >= PeekSize && FromBE16(s[0], s[1]) < HeaderSize && s == s[..FromBE16(s[0], s[1])] + r.rest
  {
    if |s| == 0 then Done(PeerClosed, [])
    else if |s| < PeekSize then Done(Stalled, s)
    else
      var blen := FromBE16(s[0], s[1]);
      if blen > |s| then Done(ClosedMidFrame, [])
      else if blen < HeaderSize then Done(ShortFrame, s[blen..])
      else
        FromBE16RoundTrip(s[0], s[1]);
        assert s == s[..HeaderSize] + s[HeaderSize..blen] + s[blen..];
        Message(s[HeaderSize..blen], s[blen..])
  }

  /** Once three bytes are visible, the declared length decides the turn: more
      than the stream holds cuts the frame short, less than the header is a
      short frame, and otherwise the message is the declared length minus the
      header. */
  lemma NextFrameByLength(s: seq<byte>)
    requires |s| >= PeekSize
    ensures NextFrame(s) == Done(ClosedMidFrame, []) <==> FromBE16(s[0], s[1]) > |s|
    ensures NextFrame(s).Done? && NextFrame(s).why == ShortFrame <==> FromBE16(s[0], s[1]) < HeaderSize
    ensures NextFrame(s).Message? <==> HeaderSize <= FromBE16(s[0], s[1]) <= |s|
    ensures NextFrame(s).Message? ==> |NextFrame(s).content| + HeaderSize == FromBE16(s[0], s[1])
  {
  }

  /** Every message the receive loop assembles from a stream, why it stops and
      the bytes it leaves unread. */
  datatype Transcript = Transcript(messages: seq<seq<byte>>, why: Ending, rest: seq<byte>)

  function Decode(s: seq<byte>): (t: Transcript)
    ensures t.why != RecvFailed
    ensures t.why == PeerClosed ==> s == EncodeAll(t.messages) && t.rest == []
    ensures t.why == Stalled ==> s == EncodeAll(t.messages) + t.rest && 0 < |t.rest| < PeekSize
    ensures |t.rest| <= |s|
    decreases |s|
  {
    match NextFrame(s)
    case Done(why, rest) => Transcript([], why, rest)
    case Message(content, rest) =>
      var t := Decode(rest);
      Transcript([content] + t.messages, t.why, t.rest)
  }

  /** Whatever the ending, the stream is the frames of the delivered messages
      followed by the bytes on which the last turn stopped, for the reason
      and with the leftover `Decode` reports. */
  lemma {:induction false} DecodeSplits(s: seq<byte>)
    ensures exists tail :: s == EncodeAll(Decode(s).messages) + tail
                           && NextFrame(tail) == Done(Decode(s).why, Decode(s).rest)
    decreases |s|
  {
    var t := Decode(s);
    if NextFrame(s).Done? {
      assert t.messages == [] && NextFrame(s) == Done(t.why, t.rest);
      assert s == EncodeAll(t.messages) + s;
    } else {
      var content, rest := NextFrame(s).content, NextFrame(s).rest;
      var u := Decode(rest);
      assert t == Transcript([content] + u.messages, u.why, u.rest);
      DecodeSplits(rest);
      var tail :| rest == EncodeAll(u.messages) + tail && NextFrame(tail) == Done(u.why, u.rest);
      FramesThenTail(s, content, rest, u.messages, tail);
    }
  }

  /** A frame in front of frames and a tail is the frames of the longer list
      and the same tail. */
  lemma FramesThenTail(s: seq<byte>, content: seq<byte>, rest: seq<byte>, msgs: seq<seq<byte>>, tail: seq<byte>)
    requires s == Encode(content) + rest && rest == EncodeAll(msgs) + tail
    ensures s == EncodeAll([content] + msgs) + tail
  {
    var ms := [content] + msgs;
    assert ms[0] == content && ms[1..] == msgs;
    assert EncodeAll(ms) == Encode(content) + EncodeAll(msgs);
  }

  /** The lines `printf("%s\n", ...)` shows for the messages: each up to its first NUL. */
  function Printed(msgs: seq<seq<byte>>): (lines: seq<seq<byte>>)
    ensures |lines| == |msgs|
  {
    if msgs == [] then [] else [CString(msgs[0])] + Printed(msgs[1..])
  }

  /** Printing two runs of messages prints the lines of each, in order. */
  lemma {:induction false} PrintedAppend(a: seq<seq<byte>>, b: seq<seq<byte>>)
    ensures Printed(a + b) == Printed(a) + Printed(b)
    decreases |a|
  {
    if a != [] {
      assert (a + b)[1..] == a[1..] + b;
      PrintedAppend(a[1..], b);
    } else {
      assert a + b == b;
    }
  }

  /** The receiver takes back exactly the command the sender framed, and
      stops at the frame's end. An empty command needs at least one byte
      behind it, since the receiver waits for three. */
  lemma NextFrameOfEncode(content: seq<byte>, rest: seq<byte>)
    requires |content| + HeaderSize < U16Limit
    requires |content| + |rest| > 0
    ensures NextFrame(Encode(content) + rest) == Message(content, rest)
  {
    var s := Encode(content) + rest;
    assert s[0] == Encode(content)[0] && s[1] == Encode(content)[1];
    assert s[HeaderSize..|content| + HeaderSize] == content;
    assert s[|content| + HeaderSize..] == rest;
  }

  /** An empty command alone on the stream is never delivered. */
  lemma EmptyFinalFrameStalls()
    ensures Decode(Encode([])) == Transcript([], Stalled, Encode([]))
  {
    assert |Encode([])| == 2;
  }

  /** Several commands sent back to back are delivered in order, each whole,
      and the loop ends on the peer's close, provided the last one is not empty. */
  lemma {:induction false} DecodeEncodeAll(cmds: seq<seq<byte>>)
    requires forall i :: 0 <= i < |cmds| ==> |cmds[i]| <= MaxCommand
    requires cmds != [] ==> cmds[|cmds| - 1] != []
    ensures Decode(EncodeAll(cmds)) == Transcript(cmds, PeerClosed, [])
  {
    if cmds != [] {
      var rest := EncodeAll(cmds[1..]);
      assert cmds[1..] != [] ==> |rest| >= HeaderSize by {
        if cmds[1..] != [] { assert rest == Encode(cmds[1..][0]) + EncodeAll(cmds[1..][1..]); }
      }
      NextFrameOfEncode(cmds[0], rest);
      DecodeEncodeAll(cmds[1..]);
      assert [cmds[0]] + cmds[1..] == cmds;
    }
  }

  /** Commands without NUL bytes are printed exactly as sent. */
  lemma {:induction false} PrintedWithoutNul(msgs: seq<seq<byte>>)
    requires forall i :: 0 <= i < |msgs| ==> NoNul(msgs[i])
    ensures Printed(msgs) == msgs
  {
    if msgs != [] {
      CStringWhole(msgs[0]);
      PrintedWithoutNul(msgs[1..]);
      assert [msgs[0]] + msgs[1..] == msgs;
    }
  }

  /** Bytes the interactive loop sends for one chunk read from standard input:
      the header declares `len + 2`, but only the first `len` bytes of the
      staging buffer go out. */
  function InteractiveWire(chunk: seq<byte>): (w: seq<byte>)
    requires 0 < |chunk| <= MaxCommand
    ensures |w| == |chunk| && w == Encode(chunk)[..|chunk|]
    ensures |chunk| == 1 ==> w == BE16(|chunk| + HeaderSize)[..1]
    ensures |chunk| >= HeaderSize ==> FromBE16(w[0], w[1]) == |chunk| + HeaderSize
    ensures |chunk| >= HeaderSize ==> w[HeaderSize..] == chunk[..|chunk| - HeaderSize]
  {
    BE16RoundTrip(|chunk| + HeaderSize);
    (BE16(|chunk| + HeaderSize) + chunk)[..|chunk|]
  }

  /** The interactive frame as evidently intended is all `len + 2` bytes of the
      staging buffer, `Encode(chunk)`; each is decoded back to its chunk,
      whatever follows it. */
  lemma ChunkFrameRoundTrip(chunk: seq<byte>, rest: seq<byte>)
    requires 0 < |chunk| <= MaxCommand
    ensures NextFrame(Encode(chunk) + rest) == Message(chunk, rest)
  {
    NextFrameOfEncode(chunk, rest);
  }

  /** As written, a chunk of three or more bytes sent alone is never delivered:
      the receiver waits for two bytes that never come. */
  lemma InteractiveChunkAloneIsCut(chunk: seq<byte>)
    requires PeekSize <= |chunk| <= MaxCommand
    ensures NextFrame(InteractiveWire(chunk)) == Done(ClosedMidFrame, [])
  {
    var w := InteractiveWire(chunk);
    assert w[0] == Encode(chunk)[0] && w[1] == Encode(chunk)[1];
  }

  /** As written, when another frame follows, the receiver takes the chunk
      minus its last two bytes and swallows the next frame's header in their place. */
  lemma InteractiveChunkDesyncs(chunk: seq<byte>, next: seq<byte>)
    requires PeekSize <= |chunk| <= MaxCommand && |next| >= HeaderSize
    ensures NextFrame(InteractiveWire(chunk) + next)
            == Message(chunk[..|chunk| - HeaderSize] + next[..HeaderSize], next[HeaderSize..])
  {
    var w := InteractiveWire(chunk);
    var s := w + next;
    var f := Encode(chunk);
    assert s[0] == f[0] && s[1] == f[1];
    assert s[HeaderSize..|chunk| + HeaderSize] == chunk[..|chunk| - HeaderSize] + next[..HeaderSize] by {
      assert w[HeaderSize..] == chunk[..|chunk| - HeaderSize];
    }
    assert s[|chunk| + HeaderSize..] == next[HeaderSize..];
  }

  /** The one-shot frame as evidently intended when the command does not fit:
      the command cut to the 254 bytes `strncpy` copies, with a header declaring
      the cut length, so that the send never leaves the staging buffer. */
  function BoundedFrame(cmd: seq<byte>): (f: seq<byte>)
    ensures |f| <= StagingSize
    ensures |cmd| <= MaxCommand ==> f == Encode(cmd)
  {
    if |cmd| <= MaxCommand then Encode(cmd) else Encode(cmd[..MaxCommand])
  }

  /** The bounded frame is decoded back to the command, cut to 254 bytes. */
  lemma BoundedFrameRoundTrip(cmd: seq<byte>, rest: seq<byte>)
    requires |cmd| + |rest| > 0
    ensures NextFrame(BoundedFrame(cmd) + rest)
            == Message(if |cmd| <= MaxCommand then cmd else cmd[..MaxCommand], rest)
  {
    if |cmd| <= MaxCommand {
      NextFrameOfEncode(cmd, rest);
    } else {
      NextFrameOfEncode(cmd[..MaxCommand], rest);
    }
  }

  /** Example: "ping" travels as 00 06 'p' 'i' 'n' 'g' and comes back whole. */
  lemma PingExample()
    ensures Encode([0x70, 0x69, 0x6E, 0x67]) == [0x00, 0x06, 0x70, 0x69, 0x6E, 0x67]
    ensures Decode([0x00, 0x06, 0x70, 0x69, 0x6E, 0x67])
            == Transcript([[0x70, 0x69, 0x6E, 0x67]], PeerClosed, [])
  {
    var ping: seq<byte> := [0x70, 0x69, 0x6E, 0x67];
    assert BE16(6) == [0x00, 0x06];
    DecodeEncodeAll([ping]);
    assert [ping][1..] == [];
    assert EncodeAll([ping]) == Encode(ping) + EncodeAll([]);
    assert EncodeAll([ping]) == [0x00, 0x06, 0x70, 0x69, 0x6E, 0x67];
  }

  /** A reply frame with a NUL inside its content: 00 09 "ok" NUL "done"
      carries seven content bytes, and `%s` prints only "ok". */
  lemma NulInsideContent()
    ensures Decode([0x00, 0x09, 0x6F, 0x6B, 0x00, 0x64, 0x6F, 0x6E, 0x65]).messages
            == [[0x6F, 0x6B, 0x00, 0x64, 0x6F, 0x6E, 0x65]]
    ensures Printed(Decode([0x00, 0x09, 0x6F, 0x6B, 0x00, 0x64, 0x6F, 0x6E, 0x65]).messages)
            == [[0x6F, 0x6B]]
  {
    var s: seq<byte> := [0x00, 0x09, 0x6F, 0x6B, 0x00, 0x64, 0x6F, 0x6E, 0x65];
    var content: seq<byte> := [0x6F, 0x6B, 0x00, 0x64, 0x6F, 0x6E, 0x65];
    assert NextFrame(s) == Message(content, []);
    assert Decode([]) == Transcript([], PeerClosed, []);
    CStringTerminated([0x6F, 0x6B], [0x64, 0x6F, 0x6E, 0x65]);
    CStringWhole([0x6F, 0x6B]);
    assert content == [0x6F, 0x6B] + [0] + [0x64, 0x6F, 0x6E, 0x65];
  }
}
