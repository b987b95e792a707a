// `recvMsg`: the receive loop of the interactive mode. It peeks at the
// header, gathers the declared number of bytes over as many short reads as
// the stream hands out, strips the header in place and prints the rest.

module Receiver {
  import opened Bytes
  import opened Framing
  import opened Io

  /** Outcome of the header peek. */
  datatype Peeked = Header(blen: nat) | PeekEnded(why: Ending)

  /** Outcome of gathering one frame's bytes. */
  datatype Gathered = Complete | Interrupted(why: Ending)

  /** Outcome of one turn of the outer loop. */
  datatype Turn = Continue | Stop(why: Ending)

  /** Lines 156-170: peek at three bytes without consuming them and decode the
      big-endian length from the first two. Since every byte of the stream has
      already arrived, a peek that sees one or two bytes would see the same on
      every retry, so the model reports the loop at lines 157-166 as stalled
      where the source keeps retrying. */
  method PeekHeader(sock: Source) returns (p: Peeked)
    ensures p.Header? ==> |sock.pending| >= PeekSize && p.blen == FromBE16(sock.pending[0], sock.pending[1])
    ensures p.PeekEnded? && p.why == RecvFailed ==> !sock.reliable
    ensures p.PeekEnded? && p.why != RecvFailed ==> NextFrame(sock.pending) == Done(p.why, sock.pending)
  {
    var hdrbuff := new byte[4];
    var len := sock.Peek(hdrbuff, PeekSize);
    if len < 0 {
      return PeekEnded(RecvFailed);
    }
    if len == 0 {
      return PeekEnded(PeerClosed);
    }
    if len < PeekSize {
      return PeekEnded(Stalled);
    }
    assert hdrbuff[0] == hdrbuff[..3][0] && hdrbuff[1] == hdrbuff[..3][1];
    p := Header(FromBE16(hdrbuff[0], hdrbuff[1]));
  }

  /** Lines 171-192: allocate `declared` bytes and read into them until that
      many have arrived. `mlen + blen` stays equal to the declared length and
      each successful `recv` lowers `blen`, so on completion exactly one frame
      has been consumed and nothing after it. */
  method ReceiveFrame(sock: Source, declared: nat) returns (mbuff: array<byte>, mlen: nat, g: Gathered)
    modifies sock
    ensures fresh(mbuff) && mbuff.Length == declared
    ensures g.Complete? ==> mlen == declared && |old(sock.pending)| >= declared
    ensures g.Complete? ==> mbuff[..] == old(sock.pending)[..declared] && sock.pending == old(sock.pending)[declared..]
    ensures g.Interrupted? && g.why == ClosedMidFrame ==> |old(sock.pending)| < declared && sock.pending == []
    ensures g.Interrupted? ==> g.why == ClosedMidFrame || (g.why == RecvFailed && !sock.reliable)
  {
    var blen: nat := declared;
    mlen := 0;
    mbuff := new byte[blen];
    var buff: nat := 0;  // offset of the `buff` cursor in `mbuff`
    while blen > 0
      invariant mbuff.Length == declared
      invariant mlen + blen == declared && buff == mlen
      invariant mlen <= |old(sock.pending)|
      invariant mbuff[..mlen] == old(sock.pending)[..mlen]
      invariant sock.pending == old(sock.pending)[mlen..]
      decreases blen
    {
      var len := sock.Read(mbuff, buff, blen);
      if len < 0 {
        return mbuff, mlen, Interrupted(RecvFailed);
      }
      if len == 0 {
        return mbuff, mlen, Interrupted(ClosedMidFrame);
      }
      assert mbuff[..mlen + len] == mbuff[..mlen] + mbuff[mlen..mlen + len];
      assert old(sock.pending)[..mlen + len] == old(sock.pending)[..mlen] + old(sock.pending)[mlen..][..len];
      buff := buff + len;
      mlen := mlen + len;
      blen := blen - len;
    }
    assert mbuff[..] == mbuff[..mlen];
    g := Complete;
  }

  /** Lines 195-196: shift the received bytes two places down over the header
      (`memmove`) and write the terminator at `mlen - 2`. */
  method StripHeader(mbuff: array<byte>, mlen: nat)
    requires HeaderSize <= mlen <= mbuff.Length
    modifies mbuff
    ensures mbuff[..] == old(mbuff[HeaderSize..mlen]) + [0] + old(mbuff[mlen - 1..])
  {
    ghost var before := mbuff[..];
    var k := 0;
    while k < mlen - HeaderSize
      invariant 0 <= k <= mlen - HeaderSize
      invariant forall j :: 0 <= j < k ==> mbuff[j] == before[j + HeaderSize]
      invariant forall j :: k <= j < mbuff.Length ==> mbuff[j] == before[j]
    {
      mbuff[k] := mbuff[k + HeaderSize];
      k := k + 1;
    }
    mbuff[mlen - HeaderSize] := 0;
    assert mbuff[..] == before[HeaderSize..mlen] + [0] + before[mlen - 1..] by {
      forall j | 0 <= j < mbuff.Length
        ensures mbuff[..][j] == (before[HeaderSize..mlen] + [0] + before[mlen - 1..])[j]
      {
      }
    }
  }

  /** Lines 155-200, one turn of the outer loop: peek, gather, strip and print
      one frame, or stop. On a stream that does not fail the turn does what
      `NextFrame` says. */
  method RecvOne(sock: Source, console: Console) returns (t: Turn)
    modifies sock, console
    ensures t.Stop? ==> console.lines == old(console.lines)
    ensures t.Stop? && t.why == RecvFailed ==> !sock.reliable
    ensures t.Stop? && t.why != RecvFailed ==> NextFrame(old(sock.pending)) == Done(t.why, sock.pending)
    ensures t.Continue? ==> NextFrame(old(sock.pending)).Message? && NextFrame(old(sock.pending)).rest == sock.pending
    ensures t.Continue? ==> console.lines == old(console.lines) + [CString(NextFrame(old(sock.pending)).content)]
  {
    ghost var s := sock.pending;
    var p := PeekHeader(sock);
    if p.PeekEnded? {
      return Stop(p.why);
    }
    var mbuff, mlen, g := ReceiveFrame(sock, p.blen);
    if g.Interrupted? {
      return Stop(g.why);
    }
    if mlen < HeaderSize {
      // A declared length of 0 or 1 leaves `mlen - 2` negative: the source's
      // `memmove` and terminator write are undefined from here on.
      return Stop(ShortFrame);
    }
    ghost var content := s[HeaderSize..mlen];
    assert NextFrame(s) == Message(content, sock.pending);
    assert mbuff[HeaderSize..mlen] == content;
    ghost var tail := mbuff[mlen - 1..];
    StripHeader(mbuff, mlen);
    CStringTerminated(content, tail);
    console.PrintString(mbuff);
    t := Continue;
  }

  /** Lines 145-202: print every frame of the stream until the peer closes,
      a read fails or the framing cannot go on. Whatever short counts `recv`
      returns, the lines printed are those of `Decode` on the stream; an error
      cuts the list after some frame. `delivered` counts the frames printed. */
  method RecvMsg(sock: Source, console: Console) returns (why: Ending, ghost delivered: nat)
    modifies sock, console
    ensures delivered <= |Decode(old(sock.pending)).messages|
    ensures console.lines == old(console.lines) + Printed(Decode(old(sock.pending)).messages[..delivered])
    ensures why != RecvFailed ==> why == Decode(old(sock.pending)).why
    ensures why != RecvFailed ==> delivered == |Decode(old(sock.pending)).messages|
    ensures why != RecvFailed ==> sock.pending == Decode(old(sock.pending)).rest
    ensures sock.reliable ==> why != RecvFailed
  {
    ghost var all := Decode(sock.pending);
    delivered := 0;
    while true
      invariant delivered <= |all.messages|
      invariant Decode(sock.pending) == Transcript(all.messages[delivered..], all.why, all.rest)
      invariant console.lines == old(console.lines) + Printed(all.messages[..delivered])
      decreases |sock.pending|
    {
      ghost var s := sock.pending;
      ghost var lines := console.lines;
      var t := RecvOne(sock, console);
      if t.Stop? {
        if t.why != RecvFailed {
          LastTurn(s, all.messages, delivered, all.why, all.rest, t.why, sock.pending);
        }
        return t.why, delivered;
      }
      NextDelivered(s, all.messages, delivered, all.why, all.rest, old(console.lines), lines);
      delivered := delivered + 1;
    }
  }

  /** A turn that stops without an error ends the transcript. */
  lemma LastTurn(s: seq<byte>, msgs: seq<seq<byte>>, k: nat, why: Ending, rest: seq<byte>,
                 w: Ending, r: seq<byte>)
    requires k <= |msgs| && Decode(s) == Transcript(msgs[k..], why, rest)
    requires NextFrame(s) == Done(w, r)
    ensures k == |msgs| && w == why && r == rest
  {
    assert |msgs[k..]| == 0;
  }

  /** A turn that delivers a message takes the next message of the transcript
      and prints one more line. */
  lemma NextDelivered(s: seq<byte>, msgs: seq<seq<byte>>, k: nat, why: Ending, rest: seq<byte>,
                      before: seq<seq<byte>>, lines: seq<seq<byte>>)
    requires k <= |msgs| && NextFrame(s).Message?
    requires Decode(s) == Transcript(msgs[k..], why, rest)
    requires lines == before + Printed(msgs[..k])
    ensures k < |msgs|
    ensures Decode(NextFrame(s).rest) == Transcript(msgs[k + 1..], why, rest)
    ensures lines + [CString(NextFrame(s).content)] == before + Printed(msgs[..k + 1])
  {
    var t := Decode(NextFrame(s).rest);
    assert msgs[k..] == [NextFrame(s).content] + t.messages;
    assert msgs[k + 1..] == msgs[k..][1..];
    assert msgs[..k + 1] == msgs[..k] + [msgs[k]];
    PrintedAppend(msgs[..k], [msgs[k]]);
  }
}
