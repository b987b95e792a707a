// The two halves put together: what the one-shot sender writes, read back by
// the receive loop.

module Session {
  import opened Bytes
  import opened Framing
  import opened Io
  import opened Sender
  import opened Receiver

  /** A one-shot command of at most 254 bytes comes out of the receive loop
      as exactly one printed line equal to the command, however `recv` splits
      the stream; then the loop sees the peer's close. */
  method OneShotDelivers(cmd: seq<byte>) returns (lines: seq<seq<byte>>, why: Ending)
    requires 0 < |cmd| <= MaxCommand && NoNul(cmd)
    ensures lines == [cmd] && why == PeerClosed
  {
    var buff := new byte[StagingSize];
    var wire := new Sink();
    var overread := SendOneShot(cmd, buff, wire);
    assert wire.sent == Encode(cmd);
    var sock := new Source(wire.sent, true);
    var console := new Console();
    DecodeEncodeAll([cmd]);
    assert EncodeAll([cmd]) == Encode(cmd) by {
      assert [cmd][1..] == [];
    }
    assert Decode(sock.pending) == Transcript([cmd], PeerClosed, []);
    ghost var delivered: nat;
    why, delivered := RecvMsg(sock, console);
    assert delivered == 1;
    PrintedWithoutNul([cmd]);
    assert [cmd][..1] == [cmd];
    lines := console.lines;
  }

  /** The empty command is sent as the bare header `00 02`, which the receive
      loop never gets past: nothing is printed. */
  method EmptyOneShotStalls() returns (lines: seq<seq<byte>>, why: Ending)
    ensures lines == [] && why == Stalled
  {
    var buff := new byte[StagingSize];
    var wire := new Sink();
    var overread := SendOneShot([], buff, wire);
    var sock := new Source(wire.sent, true);
    var console := new Console();
    ghost var delivered: nat;
    why, delivered := RecvMsg(sock, console);
    EmptyFinalFrameStalls();
    lines := console.lines;
  }
}
