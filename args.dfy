// The command-line scan at the top of `main`: `-V`, `-h`, `-p <port>`, then
// up to two positional words, the host and the command.

module Args {
  import opened Bytes

  datatype Option<T> = None | Some(value: T)

  const DefaultPort: int := 3333
  const MaxPort: int := 65535
  /** "localhost" */
  const DefaultHost: seq<byte> := [0x6C, 0x6F, 0x63, 0x61, 0x6C, 0x68, 0x6F, 0x73, 0x74]
  /** "-V" */
  const FlagVersion: seq<byte> := [0x2D, 0x56]
  /** "-h" */
  const FlagHelp: seq<byte> := [0x2D, 0x68]
  /** "-p" */
  const FlagPort: seq<byte> := [0x2D, 0x70]
  /** '-' */
  const Dash: byte := 0x2D

  /** How a run of the program goes after the scan. */
  datatype Invocation =
    | Run(port: int, host: seq<byte>, cmd: Option<seq<byte>>)
    | ShowVersion        // `version()`: print and exit
    | ShowUsage          // `usage()`: print and exit
    | MissingPortValue   // `-p` is the last argument: `atoi(argv[argc])` reads the terminating null pointer

  /** An argument that is not an option: empty, or not starting with '-'. */
  predicate IsWord(a: seq<byte>)
  {
    a == [] || a[0] != Dash
  }

  /** The scan from argument `i` on, with the values gathered so far. `atoi`
      stands for the C library's conversion, which this model leaves abstract. */
  function ScanFrom(argv: seq<seq<byte>>, atoi: seq<byte> -> int, i: nat,
                    port: int, host: Option<seq<byte>>, cmd: Option<seq<byte>>): (r: Invocation)
    decreases |argv| - i
  {
    if i >= |argv| then
      Run(port, if host.Some? then host.value else DefaultHost, cmd)
    else if argv[i] == FlagVersion then ShowVersion
    else if argv[i] == FlagHelp then ShowUsage
    else if argv[i] == FlagPort then
      if i + 1 >= |argv| then MissingPortValue
      else
        var p := atoi(argv[i + 1]);
        if p <= 0 || p > MaxPort then ShowUsage
        else ScanFrom(argv, atoi, i + 2, p, host, cmd)
    else if IsWord(argv[i]) then
      if host.Some? then ScanFrom(argv, atoi, i + 1, port, host, Some(argv[i]))
      else ScanFrom(argv, atoi, i + 1, port, Some(argv[i]), cmd)
    else ShowUsage
  }

  /** The whole scan: `argv[0]` is the program name. */
  function Scan(argv: seq<seq<byte>>, atoi: seq<byte> -> int): Invocation
  {
    ScanFrom(argv, atoi, 1, DefaultPort, None, None)
  }

  /** Lines 35-65: walk `argv`, updating `port`, `host` and `cmd`, stopping at
      the first argument that prints the version or the usage. */
  method ScanArgs(argv: seq<seq<byte>>, atoi: seq<byte> -> int) returns (inv: Invocation)
    ensures inv == Scan(argv, atoi)
    ensures inv.Run? ==> 1 <= inv.port <= MaxPort
  {
    var port := DefaultPort;
    var host: Option<seq<byte>> := None;
    var cmd: Option<seq<byte>> := None;
    var i := 1;
    while i < |argv|
      invariant 1 <= i
      invariant 1 <= port <= MaxPort
      invariant ScanFrom(argv, atoi, i, port, host, cmd) == Scan(argv, atoi)
      decreases |argv| - i
    {
      if argv[i] == FlagVersion {
        return ShowVersion;
      } else if argv[i] == FlagHelp {
        return ShowUsage;
      } else if argv[i] == FlagPort {
        i := i + 1;
        if i >= |argv| {
          return MissingPortValue;
        }
        port := atoi(argv[i]);
        if port <= 0 || port > MaxPort {
          return ShowUsage;
        }
      } else if IsWord(argv[i]) {
        if host.Some? {
          cmd := Some(argv[i]);
        } else {
          host := Some(argv[i]);
        }
      } else {
        return ShowUsage;
      }
      i := i + 1;
    }
    if host.None? {
      host := Some(DefaultHost);
    }
    inv := Run(port, host.value, cmd);
  }

  /** Every port a run uses passed the range check, whatever `atoi` returns. */
  lemma {:induction false} ScanFromPortInRange(argv: seq<seq<byte>>, atoi: seq<byte> -> int, i: nat,
                                               port: int, host: Option<seq<byte>>, cmd: Option<seq<byte>>)
    requires 1 <= port <= MaxPort
    ensures ScanFrom(argv, atoi, i, port, host, cmd).Run? ==> 1 <= ScanFrom(argv, atoi, i, port, host, cmd).port <= MaxPort
    decreases |argv| - i
  {
    if i < |argv| {
      if argv[i] == FlagVersion || argv[i] == FlagHelp {
      } else if argv[i] == FlagPort {
        if i + 1 < |argv| && 1 <= atoi(argv[i + 1]) <= MaxPort {
          ScanFromPortInRange(argv, atoi, i + 2, atoi(argv[i + 1]), host, cmd);
        }
      } else if IsWord(argv[i]) {
        if host.Some? {
          ScanFromPortInRange(argv, atoi, i + 1, port, host, Some(argv[i]));
        } else {
          ScanFromPortInRange(argv, atoi, i + 1, port, Some(argv[i]), cmd);
        }
      }
    }
  }

  lemma ScanPortInRange(argv: seq<seq<byte>>, atoi: seq<byte> -> int)
    ensures Scan(argv, atoi).Run? ==> 1 <= Scan(argv, atoi).port <= MaxPort
  {
    ScanFromPortInRange(argv, atoi, 1, DefaultPort, None, None);
  }

  /** Once the host is set, every further word replaces the command: the last one wins. */
  lemma {:induction false} WordsAfterHost(argv: seq<seq<byte>>, atoi: seq<byte> -> int, i: nat,
                                          port: int, h: seq<byte>, cmd: Option<seq<byte>>)
    requires forall j :: i <= j < |argv| ==> IsWord(argv[j])
    ensures ScanFrom(argv, atoi, i, port, Some(h), cmd)
            == Run(port, h, if i < |argv| then Some(argv[|argv| - 1]) else cmd)
    decreases |argv| - i
  {
    if i < |argv| {
      assert argv[i] != FlagVersion && argv[i] != FlagHelp && argv[i] != FlagPort by {
        assert IsWord(argv[i]);
      }
      WordsAfterHost(argv, atoi, i + 1, port, h, Some(argv[i]));
    }
  }

  /** Without options: port 3333, the first word is the host ("localhost" when
      there is none), and the command is the last of the words after it. */
  lemma ScanWordsOnly(argv: seq<seq<byte>>, atoi: seq<byte> -> int)
    requires forall j :: 1 <= j < |argv| ==> IsWord(argv[j])
    ensures Scan(argv, atoi)
            == Run(DefaultPort,
                   if |argv| > 1 then argv[1] else DefaultHost,
                   if |argv| > 2 then Some(argv[|argv| - 1]) else None)
  {
    if |argv| > 1 {
      assert argv[1] != FlagVersion && argv[1] != FlagHelp && argv[1] != FlagPort by {
        assert IsWord(argv[1]);
      }
      WordsAfterHost(argv, atoi, 2, DefaultPort, argv[1], None);
    }
  }

  /** `version()` and `usage()` exit at once: whatever follows the argument
      that called them is never looked at. */
  lemma {:induction false} ScanFromExitIsFinal(argv: seq<seq<byte>>, more: seq<seq<byte>>, atoi: seq<byte> -> int,
                                               i: nat, port: int, host: Option<seq<byte>>, cmd: Option<seq<byte>>)
    requires ScanFrom(argv, atoi, i, port, host, cmd) in {ShowVersion, ShowUsage}
    ensures ScanFrom(argv + more, atoi, i, port, host, cmd) == ScanFrom(argv, atoi, i, port, host, cmd)
    decreases |argv| - i
  {
    var all := argv + more;
    assert i < |argv|;
    assert all[i] == argv[i];
    if argv[i] == FlagVersion || argv[i] == FlagHelp {
    } else if argv[i] == FlagPort {
      assert all[i + 1] == argv[i + 1];
      var p := atoi(argv[i + 1]);
      if 1 <= p <= MaxPort {
        ScanFromExitIsFinal(argv, more, atoi, i + 2, p, host, cmd);
      }
    } else if IsWord(argv[i]) {
      if host.Some? {
        ScanFromExitIsFinal(argv, more, atoi, i + 1, port, host, Some(argv[i]));
      } else {
        ScanFromExitIsFinal(argv, more, atoi, i + 1, port, Some(argv[i]), cmd);
      }
    }
  }

  lemma ScanExitIsFinal(argv: seq<seq<byte>>, more: seq<seq<byte>>, atoi: seq<byte> -> int)
    requires Scan(argv, atoi) in {ShowVersion, ShowUsage}
    ensures Scan(argv + more, atoi) == Scan(argv, atoi)
  {
    ScanFromExitIsFinal(argv, more, atoi, 1, DefaultPort, None, None);
  }

  /** The arguments from `i` up to `j` take the scan from `i` to `j` without
      an exit: each is a word, or `-p` followed by a value `atoi` puts in range. */
  predicate CleanTo(argv: seq<seq<byte>>, atoi: seq<byte> -> int, i: nat, j: nat)
    decreases j - i
  {
    i == j ||
    (i < j && j <= |argv| &&
     ((argv[i] == FlagPort && i + 2 <= j && 1 <= atoi(argv[i + 1]) <= MaxPort && CleanTo(argv, atoi, i + 2, j))
      || (IsWord(argv[i]) && CleanTo(argv, atoi, i + 1, j))))
  }

  /** The words from `i` on: every argument that is neither an option nor the
      value of a `-p`. */
  function Positionals(argv: seq<seq<byte>>, i: nat): seq<seq<byte>>
    decreases |argv| - i
  {
    if i >= |argv| then []
    else if argv[i] == FlagPort then (if i + 1 < |argv| then Positionals(argv, i + 2) else [])
    else if IsWord(argv[i]) then [argv[i]] + Positionals(argv, i + 1)
    else Positionals(argv, i + 1)
  }

  /** The values given to `-p` from `i` on, in order. */
  function PortValues(argv: seq<seq<byte>>, i: nat): seq<seq<byte>>
    decreases |argv| - i
  {
    if i >= |argv| then []
    else if argv[i] == FlagPort then (if i + 1 < |argv| then [argv[i + 1]] + PortValues(argv, i + 2) else [])
    else PortValues(argv, i + 1)
  }

  /** A `-p` the scan gets past moves it two arguments on with the new port,
      skipping the value for the words and recording it for the port. */
  lemma PortStep(argv: seq<seq<byte>>, atoi: seq<byte> -> int, i: nat,
                 port: int, host: Option<seq<byte>>, cmd: Option<seq<byte>>)
    requires CleanTo(argv, atoi, i, |argv|) && i < |argv| && argv[i] == FlagPort
    ensures i + 2 <= |argv| && CleanTo(argv, atoi, i + 2, |argv|)
    ensures ScanFrom(argv, atoi, i, port, host, cmd) == ScanFrom(argv, atoi, i + 2, atoi(argv[i + 1]), host, cmd)
    ensures Positionals(argv, i) == Positionals(argv, i + 2)
    ensures PortValues(argv, i) == [argv[i + 1]] + PortValues(argv, i + 2)
  {
    assert FlagPort != FlagVersion && FlagPort != FlagHelp;
  }

  /** A word moves the scan one argument on: it becomes the host when none is
      set, the command otherwise. */
  lemma WordStep(argv: seq<seq<byte>>, atoi: seq<byte> -> int, i: nat,
                 port: int, host: Option<seq<byte>>, cmd: Option<seq<byte>>)
    requires CleanTo(argv, atoi, i, |argv|) && i < |argv| && argv[i] != FlagPort
    ensures IsWord(argv[i]) && CleanTo(argv, atoi, i + 1, |argv|)
    ensures host.None? ==> ScanFrom(argv, atoi, i, port, host, cmd) == ScanFrom(argv, atoi, i + 1, port, Some(argv[i]), cmd)
    ensures host.Some? ==> ScanFrom(argv, atoi, i, port, host, cmd) == ScanFrom(argv, atoi, i + 1, port, host, Some(argv[i]))
    ensures Positionals(argv, i) == [argv[i]] + Positionals(argv, i + 1)
    ensures PortValues(argv, i) == PortValues(argv, i + 1)
  {
    assert IsWord(argv[i]) && argv[i] != FlagVersion && argv[i] != FlagHelp;
  }

  /** Where the port comes from in a scan without an exit: the last `-p`
      value from `i` on, else the port gathered before. */
  lemma {:induction false} ScanFromRunPort(argv: seq<seq<byte>>, atoi: seq<byte> -> int, i: nat,
                                           port: int, host: Option<seq<byte>>, cmd: Option<seq<byte>>)
    requires CleanTo(argv, atoi, i, |argv|)
    ensures ScanFrom(argv, atoi, i, port, host, cmd).Run?
    ensures ScanFrom(argv, atoi, i, port, host, cmd).port
            == if PortValues(argv, i) == [] then port
               else atoi(PortValues(argv, i)[|PortValues(argv, i)| - 1])
    decreases |argv| - i, 1
  {
    if i < |argv| {
      if argv[i] == FlagPort {
        ScanFromRunPortOverFlag(argv, atoi, i, port, host, cmd);
      } else {
        ScanFromRunPortOverWord(argv, atoi, i, port, host, cmd);
      }
    }
  }

  /** A `-p` sets the port that later values may replace. */
  lemma {:induction false} ScanFromRunPortOverFlag(argv: seq<seq<byte>>, atoi: seq<byte> -> int, i: nat,
                                               port: int, host: Option<seq<byte>>, cmd: Option<seq<byte>>)
    requires CleanTo(argv, atoi, i, |argv|) && i < |argv| && argv[i] == FlagPort
    ensures ScanFrom(argv, atoi, i, port, host, cmd).Run?
    ensures ScanFrom(argv, atoi, i, port, host, cmd).port
            == if PortValues(argv, i) == [] then port
               else atoi(PortValues(argv, i)[|PortValues(argv, i)| - 1])
    decreases |argv| - i, 0
  {
    PortStep(argv, atoi, i, port, host, cmd);
    ScanFromRunPort(argv, atoi, i + 2, atoi(argv[i + 1]), host, cmd);
  }

  /** A word leaves the port alone. */
  lemma {:induction false} ScanFromRunPortOverWord(argv: seq<seq<byte>>, atoi: seq<byte> -> int, i: nat,
                                               port: int, host: Option<seq<byte>>, cmd: Option<seq<byte>>)
    requires CleanTo(argv, atoi, i, |argv|) && i < |argv| && argv[i] != FlagPort
    ensures ScanFrom(argv, atoi, i, port, host, cmd).Run?
    ensures ScanFrom(argv, atoi, i, port, host, cmd).port
            == if PortValues(argv, i) == [] then port
               else atoi(PortValues(argv, i)[|PortValues(argv, i)| - 1])
    decreases |argv| - i, 0
  {
    WordStep(argv, atoi, i, port, host, cmd);
    if host.Some? {
      ScanFromRunPort(argv, atoi, i + 1, port, host, Some(argv[i]));
    } else {
      ScanFromRunPort(argv, atoi, i + 1, port, Some(argv[i]), cmd);
    }
  }

  /** Where the host comes from in a scan without an exit: the one gathered
      before `i`, else the first word from `i` on. */
  lemma {:induction false} ScanFromRunHost(argv: seq<seq<byte>>, atoi: seq<byte> -> int, i: nat,
                                           port: int, host: Option<seq<byte>>, cmd: Option<seq<byte>>)
    requires CleanTo(argv, atoi, i, |argv|)
    ensures ScanFrom(argv, atoi, i, port, host, cmd).Run?
    ensures ScanFrom(argv, atoi, i, port, host, cmd).host
            == if host.Some? then host.value
               else if Positionals(argv, i) == [] then DefaultHost else Positionals(argv, i)[0]
    decreases |argv| - i, 1
  {
    if i < |argv| {
      if argv[i] == FlagPort {
        ScanFromRunHostOverFlag(argv, atoi, i, port, host, cmd);
      } else {
        ScanFromRunHostOverWord(argv, atoi, i, port, host, cmd);
      }
    }
  }

  /** A `-p` and its value are no host. */
  lemma {:induction false} ScanFromRunHostOverFlag(argv: seq<seq<byte>>, atoi: seq<byte> -> int, i: nat,
                                               port: int, host: Option<seq<byte>>, cmd: Option<seq<byte>>)
    requires CleanTo(argv, atoi, i, |argv|) && i < |argv| && argv[i] == FlagPort
    ensures ScanFrom(argv, atoi, i, port, host, cmd).Run?
    ensures ScanFrom(argv, atoi, i, port, host, cmd).host
            == if host.Some? then host.value
               else if Positionals(argv, i) == [] then DefaultHost else Positionals(argv, i)[0]
    decreases |argv| - i, 0
  {
    PortStep(argv, atoi, i, port, host, cmd);
    ScanFromRunHost(argv, atoi, i + 2, atoi(argv[i + 1]), host, cmd);
  }

  /** A word is the host when none is set yet. */
  lemma {:induction false} ScanFromRunHostOverWord(argv: seq<seq<byte>>, atoi: seq<byte> -> int, i: nat,
                                               port: int, host: Option<seq<byte>>, cmd: Option<seq<byte>>)
    requires CleanTo(argv, atoi, i, |argv|) && i < |argv| && argv[i] != FlagPort
    ensures ScanFrom(argv, atoi, i, port, host, cmd).Run?
    ensures ScanFrom(argv, atoi, i, port, host, cmd).host
            == if host.Some? then host.value
               else if Positionals(argv, i) == [] then DefaultHost else Positionals(argv, i)[0]
    decreases |argv| - i, 0
  {
    WordStep(argv, atoi, i, port, host, cmd);
    if host.Some? {
      ScanFromRunHost(argv, atoi, i + 1, port, host, Some(argv[i]));
    } else {
      ScanFromRunHost(argv, atoi, i + 1, port, Some(argv[i]), cmd);
    }
  }

  /** Once the host is set, the command of a scan without an exit is the last
      word from `i` on, else the one gathered before. */
  lemma {:induction false} ScanFromRunCmdAfterHost(argv: seq<seq<byte>>, atoi: seq<byte> -> int, i: nat,
                                                   port: int, host: seq<byte>, cmd: Option<seq<byte>>)
    requires CleanTo(argv, atoi, i, |argv|)
    ensures ScanFrom(argv, atoi, i, port, Some(host), cmd).Run?
    ensures ScanFrom(argv, atoi, i, port, Some(host), cmd).cmd
            == if Positionals(argv, i) == [] then cmd
               else Some(Positionals(argv, i)[|Positionals(argv, i)| - 1])
    decreases |argv| - i, 1
  {
    if i < |argv| {
      if argv[i] == FlagPort {
        ScanFromRunCmdAfterHostOverFlag(argv, atoi, i, port, host, cmd);
      } else {
        ScanFromRunCmdAfterHostOverWord(argv, atoi, i, port, host, cmd);
      }
    }
  }

  /** A `-p` and its value are no command. */
  lemma {:induction false} ScanFromRunCmdAfterHostOverFlag(argv: seq<seq<byte>>, atoi: seq<byte> -> int, i: nat,
                                                       port: int, host: seq<byte>, cmd: Option<seq<byte>>)
    requires CleanTo(argv, atoi, i, |argv|) && i < |argv| && argv[i] == FlagPort
    ensures ScanFrom(argv, atoi, i, port, Some(host), cmd).Run?
    ensures ScanFrom(argv, atoi, i, port, Some(host), cmd).cmd
            == if Positionals(argv, i) == [] then cmd
               else Some(Positionals(argv, i)[|Positionals(argv, i)| - 1])
    decreases |argv| - i, 0
  {
    PortStep(argv, atoi, i, port, Some(host), cmd);
    ScanFromRunCmdAfterHost(argv, atoi, i + 2, atoi(argv[i + 1]), host, cmd);
  }

  /** With the host set, a word is the command until a later one replaces it. */
  lemma {:induction false} ScanFromRunCmdAfterHostOverWord(argv: seq<seq<byte>>, atoi: seq<byte> -> int, i: nat,
                                                       port: int, host: seq<byte>, cmd: Option<seq<byte>>)
    requires CleanTo(argv, atoi, i, |argv|) && i < |argv| && argv[i] != FlagPort
    ensures ScanFrom(argv, atoi, i, port, Some(host), cmd).Run?
    ensures ScanFrom(argv, atoi, i, port, Some(host), cmd).cmd
            == if Positionals(argv, i) == [] then cmd
               else Some(Positionals(argv, i)[|Positionals(argv, i)| - 1])
    decreases |argv| - i, 0
  {
    WordStep(argv, atoi, i, port, Some(host), cmd);
    ScanFromRunCmdAfterHost(argv, atoi, i + 1, port, host, Some(argv[i]));
    var ws := Positionals(argv, i + 1);
    assert ws != [] ==> ([argv[i]] + ws)[|ws|] == ws[|ws| - 1];
  }

  /** Before the host is set, the command of a scan without an exit is the
      last word after the first one from `i` on, else the one gathered before. */
  lemma {:induction false} ScanFromRunCmd(argv: seq<seq<byte>>, atoi: seq<byte> -> int, i: nat,
                                          port: int, cmd: Option<seq<byte>>)
    requires CleanTo(argv, atoi, i, |argv|)
    ensures ScanFrom(argv, atoi, i, port, None, cmd).Run?
    ensures ScanFrom(argv, atoi, i, port, None, cmd).cmd
            == if |Positionals(argv, i)| >= 2
               then Some(Positionals(argv, i)[|Positionals(argv, i)| - 1]) else cmd
    decreases |argv| - i, 1
  {
    if i < |argv| {
      if argv[i] == FlagPort {
        ScanFromRunCmdOverFlag(argv, atoi, i, port, cmd);
      } else {
        ScanFromRunCmdOverWord(argv, atoi, i, port, cmd);
      }
    }
  }

  /** A `-p` before the host changes nothing about the command. */
  lemma {:induction false} ScanFromRunCmdOverFlag(argv: seq<seq<byte>>, atoi: seq<byte> -> int, i: nat,
                                              port: int, cmd: Option<seq<byte>>)
    requires CleanTo(argv, atoi, i, |argv|) && i < |argv| && argv[i] == FlagPort
    ensures ScanFrom(argv, atoi, i, port, None, cmd).Run?
    ensures ScanFrom(argv, atoi, i, port, None, cmd).cmd
            == if |Positionals(argv, i)| >= 2
               then Some(Positionals(argv, i)[|Positionals(argv, i)| - 1]) else cmd
    decreases |argv| - i, 0
  {
    PortStep(argv, atoi, i, port, None, cmd);
    ScanFromRunCmd(argv, atoi, i + 2, atoi(argv[i + 1]), cmd);
  }

  /** The first word is the host; the command is then the last word after it. */
  lemma {:induction false} ScanFromRunCmdOverWord(argv: seq<seq<byte>>, atoi: seq<byte> -> int, i: nat,
                                              port: int, cmd: Option<seq<byte>>)
    requires CleanTo(argv, atoi, i, |argv|) && i < |argv| && argv[i] != FlagPort
    ensures ScanFrom(argv, atoi, i, port, None, cmd).Run?
    ensures ScanFrom(argv, atoi, i, port, None, cmd).cmd
            == if |Positionals(argv, i)| >= 2
               then Some(Positionals(argv, i)[|Positionals(argv, i)| - 1]) else cmd
    decreases |argv| - i, 0
  {
    WordStep(argv, atoi, i, port, None, cmd);
    ScanFromRunCmdAfterHost(argv, atoi, i + 1, port, argv[i], cmd);
    var ws := Positionals(argv, i + 1);
    assert ws != [] ==> ([argv[i]] + ws)[|ws|] == ws[|ws| - 1];
  }

  /** The scan ends in a run exactly when no argument exits it. */
  lemma {:induction false} ScanFromRunsIff(argv: seq<seq<byte>>, atoi: seq<byte> -> int, i: nat,
                                           port: int, host: Option<seq<byte>>, cmd: Option<seq<byte>>)
    requires i <= |argv|
    ensures ScanFrom(argv, atoi, i, port, host, cmd).Run? <==> CleanTo(argv, atoi, i, |argv|)
    decreases |argv| - i
  {
    if i < |argv| {
      if argv[i] == FlagPort {
        if i + 1 < |argv| {
          ScanFromRunsIff(argv, atoi, i + 2, atoi(argv[i + 1]), host, cmd);
        }
      } else if IsWord(argv[i]) {
        if host.Some? {
          ScanFromRunsIff(argv, atoi, i + 1, port, host, Some(argv[i]));
        } else {
          ScanFromRunsIff(argv, atoi, i + 1, port, Some(argv[i]), cmd);
        }
      }
    }
  }

  /** The whole scan: it runs exactly when no argument exits, and then the
      port is the last `-p` value (3333 without one), the host is the first
      word ("localhost" without one) and the command is the last of the words
      after it (none without one). */
  lemma ScanRunShape(argv: seq<seq<byte>>, atoi: seq<byte> -> int)
    ensures Scan(argv, atoi).Run? <==> |argv| <= 1 || CleanTo(argv, atoi, 1, |argv|)
    ensures Scan(argv, atoi).Run? ==>
              var ws := Positionals(argv, 1);
              var ps := PortValues(argv, 1);
              Scan(argv, atoi)
              == Run(if ps == [] then DefaultPort else atoi(ps[|ps| - 1]),
                     if ws == [] then DefaultHost else ws[0],
                     if |ws| >= 2 then Some(ws[|ws| - 1]) else None)
  {
    if |argv| > 1 {
      ScanFromRunsIff(argv, atoi, 1, DefaultPort, None, None);
      if CleanTo(argv, atoi, 1, |argv|) {
        ScanFromRunPort(argv, atoi, 1, DefaultPort, None, None);
        ScanFromRunHost(argv, atoi, 1, DefaultPort, None, None);
        ScanFromRunCmd(argv, atoi, 1, DefaultPort, None);
      }
    }
  }

  /** Arguments that do not exit only change what has been gathered: the scan
      from `i` is the scan from `j` with some port, host and command. */
  lemma {:induction false} ScanFromSkip(argv: seq<seq<byte>>, atoi: seq<byte> -> int, i: nat, j: nat,
                                        port: int, host: Option<seq<byte>>, cmd: Option<seq<byte>>)
    requires CleanTo(argv, atoi, i, j)
    ensures exists p: int, h: Option<seq<byte>>, c: Option<seq<byte>> ::
              ScanFrom(argv, atoi, i, port, host, cmd) == ScanFrom(argv, atoi, j, p, h, c)
    decreases j - i
  {
    if i == j {
      assert ScanFrom(argv, atoi, i, port, host, cmd) == ScanFrom(argv, atoi, j, port, host, cmd);
    } else if argv[i] == FlagPort && i + 2 <= j && 1 <= atoi(argv[i + 1]) <= MaxPort && CleanTo(argv, atoi, i + 2, j) {
      ScanFromSkip(argv, atoi, i + 2, j, atoi(argv[i + 1]), host, cmd);
    } else {
      assert IsWord(argv[i]) && argv[i] != FlagVersion && argv[i] != FlagHelp && argv[i] != FlagPort;
      if host.Some? {
        ScanFromSkip(argv, atoi, i + 1, j, port, host, Some(argv[i]));
      } else {
        ScanFromSkip(argv, atoi, i + 1, j, port, Some(argv[i]), cmd);
      }
    }
  }

  /** `-p` at any position the scan reaches: as the last argument it has no
      value; with a value out of 1..65535 the usage is printed; with a value in
      range that no later `-p` replaces, the run uses that value as its port. */
  lemma ScanPortFlag(argv: seq<seq<byte>>, atoi: seq<byte> -> int, j: nat)
    requires CleanTo(argv, atoi, 1, j) && j < |argv| && argv[j] == FlagPort
    ensures j + 1 == |argv| ==> Scan(argv, atoi) == MissingPortValue
    ensures j + 1 < |argv| && !(1 <= atoi(argv[j + 1]) <= MaxPort) ==> Scan(argv, atoi) == ShowUsage
    ensures j + 1 < |argv| && 1 <= atoi(argv[j + 1]) <= MaxPort
            && CleanTo(argv, atoi, j + 2, |argv|) && PortValues(argv, j + 2) == []
            ==> Scan(argv, atoi).Run? && Scan(argv, atoi).port == atoi(argv[j + 1])
  {
    ScanFromSkip(argv, atoi, 1, j, DefaultPort, None, None);
    var p, h, c :| Scan(argv, atoi) == ScanFrom(argv, atoi, j, p, h, c);
    assert FlagPort != FlagVersion && FlagPort != FlagHelp;
    if j + 1 < |argv| && 1 <= atoi(argv[j + 1]) <= MaxPort && CleanTo(argv, atoi, j + 2, |argv|) {
      ScanFromRunPort(argv, atoi, j + 2, atoi(argv[j + 1]), h, c);
    }
  }

  /** Any other dash argument the scan reaches prints the usage. */
  lemma ScanUnknownOption(argv: seq<seq<byte>>, atoi: seq<byte> -> int, j: nat)
    requires CleanTo(argv, atoi, 1, j) && j < |argv|
    requires !IsWord(argv[j]) && argv[j] !in {FlagVersion, FlagHelp, FlagPort}
    ensures Scan(argv, atoi) == ShowUsage
  {
    ScanFromSkip(argv, atoi, 1, j, DefaultPort, None, None);
  }

  /** `-p v host cmd`: the value of `-p` is not taken for the host. */
  lemma ScanPortBeforeWords(prog: seq<byte>, v: seq<byte>, h: seq<byte>, c: seq<byte>, atoi: seq<byte> -> int)
    requires IsWord(h) && IsWord(c) && 1 <= atoi(v) <= MaxPort
    ensures Scan([prog, FlagPort, v, h, c], atoi) == Run(atoi(v), h, Some(c))
  {
    var argv := [prog, FlagPort, v, h, c];
    assert CleanTo(argv, atoi, 5, 5);
    assert CleanTo(argv, atoi, 4, 5);
    assert CleanTo(argv, atoi, 3, 5);
    assert CleanTo(argv, atoi, 1, 5);
    assert Positionals(argv, 1) == [h, c] by {
      assert Positionals(argv, 3) == [h] + Positionals(argv, 4);
      assert Positionals(argv, 4) == [c] + Positionals(argv, 5);
    }
    assert h != FlagPort && c != FlagPort;
    assert PortValues(argv, 1) == [v] by {
      assert PortValues(argv, 4) == PortValues(argv, 5) == [];
      assert PortValues(argv, 3) == PortValues(argv, 4);
      assert PortValues(argv, 1) == [v] + PortValues(argv, 3);
    }
    ScanRunShape(argv, atoi);
  }
}
