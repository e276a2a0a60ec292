/** The `journalctl` argument lists built by `monitor` (one follow-mode
    command) and `analyze` (one command per log source) from the log
    section of the configuration (whistle/__main__.py). Running them is
    left out. */
module Journal {
  import opened Settings

  /** A log source the configuration selects: the kernel ring or a unit. */
  datatype Source = Kernel | ServiceUnit(name: string)

  /** The selected sources in the order both commands visit them: the kernel
      first when `kernel_only` is set, then every configured unit in order. */
  function Sources(log: LogSettings): (r: seq<Source>)
    ensures |r| == (if log.kernelOnly then 1 else 0) + |Units(log)|
    ensures Kernel in r <==> log.kernelOnly
    ensures log.kernelOnly ==> r[0] == Kernel
    ensures var k := if log.kernelOnly then 1 else 0;
            forall i :: 0 <= i < |Units(log)| ==> r[k + i] == ServiceUnit(Units(log)[i])
  {
    (if log.kernelOnly then [Kernel] else []) + UnitSources(Units(log))
  }

  function UnitSources(units: seq<string>): (r: seq<Source>)
    ensures |r| == |units| && Kernel !in r
    ensures forall i :: 0 <= i < |units| ==> r[i] == ServiceUnit(units[i])
  {
    seq(|units|, i requires 0 <= i < |units| => ServiceUnit(units[i]))
  }

  /** The journalctl options that select one source. */
  function SourceArgs(s: Source): seq<string> {
    match s
    case Kernel => ["-k"]
    case ServiceUnit(u) => ["-u", u]
  }

  /** The options for a list of sources, one group after another. */
  function FlatArgs(sources: seq<Source>): seq<string>
    decreases |sources|
  {
    if |sources| == 0 then [] else SourceArgs(sources[0]) + FlatArgs(sources[1..])
  }

  /** `-u <unit>` for each unit, in order. */
  function UnitArgs(units: seq<string>): (args: seq<string>)
    ensures |args| == 2 * |units|
    ensures forall i :: 0 <= i < |units| ==> args[2 * i] == "-u" && args[2 * i + 1] == units[i]
    decreases |units|
  {
    if |units| == 0 then []
    else
      var rest := UnitArgs(units[1..]);
      var args := ["-u", units[0]] + rest;
      assert forall i :: 0 <= i < |units| ==> args[2 * i] == "-u" && args[2 * i + 1] == units[i] by {
        forall i | 1 <= i < |units|
          ensures args[2 * i] == "-u" && args[2 * i + 1] == units[i]
        {
          assert args[2 * i] == rest[2 * (i - 1)] && args[2 * i + 1] == rest[2 * (i - 1) + 1];
          assert units[i] == units[1..][i - 1];
        }
      }
      args
  }

  /** Reads the units back out of a `-u <unit> ...` argument list. */
  function ArgUnits(args: seq<string>): seq<string>
    decreases |args|
  {
    if |args| < 2 || args[0] != "-u" then [] else [args[1]] + ArgUnits(args[2..])
  }

  /** The unit options lose nothing: reading them back gives the units. */
  lemma {:induction false} UnitArgsRoundTrip(units: seq<string>)
    ensures ArgUnits(UnitArgs(units)) == units
    decreases |units|
  {
    if |units| > 0 {
      UnitArgsRoundTrip(units[1..]);
      assert UnitArgs(units)[2..] == UnitArgs(units[1..]);
    }
  }

  const MonitorPrefix: seq<string> := ["journalctl", "-f", "--no-pager"]

  /** The follow-mode command of `monitor`: `journalctl -f --no-pager`, then
      `-k` when only kernel messages are wanted, then `-u <unit>` per unit. */
  function MonitorCommand(log: LogSettings): (cmd: seq<string>)
    ensures var k := if log.kernelOnly then 1 else 0;
            var units := Units(log);
            && |cmd| == 3 + k + 2 * |units|
            && cmd[..3] == MonitorPrefix
            && (log.kernelOnly <==> |cmd| > 3 && cmd[3] == "-k")
            && ArgUnits(cmd[3 + k..]) == units
  {
    var k := if log.kernelOnly then ["-k"] else [];
    var cmd := MonitorPrefix + k + UnitArgs(Units(log));
    assert cmd[3 + |k|..] == UnitArgs(Units(log));
    UnitArgsRoundTrip(Units(log));
    cmd
  }

  /** The one-shot command of `analyze` for a single source: the fixed
      `journalctl --since <since> --no-pager` head, then `-k` for the kernel
      or `-u <unit>` for a unit. */
  function AnalyzeCommand(since: string, s: Source): (cmd: seq<string>)
    ensures |cmd| == (if s.Kernel? then 5 else 6)
    ensures cmd[..4] == ["journalctl", "--since", since, "--no-pager"]
    ensures s.Kernel? <==> cmd[4] == "-k"
    ensures s.ServiceUnit? ==> cmd[4] == "-u" && cmd[5] == s.name
  {
    ["journalctl", "--since", since, "--no-pager"] + SourceArgs(s)
  }

  /** The commands `analyze` runs, one per selected source in order: one
      for the kernel when `kernel_only` is set, then one per unit. */
  function AnalyzeCommands(log: LogSettings, since: string): (cmds: seq<seq<string>>)
    ensures var k := if log.kernelOnly then 1 else 0;
            var units := Units(log);
            && |cmds| == k + |units|
            && (log.kernelOnly ==> cmds[0] == ["journalctl", "--since", since, "--no-pager", "-k"])
            && forall i :: 0 <= i < |units| ==>
                 cmds[k + i] == ["journalctl", "--since", since, "--no-pager", "-u", units[i]]
  {
    var sources := Sources(log);
    seq(|sources|, i requires 0 <= i < |sources| => AnalyzeCommand(since, sources[i]))
  }

  lemma {:induction false} FlatArgsUnits(units: seq<string>)
    ensures FlatArgs(UnitSources(units)) == UnitArgs(units)
    decreases |units|
  {
    if |units| > 0 {
      assert UnitSources(units)[1..] == UnitSources(units[1..]);
      FlatArgsUnits(units[1..]);
    }
  }

  lemma {:induction false} FlatArgsAppend(a: seq<Source>, b: seq<Source>)
    ensures FlatArgs(a + b) == FlatArgs(a) + FlatArgs(b)
    decreases |a|
  {
    if |a| == 0 {
      assert a + b == b;
    } else {
      assert (a + b)[1..] == a[1..] + b;
      FlatArgsAppend(a[1..], b);
    }
  }

  /** `monitor` passes the options of every selected source, in the same
      order, to one follow-mode command. */
  lemma MonitorFollowsAllSources(log: LogSettings)
    ensures MonitorCommand(log) == MonitorPrefix + FlatArgs(Sources(log))
  {
    var kernel: seq<Source> := if log.kernelOnly then [Kernel] else [];
    var us := UnitSources(Units(log));
    assert Sources(log) == kernel + us;
    FlatArgsAppend(kernel, us);
    FlatArgsUnits(Units(log));
    assert FlatArgs(kernel) == (if log.kernelOnly then ["-k"] else []);
  }

  /** A freshly initialised configuration watches the kernel only: both
      commands select the kernel ring and no unit. */
  lemma DefaultConfigWatchesKernel(since: string)
    ensures Sources(DefaultConfig.log) == [Kernel]
    ensures AnalyzeCommands(DefaultConfig.log, since) == [["journalctl", "--since", since, "--no-pager", "-k"]]
    ensures MonitorCommand(DefaultConfig.log) == ["journalctl", "-f", "--no-pager", "-k"]
  {
  }
}
