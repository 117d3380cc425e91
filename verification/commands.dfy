/**
 The argument vectors the monitor hands to the operating system: the ping
 that probes the gateway and the `wg-quick` pair that bounces the interface.
 Only their shape is modelled; running them is left to the caller.
 */
module Commands {

  /** An argument vector: program name first, then its arguments. */
  type Command = seq<string>

  datatype Option<+T> = None | Some(value: T)

  /** The ping option that sets the number of echo requests: `-n` on Windows, `-c` elsewhere. */
  function CountOption(onWindows: bool): string
  {
    if onWindows then "-n" else "-c"
  }

  /**
   One echo request to the gateway, with `-w 1`: a one-second deadline for
   Linux ping, a one-millisecond reply timeout for Windows ping.
   */
  function PingCommand(onWindows: bool, gateway: string): (cmd: Command)
    ensures |cmd| == 6 && cmd[0] == "ping"
    ensures cmd[1] == "-n" <==> onWindows
    ensures cmd[1] == "-c" <==> !onWindows
    // the gateway is the final argument, whatever it looks like
    ensures cmd[|cmd| - 1] == gateway
  {
    ["ping", CountOption(onWindows), "1", "-w", "1", gateway]
  }

  /** Reads back the platform and gateway a ping command was built for; `None` for anything else. */
  function ParsePing(cmd: Command): (r: Option<(bool, string)>)
    ensures r.Some? ==> PingCommand(r.value.0, r.value.1) == cmd
  {
    if |cmd| == 6 && cmd[0] == "ping" && (cmd[1] == "-n" || cmd[1] == "-c")
       && cmd[2] == "1" && cmd[3] == "-w" && cmd[4] == "1"
    then Some((cmd[1] == "-n", cmd[5]))
    else None
  }

  /** A command parses as a ping exactly when it is the ping built for that platform and gateway. */
  lemma PingRoundTrip(cmd: Command, onWindows: bool, gateway: string)
    ensures ParsePing(cmd) == Some((onWindows, gateway)) <==> cmd == PingCommand(onWindows, gateway)
  {
  }

  /** Two probes issue the same command only for the same platform and gateway. */
  lemma PingInjective(w1: bool, g1: string, w2: bool, g2: string)
    ensures PingCommand(w1, g1) == PingCommand(w2, g2) <==> w1 == w2 && g1 == g2
  {
  }

  /** Takes the interface down. */
  function DownCommand(iface: string): (cmd: Command)
  {
    ["wg-quick", "down", iface]
  }

  /** Brings the interface back up. */
  function UpCommand(iface: string): (cmd: Command)
  {
    ["wg-quick", "up", iface]
  }

  /** The two commands of a bounce: the down command, then the same vector with its action replaced by `up`. */
  function BounceCommands(iface: string): (cmds: seq<Command>)
    ensures cmds == [DownCommand(iface), UpCommand(iface)]
    // both act on the same interface, and only the action differs
    ensures |cmds[0]| == |cmds[1]| == 3
    ensures forall i :: 0 <= i < 3 && i != 1 ==> cmds[0][i] == cmds[1][i]
    ensures cmds[0][1] != cmds[1][1]
    ensures cmds[0][2] == cmds[1][2] == iface
  {
    var command := DownCommand(iface);
    assert command[1 := "up"] == UpCommand(iface);
    [command, command[1 := "up"]]
  }

  /** No ping is ever mistaken for a step of a bounce. */
  lemma PingIsNotBounce(onWindows: bool, gateway: string, iface: string)
    ensures PingCommand(onWindows, gateway) !in BounceCommands(iface)
  {
  }
}
