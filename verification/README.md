# WireGuard gateway reachability monitor — a Dafny model

`wg-gw-reachability.py` watches a WireGuard gateway: it pings the gateway
once per cycle, counts consecutive missed pings, and when the count reaches
`MISSED_PINGS` (30) it bounces the WireGuard interface with
`wg-quick down` followed by `wg-quick up`, then starts counting again from
zero. A single answered ping resets the count.

This project models that decision logic and the argument vectors the script
builds for the external commands, and proves what they promise:

- `counter.dfy` — module `Counter`: the single-probe step (`Step`), its fold
  over a finite sequence of probe outcomes (`Run`, and `Monitor` starting
  from a zero counter), and an independent description of the result in terms
  of the maximal runs of failed probes (`TrailingFailures`, `FailureRuns`,
  `SumOfQuotients`; the quotient and remainder by the threshold are computed
  by repeated subtraction and proved equal to `/` and `%` in
  `QuotientRemainder`). The threshold is a positive parameter (`Threshold`);
  `MissedPings` is the value 30 the script uses.
- `commands.dfy` — module `Commands`: the ping command vector, a reader that
  recovers platform and gateway from it, and the `wg-quick` down/up pair built
  by mutating element 1 of one vector.
- `reachability.dfy` — module `Reachability`: the loop of `main()` written as
  methods (`Probe` for one pass of the body, `Watch` for the loop), proved equal to the fold and to
  the run-based description, and the log of commands the loop issues, proved
  never to interleave a bounce with a probe.

A probe outcome is a `bool` (true: the gateway answered). The endless loop is
modelled by a finite prefix of outcomes; a trace records, per probe, whether
that probe bounced the interface.

## Model

| member | source | states |
|---|---|---|
| Counter.Step | wg-gw-reachability.py:56-66 | A bounce happens exactly when the probe failed and the incremented counter reached the threshold; a success yields counter 0 and no bounce whatever the prior count; a failure below the threshold yields exactly prior+1; after a bounce the counter is 0; a counter below the threshold stays below it. |
| Counter.Run | wg-gw-reachability.py:55-66 | Folding the step over the outcomes yields one bounce flag per probe, and a counter started below the threshold is below it after every probe. |
| Counter.Monitor | wg-gw-reachability.py:44-66 | The monitor starts from counter 0 (no probes: counter 0, no bounces) and its counter is always below the threshold. |
| Counter.OnlyFailuresBounce | wg-gw-reachability.py:57-66 | A probe that bounced the interface was a failed probe. |
| Counter.BouncesNeedFailures | wg-gw-reachability.py:57-66 | Bounces times threshold plus the final counter never exceeds the starting counter plus the number of failed probes. |
| Counter.RecoveriesMatchFailureRuns | wg-gw-reachability.py:47-66 | From a zero counter, the counter equals the length of the final run of failures modulo the threshold, and the number of bounces equals the sum over maximal failure runs of run length divided by the threshold. |
| Counter.RunAppend | wg-gw-reachability.py:55-66 | Processing two outcome sequences one after the other equals processing their concatenation: counter carried over, bounce flags concatenated. |
| Counter.SuccessErasesHistory | wg-gw-reachability.py:60-62 | After any history and one success, the rest of the run behaves exactly as a fresh monitor: same final counter, same bounce flags. |
| Counter.FailuresBelowThreshold | wg-gw-reachability.py:57-66 | From 0, k < threshold consecutive failures leave the counter at k and bounce nothing. |
| Counter.ThresholdFailuresBounceOnce | wg-gw-reachability.py:64-66 | From 0, exactly threshold consecutive failures bounce once, on the last probe, and leave the counter at 0. |
| Counter.SuccessJustBeforeThreshold | wg-gw-reachability.py:57-66 | From 0, threshold−1 failures followed by a success bounce nothing and leave the counter at 0. |
| Counter.ThresholdOneBouncesEveryFailure | wg-gw-reachability.py:57-66 | With threshold 1, a probe bounces exactly when it failed and the counter stays 0. |
| Counter.ThresholdThreeScenario | wg-gw-reachability.py:57-66 | With threshold 3, outcomes fail×3, success, fail×4 bounce on probes 3 and 7 and leave the counter at 1. |
| Commands.PingCommand | wg-gw-reachability.py:19-22 | The ping vector has six elements, starts with `ping`, its count option is `-n` exactly on Windows and `-c` exactly elsewhere, and the gateway is the last element. |
| Commands.ParsePing | wg-gw-reachability.py:19-22 | Whatever the reader accepts is the ping vector of the platform and gateway it reports. |
| Commands.PingRoundTrip | wg-gw-reachability.py:19-22 | A vector reads back as (platform, gateway) if and only if it is the ping vector built for them. |
| Commands.PingInjective | wg-gw-reachability.py:19-22 | Two ping vectors are equal exactly when platform and gateway are equal. |
| Commands.BounceCommands | wg-gw-reachability.py:28-33 | The bounce issues `wg-quick down iface` then `wg-quick up iface`; both vectors have three elements, agree everywhere but element 1, and act on the same interface. |
| Commands.PingIsNotBounce | wg-gw-reachability.py:19-33 | The ping vector is never one of the two bounce vectors. |
| Reachability.ProbeCommands | wg-gw-reachability.py:56-65 | One probe issues its ping first, and three commands in all when it bounces, one otherwise. |
| Reachability.Issued | wg-gw-reachability.py:55-66 | The command log of a run has one ping per probe plus two commands per bounce. |
| Reachability.BounceIsAtomic | wg-gw-reachability.py:26-33 | The log holds only the ping, down and up vectors; every down is immediately followed by up and every up immediately preceded by down, so no probe runs during a bounce. |
| Reachability.Probe | wg-gw-reachability.py:56-66 | One pass of the loop body as written makes the same decision as the step, issues the ping and, exactly when it bounces, the down and up commands after it. |
| Reachability.Watch | wg-gw-reachability.py:44-66 | The loop from a zero counter ends with a counter below the threshold and equal to the final failure run modulo the threshold; its counter and bounce flags are those of the fold, so its bounce count is the one `RecoveriesMatchFailureRuns` gives; it issues exactly the modelled command log. |
| Reachability.DeployedThreshold | wg-gw-reachability.py:44-66 | With the script's threshold of 30, 29 consecutive misses bounce nothing and the 30th bounces once and resets the counter. |

## Left out

- Running the commands (`subprocess.call`, lines 24, 30, 33) and reading ping's exit code: the probe outcome is an input `bool`, and a bounce is recorded as an event and as the commands it would issue.
- The one-second `time.sleep` before each ping (line 17) and ping's `-w 1` option (a one-second deadline for Linux ping, a one-millisecond reply timeout for Windows ping): wall-clock timing; only the literal arguments are modelled.
- Logging (lines 9, 27, 29, 52, 58, 61): observability only.
- `platform.system().lower()` (line 19): modelled as a boolean `onWindows` parameter; the library call and Python's Unicode lower-casing are not modelled.
- The endless `while(True)` loop and the `KeyboardInterrupt` exit (lines 55, 67-68): a finite prefix of outcomes stands in for the infinite stream; runs end only between probes; an interrupt between `wg-quick down` and `wg-quick up` leaves the interface down and is not modelled.
- Argument parsing, `help()` and `sys.exit(1)` (lines 36-39, 49-50, 70-71): command-line plumbing; gateway and interface are plain string parameters.
- Counter.Threshold: a threshold of zero is excluded by the type; the script only ever uses 30, and with zero its `>=` test would bounce on every probe, successes included.
