/**
 The monitoring loop as a whole: each probe issues a ping, its outcome
 drives the missed-ping counter, and a bounce issues the `wg-quick` pair
 before the next probe. The probe outcomes are an input sequence standing in
 for the endless stream the loop would observe.
 */
module Reachability {
  import opened Counter
  import opened Commands

  /** What the monitor is pointed at: the gateway it pings and the interface it bounces. */
  datatype Target = Target(gateway: string, iface: string)

  /** The commands issued for one probe: its ping, followed by the bounce pair when it bounced. */
  function ProbeCommands(onWindows: bool, target: Target, bounce: bool): (cmds: seq<Command>)
    ensures |cmds| == if bounce then 3 else 1
    ensures cmds[0] == PingCommand(onWindows, target.gateway)
  {
    [PingCommand(onWindows, target.gateway)] + (if bounce then BounceCommands(target.iface) else [])
  }

  /** Every command issued while the probes of a trace ran, in order. */
  function Issued(onWindows: bool, target: Target, bounces: seq<bool>): (log: seq<Command>)
    // each probe costs one ping and each recovery a down-up pair
    ensures |log| == |bounces| + 2 * Recoveries(bounces)
    decreases |bounces|
  {
    if |bounces| == 0 then []
    else
      Issued(onWindows, target, bounces[..|bounces| - 1])
      + ProbeCommands(onWindows, target, bounces[|bounces| - 1])
  }

  /**
   A command log in which a bounce is never interleaved with a probe: nothing
   is issued but the ping and the two steps of a bounce, every down is
   followed at once by its up, and every up comes straight after its down.
   */
  predicate BouncesAtomic(log: seq<Command>, ping: Command, down: Command, up: Command)
  {
    && (forall j :: 0 <= j < |log| ==> log[j] in {ping, down, up})
    && (forall j :: 0 <= j < |log| && log[j] == down ==> j + 1 < |log| && log[j + 1] == up)
    && (forall j :: 0 <= j < |log| && log[j] == up ==> 0 < j && log[j - 1] == down)
  }

  /** The monitor never interleaves a bounce with a probe. */
  lemma {:induction false} BounceIsAtomic(onWindows: bool, target: Target, bounces: seq<bool>)
    ensures BouncesAtomic(Issued(onWindows, target, bounces),
      PingCommand(onWindows, target.gateway), DownCommand(target.iface), UpCommand(target.iface))
    decreases |bounces|
  {
    if |bounces| > 0 {
      var front := bounces[..|bounces| - 1];
      BounceIsAtomic(onWindows, target, front);
      var earlier := Issued(onWindows, target, front);
      var now := ProbeCommands(onWindows, target, bounces[|bounces| - 1]);
      PingIsNotBounce(onWindows, target.gateway, target.iface);
      var log := Issued(onWindows, target, bounces);
      assert log == earlier + now;
      var ping, down, up := PingCommand(onWindows, target.gateway), DownCommand(target.iface), UpCommand(target.iface);
      assert ping != down && ping != up && down != up;
      assert now == if bounces[|bounces| - 1] then [ping, down, up] else [ping];
      forall j | 0 <= j < |log|
        ensures log[j] in {ping, down, up}
        ensures log[j] == down ==> j + 1 < |log| && log[j + 1] == up
        ensures log[j] == up ==> 0 < j && log[j - 1] == down
      {
        if j < |earlier| {
          assert log[j] == earlier[j];
          if j + 1 < |earlier| {
            assert log[j + 1] == earlier[j + 1];
          } else if j + 1 < |log| {
            assert log[j + 1] == now[0] == ping;
          }
        } else {
          assert log[j] == now[j - |earlier|];
          if j - 1 >= |earlier| {
            assert log[j - 1] == now[j - 1 - |earlier|];
          } else if j > 0 {
            assert log[j - 1] == earlier[j - 1];
          }
        }
      }
    }
  }

  /** One more probe extends the run by one step. */
  lemma RunExtend(limit: Threshold, outcomes: seq<bool>, i: nat)
    requires i < |outcomes|
    ensures var before := Run(limit, 0, outcomes[..i]);
      var d := Step(limit, before.count, outcomes[i]);
      Run(limit, 0, outcomes[..i + 1]) == Trace(d.count, before.bounces + [d.bounce])
  {
    assert outcomes[..i + 1][..i] == outcomes[..i];
  }

  /** One more probe extends the command log by that probe's commands. */
  lemma IssuedExtend(onWindows: bool, target: Target, bounces: seq<bool>, bounce: bool)
    ensures Issued(onWindows, target, bounces + [bounce])
         == Issued(onWindows, target, bounces) + ProbeCommands(onWindows, target, bounce)
  {
  }

  /**
   One pass of the monitoring loop, statement for statement: ping, count the
   miss or reset on a reply, then bounce and reset when the threshold is
   reached. Returns the new counter, whether it bounced, and the commands it
   issued.
   */
  method Probe(limit: Threshold, onWindows: bool, target: Target, missed: nat, reachable: bool)
    returns (missed': nat, bounce: bool, issued: seq<Command>)
    ensures Decision(missed', bounce) == Step(limit, missed, reachable)
    ensures issued == ProbeCommands(onWindows, target, bounce)
    ensures bounce <==> issued == [PingCommand(onWindows, target.gateway), DownCommand(target.iface), UpCommand(target.iface)]
  {
    issued := [PingCommand(onWindows, target.gateway)];
    if !reachable {
      missed' := missed + 1;
    } else {
      missed' := 0;
    }
    bounce := false;
    if missed' >= limit {
      issued := issued + BounceCommands(target.iface);
      bounce := true;
      missed' := 0;
    }
  }

  /**
   The monitoring loop over a finite prefix of probe outcomes, starting from
   a counter of zero. Returns the final counter, whether each probe bounced,
   and every command issued.
   */
  method Watch(limit: Threshold, onWindows: bool, target: Target, outcomes: seq<bool>)
    returns (missed: nat, bounced: seq<bool>, issued: seq<Command>)
    ensures missed < limit
    ensures |bounced| == |outcomes|
    ensures Trace(missed, bounced) == Monitor(limit, outcomes)
    // the counter is the final run of failures, less the bounces it already caused
    ensures missed == Remainder(TrailingFailures(outcomes), limit)
    ensures issued == Issued(onWindows, target, bounced)
  {
    missed := 0;
    bounced := [];
    issued := [];
    var i := 0;
    while i < |outcomes|
      invariant i <= |outcomes|
      invariant missed < limit
      invariant Trace(missed, bounced) == Run(limit, 0, outcomes[..i])
      invariant issued == Issued(onWindows, target, bounced)
    {
      RunExtend(limit, outcomes, i);
      var bounce, now;
      missed, bounce, now := Probe(limit, onWindows, target, missed, outcomes[i]);
      IssuedExtend(onWindows, target, bounced, bounce);
      issued := issued + now;
      bounced := bounced + [bounce];
      i := i + 1;
    }
    assert outcomes[..i] == outcomes;
    RecoveriesMatchFailureRuns(limit, outcomes);
  }

  /** The monitor as deployed: a threshold of 30 missed pings, so 29 misses in a row never bounce and the 30th does. */
  lemma DeployedThreshold()
    ensures Monitor(MissedPings, Failing(29)) == Trace(29, NoBounces(29))
    ensures Monitor(MissedPings, Failing(30)) == Trace(0, NoBounces(29) + [true])
  {
    FailuresBelowThreshold(MissedPings, 29);
    ThresholdFailuresBounceOnce(MissedPings);
  }
}
