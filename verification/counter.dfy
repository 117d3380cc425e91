/**
 The debounced consecutive-failure counter of the WireGuard gateway
 reachability monitor.

 Each probe of the gateway yields a boolean outcome (true: the gateway
 answered). A failure adds one to the counter of missed pings, a success
 resets it, and once the counter reaches the threshold the interface is
 bounced and the counter starts again from zero.

 The endless probing loop is modelled by folding the single-probe step over
 a finite prefix of outcomes; the fold records, probe by probe, whether that
 probe triggered a bounce.
 */
module Counter {

  /** A failure threshold. The monitor uses 30; the model admits any positive value. */
  type Threshold = t: int | 0 < t witness 30

  /** The number of consecutive missed pings after which the interface is bounced. */
  const MissedPings: Threshold := 30

  /** What one probe does to the monitor: the counter it leaves behind and whether it bounced the interface. */
  datatype Decision = Decision(count: nat, bounce: bool)

  /** The monitor after a sequence of probes: the counter, and for each probe whether it bounced the interface. */
  datatype Trace = Trace(count: nat, bounces: seq<bool>)

  /** One iteration of the monitoring loop: record the probe outcome, then bounce when the threshold is reached. */
  function Step(limit: Threshold, count: nat, reachable: bool): (d: Decision)
    // a bounce happens exactly when this probe failed and brought the counter to the threshold
    ensures d.bounce <==> !reachable && count + 1 >= limit
    // a success forgets every earlier failure, and never bounces
    ensures reachable ==> d == Decision(0, false)
    // a failure below the threshold counts exactly one more miss
    ensures !reachable && count + 1 < limit ==> d == Decision(count + 1, false)
    // a bounce always leaves the counter at zero
    ensures d.bounce ==> d.count == 0
    // the counter never carries the threshold into the next probe
    ensures count < limit ==> d.count < limit
  {
    var missed := if reachable then 0 else count + 1;
    if missed >= limit then Decision(0, true) else Decision(missed, false)
  }

  /** The number of failed probes in a sequence of outcomes. */
  function Failures(outcomes: seq<bool>): (n: nat)
    ensures n <= |outcomes|
    decreases |outcomes|
  {
    if |outcomes| == 0 then 0
    else Failures(outcomes[..|outcomes| - 1]) + (if outcomes[|outcomes| - 1] then 0 else 1)
  }

  /** The number of bounces recorded in a trace. */
  function Recoveries(bounces: seq<bool>): (n: nat)
    ensures n <= |bounces|
    decreases |bounces|
  {
    if |bounces| == 0 then 0
    else Recoveries(bounces[..|bounces| - 1]) + (if bounces[|bounces| - 1] then 1 else 0)
  }

  /** The outcomes of `k` consecutive failed probes. */
  function Failing(k: nat): (s: seq<bool>)
  {
    seq(k, _ => false)
  }

  /** The bounce flags of `k` probes none of which bounced the interface. */
  function NoBounces(k: nat): (s: seq<bool>)
  {
    seq(k, _ => false)
  }

  /** The monitor after processing `outcomes` in order, starting from counter `start`. */
  function Run(limit: Threshold, start: nat, outcomes: seq<bool>): (t: Trace)
    ensures |t.bounces| == |outcomes|
    // started below the threshold, the counter stays below it
    ensures start < limit ==> t.count < limit
    decreases |outcomes|
  {
    if |outcomes| == 0 then Trace(start, [])
    else
      var before := Run(limit, start, outcomes[..|outcomes| - 1]);
      var d := Step(limit, before.count, outcomes[|outcomes| - 1]);
      assert (before.bounces + [d.bounce])[..|outcomes| - 1] == before.bounces;
      Trace(d.count, before.bounces + [d.bounce])
  }

  /** The monitor as it runs: starting from a counter of zero. */
  function Monitor(limit: Threshold, outcomes: seq<bool>): (t: Trace)
    ensures outcomes == [] ==> t == Trace(0, [])
    ensures t.count < limit
  {
    Run(limit, 0, outcomes)
  }

  /** Only a failed probe can bounce the interface. */
  lemma {:induction false} OnlyFailuresBounce(limit: Threshold, start: nat, outcomes: seq<bool>)
    ensures forall i :: 0 <= i < |outcomes| && Run(limit, start, outcomes).bounces[i] ==> !outcomes[i]
    decreases |outcomes|
  {
    if |outcomes| > 0 {
      OnlyFailuresBounce(limit, start, outcomes[..|outcomes| - 1]);
    }
  }

  /** Every bounce is paid for by `limit` failed probes, and the failures still pending on the counter are counted too. */
  lemma {:induction false} BouncesNeedFailures(limit: Threshold, start: nat, outcomes: seq<bool>)
    ensures var t := Run(limit, start, outcomes);
      Recoveries(t.bounces) * limit + t.count <= start + Failures(outcomes)
    decreases |outcomes|
  {
    if |outcomes| > 0 {
      var front := outcomes[..|outcomes| - 1];
      var last := outcomes[|outcomes| - 1];
      BouncesNeedFailures(limit, start, front);
      var before := Run(limit, start, front);
      var d := Step(limit, before.count, last);
      var after := before.bounces + [d.bounce];
      assert Run(limit, start, outcomes) == Trace(d.count, after);
      assert after[..|after| - 1] == before.bounces;
      var r, f := Recoveries(before.bounces), Failures(front);
      assert r * limit + before.count <= start + f;
      if last {
        assert Recoveries(after) == r && Failures(outcomes) == f && d.count == 0;
      } else if d.bounce {
        assert Recoveries(after) == r + 1 && Failures(outcomes) == f + 1 && d.count == 0;
        assert before.count + 1 >= limit;
        MultipleStep(r, limit);
      } else {
        assert Recoveries(after) == r && Failures(outcomes) == f + 1 && d.count == before.count + 1;
      }
    }
  }

  /** The length of the run of failures that ends the sequence (zero if it ends with a success). */
  function TrailingFailures(outcomes: seq<bool>): (n: nat)
    ensures n <= |outcomes|
    ensures forall i :: |outcomes| - n <= i < |outcomes| ==> !outcomes[i]
    // the run is maximal: it is preceded by a success or by nothing
    ensures n < |outcomes| ==> outcomes[|outcomes| - n - 1]
    decreases |outcomes|
  {
    if |outcomes| == 0 || outcomes[|outcomes| - 1] then 0
    else TrailingFailures(outcomes[..|outcomes| - 1]) + 1
  }

  /** The lengths, in order, of the maximal runs of consecutive failed probes. */
  function FailureRuns(outcomes: seq<bool>): (runs: seq<nat>)
    ensures forall i :: 0 <= i < |runs| ==> runs[i] > 0
    decreases |outcomes|
  {
    if |outcomes| == 0 then []
    else if outcomes[|outcomes| - 1] then FailureRuns(outcomes[..|outcomes| - 1])
    else
      var n := TrailingFailures(outcomes);
      FailureRuns(outcomes[..|outcomes| - n]) + [n]
  }

  /** How many whole thresholds fit into `n`, by repeated subtraction; equal to `n / limit` (see `QuotientRemainder`). */
  function Quotient(n: nat, limit: Threshold): nat
    decreases n
  {
    if n < limit then 0 else 1 + Quotient(n - limit, limit)
  }

  /** What is left of `n` once every whole threshold is taken out; equal to `n % limit` (see `QuotientRemainder`). */
  function Remainder(n: nat, limit: Threshold): (r: nat)
    ensures r < limit
    decreases n
  {
    if n < limit then n else Remainder(n - limit, limit)
  }

  /** The sum of `run / limit` over the given run lengths. */
  function SumOfQuotients(limit: Threshold, runs: seq<nat>): (n: nat)
    decreases |runs|
  {
    if |runs| == 0 then 0
    else SumOfQuotients(limit, runs[..|runs| - 1]) + Quotient(runs[|runs| - 1], limit)
  }

  /** Quotient and remainder decompose `n`, and agree with division and modulus. */
  lemma {:induction false} QuotientRemainder(n: nat, limit: Threshold)
    ensures n == Quotient(n, limit) * limit + Remainder(n, limit)
    ensures Quotient(n, limit) == n / limit && Remainder(n, limit) == n % limit
    decreases n
  {
    if n >= limit {
      QuotientRemainder(n - limit, limit);
      MultipleStep(Quotient(n - limit, limit), limit);
    }
    DivModUnique(n, limit, Quotient(n, limit), Remainder(n, limit));
  }

  /** Quotient and remainder are determined by any decomposition `x == q * m + r` with `0 <= r < m`. */
  lemma DivModUnique(x: nat, m: Threshold, q: int, r: int)
    requires x == q * m + r && 0 <= r < m
    ensures x / m == q && x % m == r
  {
    var q', r' := x / m, x % m;
    assert (q - q') * m == r' - r;
    if q > q' {
      MultipleAtLeast(q - q', m);
      assert false;
    } else if q < q' {
      MultipleAtLeast(q' - q, m);
      assert false;
    }
  }

  /** One more multiple adds one threshold. */
  lemma MultipleStep(r: int, m: Threshold)
    ensures (r + 1) * m == r * m + m
  {
  }

  /** A positive multiple of a threshold is at least the threshold. */
  lemma MultipleAtLeast(d: int, m: Threshold)
    requires d >= 1
    ensures d * m >= m
  {
  }

  /** Counting one more: the remainder wraps to zero exactly when the quotient steps up. */
  lemma {:induction false} SuccessorQuotient(t: nat, limit: Threshold)
    ensures Remainder(t + 1, limit) == (if Remainder(t, limit) + 1 == limit then 0 else Remainder(t, limit) + 1)
    ensures Quotient(t + 1, limit) == Quotient(t, limit) + (if Remainder(t, limit) + 1 == limit then 1 else 0)
    decreases t
  {
    if t >= limit {
      SuccessorQuotient(t - limit, limit);
    } else if t + 1 == limit {
      assert Remainder(t + 1, limit) == Remainder(0, limit) == 0;
      assert Quotient(t + 1, limit) == 1 + Quotient(0, limit) == 1;
    }
  }

  /** The run quotients of a sequence split into those before its trailing run and that of the trailing run. */
  lemma {:induction false} TrailingRunQuotient(limit: Threshold, outcomes: seq<bool>)
    ensures var n := TrailingFailures(outcomes);
      SumOfQuotients(limit, FailureRuns(outcomes))
      == SumOfQuotients(limit, FailureRuns(outcomes[..|outcomes| - n])) + Quotient(n, limit)
  {
    var n := TrailingFailures(outcomes);
    if n == 0 {
      assert outcomes[..|outcomes| - n] == outcomes;
    } else {
      var runs := FailureRuns(outcomes[..|outcomes| - n]) + [n];
      assert FailureRuns(outcomes) == runs;
      assert runs[..|runs| - 1] == FailureRuns(outcomes[..|outcomes| - n]);
    }
  }

  /** A failed probe seen through run lengths: the remainder moves on by one, and a bounce happens exactly when the quotient steps up. */
  lemma FailureAdvancesQuotient(limit: Threshold, t: nat)
    ensures var d := Step(limit, Remainder(t, limit), false);
      && d.count == Remainder(t + 1, limit)
      && Quotient(t + 1, limit) == Quotient(t, limit) + (if d.bounce then 1 else 0)
  {
    SuccessorQuotient(t, limit);
  }

  /** The last probe of a run: it moves the counter by one step and adds its bounce, if any, to the recoveries. */
  lemma RunLastProbe(limit: Threshold, start: nat, outcomes: seq<bool>)
    requires |outcomes| > 0
    ensures var before := Run(limit, start, outcomes[..|outcomes| - 1]);
      var d := Step(limit, before.count, outcomes[|outcomes| - 1]);
      var after := Run(limit, start, outcomes);
      && after.count == d.count
      && Recoveries(after.bounces) == Recoveries(before.bounces) + (if d.bounce then 1 else 0)
  {
  }

  /** The last probe of a sequence, seen through its failure runs: a success closes the trailing run, a failure lengthens it. */
  lemma {:induction false} FailureRunsLastProbe(limit: Threshold, outcomes: seq<bool>)
    requires |outcomes| > 0
    ensures var front := outcomes[..|outcomes| - 1];
      var t := TrailingFailures(front);
      && (outcomes[|outcomes| - 1] ==>
            && TrailingFailures(outcomes) == 0
            && SumOfQuotients(limit, FailureRuns(outcomes)) == SumOfQuotients(limit, FailureRuns(front)))
      && (!outcomes[|outcomes| - 1] ==>
            && TrailingFailures(outcomes) == t + 1
            && SumOfQuotients(limit, FailureRuns(outcomes)) + Quotient(t, limit)
               == SumOfQuotients(limit, FailureRuns(front)) + Quotient(t + 1, limit))
  {
    var front := outcomes[..|outcomes| - 1];
    if !outcomes[|outcomes| - 1] {
      var t := TrailingFailures(front);
      assert outcomes[..|outcomes| - (t + 1)] == front[..|front| - t];
      TrailingRunQuotient(limit, front);
      TrailingRunQuotient(limit, outcomes);
    }
  }

  /** The characterisation below survives one more probe. */
  lemma RecoveriesMatchLastProbe(limit: Threshold, outcomes: seq<bool>)
    requires |outcomes| > 0
    requires var front := outcomes[..|outcomes| - 1];
      && Monitor(limit, front).count == Remainder(TrailingFailures(front), limit)
      && Recoveries(Monitor(limit, front).bounces) == SumOfQuotients(limit, FailureRuns(front))
    ensures Monitor(limit, outcomes).count == Remainder(TrailingFailures(outcomes), limit)
    ensures Recoveries(Monitor(limit, outcomes).bounces) == SumOfQuotients(limit, FailureRuns(outcomes))
  {
    RunLastProbe(limit, 0, outcomes);
    FailureRunsLastProbe(limit, outcomes);
    if !outcomes[|outcomes| - 1] {
      FailureAdvancesQuotient(limit, TrailingFailures(outcomes[..|outcomes| - 1]));
    }
  }

  /**
   The monitor, characterised without its loop: the counter is the length of
   the final run of failures modulo the threshold, and the number of bounces
   is the sum over the maximal runs of failures of `run length / threshold`.
   */
  lemma {:induction false} RecoveriesMatchFailureRuns(limit: Threshold, outcomes: seq<bool>)
    ensures Monitor(limit, outcomes).count == Remainder(TrailingFailures(outcomes), limit)
    ensures Recoveries(Monitor(limit, outcomes).bounces) == SumOfQuotients(limit, FailureRuns(outcomes))
    decreases |outcomes|
  {
    if |outcomes| > 0 {
      RecoveriesMatchFailureRuns(limit, outcomes[..|outcomes| - 1]);
      RecoveriesMatchLastProbe(limit, outcomes);
    }
  }

  /** Running over two sequences in turn is running over their concatenation. */
  lemma {:induction false} RunAppend(limit: Threshold, start: nat, first: seq<bool>, second: seq<bool>)
    ensures var mid := Run(limit, start, first);
      var rest := Run(limit, mid.count, second);
      Run(limit, start, first + second) == Trace(rest.count, mid.bounces + rest.bounces)
    decreases |second|
  {
    var mid := Run(limit, start, first);
    if |second| == 0 {
      assert first + second == first;
    } else {
      var front := second[..|second| - 1];
      var last := second[|second| - 1];
      RunAppend(limit, start, first, front);
      var whole := first + second;
      assert whole[..|whole| - 1] == first + front;
      assert whole[|whole| - 1] == last;
      var rest := Run(limit, mid.count, front);
      var d := Step(limit, rest.count, last);
      assert Run(limit, mid.count, second) == Trace(d.count, rest.bounces + [d.bounce]);
      assert Run(limit, start, whole) == Trace(d.count, mid.bounces + rest.bounces + [d.bounce]);
      assert mid.bounces + rest.bounces + [d.bounce] == mid.bounces + (rest.bounces + [d.bounce]);
    }
  }

  /** A single success erases all failure history: what follows behaves as if the monitor had just started. */
  lemma SuccessErasesHistory(limit: Threshold, history: seq<bool>, future: seq<bool>)
    ensures var t := Monitor(limit, history + [true] + future);
      && t.count == Monitor(limit, future).count
      && t.bounces == Monitor(limit, history).bounces + [false] + Monitor(limit, future).bounces
  {
    RunAppend(limit, 0, history + [true], future);
    assert (history + [true])[..|history|] == history;
  }

  /** Fewer consecutive failures than the threshold are counted one by one and never bounce. */
  lemma {:induction false} FailuresBelowThreshold(limit: Threshold, k: nat)
    requires k < limit
    ensures Monitor(limit, Failing(k)) == Trace(k, NoBounces(k))
  {
    if k > 0 {
      FailuresBelowThreshold(limit, k - 1);
      assert Failing(k)[..k - 1] == Failing(k - 1);
      assert NoBounces(k - 1) + [false] == NoBounces(k);
    }
  }

  /** Exactly a threshold's worth of consecutive failures bounces once, on the last of them, and resets the counter. */
  lemma ThresholdFailuresBounceOnce(limit: Threshold)
    ensures Monitor(limit, Failing(limit)) == Trace(0, NoBounces(limit - 1) + [true])
    ensures Recoveries(Monitor(limit, Failing(limit)).bounces) == 1
  {
    FailuresBelowThreshold(limit, limit - 1);
    assert Failing(limit)[..limit - 1] == Failing(limit - 1);
    var b := NoBounces(limit - 1) + [true];
    assert b[..|b| - 1] == NoBounces(limit - 1);
    RecoveriesOfNoBounces(limit - 1);
  }

  /** One failure short of the threshold, a success resets the counter without any bounce. */
  lemma SuccessJustBeforeThreshold(limit: Threshold)
    ensures Monitor(limit, Failing(limit - 1) + [true]) == Trace(0, NoBounces(limit))
  {
    FailuresBelowThreshold(limit, limit - 1);
    assert (Failing(limit - 1) + [true])[..limit - 1] == Failing(limit - 1);
    assert NoBounces(limit - 1) + [false] == NoBounces(limit);
  }

  /** A trace of probes that did not bounce records no recovery. */
  lemma {:induction false} RecoveriesOfNoBounces(k: nat)
    ensures Recoveries(NoBounces(k)) == 0
  {
    if k > 0 {
      assert NoBounces(k)[..k - 1] == NoBounces(k - 1);
      RecoveriesOfNoBounces(k - 1);
    }
  }

  /** With a threshold of one, every failure bounces immediately and the counter stays at zero. */
  lemma {:induction false} ThresholdOneBouncesEveryFailure(outcomes: seq<bool>)
    ensures Monitor(1, outcomes).count == 0
    ensures forall i :: 0 <= i < |outcomes| ==> Monitor(1, outcomes).bounces[i] == !outcomes[i]
    decreases |outcomes|
  {
    if |outcomes| > 0 {
      ThresholdOneBouncesEveryFailure(outcomes[..|outcomes| - 1]);
    }
  }

  /** The worked example with a threshold of three: the first run of failures bounces on its third probe, the second run on its third as well, and its fourth failure is left pending. */
  lemma ThresholdThreeScenario()
    ensures Monitor(3, [false, false, false, true, false, false, false, false])
         == Trace(1, [false, false, true, false, false, false, true, false])
  {
    SuccessErasesHistory(3, Failing(3), Failing(4));
    ThresholdFailuresBounceOnce(3);
    RunAppend(3, 0, Failing(3), [false]);
    assert Failing(3) + [false] == Failing(4);
    assert NoBounces(2) == [false, false];
    assert Failing(3) + [true] + Failing(4) == [false, false, false, true, false, false, false, false];
  }
}
