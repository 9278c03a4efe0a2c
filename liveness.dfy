/**
 * The duration watchdog `AliveGuard`: a latch that goes from un-failed to
 * failed at most once, and reports NOT_SERVING for its service name on the
 * health server exactly when it does.
 */
module Liveness {

  /** Go's `time.Duration`: signed 64-bit nanoseconds. */
  type Duration = d: int | -0x8000_0000_0000_0000 <= d < 0x8000_0000_0000_0000

  /** The statuses of the gRPC health checking protocol. */
  datatype ServingStatus = Unknown | Serving | NotServing | ServiceUnknown

  /** One `SetServingStatus` call as the health server received it. */
  datatype Report = Report(service: string, status: ServingStatus)

  /**
   * The process-wide health server, as far as the guard uses it: a status per
   * service name and the sequence of status updates it has received.
   */
  class HealthServer {
    var statuses: map<string, ServingStatus>
    var log: seq<Report>

    constructor ()
      ensures statuses == map[] && log == []
    {
      statuses, log := map[], [];
    }

    method SetServingStatus(service: string, status: ServingStatus)
      modifies this
      ensures statuses == old(statuses)[service := status]
      ensures log == old(log) + [Report(service, status)]
    {
      statuses := statuses[service := status];
      log := log + [Report(service, status)];
    }
  }

  // ---------------------------------------------------------------------
  // The latch as a value, over one check and over a sequence of checks

  /** The outcome of one check: the latch afterwards and whether the check reported. */
  datatype Outcome = Outcome(failed: bool, reported: bool)

  /** One `CheckTimeDuration` call, taken `elapsed` after its start time. */
  function Step(failed: bool, threshold: Duration, elapsed: Duration): Outcome
  {
    if failed then Outcome(true, false)
    else if elapsed > threshold then Outcome(true, true)
    else Outcome(false, false)
  }

  /** The latch after a sequence of checks, and how many of them reported. */
  datatype Trace = Trace(failed: bool, reports: nat)

  function Run(failed: bool, threshold: Duration, elapsed: seq<Duration>): Trace
    decreases |elapsed|
  {
    if elapsed == [] then Trace(failed, 0)
    else
      var first := Step(failed, threshold, elapsed[0]);
      var rest := Run(first.failed, threshold, elapsed[1..]);
      Trace(rest.failed, rest.reports + (if first.reported then 1 else 0))
  }

  /** Some check in the sequence came after the threshold had passed. */
  ghost predicate Overran(threshold: Duration, elapsed: seq<Duration>)
  {
    exists i :: 0 <= i < |elapsed| && elapsed[i] > threshold
  }

  /**
   * Over any sequence of checks at most one report is made; one is made iff
   * the guard started un-failed and some check overran, and the guard ends
   * failed iff it started failed or some check overran.
   */
  lemma {:induction false} AtMostOneReport(failed: bool, threshold: Duration, elapsed: seq<Duration>)
    ensures Run(failed, threshold, elapsed).reports <= 1
    ensures Run(failed, threshold, elapsed).reports == 1 <==> !failed && Overran(threshold, elapsed)
    ensures Run(failed, threshold, elapsed).failed <==> failed || Overran(threshold, elapsed)
    decreases |elapsed|
  {
    if elapsed != [] {
      var first := Step(failed, threshold, elapsed[0]);
      AtMostOneReport(first.failed, threshold, elapsed[1..]);
      if Overran(threshold, elapsed[1..]) {
        var i :| 0 <= i < |elapsed[1..]| && elapsed[1..][i] > threshold;
        assert elapsed[i + 1] > threshold;
      }
      if Overran(threshold, elapsed) {
        var i :| 0 <= i < |elapsed| && elapsed[i] > threshold;
        if i > 0 {
          assert elapsed[1..][i - 1] > threshold;
        }
      }
    }
  }

  /** A failed guard stays failed and reports nothing, whatever the later checks see. */
  lemma {:induction false} FailedIsInert(threshold: Duration, elapsed: seq<Duration>)
    ensures Run(true, threshold, elapsed) == Trace(true, 0)
    decreases |elapsed|
  {
    if elapsed != [] {
      FailedIsInert(threshold, elapsed[1..]);
    }
  }

  /** Checks that never overrun leave the guard as it was, with no report. */
  lemma {:induction false} WithinBudgetIsInert(failed: bool, threshold: Duration, elapsed: seq<Duration>)
    requires forall i :: 0 <= i < |elapsed| ==> elapsed[i] <= threshold
    ensures Run(failed, threshold, elapsed) == Trace(failed, 0)
    decreases |elapsed|
  {
    if elapsed != [] {
      WithinBudgetIsInert(failed, threshold, elapsed[1..]);
    }
  }

  /**
   * Threshold 200ms, checks at 50ms, 250ms and 400ms: the first changes
   * nothing, the second trips the guard and reports, the third reports nothing.
   */
  lemma WatchdogTripsOnce()
    ensures Step(false, 200_000_000, 50_000_000) == Outcome(false, false)
    ensures Step(false, 200_000_000, 250_000_000) == Outcome(true, true)
    ensures Step(true, 200_000_000, 400_000_000) == Outcome(true, false)
    ensures Run(false, 200_000_000, [50_000_000, 250_000_000, 400_000_000]) == Trace(true, 1)
  {
    var es: seq<Duration> := [50_000_000, 250_000_000, 400_000_000];
    assert es[1..] == [250_000_000, 400_000_000];
    assert es[1..][1..] == [400_000_000];
    assert es[1..][1..][1..] == [];
  }

  // ---------------------------------------------------------------------
  // The guard object

  class AliveGuard {
    const healthCheckServer: HealthServer
    const timeThreshold: Duration
    const serviceName: string
    var failed: bool
    /** The reports this guard has sent to the health server. */
    ghost var sent: seq<Report>

    /** The latch invariant: a failed guard has sent exactly one NOT_SERVING report, an un-failed one none. */
    ghost predicate Valid()
      reads this
    {
      sent == if failed then [Report(serviceName, NotServing)] else []
    }

    /** `NewAliveGuard`. */
    constructor (healthServer: HealthServer, threshold: Duration, serviceName: string)
      ensures Valid()
      ensures healthCheckServer == healthServer && timeThreshold == threshold && this.serviceName == serviceName
      ensures !failed && sent == []
    {
      healthCheckServer := healthServer;
      timeThreshold := threshold;
      this.serviceName := serviceName;
      failed := false;
      sent := [];
    }

    /**
     * `CheckTimeDuration`, with `elapsed` standing for `time.Since(startTime)`.
     * The lock around the second test of `failed` is left out: calls are
     * sequential here, so the second test always sees what the first saw.
     */
    method CheckTimeDuration(elapsed: Duration)
      requires Valid()
      modifies this`failed, this`sent, healthCheckServer
      ensures Valid()
      ensures old(failed) ==> failed
      ensures failed == Step(old(failed), timeThreshold, elapsed).failed
      ensures Step(old(failed), timeThreshold, elapsed).reported ==>
                && healthCheckServer.log == old(healthCheckServer.log) + [Report(serviceName, NotServing)]
                && healthCheckServer.statuses == old(healthCheckServer.statuses)[serviceName := NotServing]
      ensures !Step(old(failed), timeThreshold, elapsed).reported ==>
                && healthCheckServer.log == old(healthCheckServer.log)
                && healthCheckServer.statuses == old(healthCheckServer.statuses)
      ensures |sent| <= 1
    {
      if failed {
        return;
      }
      if elapsed > timeThreshold {
        if !failed {
          failed := true;
          healthCheckServer.SetServingStatus(serviceName, NotServing);
          sent := sent + [Report(serviceName, NotServing)];
        }
      }
    }
  }

  /**
   * `GetAppAliveGuard`: a guard for the empty service name (the server's
   * overall status) on the process-wide health server, which is passed in.
   */
  method GetAppAliveGuard(processHealthServer: HealthServer, threshold: Duration) returns (g: AliveGuard)
    ensures fresh(g) && g.Valid()
    ensures g.healthCheckServer == processHealthServer && g.timeThreshold == threshold
    ensures g.serviceName == "" && !g.failed
  {
    g := new AliveGuard(processHealthServer, threshold, "");
  }
}
