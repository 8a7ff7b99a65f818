/**
 The restart loop of a segment download: attempt after attempt until bytes pass validation, a request fails for good, or
 the budget is used up.
 */
module DownloadRestarts {
  import opened Wrappers
  import opened Bytes
  import opened Stripes
  import opened Download

  /** Where the restart loop of `download_whole` stands. */
  datatype Progress =
    | Running(attempts: nat, restarts: u32)
    | Finished(attempts: nat, result: Result<seq<byte>, DownloadError>)

  /** One turn of the loop. The counter is 32 bits wide and wraps around. */
  function Turn(net: Network, limits: Limits, valid: seq<byte> -> bool, p: Progress): Progress {
    match p
    case Finished(_, _) => p
    case Running(n, restarts) =>
      match Attempt(net, n, limits)
      case Err(e) => Finished(n + 1, Err(e))
      case Ok(outcome) =>
        if outcome.Done? && valid(outcome.bytes) then Finished(n + 1, Ok(outcome.bytes))
        else
          var next := (restarts + 1) % 0x1_0000_0000;
          if next > limits.maxRestarts then
            Finished(n + 1, Err(DownloadFailed(if outcome.Done? then Integrity else Rewritten)))
          else Running(n + 1, next)
  }

  function After(net: Network, limits: Limits, valid: seq<byte> -> bool, turns: nat): Progress {
    if turns == 0 then Running(0, 0) else Turn(net, limits, valid, After(net, limits, valid, turns - 1))
  }

  lemma {:induction false} StaysFinished(net: Network, limits: Limits, valid: seq<byte> -> bool, turns: nat, more: nat)
    requires turns <= more && After(net, limits, valid, turns).Finished?
    ensures After(net, limits, valid, more) == After(net, limits, valid, turns)
    decreases more
  {
    hide Turn;
    if turns < more {
      StaysFinished(net, limits, valid, turns, more - 1);
      FinishedStays(net, limits, valid, After(net, limits, valid, turns));
    }
  }

  lemma FinishedStays(net: Network, limits: Limits, valid: seq<byte> -> bool, p: Progress)
    requires p.Finished?
    ensures Turn(net, limits, valid, p) == p
  {
  }

  // ---------- What a download keeps ----------

  lemma TurnCounted(net: Network, limits: Limits, valid: seq<byte> -> bool, p: Progress)
    requires limits.maxRestarts < U32_MAX && (p.Running? ==> p.restarts <= limits.maxRestarts)
    ensures var q := Turn(net, limits, valid, p);
            if p.Finished? then q == p
            else q.attempts == p.attempts + 1 && (q.Running? ==> q.restarts == p.restarts + 1 <= limits.maxRestarts)
  {
    hide Attempt;
  }

  lemma {:induction false} Counted(net: Network, limits: Limits, valid: seq<byte> -> bool, turns: nat)
    requires limits.maxRestarts < U32_MAX
    ensures var p := After(net, limits, valid, turns);
            && (p.Running? ==> p.attempts == p.restarts == turns <= limits.maxRestarts)
            && (p.Finished? ==> p.attempts <= turns && p.attempts <= limits.maxRestarts + 1)
  {
    hide Turn;
    if turns > 0 {
      Counted(net, limits, valid, turns - 1);
      TurnCounted(net, limits, valid, After(net, limits, valid, turns - 1));
    }
  }

  lemma WithinCap(net: Network, attempt: nat, limits: Limits)
    ensures var r := Attempt(net, attempt, limits);
            r.Ok? && r.value.Done? ==> |r.value.bytes| <= limits.cap
  {
    hide Fetch;
    match PlanOf(net, attempt, limits) {
      case Ok(TakeStripes(total, etag)) =>
        AssembledFills(net, attempt, RangesFrom(0, total, StripeSize(limits)), total, etag, []);
      case _ =>
    }
  }

  lemma {:induction false} AssembledFills(net: Network, attempt: nat, ranges: seq<(u64, u64)>, total: u64, etag: Etag, buf: seq<byte>)
    requires |buf| <= total && Ordered(ranges)
    ensures var r := Assemble(net, attempt, ranges, total, etag, buf);
            r.Ok? && r.value.Done? ==> |r.value.bytes| == total
    decreases |ranges|
  {
    hide FetchStripe;
    if ranges != [] {
      match FetchStripe(net, attempt, ranges[0], total, etag) {
        case Data(start, bytes) =>
          if start == |buf| && |bytes| <= total - |buf| {
            AssembledFills(net, attempt, ranges[1..], total, etag, buf + bytes);
          }
        case _ =>
      }
    }
  }

  /**
   Where the bytes of an attempt came from: the answer to the probe, the answer to the whole request, or the whole object
   of the generation the probe saw.
   */
  ghost predicate CameFrom(net: Network, attempt: nat, limits: Limits, objects: Etag -> seq<byte>, bytes: seq<byte>) {
    var probe, whole := net(attempt, Probe), net(attempt, Whole);
    || (Served(probe) && probe.status == 200 && bytes == probe.body)
    || (AsksWhole(probe, limits) && Served(whole) && bytes == whole.body)
    || (AsksStripes(probe, limits, |bytes|) && bytes == objects(probe.etag.value))
  }

  /**
   Bytes that are returned passed validation, are within the cap, and are what the last attempt produced: the body of a
   response it got, or the whole object of one generation.
   */
  lemma {:induction false} ReturnsOneGeneration(net: Network, objects: Etag -> seq<byte>, limits: Limits, valid: seq<byte> -> bool, turns: nat)
    requires Honest(net, objects)
    ensures var p := After(net, limits, valid, turns);
            p.Finished? && p.result.Ok? ==>
              var n, bytes := p.attempts, p.result.value;
              && n > 0 && valid(bytes) && |bytes| <= limits.cap
              && Attempt(net, n - 1, limits) == Ok(Done(bytes))
              && CameFrom(net, n - 1, limits, objects, bytes)
  {
    hide Attempt, PlanOf, Honest;
    if turns > 0 {
      ReturnsOneGeneration(net, objects, limits, valid, turns - 1);
      match After(net, limits, valid, turns - 1) {
        case Running(n, _) =>
          WithinCap(net, n, limits);
          AttemptIsWhole(net, objects, n, limits);
        case _ =>
      }
    }
  }

  lemma AttemptIsWhole(net: Network, objects: Etag -> seq<byte>, attempt: nat, limits: Limits)
    requires Honest(net, objects)
    ensures var r := Attempt(net, attempt, limits);
            r.Ok? && r.value.Done? ==> CameFrom(net, attempt, limits, objects, r.value.bytes)
  {
    hide Attempt, Honest, Striped;
    var probe, outcome := net(attempt, Probe), Attempt(net, attempt, limits);
    ProbeFails(net, attempt, limits);
    if Served(probe) && probe.status == 200 {
      ProbeIsTaken(net, attempt, limits);
    } else if AsksWhole(probe, limits) {
      WholeIsTaken(net, attempt, limits);
    } else if Ranged(probe, limits) && outcome.Ok? && outcome.value.Done? {
      var total, etag := probe.range.value.2, probe.etag.value;
      var stripe: u64 := if limits.stripe == 0 then 1 else limits.stripe;
      StripesAreTaken(net, attempt, limits, total);
      StripedIffPinned(net, objects, attempt, total, etag, stripe, outcome.value.bytes);
      StripedFills(net, attempt, total, etag, stripe);
    }
  }

  lemma StripedFills(net: Network, attempt: nat, total: u64, etag: Etag, stripe: u64)
    requires stripe > 0
    ensures var r := Striped(net, attempt, total, etag, stripe);
            r.Ok? && r.value.Done? ==> |r.value.bytes| == total
  {
    AssembledFills(net, attempt, RangesFrom(0, total, stripe), total, etag, []);
  }

  // ---------- The loop ----------

  /** `download_whole`, for as many attempts as its caller waits. */
  method DownloadWhole(net: Network, limits: Limits, valid: seq<byte> -> bool, patience: nat)
    returns (r: Option<Result<seq<byte>, DownloadError>>, attempts: nat)
    ensures var p := After(net, limits, valid, patience);
            attempts == p.attempts && r == if p.Finished? then Some(p.result) else None
  {
    hide Attempt;
    var restarts: u32 := 0;
    var n := 0;
    while n < patience
      invariant n <= patience
      invariant After(net, limits, valid, n) == Running(n, restarts)
    {
      var outcome := TryDownloadWhole(net, n, limits);
      n := n + 1;
      if outcome.Err? {
        StaysFinished(net, limits, valid, n, patience);
        return Some(Err(outcome.error)), n;
      }
      var lastFailure := Rewritten;
      if outcome.value.Done? {
        var bytes := outcome.value.bytes;
        if valid(bytes) {
          StaysFinished(net, limits, valid, n, patience);
          return Some(Ok(bytes)), n;
        }
        lastFailure := Integrity;
      }
      restarts := (restarts + 1) % 0x1_0000_0000;
      if restarts > limits.maxRestarts {
        StaysFinished(net, limits, valid, n, patience);
        return Some(Err(DownloadFailed(lastFailure))), n;
      }
    }
    return None, n;
  }

  // ---------- The budget ----------

  ghost predicate StopsInBudget(net: Network, limits: Limits, valid: seq<byte> -> bool) {
    After(net, limits, valid, limits.maxRestarts + 1).Finished?
  }

  ghost predicate AlwaysStops(limits: Limits) {
    forall net: Network, valid: seq<byte> -> bool :: StopsInBudget(net, limits, valid)
  }

  /**
   The budget bounds every download, at one attempt more than the restarts allowed, exactly when it is below the
   largest 32-bit number; at that number the counter can never exceed it.
   */
  lemma BudgetHoldsBelowMax(limits: Limits)
    ensures AlwaysStops(limits) <==> limits.maxRestarts < U32_MAX
  {
    if limits.maxRestarts < U32_MAX {
      forall net: Network, valid: seq<byte> -> bool ensures StopsInBudget(net, limits, valid) {
        Counted(net, limits, valid, limits.maxRestarts + 1);
      }
    } else {
      NeverStops(limits, limits.maxRestarts + 1);
      assert !StopsInBudget(EmptyAnswer, limits, NothingValid);
    }
  }

  function EmptyAnswer(attempt: nat, r: Request): Response {
    Response(200, None, None, [])
  }

  predicate NothingValid(bytes: seq<byte>) {
    false
  }

  /** At the largest budget a server whose bytes are never valid keeps the loop going for ever. */
  lemma {:induction false} NeverStops(limits: Limits, turns: nat)
    requires limits.maxRestarts == U32_MAX
    ensures After(EmptyAnswer, limits, NothingValid, turns).Running?
  {
    if turns > 0 {
      NeverStops(limits, turns - 1);
      var n := After(EmptyAnswer, limits, NothingValid, turns - 1).attempts;
      assert Attempt(EmptyAnswer, n, limits) == Ok(Done([]));
    }
  }
}
