/**
 * Downloading a segment that the server may rewrite at any time: a probe, then stripes pinned to the generation the
 * probe saw, then validation, and bounded restarts. What a server answers to each request of each attempt is a
 * parameter; an answer stands for the last of the tries the retry policy made.
 */
module Download {
  import opened Wrappers
  import opened Bytes
  import opened Stripes

  type u32 = n: int | 0 <= n < 0x1_0000_0000 witness 0
  type Etag = seq<byte>

  const U32_MAX: u32 := 0xffff_ffff

  datatype Failure =
    | Integrity | Rewritten | OverCap | NoContentRange | ZeroLength | CannotServeWhole
    | WrongRange | StripeWithoutRange | WrongStripeLength | StripeDoesNotExtend | StripesDoNotFill
    | BodyTooLarge | BodyTruncated

  datatype DownloadError = DownloadFailed(why: Failure) | Status(status: nat) | Transport(reason: nat)

  /** A response with its Content-Range parsed to start, end and total, or a transport error. */
  datatype Response =
    | Response(status: nat, etag: Option<Etag>, range: Option<(u64, u64, u64)>, body: seq<byte>)
    | NoResponse(reason: nat)

  datatype Request = Probe | Whole | Stripe(start: u64, end: u64, ifRange: Etag)

  /** The answer to each request of each attempt. */
  type Network = (nat, Request) -> Response

  datatype Fetched = Fetched(status: nat, etag: Option<Etag>, range: Option<(u64, u64, u64)>, body: seq<byte>)

  datatype Limits = Limits(cap: u64, stripe: u64, maxRestarts: u32)

  // ---------- One request ----------

  datatype StatusClass = Read | RangeNotSatisfiable | Retryable | Terminal

  /** `classify_download_status`. */
  function Classify(status: nat): StatusClass {
    if 200 <= status <= 299 then Read
    else if status == 416 then RangeNotSatisfiable
    else if status == 429 || 500 <= status <= 599 then Retryable
    else Terminal
  }

  /** `download_fetch`, for the answer that ends its retries. */
  function Fetch(r: Response, readLimit: nat, exact: Option<nat>): Result<Fetched, DownloadError> {
    match r
    case NoResponse(reason) => Err(Transport(reason))
    case Response(status, etag, range, body) =>
      match Classify(status)
      case Read =>
        if exact.Some? && status != 206 then Ok(Fetched(status, etag, range, []))
        else if exact.Some? then
          if |body| < exact.value then Err(DownloadFailed(BodyTruncated))
          else Ok(Fetched(status, etag, range, body[..exact.value]))
        else if |body| > readLimit then Err(DownloadFailed(BodyTooLarge))
        else Ok(Fetched(status, etag, range, body))
      case RangeNotSatisfiable => Ok(Fetched(status, etag, range, []))
      case _ => Err(Status(status))
  }

  // ---------- Stripes ----------

  datatype StripeOutcome = Data(start: u64, bytes: seq<byte>) | Restarted | Failed(error: DownloadError)

  /** `classify_stripe`. */
  function ClassifyStripe(r: Fetched, start: u64, end: u64, total: u64, etag: Etag): StripeOutcome
    requires start <= end
  {
    if r.status == 200 || r.status == 416 then Restarted
    else if r.etag != Some(etag) then Restarted
    else match r.range
      case None => Failed(DownloadFailed(StripeWithoutRange))
      case Some((rs, re, rt)) =>
        if rt != total then Restarted
        else if rs != start || re != end then Failed(DownloadFailed(WrongRange))
        else if |r.body| != end - start + 1 then Failed(DownloadFailed(WrongStripeLength))
        else Data(start, r.body)
  }

  function FetchStripe(net: Network, attempt: nat, range: (u64, u64), total: u64, etag: Etag): StripeOutcome
    requires range.0 <= range.1
  {
    var len := range.1 - range.0 + 1;
    match Fetch(net(attempt, Stripe(range.0, range.1, etag)), len, Some(len))
    case Err(e) => Failed(e)
    case Ok(r) => ClassifyStripe(r, range.0, range.1, total, etag)
  }

  datatype WholeOutcome = Done(bytes: seq<byte>) | Restart

  /** The stripes put together in range order, up to the first that fails. */
  function Assemble(net: Network, attempt: nat, ranges: seq<(u64, u64)>, total: u64, etag: Etag, buf: seq<byte>)
    : Result<WholeOutcome, DownloadError>
    requires |buf| <= total && Ordered(ranges)
    decreases |ranges|
  {
    if ranges == [] then if |buf| != total then Err(DownloadFailed(StripesDoNotFill)) else Ok(Done(buf))
    else
      var outcome := FetchStripe(net, attempt, ranges[0], total, etag);
      if outcome.Restarted? then Ok(Restart)
      else if outcome.Failed? then Err(outcome.error)
      else if outcome.start != |buf| || |outcome.bytes| > total - |buf| then Err(DownloadFailed(StripeDoesNotExtend))
      else Assemble(net, attempt, ranges[1..], total, etag, buf + outcome.bytes)
  }

  function Striped(net: Network, attempt: nat, total: u64, etag: Etag, stripe: u64): Result<WholeOutcome, DownloadError>
    requires stripe > 0
  {
    Assemble(net, attempt, RangesFrom(0, total, stripe), total, etag, [])
  }

  // ---------- One attempt ----------

  /** `fetch_whole_body`. */
  function FetchWhole(net: Network, attempt: nat, cap: u64): Result<seq<byte>, DownloadError> {
    var r :- Fetch(net(attempt, Whole), SaturatingAdd(cap, 1), None);
    if r.status == 416 then Err(DownloadFailed(CannotServeWhole))
    else if |r.body| > cap then Err(DownloadFailed(OverCap))
    else Ok(r.body)
  }

  /** What the probe decides. */
  datatype Plan =
    | TakeBody(body: seq<byte>)
    | TakeWhole
    | TakeStripes(total: u64, etag: Etag)

  function StripeSize(limits: Limits): (n: u64)
    ensures n > 0
  {
    if limits.stripe == 0 then 1 else limits.stripe
  }

  function PlanOf(net: Network, attempt: nat, limits: Limits): Result<Plan, DownloadError> {
    var probe :- Fetch(net(attempt, Probe), SaturatingAdd(limits.cap, 1), None);
    if probe.status == 200 then
      if |probe.body| > limits.cap then Err(DownloadFailed(OverCap)) else Ok(TakeBody(probe.body))
    else if probe.status == 416 then Ok(TakeWhole)
    else match probe.range
      case None => Err(DownloadFailed(NoContentRange))
      case Some((_, _, total)) =>
        if total == 0 then Err(DownloadFailed(ZeroLength))
        else if total > limits.cap then Err(DownloadFailed(OverCap))
        else if probe.etag.Some? && total > StripeSize(limits) then Ok(TakeStripes(total, probe.etag.value))
        else Ok(TakeWhole)
  }

  function Attempt(net: Network, attempt: nat, limits: Limits): Result<WholeOutcome, DownloadError> {
    var plan :- PlanOf(net, attempt, limits);
    match plan
    case TakeBody(body) => Ok(Done(body))
    case TakeWhole =>
      var body :- FetchWhole(net, attempt, limits.cap);
      Ok(Done(body))
    case TakeStripes(total, etag) => Striped(net, attempt, total, etag, StripeSize(limits))
  }

  // ---------- What an attempt comes to ----------

  predicate Served(r: Response) {
    r.Response? && 200 <= r.status <= 299
  }

  /** The largest body that is read before the cap is checked. */
  function ReadLimit(cap: u64): u64 {
    if cap < U64_MAX then cap + 1 else cap
  }

  /** A ranged answer to the probe, with the length of the object. */
  predicate Ranged(probe: Response, limits: Limits) {
    && Served(probe) && probe.status != 200 && |probe.body| <= ReadLimit(limits.cap)
    && probe.range.Some? && 0 < probe.range.value.2 <= limits.cap
  }

  /** The probe leads to one request for the whole object: too short for stripes, or nothing to pin them to. */
  predicate AsksWhole(probe: Response, limits: Limits) {
    || (probe.Response? && probe.status == 416)
    || (Ranged(probe, limits) && (probe.etag == None || probe.range.value.2 <= limits.stripe || probe.range.value.2 == 1))
  }

  predicate AsksStripes(probe: Response, limits: Limits, total: nat) {
    Ranged(probe, limits) && probe.range.value.2 == total && probe.etag.Some? && total > limits.stripe && total > 1
  }

  /** A server that answers the probe with everything is taken at its word, up to the cap. */
  lemma ProbeIsTaken(net: Network, attempt: nat, limits: Limits)
    requires Served(net(attempt, Probe)) && net(attempt, Probe).status == 200
    ensures var body := net(attempt, Probe).body;
            Attempt(net, attempt, limits)
            == if |body| <= limits.cap then Ok(Done(body))
               else Err(DownloadFailed(if |body| > ReadLimit(limits.cap) then BodyTooLarge else OverCap))
  {
  }

  /** A whole request gives its body, or its own error. */
  lemma WholeIsTaken(net: Network, attempt: nat, limits: Limits)
    requires AsksWhole(net(attempt, Probe), limits)
    ensures var w := net(attempt, Whole);
            var r := Attempt(net, attempt, limits);
            && (Served(w) && |w.body| <= limits.cap ==> r == Ok(Done(w.body)))
            && (Served(w) && |w.body| > limits.cap ==>
                  r == Err(DownloadFailed(if |w.body| > ReadLimit(limits.cap) then BodyTooLarge else OverCap)))
            && (w.NoResponse? ==> r == Err(Transport(w.reason)))
            && (w.Response? && w.status == 416 ==> r == Err(DownloadFailed(CannotServeWhole)))
            && (w.Response? && !Served(w) && w.status != 416 ==> r == Err(Status(w.status)))
  {
  }

  lemma StripesAreTaken(net: Network, attempt: nat, limits: Limits, total: u64)
    requires AsksStripes(net(attempt, Probe), limits, total)
    ensures Attempt(net, attempt, limits)
            == Striped(net, attempt, total, net(attempt, Probe).etag.value, if limits.stripe == 0 then 1 else limits.stripe)
  {
  }

  /** Every other answer to the probe is an error, each its own. */
  lemma ProbeFails(net: Network, attempt: nat, limits: Limits)
    ensures var p := net(attempt, Probe);
            var r := Attempt(net, attempt, limits);
            && (p.NoResponse? ==> r == Err(Transport(p.reason)))
            && (p.Response? && !Served(p) && p.status != 416 ==> r == Err(Status(p.status)))
            && (Served(p) && |p.body| > ReadLimit(limits.cap) ==> r == Err(DownloadFailed(BodyTooLarge)))
            && (Served(p) && p.status != 200 && |p.body| <= ReadLimit(limits.cap) ==>
                  && (p.range == None ==> r == Err(DownloadFailed(NoContentRange)))
                  && (p.range.Some? && p.range.value.2 == 0 ==> r == Err(DownloadFailed(ZeroLength)))
                  && (p.range.Some? && p.range.value.2 > limits.cap ==> r == Err(DownloadFailed(OverCap))))
  {
  }

  /** What each answer to a request for a stripe means. */
  lemma StripeOutcomes(net: Network, attempt: nat, range: (u64, u64), total: u64, etag: Etag)
    requires range.0 <= range.1
    ensures var r := net(attempt, Stripe(range.0, range.1, etag));
            var o := FetchStripe(net, attempt, range, total, etag);
            var whole := Served(r) && (r.status == 206 ==> |r.body| > range.1 - range.0);
            && (r.NoResponse? ==> o == Failed(Transport(r.reason)))
            && (r.Response? && !Served(r) && r.status != 416 ==> o == Failed(Status(r.status)))
            && (Served(r) && !whole ==> o == Failed(DownloadFailed(BodyTruncated)))
            && (o == Restarted <==>
                  (r.Response? && r.status == 416)
                  || (whole && (r.status == 200 || r.etag != Some(etag) || (r.range.Some? && r.range.value.2 != total))))
            && (whole && r.status != 200 && r.etag == Some(etag) ==>
                  && (r.range == None ==> o == Failed(DownloadFailed(StripeWithoutRange)))
                  && (r.range.Some? && r.range.value.2 == total && (r.range.value.0, r.range.value.1) != range ==>
                        o == Failed(DownloadFailed(WrongRange)))
                  && (r.range == Some((range.0, range.1, total)) && r.status != 206 ==>
                        o == Failed(DownloadFailed(WrongStripeLength))))
  {
  }

  // ---------- No splicing ----------

  /** All that is assumed of the server: a 206 with an entity tag and a range carries that slice of that generation. */
  ghost predicate Honest(net: Network, objects: Etag -> seq<byte>) {
    forall attempt, start, end, etag ::
      var r := net(attempt, Stripe(start, end, etag));
      r.Response? && r.status == 206 && r.etag.Some? && r.range.Some? ==>
        var (s, e, t) := r.range.value;
        s <= e < t && t == |objects(r.etag.value)| && r.body == objects(r.etag.value)[s..e + 1]
  }

  /** The stripe was answered from the pinned generation. */
  predicate Pinned(r: Response, range: (u64, u64), total: u64, etag: Etag) {
    r.Response? && r.status == 206 && r.etag == Some(etag) && r.range == Some((range.0, range.1, total))
  }

  /** A stripe is taken exactly when it comes from the pinned generation, although the status is never compared to 206. */
  lemma DataIffPinned(net: Network, objects: Etag -> seq<byte>, attempt: nat, range: (u64, u64), total: u64, etag: Etag)
    requires Honest(net, objects) && range.0 <= range.1
    ensures FetchStripe(net, attempt, range, total, etag).Data?
            <==> Pinned(net(attempt, Stripe(range.0, range.1, etag)), range, total, etag)
    ensures FetchStripe(net, attempt, range, total, etag).Data? ==>
              range.1 < total == |objects(etag)|
              && FetchStripe(net, attempt, range, total, etag) == Data(range.0, objects(etag)[range.0..range.1 + 1])
  {
    var r := net(attempt, Stripe(range.0, range.1, etag));
    if FetchStripe(net, attempt, range, total, etag).Data? {
      assert r.status == 206;
    }
    if Pinned(r, range, total, etag) {
      var body := objects(etag)[range.0..range.1 + 1];
      assert r.body == body && body[..range.1 - range.0 + 1] == body;
    }
  }

  lemma {:induction false} AssembledIsObject(
    net: Network, objects: Etag -> seq<byte>, attempt: nat, ranges: seq<(u64, u64)>, total: u64, etag: Etag, stripe: u64, start: nat)
    requires Honest(net, objects) && start <= total && total == |objects(etag)| && Ordered(ranges)
    requires Tile(ranges, start, total, stripe)
    ensures var r := Assemble(net, attempt, ranges, total, etag, objects(etag)[..start]);
            var pinned := forall i :: 0 <= i < |ranges| ==>
                            Pinned(net(attempt, Stripe(ranges[i].0, ranges[i].1, etag)), ranges[i], total, etag);
            && (pinned <==> r.Ok? && r.value.Done?)
            && (pinned ==> r == Ok(Done(objects(etag))))
            && r != Err(DownloadFailed(StripeDoesNotExtend)) && r != Err(DownloadFailed(StripesDoNotFill))
    decreases |ranges|
  {
    hide Honest, FetchStripe, Pinned;
    if ranges == [] {
      assert objects(etag)[..start] == objects(etag);
    } else {
      var (s, e) := ranges[0];
      DataIffPinned(net, objects, attempt, ranges[0], total, etag);
      OnlyOwnErrors(net, attempt, ranges[0], total, etag);
      if Pinned(net(attempt, Stripe(s, e, etag)), ranges[0], total, etag) {
        assert objects(etag)[..s] + objects(etag)[s..e + 1] == objects(etag)[..e + 1];
        AssembledIsObject(net, objects, attempt, ranges[1..], total, etag, stripe, e + 1);
        forall i | 0 <= i < |ranges| && (forall j :: 0 <= j < |ranges[1..]| ==>
                     Pinned(net(attempt, Stripe(ranges[1..][j].0, ranges[1..][j].1, etag)), ranges[1..][j], total, etag))
          ensures Pinned(net(attempt, Stripe(ranges[i].0, ranges[i].1, etag)), ranges[i], total, etag)
        {
          if i > 0 {
            assert ranges[1..][i - 1] == ranges[i];
          }
        }
      }
    }
  }

  lemma OnlyOwnErrors(net: Network, attempt: nat, range: (u64, u64), total: u64, etag: Etag)
    requires range.0 <= range.1
    ensures FetchStripe(net, attempt, range, total, etag) != Failed(DownloadFailed(StripeDoesNotExtend))
    ensures FetchStripe(net, attempt, range, total, etag) != Failed(DownloadFailed(StripesDoNotFill))
  {
  }

  /**
   However the server switches generations between requests, striping is done exactly when every stripe was answered
   from the pinned generation, and then with the whole object of that generation.
   */
  lemma StripedIffPinned(net: Network, objects: Etag -> seq<byte>, attempt: nat, total: u64, etag: Etag, stripe: u64, bytes: seq<byte>)
    requires Honest(net, objects) && total > 0 && stripe > 0
    ensures var ranges := RangesFrom(0, total, stripe);
            Striped(net, attempt, total, etag, stripe) == Ok(Done(bytes))
            <==> (forall i :: 0 <= i < |ranges| ==>
                    Pinned(net(attempt, Stripe(ranges[i].0, ranges[i].1, etag)), ranges[i], total, etag))
                 && bytes == objects(etag)
    ensures var r := Striped(net, attempt, total, etag, stripe);
            r != Err(DownloadFailed(StripeDoesNotExtend)) && r != Err(DownloadFailed(StripesDoNotFill))
  {
    hide Honest, FetchStripe, Pinned, Tile, RangesFrom;
    var ranges := RangesFrom(0, total, stripe);
    StripesTile(ranges, 0, total, stripe);
    NotEmpty(total, stripe);
    DataIffPinned(net, objects, attempt, ranges[0], total, etag);
    OnlyOwnErrors(net, attempt, ranges[0], total, etag);
    if total == |objects(etag)| {
      assert objects(etag)[..0] == [];
      AssembledIsObject(net, objects, attempt, ranges, total, etag, stripe, 0);
    }
  }

  // ---------- The download ----------

  /** `try_download_whole`. */
  method TryDownloadWhole(net: Network, attempt: nat, limits: Limits) returns (r: Result<WholeOutcome, DownloadError>)
    ensures r == Attempt(net, attempt, limits)
  {
    hide Fetch, FetchStripe, Assemble, RangesFrom;
    var probe :- Fetch(net(attempt, Probe), SaturatingAdd(limits.cap, 1), None);
    if probe.status == 200 {
      if |probe.body| > limits.cap {
        return Err(DownloadFailed(OverCap));
      }
      return Ok(Done(probe.body));
    }
    if probe.status == 416 {
      var body :- FetchWhole(net, attempt, limits.cap);
      return Ok(Done(body));
    }
    if probe.range.None? {
      return Err(DownloadFailed(NoContentRange));
    }
    var (_, _, total) := probe.range.value;
    if total == 0 {
      return Err(DownloadFailed(ZeroLength));
    }
    if total > limits.cap {
      return Err(DownloadFailed(OverCap));
    }
    var stripe := StripeSize(limits);
    if probe.etag.None? || total <= stripe {
      var body :- FetchWhole(net, attempt, limits.cap);
      return Ok(Done(body));
    }
    r := DownloadStripes(net, attempt, total, probe.etag.value, stripe);
  }

  /** The stripes, consumed in range order; after the first failure the rest are drained and dropped. */
  method DownloadStripes(net: Network, attempt: nat, total: u64, etag: Etag, stripe: u64)
    returns (r: Result<WholeOutcome, DownloadError>)
    requires stripe > 0
    ensures r == Striped(net, attempt, total, etag, stripe)
  {
    hide FetchStripe, Assemble, RangesFrom, Tile;
    var ranges := ComputeStripes(total, stripe);
    var buf: seq<byte> := [];
    var failure: Option<Result<WholeOutcome, DownloadError>> := None;
    var i := 0;
    assert ranges[0..] == ranges;
    while i < |ranges|
      invariant i <= |ranges| && |buf| <= total
      invariant Ordered(ranges[i..])
      invariant Striped(net, attempt, total, etag, stripe)
                == if failure.Some? then failure.value else Assemble(net, attempt, ranges[i..], total, etag, buf)
    {
      var outcome := FetchStripe(net, attempt, ranges[i], total, etag);
      AssembleStep(net, attempt, ranges[i..], total, etag, buf);
      assert ranges[i..][1..] == ranges[i + 1..];
      if failure.None? {
        if outcome.Restarted? {
          failure := Some(Ok(Restart));
        } else if outcome.Failed? {
          failure := Some(Err(outcome.error));
        } else if outcome.start != |buf| || |outcome.bytes| > total - |buf| {
          failure := Some(Err(DownloadFailed(StripeDoesNotExtend)));
        } else {
          buf := buf + outcome.bytes;
        }
      }
      i := i + 1;
    }
    AssembleEnd(net, attempt, ranges[i..], total, etag, buf);
    if failure.Some? {
      return failure.value;
    }
    if |buf| != total {
      return Err(DownloadFailed(StripesDoNotFill));
    }
    return Ok(Done(buf));
  }

  lemma AssembleStep(net: Network, attempt: nat, ranges: seq<(u64, u64)>, total: u64, etag: Etag, buf: seq<byte>)
    requires |buf| <= total && Ordered(ranges) && ranges != []
    ensures Ordered(ranges[1..])
    ensures var outcome := FetchStripe(net, attempt, ranges[0], total, etag);
            var all := Assemble(net, attempt, ranges, total, etag, buf);
            && (outcome.Restarted? ==> all == Ok(Restart))
            && (outcome.Failed? ==> all == Err(outcome.error))
            && (outcome.Data? ==>
                  if outcome.start != |buf| || |outcome.bytes| > total - |buf| then all == Err(DownloadFailed(StripeDoesNotExtend))
                  else all == Assemble(net, attempt, ranges[1..], total, etag, buf + outcome.bytes))
  {
    hide FetchStripe;
  }

  lemma AssembleEnd(net: Network, attempt: nat, ranges: seq<(u64, u64)>, total: u64, etag: Etag, buf: seq<byte>)
    requires |buf| <= total && ranges == []
    ensures Ordered(ranges)
    ensures Assemble(net, attempt, ranges, total, etag, buf)
            == if |buf| != total then Err(DownloadFailed(StripesDoNotFill)) else Ok(Done(buf))
  {
  }
}
