/** The UDS request engine (`send_with_raw_payload`): an outer resend loop and an inner read loop
    over whatever the gateway does. One attempt of the environment script is the answer to one call
    of `gateway.send` together with the finite list of receptions on that attempt's own channel.
    A script is any finite prefix of the environment's behaviour; when it runs out, the engine is
    still InProgress. */
module RequestEngine {
  import opened Bytes
  import opened Uds

  datatype RetryPolicy = Disabled | ContinueUntilTimeout | ContinueUnlimited

  /** Parameters of one busy NRC: policy, completion timeout and repeat delay. */
  datatype Busy = Busy(policy: RetryPolicy, completion: nat, delay: nat)

  datatype Config = Config(
    request: ServicePayload,
    expectResponse: bool,
    rxTimeout: nat,
    busy21: Busy,
    busy94: Busy,
    policy78: RetryPolicy,
    completion78: nat,
    window78: nat,
    repeatReqCountApp: nat)

  datatype Reception = Item(item: ChannelItem) | Closed | Elapsed

  /** A reception and how long the wait for it took. */
  datatype Event = Event(wait: nat, reception: Reception)

  /** `setup` covers the teardown wait and the duration of `gateway.send`. */
  datatype Attempt = Attempt(setup: nat, rejected: Option<DiagError>, events: seq<Event>)

  datatype Action =
    | AwaitTask(task: nat)
    | Transmit
    | Accepted
    | Wait(window: nat)
    | Discard
    | Extend
    | Repeat21
    | Repeat94
    | Retry
    | Disconnect
    | Commit(sid: byte, state: string)

  /** Local variables of the engine and everything it did so far. */
  datatype Progress = Progress(
    clock: nat, retries: nat, window: Option<nat>, task: Option<nat>, trace: seq<Action>)
  {
    function Log(a: Action): Progress { this.(trace := trace + [a]) }
  }

  const START := Progress(0, 0, None, None, [])

  /** The clock runs from before the wait for the request semaphore. */
  function Begin(waited: nat): Progress { START.(clock := waited) }

  /** How the engine reacts to one reception. NoAnswer carries the error that surfaces once the
      application retries are spent. */
  datatype Reaction =
    | Ignore
    | Prolong
    | Resend(nrc: PendingNrc)
    | Answer(msg: ServicePayload)
    | Abort(error: DiagError)
    | NoAnswer(error: DiagError)

  datatype Signal =
    | Again
    | Break(outcome: Result<ServicePayload, DiagError>)
    | Return(result: Result<Option<ServicePayload>, DiagError>)
    | Starved

  datatype Outcome = Done(result: Result<Option<ServicePayload>, DiagError>) | InProgress

  /** `validate_timeout_by_policy` */
  predicate Permits(policy: RetryPolicy, elapsed: nat, completion: nat) {
    match policy
    case Disabled => false
    case ContinueUntilTimeout => elapsed <= completion
    case ContinueUnlimited => true
  }

  predicate IsAnswer(request: ServicePayload, msg: ServicePayload)
    requires request.data != []
  {
    && IsResponseFor(msg.data, request.data[0])
    && HasMatchingEchoBytes(msg.data, request.data)
  }

  function React(cfg: Config, r: Reception, elapsed: nat): (a: Reaction)
    requires cfg.request.data != []
  {
    match r
    case Elapsed => NoAnswer(Timeout)
    case Closed => NoAnswer(Timeout)
    case Item(Failure(e)) => NoAnswer(e)
    case Item(Success(None)) => Abort(UnexpectedResponse)
    case Item(Success(Some(UdsResponse(msg)))) =>
      if IsAnswer(cfg.request, msg) then Answer(msg) else Ignore
    case Item(Success(Some(Pending(nrc)))) =>
      if nrc == ResponsePending then
        if Permits(cfg.policy78, elapsed, cfg.completion78) then Prolong else Abort(Timeout)
      else
        var busy := BusyFor(cfg, nrc);
        if Permits(busy.policy, elapsed, busy.completion) then Resend(nrc) else Abort(Timeout)
  }

  function BusyFor(cfg: Config, nrc: PendingNrc): Busy {
    if nrc == BusyRepeatRequest then cfg.busy21 else cfg.busy94
  }

  function WindowOf(cfg: Config, window: Option<nat>): nat {
    if window.Some? then window.value else cfg.rxTimeout
  }

  /** CP_RepeatReqCountApp: repeat the request, or surface the error. */
  function RetryOr(cfg: Config, p: Progress, exhausted: Signal): (Signal, Progress) {
    if p.retries < cfg.repeatReqCountApp
    then (Again, p.(retries := p.retries + 1, window := None).Log(Retry))
    else (exhausted, p)
  }

  /** The wait for one event: the clock advances and the window in force is recorded. */
  function Await(cfg: Config, e: Event, p: Progress): Progress {
    p.(clock := p.clock + e.wait).Log(Wait(WindowOf(cfg, p.window)))
  }

  function Backoff(cfg: Config, nrc: PendingNrc, p: Progress): Progress {
    p.(clock := p.clock + BusyFor(cfg, nrc).delay)
     .Log(if nrc == BusyRepeatRequest then Repeat21 else Repeat94)
  }

  /** The inner read loop from event i on. */
  function Read(cfg: Config, events: seq<Event>, i: nat, p: Progress): (r: (Signal, Progress))
    requires cfg.request.data != []
    requires i <= |events|
    decreases |events| - i
  {
    if i == |events| then (Starved, p)
    else
      var q := Await(cfg, events[i], p);
      match React(cfg, events[i].reception, q.clock)
      case Ignore => Read(cfg, events, i + 1, q.Log(Discard))
      case Prolong => Read(cfg, events, i + 1, q.(window := Some(cfg.window78)).Log(Extend))
      case Resend(nrc) => (Again, Backoff(cfg, nrc, q))
      case Answer(msg) => (Break(Success(msg)), q)
      case Abort(e) => (Break(Failure(e)), q)
      case NoAnswer(e) => RetryOr(cfg, q, Break(Failure(e)))
  }

  /** Await the previous attempt's gateway task, then transmit. */
  function Launch(a: Attempt, p: Progress): (q: Progress) {
    var q := if p.task.Some? then p.(task := None).Log(AwaitTask(p.task.value)) else p;
    q.(clock := q.clock + a.setup).Log(Transmit)
  }

  /** One pass of the outer loop for attempt k. */
  function Send(cfg: Config, a: Attempt, k: nat, p: Progress): (r: (Signal, Progress))
    requires cfg.request.data != []
  {
    var q := Launch(a, p);
    if a.rejected.Some? then RetryOr(cfg, q, Return(Failure(a.rejected.value)))
    else
      var q' := q.(task := Some(k)).Log(Accepted);
      if cfg.expectResponse then Read(cfg, a.events, 0, q')
      else if a.events == [] then (Starved, q')
      else (Return(Success(None)), q'.(clock := q'.clock + a.events[0].wait).Log(Wait(cfg.rxTimeout)))
  }

  /** What follows the outer loop: disconnect notice, then session and security state. */
  function Epilogue(cfg: Config, outcome: Result<ServicePayload, DiagError>, p: Progress): (q: Progress)
    requires cfg.request.data != []
  {
    var sid := cfg.request.data[0];
    if outcome == Failure(Timeout) && sid != TESTER_PRESENT then p.Log(Disconnect)
    else if outcome.Success? && IsPositiveFor(outcome.value.data, sid) then
      var q := if cfg.request.newSession.Some?
               then p.Log(Commit(SESSION_CONTROL, cfg.request.newSession.value)) else p;
      if cfg.request.newSecurity.Some?
      then q.Log(Commit(SECURITY_ACCESS, cfg.request.newSecurity.value)) else q
    else p
  }

  function Wrap(outcome: Result<ServicePayload, DiagError>): Outcome {
    Done(if outcome.Success? then Success(Some(outcome.value)) else Failure(outcome.error))
  }

  /** The whole run from attempt k on: the declarative interpreter. */
  function Run(cfg: Config, attempts: seq<Attempt>, k: nat, p: Progress): (r: (Outcome, Progress))
    requires cfg.request.data != []
    requires k <= |attempts|
    decreases |attempts| - k
  {
    if k == |attempts| then (InProgress, p)
    else
      var (signal, q) := Send(cfg, attempts[k], k, p);
      match signal
      case Again => Run(cfg, attempts, k + 1, q)
      case Break(outcome) => (Wrap(outcome), Epilogue(cfg, outcome, q))
      case Return(result) => (Done(result), q)
      case Starved => (InProgress, q)
  }

  /** A call: an empty request fails before anything is sent; otherwise the request semaphore has to
      be won within its own ten seconds; `permit` is how long that took, None if it failed. */
  function Call(cfg: Config, permit: Option<nat>, attempts: seq<Attempt>): (r: (Outcome, Progress)) {
    if cfg.request.data == [] then (Done(Failure(BadPayload)), START)
    else if permit.None? then (Done(Failure(Timeout)), START)
    else Run(cfg, attempts, 0, Begin(permit.value))
  }

  /** The inner loop ('read_uds_messages) of the source. */
  method ReadUdsMessages(cfg: Config, events: seq<Event>, start: Progress)
    returns (signal: Signal, p: Progress)
    requires cfg.request.data != []
    ensures (signal, p) == Read(cfg, events, 0, start)
  {
    p := start;
    var i := 0;
    while i < |events|
      invariant 0 <= i <= |events|
      invariant Read(cfg, events, i, p) == Read(cfg, events, 0, start)
    {
      p := Await(cfg, events[i], p);
      match React(cfg, events[i].reception, p.clock) {
        case Ignore =>
          p := p.Log(Discard);
        case Prolong =>
          p := p.(window := Some(cfg.window78)).Log(Extend);
        case Resend(nrc) =>
          p := Backoff(cfg, nrc, p);
          return Again, p;
        case Answer(msg) =>
          return Break(Success(msg)), p;
        case Abort(error) =>
          return Break(Failure(error)), p;
        case NoAnswer(error) =>
          signal, p := RetryOr(cfg, p, Break(Failure(error))).0, RetryOr(cfg, p, Break(Failure(error))).1;
          return signal, p;
      }
      i := i + 1;
    }
    return Starved, p;
  }

  /** The outer loop ('send) of the source. */
  method SendWithRawPayload(cfg: Config, permit: Option<nat>, attempts: seq<Attempt>)
    returns (outcome: Outcome, p: Progress)
    ensures (outcome, p) == Call(cfg, permit, attempts)
  {
    p := START;
    if cfg.request.data == [] { return Done(Failure(BadPayload)), p; }
    if permit.None? { return Done(Failure(Timeout)), p; }
    p := Begin(permit.value);

    var k := 0;
    while k < |attempts|
      invariant 0 <= k <= |attempts|
      invariant Run(cfg, attempts, k, p) == Run(cfg, attempts, 0, Begin(permit.value))
    {
      var a := attempts[k];
      p := Launch(a, p);
      var signal: Signal;
      if a.rejected.Some? {
        signal, p := RetryOr(cfg, p, Return(Failure(a.rejected.value))).0,
                     RetryOr(cfg, p, Return(Failure(a.rejected.value))).1;
      } else {
        p := p.(task := Some(k)).Log(Accepted);
        if cfg.expectResponse {
          signal, p := ReadUdsMessages(cfg, a.events, p);
        } else if a.events == [] {
          signal := Starved;
        } else {
          signal, p := Return(Success(None)),
                       p.(clock := p.clock + a.events[0].wait).Log(Wait(cfg.rxTimeout));
        }
      }
      match signal {
        case Again =>
        case Break(result) =>
          p := Epilogue(cfg, result, p);
          return Wrap(result), p;
        case Return(result) =>
          return Done(result), p;
        case Starved =>
          return InProgress, p;
      }
      k := k + 1;
    }
    return InProgress, p;
  }
}
