/** The request engine by its rules: which receptions are read past, which repeat the request, and which
    end the call with what, each said of the reception itself, its time and the retries spent so far. The
    engine reaches a result exactly when these rules do. */
module RequestRules {
  import opened Bytes
  import opened Uds
  import opened RequestEngine
  import opened RequestEngineProperties

  // ---------------------------------------------------------------- receptions

  predicate IsPending(r: Reception, nrc: PendingNrc) { r == Item(Success(Some(Pending(nrc)))) }

  /** A message that is no answer to the request. */
  predicate IsUnrelated(cfg: Config, r: Reception)
    requires cfg.request.data != []
  {
    && r.Item? && r.item.Success? && r.item.value.Some? && r.item.value.value.UdsResponse?
    && !IsAnswer(cfg.request, r.item.value.value.msg)
  }

  predicate IsAnswerOf(cfg: Config, r: Reception, msg: ServicePayload)
    requires cfg.request.data != []
  {
    r == Item(Success(Some(UdsResponse(msg)))) && IsAnswer(cfg.request, msg)
  }

  /** What answers a request, in bytes: 7F and the SID, or the SID plus 0x40 with the echoed identifier of
      the services that have one. */
  lemma AnswerTable(request: ServicePayload, msg: ServicePayload)
    requires request.data != []
    ensures var q, r := request.data, msg.data;
            IsAnswer(request, msg) <==>
            || (|r| >= 2 && r[0] == 0x7F && r[1] == q[0])
            || (|r| >= 1 && r[0] == (if q[0] <= 0xBF then q[0] + 0x40 else 0xFF) && EchoesIn(q, r))
  {
    FilterTables(msg.data, request.data[0]);
    if IsPositiveFor(msg.data, request.data[0]) {
      EchoTables(msg.data, request.data);
    } else {
      NegativeNeedsNoEcho(msg.data, request.data);
    }
  }

  /** The identifier of the request stands in the response. */
  predicate EchoesIn(q: seq<byte>, r: seq<byte>)
    requires q != []
  {
    if q[0] in {0x22, 0x2E, 0x2F} && |q| >= 3 then |r| >= 3 && r[1] == q[1] && r[2] == q[2]
    else if q[0] == 0x31 && |q| >= 4 then |r| >= 4 && r[1] == q[1] % 0x80 && r[2] == q[2] && r[3] == q[3]
    else true
  }

  /** The attempt is lost with this error: an error from the gateway as it is, silence and a closed channel
      as Timeout. */
  predicate IsLost(r: Reception, e: DiagError) {
    r == Item(Failure(e)) || ((r.Elapsed? || r.Closed?) && e == Timeout)
  }

  /** A busy NRC is still acceptable: always, or up to and including its completion timeout, or never. */
  predicate InTime(policy: RetryPolicy, completion: nat, elapsed: nat) {
    policy.ContinueUnlimited? || (policy.ContinueUntilTimeout? && elapsed <= completion)
  }

  predicate Extends(cfg: Config, r: Reception, elapsed: nat) {
    IsPending(r, ResponsePending) && InTime(cfg.policy78, cfg.completion78, elapsed)
  }

  predicate Repeats21(cfg: Config, r: Reception, elapsed: nat) {
    IsPending(r, BusyRepeatRequest) && InTime(cfg.busy21.policy, cfg.busy21.completion, elapsed)
  }

  predicate Repeats94(cfg: Config, r: Reception, elapsed: nat) {
    IsPending(r, TemporarilyNotAvailable) && InTime(cfg.busy94.policy, cfg.busy94.completion, elapsed)
  }

  /** A pending NRC that its policy no longer accepts. */
  predicate IsRefused(cfg: Config, r: Reception, elapsed: nat) {
    || (IsPending(r, ResponsePending) && !InTime(cfg.policy78, cfg.completion78, elapsed))
    || (IsPending(r, BusyRepeatRequest) && !InTime(cfg.busy21.policy, cfg.busy21.completion, elapsed))
    || (IsPending(r, TemporarilyNotAvailable) && !InTime(cfg.busy94.policy, cfg.busy94.completion, elapsed))
  }

  predicate IsReadPast(cfg: Config, r: Reception, elapsed: nat)
    requires cfg.request.data != []
  {
    IsUnrelated(cfg, r) || Extends(cfg, r, elapsed)
  }

  /** The engine's reaction, reception by reception. */
  lemma ReactTable(cfg: Config, r: Reception, elapsed: nat)
    requires cfg.request.data != []
    ensures var a := React(cfg, r, elapsed);
            && (Transparent(a) <==> IsReadPast(cfg, r, elapsed))
            && (forall msg :: a == Answer(msg) <==> IsAnswerOf(cfg, r, msg))
            && (a == Resend(BusyRepeatRequest) <==> Repeats21(cfg, r, elapsed))
            && (a == Resend(TemporarilyNotAvailable) <==> Repeats94(cfg, r, elapsed))
            && a != Resend(ResponsePending)
            && (forall e :: a == NoAnswer(e) <==> IsLost(r, e))
            && (forall e :: a == Abort(e) <==>
                  || (r == Item(Success(None)) && e == UnexpectedResponse)
                  || (IsRefused(cfg, r, elapsed) && e == Timeout))
  {
  }

  // ---------------------------------------------------------------- one transmission

  /** Where a call stands when it is about to transmit. */
  datatype Point = Point(time: nat, retries: nat)

  /** Reception i is the first of the attempt that is not read past. */
  ghost predicate Stops(cfg: Config, events: seq<Event>, sent: nat, i: nat)
    requires cfg.request.data != []
  {
    && i < |events|
    && (forall k :: 0 <= k < i ==> IsReadPast(cfg, events[k].reception, ClockAt(events, sent, k + 1)))
    && !IsReadPast(cfg, events[i].reception, ClockAt(events, sent, i + 1))
  }

  /** The reception that stops the attempt asks for another transmission. */
  ghost predicate AsksAgain(cfg: Config, r: Reception, time: nat, retries: nat, next: Point) {
    || ((exists e :: IsLost(r, e)) && retries < cfg.repeatReqCountApp && next == Point(time, retries + 1))
    || (Repeats21(cfg, r, time) && next == Point(time + cfg.busy21.delay, retries))
    || (Repeats94(cfg, r, time) && next == Point(time + cfg.busy94.delay, retries))
  }

  /** The reception that stops the attempt ends the call. */
  predicate Settles(
    cfg: Config, r: Reception, time: nat, retries: nat, result: Result<Option<ServicePayload>, DiagError>)
    requires cfg.request.data != []
  {
    match result
    case Success(None) => false
    case Success(Some(msg)) => IsAnswerOf(cfg, r, msg)
    case Failure(e) =>
      || (IsLost(r, e) && retries >= cfg.repeatReqCountApp)
      || (r == Item(Success(None)) && e == UnexpectedResponse)
      || (IsRefused(cfg, r, time) && e == Timeout)
  }

  /** What the reception that stops the attempt asks for. */
  ghost predicate ReadsAgain(cfg: Config, events: seq<Event>, sent: nat, retries: nat, next: Point)
    requires cfg.request.data != []
  {
    exists i: nat ::
      && Stops(cfg, events, sent, i)
      && AsksAgain(cfg, events[i].reception, ClockAt(events, sent, i + 1), retries, next)
  }

  ghost predicate ReadsResult(
    cfg: Config, events: seq<Event>, sent: nat, retries: nat, result: Result<Option<ServicePayload>, DiagError>)
    requires cfg.request.data != []
  {
    exists i: nat ::
      && Stops(cfg, events, sent, i)
      && Settles(cfg, events[i].reception, ClockAt(events, sent, i + 1), retries, result)
  }

  /** The transmission leads to another one, at this point. */
  ghost predicate Repeats(cfg: Config, a: Attempt, at: Point, next: Point)
    requires cfg.request.data != []
  {
    var sent := at.time + a.setup;
    if a.rejected.Some? then at.retries < cfg.repeatReqCountApp && next == Point(sent, at.retries + 1)
    else cfg.expectResponse && ReadsAgain(cfg, a.events, sent, at.retries, next)
  }

  /** The transmission ends the call with this result. */
  ghost predicate Concludes(
    cfg: Config, a: Attempt, at: Point, result: Result<Option<ServicePayload>, DiagError>)
    requires cfg.request.data != []
  {
    var sent := at.time + a.setup;
    if a.rejected.Some? then at.retries >= cfg.repeatReqCountApp && result == Failure(a.rejected.value)
    else if !cfg.expectResponse then a.events != [] && result == Success(None)
    else ReadsResult(cfg, a.events, sent, at.retries, result)
  }

  lemma StopsDecides(cfg: Config, events: seq<Event>, sent: nat, i: nat)
    requires cfg.request.data != []
    ensures Stops(cfg, events, sent, i) <==> Decides(cfg, events, sent, i)
  {
    if i < |events| {
      forall k | 0 <= k <= i
        ensures IsReadPast(cfg, events[k].reception, ClockAt(events, sent, k + 1))
                <==> Transparent(React(cfg, events[k].reception, ClockAt(events, sent, k + 1)))
      {
        ReactTable(cfg, events[k].reception, ClockAt(events, sent, k + 1));
      }
    }
  }

  /** The read loop at its deciding event: the clock has moved by the waits, and nothing was retried. */
  lemma {:induction false} ReadEnds(cfg: Config, events: seq<Event>, i: nat, j: nat, base: nat, p: Progress)
    returns (q: Progress)
    requires cfg.request.data != [] && i <= j && Decides(cfg, events, base, j) && p.clock == ClockAt(events, base, i)
    ensures q.clock == ClockAt(events, base, j + 1) && q.retries == p.retries
    ensures Read(cfg, events, i, p) == Decided(cfg, q, React(cfg, events[j].reception, q.clock))
    decreases j - i
  {
    q := Await(cfg, events[i], p);
    assert q.clock == ClockAt(events, base, i + 1);
    var r := React(cfg, events[i].reception, q.clock);
    if i < j {
      assert Transparent(r);
      var next := if r.Ignore? then q.Log(Discard) else q.(window := Some(cfg.window78)).Log(Extend);
      q := ReadEnds(cfg, events, i + 1, j, base, next);
    }
  }

  function ResultOf(s: Signal): Option<Result<Option<ServicePayload>, DiagError>> {
    match s
    case Break(Success(msg)) => Some(Success(Some(msg)))
    case Break(Failure(e)) => Some(Failure(e))
    case Return(result) => Some(result)
    case _ => None
  }

  /** A deciding event asks again or settles, as the rules say. */
  lemma DecidedByRules(cfg: Config, r: Reception, q: Progress)
    requires cfg.request.data != [] && !IsReadPast(cfg, r, q.clock)
    ensures !Transparent(React(cfg, r, q.clock))
    ensures var (signal, n) := Decided(cfg, q, React(cfg, r, q.clock));
            && (forall next :: AsksAgain(cfg, r, q.clock, q.retries, next) <==>
                  signal.Again? && next == Point(n.clock, n.retries))
            && (forall result :: Settles(cfg, r, q.clock, q.retries, result) <==> ResultOf(signal) == Some(result))
  {
    ReactTable(cfg, r, q.clock);
    var a := React(cfg, r, q.clock);
    if a.NoAnswer? { assert IsLost(r, a.error); }
  }

  lemma ReadFollowsRules(cfg: Config, events: seq<Event>, p: Progress)
    requires cfg.request.data != []
    ensures var (signal, q) := Read(cfg, events, 0, p);
            && (forall next :: ReadsAgain(cfg, events, p.clock, p.retries, next) <==>
                  signal.Again? && next == Point(q.clock, q.retries))
            && (forall result :: ReadsResult(cfg, events, p.clock, p.retries, result) <==>
                  ResultOf(signal) == Some(result))
  {
    ReadDecides(cfg, events, 0, p.clock, p);
    forall i: nat ensures Stops(cfg, events, p.clock, i) <==> Decides(cfg, events, p.clock, i) {
      StopsDecides(cfg, events, p.clock, i);
    }
    if j: nat :| Decides(cfg, events, p.clock, j) {
      var n := ReadEnds(cfg, events, 0, j, p.clock, p);
      DecidedByRules(cfg, events[j].reception, n);
      ReadsAtStop(cfg, events, p.clock, p.retries, j);
    }
  }

  /** Only the reception that stops the attempt counts. */
  lemma ReadsAtStop(cfg: Config, events: seq<Event>, sent: nat, retries: nat, j: nat)
    requires cfg.request.data != [] && Stops(cfg, events, sent, j)
    ensures forall next :: ReadsAgain(cfg, events, sent, retries, next) <==>
              AsksAgain(cfg, events[j].reception, ClockAt(events, sent, j + 1), retries, next)
    ensures forall result :: ReadsResult(cfg, events, sent, retries, result) <==>
              Settles(cfg, events[j].reception, ClockAt(events, sent, j + 1), retries, result)
  {
    forall i: nat | Stops(cfg, events, sent, i) ensures i == j {
      OneStop(cfg, events, sent, i, j);
    }
  }

  lemma OneStop(cfg: Config, events: seq<Event>, sent: nat, i: nat, j: nat)
    requires cfg.request.data != [] && Stops(cfg, events, sent, i) && Stops(cfg, events, sent, j)
    ensures i == j
  {
  }

  /** One pass of the outer loop repeats or concludes exactly as the rules say. */
  lemma PassFollowsRules(cfg: Config, a: Attempt, k: nat, p: Progress)
    requires cfg.request.data != []
    ensures var (signal, q) := Send(cfg, a, k, p);
            && (forall next :: Repeats(cfg, a, Point(p.clock, p.retries), next) <==>
                  signal.Again? && next == Point(q.clock, q.retries))
            && (forall result :: Concludes(cfg, a, Point(p.clock, p.retries), result) <==>
                  ResultOf(signal) == Some(result))
  {
    var q := Launch(a, p);
    assert q.clock == p.clock + a.setup && q.retries == p.retries;
    if a.rejected.None? && cfg.expectResponse {
      ReadFollowsRules(cfg, a.events, q.(task := Some(k)).Log(Accepted));
    }
  }

  // ---------------------------------------------------------------- the whole call

  /** The transmissions of a call from number k on, at these points: each but the last leads to the next,
      and the last concludes. */
  ghost predicate Explains(
    cfg: Config, attempts: seq<Attempt>, k: nat, path: seq<Point>, result: Result<Option<ServicePayload>, DiagError>)
    requires cfg.request.data != []
    decreases |path|
  {
    && path != [] && k < |attempts|
    && if |path| == 1 then Concludes(cfg, attempts[k], path[0], result)
       else Repeats(cfg, attempts[k], path[0], path[1]) && Explains(cfg, attempts, k + 1, path[1..], result)
  }

  lemma {:induction false} RunIsExplained(
    cfg: Config, attempts: seq<Attempt>, k: nat, p: Progress, result: Result<Option<ServicePayload>, DiagError>)
    returns (path: seq<Point>)
    requires cfg.request.data != [] && k <= |attempts| && Run(cfg, attempts, k, p).0 == Done(result)
    ensures path != [] && path[0] == Point(p.clock, p.retries) && Explains(cfg, attempts, k, path, result)
    decreases |attempts| - k
  {
    var (signal, q) := Send(cfg, attempts[k], k, p);
    PassFollowsRules(cfg, attempts[k], k, p);
    path := [Point(p.clock, p.retries)];
    if signal.Again? {
      var rest := RunIsExplained(cfg, attempts, k + 1, q, result);
      path := path + rest;
      assert path[1..] == rest;
    } else {
      assert ResultOf(signal) == Some(result);
    }
  }

  lemma {:induction false} ExplainedIsRun(
    cfg: Config, attempts: seq<Attempt>, k: nat, p: Progress, path: seq<Point>,
    result: Result<Option<ServicePayload>, DiagError>)
    requires cfg.request.data != [] && k <= |attempts| && Tally(cfg, p, k, k)
    requires Explains(cfg, attempts, k, path, result) && path[0] == Point(p.clock, p.retries)
    ensures Run(cfg, attempts, k, p).0 == Done(result)
    ensures Count(Run(cfg, attempts, k, p).1.trace, Transmit) == k + |path|
    decreases |path|
  {
    var (signal, q) := Send(cfg, attempts[k], k, p);
    PassFollowsRules(cfg, attempts[k], k, p);
    SendTally(cfg, attempts[k], k, p);
    if |path| > 1 {
      assert signal.Again? && path[1] == Point(q.clock, q.retries);
      ExplainedIsRun(cfg, attempts, k + 1, q, path[1..], result);
    } else {
      assert ResultOf(signal) == Some(result);
      if signal.Break? { EpilogueKeepsCounts(cfg, signal.outcome, q); }
    }
  }

  /** A call with the permit returns a result exactly when the rules explain it, transmission by
      transmission from the time the permit took and no retries, and it transmits once per step. */
  lemma CallFollowsRules(
    cfg: Config, waited: nat, attempts: seq<Attempt>, result: Result<Option<ServicePayload>, DiagError>)
    requires cfg.request.data != []
    ensures Call(cfg, Some(waited), attempts).0 == Done(result) <==>
            exists path :: path != [] && path[0] == Point(waited, 0) && Explains(cfg, attempts, 0, path, result)
    ensures forall path :: path != [] && path[0] == Point(waited, 0) && Explains(cfg, attempts, 0, path, result) ==>
              Count(Call(cfg, Some(waited), attempts).1.trace, Transmit) == |path|
  {
    StartTally(cfg, waited);
    if Call(cfg, Some(waited), attempts).0 == Done(result) {
      var path := RunIsExplained(cfg, attempts, 0, Begin(waited), result);
    }
    forall path | path != [] && path[0] == Point(waited, 0) && Explains(cfg, attempts, 0, path, result)
      ensures Call(cfg, Some(waited), attempts).0 == Done(result)
      ensures Count(Call(cfg, Some(waited), attempts).1.trace, Transmit) == |path|
    {
      ExplainedIsRun(cfg, attempts, 0, Begin(waited), path, result);
    }
  }

  /** Without the permit, or without a SID, a call fails before anything is sent. */
  lemma CallWithoutPermit(cfg: Config, permit: Option<nat>, attempts: seq<Attempt>)
    requires cfg.request.data == [] || permit.None?
    ensures Call(cfg, permit, attempts).0 == Done(Failure(if cfg.request.data == [] then BadPayload else Timeout))
    ensures Call(cfg, permit, attempts).1.trace == []
  {
  }
}
