/** What every call of the request engine guarantees, whatever the gateway does. */
module RequestEngineProperties {
  import opened Bytes
  import opened Uds
  import opened RequestEngine

  function Count(trace: seq<Action>, a: Action): nat { multiset(trace)[a] }

  function Resends(trace: seq<Action>): nat {
    Count(trace, Retry) + Count(trace, Repeat21) + Count(trace, Repeat94)
  }

  // ---------------------------------------------------------------- the read loop, declaratively

  /** Clock after the waits for the first n events. */
  function ClockAt(events: seq<Event>, base: nat, n: nat): nat
    requires n <= |events|
  {
    if n == 0 then base else ClockAt(events, base, n - 1) + events[n - 1].wait
  }

  predicate Transparent(r: Reaction) { r.Ignore? || r.Prolong? }

  ghost predicate ReadThrough(cfg: Config, events: seq<Event>, base: nat, n: nat)
    requires cfg.request.data != [] && n <= |events|
  {
    forall k :: 0 <= k < n ==> Transparent(React(cfg, events[k].reception, ClockAt(events, base, k + 1)))
  }

  /** Event i is the first one the engine does not read past. */
  ghost predicate Decides(cfg: Config, events: seq<Event>, base: nat, i: nat)
    requires cfg.request.data != []
  {
    && i < |events|
    && ReadThrough(cfg, events, base, i)
    && !Transparent(React(cfg, events[i].reception, ClockAt(events, base, i + 1)))
  }

  /** The signal the deciding event gives, as a function of that event alone. */
  function Verdict(cfg: Config, r: Reaction, retries: nat): Signal
    requires !Transparent(r)
  {
    match r
    case Resend(_) => Again
    case Answer(msg) => Break(Success(msg))
    case Abort(e) => Break(Failure(e))
    case NoAnswer(e) => if retries < cfg.repeatReqCountApp then Again else Break(Failure(e))
  }

  lemma {:induction false} ReadDecides(cfg: Config, events: seq<Event>, i: nat, base: nat, p: Progress)
    requires cfg.request.data != [] && i <= |events|
    requires ReadThrough(cfg, events, base, i) && p.clock == ClockAt(events, base, i)
    ensures var signal := Read(cfg, events, i, p).0;
            && (signal.Starved? <==> ReadThrough(cfg, events, base, |events|))
            && (forall j: nat :: Decides(cfg, events, base, j) ==>
                  signal == Verdict(cfg, React(cfg, events[j].reception, ClockAt(events, base, j + 1)), p.retries))
            && (signal.Starved? || exists j: nat :: Decides(cfg, events, base, j))
            && !signal.Return?
    decreases |events| - i
  {
    if i < |events| {
      var q := Await(cfg, events[i], p);
      assert q.clock == ClockAt(events, base, i + 1);
      match React(cfg, events[i].reception, q.clock)
      case Ignore => ReadDecides(cfg, events, i + 1, base, q.Log(Discard));
      case Prolong => ReadDecides(cfg, events, i + 1, base, q.(window := Some(cfg.window78)).Log(Extend));
      case _ =>
        assert Decides(cfg, events, base, i);
        forall j: nat | Decides(cfg, events, base, j) ensures j == i { }
    }
  }

  /** The inner loop is "take the first event that is not to be read past": it starves exactly when
      there is none, and otherwise its signal is that event's verdict. */
  lemma ReadTakesFirstDecisiveEvent(cfg: Config, events: seq<Event>, p: Progress)
    requires cfg.request.data != []
    ensures var signal := Read(cfg, events, 0, p).0;
            && (signal.Starved? <==> !exists i: nat :: Decides(cfg, events, p.clock, i))
            && (forall i: nat :: Decides(cfg, events, p.clock, i) ==>
                  signal == Verdict(cfg, React(cfg, events[i].reception, ClockAt(events, p.clock, i + 1)), p.retries))
  {
    ReadDecides(cfg, events, 0, p.clock, p);
  }

  // ---------------------------------------------------------------- the delivered answer

  /** A reception the engine may consume before the answer: a 0x78, or a UDS frame that is no answer. */
  predicate Skippable(cfg: Config, r: Reception)
    requires cfg.request.data != []
  {
    && r.Item? && r.item.Success? && r.item.value.Some?
    && (r.item.value.value == Pending(ResponsePending)
        || (r.item.value.value.UdsResponse? && !IsAnswer(cfg.request, r.item.value.value.msg)))
  }

  /** msg is the first message of the attempt's own stream that answers the request, and only
      skippable receptions precede it. */
  ghost predicate FirstAnswer(cfg: Config, a: Attempt, msg: ServicePayload)
    requires cfg.request.data != []
  {
    && a.rejected.None?
    && IsAnswer(cfg.request, msg)
    && exists i ::
         && 0 <= i < |a.events|
         && a.events[i].reception == Item(Success(Some(UdsResponse(msg))))
         && forall k :: 0 <= k < i ==> Skippable(cfg, a.events[k].reception)
  }

  // ---------------------------------------------------------------- counting transmissions

  /** How often a busy NRC can be accepted under its policy; None when there is no bound. */
  function Cap(b: Busy): Option<nat> {
    match b.policy
    case Disabled => Some(0)
    case ContinueUntilTimeout => if b.delay > 0 then Some(b.completion / b.delay + 1) else None
    case ContinueUnlimited => None
  }

  predicate Capped(b: Busy, n: nat) { Cap(b).Some? ==> n <= Cap(b).value }

  /** Time spent in n busy repeats. */
  function Delays(n: nat, delay: nat): (d: nat) { if n == 0 then 0 else Delays(n - 1, delay) + delay }

  lemma {:induction false} DelaysIsProduct(n: nat, delay: nat)
    ensures Delays(n, delay) == n * delay
  {
    if n > 0 { DelaysIsProduct(n - 1, delay); }
  }

  /** Bookkeeping at any point of a run with so many transmissions and resends. */
  ghost predicate Tally(cfg: Config, p: Progress, sent: nat, resent: nat) {
    var n21, n94 := Count(p.trace, Repeat21), Count(p.trace, Repeat94);
    && Count(p.trace, Transmit) == sent
    && Resends(p.trace) == resent
    && Count(p.trace, Retry) == p.retries <= cfg.repeatReqCountApp
    && Delays(n21, cfg.busy21.delay) + Delays(n94, cfg.busy94.delay) <= p.clock
    && Capped(cfg.busy21, n21) && Capped(cfg.busy94, n94)
    && Clean(p.trace)
  }

  /** No effect outside the loops yet. */
  ghost predicate Clean(trace: seq<Action>) {
    forall a :: a in trace ==> !a.Disconnect? && !a.Commit?
  }

  predicate Neutral(a: Action) {
    a.AwaitTask? || a.Accepted? || a.Wait? || a.Discard? || a.Extend?
  }

  /** Time passing and uncounted actions leave the bookkeeping alone. */
  lemma TallyStable(cfg: Config, p: Progress, q: Progress, a: Action, sent: nat, resent: nat)
    requires Tally(cfg, p, sent, resent)
    requires Neutral(a) && q.trace == p.trace + [a] && q.retries == p.retries && q.clock >= p.clock
    ensures Tally(cfg, q, sent, resent)
  {
  }

  /** Each accepted busy NRC was seen no later than the completion timeout, and the earlier ones
      already cost one delay each. */
  lemma AcceptedBusyStaysCapped(b: Busy, n: nat, elapsed: nat)
    requires Permits(b.policy, elapsed, b.completion)
    requires Delays(n, b.delay) <= elapsed
    ensures Capped(b, n + 1)
  {
    DelaysIsProduct(n, b.delay);
    if b.policy == ContinueUntilTimeout && b.delay > 0 && n > b.completion / b.delay {
      assert n * b.delay >= (b.completion / b.delay + 1) * b.delay;
    }
  }

  lemma Backoff21Tally(cfg: Config, p: Progress, sent: nat, resent: nat)
    requires Permits(cfg.busy21.policy, p.clock, cfg.busy21.completion)
    requires Tally(cfg, p, sent, resent)
    ensures Tally(cfg, Backoff(cfg, BusyRepeatRequest, p), sent, resent + 1)
  {
    var n21, n94 := Count(p.trace, Repeat21), Count(p.trace, Repeat94);
    AcceptedBusyStaysCapped(cfg.busy21, n21, p.clock);
    var t := Backoff(cfg, BusyRepeatRequest, p).trace;
    assert Count(t, Repeat21) == n21 + 1 && Count(t, Repeat94) == n94;
  }

  lemma Backoff94Tally(cfg: Config, p: Progress, sent: nat, resent: nat)
    requires Permits(cfg.busy94.policy, p.clock, cfg.busy94.completion)
    requires Tally(cfg, p, sent, resent)
    ensures Tally(cfg, Backoff(cfg, TemporarilyNotAvailable, p), sent, resent + 1)
  {
    var n21, n94 := Count(p.trace, Repeat21), Count(p.trace, Repeat94);
    AcceptedBusyStaysCapped(cfg.busy94, n94, p.clock);
    var t := Backoff(cfg, TemporarilyNotAvailable, p).trace;
    assert Count(t, Repeat94) == n94 + 1 && Count(t, Repeat21) == n21;
  }

  lemma AwaitTally(cfg: Config, e: Event, p: Progress, sent: nat, resent: nat)
    requires Tally(cfg, p, sent, resent)
    ensures Tally(cfg, Await(cfg, e, p), sent, resent)
  {
    TallyStable(cfg, p, Await(cfg, e, p), Wait(WindowOf(cfg, p.window)), sent, resent);
  }

  lemma RetryTally(cfg: Config, p: Progress, exhausted: Signal, sent: nat, resent: nat)
    requires Tally(cfg, p, sent, resent) && !exhausted.Again?
    ensures var (signal, q) := RetryOr(cfg, p, exhausted);
            Tally(cfg, q, sent, if signal.Again? then resent + 1 else resent)
  {
  }

  /** Reading past an event leaves the bookkeeping alone. */
  lemma PassedEventTally(cfg: Config, q: Progress, sent: nat, resent: nat)
    requires Tally(cfg, q, sent, resent)
    ensures Tally(cfg, q.Log(Discard), sent, resent)
    ensures Tally(cfg, q.(window := Some(cfg.window78)).Log(Extend), sent, resent)
  {
    TallyStable(cfg, q, q.Log(Discard), Discard, sent, resent);
    TallyStable(cfg, q, q.(window := Some(cfg.window78)).Log(Extend), Extend, sent, resent);
  }

  /** The deciding event adds one resend exactly when it asks for one. */
  lemma DecidingEventTally(cfg: Config, events: seq<Event>, i: nat, p: Progress, sent: nat, resent: nat)
    requires cfg.request.data != [] && i < |events| && Tally(cfg, Await(cfg, events[i], p), sent, resent)
    requires !Transparent(React(cfg, events[i].reception, Await(cfg, events[i], p).clock))
    ensures var (signal, q) := Read(cfg, events, i, p);
            Tally(cfg, q, sent, if signal.Again? then resent + 1 else resent)
  {
    var q := Await(cfg, events[i], p);
    var r := React(cfg, events[i].reception, q.clock);
    ReactionAllowed(cfg, events[i].reception, q.clock);
    assert Read(cfg, events, i, p) == Decided(cfg, q, r);
    DecidedTally(cfg, q, r, sent, resent);
  }

  /** What the read loop does with a deciding reaction. */
  function Decided(cfg: Config, q: Progress, r: Reaction): (Signal, Progress)
    requires !Transparent(r)
  {
    match r
    case Resend(nrc) => (Again, Backoff(cfg, nrc, q))
    case Answer(msg) => (Break(Success(msg)), q)
    case Abort(e) => (Break(Failure(e)), q)
    case NoAnswer(e) => RetryOr(cfg, q, Break(Failure(e)))
  }

  /** Only the two busy NRCs ask for a resend, and only while their policy permits. */
  predicate Allowed(cfg: Config, r: Reaction, elapsed: nat) {
    r.Resend? ==>
      r.nrc != ResponsePending && Permits(BusyFor(cfg, r.nrc).policy, elapsed, BusyFor(cfg, r.nrc).completion)
  }

  lemma ReactionAllowed(cfg: Config, reception: Reception, elapsed: nat)
    requires cfg.request.data != []
    ensures Allowed(cfg, React(cfg, reception, elapsed), elapsed)
  {
  }

  lemma DecidedTally(cfg: Config, q: Progress, r: Reaction, sent: nat, resent: nat)
    requires !Transparent(r) && Allowed(cfg, r, q.clock) && Tally(cfg, q, sent, resent)
    ensures var (signal, p) := Decided(cfg, q, r);
            Tally(cfg, p, sent, if signal.Again? then resent + 1 else resent)
  {
    match r
    case Resend(nrc) =>
      if nrc == BusyRepeatRequest { Backoff21Tally(cfg, q, sent, resent); }
      else { Backoff94Tally(cfg, q, sent, resent); }
    case NoAnswer(e) => RetryTally(cfg, q, Break(Failure(e)), sent, resent);
    case _ =>
  }

  lemma {:induction false} ReadTally(cfg: Config, events: seq<Event>, i: nat, p: Progress, sent: nat, resent: nat)
    requires cfg.request.data != [] && i <= |events|
    requires Tally(cfg, p, sent, resent)
    ensures var (signal, q) := Read(cfg, events, i, p);
            Tally(cfg, q, sent, if signal.Again? then resent + 1 else resent)
    decreases |events| - i
  {
    if i < |events| {
      var q := Await(cfg, events[i], p);
      AwaitTally(cfg, events[i], p, sent, resent);
      var r := React(cfg, events[i].reception, q.clock);
      if Transparent(r) {
        PassedEventTally(cfg, q, sent, resent);
        var next := if r.Ignore? then q.Log(Discard) else q.(window := Some(cfg.window78)).Log(Extend);
        ReadTally(cfg, events, i + 1, next, sent, resent);
      } else {
        DecidingEventTally(cfg, events, i, p, sent, resent);
      }
    }
  }

  lemma LaunchTally(cfg: Config, a: Attempt, p: Progress, k: nat)
    requires Tally(cfg, p, k, k)
    ensures Tally(cfg, Launch(a, p), k + 1, k)
  {
    if p.task.Some? {
      var q := p.(task := None).Log(AwaitTask(p.task.value));
      TallyStable(cfg, p, q, AwaitTask(p.task.value), k, k);
    }
  }

  lemma SendTally(cfg: Config, a: Attempt, k: nat, p: Progress)
    requires cfg.request.data != []
    requires Tally(cfg, p, k, k)
    ensures var (signal, q) := Send(cfg, a, k, p);
            Tally(cfg, q, k + 1, if signal.Again? then k + 1 else k)
  {
    LaunchTally(cfg, a, p, k);
    if a.rejected.Some? {
      RetryTally(cfg, Launch(a, p), Return(Failure(a.rejected.value)), k + 1, k);
    } else {
      var q := Launch(a, p).(task := Some(k)).Log(Accepted);
      TallyStable(cfg, Launch(a, p), q, Accepted, k + 1, k);
      if cfg.expectResponse {
        ReadTally(cfg, a.events, 0, q, k + 1, k);
      } else if a.events != [] {
        TallyStable(cfg, q, Send(cfg, a, k, p).1, Wait(cfg.rxTimeout), k + 1, k);
      }
    }
  }

  /** The last pass of the outer loop: all earlier attempts asked for another transmission. */
  lemma {:induction false} LastPass(cfg: Config, attempts: seq<Attempt>, k: nat, p: Progress)
    returns (n: nat, head: Progress)
    requires cfg.request.data != [] && k <= |attempts|
    requires Tally(cfg, p, k, k)
    ensures k <= n <= |attempts| && Tally(cfg, head, n, n)
    ensures Run(cfg, attempts, k, p) == Run(cfg, attempts, n, head)
    ensures n < |attempts| ==>
              !Send(cfg, attempts[n], n, head).0.Again? && Tally(cfg, Send(cfg, attempts[n], n, head).1, n + 1, n)
    decreases |attempts| - k
  {
    if k == |attempts| {
      n, head := k, p;
    } else {
      var (signal, q) := Send(cfg, attempts[k], k, p);
      SendTally(cfg, attempts[k], k, p);
      if signal.Again? {
        n, head := LastPass(cfg, attempts, k + 1, q);
      } else {
        n, head := k, p;
      }
    }
  }

  lemma StartTally(cfg: Config, waited: nat)
    ensures Tally(cfg, Begin(waited), 0, 0)
  {
  }

  lemma EpilogueKeepsCounts(cfg: Config, result: Result<ServicePayload, DiagError>, q: Progress)
    requires cfg.request.data != []
    ensures var t := Epilogue(cfg, result, q).trace;
            && Count(t, Transmit) == Count(q.trace, Transmit)
            && Count(t, Retry) == Count(q.trace, Retry)
            && Count(t, Repeat21) == Count(q.trace, Repeat21)
            && Count(t, Repeat94) == Count(q.trace, Repeat94)
  {
  }

  /** Every call with the permit, seen from its last pass. */
  lemma CallEnds(cfg: Config, permit: Option<nat>, attempts: seq<Attempt>) returns (n: nat, head: Progress)
    requires cfg.request.data != [] && permit.Some?
    ensures n <= |attempts|
    ensures Call(cfg, permit, attempts) == Run(cfg, attempts, n, head)
    ensures n < |attempts| ==> !Send(cfg, attempts[n], n, head).0.Again?
    ensures var t := Call(cfg, permit, attempts).1.trace;
            var q := if n < |attempts| then Send(cfg, attempts[n], n, head).1 else head;
            && Clean(q.trace)
            && Count(t, Transmit) == (if n < |attempts| then n + 1 else n)
            && Resends(t) == n
            && Count(t, Retry) == q.retries <= cfg.repeatReqCountApp
            && Capped(cfg.busy21, Count(t, Repeat21)) && Capped(cfg.busy94, Count(t, Repeat94))
  {
    StartTally(cfg, permit.value);
    n, head := LastPass(cfg, attempts, 0, Begin(permit.value));
    if n < |attempts| {
      var (signal, q) := Send(cfg, attempts[n], n, head);
      if signal.Break? {
        EpilogueKeepsCounts(cfg, signal.outcome, q);
      }
    }
  }

  /** Transmissions are the first one plus the application retries plus the accepted 0x21 and 0x94
      repeats; retries never exceed CP_RepeatReqCountApp and each busy count stays under its cap. */
  lemma TransmissionBalance(cfg: Config, permit: Option<nat>, attempts: seq<Attempt>)
    requires cfg.request.data != [] && permit.Some?
    ensures var (outcome, p) := Call(cfg, permit, attempts);
            var t := p.trace;
            && (outcome.Done? ==> Count(t, Transmit) == 1 + Resends(t))
            && (outcome.InProgress? ==> Resends(t) <= Count(t, Transmit) <= 1 + Resends(t))
            && Count(t, Retry) <= cfg.repeatReqCountApp
            && Capped(cfg.busy21, Count(t, Repeat21)) && Capped(cfg.busy94, Count(t, Repeat94))
            && Count(t, Transmit) <= |attempts|
  {
    var n, head := CallEnds(cfg, permit, attempts);
  }

  /** Under ContinueUntilTimeout with positive delays:
      transmissions <= 1 + N + (T21 / d21 + 1) + (T94 / d94 + 1). */
  lemma TransmissionBound(cfg: Config, permit: Option<nat>, attempts: seq<Attempt>)
    requires cfg.request.data != [] && permit.Some?
    requires cfg.busy21.policy == ContinueUntilTimeout && cfg.busy21.delay > 0
    requires cfg.busy94.policy == ContinueUntilTimeout && cfg.busy94.delay > 0
    ensures Count(Call(cfg, permit, attempts).1.trace, Transmit)
            <= 1 + cfg.repeatReqCountApp
               + (cfg.busy21.completion / cfg.busy21.delay + 1)
               + (cfg.busy94.completion / cfg.busy94.delay + 1)
  {
    TransmissionBalance(cfg, permit, attempts);
  }

  // ---------------------------------------------------------------- the result

  /** How a pass that breaks out of the read loop got there. */
  lemma BreakDecides(cfg: Config, a: Attempt, k: nat, p: Progress) returns (i: nat, elapsed: nat)
    requires cfg.request.data != []
    requires Send(cfg, a, k, p).0.Break?
    ensures a.rejected.None? && cfg.expectResponse
    ensures i < |a.events| && forall j :: 0 <= j < i ==> Skippable(cfg, a.events[j].reception)
    ensures var r := React(cfg, a.events[i].reception, elapsed);
            !Transparent(r) && Send(cfg, a, k, p).0 == Verdict(cfg, r, p.retries)
  {
    var q := Launch(a, p).(task := Some(k)).Log(Accepted);
    ReadDecides(cfg, a.events, 0, q.clock, q);
    i :| Decides(cfg, a.events, q.clock, i);
    elapsed := ClockAt(a.events, q.clock, i + 1);
    forall j | 0 <= j < i ensures Skippable(cfg, a.events[j].reception) {
      assert Transparent(React(cfg, a.events[j].reception, ClockAt(a.events, q.clock, j + 1)));
    }
  }

  /** A pass returns directly only without an expected response, or when the transmission is refused
      and no retry is left. */
  lemma ReturnsDirectly(cfg: Config, a: Attempt, k: nat, p: Progress)
    requires cfg.request.data != []
    requires Send(cfg, a, k, p).0.Return?
    ensures var result := Send(cfg, a, k, p).0.result;
            if a.rejected.None? then result == Success(None)
            else result == Failure(a.rejected.value) && p.retries >= cfg.repeatReqCountApp
  {
    if a.rejected.None? && cfg.expectResponse {
      var q := Launch(a, p).(task := Some(k)).Log(Accepted);
      ReadDecides(cfg, a.events, 0, q.clock, q);
    }
  }

  lemma AnsweringPass(cfg: Config, a: Attempt, k: nat, p: Progress, msg: ServicePayload)
    requires cfg.request.data != []
    requires Send(cfg, a, k, p).0 == Break(Success(msg))
    ensures FirstAnswer(cfg, a, msg)
  {
    var i, elapsed := BreakDecides(cfg, a, k, p);
    assert React(cfg, a.events[i].reception, elapsed) == Answer(msg);
    assert a.events[i].reception == Item(Success(Some(UdsResponse(msg))));
  }

  /** `Ok(Some(m))`: m is the first answer in the stream of the last transmitted attempt. */
  lemma DeliveredMessageIsFirstAnswer(cfg: Config, permit: Option<nat>, attempts: seq<Attempt>, msg: ServicePayload)
    requires Call(cfg, permit, attempts).0 == Done(Success(Some(msg)))
    ensures cfg.request.data != []
    ensures var n := Count(Call(cfg, permit, attempts).1.trace, Transmit);
            0 < n <= |attempts| && FirstAnswer(cfg, attempts[n - 1], msg)
  {
    var n, head := CallEnds(cfg, permit, attempts);
    if Send(cfg, attempts[n], n, head).0.Return? {
      ReturnsDirectly(cfg, attempts[n], n, head);
    }
    AnsweringPass(cfg, attempts[n], n, head, msg);
  }

  /** An attempt that cannot leave the engine waiting: rejected, or with an event that is never read past. */
  ghost predicate Conclusive(cfg: Config, a: Attempt)
    requires cfg.request.data != []
  {
    || a.rejected.Some?
    || (if cfg.expectResponse then exists i :: 0 <= i < |a.events| && !Skippable(cfg, a.events[i].reception)
        else a.events != [])
  }

  lemma ConclusiveIsNotStarved(cfg: Config, a: Attempt, k: nat, p: Progress)
    requires cfg.request.data != [] && Conclusive(cfg, a)
    ensures !Send(cfg, a, k, p).0.Starved?
  {
    if a.rejected.None? && cfg.expectResponse {
      var q := Launch(a, p).(task := Some(k)).Log(Accepted);
      ReadDecides(cfg, a.events, 0, q.clock, q);
      var i :| 0 <= i < |a.events| && !Skippable(cfg, a.events[i].reception);
      assert !Transparent(React(cfg, a.events[i].reception, ClockAt(a.events, q.clock, i + 1)));
    }
  }

  /** Bounded policies force a result: a gateway that keeps producing conclusive attempts cannot hold
      the engine beyond the transmission bound. */
  lemma BoundedPoliciesConclude(cfg: Config, permit: Option<nat>, attempts: seq<Attempt>)
    requires cfg.request.data != [] && permit.Some?
    requires Cap(cfg.busy21).Some? && Cap(cfg.busy94).Some?
    requires forall k :: 0 <= k < |attempts| ==> Conclusive(cfg, attempts[k])
    requires |attempts| > cfg.repeatReqCountApp + Cap(cfg.busy21).value + Cap(cfg.busy94).value
    ensures Call(cfg, permit, attempts).0.Done?
  {
    var n, head := CallEnds(cfg, permit, attempts);
    if n < |attempts| {
      ConclusiveIsNotStarved(cfg, attempts[n], n, head);
    }
  }

  // ---------------------------------------------------------------- silence

  /** No pending NRC and no bare acknowledgement among the receptions. */
  predicate NoLifeSign(events: seq<Event>) {
    forall i :: 0 <= i < |events| && events[i].reception.Item? && events[i].reception.item.Success? ==>
      events[i].reception.item.value.Some? && events[i].reception.item.value.value.UdsResponse?
  }

  /** A failure whose last attempt only saw errors, silence, a closed channel or unrelated frames is
      surfaced only after all CP_RepeatReqCountApp retries. */
  lemma SilenceSpendsAllRetries(cfg: Config, permit: Option<nat>, attempts: seq<Attempt>)
    requires cfg.request.data != [] && permit.Some?
    ensures var (outcome, p) := Call(cfg, permit, attempts);
            var n := Count(p.trace, Transmit);
            outcome.Done? && outcome.result.Failure? ==>
              && 0 < n <= |attempts|
              && (NoLifeSign(attempts[n - 1].events) ==> Count(p.trace, Retry) == cfg.repeatReqCountApp)
  {
    var n, head := CallEnds(cfg, permit, attempts);
    if n < |attempts| && NoLifeSign(attempts[n].events) && Failing(Send(cfg, attempts[n], n, head).0) {
      SilentPassSpendsRetries(cfg, attempts[n], n, head);
    }
  }

  predicate Failing(s: Signal) { (s.Break? && s.outcome.Failure?) || (s.Return? && s.result.Failure?) }

  lemma SilentPassSpendsRetries(cfg: Config, a: Attempt, k: nat, p: Progress)
    requires cfg.request.data != [] && NoLifeSign(a.events)
    requires Failing(Send(cfg, a, k, p).0)
    ensures Send(cfg, a, k, p).1.retries >= cfg.repeatReqCountApp
  {
    RetriesGrow(cfg, a, k, p);
    if Send(cfg, a, k, p).0.Break? {
      var i, elapsed := BreakDecides(cfg, a, k, p);
    } else {
      ReturnsDirectly(cfg, a, k, p);
    }
  }

  /** The retry counter never falls within a pass. */
  lemma RetriesGrow(cfg: Config, a: Attempt, k: nat, p: Progress)
    requires cfg.request.data != []
    ensures p.retries <= Send(cfg, a, k, p).1.retries
  {
    if a.rejected.None? && cfg.expectResponse {
      ReadRetriesGrow(cfg, a.events, 0, Launch(a, p).(task := Some(k)).Log(Accepted));
    }
  }

  lemma {:induction false} ReadRetriesGrow(cfg: Config, events: seq<Event>, i: nat, p: Progress)
    requires cfg.request.data != [] && i <= |events|
    ensures p.retries <= Read(cfg, events, i, p).1.retries
    decreases |events| - i
  {
    if i < |events| {
      var q := Await(cfg, events[i], p);
      match React(cfg, events[i].reception, q.clock)
      case Ignore => ReadRetriesGrow(cfg, events, i + 1, q.Log(Discard));
      case Prolong => ReadRetriesGrow(cfg, events, i + 1, q.(window := Some(cfg.window78)).Log(Extend));
      case _ =>
    }
  }

  // ---------------------------------------------------------------- side effects

  lemma CleanCounts(trace: seq<Action>)
    requires Clean(trace)
    ensures Count(trace, Disconnect) == 0
    ensures forall sid, v :: Count(trace, Commit(sid, v)) == 0
  {
    assert Disconnect !in trace;
    forall sid, v ensures Count(trace, Commit(sid, v)) == 0 {
      assert Commit(sid, v) !in trace;
    }
  }

  lemma EpilogueEffects(cfg: Config, result: Result<ServicePayload, DiagError>, q: Progress)
    requires cfg.request.data != [] && Clean(q.trace)
    ensures EffectsOf(cfg, result, Epilogue(cfg, result, q).trace)
  {
    CleanCounts(q.trace);
  }

  /** What a finished read loop leaves in the trace. */
  ghost predicate EffectsOf(cfg: Config, result: Result<ServicePayload, DiagError>, t: seq<Action>)
    requires cfg.request.data != []
  {
    var sent := cfg.request.data[0];
    && (Disconnect in t <==> result == Failure(Timeout) && sent != TESTER_PRESENT)
    && Count(t, Disconnect) <= 1
    && (forall sid, v :: Commit(sid, v) in t <==>
          && result.Success? && IsPositiveFor(result.value.data, sent)
          && ((sid == SESSION_CONTROL && cfg.request.newSession == Some(v))
              || (sid == SECURITY_ACCESS && cfg.request.newSecurity == Some(v))))
    && (forall sid, v :: Count(t, Commit(sid, v)) <= 1)
  }

  /** The disconnect notice is issued exactly when the read loop ended in Timeout, that is, the call
      fails with Timeout and its last transmission had been accepted, and the request is not
      TesterPresent; service states are written exactly when a positive response is returned, to
      the payload's values and at most once each. */
  lemma SideEffects(cfg: Config, permit: Option<nat>, attempts: seq<Attempt>)
    ensures var (outcome, p) := Call(cfg, permit, attempts);
            var n := Count(p.trace, Transmit);
            && (Disconnect in p.trace <==>
                  && outcome == Done(Failure(Timeout))
                  && 0 < n <= |attempts| && attempts[n - 1].rejected.None?
                  && cfg.request.data != [] && cfg.request.data[0] != 0x3E)
            && Count(p.trace, Disconnect) <= 1
            && (forall sid, v :: Commit(sid, v) in p.trace <==>
                  && outcome.Done? && outcome.result.Success? && outcome.result.value.Some?
                  && cfg.request.data != []
                  && IsPositiveFor(outcome.result.value.value.data, cfg.request.data[0])
                  && ((sid == 0x10 && cfg.request.newSession == Some(v))
                      || (sid == 0x27 && cfg.request.newSecurity == Some(v))))
            && (forall sid, v :: Count(p.trace, Commit(sid, v)) <= 1)
  {
    if cfg.request.data != [] && permit.Some? {
      var n, head := CallEnds(cfg, permit, attempts);
      if n < |attempts| {
        var (signal, q) := Send(cfg, attempts[n], n, head);
        LastPassEffects(cfg, attempts[n], n, head);
        assert signal.Break? ==>
            Call(cfg, permit, attempts) == (Wrap(signal.outcome), Epilogue(cfg, signal.outcome, q));
      } else {
        CleanCounts(head.trace);
      }
    }
  }

  /** The effects of the pass that ends a call: those of its epilogue if it breaks out of the read loop,
      and none otherwise. */
  lemma LastPassEffects(cfg: Config, a: Attempt, k: nat, p: Progress)
    requires cfg.request.data != [] && Clean(Send(cfg, a, k, p).1.trace)
    ensures var (signal, q) := Send(cfg, a, k, p);
            && (signal.Break? ==>
                  a.rejected.None? && EffectsOf(cfg, signal.outcome, Epilogue(cfg, signal.outcome, q).trace))
            && (!signal.Break? ==>
                  && Count(q.trace, Disconnect) == 0 && Disconnect !in q.trace
                  && (forall sid, v :: Count(q.trace, Commit(sid, v)) == 0 && Commit(sid, v) !in q.trace))
            && (signal.Return? ==>
                  if a.rejected.None? then signal.result == Success(None)
                  else signal.result == Failure(a.rejected.value))
  {
    var (signal, q) := Send(cfg, a, k, p);
    CleanCounts(q.trace);
    if signal.Break? {
      var i, elapsed := BreakDecides(cfg, a, k, p);
      EpilogueEffects(cfg, signal.outcome, q);
    } else if signal.Return? {
      ReturnsDirectly(cfg, a, k, p);
    }
  }
}
