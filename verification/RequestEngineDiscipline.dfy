/** Order of the engine's actions: which receive window is in force at every wait, and which gateway
    task has been awaited before every transmission. */
module RequestEngineDiscipline {
  import opened Bytes
  import opened Uds
  import opened RequestEngine

  /** A monitor over the trace: the prolonged window, the accepted task not yet awaited, and the
      number of transmissions. */
  datatype Monitor = Monitor(window: Option<nat>, running: Option<nat>, sent: nat)

  /** One observation; None is a violation. */
  function Observe(cfg: Config, m: Monitor, a: Action): (r: Option<Monitor>) {
    match a
    case AwaitTask(task) => if m.running == Some(task) then Some(m.(running := None)) else None
    case Transmit => if m.running.None? then Some(m.(sent := m.sent + 1)) else None
    case Accepted => if m.running.None? && m.sent > 0 then Some(m.(running := Some(m.sent - 1))) else None
    case Wait(window) => if window == WindowOf(cfg, m.window) then Some(m) else None
    case Extend => Some(m.(window := Some(cfg.window78)))
    case Retry => Some(m.(window := None))
    case _ => Some(m)
  }

  function Scan(cfg: Config, t: seq<Action>): (r: Option<Monitor>) {
    if t == [] then Some(Monitor(None, None, 0))
    else
      match Scan(cfg, t[..|t| - 1])
      case None => None
      case Some(m) => Observe(cfg, m, t[|t| - 1])
  }

  lemma ScanLog(cfg: Config, t: seq<Action>, a: Action)
    requires Scan(cfg, t).Some?
    ensures Scan(cfg, t + [a]) == Observe(cfg, Scan(cfg, t).value, a)
  {
    assert (t + [a])[..|t|] == t;
  }

  /** The monitor agrees with the engine's variables. */
  ghost predicate Tracked(cfg: Config, p: Progress, sent: nat) {
    && Scan(cfg, p.trace) == Some(Monitor(p.window, p.task, sent))
    && (!cfg.expectResponse ==> p.window.None?)
  }

  /** Logging an action the monitor accepts keeps the agreement. */
  lemma Logged(cfg: Config, p: Progress, sent: nat, a: Action, q: Progress, sent': nat)
    requires Tracked(cfg, p, sent) && q.trace == p.trace + [a]
    requires Observe(cfg, Monitor(p.window, p.task, sent), a) == Some(Monitor(q.window, q.task, sent'))
    requires !cfg.expectResponse ==> q.window.None?
    ensures Tracked(cfg, q, sent')
  {
    ScanLog(cfg, p.trace, a);
  }

  lemma RetryTracked(cfg: Config, p: Progress, exhausted: Signal, sent: nat)
    requires Tracked(cfg, p, sent)
    ensures Tracked(cfg, RetryOr(cfg, p, exhausted).1, sent)
  {
    if p.retries < cfg.repeatReqCountApp {
      Logged(cfg, p, sent, Retry, RetryOr(cfg, p, exhausted).1, sent);
    }
  }

  lemma AwaitTracked(cfg: Config, e: Event, p: Progress, sent: nat)
    requires Tracked(cfg, p, sent)
    ensures Tracked(cfg, Await(cfg, e, p), sent)
  {
    Logged(cfg, p, sent, Wait(WindowOf(cfg, p.window)), Await(cfg, e, p), sent);
  }

  lemma DiscardTracked(cfg: Config, p: Progress, sent: nat)
    requires Tracked(cfg, p, sent)
    ensures Tracked(cfg, p.Log(Discard), sent)
  {
    Logged(cfg, p, sent, Discard, p.Log(Discard), sent);
  }

  lemma ExtendTracked(cfg: Config, p: Progress, sent: nat)
    requires Tracked(cfg, p, sent) && cfg.expectResponse
    ensures Tracked(cfg, p.(window := Some(cfg.window78)).Log(Extend), sent)
  {
    Logged(cfg, p, sent, Extend, p.(window := Some(cfg.window78)).Log(Extend), sent);
  }

  lemma BackoffTracked(cfg: Config, nrc: PendingNrc, p: Progress, sent: nat)
    requires Tracked(cfg, p, sent)
    ensures Tracked(cfg, Backoff(cfg, nrc, p), sent)
  {
    Logged(cfg, p, sent, if nrc == BusyRepeatRequest then Repeat21 else Repeat94, Backoff(cfg, nrc, p), sent);
  }

  lemma {:induction false} ReadTracked(cfg: Config, events: seq<Event>, i: nat, p: Progress, sent: nat)
    requires cfg.request.data != [] && cfg.expectResponse && i <= |events|
    requires Tracked(cfg, p, sent)
    ensures Tracked(cfg, Read(cfg, events, i, p).1, sent)
    decreases |events| - i
  {
    if i < |events| {
      var q := Await(cfg, events[i], p);
      AwaitTracked(cfg, events[i], p, sent);
      match React(cfg, events[i].reception, q.clock)
      case Ignore =>
        DiscardTracked(cfg, q, sent);
        ReadTracked(cfg, events, i + 1, q.Log(Discard), sent);
      case Prolong =>
        ExtendTracked(cfg, q, sent);
        ReadTracked(cfg, events, i + 1, q.(window := Some(cfg.window78)).Log(Extend), sent);
      case Resend(nrc) =>
        BackoffTracked(cfg, nrc, q, sent);
      case NoAnswer(e) =>
        RetryTracked(cfg, q, Break(Failure(e)), sent);
      case _ =>
    }
  }

  lemma LaunchTracked(cfg: Config, a: Attempt, p: Progress, sent: nat)
    requires Tracked(cfg, p, sent)
    ensures Tracked(cfg, Launch(a, p), sent + 1) && Launch(a, p).task.None?
  {
    var q := if p.task.Some? then p.(task := None).Log(AwaitTask(p.task.value)) else p;
    if p.task.Some? {
      Logged(cfg, p, sent, AwaitTask(p.task.value), q, sent);
    }
    Logged(cfg, q, sent, Transmit, Launch(a, p), sent + 1);
  }

  lemma SendTracked(cfg: Config, a: Attempt, k: nat, p: Progress)
    requires cfg.request.data != []
    requires Tracked(cfg, p, k)
    ensures Tracked(cfg, Send(cfg, a, k, p).1, k + 1)
  {
    LaunchTracked(cfg, a, p, k);
    var q := Launch(a, p);
    if a.rejected.Some? {
      RetryTracked(cfg, q, Return(Failure(a.rejected.value)), k + 1);
    } else {
      AcceptedTracked(cfg, a, k, q);
    }
  }

  lemma AcceptedTracked(cfg: Config, a: Attempt, k: nat, q: Progress)
    requires cfg.request.data != []
    requires Tracked(cfg, q, k + 1) && q.task.None?
    ensures var q' := q.(task := Some(k)).Log(Accepted);
            && Tracked(cfg, q', k + 1)
            && (cfg.expectResponse ==> Tracked(cfg, Read(cfg, a.events, 0, q').1, k + 1))
            && (!cfg.expectResponse && a.events != [] ==>
                  Tracked(cfg, q'.(clock := q'.clock + a.events[0].wait).Log(Wait(cfg.rxTimeout)), k + 1))
  {
    var q' := q.(task := Some(k)).Log(Accepted);
    Logged(cfg, q, k + 1, Accepted, q', k + 1);
    if cfg.expectResponse {
      ReadTracked(cfg, a.events, 0, q', k + 1);
    } else if a.events != [] {
      var q'' := q'.(clock := q'.clock + a.events[0].wait).Log(Wait(cfg.rxTimeout));
      Logged(cfg, q', k + 1, Wait(cfg.rxTimeout), q'', k + 1);
    }
  }

  lemma EpilogueTracked(cfg: Config, result: Result<ServicePayload, DiagError>, p: Progress, sent: nat)
    requires cfg.request.data != []
    requires Tracked(cfg, p, sent)
    ensures Tracked(cfg, Epilogue(cfg, result, p), sent)
  {
    var r := Epilogue(cfg, result, p);
    if result == Failure(Timeout) && cfg.request.data[0] != TESTER_PRESENT {
      Logged(cfg, p, sent, Disconnect, r, sent);
    } else if result.Success? && IsPositiveFor(result.value.data, cfg.request.data[0]) {
      var q := p;
      if cfg.request.newSession.Some? {
        q := p.Log(Commit(SESSION_CONTROL, cfg.request.newSession.value));
        Logged(cfg, p, sent, Commit(SESSION_CONTROL, cfg.request.newSession.value), q, sent);
      }
      if cfg.request.newSecurity.Some? {
        Logged(cfg, q, sent, Commit(SECURITY_ACCESS, cfg.request.newSecurity.value), r, sent);
      }
    }
  }

  lemma {:induction false} RunTracked(cfg: Config, attempts: seq<Attempt>, k: nat, p: Progress)
    requires cfg.request.data != [] && k <= |attempts|
    requires Tracked(cfg, p, k)
    ensures Scan(cfg, Run(cfg, attempts, k, p).1.trace).Some?
    decreases |attempts| - k
  {
    if k < |attempts| {
      var (signal, q) := Send(cfg, attempts[k], k, p);
      SendTracked(cfg, attempts[k], k, p);
      match signal
      case Again => RunTracked(cfg, attempts, k + 1, q);
      case Break(result) => EpilogueTracked(cfg, result, q, k + 1);
      case _ =>
    }
  }

  lemma {:induction false} ScanPrefix(cfg: Config, t: seq<Action>, n: nat)
    requires Scan(cfg, t).Some? && n <= |t|
    ensures Scan(cfg, t[..n]).Some?
  {
    if n < |t| {
      ScanPrefix(cfg, t[..|t| - 1], n);
      assert t[..|t| - 1][..n] == t[..n];
    } else {
      assert t[..n] == t;
    }
  }

  // ---------------------------------------------------------------- what an accepted trace looks like

  /** A 0x78 was accepted before position n and no application retry since. */
  ghost predicate ProlongedAt(t: seq<Action>, n: nat)
    requires n <= |t|
  {
    exists e :: 0 <= e < n && t[e] == Extend && forall r :: e < r < n ==> t[r] != Retry
  }

  lemma {:induction false} WindowOfPrefix(cfg: Config, t: seq<Action>, n: nat)
    requires Scan(cfg, t).Some? && n <= |t|
    ensures Scan(cfg, t[..n]).Some?
    ensures Scan(cfg, t[..n]).value.window == (if ProlongedAt(t, n) then Some(cfg.window78) else None)
  {
    ScanPrefix(cfg, t, n);
    if n > 0 {
      WindowOfPrefix(cfg, t, n - 1);
      assert t[..n][..n - 1] == t[..n - 1];
      if ProlongedAt(t, n) && t[n - 1] != Extend {
        var e :| 0 <= e < n && t[e] == Extend && forall r :: e < r < n ==> t[r] != Retry;
        assert ProlongedAt(t, n - 1);
      }
      if t[n - 1] != Extend && t[n - 1] != Retry && ProlongedAt(t, n - 1) {
        var e :| 0 <= e < n - 1 && t[e] == Extend && forall r :: e < r < n - 1 ==> t[r] != Retry;
        assert ProlongedAt(t, n);
      }
      if t[n - 1] == Extend {
        assert ProlongedAt(t, n);
      }
    }
  }

  function TransmissionsBefore(t: seq<Action>, n: nat): nat
    requires n <= |t|
  {
    if n == 0 then 0 else TransmissionsBefore(t, n - 1) + (if t[n - 1] == Transmit then 1 else 0)
  }

  lemma {:induction false} SentOfPrefix(cfg: Config, t: seq<Action>, n: nat)
    requires Scan(cfg, t).Some? && n <= |t|
    ensures Scan(cfg, t[..n]).Some? && Scan(cfg, t[..n]).value.sent == TransmissionsBefore(t, n)
  {
    ScanPrefix(cfg, t, n);
    if n > 0 {
      SentOfPrefix(cfg, t, n - 1);
      assert t[..n][..n - 1] == t[..n - 1];
    }
  }

  ghost predicate AwaitedBetween(t: seq<Action>, from: nat, to: nat, task: nat)
    requires to <= |t|
  {
    exists c :: from < c < to && t[c] == AwaitTask(task)
  }

  /** From an acceptance on, the task stays unawaited until its AwaitTask. */
  lemma {:induction false} RunningUntilAwaited(cfg: Config, t: seq<Action>, a: nat, n: nat, task: nat)
    requires Scan(cfg, t).Some? && a < n <= |t|
    requires t[a] == Accepted && task == TransmissionsBefore(t, a) - 1
    requires !AwaitedBetween(t, a, n, task)
    ensures Scan(cfg, t[..n]).Some? && Scan(cfg, t[..n]).value.running == Some(task)
  {
    ScanPrefix(cfg, t, n);
    assert t[..n][..n - 1] == t[..n - 1];
    SentOfPrefix(cfg, t, n - 1);
    if a < n - 1 {
      RunningUntilAwaited(cfg, t, a, n - 1, task);
    }
  }

  lemma AcceptedFollowsTransmission(cfg: Config, t: seq<Action>, a: nat)
    requires Scan(cfg, t).Some? && a < |t| && t[a] == Accepted
    ensures TransmissionsBefore(t, a) > 0
  {
    SentOfPrefix(cfg, t, a);
    ScanPrefix(cfg, t, a + 1);
    assert t[..a + 1][..a] == t[..a];
  }

  lemma NoTransmissionWhileRunning(cfg: Config, t: seq<Action>, b: nat)
    requires Scan(cfg, t).Some? && b < |t| && t[b] == Transmit
    ensures Scan(cfg, t[..b]).Some? && Scan(cfg, t[..b]).value.running.None?
  {
    ScanPrefix(cfg, t, b);
    ScanPrefix(cfg, t, b + 1);
    assert t[..b + 1][..b] == t[..b];
  }

  lemma CallScans(cfg: Config, permit: Option<nat>, attempts: seq<Attempt>)
    ensures Scan(cfg, Call(cfg, permit, attempts).1.trace).Some?
  {
    if cfg.request.data != [] && permit.Some? {
      RunTracked(cfg, attempts, 0, Begin(permit.value));
    }
  }

  lemma WindowRule(cfg: Config, t: seq<Action>, n: nat)
    requires Scan(cfg, t).Some? && n < |t| && t[n].Wait?
    ensures t[n].window == (if ProlongedAt(t, n) then cfg.window78 else cfg.rxTimeout)
  {
    WindowOfPrefix(cfg, t, n);
    ScanPrefix(cfg, t, n + 1);
    assert t[..n + 1][..n] == t[..n];
  }

  lemma TeardownRule(cfg: Config, t: seq<Action>, a: nat, b: nat)
    requires Scan(cfg, t).Some? && a < b < |t| && t[a] == Accepted && t[b] == Transmit
    ensures TransmissionsBefore(t, a) > 0 && AwaitedBetween(t, a, b, TransmissionsBefore(t, a) - 1)
  {
    AcceptedFollowsTransmission(cfg, t, a);
    if !AwaitedBetween(t, a, b, TransmissionsBefore(t, a) - 1) {
      RunningUntilAwaited(cfg, t, a, b, TransmissionsBefore(t, a) - 1);
      NoTransmissionWhileRunning(cfg, t, b);
    }
  }

  /** For every call: each wait uses the prolonged window exactly when a 0x78 was accepted since the
      last application retry (a 0x21 or 0x94 resend does not end it), and between the acceptance of an
      attempt and any later transmission that attempt's gateway task is awaited. */
  lemma WindowsAndTeardown(cfg: Config, permit: Option<nat>, attempts: seq<Attempt>)
    ensures var t := Call(cfg, permit, attempts).1.trace;
            && (forall n :: 0 <= n < |t| && t[n].Wait? ==>
                  t[n].window == (if ProlongedAt(t, n) then cfg.window78 else cfg.rxTimeout))
            && (forall a, b :: 0 <= a < b < |t| && t[a] == Accepted && t[b] == Transmit ==>
                  TransmissionsBefore(t, a) > 0 && AwaitedBetween(t, a, b, TransmissionsBefore(t, a) - 1))
  {
    var t := Call(cfg, permit, attempts).1.trace;
    CallScans(cfg, permit, attempts);
    forall n | 0 <= n < |t| && t[n].Wait?
      ensures t[n].window == (if ProlongedAt(t, n) then cfg.window78 else cfg.rxTimeout)
    {
      WindowRule(cfg, t, n);
    }
    forall a, b | 0 <= a < b < |t| && t[a] == Accepted && t[b] == Transmit
      ensures TransmissionsBefore(t, a) > 0 && AwaitedBetween(t, a, b, TransmissionsBefore(t, a) - 1)
    {
      TeardownRule(cfg, t, a, b);
    }
  }
}
