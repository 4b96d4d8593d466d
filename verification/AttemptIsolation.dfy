/** The engine's attempts against the gateway tasks they spawn, under every schedule. A stale task keeps
    running until it notices its closed channel, and the engine waits for it no longer than the teardown
    grace. `perAttempt` is the engine's channel policy: a new bounded response channel for every attempt, or
    one channel for all of them. */
module AttemptIsolation {
  import opened Bytes
  import Runs

  const RETRY_TEARDOWN_GRACE: nat := 500
  const CHANNEL_CAPACITY: nat := 2

  datatype Phase = Top | Awaiting(task: nat, since: nat) | Ready | Reading

  /** A message as it travels: the task that pushed it and the attempt that read it. */
  datatype Receipt = Receipt(attempt: nat, origin: nat, value: int)

  datatype Launch = Launch(attempt: nat, time: nat, finished: set<nat>)

  /** `pushed` and `read` are the channel's history; pushing to a closed channel fails. */
  datatype Channel = Channel(queue: seq<(nat, int)>, pushed: seq<(nat, int)>, read: seq<(nat, int)>, isOpen: bool)

  /** `senders` maps an accepted task to the channel whose sending half it holds; `since` records when
      the engine began to wait for a task. */
  datatype State = State(
    perAttempt: bool, clock: nat, attempt: nat, phase: Phase, handle: Option<nat>,
    senders: map<nat, nat>, finished: set<nat>, since: map<nat, nat>,
    channels: map<nat, Channel>, receipts: seq<Receipt>, launches: seq<Launch>)

  function Init(perAttempt: bool): State { State(perAttempt, 0, 0, Top, None, map[], {}, map[], map[], [], []) }

  datatype Action =
    | Open                           // top of the send loop: the attempt's channel, then look at the handle
    | Teardown                       // the stale task finished, or the grace elapsed
    | SendOk                         // gateway.send accepted and spawned the per-request task
    | SendError
    | Recv
    | Drop                           // continue 'send, or leave the loop
    | Push(task: nat, value: int)
    | Finish(task: nat)
    | Tick(d: nat)

  /** The channel of the attempt under way. */
  function Current(s: State): nat { if s.perAttempt then s.attempt else 0 }

  predicate Enabled(s: State, a: Action) {
    match a
    case Open => s.phase.Top?
    case Teardown => s.phase.Awaiting? &&
                     (s.phase.task in s.finished || s.clock >= s.phase.since + RETRY_TEARDOWN_GRACE)
    case SendOk => s.phase.Ready?
    case SendError => s.phase.Ready?
    case Recv => s.phase.Reading? && Current(s) in s.channels && s.channels[Current(s)].queue != []
    case Drop => s.phase.Reading?
    case Push(task, _) =>
      && task in s.senders && task !in s.finished && s.senders[task] in s.channels
      && s.channels[s.senders[task]].isOpen && |s.channels[s.senders[task]].queue| < CHANNEL_CAPACITY
    case Finish(task) => task in s.senders
    case Tick(_) => true
  }

  /** Opening keeps a channel that is reused. */
  function WithChannel(s: State): State {
    if Current(s) in s.channels then s
    else s.(channels := s.channels[Current(s) := Channel([], [], [], true)])
  }

  /** Leaving an attempt drops its own channel, not a shared one. */
  function LeaveAttempt(s: State): State {
    if s.perAttempt && Current(s) in s.channels
    then s.(phase := Top, channels := s.channels[Current(s) := s.channels[Current(s)].(isOpen := false)])
    else s.(phase := Top)
  }

  function Step(s: State, a: Action): (t: State) {
    if !Enabled(s, a) then s
    else match a
    case Open =>
      var t := WithChannel(s.(attempt := s.attempt + 1));
      if s.handle.None? then t.(phase := Ready)
      else t.(handle := None, phase := Awaiting(s.handle.value, s.clock),
              since := s.since[s.handle.value := s.clock])
    case Teardown => s.(phase := Ready)
    case SendOk => s.(phase := Reading, handle := Some(s.attempt),
                      senders := s.senders[s.attempt := Current(s)],
                      launches := s.launches + [Launch(s.attempt, s.clock, s.finished)])
    case SendError => LeaveAttempt(s)
    case Recv =>
      var c := s.channels[Current(s)];
      s.(channels := s.channels[Current(s) := c.(queue := c.queue[1..], read := c.read + [c.queue[0]])],
         receipts := s.receipts + [Receipt(s.attempt, c.queue[0].0, c.queue[0].1)])
    case Drop => LeaveAttempt(s)
    case Push(task, value) =>
      var k := s.senders[task];
      var c := s.channels[k];
      s.(channels := s.channels[k := c.(queue := c.queue + [(task, value)], pushed := c.pushed + [(task, value)])])
    case Finish(task) => s.(finished := s.finished + {task})
    case Tick(d) => s.(clock := s.clock + d)
  }

  function Exec(perAttempt: bool, schedule: seq<Action>): (s: State) { Runs.Exec(Step, Init(perAttempt), schedule) }

  /** The engine gave this task its chance: it has finished, or the full grace has elapsed. */
  predicate Settled(task: nat, finished: set<nat>, since: map<nat, nat>, now: nat) {
    task in finished || (task in since && now >= since[task] + RETRY_TEARDOWN_GRACE)
  }

  /** Handles, senders and the waits for stale tasks. */
  ghost predicate TaskInv(s: State) {
    && (forall j :: j in s.senders ==> j <= s.attempt)
    && (s.phase.Awaiting? || s.phase.Ready? ==> s.attempt !in s.senders && s.handle.None?)
    && (s.phase.Reading? ==> s.handle == Some(s.attempt))
    && (s.phase.Awaiting? ==> s.phase.task in s.since && s.since[s.phase.task] == s.phase.since)
    && (s.handle.Some? ==> s.handle.value in s.senders && s.handle.value !in s.since)
    && (forall j :: j in s.since ==> j in s.senders)
    && (forall j :: j in s.senders && s.handle != Some(j) && !(s.phase.Awaiting? && s.phase.task == j) ==>
          Settled(j, s.finished, s.since, s.clock))
  }

  /** A channel's history, and whose messages it carries. */
  ghost predicate Carries(c: Channel, task: nat) {
    c.read + c.queue == c.pushed && forall m :: m in c.pushed ==> m.0 == task
  }

  /** With fresh channels, task and channel bear the number of their attempt. */
  ghost predicate ChannelInv(s: State) {
    && (forall j :: j in s.senders ==> s.senders[j] == j)
    && (forall k :: k in s.channels ==> Carries(s.channels[k], k))
    && (forall r :: r in s.receipts ==> r.attempt == r.origin)
  }

  ghost predicate LaunchInv(s: State) {
    && (forall l :: l in s.launches ==> l.attempt in s.senders)
    && (forall l, j :: l in s.launches && j in s.senders && j < l.attempt ==>
          Settled(j, l.finished, s.since, l.time))
  }

  lemma StepKeepsTaskInv(s: State, a: Action)
    requires TaskInv(s)
    ensures TaskInv(Step(s, a))
  {
    if a.Open? { OpenKeepsTaskInv(s); }
    if a.SendOk? { SendKeepsTaskInv(s); }
  }

  lemma OpenKeepsTaskInv(s: State)
    requires TaskInv(s)
    ensures TaskInv(Step(s, Open))
  {
  }

  lemma SendKeepsTaskInv(s: State)
    requires TaskInv(s)
    ensures TaskInv(Step(s, SendOk))
  {
  }

  lemma ReadKeepsCarrying(c: Channel, task: nat)
    requires Carries(c, task) && c.queue != []
    ensures c.queue[0].0 == task
    ensures Carries(c.(queue := c.queue[1..], read := c.read + [c.queue[0]]), task)
  {
    assert c.read + c.queue == (c.read + [c.queue[0]]) + c.queue[1..];
    assert c.queue[0] in c.pushed;
  }

  lemma PushKeepsCarrying(c: Channel, task: nat, value: int)
    requires Carries(c, task)
    ensures Carries(c.(queue := c.queue + [(task, value)], pushed := c.pushed + [(task, value)]), task)
  {
    assert c.read + (c.queue + [(task, value)]) == (c.read + c.queue) + [(task, value)];
  }

  lemma StepKeepsChannelInv(s: State, a: Action)
    requires s.perAttempt && ChannelInv(s)
    ensures ChannelInv(Step(s, a)) && Step(s, a).perAttempt
  {
    if Enabled(s, a) {
      match a
      case Recv => ReadKeepsCarrying(s.channels[Current(s)], Current(s));
      case Push(task, value) => PushKeepsCarrying(s.channels[s.senders[task]], task, value);
      case _ =>
    }
  }

  lemma StepKeepsLaunchInv(s: State, a: Action)
    requires TaskInv(s) && LaunchInv(s)
    ensures LaunchInv(Step(s, a))
  {
    if a.SendOk? {
      LaunchKeepsLaunchInv(s);
    } else {
      OtherKeepsLaunches(s, a);
    }
  }

  lemma LaunchKeepsLaunchInv(s: State)
    requires TaskInv(s) && LaunchInv(s)
    ensures LaunchInv(Step(s, SendOk))
  {
    var t := Step(s, SendOk);
    forall l, j | l in t.launches && j in t.senders && j < l.attempt
      ensures Settled(j, l.finished, t.since, l.time)
    {
      if l in s.launches { assert j in s.senders; }
    }
  }

  /** Only the wait for the handle's task is added, and no launch relied on that one. */
  lemma OtherKeepsLaunches(s: State, a: Action)
    requires TaskInv(s) && LaunchInv(s) && !a.SendOk?
    ensures LaunchInv(Step(s, a))
  {
    OtherKeepsWaits(s, a);
    var t := Step(s, a);
    forall l, j | l in t.launches && j in t.senders && j < l.attempt
      ensures Settled(j, l.finished, t.since, l.time)
    {
      assert Settled(j, l.finished, s.since, l.time);
    }
  }

  lemma OtherKeepsWaits(s: State, a: Action)
    requires s.handle.Some? ==> s.handle.value !in s.since
    requires !a.SendOk?
    ensures var t := Step(s, a);
            && t.launches == s.launches && t.senders == s.senders
            && forall j :: j in s.since ==> j in t.since && t.since[j] == s.since[j]
  {
  }

  lemma {:induction false} InvAlways(perAttempt: bool, schedule: seq<Action>)
    ensures var s := Exec(perAttempt, schedule);
            s.perAttempt == perAttempt && TaskInv(s) && LaunchInv(s) && (perAttempt ==> ChannelInv(s))
  {
    if schedule != [] {
      var before, a := Exec(perAttempt, schedule[..|schedule| - 1]), schedule[|schedule| - 1];
      InvAlways(perAttempt, schedule[..|schedule| - 1]);
      StepKeepsTaskInv(before, a);
      StepKeepsLaunchInv(before, a);
      if perAttempt { StepKeepsChannelInv(before, a); }
    }
  }

  /** With a fresh channel per attempt, whatever an attempt reads was pushed by that attempt's own task,
      in push order, although stale tasks go on pushing to theirs. */
  lemma ReadsOwnTask(schedule: seq<Action>)
    ensures var s := Exec(true, schedule);
            && (forall r :: r in s.receipts ==> r.origin == r.attempt)
            && (forall k :: k in s.channels ==>
                  s.channels[k].read <= s.channels[k].pushed && forall m :: m in s.channels[k].pushed ==> m.0 == k)
  {
    InvAlways(true, schedule);
  }

  /** With one channel for all attempts this fails: an attempt reads what a stale task pushed late. */
  lemma SharedChannelLeaks()
    ensures exists schedule :: exists r :: r in Exec(false, schedule).receipts && r.origin < r.attempt
  {
    var s := FirstLeft();
    s := SecondReady(s);
    s := StaleRead(s);
    var schedule :| Runs.Exec(Step, Init(false), schedule) == s;
    assert Receipt(2, 1, 7) in Exec(false, schedule).receipts;
  }

  lemma StaleRead(m: State) returns (t: State)
    requires Runs.Reaches(Step, Init(false), m) && m.phase.Ready? && !m.perAttempt && m.attempt == 2 && m.receipts == []
    requires m.channels == map[0 := Channel([], [], [], true)] && m.senders == map[1 := 0] && m.finished == {}
    ensures Runs.Reaches(Step, Init(false), t) && t.receipts == [Receipt(2, 1, 7)]
  {
    Runs.ReachesStep(Step, Init(false), m, SendOk);
    t := Step(m, SendOk);
    Runs.ReachesStep(Step, Init(false), t, Push(1, 7));
    t := Step(t, Push(1, 7));
    Runs.ReachesStep(Step, Init(false), t, Recv);
    t := Step(t, Recv);
  }

  const FIRST_LEFT :=
    State(false, 0, 1, Top, Some(1), map[1 := 0], {}, map[], map[0 := Channel([], [], [], true)], [],
          [Launch(1, 0, {})])

  lemma FirstLeft() returns (s: State)
    ensures Runs.Reaches(Step, Init(false), s)
    ensures s == FIRST_LEFT
  {
    s := Init(false);
    Runs.ReachesItself<State, Action>(Step, s);
    Runs.ReachesStep(Step, Init(false), s, Open);
    s := Step(s, Open);
    Runs.ReachesStep(Step, Init(false), s, SendOk);
    s := Step(s, SendOk);
    Runs.ReachesStep(Step, Init(false), s, Drop);
    s := Step(s, Drop);
  }

  lemma SecondReady(first: State) returns (s: State)
    requires Runs.Reaches(Step, Init(false), first)
    requires first == FIRST_LEFT
    ensures Runs.Reaches(Step, Init(false), s)
    ensures s == first.(clock := RETRY_TEARDOWN_GRACE, attempt := 2, phase := Ready, handle := None,
                        since := map[1 := 0])
  {
    s := first;
    Runs.ReachesStep(Step, Init(false), s, Open);
    s := Step(s, Open);
    Runs.ReachesStep(Step, Init(false), s, Tick(RETRY_TEARDOWN_GRACE));
    s := Step(s, Tick(RETRY_TEARDOWN_GRACE));
    Runs.ReachesStep(Step, Init(false), s, Teardown);
    s := Step(s, Teardown);
  }

  /** At every accepted transmission each earlier accepted task had finished, or had been waited for
      throughout the teardown grace. */
  lemma EarlierTasksSettled(perAttempt: bool, schedule: seq<Action>)
    ensures var s := Exec(perAttempt, schedule);
            forall l, j :: l in s.launches && j in s.senders && j < l.attempt ==>
              || j in l.finished
              || (j in s.since && l.time >= s.since[j] + 500)
  {
    InvAlways(perAttempt, schedule);
  }
}
