/** Disconnect suppression around a detection's own requests, through the coordinator's FIFO mailbox and
    under every schedule. Any number of detections of the ECU go through the detection slot; each that
    runs posts its own suppress, the disconnects of its timed-out requests and its restore. */
module DisconnectSuppression {
  import opened Bytes
  import opened EcuStates
  import DetectionSlot
  import Runs

  /** A running detection's requests. `ask` returns only after its message at mailbox position `at` has
      been handled. */
  datatype Gather =
    | AskingSuppress(at: nat)
    | Gathering
    | AskingRestore(at: nat)
    | Done

  /** The mailbox of one ECU and the slot of its duplicate group. `sent` is everything ever put in the
      mailbox, in order; the first `handled` are done. */
  datatype State = State(
    ecu: Name, slot: DetectionSlot.Slot, gathers: map<nat, Gather>,
    sent: seq<Message>, handled: nat, actor: View)

  datatype Action =
    | Slot(action: DetectionSlot.Action)  // triggers of the group; a run ends only with its requests done
    | Begin(n: nat)                       // a running detection of this ECU asks the actor to suppress
    | OwnTimeout(n: nat)                  // one of its requests timed out
    | End(n: nat)                         // requests done: ask the actor to restore
    | Foreign(message: Message)           // other requests, gateways, verdicts
    | Process                             // the actor handles the next message
    | Write(state: EcuState)              // detect_variant writes the state directly

  function Init(ecu: Name): State {
    State(ecu, DetectionSlot.IDLE, map[], [], 0, View(EcuState(Offline, NotTested, None), false, map[]))
  }

  predicate IsForeign(m: Message) { !Control(m) && !(m.Disconnected? && m.origin.Some?) }

  predicate Active(s: State, n: nat) { n in s.gathers && !s.gathers[n].Done? }

  function Post(s: State, m: Message): State { s.(sent := s.sent + [m]) }

  function SetGather(s: State, n: nat, g: Gather): State { s.(gathers := s.gathers[n := g]) }

  /** The ask answered by handling message m at this position. */
  function Answered(s: State, m: Message): State {
    match m
    case Suppress(n) =>
      if n in s.gathers && s.gathers[n] == AskingSuppress(s.handled) then SetGather(s, n, Gathering) else s
    case Restore(n) =>
      if n in s.gathers && s.gathers[n] == AskingRestore(s.handled) then SetGather(s, n, Done) else s
    case _ => s
  }

  function Step(s: State, a: Action): (t: State) {
    match a
    case Slot(action) =>
      if action.Finish? && Active(s, action.n) then s else s.(slot := DetectionSlot.Step(s.slot, action))
    case Begin(n) =>
      if DetectionSlot.InPhase(s.slot, n, DetectionSlot.Running) && s.slot.tasks[n].ecu == s.ecu && n !in s.gathers
      then SetGather(Post(s, Suppress(n)), n, AskingSuppress(|s.sent|)) else s
    case OwnTimeout(n) =>
      if n in s.gathers && s.gathers[n].Gathering? then Post(s, Disconnected(Some(n))) else s
    case End(n) =>
      if n in s.gathers && s.gathers[n].Gathering?
      then SetGather(Post(s, Restore(n)), n, AskingRestore(|s.sent|)) else s
    case Foreign(m) => if IsForeign(m) then Post(s, m) else s
    case Process =>
      if s.handled >= |s.sent| then s
      else
        var m := s.sent[s.handled];
        Answered(s, m).(handled := s.handled + 1, actor := Handle(s.actor, m))
    case Write(state) => s.(actor := s.actor.(state := state))
  }

  function Exec(ecu: Name, schedule: seq<Action>): (s: State) { Runs.Exec(Step, Init(ecu), schedule) }

  /** Suppress n, own disconnects of n, restore n, and only then the next suppress. */
  predicate InBracket(h: seq<Message>, i: nat)
    requires i < |h|
  {
    match h[i]
    case Disconnected(Some(n)) => LastControl(h, i) == Some(Suppress(n))
    case Restore(n) => LastControl(h, i) == Some(Suppress(n))
    case Suppress(_) => LastControl(h, i).None? || LastControl(h, i).value.Restore?
    case _ => true
  }

  ghost predicate Bracketed(h: seq<Message>) {
    forall i :: 0 <= i < |h| ==> InBracket(h, i)
  }

  lemma LastControlStable(h: seq<Message>, m: Message, n: nat)
    requires n <= |h|
    ensures LastControl(h + [m], n) == LastControl(h, n)
  {
    assert (h + [m])[..|h|] == h;
    LastControlOfPrefix(h + [m], |h|, n);
  }

  lemma {:induction false} NoControlBetween(h: seq<Message>, from: nat, to: nat)
    requires from <= to <= |h|
    requires forall i :: from <= i < to ==> !Control(h[i])
    ensures LastControl(h, to) == LastControl(h, from)
  {
    if from < to {
      NoControlBetween(h, from, to - 1);
    }
  }

  lemma PostBracketed(h: seq<Message>, m: Message)
    requires Bracketed(h)
    requires InBracket(h + [m], |h|)
    ensures Bracketed(h + [m])
  {
    forall i | 0 <= i < |h| ensures InBracket(h + [m], i) {
      LastControlStable(h, m, i);
      assert InBracket(h, i);
    }
  }

  predicate Suppressing(c: Option<Message>) { c.Some? && c.value.Suppress? }

  /** No unhandled suppress or restore, except possibly the one at `at`. */
  ghost predicate Outstanding(s: State, at: Option<nat>) {
    forall i :: s.handled <= i < |s.sent| && at != Some(i) ==> !Control(s.sent[i])
  }

  // ---------------------------------------------------------------- the slot serialises the detections

  /** A detection with requests under way runs, so it has the slot. */
  ghost predicate SlotInv(s: State) {
    && DetectionSlot.Inv(s.slot)
    && (forall n :: Active(s, n) ==> DetectionSlot.InPhase(s.slot, n, DetectionSlot.Running))
  }

  /** Hence no two have requests under way, and none while another trigger is about to begin. */
  lemma OneActive(s: State, m: nat, n: nat)
    requires SlotInv(s) && Active(s, m)
    requires Active(s, n) || DetectionSlot.InPhase(s.slot, n, DetectionSlot.Running)
    ensures m == n
  {
    assert s.slot.lock == Some(m) && s.slot.lock == Some(n);
  }

  lemma StepKeepsSlot(s: State, a: Action)
    requires SlotInv(s)
    ensures SlotInv(Step(s, a))
  {
    var t := Step(s, a);
    if a.Slot? {
      DetectionSlot.StepKeepsInv(s.slot, a.action);
      forall n | Active(t, n) ensures DetectionSlot.InPhase(t.slot, n, DetectionSlot.Running) {
        assert Active(s, n);
      }
    } else {
      forall n | Active(t, n) ensures DetectionSlot.InPhase(t.slot, n, DetectionSlot.Running) {
        assert Active(s, n) || a == Begin(n);
      }
    }
  }

  // ---------------------------------------------------------------- the mailbox

  ghost predicate GatherInv(s: State, n: nat)
    requires n in s.gathers
  {
    match s.gathers[n]
    case Gathering => Outstanding(s, None) && LastControl(s.sent, |s.sent|) == Some(Suppress(n))
    case AskingSuppress(at) => s.handled <= at < |s.sent| && s.sent[at] == Suppress(n) && Outstanding(s, Some(at))
    case AskingRestore(at) => s.handled <= at < |s.sent| && s.sent[at] == Restore(n) && Outstanding(s, Some(at))
    case Done => true
  }

  ghost predicate Calm(s: State) { Outstanding(s, None) && !Suppressing(LastControl(s.sent, |s.sent|)) }

  ghost predicate MailInv(s: State) {
    && s.handled <= |s.sent|
    && Bracketed(s.sent)
    && s.actor.suppress == Suppressing(LastControl(s.sent, s.handled))
    && (forall n :: n in s.gathers ==> GatherInv(s, n))
    && ((forall n :: !Active(s, n)) ==> Calm(s))
  }

  ghost predicate Inv(s: State) { SlotInv(s) && MailInv(s) }

  lemma BeginKeepsMail(s: State, n: nat)
    requires Inv(s) && Step(s, Begin(n)) != s
    ensures MailInv(Step(s, Begin(n)))
  {
    var t := Step(s, Begin(n));
    forall m ensures !Active(s, m) {
      if Active(s, m) { OneActive(s, m, n); }
    }
    LastControlStable(s.sent, Suppress(n), |s.sent|);
    LastControlStable(s.sent, Suppress(n), s.handled);
    PostBracketed(s.sent, Suppress(n));
    assert Active(t, n);
    forall m | m in t.gathers ensures GatherInv(t, m) {
      if m != n { assert !Active(s, m); }
    }
  }

  lemma EndKeepsMail(s: State, n: nat)
    requires Inv(s) && n in s.gathers && s.gathers[n].Gathering?
    ensures MailInv(Step(s, End(n)))
  {
    var t := Step(s, End(n));
    assert GatherInv(s, n) && Active(s, n);
    LastControlStable(s.sent, Restore(n), |s.sent|);
    LastControlStable(s.sent, Restore(n), s.handled);
    PostBracketed(s.sent, Restore(n));
    assert Active(t, n);
    forall m | m in t.gathers ensures GatherInv(t, m) {
      if m != n && Active(s, m) { OneActive(s, m, n); }
    }
  }

  /** A message that is neither suppress nor restore. */
  lemma PostKeepsMail(s: State, m: Message)
    requires MailInv(s) && !Control(m) && InBracket(s.sent + [m], |s.sent|)
    ensures MailInv(Post(s, m))
  {
    var t := Post(s, m);
    LastControlStable(s.sent, m, |s.sent|);
    LastControlStable(s.sent, m, s.handled);
    PostBracketed(s.sent, m);
    forall n | n in t.gathers ensures GatherInv(t, n) {
      assert GatherInv(s, n);
    }
    assert forall n :: Active(t, n) == Active(s, n);
  }

  lemma ProcessKeepsMail(s: State)
    requires Inv(s) && s.handled < |s.sent|
    ensures MailInv(Step(s, Process))
  {
    var t := Step(s, Process);
    if Control(s.sent[s.handled]) {
      ControlKeepsMail(s);
    } else {
      assert t.gathers == s.gathers;
      assert forall n :: Active(t, n) == Active(s, n);
      forall n | n in t.gathers ensures GatherInv(t, n) {
        assert GatherInv(s, n);
      }
    }
  }

  /** Handling a suppress or restore answers the ask of the one active detection. */
  lemma ControlKeepsMail(s: State)
    requires Inv(s) && s.handled < |s.sent| && Control(s.sent[s.handled])
    ensures MailInv(Step(s, Process))
  {
    var t := Step(s, Process);
    var n := Asker(s);
    assert GatherInv(s, n);
    NoControlBetween(s.sent, s.handled + 1, |s.sent|);
    forall k | k in t.gathers ensures GatherInv(t, k) {
      if k != n && Active(s, k) { OneActive(s, k, n); }
    }
    assert Active(t, n) <==> s.sent[s.handled].Suppress?;
  }

  /** The next message, if suppress or restore, is the one the active detection is asking for. */
  lemma Asker(s: State) returns (n: nat)
    requires MailInv(s) && s.handled < |s.sent| && Control(s.sent[s.handled])
    ensures Active(s, n)
    ensures s.gathers[n] == if s.sent[s.handled].Suppress? then AskingSuppress(s.handled) else AskingRestore(s.handled)
    ensures s.sent[s.handled] == Suppress(n) || s.sent[s.handled] == Restore(n)
  {
    assert !Outstanding(s, None);
    n :| Active(s, n);
    assert GatherInv(s, n);
  }

  lemma StepKeepsMail(s: State, a: Action)
    requires Inv(s)
    ensures MailInv(Step(s, a))
  {
    match a
    case Slot(action) => SameMail(s, Step(s, a));
    case Write(_) => SameMail(s, Step(s, a));
    case Begin(n) => if Step(s, a) != s { BeginKeepsMail(s, n); }
    case End(n) => if n in s.gathers && s.gathers[n].Gathering? { EndKeepsMail(s, n); }
    case OwnTimeout(n) =>
      if n in s.gathers && s.gathers[n].Gathering? {
        assert GatherInv(s, n);
        LastControlStable(s.sent, Disconnected(Some(n)), |s.sent|);
        PostKeepsMail(s, Disconnected(Some(n)));
      }
    case Foreign(m) => if IsForeign(m) { PostKeepsMail(s, m); }
    case Process => if s.handled < |s.sent| { ProcessKeepsMail(s); }
  }

  lemma SameMail(s: State, t: State)
    requires MailInv(s) && t.sent == s.sent && t.handled == s.handled && t.gathers == s.gathers
    requires t.actor.suppress == s.actor.suppress
    ensures MailInv(t)
  {
    assert forall n :: Active(t, n) == Active(s, n);
    forall n | n in t.gathers ensures GatherInv(t, n) {
      assert GatherInv(s, n);
    }
  }

  lemma {:induction false} Always(ecu: Name, schedule: seq<Action>)
    ensures Inv(Exec(ecu, schedule))
  {
    if schedule != [] {
      var s, a := Exec(ecu, schedule[..|schedule| - 1]), schedule[|schedule| - 1];
      Always(ecu, schedule[..|schedule| - 1]);
      StepKeepsSlot(s, a);
      StepKeepsMail(s, a);
    }
  }

  /** In the mailbox every disconnect caused by a detection's own request follows that detection's
      suppress with no suppress or restore of any detection between, every restore closes its own
      suppress, and the next suppress comes after it. */
  lemma MailboxIsBracketed(ecu: Name, schedule: seq<Action>)
    ensures Bracketed(Exec(ecu, schedule).sent)
  {
    Always(ecu, schedule);
  }

  /** A detection's own timeouts never take its ECU Offline: handling such a message changes nothing. */
  lemma OwnTimeoutsAreHarmless(ecu: Name, schedule: seq<Action>)
    ensures var s := Exec(ecu, schedule);
            s.handled < |s.sent| && s.sent[s.handled].Disconnected? && s.sent[s.handled].origin.Some? ==>
              s.actor.suppress && Step(s, Process).actor == s.actor
  {
    Always(ecu, schedule);
    var s := Exec(ecu, schedule);
    if s.handled < |s.sent| {
      assert InBracket(s.sent, s.handled);
    }
  }

  /** The flag is clear whenever no detection has requests under way, and set while one gathers. */
  lemma FlagFollowsDetection(ecu: Name, schedule: seq<Action>)
    ensures var s := Exec(ecu, schedule);
            && ((forall n :: !Active(s, n)) ==> !s.actor.suppress)
            && ((exists n :: n in s.gathers && s.gathers[n].Gathering?) ==> s.actor.suppress)
  {
    Always(ecu, schedule);
    var s := Exec(ecu, schedule);
    if forall n :: !Active(s, n) {
      NoControlBetween(s.sent, s.handled, |s.sent|);
    } else if n :| n in s.gathers && s.gathers[n].Gathering? {
      assert GatherInv(s, n);
      NoControlBetween(s.sent, s.handled, |s.sent|);
    }
  }

  /** The slot is what makes this true: from a state in which two detections of the ECU ran at once, the
      restore of one exposes the ECU to a timeout of the other. */
  lemma ExposedWithoutSlot(s: State)
    requires s.gathers == map[] && s.sent == [] && s.handled == 0 && s.actor.state.connectivity.Online?
    requires forall n :: 1 <= n <= 2 ==>
               DetectionSlot.InPhase(s.slot, n, DetectionSlot.Running) && s.slot.tasks[n].ecu == s.ecu
    ensures exists t :: Runs.Reaches(Step, s, t) && t.actor.state.connectivity.Offline? && OnlyOwn(t.sent)
  {
    Runs.ReachesItself<State, Action>(Step, s);
    var t := s;
    Runs.ReachesStep(Step, s, t, Begin(1));
    t := Step(t, Begin(1));
    Runs.ReachesStep(Step, s, t, Process);
    t := Step(t, Process);
    Runs.ReachesStep(Step, s, t, Begin(2));
    t := Step(t, Begin(2));
    Runs.ReachesStep(Step, s, t, Process);
    t := Step(t, Process);
    assert t.gathers == map[1 := Gathering, 2 := Gathering] && t.sent == [Suppress(1), Suppress(2)];
    t := ExposedByRestore(s, t);
  }

  predicate OnlyOwn(h: seq<Message>) { forall m :: m in h && m.Disconnected? ==> m.origin.Some? }

  lemma ExposedByRestore(s: State, m: State) returns (t: State)
    requires Runs.Reaches(Step, s, m) && m.actor.state.connectivity.Online?
    requires m.gathers == map[1 := Gathering, 2 := Gathering] && m.sent == [Suppress(1), Suppress(2)] && m.handled == 2
    ensures Runs.Reaches(Step, s, t) && t.actor.state.connectivity.Offline? && OnlyOwn(t.sent)
  {
    Runs.ReachesStep(Step, s, m, End(1));
    Runs.ReachesStep(Step, s, Step(m, End(1)), Process);
    RestoredEarly(m);
    t := Step(Step(m, End(1)), Process);
    Runs.ReachesStep(Step, s, t, OwnTimeout(2));
    t := Step(t, OwnTimeout(2));
    Runs.ReachesStep(Step, s, t, Process);
    t := Step(t, Process);
    assert t.sent == [Suppress(1), Suppress(2), Restore(1), Disconnected(Some(2))];
  }

  lemma RestoredEarly(m: State)
    requires m.gathers == map[1 := Gathering, 2 := Gathering] && m.sent == [Suppress(1), Suppress(2)] && m.handled == 2
    ensures var t := Step(Step(m, End(1)), Process);
            && t.sent == [Suppress(1), Suppress(2), Restore(1)] && t.handled == 3 && !t.actor.suppress
            && t.actor.state == m.actor.state && 2 in t.gathers && t.gathers[2] == Gathering
  {
  }
}
