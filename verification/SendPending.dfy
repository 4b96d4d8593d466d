/** The send-pending handshake between the DoIP sender and receiver tasks over a watch channel, with
    the connection-reset task replacing the two locked socket halves, under every schedule. */
module SendPending {
  import opened Bytes
  import Runs

  /** Announced: published true. Writing: holds the tx lock. Written: lock released, false still owed. */
  datatype Sender = Idle | Announced | Writing | Written | SenderGone

  /** Reading: in the select, with the rx lock. Notified: `changed` returned, value not yet read. Parked:
      waiting for the next change inside `handle_send_pending`. */
  datatype Receiver = Selecting | Reading | Notified | Parked | ReceiverGone

  /** HoldsRx, HoldsBoth: with the connection locked. HalfDone: between the two assignments of
      `reconnect`, with the connection of this call. */
  datatype Reset = Resting | HoldsRx | HoldsBoth | HalfDone(call: nat)

  datatype Party = BySender | ByReceiver | ByReset

  /** The latest value and version of the watch channel and the version the receiver has seen. */
  datatype Watch = Watch(value: bool, version: nat, seen: nat)

  /** Each half, named by the establish call it came from, behind its own lock. */
  datatype Halves = Halves(rx: Option<nat>, tx: Option<nat>, rxLock: Option<Party>, txLock: Option<Party>, calls: nat)

  datatype State = State(watch: Watch, halves: Halves, sender: Sender, receiver: Receiver, reset: Reset)

  /** `connection_handler` creates the channel with false and the target from an established connection. */
  const INIT := State(Watch(false, 0, 0), Halves(Some(0), Some(0), None, None, 1), Idle, Selecting, Resting)

  datatype Action =
    | Announce      // sender: publish true before using the connection
    | LockTx        // sender: lock_send
    | LockFailed    // sender: the tx half is missing, `continue` without publishing
    | Write         // sender: the frame is out, failed or timed out; unlock
    | Conclude      // sender: publish false
    | SenderExit    // sender: inbox or reset channel closed
    | StartRead     // receiver: lock_read
    | FinishRead
    | Changed       // receiver: the select sees a new version and drops the read
    | Look          // receiver: `borrow`, then park or resume
    | Wake          // receiver: the parked `changed` returns
    | ReceiverExit  // receiver: no subscriber left
    | ResetLockRx
    | ResetLockTx
    | EstablishFails
    | Establish     // reset: new connection, first assignment of `reconnect`
    | Reconnect     // reset: second assignment
    | ResetUnlock

  predicate Unseen(s: State) { s.watch.version != s.watch.seen || s.sender.SenderGone? }

  predicate Enabled(s: State, a: Action) {
    match a
    case Announce => s.sender.Idle?
    case LockTx => s.sender.Announced? && s.halves.txLock.None? && s.halves.tx.Some?
    case LockFailed => s.sender.Announced? && s.halves.txLock.None? && s.halves.tx.None?
    case Write => s.sender.Writing?
    case Conclude => s.sender.Written?
    case SenderExit => s.sender.Idle? || s.sender.Announced? || s.sender.Written?
    case StartRead => s.receiver.Selecting? && s.halves.rxLock.None? && s.halves.rx.Some?
    case FinishRead => s.receiver.Reading?
    case Changed => (s.receiver.Selecting? || s.receiver.Reading?) && Unseen(s)
    case Look => s.receiver.Notified?
    case Wake => s.receiver.Parked? && Unseen(s)
    case ReceiverExit => s.receiver.Selecting?
    case ResetLockRx => s.reset.Resting? && s.halves.rxLock.None?
    case ResetLockTx => s.reset.HoldsRx? && s.halves.txLock.None?
    case EstablishFails => s.reset.HoldsBoth?
    case Establish => s.reset.HoldsBoth?
    case Reconnect => s.reset.HalfDone?
    case ResetUnlock => s.reset.HoldsBoth?
  }

  /** Publishing fails, and ends the sender, once the receiver is gone. */
  function Publish(s: State, v: bool, next: Sender): State {
    if s.receiver.ReceiverGone? then s.(sender := SenderGone)
    else s.(watch := s.watch.(value := v, version := s.watch.version + 1), sender := next)
  }

  /** `changed` on a closed channel without an unseen version is an error and ends the task. */
  function See(s: State, next: Receiver): State {
    if s.watch.version == s.watch.seen then s.(receiver := ReceiverGone)
    else s.(receiver := next, watch := s.watch.(seen := s.watch.version))
  }

  function Unread(s: State): State {
    if s.receiver.Reading? then s.(halves := s.halves.(rxLock := None)) else s
  }

  function Step(s: State, a: Action): State {
    if !Enabled(s, a) then s
    else match a
    case Announce => Publish(s, true, Announced)
    case LockTx => s.(sender := Writing, halves := s.halves.(txLock := Some(BySender)))
    case LockFailed => s.(sender := Idle)
    case Write => s.(sender := Written, halves := s.halves.(txLock := None))
    case Conclude => Publish(s, false, Idle)
    case SenderExit => s.(sender := SenderGone)
    case StartRead => s.(receiver := Reading, halves := s.halves.(rxLock := Some(ByReceiver)))
    case FinishRead => Unread(s).(receiver := Selecting)
    case Changed => See(Unread(s), Notified)
    case Look => s.(receiver := if s.watch.value then Parked else Selecting)
    case Wake => See(s, Selecting)
    case ReceiverExit => s.(receiver := ReceiverGone)
    case ResetLockRx => s.(reset := HoldsRx, halves := s.halves.(rxLock := Some(ByReset)))
    case ResetLockTx => s.(reset := HoldsBoth, halves := s.halves.(txLock := Some(ByReset)))
    case EstablishFails => s.(halves := s.halves.(calls := s.halves.calls + 1))
    case Establish =>
      var call := s.halves.calls;
      s.(reset := HalfDone(call), halves := s.halves.(rx := Some(call), calls := call + 1))
    case Reconnect => s.(reset := HoldsBoth, halves := s.halves.(tx := Some(s.reset.call)))
    case ResetUnlock => s.(reset := Resting, halves := s.halves.(rxLock := None, txLock := None))
  }

  function Exec(s: State, schedule: seq<Action>): (t: State) { Runs.Exec(Step, s, schedule) }

  ghost predicate Reaches(s: State, t: State) { Runs.Reaches(Step, s, t) }

  /** The sender is between its true and its false. */
  predicate Sending(s: State) { s.sender.Announced? || s.sender.Writing? || s.sender.Written? }

  ghost predicate WatchInv(s: State) {
    && s.watch.seen <= s.watch.version
    && (s.watch.value <==> s.watch.version % 2 == 1)
    && (Sending(s) ==> s.watch.value || s.receiver.ReceiverGone?)
    && (s.sender.Idle? ==> !s.watch.value || s.receiver.ReceiverGone?)
    && (s.receiver.Parked? && s.watch.version == s.watch.seen ==> s.watch.value)
  }

  /** Locks belong to who is using the connection, and only a half-done reconnect mixes connections. */
  ghost predicate HalvesInv(s: State) {
    && (s.halves.txLock == Some(BySender) <==> s.sender.Writing?)
    && (s.halves.rxLock == Some(ByReceiver) <==> s.receiver.Reading?)
    && (s.halves.rxLock == Some(ByReset) <==> !s.reset.Resting?)
    && (s.halves.txLock == Some(ByReset) <==> s.reset.HoldsBoth? || s.reset.HalfDone?)
    && s.halves.txLock != Some(ByReceiver) && s.halves.rxLock != Some(BySender)
    && s.halves.rx.Some? && s.halves.tx.Some?
    && (if s.reset.HalfDone? then s.halves.rx == Some(s.reset.call) else s.halves.rx == s.halves.tx)
  }

  ghost predicate Inv(s: State) { WatchInv(s) && HalvesInv(s) }

  lemma StepKeepsWatch(s: State, a: Action)
    requires Inv(s)
    ensures WatchInv(Step(s, a))
  {
  }

  lemma StepKeepsHalves(s: State, a: Action)
    requires Inv(s)
    ensures HalvesInv(Step(s, a))
  {
  }

  lemma {:induction false} Always(schedule: seq<Action>)
    ensures Inv(Exec(INIT, schedule))
  {
    if schedule != [] {
      var s, a := Exec(INIT, schedule[..|schedule| - 1]), schedule[|schedule| - 1];
      Always(schedule[..|schedule| - 1]);
      StepKeepsWatch(s, a);
      StepKeepsHalves(s, a);
    }
  }

  /** The early `continue` that would leave `true` published is unreachable. */
  lemma LockNeverFails(schedule: seq<Action>)
    ensures !Enabled(Exec(INIT, schedule), LockFailed)
  {
    Always(schedule);
  }

  /** Whoever uses the connection sees both halves of one establish call, and never a mixture. */
  lemma UsersShareOneConnection(schedule: seq<Action>)
    ensures var s := Exec(INIT, schedule);
            s.sender.Writing? || s.receiver.Reading? ==> s.halves.rx.Some? && s.halves.rx == s.halves.tx
  {
    Always(schedule);
  }

  /** A parked receiver holds no lock, and either has something to wake on or faces a sender that still
      owes its false. */
  lemma NoLostWakeup(schedule: seq<Action>)
    ensures var s := Exec(INIT, schedule);
            s.receiver.Parked? ==> s.halves.rxLock != Some(ByReceiver) && (Enabled(s, Wake) || Sending(s))
  {
    Always(schedule);
  }

  /** No wakeup is lost: from every state in which the receiver is parked, the other tasks can go on
      until it has left the wait. */
  lemma ParkedCanResume(schedule: seq<Action>)
    ensures var s := Exec(INIT, schedule);
            s.receiver.Parked? ==> exists t :: Reaches(s, t) && !t.receiver.Parked?
  {
    Always(schedule);
    var s := Exec(INIT, schedule);
    if s.receiver.Parked? {
      Runs.ReachesItself<State, Action>(Step, s);
      var m := FreeTx(s, s);
      var n := FinishSend(s, m);
      Runs.ReachesStep(Step, s, n, Wake);
    }
  }

  /** The reset task can release the tx lock without anyone's help. */
  lemma FreeTx(s: State, m: State) returns (t: State)
    requires Reaches(s, m) && Inv(m)
    ensures Reaches(s, t) && Inv(t) && t.halves.txLock != Some(ByReset)
    ensures t.watch == m.watch && t.sender == m.sender && t.receiver == m.receiver
  {
    t := m;
    if t.reset.HalfDone? {
      Runs.ReachesStep(Step, s, t, Reconnect);
      StepKeepsHalves(t, Reconnect);
      t := Step(t, Reconnect);
    }
    if t.reset.HoldsBoth? {
      Runs.ReachesStep(Step, s, t, ResetUnlock);
      StepKeepsHalves(t, ResetUnlock);
      t := Step(t, ResetUnlock);
    }
  }

  lemma NobodyHoldsTx(s: State)
    requires HalvesInv(s) && !s.sender.Writing? && s.halves.txLock != Some(ByReset)
    ensures s.halves.txLock.None?
  {
    match s.halves.txLock
    case None =>
    case Some(p) => match p case BySender => case ByReceiver => case ByReset =>
  }

  /** Unless the parked receiver can wake already, the sender can go on to its false. */
  lemma FinishSend(s: State, m: State) returns (t: State)
    requires Reaches(s, m) && Inv(m) && m.receiver.Parked? && m.halves.txLock != Some(ByReset)
    ensures Reaches(s, t) && t.receiver.Parked? && Enabled(t, Wake)
  {
    t := m;
    if !Enabled(t, Wake) {
      assert Sending(t);
      if t.sender.Announced? {
        NobodyHoldsTx(t);
        Runs.ReachesStep(Step, s, t, LockTx);
        t := Step(t, LockTx);
      }
      if t.sender.Writing? {
        Runs.ReachesStep(Step, s, t, Write);
        t := Step(t, Write);
      }
      assert t.sender.Written? && t.watch == m.watch;
      Runs.ReachesStep(Step, s, t, Conclude);
      t := Step(t, Conclude);
    }
  }

  /** A sender between its true and its false is exactly an odd number of published values, as long as
      neither task has ended. */
  lemma SendingIsOddVersion(schedule: seq<Action>)
    ensures var s := Exec(INIT, schedule);
            !s.sender.SenderGone? && !s.receiver.ReceiverGone? ==> (Sending(s) <==> s.watch.version % 2 == 1)
  {
    Always(schedule);
  }

  /** "The receiver resumes reading only once the pending send is done" holds for a wake-up exactly
      when the channel holds `false`, which the receiver could borrow before it resumes. In terms of what
      it saw and missed: an odd number of values after `true`, or an even number after `false`; a single
      missed value after a `true` is always the matching `false`. */
  lemma ResumesAfterSend(schedule: seq<Action>)
    requires var s := Exec(INIT, schedule); Enabled(s, Wake) && !s.sender.SenderGone?
    ensures var s := Exec(INIT, schedule);
            var sawTrue, missed := s.watch.seen % 2 == 1, s.watch.version - s.watch.seen;
            && Step(s, Wake).receiver.Selecting?
            && (Sending(Step(s, Wake)) <==> s.watch.value)
            && (Step(s, Wake).sender.Idle? <==> !s.watch.value)
            && (!s.watch.value <==> (sawTrue <==> missed % 2 == 1))
            && (sawTrue && missed == 1 ==> !s.watch.value)
  {
    Always(schedule);
    var s := Exec(INIT, schedule);
    Parity(s.watch.seen, s.watch.version);
  }

  lemma Parity(a: nat, b: nat)
    requires a <= b
    ensures (b - a) % 2 == 1 <==> a % 2 != b % 2
  {
  }

  /** It fails: a receiver leaves its wait and is back in the select while the send it should have
      waited for is under way, and it can then read while the sender writes. */
  lemma ResumesWhileSending()
    ensures exists s :: Reaches(INIT, s) && ResumesEarly(s)
  {
    var s := StaleNotice();
    Runs.ReachesStep(Step, INIT, s, Announce);
    s := Step(s, Announce);
    Runs.ReachesStep(Step, INIT, s, Look);
    s := Step(s, Look);
    var woken := Step(s, Wake);
    Runs.ReachesItself<State, Action>(Step, woken);
    Runs.ReachesStep(Step, woken, woken, LockTx);
    Runs.ReachesStep(Step, woken, Step(woken, LockTx), StartRead);
    assert ReadsWhileWriting(Step(Step(woken, LockTx), StartRead));
    assert ResumesEarly(s);
  }

  predicate ReadsWhileWriting(s: State) { s.receiver.Reading? && s.sender.Writing? }

  /** The parked receiver can wake while the sender is between its true and its false, and both can go
      on to use the connection. */
  ghost predicate ResumesEarly(s: State) {
    && Enabled(s, Wake) && !s.sender.SenderGone? && Sending(Step(s, Wake))
    && exists t :: Reaches(Step(s, Wake), t) && ReadsWhileWriting(t)
  }

  /** The receiver was notified of a send that is over before it looks: the second send is announced
      before the receiver borrows the value, so it parks on a version it has already missed. */
  lemma StaleNotice() returns (s: State)
    ensures Reaches(INIT, s) && s == INIT.(watch := Watch(false, 2, 1), receiver := Notified)
  {
    Runs.ReachesItself<State, Action>(Step, INIT);
    Runs.ReachesStep(Step, INIT, INIT, Announce);
    s := Step(INIT, Announce);
    Runs.ReachesStep(Step, INIT, s, Changed);
    s := Step(s, Changed);
    Runs.ReachesStep(Step, INIT, s, LockTx);
    s := Step(s, LockTx);
    Runs.ReachesStep(Step, INIT, s, Write);
    s := Step(s, Write);
    Runs.ReachesStep(Step, INIT, s, Conclude);
    s := Step(s, Conclude);
  }
}
