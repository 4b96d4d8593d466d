/** Flash transfers against runtime updates, under every interleaving of starts, transfer tasks, exits
    and updaters. All share the lock around the registered transfers; updaters share one atomic flag. */
module UpdateGate {
  import opened Bytes
  import Runs

  /** A start call: past its "already running" check, holding the lock, and with the flag seen clear. */
  datatype StartPhase = Passed | Locked | Cleared | Over

  datatype Start = Start(ecu: Name, phase: StartPhase)

  /** A transfer task: not yet at its first lock, exchanging blocks, past its last lock, returned. */
  datatype TaskPhase = Spawned | Sending | Closing | Ended

  datatype Entry = Entry(owner: nat, terminal: bool)

  datatype Holder = ByStart(id: nat) | ByExit(task: nat)

  datatype UpdatePhase = Raised | Applying

  /** A task bears the number of the start that spawned it. `overlapped` and `overwritten` are history:
      whether two starts for one ECU were ever under way at once, and the tasks whose entry was replaced. */
  datatype State = State(
    holder: Option<Holder>, flag: bool, transfers: map<Name, Entry>,
    starts: map<nat, Start>, tasks: map<nat, TaskPhase>, updates: map<nat, UpdatePhase>,
    overlapped: bool, overwritten: set<nat>)

  const INIT := State(None, false, map[], map[], map[], map[], false, {})

  datatype Action =
    | Check(id: nat, ecu: Name)      // first lock: refuse if a transfer is registered
    | GiveUp(id: nat)                // the file or service lookups fail
    | Lock(id: nat)                  // second lock, after those lookups
    | LoadFlag(id: nat)
    | Insert(id: nat)                // spawn, insert, unlock
    | Begin(task: nat)               // the task's first lock
    | Reply(task: nat, last: bool)   // a replied block, accounted for under the lock
    | Abort(task: nat)
    | Return(task: nat)
    | Exit(ecu: Name)                // remove a finished or aborted transfer, keep the lock
    | ExitDone                       // its task was awaited
    | Raise(update: nat)             // compare-exchange on the flag
    | Observe(update: nat)           // is_active, by try_lock
    | Lower(update: nat)

  predicate UnderWay(s: State, id: nat) { id in s.starts && !s.starts[id].phase.Over? }

  predicate InPhase(s: State, id: nat, phase: StartPhase) { id in s.starts && s.starts[id].phase == phase }

  /** Task `t` may take the lock now and is in the given phase. */
  predicate TaskMay(s: State, t: nat, phase: TaskPhase) {
    s.holder.None? && t in s.tasks && t in s.starts && s.tasks[t] == phase
  }

  function SetPhase(s: State, id: nat, phase: StartPhase): State
    requires id in s.starts
  {
    s.(starts := s.starts[id := s.starts[id].(phase := phase)])
  }

  function SetTerminal(s: State, ecu: Name, terminal: bool): State
    requires ecu in s.transfers
  {
    s.(transfers := s.transfers[ecu := s.transfers[ecu].(terminal := terminal)])
  }

  function SetTask(s: State, t: nat, phase: TaskPhase): State { s.(tasks := s.tasks[t := phase]) }

  function StepStart(s: State, a: Action): State {
    match a
    case Check(id, ecu) =>
      if id in s.starts || s.holder.Some? || ecu in s.transfers then s
      else s.(starts := s.starts[id := Start(ecu, Passed)],
              overlapped := s.overlapped || exists j :: j in s.starts && UnderWay(s, j) && s.starts[j].ecu == ecu)
    case GiveUp(id) => if InPhase(s, id, Passed) then SetPhase(s, id, Over) else s
    case Lock(id) =>
      if s.holder.None? && InPhase(s, id, Passed)
      then SetPhase(s, id, Locked).(holder := Some(ByStart(id))) else s
    case LoadFlag(id) =>
      if !InPhase(s, id, Locked) then s
      else if s.flag then SetPhase(s, id, Over).(holder := None)
      else SetPhase(s, id, Cleared)
    case Insert(id) =>
      if !InPhase(s, id, Cleared) then s
      else
        var ecu := s.starts[id].ecu;
        SetTask(SetPhase(s, id, Over), id, Spawned).(
          holder := None, transfers := s.transfers[ecu := Entry(id, false)],
          overwritten := s.overwritten + if ecu in s.transfers then {s.transfers[ecu].owner} else {})
    case _ => s
  }

  function StepTask(s: State, a: Action): State {
    match a
    case Begin(t) =>
      if !TaskMay(s, t, Spawned) then s
      else if s.starts[t].ecu !in s.transfers then SetTask(s, t, Ended)
      else SetTask(SetTerminal(s, s.starts[t].ecu, false), t, Sending)
    case Reply(t, last) =>
      if !TaskMay(s, t, Sending) then s
      else if s.starts[t].ecu !in s.transfers then SetTask(s, t, Ended)
      else if last then SetTask(SetTerminal(s, s.starts[t].ecu, true), t, Closing)
      else s
    case Abort(t) =>
      if !TaskMay(s, t, Sending) then s
      else if s.starts[t].ecu !in s.transfers then SetTask(s, t, Closing)
      else SetTask(SetTerminal(s, s.starts[t].ecu, true), t, Closing)
    case Return(t) => if t in s.tasks && s.tasks[t] == Closing then SetTask(s, t, Ended) else s
    case _ => s
  }

  function StepOther(s: State, a: Action): State {
    match a
    case Exit(ecu) =>
      if s.holder.Some? || ecu !in s.transfers || !s.transfers[ecu].terminal then s
      else s.(holder := Some(ByExit(s.transfers[ecu].owner)), transfers := s.transfers - {ecu})
    case ExitDone =>
      if s.holder.Some? && s.holder.value.ByExit? && s.holder.value.task in s.tasks
         && s.tasks[s.holder.value.task] == Ended
      then s.(holder := None) else s
    case Raise(u) => if s.flag then s else s.(flag := true, updates := s.updates[u := Raised])
    case Observe(u) =>
      if u in s.updates && !IsActive(s) then s.(updates := s.updates[u := Applying]) else s
    case Lower(u) => if u in s.updates then s.(flag := false, updates := s.updates - {u}) else s
    case _ => s
  }

  /** A contended lock counts as an active transfer. */
  predicate IsActive(s: State) { s.holder.Some? || s.transfers != map[] }

  function Step(s: State, a: Action): State {
    if a.Check? || a.GiveUp? || a.Lock? || a.LoadFlag? || a.Insert? then StepStart(s, a)
    else if a.Begin? || a.Reply? || a.Abort? || a.Return? then StepTask(s, a)
    else StepOther(s, a)
  }

  function Exec(s: State, schedule: seq<Action>): State { Runs.Exec(Step, s, schedule) }

  ghost predicate Reaches(s: State, t: State) { Runs.Reaches(Step, s, t) }

  // -- invariants

  predicate IsApplying(s: State) { exists u :: u in s.updates && s.updates[u].Applying? }

  ghost predicate LockInv(s: State) {
    forall id :: InPhase(s, id, Locked) || InPhase(s, id, Cleared) <==> s.holder == Some(ByStart(id))
  }

  ghost predicate FlagInv(s: State) {
    && (s.flag <==> s.updates != map[])
    && (forall u, v :: u in s.updates && v in s.updates ==> u == v)
    && (IsApplying(s) ==>
          && s.transfers == map[] && !(s.holder.Some? && s.holder.value.ByExit?)
          && forall id :: !InPhase(s, id, Cleared))
  }

  predicate Live(s: State, t: nat) { t in s.tasks && !s.tasks[t].Ended? }

  predicate Owns(s: State, t: nat) {
    t in s.starts && s.starts[t].ecu in s.transfers && s.transfers[s.starts[t].ecu].owner == t
  }

  /** Every running task has its entry, is being awaited by an exit, or had its entry replaced. */
  ghost predicate TaskInv(s: State) {
    && (forall t :: t in s.tasks ==> InPhase(s, t, Over))
    && (forall e :: e in s.transfers ==>
          var t := s.transfers[e].owner; t in s.tasks && t in s.starts && s.starts[t].ecu == e)
    && (forall t :: Live(s, t) ==> Owns(s, t) || s.holder == Some(ByExit(t)) || t in s.overwritten)
    && (s.holder.Some? && s.holder.value.ByExit? ==> s.holder.value.task in s.tasks)
  }

  /** As long as starts for one ECU do not overlap, no entry is replaced and a terminal status is the
      owner's own last word. */
  ghost predicate SerialInv(s: State) {
    !s.overlapped ==>
      && s.overwritten == {}
      && (forall id :: UnderWay(s, id) ==> s.starts[id].ecu !in s.transfers)
      && (forall i, j :: UnderWay(s, i) && UnderWay(s, j) && s.starts[i].ecu == s.starts[j].ecu ==> i == j)
      && (forall e :: e in s.transfers && s.transfers[e].terminal ==> PastLastLock(s, s.transfers[e].owner))
      && (s.holder.Some? && s.holder.value.ByExit? ==> PastLastLock(s, s.holder.value.task))
  }

  predicate PastLastLock(s: State, t: nat) { t in s.tasks && (s.tasks[t].Closing? || s.tasks[t].Ended?) }

  ghost predicate Inv(s: State) { LockInv(s) && FlagInv(s) && TaskInv(s) && SerialInv(s) }

  lemma StartKeepsLock(s: State, a: Action)
    requires LockInv(s)
    ensures LockInv(StepStart(s, a))
  {
  }

  lemma StartKeepsFlag(s: State, a: Action)
    requires LockInv(s) && FlagInv(s)
    ensures FlagInv(StepStart(s, a))
  {
    var t := StepStart(s, a);
    assert t.updates == s.updates && t.flag == s.flag;
    if IsApplying(t) {
      var u :| u in t.updates && t.updates[u].Applying?;
      assert u in s.updates && s.updates != map[] && IsApplying(s);
      forall id ensures !InPhase(t, id, Cleared) {
        assert !InPhase(s, id, Cleared);
      }
      assert t.transfers == s.transfers;
    }
  }

  lemma StartKeepsTask(s: State, a: Action)
    requires LockInv(s) && TaskInv(s)
    ensures TaskInv(StepStart(s, a))
  {
    if a.Insert? && InPhase(s, a.id, Cleared) {
      InsertKeepsTask(s, a.id);
    } else {
      var t := StepStart(s, a);
      StartLeavesTasks(s, a);
      assert forall k :: Live(t, k) == Live(s, k);
      forall k | k in t.tasks ensures InPhase(t, k, Over) && (Owns(t, k) <==> Owns(s, k)) {
        assert InPhase(s, k, Over);
      }
      assert s.holder.Some? && s.holder.value.ByExit? ==> t.holder == s.holder;
      assert t.holder.Some? && t.holder.value.ByExit? ==> t.holder == s.holder;
    }
  }

  /** Before it inserts, a start touches no task and no entry, and nobody else's lock. */
  lemma StartLeavesTasks(s: State, a: Action)
    requires TaskInv(s) && LockInv(s) && !(a.Insert? && InPhase(s, a.id, Cleared))
    ensures var t := StepStart(s, a);
            && t.tasks == s.tasks && t.transfers == s.transfers && t.overwritten == s.overwritten
            && (forall k :: k in s.tasks ==> k in t.starts && t.starts[k] == s.starts[k])
            && (forall k :: (s.holder == Some(ByExit(k))) == (t.holder == Some(ByExit(k))))
  {
    StartLeavesOver(s, a);
    StartLeavesExit(s, a);
    assert forall k :: k in s.tasks ==> InPhase(s, k, Over);
  }

  lemma StartLeavesOver(s: State, a: Action)
    requires !(a.Insert? && InPhase(s, a.id, Cleared))
    ensures var t := StepStart(s, a);
            && t.tasks == s.tasks && t.transfers == s.transfers && t.overwritten == s.overwritten
            && (forall k :: InPhase(s, k, Over) ==> k in t.starts && t.starts[k] == s.starts[k])
  {
    if a.Check? {
      CheckLeavesOver(s, a.id, a.ecu);
    } else if a.LoadFlag? {
      LoadFlagLeavesOver(s, a.id);
    }
  }

  lemma CheckLeavesOver(s: State, id: nat, ecu: Name)
    ensures forall k :: k in s.starts ==>
              k in StepStart(s, Check(id, ecu)).starts && StepStart(s, Check(id, ecu)).starts[k] == s.starts[k]
  {
  }

  lemma LoadFlagLeavesOver(s: State, id: nat)
    ensures forall k :: InPhase(s, k, Over) ==>
              k in StepStart(s, LoadFlag(id)).starts && StepStart(s, LoadFlag(id)).starts[k] == s.starts[k]
  {
  }

  lemma StartLeavesExit(s: State, a: Action)
    requires LockInv(s)
    ensures forall k :: (s.holder == Some(ByExit(k))) == (StepStart(s, a).holder == Some(ByExit(k)))
  {
    if a.LoadFlag? && InPhase(s, a.id, Locked) { assert s.holder == Some(ByStart(a.id)); }
    if a.Insert? && InPhase(s, a.id, Cleared) { assert s.holder == Some(ByStart(a.id)); }
  }

  lemma InsertKeepsTask(s: State, id: nat)
    requires LockInv(s) && TaskInv(s) && InPhase(s, id, Cleared)
    ensures TaskInv(StepStart(s, Insert(id)))
  {
    var t := StepStart(s, Insert(id));
    forall k | Live(t, k)
      ensures Owns(t, k) || t.holder == Some(ByExit(k)) || k in t.overwritten
    {
      if k != id { assert Live(s, k); }
    }
  }

  lemma StartKeepsSerial(s: State, a: Action)
    requires Inv(s)
    ensures SerialInv(StepStart(s, a))
  {
    if a.Check? { CheckKeepsSerial(s, a); }
    if a.Insert? { InsertKeepsSerial(s, a); }
  }

  lemma CheckKeepsSerial(s: State, a: Action)
    requires Inv(s) && a.Check?
    ensures SerialInv(StepStart(s, a))
  {
  }

  lemma InsertKeepsSerial(s: State, a: Action)
    requires Inv(s) && a.Insert?
    ensures SerialInv(StepStart(s, a))
  {
  }

  lemma TaskKeepsLockAndFlag(s: State, a: Action)
    requires LockInv(s) && FlagInv(s)
    ensures LockInv(StepTask(s, a)) && FlagInv(StepTask(s, a))
  {
    TaskLeavesAlone(s, a);
    var t := StepTask(s, a);
    assert forall id, p :: InPhase(t, id, p) == InPhase(s, id, p);
    assert IsApplying(t) == IsApplying(s);
  }

  lemma TaskLeavesAlone(s: State, a: Action)
    ensures var t := StepTask(s, a);
            && t.starts == s.starts && t.holder == s.holder && t.updates == s.updates && t.flag == s.flag
            && t.transfers.Keys == s.transfers.Keys
  {
    if (a.Begin? || a.Reply? || a.Abort?) && a.task in s.starts && s.starts[a.task].ecu in s.transfers {
      SameKeys(s, s.starts[a.task].ecu, true);
      SameKeys(s, s.starts[a.task].ecu, false);
    }
  }

  lemma SameKeys(s: State, ecu: Name, terminal: bool)
    requires ecu in s.transfers
    ensures SetTerminal(s, ecu, terminal).transfers.Keys == s.transfers.Keys
  {
  }

  lemma SetTaskKeeps(s: State, k: nat, phase: TaskPhase)
    requires TaskInv(s) && Live(s, k)
    ensures TaskInv(SetTask(s, k, phase))
  {
    var t := SetTask(s, k, phase);
    assert t.tasks.Keys == s.tasks.Keys;
    assert forall j :: Live(t, j) ==> Live(s, j);
    assert forall j :: Owns(t, j) == Owns(s, j);
    assert forall j, p :: InPhase(t, j, p) == InPhase(s, j, p);
  }

  lemma SetTerminalKeeps(s: State, ecu: Name, terminal: bool)
    requires TaskInv(s) && ecu in s.transfers
    ensures TaskInv(SetTerminal(s, ecu, terminal))
  {
    var t := SetTerminal(s, ecu, terminal);
    assert t.transfers.Keys == s.transfers.Keys;
    assert forall e :: e in s.transfers ==> t.transfers[e].owner == s.transfers[e].owner;
    assert forall j :: Live(t, j) == Live(s, j);
    assert forall j :: Owns(t, j) == Owns(s, j);
    assert forall j, p :: InPhase(t, j, p) == InPhase(s, j, p);
  }

  lemma TaskKeepsTask(s: State, a: Action)
    requires TaskInv(s) && (a.Begin? || a.Reply? || a.Abort? || a.Return?)
    ensures TaskInv(StepTask(s, a))
  {
    if Live(s, a.task) && a.task in s.starts {
      var e := s.starts[a.task].ecu;
      SetTaskKeeps(s, a.task, Ended);
      SetTaskKeeps(s, a.task, Closing);
      if e in s.transfers {
        SetTerminalKeeps(s, e, false);
        SetTerminalKeeps(s, e, true);
        assert Live(SetTerminal(s, e, true), a.task) && Live(SetTerminal(s, e, false), a.task);
        SetTaskKeeps(SetTerminal(s, e, false), a.task, Sending);
        SetTaskKeeps(SetTerminal(s, e, true), a.task, Closing);
      }
    }
  }

  /** A task that has the lock to itself and whose entry was never replaced writes its own entry. */
  lemma OwnerWrites(s: State, k: nat, terminal: bool, phase: TaskPhase)
    requires TaskInv(s) && SerialInv(s) && !s.overlapped
    requires Live(s, k) && k in s.starts && s.holder.None? && s.starts[k].ecu in s.transfers
    requires terminal ==> phase.Closing?
    ensures SerialInv(SetTask(SetTerminal(s, s.starts[k].ecu, terminal), k, phase))
  {
    var e := s.starts[k].ecu;
    var t := SetTask(SetTerminal(s, e, terminal), k, phase);
    assert Owns(s, k);
    assert t.transfers.Keys == s.transfers.Keys;
    assert forall i :: UnderWay(t, i) == UnderWay(s, i);
    forall d | d in t.transfers && t.transfers[d].terminal
      ensures PastLastLock(t, t.transfers[d].owner)
    {
      if d != e {
        assert s.transfers[d].owner != k;
        assert PastLastLock(s, s.transfers[d].owner);
      }
    }
  }

  lemma TaskEndsKeepsSerial(s: State, k: nat, phase: TaskPhase)
    requires SerialInv(s) && k in s.tasks && (phase.Closing? || phase.Ended?)
    ensures SerialInv(SetTask(s, k, phase))
  {
    var t := SetTask(s, k, phase);
    assert forall i :: UnderWay(t, i) == UnderWay(s, i);
    assert forall j :: PastLastLock(s, j) ==> PastLastLock(t, j);
  }

  lemma TaskKeepsSerial(s: State, a: Action)
    requires a.Begin? || a.Reply? || a.Abort? || a.Return?
    requires TaskInv(s) && SerialInv(s)
    ensures SerialInv(StepTask(s, a))
  {
    var k := a.task;
    assert StepTask(s, a).overlapped == s.overlapped;
    if !s.overlapped && Live(s, k) {
      TaskEndsKeepsSerial(s, k, Closing);
      TaskEndsKeepsSerial(s, k, Ended);
      if k in s.starts && s.holder.None? && s.starts[k].ecu in s.transfers {
        OwnerWrites(s, k, false, Sending);
        OwnerWrites(s, k, true, Closing);
      }
    }
  }

  lemma OtherKeepsLockAndFlag(s: State, a: Action)
    requires LockInv(s) && FlagInv(s)
    ensures LockInv(StepOther(s, a)) && FlagInv(StepOther(s, a))
  {
    var t := StepOther(s, a);
    if a.Lower? && a.update in s.updates {
      assert t.updates == map[];
    } else if a.Raise? || a.Observe? {
      assert a.update in s.updates ==> a.update in t.updates;
    }
  }

  lemma OtherKeepsSerial(s: State, a: Action)
    requires TaskInv(s) && SerialInv(s)
    ensures SerialInv(StepOther(s, a))
  {
    var t := StepOther(s, a);
    assert forall i :: UnderWay(t, i) == UnderWay(s, i);
    assert forall i :: PastLastLock(t, i) == PastLastLock(s, i);
  }

  lemma OtherKeepsTask(s: State, a: Action)
    requires TaskInv(s)
    ensures TaskInv(StepOther(s, a))
  {
    var t := StepOther(s, a);
    forall k | Live(t, k)
      ensures Owns(t, k) || t.holder == Some(ByExit(k)) || k in t.overwritten
    {
      assert Live(s, k);
    }
  }

  lemma StepKeepsInv(s: State, a: Action)
    requires Inv(s)
    ensures Inv(Step(s, a))
  {
    if a.Check? || a.GiveUp? || a.Lock? || a.LoadFlag? || a.Insert? {
      StartKeepsLock(s, a);
      StartKeepsFlag(s, a);
      StartKeepsTask(s, a);
      StartKeepsSerial(s, a);
    } else if a.Begin? || a.Reply? || a.Abort? || a.Return? {
      TaskKeepsLockAndFlag(s, a);
      TaskKeepsTask(s, a);
      TaskKeepsSerial(s, a);
    } else {
      OtherKeepsLockAndFlag(s, a);
      OtherKeepsTask(s, a);
      OtherKeepsSerial(s, a);
    }
  }

  lemma {:induction false} Always(schedule: seq<Action>)
    ensures Inv(Exec(INIT, schedule))
  {
    if schedule != [] {
      Always(schedule[..|schedule| - 1]);
      StepKeepsInv(Exec(INIT, schedule[..|schedule| - 1]), schedule[|schedule| - 1]);
    }
  }

  // -- results

  /** While an updater is past a negative `is_active`, no transfer is registered and none can be until
      the flag is lowered: no start call is between reading the flag clear and inserting. */
  lemma NoTransferDuringUpdate(schedule: seq<Action>)
    requires IsApplying(Exec(INIT, schedule))
    ensures var s := Exec(INIT, schedule);
            s.flag && s.transfers == map[] && forall id :: !InPhase(s, id, Cleared)
  {
    Always(schedule);
    var s := Exec(INIT, schedule);
    var u :| u in s.updates && s.updates[u].Applying?;
  }

  /** The flag admits one updater at a time and is up exactly while there is one. */
  lemma SingleUpdater(schedule: seq<Action>)
    ensures var s := Exec(INIT, schedule);
            && (s.flag <==> exists u :: u in s.updates)
            && (forall u, v :: u in s.updates && v in s.updates ==> u == v)
  {
    Always(schedule);
    var s := Exec(INIT, schedule);
    if s.flag {
      var u :| u in s.updates;
    }
  }

  /** If starts for one ECU never overlapped, an update runs with no transfer task alive at all; in
      general, only tasks whose entry was replaced can still be running. */
  lemma LiveTasksDuringUpdate(schedule: seq<Action>, t: nat)
    requires var s := Exec(INIT, schedule); IsApplying(s) && Live(s, t)
    ensures var s := Exec(INIT, schedule);
            s.overlapped && t in s.overwritten
  {
    NoTransferDuringUpdate(schedule);
    Always(schedule);
  }

  /** Two starts for one ECU that are both past the check can both insert: the second replaces the
      entry of the first, whose task keeps running unregistered. */
  lemma OverlappingStartsCanOverwrite(s: State, i: nat, j: nat)
    requires Inv(s) && s.holder.None? && !s.flag && i != j
    requires InPhase(s, i, Passed) && InPhase(s, j, Passed) && s.starts[i].ecu == s.starts[j].ecu
    ensures var t := Exec(s, [Lock(i), LoadFlag(i), Insert(i), Lock(j), LoadFlag(j), Insert(j)]);
            Live(t, i) && Live(t, j) && i in t.overwritten && Owns(t, j)
  {
    var a := [Lock(i), LoadFlag(i), Insert(i)];
    var b := [Lock(j), LoadFlag(j), Insert(j)];
    StartInserts(s, i);
    var m := Exec(s, a);
    StartInserts(m, j);
    Runs.ExecConcat(Step, s, a, b);
    assert a + b == [Lock(i), LoadFlag(i), Insert(i), Lock(j), LoadFlag(j), Insert(j)];
  }

  lemma StartInserts(s: State, i: nat)
    requires s.holder.None? && !s.flag && InPhase(s, i, Passed)
    ensures var e := s.starts[i].ecu;
            Exec(s, [Lock(i), LoadFlag(i), Insert(i)]) ==
            s.(starts := s.starts[i := Start(e, Over)], tasks := s.tasks[i := Spawned],
               transfers := s.transfers[e := Entry(i, false)],
               overwritten := s.overwritten + if e in s.transfers then {s.transfers[e].owner} else {})
  {
    var s1 := Step(s, Lock(i));
    var s2 := Step(s1, LoadFlag(i));
    Runs.ExecThree(Step, s, Lock(i), LoadFlag(i), Insert(i));
    assert s2.starts[i := Start(s.starts[i].ecu, Over)] == s.starts[i := Start(s.starts[i].ecu, Over)];
  }

  /** An exit waits with the lock held, so it comes back exactly when its task needs the lock no more. */
  lemma ExitReturns(s: State, t: nat)
    requires Inv(s) && s.holder == Some(ByExit(t))
    ensures (exists more :: Exec(s, more).holder.None?) <==> PastLastLock(s, t)
  {
    if PastLastLock(s, t) {
      Runs.ExecThree(Step, s, Return(t), ExitDone, ExitDone);
      assert Exec(s, [Return(t), ExitDone, ExitDone]).holder.None?;
    } else {
      forall more ensures Exec(s, more).holder.Some? {
        StuckExit(s, t, more);
      }
    }
  }

  lemma {:induction false} StuckExit(s: State, t: nat, more: seq<Action>)
    requires Inv(s) && s.holder == Some(ByExit(t)) && !PastLastLock(s, t)
    ensures var e := Exec(s, more); Inv(e) && e.holder == s.holder && t in e.tasks && e.tasks[t] == s.tasks[t]
  {
    if more != [] {
      StuckExit(s, t, more[..|more| - 1]);
      var e, a := Exec(s, more[..|more| - 1]), more[|more| - 1];
      StepKeepsInv(e, a);
      StuckStep(e, a, t);
    }
  }

  lemma StuckStep(e: State, a: Action, t: nat)
    requires LockInv(e) && e.holder == Some(ByExit(t)) && t in e.tasks && !PastLastLock(e, t)
    ensures Step(e, a).holder == e.holder && t in Step(e, a).tasks && Step(e, a).tasks[t] == e.tasks[t]
  {
    assert forall id :: !InPhase(e, id, Locked) && !InPhase(e, id, Cleared);
  }

  /** With non-overlapping starts every exit comes back. */
  lemma SerialExitsReturn(schedule: seq<Action>, t: nat)
    requires var s := Exec(INIT, schedule); s.holder == Some(ByExit(t)) && !s.overlapped
    ensures exists more :: Exec(Exec(INIT, schedule), more).holder.None?
  {
    Always(schedule);
    ExitReturns(Exec(INIT, schedule), t);
  }

  // -- two overlapping starts for one ECU

  const PASSED := INIT.(starts := map[0 := Start([], Passed), 1 := Start([], Passed)], overlapped := true)

  /** Both transfers exchange blocks; only the second is registered. */
  const BOTH := State(None, false, map[[] := Entry(1, false)], map[0 := Start([], Over), 1 := Start([], Over)],
                      map[0 := Sending, 1 := Sending], map[], true, {0})

  lemma ReachesPassed()
    ensures Reaches(INIT, PASSED)
  {
    var s := Step(INIT, Check(0, []));
    assert s == INIT.(starts := map[0 := Start([], Passed)]);
    assert 0 in s.starts && UnderWay(s, 0) && s.starts[0].ecu == [];
    assert Step(s, Check(1, [])) == PASSED;
    Runs.ReachesItself<State, Action>(Step, INIT);
    Runs.ReachesStep(Step, INIT, INIT, Check(0, []));
    Runs.ReachesStep(Step, INIT, s, Check(1, []));
  }

  const FIRST := State(None, false, map[[] := Entry(0, false)], map[0 := Start([], Over), 1 := Start([], Passed)],
                       map[0 := Sending], map[], true, {})

  lemma ReachesInserted()
    ensures Reaches(INIT, FIRST.(tasks := map[0 := Spawned]))
  {
    ReachesPassed();
    StartInserts(PASSED, 0);
    var m := Exec(PASSED, [Lock(0), LoadFlag(0), Insert(0)]);
    assert m.overwritten == {};
    assert m == FIRST.(tasks := map[0 := Spawned]);
    Runs.ReachesConcat(Step, INIT, PASSED, m);
  }

  lemma ReachesFirst()
    ensures Reaches(INIT, FIRST)
  {
    ReachesInserted();
    var m := FIRST.(tasks := map[0 := Spawned]);
    Runs.ReachesStep(Step, INIT, m, Begin(0));
    assert Step(m, Begin(0)) == FIRST;
  }

  const SECOND := BOTH.(tasks := map[0 := Sending, 1 := Spawned])

  lemma ReachesSecond()
    ensures Reaches(INIT, SECOND)
  {
    ReachesFirst();
    StartInserts(FIRST, 1);
    var m := Exec(FIRST, [Lock(1), LoadFlag(1), Insert(1)]);
    assert m.overwritten == {0};
    assert m == SECOND;
    Runs.ReachesConcat(Step, INIT, FIRST, m);
  }

  lemma ReachesBoth()
    ensures Reaches(INIT, BOTH)
  {
    ReachesSecond();
    Runs.ReachesStep(Step, INIT, SECOND, Begin(1));
    assert Step(SECOND, Begin(1)) == BOTH;
  }

  /** The registered transfer finished and was exited; the replaced one goes on. */
  const EXITED := BOTH.(transfers := map[], tasks := map[0 := Sending, 1 := Ended])

  lemma ReachesExited()
    ensures Reaches(INIT, EXITED)
  {
    ReachesFinished();
    Runs.ReachesStep(Step, INIT, FINISHED, Exit([]));
    var s := Step(FINISHED, Exit([]));
    assert s.transfers == map[];
    Runs.ReachesStep(Step, INIT, s, ExitDone);
  }

  const FINISHED := BOTH.(transfers := map[[] := Entry(1, true)], tasks := map[0 := Sending, 1 := Ended])

  lemma ReachesFinished()
    ensures Reaches(INIT, FINISHED)
  {
    ReachesBoth();
    Runs.ReachesStep(Step, INIT, BOTH, Reply(1, true));
    var s := FINISHED.(tasks := map[0 := Sending, 1 := Closing]);
    LastReply();
    Runs.ReachesStep(Step, INIT, s, Return(1));
    assert Step(s, Return(1)) == FINISHED;
  }

  lemma LastReply()
    ensures Step(BOTH, Reply(1, true)) == FINISHED.(tasks := map[0 := Sending, 1 := Closing])
  {
    var s := Step(BOTH, Reply(1, true));
    assert s.transfers == FINISHED.transfers;
  }

  /** An update can run while a task whose entry was replaced is still exchanging flash blocks. */
  lemma UpdateBesideFlashTask()
    ensures exists s :: Reaches(INIT, s) && IsApplying(s) && 0 in s.tasks && s.tasks[0] == Sending
  {
    ReachesExited();
    UpdateOnIdle(EXITED, 7);
  }

  lemma UpdateOnIdle(s: State, u: nat)
    requires Reaches(INIT, s) && !IsActive(s) && !s.flag
    ensures exists t :: Reaches(INIT, t) && IsApplying(t) && t.tasks == s.tasks
  {
    Runs.ReachesStep(Step, INIT, s, Raise(u));
    var t := Step(s, Raise(u));
    Runs.ReachesStep(Step, INIT, t, Observe(u));
    var r := Step(t, Observe(u));
    assert r.updates[u] == Applying;
  }

  /** The exit holding the lock never gives it back. */
  ghost predicate Deadlocked(s: State) {
    s.holder.Some? && s.holder.value.ByExit? && forall more :: Exec(s, more).holder == s.holder
  }

  /** An exit can wait for ever, for a task that waits for the lock the exit holds. */
  lemma ExitCanDeadlock()
    ensures exists s :: Reaches(INIT, s) && Deadlocked(s)
  {
    ReachesBoth();
    Runs.ReachesStep(Step, INIT, BOTH, Reply(0, true));
    var s1 := Step(BOTH, Reply(0, true));
    Runs.ReachesStep(Step, INIT, s1, Exit([]));
    var s := Step(s1, Exit([]));
    assert s.holder == Some(ByExit(1)) && s.tasks[1] == Sending;
    ReachableInv(s);
    forall more ensures Exec(s, more).holder == s.holder {
      StuckExit(s, 1, more);
    }
    assert Deadlocked(s);
  }

  lemma ReachableInv(s: State)
    requires Reaches(INIT, s)
    ensures Inv(s)
  {
    var schedule :| Runs.Exec(Step, INIT, schedule) == s;
    Always(schedule);
  }
}
