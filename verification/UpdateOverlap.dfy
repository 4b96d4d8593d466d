/** What a replaced transfer task can run into: from every state in which the lock is free and such a
    task is alive, a runtime update can come to be applied beside it. */
module UpdateOverlap {
  import opened Bytes
  import opened UpdateGate
  import Runs

  /** Task x still has to account for blocks of this ECU's transfer. */
  predicate Working(s: State, x: nat, ecu: Name) {
    x in s.tasks && x in s.starts && s.starts[x].ecu == ecu && (s.tasks[x].Spawned? || s.tasks[x].Sending?)
  }

  /** A replaced task owns no entry, and an entry that is not terminal has a task still at work. */
  ghost predicate Extra(s: State) {
    && (forall t :: t in s.overwritten ==> t in s.tasks && !Owns(s, t))
    && (forall e :: e in s.transfers && !s.transfers[e].terminal ==> exists x :: Working(s, x, e))
  }

  lemma StartKeepsExtra(s: State, a: Action)
    requires LockInv(s) && TaskInv(s) && Extra(s)
    ensures Extra(StepStart(s, a))
  {
    if a.Insert? && InPhase(s, a.id, Cleared) {
      InsertKeepsExtra(s, a.id);
    } else {
      var t := StepStart(s, a);
      StartLeavesTasks(s, a);
      forall k | k in t.overwritten ensures !Owns(t, k) {
        assert InPhase(s, k, Over) && !Owns(s, k);
      }
      forall e | e in t.transfers && !t.transfers[e].terminal ensures exists x :: Working(t, x, e) {
        var x :| Working(s, x, e);
        assert Working(t, x, e);
      }
    }
  }

  lemma InsertKeepsExtra(s: State, id: nat)
    requires TaskInv(s) && Extra(s) && InPhase(s, id, Cleared)
    ensures Extra(StepStart(s, Insert(id)))
  {
    var t := StepStart(s, Insert(id));
    assert id !in s.tasks;
    forall k | k in t.overwritten ensures k in t.tasks && !Owns(t, k) {
      if k in s.overwritten { assert !Owns(s, k); }
    }
    forall e | e in t.transfers && !t.transfers[e].terminal ensures exists x :: Working(t, x, e) {
      if e == s.starts[id].ecu {
        assert Working(t, id, e);
      } else {
        var x :| Working(s, x, e);
        assert Working(t, x, e);
      }
    }
  }

  /** Owners stay, so replaced tasks still own nothing. */
  ghost predicate SameOwners(s: State, t: State) {
    && t.starts == s.starts && t.overwritten == s.overwritten && t.tasks.Keys == s.tasks.Keys
    && t.transfers.Keys == s.transfers.Keys
    && (forall e :: e in s.transfers ==> t.transfers[e].owner == s.transfers[e].owner)
  }

  lemma SameOwnersKeepsExtra(s: State, t: State)
    requires Extra(s) && SameOwners(s, t)
    requires forall e :: e in t.transfers && !t.transfers[e].terminal ==> exists x :: Working(t, x, e)
    ensures Extra(t)
  {
    forall k | k in t.overwritten ensures k in t.tasks && !Owns(t, k) {
      assert !Owns(s, k);
    }
  }

  /** Task k begins: it works on its entry from now on. */
  lemma BeginKeepsExtra(s: State, k: nat)
    requires Extra(s) && TaskMay(s, k, Spawned) && s.starts[k].ecu in s.transfers
    ensures Extra(SetTask(SetTerminal(s, s.starts[k].ecu, false), k, Sending))
  {
    var d := s.starts[k].ecu;
    var t := SetTask(SetTerminal(s, d, false), k, Sending);
    forall e | e in t.transfers && !t.transfers[e].terminal ensures exists x :: Working(t, x, e) {
      if e == d {
        assert Working(t, k, e);
      } else {
        var x :| Working(s, x, e);
        assert x != k && Working(t, x, e);
      }
    }
    SameOwnersKeepsExtra(s, t);
  }

  /** Task k stops working; its entry, if there is one, is terminal from then on. */
  lemma StopKeepsExtra(s: State, k: nat, phase: TaskPhase)
    requires Extra(s) && k in s.tasks && k in s.starts
    ensures var d := s.starts[k].ecu;
            Extra(SetTask(if d in s.transfers then SetTerminal(s, d, true) else s, k, phase))
  {
    var d := s.starts[k].ecu;
    var t := SetTask(if d in s.transfers then SetTerminal(s, d, true) else s, k, phase);
    forall e | e in t.transfers && !t.transfers[e].terminal ensures exists x :: Working(t, x, e) {
      var x :| Working(s, x, e);
      assert x != k && Working(t, x, e);
    }
    SameOwnersKeepsExtra(s, t);
  }

  lemma ReturnKeepsExtra(s: State, k: nat)
    requires Extra(s) && k in s.tasks && s.tasks[k].Closing?
    ensures Extra(SetTask(s, k, Ended))
  {
    var t := SetTask(s, k, Ended);
    forall e | e in t.transfers && !t.transfers[e].terminal ensures exists x :: Working(t, x, e) {
      var x :| Working(s, x, e);
      assert x != k && Working(t, x, e);
    }
    SameOwnersKeepsExtra(s, t);
  }

  lemma TaskKeepsExtra(s: State, a: Action)
    requires Extra(s) && (a.Begin? || a.Reply? || a.Abort? || a.Return?)
    ensures Extra(StepTask(s, a))
  {
    var k := a.task;
    if k in s.tasks && k in s.starts && !a.Return? {
      StopKeepsExtra(s, k, Ended);
      StopKeepsExtra(s, k, Closing);
      if TaskMay(s, k, Spawned) && s.starts[k].ecu in s.transfers { BeginKeepsExtra(s, k); }
    } else if k in s.tasks && s.tasks[k].Closing? {
      ReturnKeepsExtra(s, k);
    }
  }

  lemma OtherKeepsExtra(s: State, a: Action)
    requires Extra(s)
    ensures Extra(StepOther(s, a))
  {
    var t := StepOther(s, a);
    forall k | k in t.overwritten ensures k in t.tasks && !Owns(t, k) {
      assert !Owns(s, k);
    }
    forall e | e in t.transfers && !t.transfers[e].terminal ensures exists x :: Working(t, x, e) {
      var x :| Working(s, x, e);
      assert Working(t, x, e);
    }
  }

  lemma StepKeepsExtra(s: State, a: Action)
    requires Inv(s) && Extra(s)
    ensures Inv(Step(s, a)) && Extra(Step(s, a))
  {
    StepKeepsInv(s, a);
    if a.Check? || a.GiveUp? || a.Lock? || a.LoadFlag? || a.Insert? {
      StartKeepsExtra(s, a);
    } else if a.Begin? || a.Reply? || a.Abort? || a.Return? {
      TaskKeepsExtra(s, a);
    } else {
      OtherKeepsExtra(s, a);
    }
  }

  lemma {:induction false} ExtraAlways(schedule: seq<Action>)
    ensures Inv(Exec(INIT, schedule)) && Extra(Exec(INIT, schedule))
  {
    if schedule != [] {
      ExtraAlways(schedule[..|schedule| - 1]);
      StepKeepsExtra(Exec(INIT, schedule[..|schedule| - 1]), schedule[|schedule| - 1]);
    }
  }

  // ---------------------------------------------------------------- emptying the registered transfers

  /** Reachable from s, with the lock free and nobody updating, and task t alive and replaced. */
  ghost predicate Quiet(s: State, m: State, t: nat) {
    && Reaches(s, m) && Inv(m) && Extra(m) && m.holder.None? && !m.flag && Live(m, t) && t in m.overwritten
  }

  /** Task x takes its last block. */
  function LastBlock(m: State, x: nat, e: Name): State
    requires e in m.transfers
  {
    SetTask(SetTerminal(m, e, true), x, Closing)
  }

  lemma FinishBlocks(s: State, m: State, t: nat, x: nat, e: Name) returns (n: State)
    requires Quiet(s, m, t) && Working(m, x, e) && e in m.transfers
    ensures n == LastBlock(m, x, e) && Quiet(s, n, t)
  {
    n := m;
    if m.tasks[x].Spawned? {
      Runs.ReachesStep(Step, s, m, Begin(x));
      StepKeepsExtra(m, Begin(x));
      n := Step(m, Begin(x));
    }
    Runs.ReachesStep(Step, s, n, Reply(x, true));
    StepKeepsExtra(n, Reply(x, true));
    LastBlockReached(m, n, x, e);
    n := Step(n, Reply(x, true));
  }

  lemma LastBlockReached(m: State, n: State, x: nat, e: Name)
    requires Working(m, x, e) && e in m.transfers && m.holder.None?
    requires n == if m.tasks[x].Spawned? then Step(m, Begin(x)) else m
    ensures Step(n, Reply(x, true)) == LastBlock(m, x, e)
  {
    var done := Step(n, Reply(x, true));
    assert done.tasks == m.tasks[x := Closing];
    assert done.transfers == m.transfers[e := m.transfers[e].(terminal := true)];
  }

  /** The entry is terminal and its owner needs the lock no more. */
  predicate Exitable(m: State, e: Name) {
    e in m.transfers && m.transfers[e].terminal && PastLastLock(m, m.transfers[e].owner)
  }

  lemma MakeExitable(s: State, m: State, t: nat, e: Name) returns (n: State)
    requires Quiet(s, m, t) && e in m.transfers
    ensures Quiet(s, n, t) && Exitable(n, e) && n.transfers.Keys == m.transfers.Keys
  {
    n := m;
    var u := m.transfers[e].owner;
    if !PastLastLock(m, u) {
      assert Working(m, u, e);
      n := FinishBlocks(s, m, t, u, e);
    } else if !m.transfers[e].terminal {
      var x :| Working(m, x, e);
      n := FinishBlocks(s, m, t, x, e);
    }
  }

  lemma ExitEntry(s: State, m: State, t: nat, e: Name) returns (n: State)
    requires Quiet(s, m, t) && Exitable(m, e)
    ensures Quiet(s, n, t) && n.transfers == m.transfers - {e}
  {
    var u := m.transfers[e].owner;
    assert Owns(m, u) && u != t;
    n := m;
    if m.tasks[u].Closing? {
      Runs.ReachesStep(Step, s, n, Return(u));
      StepKeepsExtra(n, Return(u));
      n := Step(n, Return(u));
    }
    n := LeaveEnded(s, n, t, e);
  }

  lemma LeaveEnded(s: State, m: State, t: nat, e: Name) returns (n: State)
    requires Quiet(s, m, t) && e in m.transfers && m.transfers[e].terminal
    requires m.transfers[e].owner in m.tasks && m.tasks[m.transfers[e].owner].Ended?
    ensures Quiet(s, n, t) && n.transfers == m.transfers - {e}
  {
    Runs.ReachesStep(Step, s, m, Exit(e));
    StepKeepsExtra(m, Exit(e));
    var left := Step(m, Exit(e));
    Runs.ReachesStep(Step, s, left, ExitDone);
    StepKeepsExtra(left, ExitDone);
    ExitEffect(m, e);
    n := Step(left, ExitDone);
  }

  lemma ExitEffect(m: State, e: Name)
    requires m.holder.None? && e in m.transfers && m.transfers[e].terminal
    requires m.transfers[e].owner in m.tasks && m.tasks[m.transfers[e].owner].Ended?
    ensures Step(Step(m, Exit(e)), ExitDone) == m.(transfers := m.transfers - {e})
  {
  }

  lemma {:induction false} ExitAll(s: State, m: State, t: nat) returns (n: State)
    requires Quiet(s, m, t)
    ensures Quiet(s, n, t) && n.transfers == map[]
    decreases |m.transfers|
  {
    if m.transfers == map[] {
      n := m;
    } else {
      var e :| e in m.transfers;
      n := MakeExitable(s, m, t, e);
      n := ExitEntry(s, n, t, e);
      assert n.transfers.Keys == m.transfers.Keys - {e};
      assert |n.transfers.Keys| < |m.transfers.Keys|;
      n := ExitAll(s, n, t);
    }
  }

  lemma LowerFlag(s: State, t: nat) returns (m: State)
    requires Inv(s) && Extra(s) && s.holder.None? && Live(s, t) && t in s.overwritten
    ensures Quiet(s, m, t)
  {
    Runs.ReachesItself<State, Action>(Step, s);
    m := s;
    if s.flag {
      var u :| u in s.updates;
      Runs.ReachesStep(Step, s, s, Lower(u));
      StepKeepsExtra(s, Lower(u));
      m := Step(s, Lower(u));
    }
  }

  /** From every reachable state with the lock free and a live task whose entry was replaced, a state is
      reachable in which an update is applied while that task is still alive. */
  lemma ReplacedTaskMeetsUpdate(schedule: seq<Action>, t: nat)
    requires var s := Exec(INIT, schedule); s.holder.None? && Live(s, t) && t in s.overwritten
    ensures exists n :: Reaches(Exec(INIT, schedule), n) && IsApplying(n) && Live(n, t)
  {
    ExtraAlways(schedule);
    var s := Exec(INIT, schedule);
    var n := LowerFlag(s, t);
    n := ExitAll(s, n, t);
    ApplyUpdate(s, n, t);
  }

  lemma ApplyUpdate(s: State, m: State, t: nat)
    requires Reaches(s, m) && m.holder.None? && m.transfers == map[] && !m.flag && Live(m, t)
    ensures exists n :: Reaches(s, n) && IsApplying(n) && Live(n, t)
  {
    Runs.ReachesStep(Step, s, m, Raise(0));
    var raised := Step(m, Raise(0));
    Runs.ReachesStep(Step, s, raised, Observe(0));
    var n := Step(raised, Observe(0));
    assert 0 in n.updates && n.updates[0] == Applying;
    assert IsApplying(n) && Live(n, t);
  }
}
