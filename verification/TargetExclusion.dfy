/** Requests and the gateway tasks they leave behind, per lock key and under every schedule: the request
    semaphores together with the engine's handling of its task handles. `strict` is a policy the source
    does not have: a call gives up a task only once it has finished. */
module TargetExclusion {
  import opened Bytes
  import Sem = RequestSemaphores
  import AttemptIsolation
  import Runs

  /** Where a call holding its permit stands between two transmissions. */
  datatype Phase = Top | Awaiting(since: nat) | Ready

  datatype Call = Call(phase: Phase, handle: Option<nat>)

  datatype Task = Task(owner: nat, key: string, live: bool)

  datatype State = State(
    strict: bool, sems: Sem.State, calls: map<nat, Call>, tasks: map<nat, Task>, next: nat, clock: nat)

  function Init(strict: bool): State { State(strict, Sem.INIT, map[], map[], 0, 0) }

  datatype Action =
    | Semaphore(action: Sem.Action)   // releasing: the call has left its loop
    | Begin(id: nat)                  // top of the send loop: await the previous task, if any
    | Teardown(id: nat)               // it finished, or the grace elapsed
    | Send(id: nat)                   // accepted: a task of its own
    | Refused(id: nat)                // not accepted: retry, or leave the loop
    | Finish(task: nat)
    | Tick(d: nat)

  function CallOf(s: State, id: nat): Call { if id in s.calls then s.calls[id] else Call(Top, None) }

  predicate Live(s: State, t: nat) { t in s.tasks && s.tasks[t].live }

  predicate Keeps(s: State, id: nat, t: nat) { Sem.InPhase(s.sems, id, Sem.Holding) && CallOf(s, id).handle == Some(t) }

  /** The call may give up its task. */
  predicate MayLeave(s: State, id: nat) {
    s.strict && CallOf(s, id).handle.Some? ==> !Live(s, CallOf(s, id).handle.value)
  }

  function SetCall(s: State, id: nat, c: Call): State { s.(calls := s.calls[id := c]) }

  function Step(s: State, a: Action): State {
    match a
    case Semaphore(action) =>
      if action.Release? && !(CallOf(s, action.id).phase.Top? && MayLeave(s, action.id)) then s
      else s.(sems := Sem.Step(s.sems, action))
    case Begin(id) =>
      if !Sem.InPhase(s.sems, id, Sem.Holding) || !CallOf(s, id).phase.Top? then s
      else if CallOf(s, id).handle.None? then SetCall(s, id, Call(Ready, None))
      else SetCall(s, id, Call(Awaiting(s.clock), CallOf(s, id).handle))
    case Teardown(id) =>
      var c := CallOf(s, id);
      if !Sem.InPhase(s.sems, id, Sem.Holding) || !c.phase.Awaiting? || c.handle.None? then s
      else if
        || !Live(s, c.handle.value)
        || (!s.strict && s.clock >= c.phase.since + AttemptIsolation.RETRY_TEARDOWN_GRACE)
      then SetCall(s, id, Call(Ready, None))
      else s
    case Send(id) =>
      if !Sem.InPhase(s.sems, id, Sem.Holding) || !CallOf(s, id).phase.Ready? then s
      else SetCall(s, id, Call(Top, Some(s.next))).(
             tasks := s.tasks[s.next := Task(id, s.sems.requests[id].key, true)], next := s.next + 1)
    case Refused(id) =>
      if !Sem.InPhase(s.sems, id, Sem.Holding) || !CallOf(s, id).phase.Ready? then s
      else SetCall(s, id, Call(Top, None))
    case Finish(t) => if t in s.tasks then s.(tasks := s.tasks[t := s.tasks[t].(live := false)]) else s
    case Tick(d) => s.(clock := s.clock + d)
  }

  function Exec(strict: bool, schedule: seq<Action>): State { Runs.Exec(Step, Init(strict), schedule) }

  /** A live task that no call waits for or will wait for. */
  predicate Abandoned(s: State, t: nat) { Live(s, t) && !Keeps(s, s.tasks[t].owner, t) }

  ghost predicate CallInv(s: State) {
    && (forall t :: t in s.tasks ==>
          t < s.next && s.tasks[t].owner in s.sems.requests && s.tasks[t].key == s.sems.requests[s.tasks[t].owner].key)
    && (forall id :: id in s.calls ==>
          && (s.calls[id].phase.Ready? ==> s.calls[id].handle.None?)
          && (s.calls[id].phase.Awaiting? ==> s.calls[id].handle.Some?)
          && (s.calls[id].handle.Some? ==>
                s.calls[id].handle.value in s.tasks && s.tasks[s.calls[id].handle.value].owner == id))
  }

  ghost predicate Inv(s: State) {
    && Sem.TableInv(s.sems) && Sem.PermitInv(s.sems)
    && CallInv(s)
    && (s.strict ==> forall t :: !Abandoned(s, t))
  }

  lemma SemaphoreKeepsRequests(s: Sem.State, a: Sem.Action)
    ensures forall id :: id in s.requests ==>
              id in Sem.Step(s, a).requests && Sem.Step(s, a).requests[id].key == s.requests[id].key
    ensures forall id :: Sem.InPhase(s, id, Sem.Holding) && a != Sem.Release(id) ==>
              Sem.InPhase(Sem.Step(s, a), id, Sem.Holding)
  {
  }

  lemma StepKeepsCalls(s: State, a: Action)
    requires CallInv(s)
    ensures CallInv(Step(s, a))
  {
    if a.Semaphore? { SemaphoreKeepsRequests(s.sems, a.action); }
  }

  lemma StrictAbandonsNone(s: State, a: Action)
    requires CallInv(s) && s.strict && forall t :: !Abandoned(s, t)
    ensures forall t :: !Abandoned(Step(s, a), t)
  {
    var n := Step(s, a);
    if a.Semaphore? { SemaphoreKeepsRequests(s.sems, a.action); }
    forall t ensures !Abandoned(n, t) {
      if t in s.tasks { assert !Abandoned(s, t); }
    }
  }

  lemma StepKeepsInv(s: State, a: Action)
    requires Inv(s)
    ensures Inv(Step(s, a)) && Step(s, a).strict == s.strict
  {
    StepKeepsCalls(s, a);
    if s.strict { StrictAbandonsNone(s, a); }
    if a.Semaphore? {
      Sem.StepKeepsTable(s.sems, a.action);
      Sem.StepKeepsPermits(s.sems, a.action);
    }
  }

  lemma {:induction false} Always(strict: bool, schedule: seq<Action>)
    ensures Inv(Exec(strict, schedule)) && Exec(strict, schedule).strict == strict
  {
    if schedule != [] {
      Always(strict, schedule[..|schedule| - 1]);
      StepKeepsInv(Exec(strict, schedule[..|schedule| - 1]), schedule[|schedule| - 1]);
    }
  }

  /** Two live tasks for one target. */
  predicate Overlap(s: State, t: nat, u: nat) { Live(s, t) && Live(s, u) && t != u && s.tasks[t].key == s.tasks[u].key }

  /** The permit keeps apart what calls still keep: of two live tasks for one target, one was abandoned. */
  lemma OverlapNeedsAbandoned(strict: bool, schedule: seq<Action>, t: nat, u: nat)
    requires Overlap(Exec(strict, schedule), t, u)
    ensures Abandoned(Exec(strict, schedule), t) || Abandoned(Exec(strict, schedule), u)
  {
    Always(strict, schedule);
    var s := Exec(strict, schedule);
    if !Abandoned(s, t) && !Abandoned(s, u) {
      Sem.OneHolder(s.sems, s.tasks[t].owner, s.tasks[u].owner);
    }
  }

  /** If calls gave up only finished tasks, no two live tasks would ever share a target. */
  lemma StrictNeverOverlaps(schedule: seq<Action>, t: nat, u: nat)
    ensures !Overlap(Exec(true, schedule), t, u)
  {
    Always(true, schedule);
    if Overlap(Exec(true, schedule), t, u) { OverlapNeedsAbandoned(true, schedule, t, u); }
  }

  ghost predicate Reaches(s: State, t: State) { Runs.Reaches(Step, s, t) }

  /** Once a task is abandoned nothing keeps the next one for its target away from it: from every
      reachable state with an abandoned task, two live tasks for its target are reachable. */
  lemma AbandonedCanOverlap(strict: bool, schedule: seq<Action>, t: nat)
    requires Abandoned(Exec(strict, schedule), t)
    ensures exists n, u :: Reaches(Exec(strict, schedule), n) && Overlap(n, t, u)
  {
    Always(strict, schedule);
    var s := Exec(strict, schedule);
    Runs.ReachesItself<State, Action>(Step, s);
    var m, id := FindHolder(s, t);
    var n := DriveToReady(s, m, id, t);
    Runs.ReachesStep(Step, s, n, Send(id));
    assert Overlap(Step(n, Send(id)), t, n.next);
  }

  /** The task is live and no business of this call, which holds the permit of its target. */
  predicate Beside(s: State, id: nat, t: nat) {
    && Live(s, t) && Sem.InPhase(s.sems, id, Sem.Holding)
    && s.sems.requests[id].key == s.tasks[t].key && CallOf(s, id).handle != Some(t)
  }

  /** Some call holds the permit, or a new one can take it. */
  lemma FindHolder(s: State, t: nat) returns (m: State, id: nat)
    requires Inv(s) && Abandoned(s, t)
    ensures Reaches(s, m) && Inv(m) && Beside(m, id, t)
  {
    Runs.ReachesItself<State, Action>(Step, s);
    if r :| Sem.InPhase(s.sems, r, Sem.Holding) && s.sems.requests[r].key == s.tasks[t].key {
      m, id := s, r;
    } else {
      id := Unused(s.sems.requests.Keys + s.calls.Keys);
      var fetch, acquire := Semaphore(Sem.Fetch(id, s.tasks[t].key)), Semaphore(Sem.Acquire(id));
      Runs.ReachesStep(Step, s, s, fetch);
      StepKeepsInv(s, fetch);
      m := Step(s, fetch);
      Runs.ReachesStep(Step, s, m, acquire);
      StepKeepsInv(m, acquire);
      NewcomerHolds(s, t, id);
      m := Step(m, acquire);
    }
  }

  lemma NewcomerHolds(s: State, t: nat, id: nat)
    requires Inv(s) && Live(s, t) && id !in s.sems.requests && id !in s.calls
    requires forall r :: Sem.InPhase(s.sems, r, Sem.Holding) ==> s.sems.requests[r].key != s.tasks[t].key
    ensures var m := Step(s, Semaphore(Sem.Fetch(id, s.tasks[t].key)));
            Beside(Step(m, Semaphore(Sem.Acquire(id))), id, t)
  {
    var fetch := Sem.Fetch(id, s.tasks[t].key);
    Sem.StepKeepsTable(s.sems, fetch);
    Sem.StepKeepsPermits(s.sems, fetch);
    PermitIsFree(s.sems, Sem.Step(s.sems, fetch), id, s.tasks[t].key);
  }

  lemma PermitIsFree(s: Sem.State, f: Sem.State, id: nat, key: string)
    requires Sem.TableInv(s) && Sem.PermitInv(s) && Sem.PermitInv(f) && Sem.TableInv(f)
    requires id !in s.requests && f == Sem.Step(s, Sem.Fetch(id, key))
    requires forall r :: Sem.InPhase(s, r, Sem.Holding) ==> s.requests[r].key != key
    ensures Sem.InPhase(f, id, Sem.Waiting) && Sem.Free(f, f.requests[id].semaphore) == 1
  {
    var sem := f.requests[id].semaphore;
    assert Sem.OnePermit(f, sem);
    forall r ensures !Sem.Holds(f, r, sem) {
      if r in s.requests && r != id { assert f.requests[r] == s.requests[r]; }
    }
  }

  /** A number outside a finite set. */
  lemma {:induction false} Unused(ids: set<nat>) returns (n: nat)
    ensures n !in ids && forall i :: i in ids ==> i < n
  {
    if ids == {} {
      n := 0;
    } else {
      var i :| i in ids;
      var m := Unused(ids - {i});
      n := if i < m then m else i + 1;
      forall k | k in ids ensures k < n {
        if k != i { assert k in ids - {i}; }
      }
    }
  }

  /** The call can come to its next transmission; the task it waits for finishes. */
  lemma DriveToReady(s: State, m: State, id: nat, t: nat) returns (n: State)
    requires Reaches(s, m) && Inv(m) && Beside(m, id, t)
    ensures Reaches(s, n) && Inv(n) && Beside(n, id, t) && CallOf(n, id).phase.Ready?
  {
    n := m;
    if CallOf(m, id).phase.Top? {
      BeginLeavesTop(m, id);
      n := Next(s, m, Begin(id), id, t);
    }
    if CallOf(n, id).phase.Awaiting? { n := AwaitTask(s, n, id, t); }
  }

  lemma BeginLeavesTop(m: State, id: nat)
    requires Sem.InPhase(m.sems, id, Sem.Holding) && CallOf(m, id).phase.Top?
    ensures !CallOf(Step(m, Begin(id)), id).phase.Top?
  {
  }

  lemma AwaitTask(s: State, m: State, id: nat, t: nat) returns (n: State)
    requires Reaches(s, m) && Inv(m) && Beside(m, id, t) && CallOf(m, id).phase.Awaiting?
    ensures Reaches(s, n) && Inv(n) && Beside(n, id, t) && CallOf(n, id).phase.Ready?
  {
    var h := HandleOf(m, id);
    TeardownAfterFinish(m, id, h);
    n := Next(s, m, Finish(h), id, t);
    n := Next(s, n, Teardown(id), id, t);
  }

  lemma HandleOf(m: State, id: nat) returns (h: nat)
    requires CallInv(m) && CallOf(m, id).phase.Awaiting?
    ensures CallOf(m, id).handle == Some(h) && h in m.tasks
  {
    h := m.calls[id].handle.value;
  }

  lemma TeardownAfterFinish(m: State, id: nat, h: nat)
    requires Sem.InPhase(m.sems, id, Sem.Holding) && CallOf(m, id).phase.Awaiting?
    requires CallOf(m, id).handle == Some(h) && h in m.tasks
    ensures CallOf(Step(Step(m, Finish(h)), Teardown(id)), id).phase.Ready?
  {
  }

  /** A step of this call, or of the task it waits for, leaves the other task alone. */
  lemma Next(s: State, m: State, a: Action, id: nat, t: nat) returns (n: State)
    requires Reaches(s, m) && Inv(m) && Beside(m, id, t)
    requires a == Begin(id) || a == Teardown(id) || (a.Finish? && CallOf(m, id).handle == Some(a.task))
    ensures n == Step(m, a) && Reaches(s, n) && Inv(n) && Beside(n, id, t)
  {
    Runs.ReachesStep(Step, s, m, a);
    StepKeepsInv(m, a);
    n := Step(m, a);
    StillBeside(m, a, id, t);
  }

  lemma StillBeside(m: State, a: Action, id: nat, t: nat)
    requires Beside(m, id, t)
    requires a == Begin(id) || a == Teardown(id) || (a.Finish? && CallOf(m, id).handle == Some(a.task))
    ensures Beside(Step(m, a), id, t)
  {
  }

  // ---------------------------------------------------------------- a run of the source

  /** The first call leaves with its task still running; the second transmits beside it. */
  lemma CallsCanOverlap()
    ensures exists schedule :: exists t: nat, u: nat :: Overlap(Exec(false, schedule), t, u)
  {
    var s := LeftBehind();
    var before :| Runs.Exec(Step, Init(false), before) == s;
    AbandonedCanOverlap(false, before, 0);
    var n, u :| Reaches(s, n) && Overlap(n, 0, u);
    var more :| Runs.Exec(Step, s, more) == n;
    Runs.ExecConcat(Step, Init(false), before, more);
    assert Overlap(Exec(false, before + more), 0, u);
  }

  lemma LeftBehind() returns (s: State)
    ensures Reaches(Init(false), s) && Abandoned(s, 0)
  {
    s := Holding();
    Runs.ReachesStep(Step, Init(false), s, Begin(0));
    s := Step(s, Begin(0));
    Runs.ReachesStep(Step, Init(false), s, Send(0));
    s := Step(s, Send(0));
    Runs.ReachesStep(Step, Init(false), s, Semaphore(Sem.Release(0)));
    s := Step(s, Semaphore(Sem.Release(0)));
  }

  lemma Holding() returns (s: State)
    ensures Reaches(Init(false), s) && Sem.InPhase(s.sems, 0, Sem.Holding)
    ensures s.calls == map[] && s.tasks == map[] && s.next == 0 && !s.strict
    ensures s.sems.requests[0].semaphore == 0 && |s.sems.permits| == 1
  {
    s := Init(false);
    Runs.ReachesItself<State, Action>(Step, s);
    Runs.ReachesStep(Step, Init(false), s, Semaphore(Sem.Fetch(0, "k")));
    s := Step(s, Semaphore(Sem.Fetch(0, "k")));
    Runs.ReachesStep(Step, Init(false), s, Semaphore(Sem.Acquire(0)));
    s := Step(s, Semaphore(Sem.Acquire(0)));
  }
}
