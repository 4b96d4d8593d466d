/** The variant-detection slot of one handle (`begin_detection`, `claim_detection`): a trigger
    generation, a lock, and any number of triggers under every interleaving. */
module DetectionSlot {
  import opened Bytes
  import Runs

  const TWO64: nat := 0x1_0000_0000_0000_0000

  datatype Trigger = Forced | IfNeeded

  /** Waiting: generation bumped, lock not yet held. Holding: lock held, generation not yet compared.
      Granted: still the newest, state not yet inspected. Running: the detection itself. */
  datatype Phase = Waiting | Holding | Granted | Running | Skipped | Finished

  datatype Task = Task(ecu: Name, trigger: Trigger, phase: Phase)

  /** Triggers are numbered in the order of their fetch_add; number n carries generation n mod 2^64.
      `grants` and `runs` list trigger numbers in the order they won the slot and started to run. */
  datatype Slot = Slot(issued: nat, lock: Option<nat>, tasks: map<nat, Task>, grants: seq<nat>, runs: seq<nat>)

  const IDLE := Slot(0, None, map[], [], [])

  datatype Action =
    | Arrive(ecu: Name, trigger: Trigger)
    | Acquire(n: nat)
    | Compare(n: nat)
    | Inspect(n: nat, needed: bool)
    | Finish(n: nat)

  function Generation(n: nat): nat { n % TWO64 }

  predicate InPhase(s: Slot, n: nat, p: Phase) { n in s.tasks && s.tasks[n].phase == p }

  function SetPhase(s: Slot, n: nat, p: Phase): Slot
    requires n in s.tasks
  {
    s.(tasks := s.tasks[n := s.tasks[n].(phase := p)])
  }

  function Step(s: Slot, a: Action): (t: Slot) {
    match a
    case Arrive(ecu, trigger) =>
      s.(issued := s.issued + 1, tasks := s.tasks[s.issued + 1 := Task(ecu, trigger, Waiting)])
    case Acquire(n) =>
      if InPhase(s, n, Waiting) && s.lock.None? then SetPhase(s, n, Holding).(lock := Some(n)) else s
    case Compare(n) =>
      if !InPhase(s, n, Holding) then s
      else if Generation(s.issued) == Generation(n)
      then SetPhase(s, n, Granted).(grants := s.grants + [n])
      else SetPhase(s, n, Skipped).(lock := None)
    case Inspect(n, needed) =>
      if !InPhase(s, n, Granted) then s
      else if s.tasks[n].trigger == IfNeeded && !needed
      then SetPhase(s, n, Skipped).(lock := None)
      else SetPhase(s, n, Running).(runs := s.runs + [n])
    case Finish(n) =>
      if InPhase(s, n, Running) then SetPhase(s, n, Finished).(lock := None) else s
  }

  function Exec(s: Slot, schedule: seq<Action>): (t: Slot) { Runs.Exec(Step, s, schedule) }

  predicate Holds(p: Phase) { p.Holding? || p.Granted? || p.Running? }

  predicate Pending(p: Phase) { p.Waiting? || p.Holding? }

  predicate Increasing(s: seq<nat>) { forall i, j :: 0 <= i < j < |s| ==> s[i] < s[j] }

  /** Facts that need no bound on the number of triggers. */
  ghost predicate Inv(s: Slot) {
    && (forall n :: n in s.tasks <==> 1 <= n <= s.issued)
    && (forall n :: n in s.tasks ==> (Holds(s.tasks[n].phase) <==> s.lock == Some(n)))
    && (s.lock.Some? ==> s.lock.value in s.tasks)
    && (forall g :: g in s.grants ==> g in s.tasks && !Pending(s.tasks[g].phase))
    && (forall n :: n in s.runs ==> n in s.grants)
    && (forall n :: n in s.tasks && s.tasks[n].phase.Granted? ==> n in s.grants && n !in s.runs)
  }

  /** Facts about the newest trigger, as long as the generation has not wrapped. */
  ghost predicate NewestInv(s: Slot) {
    && Increasing(s.grants)
    && (s.issued > 0 ==> s.issued in s.tasks && (Pending(s.tasks[s.issued].phase) || s.issued in s.grants))
  }

  lemma StepKeepsInv(s: Slot, a: Action)
    requires Inv(s)
    ensures Inv(Step(s, a))
  {
    if a.Arrive? { ArriveKeepsInv(s, a); }
    if a.Compare? { CompareKeepsInv(s, a.n); }
    if a.Inspect? { InspectKeepsInv(s, a.n, a.needed); }
  }

  lemma CompareKeepsInv(s: Slot, n: nat)
    requires Inv(s)
    ensures Inv(Step(s, Compare(n)))
  {
  }

  lemma InspectKeepsInv(s: Slot, n: nat, needed: bool)
    requires Inv(s)
    ensures Inv(Step(s, Inspect(n, needed)))
  {
  }

  lemma ArriveKeepsInv(s: Slot, a: Action)
    requires Inv(s) && a.Arrive?
    ensures Inv(Step(s, a))
  {
  }

  lemma StepKeepsNewest(s: Slot, a: Action)
    requires Inv(s) && NewestInv(s) && s.issued < TWO64
    ensures Inv(Step(s, a)) && NewestInv(Step(s, a))
  {
    StepKeepsInv(s, a);
    if a.Compare? && InPhase(s, a.n, Holding) {
      assert Generation(s.issued) == s.issued && Generation(a.n) == a.n;
      CompareKeepsNewest(s, a.n);
    }
  }

  /** A comparison that grants exactly the newest trigger keeps the grants increasing. */
  lemma CompareKeepsNewest(s: Slot, n: nat)
    requires Inv(s) && NewestInv(s) && InPhase(s, n, Holding)
    requires Generation(s.issued) == Generation(n) <==> n == s.issued
    ensures NewestInv(Step(s, Compare(n)))
  {
    var t := Step(s, Compare(n));
    if n == s.issued {
      forall i | 0 <= i < |s.grants| ensures s.grants[i] < n {
        assert s.grants[i] in s.grants;
      }
      assert t.grants[|s.grants|] == s.issued;
    }
    assert forall g :: g in s.grants ==> g in t.grants;
  }

  lemma StepIssues(s: Slot, a: Action)
    ensures s.issued <= Step(s, a).issued
  {
  }

  lemma {:induction false} Always(schedule: seq<Action>)
    ensures Inv(Exec(IDLE, schedule))
    ensures Exec(IDLE, schedule).issued <= TWO64 ==> NewestInv(Exec(IDLE, schedule))
  {
    if schedule != [] {
      var prefix, a := schedule[..|schedule| - 1], schedule[|schedule| - 1];
      Always(prefix);
      var s := Exec(IDLE, prefix);
      StepIssues(s, a);
      StepKeepsInv(s, a);
      if s.issued < TWO64 {
        StepKeepsNewest(s, a);
      } else if s.issued == TWO64 && !a.Arrive? && a.Compare? && InPhase(s, a.n, Holding) {
        FullTurn(s, a.n);
      }
    }
  }

  /** At exactly 2^64 triggers the numbers 1 .. 2^64 still have distinct generations. */
  lemma FullTurn(s: Slot, n: nat)
    requires Inv(s) && NewestInv(s) && s.issued == TWO64 && InPhase(s, n, Holding)
    ensures NewestInv(Step(s, Compare(n)))
  {
    assert Generation(n) == Generation(s.issued) <==> n == s.issued;
    CompareKeepsNewest(s, n);
  }

  // ---------------------------------------------------------------- theorems over every schedule

  /** No two triggers hold the slot. */
  lemma MutualExclusion(schedule: seq<Action>, m: nat, n: nat)
    requires var s := Exec(IDLE, schedule);
             m in s.tasks && n in s.tasks && Holds(s.tasks[m].phase) && Holds(s.tasks[n].phase)
    ensures m == n
  {
    Always(schedule);
  }

  /** The slot is granted in trigger order, and once nobody waits for it the newest trigger had it. */
  lemma GrantsFollowTriggers(schedule: seq<Action>)
    requires Exec(IDLE, schedule).issued <= TWO64
    ensures var s := Exec(IDLE, schedule);
            && Increasing(s.grants)
            && (s.issued > 0 && (forall n :: n in s.tasks ==> !Pending(s.tasks[n].phase)) ==>
                  s.grants != [] && s.grants[|s.grants| - 1] == s.issued)
  {
    Always(schedule);
    var s := Exec(IDLE, schedule);
    if s.issued > 0 && s.issued in s.grants {
      var i :| 0 <= i < |s.grants| && s.grants[i] == s.issued;
      assert s.grants[|s.grants| - 1] in s.grants;
    }
  }

  /** Burst bound: without a new trigger at most one further grant follows, and it is the newest's. */
  lemma {:induction false} Coalesced(past: seq<Action>, quiet: seq<Action>)
    requires forall a :: a in quiet ==> !a.Arrive?
    requires Exec(IDLE, past).issued < TWO64
    ensures var s, t := Exec(IDLE, past), Exec(Exec(IDLE, past), quiet);
            && Inv(t) && NewestInv(t)
            && t.issued == s.issued
            && (t.grants == s.grants || t.grants == s.grants + [s.issued])
  {
    Always(past);
    if quiet != [] {
      var prefix, a := quiet[..|quiet| - 1], quiet[|quiet| - 1];
      assert forall b :: b in prefix ==> b in quiet;
      assert a in quiet;
      Coalesced(past, prefix);
      QuietStep(Exec(IDLE, past), Exec(Exec(IDLE, past), prefix), a);
    }
  }

  lemma QuietStep(s: Slot, t: Slot, a: Action)
    requires !a.Arrive? && Inv(t) && NewestInv(t) && t.issued == s.issued < TWO64
    requires t.grants == s.grants || t.grants == s.grants + [s.issued]
    ensures var u := Step(t, a);
            && Inv(u) && NewestInv(u) && u.issued == s.issued
            && (u.grants == s.grants || u.grants == s.grants + [s.issued])
  {
    StepKeepsNewest(t, a);
    if a.Compare? && InPhase(t, a.n, Holding) {
      assert Generation(t.issued) == t.issued && Generation(a.n) == a.n;
      assert t.grants == s.grants + [s.issued] ==> t.grants[|s.grants|] in t.grants;
    }
  }

  // ---------------------------------------------------------------- who actually runs

  /** Number of triggers in a schedule. */
  function Arrivals(schedule: seq<Action>): nat {
    if schedule == [] then 0
    else Arrivals(schedule[..|schedule| - 1]) + (if schedule[|schedule| - 1].Arrive? then 1 else 0)
  }

  /** Position a is where trigger n arrives. */
  predicate ArrivesAt(schedule: seq<Action>, n: nat, a: nat) {
    a < |schedule| && schedule[a].Arrive? && Arrivals(schedule[..a]) == n - 1
  }

  /** At position c trigger n, holding the lock, compares generations. */
  predicate ComparesAt(schedule: seq<Action>, n: nat, c: nat) {
    c < |schedule| && schedule[c] == Compare(n) && InPhase(Exec(IDLE, schedule[..c]), n, Holding)
  }

  /** At position i trigger n, granted the slot, finds that no detection is needed. */
  predicate NotNeededAt(schedule: seq<Action>, n: nat, i: nat) {
    i < |schedule| && schedule[i] == Inspect(n, false) && InPhase(Exec(IDLE, schedule[..i]), n, Granted)
  }

  lemma {:induction false} IssuedCountsArrivals(schedule: seq<Action>)
    ensures Exec(IDLE, schedule).issued == Arrivals(schedule)
  {
    if schedule != [] {
      IssuedCountsArrivals(schedule[..|schedule| - 1]);
    }
  }

  lemma {:induction false} ArrivalsBetween(schedule: seq<Action>, i: nat, j: nat)
    requires i <= j <= |schedule|
    ensures Arrivals(schedule[..i]) <= Arrivals(schedule[..j])
    ensures Arrivals(schedule[..i]) == Arrivals(schedule[..j]) <==> forall k :: i <= k < j ==> !schedule[k].Arrive?
  {
    if i < j {
      ArrivalsBetween(schedule, i, j - 1);
      assert schedule[..j][..j - 1] == schedule[..j - 1];
    }
  }

  /** The runs are the triggers that got past their inspection. */
  ghost predicate RunsInv(s: Slot) {
    && (forall n :: n in s.tasks ==> (n in s.runs <==> s.tasks[n].phase.Running? || s.tasks[n].phase.Finished?))
    && (forall n :: n in s.runs ==> n in s.tasks)
  }

  lemma {:induction false} RunsAlways(schedule: seq<Action>)
    ensures RunsInv(Exec(IDLE, schedule))
  {
    if schedule != [] {
      var s, a := Exec(IDLE, schedule[..|schedule| - 1]), schedule[|schedule| - 1];
      RunsAlways(schedule[..|schedule| - 1]);
      Always(schedule[..|schedule| - 1]);
      StepKeepsRuns(s, a);
    }
  }

  lemma StepKeepsRuns(s: Slot, a: Action)
    requires Inv(s) && RunsInv(s)
    ensures RunsInv(Step(s, a))
  {
    var t := Step(s, a);
    assert forall n :: n in t.runs <==> n in s.runs || (|t.runs| > |s.runs| && n == t.runs[|s.runs|]);
  }

  lemma InvHolds(schedule: seq<Action>)
    ensures Inv(Exec(IDLE, schedule))
  {
    Always(schedule);
  }

  /** A trigger is known from the step before, or has just arrived. */
  lemma TaskOrigin(s: Slot, a: Action, n: nat)
    requires Inv(s) && n in Step(s, a).tasks
    ensures var task := Step(s, a).tasks[n];
            if n in s.tasks then task.ecu == s.tasks[n].ecu && task.trigger == s.tasks[n].trigger
            else a == Arrive(task.ecu, task.trigger) && n == s.issued + 1
  {
  }

  lemma {:induction false} Arrived(schedule: seq<Action>, n: nat) returns (a: nat)
    requires n in Exec(IDLE, schedule).tasks
    ensures ArrivesAt(schedule, n, a)
    ensures var task := Exec(IDLE, schedule).tasks[n]; schedule[a] == Arrive(task.ecu, task.trigger)
  {
    var before := schedule[..|schedule| - 1];
    InvHolds(before);
    IssuedCountsArrivals(before);
    TaskOrigin(Exec(IDLE, before), schedule[|before|], n);
    if n in Exec(IDLE, before).tasks {
      a := Arrived(before, n);
      assert before[..a] == schedule[..a];
    } else {
      a := |before|;
    }
  }

  lemma {:induction false} Compared(schedule: seq<Action>, n: nat) returns (c: nat)
    requires var s := Exec(IDLE, schedule); n in s.tasks && !Pending(s.tasks[n].phase)
    ensures ComparesAt(schedule, n, c)
  {
    var before := schedule[..|schedule| - 1];
    var s := Exec(IDLE, before);
    Always(before);
    if n in s.tasks && !Pending(s.tasks[n].phase) {
      c := Compared(before, n);
      assert before[..c] == schedule[..c];
    } else {
      c := |before|;
    }
  }

  /** What becomes of a trigger after its comparison. */
  ghost predicate Fate(schedule: seq<Action>, n: nat, granted: bool) {
    var s := Exec(IDLE, schedule);
    && n in s.tasks && !Pending(s.tasks[n].phase)
    && (!granted ==> s.tasks[n].phase.Skipped?)
    && (granted && s.tasks[n].phase.Skipped? ==>
          s.tasks[n].trigger.IfNeeded? && exists i: nat :: NotNeededAt(schedule, n, i))
  }

  lemma {:induction false} FateAfterCompare(schedule: seq<Action>, n: nat, c: nat)
    requires ComparesAt(schedule, n, c) && Arrivals(schedule) <= TWO64
    ensures Fate(schedule, n, Arrivals(schedule[..c]) == n)
  {
    var before, last := schedule[..|schedule| - 1], schedule[|schedule| - 1];
    var s := Exec(IDLE, before);
    Always(before);
    IssuedCountsArrivals(before);
    if c == |before| {
      assert before == schedule[..c];
      assert n <= s.issued <= TWO64;
      assert Generation(s.issued) == Generation(n) <==> s.issued == n;
    } else {
      assert before[..c] == schedule[..c];
      FateAfterCompare(before, n, c);
      FateStep(schedule, n, Arrivals(schedule[..c]) == n);
    }
  }

  lemma FateStep(schedule: seq<Action>, n: nat, granted: bool)
    requires schedule != [] && Fate(schedule[..|schedule| - 1], n, granted)
    ensures Fate(schedule, n, granted)
  {
    var before, last := schedule[..|schedule| - 1], schedule[|schedule| - 1];
    var s, t := Exec(IDLE, before), Exec(IDLE, schedule);
    Always(before);
    PhaseStep(s, last, n);
    if granted && t.tasks[n].phase.Skipped? {
      if s.tasks[n].phase.Skipped? {
        var i: nat :| NotNeededAt(before, n, i);
        assert before[..i] == schedule[..i];
        assert NotNeededAt(schedule, n, i);
      } else {
        assert NotNeededAt(schedule, n, |before|);
      }
    }
  }

  /** One step of a trigger that has compared. */
  lemma PhaseStep(s: Slot, a: Action, n: nat)
    requires Inv(s) && n in s.tasks && !Pending(s.tasks[n].phase)
    ensures var t := Step(s, a);
            && n in t.tasks && !Pending(t.tasks[n].phase) && t.tasks[n].trigger == s.tasks[n].trigger
            && (s.tasks[n].phase.Skipped? ==> t.tasks[n].phase.Skipped?)
            && (t.tasks[n].phase.Skipped? && !s.tasks[n].phase.Skipped? ==>
                  a == Inspect(n, false) && s.tasks[n].phase.Granted? && s.tasks[n].trigger.IfNeeded?)
  {
  }

  /** A forced trigger that is through with the slot ran exactly when no other trigger arrived between
      its own arrival and its comparison. */
  lemma ForcedRunsUnlessSuperseded(schedule: seq<Action>, n: nat)
    requires Arrivals(schedule) <= TWO64
    requires var s := Exec(IDLE, schedule);
             n in s.tasks && s.tasks[n].trigger.Forced? && !Pending(s.tasks[n].phase) && !s.tasks[n].phase.Granted?
    ensures exists a: nat, c: nat :: ArrivesAt(schedule, n, a) && ComparesAt(schedule, n, c)
    ensures forall a: nat, c: nat :: ArrivesAt(schedule, n, a) && ComparesAt(schedule, n, c) ==>
              a < c && (n in Exec(IDLE, schedule).runs <==> forall k :: a < k < c ==> !schedule[k].Arrive?)
  {
    var s := Exec(IDLE, schedule);
    RunsAlways(schedule);
    var a0 := Arrived(schedule, n);
    var c0 := Compared(schedule, n);
    forall a: nat, c: nat | ArrivesAt(schedule, n, a) && ComparesAt(schedule, n, c)
      ensures a < c && (n in s.runs <==> forall k :: a < k < c ==> !schedule[k].Arrive?)
    {
      FateAfterCompare(schedule, n, c);
      NewestAtCompare(schedule, n, a, c);
    }
  }

  lemma NewestAtCompare(schedule: seq<Action>, n: nat, a: nat, c: nat)
    requires ArrivesAt(schedule, n, a) && ComparesAt(schedule, n, c)
    ensures a < c
    ensures Arrivals(schedule[..c]) == n <==> forall k :: a < k < c ==> !schedule[k].Arrive?
  {
    Always(schedule[..c]);
    IssuedCountsArrivals(schedule[..c]);
    if c <= a { ArrivalsBetween(schedule, c, a); }
    assert schedule[..a + 1][..a] == schedule[..a];
    ArrivalsBetween(schedule, a + 1, c);
  }

  /** Once nobody is pending or undecided, the newest trigger has run, unless it was automatic and found
      nothing to do. */
  lemma NewestRunsUnlessObsolete(schedule: seq<Action>)
    requires 0 < Arrivals(schedule) <= TWO64 && Quiet(Exec(IDLE, schedule))
    ensures var s := Exec(IDLE, schedule);
            && s.issued in s.tasks
            && (s.issued in s.runs <==>
                  !(s.tasks[s.issued].trigger.IfNeeded? && exists i: nat :: NotNeededAt(schedule, s.issued, i)))
  {
    var s := Exec(IDLE, schedule);
    Always(schedule);
    RunsAlways(schedule);
    IssuedCountsArrivals(schedule);
    var c := Compared(schedule, s.issued);
    FateAfterCompare(schedule, s.issued, c);
    Always(schedule[..c]);
    IssuedCountsArrivals(schedule[..c]);
    ArrivalsBetween(schedule, c, |schedule|);
    assert schedule[..|schedule|] == schedule;
    if i: nat :| NotNeededAt(schedule, s.issued, i) {
      if s.tasks[s.issued].trigger.IfNeeded? { SkippedForGood(schedule, s.issued, i); }
    }
  }

  predicate Quiet(s: Slot) { forall n :: n in s.tasks ==> !Pending(s.tasks[n].phase) && !s.tasks[n].phase.Granted? }

  lemma {:induction false} SkippedForGood(schedule: seq<Action>, n: nat, i: nat)
    requires NotNeededAt(schedule, n, i)
    requires n in Exec(IDLE, schedule).tasks && Exec(IDLE, schedule).tasks[n].trigger.IfNeeded?
    ensures Exec(IDLE, schedule).tasks[n].phase.Skipped?
  {
    var before, last := schedule[..|schedule| - 1], schedule[|schedule| - 1];
    var s := Exec(IDLE, before);
    InvHolds(before);
    TaskOrigin(s, last, n);
    if i < |before| {
      assert before[..i] == schedule[..i];
      StaysKnown(before, n, i);
      SkippedForGood(before, n, i);
      PhaseStep(s, last, n);
    } else {
      assert before == schedule[..i];
    }
  }

  /** A trigger that is known stays known. */
  lemma {:induction false} StaysKnown(schedule: seq<Action>, n: nat, i: nat)
    requires i <= |schedule| && n in Exec(IDLE, schedule[..i]).tasks
    ensures n in Exec(IDLE, schedule).tasks
  {
    if i < |schedule| {
      assert schedule[..|schedule| - 1][..i] == schedule[..i];
      StaysKnown(schedule[..|schedule| - 1], n, i);
    } else {
      assert schedule[..i] == schedule;
    }
  }

  /** Hence a forced request for detection is honoured by a run of its own or a newer trigger, unless the
      newest trigger was automatic and found nothing to do. */
  lemma ForcedIsHonoured(schedule: seq<Action>, n: nat)
    requires Arrivals(schedule) <= TWO64 && Quiet(Exec(IDLE, schedule))
    requires var s := Exec(IDLE, schedule); n in s.tasks && s.tasks[n].trigger.Forced?
    ensures var s := Exec(IDLE, schedule);
            || (exists m :: n <= m && m in s.runs)
            || (&& s.issued in s.tasks && s.tasks[s.issued].trigger.IfNeeded?
                && exists i: nat :: NotNeededAt(schedule, s.issued, i))
  {
    Always(schedule);
    IssuedCountsArrivals(schedule);
    NewestRunsUnlessObsolete(schedule);
  }

  /** Hence "an explicit detection always leads to a run" is false: a forced trigger superseded by an
      automatic one that then skips leaves the slot quiet without any run. */
  lemma ForcedTriggerCanBeLost(ecu: Name)
    ensures var tasks := map[1 := Task(ecu, Forced, Skipped), 2 := Task(ecu, IfNeeded, Skipped)];
            Runs.Reaches(Step, IDLE, Slot(2, None, tasks, [2], []))
  {
    var s := FirstSuperseded(ecu);
    Runs.ReachesStep(Step, IDLE, s, Acquire(2));
    var s1 := Step(s, Acquire(2));
    Runs.ReachesStep(Step, IDLE, s1, Compare(2));
    var s2 := Step(s1, Compare(2));
    Runs.ReachesStep(Step, IDLE, s2, Inspect(2, false));
    assert Step(s2, Inspect(2, false)).tasks == s.tasks[2 := Task(ecu, IfNeeded, Skipped)];
  }

  lemma FirstSuperseded(ecu: Name) returns (s: Slot)
    ensures s == Slot(2, None, map[1 := Task(ecu, Forced, Skipped), 2 := Task(ecu, IfNeeded, Waiting)], [], [])
    ensures Runs.Reaches(Step, IDLE, s)
  {
    s := BothWaiting(ecu);
    Runs.ReachesStep(Step, IDLE, s, Acquire(1));
    s := Step(s, Acquire(1));
    Runs.ReachesStep(Step, IDLE, s, Compare(1));
    s := Step(s, Compare(1));
    assert s.tasks == map[1 := Task(ecu, Forced, Skipped), 2 := Task(ecu, IfNeeded, Waiting)];
  }

  lemma BothWaiting(ecu: Name) returns (s: Slot)
    ensures s == Slot(2, None, map[1 := Task(ecu, Forced, Waiting), 2 := Task(ecu, IfNeeded, Waiting)], [], [])
    ensures Runs.Reaches(Step, IDLE, s)
  {
    Runs.ReachesItself<Slot, Action>(Step, IDLE);
    Runs.ReachesStep(Step, IDLE, IDLE, Arrive(ecu, Forced));
    var s1 := Step(IDLE, Arrive(ecu, Forced));
    Runs.ReachesStep(Step, IDLE, s1, Arrive(ecu, IfNeeded));
    s := Step(s1, Arrive(ecu, IfNeeded));
    assert s.tasks == map[1 := Task(ecu, Forced, Waiting), 2 := Task(ecu, IfNeeded, Waiting)];
  }
}
