/** All detection slots of a vehicle: a detection on any ECU claims the slot of its group's
    representative. */
module DetectionSystem {
  import opened Bytes
  import opened DuplicateGroups
  import DetectionSlot

  type System = map<Name, DetectionSlot.Slot>

  datatype Action =
    | Trigger(ecu: Name, kind: DetectionSlot.Trigger)
    | Progress(handle: Name, action: DetectionSlot.Action)

  function SlotOf(sys: System, handle: Name): DetectionSlot.Slot {
    if handle in sys then sys[handle] else DetectionSlot.IDLE
  }

  /** `detect_variant_with_trigger` up to the claim; an ECU that is not loaded fails before it. */
  ghost function Step(db: Database, sys: System, a: Action): (t: System) {
    match a
    case Trigger(ecu, kind) =>
      if ecu !in db then sys
      else
        var r := Representative(db, ecu);
        sys[r := DetectionSlot.Step(SlotOf(sys, r), DetectionSlot.Arrive(ecu, kind))]
    case Progress(handle, action) =>
      if action.Arrive? then sys else sys[handle := DetectionSlot.Step(SlotOf(sys, handle), action)]
  }

  ghost function Exec(db: Database, schedule: seq<Action>): (sys: System) {
    if schedule == [] then map[]
    else Step(db, Exec(db, schedule[..|schedule| - 1]), schedule[|schedule| - 1])
  }

  ghost predicate SlotInv(db: Database, handle: Name, s: DetectionSlot.Slot) {
    && DetectionSlot.Inv(s)
    && forall n :: n in s.tasks ==> s.tasks[n].ecu in db && Representative(db, s.tasks[n].ecu) == handle
  }

  lemma SlotStep(db: Database, handle: Name, s: DetectionSlot.Slot, a: DetectionSlot.Action)
    requires SlotInv(db, handle, s)
    requires a.Arrive? ==> a.ecu in db && Representative(db, a.ecu) == handle
    ensures SlotInv(db, handle, DetectionSlot.Step(s, a))
  {
    DetectionSlot.StepKeepsInv(s, a);
    var t := DetectionSlot.Step(s, a);
    forall n | n in t.tasks
      ensures t.tasks[n].ecu in db && Representative(db, t.tasks[n].ecu) == handle
    {
      DetectionSlot.TaskOrigin(s, a, n);
    }
  }

  ghost predicate Inv(db: Database, sys: System) {
    forall r :: r in sys ==> SlotInv(db, r, sys[r])
  }

  lemma StepOne(db: Database, sys: System, handle: Name, a: DetectionSlot.Action)
    requires Inv(db, sys)
    requires a.Arrive? ==> a.ecu in db && Representative(db, a.ecu) == handle
    ensures Inv(db, sys[handle := DetectionSlot.Step(SlotOf(sys, handle), a)])
  {
    if handle in sys {
      SlotStep(db, handle, sys[handle], a);
    } else {
      SlotStep(db, handle, DetectionSlot.IDLE, a);
    }
  }

  lemma {:induction false} Always(db: Database, schedule: seq<Action>)
    ensures Inv(db, Exec(db, schedule))
  {
    if schedule != [] {
      var sys, a := Exec(db, schedule[..|schedule| - 1]), schedule[|schedule| - 1];
      Always(db, schedule[..|schedule| - 1]);
      if a.Trigger? && a.ecu in db {
        StepOne(db, sys, Representative(db, a.ecu), DetectionSlot.Arrive(a.ecu, a.kind));
      } else if a.Progress? && !a.action.Arrive? {
        StepOne(db, sys, a.handle, a.action);
      }
    }
  }

  /** Detections of two members of one duplicate group never overlap: if both hold a slot they are the
      same detection. */
  lemma OneDetectionPerGroup(db: Database, schedule: seq<Action>, r1: Name, n1: nat, r2: Name, n2: nat)
    requires var sys := Exec(db, schedule);
             && r1 in sys && n1 in sys[r1].tasks && DetectionSlot.Holds(sys[r1].tasks[n1].phase)
             && r2 in sys && n2 in sys[r2].tasks && DetectionSlot.Holds(sys[r2].tasks[n2].phase)
             && sys[r1].tasks[n1].ecu in db && sys[r2].tasks[n2].ecu in db
             && SameGroup(db, sys[r1].tasks[n1].ecu, sys[r2].tasks[n2].ecu)
    ensures r1 == r2 && n1 == n2
  {
    Always(db, schedule);
    var sys := Exec(db, schedule);
    assert SlotInv(db, r1, sys[r1]) && SlotInv(db, r2, sys[r2]);
    RepresentativeIdentifiesGroup(db, sys[r1].tasks[n1].ecu, sys[r2].tasks[n2].ecu);
  }
}
