/** Verdict over a duplicate group (`evaluate_duplicate_group`, `apply_group_result`): every member is
    evaluated against the same responses, in the arbitrary order of a hash set. */
module GroupVerdict {
  import opened Bytes
  import opened EcuStates
  import opened VariantDetection

  datatype Verdict = ExactMatch(chosen: Name) | AllFallbacks | NoOnlineEcu | NoDetection

  type Ecus = map<Name, EcuState>

  /** Outcome of each member's detection. */
  type Outcomes = Name -> Detection

  /** `detect_variant` of each member, as any function of the state it finds. */
  type Detector = (Name, EcuState) -> Detection

  /** Every member is evaluated at most once, from the state it is in. */
  function OutcomesOf(ecus: Ecus, detector: Detector): Outcomes {
    n => if n in ecus then detector(n, ecus[n]) else Detection(false, EcuState(Offline, NotTested, None))
  }

  function Members(order: seq<Name>): set<Name> { set n | n in order }

  /** A loaded member that matched a specific variant. */
  predicate Matches(ecus: Ecus, detect: Outcomes, n: Name) {
    n in ecus && detect(n).ok && detect(n).state.IsOnlineAndDetected() && !detect(n).state.IsFallback()
  }

  predicate FellBack(ecus: Ecus, detect: Outcomes, n: Name) {
    n in ecus && detect(n).ok && detect(n).state.IsOnlineAndDetected() && detect(n).state.IsFallback()
  }

  predicate Responsive(ecus: Ecus, detect: Outcomes, n: Name) {
    n in ecus && detect(n).state.connectivity.Online?
  }

  /** The verdict kind as a property of the member set, without any order. */
  ghost predicate HasKind(ecus: Ecus, detect: Outcomes, members: set<Name>, v: Verdict) {
    match v
    case ExactMatch(chosen) => chosen in members && Matches(ecus, detect, chosen)
    case AllFallbacks =>
      && (forall n :: n in members ==> !Matches(ecus, detect, n))
      && (exists n :: n in members && FellBack(ecus, detect, n))
    case NoDetection =>
      && (forall n :: n in members ==> !Matches(ecus, detect, n) && !FellBack(ecus, detect, n))
      && (exists n :: n in members && Responsive(ecus, detect, n))
    case NoOnlineEcu => forall n :: n in members ==> !Responsive(ecus, detect, n)
  }

  predicate SameKind(v: Verdict, w: Verdict) {
    v == w || (v.ExactMatch? && w.ExactMatch?)
  }

  /** Whatever the order, the kind is the same. */
  lemma KindIsOrderIndependent(ecus: Ecus, detect: Outcomes, o1: seq<Name>, o2: seq<Name>, v: Verdict, w: Verdict)
    requires Members(o1) == Members(o2)
    requires HasKind(ecus, detect, Members(o1), v) && HasKind(ecus, detect, Members(o2), w)
    ensures SameKind(v, w)
  {
  }

  /** States after evaluating the first n members of the order. */
  function After(ecus: Ecus, detect: Outcomes, visited: seq<Name>): (r: Ecus) {
    map n | n in ecus :: if n in visited then detect(n).state else ecus[n]
  }

  lemma AfterNext(ecus: Ecus, detect: Outcomes, visited: seq<Name>, name: Name)
    ensures After(ecus, detect, visited + [name])
         == if name in ecus then After(ecus, detect, visited)[name := detect(name).state]
            else After(ecus, detect, visited)
  {
  }

  function AfterMarks(ecus: Ecus, members: seq<Name>, v: Verdict): (r: Ecus) {
    map n | n in ecus ::
      if n !in members then ecus[n]
      else match v
           case ExactMatch(chosen) =>
             if n == chosen then ecus[n] else ecus[n].(variant := Duplicate, index := None)
           case AllFallbacks => ecus[n].(variant := NotDetected, index := None)
           case _ => ecus[n]
  }

  /** The first matching member of the order, if any. */
  function FirstMatch(ecus: Ecus, detect: Outcomes, order: seq<Name>): (r: Option<Name>) {
    if order == [] then None
    else if Matches(ecus, detect, order[0]) then Some(order[0])
    else FirstMatch(ecus, detect, order[1..])
  }

  /** The verdict after a full round without a match. */
  lemma KindOf(ecus: Ecus, detect: Outcomes, order: seq<Name>, anyOnline: bool, firstFallback: Option<Name>)
    requires forall j :: 0 <= j < |order| ==> !Matches(ecus, detect, order[j])
    requires firstFallback.Some? ==> firstFallback.value in order && FellBack(ecus, detect, firstFallback.value)
    requires firstFallback.None? ==> forall j :: 0 <= j < |order| ==> !FellBack(ecus, detect, order[j])
    requires anyOnline <==> exists j :: 0 <= j < |order| && Responsive(ecus, detect, order[j])
    ensures HasKind(ecus, detect, Members(order),
                    if !anyOnline then NoOnlineEcu else if firstFallback.Some? then AllFallbacks else NoDetection)
  {
    if anyOnline {
      var j :| 0 <= j < |order| && Responsive(ecus, detect, order[j]);
      assert order[j] in Members(order);
    }
  }

  class UdsManager {
    var ecus: Ecus

    constructor (ecus: Ecus)
      ensures this.ecus == ecus
    {
      this.ecus := ecus;
    }

    /** Stops at the first member that matches a specific variant; later members are not evaluated. The
        order is that of a hash set. */
    method EvaluateDuplicateGroup(order: seq<Name>, detector: Detector) returns (v: Verdict)
      requires Distinct(order)
      modifies this
      ensures var detect := OutcomesOf(old(ecus), detector);
              && HasKind(old(ecus), detect, Members(order), v)
              && (v.ExactMatch? ==>
                    exists k :: 0 <= k < |order| && order[k] == v.chosen
                                && (forall j :: 0 <= j < k ==> !Matches(old(ecus), detect, order[j]))
                                && ecus == After(old(ecus), detect, order[..k + 1]))
              && (!v.ExactMatch? ==> ecus == After(old(ecus), detect, order))
    {
      ghost var detect := OutcomesOf(ecus, detector);
      var firstFallback: Option<Name> := None;
      var anyOnline := false;
      var i := 0;
      assert order[..0] == [];
      while i < |order|
        invariant 0 <= i <= |order|
        invariant ecus == After(old(ecus), detect, order[..i])
        invariant forall j :: 0 <= j < i ==> !Matches(old(ecus), detect, order[j])
        invariant firstFallback.Some? ==>
                    firstFallback.value in order && FellBack(old(ecus), detect, firstFallback.value)
        invariant firstFallback.None? ==> forall j :: 0 <= j < i ==> !FellBack(old(ecus), detect, order[j])
        invariant anyOnline <==> exists j :: 0 <= j < i && Responsive(old(ecus), detect, order[j])
      {
        var name := order[i];
        assert order[..i + 1] == order[..i] + [name];
        AfterNext(old(ecus), detect, order[..i], name);
        if name in ecus {
          assert name !in order[..i];
          var d := detector(name, ecus[name]);
          ecus := ecus[name := d.state];
          anyOnline := anyOnline || ecus[name].connectivity.Online?;
          if d.ok && ecus[name].IsOnlineAndDetected() {
            if !ecus[name].IsFallback() {
              return ExactMatch(name);
            }
            if firstFallback.None? { firstFallback := Some(name); }
          }
        }
        i := i + 1;
      }
      assert order[..i] == order;
      KindOf(old(ecus), detect, order, anyOnline, firstFallback);
      if !anyOnline {
        v := NoOnlineEcu;
      } else if firstFallback.Some? {
        v := AllFallbacks;
      } else {
        v := NoDetection;
      }
    }

    method ApplyGroupResult(order: seq<Name>, v: Verdict)
      modifies this
      ensures ecus == AfterMarks(old(ecus), order, v)
    {
      var i := 0;
      while i < |order| && (v.ExactMatch? || v.AllFallbacks?)
        invariant 0 <= i <= |order|
        invariant ecus == AfterMarks(old(ecus), order[..i], v)
      {
        var name := order[i];
        assert order[..i + 1] == order[..i] + [name];
        if name in ecus {
          if v.AllFallbacks? {
            ecus := ecus[name := ecus[name].(variant := NotDetected, index := None)];
          } else if name != v.chosen {
            ecus := ecus[name := ecus[name].(variant := Duplicate, index := None)];
          }
        }
        i := i + 1;
      }
      assert order[..|order|] == order;
    }

    /** Evaluation followed by the verdict's marks: the state every member ends up in. */
    method DetectGroup(order: seq<Name>, detector: Detector) returns (v: Verdict)
      requires Distinct(order)
      modifies this
      ensures Settled(old(ecus), OutcomesOf(old(ecus), detector), order, v, ecus)
    {
      ghost var before, detect := ecus, OutcomesOf(ecus, detector);
      v := EvaluateDuplicateGroup(order, detector);
      if v.ExactMatch? {
        ghost var k :| && 0 <= k < |order| && order[k] == v.chosen
                       && (forall j :: 0 <= j < k ==> !Matches(before, detect, order[j]));
        FirstMatchAt(before, detect, order, k);
      }
      ApplyGroupResult(order, v);
      assert forall n :: n in order <==> n in Members(order);
      if v.NoDetection? {
        forall n | n in order && n in ecus
          ensures ecus[n].IsOnlineAndDetected() <==> LeftDetected(detect, n)
        {
          assert n in Members(order);
        }
      }
    }

    /** `mark_group_unreachable`: nobody answered. The ECU itself comes first and its failure ends the
        matter; the failure of a duplicate is passed over. */
    method MarkGroupUnreachable(name: Name, duplicates: seq<Name>, dbs: Name -> Database) returns (ok: bool)
      requires name in ecus && Distinct(duplicates) && name !in duplicates
      modifies this
      ensures ok <==> Available(dbs(name))
      ensures !ok ==> ecus == old(ecus)
      ensures ok ==> ecus == Unreachable(old(ecus), dbs, [name] + duplicates)
    {
      ghost var before := ecus;
      var d := DetectVariant(dbs(name), ecus[name], false);
      Unanswered(dbs(name), ecus[name]);
      if !d.ok { return false; }
      ecus := ecus[name := d.state];
      for i := 0 to |duplicates|
        invariant ecus == Unreachable(before, dbs, [name] + duplicates[..i])
      {
        var duplicate := duplicates[i];
        assert [name] + duplicates[..i + 1] == [name] + duplicates[..i] + [duplicate];
        assert duplicate !in [name] + duplicates[..i];
        if duplicate in ecus {
          Unanswered(dbs(duplicate), ecus[duplicate]);
          ecus := ecus[duplicate := DetectVariant(dbs(duplicate), ecus[duplicate], false).state];
        }
        UnreachableNext(before, dbs, [name] + duplicates[..i], duplicate);
      }
      assert duplicates[..|duplicates|] == duplicates;
      return true;
    }
  }

  /** Members whose database is available are Offline with their variant kept; nothing else changes. */
  function Unreachable(ecus: Ecus, dbs: Name -> Database, members: seq<Name>): Ecus {
    map n | n in ecus :: if n in members && Available(dbs(n)) then ecus[n].(connectivity := Offline) else ecus[n]
  }

  lemma UnreachableNext(ecus: Ecus, dbs: Name -> Database, members: seq<Name>, name: Name)
    requires name !in members
    ensures Unreachable(ecus, dbs, members + [name])
         == if name in ecus && Available(dbs(name))
            then Unreachable(ecus, dbs, members)[name := ecus[name].(connectivity := Offline)]
            else Unreachable(ecus, dbs, members)
  {
  }

  /** An unreachable group is left online exactly by members whose database does not load. A member that
      is left Offline and is no duplicate is detected anew on the next request. */
  lemma UnreachableGroup(ecus: Ecus, dbs: Name -> Database, members: seq<Name>, n: Name)
    requires n in members && n in ecus
    ensures var after := Unreachable(ecus, dbs, members);
            && (after[n].connectivity.Online? <==> ecus[n].connectivity.Online? && !Available(dbs(n)))
            && (after[n].connectivity.Offline? ==> (NeedsVariantDetection(after[n]) <==> !ecus[n].variant.Duplicate?))
  {
  }

  /** A failing `detect_variant` that nevertheless leaves its member online and detected. */
  predicate LeftDetected(detect: Outcomes, n: Name) {
    !detect(n).ok && detect(n).state.IsOnlineAndDetected()
  }

  /** How a verdict leaves the group. */
  ghost predicate Settled(before: Ecus, detect: Outcomes, order: seq<Name>, v: Verdict, ecus: Ecus) {
    && HasKind(before, detect, Members(order), v)
    && ecus.Keys == before.Keys
    && (forall n :: n in ecus && n !in order ==> ecus[n] == before[n])
    && (v.ExactMatch? ==>
          && FirstMatch(before, detect, order) == Some(v.chosen)
          && v.chosen in ecus && ecus[v.chosen].IsOnlineAndDetected() && !ecus[v.chosen].IsFallback()
          && forall n :: n in order && n in ecus && n != v.chosen ==> ecus[n].variant == Duplicate)
    && (v.AllFallbacks? ==> forall n :: n in order && n in ecus ==> ecus[n].variant == NotDetected)
    && (v.NoOnlineEcu? ==> forall n :: n in order && n in ecus ==> ecus[n].connectivity.Offline?)
    && (v.NoDetection? ==> forall n :: n in order && n in ecus ==>
          (ecus[n].IsOnlineAndDetected() <==> LeftDetected(detect, n)))
  }

  // ---------------------------------------------------------------- who is left detected

  /** Members online-and-detected. */
  function DetectedMembers(ecus: Ecus, order: seq<Name>): set<Name> {
    set n | n in order && n in ecus && ecus[n].IsOnlineAndDetected()
  }

  /** The detector that runs each member's database against the responses. */
  function ByDatabase(dbs: Name -> Database): Detector { (n, state) => DetectVariant(dbs(n), state, true) }

  ghost predicate Somebody(before: Ecus, order: seq<Name>, p: Database -> bool, dbs: Name -> Database) {
    exists n :: n in order && n in before && p(dbs(n))
  }

  /** Who is detected after a group detection, from the members' databases and earlier states alone: the
      first member that identifies a variant; else nobody, if a member had only its base variant; else
      exactly the members that a failing detection strands. */
  lemma DetectedAfterGroup(before: Ecus, dbs: Name -> Database, order: seq<Name>, v: Verdict, ecus: Ecus)
    requires Settled(before, OutcomesOf(before, ByDatabase(dbs)), order, v, ecus)
    ensures v.ExactMatch? <==> Somebody(before, order, Identifies, dbs)
    ensures var left := DetectedMembers(ecus, order);
            if Somebody(before, order, Identifies, dbs)
            then v.ExactMatch? && left == {v.chosen} && Identifies(dbs(v.chosen))
            else if Somebody(before, order, OnlyBase, dbs) then left == {}
            else left == set n | n in order && n in before && Strands(dbs(n), before[n])
  {
    var detect := OutcomesOf(before, ByDatabase(dbs));
    OutcomesByDatabase(before, dbs);
    assert forall n :: n in order <==> n in Members(order);
    if v.ExactMatch? {
      assert v.chosen in order && Identifies(dbs(v.chosen));
      assert DetectedMembers(ecus, order) == {v.chosen};
    }
  }

  lemma OutcomesByDatabase(before: Ecus, dbs: Name -> Database)
    ensures var detect := OutcomesOf(before, ByDatabase(dbs));
            forall n :: n in before ==>
              && (Matches(before, detect, n) <==> Identifies(dbs(n)))
              && (FellBack(before, detect, n) <==> OnlyBase(dbs(n)))
              && (LeftDetected(detect, n) <==> Strands(dbs(n), before[n]))
              && (LeftDetected(detect, n) ==> Responsive(before, detect, n))
  {
    forall n | n in before
      ensures var detect := OutcomesOf(before, ByDatabase(dbs));
              && (Matches(before, detect, n) <==> Identifies(dbs(n)))
              && (FellBack(before, detect, n) <==> OnlyBase(dbs(n)))
              && (LeftDetected(detect, n) <==> Strands(dbs(n), before[n]))
    {
      OutcomeOf(dbs(n), before[n]);
    }
  }

  /** "Only an exact match leaves a member detected" holds exactly when no member is stranded, or one has
      only its base variant. */
  lemma OnlyExactMatchDetects(before: Ecus, dbs: Name -> Database, order: seq<Name>, v: Verdict, ecus: Ecus)
    requires Settled(before, OutcomesOf(before, ByDatabase(dbs)), order, v, ecus)
    requires !Somebody(before, order, Identifies, dbs)
    ensures DetectedMembers(ecus, order) == {} <==>
            || Somebody(before, order, OnlyBase, dbs)
            || forall n :: n in order && n in before ==> !Strands(dbs(n), before[n])
  {
    DetectedAfterGroup(before, dbs, order, v, ecus);
    if !Somebody(before, order, OnlyBase, dbs) {
      var left := DetectedMembers(ecus, order);
      assert forall n :: n in left <==> n in order && n in before && Strands(dbs(n), before[n]);
    }
  }

  /** It fails in a group of two. Both members answer; the responses match nothing in the first database
      and, in the second, a variant whose session chart has no start state. Both detections report an
      error, and the verdict NoDetection leaves the second member detected. */
  lemma FailedMemberCanStayDetected(m: Name, n: Name)
    requires m != n
    ensures var dbs := Witness(n);
            var before: Ecus := map[m := UNTESTED, n := UNTESTED];
            var after: Ecus := map[m := EcuState(Online, NotDetected, None), n := STRANDED];
            && (forall k :: k in {m, n} ==> DetectVariant(dbs(k), before[k], true) == Detection(false, after[k]))
            && Settled(before, OutcomesOf(before, ByDatabase(dbs)), [m, n], NoDetection, after)
            && DetectedMembers(after, [m, n]) == {n}
  {
    var dbs := Witness(n);
    var before: Ecus := map[m := UNTESTED, n := UNTESTED];
    var detect := OutcomesOf(before, ByDatabase(dbs));
    WitnessOutcomes();
    assert detect(m) == DetectVariant(NO_MATCH, UNTESTED, true);
    assert detect(n) == DetectVariant(NO_START, UNTESTED, true);
    assert m in Members([m, n]) && Responsive(before, detect, m);
  }

  const UNTESTED := EcuState(Online, NotTested, None)
  const STRANDED := EcuState(Online, Detected("v", false, false), Some(0))
  const NO_MATCH := Database(true, true, true, [Variant(Some("w"), false, false, true, true)], false)
  const NO_START := Database(true, true, true, [Variant(Some("v"), false, true, false, true)], false)

  function Witness(n: Name): Name -> Database { k => if k == n then NO_START else NO_MATCH }

  lemma WitnessOutcomes()
    ensures DetectVariant(NO_MATCH, UNTESTED, true) == Detection(false, EcuState(Online, NotDetected, None))
    ensures DetectVariant(NO_START, UNTESTED, true) == Detection(false, STRANDED)
  {
    assert Choice(NO_MATCH).None?;
    assert Choice(NO_START) == Some((0, false));
    assert IndexOf(NO_START, "v") == Some(0) && !HasStartStates(NO_START, Some(0));
  }

  // ---------------------------------------------------------------- which member is chosen

  lemma {:induction false} FirstMatchMatches(ecus: Ecus, detect: Outcomes, order: seq<Name>)
    ensures var r := FirstMatch(ecus, detect, order);
            if r.Some? then r.value in order && Matches(ecus, detect, r.value)
            else forall n :: n in order ==> !Matches(ecus, detect, n)
  {
    if order != [] && !Matches(ecus, detect, order[0]) {
      FirstMatchMatches(ecus, detect, order[1..]);
      assert forall n :: n in order ==> n == order[0] || n in order[1..];
    }
  }

  /** The member at which EvaluateDuplicateGroup stops. */
  lemma {:induction false} FirstMatchAt(ecus: Ecus, detect: Outcomes, order: seq<Name>, k: nat)
    requires k < |order| && Matches(ecus, detect, order[k])
    requires forall j :: 0 <= j < k ==> !Matches(ecus, detect, order[j])
    ensures FirstMatch(ecus, detect, order) == Some(order[k])
  {
    if k > 0 {
      FirstMatchAt(ecus, detect, order[1..], k - 1);
    }
  }

  function ToFront(order: seq<Name>, k: nat): (r: seq<Name>)
    requires k < |order| && Distinct(order)
    ensures Distinct(r) && Members(r) == Members(order)
  {
    var r := [order[k]] + order[..k] + order[k + 1..];
    assert forall n :: n in r <==> n in order by {
      assert order == order[..k] + [order[k]] + order[k + 1..];
    }
    r
  }

  /** The chosen member does not depend on the order exactly when at most one member matches. */
  lemma ChoiceIsOrderIndependent(ecus: Ecus, detect: Outcomes, order: seq<Name>)
    requires Distinct(order)
    ensures (forall o :: Distinct(o) && Members(o) == Members(order) ==>
               FirstMatch(ecus, detect, o) == FirstMatch(ecus, detect, order))
            <==> (forall m, n :: m in order && n in order && Matches(ecus, detect, m) && Matches(ecus, detect, n) ==>
                    m == n)
  {
    if m, n :| m in order && n in order && Matches(ecus, detect, m) && Matches(ecus, detect, n) && m != n {
      var i :| 0 <= i < |order| && order[i] == m;
      var j :| 0 <= j < |order| && order[j] == n;
      assert FirstMatch(ecus, detect, ToFront(order, i)) == Some(m);
      assert FirstMatch(ecus, detect, ToFront(order, j)) == Some(n);
    } else {
      FirstMatchMatches(ecus, detect, order);
      forall o | Distinct(o) && Members(o) == Members(order)
        ensures FirstMatch(ecus, detect, o) == FirstMatch(ecus, detect, order)
      {
        FirstMatchMatches(ecus, detect, o);
        assert forall n :: n in o <==> n in Members(order);
      }
    }
  }
}
