/** Variant detection of one ECU against its database (`detect_variant`, `set_variant`,
    `set_default_states`). */
module VariantDetection {
  import opened Bytes
  import opened EcuStates

  /** A variant of the database: its short name, whether the responses match one of its patterns, and
      whether its layers have a session and a security state chart with a start state. */
  datatype Variant = Variant(name: Option<string>, isBase: bool, matches: bool, session: bool, security: bool)

  /** A database and the responses it is asked about: `converts` says that every response converts to
      parameters. Without a list of variants, `variants` is empty. */
  datatype Database = Database(
    loaded: bool, loads: bool, converts: bool, variants: seq<Variant>, fallbackToBase: bool)

  /** What `detect_variant` returns and the state it leaves behind. */
  datatype Detection = Detection(ok: bool, state: EcuState)

  /** First position with the property. */
  function First(variants: seq<Variant>, p: Variant -> bool): (r: Option<nat>)
    ensures r.Some? ==> r.value < |variants| && p(variants[r.value])
    ensures r.Some? ==> forall i :: 0 <= i < r.value ==> !p(variants[i])
    ensures r.None? ==> forall i :: 0 <= i < |variants| ==> !p(variants[i])
  {
    if variants == [] then None
    else if p(variants[0]) then Some(0)
    else
      var r := First(variants[1..], p);
      assert forall i :: 0 < i < |variants| ==> variants[i] == variants[1..][i - 1];
      if r.Some? then Some(r.value + 1) else None
  }

  /** The base variant is looked up whether or not the responses convert. */
  function BaseVariant(db: Database): Option<nat> { First(db.variants, (v: Variant) => v.isBase) }

  /** `evaluate_variant`, then the base variant if falling back is allowed: a position in the database
      and whether it is a fallback. */
  function Choice(db: Database): (r: Option<(nat, bool)>)
    ensures r.Some? ==> r.value.0 < |db.variants|
  {
    var exact := if db.converts then First(db.variants, (v: Variant) => v.matches) else None;
    if exact.Some? then Some((exact.value, false))
    else if db.fallbackToBase && BaseVariant(db).Some? then Some((BaseVariant(db).value, true))
    else None
  }

  function NameOf(v: Variant): string { if v.name.Some? then v.name.value else "" }

  /** The index `set_variant` finds for a name: the first variant that bears it. */
  function IndexOf(db: Database, name: string): (r: Option<nat>)
    ensures r.Some? ==> r.value < |db.variants|
  {
    First(db.variants, (v: Variant) => v.name == Some(name))
  }

  /** `set_default_states` succeeds: the layers of the variant in force, or else of the base variant,
      have both start states. */
  predicate HasStartStates(db: Database, index: Option<nat>)
    requires index.Some? ==> index.value < |db.variants|
  {
    var inForce := if index.Some? then index else BaseVariant(db);
    inForce.Some? && db.variants[inForce.value].session && db.variants[inForce.value].security
  }

  function SetVariant(db: Database, state: EcuState, v: Variant, fallback: bool): Detection {
    var index := IndexOf(db, NameOf(v));
    var written :=
      if index.Some? then EcuState(Online, Detected(NameOf(v), v.isBase, fallback), index)
      else EcuState(state.connectivity, NotDetected, None);
    Detection(HasStartStates(db, index), written)
  }

  /** `answered`: at least one response arrived. */
  function DetectVariant(db: Database, state: EcuState, answered: bool): (d: Detection) {
    if !db.loaded && !db.loads then Detection(false, state)
    else if !answered then Detection(true, state.(connectivity := Offline))
    else
      match Choice(db)
      case None => Detection(false, EcuState(Online, NotDetected, None))
      case Some((i, fallback)) => SetVariant(db, state, db.variants[i], fallback)
  }

  // ---------------------------------------------------------------- outcomes in terms of the inputs

  predicate Available(db: Database) { db.loaded || db.loads }

  /** Position i is the first variant that the responses match. */
  predicate IsExact(db: Database, i: nat) {
    && db.converts && i < |db.variants| && db.variants[i].matches
    && forall k :: 0 <= k < i ==> !db.variants[k].matches
  }

  predicate MatchesNothing(db: Database) {
    !db.converts || forall k :: 0 <= k < |db.variants| ==> !db.variants[k].matches
  }

  predicate IsFirstBase(db: Database, i: nat) {
    i < |db.variants| && db.variants[i].isBase && forall k :: 0 <= k < i ==> !db.variants[k].isBase
  }

  /** Position i is the first base variant, and it may stand in because nothing matches. */
  predicate IsFallback(db: Database, i: nat) { MatchesNothing(db) && db.fallbackToBase && IsFirstBase(db, i) }

  /** Position j is the first that bears the name of variant i. */
  predicate IsIndexOf(db: Database, i: nat, j: nat)
    requires i < |db.variants|
  {
    && j < |db.variants| && db.variants[j].name == Some(NameOf(db.variants[i]))
    && forall k :: 0 <= k < j ==> db.variants[k].name != Some(NameOf(db.variants[i]))
  }

  predicate CanStart(v: Variant) { v.session && v.security }

  /** A specific variant is matched, found again by its name, and can start. */
  ghost predicate Identifies(db: Database) {
    Available(db) && exists i: nat, j: nat :: IsExact(db, i) && IsIndexOf(db, i, j) && CanStart(db.variants[j])
  }

  /** Nothing matches, and the base variant can stand in and start. */
  ghost predicate OnlyBase(db: Database) {
    Available(db) && exists i: nat, j: nat :: IsFallback(db, i) && IsIndexOf(db, i, j) && CanStart(db.variants[j])
  }

  /** Detection fails but leaves the ECU detected: the chosen variant is written before a missing start
      state is noticed, or the database does not load and the ECU was detected before. */
  ghost predicate Strands(db: Database, state: EcuState) {
    if Available(db) then
      exists i: nat, j: nat ::
        (IsExact(db, i) || IsFallback(db, i)) && IsIndexOf(db, i, j) && !CanStart(db.variants[j])
    else state.IsOnlineAndDetected()
  }

  /** The choice is an exact match if there is one, and else the fallback. */
  lemma ChoiceTable(db: Database, i: nat)
    ensures Choice(db) == Some((i, false)) <==> IsExact(db, i)
    ensures Choice(db) == Some((i, true)) <==> IsFallback(db, i)
  {
    var exact := First(db.variants, (v: Variant) => v.matches);
    var base := First(db.variants, (v: Variant) => v.isBase);
    if exact.Some? { assert db.variants[exact.value].matches; }
    if base.Some? { assert db.variants[base.value].isBase; }
  }

  lemma FirstBaseTable(db: Database)
    ensures forall b: nat :: BaseVariant(db) == Some(b) <==> IsFirstBase(db, b)
  {
    var base := BaseVariant(db);
    if base.Some? { assert db.variants[base.value].isBase; }
  }

  lemma IndexTable(db: Database, i: nat, j: nat)
    requires i < |db.variants|
    ensures IndexOf(db, NameOf(db.variants[i])) == Some(j) <==> IsIndexOf(db, i, j)
  {
    var index := IndexOf(db, NameOf(db.variants[i]));
    if index.Some? { assert db.variants[index.value].name == Some(NameOf(db.variants[i])); }
  }

  /** What an answered detection of an available database writes and returns, by what its variants are. */
  lemma WrittenState(db: Database, state: EcuState, i: nat, j: nat)
    requires Available(db)
    ensures var d := DetectVariant(db, state, true);
            && ((IsExact(db, i) || IsFallback(db, i)) && IsIndexOf(db, i, j) ==>
                  && d.ok == CanStart(db.variants[j])
                  && d.state.connectivity.Online? && d.state.index == Some(j)
                  && d.state.variant == Detected(NameOf(db.variants[i]), db.variants[i].isBase, IsFallback(db, i)))
            && ((IsExact(db, i) || IsFallback(db, i)) && (forall k: nat :: !IsIndexOf(db, i, k)) ==>
                  && d.state == EcuState(state.connectivity, NotDetected, None)
                  && (d.ok <==> exists b: nat :: IsFirstBase(db, b) && CanStart(db.variants[b])))
            && ((forall k: nat :: !IsExact(db, k) && !IsFallback(db, k)) ==>
                  d == Detection(false, EcuState(Online, NotDetected, None)))
  {
    ChoiceTable(db, i);
    if Choice(db).Some? { ChoiceTable(db, Choice(db).value.0); }
    FirstBaseTable(db);
    if i < |db.variants| {
      IndexTable(db, i, j);
      var index := IndexOf(db, NameOf(db.variants[i]));
      if index.Some? { IndexTable(db, i, index.value); }
    }
  }

  /** The three ways in which an answered detection leaves an ECU online and detected, exactly. */
  lemma OutcomeOf(db: Database, state: EcuState)
    ensures var d := DetectVariant(db, state, true);
            && (d.ok && d.state.IsOnlineAndDetected() && !d.state.IsFallback() <==> Identifies(db))
            && (d.ok && d.state.IsOnlineAndDetected() && d.state.IsFallback() <==> OnlyBase(db))
            && (!d.ok && d.state.IsOnlineAndDetected() <==> Strands(db, state))
  {
    if Available(db) {
      var choice := Choice(db);
      if choice.Some? {
        var i := choice.value.0;
        var index := IndexOf(db, NameOf(db.variants[i]));
        ChosenOnly(db);
        if index.Some? {
          IndexTable(db, i, index.value);
          WrittenState(db, state, i, index.value);
        }
        forall k: nat | IsIndexOf(db, i, k) ensures index == Some(k) {
          IndexTable(db, i, k);
        }
      } else {
        NothingChosen(db);
      }
    }
  }

  /** At most one variant is exact or a fallback: the chosen one. */
  lemma ChosenOnly(db: Database)
    requires Choice(db).Some?
    ensures var (i, fallback) := Choice(db).value;
            && (IsExact(db, i) <==> !fallback) && (IsFallback(db, i) <==> fallback)
            && forall k: nat :: IsExact(db, k) || IsFallback(db, k) ==> k == i
  {
    ChoiceTable(db, Choice(db).value.0);
    forall k: nat | IsExact(db, k) || IsFallback(db, k) ensures k == Choice(db).value.0 {
      ChoiceTable(db, k);
    }
  }

  lemma NothingChosen(db: Database)
    requires Choice(db).None?
    ensures forall k: nat :: !IsExact(db, k) && !IsFallback(db, k)
  {
    forall k: nat ensures !IsExact(db, k) && !IsFallback(db, k) {
      ChoiceTable(db, k);
    }
  }

  /** An exact match is never given up for the base variant, whether or not falling back is allowed. */
  lemma ExactBeatsFallback(db: Database, state: EcuState, i: nat)
    requires IsExact(db, i)
    ensures !OnlyBase(db) && forall k: nat :: !IsFallback(db, k)
    ensures DetectVariant(db.(fallbackToBase := true), state, true)
         == DetectVariant(db.(fallbackToBase := false), state, true)
  {
    assert IsExact(db.(fallbackToBase := true), i) && IsExact(db.(fallbackToBase := false), i);
    ChoiceTable(db.(fallbackToBase := true), i);
    ChoiceTable(db.(fallbackToBase := false), i);
  }

  /** A variant with a name is always found again, though possibly as an earlier one of the same name. */
  lemma NamedIsIndexed(db: Database, i: nat)
    requires i < |db.variants| && db.variants[i].name.Some?
    ensures exists j: nat :: j <= i && IsIndexOf(db, i, j)
  {
    var index := IndexOf(db, NameOf(db.variants[i]));
    IndexTable(db, i, index.value);
  }

  /** Responses that do not convert identify nothing, but leave the fallback as it is: the base variant is
      started, or strands the ECU for want of a start state. */
  lemma UnconvertedFallsBack(db: Database, state: EcuState)
    requires !db.converts && Available(db)
    ensures !Identifies(db)
    ensures OnlyBase(db) <==>
            && db.fallbackToBase
            && exists i: nat, j: nat :: IsFirstBase(db, i) && IsIndexOf(db, i, j) && CanStart(db.variants[j])
    ensures Strands(db, state) <==>
            && db.fallbackToBase
            && exists i: nat, j: nat :: IsFirstBase(db, i) && IsIndexOf(db, i, j) && !CanStart(db.variants[j])
  {
    assert forall i: nat :: IsFallback(db, i) <==> db.fallbackToBase && IsFirstBase(db, i);
    assert forall i: nat :: !IsExact(db, i);
  }

  /** An unanswered detection takes the ECU Offline and keeps its variant, or changes nothing because the
      database does not load. */
  lemma Unanswered(db: Database, state: EcuState)
    ensures DetectVariant(db, state, false)
         == Detection(Available(db), if Available(db) then state.(connectivity := Offline) else state)
  {
  }
}
