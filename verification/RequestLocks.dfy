/** Serialization of requests per transport target: the lock key of a target, and the table of
    single-permit semaphores under those keys. */
module RequestLocks {
  import opened Bytes
  import DuplicateGroups

  // -- CAN identifiers

  datatype CanId = Standard(id: u16) | Extended(ext: u32)

  datatype CanIds = CanIds(request: CanId, response: CanId)

  function Raw(c: CanId): u32 { if c.Standard? then c.id else c.ext }

  function CanIdFrom(raw: u32): (r: Option<CanId>)
    ensures r.Some? <==> raw <= 0x1FFF_FFFF
    ensures r.Some? ==> Raw(r.value) == raw && (r.value.Standard? <==> raw <= 0x7FF)
  {
    if raw <= 0x7FF then Some(Standard(raw))
    else if raw <= 0x1FFF_FFFF then Some(Extended(raw))
    else None
  }

  /** What validation can produce. */
  predicate Validated(c: CanId) { CanIdFrom(Raw(c)) == Some(c) }

  // -- hexadecimal, as `{:X}` prints it

  function Digit(d: nat): (c: char)
    requires d < 16
    ensures '0' <= c <= 'F' && c != '@'
    ensures DigitValue(c) == d
  {
    "0123456789ABCDEF"[d]
  }

  function DigitValue(c: char): nat {
    if '0' <= c <= '9' then c as nat - '0' as nat
    else if 'A' <= c <= 'F' then 10 + (c as nat - 'A' as nat)
    else 0
  }

  function Hex(n: nat): (s: string)
    ensures |s| > 0
  {
    if n < 16 then [Digit(n)] else Hex(n / 16) + [Digit(n % 16)]
  }

  /** Zero-padded to at least four digits. */
  function Hex4(n: nat): string { var s := Hex(n); seq(if |s| < 4 then 4 - |s| else 0, _ => '0') + s }

  function HexValue(s: string): nat {
    if s == [] then 0 else 16 * HexValue(s[..|s| - 1]) + DigitValue(s[|s| - 1])
  }

  lemma {:induction false} HexRoundTrip(n: nat)
    ensures HexValue(Hex(n)) == n && '@' !in Hex(n)
  {
    var s := Hex(n);
    if n < 16 {
      assert HexValue(s[..0]) == 0;
    } else {
      HexRoundTrip(n / 16);
      assert s[..|s| - 1] == Hex(n / 16);
    }
  }

  lemma {:induction false} PaddingKeepsValue(k: nat, s: string)
    ensures HexValue(seq(k, _ => '0') + s) == HexValue(s)
  {
    var z := seq(k, _ => '0');
    var t := z + s;
    if s != [] {
      PaddingKeepsValue(k, s[..|s| - 1]);
      assert t[..|t| - 1] == z + s[..|s| - 1];
    } else if k > 0 {
      PaddingKeepsValue(k - 1, []);
      assert t[..|t| - 1] == seq(k - 1, _ => '0') + [];
      assert t[|t| - 1] == '0';
    }
  }

  lemma Hex4RoundTrip(n: nat)
    ensures HexValue(Hex4(n)) == n && '@' !in Hex4(n)
  {
    var s := Hex(n);
    HexRoundTrip(n);
    PaddingKeepsValue(if |s| < 4 then 4 - |s| else 0, s);
  }

  // -- keys

  /** What a request is keyed on. `resolved` says that the address pair is not the shared fallback. */
  datatype Target = Target(resolved: bool, gateway: u16, logical: u16, can: Option<CanIds>, name: string)

  ghost predicate ValidTarget(t: Target) {
    t.can.Some? ==> Validated(t.can.value.request) && Validated(t.can.value.response)
  }

  /** `lower` is the Unicode lower-casing of the name. */
  function LockKey(lower: string -> string, t: Target): string {
    if t.resolved then "logical:" + Pair("0x" + Hex4(t.gateway), "0x" + Hex4(t.logical))
    else if t.can.Some? then
      "can:" + Pair("0x" + Hex(Raw(t.can.value.request)), "0x" + Hex(Raw(t.can.value.response)))
    else "ecu:" + lower(t.name)
  }

  function Pair(a: string, b: string): string { a + "@" + b }

  /** Both resolved to one address pair, or both identified by one CAN pair, or both known by name only. */
  predicate SameTarget(lower: string -> string, a: Target, b: Target) {
    if a.resolved || b.resolved then
      a.resolved && b.resolved && a.gateway == b.gateway && a.logical == b.logical
    else if a.can.Some? || b.can.Some? then a.can == b.can
    else lower(a.name) == lower(b.name)
  }

  lemma SamePrefix(p: string, a: string, b: string)
    requires p + a == p + b
    ensures a == b
  {
    assert (p + a)[|p|..] == a && (p + b)[|p|..] == b;
  }

  lemma PairInjective(a: string, b: string, c: string, d: string)
    requires '@' !in a && '@' !in c && Pair(a, b) == Pair(c, d)
    ensures a == c && b == d
  {
    var s, t := Pair(a, b), Pair(c, d);
    assert s[|a|] == '@' && t[|c|] == '@';
    assert s[..|a|] == a && t[..|c|] == c;
    assert s[|a| + 1..] == b && t[|c| + 1..] == d;
  }

  lemma HexPairInjective(a: nat, b: nat, c: nat, d: nat)
    requires Pair("0x" + Hex(a), "0x" + Hex(b)) == Pair("0x" + Hex(c), "0x" + Hex(d))
    ensures a == c && b == d
  {
    HexRoundTrip(a);
    HexRoundTrip(b);
    HexRoundTrip(c);
    HexRoundTrip(d);
    PairInjective("0x" + Hex(a), "0x" + Hex(b), "0x" + Hex(c), "0x" + Hex(d));
    SamePrefix("0x", Hex(a), Hex(c));
    SamePrefix("0x", Hex(b), Hex(d));
  }

  lemma Hex4PairInjective(a: nat, b: nat, c: nat, d: nat)
    requires Pair("0x" + Hex4(a), "0x" + Hex4(b)) == Pair("0x" + Hex4(c), "0x" + Hex4(d))
    ensures a == c && b == d
  {
    Hex4RoundTrip(a);
    Hex4RoundTrip(b);
    Hex4RoundTrip(c);
    Hex4RoundTrip(d);
    PairInjective("0x" + Hex4(a), "0x" + Hex4(b), "0x" + Hex4(c), "0x" + Hex4(d));
    SamePrefix("0x", Hex4(a), Hex4(c));
    SamePrefix("0x", Hex4(b), Hex4(d));
  }

  /** Keys are equal exactly for one transport target. */
  lemma KeysIdentifyTargets(lower: string -> string, a: Target, b: Target)
    requires ValidTarget(a) && ValidTarget(b)
    ensures LockKey(lower, a) == LockKey(lower, b) <==> SameTarget(lower, a, b)
  {
    var k, l := LockKey(lower, a), LockKey(lower, b);
    assert k[0] == if a.resolved then 'l' else if a.can.Some? then 'c' else 'e';
    assert l[0] == if b.resolved then 'l' else if b.can.Some? then 'c' else 'e';
    if k == l {
      if a.resolved {
        assert k[8..] == Pair("0x" + Hex4(a.gateway), "0x" + Hex4(a.logical));
        assert l[8..] == Pair("0x" + Hex4(b.gateway), "0x" + Hex4(b.logical));
        Hex4PairInjective(a.gateway, a.logical, b.gateway, b.logical);
      } else if a.can.Some? {
        var x, y := a.can.value, b.can.value;
        assert k[4..] == Pair("0x" + Hex(Raw(x.request)), "0x" + Hex(Raw(x.response)));
        assert l[4..] == Pair("0x" + Hex(Raw(y.request)), "0x" + Hex(Raw(y.response)));
        HexPairInjective(Raw(x.request), Raw(x.response), Raw(y.request), Raw(y.response));
      } else {
        assert k[4..] == lower(a.name) && l[4..] == lower(b.name);
      }
    }
  }

  // -- duplicate groups

  /** The target by which descriptions are grouped (`DuplicateTargetKey`). */
  function TransportOf(t: Target): DuplicateGroups.Target {
    if t.resolved then DuplicateGroups.Doip(t.gateway, t.logical)
    else if t.can.Some? then DuplicateGroups.Can(Raw(t.can.value.request), Raw(t.can.value.response))
    else DuplicateGroups.Unidentified
  }

  /** Descriptions of one duplicate group share their lock, and nobody else does, except descriptions
      without any target whose names differ only in case. */
  lemma DuplicatesShareLock(lower: string -> string, loaded: map<Name, Target>, a: Name, b: Name)
    requires a in loaded && b in loaded && a != b && ValidTarget(loaded[a]) && ValidTarget(loaded[b])
    ensures var db := map n | n in loaded :: TransportOf(loaded[n]);
            LockKey(lower, loaded[a]) == LockKey(lower, loaded[b]) <==>
            || b in DuplicateGroups.DuplicatesOf(db, a)
            || (db[a] == db[b] == DuplicateGroups.Unidentified && lower(loaded[a].name) == lower(loaded[b].name))
  {
    KeysIdentifyTargets(lower, loaded[a], loaded[b]);
  }
}

/** The table of request semaphores, under every interleaving of requests. */
module RequestSemaphores {
  import opened Bytes
  import opened RequestLocks
  import Runs

  datatype Phase = Waiting | Holding | Over

  /** A request has fetched its semaphore and waits for, holds, or is done with its permit. */
  datatype Request = Request(key: string, semaphore: nat, phase: Phase)

  /** `table` maps a key to a semaphore; `permits` are the free permits of each semaphore created. */
  datatype State = State(table: map<string, nat>, permits: seq<nat>, requests: map<nat, Request>)

  const INIT := State(map[], [], map[])

  datatype Action =
    | Fetch(id: nat, key: string)      // entry(key).or_insert_with(one permit)
    | Acquire(id: nat)
    | GiveUp(id: nat)                  // ten seconds without a permit
    | Release(id: nat)

  predicate InPhase(s: State, id: nat, phase: Phase) { id in s.requests && s.requests[id].phase == phase }

  function SetPhase(s: State, id: nat, phase: Phase): State
    requires id in s.requests
  {
    s.(requests := s.requests[id := s.requests[id].(phase := phase)])
  }

  function SetPermits(s: State, sem: nat, n: int): State {
    if sem < |s.permits| && n >= 0 then s.(permits := s.permits[sem := n]) else s
  }

  function Free(s: State, sem: nat): nat { if sem < |s.permits| then s.permits[sem] else 0 }

  function Step(s: State, a: Action): State {
    match a
    case Fetch(id, key) =>
      if id in s.requests then s
      else if key in s.table then s.(requests := s.requests[id := Request(key, s.table[key], Waiting)])
      else s.(table := s.table[key := |s.permits|], permits := s.permits + [1],
              requests := s.requests[id := Request(key, |s.permits|, Waiting)])
    case Acquire(id) =>
      if InPhase(s, id, Waiting) && Free(s, s.requests[id].semaphore) > 0
      then SetPermits(SetPhase(s, id, Holding), s.requests[id].semaphore, Free(s, s.requests[id].semaphore) - 1)
      else s
    case GiveUp(id) => if InPhase(s, id, Waiting) then SetPhase(s, id, Over) else s
    case Release(id) =>
      if InPhase(s, id, Holding)
      then SetPermits(SetPhase(s, id, Over), s.requests[id].semaphore, Free(s, s.requests[id].semaphore) + 1)
      else s
  }

  function Exec(schedule: seq<Action>): State { Runs.Exec(Step, INIT, schedule) }

  ghost predicate TableInv(s: State) {
    && (forall k :: k in s.table ==> s.table[k] < |s.permits|)
    && (forall k, l :: k in s.table && l in s.table && s.table[k] == s.table[l] ==> k == l)
    && (forall id :: id in s.requests ==>
          s.requests[id].key in s.table && s.table[s.requests[id].key] == s.requests[id].semaphore)
  }

  predicate Holds(s: State, id: nat, sem: nat) { InPhase(s, id, Holding) && s.requests[id].semaphore == sem }

  ghost predicate SoleHolder(s: State, id: nat, sem: nat) {
    Holds(s, id, sem) && forall other :: Holds(s, other, sem) ==> other == id
  }

  /** A semaphore's one permit is free, or with exactly one request. */
  ghost predicate OnePermit(s: State, sem: nat)
    requires sem < |s.permits|
  {
    if s.permits[sem] == 0 then exists id :: SoleHolder(s, id, sem)
    else s.permits[sem] == 1 && forall id :: !Holds(s, id, sem)
  }

  ghost predicate PermitInv(s: State) { forall sem :: 0 <= sem < |s.permits| ==> OnePermit(s, sem) }

  lemma StepKeepsTable(s: State, a: Action)
    requires TableInv(s)
    ensures TableInv(Step(s, a))
  {
    match a
    case Fetch(id, key) => FetchKeepsTable(s, id, key);
    case Acquire(id) =>
      if id in s.requests {
        PhaseKeepsTable(s, id, Holding);
        PermitsKeepTable(SetPhase(s, id, Holding), s.requests[id].semaphore, Free(s, s.requests[id].semaphore) - 1);
      }
    case GiveUp(id) => if id in s.requests { PhaseKeepsTable(s, id, Over); }
    case Release(id) =>
      if id in s.requests {
        PhaseKeepsTable(s, id, Over);
        PermitsKeepTable(SetPhase(s, id, Over), s.requests[id].semaphore, Free(s, s.requests[id].semaphore) + 1);
      }
  }

  lemma StepKeepsKeys(s: State, a: Action)
    ensures forall k :: k in s.table ==> k in Step(s, a).table && Step(s, a).table[k] == s.table[k]
  {
  }

  lemma PermitsKeepTable(s: State, sem: nat, n: int)
    requires TableInv(s)
    ensures TableInv(SetPermits(s, sem, n))
  {
    var t := SetPermits(s, sem, n);
    assert t.table == s.table && t.requests == s.requests && |t.permits| == |s.permits|;
  }

  lemma PhaseKeepsTable(s: State, id: nat, phase: Phase)
    requires TableInv(s) && id in s.requests
    ensures TableInv(SetPhase(s, id, phase))
  {
    var t := SetPhase(s, id, phase);
    forall j | j in t.requests
      ensures t.requests[j].key in t.table && t.table[t.requests[j].key] == t.requests[j].semaphore
    {
      assert j in s.requests;
    }
  }

  lemma FetchKeepsTable(s: State, id: nat, key: string)
    requires TableInv(s)
    ensures TableInv(Step(s, Fetch(id, key)))
  {
    var t := Step(s, Fetch(id, key));
    forall j | j in t.requests
      ensures t.requests[j].key in t.table && t.table[t.requests[j].key] == t.requests[j].semaphore
    {
      if j in s.requests { assert t.requests[j] == s.requests[j]; }
    }
  }

  lemma SameHolders(s: State, t: State, sem: nat)
    requires sem < |s.permits| && sem < |t.permits| && s.permits[sem] == t.permits[sem] && OnePermit(s, sem)
    requires forall id :: Holds(t, id, sem) <==> Holds(s, id, sem)
    ensures OnePermit(t, sem)
  {
    if s.permits[sem] == 0 {
      var id :| SoleHolder(s, id, sem);
      assert SoleHolder(t, id, sem);
    }
  }

  lemma StepKeepsPermits(s: State, a: Action)
    requires TableInv(s) && PermitInv(s)
    ensures PermitInv(Step(s, a))
  {
    var t := Step(s, a);
    forall sem | 0 <= sem < |t.permits| ensures OnePermit(t, sem) {
      if a.Fetch? { FetchKeepsPermit(s, a.id, a.key, sem); } else { PhaseKeepsPermit(s, a, sem); }
    }
  }

  lemma FetchKeepsPermit(s: State, id: nat, key: string, sem: nat)
    requires TableInv(s) && PermitInv(s) && sem < |Step(s, Fetch(id, key)).permits|
    ensures OnePermit(Step(s, Fetch(id, key)), sem)
  {
    if sem < |s.permits| {
      SameHolders(s, Step(s, Fetch(id, key)), sem);
    }
  }

  lemma PhaseKeepsPermit(s: State, a: Action, sem: nat)
    requires TableInv(s) && PermitInv(s) && !a.Fetch? && sem < |s.permits|
    ensures |Step(s, a).permits| == |s.permits| && OnePermit(Step(s, a), sem)
  {
    var t := Step(s, a);
    assert OnePermit(s, sem);
    assert forall id :: id != a.id ==> Holds(t, id, sem) == Holds(s, id, sem);
    if t.permits[sem] == s.permits[sem] {
      SameHolders(s, t, sem);
    } else if a.Acquire? {
      assert SoleHolder(t, a.id, sem);
    } else {
      assert Holds(s, a.id, sem);
    }
  }

  lemma {:induction false} Always(schedule: seq<Action>)
    ensures TableInv(Exec(schedule)) && PermitInv(Exec(schedule))
  {
    if schedule != [] {
      var s, a := Exec(schedule[..|schedule| - 1]), schedule[|schedule| - 1];
      Always(schedule[..|schedule| - 1]);
      StepKeepsTable(s, a);
      StepKeepsPermits(s, a);
    }
  }

  /** A key keeps its semaphore for the rest of the run. */
  lemma {:induction false} KeyKeepsSemaphore(schedule: seq<Action>, n: nat, key: string)
    requires n <= |schedule| && key in Exec(schedule[..n]).table
    ensures key in Exec(schedule).table && Exec(schedule).table[key] == Exec(schedule[..n]).table[key]
  {
    if n == |schedule| {
      assert schedule[..n] == schedule;
    } else {
      var before := schedule[..|schedule| - 1];
      assert before[..n] == schedule[..n];
      KeyKeepsSemaphore(before, n, key);
      StepKeepsKeys(Exec(before), schedule[|schedule| - 1]);
    }
  }

  ghost predicate Serves(lower: string -> string, s: State, id: nat, target: Target) {
    id in s.requests && s.requests[id].key == LockKey(lower, target) && ValidTarget(target)
  }

  /** Two requests for one transport target never hold its permit at the same time. */
  lemma RequestsNeverOverlap(lower: string -> string, schedule: seq<Action>, a: nat, b: nat, x: Target, y: Target)
    requires var s := Exec(schedule); InPhase(s, a, Holding) && InPhase(s, b, Holding)
    requires Serves(lower, Exec(schedule), a, x) && Serves(lower, Exec(schedule), b, y)
    requires SameTarget(lower, x, y)
    ensures a == b
  {
    KeysIdentifyTargets(lower, x, y);
    OneHolderPerKey(schedule, a, b);
  }

  lemma OneHolderPerKey(schedule: seq<Action>, a: nat, b: nat)
    requires var s := Exec(schedule);
             InPhase(s, a, Holding) && InPhase(s, b, Holding) && s.requests[a].key == s.requests[b].key
    ensures a == b
  {
    Always(schedule);
    OneHolder(Exec(schedule), a, b);
  }

  lemma OneHolder(s: State, a: nat, b: nat)
    requires TableInv(s) && PermitInv(s)
    requires InPhase(s, a, Holding) && InPhase(s, b, Holding) && s.requests[a].key == s.requests[b].key
    ensures a == b
  {
    var sem := s.requests[a].semaphore;
    assert OnePermit(s, sem) && Holds(s, a, sem) && Holds(s, b, sem);
  }

  /** A waiting request is held up exactly by a holder for its own target. */
  lemma HeldUpByOwnTarget(lower: string -> string, schedule: seq<Action>, targets: nat -> Target, b: nat)
    requires InPhase(Exec(schedule), b, Waiting)
    requires forall id :: id in Exec(schedule).requests ==> Serves(lower, Exec(schedule), id, targets(id))
    ensures var s := Exec(schedule);
            InPhase(Step(s, Acquire(b)), b, Holding)
            <==> forall a :: InPhase(s, a, Holding) ==> !SameTarget(lower, targets(a), targets(b))
  {
    var s := Exec(schedule);
    Always(schedule);
    var sem := s.requests[b].semaphore;
    assert OnePermit(s, sem);
    forall a | InPhase(s, a, Holding)
      ensures Holds(s, a, sem) <==> SameTarget(lower, targets(a), targets(b))
    {
      assert Serves(lower, s, a, targets(a)) && Serves(lower, s, b, targets(b));
      KeysIdentifyTargets(lower, targets(a), targets(b));
    }
    if s.permits[sem] == 0 {
      var c :| SoleHolder(s, c, sem);
    }
  }
}
