/** The DoIP connection-reset task and the split connection it renews. Establish calls are numbered
    from 0 and `establish(c)` is the arbitrary outcome of call c. */
module ConnectionReset {
  import opened Bytes

  /** Which establish call a socket half came from; the connection found at start-up is None. */
  type Source = Option<nat>

  /** The two halves, each behind its own mutex. */
  class EcuConnectionTarget {
    var rx: Option<Source>
    var tx: Option<Source>

    /** Both halves present and from the same connection. */
    ghost predicate Whole() reads this { rx.Some? && rx == tx }

    constructor (source: Source)
      ensures Whole() && rx == Some(source)
    {
      rx := Some(source);
      tx := Some(source);
    }

    /** `reconnect`, called with both locks held. */
    method Reconnect(source: Source)
      modifies this
      ensures Whole() && rx == Some(source)
    {
      rx := Some(source);
      tx := Some(source);
    }
  }

  datatype Event = Disconnected | Attempt(call: nat, ok: bool) | Connected | Drain

  /** `max_retry_attempts` is compared only after a failed attempt, so there is always one. */
  function Budget(maxRetryAttempts: nat): (n: nat)
    ensures n >= 1
  {
    if maxRetryAttempts == 0 then 1 else maxRetryAttempts
  }

  /** Attempts of a round that begins with this call. */
  function Tries(establish: nat -> bool, call: nat, budget: nat): (n: nat)
    requires budget >= 1
    decreases budget
  {
    if establish(call) || budget == 1 then 1 else 1 + Tries(establish, call + 1, budget - 1)
  }

  /** The number of attempts is the position of the first success, cut off at the budget. */
  lemma {:induction false} TriesUntilSuccess(establish: nat -> bool, call: nat, budget: nat)
    requires budget >= 1
    ensures var n := Tries(establish, call, budget);
            && 1 <= n <= budget
            && (forall c :: call <= c < call + n - 1 ==> !establish(c))
            && (establish(call + n - 1) || n == budget)
    decreases budget
  {
    if !establish(call) && budget > 1 {
      TriesUntilSuccess(establish, call + 1, budget - 1);
    }
  }

  function AttemptEvents(establish: nat -> bool, call: nat, n: nat): (r: seq<Event>)
    ensures |r| == n
  {
    seq(n, i requires 0 <= i < n => Attempt(call + i, establish(call + i)))
  }

  lemma NextAttempt(establish: nat -> bool, call: nat, n: nat)
    ensures AttemptEvents(establish, call, n + 1)
         == AttemptEvents(establish, call, n) + [Attempt(call + n, establish(call + n))]
  {
  }

  /** One reset request: disconnected, attempts, and after a success connected and the queued
      requests drained. */
  function RoundTrace(establish: nat -> bool, call: nat, budget: nat, drained: nat): (r: seq<Event>)
    requires budget >= 1
  {
    var n := Tries(establish, call, budget);
    [Disconnected] + AttemptEvents(establish, call, n)
    + (if establish(call + n - 1) then [Connected] + seq(drained, _ => Drain) else [])
  }

  function Trace(establish: nat -> bool, call: nat, budget: nat, rounds: seq<nat>): (r: seq<Event>)
    requires budget >= 1
    decreases |rounds|
  {
    if rounds == [] then []
    else RoundTrace(establish, call, budget, rounds[0])
         + Trace(establish, call + Tries(establish, call, budget), budget, rounds[1..])
  }

  /** The call of the last successful attempt. */
  function Latest(trace: seq<Event>, before: Source): (r: Source) {
    if trace == [] then before
    else
      var e := trace[|trace| - 1];
      if e.Attempt? && e.ok then Some(e.call) else Latest(trace[..|trace| - 1], before)
  }

  lemma LatestAppend(trace: seq<Event>, e: Event, before: Source)
    ensures Latest(trace + [e], before) == if e.Attempt? && e.ok then Some(e.call) else Latest(trace, before)
  {
    assert (trace + [e])[..|trace|] == trace;
  }

  /** After a success: connected, then the queued requests are taken off the channel. */
  method Drained(done: seq<Event>, drained: nat, ghost call: nat, ghost before: Source) returns (trace: seq<Event>)
    requires Latest(done, before) == Some(call)
    ensures trace == done + ([Connected] + seq(drained, _ => Drain))
    ensures Latest(trace, before) == Some(call)
  {
    LatestAppend(done, Connected, before);
    trace := done + [Connected];
    for i := 0 to drained
      invariant trace == done + ([Connected] + seq(i, _ => Drain))
      invariant Latest(trace, before) == Some(call)
    {
      LatestAppend(trace, Drain, before);
      assert seq(i + 1, _ => Drain) == seq(i, _ => Drain) + [Drain];
      trace := trace + [Drain];
    }
  }

  /** One round of the task ('reconnect loop). */
  method ServeRequest(
    target: EcuConnectionTarget, establish: nat -> bool, call: nat, maxRetryAttempts: nat, drained: nat)
    returns (trace: seq<Event>, next: nat)
    requires target.Whole()
    modifies target
    ensures trace == RoundTrace(establish, call, Budget(maxRetryAttempts), drained)
    ensures next == call + Tries(establish, call, Budget(maxRetryAttempts))
    ensures target.Whole() && target.rx == Some(Latest(trace, old(target.rx).value))
  {
    ghost var before := target.rx.value;
    var reconnectAttempts := 0;
    trace, next := [Disconnected], call;
    while true
      invariant target.Whole() && target.rx == Some(before)
      invariant next == call + reconnectAttempts && reconnectAttempts < Budget(maxRetryAttempts)
      invariant trace == [Disconnected] + AttemptEvents(establish, call, reconnectAttempts)
      invariant Tries(establish, call, Budget(maxRetryAttempts))
                == reconnectAttempts + Tries(establish, next, Budget(maxRetryAttempts) - reconnectAttempts)
      invariant Latest(trace, before) == before
      decreases Budget(maxRetryAttempts) - reconnectAttempts
    {
      var c, ok := next, establish(next);
      LatestAppend(trace, Attempt(c, ok), before);
      trace, next := trace + [Attempt(c, ok)], next + 1;
      NextAttempt(establish, call, reconnectAttempts);
      if ok {
        target.Reconnect(Some(c));
        trace := Drained(trace, drained, c, before);
        return;
      }
      reconnectAttempts := reconnectAttempts + 1;
      if reconnectAttempts >= maxRetryAttempts {
        return;
      }
    }
  }

  lemma {:induction false} LatestConcat(a: seq<Event>, b: seq<Event>, before: Source)
    ensures Latest(a + b, before) == Latest(b, Latest(a, before))
  {
    if b == [] {
      assert a + b == a;
    } else {
      LatestConcat(a, b[..|b| - 1], before);
      assert (a + b)[..|a + b| - 1] == a + b[..|b| - 1];
    }
  }

  lemma TraceUnfolds(establish: nat -> bool, call: nat, budget: nat, rounds: seq<nat>, r: nat, done: seq<Event>)
    requires budget >= 1 && r < |rounds|
    ensures done + Trace(establish, call, budget, rounds[r..])
         == (done + RoundTrace(establish, call, budget, rounds[r]))
            + Trace(establish, call + Tries(establish, call, budget), budget, rounds[r + 1..])
  {
    assert rounds[r..][1..] == rounds[r + 1..];
  }

  /** The events so far are those of the first r rounds, and the next establish call is this one. */
  ghost predicate DoneUpTo(
    establish: nat -> bool, budget: nat, rounds: seq<nat>, r: nat, done: seq<Event>, call: nat)
    requires budget >= 1
  {
    r <= |rounds| && done + Trace(establish, call, budget, rounds[r..]) == Trace(establish, 0, budget, rounds)
  }

  lemma NextRound(establish: nat -> bool, budget: nat, rounds: seq<nat>, r: nat, done: seq<Event>, call: nat)
    requires budget >= 1 && r < |rounds| && DoneUpTo(establish, budget, rounds, r, done, call)
    ensures DoneUpTo(establish, budget, rounds, r + 1, done + RoundTrace(establish, call, budget, rounds[r]),
                     call + Tries(establish, call, budget))
  {
    TraceUnfolds(establish, call, budget, rounds, r, done);
  }

  lemma AllRounds(establish: nat -> bool, budget: nat, rounds: seq<nat>, done: seq<Event>, call: nat)
    requires budget >= 1 && DoneUpTo(establish, budget, rounds, |rounds|, done, call)
    ensures done == Trace(establish, 0, budget, rounds)
  {
    assert rounds[|rounds|..] == [];
  }

  lemma NoRounds(establish: nat -> bool, budget: nat, rounds: seq<nat>)
    requires budget >= 1
    ensures DoneUpTo(establish, budget, rounds, 0, [], 0)
  {
    assert rounds[0..] == rounds;
  }

  /** The whole task, until the reset channel closes. `rounds` gives, per request taken from the
      channel, how many queued requests a success drains. */
  method ResetTask(target: EcuConnectionTarget, establish: nat -> bool, maxRetryAttempts: nat, rounds: seq<nat>)
    returns (trace: seq<Event>)
    requires target.Whole()
    modifies target
    ensures trace == Trace(establish, 0, Budget(maxRetryAttempts), rounds)
    ensures target.Whole() && target.rx == Some(Latest(trace, old(target.rx).value))
  {
    ghost var before, budget := target.rx.value, Budget(maxRetryAttempts);
    trace := [];
    var call := 0;
    NoRounds(establish, budget, rounds);
    for r := 0 to |rounds|
      invariant target.Whole() && target.rx == Some(Latest(trace, before))
      invariant DoneUpTo(establish, budget, rounds, r, trace, call)
    {
      NextRound(establish, budget, rounds, r, trace, call);
      var round: seq<Event>;
      round, call := ServeRequest(target, establish, call, maxRetryAttempts, rounds[r]);
      LatestConcat(trace, round, before);
      trace := trace + round;
    }
    AllRounds(establish, budget, rounds, trace, call);
  }

  // ---------------------------------------------------------------- notifications

  predicate IsNote(e: Event) { e.Disconnected? || e.Connected? }

  function Notes(trace: seq<Event>): (r: seq<Event>) {
    if trace == [] then []
    else if IsNote(trace[0]) then [trace[0]] + Notes(trace[1..])
    else Notes(trace[1..])
  }

  lemma {:induction false} NotesConcat(a: seq<Event>, b: seq<Event>)
    ensures Notes(a + b) == Notes(a) + Notes(b)
  {
    if a == [] {
      assert a + b == b;
    } else {
      NotesConcat(a[1..], b);
      assert (a + b)[1..] == a[1..] + b;
    }
  }

  lemma {:induction false} Unnoted(t: seq<Event>)
    requires forall i :: 0 <= i < |t| ==> !IsNote(t[i])
    ensures Notes(t) == []
  {
    if t != [] {
      Unnoted(t[1..]);
    }
  }

  /** (disconnected connected?)* */
  predicate Alternating(notes: seq<Event>) {
    && (forall i :: 0 <= i < |notes| ==> IsNote(notes[i]))
    && (forall i :: 0 <= i < |notes| && notes[i].Connected? ==> i > 0 && notes[i - 1].Disconnected?)
  }

  lemma RoundNotes(establish: nat -> bool, call: nat, budget: nat, drained: nat)
    requires budget >= 1
    ensures var n := Tries(establish, call, budget);
            Notes(RoundTrace(establish, call, budget, drained))
            == if establish(call + n - 1) then [Disconnected, Connected] else [Disconnected]
  {
    var n := Tries(establish, call, budget);
    var attempts := AttemptEvents(establish, call, n);
    var tail := if establish(call + n - 1) then [Connected] + seq(drained, _ => Drain) else [];
    NotesConcat([Disconnected] + attempts, tail);
    NotesConcat([Disconnected], attempts);
    Unnoted(attempts);
    if establish(call + n - 1) {
      NotesConcat([Connected], seq(drained, _ => Drain));
      Unnoted(seq(drained, _ => Drain));
    }
    assert Notes([Disconnected]) == [Disconnected] && Notes([Connected]) == [Connected];
  }

  /** Notifications of k rounds. */
  ghost predicate WellNoted(notes: seq<Event>, k: nat) {
    && Alternating(notes)
    && multiset(notes)[Disconnected] == k
    && (notes == [] || notes[0].Disconnected?)
  }

  /** Over every run of the task the notifications form (disconnected connected?)*, one disconnected
      per request taken. */
  lemma {:induction false} NotificationsAlternate(
    establish: nat -> bool, call: nat, budget: nat, rounds: seq<nat>)
    requires budget >= 1
    ensures WellNoted(Notes(Trace(establish, call, budget, rounds)), |rounds|)
    decreases |rounds|
  {
    if rounds != [] {
      var next := call + Tries(establish, call, budget);
      NotificationsAlternate(establish, next, budget, rounds[1..]);
      NotesUnfold(establish, call, budget, rounds);
      NotedConcat(Notes(RoundTrace(establish, call, budget, rounds[0])),
                  Notes(Trace(establish, next, budget, rounds[1..])), |rounds| - 1);
    }
  }

  /** The notes of the first round, split off. */
  lemma NotesUnfold(establish: nat -> bool, call: nat, budget: nat, rounds: seq<nat>)
    requires budget >= 1 && rounds != []
    ensures var head := Notes(RoundTrace(establish, call, budget, rounds[0]));
            && (head == [Disconnected] || head == [Disconnected, Connected])
            && Notes(Trace(establish, call, budget, rounds))
               == head + Notes(Trace(establish, call + Tries(establish, call, budget), budget, rounds[1..]))
  {
    RoundNotes(establish, call, budget, rounds[0]);
    NotesConcat(RoundTrace(establish, call, budget, rounds[0]),
                Trace(establish, call + Tries(establish, call, budget), budget, rounds[1..]));
  }

  lemma NotedConcat(head: seq<Event>, tail: seq<Event>, k: nat)
    requires head == [Disconnected] || head == [Disconnected, Connected]
    requires WellNoted(tail, k)
    ensures WellNoted(head + tail, k + 1)
  {
    var notes := head + tail;
    forall i | 0 <= i < |notes| ensures IsNote(notes[i]) {
      if i >= |head| { assert notes[i] == tail[i - |head|]; }
    }
    forall i | 0 <= i < |notes| && notes[i].Connected? ensures i > 0 && notes[i - 1].Disconnected? {
      if i >= |head| { assert notes[i] == tail[i - |head|] && i > |head|; }
    }
  }
}
