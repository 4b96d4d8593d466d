/** The request/response exchange of the CAN gateway: read until a frame answers the request or the
    deadline passes; only pending NRCs move the deadline. */
module CanExchange {
  import opened Bytes
  import opened Uds
  import opened Channels

  /** What the next read meets, `after` units of time into the read. A read returns within the window
      it is given, so anything later than the window is a timeout at its end. */
  datatype Reading =
    | Frame(data: seq<byte>, after: nat)
    | Broken(after: nat)
    | Hangup(after: nat)
    | Quiet

  datatype End = Answered(data: seq<byte>) | TimedOut | Failed | HungUp

  predicate IsPending(r: Reading) { r.Frame? && PendingNrcFromRaw(r.data).Some? }

  predicate IsFinal(sid: byte, r: Reading) { r.Frame? && !IsPending(r) && MatchesRequestSid(sid, r.data) }

  /** A frame that is read past without effect on the deadline. */
  predicate IsUnrelated(sid: byte, r: Reading) { r.Frame? && !IsPending(r) && !MatchesRequestSid(sid, r.data) }

  function After(r: Reading): nat { if r.Quiet? then 0 else r.after }

  /** Time at which the first n readings have been made. */
  function Time(script: seq<Reading>, n: nat): (t: nat)
    requires n <= |script|
  {
    if n == 0 then 0 else Time(script, n - 1) + After(script[n - 1])
  }

  function Pendings(script: seq<Reading>, n: nat): (k: nat)
    requires n <= |script|
  {
    if n == 0 then 0 else Pendings(script, n - 1) + (if IsPending(script[n - 1]) then 1 else 0)
  }

  /** One response timeout after the last pending NRC, or after the start. */
  function Deadline(script: seq<Reading>, n: nat, responseTimeout: nat): (t: nat)
    requires n <= |script|
  {
    if n == 0 then responseTimeout
    else if IsPending(script[n - 1]) then Time(script, n) + responseTimeout
    else Deadline(script, n - 1, responseTimeout)
  }

  /** Every one of the first n readings came within the window of its read. */
  ghost predicate InWindow(script: seq<Reading>, n: nat, responseTimeout: nat)
    requires n <= |script|
  {
    forall k :: 0 <= k < n ==> Time(script, k + 1) <= Deadline(script, k, responseTimeout)
  }

  /** However many unrelated frames arrive, p pendings allow at most (p + 1) response timeouts. */
  lemma {:induction false} DeadlineBound(script: seq<Reading>, n: nat, responseTimeout: nat)
    requires n <= |script| && InWindow(script, n, responseTimeout)
    ensures Deadline(script, n, responseTimeout) <= (Pendings(script, n) + 1) * responseTimeout
  {
    if n > 0 {
      DeadlineBound(script, n - 1, responseTimeout);
      assert Time(script, (n - 1) + 1) <= Deadline(script, n - 1, responseTimeout);
      var p := Pendings(script, n - 1);
      assert (p + 1 + 1) * responseTimeout == (p + 1) * responseTimeout + responseTimeout;
    }
  }

  function PendingItems(script: seq<Reading>, n: nat): (r: seq<ChannelItem>)
    requires n <= |script|
    ensures |r| == Pendings(script, n)
    ensures forall k :: 0 <= k < |r| ==> r[k].Success? && r[k].value.Some? && r[k].value.value.Pending?
  {
    if n == 0 then []
    else if IsPending(script[n - 1])
    then PendingItems(script, n - 1) + [Success(Some(Pending(PendingNrcFromRaw(script[n - 1].data).value)))]
    else PendingItems(script, n - 1)
  }

  function Terminal(end: End, source: u16, target: u16): (r: seq<ChannelItem>)
    ensures |r| <= 1
  {
    match end
    case Answered(data) => [Success(Some(UdsResponse(UdsResponseFromRaw(data, source, target))))]
    case TimedOut => [Failure(Timeout)]
    case Failed => [Failure(NoResponse)]
    case HungUp => []
  }

  /** Why the exchange stopped behind `used` readings. */
  ghost predicate Ended(
    script: seq<Reading>, sid: byte, responseTimeout: nat, room: nat, used: nat, end: End, elapsed: nat)
    requires used <= |script|
  {
    var deadline := Deadline(script, used, responseTimeout);
    match end
    case Answered(data) =>
      used > 0 && IsFinal(sid, script[used - 1]) && script[used - 1].data == data && elapsed == Time(script, used)
    case TimedOut =>
      && elapsed == deadline
      && (used == |script| || script[used].Quiet? || Time(script, used + 1) > deadline)
    case Failed =>
      && used < |script| && script[used].Broken? && elapsed == Time(script, used + 1) <= deadline
    case HungUp =>
      || (used < |script| && script[used].Hangup? && elapsed == Time(script, used + 1) <= deadline)
      || (used > 0 && IsPending(script[used - 1]) && Pendings(script, used) > room && elapsed == Time(script, used))
  }

  /** A reading within its window, as the functions over the script account for it. */
  lemma NextReading(script: seq<Reading>, n: nat, responseTimeout: nat)
    requires n < |script| && InWindow(script, n, responseTimeout)
    ensures Time(script, n + 1) == Time(script, n) + After(script[n])
    ensures Deadline(script, n + 1, responseTimeout)
         == if IsPending(script[n]) then Time(script, n + 1) + responseTimeout else Deadline(script, n, responseTimeout)
    ensures PendingItems(script, n + 1)
         == PendingItems(script, n)
            + if IsPending(script[n]) then [Success(Some(Pending(PendingNrcFromRaw(script[n].data).value)))] else []
    ensures Time(script, n + 1) <= Deadline(script, n, responseTimeout) ==> InWindow(script, n + 1, responseTimeout)
  {
  }

  /** What an exchange guarantees about the items it forwards, when and why it ends, and what it read. */
  ghost predicate Exchanged(
    script: seq<Reading>, sid: byte, source: u16, target: u16, responseTimeout: nat, room: nat,
    out: seq<ChannelItem>, end: End, elapsed: nat, used: nat)
  {
    && used <= |script|
    && out == Take(PendingItems(script, used) + Terminal(end, source, target), room)
    && InWindow(script, used, responseTimeout)
    && Ended(script, sid, responseTimeout, room, used, end, elapsed)
    && forall k :: 0 <= k < used && !(end.Answered? && k == used - 1) ==>
         IsPending(script[k]) || IsUnrelated(sid, script[k])
  }

  /** What holds whenever the loop is about to read. */
  ghost predicate Underway(
    script: seq<Reading>, sid: byte, responseTimeout: nat, room: nat,
    out: seq<ChannelItem>, used: nat, elapsed: nat, deadline: nat)
  {
    && used <= |script|
    && out == PendingItems(script, used) && |out| <= room
    && InWindow(script, used, responseTimeout)
    && elapsed == Time(script, used) <= deadline == Deadline(script, used, responseTimeout)
    && (forall k :: 0 <= k < used ==> IsPending(script[k]) || IsUnrelated(sid, script[k]))
  }

  /** What a frame adds to the pending items, by its bytes. */
  lemma PendingTable(script: seq<Reading>, n: nat)
    requires n < |script| && script[n].Frame?
    ensures var data := script[n].data;
            PendingItems(script, n + 1) == PendingItems(script, n) +
            if HasNrc(data, 0x78) then [Success(Some(Pending(ResponsePending)))]
            else if HasNrc(data, 0x21) then [Success(Some(Pending(BusyRepeatRequest)))]
            else if HasNrc(data, 0x94) then [Success(Some(Pending(TemporarilyNotAvailable)))]
            else []
    ensures var data := script[n].data;
            && (IsPending(script[n]) <==> HasNrc(data, 0x78) || HasNrc(data, 0x21) || HasNrc(data, 0x94))
            && (forall sid :: IsFinal(sid, script[n]) <==> !IsPending(script[n]) && AnswersSid(data, sid))
            && (forall sid :: IsUnrelated(sid, script[n]) <==> !IsPending(script[n]) && !AnswersSid(data, sid))
  {
    var data := script[n].data;
    ClassifyTable(data, 0, 0);
    forall sid ensures MatchesRequestSid(sid, data) <==> AnswersSid(data, sid) {
      FilterTables(data, sid);
    }
  }

  /** How an exchange ends for a caller that still listens: a silent one with Timeout, a broken one with
      NoResponse, an answered one with the frame's bytes and the request's addresses as given, and one the
      caller left with nothing behind the pendings. */
  lemma LastItem(
    script: seq<Reading>, sid: byte, source: u16, target: u16, responseTimeout: nat, room: nat,
    out: seq<ChannelItem>, end: End, elapsed: nat, used: nat)
    requires Exchanged(script, sid, source, target, responseTimeout, room, out, end, elapsed, used)
    requires Pendings(script, used) < room
    ensures out[..Pendings(script, used)] == PendingItems(script, used)
    ensures match end
            case TimedOut => out == PendingItems(script, used) + [Failure(Timeout)]
            case Failed => out == PendingItems(script, used) + [Failure(NoResponse)]
            case Answered(data) =>
              && used > 0 && script[used - 1].Frame? && script[used - 1].data == data && AnswersSid(data, sid)
              && out == PendingItems(script, used)
                        + [Success(Some(UdsResponse(ServicePayload(data, source, target, None, None))))]
            case HungUp => out == PendingItems(script, used)
  {
    if end.Answered? { FilterTables(end.data, sid); }
    assert PendingItems(script, used) + [] == PendingItems(script, used);
  }

  /** Ends before another frame is used. */
  lemma EndsUnread(
    script: seq<Reading>, sid: byte, source: u16, target: u16, responseTimeout: nat, room: nat,
    out: seq<ChannelItem>, used: nat, elapsed: nat, deadline: nat, end: End, at: nat)
    requires Underway(script, sid, responseTimeout, room, out, used, elapsed, deadline)
    requires Ended(script, sid, responseTimeout, room, used, end, at) && !end.Answered?
    ensures var sent := if end.HungUp? then out else Push(out, Terminal(end, source, target)[0], room);
            Exchanged(script, sid, source, target, responseTimeout, room, sent, end, at, used)
  {
    PushIsTake(out, Failure(Timeout), room);
    PushIsTake(out, Failure(NoResponse), room);
  }

  /** Ends with the frame just read. */
  lemma EndsRead(
    script: seq<Reading>, sid: byte, source: u16, target: u16, responseTimeout: nat, room: nat,
    out: seq<ChannelItem>, used: nat, elapsed: nat, deadline: nat)
    requires Underway(script, sid, responseTimeout, room, out, used, elapsed, deadline) && used < |script|
    requires script[used].Frame? && Time(script, used + 1) <= deadline
    ensures IsPending(script[used]) && |out| == room ==>
              Exchanged(script, sid, source, target, responseTimeout, room,
                        out, HungUp, Time(script, used + 1), used + 1)
    ensures IsFinal(sid, script[used]) ==>
              var end := Answered(script[used].data);
              Exchanged(script, sid, source, target, responseTimeout, room,
                        Push(out, Terminal(end, source, target)[0], room), end, Time(script, used + 1), used + 1)
  {
    NextReading(script, used, responseTimeout);
    if IsPending(script[used]) {
      PushIsTake(out, Success(Some(Pending(PendingNrcFromRaw(script[used].data).value))), room);
    } else {
      PushIsTake(out, Terminal(Answered(script[used].data), source, target)[0], room);
    }
  }

  /** Ends at the read itself: nothing in the window, a caller gone, a broken read. */
  lemma EndsAtRead(
    script: seq<Reading>, sid: byte, source: u16, target: u16, responseTimeout: nat, room: nat,
    out: seq<ChannelItem>, used: nat, elapsed: nat, deadline: nat)
    requires Underway(script, sid, responseTimeout, room, out, used, elapsed, deadline)
    ensures used == |script| || script[used].Quiet? || script[used].after > deadline - elapsed ==>
              Exchanged(script, sid, source, target, responseTimeout, room,
                        Push(out, Failure(Timeout), room), TimedOut, deadline, used)
    ensures used < |script| && !script[used].Quiet? && script[used].after <= deadline - elapsed ==>
              && (script[used].Hangup? ==>
                    Exchanged(script, sid, source, target, responseTimeout, room,
                              out, HungUp, elapsed + script[used].after, used))
              && (script[used].Broken? ==>
                    Exchanged(script, sid, source, target, responseTimeout, room,
                              Push(out, Failure(NoResponse), room), Failed, elapsed + script[used].after, used))
  {
    if used == |script| || script[used].Quiet? || script[used].after > deadline - elapsed {
      EndsUnread(script, sid, source, target, responseTimeout, room,
                 out, used, elapsed, deadline, TimedOut, deadline);
    } else if script[used].Hangup? {
      EndsUnread(script, sid, source, target, responseTimeout, room,
                 out, used, elapsed, deadline, HungUp, elapsed + script[used].after);
    } else if script[used].Broken? {
      EndsUnread(script, sid, source, target, responseTimeout, room,
                 out, used, elapsed, deadline, Failed, elapsed + script[used].after);
    }
  }

  /** A frame that does not end the exchange: a pending NRC moves the deadline, anything else does not. */
  lemma GoesOn(
    script: seq<Reading>, sid: byte, responseTimeout: nat, room: nat,
    out: seq<ChannelItem>, used: nat, elapsed: nat, deadline: nat)
    requires Underway(script, sid, responseTimeout, room, out, used, elapsed, deadline) && used < |script|
    requires script[used].Frame? && elapsed + script[used].after <= deadline
    ensures var at := elapsed + script[used].after;
            && Time(script, used + 1) == at
            && (IsPending(script[used]) && |out| < room ==>
                  Underway(script, sid, responseTimeout, room,
                           out + [Success(Some(Pending(PendingNrcFromRaw(script[used].data).value)))],
                           used + 1, at, at + responseTimeout))
            && (IsUnrelated(sid, script[used]) ==>
                  Underway(script, sid, responseTimeout, room, out, used + 1, at, deadline))
  {
    NextReading(script, used, responseTimeout);
  }

  /** The loop of `send` for an expected reply; the caller accepts `room` items. */
  method Exchange(script: seq<Reading>, sid: byte, source: u16, target: u16, responseTimeout: nat, room: nat)
    returns (out: seq<ChannelItem>, end: End, elapsed: nat, used: nat, receivedAny: bool)
    ensures Exchanged(script, sid, source, target, responseTimeout, room, out, end, elapsed, used)
    ensures receivedAny <==> exists k :: 0 <= k < used && script[k].Frame?
  {
    out, elapsed, used, receivedAny := [], 0, 0, false;
    var deadline: nat := responseTimeout;
    while true
      invariant Underway(script, sid, responseTimeout, room, out, used, elapsed, deadline)
      invariant receivedAny <==> used > 0
      decreases |script| - used
    {
      EndsAtRead(script, sid, source, target, responseTimeout, room, out, used, elapsed, deadline);
      if used == |script| || script[used].Quiet? || script[used].after > deadline - elapsed {
        return Push(out, Failure(Timeout), room), TimedOut, deadline, used, receivedAny;
      }
      var reading, at := script[used], elapsed + script[used].after;
      if reading.Hangup? {
        return out, HungUp, at, used, receivedAny;
      }
      if reading.Broken? {
        return Push(out, Failure(NoResponse), room), Failed, at, used, receivedAny;
      }
      GoesOn(script, sid, responseTimeout, room, out, used, elapsed, deadline);
      EndsRead(script, sid, source, target, responseTimeout, room, out, used, elapsed, deadline);
      used, receivedAny, elapsed := used + 1, true, at;
      if IsPending(reading) {
        deadline := elapsed + responseTimeout;
        if |out| >= room {
          return out, HungUp, elapsed, used, receivedAny;
        }
        out := out + [Success(Some(Pending(PendingNrcFromRaw(reading.data).value)))];
      } else if MatchesRequestSid(sid, reading.data) {
        return Push(out, Terminal(Answered(reading.data), source, target)[0], room), Answered(reading.data),
               elapsed, used, receivedAny;
      }
    }
  }

  /** The exchange ends within (pendings + 1) response timeouts of the loop start. */
  lemma EndsInTime(
    script: seq<Reading>, sid: byte, responseTimeout: nat, room: nat, used: nat, end: End, elapsed: nat)
    requires used <= |script| && InWindow(script, used, responseTimeout)
    requires Ended(script, sid, responseTimeout, room, used, end, elapsed)
    ensures elapsed <= (Pendings(script, used) + 1) * responseTimeout
  {
    DeadlineBound(script, used, responseTimeout);
    if used > 0 && (end.Answered? || end.HungUp?) {
      assert Time(script, (used - 1) + 1) <= Deadline(script, used - 1, responseTimeout);
    }
  }

  /** Pendings first, then at most one terminal item; a forwarded final response echoes the request's
      SID, and the request engine recognises it whenever the two SID filters agree. */
  lemma {:induction false} FinalResponseBelongsToRequest(
    script: seq<Reading>, sid: byte, source: u16, target: u16, responseTimeout: nat, room: nat,
    used: nat, end: End, elapsed: nat)
    requires used <= |script| && Ended(script, sid, responseTimeout, room, used, end, elapsed)
    ensures var out := Take(PendingItems(script, used) + Terminal(end, source, target), room);
            forall k :: 0 <= k < |out| && !(out[k].Success? && out[k].value.Some? && out[k].value.value.Pending?) ==>
              && k == |out| - 1
              && (out[k].Success? ==>
                    && out[k].value.Some? && out[k].value.value.UdsResponse?
                    && MatchesRequestSid(sid, out[k].value.value.msg.data)
                    && ((sid / 0x40 % 2 == 0 && sid != 0x3F) || sid == 0xFF ==>
                          IsResponseFor(out[k].value.value.msg.data, sid)))
  {
    FiltersAgree(sid);
  }

  /** No frame within the response timeout, and the silence lasted at least the probe timeout. */
  predicate Asleep(script: seq<Reading>, responseTimeout: nat, probeTimeout: nat) {
    if script == [] || script[0].Quiet? || script[0].after > responseTimeout then responseTimeout >= probeTimeout
    else !script[0].Frame? && script[0].after >= probeTimeout
  }

  /** An exchange without any frame is decided by its first reading. */
  lemma FirstReading(
    script: seq<Reading>, sid: byte, responseTimeout: nat, room: nat, used: nat, end: End, elapsed: nat)
    requires used <= |script| && InWindow(script, used, responseTimeout)
    requires Ended(script, sid, responseTimeout, room, used, end, elapsed)
    requires forall k :: 0 <= k < used && !(end.Answered? && k == used - 1) ==>
               IsPending(script[k]) || IsUnrelated(sid, script[k])
    ensures used > 0 ==> script[0].Frame? && script[0].after <= responseTimeout
    ensures used == 0 ==>
              elapsed == (if script == [] || script[0].Quiet? || script[0].after > responseTimeout
                          then responseTimeout else script[0].after)
              && !(script != [] && script[0].Frame? && script[0].after <= responseTimeout)
  {
    if script != [] {
      assert Time(script, 0 + 1) == After(script[0]) && Deadline(script, 0, responseTimeout) == responseTimeout;
    }
  }

  function SidOf(request: seq<byte>): byte { if request == [] then 0 else request[0] }

  /** The gateway's record of which ECUs have been discovered. */
  class CanGateway {
    var discovered: set<Name>

    constructor (discovered: set<Name>)
      ensures this.discovered == discovered
    {
      this.discovered := discovered;
    }

    /** `send` and the task it spawns: an ECU that is not discovered is refused; one that stayed silent
        for a whole exchange of at least the probe timeout is dropped from the discovered set. */
    method Send(
      ecu: Name, script: seq<Reading>, socketOpen: bool, request: seq<byte>, source: u16, target: u16,
      responseTimeout: nat, probeTimeout: nat, expectReply: bool, room: nat)
      returns (accepted: bool, out: seq<ChannelItem>)
      modifies this
      ensures accepted <==> ecu in old(discovered)
      ensures discovered ==
                if accepted && socketOpen && expectReply && Asleep(script, responseTimeout, probeTimeout)
                then old(discovered) - {ecu} else old(discovered)
      ensures accepted && !socketOpen ==> out == Take([Failure(NoResponse)], room)
      ensures accepted && socketOpen && !expectReply ==> out == Take([Success(None)], room)
      ensures accepted && socketOpen && expectReply ==>
                exists end, elapsed, used ::
                  Exchanged(script, SidOf(request), source, target, responseTimeout, room, out, end, elapsed, used)
      ensures !accepted ==> out == []
    {
      accepted, out := ecu in discovered, [];
      if !accepted { return; }
      if !socketOpen {
        out := Push(out, Failure(NoResponse), room);
        return;
      }
      if !expectReply {
        out := Push(out, Success(None), room);
        return;
      }
      var sid := SidOf(request);
      var items, end, elapsed, used, receivedAny := Exchange(script, sid, source, target, responseTimeout, room);
      out := items;
      FirstReading(script, sid, responseTimeout, room, used, end, elapsed);
      if !receivedAny && elapsed >= probeTimeout {
        discovered := discovered - {ecu};
      }
    }
  }
}
