/** The per-request task of the DoIP gateway: wait for the acknowledgement (or a response that
    overtakes it), then forward what follows to the caller. */
module DoipStream {
  import opened Bytes
  import opened Uds
  import opened Channels

  datatype DoipEvent =
    | Msg(data: seq<byte>, source: u16, target: u16)
    | Ack(previous: seq<byte>)
    | DiagnosticNack(code: byte)
    | GenericNack(code: byte)
    | AliveCheckResponse
    | TesterPresentNrc(code: byte)

  /** What the per-ECU broadcast receiver yields: an event, an ECU error, or a closed receiver. */
  datatype StreamItem = Event(event: DoipEvent) | EcuFault | ReceiverClosed

  predicate MatchesRequest(e: DoipEvent, request: seq<byte>) {
    request != [] &&
    match e
    case Ack(previous) => previous <= request
    case Msg(data, _, _) => MatchesRequestSid(request[0], data)
    case _ => false
  }

  /** The acknowledgement wait ends at this item. */
  predicate Decisive(i: StreamItem, request: seq<byte>) {
    match i
    case Event(e) => e.DiagnosticNack? || e.GenericNack? || MatchesRequest(e, request)
    case _ => true
  }

  /** First decisive item among the first n. */
  function FirstDecisive(stream: seq<StreamItem>, request: seq<byte>, n: nat): (r: Option<nat>)
    requires n <= |stream|
    ensures r.Some? ==> r.value < n && Decisive(stream[r.value], request)
    ensures r.Some? ==> forall i :: 0 <= i < r.value ==> !Decisive(stream[i], request)
    ensures r.None? ==> forall i :: 0 <= i < n ==> !Decisive(stream[i], request)
  {
    if n == 0 then None
    else
      var r := FirstDecisive(stream, request, n - 1);
      if r.Some? then r else if Decisive(stream[n - 1], request) then Some(n - 1) else None
  }

  datatype AckOutcome = Acknowledged | Implied(event: DoipEvent) | Refused(error: DiagError)

  function AckOutcomeOf(i: StreamItem): AckOutcome {
    match i
    case Event(DiagnosticNack(code)) => Refused(Nack(code))
    case Event(GenericNack(code)) => Refused(Nack(code))
    case Event(Ack(_)) => Acknowledged
    case Event(e) => Implied(e)
    case _ => Refused(NoResponse)
  }

  /** An acknowledgement that repeats this request, or only its beginning. */
  predicate AckFor(i: StreamItem, request: seq<byte>) {
    && request != [] && i.Event? && i.event.Ack?
    && |i.event.previous| <= |request| && forall k :: 0 <= k < |i.event.previous| ==> i.event.previous[k] == request[k]
  }

  /** A message with the bytes of a response to this request. */
  predicate ResponseTo(i: StreamItem, request: seq<byte>) {
    request != [] && i.Event? && i.event.Msg? && AnswersSid(i.event.data, request[0])
  }

  predicate NackWith(i: StreamItem, code: byte) { i == Event(DiagnosticNack(code)) || i == Event(GenericNack(code)) }

  predicate Fault(i: StreamItem) { i.EcuFault? || i.ReceiverClosed? }

  /** Nothing among the first n items ends the wait. */
  ghost predicate WaitsThrough(stream: seq<StreamItem>, request: seq<byte>, n: nat)
    requires n <= |stream|
  {
    forall k :: 0 <= k < n ==>
      && !AckFor(stream[k], request) && !ResponseTo(stream[k], request) && !Fault(stream[k])
      && !(stream[k].Event? && (stream[k].event.DiagnosticNack? || stream[k].event.GenericNack?))
  }

  /** The outcome of the wait, item by item and in bytes. */
  ghost predicate WaitOutcome(stream: seq<StreamItem>, request: seq<byte>, inTime: nat, r: AckOutcome)
    requires inTime <= |stream|
  {
    && (r == Acknowledged <==>
          exists i: nat :: i < inTime && AckFor(stream[i], request) && WaitsThrough(stream, request, i))
    && (r.Implied? <==>
          exists i: nat :: i < inTime && ResponseTo(stream[i], request) && WaitsThrough(stream, request, i))
    && (forall e :: r == Implied(e) ==>
          exists i: nat :: i < inTime && stream[i] == Event(e) && WaitsThrough(stream, request, i))
    && (forall c :: r == Refused(Nack(c)) <==>
          exists i: nat :: i < inTime && NackWith(stream[i], c) && WaitsThrough(stream, request, i))
    && (r == Refused(NoResponse) <==>
          exists i: nat :: i < inTime && Fault(stream[i]) && WaitsThrough(stream, request, i))
    && (r == Refused(Timeout) <==> WaitsThrough(stream, request, inTime))
  }

  lemma DecisiveTable(i: StreamItem, request: seq<byte>)
    ensures Decisive(i, request) <==>
            || AckFor(i, request) || ResponseTo(i, request) || Fault(i)
            || (i.Event? && (i.event.DiagnosticNack? || i.event.GenericNack?))
    ensures Decisive(i, request) ==>
              && (AckOutcomeOf(i) == Acknowledged <==> AckFor(i, request))
              && (AckOutcomeOf(i).Implied? <==> ResponseTo(i, request))
              && (forall e :: AckOutcomeOf(i) == Implied(e) ==> i == Event(e))
              && (forall c :: AckOutcomeOf(i) == Refused(Nack(c)) <==> NackWith(i, c))
              && (AckOutcomeOf(i) == Refused(NoResponse) <==> Fault(i))
              && AckOutcomeOf(i) != Refused(Timeout)
  {
    if request != [] {
      if i.Event? && i.event.Msg? { FilterTables(i.event.data, request[0]); }
      if i.Event? && i.event.Ack? { PrefixIsPositionwise(i.event.previous, request); }
    }
  }

  lemma PrefixIsPositionwise(a: seq<byte>, b: seq<byte>)
    ensures a <= b <==> |a| <= |b| && forall k :: 0 <= k < |a| ==> a[k] == b[k]
  {
  }

  /** `wait_for_ack_or_response_until_timeout` ends at the first acknowledgement of this request, response
      to it, NACK or fault, whichever comes first, with that item's own outcome. */
  lemma WaitTable(stream: seq<StreamItem>, request: seq<byte>, inTime: nat)
    requires inTime <= |stream|
    ensures var first := FirstDecisive(stream, request, inTime);
            WaitOutcome(stream, request, inTime,
                        if first.Some? then AckOutcomeOf(stream[first.value]) else Refused(Timeout))
  {
    var first := FirstDecisive(stream, request, inTime);
    forall k | 0 <= k < inTime
      ensures Decisive(stream[k], request) <==>
              || AckFor(stream[k], request) || ResponseTo(stream[k], request) || Fault(stream[k])
              || (stream[k].Event? && (stream[k].event.DiagnosticNack? || stream[k].event.GenericNack?))
    {
      DecisiveTable(stream[k], request);
    }
    if first.Some? {
      DecisiveTable(stream[first.value], request);
      OnlyFirstWaited(stream, request, inTime, first.value);
    } else {
      assert WaitsThrough(stream, request, inTime);
    }
  }

  /** The item the wait ends at is the only one that is waited for and decisive. */
  lemma OnlyFirstWaited(stream: seq<StreamItem>, request: seq<byte>, inTime: nat, first: nat)
    requires first < inTime <= |stream| && Decisive(stream[first], request)
    requires forall k :: 0 <= k < first ==> !Decisive(stream[k], request)
    ensures WaitsThrough(stream, request, first) && !WaitsThrough(stream, request, inTime)
    ensures forall i: nat :: i < inTime && Decisive(stream[i], request) && WaitsThrough(stream, request, i) ==>
              i == first
  {
    forall k | 0 <= k <= first ensures Decisive(stream[k], request) <==> k == first {
    }
    forall k | 0 <= k < first
      ensures !AckFor(stream[k], request) && !ResponseTo(stream[k], request) && !Fault(stream[k])
      ensures !(stream[k].Event? && (stream[k].event.DiagnosticNack? || stream[k].event.GenericNack?))
    {
      DecisiveTable(stream[k], request);
    }
    DecisiveTable(stream[first], request);
  }

  /** `wait_for_ack_or_response_until_timeout`: `inTime` items arrive before the deadline. */
  method WaitForAckOrResponse(stream: seq<StreamItem>, request: seq<byte>, inTime: nat)
    returns (r: AckOutcome, consumed: nat)
    requires inTime <= |stream|
    ensures match FirstDecisive(stream, request, inTime)
            case None => r == Refused(Timeout) && consumed == inTime
            case Some(i) => r == AckOutcomeOf(stream[i]) && consumed == i + 1
    ensures WaitOutcome(stream, request, inTime, r)
  {
    WaitTable(stream, request, inTime);
    consumed := 0;
    while consumed < inTime
      invariant 0 <= consumed <= inTime
      invariant forall i :: 0 <= i < consumed ==> !Decisive(stream[i], request)
    {
      var item := stream[consumed];
      consumed := consumed + 1;
      if !item.Event? { return Refused(NoResponse), consumed; }
      if item.event.DiagnosticNack? || item.event.GenericNack? { return Refused(Nack(item.event.code)), consumed; }
      if MatchesRequest(item.event, request) {
        return if item.event.Ack? then Acknowledged else Implied(item.event), consumed;
      }
    }
    r := Refused(Timeout);
  }

  /** `diagnostic_response_to_transport`: anything but a message is a bad payload. */
  function ToTransport(e: DoipEvent): (r: ChannelItem) {
    match e
    case Msg(data, source, target) => Success(Some(Classify(data, source, target)))
    case _ => Failure(BadPayload)
  }

  function Convert(i: StreamItem): (r: ChannelItem) {
    match i
    case Event(e) => ToTransport(e)
    case _ => Failure(NoResponse)
  }

  /** What the caller gets for a stream item, in bytes: pending NRCs by their code, other messages
      unchanged with their addresses, a bad payload for any other event, no response for a fault. */
  lemma ConvertTable(i: StreamItem)
    ensures match i
            case Event(Msg(data, source, target)) =>
              && (Convert(i) == Success(Some(Pending(ResponsePending))) <==> HasNrc(data, 0x78))
              && (Convert(i) == Success(Some(Pending(BusyRepeatRequest))) <==> HasNrc(data, 0x21))
              && (Convert(i) == Success(Some(Pending(TemporarilyNotAvailable))) <==> HasNrc(data, 0x94))
              && (Convert(i) == Success(Some(UdsResponse(ServicePayload(data, source, target, None, None)))) <==>
                    !HasNrc(data, 0x78) && !HasNrc(data, 0x21) && !HasNrc(data, 0x94))
            case Event(_) => Convert(i) == Failure(BadPayload)
            case _ => Convert(i) == Failure(NoResponse)
  {
    if i.Event? && i.event.Msg? { ClassifyTable(i.event.data, i.event.source, i.event.target); }
  }

  /** Where forwarding stops: behind the first closed receiver, or at the end of the stream. */
  function Stop(stream: seq<StreamItem>, from: nat): (r: nat)
    requires from <= |stream|
    ensures from <= r <= |stream|
    ensures forall i :: from <= i < r - 1 ==> !stream[i].ReceiverClosed?
    ensures r == |stream| || (r > from && stream[r - 1].ReceiverClosed?)
    decreases |stream| - from
  {
    if from == |stream| then from
    else if stream[from].ReceiverClosed? then from + 1
    else Stop(stream, from + 1)
  }

  function Conversions(items: seq<StreamItem>): (r: seq<ChannelItem>)
    ensures |r| == |items|
    ensures forall k :: 0 <= k < |items| ==> r[k] == Convert(items[k])
  {
    if items == [] then []
    else Conversions(items[..|items| - 1]) + [Convert(items[|items| - 1])]
  }

  function Forwarded(stream: seq<StreamItem>, from: nat): (r: seq<ChannelItem>)
    requires from <= |stream|
  {
    Conversions(stream[from..Stop(stream, from)])
  }

  /** Everything the caller would see if it kept listening. */
  function Answers(stream: seq<StreamItem>, request: seq<byte>, inTime: nat, expectReply: bool): (r: seq<ChannelItem>)
    requires inTime <= |stream|
  {
    var acknowledged := if expectReply then [] else [Success(None)];
    match FirstDecisive(stream, request, inTime)
    case None => [Failure(Timeout)]
    case Some(i) =>
      match AckOutcomeOf(stream[i])
      case Refused(e) => [Failure(e)]
      case Acknowledged => acknowledged + Forwarded(stream, i + 1)
      case Implied(_) => acknowledged + Forwarded(stream, i)
  }

  /** The loop of `read_ecu_responses`. */
  method ForwardFrom(stream: seq<StreamItem>, from: nat, out0: seq<ChannelItem>, room: nat)
    returns (out: seq<ChannelItem>)
    requires from <= |stream| && |out0| <= room
    ensures out == Take(out0 + Forwarded(stream, from), room)
  {
    out := out0;
    var pos := from;
    assert stream[from..from] == [];
    while pos < |stream|
      invariant from <= pos <= |stream|
      invariant |out| <= room
      invariant forall i :: from <= i < pos ==> !stream[i].ReceiverClosed?
      invariant out == out0 + Conversions(stream[from..pos])
    {
      StopBeyond(stream, from, pos);
      if |out| >= room {
        TakeConversions(out0, stream, from, pos, Stop(stream, from));
        return;
      }
      ConversionsNext(stream, from, pos);
      out := out + [Convert(stream[pos])];
      pos := pos + 1;
      if stream[pos - 1].ReceiverClosed? {
        return;
      }
    }
    StopBeyond(stream, from, pos);
  }

  lemma ConversionsNext(stream: seq<StreamItem>, from: nat, pos: nat)
    requires from <= pos < |stream|
    ensures Conversions(stream[from..pos + 1]) == Conversions(stream[from..pos]) + [Convert(stream[pos])]
  {
    assert stream[from..pos + 1][..pos - from] == stream[from..pos];
  }

  lemma ForwardedFirst(stream: seq<StreamItem>, from: nat)
    requires from < |stream| && !stream[from].ReceiverClosed?
    ensures Forwarded(stream, from) == [Convert(stream[from])] + Forwarded(stream, from + 1)
  {
    var stop := Stop(stream, from);
    assert stream[from..stop] == [stream[from]] + stream[from + 1..stop];
  }

  /** `read_ecu_responses`; `received` is a response that overtook the ACK. */
  method ReadEcuResponses(
    stream: seq<StreamItem>, from: nat, received: Option<DoipEvent>, out0: seq<ChannelItem>, room: nat)
    returns (out: seq<ChannelItem>)
    requires from <= |stream| && |out0| <= room
    requires received.Some? ==> from > 0 && stream[from - 1] == Event(received.value)
    ensures out == Take(out0 + Forwarded(stream, if received.Some? then from - 1 else from), room)
  {
    if received.None? {
      out := ForwardFrom(stream, from, out0, room);
    } else {
      ForwardedFirst(stream, from - 1);
      if |out0| >= room { return out0; }
      var item := ToTransport(received.value);
      out := ForwardFrom(stream, from, out0 + [item], room);
      assert out0 + [item] + Forwarded(stream, from) == out0 + Forwarded(stream, from - 1);
    }
  }

  lemma TakeConversions(out0: seq<ChannelItem>, stream: seq<StreamItem>, base: nat, pos: nat, stop: nat)
    requires base <= pos < stop <= |stream|
    ensures Take(out0 + Conversions(stream[base..stop]), |out0| + pos - base) == out0 + Conversions(stream[base..pos])
  {
  }

  lemma {:induction false} StopBeyond(stream: seq<StreamItem>, from: nat, pos: nat)
    requires from <= pos <= |stream|
    requires forall i :: from <= i < pos ==> !stream[i].ReceiverClosed?
    ensures Stop(stream, from) == Stop(stream, pos)
    decreases pos - from
  {
    if from < pos {
      StopBeyond(stream, from + 1, pos);
    }
  }

  /** The spawned task of `send`, once the frame could be queued; `queued` is false when
      `send_with_retries` gave up. */
  method ServeRequest(
    stream: seq<StreamItem>, request: seq<byte>, inTime: nat, expectReply: bool, queued: bool, room: nat)
    returns (out: seq<ChannelItem>)
    requires inTime <= |stream|
    ensures out == Take(if queued then Answers(stream, request, inTime, expectReply) else [Failure(SendFailed)], room)
  {
    if !queued { return Push([], Failure(SendFailed), room); }
    var outcome, consumed := WaitForAckOrResponse(stream, request, inTime);
    if outcome.Refused? { return Push([], Failure(outcome.error), room); }
    var acknowledged := if expectReply then [] else [Success(None)];
    ghost var from := if outcome.Implied? then consumed - 1 else consumed;
    AnswersBehindAck(stream, request, inTime, expectReply, outcome, consumed);
    TakeOfTake(acknowledged, Forwarded(stream, from), room);
    out := Take(acknowledged, room);
    out := ReadEcuResponses(stream, consumed, if outcome.Implied? then Some(outcome.event) else None, out, room);
  }

  lemma AnswersBehindAck(
    stream: seq<StreamItem>, request: seq<byte>, inTime: nat, expectReply: bool, outcome: AckOutcome, consumed: nat)
    requires inTime <= |stream| && !outcome.Refused?
    requires match FirstDecisive(stream, request, inTime)
             case None => false
             case Some(i) => outcome == AckOutcomeOf(stream[i]) && consumed == i + 1
    ensures consumed <= |stream| && (outcome.Implied? ==> consumed > 0 && stream[consumed - 1] == Event(outcome.event))
    ensures Answers(stream, request, inTime, expectReply)
         == (if expectReply then [] else [Success(None)])
            + Forwarded(stream, if outcome.Implied? then consumed - 1 else consumed)
  {
  }

  /** Position by position: the caller sees the conversions of consecutive stream items, starting
      behind the first matching ACK, or at the first matching response if it comes earlier, and ending
      with the first closed receiver; a refusal or fault before either is the only item. */
  lemma {:induction false} CallerSeesStreamInOrder(stream: seq<StreamItem>, request: seq<byte>, inTime: nat)
    requires inTime <= |stream|
    ensures var out := Answers(stream, request, inTime, true);
            match FirstDecisive(stream, request, inTime)
            case None => out == [Failure(Timeout)]
            case Some(i) =>
              match AckOutcomeOf(stream[i])
              case Refused(e) => out == [Failure(e)]
              case Acknowledged => Mirrors(out, stream, i + 1)
              case Implied(_) => Mirrors(out, stream, i)
  {
    var first := FirstDecisive(stream, request, inTime);
    if first.Some? {
      MirrorsForwarded(stream, first.value);
      MirrorsForwarded(stream, first.value + 1);
    }
  }

  /** A request without an expected reply gets one bare acknowledgement in front of the same items, or
      the same single error. */
  lemma AcknowledgedFirst(stream: seq<StreamItem>, request: seq<byte>, inTime: nat)
    requires inTime <= |stream|
    ensures var first := FirstDecisive(stream, request, inTime);
            var error := first.None? || AckOutcomeOf(stream[first.value]).Refused?;
            Answers(stream, request, inTime, false)
            == (if error then [] else [Success(None)]) + Answers(stream, request, inTime, true)
  {
  }

  predicate Mirrors(out: seq<ChannelItem>, stream: seq<StreamItem>, from: nat)
    requires from <= |stream|
  {
    && |out| == Stop(stream, from) - from
    && forall k :: 0 <= k < |out| ==> out[k] == Convert(stream[from + k])
  }

  lemma MirrorsForwarded(stream: seq<StreamItem>, from: nat)
    requires from <= |stream|
    ensures Mirrors([] + Forwarded(stream, from), stream, from)
  {
  }
}
