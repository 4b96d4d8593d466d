/** A request over DoIP, end to end: the engine reading what the gateway task forwards from the
    ECU's event stream. */
module DoipRequest {
  import opened Bytes
  import opened Uds
  import opened RequestEngine
  import opened RequestEngineProperties
  import RequestRules
  import DoipStream

  /** The events of an attempt come from this channel: its items in order, then its closing, or at any
      point a timeout. */
  predicate Carries(events: seq<Event>, items: seq<ChannelItem>) {
    forall k :: 0 <= k < |events| ==>
      || events[k].reception.Elapsed?
      || events[k].reception == (if k < |items| then Item(items[k]) else Closed)
  }

  /** Forwarding starts behind the acknowledgement, or at the response that overtook it. */
  function Start(stream: seq<DoipStream.StreamItem>, request: seq<byte>, inTime: nat): (r: Option<nat>)
    requires inTime <= |stream|
    ensures r.Some? ==> r.value <= |stream|
  {
    match DoipStream.FirstDecisive(stream, request, inTime)
    case None => None
    case Some(i) =>
      match DoipStream.AckOutcomeOf(stream[i])
      case Refused(_) => None
      case Acknowledged => Some(i + 1)
      case Implied(_) => Some(i)
  }

  lemma {:induction false} AnswersFromStart(stream: seq<DoipStream.StreamItem>, request: seq<byte>, inTime: nat)
    requires inTime <= |stream|
    ensures var out, start := DoipStream.Answers(stream, request, inTime, true), Start(stream, request, inTime);
            if start.None? then |out| == 1 && out[0].Failure? else DoipStream.Mirrors(out, stream, start.value)
  {
    DoipStream.CallerSeesStreamInOrder(stream, request, inTime);
  }

  /** Item i of the stream is a message the engine takes for the answer. */
  predicate Answering(request: ServicePayload, item: DoipStream.StreamItem)
    requires request.data != []
  {
    && item.Event? && item.event.Msg? && PendingNrcFromRaw(item.event.data).None?
    && IsAnswer(request, UdsResponseFromRaw(item.event.data, item.event.source, item.event.target))
  }

  /** A message the engine reads past. */
  predicate PassedOver(request: ServicePayload, item: DoipStream.StreamItem)
    requires request.data != []
  {
    && item.Event? && item.event.Msg? && !Answering(request, item)
    && (PendingNrcFromRaw(item.event.data).None? || PendingNrcFromRaw(item.event.data) == Some(ResponsePending))
  }

  lemma ItemOf(cfg: Config, item: DoipStream.StreamItem)
    requires cfg.request.data != []
    ensures Skippable(cfg, Item(DoipStream.Convert(item))) <==> PassedOver(cfg.request, item)
    ensures forall msg :: DoipStream.Convert(item) == Success(Some(UdsResponse(msg))) && IsAnswer(cfg.request, msg) ==>
              && Answering(cfg.request, item)
              && msg == UdsResponseFromRaw(item.event.data, item.event.source, item.event.target)
  {
  }

  /** The message at stream position i is what the caller gets: behind the start of forwarding, with
      only read-past messages in between, so no acknowledgement, refusal or fault either. */
  ghost predicate DeliveredFrom(
    request: ServicePayload, stream: seq<DoipStream.StreamItem>, start: nat, i: nat, msg: ServicePayload)
    requires request.data != []
  {
    && start <= i < |stream|
    && Answering(request, stream[i])
    && msg == UdsResponseFromRaw(stream[i].event.data, stream[i].event.source, stream[i].event.target)
    && forall j :: start <= j < i ==> PassedOver(request, stream[j])
  }

  /** The answer of an attempt stands in the attempt's own DoIP stream. */
  lemma AnswerStandsInStream(
    cfg: Config, a: Attempt, msg: ServicePayload, stream: seq<DoipStream.StreamItem>, inTime: nat)
    returns (i: nat)
    requires cfg.request.data != [] && FirstAnswer(cfg, a, msg)
    requires inTime <= |stream| && Carries(a.events, DoipStream.Answers(stream, cfg.request.data, inTime, true))
    ensures var start := Start(stream, cfg.request.data, inTime);
            start.Some? && DeliveredFrom(cfg.request, stream, start.value, i, msg)
  {
    var out := DoipStream.Answers(stream, cfg.request.data, inTime, true);
    AnswersFromStart(stream, cfg.request.data, inTime);
    var k :| && 0 <= k < |a.events|
             && a.events[k].reception == Item(Success(Some(UdsResponse(msg))))
             && forall j :: 0 <= j < k ==> Skippable(cfg, a.events[j].reception);
    assert k < |out| && out[k] == Success(Some(UdsResponse(msg)));
    assert Start(stream, cfg.request.data, inTime).Some?;
    i := AnswerInMirror(cfg, a.events, msg, stream, Start(stream, cfg.request.data, inTime).value, out, k);
  }

  lemma AnswerInMirror(
    cfg: Config, events: seq<Event>, msg: ServicePayload,
    stream: seq<DoipStream.StreamItem>, start: nat, out: seq<ChannelItem>, k: nat)
    returns (i: nat)
    requires cfg.request.data != [] && IsAnswer(cfg.request, msg) && start <= |stream|
    requires Carries(events, out) && DoipStream.Mirrors(out, stream, start)
    requires k < |events| && k < |out| && out[k] == Success(Some(UdsResponse(msg)))
    requires forall j :: 0 <= j < k ==> Skippable(cfg, events[j].reception)
    ensures DeliveredFrom(cfg.request, stream, start, i, msg)
  {
    i := start + k;
    ItemOf(cfg, stream[i]);
    forall j | start <= j < i ensures PassedOver(cfg.request, stream[j]) {
      assert Skippable(cfg, events[j - start].reception);
      assert events[j - start].reception == Item(out[j - start]);
      ItemOf(cfg, stream[j]);
    }
  }

  /** Where the two SID filters agree, no message before the start of forwarding was an answer. */
  lemma {:induction false} NothingMissedBeforeStart(
    request: ServicePayload, stream: seq<DoipStream.StreamItem>, inTime: nat, j: nat)
    requires request.data != [] && inTime <= |stream|
    requires var start := Start(stream, request.data, inTime); start.Some? && j < start.value
    requires var sid := request.data[0]; (sid / 0x40 % 2 == 0 && sid != 0x3F) || sid == 0xFF
    ensures !Answering(request, stream[j])
  {
    FiltersAgree(request.data[0]);
    if stream[j].Event? && stream[j].event.Msg? {
      assert !DoipStream.Decisive(stream[j], request.data);
    }
  }

  /** `Ok(Some(m))` of a whole call over DoIP: m is the first message on the wire, in the stream of the
      last transmission, that answers the request; what came before it was skipped before the
      acknowledgement, the acknowledgement itself, a 0x78 or a non-answer. */
  lemma DeliveredIsFirstAnswerOnWire(
    cfg: Config, permit: Option<nat>, attempts: seq<Attempt>, msg: ServicePayload,
    stream: seq<DoipStream.StreamItem>, inTime: nat)
    returns (i: nat)
    requires Call(cfg, permit, attempts).0 == Done(Success(Some(msg)))
    requires inTime <= |stream|
    requires var n := Count(Call(cfg, permit, attempts).1.trace, Transmit);
             0 < n <= |attempts| ==>
               Carries(attempts[n - 1].events, DoipStream.Answers(stream, cfg.request.data, inTime, true))
    ensures cfg.request.data != [] && i < |stream| && Answering(cfg.request, stream[i])
    ensures msg.data == stream[i].event.data
    ensures var start := Start(stream, cfg.request.data, inTime);
            start.Some? && DeliveredFrom(cfg.request, stream, start.value, i, msg)
    ensures var sid := cfg.request.data[0];
            (sid / 0x40 % 2 == 0 && sid != 0x3F) || sid == 0xFF ==>
              forall j :: 0 <= j < i ==> !Answering(cfg.request, stream[j])
  {
    DeliveredMessageIsFirstAnswer(cfg, permit, attempts, msg);
    var n := Count(Call(cfg, permit, attempts).1.trace, Transmit);
    i := AnswerStandsInStream(cfg, attempts[n - 1], msg, stream, inTime);
    var sid := cfg.request.data[0];
    if (sid / 0x40 % 2 == 0 && sid != 0x3F) || sid == 0xFF {
      forall j | 0 <= j < i ensures !Answering(cfg.request, stream[j]) {
        if j < Start(stream, cfg.request.data, inTime).value {
          NothingMissedBeforeStart(cfg.request, stream, inTime, j);
        }
      }
    }
  }

  /** An acknowledgement behind the start of forwarding, late because a response overtook it, fails the
      attempt when the engine reads up to it: the engine sees a bad payload and repeats the request
      or, with no retries left, reports it. The messages behind the acknowledgement play no part. */
  lemma {:induction false} LateAckFailsAttempt(
    cfg: Config, events: seq<Event>, p: Progress, stream: seq<DoipStream.StreamItem>, inTime: nat, late: nat)
    requires cfg.request.data != [] && inTime <= |stream|
    requires Carries(events, DoipStream.Answers(stream, cfg.request.data, inTime, true))
    requires var start := Start(stream, cfg.request.data, inTime);
             && start.Some? && start.value <= late < |stream|
             && stream[late].Event? && stream[late].event.Ack?
             && late - start.value < |events| && !events[late - start.value].reception.Elapsed?
             && ReadThrough(cfg, events, p.clock, late - start.value)
    ensures Read(cfg, events, 0, p).0 ==
            if p.retries < cfg.repeatReqCountApp then Again else Break(Failure(BadPayload))
  {
    var start := Start(stream, cfg.request.data, inTime).value;
    var out := DoipStream.Answers(stream, cfg.request.data, inTime, true);
    var k := late - start;
    AnswersFromStart(stream, cfg.request.data, inTime);
    NotClosedBefore(cfg, events, p.clock, out, stream, start, k);
    assert events[k].reception == Item(Failure(BadPayload));
    assert Decides(cfg, events, p.clock, k);
    ReadTakesFirstDecisiveEvent(cfg, events, p);
  }

  /** Reading past k items means that the receiver had not closed among them. */
  lemma NotClosedBefore(
    cfg: Config, events: seq<Event>, base: nat, out: seq<ChannelItem>,
    stream: seq<DoipStream.StreamItem>, start: nat, k: nat)
    requires cfg.request.data != [] && k <= |events| && ReadThrough(cfg, events, base, k)
    requires start + k < |stream| && !stream[start + k].ReceiverClosed?
    requires Carries(events, out) && DoipStream.Mirrors(out, stream, start)
    ensures k < |out|
  {
    forall i | start <= i < start + k && i < start + |out| ensures !stream[i].ReceiverClosed? {
      var j := i - start;
      assert Transparent(React(cfg, events[j].reception, ClockAt(events, base, j + 1)));
      assert out[j] == DoipStream.Convert(stream[start + j]);
    }
    var stop := DoipStream.Stop(stream, start);
  }

  // ---------------------------------------------------------------- exactly when an attempt delivers

  /** The attempt reads this channel, as far as it does, without a timeout. */
  predicate ReadsOn(events: seq<Event>, items: seq<ChannelItem>) {
    forall k :: 0 <= k < |events| ==> events[k].reception == (if k < |items| then Item(items[k]) else Closed)
  }

  predicate IsResponsePending(item: DoipStream.StreamItem) {
    item.Event? && item.event.Msg? && PendingNrcFromRaw(item.event.data) == Some(ResponsePending)
  }

  function PayloadOf(item: DoipStream.StreamItem): ServicePayload
    requires item.Event? && item.event.Msg?
  {
    UdsResponseFromRaw(item.event.data, item.event.source, item.event.target)
  }

  /** The engine's reaction to a forwarded item, in terms of the item. */
  lemma ReactionTo(cfg: Config, item: DoipStream.StreamItem, elapsed: nat)
    requires cfg.request.data != []
    ensures var r := React(cfg, Item(DoipStream.Convert(item)), elapsed);
            && (Transparent(r) <==>
                  && PassedOver(cfg.request, item)
                  && (IsResponsePending(item) ==> Permits(cfg.policy78, elapsed, cfg.completion78)))
            && (r.Answer? <==> Answering(cfg.request, item))
            && (r.Answer? ==> r.msg == PayloadOf(item))
  {
  }

  /** The answer at position j is delivered: only read-past messages between the start of forwarding and
      it, every 0x78 among them still permitted when it is read. */
  ghost predicate DeliveredAt(
    cfg: Config, events: seq<Event>, base: nat,
    stream: seq<DoipStream.StreamItem>, start: nat, j: nat, msg: ServicePayload)
    requires cfg.request.data != []
  {
    && DeliveredFrom(cfg.request, stream, start, j, msg)
    && j - start < |events|
    && forall i :: start <= i < j && IsResponsePending(stream[i]) ==>
         Permits(cfg.policy78, ClockAt(events, base, i - start + 1), cfg.completion78)
  }

  /** An attempt that reads its channel without a timeout delivers a message exactly when that message is the answer at
      some position of the DoIP stream with nothing but permitted, read-past messages before it. */
  lemma {:induction false} DeliversExactly(
    cfg: Config, events: seq<Event>, p: Progress, stream: seq<DoipStream.StreamItem>, inTime: nat, msg: ServicePayload)
    requires cfg.request.data != [] && inTime <= |stream|
    requires ReadsOn(events, DoipStream.Answers(stream, cfg.request.data, inTime, true))
    ensures var start := Start(stream, cfg.request.data, inTime);
            Read(cfg, events, 0, p).0 == Break(Success(msg)) <==>
            start.Some? && exists j: nat :: DeliveredAt(cfg, events, p.clock, stream, start.value, j, msg)
  {
    var start := Start(stream, cfg.request.data, inTime);
    AnswersFromStart(stream, cfg.request.data, inTime);
    ReadTakesFirstDecisiveEvent(cfg, events, p);
    if Read(cfg, events, 0, p).0 == Break(Success(msg)) {
      var k: nat :| Decides(cfg, events, p.clock, k);
      var r := React(cfg, events[k].reception, ClockAt(events, p.clock, k + 1));
      assert r == Answer(msg);
      var out := DoipStream.Answers(stream, cfg.request.data, inTime, true);
      assert k < |out| && start.Some?;
      DecidedIsDelivered(cfg, events, p.clock, stream, start.value, out, k, msg);
    } else if start.Some? {
      forall j: nat ensures !DeliveredAt(cfg, events, p.clock, stream, start.value, j, msg) {
        if DeliveredAt(cfg, events, p.clock, stream, start.value, j, msg) {
          var out := DoipStream.Answers(stream, cfg.request.data, inTime, true);
          DeliveredDecides(cfg, events, p.clock, stream, start.value, out, j, msg);
        }
      }
    }
  }

  lemma DecidedIsDelivered(
    cfg: Config, events: seq<Event>, base: nat, stream: seq<DoipStream.StreamItem>, start: nat, out: seq<ChannelItem>,
    k: nat, msg: ServicePayload)
    requires cfg.request.data != [] && start <= |stream|
    requires ReadsOn(events, out) && DoipStream.Mirrors(out, stream, start)
    requires k < |out| && Decides(cfg, events, base, k)
    requires React(cfg, events[k].reception, ClockAt(events, base, k + 1)) == Answer(msg)
    ensures DeliveredAt(cfg, events, base, stream, start, start + k, msg)
  {
    ReactionTo(cfg, stream[start + k], ClockAt(events, base, k + 1));
    forall i | start <= i < start + k
      ensures PassedOver(cfg.request, stream[i])
      ensures IsResponsePending(stream[i]) ==>
                Permits(cfg.policy78, ClockAt(events, base, i - start + 1), cfg.completion78)
    {
      var q := i - start;
      assert events[q].reception == Item(DoipStream.Convert(stream[start + q]));
      assert Transparent(React(cfg, events[q].reception, ClockAt(events, base, q + 1)));
      ReactionTo(cfg, stream[i], ClockAt(events, base, q + 1));
    }
  }

  lemma DeliveredDecides(
    cfg: Config, events: seq<Event>, base: nat, stream: seq<DoipStream.StreamItem>, start: nat, out: seq<ChannelItem>,
    j: nat, msg: ServicePayload)
    requires cfg.request.data != [] && start <= |stream|
    requires ReadsOn(events, out) && DoipStream.Mirrors(out, stream, start)
    requires DeliveredAt(cfg, events, base, stream, start, j, msg)
    ensures Decides(cfg, events, base, j - start)
    ensures React(cfg, events[j - start].reception, ClockAt(events, base, j - start + 1)) == Answer(msg)
  {
    var stop := DoipStream.Stop(stream, start);
    assert stop > j;
    ReactionTo(cfg, stream[j], ClockAt(events, base, j - start + 1));
    assert events[j - start].reception == Item(out[j - start]);
    forall k | 0 <= k < j - start
      ensures Transparent(React(cfg, events[k].reception, ClockAt(events, base, k + 1)))
    {
      var i := start + k;
      assert PassedOver(cfg.request, stream[i]) && i - start + 1 == k + 1;
      ReactionTo(cfg, stream[i], ClockAt(events, base, k + 1));
      assert events[k].reception == Item(out[k]);
    }
  }

  /** A response that overtakes its acknowledgement is harmless exactly when the answer stands before the
      acknowledgement: nothing behind a late one is ever delivered. */
  lemma LateAckHarmlessExactlyBehindAnswer(
    cfg: Config, events: seq<Event>, p: Progress,
    stream: seq<DoipStream.StreamItem>, inTime: nat, late: nat, msg: ServicePayload)
    requires cfg.request.data != [] && inTime <= |stream|
    requires ReadsOn(events, DoipStream.Answers(stream, cfg.request.data, inTime, true))
    requires var start := Start(stream, cfg.request.data, inTime);
             start.Some? && start.value <= late < |stream| && stream[late].Event? && stream[late].event.Ack?
    ensures var start := Start(stream, cfg.request.data, inTime).value;
            Read(cfg, events, 0, p).0 == Break(Success(msg)) <==>
            exists j: nat :: j < late && DeliveredAt(cfg, events, p.clock, stream, start, j, msg)
  {
    DeliversExactly(cfg, events, p, stream, inTime, msg);
    var start := Start(stream, cfg.request.data, inTime).value;
    assert !PassedOver(cfg.request, stream[late]) && !Answering(cfg.request, stream[late]);
    forall j: nat | DeliveredAt(cfg, events, p.clock, stream, start, j, msg) ensures j < late {
    }
  }

  /** An attempt whose first forwarded message is 7F xx 21 or 7F xx 94 is repeated exactly when that NRC's
      own policy still accepts it, without spending a retry, and fails with Timeout otherwise. */
  lemma BusyFrameRepeats(
    cfg: Config, events: seq<Event>, p: Progress, stream: seq<DoipStream.StreamItem>, inTime: nat)
    requires cfg.request.data != [] && inTime <= |stream|
    requires events != [] && ReadsOn(events, DoipStream.Answers(stream, cfg.request.data, inTime, true))
    requires var start := Start(stream, cfg.request.data, inTime);
             && start.Some? && start.value < |stream|
             && stream[start.value].Event? && stream[start.value].event.Msg?
    ensures var data := stream[Start(stream, cfg.request.data, inTime).value].event.data;
            var time := p.clock + events[0].wait;
            && (HasNrc(data, 0x21) ==>
                  Busied(Read(cfg, events, 0, p), cfg.busy21, time, p.retries))
            && (HasNrc(data, 0x94) ==>
                  Busied(Read(cfg, events, 0, p), cfg.busy94, time, p.retries))
  {
    var start := Start(stream, cfg.request.data, inTime).value;
    var out := DoipStream.Answers(stream, cfg.request.data, inTime, true);
    AnswersFromStart(stream, cfg.request.data, inTime);
    assert DoipStream.Stop(stream, start) > start;
    assert events[0].reception == Item(DoipStream.Convert(stream[start]));
    DoipStream.ConvertTable(stream[start]);
    RequestRules.ReactTable(cfg, events[0].reception, p.clock + events[0].wait);
  }

  /** Repeated after the delay if the policy accepts the NRC at this time, and failed with Timeout if not. */
  predicate Busied(read: (Signal, Progress), busy: Busy, time: nat, retries: nat) {
    if RequestRules.InTime(busy.policy, busy.completion, time)
    then read.0.Again? && read.1.clock == time + busy.delay && read.1.retries == retries
    else read.0 == Break(Failure(Timeout))
  }

  // ---------------------------------------------------------------- a stream on which it is not

  const READ_DID: seq<byte> := [0x22, 0xF1, 0x90]
  const PENDING := DoipStream.Event(DoipStream.Msg([0x7F, 0x22, 0x78], 1, 2))
  const ACK := DoipStream.Event(DoipStream.Ack([]))
  const VIN := DoipStream.Event(DoipStream.Msg([0x62, 0xF1, 0x90, 0x57], 1, 2))

  lemma OvertakesAck(stream: seq<DoipStream.StreamItem>, inTime: nat)
    requires 0 < inTime <= |stream| && stream[0] == PENDING
    ensures Start(stream, READ_DID, inTime) == Some(0)
  {
    assert DoipStream.Decisive(stream[0], READ_DID);
  }

  lemma Recognised(request: ServicePayload)
    requires request.data == READ_DID
    ensures PassedOver(request, PENDING) && !Answering(request, PENDING) && Answering(request, VIN)
  {
  }

  /** The 0x78 overtakes the acknowledgement, so the answer behind the acknowledgement is lost; the same
      stream without the acknowledgement delivers it. */
  lemma LateAckLosesAnswer(cfg: Config, events: seq<Event>, p: Progress, without: seq<Event>)
    requires cfg.request.data == READ_DID && cfg.policy78 == ContinueUnlimited
    requires ReadsOn(events, DoipStream.Answers([PENDING, ACK, VIN], READ_DID, 3, true))
    requires |without| >= 2 && ReadsOn(without, DoipStream.Answers([PENDING, VIN], READ_DID, 2, true))
    ensures Answering(cfg.request, VIN)
    ensures forall msg :: Read(cfg, events, 0, p).0 != Break(Success(msg))
    ensures Read(cfg, without, 0, p).0 == Break(Success(PayloadOf(VIN)))
  {
    var stream, short := [PENDING, ACK, VIN], [PENDING, VIN];
    OvertakesAck(stream, 3);
    OvertakesAck(short, 2);
    Recognised(cfg.request);
    forall msg ensures Read(cfg, events, 0, p).0 != Break(Success(msg)) {
      LateAckHarmlessExactlyBehindAnswer(cfg, events, p, stream, 3, 1, msg);
    }
    DeliversExactly(cfg, without, p, short, 2, PayloadOf(VIN));
    AnswersFromStart(short, READ_DID, 2);
    assert DeliveredAt(cfg, without, p.clock, short, 0, 1, PayloadOf(VIN));
  }
}
