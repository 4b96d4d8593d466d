/** UDS messages: payloads, response classification and the echo check of ISO 14229-1. */
module Uds {
  import opened Bytes

  const NEGATIVE_RESPONSE: byte := 0x7F
  const RESPONSE_BIT: byte := 0x40

  const SESSION_CONTROL: byte := 0x10
  const READ_DATA_BY_IDENTIFIER: byte := 0x22
  const SECURITY_ACCESS: byte := 0x27
  const WRITE_DATA_BY_IDENTIFIER: byte := 0x2E
  const INPUT_OUTPUT_CONTROL_BY_IDENTIFIER: byte := 0x2F
  const ROUTINE_CONTROL: byte := 0x31
  const TESTER_PRESENT: byte := 0x3E

  datatype ServicePayload = ServicePayload(
    data: seq<byte>, source: u16, target: u16,
    newSession: Option<string>, newSecurity: Option<string>)

  datatype PendingNrc = ResponsePending | BusyRepeatRequest | TemporarilyNotAvailable

  datatype TransportResponse = Pending(nrc: PendingNrc) | UdsResponse(msg: ServicePayload)

  datatype DiagError =
    | Timeout
    | NoResponse
    | Nack(code: byte)
    | EcuOffline
    | SendFailed
    | UnexpectedResponse
    | BadPayload

  /** What a gateway task puts on the response channel of one attempt. */
  type ChannelItem = Result<Option<TransportResponse>, DiagError>

  function SaturatingAdd(a: byte, b: byte): (r: byte) { if a + b > 0xFF then 0xFF else a + b }

  /** `sid | 0x40` */
  function SetResponseBit(sid: byte): (r: byte) { if sid / 0x40 % 2 == 1 then sid else sid + RESPONSE_BIT }

  predicate IsPositiveFor(data: seq<byte>, sid: byte) {
    data != [] && data[0] == SaturatingAdd(sid, RESPONSE_BIT)
  }

  predicate IsNegativeFor(data: seq<byte>, sid: byte) {
    |data| >= 2 && data[0] == NEGATIVE_RESPONSE && data[1] == sid
  }

  /** `is_response_for_sid`, the filter of the request engine. */
  predicate IsResponseFor(data: seq<byte>, sid: byte) {
    IsNegativeFor(data, sid) || IsPositiveFor(data, sid)
  }

  /** `uds_response_matches_request_sid`, the filter of the transports. */
  predicate MatchesRequestSid(sid: byte, data: seq<byte>) {
    data != [] &&
    if data[0] == NEGATIVE_RESPONSE then |data| >= 2 && data[1] == sid
    else data[0] == SetResponseBit(sid)
  }

  function EchoByteCount(sid: byte): (n: nat) {
    if sid in {READ_DATA_BY_IDENTIFIER, WRITE_DATA_BY_IDENTIFIER, INPUT_OUTPUT_CONTROL_BY_IDENTIFIER} then 2
    else if sid == ROUTINE_CONTROL then 3
    else 0
  }

  /** `has_matching_echo_bytes` */
  predicate HasMatchingEchoBytes(response: seq<byte>, request: seq<byte>) {
    if request == [] || !IsPositiveFor(response, request[0]) then true
    else
      var n := EchoByteCount(request[0]);
      if n == 0 || |request| < 1 + n then true
      else if |response| < 1 + n then false
      else if request[0] == ROUTINE_CONTROL then
        request[1] % 0x80 == response[1] && request[2..1 + n] == response[2..1 + n]
      else request[1..1 + n] == response[1..1 + n]
  }

  /** The byte a positive response has to show at an echo position: the request's own byte,
      without the suppress-positive-response bit in a RoutineControl sub-function. */
  function ExpectedEcho(request: seq<byte>, i: nat): (b: byte)
    requires 0 < i < |request|
  {
    if request[0] == ROUTINE_CONTROL && i == 1 then request[1] % 0x80 else request[i]
  }

  /** Tables 189, 280, 401 and 428 of ISO 14229-1, position by position. */
  lemma EchoCheckIsPositionwise(response: seq<byte>, request: seq<byte>)
    requires request != [] && IsPositiveFor(response, request[0])
    ensures var n := EchoByteCount(request[0]);
            HasMatchingEchoBytes(response, request) <==>
            (|request| <= n ||
             (|response| > n && forall i :: 1 <= i <= n ==> response[i] == ExpectedEcho(request, i)))
  {
    var n := EchoByteCount(request[0]);
    if n > 0 && |request| > n && |response| > n {
      SlicesAgree(request, response, 1, 1 + n);
      SlicesAgree(request, response, 2, 1 + n);
    }
  }

  /** The same tables with their services and positions written out: a two-byte data identifier for 0x22,
      0x2E and 0x2F, sub-function and routine identifier for 0x31, nothing for any other service or for a
      request too short to carry them. */
  lemma EchoTables(response: seq<byte>, request: seq<byte>)
    requires request != [] && IsPositiveFor(response, request[0])
    ensures HasMatchingEchoBytes(response, request) <==>
            if request[0] in {0x22, 0x2E, 0x2F} && |request| >= 3 then
              |response| >= 3 && response[1] == request[1] && response[2] == request[2]
            else if request[0] == 0x31 && |request| >= 4 then
              && |response| >= 4 && response[1] == request[1] % 0x80
              && response[2] == request[2] && response[3] == request[3]
            else true
  {
    EchoCheckIsPositionwise(response, request);
    if |response| >= 3 && |request| >= 3 {
      assert request[0] in {0x22, 0x2E, 0x2F} ==>
          ((forall i :: 1 <= i <= 2 ==> response[i] == ExpectedEcho(request, i)) <==>
           response[1] == request[1] && response[2] == request[2]);
    }
  }

  /** A negative response is never held against its echo. */
  lemma NegativeNeedsNoEcho(response: seq<byte>, request: seq<byte>)
    requires request == [] || response == [] || response[0] != (if request[0] <= 0xBF then request[0] + 0x40 else 0xFF)
    ensures HasMatchingEchoBytes(response, request)
  {
  }

  /** Both SID filters in bytes: 7F and the SID, or the SID plus 0x40 (the engine, up to 0xFF), or the SID
      with bit 6 set (the transports, which read 7F as a negative response first). */
  lemma FilterTables(data: seq<byte>, sid: byte)
    ensures IsResponseFor(data, sid) <==>
            || (|data| >= 2 && data[0] == 0x7F && data[1] == sid)
            || (|data| >= 1 && data[0] == if sid <= 0xBF then sid + 0x40 else 0xFF)
    ensures IsPositiveFor(data, sid) <==> |data| >= 1 && data[0] == if sid <= 0xBF then sid + 0x40 else 0xFF
    ensures MatchesRequestSid(sid, data) <==> AnswersSid(data, sid)
  {
  }

  /** The bytes that belong to a request in the eyes of a transport. */
  predicate AnswersSid(data: seq<byte>, sid: byte) {
    || (|data| >= 2 && data[0] == 0x7F && data[1] == sid)
    || (|data| >= 1 && data[0] != 0x7F && data[0] == if sid < 0x40 || 0x80 <= sid < 0xC0 then sid + 0x40 else sid)
  }

  lemma SlicesAgree(a: seq<byte>, b: seq<byte>, from: nat, to: nat)
    requires from <= to <= |a| && to <= |b|
    ensures a[from..to] == b[from..to] <==> forall i :: from <= i < to ==> a[i] == b[i]
  {
    if a[from..to] == b[from..to] {
      forall i | from <= i < to ensures a[i] == b[i] {
        assert a[i] == a[from..to][i - from] && b[i] == b[from..to][i - from];
      }
    }
  }

  /** The engine adds 0x40 with saturation where the transports set bit 6. The two filters agree on
      every response exactly for the SIDs below; 0x3F is excluded because 0x3F + 0x40 is the
      negative-response marker. */
  lemma FiltersAgree(sid: byte)
    ensures (forall data: seq<byte> :: IsResponseFor(data, sid) <==> MatchesRequestSid(sid, data))
            <==> ((sid / 0x40 % 2 == 0 && sid != 0x3F) || sid == 0xFF)
  {
    if sid == 0x3F {
      var marker: seq<byte> := [0x7F];
      assert IsResponseFor(marker, sid) && !MatchesRequestSid(sid, marker);
    } else if sid / 0x40 % 2 == 1 && sid != 0xFF {
      var positive: seq<byte> := [SaturatingAdd(sid, RESPONSE_BIT)];
      assert IsResponseFor(positive, sid) && !MatchesRequestSid(sid, positive);
    } else {
      forall data: seq<byte>
        ensures IsResponseFor(data, sid) <==> MatchesRequestSid(sid, data)
      {
      }
    }
  }

  /** `pending_nrc_from_raw`: the SID byte of the frame plays no part. */
  function PendingNrcFromRaw(data: seq<byte>): (r: Option<PendingNrc>) {
    if |data| >= 3 && data[0] == NEGATIVE_RESPONSE then
      if data[2] == 0x78 then Some(ResponsePending)
      else if data[2] == 0x21 then Some(BusyRepeatRequest)
      else if data[2] == 0x94 then Some(TemporarilyNotAvailable)
      else None
    else None
  }

  /** `uds_response_from_raw` */
  function UdsResponseFromRaw(data: seq<byte>, source: u16, target: u16): (r: ServicePayload) {
    ServicePayload(data, source, target, None, None)
  }

  /** A frame 7F xx with this code in its third byte. */
  predicate HasNrc(data: seq<byte>, code: byte) { |data| >= 3 && data[0] == 0x7F && data[2] == code }

  /** What a frame is forwarded as, by its bytes. */
  lemma ClassifyTable(data: seq<byte>, source: u16, target: u16)
    ensures var r := Classify(data, source, target);
            && (r == Pending(ResponsePending) <==> HasNrc(data, 0x78))
            && (r == Pending(BusyRepeatRequest) <==> HasNrc(data, 0x21))
            && (r == Pending(TemporarilyNotAvailable) <==> HasNrc(data, 0x94))
            && (r == UdsResponse(ServicePayload(data, source, target, None, None)) <==>
                  !HasNrc(data, 0x78) && !HasNrc(data, 0x21) && !HasNrc(data, 0x94))
    ensures PendingNrcFromRaw(data).Some? <==> HasNrc(data, 0x78) || HasNrc(data, 0x21) || HasNrc(data, 0x94)
  {
  }

  /** Classification shared by both transports. */
  function Classify(data: seq<byte>, source: u16, target: u16): (r: TransportResponse) {
    match PendingNrcFromRaw(data)
    case Some(nrc) => Pending(nrc)
    case None => UdsResponse(UdsResponseFromRaw(data, source, target))
  }
}
