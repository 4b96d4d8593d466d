/** Runtime state of an ECU and the actor that serialises its changes. */
module EcuStates {
  import opened Bytes

  datatype Connectivity = Online | Offline

  datatype VariantState =
    | NotTested
    | Detected(name: string, isBase: bool, isFallback: bool)
    | Duplicate
    | NotDetected

  datatype EcuState = EcuState(connectivity: Connectivity, variant: VariantState, index: Option<nat>) {
    predicate IsOnlineAndDetected() { connectivity.Online? && variant.Detected? }
    predicate IsFallback() { variant.Detected? && variant.isFallback }
  }

  /** `needs_variant_detection` */
  predicate NeedsVariantDetection(s: EcuState) {
    s.variant.NotTested? || (s.connectivity.Offline? && (s.variant.Detected? || s.variant.NotDetected?))
  }

  /** Mailbox messages; a disconnect names the detection whose own request timed out, if any. */
  datatype Message =
    | Suppress(d: nat)
    | Restore(d: nat)
    | Disconnected(origin: Option<nat>)
    | Connected
    | MarkDuplicate
    | MarkNotDetected
    | SetServiceState(sid: byte, value: string)
    | SetDefaultStates(defaults: seq<(byte, string)>)
    | ClearServiceStates

  type Services = map<byte, string>

  datatype View = View(state: EcuState, suppress: bool, services: Services)

  /** Each default whose SID has no state yet; the first default for a SID wins. */
  function FillIn(services: Services, defaults: seq<(byte, string)>): Services {
    if defaults == [] then services
    else
      var before := FillIn(services, defaults[..|defaults| - 1]);
      var (sid, value) := defaults[|defaults| - 1];
      if sid in before then before else before[sid := value]
  }

  /** Effect of one message on the actor. */
  function Handle(v: View, m: Message): (w: View) {
    match m
    case Suppress(_) => v.(suppress := true)
    case Restore(_) => v.(suppress := false)
    case Disconnected(_) =>
      if v.suppress || v.state.connectivity.Offline? then v else v.(state := v.state.(connectivity := Offline))
    case Connected =>
      if v.state.connectivity.Online? then v else v.(state := EcuState(Online, NotTested, None))
    case MarkDuplicate => v.(state := v.state.(variant := Duplicate, index := None))
    case MarkNotDetected => v.(state := v.state.(variant := NotDetected, index := None))
    case SetServiceState(sid, value) => v.(services := v.services[sid := value])
    case SetDefaultStates(defaults) => v.(services := FillIn(v.services, defaults))
    case ClearServiceStates => v.(services := map[])
  }

  function HandleAll(v: View, mailbox: seq<Message>): View {
    if mailbox == [] then v
    else Handle(HandleAll(v, mailbox[..|mailbox| - 1]), mailbox[|mailbox| - 1])
  }

  /** The per-ECU coordinator actor. */
  class EcuCoordinator {
    var state: EcuState
    var suppressDisconnect: bool
    var serviceStates: Services

    ghost function Now(): View reads this { View(state, suppressDisconnect, serviceStates) }

    constructor ()
      ensures Now() == View(EcuState(Offline, NotTested, None), false, map[])
    {
      state := EcuState(Offline, NotTested, None);
      suppressDisconnect := false;
      serviceStates := map[];
    }

    method OnDisconnected(origin: Option<nat>)
      modifies this`state
      ensures Now() == Handle(old(Now()), Disconnected(origin))
      ensures state.variant == old(state.variant)
    {
      if suppressDisconnect { return; }
      if state.connectivity.Online? {
        state := state.(connectivity := Offline);
      }
    }

    /** Replies whether an actual Offline to Online transition happened. */
    method OnConnected() returns (transitioned: bool)
      modifies this`state
      ensures Now() == Handle(old(Now()), Connected)
      ensures transitioned == old(state.connectivity.Offline?)
      ensures transitioned ==> NeedsVariantDetection(state)
    {
      transitioned := state.connectivity.Offline?;
      if transitioned {
        state := EcuState(Online, NotTested, None);
      }
    }

    method OnMark(variant: VariantState)
      modifies this`state
      ensures state == old(state).(variant := variant, index := None)
    {
      state := state.(variant := variant, index := None);
    }

    /** Inserts each default whose SID has no state yet. */
    method OnSetDefaultStates(defaults: seq<(byte, string)>)
      modifies this`serviceStates
      ensures Now() == Handle(old(Now()), SetDefaultStates(defaults))
    {
      for n := 0 to |defaults|
        invariant serviceStates == FillIn(old(serviceStates), defaults[..n])
      {
        assert defaults[..n + 1][..n] == defaults[..n];
        if defaults[n].0 !in serviceStates {
          serviceStates := serviceStates[defaults[n].0 := defaults[n].1];
        }
      }
      assert defaults[..|defaults|] == defaults;
    }

    /** The actor's loop over what its mailbox holds, one handler per message. */
    method Run(mailbox: seq<Message>)
      modifies this
      ensures Now() == HandleAll(old(Now()), mailbox)
    {
      for n := 0 to |mailbox|
        invariant Now() == HandleAll(old(Now()), mailbox[..n])
      {
        assert mailbox[..n + 1][..n] == mailbox[..n];
        match mailbox[n] {
          case Suppress(_) => suppressDisconnect := true;
          case Restore(_) => suppressDisconnect := false;
          case Disconnected(origin) => OnDisconnected(origin);
          case Connected => var _ := OnConnected();
          case MarkDuplicate => OnMark(Duplicate);
          case MarkNotDetected => OnMark(NotDetected);
          case SetServiceState(sid, value) => serviceStates := serviceStates[sid := value];
          case SetDefaultStates(defaults) => OnSetDefaultStates(defaults);
          case ClearServiceStates => serviceStates := map[];
        }
      }
      assert mailbox[..|mailbox|] == mailbox;
    }
  }

  // ---------------------------------------------------------------- over whole mailboxes

  predicate Control(m: Message) { m.Suppress? || m.Restore? }

  /** The last suppress or restore among the first n messages. */
  function LastControl(h: seq<Message>, n: nat): (r: Option<Message>)
    requires n <= |h|
    ensures r.Some? ==> Control(r.value)
  {
    if n == 0 then None else if Control(h[n - 1]) then Some(h[n - 1]) else LastControl(h, n - 1)
  }

  lemma {:induction false} LastControlOfPrefix(h: seq<Message>, m: nat, n: nat)
    requires n <= m <= |h|
    ensures LastControl(h[..m], n) == LastControl(h, n)
  {
    if n > 0 { LastControlOfPrefix(h, m, n - 1); }
  }

  /** Disconnects are suppressed when message n is handled. */
  predicate SuppressedAt(v: View, h: seq<Message>, n: nat)
    requires n <= |h|
  {
    var c := LastControl(h, n);
    if c.Some? then c.value.Suppress? else v.suppress
  }

  /** Message i says where the ECU is, and is listened to. */
  predicate Telling(v: View, h: seq<Message>, i: nat)
    requires i < |h|
  {
    h[i].Connected? || (h[i].Disconnected? && !SuppressedAt(v, h, i))
  }

  /** The flag after any mailbox is what the last suppress or restore says. */
  lemma {:induction false} FlagAfter(v: View, h: seq<Message>)
    ensures HandleAll(v, h).suppress == SuppressedAt(v, h, |h|)
  {
    if h != [] {
      var before := h[..|h| - 1];
      FlagAfter(v, before);
      LastControlOfPrefix(h, |before|, |before|);
    }
  }

  lemma LastMessageTells(v: View, h: seq<Message>)
    requires h != []
    ensures var n := |h| - 1;
            HandleAll(v, h).state.connectivity ==
            if !Telling(v, h, n) then HandleAll(v, h[..n]).state.connectivity
            else if h[n].Connected? then Online else Offline
  {
    var n := |h| - 1;
    FlagAfter(v, h[..n]);
    LastControlOfPrefix(h, n, n);
  }

  lemma TellingInPrefix(v: View, h: seq<Message>, n: nat, i: nat)
    requires i < n <= |h|
    ensures Telling(v, h[..n], i) == Telling(v, h, i)
  {
    LastControlOfPrefix(h, n, i);
  }

  /** Connectivity after any mailbox is what its last listened-to connectivity message says, whatever
      stands between; without one it is unchanged. */
  lemma {:induction false} ConnectivityAfter(v: View, h: seq<Message>, last: Option<nat>)
    requires last.Some? ==> last.value < |h| && Telling(v, h, last.value)
    requires forall k :: (if last.Some? then last.value + 1 else 0) <= k < |h| ==> !Telling(v, h, k)
    ensures HandleAll(v, h).state.connectivity ==
            if last.None? then v.state.connectivity
            else if h[last.value].Connected? then Online else Offline
  {
    if h != [] {
      var n := |h| - 1;
      LastMessageTells(v, h);
      if last != Some(n) {
        forall k | 0 <= k < n ensures Telling(v, h[..n], k) == Telling(v, h, k) {
          TellingInPrefix(v, h, n, k);
        }
        ConnectivityAfter(v, h[..n], last);
      }
    }
  }

  /** Message i writes the variant: a mark, or a connect that finds the ECU Offline. */
  predicate WritesVariant(v: View, h: seq<Message>, i: nat)
    requires i < |h|
  {
    || h[i].MarkDuplicate? || h[i].MarkNotDetected?
    || (h[i].Connected? && HandleAll(v, h[..i]).state.connectivity.Offline?)
  }

  /** The variant after any mailbox is what its last message that writes it says, and the index is then
      gone; without one both are unchanged. */
  lemma {:induction false} VariantAfter(v: View, h: seq<Message>, last: Option<nat>)
    requires last.Some? ==> last.value < |h| && WritesVariant(v, h, last.value)
    requires forall k :: (if last.Some? then last.value + 1 else 0) <= k < |h| ==> !WritesVariant(v, h, k)
    ensures var state := HandleAll(v, h).state;
            if last.None? then state.variant == v.state.variant && state.index == v.state.index
            else
              && state.index.None?
              && state.variant == (match h[last.value]
                                   case MarkDuplicate => Duplicate
                                   case MarkNotDetected => NotDetected
                                   case _ => NotTested)
  {
    if h != [] {
      var n := |h| - 1;
      if last != Some(n) {
        forall k | 0 <= k < n ensures WritesVariant(v, h[..n], k) == WritesVariant(v, h, k) {
          assert h[..n][..k] == h[..k];
        }
        assert !WritesVariant(v, h, n);
        VariantAfter(v, h[..n], last);
      }
    }
  }

  /** An ECU that is online needs detection exactly if it was never tested, one that is Offline exactly if
      it is no duplicate. */
  lemma DetectionNeeded(s: EcuState)
    ensures NeedsVariantDetection(s) <==>
            if s.connectivity.Online? then s.variant == NotTested else s.variant != Duplicate
  {
  }

  predicate Sets(m: Message, sid: byte) { m.SetServiceState? && m.sid == sid }

  predicate Offers(m: Message, sid: byte) {
    m.SetDefaultStates? && exists i :: 0 <= i < |m.defaults| && m.defaults[i].0 == sid
  }

  /** A state that was set and neither set again nor cleared since is still there, whatever defaults
      were offered. */
  lemma {:induction false} LastWriteWins(v: View, h: seq<Message>, sid: byte, i: nat)
    requires i < |h| && Sets(h[i], sid)
    requires forall k :: i < k < |h| ==> !Sets(h[k], sid) && !h[k].ClearServiceStates?
    ensures sid in HandleAll(v, h).services && HandleAll(v, h).services[sid] == h[i].value
  {
    var n := |h| - 1;
    if i < n {
      LastWriteWins(v, h[..n], sid, i);
      if h[n].SetDefaultStates? { FillInAt(HandleAll(v, h[..n]).services, h[n].defaults, sid); }
    }
  }

  predicate IsFirstOffer(defaults: seq<(byte, string)>, sid: byte, i: nat)
    requires i < |defaults|
  {
    defaults[i].0 == sid && forall j :: 0 <= j < i ==> defaults[j].0 != sid
  }

  /** Defaults leave what is there and add the first offer for what is not. */
  lemma {:induction false} FillInAt(services: Services, defaults: seq<(byte, string)>, sid: byte)
    ensures var w := FillIn(services, defaults);
            && (sid in w <==> sid in services || exists i :: 0 <= i < |defaults| && defaults[i].0 == sid)
            && (sid in services ==> w[sid] == services[sid])
            && (forall i :: 0 <= i < |defaults| && IsFirstOffer(defaults, sid, i) && sid !in services ==>
                  w[sid] == defaults[i].1)
  {
    if defaults != [] {
      var n := |defaults| - 1;
      FillInAt(services, defaults[..n], sid);
    }
  }

  /** Without a write or a clear, a SID has a state exactly if it had one or a default was offered, and
      a state it had is unchanged: re-detection never overrides the actual session. */
  lemma {:induction false} DefaultsNeverOverride(v: View, h: seq<Message>, sid: byte)
    requires forall k :: 0 <= k < |h| ==> !Sets(h[k], sid) && !h[k].ClearServiceStates?
    ensures var w := HandleAll(v, h).services;
            && (sid in w <==> sid in v.services || exists k :: 0 <= k < |h| && Offers(h[k], sid))
            && (sid in v.services ==> w[sid] == v.services[sid])
  {
    if h != [] {
      var n := |h| - 1;
      DefaultsNeverOverride(v, h[..n], sid);
      if h[n].SetDefaultStates? { FillInAt(HandleAll(v, h[..n]).services, h[n].defaults, sid); }
    }
  }

  /** After a clear, and without a write since, a SID has a state exactly if a default was offered since. */
  lemma {:induction false} ClearStartsOver(v: View, h: seq<Message>, sid: byte, i: nat)
    requires i < |h| && h[i].ClearServiceStates?
    requires forall k :: i < k < |h| ==> !Sets(h[k], sid) && !h[k].ClearServiceStates?
    ensures sid in HandleAll(v, h).services <==> exists k :: i < k < |h| && Offers(h[k], sid)
  {
    var n := |h| - 1;
    if i < n {
      ClearStartsOver(v, h[..n], sid, i);
      if h[n].SetDefaultStates? { FillInAt(HandleAll(v, h[..n]).services, h[n].defaults, sid); }
    }
  }

  /** And then the state is that of the first offer: default j of message k. */
  lemma {:induction false} FirstOfferWins(v: View, h: seq<Message>, sid: byte, i: nat, k: nat, j: nat)
    requires i < k < |h| && h[i].ClearServiceStates?
    requires forall m :: i < m < |h| ==> !Sets(h[m], sid) && !h[m].ClearServiceStates?
    requires h[k].SetDefaultStates? && j < |h[k].defaults| && IsFirstOffer(h[k].defaults, sid, j)
    requires forall m :: i < m < k ==> !Offers(h[m], sid)
    ensures sid in HandleAll(v, h).services && HandleAll(v, h).services[sid] == h[k].defaults[j].1
  {
    var n := |h| - 1;
    var services := HandleAll(v, h[..n]).services;
    if k < n {
      FirstOfferWins(v, h[..n], sid, i, k, j);
      if h[n].SetDefaultStates? { FillInAt(services, h[n].defaults, sid); }
    } else {
      ClearStartsOver(v, h[..n], sid, i);
      FillInAt(services, h[n].defaults, sid);
    }
  }
}
