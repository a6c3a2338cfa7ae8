/** Properties of the host: what each operation does and leaves alone, the
    invariant every reachable state keeps, and the scenarios the protocol is
    built around, all stated on the functions the `LcFindHost` methods are
    proved against. */
module HostProperties {

  import opened Wrappers
  import opened Text
  import opened Ipv4
  import opened LcStatus
  import opened NetConfig
  import opened Host

  // ---------------------------------------------------------------------
  // The API setters

  /** `EnableReconfiguration` only ever sets the target, and only from
      Disabled; the new status shows at the next tick. */
  lemma EnableOnlyTargetsReady(st: HostState)
    ensures EnableSpec(st).(targetStatus := st.targetStatus) == st
    ensures EnableSpec(st).targetStatus == (if st.ActualStatus == Disabled then Ready else st.targetStatus)
    ensures EnableSpec(EnableSpec(st)) == EnableSpec(st)
  {
  }

  /** `DisableReconfiguration` sets the target to Disabled from any state and
      writes nothing else. */
  lemma DisableOnlyTargetsDisabled(st: HostState)
    ensures DisableSpec(st).(targetStatus := st.targetStatus) == st
    ensures DisableSpec(st).targetStatus == Disabled
    ensures DisableSpec(DisableSpec(st)) == DisableSpec(st)
  {
  }

  /** `Confirm` moves the target to Cooldown exactly when the host awaits a
      confirmation, and writes nothing else. */
  lemma ConfirmOnlyWhenAwaiting(st: HostState)
    ensures ConfirmSpec(st).(targetStatus := st.targetStatus) == st
    ensures ConfirmSpec(st) != st <==> st.ActualStatus == AwaitingConfirmation && st.targetStatus != Cooldown
  {
  }

  // ---------------------------------------------------------------------
  // Tick

  /** The pairs on which a tick does nothing at all. */
  lemma TickIdlePairs(st: HostState, now: int, setOk: bool, actualConfig: Option<NetworkConfiguration>)
    requires || (st.ActualStatus == Ready && st.targetStatus == Ready)
             || st.ActualStatus == AwaitingConfirmation
             || st.targetStatus == AwaitingConfirmation
             || (st.ActualStatus == Disabled && st.targetStatus != Ready)
    ensures TickSpec(st, now, setOk, actualConfig) == Idle(st)
  {
  }

  /** One tick brings the actual status to the target, except that
      AwaitingConfirmation is neither entered nor left and Disabled does not
      go straight to Cooldown. */
  lemma TickFollowsTarget(st: HostState, now: int, setOk: bool, actualConfig: Option<NetworkConfiguration>)
    ensures TickSpec(st, now, setOk, actualConfig).state.ActualStatus
      == if || st.ActualStatus == AwaitingConfirmation
            || st.targetStatus == AwaitingConfirmation
            || (st.ActualStatus == Disabled && st.targetStatus == Cooldown)
         then st.ActualStatus else st.targetStatus
  {
  }

  /** What a tick may write besides the actual status: reconfiguration is
      switched on by Disabled -> Ready and off by Cooldown -> Disabled only
      (Ready -> Disabled leaves it on); the target is written only when a
      cooldown has run out; the pending configuration never; the deadline
      only by a successful apply; the set delegate and the reply only on
      (Ready, Cooldown). */
  lemma TickFrame(st: HostState, now: int, setOk: bool, actualConfig: Option<NetworkConfiguration>)
    ensures var out := TickSpec(st, now, setOk, actualConfig);
      && out.state.IsReconfigurationEnabled
         == (if st.ActualStatus == Disabled && st.targetStatus == Ready then true
             else if st.ActualStatus == Cooldown && st.targetStatus == Disabled then false
             else st.IsReconfigurationEnabled)
      && (out.state.targetStatus != st.targetStatus
          <==> st.ActualStatus == Cooldown && st.targetStatus == Cooldown && now >= st.cooldownEnd)
      && out.state.configurationToSet == st.configurationToSet
      && (out.state.cooldownEnd != st.cooldownEnd ==>
            st.ActualStatus == Ready && st.targetStatus == Cooldown && setOk)
      && (out.setCall.Some? <==> st.ActualStatus == Ready && st.targetStatus == Cooldown)
      && (out.reply.Some? <==> st.ActualStatus == Ready && st.targetStatus == Cooldown)
      && out.state.(ActualStatus := st.ActualStatus, IsReconfigurationEnabled := st.IsReconfigurationEnabled,
                    targetStatus := st.targetStatus, cooldownEnd := st.cooldownEnd) == st
  {
  }

  /** (Ready, Cooldown): the set delegate is called once with the pending
      configuration and the host ends in Cooldown either way; the deadline
      is armed only on success, and the reply reports the status as it was
      between the apply and the final assignment. */
  lemma TickApplies(st: HostState, now: int, setOk: bool, actualConfig: Option<NetworkConfiguration>)
    requires st.ActualStatus == Ready && st.targetStatus == Cooldown
    ensures var out := TickSpec(st, now, setOk, actualConfig);
      var end := if setOk then now + st.CooldownTimeout else st.cooldownEnd;
      && out.setCall == Some(st.configurationToSet)
      && out.state == st.(ActualStatus := Cooldown, cooldownEnd := end)
      && out.reply == Some(BuildConfReqResponseString(
                             st.(ActualStatus := if setOk then Cooldown else Ready, cooldownEnd := end),
                             if setOk then OkMessage else UnableToSet,
                             actualConfig))
  {
  }

  /** (Cooldown, Cooldown): the target returns to Ready exactly when the
      deadline has been reached. */
  lemma CooldownExpires(st: HostState, now: int, setOk: bool, actualConfig: Option<NetworkConfiguration>)
    requires st.ActualStatus == Cooldown && st.targetStatus == Cooldown
    ensures var out := TickSpec(st, now, setOk, actualConfig);
      && out.state.ActualStatus == Cooldown
      && (out.state.targetStatus == Ready <==> now >= st.cooldownEnd)
  {
  }

  /** The target starts at Ready, so the first tick leaves Disabled and
      switches reconfiguration on without `EnableReconfiguration`. */
  lemma FirstTickEnables(hwAddress: string, serialNumber: string, deviceName: string,
                         now: int, setOk: bool, actualConfig: Option<NetworkConfiguration>)
    ensures var out := TickSpec(Initial(hwAddress, serialNumber, deviceName), now, setOk, actualConfig);
      out.state.ActualStatus == Ready && out.state.IsReconfigurationEnabled && out.reply.None?
  {
  }

  /** From Disabled, enabling and ticking once gives Ready with
      reconfiguration on. */
  lemma EnableThenTick(st: HostState, now: int, setOk: bool, actualConfig: Option<NetworkConfiguration>)
    requires st.ActualStatus == Disabled
    ensures var out := TickSpec(EnableSpec(st), now, setOk, actualConfig);
      out.state.ActualStatus == Ready && out.state.IsReconfigurationEnabled
  {
  }

  /** A failed apply does not arm the deadline, so when the old deadline has
      passed the next tick ends the cooldown at once. */
  lemma FailedApplyCooldownIsShort(st: HostState, now: int, later: int,
                                   c1: Option<NetworkConfiguration>, c2: Option<NetworkConfiguration>, ok2: bool)
    requires st.ActualStatus == Ready && st.targetStatus == Cooldown
    requires later >= st.cooldownEnd
    ensures var first := TickSpec(st, now, false, c1).state;
      && first.ActualStatus == Cooldown && first.targetStatus == Cooldown
      && TickSpec(first, later, ok2, c2).state.targetStatus == Ready
  {
  }

  // ---------------------------------------------------------------------
  // ProcessMessage

  /** A message cannot start with both request headers. */
  lemma HeadersExclusive(st: HostState, msg: string)
    requires FindPrefix <= msg
    ensures !IsConfRequestForHost(st, msg)
  {
    assert msg[0] == 'F' && ConfPrefix(st.hwAddress)[0] == 'C';
  }

  /** A FIND request is answered with the serialiser's text whenever the
      configuration can be read, whatever the status. */
  lemma FindAnswered(st: HostState, msg: string, actualConfig: Option<NetworkConfiguration>, parseIp: IpParser)
    requires FindPrefix <= msg && actualConfig.Some?
    ensures ProcessSpec(st, msg, actualConfig, parseIp)
      == ProcessOutcome(st, true, BuildFindReqResponseString(st, actualConfig.value))
  {
    HeadersExclusive(st, msg);
    InlineFindTextIsBuilt(st, actualConfig.value);
  }

  /** A FIND request whose configuration cannot be read, and any message that
      is neither kind of request, gets no reply and changes nothing. */
  lemma OthersIgnored(st: HostState, msg: string, actualConfig: Option<NetworkConfiguration>, parseIp: IpParser)
    requires !(FindPrefix <= msg && actualConfig.Some?)
    requires !IsConfRequestForHost(st, msg)
    ensures ProcessSpec(st, msg, actualConfig, parseIp) == ProcessOutcome(st, false, "")
  {
  }

  /** An accepted request records the parsed configuration (replacing any
      pending one) and sets the target; no reply is sent yet. */
  lemma ConfAccepted(st: HostState, msg: string, actualConfig: Option<NetworkConfiguration>, parseIp: IpParser)
    requires Accepts(st, msg, parseIp)
    ensures var out := ProcessSpec(st, msg, actualConfig, parseIp);
      && out.state == st.(configurationToSet := Some(ParseSpec(msg, parseIp).config),
                          targetStatus := if st.IsConfirmationEnabled then AwaitingConfirmation else Cooldown)
      && !out.respond && out.response == ""
  {
    if FindPrefix <= msg {
      HeadersExclusive(st, msg);
    }
  }

  /** A request that is acted on but fails to parse, or names a filtered
      address, is answered at once with the reason and changes nothing. */
  lemma ConfRejected(st: HostState, msg: string, actualConfig: Option<NetworkConfiguration>, parseIp: IpParser)
    requires IsConfRequestForHost(st, msg) && !Accepts(st, msg, parseIp)
    ensures |msg| >= 1
    ensures ProcessSpec(st, msg, actualConfig, parseIp)
      == ProcessOutcome(st, true, BuildConfReqResponseString(st, RejectionReason(msg, parseIp), actualConfig))
    ensures ParseSpec(msg, parseIp).isOk ==> RejectionReason(msg, parseIp) == CannotUseIp
    ensures !ParseSpec(msg, parseIp).isOk ==> RejectionReason(msg, parseIp) != OkMessage
  {
    assert msg[0] == ConfPrefix(st.hwAddress)[0];
    ParseOkIffMessageOk(msg, parseIp);
  }

  /** Whether a request is accepted does not depend on the actual status, the
      target, the deadline or a pending configuration: there is no busy
      check. */
  lemma NoBusyCheck(st: HostState, other: HostState, msg: string, parseIp: IpParser)
    requires other.hwAddress == st.hwAddress
    requires other.IsReconfigurationEnabled == st.IsReconfigurationEnabled
    ensures Accepts(other, msg, parseIp) == Accepts(st, msg, parseIp)
  {
  }

  /** Message handling writes only the pending configuration and the
      target. */
  lemma ProcessFrame(st: HostState, msg: string, actualConfig: Option<NetworkConfiguration>, parseIp: IpParser)
    ensures var out := ProcessSpec(st, msg, actualConfig, parseIp);
      out.state.(configurationToSet := st.configurationToSet, targetStatus := st.targetStatus) == st
  {
  }

  /** A request with no "ip" key keeps the address `IPAddress.None`, which
      the filter refuses, so it is never accepted. */
  lemma NoIpKeyRejected(st: HostState, msg: string, parseIp: IpParser)
    requires |msg| >= 1
    requires forall p :: p in Split(TrimEnd(msg, {Nul}), ';') && IsKeyValuePair(p) ==> KeyOf(p) != "ip"
    ensures !Accepts(st, msg, parseIp)
  {
    AbsentFieldKeepsDefault(msg, "ip", parseIp);
    assert ParseSpec(msg, parseIp).config.IpAddress == NoneAddress;
    assert !CheckIfNewIpIsValid(NoneAddress);
  }

  // ---------------------------------------------------------------------
  // Runs of events

  /** Everything that can happen to a host: an API call, a write to one of
      its public settable properties, a tick, or a received message, each
      with the answers of the delegates involved. */
  datatype Event =
    | EnableEvent
    | DisableEvent
    | ConfirmEvent
    | SetSerialNumberEvent(serialNumber: string)
    | SetDeviceNameEvent(deviceName: string)
    | SetConfirmationTimeoutEvent(confirmationTimeout: int)
    | SetCooldownTimeoutEvent(cooldownTimeout: int)
    | SetConfirmationEnabledEvent(confirmationEnabled: bool)
    | TickEvent(now: int, setOk: bool, tickConfig: Option<NetworkConfiguration>)
    | MessageEvent(msg: string, messageConfig: Option<NetworkConfiguration>)

  ghost function Step(st: HostState, e: Event, parseIp: IpParser): HostState
  {
    match e
    case EnableEvent => EnableSpec(st)
    case DisableEvent => DisableSpec(st)
    case ConfirmEvent => ConfirmSpec(st)
    case SetSerialNumberEvent(sn) => st.(SerialNumber := sn)
    case SetDeviceNameEvent(dn) => st.(DeviceName := dn)
    case SetConfirmationTimeoutEvent(t) => st.(ConfirmationTimeout := t)
    case SetCooldownTimeoutEvent(t) => st.(CooldownTimeout := t)
    case SetConfirmationEnabledEvent(b) => st.(IsConfirmationEnabled := b)
    case TickEvent(now, setOk, c) => TickSpec(st, now, setOk, c).state
    case MessageEvent(msg, c) => ProcessSpec(st, msg, c, parseIp).state
  }

  ghost function Run(st: HostState, events: seq<Event>, parseIp: IpParser): HostState
    decreases |events|
  {
    if events == [] then st else Run(Step(st, events[0], parseIp), events[1..], parseIp)
  }

  /** The invariant of reachable states: AwaitingConfirmation is never the
      actual status, a host that is Ready or cooling down has
      reconfiguration on, and a target that asks for an apply has a
      configuration to apply. */
  predicate Inv(st: HostState)
  {
    && st.ActualStatus != AwaitingConfirmation
    && (st.ActualStatus == Ready || st.ActualStatus == Cooldown ==> st.IsReconfigurationEnabled)
    && (st.targetStatus == AwaitingConfirmation || st.targetStatus == Cooldown ==> st.configurationToSet.Some?)
  }

  lemma InitialInv(hwAddress: string, serialNumber: string, deviceName: string)
    ensures Inv(Initial(hwAddress, serialNumber, deviceName))
  {
  }

  lemma StepPreservesInv(st: HostState, e: Event, parseIp: IpParser)
    requires Inv(st)
    ensures Inv(Step(st, e, parseIp))
  {
    match e
    case MessageEvent(msg, c) =>
      ProcessFrame(st, msg, c, parseIp);
    case _ =>
  }

  lemma {:induction false} RunPreservesInv(st: HostState, events: seq<Event>, parseIp: IpParser)
    requires Inv(st)
    ensures Inv(Run(st, events, parseIp))
    decreases |events|
  {
    if events != [] {
      StepPreservesInv(st, events[0], parseIp);
      RunPreservesInv(Step(st, events[0], parseIp), events[1..], parseIp);
    }
  }

  /** No sequence of calls, property writes, ticks and messages makes
      AwaitingConfirmation the actual status, so `Confirm` never has an effect
      on a real host, whether confirmation is switched on or not. */
  lemma ConfirmNeverApplies(hwAddress: string, serialNumber: string, deviceName: string,
                            events: seq<Event>, parseIp: IpParser)
    ensures var st := Run(Initial(hwAddress, serialNumber, deviceName), events, parseIp);
      && st.ActualStatus != AwaitingConfirmation
      && ConfirmSpec(st) == st
      && Inv(st)
  {
    RunPreservesInv(Initial(hwAddress, serialNumber, deviceName), events, parseIp);
  }

  /** The runs `ConfirmNeverApplies` speaks of include hosts with
      confirmation on: after the first tick, switching confirmation on and
      an accepted request, the host is Ready with target
      AwaitingConfirmation, and `Confirm` still changes nothing. */
  lemma ConfirmationOnRun(hwAddress: string, serialNumber: string, deviceName: string,
                          now: int, setOk: bool, tickConfig: Option<NetworkConfiguration>,
                          msg: string, messageConfig: Option<NetworkConfiguration>, parseIp: IpParser)
    requires Accepts(Initial(hwAddress, serialNumber, deviceName).(IsReconfigurationEnabled := true), msg, parseIp)
    ensures var events := [TickEvent(now, setOk, tickConfig), SetConfirmationEnabledEvent(true),
                           MessageEvent(msg, messageConfig)];
      var st := Run(Initial(hwAddress, serialNumber, deviceName), events, parseIp);
      && st.IsConfirmationEnabled
      && st.ActualStatus == Ready
      && st.targetStatus == AwaitingConfirmation
      && ConfirmSpec(st) == st
  {
    var events := [TickEvent(now, setOk, tickConfig), SetConfirmationEnabledEvent(true),
                   MessageEvent(msg, messageConfig)];
    var init := Initial(hwAddress, serialNumber, deviceName);
    var s1 := Step(init, events[0], parseIp);
    FirstTickEnables(hwAddress, serialNumber, deviceName, now, setOk, tickConfig);
    var s2 := Step(s1, events[1], parseIp);
    NoBusyCheck(init.(IsReconfigurationEnabled := true), s2, msg, parseIp);
    ConfAccepted(s2, msg, messageConfig, parseIp);
    var s3 := Step(s2, events[2], parseIp);
    assert events[1..][1..][1..] == [];
    assert Run(s2, events[1..][1..], parseIp) == s3;
    assert Run(init, events, parseIp) == s3;
    ConfirmNeverApplies(hwAddress, serialNumber, deviceName, events, parseIp);
  }

  /** With confirmation on, an accepted request leaves a Ready host with
      target AwaitingConfirmation, and from there ticks and confirmations
      never change anything again. */
  lemma {:induction false} AwaitingConfirmationIsStuck(st: HostState, events: seq<Event>, parseIp: IpParser)
    requires st.ActualStatus == Ready && st.targetStatus == AwaitingConfirmation
    requires forall i :: 0 <= i < |events| ==> events[i].TickEvent? || events[i].ConfirmEvent?
    ensures Run(st, events, parseIp) == st
    decreases |events|
  {
    if events != [] {
      assert Step(st, events[0], parseIp) == st;
      AwaitingConfirmationIsStuck(st, events[1..], parseIp);
    }
  }

  /** With confirmation off, a Ready host that accepts a request applies it
      at the next tick: the set delegate gets the parsed configuration, the
      host enters Cooldown with the deadline armed, and the one reply says
      "Ok". */
  lemma ReconfigurationRoundTrip(st: HostState, msg: string, c1: Option<NetworkConfiguration>, parseIp: IpParser,
                                 now: int, c2: Option<NetworkConfiguration>)
    requires st.ActualStatus == Ready && !st.IsConfirmationEnabled
    requires Accepts(st, msg, parseIp)
    ensures var pending := ProcessSpec(st, msg, c1, parseIp).state;
      var out := TickSpec(pending, now, true, c2);
      && out.setCall == Some(Some(ParseSpec(msg, parseIp).config))
      && out.state.ActualStatus == Cooldown
      && out.state.cooldownEnd == now + st.CooldownTimeout
      && out.reply == Some(BuildConfReqResponseString(out.state, OkMessage, c2))
  {
    ConfAccepted(st, msg, c1, parseIp);
  }
}
