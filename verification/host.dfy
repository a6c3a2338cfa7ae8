/** The LC-FIND host of the partial-class files under Class.LcFindHost/: its
    state, the reconfiguration API, the `Tick` that reconciles the actual
    status with the target status, the message dispatcher and the two reply
    serialisers. Every method of `LcFindHost` is proved against a function on
    `HostState`, and the properties are lemmas about those functions. */
module Host {

  import opened Wrappers
  import opened Ipv4
  import opened LcStatus
  import opened NetConfig
  import opened Wire

  /** `new DateTime(2020, 01, 1)` in seconds since 1970-01-01, on the clock
      that `now` is read from. */
  const InitialCooldownEnd: int := 1577836800

  /** The default of `ConfirmationTimeout` and `CooldownTimeout`, in seconds. */
  const DefaultTimeout: int := 60

  const CannotUseIp := "Cannot use this IP address"
  const UnableToSet := "Unable to set requested configuration"

  /** The text a discovery request starts with. */
  const FindPrefix := "FINDReq=1;"

  /** The text a reconfiguration request for this host starts with. */
  function ConfPrefix(hwAddress: string): string
  {
    "CONFReq=1;HWADDR=" + hwAddress + ";"
  }

  /** Every field of the host that its methods read or write. */
  datatype HostState = HostState(
    hwAddress: string,
    SerialNumber: string,
    DeviceName: string,
    ActualStatus: Status,
    targetStatus: Status,
    cooldownEnd: int,
    ConfirmationTimeout: int,
    CooldownTimeout: int,
    IsConfirmationEnabled: bool,
    IsReconfigurationEnabled: bool,
    configurationToSet: Option<NetworkConfiguration>)

  /** The field initialisers: Disabled, a target left at the enum's zero value
      Ready, reconfiguration off, no pending configuration, and a cooldown
      deadline already in the past. */
  function Initial(hwAddress: string, serialNumber: string, deviceName: string): HostState
  {
    HostState(hwAddress, serialNumber, deviceName, Disabled, Ready, InitialCooldownEnd,
              DefaultTimeout, DefaultTimeout, false, false, None)
  }

  // ---------------------------------------------------------------------
  // Reply serialisers

  /** The fields of a FIND reply, in the order they are appended. */
  function FindPairs(st: HostState, cfg: NetworkConfiguration): seq<(string, string)>
  {
    [("FIND", "1"),
     ("IP", FormatIp(cfg.IpAddress)),
     ("HWADDR", cfg.MacAddress),
     ("DeviceName", st.DeviceName),
     ("SN", st.SerialNumber),
     ("Status", Name(st.ActualStatus)),
     ("NetworkMode", if cfg.IsDhcpEnabled then "DHCP" else "Static"),
     ("Mask", FormatIp(cfg.SubnetMask)),
     ("Gateway", FormatIp(cfg.GatewayAddress))]
  }

  /** The FIND reply: the fields, then one NUL. */
  function BuildFindReqResponseString(st: HostState, cfg: NetworkConfiguration): string
  {
    Concat(Fields(FindPairs(st, cfg)) + [[Nul]])
  }

  /** The fields of a CONF reply: the request's outcome, then the current
      network settings if they can be read (only the mode under DHCP). */
  function ConfPairs(st: HostState, requestResult: string, actualConfig: Option<NetworkConfiguration>): seq<(string, string)>
  {
    [("CONF", "1"),
     ("HWADDR", st.hwAddress),
     ("Status", Name(st.ActualStatus)),
     ("Result", requestResult)]
    + match actualConfig
      case None => []
      case Some(c) =>
        if c.IsDhcpEnabled then [("NetworkMode", "DHCP")]
        else [("NetworkMode", "Static"),
              ("IP", FormatIp(c.IpAddress)),
              ("Mask", FormatIp(c.SubnetMask)),
              ("Gateway", FormatIp(c.GatewayAddress))]
  }

  /** The CONF reply: the fields, then one NUL. The get delegate's answer
      is the parameter `actualConfig`. */
  function BuildConfReqResponseString(st: HostState, requestResult: string, actualConfig: Option<NetworkConfiguration>): string
  {
    Concat(Fields(ConfPairs(st, requestResult, actualConfig)) + [[Nul]])
  }

  /** The text `ProcessMessage` appends inline for a FIND reply, piece by
      piece. */
  function InlineFindText(st: HostState, cfg: NetworkConfiguration): string
  {
    Concat(["FIND=1;",
            Field("IP", FormatIp(cfg.IpAddress)),
            Field("HWADDR", cfg.MacAddress),
            Field("DeviceName", st.DeviceName),
            Field("SN", st.SerialNumber),
            Field("Status", Name(st.ActualStatus)),
            if cfg.IsDhcpEnabled then "NetworkMode=DHCP;" else "NetworkMode=Static;",
            Field("Mask", FormatIp(cfg.SubnetMask)),
            Field("Gateway", FormatIp(cfg.GatewayAddress)),
            [Nul]])
  }

  /** The inline FIND text is the serialiser's. */
  lemma InlineFindTextIsBuilt(st: HostState, cfg: NetworkConfiguration)
    ensures InlineFindText(st, cfg) == BuildFindReqResponseString(st, cfg)
  {
    var pieces := Fields(FindPairs(st, cfg)) + [[Nul]];
    assert pieces[0] == "FIND=1;";
    assert pieces[6] == if cfg.IsDhcpEnabled then "NetworkMode=DHCP;" else "NetworkMode=Static;";
    assert pieces == ["FIND=1;",
                      Field("IP", FormatIp(cfg.IpAddress)),
                      Field("HWADDR", cfg.MacAddress),
                      Field("DeviceName", st.DeviceName),
                      Field("SN", st.SerialNumber),
                      Field("Status", Name(st.ActualStatus)),
                      if cfg.IsDhcpEnabled then "NetworkMode=DHCP;" else "NetworkMode=Static;",
                      Field("Mask", FormatIp(cfg.SubnetMask)),
                      Field("Gateway", FormatIp(cfg.GatewayAddress)),
                      [Nul]];
  }

  // ---------------------------------------------------------------------
  // The operations as functions of the state

  function EnableSpec(st: HostState): HostState
  {
    if st.ActualStatus == Disabled then st.(targetStatus := Ready) else st
  }

  function DisableSpec(st: HostState): HostState
  {
    st.(targetStatus := Disabled)
  }

  function ConfirmSpec(st: HostState): HostState
  {
    if st.ActualStatus == AwaitingConfirmation then st.(targetStatus := Cooldown) else st
  }

  /** What one tick does: the new state, the configuration handed to the set
      delegate if it was called (`None` inside when `_configurationToSet` is
      still null), and the CONF reply sent, if any. */
  datatype TickOutcome = TickOutcome(
    state: HostState,
    setCall: Option<Option<NetworkConfiguration>>,
    reply: Option<string>)

  function Idle(st: HostState): TickOutcome
  {
    TickOutcome(st, None, None)
  }

  /** The (actual, target) table of `Tick`, one row per pair. `setOk` is the
      set delegate's answer and `actualConfig` the get delegate's. */
  function TickSpec(st: HostState, now: int, setOk: bool, actualConfig: Option<NetworkConfiguration>): TickOutcome
  {
    match (st.ActualStatus, st.targetStatus)
    case (Ready, Ready) => Idle(st)
    case (Ready, AwaitingConfirmation) => Idle(st)
    case (Ready, Cooldown) =>
      var applied :=
        if setOk then st.(cooldownEnd := now + st.CooldownTimeout, ActualStatus := Cooldown)
        else st.(ActualStatus := Ready);
      var requestResult := if setOk then OkMessage else UnableToSet;
      TickOutcome(applied.(ActualStatus := Cooldown), Some(st.configurationToSet),
                  Some(BuildConfReqResponseString(applied, requestResult, actualConfig)))
    case (Ready, Disabled) => Idle(st.(ActualStatus := Disabled))
    case (AwaitingConfirmation, _) => Idle(st)
    case (Cooldown, Ready) => Idle(st.(ActualStatus := Ready))
    case (Cooldown, AwaitingConfirmation) => Idle(st)
    case (Cooldown, Cooldown) => Idle(if now >= st.cooldownEnd then st.(targetStatus := Ready) else st)
    case (Cooldown, Disabled) => Idle(st.(IsReconfigurationEnabled := false, ActualStatus := Disabled))
    case (Disabled, Ready) => Idle(st.(ActualStatus := Ready, IsReconfigurationEnabled := true))
    case (Disabled, _) => Idle(st)
  }

  /** What `ProcessMessage` does: the new state, its return value and the
      reply text in its out-parameter. */
  datatype ProcessOutcome = ProcessOutcome(state: HostState, respond: bool, response: string)

  /** A reconfiguration request this host acts on: reconfiguration is on and
      the text starts with the request header carrying this host's address. */
  predicate IsConfRequestForHost(st: HostState, msg: string)
  {
    st.IsReconfigurationEnabled && ConfPrefix(st.hwAddress) <= msg
  }

  /** A request that is acted on, parses and names an address the filter
      lets through. Neither the actual status nor a pending configuration is
      consulted. */
  ghost predicate Accepts(st: HostState, msg: string, parseIp: IpParser)
  {
    IsConfRequestForHost(st, msg)
    && ParseSpec(msg, parseIp).isOk
    && CheckIfNewIpIsValid(ParseSpec(msg, parseIp).config.IpAddress)
  }

  /** The reason a request that is acted on but not accepted gives. */
  ghost function RejectionReason(msg: string, parseIp: IpParser): string
    requires |msg| >= 1
  {
    if ParseSpec(msg, parseIp).isOk then CannotUseIp else ParseSpec(msg, parseIp).errorMessage
  }

  /** Function.ProcessMessage.cs: the FIND branch, then the CONF branch.
      `actualConfig` is the get delegate's answer. */
  ghost function ProcessSpec(st: HostState, msg: string, actualConfig: Option<NetworkConfiguration>, parseIp: IpParser): ProcessOutcome
  {
    var afterFind :=
      if FindPrefix <= msg && actualConfig.Some? then ProcessOutcome(st, true, InlineFindText(st, actualConfig.value))
      else ProcessOutcome(st, false, "");
    if Accepts(st, msg, parseIp) then
      var target := if st.IsConfirmationEnabled then AwaitingConfirmation else Cooldown;
      afterFind.(state := st.(configurationToSet := Some(ParseSpec(msg, parseIp).config), targetStatus := target))
    else if IsConfRequestForHost(st, msg) then
      ProcessOutcome(st, true, BuildConfReqResponseString(st, RejectionReason(msg, parseIp), actualConfig))
    else afterFind
  }

  // ---------------------------------------------------------------------
  // The host object

  class LcFindHost {
    var hwAddress: string
    var SerialNumber: string
    var DeviceName: string
    var ActualStatus: Status
    var targetStatus: Status
    var cooldownEnd: int
    var ConfirmationTimeout: int
    var CooldownTimeout: int
    var IsConfirmationEnabled: bool
    var IsReconfigurationEnabled: bool
    var configurationToSet: Option<NetworkConfiguration>

    function State(): HostState
      reads this
    {
      HostState(hwAddress, SerialNumber, DeviceName, ActualStatus, targetStatus, cooldownEnd,
                ConfirmationTimeout, CooldownTimeout, IsConfirmationEnabled,
                IsReconfigurationEnabled, configurationToSet)
    }

    /** The field initialisers of Class.LcFindHost.cs. The hardware address,
        which `Initialize` reads from the get delegate, and the two
        `Unknown-<guid>` names are parameters. */
    constructor(hwAddress: string, serialNumber: string, deviceName: string)
      ensures State() == Initial(hwAddress, serialNumber, deviceName)
    {
      this.hwAddress := hwAddress;
      SerialNumber := serialNumber;
      DeviceName := deviceName;
      ActualStatus := Disabled;
      targetStatus := Ready;
      cooldownEnd := InitialCooldownEnd;
      ConfirmationTimeout := DefaultTimeout;
      CooldownTimeout := DefaultTimeout;
      IsConfirmationEnabled := false;
      IsReconfigurationEnabled := false;
      configurationToSet := None;
    }

    /** Function.EnableReconfiguration.cs */
    method EnableReconfiguration()
      modifies this
      ensures State() == EnableSpec(old(State()))
    {
      if ActualStatus == Disabled {
        targetStatus := Ready;
      }
    }

    /** Function.DisableReconfiguration.cs */
    method DisableReconfiguration()
      modifies this
      ensures State() == DisableSpec(old(State()))
    {
      targetStatus := Disabled;
    }

    /** Function.Confirm.cs */
    method Confirm()
      modifies this
      ensures State() == ConfirmSpec(old(State()))
    {
      if ActualStatus == AwaitingConfirmation {
        targetStatus := Cooldown;
      }
    }

    /** Function.Tick.cs, branch for branch. `now` stands for `DateTime.Now`,
        `setOk` for the set delegate's answer and `actualConfig` for the get
        delegate's; the reply that is sent is returned. */
    method Tick(now: int, setOk: bool, actualConfig: Option<NetworkConfiguration>)
      returns (setCall: Option<Option<NetworkConfiguration>>, reply: Option<string>)
      modifies this
      ensures TickOutcome(State(), setCall, reply) == TickSpec(old(State()), now, setOk, actualConfig)
    {
      setCall, reply := None, None;
      if ActualStatus == Ready && targetStatus == Ready {
      } else if ActualStatus == Ready && targetStatus == Disabled {
        ActualStatus := Disabled;
      } else if ActualStatus == Ready && targetStatus == Cooldown {
        var requestResult := "";
        setCall := Some(configurationToSet);
        if setOk {
          cooldownEnd := now + CooldownTimeout;
          requestResult := OkMessage;
          ActualStatus := Cooldown;
        } else {
          requestResult := UnableToSet;
          ActualStatus := Ready;
        }
        var response := BuildConfReqResponseString(State(), requestResult, actualConfig);
        reply := Some(response);
        ActualStatus := Cooldown;
      } else if ActualStatus == Ready && targetStatus == AwaitingConfirmation {
      } else if ActualStatus == Ready && targetStatus == Disabled {
        // The source tests (Ready, Disabled) a second time here; the first
        // test above has already taken every such state.
        assert false;
      } else if ActualStatus == AwaitingConfirmation && targetStatus == AwaitingConfirmation {
      } else if ActualStatus == AwaitingConfirmation && targetStatus == Cooldown {
      } else if ActualStatus == AwaitingConfirmation && targetStatus == Ready {
      } else if ActualStatus == Cooldown && targetStatus == Disabled {
        IsReconfigurationEnabled := false;
        ActualStatus := Disabled;
      } else if ActualStatus == Cooldown && targetStatus == Cooldown {
        if now >= cooldownEnd {
          targetStatus := Ready;
        }
      } else if ActualStatus == Cooldown && targetStatus == Ready {
        ActualStatus := Ready;
      } else if ActualStatus == Cooldown && targetStatus == Disabled {
        // The (Cooldown, Disabled) test is repeated too, equally unreachable.
        assert false;
      } else if ActualStatus == Disabled && targetStatus == Ready {
        ActualStatus := Ready;
        IsReconfigurationEnabled := true;
      }
    }

    /** Function.ProcessMessage.cs. The FIND reply is built inline, as the
        source does; `actualConfig` is the get delegate's answer. */
    method ProcessMessage(receivedMessage: string, actualConfig: Option<NetworkConfiguration>, parseIp: IpParser)
      returns (returnValue: bool, responseMessage: string)
      modifies this
      ensures ProcessOutcome(State(), returnValue, responseMessage)
        == ProcessSpec(old(State()), receivedMessage, actualConfig, parseIp)
    {
      returnValue := false;
      responseMessage := "";

      if FindPrefix <= receivedMessage {
        if actualConfig.Some? {
          responseMessage := InlineFindText(State(), actualConfig.value);
          returnValue := true;
        }
      }

      if IsReconfigurationEnabled && ConfPrefix(hwAddress) <= receivedMessage {
        assert |receivedMessage| >= 1;
        var isOk, receivedConfiguration, requestResult := TryFromResponseString(receivedMessage, parseIp);

        if isOk {
          if !CheckIfNewIpIsValid(receivedConfiguration.IpAddress) {
            isOk := false;
            requestResult := CannotUseIp;
          }
        }

        if isOk {
          configurationToSet := Some(receivedConfiguration);
          if IsConfirmationEnabled {
            targetStatus := AwaitingConfirmation;
          } else {
            targetStatus := Cooldown;
          }
        } else {
          responseMessage := BuildConfReqResponseString(State(), requestResult, actualConfig);
          returnValue := true;
        }
      }
    }
  }
}
