/** The earlier, single-file host (LightConversion.Protocols.LcFind/Code/Class.LcFindHost.cs).
    It has the same fields and the same transition table as the partial-class
    host, and its methods are proved against the same functions of
    `Host.HostState`. What differs is how replies leave: `ProcessMessage`
    returns a `Response` record, and `SendResponse` turns a needed response
    into a unicast to the endpoint it is given followed by a broadcast. */
module LegacyHost {

  import opened Wrappers
  import opened Ipv4
  import opened LcStatus
  import opened NetConfig
  import opened Host

  /** The private `Response` class: whether to answer, whether to repeat the
      answer as a broadcast, and the text. */
  datatype Response = Response(IsResponseNeeded: bool, IsResponseGlobal: bool, ResponseMessage: string)

  /** Where a datagram goes: to the endpoint `SendResponse` is given, or to
      the broadcast address on port 50022. */
  datatype Destination = RemoteEndpoint | GlobalBroadcast

  datatype Emission = Emission(to: Destination, text: string)

  const NoResponse := Response(false, false, "")

  /** The datagrams `SendResponse` sends, in order. */
  function Emissions(response: Response): (sent: seq<Emission>)
    ensures |sent| == (if !response.IsResponseNeeded then 0 else if response.IsResponseGlobal then 2 else 1)
    ensures forall i :: 0 <= i < |sent| ==> sent[i].text == response.ResponseMessage
    ensures |sent| >= 1 ==> sent[0].to == RemoteEndpoint
    ensures |sent| == 2 ==> sent[1].to == GlobalBroadcast
  {
    if !response.IsResponseNeeded then []
    else if response.IsResponseGlobal then
      [Emission(RemoteEndpoint, response.ResponseMessage), Emission(GlobalBroadcast, response.ResponseMessage)]
    else [Emission(RemoteEndpoint, response.ResponseMessage)]
  }

  /** The response `ProcessMessage` returns for a dispatcher outcome: every
      answer it gives is global. */
  function AsResponse(o: ProcessOutcome): Response
  {
    Response(o.respond, o.respond, o.response)
  }

  class LcFindHost {
    var hwAddress: string
    var SerialNumber: string
    var DeviceName: string
    var ActualStatus: Status
    var targetStatus: Status
    var cooldownEnd: int
    var ConfirmationTimeout: int
    var CooldownTimeout: int
    var IsConfirmationEnabled: bool
    var IsReconfigurationEnabled: bool
    var configurationToSet: Option<NetworkConfiguration>

    function State(): HostState
      reads this
    {
      HostState(hwAddress, SerialNumber, DeviceName, ActualStatus, targetStatus, cooldownEnd,
                ConfirmationTimeout, CooldownTimeout, IsConfirmationEnabled,
                IsReconfigurationEnabled, configurationToSet)
    }

    /** The field initialisers, the same as the partial-class host's. */
    constructor(hwAddress: string, serialNumber: string, deviceName: string)
      ensures State() == Initial(hwAddress, serialNumber, deviceName)
    {
      this.hwAddress := hwAddress;
      SerialNumber := serialNumber;
      DeviceName := deviceName;
      ActualStatus := Disabled;
      targetStatus := Ready;
      cooldownEnd := InitialCooldownEnd;
      ConfirmationTimeout := DefaultTimeout;
      CooldownTimeout := DefaultTimeout;
      IsConfirmationEnabled := false;
      IsReconfigurationEnabled := false;
      configurationToSet := None;
    }

    method EnableReconfiguration()
      modifies this
      ensures State() == EnableSpec(old(State()))
    {
      if ActualStatus == Disabled {
        targetStatus := Ready;
      }
    }

    method DisableReconfiguration()
      modifies this
      ensures State() == DisableSpec(old(State()))
    {
      targetStatus := Disabled;
    }

    method Confirm()
      modifies this
      ensures State() == ConfirmSpec(old(State()))
    {
      if ActualStatus == AwaitingConfirmation {
        targetStatus := Cooldown;
      }
    }

    /** `SendResponse`: nothing when no answer is needed, otherwise the
        answer to the endpoint and, when it is global, once more as a
        broadcast. Socket errors are not modelled. */
    method SendResponse(response: Response) returns (sent: seq<Emission>)
      ensures sent == Emissions(response)
    {
      sent := [];
      if response.IsResponseNeeded {
        sent := sent + [Emission(RemoteEndpoint, response.ResponseMessage)];
        if response.IsResponseGlobal {
          sent := sent + [Emission(GlobalBroadcast, response.ResponseMessage)];
        }
      }
    }

    /** The (Ready, Cooldown) branch of `Tick`: hand the pending
        configuration to the set delegate, report the outcome, and end in
        Cooldown whatever it was. */
    method ApplyConfiguration(now: int, setOk: bool, firstConfig: Option<NetworkConfiguration>, actualConfig: Option<NetworkConfiguration>)
      returns (setCall: Option<Option<NetworkConfiguration>>, sent: seq<Emission>)
      requires ActualStatus == Ready && targetStatus == Cooldown
      modifies this
      ensures var spec := TickSpec(old(State()), now, setOk, actualConfig);
        && State() == spec.state
        && setCall == spec.setCall
        && spec.reply.Some?
        && sent == Emissions(Response(true, true, spec.reply.value))
    {
      var requestResult := "";
      setCall := Some(configurationToSet);
      if setOk {
        cooldownEnd := now + CooldownTimeout;
        requestResult := OkMessage;
        ActualStatus := Cooldown;
      } else {
        requestResult := UnableToSet;
        ActualStatus := Ready;
      }
      var responseString := BuildConfReqResponseString(State(), requestResult, firstConfig);
      var response := Response(true, true, BuildConfReqResponseString(State(), requestResult, actualConfig));
      sent := SendResponse(response);
      ActualStatus := Cooldown;
    }

    /** `Tick`, branch for branch. In the (Ready, Cooldown) branch the CONF
        reply is built twice, each time asking the get delegate: the first
        text (`firstConfig`) is discarded and the second (`actualConfig`) is
        sent, to the sender of the last datagram the listener received and
        as a broadcast. */
    method Tick(now: int, setOk: bool, firstConfig: Option<NetworkConfiguration>, actualConfig: Option<NetworkConfiguration>)
      returns (setCall: Option<Option<NetworkConfiguration>>, sent: seq<Emission>)
      modifies this
      ensures var spec := TickSpec(old(State()), now, setOk, actualConfig);
        && State() == spec.state
        && setCall == spec.setCall
        && sent == (if spec.reply.Some? then Emissions(Response(true, true, spec.reply.value)) else [])
    {
      setCall, sent := None, [];
      if ActualStatus == Ready && targetStatus == Ready {
      } else if ActualStatus == Ready && targetStatus == Disabled {
        ActualStatus := Disabled;
      } else if ActualStatus == Ready && targetStatus == Cooldown {
        setCall, sent := ApplyConfiguration(now, setOk, firstConfig, actualConfig);
      } else if ActualStatus == Ready && targetStatus == AwaitingConfirmation {
      } else if ActualStatus == Ready && targetStatus == Disabled {
        // Here the second (Ready, Disabled) test would also clear
        // `IsReconfigurationEnabled`, but the first test has taken every
        // such state.
        assert false;
      } else if ActualStatus == AwaitingConfirmation && targetStatus == AwaitingConfirmation {
      } else if ActualStatus == AwaitingConfirmation && targetStatus == Cooldown {
      } else if ActualStatus == AwaitingConfirmation && targetStatus == Ready {
      } else if ActualStatus == Cooldown && targetStatus == Disabled {
        IsReconfigurationEnabled := false;
        ActualStatus := Disabled;
      } else if ActualStatus == Cooldown && targetStatus == Cooldown {
        if now >= cooldownEnd {
          targetStatus := Ready;
        }
      } else if ActualStatus == Cooldown && targetStatus == Ready {
        ActualStatus := Ready;
      } else if ActualStatus == Cooldown && targetStatus == Disabled {
        assert false;
      } else if ActualStatus == Disabled && targetStatus == Ready {
        ActualStatus := Ready;
        IsReconfigurationEnabled := true;
      }
    }

    /** `ProcessMessage`: the same dispatch as the partial-class host, with
        the answer returned as a `Response`. `IsNewIpValid` is the same ten
        byte comparisons as `CheckIfNewIpIsValid`, which it is modelled by. */
    method ProcessMessage(receivedMessage: string, actualConfig: Option<NetworkConfiguration>, parseIp: IpParser)
      returns (response: Response)
      modifies this
      ensures var spec := ProcessSpec(old(State()), receivedMessage, actualConfig, parseIp);
        State() == spec.state && response == AsResponse(spec)
    {
      response := NoResponse;
      if FindPrefix <= receivedMessage {
        if actualConfig.Some? {
          response := Response(true, true, InlineFindText(State(), actualConfig.value));
        }
      }

      if IsReconfigurationEnabled && ConfPrefix(hwAddress) <= receivedMessage {
        var isOk, receivedConfiguration, requestResult := TryFromResponseString(receivedMessage, parseIp);

        if isOk {
          if !CheckIfNewIpIsValid(receivedConfiguration.IpAddress) {
            isOk := false;
            requestResult := CannotUseIp;
          }
        }

        if isOk {
          configurationToSet := Some(receivedConfiguration);
          if IsConfirmationEnabled {
            targetStatus := AwaitingConfirmation;
          } else {
            targetStatus := Cooldown;
          }
        } else {
          response := Response(true, true, BuildConfReqResponseString(State(), requestResult, actualConfig));
        }
      }
    }
  }
}
