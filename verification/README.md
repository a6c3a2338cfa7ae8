# LC-FIND in Dafny

LC-FIND is a small UDP protocol. Instruments use it to announce themselves on
a local network and to accept a new IPv4 configuration. A client broadcasts
`FINDReq=1;` followed by NUL to port 50022. Every host answers with a
`FIND=1;IP=…;HWADDR=…;DeviceName=…;SN=…;Status=…;NetworkMode=…;Mask=…;Gateway=…;`
reply, ended by a NUL. A client reconfigures one host with a
`CONFReq=1;HWADDR=<mac>;…` request. The host addressed by that hardware
address parses it and checks the address against a filter. It then either
answers at once with a `CONF=1;…;Result=<reason>;` reply, or records the
configuration and applies it on its next tick. After an apply the host spends
a cooldown period before it accepts the next one.

The model covers:

- the host, as a class whose methods update its fields. There are two
  versions: the partial-class host and the earlier single-file host;
- the configuration parser `NetworkConfiguration.TryFromResponseString`,
  with its subnet-mask check;
- the address filter;
- the two reply serialisers;
- the client library: parameter lookup, the description parser, and the
  scan that keeps the first reply per serial number;
- the request texts the client sends;
- the test client's `DeviceFinder`.

Each imperative operation is a method. Each method is proved against a
function on values:

- the host methods against `Host.EnableSpec`, `Host.DisableSpec`,
  `Host.ConfirmSpec`, `Host.TickSpec` and `Host.ProcessSpec`, all on
  `Host.HostState`;
- the parser loops against `NetConfig.ParseSpec`, `NetConfig.ApplyParts` and
  `NetConfig.ApplyPart`;
- the client loops against `Client.Parameter`, `Client.Scan` and
  `Client.AllScans`.

The properties are then lemmas about those functions:

- in `HostProperties`: what each operation writes, the invariant of every
  reachable state, and the confirmation and reconfiguration scenarios;
- in `Interop`: how the client and the host read each other's texts.

Inputs from outside the program are parameters of the operations:

- `now` stands for `DateTime.Now`, as whole seconds;
- `setOk` is the answer of the set-configuration delegate;
- `actualConfig` is the answer of the get-configuration delegate. `None`
  means the delegate returned false;
- `parseIp` stands for `IPAddress.TryParse`;
- the client receives the datagrams that arrived, each with the sender's
  address and the ping outcome.

Modules:

- `wrappers.dfy`: `Option`.
- `text.dfy`: the .NET string operations the code uses (`Split`, `Trim`,
  `TrimEnd`, ASCII `ToLower`, decimal `ToString`).
- `status.dfy`: the `Status` enum.
- `ipv4.dfy`: addresses, their dotted-decimal text, the address filter, and
  the mask check with its 32-bit value.
- `network_configuration.dfy`: the record and its parser.
- `wire.dfy`: replies as the `StringBuilder` pieces they are assembled from.
- `host.dfy`: the partial-class host.
- `host_properties.dfy`: lemmas about the host.
- `legacy_host.dfy`: the single-file host.
- `client.dfy`: the client library.
- `device_finder.dfy`: the test client's `DeviceFinder`.
- `interop.dfy`: the lemmas that connect client and host.

## Behaviour of the code that the model follows

The model follows the code. Where the code differs from what its doc
comments describe, the code wins, and each difference below is a lemma:

- `_targetStatus` has no initialiser, so it starts as `Ready`, the enum's
  zero value. The first tick therefore leaves `Disabled` and switches
  reconfiguration on without a call to `EnableReconfiguration`
  (`HostProperties.FirstTickEnables`).
- No tick, no message and no property write (switching confirmation on
  included) ever makes `AwaitingConfirmation` the actual status. As a result `Confirm` never has an effect
  (`HostProperties.ConfirmNeverApplies`). With confirmation enabled, an
  accepted request stays pending forever
  (`HostProperties.AwaitingConfirmationIsStuck`).
- The (Ready, Cooldown) tick ends in `Cooldown` even when the apply fails.
  A failed apply does not arm the deadline, so that cooldown can end at the
  next tick (`HostProperties.TickApplies`,
  `HostProperties.FailedApplyCooldownIsShort`).
- Ready → Disabled leaves `IsReconfigurationEnabled` set. Only
  Cooldown → Disabled clears it (`HostProperties.TickFrame`).
- Whether a request is accepted does not depend on the status. A new request
  replaces a pending one (`HostProperties.NoBusyCheck`,
  `HostProperties.ConfAccepted`).
- The address filter refuses all of 192.0/16, 198/8 and 203/8, not only the
  documentation ranges. It refuses only the exact first bytes 224 and 240
  (`Ipv4.FilterEdges`).
- The client's DHCP request carries no `IP` pair. The parsed address
  therefore stays `IPAddress.None` (255.255.255.255), which the filter
  refuses, so a host always rejects that request with "Cannot use this IP
  address" (`Interop.DhcpRequestRejected`).
- The client does not deduplicate across interfaces
  (`Client.SeenTwiceListedTwice`).
- Hosts ignore replies, including their own broadcast replies
  (`Interop.FindReplyIgnored`, `Interop.ConfReplyIgnored`).
- The single-file host builds the CONF reply twice in `Tick` and sends the
  second one. Every reply it sends goes to one endpoint and then again as a
  broadcast (`LegacyHost.LcFindHost.Tick`,
  `LegacyHost.LcFindHost.ProcessMessage`). A reply to a message goes to that
  message's sender. The reply `Tick` sends goes to the sender of the last
  datagram the listener received, which is not the requester when another
  datagram arrived after the request.
- A field of a request that occurs more than once is decided by its last
  well-formed occurrence, and a failed parse reports the message of the last
  part that failed: the field loop does not stop at a failure
  (`NetConfig.LastWrittenWins`, `NetConfig.LastFailureReported`).

## Model

Source paths are relative to the repository root.

| member | source | states |
|---|---|---|
| LcStatus.NameRoundTrip | LightConversion.Protocols.LcFind/Code/Enum.Status.cs:5-10 | the name written for a status (`Status={ActualStatus}`) reads back as that status |
| LcStatus.NamesDistinct | LightConversion.Protocols.LcFind/Code/Enum.Status.cs:5-10 | two statuses have the same name exactly when they are equal |
| LcStatus.OrdinalsAreDense | LightConversion.Protocols.LcFind/Code/Enum.Status.cs:5-10 | the four members are numbered 0 to 3 in declaration order, and the zero value is Ready |
| Text.Split | LightConversion.Protocols.LcFind/Code/Class.NetworkConfiguration.cs:32 | `String.Split`: at least one piece, no piece holds the separator, and joining the pieces gives the text back |
| Text.SplitJoin | LightConversion.Protocols.LcFind/Code/Class.LcFindClient.cs:173 | splitting undoes joining when no piece holds the separator |
| Text.TrimEnd | LightConversion.Protocols.LcFind/Code/Class.NetworkConfiguration.cs:27 | `TrimEnd('\0')`: the longest prefix that does not end in a trimmed character; everything cut off was trimmed characters |
| Text.TrimStart | LightConversion.Protocols.LcFind/Code/Class.LcFindClient.cs:177 | the longest suffix that does not start with a trimmed character |
| Text.Lower | LightConversion.Protocols.LcFind/Code/Class.NetworkConfiguration.cs:48 | `ToLower`, character by character, same length |
| Text.DecimalRoundTrip | LightConversion.Protocols.LcFind/Code/Class.LcFindHost/PrivateStuff/Function.BuildFindReqResponseString.cs:12 | the decimal text of a number reads back as that number |
| Ipv4.FormatIp | LightConversion.Protocols.LcFind/Code/Class.LcFindHost/PrivateStuff/Function.BuildFindReqResponseString.cs:12 | the text of an address is non-empty, made of digits and dots, and starts and ends with a digit |
| Ipv4.FormatIpReadsBack | LightConversion.Protocols.LcFind/Code/Class.LcFindHost/PrivateStuff/Function.BuildFindReqResponseString.cs:12 | the dotted text splits into four decimal fields that read back as the four bytes |
| Ipv4.CheckIfNewIpIsValidIffUnblocked | LightConversion.Protocols.LcFind/Code/Class.LcFindHost/PrivateStuff/Function.CheckIfNewIpIsValid.cs:8-22 | the ten byte comparisons accept an address exactly when it falls in none of the ten blocked ranges |
| Ipv4.FilterEdges | LightConversion.Protocols.LcFind/Code/Class.LcFindHost/PrivateStuff/Function.CheckIfNewIpIsValid.cs:10-19 | the edges of each range: 0.0.0.0 and 255.255.255.255 are refused only as whole addresses; only the exact first bytes 224 and 240 are refused; all of 192.0/16, 198/8 and 203/8 are refused; ordinary private addresses pass |
| Ipv4.BitsValue | LightConversion.Protocols.LcFind/Code/Class.NetworkConfiguration.cs:71-73 | the 32 mask bits denote the big-endian value that `BitConverter.ToUInt32` reads from the reversed bytes |
| Ipv4.TopBitIsHighHalf | LightConversion.Protocols.LcFind/Code/Class.NetworkConfiguration.cs:75 | the top bit is set exactly when `(value & 0x80000000) == 0x80000000` |
| Ipv4.ShiftLeftIsDoubling | LightConversion.Protocols.LcFind/Code/Class.NetworkConfiguration.cs:76 | `newMask <<= 1` on a 32-bit unsigned value doubles it and loses the bit shifted out |
| Ipv4.PrefixMaskIffNoSetBitAfterClearBit | LightConversion.Protocols.LcFind/Code/Class.NetworkConfiguration.cs:74 | a mask is one of the 33 prefix masks exactly when no set bit follows a clear bit |
| Ipv4.PrefixMasksDistinct | LightConversion.Protocols.LcFind/Code/Class.NetworkConfiguration.cs:66-84 | the 33 prefix masks are pairwise different |
| Ipv4.IsContiguousMask | LightConversion.Protocols.LcFind/Code/Class.NetworkConfiguration.cs:71-82 | the shift loop ends with zero exactly when the mask is a prefix mask |
| Ipv4.MaskExampleAccepted | LightConversion.Protocols.LcFind/Code/Class.NetworkConfiguration.cs:66-84 | 255.255.255.0 is a prefix mask |
| Ipv4.MaskExampleRejected | LightConversion.Protocols.LcFind/Code/Class.NetworkConfiguration.cs:79-82 | 255.0.255.0 is not a prefix mask |
| NetConfig.TryFromResponseString | LightConversion.Protocols.LcFind/Code/Class.NetworkConfiguration.cs:16-100 | the return value and both out-parameters are those of `ParseSpec`: the NUL check, then the pair check on the `;`-parts with trailing NULs removed, then the fields read left to right |
| NetConfig.CheckPairs | LightConversion.Protocols.LcFind/Code/Class.NetworkConfiguration.cs:32-40 | the pair check succeeds exactly when every part splits on '=' into two pieces |
| NetConfig.ParseFields | LightConversion.Protocols.LcFind/Code/Class.NetworkConfiguration.cs:44-97 | the field loop yields the parts applied in order from the default record and "Ok" |
| NetConfig.ParseField | LightConversion.Protocols.LcFind/Code/Class.NetworkConfiguration.cs:46-95 | one pass of the field loop is `ApplyPart`: keys are compared lower-cased; mode, ip, mask (with the prefix check), gateway and hwaddr each set their field or fail with their message; other keys change nothing |
| NetConfig.ApplyPartsAppend | LightConversion.Protocols.LcFind/Code/Class.NetworkConfiguration.cs:45-96 | applying a list of parts is applying its two halves one after the other |
| NetConfig.ApplyPartsFailureSticks | LightConversion.Protocols.LcFind/Code/Class.NetworkConfiguration.cs:44-97 | once a part fails the result stays failed, and the flag is true exactly when the message is "Ok" |
| NetConfig.ParseOkIffMessageOk | LightConversion.Protocols.LcFind/Code/Class.NetworkConfiguration.cs:16-100 | the parser succeeds exactly when its error message is "Ok" |
| NetConfig.ApplyPartEffect | LightConversion.Protocols.LcFind/Code/Class.NetworkConfiguration.cs:46-95 | one part sets only its own key's field, to the value it writes if it is well-formed, and fails exactly when its mode, address or mask is malformed, with that key's message |
| NetConfig.UnwrittenFieldKept | LightConversion.Protocols.LcFind/Code/Class.NetworkConfiguration.cs:45-96 | for each of networkmode, ip, mask, gateway and hwaddr: parts that write nothing to that field leave it alone |
| NetConfig.LastWrittenWins | LightConversion.Protocols.LcFind/Code/Class.NetworkConfiguration.cs:45-96 | for each of the five keys: when the key occurs more than once, its last well-formed occurrence decides the field |
| NetConfig.AbsentFieldKeepsDefault | LightConversion.Protocols.LcFind/Code/Class.NetworkConfiguration.cs:10-19 | a field no part of the request writes keeps its default (static mode, `IPAddress.None`, empty hardware address), whatever the outcome |
| NetConfig.NoFailureKeepsStatus | LightConversion.Protocols.LcFind/Code/Class.NetworkConfiguration.cs:45-96 | parts that do not fail leave the flag and the message alone |
| NetConfig.LastFailureReported | LightConversion.Protocols.LcFind/Code/Class.NetworkConfiguration.cs:45-96 | the loop does not stop at a failure: the parse fails and reports the message of the last part that fails |
| NetConfig.TrailingSemicolonRejected | LightConversion.Protocols.LcFind/Code/Class.NetworkConfiguration.cs:32-40 | a request with ';' just before its NUL is refused as "Invalid key-value pair", with the default record |
| Wire.SplitFields | LightConversion.Protocols.LcFind/Code/Class.LcFindHost/PrivateStuff/Function.BuildFindReqResponseString.cs:8-29 | a reply built of `key=value;` pieces splits on ';' into one `key=value` entry per field, followed by the pieces of the tail |
| Host.InlineFindTextIsBuilt | LightConversion.Protocols.LcFind/Code/Class.LcFindHost/PrivateStuff/Function.ProcessMessage.cs:15-32 | the FIND reply `ProcessMessage` assembles inline is the text of `BuildFindReqResponseString` |
| Host.LcFindHost.constructor | LightConversion.Protocols.LcFind/Code/Class.LcFindHost/Class.LcFindHost.cs:23-37 | the initial state: Disabled, target Ready, reconfiguration and confirmation off, timeouts 60, deadline 2020-01-01, nothing pending |
| Host.LcFindHost.EnableReconfiguration | LightConversion.Protocols.LcFind/Code/Class.LcFindHost/Function.EnableReconfiguration.cs:6-10 | the new state is `EnableSpec` of the old |
| Host.LcFindHost.DisableReconfiguration | LightConversion.Protocols.LcFind/Code/Class.LcFindHost/Function.DisableReconfiguration.cs:9-11 | the new state is `DisableSpec` of the old |
| Host.LcFindHost.Confirm | LightConversion.Protocols.LcFind/Code/Class.LcFindHost/Function.Confirm.cs:9-13 | the new state is `ConfirmSpec` of the old |
| Host.LcFindHost.Tick | LightConversion.Protocols.LcFind/Code/Class.LcFindHost/PrivateStuff/Function.Tick.cs:8-55 | the new state, the call made to the set delegate and the reply sent are `TickSpec` of the old state |
| Host.LcFindHost.ProcessMessage | LightConversion.Protocols.LcFind/Code/Class.LcFindHost/PrivateStuff/Function.ProcessMessage.cs:8-76 | the new state, the return value and the response text are `ProcessSpec` of the old state and the message |
| HostProperties.EnableOnlyTargetsReady | LightConversion.Protocols.LcFind/Code/Class.LcFindHost/Function.EnableReconfiguration.cs:6-10 | enabling writes only the target: Ready when the host is Disabled, unchanged otherwise; it is idempotent |
| HostProperties.DisableOnlyTargetsDisabled | LightConversion.Protocols.LcFind/Code/Class.LcFindHost/Function.DisableReconfiguration.cs:9-11 | disabling writes only the target, always to Disabled; it is idempotent |
| HostProperties.ConfirmOnlyWhenAwaiting | LightConversion.Protocols.LcFind/Code/Class.LcFindHost/Function.Confirm.cs:9-13 | confirming writes only the target, and it changes something exactly when the host awaits confirmation and the target is not already Cooldown |
| HostProperties.TickIdlePairs | LightConversion.Protocols.LcFind/Code/Class.LcFindHost/PrivateStuff/Function.Tick.cs:9-55 | the (actual, target) pairs on which a tick does nothing at all |
| HostProperties.TickFollowsTarget | LightConversion.Protocols.LcFind/Code/Class.LcFindHost/PrivateStuff/Function.Tick.cs:8-55 | a tick sets the actual status to the target, except that AwaitingConfirmation is neither entered nor left and Disabled does not go straight to Cooldown |
| HostProperties.TickFrame | LightConversion.Protocols.LcFind/Code/Class.LcFindHost/PrivateStuff/Function.Tick.cs:8-55 | what a tick writes besides the status: the reconfiguration flag (on only by Disabled→Ready, off only by Cooldown→Disabled), the target only when a cooldown expires, the deadline only on a successful apply, the delegate call and the reply only on (Ready, Cooldown); everything else is unchanged |
| HostProperties.TickApplies | LightConversion.Protocols.LcFind/Code/Class.LcFindHost/PrivateStuff/Function.Tick.cs:13-27 | (Ready, Cooldown): the set delegate receives the pending configuration; the host ends in Cooldown either way; the deadline is armed only on success; the reply carries "Ok" or "Unable to set requested configuration" and the status from before the final assignment |
| HostProperties.CooldownExpires | LightConversion.Protocols.LcFind/Code/Class.LcFindHost/PrivateStuff/Function.Tick.cs:42-45 | (Cooldown, Cooldown): the target returns to Ready exactly when the deadline has passed |
| HostProperties.FirstTickEnables | LightConversion.Protocols.LcFind/Code/Class.LcFindHost/Class.LcFindHost.cs:28-29 | from the initial state the first tick gives Ready with reconfiguration on, and sends no reply |
| HostProperties.EnableThenTick | LightConversion.Protocols.LcFind/Code/Class.LcFindHost/PrivateStuff/Function.Tick.cs:51-53 | from Disabled, enabling and then one tick give Ready with reconfiguration on |
| HostProperties.FailedApplyCooldownIsShort | LightConversion.Protocols.LcFind/Code/Class.LcFindHost/PrivateStuff/Function.Tick.cs:16-27 | after a failed apply, a tick at or after the old deadline ends the cooldown at once |
| HostProperties.HeadersExclusive | LightConversion.Protocols.LcFind/Code/Class.LcFindHost/PrivateStuff/Function.ProcessMessage.cs:13-39 | no message starts with both request headers |
| HostProperties.FindAnswered | LightConversion.Protocols.LcFind/Code/Class.LcFindHost/PrivateStuff/Function.ProcessMessage.cs:13-37 | a FIND request is answered with the serialiser's text whenever the configuration can be read, and changes nothing |
| HostProperties.OthersIgnored | LightConversion.Protocols.LcFind/Code/Class.LcFindHost/PrivateStuff/Function.ProcessMessage.cs:8-76 | any other message, and a FIND request when the configuration cannot be read, get no reply and change nothing |
| HostProperties.ConfAccepted | LightConversion.Protocols.LcFind/Code/Class.LcFindHost/PrivateStuff/Function.ProcessMessage.cs:49-56 | an accepted request records the parsed configuration and sets the target to AwaitingConfirmation or Cooldown; no reply is sent |
| HostProperties.ConfRejected | LightConversion.Protocols.LcFind/Code/Class.LcFindHost/PrivateStuff/Function.ProcessMessage.cs:40-70 | a request that fails to parse or names a filtered address is answered at once with the CONF reply and its reason (the parser's message, or "Cannot use this IP address"), and the state is unchanged |
| HostProperties.NoBusyCheck | LightConversion.Protocols.LcFind/Code/Class.LcFindHost/PrivateStuff/Function.ProcessMessage.cs:39-47 | acceptance depends only on the hardware address and the reconfiguration flag, not on the status, the target, the deadline or a pending configuration |
| HostProperties.ProcessFrame | LightConversion.Protocols.LcFind/Code/Class.LcFindHost/PrivateStuff/Function.ProcessMessage.cs:8-76 | message handling writes only the pending configuration and the target |
| HostProperties.NoIpKeyRejected | LightConversion.Protocols.LcFind/Code/Class.LcFindHost/PrivateStuff/Function.ProcessMessage.cs:40-47 | a request without an "ip" pair keeps the address `IPAddress.None` and is never accepted |
| HostProperties.InitialInv | LightConversion.Protocols.LcFind/Code/Class.LcFindHost/Class.LcFindHost.cs:26-37 | the initial state satisfies the invariant |
| HostProperties.StepPreservesInv | LightConversion.Protocols.LcFind/Code/Class.LcFindHost/PrivateStuff/Function.Tick.cs:8-55 | every call, property write, tick and message keeps the invariant: AwaitingConfirmation is never the actual status, Ready and Cooldown imply reconfiguration on, and a target that asks for an apply has a configuration pending |
| HostProperties.RunPreservesInv | LightConversion.Protocols.LcFind/Code/Class.LcFindHost/PrivateStuff/Function.Tick.cs:8-55 | every sequence of events keeps the invariant |
| HostProperties.ConfirmNeverApplies | LightConversion.Protocols.LcFind/Code/Class.LcFindHost/Function.Confirm.cs:9-13 | in every state reachable from the initial one by calls, property writes (switching confirmation on included), ticks and messages, the host is not awaiting confirmation, so `Confirm` changes nothing |
| HostProperties.ConfirmationOnRun | LightConversion.Protocols.LcFind/Code/Class.LcFindHost/PrivateStuff/Function.ProcessMessage.cs:49-53 | after the first tick, setting `IsConfirmationEnabled` and an accepted request, the host is Ready with target AwaitingConfirmation, and `Confirm` still changes nothing |
| HostProperties.AwaitingConfirmationIsStuck | LightConversion.Protocols.LcFind/Code/Class.LcFindHost/PrivateStuff/Function.Tick.cs:28-38 | from (Ready, AwaitingConfirmation), ticks and confirmations never change the state |
| HostProperties.ReconfigurationRoundTrip | LightConversion.Protocols.LcFind/Code/Class.LcFindHost/PrivateStuff/Function.Tick.cs:13-27 | with confirmation off, an accepted request is applied at the next tick: the set delegate receives the parsed configuration, the host enters Cooldown with deadline now + CooldownTimeout, and the reply says "Ok" |
| LegacyHost.Emissions | LightConversion.Protocols.LcFind/Code/Class.LcFindHost.cs:143-179 | no datagram when no answer is needed, otherwise the text to the endpoint `SendResponse` is given, then once more as a broadcast when the response is global |
| LegacyHost.LcFindHost.constructor | LightConversion.Protocols.LcFind/Code/Class.LcFindHost.cs:24-38 | the same initial state as the partial-class host |
| LegacyHost.LcFindHost.EnableReconfiguration | LightConversion.Protocols.LcFind/Code/Class.LcFindHost.cs:92-96 | the new state is `EnableSpec` of the old |
| LegacyHost.LcFindHost.DisableReconfiguration | LightConversion.Protocols.LcFind/Code/Class.LcFindHost.cs:98-100 | the new state is `DisableSpec` of the old |
| LegacyHost.LcFindHost.Confirm | LightConversion.Protocols.LcFind/Code/Class.LcFindHost.cs:102-106 | the new state is `ConfirmSpec` of the old |
| LegacyHost.LcFindHost.SendResponse | LightConversion.Protocols.LcFind/Code/Class.LcFindHost.cs:143-179 | the datagrams sent are `Emissions` of the response |
| LegacyHost.LcFindHost.ApplyConfiguration | LightConversion.Protocols.LcFind/Code/Class.LcFindHost.cs:284-299 | the (Ready, Cooldown) branch: state and delegate call as in `TickSpec`; the second CONF text goes to the endpoint `SendResponse` is given (the sender of the last datagram received) and as a broadcast |
| LegacyHost.LcFindHost.Tick | LightConversion.Protocols.LcFind/Code/Class.LcFindHost.cs:279-327 | the new state and the delegate call are `TickSpec` of the old state; the reply goes out twice |
| LegacyHost.LcFindHost.ProcessMessage | LightConversion.Protocols.LcFind/Code/Class.LcFindHost.cs:181-245 | the new state is that of `ProcessSpec`, and its reply is returned as a global response |
| Client.FirstMatchDecides | LightConversion.Protocols.LcFind/Code/Class.LcFindClient.cs:175-179 | the first part starting with `name=` decides the value, whatever follows it |
| Client.NoMatchIsEmpty | LightConversion.Protocols.LcFind/Code/Class.LcFindClient.cs:181 | a name no part starts with reads as "" |
| Client.GetParameterFromSeggerString | LightConversion.Protocols.LcFind/Code/Class.LcFindClient.cs:172-182 | the loop returns the trimmed value of the first matching part, or "" |
| Client.ParseDeviceDescriptionFromString | LightConversion.Protocols.LcFind/Code/Class.LcFindClient.cs:159-170 | the description holds the six parameters read from the reply; it has no address and is not marked reachable |
| Client.ConsiderReply | LightConversion.Protocols.LcFind/Code/Class.LcFindClient.cs:97-115 | one reply is added, stamped with sender, interface and reachability, exactly when its serial number is non-empty and not yet listed |
| Client.LookForDevicesOnInterface | LightConversion.Protocols.LcFind/Code/Class.LcFindClient.cs:64-122 | the receive loop yields `Scan` of the replies that arrived |
| Client.ScanStep | LightConversion.Protocols.LcFind/Code/Class.LcFindClient.cs:92-117 | the list after one more reply is the old list with that reply considered |
| Client.KeepSerialsDistinct | LightConversion.Protocols.LcFind/Code/Class.LcFindClient.cs:98-99 | every listed entry has a serial number, and no two listed entries share one |
| Client.KeepComplete | LightConversion.Protocols.LcFind/Code/Class.LcFindClient.cs:98-105 | every serial number that arrived is listed |
| Client.KeepGrowsAtEnd | LightConversion.Protocols.LcFind/Code/Class.LcFindClient.cs:105 | entries are only appended: the list after some replies is a prefix of the list after more |
| Client.FirstSightingKept | LightConversion.Protocols.LcFind/Code/Class.LcFindClient.cs:98-105 | the first reply carrying a serial number is the entry listed for it |
| Client.KeptCameFirst | LightConversion.Protocols.LcFind/Code/Class.LcFindClient.cs:98-105 | every listed entry is the first sighting of its serial number |
| Client.StampsOfReplies | LightConversion.Protocols.LcFind/Code/Class.LcFindClient.cs:97-104 | the entry of each reply carries the reply's serial number and the sender's address |
| Client.ScanOfOne | LightConversion.Protocols.LcFind/Code/Class.LcFindClient.cs:98-105 | a lone reply with a serial number is listed, stamped |
| Client.LookForDevices | LightConversion.Protocols.LcFind/Code/Class.LcFindClient.cs:29-39 | the scans of all interfaces, appended in interface order |
| Client.SeenTwiceListedTwice | LightConversion.Protocols.LcFind/Code/Class.LcFindClient.cs:34-36 | a device that answers on two interfaces is listed twice, once per interface |
| DeviceFinder.GetParameterFromSeggerString | ClientTesterApp/Code/Class.DeviceFinder.cs:99-109 | the same value as the client library's lookup |
| DeviceFinder.DescribeWithIpExtendsClient | ClientTesterApp/Code/Class.DeviceFinder.cs:85-97 | this parser agrees with the client library's on every field and in addition reads `IP` |
| DeviceFinder.ParseDeviceDescriptionFromString | ClientTesterApp/Code/Class.DeviceFinder.cs:85-97 | the seven parameters read from the reply |
| DeviceFinder.LookForDevices | ClientTesterApp/Code/Class.DeviceFinder.cs:16-26 | the client library's scans of all interfaces, in interface order |
| Interop.ReadField | LightConversion.Protocols.LcFind/Code/Class.LcFindClient.cs:172-182 | in a text of `key=value;` fields, the client reads the value of a key that no earlier key can be mistaken for |
| Interop.FindFieldReadBack | LightConversion.Protocols.LcFind/Code/Class.LcFindHost/PrivateStuff/Function.BuildFindReqResponseString.cs:8-29 | every field of a FIND reply after the first reads back, through the client's lookup, as the value written |
| Interop.FindReplyDescribed | LightConversion.Protocols.LcFind/Code/Class.LcFindClient.cs:159-170 | both client parsers read a FIND reply back into the host's names and configuration; the test client's parser also recovers the address; the status reads back |
| Interop.DiscoveryRoundTrip | LightConversion.Protocols.LcFind/Code/Class.LcFindClient.cs:85 | the client's discovery request is a FIND request; the host answers it exactly when it can read its configuration, and the answer describes the host |
| Interop.ConfReplyReadBack | LightConversion.Protocols.LcFind/Code/Class.LcFindHost/PrivateStuff/Function.BuildConfReqResponseString.cs:8-36 | a CONF reply reads back the host's hardware address, its status (which `FromName` recovers) and the result text |
| Interop.StaticRequestParts | LightConversion.Protocols.LcFind/Code/Class.LcFindClient.cs:133 | without its NUL, the static request is six `;`-separated pairs |
| Interop.StaticRequestParsed | LightConversion.Protocols.LcFind/Code/Class.LcFindClient.cs:133 | the host's parser reads the client's static request back into static mode, the three parsed addresses and the hardware address, with "Ok" |
| Interop.StaticRequestHandled | LightConversion.Protocols.LcFind/Code/Class.LcFindHost/PrivateStuff/Function.ProcessMessage.cs:39-70 | the addressed host records the static request when the filter passes its address, and otherwise answers at once with "Cannot use this IP address" |
| Interop.DhcpRequestParsed | LightConversion.Protocols.LcFind/Code/Class.LcFindClient.cs:150 | the DHCP request parses as DHCP mode and the hardware address, with the address left at `IPAddress.None` |
| Interop.DhcpRequestRejected | LightConversion.Protocols.LcFind/Code/Class.LcFindClient.cs:142-157 | the addressed host always answers the client's DHCP request with "Cannot use this IP address" and changes nothing |
| Interop.NotARequest | LightConversion.Protocols.LcFind/Code/Class.LcFindHost/PrivateStuff/Function.ProcessMessage.cs:13-39 | a message whose fifth character is '=' matches neither header and is ignored |
| Interop.FindReplyIgnored | LightConversion.Protocols.LcFind/Code/Class.LcFindHost/PrivateStuff/Function.BuildFindReqResponseString.cs:11 | a FIND reply from any host is ignored by every host |
| Interop.ConfReplyIgnored | LightConversion.Protocols.LcFind/Code/Class.LcFindHost/PrivateStuff/Function.BuildConfReqResponseString.cs:12 | a CONF reply from any host is ignored by every host |

## Left out

- Sockets, the UDP listener loop, `Initialize`, `Dispose`, threads, `Task.Delay`, cancellation and logging. The model starts where a received message reaches `ProcessMessage` and ends where a reply text is handed to `SendResponse`.
- The partial-class `SendResponse` is not modelled as an operation. Its choice of unicast or broadcast is socket handling; the text it sends is `ProcessMessage`'s or `Tick`'s reply.
- `Initialize` reads the hardware address from the get delegate. The model takes it as a constructor argument.
- `SerialNumber` and `DeviceName` default to `Unknown-<Guid>`. The model takes them as constructor arguments, because a fresh GUID is randomness.
- The setters of `SerialNumber`, `DeviceName`, `ConfirmationTimeout`, `CooldownTimeout` and `IsConfirmationEnabled` are plain field writes. They are not methods of the host classes; they appear only as events of `HostProperties.Run`.
- `_confirmationCounter` and `ConfirmationTimeout` are never read by the modelled logic.
- `RemoteEndpoint` is a placeholder for whatever address `SendResponse` is given. Which address that is (the sender of the message for a `ProcessMessage` reply; `_remoteEndpoint`, the sender of the last datagram received, for the reply `Tick` sends) is not modelled, because the listener's datagrams are not part of the model.
- Host.LcFindHost.ProcessMessage, LegacyHost.LcFindHost.ProcessMessage, Client.GetParameterFromSeggerString, Client.FirstMatchDecides, DeviceFinder.GetParameterFromSeggerString: `StartsWith(string)` compares with the current culture, which ignores zero-weight characters such as NUL; the model's header tests in both hosts and the parameter lookups of the client library and of `DeviceFinder` are ordinal prefix tests, so a message such as `FINDReq=1\0;` matches in the code and not in the model.
- NetConfig.ParseField: `IPAddress.TryParse` also accepts IPv6 text and yields 16 bytes, of which the filter inspects only the first four, so an IPv6 address can be accepted and stored. `IpParser` yields IPv4 addresses only, so the model does not capture this.
- NetConfig.TryFromResponseString: the source throws on the empty string, at its `Substring` call. The model requires a non-empty string instead, and the exception is not modelled; the host only calls it on messages that start with the CONF header.
- The single-file host's `SetNewConfiguration` is not modelled, because no code calls it.
- `DateTime` becomes whole seconds, and `now` is a parameter. Clock resolution and time zones are not modelled.
- `IPAddress.TryParse` is the parameter `parseIp`. Which texts it accepts (for example shorthand forms such as `10.1`) is not modelled.
- `IPAddress.ToString` is modelled as dotted decimal for IPv4 only.
- The set and get delegates are parameters: `setOk` and `actualConfig`.
- NetConfig.ParseField: when `IPAddress.TryParse` fails it writes null into its out field, but the model keeps the earlier address. The result is reported as failed in both cases, and no caller reads the record of a failed parse.
- NetConfig.LastWrittenWins: for the three address keys this holds in the code only when no later part with the key is malformed, since such a part clears the field there (see the line above); the parse has then failed, so no caller reads the field.
- Text.Lower: `ToLower` is culture-dependent; the model lowers ASCII letters only.
- UTF-8 decoding of datagrams is not modelled; messages are character sequences.
- The client's ping, the one-second wait and the receive buffer become the list of datagrams that arrived, each with its ping outcome.
- `GetAllLocalIpAddresses` (interface enumeration) becomes the list of interfaces passed to the scan.
- The client's `ReconfigureDeviceWithStaticIp` and `ReconfigureDeviceWithDhcp` only send a datagram. They are modelled by the texts they send, `Client.ConfRequestStatic` and `Client.ConfRequestDhcp`.
- A null string property of `DeviceDescription` is the empty string in the model. The description is a value, and the entry's later reachability update is applied to the list element.
- Concurrency between the listener task and the tick task is not modelled: each operation is atomic.
