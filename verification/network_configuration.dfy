/** Class.NetworkConfiguration.cs: the configuration record and the parser
    `TryFromResponseString` for `key=value;` requests ending in NUL. */
module NetConfig {

  import opened Wrappers
  import opened Text
  import opened Ipv4

  /** The record; the address fields default to `IPAddress.None`. */
  datatype NetworkConfiguration = NetworkConfiguration(
    IsDhcpEnabled: bool,
    IpAddress: Ip4,
    SubnetMask: Ip4,
    GatewayAddress: Ip4,
    MacAddress: string)

  const Default := NetworkConfiguration(false, NoneAddress, NoneAddress, NoneAddress, "")

  /** The parser's return value and its two out-parameters. */
  datatype ParseOutcome = ParseOutcome(isOk: bool, config: NetworkConfiguration, errorMessage: string)

  /** `IPAddress.TryParse`, a library call, taken as a parameter: the address a
      text denotes, if it denotes one. */
  type IpParser = string -> Option<Ip4>

  const Nul: char := '\0'

  const OkMessage := "Ok"
  const NotNulTerminated := "Should be nul-terminated."
  const InvalidPair := "Invalid key-value pair"
  const BadNetworkMode := "Unrecognized network mode setting"
  const BadIp := "Malformed IP address setting"
  const BadMask := "Malformed mask setting"
  const BadGateway := "Malformed gateway address setting"

  /** The outcome before any field is read. */
  const Start := ParseOutcome(true, Default, OkMessage)

  /** `part.Split('=').Length == 2`: exactly one '=' in the part. */
  predicate IsKeyValuePair(part: string)
  {
    |Split(part, '=')| == 2
  }

  predicate AllKeyValuePairs(parts: seq<string>)
  {
    forall i :: 0 <= i < |parts| ==> IsKeyValuePair(parts[i])
  }

  /** The key of a pair, lower-cased as the parser compares it. */
  function KeyOf(part: string): string
    requires IsKeyValuePair(part)
  {
    Lower(Split(part, '=')[0])
  }

  function ValueOf(part: string): string
    requires IsKeyValuePair(part)
  {
    Split(part, '=')[1]
  }

  function Fail(o: ParseOutcome, message: string): ParseOutcome
  {
    o.(isOk := false, errorMessage := message)
  }

  /** The effect of one `key=value` part on the outcome so far. Keys are
      compared lower-cased; unknown keys change nothing. */
  ghost function ApplyPart(o: ParseOutcome, part: string, parseIp: IpParser): ParseOutcome
    requires IsKeyValuePair(part)
  {
    var key, value := KeyOf(part), ValueOf(part);
    if key == "networkmode" then
      if Lower(value) == "dhcp" then o.(config := o.config.(IsDhcpEnabled := true))
      else if Lower(value) == "static" then o.(config := o.config.(IsDhcpEnabled := false))
      else Fail(o, BadNetworkMode)
    else if key == "ip" then
      match parseIp(value)
      case Some(a) => o.(config := o.config.(IpAddress := a))
      case None => Fail(o, BadIp)
    else if key == "mask" then
      match parseIp(value)
      case Some(m) =>
        var withMask := o.(config := o.config.(SubnetMask := m));
        if IsPrefixMask(Bits(m)) then withMask else Fail(withMask, BadMask)
      case None => Fail(o, BadMask)
    else if key == "gateway" then
      match parseIp(value)
      case Some(a) => o.(config := o.config.(GatewayAddress := a))
      case None => Fail(o, BadGateway)
    else if key == "hwaddr" then o.(config := o.config.(MacAddress := value))
    else o
  }

  /** The parts applied left to right. */
  ghost function ApplyParts(o: ParseOutcome, parts: seq<string>, parseIp: IpParser): ParseOutcome
    requires AllKeyValuePairs(parts)
  {
    if parts == [] then o
    else ApplyPart(ApplyParts(o, parts[..|parts| - 1], parseIp), parts[|parts| - 1], parseIp)
  }

  /** What `TryFromResponseString` returns for `s`: the NUL check, then the
      key/value-pair check over the `;`-separated parts of `s` with all its
      trailing NULs removed, then the fields. */
  ghost function ParseSpec(s: string, parseIp: IpParser): ParseOutcome
    requires |s| >= 1
  {
    if s[|s| - 1] != Nul then ParseOutcome(false, Default, NotNulTerminated)
    else
      var parts := Split(TrimEnd(s, {Nul}), ';');
      if !AllKeyValuePairs(parts) then ParseOutcome(false, Default, InvalidPair)
      else ApplyParts(Start, parts, parseIp)
  }

  /** Class.NetworkConfiguration.cs, `TryFromResponseString`. An empty string
      makes the source's `Substring` throw, hence the precondition. */
  method TryFromResponseString(responseString: string, parseIp: IpParser)
    returns (isOk: bool, parsedConfiguration: NetworkConfiguration, errorMessage: string)
    requires |responseString| >= 1
    ensures ParseOutcome(isOk, parsedConfiguration, errorMessage) == ParseSpec(responseString, parseIp)
  {
    isOk := true;
    errorMessage := OkMessage;
    parsedConfiguration := Default;
    var parts: seq<string> := [];
    var s := responseString;

    if s[|s| - 1..] != [Nul] {
      isOk := false;
      errorMessage := NotNulTerminated;
    } else {
      s := TrimEnd(s, {Nul});
    }

    if isOk {
      parts := Split(s, ';');
      isOk := CheckPairs(parts);
      if !isOk {
        errorMessage := InvalidPair;
      }
    }

    if isOk {
      isOk, parsedConfiguration, errorMessage := ParseFields(parts, parseIp);
    }
  }

  /** The first loop of `TryFromResponseString`: every part must split on
      '=' into exactly two pieces. */
  method CheckPairs(parts: seq<string>) returns (isOk: bool)
    ensures isOk <==> AllKeyValuePairs(parts)
  {
    isOk := true;
    for i := 0 to |parts|
      invariant isOk <==> AllKeyValuePairs(parts[..i])
    {
      assert parts[..i + 1] == parts[..i] + [parts[i]];
      if |Split(parts[i], '=')| != 2 {
        isOk := false;
      }
    }
    assert parts[..|parts|] == parts;
  }

  /** The second loop of `TryFromResponseString`: the parts read in order,
      starting from the default record and "Ok". */
  method ParseFields(parts: seq<string>, parseIp: IpParser)
    returns (isOk: bool, parsedConfiguration: NetworkConfiguration, errorMessage: string)
    requires AllKeyValuePairs(parts)
    ensures ParseOutcome(isOk, parsedConfiguration, errorMessage) == ApplyParts(Start, parts, parseIp)
  {
    isOk, parsedConfiguration, errorMessage := true, Default, OkMessage;
    for i := 0 to |parts|
      invariant ParseOutcome(isOk, parsedConfiguration, errorMessage) == ApplyParts(Start, parts[..i], parseIp)
    {
      assert parts[..i + 1][..i] == parts[..i];
      isOk, parsedConfiguration, errorMessage := ParseField(isOk, parsedConfiguration, errorMessage, parts[i], parseIp);
    }
    assert parts[..|parts|] == parts;
  }

  /** The body of the field loop of `TryFromResponseString`: one `key=value`
      part read into the outcome so far. */
  method ParseField(isOk0: bool, config0: NetworkConfiguration, message0: string, part: string, parseIp: IpParser)
    returns (isOk: bool, parsedConfiguration: NetworkConfiguration, errorMessage: string)
    requires IsKeyValuePair(part)
    ensures ParseOutcome(isOk, parsedConfiguration, errorMessage)
      == ApplyPart(ParseOutcome(isOk0, config0, message0), part, parseIp)
  {
    isOk, parsedConfiguration, errorMessage := isOk0, config0, message0;
    var keyValue := Split(part, '=');
    var key := Lower(keyValue[0]);

    if key == "networkmode" {
      if Lower(keyValue[1]) == "dhcp" {
        parsedConfiguration := parsedConfiguration.(IsDhcpEnabled := true);
      } else if Lower(keyValue[1]) == "static" {
        parsedConfiguration := parsedConfiguration.(IsDhcpEnabled := false);
      } else {
        isOk := false;
        errorMessage := BadNetworkMode;
      }
    }

    if key == "ip" {
      match parseIp(keyValue[1])
      case Some(a) =>
        parsedConfiguration := parsedConfiguration.(IpAddress := a);
      case None =>
        isOk := false;
        errorMessage := BadIp;
    }

    if key == "mask" {
      match parseIp(keyValue[1])
      case None =>
        isOk := false;
        errorMessage := BadMask;
      case Some(m) =>
        parsedConfiguration := parsedConfiguration.(SubnetMask := m);
        var contiguous := IsContiguousMask(m);
        if !contiguous {
          isOk := false;
          errorMessage := BadMask;
        }
    }

    if key == "gateway" {
      match parseIp(keyValue[1])
      case Some(a) =>
        parsedConfiguration := parsedConfiguration.(GatewayAddress := a);
      case None =>
        isOk := false;
        errorMessage := BadGateway;
    }

    if key == "hwaddr" {
      parsedConfiguration := parsedConfiguration.(MacAddress := keyValue[1]);
    }
  }

  // ---------------------------------------------------------------------
  // Properties of the parser

  /** Applying a list of parts is applying its two halves one after the other. */
  lemma {:induction false} ApplyPartsAppend(o: ParseOutcome, ps: seq<string>, qs: seq<string>, parseIp: IpParser)
    requires AllKeyValuePairs(ps) && AllKeyValuePairs(qs)
    ensures AllKeyValuePairs(ps + qs)
    ensures ApplyParts(o, ps + qs, parseIp) == ApplyParts(ApplyParts(o, ps, parseIp), qs, parseIp)
    decreases |qs|
  {
    assert AllKeyValuePairs(ps + qs) by {
      forall i | 0 <= i < |ps + qs| ensures IsKeyValuePair((ps + qs)[i]) {
        if i >= |ps| {
          assert (ps + qs)[i] == qs[i - |ps|];
        }
      }
    }
    if qs == [] {
      assert ps + qs == ps;
    } else {
      var qs' := qs[..|qs| - 1];
      assert (ps + qs)[..|ps + qs| - 1] == ps + qs';
      ApplyPartsAppend(o, ps, qs', parseIp);
    }
  }

  /** Once a part has failed the parse stays failed, and the flag is true
      exactly when the message is "Ok". */
  lemma {:induction false} ApplyPartsFailureSticks(o: ParseOutcome, parts: seq<string>, parseIp: IpParser)
    requires AllKeyValuePairs(parts)
    requires o.isOk <==> o.errorMessage == OkMessage
    ensures var r := ApplyParts(o, parts, parseIp);
      (r.isOk <==> r.errorMessage == OkMessage) && (r.isOk ==> o.isOk)
  {
    if parts != [] {
      ApplyPartsFailureSticks(o, parts[..|parts| - 1], parseIp);
      ApplyPartFailureSticks(ApplyParts(o, parts[..|parts| - 1], parseIp), parts[|parts| - 1], parseIp);
    }
  }

  lemma ApplyPartFailureSticks(o: ParseOutcome, part: string, parseIp: IpParser)
    requires IsKeyValuePair(part)
    requires o.isOk <==> o.errorMessage == OkMessage
    ensures var r := ApplyPart(o, part, parseIp);
      (r.isOk <==> r.errorMessage == OkMessage) && (r.isOk ==> o.isOk)
  {}

  /** The parser reports success exactly when its message is "Ok". */
  lemma ParseOkIffMessageOk(s: string, parseIp: IpParser)
    requires |s| >= 1
    ensures ParseSpec(s, parseIp).isOk <==> ParseSpec(s, parseIp).errorMessage == OkMessage
  {
    if s[|s| - 1] == Nul {
      var parts := Split(TrimEnd(s, {Nul}), ';');
      if AllKeyValuePairs(parts) {
        ApplyPartsFailureSticks(Start, parts, parseIp);
      }
    }
  }

  /** A value one of the five recognised keys can set. */
  datatype Setting = Mode(dhcp: bool) | Address(address: Ip4) | Hardware(mac: string)

  /** The lower-cased keys the field loop acts on. */
  const Keys: set<string> := {"networkmode", "ip", "mask", "gateway", "hwaddr"}

  /** The field of the record a recognised key sets. */
  function FieldOf(c: NetworkConfiguration, key: string): (r: Option<Setting>)
    ensures r.Some? <==> key in Keys
  {
    if key == "networkmode" then Some(Mode(c.IsDhcpEnabled))
    else if key == "ip" then Some(Address(c.IpAddress))
    else if key == "mask" then Some(Address(c.SubnetMask))
    else if key == "gateway" then Some(Address(c.GatewayAddress))
    else if key == "hwaddr" then Some(Hardware(c.MacAddress))
    else None
  }

  /** The value a part writes into its key's field, if it writes one: a mode
      that lower-cases to "dhcp" or "static", an address `TryParse` accepts,
      or any hardware address. */
  function Written(part: string, parseIp: IpParser): Option<Setting>
    requires IsKeyValuePair(part)
  {
    var key, value := KeyOf(part), ValueOf(part);
    if key == "networkmode" then
      if Lower(value) == "dhcp" then Some(Mode(true))
      else if Lower(value) == "static" then Some(Mode(false))
      else None
    else if key == "ip" || key == "mask" || key == "gateway" then
      match parseIp(value)
      case Some(a) => Some(Address(a))
      case None => None
    else if key == "hwaddr" then Some(Hardware(value))
    else None
  }

  /** The message a part fails with, if it fails. A mask that parses but is
      not contiguous is written and fails. */
  ghost function FailureOf(part: string, parseIp: IpParser): Option<string>
    requires IsKeyValuePair(part)
  {
    var key, value := KeyOf(part), ValueOf(part);
    if key == "networkmode" then
      if Written(part, parseIp).None? then Some(BadNetworkMode) else None
    else if key == "ip" then
      if parseIp(value).None? then Some(BadIp) else None
    else if key == "mask" then
      match parseIp(value)
      case None => Some(BadMask)
      case Some(m) => if IsPrefixMask(Bits(m)) then None else Some(BadMask)
    else if key == "gateway" then
      if parseIp(value).None? then Some(BadGateway) else None
    else None
  }

  /** One part sets the field of its own key to the value it writes, leaves
      every other field alone, and fails with its failure message; the
      record has no other fields. */
  lemma ApplyPartEffect(o: ParseOutcome, part: string, key: string, parseIp: IpParser)
    requires IsKeyValuePair(part)
    ensures var r := ApplyPart(o, part, parseIp);
      && FieldOf(r.config, key)
         == (if KeyOf(part) == key && Written(part, parseIp).Some? then Written(part, parseIp) else FieldOf(o.config, key))
      && r.isOk == (o.isOk && FailureOf(part, parseIp).None?)
      && r.errorMessage == (if FailureOf(part, parseIp).Some? then FailureOf(part, parseIp).value else o.errorMessage)
  {
    var k, value := KeyOf(part), ValueOf(part);
    if k == "networkmode" {
    } else if k == "ip" || k == "gateway" {
      match parseIp(value)
      case Some(a) =>
      case None =>
    } else if k == "mask" {
      match parseIp(value)
      case Some(m) =>
      case None =>
    }
  }

  /** Parts that write nothing into the field of `key` leave it alone. */
  lemma {:induction false} UnwrittenFieldKept(o: ParseOutcome, qs: seq<string>, key: string, parseIp: IpParser)
    requires AllKeyValuePairs(qs)
    requires forall i :: 0 <= i < |qs| && KeyOf(qs[i]) == key ==> Written(qs[i], parseIp).None?
    ensures FieldOf(ApplyParts(o, qs, parseIp).config, key) == FieldOf(o.config, key)
  {
    if qs != [] {
      UnwrittenFieldKept(o, qs[..|qs| - 1], key, parseIp);
      ApplyPartEffect(ApplyParts(o, qs[..|qs| - 1], parseIp), qs[|qs| - 1], key, parseIp);
    }
  }

  /** When a key occurs more than once, the last part that writes its field
      decides it: earlier parts are overwritten, and later parts with that
      key are malformed and write nothing. */
  lemma LastWrittenWins(o: ParseOutcome, ps: seq<string>, p: string, qs: seq<string>, key: string, parseIp: IpParser)
    requires AllKeyValuePairs(ps) && AllKeyValuePairs(qs) && IsKeyValuePair(p)
    requires KeyOf(p) == key && Written(p, parseIp).Some?
    requires forall i :: 0 <= i < |qs| && KeyOf(qs[i]) == key ==> Written(qs[i], parseIp).None?
    ensures AllKeyValuePairs(ps + [p] + qs)
    ensures FieldOf(ApplyParts(o, ps + [p] + qs, parseIp).config, key) == Written(p, parseIp)
  {
    ApplyPartsAppend(o, ps, [p], parseIp);
    assert (ps + [p])[..|ps + [p]| - 1] == ps;
    ApplyPartEffect(ApplyParts(o, ps, parseIp), p, key, parseIp);
    ApplyPartsAppend(o, ps + [p], qs, parseIp);
    UnwrittenFieldKept(ApplyParts(o, ps + [p], parseIp), qs, key, parseIp);
  }

  /** A request none of whose parts writes the field of `key` leaves it at
      its default, whatever the outcome. */
  lemma AbsentFieldKeepsDefault(s: string, key: string, parseIp: IpParser)
    requires |s| >= 1
    requires forall p :: p in Split(TrimEnd(s, {Nul}), ';') && IsKeyValuePair(p) && KeyOf(p) == key ==> Written(p, parseIp).None?
    ensures FieldOf(ParseSpec(s, parseIp).config, key) == FieldOf(Default, key)
  {
    var parts := Split(TrimEnd(s, {Nul}), ';');
    if s[|s| - 1] == Nul && AllKeyValuePairs(parts) {
      forall i | 0 <= i < |parts| && KeyOf(parts[i]) == key ensures Written(parts[i], parseIp).None? {
        assert parts[i] in parts;
      }
      UnwrittenFieldKept(Start, parts, key, parseIp);
    }
  }

  /** Parts that do not fail leave the flag and the message alone. */
  lemma {:induction false} NoFailureKeepsStatus(o: ParseOutcome, qs: seq<string>, parseIp: IpParser)
    requires AllKeyValuePairs(qs)
    requires forall i :: 0 <= i < |qs| ==> FailureOf(qs[i], parseIp).None?
    ensures ApplyParts(o, qs, parseIp).isOk == o.isOk
    ensures ApplyParts(o, qs, parseIp).errorMessage == o.errorMessage
  {
    if qs != [] {
      NoFailureKeepsStatus(o, qs[..|qs| - 1], parseIp);
      ApplyPartEffect(ApplyParts(o, qs[..|qs| - 1], parseIp), qs[|qs| - 1], "", parseIp);
    }
  }

  /** The loop does not stop at a failure: the message reported is that of
      the last part that fails. */
  lemma LastFailureReported(o: ParseOutcome, parts: seq<string>, k: nat, parseIp: IpParser)
    requires AllKeyValuePairs(parts) && k < |parts|
    requires FailureOf(parts[k], parseIp).Some?
    requires forall j :: k < j < |parts| ==> FailureOf(parts[j], parseIp).None?
    ensures !ApplyParts(o, parts, parseIp).isOk
    ensures ApplyParts(o, parts, parseIp).errorMessage == FailureOf(parts[k], parseIp).value
  {
    var ps, qs := parts[..k + 1], parts[k + 1..];
    assert parts == ps + qs;
    assert ps[..|ps| - 1] == parts[..k];
    ApplyPartEffect(ApplyParts(o, parts[..k], parseIp), parts[k], "", parseIp);
    ApplyPartsAppend(o, ps, qs, parseIp);
    forall i | 0 <= i < |qs| ensures FailureOf(qs[i], parseIp).None? {
      assert qs[i] == parts[k + 1 + i];
    }
    NoFailureKeepsStatus(ApplyParts(o, ps, parseIp), qs, parseIp);
  }

  /** The last piece `Split` yields is the text after the last separator. */
  lemma {:induction false} JoinEndsWithLast(parts: seq<string>, sep: char)
    requires |parts| >= 1
    ensures |parts[|parts| - 1]| <= |Join(parts, sep)|
    ensures Join(parts, sep)[|Join(parts, sep)| - |parts[|parts| - 1]|..] == parts[|parts| - 1]
  {
    if |parts| > 1 {
      JoinEndsWithLast(parts[1..], sep);
    }
  }

  /** A request whose text ends in ';' before its NUL has an empty last part,
      which is not a key/value pair, so it is refused. */
  lemma TrailingSemicolonRejected(body: string, parseIp: IpParser)
    requires |body| >= 1 && body[|body| - 1] == ';'
    ensures ParseSpec(body + [Nul], parseIp) == ParseOutcome(false, Default, InvalidPair)
  {
    var s := body + [Nul];
    var trimmed := TrimEnd(s, {Nul});
    assert trimmed == body by {
      assert s[|body| - 1] !in {Nul};
    }
    var parts := Split(body, ';');
    var last := parts[|parts| - 1];
    JoinEndsWithLast(parts, ';');
    assert last == "";
    assert Split(last, '=') == [""];
    assert !IsKeyValuePair(parts[|parts| - 1]);
  }
}
