/** How the two sides of the protocol fit together: what the client reads out
    of the host's replies, what the host's parser makes of the client's
    requests, and what it makes of the host's own replies. */
module Interop {

  import opened Wrappers
  import opened Text
  import opened Ipv4
  import opened LcStatus
  import opened NetConfig
  import opened Wire
  import opened Host
  import HostProperties
  import Client
  import DeviceFinder

  // ---------------------------------------------------------------------
  // Reading a reply's fields back

  /** A value the client reads back unchanged: no ';' inside, and nothing
      at either end that its `Trim` would remove. */
  predicate Clean(value: string)
  {
    ';' !in value
    && (|value| == 0 || (value[0] !in Client.TrimmedChars && value[|value| - 1] !in Client.TrimmedChars))
  }

  /** Two keys differ in their first or second character, so `a=` is never
      a prefix of a part that starts with `b=`. */
  predicate KeysApart(a: string, b: string)
  {
    |a| >= 2 && |b| >= 2 && (a[0] != b[0] || a[1] != b[1])
  }

  lemma KeysApartNotPrefix(a: string, b: string, x: string, y: string)
    requires KeysApart(a, b)
    ensures !(a + x <= b + y)
  {
    assert (a + x)[0] == a[0] && (a + x)[1] == a[1];
    assert (b + y)[0] == b[0] && (b + y)[1] == b[1];
  }

  /** The shape of one entry between separators. */
  lemma EntryShape(pair: (string, string))
    ensures Entry(pair) == pair.0 + ("=" + pair.1)
    ensures pair.0 + "=" <= Entry(pair)
    ensures Entry(pair)[|pair.0| + 1..] == pair.1
  {
  }

  /** In text made of `Key=Value;` fields and a tail, the client finds the
      value of a key that no earlier key could be mistaken for. */
  lemma ReadField(pairs: seq<(string, string)>, tail: string, k: nat)
    requires NoSemicolons(pairs) && k < |pairs|
    requires forall j :: 0 <= j < k ==> KeysApart(pairs[k].0, pairs[j].0)
    requires Clean(pairs[k].1)
    ensures Client.Parameter(Concat(Fields(pairs) + [tail]), pairs[k].0) == pairs[k].1
  {
    SplitFields(pairs, tail);
    var parts := Entries(pairs) + Split(tail, ';');
    var name := pairs[k].0;
    forall j | 0 <= j < k ensures !(name + "=" <= parts[j]) {
      assert parts[j] == Entry(pairs[j]);
      EntryShape(pairs[j]);
      KeysApartNotPrefix(name, pairs[j].0, "=", "=" + pairs[j].1);
    }
    assert parts[k] == Entry(pairs[k]);
    EntryShape(pairs[k]);
    Client.FirstMatchDecides(parts, name, k);
    TrimUntouched(pairs[k].1, Client.TrimmedChars);
  }

  lemma FormatIpClean(a: Ip4)
    ensures Clean(FormatIp(a))
  {
    var r := FormatIp(a);
    assert IsDigit(r[0]) && IsDigit(r[|r| - 1]);
    assert forall i :: 0 <= i < |r| ==> r[i] != ';' by {
      forall i | 0 <= i < |r| ensures r[i] != ';' {
        assert r[i] == '.' || IsDigit(r[i]);
      }
    }
  }

  lemma NameClean(s: Status)
    ensures Clean(Name(s))
  {
  }

  const FindKeys: seq<string> := ["FIND", "IP", "HWADDR", "DeviceName", "SN", "Status", "NetworkMode", "Mask", "Gateway"]

  /** Each key of a FIND reply differs early from every key before it. */
  lemma FindKeysDistinguishable()
    ensures forall k, j :: 0 <= j < k < |FindKeys| ==> KeysApart(FindKeys[k], FindKeys[j])
  {
  }

  /** The keys of a FIND reply, in order. */
  lemma FindKeysInOrder(st: HostState, cfg: NetworkConfiguration)
    ensures |FindPairs(st, cfg)| == |FindKeys|
    ensures forall i :: 0 <= i < |FindKeys| ==> FindPairs(st, cfg)[i].0 == FindKeys[i]
  {
  }

  /** With clean host-side names every value of a FIND reply is clean. */
  lemma FindValuesClean(st: HostState, cfg: NetworkConfiguration)
    requires Clean(cfg.MacAddress) && Clean(st.DeviceName) && Clean(st.SerialNumber)
    ensures forall i :: 0 <= i < |FindPairs(st, cfg)| ==> Clean(FindPairs(st, cfg)[i].1)
  {
    FormatIpClean(cfg.IpAddress);
    FormatIpClean(cfg.SubnetMask);
    FormatIpClean(cfg.GatewayAddress);
    NameClean(st.ActualStatus);
  }

  /** Every field of a FIND reply but the first reads back as the value
      written, given host-side names without ';' or trimmed characters at
      their ends. */
  lemma FindFieldReadBack(st: HostState, cfg: NetworkConfiguration, k: nat)
    requires Clean(cfg.MacAddress) && Clean(st.DeviceName) && Clean(st.SerialNumber)
    requires 1 <= k < |FindKeys|
    ensures Client.Parameter(BuildFindReqResponseString(st, cfg), FindKeys[k]) == FindPairs(st, cfg)[k].1
  {
    var pairs := FindPairs(st, cfg);
    FindKeysInOrder(st, cfg);
    FindValuesClean(st, cfg);
    FindKeysDistinguishable();
    assert NoSemicolons(pairs) by {
      forall i | 0 <= i < |pairs| ensures ';' !in pairs[i].0 && ';' !in pairs[i].1 {
        assert Clean(pairs[i].1);
        assert pairs[i].0 == FindKeys[i];
      }
    }
    forall j | 0 <= j < k ensures KeysApart(pairs[k].0, pairs[j].0) {
      assert pairs[k].0 == FindKeys[k] && pairs[j].0 == FindKeys[j];
    }
    ReadField(pairs, [Nul], k);
  }

  /** The description the client library makes of a FIND reply: the
      host's names and the configuration's fields, but no address. */
  function Described(st: HostState, cfg: NetworkConfiguration): Client.DeviceDescription
  {
    Client.Blank.(SerialNumber := st.SerialNumber,
                  MacAddress := cfg.MacAddress,
                  DeviceName := st.DeviceName,
                  NetworkMode := if cfg.IsDhcpEnabled then "DHCP" else "Static",
                  SubnetMask := FormatIp(cfg.SubnetMask),
                  GatewayAddress := FormatIp(cfg.GatewayAddress))
  }

  /** Both client parsers read a FIND reply back into the fields it was
      built from; the test client's also recovers the address. */
  lemma FindReplyDescribed(st: HostState, cfg: NetworkConfiguration)
    requires Clean(cfg.MacAddress) && Clean(st.DeviceName) && Clean(st.SerialNumber)
    ensures Client.Describe(BuildFindReqResponseString(st, cfg)) == Described(st, cfg)
    ensures DeviceFinder.DescribeWithIp(BuildFindReqResponseString(st, cfg))
         == Described(st, cfg).(IpAddress := FormatIp(cfg.IpAddress))
    ensures Client.Parameter(BuildFindReqResponseString(st, cfg), "Status") == Name(st.ActualStatus)
  {
    FindFieldReadBack(st, cfg, 1);
    FindFieldReadBack(st, cfg, 2);
    FindFieldReadBack(st, cfg, 3);
    FindFieldReadBack(st, cfg, 4);
    FindFieldReadBack(st, cfg, 5);
    FindFieldReadBack(st, cfg, 6);
    FindFieldReadBack(st, cfg, 7);
    FindFieldReadBack(st, cfg, 8);
  }

  /** The client's discovery request is a FIND request to the host, which
      answers it with the serialiser's text exactly when it can read its
      configuration; that answer reads back as the host's description. */
  lemma DiscoveryRoundTrip(st: HostState, actualConfig: Option<NetworkConfiguration>, parseIp: IpParser)
    ensures FindPrefix <= Client.FindRequest
    ensures actualConfig.None? ==> ProcessSpec(st, Client.FindRequest, actualConfig, parseIp) == ProcessOutcome(st, false, "")
    ensures actualConfig.Some? ==>
      ProcessSpec(st, Client.FindRequest, actualConfig, parseIp)
        == ProcessOutcome(st, true, BuildFindReqResponseString(st, actualConfig.value))
    ensures actualConfig.Some? && Clean(actualConfig.value.MacAddress) && Clean(st.DeviceName) && Clean(st.SerialNumber)
      ==> Client.Describe(ProcessSpec(st, Client.FindRequest, actualConfig, parseIp).response) == Described(st, actualConfig.value)
  {
    assert Client.FindRequest == FindPrefix + [Nul];
    HostProperties.HeadersExclusive(st, Client.FindRequest);
    if actualConfig.Some? {
      HostProperties.FindAnswered(st, Client.FindRequest, actualConfig, parseIp);
      if Clean(actualConfig.value.MacAddress) && Clean(st.DeviceName) && Clean(st.SerialNumber) {
        FindReplyDescribed(st, actualConfig.value);
      }
    }
  }

  const ConfKeys: seq<string> := ["CONF", "HWADDR", "Status", "Result"]

  /** A CONF reply starts with the keys `ConfKeys`. */
  lemma ConfKeysInOrder(st: HostState, requestResult: string, actualConfig: Option<NetworkConfiguration>)
    ensures |ConfPairs(st, requestResult, actualConfig)| >= |ConfKeys|
    ensures forall i :: 0 <= i < |ConfKeys| ==> ConfPairs(st, requestResult, actualConfig)[i].0 == ConfKeys[i]
  {
  }

  /** No key or value of a CONF reply holds a ';' when the host's address
      and the result text hold none. */
  lemma ConfPairsSeparated(st: HostState, requestResult: string, actualConfig: Option<NetworkConfiguration>)
    requires ';' !in st.hwAddress && ';' !in requestResult
    ensures NoSemicolons(ConfPairs(st, requestResult, actualConfig))
  {
    NameClean(st.ActualStatus);
    if actualConfig.Some? {
      FormatIpClean(actualConfig.value.IpAddress);
      FormatIpClean(actualConfig.value.SubnetMask);
      FormatIpClean(actualConfig.value.GatewayAddress);
    }
  }

  /** Each of the fields after the first of a CONF reply's fixed head reads
      back as the value written. */
  lemma ConfFieldReadBack(st: HostState, requestResult: string, actualConfig: Option<NetworkConfiguration>, k: nat)
    requires Clean(st.hwAddress) && Clean(requestResult)
    requires 1 <= k < |ConfKeys|
    ensures Client.Parameter(BuildConfReqResponseString(st, requestResult, actualConfig), ConfKeys[k])
      == ConfPairs(st, requestResult, actualConfig)[k].1
  {
    var pairs := ConfPairs(st, requestResult, actualConfig);
    ConfKeysInOrder(st, requestResult, actualConfig);
    ConfPairsSeparated(st, requestResult, actualConfig);
    NameClean(st.ActualStatus);
    forall j | 0 <= j < k ensures KeysApart(pairs[k].0, pairs[j].0) {
      assert pairs[k].0 == ConfKeys[k] && pairs[j].0 == ConfKeys[j];
    }
    ReadField(pairs, [Nul], k);
  }

  /** A CONF reply reads back the host's address, its status at the time
      and the result text, so `FromName` recovers the status. */
  lemma ConfReplyReadBack(st: HostState, requestResult: string, actualConfig: Option<NetworkConfiguration>)
    requires Clean(st.hwAddress) && Clean(requestResult)
    ensures var reply := BuildConfReqResponseString(st, requestResult, actualConfig);
      && Client.Parameter(reply, "HWADDR") == st.hwAddress
      && Client.Parameter(reply, "Status") == Name(st.ActualStatus)
      && FromName(Client.Parameter(reply, "Status")) == Some(st.ActualStatus)
      && Client.Parameter(reply, "Result") == requestResult
  {
    ConfFieldReadBack(st, requestResult, actualConfig, 1);
    ConfFieldReadBack(st, requestResult, actualConfig, 2);
    ConfFieldReadBack(st, requestResult, actualConfig, 3);
    NameRoundTrip(st.ActualStatus);
  }

  // ---------------------------------------------------------------------
  // The client's requests, as the host parses them

  lemma {:induction false} JoinSnoc(parts: seq<string>, a: string, sep: char)
    requires |parts| >= 1
    ensures Join(parts + [a], sep) == Join(parts, sep) + [sep] + a
    decreases |parts|
  {
    if |parts| == 1 {
      assert (parts + [a])[1..] == [a];
    } else {
      assert (parts + [a])[1..] == parts[1..] + [a];
      JoinSnoc(parts[1..], a, sep);
    }
  }

  /** Text after a last separator is the last piece. */
  lemma SplitSnoc(t: string, a: string)
    requires ';' !in a
    ensures Split(t + [';'] + a, ';') == Split(t, ';') + [a]
  {
    var ps := Split(t, ';');
    JoinSnoc(ps, a, ';');
    SplitJoin(ps + [a], ';');
  }

  /** `key=value` with no other '=' is a pair with that key and value. */
  lemma PairShape(key: string, value: string)
    requires '=' !in key && '=' !in value
    ensures IsKeyValuePair(key + "=" + value)
    ensures KeyOf(key + "=" + value) == Lower(key)
    ensures ValueOf(key + "=" + value) == value
  {
    SplitAtFirst(key, '=', value);
    SplitNoSeparator(value, '=');
  }

  lemma ApplyPartsSnoc(o: ParseOutcome, ps: seq<string>, p: string, parseIp: IpParser)
    requires AllKeyValuePairs(ps) && IsKeyValuePair(p)
    ensures AllKeyValuePairs(ps + [p])
    ensures ApplyParts(o, ps + [p], parseIp) == ApplyPart(ApplyParts(o, ps, parseIp), p, parseIp)
  {
    assert (ps + [p])[..|ps|] == ps;
  }

  /** A text ending in one NUL, with no NUL just before it, loses exactly
      that NUL to `TrimEnd`. */
  lemma TrimOneNul(body: string)
    requires |body| >= 1 && body[|body| - 1] != Nul
    ensures TrimEnd(body + [Nul], {Nul}) == body
  {
    assert (body + [Nul])[|body| - 1] !in {Nul};
  }

  /** No ';', '=' or NUL: a value the request texts carry intact. */
  predicate Plain(value: string)
  {
    ';' !in value && '=' !in value && Nul !in value
  }

  lemma Regroup(x: string, piece: string, key: string, value: string)
    requires piece == [';'] + key
    ensures (x + piece) + value == x + [';'] + (key + value)
  {
  }

  lemma Regroup2(x: string, piece: string, key1: string, key2: string, value: string)
    requires piece == [';'] + key1 + [';'] + key2
    ensures (x + piece) + value == (x + [';'] + key1) + [';'] + (key2 + value)
  {
    assert piece + value == [';'] + key1 + [';'] + (key2 + value);
  }

  /** Appending `;key` and then a value adds the piece `key` + value. */
  lemma SplitAfter(x: string, piece: string, key: string, value: string)
    requires piece == [';'] + key && ';' !in key + value
    ensures Split((x + piece) + value, ';') == Split(x, ';') + [key + value]
  {
    Regroup(x, piece, key, value);
    SplitSnoc(x, key + value);
  }

  /** Appending `;key1;key2` and then a value adds two pieces. */
  lemma SplitAfter2(x: string, piece: string, key1: string, key2: string, value: string)
    requires piece == [';'] + key1 + [';'] + key2 && ';' !in key1 && ';' !in key2 + value
    ensures Split((x + piece) + value, ';') == Split(x, ';') + [key1, key2 + value]
  {
    Regroup2(x, piece, key1, key2, value);
    SplitSnoc(x, key1);
    SplitSnoc(x + [';'] + key1, key2 + value);
  }

  /** The first three pairs of the static request. */
  function StaticHead(mac: string): seq<string>
  {
    ["CONFReq=1", "HWADDR=" + mac, "NetworkMode=Static"]
  }

  /** Splitting the text up to the last value of the static request. */
  lemma StaticRequestSplit(mac: string, ip: string, mask: string, gateway: string)
    requires Plain(mac) && Plain(ip) && Plain(mask) && Plain(gateway)
    ensures Split("CONFReq=1;HWADDR=" + mac + ";NetworkMode=Static;IP=" + ip + ";Mask=" + mask + ";Gateway=" + gateway, ';')
      == StaticHead(mac) + ["IP=" + ip, "Mask=" + mask, "Gateway=" + gateway]
  {
    var s0 := "CONFReq=1;HWADDR=" + mac;
    var s1 := s0 + ";NetworkMode=Static;IP=" + ip;
    var s2 := s1 + ";Mask=" + mask;
    RequestHead(mac);
    SplitAfter2(s0, ";NetworkMode=Static;IP=", "NetworkMode=Static", "IP=", ip);
    SplitAfter(s1, ";Mask=", "Mask=", mask);
    SplitAfter(s2, ";Gateway=", "Gateway=", gateway);
  }

  lemma SplitTwo(head: string, piece: string, key: string, value: string)
    requires piece == [';'] + key && ';' !in head && ';' !in key + value
    ensures Split((head + piece) + value, ';') == [head, key + value]
  {
    SplitNoSeparator(head, ';');
    SplitAfter(head, piece, key, value);
  }

  /** Both requests start with the same two pieces. */
  lemma RequestHead(mac: string)
    requires ';' !in mac
    ensures Split("CONFReq=1;HWADDR=" + mac, ';') == ["CONFReq=1", "HWADDR=" + mac]
  {
    assert "CONFReq=1;HWADDR=" == "CONFReq=1" + ";HWADDR=";
    SplitTwo("CONFReq=1", ";HWADDR=", "HWADDR=", mac);
  }

  /** The static request, without its NUL, is six ';'-separated pairs. */
  lemma StaticRequestParts(mac: string, ip: string, mask: string, gateway: string)
    requires Plain(mac) && Plain(ip) && Plain(mask) && Plain(gateway)
    ensures |Client.ConfRequestStatic(mac, ip, mask, gateway)| >= 1
    ensures Split(TrimEnd(Client.ConfRequestStatic(mac, ip, mask, gateway), {Nul}), ';')
      == StaticHead(mac) + ["IP=" + ip, "Mask=" + mask, "Gateway=" + gateway]
  {
    var body := "CONFReq=1;HWADDR=" + mac + ";NetworkMode=Static;IP=" + ip + ";Mask=" + mask + ";Gateway=" + gateway;
    assert body[|body| - 1] != Nul by {
      if gateway == [] {
        assert body[|body| - 1] == '=';
      } else {
        assert body[|body| - 1] == gateway[|gateway| - 1];
      }
    }
    TrimOneNul(body);
    StaticRequestSplit(mac, ip, mask, gateway);
  }

  /** `Lower` works character by character. */
  lemma LowerIs(s: string, t: string)
    requires |s| == |t|
    requires forall i :: 0 <= i < |s| ==> LowerChar(s[i]) == t[i]
    ensures Lower(s) == t
  {
  }

  /** A `key=value` pair whose key lower-cases to `lk`. */
  lemma NamedPair(key: string, value: string, lk: string)
    requires '=' !in key && '=' !in value
    requires |key| == |lk| && forall i :: 0 <= i < |key| ==> LowerChar(key[i]) == lk[i]
    ensures IsKeyValuePair(key + "=" + value)
    ensures KeyOf(key + "=" + value) == lk
    ensures ValueOf(key + "=" + value) == value
  {
    PairShape(key, value);
    LowerIs(key, lk);
  }

  /** What one request pair does to the outcome, per key. */
  lemma ApplyHeader(o: ParseOutcome, parseIp: IpParser)
    ensures IsKeyValuePair("CONFReq=1") && ApplyPart(o, "CONFReq=1", parseIp) == o
  {
    assert "CONFReq=1" == "CONFReq" + "=" + "1";
    NamedPair("CONFReq", "1", "confreq");
  }

  lemma ApplyHwAddr(o: ParseOutcome, mac: string, parseIp: IpParser)
    requires '=' !in mac
    ensures IsKeyValuePair("HWADDR=" + mac)
    ensures ApplyPart(o, "HWADDR=" + mac, parseIp) == o.(config := o.config.(MacAddress := mac))
  {
    assert "HWADDR=" == "HWADDR" + "=";
    NamedPair("HWADDR", mac, "hwaddr");
  }

  lemma ApplyMode(o: ParseOutcome, mode: string, dhcp: bool, parseIp: IpParser)
    requires mode == (if dhcp then "DHCP" else "Static")
    ensures IsKeyValuePair("NetworkMode=" + mode)
    ensures ApplyPart(o, "NetworkMode=" + mode, parseIp) == o.(config := o.config.(IsDhcpEnabled := dhcp))
  {
    assert "NetworkMode=" == "NetworkMode" + "=";
    NamedPair("NetworkMode", mode, "networkmode");
    LowerIs(mode, if dhcp then "dhcp" else "static");
  }

  lemma ApplyIp(o: ParseOutcome, ip: string, parseIp: IpParser, a: Ip4)
    requires '=' !in ip && parseIp(ip) == Some(a)
    ensures IsKeyValuePair("IP=" + ip)
    ensures ApplyPart(o, "IP=" + ip, parseIp) == o.(config := o.config.(IpAddress := a))
  {
    assert "IP=" == "IP" + "=";
    NamedPair("IP", ip, "ip");
  }

  lemma ApplyMask(o: ParseOutcome, mask: string, parseIp: IpParser, m: Ip4)
    requires '=' !in mask && parseIp(mask) == Some(m) && IsPrefixMask(Bits(m))
    ensures IsKeyValuePair("Mask=" + mask)
    ensures ApplyPart(o, "Mask=" + mask, parseIp) == o.(config := o.config.(SubnetMask := m))
  {
    assert "Mask=" == "Mask" + "=";
    NamedPair("Mask", mask, "mask");
  }

  lemma ApplyGateway(o: ParseOutcome, gateway: string, parseIp: IpParser, g: Ip4)
    requires '=' !in gateway && parseIp(gateway) == Some(g)
    ensures IsKeyValuePair("Gateway=" + gateway)
    ensures ApplyPart(o, "Gateway=" + gateway, parseIp) == o.(config := o.config.(GatewayAddress := g))
  {
    assert "Gateway=" == "Gateway" + "=";
    NamedPair("Gateway", gateway, "gateway");
  }

  /** Applying one more pair whose effect is known. */
  lemma ApplyNext(ps: seq<string>, p: string, o: ParseOutcome, next: ParseOutcome, parseIp: IpParser)
    requires AllKeyValuePairs(ps) && ApplyParts(Start, ps, parseIp) == o
    requires IsKeyValuePair(p) && ApplyPart(o, p, parseIp) == next
    ensures AllKeyValuePairs(ps + [p]) && ApplyParts(Start, ps + [p], parseIp) == next
  {
    ApplyPartsSnoc(Start, ps, p, parseIp);
  }

  /** The same effects, appended to any run of pairs already applied. */
  lemma HeaderStep(parseIp: IpParser)
    ensures AllKeyValuePairs(["CONFReq=1"]) && ApplyParts(Start, ["CONFReq=1"], parseIp) == Start
  {
    ApplyHeader(Start, parseIp);
    ApplyNext([], "CONFReq=1", Start, Start, parseIp);
  }

  lemma HwAddrStep(ps: seq<string>, o: ParseOutcome, mac: string, parseIp: IpParser)
    requires '=' !in mac && AllKeyValuePairs(ps) && ApplyParts(Start, ps, parseIp) == o
    ensures AllKeyValuePairs(ps + ["HWADDR=" + mac])
    ensures ApplyParts(Start, ps + ["HWADDR=" + mac], parseIp) == o.(config := o.config.(MacAddress := mac))
  {
    ApplyHwAddr(o, mac, parseIp);
    ApplyNext(ps, "HWADDR=" + mac, o, o.(config := o.config.(MacAddress := mac)), parseIp);
  }

  lemma ModeStep(ps: seq<string>, o: ParseOutcome, mode: string, dhcp: bool, parseIp: IpParser)
    requires mode == (if dhcp then "DHCP" else "Static")
    requires AllKeyValuePairs(ps) && ApplyParts(Start, ps, parseIp) == o
    ensures AllKeyValuePairs(ps + ["NetworkMode=" + mode])
    ensures ApplyParts(Start, ps + ["NetworkMode=" + mode], parseIp) == o.(config := o.config.(IsDhcpEnabled := dhcp))
  {
    ApplyMode(o, mode, dhcp, parseIp);
    ApplyNext(ps, "NetworkMode=" + mode, o, o.(config := o.config.(IsDhcpEnabled := dhcp)), parseIp);
  }

  lemma IpStep(ps: seq<string>, o: ParseOutcome, ip: string, parseIp: IpParser, a: Ip4)
    requires '=' !in ip && parseIp(ip) == Some(a)
    requires AllKeyValuePairs(ps) && ApplyParts(Start, ps, parseIp) == o
    ensures AllKeyValuePairs(ps + ["IP=" + ip])
    ensures ApplyParts(Start, ps + ["IP=" + ip], parseIp) == o.(config := o.config.(IpAddress := a))
  {
    ApplyIp(o, ip, parseIp, a);
    ApplyNext(ps, "IP=" + ip, o, o.(config := o.config.(IpAddress := a)), parseIp);
  }

  lemma MaskStep(ps: seq<string>, o: ParseOutcome, mask: string, parseIp: IpParser, m: Ip4)
    requires '=' !in mask && parseIp(mask) == Some(m) && IsPrefixMask(Bits(m))
    requires AllKeyValuePairs(ps) && ApplyParts(Start, ps, parseIp) == o
    ensures AllKeyValuePairs(ps + ["Mask=" + mask])
    ensures ApplyParts(Start, ps + ["Mask=" + mask], parseIp) == o.(config := o.config.(SubnetMask := m))
  {
    ApplyMask(o, mask, parseIp, m);
    ApplyNext(ps, "Mask=" + mask, o, o.(config := o.config.(SubnetMask := m)), parseIp);
  }

  lemma GatewayStep(ps: seq<string>, o: ParseOutcome, gateway: string, parseIp: IpParser, g: Ip4)
    requires '=' !in gateway && parseIp(gateway) == Some(g)
    requires AllKeyValuePairs(ps) && ApplyParts(Start, ps, parseIp) == o
    ensures AllKeyValuePairs(ps + ["Gateway=" + gateway])
    ensures ApplyParts(Start, ps + ["Gateway=" + gateway], parseIp) == o.(config := o.config.(GatewayAddress := g))
  {
    ApplyGateway(o, gateway, parseIp, g);
    ApplyNext(ps, "Gateway=" + gateway, o, o.(config := o.config.(GatewayAddress := g)), parseIp);
  }

  /** The first three pairs of either request record the hardware address
      and the mode. */
  lemma RequestHeadApplied(mac: string, mode: string, dhcp: bool, parseIp: IpParser)
    requires '=' !in mac
    requires mode == (if dhcp then "DHCP" else "Static")
    ensures var parts := ["CONFReq=1", "HWADDR=" + mac, "NetworkMode=" + mode];
      && AllKeyValuePairs(parts)
      && ApplyParts(Start, parts, parseIp) == Start.(config := Default.(MacAddress := mac, IsDhcpEnabled := dhcp))
  {
    HeaderStep(parseIp);
    HwAddrStep(["CONFReq=1"], Start, mac, parseIp);
    assert ["CONFReq=1"] + ["HWADDR=" + mac] == ["CONFReq=1", "HWADDR=" + mac];
    ModeStep(["CONFReq=1", "HWADDR=" + mac], Start.(config := Default.(MacAddress := mac)), mode, dhcp, parseIp);
    assert ["CONFReq=1", "HWADDR=" + mac] + ["NetworkMode=" + mode] == ["CONFReq=1", "HWADDR=" + mac, "NetworkMode=" + mode];
  }

  /** The pairs of the static request after the header pairs set the
      three address fields, in any outcome the header left. */
  lemma AddressPairsApplied(head: seq<string>, o: ParseOutcome, ip: string, mask: string, gateway: string, parseIp: IpParser, a: Ip4, m: Ip4, g: Ip4)
    requires '=' !in ip && '=' !in mask && '=' !in gateway
    requires parseIp(ip) == Some(a) && parseIp(mask) == Some(m) && parseIp(gateway) == Some(g)
    requires IsPrefixMask(Bits(m))
    requires AllKeyValuePairs(head) && ApplyParts(Start, head, parseIp) == o
    ensures AllKeyValuePairs(head + ["IP=" + ip, "Mask=" + mask, "Gateway=" + gateway])
    ensures ApplyParts(Start, head + ["IP=" + ip, "Mask=" + mask, "Gateway=" + gateway], parseIp)
      == o.(config := o.config.(IpAddress := a, SubnetMask := m, GatewayAddress := g))
  {
    var o4 := o.(config := o.config.(IpAddress := a));
    var o5 := o4.(config := o4.config.(SubnetMask := m));
    IpStep(head, o, ip, parseIp, a);
    MaskStep(head + ["IP=" + ip], o4, mask, parseIp, m);
    GatewayStep(head + ["IP=" + ip] + ["Mask=" + mask], o5, gateway, parseIp, g);
    assert head + ["IP=" + ip] + ["Mask=" + mask] + ["Gateway=" + gateway] == head + ["IP=" + ip, "Mask=" + mask, "Gateway=" + gateway];
  }

  lemma StaticHeadApplied(mac: string, parseIp: IpParser)
    requires '=' !in mac
    ensures var head := ["CONFReq=1", "HWADDR=" + mac, "NetworkMode=Static"];
      && AllKeyValuePairs(head)
      && ApplyParts(Start, head, parseIp) == Start.(config := Default.(MacAddress := mac, IsDhcpEnabled := false))
  {
    RequestHeadApplied(mac, "Static", false, parseIp);
    assert "NetworkMode=" + "Static" == "NetworkMode=Static";
  }

  /** The pairs of the static request, read left to right, set exactly the
      five fields it carries. */
  lemma StaticPairsApplied(mac: string, ip: string, mask: string, gateway: string, parseIp: IpParser, a: Ip4, m: Ip4, g: Ip4)
    requires Plain(mac) && Plain(ip) && Plain(mask) && Plain(gateway)
    requires parseIp(ip) == Some(a) && parseIp(mask) == Some(m) && parseIp(gateway) == Some(g)
    requires IsPrefixMask(Bits(m))
    ensures var parts := StaticHead(mac) + ["IP=" + ip, "Mask=" + mask, "Gateway=" + gateway];
      && AllKeyValuePairs(parts)
      && ApplyParts(Start, parts, parseIp) == ParseOutcome(true, NetworkConfiguration(false, a, m, g, mac), OkMessage)
  {
    StaticHeadApplied(mac, parseIp);
    AddressPairsApplied(StaticHead(mac), Start.(config := Default.(MacAddress := mac, IsDhcpEnabled := false)), ip, mask, gateway, parseIp, a, m, g);
  }

  /** The host's parser reads the client's static request back into the
      configuration it was built from: static mode, the three parsed
      addresses and the hardware address. */
  lemma StaticRequestParsed(mac: string, ip: string, mask: string, gateway: string, parseIp: IpParser, a: Ip4, m: Ip4, g: Ip4)
    requires Plain(mac) && Plain(ip) && Plain(mask) && Plain(gateway)
    requires parseIp(ip) == Some(a) && parseIp(mask) == Some(m) && parseIp(gateway) == Some(g)
    requires IsPrefixMask(Bits(m))
    ensures |Client.ConfRequestStatic(mac, ip, mask, gateway)| >= 1
    ensures ParseSpec(Client.ConfRequestStatic(mac, ip, mask, gateway), parseIp)
      == ParseOutcome(true, NetworkConfiguration(false, a, m, g, mac), OkMessage)
  {
    var req := Client.ConfRequestStatic(mac, ip, mask, gateway);
    assert req[|req| - 1] == Nul;
    StaticRequestParts(mac, ip, mask, gateway);
    StaticPairsApplied(mac, ip, mask, gateway, parseIp, a, m, g);
  }

  /** `x` followed by anything still starts with `x`. */
  lemma PrefixOfLonger(x: string, y: string, z: string)
    requires x <= y
    ensures x <= y + z
  {
    assert (y + z)[..|x|] == y[..|x|];
  }

  /** The static request starts with the header the host looks for. */
  lemma StaticRequestAddressed(mac: string, ip: string, mask: string, gateway: string)
    ensures ConfPrefix(mac) <= Client.ConfRequestStatic(mac, ip, mask, gateway)
  {
    var x := "CONFReq=1;HWADDR=" + mac;
    assert ConfPrefix(mac) == x + ";";
    assert ";" <= ";NetworkMode=Static;IP=";
    PrefixOfLonger(ConfPrefix(mac), x + ";NetworkMode=Static;IP=", ip + ";Mask=" + mask + ";Gateway=" + gateway + "\0");
  }

  /** A host with reconfiguration on, addressed by its own hardware
      address, takes the client's static request as the configuration to
      apply when the filter lets its address through, and otherwise answers
      at once that it cannot use the address. */
  lemma StaticRequestHandled(st: HostState, mac: string, ip: string, mask: string, gateway: string,
                             actualConfig: Option<NetworkConfiguration>, parseIp: IpParser, a: Ip4, m: Ip4, g: Ip4)
    requires st.IsReconfigurationEnabled && st.hwAddress == mac
    requires Plain(mac) && Plain(ip) && Plain(mask) && Plain(gateway)
    requires parseIp(ip) == Some(a) && parseIp(mask) == Some(m) && parseIp(gateway) == Some(g)
    requires IsPrefixMask(Bits(m))
    ensures var out := ProcessSpec(st, Client.ConfRequestStatic(mac, ip, mask, gateway), actualConfig, parseIp);
      out == if CheckIfNewIpIsValid(a) then
        var target := if st.IsConfirmationEnabled then AwaitingConfirmation else Cooldown;
        ProcessOutcome(st.(configurationToSet := Some(NetworkConfiguration(false, a, m, g, mac)), targetStatus := target), false, "")
      else
        ProcessOutcome(st, true, BuildConfReqResponseString(st, CannotUseIp, actualConfig))
  {
    var req := Client.ConfRequestStatic(mac, ip, mask, gateway);
    StaticRequestParsed(mac, ip, mask, gateway, parseIp, a, m, g);
    StaticRequestAddressed(mac, ip, mask, gateway);
    if CheckIfNewIpIsValid(a) {
      HostProperties.ConfAccepted(st, req, actualConfig, parseIp);
    } else {
      HostProperties.ConfRejected(st, req, actualConfig, parseIp);
    }
  }

  lemma Reassociate(x: string, a: string, b: string, c: string)
    requires c == a + b
    ensures (x + a) + b == x + c
  {
  }

  /** Splitting the DHCP request without its NUL. */
  lemma DhcpRequestSplit(mac: string)
    requires Plain(mac)
    ensures Split("CONFReq=1;HWADDR=" + mac + ";NetworkMode=DHCP", ';') == ["CONFReq=1", "HWADDR=" + mac, "NetworkMode=DHCP"]
  {
    var x := "CONFReq=1;HWADDR=" + mac;
    Reassociate(x, ";NetworkMode=", "DHCP", ";NetworkMode=DHCP");
    RequestHead(mac);
    SplitAfter(x, ";NetworkMode=", "NetworkMode=", "DHCP");
    assert "NetworkMode=" + "DHCP" == "NetworkMode=DHCP";
  }

  /** The DHCP request, without its NUL, is three ';'-separated pairs. */
  lemma DhcpRequestParts(mac: string)
    requires Plain(mac)
    ensures |Client.ConfRequestDhcp(mac)| >= 1
    ensures Client.ConfRequestDhcp(mac)[|Client.ConfRequestDhcp(mac)| - 1] == Nul
    ensures Split(TrimEnd(Client.ConfRequestDhcp(mac), {Nul}), ';') == ["CONFReq=1", "HWADDR=" + mac, "NetworkMode=DHCP"]
  {
    var x := "CONFReq=1;HWADDR=" + mac;
    var body := x + ";NetworkMode=DHCP";
    Reassociate(x, ";NetworkMode=DHCP", [Nul], ";NetworkMode=DHCP\0");
    assert body[|body| - 1] == 'P';
    TrimOneNul(body);
    DhcpRequestSplit(mac);
  }

  /** The host's parser reads the client's DHCP request as DHCP mode with
      the hardware address, and no address at all: the IP field keeps its
      default, the limited broadcast address. */
  lemma DhcpRequestParsed(mac: string, parseIp: IpParser)
    requires Plain(mac)
    ensures |Client.ConfRequestDhcp(mac)| >= 1
    ensures ParseSpec(Client.ConfRequestDhcp(mac), parseIp) == ParseOutcome(true, Default.(MacAddress := mac, IsDhcpEnabled := true), OkMessage)
    ensures Default.IpAddress == NoneAddress
  {
    DhcpRequestParts(mac);
    RequestHeadApplied(mac, "DHCP", true, parseIp);
    assert "NetworkMode=" + "DHCP" == "NetworkMode=DHCP";
  }

  /** The DHCP request starts with the header the host looks for. */
  lemma DhcpRequestAddressed(mac: string)
    ensures ConfPrefix(mac) <= Client.ConfRequestDhcp(mac)
  {
    var x := "CONFReq=1;HWADDR=" + mac;
    assert ConfPrefix(mac) == x + ";";
    assert ";" <= ";NetworkMode=DHCP\0";
    PrefixOfLonger(ConfPrefix(mac), x + ";", "NetworkMode=DHCP\0");
    assert x + ";NetworkMode=DHCP\0" == (x + ";") + "NetworkMode=DHCP\0";
  }

  /** A host never accepts the client's DHCP request: the address it parses
      is the limited broadcast address, which the filter blocks, so the host
      answers at once that it cannot use the address and changes nothing. */
  lemma DhcpRequestRejected(st: HostState, mac: string, actualConfig: Option<NetworkConfiguration>, parseIp: IpParser)
    requires st.IsReconfigurationEnabled && st.hwAddress == mac && Plain(mac)
    ensures ProcessSpec(st, Client.ConfRequestDhcp(mac), actualConfig, parseIp)
      == ProcessOutcome(st, true, BuildConfReqResponseString(st, CannotUseIp, actualConfig))
  {
    var req := Client.ConfRequestDhcp(mac);
    DhcpRequestParsed(mac, parseIp);
    DhcpRequestAddressed(mac);
    assert !CheckIfNewIpIsValid(NoneAddress);
    HostProperties.ConfRejected(st, req, actualConfig, parseIp);
  }

  /** A reply starts with its first piece. */
  lemma ConcatStartsWith(pieces: seq<string>)
    requires |pieces| >= 1
    ensures pieces[0] <= Concat(pieces)
  {
  }

  /** A message whose fifth character is '=' matches neither request
      header, so the host ignores it. */
  lemma NotARequest(st: HostState, msg: string, actualConfig: Option<NetworkConfiguration>, parseIp: IpParser)
    requires |msg| > 4 && msg[4] == '='
    ensures ProcessSpec(st, msg, actualConfig, parseIp) == ProcessOutcome(st, false, "")
  {
    assert !(FindPrefix <= msg) by { assert FindPrefix[4] == 'R'; }
    assert !(ConfPrefix(st.hwAddress) <= msg) by { assert ConfPrefix(st.hwAddress)[4] == 'R'; }
    HostProperties.OthersIgnored(st, msg, actualConfig, parseIp);
  }

  /** Replies go out as broadcasts on the port hosts listen to, and every
      host ignores them: a FIND reply, from any host, starts with `FIND=1;`,
      which neither request header matches, so it gets no answer and
      changes nothing. */
  lemma FindReplyIgnored(st: HostState, sender: HostState, cfg: NetworkConfiguration,
                         actualConfig: Option<NetworkConfiguration>, parseIp: IpParser)
    ensures ProcessSpec(st, BuildFindReqResponseString(sender, cfg), actualConfig, parseIp) == ProcessOutcome(st, false, "")
  {
    var pieces := Fields(FindPairs(sender, cfg)) + [[Nul]];
    ConcatStartsWith(pieces);
    assert pieces[0] == "FIND=1;";
    NotARequest(st, BuildFindReqResponseString(sender, cfg), actualConfig, parseIp);
  }

  /** The same for a CONF reply, which starts with `CONF=1;`. */
  lemma ConfReplyIgnored(st: HostState, sender: HostState, requestResult: string,
                         senderConfig: Option<NetworkConfiguration>, actualConfig: Option<NetworkConfiguration>, parseIp: IpParser)
    ensures ProcessSpec(st, BuildConfReqResponseString(sender, requestResult, senderConfig), actualConfig, parseIp)
      == ProcessOutcome(st, false, "")
  {
    var pieces := Fields(ConfPairs(sender, requestResult, senderConfig)) + [[Nul]];
    ConcatStartsWith(pieces);
    assert pieces[0] == "CONF=1;";
    NotARequest(st, BuildConfReqResponseString(sender, requestResult, senderConfig), actualConfig, parseIp);
  }
}
