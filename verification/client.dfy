/** The client library (Class.LcFindClient.cs): reading a parameter out of a
    reply, turning a FIND reply into a device description, the scan that
    keeps the first reply per serial number, and the request texts. Sockets,
    timing and the ping are replaced by the datagrams a scan received. */
module Client {

  import opened Text

  /** The characters `Trim('\0', ' ', '\r', '\n')` removes at both ends. */
  const TrimmedChars: set<char> := {'\0', ' ', '\r', '\n'}

  /** `LcFindClient.DeviceDescription`; a property never assigned (null in
      the source) is "". */
  datatype DeviceDescription = DeviceDescription(
    SerialNumber: string,
    MacAddress: string,
    DeviceName: string,
    NetworkMode: string,
    IpAddress: string,
    GatewayAddress: string,
    SubnetMask: string,
    IsReachable: bool,
    LookerNetworkInterfaceName: string,
    LookerIpAddress: string)

  const Blank := DeviceDescription("", "", "", "", "", "", "", false, "", "")

  // ---------------------------------------------------------------------
  // GetParameterFromSeggerString

  /** The trimmed text after `name=` in the first of `parts` that starts
      with `name=`, or "" when none does. The match is case-sensitive. */
  function ParameterIn(parts: seq<string>, name: string): string
    decreases |parts|
  {
    if parts == [] then ""
    else if name + "=" <= parts[0] then Trim(parts[0][|name| + 1..], TrimmedChars)
    else ParameterIn(parts[1..], name)
  }

  /** What `GetParameterFromSeggerString` returns. */
  function Parameter(s: string, name: string): string
  {
    ParameterIn(Split(s, ';'), name)
  }

  /** The first part that starts with `name=` decides, whatever follows it. */
  lemma {:induction false} FirstMatchDecides(parts: seq<string>, name: string, k: nat)
    requires k < |parts| && name + "=" <= parts[k]
    requires forall j :: 0 <= j < k ==> !(name + "=" <= parts[j])
    ensures ParameterIn(parts, name) == Trim(parts[k][|name| + 1..], TrimmedChars)
    decreases k
  {
    if k > 0 {
      assert !(name + "=" <= parts[0]);
      FirstMatchDecides(parts[1..], name, k - 1);
    }
  }

  /** A name no part starts with reads as "". */
  lemma {:induction false} NoMatchIsEmpty(parts: seq<string>, name: string)
    requires forall j :: 0 <= j < |parts| ==> !(name + "=" <= parts[j])
    ensures ParameterIn(parts, name) == ""
    decreases |parts|
  {
    if parts != [] {
      assert !(name + "=" <= parts[0]);
      NoMatchIsEmpty(parts[1..], name);
    }
  }

  method GetParameterFromSeggerString(seggerString: string, parameterName: string) returns (r: string)
    ensures r == Parameter(seggerString, parameterName)
  {
    var parts := Split(seggerString, ';');
    for i := 0 to |parts|
      invariant ParameterIn(parts[i..], parameterName) == ParameterIn(parts, parameterName)
    {
      assert parts[i..][1..] == parts[i + 1..];
      if parameterName + "=" <= parts[i] {
        return Trim(parts[i][|parameterName| + 1..], TrimmedChars);
      }
    }
    return "";
  }

  // ---------------------------------------------------------------------
  // ParseDeviceDescriptionFromString

  /** The description a reply yields: six parameters, never the address. */
  function Describe(message: string): DeviceDescription
  {
    Blank.(SerialNumber := Parameter(message, "SN"),
           MacAddress := Parameter(message, "HWADDR"),
           DeviceName := Parameter(message, "DeviceName"),
           NetworkMode := Parameter(message, "NetworkMode"),
           SubnetMask := Parameter(message, "Mask"),
           GatewayAddress := Parameter(message, "Gateway"))
  }

  method ParseDeviceDescriptionFromString(message: string) returns (parseResult: DeviceDescription)
    ensures parseResult == Describe(message)
    ensures parseResult.IpAddress == "" && !parseResult.IsReachable
  {
    parseResult := Blank;
    var sn := GetParameterFromSeggerString(message, "SN");
    parseResult := parseResult.(SerialNumber := sn);
    var mac := GetParameterFromSeggerString(message, "HWADDR");
    parseResult := parseResult.(MacAddress := mac);
    var name := GetParameterFromSeggerString(message, "DeviceName");
    parseResult := parseResult.(DeviceName := name);
    var mode := GetParameterFromSeggerString(message, "NetworkMode");
    parseResult := parseResult.(NetworkMode := mode);
    var mask := GetParameterFromSeggerString(message, "Mask");
    parseResult := parseResult.(SubnetMask := mask);
    var gateway := GetParameterFromSeggerString(message, "Gateway");
    parseResult := parseResult.(GatewayAddress := gateway);
  }

  // ---------------------------------------------------------------------
  // The scan of one interface

  /** A reply as the scan sees it: its text, the sender's address as text,
      and whether pinging the sender succeeded. */
  datatype Datagram = Datagram(message: string, sender: string, pingSucceeds: bool)

  /** The serial number a reply carries. */
  function SerialOf(d: Datagram): string
  {
    Parameter(d.message, "SN")
  }

  /** The entry a kept reply becomes. */
  function Stamp(d: Datagram, networkInterfaceName: string, localAddress: string): DeviceDescription
  {
    Describe(d.message).(IpAddress := d.sender,
                         LookerIpAddress := localAddress,
                         LookerNetworkInterfaceName := networkInterfaceName,
                         IsReachable := d.pingSucceeds)
  }

  /** The entries the replies become, in arrival order. */
  function Stamps(received: seq<Datagram>, networkInterfaceName: string, localAddress: string): (entries: seq<DeviceDescription>)
    ensures |entries| == |received|
    decreases |received|
  {
    if received == [] then []
    else Stamps(received[..|received| - 1], networkInterfaceName, localAddress)
         + [Stamp(received[|received| - 1], networkInterfaceName, localAddress)]
  }

  predicate Listed(list: seq<DeviceDescription>, serial: string)
  {
    exists i :: 0 <= i < |list| && list[i].SerialNumber == serial
  }

  /** The deduplication: an entry is kept when it has a serial number that
      is not listed yet. */
  function Keep(entries: seq<DeviceDescription>): seq<DeviceDescription>
    decreases |entries|
  {
    if entries == [] then []
    else
      var list := Keep(entries[..|entries| - 1]);
      var e := entries[|entries| - 1];
      if e.SerialNumber != "" && !Listed(list, e.SerialNumber) then list + [e] else list
  }

  /** The list one interface's scan returns. */
  function Scan(networkInterfaceName: string, localAddress: string, received: seq<Datagram>): seq<DeviceDescription>
  {
    Keep(Stamps(received, networkInterfaceName, localAddress))
  }

  /** One reply's effect on the list. */
  function Consider(list: seq<DeviceDescription>, e: DeviceDescription): seq<DeviceDescription>
  {
    if e.SerialNumber != "" && !Listed(list, e.SerialNumber) then list + [e] else list
  }

  lemma ScanStep(received: seq<Datagram>, n: nat, networkInterfaceName: string, localAddress: string)
    requires n < |received|
    ensures Keep(Stamps(received[..n + 1], networkInterfaceName, localAddress))
      == Consider(Keep(Stamps(received[..n], networkInterfaceName, localAddress)),
                  Stamp(received[n], networkInterfaceName, localAddress))
  {
    assert received[..n + 1][..n] == received[..n];
    var entries := Stamps(received[..n + 1], networkInterfaceName, localAddress);
    assert entries[..n] == Stamps(received[..n], networkInterfaceName, localAddress);
  }

  /** The body of the receive loop: parse one reply and add it if its
      serial number is new. As in the source, the entry is added first and
      its reachability set afterwards. */
  method ConsiderReply(deviceDescriptions: seq<DeviceDescription>, datagram: Datagram,
                       networkInterfaceName: string, localAddress: string)
    returns (list: seq<DeviceDescription>)
    ensures list == Consider(deviceDescriptions, Stamp(datagram, networkInterfaceName, localAddress))
  {
    list := deviceDescriptions;
    var deviceDescription := ParseDeviceDescriptionFromString(datagram.message);
    if deviceDescription.SerialNumber != "" {
      if !(exists i :: 0 <= i < |list| && list[i].SerialNumber == deviceDescription.SerialNumber) {
        deviceDescription := deviceDescription.(IpAddress := datagram.sender,
                                                LookerIpAddress := localAddress,
                                                LookerNetworkInterfaceName := networkInterfaceName);
        list := list + [deviceDescription];
        if datagram.pingSucceeds {
          var last := |list| - 1;
          list := list[last := list[last].(IsReachable := true)];
        }
        assert list == deviceDescriptions + [deviceDescription.(IsReachable := datagram.pingSucceeds)];
      }
    }
  }

  /** `LookForDevices(networkInterfaceName, localAddress)`: the receive loop
      over the replies that arrived. */
  method LookForDevicesOnInterface(networkInterfaceName: string, localAddress: string, received: seq<Datagram>)
    returns (deviceDescriptions: seq<DeviceDescription>)
    ensures deviceDescriptions == Scan(networkInterfaceName, localAddress, received)
  {
    deviceDescriptions := [];
    var n := 0;
    while n < |received|
      invariant n <= |received|
      invariant deviceDescriptions == Keep(Stamps(received[..n], networkInterfaceName, localAddress))
    {
      ScanStep(received, n, networkInterfaceName, localAddress);
      deviceDescriptions := ConsiderReply(deviceDescriptions, received[n], networkInterfaceName, localAddress);
      n := n + 1;
    }
    assert received[..n] == received;
  }

  /** An entry is a first sighting when it carries a serial number no
      earlier entry carried. */
  predicate FirstSighting(entries: seq<DeviceDescription>, k: nat)
    requires k < |entries|
  {
    entries[k].SerialNumber != "" && forall j :: 0 <= j < k ==> entries[j].SerialNumber != entries[k].SerialNumber
  }

  /** Every kept entry has a serial number, and no two share one. */
  lemma {:induction false} KeepSerialsDistinct(entries: seq<DeviceDescription>)
    ensures forall i :: 0 <= i < |Keep(entries)| ==> Keep(entries)[i].SerialNumber != ""
    ensures forall i, j :: 0 <= i < j < |Keep(entries)| ==> Keep(entries)[i].SerialNumber != Keep(entries)[j].SerialNumber
    decreases |entries|
  {
    if entries != [] {
      var prefix := entries[..|entries| - 1];
      KeepSerialsDistinct(prefix);
      var list := Keep(prefix);
      var e := entries[|entries| - 1];
      if e.SerialNumber != "" && !Listed(list, e.SerialNumber) {
        var r := list + [e];
        forall i, j | 0 <= i < j < |r| ensures r[i].SerialNumber != r[j].SerialNumber {
          assert r[i] == list[i];
          if j == |list| {
            assert !(list[i].SerialNumber == e.SerialNumber);
          } else {
            assert r[j] == list[j];
          }
        }
        assert Keep(entries) == r;
      }
    }
  }

  /** Every serial number that arrived is listed. */
  lemma {:induction false} KeepComplete(entries: seq<DeviceDescription>, k: nat)
    requires k < |entries| && entries[k].SerialNumber != ""
    ensures Listed(Keep(entries), entries[k].SerialNumber)
    decreases |entries|
  {
    var prefix := entries[..|entries| - 1];
    var list := Keep(prefix);
    if k < |entries| - 1 {
      assert prefix[k] == entries[k];
      KeepComplete(prefix, k);
      var i :| 0 <= i < |list| && list[i].SerialNumber == entries[k].SerialNumber;
      assert Keep(entries)[i] == list[i];
    } else if !Listed(list, entries[k].SerialNumber) {
      assert Keep(entries)[|list|].SerialNumber == entries[k].SerialNumber;
    }
  }

  /** Entries are never changed or reordered: the list after some replies is
      a prefix of the list after more. */
  lemma {:induction false} KeepGrowsAtEnd(entries: seq<DeviceDescription>, n: nat)
    requires n <= |entries|
    ensures Keep(entries[..n]) <= Keep(entries)
    decreases |entries|
  {
    if n < |entries| {
      var prefix := entries[..|entries| - 1];
      assert prefix[..n] == entries[..n];
      KeepGrowsAtEnd(prefix, n);
    } else {
      assert entries[..n] == entries;
    }
  }

  /** The first sighting of a serial number is the entry kept for it. */
  lemma {:induction false} FirstSightingKept(entries: seq<DeviceDescription>, k: nat)
    requires k < |entries| && FirstSighting(entries, k)
    ensures entries[k] in Keep(entries)
    decreases |entries|
  {
    var prefix := entries[..|entries| - 1];
    var list := Keep(prefix);
    if k < |entries| - 1 {
      assert prefix[k] == entries[k];
      assert FirstSighting(prefix, k) by {
        forall j | 0 <= j < k ensures prefix[j].SerialNumber != prefix[k].SerialNumber {
          assert prefix[j] == entries[j];
        }
      }
      FirstSightingKept(prefix, k);
    } else {
      forall i | 0 <= i < |list| ensures list[i].SerialNumber != entries[k].SerialNumber {
        KeptCameFirst(prefix, i);
        var j :| 0 <= j < |prefix| && FirstSighting(prefix, j) && list[i] == prefix[j];
        assert entries[j] == prefix[j];
      }
    }
  }

  /** Every kept entry is the first sighting of its serial number. */
  lemma {:induction false} KeptCameFirst(entries: seq<DeviceDescription>, i: nat)
    requires i < |Keep(entries)|
    ensures exists k :: 0 <= k < |entries| && FirstSighting(entries, k) && Keep(entries)[i] == entries[k]
    decreases |entries|
  {
    var prefix := entries[..|entries| - 1];
    var list := Keep(prefix);
    if i < |list| {
      KeptCameFirst(prefix, i);
      var k :| 0 <= k < |prefix| && FirstSighting(prefix, k) && list[i] == prefix[k];
      assert entries[k] == prefix[k];
      assert FirstSighting(entries, k) by {
        forall j | 0 <= j < k ensures entries[j].SerialNumber != entries[k].SerialNumber {
          assert prefix[j] == entries[j];
        }
      }
      assert Keep(entries)[i] == list[i];
    } else {
      var k := |entries| - 1;
      assert FirstSighting(entries, k) by {
        forall j | 0 <= j < k ensures entries[j].SerialNumber != entries[k].SerialNumber {
          assert prefix[j] == entries[j];
          if entries[j].SerialNumber != "" {
            KeepComplete(prefix, j);
          }
        }
      }
      assert Keep(entries)[i] == entries[k];
    }
  }

  /** The entry of a reply carries the reply's serial number and sender. */
  lemma {:induction false} StampsOfReplies(received: seq<Datagram>, networkInterfaceName: string, localAddress: string, k: nat)
    requires k < |received|
    ensures var entries := Stamps(received, networkInterfaceName, localAddress);
      && |entries| == |received|
      && entries[k] == Stamp(received[k], networkInterfaceName, localAddress)
      && entries[k].SerialNumber == SerialOf(received[k])
      && entries[k].IpAddress == received[k].sender
    decreases |received|
  {
    var prefix := received[..|received| - 1];
    if k < |received| - 1 {
      assert prefix[k] == received[k];
      StampsOfReplies(prefix, networkInterfaceName, localAddress, k);
    } else if k > 0 {
      StampsOfReplies(prefix, networkInterfaceName, localAddress, k - 1);
    }
  }

  // ---------------------------------------------------------------------
  // The scan of all interfaces

  /** One usable interface: its name, its IPv4 address as text, and the
      replies its scan received. */
  datatype InterfaceScan = InterfaceScan(networkInterfaceName: string, localAddress: string, received: seq<Datagram>)

  /** The per-interface lists, concatenated in interface order. */
  function AllScans(interfaces: seq<InterfaceScan>): seq<DeviceDescription>
    decreases |interfaces|
  {
    if interfaces == [] then []
    else
      var last := interfaces[|interfaces| - 1];
      AllScans(interfaces[..|interfaces| - 1]) + Scan(last.networkInterfaceName, last.localAddress, last.received)
  }

  /** `LookForDevices()`: one scan per interface, appended with `AddRange`. */
  method LookForDevices(interfaces: seq<InterfaceScan>) returns (deviceDescriptions: seq<DeviceDescription>)
    ensures deviceDescriptions == AllScans(interfaces)
  {
    deviceDescriptions := [];
    for i := 0 to |interfaces|
      invariant deviceDescriptions == AllScans(interfaces[..i])
    {
      assert interfaces[..i + 1][..i] == interfaces[..i];
      var found := LookForDevicesOnInterface(interfaces[i].networkInterfaceName, interfaces[i].localAddress,
                                             interfaces[i].received);
      deviceDescriptions := deviceDescriptions + found;
    }
    assert interfaces[..|interfaces|] == interfaces;
  }

  lemma KeepOfOne(e: DeviceDescription)
    requires e.SerialNumber != ""
    ensures Keep([e]) == [e]
  {
    assert [e][..0] == [];
  }

  lemma StampsOfOne(d: Datagram, networkInterfaceName: string, localAddress: string)
    ensures Stamps([d], networkInterfaceName, localAddress) == [Stamp(d, networkInterfaceName, localAddress)]
  {
    assert [d][..0] == [];
  }

  /** A lone reply with a serial number is kept, stamped. */
  lemma ScanOfOne(d: Datagram, networkInterfaceName: string, localAddress: string)
    requires SerialOf(d) != ""
    ensures Scan(networkInterfaceName, localAddress, [d]) == [Stamp(d, networkInterfaceName, localAddress)]
  {
    StampsOfOne(d, networkInterfaceName, localAddress);
    KeepOfOne(Stamp(d, networkInterfaceName, localAddress));
  }

  /** There is no deduplication across interfaces: a device that answers on
      two interfaces is listed twice, once per interface. */
  lemma SeenTwiceListedTwice(d: Datagram, name1: string, address1: string, name2: string, address2: string)
    requires SerialOf(d) != ""
    ensures var list := AllScans([InterfaceScan(name1, address1, [d]), InterfaceScan(name2, address2, [d])]);
      && |list| == 2
      && list[0].SerialNumber == list[1].SerialNumber == SerialOf(d)
      && list[0].LookerNetworkInterfaceName == name1 && list[1].LookerNetworkInterfaceName == name2
  {
    var i1, i2 := InterfaceScan(name1, address1, [d]), InterfaceScan(name2, address2, [d]);
    ScanOfOne(d, name1, address1);
    ScanOfOne(d, name2, address2);
    assert [i1, i2][..1] == [i1];
    assert [i1][..0] == [];
    assert AllScans([i1]) == [Stamp(d, name1, address1)];
    assert AllScans([i1, i2]) == [Stamp(d, name1, address1), Stamp(d, name2, address2)];
  }

  // ---------------------------------------------------------------------
  // Request texts

  /** The discovery request broadcast by every scan. */
  const FindRequest := "FINDReq=1;\0"

  /** `ReconfigureDeviceWithStaticIp`'s message. */
  function ConfRequestStatic(mac: string, ip: string, mask: string, gateway: string): string
  {
    "CONFReq=1;HWADDR=" + mac + ";NetworkMode=Static;IP=" + ip + ";Mask=" + mask + ";Gateway=" + gateway + "\0"
  }

  /** `ReconfigureDeviceWithDhcp`'s message. */
  function ConfRequestDhcp(mac: string): string
  {
    "CONFReq=1;HWADDR=" + mac + ";NetworkMode=DHCP\0"
  }
}
