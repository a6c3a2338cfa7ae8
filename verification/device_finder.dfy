/** The test client's `DeviceFinder` (ClientTesterApp/Code/Class.DeviceFinder.cs):
    its own copy of the parameter lookup, a description parser that also
    reads the `IP` parameter, and the scan over all interfaces, which runs
    the client library's per-interface scan. */
module DeviceFinder {

  import opened Text
  import Client

  /** `GetParameterFromSeggerString`: a search over the ';'-parts that
      returns at the first part starting with `name=`. */
  method GetParameterFromSeggerString(seggerString: string, parameterName: string) returns (r: string)
    ensures r == Client.Parameter(seggerString, parameterName)
  {
    var parts := Split(seggerString, ';');
    var i := 0;
    while i < |parts|
      invariant i <= |parts|
      invariant forall j :: 0 <= j < i ==> !(parameterName + "=" <= parts[j])
    {
      if parameterName + "=" <= parts[i] {
        Client.FirstMatchDecides(parts, parameterName, i);
        return Trim(parts[i][|parameterName| + 1..], Client.TrimmedChars);
      }
      i := i + 1;
    }
    Client.NoMatchIsEmpty(parts, parameterName);
    return "";
  }

  /** The description this parser yields: the client library's six
      parameters and, in addition, `IP`. */
  function DescribeWithIp(message: string): Client.DeviceDescription
  {
    Client.Blank.(SerialNumber := Client.Parameter(message, "SN"),
                  IpAddress := Client.Parameter(message, "IP"),
                  MacAddress := Client.Parameter(message, "HWADDR"),
                  DeviceName := Client.Parameter(message, "DeviceName"),
                  NetworkMode := Client.Parameter(message, "NetworkMode"),
                  SubnetMask := Client.Parameter(message, "Mask"),
                  GatewayAddress := Client.Parameter(message, "Gateway"))
  }

  /** The two parsers agree on everything but the address, which only this
      one reads. */
  lemma DescribeWithIpExtendsClient(message: string)
    ensures DescribeWithIp(message).(IpAddress := "") == Client.Describe(message)
    ensures DescribeWithIp(message).IpAddress == Client.Parameter(message, "IP")
    ensures !DescribeWithIp(message).IsReachable
  {
  }

  method ParseDeviceDescriptionFromString(message: string) returns (parseResult: Client.DeviceDescription)
    ensures parseResult == DescribeWithIp(message)
  {
    parseResult := Client.Blank;
    var sn := GetParameterFromSeggerString(message, "SN");
    parseResult := parseResult.(SerialNumber := sn);
    var ip := GetParameterFromSeggerString(message, "IP");
    parseResult := parseResult.(IpAddress := ip);
    var mac := GetParameterFromSeggerString(message, "HWADDR");
    parseResult := parseResult.(MacAddress := mac);
    var name := GetParameterFromSeggerString(message, "DeviceName");
    parseResult := parseResult.(DeviceName := name);
    var mode := GetParameterFromSeggerString(message, "NetworkMode");
    parseResult := parseResult.(NetworkMode := mode);
    var mask := GetParameterFromSeggerString(message, "Mask");
    parseResult := parseResult.(SubnetMask := mask);
    var gateway := GetParameterFromSeggerString(message, "Gateway");
    parseResult := parseResult.(GatewayAddress := gateway);
  }

  /** `LookForDevices`: the client library's scan of each usable interface,
      appended in interface order. */
  method LookForDevices(localIpAddresses: seq<Client.InterfaceScan>) returns (deviceDescriptions: seq<Client.DeviceDescription>)
    ensures deviceDescriptions == Client.AllScans(localIpAddresses)
  {
    deviceDescriptions := [];
    var i := 0;
    while i < |localIpAddresses|
      invariant i <= |localIpAddresses|
      invariant deviceDescriptions == Client.AllScans(localIpAddresses[..i])
    {
      var localIpAddress := localIpAddresses[i];
      assert localIpAddresses[..i + 1][..i] == localIpAddresses[..i];
      var found := Client.LookForDevicesOnInterface(localIpAddress.networkInterfaceName,
                                                   localIpAddress.localAddress, localIpAddress.received);
      deviceDescriptions := deviceDescriptions + found;
      i := i + 1;
    }
    assert localIpAddresses[..i] == localIpAddresses;
  }
}
