/**
 * SystemInfoHelper: the address texts shown on the system-information screen.
 * The network interfaces and the Wi-Fi connection are inputs; formatting the
 * hardware address, choosing the interface and address, and rendering the Wi-Fi
 * IPv4 integer are modelled exactly.
 */
module SystemInfoHelper {
  import opened JavaLang
  import opened Ipv4Text

  /** What `InetAddress` contributes here: its raw bytes, the loopback test and its text. */
  datatype InetAddress = InetAddress(raw: seq<Byte>, isLoopback: bool, hostAddress: string)

  /** What `NetworkInterface.getHardwareAddress()` answers: null, the bytes, or a SocketException. */
  datatype HardwareAddress = NullAddress | MacBytes(mac: seq<Byte>) | AddressThrows

  /** A `NetworkInterface`: its name, its hardware address and its addresses. */
  datatype NetworkInterface = NetworkInterface(
    name: string,
    hardwareAddress: HardwareAddress,
    addresses: seq<InetAddress>)

  const Unknown: string := "Unknown"

  // ---------------------------------------------------------------------------
  // Hardware address text
  // ---------------------------------------------------------------------------

  /** `String.format("%02X", b)`. */
  function HexPair(b: Byte): (s: string)
    ensures |s| == 2 && IsUpperHexDigit(s[0]) && IsUpperHexDigit(s[1])
  {
    [HexChar(b / 16), HexChar(b % 16)]
  }

  /** The hardware address as two upper-case hex digits per byte, joined by ':'. */
  function MacText(mac: seq<Byte>): (s: string)
    decreases |mac|
  {
    if mac == [] then ""
    else if |mac| == 1 then HexPair(mac[0])
    else HexPair(mac[0]) + ":" + MacText(mac[1..])
  }

  /** n bytes give 3n - 1 characters; no bytes give the empty text. */
  lemma {:induction false} MacTextLength(mac: seq<Byte>)
    ensures |MacText(mac)| == if mac == [] then 0 else 3 * |mac| - 1
    decreases |mac|
  {
    if |mac| > 1 {
      MacTextLength(mac[1..]);
    }
  }

  /** Byte i is printed at positions 3i and 3i + 1, and a ':' follows every byte but the last. */
  lemma {:induction false} MacTextGroups(mac: seq<Byte>, i: nat)
    requires i < |mac|
    ensures |MacText(mac)| == 3 * |mac| - 1
    ensures MacText(mac)[3 * i..3 * i + 2] == HexPair(mac[i])
    ensures i < |mac| - 1 ==> MacText(mac)[3 * i + 2] == ':'
    decreases |mac|
  {
    MacTextLength(mac);
    if |mac| > 1 {
      var s := MacText(mac);
      var rest := MacText(mac[1..]);
      assert s == HexPair(mac[0]) + ":" + rest;
      if i > 0 {
        MacTextGroups(mac[1..], i - 1);
        assert s[3 * i..3 * i + 2] == rest[3 * (i - 1)..3 * (i - 1) + 2];
        if i < |mac| - 1 {
          assert s[3 * i + 2] == rest[3 * (i - 1) + 2];
        }
      }
    }
  }

  /** Appending a byte appends ":" and its pair (the StringBuilder loop's step). */
  lemma {:induction false} MacTextSnoc(mac: seq<Byte>, b: Byte)
    requires mac != []
    ensures MacText(mac + [b]) == MacText(mac) + ":" + HexPair(b)
    decreases |mac|
  {
    if |mac| > 1 {
      assert (mac + [b])[1..] == mac[1..] + [b];
      MacTextSnoc(mac[1..], b);
    } else {
      assert (mac + [b])[1..] == [b];
    }
  }

  /**
   * The StringBuilder loop of getEthernetMacAddress / getWlanMacAddress: append
   * "%02X:" for every byte, then delete the last character if there is one.
   */
  method FormatMac(mac: seq<Byte>) returns (text: string)
    ensures text == MacText(mac)
  {
    var buf := "";
    for i := 0 to |mac|
      invariant buf == if i == 0 then "" else MacText(mac[..i]) + ":"
    {
      if i > 0 {
        assert mac[..i + 1] == mac[..i] + [mac[i]];
        MacTextSnoc(mac[..i], mac[i]);
      }
      buf := buf + HexPair(mac[i]) + ":";
    }
    if |buf| > 0 {
      buf := buf[..|buf| - 1];
    }
    assert mac[..|mac|] == mac;
    text := buf;
  }

  /** Reads one group back as hexadecimal, as `Integer.parseInt(g, 16)` would for two digits. */
  function ParseHexPair(g: string): (r: Option<Byte>)
  {
    if |g| != 2 then None
    else match (HexValue(g[0]), HexValue(g[1]))
      case (Some(hi), Some(lo)) => Some(16 * hi + lo)
      case _ => None
  }

  function ParseHexGroups(groups: seq<string>): (r: Option<seq<Byte>>)
    ensures r.Some? ==> |r.value| == |groups|
    decreases |groups|
  {
    if groups == [] then Some([])
    else match (ParseHexPair(groups[0]), ParseHexGroups(groups[1..]))
      case (Some(b), Some(bs)) => Some([b] + bs)
      case _ => None
  }

  /** Splits a hardware-address text on ':' and reads every group as a hex byte. */
  function ParseMac(s: string): (r: Option<seq<Byte>>)
  {
    ParseHexGroups(SplitAll(s, ':'))
  }

  /** Splitting the text on ':' and parsing each group gives back the bytes. */
  lemma {:induction false} MacTextRoundTrip(mac: seq<Byte>)
    requires mac != []
    ensures ParseMac(MacText(mac)) == Some(mac)
    decreases |mac|
  {
    var p := HexPair(mac[0]);
    HexValueOfHexChar(mac[0] / 16);
    HexValueOfHexChar(mac[0] % 16);
    assert ParseHexPair(p) == Some(mac[0]);
    if |mac| == 1 {
      SplitAllNoSep(p, ':');
      ParseHexGroupsCons(p, []);
      assert [p] + [] == [p];
      assert mac == [mac[0]] + [];
    } else {
      var rest := MacText(mac[1..]);
      SplitAllCons(p, ':', rest);
      MacTextRoundTrip(mac[1..]);
      ParseHexGroupsCons(p, SplitAll(rest, ':'));
      assert mac == [mac[0]] + mac[1..];
    }
  }

  lemma ParseHexGroupsCons(g: string, groups: seq<string>)
    ensures ParseHexGroups([g] + groups) == match (ParseHexPair(g), ParseHexGroups(groups))
      case (Some(b), Some(bs)) => Some([b] + bs)
      case _ => None
  {
    assert ([g] + groups)[1..] == groups;
  }

  // ---------------------------------------------------------------------------
  // Interface selection
  // ---------------------------------------------------------------------------

  /** The Ethernet test of getEthernetMacAddress and getEthernetIpAddress. */
  predicate IsEthernetName(name: string) {
    name == "eth0" || Contains(name, "eth")
  }

  /** The Wi-Fi test of getWlanMacAddress. */
  predicate IsWlanName(name: string) {
    name == "wlan0"
  }

  /** The first half of the Ethernet test adds nothing: "eth0" contains "eth". */
  lemma EthernetNameMeansContainsEth(name: string)
    ensures IsEthernetName(name) <==> Contains(name, "eth")
  {
    if name == "eth0" {
      assert OccursAt(name, "eth", 0);
    }
  }

  /** "wlan0" is a Wi-Fi name but not an Ethernet one. */
  lemma WlanNameIsNotEthernet()
    ensures IsWlanName("wlan0") && !IsEthernetName("wlan0")
  {
    var s := "wlan0";
    forall i | 0 <= i <= |s| - 3 ensures !OccursAt(s, "eth", i) {
      assert s[i] != 'e';
    }
  }

  datatype Kind = Ethernet | Wlan

  predicate Selects(kind: Kind, name: string) {
    match kind
    case Ethernet => IsEthernetName(name)
    case Wlan => IsWlanName(name)
  }

  /**
   * The interface loop stops at a selected interface whose getHardwareAddress call
   * does not answer null: either it has bytes to print or the call threw.
   */
  predicate EndsMacSearch(kind: Kind, intf: NetworkInterface) {
    Selects(kind, intf.name) && !intf.hardwareAddress.NullAddress?
  }

  /** The position of the interface where the search ends, or -1 when it runs to the end. */
  function FirstSelectedIndex(kind: Kind, ifs: seq<NetworkInterface>): (k: int)
    ensures -1 <= k < |ifs|
    ensures k == -1 <==> forall i :: 0 <= i < |ifs| ==> !EndsMacSearch(kind, ifs[i])
    ensures k >= 0 ==> EndsMacSearch(kind, ifs[k])
    ensures forall j :: 0 <= j < k ==> !EndsMacSearch(kind, ifs[j])
    decreases |ifs|
  {
    if ifs == [] then -1
    else if EndsMacSearch(kind, ifs[0]) then 0
    else
      var k := FirstSelectedIndex(kind, ifs[1..]);
      assert forall i :: 1 <= i < |ifs| ==> ifs[i] == ifs[1..][i - 1];
      if k < 0 then -1 else k + 1
  }

  /**
   * The getHardwareAddress answer the search ends on: NullAddress when no selected
   * interface answers anything but null.
   */
  function FirstSelectedMac(kind: Kind, ifs: seq<NetworkInterface>): (r: HardwareAddress)
    ensures r.NullAddress? <==> forall i :: 0 <= i < |ifs| ==> !EndsMacSearch(kind, ifs[i])
    ensures r.NullAddress? || r == ifs[FirstSelectedIndex(kind, ifs)].hardwareAddress
  {
    var k := FirstSelectedIndex(kind, ifs);
    if k < 0 then NullAddress else ifs[k].hardwareAddress
  }

  /** The text the MAC methods return for the answer the search ended on. */
  function MacSearchText(a: HardwareAddress): (text: string)
  {
    match a
    case MacBytes(mac) => MacText(mac)
    case _ => Unknown
  }

  /**
   * A selected interface whose getHardwareAddress throws ends the search with
   * "Unknown", whatever the interfaces after it hold.
   */
  lemma ThrowingInterfaceHidesLaterOnes(kind: Kind, ifs: seq<NetworkInterface>, i: nat)
    requires i < |ifs| && Selects(kind, ifs[i].name) && ifs[i].hardwareAddress.AddressThrows?
    requires forall j :: 0 <= j < i ==> !EndsMacSearch(kind, ifs[j])
    ensures MacSearchText(FirstSelectedMac(kind, ifs)) == Unknown
  {
    var k := FirstSelectedIndex(kind, ifs);
    assert k == i by {
      assert EndsMacSearch(kind, ifs[i]);
    }
  }

  /**
   * The interface loop shared by getEthernetMacAddress and getWlanMacAddress: the
   * formatted address of the first selected interface whose address is not null;
   * "Unknown" when that call throws (both methods catch it) or no interface answers.
   */
  method FindMacText(kind: Kind, ifs: seq<NetworkInterface>) returns (text: string)
    ensures text == MacSearchText(FirstSelectedMac(kind, ifs))
    ensures text != Unknown ==>
      (exists i :: 0 <= i < |ifs| && Selects(kind, ifs[i].name) &&
         ifs[i].hardwareAddress.MacBytes? && text == MacText(ifs[i].hardwareAddress.mac))
  {
    for i := 0 to |ifs|
      invariant forall j :: 0 <= j < i ==> !EndsMacSearch(kind, ifs[j])
    {
      var intf := ifs[i];
      if Selects(kind, intf.name) {
        match intf.hardwareAddress {
          case MacBytes(mac) =>
            text := FormatMac(mac);
            return;
          case AddressThrows =>
            return Unknown;
          case NullAddress =>
        }
      }
    }
    text := Unknown;
  }

  /**
   * getEthernetMacAddress. `interfaces` is None when listing the interfaces threw
   * SocketException.
   */
  method GetEthernetMacAddress(interfaces: Option<seq<NetworkInterface>>) returns (text: string)
    ensures interfaces.None? ==> text == Unknown
    ensures interfaces.Some? ==> text == MacSearchText(FirstSelectedMac(Ethernet, interfaces.value))
  {
    if interfaces.None? {
      return Unknown;
    }
    text := FindMacText(Ethernet, interfaces.value);
  }

  /**
   * getWlanMacAddress. From Android 10 (`sdkAtLeastQ`) the "wlan0" interface is
   * searched; before it the connection info's own text is returned.
   * `connectionInfoMac` is None when asking the Wi-Fi manager threw.
   */
  method GetWlanMacAddress(
    sdkAtLeastQ: bool,
    interfaces: Option<seq<NetworkInterface>>,
    connectionInfoMac: Option<string>)
    returns (text: string)
    ensures sdkAtLeastQ && interfaces.Some? ==> text == MacSearchText(FirstSelectedMac(Wlan, interfaces.value))
    ensures sdkAtLeastQ && interfaces.None? ==> text == Unknown
    ensures !sdkAtLeastQ ==> text == if connectionInfoMac.Some? then connectionInfoMac.value else Unknown
  {
    if sdkAtLeastQ {
      if interfaces.None? {
        return Unknown;
      }
      text := FindMacText(Wlan, interfaces.value);
    } else {
      text := if connectionInfoMac.Some? then connectionInfoMac.value else Unknown;
    }
  }

  // ---------------------------------------------------------------------------
  // Ethernet IPv4 address
  // ---------------------------------------------------------------------------

  /** The address test of getEthernetIpAddress: not loopback and four bytes long. */
  predicate IsUsableIpv4(a: InetAddress) {
    !a.isLoopback && |a.raw| == 4
  }

  /** Every address of every Ethernet interface, in the order the loops visit them. */
  function EthernetCandidates(ifs: seq<NetworkInterface>): (r: seq<InetAddress>)
    decreases |ifs|
  {
    if ifs == [] then []
    else
      var last := ifs[|ifs| - 1];
      EthernetCandidates(ifs[..|ifs| - 1]) + (if IsEthernetName(last.name) then last.addresses else [])
  }

  /** The position of the first usable address of a list, or -1. */
  function FirstUsableIndex(addrs: seq<InetAddress>): (k: int)
    ensures -1 <= k < |addrs|
    ensures k == -1 <==> forall i :: 0 <= i < |addrs| ==> !IsUsableIpv4(addrs[i])
    ensures k >= 0 ==> IsUsableIpv4(addrs[k])
    ensures forall j :: 0 <= j < k ==> !IsUsableIpv4(addrs[j])
    decreases |addrs|
  {
    if addrs == [] then -1
    else if IsUsableIpv4(addrs[0]) then 0
    else
      var k := FirstUsableIndex(addrs[1..]);
      assert forall i :: 1 <= i < |addrs| ==> addrs[i] == addrs[1..][i - 1];
      if k < 0 then -1 else k + 1
  }

  /** The first usable address of a list. */
  function FirstUsable(addrs: seq<InetAddress>): (r: Option<InetAddress>)
    ensures r.None? <==> forall i :: 0 <= i < |addrs| ==> !IsUsableIpv4(addrs[i])
    ensures r.Some? ==> IsUsableIpv4(r.value)
    ensures r.Some? ==> FirstUsableIndex(addrs) >= 0 && r.value == addrs[FirstUsableIndex(addrs)]
  {
    var k := FirstUsableIndex(addrs);
    if k < 0 then None else Some(addrs[k])
  }

  /** The first usable address after a prefix with none is the first usable address of the rest. */
  lemma FirstUsableAfter(pre: seq<InetAddress>, rest: seq<InetAddress>)
    requires forall i :: 0 <= i < |pre| ==> !IsUsableIpv4(pre[i])
    ensures FirstUsable(pre + rest) == FirstUsable(rest)
  {
    var all := pre + rest;
    var k := FirstUsableIndex(all);
    var k2 := FirstUsableIndex(rest);
    assert forall i :: 0 <= i < |rest| ==> rest[i] == all[|pre| + i];
    if k >= 0 {
      assert k >= |pre|;
      assert IsUsableIpv4(rest[k - |pre|]);
    }
  }

  /**
   * The nested loops of getEthernetIpAddress: the text of the first usable address
   * on an Ethernet interface, else "Unknown".
   */
  method GetEthernetIpAddress(interfaces: Option<seq<NetworkInterface>>) returns (text: string)
    ensures interfaces.None? ==> text == Unknown
    ensures interfaces.Some? ==> text == match FirstUsable(EthernetCandidates(interfaces.value))
      case Some(a) => a.hostAddress
      case None => Unknown
  {
    if interfaces.None? {
      return Unknown;
    }
    var ifs := interfaces.value;
    for i := 0 to |ifs|
      invariant forall k :: 0 <= k < |EthernetCandidates(ifs[..i])| ==> !IsUsableIpv4(EthernetCandidates(ifs[..i])[k])
    {
      assert ifs[..i + 1][..i] == ifs[..i];
      var intf := ifs[i];
      if IsEthernetName(intf.name) {
        var addrs := intf.addresses;
        for j := 0 to |addrs|
          invariant forall k :: 0 <= k < j ==> !IsUsableIpv4(addrs[k])
        {
          if IsUsableIpv4(addrs[j]) {
            ghost var pre := EthernetCandidates(ifs[..i]) + addrs[..j];
            assert EthernetCandidates(ifs[..i + 1]) == EthernetCandidates(ifs[..i]) + addrs;
            EthernetCandidatesPrefix(ifs, i + 1);
            ghost var rest := EthernetCandidates(ifs)[|EthernetCandidates(ifs[..i + 1])|..];
            assert EthernetCandidates(ifs) == pre + (addrs[j..] + rest) by {
              assert addrs == addrs[..j] + addrs[j..];
            }
            FirstUsableAfter(pre, addrs[j..] + rest);
            return addrs[j].hostAddress;
          }
        }
      }
    }
    assert ifs[..|ifs|] == ifs;
    text := Unknown;
  }

  /** The candidates of a prefix of the interfaces are a prefix of all candidates. */
  lemma {:induction false} EthernetCandidatesPrefix(ifs: seq<NetworkInterface>, n: nat)
    requires n <= |ifs|
    ensures |EthernetCandidates(ifs[..n])| <= |EthernetCandidates(ifs)|
    ensures EthernetCandidates(ifs) == EthernetCandidates(ifs[..n])
      + EthernetCandidates(ifs)[|EthernetCandidates(ifs[..n])|..]
    decreases |ifs| - n
  {
    if n == |ifs| {
      assert ifs[..n] == ifs;
    } else {
      EthernetCandidatesPrefix(ifs, n + 1);
      assert ifs[..n + 1][..n] == ifs[..n];
    }
  }

  // ---------------------------------------------------------------------------
  // Wi-Fi IPv4 address
  // ---------------------------------------------------------------------------

  /**
   * `ip & 0xff`, `ip >> 8 & 0xff`, `ip >> 16 & 0xff`, `ip >> 24 & 0xff` for a Java int:
   * `>>` is arithmetic, i.e. floor division by a power of two, and `& 0xff` of a
   * two's-complement value is its non-negative remainder modulo 256. Dafny's `/`
   * and `%` with a positive divisor compute exactly these.
   */
  function Octets(ip: Int32): (o: seq<Byte>)
    ensures |o| == 4
  {
    [LowByte(ip), LowByte(ip / 0x100), LowByte(ip / 0x1_0000), LowByte(ip / 0x100_0000)]
  }

  /** `x & 0xff` for a two's-complement x: its non-negative remainder modulo 256. */
  function LowByte(x: int): Byte {
    x % 0x100
  }

  /**
   * getWlanIpAddress: the dotted text of the connection's address, lowest byte
   * first, when Wi-Fi is enabled; "Unknown" otherwise. `connectionIp` is None when
   * asking for the connection's address threw: a null connection info or a
   * throwing Wi-Fi manager, which the method's catch turns into "Unknown".
   */
  function GetWlanIpAddress(wifiEnabled: bool, connectionIp: Option<Int32>): (text: string)
    ensures !wifiEnabled || connectionIp.None? ==> text == Unknown
    ensures wifiEnabled && connectionIp.Some? ==>
      ParseDottedQuad(text) == Some(Octets(connectionIp.value))
  {
    if wifiEnabled && connectionIp.Some? then
      DottedQuadRoundTrip(Octets(connectionIp.value));
      DottedQuad(Octets(connectionIp.value))
    else Unknown
  }

  /** `a | b << 8 | c << 16 | d << 24` in Java int arithmetic (the bytes occupy disjoint bits). */
  function PackOctets(o: seq<Byte>): (ip: Int32)
    requires |o| == 4
  {
    var u: int := o[0] as int + 0x100 * (o[1] as int) + 0x1_0000 * (o[2] as int) + 0x100_0000 * (o[3] as int);
    if u < 0x8000_0000 then u else u - 0x1_0000_0000
  }

  /** Packing the four octets back reproduces the integer, negative ones included. */
  lemma OctetsRoundTrip(ip: Int32)
    ensures PackOctets(Octets(ip)) == ip
  {
    var q1 := ip / 0x100;
    var q2 := q1 / 0x100;
    var q3 := q2 / 0x100;
    assert ip / 0x1_0000 == q2;
    assert ip / 0x100_0000 == q3;
    assert -0x80 <= q3 < 0x80;
  }

  /** The Wi-Fi address text reads back as the octets, which pack back to the integer. */
  lemma WlanIpTextRoundTrip(ip: Int32)
    ensures ParseDottedQuad(GetWlanIpAddress(true, Some(ip))) == Some(Octets(ip))
    ensures PackOctets(Octets(ip)) == ip
  {
    DottedQuadRoundTrip(Octets(ip));
    OctetsRoundTrip(ip);
  }
}
