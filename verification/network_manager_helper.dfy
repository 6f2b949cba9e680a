/**
 * NetworkManagerHelper: switching Ethernet on and off and writing a static or DHCP
 * configuration through the hidden EthernetManager. The reflective calls are not
 * modelled; what each call returns is an input. What is modelled exactly is the
 * control flow around them: which interfaces are tried, in which order, when the
 * loop stops, and the configuration handed over (prefix length, DNS list, link address).
 */
module NetworkManagerHelper {
  import opened JavaLang
  import opened Ipv4Text

  // ---------------------------------------------------------------------------
  // Netmask to prefix length
  // ---------------------------------------------------------------------------

  const DefaultPrefixLength: int := 24

  /** A Java int as its 32 bits: two's complement, i.e. the value modulo 2^32. */
  function ToBits(v: Int32): bv32
  {
    (v % 0x1_0000_0000) as bv32
  }

  /** Bit i (0 is the least significant) of a 32-bit word is set. */
  predicate Bit(m: bv32, i: bv32)
    requires i < 32
  {
    (m >> i) & 1 == 1
  }

  function TrailingZerosFrom(m: bv32, k: bv32): (n: bv32)
    requires k <= 32
    requires forall i: bv32 :: i < k ==> !Bit(m, i)
    ensures k <= n <= 32
    ensures forall i: bv32 :: i < n ==> !Bit(m, i)
    ensures n < 32 ==> Bit(m, n)
    decreases 32 - k
  {
    if k == 32 || Bit(m, k) then k else TrailingZerosFrom(m, k + 1)
  }

  /** The position of the lowest set bit, 32 for zero. */
  function TrailingZeros(m: bv32): (n: bv32)
    ensures n <= 32
    ensures forall i: bv32 :: i < n ==> !Bit(m, i)
    ensures n < 32 ==> Bit(m, n)
  {
    TrailingZerosFrom(m, 0)
  }

  /** The bit characterisation above determines the count. */
  lemma TrailingZerosUnique(m: bv32, n: bv32)
    requires n <= 32
    requires forall i: bv32 :: i < n ==> !Bit(m, i)
    requires n < 32 ==> Bit(m, n)
    ensures TrailingZeros(m) == n
  {
  }

  /** `Integer.numberOfTrailingZeros`, as the Java int it returns. */
  function NumberOfTrailingZeros(m: bv32): (n: nat)
    ensures n <= 32
  {
    TrailingZeros(m) as int
  }

  /** `mask = (mask << 8) | Integer.parseInt(part)` over the parts, starting from 0. */
  function FoldMask(values: seq<Int32>): bv32
    decreases |values|
  {
    if values == [] then 0
    else Shifted(FoldMask(values[..|values| - 1]), values[|values| - 1])
  }

  /** One step of the fold: `(mask << 8) | part`. */
  function Shifted(mask: bv32, v: Int32): bv32 {
    (mask << 8) | ToBits(v)
  }

  /** `Integer.parseInt` of every part; None as soon as one of them throws. */
  function ParseAll(parts: seq<string>): (r: Option<seq<Int32>>)
    ensures r.Some? <==> forall i :: 0 <= i < |parts| ==> ParseInt(parts[i]).Some?
    ensures r.Some? ==> |r.value| == |parts|
    ensures r.Some? ==> forall i :: 0 <= i < |parts| ==> ParseInt(parts[i]) == Some(r.value[i])
    decreases |parts|
  {
    if parts == [] then Some([])
    else
      var init := parts[..|parts| - 1];
      assert forall i :: 0 <= i < |init| ==> init[i] == parts[i];
      match (ParseAll(init), ParseInt(parts[|parts| - 1]))
      case (Some(vs), Some(v)) => Some(vs + [v])
      case _ => None
  }

  /**
   * The prefix length setEthernetStaticIp derives from the netmask text: with four
   * '.'-separated parts that all parse as ints, 32 minus the trailing zeros of the
   * folded mask; otherwise the default 24. The parts are not range-checked.
   */
  function NetmaskPrefix(netmask: string): (p: int)
  {
    var parts := JavaSplit(netmask, '.');
    if |parts| != 4 then DefaultPrefixLength
    else match ParseAll(parts)
      case None => DefaultPrefixLength
      case Some(vs) => 32 - NumberOfTrailingZeros(FoldMask(vs))
  }

  /** Whatever the text, the prefix length is between 0 and 32. */
  lemma NetmaskPrefixRange(netmask: string)
    ensures 0 <= NetmaskPrefix(netmask) <= 32
  {
  }

  /**
   * The try block that computes the prefix length: split, fold each parsed part
   * into the mask, count trailing zeros. A NumberFormatException leaves the
   * default in place.
   */
  method PrefixLength(netmask: string) returns (prefixLength: int)
    ensures prefixLength == NetmaskPrefix(netmask)
    ensures 0 <= prefixLength <= 32
  {
    prefixLength := DefaultPrefixLength;
    var maskParts := JavaSplit(netmask, '.');
    if |maskParts| == 4 {
      var mask := FoldParts(maskParts);
      if mask.Some? {
        prefixLength := 32 - NumberOfTrailingZeros(mask.value);
      }
    }
  }

  /**
   * The loop `mask = (mask << 8) | Integer.parseInt(part)` over the parts; None
   * when a parseInt throws, which leaves the loop with the default prefix.
   */
  method FoldParts(parts: seq<string>) returns (mask: Option<bv32>)
    ensures mask.None? <==> ParseAll(parts).None?
    ensures mask.Some? ==> mask.value == FoldMask(ParseAll(parts).value)
  {
    var m: bv32 := 0;
    ghost var values: seq<Int32> := [];
    for i := 0 to |parts|
      invariant ParseAll(parts[..i]) == Some(values)
      invariant m == FoldMask(values)
    {
      var v := ParseInt(parts[i]);
      if v.None? {
        ParseAllPrefixFails(parts, i + 1);
        return None;
      }
      FoldPartsStep(parts, i, values, v.value);
      m := Shifted(m, v.value);
      values := values + [v.value];
    }
    FoldPartsDone(parts, values);
    return Some(m);
  }

  /** One more part that parses extends the parsed prefix by its value. */
  lemma ParseAllStep(parts: seq<string>, i: nat, vs: seq<Int32>, v: Int32)
    requires i < |parts|
    requires ParseAll(parts[..i]) == Some(vs) && ParseInt(parts[i]) == Some(v)
    ensures ParseAll(parts[..i + 1]) == Some(vs + [v])
  {
    assert parts[..i + 1][..i] == parts[..i];
  }

  /** One more part parsed and folded in keeps the loop's two invariants. */
  lemma FoldPartsStep(parts: seq<string>, i: nat, vs: seq<Int32>, v: Int32)
    requires i < |parts|
    requires ParseAll(parts[..i]) == Some(vs) && ParseInt(parts[i]) == Some(v)
    ensures ParseAll(parts[..i + 1]) == Some(vs + [v])
    ensures FoldMask(vs + [v]) == Shifted(FoldMask(vs), v)
  {
    ParseAllStep(parts, i, vs, v);
    FoldMaskSnoc(vs, v);
  }

  /** After the last part, the parsed prefix is the whole list. */
  lemma FoldPartsDone(parts: seq<string>, vs: seq<Int32>)
    requires ParseAll(parts[..|parts|]) == Some(vs)
    ensures ParseAll(parts) == Some(vs)
  {
    assert parts[..|parts|] == parts;
  }

  /** When a part fails to parse, so does the whole. */
  lemma ParseAllPrefixFails(parts: seq<string>, n: nat)
    requires 0 < n <= |parts|
    requires ParseInt(parts[n - 1]).None?
    ensures ParseAll(parts).None?
  {
  }

  /** The mask with k leading one bits: the well-formed netmask of prefix length k. */
  function PrefixMask(k: bv32): bv32
    requires k <= 32
  {
    if k == 0 then 0 else 0xFFFF_FFFF << (32 - k)
  }

  lemma PrefixMaskBits(k: bv32)
    requires k <= 32
    ensures forall i: bv32 :: i < 32 ==> (Bit(PrefixMask(k), i) <==> i >= 32 - k)
  {
  }

  /** Its lowest set bit is bit 32 - k, so it has 32 - k trailing zeros. */
  lemma PrefixMaskTrailingZeros(k: bv32)
    requires k <= 32
    ensures NumberOfTrailingZeros(PrefixMask(k)) == 32 - k as int
  {
    PrefixMaskBits(k);
    TrailingZerosUnique(PrefixMask(k), 32 - k);
  }

  /** The four bytes of a word, most significant first. */
  function MaskOctets(m: bv32): (o: seq<Byte>)
    ensures |o| == 4
  {
    [(m >> 24) as int, ((m >> 16) & 0xFF) as int, ((m >> 8) & 0xFF) as int, (m & 0xFF) as int]
  }

  /** One more part shifts the mask left by a byte and ors the part in. */
  lemma FoldMaskSnoc(vs: seq<Int32>, v: Int32)
    ensures FoldMask(vs + [v]) == Shifted(FoldMask(vs), v)
  {
    assert (vs + [v])[..|vs|] == vs;
  }

  /** Four bytes' worth of bits, the first one most significant. */
  function Word(b0: bv32, b1: bv32, b2: bv32, b3: bv32): bv32
  {
    (((((b0 << 8) | b1) << 8) | b2) << 8) | b3
  }

  /** The loop over four parts, unrolled. */
  lemma FoldMaskFour(vs: seq<Int32>)
    requires |vs| == 4
    ensures FoldMask(vs) == Word(ToBits(vs[0]), ToBits(vs[1]), ToBits(vs[2]), ToBits(vs[3]))
  {
    var a, b, c, d := ToBits(vs[0]), ToBits(vs[1]), ToBits(vs[2]), ToBits(vs[3]);
    assert vs[..0] + [vs[0]] == vs[..1];
    assert vs[..1] + [vs[1]] == vs[..2];
    assert vs[..2] + [vs[2]] == vs[..3];
    assert vs[..3] + [vs[3]] == vs;
    FoldMaskSnoc(vs[..0], vs[0]);
    FoldMaskSnoc(vs[..1], vs[1]);
    FoldMaskSnoc(vs[..2], vs[2]);
    FoldMaskSnoc(vs[..3], vs[3]);
    assert FoldMask(vs) == Word(a, b, c, d);
  }

  lemma ByteAsInt(b: bv32)
    requires b <= 0xFF
    ensures b as int < 0x100 && (b as int) as bv32 == b
  {
  }

  lemma ToBitsOfSmall(n: int)
    requires 0 <= n < 0x100
    ensures ToBits(n) == n as bv32
  {
    assert n % 0x1_0000_0000 == n;
  }

  /** A byte read as an int and converted back keeps its bits. */
  lemma ToBitsOfByte(b: bv32)
    requires b <= 0xFF
    ensures ToBits(b as int) == b
  {
    ByteAsInt(b);
    ToBitsOfSmall(b as int);
  }

  lemma ReassembleWord(m: bv32)
    ensures Word(m >> 24, (m >> 16) & 0xFF, (m >> 8) & 0xFF, m & 0xFF) == m
  {
  }

  /** Folding a word's own four bytes rebuilds the word. */
  lemma FoldMaskOfOctets(m: bv32)
    ensures FoldMask(MaskOctets(m)) == m
  {
    var o := MaskOctets(m);
    FoldMaskFour(o);
    ToBitsOfByte(m >> 24);
    ToBitsOfByte((m >> 16) & 0xFF);
    ToBitsOfByte((m >> 8) & 0xFF);
    ToBitsOfByte(m & 0xFF);
    ReassembleWord(m);
  }

  /** Four parts that parse to the four given values. */
  lemma ParseAllFour(parts: seq<string>, vs: seq<Int32>)
    requires |parts| == 4 && |vs| == 4
    requires ParseInt(parts[0]) == Some(vs[0]) && ParseInt(parts[1]) == Some(vs[1])
    requires ParseInt(parts[2]) == Some(vs[2]) && ParseInt(parts[3]) == Some(vs[3])
    ensures ParseAll(parts) == Some(vs)
  {
    assert forall i :: 0 <= i < 4 ==> ParseInt(parts[i]) == Some(vs[i]);
    var r := ParseAll(parts);
    assert r.value == vs;
  }

  /** For the dotted text of any four bytes, the prefix is 32 minus the trailing zeros of the word they spell. */
  lemma NetmaskPrefixOfDottedQuad(o: seq<Byte>)
    requires |o| == 4
    ensures NetmaskPrefix(DottedQuad(o)) == 32 - NumberOfTrailingZeros(FoldMask(o))
  {
    DottedQuadSplit(o);
    var parts := JavaSplit(DottedQuad(o), '.');
    ParseIntOfDecimal(o[0]);
    ParseIntOfDecimal(o[1]);
    ParseIntOfDecimal(o[2]);
    ParseIntOfDecimal(o[3]);
    ParseAllFour(parts, o);
  }

  /** A well-formed netmask with k leading ones, written as dotted text, gives prefix length k. */
  lemma ContiguousNetmaskPrefix(k: bv32)
    requires k <= 32
    ensures NetmaskPrefix(DottedQuad(MaskOctets(PrefixMask(k)))) == k as int
  {
    var m := PrefixMask(k);
    NetmaskPrefixOfDottedQuad(MaskOctets(m));
    FoldMaskOfOctets(m);
    PrefixMaskTrailingZeros(k);
  }

  /** The usual class C netmask gives 24, and the all-zero netmask gives 0. */
  lemma NetmaskExamples()
    ensures NetmaskPrefix("255.255.255.0") == 24
    ensures NetmaskPrefix("0.0.0.0") == 0
  {
    ContiguousNetmaskPrefix(24);
    ClassCNetmaskText();
    ContiguousNetmaskPrefix(0);
    ZeroNetmaskText();
  }

  lemma ClassCNetmaskText()
    ensures DottedQuad(MaskOctets(PrefixMask(24))) == "255.255.255.0"
  {
    assert PrefixMask(24) == 0xFFFF_FF00;
    assert MaskOctets(0xFFFF_FF00) == [255, 255, 255, 0];
    DecimalExamples();
  }

  lemma ZeroNetmaskText()
    ensures DottedQuad(MaskOctets(PrefixMask(0))) == "0.0.0.0"
  {
    assert PrefixMask(0) == 0;
    assert MaskOctets(0) == [0, 0, 0, 0];
    DecimalExamples();
  }

  lemma DecimalExamples()
    ensures IntToDecimal(255) == "255" && IntToDecimal(0) == "0"
  {
    assert NatToDecimal(2) == "2";
    assert NatToDecimal(25) == "25";
  }

  /** Text that does not split into four parts, or has a part that does not parse, gives the default, 24. */
  lemma NetmaskFallsBackToDefault(netmask: string)
    requires var parts := JavaSplit(netmask, '.');
      |parts| != 4 || exists i :: 0 <= i < |parts| && ParseInt(parts[i]).None?
    ensures NetmaskPrefix(netmask) == DefaultPrefixLength
  {
  }

  /**
   * Only the lowest set bit of the folded mask matters: bits above it, contiguous
   * or not, do not change the prefix length.
   */
  lemma NetmaskHigherBitsIgnored(o: seq<Byte>, o': seq<Byte>, z: bv32)
    requires |o| == 4 && |o'| == 4 && z < 32
    requires forall i: bv32 :: i < z ==> !Bit(FoldMask(o), i) && !Bit(FoldMask(o'), i)
    requires Bit(FoldMask(o), z) && Bit(FoldMask(o'), z)
    ensures NetmaskPrefix(DottedQuad(o)) == NetmaskPrefix(DottedQuad(o')) == 32 - z as int
  {
    NetmaskPrefixOfDottedQuad(o);
    NetmaskPrefixOfDottedQuad(o');
    TrailingZerosUnique(FoldMask(o), z);
    TrailingZerosUnique(FoldMask(o'), z);
  }

  // ---------------------------------------------------------------------------
  // The configuration handed to the framework
  // ---------------------------------------------------------------------------

  /** The DNS list: dns1 then dns2, each only when not empty. */
  function DnsServers(dns1: string, dns2: string): (dns: seq<string>)
    ensures |dns| == (if dns1 != [] then 1 else 0) + (if dns2 != [] then 1 else 0)
    ensures forall i :: 0 <= i < |dns| ==> dns[i] != [] && (dns[i] == dns1 || dns[i] == dns2)
    ensures dns1 != [] ==> dns[0] == dns1
    ensures dns2 != [] ==> dns[|dns| - 1] == dns2
  {
    (if dns1 != [] then [dns1] else []) + (if dns2 != [] then [dns2] else [])
  }

  /** The list-building statements: add each non-empty address in order. */
  method BuildDnsList(dns1: string, dns2: string) returns (dnsList: seq<string>)
    ensures dnsList == DnsServers(dns1, dns2)
  {
    dnsList := [];
    if dns1 != [] {
      dnsList := dnsList + [dns1];
    }
    if dns2 != [] {
      dnsList := dnsList + [dns2];
    }
  }

  /** A LinkAddress: an address with its prefix length. */
  datatype LinkAddress = LinkAddress(address: string, prefixLength: int)

  /**
   * The fields of the StaticIpConfiguration handed to setStaticIpConfiguration. Its
   * `ipAddress` field is null (None) when no LinkAddress constructor could be used.
   */
  datatype StaticIpConfiguration = StaticIpConfiguration(
    linkAddress: Option<LinkAddress>,
    gateway: string,
    dnsServers: seq<string>)

  /** The single-String LinkAddress argument, "ip/prefix". */
  function LinkAddressText(ipAddress: string, prefixLength: int): (s: string)
  {
    ipAddress + "/" + IntToDecimal(prefixLength)
  }

  /** The address and the prefix can be read back from the link-address text. */
  lemma LinkAddressTextRoundTrip(ipAddress: string, prefixLength: Int32)
    requires '/' !in ipAddress
    ensures LastIndexOf(LinkAddressText(ipAddress, prefixLength), '/') == |ipAddress|
    ensures LinkAddressText(ipAddress, prefixLength)[..|ipAddress|] == ipAddress
    ensures ParseInt(LinkAddressText(ipAddress, prefixLength)[|ipAddress| + 1..]) == Some(prefixLength)
  {
    var s := LinkAddressText(ipAddress, prefixLength);
    var p := IntToDecimal(prefixLength);
    assert s[|ipAddress|] == '/';
    assert s[|ipAddress| + 1..] == p;
    ParseIntOfDecimal(prefixLength);
  }

  /**
   * What one static-IP attempt builds from the arguments of setEthernetStaticIp.
   * `linkAddressCreated` is whether one of the three LinkAddress constructors
   * could be used.
   */
  function StaticConfiguration(
    ipAddress: string, gateway: string, netmask: string, dns1: string, dns2: string,
    linkAddressCreated: bool)
    : (c: StaticIpConfiguration)
    ensures c.linkAddress.Some? <==> linkAddressCreated
    ensures c.linkAddress.Some? ==>
      c.linkAddress.value.address == ipAddress &&
      c.linkAddress.value.prefixLength == NetmaskPrefix(netmask) &&
      0 <= c.linkAddress.value.prefixLength <= 32
    ensures c.gateway == gateway
    ensures c.dnsServers == DnsServers(dns1, dns2) && |c.dnsServers| <= 2
  {
    var link := if linkAddressCreated then Some(LinkAddress(ipAddress, NetmaskPrefix(netmask))) else None;
    StaticIpConfiguration(link, gateway, DnsServers(dns1, dns2))
  }

  // ---------------------------------------------------------------------------
  // Interfaces and attempts
  // ---------------------------------------------------------------------------

  const DefaultInterface: string := "eth0"

  /**
   * What `getInterfaceList` gave: it threw, it returned something that is not a
   * List, or it returned a list (which the code then adds to, and which may not
   * accept additions).
   */
  datatype InterfaceListLookup = Threw | NotAList | ListResult(names: seq<string>, modifiable: bool)

  /** The hidden EthernetManager (and its class) as the helper found it at construction. */
  datatype EthernetManager = Absent | Present(interfaceList: InterfaceListLookup)

  /**
   * The interfaces the loop walks. A failed lookup or a non-list result leaves a
   * fresh list holding only "eth0"; an empty returned list gets "eth0" added, and
   * if that list refuses the addition the whole call fails (None).
   */
  function ResolveInterfaces(lookup: InterfaceListLookup): (r: Option<seq<string>>)
    ensures r.None? <==> lookup.ListResult? && lookup.names == [] && !lookup.modifiable
    ensures r.Some? ==> r.value != []
    ensures r.Some? && lookup.ListResult? && lookup.names != [] ==> r.value == lookup.names
    ensures r.Some? && !(lookup.ListResult? && lookup.names != []) ==> r.value == [DefaultInterface]
  {
    match lookup
    case Threw => Some([DefaultInterface])
    case NotAList => Some([DefaultInterface])
    case ListResult(names, modifiable) =>
      if names != [] then Some(names)
      else if modifiable then Some([DefaultInterface])
      else None
  }

  /**
   * How one interface's attempt ended: `getConfiguration` gave null, the
   * configuration class has no one-argument setIpAssignment, an exception was
   * caught, or `setConfiguration` returned false or true.
   */
  datatype Attempt = NoConfiguration | NoIpAssignment | Failed | Rejected | Accepted

  /** The position of the first accepted attempt among the first n, or -1. */
  function FirstAccepted(n: nat, outcome: nat -> Attempt): (k: int)
    ensures -1 <= k < n
    ensures k == -1 <==> forall i :: 0 <= i < n ==> outcome(i) != Accepted
    ensures k >= 0 ==> outcome(k) == Accepted
    ensures forall i :: 0 <= i < k ==> outcome(i) != Accepted
    decreases n
  {
    if n == 0 then -1
    else
      var k := FirstAccepted(n - 1, outcome);
      if k >= 0 then k
      else if outcome(n - 1) == Accepted then n - 1
      else -1
  }

  /**
   * The per-interface loop: try each interface in turn, whatever went wrong with
   * the previous one, and return true at the first one whose configuration is
   * accepted. `outcome(i)` is how the attempt on the i-th interface ends.
   */
  method ApplyToInterfaces(interfaces: seq<string>, outcome: nat -> Attempt)
    returns (ok: bool, configured: Option<string>, attempts: nat)
    ensures ok <==> exists i :: 0 <= i < |interfaces| && outcome(i) == Accepted
    ensures var k := FirstAccepted(|interfaces|, outcome);
      && (ok ==> configured == Some(interfaces[k]) && attempts == k + 1)
      && (!ok ==> configured == None && attempts == |interfaces|)
  {
    for i := 0 to |interfaces|
      invariant forall j :: 0 <= j < i ==> outcome(j) != Accepted
    {
      var result := outcome(i);
      match result {
        case Accepted =>
          assert FirstAccepted(|interfaces|, outcome) == i;
          return true, Some(interfaces[i]), i + 1;
        case _ =>
      }
    }
    ok, configured, attempts := false, None, |interfaces|;
  }

  /** setEthernetEnabled: true exactly when the manager exists and the reflective call returns normally. */
  function SetEthernetEnabled(manager: EthernetManager, invocationSucceeds: bool): (ok: bool)
    ensures ok ==> manager.Present?
    ensures manager.Present? ==> (ok <==> invocationSucceeds)
  {
    manager.Present? && invocationSucceeds
  }

  /**
   * setEthernetStaticIp: false without a manager; otherwise every interface is
   * tried with the same static configuration until one accepts it. Besides the
   * boolean, the model returns the interface that accepted and the static
   * configuration its IpConfiguration carried: None when the IpConfiguration class
   * has no setStaticIpConfiguration (`hasStaticSetter`), in which case only the
   * STATIC assignment is saved.
   */
  method SetEthernetStaticIp(
    manager: EthernetManager,
    ipAddress: string, gateway: string, netmask: string, dns1: string, dns2: string,
    hasStaticSetter: bool, linkAddressCreated: bool,
    outcome: nat -> Attempt)
    returns (ok: bool, applied: Option<(string, Option<StaticIpConfiguration>)>)
    ensures manager.Absent? ==> !ok && applied == None
    ensures manager.Present? ==> match ResolveInterfaces(manager.interfaceList)
      case None => !ok && applied == None
      case Some(ifs) =>
        var k := FirstAccepted(|ifs|, outcome);
        && (ok <==> k >= 0)
        && applied == if k < 0 then None
                      else if !hasStaticSetter then Some((ifs[k], None))
                      else Some((ifs[k], Some(StaticConfiguration(ipAddress, gateway, netmask, dns1, dns2, linkAddressCreated))))
  {
    if manager.Absent? {
      return false, None;
    }
    var interfaces := ResolveInterfaces(manager.interfaceList);
    if interfaces.None? {
      return false, None;
    }
    var written: Option<StaticIpConfiguration> := None;
    if hasStaticSetter {
      var prefixLength := PrefixLength(netmask);
      var link := if linkAddressCreated then Some(LinkAddress(ipAddress, prefixLength)) else None;
      var dnsList := BuildDnsList(dns1, dns2);
      written := Some(StaticIpConfiguration(link, gateway, dnsList));
    }
    var configured, attempts;
    ok, configured, attempts := ApplyToInterfaces(interfaces.value, outcome);
    applied := if ok then Some((configured.value, written)) else None;
  }

  /**
   * setEthernetDhcp: the same interface walk with the assignment set to DHCP.
   * Returns whether some interface accepted it, and which one.
   */
  method SetEthernetDhcp(manager: EthernetManager, outcome: nat -> Attempt)
    returns (ok: bool, configured: Option<string>)
    ensures manager.Absent? ==> !ok && configured == None
    ensures manager.Present? ==> match ResolveInterfaces(manager.interfaceList)
      case None => !ok && configured == None
      case Some(ifs) =>
        var k := FirstAccepted(|ifs|, outcome);
        && (ok <==> k >= 0)
        && configured == if k >= 0 then Some(ifs[k]) else None
  {
    if manager.Absent? {
      return false, None;
    }
    var interfaces := ResolveInterfaces(manager.interfaceList);
    if interfaces.None? {
      return false, None;
    }
    var attempts;
    ok, configured, attempts := ApplyToInterfaces(interfaces.value, outcome);
  }

  /** With no usable interface list reported, only "eth0" is ever tried. */
  lemma DefaultInterfaceOnly(lookup: InterfaceListLookup, outcome: nat -> Attempt)
    requires lookup.Threw? || lookup.NotAList? || (lookup.ListResult? && lookup.names == [] && lookup.modifiable)
    ensures ResolveInterfaces(lookup) == Some([DefaultInterface])
    ensures FirstAccepted(1, outcome) >= 0 <==> outcome(0) == Accepted
  {
  }
}
