// The addressing half of the Red Hat round trip: which start modes, addresses, prefixes and routes
// redhat-put.xsl reads back from what redhat-get.xsl wrote.
module RedHatAddressing {
  import opened Text
  import opened IpCalc
  import opened Document
  import opened RedHat

  // ---- what comes back ----

  function ImagePrefix4(prefix: Option<string>): Option<string>
    requires NetmaskNode(prefix).Ok?
  {
    if prefix.Some? then Some(Decimal(Number(prefix.value))) else None
  }

  function ImageIPv4(p: IPv4): IPv4
    requires IPv4Nodes(p).Ok?
  {
    match p
    case Dhcp4(_) => p
    case Static4(address, prefix, gateway) => Static4(address, ImagePrefix4(prefix), gateway)
  }

  function ImageAddress(ip: IPv6Address): IPv6Address {
    if ip.prefix.Some? then ip else IPv6Address("", None)
  }

  function ImageAddresses(ips: seq<IPv6Address>): seq<IPv6Address> {
    seq(|ips|, i requires 0 <= i < |ips| => ImageAddress(ips[i]))
  }

  function ImageIPv6(p: IPv6): IPv6 {
    IPv6(p.autoconf, if p.dhcp.Some? then Some(Dhcp6(None)) else None, ImageAddresses(p.ips),
         if p.ips == [] then None else p.gateway)
  }

  function ImageAddressing(a: Addressing): Addressing
    requires a.ipv4.Some? ==> IPv4Nodes(a.ipv4.value).Ok?
  {
    Addressing(if a.ipv4.Some? then Some(ImageIPv4(a.ipv4.value)) else None,
               if a.ipv6.Some? then Some(ImageIPv6(a.ipv6.value)) else None,
               false)
  }

  lemma PutIPv4Get(p: IPv4)
    requires IPv4Nodes(p).Ok?
    ensures PutIPv4(IPv4Nodes(p).value) == Ok(Some(ImageIPv4(p)))
  {
    if p.Static4? && p.prefix.Some? {
      var k := Number(p.prefix.value);
      ParseQuadOfQuad(Netmask(k));
      PrefixOfNetmask(k);
      QuadNonEmpty(Netmask(k));
    }
  }

  lemma QuadNonEmpty(m: Mask)
    ensures Quad(m) != ""
  {
    ParseQuadOfQuad(m);
    assert Split("", '.') == [""];
  }

  lemma PutAddressBack(ip: IPv6Address)
    requires AddressChars(ip.address) && OptDigits(ip.prefix)
    ensures PutAddress(AddressText(ip)) == ImageAddress(ip)
    ensures ' ' !in AddressText(ip) && '\'' !in AddressText(ip) && AddressText(ip) != ""
  {
    assert !IsDigit(' ') && !IsDigit('\'') && !IsDigit('/');
    if ip.prefix.Some? {
      assert AddressText(ip) == ip.address + ['/'] + ip.prefix.value;
      BeforeAfter(ip.address, '/', ip.prefix.value);
    } else {
      assert AddressText(ip) == ip.address;
      NoSeparator(ip.address, '/');
    }
  }

  lemma {:induction false} NoSeparator(s: string, c: char)
    requires c !in s
    ensures IndexOf(s, c) == |s|
    ensures Before(s, c) == "" && After(s, c) == ""
  {
    if s != "" {
      NoSeparator(s[1..], c);
    }
  }

  predicate AddressesValid(ips: seq<IPv6Address>) {
    forall ip | ip in ips :: AddressChars(ip.address) && OptDigits(ip.prefix)
  }

  lemma PutAddressesBack(ips: seq<IPv6Address>)
    requires AddressesValid(ips) && ips != []
    ensures PutAddresses(Tokens(Unquote("'" + Join(AddressTexts(ips), ' ') + "'"), ' ')) == ImageAddresses(ips)
  {
    var texts := AddressTexts(ips);
    forall i | 0 <= i < |ips|
      ensures ' ' !in texts[i] && texts[i] != "" && PutAddress(texts[i]) == ImageAddress(ips[i])
    {
      assert ips[i] in ips;
      PutAddressBack(ips[i]);
    }
    var s := Join(texts, ' ');
    assert Unquote("'" + s + "'") == s;
    TokensJoin(texts, ' ');
  }

  lemma ImageSplit(ips: seq<IPv6Address>)
    requires ips != []
    ensures ImageAddresses(ips) == [ImageAddress(ips[0])] + ImageAddresses(ips[1..])
  {
  }

  lemma PutIps(ips: seq<IPv6Address>, n: IPv6Labels)
    requires AddressesValid(ips)
    requires n.IPV6ADDR == if |ips| > 0 then Some(AddressText(ips[0])) else None
    requires n.IPV6ADDR_SECONDARIES == Secondaries(ips)
    ensures PutFirst(n) + PutSecondaries(n) == ImageAddresses(ips)
  {
    if |ips| > 0 {
      assert ips[0] in ips;
      PutAddressBack(ips[0]);
      ImageSplit(ips);
      if |ips| > 1 {
        assert forall ip | ip in ips[1..] :: ip in ips;
        PutAddressesBack(ips[1..]);
      }
    }
  }

  lemma PutIPv6Get(p: IPv6)
    requires AddressesValid(p.ips)
    ensures PutIPv6(IPv6Nodes(p)) == Some(ImageIPv6(p))
  {
    PutIps(p.ips, IPv6Nodes(p));
    assert YesNo(true) != YesNo(false);
  }

  /** The addressing nodes of a tree are read back as the image of the addressing. */
  lemma PutAddressingGet(a: Addressing, n: Nodes)
    requires ValidAddressing(a) && AddressingNodes(a, n).Ok?
    ensures PutAddressing(AddressingNodes(a, n).value) == Ok(ImageAddressing(a))
  {
    if a.ipv4.Some? {
      PutIPv4Get(a.ipv4.value);
    }
    if a.ipv6.Some? {
      PutIPv6Get(a.ipv6.value);
    }
  }

  // ---- exactly when addressing survives ----

  predicate PrefixSurvives(prefix: Option<string>) {
    prefix.Some? ==>
      Digits(prefix.value) && 1 <= Number(prefix.value) <= 31 && prefix.value == Decimal(Number(prefix.value))
  }

  predicate IPv4Survives(p: IPv4) {
    p.Static4? ==> PrefixSurvives(p.prefix)
  }

  predicate IPv6Survives(p: IPv6) {
    (p.dhcp.Some? ==> p.dhcp.value.peerdns.None?)
    && (forall ip | ip in p.ips :: ip.prefix.Some?)
    && (p.gateway.Some? ==> p.ips != [])
  }

  predicate AddressingSurvives(a: Addressing) {
    (a.ipv4.Some? ==> IPv4Survives(a.ipv4.value)) && (a.ipv6.Some? ==> IPv6Survives(a.ipv6.value))
  }

  lemma IPv6Fixed(p: IPv6)
    requires AddressesValid(p.ips)
    ensures ImageIPv6(p) == p <==> IPv6Survives(p)
  {
    if ImageAddresses(p.ips) == p.ips {
      forall ip | ip in p.ips
        ensures ip.prefix.Some?
      {
        var i :| 0 <= i < |p.ips| && p.ips[i] == ip;
        assert ImageAddresses(p.ips)[i] == ImageAddress(ip);
      }
    }
    if forall ip | ip in p.ips :: ip.prefix.Some? {
      assert forall i | 0 <= i < |p.ips| :: p.ips[i] in p.ips;
      assert ImageAddresses(p.ips) == p.ips;
    }
  }

  /** The addressing is compiled and comes back unchanged exactly when it survives. */
  lemma AddressingFixed(a: Addressing)
    requires ValidAddressing(a)
    ensures AddressingSurvives(a)
       <==> (a.ipv4.Some? ==> IPv4Nodes(a.ipv4.value).Ok?) && ImageAddressing(a) == a.(v6First := false)
  {
    if a.ipv6.Some? {
      IPv6Fixed(a.ipv6.value);
    }
  }
}
