// Which documents the theorems speak of, character by character and value by value.
module Admitted {
  import opened Text
  import opened Document

  /** Device names are letters, digits and five other characters. */
  lemma NameAdmitted(s: string)
    ensures DeviceName(s) <==> s != "" && forall c | c in s ::
      'a' <= c <= 'z' || 'A' <= c <= 'Z' || '0' <= c <= '9' || c == '_' || c == '.' || c == '-' || c == ':' || c == '/'
  {
    assert forall c | c in "_.-:/" :: c == '_' || c == '.' || c == '-' || c == ':' || c == '/';
    assert "_.-:/"[0] == '_' && "_.-:/"[1] == '.' && "_.-:/"[2] == '-' && "_.-:/"[3] == ':' && "_.-:/"[4] == '/';
  }

  lemma DigitsAdmitted(s: string)
    ensures Digits(s) <==> s != "" && forall c | c in s :: '0' <= c <= '9'
  {
  }

  /** An optional number. */
  predicate Numeric(s: Option<string>) {
    s == None || Digits(s.value)
  }

  lemma MiimonAdmitted(m: Miimon)
    ensures ValidMiimon(m) <==>
      Digits(m.freq) && Numeric(m.downdelay) && Numeric(m.updelay)
      && (m.carrier == None || m.carrier == Some("ioctl") || m.carrier == Some("netif"))
  {
    assert m.carrier.Some? ==>
      (m.carrier.value in ["ioctl", "netif"] <==> m.carrier.value == "ioctl" || m.carrier.value == "netif");
  }

  lemma ArpmonAdmitted(a: Arpmon)
    ensures ValidArpmon(a) <==>
      Digits(a.interval) && a.target != "" && (forall c | c in a.target :: '0' <= c <= '9' || c == '.')
      && (a.validate == None || a.validate == Some("none") || a.validate == Some("active")
          || a.validate == Some("backup") || a.validate == Some("all"))
  {
    assert VALIDATE == ["none", "active", "backup", "all"];
  }

  lemma ModeAdmitted(mode: string)
    ensures mode in MODES <==>
      mode == "balance-rr" || mode == "active-backup" || mode == "balance-xor" || mode == "broadcast"
      || mode == "802.3ad" || mode == "balance-tlb" || mode == "balance-alb"
  {
    var all := MODES;
    assert all[0] == "balance-rr" && all[1] == "active-backup" && all[2] == "balance-xor" && all[3] == "broadcast";
    assert all[4] == "802.3ad" && all[5] == "balance-tlb" && all[6] == "balance-alb";
  }

  /** A bond has a slave, and one kind of monitoring at most. */
  lemma BondAdmitted(b: Bond)
    ensures ValidBond(b) <==>
      b.slaves != [] && (forall e | e in b.slaves :: DeviceName(e.name))
      && (b.mode.Some? ==> b.mode.value in MODES)
      && (b.miimon == None || b.arpmon == None)
      && (b.miimon.Some? ==> ValidMiimon(b.miimon.value)) && (b.arpmon.Some? ==> ValidArpmon(b.arpmon.value))
  {
  }

  lemma KindAdmitted(k: Kind)
    ensures k.EthernetKind? ==> (ValidKind(k) <==> DeviceName(k.ethernet.name))
    ensures k.VlanKind? ==> (ValidKind(k) <==> ValidVlan(k.vlan))
    ensures k.BondKind? ==> (ValidKind(k) <==> DeviceName(k.name) && ValidBond(k.bond))
    ensures k.BridgeKind? ==> (ValidKind(k) <==> DeviceName(k.name) && forall p | p in k.ports :: ValidPort(p))
  {
  }

  lemma PortAdmitted(p: Port)
    ensures p.EthernetPort? ==> (ValidPort(p) <==> DeviceName(p.ethernet.name))
    ensures p.VlanPort? ==> (ValidPort(p) <==> ValidVlan(p.vlan))
    ensures p.BondPort? ==> (ValidPort(p) <==> DeviceName(p.name) && ValidBond(p.bond))
  {
  }

  lemma VlanAdmitted(v: Vlan)
    ensures ValidVlan(v) <==>
      DeviceName(v.base) && Digits(v.tag) && (v.name == None || DeviceName(v.name.value))
  {
  }

  /** IPv6 addresses are hexadecimal digits, dots and colons; the IPv4 prefix is a number up to 32. */
  lemma AddressingAdmitted(a: Addressing)
    ensures ValidAddressing(a) <==>
      (a.ipv4.Some? && a.ipv4.value.Static4? && a.ipv4.value.prefix.Some? ==>
        Digits(a.ipv4.value.prefix.value) && Number(a.ipv4.value.prefix.value) <= 32)
      && (a.ipv6.Some? ==> forall ip | ip in a.ipv6.value.ips ::
        Numeric(ip.prefix) && ip.address != "" && forall c | c in ip.address ::
          '0' <= c <= '9' || 'a' <= c <= 'f' || 'A' <= c <= 'F' || c == '.' || c == ':')
  {
    assert forall c | c in ".:" :: c == '.' || c == ':';
    assert ".:"[0] == '.' && ".:"[1] == ':';
  }

  lemma InterfaceAdmitted(d: Interface)
    ensures ValidInterface(d) <==>
      ValidKind(d.kind) && ValidAddressing(d.addressing) && Numeric(d.mtu)
  {
  }
}
