// The BONDING_OPTS text: the printer of data/xml/util-get.xsl, the lookup bond_option of
// src/xslt_ext.c, and the parser of data/xml/util-put.xsl built on that lookup.
module BondOpts {
  import opened Text
  import opened Document

  datatype Opt = Opt(key: string, value: string)

  // ---- printing ----

  function CarrierText(carrier: string): string {
    if carrier == "ioctl" then "0" else if carrier == "netif" then "1" else ""
  }

  function Carrier(m: Miimon): Option<string> {
    if m.carrier.Some? then Some(CarrierText(m.carrier.value)) else None
  }

  function Primary(b: Bond): Option<string> {
    if b.mode == Some("active-backup") then Some(if b.slaves == [] then "" else b.slaves[0].name) else None
  }

  function Pair(key: string, value: Option<string>): seq<Opt> {
    if value.Some? then [Opt(key, value.value)] else []
  }

  function MiimonOpts(m: Miimon): seq<Opt> {
    Pair("miimon", Some(m.freq))
    + (Pair("downdelay", m.downdelay) + (Pair("updelay", m.updelay) + Pair("use_carrier", Carrier(m))))
  }

  function ArpmonOpts(a: Arpmon): seq<Opt> {
    Pair("arp_interval", Some(a.interval)) + (Pair("arp_ip_target", Some(a.target)) + Pair("arp_validate", a.validate))
  }

  /** The options of miimon and arpmon, in the order of the template. */
  function Monitor(b: Bond): seq<Opt> {
    (if b.miimon.Some? then MiimonOpts(b.miimon.value) else [])
    + (if b.arpmon.Some? then ArpmonOpts(b.arpmon.value) else [])
  }

  function AfterMode(b: Bond): seq<Opt> {
    Pair("primary", Primary(b)) + Monitor(b)
  }

  function Options(b: Bond): seq<Opt> {
    Pair("mode", b.mode) + AfterMode(b)
  }

  /** Each option after the mode is printed as " key=value"; a quote closes the text. */
  function Glue(opts: seq<Opt>): string {
    if opts == [] then "'" else " " + (opts[0].key + "=" + (opts[0].value + Glue(opts[1..])))
  }

  /** Template bonding-opts of util-get.xsl. */
  function Print(b: Bond): string {
    "'" + if b.mode.Some? then "mode" + "=" + (b.mode.value + Glue(AfterMode(b))) else Glue(AfterMode(b))
  }

  // ---- looking up: bond_option ----

  predicate Stop(c: char) {
    c == ' ' || c == '\t' || c == '\'' || c == '"'
  }

  function UpToStop(s: string): string {
    if s == "" || Stop(s[0]) then "" else [s[0]] + UpToStop(s[1..])
  }

  /** Only the first occurrence of name is looked at. */
  function BondOption(opts: string, name: string): string {
    var i := Find(opts, name);
    if i < 0 then "" else ValueAfter(opts[i + |name|..])
  }

  /** What follows the name must be "=" and the value. */
  function ValueAfter(rest: string): string {
    if rest == "" || rest[0] != '=' then "" else UpToStop(rest[1..])
  }

  /** bond_option with its pointer loop. */
  method BondOptionLoop(opts: string, name: string) returns (value: string)
    ensures value == BondOption(opts, name)
  {
    var val := Find(opts, name);
    if val < 0 {
      return "";
    }
    val := val + |name|;
    ghost var rest := opts[val..];
    if val == |opts| || opts[val] != '=' {
      return "";
    }
    val := val + 1;
    assert rest[1..] == opts[val..];
    var valEnd := EndOfValue(opts, val);
    value := opts[val..valEnd];
  }

  method EndOfValue(opts: string, val: nat) returns (valEnd: nat)
    requires val <= |opts|
    ensures val <= valEnd <= |opts|
    ensures opts[val..valEnd] == UpToStop(opts[val..])
  {
    valEnd := val;
    while valEnd < |opts| && !Stop(opts[valEnd])
      invariant val <= valEnd <= |opts|
      invariant UpToStop(opts[val..]) == opts[val..valEnd] + UpToStop(opts[valEnd..])
    {
      UpToStopNext(opts, val, valEnd);
      valEnd := valEnd + 1;
    }
  }

  lemma UpToStopNext(opts: string, val: nat, e: nat)
    requires val <= e < |opts| && !Stop(opts[e])
    ensures opts[val..e] + UpToStop(opts[e..]) == opts[val..e + 1] + UpToStop(opts[e + 1..])
  {
    var rest := opts[e..];
    assert rest[0] == opts[e] && rest[1..] == opts[e + 1..];
  }

  // ---- parsing ----

  function NonEmptyOption(s: string): Option<string> {
    if s == "" then None else Some(s)
  }

  function ModeName(mode: string): string {
    if mode == "0" then "balance-rr"
    else if mode == "1" then "active-backup"
    else if mode == "2" then "balance-xor"
    else if mode == "3" then "broadcast"
    else if mode == "4" then "802.3ad"
    else if mode == "5" then "balance-tlb"
    else if mode == "6" then "balance-alb"
    else mode
  }

  function CarrierName(text: string): string {
    if text == "0" then "ioctl" else if text == "1" then "netif" else ""
  }

  function ValidateName(text: string): string {
    if text == "none" || text == "0" then "none"
    else if text == "active" || text == "1" then "active"
    else if text == "backup" || text == "2" then "backup"
    else if text == "all" || text == "3" then "all"
    else ""
  }

  function MapOption(o: Option<string>, f: string -> string): Option<string> {
    if o.Some? then Some(f(o.value)) else None
  }

  function ParseMiimon(freq: string, downdelay: string, updelay: string, carrier: string): Option<Miimon> {
    if freq == "" then None
    else Some(Miimon(freq, NonEmptyOption(downdelay), NonEmptyOption(updelay),
                     MapOption(NonEmptyOption(carrier), CarrierName)))
  }

  function ParseArpmon(interval: string, target: string, validate: string): Option<Arpmon> {
    if interval == "" then None
    else Some(Arpmon(interval, target, MapOption(NonEmptyOption(validate), ValidateName)))
  }

  /** Template bonding-opts of util-put.xsl; the slaves come from elsewhere. */
  function Parse(opts: string, slaves: seq<Ethernet>): Bond {
    Bond(
      MapOption(NonEmptyOption(BondOption(opts, "mode")), ModeName),
      ParseMiimon(BondOption(opts, "miimon"), BondOption(opts, "downdelay"),
                  BondOption(opts, "updelay"), BondOption(opts, "use_carrier")),
      ParseArpmon(BondOption(opts, "arp_interval"), BondOption(opts, "arp_ip_target"),
                  BondOption(opts, "arp_validate")),
      slaves)
  }

  // ---- looking up in the option list ----

  predicate Plain(s: string) {
    ' ' !in s && '=' !in s && '\'' !in s && '\t' !in s && '"' !in s
  }

  predicate AllPlain(opts: seq<Opt>) {
    forall o | o in opts :: Plain(o.key) && Plain(o.value)
  }

  /**
   * What the first-occurrence search finds in printed options: the first key or value that
   * contains the name decides, and only a key that ends in the name yields a value.
   */
  function Scan(opts: seq<Opt>, name: string): string {
    if opts == [] then ""
    else if Contains(opts[0].key, name) then
      if Find(opts[0].key, name) + |name| == |opts[0].key| then opts[0].value else ""
    else if Contains(opts[0].value, name) then ""
    else Scan(opts[1..], name)
  }

  lemma UpToStopPlain(a: string, s: string)
    requires Plain(a) && (s == "" || Stop(s[0]))
    ensures UpToStop(a + s) == a
  {
    if a != "" {
      assert (a + s)[1..] == a[1..] + s;
      UpToStopPlain(a[1..], s);
    }
  }

  /** A separator splits the lookup: the part before it first, then the part after it. */
  lemma LookupAcross(a: string, c: char, b: string, name: string)
    requires name != "" && c !in name
    requires !Contains(a, name)
    ensures BondOption(a + [c] + b, name) == BondOption(b, name)
  {
    FindAcross(a, c, b, name);
    if Contains(b, name) {
      var k := Find(b, name) + |name|;
      DropThrough(a, c, b, k);
      LookupAt(b, name, k);
      LookupAt(a + [c] + b, name, |a| + 1 + k);
    }
  }

  lemma LookupAt(s: string, name: string, k: nat)
    requires Contains(s, name) && Find(s, name) + |name| == k
    ensures BondOption(s, name) == ValueAfter(s[k..])
  {
  }

  lemma DropThrough(a: string, c: char, b: string, k: nat)
    requires k <= |b|
    ensures (a + [c] + b)[|a| + 1 + k..] == b[k..]
  {
  }

  lemma LookupKey(o: Opt, tail: string, name: string)
    requires Plain(o.key) && Plain(o.value) && name != "" && Plain(name)
    requires Contains(o.key, name) && tail != "" && Stop(tail[0])
    ensures BondOption(o.key + "=" + (o.value + tail), name)
         == if Find(o.key, name) + |name| == |o.key| then o.value else ""
  {
    var b := o.value + tail;
    FindAcross(o.key, '=', b, name);
    var j := Find(o.key, name) + |name|;
    DropBefore(o.key, '=', b, j);
    if j == |o.key| {
      UpToStopPlain(o.value, tail);
    }
  }

  lemma DropBefore(a: string, c: char, b: string, j: nat)
    requires j <= |a|
    ensures (a + [c] + b)[j..] == a[j..] + [c] + b
    ensures (a + [c] + b)[j] == if j == |a| then c else a[j]
    ensures (a + [c] + b)[j..][0] == (a + [c] + b)[j]
    ensures j == |a| ==> (a + [c] + b)[j..][1..] == b
  {
  }

  lemma LookupValue(o: Opt, tail: string, name: string)
    requires Plain(o.value) && name != "" && Plain(name)
    requires Contains(o.value, name) && tail != "" && Stop(tail[0])
    ensures BondOption(o.value + tail, name) == ""
  {
    assert o.value + tail == o.value + [tail[0]] + tail[1..];
    FindAcross(o.value, tail[0], tail[1..], name);
    var j := Find(o.value, name) + |name|;
    assert (o.value + tail)[j..][0] == if j == |o.value| then tail[0] else o.value[j];
  }

  lemma LookupOpt(o: Opt, tail: string, name: string)
    requires Plain(o.key) && Plain(o.value) && name != "" && Plain(name)
    requires tail != "" && Stop(tail[0]) && tail[0] !in name
    ensures BondOption(" " + (o.key + "=" + (o.value + tail)), name)
         == if Contains(o.key, name) then
              if Find(o.key, name) + |name| == |o.key| then o.value else ""
            else if Contains(o.value, name) then ""
            else BondOption(tail, name)
  {
    var v := o.value + tail;
    LookupBlank(' ', o.key + "=" + v, name);
    if Contains(o.key, name) {
      LookupKey(o, tail, name);
    } else {
      LookupAcross(o.key, '=', v, name);
      if Contains(o.value, name) {
        LookupValue(o, tail, name);
      } else {
        LookupSkip(o.value, tail, name);
      }
    }
  }

  lemma LookupSkip(a: string, tail: string, name: string)
    requires name != "" && tail != "" && tail[0] !in name && !Contains(a, name)
    ensures BondOption(a + tail, name) == BondOption(tail, name)
  {
    LookupAcross(a, tail[0], tail[1..], name);
    LookupBlank(tail[0], tail[1..], name);
    FirstApart(tail);
    Assoc(a, [tail[0]], tail[1..]);
  }

  lemma FirstApart(s: string)
    requires s != ""
    ensures s == [s[0]] + s[1..]
  {
  }

  lemma LookupBlank(c: char, b: string, name: string)
    requires name != "" && c !in name
    ensures BondOption([c] + b, name) == BondOption(b, name)
  {
    LookupAcross("", c, b, name);
    assert "" + [c] + b == [c] + b;
  }

  lemma {:induction false} LookupGlued(opts: seq<Opt>, name: string)
    requires AllPlain(opts) && name != "" && Plain(name)
    ensures BondOption(Glue(opts), name) == Scan(opts, name)
  {
    if opts == [] {
      Foreign("'", name, name[0]);
    } else {
      assert opts[0] in opts;
      LookupOpt(opts[0], Glue(opts[1..]), name);
      LookupGlued(opts[1..], name);
    }
  }

  /** Looking up a name in the printed text of a bond scans its option list. */
  lemma LookupPrinted(b: Bond, name: string)
    requires AllPlain(Options(b)) && name != "" && Plain(name)
    ensures BondOption(Print(b), name) == Scan(Options(b), name)
  {
    LookupGlued(Options(b), name);
    if b.mode.Some? {
      assert Options(b)[1..] == AfterMode(b);
      var s := "mode" + "=" + (b.mode.value + Glue(AfterMode(b)));
      LookupBlank('\'', s, name);
      LookupBlank(' ', s, name);
    } else {
      assert Options(b) == AfterMode(b);
      LookupBlank('\'', Glue(AfterMode(b)), name);
    }
  }

  // ---- no key hides in another key or in a value ----

  const KEYS := ["mode", "primary", "miimon", "downdelay", "updelay", "use_carrier",
                 "arp_interval", "arp_ip_target", "arp_validate"]

  lemma NoMode(k: string)
    requires k in KEYS && k != "mode"
    ensures !Contains(k, "mode")
  {
    if 'm' in k { Foreign(k, "mode", 'e'); } else { Foreign(k, "mode", 'm'); }
  }

  lemma NoPrimary(k: string)
    requires k in KEYS && k != "primary"
    ensures !Contains(k, "primary")
  {
    if 'm' in k { Foreign(k, "primary", 'p'); } else { Foreign(k, "primary", 'm'); }
  }

  lemma NoMiimon(k: string)
    requires k in KEYS && k != "miimon"
    ensures !Contains(k, "miimon")
  {
    if k == "mode" {
      Foreign(k, "miimon", 'i');
    } else if k == "primary" {
      Foreign(k, "miimon", 'n');
    } else {
      Foreign(k, "miimon", 'm');
    }
  }

  lemma NoDowndelay(k: string)
    requires k in KEYS && k != "downdelay"
    ensures !Contains(k, "downdelay")
  {
    Foreign(k, "downdelay", 'w');
  }

  lemma NoUpdelay(k: string)
    requires k in KEYS && k != "updelay"
    ensures !Contains(k, "updelay")
  {
    if 'd' in k { Foreign(k, "updelay", 'u'); } else { Foreign(k, "updelay", 'd'); }
  }

  lemma NoUseCarrier(k: string)
    requires k in KEYS && k != "use_carrier"
    ensures !Contains(k, "use_carrier")
  {
    Foreign(k, "use_carrier", 's');
  }

  lemma NoArpInterval(k: string)
    requires k in KEYS && k != "arp_interval"
    ensures !Contains(k, "arp_interval")
  {
    if 'n' in k { Foreign(k, "arp_interval", 'r'); } else { Foreign(k, "arp_interval", 'n'); }
  }

  lemma NoArpIpTarget(k: string)
    requires k in KEYS && k != "arp_ip_target"
    ensures !Contains(k, "arp_ip_target")
  {
    Foreign(k, "arp_ip_target", 'g');
  }

  lemma NoArpValidate(k: string)
    requires k in KEYS && k != "arp_validate"
    ensures !Contains(k, "arp_validate")
  {
    if 'd' in k { Foreign(k, "arp_validate", 'r'); } else { Foreign(k, "arp_validate", 'd'); }
  }

  lemma KeysApart(k: string, key: string)
    requires k in KEYS && key in KEYS && k != key
    ensures !Contains(k, key)
  {
    if key == "mode" { NoMode(k); }
    else if key == "primary" { NoPrimary(k); }
    else if key == "miimon" { NoMiimon(k); }
    else if key == "downdelay" { NoDowndelay(k); }
    else if key == "updelay" { NoUpdelay(k); }
    else if key == "use_carrier" { NoUseCarrier(k); }
    else if key == "arp_interval" { NoArpInterval(k); }
    else if key == "arp_ip_target" { NoArpIpTarget(k); }
    else { NoArpValidate(k); }
  }

  predicate Word(v: string) {
    v in MODES || v in VALIDATE
  }

  predicate WordChar(c: char) {
    ('a' <= c <= 'z' && c != 'm' && c != 'w') || '0' <= c <= '9' || c == '.' || c == '-'
  }

  lemma WordChars(v: string)
    requires Word(v)
    ensures forall c | c in v :: WordChar(c)
  {
  }

  lemma WordPlain(v: string)
    requires Word(v)
    ensures Plain(v) && '_' !in v && 'm' !in v && 'w' !in v
  {
    WordChars(v);
    assert WordChar('m') == WordChar('w') == WordChar('_') == false;
    assert WordChar(' ') == WordChar('=') == WordChar('\'') == WordChar('\t') == WordChar('"') == false;
  }

  lemma WordNotBoth(v: string)
    requires Word(v)
    ensures !('d' in v && 'u' in v)
  {
  }

  lemma WordsApart(v: string, key: string)
    requires Word(v) && key in KEYS
    ensures !Contains(v, key)
  {
    WordPlain(v);
    WordNotBoth(v);
    if key in ["mode", "primary", "miimon"] {
      Foreign(v, key, 'm');
    } else if key == "downdelay" {
      Foreign(v, key, 'w');
    } else if key == "updelay" {
      if 'd' in v { Foreign(v, key, 'u'); } else { Foreign(v, key, 'd'); }
    } else {
      Foreign(v, key, '_');
    }
  }

  lemma NumeralsApart(v: string, key: string)
    requires (Digits(v) || QuadChars(v)) && key in KEYS
    ensures !Contains(v, key) && Plain(v)
  {
    assert 'a' <= key[0] <= 'z';
    assert key[0] in key;
    Foreign(v, key, key[0]);
  }

  // ---- what a lookup in the printed options of a valid bond returns ----

  function ValueOf(opts: seq<Opt>, key: string): string {
    if opts == [] then "" else if opts[0].key == key then opts[0].value else ValueOf(opts[1..], key)
  }

  /** An option whose value cannot be mistaken for a key. */
  predicate Tame(o: Opt) {
    o.key in KEYS && (Digits(o.value) || QuadChars(o.value) || Word(o.value))
  }

  lemma TameApart(o: Opt, key: string)
    requires Tame(o) && key in KEYS
    ensures Plain(o.value) && !Contains(o.value, key)
    ensures o.key != key ==> !Contains(o.key, key)
  {
    if Word(o.value) {
      WordPlain(o.value);
      WordsApart(o.value, key);
    } else {
      NumeralsApart(o.value, key);
    }
    if o.key != key {
      KeysApart(o.key, key);
    }
  }

  lemma {:induction false} ScanTame(opts: seq<Opt>, key: string)
    requires (forall o | o in opts :: Tame(o)) && key in KEYS
    ensures Scan(opts, key) == ValueOf(opts, key)
  {
    if opts != [] {
      assert opts[0] in opts;
      TameApart(opts[0], key);
      ScanTame(opts[1..], key);
    }
  }

  ghost predicate AllTame(opts: seq<Opt>) {
    forall o | o in opts :: Tame(o)
  }

  lemma PairTame(key: string, value: Option<string>)
    requires key in KEYS && (value.Some? ==> Tame(Opt(key, value.value)))
    ensures AllTame(Pair(key, value))
  {
  }

  lemma JoinTame(a: seq<Opt>, b: seq<Opt>)
    requires AllTame(a) && AllTame(b)
    ensures AllTame(a + b)
  {
  }

  lemma MiimonTame(m: Miimon)
    requires ValidMiimon(m)
    ensures AllTame(MiimonOpts(m))
  {
    PairTame("miimon", Some(m.freq));
    PairTame("downdelay", m.downdelay);
    PairTame("updelay", m.updelay);
    PairTame("use_carrier", Carrier(m));
    JoinTame(Pair("updelay", m.updelay), Pair("use_carrier", Carrier(m)));
    JoinTame(Pair("downdelay", m.downdelay), Pair("updelay", m.updelay) + Pair("use_carrier", Carrier(m)));
  }

  lemma ArpmonTame(a: Arpmon)
    requires ValidArpmon(a)
    ensures AllTame(ArpmonOpts(a))
  {
    PairTame("arp_interval", Some(a.interval));
    PairTame("arp_ip_target", Some(a.target));
    PairTame("arp_validate", a.validate);
    JoinTame(Pair("arp_ip_target", Some(a.target)), Pair("arp_validate", a.validate));
  }

  lemma OptionsTame(b: Bond)
    requires ValidBond(b)
    ensures AllTame(Pair("mode", b.mode) + Monitor(b))
    ensures Primary(b).Some? ==> DeviceName(Primary(b).value)
  {
    if b.miimon.Some? {
      MiimonTame(b.miimon.value);
    }
    if b.arpmon.Some? {
      ArpmonTame(b.arpmon.value);
    }
    PairTame("mode", b.mode);
    JoinTame(Pair("mode", b.mode), Monitor(b));
    assert b.slaves[0] in b.slaves;
  }

  predicate KeyChar(c: char) {
    'a' <= c <= 'z' || c == '_'
  }

  lemma KeyChars(key: string)
    requires key in KEYS
    ensures key != "" && forall c | c in key :: KeyChar(c)
  {
  }

  lemma KeyPlain(key: string)
    requires key in KEYS
    ensures key != "" && Plain(key)
  {
    KeyChars(key);
    assert KeyChar(' ') == KeyChar('=') == KeyChar('\'') == KeyChar('\t') == KeyChar('"') == false;
  }

  lemma NamePlain(name: string)
    requires DeviceName(name)
    ensures Plain(name)
  {
  }

  lemma OptionsPlain(b: Bond)
    requires ValidBond(b)
    ensures AllPlain(Options(b))
  {
    OptionsTame(b);
    forall o | o in Options(b)
      ensures Plain(o.key) && Plain(o.value)
    {
      if o in Pair("mode", b.mode) + Monitor(b) {
        KeyPlain(o.key);
        TameApart(o, "mode");
      } else {
        assert o == Opt("primary", Primary(b).value);
        NamePlain(o.value);
      }
    }
  }

  const MONITOR_KEYS :=
    ["miimon", "downdelay", "updelay", "use_carrier", "arp_interval", "arp_ip_target", "arp_validate"]

  lemma {:induction false} ValueOfAbsent(opts: seq<Opt>, key: string)
    requires forall o | o in opts :: o.key != key
    ensures ValueOf(opts, key) == ""
  {
    if opts != [] {
      assert opts[0] in opts;
      ValueOfAbsent(opts[1..], key);
    }
  }

  lemma MonitorKeys(b: Bond)
    ensures forall o | o in Monitor(b) :: o.key in MONITOR_KEYS
  {
    if b.miimon.Some? {
      MiimonKeys(b.miimon.value);
    }
    if b.arpmon.Some? {
      ArpmonKeys(b.arpmon.value);
    }
  }

  lemma MiimonKeys(m: Miimon)
    ensures forall o | o in MiimonOpts(m) :: o.key in MONITOR_KEYS
  {
  }

  lemma ArpmonKeys(a: Arpmon)
    ensures forall o | o in ArpmonOpts(a) :: o.key in MONITOR_KEYS
  {
  }

  lemma KeyKinds(key: string)
    requires key in KEYS
    ensures key in MONITOR_KEYS <==> key != "mode" && key != "primary"
  {
  }

  lemma LookupScan(b: Bond, key: string)
    requires ValidBond(b) && key in KEYS
    ensures BondOption(Print(b), key)
         == if b.mode.Some? && key == "mode" then b.mode.value else Scan(AfterMode(b), key)
  {
    OptionsTame(b);
    OptionsPlain(b);
    KeyPlain(key);
    LookupPrinted(b, key);
    if b.mode.Some? {
      var o := Opt("mode", b.mode.value);
      assert Options(b)[0] == o && Options(b)[1..] == AfterMode(b);
      assert o in Pair("mode", b.mode) + Monitor(b);
      TameApart(o, key);
    } else {
      assert Options(b) == AfterMode(b);
    }
  }

  lemma ScanMonitor(b: Bond, key: string)
    requires ValidBond(b) && key in KEYS
    ensures Scan(Monitor(b), key) == if key in MONITOR_KEYS then ValueOf(Monitor(b), key) else ""
  {
    OptionsTame(b);
    ScanTame(Monitor(b), key);
    MonitorKeys(b);
    if key !in MONITOR_KEYS {
      ValueOfAbsent(Monitor(b), key);
    }
  }

  /**
   * bond_option on the printed text: mode and primary always come back; a later option does, unless
   * the name of the primary slave contains its key.
   */
  lemma LookupBond(b: Bond, key: string)
    requires ValidBond(b) && key in KEYS
    ensures BondOption(Print(b), key)
         == if key == "mode" then (if b.mode.Some? then b.mode.value else "")
            else if key == "primary" then (if Primary(b).Some? then Primary(b).value else "")
            else if Primary(b).Some? && Contains(Primary(b).value, key) then ""
            else ValueOf(Monitor(b), key)
  {
    LookupScan(b, key);
    ScanAfterMode(b, key);
    ScanMonitor(b, key);
    KeyKinds(key);
  }

  lemma ScanAfterMode(b: Bond, key: string)
    requires ValidBond(b) && key in KEYS
    ensures Scan(AfterMode(b), key)
         == if Primary(b).Some? && key == "primary" then Primary(b).value
            else if Primary(b).Some? && Contains(Primary(b).value, key) then ""
            else Scan(Monitor(b), key)
  {
    if Primary(b).Some? {
      assert AfterMode(b)[0] == Opt("primary", Primary(b).value) && AfterMode(b)[1..] == Monitor(b);
      if key != "primary" {
        KeysApart("primary", key);
      }
    } else {
      assert AfterMode(b) == Monitor(b);
    }
  }

  // ---- the round trip of the options ----

  /** No key of opts is inside the name. */
  predicate Clear(opts: seq<Opt>, name: string) {
    forall o | o in opts :: !Contains(name, o.key)
  }

  /** No option printed after the primary has its key inside the primary's name. */
  predicate PrimaryClear(b: Bond) {
    Primary(b).Some? ==> Clear(Monitor(b), Primary(b).value)
  }

  lemma ClearPair(k: string, v: Option<string>, rest: seq<Opt>, name: string)
    ensures Clear(Pair(k, v) + rest, name) <==> (v.Some? ==> !Contains(name, k)) && Clear(rest, name)
    ensures Clear(Pair(k, v), name) <==> (v.Some? ==> !Contains(name, k))
  {
    var opts := Pair(k, v) + rest;
    assert forall o | o in rest :: o in opts;
    assert v.Some? ==> Opt(k, v.value) in opts && Opt(k, v.value) in Pair(k, v);
    assert forall o | o in opts :: o in rest || (v.Some? && o == Opt(k, v.value));
  }

  function Cover(hidden: bool, value: string): string {
    if hidden then "" else value
  }

  predicate Kept(value: Option<string>, hidden: bool) {
    value.Some? ==> !hidden
  }

  lemma MiimonKept(m: Miimon, freq: bool, downdelay: bool, updelay: bool, carrier: bool)
    requires ValidMiimon(m)
    ensures ParseMiimon(Cover(freq, m.freq), Cover(downdelay, Value(m.downdelay)),
                        Cover(updelay, Value(m.updelay)), Cover(carrier, Value(Carrier(m)))) == Some(m)
      <==> !freq && Kept(m.downdelay, downdelay) && Kept(m.updelay, updelay) && Kept(m.carrier, carrier)
  {
  }

  lemma ArpmonKept(a: Arpmon, interval: bool, target: bool, validate: bool)
    requires ValidArpmon(a)
    ensures ParseArpmon(Cover(interval, a.interval), Cover(target, a.target), Cover(validate, Value(a.validate)))
         == Some(a)
      <==> !interval && !target && Kept(a.validate, validate)
  {
  }

  predicate Hidden(b: Bond, key: string) {
    Primary(b).Some? && Contains(Primary(b).value, key)
  }

  lemma MiimonClear(b: Bond, m: Miimon)
    requires ValidBond(b) && b.miimon == Some(m)
    ensures PrimaryClear(b) <==>
      !Hidden(b, "miimon") && Kept(m.downdelay, Hidden(b, "downdelay"))
      && Kept(m.updelay, Hidden(b, "updelay")) && Kept(m.carrier, Hidden(b, "use_carrier"))
  {
    assert Monitor(b) == MiimonOpts(m);
    if Primary(b).Some? {
      var name := Primary(b).value;
      var c := Pair("use_carrier", Carrier(m));
      var u := Pair("updelay", m.updelay) + c;
      ClearPair("miimon", Some(m.freq), Pair("downdelay", m.downdelay) + u, name);
      ClearPair("downdelay", m.downdelay, u, name);
      ClearPair("updelay", m.updelay, c, name);
      ClearPair("use_carrier", Carrier(m), [], name);
    }
  }

  lemma ArpmonClear(b: Bond, a: Arpmon)
    requires ValidBond(b) && b.arpmon == Some(a)
    ensures PrimaryClear(b) <==>
      !Hidden(b, "arp_interval") && !Hidden(b, "arp_ip_target") && Kept(a.validate, Hidden(b, "arp_validate"))
  {
    assert Monitor(b) == ArpmonOpts(a);
    if Primary(b).Some? {
      var name := Primary(b).value;
      var v := Pair("arp_validate", a.validate);
      ClearPair("arp_interval", Some(a.interval), Pair("arp_ip_target", Some(a.target)) + v, name);
      ClearPair("arp_ip_target", Some(a.target), v, name);
      ClearPair("arp_validate", a.validate, [], name);
    }
  }

  // ---- the value each key was printed with ----

  lemma ValueOfPair(k: string, v: Option<string>, rest: seq<Opt>, key: string)
    ensures ValueOf(Pair(k, v) + rest, key) == if v.Some? && k == key then v.value else ValueOf(rest, key)
  {
    if v.Some? {
      assert (Pair(k, v) + rest)[1..] == rest;
    } else {
      assert Pair(k, v) + rest == rest;
    }
  }

  function MiimonText(m: Miimon, key: string): string {
    if key == "miimon" then m.freq
    else if key == "downdelay" then Value(m.downdelay)
    else if key == "updelay" then Value(m.updelay)
    else if key == "use_carrier" then Value(Carrier(m))
    else ""
  }

  function ArpmonText(a: Arpmon, key: string): string {
    if key == "arp_interval" then a.interval
    else if key == "arp_ip_target" then a.target
    else if key == "arp_validate" then Value(a.validate)
    else ""
  }

  function MonitorText(b: Bond, key: string): string {
    if b.miimon.Some? then MiimonText(b.miimon.value, key)
    else if b.arpmon.Some? then ArpmonText(b.arpmon.value, key)
    else ""
  }

  lemma MiimonValue(m: Miimon, key: string)
    ensures ValueOf(MiimonOpts(m), key) == MiimonText(m, key)
  {
    var c := Pair("use_carrier", Carrier(m));
    var u := Pair("updelay", m.updelay) + c;
    ValueOfPair("miimon", Some(m.freq), Pair("downdelay", m.downdelay) + u, key);
    ValueOfPair("downdelay", m.downdelay, u, key);
    ValueOfPair("updelay", m.updelay, c, key);
  }

  lemma ArpmonValue(a: Arpmon, key: string)
    ensures ValueOf(ArpmonOpts(a), key) == ArpmonText(a, key)
  {
    var v := Pair("arp_validate", a.validate);
    ValueOfPair("arp_interval", Some(a.interval), Pair("arp_ip_target", Some(a.target)) + v, key);
    ValueOfPair("arp_ip_target", Some(a.target), v, key);
  }

  /** A lookup of a monitor key: the text it was printed with, unless the primary's name hides it. */
  lemma LookupMonitor(b: Bond, key: string)
    requires ValidBond(b) && key in MONITOR_KEYS
    ensures BondOption(Print(b), key) == Cover(Hidden(b, key), MonitorText(b, key))
  {
    assert key in KEYS;
    KeyKinds(key);
    LookupBond(b, key);
    if b.miimon.Some? {
      assert Monitor(b) == MiimonOpts(b.miimon.value);
      MiimonValue(b.miimon.value, key);
    } else if b.arpmon.Some? {
      assert Monitor(b) == ArpmonOpts(b.arpmon.value);
      ArpmonValue(b.arpmon.value, key);
    }
  }

  lemma MiimonBack(b: Bond)
    requires ValidBond(b)
    ensures var m := Parse(Print(b), b.slaves).miimon;
      b.miimon.Some? ==> (m == b.miimon <==> PrimaryClear(b))
    ensures b.miimon.None? ==> Parse(Print(b), b.slaves).miimon == None
  {
    LookupMonitor(b, "miimon");
    LookupMonitor(b, "downdelay");
    LookupMonitor(b, "updelay");
    LookupMonitor(b, "use_carrier");
    if b.miimon.Some? {
      MiimonClear(b, b.miimon.value);
      MiimonKept(b.miimon.value, Hidden(b, "miimon"), Hidden(b, "downdelay"),
                 Hidden(b, "updelay"), Hidden(b, "use_carrier"));
    }
  }

  lemma ArpmonBack(b: Bond)
    requires ValidBond(b)
    ensures var a := Parse(Print(b), b.slaves).arpmon;
      b.arpmon.Some? ==> (a == b.arpmon <==> PrimaryClear(b))
    ensures b.arpmon.None? ==> Parse(Print(b), b.slaves).arpmon == None
  {
    LookupMonitor(b, "arp_interval");
    LookupMonitor(b, "arp_ip_target");
    LookupMonitor(b, "arp_validate");
    if b.arpmon.Some? {
      ArpmonClear(b, b.arpmon.value);
      ArpmonKept(b.arpmon.value, Hidden(b, "arp_interval"), Hidden(b, "arp_ip_target"), Hidden(b, "arp_validate"));
    }
  }

  lemma ModeBack(b: Bond)
    requires ValidBond(b)
    ensures Parse(Print(b), b.slaves).mode == b.mode
  {
    LookupBond(b, "mode");
    if b.mode.Some? {
      assert Word(b.mode.value) && ModeName(b.mode.value) == b.mode.value;
    }
  }

  /** Reading back the printed options gives the bond exactly when its primary's name hides no key. */
  lemma ParsePrint(b: Bond)
    requires ValidBond(b)
    ensures Parse(Print(b), b.slaves) == b <==> PrimaryClear(b)
  {
    ModeBack(b);
    MiimonBack(b);
    ArpmonBack(b);
    var back := Parse(Print(b), b.slaves);
    assert back == b <==> back.miimon == b.miimon && back.arpmon == b.arpmon;
  }
}
