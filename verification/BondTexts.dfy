// The BONDING_OPTS text itself: what util-get.xsl prints, piece by piece, and what bond_option and
// util-put.xsl make of any text, printed or written by hand.
module BondTexts {
  import opened Text
  import opened Document
  import opened BondOpts

  // ---- the printed text ----

  /** One option as it stands after the first. */
  function Word(key: string, value: string): string {
    " " + (key + ("=" + value))
  }

  function OptWord(key: string, value: Option<string>): string {
    if value.Some? then Word(key, value.value) else ""
  }

  function MiimonText(m: Miimon): string {
    Word("miimon", m.freq) + (OptWord("downdelay", m.downdelay) + (OptWord("updelay", m.updelay)
    + match m.carrier
      case None => ""
      case Some(c) => Word("use_carrier", if c == "ioctl" then "0" else if c == "netif" then "1" else "")))
  }

  function ArpmonText(a: Arpmon): string {
    Word("arp_interval", a.interval) + (Word("arp_ip_target", a.target) + OptWord("arp_validate", a.validate))
  }

  function MonitorText(b: Bond): string {
    (if b.miimon.Some? then MiimonText(b.miimon.value) else "")
    + (if b.arpmon.Some? then ArpmonText(b.arpmon.value) else "")
  }

  /** The primary is the first slave, in active-backup mode only. */
  function PrimaryText(b: Bond): string {
    if b.mode != Some("active-backup") then ""
    else Word("primary", if b.slaves == [] then "" else b.slaves[0].name)
  }

  function Words(opts: seq<Opt>): string {
    if opts == [] then "" else Word(opts[0].key, opts[0].value) + Words(opts[1..])
  }

  lemma {:induction false} WordsConcat(a: seq<Opt>, b: seq<Opt>)
    ensures Words(a + b) == Words(a) + Words(b)
  {
    if a == [] {
      NoneBeside(Words(b));
      assert a + b == b;
    } else {
      assert (a + b)[0] == a[0] && (a + b)[1..] == a[1..] + b;
      WordsConcat(a[1..], b);
      Assoc(Word(a[0].key, a[0].value), Words(a[1..]), Words(b));
    }
  }

  lemma {:induction false} GlueWords(opts: seq<Opt>)
    ensures Glue(opts) == Words(opts) + "'"
  {
    if opts != [] {
      GlueWords(opts[1..]);
      GlueOne(opts[0].key, opts[0].value, Glue(opts[1..]));
      Assoc(Word(opts[0].key, opts[0].value), Words(opts[1..]), "'");
    }
  }

  lemma GlueOne(key: string, value: string, rest: string)
    ensures " " + (key + "=" + (value + rest)) == Word(key, value) + rest
  {
  }

  lemma WordsPair(key: string, value: Option<string>)
    ensures Words(Pair(key, value)) == OptWord(key, value)
  {
    if value.Some? {
      var o := Pair(key, value);
      assert o[1..] == [];
      NoneBeside(Word(key, value.value));
    }
  }

  lemma WordsMiimon(m: Miimon)
    ensures Words(MiimonOpts(m)) == MiimonText(m)
  {
    var down, up := Pair("downdelay", m.downdelay), Pair("updelay", m.updelay);
    var carrier := Pair("use_carrier", Carrier(m));
    WordsConcat(Pair("miimon", Some(m.freq)), down + (up + carrier));
    WordsConcat(down, up + carrier);
    WordsConcat(up, carrier);
    WordsPair("miimon", Some(m.freq));
    WordsPair("downdelay", m.downdelay);
    WordsPair("updelay", m.updelay);
    WordsPair("use_carrier", Carrier(m));
  }

  lemma WordsArpmon(a: Arpmon)
    ensures Words(ArpmonOpts(a)) == ArpmonText(a)
  {
    var target, validate := Pair("arp_ip_target", Some(a.target)), Pair("arp_validate", a.validate);
    WordsConcat(Pair("arp_interval", Some(a.interval)), target + validate);
    WordsConcat(target, validate);
    WordsPair("arp_interval", Some(a.interval));
    WordsPair("arp_ip_target", Some(a.target));
    WordsPair("arp_validate", a.validate);
  }

  lemma WordsMonitor(b: Bond)
    ensures Words(Monitor(b)) == MonitorText(b)
  {
    WordsConcat(if b.miimon.Some? then MiimonOpts(b.miimon.value) else [],
                if b.arpmon.Some? then ArpmonOpts(b.arpmon.value) else []);
    if b.miimon.Some? {
      WordsMiimon(b.miimon.value);
    }
    if b.arpmon.Some? {
      WordsArpmon(b.arpmon.value);
    }
  }

  lemma WordsAfterMode(b: Bond)
    ensures Glue(AfterMode(b)) == (PrimaryText(b) + MonitorText(b)) + "'"
  {
    GlueWords(AfterMode(b));
    WordsConcat(Pair("primary", Primary(b)), Monitor(b));
    WordsPair("primary", Primary(b));
    WordsMonitor(b);
  }

  /** The printed text: a quote, then the mode, the primary and the monitoring as far as set, then a quote. */
  lemma PrintText(b: Bond)
    ensures Print(b)
         == "'" + ((if b.mode.Some? then "mode=" + b.mode.value else "") + ((PrimaryText(b) + MonitorText(b)) + "'"))
  {
    WordsAfterMode(b);
    var end := (PrimaryText(b) + MonitorText(b)) + "'";
    if b.mode.Some? {
      ModeFirst(b.mode.value, end);
    } else {
      NoneBeside(end);
    }
  }

  lemma ModeFirst(mode: string, end: string)
    ensures "mode" + "=" + (mode + end) == ("mode=" + mode) + end
  {
  }

  // ---- looking up in any text ----

  predicate NoStop(s: string) {
    forall c | c in s :: c != ' ' && c != '\t' && c != '\'' && c != '"'
  }

  predicate AtStop(s: string) {
    s == "" || s[0] == ' ' || s[0] == '\t' || s[0] == '\'' || s[0] == '"'
  }

  lemma {:induction false} UpToAny(value: string, rest: string)
    requires NoStop(value) && AtStop(rest)
    ensures UpToStop(value + rest) == value
  {
    if value != "" {
      assert value[0] in value;
      assert forall c | c in value[1..] :: c in value;
      assert (value + rest)[1..] == value[1..] + rest;
      UpToAny(value[1..], rest);
    } else {
      assert value + rest == rest;
    }
  }

  lemma DropFront(a: string, b: string)
    ensures (a + b)[|a|..] == b
  {
  }

  /** A lookup gives the value after the first occurrence of the name, up to a blank, tab or quote. */
  lemma OptionMeaning(before: string, name: string, value: string, rest: string)
    requires Find((before + name) + ("=" + (value + rest)), name) == |before|
    requires NoStop(value) && AtStop(rest)
    ensures BondOption((before + name) + ("=" + (value + rest)), name) == value
  {
    var tail := value + rest;
    DropFront(before + name, "=" + tail);
    DropFront("=", tail);
    UpToAny(value, rest);
  }

  /** A name that is not there, or whose first occurrence no "=" follows, has no value. */
  lemma OptionAbsent(s: string, name: string)
    ensures Find(s, name) < 0 ==> BondOption(s, name) == ""
    ensures Find(s, name) >= 0 && !("=" <= s[Find(s, name) + |name|..]) ==> BondOption(s, name) == ""
  {
  }

  // ---- parsing any text ----

  lemma ModeTable(v: string)
    ensures ModeName("0") == "balance-rr" && ModeName("1") == "active-backup" && ModeName("2") == "balance-xor"
    ensures ModeName("3") == "broadcast" && ModeName("4") == "802.3ad" && ModeName("5") == "balance-tlb"
    ensures ModeName("6") == "balance-alb"
    ensures v !in ["0", "1", "2", "3", "4", "5", "6"] ==> ModeName(v) == v
  {
  }

  lemma CarrierTable(v: string)
    ensures CarrierName("0") == "ioctl" && CarrierName("1") == "netif"
    ensures v != "0" && v != "1" ==> CarrierName(v) == ""
  {
  }

  lemma ValidateTable(v: string)
    ensures ValidateName("none") == ValidateName("0") == "none"
    ensures ValidateName("active") == ValidateName("1") == "active"
    ensures ValidateName("backup") == ValidateName("2") == "backup"
    ensures ValidateName("all") == ValidateName("3") == "all"
    ensures v !in ["none", "0", "active", "1", "backup", "2", "all", "3"] ==> ValidateName(v) == ""
  {
  }

  function SetTo(v: string): Option<string> {
    if v == "" then None else Some(v)
  }

  /** Each field is what its key looks up to; an empty value counts as absent. */
  lemma ParseMeaning(opts: string, slaves: seq<Ethernet>)
    ensures var b := Parse(opts, slaves);
      var mode, freq := BondOption(opts, "mode"), BondOption(opts, "miimon");
      var interval := BondOption(opts, "arp_interval");
      b.slaves == slaves
      && b.mode == (if mode == "" then None else Some(ModeName(mode)))
      && (b.miimon.None? <==> freq == "")
      && (b.miimon.Some? ==>
        var m, carrier := b.miimon.value, BondOption(opts, "use_carrier");
        m.freq == freq && m.downdelay == SetTo(BondOption(opts, "downdelay"))
        && m.updelay == SetTo(BondOption(opts, "updelay"))
        && m.carrier == if carrier == "" then None else Some(CarrierName(carrier)))
      && (b.arpmon.None? <==> interval == "")
      && (b.arpmon.Some? ==>
        var a, validate := b.arpmon.value, BondOption(opts, "arp_validate");
        a.interval == interval && a.target == BondOption(opts, "arp_ip_target")
        && a.validate == if validate == "" then None else Some(ValidateName(validate)))
  {
  }
}
