# netcf: a verified model

netcf turns a platform-neutral `<interface>` document into the network configuration of a Linux
distribution and back. This project models the parts that carry that promise and proves what the
stylesheets, the drivers and the transaction script keep of it.

| file | models |
|---|---|
| `Text.dfy`, `Names.dfy` | XPath and C string functions, decimal numerals, byte-wise order, sorting by name |
| `Document.dfy`, `Admitted.dfy` | `<interface>` documents as `data/xml/interface.rng` admits them |
| `IpCalc.dfy` | netmasks and prefixes (`src/xslt_ext.c`) |
| `BondOpts.dfy`, `BondTexts.dfy` | printing, searching and parsing `BONDING_OPTS`; the printed text and the parser's tables spelled out |
| `RedHat.dfy`, `RedHatAddressing.dfy`, `RedHatImage.dfy`, `RedHatRoundTrip.dfy` | the Red Hat stylesheets and their round trip |
| `RedHatCompiled.dfy`, `RedHatRead.dfy` | what the Red Hat stylesheets write for any document, and read from any tree, label by label |
| `RedHatStore.dfy`, `RedHatStoreProofs.dfy`, `RedHatUndo.dfy` | the ifcfg store under define and undefine |
| `RedHatAliases.dfy` | the modprobe aliases that define sets and undefine removes |
| `RedHatListing.dfy`, `RedHatLookup.dfy`, `RedHatSorted.dfy`, `RedHatDescribe.dfy` | listing, lookup and xml_desc over the store |
| `Tables.dfy` | the transform tables and the load settings they make |
| `Driver.dfy` | disk, Augeas tree, flags and transform tables as the state of a class; the API calls |
| `Transaction.dfy` | begin, commit and rollback of the configuration files, with failing file operations |
| `Debian.dfy`, `DebianAddressing.dfy`, `DebianImage.dfy`, `DebianRoundTrip.dfy`, `DebianListing.dfy` | the Debian stylesheets, their round trip, and the Debian listing |
| `DebianNodes.dfy`, `DebianCompiled.dfy`, `DebianOrder.dfy`, `DebianRead.dfy` | what the Debian stylesheets write for any document, and read from any stanzas, label by label |
| `LiveState.dfy`, `LiveStateDetail.dfy` | the builder that describes running interfaces in a mutable document, and each kind of description spelled out |
| `Tokenizer.dfy` | the in-place tokenizer of `ncftool` |

How the results fit together:

- **Red Hat round trip.** For documents that name no device twice: a compiled document is read back as
  an image that is written down explicitly (`PutGet`), and the image is the document exactly when a
  condition on the document holds (`RoundTrip`): VLANs are named base.tag with a dot-free base, IPv4 prefixes are in 1..31 and
  written without leading zeros, every IPv6 address has a prefix, an IPv6 route comes with an
  address, IPv6 dhcp has no peerdns, and no bond is misread because of the name of its primary.
  That last condition (`BondOpts.PrimaryClear`) says when a lookup that stops at the first
  occurrence of an option name, without trying the next, still finds every option.
- **Store.** A document is covered when every device it writes is among its name attributes, so that
  define removes it before writing. A VLAN is written under base.tag but removed under its name, which
  the schema leaves optional and free, so a misnamed VLAN is not covered. Define keeps every well-formed
  store well-formed (no tree is enslaved to a device that is not there) if and only if the document is
  covered; through every run of undefines and of defines of covered documents stores stay well-formed;
  the fourth clause of rm_interface is shown to be necessary. From every store, define followed by
  xml_desc of the root gives the document with its enslaved children sorted, and nothing stale, if and
  only if the document is covered. Define is idempotent exactly for covered documents and root VLANs.
  Undefine of the device undoes define on names the store does not know, whatever the VLANs are called.
- **Texts and labels.** Beside the round trips, which would not notice a label or a command that both
  stylesheets got wrong alike, what is written for a document and what is read from files written by hand
  is stated label by label, with the texts themselves.
- **Driver.** Every step may fail. The transform tables in use are what the successful adds and removes
  make of them. The disk is written only by a save; unless a save was torn, the disk after any run of
  calls is what the saved calls alone make of it. A tree is loaded at most once per call, so pending
  edits are never dropped, and the first load of a call gives the disk. When no operation fails, every
  call has the effect its arguments and the disk call for. The load settings hold the path of every
  entry of a table in use, with the value of the last entry that sets it.
- **Transaction.** If a rollback returns 0, the managed files are those at begin, whatever edits and
  failures came between. The history of a rollback is a chain of single file operations from the state
  it found to the state it left; at each moment of it every file of the snapshot is still in place or
  still in the snapshot, and the archive is complete before the configuration or the snapshot changes.
- **Debian.** As for Red Hat: an explicit image, and the exact condition under which the document
  comes back.

The order of the two protocols is kept as a flag of `Addressing`; `Normal` and `Canonical` say where
it is forgotten. The position of `route` among `ip` elements is not represented.

Where code and comments or intent differ, the model follows the code:

- `ipcalc_prefix` rejects only a negative result of inet_pton, so a netmask that is no address goes
  on with an unset variable (src/xslt_ext.c:111-116). The model reports the fault `NetmaskUndefined`.
- `ipcalc_netmask` with prefix 32 shifts a 32-bit operand by 32 (src/xslt_ext.c:75), which C leaves
  undefined. The model reports `ShiftUndefined`, so prefix 32 is outside the round trip.
- Failures of `rm` while old archives are pruned set `rollback_ret` in a subshell and are lost
  (src/netcf-transaction.init.sh:92-101); a commit returns 0 even when `rm` fails (74-77).
- `debian-put.xsl` compares the text of a node instead of its value, so a carrier is read back as
  `ioctl` always (data/xml/debian-put.xsl:248-253), and it looks for IPv4 after IPv6 under family
  `inet4`, which is never written (data/xml/debian-put.xsl:84). Both are part of the exact condition.
- `interface_deps` takes a list that is just `none` for no names, also when a device has that name.

## Model

| member | source | states |
|---|---|---|
| Admitted.NameAdmitted | data/xml/interface.rng:420-424 | the device names the theorems admit are the texts of the schema's pattern |
| Admitted.ModeAdmitted | data/xml/interface.rng:148-162 | the seven bonding modes of the schema |
| Admitted.MiimonAdmitted | data/xml/interface.rng:182-202 | numbers, and the two carriers |
| Admitted.ArpmonAdmitted | data/xml/interface.rng:203-216 | a number, a dotted target, and the four validate values |
| Admitted.BondAdmitted | data/xml/interface.rng:146-225 | a slave at least, and one kind of monitoring at most |
| Admitted.AddressingAdmitted | data/xml/interface.rng:297-346 | an IPv4 prefix up to 32; IPv6 addresses of the schema's characters |
| IpCalc.IpcalcPrefix | src/xslt_ext.c:118-121 | the loop, testing with masks that wrap to 32 bits, gives 32 minus the number of trailing zero bits, and 0 only for the zero mask |
| IpCalc.LowBitsZero | src/xslt_ext.c:118-121 | the remainder by 2^k is zero, for every k up to 32, exactly when k zeros trail |
| IpCalc.BitAnd | src/xslt_ext.c:119 | a bit of a & b is set exactly when it is set in both |
| IpCalc.LowMaskValue | src/xslt_ext.c:119 | (2 << i) - 1 in 32 bits is the mask of the low i + 1 bits for every i of the loop, also where the shift reaches the sign bit (i = 30) or leaves the word (i = 31) |
| IpCalc.MaskedTest | src/xslt_ext.c:118-121 | the and with that mask is zero exactly when the low i + 1 bits are clear, that is when i + 1 zeros trail |
| IpCalc.PrefixOfNetmask | src/xslt_ext.c:75 | prefix after netmask is the identity on 1..31 |
| IpCalc.NetmaskOfPrefix | src/xslt_ext.c:92-134 | netmask after prefix gives the mask back exactly when its ones are contiguous |
| IpCalc.ParseQuadOfQuad | src/xslt_ext.c:77-84 | the dotted form of every 32-bit mask is read back as that mask |
| RedHatCompiled.NetmaskBits | src/xslt_ext.c:75 | the netmask of a prefix from 1 to 31 has its first prefix bits set and no others |
| RedHatCompiled.QuadBytes | src/xslt_ext.c:77-84 | the dotted form of a mask is its four bytes in decimal, highest first, with dots between |
| RedHatRead.ReadQuad | src/xslt_ext.c:111-116 | the texts read as masks are exactly the dotted forms, each as its own mask |
| BondOpts.BondOptionLoop | src/xslt_ext.c:138-170 | the pointer loop computes the lookup function: first occurrence only, value up to a blank or quote |
| BondOpts.EndOfValue | src/xslt_ext.c:161-163 | the value is the longest stretch without blank, tab or quote |
| BondOpts.LookupPrinted | data/xml/util-get.xsl:5-25 | in printed options any name is decided by the first key or value that contains it |
| BondOpts.KeysApart | data/xml/util-put.xsl:7-51 | no option key occurs inside another, so a search never stops inside a wrong key |
| BondOpts.LookupBond | data/xml/util-put.xsl:7-51 | looking up each key in the printed options of a valid bond gives its field, or nothing when absent or hidden by the name of the primary |
| BondOpts.ParsePrint | data/xml/util-put.xsl:7-51 | parsing the printed options gives the bond back exactly when the primary's name hides no option that is set |
| BondTexts.PrintText | data/xml/util-get.xsl:5-25 | the printed text of every bond, word by word: quotes around mode, primary, and the monitoring that is set |
| BondTexts.OptionMeaning | src/xslt_ext.c:149-166 | in any text the lookup of a name gives what follows its first occurrence and an equals sign, up to a blank, tab or quote |
| BondTexts.OptionAbsent | src/xslt_ext.c:149-160 | a name that does not occur, or is not followed by an equals sign where it first does, has no value |
| BondTexts.ModeTable | data/xml/util-put.xsl:12-23 | the digits 0 to 6 stand for the seven modes; any other text is kept |
| BondTexts.CarrierTable | data/xml/util-put.xsl:30-35 | 0 is read as ioctl, 1 as netif |
| BondTexts.ValidateTable | data/xml/util-put.xsl:40-48 | the four validate names, and the digits 0 to 3 for them |
| BondTexts.ParseMeaning | data/xml/util-put.xsl:7-51 | each attribute is what its own key looks up to, whatever the text |
| RedHatAddressing.PutIPv4Get | data/xml/redhat-put.xsl:172-206 | IPv4 nodes are read back with the prefix as a canonical numeral |
| RedHatAddressing.PutIPv6Get | data/xml/redhat-put.xsl:208-260 | IPv6 nodes are read back: addresses in order out of the quoted list, route only with an address, dhcp without peerdns |
| RedHatAddressing.AddressingFixed | data/xml/redhat-get.xsl:175-243 | addressing compiles and comes back unchanged exactly under the stated condition |
| RedHatRoundTrip.PutRealised | data/xml/redhat-put.xsl:21-136 | any forest, in any order, whose links stand for a document is rebuilt into exactly one interface, the image of that document |
| RedHatRoundTrip.GetRealises | data/xml/redhat-get.xsl:27-135 | for a document that names no device twice, the compiled forest has the right links: one root, ports and slaves in order, nothing else matches a template |
| RedHatRoundTrip.PutGet | data/xml/redhat-put.xsl:21-136 | for a document that names no device twice, put(get(D)) is one interface, the image of D, with nesting, child order, start mode, MTU, MAC, addressing and bond options |
| RedHatRoundTrip.RoundTrip | data/xml/redhat-get.xsl:27-135 | among the documents that name no device twice, D compiles and put(get(D)) = D, up to protocol order, if and only if D meets the condition |
| RedHatCompiled.CompiledStart | data/xml/redhat-get.xsl:160-173 | every tree has ONBOOT yes exactly for onboot, else no, and HOTPLUG yes exactly for hotplug |
| RedHatCompiled.CompiledMtu | data/xml/redhat-get.xsl:145-149 | every tree has the MTU of the document unless that is empty |
| RedHatCompiled.CompiledDevice | data/xml/redhat-get.xsl:101-109 | DEVICE is the name of the file, and SLAVE yes stands exactly beside a MASTER |
| RedHatCompiled.CompiledRoot | data/xml/redhat-get.xsl:27-135 | the file, type, address and own labels of the first tree, for each kind of root |
| RedHatCompiled.CompiledBelow | data/xml/redhat-get.xsl:79-109 | no other tree has addressing or bridge labels |
| RedHatCompiled.CompiledPort | data/xml/redhat-get.xsl:79-95 | each port has a tree with its file, its bridge and the labels of its kind |
| RedHatCompiled.CompiledSlave | data/xml/redhat-get.xsl:101-109 | each slave of each bond has a tree with its file, its address and its master |
| RedHatCompiled.CompiledDhcp | data/xml/redhat-get.xsl:184-191 | no IPv4 label without IPv4, only BOOTPROTO and PEERDNS with dhcp |
| RedHatCompiled.CompiledStatic | data/xml/redhat-get.xsl:192-201 | BOOTPROTO none, the address, the dotted mask of the prefix, the gateway |
| RedHatCompiled.CompilesWhen | src/xslt_ext.c:66-75 | a document compiles unless a static IPv4 prefix is no number from 1 to 31 |
| RedHatCompiled.CompiledIPv6 | data/xml/redhat-get.xsl:205-243 | the six IPv6 labels; the addresses after the first in one quoted, blank-separated list |
| RedHatRead.ReadDhcp | data/xml/redhat-put.xsl:173-187 | from any labels, dhcp wins over addresses |
| RedHatRead.ReadNoAddress | data/xml/redhat-put.xsl:173-178 | without dhcp and IPADDR there is no IPv4 |
| RedHatRead.ReadPrefix | data/xml/redhat-put.xsl:188-201 | PREFIX, as it stands, comes before NETMASK; address and gateway are carried over |
| RedHatRead.ReadNetmask | data/xml/redhat-put.xsl:194-196 | without PREFIX, the numeral of the length of the mask, or the fault of a mask that does not parse |
| RedHatRead.ReadNoNetmask | data/xml/redhat-put.xsl:190-197 | an empty NETMASK gives an empty prefix, none gives none |
| RedHatRead.ReadAddress | data/xml/redhat-put.xsl:248-256 | address and prefix are what stands before and behind the slash |
| RedHatRead.ReadIPv6 | data/xml/redhat-put.xsl:208-245 | from any labels: IPv6 exactly with IPV6INIT yes, autoconf and dhcp by their labels, the first address, the others, and a gateway only beside IPV6ADDR |
| RedHatRead.ReadSecondaries | data/xml/redhat-put.xsl:223-243 | the further addresses are the blank-separated pieces, quoted or not |
| RedHatRead.ReadEach | data/xml/redhat-put.xsl:238-242 | each piece is one address, in order |
| RedHatRead.SelectedAre | data/xml/redhat-put.xsl:85 | a tree is selected exactly when it is in the forest and its label has the value |
| RedHatRead.SelectInOrder | data/xml/redhat-put.xsl:111-116 | selection keeps the order of the forest |
| RedHatRead.BondMatches | data/xml/redhat-put.xsl:127-128 | a tree is a bond exactly when it has no BRIDGE and some tree has its DEVICE as MASTER |
| RedHatRead.ReadKind | data/xml/redhat-put.xsl:21-136 | which templates match a tree of any labels, and the kind they make of it |
| RedHatRead.ReadCommon | data/xml/redhat-put.xsl:141-170 | start mode, MTU and addressing of any tree |
| RedHatRead.ReadInOrder | data/xml/redhat-put.xsl:12-16 | the interfaces stand in the order of their trees |
| RedHatRead.ReadPort | data/xml/redhat-put.xsl:85-95 | a tree on a bridge is a bond with BONDING_OPTS, a VLAN with VLAN, else an Ethernet interface |
| RedHatRead.ReadPortsInOrder | data/xml/redhat-put.xsl:85-95 | ports stand in the order of their trees |
| RedHatRead.ReadBond | data/xml/redhat-put.xsl:103-118 | options by the parser, slaves with the primary first |
| RedHatRead.ReadSlavesInOrder | data/xml/redhat-put.xsl:111-116 | slaves stand in the order of their trees |
| RedHatRead.ReadSlave | data/xml/redhat-put.xsl:111-116 | a tree counts as a slave of either loop by its DEVICE, with its HWADDR |
| RedHatStoreProofs.RmKeepsWellFormed | src/drv_redhat.c:774-794 | rm_interface leaves no tree with a BRIDGE or MASTER that is gone |
| RedHatStoreProofs.RmAllResult | src/drv_redhat.c:802-826 | afterwards no tree is named by, or enslaved to, a removed name; the others are untouched; well-formedness is kept |
| RedHatStoreProofs.FilesOfGet | data/xml/redhat-get.xsl:140-143 | the files written are named after the devices of the document, in document order |
| RedHatStoreProofs.GetLinked | data/xml/redhat-get.xsl:65-135 | every BRIDGE and MASTER of a compiled forest names a bridge or bond tree of that forest |
| RedHatStoreProofs.DefineKeepsWellFormed | src/drv_redhat.c:863-910 | define of a covered document, one whose every device is a name attribute and so removed first, keeps the store well-formed |
| RedHatStoreProofs.DefineKeepsWellFormedExactly | src/drv_redhat.c:802-826 | for a valid document with distinct devices that compiles and has no unnamed VLAN port, define keeps every well-formed store well-formed if and only if the document is covered |
| RedHatStoreProofs.MisnamedVlan | src/drv_redhat.c:802-826 | the VLAN with name f on base e with tag 5 is valid, and defining it breaks some well-formed store |
| RedHatStoreProofs.NamedCovered | data/xml/interface.rng:64-72 | documents that name every VLAN DEVICE.VLAN, as the schema remarks, are covered |
| RedHatStoreProofs.RunKeepsWellFormed | src/drv_redhat.c:863-932 | every run of undefines and of defines of covered documents keeps the store well-formed |
| RedHatStoreProofs.WellFormedMeaning | src/drv_redhat.c:727-762 | what a well-formed store is, label by label |
| RedHatUndo.NewRelated | src/drv_redhat.c:774-794 | every tree a define wrote is found by the relational query for its root |
| RedHatUndo.OldUnrelated | src/drv_redhat.c:774-794 | no tree that was there before a define is found by that query |
| RedHatUndo.UnknownMeaning | src/drv_redhat.c:863-932 | what it means that a store does not know a document, label by label |
| RedHatUndo.UndefineUndoesDefine | src/drv_redhat.c:912-932 | undefine of the device after define of a document the store does not know, under any VLAN names, restores the files and the modprobe aliases |
| RedHatUndo.UndefineByName | src/drv_redhat.c:690-722 | undefine of the name that define reports does so exactly when that name is the device |
| RedHatUndo.UndefineLeavesRest | src/drv_redhat.c:912-932 | in any store of named files, undefine after define of a covered document leaves exactly the files the define had not removed |
| RedHatUndo.UnaliasUndoesAlias | src/dutil_linux.c:450-466 | removing the alias entries of new bonds restores the aliases |
| RedHatAliases.AliasMeaning | src/dutil_linux.c:411-448 | setting an alias fails exactly when there are several, else leaves one entry, bonding, and the other names alone |
| RedHatAliases.UnaliasMeaning | src/dutil_linux.c:450-466 | removing an alias leaves the entries for other modules and the other names |
| RedHatAliases.OthersKept | src/dutil_linux.c:450-466 | of the entries exactly those for bonding go; the rest keeps its order |
| RedHatAliases.SetupMeaning | src/drv_redhat.c:832-861 | the bonds set up: the interface itself and the interfaces attached to it as a bridge, each if some tree has it as MASTER |
| RedHatAliases.ReportedName | src/drv_redhat.c:690-722 | the name define reports: the name attribute, and base.tag for a VLAN without one |
| RedHatAliases.DefinedAliases | src/drv_redhat.c:832-861 | after define the alias of every name: bonding for those, unchanged for all others |
| RedHatAliases.UndefinedAliases | src/drv_redhat.c:832-861 | after undefine those names have no bonding entry; all others are unchanged |
| RedHatAliases.BondAliased | src/drv_redhat.c:832-845 | a bond defined with a slave has the one alias entry bonding |
| RedHatAliases.PortAliased | src/drv_redhat.c:846-856 | so has every bond that is a port of a bridge defined |
| RedHatAliases.OthersAliased | src/drv_redhat.c:832-861 | a name that is no MASTER keeps its aliases |
| RedHatUndo.DefineUnknown | src/drv_redhat.c:863-910 | on a store that does not know the document, define succeeds exactly when the document compiles and no VLAN port lacks a name |
| RedHatUndo.DefineTwice | src/drv_redhat.c:863-910 | defining a covered document, or a root VLAN of any name, again changes nothing |
| RedHatUndo.DefineTwiceExactly | src/drv_redhat.c:863-910 | from every store, defining twice is the same as defining once if and only if the document is covered or a root VLAN |
| RedHatUndo.FourthClauseNeeded | src/drv_redhat.c:774-794 | without the clause on slaves of enslaved bonds, removal leaves a well-formed store ill-formed |
| RedHatDescribe.RelatedAfterDefine | src/drv_redhat.c:586-608 | after a define the query for the root finds exactly the devices of the document |
| RedHatDescribe.DescForestSorted | src/drv_redhat.c:586-608 | after a define xml_desc reads exactly the compiled trees, sorted by name, and no stale one |
| RedHatSorted.PutSorted | data/xml/redhat-put.xsl:103-118 | the sorted forest is rebuilt into the document with its enslaved children sorted |
| RedHatSorted.SortBondResult | data/xml/redhat-put.xsl:103-118 | sorting keeps the slaves as a multiset; an active-backup bond keeps its first slave first |
| RedHatDescribe.DescribeDefined | src/drv_redhat.c:611-625 | for every store, define of a covered document then xml_desc of the root gives the image of the sorted document |
| RedHatDescribe.DescribeDefinedExactly | src/drv_redhat.c:586-608 | no stale tree leaks into the description, from any store, if and only if the document is covered |
| RedHatDescribe.DescribeRoundTrip | src/drv_redhat.c:863-910 | for every store and every document that names no device twice, xml_desc after define is the sorted document itself if and only if the document round-trips |
| RedHatDescribe.ListingAfterDefine | src/drv_redhat.c:313-339 | in a store of named files, the listing after define of a covered document is the root and the top-level trees the define left alone, sorted |
| RedHatListing.UniqNames | src/drv_redhat.c:244-289 | the dedupe loop and qsort give the strictly sorted list of the distinct names |
| RedHatListing.FindByHwaddr | src/drv_redhat.c:128-164 | of the files with this MAC, ignoring case, the last by path |
| RedHatListing.FindByDevice | src/drv_redhat.c:169-194 | of the files with this DEVICE, the last by path |
| RedHatListing.RemoveSlaves | src/drv_redhat.c:313-339 | the in-place memmove loop filters out the slaves and keeps the order of the rest |
| RedHatListing.ListInterfaces | src/drv_redhat.c:313-339 | the canonical files of the distinct devices, by device name, without slaves |
| RedHatListing.ListInterfaceIds | src/drv_redhat.c:397-449 | fills the array with the first qualifying names, or counts all of them without one |
| RedHatListing.LookupByName | src/drv_redhat.c:460-487 | found exactly when there is a canonical file and it is no slave |
| RedHatListing.ListingTopLevel | src/drv_redhat.c:313-339 | in a store of named files the listing is the strictly sorted list of the unslaved trees |
| RedHatListing.FoundListed | src/drv_redhat.c:460-487 | where HWADDR entries belong to their own devices, lookup succeeds exactly on the listed names |
| RedHatListing.FoundExactly | src/drv_redhat.c:200-238 | in a store of named files, lookup succeeds on the listed names and otherwise exactly for a device without a file whose MAC is the HWADDR of an unslaved tree |
| RedHatListing.ActiveInactive | src/drv_redhat.c:397-449 | active and inactive counts add up to the total |
| RedHatLookup.IgnoringCase | src/drv_redhat.c:128-164 | addresses are compared letter by letter, upper and lower case alike |
| RedHatLookup.NamedFile | src/drv_redhat.c:200-210 | a file of that name stands for the name |
| RedHatLookup.MacFile | src/drv_redhat.c:211-225 | without one, the last file with the MAC of the device |
| RedHatLookup.DeviceFile | src/drv_redhat.c:226-238 | without that, the last file with the name as DEVICE |
| RedHatLookup.NoFile | src/drv_redhat.c:200-238 | there is none exactly when no file has the name, the MAC or the DEVICE |
| RedHatLookup.PathsEndInHwaddr | src/drv_redhat.c:128-164 | the paths compared include the label: of files a and a- with the MAC it is a |
| RedHatLookup.FoundMeaning | src/drv_redhat.c:460-487 | lookup succeeds exactly when the file of the name has neither MASTER nor BRIDGE |
| RedHatLookup.ListedExactly | src/drv_redhat.c:244-339 | in any store a name is listed exactly when it is the DEVICE of the file of some device, and that file has neither MASTER nor BRIDGE |
| RedHatLookup.ListedNamed | src/drv_redhat.c:313-339 | in a store of named files the listing is strictly sorted and holds exactly the names without MASTER and BRIDGE |
| RedHatLookup.QualifyingExactly | src/drv_redhat.c:397-449 | a listed name qualifies exactly when its state is wanted |
| RedHatLookup.QualifyingOrder | src/drv_redhat.c:397-449 | the qualifying names keep their order |
| RedHatLookup.RemovedExactly | src/drv_redhat.c:774-794 | rm_interface removes exactly the device, what is attached or enslaved to it, and the slaves of bonds attached to it |
| RedHatLookup.NamesRemoved | src/drv_redhat.c:802-826 | which names a define removes, for each kind of root |
| RedHatLookup.PortsRemoved | src/drv_redhat.c:802-826 | and for each port: its name attribute, and the slaves of a bond |
| RedHatLookup.DefineSteps | src/drv_redhat.c:863-910 | a define removes name after name and then writes file after file |
| RedHatLookup.RelatedExactly | src/drv_redhat.c:586-608 | the devices described are those of the trees rm_interface would remove |
| RedHatLookup.DescribedTrees | src/drv_redhat.c:586-608 | xml_desc reads, in the order of the device names, the file of each device that rm_interface would remove |
| Tables.PlaceKeepsLive | src/dutil_linux.c:119-146 | adding a table, in a reused or a new slot, loses none of those in use |
| Tables.DropKeepsOthers | src/dutil_linux.c:148-161 | removing a registered table takes away exactly one use of it |
| Tables.LoadSettingsLive | src/dutil_linux.c:183-203 | the load settings are those of the live tables applied in slot order; empty slots do not matter |
| Tables.LoadSettingsHold | src/dutil_linux.c:183-203 | the load settings are exactly the paths of the entries of live tables, each with the value of the last entry that sets it |
| Tables.HeldEntry | src/dutil_linux.c:183-203 | every entry of a live table has its path set, and its value too unless a later slot, or a later entry of its table, sets the path |
| Tables.HeldPath | src/dutil_linux.c:183-203 | every path set is that of an entry of a live table |
| Tables.PlaceFirst | src/dutil_linux.c:119-146 | a table goes to the slot that is free with none free before it, and to the end when none is free |
| Tables.DropFirst | src/dutil_linux.c:148-161 | the slot emptied is the one with the table and no such slot before it |
| Driver.Netcf.AddTable | src/dutil_linux.c:119-146 | the table goes to the first free slot, the one with none free before it, or to a new one when none is free; failure changes nothing |
| Driver.Netcf.RemoveTable | src/dutil_linux.c:148-161 | the first slot with the table, the one with no such slot before it, is emptied |
| Driver.Netcf.CopyTables | src/dutil_linux.c:183-203 | on success each path of an entry of a live table is set to the value of the last such entry, in slot order and then table order, and no other path is set |
| Driver.Netcf.GetAugeas | src/dutil_linux.c:166-230 | on success the settings hold exactly the entries of the live tables, the last entry of a path deciding its value, and the tree is the disk if anything was to be done, else untouched; one load at most |
| Driver.Netcf.ApiEntry | src/internal.h:147-153 | errors are cleared and the next get_augeas must load |
| Driver.Netcf.RmAllInterfaces | src/drv_redhat.c:802-826 | removes name after name from the tree without reloading it |
| Driver.Netcf.AugPutXml | src/drv_redhat.c:533-581 | on success the tree is the old one with every compiled file replaced |
| Driver.SetUpNext | src/dutil_linux.c:411-466 | setting up bonds one by one amounts to setting up the set of them |
| Driver.Netcf.BondSetup | src/drv_redhat.c:832-861 | aliases, or unaliases, exactly the bond itself and the bonds enslaved to the bridge |
| Driver.SaveMap | src/drv_redhat.c:893-898 | a save leaves each file old or new, and all of them new when it reports success |
| Driver.MixedMeaning | src/drv_redhat.c:893-898 | after a save that failed half-way every file and every alias entry is the old or the new one |
| Driver.Netcf.Define | src/drv_redhat.c:863-910 | failing before the save leaves the disk unchanged; success makes it what the store model says; loads at most once; an error is set exactly on failure; when no operation fails it succeeds exactly when the store model does |
| Driver.Netcf.Undefine | src/drv_redhat.c:912-932 | the same for undefine, which succeeds when no operation fails |
| Driver.Netcf.XmlDesc | src/drv_redhat.c:611-625 | answers from the disk, whatever edits an earlier failed call left in the tree; when no operation fails it succeeds exactly when the trees can be read |
| Driver.Netcf.AugGetXmlForNif | src/drv_redhat.c:586-608 | the canonical files of the related devices, in order |
| Driver.Netcf.Session | src/drv_redhat.c:863-932 | over any run of calls with failures anywhere: unless a save was torn, the disk is what the saved calls alone make of it, and a well-formed store stays well-formed under covered documents; the tables in use are what the successful adds and removes make of them; when no operation fails, the disk is what all calls make of it and each has the effect it must have |
| Transaction.Host.ChangeBegin | src/netcf-transaction.init.sh:42-65 | refused with 199 exactly when a snapshot is open; status 0 means the snapshot holds every ifcfg-, route- and rule- file as it is, the date, and nothing else |
| Transaction.Host.ChangeCommit | src/netcf-transaction.init.sh:67-78 | refused with 199 exactly when no snapshot is open; otherwise status 0 |
| Transaction.Host.PruneArchives | src/netcf-transaction.init.sh:92-101 | the newest twenty archives are untouched, the others removed unless a removal fails |
| Transaction.Host.Restore | src/netcf-transaction.init.sh:140-167 | one file, cases 1 to 3: restored, removed or reported; every file operation is entered in the history and loses no file |
| Transaction.Host.RestoreCurrent | src/netcf-transaction.init.sh:136-168 | the loop over the current files: the history leads, one operation at a time, from the start of the rollback to the present state, and every moment in it keeps each file of the snapshot |
| Transaction.Host.RestoreMissing | src/netcf-transaction.init.sh:170-180 | case 4: what is left in the snapshot is copied back, with the same history |
| Transaction.Host.ArchiveCurrent | src/netcf-transaction.init.sh:104-119 | the archive is made and filled file by file, before anything else changes; when it succeeds it holds every managed file of the configuration |
| Transaction.Host.ChangeRollback | src/netcf-transaction.init.sh:81-193 | status 0 means the managed files are those of the snapshot and it is gone; a file with none of the three prefixes is never touched; the history is a chain of single file operations from the state found to the state left; at every moment of it no snapshot file is lost, and any moment whose configuration or snapshot differs from the start has the complete archive of what is discarded |
| Transaction.Host.BeginThenRollback | src/netcf-transaction.init.sh:42-193 | begin, any edits, rollback: both status 0 restores every ifcfg-, route- and rule- file, whatever failed between |
| Transaction.Host.Session | src/netcf-transaction.init.sh:42-193 | over any run without file failures, from any state, a command is refused exactly in the wrong state, and the archives are unchanged or at most 21 |
| Transaction.SoundKeeps | src/netcf-transaction.init.sh:136-180 | at every moment of a rollback each ifcfg-, route- and rule- file of the snapshot is in place or still in the snapshot |
| Transaction.SoundArchives | src/netcf-transaction.init.sh:104-119 | once configuration or snapshot differ from the start, the archive holds every ifcfg-, route- and rule- file of the configuration that is discarded |
| Transaction.StepChanges | src/netcf-transaction.init.sh:81-193 | between two moments of a rollback one place changes, and there one file of the configuration or one archive |
| Transaction.NewestCount | src/netcf-transaction.init.sh:92-101 | pruning keeps twenty archives, or all when there are fewer |
| Transaction.NewestOfSorted | src/netcf-transaction.init.sh:92-101 | the archives kept are the last twenty of the sorted list |
| DebianImage.AsElementInjective | data/xml/debian-put.xsl:62-74 | documents with the same elements are the same, so the Debian round trip loses nothing by comparing elements |
| DebianImage.BondBack | data/xml/debian-put.xsl:216-275 | the bond nodes of any stanza are read back as the image of the bond |
| DebianImage.PortsKeyed | data/xml/debian-put.xsl:192-209 | among the port stanzas each name selects exactly its own |
| DebianImage.PortsBack | data/xml/debian-put.xsl:178-214 | for ports with different names, splitting bridge_ports and looking up each stanza gives the ports, in order |
| DebianAddressing.IPv6Back | data/xml/debian-put.xsl:132-176 | the IPv6 nodes, with the up commands, are read back as the image |
| DebianRoundTrip.PutGet | data/xml/debian-put.xsl:20-283 | for a document with different stanza names and no unnamed VLAN port, put(get(D)) is the image of D |
| DebianRoundTrip.UnnamedLost | data/xml/debian-put.xsl:191-209 | a bridge with an unnamed VLAN port never comes back |
| DebianRoundTrip.RoundTrip | data/xml/debian-get.xsl:19-219 | among the documents with different stanza names, D compiles and put(get(D)) = D, element for element, if and only if D meets the condition; the VLAN tag is recovered also for dotted base names |
| DebianCompiled.CompiledKey | data/xml/debian-get.xsl:19-31 | the first stanza is named after the interface, and so is the auto entry, there exactly for onboot |
| DebianCompiled.CompilesWhen | data/xml/debian-get.xsl:113-118 | a document compiles exactly when its static IPv4 prefix, if any, is a number from 1 to 31 |
| DebianCompiled.CompiledMisc | data/xml/debian-get.xsl:127-133 | mtu, and hwaddress with the word ether |
| DebianCompiled.CompiledBond | data/xml/debian-get.xsl:161-208 | every label of a bond, also the slaves joined by blanks, the primary and the carrier digit |
| DebianCompiled.CompiledVlan | data/xml/debian-get.xsl:210-212 | vlan_raw_device and no label of a bridge or bond |
| DebianCompiled.CompiledEthernet | data/xml/debian-get.xsl:19-63 | no label of a bridge, bond or VLAN |
| DebianCompiled.CompiledBridge | data/xml/debian-get.xsl:135-159 | the ports joined by blanks, or none; stp and delay |
| DebianCompiled.CompiledManual | data/xml/debian-get.xsl:43-48 | without a protocol the stanza is inet manual |
| DebianCompiled.CompiledFirst | data/xml/debian-get.xsl:65-125 | the first protocol: family, method, address, netmask and gateway, and the commands that add and delete the further IPv6 addresses |
| DebianCompiled.CompiledSecond | data/xml/debian-get.xsl:27-42 | the second protocol in a second stanza of the same name |
| DebianCompiled.CompiledHooks | data/xml/debian-get.xsl:34-40 | the pre-up and post-down commands of the first stanza: autoconf off and on, then ifup and ifdown of the bonds and, with a protocol, VLANs among the ports |
| DebianCompiled.CompiledSecondHooks | data/xml/debian-get.xsl:106-111 | the second stanza has only the commands of its own autoconf |
| DebianCompiled.CompiledPorts | data/xml/debian-get.xsl:55-61 | after them one manual stanza for each VLAN and bond among the ports, in order, with its labels |
| DebianOrder.CompiledInOrder | data/xml/debian-get.xsl:19-63 | in the first stanza every label stands in the place the file format gives it: family, method, addressing, hardware, kind |
| DebianOrder.SecondInOrder | data/xml/debian-get.xsl:27-42 | so it does in the second stanza |
| DebianOrder.PortsInOrder | data/xml/debian-get.xsl:55-61 | and in the stanzas of the ports |
| DebianRead.ReadType | data/xml/debian-put.xsl:24-39 | the type of any stanza by its labels |
| DebianRead.ReadStart | data/xml/debian-put.xsl:41-49 | onboot exactly for names in the auto array |
| DebianRead.ReadMac | data/xml/debian-put.xsl:52-54 | the address behind the six characters of the first hwaddress, when some value starts with ether |
| DebianRead.ReadShortMac | data/xml/debian-put.xsl:52-54 | an empty address when the first hwaddress is shorter than that |
| DebianRead.ReadNoMac | data/xml/debian-put.xsl:52-54 | no address when no value starts with ether |
| DebianRead.ReadMtu | data/xml/debian-put.xsl:55-57 | the first mtu |
| DebianRead.ReadIPv4 | data/xml/debian-put.xsl:89-130 | dhcp, loopback or neither, by the methods |
| DebianRead.ReadStatic | data/xml/debian-put.xsl:109-122 | a static stanza without address, or without netmask |
| DebianRead.ReadNetmask | data/xml/debian-put.xsl:109-122 | a static stanza with netmask: the numeral of its prefix, or the fault |
| DebianRead.ReadIPv6 | data/xml/debian-put.xsl:132-176 | autoconf, dhcp and gateway of any inet6 stanza |
| DebianRead.ReadAddresses | data/xml/debian-put.xsl:141-163 | its addresses: the stanza's, those added by commands, the loopback's |
| DebianRead.ReadCommands | data/xml/debian-put.xsl:149-156 | the commands are read one by one, in order |
| DebianRead.ReadCommand | data/xml/debian-put.xsl:149-156 | a command that adds an address gives what stands before and behind the slash |
| DebianRead.ReadOther | data/xml/debian-put.xsl:149-156 | any other command gives nothing |
| DebianRead.ReadInet | data/xml/debian-put.xsl:78-81 | a first stanza of family inet: its IPv4, and the IPv6 of all inet6 stanzas |
| DebianRead.ReadInet6 | data/xml/debian-put.xsl:82-85 | a first stanza of family inet6: its IPv6, and no IPv4 unless a stanza has family inet4 |
| DebianRead.ReadInet4 | data/xml/debian-put.xsl:84 | stanzas of family inet4 are read in order |
| DebianRead.ReadNoFamily | data/xml/debian-put.xsl:76-87 | no protocol without a family |
| DebianRead.ReadIPv6Stanzas | data/xml/debian-put.xsl:80 | the IPv6 protocols stand in the order of their stanzas |
| DebianRead.ReadMiimon | data/xml/debian-put.xsl:233-258 | the miimon element by its labels; the carrier is always ioctl |
| DebianRead.ReadArpmon | data/xml/debian-put.xsl:260-275 | the arpmon element by its labels |
| DebianRead.ReadBond | data/xml/debian-put.xsl:216-231 | the slaves are the blank-separated names, in order |
| DebianRead.ReadVlan | data/xml/debian-put.xsl:277-283 | the tag is what follows the base and one character of the key |
| DebianRead.ReadNoVlan | data/xml/debian-put.xsl:277-283 | no VLAN without vlan_raw_device |
| DebianRead.ReadBridge | data/xml/debian-put.xsl:178-214 | one port for each name, none for the text none |
| DebianRead.ReadNoBridge | data/xml/debian-put.xsl:178-180 | no bridge without bridge_ports |
| DebianRead.ReadBarePort | data/xml/debian-put.xsl:195-204 | a port without a stanza is an Ethernet interface |
| DebianRead.ReadPort | data/xml/debian-put.xsl:191-209 | a port takes all its parts from the stanza of its name |
| DebianRead.ReadInterface | data/xml/debian-put.xsl:20-22 | the first stanza makes the interface; without stanzas there is none |
| DebianRead.ReadParts | data/xml/debian-put.xsl:62-74 | the other parts of the interface come from that stanza too |
| DebianListing.InterfaceDeps | src/drv_debian.c:126-185 | the do-while loop splits every value at blanks; the value none gives no names |
| DebianListing.DepsBack | src/drv_debian.c:157-178 | splitting inverts the compiler's joining exactly unless none is the only name |
| DebianListing.IsSlave | src/drv_debian.c:234-251 | true exactly for the names in some bridge_ports or bond_slaves |
| DebianListing.HasConfig | src/drv_debian.c:253-263 | true exactly for the listed names |
| DebianListing.ListInterfaces | src/drv_debian.c:318-346 | the strictly sorted distinct names that are in no bridge_ports or bond_slaves |
| DebianListing.ListingCompiled | data/xml/debian-get.xsl:135-184 | of a compiled document with different names only the root is listed, exactly unless its one port is a bond or VLAN named none |
| LiveState.RankFalls | src/dutil_linux.c:1041-1078 | in every acyclic system a measure falls with each step of the recursion, so the builder terminates |
| LiveState.CyclesUnmeasured | src/dutil_linux.c:1041-1078 | only acyclic systems have such a measure |
| LiveState.ChildrenExact | src/dutil_linux.c:936-1025 | below an interface stand exactly the interfaces the system supplies, in order, each described in turn |
| LiveState.SlavesExact | src/dutil_linux.c:987-1025 | the slaves of a bond are exactly the links that name it as their master |
| LiveState.XmlDoc.FindNode | src/dutil.c:358-374 | finds the first child of that name or appends a new one |
| LiveState.XmlDoc.AddEthernetInfo | src/dutil_linux.c:798-845 | writes the first address of the link, once |
| LiveState.XmlDoc.AddVlanInfo | src/dutil_linux.c:853-934 | writes the tag and the interface below of the first usable link, once |
| LiveState.XmlDoc.AddBridgeInfo | src/dutil_linux.c:936-976 | writes one interface for each port, each filled in |
| LiveState.XmlDoc.AddBondInfo | src/dutil_linux.c:987-1038 | makes the bond element for the first slave, finds it for the others, and fills in each |
| LiveState.XmlDoc.AddTypeSpecificInfo | src/dutil_linux.c:1041-1078 | the element becomes the description of the interface, recursively; nothing else in the document changes |
| LiveStateDetail.TypeWritten | src/dutil_linux.c:485-533 | name and type of every description: VLAN before bridge before bond before ethernet |
| LiveStateDetail.EthernetWritten | src/dutil_linux.c:798-845 | the address of the first link of the index that has one |
| LiveStateDetail.EthernetBare | src/dutil_linux.c:798-845 | no address when no link of the index has one |
| LiveStateDetail.BridgeWritten | src/dutil_linux.c:936-976 | a bridge element, with each port described under the index of the first link of its name |
| LiveStateDetail.VlanWritten | src/dutil_linux.c:853-934 | tag and interface below of the first VLAN link that is on an existing link |
| LiveStateDetail.VlanBare | src/dutil_linux.c:853-934 | no vlan element without such a link |
| LiveStateDetail.BondWritten | src/dutil_linux.c:987-1038 | a bond element exactly when there is a slave, with the slaves in the order of the links |
| LiveStateDetail.BondBare | src/dutil_linux.c:1027-1038 | nothing for a bond without a link |
| LiveStateDetail.SlavesInOrder | src/dutil_linux.c:987-1025 | the slaves stand in the order of the links |
| LiveStateDetail.SlaveLink | src/dutil_linux.c:987-1025 | a link is a slave exactly by its slave flag and its master |
| Tokenizer.NextToken | src/ncftool.c:564-585 | terminates the token in place, moves the line behind it, and leaves everything before the line alone |
| Tokenizer.TokensUntouched | src/ncftool.c:564-585 | later calls never disturb earlier in-place tokens |
| Tokenizer.SplitLine | src/ncftool.c:599-664 | the token loop ends and its in-place tokens are the tokens of the line |
| Tokenizer.TokensOfPrinted | src/ncftool.c:564-585 | the tokens of a printed line are the printed texts, plus an empty one exactly when surplus blanks trail |
| Tokenizer.WordToken | src/ncftool.c:564-585 | a word ends at the next space or tab, which it uses up, or with the line |
| Tokenizer.QuotedToken | src/ncftool.c:564-585 | a quoted token ends at the next quote of its kind, which it uses up, or with the line |
| Tokenizer.TokensOfLine | src/ncftool.c:599-664 | one token at least, then token after token until the line is used up |

## Left out

- RedHatRoundTrip.RoundTrip: says nothing of documents that name a device twice, which the schema admits; in the store such a document writes one file twice.
- RedHatRoundTrip.PutGet: the same.
- RedHatRoundTrip.GetRealises: the same.
- RedHatDescribe.DescribeRoundTrip: the same.
- DebianRoundTrip.RoundTrip: says nothing of documents in which two stanzas would get the same name.
- DebianRoundTrip.PutGet: the same, and nothing of unnamed VLAN ports, which `DebianRoundTrip.UnnamedLost` covers.
- DebianImage.PortsBack: the same.
- DebianListing.ListingCompiled: the same, and nothing of slaves named like a port or the root.
- Transaction.Host.ChangeRollback: the history is kept by the methods that perform file operations; a method that changed the directories and put them back between two entries would not show in it.
- RELAX NG validation, XML parsing, fork and exec: documents are typed values; whether parsing and validation accept a document is an arbitrary choice in `Driver.Netcf.Define`.
- Regular expressions of the schema and the Augeas lenses: `ValidInterface` asks only for what the proofs need.
- Trees with a repeated label, and labels that no stylesheet mentions in the store queries: the Red Hat trees are records with one optional value per label.
- Device names with a slash: `ifcfg-NAME` would not be a direct child of network-scripts, which the store takes it to be.
- XPath number forms: a prefix attribute that is not a string of digits is rejected.
- Driver.Netcf.AugPutXml: writes each tree in one step, so a failure between the labels of one file is not distinguished; the call fails before its save either way.
- Driver.Netcf.Define: the unnamed VLAN port that makes rm_all_interfaces fail is checked before anything is removed from the tree; the disk is the same.
- Driver.Netcf.AddTable: memory failures other than the growth of the table array are not modelled.
- Driver.Netcf.Session: does not request the removal of an unregistered table, for which the source reads past the end of its array.
- Aliases of bonds that a later define no longer mentions stay behind, as in the source; no claim is made that they are removed.
- Transaction.Host.Restore: only regular files; attributes copied by `cp -p`, symbolic links and directories are not modelled.
- Retrying an interrupted rollback: files already restored have lost their snapshot copy and would be removed as unwanted, so nothing is claimed.
- Transaction.Host.Session: counts archives and refusals only when no file operation fails; `ChangeRollback` covers failures.
- DebianListing.ListInterfaces: failures of Augeas calls are not modelled.
- Debian define, undefine and xml_desc over the store, and the Augeas labels with positions that aug_get_xml produces there.
- LiveState.XmlDoc.AddTypeSpecificInfo: starts from an interface element without content, allocation always succeeds, and elements are positions in one growing list instead of pointers; addresses and the status are not modelled.
- Command lookup and options in parseline, readline, help, error texts and reference counting: easy or outside the promises above.
- SUSE: its put stylesheet reads labels that its get stylesheet never writes, so there is no round trip to prove.
- FreeBSD and Windows drivers: mostly system calls and stubs.
