# openperouter convergence logic in Dafny

This project models the convergence logic of openperouter. openperouter is a node agent that turns
`Underlay` and `VNI` resources into two things:

- a BGP/EVPN configuration for FRR;
- a Linux dataplane built from a VTEP loopback, a VRF, a veth pair, a bridge and a VXLAN device for
  each VNI, inside the router's network namespace.

Four parts of the agent are modelled. Each part's properties are proved.

- **Address derivation** (`Ipam`). Every node derives its VTEP address and its veth address pair
  from a CIDR pool and its node index.
  - IPv4 addresses are naturals below 2^32. Pools are parsed from and printed as real dotted-quad
    text (`IPv4`, `Text`).
  - The n-th host of a pool is the network address plus n. A negative n counts back from the end of
    the pool. A host number outside the pool fails.
- **The configuration compilers** (`FrrConversion`, `HostConfiguration`, `FrrConfig`). They
  validate the API objects. They translate them into the FRR configuration model and into the
  dataplane parameters.
  - The hold/keepalive timer rules are modelled, with durations in integer nanoseconds. They follow
    section 4.2 of RFC 4271: a hold time is 0 or at least 3 seconds.
  - The neighbour identity `"<ASN>@<addr>"` is modelled, as are the template helpers.
- **The reload debouncer** (`Debounce`).
  - A state machine with a pending config, an armed flag and the armed interval (quiet or retry).
  - A class `Debouncer` with the methods `OnReload`, `OnTimer` and `OnClose`.
  - Each method is proved against a step function; the lemmas are stated over that step function.
- **The dataplane builder** (`Kernel`, `Properties`, `Vrf`, `Veth`, `Bridge`, `Vxlan`, `Vni`,
  `VniWiring`, `VniRemoval`, `Underlay`). The kernel is a class `Kernel`:
  - two namespaces, each a map from link name to `Link` record, plus a route set;
  - a counter for the next link index, shared by both namespaces (Linux numbers links per namespace; see "## Left out");
  - one method per netlink call.

  Deleting a veth leg deletes its peer, and deleting a link drops the routes through it. Every
  mutating call may be refused, nondeterministically, so every error branch of the source stays
  reachable. A ghost counter of refusals, `faults`, lets each operation state what it leaves behind
  when nothing was refused.

  Each `setupX` / `createX` operation is a method. Its contract ties the new kernel state to a
  specification function of the old state, `XEnsured(s)`, which is `None` when a step would fail.
  Lemmas about those functions state the outcomes:
  - the device exists and is configured as intended afterwards;
  - unrelated links are untouched;
  - running the step a second time changes nothing (idempotence). For setupVXLan, and so for
    SetupVNI, this holds with the corrected source-address check of the "## Findings" table; as
    written, the check rejects every device and each pass re-creates it.

  `VniWiring` follows one SetupVNI run step by step. It proves that the run leaves the VNI wired
  as the source's tests check it: both legs are up with their addresses, the namespace leg is
  under the VRF, the bridge and the VXLAN device are configured, and the route to the host leg is
  in the VRF's table. A second run then changes nothing.

  Garbage collection (`RemoveNonConfiguredVNIs`) is a sweep over the listed links. It is proved to
  keep exactly the configured VRFs, VXLANs and bridges. `VniRemoval` proves two more things.
  A VNI that SetupVNI wired, and that is still configured, is still wired afterwards. A host leg
  whose VRF is gone takes its pe leg with it.

The namespace switch `inNamespace` becomes "operate on the target map". A namespace is identified
by its name: the kernel knows one target namespace, `Kernel.targetName`.

## Model

| member | source | states |
|---|---|---|
| IPv4.ParseCIDR | internal/ipam/ipam.go:20-23 | net.ParseCIDR of IPv4 text: a parsed pool has a prefix of at most 32 and its address is the masked network address |
| IPv4.ParseAddr | internal/hostnetwork/properties.go:24 | netlink.ParseAddr keeps the full address with the prefix length, which is at most 32 |
| IPv4.ParseFormatIP | internal/hostnetwork/vxlan.go:84 | parsing the printed form of an address gives the address back |
| IPv4.FormatParsedIP | internal/hostnetwork/vxlan.go:84 | every text that parses as an address is the printed form of that address (no leading zeros, four octets) |
| IPv4.ParseFormatCIDR | internal/conversion/host_configuration.go:46-47 | the CIDR text printed by IPNet.String parses back to the same address and prefix, and to the masked network |
| IPv4.CIDRTextIsNotAnIP | internal/hostnetwork/vxlan.go:84 | a printed CIDR "a.b.c.d/n" never parses as a bare IP |
| IPv4.FormatCIDRInjective | internal/hostnetwork/properties.go:45 | two addresses with the same printed CIDR text are equal, so comparing strings compares addresses |
| Text.AtoiIntToDec | internal/hostnetwork/vxlan.go:128 | strconv.Atoi reads back every 64-bit integer printed with %d |
| Text.IntToDecInjective | internal/hostnetwork/bridge.go:59 | two 64-bit integers with the same %d text are equal |
| Text.Atoi | internal/hostnetwork/vxlan.go:128 | strconv.Atoi succeeds only with a value inside Go's 64-bit int range |
| Text.TrimPrefix | internal/hostnetwork/veth.go:92 | strings.TrimPrefix removes exactly one leading copy of the prefix when present and leaves the text unchanged otherwise |
| Text.TrimPrefixOfConcat | internal/hostnetwork/veth.go:91-93 | stripping a prefix from prefix+s gives s |
| Ipam.ParsePool | internal/ipam/ipam.go:20-23 | a pool parses exactly when net.ParseCIDR accepts it, and the parsed network fits in 32 bits |
| Ipam.Host | internal/ipam/ipam.go:55-58 | cidr.Host succeeds exactly when the host number lies inside the pool |
| Ipam.HostInjective | internal/ipam/ipam.go:55-58 | a host lies inside the pool's address block, and two host numbers give the same address exactly when they are equal |
| Ipam.CidrElem | internal/ipam/ipam.go:49-63 | an unparsable pool is an error; otherwise the result is host `index` of the pool with the given mask, or an out-of-range error |
| Ipam.VethIPs | internal/ipam/ipam.go:19-34 | an unparsable pool is an error; otherwise the call succeeds exactly when host index+1 exists; the container side is host 0 with the pool's prefix and the host side is host index+1 with the same prefix |
| Ipam.VethIPsDistinct | internal/ipam/ipam.go:25-32 | for a non-negative index the host side differs from the container side, and distinct indices give distinct host sides |
| Ipam.SliceCIDR | internal/ipam/ipam.go:66-88 | an unparsable pool is an error; otherwise the call succeeds exactly when every requested host exists; on success it returns `size` entries and entry k is host size*index+k with a /31 mask; on failure the error names the first missing host and no list is returned |
| Ipam.SliceHosts | internal/ipam/ipam.go:72-87 | the append loop builds the list entry by entry, or stops at the first host number outside the pool |
| Ipam.VTEPAddress | internal/ipam/ipam.go:82 | an unparsable pool is an error; otherwise the address exists exactly when the index is in the pool, and it is that host with a /31 mask |
| Ipam.VTEPAddressInjective | internal/ipam/ipam.go:37-46 | distinct non-negative node indices get distinct VTEP addresses from one pool |
| Ipam.VTEPIp | internal/ipam/ipam.go:37-46 | the VTEP address is host `index` of the pool with a /31 mask, or the pool or range error of the one-entry slice |
| Ipam.IPsInCIDR | internal/ipam/ipam.go:91-98 | the count succeeds exactly when the pool parses; otherwise the error names the pool |
| Ipam.IPsInCIDRCountsHosts | internal/ipam/ipam.go:91-98 | host n of the pool exists exactly when n is below the count |
| Ipam.IPsInCIDRPowers | internal/ipam/ipam.go:61 | the count of a pool with prefix p is 2^(32-p): 256 for /24, 2 for /31, 1 for /32 |
| Collect.MapAllSuccess | internal/conversion/frr_conversion.go:40-47 | translating a list succeeds exactly when every element translates; the output has one entry per input, in order |
| Collect.MapAllFailure | internal/conversion/frr_conversion.go:40-47 | a failing translation returns the error of the first failing element, and every earlier element succeeded |
| Collect.MapAllPrefixFailure | internal/conversion/frr_conversion.go:40-47 | once a prefix of the input fails, later elements never change the outcome |
| Collect.MapAllStep | internal/conversion/host_configuration.go:34-51 | one loop iteration extends the translated prefix by one element or stops with its error |
| FrrConversion.TruncDiv | internal/conversion/frr_conversion.go:142 | the whole-seconds conversion truncates toward zero: for a non-negative duration q·b ≤ a < q·b + b (integer division), for a negative one q ≤ 0 and a ≤ q·b < a + b |
| FrrConversion.Uint64 | internal/conversion/frr_conversion.go:151-152 | the conversion to uint64 gives the one value below 2^64 congruent to the input modulo 2^64: the identity on values that fit, 2^64 + x for a negative x down to -2^64 |
| FrrConversion.ParseTimers | internal/conversion/frr_conversion.go:130-155 | exactly one of hold and keepalive given is an error; neither gives (nil, nil); a keepalive longer than the hold time is an error; success with both gives both |
| FrrConversion.ParseTimersValues | internal/conversion/frr_conversion.go:139-154 | with both timers given: accepted exactly when the truncated hold time is 0 or at least 3 s and the keepalive is at most the hold time; a longer keepalive fails with the short-hold error if that applies, else with the keepalive error; on success the values are the whole seconds of each; a negative hold time is accepted only above -1 s and gives 0; a negative keepalive gives 0 above -1 s and otherwise wraps around to 2^64 minus its whole seconds (the API does not validate these durations) |
| FrrConversion.NegativeHoldAccepted | internal/conversion/frr_conversion.go:142-145 | a negative hold time passes the hold-time rule exactly when it lies above -1 s, where its whole seconds are 0 |
| FrrConversion.NegativeWraps | internal/conversion/frr_conversion.go:151-152 | a negative duration becomes 0 whole seconds above -1 s, and otherwise wraps around to 2^64 minus its whole seconds |
| FrrConversion.ParseTimersAccepted | internal/conversion/frr_conversion.go:142-154 | an accepted hold time is 0 or at least 3 seconds, and an accepted non-negative keepalive is at most the hold time |
| FrrConversion.ParseTimersRefusesShortHold | internal/conversion/frr_conversion.go:142-148 | with 0 <= keepalive <= hold, the timers are accepted exactly when the hold time is not in [1 s, 3 s) |
| FrrConversion.TruncDivBelow | internal/conversion/frr_conversion.go:142-153 | whole seconds of a non-negative duration fit in 64 bits and never exceed the duration |
| FrrConversion.NeighborNameParts | internal/conversion/frr_conversion.go:126-128 | the neighbour name splits at its first "@" into the decimal ASN and the address |
| FrrConversion.NeighborToFRR | internal/conversion/frr_conversion.go:90-98 | an unknown address family is an error; a zero ASN is an error |
| FrrConversion.NeighborToFRRCopies | internal/conversion/frr_conversion.go:90-124 | translation succeeds exactly when the family is known, the ASN is non-zero and the timers are valid; ASN, address, port, multihop flag and BFD profile are copied, the name is "<ASN>@<addr>", the timers are those of parseTimers, and ConnectTime is truncated to whole seconds |
| FrrConversion.VniToFRR | internal/conversion/frr_conversion.go:69-88 | translating a VNI succeeds exactly when its veth addresses can be derived |
| FrrConversion.VniToFRRLocalNeighbor | internal/conversion/frr_conversion.go:75-86 | the local neighbour's address is the host-side veth IP and its ASN is LocalASN; the only advertised prefix is that IP as /32; VNI, VRF and ASN are copied |
| FrrConversion.HostRouteText | internal/conversion/frr_conversion.go:85 | the host-side IP text followed by "/32" parses to that address with a /32 prefix |
| FrrConversion.APItoFRR | internal/conversion/frr_conversion.go:23-67 | the conversion loops compute the result described by the shape lemmas below |
| FrrConversion.FRRConfigShape | internal/conversion/frr_conversion.go:24-66 | a successful conversion had one underlay and at least one VNI; it carries the VTEP address of the node, one translated neighbour per underlay neighbour and one VNIConfig per VNI, both in input order, the underlay ASN and the log level unchanged |
| FrrConversion.FRRConfigNeighborFailure | internal/conversion/frr_conversion.go:40-47 | when some neighbour fails to translate, the conversion fails with the error of the first failing neighbour, tagged with its name |
| HostConfiguration.APItoHostConfig | internal/conversion/host_configuration.go:13-54 | the VNI loop computes the result described by the lemmas below |
| HostConfiguration.HostConfigNothingToDo | internal/conversion/host_configuration.go:17-19 | zero underlays or zero VNIs give empty parameters and no error, and nothing else does |
| HostConfiguration.HostConfigShape | internal/conversion/host_configuration.go:20-53 | on success the underlay params carry the NIC, the namespace and the VTEP address; there is one VNIParams per VNI, in order, each with the same VTEP and namespace, the VRF, VNI and port of its VNI, and the host and container sides of VethIPs as veth addresses |
| HostConfiguration.HostConfigVethFailure | internal/conversion/host_configuration.go:36-39 | if any VNI's veth addresses cannot be derived, the whole call fails with the error of the first such VNI (every VNI before it derives its addresses) and returns no partial list |
| FrrConfig.IDIdentifiesAddress | internal/frr/config.go:78-80 | two neighbours have the same ID exactly when they have the same address |
| FrrConfig.FamilyStringInjective | internal/frr/config.go:115-117 | distinct address families have distinct names |
| FrrConfig.MustDisableConnectedCheck | internal/frr/config.go:108-114 | true exactly when the family is IPv6, the ASNs differ and multihop is off |
| FrrConfig.ActivateNeighborForOneSection | internal/frr/config.go:115-117 | a neighbour is activated in the "ipv4", "ipv6" or "dual" section exactly when its family is that one |
| FrrConfig.Dict | internal/frr/config.go:94-107 | the loop builds the map that the argument list denotes, or returns the error that list denotes |
| FrrConfig.DictOfMeaning | internal/frr/config.go:94-107 | dict succeeds exactly when the argument count is even and every key is a string; its keys are exactly those keys |
| FrrConfig.DictOfLastWins | internal/frr/config.go:99-105 | a key given several times maps to the value after its last occurrence |
| FrrConfig.DictPrefixSuccess | internal/frr/config.go:99-105 | after n pairs, the loop has succeeded exactly when the n keys are strings, and its keys are exactly those keys |
| FrrConfig.DictPrefixFailure | internal/frr/config.go:100-104 | a non-string key aborts the loop and later pairs do not change the outcome |
| FrrConfig.DictPrefixLastWins | internal/frr/config.go:104 | after n pairs, a key maps to the value of its last occurrence so far |
| Debounce.Initial | internal/frr/config.go:153-163 | the debouncer starts running with no config and no armed timer |
| Debounce.OnReloadStep | internal/frr/config.go:168-182 | a reload event keeps the loop running and preserves the invariant that an armed timer always has a config |
| Debounce.OnTimerStep | internal/frr/config.go:183-190 | the timer hands the held config to the apply body; the config is kept whatever the outcome |
| Debounce.Reloads | internal/frr/config.go:168-182 | any burst of reload events keeps the loop running and the invariant true |
| Debounce.Snapshots | internal/frr/debounce_test.go:27-41 | a list of configs becomes one NewSnapshot event per config, in order |
| Debounce.Fires | internal/frr/config.go:183-190 | a run of timer fires applies one config per fire and keeps the invariant |
| Debounce.ReuseLastWithoutConfigIgnored | internal/frr/config.go:168-171 | a reuse-last event with no config is ignored and arms no timer |
| Debounce.SameSnapshotIgnored | internal/frr/config.go:172-175 | a snapshot equal to the held config is ignored, whether or not a timer is armed |
| Debounce.SameSnapshotIgnoredAfterApply | internal/frr/config.go:172-175 | an equal snapshot is still ignored after the timer applied the held config |
| Debounce.EventReplacesOrKeeps | internal/frr/config.go:176-182 | any other snapshot replaces the held config, a reuse-last event keeps it, and the timer is armed afterwards |
| Debounce.ArmedTimerKept | internal/frr/config.go:179-182 | an armed timer is not re-armed: its interval stays as it was |
| Debounce.BurstKeepsLast | internal/frr/debounce_test.go:27-41 | after a burst of snapshots the held config is the last one, and the timer is armed with its earlier interval or the quiet one |
| Debounce.RetryUntilSuccess | internal/frr/config.go:183-190 | failed applies are retried with the same config until one succeeds; the timer is then disarmed and the config kept |
| Debounce.ReuseLastReapplies | internal/frr/config.go:190 | after a successful apply, a reuse-last event arms the quiet timer and re-applies the same config |
| Debounce.Debouncer.constructor | internal/frr/config.go:153-163 | a new debouncer is in the initial state |
| Debounce.Debouncer.OnReload | internal/frr/config.go:168-182 | the fields change as the reload step says |
| Debounce.Debouncer.OnTimer | internal/frr/config.go:183-190 | returns the config handed to the apply body, and the fields change as the timer step says |
| Debounce.Debouncer.OnClose | internal/frr/config.go:164-167 | a closed input or a cancelled context stops the loop and changes nothing else |
| Kernel.TypeNames | internal/hostnetwork/vni.go:103 | a link's type string is "veth", "vrf", "bridge" or "vxlan" exactly for links of that kind |
| Kernel.Dropped | internal/hostnetwork/vni_test.go:282-283 | deleting a set of indices keeps exactly the links whose index is not in the set |
| Kernel.Kernel.LinkByIndex | internal/hostnetwork/veth.go:45 | the lookup finds a link exactly when one has that index, and returns that link |
| Kernel.Kernel.LinkList | internal/hostnetwork/vrf.go:12 | the listing enumerates exactly the links of the namespace |
| Kernel.Kernel.AddrList | internal/hostnetwork/properties.go:40 | the listing holds exactly the link's addresses, and nothing for an unknown index |
| Kernel.Kernel.RouteListFiltered | internal/hostnetwork/vni.go:199-204 | the listing holds exactly the routes of the namespace with the given destination and table |
| Kernel.Kernel.LinkAdd | internal/hostnetwork/bridge.go:50 | adding a link succeeds exactly when the name is free and the master exists; the new link gets the next index |
| Kernel.Kernel.VethAdd | internal/hostnetwork/veth.go:75 | adding a veth pair creates both legs, each naming the other as its peer |
| Kernel.Kernel.LinkDel | internal/hostnetwork/vni.go:108 | deleting a link succeeds exactly when the index exists; it removes the link, its veth peer and their routes, and releases links enslaved to them |
| Kernel.Kernel.LinkSetNs | internal/hostnetwork/properties.go:108 | moving a link takes it to the other namespace, down, without addresses or master; it keeps its index (see "## Left out" for how this differs from Linux) |
| Kernel.Kernel.Modify | internal/hostnetwork/vni.go:62 | set up, set master, add or delete an address, or set a flag on an existing link; nothing else changes |
| Kernel.Kernel.RouteAdd | internal/hostnetwork/vni.go:174 | adding a route succeeds when its link exists and no route has the same destination and table |
| Properties.CarriesPrinted | internal/hostnetwork/properties.go:44-48 | a link carries the printed text of an address exactly when it holds that address |
| Properties.PrintedIsCanonical | internal/hostnetwork/properties.go:24 | the printed form of an address parses back to it |
| Properties.InterfaceHasIP | internal/hostnetwork/properties.go:35-50 | an unparsable address is an error; otherwise the answer is true exactly when some address of the link prints as the argument |
| Properties.AssignIPToInterface | internal/hostnetwork/properties.go:16-33 | an unparsable address is an error; an address already present changes nothing; otherwise it is added, or the call fails and nothing changes |
| Properties.AddressAssignedAt | internal/hostnetwork/properties.go:16-33 | assigning an address changes only that link, at most by adding the address, and afterwards the link holds it |
| Properties.AssignedAddressPresent | internal/hostnetwork/properties.go:17-31 | after adding a canonical address, interfaceHasIP reports it present |
| Properties.NsHasNic | internal/hostnetwork/properties.go:129-138 | the answer is true exactly when the NIC is found in the namespace |
| Properties.SetUpAndRestore | internal/hostnetwork/properties.go:112-125 | the moved NIC is set up and its addresses are re-added one by one; with no refusal all of them are back |
| Properties.MoveNicToNamespace | internal/hostnetwork/properties.go:82-127 | a NIC already in the target changes nothing; a missing NIC is an error; otherwise it is moved; errors while re-adding addresses are discarded, and with no refusal the NIC arrives up with all its addresses |
| Properties.NicMovedShape | internal/hostnetwork/properties.go:98-125 | after the move the NIC is in the target with its index and addresses, up, and the other links of both namespaces are unchanged |
| Vrf.Tables | internal/hostnetwork/vrf.go:41-45 | the taken tables are exactly those of the VRFs in the listing |
| Vrf.EnumeratedTables | internal/hostnetwork/vrf.go:12-15 | the tables of a complete listing are those of the namespace |
| Vrf.FirstFree | internal/hostnetwork/vrf.go:47-52 | counting upward finds the smallest free table below MaxUint32, or none when all are taken |
| Vrf.FreeTable | internal/hostnetwork/vrf.go:39-53 | the result is at least 1 and below MaxUint32, used by no VRF, and every smaller id is taken; it fails only when every id from 1 to MaxUint32-1 is taken |
| Vrf.FindFreeRoutingTableID | internal/hostnetwork/vrf.go:39-53 | the loop returns that lowest free table |
| Vrf.FreeTableOnlyVrfs | internal/hostnetwork/vrf.go:41-45 | links other than VRFs do not affect the result |
| Vrf.CreatedVrfShape | internal/hostnetwork/vrf.go:22-34 | the new VRF carries the name and the table, is up, and the other links are unchanged |
| Vrf.CreateVRF | internal/hostnetwork/vrf.go:11-37 | with no free table nothing changes; on success the VRF with the lowest free table exists and is up; with no refusal and a free name it succeeds |
| Vrf.VrfEnsuredShape | internal/hostnetwork/vni.go:56-60 | afterwards a VRF with the name exists; an existing VRF is reused unchanged; ensuring it again changes nothing |
| Vrf.SetupVRF | internal/hostnetwork/vni.go:56-60 | on success the state is the one described by VrfEnsuredShape and the returned link is that VRF; with no refusal it succeeds whenever that state exists |
| Veth.VethLegsForVRF | internal/hostnetwork/veth.go:82-89 | the two legs are "host"+vrf and "pe"+vrf, and they differ |
| Veth.VrfForHostLeg | internal/hostnetwork/veth.go:91-93 | a "host"-prefixed name yields the text after the prefix; any other name is returned unchanged |
| Veth.HostLegRoundTrip | internal/hostnetwork/veth.go:91-93 | the VRF read back from a host leg is the VRF it was built from, and every "host" name is the host leg of its VRF |
| Veth.HostLegInjective | internal/hostnetwork/veth.go:82-86 | distinct VRFs have distinct host legs |
| Veth.AddedVethShape | internal/hostnetwork/veth.go:72-80 | a new pair adds exactly the two legs, each the peer of the other, and nothing else changes |
| Veth.CreateVeth | internal/hostnetwork/veth.go:72-80 | creates the pair named by the host leg with the pe leg as peer, or fails and changes nothing |
| Veth.VethCreatedHasLeg | internal/hostnetwork/veth.go:19-39 | afterwards the host leg is a veth; an absent or non-veth host leg is replaced by a new pair |
| Veth.PeerPlacedShape | internal/hostnetwork/veth.go:45-66 | afterwards the peer is in the target namespace and not in the host one, and the host leg is untouched |
| Veth.VethEnsuredIdempotent | internal/hostnetwork/veth.go:14-70 | after setupVeth the host leg is a veth whose peer is in the target namespace, and running it again changes nothing |
| Veth.SetupVeth | internal/hostnetwork/veth.go:14-70 | on success the state is the one setupVeth's steps describe, the first result is the host leg and the second is its peer, now in the target; with no refusal it succeeds |
| Bridge.BridgeName | internal/hostnetwork/bridge.go:58-60 | the bridge name is "br" followed by the decimal VNI |
| Bridge.VniFromBridgeName | internal/hostnetwork/vni.go:123 | reading a VNI back fails exactly when the text after "br" is not a 64-bit decimal |
| Bridge.BridgeNameRoundTrip | internal/hostnetwork/bridge.go:58-60 | reading the VNI back from a bridge name gives the VNI |
| Bridge.BridgeNameInjective | internal/hostnetwork/bridge.go:58-60 | distinct VNIs have distinct bridge names |
| Bridge.CreateBridge | internal/hostnetwork/bridge.go:45-56 | adds a bridge with the VRF as master, or fails and changes nothing |
| Bridge.BridgeCreatedShape | internal/hostnetwork/bridge.go:12-31 | afterwards a bridge has the name; a missing one is created with the VRF as master; a non-bridge is replaced; an existing bridge is reused |
| Bridge.BridgeEnsuredShape | internal/hostnetwork/bridge.go:10-43 | afterwards the bridge is up with address generation off |
| Bridge.BridgeStable | internal/hostnetwork/bridge.go:13-21 | a bridge that is up with address generation off is reused without re-checking its master |
| Bridge.BridgeEnsuredIdempotent | internal/hostnetwork/bridge.go:10-43 | running setupBridge twice changes nothing the second time |
| Bridge.EnsureBridgeLink | internal/hostnetwork/bridge.go:12-31 | the lookup, create or replace step, with its result the bridge in the namespace |
| Bridge.SetupBridge | internal/hostnetwork/bridge.go:10-43 | on success the state is the one BridgeEnsuredShape describes, and with no refusal it succeeds; a failure of the address-generation or link-up step is an error |
| Vxlan.VxLanName | internal/hostnetwork/vxlan.go:120-124 | the device name is "vni" followed by the decimal VNI, and it is never the loopback's name |
| Vxlan.VniFromVXLanName | internal/hostnetwork/vxlan.go:126-133 | reading a VNI back fails exactly when the text after "vni" is not a 64-bit decimal |
| Vxlan.VxLanNameRoundTrip | internal/hostnetwork/vxlan.go:120-133 | reading the VNI back from the device name gives the VNI |
| Vxlan.VxLanNameInjective | internal/hostnetwork/vxlan.go:120-124 | distinct VNIs have distinct device names |
| Vxlan.VtepSource | internal/hostnetwork/vxlan.go:102 | the source address is the address part of the VTEP CIDR, and is missing exactly when the CIDR does not parse |
| Vxlan.FirstMismatch | internal/hostnetwork/vxlan.go:67-92 | no mismatch exactly when master, id, port, learning, source address and VTEP device all match |
| Vxlan.CheckVXLanConfiguredAsWritten | internal/hostnetwork/vxlan.go:67-92 | the check as written: it passes only when the VTEP text parses as a bare IP equal to the source address |
| Vxlan.CheckVXLanConfigured | internal/hostnetwork/vxlan.go:67-92 | the check passes exactly when the device has the bridge as master and the fields createVXLan gives it |
| Vxlan.CreatedDeviceRejectedAsWritten | internal/hostnetwork/vxlan.go:84 | a device built by createVXLan from a CIDR VTEP fails the check as written and passes the corrected one |
| Vxlan.CreateVXLan | internal/hostnetwork/vxlan.go:94-118 | without the loopback nothing changes and it fails; otherwise it adds a device with the VNI, port, learning off, the VTEP source and the loopback as VTEP device, under the bridge |
| Vxlan.VxlanCreatedShape | internal/hostnetwork/vxlan.go:19-48 | afterwards a correctly configured device exists under the bridge; a missing, non-VXLAN or misconfigured one is replaced, with the corrected source-address check |
| Vxlan.VxlanEnsuredShape | internal/hostnetwork/vxlan.go:13-65 | afterwards the device is configured, up, with address generation off and neighbour suppression on |
| Vxlan.VxlanStable | internal/hostnetwork/vxlan.go:38-48 | a device that is already ready is left alone, with the corrected source-address check |
| Vxlan.VxlanEnsuredIdempotent | internal/hostnetwork/vxlan.go:13-65 | running setupVXLan twice changes nothing the second time, with the corrected source-address check |
| Vxlan.ReplaceVXLan | internal/hostnetwork/vxlan.go:38-47 | deletes the current device and creates a new one |
| Vxlan.EnsureVxlanDevice | internal/hostnetwork/vxlan.go:19-48 | the find, create or replace step; it returns the device now in the namespace, with the corrected source-address check |
| Vxlan.SetupVXLan | internal/hostnetwork/vxlan.go:13-65 | a missing loopback is an error that changes nothing; on success the state is the one VxlanEnsuredShape describes; with no refusal it succeeds, with the corrected source-address check |
| Vni.HostIPToRoute | internal/hostnetwork/vni.go:180-196 | an unparsable address is an error; otherwise the route has the address with a /32 mask, the VRF's table and the pe link index |
| Vni.HostIPToRouteOfPrinted | internal/hostnetwork/vni_test.go:313-360 | any printed CIDR, a /24 say, becomes a /32 route to the same address |
| Vni.CheckRouteIsPresent | internal/hostnetwork/vni.go:198-223 | true exactly when a route matching on address, mask, link and table is present |
| Vni.RouteEnsuredShape | internal/hostnetwork/vni.go:161-178 | the route is added exactly when absent, adding it changes only the route set, and adding it again changes nothing |
| Vni.AddRouteToHost | internal/hostnetwork/vni.go:161-178 | an unparsable address is an error; a present route changes nothing; otherwise the route is added |
| Vni.LegReady | internal/hostnetwork/vni.go:36-54 | giving a veth leg its address and setting it up leaves a consistent kernel |
| Vni.AddressAssignedConsistent | internal/hostnetwork/vni.go:36-40 | assigning an address keeps the kernel consistent |
| Vni.SetupLeg | internal/hostnetwork/vni.go:36-54 | the leg gets its address and is set up, or the step fails |
| Vni.VrfJoined | internal/hostnetwork/vni.go:47-65 | the pe leg is ready and its master is the VRF, which is a VRF |
| Vni.JoinVrf | internal/hostnetwork/vni.go:47-65 | the pe leg is given its address, set up and enslaved to the VRF, which is returned |
| Vni.VniDevicesShape | internal/hostnetwork/vni.go:67-82 | afterwards the VXLAN device is configured for the VNI, up, with no IPv6 link-local address and neighbour suppression on, and the route to the host IP is present in the VRF's table through the pe leg (that its master is the bridge needs the assumptions of VniWiring.VniDevicesWired) |
| Vni.SetupVniDevices | internal/hostnetwork/vni.go:67-82 | the bridge, VXLAN and route steps, in that order, stopping at the first error |
| Vni.InNamespace | internal/hostnetwork/vni.go:46-86 | the namespace half of SetupVNI, stopping at the first error |
| Vni.VniEnsuredShape | internal/hostnetwork/vni.go:24-89 | after SetupVNI, with no assumption on the kernel or the names, the VXLAN device is configured for the VNI and up, and a /32 route to the host IP is present; VniWiring.VniEnsuredWired states the rest |
| Vni.SetupVNI | internal/hostnetwork/vni.go:24-89 | an unknown namespace is an error that changes nothing; otherwise veth, host IP, VRF, bridge, VXLAN and route run in that order and it stops at the first error |
| VniWiring.LegReadyAt | internal/hostnetwork/vni.go:36-44 | a leg's address and set-up steps touch that leg alone: it keeps its index, kind and master, is up and holds the address |
| VniWiring.VethStep | internal/hostnetwork/veth.go:14-70 | after setupVeth the host leg is a veth; its peer index holds veths of the target namespace only and no host link; the host leg stays in the host namespace unless it is recorded as its own peer; the VRF, bridge and VXLAN names hold no veth |
| VniWiring.HostSideWired | internal/hostnetwork/vni.go:32-44 | after setupVeth and the host leg's steps, the host leg is up with its address and its peer is in the target namespace only |
| VniWiring.NsLegStep | internal/hostnetwork/vni.go:47-54 | the pe leg's steps leave it up with its address and change no host link |
| VniWiring.VrfStep | internal/hostnetwork/vni.go:56-60 | setupVRF leaves a VRF of that name, keeps the pe leg up with its address, and changes host links at most in their masters |
| VniWiring.MasterStep | internal/hostnetwork/vni.go:62-65 | setting the master makes the VRF the pe leg's master |
| VniWiring.VrfJoinedWired | internal/hostnetwork/vni.go:47-65 | after the pe leg's steps, setupVRF and LinkSetMaster, the pe leg is up with its address under the VRF |
| VniWiring.BridgeStepWired | internal/hostnetwork/vni.go:67-71 | setupBridge leaves the bridge up without IPv6 link-local addresses, a new bridge under the VRF, and keeps the pe leg and the VRF |
| VniWiring.VxlanStepWired | internal/hostnetwork/vni.go:73-77 | setupVXLan leaves the VXLAN device configured under the bridge, and keeps the pe leg, the VRF and a bridge already under the VRF, with the corrected source-address check |
| VniWiring.VniDevicesWired | internal/hostnetwork/vni.go:67-82 | after the device steps the bridge is up, the VXLAN device is configured under it, and the route to the host leg is in the VRF's table through the pe leg |
| VniWiring.InNamespaceWired | internal/hostnetwork/vni.go:46-86 | the namespace half leaves the pe leg up with its address under the VRF, the bridge and the VXLAN device ready, and the route present |
| VniWiring.VniEnsuredWired | internal/hostnetwork/vni_test.go:155-262 | after SetupVNI the checks of validateHostLeg and validateNS hold, except those listed under "## Left out": host and pe legs up with their addresses, pe leg under the VRF, bridge up with no IPv6 link-local address, VXLAN device configured under the bridge, route present; a bridge the run created is under the VRF |
| VniWiring.LegStable | internal/hostnetwork/vni.go:36-44 | a leg that is up and already holds its address is left as it is |
| VniWiring.VethStable | internal/hostnetwork/veth.go:19-66 | setupVeth leaves a host veth whose peer is in the target namespace as it is |
| VniWiring.VrfJoinedStable | internal/hostnetwork/vni.go:47-65 | a pe leg that is up with its address under the VRF is left as it is |
| VniWiring.DevicesStable | internal/hostnetwork/vni.go:67-82 | a ready bridge and VXLAN device and a present route are left as they are |
| VniWiring.InNamespaceStable | internal/hostnetwork/vni.go:46-86 | the namespace half leaves a wired namespace side as it is |
| VniWiring.VniWiredStable | internal/hostnetwork/vni.go:24-89 | SetupVNI leaves a wired VNI as it is |
| VniWiring.VniEnsuredIdempotent | internal/hostnetwork/vni_test.go:118-152 | running SetupVNI a second time with the same params changes nothing, with the corrected source-address check |
| Vni.Sweep | internal/hostnetwork/vni.go:102-159 | deleting listed links one by one keeps the kernel consistent |
| Vni.CollectDesired | internal/hostnetwork/vni.go:92-97 | the desired VRFs and VNIs are exactly those of the params |
| Vni.RemoveHostLegs | internal/hostnetwork/vni.go:102-112 | the loop deletes the listed host legs as the sweep says, stopping at the first refused delete |
| Vni.ClearLinks | internal/hostnetwork/vni.go:142-159 | the loop deletes the listed links of one type as the sweep says, stopping at an unparsable name or a refused delete |
| Vni.RemoveVrfs | internal/hostnetwork/vni.go:127-133 | the loop deletes the listed VRFs that are not desired |
| Vni.ClearNamespace | internal/hostnetwork/vni.go:114-135 | the namespace half: VXLANs, bridges, then VRFs, from one listing |
| Vni.RemoveNonConfiguredVNIs | internal/hostnetwork/vni.go:91-140 | host legs are swept from the host listing, then the target is swept from its own listing, stopping at the first error |
| Vni.SweepShrinks | internal/hostnetwork/vni.go:102-159 | a sweep only removes links and never changes a surviving one's index |
| Vni.SweepNeverAborted | internal/hostnetwork/vni.go:145-148 | a successful sweep met no unparsable name |
| Vni.SweepDeletes | internal/hostnetwork/vni.go:102-159 | every link judged for deletion is gone afterwards |
| Vni.DeletedIndicesSplit | internal/hostnetwork/vni.go:142-159 | the deleted indices of a listing are those of its head plus those of its tail |
| Vni.SweepRemovesExactly | internal/hostnetwork/vni.go:142-159 | when no veth is deleted, a link stays exactly when its index was not judged for deletion |
| Vni.ListedDeletion | internal/hostnetwork/vni.go:115-133 | a link of a complete listing is deleted exactly when it is judged for deletion |
| Vni.VerdictMeaning | internal/hostnetwork/vni.go:120-159 | an unparsable VXLAN or bridge name aborts; a link is deleted exactly when it is an unconfigured VXLAN, bridge or VRF; links of other types are untouched |
| Vni.NamespaceSweepExact | internal/hostnetwork/vni.go:120-133 | each target sweep keeps a listed link exactly when its verdict is not delete |
| Vni.NamespaceCleared | internal/hostnetwork/vni.go:114-135 | a target link stays exactly when it is not an unconfigured VXLAN, bridge or VRF; every remaining VXLAN and bridge name parses |
| Vni.HostLegsCleared | internal/hostnetwork/vni.go:102-112 | every remaining "host" veth belongs to a desired VRF |
| Vni.RemovedLeavesOnlyConfigured | internal/hostnetwork/vni_test.go:100-115 | after GC, every host leg, VRF, VXLAN and bridge left belongs to some desired VNI. A link of the target namespace as the host-leg loop left it is kept exactly when it is not an unconfigured VXLAN, bridge or VRF; links the host-leg loop took down as veth peers are not covered (VniRemoval.RemovalKeepsWired covers the configured VNIs) |
| VniRemoval.SweepSpares | internal/hostnetwork/vni.go:102-133 | a loop whose deletions, and the veth peers of what it deletes, stay outside a set of indices keeps every link under those indices in both namespaces, changed at most in a master outside the set, and every route through them |
| VniRemoval.SweepDeletedPresent | internal/hostnetwork/vni.go:108-110 | a loop that finishes found every link it deleted still there: a LinkDel of a vanished link fails the pass |
| VniRemoval.SweepDropsPeers | internal/hostnetwork/vni.go:108-110 | after a loop that finishes, nothing in either namespace sits at the peer index of a veth it deleted |
| VniRemoval.HostLoopSpares | internal/hostnetwork/vni.go:102-112 | the host-leg loop deletes nothing of a wired VNI whose VRF is configured, neither a link nor a veth peer |
| VniRemoval.PeerOutside | internal/hostnetwork/vni.go:102-112 | the peer of a host leg whose VRF is not configured is none of the wired VNI's links, when veth legs are paired |
| VniRemoval.WiredConfigured | internal/hostnetwork/vni.go:114-133 | the namespace links of a wired VNI whose VRF and VNI are configured are none of the links the namespace loops delete |
| VniRemoval.TargetLoopSpares | internal/hostnetwork/vni.go:120-133 | a namespace loop that deletes only unconfigured links never reaches a link that is configured |
| VniRemoval.WiredKept | internal/hostnetwork/vni_test.go:105-109 | a state that keeps the wired VNI's links, up to masters outside them, and its route, still passes validateHostLeg and validateNS for it |
| VniRemoval.RemovalKeepsWired | internal/hostnetwork/vni_test.go:100-109 | after RemoveNonConfiguredVNIs a configured VNI that was wired is still wired: validateHostLeg and validateNS hold for it as they did before |
| VniRemoval.HostLegDropped | internal/hostnetwork/vni.go:102-112 | the host-leg loop deletes a host leg whose VRF is not configured, and with it whatever sat at its peer index |
| VniRemoval.RemovalDropsPeLegs | internal/hostnetwork/vni_test.go:111-115 | after RemoveNonConfiguredVNIs the host leg of a VRF that is not configured is gone, and so is every link, in either namespace, at its peer index: its pe leg (validateVNIIsNotConfigured, vni_test.go:275-284) |
| Underlay.MarkerText | internal/hostnetwork/underlay.go:20 | the marker text "172.16.1.1/32" is the printed form of the marker address and parses back to it |
| Underlay.MarkerFormat | internal/hostnetwork/underlay.go:20 | the marker address prints as "172.16.1.1/32" |
| Underlay.CarriesMarker | internal/hostnetwork/underlay.go:131-135 | interfaceHasIP with the marker text is true exactly when the link holds the marker |
| Underlay.CarriesMarkerNow | internal/hostnetwork/underlay.go:131-135 | the marker test on one listed link |
| Underlay.OldUnderlayInterface | internal/hostnetwork/underlay.go:122-145 | returns a target link carrying the marker, and none exactly when no link carries it |
| Underlay.RemoveUnderlayInterface | internal/hostnetwork/underlay.go:98-120 | removes the marker from the old NIC and moves it back to the host; a refused delete is an error that changes nothing |
| Underlay.MarkerDeleted | internal/hostnetwork/underlay.go:104-111 | deleting the marker leaves no tagged link and changes no other link |
| Underlay.UnderlayRemovedShape | internal/hostnetwork/underlay.go:98-120 | afterwards no target link is tagged and the other links keep their addresses |
| Underlay.OldUnderlayRetiredShape | internal/hostnetwork/underlay.go:76-80 | after the old NIC is retired no target link is tagged, and untagged links keep their addresses |
| Underlay.RetireOldUnderlay | internal/hostnetwork/underlay.go:66-80 | done exactly when the NIC is already tagged, which changes nothing; otherwise the old tagged NIC is retired |
| Underlay.MarkerAssigned | internal/hostnetwork/underlay.go:82-89 | tagging the NIC adds the marker when it is missing and does nothing when present |
| Underlay.TagAndMoveIn | internal/hostnetwork/underlay.go:82-94 | a NIC missing from the host is an error that changes nothing; otherwise it is tagged and moved into the target |
| Underlay.NicTaggedAndMovedShape | internal/hostnetwork/underlay.go:82-94 | afterwards the NIC is in the target and no other target link is tagged; the NIC is tagged there when it came from the host; when a link of that name was already in the target, the marker stays on the host NIC; other target links keep their addresses |
| Underlay.MoveUnderlayNic | internal/hostnetwork/underlay.go:66-96 | nothing changes when the NIC is tagged already; otherwise the old NIC is retired and the new one tagged and moved in |
| Underlay.UnderlayNicMovedShape | internal/hostnetwork/underlay.go:66-96 | afterwards the NIC is in the target and it alone can carry the marker |
| Underlay.UnderlayNicMovedStable | internal/hostnetwork/underlay.go:72-74 | when the tagged link is already the desired NIC nothing changes |
| Underlay.LoopbackPresent | internal/hostnetwork/underlay.go:38-47 | afterwards the loopback "lound" exists in the target |
| Underlay.LoopbackPresentShape | internal/hostnetwork/underlay.go:38-47 | an absent loopback is created with no addresses and nothing else changes |
| Underlay.LoopbackReadyShape | internal/hostnetwork/underlay.go:37-56 | afterwards the loopback carries the VTEP address and no other link changes |
| Underlay.LoopbackStable | internal/hostnetwork/underlay.go:37-56 | a loopback that already carries the VTEP address is left alone |
| Underlay.SetupLoopback | internal/hostnetwork/underlay.go:37-56 | the loopback step: find or create "lound" and give it the VTEP address |
| Underlay.SetupUnderlay | internal/hostnetwork/underlay.go:28-64 | an unknown namespace is an error that changes nothing; otherwise the loopback step, then the NIC move, stopping at the first error |
| Underlay.UnderlayEnsuredShape | internal/hostnetwork/underlay.go:28-64 | afterwards the NIC is in the target and it alone can carry the marker; a NIC that was outside the target is tagged there |
| Underlay.NicMovedAfterLoopback | internal/hostnetwork/underlay.go:59-62 | the NIC move after the loopback step ends as UnderlayEnsuredShape says |
| Underlay.LoopbackKept | internal/hostnetwork/underlay.go:59-62 | moving the NIC leaves the loopback's addresses alone |
| Underlay.UnderlayEnsuredLoopback | internal/hostnetwork/underlay_test.go:76-119 | after setupUnderlay the loopback carries the VTEP address |
| Underlay.UnderlayEnsuredIdempotent | internal/hostnetwork/underlay_test.go:76-119 | running setupUnderlay twice with the same params changes nothing the second time |

## Left out

- inNamespace (`internal/hostnetwork/namespace.go`): locking the OS thread and switching namespaces is not modelled. A call inside it operates on the target map, and a namespace is found when its name is the kernel's target name.
- Lookups (LinkByName, LinkByIndex, LinkList, AddrList, RouteListFiltered) never fail in the model. Only mutating netlink calls can be refused. Kernel errors other than "not found" are not distinguished.
- Properties.NsHasNic: the branch that returns a lookup error other than "not found" is not modelled, because lookups do not fail.
- addrGenModeNone writes to /proc and setNeighSuppression sends a raw netlink request. Each becomes a flag set on the link through `Kernel.Modify`, which may be refused.
- IPv6 is not modelled: addresses are IPv4, as in the 32-bit masks of `internal/ipam/ipam.go:61`.
- `ipfamily.ForAddresses` is an unseen library and becomes the parameter `familyOf`.
- `go-cidr`'s `cidr.Host` is `Ipam.Host`, with a bound check.
- FrrConversion.ParseTimers: Duration.Seconds() is a float. The model truncates integer nanoseconds to whole seconds instead, so a float rounding error is not reproduced.
- Go's `int` overflow is not modelled, except for the uint64 conversion of the timers and the 64-bit range of strconv.Atoi.
- Template rendering, the template helper `counter`, generateAndReloadConfigFile, `internal/frr/frr.go`, `internal/frrconfig`, the controllers and the reloader are not part of this model. They are I/O, HTTP and library calls.
- Debounce: the goroutine, the channels, the clock and `select` are not modelled. The timer interval is recorded, not measured.
- `internal/frr/config.go` has no `ToAdvertise` field in VNIConfig, and `api/v1alpha1/vni_types.go` has no VRF, VXLanPort or LocalASN in VNISpec. The conversion code uses all of these, so the model's records carry them.
- `host_configuration.go` calls `ipam.VETPIp`, which is not defined; it is modelled as `Ipam.VTEPIp`. Its string fields receive `IPNet.String()` of the derived addresses.
- FrrConversion.APItoFRR: `internal/conversion/frr_conversion.go:50` assigns the IPNet `vtepIP` to the string field `VTEP` (`internal/frr/config.go:42`), which does not compile as written. The model stores `IPNet.String()` of the address there (`FormatCIDR`).
- Vxlan.SetupVXLan, Vxlan.EnsureVxlanDevice and the setupVXLan lemmas use the corrected source-address check of "## Findings". With the check as written, a CIDR VTEP fails the check on every pass, so an existing device is deleted and re-created each time. In the branch that replaces a non-VXLAN link, the second `netlink.LinkDel(link)` (`internal/hostnetwork/vxlan.go:40`) then targets the link already deleted at line 29, and setupVXLan returns an error. Only the counterexample lemma models the check as written.
- setupVRF (called at `internal/hostnetwork/vni.go:57`) and vniFromBridgeName (called at `internal/hostnetwork/vni.go:123`) are not defined in the source. They are modelled after createVRF and vniFromVXLanName: reuse a VRF of that name, or replace a non-VRF and create one.
- Underlay.SetupUnderlay: the contract assumes that at most one target link carries the marker, and that the VTEP address is not the marker itself. Without that, "the first tagged link" depends on listing order, which the model leaves unspecified.
- Kernel.Kernel.LinkSetNs: link indices are global in the model. One counter numbers the links of both namespaces, and a moved link keeps its index. Linux numbers links per namespace, and a move renumbers a link whose index is already taken in the destination. So the model cannot express a host link and a target link with the same index.
- Veth.SetupVeth: the peer index that `netlink.VethPeerIndex` reports is the peer's index in its own namespace, and `internal/hostnetwork/veth.go:45` looks it up in the host namespace first. Under Linux numbering an unrelated host link can have that index while the pe leg already sits in the target. setupVeth would then move that unrelated link into the target at line 62 and return it as the pe leg. With global indices the model never reaches this case, so the contract does not cover it.
- Properties.MoveNicToNamespace: after the move, `internal/hostnetwork/properties.go:112-124` sets up and re-addresses the link object fetched before the move. If Linux renumbered the link on the move, those calls name its old index. The model keeps the index on a move, so it does not capture this.
- Veth.VethEnsuredIdempotent: holds only under the global indices of the Kernel.Kernel.LinkSetNs line. Under Linux numbering a second run can find an unrelated host link at the peer's index (`internal/hostnetwork/veth.go:45`) and move it, so the second run is not a no-op.
- VniWiring.VniEnsuredWired: rests on the same global indices. Under Linux numbering the pe leg setupVeth returns can be an unrelated host link (`internal/hostnetwork/veth.go:45-62`), and the checks at `internal/hostnetwork/vni.go:47-80` then apply to that link.
- VniWiring.VniEnsuredIdempotent: rests on the same global indices, for the reason given for Veth.VethEnsuredIdempotent.
- Listing order is not modelled: a listing is any sequence enumerating the namespace's links exactly once.
- VniWiring.VniEnsuredWired, VniWiring.VniEnsuredIdempotent: these lemmas assume three things the source does not check.
  - The veth names of the VRF differ from the VRF, bridge and VXLAN names, and none of those three names is held by a veth. Otherwise a later step deletes the link an earlier step set up.
  - Every link with the host leg's peer index is a veth. The kernel model records a veth's peer index but does not tie the pair together.
  - VethHostIP and VethNSIP are written as they print (`IPNet.String()`). Otherwise interfaceHasIP misses an address the leg holds, AddrAdd refuses it as present, and a second run fails.
- VniWiring.VniEnsuredWired: three checks of validateNS are proved only in part or not at all. A bridge reused by setupBridge keeps its master, so the bridge is proved to be under the VRF only when the run created it. The VRF is not proved to be up when setupVRF reuses it, because setupVRF is not defined in the source. Operational states (OperUnknown for the VXLAN device) are not modelled; the model's `up` flag stands for the set-up call.
- Vni.HostLegsCleared: only the direction "every remaining host leg is desired" is proved. The converse fails when a deleted veth takes a desired leg with it as its peer.
- Vni.RemovedLeavesOnlyConfigured: the "kept exactly when configured" clause is about the target namespace as the host-leg loop left it. A configured target link that the host-leg loop took down as a veth peer is gone. VniRemoval.RemovalKeepsWired states what survives for a configured VNI.
- VniRemoval.RemovalKeepsWired: assumes three things the source does not check. Veth legs are paired: every "host" veth has no host link at its peer index, and whatever sits there in the target is the "pe" veth of the same VRF. The loopback "lound" is not an unconfigured VRF. The VNI fits Go's 64-bit `int`, so its bridge and VXLAN names parse back to it.
- VniRemoval.RemovalDropsPeLegs: states the pe leg by index, as the link at the host leg's peer index. That this link is the one named "pe" + VRF holds under the pairing of VniRemoval.RemovalKeepsWired.
- UnderlayNicAlias (`internal/hostnetwork/underlay.go:15`) is declared but never used, and is left out.

## Findings

| source | as written | input that shows it | evidently intended | confidence | as-written member | corrected member |
|---|---|---|---|---|---|---|
| internal/hostnetwork/vxlan.go:84 | checkVXLanConfigured compares the device's source address with `net.ParseIP(VTEPIP)`, while createVXLan (line 102) reads VTEPIP with `net.ParseCIDR` | VTEPIP "100.65.0.1/31", the CIDR form produced by APItoHostConfig: ParseIP gives nil, so a device just created from it never passes the check and is deleted and recreated on every pass | compare with the address part of the CIDR, as createVXLan builds it | not executed | Vxlan.CreatedDeviceRejectedAsWritten | Vxlan.CheckVXLanConfigured |
