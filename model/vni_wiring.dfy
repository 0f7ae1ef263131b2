// What a successful SetupVNI (internal/hostnetwork/vni.go:24-89) leaves in the two
// namespaces, followed step by step: the host leg and the namespace leg with their
// addresses, the namespace leg under the VRF, the bridge, the VXLAN device under the bridge
// and the route back to the host leg. From those facts a second SetupVNI changes nothing.
module VniWiring {
  import opened Wrappers
  import opened IPv4
  import opened Text
  import opened Kernel
  import opened Properties
  import opened HostNetworkTypes
  import opened Veth
  import opened Vrf
  import opened Bridge
  import opened Vxlan
  import opened Vni

  /** Two records of one link that differ at most in the master. */
  predicate Like(a: Link, b: Link) {
    a.(master := 0) == b.(master := 0)
  }

  /** No link of either namespace that carries one of `names` is a veth. */
  predicate NoVethNamed(s: KState, names: set<string>) {
    && (forall n :: n in names && n in s.host ==> !s.host[n].kind.Veth?)
    && (forall n :: n in names && n in s.target ==> !s.target[n].kind.Veth?)
  }

  /**
   * The peer of an existing host leg of the VRF is a veth. A kernel keeps veth legs in
   * pairs; the kernel state of the model does not, so the lemmas below assume it of the
   * state they start from.
   */
  predicate PeerIsVeth(s: KState, vrf: string) {
    var hostSide := VethLegsForVRF(vrf).0;
    hostSide in s.host && s.host[hostSide].kind.Veth? ==>
      var peer := s.host[hostSide].kind.peerIndex;
      && (forall n :: n in s.host && s.host[n].index == peer ==> s.host[n].kind.Veth?)
      && (forall n :: n in s.target && s.target[n].index == peer ==> s.target[n].kind.Veth?)
  }

  /**
   * The names SetupVNI gives the VRF, the bridge and the VXLAN device differ, and no veth
   * holds any of them: otherwise a later step deletes what an earlier one built.
   */
  predicate NamesApart(s: KState, params: VNIParams) {
    && params.vrf != BridgeName(params.vni) && params.vrf != VxLanName(params.vni)
    && NoVethNamed(s, {params.vrf, BridgeName(params.vni), VxLanName(params.vni)})
  }

  /** The veth legs of a VRF never carry the VRF's, a bridge's or a VXLAN device's name. */
  lemma LegNamesApart(vrf: string, vni: int)
    ensures var (hostSide, peSide) := VethLegsForVRF(vrf);
      && hostSide !in {vrf, BridgeName(vni), VxLanName(vni)}
      && peSide !in {vrf, BridgeName(vni), VxLanName(vni)}
  {
    var (hostSide, peSide) := VethLegsForVRF(vrf);
    var br := BridgeName(vni);
    var vx := VxLanName(vni);
    assert hostSide == HostVethPrefix + vrf && peSide == PEVethPrefix + vrf;
    assert hostSide[0] == 'h' && peSide[0] == 'p';
    assert |br| >= 2 && br[0] == 'b';
    assert |vx| >= 3 && vx[0] == 'v';
  }

  // ----- one step at a time -----

  /** Dropping an index no link of the table has keeps every link, up to its master. */
  lemma DroppedElsewhere(m: map<string, Link>, i: nat)
    requires forall n :: n in m ==> m[n].index != i
    ensures Dropped(m, {i}).Keys == m.Keys
    ensures forall n :: n in m ==> Dropped(m, {i})[n] == Released(m[n], {i})
  {
  }

  /** Dropping the index of one link removes that link alone. */
  lemma DroppedOne(m: map<string, Link>, name: string)
    requires UniqueIndices(m) && name in m
    ensures var i := m[name].index;
      && Dropped(m, {i}).Keys == m.Keys - {name}
      && forall n :: n in Dropped(m, {i}) ==> Dropped(m, {i})[n] == Released(m[n], {i})
  {
  }

  /** Deleting a link that is not a veth removes that link alone; the links it was master of lose their master. */
  lemma DeletedNonVeth(s: KState, ns: Ns, name: string)
    requires Consistent(s) && name in Links(s, ns) && !Links(s, ns)[name].kind.Veth?
    ensures var i := Links(s, ns)[name].index; var t := Deleted(s, ns, i);
      && Consistent(t)
      && Links(t, ns).Keys == Links(s, ns).Keys - {name}
      && (forall n :: n in Links(t, ns) ==> Links(t, ns)[n] == Released(Links(s, ns)[n], {i}))
      && (ns == Host ==> t.target.Keys == s.target.Keys && forall n :: n in t.target ==> t.target[n] == Released(s.target[n], {i}))
      && (ns == Target ==> t.host.Keys == s.host.Keys && forall n :: n in t.host ==> t.host[n] == Released(s.host[n], {i}))
      && t.nextIndex == s.nextIndex
  {
    var i := Links(s, ns)[name].index;
    assert PeersOf(Links(s, ns), i) == {};
    assert {i} + PeersOf(Links(s, ns), i) == {i};
    DeletedConsistent(s, ns, i);
    DroppedOne(Links(s, ns), name);
    if ns == Host {
      DroppedElsewhere(s.target, i);
    } else {
      DroppedElsewhere(s.host, i);
    }
  }

  /** The old target link of that name was the master of `l`. */
  predicate MasterWas(s: KState, name: string, l: Link) {
    name in s.target && l.master == s.target[name].index
  }

  /**
   * `t` differs from `s` in the target link `name` alone: every other link keeps its name
   * and, up to the master, its record; it keeps its master too unless the master was the
   * old link of that name.
   */
  predicate ReplacedAt(s: KState, t: KState, name: string) {
    && t.host.Keys == s.host.Keys && t.target.Keys == s.target.Keys + {name}
    && (forall n :: n in s.host ==> Like(t.host[n], s.host[n]) && (MasterWas(s, name, s.host[n]) || t.host[n] == s.host[n]))
    && (forall n :: n in s.target && n != name ==>
          Like(t.target[n], s.target[n]) && (MasterWas(s, name, s.target[n]) || t.target[n] == s.target[n]))
  }

  /** `d` is `s` without the target link `name`, the other links as ReplacedAt keeps them. */
  predicate ClearedAt(s: KState, d: KState, name: string) {
    && d.host.Keys == s.host.Keys && d.target.Keys == s.target.Keys - {name}
    && (forall n :: n in s.host ==> Like(d.host[n], s.host[n]) && (MasterWas(s, name, s.host[n]) || d.host[n] == s.host[n]))
    && (forall n :: n in s.target && n != name ==>
          Like(d.target[n], s.target[n]) && (MasterWas(s, name, s.target[n]) || d.target[n] == s.target[n]))
  }

  /** The deletion that makes room for a new link of that name, when the old one is no veth. */
  function Cleared(s: KState, name: string): KState {
    if name in s.target then Deleted(s, Target, s.target[name].index) else s
  }

  lemma ClearedShape(s: KState, name: string)
    requires Consistent(s) && (name in s.target ==> !s.target[name].kind.Veth?)
    ensures var d := Cleared(s, name); Consistent(d) && ClearedAt(s, d, name) && d.nextIndex == s.nextIndex
  {
    if name in s.target {
      var i := s.target[name].index;
      var d := Deleted(s, Target, i);
      DeletedNonVeth(s, Target, name);
      assert Links(d, Target) == d.target && Links(s, Target) == s.target;
      forall n | n in s.host
        ensures Like(d.host[n], s.host[n]) && (MasterWas(s, name, s.host[n]) || d.host[n] == s.host[n])
      {
        assert d.host[n] == Released(s.host[n], {i});
      }
      forall n | n in s.target && n != name
        ensures Like(d.target[n], s.target[n]) && (MasterWas(s, name, s.target[n]) || d.target[n] == s.target[n])
      {
        assert n in d.target;
        assert d.target[n] == Released(s.target[n], {i});
      }
    }
  }

  /** Adding the link of that name to the cleared state replaces it. */
  lemma ClearedThenAdded(s: KState, d: KState, name: string, kind: LinkKind, master: nat)
    requires Consistent(d) && ClearedAt(s, d, name) && CanAdd(d, Target, name, master)
    ensures var t := Added(d, Target, name, kind, master);
      && Consistent(t) && ReplacedAt(s, t, name) && t.target[name] == Fresh(name, d.nextIndex, kind, master)
      && t.nextIndex == d.nextIndex + 1
  {
    AddedAt(d, Target, name, kind, master);
  }

  /** Changing the replaced link afterwards keeps the replacement. */
  lemma ReplacedModified(s: KState, c: KState, name: string, ch: Change)
    requires Consistent(c) && ReplacedAt(s, c, name) && name in c.target
    ensures var t := Modified(c, Target, c.target[name].index, ch);
      && Consistent(t) && ReplacedAt(s, t, name) && t.target[name] == Apply(c.target[name], ch)
      && t.nextIndex == c.nextIndex
  {
    ModifiedAt(c, Target, name, ch);
  }

  /** A link kept as it is counts as replaced by itself. */
  lemma ReplacedBySelf(s: KState, name: string)
    requires name in s.target
    ensures ReplacedAt(s, s, name)
  {
  }

  /** setupVRF replaces the target link of the VRF's name and nothing else. */
  lemma VrfReplaced(s: KState, name: string)
    requires Consistent(s) && VrfEnsured(s, name).Some? && (name in s.target ==> !s.target[name].kind.Veth?)
    ensures ReplacedAt(s, VrfEnsured(s, name).value, name)
  {
    if !(name in s.target && s.target[name].kind.Vrf?) {
      var d := Cleared(s, name);
      ClearedShape(s, name);
      var table := FirstFree(TablesIn(d.target), 1).value;
      ClearedThenAdded(s, d, name, Vrf(table), 0);
      var a := Added(d, Target, name, Vrf(table), 0);
      ReplacedModified(s, a, name, SetUp);
      assert VrfEnsured(s, name).value == Modified(a, Target, a.target[name].index, SetUp);
    } else {
      ReplacedBySelf(s, name);
    }
  }

  /** setupBridge replaces the target link of the bridge's name and nothing else. */
  lemma BridgeReplaced(s: KState, vni: int, vrfIndex: nat)
    requires Consistent(s) && BridgeEnsured(s, vni, vrfIndex).Some?
    requires BridgeName(vni) in s.target ==> !s.target[BridgeName(vni)].kind.Veth?
    ensures ReplacedAt(s, BridgeEnsured(s, vni, vrfIndex).value, BridgeName(vni))
  {
    var name := BridgeName(vni);
    var c := BridgeCreated(s, vni, vrfIndex).value;
    if !(name in s.target && s.target[name].kind.Bridge?) {
      ClearedShape(s, name);
      ClearedThenAdded(s, Cleared(s, name), name, Bridge, vrfIndex);
    } else {
      ReplacedBySelf(s, name);
    }
    assert Consistent(c) && ReplacedAt(s, c, name);
    ReplacedModified(s, c, name, SetAddrGenModeNone);
    var c2 := Modified(c, Target, c.target[name].index, SetAddrGenModeNone);
    ReplacedModified(s, c2, name, SetUp);
  }

  /** setupVXLan replaces the target link of the VXLAN device's name and nothing else. */
  lemma VxlanReplaced(s: KState, params: VNIParams, bridgeIndex: nat)
    requires Consistent(s) && VxlanEnsured(s, params, bridgeIndex).Some?
    requires VxLanName(params.vni) in s.target ==> !s.target[VxLanName(params.vni)].kind.Veth?
    ensures ReplacedAt(s, VxlanEnsured(s, params, bridgeIndex).value, VxLanName(params.vni))
  {
    var name := VxLanName(params.vni);
    var c := VxlanCreated(s, params, bridgeIndex).value;
    if c == s {
      ReplacedBySelf(s, name);
    } else {
      var d := Cleared(s, name);
      ClearedShape(s, name);
      var lo := d.target[Underlay.UnderlayLoopback].index;
      ClearedThenAdded(s, d, name, Vxlan(VxlanInfoFor(params, lo)), bridgeIndex);
    }
    assert Consistent(c) && ReplacedAt(s, c, name);
    ReplacedModified(s, c, name, SetAddrGenModeNone);
    var c2 := Modified(c, Target, c.target[name].index, SetAddrGenModeNone);
    ReplacedModified(s, c2, name, SetNeighSuppression);
    var c3 := Modified(c2, Target, c2.target[name].index, SetNeighSuppression);
    ReplacedModified(s, c3, name, SetUp);
  }

  /** `t` differs from `s` at most in the link `n` of namespace `ns`, which keeps its index, kind and master. */
  predicate TouchedAt(s: KState, t: KState, ns: Ns, n: string) {
    && n in Links(s, ns) && Links(t, ns).Keys == Links(s, ns).Keys
    && Links(t, ns)[n].index == Links(s, ns)[n].index && Links(t, ns)[n].kind == Links(s, ns)[n].kind
    && Links(t, ns)[n].master == Links(s, ns)[n].master && Links(s, ns)[n].addrs <= Links(t, ns)[n].addrs
    && (forall n' :: n' in Links(s, ns) && n' != n ==> Links(t, ns)[n'] == Links(s, ns)[n'])
    && (ns == Host ==> t.target == s.target) && (ns == Target ==> t.host == s.host)
    && t.targetRoutes == s.targetRoutes && t.nextIndex == s.nextIndex
  }

  lemma TouchedTrans(s: KState, t: KState, u: KState, ns: Ns, n: string)
    requires TouchedAt(s, t, ns, n) && TouchedAt(t, u, ns, n)
    ensures TouchedAt(s, u, ns, n)
  {
  }

  /** The address step touches the leg alone and leaves a canonical address on it. */
  lemma AssignedTouched(s: KState, ns: Ns, n: string, address: string)
    requires Consistent(s) && n in Links(s, ns) && Canonical(address)
    requires AddressAssigned(s, ns, Links(s, ns)[n].index, address).Some?
    ensures var t := AddressAssigned(s, ns, Links(s, ns)[n].index, address).value;
      && Consistent(t) && TouchedAt(s, t, ns, n) && ParseAddr(address).value in Links(t, ns)[n].addrs
  {
    AddressAssignedAt(s, ns, n, address);
  }

  /** The set-up step touches the leg alone and leaves it up. */
  lemma SetUpTouched(s: KState, ns: Ns, n: string)
    requires Consistent(s) && n in Links(s, ns)
    ensures var t := Modified(s, ns, Links(s, ns)[n].index, SetUp);
      && Consistent(t) && TouchedAt(s, t, ns, n) && Links(t, ns)[n].up && Links(t, ns)[n].addrs == Links(s, ns)[n].addrs
  {
    ModifiedAt(s, ns, n, SetUp);
  }

  /**
   * A leg's address and set-up steps touch that leg alone: it keeps its name, index, kind
   * and master, is up and carries the address.
   */
  lemma LegReadyAt(s: KState, ns: Ns, n: string, address: string)
    requires Consistent(s) && n in Links(s, ns) && Canonical(address)
    requires LegReady(s, ns, Links(s, ns)[n].index, address).Some?
    ensures var t := LegReady(s, ns, Links(s, ns)[n].index, address).value;
      && Consistent(t) && TouchedAt(s, t, ns, n)
      && Links(t, ns)[n].up && ParseAddr(address).value in Links(t, ns)[n].addrs
  {
    var i := Links(s, ns)[n].index;
    AssignedTouched(s, ns, n, address);
    var s1 := AddressAssigned(s, ns, i, address).value;
    SetUpTouched(s1, ns, n);
    var t := Modified(s1, ns, i, SetUp);
    assert LegReady(s, ns, i, address) == Some(t);
    TouchedTrans(s, s1, t, ns, n);
  }

  /** Every link of index `i`, in either namespace, is a veth. */
  predicate VethsAt(s: KState, i: nat) {
    && (forall n :: n in s.host && s.host[n].index == i ==> s.host[n].kind.Veth?)
    && (forall n :: n in s.target && s.target[n].index == i ==> s.target[n].kind.Veth?)
  }

  /** Deleting a host link that is no veth keeps the other links up to their masters. */
  lemma DeletedHostFrame(s: KState, hostSide: string)
    requires Consistent(s) && hostSide in s.host && !s.host[hostSide].kind.Veth?
    ensures var d := Deleted(s, Host, s.host[hostSide].index);
      && Consistent(d) && d.target.Keys == s.target.Keys && (forall n :: n in s.target ==> Like(d.target[n], s.target[n]))
      && (forall n :: n in d.host ==> n in s.host && Like(d.host[n], s.host[n]))
  {
    var d := Deleted(s, Host, s.host[hostSide].index);
    DeletedNonVeth(s, Host, hostSide);
    assert Links(d, Host) == d.host && Links(s, Host) == s.host;
    forall n | n in s.target
      ensures n in d.target && Like(d.target[n], s.target[n])
    {
      assert d.target[n] == Released(s.target[n], {s.host[hostSide].index});
    }
    forall n | n in d.host
      ensures n in s.host && Like(d.host[n], s.host[n])
    {
      assert d.host[n] == Released(s.host[n], {s.host[hostSide].index});
    }
  }

  /** A new pair holds veths only at the peer's index and leaves the target namespace as it was. */
  lemma AddedVethFrame(d: KState, hostSide: string, peSide: string)
    requires Consistent(d) && CanAddVeth(d, Host, hostSide, peSide)
    ensures var c := AddedVeth(d, Host, hostSide, peSide);
      && Consistent(c) && hostSide in c.host && c.host[hostSide].kind.Veth?
      && VethsAt(c, c.host[hostSide].kind.peerIndex) && c.target == d.target
      && (forall n :: n in c.host ==> n in d.host || n == hostSide || n == peSide)
      && (forall n :: n in d.host ==> c.host[n] == d.host[n])
  {
    AddedVethShape(d, hostSide, peSide);
    var c := AddedVeth(d, Host, hostSide, peSide);
    var pi := d.nextIndex + 1;
    forall n | n in c.host && c.host[n].index == pi
      ensures c.host[n].kind.Veth?
    {
      assert n == peSide;
    }
    assert forall n :: n in c.target ==> c.target[n].index < d.nextIndex;
  }

  /**
   * The first half of setupVeth leaves a host leg whose peer index holds veths only, and the
   * target namespace as it was up to masters; it creates no veth under a name of `names`.
   */
  lemma VethCreatedFrame(s: KState, vrf: string, names: set<string>)
    requires Consistent(s) && VethCreated(s, vrf).Some? && PeerIsVeth(s, vrf)
    ensures var (hostSide, peSide) := VethLegsForVRF(vrf); var c := VethCreated(s, vrf).value;
      && Consistent(c) && hostSide in c.host && c.host[hostSide].kind.Veth?
      && VethsAt(c, c.host[hostSide].kind.peerIndex)
      && c.target.Keys == s.target.Keys && (forall n :: n in s.target ==> Like(c.target[n], s.target[n]))
      && (NoVethNamed(s, names) && hostSide !in names && peSide !in names ==> NoVethNamed(c, names))
  {
    var (hostSide, peSide) := VethLegsForVRF(vrf);
    VethCreatedHasLeg(s, vrf);
    if !(hostSide in s.host && s.host[hostSide].kind.Veth?) {
      var d := if hostSide in s.host then Deleted(s, Host, s.host[hostSide].index) else s;
      if hostSide in s.host {
        DeletedHostFrame(s, hostSide);
      }
      AddedVethFrame(d, hostSide, peSide);
    }
  }

  /**
   * The second half of setupVeth keeps every target link and adds only veths there; the
   * peer index then holds veths only, and no veth gets a name of `names`.
   */
  lemma PeerPlacedFrame(c: KState, hostSide: string, names: set<string>)
    requires Consistent(c) && hostSide in c.host && c.host[hostSide].kind.Veth?
    requires PeerPlaced(c, hostSide).Some? && VethsAt(c, c.host[hostSide].kind.peerIndex)
    ensures var t := PeerPlaced(c, hostSide).value; var pi := c.host[hostSide].kind.peerIndex;
      && (forall n :: n in t.target && t.target[n].index == pi ==> t.target[n].kind.Veth?)
      && (forall n :: n in c.target ==> n in t.target && t.target[n] == c.target[n])
      && (forall n :: n in t.target && n !in c.target ==> t.target[n].kind.Veth?)
      && (forall n :: n in t.host ==> n in c.host && t.host[n].index == c.host[n].index)
      && (NoVethNamed(c, names) ==> NoVethNamed(t, names))
  {
    var pi := c.host[hostSide].kind.peerIndex;
    if HasIndex(c.host, pi) {
      var t := Moved(c, Host, pi, Target);
      assert t.target == c.target + Moving(c.host, pi);
      assert t.host == Dropped(c.host, {pi});
      forall n | n in t.target && n !in c.target
        ensures n in c.host && c.host[n].index == pi && t.target[n] == Detached(c.host[n]) && t.target[n].kind.Veth?
      {
      }
    }
  }

  /** A replacement by a link that is no veth creates no veth under a name of `names`. */
  lemma ReplacedNoVeth(s: KState, t: KState, name: string, names: set<string>)
    requires ReplacedAt(s, t, name) && NoVethNamed(s, names) && name in t.target && !t.target[name].kind.Veth?
    ensures NoVethNamed(t, names)
  {
  }

  /** With unique indices, links of different names have different indices. */
  lemma OtherIndex(s: KState, a: string, b: string)
    requires Consistent(s) && a in s.target && b in s.target && a != b
    ensures s.target[a].index != s.target[b].index
  {
  }

  /** The namespace leg `pn`, of index `pi`, is a veth under the VRF, which is `vrf` up to its master. */
  predicate Joined(s: KState, params: VNIParams, vrf: Link, pi: nat, pn: string) {
    && NamesApart(s, params)
    && params.vrf in s.target && s.target[params.vrf].index == vrf.index && s.target[params.vrf].kind == vrf.kind
    && pn in s.target && s.target[pn].index == pi && s.target[pn].kind.Veth? && s.target[pn].master == vrf.index
  }

  /** Replacing the bridge's or the VXLAN device's link keeps the joined leg exactly and the VRF up to its master. */
  lemma JoinedReplaced(s: KState, t: KState, name: string, params: VNIParams, vrf: Link, pi: nat, pn: string)
    requires Consistent(s) && ReplacedAt(s, t, name) && Joined(s, params, vrf, pi, pn)
    requires name == BridgeName(params.vni) || name == VxLanName(params.vni)
    requires name in t.target && !t.target[name].kind.Veth?
    ensures Joined(t, params, vrf, pi, pn) && t.target[pn] == s.target[pn]
    ensures Like(t.target[params.vrf], s.target[params.vrf])
  {
    assert pn != name && params.vrf != name;
    if name in s.target {
      OtherIndex(s, params.vrf, name);
    }
    ReplacedNoVeth(s, t, name, {params.vrf, BridgeName(params.vni), VxLanName(params.vni)});
  }

  /** The bridge step keeps the joined leg exactly, and leaves the bridge up, under the VRF when it is new. */
  lemma BridgeStepWired(s: KState, params: VNIParams, vrf: Link, pi: nat, pn: string)
    requires Consistent(s) && BridgeEnsured(s, params.vni, vrf.index).Some? && Joined(s, params, vrf, pi, pn)
    ensures var t := BridgeEnsured(s, params.vni, vrf.index).value; var br := BridgeName(params.vni);
      && Consistent(t) && ReplacedAt(s, t, br) && Joined(t, params, vrf, pi, pn) && t.target[pn] == s.target[pn]
      && Like(t.target[params.vrf], s.target[params.vrf])
      && br in t.target && t.target[br].kind.Bridge? && t.target[br].up && t.target[br].addrGenNone
      && (!(br in s.target && s.target[br].kind.Bridge?) ==> t.target[br].master == vrf.index)
  {
    var br := BridgeName(params.vni);
    BridgeEnsuredShape(s, params.vni, vrf.index);
    BridgeReplaced(s, params.vni, vrf.index);
    var t := BridgeEnsured(s, params.vni, vrf.index).value;
    JoinedReplaced(s, t, br, params, vrf, pi, pn);
  }

  /** The VXLAN step keeps the joined leg exactly, and a bridge under the VRF stays there. */
  lemma VxlanStepWired(s: KState, params: VNIParams, vrf: Link, pi: nat, pn: string, bridgeIndex: nat)
    requires Consistent(s) && VxlanEnsured(s, params, bridgeIndex).Some? && Joined(s, params, vrf, pi, pn)
    ensures var t := VxlanEnsured(s, params, bridgeIndex).value; var br := BridgeName(params.vni);
      && Consistent(t) && ReplacedAt(s, t, VxLanName(params.vni)) && DeviceReady(t, params, bridgeIndex)
      && Joined(t, params, vrf, pi, pn) && t.target[pn] == s.target[pn]
      && Like(t.target[params.vrf], s.target[params.vrf])
      && (br in s.target && s.target[br].master == vrf.index ==> br in t.target && t.target[br] == s.target[br])
  {
    var vx := VxLanName(params.vni);
    var br := BridgeName(params.vni);
    VxlanEnsuredShape(s, params, bridgeIndex);
    VxlanReplaced(s, params, bridgeIndex);
    var t := VxlanEnsured(s, params, bridgeIndex).value;
    JoinedReplaced(s, t, vx, params, vrf, pi, pn);
    if br in s.target && s.target[br].master == vrf.index {
      assert br != vx by { assert br[0] == 'b' && vx[0] == 'v'; }
      MasterKept(s, t, vx, br, params.vrf);
    }
  }

  /** A link whose master is a link other than the replaced one is left exactly as it was. */
  lemma MasterKept(s: KState, t: KState, name: string, n: string, m: string)
    requires Consistent(s) && ReplacedAt(s, t, name)
    requires n in s.target && m in s.target && n != name && m != name && s.target[n].master == s.target[m].index
    ensures n in t.target && t.target[n] == s.target[n]
  {
    if name in s.target {
      OtherIndex(s, m, name);
    }
  }

  /**
   * setupBridge, setupVXLan and addRouteToHost after the namespace leg joined the VRF: the
   * leg is left exactly as it was, the VRF up to its master; the bridge is up, and a new one
   * is under the VRF; the VXLAN device is ready under the bridge; the route to the host leg
   * is present.
   */
  lemma VniDevicesWired(s: KState, params: VNIParams, vrf: Link, pi: nat, pn: string)
    requires Consistent(s) && vrf.kind.Vrf? && VniDevicesEnsured(s, params, vrf, pi).Some?
    requires Joined(s, params, vrf, pi, pn)
    ensures var t := VniDevicesEnsured(s, params, vrf, pi).value; var br := BridgeName(params.vni);
      && Consistent(t)
      && t.host.Keys == s.host.Keys && (forall n :: n in s.host ==> Like(t.host[n], s.host[n]))
      && pn in t.target && t.target[pn] == s.target[pn]
      && params.vrf in t.target && Like(t.target[params.vrf], s.target[params.vrf])
      && br in t.target && t.target[br].kind.Bridge? && t.target[br].up && t.target[br].addrGenNone
      && (!(br in s.target && s.target[br].kind.Bridge?) ==> t.target[br].master == vrf.index)
      && DeviceReady(t, params, t.target[br].index)
      && HostIPToRoute(vrf, params.vethHostIP, pi).Success?
      && HostIPToRoute(vrf, params.vethHostIP, pi).value in t.targetRoutes
  {
    var br := BridgeName(params.vni);
    var vx := VxLanName(params.vni);
    assert br != vx by { assert br[0] == 'b' && vx[0] == 'v'; }
    BridgeStepWired(s, params, vrf, pi, pn);
    var s6 := BridgeEnsured(s, params.vni, vrf.index).value;
    var b := s6.target[br];
    VxlanStepWired(s6, params, vrf, pi, pn, b.index);
    var s7 := VxlanEnsured(s6, params, b.index).value;
    assert Like(s7.target[br], b);
    assert s7.target[br].index == b.index;
    var route := HostIPToRoute(vrf, params.vethHostIP, pi).value;
    RouteEnsuredShape(s7, route);
    var t := RouteEnsured(s7, route).value;
    assert t.target == s7.target && t.host == s7.host;
    assert VniDevicesEnsured(s, params, vrf, pi) == Some(t);
  }

  /** The host namespace keeps its links, up to their masters. */
  predicate HostLike(s: KState, t: KState) {
    t.host.Keys == s.host.Keys && forall n :: n in s.host ==> Like(t.host[n], s.host[n])
  }

  lemma HostLikeTrans(s: KState, t: KState, u: KState)
    requires HostLike(s, t) && HostLike(t, u)
    ensures HostLike(s, u)
  {
  }

  /** The bridge's name holds the same kind of link in both states, or is free in both. */
  predicate BridgeSlotKept(s: KState, t: KState, vni: int) {
    var br := BridgeName(vni);
    (br in t.target <==> br in s.target) && (br in s.target ==> t.target[br].kind == s.target[br].kind)
  }

  /** The namespace leg `pn`, of index `pi`, is a veth that is up and carries the address. */
  predicate LegUp(s: KState, pn: string, pi: nat, address: string)
    requires Canonical(address)
  {
    pn in s.target && s.target[pn].index == pi && s.target[pn].kind.Veth? && s.target[pn].up
    && ParseAddr(address).value in s.target[pn].addrs
  }

  /** Touching one link keeps it no veth when it was none, and so keeps names free of veths. */
  lemma TouchedNoVeth(s: KState, t: KState, ns: Ns, n: string, names: set<string>)
    requires TouchedAt(s, t, ns, n) && NoVethNamed(s, names)
    ensures NoVethNamed(t, names)
  {
  }

  /** Touching one link keeps the bridge's name as it was. */
  lemma TouchedSlotKept(s: KState, t: KState, ns: Ns, n: string, vni: int)
    requires TouchedAt(s, t, ns, n)
    ensures BridgeSlotKept(s, t, vni)
  {
    var br := BridgeName(vni);
    if ns == Target && br in s.target && br != n {
      assert t.target[br] == s.target[br];
    }
  }

  /** The namespace leg's address and set-up steps, with the names kept apart. */
  lemma NsLegStep(s: KState, params: VNIParams, pi: nat, pn: string)
    requires Consistent(s) && LegReady(s, Target, pi, params.vethNSIP).Some? && NamesApart(s, params) && Canonical(params.vethNSIP)
    requires pn in s.target && s.target[pn].index == pi && s.target[pn].kind.Veth?
    ensures var t := LegReady(s, Target, pi, params.vethNSIP).value;
      && Consistent(t) && NamesApart(t, params) && LegUp(t, pn, pi, params.vethNSIP)
      && t.host == s.host && BridgeSlotKept(s, t, params.vni)
  {
    LegReadyAt(s, Target, pn, params.vethNSIP);
    var t := LegReady(s, Target, pi, params.vethNSIP).value;
    TouchedNoVeth(s, t, Target, pn, {params.vrf, BridgeName(params.vni), VxLanName(params.vni)});
    TouchedSlotKept(s, t, Target, pn, params.vni);
  }

  lemma ReplacedHostLike(s: KState, t: KState, name: string)
    requires ReplacedAt(s, t, name)
    ensures HostLike(s, t)
  {
  }

  /** A replacement under another name keeps the namespace leg up with its address. */
  lemma ReplacedLegUp(s: KState, t: KState, name: string, pn: string, pi: nat, address: string)
    requires ReplacedAt(s, t, name) && Canonical(address) && LegUp(s, pn, pi, address) && pn != name
    ensures LegUp(t, pn, pi, address)
  {
    assert Like(t.target[pn], s.target[pn]);
  }

  /** A replacement under another name keeps the bridge's name as it was. */
  lemma ReplacedSlotKept(s: KState, t: KState, name: string, vni: int)
    requires ReplacedAt(s, t, name) && BridgeName(vni) != name
    ensures BridgeSlotKept(s, t, vni)
  {
    var br := BridgeName(vni);
    if br in s.target {
      assert Like(t.target[br], s.target[br]);
    }
  }

  /** setupVRF keeps the namespace leg up to its master, and the names apart. */
  lemma VrfStep(s: KState, params: VNIParams, pi: nat, pn: string)
    requires Consistent(s) && VrfEnsured(s, params.vrf).Some? && NamesApart(s, params) && Canonical(params.vethNSIP)
    requires LegUp(s, pn, pi, params.vethNSIP)
    ensures var t := VrfEnsured(s, params.vrf).value;
      && Consistent(t) && NamesApart(t, params) && LegUp(t, pn, pi, params.vethNSIP)
      && HostLike(s, t) && BridgeSlotKept(s, t, params.vni)
      && params.vrf in t.target && t.target[params.vrf].kind.Vrf?
  {
    var names := {params.vrf, BridgeName(params.vni), VxLanName(params.vni)};
    assert pn !in names;
    VrfEnsuredShape(s, params.vrf);
    var t := VrfEnsured(s, params.vrf).value;
    VrfReplaced(s, params.vrf);
    ReplacedNoVeth(s, t, params.vrf, names);
    ReplacedHostLike(s, t, params.vrf);
    ReplacedLegUp(s, t, params.vrf, pn, pi, params.vethNSIP);
    ReplacedSlotKept(s, t, params.vrf, params.vni);
  }

  /** Making the VRF the leg's master joins the leg to it. */
  lemma MasterStep(s: KState, params: VNIParams, pi: nat, pn: string)
    requires Consistent(s) && NamesApart(s, params) && Canonical(params.vethNSIP) && LegUp(s, pn, pi, params.vethNSIP)
    requires params.vrf in s.target && s.target[params.vrf].kind.Vrf?
    ensures var vrf := s.target[params.vrf]; var t := Modified(s, Target, pi, SetMaster(vrf.index));
      && Consistent(t) && Joined(t, params, vrf, pi, pn) && LegUp(t, pn, pi, params.vethNSIP)
      && t.host == s.host && BridgeSlotKept(s, t, params.vni)
  {
    assert pn != params.vrf && pn != BridgeName(params.vni);
    ModifiedAt(s, Target, pn, SetMaster(s.target[params.vrf].index));
  }

  /**
   * The namespace leg joins the VRF: it is up, carries its address and has the VRF as
   * master; the host links are kept up to their masters, and the bridge's name keeps the
   * kind of link it held.
   */
  lemma VrfJoinedWired(s: KState, params: VNIParams, pi: nat, pn: string)
    requires Consistent(s) && VrfJoined(s, params, pi).Some? && NamesApart(s, params) && Canonical(params.vethNSIP)
    requires pn in s.target && s.target[pn].index == pi && s.target[pn].kind.Veth?
    ensures var (t, vrf) := VrfJoined(s, params, pi).value; var br := BridgeName(params.vni);
      && Consistent(t) && vrf.kind.Vrf? && Joined(t, params, vrf, pi, pn) && LegUp(t, pn, pi, params.vethNSIP)
      && HostLike(s, t) && BridgeSlotKept(s, t, params.vni)
  {
    var br := BridgeName(params.vni);
    NsLegStep(s, params, pi, pn);
    var s3 := LegReady(s, Target, pi, params.vethNSIP).value;
    VrfStep(s3, params, pi, pn);
    var s4 := VrfEnsured(s3, params.vrf).value;
    var vrf := s4.target[params.vrf];
    MasterStep(s4, params, pi, pn);
    var t := Modified(s4, Target, pi, SetMaster(vrf.index));
    assert VrfJoined(s, params, pi) == Some((t, vrf));
    HostLikeTrans(s, s3, s4);
  }

  /**
   * After setupVeth: the peer index `pi` holds veths of the target namespace only, and the
   * host leg, of index `hi`, is still in the host namespace unless it is its own peer.
   */
  predicate VethPlaced(t: KState, params: VNIParams, pi: nat, hi: nat) {
    var hostSide := VethLegsForVRF(params.vrf).0;
    && Consistent(t) && NamesApart(t, params)
    && HasIndex(t.target, pi) && !HasIndex(t.host, pi)
    && (forall n :: n in t.target && t.target[n].index == pi ==> t.target[n].kind.Veth?)
    && (pi != hi ==> hostSide in t.host && t.host[hostSide].index == hi && t.host[hostSide].kind == Veth(pi))
  }

  /**
   * setupVeth: the host leg is a veth of the host namespace whose peer index now holds
   * veths of the target namespace only; the names stay apart and the bridge's name keeps
   * the kind of link it held.
   */
  lemma VethStep(s: KState, params: VNIParams)
    requires Consistent(s) && VethEnsured(s, params.vrf).Some? && PeerIsVeth(s, params.vrf) && NamesApart(s, params)
    ensures var hostSide := VethLegsForVRF(params.vrf).0; var c := VethCreated(s, params.vrf).value;
      var t := VethEnsured(s, params.vrf).value;
      && hostSide in c.host && c.host[hostSide].kind.Veth?
      && VethPlaced(t, params, c.host[hostSide].kind.peerIndex, c.host[hostSide].index)
      && BridgeSlotKept(s, t, params.vni)
  {
    var (hostSide, peSide) := VethLegsForVRF(params.vrf);
    var br := BridgeName(params.vni);
    var names := {params.vrf, br, VxLanName(params.vni)};
    LegNamesApart(params.vrf, params.vni);
    VethCreatedFrame(s, params.vrf, names);
    var c := VethCreated(s, params.vrf).value;
    PeerPlacedFrame(c, hostSide, names);
    PeerPlacedShape(c, hostSide);
    var t := PeerPlaced(c, hostSide).value;
    assert VethEnsured(s, params.vrf) == Some(t);
    assert br in t.target ==> br in c.target;
  }

  /** A leg's steps succeed only on a link that exists. */
  lemma LegReadyHasIndex(s: KState, ns: Ns, i: nat, address: string)
    requires Consistent(s) && LegReady(s, ns, i, address).Some?
    ensures HasIndex(Links(s, ns), i)
  {
    var s1 := AddressAssigned(s, ns, i, address).value;
    assert s1 == s || s1 == Modified(s, ns, i, AddAddr(ParseAddr(address).value));
    ChangedTable(Links(s, ns), i, AddAddr(ParseAddr(address).value), s.nextIndex);
    var n :| n in Links(s1, ns) && Links(s1, ns)[n].index == i;
    assert Links(s, ns)[n].index == i;
  }

  /** The host leg is a veth that is up and carries its address, and its peer is not in the host namespace. */
  predicate HostLegUp(s: KState, params: VNIParams, pi: nat)
    requires Canonical(params.vethHostIP)
  {
    var hostSide := VethLegsForVRF(params.vrf).0;
    && hostSide in s.host && s.host[hostSide].kind == Veth(pi) && s.host[hostSide].up
    && ParseAddr(params.vethHostIP).value in s.host[hostSide].addrs
    && !HasIndex(s.host, pi)
  }

  /** After the host leg's steps: it is up with its address, and its peer index holds veths of the target namespace only. */
  predicate HostSideReady(t: KState, params: VNIParams, pi: nat)
    requires Canonical(params.vethHostIP)
  {
    && Consistent(t) && NamesApart(t, params) && HostLegUp(t, params, pi)
    && HasIndex(t.target, pi) && (forall n :: n in t.target && t.target[n].index == pi ==> t.target[n].kind.Veth?)
  }

  /** The host leg's address and set-up steps leave it up with its address, and the target namespace as it was. */
  lemma HostLegStep(s: KState, params: VNIParams, hi: nat, pi: nat)
    requires Canonical(params.vethHostIP) && VethPlaced(s, params, pi, hi)
    requires LegReady(s, Host, hi, params.vethHostIP).Some?
    ensures var t := LegReady(s, Host, hi, params.vethHostIP).value;
      HostSideReady(t, params, pi) && t.target == s.target
  {
    var hostSide := VethLegsForVRF(params.vrf).0;
    LegReadyHasIndex(s, Host, hi, params.vethHostIP);
    assert pi != hi;
    LegReadyAt(s, Host, hostSide, params.vethHostIP);
    var t := LegReady(s, Host, hi, params.vethHostIP).value;
    assert !HasIndex(t.host, pi) by {
      forall n | n in t.host ensures t.host[n].index != pi {
        if n != hostSide {
          assert t.host[n] == s.host[n];
        }
      }
    }
    TouchedNoVeth(s, t, Host, hostSide, {params.vrf, BridgeName(params.vni), VxLanName(params.vni)});
  }

  /** setupVeth, then the host leg's address and set-up steps. */
  lemma HostSideWired(s: KState, params: VNIParams, s1: KState, hl: Link)
    requires Consistent(s) && PeerIsVeth(s, params.vrf) && NamesApart(s, params) && Canonical(params.vethHostIP)
    requires VethEnsured(s, params.vrf) == Some(s1) && Consistent(s1)
    requires var hostSide := VethLegsForVRF(params.vrf).0;
      hostSide in VethCreated(s, params.vrf).value.host && hl == VethCreated(s, params.vrf).value.host[hostSide]
    requires LegReady(s1, Host, hl.index, params.vethHostIP).Some?
    ensures var t := LegReady(s1, Host, hl.index, params.vethHostIP).value;
      && hl.kind.Veth? && HostSideReady(t, params, hl.kind.peerIndex) && BridgeSlotKept(s, t, params.vni)
  {
    VethStep(s, params);
    HostLegStep(s1, params, hl.index, hl.kind.peerIndex);
  }

  /**
   * The namespace leg of index `pi` is up, carries its address and has the VRF as its
   * master.
   */
  predicate NsLegJoined(t: KState, params: VNIParams, pi: nat)
    requires Canonical(params.vethNSIP) && params.vrf in t.target
  {
    exists n :: n in t.target && t.target[n].index == pi && t.target[n].kind.Veth? && t.target[n].up
      && ParseAddr(params.vethNSIP).value in t.target[n].addrs && t.target[n].master == t.target[params.vrf].index
  }

  /**
   * What a configured VNI looks like: the host leg is up with its address and its peer sits
   * in the target namespace, up with its address, under the VRF; the bridge is up without an
   * IPv6 link-local address; the VXLAN device is configured for the VNI under the bridge, up,
   * with no IPv6 link-local address and neighbour suppression on; the VRF's table routes the
   * host leg's address through the namespace leg.
   */
  predicate VniWired(t: KState, params: VNIParams)
    requires Canonical(params.vethHostIP) && Canonical(params.vethNSIP)
  {
    var hostSide := VethLegsForVRF(params.vrf).0;
    var br := BridgeName(params.vni);
    && hostSide in t.host && t.host[hostSide].kind.Veth?
    && var pi := t.host[hostSide].kind.peerIndex;
    && HostLegUp(t, params, pi)
    && params.vrf in t.target && t.target[params.vrf].kind.Vrf?
    && NsLegJoined(t, params, pi)
    && br in t.target && t.target[br].kind.Bridge? && t.target[br].up && t.target[br].addrGenNone
    && DeviceReady(t, params, t.target[br].index)
    && HostIPToRoute(t.target[params.vrf], params.vethHostIP, pi).Success?
    && HostIPToRoute(t.target[params.vrf], params.vethHostIP, pi).value in t.targetRoutes
  }

  /** Links kept up to their masters keep the host leg up with its address. */
  lemma HostLegUpKept(s: KState, t: KState, params: VNIParams, pi: nat)
    requires Canonical(params.vethHostIP) && HostLike(s, t) && HostLegUp(s, params, pi)
    ensures HostLegUp(t, params, pi)
  {
    assert forall n :: n in t.host ==> t.host[n].index == s.host[n].index;
  }

  /** The closure run in the target namespace leaves the VNI's namespace side wired. */
  lemma InNamespaceWired(s: KState, params: VNIParams, pi: nat, pn: string)
    requires Consistent(s) && InNamespaceEnsured(s, params, pi).Some? && NamesApart(s, params) && Canonical(params.vethNSIP)
    requires pn in s.target && s.target[pn].index == pi && s.target[pn].kind.Veth?
    ensures var t := InNamespaceEnsured(s, params, pi).value; var br := BridgeName(params.vni);
      && Consistent(t) && HostLike(s, t)
      && params.vrf in t.target && t.target[params.vrf].kind.Vrf? && NsLegJoined(t, params, pi)
      && br in t.target && t.target[br].kind.Bridge? && t.target[br].up && t.target[br].addrGenNone
      && DeviceReady(t, params, t.target[br].index)
      && HostIPToRoute(t.target[params.vrf], params.vethHostIP, pi).Success?
      && HostIPToRoute(t.target[params.vrf], params.vethHostIP, pi).value in t.targetRoutes
      && (!(br in s.target && s.target[br].kind.Bridge?) ==> t.target[br].master == t.target[params.vrf].index)
  {
    VrfJoinedWired(s, params, pi, pn);
    var (s5, vrf) := VrfJoined(s, params, pi).value;
    VniDevicesWired(s5, params, vrf, pi, pn);
    var t := VniDevicesEnsured(s5, params, vrf, pi).value;
    assert InNamespaceEnsured(s, params, pi) == Some(t);
    HostLikeTrans(s, s5, t);
    assert t.target[params.vrf].index == vrf.index && t.target[params.vrf].kind == vrf.kind;
    assert NsLegJoined(t, params, pi);
    assert HostIPToRoute(t.target[params.vrf], params.vethHostIP, pi) == HostIPToRoute(vrf, params.vethHostIP, pi);
  }

  /**
   * After a SetupVNI that the kernel refuses nothing, the VNI is wired (VniWired), and a
   * bridge the run created has the VRF as its master. Assumes the veth pairing of the kernel,
   * names that do not collide, and addresses written in their printed form.
   */
  lemma VniEnsuredWired(s: KState, params: VNIParams, targetName: string)
    requires Consistent(s) && VniEnsured(s, params, targetName).Some?
    requires PeerIsVeth(s, params.vrf) && NamesApart(s, params)
    requires Canonical(params.vethHostIP) && Canonical(params.vethNSIP)
    ensures var t := VniEnsured(s, params, targetName).value; var br := BridgeName(params.vni);
      && Consistent(t) && VniWired(t, params)
      && (!(br in s.target && s.target[br].kind.Bridge?) ==> t.target[br].master == t.target[params.vrf].index)
  {
    var hostSide := VethLegsForVRF(params.vrf).0;
    var br := BridgeName(params.vni);
    VethCreatedHasLeg(s, params.vrf);
    var hl := VethCreated(s, params.vrf).value.host[hostSide];
    var pi := hl.kind.peerIndex;
    var s1 := VethEnsured(s, params.vrf).value;
    VethStep(s, params);
    HostSideWired(s, params, s1, hl);
    var s2 := LegReady(s1, Host, hl.index, params.vethHostIP).value;
    var pn :| pn in s2.target && s2.target[pn].index == pi;
    InNamespaceWired(s2, params, pi, pn);
    var t := InNamespaceEnsured(s2, params, pi).value;
    assert VniEnsured(s, params, targetName) == Some(t);
    HostLegUpKept(s2, t, params, pi);
  }

  // ----- a second run -----

  /** A leg that carries a canonical address is left as it is by the address step. */
  lemma AssignedStable(t: KState, ns: Ns, n: string, address: string)
    requires Consistent(t) && n in Links(t, ns) && Canonical(address)
    requires ParseAddr(address).value in Links(t, ns)[n].addrs
    ensures AddressAssigned(t, ns, Links(t, ns)[n].index, address) == Some(t)
  {
    var l := Links(t, ns)[n];
    AddrsAtName(Links(t, ns), n);
    CarriesPrinted(l.addrs, ParseAddr(address).value);
  }

  /** A leg that is up and carries a canonical address is left as it is by its steps. */
  lemma LegStable(t: KState, ns: Ns, n: string, address: string)
    requires Consistent(t) && n in Links(t, ns) && Canonical(address)
    requires Links(t, ns)[n].up && ParseAddr(address).value in Links(t, ns)[n].addrs
    ensures LegReady(t, ns, Links(t, ns)[n].index, address) == Some(t)
  {
    AssignedStable(t, ns, n, address);
    ModifiedNoOp(t, ns, n, SetUp);
    assert HasIndex(Links(t, ns), Links(t, ns)[n].index);
  }

  /** setupVeth leaves a host leg whose peer sits in the target namespace as it is. */
  lemma VethStable(t: KState, vrf: string)
    requires Consistent(t)
    requires var hostSide := VethLegsForVRF(vrf).0;
      && hostSide in t.host && t.host[hostSide].kind.Veth?
      && !HasIndex(t.host, t.host[hostSide].kind.peerIndex) && HasIndex(t.target, t.host[hostSide].kind.peerIndex)
    ensures VethCreated(t, vrf) == Some(t) && VethEnsured(t, vrf) == Some(t)
  {
  }

  /** A namespace leg that is up with its address under the VRF stays as it is when it joins the VRF again. */
  lemma VrfJoinedStable(t: KState, params: VNIParams, pi: nat)
    requires Consistent(t) && Canonical(params.vethNSIP)
    requires params.vrf in t.target && t.target[params.vrf].kind.Vrf? && NsLegJoined(t, params, pi)
    ensures VrfJoined(t, params, pi) == Some((t, t.target[params.vrf]))
  {
    var vrf := t.target[params.vrf];
    var pn :| pn in t.target && t.target[pn].index == pi && t.target[pn].kind.Veth? && t.target[pn].up
      && ParseAddr(params.vethNSIP).value in t.target[pn].addrs && t.target[pn].master == vrf.index;
    LegStable(t, Target, pn, params.vethNSIP);
    assert VrfEnsured(t, params.vrf) == Some(t);
    ModifiedNoOp(t, Target, pn, SetMaster(vrf.index));
  }

  /** A bridge and VXLAN device that are ready, and a route that is present, stay as they are. */
  lemma DevicesStable(t: KState, params: VNIParams, vrf: Link, pi: nat)
    requires Consistent(t) && vrf.kind.Vrf?
    requires var br := BridgeName(params.vni);
      && br in t.target && t.target[br].kind.Bridge? && t.target[br].up && t.target[br].addrGenNone
      && DeviceReady(t, params, t.target[br].index)
    requires HostIPToRoute(vrf, params.vethHostIP, pi).Success? && HostIPToRoute(vrf, params.vethHostIP, pi).value in t.targetRoutes
    ensures VniDevicesEnsured(t, params, vrf, pi) == Some(t)
  {
    BridgeStable(t, params.vni, vrf.index);
    VxlanStable(t, params, t.target[BridgeName(params.vni)].index);
  }

  /** The closure run in the target namespace leaves a wired namespace side as it is. */
  lemma InNamespaceStable(t: KState, params: VNIParams, pi: nat)
    requires Consistent(t) && Canonical(params.vethNSIP)
    requires params.vrf in t.target && t.target[params.vrf].kind.Vrf? && NsLegJoined(t, params, pi)
    requires var br := BridgeName(params.vni);
      && br in t.target && t.target[br].kind.Bridge? && t.target[br].up && t.target[br].addrGenNone
      && DeviceReady(t, params, t.target[br].index)
    requires HostIPToRoute(t.target[params.vrf], params.vethHostIP, pi).Success?
    requires HostIPToRoute(t.target[params.vrf], params.vethHostIP, pi).value in t.targetRoutes
    ensures InNamespaceEnsured(t, params, pi) == Some(t)
  {
    VrfJoinedStable(t, params, pi);
    DevicesStable(t, params, t.target[params.vrf], pi);
  }

  /** SetupVNI leaves a wired VNI as it is. */
  lemma VniWiredStable(t: KState, params: VNIParams, targetName: string)
    requires Consistent(t) && Canonical(params.vethHostIP) && Canonical(params.vethNSIP)
    requires VniWired(t, params) && params.targetNS == targetName
    ensures VniEnsured(t, params, targetName) == Some(t)
  {
    var hostSide := VethLegsForVRF(params.vrf).0;
    var pi := t.host[hostSide].kind.peerIndex;
    assert HasIndex(t.target, pi);
    VethStable(t, params.vrf);
    LegStable(t, Host, hostSide, params.vethHostIP);
    InNamespaceStable(t, params, pi);
  }

  /**
   * SetupVNI converges: after a run the kernel refuses nothing, a second run with the same
   * parameters changes nothing (under the assumptions of VniEnsuredWired).
   */
  lemma VniEnsuredIdempotent(s: KState, params: VNIParams, targetName: string)
    requires Consistent(s) && VniEnsured(s, params, targetName).Some?
    requires PeerIsVeth(s, params.vrf) && NamesApart(s, params)
    requires Canonical(params.vethHostIP) && Canonical(params.vethNSIP)
    ensures var t := VniEnsured(s, params, targetName).value;
      Consistent(t) && VniEnsured(t, params, targetName) == Some(t)
  {
    VniEnsuredWired(s, params, targetName);
    VniWiredStable(VniEnsured(s, params, targetName).value, params, targetName);
  }
}
