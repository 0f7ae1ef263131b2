// The per-VNI bridge inside the target namespace (internal/hostnetwork/bridge.go): named
// after the VNI, enslaved to the VRF when it is created.
module Bridge {
  import opened Wrappers
  import opened Text
  import opened Kernel

  const BridgePrefix: string := "br"

  /** bridgeName: "br" followed by the VNI in decimal. */
  function BridgeName(vni: int): (name: string)
    ensures HasPrefix(name, BridgePrefix)
  {
    TrimPrefixOfConcat(BridgePrefix, IntToDec(vni));
    BridgePrefix + IntToDec(vni)
  }

  /**
   * vniFromBridgeName: the VNI a bridge name carries: the text after "br" read as a decimal
   * integer; an error when it is not one.
   */
  function VniFromBridgeName(name: string): (r: Result<int, string>)
    ensures r.Failure? <==> Atoi(TrimPrefix(name, BridgePrefix)).None?
    ensures r.Success? ==> InInt64(r.value)
  {
    match Atoi(TrimPrefix(name, BridgePrefix))
    case None => Failure("failed to get vni for bridge " + name)
    case Some(v) => Success(v)
  }

  /** Reading a bridge name gives back its VNI, so distinct VNIs have distinct bridges. */
  lemma BridgeNameRoundTrip(vni: int)
    requires InInt64(vni)
    ensures VniFromBridgeName(BridgeName(vni)) == Success(vni)
  {
    TrimPrefixOfConcat(BridgePrefix, IntToDec(vni));
    AtoiIntToDec(vni);
  }

  lemma BridgeNameInjective(a: int, b: int)
    requires InInt64(a) && InInt64(b) && BridgeName(a) == BridgeName(b)
    ensures a == b
  {
    BridgeNameRoundTrip(a);
    BridgeNameRoundTrip(b);
  }

  datatype BridgeError =
    | BridgeAddRefused(name: string)
    | BridgeDelRefused(name: string)
    | AddrGenRefused(name: string)
    | BridgeUpRefused(name: string)

  /** createBridge: add a bridge with the VRF as master. Returns the new bridge. */
  method CreateBridge(k: Kernel, name: string, vrfIndex: nat) returns (r: Result<Link, BridgeError>)
    requires k.Valid()
    modifies k
    ensures k.Valid() && k.faults >= old(k.faults)
    ensures r.Success? <==> CanAdd(old(k.State()), Target, name, vrfIndex) && k.faults == old(k.faults)
    ensures k.State() == if r.Success? then Added(old(k.State()), Target, name, Bridge, vrfIndex) else old(k.State())
    ensures r.Success? ==> r.value == Fresh(name, old(k.State()).nextIndex, Bridge, vrfIndex)
    ensures r.Failure? ==> r.error == BridgeAddRefused(name)
  {
    var ok := k.LinkAdd(Target, name, Bridge, vrfIndex);
    if !ok {
      return Failure(BridgeAddRefused(name));
    }
    return Success(k.State().target[name]);
  }

  /**
   * The first half of setupBridge: a bridge of that name exists afterwards. An existing
   * bridge is kept as it is, master included; a link of another kind is deleted and a bridge
   * created under the VRF. None when the kernel would refuse the creation.
   */
  function BridgeCreated(s: KState, vni: int, vrfIndex: nat): Option<KState> {
    var name := BridgeName(vni);
    if name in s.target && s.target[name].kind.Bridge? then Some(s)
    else
      var d := if name in s.target then Deleted(s, Target, s.target[name].index) else s;
      if CanAdd(d, Target, name, vrfIndex) then Some(Added(d, Target, name, Bridge, vrfIndex)) else None
  }

  lemma BridgeCreatedShape(s: KState, vni: int, vrfIndex: nat)
    requires Consistent(s) && BridgeCreated(s, vni, vrfIndex).Some?
    ensures var name := BridgeName(vni); var t := BridgeCreated(s, vni, vrfIndex).value;
      && Consistent(t) && name in t.target && t.target[name].kind.Bridge?
      && (name in s.target && s.target[name].kind.Bridge? ==> t == s)
      && (!(name in s.target && s.target[name].kind.Bridge?) ==> t.target[name].master == vrfIndex)
  {
    var name := BridgeName(vni);
    if !(name in s.target && s.target[name].kind.Bridge?) {
      var d := if name in s.target then Deleted(s, Target, s.target[name].index) else s;
      if name in s.target {
        DeletedConsistent(s, Target, s.target[name].index);
      }
      AddedAt(d, Target, name, Bridge, vrfIndex);
    }
  }

  /** The bridge of the VNI, afterwards set to no address autogeneration and up. */
  function BridgeEnsured(s: KState, vni: int, vrfIndex: nat): Option<KState>
    requires Consistent(s)
  {
    match BridgeCreated(s, vni, vrfIndex)
    case None => None
    case Some(s1) =>
      BridgeCreatedShape(s, vni, vrfIndex);
      var i := s1.target[BridgeName(vni)].index;
      Some(Modified(Modified(s1, Target, i, SetAddrGenModeNone), Target, i, SetUp))
  }

  /**
   * After a successful setupBridge the bridge is up with autogeneration off; a new bridge has
   * the VRF as master while a reused one keeps its master.
   */
  lemma BridgeEnsuredShape(s: KState, vni: int, vrfIndex: nat)
    requires Consistent(s) && BridgeEnsured(s, vni, vrfIndex).Some?
    ensures var name := BridgeName(vni); var t := BridgeEnsured(s, vni, vrfIndex).value;
      && Consistent(t) && name in t.target
      && t.target[name].kind.Bridge? && t.target[name].up && t.target[name].addrGenNone
      && (name in s.target && s.target[name].kind.Bridge? ==> t.target[name].master == s.target[name].master)
      && (!(name in s.target && s.target[name].kind.Bridge?) ==> t.target[name].master == vrfIndex)
  {
    var name := BridgeName(vni);
    BridgeCreatedShape(s, vni, vrfIndex);
    var s1 := BridgeCreated(s, vni, vrfIndex).value;
    var l := s1.target[name];
    ModifiedAt(s1, Target, name, SetAddrGenModeNone);
    var s2 := Modified(s1, Target, l.index, SetAddrGenModeNone);
    assert s2.target[name] == l.(addrGenNone := true);
    ModifiedAt(s2, Target, name, SetUp);
    var t := Modified(s2, Target, l.index, SetUp);
    assert t.target[name] == l.(addrGenNone := true, up := true);
  }

  /** A bridge that is up with autogeneration off is left as it is. */
  lemma BridgeStable(t: KState, vni: int, vrfIndex: nat)
    requires Consistent(t) && BridgeName(vni) in t.target
    requires var l := t.target[BridgeName(vni)]; l.kind.Bridge? && l.up && l.addrGenNone
    ensures BridgeEnsured(t, vni, vrfIndex) == Some(t)
  {
    var name := BridgeName(vni);
    assert BridgeCreated(t, vni, vrfIndex) == Some(t);
    var i := t.target[name].index;
    ModifiedNoOp(t, Target, name, SetAddrGenModeNone);
    ModifiedNoOp(t, Target, name, SetUp);
  }

  /** setupBridge converges: a second run after a successful one changes nothing. */
  lemma BridgeEnsuredIdempotent(s: KState, vni: int, vrfIndex: nat)
    requires Consistent(s) && BridgeEnsured(s, vni, vrfIndex).Some?
    ensures var t := BridgeEnsured(s, vni, vrfIndex).value; Consistent(t) && BridgeEnsured(t, vni, vrfIndex) == Some(t)
  {
    BridgeEnsuredShape(s, vni, vrfIndex);
    var t := BridgeEnsured(s, vni, vrfIndex).value;
    BridgeStable(t, vni, vrfIndex);
  }

  /** The first half of setupBridge: find the bridge, or (re)create it. */
  method EnsureBridgeLink(k: Kernel, vni: int, vrfIndex: nat) returns (r: Result<Link, BridgeError>)
    requires k.Valid()
    modifies k
    ensures k.Valid() && k.faults >= old(k.faults)
    ensures r.Success? ==> BridgeCreated(old(k.State()), vni, vrfIndex) == Some(k.State())
    ensures r.Success? ==> BridgeName(vni) in k.State().target && r.value.index == k.State().target[BridgeName(vni)].index
    ensures k.faults == old(k.faults) && BridgeCreated(old(k.State()), vni, vrfIndex).Some? ==> r.Success?
  {
    var name := BridgeName(vni);
    var link := k.LinkByName(Target, name);
    if link.None? {
      r := CreateBridge(k, name, vrfIndex);
      return;
    }
    if !link.value.kind.Bridge? {
      var ok := k.LinkDel(Target, link.value.index);
      if !ok {
        return Failure(BridgeDelRefused(name));
      }
      r := CreateBridge(k, name, vrfIndex);
      return;
    }
    return Success(link.value);
  }

  /**
   * setupBridge: ensure the VNI's bridge exists (created under the VRF when missing), turn
   * address autogeneration off and set it up. Returns the bridge.
   */
  method SetupBridge(k: Kernel, vni: int, vrf: Link) returns (r: Result<Link, BridgeError>)
    requires k.Valid()
    modifies k
    ensures k.Valid() && k.faults >= old(k.faults)
    ensures r.Success? ==> BridgeEnsured(old(k.State()), vni, vrf.index) == Some(k.State())
    ensures r.Success? ==> BridgeName(vni) in k.State().target && r.value.index == k.State().target[BridgeName(vni)].index
    ensures k.faults == old(k.faults) && BridgeEnsured(old(k.State()), vni, vrf.index).Some? ==> r.Success?
  {
    var name := BridgeName(vni);
    ghost var s0 := k.State();
    var link := EnsureBridgeLink(k, vni, vrf.index);
    if link.Failure? {
      return link;
    }
    var bridge := link.value;
    ghost var s1 := k.State();
    BridgeCreatedShape(s0, vni, vrf.index);
    ModifiedAt(s1, Target, name, SetAddrGenModeNone);
    var ok := k.Modify(Target, bridge.index, SetAddrGenModeNone);
    if !ok {
      return Failure(AddrGenRefused(name));
    }
    ModifiedAt(k.State(), Target, name, SetUp);
    ok := k.Modify(Target, bridge.index, SetUp);
    if !ok {
      return Failure(BridgeUpRefused(name));
    }
    return Success(bridge);
  }
}
