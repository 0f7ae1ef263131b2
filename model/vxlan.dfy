// The per-VNI VXLAN device of the target namespace (internal/hostnetwork/vxlan.go): named
// after the VNI, enslaved to the VNI's bridge and sending from the VTEP address through the
// underlay loopback "lound".
module Vxlan {
  import opened Wrappers
  import opened Text
  import opened IPv4
  import opened Kernel
  import opened HostNetworkTypes
  import Underlay

  const VniPrefix: string := "vni"

  /** vxLanName: "vni" followed by the VNI in decimal. */
  function VxLanName(vni: int): (name: string)
    ensures HasPrefix(name, VniPrefix)
    ensures name != Underlay.UnderlayLoopback
  {
    TrimPrefixOfConcat(VniPrefix, IntToDec(vni));
    assert (VniPrefix + IntToDec(vni))[0] == 'v';
    VniPrefix + IntToDec(vni)
  }

  /**
   * vniFromVXLanName: the VNI a device name carries: the text after "vni" read as a decimal
   * integer; an error when it is not one.
   */
  function VniFromVXLanName(name: string): (r: Result<int, string>)
    ensures r.Failure? <==> Atoi(TrimPrefix(name, VniPrefix)).None?
    ensures r.Success? ==> InInt64(r.value)
  {
    match Atoi(TrimPrefix(name, VniPrefix))
    case None => Failure("failed to get vni for vxlan " + name)
    case Some(v) => Success(v)
  }

  /** Reading a device name gives back its VNI. */
  lemma VxLanNameRoundTrip(vni: int)
    requires InInt64(vni)
    ensures VniFromVXLanName(VxLanName(vni)) == Success(vni)
  {
    TrimPrefixOfConcat(VniPrefix, IntToDec(vni));
    AtoiIntToDec(vni);
  }

  /** Distinct VNIs have distinct devices. */
  lemma VxLanNameInjective(a: int, b: int)
    requires InInt64(a) && InInt64(b) && VxLanName(a) == VxLanName(b)
    ensures a == b
  {
    VxLanNameRoundTrip(a);
    VxLanNameRoundTrip(b);
  }

  /**
   * The source address createVXLan gives the device: the address part of the VTEP text read
   * as a CIDR, which is the address the underlay puts on the loopback; none when the text
   * does not parse.
   */
  function VtepSource(vtepIP: string): (r: Option<IP>)
    ensures r.None? <==> ParseAddr(vtepIP).None?
    ensures r.Some? ==> r.value == ParseAddr(vtepIP).value.ip
  {
    match ParseCIDR(vtepIP)
    case None => None
    case Some((ip, _)) => Some(ip)
  }

  /** The VXLAN parameters createVXLan sets: the VNI, the port, no learning, the VTEP source and the loopback. */
  function VxlanInfoFor(params: VNIParams, loopbackIndex: nat): VxlanInfo {
    VxlanInfo(params.vni, params.vxlanPort, false, VtepSource(params.vtepIP), loopbackIndex)
  }

  /** Which field checkVXLanConfigured found wrong, in the order it looks at them. */
  datatype Mismatch = MasterMismatch | IdMismatch | PortMismatch | LearningEnabled | SrcAddrMismatch | VtepDevMismatch

  /** The checks of checkVXLanConfigured, with the source address it expects given as `src`. */
  function FirstMismatch(vxlan: Link, bridgeIndex: nat, loopbackIndex: nat, params: VNIParams, src: Option<IP>): (r: Option<Mismatch>)
    requires vxlan.kind.Vxlan?
    ensures r.None? <==>
      vxlan.master == bridgeIndex && vxlan.kind.info == VxlanInfo(params.vni, params.vxlanPort, false, src, loopbackIndex)
  {
    var info := vxlan.kind.info;
    if vxlan.master != bridgeIndex then Some(MasterMismatch)
    else if info.id != params.vni then Some(IdMismatch)
    else if info.port != params.vxlanPort then Some(PortMismatch)
    else if info.learning then Some(LearningEnabled)
    else if info.srcAddr != src then Some(SrcAddrMismatch)
    else if info.vtepDevIndex != loopbackIndex then Some(VtepDevMismatch)
    else None
  }

  /**
   * checkVXLanConfigured as written: the source address is compared with the VTEP text read
   * as a bare address (net.ParseIP), which yields nothing for a CIDR text.
   */
  function CheckVXLanConfiguredAsWritten(vxlan: Link, bridgeIndex: nat, loopbackIndex: nat, params: VNIParams): (r: Option<Mismatch>)
    requires vxlan.kind.Vxlan?
    ensures r.None? <==>
      vxlan.master == bridgeIndex
      && vxlan.kind.info == VxlanInfo(params.vni, params.vxlanPort, false, ParseIP(params.vtepIP), loopbackIndex)
  {
    FirstMismatch(vxlan, bridgeIndex, loopbackIndex, params, ParseIP(params.vtepIP))
  }

  /**
   * checkVXLanConfigured with the source address read the way createVXLan reads it: the
   * device passes exactly when it is the device createVXLan would build.
   */
  function CheckVXLanConfigured(vxlan: Link, bridgeIndex: nat, loopbackIndex: nat, params: VNIParams): (r: Option<Mismatch>)
    requires vxlan.kind.Vxlan?
    ensures r.None? <==> vxlan.master == bridgeIndex && vxlan.kind.info == VxlanInfoFor(params, loopbackIndex)
  {
    FirstMismatch(vxlan, bridgeIndex, loopbackIndex, params, VtepSource(params.vtepIP))
  }

  /**
   * The device createVXLan builds from a CIDR VTEP text (the form the underlay assigns) is
   * rejected by the check as written, on its source address, and accepted by the corrected
   * check: as written, setupVXLan deletes and re-creates a correct device on every pass.
   */
  lemma CreatedDeviceRejectedAsWritten(params: VNIParams, bridgeIndex: nat, loopbackIndex: nat, l: Link)
    requires ParseAddr(params.vtepIP).Some?
    requires l.kind == Vxlan(VxlanInfoFor(params, loopbackIndex)) && l.master == bridgeIndex
    ensures CheckVXLanConfiguredAsWritten(l, bridgeIndex, loopbackIndex, params) == Some(SrcAddrMismatch)
    ensures CheckVXLanConfigured(l, bridgeIndex, loopbackIndex, params) == None
  {
    SlashedTextIsNotAnIP(params.vtepIP);
  }

  datatype VxlanError =
    | LoopbackNotFound
    | VxlanAddRefused(name: string)
    | VxlanDelRefused(name: string)
    | AddrGenRefused(name: string)
    | NeighSuppressionRefused(name: string)
    | VxlanUpRefused(name: string)

  /**
   * createVXLan: look up the loopback and add the VNI's device under the bridge, with the
   * VXLAN parameters of VxlanInfoFor. Returns the new device, which the check accepts.
   */
  method CreateVXLan(k: Kernel, params: VNIParams, bridge: Link) returns (r: Result<Link, VxlanError>)
    requires k.Valid()
    modifies k
    ensures k.Valid() && k.faults >= old(k.faults)
    ensures Underlay.UnderlayLoopback !in old(k.target) ==> r == Failure(LoopbackNotFound) && k.State() == old(k.State())
    ensures Underlay.UnderlayLoopback in old(k.target) ==>
      var name := VxLanName(params.vni);
      var lo := old(k.target)[Underlay.UnderlayLoopback].index;
      var kind := Vxlan(VxlanInfoFor(params, lo));
      && (r.Success? <==> CanAdd(old(k.State()), Target, name, bridge.index) && k.faults == old(k.faults))
      && k.State() == (if r.Success? then Added(old(k.State()), Target, name, kind, bridge.index) else old(k.State()))
      && (r.Success? ==> r.value == Fresh(name, old(k.nextIndex), kind, bridge.index)
                         && r.value == k.target[name]
                         && CheckVXLanConfigured(r.value, bridge.index, lo, params).None?)
      && (r.Failure? ==> r.error == VxlanAddRefused(name))
  {
    var loopback := k.LinkByName(Target, Underlay.UnderlayLoopback);
    if loopback.None? {
      return Failure(LoopbackNotFound);
    }
    var name := VxLanName(params.vni);
    var info := VxlanInfoFor(params, loopback.value.index);
    var ok := k.LinkAdd(Target, name, Vxlan(info), bridge.index);
    if !ok {
      return Failure(VxlanAddRefused(name));
    }
    return Success(k.target[name]);
  }

  /**
   * The device step of setupVXLan when the kernel refuses nothing: a VXLAN device of that
   * name that passes the check is kept; any other link of that name is deleted and the
   * device created. None when "lound" is missing or the kernel would refuse the creation.
   */
  function VxlanCreated(s: KState, params: VNIParams, bridgeIndex: nat): Option<KState> {
    var name := VxLanName(params.vni);
    if Underlay.UnderlayLoopback !in s.target then None
    else if name in s.target && s.target[name].kind.Vxlan?
            && CheckVXLanConfigured(s.target[name], bridgeIndex, s.target[Underlay.UnderlayLoopback].index, params).None?
    then Some(s)
    else VxlanAdded(if name in s.target then Deleted(s, Target, s.target[name].index) else s, params, bridgeIndex)
  }

  /** createVXLan when the kernel refuses nothing. */
  function VxlanAdded(s: KState, params: VNIParams, bridgeIndex: nat): Option<KState> {
    var name := VxLanName(params.vni);
    if Underlay.UnderlayLoopback !in s.target || !CanAdd(s, Target, name, bridgeIndex) then None
    else
      var lo := s.target[Underlay.UnderlayLoopback].index;
      Some(Added(s, Target, name, Vxlan(VxlanInfoFor(params, lo)), bridgeIndex))
  }

  /** A device is configured for the VNI when it is a VXLAN device the check accepts against "lound". */
  predicate DeviceConfigured(t: KState, params: VNIParams, bridgeIndex: nat) {
    var name := VxLanName(params.vni);
    && Underlay.UnderlayLoopback in t.target && name in t.target && t.target[name].kind.Vxlan?
    && CheckVXLanConfigured(t.target[name], bridgeIndex, t.target[Underlay.UnderlayLoopback].index, params).None?
  }

  /** After the device step the VNI's device is a VXLAN device the check accepts; a passing device is reused. */
  lemma VxlanCreatedShape(s: KState, params: VNIParams, bridgeIndex: nat)
    requires Consistent(s) && VxlanCreated(s, params, bridgeIndex).Some?
    ensures var t := VxlanCreated(s, params, bridgeIndex).value;
      && Consistent(t) && DeviceConfigured(t, params, bridgeIndex)
      && (DeviceConfigured(s, params, bridgeIndex) ==> t == s)
      && t.target[Underlay.UnderlayLoopback].index == s.target[Underlay.UnderlayLoopback].index
  {
    var name := VxLanName(params.vni);
    var lound := Underlay.UnderlayLoopback;
    if !DeviceConfigured(s, params, bridgeIndex) {
      var d := if name in s.target then Deleted(s, Target, s.target[name].index) else s;
      if name in s.target {
        DeletedConsistent(s, Target, s.target[name].index);
        assert lound in d.target;
        assert d.target[lound].index == s.target[lound].index;
      }
      var lo := d.target[lound].index;
      AddedAt(d, Target, name, Vxlan(VxlanInfoFor(params, lo)), bridgeIndex);
    }
  }

  /**
   * What setupVXLan leaves behind when the kernel refuses nothing: the device of the VNI,
   * afterwards with address autogeneration off, neighbour suppression on, and up.
   */
  function VxlanEnsured(s: KState, params: VNIParams, bridgeIndex: nat): Option<KState>
    requires Consistent(s)
  {
    match VxlanCreated(s, params, bridgeIndex)
    case None => None
    case Some(s1) =>
      VxlanCreatedShape(s, params, bridgeIndex);
      var i := s1.target[VxLanName(params.vni)].index;
      Some(Modified(Modified(Modified(s1, Target, i, SetAddrGenModeNone), Target, i, SetNeighSuppression), Target, i, SetUp))
  }

  /** A device that passes the check and is up with both flags set is ready. */
  predicate DeviceReady(t: KState, params: VNIParams, bridgeIndex: nat) {
    var name := VxLanName(params.vni);
    DeviceConfigured(t, params, bridgeIndex) && t.target[name].up && t.target[name].addrGenNone && t.target[name].neighSuppress
  }

  /** After a successful setupVXLan the VNI's device is configured, up and has both flags set. */
  lemma VxlanEnsuredShape(s: KState, params: VNIParams, bridgeIndex: nat)
    requires Consistent(s) && VxlanEnsured(s, params, bridgeIndex).Some?
    ensures var t := VxlanEnsured(s, params, bridgeIndex).value;
      Consistent(t) && DeviceReady(t, params, bridgeIndex)
  {
    var name := VxLanName(params.vni);
    var lound := Underlay.UnderlayLoopback;
    VxlanCreatedShape(s, params, bridgeIndex);
    var s1 := VxlanCreated(s, params, bridgeIndex).value;
    var l := s1.target[name];
    ModifiedAt(s1, Target, name, SetAddrGenModeNone);
    var s2 := Modified(s1, Target, l.index, SetAddrGenModeNone);
    assert s2.target[name] == l.(addrGenNone := true);
    ModifiedAt(s2, Target, name, SetNeighSuppression);
    var s3 := Modified(s2, Target, l.index, SetNeighSuppression);
    assert s3.target[name] == l.(addrGenNone := true, neighSuppress := true);
    ModifiedAt(s3, Target, name, SetUp);
    var t := Modified(s3, Target, l.index, SetUp);
    assert t.target[name] == l.(addrGenNone := true, neighSuppress := true, up := true);
    assert t.target[lound] == s1.target[lound];
  }

  /** A ready device is left as it is. */
  lemma VxlanStable(t: KState, params: VNIParams, bridgeIndex: nat)
    requires Consistent(t) && DeviceReady(t, params, bridgeIndex)
    ensures VxlanEnsured(t, params, bridgeIndex) == Some(t)
  {
    var name := VxLanName(params.vni);
    assert VxlanCreated(t, params, bridgeIndex) == Some(t);
    ModifiedNoOp(t, Target, name, SetAddrGenModeNone);
    ModifiedNoOp(t, Target, name, SetNeighSuppression);
    ModifiedNoOp(t, Target, name, SetUp);
  }

  /** setupVXLan converges: a second run after a successful one changes nothing. */
  lemma VxlanEnsuredIdempotent(s: KState, params: VNIParams, bridgeIndex: nat)
    requires Consistent(s) && VxlanEnsured(s, params, bridgeIndex).Some?
    ensures var t := VxlanEnsured(s, params, bridgeIndex).value;
      Consistent(t) && VxlanEnsured(t, params, bridgeIndex) == Some(t)
  {
    VxlanEnsuredShape(s, params, bridgeIndex);
    VxlanStable(VxlanEnsured(s, params, bridgeIndex).value, params, bridgeIndex);
  }

  /**
   * Delete the link `current` holds the name of the VNI's device with, then create the
   * device. Returns the new device.
   */
  method ReplaceVXLan(k: Kernel, params: VNIParams, bridge: Link, current: Link) returns (r: Result<Link, VxlanError>)
    requires k.Valid() && VxLanName(params.vni) in k.target && current == k.target[VxLanName(params.vni)]
    modifies k
    ensures k.Valid() && k.faults >= old(k.faults)
    ensures var d := Deleted(old(k.State()), Target, current.index);
      && (r.Success? ==> VxlanAdded(d, params, bridge.index) == Some(k.State()))
      && (k.faults == old(k.faults) && VxlanAdded(d, params, bridge.index).Some? ==> r.Success?)
    ensures r.Success? ==> r.value == k.target[VxLanName(params.vni)]
    ensures r.Success? && Underlay.UnderlayLoopback in old(k.target) ==>
      CheckVXLanConfigured(r.value, bridge.index, old(k.target)[Underlay.UnderlayLoopback].index, params).None?
  {
    var name := VxLanName(params.vni);
    var lound := Underlay.UnderlayLoopback;
    ghost var s0 := k.State();
    var ok := k.LinkDel(Target, current.index);
    if !ok {
      return Failure(VxlanDelRefused(name));
    }
    DeletedConsistent(s0, Target, current.index);
    if lound in k.target {
      assert k.target[lound].index == s0.target[lound].index;
    }
    r := CreateVXLan(k, params, bridge);
  }

  /**
   * The device half of setupVXLan: look up the VNI's device, create it when missing, delete
   * and re-create a link of another kind, then delete and re-create a device the check
   * rejects. Returns the device.
   */
  method EnsureVxlanDevice(k: Kernel, params: VNIParams, bridge: Link, loopback: Link) returns (r: Result<Link, VxlanError>)
    requires k.Valid() && Underlay.UnderlayLoopback in k.target && loopback == k.target[Underlay.UnderlayLoopback]
    modifies k
    ensures k.Valid() && k.faults >= old(k.faults)
    ensures r.Success? ==> VxlanCreated(old(k.State()), params, bridge.index) == Some(k.State())
    ensures r.Success? ==> VxLanName(params.vni) in k.target && r.value.index == k.target[VxLanName(params.vni)].index
    ensures k.faults == old(k.faults) && VxlanCreated(old(k.State()), params, bridge.index).Some? ==> r.Success?
  {
    var name := VxLanName(params.vni);
    ghost var s0 := k.State();
    var link := k.LinkByName(Target, name);
    var current: Link;
    if link.None? {
      var created := CreateVXLan(k, params, bridge);
      if created.Failure? {
        return created;
      }
      current := created.value;
    } else {
      current := link.value;
    }
    var vxlan := current;
    if !current.kind.Vxlan? {
      var created := ReplaceVXLan(k, params, bridge, current);
      if created.Failure? {
        return created;
      }
      vxlan := created.value;
    }
    if CheckVXLanConfigured(vxlan, bridge.index, loopback.index, params).Some? {
      assert k.State() == s0;
      var created := ReplaceVXLan(k, params, bridge, current);
      if created.Failure? {
        return created;
      }
      vxlan := created.value;
    }
    return Success(vxlan);
  }

  /**
   * setupVXLan: "lound" must exist; the VNI's device is made to pass the check, then gets
   * address autogeneration off, neighbour suppression on, and is set up.
   */
  method SetupVXLan(k: Kernel, params: VNIParams, bridge: Link) returns (err: Option<VxlanError>)
    requires k.Valid()
    modifies k
    ensures k.Valid() && k.faults >= old(k.faults)
    ensures Underlay.UnderlayLoopback !in old(k.target) ==> err == Some(LoopbackNotFound) && k.State() == old(k.State())
    ensures err.None? ==> VxlanEnsured(old(k.State()), params, bridge.index) == Some(k.State())
    ensures k.faults == old(k.faults) && VxlanEnsured(old(k.State()), params, bridge.index).Some? ==> err.None?
  {
    var loopback := k.LinkByName(Target, Underlay.UnderlayLoopback);
    if loopback.None? {
      assert VxlanCreated(k.State(), params, bridge.index).None?;
      return Some(LoopbackNotFound);
    }
    ghost var s0 := k.State();
    var device := EnsureVxlanDevice(k, params, bridge, loopback.value);
    if device.Failure? {
      assert k.faults == old(k.faults) ==> VxlanCreated(s0, params, bridge.index).None?;
      return Some(device.error);
    }
    var name := VxLanName(params.vni);
    var vxlan := device.value;
    ghost var s1 := k.State();
    VxlanCreatedShape(s0, params, bridge.index);
    ghost var s2 := Modified(s1, Target, vxlan.index, SetAddrGenModeNone);
    ghost var s3 := Modified(s2, Target, vxlan.index, SetNeighSuppression);
    assert VxlanEnsured(s0, params, bridge.index) == Some(Modified(s3, Target, vxlan.index, SetUp));
    ModifiedAt(s1, Target, name, SetAddrGenModeNone);
    ModifiedAt(s2, Target, name, SetNeighSuppression);
    assert Allows(Links(k.State(), Target), vxlan.index, SetAddrGenModeNone) by { assert k.target[name].index == vxlan.index; }
    var ok := k.Modify(Target, vxlan.index, SetAddrGenModeNone);
    if !ok {
      assert k.faults > old(k.faults);
      return Some(AddrGenRefused(name));
    }
    assert k.State() == s2;
    assert Allows(Links(k.State(), Target), vxlan.index, SetNeighSuppression) by { assert k.target[name].index == vxlan.index; }
    ok := k.Modify(Target, vxlan.index, SetNeighSuppression);
    if !ok {
      assert k.faults > old(k.faults);
      return Some(NeighSuppressionRefused(name));
    }
    assert k.State() == s3;
    assert Allows(Links(k.State(), Target), vxlan.index, SetUp) by { assert k.target[name].index == vxlan.index; }
    ok := k.Modify(Target, vxlan.index, SetUp);
    if !ok {
      assert k.faults > old(k.faults);
      return Some(VxlanUpRefused(name));
    }
    return None;
  }
}
