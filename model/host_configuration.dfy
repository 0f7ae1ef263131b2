// Translation of the API objects into the dataplane parameters
// (internal/conversion/host_configuration.go).
module HostConfiguration {
  import opened Wrappers
  import opened IPv4
  import opened Ipam
  import opened Api
  import opened Collect
  import opened HostNetworkTypes

  datatype HostConfigError =
    | HostTooManyUnderlays
    | HostVTEPFailed(cidr: string, nodeIndex: int)
    | HostVethFailed(cidr: string, nodeIndex: int)

  /** The parameters of one VNI, all sharing the node's VTEP address and target namespace. */
  function VNIParamsFor(vni: VNI, nodeIndex: int, targetNS: string, vtepIP: string): Result<VNIParams, HostConfigError> {
    match VethIPs(vni.spec.localCIDR, nodeIndex)
    case Failure(_) => Failure(HostVethFailed(vni.spec.localCIDR, nodeIndex))
    case Success(vethIPs) =>
      Success(VNIParams(vni.spec.vrf, targetNS, vtepIP, FormatCIDR(vethIPs.hostSide),
                        FormatCIDR(vethIPs.containerSide), vni.spec.vni as int, vni.spec.vxlanPort as int))
  }

  function VNIParamsStep(nodeIndex: int, targetNS: string, vtepIP: string): VNI -> Result<VNIParams, HostConfigError> {
    v => VNIParamsFor(v, nodeIndex, targetNS, vtepIP)
  }

  /** What APItoHostConfig returns for its inputs. */
  function HostConfigFor(nodeIndex: int, targetNS: string, underlays: seq<Underlay>, vnis: seq<VNI>)
    : Result<(UnderlayParams, seq<VNIParams>), HostConfigError>
  {
    if |underlays| > 1 then Failure(HostTooManyUnderlays)
    else if |underlays| == 0 || |vnis| == 0 then Success((NoUnderlay, []))
    else
      var underlay := underlays[0];
      match VTEPAddress(underlay.spec.vtepCIDR, nodeIndex)
      case Failure(_) => Failure(HostVTEPFailed(underlay.spec.vtepCIDR, nodeIndex))
      case Success(vtep) =>
        var vtepIP := FormatCIDR(vtep);
        match MapAll(VNIParamsStep(nodeIndex, targetNS, vtepIP), vnis)
        case Failure(e) => Failure(e)
        case Success(params) => Success((UnderlayParams(underlay.spec.nic, vtepIP, targetNS), params))
  }

  /** APItoHostConfig: the underlay parameters and one parameter set per VNI. */
  method APItoHostConfig(nodeIndex: int, targetNS: string, underlays: seq<Underlay>, vnis: seq<VNI>)
    returns (r: Result<(UnderlayParams, seq<VNIParams>), HostConfigError>)
    ensures r == HostConfigFor(nodeIndex, targetNS, underlays, vnis)
  {
    if |underlays| > 1 {
      return Failure(HostTooManyUnderlays);
    }
    if |underlays| == 0 || |vnis| == 0 {
      return Success((NoUnderlay, []));
    }
    var underlay := underlays[0];
    var vtep := VTEPIp(underlay.spec.vtepCIDR, nodeIndex);
    if vtep.Failure? {
      return Failure(HostVTEPFailed(underlay.spec.vtepCIDR, nodeIndex));
    }
    var vtepIP := FormatCIDR(vtep.value);
    var underlayParams := UnderlayParams(underlay.spec.nic, vtepIP, targetNS);

    var step := VNIParamsStep(nodeIndex, targetNS, vtepIP);
    var vniParams: seq<VNIParams> := [];
    var i := 0;
    while i < |vnis|
      invariant 0 <= i <= |vnis|
      invariant MapAll(step, vnis[..i]) == Success(vniParams)
    {
      MapAllStep(step, vnis, i);
      var vni := vnis[i];
      var vethIPs := VethIPs(vni.spec.localCIDR, nodeIndex);
      if vethIPs.Failure? {
        MapAllPrefixFailure(step, vnis, i + 1);
        return Failure(HostVethFailed(vni.spec.localCIDR, nodeIndex));
      }
      var v := VNIParams(vni.spec.vrf, targetNS, vtepIP, FormatCIDR(vethIPs.value.hostSide),
                         FormatCIDR(vethIPs.value.containerSide), vni.spec.vni as int, vni.spec.vxlanPort as int);
      vniParams := vniParams + [v];
      i := i + 1;
    }
    assert vnis[..i] == vnis;
    return Success((underlayParams, vniParams));
  }

  /** With no underlay or no VNI there is nothing to build: zero parameters and no error. */
  lemma HostConfigNothingToDo(nodeIndex: int, targetNS: string, underlays: seq<Underlay>, vnis: seq<VNI>)
    requires |underlays| <= 1
    ensures |underlays| == 0 || |vnis| == 0 <==> HostConfigFor(nodeIndex, targetNS, underlays, vnis) == Success((NoUnderlay, []))
  {
    if |underlays| == 1 && |vnis| > 0 && HostConfigFor(nodeIndex, targetNS, underlays, vnis).Success? {
      var vtep := VTEPAddress(underlays[0].spec.vtepCIDR, nodeIndex).value;
      MapAllSuccess(VNIParamsStep(nodeIndex, targetNS, FormatCIDR(vtep)), vnis);
    }
  }

  /**
   * A successful translation yields one parameter set per VNI, in order; every set carries
   * the underlay's VTEP address (the node's host of the VTEP pool as a /31) and target
   * namespace, and the host and namespace sides of the VNI's veth pair.
   */
  lemma HostConfigShape(nodeIndex: int, targetNS: string, underlays: seq<Underlay>, vnis: seq<VNI>)
    requires |underlays| == 1 && |vnis| > 0
    requires HostConfigFor(nodeIndex, targetNS, underlays, vnis).Success?
    ensures var (u, params) := HostConfigFor(nodeIndex, targetNS, underlays, vnis).value;
      && u.mainNic == underlays[0].spec.nic && u.targetNS == targetNS
      && VTEPAddress(underlays[0].spec.vtepCIDR, nodeIndex).Success?
      && ParseAddr(u.vtepIP) == Some(VTEPAddress(underlays[0].spec.vtepCIDR, nodeIndex).value)
      && |params| == |vnis|
      && (forall i :: 0 <= i < |vnis| ==> VethIPs(vnis[i].spec.localCIDR, nodeIndex).Success?)
      && forall i :: 0 <= i < |vnis| ==>
           var veths := VethIPs(vnis[i].spec.localCIDR, nodeIndex).value;
           && params[i].vtepIP == u.vtepIP && params[i].targetNS == targetNS
           && params[i].vrf == vnis[i].spec.vrf && params[i].vni == vnis[i].spec.vni as int
           && params[i].vxlanPort == vnis[i].spec.vxlanPort as int
           && ParseAddr(params[i].vethHostIP) == Some(veths.hostSide)
           && ParseAddr(params[i].vethNSIP) == Some(veths.containerSide)
  {
    var vtep := VTEPAddress(underlays[0].spec.vtepCIDR, nodeIndex);
    assert vtep.Success?;
    ParseFormatCIDR(vtep.value);
    VNIParamsAll(nodeIndex, targetNS, FormatCIDR(vtep.value), vnis);
  }

  /** MapAll of the per-VNI step: one parameter set per VNI, in order, each as VNIParamsForShape describes. */
  lemma VNIParamsAll(nodeIndex: int, targetNS: string, vtepIP: string, vnis: seq<VNI>)
    requires MapAll(VNIParamsStep(nodeIndex, targetNS, vtepIP), vnis).Success?
    ensures var params := MapAll(VNIParamsStep(nodeIndex, targetNS, vtepIP), vnis).value;
      && |params| == |vnis|
      && (forall i :: 0 <= i < |vnis| ==> VethIPs(vnis[i].spec.localCIDR, nodeIndex).Success?)
      && forall i :: 0 <= i < |vnis| ==>
           var veths := VethIPs(vnis[i].spec.localCIDR, nodeIndex).value;
           && params[i].vtepIP == vtepIP && params[i].targetNS == targetNS
           && params[i].vrf == vnis[i].spec.vrf && params[i].vni == vnis[i].spec.vni as int
           && params[i].vxlanPort == vnis[i].spec.vxlanPort as int
           && ParseAddr(params[i].vethHostIP) == Some(veths.hostSide)
           && ParseAddr(params[i].vethNSIP) == Some(veths.containerSide)
  {
    var step := VNIParamsStep(nodeIndex, targetNS, vtepIP);
    var ps := MapAll(step, vnis);
    MapAllSuccess(step, vnis);
    forall i | 0 <= i < |vnis|
      ensures VethIPs(vnis[i].spec.localCIDR, nodeIndex).Success?
      ensures var veths := VethIPs(vnis[i].spec.localCIDR, nodeIndex).value;
        && ParseAddr(ps.value[i].vethHostIP) == Some(veths.hostSide)
        && ParseAddr(ps.value[i].vethNSIP) == Some(veths.containerSide)
    {
      assert step(vnis[i]) == Success(ps.value[i]);
      VNIParamsForShape(vnis[i], nodeIndex, targetNS, vtepIP);
    }
  }

  /** The veth addresses of one VNI's parameters parse back to the ones derived for it. */
  lemma VNIParamsForShape(vni: VNI, nodeIndex: int, targetNS: string, vtepIP: string)
    requires VNIParamsFor(vni, nodeIndex, targetNS, vtepIP).Success?
    ensures VethIPs(vni.spec.localCIDR, nodeIndex).Success?
    ensures var veths := VethIPs(vni.spec.localCIDR, nodeIndex).value; var p := VNIParamsFor(vni, nodeIndex, targetNS, vtepIP).value;
      && ParseAddr(p.vethHostIP) == Some(veths.hostSide)
      && ParseAddr(p.vethNSIP) == Some(veths.containerSide)
  {
    var veths := VethIPs(vni.spec.localCIDR, nodeIndex).value;
    ParseFormatCIDR(veths.hostSide);
    ParseFormatCIDR(veths.containerSide);
  }

  /** A VNI whose veth addresses cannot be derived fails the whole call: no partial parameter list. */
  lemma HostConfigVethFailure(nodeIndex: int, targetNS: string, underlays: seq<Underlay>, vnis: seq<VNI>, k: nat)
    requires |underlays| == 1 && k < |vnis|
    requires VTEPAddress(underlays[0].spec.vtepCIDR, nodeIndex).Success?
    requires VethIPs(vnis[k].spec.localCIDR, nodeIndex).Failure?
    ensures var r := HostConfigFor(nodeIndex, targetNS, underlays, vnis);
      && r.Failure? && r.error.HostVethFailed?
      && exists i :: 0 <= i <= k && r.error == HostVethFailed(vnis[i].spec.localCIDR, nodeIndex)
           && forall j :: 0 <= j < i ==> VethIPs(vnis[j].spec.localCIDR, nodeIndex).Success?
  {
    var vtep := VTEPAddress(underlays[0].spec.vtepCIDR, nodeIndex).value;
    var step := VNIParamsStep(nodeIndex, targetNS, FormatCIDR(vtep));
    MapAllSuccess(step, vnis);
    assert step(vnis[k]).Failure?;
    MapAllFailure(step, vnis);
    var i :| 0 <= i < |vnis| && step(vnis[i]).Failure? && MapAll(step, vnis).error == step(vnis[i]).error
      && forall j :: 0 <= j < i ==> step(vnis[j]).Success?;
    assert i <= k;
  }
}
