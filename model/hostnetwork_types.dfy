// The parameters handed to the dataplane builder (internal/hostnetwork/vni.go and
// internal/hostnetwork/underlay.go). Addresses travel as text, as in the source.
module HostNetworkTypes {
  /** What one VNI needs on the node. */
  datatype VNIParams = VNIParams(
    vrf: string,
    targetNS: string,
    vtepIP: string,
    vethHostIP: string,
    vethNSIP: string,
    vni: int,
    vxlanPort: int)

  /** What the underlay needs on the node. */
  datatype UnderlayParams = UnderlayParams(mainNic: string, vtepIP: string, targetNS: string)

  /** The zero value of UnderlayParams. */
  const NoUnderlay := UnderlayParams("", "", "")
}
