// The shapes of the user-facing API objects (api/v1alpha1), restricted to the fields the
// conversion code reads. Durations are Go time.Duration values: integer nanoseconds.
module Api {
  import opened Wrappers

  type Uint32 = n: nat | n < 0x1_0000_0000
  type Uint16 = n: nat | n < 0x1_0000

  /** time.Duration: a signed 64-bit count of nanoseconds. */
  type Duration = i: int | -0x8000_0000_0000_0000 <= i < 0x8000_0000_0000_0000

  /** A BGP neighbour (api/v1alpha1/neighbor.go). */
  datatype Neighbor = Neighbor(
    asn: Uint32,
    address: string,
    port: Option<Uint16>,
    holdTime: Option<Duration>,
    keepaliveTime: Option<Duration>,
    connectTime: Option<Duration>,
    ebgpMultiHop: bool,
    bfdProfile: string)

  /** The underlay: the node's AS, the VTEP pool, the uplink NIC and the fabric neighbours. */
  datatype UnderlaySpec = UnderlaySpec(
    asn: Uint32,
    vtepCIDR: string,
    nic: string,
    neighbors: seq<Neighbor>)

  datatype Underlay = Underlay(spec: UnderlaySpec)

  /**
   * One overlay VNI. `vrf`, `vxlanPort` and `localASN` are read by the conversion code
   * although the declared VNISpec lacks them.
   */
  datatype VNISpec = VNISpec(
    asn: Uint32,
    vni: Uint32,
    localCIDR: string,
    vrf: string,
    vxlanPort: Uint32,
    localASN: Uint32)

  datatype VNI = VNI(name: string, spec: VNISpec)
}
