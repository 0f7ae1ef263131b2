// Setting up and removing VNIs (internal/hostnetwork/vni.go): the order of the steps that
// configure one VNI, the route back to the host leg, and the garbage collection of the
// links no configured VNI needs.
module Vni {
  import opened Wrappers
  import opened Text
  import opened IPv4
  import opened Kernel
  import opened Properties
  import opened HostNetworkTypes
  import opened Veth
  import opened Vrf
  import opened Bridge
  import opened Vxlan

  // ----- the route to the host leg -----

  datatype RouteError = BadHostIP(dst: string) | RouteAddRefused(route: Route)

  /**
   * hostIPToRoute: a route to the address of `dst` alone (its mask widened to the full 32
   * bits) in the VRF's table, through the namespace leg.
   */
  function HostIPToRoute(vrf: Link, dst: string, peIndex: nat): (r: Result<Route, RouteError>)
    requires vrf.kind.Vrf?
    ensures r.Failure? <==> ParseAddr(dst).None?
    ensures r.Failure? ==> r.error == BadHostIP(dst)
    ensures r.Success? ==> r.value.dst.ip == ParseAddr(dst).value.ip && r.value.dst.prefix == 32
    ensures r.Success? ==> r.value.table == vrf.kind.table && r.value.linkIndex == peIndex
  {
    match ParseCIDR(dst)
    case None => Failure(BadHostIP(dst))
    case Some((ip, _)) => Success(Route(IPNet(ip, 32), vrf.kind.table, peIndex))
  }

  /** A printed address of any prefix length, a /24 among them, yields the /32 route to that address. */
  lemma HostIPToRouteOfPrinted(vrf: Link, n: IPNet, peIndex: nat)
    requires vrf.kind.Vrf? && n.prefix <= 32
    ensures HostIPToRoute(vrf, FormatCIDR(n), peIndex) == Success(Route(IPNet(n.ip, 32), vrf.kind.table, peIndex))
  {
    ParseFormatCIDR(n);
  }

  /**
   * checkRouteIsPresent: list the routes with the route's destination and table, and look
   * for one that also matches on address, mask, link and table.
   */
  method CheckRouteIsPresent(k: Kernel, route: Route) returns (present: bool)
    ensures present <==> route in k.targetRoutes
  {
    var routes := k.RouteListFiltered(Target, route.dst, route.table);
    var i := 0;
    while i < |routes|
      invariant 0 <= i <= |routes|
      invariant forall j :: 0 <= j < i ==> routes[j] != route
    {
      var r := routes[i];
      if r.dst.ip == route.dst.ip && r.dst.prefix == route.dst.prefix
         && r.linkIndex == route.linkIndex && r.table == route.table {
        assert r == route;
        return true;
      }
      i := i + 1;
    }
    assert route !in routes;
    return false;
  }

  /**
   * The route step when the kernel refuses nothing: a present route is left alone, a
   * missing one is added. None when the kernel would refuse it.
   */
  function RouteEnsured(s: KState, route: Route): Option<KState> {
    if route in s.targetRoutes then Some(s)
    else if CanAddRoute(s, Target, route) then Some(RouteAdded(s, Target, route))
    else None
  }

  /**
   * After the route step the route is present and no link changed; the step is refused
   * exactly when the route is missing and another route with its destination and table,
   * or no link of its index, is in the way. A second run changes nothing.
   */
  lemma RouteEnsuredShape(s: KState, route: Route)
    ensures RouteEnsured(s, route).None? <==>
      route !in s.targetRoutes
      && (!HasIndex(s.target, route.linkIndex) || exists q :: q in s.targetRoutes && q.dst == route.dst && q.table == route.table)
    ensures RouteEnsured(s, route).Some? ==>
      var t := RouteEnsured(s, route).value;
      && route in t.targetRoutes && t.host == s.host && t.target == s.target && t.hostRoutes == s.hostRoutes
      && t.targetRoutes == s.targetRoutes + {route} && t.nextIndex == s.nextIndex
      && RouteEnsured(t, route) == Some(t)
  {
  }

  /** What addRouteToHost leaves behind when the kernel refuses nothing. */
  function RouteToHostEnsured(s: KState, vrf: Link, dst: string, peIndex: nat): Option<KState>
    requires vrf.kind.Vrf?
  {
    match HostIPToRoute(vrf, dst, peIndex)
    case Failure(_) => None
    case Success(route) => RouteEnsured(s, route)
  }

  /** addRouteToHost: build the route, and add it unless it is present. */
  method AddRouteToHost(k: Kernel, vrf: Link, dst: string, peInterface: Link) returns (err: Option<RouteError>)
    requires k.Valid() && vrf.kind.Vrf?
    modifies k
    ensures k.Valid() && k.faults >= old(k.faults)
    ensures ParseAddr(dst).None? ==> err == Some(BadHostIP(dst)) && k.State() == old(k.State())
    ensures HostIPToRoute(vrf, dst, peInterface.index).Success? && HostIPToRoute(vrf, dst, peInterface.index).value in old(k.targetRoutes) ==>
      err.None? && k.State() == old(k.State())
    ensures k.faults == old(k.faults) ==>
      RouteToHostEnsured(old(k.State()), vrf, dst, peInterface.index) == if err.None? then Some(k.State()) else None
  {
    var route := HostIPToRoute(vrf, dst, peInterface.index);
    if route.Failure? {
      return Some(route.error);
    }
    var isPresent := CheckRouteIsPresent(k, route.value);
    if isPresent {
      return None;
    }
    var ok := k.RouteAdd(Target, route.value);
    if !ok {
      return Some(RouteAddRefused(route.value));
    }
    return None;
  }

  // ----- SetupVNI -----

  datatype VniError =
    | NamespaceNotFound(ns: string)
    | VethFailed(veth: VethError)
    | AddrFailed(addr: AddrError)
    | LegUpRefused(leg: string)
    | VrfFailed(vrf: VrfError)
    | MasterRefused(leg: string)
    | BridgeFailed(bridge: BridgeError)
    | VxlanFailed(vxlan: VxlanError)
    | RouteFailed(route: RouteError)

  /** A veth leg's address step and set-up step, when the kernel refuses nothing. */
  ghost function LegReady(s: KState, ns: Ns, i: nat, address: string): (r: Option<KState>)
    requires Consistent(s)
    ensures r.Some? ==> Consistent(r.value)
  {
    match AddressAssigned(s, ns, i, address)
    case None => None
    case Some(s1) =>
      AddressAssignedConsistent(s, ns, i, address);
      if !Allows(Links(s1, ns), i, SetUp) then None
      else
        ModifiedConsistent(s1, ns, i, SetUp);
        Some(Modified(s1, ns, i, SetUp))
  }

  lemma AddressAssignedConsistent(s: KState, ns: Ns, i: nat, address: string)
    requires Consistent(s) && AddressAssigned(s, ns, i, address).Some?
    ensures Consistent(AddressAssigned(s, ns, i, address).value)
  {
    if !Carries(AddrsAt(Links(s, ns), i), address) {
      ModifiedConsistent(s, ns, i, AddAddr(ParseAddr(address).value));
    }
  }

  /** Assign the address to a leg, then set it up. */
  method SetupLeg(k: Kernel, ns: Ns, leg: Link, address: string) returns (err: Option<VniError>)
    requires k.Valid()
    modifies k
    ensures k.Valid() && k.faults >= old(k.faults)
    ensures k.faults == old(k.faults) ==> LegReady(old(k.State()), ns, leg.index, address) == if err.None? then Some(k.State()) else None
  {
    var e := AssignIPToInterface(k, ns, leg, address);
    if e.Some? {
      return Some(AddrFailed(e.value));
    }
    var ok := k.Modify(ns, leg.index, SetUp);
    if !ok {
      return Some(LegUpRefused(leg.name));
    }
    return None;
  }

  /**
   * The namespace leg joins the VRF, when the kernel refuses nothing: the leg's address and
   * set-up steps, setupVRF, then the VRF becomes the leg's master. Gives the state and the
   * VRF.
   */
  ghost function VrfJoined(s: KState, params: VNIParams, peIndex: nat): (r: Option<(KState, Link)>)
    requires Consistent(s)
    ensures r.Some? ==> Consistent(r.value.0) && r.value.1.kind.Vrf?
  {
    match LegReady(s, Target, peIndex, params.vethNSIP)
    case None => None
    case Some(s1) =>
      match VrfEnsured(s1, params.vrf)
      case None => None
      case Some(s2) =>
        VrfEnsuredShape(s1, params.vrf);
        var vrf := s2.target[params.vrf];
        if !Allows(s2.target, peIndex, SetMaster(vrf.index)) then None
        else
          ModifiedConsistent(s2, Target, peIndex, SetMaster(vrf.index));
          Some((Modified(s2, Target, peIndex, SetMaster(vrf.index)), vrf))
  }

  /** The steps after the VRF, when the kernel refuses nothing: setupBridge, setupVXLan, addRouteToHost. */
  ghost function VniDevicesEnsured(s: KState, params: VNIParams, vrf: Link, peIndex: nat): Option<KState>
    requires Consistent(s) && vrf.kind.Vrf?
  {
    match BridgeEnsured(s, params.vni, vrf.index)
    case None => None
    case Some(s1) =>
      BridgeEnsuredShape(s, params.vni, vrf.index);
      var bridge := s1.target[BridgeName(params.vni)];
      match VxlanEnsured(s1, params, bridge.index)
      case None => None
      case Some(s2) => RouteToHostEnsured(s2, vrf, params.vethHostIP, peIndex)
  }

  /** The route a VNI needs back to its host leg: the host leg's address as a /32, through the namespace leg. */
  predicate RoutesToHost(t: KState, params: VNIParams)
    requires ParseAddr(params.vethHostIP).Some?
  {
    exists r :: r in t.targetRoutes && r.dst == IPNet(ParseAddr(params.vethHostIP).value.ip, 32)
  }

  /**
   * After the device steps the VNI's VXLAN device is ready under its master, and the route to
   * the host leg, in the VRF's table through the namespace leg, is present.
   */
  lemma VniDevicesShape(s: KState, params: VNIParams, vrf: Link, peIndex: nat)
    requires Consistent(s) && vrf.kind.Vrf? && VniDevicesEnsured(s, params, vrf, peIndex).Some?
    ensures var t := VniDevicesEnsured(s, params, vrf, peIndex).value;
      && VxLanName(params.vni) in t.target
      && DeviceReady(t, params, t.target[VxLanName(params.vni)].master)
      && ParseAddr(params.vethHostIP).Some? && RoutesToHost(t, params)
      && HostIPToRoute(vrf, params.vethHostIP, peIndex).Success?
      && HostIPToRoute(vrf, params.vethHostIP, peIndex).value in t.targetRoutes
  {
    BridgeEnsuredShape(s, params.vni, vrf.index);
    var s1 := BridgeEnsured(s, params.vni, vrf.index).value;
    var bridgeIndex := s1.target[BridgeName(params.vni)].index;
    VxlanEnsuredShape(s1, params, bridgeIndex);
    var s2 := VxlanEnsured(s1, params, bridgeIndex).value;
    var route := HostIPToRoute(vrf, params.vethHostIP, peIndex).value;
    RouteEnsuredShape(s2, route);
    var t := RouteEnsured(s2, route).value;
    assert t.target == s2.target && route in t.targetRoutes;
  }

  /** The closure SetupVNI runs in the target namespace, when the kernel refuses nothing. */
  ghost function InNamespaceEnsured(s: KState, params: VNIParams, peIndex: nat): Option<KState>
    requires Consistent(s)
  {
    match VrfJoined(s, params, peIndex)
    case None => None
    case Some((s1, vrf)) => VniDevicesEnsured(s1, params, vrf, peIndex)
  }

  /**
   * What SetupVNI leaves behind when the kernel refuses nothing: the steps in their order,
   * the first that fails ending the run (None). `hostLeg` is the host leg setupVeth finds or
   * creates; its peer is the namespace leg.
   */
  ghost function VniEnsured(s: KState, params: VNIParams, targetName: string): Option<KState>
    requires Consistent(s)
  {
    if params.targetNS != targetName then None
    else
      match VethEnsured(s, params.vrf)
      case None => None
      case Some(s1) =>
        var hostSide := VethLegsForVRF(params.vrf).0;
        VethCreatedHasLeg(s, params.vrf);
        PeerPlacedShape(VethCreated(s, params.vrf).value, hostSide);
        var hostLeg := VethCreated(s, params.vrf).value.host[hostSide];
        match LegReady(s1, Host, hostLeg.index, params.vethHostIP)
        case None => None
        case Some(s2) => InNamespaceEnsured(s2, params, hostLeg.kind.peerIndex)
  }

  /**
   * After a SetupVNI that the kernel refuses nothing: it ran in the namespace it was given,
   * the VNI's VXLAN device is ready under its master, and the route to the host leg is present.
   */
  lemma VniEnsuredShape(s: KState, params: VNIParams, targetName: string)
    requires Consistent(s) && VniEnsured(s, params, targetName).Some?
    ensures var t := VniEnsured(s, params, targetName).value;
      && params.targetNS == targetName
      && VxLanName(params.vni) in t.target
      && DeviceReady(t, params, t.target[VxLanName(params.vni)].master)
      && ParseAddr(params.vethHostIP).Some? && RoutesToHost(t, params)
  {
    var s1 := VethEnsured(s, params.vrf).value;
    var hostSide := VethLegsForVRF(params.vrf).0;
    VethCreatedHasLeg(s, params.vrf);
    PeerPlacedShape(VethCreated(s, params.vrf).value, hostSide);
    var hostLeg := VethCreated(s, params.vrf).value.host[hostSide];
    var s2 := LegReady(s1, Host, hostLeg.index, params.vethHostIP).value;
    var pi := hostLeg.kind.peerIndex;
    var (s3, vrf) := VrfJoined(s2, params, pi).value;
    VniDevicesShape(s3, params, vrf, pi);
  }

  /** The first steps of the closure: the namespace leg's address and set-up, setupVRF, and the VRF as its master. */
  method JoinVrf(k: Kernel, params: VNIParams, peVeth: Link) returns (r: Result<Link, VniError>)
    requires k.Valid()
    modifies k
    ensures k.Valid() && k.faults >= old(k.faults)
    ensures r.Success? ==> r.value.kind.Vrf?
    ensures k.faults == old(k.faults) ==>
      VrfJoined(old(k.State()), params, peVeth.index) == if r.Success? then Some((k.State(), r.value)) else None
  {
    var e := SetupLeg(k, Target, peVeth, params.vethNSIP);
    if e.Some? {
      return Failure(e.value);
    }
    ghost var s1 := k.State();
    var vrf := SetupVRF(k, params.vrf);
    if vrf.Failure? {
      return Failure(VrfFailed(vrf.error));
    }
    VrfEnsuredShape(s1, params.vrf);
    var ok := k.Modify(Target, peVeth.index, SetMaster(vrf.value.index));
    if !ok {
      return Failure(MasterRefused(peVeth.name));
    }
    return Success(vrf.value);
  }

  /** The rest of the closure: setupBridge, setupVXLan and addRouteToHost, in that order. */
  method SetupVniDevices(k: Kernel, params: VNIParams, vrf: Link, peVeth: Link) returns (err: Option<VniError>)
    requires k.Valid() && vrf.kind.Vrf?
    modifies k
    ensures k.Valid() && k.faults >= old(k.faults)
    ensures k.faults == old(k.faults) ==>
      VniDevicesEnsured(old(k.State()), params, vrf, peVeth.index) == if err.None? then Some(k.State()) else None
  {
    ghost var s0 := k.State();
    var bridge := SetupBridge(k, params.vni, vrf);
    if bridge.Failure? {
      return Some(BridgeFailed(bridge.error));
    }
    BridgeEnsuredShape(s0, params.vni, vrf.index);
    var e := SetupVXLan(k, params, bridge.value);
    if e.Some? {
      return Some(VxlanFailed(e.value));
    }
    var re := AddRouteToHost(k, vrf, params.vethHostIP, peVeth);
    if re.Some? {
      return Some(RouteFailed(re.value));
    }
    return None;
  }

  /**
   * SetupVNI: in the target namespace's absence nothing happens; otherwise setupVeth, the
   * host leg's address and set-up, then in the target namespace the namespace leg's address
   * and set-up, setupVRF, the VRF as the leg's master, setupBridge, setupVXLan and
   * addRouteToHost, stopping at the first step that fails.
   */
  method SetupVNI(k: Kernel, params: VNIParams) returns (err: Option<VniError>)
    requires k.Valid()
    modifies k
    ensures k.Valid() && k.faults >= old(k.faults)
    ensures !k.NamespaceExists(params.targetNS) ==> err == Some(NamespaceNotFound(params.targetNS)) && k.State() == old(k.State())
    ensures k.faults == old(k.faults) ==>
      VniEnsured(old(k.State()), params, k.targetName) == if err.None? then Some(k.State()) else None
  {
    if !k.NamespaceExists(params.targetNS) {
      return Some(NamespaceNotFound(params.targetNS));
    }
    ghost var s0 := k.State();
    var legs := SetupVeth(k, params.vrf);
    if legs.Failure? {
      return Some(VethFailed(legs.error));
    }
    var (hostVeth, peVeth) := legs.value;
    var e := SetupLeg(k, Host, hostVeth, params.vethHostIP);
    if e.Some? {
      return e;
    }
    err := InNamespace(k, params, peVeth);
  }

  /** The closure SetupVNI runs in the target namespace. */
  method InNamespace(k: Kernel, params: VNIParams, peVeth: Link) returns (err: Option<VniError>)
    requires k.Valid()
    modifies k
    ensures k.Valid() && k.faults >= old(k.faults)
    ensures k.faults == old(k.faults) ==>
      InNamespaceEnsured(old(k.State()), params, peVeth.index) == if err.None? then Some(k.State()) else None
  {
    var vrf := JoinVrf(k, params, peVeth);
    if vrf.Failure? {
      return Some(vrf.error);
    }
    err := SetupVniDevices(k, params, vrf.value, peVeth);
  }

  // ----- RemoveNonConfiguredVNIs -----

  datatype GcError =
    | BadName(linkType: string, name: string)
    | DeleteRefused(linkType: string, name: string)

  /** What a garbage-collection loop does with one listed link. */
  datatype Verdict = Keep | Delete | Abort(error: GcError)

  /**
   * One garbage-collection loop over a listing taken before it: the links are visited in
   * order, a link to delete that is no longer there makes the deletion fail, and the first
   * failure or abort ends the loop.
   */
  ghost function Sweep(s: KState, ns: Ns, links: seq<Link>, verdict: Link -> Verdict): (r: Result<KState, GcError>)
    requires Consistent(s)
    ensures r.Success? ==> Consistent(r.value)
    decreases |links|
  {
    if links == [] then Success(s)
    else
      var l := links[0];
      match verdict(l)
      case Keep => Sweep(s, ns, links[1..], verdict)
      case Abort(e) => Failure(e)
      case Delete =>
        if HasIndex(Links(s, ns), l.index) then
          DeletedConsistent(s, ns, l.index);
          Sweep(Deleted(s, ns, l.index), ns, links[1..], verdict)
        else Failure(DeleteRefused(TypeName(l.kind), l.name))
  }

  /** The host-leg loop: a veth named like a host leg goes when its VRF is not configured. */
  function HostLegVerdict(vrfs: set<string>, l: Link): Verdict {
    if TypeName(l.kind) == "veth" && HasPrefix(l.name, HostVethPrefix) then
      if VrfForHostLeg(l.name) in vrfs then Keep else Delete
    else Keep
  }

  /** clearLinks: a link of the type goes when the VNI its name carries is not configured. */
  function ClearVerdict(linkType: string, vnis: set<int>, vniFromName: string -> Result<int, string>, l: Link): Verdict {
    if TypeName(l.kind) != linkType then Keep
    else
      match vniFromName(l.name)
      case Failure(_) => Abort(BadName(linkType, l.name))
      case Success(v) => if v in vnis then Keep else Delete
  }

  /** The VRF loop: a VRF goes when it is not configured. */
  function VrfVerdict(vrfs: set<string>, l: Link): Verdict {
    if TypeName(l.kind) == "vrf" && l.name !in vrfs then Delete else Keep
  }

  function HostLegVerdicts(vrfs: set<string>): Link -> Verdict {
    l => HostLegVerdict(vrfs, l)
  }

  function ClearVerdicts(linkType: string, vnis: set<int>, vniFromName: string -> Result<int, string>): Link -> Verdict {
    l => ClearVerdict(linkType, vnis, vniFromName, l)
  }

  function VrfVerdicts(vrfs: set<string>): Link -> Verdict {
    l => VrfVerdict(vrfs, l)
  }

  /** Every loop of RemoveNonConfiguredVNIs in its order, over the host listing and the namespace listing. */
  ghost function VnisRemoved(s: KState, vrfs: set<string>, vnis: set<int>, hostLinks: seq<Link>, links: seq<Link>): Result<KState, GcError>
    requires Consistent(s)
  {
    match Sweep(s, Host, hostLinks, HostLegVerdicts(vrfs))
    case Failure(e) => Failure(e)
    case Success(s1) =>
      match Sweep(s1, Target, links, ClearVerdicts("vxlan", vnis, VniFromVXLanName))
      case Failure(e) => Failure(e)
      case Success(s2) =>
        match Sweep(s2, Target, links, ClearVerdicts("bridge", vnis, VniFromBridgeName))
        case Failure(e) => Failure(e)
        case Success(s3) => Sweep(s3, Target, links, VrfVerdicts(vrfs))
  }

  function DesiredVrfs(params: seq<VNIParams>): set<string> {
    set p | p in params :: p.vrf
  }

  function DesiredVnis(params: seq<VNIParams>): set<int> {
    set p | p in params :: p.vni
  }

  /** The VRFs and the VNIs the parameters name. */
  method CollectDesired(params: seq<VNIParams>) returns (vrfs: set<string>, vnis: set<int>)
    ensures forall v :: v in vrfs <==> exists p :: p in params && p.vrf == v
    ensures forall v :: v in vnis <==> exists p :: p in params && p.vni == v
    ensures vrfs == DesiredVrfs(params) && vnis == DesiredVnis(params)
  {
    vrfs := {};
    vnis := {};
    for i := 0 to |params|
      invariant vrfs == DesiredVrfs(params[..i])
      invariant vnis == DesiredVnis(params[..i])
    {
      assert params[..i + 1] == params[..i] + [params[i]];
      vrfs := vrfs + {params[i].vrf};
      vnis := vnis + {params[i].vni};
    }
    assert params[..|params|] == params;
  }

  /** The host-leg loop of RemoveNonConfiguredVNIs. */
  method RemoveHostLegs(k: Kernel, vrfs: set<string>, hostLinks: seq<Link>) returns (err: Option<GcError>)
    requires k.Valid()
    modifies k
    ensures k.Valid() && k.faults >= old(k.faults)
    ensures k.faults == old(k.faults) ==>
      Sweep(old(k.State()), Host, hostLinks, HostLegVerdicts(vrfs)) == if err.None? then Success(k.State()) else Failure(err.value)
  {
    ghost var v := HostLegVerdicts(vrfs);
    for i := 0 to |hostLinks|
      invariant k.Valid() && k.faults >= old(k.faults)
      invariant k.faults == old(k.faults) ==>
        Sweep(old(k.State()), Host, hostLinks, v) == Sweep(k.State(), Host, hostLinks[i..], v)
    {
      var hl := hostLinks[i];
      assert hostLinks[i..][0] == hl && hostLinks[i..][1..] == hostLinks[i + 1..];
      if TypeName(hl.kind) == "veth" && HasPrefix(hl.name, HostVethPrefix) {
        var vrf := VrfForHostLeg(hl.name);
        if vrf in vrfs {
          continue;
        }
        var ok := k.LinkDel(Host, hl.index);
        if !ok {
          return Some(DeleteRefused("veth", hl.name));
        }
      }
    }
    assert hostLinks[|hostLinks|..] == [];
    return None;
  }

  /** clearLinks: delete the links of one type whose VNI is not configured. */
  method ClearLinks(k: Kernel, linkType: string, vnis: set<int>, links: seq<Link>, vniFromName: string -> Result<int, string>)
    returns (err: Option<GcError>)
    requires k.Valid()
    modifies k
    ensures k.Valid() && k.faults >= old(k.faults)
    ensures k.faults == old(k.faults) ==>
      Sweep(old(k.State()), Target, links, ClearVerdicts(linkType, vnis, vniFromName)) == if err.None? then Success(k.State()) else Failure(err.value)
  {
    ghost var v := ClearVerdicts(linkType, vnis, vniFromName);
    for i := 0 to |links|
      invariant k.Valid() && k.faults >= old(k.faults)
      invariant k.faults == old(k.faults) ==>
        Sweep(old(k.State()), Target, links, v) == Sweep(k.State(), Target, links[i..], v)
    {
      var l := links[i];
      assert links[i..][0] == l && links[i..][1..] == links[i + 1..];
      if TypeName(l.kind) == linkType {
        var vni := vniFromName(l.name);
        if vni.Failure? {
          return Some(BadName(linkType, l.name));
        }
        if vni.value in vnis {
          continue;
        }
        var ok := k.LinkDel(Target, l.index);
        if !ok {
          return Some(DeleteRefused(linkType, l.name));
        }
      }
    }
    assert links[|links|..] == [];
    return None;
  }

  /** The VRF loop of RemoveNonConfiguredVNIs. */
  method RemoveVrfs(k: Kernel, vrfs: set<string>, links: seq<Link>) returns (err: Option<GcError>)
    requires k.Valid()
    modifies k
    ensures k.Valid() && k.faults >= old(k.faults)
    ensures k.faults == old(k.faults) ==>
      Sweep(old(k.State()), Target, links, VrfVerdicts(vrfs)) == if err.None? then Success(k.State()) else Failure(err.value)
  {
    ghost var v := VrfVerdicts(vrfs);
    for i := 0 to |links|
      invariant k.Valid() && k.faults >= old(k.faults)
      invariant k.faults == old(k.faults) ==>
        Sweep(old(k.State()), Target, links, v) == Sweep(k.State(), Target, links[i..], v)
    {
      var l := links[i];
      assert links[i..][0] == l && links[i..][1..] == links[i + 1..];
      if TypeName(l.kind) == "vrf" && l.name !in vrfs {
        var ok := k.LinkDel(Target, l.index);
        if !ok {
          return Some(DeleteRefused("vrf", l.name));
        }
      }
    }
    assert links[|links|..] == [];
    return None;
  }

  /** The closure RemoveNonConfiguredVNIs runs in the target namespace, over one listing. */
  method ClearNamespace(k: Kernel, vrfs: set<string>, vnis: set<int>) returns (err: Option<GcError>, ghost links: seq<Link>)
    requires k.Valid()
    modifies k
    ensures k.Valid() && k.faults >= old(k.faults)
    ensures Enumerates(links, old(k.State()).target)
    ensures k.faults == old(k.faults) ==>
      VnisRemoved(old(k.State()), vrfs, vnis, [], links) == if err.None? then Success(k.State()) else Failure(err.value)
  {
    var listed := k.LinkList(Target);
    links := listed;
    err := ClearLinks(k, "vxlan", vnis, listed, VniFromVXLanName);
    if err.Some? {
      return;
    }
    err := ClearLinks(k, "bridge", vnis, listed, VniFromBridgeName);
    if err.Some? {
      return;
    }
    err := RemoveVrfs(k, vrfs, listed);
  }

  /**
   * RemoveNonConfiguredVNIs: delete the host legs of the VRFs no parameter names, then in the
   * target namespace the vxlans and the bridges of the VNIs no parameter names and the VRFs
   * no parameter names. `hostLinks` and `links` are the two listings it works from.
   */
  method RemoveNonConfiguredVNIs(k: Kernel, params: seq<VNIParams>)
    returns (err: Option<GcError>, ghost hostLinks: seq<Link>, ghost links: seq<Link>)
    requires k.Valid()
    modifies k
    ensures k.Valid() && k.faults >= old(k.faults)
    ensures Enumerates(hostLinks, old(k.State()).host)
    ensures k.faults == old(k.faults) ==>
      var vrfs := DesiredVrfs(params);
      var hostSwept := Sweep(old(k.State()), Host, hostLinks, HostLegVerdicts(vrfs));
      && (hostSwept.Success? ==> Enumerates(links, hostSwept.value.target))
      && VnisRemoved(old(k.State()), vrfs, DesiredVnis(params), hostLinks, links) == if err.None? then Success(k.State()) else Failure(err.value)
  {
    var vrfs, vnis := CollectDesired(params);
    var listed := k.LinkList(Host);
    hostLinks := listed;
    links := [];
    err := RemoveHostLegs(k, vrfs, listed);
    if err.Some? {
      return;
    }
    ghost var s1 := k.State();
    err, links := ClearNamespace(k, vrfs, vnis);
    assert k.faults == old(k.faults) ==> s1 == Sweep(old(k.State()), Host, hostLinks, HostLegVerdicts(vrfs)).value;
    assert k.faults == old(k.faults) ==> Sweep(s1, Host, [], HostLegVerdicts(vrfs)) == Success(s1);
  }

  // ----- what the garbage collection removes -----

  /** Every link of m' is a link of m, under the same index and of the same kind. */
  predicate Shrunk(m': map<string, Link>, m: map<string, Link>) {
    forall n :: n in m' ==> n in m && m'[n].index == m[n].index && m'[n].kind == m[n].kind
  }

  lemma DeletedShrinks(s: KState, ns: Ns, i: nat)
    ensures Shrunk(Deleted(s, ns, i).host, s.host) && Shrunk(Deleted(s, ns, i).target, s.target)
    ensures forall n :: n in Links(Deleted(s, ns, i), ns) ==> Links(Deleted(s, ns, i), ns)[n].index != i
  {
  }

  /** A loop only deletes: what is left was there before, unchanged in index and kind. */
  lemma {:induction false} SweepShrinks(s: KState, ns: Ns, links: seq<Link>, v: Link -> Verdict)
    requires Consistent(s) && Sweep(s, ns, links, v).Success?
    ensures var t := Sweep(s, ns, links, v).value; Shrunk(t.host, s.host) && Shrunk(t.target, s.target)
    decreases |links|
  {
    if links != [] {
      match v(links[0])
      case Keep => SweepShrinks(s, ns, links[1..], v);
      case Delete =>
        DeletedConsistent(s, ns, links[0].index);
        DeletedShrinks(s, ns, links[0].index);
        SweepShrinks(Deleted(s, ns, links[0].index), ns, links[1..], v);
      case Abort(_) =>
    }
  }

  /** A loop that finishes met no link whose name it could not read. */
  lemma {:induction false} SweepNeverAborted(s: KState, ns: Ns, links: seq<Link>, v: Link -> Verdict)
    requires Consistent(s) && Sweep(s, ns, links, v).Success?
    ensures forall j :: 0 <= j < |links| ==> !v(links[j]).Abort?
    decreases |links|
  {
    if links != [] {
      forall j | 0 < j < |links| ensures links[j] == links[1..][j - 1] { }
      match v(links[0])
      case Keep => SweepNeverAborted(s, ns, links[1..], v);
      case Delete =>
        DeletedConsistent(s, ns, links[0].index);
        SweepNeverAborted(Deleted(s, ns, links[0].index), ns, links[1..], v);
      case Abort(_) =>
    }
  }

  /** A loop that finishes leaves no link under the index of a listed link it had to delete. */
  lemma {:induction false} SweepDeletes(s: KState, ns: Ns, links: seq<Link>, v: Link -> Verdict)
    requires Consistent(s) && Sweep(s, ns, links, v).Success?
    ensures forall j :: 0 <= j < |links| && v(links[j]).Delete? ==> !HasIndex(Links(Sweep(s, ns, links, v).value, ns), links[j].index)
    decreases |links|
  {
    if links != [] {
      var t := Sweep(s, ns, links, v).value;
      var rest := links[1..];
      match v(links[0])
      case Keep =>
        SweepDeletes(s, ns, rest, v);
        forall j | 0 < j < |links| ensures links[j] == rest[j - 1] { }
      case Delete =>
        var i := links[0].index;
        var d := Deleted(s, ns, i);
        DeletedConsistent(s, ns, i);
        DeletedShrinks(s, ns, i);
        SweepShrinks(d, ns, rest, v);
        SweepDeletes(d, ns, rest, v);
        forall j | 0 < j < |links| ensures links[j] == rest[j - 1] { }
      case Abort(_) =>
    }
  }

  /** The indices of the listed links a loop deletes. */
  function DeletedIndices(links: seq<Link>, v: Link -> Verdict): set<nat> {
    set l | l in links && v(l).Delete? :: l.index
  }

  lemma DeletedIndicesSplit(links: seq<Link>, v: Link -> Verdict)
    requires links != []
    ensures DeletedIndices(links, v) == (if v(links[0]).Delete? then {links[0].index} else {}) + DeletedIndices(links[1..], v)
  {
    assert forall l :: l in links <==> l == links[0] || l in links[1..];
  }

  /**
   * When the loop deletes no veth, whose peer would go with it, it removes exactly the links
   * under the indices it deletes: a link stays if and only if its index is not one of them.
   */
  lemma {:induction false} SweepRemovesExactly(s: KState, ns: Ns, links: seq<Link>, v: Link -> Verdict)
    requires Consistent(s) && Sweep(s, ns, links, v).Success?
    requires forall n :: n in Links(s, ns) && Links(s, ns)[n].index in DeletedIndices(links, v) ==> !Links(s, ns)[n].kind.Veth?
    ensures var m := Links(s, ns); var m' := Links(Sweep(s, ns, links, v).value, ns);
      forall n :: n in m ==> (n in m' <==> m[n].index !in DeletedIndices(links, v))
    decreases |links|
  {
    if links != [] {
      var m := Links(s, ns);
      var t := Sweep(s, ns, links, v).value;
      var rest := links[1..];
      DeletedIndicesSplit(links, v);
      match v(links[0])
      case Keep =>
        SweepRemovesExactly(s, ns, rest, v);
      case Delete =>
        var i := links[0].index;
        var d := Deleted(s, ns, i);
        DeletedConsistent(s, ns, i);
        DeletedShrinks(s, ns, i);
        assert PeersOf(m, i) == {};
        assert forall n :: n in Links(d, ns) <==> n in m && m[n].index != i;
        SweepRemovesExactly(d, ns, rest, v);
        SweepShrinks(d, ns, rest, v);
      case Abort(_) =>
    }
  }

  /** A listed link whose index a loop deletes is one the loop judged for deletion. */
  lemma ListedDeletion(m: map<string, Link>, links: seq<Link>, v: Link -> Verdict, n: string)
    requires Enumerates(links, m) && UniqueIndices(m) && n in m
    ensures m[n].index in DeletedIndices(links, v) <==> v(m[n]).Delete?
  {
    if m[n].index in DeletedIndices(links, v) {
      var l :| l in links && v(l).Delete? && l.index == m[n].index;
      var j :| 0 <= j < |links| && links[j] == l;
      assert m[l.name] == l;
    } else {
      var j :| 0 <= j < |links| && links[j].name == n;
      assert links[j] == m[n];
    }
  }

  /**
   * A namespace link the garbage collection removes: a vxlan or a bridge whose name carries a
   * VNI no parameter names, or a VRF no parameter names.
   */
  predicate Unconfigured(l: Link, vrfs: set<string>, vnis: set<int>) {
    || (l.kind.Vxlan? && VniFromVXLanName(l.name).Success? && VniFromVXLanName(l.name).value !in vnis)
    || (l.kind.Bridge? && VniFromBridgeName(l.name).Success? && VniFromBridgeName(l.name).value !in vnis)
    || (l.kind.Vrf? && l.name !in vrfs)
  }

  /** What each namespace loop decides for a link, in terms of its kind and its name. */
  lemma VerdictMeaning(l: Link, vrfs: set<string>, vnis: set<int>)
    ensures ClearVerdict("vxlan", vnis, VniFromVXLanName, l).Abort? <==> l.kind.Vxlan? && VniFromVXLanName(l.name).Failure?
    ensures ClearVerdict("bridge", vnis, VniFromBridgeName, l).Abort? <==> l.kind.Bridge? && VniFromBridgeName(l.name).Failure?
    ensures !VrfVerdict(vrfs, l).Abort?
    ensures Unconfigured(l, vrfs, vnis) <==>
      || ClearVerdict("vxlan", vnis, VniFromVXLanName, l).Delete?
      || ClearVerdict("bridge", vnis, VniFromBridgeName, l).Delete?
      || VrfVerdict(vrfs, l).Delete?
    ensures ClearVerdict("vxlan", vnis, VniFromVXLanName, l).Delete? ==> l.kind.Vxlan?
    ensures ClearVerdict("bridge", vnis, VniFromBridgeName, l).Delete? ==> l.kind.Bridge?
    ensures VrfVerdict(vrfs, l).Delete? ==> l.kind.Vrf?
  {
    TypeNames(l.kind);
  }

  /** A namespace loop over a listing of `m` that deletes only links of one non-veth kind deletes exactly its verdicts. */
  lemma NamespaceSweepExact(m0: map<string, Link>, s: KState, links: seq<Link>, v: Link -> Verdict)
    requires Consistent(s) && Sweep(s, Target, links, v).Success?
    requires Enumerates(links, m0) && UniqueIndices(m0) && Shrunk(s.target, m0)
    requires forall n :: n in m0 && v(m0[n]).Delete? ==> !m0[n].kind.Veth?
    ensures forall n :: n in s.target ==> (n in Sweep(s, Target, links, v).value.target <==> !v(m0[n]).Delete?)
  {
    forall n | n in s.target && s.target[n].index in DeletedIndices(links, v)
      ensures !s.target[n].kind.Veth?
    {
      ListedDeletion(m0, links, v, n);
    }
    SweepRemovesExactly(s, Target, links, v);
    forall n | n in s.target
      ensures s.target[n].index in DeletedIndices(links, v) <==> v(m0[n]).Delete?
    {
      ListedDeletion(m0, links, v, n);
    }
  }

  /**
   * The namespace half of RemoveNonConfiguredVNIs: over a listing of the namespace, a run
   * that finishes keeps a link if and only if it is not unconfigured, and every vxlan and
   * bridge left carries a VNI in its name.
   */
  lemma NamespaceCleared(s1: KState, vrfs: set<string>, vnis: set<int>, links: seq<Link>)
    requires Consistent(s1) && Enumerates(links, s1.target)
    requires VnisRemoved(s1, vrfs, vnis, [], links).Success?
    ensures var t := VnisRemoved(s1, vrfs, vnis, [], links).value;
      && Shrunk(t.target, s1.target)
      && (forall n :: n in s1.target ==> (n in t.target <==> !Unconfigured(s1.target[n], vrfs, vnis)))
      && (forall n :: n in t.target && t.target[n].kind.Vxlan? ==> VniFromVXLanName(n).Success?)
      && (forall n :: n in t.target && t.target[n].kind.Bridge? ==> VniFromBridgeName(n).Success?)
  {
    var m := s1.target;
    var v1 := ClearVerdicts("vxlan", vnis, VniFromVXLanName);
    var v2 := ClearVerdicts("bridge", vnis, VniFromBridgeName);
    var v3 := VrfVerdicts(vrfs);
    assert Sweep(s1, Host, [], HostLegVerdicts(vrfs)) == Success(s1);
    var s2 := Sweep(s1, Target, links, v1).value;
    var s3 := Sweep(s2, Target, links, v2).value;
    var t := Sweep(s3, Target, links, v3).value;
    assert t == VnisRemoved(s1, vrfs, vnis, [], links).value;
    forall n | n in m
      ensures !v1(m[n]).Abort? && !v2(m[n]).Abort?
      ensures Unconfigured(m[n], vrfs, vnis) <==> v1(m[n]).Delete? || v2(m[n]).Delete? || v3(m[n]).Delete?
      ensures v1(m[n]).Delete? || v2(m[n]).Delete? || v3(m[n]).Delete? ==> !m[n].kind.Veth?
    {
      VerdictMeaning(m[n], vrfs, vnis);
      SweepNeverAborted(s1, Target, links, v1);
      SweepNeverAborted(s2, Target, links, v2);
      var j :| 0 <= j < |links| && links[j].name == n;
      assert links[j] == m[n];
    }
    SweepShrinks(s1, Target, links, v1);
    SweepShrinks(s2, Target, links, v2);
    SweepShrinks(s3, Target, links, v3);
    NamespaceSweepExact(m, s1, links, v1);
    NamespaceSweepExact(m, s2, links, v2);
    NamespaceSweepExact(m, s3, links, v3);
    forall n | n in t.target && t.target[n].kind.Vxlan?
      ensures VniFromVXLanName(n).Success?
    {
      VerdictMeaning(m[n], vrfs, vnis);
    }
    forall n | n in t.target && t.target[n].kind.Bridge?
      ensures VniFromBridgeName(n).Success?
    {
      VerdictMeaning(m[n], vrfs, vnis);
    }
  }

  /** The host-leg loop of a run that finishes leaves only the host legs of configured VRFs. */
  lemma HostLegsCleared(s: KState, vrfs: set<string>, hostLinks: seq<Link>)
    requires Consistent(s) && Enumerates(hostLinks, s.host)
    requires Sweep(s, Host, hostLinks, HostLegVerdicts(vrfs)).Success?
    ensures var s1 := Sweep(s, Host, hostLinks, HostLegVerdicts(vrfs)).value;
      forall n :: n in s1.host && s1.host[n].kind.Veth? && HasPrefix(n, HostVethPrefix) ==> VrfForHostLeg(n) in vrfs
  {
    var v := HostLegVerdicts(vrfs);
    var s1 := Sweep(s, Host, hostLinks, v).value;
    SweepShrinks(s, Host, hostLinks, v);
    SweepDeletes(s, Host, hostLinks, v);
    forall n | n in s1.host && s1.host[n].kind.Veth? && HasPrefix(n, HostVethPrefix)
      ensures VrfForHostLeg(n) in vrfs
    {
      var j :| 0 <= j < |hostLinks| && hostLinks[j].name == n;
      assert hostLinks[j] == s.host[n];
      TypeNames(hostLinks[j].kind);
    }
  }

  /**
   * After a run of RemoveNonConfiguredVNIs that finishes, from listings of the host and (after
   * the host legs) of the namespace: every host leg left belongs to a configured VRF; in the
   * namespace a listed link stays if and only if it is not unconfigured, so every VRF left is
   * configured and every vxlan and bridge left carries a configured VNI.
   */
  lemma RemovedLeavesOnlyConfigured(s: KState, params: seq<VNIParams>, hostLinks: seq<Link>, links: seq<Link>)
    requires Consistent(s) && Enumerates(hostLinks, s.host)
    requires Sweep(s, Host, hostLinks, HostLegVerdicts(DesiredVrfs(params))).Success?
    requires Enumerates(links, Sweep(s, Host, hostLinks, HostLegVerdicts(DesiredVrfs(params))).value.target)
    requires VnisRemoved(s, DesiredVrfs(params), DesiredVnis(params), hostLinks, links).Success?
    ensures var vrfs := DesiredVrfs(params); var vnis := DesiredVnis(params);
      var s1 := Sweep(s, Host, hostLinks, HostLegVerdicts(vrfs)).value;
      var t := VnisRemoved(s, vrfs, vnis, hostLinks, links).value;
      && (forall n :: n in t.host && t.host[n].kind.Veth? && HasPrefix(n, HostVethPrefix) ==>
            exists p :: p in params && VethLegsForVRF(p.vrf).0 == n)
      && (forall n :: n in s1.target ==> (n in t.target <==> !Unconfigured(s1.target[n], vrfs, vnis)))
      && (forall n :: n in t.target && t.target[n].kind.Vrf? ==> exists p :: p in params && p.vrf == n)
      && (forall n :: n in t.target && t.target[n].kind.Vxlan? ==>
            VniFromVXLanName(n).Success? && exists p :: p in params && p.vni == VniFromVXLanName(n).value)
      && (forall n :: n in t.target && t.target[n].kind.Bridge? ==>
            VniFromBridgeName(n).Success? && exists p :: p in params && p.vni == VniFromBridgeName(n).value)
  {
    var vrfs := DesiredVrfs(params);
    var vnis := DesiredVnis(params);
    var s1 := Sweep(s, Host, hostLinks, HostLegVerdicts(vrfs)).value;
    assert Sweep(s1, Host, [], HostLegVerdicts(vrfs)) == Success(s1);
    assert VnisRemoved(s, vrfs, vnis, hostLinks, links) == VnisRemoved(s1, vrfs, vnis, [], links);
    var t := VnisRemoved(s1, vrfs, vnis, [], links).value;
    HostLegsCleared(s, vrfs, hostLinks);
    NamespaceCleared(s1, vrfs, vnis, links);
    var s2 := Sweep(s1, Target, links, ClearVerdicts("vxlan", vnis, VniFromVXLanName)).value;
    var s3 := Sweep(s2, Target, links, ClearVerdicts("bridge", vnis, VniFromBridgeName)).value;
    SweepShrinks(s1, Target, links, ClearVerdicts("vxlan", vnis, VniFromVXLanName));
    SweepShrinks(s2, Target, links, ClearVerdicts("bridge", vnis, VniFromBridgeName));
    SweepShrinks(s3, Target, links, VrfVerdicts(vrfs));
    forall n | n in t.host && t.host[n].kind.Veth? && HasPrefix(n, HostVethPrefix)
      ensures exists p :: p in params && VethLegsForVRF(p.vrf).0 == n
    {
      var p :| p in params && p.vrf == VrfForHostLeg(n);
      HostLegRoundTrip(p.vrf, n);
    }
    forall n | n in t.target
      ensures !Unconfigured(t.target[n], vrfs, vnis)
    {
      assert t.target[n].name == n == s1.target[n].name;
    }
  }
}
