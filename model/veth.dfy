// The veth pair that joins the host to a VRF of the router's namespace
// (internal/hostnetwork/veth.go): the host leg stays in the host namespace, the "pe" leg is
// moved into the target namespace.
module Veth {
  import opened Wrappers
  import opened Text
  import opened Kernel

  const HostVethPrefix: string := "host"
  const PEVethPrefix: string := "pe"

  /** vethLegsForVRF: the names of the host leg and of the namespace leg of a VRF's pair. */
  function VethLegsForVRF(name: string): (legs: (string, string))
    ensures legs.0 != legs.1
    ensures HasPrefix(legs.0, HostVethPrefix) && HasPrefix(legs.1, PEVethPrefix)
  {
    var hostSide := HostVethPrefix + name;
    var peSide := PEVethPrefix + name;
    assert hostSide[0] != peSide[0];
    TrimPrefixOfConcat(HostVethPrefix, name);
    TrimPrefixOfConcat(PEVethPrefix, name);
    (hostSide, peSide)
  }

  /** vrfForHostLeg: the VRF a host leg belongs to. */
  function VrfForHostLeg(name: string): (vrf: string)
    ensures HasPrefix(name, HostVethPrefix) ==> HostVethPrefix + vrf == name
    ensures !HasPrefix(name, HostVethPrefix) ==> vrf == name
  {
    TrimPrefix(name, HostVethPrefix)
  }

  /** The VRF is recovered from its host leg, and every "host"-prefixed name is the host leg of its VRF. */
  lemma HostLegRoundTrip(vrf: string, leg: string)
    ensures VrfForHostLeg(VethLegsForVRF(vrf).0) == vrf
    ensures HasPrefix(leg, HostVethPrefix) ==> VethLegsForVRF(VrfForHostLeg(leg)).0 == leg
  {
    TrimPrefixOfConcat(HostVethPrefix, vrf);
  }

  /** Distinct VRFs have distinct host legs. */
  lemma HostLegInjective(a: string, b: string)
    requires VethLegsForVRF(a).0 == VethLegsForVRF(b).0
    ensures a == b
  {
    HostLegRoundTrip(a, "");
    HostLegRoundTrip(b, "");
  }

  datatype VethError =
    | VethAddRefused(vrf: string)
    | VethDelRefused(vrf: string)
    | PeerNotFound(vrf: string)
    | PeerMoveRefused(vrf: string)

  /** A new pair: the host leg with the next index, its peer with the one after; nothing else changes. */
  lemma AddedVethShape(s: KState, name: string, peer: string)
    requires Consistent(s) && CanAddVeth(s, Host, name, peer)
    ensures var t := AddedVeth(s, Host, name, peer);
      && Consistent(t)
      && t.host.Keys == s.host.Keys + {name, peer}
      && t.host[name] == Fresh(name, s.nextIndex, Veth(s.nextIndex + 1), 0)
      && t.host[peer] == Fresh(peer, s.nextIndex + 1, Veth(s.nextIndex), 0)
      && (forall n :: n in s.host ==> t.host[n] == s.host[n])
      && t.target == s.target && t.hostRoutes == s.hostRoutes && t.targetRoutes == s.targetRoutes
  {
    AddedVethConsistent(s, Host, name, peer);
  }

  /** createVeth: add the pair of a VRF in the host namespace. Returns the host leg. */
  method CreateVeth(k: Kernel, vrfName: string) returns (r: Result<Link, VethError>)
    requires k.Valid()
    modifies k
    ensures k.Valid() && k.faults >= old(k.faults)
    ensures var (hostSide, peSide) := VethLegsForVRF(vrfName);
      && (r.Success? <==> CanAddVeth(old(k.State()), Host, hostSide, peSide) && k.faults == old(k.faults))
      && k.State() == (if r.Success? then AddedVeth(old(k.State()), Host, hostSide, peSide) else old(k.State()))
      && (r.Success? ==> hostSide in k.State().host && r.value == k.State().host[hostSide])
      && (r.Failure? ==> r.error == VethAddRefused(vrfName))
  {
    var (hostSide, peSide) := VethLegsForVRF(vrfName);
    var ok := k.VethAdd(Host, hostSide, peSide);
    if !ok {
      return Failure(VethAddRefused(vrfName));
    }
    return Success(k.State().host[hostSide]);
  }

  /**
   * The first half of setupVeth: the host leg exists as a veth afterwards. A missing host leg
   * is created with its pair; a link of another kind under that name is deleted and the
   * pair created. None when the kernel would refuse the creation.
   */
  function VethCreated(s: KState, vrf: string): Option<KState> {
    var (hostSide, peSide) := VethLegsForVRF(vrf);
    if hostSide in s.host && s.host[hostSide].kind.Veth? then Some(s)
    else
      var d := if hostSide in s.host then Deleted(s, Host, s.host[hostSide].index) else s;
      if CanAddVeth(d, Host, hostSide, peSide) then Some(AddedVeth(d, Host, hostSide, peSide)) else None
  }

  /**
   * The second half: the host leg's peer is moved into the target namespace when it is in
   * the host namespace, and left where it is when it is already in the target namespace.
   * None when the peer is in neither, or the kernel would refuse the move.
   */
  function PeerPlaced(s: KState, hostSide: string): Option<KState>
    requires hostSide in s.host && s.host[hostSide].kind.Veth?
  {
    var peer := s.host[hostSide].kind.peerIndex;
    if HasIndex(s.host, peer) then
      if CanMove(s, Host, peer, Target) then Some(Moved(s, Host, peer, Target)) else None
    else if HasIndex(s.target, peer) then Some(s)
    else None
  }

  lemma VethCreatedHasLeg(s: KState, vrf: string)
    requires Consistent(s) && VethCreated(s, vrf).Some?
    ensures var hostSide := VethLegsForVRF(vrf).0; var t := VethCreated(s, vrf).value;
      && Consistent(t) && hostSide in t.host && t.host[hostSide].kind.Veth?
      && (!(hostSide in s.host && s.host[hostSide].kind.Veth?) ==>
            t.host[hostSide].kind.peerIndex == t.host[hostSide].index + 1
            && t.host[VethLegsForVRF(vrf).1].index == t.host[hostSide].index + 1)
  {
    var (hostSide, peSide) := VethLegsForVRF(vrf);
    if !(hostSide in s.host && s.host[hostSide].kind.Veth?) {
      var d := if hostSide in s.host then Deleted(s, Host, s.host[hostSide].index) else s;
      if hostSide in s.host {
        DeletedConsistent(s, Host, s.host[hostSide].index);
      }
      AddedVethShape(d, hostSide, peSide);
    }
  }

  /** After placing, the peer is in the target namespace only; a veth that is not its own peer stays where it is. */
  lemma PeerPlacedShape(s: KState, hostSide: string)
    requires Consistent(s) && hostSide in s.host && s.host[hostSide].kind.Veth?
    requires PeerPlaced(s, hostSide).Some?
    ensures var t := PeerPlaced(s, hostSide).value; var peer := s.host[hostSide].kind.peerIndex;
      && Consistent(t) && HasIndex(t.target, peer) && !HasIndex(t.host, peer)
      && (peer != s.host[hostSide].index ==>
            hostSide in t.host && t.host[hostSide].index == s.host[hostSide].index && t.host[hostSide].kind == s.host[hostSide].kind)
  {
    var peer := s.host[hostSide].kind.peerIndex;
    if HasIndex(s.host, peer) {
      MovedConsistent(s, Host, peer, Target);
      var n :| n in s.host && s.host[n].index == peer;
      var t := Moved(s, Host, peer, Target);
      assert n in t.target;
      assert t.host == Dropped(s.host, {peer});
    } else {
      assert s.target == PeerPlaced(s, hostSide).value.target;
    }
  }

  /** What setupVeth leaves behind when it succeeds. */
  function VethEnsured(s: KState, vrf: string): Option<KState>
    requires Consistent(s)
  {
    match VethCreated(s, vrf)
    case None => None
    case Some(s1) =>
      VethCreatedHasLeg(s, vrf);
      PeerPlaced(s1, VethLegsForVRF(vrf).0)
  }

  /**
   * After a successful setupVeth the host leg is a veth in the host namespace and its peer
   * is in the target namespace only; running setupVeth again changes nothing (for a host
   * leg that is not recorded as its own peer).
   */
  lemma {:induction false} VethEnsuredIdempotent(s: KState, vrf: string)
    requires Consistent(s) && VethEnsured(s, vrf).Some?
    requires var hostSide := VethLegsForVRF(vrf).0;
      hostSide in s.host && s.host[hostSide].kind.Veth? ==> s.host[hostSide].kind.peerIndex != s.host[hostSide].index
    ensures var t := VethEnsured(s, vrf).value; var hostSide := VethLegsForVRF(vrf).0;
      && Consistent(t) && hostSide in t.host && t.host[hostSide].kind.Veth?
      && HasIndex(t.target, t.host[hostSide].kind.peerIndex) && !HasIndex(t.host, t.host[hostSide].kind.peerIndex)
      && VethEnsured(t, vrf) == Some(t)
  {
    var hostSide := VethLegsForVRF(vrf).0;
    VethCreatedHasLeg(s, vrf);
    var s1 := VethCreated(s, vrf).value;
    PeerPlacedShape(s1, hostSide);
    var t := VethEnsured(s, vrf).value;
    assert VethCreated(t, vrf) == Some(t);
    VethCreatedHasLeg(t, vrf);
  }

  /**
   * setupVeth: ensure the pair exists, then make sure the namespace leg is in the target
   * namespace. Returns the host leg and the namespace leg as they were looked up.
   */
  method SetupVeth(k: Kernel, name: string) returns (r: Result<(Link, Link), VethError>)
    requires k.Valid()
    modifies k
    ensures k.Valid() && k.faults >= old(k.faults)
    ensures r.Success? ==> VethEnsured(old(k.State()), name) == Some(k.State())
    ensures r.Success? ==>
      var hostSide := VethLegsForVRF(name).0;
      && VethCreated(old(k.State()), name).Some? && hostSide in VethCreated(old(k.State()), name).value.host
      && r.value.0 == VethCreated(old(k.State()), name).value.host[hostSide] && r.value.0.kind.Veth?
      && r.value.1.index == r.value.0.kind.peerIndex && HasIndex(k.State().target, r.value.1.index)
    ensures k.faults == old(k.faults) && VethEnsured(old(k.State()), name).Some? ==> r.Success?
  {
    var (hostSide, _) := VethLegsForVRF(name);
    ghost var s0 := k.State();
    var link := k.LinkByName(Host, hostSide);
    var vethHost: Link;
    if link.None? {
      var created := CreateVeth(k, name);
      if created.Failure? {
        return Failure(created.error);
      }
      vethHost := created.value;
    } else if !link.value.kind.Veth? {
      var ok := k.LinkDel(Host, link.value.index);
      if !ok {
        return Failure(VethDelRefused(name));
      }
      var created := CreateVeth(k, name);
      if created.Failure? {
        return Failure(created.error);
      }
      vethHost := created.value;
    } else {
      vethHost := link.value;
    }
    ghost var s1 := k.State();
    VethCreatedHasLeg(s0, name);
    assert VethCreated(s0, name) == Some(s1);
    var peerIndex := vethHost.kind.peerIndex;
    var vethPE := k.LinkByIndex(Host, peerIndex);
    if vethPE.None? {
      vethPE := k.LinkByIndex(Target, peerIndex);
      if vethPE.None? {
        return Failure(PeerNotFound(name));
      }
      PeerPlacedShape(s1, hostSide);
      return Success((vethHost, vethPE.value));
    }
    var ok := k.LinkSetNs(Host, peerIndex, Target);
    if !ok {
      return Failure(PeerMoveRefused(name));
    }
    assert k.State() == Moved(s1, Host, peerIndex, Target);
    PeerPlacedShape(s1, hostSide);
    return Success((vethHost, vethPE.value));
  }
}
