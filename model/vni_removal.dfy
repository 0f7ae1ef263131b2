// RemoveNonConfiguredVNIs (internal/hostnetwork/vni.go:95-160) seen from the VNIs it keeps
// and the ones it drops: a configured VNI stays wired as SetupVNI left it, and a host leg
// that goes takes whatever sat at its peer index with it.
module VniRemoval {
  import opened Wrappers
  import opened IPv4
  import opened Text
  import opened Kernel
  import opened Properties
  import opened HostNetworkTypes
  import opened Veth
  import opened Bridge
  import opened Vxlan
  import opened Vni
  import opened VniWiring
  import Underlay

  // ----- what a loop leaves alone -----

  /** The links of m under the indices idx are still in m', changed at most in a master outside idx. */
  predicate KeptAt(m: map<string, Link>, m': map<string, Link>, idx: set<nat>) {
    forall n :: n in m && m[n].index in idx ==>
      n in m' && Like(m'[n], m[n]) && (m[n].master in idx ==> m'[n] == m[n])
  }

  lemma KeptAtTrans(a: map<string, Link>, b: map<string, Link>, c: map<string, Link>, idx: set<nat>)
    requires KeptAt(a, b, idx) && KeptAt(b, c, idx)
    ensures KeptAt(a, c, idx)
  {
    forall n | n in a && a[n].index in idx
      ensures n in c && Like(c[n], a[n]) && (a[n].master in idx ==> c[n] == a[n])
    {
      assert b[n].(master := 0).index == a[n].(master := 0).index;
    }
  }

  lemma ShrunkTrans(a: map<string, Link>, b: map<string, Link>, c: map<string, Link>)
    requires Shrunk(b, a) && Shrunk(c, b)
    ensures Shrunk(c, a)
  {
  }

  /**
   * No deletion of a loop over `links` reaches idx: a link it deletes has its index outside
   * idx, and so has the peer of a veth it deletes.
   */
  predicate Spares(m: map<string, Link>, links: seq<Link>, v: Link -> Verdict, idx: set<nat>) {
    forall j, n :: 0 <= j < |links| && v(links[j]).Delete? && n in m && m[n].index == links[j].index ==>
      m[n].index !in idx && (m[n].kind.Veth? ==> m[n].kind.peerIndex !in idx)
  }

  lemma SparesStep(m: map<string, Link>, m': map<string, Link>, links: seq<Link>, v: Link -> Verdict, idx: set<nat>)
    requires links != [] && Spares(m, links, v, idx) && Shrunk(m', m)
    ensures Spares(m', links[1..], v, idx)
  {
    forall j, n | 0 <= j < |links[1..]| && v(links[1..][j]).Delete? && n in m' && m'[n].index == links[1..][j].index
      ensures m'[n].index !in idx && (m'[n].kind.Veth? ==> m'[n].kind.peerIndex !in idx)
    {
      assert links[1..][j] == links[j + 1];
    }
  }

  /** The routes of rs through idx are all in rs'. */
  predicate RoutesKept(rs: set<Route>, rs': set<Route>, idx: set<nat>) {
    forall r :: r in rs && r.linkIndex in idx ==> r in rs'
  }

  /** Dropping indices outside idx keeps the links under idx, up to masters outside idx. */
  lemma DroppedKeeps(m: map<string, Link>, gone: set<nat>, idx: set<nat>)
    requires gone !! idx
    ensures KeptAt(m, Dropped(m, gone), idx)
  {
  }

  /** LinkDel of a link outside idx whose peers are outside idx keeps everything under idx. */
  lemma DeletedKeeps(s: KState, ns: Ns, i: nat, idx: set<nat>)
    requires i !in idx && PeersOf(Links(s, ns), i) !! idx
    ensures var d := Deleted(s, ns, i);
      KeptAt(s.host, d.host, idx) && KeptAt(s.target, d.target, idx) && RoutesKept(s.targetRoutes, d.targetRoutes, idx)
  {
    var gone := {i} + PeersOf(Links(s, ns), i);
    DroppedKeeps(s.host, gone, idx);
    DroppedKeeps(s.target, gone, idx);
  }

  /** The first deletion a sparing loop makes, of a link that is there, is outside idx with its peers. */
  lemma SparesHead(m: map<string, Link>, links: seq<Link>, v: Link -> Verdict, idx: set<nat>)
    requires links != [] && Spares(m, links, v, idx) && v(links[0]).Delete? && HasIndex(m, links[0].index)
    ensures links[0].index !in idx && PeersOf(m, links[0].index) !! idx
  {
    var i := links[0].index;
    var w :| w in m && m[w].index == i;
    forall q | q in PeersOf(m, i) ensures q !in idx {
      var n :| n in m && m[n].index == i && m[n].kind.Veth? && m[n].kind.peerIndex == q;
    }
  }

  /**
   * A loop that finishes, and whose deletions never reach idx, keeps every link under idx in
   * both namespaces, up to masters outside idx, and every namespace route through idx.
   */
  lemma {:induction false} SweepSpares(s: KState, ns: Ns, links: seq<Link>, v: Link -> Verdict, idx: set<nat>)
    requires Consistent(s) && Sweep(s, ns, links, v).Success?
    requires Spares(Links(s, ns), links, v, idx)
    ensures var t := Sweep(s, ns, links, v).value;
      && KeptAt(s.host, t.host, idx) && KeptAt(s.target, t.target, idx)
      && RoutesKept(s.targetRoutes, t.targetRoutes, idx)
    decreases |links|
  {
    if links != [] {
      var rest := links[1..];
      var m := Links(s, ns);
      match v(links[0])
      case Keep =>
        SparesStep(m, m, links, v, idx);
        SweepSpares(s, ns, rest, v, idx);
      case Delete =>
        var i := links[0].index;
        SparesHead(m, links, v, idx);
        var d := Deleted(s, ns, i);
        DeletedKeeps(s, ns, i, idx);
        DeletedConsistent(s, ns, i);
        DeletedShrinks(s, ns, i);
        SparesStep(m, Links(d, ns), links, v, idx);
        SweepSpares(d, ns, rest, v, idx);
        var t := Sweep(d, ns, rest, v).value;
        KeptAtTrans(s.host, d.host, t.host, idx);
        KeptAtTrans(s.target, d.target, t.target, idx);
      case Abort(_) =>
    }
  }

  /** A loop that finishes found every link it deleted still there, under the listed index. */
  lemma {:induction false} SweepDeletedPresent(s: KState, ns: Ns, links: seq<Link>, v: Link -> Verdict)
    requires Consistent(s) && Sweep(s, ns, links, v).Success?
    ensures forall j :: 0 <= j < |links| && v(links[j]).Delete? ==> HasIndex(Links(s, ns), links[j].index)
    decreases |links|
  {
    if links != [] {
      var rest := links[1..];
      forall j | 0 < j < |links| ensures links[j] == rest[j - 1] { }
      match v(links[0])
      case Keep => SweepDeletedPresent(s, ns, rest, v);
      case Delete =>
        var d := Deleted(s, ns, links[0].index);
        DeletedConsistent(s, ns, links[0].index);
        DeletedShrinks(s, ns, links[0].index);
        SweepDeletedPresent(d, ns, rest, v);
      case Abort(_) =>
    }
  }

  /**
   * A loop that finishes leaves nothing, in either namespace, at the peer index of a veth it
   * deleted: LinkDel takes the peer with it.
   */
  lemma {:induction false} SweepDropsPeers(s: KState, ns: Ns, links: seq<Link>, v: Link -> Verdict)
    requires Consistent(s) && Sweep(s, ns, links, v).Success?
    ensures var t := Sweep(s, ns, links, v).value;
      forall j, n ::
        (0 <= j < |links| && v(links[j]).Delete? && n in Links(s, ns) && Links(s, ns)[n].index == links[j].index
         && Links(s, ns)[n].kind.Veth?) ==>
        !HasIndex(t.host, Links(s, ns)[n].kind.peerIndex) && !HasIndex(t.target, Links(s, ns)[n].kind.peerIndex)
    decreases |links|
  {
    if links != [] {
      var t := Sweep(s, ns, links, v).value;
      var m := Links(s, ns);
      var rest := links[1..];
      match v(links[0])
      case Keep =>
        SweepDropsPeers(s, ns, rest, v);
        forall j, n | 0 <= j < |links| && v(links[j]).Delete? && n in m && m[n].index == links[j].index && m[n].kind.Veth?
          ensures !HasIndex(t.host, m[n].kind.peerIndex) && !HasIndex(t.target, m[n].kind.peerIndex)
        {
          assert links[j] == rest[j - 1];
        }
      case Delete =>
        var i := links[0].index;
        var d := Deleted(s, ns, i);
        DeletedConsistent(s, ns, i);
        DeletedShrinks(s, ns, i);
        SweepShrinks(d, ns, rest, v);
        SweepDeletedPresent(d, ns, rest, v);
        SweepDropsPeers(d, ns, rest, v);
        forall j, n | 0 <= j < |links| && v(links[j]).Delete? && n in m && m[n].index == links[j].index && m[n].kind.Veth?
          ensures !HasIndex(t.host, m[n].kind.peerIndex) && !HasIndex(t.target, m[n].kind.peerIndex)
        {
          if j == 0 {
            assert m[n].kind.peerIndex in PeersOf(m, i);
          } else {
            assert links[j] == rest[j - 1];
            var w :| w in Links(d, ns) && Links(d, ns)[w].index == links[j].index;
            assert w == n;
          }
        }
      case Abort(_) =>
    }
  }

  // ----- the host-leg loop and the namespace loops -----

  /**
   * Every "host" veth of the host namespace has no host link at its peer index, and whatever
   * sits at that index in the target namespace is the "pe" veth of the same VRF. Linux keeps
   * veth legs in pairs; the kernel state of the model does not tie them.
   */
  predicate LegsPaired(s: KState) {
    forall n :: n in s.host && s.host[n].kind.Veth? && HasPrefix(n, HostVethPrefix) ==> PairedAt(s, n, s.host[n].kind.peerIndex)
  }

  predicate PairedAt(s: KState, n: string, q: nat) {
    && !HasIndex(s.host, q)
    && forall m :: m in s.target && s.target[m].index == q ==> m == VethLegsForVRF(VrfForHostLeg(n)).1 && s.target[m].kind.Veth?
  }

  lemma PeLegInjective(a: string, b: string)
    requires VethLegsForVRF(a).1 == VethLegsForVRF(b).1
    ensures a == b
  {
    assert a == (PEVethPrefix + a)[|PEVethPrefix|..];
    assert b == (PEVethPrefix + b)[|PEVethPrefix|..];
  }

  lemma LoopbackIsNoPeLeg(a: string)
    ensures Underlay.UnderlayLoopback != VethLegsForVRF(a).1
  {
    assert VethLegsForVRF(a).1[0] == 'p';
  }

  /** The index of the link named n in m, if there is one. */
  function IndexOf(m: map<string, Link>, n: string): set<nat> {
    if n in m then {m[n].index} else {}
  }

  /** The peer index of the veth named n in m, if there is one. */
  function PeerOf(m: map<string, Link>, n: string): set<nat> {
    if n in m && m[n].kind.Veth? then {m[n].kind.peerIndex} else {}
  }

  /** The indices of what VniWired describes: both legs, the VRF, the bridge, the VXLAN device and the loopback. */
  function WiredIndices(s: KState, p: VNIParams): set<nat> {
    var hostSide := VethLegsForVRF(p.vrf).0;
    IndexOf(s.host, hostSide) + PeerOf(s.host, hostSide) + IndexOf(s.target, p.vrf)
      + IndexOf(s.target, BridgeName(p.vni)) + IndexOf(s.target, VxLanName(p.vni)) + IndexOf(s.target, Underlay.UnderlayLoopback)
  }

  /**
   * The links VniWired names, by kind: the host leg is a veth whose peer index holds no host
   * link and holds the veth pe in the target namespace; the VRF, the bridge, the VXLAN device
   * and the loopback are there.
   */
  predicate WiredShape(s: KState, p: VNIParams, pn: string) {
    var hostSide := VethLegsForVRF(p.vrf).0;
    && hostSide in s.host && s.host[hostSide].kind.Veth? && !HasIndex(s.host, s.host[hostSide].kind.peerIndex)
    && pn in s.target && s.target[pn].index == s.host[hostSide].kind.peerIndex && s.target[pn].kind.Veth?
    && p.vrf in s.target && s.target[p.vrf].kind.Vrf?
    && BridgeName(p.vni) in s.target && s.target[BridgeName(p.vni)].kind.Bridge?
    && VxLanName(p.vni) in s.target && s.target[VxLanName(p.vni)].kind.Vxlan?
    && Underlay.UnderlayLoopback in s.target
  }

  /** The pe leg of a wired VNI: the target veth at the host leg's peer index, under the VRF. */
  lemma WiredPeLeg(s: KState, p: VNIParams) returns (pn: string)
    requires Canonical(p.vethHostIP) && Canonical(p.vethNSIP) && VniWired(s, p)
    ensures WiredShape(s, p, pn)
  {
    pn :| pn in s.target && s.target[pn].index == s.host[VethLegsForVRF(p.vrf).0].kind.peerIndex && s.target[pn].kind.Veth? && s.target[pn].up
      && ParseAddr(p.vethNSIP).value in s.target[pn].addrs && s.target[pn].master == s.target[p.vrf].index;
    assert DeviceConfigured(s, p, s.target[BridgeName(p.vni)].index);
  }

  /** The peer of a host leg whose VRF is not configured is none of the wired indices. */
  lemma PeerOutside(s: KState, p: VNIParams, pn: string, vrfs: set<string>, n: string)
    requires Consistent(s) && LegsPaired(s) && p.vrf in vrfs && WiredShape(s, p, pn)
    requires n in s.host && s.host[n].kind.Veth? && HasPrefix(n, HostVethPrefix) && VrfForHostLeg(n) !in vrfs
    ensures s.host[n].kind.peerIndex !in WiredIndices(s, p)
  {
    var hostSide := VethLegsForVRF(p.vrf).0;
    var pi := s.host[hostSide].kind.peerIndex;
    var q := s.host[n].kind.peerIndex;
    assert PairedAt(s, n, q);
    assert q != s.host[hostSide].index;
    if q == pi {
      HostLegRoundTrip(p.vrf, hostSide);
      assert PairedAt(s, hostSide, pi);
      PeLegInjective(VrfForHostLeg(n), p.vrf);
    }
    assert q != s.target[p.vrf].index;
    assert q != s.target[BridgeName(p.vni)].index;
    assert q != s.target[VxLanName(p.vni)].index;
    LoopbackIsNoPeLeg(VrfForHostLeg(n));
    assert q != s.target[Underlay.UnderlayLoopback].index;
  }

  /** A host link other than the wired host leg has none of the wired indices. */
  lemma HostLinkOutside(s: KState, p: VNIParams, pn: string, n: string)
    requires Consistent(s) && WiredShape(s, p, pn)
    requires n in s.host && n != VethLegsForVRF(p.vrf).0
    ensures s.host[n].index !in WiredIndices(s, p)
  {
  }

  /** The host-leg loop never reaches the links of a wired VNI whose VRF is configured. */
  lemma HostLoopSpares(s: KState, vrfs: set<string>, hostLinks: seq<Link>, p: VNIParams)
    requires Consistent(s) && Enumerates(hostLinks, s.host) && LegsPaired(s) && p.vrf in vrfs
    requires Canonical(p.vethHostIP) && Canonical(p.vethNSIP) && VniWired(s, p)
    ensures Spares(s.host, hostLinks, HostLegVerdicts(vrfs), WiredIndices(s, p))
  {
    var hostSide := VethLegsForVRF(p.vrf).0;
    HostLegRoundTrip(p.vrf, hostSide);
    var pn := WiredPeLeg(s, p);
    forall j, n | 0 <= j < |hostLinks| && HostLegVerdicts(vrfs)(hostLinks[j]).Delete? && n in s.host && s.host[n].index == hostLinks[j].index
      ensures s.host[n].index !in WiredIndices(s, p) && (s.host[n].kind.Veth? ==> s.host[n].kind.peerIndex !in WiredIndices(s, p))
    {
      var l := hostLinks[j];
      assert s.host[l.name] == l;
      assert n == l.name;
      TypeNames(l.kind);
      assert l.kind.Veth? && HasPrefix(n, HostVethPrefix) && VrfForHostLeg(n) !in vrfs;
      HostLinkOutside(s, p, pn, n);
      PeerOutside(s, p, pn, vrfs, n);
    }
  }

  /** A namespace loop that deletes only unconfigured links never reaches indices that hold none. */
  lemma TargetLoopSpares(m0: map<string, Link>, m: map<string, Link>, links: seq<Link>, v: Link -> Verdict, vrfs: set<string>, vnis: set<int>, idx: set<nat>)
    requires Enumerates(links, m0) && UniqueIndices(m0) && Shrunk(m, m0)
    requires forall l :: v(l).Delete? ==> Unconfigured(l, vrfs, vnis)
    requires forall n :: n in m0 && m0[n].index in idx ==> !Unconfigured(m0[n], vrfs, vnis)
    ensures Spares(m, links, v, idx)
  {
    forall j, n | 0 <= j < |links| && v(links[j]).Delete? && n in m && m[n].index == links[j].index
      ensures m[n].index !in idx && (m[n].kind.Veth? ==> m[n].kind.peerIndex !in idx)
    {
      var l := links[j];
      assert m0[l.name] == l;
      assert n == l.name;
    }
  }

  /** What each namespace loop deletes is unconfigured. */
  lemma DeletesUnconfigured(vrfs: set<string>, vnis: set<int>)
    ensures forall l :: ClearVerdicts("vxlan", vnis, VniFromVXLanName)(l).Delete? ==> Unconfigured(l, vrfs, vnis)
    ensures forall l :: ClearVerdicts("bridge", vnis, VniFromBridgeName)(l).Delete? ==> Unconfigured(l, vrfs, vnis)
    ensures forall l :: VrfVerdicts(vrfs)(l).Delete? ==> Unconfigured(l, vrfs, vnis)
  {
    forall l: Link
      ensures ClearVerdicts("vxlan", vnis, VniFromVXLanName)(l).Delete? ==> Unconfigured(l, vrfs, vnis)
      ensures ClearVerdicts("bridge", vnis, VniFromBridgeName)(l).Delete? ==> Unconfigured(l, vrfs, vnis)
      ensures VrfVerdicts(vrfs)(l).Delete? ==> Unconfigured(l, vrfs, vnis)
    {
      VerdictMeaning(l, vrfs, vnis);
    }
  }

  /** A target link at a wired index is the pe leg, the VRF, the bridge, the VXLAN device or the loopback. */
  lemma WiredTargetNames(s: KState, p: VNIParams, pn: string, n: string)
    requires Consistent(s) && WiredShape(s, p, pn)
    requires n in s.target && s.target[n].index in WiredIndices(s, p)
    ensures n in {pn, p.vrf, BridgeName(p.vni), VxLanName(p.vni), Underlay.UnderlayLoopback}
  {
  }

  /** One wired target link, as the host-leg loop left it, is not unconfigured. */
  lemma WiredLinkConfigured(s: KState, s1: KState, vrfs: set<string>, vnis: set<int>, p: VNIParams, pn: string, n: string)
    requires Consistent(s) && Consistent(s1) && Shrunk(s1.target, s.target) && WiredShape(s, p, pn)
    requires p.vrf in vrfs && p.vni in vnis && InInt64(p.vni)
    requires !Unconfigured(s.target[Underlay.UnderlayLoopback], vrfs, vnis)
    requires n in s1.target && s1.target[n].index in WiredIndices(s, p)
    ensures !Unconfigured(s1.target[n], vrfs, vnis)
  {
    var l := s1.target[n];
    assert l.name == n == s.target[n].name && l.kind == s.target[n].kind;
    WiredTargetNames(s, p, pn, n);
    if n == BridgeName(p.vni) {
      BridgeNameRoundTrip(p.vni);
    } else if n == VxLanName(p.vni) {
      VxLanNameRoundTrip(p.vni);
    }
  }

  /**
   * The namespace links of a wired VNI whose VRF and VNI are configured are not unconfigured,
   * in any state the host-leg loop shrank them to.
   */
  lemma WiredConfigured(s: KState, s1: KState, vrfs: set<string>, vnis: set<int>, p: VNIParams)
    requires Consistent(s) && Consistent(s1) && Shrunk(s1.target, s.target)
    requires p.vrf in vrfs && p.vni in vnis && InInt64(p.vni)
    requires Canonical(p.vethHostIP) && Canonical(p.vethNSIP) && VniWired(s, p)
    requires !Unconfigured(s.target[Underlay.UnderlayLoopback], vrfs, vnis)
    ensures forall n :: n in s1.target && s1.target[n].index in WiredIndices(s, p) ==> !Unconfigured(s1.target[n], vrfs, vnis)
  {
    var pn := WiredPeLeg(s, p);
    forall n | n in s1.target && s1.target[n].index in WiredIndices(s, p)
      ensures !Unconfigured(s1.target[n], vrfs, vnis)
    {
      WiredLinkConfigured(s, s1, vrfs, vnis, p, pn, n);
    }
  }

  /** Links kept up to masters outside the wired indices, and the route kept, keep a VNI wired. */
  lemma WiredKept(s: KState, t: KState, p: VNIParams)
    requires Canonical(p.vethHostIP) && Canonical(p.vethNSIP) && VniWired(s, p)
    requires KeptAt(s.host, t.host, WiredIndices(s, p)) && KeptAt(s.target, t.target, WiredIndices(s, p))
    requires RoutesKept(s.targetRoutes, t.targetRoutes, WiredIndices(s, p))
    requires Shrunk(t.host, s.host)
    ensures VniWired(t, p)
  {
    var hostSide := VethLegsForVRF(p.vrf).0;
    var pi := s.host[hostSide].kind.peerIndex;
    var br := BridgeName(p.vni);
    var vx := VxLanName(p.vni);
    var lo := Underlay.UnderlayLoopback;
    var idx := WiredIndices(s, p);
    assert DeviceConfigured(s, p, s.target[br].index);
    var pn :| pn in s.target && s.target[pn].index == pi && s.target[pn].kind.Veth? && s.target[pn].up
      && ParseAddr(p.vethNSIP).value in s.target[pn].addrs && s.target[pn].master == s.target[p.vrf].index;
    assert Like(t.host[hostSide], s.host[hostSide]);
    assert t.host[hostSide].kind == s.host[hostSide].kind && t.host[hostSide].up && t.host[hostSide].addrs == s.host[hostSide].addrs;
    assert HostLegUp(t, p, pi);
    assert Like(t.target[p.vrf], s.target[p.vrf]);
    assert t.target[p.vrf].kind == s.target[p.vrf].kind && t.target[p.vrf].index == s.target[p.vrf].index;
    assert t.target[pn] == s.target[pn];
    assert NsLegJoined(t, p, pi);
    assert Like(t.target[br], s.target[br]);
    assert t.target[br].kind == s.target[br].kind && t.target[br].index == s.target[br].index;
    assert t.target[br].up && t.target[br].addrGenNone;
    assert t.target[vx] == s.target[vx];
    assert Like(t.target[lo], s.target[lo]);
    assert t.target[lo].index == s.target[lo].index;
    assert DeviceReady(t, p, t.target[br].index);
    assert HostIPToRoute(t.target[p.vrf], p.vethHostIP, pi) == HostIPToRoute(s.target[p.vrf], p.vethHostIP, pi);
  }

  /** One namespace loop that deletes only unconfigured links keeps the wired links the host-leg loop left. */
  lemma TargetSweepKeeps(s1: KState, sk: KState, links: seq<Link>, v: Link -> Verdict, vrfs: set<string>, vnis: set<int>, idx: set<nat>)
    requires Consistent(s1) && Consistent(sk) && Enumerates(links, s1.target) && Shrunk(sk.target, s1.target)
    requires forall l :: v(l).Delete? ==> Unconfigured(l, vrfs, vnis)
    requires forall n :: n in s1.target && s1.target[n].index in idx ==> !Unconfigured(s1.target[n], vrfs, vnis)
    requires Sweep(sk, Target, links, v).Success?
    ensures var t := Sweep(sk, Target, links, v).value;
      && KeptAt(sk.host, t.host, idx) && KeptAt(sk.target, t.target, idx) && RoutesKept(sk.targetRoutes, t.targetRoutes, idx)
      && Shrunk(t.host, sk.host) && Shrunk(t.target, s1.target)
  {
    TargetLoopSpares(s1.target, sk.target, links, v, vrfs, vnis, idx);
    SweepSpares(sk, Target, links, v, idx);
    SweepShrinks(sk, Target, links, v);
    ShrunkTrans(s1.target, sk.target, Sweep(sk, Target, links, v).value.target);
  }

  /** The host-leg loop keeps a wired VNI's links when its VRF is configured. */
  lemma HostSweepKeeps(s: KState, vrfs: set<string>, hostLinks: seq<Link>, p: VNIParams)
    requires Consistent(s) && Enumerates(hostLinks, s.host) && LegsPaired(s) && p.vrf in vrfs
    requires Canonical(p.vethHostIP) && Canonical(p.vethNSIP) && VniWired(s, p)
    requires Sweep(s, Host, hostLinks, HostLegVerdicts(vrfs)).Success?
    ensures var s1 := Sweep(s, Host, hostLinks, HostLegVerdicts(vrfs)).value;
      && KeptAt(s.host, s1.host, WiredIndices(s, p)) && KeptAt(s.target, s1.target, WiredIndices(s, p))
      && RoutesKept(s.targetRoutes, s1.targetRoutes, WiredIndices(s, p))
      && Shrunk(s1.host, s.host) && Shrunk(s1.target, s.target)
  {
    HostLoopSpares(s, vrfs, hostLinks, p);
    SweepSpares(s, Host, hostLinks, HostLegVerdicts(vrfs), WiredIndices(s, p));
    SweepShrinks(s, Host, hostLinks, HostLegVerdicts(vrfs));
  }

  /**
   * A VNI that SetupVNI wired, and that is still configured, is still wired after
   * RemoveNonConfiguredVNIs: the host leg with its address, the pe leg with its address under
   * the VRF, the bridge, the VXLAN device over the loopback, and the route to the host leg.
   */
  lemma RemovalKeepsWired(s: KState, params: seq<VNIParams>, hostLinks: seq<Link>, links: seq<Link>, p: VNIParams)
    requires Consistent(s) && Enumerates(hostLinks, s.host)
    requires Sweep(s, Host, hostLinks, HostLegVerdicts(DesiredVrfs(params))).Success?
    requires Enumerates(links, Sweep(s, Host, hostLinks, HostLegVerdicts(DesiredVrfs(params))).value.target)
    requires VnisRemoved(s, DesiredVrfs(params), DesiredVnis(params), hostLinks, links).Success?
    requires p in params && InInt64(p.vni) && Canonical(p.vethHostIP) && Canonical(p.vethNSIP)
    requires VniWired(s, p) && LegsPaired(s)
    requires Underlay.UnderlayLoopback in s.target
    requires !Unconfigured(s.target[Underlay.UnderlayLoopback], DesiredVrfs(params), DesiredVnis(params))
    ensures VniWired(VnisRemoved(s, DesiredVrfs(params), DesiredVnis(params), hostLinks, links).value, p)
  {
    var vrfs := DesiredVrfs(params);
    var vnis := DesiredVnis(params);
    var idx := WiredIndices(s, p);
    var s1 := Sweep(s, Host, hostLinks, HostLegVerdicts(vrfs)).value;
    HostSweepKeeps(s, vrfs, hostLinks, p);
    WiredConfigured(s, s1, vrfs, vnis, p);
    DeletesUnconfigured(vrfs, vnis);
    var vx := ClearVerdicts("vxlan", vnis, VniFromVXLanName);
    var br := ClearVerdicts("bridge", vnis, VniFromBridgeName);
    var vr := VrfVerdicts(vrfs);
    var s2 := Sweep(s1, Target, links, vx).value;
    TargetSweepKeeps(s1, s1, links, vx, vrfs, vnis, idx);
    var s3 := Sweep(s2, Target, links, br).value;
    TargetSweepKeeps(s1, s2, links, br, vrfs, vnis, idx);
    var t := Sweep(s3, Target, links, vr).value;
    TargetSweepKeeps(s1, s3, links, vr, vrfs, vnis, idx);
    assert t == VnisRemoved(s, vrfs, vnis, hostLinks, links).value;
    KeptAtTrans(s.host, s1.host, s2.host, idx);
    KeptAtTrans(s.host, s2.host, s3.host, idx);
    KeptAtTrans(s.host, s3.host, t.host, idx);
    KeptAtTrans(s.target, s1.target, s2.target, idx);
    KeptAtTrans(s.target, s2.target, s3.target, idx);
    KeptAtTrans(s.target, s3.target, t.target, idx);
    ShrunkTrans(s.host, s1.host, s2.host);
    ShrunkTrans(s.host, s2.host, s3.host);
    ShrunkTrans(s.host, s3.host, t.host);
    WiredKept(s, t, p);
  }

  /** The host-leg loop deletes a host leg whose VRF is not configured, and what sits at its peer index. */
  lemma HostLegDropped(s: KState, vrfs: set<string>, hostLinks: seq<Link>, n: string)
    requires Consistent(s) && Enumerates(hostLinks, s.host)
    requires Sweep(s, Host, hostLinks, HostLegVerdicts(vrfs)).Success?
    requires n in s.host && s.host[n].kind.Veth? && HasPrefix(n, HostVethPrefix) && VrfForHostLeg(n) !in vrfs
    ensures var s1 := Sweep(s, Host, hostLinks, HostLegVerdicts(vrfs)).value;
      && !HasIndex(s1.host, s.host[n].index)
      && !HasIndex(s1.host, s.host[n].kind.peerIndex) && !HasIndex(s1.target, s.host[n].kind.peerIndex)
  {
    var j :| 0 <= j < |hostLinks| && hostLinks[j].name == n;
    assert hostLinks[j] == s.host[n];
    TypeNames(s.host[n].kind);
    assert HostLegVerdicts(vrfs)(hostLinks[j]).Delete?;
    SweepDeletes(s, Host, hostLinks, HostLegVerdicts(vrfs));
    SweepDropsPeers(s, Host, hostLinks, HostLegVerdicts(vrfs));
    assert Links(s, Host)[n].index == hostLinks[j].index;
  }

  /**
   * RemoveNonConfiguredVNIs takes down every host leg whose VRF is no longer configured, and
   * its pe leg with it: nothing is left, in either namespace, at the index the host leg
   * pointed to.
   */
  lemma RemovalDropsPeLegs(s: KState, params: seq<VNIParams>, hostLinks: seq<Link>, links: seq<Link>)
    requires Consistent(s) && Enumerates(hostLinks, s.host)
    requires Sweep(s, Host, hostLinks, HostLegVerdicts(DesiredVrfs(params))).Success?
    requires Enumerates(links, Sweep(s, Host, hostLinks, HostLegVerdicts(DesiredVrfs(params))).value.target)
    requires VnisRemoved(s, DesiredVrfs(params), DesiredVnis(params), hostLinks, links).Success?
    ensures var t := VnisRemoved(s, DesiredVrfs(params), DesiredVnis(params), hostLinks, links).value;
      forall n :: n in s.host && s.host[n].kind.Veth? && HasPrefix(n, HostVethPrefix) && VrfForHostLeg(n) !in DesiredVrfs(params) ==>
        && n !in t.host
        && !HasIndex(t.host, s.host[n].kind.peerIndex) && !HasIndex(t.target, s.host[n].kind.peerIndex)
        && (forall m :: m in s.target && s.target[m].index == s.host[n].kind.peerIndex ==> m !in t.target)
  {
    var vrfs := DesiredVrfs(params);
    var vnis := DesiredVnis(params);
    var s1 := Sweep(s, Host, hostLinks, HostLegVerdicts(vrfs)).value;
    var s2 := Sweep(s1, Target, links, ClearVerdicts("vxlan", vnis, VniFromVXLanName)).value;
    var s3 := Sweep(s2, Target, links, ClearVerdicts("bridge", vnis, VniFromBridgeName)).value;
    var t := Sweep(s3, Target, links, VrfVerdicts(vrfs)).value;
    assert t == VnisRemoved(s, vrfs, vnis, hostLinks, links).value;
    SweepShrinks(s, Host, hostLinks, HostLegVerdicts(vrfs));
    SweepShrinks(s1, Target, links, ClearVerdicts("vxlan", vnis, VniFromVXLanName));
    SweepShrinks(s2, Target, links, ClearVerdicts("bridge", vnis, VniFromBridgeName));
    SweepShrinks(s3, Target, links, VrfVerdicts(vrfs));
    ShrunkTrans(s1.host, s2.host, s3.host);
    ShrunkTrans(s1.host, s3.host, t.host);
    ShrunkTrans(s.host, s1.host, t.host);
    ShrunkTrans(s1.target, s2.target, s3.target);
    ShrunkTrans(s1.target, s3.target, t.target);
    ShrunkTrans(s.target, s1.target, t.target);
    forall n | n in s.host && s.host[n].kind.Veth? && HasPrefix(n, HostVethPrefix) && VrfForHostLeg(n) !in vrfs
      ensures && n !in t.host
        && !HasIndex(t.host, s.host[n].kind.peerIndex) && !HasIndex(t.target, s.host[n].kind.peerIndex)
        && (forall m :: m in s.target && s.target[m].index == s.host[n].kind.peerIndex ==> m !in t.target)
    {
      HostLegDropped(s, vrfs, hostLinks, n);
    }
  }
}
