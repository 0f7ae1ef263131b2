// The slice of the Linux networking stack the dataplane code drives through netlink: two
// network namespaces (the host's and the router's target namespace), each a table of links
// keyed by name plus a route set. netlink calls become methods of the Kernel class. A call
// may also be refused for reasons outside this model (permissions, resources); such a
// refusal leaves the state unchanged and is counted in a ghost counter, so contracts can
// say what happens when the kernel refuses nothing.
module Kernel {
  import opened Wrappers
  import opened IPv4

  /** The host namespace the agent runs in, and the router's target namespace. */
  datatype Ns = Host | Target

  /** The parameters of a VXLAN device that the dataplane code inspects. */
  datatype VxlanInfo = VxlanInfo(id: int, port: int, learning: bool, srcAddr: Option<IP>, vtepDevIndex: nat)

  datatype LinkKind =
    | Veth(peerIndex: nat)
    | Vrf(table: nat)
    | Bridge
    | Vxlan(info: VxlanInfo)
    | Dummy
    | Device

  /** netlink's Link.Type(): the kind of a link as a string. */
  function TypeName(kind: LinkKind): string {
    match kind
    case Veth(_) => "veth"
    case Vrf(_) => "vrf"
    case Bridge => "bridge"
    case Vxlan(_) => "vxlan"
    case Dummy => "dummy"
    case Device => "device"
  }

  /** The type names the garbage collector looks for identify exactly one kind each. */
  lemma TypeNames(kind: LinkKind)
    ensures TypeName(kind) == "veth" <==> kind.Veth?
    ensures TypeName(kind) == "vrf" <==> kind.Vrf?
    ensures TypeName(kind) == "bridge" <==> kind.Bridge?
    ensures TypeName(kind) == "vxlan" <==> kind.Vxlan?
  {
    var t := TypeName(kind);
    if !kind.Vxlan? && |t| == 5 {
      assert t[0] != 'v';
    }
    if !kind.Bridge? && |t| == 6 {
      assert t[0] != 'b';
    }
  }

  /**
   * A link: its index (unique across both namespaces, never 0), its master's index (0 when
   * it has none), its addresses and the flags set on it.
   */
  datatype Link = Link(
    name: string,
    index: nat,
    kind: LinkKind,
    master: nat,
    addrs: set<IPNet>,
    up: bool,
    addrGenNone: bool,
    neighSuppress: bool)

  datatype Route = Route(dst: IPNet, table: nat, linkIndex: nat)

  datatype KState = KState(
    host: map<string, Link>,
    target: map<string, Link>,
    hostRoutes: set<Route>,
    targetRoutes: set<Route>,
    nextIndex: nat)

  function Links(s: KState, ns: Ns): map<string, Link> {
    if ns == Host then s.host else s.target
  }

  function Routes(s: KState, ns: Ns): set<Route> {
    if ns == Host then s.hostRoutes else s.targetRoutes
  }

  function WithLinks(s: KState, ns: Ns, m: map<string, Link>): KState {
    if ns == Host then s.(host := m) else s.(target := m)
  }

  function WithRoutes(s: KState, ns: Ns, rs: set<Route>): KState {
    if ns == Host then s.(hostRoutes := rs) else s.(targetRoutes := rs)
  }

  predicate HasIndex(m: map<string, Link>, i: nat) {
    exists n :: n in m && m[n].index == i
  }

  /** Keys are the links' names and every index was handed out already. */
  predicate WellFormed(m: map<string, Link>, next: nat) {
    forall n :: n in m ==> m[n].name == n && 1 <= m[n].index < next
  }

  predicate UniqueIndices(m: map<string, Link>) {
    forall a, b :: a in m && b in m && m[a].index == m[b].index ==> a == b
  }

  predicate DisjointIndices(m: map<string, Link>, m': map<string, Link>) {
    forall a, b :: a in m && b in m' ==> m[a].index != m'[b].index
  }

  predicate Consistent(s: KState) {
    && s.nextIndex >= 1
    && WellFormed(s.host, s.nextIndex) && WellFormed(s.target, s.nextIndex)
    && UniqueIndices(s.host) && UniqueIndices(s.target)
    && DisjointIndices(s.host, s.target)
  }

  /** The addresses of the link with index i; none when there is no such link. */
  ghost function AddrsAt(m: map<string, Link>, i: nat): set<IPNet> {
    if HasIndex(m, i) then var n :| n in m && m[n].index == i; m[n].addrs else {}
  }

  lemma AddrsAtName(m: map<string, Link>, n: string)
    requires UniqueIndices(m) && n in m
    ensures AddrsAt(m, m[n].index) == m[n].addrs
  {
  }

  /** With unique indices, the link a name denotes is the one carrying its index. */
  lemma IndexDeterminesName(s: KState, ns: Ns, a: string, b: string)
    requires Consistent(s) && a in Links(s, ns) && b in Links(s, ns)
    requires Links(s, ns)[a].index == Links(s, ns)[b].index
    ensures a == b
  {
  }

  // ----- attribute changes (LinkSetUp, LinkSetMaster, AddrAdd, AddrDel, flags) -----

  datatype Change =
    | SetUp
    | SetMaster(master: nat)
    | AddAddr(addr: IPNet)
    | DelAddr(addr: IPNet)
    | SetAddrGenModeNone
    | SetNeighSuppression

  function Apply(l: Link, c: Change): (r: Link)
    ensures r.name == l.name && r.index == l.index && r.kind == l.kind
  {
    match c
    case SetUp => l.(up := true)
    case SetMaster(m) => l.(master := m)
    case AddAddr(a) => l.(addrs := l.addrs + {a})
    case DelAddr(a) => l.(addrs := l.addrs - {a})
    case SetAddrGenModeNone => l.(addrGenNone := true)
    case SetNeighSuppression => l.(neighSuppress := true)
  }

  /** The kernel accepts the change only for an existing link (and master, address). */
  predicate Allows(m: map<string, Link>, i: nat, c: Change) {
    && HasIndex(m, i)
    && match c
       case SetMaster(master) => HasIndex(m, master)
       case AddAddr(a) => forall n :: n in m && m[n].index == i ==> a !in m[n].addrs
       case DelAddr(a) => exists n :: n in m && m[n].index == i && a in m[n].addrs
       case _ => true
  }

  function Changed(m: map<string, Link>, i: nat, c: Change): (r: map<string, Link>)
    ensures r.Keys == m.Keys
  {
    map n | n in m :: if m[n].index == i then Apply(m[n], c) else m[n]
  }

  function Modified(s: KState, ns: Ns, i: nat, c: Change): KState {
    WithLinks(s, ns, Changed(Links(s, ns), i, c))
  }

  lemma DisjointSymmetric(m: map<string, Link>, m': map<string, Link>)
    requires DisjointIndices(m, m')
    ensures DisjointIndices(m', m)
  {
  }

  /** A change keeps every name and index, so the table stays consistent. */
  lemma ChangedTable(m: map<string, Link>, i: nat, c: Change, next: nat)
    requires WellFormed(m, next) && UniqueIndices(m)
    ensures WellFormed(Changed(m, i, c), next) && UniqueIndices(Changed(m, i, c))
    ensures forall n :: n in m ==> Changed(m, i, c)[n].index == m[n].index
  {
  }

  lemma ModifiedConsistent(s: KState, ns: Ns, i: nat, c: Change)
    requires Consistent(s)
    ensures Consistent(Modified(s, ns, i, c))
  {
    ChangedTable(Links(s, ns), i, c, s.nextIndex);
  }

  /** A change to the link named n alters that link alone. */
  lemma ModifiedAt(s: KState, ns: Ns, n: string, c: Change)
    requires Consistent(s) && n in Links(s, ns)
    ensures var t := Modified(s, ns, Links(s, ns)[n].index, c);
      && Consistent(t)
      && Links(t, ns).Keys == Links(s, ns).Keys
      && Links(t, ns)[n] == Apply(Links(s, ns)[n], c)
      && (forall n' :: n' in Links(s, ns) && n' != n ==> Links(t, ns)[n'] == Links(s, ns)[n'])
      && (ns == Host ==> t.target == s.target) && (ns == Target ==> t.host == s.host)
      && t.hostRoutes == s.hostRoutes && t.targetRoutes == s.targetRoutes && t.nextIndex == s.nextIndex
  {
    ModifiedConsistent(s, ns, Links(s, ns)[n].index, c);
  }

  /** A change that leaves the link as it is leaves the whole state as it is. */
  lemma ModifiedNoOp(s: KState, ns: Ns, n: string, c: Change)
    requires Consistent(s) && n in Links(s, ns) && Apply(Links(s, ns)[n], c) == Links(s, ns)[n]
    ensures Modified(s, ns, Links(s, ns)[n].index, c) == s
  {
    var m := Links(s, ns);
    assert Changed(m, m[n].index, c) == m;
  }

  // ----- LinkAdd -----

  function Fresh(name: string, index: nat, kind: LinkKind, master: nat): Link {
    Link(name, index, kind, master, {}, false, false, false)
  }

  /** A new link needs a free name and, when it names a master, an existing one. */
  predicate CanAdd(s: KState, ns: Ns, name: string, master: nat) {
    name !in Links(s, ns) && (master == 0 || HasIndex(Links(s, ns), master))
  }

  function Added(s: KState, ns: Ns, name: string, kind: LinkKind, master: nat): KState {
    WithLinks(s, ns, Links(s, ns)[name := Fresh(name, s.nextIndex, kind, master)]).(nextIndex := s.nextIndex + 1)
  }

  lemma WellFormedMonotone(m: map<string, Link>, next: nat, next': nat)
    requires WellFormed(m, next) && next <= next'
    ensures WellFormed(m, next')
  {
  }

  /** Adding a link with the next index to one table keeps the tables consistent. */
  lemma InsertFresh(m: map<string, Link>, other: map<string, Link>, l: Link, next: nat)
    requires WellFormed(m, next) && WellFormed(other, next) && UniqueIndices(m) && DisjointIndices(m, other)
    requires l.name !in m && l.index == next && next >= 1
    ensures WellFormed(m[l.name := l], next + 1) && WellFormed(other, next + 1)
    ensures UniqueIndices(m[l.name := l])
    ensures DisjointIndices(m[l.name := l], other) && DisjointIndices(other, m[l.name := l])
  {
    var m' := m[l.name := l];
    assert forall n :: n in m' ==> (n == l.name && m'[n] == l) || (n in m && m'[n] == m[n]);
  }

  lemma AddedConsistent(s: KState, ns: Ns, name: string, kind: LinkKind, master: nat)
    requires Consistent(s) && name !in Links(s, ns)
    ensures Consistent(Added(s, ns, name, kind, master))
  {
    var l := Fresh(name, s.nextIndex, kind, master);
    if ns == Host {
      InsertFresh(s.host, s.target, l, s.nextIndex);
    } else {
      DisjointSymmetric(s.host, s.target);
      InsertFresh(s.target, s.host, l, s.nextIndex);
    }
  }

  /** A new link gets the next index; nothing else changes. */
  lemma AddedAt(s: KState, ns: Ns, name: string, kind: LinkKind, master: nat)
    requires Consistent(s) && CanAdd(s, ns, name, master)
    ensures var t := Added(s, ns, name, kind, master);
      && Consistent(t)
      && Links(t, ns).Keys == Links(s, ns).Keys + {name}
      && Links(t, ns)[name] == Fresh(name, s.nextIndex, kind, master)
      && (forall n :: n in Links(s, ns) ==> Links(t, ns)[n] == Links(s, ns)[n] && Links(s, ns)[n].index < s.nextIndex)
      && (ns == Host ==> t.target == s.target) && (ns == Target ==> t.host == s.host)
      && t.hostRoutes == s.hostRoutes && t.targetRoutes == s.targetRoutes && t.nextIndex == s.nextIndex + 1
  {
    AddedConsistent(s, ns, name, kind, master);
  }

  /** A veth pair is created with both legs in one namespace, each naming the other as peer. */
  predicate CanAddVeth(s: KState, ns: Ns, name: string, peer: string) {
    name != peer && name !in Links(s, ns) && peer !in Links(s, ns)
  }

  function AddedVeth(s: KState, ns: Ns, name: string, peer: string): KState {
    var i := s.nextIndex;
    var m := Links(s, ns)[name := Fresh(name, i, Veth(i + 1), 0)][peer := Fresh(peer, i + 1, Veth(i), 0)];
    WithLinks(s, ns, m).(nextIndex := i + 2)
  }

  /** Adding a veth pair to table m keeps it consistent with the other table. */
  lemma InsertPair(m: map<string, Link>, other: map<string, Link>, a: Link, b: Link, next: nat)
    requires WellFormed(m, next) && WellFormed(other, next) && UniqueIndices(m) && DisjointIndices(m, other)
    requires a.name !in m && b.name !in m && a.name != b.name
    requires a.index == next && b.index == next + 1 && next >= 1
    ensures var m' := m[a.name := a][b.name := b];
      && WellFormed(m', next + 2) && WellFormed(other, next + 2) && UniqueIndices(m')
      && DisjointIndices(m', other) && DisjointIndices(other, m')
  {
    InsertFresh(m, other, a, next);
    InsertFresh(m[a.name := a], other, b, next + 1);
  }

  lemma AddedVethConsistent(s: KState, ns: Ns, name: string, peer: string)
    requires Consistent(s) && CanAddVeth(s, ns, name, peer)
    ensures Consistent(AddedVeth(s, ns, name, peer))
  {
    var i := s.nextIndex;
    var a := Fresh(name, i, Veth(i + 1), 0);
    var b := Fresh(peer, i + 1, Veth(i), 0);
    var t := AddedVeth(s, ns, name, peer);
    if ns == Host {
      assert t.host == s.host[name := a][peer := b] && t.target == s.target && t.nextIndex == i + 2;
      InsertPair(s.host, s.target, a, b, i);
    } else {
      assert t.target == s.target[name := a][peer := b] && t.host == s.host && t.nextIndex == i + 2;
      DisjointSymmetric(s.host, s.target);
      InsertPair(s.target, s.host, a, b, i);
    }
  }

  // ----- LinkDel -----

  /** The indices of the veth peers of the link with index i. */
  function PeersOf(m: map<string, Link>, i: nat): set<nat> {
    set n | n in m && m[n].index == i && m[n].kind.Veth? :: m[n].kind.peerIndex
  }

  function Released(l: Link, gone: set<nat>): Link {
    if l.master in gone then l.(master := 0) else l
  }

  /** Links whose index is gone disappear; links they were master of lose their master. */
  function Dropped(m: map<string, Link>, gone: set<nat>): (r: map<string, Link>)
    ensures forall n :: n in r <==> n in m && m[n].index !in gone
  {
    map n | n in m && m[n].index !in gone :: Released(m[n], gone)
  }

  function RoutesDropped(rs: set<Route>, gone: set<nat>): set<Route> {
    set r | r in rs && r.linkIndex !in gone
  }

  /** Deleting a link deletes its veth peer too, wherever it is, and the routes through both. */
  function Deleted(s: KState, ns: Ns, i: nat): KState {
    var gone := {i} + PeersOf(Links(s, ns), i);
    KState(Dropped(s.host, gone), Dropped(s.target, gone),
           RoutesDropped(s.hostRoutes, gone), RoutesDropped(s.targetRoutes, gone), s.nextIndex)
  }

  lemma DroppedFacts(m: map<string, Link>, gone: set<nat>, next: nat)
    requires WellFormed(m, next) && UniqueIndices(m)
    ensures WellFormed(Dropped(m, gone), next) && UniqueIndices(Dropped(m, gone))
    ensures forall n :: n in Dropped(m, gone) ==> Dropped(m, gone)[n].index == m[n].index
  {
  }

  lemma DeletedConsistent(s: KState, ns: Ns, i: nat)
    requires Consistent(s)
    ensures Consistent(Deleted(s, ns, i))
  {
    var gone := {i} + PeersOf(Links(s, ns), i);
    DroppedFacts(s.host, gone, s.nextIndex);
    DroppedFacts(s.target, gone, s.nextIndex);
  }

  // ----- LinkSetNsFd -----

  /** A link leaves its namespace down, without addresses and without master. */
  function Detached(l: Link): Link {
    l.(addrs := {}, up := false, master := 0)
  }

  predicate CanMove(s: KState, from: Ns, i: nat, to: Ns) {
    && HasIndex(Links(s, from), i)
    && forall n :: n in Links(s, from) && Links(s, from)[n].index == i ==> n !in Links(s, to)
  }

  function Moving(m: map<string, Link>, i: nat): map<string, Link> {
    map n | n in m && m[n].index == i :: Detached(m[n])
  }

  /** Moving a link into its own namespace changes nothing. */
  function Moved(s: KState, from: Ns, i: nat, to: Ns): KState {
    if from == to then s
    else
      var m := Links(s, from);
      var s1 := WithLinks(WithLinks(s, from, Dropped(m, {i})), to, Links(s, to) + Moving(m, i));
      WithRoutes(s1, from, RoutesDropped(Routes(s, from), {i}))
  }

  /** The links on the move keep their names and carry index i. */
  lemma MovingShape(src: map<string, Link>, i: nat)
    ensures forall n :: n in Moving(src, i) ==> n in src && src[n].index == i && Moving(src, i)[n].index == i && Moving(src, i)[n].name == src[n].name
  {
  }

  /** The table that receives the moved links stays consistent. */
  lemma ReceivingTable(src: map<string, Link>, dst: map<string, Link>, i: nat, next: nat)
    requires WellFormed(src, next) && WellFormed(dst, next)
    requires UniqueIndices(src) && UniqueIndices(dst) && DisjointIndices(src, dst)
    requires forall n :: n in src && src[n].index == i ==> n !in dst
    ensures WellFormed(dst + Moving(src, i), next) && UniqueIndices(dst + Moving(src, i))
  {
    var mv := Moving(src, i);
    var e := dst + mv;
    MovingShape(src, i);
    assert forall n :: n in e ==> (n in mv && e[n] == mv[n]) || (n !in mv && n in dst && e[n] == dst[n]);
    forall a, b | a in e && b in e && e[a].index == e[b].index
      ensures a == b
    {
      if a in mv && b in mv {
        assert src[a].index == src[b].index;
      }
    }
  }

  /** Moving the link with index i out of `src` into `dst` keeps both tables consistent. */
  lemma MoveTables(src: map<string, Link>, dst: map<string, Link>, i: nat, next: nat)
    requires WellFormed(src, next) && WellFormed(dst, next)
    requires UniqueIndices(src) && UniqueIndices(dst) && DisjointIndices(src, dst)
    requires forall n :: n in src && src[n].index == i ==> n !in dst
    ensures var d := Dropped(src, {i}); var e := dst + Moving(src, i);
      && WellFormed(d, next) && WellFormed(e, next)
      && UniqueIndices(d) && UniqueIndices(e)
      && DisjointIndices(d, e) && DisjointIndices(e, d)
  {
    DroppedFacts(src, {i}, next);
    ReceivingTable(src, dst, i, next);
    MovingShape(src, i);
    var d := Dropped(src, {i});
    var e := dst + Moving(src, i);
    assert DisjointIndices(d, e);
  }

  lemma MovedConsistent(s: KState, from: Ns, i: nat, to: Ns)
    requires Consistent(s) && CanMove(s, from, i, to)
    ensures Consistent(Moved(s, from, i, to))
  {
    if from == Host && to == Target {
      MoveTables(s.host, s.target, i, s.nextIndex);
    } else if from == Target && to == Host {
      MoveTables(s.target, s.host, i, s.nextIndex);
    }
  }

  // ----- RouteAdd -----

  /** The kernel refuses a route when one for the same destination and table exists. */
  predicate CanAddRoute(s: KState, ns: Ns, r: Route) {
    && HasIndex(Links(s, ns), r.linkIndex)
    && forall q :: q in Routes(s, ns) ==> !(q.dst == r.dst && q.table == r.table)
  }

  function RouteAdded(s: KState, ns: Ns, r: Route): KState {
    WithRoutes(s, ns, Routes(s, ns) + {r})
  }

  /** A listing of the links of one namespace: each exactly once, in some order. */
  predicate Enumerates(links: seq<Link>, m: map<string, Link>) {
    && (forall j :: 0 <= j < |links| ==> links[j].name in m && m[links[j].name] == links[j])
    && (forall n :: n in m ==> exists j :: 0 <= j < |links| && links[j].name == n)
    && (forall j, j' :: 0 <= j < j' < |links| ==> links[j].name != links[j'].name)
  }

  /** A listing of a set of addresses: each exactly once, in some order. */
  predicate ListsAddrs(addrs: seq<IPNet>, addrSet: set<IPNet>) {
    && (forall a :: a in addrs ==> a in addrSet) && (forall a :: a in addrSet ==> a in addrs)
    && (forall j, j' :: 0 <= j < j' < |addrs| ==> addrs[j] != addrs[j'])
  }

  /** The kernel, updated in place by the netlink calls. */
  class Kernel {
    var host: map<string, Link>
    var target: map<string, Link>
    var hostRoutes: set<Route>
    var targetRoutes: set<Route>
    var nextIndex: nat
    /** The name under which the target namespace is registered. */
    const targetName: string
    /** How many calls the kernel refused for reasons outside this model. */
    ghost var faults: nat

    function State(): KState
      reads this
    {
      KState(host, target, hostRoutes, targetRoutes, nextIndex)
    }

    predicate Valid()
      reads this
    {
      Consistent(State())
    }

    constructor (targetName: string, s: KState)
      requires Consistent(s)
      ensures this.targetName == targetName && State() == s && faults == 0 && Valid()
    {
      this.targetName := targetName;
      host := s.host;
      target := s.target;
      hostRoutes := s.hostRoutes;
      targetRoutes := s.targetRoutes;
      nextIndex := s.nextIndex;
      faults := 0;
    }

    /** netns.GetFromName: only the target namespace is known by name. */
    predicate NamespaceExists(name: string) {
      name == targetName
    }

    method Commit(t: KState)
      modifies this
      ensures State() == t && faults == old(faults)
    {
      host := t.host;
      target := t.target;
      hostRoutes := t.hostRoutes;
      targetRoutes := t.targetRoutes;
      nextIndex := t.nextIndex;
    }

    /** Whether the kernel refuses the current call for a reason outside this model. */
    method Refuses() returns (refused: bool)
      modifies this`faults
      ensures faults == if refused then old(faults) + 1 else old(faults)
    {
      refused :| true;
      if refused {
        faults := faults + 1;
      }
    }

    /** LinkByName: the link of that name in the namespace, if any. */
    function LinkByName(ns: Ns, name: string): Option<Link>
      reads this
    {
      if name in Links(State(), ns) then Some(Links(State(), ns)[name]) else None
    }

    /** LinkByIndex: the link of that index in the namespace, if any. */
    method LinkByIndex(ns: Ns, i: nat) returns (r: Option<Link>)
      requires Valid()
      ensures r.Some? <==> HasIndex(Links(State(), ns), i)
      ensures r.Some? ==> r.value.name in Links(State(), ns) && Links(State(), ns)[r.value.name] == r.value
      ensures r.Some? ==> r.value.index == i
    {
      var m := Links(State(), ns);
      if n :| n in m && m[n].index == i {
        return Some(m[n]);
      }
      return None;
    }

    /** LinkList: the links of the namespace, in the kernel's order. */
    method LinkList(ns: Ns) returns (links: seq<Link>)
      requires Valid()
      ensures Enumerates(links, Links(State(), ns))
    {
      var m := Links(State(), ns);
      assert forall n :: n in m ==> m[n].name == n;
      var rest := m.Keys;
      links := [];
      while rest != {}
        invariant rest <= m.Keys
        invariant forall j :: 0 <= j < |links| ==> links[j].name in m && m[links[j].name] == links[j]
        invariant forall j :: 0 <= j < |links| ==> links[j].name !in rest
        invariant forall n :: n in m ==> n in rest || exists j :: 0 <= j < |links| && links[j].name == n
        invariant forall j, j' :: 0 <= j < j' < |links| ==> links[j].name != links[j'].name
        decreases |rest|
      {
        var n :| n in rest;
        ghost var before := links;
        links := links + [m[n]];
        assert links[|before|].name == n;
        assert forall j :: 0 <= j < |before| ==> links[j] == before[j];
        rest := rest - {n};
      }
    }

    /** AddrList: the addresses of the link with index i (none when there is no such link), in some order. */
    method AddrList(ns: Ns, i: nat) returns (addrs: seq<IPNet>)
      requires Valid()
      ensures forall n :: n in Links(State(), ns) && Links(State(), ns)[n].index == i ==> ListsAddrs(addrs, Links(State(), ns)[n].addrs)
      ensures !HasIndex(Links(State(), ns), i) ==> addrs == []
    {
      var l := LinkByIndex(ns, i);
      if l.None? {
        return [];
      }
      var rest := l.value.addrs;
      addrs := [];
      while rest != {}
        invariant forall a :: a in addrs || a in rest <==> a in l.value.addrs
        invariant forall a :: a in addrs ==> a !in rest
        invariant forall j, j' :: 0 <= j < j' < |addrs| ==> addrs[j] != addrs[j']
        decreases |rest|
      {
        var a :| a in rest;
        addrs := addrs + [a];
        rest := rest - {a};
      }
    }

    /** RouteListFiltered by destination and table: the matching routes, in some order. */
    method RouteListFiltered(ns: Ns, dst: IPNet, table: nat) returns (routes: seq<Route>)
      ensures forall r :: r in routes <==> r in Routes(State(), ns) && r.dst == dst && r.table == table
    {
      var rest := set r | r in Routes(State(), ns) && r.dst == dst && r.table == table;
      routes := [];
      while rest != {}
        invariant forall r :: r in routes || r in rest <==> r in Routes(State(), ns) && r.dst == dst && r.table == table
        decreases |rest|
      {
        var r :| r in rest;
        routes := routes + [r];
        rest := rest - {r};
      }
    }

    /** LinkAdd of a single (non-veth) link. */
    method LinkAdd(ns: Ns, name: string, kind: LinkKind, master: nat) returns (ok: bool)
      requires Valid() && !kind.Veth?
      modifies this
      ensures Valid() && faults >= old(faults)
      ensures ok <==> CanAdd(old(State()), ns, name, master) && faults == old(faults)
      ensures State() == if ok then Added(old(State()), ns, name, kind, master) else old(State())
    {
      var refused := Refuses();
      if refused || !CanAdd(State(), ns, name, master) {
        return false;
      }
      AddedConsistent(State(), ns, name, kind, master);
      Commit(Added(State(), ns, name, kind, master));
      return true;
    }

    /** LinkAdd of a veth pair: the link `name` with the peer `peer`. */
    method VethAdd(ns: Ns, name: string, peer: string) returns (ok: bool)
      requires Valid()
      modifies this
      ensures Valid() && faults >= old(faults)
      ensures ok <==> CanAddVeth(old(State()), ns, name, peer) && faults == old(faults)
      ensures State() == if ok then AddedVeth(old(State()), ns, name, peer) else old(State())
    {
      var refused := Refuses();
      if refused || !CanAddVeth(State(), ns, name, peer) {
        return false;
      }
      AddedVethConsistent(State(), ns, name, peer);
      Commit(AddedVeth(State(), ns, name, peer));
      return true;
    }

    /** LinkDel of the link with index i. */
    method LinkDel(ns: Ns, i: nat) returns (ok: bool)
      requires Valid()
      modifies this
      ensures Valid() && faults >= old(faults)
      ensures ok <==> HasIndex(old(Links(State(), ns)), i) && faults == old(faults)
      ensures State() == if ok then Deleted(old(State()), ns, i) else old(State())
    {
      var refused := Refuses();
      if refused || !HasIndex(Links(State(), ns), i) {
        return false;
      }
      DeletedConsistent(State(), ns, i);
      Commit(Deleted(State(), ns, i));
      return true;
    }

    /** LinkSetNsFd: move the link with index i from one namespace to the other. */
    method LinkSetNs(from: Ns, i: nat, to: Ns) returns (ok: bool)
      requires Valid()
      modifies this
      ensures Valid() && faults >= old(faults)
      ensures ok <==> CanMove(old(State()), from, i, to) && faults == old(faults)
      ensures State() == if ok then Moved(old(State()), from, i, to) else old(State())
    {
      var refused := Refuses();
      if refused || !CanMove(State(), from, i, to) {
        return false;
      }
      MovedConsistent(State(), from, i, to);
      Commit(Moved(State(), from, i, to));
      return true;
    }

    /** LinkSetUp, LinkSetMaster, AddrAdd, AddrDel and the two per-device flags. */
    method Modify(ns: Ns, i: nat, c: Change) returns (ok: bool)
      requires Valid()
      modifies this
      ensures Valid() && faults >= old(faults)
      ensures ok <==> Allows(old(Links(State(), ns)), i, c) && faults == old(faults)
      ensures State() == if ok then Modified(old(State()), ns, i, c) else old(State())
    {
      var refused := Refuses();
      if refused || !Allows(Links(State(), ns), i, c) {
        return false;
      }
      ModifiedConsistent(State(), ns, i, c);
      Commit(Modified(State(), ns, i, c));
      return true;
    }

    /** RouteAdd. */
    method RouteAdd(ns: Ns, r: Route) returns (ok: bool)
      requires Valid()
      modifies this
      ensures Valid() && faults >= old(faults)
      ensures ok <==> CanAddRoute(old(State()), ns, r) && faults == old(faults)
      ensures State() == if ok then RouteAdded(old(State()), ns, r) else old(State())
    {
      var refused := Refuses();
      if refused || !CanAddRoute(State(), ns, r) {
        return false;
      }
      Commit(RouteAdded(State(), ns, r));
      return true;
    }
  }
}
