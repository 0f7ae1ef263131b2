// Link address and placement helpers (internal/hostnetwork/properties.go). The per-device
// flags written by addrGenModeNone and setNeighSuppression are the kernel changes
// SetAddrGenModeNone and SetNeighSuppression.
module Properties {
  import opened Wrappers
  import opened IPv4
  import opened Kernel

  datatype AddrError = UnparsableAddress(address: string) | AddrAddRefused(address: string)

  /** Some address of the set prints exactly as `address` (IPNet.String() == address). */
  predicate Carries(addrs: set<IPNet>, address: string) {
    exists a :: a in addrs && FormatCIDR(a) == address
  }

  /** The text is the printed form of the address it parses to. */
  predicate Canonical(address: string) {
    ParseAddr(address).Some? && FormatCIDR(ParseAddr(address).value) == address
  }

  /** For a printed address, carrying its text and carrying the address are the same thing. */
  lemma CarriesPrinted(addrs: set<IPNet>, p: IPNet)
    ensures Carries(addrs, FormatCIDR(p)) <==> p in addrs
  {
    if Carries(addrs, FormatCIDR(p)) {
      var a :| a in addrs && FormatCIDR(a) == FormatCIDR(p);
      FormatCIDRInjective(a, p);
    }
  }

  /** Every printed address with a valid prefix length is canonical. */
  lemma PrintedIsCanonical(p: IPNet)
    requires p.prefix <= 32
    ensures Canonical(FormatCIDR(p)) && ParseAddr(FormatCIDR(p)) == Some(p)
  {
    ParseFormatCIDR(p);
  }

  /** interfaceHasIP: an unparsable address is an error; otherwise whether the link carries it. */
  method InterfaceHasIP(k: Kernel, ns: Ns, link: Link, address: string) returns (r: Result<bool, AddrError>)
    requires k.Valid()
    ensures r.Failure? <==> ParseAddr(address).None?
    ensures r.Failure? ==> r.error == UnparsableAddress(address)
    ensures r.Success? ==> (r.value <==> Carries(AddrsAt(Links(k.State(), ns), link.index), address))
  {
    if ParseAddr(address).None? {
      return Failure(UnparsableAddress(address));
    }
    var addresses := k.AddrList(ns, link.index);
    ghost var m := Links(k.State(), ns);
    ghost var held := AddrsAt(m, link.index);
    assert forall a :: a in addresses <==> a in held by {
      if HasIndex(m, link.index) {
        var n :| n in m && m[n].index == link.index;
        AddrsAtName(m, n);
      }
    }
    var j := 0;
    while j < |addresses|
      invariant 0 <= j <= |addresses|
      invariant forall j' :: 0 <= j' < j ==> FormatCIDR(addresses[j']) != address
    {
      if FormatCIDR(addresses[j]) == address {
        return Success(true);
      }
      j := j + 1;
    }
    return Success(false);
  }

  /**
   * assignIPToInterface: nothing to do when the link already carries the address; otherwise
   * the parsed address is added to the link.
   */
  method AssignIPToInterface(k: Kernel, ns: Ns, link: Link, address: string) returns (err: Option<AddrError>)
    requires k.Valid()
    modifies k
    ensures k.Valid() && k.faults >= old(k.faults)
    ensures ParseAddr(address).None? ==> err == Some(UnparsableAddress(address)) && k.State() == old(k.State())
    ensures ParseAddr(address).Some? && Carries(AddrsAt(old(Links(k.State(), ns)), link.index), address) ==>
      err.None? && k.State() == old(k.State())
    ensures ParseAddr(address).Some? && !Carries(AddrsAt(old(Links(k.State(), ns)), link.index), address) ==>
      var c := AddAddr(ParseAddr(address).value);
      && (err.None? <==> Allows(old(Links(k.State(), ns)), link.index, c) && k.faults == old(k.faults))
      && (err.Some? ==> err == Some(AddrAddRefused(address)))
      && k.State() == if err.None? then Modified(old(k.State()), ns, link.index, c) else old(k.State())
    ensures k.faults == old(k.faults) ==>
      AddressAssigned(old(k.State()), ns, link.index, address) == if err.None? then Some(k.State()) else None
  {
    var has := InterfaceHasIP(k, ns, link, address);
    if has.Failure? {
      return Some(has.error);
    }
    if has.value {
      return None;
    }
    var addr := ParseAddr(address).value;
    var ok := k.Modify(ns, link.index, AddAddr(addr));
    if !ok {
      return Some(AddrAddRefused(address));
    }
    return None;
  }

  /**
   * What assignIPToInterface leaves behind when the kernel refuses nothing: the state as it
   * was when the link already carries the text, the address added otherwise; None when the
   * text does not parse or the kernel would refuse the address.
   */
  ghost function AddressAssigned(s: KState, ns: Ns, i: nat, address: string): Option<KState> {
    match ParseAddr(address)
    case None => None
    case Some(p) =>
      if Carries(AddrsAt(Links(s, ns), i), address) then Some(s)
      else if Allows(Links(s, ns), i, AddAddr(p)) then Some(Modified(s, ns, i, AddAddr(p)))
      else None
  }

  /**
   * A successful assignment touches the named link alone: it keeps it as it is or adds the
   * parsed address to it. A canonical text ends up among the link's addresses.
   */
  lemma AddressAssignedAt(s: KState, ns: Ns, n: string, address: string)
    requires Consistent(s) && n in Links(s, ns)
    requires AddressAssigned(s, ns, Links(s, ns)[n].index, address).Some?
    ensures var t := AddressAssigned(s, ns, Links(s, ns)[n].index, address).value;
      var p := ParseAddr(address).value; var l := Links(s, ns)[n];
      && Consistent(t) && Links(t, ns).Keys == Links(s, ns).Keys
      && (Links(t, ns)[n] == l || Links(t, ns)[n] == l.(addrs := l.addrs + {p}))
      && (forall n' :: n' in Links(s, ns) && n' != n ==> Links(t, ns)[n'] == Links(s, ns)[n'])
      && (ns == Host ==> t.target == s.target) && (ns == Target ==> t.host == s.host)
      && (Canonical(address) ==> p in Links(t, ns)[n].addrs)
  {
    var l := Links(s, ns)[n];
    var p := ParseAddr(address).value;
    AddrsAtName(Links(s, ns), n);
    if Carries(l.addrs, address) {
      if Canonical(address) {
        CarriesPrinted(l.addrs, p);
      }
    } else {
      ModifiedAt(s, ns, n, AddAddr(p));
    }
  }

  /**
   * After a successful assignment of a canonical address the link carries it, and when the
   * kernel refuses nothing an assignment to an existing link succeeds.
   */
  lemma AssignedAddressPresent(s: KState, ns: Ns, i: nat, address: string)
    requires Consistent(s) && Canonical(address) && HasIndex(Links(s, ns), i)
    ensures var p := ParseAddr(address).value;
      && (!Carries(AddrsAt(Links(s, ns), i), address) ==> Allows(Links(s, ns), i, AddAddr(p)))
      && Carries(AddrsAt(Links(Modified(s, ns, i, AddAddr(p)), ns), i), address)
      && p in AddrsAt(Links(Modified(s, ns, i, AddAddr(p)), ns), i)
  {
    var p := ParseAddr(address).value;
    var m := Links(s, ns);
    var n :| n in m && m[n].index == i;
    AddrsAtName(m, n);
    CarriesPrinted(m[n].addrs, p);
    var t := Modified(s, ns, i, AddAddr(p));
    ModifiedConsistent(s, ns, i, AddAddr(p));
    var m' := Links(t, ns);
    assert m'[n] == Apply(m[n], AddAddr(p));
    AddrsAtName(m', n);
    CarriesPrinted(m'[n].addrs, p);
  }

  /** nsHasNic: whether the namespace holds a link of that name; a lookup never fails here. */
  function NsHasNic(k: Kernel, ns: Ns, nic: string): (r: Result<bool, string>)
    reads k
    ensures r.Success? && (r.value <==> k.LinkByName(ns, nic).Some?)
  {
    Success(nic in Links(k.State(), ns))
  }

  function Elems(xs: seq<IPNet>): set<IPNet> {
    set a | a in xs
  }

  datatype MoveError = NicNotFound(nic: string) | NicMoveRefused(nic: string)

  /** The moved link i of namespace ns with its up flag and addresses set again. */
  function Resettled(s: KState, ns: Ns, i: nat, up: bool, addrs: set<IPNet>): KState {
    var m := Links(s, ns);
    WithLinks(s, ns, map n | n in m :: if m[n].index == i then m[n].(up := up, addrs := addrs) else m[n])
  }

  lemma ResettledSetUp(s: KState, ns: Ns, i: nat, addrs: set<IPNet>)
    ensures Modified(Resettled(s, ns, i, false, addrs), ns, i, SetUp) == Resettled(s, ns, i, true, addrs)
  {
  }

  lemma ResettledAddAddr(s: KState, ns: Ns, i: nat, addrs: set<IPNet>, a: IPNet)
    ensures Modified(Resettled(s, ns, i, true, addrs), ns, i, AddAddr(a)) == Resettled(s, ns, i, true, addrs + {a})
  {
  }

  lemma ResettledConsistent(s: KState, ns: Ns, i: nat, up: bool, addrs: set<IPNet>)
    requires Consistent(s)
    ensures Consistent(Resettled(s, ns, i, up, addrs))
  {
    var m := Links(s, ns);
    var m' := Links(Resettled(s, ns, i, up, addrs), ns);
    assert forall n :: n in m' ==> n in m && m'[n].index == m[n].index && m'[n].name == m[n].name;
  }

  /** A link just moved into `to` is down and has no address. */
  lemma MovedIsResettled(s: KState, from: Ns, i: nat, to: Ns)
    requires Consistent(s) && CanMove(s, from, i, to) && from != to
    ensures Resettled(Moved(s, from, i, to), to, i, false, {}) == Moved(s, from, i, to)
  {
    var t := Moved(s, from, i, to);
    var mt := Links(t, to);
    var src := Links(s, from);
    var dst := Links(s, to);
    assert mt == dst + Moving(src, i);
    assert DisjointIndices(src, dst) by {
      if from == Target {
        DisjointSymmetric(s.host, s.target);
      }
    }
    assert forall n :: n in dst ==> dst[n].index != i;
    var r := map n | n in mt :: if mt[n].index == i then mt[n].(up := false, addrs := {}) else mt[n];
    assert r == mt;
  }

  /** The moved link is present in `to` with the index it had. */
  lemma ResettledHasIndex(s: KState, ns: Ns, i: nat, up: bool, addrs: set<IPNet>)
    requires HasIndex(Links(s, ns), i)
    ensures HasIndex(Links(Resettled(s, ns, i, up, addrs), ns), i)
  {
    var n :| n in Links(s, ns) && Links(s, ns)[n].index == i;
    assert n in Links(Resettled(s, ns, i, up, addrs), ns);
  }

  /** An address the moved link does not hold yet may be added to it. */
  lemma ResettledAllowsAdd(s: KState, ns: Ns, i: nat, addrs: set<IPNet>, a: IPNet)
    requires HasIndex(Links(s, ns), i) && a !in addrs
    ensures Allows(Links(Resettled(s, ns, i, true, addrs), ns), i, AddAddr(a))
  {
    ResettledHasIndex(s, ns, i, true, addrs);
  }

  lemma ElemsSnoc(xs: seq<IPNet>, j: nat)
    requires j < |xs|
    ensures Elems(xs[..j + 1]) == Elems(xs[..j]) + {xs[j]}
  {
    assert xs[..j + 1] == xs[..j] + [xs[j]];
  }

  /**
   * The closure moveNicToNamespace runs inside the target namespace: set the moved link up
   * and add back the addresses it held, stopping at the first failure (which the caller
   * then ignores). `up` and `restored` report how far it got.
   */
  method SetUpAndRestore(k: Kernel, ns: Ns, i: nat, addresses: seq<IPNet>, ghost base: KState)
    returns (ok: bool, up: bool, restored: nat)
    requires k.Valid() && k.State() == base && Resettled(base, ns, i, false, {}) == base
    requires HasIndex(Links(base, ns), i)
    requires forall j, j' :: 0 <= j < j' < |addresses| ==> addresses[j] != addresses[j']
    modifies k
    ensures k.Valid() && k.faults >= old(k.faults)
    ensures restored <= |addresses| && k.State() == Resettled(base, ns, i, up, Elems(addresses[..restored]))
    ensures ok <==> up && restored == |addresses|
    ensures k.faults == old(k.faults) ==> ok
  {
    ghost var f0 := k.faults;
    ResettledSetUp(base, ns, i, {});
    up, restored := false, 0;
    assert Elems(addresses[..0]) == {};
    ok := k.Modify(ns, i, SetUp);
    if !ok {
      return;
    }
    up := true;
    while restored < |addresses|
      invariant restored <= |addresses|
      invariant k.Valid() && k.faults >= f0
      invariant k.State() == Resettled(base, ns, i, true, Elems(addresses[..restored]))
      invariant forall j' :: restored <= j' < |addresses| ==> addresses[j'] !in Elems(addresses[..restored])
    {
      ResettledAddAddr(base, ns, i, Elems(addresses[..restored]), addresses[restored]);
      ResettledAllowsAdd(base, ns, i, Elems(addresses[..restored]), addresses[restored]);
      ok := k.Modify(ns, i, AddAddr(addresses[restored]));
      if !ok {
        return;
      }
      ElemsSnoc(addresses, restored);
      restored := restored + 1;
    }
  }

  lemma ElemsPrefix(xs: seq<IPNet>, j: nat)
    requires j <= |xs|
    ensures Elems(xs[..j]) <= Elems(xs)
  {
  }

  /**
   * What moveNicToNamespace leaves behind when the kernel refuses nothing: the state as it
   * was when the NIC is in `to` already, otherwise the NIC moved to `to`, up, with the
   * addresses it held; None when the NIC is in neither namespace.
   */
  function NicMoved(s: KState, from: Ns, nic: string, to: Ns): Option<KState> {
    if nic in Links(s, to) then Some(s)
    else if nic !in Links(s, from) then None
    else
      var l := Links(s, from)[nic];
      Some(Resettled(Moved(s, from, l.index, to), to, l.index, true, l.addrs))
  }

  /**
   * A NIC moved into `to` keeps its index and addresses and is up; the links `to` held are
   * untouched, and the NIC leaves `from`, whose other links keep their addresses.
   */
  lemma NicMovedShape(s: KState, from: Ns, nic: string, to: Ns)
    requires Consistent(s) && from != to && NicMoved(s, from, nic, to).Some?
    ensures var t := NicMoved(s, from, nic, to).value;
      && Consistent(t) && nic in Links(t, to)
      && (nic in Links(s, to) ==> t == s)
      && (nic !in Links(s, to) ==>
            && nic in Links(s, from)
            && Links(t, to)[nic].index == Links(s, from)[nic].index
            && Links(t, to)[nic].addrs == Links(s, from)[nic].addrs && Links(t, to)[nic].up
            && Links(t, to).Keys == Links(s, to).Keys + {nic}
            && (forall n :: n in Links(s, to) ==> Links(t, to)[n] == Links(s, to)[n])
            && Links(t, from).Keys == Links(s, from).Keys - {nic}
            && (forall n :: n in Links(t, from) ==>
                  Links(t, from)[n].index == Links(s, from)[n].index && Links(t, from)[n].addrs == Links(s, from)[n].addrs))
  {
    if nic !in Links(s, to) {
      var l := Links(s, from)[nic];
      var src := Links(s, from);
      var dst := Links(s, to);
      assert DisjointIndices(src, dst) by {
        if from == Target {
          DisjointSymmetric(s.host, s.target);
        }
      }
      MovedTables(src, dst, nic);
      assert CanMove(s, from, l.index, to);
      MovedConsistent(s, from, l.index, to);
      var mv := Moved(s, from, l.index, to);
      ResettledConsistent(mv, to, l.index, true, l.addrs);
      assert Links(mv, to) == dst + Moving(src, l.index);
      assert Links(mv, from) == Dropped(src, {l.index});
    }
  }

  /** The two tables once the link `nic` has moved from `src` to `dst` and been set up again. */
  lemma MovedTables(src: map<string, Link>, dst: map<string, Link>, nic: string)
    requires UniqueIndices(src) && DisjointIndices(src, dst) && nic in src && nic !in dst
    ensures var l := src[nic]; var e := dst + Moving(src, l.index);
      var r := map n | n in e :: if e[n].index == l.index then e[n].(up := true, addrs := l.addrs) else e[n];
      && (forall n :: n in src && src[n].index == l.index ==> n !in dst)
      && r.Keys == dst.Keys + {nic}
      && r[nic].index == l.index && r[nic].addrs == l.addrs && r[nic].up
      && (forall n :: n in dst ==> r[n] == dst[n])
    ensures var d := Dropped(src, {src[nic].index});
      && d.Keys == src.Keys - {nic}
      && forall n :: n in d ==> d[n].index == src[n].index && d[n].addrs == src[n].addrs
  {
    var l := src[nic];
    assert Moving(src, l.index) == map[nic := Detached(l)];
  }

  /**
   * moveNicToNamespace: nothing to do when the NIC is already in `to`; otherwise it is
   * moved from `from`, set up there and given back the addresses it held. Failures of the
   * set-up and re-add steps are ignored: the re-add stops at its first failure.
   */
  method MoveNicToNamespace(k: Kernel, from: Ns, nic: string, to: Ns) returns (err: Option<MoveError>)
    requires k.Valid()
    modifies k
    ensures k.Valid() && k.faults >= old(k.faults)
    ensures nic in old(Links(k.State(), to)) ==> err.None? && k.State() == old(k.State())
    ensures nic !in old(Links(k.State(), to)) && nic !in old(Links(k.State(), from)) ==>
      err == Some(NicNotFound(nic)) && k.State() == old(k.State())
    ensures nic !in old(Links(k.State(), to)) && nic in old(Links(k.State(), from)) ==>
      var l := old(Links(k.State(), from))[nic];
      var moved := Moved(old(k.State()), from, l.index, to);
      && (err.Some? ==> err == Some(NicMoveRefused(nic)) && k.State() == old(k.State()) && k.faults > old(k.faults))
      && (err.None? ==> exists up: bool, kept: set<IPNet> :: kept <= l.addrs && k.State() == Resettled(moved, to, l.index, up, kept))
      && (k.faults == old(k.faults) ==> err.None? && k.State() == Resettled(moved, to, l.index, true, l.addrs))
    ensures k.faults == old(k.faults) ==>
      NicMoved(old(k.State()), from, nic, to) == if err.None? then Some(k.State()) else None
  {
    if k.LinkByName(to, nic).Some? {
      return None;
    }
    var link := k.LinkByName(from, nic);
    if link.None? {
      return Some(NicNotFound(nic));
    }
    var l := link.value;
    ghost var s0 := k.State();
    var addresses := k.AddrList(from, l.index);
    AddrsAtName(Links(s0, from), nic);
    assert Elems(addresses) == l.addrs;
    var ok := k.LinkSetNs(from, l.index, to);
    if !ok {
      return Some(NicMoveRefused(nic));
    }
    MovedIsResettled(s0, from, l.index, to);
    assert nic in Links(k.State(), to) && Links(k.State(), to)[nic].index == l.index;
    var up, restored;
    ok, up, restored := SetUpAndRestore(k, to, l.index, addresses, k.State());
    ElemsPrefix(addresses, restored);
    if ok {
      assert addresses[..restored] == addresses;
    }
    return None;
  }
}
