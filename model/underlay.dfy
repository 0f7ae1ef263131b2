// The underlay (internal/hostnetwork/underlay.go): a dummy loopback "lound" in the target
// namespace carries the VTEP address, and the node's physical NIC is moved into that
// namespace. The NIC is tagged with a marker address before it moves, so that a later pass
// recognises it and, when another NIC is configured, moves the old one back.
module Underlay {
  import opened Wrappers
  import opened Text
  import opened IPv4
  import opened Kernel
  import opened Properties
  import opened HostNetworkTypes

  const UnderlayLoopback: string := "lound"
  const UnderlayNicSpecialAddr: string := "172.16.1.1/32"

  /** The marker address as a value. */
  const Marker: IPNet := IPNet(FromOctets(172, 16, 1, 1), 32)

  /** The marker prints as the marker text. */
  lemma MarkerFormat()
    ensures FormatCIDR(Marker) == UnderlayNicSpecialAddr
  {
    FromOctetsOctets(172, 16, 1, 1);
    assert NatToDec(17) == "17";
    assert NatToDec(172) == "172";
    assert NatToDec(16) == "16";
    assert NatToDec(1) == "1";
    assert NatToDec(3) == "3";
    assert NatToDec(32) == "32";
    var t := OctetTexts(Marker.ip);
    assert t == ["172", "16", "1", "1"];
    assert Join(t[3..], '.') == "1";
    assert Join(t[2..], '.') == "1.1";
    assert Join(t[1..], '.') == "16.1.1";
    assert FormatIP(Marker.ip) == "172.16.1.1";
  }

  /** The marker text parses to the marker and is its printed form. */
  lemma MarkerText()
    ensures FormatCIDR(Marker) == UnderlayNicSpecialAddr
    ensures ParseAddr(UnderlayNicSpecialAddr) == Some(Marker)
  {
    MarkerFormat();
    ParseFormatCIDR(Marker);
  }

  /** A link carries the marker exactly when its text is among the link's printed addresses. */
  lemma CarriesMarker(addrs: set<IPNet>)
    ensures Carries(addrs, UnderlayNicSpecialAddr) <==> Marker in addrs
  {
    MarkerText();
    CarriesPrinted(addrs, Marker);
  }

  /** The links of a table that carry the marker. */
  function Tagged(m: map<string, Link>): set<string> {
    set n | n in m && Marker in m[n].addrs
  }

  /** At most one link carries the marker, so the old underlay NIC is well defined. */
  predicate Unambiguous(m: map<string, Link>) {
    forall a, b :: a in Tagged(m) && b in Tagged(m) ==> a == b
  }

  datatype UnderlayError =
    | NamespaceNotFound(ns: string)
    | LoopbackAddRefused
    | LoopbackAddressFailed(addr: AddrError)
    | MarkerDelRefused(nic: string)
    | NicLookupFailed(nic: string)
    | MarkerAddFailed(addr: AddrError)
    | NicMoveFailed(move: MoveError)

  /** interfaceHasIP with the marker text, for a link of the target namespace. */
  method CarriesMarkerNow(k: Kernel, l: Link) returns (has: bool)
    requires k.Valid() && l.name in k.target && k.target[l.name] == l
    ensures has <==> Marker in l.addrs
  {
    var r := InterfaceHasIP(k, Target, l, UnderlayNicSpecialAddr);
    if r.Failure? {
      MarkerText();
      assert false;
    }
    AddrsAtName(k.target, l.name);
    CarriesMarker(l.addrs);
    return r.value;
  }

  /**
   * oldUnderlayInterface: the first link of the target namespace's listing that carries the
   * marker; none when no link does.
   */
  method OldUnderlayInterface(k: Kernel) returns (r: Option<Link>)
    requires k.Valid()
    ensures r.Some? ==> r.value.name in Tagged(k.target) && k.target[r.value.name] == r.value
    ensures r.None? <==> Tagged(k.target) == {}
  {
    var links := k.LinkList(Target);
    var j := 0;
    while j < |links|
      invariant 0 <= j <= |links|
      invariant forall j' :: 0 <= j' < j ==> Marker !in links[j'].addrs
    {
      var has := CarriesMarkerNow(k, links[j]);
      if has {
        assert links[j].name in Tagged(k.target);
        return Some(links[j]);
      }
      j := j + 1;
    }
    forall n | n in k.target
      ensures Marker !in k.target[n].addrs
    {
      var j' :| 0 <= j' < |links| && links[j'].name == n;
    }
    assert Tagged(k.target) == {};
    return None;
  }

  /**
   * What removeUnderlayInterface leaves behind when the kernel refuses nothing: the marker
   * deleted from the old NIC, which is then moved back to the host namespace. None when the
   * kernel would refuse the deletion, or the NIC cannot be found for the move.
   */
  function UnderlayRemoved(s: KState, oldLink: Link): Option<KState> {
    if !Allows(s.target, oldLink.index, DelAddr(Marker)) then None
    else NicMoved(Modified(s, Target, oldLink.index, DelAddr(Marker)), Target, oldLink.name, Host)
  }

  /** removeUnderlayInterface: delete the marker from the old NIC and move it back to the host. */
  method RemoveUnderlayInterface(k: Kernel, oldLink: Link) returns (err: Option<UnderlayError>)
    requires k.Valid()
    modifies k
    ensures k.Valid() && k.faults >= old(k.faults)
    ensures !Allows(old(k.target), oldLink.index, DelAddr(Marker)) ==>
      err == Some(MarkerDelRefused(oldLink.name)) && k.State() == old(k.State())
    ensures k.faults == old(k.faults) ==>
      UnderlayRemoved(old(k.State()), oldLink) == if err.None? then Some(k.State()) else None
  {
    ghost var s0 := k.State();
    var ok := k.Modify(Target, oldLink.index, DelAddr(Marker));
    if !ok {
      return Some(MarkerDelRefused(oldLink.name));
    }
    assert k.faults == old(k.faults) ==> k.State() == Modified(s0, Target, oldLink.index, DelAddr(Marker));
    var moved := MoveNicToNamespace(k, Target, oldLink.name, Host);
    if moved.Some? {
      return Some(NicMoveFailed(moved.value));
    }
    return None;
  }

  /** The target namespace's link that carries the marker, when there is one. */
  ghost function OldUnderlay(m: map<string, Link>): Option<string> {
    if Tagged(m) == {} then None else var o :| o in Tagged(m); Some(o)
  }

  /**
   * The first half of moveUnderlayNic when the kernel refuses nothing: the old tagged NIC,
   * if any, moved back to the host namespace.
   */
  ghost function OldUnderlayRetired(s: KState): Option<KState> {
    match OldUnderlay(s.target)
    case None => Some(s)
    case Some(o) => UnderlayRemoved(s, s.target[o])
  }

  /**
   * The second half: the NIC, looked up in the host namespace, tagged there and moved into
   * the target namespace. None when it is not in the host namespace.
   */
  function NicTaggedAndMoved(s: KState, nic: string): Option<KState> {
    if nic !in s.host then None
    else
      var l := s.host[nic];
      var s1 := if Marker in l.addrs then s else Modified(s, Host, l.index, AddAddr(Marker));
      NicMoved(s1, Host, nic, Target)
  }

  /**
   * What moveUnderlayNic leaves behind when the kernel refuses nothing: nothing changes
   * when the NIC carries the marker already; otherwise the old tagged NIC is moved back,
   * then the NIC is tagged and moved in. None when a step fails.
   */
  ghost function UnderlayNicMoved(s: KState, nic: string): Option<KState> {
    if nic in Tagged(s.target) then Some(s)
    else
      match OldUnderlayRetired(s)
      case None => None
      case Some(s1) => NicTaggedAndMoved(s1, nic)
  }

  /** Tagging a host NIC: nothing to do when it carries the marker, the marker added otherwise. */
  lemma MarkerAssigned(s: KState, nic: string)
    requires Consistent(s) && nic in s.host
    ensures var l := s.host[nic];
      AddressAssigned(s, Host, l.index, UnderlayNicSpecialAddr)
        == Some(if Marker in l.addrs then s else Modified(s, Host, l.index, AddAddr(Marker)))
  {
    var l := s.host[nic];
    MarkerText();
    AddrsAtName(s.host, nic);
    CarriesMarker(l.addrs);
    if Marker !in l.addrs {
      forall n | n in s.host && s.host[n].index == l.index
        ensures Marker !in s.host[n].addrs
      {
        IndexDeterminesName(s, Host, n, nic);
      }
      assert Allows(s.host, l.index, AddAddr(Marker));
    }
  }

  /**
   * The first half of moveUnderlayNic: find the old tagged NIC; `done` when it is the NIC
   * itself, otherwise move it back.
   */
  method RetireOldUnderlay(k: Kernel, nic: string) returns (done: bool, err: Option<UnderlayError>)
    requires k.Valid()
    modifies k
    ensures k.Valid() && k.faults >= old(k.faults)
    ensures done ==> err.None? && k.State() == old(k.State())
    ensures Unambiguous(old(k.target)) ==> (done <==> nic in Tagged(old(k.target)))
    ensures k.faults == old(k.faults) && Unambiguous(old(k.target)) && !done ==>
      OldUnderlayRetired(old(k.State())) == if err.None? then Some(k.State()) else None
  {
    ghost var s0 := k.State();
    var oldNic := OldUnderlayInterface(k);
    if oldNic.Some? && oldNic.value.name == nic {
      return true, None;
    }
    assert Unambiguous(s0.target) ==> nic !in Tagged(s0.target);
    if oldNic.None? {
      return false, None;
    }
    assert Unambiguous(s0.target) ==> OldUnderlay(s0.target) == Some(oldNic.value.name);
    err := RemoveUnderlayInterface(k, oldNic.value);
    return false, err;
  }

  /** The second half of moveUnderlayNic: tag the NIC in the host namespace and move it in. */
  method TagAndMoveIn(k: Kernel, nic: string) returns (err: Option<UnderlayError>)
    requires k.Valid()
    modifies k
    ensures k.Valid() && k.faults >= old(k.faults)
    ensures nic !in old(k.host) ==> err == Some(NicLookupFailed(nic)) && k.State() == old(k.State())
    ensures k.faults == old(k.faults) ==>
      NicTaggedAndMoved(old(k.State()), nic) == if err.None? then Some(k.State()) else None
  {
    var underlay := k.LinkByName(Host, nic);
    if underlay.None? {
      return Some(NicLookupFailed(nic));
    }
    MarkerAssigned(k.State(), nic);
    var marked := AssignIPToInterface(k, Host, underlay.value, UnderlayNicSpecialAddr);
    if marked.Some? {
      return Some(MarkerAddFailed(marked.value));
    }
    var moved := MoveNicToNamespace(k, Host, nic, Target);
    if moved.Some? {
      return Some(NicMoveFailed(moved.value));
    }
    return None;
  }

  /**
   * moveUnderlayNic: nothing to do when the NIC is the old underlay NIC; otherwise move the
   * old one back, then tag the NIC (looked up in the host namespace) and move it in.
   */
  method MoveUnderlayNic(k: Kernel, nic: string) returns (err: Option<UnderlayError>)
    requires k.Valid()
    modifies k
    ensures k.Valid() && k.faults >= old(k.faults)
    ensures k.faults == old(k.faults) && Unambiguous(old(k.target)) ==>
      UnderlayNicMoved(old(k.State()), nic) == if err.None? then Some(k.State()) else None
  {
    var done;
    done, err := RetireOldUnderlay(k, nic);
    if done || err.Some? {
      return;
    }
    err := TagAndMoveIn(k, nic);
  }

  // ----- shape of moveUnderlayNic -----

  /** After the old NIC is retired no target link carries the marker; the untagged links keep their addresses. */
  lemma OldUnderlayRetiredShape(s: KState)
    requires Consistent(s) && Unambiguous(s.target) && OldUnderlayRetired(s).Some?
    ensures var t := OldUnderlayRetired(s).value;
      && Consistent(t) && Tagged(t.target) == {} && t.target.Keys <= s.target.Keys
      && (forall n :: n in s.target && n !in Tagged(s.target) ==> n in t.target && t.target[n].addrs == s.target[n].addrs)
  {
    if OldUnderlay(s.target).Some? {
      UnderlayRemovedShape(s, OldUnderlay(s.target).value);
    }
  }

  /** Moving back the only tagged link leaves no tagged link; the other links keep their addresses. */
  lemma UnderlayRemovedShape(s: KState, o: string)
    requires Consistent(s) && Unambiguous(s.target) && o in Tagged(s.target)
    requires UnderlayRemoved(s, s.target[o]).Some?
    ensures var t := UnderlayRemoved(s, s.target[o]).value;
      && Consistent(t) && Tagged(t.target) == {} && t.target.Keys <= s.target.Keys
      && (forall n :: n in s.target && n != o ==> n in t.target && t.target[n].addrs == s.target[n].addrs)
  {
    var sm := Modified(s, Target, s.target[o].index, DelAddr(Marker));
    assert Allows(s.target, s.target[o].index, DelAddr(Marker));
    assert UnderlayRemoved(s, s.target[o]) == NicMoved(sm, Target, o, Host);
    MarkerDeleted(s, o);
    NicMovedShape(sm, Target, o, Host);
    var t := UnderlayRemoved(s, s.target[o]).value;
    forall n | n in s.target && n != o
      ensures n in t.target && t.target[n].addrs == s.target[n].addrs
    {
      assert sm.target[n] == s.target[n];
      if o !in sm.host {
        assert n in t.target;
      }
    }
  }

  /** Deleting the marker from the only link carrying it leaves no link carrying it. */
  lemma MarkerDeleted(s: KState, o: string)
    requires Consistent(s) && Unambiguous(s.target) && o in Tagged(s.target)
    ensures var sm := Modified(s, Target, s.target[o].index, DelAddr(Marker));
      && Consistent(sm) && Tagged(sm.target) == {} && sm.target.Keys == s.target.Keys
      && (forall n :: n in s.target && n != o ==> sm.target[n] == s.target[n])
  {
    ModifiedAt(s, Target, o, DelAddr(Marker));
    var sm := Modified(s, Target, s.target[o].index, DelAddr(Marker));
    forall n | n in sm.target
      ensures Marker !in sm.target[n].addrs
    {
      if n != o {
        assert n !in Tagged(s.target);
      }
    }
  }

  /** Tagging and moving in the NIC leaves it the only tagged link of the target namespace. */
  lemma NicTaggedAndMovedShape(s: KState, nic: string)
    requires Consistent(s) && Tagged(s.target) == {} && NicTaggedAndMoved(s, nic).Some?
    ensures var t := NicTaggedAndMoved(s, nic).value;
      && Consistent(t) && Tagged(t.target) <= {nic} && nic in t.target
      && (nic !in s.target ==> nic in Tagged(t.target))
      && (nic in s.target ==> nic in t.host && Marker in t.host[nic].addrs)
      && (forall n :: n in s.target && n != nic ==> n in t.target && t.target[n].addrs == s.target[n].addrs)
  {
    var l := s.host[nic];
    var s1 := if Marker in l.addrs then s else Modified(s, Host, l.index, AddAddr(Marker));
    if Marker !in l.addrs {
      ModifiedAt(s, Host, nic, AddAddr(Marker));
    }
    assert s1.target == s.target && nic in s1.host && Marker in s1.host[nic].addrs;
    NicMovedShape(s1, Host, nic, Target);
  }

  /**
   * After a successful moveUnderlayNic the NIC is in the target namespace and at most it
   * carries the marker there: the old underlay NIC lost it. The marker is on the NIC (in
   * the target namespace, or in the host namespace when a link of that name was in the
   * target namespace already), and the other untagged links keep their addresses.
   */
  lemma UnderlayNicMovedShape(s: KState, nic: string)
    requires Consistent(s) && Unambiguous(s.target) && UnderlayNicMoved(s, nic).Some?
    ensures var t := UnderlayNicMoved(s, nic).value;
      && Consistent(t) && Tagged(t.target) <= {nic} && nic in t.target
      && (nic in Tagged(t.target) || (nic in t.host && Marker in t.host[nic].addrs))
      && (nic !in s.target ==> nic in Tagged(t.target))
      && (forall n :: n in s.target && n !in Tagged(s.target) && n != nic ==> n in t.target && t.target[n].addrs == s.target[n].addrs)
  {
    if nic !in Tagged(s.target) {
      OldUnderlayRetiredShape(s);
      NicTaggedAndMovedShape(OldUnderlayRetired(s).value, nic);
    }
  }

  /** A NIC left as moveUnderlayNic leaves it is not touched again. */
  lemma UnderlayNicMovedStable(t: KState, nic: string)
    requires Consistent(t) && Tagged(t.target) <= {nic} && nic in t.target
    requires nic in Tagged(t.target) || (nic in t.host && Marker in t.host[nic].addrs)
    ensures UnderlayNicMoved(t, nic) == Some(t)
  {
    if nic !in Tagged(t.target) {
      assert Tagged(t.target) == {};
      assert OldUnderlayRetired(t) == Some(t);
    }
  }

  // ----- setupUnderlay -----

  /** "lound" as setupUnderlay finds it: created as a dummy link when missing. */
  function LoopbackPresent(s: KState): (t: KState)
    ensures UnderlayLoopback in t.target
  {
    if UnderlayLoopback in s.target then s else Added(s, Target, UnderlayLoopback, Dummy, 0)
  }

  /**
   * The loopback step of setupUnderlay when the kernel refuses nothing: "lound" created
   * when missing, then given the VTEP address. None when the address does not parse or the
   * kernel would refuse it.
   */
  ghost function LoopbackReady(s: KState, vtepIP: string): Option<KState> {
    var s1 := LoopbackPresent(s);
    AddressAssigned(s1, Target, s1.target[UnderlayLoopback].index, vtepIP)
  }

  /**
   * What setupUnderlay leaves behind when the kernel refuses nothing; None when the target
   * namespace is unknown or a step fails.
   */
  ghost function UnderlayEnsured(s: KState, params: UnderlayParams, targetName: string): Option<KState> {
    if params.targetNS != targetName then None
    else
      match LoopbackReady(s, params.vtepIP)
      case None => None
      case Some(s1) => UnderlayNicMoved(s1, params.mainNic)
  }

  /** The loopback step: find or create "lound" and give it the VTEP address. */
  method SetupLoopback(k: Kernel, vtepIP: string) returns (err: Option<UnderlayError>)
    requires k.Valid()
    modifies k
    ensures k.Valid() && k.faults >= old(k.faults)
    ensures k.faults == old(k.faults) ==>
      LoopbackReady(old(k.State()), vtepIP) == if err.None? then Some(k.State()) else None
  {
    var loopback := k.LinkByName(Target, UnderlayLoopback);
    var lo: Link;
    if loopback.None? {
      var ok := k.LinkAdd(Target, UnderlayLoopback, Dummy, 0);
      if !ok {
        return Some(LoopbackAddRefused);
      }
      lo := k.target[UnderlayLoopback];
    } else {
      lo := loopback.value;
    }
    var given := AssignIPToInterface(k, Target, lo, vtepIP);
    if given.Some? {
      return Some(LoopbackAddressFailed(given.value));
    }
    return None;
  }

  /**
   * setupUnderlay: in the target namespace make sure "lound" exists and carries the VTEP
   * address, then move the underlay NIC in.
   */
  method SetupUnderlay(k: Kernel, params: UnderlayParams) returns (err: Option<UnderlayError>)
    requires k.Valid()
    modifies k
    ensures k.Valid() && k.faults >= old(k.faults)
    ensures !k.NamespaceExists(params.targetNS) ==>
      err == Some(NamespaceNotFound(params.targetNS)) && k.State() == old(k.State())
    ensures k.faults == old(k.faults) && Unambiguous(old(k.target)) && ParseAddr(params.vtepIP) != Some(Marker) ==>
      UnderlayEnsured(old(k.State()), params, k.targetName) == if err.None? then Some(k.State()) else None
  {
    if !k.NamespaceExists(params.targetNS) {
      return Some(NamespaceNotFound(params.targetNS));
    }
    ghost var s0 := k.State();
    err := SetupLoopback(k, params.vtepIP);
    if err.Some? {
      return;
    }
    if LoopbackReady(s0, params.vtepIP).Some? && ParseAddr(params.vtepIP) != Some(Marker) {
      LoopbackReadyShape(s0, params.vtepIP);
    }
    err := MoveUnderlayNic(k, params.mainNic);
  }

  /**
   * The loopback step tags nothing (unless the VTEP address is the marker) and touches no
   * other link; "lound" afterwards holds the VTEP address.
   */
  lemma LoopbackReadyShape(s: KState, vtepIP: string)
    requires Consistent(s) && LoopbackReady(s, vtepIP).Some?
    ensures var t := LoopbackReady(s, vtepIP).value; var p := ParseAddr(vtepIP).value;
      && Consistent(t) && t.target.Keys == s.target.Keys + {UnderlayLoopback} && t.host == s.host
      && (forall n :: n in s.target && n != UnderlayLoopback ==> t.target[n] == s.target[n])
      && (ParseAddr(vtepIP) != Some(Marker) ==> Tagged(t.target) == Tagged(s.target))
      && (Canonical(vtepIP) ==> p in t.target[UnderlayLoopback].addrs)
  {
    LoopbackPresentShape(s);
    var s1 := LoopbackPresent(s);
    AddressAssignedAt(s1, Target, UnderlayLoopback, vtepIP);
    var t := LoopbackReady(s, vtepIP).value;
    if ParseAddr(vtepIP) != Some(Marker) {
      TaggedAfterInsert(s.target, t.target, UnderlayLoopback);
    }
  }

  /** The loopback is found or added with no address; nothing else changes. */
  lemma LoopbackPresentShape(s: KState)
    requires Consistent(s)
    ensures var s1 := LoopbackPresent(s);
      && Consistent(s1) && s1.target.Keys == s.target.Keys + {UnderlayLoopback} && s1.host == s.host
      && (forall n :: n in s.target ==> s1.target[n] == s.target[n])
      && (UnderlayLoopback !in s.target ==> s1.target[UnderlayLoopback].addrs == {})
  {
    if UnderlayLoopback !in s.target {
      AddedAt(s, Target, UnderlayLoopback, Dummy, 0);
    }
  }

  /** Adding or changing link x without making it carry the marker keeps the tagged names. */
  lemma TaggedAfterInsert(a: map<string, Link>, b: map<string, Link>, x: string)
    requires b.Keys == a.Keys + {x}
    requires forall n :: n in a && n != x ==> b[n] == a[n]
    requires Marker in b[x].addrs <==> x in a && Marker in a[x].addrs
    ensures Tagged(b) == Tagged(a)
  {
  }

  /** A loopback that holds a canonical VTEP address is left as it is. */
  lemma LoopbackStable(t: KState, vtepIP: string)
    requires Consistent(t) && Canonical(vtepIP) && UnderlayLoopback in t.target
    requires ParseAddr(vtepIP).value in t.target[UnderlayLoopback].addrs
    ensures LoopbackReady(t, vtepIP) == Some(t)
  {
    AddrsAtName(t.target, UnderlayLoopback);
    CarriesPrinted(t.target[UnderlayLoopback].addrs, ParseAddr(vtepIP).value);
  }

  /**
   * After a successful setupUnderlay the NIC is in the target namespace and is the only link
   * there that can carry the marker, so the next pass again finds at most one old underlay
   * NIC. A NIC that came from the host namespace carries the marker.
   */
  lemma UnderlayEnsuredShape(s: KState, params: UnderlayParams, targetName: string)
    requires Consistent(s) && Unambiguous(s.target) && ParseAddr(params.vtepIP) != Some(Marker)
    requires UnderlayEnsured(s, params, targetName).Some?
    ensures var t := UnderlayEnsured(s, params, targetName).value; var nic := params.mainNic;
      && Consistent(t) && Tagged(t.target) <= {nic} && Unambiguous(t.target) && nic in t.target
      && (nic in Tagged(t.target) || (nic in t.host && Marker in t.host[nic].addrs))
      && (nic !in s.target && nic != UnderlayLoopback ==> nic in Tagged(t.target))
  {
    LoopbackReadyShape(s, params.vtepIP);
    var s1 := LoopbackReady(s, params.vtepIP).value;
    assert UnderlayEnsured(s, params, targetName) == UnderlayNicMoved(s1, params.mainNic);
    NicMovedAfterLoopback(s, s1, params.mainNic);
  }

  /** The moveUnderlayNic half of setupUnderlay, on the state the loopback step left. */
  lemma NicMovedAfterLoopback(s: KState, s1: KState, nic: string)
    requires Consistent(s1) && Unambiguous(s.target) && UnderlayNicMoved(s1, nic).Some?
    requires s1.target.Keys == s.target.Keys + {UnderlayLoopback} && Tagged(s1.target) == Tagged(s.target)
    ensures var t := UnderlayNicMoved(s1, nic).value;
      && Consistent(t) && Tagged(t.target) <= {nic} && Unambiguous(t.target) && nic in t.target
      && (nic in Tagged(t.target) || (nic in t.host && Marker in t.host[nic].addrs))
      && (nic !in s.target && nic != UnderlayLoopback ==> nic in Tagged(t.target))
  {
    assert Unambiguous(s1.target);
    UnderlayNicMovedShape(s1, nic);
    var t := UnderlayNicMoved(s1, nic).value;
    assert nic !in s.target && nic != UnderlayLoopback ==> nic !in s1.target;
    assert Unambiguous(t.target);
  }

  /**
   * After a successful setupUnderlay "lound" holds the VTEP address, unless it was itself
   * the old tagged NIC or is the NIC.
   */
  lemma UnderlayEnsuredLoopback(s: KState, params: UnderlayParams, targetName: string)
    requires Consistent(s) && Unambiguous(s.target) && ParseAddr(params.vtepIP) != Some(Marker)
    requires UnderlayEnsured(s, params, targetName).Some?
    requires UnderlayLoopback !in Tagged(s.target) && UnderlayLoopback != params.mainNic && Canonical(params.vtepIP)
    ensures var t := UnderlayEnsured(s, params, targetName).value;
      UnderlayLoopback in t.target && ParseAddr(params.vtepIP).value in t.target[UnderlayLoopback].addrs
  {
    LoopbackReadyShape(s, params.vtepIP);
    var s1 := LoopbackReady(s, params.vtepIP).value;
    assert Tagged(s1.target) == Tagged(s.target);
    LoopbackKept(s1, params.mainNic);
    assert UnderlayNicMoved(s1, params.mainNic) == UnderlayEnsured(s, params, targetName);
  }

  /** An untagged link other than the NIC keeps its addresses through moveUnderlayNic. */
  lemma LoopbackKept(s1: KState, nic: string)
    requires Consistent(s1) && Unambiguous(s1.target) && UnderlayNicMoved(s1, nic).Some?
    requires UnderlayLoopback in s1.target && UnderlayLoopback !in Tagged(s1.target) && UnderlayLoopback != nic
    ensures var t := UnderlayNicMoved(s1, nic).value;
      UnderlayLoopback in t.target && t.target[UnderlayLoopback].addrs == s1.target[UnderlayLoopback].addrs
  {
    UnderlayNicMovedShape(s1, nic);
  }

  /** setupUnderlay converges: a second run after a successful one changes nothing. */
  lemma UnderlayEnsuredIdempotent(s: KState, params: UnderlayParams, targetName: string)
    requires Consistent(s) && Unambiguous(s.target) && ParseAddr(params.vtepIP) != Some(Marker)
    requires Canonical(params.vtepIP) && UnderlayLoopback !in Tagged(s.target) && UnderlayLoopback != params.mainNic
    requires UnderlayEnsured(s, params, targetName).Some?
    ensures var t := UnderlayEnsured(s, params, targetName).value;
      UnderlayEnsured(t, params, targetName) == Some(t)
  {
    UnderlayEnsuredShape(s, params, targetName);
    UnderlayEnsuredLoopback(s, params, targetName);
    var t := UnderlayEnsured(s, params, targetName).value;
    LoopbackStable(t, params.vtepIP);
    UnderlayNicMovedStable(t, params.mainNic);
  }
}
