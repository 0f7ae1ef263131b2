// VRF devices and the choice of their routing table (internal/hostnetwork/vrf.go). The
// VRF steps run inside the target namespace, so the listing and the new device are the
// target namespace's.
module Vrf {
  import opened Wrappers
  import opened Kernel

  /** math.MaxUint32: the table ids tried are 1 up to, and excluding, this value. */
  const MaxUint32: nat := 0xFFFF_FFFF

  datatype VrfError = NoFreeTable | VrfAddRefused(name: string) | VrfUpRefused(name: string) | VrfDelRefused(name: string)

  /** The routing tables used by the VRFs of a listing. */
  function Tables(links: seq<Link>): (r: set<nat>)
    ensures forall t :: t in r <==> exists j :: 0 <= j < |links| && links[j].kind == Vrf(t)
    decreases |links|
  {
    if links == [] then {}
    else
      var init := links[..|links| - 1];
      var last := links[|links| - 1];
      assert forall j :: 0 <= j < |init| ==> init[j] == links[j];
      Tables(init) + (if last.kind.Vrf? then {last.kind.table} else {})
  }

  /** The routing tables used by the VRFs of a link table. */
  function TablesIn(m: map<string, Link>): set<nat> {
    set n | n in m && m[n].kind.Vrf? :: m[n].kind.table
  }

  /** A listing of a table uses exactly the table's routing tables. */
  lemma EnumeratedTables(links: seq<Link>, m: map<string, Link>)
    requires Enumerates(links, m)
    ensures Tables(links) == TablesIn(m)
  {
    forall t | t in TablesIn(m)
      ensures t in Tables(links)
    {
      var n :| n in m && m[n].kind.Vrf? && m[n].kind.table == t;
      var j :| 0 <= j < |links| && links[j].name == n;
      assert links[j].kind == Vrf(t);
    }
    forall t | t in Tables(links)
      ensures t in TablesIn(m)
    {
      var j :| 0 <= j < |links| && links[j].kind == Vrf(t);
      var n := links[j].name;
      assert n in m && m[n].kind.Vrf? && m[n].kind.table == t;
    }
  }

  /** The first id from `from` on, below MaxUint32, that is not taken. */
  function FirstFree(taken: set<nat>, from: nat): (r: Option<nat>)
    ensures r.Some? ==> from <= r.value < MaxUint32 && r.value !in taken
    ensures r.Some? ==> forall t :: from <= t < r.value ==> t in taken
    ensures r.None? <==> forall t :: from <= t < MaxUint32 ==> t in taken
    decreases MaxUint32 - from
  {
    if from >= MaxUint32 then None
    else if from !in taken then Some(from)
    else FirstFree(taken, from + 1)
  }

  /**
   * What findFreeRoutingTableID returns: the lowest id of at least 1 that no VRF of the
   * listing uses; an error when every id below MaxUint32 is used.
   */
  function FreeTable(links: seq<Link>): (r: Result<nat, VrfError>)
    ensures r.Success? ==> 1 <= r.value < MaxUint32
    ensures r.Success? ==> forall j :: 0 <= j < |links| ==> links[j].kind != Vrf(r.value)
    ensures r.Success? ==> forall t :: 1 <= t < r.value ==> exists j :: 0 <= j < |links| && links[j].kind == Vrf(t)
    ensures r.Failure? ==> r.error == NoFreeTable
    ensures r.Failure? <==> forall t :: 1 <= t < MaxUint32 ==> exists j :: 0 <= j < |links| && links[j].kind == Vrf(t)
  {
    match FirstFree(Tables(links), 1)
    case None => Failure(NoFreeTable)
    case Some(t) => Success(t)
  }

  /** findFreeRoutingTableID: collect the VRFs' tables, then count up from 1. */
  method FindFreeRoutingTableID(links: seq<Link>) returns (r: Result<nat, VrfError>)
    ensures r == FreeTable(links)
  {
    var taken: set<nat> := {};
    var i := 0;
    while i < |links|
      invariant 0 <= i <= |links|
      invariant taken == Tables(links[..i])
    {
      assert links[..i + 1][..i] == links[..i];
      if links[i].kind.Vrf? {
        taken := taken + {links[i].kind.table};
      }
      i := i + 1;
    }
    assert links[..i] == links;
    var res := 1;
    while res < MaxUint32
      invariant 1 <= res <= MaxUint32
      invariant FirstFree(taken, res) == FirstFree(taken, 1)
      decreases MaxUint32 - res
    {
      if res !in taken {
        return Success(res);
      }
      res := res + 1;
    }
    return Failure(NoFreeTable);
  }

  /** Only the VRFs of a listing matter for the table chosen: not the other links, not the order. */
  lemma FreeTableOnlyVrfs(a: seq<Link>, b: seq<Link>)
    requires forall l: Link :: l.kind.Vrf? ==> (l in a <==> l in b)
    ensures FirstFree(Tables(a), 1) == FirstFree(Tables(b), 1)
  {
    forall t | t in Tables(a)
      ensures t in Tables(b)
    {
      var j :| 0 <= j < |a| && a[j].kind == Vrf(t);
      assert a[j] in a;
      var j' :| 0 <= j' < |b| && b[j'] == a[j];
    }
    forall t | t in Tables(b)
      ensures t in Tables(a)
    {
      var j :| 0 <= j < |b| && b[j].kind == Vrf(t);
      assert b[j] in b;
      var j' :| 0 <= j' < |a| && a[j'] == b[j];
    }
    assert Tables(a) == Tables(b);
  }

  /** The namespace after createVRF succeeded with table `table`. */
  function CreatedVrf(s: KState, name: string, table: nat): KState {
    Modified(Added(s, Target, name, Vrf(table), 0), Target, s.nextIndex, SetUp)
  }

  /** createVRF adds one link: the VRF, up, with a fresh index and no master; nothing else changes. */
  lemma CreatedVrfShape(s: KState, name: string, table: nat)
    requires Consistent(s) && name !in s.target
    ensures var t := CreatedVrf(s, name, table);
      && t.target.Keys == s.target.Keys + {name}
      && t.target[name] == Link(name, s.nextIndex, Vrf(table), 0, {}, true, false, false)
      && (forall n :: n in s.target ==> t.target[n] == s.target[n])
      && t.host == s.host && t.hostRoutes == s.hostRoutes && t.targetRoutes == s.targetRoutes
  {
    var a := Added(s, Target, name, Vrf(table), 0);
    assert forall n :: n in s.target ==> s.target[n].index < s.nextIndex;
    assert a.target[name].index == s.nextIndex;
  }

  /** The added VRF holds the next index. */
  lemma AddedVrfAt(s: KState, name: string, table: nat)
    requires Consistent(s) && name !in s.target
    ensures var a := Added(s, Target, name, Vrf(table), 0);
      name in a.target && a.target[name].index == s.nextIndex && HasIndex(a.target, s.nextIndex)
  {
  }

  /**
   * createVRF: list the links, pick the free table, add the VRF and set it up. Returns the
   * VRF as it is afterwards.
   */
  method CreateVRF(k: Kernel, name: string) returns (r: Result<Link, VrfError>)
    requires k.Valid()
    modifies k
    ensures k.Valid() && k.faults >= old(k.faults)
    ensures var free := FirstFree(TablesIn(old(k.State()).target), 1);
      && (free.None? ==> r == Failure(NoFreeTable) && k.State() == old(k.State()))
      && (r.Success? ==> free.Some? && k.State() == CreatedVrf(old(k.State()), name, free.value)
                         && name in k.State().target && r.value == k.State().target[name])
      && (r.Failure? && free.Some? ==>
            k.State() == old(k.State()) || k.State() == Added(old(k.State()), Target, name, Vrf(free.value), 0))
      && (k.faults == old(k.faults) && free.Some? && name !in old(k.State()).target ==> r.Success?)
  {
    ghost var s := k.State();
    var links := k.LinkList(Target);
    EnumeratedTables(links, k.State().target);
    var table := FindFreeRoutingTableID(links);
    if table.Failure? {
      return Failure(table.error);
    }
    assert table.value == FirstFree(TablesIn(s.target), 1).value;
    var index := k.State().nextIndex;
    var ok := k.LinkAdd(Target, name, Vrf(table.value), 0);
    if !ok {
      return Failure(VrfAddRefused(name));
    }
    AddedVrfAt(s, name, table.value);
    ok := k.Modify(Target, index, SetUp);
    if !ok {
      return Failure(VrfUpRefused(name));
    }
    assert name in k.State().target;
    return Success(k.State().target[name]);
  }

  /**
   * What setupVRF leaves in the namespace when it succeeds: an existing VRF of that name is
   * kept as it is; a same-named link of another kind is deleted first; otherwise a VRF is
   * created. None when there is no free routing table.
   */
  function VrfEnsured(s: KState, name: string): Option<KState> {
    if name in s.target && s.target[name].kind.Vrf? then Some(s)
    else
      var s1 := if name in s.target then Deleted(s, Target, s.target[name].index) else s;
      match FirstFree(TablesIn(s1.target), 1)
      case None => None
      case Some(table) => Some(CreatedVrf(s1, name, table))
  }

  /** After a successful setupVRF a VRF of that name is in the namespace, and a second call changes nothing. */
  lemma VrfEnsuredShape(s: KState, name: string)
    requires Consistent(s) && VrfEnsured(s, name).Some?
    ensures var t := VrfEnsured(s, name).value;
      && Consistent(t)
      && name in t.target && t.target[name].kind.Vrf?
      && (name in s.target && s.target[name].kind.Vrf? ==> t == s)
      && (name !in s.target ==> t.target[name].up && forall n :: n in s.target ==> t.target[n] == s.target[n])
      && VrfEnsured(t, name) == Some(t)
  {
    if !(name in s.target && s.target[name].kind.Vrf?) {
      var s1 := if name in s.target then Deleted(s, Target, s.target[name].index) else s;
      if name in s.target {
        DeletedConsistent(s, Target, s.target[name].index);
      }
      assert name !in s1.target;
      var table := FirstFree(TablesIn(s1.target), 1).value;
      CreatedVrfShape(s1, name, table);
      AddedConsistent(s1, Target, name, Vrf(table), 0);
      ModifiedConsistent(Added(s1, Target, name, Vrf(table), 0), Target, s1.nextIndex, SetUp);
    }
  }

  /** setupVRF: reuse the VRF of that name, or (re)create it. Returns the VRF. */
  method SetupVRF(k: Kernel, name: string) returns (r: Result<Link, VrfError>)
    requires k.Valid()
    modifies k
    ensures k.Valid() && k.faults >= old(k.faults)
    ensures r.Success? ==>
      VrfEnsured(old(k.State()), name) == Some(k.State()) && name in k.State().target && r.value == k.State().target[name]
    ensures k.faults == old(k.faults) && VrfEnsured(old(k.State()), name).Some? ==> r.Success?
    ensures VrfEnsured(old(k.State()), name).None? ==> r.Failure?
  {
    var link := k.LinkByName(Target, name);
    if link.Some? && link.value.kind.Vrf? {
      return Success(link.value);
    }
    ghost var s0 := k.State();
    if link.Some? {
      var ok := k.LinkDel(Target, link.value.index);
      if !ok {
        return Failure(VrfDelRefused(name));
      }
    }
    assert name !in k.State().target;
    r := CreateVRF(k, name);
  }
}
