// Address derivation from a CIDR pool and a node index (internal/ipam/ipam.go).
// go-cidr's Host is modelled on the network address of the pool: host n of a pool of
// 2^(32-prefix) addresses is the network address plus n, and a negative n counts from
// the end of the pool.
module Ipam {
  import opened Wrappers
  import opened Text
  import opened IPv4

  datatype Veths = Veths(hostSide: IPNet, containerSide: IPNet)

  datatype IpamError =
    | BadPool(pool: string)
    | HostOutOfRange(pool: string, host: int)

  /** Number of addresses in a pool with this prefix length. */
  function BlockSize(prefix: nat): (r: nat)
    requires prefix <= 32
    ensures r >= 1
  {
    Pow2(32 - prefix)
  }

  /** A pool whose whole block of addresses lies in the IPv4 space. */
  predicate Fits(net: IPNet) {
    net.prefix <= 32 && net.ip + BlockSize(net.prefix) <= AddressCount
  }

  /** The pool network named by a CIDR text, as net.ParseCIDR returns it. */
  function ParsePool(pool: string): (r: Option<IPNet>)
    ensures r.Some? ==> Fits(r.value)
    ensures r.Some? <==> ParseCIDR(pool).Some?
  {
    match ParseCIDR(pool)
    case None => None
    case Some((ip, net)) =>
      NetworkRoom(ip, net.prefix);
      Some(net)
  }

  /** cidr.Host: the n-th address of the pool, or none when the pool has no such host. */
  function Host(net: IPNet, n: int): (r: Option<IP>)
    requires Fits(net)
    ensures r.Some? <==> InPool(net, n)
  {
    var size := BlockSize(net.prefix);
    if 0 <= n < size then Some(net.ip + n)
    else if -(size as int) <= n < 0 then Some(net.ip + size + n)
    else None
  }

  /** Host numbers the pool accepts: 0 up to its size, or counted back from its end. */
  predicate InPool(net: IPNet, n: int)
    requires net.prefix <= 32
  {
    -(BlockSize(net.prefix) as int) <= n < BlockSize(net.prefix)
  }

  /** The host number of entry `k` of the `index`-th block of `size` hosts. */
  function SliceHost(index: int, size: int, k: int): int {
    size * index + k
  }

  /** Non-negative host numbers in range name distinct addresses, all inside the pool. */
  lemma HostInjective(net: IPNet, a: int, b: int)
    requires Fits(net) && 0 <= a && 0 <= b
    requires Host(net, a).Some? && Host(net, b).Some?
    ensures net.ip <= Host(net, a).value < net.ip + BlockSize(net.prefix)
    ensures Host(net, a) == Host(net, b) <==> a == b
  {
  }

  /** cidrElem: host `index` of the pool, carried with a `mask`-bit prefix. */
  function CidrElem(pool: string, mask: nat, index: int): (r: Result<IPNet, IpamError>)
    ensures ParsePool(pool).None? ==> r == Failure(BadPool(pool))
    ensures ParsePool(pool).Some? ==>
      match Host(ParsePool(pool).value, index)
      case None => r == Failure(HostOutOfRange(pool, index))
      case Some(ip) => r == Success(IPNet(ip, mask))
  {
    match ParsePool(pool)
    case None => Failure(BadPool(pool))
    case Some(net) =>
      match Host(net, index)
      case None => Failure(HostOutOfRange(pool, index))
      case Some(ip) => Success(IPNet(ip, mask))
  }

  /** VethIPs: the container side is host 0, the host side host index+1, both with the pool's prefix. */
  function VethIPs(pool: string, index: int): (r: Result<Veths, IpamError>)
    ensures ParsePool(pool).None? ==> r == Failure(BadPool(pool))
    ensures ParsePool(pool).Some? ==>
      var net := ParsePool(pool).value;
      (r.Success? <==> InPool(net, index + 1))
      && (r.Success? ==> r.value.containerSide == net
                         && r.value.hostSide == IPNet(Host(net, index + 1).value, net.prefix))
  {
    match ParsePool(pool)
    case None => Failure(BadPool(pool))
    case Some(net) =>
      var ones := net.prefix;
      match CidrElem(pool, ones, 0)
      case Failure(e) => Failure(e)
      case Success(peSide) =>
        match CidrElem(pool, ones, index + 1)
        case Failure(e) => Failure(e)
        case Success(hostSide) => Success(Veths(hostSide, peSide))
  }

  /** For a non-negative node index the two legs differ, and distinct nodes get distinct host legs. */
  lemma VethIPsDistinct(pool: string, i: int, j: int)
    requires 0 <= i && 0 <= j
    requires VethIPs(pool, i).Success? && VethIPs(pool, j).Success?
    ensures VethIPs(pool, i).value.hostSide.ip != VethIPs(pool, i).value.containerSide.ip
    ensures i != j ==> VethIPs(pool, i).value.hostSide != VethIPs(pool, j).value.hostSide
  {
    var net := ParsePool(pool).value;
    HostInjective(net, i + 1, j + 1);
    HostInjective(net, 0, i + 1);
  }

  /** The VTEP address of node `index`: host `index` of the pool with a /31 prefix. */
  function VTEPAddress(pool: string, index: int): (r: Result<IPNet, IpamError>)
    ensures ParsePool(pool).None? ==> r == Failure(BadPool(pool))
    ensures ParsePool(pool).Some? ==>
      && (r.Success? <==> InPool(ParsePool(pool).value, index))
      && (r.Failure? ==> r.error == HostOutOfRange(pool, index))
    ensures r.Success? ==> r.value.prefix == 31 && Some(r.value.ip) == Host(ParsePool(pool).value, index)
  {
    match ParsePool(pool)
    case None => Failure(BadPool(pool))
    case Some(net) =>
      match Host(net, index)
      case None => Failure(HostOutOfRange(pool, index))
      case Some(ip) => Success(IPNet(ip, 31))
  }

  /** Distinct non-negative node indices get distinct VTEP addresses from one pool. */
  lemma VTEPAddressInjective(pool: string, i: int, j: int)
    requires 0 <= i && 0 <= j
    requires VTEPAddress(pool, i).Success? && VTEPAddress(pool, j).Success?
    ensures VTEPAddress(pool, i) == VTEPAddress(pool, j) <==> i == j
  {
    HostInjective(ParsePool(pool).value, i, j);
  }

  /** The outcome sliceCIDR promises for a parsed pool, given the result it returned. */
  predicate SliceOutcome(pool: string, net: IPNet, index: int, size: int, r: Result<seq<IPNet>, IpamError>)
    requires Fits(net)
  {
    (r.Success? <==> forall k :: 0 <= k < size ==> Host(net, SliceHost(index, size, k)).Some?)
    && (r.Success? ==>
          |r.value| == (if size > 0 then size else 0)
          && forall k :: 0 <= k < |r.value| ==> r.value[k] == IPNet(Host(net, SliceHost(index, size, k)).value, 31))
    && (r.Failure? ==>
          exists k :: 0 <= k < size && r.error == HostOutOfRange(pool, SliceHost(index, size, k))
            && Host(net, SliceHost(index, size, k)).None?
            && forall j :: 0 <= j < k ==> Host(net, SliceHost(index, size, j)).Some?)
  }

  /**
   * sliceCIDR: the `index`-th block of `size` consecutive hosts of the pool, each with a /31
   * prefix, in order; the first host outside the pool aborts with no partial result.
   */
  method SliceCIDR(pool: string, index: int, size: int) returns (r: Result<seq<IPNet>, IpamError>)
    ensures ParsePool(pool).None? ==> r == Failure(BadPool(pool))
    ensures ParsePool(pool).Some? ==> SliceOutcome(pool, ParsePool(pool).value, index, size, r)
  {
    var parsed := ParsePool(pool);
    if parsed.None? {
      return Failure(BadPool(pool));
    }
    r := SliceHosts(pool, parsed.value, index, size);
  }

  method SliceHosts(pool: string, net: IPNet, index: int, size: int) returns (r: Result<seq<IPNet>, IpamError>)
    requires Fits(net)
    ensures SliceOutcome(pool, net, index, size, r)
  {
    var res: seq<IPNet> := [];
    var i := 0;
    while i < size
      invariant 0 <= i <= (if size > 0 then size else 0)
      invariant |res| == i
      invariant forall k :: 0 <= k < i ==> Host(net, SliceHost(index, size, k)).Some?
      invariant forall k :: 0 <= k < i ==> res[k] == IPNet(Host(net, SliceHost(index, size, k)).value, 31)
    {
      var ipIndex := SliceHost(index, size, i);
      var ip := Host(net, ipIndex);
      if ip.None? {
        return Failure(HostOutOfRange(pool, ipIndex));
      }
      res := res + [IPNet(ip.value, 31)];
      i := i + 1;
    }
    return Success(res);
  }

  /** VTEPIp: the single entry of the node's one-address slice. */
  method VTEPIp(pool: string, index: int) returns (r: Result<IPNet, IpamError>)
    ensures r == VTEPAddress(pool, index)
  {
    var ips := SliceCIDR(pool, index, 1);
    assert SliceHost(index, 1, 0) == index;
    if ips.Failure? {
      return Failure(ips.error);
    }
    if |ips.value| != 1 {
      return Failure(HostOutOfRange(pool, index));
    }
    return Success(ips.value[0]);
  }

  /** IPsInCIDR: the number of addresses of the pool. */
  function IPsInCIDR(pool: string): (r: Result<nat, IpamError>)
    ensures r.Success? <==> ParsePool(pool).Some?
    ensures r.Failure? ==> r.error == BadPool(pool)
  {
    match ParsePool(pool)
    case None => Failure(BadPool(pool))
    case Some(net) => Success(AddressCountOf(net))
  }

  /** cidr.AddressCount for an IPv4 pool. */
  function AddressCountOf(net: IPNet): nat
    requires net.prefix <= 32
  {
    Pow2(32 - net.prefix)
  }

  /** The count is exactly the number of non-negative host numbers the pool accepts. */
  lemma IPsInCIDRCountsHosts(pool: string, n: int)
    requires IPsInCIDR(pool).Success? && 0 <= n
    ensures Host(ParsePool(pool).value, n).Some? <==> n < IPsInCIDR(pool).value
  {
    var net := ParsePool(pool).value;
    assert IPsInCIDR(pool).value == BlockSize(net.prefix);
    assert Host(net, n).Some? <==> InPool(net, n);
  }

  /** A pool of prefix p holds 2^(32-p) addresses: 256 for a /24, 2 for a /31, 1 for a /32. */
  lemma IPsInCIDRPowers(pool: string)
    requires IPsInCIDR(pool).Success?
    ensures var p := ParsePool(pool).value.prefix;
      IPsInCIDR(pool).value == Pow2(32 - p)
      && (p == 24 ==> IPsInCIDR(pool).value == 256)
      && (p == 31 ==> IPsInCIDR(pool).value == 2)
      && (p == 32 ==> IPsInCIDR(pool).value == 1)
  {
    var p := ParsePool(pool).value.prefix;
    if p == 24 {
      assert Pow2(8) == 256;
    }
  }
}
