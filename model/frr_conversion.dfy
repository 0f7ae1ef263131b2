// Translation of the API objects into the BGP daemon's configuration model
// (internal/conversion/frr_conversion.go).
module FrrConversion {
  import opened Wrappers
  import opened Text
  import opened IPv4
  import opened Ipam
  import opened Api
  import opened FrrConfig
  import opened Collect

  const Second: int := 1_000_000_000

  /**
   * Go's integer division, which truncates toward zero: q * b is the multiple of b nearest
   * to a on the side of zero.
   */
  function TruncDiv(a: int, b: int): (q: int)
    requires b > 0
    ensures a >= 0 ==> q == a / b
    ensures a >= 0 ==> 0 <= q && q * b <= a < q * b + b
    ensures a < 0 ==> q <= 0 && a <= q * b < a + b
  {
    if a >= 0 then
      DivBounds(a, b);
      a / b
    else
      DivBounds(-a, b);
      -((-a) / b)
  }

  /** The quotient's multiple of the divisor is at most the dividend and within one divisor of it. */
  lemma DivBounds(n: int, b: int)
    requires n >= 0 && b > 0
    ensures 0 <= n / b && (n / b) * b <= n < (n / b) * b + b
  {
    assert n == (n / b) * b + n % b;
  }

  /**
   * Go's conversion of a signed value to uint64: the one value below 2^64 that is congruent
   * to x modulo 2^64.
   */
  function Uint64(x: int): (r: nat)
    ensures r < 0x1_0000_0000_0000_0000 && (x - r) % 0x1_0000_0000_0000_0000 == 0
    ensures 0 <= x < 0x1_0000_0000_0000_0000 ==> r == x
    ensures -0x1_0000_0000_0000_0000 <= x < 0 ==> r == x + 0x1_0000_0000_0000_0000
  {
    var m := 0x1_0000_0000_0000_0000;
    var r := x % m;
    assert x == (x / m) * m + r;
    assert x - r == (x / m) * m;
    r
  }

  datatype TimerError = OnlyOneTimer | HoldTimeTooShort(holdTime: Duration) | KeepaliveAboveHold(keepalive: Duration, hold: Duration)

  /**
   * parseTimers: both timers or neither; a hold time whose whole seconds are between 1 and
   * 2 (or negative) is refused, and so is a keepalive longer than the hold time; the result
   * is both timers in whole seconds.
   */
  function ParseTimers(ht: Option<Duration>, ka: Option<Duration>): (r: Result<(Option<nat>, Option<nat>), TimerError>)
    ensures ht.Some? != ka.Some? <==> r == Failure(OnlyOneTimer)
    ensures ht.None? && ka.None? <==> r == Success((None, None))
    ensures r.Success? && ht.Some? ==> r.value.0.Some? && r.value.1.Some?
    ensures ht.Some? && ka.Some? && ka.value > ht.value ==> r.Failure?
  {
    if (ht.None? && ka.Some?) || (ht.Some? && ka.None?) then Failure(OnlyOneTimer)
    else if ht.None? && ka.None? then Success((None, None))
    else
      var holdTime := ht.value;
      var keepaliveTime := ka.value;
      var rounded := TruncDiv(holdTime, Second) * Second;
      if rounded != 0 && rounded < 3 * Second then Failure(HoldTimeTooShort(holdTime))
      else if keepaliveTime > holdTime then Failure(KeepaliveAboveHold(keepaliveTime, holdTime))
      else
        var htSeconds := Uint64(TruncDiv(holdTime, Second));
        var kaSeconds := Uint64(TruncDiv(keepaliveTime, Second));
        Success((Some(htSeconds), Some(kaSeconds)))
  }

  lemma TruncDivBelow(a: Duration)
    requires 0 <= a
    ensures a / Second < 0x1_0000_0000_0000_0000
    ensures a / Second * Second <= a
  {
  }

  /**
   * An accepted hold time is 0 or at least 3 seconds (section 4.2 of RFC 4271), and a
   * non-negative keepalive is no longer than it, in whole seconds too.
   */
  lemma ParseTimersAccepted(ht: Duration, ka: Duration)
    requires ParseTimers(Some(ht), Some(ka)).Success?
    ensures var (h, k) := ParseTimers(Some(ht), Some(ka)).value;
      && (h.value == 0 || h.value >= 3)
      && (0 <= ka ==> k.value <= h.value)
  {
    var t := TruncDiv(ht, Second);
    if ht >= 0 {
      TruncDivBelow(ht);
      if 0 <= ka {
        TruncDivBelow(ka);
        assert ka / Second <= ht / Second;
      }
    }
  }

  /**
   * With both timers given: they are accepted exactly when the hold time rounds to 0 or to at
   * least 3 whole seconds and the keepalive is no longer than the hold time; the result is
   * each timer in whole seconds.
   */
  lemma ParseTimersValues(ht: Duration, ka: Duration)
    ensures var rounded := TruncDiv(ht, Second) * Second;
      ParseTimers(Some(ht), Some(ka)).Success? <==> (rounded == 0 || rounded >= 3 * Second) && ka <= ht
    ensures ka > ht ==> ParseTimers(Some(ht), Some(ka)) == Failure(
      if TruncDiv(ht, Second) * Second != 0 && TruncDiv(ht, Second) * Second < 3 * Second
      then HoldTimeTooShort(ht) else KeepaliveAboveHold(ka, ht))
    ensures ParseTimers(Some(ht), Some(ka)).Success? && 0 <= ka ==>
      ParseTimers(Some(ht), Some(ka)).value == (Some(ht / Second), Some(ka / Second))
    ensures ParseTimers(Some(ht), Some(ka)).Success? && ht < 0 ==>
      -Second < ht && ParseTimers(Some(ht), Some(ka)).value.0 == Some(0)
    ensures ParseTimers(Some(ht), Some(ka)).Success? && ka < 0 ==>
      ParseTimers(Some(ht), Some(ka)).value.1 ==
        Some(if -Second < ka then 0 else 0x1_0000_0000_0000_0000 - (-(ka as int)) / Second)
  {
    if ParseTimers(Some(ht), Some(ka)).Success? {
      if 0 <= ka {
        TruncDivBelow(ht);
        TruncDivBelow(ka);
      }
      if ht < 0 {
        NegativeHoldAccepted(ht);
      }
      if ka < 0 {
        NegativeWraps(ka);
      }
    }
  }

  /** A negative hold time passes the hold-time rule only when it is above minus one second. */
  lemma NegativeHoldAccepted(ht: Duration)
    requires ht < 0
    requires var rounded := TruncDiv(ht, Second) * Second; rounded == 0 || rounded >= 3 * Second
    ensures -Second < ht && TruncDiv(ht, Second) == 0
  {
  }

  /**
   * A negative duration converts to 0 whole seconds above minus one second, and otherwise
   * wraps around to 2^64 minus its whole seconds.
   */
  lemma NegativeWraps(d: Duration)
    requires d < 0
    ensures Uint64(TruncDiv(d, Second)) == if -Second < d then 0 else 0x1_0000_0000_0000_0000 - (-(d as int)) / Second
  {
    var q := TruncDiv(d, Second);
    assert q == -((-(d as int)) / Second);
    if -Second < d {
      assert (-(d as int)) / Second == 0;
    } else {
      assert (-(d as int)) / Second >= 1;
      assert (-(d as int)) / Second < 0x1_0000_0000_0000_0000;
    }
  }

  /** The hold-time rule refuses exactly the hold times of 1 or 2 whole seconds among non-negative ones. */
  lemma ParseTimersRefusesShortHold(ht: Duration, ka: Duration)
    requires 0 <= ka <= ht
    ensures ParseTimers(Some(ht), Some(ka)).Success? <==> !(Second <= ht < 3 * Second)
  {
    var t := TruncDiv(ht, Second);
    TruncDivBelow(ht);
    if Second <= ht < 3 * Second {
      assert t == 1 || t == 2;
    } else if ht < Second {
      assert t == 0;
    } else {
      assert t >= 3;
      assert t * Second >= 3 * Second;
    }
  }

  /** neighborName: the decimal AS number, an at-sign, then the address. */
  function NeighborName(n: Neighbor): string {
    NatToDec(n.asn) + "@" + n.address
  }

  /** The name splits at its first at-sign into the AS number's text and the address. */
  lemma NeighborNameParts(n: Neighbor)
    ensures var name := NeighborName(n);
      && '@' in name
      && var i := IndexOf(name, '@');
      Atoi(name[..i]) == Some(n.asn as int) && name[i + 1..] == n.address
  {
    var d := NatToDec(n.asn);
    var name := NeighborName(n);
    DecHasNoSeparator(n.asn, '@');
    IndexOfPrefix(d, "@" + n.address, '@');
    assert name == d + ("@" + n.address);
    assert name[..|d|] == d;
    assert name[|d| + 1..] == n.address;
    AtoiIntToDec(n.asn);
  }

  datatype NeighborError =
    | UnknownFamily(address: string)
    | MissingASN(address: string)
    | InvalidTimers(name: string, cause: TimerError)

  /**
   * neighborToFRR. The address family comes from `familyOf`, which stands for
   * ipfamily.ForAddresses and is None where that function fails.
   */
  function NeighborToFRR(n: Neighbor, familyOf: string -> Option<Family>): (r: Result<NeighborConfig, NeighborError>)
    ensures familyOf(n.address).None? ==> r == Failure(UnknownFamily(n.address))
    ensures familyOf(n.address).Some? && n.asn == 0 ==> r == Failure(MissingASN(n.address))
  {
    match familyOf(n.address)
    case None => Failure(UnknownFamily(n.address))
    case Some(neighborFamily) =>
      if n.asn == 0 then Failure(MissingASN(n.address))
      else
        var res := NeighborConfig(NeighborName(n), n.asn, n.address, n.port, None, None, None, "",
                                  n.bfdProfile, n.ebgpMultiHop, neighborFamily);
        match ParseTimers(n.holdTime, n.keepaliveTime)
        case Failure(e) => Failure(InvalidTimers(NeighborName(n), e))
        case Success((holdTime, keepaliveTime)) =>
          var res := res.(holdTime := holdTime, keepaliveTime := keepaliveTime);
          if n.connectTime.Some? then
            Success(res.(connectTime := Some(Uint64(TruncDiv(n.connectTime.value, Second)))))
          else Success(res)
  }

  /**
   * A translated neighbour keeps the AS, address, port, multihop flag and BFD profile, is
   * named by neighborName, carries the family found for its address and the parsed timers;
   * its ID is the API address.
   */
  lemma NeighborToFRRCopies(n: Neighbor, familyOf: string -> Option<Family>)
    ensures NeighborToFRR(n, familyOf).Success? <==>
      familyOf(n.address).Some? && n.asn != 0 && ParseTimers(n.holdTime, n.keepaliveTime).Success?
    ensures NeighborToFRR(n, familyOf).Success? ==>
      var c := NeighborToFRR(n, familyOf).value;
      && c.asn == n.asn && c.addr == n.address && ID(c) == n.address
      && c.port == n.port && c.ebgpMultiHop == n.ebgpMultiHop && c.bfdProfile == n.bfdProfile
      && c.name == NeighborName(n) && c.ipFamily == familyOf(n.address).value
      && (c.holdTime, c.keepaliveTime) == ParseTimers(n.holdTime, n.keepaliveTime).value
      && (n.connectTime.None? ==> c.connectTime.None?)
      && (n.connectTime.Some? && n.connectTime.value >= 0 ==> c.connectTime == Some(n.connectTime.value / Second))
  {
    if n.connectTime.Some? && n.connectTime.value >= 0 {
      TruncDivBelow(n.connectTime.value);
    }
  }

  datatype ConversionError =
    | TooManyUnderlays
    | NoUnderlays
    | NoVNIs
    | VTEPFailed(cidr: string, nodeIndex: int)
    | NeighborFailed(name: string, cause: NeighborError)
    | VNIFailed(vniName: string, vethError: IpamError, vni: VNI)

  /** The translation applied to each underlay neighbour. */
  function NeighborStep(familyOf: string -> Option<Family>): Neighbor -> Result<NeighborConfig, ConversionError> {
    n => TranslateNeighbor(n, familyOf)
  }

  /** The translation applied to each VNI. */
  function VNIStep(nodeIndex: int): VNI -> Result<VNIConfig, ConversionError> {
    v => VniToFRR(v, nodeIndex)
  }

  /** One underlay neighbour, its error labelled with the neighbour's name. */
  function TranslateNeighbor(n: Neighbor, familyOf: string -> Option<Family>): Result<NeighborConfig, ConversionError> {
    match NeighborToFRR(n, familyOf)
    case Failure(e) => Failure(NeighborFailed(NeighborName(n), e))
    case Success(c) => Success(c)
  }

  /**
   * vniToFRR: the per-VNI instance peers with the host leg of the VNI's veth pair, whose
   * address it also advertises as a /32.
   */
  function VniToFRR(vni: VNI, nodeIndex: int): (r: Result<VNIConfig, ConversionError>)
    ensures r.Success? <==> VethIPs(vni.spec.localCIDR, nodeIndex).Success?
  {
    match VethIPs(vni.spec.localCIDR, nodeIndex)
    case Failure(e) => Failure(VNIFailed(vni.name, e, vni))
    case Success(veths) =>
      var vniNeighbor := LocalNeighborConfig(FormatIP(veths.hostSide.ip), vni.spec.localASN);
      Success(VNIConfig(vni.spec.asn, Some(vniNeighbor), vni.spec.vrf, vni.spec.vni as int, [vniNeighbor.addr + "/32"]))
  }

  /**
   * The local neighbour's address reads back as the host-side veth address, its AS is the
   * VNI's local AS, and the single advertised prefix is that address as a /32.
   */
  lemma VniToFRRLocalNeighbor(vni: VNI, nodeIndex: int)
    requires VniToFRR(vni, nodeIndex).Success?
    ensures var c := VniToFRR(vni, nodeIndex).value;
      var host := VethIPs(vni.spec.localCIDR, nodeIndex).value.hostSide.ip;
      && c.localNeighbor.Some?
      && ParseIP(c.localNeighbor.value.addr) == Some(host)
      && c.localNeighbor.value.asn == vni.spec.localASN
      && |c.toAdvertise| == 1 && ParseAddr(c.toAdvertise[0]) == Some(IPNet(host, 32))
      && c.vni == vni.spec.vni as int && c.vrf == vni.spec.vrf && c.asn == vni.spec.asn
  {
    var host := VethIPs(vni.spec.localCIDR, nodeIndex).value.hostSide.ip;
    HostRouteText(host);
  }

  /** An address printed alone reads back as itself, and printed with "/32" as its host prefix. */
  lemma HostRouteText(ip: IP)
    ensures ParseIP(FormatIP(ip)) == Some(ip)
    ensures ParseAddr(FormatIP(ip) + "/32") == Some(IPNet(ip, 32))
  {
    ParseFormatIP(ip);
    ParseFormatCIDR(IPNet(ip, 32));
    Dec32();
    assert FormatCIDR(IPNet(ip, 32)) == FormatIP(ip) + "/32";
  }

  lemma Dec32()
    ensures NatToDec(32) == "32"
  {
    assert NatToDec(3) == "3";
  }

  /** The underlay part of the configuration, once the VTEP is known. */
  function UnderlayConfigFor(underlay: Underlay, vtep: IPNet, familyOf: string -> Option<Family>): Result<UnderlayConfig, ConversionError> {
    match MapAll(NeighborStep(familyOf), underlay.spec.neighbors)
    case Failure(e) => Failure(e)
    case Success(neighbors) => Success(UnderlayConfig(underlay.spec.asn, FormatCIDR(vtep), neighbors))
  }

  /** What APItoFRR returns for its inputs. */
  function FRRConfigFor(nodeIndex: int, underlays: seq<Underlay>, vnis: seq<VNI>, logLevel: string,
                        familyOf: string -> Option<Family>): Result<Config, ConversionError>
  {
    if |underlays| > 1 then Failure(TooManyUnderlays)
    else if |underlays| == 0 then Failure(NoUnderlays)
    else if |vnis| == 0 then Failure(NoVNIs)
    else
      var underlay := underlays[0];
      match VTEPAddress(underlay.spec.vtepCIDR, nodeIndex)
      case Failure(_) => Failure(VTEPFailed(underlay.spec.vtepCIDR, nodeIndex))
      case Success(vtep) =>
        match UnderlayConfigFor(underlay, vtep, familyOf)
        case Failure(e) => Failure(e)
        case Success(underlayConfig) =>
          match MapAll(VNIStep(nodeIndex), vnis)
          case Failure(e) => Failure(e)
          case Success(vniConfigs) => Success(Config(logLevel, "", underlayConfig, vniConfigs))
  }

  /** APItoFRR: validate the shape of the input, then translate the underlay and every VNI. */
  method APItoFRR(nodeIndex: int, underlays: seq<Underlay>, vnis: seq<VNI>, logLevel: string,
                  familyOf: string -> Option<Family>) returns (r: Result<Config, ConversionError>)
    ensures r == FRRConfigFor(nodeIndex, underlays, vnis, logLevel, familyOf)
  {
    if |underlays| > 1 {
      return Failure(TooManyUnderlays);
    }
    if |underlays| == 0 {
      return Failure(NoUnderlays);
    }
    if |vnis| == 0 {
      return Failure(NoVNIs);
    }
    var underlay := underlays[0];
    var vtepIP := VTEPIp(underlay.spec.vtepCIDR, nodeIndex);
    if vtepIP.Failure? {
      return Failure(VTEPFailed(underlay.spec.vtepCIDR, nodeIndex));
    }

    var neighbors := underlay.spec.neighbors;
    var translate := NeighborStep(familyOf);
    var underlayNeighbors: seq<NeighborConfig> := [];
    var i := 0;
    while i < |neighbors|
      invariant 0 <= i <= |neighbors|
      invariant MapAll(translate, neighbors[..i]) == Success(underlayNeighbors)
    {
      MapAllStep(translate, neighbors, i);
      var frrNeigh := NeighborToFRR(neighbors[i], familyOf);
      if frrNeigh.Failure? {
        MapAllPrefixFailure(translate, neighbors, i + 1);
        return Failure(NeighborFailed(NeighborName(neighbors[i]), frrNeigh.error));
      }
      underlayNeighbors := underlayNeighbors + [frrNeigh.value];
      i := i + 1;
    }
    assert neighbors[..i] == neighbors;
    var underlayConfig := UnderlayConfig(underlay.spec.asn, FormatCIDR(vtepIP.value), underlayNeighbors);

    var toVNI := VNIStep(nodeIndex);
    var vniConfigs: seq<VNIConfig> := [];
    var j := 0;
    while j < |vnis|
      invariant 0 <= j <= |vnis|
      invariant MapAll(toVNI, vnis[..j]) == Success(vniConfigs)
    {
      MapAllStep(toVNI, vnis, j);
      var frrVNI := VniToFRR(vnis[j], nodeIndex);
      if frrVNI.Failure? {
        MapAllPrefixFailure(toVNI, vnis, j + 1);
        return Failure(frrVNI.error);
      }
      vniConfigs := vniConfigs + [frrVNI.value];
      j := j + 1;
    }
    assert vnis[..j] == vnis;
    return Success(Config(logLevel, "", underlayConfig, vniConfigs));
  }

  /**
   * A successful conversion holds one neighbour per underlay neighbour and one VNI
   * instance per VNI, both in input order, the log level unchanged, no hostname, and the
   * node's VTEP address as a /31.
   */
  lemma FRRConfigShape(nodeIndex: int, underlays: seq<Underlay>, vnis: seq<VNI>, logLevel: string,
                       familyOf: string -> Option<Family>)
    requires FRRConfigFor(nodeIndex, underlays, vnis, logLevel, familyOf).Success?
    ensures var c := FRRConfigFor(nodeIndex, underlays, vnis, logLevel, familyOf).value;
      var spec := underlays[0].spec;
      && |underlays| == 1 && |vnis| > 0
      && c.loglevel == logLevel && c.hostname == "" && c.underlay.myASN == spec.asn
      && VTEPAddress(spec.vtepCIDR, nodeIndex).Success?
      && ParseAddr(c.underlay.vtep) == Some(VTEPAddress(spec.vtepCIDR, nodeIndex).value)
      && |c.underlay.neighbors| == |spec.neighbors|
      && (forall i :: 0 <= i < |spec.neighbors| ==> NeighborToFRR(spec.neighbors[i], familyOf).Success?)
      && (forall i :: 0 <= i < |spec.neighbors| ==>
            c.underlay.neighbors[i] == NeighborToFRR(spec.neighbors[i], familyOf).value)
      && |c.vnis| == |vnis|
      && (forall i :: 0 <= i < |vnis| ==> VniToFRR(vnis[i], nodeIndex).Success?)
      && (forall i :: 0 <= i < |vnis| ==> c.vnis[i] == VniToFRR(vnis[i], nodeIndex).value)
  {
    var spec := underlays[0].spec;
    var vtep := VTEPAddress(spec.vtepCIDR, nodeIndex).value;
    var translate := NeighborStep(familyOf);
    MapAllSuccess(translate, spec.neighbors);
    MapAllSuccess(VNIStep(nodeIndex), vnis);
    ParseFormatCIDR(vtep);
  }

  /** Neighbours are translated in order and the first one that fails aborts the conversion, naming it. */
  lemma FRRConfigNeighborFailure(nodeIndex: int, underlays: seq<Underlay>, vnis: seq<VNI>, logLevel: string,
                                 familyOf: string -> Option<Family>)
    requires |underlays| == 1 && |vnis| > 0
    requires VTEPAddress(underlays[0].spec.vtepCIDR, nodeIndex).Success?
    requires exists i :: 0 <= i < |underlays[0].spec.neighbors| && NeighborToFRR(underlays[0].spec.neighbors[i], familyOf).Failure?
    ensures var r := FRRConfigFor(nodeIndex, underlays, vnis, logLevel, familyOf);
      var ns := underlays[0].spec.neighbors;
      && r.Failure? && r.error.NeighborFailed?
      && exists i ::
           && 0 <= i < |ns| && NeighborToFRR(ns[i], familyOf).Failure?
           && r.error == NeighborFailed(NeighborName(ns[i]), NeighborToFRR(ns[i], familyOf).error)
           && forall j :: 0 <= j < i ==> NeighborToFRR(ns[j], familyOf).Success?
  {
    var ns := underlays[0].spec.neighbors;
    var translate := NeighborStep(familyOf);
    MapAllSuccess(translate, ns);
    MapAllFailure(translate, ns);
  }
}
