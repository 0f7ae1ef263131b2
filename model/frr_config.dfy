// The BGP daemon's configuration model and the pure helpers the configuration template
// calls (internal/frr/config.go).
module FrrConfig {
  import opened Wrappers
  import opened Api

  /** ipfamily.Family: a string type whose zero value is the empty string. */
  datatype Family = Unset | IPv4 | IPv6 | DualStack

  function FamilyString(f: Family): string {
    match f
    case Unset => ""
    case IPv4 => "ipv4"
    case IPv6 => "ipv6"
    case DualStack => "dual"
  }

  /** Distinct families have distinct names. */
  lemma FamilyStringInjective(f: Family, g: Family)
    ensures FamilyString(f) == FamilyString(g) <==> f == g
  {
    if f != g {
      assert FamilyString(f) != FamilyString(g) by {
        if |FamilyString(f)| == |FamilyString(g)| && |FamilyString(f)| == 4 {
          assert FamilyString(f)[3] != FamilyString(g)[3];
        }
      }
    }
  }

  datatype NeighborConfig = NeighborConfig(
    name: string,
    asn: Uint32,
    addr: string,
    port: Option<Uint16>,
    holdTime: Option<nat>,
    keepaliveTime: Option<nat>,
    connectTime: Option<nat>,
    password: string,
    bfdProfile: string,
    ebgpMultiHop: bool,
    ipFamily: Family)

  /** A neighbour record with every field at Go's zero value but the address and the AS. */
  function LocalNeighborConfig(addr: string, asn: Uint32): NeighborConfig {
    NeighborConfig("", asn, addr, None, None, None, None, "", "", false, Unset)
  }

  datatype UnderlayConfig = UnderlayConfig(myASN: Uint32, vtep: string, neighbors: seq<NeighborConfig>)

  /** A per-VNI BGP instance; `toAdvertise` is set by the conversion code, not declared in VNIConfig. */
  datatype VNIConfig = VNIConfig(
    asn: Uint32,
    localNeighbor: Option<NeighborConfig>,
    vrf: string,
    vni: int,
    toAdvertise: seq<string>)

  datatype Config = Config(loglevel: string, hostname: string, underlay: UnderlayConfig, vnis: seq<VNIConfig>)

  /** NeighborConfig.ID: the neighbour is identified by its address text. */
  function ID(n: NeighborConfig): string {
    n.addr
  }

  /** Two neighbours share an ID exactly when they share an address. */
  lemma IDIdentifiesAddress(n: NeighborConfig, m: NeighborConfig)
    ensures ID(n) == ID(m) <==> n.addr == m.addr
  {
  }

  /**
   * mustDisableConnectedCheck: the template disables the connected check only for
   * single-hop eBGP sessions over IPv6.
   */
  function MustDisableConnectedCheck(ipFamily: Family, myASN: Uint32, asn: Uint32, ebgpMultiHop: bool): (r: bool)
    ensures r <==> ipFamily == IPv6 && myASN != asn && !ebgpMultiHop
  {
    FamilyStringInjective(ipFamily, IPv6);
    if FamilyString(ipFamily) == "ipv6" && myASN != asn && !ebgpMultiHop then true else false
  }

  /** activateNeighborFor: a neighbour is activated in the address family named like its own. */
  function ActivateNeighborFor(ipFamily: string, neighbourFamily: Family): (r: bool) {
    FamilyString(neighbourFamily) == ipFamily
  }

  /** Each neighbour family is activated in exactly one address-family section, and an unset family in none of them. */
  lemma ActivateNeighborForOneSection(f: Family)
    ensures ActivateNeighborFor("ipv4", f) <==> f == IPv4
    ensures ActivateNeighborFor("ipv6", f) <==> f == IPv6
    ensures ActivateNeighborFor("dual", f) <==> f == DualStack
  {
    FamilyStringInjective(f, IPv4);
    FamilyStringInjective(f, IPv6);
    FamilyStringInjective(f, DualStack);
  }

  /** A template argument: a string, or any other value. */
  datatype Value = Str(text: string) | Other(repr: string)

  datatype DictError = OddArgumentCount | NonStringKey(position: nat)

  /** The map built from the first `n` key/value pairs, later pairs overwriting earlier ones. */
  function DictPrefix(values: seq<Value>, n: nat): Result<map<string, Value>, DictError>
    requires 2 * n <= |values|
  {
    if n == 0 then Success(map[])
    else
      match DictPrefix(values, n - 1)
      case Failure(e) => Failure(e)
      case Success(m) =>
        var key := values[2 * n - 2];
        if key.Str? then Success(m[key.text := values[2 * n - 1]])
        else Failure(NonStringKey(2 * n - 2))
  }

  /** What the `dict` template function returns for its arguments. */
  function DictOf(values: seq<Value>): Result<map<string, Value>, DictError> {
    if |values| % 2 != 0 then Failure(OddArgumentCount)
    else DictPrefix(values, |values| / 2)
  }

  /** The `dict` template function: alternate keys and values into a map. */
  method Dict(values: seq<Value>) returns (r: Result<map<string, Value>, DictError>)
    ensures r == DictOf(values)
  {
    if |values| % 2 != 0 {
      return Failure(OddArgumentCount);
    }
    var dict: map<string, Value> := map[];
    var i := 0;
    while i < |values|
      invariant i % 2 == 0 && i <= |values|
      invariant DictPrefix(values, i / 2) == Success(dict)
    {
      var key := values[i];
      if !key.Str? {
        assert DictPrefix(values, i / 2 + 1) == Failure(NonStringKey(i));
        DictPrefixFailure(values, i / 2 + 1, |values| / 2);
        return Failure(NonStringKey(i));
      }
      dict := dict[key.text := values[i + 1]];
      i := i + 2;
    }
    return Success(dict);
  }

  lemma {:induction false} DictPrefixFailure(values: seq<Value>, n: nat, total: nat)
    requires n <= total && 2 * total <= |values| && DictPrefix(values, n).Failure?
    ensures DictPrefix(values, total) == DictPrefix(values, n)
    decreases total - n
  {
    if n < total {
      DictPrefixFailure(values, n + 1, total);
    }
  }

  /** The map is built exactly when there are no non-string keys among the first `n` pairs. */
  lemma {:induction false} DictPrefixSuccess(values: seq<Value>, n: nat)
    requires 2 * n <= |values|
    ensures DictPrefix(values, n).Success? <==> forall p :: 0 <= p < n ==> values[2 * p].Str?
    ensures DictPrefix(values, n).Success? ==>
      forall k :: k in DictPrefix(values, n).value <==> exists p :: 0 <= p < n && values[2 * p] == Str(k)
    decreases n
  {
    if n > 0 {
      DictPrefixSuccess(values, n - 1);
      assert 2 * n - 2 == 2 * (n - 1);
      assert (forall p :: 0 <= p < n ==> values[2 * p].Str?) <==>
        (forall p :: 0 <= p < n - 1 ==> values[2 * p].Str?) && values[2 * (n - 1)].Str?;
      if DictPrefix(values, n).Success? {
        var m := DictPrefix(values, n).value;
        forall k | k in m
          ensures exists p :: 0 <= p < n && values[2 * p] == Str(k)
        {
          if values[2 * (n - 1)] != Str(k) {
            var p :| 0 <= p < n - 1 && values[2 * p] == Str(k);
          }
        }
      }
    }
  }

  /** Each key maps to the value paired with its last occurrence. */
  lemma {:induction false} DictPrefixLastWins(values: seq<Value>, n: nat, p: nat, k: string)
    requires 2 * n <= |values| && DictPrefix(values, n).Success?
    requires p < n && values[2 * p] == Str(k)
    requires forall q :: p < q < n ==> values[2 * q] != Str(k)
    ensures k in DictPrefix(values, n).value && DictPrefix(values, n).value[k] == values[2 * p + 1]
    decreases n
  {
    if p < n - 1 {
      assert DictPrefix(values, n - 1).Success?;
      DictPrefixLastWins(values, n - 1, p, k);
      assert values[2 * (n - 1)] != Str(k);
    }
  }

  /**
   * `dict` succeeds exactly on an even argument list whose keys are all strings; the map's
   * keys are those strings and each one carries the value that follows its last occurrence.
   */
  lemma DictOfMeaning(values: seq<Value>)
    ensures DictOf(values).Success? <==>
      |values| % 2 == 0 && forall p :: 0 <= p < |values| / 2 ==> values[2 * p].Str?
    ensures DictOf(values).Success? ==>
      forall k :: k in DictOf(values).value <==> exists p :: 0 <= p < |values| / 2 && values[2 * p] == Str(k)
  {
    if |values| % 2 == 0 {
      DictPrefixSuccess(values, |values| / 2);
    }
  }

  lemma DictOfLastWins(values: seq<Value>, p: nat, k: string)
    requires DictOf(values).Success?
    requires p < |values| / 2 && values[2 * p] == Str(k)
    requires forall q :: p < q < |values| / 2 ==> values[2 * q] != Str(k)
    ensures k in DictOf(values).value && DictOf(values).value[k] == values[2 * p + 1]
  {
    DictPrefixLastWins(values, |values| / 2, p, k);
  }
}
