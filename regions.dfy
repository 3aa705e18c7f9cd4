/**
 * The fixed region table SERVERS: for each region its display name (the
 * key of the dictionary), its DataCenterHint code and the host that is
 * probed, in declaration order (the order in which the Python dictionary
 * is iterated everywhere in the program).
 */
module Regions {
  import opened Wrappers

  /** The regions of SERVERS, one per key; the display name of each is Name. */
  datatype Server =
    | Auto | AustraliaEast | BrazilSouth | CentralUs | EastAsia | EastUs | JapanEast
    | NorthEurope | SouthAfricaNorth | SouthCentralUs | SouthEastAsia | UaeNorth
    | WestEurope | WestUs

  const AutoName: string := "Auto (Default)"
  const AutoCode: string := "default"

  /** The keys of SERVERS in declaration order. */
  const Servers: seq<Server> := [
    Auto, AustraliaEast, BrazilSouth, CentralUs, EastAsia, EastUs, JapanEast,
    NorthEurope, SouthAfricaNorth, SouthCentralUs, SouthEastAsia, UaeNorth,
    WestEurope, WestUs
  ]

  /** The key of a region in SERVERS, the name its row shows. No name is
      empty, so a name is always true as a Python condition. */
  function Name(s: Server): (name: string)
    ensures |name| > 0
  {
    match s
    case Auto => AutoName
    case AustraliaEast => "Australia East"
    case BrazilSouth => "Brazil South"
    case CentralUs => "Central US"
    case EastAsia => "East Asia"
    case EastUs => "East US"
    case JapanEast => "Japan East"
    case NorthEurope => "North Europe"
    case SouthAfricaNorth => "South Africa North"
    case SouthCentralUs => "South Central US"
    case SouthEastAsia => "South East Asia"
    case UaeNorth => "UAE North"
    case WestEurope => "West Europe"
    case WestUs => "West US"
  }

  /** SERVERS[name][0]: the DataCenterHint code written to the configuration;
      never empty. */
  function Code(s: Server): (code: string)
    ensures |code| > 0
  {
    match s
    case Auto => AutoCode
    case AustraliaEast => "playfab/australiaeast"
    case BrazilSouth => "playfab/brazilsouth"
    case CentralUs => "playfab/centralus"
    case EastAsia => "playfab/eastasia"
    case EastUs => "playfab/eastus"
    case JapanEast => "playfab/japaneast"
    case NorthEurope => "playfab/northeurope"
    case SouthAfricaNorth => "playfab/southafricanorth"
    case SouthCentralUs => "playfab/southcentralus"
    case SouthEastAsia => "playfab/southeastasia"
    case UaeNorth => "playfab/uaenorth"
    case WestEurope => "playfab/westeurope"
    case WestUs => "playfab/westus"
  }

  /** SERVERS[name][1]: the host probed for latency, none for Auto. */
  function Host(s: Server): (host: Option<string>)
    ensures host.None? <==> s == Auto
  {
    match s
    case Auto => None
    case AustraliaEast => Some("dynamodb.ap-southeast-2.amazonaws.com")
    case BrazilSouth => Some("dynamodb.sa-east-1.amazonaws.com")
    case CentralUs => Some("dynamodb.us-east-1.amazonaws.com")
    case EastAsia => Some("dynamodb.ap-east-1.amazonaws.com")
    case EastUs => Some("dynamodb.us-east-1.amazonaws.com")
    case JapanEast => Some("dynamodb.ap-northeast-1.amazonaws.com")
    case NorthEurope => Some("dynamodb.eu-north-1.amazonaws.com")
    case SouthAfricaNorth => Some("dynamodb.af-south-1.amazonaws.com")
    case SouthCentralUs => Some("dynamodb.us-east-2.amazonaws.com")
    case SouthEastAsia => Some("dynamodb.ap-southeast-1.amazonaws.com")
    case UaeNorth => Some("dynamodb.me-central-1.amazonaws.com")
    case WestEurope => Some("dynamodb.eu-west-2.amazonaws.com")
    case WestUs => Some("dynamodb.us-west-1.amazonaws.com")
  }

  predicate Distinct<T(==)>(s: seq<T>)
  {
    forall i, j :: 0 <= i < j < |s| ==> s[i] != s[j]
  }

  /** The position of a region's key in SERVERS. */
  function Position(s: Server): (i: nat)
    ensures i < |Servers| && Servers[i] == s
  {
    match s
    case Auto => 0
    case AustraliaEast => 1
    case BrazilSouth => 2
    case CentralUs => 3
    case EastAsia => 4
    case EastUs => 5
    case JapanEast => 6
    case NorthEurope => 7
    case SouthAfricaNorth => 8
    case SouthCentralUs => 9
    case SouthEastAsia => 10
    case UaeNorth => 11
    case WestEurope => 12
    case WestUs => 13
  }

  /** The table lists every region, Auto first. */
  lemma ServersListed()
    ensures |Servers| == 14 && Servers[0] == Auto
    ensures forall s :: s in Servers
  {
    forall s ensures s in Servers {
      assert Servers[Position(s)] == s;
    }
  }

  /** The table lists no region twice. */
  lemma ServersDistinct()
    ensures Distinct(Servers)
  {
  }

  /** The dictionary comprehension `{name: v for name in SERVERS}`: every
      region mapped to v. */
  function Everywhere<V>(v: V): (m: map<Server, V>)
    ensures forall s :: s in m && m[s] == v
  {
    ServersListed();
    map s | s in Servers :: v
  }

  /** No two regions share a display name: the dictionary's keys are distinct. */
  lemma NamesDistinct()
    ensures forall s, t :: Name(s) == Name(t) ==> s == t
  {
  }

  /** No two regions share a DataCenterHint code. */
  lemma CodesDistinct()
    ensures forall s, t :: Code(s) == Code(t) ==> s == t
  {
  }

  /**
   * The loop of load_current_server over SERVERS.items() from position
   * `from` on: the position of the first region whose code equals `hint`,
   * if any.
   */
  function FindCode(hint: string, from: nat): (r: Option<nat>)
    requires from <= |Servers|
    ensures r.Some? ==> from <= r.value < |Servers| && Code(Servers[r.value]) == hint
    ensures r.Some? ==> forall k :: from <= k < r.value ==> Code(Servers[k]) != hint
    ensures r.None? ==> forall k :: from <= k < |Servers| ==> Code(Servers[k]) != hint
    decreases |Servers| - from
  {
    if from == |Servers| then None
    else if Code(Servers[from]) == hint then Some(from)
    else FindCode(hint, from + 1)
  }

  /** When the loop finds no code equal to hint, no region has that code. */
  lemma NotFoundAnywhere(hint: string)
    requires FindCode(hint, 0).None?
    ensures forall s :: Code(s) != hint
  {
    forall s ensures Code(s) != hint {
      var k := Position(s);
      assert Code(Servers[k]) != hint;
    }
  }

  /** The region load_current_server selects for a stripped hint, if any. */
  function ServerWithCode(hint: string): (r: Option<Server>)
    ensures r.Some? ==> Code(r.value) == hint
    ensures r.None? ==> forall s :: Code(s) != hint
  {
    match FindCode(hint, 0)
    case Some(i) => Some(Servers[i])
    case None => NotFoundAnywhere(hint); None
  }

  /** Looking up a region's own code finds that region again. */
  lemma CodeSelectsServer(s: Server)
    ensures ServerWithCode(Code(s)) == Some(s)
  {
    CodesDistinct();
  }
}
