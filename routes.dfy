/**
 * Static routes (app/modules/static_routes): reading the routes out of the
 * "protocols static" configuration, the set and delete paths of one route,
 * the route validator, and the create, update and delete handlers up to the
 * device call.
 *
 * A route is a (destination, next hop) pair; its description lives at the
 * destination level, so every next hop of a destination shares it.
 */
module StaticRoutes {
  import opened Wrappers
  import opened Text
  import opened ConfigTree
  import opened Paths
  import opened Device
  import opened Ipv4

  /** One entry of the route list: {"destination", "next_hop", "description"}. */
  datatype Route = Route(destination: string, nextHop: string, description: Node)

  // ---------------------------------------------------------------------------
  // parse_static_routes

  /** route_data.get('description', ''). */
  function RouteDescription(routeData: Entries): Node
  {
    Lookup(routeData, "description").GetOr(Leaf(""))
  }

  /** The routes of one destination: one per next-hop key, in order, all with the destination's description. */
  function HopRoutes(destination: string, hops: Entries, description: Node): (r: seq<Route>)
    ensures |r| == |hops|
    ensures forall i :: 0 <= i < |hops| ==> r[i] == Route(destination, hops[i].0, description)
  {
    seq(|hops|, i requires 0 <= i < |hops| => Route(destination, hops[i].0, description))
  }

  /**
   * The routes of the destinations of `routeCfg`, in order. A destination
   * whose value is not a dict or has no "next-hop" is skipped; a "next-hop"
   * value that is not a dict makes .items() raise, which is None here.
   */
  function RoutesOf(routeCfg: Entries): (r: Option<seq<Route>>)
  {
    if routeCfg == [] then Some([])
    else
      match RoutesOf(routeCfg[..|routeCfg| - 1])
      case None => Option.None
      case Some(init) =>
        var (destination, routeData) := routeCfg[|routeCfg| - 1];
        if !routeData.Map? || Lookup(routeData.entries, "next-hop").None? then Some(init)
        else
          match Lookup(routeData.entries, "next-hop").value
          case Map(hops) => Some(init + HopRoutes(destination, hops, RouteDescription(routeData.entries)))
          case _ => Option.None
  }

  /**
   * parse_static_routes: [] for an empty configuration or one without "route";
   * None when a value it calls .items() on is not a dict.
   */
  function ParseStaticRoutesSpec(config: Entries): (r: Option<seq<Route>>)
    ensures config == [] || Lookup(config, "route").None? ==> r == Some([])
  {
    if config == [] || Lookup(config, "route").None? then Some([])
    else
      match Lookup(config, "route").value
      case Map(routeCfg) => RoutesOf(routeCfg)
      case _ => Option.None
  }

  /** The destination entry `i` of `routeCfg` lists `r`: it has a next-hop dict holding r's next hop. */
  predicate ListedAt(routeCfg: Entries, i: int, r: Route)
  {
    0 <= i < |routeCfg| && routeCfg[i].0 == r.destination && routeCfg[i].1.Map? &&
    Lookup(routeCfg[i].1.entries, "next-hop").Some? &&
    Lookup(routeCfg[i].1.entries, "next-hop").value.Map? &&
    r.nextHop in Keys(Lookup(routeCfg[i].1.entries, "next-hop").value.entries) &&
    r.description == RouteDescription(routeCfg[i].1.entries)
  }

  lemma ListedAtInit(routeCfg: Entries, i: int, r: Route)
    requires routeCfg != [] && 0 <= i < |routeCfg| - 1
    ensures ListedAt(routeCfg[..|routeCfg| - 1], i, r) <==> ListedAt(routeCfg, i, r)
  {
    assert routeCfg[..|routeCfg| - 1][i] == routeCfg[i];
  }

  /**
   * A route is listed exactly when some destination entry has a "next-hop"
   * dict holding its next hop, and it then carries that destination's
   * description; destinations without next hops contribute nothing.
   */
  lemma {:induction false} RoutesOfMembers(routeCfg: Entries, r: Route)
    requires RoutesOf(routeCfg).Some?
    ensures r in RoutesOf(routeCfg).value <==> exists i :: ListedAt(routeCfg, i, r)
  {
    if routeCfg != [] {
      var n := |routeCfg| - 1;
      var init := routeCfg[..n];
      RoutesOfMembers(init, r);
      var (destination, routeData) := routeCfg[n];
      forall i | 0 <= i < n ensures ListedAt(init, i, r) <==> ListedAt(routeCfg, i, r) {
        ListedAtInit(routeCfg, i, r);
      }
      if routeData.Map? && Lookup(routeData.entries, "next-hop").Some? {
        var hops := Lookup(routeData.entries, "next-hop").value.entries;
        var more := HopRoutes(destination, hops, RouteDescription(routeData.entries));
        assert RoutesOf(routeCfg).value == RoutesOf(init).value + more;
        if ListedAt(routeCfg, n, r) {
          var j :| 0 <= j < |hops| && hops[j].0 == r.nextHop;
          assert more[j] == r;
        }
        if r in more {
          var j :| 0 <= j < |more| && more[j] == r;
          assert Keys(hops)[j] == r.nextHop;
          assert ListedAt(routeCfg, n, r);
        }
      }
    }
  }

  /** There is one route per next hop: the count is the total number of next-hop keys. */
  function HopCount(routeCfg: Entries): nat
  {
    if routeCfg == [] then 0
    else
      var routeData := routeCfg[|routeCfg| - 1].1;
      HopCount(routeCfg[..|routeCfg| - 1]) +
        if routeData.Map? && Lookup(routeData.entries, "next-hop").Some? && Lookup(routeData.entries, "next-hop").value.Map?
        then |Lookup(routeData.entries, "next-hop").value.entries| else 0
  }

  lemma {:induction false} RoutesOfCount(routeCfg: Entries)
    requires RoutesOf(routeCfg).Some?
    ensures |RoutesOf(routeCfg).value| == HopCount(routeCfg)
  {
    if routeCfg != [] {
      RoutesOfCount(routeCfg[..|routeCfg| - 1]);
    }
  }

  /** The inner loop: one route per next hop of a destination. */
  method CollectHops(destination: string, hops: Entries, description: Node) returns (routes: seq<Route>)
    ensures routes == HopRoutes(destination, hops, description)
  {
    routes := [];
    var j := 0;
    while j < |hops|
      invariant 0 <= j <= |hops|
      invariant routes == HopRoutes(destination, hops[..j], description)
    {
      routes := routes + [Route(destination, hops[j].0, description)];
      j := j + 1;
    }
    assert hops[..j] == hops;
  }

  lemma RoutesOfSnoc(routeCfg: Entries, i: int)
    requires 0 <= i < |routeCfg|
    ensures routeCfg[..i + 1][..i] == routeCfg[..i] && routeCfg[..i + 1][i] == routeCfg[i]
  {
  }

  /** Once a prefix of the destinations makes the parse raise, the whole does. */
  lemma {:induction false} RoutesOfNoneExtends(routeCfg: Entries, i: int)
    requires 0 <= i <= |routeCfg| && RoutesOf(routeCfg[..i]).None?
    ensures RoutesOf(routeCfg).None?
    decreases |routeCfg|
  {
    if |routeCfg| == i {
      assert routeCfg[..i] == routeCfg;
    } else {
      var init := routeCfg[..|routeCfg| - 1];
      assert init[..i] == routeCfg[..i];
      RoutesOfNoneExtends(init, i);
    }
  }

  /** parse_static_routes as the view runs it: the outer loop over destinations. */
  method ParseStaticRoutes(config: Entries) returns (routes: Option<seq<Route>>)
    ensures routes == ParseStaticRoutesSpec(config)
  {
    if config == [] || Lookup(config, "route").None? {
      return Some([]);
    }
    var routeNode := Lookup(config, "route").value;
    if !routeNode.Map? {
      return Option.None;
    }
    var routeCfg := routeNode.entries;
    var acc: seq<Route> := [];
    var i := 0;
    while i < |routeCfg|
      invariant 0 <= i <= |routeCfg|
      invariant RoutesOf(routeCfg[..i]) == Some(acc)
    {
      RoutesOfSnoc(routeCfg, i);
      var (destination, routeData) := routeCfg[i];
      if routeData.Map? && Lookup(routeData.entries, "next-hop").Some? {
        var hops := Lookup(routeData.entries, "next-hop").value;
        if !hops.Map? {
          RoutesOfNoneExtends(routeCfg, i + 1);
          return Option.None;
        }
        var more := CollectHops(destination, hops.entries, RouteDescription(routeData.entries));
        acc := acc + more;
      }
      i := i + 1;
    }
    assert routeCfg[..i] == routeCfg;
    return Some(acc);
  }

  // ---------------------------------------------------------------------------
  // build_route_set_commands / build_route_delete_commands

  function RouteRoot(destination: string): Path
  {
    ["protocols", "static", "route", destination]
  }

  function NextHopPath(destination: string, nextHop: string): Path
  {
    RouteRoot(destination) + ["next-hop", nextHop]
  }

  function DescriptionPath(destination: string, description: string): Path
  {
    RouteRoot(destination) + ["description", description]
  }

  /** build_route_set_commands: the next-hop path, then the description path when there is one. */
  function BuildRouteSetCommands(destination: string, nextHop: string, description: string): (r: seq<Path>)
    ensures r != [] && r[0] == NextHopPath(destination, nextHop)
    ensures description == [] ==> r == [NextHopPath(destination, nextHop)]
    ensures description != [] ==> r == [NextHopPath(destination, nextHop), DescriptionPath(destination, description)]
    ensures AllUnder(r, RouteRoot(destination))
  {
    var commands := [NextHopPath(destination, nextHop)];
    if description != [] then commands + [DescriptionPath(destination, description)] else commands
  }

  /** build_route_delete_commands: only the one next-hop path. */
  function BuildRouteDeleteCommands(destination: string, nextHop: string): (r: seq<Path>)
    ensures r == [NextHopPath(destination, nextHop)]
  {
    [NextHopPath(destination, nextHop)]
  }

  /** Two next-hop paths are equal, or neither lies below the other. */
  lemma NextHopPathsApart(d1: string, h1: string, d2: string, h2: string)
    ensures HasPrefix(NextHopPath(d1, h1), NextHopPath(d2, h2)) <==> d1 == d2 && h1 == h2
  {
    if HasPrefix(NextHopPath(d1, h1), NextHopPath(d2, h2)) {
      assert NextHopPath(d1, h1)[3] == d2 && NextHopPath(d1, h1)[5] == h2;
    }
  }

  /**
   * Deleting a route removes its next hop and everything below it, and
   * nothing else: the destination's description and its other next hops stay.
   */
  lemma DeleteRemovesOnlyTheHop(store: Store, destination: string, nextHop: string)
    ensures var after := Run(store, Deletes(BuildRouteDeleteCommands(destination, nextHop)));
      NextHopPath(destination, nextHop) !in after &&
      forall q :: q in store && !HasPrefix(q, NextHopPath(destination, nextHop)) ==> q in after
  {
    RunDeletes(store, BuildRouteDeleteCommands(destination, nextHop));
    assert HasPrefix(NextHopPath(destination, nextHop), NextHopPath(destination, nextHop));
  }

  /** Setting a route and then deleting it takes its next hop away again, but leaves its description. */
  lemma SetThenDeleteRoute(store: Store, destination: string, nextHop: string, description: string)
    requires description != []
    ensures var after := Run(Run(store, Sets(BuildRouteSetCommands(destination, nextHop, description))),
                             Deletes(BuildRouteDeleteCommands(destination, nextHop)));
      NextHopPath(destination, nextHop) !in after && DescriptionPath(destination, description) in after
  {
    var set1 := Run(store, Sets(BuildRouteSetCommands(destination, nextHop, description)));
    RunSets(store, BuildRouteSetCommands(destination, nextHop, description));
    assert DescriptionPath(destination, description) in set1;
    DeleteRemovesOnlyTheHop(set1, destination, nextHop);
    assert DescriptionPath(destination, description)[4] == "description";
  }

  // ---------------------------------------------------------------------------
  // validate_route

  /** The next-hop pattern ^(\d{1,3}\.){3}\d{1,3}$, without the final-newline allowance. */
  function QuadShape(s: string): (r: Option<seq<string>>)
    ensures r.Some? ==> |r.value| == 4 && forall i :: 0 <= i < 4 ==> DigitRun(r.value[i], 3)
  {
    var parts := Split(s, '.');
    if |parts| == 4 && forall i :: 0 <= i < 4 ==> DigitRun(parts[i], 3) then Some(parts) else Option.None
  }

  /** re.match of the next-hop pattern: as above, or on the text without one final newline. */
  function PyQuadMatch(s: string): (r: Option<seq<string>>)
    ensures r.Some? ==> |r.value| == 4 && forall i :: 0 <= i < 4 ==> DigitRun(r.value[i], 3)
  {
    if |s| > 0 && s[|s| - 1] == '\n' then QuadShape(s[..|s| - 1]) else QuadShape(s)
  }

  predicate OctetsInRange(octets: seq<string>)
    requires |octets| == 4 && forall i :: 0 <= i < 4 ==> AllDigits(octets[i])
  {
    forall i :: 0 <= i < 4 ==> DigitsValue(octets[i]) <= 255
  }

  /**
   * validate_route: the destination pattern, its octets, its prefix length,
   * then the next-hop pattern and its octets; the first failure's message, or
   * None when the route is valid. int() ignores the newline the pattern lets
   * through, so the values are those of the digit runs.
   */
  function ValidateRoute(destination: string, nextHop: string): (r: Option<string>)
  {
    match PyCidrMatch(destination)
    case None => Some("Invalid destination format. Use CIDR notation (e.g., 0.0.0.0/0)")
    case Some(x) =>
      if !OctetsInRange(x.octets) then Some("Invalid IP address in destination")
      else if DigitsValue(x.prefix) > 32 then Some("Invalid prefix length. Must be between 0 and 32")
      else
        match PyQuadMatch(nextHop)
        case None => Some("Invalid next-hop IP address format")
        case Some(q) =>
          if !OctetsInRange(q) then Some("Invalid next-hop IP address") else Option.None
  }

  /** A next hop the validator accepts: four in-range octets, with at most one final newline. */
  predicate ValidNextHop(s: string)
  {
    PyQuadMatch(s).Some? && OctetsInRange(PyQuadMatch(s).value)
  }

  /** The destination is checked exactly as is_valid_cidr checks an address. */
  lemma ValidateRouteIff(destination: string, nextHop: string)
    ensures ValidateRoute(destination, nextHop).None? <==> IsValidCidr(Some(destination)) && ValidNextHop(nextHop)
  {
    if PyCidrMatch(destination).Some? {
      assert destination != [];
    }
  }

  /** A destination failure is reported before anything about the next hop is looked at. */
  lemma DestinationFirst(destination: string, nextHop: string, otherHop: string)
    requires !IsValidCidr(Some(destination))
    ensures ValidateRoute(destination, nextHop) == ValidateRoute(destination, otherHop)
    ensures ValidateRoute(destination, nextHop).Some?
  {
    ValidateRouteIff(destination, nextHop);
  }

  lemma JoinFour(q: seq<string>)
    requires |q| == 4
    ensures Join(q, ".") == q[0] + "." + q[1] + "." + q[2] + "." + q[3]
  {
    assert q[1..][1..] == q[2..];
    assert q[2..][1..] == q[3..];
    assert Join(q[3..], ".") == q[3];
    assert Join(q[2..], ".") == q[2] + "." + q[3];
    assert Join(q[1..], ".") == q[1] + "." + (q[2] + "." + q[3]);
  }

  /** The octets the next-hop pattern finds, written out with dots, are the text it matched. */
  lemma QuadShapeSound(s: string)
    requires QuadShape(s).Some?
    ensures s == Join(QuadShape(s).value, ".")
  {
    JoinSplit(s, '.');
  }

  /** Four digit runs written out with dots are matched, with the same octets. */
  lemma QuadShapeComplete(q: seq<string>)
    requires |q| == 4 && forall i :: 0 <= i < 4 ==> DigitRun(q[i], 3)
    ensures QuadShape(Join(q, ".")) == Some(q)
  {
    forall o | o in q ensures '.' !in o {
      var i :| 0 <= i < 4 && q[i] == o;
      AllDigitsAvoid(o, '.');
    }
    SplitJoin(q, '.');
  }

  /** Four in-range digit runs written out with dots, optionally followed by one newline. */
  predicate QuadText(s: string, q: seq<string>)
  {
    |q| == 4 && (forall i :: 0 <= i < 4 ==> DigitRun(q[i], 3)) && OctetsInRange(q) &&
    (s == Join(q, ".") || s == Join(q, ".") + "\n")
  }

  /**
   * The validator accepts exactly the next hops that are four in-range 1 to 3
   * digit octets joined by dots, optionally followed by one newline.
   */
  lemma ValidNextHopIff(s: string)
    ensures ValidNextHop(s) <==> exists q :: QuadText(s, q)
  {
    if ValidNextHop(s) {
      ValidNextHopSound(s);
    }
    if exists q :: QuadText(s, q) {
      var q :| QuadText(s, q);
      ValidNextHopComplete(s, q);
    }
  }

  lemma ValidNextHopSound(s: string)
    requires ValidNextHop(s)
    ensures QuadText(s, PyQuadMatch(s).value)
  {
    if |s| > 0 && s[|s| - 1] == '\n' {
      QuadShapeSound(s[..|s| - 1]);
      assert s == s[..|s| - 1] + "\n";
    } else {
      QuadShapeSound(s);
    }
  }

  lemma ValidNextHopComplete(s: string, q: seq<string>)
    requires QuadText(s, q)
    ensures ValidNextHop(s)
  {
    QuadShapeComplete(q);
    var t := Join(q, ".");
    JoinFour(q);
    assert t != [] && t[|t| - 1] == q[3][|q[3]| - 1];
    if s == t + "\n" {
      assert s[..|s| - 1] == t;
    }
  }

  // ---------------------------------------------------------------------------
  // The handlers

  /** The duplicate search of create_route: is the (destination, next hop) pair listed? */
  predicate Listed(routes: seq<Route>, destination: string, nextHop: string)
  {
    exists i :: 0 <= i < |routes| && routes[i].destination == destination && routes[i].nextHop == nextHop
  }

  method FindRoute(routes: seq<Route>, destination: string, nextHop: string) returns (found: bool)
    ensures found <==> Listed(routes, destination, nextHop)
  {
    var i := 0;
    while i < |routes|
      invariant 0 <= i <= |routes|
      invariant forall k :: 0 <= k < i ==> !(routes[k].destination == destination && routes[k].nextHop == nextHop)
    {
      if routes[i].destination == destination && routes[i].nextHop == nextHop {
        return true;
      }
      i := i + 1;
    }
    return false;
  }

  /**
   * create_route, given the stripped fields, the configuration read back from
   * the device, the text of the exception a malformed configuration raises,
   * and the device's response: the batch sent when it succeeds.
   */
  function CreateRouteSpec(destination: string, nextHop: string, description: string, config: Entries,
                           crash: string, resp: Response): Checked<seq<Op>>
  {
    if destination == [] || nextHop == [] then Refuse(400, "Destination and next-hop are required")
    else if ValidateRoute(destination, nextHop).Some? then Refuse(400, ValidateRoute(destination, nextHop).value)
    else
      match ParseStaticRoutesSpec(config)
      case None => Refuse(500, crash)
      case Some(existing) =>
        if Listed(existing, destination, nextHop) then
          Refuse(409, "Route to " + destination + " via " + nextHop + " already exists")
        else
          var ops := Sets(BuildRouteSetCommands(destination, nextHop, description));
          var outcome := ConfigureMultiple(ops, "create static route " + destination + " via " + nextHop, resp);
          if !outcome.ok then Refuse(500, outcome.message.GetOr("Failed to create static route"))
          else Pass(ops)
  }

  method CreateRoute(rawDestination: string, rawNextHop: string, rawDescription: string, config: Entries,
                     crash: string, resp: Response) returns (r: Checked<seq<Op>>)
    ensures r == CreateRouteSpec(Strip(rawDestination), Strip(rawNextHop), Strip(rawDescription), config, crash, resp)
  {
    var destination, nextHop, description := Strip(rawDestination), Strip(rawNextHop), Strip(rawDescription);
    if destination == [] || nextHop == [] {
      return Refuse(400, "Destination and next-hop are required");
    }
    var error := ValidateRoute(destination, nextHop);
    if error.Some? {
      return Refuse(400, error.value);
    }
    var existing := ParseStaticRoutes(config);
    if existing.None? {
      return Refuse(500, crash);
    }
    var found := FindRoute(existing.value, destination, nextHop);
    if found {
      return Refuse(409, "Route to " + destination + " via " + nextHop + " already exists");
    }
    var ops := Sets(BuildRouteSetCommands(destination, nextHop, description));
    var outcome := ConfigureMultiple(ops, "create static route " + destination + " via " + nextHop, resp);
    if !outcome.ok {
      return Refuse(500, outcome.message.GetOr("Failed to create static route"));
    }
    return Pass(ops);
  }

  /**
   * Create refuses blank fields, then an invalid route, then a pair already
   * listed (409); otherwise it sends sets only, and a successful create leaves
   * the next hop (and a non-empty description) on the device.
   */
  lemma CreateRouteOutcome(destination: string, nextHop: string, description: string, config: Entries,
                           crash: string, resp: Response, store: Store)
    ensures var r := CreateRouteSpec(destination, nextHop, description, config, crash, resp);
      (destination == [] || nextHop == [] ==> r == Refuse(400, "Destination and next-hop are required")) &&
      (r.Pass? ==> IsValidCidr(Some(destination)) && ValidNextHop(nextHop)) &&
      (r.Pass? ==> ParseStaticRoutesSpec(config).Some? && !Listed(ParseStaticRoutesSpec(config).value, destination, nextHop)) &&
      (ParseStaticRoutesSpec(config).Some? && Listed(ParseStaticRoutesSpec(config).value, destination, nextHop) ==> !r.Pass?) &&
      (r.Pass? ==> forall i :: 0 <= i < |r.value| ==> r.value[i].Set?) &&
      (r.Pass? ==> NextHopPath(destination, nextHop) in Run(store, r.value) &&
                   (description != [] ==> DescriptionPath(destination, description) in Run(store, r.value)))
  {
    ValidateRouteIff(destination, nextHop);
    var r := CreateRouteSpec(destination, nextHop, description, config, crash, resp);
    if r.Pass? {
      RunSets(store, BuildRouteSetCommands(destination, nextHop, description));
    }
  }

  /** The update batch: the old next hop deleted first when the route's key changes, then the new route set. */
  function UpdateOps(oldDestination: string, oldNextHop: string, destination: string, nextHop: string,
                     description: string): (ops: seq<Op>)
  {
    var sets := Sets(BuildRouteSetCommands(destination, nextHop, description));
    if oldDestination != destination || oldNextHop != nextHop then
      Deletes(BuildRouteDeleteCommands(oldDestination, oldNextHop)) + sets
    else sets
  }

  /** The error context of an update: a move when the key changed, a description update otherwise. */
  function UpdateContext(oldDestination: string, oldNextHop: string, destination: string, nextHop: string): string
  {
    if oldDestination != destination || oldNextHop != nextHop then
      "update static route from " + oldDestination + " via " + oldNextHop + " to " + destination + " via " + nextHop
    else "update static route description " + destination + " via " + nextHop
  }

  /** update_route, given the stripped fields and the device's response. */
  function UpdateRouteSpec(oldDestination: string, oldNextHop: string, destination: string, nextHop: string,
                           description: string, resp: Response): Checked<seq<Op>>
  {
    if oldDestination == [] || oldNextHop == [] || destination == [] || nextHop == [] then
      Refuse(400, "All route parameters are required")
    else if ValidateRoute(destination, nextHop).Some? then Refuse(400, ValidateRoute(destination, nextHop).value)
    else
      var ops := UpdateOps(oldDestination, oldNextHop, destination, nextHop, description);
      var outcome := ConfigureMultiple(ops, UpdateContext(oldDestination, oldNextHop, destination, nextHop), resp);
      if !outcome.ok then Refuse(500, outcome.message.GetOr("Failed to update static route"))
      else Pass(ops)
  }

  /** The operation list of update_route and its error context. */
  method UpdateBatch(oldDestination: string, oldNextHop: string, destination: string, nextHop: string,
                     description: string) returns (operations: seq<Op>, context: string)
    ensures operations == UpdateOps(oldDestination, oldNextHop, destination, nextHop, description)
    ensures context == UpdateContext(oldDestination, oldNextHop, destination, nextHop)
  {
    var changed := oldDestination != destination || oldNextHop != nextHop;
    operations := [];
    if changed {
      operations := operations + Deletes(BuildRouteDeleteCommands(oldDestination, oldNextHop));
      operations := operations + Sets(BuildRouteSetCommands(destination, nextHop, description));
      context := "update static route from " + oldDestination + " via " + oldNextHop + " to " + destination + " via " + nextHop;
    } else {
      operations := operations + Sets(BuildRouteSetCommands(destination, nextHop, description));
      context := "update static route description " + destination + " via " + nextHop;
    }
  }

  /** update_route as the view runs it, extending the operation list step by step. */
  method UpdateRoute(rawOldDestination: string, rawOldNextHop: string, rawDestination: string, rawNextHop: string,
                     rawDescription: string, resp: Response) returns (r: Checked<seq<Op>>)
    ensures r == UpdateRouteSpec(Strip(rawOldDestination), Strip(rawOldNextHop), Strip(rawDestination),
                                 Strip(rawNextHop), Strip(rawDescription), resp)
  {
    var oldDestination, oldNextHop := Strip(rawOldDestination), Strip(rawOldNextHop);
    var destination, nextHop, description := Strip(rawDestination), Strip(rawNextHop), Strip(rawDescription);
    if oldDestination == [] || oldNextHop == [] || destination == [] || nextHop == [] {
      return Refuse(400, "All route parameters are required");
    }
    var error := ValidateRoute(destination, nextHop);
    if error.Some? {
      return Refuse(400, error.value);
    }
    var operations, context := UpdateBatch(oldDestination, oldNextHop, destination, nextHop, description);
    var outcome := ConfigureMultiple(operations, context, resp);
    if !outcome.ok {
      return Refuse(500, outcome.message.GetOr("Failed to update static route"));
    }
    return Pass(operations);
  }

  /**
   * Update needs all four fields and a valid new route, and then succeeds
   * exactly when the device accepts; it does not look for the old route.
   */
  lemma UpdateRouteOutcome(oldDestination: string, oldNextHop: string, destination: string, nextHop: string,
                           description: string, resp: Response)
    ensures var r := UpdateRouteSpec(oldDestination, oldNextHop, destination, nextHop, description, resp);
      (oldDestination == [] || oldNextHop == [] || destination == [] || nextHop == [] ==>
        r == Refuse(400, "All route parameters are required")) &&
      (r.Pass? ==> IsValidCidr(Some(destination)) && ValidNextHop(nextHop)) &&
      (r.Pass? <==> oldDestination != [] && oldNextHop != [] && destination != [] && nextHop != [] &&
                    ValidateRoute(destination, nextHop).None? && resp.error == [] && resp.status == 200) &&
      (r.Pass? ==> r.value == UpdateOps(oldDestination, oldNextHop, destination, nextHop, description))
  {
    ValidateRouteIff(destination, nextHop);
  }

  /**
   * The update batch puts every delete before every set; with the key
   * unchanged it is sets only. Applied, it leaves the new next hop present
   * and, when the key changed, the old one gone.
   */
  lemma UpdateOpsEffect(oldDestination: string, oldNextHop: string, destination: string, nextHop: string,
                        description: string, store: Store)
    ensures var ops := UpdateOps(oldDestination, oldNextHop, destination, nextHop, description);
      var changed := oldDestination != destination || oldNextHop != nextHop;
      DeletesFirst(ops) &&
      (!changed ==> forall i :: 0 <= i < |ops| ==> ops[i].Set?) &&
      NextHopPath(destination, nextHop) in Run(store, ops) &&
      (changed ==> NextHopPath(oldDestination, oldNextHop) !in Run(store, ops))
  {
    var ds := BuildRouteDeleteCommands(oldDestination, oldNextHop);
    var ss := BuildRouteSetCommands(destination, nextHop, description);
    if oldDestination != destination || oldNextHop != nextHop {
      DeletesThenSetsOrdered(ds, ss);
      DeletesThenSets(store, ds, ss);
      NextHopPathsApart(oldDestination, oldNextHop, destination, nextHop);
      assert NextHopPath(oldDestination, oldNextHop) != DescriptionPath(destination, description) by {
        assert NextHopPath(oldDestination, oldNextHop)[4] == "next-hop";
      }
    } else {
      DeletesThenSetsOrdered([], ss);
      assert Deletes([]) + Sets(ss) == Sets(ss);
      RunSets(store, ss);
    }
  }

  /** delete_route, given the stripped fields and the device's response. */
  function DeleteRouteSpec(destination: string, nextHop: string, resp: Response): Checked<seq<Op>>
  {
    if destination == [] || nextHop == [] then Refuse(400, "Destination and next-hop are required")
    else
      var ops := Deletes(BuildRouteDeleteCommands(destination, nextHop));
      var outcome := ConfigureMultiple(ops, "delete static route " + destination + " via " + nextHop, resp);
      if !outcome.ok then Refuse(500, outcome.message.GetOr("Failed to delete static route"))
      else Pass(ops)
  }

  /**
   * Delete refuses blank fields and does not validate the route; it succeeds
   * exactly when the device accepts, and then only that next hop is gone.
   */
  lemma DeleteRouteOutcome(destination: string, nextHop: string, resp: Response, store: Store)
    ensures var r := DeleteRouteSpec(destination, nextHop, resp);
      (r.Pass? <==> destination != [] && nextHop != [] && resp.error == [] && resp.status == 200) &&
      (r.Pass? ==> NextHopPath(destination, nextHop) !in Run(store, r.value)) &&
      (r.Pass? ==> forall q :: q in store && !HasPrefix(q, NextHopPath(destination, nextHop)) ==> q in Run(store, r.value))
  {
    if destination != [] && nextHop != [] {
      DeleteRemovesOnlyTheHop(store, destination, nextHop);
    }
  }
}
