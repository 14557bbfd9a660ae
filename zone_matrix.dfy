/**
 * The zone matrix of the firewall-zone dashboard (_load_dashboard_payload in
 * app/modules/firewall/zone/views.py): one row per zone, one cell per ordered
 * pair of zones, each naming the firewall that guards traffic between them.
 */
module ZoneMatrix {
  import opened Wrappers
  import opened Paths
  import opened Zones
  import opened ZoneFirewall

  datatype CellKind = SelfCell | PairCell

  /** One cell of the matrix: the firewall guarding traffic from `source` into `destination`. */
  datatype Cell = Cell(kind: CellKind, source: string, destination: string, firewall: Option<string>,
                       present: bool, zoneLabel: Option<string>, link: string, caption: Option<string>)

  datatype MatrixRow = MatrixRow(source: string, cells: seq<Cell>)

  /** The cell for one ordered pair of zones whose firewall is `rule`; the overview page's address is a parameter. */
  function CellFor(source: string, destination: string, rule: string, firewalls: set<string>,
                   zoneMap: map<string, ZoneInfo>, overviewUrl: string): Cell
  {
    var present := rule in firewalls;
    Cell(if source == destination then SelfCell else PairCell, source, destination,
         if present then Some(rule) else Option.None, present,
         if rule in zoneMap then Some(zoneMap[rule].zoneLabel) else Option.None,
         overviewUrl + "?name=" + rule,
         if source == destination then Some("Intra-zone") else Option.None)
  }

  /** The firewall names of one row: zone_pair_firewall_name(source, destination) per destination. */
  function PairNames(source: string, names: seq<string>): (rules: seq<string>)
    ensures |rules| == |names|
  {
    if names == [] then []
    else PairNames(source, names[..|names| - 1]) + [ZonePairFirewallName(source, names[|names| - 1])]
  }

  lemma {:induction false} PairNamesAt(source: string, names: seq<string>, j: int)
    requires 0 <= j < |names|
    ensures PairNames(source, names)[j] == ZonePairFirewallName(source, names[j])
  {
    if j < |names| - 1 {
      PairNamesAt(source, names[..|names| - 1], j);
    }
  }

  /** The row of one source zone: a cell for every destination, in order. */
  function RowFor(source: string, names: seq<string>, firewalls: set<string>,
                  zoneMap: map<string, ZoneInfo>, overviewUrl: string): (row: seq<Cell>)
    ensures |row| == |names|
  {
    var rules := PairNames(source, names);
    seq(|names|, j requires 0 <= j < |names| => CellFor(source, names[j], rules[j], firewalls, zoneMap, overviewUrl))
  }

  lemma RowForAt(source: string, names: seq<string>, firewalls: set<string>,
                 zoneMap: map<string, ZoneInfo>, overviewUrl: string, j: int)
    requires 0 <= j < |names|
    ensures RowFor(source, names, firewalls, zoneMap, overviewUrl)[j]
         == CellFor(source, names[j], ZonePairFirewallName(source, names[j]), firewalls, zoneMap, overviewUrl)
  {
    PairNamesAt(source, names, j);
  }

  /** The matrix: a row for every source zone, in order. */
  function MatrixFor(sources: seq<string>, names: seq<string>, firewalls: set<string>,
                     zoneMap: map<string, ZoneInfo>, overviewUrl: string): (m: seq<MatrixRow>)
    ensures |m| == |sources|
  {
    if sources == [] then []
    else
      var last := sources[|sources| - 1];
      MatrixFor(sources[..|sources| - 1], names, firewalls, zoneMap, overviewUrl)
        + [MatrixRow(last, RowFor(last, names, firewalls, zoneMap, overviewUrl))]
  }

  lemma {:induction false} MatrixForAt(sources: seq<string>, names: seq<string>, firewalls: set<string>,
                                       zoneMap: map<string, ZoneInfo>, overviewUrl: string, i: int)
    requires 0 <= i < |sources|
    ensures MatrixFor(sources, names, firewalls, zoneMap, overviewUrl)[i]
         == MatrixRow(sources[i], RowFor(sources[i], names, firewalls, zoneMap, overviewUrl))
  {
    if i < |sources| - 1 {
      MatrixForAt(sources[..|sources| - 1], names, firewalls, zoneMap, overviewUrl, i);
    }
  }

  lemma MatrixForSnoc(sources: seq<string>, names: seq<string>, firewalls: set<string>,
                      zoneMap: map<string, ZoneInfo>, overviewUrl: string, i: int)
    requires 0 <= i < |sources|
    ensures MatrixFor(sources[..i + 1], names, firewalls, zoneMap, overviewUrl)
         == MatrixFor(sources[..i], names, firewalls, zoneMap, overviewUrl)
            + [MatrixRow(sources[i], RowFor(sources[i], names, firewalls, zoneMap, overviewUrl))]
  {
    assert sources[..i + 1][..i] == sources[..i];
  }

  /** The body of the inner loop: the cell dictionary for one destination zone. */
  method BuildCell(source: string, destination: string, firewalls: set<string>,
                   zoneMap: map<string, ZoneInfo>, overviewUrl: string) returns (cell: Cell)
    ensures cell == CellFor(source, destination, ZonePairFirewallName(source, destination), firewalls, zoneMap, overviewUrl)
  {
    var rule := ZonePairFirewallName(source, destination);
    var present := rule in firewalls;
    var zoneLabel := if rule in zoneMap then Some(zoneMap[rule].zoneLabel) else Option.None;
    cell := Cell(if source == destination then SelfCell else PairCell, source, destination,
                 if present then Some(rule) else Option.None, present, zoneLabel,
                 overviewUrl + "?name=" + rule, Option.None);
    if source == destination {
      cell := cell.(caption := Some("Intra-zone"));
    }
  }

  /** The inner loop of _load_dashboard_payload: one cell per destination zone. */
  method BuildRow(source: string, names: seq<string>, firewalls: set<string>,
                  zoneMap: map<string, ZoneInfo>, overviewUrl: string) returns (cells: seq<Cell>)
    ensures cells == RowFor(source, names, firewalls, zoneMap, overviewUrl)
  {
    cells := [];
    ghost var rules := PairNames(source, names);
    var j := 0;
    while j < |names|
      invariant 0 <= j <= |names|
      invariant |cells| == j
      invariant forall k :: 0 <= k < j ==> cells[k] == CellFor(source, names[k], rules[k], firewalls, zoneMap, overviewUrl)
    {
      var cell := BuildCell(source, names[j], firewalls, zoneMap, overviewUrl);
      PairNamesAt(source, names, j);
      cells := cells + [cell];
      j := j + 1;
    }
  }

  /** The outer loop of _load_dashboard_payload, over the sorted zone names. */
  method BuildMatrix(names: seq<string>, firewalls: set<string>, zoneMap: map<string, ZoneInfo>, overviewUrl: string)
    returns (matrix: seq<MatrixRow>)
    ensures matrix == MatrixFor(names, names, firewalls, zoneMap, overviewUrl)
  {
    matrix := [];
    var i := 0;
    while i < |names|
      invariant 0 <= i <= |names|
      invariant matrix == MatrixFor(names[..i], names, firewalls, zoneMap, overviewUrl)
    {
      var cells := BuildRow(names[i], names, firewalls, zoneMap, overviewUrl);
      MatrixForSnoc(names, names, firewalls, zoneMap, overviewUrl, i);
      matrix := matrix + [MatrixRow(names[i], cells)];
      i := i + 1;
    }
    assert names[..i] == names;
  }

  /**
   * The matrix is square over the zone names: cell (i, j) is for traffic from
   * the i-th zone into the j-th, names the firewall zone_pair_firewall_name
   * gives for the pair, shows it exactly when the device has it, links to the
   * overview page filtered to it, and carries the zone map's label for it
   * when the map has one.
   */
  lemma MatrixCells(names: seq<string>, firewalls: set<string>, zoneMap: map<string, ZoneInfo>, overviewUrl: string,
                    i: int, j: int)
    requires 0 <= i < |names| && 0 <= j < |names|
    ensures var m := MatrixFor(names, names, firewalls, zoneMap, overviewUrl);
      var rule := ZonePairFirewallName(names[i], names[j]);
      |m| == |names| && m[i].source == names[i] && |m[i].cells| == |names| &&
      m[i].cells[j].source == names[i] && m[i].cells[j].destination == names[j] &&
      (m[i].cells[j].present <==> rule in firewalls) &&
      (m[i].cells[j].firewall == if rule in firewalls then Some(rule) else Option.None) &&
      m[i].cells[j].link == overviewUrl + "?name=" + rule &&
      (rule in zoneMap ==> m[i].cells[j].zoneLabel == Some(zoneMap[rule].zoneLabel)) &&
      (rule !in zoneMap ==> m[i].cells[j].zoneLabel.None?)
  {
    MatrixForAt(names, names, firewalls, zoneMap, overviewUrl, i);
    RowForAt(names[i], names, firewalls, zoneMap, overviewUrl, j);
  }

  /**
   * Over distinct zone names the diagonal is exactly the intra-zone cells:
   * a cell is a self cell, captioned "Intra-zone", exactly when its row and
   * column are the same zone.
   */
  lemma MatrixDiagonal(names: seq<string>, firewalls: set<string>, zoneMap: map<string, ZoneInfo>, overviewUrl: string,
                       i: int, j: int)
    requires NoDuplicates(names)
    requires 0 <= i < |names| && 0 <= j < |names|
    ensures var m := MatrixFor(names, names, firewalls, zoneMap, overviewUrl);
      |m| == |names| && |m[i].cells| == |names| &&
      (m[i].cells[j].kind == SelfCell <==> i == j) &&
      (m[i].cells[j].caption == Some("Intra-zone") <==> i == j) &&
      (i != j ==> m[i].cells[j].caption.None?)
  {
    MatrixForAt(names, names, firewalls, zoneMap, overviewUrl, i);
    RowForAt(names[i], names, firewalls, zoneMap, overviewUrl, j);
    if i != j {
      if i < j {
        assert names[i] != names[j];
      } else {
        assert names[j] != names[i];
      }
    }
  }
}
