/**
 * Readers for the DHCP server configuration tree and the lease table the
 * device prints (dhcp/utils.py): option lists, vendor options, failover
 * settings, the lease table, the lowest free subnet-id and the description
 * and addresses of an interface.
 *
 * ensure_dict, ensure_list, dedupe_paths and strip_or_none are the shared
 * ConfigTree.MappingOf, ConfigTree.EnsureList, Paths.DedupeCommands and
 * ConfigTree.StripOrNone.
 */
module DhcpUtils {
  import opened Wrappers
  import opened Text
  import opened ConfigTree

  // ---------------------------------------------------------------------------
  // parse_option_values

  /** No whitespace at either end: what str.strip() leaves. */
  predicate Trimmed(v: string)
  {
    v == [] || (!IsSpace(v[0]) && !IsSpace(v[|v| - 1]))
  }

  /** The non-empty strings of `xs`, in order. */
  function NonBlank(xs: seq<string>): (r: seq<string>)
    ensures |r| <= |xs|
    ensures forall v :: v in r <==> v in xs && v != []
  {
    if xs == [] then []
    else (if xs[0] != [] then [xs[0]] else []) + NonBlank(xs[1..])
  }

  /** str(item).strip() */
  function ItemText(n: Node): (r: string)
    ensures Trimmed(r)
  {
    var s := Str(n);
    var r := Strip(s);
    assert r == [] || (!IsSpace(r[0]) && !IsSpace(r[|r| - 1]));
    r
  }

  /** [str(item).strip() for item in xs if str(item).strip()] */
  function Texts(xs: seq<Node>): (r: seq<string>)
    ensures |r| <= |xs|
    ensures forall v :: v in r ==> v != [] && Trimmed(v)
  {
    if xs == [] then []
    else
      var v := ItemText(xs[0]);
      var head := if v != [] then [v] else [];
      var rest := Texts(xs[1..]);
      assert forall w :: w in head ==> w != [] && Trimmed(w);
      head + rest
  }

  /** Some item of `xs` strips to `v`. */
  predicate HasItemText(xs: seq<Node>, v: string)
  {
    exists i :: 0 <= i < |xs| && ItemText(xs[i]) == v
  }

  lemma HasItemTextCons(xs: seq<Node>, v: string)
    requires xs != []
    ensures HasItemText(xs, v) <==> ItemText(xs[0]) == v || HasItemText(xs[1..], v)
  {
    if HasItemText(xs, v) && ItemText(xs[0]) != v {
      var i :| 0 <= i < |xs| && ItemText(xs[i]) == v;
      assert xs[1..][i - 1] == xs[i];
    }
    if HasItemText(xs[1..], v) {
      var i :| 0 <= i < |xs[1..]| && ItemText(xs[1..][i]) == v;
      assert xs[i + 1] == xs[1..][i];
    }
  }

  /** The texts are exactly the non-blank stripped items. */
  lemma {:induction false} TextsMembers(xs: seq<Node>)
    ensures forall v :: v in Texts(xs) <==> v != [] && HasItemText(xs, v)
  {
    if xs != [] {
      TextsMembers(xs[1..]);
      var t := ItemText(xs[0]);
      assert Texts(xs) == (if t != [] then [t] else []) + Texts(xs[1..]);
      forall v ensures v in Texts(xs) <==> v != [] && HasItemText(xs, v) {
        HasItemTextCons(xs, v);
      }
    }
  }

  /** The values one dictionary entry of an option contributes, before the final blank filter. */
  function EntryValues(key: string, v: Node): (r: seq<string>)
    ensures forall x :: x in r ==> Trimmed(x)
  {
    if v.List? || v.Map? then Texts(EnsureList(v))
    else
      var k := Strip(key);
      var tail := if v.Leaf? && v.text != [] then [Strip(v.text)] else [];
      assert Trimmed(k) && forall x :: x in tail ==> Trimmed(x);
      [k] + tail
  }

  /** The values contributed by the entries of a dictionary-valued option, in order. */
  function DictValues(m: Entries): (r: seq<string>)
    ensures forall x :: x in r ==> Trimmed(x)
  {
    if m == [] then [] else DictValues(m[..|m| - 1]) + EntryValues(m[|m| - 1].0, m[|m| - 1].1)
  }

  /**
   * parse_option_values: a list gives its non-blank stripped items, a
   * dictionary its keys (each followed by its non-empty value, or replaced by
   * the items of a nested list or dictionary), a scalar its stripped text, and
   * a missing option nothing.
   */
  function OptionValues(container: Node, key: string): seq<string>
  {
    match Get(MappingOf(container), key)
    case None => []
    case List(xs) => Texts(xs)
    case Map(m) => NonBlank(DictValues(m))
    case Leaf(s) => [Strip(s)]
  }

  /** The dictionary loop of parse_option_values, extending `results` entry by entry. */
  method CollectDictValues(m: Entries) returns (results: seq<string>)
    ensures results == DictValues(m)
  {
    results := [];
    var i := 0;
    while i < |m|
      invariant 0 <= i <= |m|
      invariant results == DictValues(m[..i])
    {
      var piece := CollectEntryValues(m[i].0, m[i].1);
      DictValuesSnoc(m, i);
      results := results + piece;
      i := i + 1;
    }
    assert m[..i] == m;
  }

  /** The body of that loop for one entry. */
  method CollectEntryValues(entryKey: string, entryVal: Node) returns (piece: seq<string>)
    ensures piece == EntryValues(entryKey, entryVal)
  {
    if entryVal.List? || entryVal.Map? {
      piece := Texts(EnsureList(entryVal));
    } else {
      piece := [Strip(entryKey)];
      if entryVal.Leaf? && entryVal.text != [] {
        piece := piece + [Strip(entryVal.text)];
      }
    }
  }

  lemma DictValuesSnoc(m: Entries, i: int)
    requires 0 <= i < |m|
    ensures DictValues(m[..i + 1]) == DictValues(m[..i]) + EntryValues(m[i].0, m[i].1)
  {
    assert m[..i + 1][..i] == m[..i];
  }

  method ParseOptionValues(container: Node, key: string) returns (values: seq<string>)
    ensures values == OptionValues(container, key)
  {
    var v := Get(MappingOf(container), key);
    if v.Map? {
      var results := CollectDictValues(v.entries);
      values := NonBlank(results);
    } else {
      values := OptionValues(container, key);
    }
  }

  /**
   * Every value is stripped and, unless the option is a single scalar, not
   * empty; a missing option gives nothing.
   */
  lemma OptionValuesClean(container: Node, key: string)
    ensures forall v :: v in OptionValues(container, key) ==> Trimmed(v)
    ensures !Get(MappingOf(container), key).Leaf? ==> forall v :: v in OptionValues(container, key) ==> v != []
    ensures Get(MappingOf(container), key).None? ==> OptionValues(container, key) == []
  {
    var r := OptionValues(container, key);
    match Get(MappingOf(container), key)
    case None =>
    case List(xs) =>
      assert r == Texts(xs);
    case Map(m) =>
      assert r == NonBlank(DictValues(m));
      NonBlankTrimmed(DictValues(m));
    case Leaf(t) =>
      assert r == [Strip(t)];
      StripTrimmed(t);
  }

  lemma NonBlankTrimmed(xs: seq<string>)
    requires forall x :: x in xs ==> Trimmed(x)
    ensures forall v :: v in NonBlank(xs) ==> v != [] && Trimmed(v)
  {
  }

  lemma StripTrimmed(t: string)
    ensures forall v :: v in [Strip(t)] ==> Trimmed(v)
  {
    assert Trimmed(Strip(t));
  }

  /** A list-valued option yields exactly the non-blank stripped texts of its items. */
  lemma ListOptionValues(container: Node, key: string, items: seq<Node>)
    requires Get(MappingOf(container), key) == List(items)
    ensures forall v :: v in OptionValues(container, key) <==> v != [] && HasItemText(items, v)
  {
    TextsMembers(items);
  }

  /** A dictionary entry with a plain value contributes its key, then the value unless that is empty. */
  lemma DictEntryKeyThenValue(m: Entries, k: string, v: string)
    ensures DictValues(m + [(k, Leaf(v))]) == DictValues(m) + [Strip(k)] + (if v != [] then [Strip(v)] else [])
  {
    DictValuesAppend(m, (k, Leaf(v)));
    EntryLeafValues(k, v);
  }

  lemma DictValuesAppend(m: Entries, e: (string, Node))
    ensures DictValues(m + [e]) == DictValues(m) + EntryValues(e.0, e.1)
  {
    assert (m + [e])[..|m|] == m;
  }

  lemma EntryLeafValues(k: string, v: string)
    ensures EntryValues(k, Leaf(v)) == [Strip(k)] + (if v != [] then [Strip(v)] else [])
  {
  }

  // ---------------------------------------------------------------------------
  // parse_vendor_options

  /** {"name": ..., "value": ...} of one vendor option. */
  datatype VendorOption = VendorOption(name: string, value: string)

  function SubOptionValues(name: string, m: Entries): (r: seq<VendorOption>)
    ensures forall o :: o in r ==> o.name == name
  {
    if m == [] then []
    else
      var init := SubOptionValues(name, m[..|m| - 1]);
      var k, v := m[|m| - 1].0, m[|m| - 1].1;
      if Strip(k) == [] then init
      else init + [VendorOption(name, if v.None? || v == Leaf("") then "" else ItemText(v))]
  }

  function ListOptionEntries(name: string, xs: seq<Node>): (r: seq<VendorOption>)
    ensures forall o :: o in r ==> o.name == name && o.value != []
  {
    if xs == [] then []
    else
      var init := ListOptionEntries(name, xs[..|xs| - 1]);
      var v := ItemText(xs[|xs| - 1]);
      if v != [] then init + [VendorOption(name, v)] else init
  }

  function VendorEntries(m: Entries): (r: seq<VendorOption>)
    ensures forall o :: o in r ==> o.name != [] && exists i :: 0 <= i < |m| && Strip(m[i].0) == o.name
  {
    if m == [] then []
    else
      var init := VendorEntries(m[..|m| - 1]);
      assert forall i :: 0 <= i < |m| - 1 ==> m[..|m| - 1][i] == m[i];
      var name, value := Strip(m[|m| - 1].0), m[|m| - 1].1;
      if name == [] then init
      else if value.Map? then init + SubOptionValues(name, value.entries)
      else if value.List? then init + ListOptionEntries(name, value.items)
      else init + [VendorOption(name, ItemText(value))]
  }

  /**
   * parse_vendor_options: every option carries the stripped, non-blank name of
   * a key of the vendor-option dictionary.
   */
  function VendorOptions(container: Node): (r: seq<VendorOption>)
    ensures forall o :: o in r ==> o.name != [] && Strip(o.name) == o.name
  {
    forall s: string {
      StripIdempotent(s);
    }
    VendorEntries(MappingOf(Get(MappingOf(container), "vendor-option")))
  }

  // ---------------------------------------------------------------------------
  // parse_high_availability

  const HaFields: seq<string> := ["mode", "status", "source-address", "remote", "name"]

  function HaFrom(settings: Entries, fields: seq<string>): (r: seq<(string, Option<string>)>)
    ensures forall e :: e in r ==> e.0 in fields && e.0 in Keys(settings)
    ensures forall f :: f in fields && f in Keys(settings) ==> exists e :: e in r && e.0 == f
  {
    if fields == [] then []
    else
      var rest := HaFrom(settings, fields[1..]);
      if fields[0] in Keys(settings) then [(fields[0], StripOrNone(Get(settings, fields[0])))] + rest else rest
  }

  /**
   * parse_high_availability: the five failover fields that are present, in
   * that order, each stripped; nothing for an empty block.
   */
  function HighAvailability(block: Node): (r: seq<(string, Option<string>)>)
    ensures forall e :: e in r ==> e.0 in HaFields && e.0 in Keys(MappingOf(block))
    ensures forall f :: f in HaFields && f in Keys(MappingOf(block)) ==> exists e :: e in r && e.0 == f
    ensures MappingOf(block) == [] ==> r == []
  {
    var settings := MappingOf(block);
    if settings == [] then [] else HaFrom(settings, HaFields)
  }

  // ---------------------------------------------------------------------------
  // parse_lease_table

  datatype Lease = Lease(ip: string, mac: string, state: string, leaseStart: string, leaseExpiration: string,
                         remaining: string, pool: string, hostname: string, origin: string)

  /** Characters at which str.splitlines breaks a line. */
  predicate LineBreak(c: char)
  {
    c == '\n' || c == '\r' || c as int == 11 || c as int == 12 || c as int == 0x1c || c as int == 0x1d ||
    c as int == 0x1e || c as int == 0x85 || c as int == 0x2028 || c as int == 0x2029
  }

  /**
   * The text cut at every line-break character. A "\r\n" pair gives an extra
   * empty piece, which the blank-line filter drops just as splitlines never
   * produces it.
   */
  function Pieces(s: string): (r: seq<string>)
    ensures |r| >= 1
    ensures forall p :: p in r ==> forall c :: c in p ==> !LineBreak(c)
  {
    if s == [] then [[]]
    else
      var rest := Pieces(s[1..]);
      if LineBreak(s[0]) then [[]] + rest
      else
        assert rest[0] in rest;
        assert forall p :: p in rest[1..] ==> p in rest;
        [[s[0]] + rest[0]] + rest[1..]
  }

  /** [line.rstrip() for line in text.splitlines() if line.strip()] */
  function TableLines(pieces: seq<string>): (r: seq<string>)
    ensures forall l :: l in r ==> Strip(l) != []
  {
    if pieces == [] then []
    else
      var rest := TableLines(pieces[1..]);
      if Strip(pieces[0]) != [] then [TrimRight(pieces[0])] + rest else rest
  }

  predicate IsHeader(line: string)
  {
    StartsWith(Lower(line), "ip address")
  }

  /** Two whitespace characters start at i: where the pattern \s{2,} can match. */
  predicate GapAt(s: string, i: int)
  {
    0 <= i && i + 1 < |s| && IsSpace(s[i]) && IsSpace(s[i + 1])
  }

  /** The first gap at or after k, or |s| when there is none. */
  function GapFrom(s: string, k: nat): (i: nat)
    requires k <= |s|
    ensures k <= i <= |s|
    ensures i < |s| ==> GapAt(s, i)
    ensures forall j :: k <= j < i ==> !GapAt(s, j)
    decreases |s| - k
  {
    if k + 1 >= |s| then |s|
    else if IsSpace(s[k]) && IsSpace(s[k + 1]) then k
    else GapFrom(s, k + 1)
  }

  /** The end of the whitespace run starting at k. */
  function RunEnd(s: string, k: nat): (j: nat)
    requires k <= |s|
    ensures k <= j <= |s|
    ensures forall i :: k <= i < j ==> IsSpace(s[i])
    ensures j < |s| ==> !IsSpace(s[j])
    decreases |s| - k
  {
    if k < |s| && IsSpace(s[k]) then RunEnd(s, k + 1) else k
  }

  /** re.split(r"\s{2,}", s): cut at every maximal run of two or more whitespace characters. */
  function SplitWide(s: string): (r: seq<string>)
    ensures |r| >= 1
    decreases |s|
  {
    var i := GapFrom(s, 0);
    if i == |s| then [s]
    else
      var j := RunEnd(s, i);
      [s[..i]] + SplitWide(s[j..])
  }

  function Column(parts: seq<string>, k: nat): string
  {
    if k < |parts| then parts[k] else ""
  }

  function LeaseOf(parts: seq<string>): (l: Lease)
    requires |parts| >= 2
    ensures l.ip == parts[0] && l.mac == parts[1]
  {
    Lease(parts[0], parts[1], Column(parts, 2), Column(parts, 3), Column(parts, 4),
      Column(parts, 5), Column(parts, 6), Column(parts, 7), Column(parts, 8))
  }

  /** A separator line: nothing but dashes once stripped. */
  predicate DashesOnly(s: string)
  {
    forall c :: c in Strip(s) ==> c == '-'
  }

  /** The rows after the header: separators and one-column rows skipped. */
  function LeaseRows(lines: seq<string>): seq<Lease>
  {
    if lines == [] then []
    else
      var rest := LeaseRows(lines[1..]);
      var parts := SplitWide(Strip(lines[0]));
      if DashesOnly(lines[0]) || |parts| < 2 then rest else [LeaseOf(parts)] + rest
  }

  function FirstHeader(lines: seq<string>): (r: Option<nat>)
    ensures r.Some? ==> r.value < |lines| && IsHeader(lines[r.value]) && forall j :: 0 <= j < r.value ==> !IsHeader(lines[j])
    ensures r.None? ==> forall j :: 0 <= j < |lines| ==> !IsHeader(lines[j])
  {
    if lines == [] then Option.None
    else if IsHeader(lines[0]) then Some(0)
    else match FirstHeader(lines[1..]) {
      case None => Option.None
      case Some(k) => Some(k + 1)
    }
  }

  /** The text branch of parse_lease_table. */
  function LeaseText(text: string): seq<Lease>
  {
    LeasesAfterHeader(TableLines(Pieces(text)))
  }

  /** The rows after the first header line; no header, no leases. */
  function LeasesAfterHeader(lines: seq<string>): seq<Lease>
  {
    match FirstHeader(lines)
    case None => []
    case Some(h) => LeaseRows(lines[h + 1..])
  }

  /** One lease per dictionary of the list, each field from the first of its keys that is set. */
  function FieldOr(m: Entries, a: string, b: string): string
  {
    var x := StripOrNone(Get(m, a));
    if x.Some? && x.value != [] then x.value
    else
      var y := StripOrNone(Get(m, b));
      if y.Some? && y.value != [] then y.value else ""
  }

  function StructuredLeases(xs: seq<Node>): seq<Lease>
  {
    if xs == [] then []
    else
      var rest := StructuredLeases(xs[1..]);
      if !xs[0].Map? then rest
      else
        var m := xs[0].entries;
        [Lease(FieldOr(m, "ip-address", "ip"), FieldOr(m, "hardware-address", "mac"), FieldOr(m, "state", "state"),
          FieldOr(m, "lease-start", "start"), FieldOr(m, "lease-expiration", "end"), FieldOr(m, "remain", "remaining"),
          FieldOr(m, "pool", "pool"), FieldOr(m, "hostname", "hostname"), FieldOr(m, "origin", "origin"))] + rest
  }

  /** Python's `a or b`. */
  function OrNode(a: Node, b: Node): Node
  {
    if Truthy(a) then a else b
  }

  /**
   * parse_lease_table: a dictionary holding a lease list under "leases",
   * "data" or "dhcp-server" is read entry by entry; any other value is
   * parsed as the printed table. (str() of a dictionary or list is one line
   * starting with a bracket, so such values give no leases.)
   */
  function ParseLeaseTable(raw: Node): seq<Lease>
  {
    match raw
    case Map(m) =>
      var entries := OrNode(OrNode(Get(m, "leases"), Get(m, "data")), Get(m, "dhcp-server"));
      if entries.List? then StructuredLeases(entries.items) else []
    case List(_) => []
    case Leaf(s) => LeaseText(s)
    case None => []
  }

  /** The row loop of parse_lease_table. */
  method CollectLeases(lines: seq<string>) returns (leases: seq<Lease>)
    ensures leases == LeaseRows(lines)
  {
    leases := [];
    var i := |lines|;
    while i > 0
      invariant 0 <= i <= |lines|
      invariant leases == LeaseRows(lines[i..])
    {
      i := i - 1;
      assert lines[i..][1..] == lines[i + 1..];
      var line := lines[i];
      var parts := SplitWide(Strip(line));
      if !DashesOnly(line) && |parts| >= 2 {
        leases := [LeaseOf(parts)] + leases;
      }
    }
  }

  /** Without a line starting with "ip address" in any case, there are no leases. */
  lemma NoHeaderNoLeases(lines: seq<string>)
    requires forall i :: 0 <= i < |lines| ==> !StartsWith(Lower(lines[i]), "ip address")
    ensures LeasesAfterHeader(lines) == []
  {
  }

  /** Every lease comes from a row with at least two columns, so its address column is filled. */
  lemma {:induction false} LeaseRowsHaveAddress(lines: seq<string>)
    requires forall l :: l in lines ==> Strip(l) != []
    ensures forall l :: l in LeaseRows(lines) ==> l.ip != []
  {
    if lines != [] {
      LeaseRowsHaveAddress(lines[1..]);
      var t := Strip(lines[0]);
      var parts := SplitWide(t);
      if !DashesOnly(lines[0]) && |parts| >= 2 {
        FirstPartNonEmpty(t);
      }
    }
  }

  lemma FirstPartNonEmpty(t: string)
    requires t != [] && !IsSpace(t[0])
    ensures SplitWide(t)[0] != []
  {
    var i := GapFrom(t, 0);
    if i < |t| {
      assert i != 0;
    }
  }

  /** A table cell: non-empty, no surrounding whitespace, no run of two whitespace characters inside. */
  predicate Cell(c: string)
  {
    c != [] && !IsSpace(c[0]) && !IsSpace(c[|c| - 1]) && forall i :: 0 <= i < |c| ==> !GapAt(c, i)
  }

  lemma {:induction false} GapFromFinds(s: string, k: nat, g: nat)
    requires k <= g <= |s| && (g < |s| ==> GapAt(s, g)) && forall j :: k <= j < g ==> !GapAt(s, j)
    ensures GapFrom(s, k) == g
    decreases g - k
  {
    if k < g {
      assert !GapAt(s, k);
      GapFromFinds(s, k + 1, g);
    }
  }

  lemma CellAlone(c: string)
    requires Cell(c)
    ensures SplitWide(c) == [c]
  {
    GapFromFinds(c, 0, |c|);
  }

  /** A cell, two spaces and a row not starting with a space: the cell is the first column. */
  lemma SplitWideCons(c: string, rest: string)
    requires Cell(c) && rest != [] && !IsSpace(rest[0])
    ensures SplitWide(c + "  " + rest) == [c] + SplitWide(rest)
  {
    var s := c + "  " + rest;
    ConsNoGapInCell(c, rest);
    ConsGapAfterCell(c, rest);
    GapFromFinds(s, 0, |c|);
    assert SplitWide(s) == [s[..|c|]] + SplitWide(s[|c| + 2..]);
    ConsPieces(c, rest);
  }

  lemma ConsNoGapInCell(c: string, rest: string)
    requires Cell(c)
    ensures forall j :: 0 <= j < |c| ==> !GapAt(c + "  " + rest, j)
  {
    var s := c + "  " + rest;
    forall j | 0 <= j < |c|
      ensures !GapAt(s, j)
    {
      assert s[j] == c[j];
      if j < |c| - 1 {
        assert s[j + 1] == c[j + 1];
        assert !GapAt(c, j);
      }
    }
  }

  lemma ConsGapAfterCell(c: string, rest: string)
    requires rest != [] && !IsSpace(rest[0])
    ensures var s := c + "  " + rest; GapAt(s, |c|) && RunEnd(s, |c|) == |c| + 2
  {
    var s := c + "  " + rest;
    assert s[|c|] == ' ' && s[|c| + 1] == ' ' && s[|c| + 2] == rest[0];
    assert RunEnd(s, |c| + 2) == |c| + 2;
    assert RunEnd(s, |c| + 1) == |c| + 2;
  }

  lemma ConsPieces(c: string, rest: string)
    ensures var s := c + "  " + rest; s[..|c|] == c && s[|c| + 2..] == rest
  {
  }

  lemma JoinFirstLast(cells: seq<string>)
    requires cells != [] && forall i :: 0 <= i < |cells| ==> cells[i] != []
    ensures var row := Join(cells, "  ");
      row != [] && row[0] == cells[0][0] && row[|row| - 1] == cells[|cells| - 1][|cells[|cells| - 1]| - 1]
  {
    if |cells| > 1 {
      JoinFirstLast(cells[1..]);
    }
  }

  /** Cells printed two spaces apart split back into the same cells. */
  lemma {:induction false} SplitWideJoin(cells: seq<string>)
    requires cells != [] && forall i :: 0 <= i < |cells| ==> Cell(cells[i])
    ensures SplitWide(Join(cells, "  ")) == cells
  {
    if |cells| == 1 {
      CellAlone(cells[0]);
    } else {
      var tail := cells[1..];
      assert Cell(cells[0]) && Cell(tail[0]) && Cell(tail[|tail| - 1]);
      JoinFirstLast(tail);
      assert Join(cells, "  ") == cells[0] + "  " + Join(tail, "  ");
      SplitWideCons(cells[0], Join(tail, "  "));
      SplitWideJoin(tail);
    }
  }

  /** Two cells are printed with spaces between them, so the row is never a dash-only separator. */
  lemma RowNotSeparator(cells: seq<string>)
    requires |cells| >= 2 && forall i :: 0 <= i < |cells| ==> Cell(cells[i])
    ensures Strip(Join(cells, "  ")) == Join(cells, "  ")
    ensures !DashesOnly(Join(cells, "  "))
  {
    var row := Join(cells, "  ");
    assert Cell(cells[0]) && Cell(cells[|cells| - 1]);
    JoinFirstLast(cells);
    StripUnchanged(row);
    assert row == cells[0] + "  " + Join(cells[1..], "  ");
    assert row[|cells[0]|] == ' ';
    assert ' ' in Strip(row);
  }

  /** A printed row of at least two cells is read back as one lease with those columns. */
  lemma LeaseRowRoundTrip(cells: seq<string>)
    requires |cells| >= 2 && forall i :: 0 <= i < |cells| ==> Cell(cells[i])
    ensures LeaseRows([Join(cells, "  ")]) == [LeaseOf(cells)]
  {
    var row := Join(cells, "  ");
    RowNotSeparator(cells);
    SplitWideJoin(cells);
    var parts := SplitWide(Strip(row));
    assert parts == cells;
    assert [row][1..] == [];
    assert LeaseRows([row]) == [LeaseOf(parts)] + LeaseRows([]);
  }

  // ---------------------------------------------------------------------------
  // The lowest free subnet-id

  /** The `while candidate in used_ids` loop: the least positive integer not in use. */
  method NextFreeId(used: set<int>) returns (candidate: int)
    ensures candidate >= 1 && candidate !in used
    ensures forall k :: 1 <= k < candidate ==> k in used
  {
    candidate := 1;
    ghost var ahead := set k | k in used && k >= candidate;
    while candidate in used
      invariant candidate >= 1
      invariant forall k :: 1 <= k < candidate ==> k in used
      invariant ahead == set k | k in used && k >= candidate
      decreases |ahead|
    {
      ahead := ahead - {candidate};
      candidate := candidate + 1;
    }
  }

  /** int(x) for a subnet-id value: text is parsed, null and containers raise TypeError. */
  function IdOf(v: Node): Option<int>
  {
    if v.Leaf? then ParseInt(v.text) else Option.None
  }

  /**
   * The ids the dhcp/utils.py loop collects: details.get("subnet-id", 0) of
   * every subnet of every shared network. A shared network or subnet table
   * that is not a dictionary makes the source raise; the model returns None.
   */
  function SubnetIds(subnets: Entries): Option<set<int>>
  {
    if subnets == [] then Some({})
    else
      var rest := SubnetIds(subnets[1..]);
      var details := subnets[0].1;
      if rest.None? || !details.Map? then Option.None
      else
        var id := match Lookup(details.entries, "subnet-id") {
          case None => Some(0)
          case Some(v) => IdOf(v)
        };
        Some(rest.value + (if id.Some? then {id.value} else {}))
  }

  function UsedSubnetIds(networks: Entries): Option<set<int>>
  {
    if networks == [] then Some({})
    else
      var rest := UsedSubnetIds(networks[1..]);
      var info := networks[0].1;
      if rest.None? || !info.Map? then Option.None
      else
        var subnets := Get(info.entries, "subnet");
        var ids := if subnets.None? && "subnet" !in Keys(info.entries) then Some({})
                   else if subnets.Map? then SubnetIds(subnets.entries) else Option.None;
        if ids.None? then Option.None else Some(rest.value + ids.value)
  }

  /** `n.get(key, {})` on a dictionary; anything else raises AttributeError (None). */
  function Descend(n: Node, key: string): Option<Node>
  {
    if n.Map? then Some(Lookup(n.entries, key).GetOr(Map([]))) else Option.None
  }

  /** service / dhcp-server / shared-network-name of the parsed configuration, when every level is a dictionary. */
  function SharedNetworks(config: Node): Option<Entries>
  {
    var service := Descend(config, "service");
    var server := if service.Some? then Descend(service.value, "dhcp-server") else Option.None;
    var shared := if server.Some? then Descend(server.value, "shared-network-name") else Option.None;
    if shared.Some? && shared.value.Map? then Some(shared.value.entries) else Option.None
  }

  /**
   * get_next_subnet_id of dhcp/utils.py once the configuration is fetched:
   * the least positive id no subnet uses, or None where the source raises.
   */
  method NextSubnetId(config: Node) returns (r: Option<int>)
    ensures r.Some? <==> SharedNetworks(config).Some? && UsedSubnetIds(SharedNetworks(config).value).Some?
    ensures r.Some? ==> var used := UsedSubnetIds(SharedNetworks(config).value).value;
      r.value >= 1 && r.value !in used && forall k :: 1 <= k < r.value ==> k in used
  {
    var networks := SharedNetworks(config);
    if networks.None? {
      return Option.None;
    }
    var used := UsedSubnetIds(networks.value);
    if used.None? {
      return Option.None;
    }
    var candidate := NextFreeId(used.value);
    r := Some(candidate);
  }

  /** Subnets without a subnet-id count as id 0, which never blocks a positive candidate. */
  lemma {:induction false} MissingIdIsZero(subnets: Entries)
    requires SubnetIds(subnets).Some?
    ensures forall i :: 0 <= i < |subnets| && subnets[i].1.Map? && Lookup(subnets[i].1.entries, "subnet-id").None? ==>
      0 in SubnetIds(subnets).value
  {
    if subnets != [] {
      MissingIdIsZero(subnets[1..]);
      forall i | 0 <= i < |subnets| && subnets[i].1.Map? && Lookup(subnets[i].1.entries, "subnet-id").None?
        ensures 0 in SubnetIds(subnets).value
      {
        if i > 0 {
          assert subnets[1..][i - 1] == subnets[i];
        }
      }
    }
  }

  // ---------------------------------------------------------------------------
  // get_interface_details

  /** addr_value as a list: a list as it is, another truthy value alone, anything else nothing. */
  function AddressList(v: Node): (r: seq<Node>)
    ensures v.List? ==> r == v.items
    ensures !v.List? ==> (r == [] <==> !Truthy(v)) && |r| <= 1
  {
    if v.List? then v.items else if Truthy(v) then [v] else []
  }

  /** description (default "") and address list of one interface or vif dictionary. */
  function DetailsOf(cfg: Entries): (Node, seq<Node>)
  {
    (Lookup(cfg, "description").GetOr(Leaf("")), AddressList(Lookup(cfg, "address").GetOr(List([]))))
  }

  function DictAt(m: Entries, k: string): Entries
  {
    match Lookup(m, k)
    case Some(Map(e)) => e
    case _ => []
  }

  /**
   * get_interface_details: an ethernet interface by its own entry, otherwise
   * "parent.vlan" through the parent's vif table; anything else has no
   * description and no address.
   */
  function InterfaceDetails(config: Entries, iface: string): (r: (Node, seq<Node>))
    ensures iface in Keys(DictAt(config, "ethernet")) ==> r == DetailsOf(DictAt(DictAt(config, "ethernet"), iface))
    ensures iface !in Keys(DictAt(config, "ethernet")) && '.' !in iface ==> r == (Leaf(""), [])
  {
    var ethernet := DictAt(config, "ethernet");
    if iface in Keys(ethernet) then DetailsOf(DictAt(ethernet, iface))
    else if '.' in iface then
      var i := IndexOf(iface, '.');
      var parent, vlan := iface[..i], iface[i + 1..];
      DetailsOf(DictAt(DictAt(DictAt(ethernet, parent), "vif"), vlan))
    else (Leaf(""), [])
  }

  /** A VLAN not listed as an interface of its own is read from its parent's vif table. */
  lemma VlanDetails(config: Entries, parent: string, vlan: string)
    requires '.' !in parent && parent + "." + vlan !in Keys(DictAt(config, "ethernet"))
    ensures InterfaceDetails(config, parent + "." + vlan) ==
      DetailsOf(DictAt(DictAt(DictAt(DictAt(config, "ethernet"), parent), "vif"), vlan))
  {
    var iface := parent + "." + vlan;
    IndexOfAfter(parent, '.', vlan);
    assert iface == parent + ['.'] + vlan;
  }
}
