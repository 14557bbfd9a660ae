/**
 * _parse_interface_detail (app/modules/interfaces/views.py and its legacy copy
 * interfaces/views.py, which are the same): a scan over the lines of the
 * device's "interfaces ethernet detail" output that keeps one record per
 * interface header, in the order the headers first appear, plus the set of
 * base ethernet names met on the way.
 *
 * The text is taken as already split into lines. A line that makes the
 * source raise IndexError (a header ending in "mtu" or "state", a lone
 * "link/ether" or "inet6") makes the whole parse fail (None).
 */
module IfaceDetail {
  import opened Wrappers
  import opened Text
  import opened Paths
  import opened IfaceUtils

  /** One interface's record as the scan fills it. */
  datatype Detail = Detail(state: Option<string>, mtu: Option<string>, mac: Option<string>,
                           inet: seq<string>, inet6: seq<string>, description: Option<string>,
                           rx: seq<(string, string)>, tx: seq<(string, string)>)

  const Blank := Detail(None, None, None, [], [], None, [], [])

  // ---------------------------------------------------------------------------
  // Insertion-ordered dicts

  /** The value under the first entry with key k. */
  function ValueOf<V>(m: seq<(string, V)>, k: string): Option<V>
  {
    if m == [] then None else if m[0].0 == k then Some(m[0].1) else ValueOf(m[1..], k)
  }

  function KeysOf<V>(m: seq<(string, V)>): seq<string>
  {
    if m == [] then [] else [m[0].0] + KeysOf(m[1..])
  }

  /** d[k] = v: an existing key keeps its place, a new key goes last. */
  function Put<V>(m: seq<(string, V)>, k: string, v: V): (r: seq<(string, V)>)
    ensures ValueOf(r, k) == Some(v)
    ensures forall j :: j != k ==> ValueOf(r, j) == ValueOf(m, j)
    ensures KeysOf(r) == if k in KeysOf(m) then KeysOf(m) else KeysOf(m) + [k]
  {
    if m == [] then [(k, v)]
    else if m[0].0 == k then [(k, v)] + m[1..]
    else
      var rest := Put(m[1..], k, v);
      assert KeysOf([m[0]] + rest) == [m[0].0] + KeysOf(rest);
      [m[0]] + rest
  }

  /** dict(zip(headers, values)): pairs up to the shorter list, a repeated header keeping its first place and last value. */
  function ZipDict(headers: seq<string>, values: seq<string>, acc: seq<(string, string)>): seq<(string, string)>
    decreases |headers|
  {
    if headers == [] || values == [] then acc
    else ZipDict(headers[1..], values[1..], Put(acc, headers[0], values[0]))
  }

  predicate Distinct(hs: seq<string>)
  {
    forall i, j :: 0 <= i < j < |hs| ==> hs[i] != hs[j]
  }

  /** With distinct headers every header within reach of a value is paired with that value. */
  lemma {:induction false} ZipDictPairs(headers: seq<string>, values: seq<string>, acc: seq<(string, string)>)
    requires Distinct(headers)
    ensures forall i :: 0 <= i < |headers| && i < |values| ==>
      ValueOf(ZipDict(headers, values, acc), headers[i]) == Some(values[i])
    ensures forall h :: h !in headers ==> ValueOf(ZipDict(headers, values, acc), h) == ValueOf(acc, h)
    decreases |headers|
  {
    if headers != [] && values != [] {
      var acc' := Put(acc, headers[0], values[0]);
      ZipDictPairs(headers[1..], values[1..], acc');
      forall i | 0 < i < |headers| && i < |values|
        ensures ValueOf(ZipDict(headers, values, acc), headers[i]) == Some(values[i])
      {
        assert headers[1..][i - 1] == headers[i];
      }
      assert headers[0] !in headers[1..] by {
        forall k | 0 <= k < |headers| - 1 ensures headers[1..][k] != headers[0] {
          assert headers[1..][k] == headers[k + 1];
        }
      }
      assert forall h :: h !in headers ==> h !in headers[1..] && h != headers[0];
    }
  }

  // ---------------------------------------------------------------------------
  // Recognising lines

  /** The characters of [a-zA-Z0-9.\-@]. */
  predicate HeaderChar(c: char)
  {
    IsAlnum(c) || c == '.' || c == '-' || c == '@'
  }

  /** Length of the leading run of header characters. */
  function HeaderRun(s: string): (n: nat)
    ensures n <= |s| && forall i :: 0 <= i < n ==> HeaderChar(s[i])
    ensures n < |s| ==> !HeaderChar(s[n])
  {
    if s == [] || !HeaderChar(s[0]) then 0 else 1 + HeaderRun(s[1..])
  }

  const HeaderMark := ": <"

  /**
   * re.match(r"^[a-zA-Z0-9\.\-@]+: <", line), and then line.split(":")[0]:
   * the name before ": <" when the line is a header.
   */
  function HeaderName(line: string): (r: Option<string>)
  {
    var n := HeaderRun(line);
    if n > 0 && StartsWith(line[n..], HeaderMark) then Some(line[..n]) else None
  }

  predicate AllHeaderChars(s: string)
  {
    forall i :: 0 <= i < |s| ==> HeaderChar(s[i])
  }

  /** A line is a header for `name` exactly when it starts with the name, made of header characters, followed by ": <". */
  lemma HeaderNameIff(line: string, name: string)
    ensures HeaderName(line) == Some(name) <==>
      name != [] && AllHeaderChars(name) && StartsWith(line, name + HeaderMark)
  {
    var n := HeaderRun(line);
    if name != [] && AllHeaderChars(name) && StartsWith(line, name + HeaderMark) {
      assert line[..|name|] == name;
      assert line[|name|] == ':';
      HeaderRunStops(line, |name|);
      assert line[n..][..3] == line[|name|..|name| + 3] == HeaderMark;
    }
    if HeaderName(line) == Some(name) {
      assert (name + HeaderMark) == line[..n + 3];
    }
  }

  lemma HeaderRunStops(s: string, k: nat)
    requires k < |s| && !HeaderChar(s[k]) && forall i :: 0 <= i < k ==> HeaderChar(s[i])
    ensures HeaderRun(s) == k
  {
  }

  /** Whether `p` occurs in `s` (Python's `p in s` on strings). */
  predicate HasSub(s: string, p: string)
    decreases |s|
  {
    StartsWith(s, p) || (s != [] && HasSub(s[1..], p))
  }

  /** str.replace(p, ""): every occurrence of p removed, scanning left to right. */
  function RemoveAll(s: string, p: string): string
    requires p != []
    decreases |s|
  {
    if s == [] then []
    else if StartsWith(s, p) then RemoveAll(s[|p|..], p)
    else [s[0]] + RemoveAll(s[1..], p)
  }

  /** line.split()[1], or None where that raises IndexError. */
  function Second(line: string): Option<string>
  {
    var ws := Words(line);
    if |ws| < 2 then None else Some(ws[1])
  }

  /**
   * parts[parts.index(key) + 1] when key is one of the parts: Some(None) when it
   * is not, None when the key is the last part (IndexError).
   */
  function TokenAfter(parts: seq<string>, key: string): Option<Option<string>>
  {
    if key !in parts then Some(None)
    else
      var i := FirstIndex(parts, key);
      if i + 1 < |parts| then Some(Some(parts[i + 1])) else None
  }

  /** The fresh record a header line starts, with mtu and state read when the line mentions "mtu". */
  function HeaderRecord(line: string): Option<Detail>
  {
    if !HasSub(line, "mtu") then Some(Blank)
    else
      var parts := Words(line);
      match (TokenAfter(parts, "mtu"), TokenAfter(parts, "state"))
      case (Some(mtu), Some(state)) => Some(Blank.(mtu := mtu, state := state))
      case _ => None
  }

  /** normalise_iface_name(name), kept when it is a base ethernet name: non-empty, no ".", starting with "eth". */
  predicate BaseLike(b: string)
  {
    b != [] && '.' !in b && StartsWith(b, "eth")
  }

  function BaseOf(name: string): Option<string>
  {
    var b := BeforeAt(name);
    if BaseLike(b) then Some(b) else None
  }

  // ---------------------------------------------------------------------------
  // The scan

  /** The locals of the loop: parsed_interfaces, current_iface, rx_headers, tx_headers, prev_line, all_base_ifaces. */
  datatype Scan = Scan(parsed: seq<(string, Detail)>, current: Option<string>, rxHeaders: seq<string>,
                       txHeaders: seq<string>, prevLine: string, bases: set<string>)

  const Start := Scan([], None, [], [], "", {})

  /** What a stripped, non-header line does to the record of the current interface. */
  function Annotate(d: Detail, line: string, prevLine: string, rxHeaders: seq<string>, txHeaders: seq<string>): Option<Detail>
  {
    if StartsWith(line, "link/ether") then
      var mac := Second(line);
      if mac.None? then None else Some(d.(mac := mac))
    else if StartsWith(line, "inet ") then
      var a := Second(line);
      if a.None? then None else Some(d.(inet := d.inet + [a.value]))
    else if StartsWith(line, "inet6") then
      var a := Second(line);
      if a.None? then None else Some(d.(inet6 := d.inet6 + [a.value]))
    else if StartsWith(line, "Description:") then
      Some(d.(description := Some(Strip(line[|"Description:"|..]))))
    else if line != [] && IsDigit(line[0]) then
      if StartsWith(prevLine, "RX:") then Some(d.(rx := ZipDict(rxHeaders, Words(line), [])))
      else if StartsWith(prevLine, "TX:") then Some(d.(tx := ZipDict(txHeaders, Words(line), [])))
      else Some(d)
    else Some(d)
  }

  /** The end of every line that was not skipped: the current base name recorded, the line remembered. */
  function Finish(s: Scan, line: string): Scan
  {
    var bases := if s.current.Some? && BaseOf(s.current.value).Some? then s.bases + {BaseOf(s.current.value).value} else s.bases;
    s.(bases := bases, prevLine := line)
  }

  /** One iteration of the loop over the lines; None where the source raises. */
  function StepLine(s: Scan, raw: string): Option<Scan>
  {
    var line := Strip(raw);
    if line == [] then Some(s) else StepText(s, line)
  }

  /** A non-empty stripped line: a header, or a line about the current interface, or (before any header) nothing. */
  function StepText(s: Scan, line: string): Option<Scan>
  {
    match HeaderName(line)
    case Some(name) => HeaderStep(s, line, name)
    case None => if s.current.None? then Some(s) else BodyStep(s, line)
  }

  function HeaderStep(s: Scan, line: string, name: string): Option<Scan>
  {
    match HeaderRecord(line)
    case None => None
    case Some(d) => Some(Finish(s.(parsed := Put(s.parsed, name, d), current := Some(name)), line))
  }

  function BodyStep(s: Scan, line: string): Option<Scan>
    requires s.current.Some?
  {
    if StartsWith(line, "RX:") then Some(Finish(s.(rxHeaders := Words(RemoveAll(line, "RX:"))), line))
    else if StartsWith(line, "TX:") then Some(Finish(s.(txHeaders := Words(RemoveAll(line, "TX:"))), line))
    else
      var d := ValueOf(s.parsed, s.current.value).GetOr(Blank);
      match Annotate(d, line, s.prevLine, s.rxHeaders, s.txHeaders)
      case None => None
      case Some(d') => Some(Finish(s.(parsed := Put(s.parsed, s.current.value, d')), line))
  }

  /** The scan over the remaining lines. */
  function Run(s: Scan, lines: seq<string>): Option<Scan>
    decreases |lines|
  {
    if lines == [] then Some(s)
    else match StepLine(s, lines[0])
      case None => None
      case Some(t) => Run(t, lines[1..])
  }

  /** _parse_interface_detail: the records by name and the base ethernet names. */
  function ParseInterfaceDetail(lines: seq<string>): Option<(seq<(string, Detail)>, set<string>)>
  {
    match Run(Start, lines)
    case None => None
    case Some(t) => Some((t.parsed, t.bases))
  }

  /** The loop of _parse_interface_detail, updating its locals line by line. */
  method ParseInterfaceDetailLoop(lines: seq<string>) returns (r: Option<(seq<(string, Detail)>, set<string>)>)
    ensures r == ParseInterfaceDetail(lines)
  {
    var parsed: seq<(string, Detail)> := [];
    var current: Option<string> := None;
    var rxHeaders: seq<string> := [];
    var txHeaders: seq<string> := [];
    var prevLine := "";
    var bases: set<string> := {};
    var i := 0;
    while i < |lines|
      invariant 0 <= i <= |lines|
      invariant Run(Start, lines) == Run(Scan(parsed, current, rxHeaders, txHeaders, prevLine, bases), lines[i..])
    {
      assert lines[i..][1..] == lines[i + 1..];
      var line := Strip(lines[i]);
      i := i + 1;
      if line == [] {
        continue;
      }
      var header := HeaderName(line);
      if header.Some? {
        var d := HeaderRecord(line);
        if d.None? {
          return None;
        }
        current := header;
        parsed := Put(parsed, header.value, d.value);
      } else if current.None? {
        continue;
      } else if StartsWith(line, "RX:") {
        rxHeaders := Words(RemoveAll(line, "RX:"));
      } else if StartsWith(line, "TX:") {
        txHeaders := Words(RemoveAll(line, "TX:"));
      } else {
        var d := Annotate(ValueOf(parsed, current.value).GetOr(Blank), line, prevLine, rxHeaders, txHeaders);
        if d.None? {
          return None;
        }
        parsed := Put(parsed, current.value, d.value);
      }
      if current.Some? && BaseOf(current.value).Some? {
        bases := bases + {BaseOf(current.value).value};
      }
      prevLine := line;
    }
    r := Some((parsed, bases));
  }

  // ---------------------------------------------------------------------------
  // Properties

  /** A line that strips to nothing, or a non-header line before any header, changes nothing. */
  predicate Ignored(raw: string)
  {
    HeaderName(Strip(raw)).None?
  }

  lemma TailOfAppend<T>(a: seq<T>, b: seq<T>)
    requires a != []
    ensures (a + b)[0] == a[0] && (a + b)[1..] == a[1..] + b
  {
  }

  /** Lines before the first header are ignored. */
  lemma {:induction false} PreambleIgnored(pre: seq<string>, rest: seq<string>)
    requires forall i :: 0 <= i < |pre| ==> Ignored(pre[i])
    ensures Run(Start, pre + rest) == Run(Start, rest)
  {
    if pre != [] {
      assert StepLine(Start, pre[0]) == Some(Start) by {
        var line := Strip(pre[0]);
        assert line != [] ==> StepText(Start, line) == Some(Start);
      }
      var l := pre + rest;
      TailOfAppend(pre, rest);
      assert Run(Start, l) == Run(Start, l[1..]) by {
        assert StepLine(Start, l[0]) == Some(Start);
      }
      PreambleIgnored(pre[1..], rest);
    } else {
      assert pre + rest == rest;
    }
  }

  /** A header line starts a fresh record under its name, makes it current and keeps the other records. */
  lemma HeaderStartsRecord(s: Scan, line: string, name: string)
    requires HeaderName(line) == Some(name)
    ensures var t := StepText(s, line);
      t.Some? <==> HeaderRecord(line).Some?
    ensures var t := StepText(s, line);
      t.Some? ==>
        t.value.current == Some(name) && ValueOf(t.value.parsed, name) == HeaderRecord(line) &&
        (forall k :: k != name ==> ValueOf(t.value.parsed, k) == ValueOf(s.parsed, k))
  {
  }

  /** parts[i + 1] with parts[i] == key. */
  predicate Follows(parts: seq<string>, key: string, v: string)
  {
    exists i :: 0 <= i < |parts| - 1 && parts[i] == key && parts[i + 1] == v
  }

  lemma TokenAfterFollows(parts: seq<string>, key: string)
    ensures var r := TokenAfter(parts, key);
      r.Some? && r.value.Some? ==> Follows(parts, key, r.value.value)
    ensures TokenAfter(parts, key) == Some(None) <==> key !in parts
  {
    if key in parts {
      var i := FirstIndex(parts, key);
      if i + 1 < |parts| {
        assert parts[i] == key && parts[i + 1] == TokenAfter(parts, key).value.value;
      }
    }
  }

  /** The record a header starts is empty but for mtu and state, each read from the token after its name when the line mentions "mtu". */
  lemma HeaderRecordFields(line: string)
    ensures var r := HeaderRecord(line);
      r.Some? ==> r.value.inet == [] && r.value.inet6 == [] && r.value.mac.None? && r.value.rx == [] && r.value.tx == []
    ensures var r := HeaderRecord(line);
      r.Some? && r.value.mtu.Some? ==> HasSub(line, "mtu") && Follows(Words(line), "mtu", r.value.mtu.value)
    ensures var r := HeaderRecord(line);
      r.Some? && r.value.state.Some? ==> HasSub(line, "mtu") && Follows(Words(line), "state", r.value.state.value)
    ensures var r := HeaderRecord(line);
      r.Some? && HasSub(line, "mtu") && "mtu" in Words(line) ==> r.value.mtu.Some?
    ensures !HasSub(line, "mtu") ==> HeaderRecord(line) == Some(Blank)
  {
    TokenAfterFollows(Words(line), "mtu");
    TokenAfterFollows(Words(line), "state");
  }

  /** A line whose first character differs from a prefix's does not start with it. */
  lemma NotPrefixByFirst(line: string, p: string)
    requires line != [] && p != [] && line[0] != p[0]
    ensures !StartsWith(line, p)
  {
  }

  /** The run of non-whitespace stops at the first whitespace character. */
  lemma WordLenStops(s: string, k: nat)
    requires k < |s| && IsSpace(s[k]) && forall i :: 0 <= i < k ==> !IsSpace(s[i])
    ensures WordLen(s) == k
  {
  }

  /** A line starting with "inet" goes to Annotate, past the RX:, TX: and link/ether cases. */
  lemma InetIsAnnotated(s: Scan, line: string)
    requires s.current.Some? && HeaderName(line).None? && line != [] && line[0] == 'i'
    ensures StepText(s, line) == BodyStep(s, line)
    ensures var d := ValueOf(s.parsed, s.current.value).GetOr(Blank);
      BodyStep(s, line) ==
        match Annotate(d, line, s.prevLine, s.rxHeaders, s.txHeaders)
        case None => None
        case Some(d') => Some(Finish(s.(parsed := Put(s.parsed, s.current.value, d')), line))
  {
    NotPrefixByFirst(line, "RX:");
    NotPrefixByFirst(line, "TX:");
  }

  /** Annotate on an "inet " line appends the second token to the addresses. */
  lemma AnnotateInet(d: Detail, line: string, prevLine: string, rxHeaders: seq<string>, txHeaders: seq<string>)
    requires StartsWith(line, "inet ") && Second(line).Some?
    ensures Annotate(d, line, prevLine, rxHeaders, txHeaders) == Some(d.(inet := d.inet + [Second(line).value]))
  {
    assert line[0] == "inet "[0];
    NotPrefixByFirst(line, "link/ether");
  }

  /** A stripped "inet " line (Strip leaves no trailing whitespace) appends the second token to the current record's addresses, in order. */
  lemma InetAppends(s: Scan, line: string)
    requires s.current.Some? && HeaderName(line).None? && StartsWith(line, "inet ") && !IsSpace(line[|line| - 1])
    ensures var t := StepText(s, line);
      var d := ValueOf(s.parsed, s.current.value).GetOr(Blank);
      t.Some? && t.value.current == s.current && |Words(line)| >= 2 &&
      ValueOf(t.value.parsed, s.current.value) == Some(d.(inet := d.inet + [Words(line)[1]]))
  {
    assert line[0] == "inet "[0];
    InetHasSecond(line);
    var d := ValueOf(s.parsed, s.current.value).GetOr(Blank);
    InetIsAnnotated(s, line);
    AnnotateInet(d, line, s.prevLine, s.rxHeaders, s.txHeaders);
  }

  /** An "inet " line that does not end in whitespace has a second token. */
  lemma InetHasSecond(line: string)
    requires StartsWith(line, "inet ") && !IsSpace(line[|line| - 1])
    ensures |Words(line)| >= 2
  {
    assert line[..5] == "inet ";
    assert line[0] == 'i' && line[1] == 'n' && line[2] == 'e' && line[3] == 't' && IsSpace(line[4]);
    assert TrimLeft(line) == line;
    WordLenStops(line, 4);
    var tail := line[4..];
    assert TrimLeft(tail) != [] by {
      assert tail[|tail| - 1] == line[|line| - 1];
    }
    assert Words(line) == [line[..4]] + Words(tail);
  }

  /** Annotate on a digit line after an RX: line pairs the RX headers with the line's words. */
  lemma AnnotateRx(d: Detail, line: string, prevLine: string, rxHeaders: seq<string>, txHeaders: seq<string>)
    requires line != [] && IsDigit(line[0]) && StartsWith(prevLine, "RX:")
    ensures Annotate(d, line, prevLine, rxHeaders, txHeaders) == Some(d.(rx := ZipDict(rxHeaders, Words(line), [])))
  {
    NotPrefixByFirst(line, "link/ether");
    NotPrefixByFirst(line, "inet ");
    NotPrefixByFirst(line, "inet6");
    NotPrefixByFirst(line, "Description:");
  }

  /** A digit line right after an RX: line becomes the current record's RX counters, paired with the RX headers. */
  lemma RxCountersZipped(s: Scan, line: string)
    requires s.current.Some? && StartsWith(s.prevLine, "RX:")
    requires line != [] && IsDigit(line[0]) && HeaderName(line).None?
    ensures var t := StepText(s, line);
      var d := ValueOf(s.parsed, s.current.value).GetOr(Blank);
      t.Some? && ValueOf(t.value.parsed, s.current.value) == Some(d.(rx := ZipDict(s.rxHeaders, Words(line), [])))
  {
    NotPrefixByFirst(line, "RX:");
    NotPrefixByFirst(line, "TX:");
    assert StepText(s, line) == BodyStep(s, line);
    var d := ValueOf(s.parsed, s.current.value).GetOr(Blank);
    AnnotateRx(d, line, s.prevLine, s.rxHeaders, s.txHeaders);
  }

  // ---------------------------------------------------------------------------
  // The base interfaces

  /** The base ethernet name of a header line, if it has one. */
  function HeaderBase(raw: string): Option<string>
  {
    match HeaderName(Strip(raw))
    case Some(n) => BaseOf(n)
    case None => None
  }

  predicate HeaderBaseIn(lines: seq<string>, b: string)
  {
    exists i :: 0 <= i < |lines| && HeaderBase(lines[i]) == Some(b)
  }

  /** The base name of the current interface, if any, is already recorded. */
  predicate Tracked(s: Scan)
  {
    s.current.Some? && BaseOf(s.current.value).Some? ==> BaseOf(s.current.value).value in s.bases
  }

  /** One line records at most the base name of the header it is. */
  lemma StepBases(s: Scan, raw: string)
    requires Tracked(s) && StepLine(s, raw).Some?
    ensures var t := StepLine(s, raw).value;
      Tracked(t) && forall b :: b in t.bases <==> b in s.bases || HeaderBase(raw) == Some(b)
  {
    var line := Strip(raw);
    if line != [] {
      assert StepLine(s, raw) == StepText(s, line);
      StepTextBases(s, line);
    } else {
      assert HeaderRun(line) == 0;
      assert HeaderBase(raw).None?;
    }
  }

  lemma StepTextBases(s: Scan, line: string)
    requires Tracked(s) && StepText(s, line).Some?
    ensures var t := StepText(s, line).value;
      Tracked(t) && forall b :: b in t.bases <==> b in s.bases || (HeaderName(line).Some? && BaseOf(HeaderName(line).value) == Some(b))
  {
    match HeaderName(line)
    case Some(name) =>
      HeaderStepBases(s, line, name);
    case None =>
      if s.current.Some? {
        BodyStepBases(s, line);
      }
  }

  /** A header line makes its interface current and records its base name. */
  lemma HeaderStepBases(s: Scan, line: string, name: string)
    requires HeaderStep(s, line, name).Some?
    ensures var t := HeaderStep(s, line, name).value;
      t.current == Some(name) &&
      t.bases == if BaseOf(name).Some? then s.bases + {BaseOf(name).value} else s.bases
  {
  }

  /** A line about the current interface keeps it current and records nothing new. */
  lemma BodyStepBases(s: Scan, line: string)
    requires s.current.Some?
    ensures var t := BodyStep(s, line);
      t.Some? ==> t.value.current == s.current && t.value.bases == Finish(s, line).bases
  {
  }

  /** The base names gathered are exactly those of the header lines, each a base ethernet name. */
  lemma {:induction false} RunBases(s: Scan, lines: seq<string>)
    requires Tracked(s) && Run(s, lines).Some?
    ensures forall b :: b in Run(s, lines).value.bases <==> b in s.bases || HeaderBaseIn(lines, b)
    decreases |lines|
  {
    if lines != [] {
      var t := StepLine(s, lines[0]).value;
      StepBases(s, lines[0]);
      RunBases(t, lines[1..]);
      forall b ensures HeaderBaseIn(lines, b) <==> HeaderBase(lines[0]) == Some(b) || HeaderBaseIn(lines[1..], b) {
        HeaderBaseInCons(lines, b);
      }
    }
  }

  lemma HeaderBaseInCons(lines: seq<string>, b: string)
    requires lines != []
    ensures HeaderBaseIn(lines, b) <==> HeaderBase(lines[0]) == Some(b) || HeaderBaseIn(lines[1..], b)
  {
    if HeaderBaseIn(lines[1..], b) {
      var i :| 0 <= i < |lines[1..]| && HeaderBase(lines[1..][i]) == Some(b);
      assert HeaderBase(lines[i + 1]) == Some(b);
    }
    if HeaderBaseIn(lines, b) && HeaderBase(lines[0]) != Some(b) {
      var i :| 0 <= i < |lines| && HeaderBase(lines[i]) == Some(b);
      assert i > 0 && lines[1..][i - 1] == lines[i];
    }
  }

  /** _parse_interface_detail's base names: the base ethernet names of its header lines. */
  lemma ParsedBases(lines: seq<string>)
    requires ParseInterfaceDetail(lines).Some?
    ensures forall b :: b in ParseInterfaceDetail(lines).value.1 <==> HeaderBaseIn(lines, b)
    ensures forall b :: b in ParseInterfaceDetail(lines).value.1 ==> BaseLike(b)
  {
    RunBases(Start, lines);
    forall b | b in ParseInterfaceDetail(lines).value.1 ensures BaseLike(b) {
      var i :| 0 <= i < |lines| && HeaderBase(lines[i]) == Some(b);
      var n := HeaderName(Strip(lines[i])).value;
      assert BaseOf(n) == Some(b);
    }
  }
}
