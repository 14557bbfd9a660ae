/**
 * IPv4 CIDR text checks: is_valid_cidr (the dotted-quad "/" prefix pattern
 * with range checks, in the app and legacy utility modules), the browser's
 * isValidIpv4Cidr, and is_valid_network_prefix, which also asks that the
 * address's octet holding the prefix boundary is aligned to the prefix
 * (classless prefixes as in RFC 4632 section 3.1).
 *
 * Digits are ASCII digits. Python's "$" also matches before one final
 * newline; the browser's does not.
 */
module Ipv4 {
  import opened Wrappers
  import opened Text

  /** The pieces the pattern captures: four octet texts and the prefix text. */
  datatype CidrText = CidrText(octets: seq<string>, prefix: string)

  predicate DigitRun(s: string, maxLen: nat)
  {
    1 <= |s| <= maxLen && AllDigits(s)
  }

  /** d{1,3} . d{1,3} . d{1,3} . d{1,3} / d{1,2} */
  predicate WellShaped(x: CidrText)
  {
    |x.octets| == 4 && (forall i :: 0 <= i < 4 ==> DigitRun(x.octets[i], 3)) && DigitRun(x.prefix, 2)
  }

  function FormatCidr(x: CidrText): string
  {
    Join(x.octets, ".") + "/" + x.prefix
  }

  /** The pattern matched against the whole text, by splitting at "/" and ".". */
  function MatchShape(s: string): (r: Option<CidrText>)
    ensures r.Some? ==> WellShaped(r.value)
  {
    var parts := Split(s, '/');
    if |parts| != 2 then Option.None
    else
      var x := CidrText(Split(parts[0], '.'), parts[1]);
      if WellShaped(x) then Some(x) else Option.None
  }

  lemma {:induction false} JoinAvoids(parts: seq<string>, sep: string, c: char)
    requires c !in sep && forall p :: p in parts ==> c !in p
    ensures c !in Join(parts, sep)
    decreases |parts|
  {
    if |parts| > 1 {
      JoinAvoids(parts[1..], sep, c);
    }
  }

  lemma JoinPair(a: string, b: string, sep: string)
    ensures Join([a, b], sep) == a + sep + b
  {
    assert [a, b][1..] == [b];
  }

  lemma AllDigitsAvoid(s: string, c: char)
    requires AllDigits(s) && !IsDigit(c)
    ensures c !in s
  {
  }

  /** Any text the pattern accepts is the four octets and the prefix, written out. */
  lemma MatchShapeSound(s: string)
    requires MatchShape(s).Some?
    ensures s == FormatCidr(MatchShape(s).value)
  {
    var parts := Split(s, '/');
    JoinSplit(s, '/');
    JoinPair(parts[0], parts[1], "/");
    assert parts == [parts[0], parts[1]];
    JoinSplit(parts[0], '.');
  }

  /** Writing out well-shaped pieces gives text the pattern accepts, with the same pieces. */
  lemma MatchShapeComplete(x: CidrText)
    requires WellShaped(x)
    ensures MatchShape(FormatCidr(x)) == Some(x)
  {
    var ip := Join(x.octets, ".");
    forall o | o in x.octets ensures '.' !in o && '/' !in o {
      var i :| 0 <= i < 4 && x.octets[i] == o;
      AllDigitsAvoid(o, '.');
      AllDigitsAvoid(o, '/');
    }
    JoinAvoids(x.octets, ".", '/');
    AllDigitsAvoid(x.prefix, '/');
    JoinPair(ip, x.prefix, "/");
    SplitJoin([ip, x.prefix], '/');
    SplitJoin(x.octets, '.');
  }

  /** CIDR_PATTERN.match: as above, or on the text without one final newline. */
  function PyCidrMatch(s: string): (r: Option<CidrText>)
    ensures r.Some? ==> WellShaped(r.value)
  {
    if |s| > 0 && s[|s| - 1] == '\n' then MatchShape(s[..|s| - 1]) else MatchShape(s)
  }

  predicate InRange(x: CidrText)
    requires WellShaped(x)
  {
    (forall i :: 0 <= i < 4 ==> DigitsValue(x.octets[i]) <= 255) && DigitsValue(x.prefix) <= 32
  }

  /** is_valid_cidr: non-empty, matches the pattern, octets at most 255, prefix at most 32. */
  function IsValidCidr(address: Option<string>): bool
  {
    match address
    case None => false
    case Some(s) =>
      s != [] &&
      match PyCidrMatch(s)
      case None => false
      case Some(x) => InRange(x)
  }

  /** A text written from in-range pieces is accepted, with or without one final newline. */
  lemma IsValidCidrOfFormat(x: CidrText)
    requires WellShaped(x) && InRange(x)
    ensures IsValidCidr(Some(FormatCidr(x))) && IsValidCidr(Some(FormatCidr(x) + "\n"))
  {
    var s := FormatCidr(x);
    MatchShapeComplete(x);
    assert s[|s| - 1] == x.prefix[|x.prefix| - 1];
    assert (s + "\n")[..|s|] == s;
  }

  /**
   * is_valid_cidr accepts exactly the in-range dotted quads with a prefix,
   * optionally followed by one newline.
   */
  lemma IsValidCidrIff(s: string)
    ensures IsValidCidr(Some(s)) <==>
      exists x :: WellShaped(x) && InRange(x) && (s == FormatCidr(x) || s == FormatCidr(x) + "\n")
  {
    if IsValidCidr(Some(s)) {
      var x := PyCidrMatch(s).value;
      if |s| > 0 && s[|s| - 1] == '\n' {
        var t := s[..|s| - 1];
        MatchShapeSound(t);
        assert s == t + "\n";
      } else {
        MatchShapeSound(s);
      }
      assert WellShaped(x) && InRange(x) && (s == FormatCidr(x) || s == FormatCidr(x) + "\n");
    }
    if exists x :: WellShaped(x) && InRange(x) && (s == FormatCidr(x) || s == FormatCidr(x) + "\n") {
      var x :| WellShaped(x) && InRange(x) && (s == FormatCidr(x) || s == FormatCidr(x) + "\n");
      IsValidCidrOfFormat(x);
    }
  }

  /**
   * isValidIpv4Cidr: non-empty, the same pattern without a newline allowance,
   * Number() of each octet at most 255 and of the prefix at most 32.
   */
  function IsValidIpv4CidrJs(address: Option<string>): bool
  {
    match address
    case None => false
    case Some(s) =>
      s != [] &&
      match MatchShape(s)
      case None => false
      case Some(x) => InRange(x)
  }

  /** The browser and the server agree on every text that does not end in a newline. */
  lemma JsAgreesWithoutNewline(s: string)
    requires s == [] || s[|s| - 1] != '\n'
    ensures IsValidIpv4CidrJs(Some(s)) == IsValidCidr(Some(s))
  {
  }

  /** One final newline is accepted by the server's pattern and refused by the browser's. */
  lemma TrailingNewlineDisagrees(x: CidrText)
    requires WellShaped(x) && InRange(x)
    ensures IsValidCidr(Some(FormatCidr(x) + "\n"))
    ensures !IsValidIpv4CidrJs(Some(FormatCidr(x) + "\n"))
  {
    IsValidCidrOfFormat(x);
    var s := FormatCidr(x) + "\n";
    if MatchShape(s).Some? {
      MatchShapeSound(s);
    }
  }

  /** Leading zeros pass both checks: "010" counts as 10. */
  lemma LeadingZerosAccepted()
    ensures IsValidIpv4CidrJs(Some("010.0.0.1/24")) && IsValidCidr(Some("010.0.0.1/24"))
  {
    var x := CidrText(["010", "0", "0", "1"], "24");
    LeadingZerosText(x);
    IsValidCidrOfFormat(x);
    JsAgreesWithoutNewline("010.0.0.1/24");
  }

  lemma LeadingZerosText(x: CidrText)
    requires x == CidrText(["010", "0", "0", "1"], "24")
    ensures WellShaped(x) && InRange(x) && FormatCidr(x) == "010.0.0.1/24"
  {
    assert Join(x.octets, ".") == "010.0.0.1";
    assert DigitsValue("010") == 10 by {
      assert "010"[..2] == "01" && "01"[..1] == "0";
    }
    assert DigitsValue("24") == 24 by {
      assert "24"[..1] == "2";
    }
  }

  // ---------------------------------------------------------------------------
  // Network prefix alignment

  function Pow2(k: nat): (r: nat)
    ensures r >= 1
  {
    if k == 0 then 1 else 2 * Pow2(k - 1)
  }

  /** What is_valid_network_prefix returns: (is_valid, error_message). */
  datatype PrefixCheck = PrefixCheck(valid: bool, message: Option<string>)

  const Accepted := PrefixCheck(true, Option.None)

  function Refused(message: string): PrefixCheck
  {
    PrefixCheck(false, Some(message))
  }

  /** The largest multiple of m not above v: the octet of the suggested network. */
  function AlignDown(v: nat, m: nat): nat
    requires m >= 1
  {
    (v / m) * m
  }

  /** The octet position the check looks at (0 = first) for a prefix below 24. */
  function CheckedOctet(p: nat): nat
    requires p < 24
  {
    if p >= 16 then 2 else if p >= 8 then 1 else 0
  }

  /** The modulus for that octet: 2 to the number of host bits inside it. */
  function Modulus(p: nat): nat
    requires p < 24
  {
    Pow2(8 * (CheckedOctet(p) + 1) - p)
  }

  function OctetName(i: nat): string
  {
    if i == 2 then "third" else if i == 1 then "second" else "first"
  }

  /**
   * The "Did you mean" text: the octets before the checked one, the checked
   * one aligned down, zeros after it, and the same prefix.
   */
  function SuggestedNetwork(o: seq<nat>, p: nat): string
    requires |o| == 4 && p < 24
  {
    FormatCidr(SuggestedPieces(o, p))
  }

  /** The alignment rule: below /24, the checked octet is a multiple of the modulus. */
  predicate Aligned(o: seq<nat>, p: nat)
    requires |o| == 4
  {
    p >= 24 || o[CheckedOctet(p)] % Modulus(p) == 0
  }

  /** The branch on the prefix length, with the message of each refusal. */
  function AlignmentCheck(address: string, o: seq<nat>, p: nat): (r: PrefixCheck)
    requires |o| == 4
    ensures r.valid <==> Aligned(o, p)
    ensures r.valid <==> r.message.None?
  {
    if p >= 24 then Accepted
    else
      var k := CheckedOctet(p);
      var m := Modulus(p);
      if o[k] % m == 0 then Accepted
      else
        Refused(address + " is not a valid network prefix. For /" + NatStr(p) + ", the " + OctetName(k) +
          " octet must be divisible by " + NatStr(m) + ". Did you mean " + SuggestedNetwork(o, p) + "?")
  }

  /** An octet text ipaddress.IPv4Address accepts: 1 to 3 digits, no leading zero, at most 255. */
  predicate StrictOctet(s: string)
  {
    DigitRun(s, 3) && !(|s| > 1 && s[0] == '0') && DigitsValue(s) <= 255
  }

  function OctetValues(octs: seq<string>): (r: seq<nat>)
    requires forall i :: 0 <= i < |octs| ==> AllDigits(octs[i])
    ensures |r| == |octs| && forall i :: 0 <= i < |octs| ==> r[i] == DigitsValue(octs[i])
  {
    seq(|octs|, i requires 0 <= i < |octs| => DigitsValue(octs[i]))
  }

  /**
   * is_valid_network_prefix. `detail` is the text of the ValueError the
   * ipaddress module raises, which this model does not reproduce.
   */
  function IsValidNetworkPrefix(address: Option<string>, detail: string): (r: PrefixCheck)
    ensures r.valid <==> r.message.None?
  {
    if address.None? || address.value == [] then Refused("No address provided")
    else if !IsValidCidr(address) then Refused("Invalid CIDR notation")
    else
      var s := address.value;
      var parts := Split(s, '/');
      if |parts| != 2 then Refused("Invalid CIDR format")
      else
        var addressError := Refused("Invalid IP address format: " + detail);
        match ParseInt(parts[1])
        case None => addressError
        case Some(p) =>
          var octs := Split(parts[0], '.');
          if |octs| != 4 || exists i :: 0 <= i < 4 && !StrictOctet(octs[i]) then addressError
          else if !IsDigitString(parts[1]) || p < 0 || p > 32 then addressError
          else AlignmentCheck(s, OctetValues(octs), p)
  }

  lemma ParseDigits(s: string)
    requires IsDigitString(s)
    ensures ParseInt(s) == Some(DigitsValue(s))
  {
    StripUnchanged(s);
  }

  /** Splitting written-out pieces (with any slash-free tail) recovers them. */
  lemma FormatSplit(x: CidrText, tail: string)
    requires WellShaped(x) && '/' !in tail
    ensures Split(Join(x.octets, ".") + "/" + (x.prefix + tail), '/') == [Join(x.octets, "."), x.prefix + tail]
    ensures Split(Join(x.octets, "."), '.') == x.octets
  {
    var ip := Join(x.octets, ".");
    forall o | o in x.octets ensures '.' !in o && '/' !in o {
      var i :| 0 <= i < 4 && x.octets[i] == o;
      AllDigitsAvoid(o, '.');
      AllDigitsAvoid(o, '/');
    }
    JoinAvoids(x.octets, ".", '/');
    AllDigitsAvoid(x.prefix, '/');
    JoinPair(ip, x.prefix + tail, "/");
    SplitJoin([ip, x.prefix + tail], '/');
    SplitJoin(x.octets, '.');
  }

  predicate LeadingZero(o: string)
  {
    |o| > 1 && o[0] == '0'
  }

  /**
   * For text is_valid_cidr accepts: ipaddress refuses a final newline and an
   * octet with a leading zero; otherwise only the alignment rule decides.
   */
  lemma NetworkPrefixCases(x: CidrText, tail: string, detail: string)
    requires WellShaped(x) && InRange(x) && (tail == "" || tail == "\n")
    ensures IsValidNetworkPrefix(Some(FormatCidr(x) + tail), detail) ==
      if tail == "\n" || exists i :: 0 <= i < 4 && LeadingZero(x.octets[i])
      then Refused("Invalid IP address format: " + detail)
      else AlignmentCheck(FormatCidr(x) + tail, OctetValues(x.octets), DigitsValue(x.prefix))
  {
    var s := FormatCidr(x) + tail;
    IsValidCidrOfFormat(x);
    assert s == Join(x.octets, ".") + "/" + (x.prefix + tail);
    assert s != [];
    FormatSplit(x, tail);
    if tail == "" {
      assert x.prefix + tail == x.prefix;
      ParseDigits(x.prefix);
    } else {
      assert (x.prefix + tail)[|x.prefix|] == '\n';
      assert !IsDigitString(x.prefix + tail);
    }
  }

  /** Everything is_valid_network_prefix accepts, as pieces. */
  predicate AcceptedPieces(x: CidrText)
  {
    WellShaped(x) && InRange(x) && (forall i :: 0 <= i < 4 ==> !LeadingZero(x.octets[i])) &&
    Aligned(OctetValues(x.octets), DigitsValue(x.prefix))
  }

  /**
   * is_valid_network_prefix accepts exactly the in-range dotted quads with no
   * leading zeros and no final newline whose boundary octet is aligned.
   */
  lemma NetworkPrefixValidIff(s: string, detail: string)
    ensures IsValidNetworkPrefix(Some(s), detail).valid <==> exists x :: AcceptedPieces(x) && s == FormatCidr(x)
  {
    if IsValidNetworkPrefix(Some(s), detail).valid {
      IsValidCidrIff(s);
      var x :| WellShaped(x) && InRange(x) && (s == FormatCidr(x) || s == FormatCidr(x) + "\n");
      if s == FormatCidr(x) {
        assert s == FormatCidr(x) + "";
        NetworkPrefixCases(x, "", detail);
        assert AcceptedPieces(x);
      } else {
        NetworkPrefixCases(x, "\n", detail);
      }
    }
    if exists x :: AcceptedPieces(x) && s == FormatCidr(x) {
      var x :| AcceptedPieces(x) && s == FormatCidr(x);
      assert s == FormatCidr(x) + "";
      NetworkPrefixCases(x, "", detail);
    }
  }

  /** The octets of the suggested network. */
  function SuggestedOctets(o: seq<nat>, p: nat): (r: seq<nat>)
    requires |o| == 4 && p < 24
    ensures |r| == 4
  {
    var k := CheckedOctet(p);
    seq(4, i requires 0 <= i < 4 => if i < k then o[i] else if i == k then AlignDown(o[k], Modulus(p)) else 0)
  }

  /** Euclidean division is determined by quotient and remainder. */
  lemma DivModUnique(a: int, m: int, q: int, r: int)
    requires m > 0 && 0 <= r < m && a == q * m + r
    ensures a / m == q && a % m == r
  {
    var q', r' := a / m, a % m;
    assert a == q' * m + r';
    assert (q - q') * m == r' - r;
    assert q - q' >= 1 ==> (q - q') * m >= m;
    assert q' - q >= 1 ==> (q' - q) * m >= m;
  }

  /** Aligning down gives a multiple of m within m below the value. */
  lemma AlignDownBounds(v: nat, m: nat)
    requires m >= 1
    ensures AlignDown(v, m) <= v < AlignDown(v, m) + m
    ensures AlignDown(v, m) % m == 0
  {
    var q := v / m;
    assert v == q * m + v % m;
    DivModUnique(q * m, m, q, 0);
  }

  lemma NatStrShort(n: nat)
    ensures n < 10 ==> |NatStr(n)| == 1
    ensures n < 100 ==> |NatStr(n)| <= 2
    ensures n < 1000 ==> |NatStr(n)| <= 3
  {
    if n >= 10 {
      NatStrShort(n / 10);
    }
  }

  /** The printed form of a number below 256 is an octet ipaddress accepts. */
  lemma NatStrOctet(n: nat)
    requires n <= 255
    ensures DigitRun(NatStr(n), 3) && !LeadingZero(NatStr(n)) && DigitsValue(NatStr(n)) == n
  {
    NatStrShort(n);
    DigitsValueNatStr(n);
  }

  /** The suggested network, as pieces. */
  function SuggestedPieces(o: seq<nat>, p: nat): CidrText
    requires |o| == 4 && p < 24
  {
    var s := SuggestedOctets(o, p);
    CidrText([NatStr(s[0]), NatStr(s[1]), NatStr(s[2]), NatStr(s[3])], NatStr(p))
  }

  /**
   * The "Did you mean" suggestion is itself accepted, and it is the aligned
   * network whose checked octet lies within one modulus below the address's.
   */
  lemma SuggestionAccepted(o: seq<nat>, p: nat, detail: string)
    requires |o| == 4 && (forall i :: 0 <= i < 4 ==> o[i] <= 255) && p < 24
    ensures IsValidNetworkPrefix(Some(SuggestedNetwork(o, p)), detail).valid
    ensures var k := CheckedOctet(p);
      var c := SuggestedOctets(o, p)[k];
      c <= o[k] < c + Modulus(p)
  {
    var k := CheckedOctet(p);
    var so := SuggestedOctets(o, p);
    AlignDownBounds(o[k], Modulus(p));
    var x := SuggestedPieces(o, p);
    forall i | 0 <= i < 4
      ensures DigitRun(x.octets[i], 3) && !LeadingZero(x.octets[i]) && DigitsValue(x.octets[i]) == so[i]
    {
      NatStrOctet(so[i]);
    }
    NatStrOctet(p);
    assert OctetValues(x.octets) == so;
    assert AcceptedPieces(x);
    NetworkPrefixValidIff(SuggestedNetwork(o, p), detail);
  }

  /** 10.5.4.1/23 passes: the third octet 4 is even. */
  lemma AlignedExample(detail: string)
    ensures IsValidNetworkPrefix(Some("10.5.4.1/23"), detail).valid
  {
    var x := CidrText(["10", "5", "4", "1"], "23");
    AlignedPieces();
    assert AcceptedPieces(x) && "10.5.4.1/23" == FormatCidr(x);
    NetworkPrefixValidIff("10.5.4.1/23", detail);
  }

  lemma AlignedPieces()
    ensures var x := CidrText(["10", "5", "4", "1"], "23");
      AcceptedPieces(x) && FormatCidr(x) == "10.5.4.1/23"
  {
    var x := CidrText(["10", "5", "4", "1"], "23");
    ExampleText("4", 4);
    assert Modulus(23) == 2;
    assert CheckedOctet(23) == 2;
    assert OctetValues(x.octets)[2] % 2 == 0;
  }

  lemma ExamplePieces()
    ensures var x := CidrText(["10", "5", "5", "1"], "23");
      WellShaped(x) && InRange(x) && (forall i :: 0 <= i < 4 ==> !LeadingZero(x.octets[i])) &&
      OctetValues(x.octets) == [10, 5, 5, 1] && DigitsValue(x.prefix) == 23 && FormatCidr(x) == "10.5.5.1/23"
  {
    ExampleText("5", 5);
  }

  /** The pieces of 10.5.t.1/23 for a one-digit third octet t. */
  lemma ExampleText(third: string, t: int)
    requires (third == "4" && t == 4) || (third == "5" && t == 5)
    ensures var x := CidrText(["10", "5", third, "1"], "23");
      WellShaped(x) && InRange(x) && (forall i :: 0 <= i < 4 ==> !LeadingZero(x.octets[i])) &&
      OctetValues(x.octets) == [10, 5, t, 1] && DigitsValue(x.prefix) == 23 &&
      FormatCidr(x) == "10.5." + third + ".1/23"
  {
    var x := CidrText(["10", "5", third, "1"], "23");
    assert DigitsValue("10") == 10 by {
      assert "10"[..1] == "1";
    }
    assert DigitsValue("23") == 23 by {
      assert "23"[..1] == "2";
    }
    assert DigitsValue(third) == t by {
      assert third[..0] == [];
    }
    var v := OctetValues(x.octets);
    assert v[0] == 10 && v[1] == 5 && v[2] == t && v[3] == 1;
    assert v == [10, 5, t, 1];
    assert WellShaped(x);
    ExampleJoin(third);
  }

  lemma ExampleJoin(third: string)
    ensures Join(["10", "5", third, "1"], ".") == "10.5." + third + ".1"
  {
    assert ["10", "5", third, "1"][1..] == ["5", third, "1"];
    assert ["5", third, "1"][1..] == [third, "1"];
    assert [third, "1"][1..] == ["1"];
    assert Join([third, "1"], ".") == third + ".1";
    assert Join(["5", third, "1"], ".") == "5." + third + ".1";
  }

  lemma ExampleReachesAlignment(detail: string)
    ensures IsValidNetworkPrefix(Some("10.5.5.1/23"), detail) == AlignmentCheck("10.5.5.1/23", [10, 5, 5, 1], 23)
  {
    var x := CidrText(["10", "5", "5", "1"], "23");
    ExamplePieces();
    assert FormatCidr(x) + "" == "10.5.5.1/23";
    NetworkPrefixCases(x, "", detail);
  }

  lemma ExampleSuggestion()
    ensures SuggestedNetwork([10, 5, 5, 1], 23) == "10.5.4.0/23"
  {
    var o := [10, 5, 5, 1];
    assert Modulus(23) == 2;
    assert NatStr(23) == "23" && NatStr(10) == "10";
    assert SuggestedOctets(o, 23) == [10, 5, 4, 0];
    assert SuggestedPieces(o, 23) == CidrText(["10", "5", "4", "0"], "23");
    JoinFourExample();
  }

  lemma JoinFourExample()
    ensures Join(["10", "5", "4", "0"], ".") == "10.5.4.0"
  {
    assert ["10", "5", "4", "0"][1..] == ["5", "4", "0"];
    assert ["5", "4", "0"][1..] == ["4", "0"];
    assert ["4", "0"][1..] == ["0"];
  }

  /** 10.5.5.1/23 is refused, with 10.5.4.0/23 as the suggestion. */
  lemma MisalignedExample(detail: string)
    ensures IsValidNetworkPrefix(Some("10.5.5.1/23"), detail) ==
      Refused("10.5.5.1/23" + " is not a valid network prefix. For /" + "23" + ", the " + "third" +
        " octet must be divisible by " + "2" + ". Did you mean " + "10.5.4.0/23" + "?")
  {
    ExampleReachesAlignment(detail);
    ExampleSuggestion();
    assert Modulus(23) == 2 && CheckedOctet(23) == 2;
    assert NatStr(23) == "23" && NatStr(2) == "2";
  }
}
