/**
 * ASCII text primitives behind the string handling of the configuration code:
 * whitespace stripping, case mapping, splitting and joining on a separator,
 * and decimal conversion in both directions (str(n) and int(s)).
 */
module Text {
  import opened Wrappers

  predicate IsSpace(c: char) { c == ' ' || c == '\t' || c == '\n' || c == '\r' || c as int == 11 || c as int == 12 }
  predicate IsDigit(c: char) { '0' <= c <= '9' }
  predicate IsLowerAlpha(c: char) { 'a' <= c <= 'z' }
  predicate IsUpperAlpha(c: char) { 'A' <= c <= 'Z' }
  predicate IsAlpha(c: char) { IsLowerAlpha(c) || IsUpperAlpha(c) }
  predicate IsAlnum(c: char) { IsAlpha(c) || IsDigit(c) }
  predicate IsHex(c: char) { IsDigit(c) || 'a' <= c <= 'f' || 'A' <= c <= 'F' }

  predicate AllDigits(s: string) { forall i :: 0 <= i < |s| ==> IsDigit(s[i]) }

  /** Python str.isdigit on ASCII text: non-empty and digits only. */
  predicate IsDigitString(s: string) { |s| > 0 && AllDigits(s) }

  predicate StartsWith(s: string, p: string) { |p| <= |s| && s[..|p|] == p }

  predicate EndsWith(s: string, p: string) { |p| <= |s| && s[|s| - |p|..] == p }

  predicate Contains(s: string, c: char) { c in s }

  /** Leading whitespace removed (str.lstrip). */
  function TrimLeft(s: string): (r: string)
    ensures |r| <= |s| && r == s[|s| - |r|..]
    ensures r == [] || !IsSpace(r[0])
    ensures forall i :: 0 <= i < |s| - |r| ==> IsSpace(s[i])
  {
    if s == [] || !IsSpace(s[0]) then s else TrimLeft(s[1..])
  }

  /** Trailing whitespace removed (str.rstrip). */
  function TrimRight(s: string): (r: string)
    ensures |r| <= |s| && r == s[..|r|]
    ensures r == [] || !IsSpace(r[|r| - 1])
    ensures forall i :: |r| <= i < |s| ==> IsSpace(s[i])
  {
    if s == [] || !IsSpace(s[|s| - 1]) then s else TrimRight(s[..|s| - 1])
  }

  /** Python str.strip() with no argument. */
  function Strip(s: string): (r: string)
    ensures |r| <= |s|
    ensures r == [] || (!IsSpace(r[0]) && !IsSpace(r[|r| - 1]))
    ensures forall c :: c in r ==> c in s
  {
    var l := TrimLeft(s);
    var r := TrimRight(l);
    assert forall c :: c in r ==> c in l;
    r
  }

  /** A string made only of whitespace strips to the empty string, and only such a string does. */
  lemma {:induction false} StripEmptyIffBlank(s: string)
    ensures Strip(s) == [] <==> forall i :: 0 <= i < |s| ==> IsSpace(s[i])
  {
    var l := TrimLeft(s);
    if Strip(s) == [] {
      assert l == [];
    }
  }

  lemma StripIdempotent(s: string)
    ensures Strip(Strip(s)) == Strip(s)
  {
    var r := Strip(s);
    assert TrimLeft(r) == r;
    assert TrimRight(r) == r;
  }

  /** Python strip(chars): removes leading and trailing characters drawn from `cs`. */
  function StripChars(s: string, cs: set<char>): (r: string)
    ensures |r| <= |s|
    ensures r == [] || (r[0] !in cs && r[|r| - 1] !in cs)
    ensures forall c :: c in r ==> c in s
  {
    if s == [] then s
    else if s[0] in cs then StripChars(s[1..], cs)
    else if s[|s| - 1] in cs then StripChars(s[..|s| - 1], cs)
    else s
  }

  function LowerChar(c: char): char { if IsUpperAlpha(c) then (c as int + 32) as char else c }
  function UpperChar(c: char): char { if IsLowerAlpha(c) then (c as int - 32) as char else c }

  /** str.lower() on ASCII letters. */
  function Lower(s: string): (r: string)
    ensures |r| == |s| && forall i :: 0 <= i < |s| ==> r[i] == LowerChar(s[i])
  {
    seq(|s|, i requires 0 <= i < |s| => LowerChar(s[i]))
  }

  lemma LowerIdempotent(s: string)
    ensures Lower(Lower(s)) == Lower(s)
  {
  }

  /** Lower-casing stripped text leaves it stripped. */
  lemma LowerOfStripped(s: string)
    ensures Strip(Lower(Strip(s))) == Lower(Strip(s))
  {
    var t := Strip(s);
    var l := Lower(t);
    if t != [] {
      LowerEnds(t);
      TrimLeftUnchanged(l);
      TrimRightUnchanged(l);
    }
  }

  /** Lower keeps the first and last characters non-whitespace. */
  lemma LowerEnds(t: string)
    requires t != [] && !IsSpace(t[0]) && !IsSpace(t[|t| - 1])
    ensures var l := Lower(t); l != [] && !IsSpace(l[0]) && !IsSpace(l[|l| - 1])
  {
    var l := Lower(t);
    assert l[0] == LowerChar(t[0]) && l[|l| - 1] == LowerChar(t[|t| - 1]);
    LowerCharKeepsSpace(t[0]);
    LowerCharKeepsSpace(t[|t| - 1]);
  }

  lemma TrimLeftUnchanged(s: string)
    requires s == [] || !IsSpace(s[0])
    ensures TrimLeft(s) == s
  {
  }

  lemma TrimRightUnchanged(s: string)
    requires s == [] || !IsSpace(s[|s| - 1])
    ensures TrimRight(s) == s
  {
  }

  lemma LowerCharKeepsSpace(c: char)
    ensures IsSpace(LowerChar(c)) == IsSpace(c)
  {
  }

  /** str.upper() on ASCII letters. */
  function Upper(s: string): (r: string)
    ensures |r| == |s| && forall i :: 0 <= i < |s| ==> r[i] == UpperChar(s[i])
  {
    seq(|s|, i requires 0 <= i < |s| => UpperChar(s[i]))
  }

  /** Python str.split(sep) for a one-character separator: never empty, no part contains sep. */
  function Split(s: string, sep: char): (parts: seq<string>)
    ensures |parts| >= 1
    ensures forall p :: p in parts ==> sep !in p
    decreases |s|
  {
    if sep !in s then [s]
    else
      var i := IndexOf(s, sep);
      [s[..i]] + Split(s[i + 1..], sep)
  }

  /** Position of the first occurrence of `c` in `s`. */
  function IndexOf(s: string, c: char): (i: nat)
    requires c in s
    ensures i < |s| && s[i] == c && c !in s[..i]
  {
    if s[0] == c then 0 else 1 + IndexOf(s[1..], c)
  }

  /** Python sep.join(parts). */
  function Join(parts: seq<string>, sep: string): string
  {
    if parts == [] then [] else if |parts| == 1 then parts[0] else parts[0] + sep + Join(parts[1..], sep)
  }

  /** Joining the pieces of a split restores the input. */
  lemma {:induction false} JoinSplit(s: string, sep: char)
    ensures Join(Split(s, sep), [sep]) == s
    decreases |s|
  {
    if sep in s {
      var i := IndexOf(s, sep);
      JoinSplit(s[i + 1..], sep);
      assert s == s[..i] + [sep] + s[i + 1..];
    }
  }

  /** The separator's first position in `a + [c] + b` is just after `a` when `a` lacks it. */
  lemma IndexOfAfter(a: string, c: char, b: string)
    requires c !in a
    ensures c in a + [c] + b && IndexOf(a + [c] + b, c) == |a|
    ensures (a + [c] + b)[..|a|] == a && (a + [c] + b)[|a| + 1..] == b
  {
    if a != [] {
      assert (a + [c] + b)[1..] == a[1..] + [c] + b;
      IndexOfAfter(a[1..], c, b);
    }
  }

  /** Splitting a join restores the parts when no part holds the separator. */
  lemma {:induction false} SplitJoin(parts: seq<string>, sep: char)
    requires parts != []
    requires forall p :: p in parts ==> sep !in p
    ensures Split(Join(parts, [sep]), sep) == parts
  {
    if |parts| > 1 {
      var rest := Join(parts[1..], [sep]);
      var s := parts[0] + [sep] + rest;
      assert Join(parts, [sep]) == s;
      assert parts[0] in parts;
      IndexOfAfter(parts[0], sep, rest);
      assert Split(s, sep) == [parts[0]] + Split(rest, sep);
      assert forall p :: p in parts[1..] ==> p in parts;
      SplitJoin(parts[1..], sep);
      assert parts == [parts[0]] + parts[1..];
    } else {
      assert parts[0] in parts;
    }
  }

  /** The parts that are not the empty string, in order (Python filter(None, parts)). */
  function NonEmpty(parts: seq<string>): (r: seq<string>)
    ensures forall p :: p in r ==> p != []
    ensures forall p :: p in r <==> p in parts && p != []
    ensures r == [] <==> forall i :: 0 <= i < |parts| ==> parts[i] == []
  {
    if parts == [] then []
    else if parts[0] == [] then NonEmpty(parts[1..])
    else [parts[0]] + NonEmpty(parts[1..])
  }

  /** Joining non-empty parts is empty only when there are no parts. */
  lemma JoinNonEmpty(parts: seq<string>, sep: string)
    requires forall p :: p in parts ==> p != []
    ensures Join(parts, sep) == [] <==> parts == []
  {
    if |parts| > 1 {
      assert parts[0] in parts;
    } else if |parts| == 1 {
      assert parts[0] in parts;
    }
  }

  /** A non-empty run of non-whitespace characters. */
  predicate IsWord(w: string)
  {
    w != [] && forall c :: c in w ==> !IsSpace(c)
  }

  /** Python str.split() without arguments: maximal runs of non-whitespace characters. */
  function Words(s: string): (ws: seq<string>)
    ensures forall w :: w in ws ==> IsWord(w)
    decreases |s|
  {
    var t := TrimLeft(s);
    if t == [] then []
    else
      var n := WordLen(t);
      var w := t[..n];
      var rest := Words(t[n..]);
      assert IsWord(w) by {
        forall c | c in w ensures !IsSpace(c) {
          var i :| 0 <= i < |w| && w[i] == c;
          assert w[i] == t[i];
        }
      }
      assert forall x :: x in [w] + rest ==> x == w || x in rest;
      [w] + rest
  }

  /** Length of the leading run of non-whitespace characters. */
  function WordLen(s: string): (n: nat)
    ensures n <= |s| && forall i :: 0 <= i < n ==> !IsSpace(s[i])
    ensures n < |s| ==> IsSpace(s[n])
    ensures s != [] && !IsSpace(s[0]) ==> n > 0
  {
    if s == [] || IsSpace(s[0]) then 0 else 1 + WordLen(s[1..])
  }

  function DigitChar(d: nat): char
    requires d < 10
  {
    ('0' as int + d) as char
  }

  function DigitValue(c: char): nat
    requires IsDigit(c)
  {
    c as int - '0' as int
  }

  /** Python str(n) for a natural number. */
  function NatStr(n: nat): (r: string)
    ensures IsDigitString(r)
    ensures r[0] == '0' ==> n == 0
  {
    if n < 10 then [DigitChar(n)] else NatStr(n / 10) + [DigitChar(n % 10)]
  }

  /** Python str(i) for an integer. */
  function IntStr(i: int): (r: string)
    ensures r != []
  {
    if i < 0 then "-" + NatStr(-i) else NatStr(i)
  }

  /** str(100), the first number the rule pages hand out. */
  lemma HundredStr()
    ensures IntStr(100) == "100"
  {
    assert NatStr(1) == "1";
    assert NatStr(10) == NatStr(1) + "0";
    assert NatStr(100) == NatStr(10) + "0";
  }

  /** "tcp_udp", the protocol a rule with ports falls back to, is stripped and lower case. */
  lemma TcpUdpNormal()
    ensures Strip("tcp_udp") == "tcp_udp" && Lower("tcp_udp") == "tcp_udp"
  {
    TcpUdpStripped();
    TcpUdpLower();
  }

  lemma TcpUdpStripped()
    ensures Strip("tcp_udp") == "tcp_udp"
  {
    var t := "tcp_udp";
    assert t[0] == 't' && t[6] == 'p';
    StripUnchanged(t);
  }

  lemma TcpUdpLower()
    ensures Lower("tcp_udp") == "tcp_udp"
  {
    var t := "tcp_udp";
    assert t[0] == 't' && t[1] == 'c' && t[2] == 'p' && t[3] == '_' && t[4] == 'u' && t[5] == 'd' && t[6] == 'p';
    var l := Lower(t);
    assert l[0] == 't' && l[1] == 'c' && l[2] == 'p' && l[3] == '_' && l[4] == 'u' && l[5] == 'd' && l[6] == 'p';
  }

  /** Value of a run of decimal digits. */
  function DigitsValue(s: string): nat
    requires AllDigits(s)
  {
    if s == [] then 0 else DigitsValue(s[..|s| - 1]) * 10 + DigitValue(s[|s| - 1])
  }

  lemma {:induction false} DigitsValueNatStr(n: nat)
    ensures DigitsValue(NatStr(n)) == n
  {
    if n >= 10 {
      var s := NatStr(n / 10) + [DigitChar(n % 10)];
      assert s[..|s| - 1] == NatStr(n / 10);
      DigitsValueNatStr(n / 10);
    }
  }

  /** Two natural numbers print the same only when they are equal. */
  lemma NatStrInjective(a: nat, b: nat)
    requires NatStr(a) == NatStr(b)
    ensures a == b
  {
    DigitsValueNatStr(a);
    DigitsValueNatStr(b);
  }

  lemma IntStrInjective(a: int, b: int)
    requires IntStr(a) == IntStr(b)
    ensures a == b
  {
    if a < 0 && b < 0 {
      assert NatStr(-a) == IntStr(a)[1..];
      NatStrInjective(-a, -b);
    } else if a >= 0 && b >= 0 {
      NatStrInjective(a, b);
    }
  }

  /**
   * Python int(s) for decimal text: surrounding whitespace ignored, one optional
   * sign, then at least one ASCII digit. Anything else raises ValueError (None).
   */
  function ParseInt(s: string): (r: Option<int>)
    ensures r.Some? ==> Strip(s) != []
  {
    var t := Strip(s);
    if t == [] then None
    else if t[0] == '-' || t[0] == '+' then
      var body := t[1..];
      if IsDigitString(body) then Some(if t[0] == '-' then 0 - DigitsValue(body) else DigitsValue(body)) else None
    else if IsDigitString(t) then Some(DigitsValue(t))
    else None
  }

  /** int(str(i)) == i. */
  lemma StripUnchanged(s: string)
    requires s != [] && !IsSpace(s[0]) && !IsSpace(s[|s| - 1])
    ensures Strip(s) == s
  {
    TrimLeftUnchanged(s);
    TrimRightUnchanged(s);
  }

  lemma ParseIntStr(i: int)
    ensures ParseInt(IntStr(i)) == Some(i)
  {
    var s := IntStr(i);
    if i < 0 {
      var b := NatStr(-i);
      assert s == "-" + b && s[1..] == b;
      assert IsDigit(s[|s| - 1]);
      StripUnchanged(s);
      DigitsValueNatStr(-i);
    } else {
      assert IsDigit(s[0]) && IsDigit(s[|s| - 1]);
      StripUnchanged(s);
      DigitsValueNatStr(i);
    }
  }
}
