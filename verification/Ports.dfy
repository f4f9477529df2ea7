/**
 * Port lists as text (parsePorts and the port printing of CreateFirewallOptsForSvc in
 * cloud/linode/services/firewalls.go), with the parts of `strings` and `strconv` they use.
 */
module Ports {
  import opened Wrappers

  const INT32_MAX := 0x7FFF_FFFF
  const INT32_MIN := -0x8000_0000

  type Int32 = n: int | INT32_MIN <= n <= INT32_MAX

  // ---------------------------------------------------------------------------
  // strconv
  // ---------------------------------------------------------------------------

  const DIGITS := "0123456789"

  predicate IsDigit(ch: char) {
    '0' <= ch <= '9'
  }

  function DigitValue(ch: char): nat
    requires IsDigit(ch)
  {
    ch as int - '0' as int
  }

  predicate AllDigits(s: string) {
    forall i :: 0 <= i < |s| ==> IsDigit(s[i])
  }

  function Digits(n: nat): string {
    if n < 10 then [DIGITS[n]] else Digits(n / 10) + [DIGITS[n % 10]]
  }

  /** strconv.Itoa */
  function Itoa(n: int): string {
    if n < 0 then "-" + Digits(-n) else Digits(n)
  }

  function DigitsValue(s: string): nat
    requires AllDigits(s)
  {
    if s == "" then 0 else 10 * DigitsValue(s[..|s| - 1]) + DigitValue(s[|s| - 1])
  }

  /** strconv.ParseInt(s, 10, 32) */
  function ParseInt32(s: string): Option<int> {
    var signed := s != "" && (s[0] == '+' || s[0] == '-');
    var digits := if signed then s[1..] else s;
    if digits == "" || !AllDigits(digits) then None
    else
      var m: int := DigitsValue(digits);
      var n := if signed && s[0] == '-' then -m else m;
      if INT32_MIN <= n <= INT32_MAX then Some(n) else None
  }

  lemma {:induction false} DigitsProper(n: nat)
    ensures Digits(n) != "" && AllDigits(Digits(n)) && DigitsValue(Digits(n)) == n
  {
    assert forall d :: 0 <= d < 10 ==> IsDigit(DIGITS[d]) && DigitValue(DIGITS[d]) == d;
    if n >= 10 {
      DigitsProper(n / 10);
      assert Digits(n)[..|Digits(n)| - 1] == Digits(n / 10);
    } else {
      assert Digits(n)[..0] == "";
    }
  }

  lemma ParsePrinted(n: Int32)
    requires n >= 0
    ensures ParseInt32(Itoa(n)) == Some(n)
  {
    DigitsProper(n);
  }

  /** A sign is read, and a number outside 32 bits is rejected. */
  lemma ParseSigned(n: nat)
    ensures ParseInt32("-" + Digits(n)) == if n <= 0x8000_0000 then Some(0 - n) else None
    ensures ParseInt32("+" + Digits(n)) == ParseInt32(Digits(n)) == if n <= 0x7FFF_FFFF then Some(n) else None
  {
    DigitsProper(n);
    SignTaken('-', Digits(n));
    SignTaken('+', Digits(n));
    assert IsDigit(Digits(n)[0]);
  }

  lemma SignTaken(sign: char, digits: string)
    ensures ([sign] + digits)[0] == sign && ([sign] + digits)[1..] == digits
  {
  }

  lemma ItoaInjective(m: int, n: int)
    requires m != n
    ensures Itoa(m) != Itoa(n)
  {
    var x: nat, y: nat := if m < 0 then -m else m, if n < 0 then -n else n;
    DigitsProper(x);
    DigitsProper(y);
    assert IsDigit(Digits(x)[0]) && IsDigit(Digits(y)[0]);
    if m < 0 && n < 0 {
      assert Itoa(m)[1..] == Digits(x) && Itoa(n)[1..] == Digits(y);
    } else if m < 0 {
      assert Itoa(m)[0] == '-' && Itoa(n) == Digits(y);
    } else if n < 0 {
      assert Itoa(n)[0] == '-' && Itoa(m) == Digits(x);
    } else {
      assert Itoa(m) == Digits(x) && Itoa(n) == Digits(y);
    }
  }

  // ---------------------------------------------------------------------------
  // strings
  // ---------------------------------------------------------------------------

  /** strings.Split with a one-character separator. */
  function Split(s: string, sep: char): (parts: seq<string>)
    ensures |parts| >= 1
  {
    if s == "" then [""]
    else
      var rest := Split(s[1..], sep);
      if s[0] == sep then [""] + rest else [[s[0]] + rest[0]] + rest[1..]
  }

  /** strings.Join with a one-character separator. */
  function Join(parts: seq<string>, sep: char): string {
    if parts == [] then "" else if |parts| == 1 then parts[0] else parts[0] + [sep] + Join(parts[1..], sep)
  }

  lemma {:induction false} SplitAtFirst(s: string, rest: string, sep: char)
    requires sep !in s
    ensures Split(s + [sep] + rest, sep) == [s] + Split(rest, sep)
    ensures Split(s, sep) == [s]
  {
    if s == "" {
      assert s + [sep] + rest == [sep] + rest;
    } else {
      SplitAtFirst(s[1..], rest, sep);
      assert (s + [sep] + rest)[1..] == s[1..] + [sep] + rest;
      assert [s[0]] + s[1..] == s;
    }
  }

  lemma {:induction false} SplitJoin(parts: seq<string>, sep: char)
    requires parts != [] && forall i :: 0 <= i < |parts| ==> sep !in parts[i]
    ensures Split(Join(parts, sep), sep) == parts
  {
    SplitAtFirst(parts[0], Join(parts[1..], sep), sep);
    if |parts| > 1 {
      SplitJoin(parts[1..], sep);
    }
  }

  /** Splitting cuts the text at every separator: no part has one, and joining the parts gives the text back. */
  lemma {:induction false} SplitExact(s: string, sep: char)
    ensures forall i :: 0 <= i < |Split(s, sep)| ==> sep !in Split(s, sep)[i]
    ensures Join(Split(s, sep), sep) == s
  {
    if s != "" {
      var rest := Split(s[1..], sep);
      SplitExact(s[1..], sep);
      assert [s[0]] + s[1..] == s;
      if s[0] == sep {
        assert ([""] + rest)[1..] == rest;
        assert "" + [sep] + Join(rest, sep) == s;
      } else if |rest| == 1 {
        assert rest[1..] == [];
      } else {
        assert ([[s[0]] + rest[0]] + rest[1..])[1..] == rest[1..];
        assert [s[0]] + rest[0] + [sep] + Join(rest[1..], sep) == [s[0]] + (rest[0] + [sep] + Join(rest[1..], sep));
      }
    }
  }

  /** unicode.IsSpace */
  predicate IsSpace(ch: char) {
    var c := ch as int;
    || 0x09 <= c <= 0x0D || c == 0x20 || c == 0x85 || c == 0xA0 || c == 0x1680 || 0x2000 <= c <= 0x200A
    || c == 0x2028 || c == 0x2029 || c == 0x202F || c == 0x205F || c == 0x3000
  }

  function TrimLeft(s: string): string {
    if s != "" && IsSpace(s[0]) then TrimLeft(s[1..]) else s
  }

  function TrimRight(s: string): string {
    if s != "" && IsSpace(s[|s| - 1]) then TrimRight(s[..|s| - 1]) else s
  }

  function TrimSpace(s: string): string {
    TrimRight(TrimLeft(s))
  }

  predicate AllSpaces(s: string) {
    forall i :: 0 <= i < |s| ==> IsSpace(s[i])
  }

  /** Spaces around a text that neither begins nor ends with one are taken off. */
  lemma {:induction false} TrimExact(before: string, s: string, after: string)
    requires AllSpaces(before) && AllSpaces(after)
    requires s != "" ==> !IsSpace(s[0]) && !IsSpace(s[|s| - 1])
    ensures TrimSpace(before + s + after) == s
  {
    if s == "" {
      TrimsAll(before + after);
      assert before + s + after == before + after;
    } else {
      TrimsLeft(before, s + after);
      TrimsRight(s, after);
      assert before + s + after == before + (s + after);
    }
  }

  lemma {:induction false} TrimsLeft(before: string, s: string)
    requires AllSpaces(before) && s != "" && !IsSpace(s[0])
    ensures TrimLeft(before + s) == s
  {
    if before == "" {
      assert before + s == s;
    } else {
      assert (before + s)[1..] == before[1..] + s;
      TrimsLeft(before[1..], s);
    }
  }

  lemma {:induction false} TrimsRight(s: string, after: string)
    requires AllSpaces(after) && s != "" && !IsSpace(s[|s| - 1])
    ensures TrimRight(s + after) == s
  {
    if after == "" {
      assert s + after == s;
    } else {
      var n := |after| - 1;
      assert (s + after)[..|s + after| - 1] == s + after[..n];
      TrimsRight(s, after[..n]);
    }
  }

  lemma {:induction false} TrimsAll(s: string)
    requires AllSpaces(s)
    ensures TrimSpace(s) == ""
  {
    if s != "" {
      TrimsAll(s[1..]);
    }
  }

  // ---------------------------------------------------------------------------
  // parsePorts
  // ---------------------------------------------------------------------------

  /** The numbers from `lo` to `hi` in order. */
  function Interval(lo: int, hi: int): seq<int>
    decreases hi - lo + 1
  {
    if lo > hi then [] else [lo] + Interval(lo + 1, hi)
  }

  /** The ports one comma-separated part stands for. */
  function PartPorts(part: string): Option<seq<int>> {
    var p := TrimSpace(part);
    if '-' in p then
      var ends := Split(p, '-');
      if |ends| != 2 then None
      else
        var lo, hi := ParseInt32(ends[0]), ParseInt32(ends[1]);
        if lo.Some? && hi.Some? && lo.value <= hi.value then Some(Interval(lo.value, hi.value)) else None
    else
      var n := ParseInt32(p);
      if n.Some? then Some([n.value]) else None
  }

  lemma {:induction false} IntervalAt(lo: int, hi: int, i: nat)
    requires lo <= hi + 1
    ensures |Interval(lo, hi)| == hi - lo + 1
    ensures i < |Interval(lo, hi)| ==> Interval(lo, hi)[i] == lo + i
    decreases hi - lo + 1
  {
    if lo <= hi {
      IntervalAt(lo + 1, hi, if i > 0 then i - 1 else 0);
    }
  }

  lemma EmptyNotAccepted()
    ensures PortsOf("").None?
  {
    assert EachPart([""]) == [PartPorts("")];
    CollectFails(EachPart([""]), 0);
  }

  /** Concatenates the results, or fails when one of them is missing. */
  function Collect(results: seq<Option<seq<int>>>): Option<seq<int>> {
    if results == [] then Some([])
    else
      var rest := Collect(results[1..]);
      if results[0].Some? && rest.Some? then Some(results[0].value + rest.value) else None
  }

  function EachPart(parts: seq<string>): (results: seq<Option<seq<int>>>)
    ensures |results| == |parts| && forall i :: 0 <= i < |parts| ==> results[i] == PartPorts(parts[i])
  {
    seq(|parts|, i requires 0 <= i < |parts| => PartPorts(parts[i]))
  }

  /** The ports a text stands for: those of its parts, in order, or nothing when a part is malformed. */
  function PortsOf(text: string): Option<seq<int>> {
    Collect(EachPart(Split(text, ',')))
  }

  lemma {:induction false} CollectSnoc(results: seq<Option<seq<int>>>, r: Option<seq<int>>)
    ensures Collect(results + [r]) ==
              if Collect(results).Some? && r.Some? then Some(Collect(results).value + r.value) else None
  {
    if results == [] {
      assert results + [r] == [r];
      assert Collect([r][1..]) == Some([]);
      assert r.Some? ==> [] + r.value == r.value == r.value + [];
    } else {
      CollectSnoc(results[1..], r);
      assert (results + [r])[1..] == results[1..] + [r];
      if results[0].Some? && Collect(results[1..]).Some? && r.Some? {
        assert results[0].value + (Collect(results[1..]).value + r.value)
            == results[0].value + Collect(results[1..]).value + r.value;
      }
    }
  }

  lemma {:induction false} CollectNext(results: seq<Option<seq<int>>>, k: nat)
    requires k < |results|
    ensures Collect(results[..k + 1]) ==
              if Collect(results[..k]).Some? && results[k].Some?
              then Some(Collect(results[..k]).value + results[k].value) else None
  {
    CollectSnoc(results[..k], results[k]);
    assert results[..k + 1] == results[..k] + [results[k]];
  }

  lemma {:induction false} CollectFails(results: seq<Option<seq<int>>>, i: nat)
    requires i < |results| && results[i].None?
    ensures Collect(results).None?
  {
    if i > 0 {
      CollectFails(results[1..], i - 1);
    }
  }

  lemma {:induction false} IntervalSnoc(lo: int, hi: int)
    requires lo <= hi + 1
    ensures Interval(lo, hi + 1) == Interval(lo, hi) + [hi + 1]
    decreases hi - lo + 1
  {
    if lo <= hi {
      IntervalSnoc(lo + 1, hi);
    }
  }

  /** The loop over the members of a range. */
  method AppendRange(ports: seq<int>, start: int, end: int) returns (result: seq<int>)
    requires start <= end
    ensures result == ports + Interval(start, end)
  {
    result := ports;
    var i := start;
    while i <= end
      invariant start <= i <= end + 1
      invariant result == ports + Interval(start, i - 1)
    {
      IntervalSnoc(start, i - 1);
      result := result + [i];
      i := i + 1;
    }
  }

  /** parsePorts: accumulates part by part and, within a range, port by port. */
  method ParsePorts(text: string) returns (result: Option<seq<int>>)
    ensures result == PortsOf(text)
  {
    var parts := Split(text, ',');
    ghost var results := EachPart(parts);
    var ports: seq<int> := [];
    for k := 0 to |parts|
      invariant Collect(results[..k]) == Some(ports)
    {
      CollectNext(results, k);
      var appended := AppendPart(ports, parts[k]);
      if appended.None? {
        CollectFails(results, k);
        return None;
      }
      ports := appended.value;
    }
    assert results[..|parts|] == results;
    return Some(ports);
  }

  /** The body of the loop of parsePorts. */
  method AppendPart(ports: seq<int>, text: string) returns (result: Option<seq<int>>)
    ensures result == match PartPorts(text) case None => None case Some(more) => Some(ports + more)
  {
    var part := TrimSpace(text);
    if '-' in part {
      var ends := Split(part, '-');
      if |ends| != 2 {
        return None;
      }
      var start, end := ParseInt32(ends[0]), ParseInt32(ends[1]);
      if start.None? || end.None? || start.value > end.value {
        return None;
      }
      var longer := AppendRange(ports, start.value, end.value);
      return Some(longer);
    }
    var port := ParseInt32(part);
    if port.None? {
      return None;
    }
    return Some(ports + [port.value]);
  }

  /** Accepted text names at least one port. */
  lemma {:induction false} AcceptedNotEmpty(text: string)
    requires PortsOf(text).Some?
    ensures PortsOf(text).value != []
  {
  }

  // ---------------------------------------------------------------------------
  // What the text means, port by port
  // ---------------------------------------------------------------------------

  /** A part names a port outright or as a member of its range. */
  predicate Names(part: string, port: int) {
    var p := TrimSpace(part);
    if '-' in p then
      var ends := Split(p, '-');
      && |ends| == 2 && ParseInt32(ends[0]).Some? && ParseInt32(ends[1]).Some?
      && ParseInt32(ends[0]).value <= port <= ParseInt32(ends[1]).value
    else ParseInt32(p) == Some(port)
  }

  lemma {:induction false} IntervalMembers(lo: int, hi: int, port: int)
    ensures port in Interval(lo, hi) <==> lo <= port <= hi
    decreases hi - lo + 1
  {
    if lo <= hi {
      IntervalMembers(lo + 1, hi, port);
    }
  }

  lemma PartNamed(part: string, port: int)
    requires PartPorts(part).Some?
    ensures port in PartPorts(part).value <==> Names(part, port)
  {
    var ends := Split(TrimSpace(part), '-');
    if |ends| == 2 && ParseInt32(ends[0]).Some? && ParseInt32(ends[1]).Some? {
      IntervalMembers(ParseInt32(ends[0]).value, ParseInt32(ends[1]).value, port);
    }
  }

  lemma {:induction false} CollectMembers(results: seq<Option<seq<int>>>, port: int)
    requires Collect(results).Some?
    ensures forall i :: 0 <= i < |results| ==> results[i].Some?
    ensures port in Collect(results).value <==> exists i :: 0 <= i < |results| && port in results[i].value
  {
    if results != [] {
      CollectMembers(results[1..], port);
      assert forall i :: 1 <= i < |results| ==> results[i] == results[1..][i - 1];
      assert forall i :: 0 <= i < |results[1..]| ==> results[1..][i] == results[i + 1];
    }
  }

  lemma {:induction false} PartsNamed(parts: seq<string>, results: seq<Option<seq<int>>>, port: int)
    requires |results| == |parts| && Collect(results).Some?
    requires forall i :: 0 <= i < |parts| ==> results[i] == PartPorts(parts[i])
    ensures port in Collect(results).value <==> exists i :: 0 <= i < |parts| && Names(parts[i], port)
  {
    CollectMembers(results, port);
    forall i | 0 <= i < |parts|
      ensures port in results[i].value <==> Names(parts[i], port)
    {
      PartNamed(parts[i], port);
    }
  }

  /** An accepted text lists exactly the ports that one of its parts names. */
  lemma {:induction false} AcceptedPorts(text: string, port: int)
    requires PortsOf(text).Some?
    ensures port in PortsOf(text).value <==> exists part :: part in Split(text, ',') && Names(part, port)
  {
    var parts := Split(text, ',');
    PartsNamed(parts, EachPart(parts), port);
  }

  // ---------------------------------------------------------------------------
  // Printing and parsing
  // ---------------------------------------------------------------------------

  function PrintEach(ports: seq<Int32>): (parts: seq<string>)
    ensures |parts| == |ports| && forall i :: 0 <= i < |ports| ==> parts[i] == Itoa(ports[i])
  {
    seq(|ports|, i requires 0 <= i < |ports| => Itoa(ports[i]))
  }

  /** The port text of a compiled rule: the decimal ports joined by commas. */
  function PrintPorts(ports: seq<Int32>): string {
    Join(PrintEach(ports), ',')
  }

  lemma {:induction false} NoSpaceNoTrim(s: string)
    requires forall i :: 0 <= i < |s| ==> !IsSpace(s[i])
    ensures TrimSpace(s) == s
  {
  }

  lemma {:induction false} PrintedNatural(n: nat)
    requires n <= INT32_MAX
    ensures ',' !in Digits(n) && '-' !in Digits(n) && PartPorts(Digits(n)) == Some([n])
  {
    DigitsProper(n);
    NoSpaceNoTrim(Digits(n));
    ParsePrinted(n);
  }

  /**
   * Two printed numbers joined by a dash, with or without spaces around, stand for the numbers between them when
   * they are in order, and are rejected otherwise.
   */
  lemma {:induction false} RangeText(before: string, lo: nat, hi: nat, after: string)
    requires AllSpaces(before) && AllSpaces(after) && lo <= INT32_MAX && hi <= INT32_MAX
    ensures PartPorts(before + Digits(lo) + "-" + Digits(hi) + after) ==
      if lo <= hi then Some(Interval(lo, hi)) else None
  {
    var s := Digits(lo) + "-" + Digits(hi);
    DigitsProper(lo);
    DigitsProper(hi);
    assert IsDigit(Digits(lo)[0]) && IsDigit(Digits(hi)[|Digits(hi)| - 1]);
    TrimExact(before, s, after);
    assert before + s + after == before + Digits(lo) + "-" + Digits(hi) + after;
    DashSplits(Digits(lo), Digits(hi));
    ParsePrinted(lo);
    ParsePrinted(hi);
  }

  lemma {:induction false} DashSplits(a: string, b: string)
    requires AllDigits(a) && AllDigits(b)
    ensures '-' in a + "-" + b && Split(a + "-" + b, '-') == [a, b]
  {
    SplitAtFirst(a, b, '-');
    SplitAtFirst(b, "", '-');
    assert (a + "-" + b)[|a|] == '-';
  }

  lemma {:induction false} OnePart(s: string)
    requires ',' !in s
    ensures PortsOf(s) == PartPorts(s)
  {
    SplitAtFirst(s, "", ',');
    assert EachPart([s]) == [PartPorts(s)];
    CollectOne(PartPorts(s));
  }

  lemma {:induction false} CollectOne(r: Option<seq<int>>)
    ensures Collect([r]) == r
  {
    assert Collect([r][1..]) == Some([]);
    if r.Some? {
      assert r.value + [] == r.value;
    }
  }

  /** The same for a whole text. */
  lemma {:induction false} RangeAccepted(lo: nat, hi: nat)
    requires lo <= INT32_MAX && hi <= INT32_MAX
    ensures PortsOf(Digits(lo) + "-" + Digits(hi)) == if lo <= hi then Some(Interval(lo, hi)) else None
  {
    var s := Digits(lo) + "-" + Digits(hi);
    DigitsProper(lo);
    DigitsProper(hi);
    assert PartPorts(s) == if lo <= hi then Some(Interval(lo, hi)) else None by {
      assert "" + Digits(lo) + "-" + Digits(hi) + "" == s;
      RangeText("", lo, hi, "");
    }
    OnePart(s);
  }

  /** A printed number alone, with or without spaces around, stands for itself. */
  lemma {:induction false} NumberText(before: string, n: nat, after: string)
    requires AllSpaces(before) && AllSpaces(after) && n <= INT32_MAX
    ensures PartPorts(before + Digits(n) + after) == Some([n])
  {
    DigitsProper(n);
    TrimExact(before, Digits(n), after);
    ParsePrinted(n);
  }

  /** A text is accepted exactly when each of its comma-separated parts is. */
  lemma {:induction false} AcceptedIff(text: string)
    ensures PortsOf(text).Some? <==> forall part :: part in Split(text, ',') ==> PartPorts(part).Some?
  {
    var parts := Split(text, ',');
    var results := EachPart(parts);
    CollectIff(results);
    if Collect(results).Some? {
      forall part | part in parts ensures PartPorts(part).Some? {
        var i :| 0 <= i < |parts| && parts[i] == part;
        assert results[i].Some?;
      }
    } else {
      var i :| 0 <= i < |results| && results[i].None?;
      assert parts[i] in parts;
    }
  }

  lemma {:induction false} CollectIff(results: seq<Option<seq<int>>>)
    ensures Collect(results).Some? <==> forall i :: 0 <= i < |results| ==> results[i].Some?
  {
    if results != [] {
      CollectIff(results[1..]);
      assert forall i :: 1 <= i < |results| ==> results[i] == results[1..][i - 1];
    }
  }

  lemma {:induction false} PrintedNegative(n: nat)
    ensures ',' !in "-" + Digits(n) && PartPorts("-" + Digits(n)) == None
  {
    DigitsProper(n);
    var s := "-" + Digits(n);
    NoSpaceNoTrim(s);
    SplitAtFirst("", Digits(n), '-');
    assert "" + ['-'] + Digits(n) == s;
    assert Split(s, '-')[0] == "" && ParseInt32("") == None;
  }

  /** A printed port is read back exactly when it is not negative. */
  lemma {:induction false} PrintedPart(n: Int32)
    ensures ',' !in Itoa(n)
    ensures PartPorts(Itoa(n)) == if n >= 0 then Some([n]) else None
  {
    var m: int := n;
    if m < 0 {
      PrintedNegative(-m);
      assert Itoa(n) == "-" + Digits(-m);
    } else {
      PrintedNatural(m);
      assert Itoa(n) == Digits(m);
    }
  }

  lemma {:induction false} CollectSingletons(results: seq<Option<seq<int>>>, ports: seq<int>)
    requires |results| == |ports| && forall i :: 0 <= i < |ports| ==> results[i] == Some([ports[i]])
    ensures Collect(results) == Some(ports)
  {
    if results != [] {
      CollectSingletons(results[1..], ports[1..]);
      assert [ports[0]] + ports[1..] == ports;
    }
  }

  /** The lists the printing is inverted on: non-empty, without a negative port. */
  predicate Printable(ports: seq<Int32>) {
    ports != [] && forall i :: 0 <= i < |ports| ==> ports[i] >= 0
  }

  /** parsePorts inverts the printing of printable lists and rejects the printing of all others. */
  lemma {:induction false} PortsRoundTrip(ports: seq<Int32>)
    ensures PortsOf(PrintPorts(ports)) == if Printable(ports) then Some(ports) else None
  {
    if ports == [] {
      EmptyNotAccepted();
    } else {
      var parts := PrintEach(ports);
      forall i | 0 <= i < |ports|
        ensures ',' !in parts[i] && PartPorts(parts[i]) == if ports[i] >= 0 then Some([ports[i] as int]) else None
      {
        PrintedPart(ports[i]);
      }
      SplitJoin(parts, ',');
      if i :| 0 <= i < |ports| && ports[i] < 0 {
        CollectFails(EachPart(parts), i);
      } else {
        CollectSingletons(EachPart(parts), ports);
      }
    }
  }
}
