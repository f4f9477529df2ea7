/**
 * Finding a NodeBalancer again from the load balancer status that was written for it
 * (makeLoadBalancerStatus and getNodeBalancerByStatus in cloud/linode/loadbalancers.go).
 */
module LbStatus {
  import opened Wrappers
  import opened Ports

  type Octet = n: int | 0 <= n < 256

  datatype IPv4 = IPv4(a: Octet, b: Octet, c: Octet, d: Octet)

  /** A NodeBalancer as the API lists it; `vpc` says that its frontend address type is "vpc". */
  datatype NodeBalancer = NodeBalancer(
    id: int,
    hostname: string,
    ipv4: IPv4,
    ipv6: Option<string>,
    vpc: bool,
    subnet: Option<int>)

  /** An ingress of a status; an empty text is an absent one. */
  datatype Ingress = Ingress(ip: string, hostname: string)

  // -- addresses as text --------------------------------------------------------------------

  function Octets(q: IPv4): seq<string> {
    [Itoa(q.a), Itoa(q.b), Itoa(q.c), Itoa(q.d)]
  }

  /** netip.Addr.String of an IPv4 address */
  function Print(q: IPv4): string {
    Join(Octets(q), '.')
  }

  /** One field of a dotted address: up to 255, without leading zeros. */
  function ParseOctet(s: string): Option<Octet> {
    if s == "" || |s| > 3 || !AllDigits(s) || (|s| > 1 && s[0] == '0') || DigitsValue(s) > 255 then None
    else Some(DigitsValue(s))
  }

  function ParseIPv4(s: string): Option<IPv4> {
    var parts := Split(s, '.');
    if |parts| != 4 then None
    else
      var a, b, c, d := ParseOctet(parts[0]), ParseOctet(parts[1]), ParseOctet(parts[2]), ParseOctet(parts[3]);
      if a.Some? && b.Some? && c.Some? && d.Some? then Some(IPv4(a.value, b.value, c.value, d.value)) else None
  }

  /** The first character that tells what kind of address a text is. */
  function Mark(s: string): Option<char> {
    if s == "" then None else if s[0] == '.' || s[0] == ':' || s[0] == '%' then Some(s[0]) else Mark(s[1..])
  }

  datatype Address = V4(q: IPv4) | V6(text: string)

  /** How IPv6 text is read is left open: a parser gives the canonical text. */
  type IPv6Parser = string -> Option<string>

  /** netip.ParseAddr */
  function ParseAddr(s: string, parse6: IPv6Parser): Option<Address> {
    match Mark(s)
    case Some('.') => (match ParseIPv4(s) case Some(q) => Some(V4(q)) case None => None)
    case Some(':') => (match parse6(s) case Some(t) => Some(V6(t)) case None => None)
    case _ => None
  }

  lemma {:induction false} DigitsNoLeadingZero(n: nat)
    ensures n >= 10 ==> Digits(n)[0] != '0'
    ensures n >= 1 ==> Digits(n)[0] != '0'
  {
    DigitsProper(n);
    if n >= 10 {
      DigitsProper(n / 10);
      DigitsNoLeadingZero(n / 10);
      assert Digits(n)[0] == Digits(n / 10)[0];
    }
  }

  lemma OctetRoundTrip(n: Octet)
    ensures ParseOctet(Itoa(n)) == Some(n) && AllDigits(Itoa(n))
  {
    var m: nat := n;
    DigitsProper(m);
    DigitsNoLeadingZero(m);
    assert Itoa(n) == Digits(m);
    assert |Digits(m)| <= 3 && (m < 10 ==> |Digits(m)| == 1) by {
      if m >= 10 {
        assert Digits(m) == Digits(m / 10) + [DIGITS[m % 10]];
        if m >= 100 {
          assert Digits(m / 10) == Digits(m / 10 / 10) + [DIGITS[m / 10 % 10]];
        }
      }
    }
  }

  lemma {:induction false} MarkAfterDigits(s: string, rest: string)
    requires AllDigits(s)
    ensures Mark(s + "." + rest) == Some('.')
  {
    if s == "" {
      assert (s + "." + rest)[0] == '.';
    } else {
      MarkAfterDigits(s[1..], rest);
      assert (s + "." + rest)[1..] == s[1..] + "." + rest;
      assert IsDigit(s[0]);
    }
  }

  /** A printed IPv4 address parses as itself. */
  lemma ParsePrintedAddr(q: IPv4, parse6: IPv6Parser)
    ensures ParseAddr(Print(q), parse6) == Some(V4(q))
  {
    var parts := Octets(q);
    OctetRoundTrip(q.a);
    OctetRoundTrip(q.b);
    OctetRoundTrip(q.c);
    OctetRoundTrip(q.d);
    assert forall i :: 0 <= i < |parts| ==> AllDigits(parts[i]);
    SplitJoin(parts, '.');
    MarkAfterDigits(parts[0], Join(parts[1..], '.'));
    assert Print(q) == parts[0] + "." + Join(parts[1..], '.');
  }

  lemma {:induction false} DigitsUnread(s: string)
    requires s != "" && AllDigits(s) && (|s| > 1 ==> s[0] != '0')
    ensures Digits(DigitsValue(s)) == s && (|s| > 1 ==> DigitsValue(s) >= 10)
  {
    var k := |s| - 1;
    var d := DigitValue(s[k]);
    assert DIGITS[d] == s[k];
    if k == 0 {
      assert s[..k] == "" && DigitsValue(s) == d;
      assert s == [s[0]];
    } else {
      DigitsUnread(s[..k]);
      var m := DigitsValue(s[..k]);
      assert m >= 1 by {
        if k == 1 {
          assert s[..1][..0] == "" && DigitsValue(s[..1]) == DigitValue(s[0]);
        }
      }
      assert DigitsValue(s) == 10 * m + d && DigitsValue(s) / 10 == m && DigitsValue(s) % 10 == d;
      assert s == s[..k] + [s[k]];
    }
  }

  /** An address is read as IPv4 exactly when it is the printed form of that address. */
  lemma ReadExactly(s: string, q: IPv4, parse6: IPv6Parser)
    ensures ParseAddr(s, parse6) == Some(V4(q)) <==> s == Print(q)
  {
    if s == Print(q) {
      ParsePrintedAddr(q, parse6);
    } else if ParseIPv4(s) == Some(q) {
      var parts := Split(s, '.');
      DigitsUnread(parts[0]);
      DigitsUnread(parts[1]);
      DigitsUnread(parts[2]);
      DigitsUnread(parts[3]);
      assert parts == Octets(q);
      SplitExact(s, '.');
    }
  }

  // -- the status ----------------------------------------------------------------------------

  /** makeLoadBalancerStatus, with the two switches as the annotations or the global options set them. */
  function MakeStatus(nb: NodeBalancer, hostnameOnly: bool, useIPv6: bool): seq<Ingress> {
    if hostnameOnly then [Ingress("", nb.hostname)]
    else if useIPv6 && nb.ipv6.Some? && nb.ipv6.value != "" then
      [Ingress(Print(nb.ipv4), nb.hostname), Ingress(nb.ipv6.value, nb.hostname)]
    else [Ingress(Print(nb.ipv4), nb.hostname)]
  }

  // -- the lookup ------------------------------------------------------------------------------

  /** The first NodeBalancer of a listing for which the test holds. */
  function First(list: seq<NodeBalancer>, test: NodeBalancer -> bool): Option<NodeBalancer> {
    if list == [] then None else if test(list[0]) then Some(list[0]) else First(list[1..], test)
  }

  ghost predicate FirstAt(list: seq<NodeBalancer>, test: NodeBalancer -> bool, i: nat) {
    i < |list| && test(list[i]) && forall j :: 0 <= j < i ==> !test(list[j])
  }

  /** The first one is found when there is one at all. */
  lemma {:induction false} FirstExact(list: seq<NodeBalancer>, test: NodeBalancer -> bool) returns (i: nat)
    ensures First(list, test).None? <==> forall j :: 0 <= j < |list| ==> !test(list[j])
    ensures First(list, test).Some? ==> FirstAt(list, test, i) && First(list, test).value == list[i]
  {
    i := 0;
    if list != [] && !test(list[0]) {
      i := FirstExact(list[1..], test);
      assert forall j :: 1 <= j < |list| ==> list[j] == list[1..][j - 1];
      i := i + 1;
    }
  }

  predicate HasAddress(nb: NodeBalancer, address: Address) {
    match address
    case V4(q) => nb.ipv4 == q
    case V6(t) => nb.ipv6 == Some(t)
  }

  /** A frontend-subnet-id annotation, where there is one, must name the subnet of the NodeBalancer's VPC frontend. */
  predicate Fits(nb: NodeBalancer, annotation: string) {
    annotation == "" || (nb.vpc && nb.subnet.Some? && Itoa(nb.subnet.value) == annotation)
  }

  function HostTest(hostname: string): NodeBalancer -> bool {
    (nb: NodeBalancer) => nb.hostname == hostname
  }

  function FitTest(annotation: string): NodeBalancer -> bool {
    (nb: NodeBalancer) => Fits(nb, annotation)
  }

  function AddressTest(address: Address, annotation: string): NodeBalancer -> bool {
    (nb: NodeBalancer) => HasAddress(nb, address) && Fits(nb, annotation)
  }

  function ByHostname(list: seq<NodeBalancer>, hostname: string): Option<NodeBalancer> {
    First(list, HostTest(hostname))
  }

  function ByAddress(list: seq<NodeBalancer>, address: Address, annotation: string): Option<NodeBalancer> {
    First(list, AddressTest(address, annotation))
  }

  /** The first ingress with a readable IP or a hostname decides. */
  function ByStatus(list: seq<NodeBalancer>, status: seq<Ingress>, annotation: string,
                    parse6: IPv6Parser): Option<NodeBalancer>
  {
    if status == [] then None
    else
      var address := if status[0].ip == "" then None else ParseAddr(status[0].ip, parse6);
      if address.Some? then ByAddress(list, address.value, annotation)
      else if status[0].hostname != "" then ByHostname(list, status[0].hostname)
      else ByStatus(list, status[1..], annotation, parse6)
  }

  datatype LookupError = NotFound | ListingFailed

  function Found(nb: Option<NodeBalancer>): Result<NodeBalancer, LookupError> {
    if nb.Some? then Ok(nb.value) else Err(NotFound)
  }

  /** getNodeBalancerByHostname; the listing is None when the call for it fails. */
  method GetNodeBalancerByHostname(listing: Option<seq<NodeBalancer>>, hostname: string)
    returns (r: Result<NodeBalancer, LookupError>)
    ensures r == if listing.None? then Err(ListingFailed) else Found(ByHostname(listing.value, hostname))
    ensures listing.Some? && r.Ok? ==>
      exists i :: 0 <= i < |listing.value| && r.value == listing.value[i] && r.value.hostname == hostname
        && forall j :: 0 <= j < i ==> listing.value[j].hostname != hostname
    ensures listing.Some? && r.Err? ==>
      r == Err(NotFound) && forall j :: 0 <= j < |listing.value| ==> listing.value[j].hostname != hostname
  {
    if listing.None? {
      return Err(ListingFailed);
    }
    var list := listing.value;
    ghost var at := FirstExact(list, HostTest(hostname));
    for i := 0 to |list|
      invariant ByHostname(list, hostname) == ByHostname(list[i..], hostname)
    {
      if list[i].hostname == hostname {
        return Ok(list[i]);
      }
    }
    return Err(NotFound);
  }

  /** The API's answer to a filter on the address. */
  function Filtered(list: seq<NodeBalancer>, address: Address): seq<NodeBalancer> {
    if list == [] then []
    else (if HasAddress(list[0], address) then [list[0]] else []) + Filtered(list[1..], address)
  }

  lemma {:induction false} FirstFiltered(list: seq<NodeBalancer>, address: Address, annotation: string)
    ensures ByAddress(list, address, annotation) == First(Filtered(list, address), FitTest(annotation))
  {
    if list != [] {
      FirstFiltered(list[1..], address, annotation);
      if HasAddress(list[0], address) {
        assert ([list[0]] + Filtered(list[1..], address))[1..] == Filtered(list[1..], address);
      } else {
        assert [] + Filtered(list[1..], address) == Filtered(list[1..], address);
      }
    }
  }

  /** A NodeBalancer that is passed over: of another address, or not in the subnet the annotation names. */
  ghost predicate Passed(nb: NodeBalancer, address: Address, annotation: string) {
    || (address.V4? && nb.ipv4 != address.q)
    || (address.V6? && nb.ipv6 != Some(address.text))
    || (annotation != "" && !(nb.vpc && nb.subnet.Some? && annotation == Itoa(nb.subnet.value)))
  }

  /** getNodeBalancerByIP */
  method GetNodeBalancerByIP(listing: Option<seq<NodeBalancer>>, address: Address, annotation: string)
    returns (r: Result<NodeBalancer, LookupError>)
    ensures r == if listing.None? then Err(ListingFailed) else Found(ByAddress(listing.value, address, annotation))
    ensures listing.Some? && r.Ok? ==> HasAddress(r.value, address)
    ensures listing.Some? && r.Ok? && annotation != "" ==>
      r.value.vpc && r.value.subnet.Some? && annotation == Itoa(r.value.subnet.value)
    ensures listing.Some? && r.Ok? ==>
      exists i :: 0 <= i < |listing.value| && r.value == listing.value[i]
        && forall j :: 0 <= j < i ==> Passed(listing.value[j], address, annotation)
    ensures listing.Some? && r.Err? ==>
      r == Err(NotFound) && forall j :: 0 <= j < |listing.value| ==> Passed(listing.value[j], address, annotation)
  {
    if listing.None? {
      return Err(ListingFailed);
    }
    ghost var at := FirstExact(listing.value, AddressTest(address, annotation));
    var lbs := Filtered(listing.value, address);
    FirstFiltered(listing.value, address, annotation);
    if |lbs| == 0 {
      return Err(NotFound);
    }
    if annotation != "" {
      for i := 0 to |lbs|
        invariant First(lbs, FitTest(annotation)) == First(lbs[i..], FitTest(annotation))
      {
        if lbs[i].vpc && lbs[i].subnet.Some? && Itoa(lbs[i].subnet.value) == annotation {
          return Ok(lbs[i]);
        }
      }
      return Err(NotFound);
    }
    return Ok(lbs[0]);
  }

  predicate Readable(ingress: Ingress, parse6: IPv6Parser) {
    ingress.ip != "" && ParseAddr(ingress.ip, parse6).Some?
  }

  /** Some ingress has a readable IP or a hostname, so that a listing is asked for. */
  predicate Usable(status: seq<Ingress>, parse6: IPv6Parser) {
    exists i :: 0 <= i < |status| && (Readable(status[i], parse6) || status[i].hostname != "")
  }

  ghost predicate FirstUsable(status: seq<Ingress>, parse6: IPv6Parser, k: nat) {
    && k < |status| && (Readable(status[k], parse6) || status[k].hostname != "")
    && forall j :: 0 <= j < k ==> !Readable(status[j], parse6) && status[j].hostname == ""
  }

  /** The first usable ingress decides alone: by its address when that is readable, else by its hostname. */
  lemma {:induction false} FirstUsableDecides(list: seq<NodeBalancer>, status: seq<Ingress>, annotation: string,
                                              parse6: IPv6Parser, k: nat)
    requires FirstUsable(status, parse6, k)
    ensures Readable(status[k], parse6) ==>
      ByStatus(list, status, annotation, parse6) ==
      ByAddress(list, ParseAddr(status[k].ip, parse6).value, annotation)
    ensures !Readable(status[k], parse6) ==>
      ByStatus(list, status, annotation, parse6) == ByHostname(list, status[k].hostname)
  {
    if k > 0 {
      assert !Readable(status[0], parse6) && status[0].hostname == "";
      assert forall j :: 1 <= j < |status| ==> status[j] == status[1..][j - 1];
      FirstUsableDecides(list, status[1..], annotation, parse6, k - 1);
    }
  }

  lemma {:induction false} NoneUsable(list: seq<NodeBalancer>, status: seq<Ingress>, annotation: string,
                                      parse6: IPv6Parser)
    requires !Usable(status, parse6)
    ensures ByStatus(list, status, annotation, parse6).None?
  {
    if status != [] {
      assert !Readable(status[0], parse6) && status[0].hostname == "";
      assert forall j :: 1 <= j < |status| ==> status[j] == status[1..][j - 1];
      NoneUsable(list, status[1..], annotation, parse6);
    }
  }

  /** getNodeBalancerByStatus: the status as stored now counts, or the given one when it cannot be fetched. */
  method GetNodeBalancerByStatus(listing: Option<seq<NodeBalancer>>, given: seq<Ingress>, stored: Option<seq<Ingress>>,
                                 annotation: string, parse6: IPv6Parser)
    returns (r: Result<NodeBalancer, LookupError>)
    ensures listing.Some? ==>
      r == Found(ByStatus(listing.value, if stored.Some? then stored.value else given, annotation, parse6))
    ensures listing.None? ==>
      r == Err(if Usable(if stored.Some? then stored.value else given, parse6) then ListingFailed else NotFound)
  {
    var status := given;
    if stored.Some? {
      status := stored.value;
    }
    for i := 0 to |status|
      invariant listing.Some? ==>
        ByStatus(listing.value, status, annotation, parse6) == ByStatus(listing.value, status[i..], annotation, parse6)
      invariant forall j :: 0 <= j < i ==>
        (status[j].ip == "" || ParseAddr(status[j].ip, parse6).None?) && status[j].hostname == ""
    {
      if status[i].ip != "" {
        var address := ParseAddr(status[i].ip, parse6);
        if address.Some? {
          r := GetNodeBalancerByIP(listing, address.value, annotation);
          return;
        }
      }
      if status[i].hostname != "" {
        r := GetNodeBalancerByHostname(listing, status[i].hostname);
        return;
      }
    }
    return Err(NotFound);
  }

  // -- the round trip ----------------------------------------------------------------------------

  ghost predicate DistinctIDs(list: seq<NodeBalancer>) {
    forall i, j :: 0 <= i < j < |list| ==> list[i].id != list[j].id
  }

  lemma {:induction false} FirstIs(list: seq<NodeBalancer>, test: NodeBalancer -> bool, i: nat)
    requires DistinctIDs(list) && i < |list|
    ensures First(list, test) == Some(list[i]) <==> test(list[i]) && forall j :: 0 <= j < i ==> !test(list[j])
  {
    if i == 0 {
      FirstIsMember(list, test);
    } else if !test(list[0]) {
      FirstIs(list[1..], test, i - 1);
    }
  }

  lemma {:induction false} FirstIsMember(list: seq<NodeBalancer>, test: NodeBalancer -> bool)
    ensures First(list, test).Some? ==> test(First(list, test).value)
  {
    if list != [] {
      FirstIsMember(list[1..], test);
    }
  }

  /** Whether the status of a NodeBalancer leads back to it, in terms of what is listed before it. */
  ghost predicate Recoverable(list: seq<NodeBalancer>, i: nat, hostnameOnly: bool, annotation: string)
    requires i < |list|
  {
    if hostnameOnly then list[i].hostname != "" && forall j :: 0 <= j < i ==> list[j].hostname != list[i].hostname
    else
      && Fits(list[i], annotation)
      && forall j :: 0 <= j < i ==> !(list[j].ipv4 == list[i].ipv4 && Fits(list[j], annotation))
  }

  lemma {:induction false} StatusRoundTrip(list: seq<NodeBalancer>, i: nat, hostnameOnly: bool, useIPv6: bool,
                                           annotation: string, parse6: IPv6Parser)
    requires DistinctIDs(list) && i < |list|
    ensures ByStatus(list, MakeStatus(list[i], hostnameOnly, useIPv6), annotation, parse6) == Some(list[i])
       <==> Recoverable(list, i, hostnameOnly, annotation)
  {
    var nb, status := list[i], MakeStatus(list[i], hostnameOnly, useIPv6);
    if hostnameOnly {
      FirstIs(list, HostTest(nb.hostname), i);
      assert status[1..] == [];
    } else {
      ParsePrintedAddr(nb.ipv4, parse6);
      PrintNotEmpty(nb.ipv4);
      FirstIs(list, AddressTest(V4(nb.ipv4), annotation), i);
    }
  }

  /**
   * What a status shows: one ingress without address when only the hostname is wanted, otherwise the IPv4 address and,
   * when wanted and present, the IPv6 address; always beside the hostname.
   */
  lemma StatusShows(nb: NodeBalancer, hostnameOnly: bool, useIPv6: bool, ip: string, hostname: string)
    ensures Ingress(ip, hostname) in MakeStatus(nb, hostnameOnly, useIPv6) <==>
      && hostname == nb.hostname
      && (if ip == "" then hostnameOnly
          else !hostnameOnly && (ip == Print(nb.ipv4) || (useIPv6 && nb.ipv6 == Some(ip))))
    ensures forall i, j :: 0 <= i < j < |MakeStatus(nb, hostnameOnly, useIPv6)| && nb.ipv6 != Some(Print(nb.ipv4)) ==>
      MakeStatus(nb, hostnameOnly, useIPv6)[i].ip != MakeStatus(nb, hostnameOnly, useIPv6)[j].ip
  {
    PrintNotEmpty(nb.ipv4);
  }

  /**
   * Each ingress of a status leads back to its NodeBalancer by itself: by the address, when nothing listed earlier has
   * that address and fits too, and by the hostname, when nothing listed earlier has it.
   */
  lemma EveryIngressLeadsBack(list: seq<NodeBalancer>, i: nat, hostnameOnly: bool, useIPv6: bool, annotation: string,
                              parse6: IPv6Parser, k: nat)
    requires DistinctIDs(list) && i < |list| && k < |MakeStatus(list[i], hostnameOnly, useIPv6)|
    requires list[i].ipv6.Some? ==>
      Mark(list[i].ipv6.value) == Some(':') && parse6(list[i].ipv6.value) == list[i].ipv6
    ensures !hostnameOnly ==>
      (ByStatus(list, [MakeStatus(list[i], hostnameOnly, useIPv6)[k]], annotation, parse6) == Some(list[i]) <==>
        && Fits(list[i], annotation)
        && forall j :: 0 <= j < i && Fits(list[j], annotation) ==>
             if k == 0 then list[j].ipv4 != list[i].ipv4 else list[j].ipv6 != list[i].ipv6)
    ensures list[i].hostname != "" ==>
      var byName := [Ingress("", MakeStatus(list[i], hostnameOnly, useIPv6)[k].hostname)];
      ByStatus(list, byName, annotation, parse6) == Some(list[i]) <==>
        forall j :: 0 <= j < i ==> list[j].hostname != list[i].hostname
  {
    var nb, status := list[i], MakeStatus(list[i], hostnameOnly, useIPv6);
    FirstIs(list, HostTest(nb.hostname), i);
    if !hostnameOnly {
      PrintNotEmpty(nb.ipv4);
      if k == 0 {
        ParsePrintedAddr(nb.ipv4, parse6);
        FirstIs(list, AddressTest(V4(nb.ipv4), annotation), i);
      } else {
        FirstIs(list, AddressTest(V6(nb.ipv6.value), annotation), i);
      }
    }
  }

  lemma PrintNotEmpty(q: IPv4)
    ensures Print(q) != ""
  {
  }

  /** Unique hostnames and IPv4 addresses are enough when there is no subnet annotation. */
  lemma UniqueAddressesRecoverable(list: seq<NodeBalancer>, i: nat, hostnameOnly: bool)
    requires i < |list| && (hostnameOnly ==> list[i].hostname != "")
    requires forall j, k :: 0 <= j < k < |list| ==> list[j].hostname != list[k].hostname && list[j].ipv4 != list[k].ipv4
    ensures Recoverable(list, i, hostnameOnly, "")
  {
  }

  /** With the annotation naming the NodeBalancer's own VPC subnet, unique pairs of address and subnet are enough. */
  lemma UniqueSubnetsRecoverable(list: seq<NodeBalancer>, i: nat)
    requires i < |list| && list[i].vpc && list[i].subnet.Some?
    requires forall j, k :: 0 <= j < k < |list| ==> list[j].ipv4 != list[k].ipv4 || list[j].subnet != list[k].subnet
    ensures Recoverable(list, i, false, Itoa(list[i].subnet.value))
  {
    var n := list[i].subnet.value;
    forall j | 0 <= j < i
      ensures !(list[j].ipv4 == list[i].ipv4 && Fits(list[j], Itoa(n)))
    {
      if list[j].subnet.Some? && list[j].subnet.value != n {
        ItoaInjective(list[j].subnet.value, n);
      }
      ItoaNotEmpty(n);
    }
  }

  lemma ItoaNotEmpty(n: int)
    ensures Itoa(n) != ""
  {
  }
}
