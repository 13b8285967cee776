/**
  The addresses a Host advertises in its signed endpoint
  (`_addresses_that_fit` in server/eidolon_admin_server/bootstrap/service.py,
  bootstrap/endpoint_encoding.py and bootstrap/host_addresses.py).

  The endpoint is canonical JSON with sorted keys, so the address list stands at one
  fixed place in it: `head`, the list, `middle`, the signature, `tail`.  Every part is
  ASCII, so its length is its size in bytes.  An Ed25519 signature is 86 base64url
  characters whatever it signs.
 */
module EndpointBudget {
  import Bytes
  import Base64Url

  const GATT_MAX_ATTRIBUTE_BYTES := 512

  const SIGNATURE_CHARS := 86

  /** An Ed25519 signature is 64 bytes, so that is its length in unpadded base64url. */
  lemma SignatureChars(signature: seq<Bytes.byte>)
    requires |signature| == 64
    ensures |Base64Url.Unpadded(signature)| == SIGNATURE_CHARS
  {
    UnpaddedLength(signature);
  }

  lemma {:induction false} UnpaddedLength(data: seq<Bytes.byte>)
    ensures |Base64Url.Unpadded(data)| == (4 * |data| + 2) / 3
  {
    if |data| >= 3 {
      UnpaddedLength(data[3..]);
      assert |Base64Url.Unpadded(data)| == 4 + |Base64Url.Unpadded(data[3..])|;
    }
  }

  datatype Endpoint = Endpoint(head: string, middle: string, tail: string)

  function Quoted(s: string): string { "\"" + s + "\"" }

  function Joined(urls: seq<string>): string {
    if urls == [] then ""
    else if |urls| == 1 then Quoted(urls[0])
    else Joined(urls[..|urls| - 1]) + "," + Quoted(urls[|urls| - 1])
  }

  function Encode(e: Endpoint, urls: seq<string>, signature: string): string {
    e.head + "[" + Joined(urls) + "]" + e.middle + signature + e.tail
  }

  function Size(e: Endpoint, urls: seq<string>, sign: seq<string> -> string): nat {
    |Encode(e, urls, sign(urls))|
  }

  ghost predicate FixedLength(sign: seq<string> -> string) {
    forall urls :: |sign(urls)| == SIGNATURE_CHARS
  }

  /** Each further address costs its quotes, its separator and itself. */
  lemma OneMoreCosts(e: Endpoint, urls: seq<string>, sign: seq<string> -> string, n: nat)
    requires FixedLength(sign) && n < |urls|
    ensures Size(e, urls[..n + 1], sign) == Size(e, urls[..n], sign) + |urls[n]| + 2 + (if n == 0 then 0 else 1)
  {
    assert urls[..n + 1][..n] == urls[..n];
    assert |sign(urls[..n])| == SIGNATURE_CHARS && |sign(urls[..n + 1])| == SIGNATURE_CHARS;
    if n == 0 {
      assert Joined(urls[..1]) == Quoted(urls[0]) && Joined(urls[..0]) == "";
    } else {
      assert Joined(urls[..n + 1]) == Joined(urls[..n]) + "," + Quoted(urls[n]);
    }
  }

  /** What the addresses take: themselves, their quotes, and the commas between them. */
  function Listing(urls: seq<string>): nat {
    if urls == [] then 0
    else Listing(urls[..|urls| - 1]) + |urls[|urls| - 1]| + 2 + (if |urls| == 1 then 0 else 1)
  }

  lemma {:induction false} JoinedTakes(urls: seq<string>)
    ensures |Joined(urls)| == Listing(urls)
  {
    if |urls| > 1 {
      JoinedTakes(urls[..|urls| - 1]);
    } else if |urls| == 1 {
      assert urls[..0] == [];
    }
  }

  /** The size that is budgeted is of everything a phone reads: the fixed parts, the
      brackets, the addresses, and the signature. */
  lemma SizeExactly(e: Endpoint, urls: seq<string>, sign: seq<string> -> string)
    requires FixedLength(sign)
    ensures Size(e, urls, sign) == |e.head| + 2 + Listing(urls) + |e.middle| + SIGNATURE_CHARS + |e.tail|
  {
    JoinedTakes(urls);
    assert |sign(urls)| == SIGNATURE_CHARS;
  }

  lemma {:induction false} LongerIsLarger(e: Endpoint, urls: seq<string>, sign: seq<string> -> string, m: nat, n: nat)
    requires FixedLength(sign) && m <= n <= |urls|
    ensures Size(e, urls[..m], sign) <= Size(e, urls[..n], sign)
    decreases n - m
  {
    if m < n {
      LongerIsLarger(e, urls, sign, m, n - 1);
      OneMoreCosts(e, urls, sign, n - 1);
    }
  }

  /** The greedy loop finds the longest prefix that fits: every longer prefix is too
      large, and the endpoint built from it fits whenever its empty-list form does. */
  method AddressesThatFit(e: Endpoint, addresses: seq<string>, sign: seq<string> -> string)
    returns (admitted: seq<string>)
    requires FixedLength(sign)
    ensures admitted <= addresses
    ensures forall n :: |admitted| < n <= |addresses| ==> Size(e, addresses[..n], sign) > GATT_MAX_ATTRIBUTE_BYTES
    ensures Size(e, admitted, sign) <= GATT_MAX_ATTRIBUTE_BYTES <==> Size(e, [], sign) <= GATT_MAX_ATTRIBUTE_BYTES
  {
    admitted := [];
    var k := 0;
    while k < |addresses|
      invariant k <= |addresses| && admitted == addresses[..k]
      invariant k > 0 ==> Size(e, admitted, sign) <= GATT_MAX_ATTRIBUTE_BYTES
      invariant k > 0 ==> Size(e, [], sign) <= GATT_MAX_ATTRIBUTE_BYTES
    {
      var candidate := admitted + [addresses[k]];
      assert candidate == addresses[..k + 1];
      if Size(e, candidate, sign) > GATT_MAX_ATTRIBUTE_BYTES {
        forall n | k < n <= |addresses| ensures Size(e, addresses[..n], sign) > GATT_MAX_ATTRIBUTE_BYTES {
          LongerIsLarger(e, addresses, sign, k + 1, n);
        }
        return;
      }
      LongerIsLarger(e, addresses, sign, 0, k + 1);
      assert addresses[..0] == [];
      admitted := candidate;
      k := k + 1;
    }
  }

  // ----- which addresses, in which order -----

  /** What the Host makes of an address the OS reports: not an address or on no product
      link, routable, or link-local. */
  datatype Kind = Dropped | Routable | LinkLocal

  function Collected(reported: seq<string>, kind: string -> Kind): seq<string> {
    if reported == [] then []
    else
      var rest, last := Collected(reported[..|reported| - 1], kind), reported[|reported| - 1];
      if kind(last) == Dropped || last in rest then rest else rest + [last]
  }

  function OfKind(xs: seq<string>, kind: string -> Kind, wanted: Kind): seq<string> {
    if xs == [] then []
    else
      var rest := OfKind(xs[..|xs| - 1], kind, wanted);
      if kind(xs[|xs| - 1]) == wanted then rest + [xs[|xs| - 1]] else rest
  }

  /** A stable sort on "is link-local": the others in order, then the link-local ones in order. */
  function Ordered(xs: seq<string>, kind: string -> Kind): seq<string> {
    OfKind(xs, kind, Routable) + OfKind(xs, kind, LinkLocal)
  }

  ghost predicate NoDuplicates(xs: seq<string>) {
    forall i, j :: 0 <= i < j < |xs| ==> xs[i] != xs[j]
  }

  lemma {:induction false} CollectedExact(reported: seq<string>, kind: string -> Kind)
    ensures NoDuplicates(Collected(reported, kind))
    ensures forall x :: x in Collected(reported, kind) <==> x in reported && kind(x) != Dropped
  {
    if reported != [] {
      CollectedExact(reported[..|reported| - 1], kind);
      assert reported == reported[..|reported| - 1] + [reported[|reported| - 1]];
    }
  }

  lemma {:induction false} OfKindExact(xs: seq<string>, kind: string -> Kind, wanted: Kind)
    ensures forall x :: x in OfKind(xs, kind, wanted) <==> x in xs && kind(x) == wanted
    ensures NoDuplicates(xs) ==> NoDuplicates(OfKind(xs, kind, wanted))
  {
    if xs != [] {
      var init, last := xs[..|xs| - 1], xs[|xs| - 1];
      assert xs == init + [last];
      OfKindExact(init, kind, wanted);
      if NoDuplicates(xs) {
        assert last !in init;
      }
    }
  }

  /** The OS reported x before it first reported y. */
  ghost predicate ReportedBefore(reported: seq<string>, x: string, y: string) {
    exists p :: 0 <= p < |reported| && reported[p] == x && y !in reported[..p + 1]
  }

  ghost predicate InReportOrder(reported: seq<string>, xs: seq<string>) {
    forall i, j :: 0 <= i < j < |xs| ==> ReportedBefore(reported, xs[i], xs[j])
  }

  lemma StillReportedBefore(reported: seq<string>, last: string, x: string, y: string)
    requires ReportedBefore(reported, x, y)
    ensures ReportedBefore(reported + [last], x, y)
  {
    var p :| 0 <= p < |reported| && reported[p] == x && y !in reported[..p + 1];
    assert (reported + [last])[..p + 1] == reported[..p + 1] && (reported + [last])[p] == x;
  }

  lemma ReportedBeforeTheLast(reported: seq<string>, x: string, last: string)
    requires x in reported && last !in reported
    ensures ReportedBefore(reported + [last], x, last)
  {
    var p :| 0 <= p < |reported| && reported[p] == x;
    assert (reported + [last])[p] == x && (reported + [last])[..p + 1] == reported[..p + 1];
  }

  lemma {:induction false} CollectedInOrder(reported: seq<string>, kind: string -> Kind)
    ensures InReportOrder(reported, Collected(reported, kind))
  {
    if reported != [] {
      var init, last := reported[..|reported| - 1], reported[|reported| - 1];
      assert reported == init + [last];
      CollectedInOrder(init, kind);
      CollectedExact(init, kind);
      var found, all := Collected(init, kind), Collected(reported, kind);
      forall i, j | 0 <= i < j < |all| ensures ReportedBefore(reported, all[i], all[j]) {
        if j < |found| {
          StillReportedBefore(init, last, found[i], found[j]);
        } else {
          assert found[i] in found;
          ReportedBeforeTheLast(init, found[i], last);
        }
      }
    }
  }

  lemma {:induction false} OfKindInOrder(reported: seq<string>, xs: seq<string>, kind: string -> Kind, wanted: Kind)
    requires InReportOrder(reported, xs)
    ensures InReportOrder(reported, OfKind(xs, kind, wanted))
  {
    if xs != [] {
      var init, last := xs[..|xs| - 1], xs[|xs| - 1];
      assert InReportOrder(reported, init) by {
        forall i, j | 0 <= i < j < |init| ensures ReportedBefore(reported, init[i], init[j]) {
          assert init[i] == xs[i] && init[j] == xs[j];
        }
      }
      OfKindInOrder(reported, init, kind, wanted);
      OfKindExact(init, kind, wanted);
      var rest := OfKind(init, kind, wanted);
      forall i | 0 <= i < |rest| ensures ReportedBefore(reported, rest[i], last) {
        assert rest[i] in init;
        var k :| 0 <= k < |init| && init[k] == rest[i];
        assert xs[k] == rest[i];
      }
    }
  }

  /** Routable addresses stand before link-local ones, and within each class addresses
      stand in the order the OS first reported them. */
  lemma OrderedAsPromised(reported: seq<string>, kind: string -> Kind, i: nat, j: nat)
    requires i < j < |Ordered(Collected(reported, kind), kind)|
    ensures
      var xs := Ordered(Collected(reported, kind), kind);
      && (kind(xs[i]) == LinkLocal ==> kind(xs[j]) == LinkLocal)
      && (kind(xs[i]) == kind(xs[j]) ==> ReportedBefore(reported, xs[i], xs[j]))
  {
    var found := Collected(reported, kind);
    var a, b := OfKind(found, kind, Routable), OfKind(found, kind, LinkLocal);
    CollectedInOrder(reported, kind);
    OfKindInOrder(reported, found, kind, Routable);
    OfKindInOrder(reported, found, kind, LinkLocal);
    OfKindExact(found, kind, Routable);
    OfKindExact(found, kind, LinkLocal);
    assert forall k :: 0 <= k < |a| ==> a[k] in a;
    assert forall k :: 0 <= k < |b| ==> b[k] in b;
  }

  method ReachableAddresses(reported: seq<string>, kind: string -> Kind) returns (addresses: seq<string>)
    ensures addresses == Ordered(Collected(reported, kind), kind)
    ensures forall i, j :: 0 <= i < j < |addresses| && kind(addresses[i]) == LinkLocal ==>
              kind(addresses[j]) == LinkLocal
    ensures forall i, j :: 0 <= i < j < |addresses| && kind(addresses[i]) == kind(addresses[j]) ==>
              ReportedBefore(reported, addresses[i], addresses[j])
    ensures NoDuplicates(addresses)
    ensures forall x :: x in addresses <==> x in reported && kind(x) != Dropped
  {
    var found: seq<string> := [];
    for k := 0 to |reported|
      invariant found == Collected(reported[..k], kind)
    {
      assert reported[..k + 1][..k] == reported[..k];
      if kind(reported[k]) != Dropped && reported[k] !in found {
        found := found + [reported[k]];
      }
    }
    assert reported[..|reported|] == reported;
    CollectedExact(reported, kind);
    OfKindExact(found, kind, Routable);
    OfKindExact(found, kind, LinkLocal);
    addresses := Ordered(found, kind);
    forall i, j | 0 <= i < j < |addresses|
      ensures kind(addresses[i]) == LinkLocal ==> kind(addresses[j]) == LinkLocal
      ensures kind(addresses[i]) == kind(addresses[j]) ==> ReportedBefore(reported, addresses[i], addresses[j])
    {
      OrderedAsPromised(reported, kind, i, j);
    }
    assert NoDuplicates(addresses) by {
      var a, b := OfKind(found, kind, Routable), OfKind(found, kind, LinkLocal);
      forall i, j | 0 <= i < j < |addresses| ensures addresses[i] != addresses[j] {
        if i < |a| <= j {
          assert a[i] in a && b[j - |a|] in b;
        }
      }
    }
  }

  // ----- what the endpoint advertises -----

  function Url(address: string, port: string): string {
    "https://" + address + ":" + port
  }

  function Urls(addresses: seq<string>, port: string): (urls: seq<string>)
    ensures |urls| == |addresses| && forall k :: 0 <= k < |urls| ==> urls[k] == Url(addresses[k], port)
  {
    seq(|addresses|, k requires 0 <= k < |addresses| => Url(addresses[k], port))
  }

  lemma UrlsSeparate(a: string, b: string, port: string)
    requires Url(a, port) == Url(b, port)
    ensures a == b
  {
    var u, v := Url(a, port), Url(b, port);
    assert a == u[8..|u| - 1 - |port|] && b == v[8..|v| - 1 - |port|];
  }

  /** Whatever does not fit is dropped from the end, so the URL of a link-local address is
      never kept while that of a routable one is dropped. */
  lemma LinkLocalGoesFirst(
    reported: seq<string>, kind: string -> Kind, port: string, admitted: seq<string>, x: string, y: string)
    requires admitted <= Urls(Ordered(Collected(reported, kind), kind), port)
    requires Url(x, port) in admitted && kind(x) == LinkLocal
    requires y in reported && kind(y) == Routable
    ensures Url(y, port) in admitted
  {
    var found := Collected(reported, kind);
    CollectedExact(reported, kind);
    OfKindExact(found, kind, Routable);
    OfKindExact(found, kind, LinkLocal);
    var a, all := OfKind(found, kind, Routable), Ordered(found, kind);
    var i :| 0 <= i < |admitted| && admitted[i] == Url(x, port);
    UrlsSeparate(all[i], x, port);
    assert forall k :: 0 <= k < |a| ==> a[k] in a;
    assert i >= |a|;
    var j :| 0 <= j < |a| && a[j] == y;
    assert admitted[j] == Url(y, port);
  }

  /** From what the OS reports to what a phone reads: the longest prefix of the ordered
      URLs that fits, so it keeps a link-local address only with every routable one. */
  method AdvertisedUrls(e: Endpoint, reported: seq<string>, kind: string -> Kind, port: string,
                        sign: seq<string> -> string)
    returns (admitted: seq<string>)
    requires FixedLength(sign)
    ensures Size(e, admitted, sign) <= 512 <==> Size(e, [], sign) <= 512
    ensures forall u :: u in admitted ==>
              exists x :: x in reported && kind(x) != Dropped && u == "https://" + x + ":" + port
    ensures forall x, y :: Url(x, port) in admitted && kind(x) == LinkLocal && y in reported && kind(y) == Routable ==>
              Url(y, port) in admitted
  {
    var addresses := ReachableAddresses(reported, kind);
    admitted := AddressesThatFit(e, Urls(addresses, port), sign);
    forall u | u in admitted ensures exists x :: x in reported && kind(x) != Dropped && u == Url(x, port) {
      var i :| 0 <= i < |admitted| && admitted[i] == u;
      assert u == Url(addresses[i], port) && addresses[i] in addresses;
    }
    forall x, y | Url(x, port) in admitted && kind(x) == LinkLocal && y in reported && kind(y) == Routable
      ensures Url(y, port) in admitted
    {
      LinkLocalGoesFirst(reported, kind, port, admitted, x, y);
    }
  }
}
