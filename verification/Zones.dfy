/** Zones: membership of names, filtering of addresses, and the names of reverse zones (src/auth.rs). */
module Zones {
  import opened Basics
  import opened Names
  import opened Fields
  import SynthNames

  /** An IPv4 or IPv6 address by its octets. */
  datatype Address = V4(octets: seq<Byte>) | V6(octets: seq<Byte>)

  // ----- names in zones -----

  /** The name without its trailing dots. */
  function TrimEnd(s: string): (r: string)
    ensures r != "" ==> r[|r| - 1] != '.'
  {
    if s != "" && s[|s| - 1] == '.' then TrimEnd(s[..|s| - 1]) else s
  }

  /** Only trailing dots are dropped. */
  lemma {:induction false} TrimEndMeaning(s: string)
    ensures var r := TrimEnd(s); |r| <= |s| && s[..|r|] == r && forall i :: |r| <= i < |s| ==> s[i] == '.'
  {
    if s != "" && s[|s| - 1] == '.' {
      TrimEndMeaning(s[..|s| - 1]);
    }
  }

  /** Where a name sits in a zone: at its apex, or cut at a dot. */
  datatype Place = Apex | Cut(at: nat)

  /** Where a name without trailing dots sits in such a zone. */
  function PlaceIn(name: string, zone: string): Option<Place> {
    if |name| < |zone| || !SameName(name[|name| - |zone|..], zone) then None
    else if |name| == |zone| then Some(Apex)
    else
      var cut := |name| - |zone| - 1;
      if name[cut] == '.' then Some(Cut(cut)) else None
  }

  /** `in_zone`. */
  function InZone(name: string, zone: string): Option<Place> { PlaceIn(TrimEnd(name), TrimEnd(zone)) }

  /** For a zone that has a name, being in it is matching it as a domain. */
  lemma InZoneIsDomainMatches(name: string, zone: string)
    requires TrimEnd(zone) != ""
    ensures InZone(name, zone).Some? <==> DomainMatches(TrimEnd(name), TrimEnd(zone))
  {
    DomainMatchesIsAlignedSuffix(TrimEnd(name), TrimEnd(zone));
  }

  /** A name is at the apex when it is the zone's name, trailing dots aside. */
  lemma ApexIff(name: string, zone: string)
    ensures InZone(name, zone) == Some(Apex) <==> SameName(TrimEnd(name), TrimEnd(zone))
  {
    var n, z := TrimEnd(name), TrimEnd(zone);
    assert |Lower(n)| == |n| && |Lower(z)| == |z|;
    assert |n| == |z| ==> n[|n| - |z|..] == n;
  }

  /** A name is cut where the part before the cut, a dot and the zone's name make it up, trailing dots aside. */
  lemma CutIff(name: string, zone: string, at: nat)
    ensures InZone(name, zone) == Some(Cut(at)) <==>
            var n, z := TrimEnd(name), TrimEnd(zone);
            at + 1 + |z| == |n| && n[at] == '.' && SameName(n[at + 1..], z)
  {
    PlaceIsCut(TrimEnd(name), TrimEnd(zone), at);
  }

  lemma PlaceIsCut(n: string, z: string, at: nat)
    ensures PlaceIn(n, z) == Some(Cut(at)) <==> at + 1 + |z| == |n| && n[at] == '.' && SameName(n[at + 1..], z)
  {
    if at + 1 + |z| == |n| {
      assert n[|n| - |z|..] == n[at + 1..];
    }
  }

  // ----- subnets -----

  datatype Subnet = Subnet(addr: Address, prefixlen: int, isV6: bool)

  datatype Zone = Zone(domain: string, subnets: seq<Subnet>, excludes: seq<Subnet>)

  /** The divisor that keeps the top `r` bits of an octet. */
  function Divisor(r: nat): (d: nat)
    requires 1 <= r <= 7
    ensures d > 0
  {
    if r == 1 then 128 else if r == 2 then 64 else if r == 3 then 32 else if r == 4 then 16
    else if r == 5 then 8 else if r == 6 then 4 else 2
  }

  predicate SameTopBits(x: Byte, y: Byte, r: nat)
    requires r <= 7
  {
    r == 0 || x / Divisor(r) == y / Divisor(r)
  }

  /** The first `bits` bits agree. */
  predicate SamePrefix(a: seq<Byte>, b: seq<Byte>, bits: nat)
    requires |a| == |b|
  {
    && (forall i :: 0 <= i < |a| && i < bits / 8 ==> a[i] == b[i])
    && (bits / 8 < |a| ==> SameTopBits(a[bits / 8], b[bits / 8], bits % 8))
  }

  /** A length cast to unsigned: a negative one wraps to one so large that every bit of an address counts. */
  function Unsigned(x: int): nat { if x < 0 then 128 else x }

  /** `is_same_net6_inline`. */
  method IsSameNet6(a: seq<Byte>, b: seq<Byte>, length: int) returns (same: bool)
    requires |a| == |b| == 16
    ensures same <==> SamePrefix(a, b, Unsigned(length))
  {
    var prefixLen := Unsigned(length);
    var remaining: nat := prefixLen;
    var i := 0;
    while i < 16
      invariant 0 <= i <= 16
      invariant remaining > 0 ==> remaining + 8 * i == prefixLen
      invariant remaining == 0 ==> prefixLen <= 8 * i
      invariant forall j :: 0 <= j < i && j < prefixLen / 8 ==> a[j] == b[j]
      invariant prefixLen / 8 < i ==> SameTopBits(a[prefixLen / 8], b[prefixLen / 8], prefixLen % 8)
    {
      if remaining == 0 {
        break;
      }
      if remaining >= 8 {
        if a[i] != b[i] {
          return false;
        }
        remaining := remaining - 8;
      } else {
        if a[i] / Divisor(remaining) != b[i] / Divisor(remaining) {
          return false;
        }
        remaining := 0;
      }
      i := i + 1;
    }
    return true;
  }

  function Clamp(x: int, hi: nat): nat { if x < 0 then 0 else if x > hi then hi else x }

  /** One entry of `find_addrlist` matches the address: same family, as the entry's flag says, and same prefix. */
  predicate SubnetMatches(s: Subnet, a: Address) {
    && s.addr.V6? == a.V6? == s.isV6
    && |s.addr.octets| == |a.octets|
    && SamePrefix(a.octets, s.addr.octets, if a.V4? then Clamp(s.prefixlen, 32) else Unsigned(s.prefixlen))
  }

  /** `find_addrlist`: the first matching entry. */
  function FindSubnet(list: seq<Subnet>, a: Address): (k: nat)
    ensures k <= |list|
    ensures k < |list| ==> SubnetMatches(list[k], a)
    ensures forall i :: 0 <= i < k ==> !SubnetMatches(list[i], a)
  {
    if list == [] || SubnetMatches(list[0], a) then 0 else 1 + FindSubnet(list[1..], a)
  }

  /** `filter_zone`. */
  predicate FilterZone(z: Zone, a: Address) {
    FindSubnet(z.excludes, a) == |z.excludes| && (z.subnets == [] || FindSubnet(z.subnets, a) < |z.subnets|)
  }

  // ----- the filter in bits -----

  const POWERS := [128, 64, 32, 16, 8, 4, 2, 1]

  /** Bit `i` of an address, the most significant bit first. */
  function BitOf(octets: seq<Byte>, i: nat): int
    requires i < 8 * |octets|
  {
    octets[i / 8] / POWERS[i % 8] % 2
  }

  /** The first `n` bits of the addresses agree. */
  ghost predicate BitsAgree(a: seq<Byte>, b: seq<Byte>, n: nat)
    requires |a| == |b|
  {
    forall i :: 0 <= i < n && i < 8 * |a| ==> BitOf(a, i) == BitOf(b, i)
  }

  /** The top `r` bits of two octets agree, bit by bit. */
  lemma {:induction false} TopBits(x: Byte, y: Byte, r: nat)
    requires r <= 7
    ensures SameTopBits(x, y, r) <==> forall j :: 0 <= j < r ==> x / POWERS[j] % 2 == y / POWERS[j] % 2
  {
    if r == 0 {
    } else {
      TopBits(x, y, r - 1);
      TopBit(x, y, r - 1);
    }
  }

  /** One bit less is half of what one bit more keeps. */
  lemma Halves(x: Byte, r: nat)
    requires 1 <= r <= 6
    ensures x / Divisor(r) == x / Divisor(r + 1) / 2
  {
    if r == 1 {
      assert x / 128 == x / 64 / 2;
    } else if r == 2 {
      assert x / 64 == x / 32 / 2;
    } else if r == 3 {
      assert x / 32 == x / 16 / 2;
    } else if r == 4 {
      assert x / 16 == x / 8 / 2;
    } else if r == 5 {
      assert x / 8 == x / 4 / 2;
    } else {
      assert x / 4 == x / 2 / 2;
    }
  }

  lemma SameHalves(p: nat, q: nat)
    ensures p == q <==> p / 2 == q / 2 && p % 2 == q % 2
  {
    assert p == p / 2 * 2 + p % 2 && q == q / 2 * 2 + q % 2;
  }

  lemma TopBit(x: Byte, y: Byte, r: nat)
    requires r <= 6
    ensures SameTopBits(x, y, r + 1) <==> SameTopBits(x, y, r) && x / POWERS[r] % 2 == y / POWERS[r] % 2
  {
    assert Divisor(r + 1) == POWERS[r];
    SameHalves(x / POWERS[r], y / POWERS[r]);
    if r > 0 {
      Halves(x, r);
      Halves(y, r);
    } else {
      assert x / 128 / 2 == 0 && y / 128 / 2 == 0;
    }
  }

  lemma WholeOctet(x: Byte, y: Byte)
    ensures x == y <==> forall j :: 0 <= j < 8 ==> x / POWERS[j] % 2 == y / POWERS[j] % 2
  {
    TopBits(x, y, 7);
    assert x == x / 2 * 2 + x % 2 && y == y / 2 * 2 + y % 2;
    assert POWERS[7] == 1 && x / 1 == x && y / 1 == y;
    if forall j :: 0 <= j < 8 ==> x / POWERS[j] % 2 == y / POWERS[j] % 2 {
      assert x / POWERS[7] % 2 == y / POWERS[7] % 2;
    }
  }

  lemma BitAt(o: seq<Byte>, k: nat, j: nat)
    requires k < |o| && j < 8
    ensures BitOf(o, 8 * k + j) == o[k] / POWERS[j] % 2
  {
    assert (8 * k + j) / 8 == k && (8 * k + j) % 8 == j;
  }

  lemma BitsOfOctet(a: seq<Byte>, b: seq<Byte>, n: nat, k: nat, r: nat)
    requires |a| == |b| && k < |a| && r <= 8 && 8 * k + r <= n && BitsAgree(a, b, n)
    ensures forall j :: 0 <= j < r ==> a[k] / POWERS[j] % 2 == b[k] / POWERS[j] % 2
  {
    forall j | 0 <= j < r
      ensures a[k] / POWERS[j] % 2 == b[k] / POWERS[j] % 2
    {
      BitAt(a, k, j);
      BitAt(b, k, j);
      assert BitOf(a, 8 * k + j) == BitOf(b, 8 * k + j);
    }
  }

  lemma BitsArePrefix(a: seq<Byte>, b: seq<Byte>, n: nat)
    requires |a| == |b| && BitsAgree(a, b, n)
    ensures SamePrefix(a, b, n)
  {
    forall k | 0 <= k < |a| && k < n / 8
      ensures a[k] == b[k]
    {
      BitsOfOctet(a, b, n, k, 8);
      WholeOctet(a[k], b[k]);
    }
    if n / 8 < |a| {
      BitsOfOctet(a, b, n, n / 8, n % 8);
      TopBits(a[n / 8], b[n / 8], n % 8);
    }
  }

  lemma PrefixBit(a: seq<Byte>, b: seq<Byte>, n: nat, i: nat)
    requires |a| == |b| && SamePrefix(a, b, n) && i < n && i < 8 * |a|
    ensures BitOf(a, i) == BitOf(b, i)
  {
    if i / 8 == n / 8 {
      assert i % 8 < n % 8;
      TopBits(a[i / 8], b[i / 8], n % 8);
    } else {
      assert i / 8 < n / 8;
    }
  }

  /** Agreeing on a prefix is agreeing on its bits. */
  lemma SamePrefixIsBits(a: seq<Byte>, b: seq<Byte>, n: nat)
    requires |a| == |b|
    ensures SamePrefix(a, b, n) <==> BitsAgree(a, b, n)
  {
    if SamePrefix(a, b, n) {
      forall i | 0 <= i < n && i < 8 * |a|
        ensures BitOf(a, i) == BitOf(b, i)
      {
        PrefixBit(a, b, n, i);
      }
    }
    if BitsAgree(a, b, n) {
      BitsArePrefix(a, b, n);
    }
  }

  /** The subnet covers the address: both are of the family the entry says, and agree on the bits of the prefix. A
      length below zero covers every IPv4 address and, for IPv6, only the subnet's own address. */
  ghost predicate Covers(s: Subnet, a: Address) {
    && |s.addr.octets| == |a.octets|
    && if s.isV6
       then s.addr.V6? && a.V6? && BitsAgree(a.octets, s.addr.octets, if s.prefixlen < 0 then 128 else s.prefixlen)
       else
         && s.addr.V4? && a.V4?
         && BitsAgree(a.octets, s.addr.octets,
                      if s.prefixlen < 0 then 0 else if s.prefixlen > 32 then 32 else s.prefixlen)
  }

  lemma SubnetCovers(s: Subnet, a: Address)
    ensures SubnetMatches(s, a) <==> Covers(s, a)
  {
    if |s.addr.octets| == |a.octets| {
      SamePrefixIsBits(a.octets, s.addr.octets, if a.V4? then Clamp(s.prefixlen, 32) else Unsigned(s.prefixlen));
    }
  }

  /** An address passes the filter if and only if no excluded subnet covers it and, if there are subnets, one of them
      does. */
  lemma FilterZoneIff(z: Zone, a: Address)
    ensures FilterZone(z, a) <==>
            && (forall i :: 0 <= i < |z.excludes| ==> !Covers(z.excludes[i], a))
            && (z.subnets == [] || exists i :: 0 <= i < |z.subnets| && Covers(z.subnets[i], a))
  {
    forall i | 0 <= i < |z.excludes|
      ensures SubnetMatches(z.excludes[i], a) <==> Covers(z.excludes[i], a)
    {
      SubnetCovers(z.excludes[i], a);
    }
    forall i | 0 <= i < |z.subnets|
      ensures SubnetMatches(z.subnets[i], a) <==> Covers(z.subnets[i], a)
    {
      SubnetCovers(z.subnets[i], a);
    }
  }

  // ----- labels in reverse -----

  /** The labels below `k` in reverse, each followed by a dot. */
  function ReversedLabels(ls: seq<string>, k: nat): string
    requires k <= |ls|
  {
    if k == 0 then "" else ls[k - 1] + "." + ReversedLabels(ls, k - 1)
  }

  lemma {:induction false} LabelsDepend(ls: seq<string>, ms: seq<string>, k: nat)
    requires k <= |ls| && k <= |ms| && ls[..k] == ms[..k]
    ensures ReversedLabels(ls, k) == ReversedLabels(ms, k)
  {
    if k == 0 {
    } else {
      assert ls[..k][k - 1] == ms[..k][k - 1] && ls[..k][..k - 1] == ls[..k - 1] && ms[..k][..k - 1] == ms[..k - 1];
      LabelsDepend(ls, ms, k - 1);
    }
  }

  /** Empty, or ending in a dot. */
  predicate Closed(u: string) { u != "" ==> u[|u| - 1] == '.' }

  lemma Regroup(u: string, x: string, rest: string)
    ensures u + (x + "." + rest) == (u + x + ".") + rest && Closed(u + x + ".")
  {
  }

  /** The first `k` labels stand at the end of the name of `m`, and what is before them is closed. */
  lemma {:induction false} LabelsFront(ls: seq<string>, k: nat, m: nat) returns (u: string)
    requires k <= m <= |ls|
    ensures ReversedLabels(ls, m) == u + ReversedLabels(ls, k) && Closed(u) && (k < m ==> u != "")
    decreases m - k
  {
    if k == m {
      u := "";
    } else {
      var v := LabelsFront(ls, k + 1, m);
      u := v + ls[k] + ".";
      Regroup(v, ls[k], ReversedLabels(ls, k));
    }
  }

  /** What stands before the last label is determined by where its dot is. */
  lemma LastLabel(u: string, x: string, v: string, y: string)
    requires u + x == v + y && Closed(u) && Closed(v) && '.' !in x && '.' !in y
    ensures u == v && x == y
  {
    var s := u + x;
    assert forall i :: |u| <= i < |s| ==> s[i] == x[i - |u|];
    assert forall i :: |v| <= i < |s| ==> s[i] == y[i - |v|];
    assert (|u| > 0 ==> s[|u| - 1] == '.') && (|v| > 0 ==> s[|v| - 1] == '.');
    assert |u| == |v|;
    assert s[..|u|] == u && s[|u|..] == x && s[..|v|] == v && s[|v|..] == y;
  }

  lemma SameEnd(p: string, q: string, ending: string)
    requires p + ending == q + ending
    ensures p == q
  {
    assert |p| == |q| && (p + ending)[..|p|] == p && (q + ending)[..|q|] == q;
  }

  lemma TopLabel(u: string, x: string, v: string, y: string, rest: string)
    requires Closed(u) && Closed(v) && '.' !in x && '.' !in y
    requires u + (x + "." + rest) == v + (y + "." + rest)
    ensures x == y
  {
    Regroup(u, x, rest);
    Regroup(v, y, rest);
    SameEnd(u + x + ".", v + y + ".", rest);
    SameEnd(u + x, v + y, ".");
    LastLabel(u, x, v, y);
  }

  lemma OneMore(ls: seq<string>, ms: seq<string>, k: nat)
    requires k < |ls| && k < |ms| && ls[..k] == ms[..k] && ls[k] == ms[k]
    ensures ls[..k + 1] == ms[..k + 1]
  {
  }

  /** One more label: the name ends with the labels of `ms` up to `n`, and those below `n` are its own. */
  lemma NextLabelAgrees(ls: seq<string>, ms: seq<string>, whole: string, u: string, n: nat, m: nat)
    requires n < m <= |ls| && n < |ms| && Closed(u) && Free(ls, '.') && Free(ms, '.') && ls[..n] == ms[..n]
    requires whole == ReversedLabels(ls, m) && whole == u + (ms[n] + "." + ReversedLabels(ms, n))
    ensures ls[..n + 1] == ms[..n + 1]
  {
    LabelsDepend(ls, ms, n);
    var v := LabelsFront(ls, n + 1, m);
    TopLabel(u, ms[n], v, ls[n], ReversedLabels(ms, n));
    OneMore(ls, ms, n);
  }

  /** A name that ends with given labels, at a label boundary, has them as its own. */
  lemma {:induction false} LabelsDetermined(ls: seq<string>, ms: seq<string>, whole: string, u: string, k: nat, m: nat)
    requires k <= m <= |ls| && k <= |ms| && Closed(u) && Free(ls, '.') && Free(ms, '.')
    requires whole == ReversedLabels(ls, m) && whole == u + ReversedLabels(ms, k)
    ensures ls[..k] == ms[..k]
    decreases k
  {
    if k == 0 {
    } else {
      var n := k - 1;
      Regroup(u, ms[n], ReversedLabels(ms, n));
      LabelsDetermined(ls, ms, whole, u + ms[n] + ".", n, m);
      NextLabelAgrees(ls, ms, whole, u, n, m);
    }
  }

  lemma LabelsAligned(ls: seq<string>, ms: seq<string>, name: string, zone: string, k: nat, m: nat)
    requires k <= m <= |ls| && k <= |ms| && Free(ls, '.') && Free(ms, '.')
    requires name == ReversedLabels(ls, m) && zone == ReversedLabels(ms, k)
    ensures EndsAligned(name, zone) <==> ls[..k] == ms[..k]
    ensures EndsAligned(name, zone) && k < m ==> |zone| < |name|
  {
    var v := LabelsFront(ls, k, m);
    if EndsAligned(name, zone) {
      var u := name[..|name| - |zone|];
      assert name == u + zone;
      LabelsDetermined(ls, ms, name, u, k, m);
    }
    if ls[..k] == ms[..k] {
      LabelsDepend(ls, ms, k);
    }
  }

  lemma {:induction false} LabelsAreLower(ls: seq<string>, k: nat)
    requires k <= |ls| && forall i :: 0 <= i < |ls| ==> Lower(ls[i]) == ls[i]
    ensures Lower(ReversedLabels(ls, k)) == ReversedLabels(ls, k)
  {
    if k == 0 {
    } else {
      LabelsAreLower(ls, k - 1);
      LowerConcat(ls[k - 1], ".");
      LowerConcat(ls[k - 1] + ".", ReversedLabels(ls, k - 1));
    }
  }

  lemma TrimEnding(s: string, ending: string)
    requires ending != "" && ending[|ending| - 1] != '.'
    ensures TrimEnd(s + ending) == s + ending
  {
  }

  /** `zone` ends `name` and begins at a label boundary. */
  predicate EndsAligned(name: string, zone: string) {
    && |zone| <= |name|
    && var at := |name| - |zone|;
       name[at..] == zone && (at > 0 ==> name[at - 1] == '.')
  }

  /** Under a common ending, a lower-case name is in a lower-case zone when what stands before the ending is. */
  lemma UnderEnding(name: string, zone: string, ending: string)
    requires ending != "" && ending[|ending| - 1] != '.'
    requires Lower(name) == name && Lower(zone) == zone
    ensures InZone(name + ending, zone + ending).Some? <==> EndsAligned(name, zone)
    ensures |zone| < |name| && EndsAligned(name, zone) ==> InZone(name + ending, zone + ending).value.Cut?
  {
    TrimEnding(name, ending);
    TrimEnding(zone, ending);
    PlaceUnderEnding(name, zone, name + ending, zone + ending, ending);
  }

  lemma PlaceUnderEnding(name: string, zone: string, longName: string, longZone: string, ending: string)
    requires Lower(name) == name && Lower(zone) == zone
    requires longName == name + ending && longZone == zone + ending
    ensures PlaceIn(longName, longZone).Some? <==> EndsAligned(name, zone)
    ensures |zone| < |name| && EndsAligned(name, zone) ==> PlaceIn(longName, longZone).value.Cut?
  {
    if |zone| <= |name| {
      TailUnderEnding(name, zone, ending, |name| - |zone|);
    }
  }

  lemma TailUnderEnding(name: string, zone: string, ending: string, at: nat)
    requires at + |zone| == |name| && Lower(name) == name && Lower(zone) == zone
    ensures SameName((name + ending)[at..], zone + ending) <==> name[at..] == zone
    ensures at > 0 ==> (name + ending)[at - 1] == name[at - 1]
  {
    assert (name + ending)[at..] == name[at..] + ending;
    assert Lower(name)[at..] == Lower(name[at..]);
    LowerConcat(name[at..], ending);
    LowerConcat(zone, ending);
    SameFront(name[at..], zone, Lower(ending));
  }

  lemma SameFront(x: string, y: string, ending: string)
    requires |x| == |y|
    ensures x + ending == y + ending <==> x == y
  {
    if x + ending == y + ending {
      assert (x + ending)[..|x|] == x && (y + ending)[..|x|] == y;
    }
  }

  lemma LowerConcat(a: string, b: string)
    ensures Lower(a + b) == Lower(a) + Lower(b)
  {
  }

  predicate PlainLabels(ls: seq<string>) {
    Free(ls, '.') && forall i :: 0 <= i < |ls| ==> Lower(ls[i]) == ls[i]
  }

  /** One reversed name is in the zone of another, under a common ending, exactly when they share the zone's labels. */
  lemma LabelsInZone(ls: seq<string>, ms: seq<string>, k: nat, m: nat, ending: string)
    requires k <= m <= |ls| && k <= |ms| && PlainLabels(ls) && PlainLabels(ms)
    requires ending != "" && ending[|ending| - 1] != '.'
    ensures var place := InZone(ReversedLabels(ls, m) + ending, ReversedLabels(ms, k) + ending);
            && (place.Some? <==> ls[..k] == ms[..k])
            && (place.Some? && k < m ==> place.value.Cut?)
  {
    var name, zone := ReversedLabels(ls, m), ReversedLabels(ms, k);
    LabelsAreLower(ls, m);
    LabelsAreLower(ms, k);
    LabelsAligned(ls, ms, name, zone, k, m);
    UnderEnding(name, zone, ending);
  }

  // ----- IPv6 -----

  /** Nibble `j`, counting from the most significant. */
  function Nibble(o: seq<Byte>, j: nat): (n: nat)
    requires j / 2 < |o|
    ensures n < 16
  {
    if j % 2 == 0 then o[j / 2] / 16 else o[j / 2] % 16
  }

  ghost predicate NibblesAgree(o: seq<Byte>, p: seq<Byte>, k: nat)
    requires k <= 2 * |o| && |o| == |p|
  {
    forall j :: 0 <= j < k ==> Nibble(o, j) == Nibble(p, j)
  }

  function NibbleLabel(n: nat): string
    requires n < 16
  {
    [SynthNames.HexDigit(n)]
  }

  function NibbleLabels(o: seq<Byte>): (ls: seq<string>)
    ensures |ls| == 2 * |o| && forall j :: 0 <= j < |ls| ==> ls[j] == NibbleLabel(Nibble(o, j))
  {
    seq(2 * |o|, j requires 0 <= j < 2 * |o| => NibbleLabel(Nibble(o, j)))
  }

  /** The nibbles below `k` in reverse, each followed by a dot. */
  function ReversedNibbles(o: seq<Byte>, k: nat): string
    requires k <= 2 * |o|
  {
    ReversedLabels(NibbleLabels(o), k)
  }

  /** `ipv6_ptr_name`: from the last octet, low nibble first. */
  function PtrName6(o: seq<Byte>): string {
    ReversedNibbles(o, 2 * |o|) + "ip6.arpa"
  }

  /** How many nibbles `reverse_zone_name` writes for a prefix. */
  function ZoneNibbles(prefixlen: int): nat { if prefixlen <= 0 then 0 else (prefixlen + 3) / 4 }

  /** A zone is named by the nibbles that its prefix touches. */
  lemma ZoneNibblesAreTouched(prefixlen: int, j: nat)
    ensures j < ZoneNibbles(prefixlen) <==> 4 * j < prefixlen
  {
  }

  lemma NibbleOfBit(o: seq<Byte>, i: nat)
    requires i / 8 < |o|
    ensures i / 4 / 2 == i / 8 && Nibble(o, i / 4) == if i / 4 % 2 == 1 then o[i / 8] % 16 else o[i / 8] / 16
  {
  }

  /** The nibbles still to be written when the loop stands at bit `i`. */
  function NibblesLeft(i: int): nat { if i < 0 then 0 else i / 4 + 1 }

  lemma NextNibble(o: seq<Byte>, i: nat, s: string)
    requires |o| == 16 && i < 128
    ensures NibblesLeft(i) <= 32 && NibblesLeft(i - 4) <= 32
    ensures var nib := if i / 4 % 2 == 1 then o[i / 8] % 16 else o[i / 8] / 16;
            s + ReversedNibbles(o, NibblesLeft(i)) == s + NibbleLabel(nib) + "."
              + ReversedNibbles(o, NibblesLeft(i - 4))
  {
    NibbleOfBit(o, i);
    assert NibblesLeft(i - 4) == NibblesLeft(i) - 1;
    Regroup(s, NibbleLabels(o)[i / 4], ReversedNibbles(o, NibblesLeft(i - 4)));
  }

  /** The IPv6 branch of `reverse_zone_name`. */
  method ReverseZoneName6(o: seq<Byte>, prefixlen: int) returns (s: string)
    requires |o| == 16 && prefixlen <= 128
    ensures s == ReversedNibbles(o, ZoneNibbles(prefixlen)) + "ip6.arpa"
  {
    s := "";
    var i := prefixlen - 1;
    assert NibblesLeft(i) == ZoneNibbles(prefixlen);
    ghost var whole := ReversedNibbles(o, ZoneNibbles(prefixlen));
    while i >= 0
      invariant i < 128 && NibblesLeft(i) <= 32
      invariant s + ReversedNibbles(o, NibblesLeft(i)) == whole
      decreases i + 4
    {
      NextNibble(o, i, s);
      var dig := o[i / 8];
      var nib := if i / 4 % 2 == 1 then dig % 16 else dig / 16;
      s := s + NibbleLabel(nib) + ".";
      i := i - 4;
    }
    s := s + "ip6.arpa";
  }

  lemma NibbleLabelMeaning(m: nat, n: nat)
    requires m < 16 && n < 16
    ensures NibbleLabel(m) == NibbleLabel(n) <==> m == n
    ensures '.' !in NibbleLabel(m) && Lower(NibbleLabel(m)) == NibbleLabel(m)
  {
  }

  lemma NibbleLabelsMeaning(o: seq<Byte>, p: seq<Byte>, k: nat)
    requires |o| == |p| && k <= 2 * |o|
    ensures PlainLabels(NibbleLabels(o)) && (NibbleLabels(o)[..k] == NibbleLabels(p)[..k] <==> NibblesAgree(o, p, k))
  {
    var ls, ms := NibbleLabels(o), NibbleLabels(p);
    forall j | 0 <= j < |ls|
      ensures '.' !in ls[j] && Lower(ls[j]) == ls[j] && (ls[j] == ms[j] <==> Nibble(o, j) == Nibble(p, j))
    {
      NibbleLabelMeaning(Nibble(o, j), Nibble(p, j));
    }
    SamePart(ls, ms, k);
  }

  lemma SamePart<T>(s: seq<T>, t: seq<T>, k: nat)
    requires k <= |s| && k <= |t|
    ensures s[..k] == t[..k] <==> forall j :: 0 <= j < k ==> s[j] == t[j]
  {
    if s[..k] == t[..k] {
      assert forall j :: 0 <= j < k ==> s[j] == s[..k][j] && t[j] == t[..k][j];
    }
  }

  /** The reverse name of an address is in the reverse zone of a prefix, at a label boundary, exactly when the two agree
      on the nibbles that the prefix touches. */
  lemma PtrInZone6Iff(a: seq<Byte>, net: seq<Byte>, prefixlen: int)
    requires |a| == |net| == 16 && prefixlen <= 128
    ensures InZone(PtrName6(a), ReversedNibbles(net, ZoneNibbles(prefixlen)) + "ip6.arpa").Some? <==>
            NibblesAgree(a, net, ZoneNibbles(prefixlen))
  {
    var k := ZoneNibbles(prefixlen);
    NibbleLabelsMeaning(a, net, k);
    NibbleLabelsMeaning(net, a, k);
    LabelsInZone(NibbleLabels(a), NibbleLabels(net), k, 2 * |a|, "ip6.arpa");
  }

  /** For prefixes on a nibble boundary, the reverse zone holds exactly the matched addresses. */
  lemma PtrInZone6(a: seq<Byte>, net: seq<Byte>, prefixlen: nat)
    requires |a| == |net| == 16 && prefixlen <= 128 && prefixlen % 4 == 0
    ensures InZone(PtrName6(a), ReversedNibbles(net, ZoneNibbles(prefixlen)) + "ip6.arpa").Some?
       <==> SamePrefix(a, net, prefixlen)
  {
    var k := prefixlen / 4;
    assert prefixlen == 4 * k && ZoneNibbles(prefixlen) == k;
    PtrInZone6Iff(a, net, prefixlen);
    NibblesArePrefix(a, net, k);
  }

  lemma {:induction false} NibblesArePrefix(a: seq<Byte>, net: seq<Byte>, k: nat)
    requires |a| == |net| == 16 && k <= 32
    ensures NibblesAgree(a, net, k) <==> SamePrefix(a, net, 4 * k)
  {
    if k == 0 {
    } else {
      NibblesArePrefix(a, net, k - 1);
      var b := (k - 1) / 2;
      assert 4 * k / 8 == k / 2 && 4 * (k - 1) / 8 == b;
      assert NibblesAgree(a, net, k) <==> NibblesAgree(a, net, k - 1) && Nibble(a, k - 1) == Nibble(net, k - 1);
      if k % 2 == 1 {
        assert 4 * k % 8 == 4 && 4 * (k - 1) % 8 == 0 && k / 2 == b;
      } else {
        assert 4 * k % 8 == 0 && 4 * (k - 1) % 8 == 4 && k / 2 == b + 1;
        assert a[b] == a[b] / 16 * 16 + a[b] % 16 && net[b] == net[b] / 16 * 16 + net[b] % 16;
      }
    }
  }

  // ----- IPv4 -----

  /** The octets below `k` in reverse, each in decimal and followed by a dot. */
  function ReversedOctets(o: seq<Byte>, k: nat): string
    requires k <= |o|
  {
    ReversedLabels(SynthNames.Decimals(o), k)
  }

  /** `ipv4_ptr_name`. */
  function PtrName4(o: seq<Byte>): string {
    ReversedOctets(o, |o|) + "in-addr.arpa"
  }

  /** How many octets `reverse_zone_name` writes for a prefix. */
  function ZoneOctets(prefixlen: int): nat { if prefixlen >= 24 then 3 else if prefixlen >= 16 then 2 else 1 }

  /** The IPv4 branch of `reverse_zone_name`. */
  method ReverseZoneName4(o: seq<Byte>, prefixlen: int) returns (s: string)
    requires |o| == 4
    ensures s == ReversedOctets(o, ZoneOctets(prefixlen)) + "in-addr.arpa"
  {
    var a: nat := Packed(o[0], o[1], o[2]);
    UnpackOctets(o[0], o[1], o[2]);
    ReversedUpTo3(SynthNames.Decimals(o));
    s := "";
    if prefixlen >= 24 {
      s := s + (SynthNames.Decimal(a % 256) + ".");
    }
    a := a / 256;
    if prefixlen >= 16 {
      s := s + (SynthNames.Decimal(a % 256) + ".");
    }
    a := a / 256;
    s := s + (SynthNames.Decimal(a % 256) + "." + "in-addr.arpa");
  }

  /** The upper three octets in one number. */
  function Packed(x: Byte, y: Byte, z: Byte): nat { (x as int) * 0x1_0000 + (y as int) * 0x100 + z }

  lemma UnpackOctets(x: Byte, y: Byte, z: Byte)
    ensures Packed(x, y, z) % 256 == z && Packed(x, y, z) / 256 % 256 == y && Packed(x, y, z) / 256 / 256 % 256 == x
  {
  }

  lemma ReversedUpTo3(ls: seq<string>)
    requires |ls| == 4
    ensures ReversedLabels(ls, 1) == ls[0] + "."
    ensures ReversedLabels(ls, 2) == ls[1] + "." + (ls[0] + ".")
    ensures ReversedLabels(ls, 3) == ls[2] + "." + (ls[1] + "." + (ls[0] + "."))
  {
    assert ReversedLabels(ls, 0) == "";
    assert ReversedLabels(ls, 1) == ls[0] + "." + ReversedLabels(ls, 0);
    assert ReversedLabels(ls, 2) == ls[1] + "." + ReversedLabels(ls, 1);
    assert ReversedLabels(ls, 3) == ls[2] + "." + ReversedLabels(ls, 2);
  }

  lemma DecimalIsLabel(n: nat)
    ensures '.' !in SynthNames.Decimal(n) && Lower(SynthNames.Decimal(n)) == SynthNames.Decimal(n)
  {
    var s := SynthNames.Decimal(n);
    assert forall i :: 0 <= i < |s| ==> SynthNames.IsDigit(s[i]);
  }

  lemma DecimalInjective(m: nat, n: nat)
    ensures SynthNames.Decimal(m) == SynthNames.Decimal(n) <==> m == n
  {
    SynthNames.ValueOfDecimal(m);
    SynthNames.ValueOfDecimal(n);
  }

  lemma DecimalsAgree(o: seq<Byte>, p: seq<Byte>, k: nat)
    requires k <= |o| && k <= |p|
    ensures SynthNames.Decimals(o)[..k] == SynthNames.Decimals(p)[..k] <==> o[..k] == p[..k]
  {
    var ls, ms := SynthNames.Decimals(o), SynthNames.Decimals(p);
    forall j | 0 <= j < k
      ensures ls[..k][j] == ms[..k][j] <==> o[..k][j] == p[..k][j]
    {
      DecimalInjective(o[j], p[j]);
    }
  }

  /** The reverse name of an IPv4 address is in the reverse zone of a network, below a label boundary, exactly when the
      two agree on the octets the zone is named by. */
  lemma PtrInZone4Iff(a: seq<Byte>, net: seq<Byte>, prefixlen: int)
    requires |a| == |net| == 4
    ensures var place := InZone(PtrName4(a), ReversedOctets(net, ZoneOctets(prefixlen)) + "in-addr.arpa");
            && (place.Some? <==> a[..ZoneOctets(prefixlen)] == net[..ZoneOctets(prefixlen)])
            && (place.Some? ==> place.value.Cut?)
  {
    var k := ZoneOctets(prefixlen);
    DecimalsArePlain(a);
    DecimalsArePlain(net);
    LabelsInZone(SynthNames.Decimals(a), SynthNames.Decimals(net), k, |a|, "in-addr.arpa");
    DecimalsAgree(a, net, k);
  }

  lemma DecimalsArePlain(o: seq<Byte>)
    ensures PlainLabels(SynthNames.Decimals(o))
  {
    var ls := SynthNames.Decimals(o);
    forall j | 0 <= j < |ls|
      ensures '.' !in ls[j] && Lower(ls[j]) == ls[j]
    {
      DecimalIsLabel(o[j]);
    }
  }

  /** Every address matched by an IPv4 subnet with a prefix of at least eight bits has its reverse name inside the
      subnet's reverse zone, below a dot; on octet boundaries up to 24 bits no other address has. */
  lemma PtrInZone4(a: seq<Byte>, net: seq<Byte>, prefixlen: nat)
    requires |a| == |net| == 4 && 8 <= prefixlen <= 32
    ensures var place := InZone(PtrName4(a), ReversedOctets(net, ZoneOctets(prefixlen)) + "in-addr.arpa");
            && (SamePrefix(a, net, prefixlen) ==> place.Some? && place.value.Cut?)
            && (prefixlen in {8, 16, 24} ==> (place.Some? <==> SamePrefix(a, net, prefixlen)))
  {
    var k := ZoneOctets(prefixlen);
    PtrInZone4Iff(a, net, prefixlen);
    PrefixOfOctets(a, net, prefixlen, k);
  }

  lemma PrefixOfOctets(a: seq<Byte>, net: seq<Byte>, prefixlen: nat, k: nat)
    requires |a| == |net| == 4 && 8 * k <= prefixlen <= 32 && k < 4
    ensures SamePrefix(a, net, prefixlen) ==> a[..k] == net[..k]
    ensures 8 * k == prefixlen ==> (SamePrefix(a, net, prefixlen) <==> a[..k] == net[..k])
  {
    assert k <= prefixlen / 8;
    assert a[..k] == net[..k] <==> forall j :: 0 <= j < k ==> a[..k][j] == net[..k][j];
  }
}
