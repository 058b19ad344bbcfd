/** Names made from addresses and read back (src/domain.rs). */
module SynthNames {
  import opened Basics
  import opened Names
  import opened Fields

  const TWO_32 := 0x1_0000_0000
  const TWO_64 := 0x1_0000_0000_0000_0000

  /** An IPv6 address as its upper and lower 64 bits. */
  datatype Ipv6 = Ipv6(hi: nat, lo: nat)

  ghost predicate ValidIpv6(a: Ipv6) { a.hi < TWO_64 && a.lo < TWO_64 }

  datatype CondDomain = CondDomain(
    domain: string, prefix: Option<string>, start: nat, end: nat, start6: Ipv6, end6: Ipv6, is6: bool, indexed: bool)

  // ----- decimal numbers -----

  predicate IsDigit(c: char) { '0' <= c <= '9' }

  function Digit(n: nat): (c: char)
    requires n < 10
    ensures IsDigit(c)
  {
    (n + '0' as int) as char
  }

  function DigitValue(c: char): nat
    requires IsDigit(c)
  {
    c as int - '0' as int
  }

  /** Printing without leading zeros. */
  function Decimal(n: nat): (s: string)
    ensures s != "" && forall i :: 0 <= i < |s| ==> IsDigit(s[i])
  {
    if n < 10 then [Digit(n)] else Decimal(n / 10) + [Digit(n % 10)]
  }

  predicate AllDigits(s: string) { forall i :: 0 <= i < |s| ==> IsDigit(s[i]) }

  function Value(s: string): nat
    requires AllDigits(s)
  {
    if s == "" then 0 else Value(s[..|s| - 1]) * 10 + DigitValue(s[|s| - 1])
  }

  /** `str::parse` for an unsigned type below `bound`: an optional plus sign, then digits. */
  function ParseUnsigned(s: string, bound: nat): Option<nat> {
    var digits := if s != "" && s[0] == '+' then s[1..] else s;
    if digits == "" || !AllDigits(digits) || Value(digits) >= bound then None else Some(Value(digits))
  }

  lemma {:induction false} ValueOfDecimal(n: nat)
    ensures Value(Decimal(n)) == n
  {
    if n < 10 {
    } else {
      ValueOfDecimal(n / 10);
      assert Decimal(n)[..|Decimal(n)| - 1] == Decimal(n / 10);
    }
  }

  lemma ParseDecimal(n: nat, bound: nat)
    requires n < bound
    ensures ParseUnsigned(Decimal(n), bound) == Some(n)
  {
    ValueOfDecimal(n);
    assert IsDigit(Decimal(n)[0]);
  }

  // ----- replacing separators -----

  function Replace(s: string, from: char, to: char): (r: string)
    ensures |r| == |s|
    ensures forall i :: 0 <= i < |s| ==> r[i] == if s[i] == from then to else s[i]
  {
    seq(|s|, i requires 0 <= i < |s| => if s[i] == from then to else s[i])
  }

  /** Replacing the separator of joined fields joins them with the new one. */
  lemma {:induction false} ReplaceJoin(fields: seq<string>, from: char, to: char)
    requires fields != [] && Free(fields, from)
    ensures Replace(Join(fields, from), from, to) == Join(fields, to)
  {
    if |fields| == 1 {
    } else {
      ReplaceJoin(fields[1..], from, to);
    }
  }

  lemma {:induction false} JoinIsFree(fields: seq<string>, sep: char, c: char)
    requires fields != [] && Free(fields, c) && c != sep
    ensures c !in Join(fields, sep)
  {
    if |fields| == 1 {
    } else {
      JoinIsFree(fields[1..], sep, c);
    }
  }

  /** Every field read by `p`, or nothing. */
  function ReadFields(fields: seq<string>, p: string -> Option<nat>): Option<seq<nat>> {
    if exists i :: 0 <= i < |fields| && p(fields[i]).None? then None
    else Some(seq(|fields|, i requires 0 <= i < |fields| && p(fields[i]).Some? => p(fields[i]).value))
  }

  lemma FieldsRead(fields: seq<string>, p: string -> Option<nat>, vs: seq<nat>)
    requires |fields| == |vs| && forall i :: 0 <= i < |fields| ==> p(fields[i]) == Some(vs[i])
    ensures ReadFields(fields, p) == Some(vs)
  {
    assert ReadFields(fields, p).Some? && ReadFields(fields, p).value == vs;
  }

  // ----- dotted quads -----

  /** An octet as the standard parser reads it: one to three digits, no superfluous zero, at most 255. */
  function ParseOctet(s: string): Option<nat> {
    if s == "" || |s| > 3 || !AllDigits(s) || (|s| > 1 && s[0] == '0') || Value(s) > 255 then None else Some(Value(s))
  }

  function Octets(a: nat): seq<nat> {
    [a / 0x100_0000 % 256, a / 0x1_0000 % 256, a / 256 % 256, a % 256]
  }

  function FromOctets(os: seq<nat>): nat
    requires |os| == 4
  {
    os[0] * 0x100_0000 + os[1] * 0x1_0000 + os[2] * 256 + os[3]
  }

  lemma OctetsRoundTrip(a: nat)
    requires a < TWO_32
    ensures FromOctets(Octets(a)) == a
  {
    assert a / 0x1_0000 == a / 256 / 256;
    assert a / 0x100_0000 == a / 256 / 256 / 256;
  }

  function Decimals(os: seq<nat>): (fields: seq<string>)
    ensures |fields| == |os| && forall i :: 0 <= i < |os| ==> fields[i] == Decimal(os[i])
  {
    seq(|os|, i requires 0 <= i < |os| => Decimal(os[i]))
  }

  function Dotted(a: nat): string { Join(Decimals(Octets(a)), '.') }

  /** The standard parser on a dotted quad. */
  function ParseQuad(s: string): Option<nat> {
    var os := ReadFields(Split(s, '.'), ParseOctet);
    if os.Some? && |os.value| == 4 then Some(FromOctets(os.value)) else None
  }

  lemma {:induction false} DecimalShape(n: nat)
    ensures n < 10 ==> |Decimal(n)| == 1
    ensures 10 <= n < 100 ==> |Decimal(n)| == 2
    ensures 100 <= n < 1000 ==> |Decimal(n)| == 3
    ensures n > 0 ==> Decimal(n)[0] != '0'
  {
    if n < 10 {
    } else {
      DecimalShape(n / 10);
    }
  }

  lemma OctetRoundTrip(n: nat)
    requires n < 256
    ensures ParseOctet(Decimal(n)) == Some(n)
  {
    DecimalShape(n);
    ValueOfDecimal(n);
  }

  lemma DecimalIsFree(n: nat)
    ensures '.' !in Decimal(n) && '-' !in Decimal(n)
  {
    assert forall j :: 0 <= j < |Decimal(n)| ==> IsDigit(Decimal(n)[j]);
  }

  lemma DecimalsRead(os: seq<nat>)
    requires forall i :: 0 <= i < |os| ==> os[i] < 256
    ensures ReadFields(Decimals(os), ParseOctet) == Some(os)
    ensures Free(Decimals(os), '.') && Free(Decimals(os), '-')
  {
    forall i | 0 <= i < |os|
      ensures ParseOctet(Decimals(os)[i]) == Some(os[i]) && '.' !in Decimals(os)[i] && '-' !in Decimals(os)[i]
    {
      OctetRoundTrip(os[i]);
      DecimalIsFree(os[i]);
    }
    FieldsRead(Decimals(os), ParseOctet, os);
  }

  lemma QuadRoundTrip(a: nat)
    requires a < TWO_32
    ensures ParseQuad(Dotted(a)) == Some(a)
  {
    DecimalsRead(Octets(a));
    SplitJoin(Decimals(Octets(a)), '.');
    OctetsRoundTrip(a);
  }

  /** The quad with dashes for dots, and back. */
  lemma DashedQuad(a: nat)
    ensures '.' !in Replace(Dotted(a), '.', '-') && Replace(Replace(Dotted(a), '.', '-'), '-', '.') == Dotted(a)
  {
    var fields := Decimals(Octets(a));
    DecimalsRead(Octets(a));
    ReplaceJoin(fields, '.', '-');
    JoinIsFree(fields, '-', '.');
    ReplaceJoin(fields, '-', '.');
  }

  // ----- names of IPv4 addresses -----

  function PrefixOf(c: CondDomain): string { if c.prefix.Some? then c.prefix.value else "" }

  /** `strip_prefix`: case-insensitive. */
  function StripPrefix(name: string, prefix: Option<string>): Option<string> {
    match prefix
    case None => Some(name)
    case Some(p) => if |name| >= |p| && SameName(name[..|p|], p) then Some(name[|p|..]) else None
  }

  predicate InRange4(a: nat, c: CondDomain) { c.start <= a <= c.end }

  /** `rev_synth_ipv4` for one domain. */
  function NameOf4(a: nat, c: CondDomain): Option<string> {
    if c.is6 || !InRange4(a, c) then None else Some(PrefixOf(c) + Label4(a, c) + "." + c.domain)
  }

  /** The part before the first dot, when what follows it is the domain. */
  function Label(tail: string, domain: string): Option<string> {
    var dot := IndexOf(tail, '.', 0);
    if dot == |tail| || !SameName(tail[dot + 1..], domain) then None else Some(tail[..dot])
  }

  /** `try_synth_ipv4`. */
  function Address4(name: string, c: CondDomain): Option<nat> {
    var tail := StripPrefix(name, c.prefix);
    if tail.None? then None
    else
      var first := Label(tail.value, c.domain);
      if first.None? then None else Read4(first.value, c)
  }

  /** A synthesised name loses its prefix and splits at its first dot. */
  lemma NameSplits(prefix: Option<string>, first: string, domain: string)
    requires '.' !in first
    ensures var name := (if prefix.Some? then prefix.value else "") + first + "." + domain;
            var tail := StripPrefix(name, prefix);
            tail.Some? && Label(tail.value, domain) == Some(first)
  {
    var p := if prefix.Some? then prefix.value else "";
    var name := p + first + "." + domain;
    var tail := first + "." + domain;
    assert name == p + tail;
    if prefix.Some? {
      assert name[..|p|] == p && name[|p|..] == tail;
    } else {
      assert name == tail;
    }
    SplitAt(first, '.', domain);
  }

  /** Once the name is split, what is read from its label. */
  function Read4(first: string, c: CondDomain): Option<nat> {
    if c.indexed then
      var idx := ParseUnsigned(first, TWO_32);
      if idx.Some? && idx.value <= c.end - c.start then Some(c.start + idx.value) else None
    else
      var a := ParseQuad(Replace(first, '-', '.'));
      if a.Some? && InRange4(a.value, c) then a else None
  }

  function Label4(a: nat, c: CondDomain): string
    requires InRange4(a, c)
  {
    if c.indexed then Decimal(a - c.start) else Replace(Dotted(a), '.', '-')
  }

  lemma IndexedLabel4(a: nat, c: CondDomain)
    requires c.end < TWO_32 && InRange4(a, c) && c.indexed
    ensures '.' !in Label4(a, c) && Read4(Label4(a, c), c) == Some(a)
  {
    DecimalIsFree(a - c.start);
    ParseDecimal(a - c.start, TWO_32);
  }

  /** What is read from a label that is `quad` with dashes for dots. */
  lemma DashedLabel4(first: string, quad: string, a: nat, c: CondDomain)
    requires InRange4(a, c) && !c.indexed && Replace(first, '-', '.') == quad && ParseQuad(quad) == Some(a)
    ensures Read4(first, c) == Some(a)
  {
  }

  lemma Label4RoundTrip(a: nat, c: CondDomain)
    requires c.end < TWO_32 && InRange4(a, c)
    ensures '.' !in Label4(a, c) && Read4(Label4(a, c), c) == Some(a)
  {
    if c.indexed {
      IndexedLabel4(a, c);
    } else {
      DashedQuad(a);
      QuadRoundTrip(a);
      DashedLabel4(Label4(a, c), Dotted(a), a, c);
    }
  }

  /** Reading the name made for any address of the range gives back that address, indexed or dashed. */
  lemma Ipv4NameRoundTrip(a: nat, c: CondDomain)
    requires !c.is6 && c.end < TWO_32 && InRange4(a, c)
    ensures NameOf4(a, c).Some? && Address4(NameOf4(a, c).value, c) == Some(a)
  {
    Label4RoundTrip(a, c);
    NameSplits(c.prefix, Label4(a, c), c.domain);
  }

  // ----- hexadecimal groups -----

  predicate InRange6(a: Ipv6, c: CondDomain) { c.start6.lo <= a.lo <= c.end6.lo }

  function HexDigit(n: nat): (c: char)
    requires n < 16
    ensures c != '.' && c != '-' && c != ':' && LowerChar(c) == c
  {
    if n < 10 then Digit(n) else (n - 10 + 'a' as int) as char
  }

  /** A group of sixteen bits in four digits. */
  function Hex4(g: nat): (s: string)
    ensures |s| == 4 && forall i :: 0 <= i < 4 ==> s[i] != '.' && s[i] != '-' && s[i] != ':'
  {
    [HexDigit(g / 0x1000 % 16), HexDigit(g / 0x100 % 16), HexDigit(g / 16 % 16), HexDigit(g % 16)]
  }

  /** Sixty-four bits as four groups. */
  function Groups(v: nat): (gs: seq<nat>)
    ensures |gs| == 4 && forall i :: 0 <= i < 4 ==> gs[i] < 0x1_0000
  {
    [v / 0x1_0000_0000_0000 % 0x1_0000, v / 0x1_0000_0000 % 0x1_0000, v / 0x1_0000 % 0x1_0000, v % 0x1_0000]
  }

  function FromGroups(gs: seq<nat>): nat
    requires |gs| == 4
  {
    gs[0] * 0x1_0000_0000_0000 + gs[1] * 0x1_0000_0000 + gs[2] * 0x1_0000 + gs[3]
  }

  function HexFields(gs: seq<nat>): (fields: seq<string>)
    ensures |fields| == |gs| && forall i :: 0 <= i < |gs| ==> fields[i] == Hex4(gs[i])
  {
    seq(|gs|, i requires 0 <= i < |gs| => Hex4(gs[i]))
  }

  function AllGroups(a: Ipv6): (gs: seq<nat>)
    ensures |gs| == 8 && forall i :: 0 <= i < 8 ==> gs[i] < 0x1_0000
  {
    Groups(a.hi) + Groups(a.lo)
  }

  /** All eight groups in full. */
  function HexAddress(a: Ipv6, sep: char): string { Join(HexFields(AllGroups(a)), sep) }

  // ----- reading the uncompressed form (section 2.2 of RFC 4291, form 1) -----

  predicate IsHex(c: char) { IsDigit(c) || 'a' <= LowerChar(c) <= 'f' }

  function HexDigitValue(c: char): nat
    requires IsHex(c)
  {
    if IsDigit(c) then DigitValue(c) else LowerChar(c) as int - 'a' as int + 10
  }

  function HexValue(s: string): nat
    requires forall i :: 0 <= i < |s| ==> IsHex(s[i])
  {
    if s == "" then 0 else HexValue(s[..|s| - 1]) * 16 + HexDigitValue(s[|s| - 1])
  }

  /** One to four hexadecimal digits. */
  function ParseGroup(s: string): Option<nat> {
    if s == "" || |s| > 4 || exists i :: 0 <= i < |s| && !IsHex(s[i]) then None else Some(HexValue(s))
  }

  /** Eight groups between colons. */
  function ParseUncompressed(s: string): Option<Ipv6> {
    var gs := ReadFields(Split(s, ':'), ParseGroup);
    if gs.Some? && |gs.value| == 8 then Some(Ipv6(FromGroups(gs.value[..4]), FromGroups(gs.value[4..]))) else None
  }

  /** A parser that reads the uncompressed form as the standard says; what it makes of other strings is open. */
  ghost predicate ReadsUncompressed(parse: string -> Option<Ipv6>) {
    forall s :: ParseUncompressed(s).Some? ==> parse(s) == ParseUncompressed(s)
  }

  lemma HexDigitReads(n: nat)
    requires n < 16
    ensures IsHex(HexDigit(n)) && HexDigitValue(HexDigit(n)) == n
  {
  }

  lemma HexValue4(a: char, b: char, c: char, d: char)
    requires IsHex(a) && IsHex(b) && IsHex(c) && IsHex(d)
    ensures HexValue([a, b, c, d])
         == ((HexDigitValue(a) * 16 + HexDigitValue(b)) * 16 + HexDigitValue(c)) * 16 + HexDigitValue(d)
  {
    assert [a, b, c, d][..3] == [a, b, c] && [a, b, c][..2] == [a, b] && [a, b][..1] == [a] && [a][..0] == [];
    assert HexValue([a, b]) == HexValue([a]) * 16 + HexDigitValue(b);
    assert HexValue([a, b, c]) == HexValue([a, b]) * 16 + HexDigitValue(c);
  }

  lemma NibblesOf(g: nat)
    requires g < 0x1_0000
    ensures ((g / 0x1000 % 16 * 16 + g / 0x100 % 16) * 16 + g / 16 % 16) * 16 + g % 16 == g
  {
    assert g / 0x100 == g / 16 / 16 && g / 0x1000 == g / 16 / 16 / 16;
  }

  lemma GroupRoundTrip(g: nat)
    requires g < 0x1_0000
    ensures ParseGroup(Hex4(g)) == Some(g)
  {
    HexDigitReads(g / 0x1000 % 16);
    HexDigitReads(g / 0x100 % 16);
    HexDigitReads(g / 16 % 16);
    HexDigitReads(g % 16);
    HexValue4(HexDigit(g / 0x1000 % 16), HexDigit(g / 0x100 % 16), HexDigit(g / 16 % 16), HexDigit(g % 16));
    NibblesOf(g);
  }

  lemma GroupsRoundTrip(v: nat)
    requires v < TWO_64
    ensures FromGroups(Groups(v)) == v
  {
    assert v / 0x1_0000_0000 == v / 0x1_0000 / 0x1_0000;
    assert v / 0x1_0000_0000_0000 == v / 0x1_0000 / 0x1_0000 / 0x1_0000;
  }

  lemma HexFieldsRead(gs: seq<nat>)
    requires forall i :: 0 <= i < |gs| ==> gs[i] < 0x1_0000
    ensures ReadFields(HexFields(gs), ParseGroup) == Some(gs)
    ensures Free(HexFields(gs), '.') && Free(HexFields(gs), '-') && Free(HexFields(gs), ':')
  {
    forall i | 0 <= i < |gs|
      ensures ParseGroup(HexFields(gs)[i]) == Some(gs[i])
    {
      GroupRoundTrip(gs[i]);
    }
    FieldsRead(HexFields(gs), ParseGroup, gs);
  }

  lemma UncompressedRoundTrip(a: Ipv6)
    requires ValidIpv6(a)
    ensures ParseUncompressed(HexAddress(a, ':')) == Some(a)
  {
    var gs := AllGroups(a);
    HexFieldsRead(gs);
    SplitJoin(HexFields(gs), ':');
    assert gs[..4] == Groups(a.hi) && gs[4..] == Groups(a.lo);
    GroupsRoundTrip(a.hi);
    GroupsRoundTrip(a.lo);
  }

  // ----- names of IPv6 addresses -----

  function Label6(a: Ipv6, c: CondDomain): string
    requires InRange6(a, c)
  {
    if c.indexed then Decimal(a.lo - c.start6.lo) else HexAddress(a, '-')
  }

  /** `rev_synth_ipv6` for one domain. */
  function NameOf6(a: Ipv6, c: CondDomain): Option<string> {
    if !c.is6 || !InRange6(a, c) then None else Some(PrefixOf(c) + Label6(a, c) + "." + c.domain)
  }

  function Read6(first: string, c: CondDomain, parse: string -> Option<Ipv6>): Option<Ipv6> {
    if c.indexed then
      var idx := ParseUnsigned(first, TWO_64);
      if idx.Some? && idx.value <= c.end6.lo - c.start6.lo then Some(c.start6.(lo := c.start6.lo + idx.value)) else None
    else
      var a := parse(Replace(first, '-', ':'));
      if a.Some? && InRange6(a.value, c) then a else None
  }

  /** `try_synth_ipv6`, given the standard library's address parser. */
  function Address6(name: string, c: CondDomain, parse: string -> Option<Ipv6>): Option<Ipv6> {
    var tail := StripPrefix(name, c.prefix);
    if tail.None? then None
    else
      var first := Label(tail.value, c.domain);
      if first.None? then None else Read6(first.value, c, parse)
  }

  lemma HexSeparators(a: Ipv6)
    ensures '.' !in HexAddress(a, '-') && Replace(HexAddress(a, '-'), '-', ':') == HexAddress(a, ':')
  {
    var fields := HexFields(AllGroups(a));
    HexFieldsRead(AllGroups(a));
    JoinIsFree(fields, '-', '.');
    ReplaceJoin(fields, '-', ':');
  }

  /** Reading the name made for an address of the range gives back that address: always for the dashed form, and
      for the indexed form exactly when the address shares the upper 64 bits of the start of the range. */
  lemma Ipv6NameRoundTrip(a: Ipv6, c: CondDomain, parse: string -> Option<Ipv6>)
    requires c.is6 && ValidIpv6(a) && ValidIpv6(c.end6) && InRange6(a, c) && ReadsUncompressed(parse)
    ensures NameOf6(a, c).Some?
    ensures Address6(NameOf6(a, c).value, c, parse) == Some(a) <==> (c.indexed ==> a.hi == c.start6.hi)
  {
    var name := NameOf6(a, c).value;
    if c.indexed {
      IndexedName6(a, c, name, parse);
    } else {
      UncompressedRoundTrip(a);
      DashedName6(a, c, name, parse);
    }
  }

  lemma IndexedName6(a: Ipv6, c: CondDomain, name: string, parse: string -> Option<Ipv6>)
    requires c.indexed && ValidIpv6(a) && ValidIpv6(c.end6) && InRange6(a, c)
    requires name == PrefixOf(c) + Decimal(a.lo - c.start6.lo) + "." + c.domain
    ensures Address6(name, c, parse) == Some(Ipv6(c.start6.hi, a.lo))
  {
    DecimalIsFree(a.lo - c.start6.lo);
    ParseDecimal(a.lo - c.start6.lo, TWO_64);
    NameSplits(c.prefix, Decimal(a.lo - c.start6.lo), c.domain);
  }

  lemma DashedName6(a: Ipv6, c: CondDomain, name: string, parse: string -> Option<Ipv6>)
    requires !c.indexed && InRange6(a, c) && parse(HexAddress(a, ':')) == Some(a)
    requires name == PrefixOf(c) + HexAddress(a, '-') + "." + c.domain
    ensures Address6(name, c, parse) == Some(a)
  {
    HexSeparators(a);
    HexName6(HexAddress(a, '-'), HexAddress(a, ':'), a, c, name, parse);
  }

  lemma HexName6(first: string, full: string, a: Ipv6, c: CondDomain, name: string, parse: string -> Option<Ipv6>)
    requires !c.indexed && '.' !in first && Replace(first, '-', ':') == full && parse(full) == Some(a) && InRange6(a, c)
    requires name == PrefixOf(c) + first + "." + c.domain
    ensures Address6(name, c, parse) == Some(a)
  {
    NameSplits(c.prefix, first, c.domain);
  }
}
