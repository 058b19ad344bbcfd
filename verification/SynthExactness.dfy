/** Which names are read as which addresses. */
module SynthExactness {
  import opened Basics
  import opened Names
  import opened Fields
  import opened SynthNames

  // ----- decimal numbers and dotted quads have one spelling -----

  /** Digits without a superfluous zero in front are what is printed for their value. */
  lemma {:induction false} DecimalOfValue(s: string)
    requires s != "" && AllDigits(s) && (|s| > 1 ==> s[0] != '0')
    ensures Decimal(Value(s)) == s
    ensures |s| > 1 ==> Value(s) >= 10
  {
    var before, last := s[..|s| - 1], s[|s| - 1];
    assert s == before + [last];
    if |s| == 1 {
      assert before == "" && Value(s) == DigitValue(last);
    } else {
      DecimalOfValue(before);
      if |before| == 1 {
        assert before[..0] == "" && Value(before) == DigitValue(before[0]) > 0;
      }
      assert Value(s) / 10 == Value(before) && Value(s) % 10 == DigitValue(last);
    }
  }

  /** An octet is read from exactly one string, its decimal digits. */
  lemma OctetIff(s: string, n: nat)
    ensures ParseOctet(s) == Some(n) <==> n < 256 && s == Decimal(n)
  {
    if ParseOctet(s) == Some(n) {
      DecimalOfValue(s);
    }
    if n < 256 {
      OctetRoundTrip(n);
    }
  }

  /** An address is read from exactly one string, its four octets in decimal with dots between them, the most
      significant first. */
  lemma QuadIff(s: string, a: nat)
    ensures ParseQuad(s) == Some(a) <==> a < TWO_32 && s == Dotted(a)
  {
    if a < TWO_32 {
      QuadRoundTrip(a);
    }
    if ParseQuad(s) == Some(a) {
      QuadIsDotted(s, a);
    }
  }

  lemma QuadIsDotted(s: string, a: nat)
    requires ParseQuad(s) == Some(a)
    ensures a < TWO_32 && s == Dotted(a)
  {
    var fields := Split(s, '.');
    var os := ReadFields(fields, ParseOctet).value;
    forall i | 0 <= i < 4
      ensures os[i] < 256 && fields[i] == Decimal(os[i])
    {
      OctetIff(fields[i], os[i]);
    }
    OctetsBack(os, a);
    assert fields == Decimals(os);
    JoinSplit(s, '.');
  }

  lemma OctetsBack(os: seq<nat>, a: nat)
    requires |os| == 4 && a == FromOctets(os) && forall i :: 0 <= i < 4 ==> os[i] < 256
    ensures a < TWO_32 && Octets(a) == os
  {
    OctetsOf(os[0], os[1], os[2], os[3]);
    assert os == [os[0], os[1], os[2], os[3]];
  }

  lemma OctetsOf(o0: nat, o1: nat, o2: nat, o3: nat)
    requires o0 < 256 && o1 < 256 && o2 < 256 && o3 < 256
    ensures var a := o0 * 0x100_0000 + o1 * 0x1_0000 + o2 * 256 + o3;
            a < TWO_32 && Octets(a) == [o0, o1, o2, o3] && FromOctets([o0, o1, o2, o3]) == a
  {
    var a := o0 * 0x100_0000 + o1 * 0x1_0000 + o2 * 256 + o3;
    var x1 := o0 * 256 + o1;
    var x2 := x1 * 256 + o2;
    assert a == x2 * 256 + o3;
    LastOctet(o0, o1);
    LastOctet(x1, o2);
    LastOctet(x2, o3);
    assert a / 0x1_0000 == a / 256 / 256;
    assert a / 0x100_0000 == a / 256 / 256 / 256;
  }

  lemma LastOctet(q: nat, r: nat)
    requires r < 256
    ensures (q * 256 + r) / 256 == q && (q * 256 + r) % 256 == r
  {
  }

  lemma JoinFour(fields: seq<string>, sep: char)
    requires |fields| == 4
    ensures Join(fields, sep) == fields[0] + [sep] + (fields[1] + [sep] + (fields[2] + [sep] + fields[3]))
  {
    var r1, r2, r3 := fields[1..], fields[2..], fields[3..];
    assert r1[1..] == r2 && r2[1..] == r3;
    assert Join(r3, sep) == fields[3];
    assert Join(r2, sep) == fields[2] + [sep] + Join(r3, sep);
    assert Join(r1, sep) == fields[1] + [sep] + Join(r2, sep);
  }

  lemma DashedFields(a: nat, os: seq<nat>)
    requires |os| == 4 && Octets(a) == os && forall i :: 0 <= i < 4 ==> os[i] < 256
    ensures Replace(Dotted(a), '.', '-')
         == Decimal(os[0]) + "-" + (Decimal(os[1]) + "-" + (Decimal(os[2]) + "-" + Decimal(os[3])))
  {
    DecimalsRead(os);
    ReplaceJoin(Decimals(os), '.', '-');
    JoinFour(Decimals(os), '-');
  }

  /** The dashed label of an address spells its four octets, the most significant first. */
  lemma DashedSpelling(o0: nat, o1: nat, o2: nat, o3: nat)
    requires o0 < 256 && o1 < 256 && o2 < 256 && o3 < 256
    ensures Replace(Dotted(o0 * 0x100_0000 + o1 * 0x1_0000 + o2 * 256 + o3), '.', '-')
         == Decimal(o0) + "-" + (Decimal(o1) + "-" + (Decimal(o2) + "-" + Decimal(o3)))
  {
    OctetsOf(o0, o1, o2, o3);
    DashedFields(o0 * 0x100_0000 + o1 * 0x1_0000 + o2 * 256 + o3, [o0, o1, o2, o3]);
  }

  // ----- names -----

  lemma SameNameConcat(a: string, b: string, x: string, y: string)
    requires |a| == |x|
    ensures SameName(a + b, x + y) <==> SameName(a, x) && SameName(b, y)
  {
    assert Lower(a + b) == Lower(a) + Lower(b) && Lower(x + y) == Lower(x) + Lower(y);
    assert (Lower(a) + Lower(b))[..|a|] == Lower(a) && (Lower(a) + Lower(b))[|a|..] == Lower(b);
    assert (Lower(x) + Lower(y))[..|x|] == Lower(x) && (Lower(x) + Lower(y))[|x|..] == Lower(y);
  }

  /** A name without letters is the same only as itself. */
  lemma NoLetters(a: string, b: string)
    requires forall i :: 0 <= i < |a| ==> IsDigit(a[i]) || a[i] == '-'
    ensures SameName(a, b) <==> a == b
  {
    SameNameIff(a, b);
  }

  lemma StripIff(name: string, prefix: Option<string>, tail: string)
    ensures var p := if prefix.Some? then prefix.value else "";
            StripPrefix(name, prefix) == Some(tail) <==>
            |name| >= |p| && SameName(name[..|p|], p) && tail == name[|p|..]
  {
  }

  lemma LabelIff(tail: string, domain: string, first: string)
    requires '.' !in first
    ensures Label(tail, domain) == Some(first) <==>
            && |tail| > |first| && tail[..|first|] == first && tail[|first|] == '.'
            && SameName(tail[|first| + 1..], domain)
  {
    var n := |first|;
    if |tail| > n && tail[..n] == first && tail[n] == '.' {
      assert tail == first + "." + tail[n + 1..];
      SplitAt(first, '.', tail[n + 1..]);
    }
  }

  lemma ApartAt(name: string, n: nat, m: nat)
    requires n <= m < |name| && name[m] == '.'
    ensures name == name[..n] + (name[n..m] + ("." + name[m + 1..]))
    ensures name[n..][..m - n] == name[n..m] && name[n..][m - n + 1..] == name[m + 1..] && name[n..][m - n] == '.'
  {
  }

  /** A name is taken apart into a prefix, a label without letters and a domain exactly when, up to letter case, it is
      these three together. */
  lemma NameParts(name: string, prefix: Option<string>, domain: string, first: string)
    requires forall i :: 0 <= i < |first| ==> IsDigit(first[i]) || first[i] == '-'
    ensures var p := if prefix.Some? then prefix.value else "";
            (var tail := StripPrefix(name, prefix); tail.Some? && Label(tail.value, domain) == Some(first)) <==>
            SameName(name, p + (first + ("." + domain)))
  {
    var p := if prefix.Some? then prefix.value else "";
    var n, m := |p|, |p| + |first|;
    if |name| > m && name[m] == '.' {
      var tail, rest := name[n..], name[m + 1..];
      StripIff(name, prefix, tail);
      LabelIff(tail, domain, first);
      ApartAt(name, n, m);
      SameNameConcat(name[..n], name[n..m] + ("." + rest), p, first + ("." + domain));
      SameNameConcat(name[n..m], "." + rest, first, "." + domain);
      SameNameConcat(".", rest, ".", domain);
      NoLetters(first, name[n..m]);
    } else {
      NotApart(name, prefix, domain, first, p);
    }
  }

  lemma NotApart(name: string, prefix: Option<string>, domain: string, first: string, p: string)
    requires p == (if prefix.Some? then prefix.value else "") && '.' !in first
    requires |name| > |p| + |first| ==> name[|p| + |first|] != '.'
    ensures var tail := StripPrefix(name, prefix); tail.Some? ==> Label(tail.value, domain) != Some(first)
    ensures !SameName(name, p + (first + ("." + domain)))
  {
    var full := p + (first + ("." + domain));
    assert full[|p| + |first|] == '.';
    SameNameIff(name, full);
    var tail := StripPrefix(name, prefix);
    if tail.Some? {
      StripIff(name, prefix, tail.value);
      LabelIff(tail.value, domain, first);
    }
  }

  /** A name of a dashed domain is read as an address if and only if the address is in the range and the name is, up to
      letter case, the one made for it. */
  lemma DashedNameIff(name: string, c: CondDomain, a: nat)
    requires !c.is6 && !c.indexed && c.end < TWO_32
    ensures Address4(name, c) == Some(a) <==>
            c.start <= a <= c.end && NameOf4(a, c).Some? && SameName(name, NameOf4(a, c).value)
  {
    if c.start <= a <= c.end {
      var made := Label4(a, c);
      LabelHasNoLetters(a, c);
      NameParts(name, c.prefix, c.domain, made);
      assert PrefixOf(c) + made + "." + c.domain == PrefixOf(c) + (made + ("." + c.domain));
      Label4RoundTrip(a, c);
      if Address4(name, c) == Some(a) {
        var first := Label(StripPrefix(name, c.prefix).value, c.domain).value;
        LabelIsDashed(first, a, c);
      }
    }
  }

  lemma LabelHasNoLetters(a: nat, c: CondDomain)
    requires InRange4(a, c)
    ensures forall i :: 0 <= i < |Label4(a, c)| ==> IsDigit(Label4(a, c)[i]) || Label4(a, c)[i] == '-'
  {
    if !c.indexed {
      var os := Octets(a);
      DashedFields(a, os);
    }
  }

  lemma LabelIsDashed(first: string, a: nat, c: CondDomain)
    requires !c.indexed && '.' !in first && Read4(first, c) == Some(a)
    ensures InRange4(a, c) && first == Label4(a, c)
  {
    var dotted := Replace(first, '-', '.');
    QuadIff(dotted, a);
    assert forall i :: 0 <= i < |first| ==> first[i] == Replace(dotted, '.', '-')[i];
  }

  /** A name of an indexed domain that is, up to letter case, the prefix, a number and the domain is read as an address
      if and only if the number counts the address from the start of the range and does not pass its end. */
  lemma IndexedNameIff(name: string, c: CondDomain, a: nat, digits: string)
    requires !c.is6 && c.indexed && c.start <= c.end < TWO_32 && digits != "" && AllDigits(digits)
    requires SameName(name, PrefixOf(c) + (digits + ("." + c.domain)))
    ensures Address4(name, c) == Some(a) <==> c.start <= a <= c.end && Value(digits) == a - c.start
  {
    NameParts(name, c.prefix, c.domain, digits);
    ReadsDigits(c, a, digits);
  }

  lemma ReadsDigits(c: CondDomain, a: nat, digits: string)
    requires c.indexed && c.start <= c.end < TWO_32 && digits != "" && AllDigits(digits)
    ensures Read4(digits, c) == Some(a) <==> c.start <= a <= c.end && Value(digits) == a - c.start
  {
    assert IsDigit(digits[0]);
  }

  // ----- IPv6 -----

  /** A hexadecimal digit is the lower-case one. */
  lemma HexDigitSpelling(n: nat)
    requires n < 16
    ensures HexDigit(n) == "0123456789abcdef"[n]
  {
  }

  lemma Hex4Spelling(n0: nat, n1: nat, n2: nat, n3: nat)
    requires n0 < 16 && n1 < 16 && n2 < 16 && n3 < 16
    ensures Hex4(n0 * 0x1000 + n1 * 0x100 + n2 * 16 + n3) == [HexDigit(n0), HexDigit(n1), HexDigit(n2), HexDigit(n3)]
  {
    NibblesOfGroup(n0, n1, n2, n3);
  }

  lemma NibblesOfGroup(n0: nat, n1: nat, n2: nat, n3: nat)
    requires n0 < 16 && n1 < 16 && n2 < 16 && n3 < 16
    ensures var g := n0 * 0x1000 + n1 * 0x100 + n2 * 16 + n3;
            g / 0x1000 % 16 == n0 && g / 0x100 % 16 == n1 && g / 16 % 16 == n2 && g % 16 == n3
  {
    var g := n0 * 0x1000 + n1 * 0x100 + n2 * 16 + n3;
    assert g / 16 == n0 * 0x100 + n1 * 16 + n2;
    assert g / 0x100 == n0 * 16 + n1;
    assert g / 0x1000 == n0;
  }

  lemma GroupsOf(g0: nat, g1: nat, g2: nat, g3: nat)
    requires g0 < 0x1_0000 && g1 < 0x1_0000 && g2 < 0x1_0000 && g3 < 0x1_0000
    ensures Groups(g0 * 0x1_0000_0000_0000 + g1 * 0x1_0000_0000 + g2 * 0x1_0000 + g3) == [g0, g1, g2, g3]
  {
    var v := g0 * 0x1_0000_0000_0000 + g1 * 0x1_0000_0000 + g2 * 0x1_0000 + g3;
    var x1 := g0 * 0x1_0000 + g1;
    var x2 := x1 * 0x1_0000 + g2;
    assert v == x2 * 0x1_0000 + g3;
    LastGroup(g0, g1);
    LastGroup(x1, g2);
    LastGroup(x2, g3);
    assert v / 0x1_0000_0000 == v / 0x1_0000 / 0x1_0000;
    assert v / 0x1_0000_0000_0000 == v / 0x1_0000 / 0x1_0000 / 0x1_0000;
  }

  lemma LastGroup(q: nat, r: nat)
    requires r < 0x1_0000
    ensures (q * 0x1_0000 + r) / 0x1_0000 == q && (q * 0x1_0000 + r) % 0x1_0000 == r
  {
  }

  /** The dashed label of an IPv6 address spells its eight groups in full, the most significant first. */
  lemma HexSpelling(hi: seq<nat>, lo: seq<nat>, a: Ipv6)
    requires |hi| == |lo| == 4 && forall i :: 0 <= i < 4 ==> hi[i] < 0x1_0000 && lo[i] < 0x1_0000
    requires a.hi == hi[0] * 0x1_0000_0000_0000 + hi[1] * 0x1_0000_0000 + hi[2] * 0x1_0000 + hi[3]
    requires a.lo == lo[0] * 0x1_0000_0000_0000 + lo[1] * 0x1_0000_0000 + lo[2] * 0x1_0000 + lo[3]
    ensures HexAddress(a, '-') == Join(HexFields(hi + lo), '-')
  {
    GroupsOf(hi[0], hi[1], hi[2], hi[3]);
    GroupsOf(lo[0], lo[1], lo[2], lo[3]);
    assert hi == [hi[0], hi[1], hi[2], hi[3]] && lo == [lo[0], lo[1], lo[2], lo[3]];
  }

  /** Whatever is read as an IPv6 address has the prefix and the domain, up to letter case, and its lower half is in the
      range; in an indexed domain its upper half is that of the start. */
  lemma Address6IsInRange(name: string, c: CondDomain, parse: string -> Option<Ipv6>)
    requires Address6(name, c, parse).Some?
    ensures var a, n := Address6(name, c, parse).value, |PrefixOf(c)|;
            && c.start6.lo <= a.lo <= c.end6.lo && (c.indexed ==> a.hi == c.start6.hi)
            && n <= |name| && SameName(name[..n], PrefixOf(c))
            && exists m :: n <= m < |name| && name[m] == '.' && '.' !in name[n..m] && SameName(name[m + 1..], c.domain)
  {
    var tail := StripPrefix(name, c.prefix).value;
    var first := Label(tail, c.domain).value;
    PartsStand(name, c.prefix, c.domain, tail, first);
    var n, m := |PrefixOf(c)|, |PrefixOf(c)| + |first|;
    assert n <= m < |name| && name[m] == '.' && '.' !in name[n..m] && SameName(name[m + 1..], c.domain);
  }

  lemma PartsStand(name: string, prefix: Option<string>, domain: string, tail: string, first: string)
    requires StripPrefix(name, prefix) == Some(tail) && Label(tail, domain) == Some(first)
    ensures var p := if prefix.Some? then prefix.value else "";
            var n, m := |p|, |p| + |first|;
            && m < |name| && SameName(name[..n], p) && name[m] == '.' && '.' !in name[n..m]
            && SameName(name[m + 1..], domain)
  {
    var p := if prefix.Some? then prefix.value else "";
    StripIff(name, prefix, tail);
    LabelIff(tail, domain, first);
    var n, m := |p|, |p| + |first|;
    ApartAt(name, n, m);
    assert name[n..m] == first && name[m + 1..] == tail[|first| + 1..];
  }
}
