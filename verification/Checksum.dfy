/** The Internet checksum of RFC 1071 as used for ICMP echo requests (src/dhcp.rs). */
module Checksum {
  import opened Basics

  const U16 := 0x1_0000
  const U32 := 0x1_0000_0000

  /** 65537 words of sixteen bits: the most whose sum always fits in 32 bits. */
  const MAX_BYTES := 131074

  function Word(hi: Byte, lo: Byte): nat { (hi as int) * 256 + lo }

  /** The exact sum of the big-endian words; an odd last byte is the high half of its word. */
  function Sum(data: seq<Byte>): nat {
    if data == [] then 0
    else if |data| == 1 then Word(data[0], 0)
    else Word(data[0], data[1]) + Sum(data[2..])
  }

  /** One fold of the carries into the low half. */
  function FoldOnce(s: nat): nat { s % U16 + s / U16 }

  function Fold(s: nat): (r: nat)
    ensures r < U16
  {
    if s < U16 then s else Fold(FoldOnce(s))
  }

  lemma {:induction false} FoldKeepsResidue(s: nat)
    ensures Fold(s) % 65535 == s % 65535
    ensures Fold(s) == 0 <==> s == 0
  {
    if s < U16 {
    } else {
      FoldKeepsResidue(FoldOnce(s));
      var hi, lo := s / U16, s % U16;
      assert s == hi * 65535 + (hi + lo);
      ResidueOfSum(hi, hi + lo);
    }
  }

  lemma {:induction false} ResidueOfSum(k: nat, r: nat)
    ensures (k * 65535 + r) % 65535 == r % 65535
  {
    if k == 0 {
    } else {
      ResidueOfSum(k - 1, r);
      assert k * 65535 + r == ((k - 1) * 65535 + r) + 65535;
    }
  }

  /** The checksum of the exact sum. */
  function SumChecksum(s: nat): nat { 65535 - Fold(s) }

  lemma {:induction false} SumBound(data: seq<Byte>)
    ensures 2 * Sum(data) <= (|data| + 1) * 65535
    ensures |data| % 2 == 0 ==> 2 * Sum(data) <= |data| * 65535
  {
    if |data| < 2 {
    } else {
      SumBound(data[2..]);
    }
  }

  lemma {:induction false} SumAppend(a: seq<Byte>, b: seq<Byte>)
    requires |a| % 2 == 0
    ensures Sum(a + b) == Sum(a) + Sum(b)
  {
    if a == [] {
      assert a + b == b;
    } else {
      assert (a + b)[2..] == a[2..] + b;
      SumAppend(a[2..], b);
    }
  }

  lemma SumOfFour(data: seq<Byte>)
    requires |data| == 8
    ensures Sum(data)
         == Word(data[0], data[1]) + Word(data[2], data[3]) + Word(data[4], data[5]) + Word(data[6], data[7])
  {
    var d2, d4, d6 := data[2..], data[4..], data[6..];
    assert d2[2..] == d4 && d4[2..] == d6 && d6[2..] == [];
    assert Sum(d6) == Word(data[6], data[7]) + Sum([]);
  }

  /** The example of section 3 of RFC 1071: the words 0001, f203, f4f5 and f6f7 add up to 2ddf0, and the checksum is the
      complement of ddf2. */
  lemma Rfc1071Example(data: seq<Byte>)
    requires data == [0x00, 0x01, 0xf2, 0x03, 0xf4, 0xf5, 0xf6, 0xf7]
    ensures Sum(data) == 0x2ddf0 && WrappedChecksum(data) == 65535 - 0xddf2
  {
    SumOfFour(data);
    assert FoldOnce(0x2ddf0) == 0xddf2;
  }

  /** The checksum as computed: the accumulator has 32 bits. */
  function WrappedChecksum(data: seq<Byte>): nat { SumChecksum(Sum(data) % U32) }

  /** Up to 65537 words the accumulator holds the exact sum. */
  lemma ShortBuffersDoNotWrap(data: seq<Byte>)
    requires |data| <= MAX_BYTES
    ensures Sum(data) < U32 && Sum(data) % U32 == Sum(data)
  {
    SumBound(data);
    BoundFits(Sum(data), |data|);
  }

  lemma BoundFits(s: nat, bytes: nat)
    requires 2 * s <= (bytes + 1) * 65535 && (bytes % 2 == 0 ==> 2 * s <= bytes * 65535) && bytes <= MAX_BYTES
    ensures s < U32 && s % U32 == s
  {
  }

  lemma WrapAdd(a: nat, w: nat)
    ensures (a % U32 + w) % U32 == (a + w) % U32
  {
    var q := a / U32;
    assert a + w == q * U32 + (a % U32 + w);
    WrapResidue(q, a % U32 + w);
  }

  lemma {:induction false} WrapResidue(q: nat, r: nat)
    ensures (q * U32 + r) % U32 == r % U32
  {
    if q == 0 {
    } else {
      WrapResidue(q - 1, r);
      assert q * U32 + r == ((q - 1) * U32 + r) + U32;
    }
  }

  lemma SumStep(data: seq<Byte>, i: nat)
    requires i + 1 < |data| && i % 2 == 0
    ensures Sum(data[..i + 2]) == Sum(data[..i]) + Word(data[i], data[i + 1])
  {
    var pair := [data[i], data[i + 1]];
    SumAppend(data[..i], pair);
    assert data[..i] + pair == data[..i + 2];
    assert pair[2..] == [];
  }

  lemma SumLast(data: seq<Byte>, i: nat)
    requires i + 1 == |data| && i % 2 == 0
    ensures Sum(data) == Sum(data[..i]) + Word(data[i], 0)
  {
    SumAppend(data[..i], [data[i]]);
    assert data[..i] + [data[i]] == data;
  }

  /** `icmp_checksum`. */
  method IcmpChecksum(data: seq<Byte>) returns (c: nat)
    ensures c == WrappedChecksum(data)
  {
    var sum: nat := 0;
    var i := 0;
    assert data[..0] == [];
    while i + 1 < |data|
      invariant 0 <= i <= |data| && i % 2 == 0
      invariant sum == Sum(data[..i]) % U32
    {
      SumStep(data, i);
      WrapAdd(Sum(data[..i]), Word(data[i], data[i + 1]));
      sum := (sum + Word(data[i], data[i + 1])) % U32;
      i := i + 2;
    }
    if i < |data| {
      SumLast(data, i);
      WrapAdd(Sum(data[..i]), Word(data[i], 0));
      sum := (sum + Word(data[i], 0)) % U32;
    } else {
      assert data[..i] == data;
    }
    sum := FoldCarries(sum);
    c := 65535 - sum;
  }

  method FoldCarries(total: nat) returns (sum: nat)
    ensures sum == Fold(total)
  {
    sum := total;
    while sum / U16 != 0
      invariant Fold(sum) == Fold(total)
      decreases sum
    {
      sum := sum % U16 + sum / U16;
    }
  }

  /** The buffer with a checksum written big-endian at `at`. */
  function Stored(data: seq<Byte>, at: nat, c: nat): seq<Byte>
    requires at + 2 <= |data| && c < U16
  {
    data[at := c / 256][at + 1 := c % 256]
  }

  lemma SumStored(data: seq<Byte>, at: nat, c: nat)
    requires at + 2 <= |data| && c < U16 && at % 2 == 0 && data[at] == 0 && data[at + 1] == 0
    ensures Sum(Stored(data, at, c)) == Sum(data) + c
  {
    SumAround(data, at);
    SumAround(Stored(data, at, c), at);
    assert Stored(data, at, c)[..at] == data[..at] && Stored(data, at, c)[at + 2..] == data[at + 2..];
  }

  /** The sum splits around any aligned word. */
  lemma SumAround(data: seq<Byte>, at: nat)
    requires at + 2 <= |data| && at % 2 == 0
    ensures Sum(data) == Sum(data[..at]) + Word(data[at], data[at + 1]) + Sum(data[at + 2..])
  {
    assert data == data[..at] + data[at..];
    SumAppend(data[..at], data[at..]);
    assert data[at..][2..] == data[at + 2..];
  }

  /** Storing the checksum of a buffer in its zeroed, even-aligned field makes the checksum of the whole zero. */
  lemma StoredChecksumVerifies(data: seq<Byte>, at: nat)
    requires at + 2 <= |data| && at % 2 == 0 && data[at] == 0 && data[at + 1] == 0
    ensures SumChecksum(Sum(Stored(data, at, SumChecksum(Sum(data))))) == 0
  {
    var s := Sum(data);
    SumStored(data, at, SumChecksum(s));
    ComplementCancels(s);
    FoldOfMultiple(s + SumChecksum(s));
  }

  /** A sum and its checksum add up to a multiple of 65535 that is not zero. */
  lemma ComplementCancels(s: nat)
    ensures s + SumChecksum(s) > 0 && (s + SumChecksum(s)) % 65535 == 0
  {
    FoldKeepsResidue(s);
    var q, f := s / 65535, Fold(s);
    assert s == q * 65535 + f % 65535;
    ResidueOfSum(q, 0);
    ResidueOfSum(q + 1, 0);
    if f != 65535 {
      assert s + SumChecksum(s) == (q + 1) * 65535;
    }
  }

  lemma FoldOfMultiple(t: nat)
    requires t > 0 && t % 65535 == 0
    ensures Fold(t) == 65535
  {
    FoldKeepsResidue(t);
  }

  /** The stored checksum verifies under the 32-bit accumulator too, whatever the length: adding it never wraps. */
  lemma WrappedChecksumVerifies(data: seq<Byte>, at: nat)
    requires at + 2 <= |data| && at % 2 == 0 && data[at] == 0 && data[at + 1] == 0
    ensures WrappedChecksum(Stored(data, at, WrappedChecksum(data))) == 0
  {
    var s, c := Sum(data) % U32, WrappedChecksum(data);
    StoredWraps(data, at, c, s);
    ComplementVerifies(Sum(Stored(data, at, c)), s, c);
  }

  /** In 32 bits, the total is the accumulator with the checksum added. */
  predicate AccumulatesTo(total: nat, s: nat, c: nat) { total % U32 == (s + c) % U32 }

  lemma StoredWraps(data: seq<Byte>, at: nat, c: nat, s: nat)
    requires at + 2 <= |data| && c < U16 && at % 2 == 0 && data[at] == 0 && data[at + 1] == 0 && s == Sum(data) % U32
    ensures AccumulatesTo(Sum(Stored(data, at, c)), s, c)
  {
    SumStored(data, at, c);
    WrapAdd(Sum(data), c);
  }

  lemma ComplementVerifies(total: nat, s: nat, c: nat)
    requires s < U32 && c == SumChecksum(s) && AccumulatesTo(total, s, c)
    ensures SumChecksum(total % U32) == 0
  {
    ComplementCancels(s);
    NeverWraps(s, c);
    FoldOfMultiple(s + c);
  }

  /** The largest 32-bit number is a multiple of 65535, and the next multiple is out of reach. */
  lemma NeverWraps(s: nat, c: nat)
    requires s < U32 && c == SumChecksum(s) && (s + c) % 65535 == 0
    ensures s + c < U32
  {
    FoldKeepsResidue(s);
    var k := (s + c) / 65535;
    assert s + c == k * 65535;
    assert U32 == 65537 * 65535 + 1;
  }

  /** The computed checksum is that of the exact sum unless the accumulator wrapped, with one kind of exception: the
      wraps add up to a multiple of 65535 and leave something in the accumulator. */
  lemma WrappedIsExactIff(data: seq<Byte>)
    ensures WrappedChecksum(data) == SumChecksum(Sum(data)) <==>
            Sum(data) < U32 || (Sum(data) % U32 > 0 && Sum(data) / U32 % 65535 == 0)
  {
    SameFoldIff(Sum(data), Sum(data) / U32, Sum(data) % U32);
  }

  lemma SameFoldIff(n: nat, q: nat, s: nat)
    requires n == q * U32 + s && s < U32
    ensures Fold(s) == Fold(n) <==> q == 0 || (s > 0 && q % 65535 == 0)
  {
    FoldEqualIff(s, n);
    WrapsLeaveResidue(q, s);
    SameResidueIff(q, s);
  }

  lemma FoldEqualIff(x: nat, y: nat)
    ensures Fold(x) == Fold(y) <==> (x == 0 <==> y == 0) && x % 65535 == y % 65535
  {
    FoldKeepsResidue(x);
    FoldKeepsResidue(y);
  }

  lemma WrapsLeaveResidue(q: nat, s: nat)
    ensures (q * U32 + s) % 65535 == (q + s) % 65535
  {
    assert q * U32 + s == (q * 65537) * 65535 + (q + s);
    ResidueOfSum(q * 65537, q + s);
  }

  lemma SameResidueIff(q: nat, s: nat)
    ensures (q + s) % 65535 == s % 65535 <==> q % 65535 == 0
  {
    var a, b := q / 65535, s / 65535;
    var x, y := q % 65535, s % 65535;
    assert q + s == (a + b) * 65535 + (x + y);
    ResidueOfSum(a + b, x + y);
  }

  lemma {:induction false} SumOfOnes(n: nat)
    ensures Sum(seq(2 * n, _ => 255)) == n * 65535
  {
    var data: seq<Byte> := seq(2 * n, _ => 255);
    if n > 0 {
      assert data[2..] == seq(2 * (n - 1), _ => 255);
      SumOfOnes(n - 1);
    }
  }

  /** Two bytes over the limit, a buffer of ones has another checksum than its exact sum. */
  lemma LongBufferIsNotExact(data: seq<Byte>)
    requires data == seq(MAX_BYTES + 2, _ => 255)
    ensures WrappedChecksum(data) != SumChecksum(Sum(data))
  {
    SumOfOnes(65538);
    assert Sum(data) == 65538 * 65535;
    WrappedIsExactIff(data);
  }

  /** `build_icmp_echo_request`: the packet carries its identifier and checks out. */
  method BuildIcmpEchoRequest(id: nat) returns (pkt: seq<Byte>)
    requires id < U16
    ensures |pkt| == 8 && pkt[0] == 8 && pkt[1] == 0 && Word(pkt[4], pkt[5]) == id && pkt[6] == 0 && pkt[7] == 0
    ensures SumChecksum(Sum(pkt)) == 0
  {
    pkt := [8, 0, 0, 0, id / 256, id % 256, 0, 0];
    ghost var blank := pkt;
    var cksum := IcmpChecksum(pkt);
    ShortBuffersDoNotWrap(pkt);
    StoredChecksumVerifies(pkt, 2);
    pkt := pkt[2 := cksum / 256][3 := cksum % 256];
    assert pkt == Stored(blank, 2, cksum);
  }
}
