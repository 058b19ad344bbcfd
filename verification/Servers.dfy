/** Server entries and the comparison that orders the lookup table (src/domain_match.rs). */
module Servers {
  import opened Names

  /** The `SERV_*` bits that matter for matching and for the server list. */
  datatype ServFlags = ServFlags(
    useResolv: bool, literal: bool, allZeros: bool, addr4: bool, addr6: bool,
    forNodots: bool, wildcard: bool, fromDbus: bool, mark: bool, loops: bool)
  {
    /** The type bits as the number they spell in `ServFlags`. */
    function TypeBits(): nat {
      (if addr6 then 16 else 0) + (if addr4 then 8 else 0) + (if allZeros then 4 else 0)
      + (if literal then 2 else 0) + (if useResolv then 1 else 0)
    }

    predicate HasAddress() { addr6 || addr4 || allZeros }

    predicate IsLocal() { useResolv || literal }
  }

  const NO_FLAGS := ServFlags(false, false, false, false, false, false, false, false, false, false)

  /** An entry of the lookup table. The cached `domain_len` is `|domain|`. */
  datatype ServerEntry = ServerEntry(domain: string, flags: ServFlags, serial: int, index: nat, isLocal: bool)

  function Compare(x: int, y: int): Ordering {
    if x < y then Less else if x > y then Greater else Equal
  }

  function Bit(b: bool): int { if b then 1 else 0 }

  /** The part of the comparison that decides which block of the table an entry belongs to. */
  function KeyOrder(a: ServerEntry, b: ServerEntry): Ordering {
    if a.flags.forNodots != b.flags.forNodots then Compare(Bit(a.flags.forNodots), Bit(b.flags.forNodots))
    else if |a.domain| != |b.domain| then Compare(|b.domain|, |a.domain|)
    else if HostnameOrder(a.domain, b.domain) != Equal then HostnameOrder(a.domain, b.domain)
    else if a.flags.wildcard != b.flags.wildcard then Compare(Bit(a.flags.wildcard), Bit(b.flags.wildcard))
    else Compare(b.flags.TypeBits(), a.flags.TypeBits())
  }

  /** `compare_entries`: the key, then the serial when neither entry is local. */
  function CompareEntries(a: ServerEntry, b: ServerEntry): Ordering {
    if KeyOrder(a, b) != Equal then KeyOrder(a, b)
    else if !a.isLocal && !b.isLocal then Compare(a.serial, b.serial)
    else Equal
  }

  lemma KeyOrderFlips(a: ServerEntry, b: ServerEntry)
    ensures KeyOrder(b, a) == KeyOrder(a, b).Flip()
  {
    OrderFlips(a.domain, b.domain);
  }

  lemma KeyOrderTransitive(a: ServerEntry, b: ServerEntry, c: ServerEntry)
    requires KeyOrder(a, b) != Greater && KeyOrder(b, c) != Greater
    ensures KeyOrder(a, c) != Greater
    ensures KeyOrder(a, b) == Less || KeyOrder(b, c) == Less ==> KeyOrder(a, c) == Less
    ensures KeyOrder(a, b) == Equal && KeyOrder(b, c) == Equal ==> KeyOrder(a, c) == Equal
  {
    if HostnameOrder(a.domain, b.domain) != Greater && HostnameOrder(b.domain, c.domain) != Greater {
      OrderTransitive(a.domain, b.domain, c.domain);
    }
  }

  lemma CompareFlips(a: ServerEntry, b: ServerEntry)
    ensures CompareEntries(b, a) == CompareEntries(a, b).Flip()
  {
    KeyOrderFlips(a, b);
  }

  /** What sorting needs of the comparison: on the entries of `s` it is transitive
      (it is always total, by `CompareFlips`). */
  ghost predicate Preorder(s: seq<ServerEntry>) {
    forall a, b, c :: a in s && b in s && c in s
      && CompareEntries(a, b) != Greater && CompareEntries(b, c) != Greater
      ==> CompareEntries(a, c) != Greater
  }

  /** No local entry shares its key with two upstream entries of different serials. */
  ghost predicate SerialSafe(s: seq<ServerEntry>) {
    forall a, b, c :: a in s && b in s && c in s
      && !a.isLocal && b.isLocal && !c.isLocal
      && KeyOrder(a, b) == Equal && KeyOrder(b, c) == Equal
      ==> a.serial == c.serial
  }

  lemma TransitiveWhenSafe(s: seq<ServerEntry>, a: ServerEntry, b: ServerEntry, c: ServerEntry)
    requires SerialSafe(s) && a in s && b in s && c in s
    requires CompareEntries(a, b) != Greater && CompareEntries(b, c) != Greater
    ensures CompareEntries(a, c) != Greater
  {
    KeyOrderTransitive(a, b, c);
  }

  /** The comparison is a total preorder on exactly the entry lists that are serial-safe. */
  lemma PreorderIffSerialSafe(s: seq<ServerEntry>)
    ensures Preorder(s) <==> SerialSafe(s)
  {
    if SerialSafe(s) {
      forall a, b, c | a in s && b in s && c in s
        && CompareEntries(a, b) != Greater && CompareEntries(b, c) != Greater
        ensures CompareEntries(a, c) != Greater
      {
        TransitiveWhenSafe(s, a, b, c);
      }
    }
    if Preorder(s) {
      forall a, b, c | a in s && b in s && c in s
        && !a.isLocal && b.isLocal && !c.isLocal
        && KeyOrder(a, b) == Equal && KeyOrder(b, c) == Equal
        ensures a.serial == c.serial
      {
        KeyOrderFlips(a, b);
        KeyOrderFlips(b, c);
        KeyOrderTransitive(a, b, c);
        KeyOrderFlips(a, c);
        assert CompareEntries(a, b) == Equal && CompareEntries(b, c) == Equal;
        assert CompareEntries(c, b) == Equal && CompareEntries(b, a) == Equal;
        assert CompareEntries(a, c) != Greater && CompareEntries(c, a) != Greater;
      }
    }
  }

  lemma TypeBitsDetermineTypes(f: ServFlags, g: ServFlags)
    requires f.TypeBits() == g.TypeBits()
    ensures f.addr6 == g.addr6 && f.addr4 == g.addr4 && f.allZeros == g.allZeros
    ensures f.literal == g.literal && f.useResolv == g.useResolv
  {
  }

  /** Deriving locality from the type bits, as the configuration parser does, makes any list safe. */
  lemma LocalByFlagsIsSerialSafe(s: seq<ServerEntry>)
    requires forall e :: e in s ==> e.isLocal == e.flags.IsLocal()
    ensures SerialSafe(s)
  {
    forall a, b | a in s && b in s && KeyOrder(a, b) == Equal
      ensures a.isLocal == b.isLocal
    {
      TypeBitsDetermineTypes(a.flags, b.flags);
    }
  }

  /** Two D-Bus entries for 0.0.0.0 and one configured address of the same domain are not ordered
      consistently: D-Bus puts literal entries on the upstream list. */
  lemma DbusLiteralsBreakTheOrder()
    ensures var f := NO_FLAGS.(literal := true, addr4 := true);
            !Preorder([ServerEntry("lan", f.(fromDbus := true), 0, 0, false),
                       ServerEntry("lan", f.(fromDbus := true), 1, 1, false),
                       ServerEntry("lan", f, 0, 0, true)])
  {
    var f := NO_FLAGS.(literal := true, addr4 := true);
    var first := ServerEntry("lan", f.(fromDbus := true), 0, 0, false);
    var second := ServerEntry("lan", f.(fromDbus := true), 1, 1, false);
    var configured := ServerEntry("lan", f, 0, 0, true);
    var s := [first, second, configured];
    assert first in s && second in s && configured in s;
    OrderEqualIsSameName("lan", "lan");
    assert CompareEntries(second, configured) == Equal && CompareEntries(configured, first) == Equal;
    assert CompareEntries(second, first) == Greater;
  }
}
