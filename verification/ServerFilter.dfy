/** Domain groups of the table and the choice of one block of a group (`filter_servers_impl`). */
module ServerFilter {
  import opened Basics
  import opened Names
  import opened Servers
  import opened ServerTable

  /** A half-open range of table positions. */
  datatype Range = Range(lo: nat, hi: nat)

  /** The query flags `lookup` reads. */
  datatype QueryFlags = QueryFlags(
    server: bool, domainSrv: bool, config: bool, ipv4: bool, ipv6: bool, ds: bool, dnssecOk: bool)

  /** `order_entry`: positive when the entry is before the query in the table, negative when it is after. */
  function OrderEntry(q: string, e: ServerEntry): int {
    if e.flags.forNodots then -1
    else if |q| < |e.domain| then 1
    else if |q| > |e.domain| then -1
    else match HostnameOrder(q, e.domain)
      case Less => -1
      case Equal => 0
      case Greater => 1
  }

  lemma OrderEntryZero(q: string, e: ServerEntry)
    ensures OrderEntry(q, e) == 0 <==> !e.flags.forNodots && SameName(q, e.domain)
  {
    OrderEqualIsSameName(q, e.domain);
    if SameName(q, e.domain) {
      assert |Lower(q)| == |Lower(e.domain)|;
    }
  }

  /** `same_group` on two entries. */
  predicate SameGroup(a: ServerEntry, b: ServerEntry) {
    if a.flags.forNodots then b.flags.forNodots else OrderEntry(a.domain, b) == 0
  }

  lemma SameGroupMeaning(a: ServerEntry, b: ServerEntry)
    ensures SameGroup(a, b) <==>
            a.flags.forNodots == b.flags.forNodots && (a.flags.forNodots || SameName(a.domain, b.domain))
  {
    OrderEntryZero(a.domain, b);
  }

  /** Going down the table, the comparison with a fixed query never increases. */
  ghost predicate Monotone(s: seq<ServerEntry>, q: string) {
    forall i, j :: 0 <= i <= j < |s| ==> OrderEntry(q, s[i]) >= OrderEntry(q, s[j])
  }

  lemma OrderEntryFollowsTable(q: string, a: ServerEntry, b: ServerEntry)
    requires CompareEntries(a, b) != Greater
    ensures OrderEntry(q, a) >= OrderEntry(q, b)
  {
    OrderFlips(q, a.domain);
    OrderFlips(q, b.domain);
    if |a.domain| == |b.domain| && HostnameOrder(a.domain, b.domain) != Greater {
      if HostnameOrder(q, a.domain) != Greater {
        OrderTransitive(q, a.domain, b.domain);
      }
    }
  }

  lemma SortedIsMonotone(s: seq<ServerEntry>, q: string)
    requires Sorted(s)
    ensures Monotone(s, q)
  {
    forall i, j | 0 <= i <= j < |s|
      ensures OrderEntry(q, s[i]) >= OrderEntry(q, s[j])
    {
      if i < j {
        OrderEntryFollowsTable(q, s[i], s[j]);
      }
    }
  }

  /** `[lo, hi)` holds exactly the positions whose entries are in the group of `e`. */
  ghost predicate IsGroup(s: seq<ServerEntry>, e: ServerEntry, r: Range) {
    && r.lo <= r.hi <= |s|
    && forall j :: 0 <= j < |s| ==> (r.lo <= j < r.hi <==> SameGroup(e, s[j]))
  }

  function GroupStart(s: seq<ServerEntry>, e: ServerEntry, i: nat): (k: nat)
    requires i <= |s|
    ensures i <= k <= |s|
    decreases |s| - i
  {
    if i < |s| && !SameGroup(e, s[i]) then GroupStart(s, e, i + 1) else i
  }

  function GroupEnd(s: seq<ServerEntry>, e: ServerEntry, i: nat): (k: nat)
    requires i <= |s|
    ensures i <= k <= |s|
    decreases |s| - i
  {
    if i < |s| && SameGroup(e, s[i]) then GroupEnd(s, e, i + 1) else i
  }

  lemma {:induction false} GroupStartMeaning(s: seq<ServerEntry>, e: ServerEntry, i: nat)
    requires i <= |s|
    ensures var k := GroupStart(s, e, i);
            (forall j :: i <= j < k ==> !SameGroup(e, s[j])) && (k < |s| ==> SameGroup(e, s[k]))
    decreases |s| - i
  {
    if i < |s| && !SameGroup(e, s[i]) {
      GroupStartMeaning(s, e, i + 1);
    }
  }

  lemma {:induction false} GroupEndMeaning(s: seq<ServerEntry>, e: ServerEntry, i: nat)
    requires i <= |s|
    ensures var k := GroupEnd(s, e, i);
            (forall j :: i <= j < k ==> SameGroup(e, s[j])) && (k < |s| ==> !SameGroup(e, s[k]))
    decreases |s| - i
  {
    if i < |s| && SameGroup(e, s[i]) {
      GroupEndMeaning(s, e, i + 1);
    }
  }

  /** The first run of entries in the group of `e`. */
  function GroupOf(s: seq<ServerEntry>, e: ServerEntry): (g: Range)
    ensures g.lo <= g.hi <= |s|
  {
    var lo := GroupStart(s, e, 0);
    Range(lo, GroupEnd(s, e, lo))
  }

  /** Groups are contiguous: anything between two members is a member. */
  lemma GroupIsConvex(s: seq<ServerEntry>, e: ServerEntry, i: nat, j: nat, k: nat)
    requires Sorted(s) && i <= j <= k < |s|
    requires SameGroup(e, s[i]) && SameGroup(e, s[k])
    ensures SameGroup(e, s[j])
  {
    SameGroupMeaning(e, s[i]);
    SameGroupMeaning(e, s[j]);
    SameGroupMeaning(e, s[k]);
    if e.flags.forNodots {
      assert i == j || CompareEntries(s[i], s[j]) != Greater;
    } else {
      SortedIsMonotone(s, e.domain);
    }
  }

  /** In a sorted table the first run is the whole group. */
  lemma GroupOfIsGroup(s: seq<ServerEntry>, e: ServerEntry)
    requires Sorted(s)
    ensures IsGroup(s, e, GroupOf(s, e))
  {
    var g := GroupOf(s, e);
    GroupStartMeaning(s, e, 0);
    GroupEndMeaning(s, e, g.lo);
    forall j | 0 <= j < |s|
      ensures g.lo <= j < g.hi <==> SameGroup(e, s[j])
    {
      if g.hi <= j && SameGroup(e, s[j]) {
        GroupIsConvex(s, e, g.lo, g.hi, j);
      }
    }
  }

  lemma GroupOfMember(s: seq<ServerEntry>, e: ServerEntry, i: nat)
    requires Sorted(s) && i < |s| && SameGroup(e, s[i])
    ensures GroupOf(s, s[i]) == GroupOf(s, e)
  {
    GroupOfIsGroup(s, e);
    GroupOfIsGroup(s, s[i]);
    SameGroupMeaning(e, s[i]);
    SameGroupMeaning(s[i], s[i]);
    forall j | 0 <= j < |s|
      ensures SameGroup(e, s[j]) <==> SameGroup(s[i], s[j])
    {
      SameGroupMeaning(e, s[j]);
      SameGroupMeaning(s[i], s[j]);
    }
    var g, h := GroupOf(s, e), GroupOf(s, s[i]);
    assert g.lo <= i < g.hi && h.lo <= i < h.hi;
    assert SameGroup(e, s[g.lo]) && SameGroup(s[i], s[h.lo]);
    assert g.hi < |s| ==> !SameGroup(e, s[g.hi]);
    assert h.hi < |s| ==> !SameGroup(s[i], s[h.hi]);
  }

  // ----- classes within a group -----

  /** The priority class of an entry: its highest type bit. */
  function ClassOf(e: ServerEntry): nat {
    if e.flags.addr6 then 5
    else if e.flags.addr4 then 4
    else if e.flags.allZeros then 3
    else if e.flags.literal then 2
    else if e.flags.useResolv then 1
    else 0
  }

  predicate HasTypeBit(e: ServerEntry, c: nat) {
    match c
    case 5 => e.flags.addr6
    case 4 => e.flags.addr4
    case 3 => e.flags.allZeros
    case 2 => e.flags.literal
    case 1 => e.flags.useResolv
    case _ => true
  }

  predicate IsCatchAll(e: ServerEntry) { e.domain == "" && !e.flags.forNodots }

  /** Which classes the query flags let through. A catch-all upstream is refused under `F_DOMAINSRV`. */
  predicate Allowed(c: nat, catchAll: bool, f: QueryFlags) {
    if c == 5 then !f.server && f.ipv6
    else if c == 4 then !f.server && f.ipv4
    else if c == 3 then !f.server && (f.ipv4 || f.ipv6)
    else if c == 2 then !f.server && !f.domainSrv
    else if c == 1 then true
    else !(f.domainSrv && catchAll)
  }

  predicate EntryAllowed(e: ServerEntry, f: QueryFlags) {
    Allowed(ClassOf(e), IsCatchAll(e), f)
  }

  /** What the query flags let through, in the bits of the entry. An address is for questions of its family, 0.0.0.0 for
      both, and neither for a query for real servers, which refuses literal entries altogether. A query for the servers
      of a domain refuses literal entries without an address and, of the entries without any type bit, the catch-all. */
  lemma AllowedInBits(e: ServerEntry, f: QueryFlags)
    ensures e.flags.addr6 ==> (EntryAllowed(e, f) <==> f.ipv6 && !f.server)
    ensures e.flags.addr4 && !e.flags.addr6 ==> (EntryAllowed(e, f) <==> f.ipv4 && !f.server)
    ensures e.flags.allZeros && !e.flags.addr4 && !e.flags.addr6 ==>
              (EntryAllowed(e, f) <==> (f.ipv4 || f.ipv6) && !f.server)
    ensures e.flags.literal && !e.flags.HasAddress() ==> (EntryAllowed(e, f) <==> !f.server && !f.domainSrv)
    ensures e.flags.useResolv && !e.flags.literal && !e.flags.HasAddress() ==> EntryAllowed(e, f)
    ensures e.flags.TypeBits() == 0 ==> (EntryAllowed(e, f) <==> !(f.domainSrv && e.domain == "" && !e.flags.forNodots))
  {
  }

  /** The end of the run of entries from `lo` that carry type bit `c`. */
  function RunEnd(s: seq<ServerEntry>, lo: nat, hi: nat, c: nat): (k: nat)
    requires lo <= hi <= |s|
    ensures lo <= k <= hi
    decreases hi - lo
  {
    if lo < hi && HasTypeBit(s[lo], c) then RunEnd(s, lo + 1, hi, c) else lo
  }

  lemma {:induction false} RunEndMeaning(s: seq<ServerEntry>, lo: nat, hi: nat, c: nat)
    requires lo <= hi <= |s|
    ensures var k := RunEnd(s, lo, hi, c);
            (forall i :: lo <= i < k ==> HasTypeBit(s[i], c)) && (k < hi ==> !HasTypeBit(s[k], c))
    decreases hi - lo
  {
    if lo < hi && HasTypeBit(s[lo], c) {
      RunEndMeaning(s, lo + 1, hi, c);
    }
  }

  predicate AnyAddress(s: seq<ServerEntry>, lo: nat, hi: nat)
    requires lo <= hi <= |s|
    decreases hi - lo
  {
    lo < hi && (s[lo].flags.HasAddress() || AnyAddress(s, lo + 1, hi))
  }

  lemma {:induction false} AnyAddressMeaning(s: seq<ServerEntry>, lo: nat, hi: nat)
    requires lo <= hi <= |s|
    ensures AnyAddress(s, lo, hi) <==> exists i :: lo <= i < hi && s[i].flags.HasAddress()
    decreases hi - lo
  {
    if lo == hi {
    } else {
      AnyAddressMeaning(s, lo + 1, hi);
    }
  }

  /** The cascade over the classes of one group from class `c` down, in table order: the first non-empty run
      whose class the flags allow; what is left after class 1 is upstream servers. */
  function Cascade(s: seq<ServerEntry>, lo: nat, hi: nat, c: nat, f: QueryFlags): (r: Option<Range>)
    requires lo <= hi <= |s|
    ensures r.Some? ==> lo <= r.value.lo < r.value.hi <= hi
    decreases c
  {
    if c == 0 then
      if lo < hi && Allowed(0, IsCatchAll(s[lo]), f) then Some(Range(lo, hi)) else None
    else
      var k := RunEnd(s, lo, hi, c);
      if k != lo && Allowed(c, false, f) then Some(Range(lo, k)) else Cascade(s, k, hi, c - 1, f)
  }

  /** What one group offers: the whole group to a query for local addresses, otherwise what the cascade picks. */
  function Choose(s: seq<ServerEntry>, g: Range, f: QueryFlags): (r: Option<Range>)
    requires g.lo <= g.hi <= |s|
    ensures r.Some? ==> g.lo <= r.value.lo < r.value.hi <= g.hi
  {
    if f.config then
      if AnyAddress(s, g.lo, g.hi) then Some(g) else None
    else Cascade(s, g.lo, g.hi, 5, f)
  }

  /** The expansion loops of `filter_servers_impl`: the seed widens to exactly its group. */
  method WidenToGroup(s: seq<ServerEntry>, seed: nat) returns (g: Range)
    requires Sorted(s) && seed < |s|
    ensures g == GroupOf(s, s[seed])
  {
    var nlow, nhigh := seed, seed;
    SameGroupMeaning(s[seed], s[seed]);
    while nlow > 0 && SameGroup(s[nlow - 1], s[nlow])
      invariant 0 <= nlow <= seed
      invariant SameGroup(s[seed], s[nlow])
    {
      GroupStepsAgree(s[seed], s[nlow - 1], s[nlow]);
      nlow := nlow - 1;
    }
    while nhigh < |s| - 1 && SameGroup(s[nhigh], s[nhigh + 1])
      invariant seed <= nhigh < |s|
      invariant SameGroup(s[seed], s[nhigh])
    {
      GroupStepsAgree(s[seed], s[nhigh], s[nhigh + 1]);
      nhigh := nhigh + 1;
    }
    if nlow > 0 {
      GroupStepsAgree(s[seed], s[nlow - 1], s[nlow]);
    }
    if nhigh < |s| - 1 {
      GroupStepsAgree(s[seed], s[nhigh], s[nhigh + 1]);
    }
    nhigh := nhigh + 1;
    GroupOfIsGroup(s, s[seed]);
    g := Range(nlow, nhigh);
  }

  lemma GroupStepsAgree(e: ServerEntry, a: ServerEntry, b: ServerEntry)
    ensures SameGroup(a, b) ==> (SameGroup(e, a) <==> SameGroup(e, b))
    ensures SameGroup(e, a) && SameGroup(e, b) ==> SameGroup(a, b)
  {
    SameGroupMeaning(e, a);
    SameGroupMeaning(e, b);
    SameGroupMeaning(a, b);
  }

  /** `filter_servers_impl`: widen the seed to its whole group, then run the cascade. */
  method FilterServers(arr: ServerArray, seed: nat, f: QueryFlags) returns (r: Option<Range>)
    requires Sorted(arr.entries)
    ensures seed >= |arr.entries| ==> r == None
    ensures seed < |arr.entries| ==> r == Choose(arr.entries, GroupOf(arr.entries, arr.entries[seed]), f)
  {
    if seed >= |arr.entries| {
      return None;
    }
    var g := WidenToGroup(arr.entries, seed);
    r := RunCascade(arr.entries, g, f);
  }

  method RunCascade(s: seq<ServerEntry>, g: Range, f: QueryFlags) returns (r: Option<Range>)
    requires g.lo <= g.hi <= |s|
    ensures r == Choose(s, g, f)
  {
    if f.config {
      return if AnyAddress(s, g.lo, g.hi) then Some(g) else None;
    }
    var lo, hi := g.lo, g.hi;
    var i6 := RunEnd(s, lo, hi, 5);
    if !f.server && i6 != lo && f.ipv6 {
      return Some(Range(lo, i6));
    }
    assert Choose(s, g, f) == Cascade(s, i6, hi, 4, f);
    lo := i6;
    var i4 := RunEnd(s, lo, hi, 4);
    if !f.server && i4 != lo && f.ipv4 {
      return Some(Range(lo, i4));
    }
    assert Choose(s, g, f) == Cascade(s, i4, hi, 3, f);
    lo := i4;
    var iz := RunEnd(s, lo, hi, 3);
    if !f.server && iz != lo && (f.ipv4 || f.ipv6) {
      return Some(Range(lo, iz));
    }
    assert Choose(s, g, f) == Cascade(s, iz, hi, 2, f);
    lo := iz;
    var il := RunEnd(s, lo, hi, 2);
    if !f.domainSrv && !f.server && il != lo {
      return Some(Range(lo, il));
    }
    assert Choose(s, g, f) == Cascade(s, il, hi, 1, f);
    lo := il;
    var ir := RunEnd(s, lo, hi, 1);
    if ir != lo {
      return Some(Range(lo, ir));
    }
    assert Choose(s, g, f) == Cascade(s, ir, hi, 0, f);
    lo := ir;
    if lo < hi {
      if f.domainSrv && s[lo].domain == "" && !s[lo].flags.forNodots {
        return None;
      }
      return Some(Range(lo, hi));
    }
    return None;
  }

  // ----- what the cascade chooses -----

  /** The classes of the group do not increase going down the table. */
  ghost predicate Descending(s: seq<ServerEntry>, g: Range)
    requires g.lo <= g.hi <= |s|
  {
    forall i, j :: g.lo <= i <= j < g.hi ==> ClassOf(s[i]) >= ClassOf(s[j])
  }

  /** `r` is exactly the highest-priority class of the group that the flags allow. */
  ghost predicate BestClass(s: seq<ServerEntry>, g: Range, f: QueryFlags, r: Option<Range>)
    requires g.lo <= g.hi <= |s|
  {
    match r
    case None => forall i :: g.lo <= i < g.hi ==> !EntryAllowed(s[i], f)
    case Some(b) =>
      && g.lo <= b.lo < b.hi <= g.hi
      && EntryAllowed(s[b.lo], f)
      && (forall i :: g.lo <= i < g.hi ==> (b.lo <= i < b.hi <==> ClassOf(s[i]) == ClassOf(s[b.lo])))
      && (forall i :: g.lo <= i < g.hi && ClassOf(s[i]) > ClassOf(s[b.lo]) ==> !EntryAllowed(s[i], f))
  }

  lemma RunIsClass(s: seq<ServerEntry>, g: Range, lo: nat, c: nat)
    requires g.lo <= lo <= g.hi <= |s| && Descending(s, g) && 1 <= c <= 5
    requires forall i :: lo <= i < g.hi ==> ClassOf(s[i]) <= c
    ensures forall i :: lo <= i < g.hi ==> (i < RunEnd(s, lo, g.hi, c) <==> ClassOf(s[i]) == c)
  {
    var k := RunEnd(s, lo, g.hi, c);
    RunEndMeaning(s, lo, g.hi, c);
    forall i | lo <= i < g.hi
      ensures i < k <==> ClassOf(s[i]) == c
    {
      if i < k {
        assert HasTypeBit(s[i], c);
      } else {
        assert ClassOf(s[k]) >= ClassOf(s[i]);
        assert !HasTypeBit(s[k], c);
      }
    }
  }

  lemma GroupSharesCatchAll(a: ServerEntry, b: ServerEntry)
    requires SameGroup(a, b)
    ensures IsCatchAll(a) == IsCatchAll(b)
  {
    SameGroupMeaning(a, b);
    assert |Lower(a.domain)| == |a.domain| && |Lower(b.domain)| == |b.domain|;
  }

  /** Everything above position `lo` is of a higher class than `c` and refused. */
  ghost predicate RefusedAbove(s: seq<ServerEntry>, g: Range, lo: nat, c: nat, f: QueryFlags, catchAll: bool)
    requires g.lo <= lo <= g.hi <= |s|
  {
    && (forall i :: g.lo <= i < lo ==> ClassOf(s[i]) > c && !Allowed(ClassOf(s[i]), catchAll, f))
    && (forall i :: lo <= i < g.hi ==> ClassOf(s[i]) <= c)
  }

  lemma RunIsBest(s: seq<ServerEntry>, g: Range, b: Range, c: nat, f: QueryFlags, catchAll: bool)
    requires g.lo <= b.lo < b.hi <= g.hi <= |s|
    requires forall i :: g.lo <= i < g.hi ==> IsCatchAll(s[i]) == catchAll
    requires RefusedAbove(s, g, b.lo, c, f, catchAll) && Allowed(c, catchAll, f)
    requires forall i :: b.lo <= i < g.hi ==> (i < b.hi <==> ClassOf(s[i]) == c)
    ensures BestClass(s, g, f, Some(b))
  {
    assert ClassOf(s[b.lo]) == c;
  }

  lemma StillRefused(s: seq<ServerEntry>, g: Range, lo: nat, k: nat, c: nat, f: QueryFlags, catchAll: bool)
    requires g.lo <= lo <= k <= g.hi <= |s| && c > 0 && RefusedAbove(s, g, lo, c, f, catchAll)
    requires forall i :: lo <= i < g.hi ==> (i < k <==> ClassOf(s[i]) == c)
    requires k == lo || !Allowed(c, catchAll, f)
    ensures RefusedAbove(s, g, k, c - 1, f, catchAll)
  {
  }

  lemma NothingLeft(s: seq<ServerEntry>, g: Range, lo: nat, f: QueryFlags, catchAll: bool)
    requires g.lo <= lo <= g.hi <= |s| && RefusedAbove(s, g, lo, 0, f, catchAll)
    requires forall i :: g.lo <= i < g.hi ==> IsCatchAll(s[i]) == catchAll
    requires lo == g.hi || !Allowed(0, catchAll, f)
    ensures BestClass(s, g, f, None)
  {
  }

  lemma {:induction false} CascadeIsBest(s: seq<ServerEntry>, g: Range, lo: nat, c: nat, f: QueryFlags, catchAll: bool)
    requires g.lo <= lo <= g.hi <= |s| && Descending(s, g) && c <= 5
    requires forall i :: g.lo <= i < g.hi ==> IsCatchAll(s[i]) == catchAll
    requires RefusedAbove(s, g, lo, c, f, catchAll)
    ensures BestClass(s, g, f, Cascade(s, lo, g.hi, c, f))
    decreases c
  {
    if c == 0 {
      if lo < g.hi && Allowed(0, catchAll, f) {
        RunIsBest(s, g, Range(lo, g.hi), 0, f, catchAll);
      } else {
        NothingLeft(s, g, lo, f, catchAll);
      }
    } else {
      RunIsClass(s, g, lo, c);
      var k := RunEnd(s, lo, g.hi, c);
      if k != lo && Allowed(c, false, f) {
        RunIsBest(s, g, Range(lo, k), c, f, catchAll);
      } else {
        StillRefused(s, g, lo, k, c, f, catchAll);
        CascadeIsBest(s, g, k, c - 1, f, catchAll);
      }
    }
  }

  /** In a group whose classes descend, the cascade returns exactly the best allowed class. */
  lemma ChooseIsBestClass(s: seq<ServerEntry>, e: ServerEntry, g: Range, f: QueryFlags)
    requires IsGroup(s, e, g) && Descending(s, g) && !f.config
    ensures BestClass(s, g, f, Choose(s, g, f))
  {
    forall i | g.lo <= i < g.hi
      ensures IsCatchAll(s[i]) == IsCatchAll(e)
    {
      GroupSharesCatchAll(e, s[i]);
    }
    CascadeIsBest(s, g, g.lo, 5, f, IsCatchAll(e));
  }

  lemma ClassFollowsTypeBits(a: ServerEntry, b: ServerEntry)
    requires a.flags.TypeBits() >= b.flags.TypeBits()
    ensures ClassOf(a) >= ClassOf(b)
  {
  }

  /** Entries for names without dots have no domain of their own. */
  ghost predicate NodotsAreEmpty(s: seq<ServerEntry>) {
    forall e :: e in s && e.flags.forNodots ==> e.domain == ""
  }

  /** A group that is all plain or all wildcard has descending classes; so has that of the names without dots. */
  lemma UniformGroupDescends(s: seq<ServerEntry>, e: ServerEntry, g: Range)
    requires Sorted(s) && IsGroup(s, e, g) && (e.flags.forNodots ==> NodotsAreEmpty(s))
    requires forall i, j :: g.lo <= i < g.hi && g.lo <= j < g.hi ==> s[i].flags.wildcard == s[j].flags.wildcard
    ensures Descending(s, g)
  {
    forall i, j | g.lo <= i < j < g.hi
      ensures ClassOf(s[i]) >= ClassOf(s[j])
    {
      SameGroupMeaning(e, s[i]);
      SameGroupMeaning(e, s[j]);
      assert s[i] in s && s[j] in s;
      OrderEqualIsSameName(s[i].domain, s[j].domain);
      assert |Lower(s[i].domain)| == |s[i].domain| && |Lower(s[j].domain)| == |s[j].domain|;
      assert CompareEntries(s[i], s[j]) != Greater;
      ClassFollowsTypeBits(s[i], s[j]);
    }
  }
}
