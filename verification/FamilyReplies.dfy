/** What a question for addresses gets from the configuration, in the bits of the entries. */
module FamilyReplies {
  import opened Basics
  import opened Names
  import opened Servers
  import opened ServerTable
  import opened ServerFilter
  import opened FilterExactness
  import opened ServerLookup
  import opened LookupMeaning
  import opened LocalAnswers
  import opened LocalReplies

  // ----- a suffix that decides -----

  /** All suffixes longer than the one at `k` are refused, and class `c` is the best allowed one there. */
  ghost predicate DecidesAt(s: seq<ServerEntry>, d: string, f: QueryFlags, k: nat, c: nat) {
    && k <= |d| && (forall j :: 0 <= j < k ==> RefusedAt(s, d, j, f))
    && (exists i :: 0 <= i < |s| && MatchesAt(s[i], d, k) && EntryAllowed(s[i], f) && ClassOf(s[i]) == c)
    && forall i :: 0 <= i < |s| && MatchesAt(s[i], d, k) && EntryAllowed(s[i], f) ==> ClassOf(s[i]) <= c
  }

  lemma AllowedIsNotRefused(s: seq<ServerEntry>, d: string, f: QueryFlags, k: nat, i: nat)
    requires i < |s| && MatchesAt(s[i], d, k) && EntryAllowed(s[i], f) && !f.config
    ensures !RefusedAt(s, d, k, f)
  {
  }

  lemma AnswerIsNotRefused(s: seq<ServerEntry>, d: string, f: QueryFlags, k: nat, b: Range)
    requires AnswerAt(s, d, k, f, b) && !f.config
    ensures !RefusedAt(s, d, k, f)
  {
    AllowedIsNotRefused(s, d, f, k, b.lo);
  }

  /** The scan is decided by the longest suffix that is not refused. */
  lemma ScanDecidedAt(s: seq<ServerEntry>, d: string, f: QueryFlags, k: nat, i: nat)
    returns (b: Range, scan: Scan, g: Range)
    requires Sorted(s) && Uniform(s) && NodotsAreEmpty(s) && !f.config && !f.ds && k <= |d|
    requires forall j :: 0 <= j < k ==> RefusedAt(s, d, j, f)
    requires i < |s| && MatchesAt(s[i], d, k) && EntryAllowed(s[i], f)
    ensures scan == LongestFirst(s, d, 0, f) && Decides(s, d, k, f, b, scan)
    ensures NodotsBlock(s, g) && LookupGives(s, d, f, scan, g, ReferenceLookup(s, d, f))
  {
    var k';
    k', b, scan, g := LookupMeans(s, d, f);
    AllowedIsNotRefused(s, d, f, k, i);
    if k' < k {
      AnswerIsNotRefused(s, d, f, k', b);
    }
  }

  /** Such a suffix is the one the lookup answers from. */
  lemma LookupFindsAt(s: seq<ServerEntry>, d: string, f: QueryFlags, k: nat, c: nat) returns (b: Range)
    requires Sorted(s) && Uniform(s) && NodotsAreEmpty(s) && !f.config && !f.ds
    requires DecidesAt(s, d, f, k, c) && !NodotsDecide(s, d, f)
    requires forall i :: 0 <= i < |s| && MatchesAt(s[i], d, k) && ClassOf(s[i]) == c ==> !s[i].flags.useResolv
    ensures ReferenceLookup(s, d, f) == Some(b) && b.lo < b.hi <= |s| && ClassOf(s[b.lo]) == c
    ensures forall i :: 0 <= i < |s| ==> (b.lo <= i < b.hi <==> OfClass(MatchingAt(d, k), c)(s[i]))
  {
    var i :| 0 <= i < |s| && MatchesAt(s[i], d, k) && EntryAllowed(s[i], f) && ClassOf(s[i]) == c;
    var scan, g;
    b, scan, g := ScanDecidedAt(s, d, f, k, i);
    BestClassAt(s, d, f, k, c, i, b);
    assert scan == Scan(Some(b), f);
    NodotsSilent(s, d, f, g);
  }

  lemma BestClassAt(s: seq<ServerEntry>, d: string, f: QueryFlags, k: nat, c: nat, i: nat, b: Range)
    requires DecidesAt(s, d, f, k, c) && AnswerAt(s, d, k, f, b) && !f.config
    requires i < |s| && MatchesAt(s[i], d, k) && EntryAllowed(s[i], f) && ClassOf(s[i]) == c
    ensures ClassOf(s[b.lo]) == c && MatchesAt(s[b.lo], d, k)
    ensures forall i :: 0 <= i < |s| ==> (b.lo <= i < b.hi <==> OfClass(MatchingAt(d, k), c)(s[i]))
  {
  }

  /** When the entries for names without dots do not decide, they do not replace what the scan gave. */
  lemma NodotsSilent(s: seq<ServerEntry>, d: string, f: QueryFlags, g: Range)
    requires NodotsBlock(s, g) && !NodotsDecide(s, d, f) && !f.config
    ensures IsSingleLabel(d) && !f.dnssecOk && NothingSpecific(s, LongestFirst(s, d, 0, f)) ==>
              BlockOffers(s, g, f, None)
  {
  }

  /** The reply from a suffix that decides with a local class. */
  lemma ReplyAt(
    servers: seq<Server>, locals: seq<Server>, name: string, q4: bool, q6: bool, known: bool, ttl: nat, k: nat, c: nat)
    returns (b: Range)
    requires WellConfigured(servers, locals) && c >= 2
    requires DecidesAt(Table(servers, locals), name, Asking(q4, q6), k, c)
    requires !NodotsDecide(Table(servers, locals), name, Asking(q4, q6))
    ensures b.lo < b.hi <= |Table(servers, locals)| && ClassOf(Table(servers, locals)[b.lo]) == c
    ensures MatchesAt(Table(servers, locals)[b.lo], name, k)
    ensures Table(servers, locals)[b.lo..b.hi] == Keep(LocalEntries(locals), OfClass(MatchingAt(name, k), c))
    ensures ReplyOf(Table(servers, locals), locals, name, q4, q6, known, ttl)
         == ExpectedReply(Table(servers, locals), b, locals, name, q4, q6, known, ttl)
  {
    var s, f, p := Table(servers, locals), Asking(q4, q6), MatchingAt(name, k);
    TableIsFit(servers, locals);
    NoResolvInClass(servers, locals, name, k, c);
    b := LookupFindsAt(s, name, f, k, c);
    forall x, y | p(x) && p(y)
      ensures SameGroup(x, y)
    {
      MatchingIsOneGroup(name, k, x, y);
    }
    RangeReply(servers, locals, s, p, b, name, q4, q6, known, ttl);
    RangeInConfigurationOrder(servers, locals, p, c, b);
  }

  // ----- questions for one family -----

  /** The address bit of a family. */
  predicate HasFamily(e: ServerEntry, v6: bool) { if v6 then e.flags.addr6 else e.flags.addr4 }

  /** The configured entries matching at `k` that have an address of the family. */
  ghost function FamilyAt(name: string, k: nat, v6: bool): ServerEntry -> bool {
    (e: ServerEntry) => MatchesAt(e, name, k) && HasFamily(e, v6)
  }

  /** The configured 0.0.0.0 entries matching at `k`. */
  ghost function ZerosAt(name: string, k: nat): ServerEntry -> bool {
    (e: ServerEntry) => MatchesAt(e, name, k) && e.flags.allZeros
  }

  /** The longest matching domain that has anything but addresses of the other family is the suffix at `k`, and it is
      not the catch-all standing in for entries for names without dots. */
  ghost predicate LongestFor(raw: seq<ServerEntry>, name: string, v6: bool, k: nat) {
    && k <= |name|
    && (forall e, j :: e in raw && 0 <= j < k && MatchesAt(e, name, j) ==> HasFamily(e, !v6))
    && (k < |name| || !IsSingleLabel(name) || forall e :: e in raw && e.flags.forNodots ==> HasFamily(e, !v6))
  }

  /** For a question of one family, exactly the addresses of the other family are refused. */
  lemma AllowedForFamily(servers: seq<Server>, locals: seq<Server>, e: ServerEntry, v6: bool)
    requires WellConfigured(servers, locals) && e in RawEntries(servers, locals)
    ensures EntryAllowed(e, Asking(!v6, v6)) <==> !HasFamily(e, !v6)
    ensures e.flags.addr6 <==> ClassOf(e) == 5
    ensures e.flags.addr4 <==> ClassOf(e) == 4
    ensures e.flags.allZeros <==> ClassOf(e) == 3
    ensures e.flags.literal <==> ClassOf(e) >= 2
  {
    AllowedInBits(e, Asking(!v6, v6));
    LocalClass(servers, locals, e);
    UpstreamFlags(servers, |servers|);
    if e in LocalEntries(locals) {
      var i :| 0 <= i < |locals| && LocalEntries(locals)[i] == e;
      assert OneKind(locals[i].flags);
    }
  }

  lemma AllAllowedForFamily(servers: seq<Server>, locals: seq<Server>, v6: bool)
    requires WellConfigured(servers, locals)
    ensures forall e :: e in Table(servers, locals) ==>
              && e in RawEntries(servers, locals)
              && (EntryAllowed(e, Asking(!v6, v6)) <==> !HasFamily(e, !v6))
              && (e.flags.addr6 <==> ClassOf(e) == 5) && (e.flags.addr4 <==> ClassOf(e) == 4)
              && (e.flags.allZeros <==> ClassOf(e) == 3) && (e.flags.literal <==> ClassOf(e) >= 2)
  {
    TableIsFit(servers, locals);
    forall e | e in Table(servers, locals)
      ensures e in RawEntries(servers, locals)
      ensures EntryAllowed(e, Asking(!v6, v6)) <==> !HasFamily(e, !v6)
      ensures (e.flags.addr6 <==> ClassOf(e) == 5) && (e.flags.addr4 <==> ClassOf(e) == 4)
      ensures (e.flags.allZeros <==> ClassOf(e) == 3) && (e.flags.literal <==> ClassOf(e) >= 2)
    {
      AllowedForFamily(servers, locals, e, v6);
    }
  }

  /** The suffix decides with the class of `e`, a literal entry matching there such that only addresses of the other
      family are of a better class. */
  lemma LongestDecides(servers: seq<Server>, locals: seq<Server>, name: string, v6: bool, k: nat, e: ServerEntry)
    requires WellConfigured(servers, locals) && LongestFor(RawEntries(servers, locals), name, v6, k)
    requires e in RawEntries(servers, locals) && MatchesAt(e, name, k) && !HasFamily(e, !v6) && e.flags.literal
    requires forall x :: x in RawEntries(servers, locals) && MatchesAt(x, name, k) && ClassOf(x) > ClassOf(e) ==>
               HasFamily(x, !v6)
    ensures DecidesAt(Table(servers, locals), name, Asking(!v6, v6), k, ClassOf(e))
    ensures !NodotsDecide(Table(servers, locals), name, Asking(!v6, v6))
  {
    var s, f, c := Table(servers, locals), Asking(!v6, v6), ClassOf(e);
    TableIsFit(servers, locals);
    AllAllowedForFamily(servers, locals, v6);
    assert e in s;
    var i :| 0 <= i < |s| && s[i] == e;
    assert forall i :: 0 <= i < |s| ==> s[i] in s;
    assert DecidesAt(s, name, f, k, c);
    if k < |name| {
      NoResolvInClass(servers, locals, name, k, c);
      SpecificSuffix(s, name, f, k, c, i);
    }
  }

  lemma NoResolvInClass(servers: seq<Server>, locals: seq<Server>, name: string, k: nat, c: nat)
    requires WellConfigured(servers, locals) && c >= 2
    ensures var s := Table(servers, locals);
            forall i :: 0 <= i < |s| && MatchesAt(s[i], name, k) && ClassOf(s[i]) == c ==> !s[i].flags.useResolv
  {
    var s := Table(servers, locals);
    TableIsFit(servers, locals);
    forall i | 0 <= i < |s| && MatchesAt(s[i], name, k) && ClassOf(s[i]) == c
      ensures !s[i].flags.useResolv
    {
      assert s[i] in s;
      LocalClass(servers, locals, s[i]);
    }
  }

  /** A scan that a named suffix decides gives something specific. */
  lemma SpecificSuffix(s: seq<ServerEntry>, d: string, f: QueryFlags, k: nat, c: nat, i: nat)
    requires Sorted(s) && Uniform(s) && NodotsAreEmpty(s) && !f.config && !f.ds && k < |d| && DecidesAt(s, d, f, k, c)
    requires i < |s| && MatchesAt(s[i], d, k) && EntryAllowed(s[i], f) && ClassOf(s[i]) == c
    requires forall i :: 0 <= i < |s| && MatchesAt(s[i], d, k) && ClassOf(s[i]) == c ==> !s[i].flags.useResolv
    ensures !NothingSpecific(s, LongestFirst(s, d, 0, f))
  {
    var b, scan, g := ScanDecidedAt(s, d, f, k, i);
    BestClassAt(s, d, f, k, c, i, b);
    assert |Lower(d[k..])| == |Lower(s[b.lo].domain)|;
  }

  // ----- the replies -----

  lemma {:induction false} KeepSame(s: seq<ServerEntry>, p: ServerEntry -> bool, q: ServerEntry -> bool)
    requires forall i :: 0 <= i < |s| ==> (p(s[i]) <==> q(s[i]))
    ensures Keep(s, p) == Keep(s, q)
  {
    if s == [] {
    } else {
      KeepSame(s[1..], p, q);
    }
  }

  lemma {:induction false} KeepHolds(s: seq<ServerEntry>, p: ServerEntry -> bool)
    ensures forall i :: 0 <= i < |Keep(s, p)| ==> p(Keep(s, p)[i]) && Keep(s, p)[i] in s
  {
    if s == [] {
    } else {
      KeepHolds(s[1..], p);
    }
  }

  lemma LocalIndex(locals: seq<Server>, e: ServerEntry)
    requires e in LocalEntries(locals)
    ensures e.index < |locals| && e.flags == locals[e.index].flags && e.domain == locals[e.index].domain
  {
  }

  lemma LocalsAreRaw(servers: seq<Server>, locals: seq<Server>, i: nat)
    requires i < |locals|
    ensures LocalEntries(locals)[i] in RawEntries(servers, locals)
  {
    assert RawEntries(servers, locals)[|UpstreamEntries(servers, |servers|)| + i] == LocalEntries(locals)[i];
  }

  /** The entries that win with class `c` at `k`, in terms of a bit that the class stands for. */
  lemma WinnersAre(
    servers: seq<Server>, locals: seq<Server>, name: string, k: nat, c: nat, p: ServerEntry -> bool)
    requires WellConfigured(servers, locals)
    requires forall e :: e in RawEntries(servers, locals) ==> (p(e) <==> MatchesAt(e, name, k) && ClassOf(e) == c)
    ensures Keep(LocalEntries(locals), OfClass(MatchingAt(name, k), c)) == Keep(LocalEntries(locals), p)
    ensures var es := Keep(LocalEntries(locals), p);
            forall i :: 0 <= i < |es| ==>
              es[i].index < |locals| && es[i].flags == locals[es[i].index].flags && p(es[i])
  {
    var all := LocalEntries(locals);
    forall i | 0 <= i < |all|
      ensures OfClass(MatchingAt(name, k), c)(all[i]) <==> p(all[i])
    {
      LocalsAreRaw(servers, locals, i);
    }
    KeepSame(all, OfClass(MatchingAt(name, k), c), p);
    KeepHolds(all, p);
    var es := Keep(all, p);
    forall i | 0 <= i < |es|
      ensures es[i].index < |locals| && es[i].flags == locals[es[i].index].flags
    {
      LocalIndex(locals, es[i]);
    }
  }

  /** The reply when the suffix at `k` decides with the class of `e`, which has an address and which `p` picks out. */
  lemma ReplyFromClass(
    servers: seq<Server>, locals: seq<Server>, name: string, v6: bool, known: bool, ttl: nat, k: nat, e: ServerEntry,
    p: ServerEntry -> bool)
    requires WellConfigured(servers, locals) && LongestFor(RawEntries(servers, locals), name, v6, k)
    requires e in RawEntries(servers, locals) && MatchesAt(e, name, k) && !HasFamily(e, !v6) && e.flags.HasAddress()
    requires forall x :: x in RawEntries(servers, locals) ==>
               && (p(x) <==> MatchesAt(x, name, k) && ClassOf(x) == ClassOf(e))
               && (MatchesAt(x, name, k) && ClassOf(x) > ClassOf(e) ==> HasFamily(x, !v6))
    ensures var es := Keep(LocalEntries(locals), p);
            && ReplyOf(Table(servers, locals), locals, name, !v6, v6, known, ttl)
            == Answered(WonRecords(es, ClassOf(e), locals, !v6, v6, name, ttl))
            && es != [] && forall i :: 0 <= i < |es| ==>
                 es[i].index < |locals| && es[i].flags == locals[es[i].index].flags && p(es[i])
  {
    AllowedForFamily(servers, locals, e, v6);
    LongestDecides(servers, locals, name, v6, k, e);
    var b := ReplyAt(servers, locals, name, !v6, v6, known, ttl, k, ClassOf(e));
    WinnersAre(servers, locals, name, k, ClassOf(e), p);
  }

  /** A question for one family whose longest matching domain has addresses of that family is answered with exactly one
      record of that family for each such entry, in configuration order. */
  lemma FamilyIsAnswered(
    servers: seq<Server>, locals: seq<Server>, name: string, v6: bool, known: bool, ttl: nat, k: nat, e: ServerEntry)
    requires WellConfigured(servers, locals) && LongestFor(RawEntries(servers, locals), name, v6, k)
    requires e in RawEntries(servers, locals) && MatchesAt(e, name, k) && HasFamily(e, v6)
    ensures var reply := ReplyOf(Table(servers, locals), locals, name, !v6, v6, known, ttl);
            var es := Keep(LocalEntries(locals), FamilyAt(name, k, v6));
            && reply.Answered? && |reply.answers| == |es| > 0
            && forall i :: 0 <= i < |es| ==>
                 && es[i].index < |locals|
                 && reply.answers[i] == Rr(name, if v6 then 28 else 1, ttl, locals[es[i].index].addr.ip)
  {
    var raw, c, p := RawEntries(servers, locals), if v6 then 5 else 4, FamilyAt(name, k, v6);
    forall x | x in raw
      ensures HasFamily(x, v6) <==> ClassOf(x) == c
      ensures ClassOf(x) > c ==> HasFamily(x, !v6)
      ensures HasFamily(x, v6) ==> !x.flags.allZeros && !HasFamily(x, !v6)
    {
      AllowedForFamily(servers, locals, x, v6);
    }
    assert ClassOf(e) == c;
    ReplyFromClass(servers, locals, name, v6, known, ttl, k, e, p);
    FamilyRecords(locals, Keep(LocalEntries(locals), p), v6, name, ttl);
  }

  /** The configured entries for names without dots that have an address of the family. */
  ghost function NodotsOf(v6: bool): ServerEntry -> bool { (e: ServerEntry) => e.flags.forNodots && HasFamily(e, v6) }

  /** The entries for names without dots that win with class `c`, in terms of a bit that the class stands for. */
  lemma NodotsWinners(servers: seq<Server>, locals: seq<Server>, c: nat, p: ServerEntry -> bool)
    requires forall e :: e in RawEntries(servers, locals) ==> (p(e) <==> e.flags.forNodots && ClassOf(e) == c)
    ensures Keep(LocalEntries(locals), OfClass(ForNodots(), c)) == Keep(LocalEntries(locals), p)
    ensures var es := Keep(LocalEntries(locals), p);
            forall i :: 0 <= i < |es| ==> es[i].index < |locals| && p(es[i]) && es[i] in RawEntries(servers, locals)
  {
    var all := LocalEntries(locals);
    forall i | 0 <= i < |all|
      ensures OfClass(ForNodots(), c)(all[i]) <==> p(all[i])
    {
      LocalsAreRaw(servers, locals, i);
    }
    KeepSame(all, OfClass(ForNodots(), c), p);
    KeepHolds(all, p);
    var es := Keep(all, p);
    forall i | 0 <= i < |es|
      ensures es[i].index < |locals| && es[i] in RawEntries(servers, locals)
    {
      LocalIndex(locals, es[i]);
      var n :| 0 <= n < |all| && all[n] == es[i];
      LocalsAreRaw(servers, locals, n);
    }
  }

  /** A single label that no configured domain matches is answered, if the entries for names without dots have addresses
      of the asked family, with exactly one record for each of those. */
  lemma SingleLabelIsAnswered(
    servers: seq<Server>, locals: seq<Server>, name: string, v6: bool, known: bool, ttl: nat, e: ServerEntry)
    requires WellConfigured(servers, locals) && name != "" && '.' !in name
    requires forall x, j :: x in RawEntries(servers, locals) && 0 <= j <= |name| ==> !MatchesAt(x, name, j)
    requires e in RawEntries(servers, locals) && e.flags.forNodots && HasFamily(e, v6)
    ensures var reply := ReplyOf(Table(servers, locals), locals, name, !v6, v6, known, ttl);
            var es := Keep(LocalEntries(locals), NodotsOf(v6));
            && reply.Answered? && |reply.answers| == |es| > 0
            && forall i :: 0 <= i < |es| ==>
                 && es[i].index < |locals|
                 && reply.answers[i] == Rr(name, if v6 then 28 else 1, ttl, locals[es[i].index].addr.ip)
  {
    var c, p := if v6 then 5 else 4, NodotsOf(v6);
    NodotsReply(servers, locals, name, v6, known, ttl, e);
    forall x | x in RawEntries(servers, locals)
      ensures HasFamily(x, v6) <==> ClassOf(x) == c
      ensures HasFamily(x, v6) ==> !x.flags.allZeros
    {
      AllowedForFamily(servers, locals, x, v6);
    }
    NodotsWinners(servers, locals, c, p);
    FamilyRecords(locals, Keep(LocalEntries(locals), p), v6, name, ttl);
  }

  lemma NodotsReply(
    servers: seq<Server>, locals: seq<Server>, name: string, v6: bool, known: bool, ttl: nat, e: ServerEntry)
    requires WellConfigured(servers, locals) && name != "" && '.' !in name
    requires forall x, j :: x in RawEntries(servers, locals) && 0 <= j <= |name| ==> !MatchesAt(x, name, j)
    requires e in RawEntries(servers, locals) && e.flags.forNodots && HasFamily(e, v6)
    ensures var c := if v6 then 5 else 4;
            var es := Keep(LocalEntries(locals), OfClass(ForNodots(), c));
            && es != []
            && ReplyOf(Table(servers, locals), locals, name, !v6, v6, known, ttl)
            == Answered(WonRecords(es, c, locals, !v6, v6, name, ttl))
  {
    var s, c := Table(servers, locals), if v6 then 5 else 4;
    var b := NodotsRange(servers, locals, name, v6, e);
    forall x, y | ForNodots()(x) && ForNodots()(y)
      ensures SameGroup(x, y)
    {
      NodotsIsOneGroup(x, y);
    }
    RangeReply(servers, locals, s, ForNodots(), b, name, !v6, v6, known, ttl);
    RangeInConfigurationOrder(servers, locals, ForNodots(), c, b);
  }

  lemma NodotsRange(servers: seq<Server>, locals: seq<Server>, name: string, v6: bool, e: ServerEntry)
    returns (b: Range)
    requires WellConfigured(servers, locals) && name != "" && '.' !in name
    requires forall x, j :: x in RawEntries(servers, locals) && 0 <= j <= |name| ==> !MatchesAt(x, name, j)
    requires e in RawEntries(servers, locals) && e.flags.forNodots && HasFamily(e, v6)
    ensures var s, c := Table(servers, locals), if v6 then 5 else 4;
            && b.lo < b.hi <= |s| && ClassOf(s[b.lo]) == c
            && ReferenceLookup(s, name, Asking(!v6, v6)) == Some(b)
            && forall i :: 0 <= i < |s| ==> (b.lo <= i < b.hi <==> OfClass(ForNodots(), c)(s[i]))
  {
    var s, f, c := Table(servers, locals), Asking(!v6, v6), if v6 then 5 else 4;
    TableIsFit(servers, locals);
    AllowedForFamily(servers, locals, e, v6);
    FamilyIsBest(servers, locals, v6, c);
    NoneMatchInTable(servers, locals, name);
    assert e in s;
    var i :| 0 <= i < |s| && s[i] == e;
    b := NodotsLookup(s, name, f, i);
    NodotsIsBestOf(s, f, c, i, b);
  }

  lemma FamilyIsBest(servers: seq<Server>, locals: seq<Server>, v6: bool, c: nat)
    requires WellConfigured(servers, locals) && c == if v6 then 5 else 4
    ensures var s, f := Table(servers, locals), Asking(!v6, v6);
            && (forall n :: 0 <= n < |s| && EntryAllowed(s[n], f) ==> ClassOf(s[n]) <= c)
            && (forall n :: 0 <= n < |s| && ClassOf(s[n]) == c ==> EntryAllowed(s[n], f))
  {
    var s, f := Table(servers, locals), Asking(!v6, v6);
    TableIsFit(servers, locals);
    forall n | 0 <= n < |s|
      ensures EntryAllowed(s[n], f) ==> ClassOf(s[n]) <= c
      ensures ClassOf(s[n]) == c ==> EntryAllowed(s[n], f)
    {
      assert s[n] in s;
      AllowedForFamily(servers, locals, s[n], v6);
    }
  }

  lemma NoneMatchInTable(servers: seq<Server>, locals: seq<Server>, name: string)
    requires WellConfigured(servers, locals)
    requires forall x, j :: x in RawEntries(servers, locals) && 0 <= j <= |name| ==> !MatchesAt(x, name, j)
    ensures var s := Table(servers, locals);
            forall j, n :: 0 <= n < |s| && 0 <= j <= |name| ==> !MatchesAt(s[n], name, j)
  {
    var s := Table(servers, locals);
    TableIsFit(servers, locals);
    forall j, n | 0 <= n < |s| && 0 <= j <= |name|
      ensures !MatchesAt(s[n], name, j)
    {
      assert s[n] in s;
    }
  }

  lemma NodotsLookup(s: seq<ServerEntry>, d: string, f: QueryFlags, i: nat) returns (b: Range)
    requires Sorted(s) && Uniform(s) && NodotsAreEmpty(s) && !f.config && !f.ds && !f.dnssecOk && d != "" && '.' !in d
    requires forall j, n :: 0 <= n < |s| && 0 <= j <= |d| ==> !MatchesAt(s[n], d, j)
    requires i < |s| && s[i].flags.forNodots && EntryAllowed(s[i], f)
    ensures ReferenceLookup(s, d, f) == Some(b) && b.lo < b.hi <= |s|
    ensures forall n :: 0 <= n < |s| ==> (b.lo <= n < b.hi <==> BestOf(s, ForNodots(), f, s[n]))
  {
    var k, a, scan, g := LookupMeans(s, d, f);
    assert k > |d| by {
      NothingMatches(s, d, f, k, a, scan);
    }
    assert scan == Scan(None, f) && !BlockOffers(s, g, f, None);
    b := ReferenceLookup(s, d, f).value;
    forall n | 0 <= n < |s|
      ensures b.lo <= n < b.hi <==> BestOf(s, ForNodots(), f, s[n])
    {
      NodotsIsBest(s, g, f, b, n);
    }
  }

  lemma NothingMatches(s: seq<ServerEntry>, d: string, f: QueryFlags, k: nat, a: Range, scan: Scan)
    requires (forall j, n :: 0 <= n < |s| && 0 <= j <= |d| ==> !MatchesAt(s[n], d, j)) && !f.config
    ensures k <= |d| ==> !Decides(s, d, k, f, a, scan)
  {
    if k <= |d| && AnswerAt(s, d, k, f, a) {
      AnswerMatches(s, d, f, k, a);
    }
  }

  lemma AnswerMatches(s: seq<ServerEntry>, d: string, f: QueryFlags, k: nat, b: Range)
    requires AnswerAt(s, d, k, f, b) && !f.config
    ensures exists n :: 0 <= n < |s| && MatchesAt(s[n], d, k)
  {
    assert MatchesAt(s[b.lo], d, k);
  }

  lemma NodotsIsBestOf(s: seq<ServerEntry>, f: QueryFlags, c: nat, i: nat, b: Range)
    requires b.lo < b.hi <= |s| && forall n :: 0 <= n < |s| ==> (b.lo <= n < b.hi <==> BestOf(s, ForNodots(), f, s[n]))
    requires i < |s| && s[i].flags.forNodots && EntryAllowed(s[i], f) && ClassOf(s[i]) == c
    requires forall n :: 0 <= n < |s| && EntryAllowed(s[n], f) ==> ClassOf(s[n]) <= c
    requires forall n :: 0 <= n < |s| && ClassOf(s[n]) == c ==> EntryAllowed(s[n], f)
    ensures ClassOf(s[b.lo]) == c
    ensures forall n :: 0 <= n < |s| ==> (b.lo <= n < b.hi <==> OfClass(ForNodots(), c)(s[n]))
  {
    assert BestOf(s, ForNodots(), f, s[b.lo]);
  }

  lemma FamilyRecords(locals: seq<Server>, es: seq<ServerEntry>, v6: bool, name: string, ttl: nat)
    requires forall i :: 0 <= i < |es| ==> es[i].index < |locals| && !es[i].flags.allZeros
    ensures var rs := WonRecords(es, if v6 then 5 else 4, locals, !v6, v6, name, ttl);
            && |rs| == |es|
            && forall i :: 0 <= i < |es| ==>
                 rs[i] == Rr(name, if v6 then 28 else 1, ttl, locals[es[i].index].addr.ip)
  {
  }

  /** When the longest matching domain has 0.0.0.0 entries but no address of the asked family, the answer is exactly one
      record of the unspecified address for each of them. */
  lemma ZerosAreAnswered(
    servers: seq<Server>, locals: seq<Server>, name: string, v6: bool, known: bool, ttl: nat, k: nat, e: ServerEntry)
    requires WellConfigured(servers, locals) && LongestFor(RawEntries(servers, locals), name, v6, k)
    requires e in RawEntries(servers, locals) && MatchesAt(e, name, k) && e.flags.allZeros
    requires forall x :: x in RawEntries(servers, locals) && MatchesAt(x, name, k) ==> !HasFamily(x, v6)
    ensures var reply := ReplyOf(Table(servers, locals), locals, name, !v6, v6, known, ttl);
            var es := Keep(LocalEntries(locals), ZerosAt(name, k));
            && reply.Answered? && |reply.answers| == |es| > 0
            && forall i :: 0 <= i < |es| ==>
                 reply.answers[i] == Rr(name, if v6 then 28 else 1, ttl, seq(if v6 then 16 else 4, _ => 0))
  {
    var raw, p := RawEntries(servers, locals), ZerosAt(name, k);
    forall x | x in raw
      ensures x.flags.allZeros <==> ClassOf(x) == 3
      ensures x.flags.allZeros ==> !HasFamily(x, !v6)
      ensures MatchesAt(x, name, k) && ClassOf(x) > 3 ==> HasFamily(x, !v6)
    {
      AllowedForFamily(servers, locals, x, v6);
    }
    ReplyFromClass(servers, locals, name, v6, known, ttl, k, e, p);
    ZeroRecords(locals, Keep(LocalEntries(locals), p), v6, name, ttl);
  }

  lemma ZeroRecords(locals: seq<Server>, es: seq<ServerEntry>, v6: bool, name: string, ttl: nat)
    requires forall i :: 0 <= i < |es| ==> es[i].flags.allZeros
    ensures var rs := WonRecords(es, 3, locals, !v6, v6, name, ttl);
            && |rs| == |es|
            && forall i :: 0 <= i < |es| ==>
                 rs[i] == Rr(name, if v6 then 28 else 1, ttl, seq(if v6 then 16 else 4, _ => 0))
  {
  }

  /** When the longest matching domain has no address for the question but a literal entry, the name has no data if it
      is known or the domain has any address, and does not exist otherwise. */
  lemma LiteralIsAnswered(
    servers: seq<Server>, locals: seq<Server>, name: string, v6: bool, known: bool, ttl: nat, k: nat, e: ServerEntry)
    requires WellConfigured(servers, locals) && LongestFor(RawEntries(servers, locals), name, v6, k)
    requires e in RawEntries(servers, locals) && MatchesAt(e, name, k) && e.flags.literal && !e.flags.HasAddress()
    requires forall x :: x in RawEntries(servers, locals) && MatchesAt(x, name, k) ==>
               !HasFamily(x, v6) && !x.flags.allZeros
    ensures ReplyOf(Table(servers, locals), locals, name, !v6, v6, known, ttl)
         == if known || exists x :: x in RawEntries(servers, locals) && MatchesAt(x, name, k) && HasFamily(x, !v6)
            then NoData else NoSuchName
  {
    var raw, s := RawEntries(servers, locals), Table(servers, locals);
    forall x | x in raw && MatchesAt(x, name, k)
      ensures ClassOf(x) > 2 ==> HasFamily(x, !v6)
      ensures x.flags.HasAddress() <==> HasFamily(x, !v6)
    {
      AllowedForFamily(servers, locals, x, v6);
    }
    AllowedForFamily(servers, locals, e, v6);
    LongestDecides(servers, locals, name, v6, k, e);
    var b := ReplyAt(servers, locals, name, !v6, v6, known, ttl, k, 2);
    GroupAddresses(servers, locals, name, k, s[b.lo]);
  }

  /** The group of an entry matching at `k` has an address if and only if an entry matching there has. */
  lemma GroupAddresses(servers: seq<Server>, locals: seq<Server>, name: string, k: nat, e: ServerEntry)
    requires WellConfigured(servers, locals) && e in Table(servers, locals) && MatchesAt(e, name, k)
    ensures GroupHasAddress(Table(servers, locals), e) <==>
            exists x :: x in RawEntries(servers, locals) && MatchesAt(x, name, k) && x.flags.HasAddress()
  {
    var s, raw := Table(servers, locals), RawEntries(servers, locals);
    TableIsFit(servers, locals);
    forall x | x in s
      ensures SameGroup(e, x) <==> MatchesAt(x, name, k)
    {
      SameGroupMeaning(e, x);
    }
    if exists x :: x in raw && MatchesAt(x, name, k) && x.flags.HasAddress() {
      var x :| x in raw && MatchesAt(x, name, k) && x.flags.HasAddress();
      assert x in s;
      var i :| 0 <= i < |s| && s[i] == x;
      assert SameGroup(e, s[i]);
    }
    assert forall i :: 0 <= i < |s| ==> s[i] in s;
  }
}
