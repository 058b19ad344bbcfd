/** Answering from the configured addresses: lookup, verdict and records together (src/rfc1035.rs). */
module LocalReplies {
  import opened Basics
  import opened Names
  import opened Servers
  import opened ServerTable
  import opened ServerFilter
  import opened FilterExactness
  import opened ServerLookup
  import opened LookupMeaning
  import opened LocalAnswers

  // ----- ranges of the table as parts of the configuration -----

  lemma {:induction false} KeepNothing(s: seq<ServerEntry>, p: ServerEntry -> bool)
    requires forall i :: 0 <= i < |s| ==> !p(s[i])
    ensures Keep(s, p) == []
  {
    if s == [] {
    } else {
      KeepNothing(s[1..], p);
    }
  }

  lemma {:induction false} KeepRange(s: seq<ServerEntry>, p: ServerEntry -> bool, lo: nat, hi: nat)
    requires lo <= hi <= |s|
    requires forall i :: 0 <= i < |s| ==> (lo <= i < hi <==> p(s[i]))
    ensures Keep(s, p) == s[lo..hi]
    decreases |s|
  {
    if hi == lo {
      KeepNothing(s, p);
    } else if lo > 0 {
      forall i | 0 <= i < |s[1..]|
        ensures lo - 1 <= i < hi - 1 <==> p(s[1..][i])
      {
        assert s[1..][i] == s[i + 1];
      }
      KeepRange(s[1..], p, lo - 1, hi - 1);
      assert !p(s[0]);
      SliceShift(s, lo, hi);
    } else {
      forall i | 0 <= i < |s[1..]|
        ensures 0 <= i < hi - 1 <==> p(s[1..][i])
      {
        assert s[1..][i] == s[i + 1];
      }
      KeepRange(s[1..], p, 0, hi - 1);
      assert p(s[0]);
      SliceShift(s, 1, hi);
      assert [s[0]] + s[1..hi] == s[0..hi];
    }
  }

  lemma SliceShift(s: seq<ServerEntry>, lo: nat, hi: nat)
    requires 1 <= lo <= hi <= |s|
    ensures s[1..][lo - 1..hi - 1] == s[lo..hi]
  {
  }

  lemma {:induction false} KeepConcat(s: seq<ServerEntry>, t: seq<ServerEntry>, p: ServerEntry -> bool)
    ensures Keep(s + t, p) == Keep(s, p) + Keep(t, p)
  {
    if s == [] {
      assert s + t == t;
    } else {
      var x, rest := s[0], s[1..];
      assert s == [x] + rest && s + t == [x] + (rest + t);
      KeepConcat(rest, t, p);
      KeepCons(x, rest, p);
      KeepCons(x, rest + t, p);
    }
  }

  /** The address of a local entry is of the family its bits say. */
  predicate FamilyAgrees(s: Server) { (s.flags.addr4 ==> s.addr.V4?) && (s.flags.addr6 ==> s.addr.V6?) }

  /** What makes a configuration answerable from its table: local entries as above, upstream entries without addresses,
      and what the table itself needs. */
  ghost predicate WellConfigured(servers: seq<Server>, locals: seq<Server>) {
    && (forall i :: 0 <= i < |locals| ==> OneKind(locals[i].flags) && FamilyAgrees(locals[i]))
    && (forall i :: 0 <= i < |servers| ==> !servers[i].flags.literal && !servers[i].flags.HasAddress())
    && Uniform(RawEntries(servers, locals)) && NodotsAreEmpty(RawEntries(servers, locals))
    && SerialSafe(RawEntries(servers, locals))
  }

  function Table(servers: seq<Server>, locals: seq<Server>): seq<ServerEntry> {
    SortEntries(RawEntries(servers, locals))
  }

  lemma TableIsFit(servers: seq<Server>, locals: seq<Server>)
    requires WellConfigured(servers, locals)
    ensures var s := Table(servers, locals); Sorted(s) && Uniform(s) && NodotsAreEmpty(s)
    ensures forall e :: e in Table(servers, locals) <==> e in RawEntries(servers, locals)
  {
    var raw := RawEntries(servers, locals);
    PreorderIffSerialSafe(raw);
    SortSorts(raw);
    SortIsPermutation(raw);
    SameElements(SortEntries(raw), raw);
  }

  lemma {:induction false} UpstreamFlags(servers: seq<Server>, n: nat)
    requires n <= |servers| && forall i :: 0 <= i < |servers| ==>
               !servers[i].flags.literal && !servers[i].flags.HasAddress()
    ensures forall e :: e in UpstreamEntries(servers, n) ==>
              ClassOf(e) <= 1 && !e.flags.literal && !e.flags.HasAddress()
  {
    if n == 0 {
      assert UpstreamEntries(servers, n) == [];
    } else {
      UpstreamFlags(servers, n - 1);
    }
  }

  /** Class 2 and above are the local entries, and the class says which type bits they carry. */
  lemma LocalClass(servers: seq<Server>, locals: seq<Server>, e: ServerEntry)
    requires WellConfigured(servers, locals) && e in RawEntries(servers, locals)
    ensures e.flags.literal <==> ClassOf(e) >= 2
    ensures ClassOf(e) >= 2 ==>
              && e in LocalEntries(locals) && OneKind(e.flags) && e.isLocal
              && e.index < |locals| && locals[e.index].flags == e.flags
  {
    UpstreamFlags(servers, |servers|);
    if e in LocalEntries(locals) {
      var i :| 0 <= i < |locals| && LocalEntries(locals)[i] == e;
      assert e.index == i;
    }
  }

  /** The entries that `p` selects and that are of class `c`. */
  function OfClass(p: ServerEntry -> bool, c: nat): ServerEntry -> bool {
    (e: ServerEntry) => p(e) && ClassOf(e) == c
  }

  /** Entries of one group and one local class tie in the sort. */
  lemma SameClassTies(servers: seq<Server>, locals: seq<Server>, a: ServerEntry, b: ServerEntry)
    requires WellConfigured(servers, locals) && a in RawEntries(servers, locals) && b in RawEntries(servers, locals)
    requires SameGroup(a, b) && ClassOf(a) == ClassOf(b) >= 2
    ensures CompareEntries(a, b) == Equal
  {
    SameGroupMeaning(a, b);
    assert a.flags.forNodots ==> a.domain == "" && b.domain == "";
    OrderEqualIsSameName(a.domain, b.domain);
    assert |Lower(a.domain)| == |a.domain| && |Lower(b.domain)| == |b.domain|;
    assert a.flags.wildcard == b.flags.wildcard;
    LocalClass(servers, locals, a);
    LocalClass(servers, locals, b);
    assert a.flags.TypeBits() == b.flags.TypeBits();
  }

  /** A range that holds the entries of one group and one local class is that part of the configured local entries, in
      configuration order. */
  lemma RangeInConfigurationOrder(
    servers: seq<Server>, locals: seq<Server>, p: ServerEntry -> bool, c: nat, b: Range)
    requires WellConfigured(servers, locals) && c >= 2 && b.lo <= b.hi <= |Table(servers, locals)|
    requires forall i :: 0 <= i < |Table(servers, locals)| ==>
               (b.lo <= i < b.hi <==> OfClass(p, c)(Table(servers, locals)[i]))
    requires forall x, y :: p(x) && p(y) ==> SameGroup(x, y)
    ensures Table(servers, locals)[b.lo..b.hi] == Keep(LocalEntries(locals), OfClass(p, c))
  {
    var upstream, local := UpstreamEntries(servers, |servers|), LocalEntries(locals);
    var raw, won := upstream + local, OfClass(p, c);
    forall i, j | 0 <= i < j < |raw| && won(raw[i]) && won(raw[j])
      ensures CompareEntries(raw[i], raw[j]) != Greater
    {
      SameClassTies(servers, locals, raw[i], raw[j]);
    }
    SortIsStable(raw, won);
    KeepRange(SortEntries(raw), won, b.lo, b.hi);
    UpstreamFlags(servers, |servers|);
    KeepNothing(upstream, won);
    KeepConcat(upstream, local, won);
  }

  // ----- who wins a lookup -----

  /** `p` selects the entries for names without dots, for a single label whose scan gave nothing specific when one of
      them is allowed; otherwise the entries matching at the longest suffix whose matches are not all refused. */
  ghost predicate Wins(s: seq<ServerEntry>, d: string, f: QueryFlags, p: ServerEntry -> bool) {
    if NodotsDecide(s, d, f) then p == ForNodots()
    else
      exists k: nat ::
        k <= |d| && p == MatchingAt(d, k) && !RefusedAt(s, d, k, f) && forall j :: 0 <= j < k ==> RefusedAt(s, d, j, f)
  }

  lemma MatchingIsOneGroup(d: string, k: nat, x: ServerEntry, y: ServerEntry)
    requires MatchingAt(d, k)(x) && MatchingAt(d, k)(y)
    ensures SameGroup(x, y)
  {
    SameGroupMeaning(x, y);
  }

  lemma NodotsIsOneGroup(x: ServerEntry, y: ServerEntry)
    requires x.flags.forNodots && y.flags.forNodots
    ensures SameGroup(x, y)
  {
    SameGroupMeaning(x, y);
  }

  /** The range holds exactly the entries that `p` selects and that are of its class, the best allowed one. */
  ghost predicate HoldsBest(s: seq<ServerEntry>, p: ServerEntry -> bool, f: QueryFlags, b: Range)
    requires b.lo < b.hi <= |s|
  {
    && BestOf(s, p, f, s[b.lo])
    && forall i :: 0 <= i < |s| ==> (b.lo <= i < b.hi <==> OfClass(p, ClassOf(s[b.lo]))(s[i]))
  }

  /** A result of class 2 or above holds the entries of that class that the winning selection has, and no better class
      of the selection is allowed. */
  lemma WinnersOf(s: seq<ServerEntry>, d: string, f: QueryFlags, b: Range) returns (p: ServerEntry -> bool)
    requires Sorted(s) && Uniform(s) && NodotsAreEmpty(s) && !f.config && !f.server && !f.ds
    requires ReferenceLookup(s, d, f) == Some(b)
    ensures b.lo < b.hi <= |s|
    ensures ClassOf(s[b.lo]) >= 2 ==>
              && Wins(s, d, f, p) && HoldsBest(s, p, f, b)
              && (forall x, y :: p(x) && p(y) ==> SameGroup(x, y))
  {
    var k, a, scan, g := LookupMeans(s, d, f);
    if IsSingleLabel(d) && !f.dnssecOk && NothingSpecific(s, scan) && !BlockOffers(s, g, scan.flags, None) {
      p := ForNodots();
      forall x, y | p(x) && p(y)
        ensures SameGroup(x, y)
      {
        NodotsIsOneGroup(x, y);
      }
      BlockWinners(s, g, f, scan.flags, b);
    } else {
      p := MatchingAt(d, k);
      forall x, y | p(x) && p(y)
        ensures SameGroup(x, y)
      {
        MatchingIsOneGroup(d, k, x, y);
      }
      ScanWinners(s, d, k, f, a, scan, b);
    }
  }

  lemma ScanWinners(s: seq<ServerEntry>, d: string, k: nat, f: QueryFlags, a: Range, scan: Scan, b: Range)
    requires k <= |d| && Decides(s, d, k, f, a, scan) && scan.found == Some(b) && !f.config
    ensures b.lo < b.hi <= |s|
    ensures ClassOf(s[b.lo]) >= 2 ==>
              scan.flags == f && HoldsBest(s, MatchingAt(d, k), f, b) && !RefusedAt(s, d, k, f)
  {
    if ClassOf(s[b.lo]) >= 2 {
      assert a == b && MatchesAt(s[b.lo], d, k);
      AnswerIsBest(s, d, k, f, b, b.lo);
    }
  }

  lemma BlockWinners(s: seq<ServerEntry>, g: Range, f: QueryFlags, f': QueryFlags, b: Range)
    requires NodotsBlock(s, g) && BlockOffers(s, g, f', Some(b)) && (f' == f || f' == f.(server := true)) && !f.config
    ensures b.lo < b.hi <= |s|
    ensures ClassOf(s[b.lo]) >= 2 ==>
              f' == f && s[b.lo].flags.forNodots && EntryAllowed(s[b.lo], f) && HoldsBest(s, ForNodots(), f, b)
  {
    if ClassOf(s[b.lo]) >= 2 {
      NodotsIsBest(s, g, f', b, b.lo);
    }
  }

  // ----- the reply -----

  datatype Reply = Forwarded | NoSuchName | NoData | Answered(answers: seq<Rr>)

  /** The flags of a question for IPv4 addresses, IPv6 addresses, both or something else. */
  function Asking(q4: bool, q6: bool): QueryFlags { QueryFlags(false, false, false, q4, q6, false, false) }

  function RangeRecords(
    s: seq<ServerEntry>, locals: seq<Server>, b: Range, v4: bool, v6: bool, name: string, ttl: nat): seq<Rr>
  {
    (if v4 then Records(InRange(s, b.lo, b.hi), locals, false, name, ttl) else [])
    + (if v6 then Records(InRange(s, b.lo, b.hi), locals, true, name, ttl) else [])
  }

  function VerdictReply(
    v: Verdict, s: seq<ServerEntry>, locals: seq<Server>, b: Range, q4: bool, q6: bool, name: string, ttl: nat): Reply
  {
    match v
    case NotLocal => Forwarded
    case NxDomain => NoSuchName
    case NoErr => NoData
    case Ipv4 => Answered(RangeRecords(s, locals, b, q4, false, name, ttl))
    case Ipv6 => Answered(RangeRecords(s, locals, b, false, q6, name, ttl))
    case BothFamilies => Answered(RangeRecords(s, locals, b, q4, q6, name, ttl))
  }

  function ReplyOf(
    s: seq<ServerEntry>, locals: seq<Server>, name: string, q4: bool, q6: bool, known: bool, ttl: nat): Reply
  {
    match ReferenceLookup(s, name, Asking(q4, q6))
    case None => Forwarded
    case Some(b) => VerdictReply(VerdictOf(s, b.lo, known), s, locals, b, q4, q6, name, ttl)
  }

  /** The step of answering a question that turns to the configured addresses: look the name up, ask for the verdict,
      and make the records of the families that are both configured and asked for. */
  method AnswerLocally(arr: ServerArray, locals: seq<Server>, name: string, q4: bool, q6: bool, known: bool, ttl: nat)
    returns (reply: Reply)
    requires ValidTable(arr)
    ensures reply == ReplyOf(arr.entries, locals, name, q4, q6, known, ttl)
  {
    var r := Lookup(arr, name, Asking(q4, q6));
    if r.None? {
      return Forwarded;
    }
    var first, last := r.value.lo, r.value.hi;
    var v := IsLocalAnswer(arr, first, known);
    if v == NxDomain {
      return NoSuchName;
    } else if v == NoErr {
      return NoData;
    } else if v == NotLocal {
      return Forwarded;
    }
    var v4, v6 := q4 && v != Ipv6, q6 && v != Ipv4;
    var answers := MakeLocalAnswer(arr, locals, first, last, v4, v6, name, ttl);
    reply := Answered(answers);
  }

  /** The address of an entry in one family: the unspecified one for all-zeros entries. */
  function AddressOf(e: ServerEntry, locals: seq<Server>, v6: bool): seq<int> {
    if e.flags.allZeros then seq(if v6 then 16 else 4, _ => 0)
    else if e.index < |locals| then locals[e.index].addr.ip
    else []
  }

  /** One record for each entry, in order. */
  function AddressRecords(es: seq<ServerEntry>, locals: seq<Server>, v6: bool, name: string, ttl: nat): seq<Rr> {
    seq(|es|, i requires 0 <= i < |es| =>
      Rr(name, if v6 then T_AAAA else T_A, ttl, AddressOf(es[i], locals, v6)))
  }

  lemma {:induction false} OneRecordEach(es: seq<ServerEntry>, locals: seq<Server>, v6: bool, name: string, ttl: nat)
    requires forall i :: 0 <= i < |es| ==>
               es[i].flags.allZeros || (es[i].index < |locals| && locals[es[i].index].addr.V6? == v6)
    ensures Records(es, locals, v6, name, ttl) == AddressRecords(es, locals, v6, name, ttl)
  {
    if es == [] {
      assert Records(es, locals, v6, name, ttl) == [];
    } else {
      OneRecordEach(es[1..], locals, v6, name, ttl);
    }
  }

  /** The address records a question gets from the winning entries of class `c`. */
  function WonRecords(
    won: seq<ServerEntry>, c: nat, locals: seq<Server>, q4: bool, q6: bool, name: string, ttl: nat): seq<Rr>
  {
    (if c != 5 && q4 then AddressRecords(won, locals, false, name, ttl) else [])
    + (if c != 4 && q6 then AddressRecords(won, locals, true, name, ttl) else [])
  }

  /** Entries of a local class have the family of the class. */
  lemma WonAreOfFamily(servers: seq<Server>, locals: seq<Server>, e: ServerEntry, c: nat, v6: bool)
    requires WellConfigured(servers, locals) && e in RawEntries(servers, locals) && ClassOf(e) == c >= 3
    requires c == 3 || (c == 5) == v6
    ensures e.flags.allZeros || (e.index < |locals| && locals[e.index].addr.V6? == v6)
  {
    LocalClass(servers, locals, e);
    assert FamilyAgrees(locals[e.index]);
  }

  lemma RangeGivesRecords(
    servers: seq<Server>, locals: seq<Server>, es: seq<ServerEntry>, c: nat, v6: bool, name: string, ttl: nat)
    requires WellConfigured(servers, locals) && c >= 3 && (c == 3 || (c == 5) == v6)
    requires forall i :: 0 <= i < |es| ==> es[i] in RawEntries(servers, locals) && ClassOf(es[i]) == c
    ensures Records(es, locals, v6, name, ttl) == AddressRecords(es, locals, v6, name, ttl)
  {
    forall i | 0 <= i < |es|
      ensures es[i].flags.allZeros || (es[i].index < |locals| && locals[es[i].index].addr.V6? == v6)
    {
      WonAreOfFamily(servers, locals, es[i], c, v6);
    }
    OneRecordEach(es, locals, v6, name, ttl);
  }

  /** The verdict on a position follows its class. */
  lemma VerdictFollowsClass(servers: seq<Server>, locals: seq<Server>, first: nat, known: bool)
    requires WellConfigured(servers, locals) && first < |Table(servers, locals)|
    ensures var s := Table(servers, locals);
            VerdictOf(s, first, known)
              == match ClassOf(s[first])
                 case 5 => Ipv6
                 case 4 => Ipv4
                 case 3 => BothFamilies
                 case 2 => if known || GroupHasAddress(s, s[first]) then NoErr else NxDomain
                 case _ => NotLocal
  {
    var s := Table(servers, locals);
    TableIsFit(servers, locals);
    assert s[first] in s;
    LocalClass(servers, locals, s[first]);
    if ClassOf(s[first]) == 2 {
      FirstEntrySpeaksForGroup(s, s[first]);
      UniformHasNoHiddenAddress(s, s[first]);
    }
  }

  lemma UniformHasNoHiddenAddress(s: seq<ServerEntry>, e: ServerEntry)
    requires Uniform(s)
    ensures !AddressOnlyOnWildcard(s, e)
  {
    if exists i :: 0 <= i < |s| && SameGroup(e, s[i]) && !s[i].flags.wildcard {
      var i :| 0 <= i < |s| && SameGroup(e, s[i]) && !s[i].flags.wildcard;
      forall j | 0 <= j < |s| && SameGroup(e, s[j])
        ensures !s[j].flags.wildcard
      {
        GroupStepsAgree(e, s[i], s[j]);
        assert s[i] in s && s[j] in s;
      }
    }
  }

  /** The reply that the winning range `b` of the table `s` gives. */
  ghost function ExpectedReply(
    s: seq<ServerEntry>, b: Range, locals: seq<Server>, name: string, q4: bool, q6: bool, known: bool, ttl: nat): Reply
    requires b.lo < b.hi <= |s|
  {
    var c := ClassOf(s[b.lo]);
    if c < 2 then Forwarded
    else if c == 2 then if known || GroupHasAddress(s, s[b.lo]) then NoData else NoSuchName
    else Answered(WonRecords(s[b.lo..b.hi], c, locals, q4, q6, name, ttl))
  }

  lemma RangeReply(
    servers: seq<Server>, locals: seq<Server>, s: seq<ServerEntry>, p: ServerEntry -> bool, b: Range,
    name: string, q4: bool, q6: bool, known: bool, ttl: nat)
    requires WellConfigured(servers, locals) && s == Table(servers, locals) && b.lo < b.hi <= |s|
    requires ClassOf(s[b.lo]) >= 2 ==>
               forall i :: 0 <= i < |s| ==> (b.lo <= i < b.hi <==> OfClass(p, ClassOf(s[b.lo]))(s[i]))
    ensures VerdictReply(VerdictOf(s, b.lo, known), s, locals, b, q4, q6, name, ttl)
         == ExpectedReply(s, b, locals, name, q4, q6, known, ttl)
  {
    var c := ClassOf(s[b.lo]);
    VerdictFollowsClass(servers, locals, b.lo, known);
    if c >= 3 {
      RangeAnswers(servers, locals, s, p, c, b, q4, q6, name, ttl);
    }
  }

  /** What the reply means in terms of the configuration. A name for which the lookup finds nothing, or real servers, is
      forwarded. A winning domain without addresses gives "no data" if the name is known or some entry of the domain has
      an address, and "no such name" otherwise. A winning class with addresses gives exactly one record per family asked
      for and per configured address of the winning selection, in its best allowed class, in configuration order. */
  lemma ReplyMeans(
    servers: seq<Server>, locals: seq<Server>, name: string, q4: bool, q6: bool, known: bool, ttl: nat)
    returns (p: ServerEntry -> bool)
    requires WellConfigured(servers, locals)
    ensures var s, f := Table(servers, locals), Asking(q4, q6);
            var reply := ReplyOf(s, locals, name, q4, q6, known, ttl);
            match ReferenceLookup(s, name, f)
            case None => reply == Forwarded
            case Some(b) =>
              && b.lo < b.hi <= |s| && reply == ExpectedReply(s, b, locals, name, q4, q6, known, ttl)
              && (ClassOf(s[b.lo]) >= 2 ==>
                   && Wins(s, name, f, p) && BestOf(s, p, f, s[b.lo])
                   && s[b.lo..b.hi] == Keep(LocalEntries(locals), OfClass(p, ClassOf(s[b.lo]))))
  {
    var s, f := Table(servers, locals), Asking(q4, q6);
    TableIsFit(servers, locals);
    p := ForNodots();
    var r := ReferenceLookup(s, name, f);
    if r.Some? {
      p := WinnersOf(s, name, f, r.value);
      RangeReply(servers, locals, s, p, r.value, name, q4, q6, known, ttl);
      if ClassOf(s[r.value.lo]) >= 2 {
        RangeInConfigurationOrder(servers, locals, p, ClassOf(s[r.value.lo]), r.value);
      }
    }
  }

  lemma RangeIsOfClass(
    servers: seq<Server>, locals: seq<Server>, s: seq<ServerEntry>, p: ServerEntry -> bool, c: nat, b: Range, i: nat)
    requires WellConfigured(servers, locals) && s == Table(servers, locals) && b.lo <= b.hi <= |s| && i < b.hi - b.lo
    requires forall i :: 0 <= i < |s| ==> (b.lo <= i < b.hi <==> OfClass(p, c)(s[i]))
    ensures s[b.lo..b.hi][i] in RawEntries(servers, locals) && ClassOf(s[b.lo..b.hi][i]) == c
  {
    TableIsFit(servers, locals);
    assert s[b.lo..b.hi][i] == s[b.lo + i] && s[b.lo + i] in s;
    assert OfClass(p, c)(s[b.lo + i]);
  }

  lemma RangeAnswers(
    servers: seq<Server>, locals: seq<Server>, s: seq<ServerEntry>, p: ServerEntry -> bool, c: nat, b: Range,
    q4: bool, q6: bool, name: string, ttl: nat)
    requires WellConfigured(servers, locals) && s == Table(servers, locals) && 3 <= c <= 5 && b.lo < b.hi <= |s|
    requires forall i :: 0 <= i < |s| ==> (b.lo <= i < b.hi <==> OfClass(p, c)(s[i]))
    ensures RangeRecords(s, locals, b, q4 && c != 5, q6 && c != 4, name, ttl)
         == WonRecords(s[b.lo..b.hi], c, locals, q4, q6, name, ttl)
  {
    var es := s[b.lo..b.hi];
    assert InRange(s, b.lo, b.hi) == es;
    forall i | 0 <= i < |es|
      ensures es[i] in RawEntries(servers, locals) && ClassOf(es[i]) == c
    {
      RangeIsOfClass(servers, locals, s, p, c, b, i);
    }
    if c != 5 {
      RangeGivesRecords(servers, locals, es, c, false, name, ttl);
    }
    if c != 4 {
      RangeGivesRecords(servers, locals, es, c, true, name, ttl);
    }
  }
}
