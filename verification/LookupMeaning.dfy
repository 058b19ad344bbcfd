/** What the linear scan means, without reference to the order of the table. */
module LookupMeaning {
  import opened Basics
  import opened Names
  import opened Servers
  import opened ServerTable
  import opened ServerFilter
  import opened ServerLookup

  /** The entry's domain is the suffix of `d` at `start`, and it may match there. */
  ghost predicate MatchesAt(e: ServerEntry, d: string, start: nat) {
    && start <= |d| && !e.flags.forNodots
    && SameName(d[start..], e.domain)
    && (LabelStart(d, start) || e.flags.wildcard)
  }

  /** For a plain entry, matching at some suffix is what `domain_matches` decides. */
  lemma PlainMatchIsDomainMatches(e: ServerEntry, d: string)
    requires !e.flags.forNodots && !e.flags.wildcard
    ensures (exists start: nat :: MatchesAt(e, d, start)) <==> DomainMatches(d, e.domain)
  {
    DomainMatchesIsAlignedSuffix(d, e.domain);
    if DomainMatches(d, e.domain) {
      assert MatchesAt(e, d, |d| - |e.domain|);
    }
    forall start: nat | MatchesAt(e, d, start)
      ensures DomainMatches(d, e.domain)
    {
      assert |Lower(d[start..])| == |d| - start && |Lower(e.domain)| == |e.domain|;
    }
  }

  /** No domain has both plain and wildcard entries. */
  ghost predicate Uniform(s: seq<ServerEntry>) {
    forall a, b :: a in s && b in s && SameGroup(a, b) ==> a.flags.wildcard == b.flags.wildcard
  }

  /** Every entry matching at `start` is refused by the flags. */
  ghost predicate RefusedAt(s: seq<ServerEntry>, d: string, start: nat, f: QueryFlags) {
    forall i :: 0 <= i < |s| && MatchesAt(s[i], d, start) ==>
      if f.config then !s[i].flags.HasAddress() else !EntryAllowed(s[i], f)
  }

  /** `b` holds exactly the entries matching at `start` that are of the best allowed class;
      for a query for local addresses, all of them. */
  ghost predicate AnswerAt(s: seq<ServerEntry>, d: string, start: nat, f: QueryFlags, b: Range) {
    && b.lo < b.hi <= |s|
    && if f.config then
         && (forall i :: 0 <= i < |s| ==> (b.lo <= i < b.hi <==> MatchesAt(s[i], d, start)))
         && (exists i :: b.lo <= i < b.hi && s[i].flags.HasAddress())
       else
         && (forall i :: 0 <= i < |s| ==>
              (b.lo <= i < b.hi <==> MatchesAt(s[i], d, start) && ClassOf(s[i]) == ClassOf(s[b.lo])))
         && EntryAllowed(s[b.lo], f)
         && (forall i :: 0 <= i < |s| && MatchesAt(s[i], d, start) && ClassOf(s[i]) > ClassOf(s[b.lo]) ==>
              !EntryAllowed(s[i], f))
  }

  /** The members of the suffix's group are the entries matching there, all or none of them. */
  lemma GroupMatches(s: seq<ServerEntry>, d: string, start: nat)
    requires Sorted(s) && Uniform(s) && start <= |d|
    ensures var g := GroupOf(s, Probe(d[start..]));
            if LabelStart(d, start) || HasWildcard(s, g.lo, g.hi)
            then forall i :: 0 <= i < |s| ==> (g.lo <= i < g.hi <==> MatchesAt(s[i], d, start))
            else forall i :: 0 <= i < |s| ==> !MatchesAt(s[i], d, start)
  {
    var q := d[start..];
    var g := GroupOf(s, Probe(q));
    GroupOfIsGroup(s, Probe(q));
    HasWildcardMeaning(s, g.lo, g.hi);
    forall i | 0 <= i < |s|
      ensures SameGroup(Probe(q), s[i]) <==> !s[i].flags.forNodots && SameName(q, s[i].domain)
    {
      OrderEntryZero(q, s[i]);
    }
    GroupIsUniform(s, Probe(q), g);
  }

  /** A suffix offers nothing exactly when all its matches are refused; what it offers is the best class. */
  lemma CandidateMeaning(s: seq<ServerEntry>, d: string, start: nat, f: QueryFlags)
    requires Sorted(s) && Uniform(s) && start <= |d|
    ensures Candidate(s, d, start, f).None? <==> RefusedAt(s, d, start, f)
    ensures Candidate(s, d, start, f).Some? ==> AnswerAt(s, d, start, f, Candidate(s, d, start, f).value)
  {
    var q := d[start..];
    var g := GroupOf(s, Probe(q));
    GroupMatches(s, d, start);
    if g.lo < g.hi && (LabelStart(d, start) || HasWildcard(s, g.lo, g.hi)) {
      if f.config {
        AnyAddressMeaning(s, g.lo, g.hi);
      } else {
        GroupOffers(s, Probe(q), f);
      }
    }
  }

  /** Result of a scan that is sent to the catch-all because it met "use resolv.conf" entries. */
  ghost predicate CatchAllResult(s: seq<ServerEntry>, d: string, f: QueryFlags, r: Scan) {
    && r.flags == f
    && match r.found
       case None => RefusedAt(s, d, |d|, f) || exists b :: AnswerAt(s, d, |d|, f, b) && s[b.lo].flags.useResolv
       case Some(b) => AnswerAt(s, d, |d|, f, b) && !s[b.lo].flags.useResolv
  }

  lemma CatchAllScan(s: seq<ServerEntry>, d: string, f: QueryFlags)
    requires Sorted(s) && Uniform(s)
    requires f.server
    ensures CatchAllResult(s, d, f, LongestFirst(s, d, |d|, f))
  {
    CandidateMeaning(s, d, |d|, f);
    assert f.(server := true) == f;
    ScanEnds(s, d, f);
    match Candidate(s, d, |d|, f) {
      case None => SkipOne(s, d, |d|, f);
      case Some(b) =>
        if s[b.lo].flags.useResolv {
          FollowResolv(s, d, |d|, |d| + 1, f, b);
        } else {
          ScanStops(s, d, |d|, f, b);
        }
    }
  }

  lemma ScanEnds(s: seq<ServerEntry>, d: string, f: QueryFlags)
    ensures LongestFirst(s, d, |d| + 1, f) == Scan(None, f)
  {
  }

  /** The best class `b` of the suffix at `k` makes the result `r`. */
  ghost predicate Decides(s: seq<ServerEntry>, d: string, k: nat, f: QueryFlags, b: Range, r: Scan) {
    && AnswerAt(s, d, k, f, b)
    && if !s[b.lo].flags.useResolv then r == Scan(Some(b), f)
       else if k == |d| then r == Scan(None, f.(server := true))
       else CatchAllResult(s, d, f.(server := true), r)
  }

  lemma OfferDecides(s: seq<ServerEntry>, d: string, start: nat, f: QueryFlags, b: Range)
    requires Sorted(s) && Uniform(s) && start <= |d| && Candidate(s, d, start, f) == Some(b)
    ensures Decides(s, d, start, f, b, LongestFirst(s, d, start, f))
  {
    CandidateMeaning(s, d, start, f);
    if s[b.lo].flags.useResolv {
      FollowResolv(s, d, start, if start == |d| then start + 1 else |d|, f, b);
      ScanEnds(s, d, f.(server := true));
      CatchAllScan(s, d, f.(server := true));
    } else {
      ScanStops(s, d, start, f, b);
    }
  }

  lemma NoOfferIsRefused(s: seq<ServerEntry>, d: string, start: nat, f: QueryFlags)
    requires Sorted(s) && Uniform(s) && start <= |d| && Candidate(s, d, start, f).None?
    ensures RefusedAt(s, d, start, f) && LongestFirst(s, d, start, f) == LongestFirst(s, d, start + 1, f)
  {
    CandidateMeaning(s, d, start, f);
    SkipOne(s, d, start, f);
  }

  /** The longest suffix of `d` from `start` on that is not refused decides the result `r` of the scan: its best class
      is the answer, unless that class says "use resolv.conf", which sends the scan to the catch-all. */
  lemma {:induction false} LongestMatchWins(s: seq<ServerEntry>, d: string, start: nat, f: QueryFlags, r: Scan)
    returns (k: nat, b: Range)
    requires Sorted(s) && Uniform(s) && start <= |d| + 1 && r == LongestFirst(s, d, start, f)
    ensures start <= k <= |d| + 1
    ensures forall j :: start <= j < k ==> RefusedAt(s, d, j, f)
    ensures k == |d| + 1 ==> r == Scan(None, f)
    ensures k <= |d| ==> Decides(s, d, k, f, b, r)
    decreases |d| + 1 - start
  {
    if start > |d| {
      k, b := start, Range(0, 0);
      ScanEnds(s, d, f);
    } else if Candidate(s, d, start, f).None? {
      NoOfferIsRefused(s, d, start, f);
      k, b := LongestMatchWins(s, d, start + 1, f, r);
    } else {
      k, b := start, Candidate(s, d, start, f).value;
      OfferDecides(s, d, start, f, b);
    }
  }

  // ----- the fallback for names without dots -----

  /** `g` holds exactly the entries for names without dots. */
  ghost predicate NodotsBlock(s: seq<ServerEntry>, g: Range) {
    && g.lo <= g.hi <= |s|
    && forall i :: 0 <= i < |s| ==> (g.lo <= i < g.hi <==> s[i].flags.forNodots)
  }

  /** `r` is the best allowed class of the block, or none; for a query for local addresses, the block if it has any. */
  ghost predicate BlockOffers(s: seq<ServerEntry>, g: Range, f: QueryFlags, r: Option<Range>)
    requires g.lo <= g.hi <= |s|
  {
    if f.config then
      r == if exists i :: g.lo <= i < g.hi && s[i].flags.HasAddress() then Some(g) else None
    else BestClass(s, g, f, r)
  }

  lemma GroupIsUniform(s: seq<ServerEntry>, e: ServerEntry, g: Range)
    requires Uniform(s) && IsGroup(s, e, g)
    ensures forall i, j :: g.lo <= i < g.hi && g.lo <= j < g.hi ==> s[i].flags.wildcard == s[j].flags.wildcard
  {
    forall i, j | g.lo <= i < g.hi && g.lo <= j < g.hi
      ensures s[i].flags.wildcard == s[j].flags.wildcard
    {
      assert SameGroup(e, s[i]) && SameGroup(e, s[j]);
      GroupStepsAgree(e, s[i], s[j]);
      assert s[i] in s && s[j] in s;
    }
  }

  /** In a uniform table a group offers its best allowed class. */
  lemma GroupOffers(s: seq<ServerEntry>, e: ServerEntry, f: QueryFlags)
    requires Sorted(s) && Uniform(s) && (e.flags.forNodots ==> NodotsAreEmpty(s))
    ensures IsGroup(s, e, GroupOf(s, e)) && BlockOffers(s, GroupOf(s, e), f, Choose(s, GroupOf(s, e), f))
  {
    var g := GroupOf(s, e);
    GroupOfIsGroup(s, e);
    if f.config {
      AnyAddressMeaning(s, g.lo, g.hi);
    } else {
      GroupIsUniform(s, e, g);
      UniformGroupDescends(s, e, g);
      ChooseIsBestClass(s, e, g, f);
    }
  }

  /** The entries for names without dots stand at the end of the table. */
  lemma NodotsAreLast(s: seq<ServerEntry>) returns (g: Range)
    requires Sorted(s)
    ensures NodotsBlock(s, g)
    ensures s != [] && s[|s| - 1].flags.forNodots ==> g == GroupOf(s, s[|s| - 1])
    ensures s != [] && !s[|s| - 1].flags.forNodots ==> g.lo == g.hi
  {
    if s == [] {
      g := Range(0, 0);
    } else {
      var last := s[|s| - 1];
      if last.flags.forNodots {
        g := GroupOf(s, last);
        GroupOfIsGroup(s, last);
        forall i | 0 <= i < |s|
          ensures g.lo <= i < g.hi <==> s[i].flags.forNodots
        {
          SameGroupMeaning(last, s[i]);
        }
      } else {
        g := Range(0, 0);
        forall i | 0 <= i < |s|
          ensures !s[i].flags.forNodots
        {
          LengthsDescend(s, i, |s| - 1);
        }
      }
    }
  }

  /** The scan ended with nothing or with a catch-all. */
  predicate NothingSpecific(s: seq<ServerEntry>, scan: Scan) {
    scan.found.None? || (scan.found.value.lo < |s| && s[scan.found.value.lo].domain == "")
  }

  /** What the whole lookup returns when the scan gave `scan` and the no-dots entries are those of `g`. */
  ghost predicate LookupGives(s: seq<ServerEntry>, d: string, f: QueryFlags, scan: Scan, g: Range, r: Option<Range>)
    requires g.lo <= g.hi <= |s|
  {
    if IsSingleLabel(d) && !f.dnssecOk && NothingSpecific(s, scan) && !BlockOffers(s, g, scan.flags, None)
    then r.Some? && BlockOffers(s, g, scan.flags, r)
    else r == scan.found
  }

  lemma FallbackGives(s: seq<ServerEntry>, d: string, f: QueryFlags, scan: Scan) returns (g: Range)
    requires s != [] && Sorted(s) && Uniform(s) && NodotsAreEmpty(s)
    requires scan.found.Some? ==> scan.found.value.lo < |s|
    ensures NodotsBlock(s, g) && LookupGives(s, d, f, scan, g, Fallback(s, d, scan, f.dnssecOk))
  {
    g := NodotsAreLast(s);
    if s[|s| - 1].flags.forNodots {
      GroupOffers(s, s[|s| - 1], scan.flags);
    }
  }

  /** What a lookup means, for every uniform table, name and flag set. The longest suffix `k` with a match that the
      flags do not refuse decides the scan with its best class `b`, or sends it to the catch-all. A single label for
      which this gave nothing or a catch-all gets the best allowed class of the entries for names without dots, if
      they have one. */
  lemma LookupMeans(s: seq<ServerEntry>, query: string, f: QueryFlags)
    returns (k: nat, b: Range, scan: Scan, g: Range)
    requires Sorted(s) && Uniform(s) && NodotsAreEmpty(s)
    ensures var d := LookedUp(query, f);
            && k <= |d| + 1 && (forall j :: 0 <= j < k ==> RefusedAt(s, d, j, f))
            && (k == |d| + 1 ==> scan == Scan(None, f))
            && (k <= |d| ==> Decides(s, d, k, f, b, scan))
            && scan == LongestFirst(s, d, 0, f)
            && NodotsBlock(s, g) && LookupGives(s, d, f, scan, g, ReferenceLookup(s, query, f))
  {
    var d := LookedUp(query, f);
    scan := LongestFirst(s, d, 0, f);
    k, b := LongestMatchWins(s, d, 0, f, scan);
    if s == [] {
      g := NodotsAreLast(s);
    } else {
      g := FallbackGives(s, d, f, scan);
    }
  }

  // ----- letter case does not matter -----

  lemma SameNameTail(a: string, b: string, start: nat)
    requires SameName(a, b) && start <= |a|
    ensures |a| == |b| && SameName(a[start..], b[start..]) && (LabelStart(a, start) <==> LabelStart(b, start))
  {
    SameNameIff(a, b);
    SameNameIff(a[start..], b[start..]);
  }

  lemma SameProbe(a: string, b: string, e: ServerEntry)
    requires SameName(a, b)
    ensures SameGroup(Probe(a), e) <==> SameGroup(Probe(b), e)
  {
    SameGroupMeaning(Probe(a), e);
    SameGroupMeaning(Probe(b), e);
  }

  lemma {:induction false} SameGroupStart(s: seq<ServerEntry>, a: string, b: string, i: nat)
    requires SameName(a, b) && i <= |s|
    ensures GroupStart(s, Probe(a), i) == GroupStart(s, Probe(b), i)
    ensures GroupEnd(s, Probe(a), i) == GroupEnd(s, Probe(b), i)
    decreases |s| - i
  {
    if i == |s| {
    } else {
      SameProbe(a, b, s[i]);
      SameGroupStart(s, a, b, i + 1);
    }
  }

  lemma SameCandidate(s: seq<ServerEntry>, a: string, b: string, start: nat, f: QueryFlags)
    requires SameName(a, b) && start <= |a| == |b|
    ensures Candidate(s, a, start, f) == Candidate(s, b, start, f)
  {
    SameNameTail(a, b, start);
    SameGroupStart(s, a[start..], b[start..], 0);
    SameGroupStart(s, a[start..], b[start..], GroupStart(s, Probe(a[start..]), 0));
  }

  lemma {:induction false} SameScan(s: seq<ServerEntry>, a: string, b: string, start: nat, f: QueryFlags)
    requires SameName(a, b) && start <= |a| + 1 && |a| == |b|
    ensures LongestFirst(s, a, start, f) == LongestFirst(s, b, start, f)
    decreases |a| + 1 - start
  {
    if start > |a| {
    } else {
      SameCandidate(s, a, b, start, f);
      SameScan(s, a, b, start + 1, f);
      if start < |a| {
        SameScan(s, a, b, |a|, f.(server := true));
      } else {
        ScanEnds(s, a, f.(server := true));
        ScanEnds(s, b, f.(server := true));
      }
    }
  }

  lemma SameLookedUp(a: string, b: string, f: QueryFlags)
    requires SameName(a, b)
    ensures SameName(LookedUp(a, f), LookedUp(b, f))
    ensures IsSingleLabel(LookedUp(a, f)) <==> IsSingleLabel(LookedUp(b, f))
  {
    SameNameIff(a, b);
    var i, j := IndexOf(a, '.', 0), IndexOf(b, '.', 0);
    assert i == j by {
      assert i < |a| ==> b[i] == '.';
      assert j < |b| ==> a[j] == '.';
    }
    if i < |a| {
      SameNameTail(a, b, i + 1);
    }
    var x, y := LookedUp(a, f), LookedUp(b, f);
    SameNameIff(x, y);
    assert forall k :: 0 <= k < |x| ==> (x[k] == '.' <==> y[k] == '.');
  }

  /** Names that are the same up to letter case are looked up alike, in every table and for all flags. */
  lemma SameNameSameLookup(s: seq<ServerEntry>, a: string, b: string, f: QueryFlags)
    requires SameName(a, b)
    ensures ReferenceLookup(s, a, f) == ReferenceLookup(s, b, f)
  {
    SameLookedUp(a, b, f);
    var x, y := LookedUp(a, f), LookedUp(b, f);
    SameNameTail(x, y, 0);
    SameScan(s, x, y, 0, f);
  }

  // ----- which entries a lookup returns -----

  /** The entries matching at suffix `k`. */
  ghost function MatchingAt(d: string, k: nat): ServerEntry -> bool { (e: ServerEntry) => MatchesAt(e, d, k) }

  /** The entries for names without dots. */
  ghost function ForNodots(): ServerEntry -> bool { (e: ServerEntry) => e.flags.forNodots }

  /** Among the entries that `p` selects, `e` is of the best class that the flags allow. */
  ghost predicate BestOf(s: seq<ServerEntry>, p: ServerEntry -> bool, f: QueryFlags, e: ServerEntry) {
    && p(e) && EntryAllowed(e, f)
    && forall i :: 0 <= i < |s| && p(s[i]) && EntryAllowed(s[i], f) ==> ClassOf(s[i]) <= ClassOf(e)
  }

  /** A single label that got nothing specific, and some entry for names without dots is allowed. */
  ghost predicate NodotsDecide(s: seq<ServerEntry>, d: string, f: QueryFlags) {
    && IsSingleLabel(d) && !f.dnssecOk && NothingSpecific(s, LongestFirst(s, d, 0, f))
    && exists i :: 0 <= i < |s| && s[i].flags.forNodots && EntryAllowed(s[i], f)
  }

  lemma AnswerIsBest(s: seq<ServerEntry>, d: string, k: nat, f: QueryFlags, b: Range, i: nat)
    requires AnswerAt(s, d, k, f, b) && !f.config && i < |s|
    ensures b.lo <= i < b.hi <==> BestOf(s, MatchingAt(d, k), f, s[i])
  {
    assert MatchesAt(s[b.lo], d, k);
    if MatchesAt(s[i], d, k) {
      assert |Lower(d[k..])| == |Lower(s[i].domain)| == |Lower(s[b.lo].domain)|;
    }
  }

  lemma NodotsIsBest(s: seq<ServerEntry>, g: Range, f: QueryFlags, b: Range, i: nat)
    requires NodotsBlock(s, g) && BestClass(s, g, f, Some(b)) && i < |s|
    ensures b.lo <= i < b.hi <==> BestOf(s, ForNodots(), f, s[i])
  {
    assert s[b.lo].flags.forNodots;
  }

  /** Some entry matching at suffix `k` says "use resolv.conf" and nothing else. */
  ghost predicate SaysResolv(s: seq<ServerEntry>, d: string, k: nat) {
    exists i :: 0 <= i < |s| && MatchesAt(s[i], d, k) && ClassOf(s[i]) == 1
  }

  /** The suffix whose entries a lookup for real servers returns when suffix `k` decides. */
  ghost function ServingSuffix(s: seq<ServerEntry>, d: string, k: nat): nat {
    if SaysResolv(s, d, k) then |d| else k
  }

  predicate Returned(r: Option<Range>, i: nat) { r.Some? && r.value.lo <= i < r.value.hi }

  lemma ScanReturnsIff(s: seq<ServerEntry>, d: string, k: nat, f: QueryFlags, b: Range, scan: Scan, i: nat)
    requires k <= |d| && Decides(s, d, k, f, b, scan) && f.server && !f.config && i < |s|
    ensures scan.flags == f
    ensures Returned(scan.found, i) <==>
            ClassOf(s[i]) == 0 && BestOf(s, MatchingAt(d, ServingSuffix(s, d, k)), f, s[i])
  {
    assert f.(server := true) == f;
    AnswerIsBest(s, d, k, f, b, i);
    AnswerIsBest(s, d, k, f, b, b.lo);
    assert ClassOf(s[b.lo]) <= 1;
    if ClassOf(s[b.lo]) == 0 {
      assert !SaysResolv(s, d, k);
    } else {
      assert SaysResolv(s, d, k);
      CatchAllReturnsIff(s, d, k, f, b, scan, i);
    }
  }

  lemma CatchAllReturnsIff(s: seq<ServerEntry>, d: string, k: nat, f: QueryFlags, b: Range, scan: Scan, i: nat)
    requires k <= |d| && Decides(s, d, k, f, b, scan) && f.server && !f.config && i < |s| && ClassOf(s[b.lo]) == 1
    ensures Returned(scan.found, i) <==> ClassOf(s[i]) == 0 && BestOf(s, MatchingAt(d, |d|), f, s[i])
  {
    assert f.(server := true) == f;
    if k == |d| {
      AnswerIsBest(s, d, k, f, b, i);
    } else {
      CatchAllIff(s, d, f, scan, i);
    }
  }

  lemma CatchAllIff(s: seq<ServerEntry>, d: string, f: QueryFlags, scan: Scan, i: nat)
    requires CatchAllResult(s, d, f, scan) && f.server && !f.config && i < |s|
    ensures Returned(scan.found, i) <==> ClassOf(s[i]) == 0 && BestOf(s, MatchingAt(d, |d|), f, s[i])
  {
    if scan.found.Some? {
      ServedClass(s, d, |d|, f, scan.found.value);
      AnswerIsBest(s, d, |d|, f, scan.found.value, i);
    } else if !RefusedAt(s, d, |d|, f) {
      var c :| AnswerAt(s, d, |d|, f, c) && s[c.lo].flags.useResolv;
      ServedClass(s, d, |d|, f, c);
      AnswerIsBest(s, d, |d|, f, c, i);
    }
  }

  /** What answers a query for real servers is upstream or says "use resolv.conf". */
  lemma ServedClass(s: seq<ServerEntry>, d: string, k: nat, f: QueryFlags, b: Range)
    requires AnswerAt(s, d, k, f, b) && f.server && !f.config
    ensures ClassOf(s[b.lo]) == if s[b.lo].flags.useResolv then 1 else 0
    ensures forall i :: b.lo <= i < b.hi ==> ClassOf(s[i]) == ClassOf(s[b.lo])
  {
  }

  /** A query for DS records is looked up under the parent of its name, and a single label under the root. */
  lemma DsLooksUpParent(s: seq<ServerEntry>, first: string, parent: string, f: QueryFlags)
    requires '.' !in first && f.ds
    ensures LookedUp(first + "." + parent, f) == parent && LookedUp(first, f) == ""
    ensures ReferenceLookup(s, first + "." + parent, f) == Fallen(s, parent, f)
    ensures ReferenceLookup(s, first, f) == Fallen(s, "", f)
  {
    var name := first + "." + parent;
    assert name[|first|] == '.' && name[|first| + 1..] == parent;
    assert forall j :: 0 <= j < |first| ==> name[j] == first[j];
    assert IndexOf(name, '.', 0) == |first| && IndexOf(first, '.', 0) == |first|;
  }

  /** The scan for a name and its fallback. */
  function Fallen(s: seq<ServerEntry>, d: string, f: QueryFlags): Option<Range> {
    if s == [] then None else Fallback(s, d, LongestFirst(s, d, 0, f), f.dnssecOk)
  }

  /** Entries for names without dots are returned only to names that have a label and no dot, and never under DNSSEC. */
  lemma NodotsNeedSingleLabel(s: seq<ServerEntry>, query: string, f: QueryFlags, i: nat)
    requires Sorted(s) && Uniform(s) && NodotsAreEmpty(s) && i < |s| && s[i].flags.forNodots
    requires Returned(ReferenceLookup(s, query, f), i)
    ensures var d := LookedUp(query, f); d != "" && '.' !in d && !f.dnssecOk
  {
    var d := LookedUp(query, f);
    var k, b, scan, g := LookupMeans(s, query, f);
    if ReferenceLookup(s, query, f) == scan.found {
      ScanHasNoNodots(s, d, k, f, b, scan, i);
    }
  }

  lemma ScanHasNoNodots(s: seq<ServerEntry>, d: string, k: nat, f: QueryFlags, b: Range, scan: Scan, i: nat)
    requires k <= |d| + 1 && (k == |d| + 1 ==> scan.found.None?) && (k <= |d| ==> Decides(s, d, k, f, b, scan))
    requires i < |s| && s[i].flags.forNodots
    ensures !Returned(scan.found, i)
  {
  }

  /** Every entry that a lookup returns is let through by the flags. */
  lemma ReturnedIsAllowed(s: seq<ServerEntry>, query: string, f: QueryFlags, i: nat)
    requires Sorted(s) && Uniform(s) && NodotsAreEmpty(s) && !f.config && i < |s|
    requires Returned(ReferenceLookup(s, query, f), i)
    ensures EntryAllowed(s[i], f)
  {
    var d := LookedUp(query, f);
    var k, b, scan, g := LookupMeans(s, query, f);
    var r := ReferenceLookup(s, query, f).value;
    if Some(r) == scan.found {
      if scan == Scan(Some(b), f) {
        AnswerIsBest(s, d, k, f, b, i);
      } else {
        AnswerIsBest(s, d, |d|, f.(server := true), r, i);
        StricterAllowed(s[i], f);
      }
    } else {
      NodotsIsBest(s, g, scan.flags, r, i);
      StricterAllowed(s[i], f);
    }
  }

  lemma StricterAllowed(e: ServerEntry, f: QueryFlags)
    ensures EntryAllowed(e, f.(server := true)) ==> EntryAllowed(e, f)
  {
  }

  /** What a lookup returns, in bits. A query for real servers gets no entry with an address or a literal bit; addresses
      go to questions of their family only; a query for the servers of a domain gets neither literal entries without an
      address nor, of the entries without any type bit, the catch-all. */
  lemma ReturnedInBits(s: seq<ServerEntry>, query: string, f: QueryFlags, i: nat)
    requires Sorted(s) && Uniform(s) && NodotsAreEmpty(s) && !f.config && i < |s|
    requires Returned(ReferenceLookup(s, query, f), i)
    ensures var e := s[i].flags;
            && (f.server ==> !e.addr6 && !e.addr4 && !e.allZeros && !e.literal)
            && (e.addr6 ==> f.ipv6) && (e.addr4 && !e.addr6 ==> f.ipv4) && (e.allZeros ==> f.ipv4 || f.ipv6)
            && (f.domainSrv && e.literal ==> e.addr6 || e.addr4 || e.allZeros)
            && (f.domainSrv && s[i].domain == "" && !e.forNodots ==>
                 e.addr6 || e.addr4 || e.allZeros || e.literal || e.useResolv)
  {
    ReturnedIsAllowed(s, query, f, i);
    AllowedInBits(s[i], f);
  }

  /** A lookup for real servers returns an entry if and only if it is an upstream server of the best allowed class at
      the longest suffix `k` that is not refused, or at the catch-all if that suffix says "use resolv.conf"; or, for a
      single label that the entries for names without dots decide, of their best allowed class. */
  lemma ServerLookupReturnsIff(s: seq<ServerEntry>, query: string, f: QueryFlags, i: nat) returns (k: nat)
    requires Sorted(s) && Uniform(s) && NodotsAreEmpty(s) && f.server && !f.config && i < |s|
    ensures var d := LookedUp(query, f);
            && k <= |d| + 1 && (forall j :: 0 <= j < k ==> RefusedAt(s, d, j, f))
            && (k <= |d| ==> !RefusedAt(s, d, k, f))
            && (Returned(ReferenceLookup(s, query, f), i) <==>
                if NodotsDecide(s, d, f) then BestOf(s, ForNodots(), f, s[i])
                else k <= |d| && ClassOf(s[i]) == 0 && BestOf(s, MatchingAt(d, ServingSuffix(s, d, k)), f, s[i]))
  {
    var d := LookedUp(query, f);
    var b, scan, g;
    k, b, scan, g := LookupMeans(s, query, f);
    if k <= |d| {
      ScanReturnsIff(s, d, k, f, b, scan, i);
      assert MatchesAt(s[b.lo], d, k) && EntryAllowed(s[b.lo], f);
    }
    var r := ReferenceLookup(s, query, f);
    if NodotsDecide(s, d, f) {
      assert r.Some? && BestClass(s, g, f, r);
      NodotsIsBest(s, g, f, r.value, i);
    } else {
      assert r == scan.found;
    }
  }

  /** A lookup for real servers never returns an entry that carries an address bit: upstream servers that carry one, as
      those set over D-Bus, read from resolv.conf or configured by address do, are passed over. */
  lemma ServerLookupSkipsAddressBits(s: seq<ServerEntry>, query: string, f: QueryFlags, i: nat)
    requires Sorted(s) && Uniform(s) && NodotsAreEmpty(s) && f.server && !f.config
    requires i < |s| && s[i].flags.HasAddress()
    ensures !Returned(ReferenceLookup(s, query, f), i)
  {
    var _ := ServerLookupReturnsIff(s, query, f, i);
  }
}
