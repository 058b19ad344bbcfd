/** Finding the servers for a name (`ServerArray::lookup`). */
module ServerLookup {
  import opened Basics
  import opened Names
  import opened Servers
  import opened ServerTable
  import opened ServerFilter

  /** `n` is the length of the shortest domain that is not for names without dots. */
  ghost predicate ShortestLength(s: seq<ServerEntry>, n: nat) {
    && (exists e :: e in s && !e.flags.forNodots && |e.domain| == n)
    && forall e :: e in s && !e.flags.forNodots ==> n <= |e.domain|
  }

  /** What keeps the crop of a search from becoming negative: a catch-all, or no entry for names without dots with a
      domain of its own, except one as long as the shortest other domain. */
  ghost predicate CropSafe(s: seq<ServerEntry>) {
    || (exists e :: e in s && IsCatchAll(e))
    || forall e :: e in s && e.flags.forNodots && e.domain != "" ==> ShortestLength(s, |e.domain|)
  }

  /** A table as `Build` makes it. */
  ghost predicate ValidTable(arr: ServerArray) {
    Sorted(arr.entries) && CropSafe(arr.entries) && (arr.hasWildcard <==> AnyWildcard(arr.entries))
  }

  /** A built table is fit for lookups when its entries are serial-safe and keep the crop from becoming negative. */
  lemma BuiltTablesAreValid(servers: seq<Server>, locals: seq<Server>, arr: ServerArray)
    requires arr.entries == SortEntries(RawEntries(servers, locals)) && (arr.hasWildcard <==> AnyWildcard(arr.entries))
    requires SerialSafe(RawEntries(servers, locals)) && CropSafe(RawEntries(servers, locals))
    ensures ValidTable(arr)
  {
    var raw := RawEntries(servers, locals);
    PreorderIffSerialSafe(raw);
    SortSorts(raw);
    SortIsPermutation(raw);
    SameElements(arr.entries, raw);
  }

  // ----- the reference: try every suffix of the name, longest first -----

  /** A stand-in entry for the domain `q`, used to name its group. */
  function Probe(q: string): ServerEntry {
    ServerEntry(q, NO_FLAGS, 0, 0, false)
  }

  predicate HasWildcard(s: seq<ServerEntry>, lo: nat, hi: nat)
    requires lo <= hi <= |s|
    decreases hi - lo
  {
    lo < hi && (s[lo].flags.wildcard || HasWildcard(s, lo + 1, hi))
  }

  lemma {:induction false} HasWildcardMeaning(s: seq<ServerEntry>, lo: nat, hi: nat)
    requires lo <= hi <= |s|
    ensures HasWildcard(s, lo, hi) <==> exists i :: lo <= i < hi && s[i].flags.wildcard
    decreases hi - lo
  {
    if lo == hi {
    } else {
      HasWildcardMeaning(s, lo + 1, hi);
    }
  }

  /** What the suffix of `d` at `start` offers: nothing unless some entry has that domain and the suffix is
      label-aligned or one of those entries is a wildcard, and then what the cascade picks. */
  function Candidate(s: seq<ServerEntry>, d: string, start: nat, f: QueryFlags): (r: Option<Range>)
    requires start <= |d|
    ensures r.Some? ==> r.value.lo < r.value.hi <= |s|
  {
    var g := GroupOf(s, Probe(d[start..]));
    if g.lo < g.hi && (LabelStart(d, start) || HasWildcard(s, g.lo, g.hi)) then Choose(s, g, f) else None
  }

  datatype Scan = Scan(found: Option<Range>, flags: QueryFlags)

  /** The linear scan. An entry that says "use resolv.conf" sends the scan to the catch-all,
      looking for real servers only. */
  function LongestFirst(s: seq<ServerEntry>, d: string, start: nat, f: QueryFlags): (r: Scan)
    requires start <= |d| + 1
    ensures r.found.Some? ==> r.found.value.lo < r.found.value.hi <= |s|
    decreases |d| + 1 - start
  {
    if start > |d| then Scan(None, f)
    else match Candidate(s, d, start, f)
      case None => LongestFirst(s, d, start + 1, f)
      case Some(r) =>
        if s[r.lo].flags.useResolv
        then LongestFirst(s, d, if start == |d| then start + 1 else |d|, f.(server := true))
        else Scan(Some(r), f)
  }

  /** The name that is looked up: the parent of the queried name for DS queries. */
  function LookedUp(query: string, f: QueryFlags): string {
    if !f.ds then query
    else if IndexOf(query, '.', 0) < |query| then query[IndexOf(query, '.', 0) + 1..]
    else ""
  }

  predicate IsSingleLabel(d: string) { d != "" && '.' !in d }

  function ReferenceLookup(s: seq<ServerEntry>, query: string, f: QueryFlags): Option<Range> {
    if s == [] then None
    else
      var d := LookedUp(query, f);
      Fallback(s, d, LongestFirst(s, d, 0, f), f.dnssecOk)
  }

  // ----- skipping in the linear scan -----

  lemma SkipOne(s: seq<ServerEntry>, d: string, start: nat, f: QueryFlags)
    requires start <= |d| && Candidate(s, d, start, f) == None
    ensures LongestFirst(s, d, start, f) == LongestFirst(s, d, start + 1, f)
  {
  }

  lemma NoHitNoCandidate(s: seq<ServerEntry>, d: string, start: nat, f: QueryFlags)
    requires start <= |d|
    requires forall e :: e in s ==> OrderEntry(d[start..], e) != 0
    ensures Candidate(s, d, start, f) == None
  {
    var g := GroupOf(s, Probe(d[start..]));
    GroupStartMeaning(s, Probe(d[start..]), 0);
    assert forall i :: 0 <= i < |s| ==> s[i] in s;
  }

  /** No entry has this length, so the suffix offers nothing. */
  lemma NoSuchLength(s: seq<ServerEntry>, d: string, start: nat, f: QueryFlags)
    requires start <= |d|
    requires forall e :: e in s && !e.flags.forNodots ==> |e.domain| != |d| - start
    ensures Candidate(s, d, start, f) == None
  {
    forall e | e in s
      ensures OrderEntry(d[start..], e) != 0
    {
      OrderEntryZero(d[start..], e);
      assert |Lower(d[start..])| == |d| - start && |Lower(e.domain)| == |e.domain|;
    }
    NoHitNoCandidate(s, d, start, f);
  }

  /** Between label boundaries a table without wildcards offers nothing. */
  lemma NoWildcardInsideLabel(s: seq<ServerEntry>, d: string, start: nat, f: QueryFlags)
    requires start <= |d| && !LabelStart(d, start) && !AnyWildcard(s)
    ensures Candidate(s, d, start, f) == None
  {
    var g := GroupOf(s, Probe(d[start..]));
    HasWildcardMeaning(s, g.lo, g.hi);
    assert forall i :: g.lo <= i < g.hi ==> s[i] in s;
  }

  /** Skipping over suffix lengths that no entry has loses nothing. */
  lemma {:induction false} SkipLengths(s: seq<ServerEntry>, d: string, start: nat, stop: nat, f: QueryFlags)
    requires start <= stop <= |d| + 1
    requires forall e :: e in s && !e.flags.forNodots ==> !(|d| - stop < |e.domain| <= |d| - start)
    ensures LongestFirst(s, d, start, f) == LongestFirst(s, d, stop, f)
    decreases stop - start
  {
    if start == stop {
    } else {
      NoSuchLength(s, d, start, f);
      SkipOne(s, d, start, f);
      SkipLengths(s, d, start + 1, stop, f);
    }
  }

  lemma StepWithoutHit(s: seq<ServerEntry>, d: string, start: nat, f: QueryFlags)
    requires start <= |d| && forall e :: e in s ==> OrderEntry(d[start..], e) != 0
    ensures LongestFirst(s, d, start, f) == LongestFirst(s, d, start + 1, f)
  {
    NoHitNoCandidate(s, d, start, f);
    SkipOne(s, d, start, f);
  }

  lemma SkipRound(s: seq<ServerEntry>, d: string, start: nat, next: nat, f: QueryFlags)
    requires start < next <= |d| + 1
    requires forall e :: e in s ==> OrderEntry(d[start..], e) != 0
    requires forall e :: e in s && !e.flags.forNodots ==> !(|d| - next < |e.domain| < |d| - start)
    ensures LongestFirst(s, d, start, f) == LongestFirst(s, d, next, f)
  {
    StepWithoutHit(s, d, start, f);
    SkipLengths(s, d, start + 1, next, f);
  }

  lemma StepInsideLabel(s: seq<ServerEntry>, d: string, start: nat, f: QueryFlags)
    requires start <= |d| && !LabelStart(d, start) && !AnyWildcard(s)
    ensures LongestFirst(s, d, start, f) == LongestFirst(s, d, start + 1, f)
  {
    NoWildcardInsideLabel(s, d, start, f);
    SkipOne(s, d, start, f);
  }

  lemma {:induction false} SkipInsideLabel(s: seq<ServerEntry>, d: string, start: nat, stop: nat, f: QueryFlags)
    requires 0 < start <= stop <= |d| + 1 && (start < stop ==> stop <= |d|) && !AnyWildcard(s)
    requires forall j :: start - 1 <= j < stop - 1 ==> d[j] != '.'
    ensures LongestFirst(s, d, start, f) == LongestFirst(s, d, stop, f)
    decreases stop - start
  {
    if start == stop {
    } else {
      StepInsideLabel(s, d, start, f);
      SkipInsideLabel(s, d, start + 1, stop, f);
    }
  }

  // ----- the binary search of one round -----

  lemma LengthsDescend(s: seq<ServerEntry>, i: nat, j: nat)
    requires Sorted(s) && i <= j < |s|
    ensures s[i].flags.forNodots ==> s[j].flags.forNodots
    ensures !s[j].flags.forNodots ==> |s[j].domain| <= |s[i].domain|
  {
    assert i == j || CompareEntries(s[i], s[j]) != Greater;
  }

  lemma NodotsDescend(s: seq<ServerEntry>, i: nat, j: nat)
    requires Sorted(s) && i <= j < |s| && s[i].flags.forNodots
    ensures s[j].flags.forNodots && |s[j].domain| <= |s[i].domain|
  {
    assert i == j || CompareEntries(s[i], s[j]) != Greater;
  }

  /** How many entries from `i` on sort before the query. */
  function Above(s: seq<ServerEntry>, q: string, i: nat): (k: nat)
    requires i <= |s|
    ensures i <= k <= |s|
    ensures forall j :: i <= j < k ==> OrderEntry(q, s[j]) > 0
    ensures k < |s| ==> OrderEntry(q, s[k]) <= 0
    decreases |s| - i
  {
    if i < |s| && OrderEntry(q, s[i]) > 0 then Above(s, q, i + 1) else i
  }

  /** The first position from `t` on with a domain of another length than `n`, or the end. */
  function FirstOther(s: seq<ServerEntry>, n: nat, t: nat): (k: nat)
    requires t <= |s|
    ensures t <= k <= |s|
    ensures forall j :: t <= j < k ==> |s[j].domain| == n
    ensures k < |s| ==> |s[k].domain| != n
    decreases |s| - t
  {
    if t < |s| && |s[t].domain| == n then FirstOther(s, n, t + 1) else t
  }

  /** By how much a query that no entry has is cropped, `at` entries sorting before it. */
  function CropAt(s: seq<ServerEntry>, q: string, at: nat): int
    requires s != [] && at <= |s|
  {
    if at == 0 then |q| - |s[0].domain|
    else
      var t := FirstOther(s, |s[at - 1].domain|, at);
      if t < |s| then |q| - |s[t].domain| else 1
  }

  ghost predicate NoHit(s: seq<ServerEntry>, q: string) {
    forall e :: e in s ==> OrderEntry(q, e) != 0
  }

  /** The crop stays within the query and skips no length that an entry has. */
  ghost predicate SkipsNoLength(s: seq<ServerEntry>, q: string, crop: int) {
    && 0 <= crop && (crop == 1 || crop <= |q|)
    && forall e :: e in s && !e.flags.forNodots ==> !(|q| - crop < |e.domain| < |q|)
  }

  /** The first `at` entries sort before the query and the others after it. */
  ghost predicate FallsAt(s: seq<ServerEntry>, q: string, at: nat) {
    && at <= |s|
    && (forall i :: 0 <= i < at ==> OrderEntry(q, s[i]) > 0)
    && forall i :: at <= i < |s| ==> OrderEntry(q, s[i]) < 0
  }

  lemma {:induction false} AboveIs(s: seq<ServerEntry>, q: string, i: nat, at: nat)
    requires FallsAt(s, q, at) && i <= at
    ensures Above(s, q, i) == at
    decreases at - i
  {
    if i == at {
    } else {
      AboveIs(s, q, i + 1, at);
    }
  }

  /** A query between two neighbours of a sorted table is not in it. */
  lemma FallsBetween(s: seq<ServerEntry>, q: string, at: nat)
    requires Sorted(s) && at <= |s|
    requires at == 0 || OrderEntry(q, s[at - 1]) > 0
    requires at == |s| || OrderEntry(q, s[at]) < 0
    ensures FallsAt(s, q, at) && NoHit(s, q) && Above(s, q, 0) == at
  {
    SortedIsMonotone(s, q);
    AboveIs(s, q, 0, at);
  }

  /** In a safe table the crop is sound. */
  lemma CropFits(s: seq<ServerEntry>, q: string, at: nat)
    requires Sorted(s) && CropSafe(s) && s != [] && FallsAt(s, q, at)
    ensures SkipsNoLength(s, q, CropAt(s, q, at))
  {
    var t := if at == 0 then 0 else FirstOther(s, |s[at - 1].domain|, at);
    if t < |s| {
      TargetFits(s, q, at, t);
    }
  }

  lemma TargetFits(s: seq<ServerEntry>, q: string, at: nat, t: nat)
    requires Sorted(s) && CropSafe(s) && at <= t < |s| && FallsAt(s, q, at)
    requires at == 0 ==> t == 0
    requires at > 0 ==> |s[t].domain| != |s[at - 1].domain|
    requires at > 0 ==> forall i :: at <= i < t ==> |s[i].domain| == |s[at - 1].domain|
    ensures |s[t].domain| <= |q|
    ensures forall e :: e in s && !e.flags.forNodots ==> !(|s[t].domain| < |e.domain| < |q|)
  {
    assert s[t] in s;
    forall i | 0 <= i < |s| && !s[i].flags.forNodots
      ensures !(|s[t].domain| < |s[i].domain| < |q|)
    {
      if i >= t {
        LengthsDescend(s, t, i);
      }
    }
    if s[t].flags.forNodots {
      NodotsTargetIsEmpty(s, q, at, t);
    }
  }

  lemma NodotsTargetIsEmpty(s: seq<ServerEntry>, q: string, at: nat, t: nat)
    requires Sorted(s) && CropSafe(s) && at <= t < |s| && s[t].flags.forNodots
    requires forall i :: 0 <= i < at ==> OrderEntry(q, s[i]) > 0
    requires at == 0 ==> t == 0
    requires at > 0 ==> |s[t].domain| != |s[at - 1].domain|
    requires at > 0 ==> forall i :: at <= i < t ==> |s[i].domain| == |s[at - 1].domain|
    ensures s[t].domain == ""
  {
    assert s[t] in s;
    forall i | 0 <= i < |s| && !s[i].flags.forNodots
      ensures at > 0 && i < t && |s[at - 1].domain| <= |s[i].domain| && !IsCatchAll(s[i])
    {
      LengthsDescend(s, if i <= t then i else t, if i <= t then t else i);
      if i < at {
        LengthsDescend(s, i, at - 1);
      }
    }
    if at > 0 {
      assert !s[at - 1].flags.forNodots && s[at - 1] in s;
    }
  }

  /** The query is not in the table, and this is how far it is cropped. */
  ghost predicate Misses(s: seq<ServerEntry>, q: string, crop: int)
    requires s != []
  {
    NoHit(s, q) && crop == CropAt(s, q, Above(s, q, 0)) && SkipsNoLength(s, q, crop)
  }

  lemma MissesBetween(s: seq<ServerEntry>, q: string, at: nat)
    requires Sorted(s) && CropSafe(s) && s != [] && at <= |s|
    requires at == 0 || OrderEntry(q, s[at - 1]) > 0
    requires at == |s| || OrderEntry(q, s[at]) < 0
    ensures Misses(s, q, CropAt(s, q, at))
  {
    FallsBetween(s, q, at);
    CropFits(s, q, at);
  }

  /** No query that misses is cropped by a negative length if and only if the table is safe; in any other table the
      search for the empty name is. */
  lemma CropSafeIff(s: seq<ServerEntry>)
    requires Sorted(s) && s != []
    ensures CropSafe(s) <==> forall q :: NoHit(s, q) ==> CropAt(s, q, Above(s, q, 0)) >= 0
    ensures !CropSafe(s) ==> NoHit(s, "") && CropAt(s, "", Above(s, "", 0)) < 0
  {
    if CropSafe(s) {
      forall q | NoHit(s, q)
        ensures CropAt(s, q, Above(s, q, 0)) >= 0
      {
        var at := Above(s, q, 0);
        assert at < |s| ==> s[at] in s;
        MissesBetween(s, q, at);
      }
    } else {
      UnsafeTable(s);
    }
  }

  lemma UnsafeTable(s: seq<ServerEntry>)
    requires Sorted(s) && s != [] && !CropSafe(s)
    ensures NoHit(s, "") && CropAt(s, "", Above(s, "", 0)) < 0
  {
    forall e | e in s
      ensures OrderEntry("", e) == if e.flags.forNodots then -1 else 1
    {
      assert !IsCatchAll(e);
    }
    var e :| e in s && e.flags.forNodots && e.domain != "" && !ShortestLength(s, |e.domain|);
    var at := Above(s, "", 0);
    var j :| 0 <= j < |s| && s[j] == e;
    assert OrderEntry("", s[j]) < 0 && s[at] in s;
    if at > 0 {
      assert s[at - 1] in s;
    }
    LongNodots(s, at, j);
  }

  /** The smallest such table: one entry for names without dots with a domain, searched for the empty name. */
  lemma LoneNodotsIsUnsafe(e: ServerEntry)
    requires e.flags.forNodots && e.domain != ""
    ensures Sorted([e]) && !CropSafe([e]) && NoHit([e], "") && CropAt([e], "", Above([e], "", 0)) == -|e.domain|
  {
    assert e in [e] && [e][0] == e;
    FallsBetween([e], "", 0);
  }

  /** When the first entry for names without dots stands at `at` and a longer domain than the crop allows at `j`. */
  lemma LongNodots(s: seq<ServerEntry>, at: nat, j: nat)
    requires Sorted(s) && at <= j < |s| && s[at].flags.forNodots && (at > 0 ==> !s[at - 1].flags.forNodots)
    requires s[j].domain != "" && !ShortestLength(s, |s[j].domain|)
    ensures CropAt(s, "", at) < 0
  {
    var t := at;
    if at > 0 {
      LastIsShortest(s, at);
      t := FirstOther(s, |s[at - 1].domain|, at);
      assert t <= j;
    }
    NodotsDescend(s, at, t);
    NodotsDescend(s, t, j);
  }

  lemma LastIsShortest(s: seq<ServerEntry>, at: nat)
    requires Sorted(s) && 0 < at < |s| && s[at].flags.forNodots && !s[at - 1].flags.forNodots
    ensures ShortestLength(s, |s[at - 1].domain|)
  {
    assert s[at - 1] in s;
    forall x | x in s && !x.flags.forNodots
      ensures |s[at - 1].domain| <= |x.domain|
    {
      var i :| 0 <= i < |s| && s[i] == x;
      if i < at {
        LengthsDescend(s, i, at - 1);
      } else {
        NodotsDescend(s, at, i);
      }
    }
  }

  /** One round: find an entry whose domain is `q`, or prove there is none and say how far the query can
      be cropped. `low0` is the bound kept from the round before. */
  method Search(arr: ServerArray, q: string, low0: nat) returns (hit: Option<nat>, low: nat, crop: nat)
    requires ValidTable(arr)
    requires low0 < |arr.entries|
    requires low0 == 0 || OrderEntry(q, arr.entries[low0]) > 0
    ensures low < |arr.entries|
    ensures low == 0 || OrderEntry(q, arr.entries[low]) > 0
    ensures hit.Some? ==> hit.value < |arr.entries| && OrderEntry(q, arr.entries[hit.value]) == 0 && crop == 1
    ensures hit.None? ==> Misses(arr.entries, q, crop)
  {
    var s := arr.entries;
    var n := |s|;
    low := low0;
    var high := n;
    crop := 1;
    while true
      invariant low <= high <= n && low < n && crop == 1
      invariant low == 0 || OrderEntry(q, s[low]) > 0
      invariant high == n || OrderEntry(q, s[high]) < 0
      decreases high - low
    {
      var tryIdx := (low + high) / 2;
      var rc := OrderEntry(q, s[tryIdx]);
      if rc == 0 {
        hit := Some(tryIdx);
        return;
      }
      if rc < 0 {
        if high == tryIdx {
          assert low == 0;
          MissesBetween(s, q, 0);
          crop := |q| - |s[tryIdx].domain|;
          hit := None;
          return;
        }
        high := tryIdx;
      } else {
        if low == tryIdx {
          assert high == low + 1;
          hit := None;
          crop := NextLength(s, q, tryIdx);
          return;
        }
        low := tryIdx;
      }
    }
  }

  /** The crop when the query falls just after position `at`: down to the next different domain length. */
  method NextLength(s: seq<ServerEntry>, q: string, at: nat) returns (crop: nat)
    requires Sorted(s) && CropSafe(s) && at < |s| && OrderEntry(q, s[at]) > 0
    requires at + 1 == |s| || OrderEntry(q, s[at + 1]) < 0
    ensures Misses(s, q, crop)
  {
    MissesBetween(s, q, at + 1);
    crop := 1;
    var oldLen := |s[at].domain|;
    var t := at + 1;
    while t < |s|
      invariant at < t <= |s|
      invariant FirstOther(s, oldLen, at + 1) == FirstOther(s, oldLen, t)
    {
      if |s[t].domain| != oldLen {
        crop := |q| - |s[t].domain|;
        return;
      }
      t := t + 1;
    }
  }

  // ----- a hit: wildcards and label boundaries -----

  /** Wildcard entries are last in their group. */
  lemma WildcardsAreLast(s: seq<ServerEntry>, q: string, i: nat, j: nat)
    requires Sorted(s) && i <= j < |s|
    requires OrderEntry(q, s[i]) == 0 && OrderEntry(q, s[j]) == 0
    ensures s[i].flags.wildcard ==> s[j].flags.wildcard
  {
    OrderEntryZero(q, s[i]);
    OrderEntryZero(q, s[j]);
    OrderEqualIsSameName(s[i].domain, s[j].domain);
    assert i == j || CompareEntries(s[i], s[j]) != Greater;
  }

  /** What is done when the search hits position `hit` for the suffix at `start`. */
  method MatchGroup(arr: ServerArray, d: string, start: nat, hit: nat, f: QueryFlags) returns (r: Option<Range>)
    requires ValidTable(arr) && start <= |d|
    requires hit < |arr.entries| && OrderEntry(d[start..], arr.entries[hit]) == 0
    requires !arr.hasWildcard ==> LabelStart(d, start)
    ensures r == Candidate(arr.entries, d, start, f)
  {
    var s := arr.entries;
    var n := |s|;
    var q := d[start..];
    ghost var g := GroupOf(s, Probe(q));
    GroupOfIsGroup(s, Probe(q));
    assert SameGroup(Probe(q), s[hit]);
    HasWildcardMeaning(s, g.lo, g.hi);
    var t := hit;
    var matched := true;
    if arr.hasWildcard {
      while t > 0 && OrderEntry(q, s[t - 1]) == 0
        invariant t <= hit && OrderEntry(q, s[t]) == 0
      {
        t := t - 1;
      }
      var atBoundary := start == 0 || |d| - start == 0 || (start > 0 && d[start - 1] == '.');
      if !atBoundary {
        while t < n - 1 && OrderEntry(q, s[t + 1]) == 0
          invariant t < n && OrderEntry(q, s[t]) == 0
        {
          t := t + 1;
        }
        assert SameGroup(Probe(q), s[t]);
        assert t + 1 == g.hi by {
          assert t + 1 < n ==> !SameGroup(Probe(q), s[t + 1]);
        }
        forall i | g.lo <= i < g.hi
          ensures s[i].flags.wildcard ==> s[t].flags.wildcard
        {
          assert SameGroup(Probe(q), s[i]);
          WildcardsAreLast(s, q, i, t);
        }
        if !s[t].flags.wildcard {
          matched := false;
        }
      }
    }
    if matched {
      assert SameGroup(Probe(q), s[t]);
      GroupOfMember(s, Probe(q), t);
      r := FilterServers(arr, t, f);
    } else {
      r := None;
    }
  }

  // ----- the whole lookup -----

  lemma ScanStops(s: seq<ServerEntry>, d: string, start: nat, f: QueryFlags, r: Range)
    requires start <= |d| && Candidate(s, d, start, f) == Some(r) && !s[r.lo].flags.useResolv
    ensures LongestFirst(s, d, start, f) == Scan(Some(r), f)
  {
  }

  lemma FollowResolv(s: seq<ServerEntry>, d: string, start: nat, next: nat, f: QueryFlags, r: Range)
    requires start <= |d| && Candidate(s, d, start, f) == Some(r) && s[r.lo].flags.useResolv
    requires next == if start == |d| then start + 1 else |d|
    ensures LongestFirst(s, d, start, f) == LongestFirst(s, d, next, f.(server := true))
  {
  }

  /** The kept lower bound is before every later, shorter suffix. */
  ghost predicate KeptLow(s: seq<ServerEntry>, low: nat, qlen: int) {
    low < |s| && (low == 0 || (!s[low].flags.forNodots && |s[low].domain| > qlen))
  }

  /** One pass of the outer loop at suffix `start`: either it ends the scan, or it moves on past suffixes
      that offer nothing. */
  method Round(arr: ServerArray, d: string, start: nat, low0: nat, f0: QueryFlags)
    returns (found: Option<Range>, low: nat, next: nat, f: QueryFlags)
    requires ValidTable(arr) && start <= |d| && KeptLow(arr.entries, low0, |d| - start)
    requires !arr.hasWildcard ==> LabelStart(d, start)
    ensures found.Some? ==> f == f0 && LongestFirst(arr.entries, d, start, f0) == Scan(found, f)
    ensures found.None? ==> start < next <= |d| + 1 && KeptLow(arr.entries, low, |d| - next)
    ensures found.None? ==> LongestFirst(arr.entries, d, start, f0) == LongestFirst(arr.entries, d, next, f)
  {
    var hit, crop;
    hit, low, crop := Search(arr, d[start..], low0);
    if hit.Some? {
      found, next, f := FollowHit(arr, d, start, hit.value, f0);
    } else {
      f, found := f0, None;
      next := start + if crop == 0 then 1 else crop;
      SkipRound(arr.entries, d, start, next, f0);
    }
  }

  /** What a hit leads to: the end of the scan, the catch-all, or the next suffix. */
  method FollowHit(arr: ServerArray, d: string, start: nat, hit: nat, f0: QueryFlags)
    returns (found: Option<Range>, next: nat, f: QueryFlags)
    requires ValidTable(arr) && start <= |d| && (!arr.hasWildcard ==> LabelStart(d, start))
    requires hit < |arr.entries| && OrderEntry(d[start..], arr.entries[hit]) == 0
    ensures found.Some? ==> f == f0 && LongestFirst(arr.entries, d, start, f0) == Scan(found, f)
    ensures found.None? ==> start < next <= |d| + 1
    ensures found.None? ==> LongestFirst(arr.entries, d, start, f0) == LongestFirst(arr.entries, d, next, f)
  {
    var s := arr.entries;
    f, found, next := f0, None, start + 1;
    var c := MatchGroup(arr, d, start, hit, f);
    if c.None? {
      SkipOne(s, d, start, f);
    } else if s[c.value.lo].flags.useResolv {
      var crop := |d| - start;
      next := start + if crop == 0 then 1 else crop;
      f := f.(server := true);
      FollowResolv(s, d, start, next, f0, c.value);
    } else {
      found := c;
      ScanStops(s, d, start, f, c.value);
    }
  }

  /** Without wildcards, the jump to the next label boundary. */
  method NextLabel(s: seq<ServerEntry>, d: string, start0: nat, f: QueryFlags) returns (start: nat)
    requires !AnyWildcard(s) && 0 < start0 <= |d| + 1
    ensures start0 <= start <= |d| + 1 && (start <= |d| ==> LabelStart(d, start))
    ensures LongestFirst(s, d, start0, f) == LongestFirst(s, d, start, f)
  {
    start := start0;
    while start < |d| && d[start - 1] != '.'
      invariant start0 <= start <= |d| + 1
      invariant start0 < start ==> start <= |d|
      invariant forall j :: start0 - 1 <= j < start - 1 ==> d[j] != '.'
    {
      start := start + 1;
    }
    SkipInsideLabel(s, d, start0, start, f);
  }

  /** `ServerArray::lookup` returns what the linear scan over suffixes returns: the bound kept between
      rounds and the cropping jumps never lose a match. */
  method Lookup(arr: ServerArray, query: string, flags: QueryFlags) returns (r: Option<Range>)
    requires ValidTable(arr)
    ensures r == ReferenceLookup(arr.entries, query, flags)
  {
    var s := arr.entries;
    if |s| == 0 {
      return None;
    }
    var d := LookedUp(query, flags);
    var start, low, f := 0, 0, flags;
    var found: Option<Range> := None;
    while start <= |d|
      invariant start <= |d| + 1 && KeptLow(s, low, |d| - start)
      invariant !arr.hasWildcard && start <= |d| ==> LabelStart(d, start)
      invariant found.None? && LongestFirst(s, d, 0, flags) == LongestFirst(s, d, start, f)
      decreases |d| + 1 - start
    {
      var next;
      found, low, next, f := Round(arr, d, start, low, f);
      if found.Some? {
        break;
      }
      start := next;
      if !arr.hasWildcard {
        start := NextLabel(s, d, start, f);
      }
    }
    assert LongestFirst(s, d, 0, flags) == Scan(found, f);
    r := WithFallback(arr, d, found, f, flags.dnssecOk);
  }

  /** The fallback for single-label names, when nothing or only a catch-all was found. */
  function Fallback(s: seq<ServerEntry>, d: string, scan: Scan, dnssecOk: bool): Option<Range>
    requires s != [] && (scan.found.Some? ==> scan.found.value.lo < |s|)
  {
    var last := s[|s| - 1];
    if IsSingleLabel(d) && !dnssecOk && last.flags.forNodots
       && (scan.found.None? || s[scan.found.value.lo].domain == "")
    then
      var r := Choose(s, GroupOf(s, last), scan.flags);
      if r.Some? then r else scan.found
    else scan.found
  }

  method WithFallback(arr: ServerArray, d: string, found: Option<Range>, f: QueryFlags, dnssecOk: bool)
    returns (r: Option<Range>)
    requires ValidTable(arr) && arr.entries != [] && (found.Some? ==> found.value.lo < |arr.entries|)
    ensures r == Fallback(arr.entries, d, Scan(found, f), dnssecOk)
  {
    var s := arr.entries;
    r := found;
    var nodots := d != "" && '.' !in d;
    if d == "" || dnssecOk {
      nodots := false;
    }
    if nodots && s[|s| - 1].flags.forNodots {
      if found.None? || s[found.value.lo].domain == "" {
        var c := FilterServers(arr, |s| - 1, f);
        if c.Some? {
          r := c;
        }
      }
    }
  }
}
