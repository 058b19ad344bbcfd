/** What every run of the neighbour cache keeps. */
module ArpRuns {
  import opened Basics
  import opened Arp

  /** The pairs of the records that carry a hardware address. */
  ghost function Positive(rs: seq<ArpRecord>): set<Pair> {
    set i | 0 <= i < |rs| && rs[i].status != Empty :: rs[i].pair
  }

  /** The pairs of the records in a given state. */
  ghost function In(rs: seq<ArpRecord>, s: Status): set<Pair> {
    set i | 0 <= i < |rs| && rs[i].status == s :: rs[i].pair
  }

  ghost function Pairs(rs: seq<ArpRecord>): set<Pair> {
    set i | 0 <= i < |rs| :: rs[i].pair
  }

  /** The pairs of an enumeration that are taken in. */
  ghost function Usable(kernel: seq<Pair>): set<Pair> {
    set i | 0 <= i < |kernel| && |kernel[i].hwaddr| <= 16 :: kernel[i]
  }

  ghost predicate EmptiesAreBlank(rs: seq<ArpRecord>) {
    forall i :: 0 <= i < |rs| && rs[i].status == Empty ==> rs[i].pair.hwaddr == []
  }

  // ----- one refresh -----

  /** The pairs confirmed so far in a refresh. */
  ghost function Confirmed(rs: seq<ArpRecord>): set<Pair> {
    In(rs, Found) + In(rs, New)
  }

  lemma FilteredConfirms(rs: seq<ArpRecord>, p: Pair)
    ensures Confirmed(Filtered(rs, p)) == Confirmed(rs) + (if TooLong(p) then {} else {p})
  {
    var rs' := Filtered(rs, p);
    if !TooLong(p) {
      var k := Slot(rs, p);
      if k == |rs| {
        assert forall i :: 0 <= i < |rs| ==> rs'[i] == rs[i];
        assert rs'[|rs|] == ArpRecord(New, p);
      } else {
        assert forall i :: 0 <= i < |rs| && i != k ==> rs'[i] == rs[i];
        assert rs'[k].pair == p;
        assert rs[k].status == Found ==> rs[k].pair == p;
      }
      forall q
        ensures q in Confirmed(rs') <==> q in Confirmed(rs) || q == p
      {
        if q in Confirmed(rs) {
          var i :| 0 <= i < |rs| && (rs[i].status == Found || rs[i].status == New) && rs[i].pair == q;
          assert rs'[i].pair == q;
        }
      }
    }
  }

  lemma UsableAppend(kernel: seq<Pair>, p: Pair)
    ensures Usable(kernel + [p]) == Usable(kernel) + (if TooLong(p) then {} else {p})
  {
    var longer := kernel + [p];
    assert longer[|kernel|] == p && forall i :: 0 <= i < |kernel| ==> longer[i] == kernel[i];
  }

  lemma {:induction false} FilteredAllConfirms(rs: seq<ArpRecord>, kernel: seq<Pair>)
    ensures Confirmed(FilteredAll(rs, kernel)) == Confirmed(rs) + Usable(kernel)
  {
    if kernel == [] {
      assert Usable(kernel) == {};
    } else {
      var before, p := kernel[..|kernel| - 1], kernel[|kernel| - 1];
      FilteredAllConfirms(rs, before);
      FilteredConfirms(FilteredAll(rs, before), p);
      assert kernel == before + [p];
      UsableAppend(before, p);
    }
  }

  lemma {:induction false} WhereKeeps(rs: seq<ArpRecord>, marked: bool)
    ensures forall r :: r in Where(rs, marked) <==> r in rs && (r.status == Mark) == marked
  {
    if rs == [] {
    } else {
      WhereKeeps(rs[..|rs| - 1], marked);
      assert rs == rs[..|rs| - 1] + [rs[|rs| - 1]];
    }
  }

  /** After a refresh the records with a hardware address are exactly the pairs of that enumeration. */
  lemma RefreshIsExact(s: State, kernel: seq<Pair>)
    ensures Positive(Refreshed(s, kernel).active) == Usable(kernel)
  {
    var seen := FilteredAll(Begun(s.active), kernel);
    var kept := Where(seen, false);
    FilteredAllConfirms(Begun(s.active), kernel);
    assert Confirmed(Begun(s.active)) == {};
    WhereKeeps(seen, false);
    forall p
      ensures p in Positive(kept) <==> p in Confirmed(seen)
    {
      if p in Positive(kept) {
        var i :| 0 <= i < |kept| && kept[i].status != Empty && kept[i].pair == p;
        assert kept[i] in seen;
      }
      if p in Confirmed(seen) {
        var i :| 0 <= i < |seen| && (seen[i].status == Found || seen[i].status == New) && seen[i].pair == p;
        assert seen[i] in kept;
      }
    }
  }

  // ----- runs -----

  datatype Op = Refresh(kernel: seq<Pair>) | AddEmpty(addr: int) | Report

  function Next(s: State, op: Op): State {
    match op
    case Refresh(kernel) => Refreshed(s, kernel)
    case AddEmpty(addr) => EmptyAdded(s, addr)
    case Report => ScriptRun(s).state
  }

  function After(ops: seq<Op>): State {
    if ops == [] then State([], []) else Next(After(ops[..|ops| - 1]), ops[|ops| - 1])
  }

  /** The most recent enumeration of the run. */
  function Latest(ops: seq<Op>): seq<Pair> {
    if ops == [] then []
    else if ops[|ops| - 1].Refresh? then ops[|ops| - 1].kernel
    else Latest(ops[..|ops| - 1])
  }

  lemma ReportKeepsPositive(s: State)
    ensures Positive(ScriptRun(s).state.active) == Positive(s.active)
    ensures EmptiesAreBlank(s.active) ==> EmptiesAreBlank(ScriptRun(s).state.active)
  {
    var k := FirstNew(s.active);
    if s.gone == [] && k < |s.active| {
      var a, b := s.active, ScriptRun(s).state.active;
      assert forall i :: 0 <= i < |a| ==> b[i].pair == a[i].pair && (b[i].status == Empty <==> a[i].status == Empty);
    }
  }

  lemma EmptyKeepsPositive(s: State, addr: int)
    ensures Positive(EmptyAdded(s, addr).active) == Positive(s.active)
    ensures EmptiesAreBlank(s.active) ==> EmptiesAreBlank(EmptyAdded(s, addr).active)
  {
    var a, b := s.active, EmptyAdded(s, addr).active;
    assert forall i :: 0 <= i < |a| ==> b[i] == a[i];
  }

  lemma {:induction false} FilteredAllKeepsBlank(rs: seq<ArpRecord>, kernel: seq<Pair>)
    requires EmptiesAreBlank(rs)
    ensures EmptiesAreBlank(FilteredAll(rs, kernel))
  {
    if kernel == [] {
    } else {
      FilteredAllKeepsBlank(rs, kernel[..|kernel| - 1]);
    }
  }

  /** In every run the records with a hardware address are exactly the pairs of the latest enumeration. */
  lemma {:induction false} PositiveIsLatest(ops: seq<Op>)
    ensures Positive(After(ops).active) == Usable(Latest(ops))
    ensures EmptiesAreBlank(After(ops).active)
    decreases |ops|
  {
    if ops == [] {
    } else {
      var s, op := After(ops[..|ops| - 1]), ops[|ops| - 1];
      PositiveIsLatest(ops[..|ops| - 1]);
      match op {
        case Refresh(kernel) =>
          RefreshIsExact(s, kernel);
          FilteredAllKeepsBlank(Begun(s.active), kernel);
          var seen := FilteredAll(Begun(s.active), kernel);
          WhereKeeps(seen, false);
          assert forall i :: 0 <= i < |Where(seen, false)| ==> Where(seen, false)[i] in seen;
        case AddEmpty(addr) => EmptyKeepsPositive(s, addr);
        case Report => ReportKeepsPositive(s);
      }
    }
  }

  lemma {:induction false} CachedIsPositive(rs: seq<ArpRecord>, addr: int, lazy: bool)
    requires EmptiesAreBlank(rs)
    ensures Cached(rs, addr, lazy).Some? ==> Pair(addr, Cached(rs, addr, lazy).value) in Positive(rs)
    ensures Cached(rs, addr, lazy).None? ==> forall m :: m != [] ==> Pair(addr, m) !in Positive(rs)
  {
    if rs == [] {
    } else {
      CachedIsPositive(rs[1..], addr, lazy);
      assert Positive(rs) == Positive(rs[1..]) + (if rs[0].status != Empty then {rs[0].pair} else {}) by {
        assert forall i :: 0 < i < |rs| ==> rs[i] == rs[1..][i - 1];
        assert forall i :: 0 <= i < |rs[1..]| ==> rs[1..][i] == rs[i + 1];
      }
    }
  }

  /** Whatever the run, a cached lookup returns only pairs of the latest enumeration, and finds one if there is one
      with a non-empty hardware address. */
  lemma LookupAnswersFromLatest(ops: seq<Op>, addr: int, lazy: bool)
    ensures var r := Cached(After(ops).active, addr, lazy);
            if r.Some? then Pair(addr, r.value) in Usable(Latest(ops))
            else forall m :: m != [] ==> Pair(addr, m) !in Usable(Latest(ops))
  {
    PositiveIsLatest(ops);
    CachedIsPositive(After(ops).active, addr, lazy);
  }

  // ----- repetitions and negative records -----

  /** The usable pairs of an enumeration as new records, in order. */
  function AsNew(kernel: seq<Pair>): seq<ArpRecord> {
    if kernel == [] then []
    else AsNew(kernel[..|kernel| - 1])
         + if |kernel[|kernel| - 1].hwaddr| <= 16 then [ArpRecord(New, kernel[|kernel| - 1])] else []
  }

  lemma {:induction false} AllAreNew(kernel: seq<Pair>)
    ensures FilteredAll([], kernel) == AsNew(kernel)
    ensures forall i :: 0 <= i < |AsNew(kernel)| ==> AsNew(kernel)[i].status == New
  {
    if kernel == [] {
    } else {
      AllAreNew(kernel[..|kernel| - 1]);
    }
  }

  lemma {:induction false} NoneMarked(rs: seq<ArpRecord>)
    requires forall i :: 0 <= i < |rs| ==> rs[i].status != Mark
    ensures Where(rs, false) == rs && Where(rs, true) == []
  {
    if rs == [] {
    } else {
      NoneMarked(rs[..|rs| - 1]);
      assert rs == rs[..|rs| - 1] + [rs[|rs| - 1]];
    }
  }

  /** The first refresh takes in the enumeration as it is: a pair that is enumerated twice gets two records, and both
      will be announced. */
  lemma FirstRefreshTakesAll(kernel: seq<Pair>)
    ensures Refreshed(State([], []), kernel) == State(AsNew(kernel), [])
  {
    AllAreNew(kernel);
    NoneMarked(AsNew(kernel));
    assert Begun([]) == [];
  }

  // ----- conservation of records -----

  function CreatedBy(s: State, op: Op): int {
    match op
    case Refresh(kernel) => |FilteredAll(Begun(s.active), kernel)| - |s.active|
    case AddEmpty(addr) => |EmptyAdded(s, addr).active| - |s.active|
    case Report => 0
  }

  function Created(ops: seq<Op>): int {
    if ops == [] then 0 else Created(ops[..|ops| - 1]) + CreatedBy(After(ops[..|ops| - 1]), ops[|ops| - 1])
  }

  function Deletions(ops: seq<Op>): nat {
    if ops == [] then 0
    else
      var a := ScriptRun(After(ops[..|ops| - 1])).action;
      Deletions(ops[..|ops| - 1]) + if ops[|ops| - 1].Report? && a.Some? && a.value.Del? then 1 else 0
  }

  lemma {:induction false} WhereSplits(rs: seq<ArpRecord>)
    ensures |Where(rs, true)| + |Where(rs, false)| == |rs|
  {
    if rs == [] {
    } else {
      WhereSplits(rs[..|rs| - 1]);
    }
  }

  /** In all runs, records ever created are in use, waiting to be reported, or reported as gone. */
  lemma {:induction false} RecordsAreConserved(ops: seq<Op>)
    ensures Created(ops) == |After(ops).active| + |After(ops).gone| + Deletions(ops)
    decreases |ops|
  {
    if ops == [] {
    } else {
      var s, op := After(ops[..|ops| - 1]), ops[|ops| - 1];
      RecordsAreConserved(ops[..|ops| - 1]);
      if op.Refresh? {
        WhereSplits(FilteredAll(Begun(s.active), op.kernel));
      }
    }
  }

  // ----- announcements -----

  ghost function Announce(known: set<Pair>, a: Option<Action>): set<Pair> {
    match a
    case None => known
    case Some(Add(p)) => known + {p}
    case Some(Del(p)) => known - {p}
  }

  /** The pairs announced by `Add` and not yet withdrawn by `Del`. */
  ghost function Announced(ops: seq<Op>): set<Pair> {
    if ops == [] then {}
    else
      var before := Announced(ops[..|ops| - 1]);
      if ops[|ops| - 1].Report? then Announce(before, ScriptRun(After(ops[..|ops| - 1])).action) else before
  }

  predicate IsDrained(s: State) { s.gone == [] && NothingNew(s.active) }

  ghost predicate Once(kernel: seq<Pair>) {
    forall i, j :: 0 <= i < j < |kernel| ==> kernel[i] != kernel[j]
  }

  predicate NothingNew(rs: seq<ArpRecord>) {
    forall i :: 0 <= i < |rs| ==> rs[i].status != New
  }

  /** No enumeration of the run reports a pair twice. */
  ghost predicate EachOnce(ops: seq<Op>) {
    forall n :: 0 <= n < |ops| && ops[n].Refresh? ==> Once(ops[n].kernel)
  }

  /** No refresh overtakes an announcement: each begins when every record has been announced. */
  ghost predicate Paced(ops: seq<Op>) {
    forall n :: 0 <= n < |ops| && ops[n].Refresh? ==> NothingNew(After(ops[..n]).active)
  }

  /** No two records in the given states carry the same pair. */
  ghost predicate DistinctIn(rs: seq<ArpRecord>, ss: set<Status>) {
    forall i, j :: 0 <= i < j < |rs| && rs[i].status in ss && rs[j].status in ss ==> rs[i].pair != rs[j].pair
  }

  /** The announced pairs are those of confirmed records and of records waiting to be reported as gone; no pair is
      both, and none is there twice. */
  ghost predicate Consistent(s: State, known: set<Pair>) {
    && (forall i :: 0 <= i < |s.active| ==> s.active[i].status != Mark)
    && DistinctIn(s.active, {Found, New})
    && (forall i, j :: 0 <= i < j < |s.gone| ==> s.gone[i].pair != s.gone[j].pair)
    && In(s.active, Found) !! Pairs(s.gone)
    && known == In(s.active, Found) + Pairs(s.gone)
  }

  lemma EmptyKeepsConsistent(s: State, addr: int, known: set<Pair>)
    requires Consistent(s, known)
    ensures Consistent(EmptyAdded(s, addr), known)
  {
    var a, b := s.active, EmptyAdded(s, addr).active;
    assert forall i :: 0 <= i < |a| ==> b[i] == a[i];
    assert In(b, Found) == In(a, Found);
  }

  lemma DelKeepsConsistent(s: State, known: set<Pair>)
    requires Consistent(s, known) && s.gone != []
    ensures Consistent(s.(gone := s.gone[1..]), known - {s.gone[0].pair})
  {
    var p, rest := s.gone[0].pair, s.gone[1..];
    assert forall i :: 0 <= i < |rest| ==> rest[i] == s.gone[i + 1];
    assert Pairs(s.gone) == {p} + Pairs(rest) by {
      assert forall i :: 0 < i < |s.gone| ==> s.gone[i] == rest[i - 1];
    }
    assert p !in Pairs(rest);
    assert p in Pairs(s.gone);
  }

  lemma AddKeepsConsistent(s: State, known: set<Pair>, k: nat)
    requires Consistent(s, known) && s.gone == [] && k < |s.active| && s.active[k].status == New
    ensures Consistent(s.(active := s.active[k := s.active[k].(status := Found)]), known + {s.active[k].pair})
  {
    var a := s.active;
    var b := a[k := a[k].(status := Found)];
    assert forall i :: 0 <= i < |a| && i != k ==> b[i] == a[i];
    assert b[k].pair == a[k].pair;
    assert In(b, Found) == In(a, Found) + {a[k].pair};
    assert Pairs(s.gone) == {};
  }

  // ----- a refresh when everything is announced -----

  /** During a refresh from `from`: old records keep their pairs and are marked or confirmed, records settled so far
      carry distinct pairs from the part of the enumeration seen. */
  ghost predicate Refreshing(from: seq<ArpRecord>, rs: seq<ArpRecord>, seen: set<Pair>) {
    && |from| <= |rs|
    && (forall i :: 0 <= i < |from| && from[i].status != Empty ==>
          rs[i].pair == from[i].pair && (rs[i].status == Mark || rs[i].status == Found))
    && (forall i :: 0 <= i < |from| && from[i].status == Empty ==> rs[i].status == Empty || rs[i].status == New)
    && (forall i :: |from| <= i < |rs| ==> rs[i].status == New)
    && DistinctIn(rs, {Found, New})
    && (forall i :: 0 <= i < |rs| && rs[i].status in {Found, New} ==> rs[i].pair in seen)
  }

  lemma FilteredRefreshing(from: seq<ArpRecord>, rs: seq<ArpRecord>, seen: set<Pair>, p: Pair)
    requires Refreshing(from, rs, seen) && p !in seen
    ensures Refreshing(from, Filtered(rs, p), seen + {p})
  {
    if !TooLong(p) {
      var k, rs' := Slot(rs, p), Filtered(rs, p);
      assert forall i :: 0 <= i < |rs| && i != k ==> rs'[i] == rs[i];
      if k < |rs| && k < |from| && from[k].status != Empty {
        assert rs[k].pair == p;
      }
    }
  }

  lemma {:induction false} FilteredAllRefreshing(from: seq<ArpRecord>, rs: seq<ArpRecord>, kernel: seq<Pair>)
    requires Refreshing(from, rs, {}) && Once(kernel)
    ensures Refreshing(from, FilteredAll(rs, kernel), (set p | p in kernel))
  {
    if kernel == [] {
    } else {
      var before, p := kernel[..|kernel| - 1], kernel[|kernel| - 1];
      assert forall i :: 0 <= i < |before| ==> before[i] == kernel[i];
      FilteredAllRefreshing(from, rs, before);
      assert p !in before;
      FilteredRefreshing(from, FilteredAll(rs, before), (set q | q in before), p);
      assert kernel == before + [p];
      assert (set q | q in kernel) == (set q | q in before) + {p};
    }
  }

  /** `Where` picks records by increasing positions. */
  lemma {:induction false} WherePositions(rs: seq<ArpRecord>, marked: bool) returns (at: seq<nat>)
    ensures |at| == |Where(rs, marked)|
    ensures forall i :: 0 <= i < |at| ==>
              at[i] < |rs| && rs[at[i]] == Where(rs, marked)[i] && (rs[at[i]].status == Mark) == marked
    ensures forall i, j :: 0 <= i < j < |at| ==> at[i] < at[j]
    ensures forall k :: 0 <= k < |rs| && (rs[k].status == Mark) == marked ==> k in at
  {
    if rs == [] {
      at := [];
    } else {
      at := WherePositions(rs[..|rs| - 1], marked);
      if (rs[|rs| - 1].status == Mark) == marked {
        at := at + [|rs| - 1];
      }
    }
  }

  lemma KeptAreDistinct(rs: seq<ArpRecord>)
    requires DistinctIn(rs, {Found, New})
    ensures DistinctIn(Where(rs, false), {Found, New})
    ensures In(Where(rs, false), Found) == In(rs, Found)
    ensures forall i :: 0 <= i < |Where(rs, false)| ==> Where(rs, false)[i].status != Mark
  {
    var at := WherePositions(rs, false);
    var kept := Where(rs, false);
    forall i, j | 0 <= i < j < |kept| && kept[i].status in {Found, New} && kept[j].status in {Found, New}
      ensures kept[i].pair != kept[j].pair
    {
      assert at[i] < at[j];
    }
    forall p | p in In(rs, Found)
      ensures p in In(kept, Found)
    {
      var k :| 0 <= k < |rs| && rs[k].status == Found && rs[k].pair == p;
      assert k in at;
      var i :| 0 <= i < |at| && at[i] == k;
      assert kept[i] == rs[k];
    }
    forall p | p in In(kept, Found)
      ensures p in In(rs, Found)
    {
      var i :| 0 <= i < |kept| && kept[i].status == Found && kept[i].pair == p;
      assert rs[at[i]] == kept[i];
    }
  }

  lemma GoneAreDistinct(rs: seq<ArpRecord>)
    requires DistinctIn(rs, {Mark, Found})
    ensures forall i, j :: 0 <= i < j < |Where(rs, true)| ==> Where(rs, true)[i].pair != Where(rs, true)[j].pair
    ensures Pairs(Where(rs, true)) == In(rs, Mark) && In(rs, Found) !! In(rs, Mark)
  {
    var at := WherePositions(rs, true);
    var gone := Where(rs, true);
    forall i, j | 0 <= i < j < |gone|
      ensures gone[i].pair != gone[j].pair
    {
      assert at[i] < at[j];
    }
    forall p | p in In(rs, Mark)
      ensures p in Pairs(gone)
    {
      var k :| 0 <= k < |rs| && rs[k].status == Mark && rs[k].pair == p;
      assert k in at;
      var i :| 0 <= i < |at| && at[i] == k;
      assert gone[i] == rs[k];
    }
    forall p | p in Pairs(gone)
      ensures p in In(rs, Mark)
    {
      var i :| 0 <= i < |gone| && gone[i].pair == p;
      assert rs[at[i]] == gone[i];
    }
  }

  /** Marked and confirmed records are the old ones. */
  lemma OldRecordsSplit(from: seq<ArpRecord>, rs: seq<ArpRecord>, seen: set<Pair>)
    requires Refreshing(from, rs, seen)
    requires (forall i :: 0 <= i < |from| ==> from[i].status != New && from[i].status != Mark)
               && DistinctIn(from, {Found, New})
    ensures DistinctIn(rs, {Mark, Found})
    ensures In(rs, Found) + In(rs, Mark) == In(from, Found)
  {
    forall i | 0 <= i < |rs| && rs[i].status in {Mark, Found}
      ensures i < |from| && from[i].status == Found && from[i].pair == rs[i].pair
    {
    }
    forall p
      ensures p in In(rs, Found) + In(rs, Mark) <==> p in In(from, Found)
    {
      if p in In(from, Found) {
        var i :| 0 <= i < |from| && from[i].status == Found && from[i].pair == p;
        assert rs[i].pair == p;
      }
    }
  }

  lemma PairsConcat(a: seq<ArpRecord>, b: seq<ArpRecord>)
    ensures Pairs(a + b) == Pairs(a) + Pairs(b)
  {
    var c := a + b;
    assert forall i :: 0 <= i < |a| ==> c[i] == a[i];
    assert forall i :: 0 <= i < |b| ==> c[|a| + i] == b[i];
  }

  lemma DistinctConcat(a: seq<ArpRecord>, b: seq<ArpRecord>)
    requires forall i, j :: 0 <= i < j < |a| ==> a[i].pair != a[j].pair
    requires forall i, j :: 0 <= i < j < |b| ==> b[i].pair != b[j].pair
    requires Pairs(a) !! Pairs(b)
    ensures forall i, j :: 0 <= i < j < |a + b| ==> (a + b)[i].pair != (a + b)[j].pair
  {
    forall i, j | 0 <= i < |a| && 0 <= j < |b|
      ensures a[i].pair != b[j].pair
    {
      assert a[i].pair in Pairs(a) && b[j].pair in Pairs(b);
    }
  }

  lemma RefreshKeepsConsistent(s: State, kernel: seq<Pair>, known: set<Pair>)
    requires Consistent(s, known) && NothingNew(s.active) && Once(kernel)
    ensures Consistent(Refreshed(s, kernel), known)
  {
    var begun := Begun(s.active);
    assert Refreshing(s.active, begun, {});
    FilteredAllRefreshing(s.active, begun, kernel);
    var seen := FilteredAll(begun, kernel);
    OldRecordsSplit(s.active, seen, (set p | p in kernel));
    KeptAreDistinct(seen);
    GoneAreDistinct(seen);
    PairsConcat(s.gone, Where(seen, true));
    DistinctConcat(s.gone, Where(seen, true));
  }

  lemma MarkedIsGone(rs: seq<ArpRecord>, i: nat)
    requires i < |rs| && rs[i].status == Mark
    ensures rs[i].pair in Pairs(Where(rs, true))
  {
    var at := WherePositions(rs, true);
    assert i in at;
    var j :| 0 <= j < |at| && at[j] == i;
    assert Where(rs, true)[j] == rs[i];
  }

  lemma FoundIsKept(rs: seq<ArpRecord>, i: nat)
    requires i < |rs| && rs[i].status == Found
    ensures rs[i].pair in In(Where(rs, false), Found)
  {
    var at := WherePositions(rs, false);
    assert i in at;
    var j :| 0 <= j < |at| && at[j] == i;
    assert Where(rs, false)[j] == rs[i];
  }

  lemma TwiceInConcat(a: seq<ArpRecord>, b: seq<ArpRecord>, p: Pair)
    requires p in Pairs(a) && p in Pairs(b)
    ensures exists i, j :: 0 <= i < j < |a + b| && (a + b)[i].pair == (a + b)[j].pair
  {
    var i :| 0 <= i < |a| && a[i].pair == p;
    var j :| 0 <= j < |b| && b[j].pair == p;
    assert (a + b)[i].pair == (a + b)[|a| + j].pair;
  }

  /** A record that is not announced when a refresh begins is confirmed or withdrawn as if it had been. */
  lemma RefreshBreaksConsistent(s: State, kernel: seq<Pair>, known: set<Pair>, i: nat)
    requires Consistent(s, known) && Once(kernel) && i < |s.active| && s.active[i].status == New
    ensures !Consistent(Refreshed(s, kernel), known)
  {
    var begun, p := Begun(s.active), s.active[i].pair;
    assert Refreshing(s.active, begun, {});
    FilteredAllRefreshing(s.active, begun, kernel);
    var seen := FilteredAll(begun, kernel);
    var gone := Where(seen, true);
    assert seen[i].pair == p && (seen[i].status == Mark || seen[i].status == Found);
    assert p !in In(s.active, Found);
    PairsConcat(s.gone, gone);
    if seen[i].status == Found {
      FoundIsKept(seen, i);
    } else {
      MarkedIsGone(seen, i);
      if p in Pairs(s.gone) {
        TwiceInConcat(s.gone, gone, p);
      }
    }
  }

  /** A refresh keeps announcements and records in step if and only if every record is announced when it starts. */
  lemma RefreshKeepsConsistentIff(s: State, kernel: seq<Pair>, known: set<Pair>)
    requires Consistent(s, known) && Once(kernel)
    ensures Consistent(Refreshed(s, kernel), known) <==> NothingNew(s.active)
  {
    if NothingNew(s.active) {
      RefreshKeepsConsistent(s, kernel, known);
    } else {
      var i :| 0 <= i < |s.active| && s.active[i].status == New;
      RefreshBreaksConsistent(s, kernel, known, i);
    }
  }

  lemma StepKeepsConsistent(s: State, op: Op, known: set<Pair>)
    requires Consistent(s, known) && !op.Refresh?
    ensures Consistent(Next(s, op), if op.Report? then Announce(known, ScriptRun(s).action) else known)
  {
    if op.AddEmpty? {
      EmptyKeepsConsistent(s, op.addr, known);
    } else if s.gone != [] {
      DelKeepsConsistent(s, known);
    } else if FirstNew(s.active) < |s.active| {
      AddKeepsConsistent(s, known, FirstNew(s.active));
    }
  }

  ghost predicate ConsistentAfter(ops: seq<Op>) { Consistent(After(ops), Announced(ops)) }

  lemma Prefixes(ops: seq<Op>, m: nat)
    requires m <= |ops|
    ensures forall n :: 0 <= n <= m ==> ops[..m][..n] == ops[..n]
    ensures EachOnce(ops) ==> EachOnce(ops[..m])
    ensures Paced(ops) ==> Paced(ops[..m])
  {
  }

  /** Announcements and records are in step after a run whose refreshes are paced. */
  lemma {:induction false} RunIsConsistent(ops: seq<Op>)
    requires EachOnce(ops) && Paced(ops)
    ensures ConsistentAfter(ops)
    decreases |ops|
  {
    if ops == [] {
      assert In([], Found) == {} && Pairs([]) == {};
    } else {
      var m := |ops| - 1;
      var s, op, known := After(ops[..m]), ops[m], Announced(ops[..m]);
      Prefixes(ops, m);
      RunIsConsistent(ops[..m]);
      if op.Refresh? {
        RefreshKeepsConsistent(s, op.kernel, known);
      } else {
        StepKeepsConsistent(s, op, known);
      }
    }
  }

  /** Announcements and records are in step throughout a run if and only if its refreshes are paced. */
  lemma RunIsConsistentIff(ops: seq<Op>)
    requires EachOnce(ops)
    ensures (forall n :: 0 <= n <= |ops| ==> ConsistentAfter(ops[..n])) <==> Paced(ops)
  {
    if Paced(ops) {
      forall n | 0 <= n <= |ops|
        ensures ConsistentAfter(ops[..n])
      {
        Prefixes(ops, n);
        RunIsConsistent(ops[..n]);
      }
    } else {
      var n :| 0 <= n < |ops| && ops[n].Refresh? && !NothingNew(After(ops[..n]).active);
      UnpacedBreaks(ops, n);
    }
  }

  lemma UnpacedBreaks(ops: seq<Op>, n: nat)
    requires n < |ops| && ops[n].Refresh? && Once(ops[n].kernel) && !NothingNew(After(ops[..n]).active)
    ensures !ConsistentAfter(ops[..n]) || !ConsistentAfter(ops[..n + 1])
  {
    assert ops[..n + 1][..n] == ops[..n];
    if ConsistentAfter(ops[..n]) {
      RefreshKeepsConsistentIff(After(ops[..n]), ops[n].kernel, Announced(ops[..n]));
    }
  }

  /** When no refresh overtakes an announcement, then whenever no event is waiting the announced pairs are exactly the
      pairs in use. */
  lemma DrainedIsAnnounced(ops: seq<Op>)
    requires EachOnce(ops) && Paced(ops) && IsDrained(After(ops))
    ensures Announced(ops) == Positive(After(ops).active)
  {
    RunIsConsistent(ops);
    var rs := After(ops).active;
    assert Pairs(After(ops).gone) == {};
    assert In(rs, Found) == Positive(rs);
  }

  /** In such runs every deletion withdraws an announced pair and every addition announces one that is not. */
  lemma EventsArePaired(ops: seq<Op>)
    requires EachOnce(ops) && Paced(ops)
    ensures match ScriptRun(After(ops)).action
            case None => true
            case Some(Del(p)) => p in Announced(ops)
            case Some(Add(p)) => p !in Announced(ops)
  {
    RunIsConsistent(ops);
    EventIsPaired(After(ops), Announced(ops));
  }

  lemma EventIsPaired(s: State, known: set<Pair>)
    requires Consistent(s, known)
    ensures match ScriptRun(s).action
            case None => true
            case Some(Del(p)) => p in known
            case Some(Add(p)) => p !in known
  {
    if s.gone == [] {
      assert Pairs(s.gone) == {};
      if FirstNew(s.active) < |s.active| {
        assert s.active[FirstNew(s.active)].pair !in In(s.active, Found);
      }
    } else {
      assert s.gone[0].pair in Pairs(s.gone);
    }
  }

  lemma WhereSingle(r: ArpRecord)
    ensures Where([r], false) == if r.status == Mark then [] else [r]
    ensures Where([r], true) == if r.status == Mark then [r] else []
  {
    assert [r][..0] == [];
    assert Where([], false) == [] && Where([], true) == [];
  }

  lemma RefreshFromEmpty(p: Pair)
    requires !TooLong(p)
    ensures Refreshed(State([], []), [p]) == State([ArpRecord(New, p)], [])
  {
    assert Begun([]) == [] && [p][..0] == [];
    assert FilteredAll([], []) == [];
    var rs := [ArpRecord(New, p)];
    assert FilteredAll([], [p]) == rs;
    WhereSingle(rs[0]);
  }

  lemma RefreshExpires(p: Pair)
    ensures Refreshed(State([ArpRecord(New, p)], []), []) == State([], [ArpRecord(Mark, p)])
  {
    var rs := [ArpRecord(Mark, p)];
    assert Begun([ArpRecord(New, p)]) == rs;
    assert FilteredAll(rs, []) == rs;
    WhereSingle(rs[0]);
  }

  lemma RefreshConfirms(p: Pair)
    requires !TooLong(p)
    ensures Refreshed(State([ArpRecord(New, p)], []), [p]) == State([ArpRecord(Found, p)], [])
  {
    var rs := [ArpRecord(Mark, p)];
    assert Begun([ArpRecord(New, p)]) == rs && [p][..0] == [];
    assert FilteredAll(rs, []) == rs;
    assert Slot(rs, p) == 0;
    assert FilteredAll(rs, [p]) == [ArpRecord(Found, p)];
    WhereSingle(ArpRecord(Found, p));
  }

  lemma TwoRefreshes(p: Pair, kernel: seq<Pair>)
    requires !TooLong(p)
    ensures After([Refresh([p]), Refresh(kernel)]) == Refreshed(State([ArpRecord(New, p)], []), kernel)
    ensures Announced([Refresh([p]), Refresh(kernel)]) == {}
  {
    var first, second := [Refresh([p])], [Refresh([p]), Refresh(kernel)];
    assert first[..0] == [] && second[..1] == first;
    RefreshFromEmpty(p);
    assert After(first) == State([ArpRecord(New, p)], []);
    assert Announced([]) == {} && Announced(first) == {};
  }

  /** Pacing is needed: a pair that two refreshes in a row report is in use, no event is waiting, and it was never
      announced. */
  lemma OvertakenEventIsLost(p: Pair)
    requires !TooLong(p)
    ensures var ops := [Refresh([p]), Refresh([p])];
            EachOnce(ops) && IsDrained(After(ops)) && Announced(ops) == {} && Positive(After(ops).active) == {p}
  {
    TwoRefreshes(p, [p]);
    RefreshConfirms(p);
    var rs := [ArpRecord(Found, p)];
    assert rs[0].pair == p;
  }

  /** And a pair that the second refresh no longer reports is withdrawn without having been announced. */
  lemma OvertakenEventWithdrawsUnannounced(p: Pair)
    requires !TooLong(p)
    ensures ScriptRun(After([Refresh([p]), Refresh([])])).action == Some(Del(p))
    ensures Announced([Refresh([p]), Refresh([])]) == {}
  {
    TwoRefreshes(p, []);
    RefreshExpires(p);
  }
}
