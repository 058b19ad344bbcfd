/** Exactly when the filter returns the best class (`filter_servers_impl` in src/domain_match.rs). */
module FilterExactness {
  import opened Basics
  import opened Names
  import opened Servers
  import opened ServerTable
  import opened ServerFilter

  // ----- what an inversion spoils -----

  /** The cascade does not pass an entry whose class, and all below, are allowed. */
  lemma {:induction false} CascadeStopsAt(s: seq<ServerEntry>, lo: nat, hi: nat, c: nat, f: QueryFlags, i: nat)
    requires lo <= i < hi <= |s| && c <= 5
    requires forall b :: 0 < b <= ClassOf(s[i]) ==> Allowed(b, false, f)
    requires forall catchAll :: Allowed(0, catchAll, f)
    ensures Cascade(s, lo, hi, c, f).Some? && Cascade(s, lo, hi, c, f).value.lo <= i
    decreases c
  {
    if c == 0 {
    } else {
      var k := RunEnd(s, lo, hi, c);
      if k <= i {
        if !(k != lo && Allowed(c, false, f)) {
          CascadeStopsAt(s, k, hi, c - 1, f, i);
        }
      } else {
        RunEndMeaning(s, lo, hi, c);
        assert HasTypeBit(s[i], c);
      }
    }
  }

  /** An entry of the highest allowed class behind a lower one spoils the choice. */
  lemma InversionFails(s: seq<ServerEntry>, g: Range, f: QueryFlags, i: nat, j: nat)
    requires g.lo <= i < j < g.hi <= |s| && ClassOf(s[i]) < ClassOf(s[j]) && !f.config
    requires forall b :: 0 < b <= ClassOf(s[i]) ==> Allowed(b, false, f)
    requires forall catchAll :: Allowed(0, catchAll, f)
    requires EntryAllowed(s[j], f)
    requires forall k :: g.lo <= k < g.hi && ClassOf(s[k]) > ClassOf(s[j]) ==> !EntryAllowed(s[k], f)
    ensures !BestClass(s, g, f, Choose(s, g, f))
  {
    CascadeStopsAt(s, g.lo, g.hi, 5, f, i);
    EarlyBlockIsNotBest(s, g, f, Cascade(s, g.lo, g.hi, 5, f).value, i, j);
  }

  lemma EarlyBlockIsNotBest(s: seq<ServerEntry>, g: Range, f: QueryFlags, b: Range, i: nat, j: nat)
    requires g.lo <= b.lo <= i < j < g.hi <= |s| && b.lo < b.hi <= g.hi && ClassOf(s[i]) < ClassOf(s[j])
    requires EntryAllowed(s[j], f)
    requires forall k :: g.lo <= k < g.hi && ClassOf(s[k]) > ClassOf(s[j]) ==> !EntryAllowed(s[k], f)
    ensures !BestClass(s, g, f, Some(b))
  {
  }

  ghost predicate HasClass(s: seq<ServerEntry>, g: Range, c: nat)
    requires g.lo <= g.hi <= |s|
  {
    exists i :: g.lo <= i < g.hi && ClassOf(s[i]) == c
  }

  /** A query that allows class `d` and everything below, and nothing above it that the group holds. */
  function Revealing(d: nat, no4: bool): QueryFlags {
    QueryFlags(d == 1, false, false, d == 5 || d == 4 || (d == 3 && no4), d == 5 || (d == 3 && !no4), false, false)
  }

  lemma InversionIsRevealed(s: seq<ServerEntry>, g: Range, i: nat, j: nat) returns (f: QueryFlags)
    requires g.lo <= i < j < g.hi <= |s| && ClassOf(s[i]) < ClassOf(s[j])
    requires ClassOf(s[j]) == 3 ==> !HasClass(s, g, 4) || !HasClass(s, g, 5)
    ensures !f.config && !BestClass(s, g, f, Choose(s, g, f))
  {
    var d, no4 := ClassOf(s[j]), !HasClass(s, g, 4);
    f := Revealing(d, no4);
    assert HasClass(s, g, d);
    forall k | g.lo <= k < g.hi && ClassOf(s[k]) > d
      ensures !EntryAllowed(s[k], f)
    {
      assert HasClass(s, g, ClassOf(s[k]));
    }
    InversionFails(s, g, f, i, j);
  }

  // ----- groups with all kinds of addresses -----

  /** An entry has at most one kind of address, which makes it literal, and does not send to resolv.conf as well. */
  predicate OneKind(f: ServFlags) {
    && (f.HasAddress() ==> f.literal) && !(f.useResolv && f.literal)
    && Bit(f.addr6) + Bit(f.addr4) + Bit(f.allZeros) <= 1
  }

  ghost predicate AllOneKind(s: seq<ServerEntry>, g: Range)
    requires g.lo <= g.hi <= |s|
  {
    forall i :: g.lo <= i < g.hi ==> OneKind(s[i].flags)
  }

  /** Which classes carry type bit `c`, when each entry is of one kind. */
  predicate Carries(kind: nat, c: nat) { if c == 2 then kind >= 2 else kind == c }

  /** The run for type bit `c`, in terms of classes. */
  lemma RunOfClass(s: seq<ServerEntry>, g: Range, lo: nat, c: nat)
    requires g.lo <= lo <= g.hi <= |s| && AllOneKind(s, g) && 1 <= c <= 5
    ensures var k := RunEnd(s, lo, g.hi, c);
            && (forall i :: lo <= i < k ==> Carries(ClassOf(s[i]), c))
            && (k < g.hi ==> !Carries(ClassOf(s[k]), c))
  {
    RunEndMeaning(s, lo, g.hi, c);
    forall i | lo <= i < g.hi
      ensures HasTypeBit(s[i], c) <==> Carries(ClassOf(s[i]), c)
    {
      assert OneKind(s[i].flags);
    }
  }

  /** The ends of the runs that the cascade computes. */
  datatype Runs = Runs(k5: nat, k4: nat, k3: nat, k2: nat, k1: nat)

  function RunsOf(s: seq<ServerEntry>, g: Range): (r: Runs)
    requires g.lo <= g.hi <= |s|
    ensures g.lo <= r.k5 <= r.k4 <= r.k3 <= r.k2 <= r.k1 <= g.hi
  {
    var k5 := RunEnd(s, g.lo, g.hi, 5);
    var k4 := RunEnd(s, k5, g.hi, 4);
    var k3 := RunEnd(s, k4, g.hi, 3);
    var k2 := RunEnd(s, k3, g.hi, 2);
    Runs(k5, k4, k3, k2, RunEnd(s, k2, g.hi, 1))
  }

  lemma CascadeUnfolds(s: seq<ServerEntry>, g: Range, f: QueryFlags, r: Runs)
    requires g.lo <= g.hi <= |s| && !f.config && r == RunsOf(s, g)
    ensures Choose(s, g, f)
         == if r.k5 != g.lo && Allowed(5, false, f) then Some(Range(g.lo, r.k5))
            else if r.k4 != r.k5 && Allowed(4, false, f) then Some(Range(r.k5, r.k4))
            else if r.k3 != r.k4 && Allowed(3, false, f) then Some(Range(r.k4, r.k3))
            else if r.k2 != r.k3 && Allowed(2, false, f) then Some(Range(r.k3, r.k2))
            else if r.k1 != r.k2 then Some(Range(r.k2, r.k1))
            else if r.k1 < g.hi && Allowed(0, IsCatchAll(s[r.k1]), f) then Some(Range(r.k1, g.hi))
            else None
  {
    assert Cascade(s, r.k1, g.hi, 0, f)
        == if r.k1 < g.hi && Allowed(0, IsCatchAll(s[r.k1]), f) then Some(Range(r.k1, g.hi)) else None;
    assert Cascade(s, r.k2, g.hi, 1, f)
        == if r.k1 != r.k2 then Some(Range(r.k2, r.k1)) else Cascade(s, r.k1, g.hi, 0, f);
    assert Cascade(s, r.k3, g.hi, 2, f)
        == if r.k2 != r.k3 && Allowed(2, false, f) then Some(Range(r.k3, r.k2)) else Cascade(s, r.k2, g.hi, 1, f);
    assert Cascade(s, r.k4, g.hi, 3, f)
        == if r.k3 != r.k4 && Allowed(3, false, f) then Some(Range(r.k4, r.k3)) else Cascade(s, r.k3, g.hi, 2, f);
    assert Cascade(s, r.k5, g.hi, 4, f)
        == if r.k4 != r.k5 && Allowed(4, false, f) then Some(Range(r.k5, r.k4)) else Cascade(s, r.k4, g.hi, 3, f);
  }

  lemma RunsAreOfClass(s: seq<ServerEntry>, g: Range, r: Runs)
    requires g.lo <= g.hi <= |s| && AllOneKind(s, g) && r == RunsOf(s, g)
    ensures forall i :: g.lo <= i < r.k5 ==> ClassOf(s[i]) == 5
    ensures forall i :: r.k5 <= i < r.k4 ==> ClassOf(s[i]) == 4
    ensures forall i :: r.k4 <= i < r.k3 ==> ClassOf(s[i]) == 3
    ensures forall i :: r.k3 <= i < r.k2 ==> ClassOf(s[i]) >= 2
    ensures forall i :: r.k2 <= i < r.k1 ==> ClassOf(s[i]) == 1
    ensures r.k5 < g.hi ==> ClassOf(s[r.k5]) != 5
    ensures r.k4 < g.hi ==> ClassOf(s[r.k4]) != 4
    ensures r.k3 < g.hi ==> ClassOf(s[r.k3]) != 3
    ensures r.k2 < g.hi ==> ClassOf(s[r.k2]) < 2
    ensures r.k1 < g.hi ==> ClassOf(s[r.k1]) != 1
  {
    RunOfClass(s, g, g.lo, 5);
    RunOfClass(s, g, r.k5, 4);
    RunOfClass(s, g, r.k4, 3);
    RunOfClass(s, g, r.k3, 2);
    RunOfClass(s, g, r.k2, 1);
  }

  /** An entry of class 3 may stand behind a lower one when the query never gets that far: IPv4 and IPv6 entries answer
      every query for addresses, and all "use resolv.conf" entries, which answer every other one, stand before it. */
  ghost predicate Unreached(s: seq<ServerEntry>, g: Range, j: nat)
    requires g.lo <= j < g.hi <= |s|
  {
    && ClassOf(s[j]) == 3 && HasClass(s, g, 4) && HasClass(s, g, 5) && HasClass(s, g, 1)
    && forall k :: g.lo <= k < g.hi && ClassOf(s[k]) == 1 ==> k < j
  }

  /** The classes descend, up to entries that are never reached. */
  ghost predicate DescendingWhereReached(s: seq<ServerEntry>, g: Range)
    requires g.lo <= g.hi <= |s|
  {
    forall i, j :: g.lo <= i < j < g.hi && ClassOf(s[i]) < ClassOf(s[j]) ==> Unreached(s, g, j)
  }

  // ----- enough -----

  /** `b` holds exactly the entries of class `c`. */
  ghost predicate IsClassBlock(s: seq<ServerEntry>, g: Range, b: Range, c: nat)
    requires g.lo <= g.hi <= |s|
  {
    g.lo <= b.lo <= b.hi <= g.hi && forall i :: g.lo <= i < g.hi ==> (b.lo <= i < b.hi <==> ClassOf(s[i]) == c)
  }

  lemma BlockIsBest(s: seq<ServerEntry>, g: Range, f: QueryFlags, b: Range, c: nat)
    requires g.lo <= g.hi <= |s| && IsClassBlock(s, g, b, c) && b.lo < b.hi && 1 <= c && Allowed(c, false, f)
    requires forall i :: g.lo <= i < g.hi && ClassOf(s[i]) > c ==> !Allowed(ClassOf(s[i]), false, f)
    ensures BestClass(s, g, f, Some(b))
  {
    assert ClassOf(s[b.lo]) == c;
  }

  function Classes(s: seq<ServerEntry>): (cs: seq<nat>)
    ensures |cs| == |s| && forall i :: 0 <= i < |s| ==> cs[i] == ClassOf(s[i])
  {
    seq(|s|, i requires 0 <= i < |s| => ClassOf(s[i]))
  }

  /** The runs, in terms of the classes alone. */
  ghost predicate RunsIn(cs: seq<nat>, g: Range, r: Runs) {
    && g.lo <= r.k5 <= r.k4 <= r.k3 <= r.k2 <= r.k1 <= g.hi <= |cs|
    && (forall i :: g.lo <= i < r.k5 ==> cs[i] == 5) && (r.k5 < g.hi ==> cs[r.k5] != 5)
    && (forall i :: r.k5 <= i < r.k4 ==> cs[i] == 4) && (r.k4 < g.hi ==> cs[r.k4] != 4)
    && (forall i :: r.k4 <= i < r.k3 ==> cs[i] == 3) && (r.k3 < g.hi ==> cs[r.k3] != 3)
    && (forall i :: r.k3 <= i < r.k2 ==> cs[i] >= 2) && (r.k2 < g.hi ==> cs[r.k2] < 2)
    && (forall i :: r.k2 <= i < r.k1 ==> cs[i] == 1) && (r.k1 < g.hi ==> cs[r.k1] != 1)
  }

  /** Only class 3 stands behind lower classes, and then behind all of class 1. */
  ghost predicate OnlyThreesLate(cs: seq<nat>, g: Range) {
    && g.lo <= g.hi <= |cs|
    && (forall i :: g.lo <= i < g.hi ==> cs[i] <= 5)
    && (forall i, j :: g.lo <= i < j < g.hi && cs[i] < cs[j] ==> cs[j] == 3)
    && (forall i, j, k :: g.lo <= i < j < g.hi && cs[i] < cs[j] && g.lo <= k < g.hi && cs[k] == 1 ==> k < j)
  }

  ghost predicate ClassBlock(cs: seq<nat>, g: Range, lo: nat, hi: nat, c: nat)
    requires g.lo <= g.hi <= |cs|
  {
    forall i :: g.lo <= i < g.hi ==> (lo <= i < hi <==> cs[i] == c)
  }

  lemma HighBlocks(cs: seq<nat>, g: Range, r: Runs)
    requires RunsIn(cs, g, r) && OnlyThreesLate(cs, g)
    ensures ClassBlock(cs, g, g.lo, r.k5, 5) && ClassBlock(cs, g, r.k5, r.k4, 4)
    ensures forall i :: r.k4 <= i < g.hi ==> cs[i] <= 3
  {
    forall i | r.k5 <= i < g.hi
      ensures cs[i] <= 4
    {
      assert i == r.k5 || cs[r.k5] < 5;
    }
    forall i | r.k4 <= i < g.hi
      ensures cs[i] <= 3
    {
      assert i == r.k4 || cs[r.k4] < 4;
    }
  }

  lemma BlockOfTwos(cs: seq<nat>, g: Range, r: Runs, i1: nat)
    requires RunsIn(cs, g, r) && OnlyThreesLate(cs, g) && g.lo <= i1 < g.hi && cs[i1] == 1
    ensures ClassBlock(cs, g, r.k3, r.k2, 2) && r.k2 <= i1
  {
    HighBlocks(cs, g, r);
    assert r.k2 <= i1;
    forall i | r.k3 <= i < r.k2
      ensures cs[i] == 2
    {
      assert i == r.k3 || cs[r.k3] < 3;
    }
    forall i | r.k2 <= i < g.hi
      ensures cs[i] != 2
    {
      assert i == r.k2 || cs[r.k2] < 2;
    }
  }

  lemma BlockOfOnes(cs: seq<nat>, g: Range, r: Runs, i1: nat)
    requires RunsIn(cs, g, r) && OnlyThreesLate(cs, g) && g.lo <= i1 < g.hi && cs[i1] == 1
    ensures ClassBlock(cs, g, r.k2, r.k1, 1) && r.k2 < r.k1
  {
    HighBlocks(cs, g, r);
    BlockOfTwos(cs, g, r, i1);
    assert cs[r.k2] == 1 by {
      assert i1 == r.k2 || cs[r.k2] >= cs[i1];
    }
    forall i | r.k1 <= i < g.hi
      ensures cs[i] != 1
    {
      if i != r.k1 {
        assert cs[r.k1] == 3 || cs[r.k1] == 0;
        assert cs[r.k1] == 3 ==> cs[r.k2] < cs[r.k1];
      }
    }
  }

  lemma LateThrees(s: seq<ServerEntry>, g: Range, j: nat)
    requires g.lo <= g.hi <= |s| && DescendingWhereReached(s, g) && g.lo <= j < g.hi && Unreached(s, g, j)
    ensures OnlyThreesLate(Classes(s), g)
  {
    var cs := Classes(s);
    forall i, j | g.lo <= i < j < g.hi && cs[i] < cs[j]
      ensures cs[j] == 3 && forall k :: g.lo <= k < g.hi && cs[k] == 1 ==> k < j
    {
      assert Unreached(s, g, j);
    }
  }

  lemma RunsInClasses(s: seq<ServerEntry>, g: Range, r: Runs)
    requires g.lo <= g.hi <= |s| && AllOneKind(s, g) && r == RunsOf(s, g)
    ensures RunsIn(Classes(s), g, r)
  {
    RunsAreOfClass(s, g, r);
  }

  lemma BlockOfClasses(s: seq<ServerEntry>, cs: seq<nat>, g: Range, lo: nat, hi: nat, c: nat)
    requires cs == Classes(s) && g.lo <= lo <= hi <= g.hi <= |cs| && ClassBlock(cs, g, lo, hi, c)
    ensures IsClassBlock(s, g, Range(lo, hi), c)
  {
  }

  lemma FindClass(s: seq<ServerEntry>, cs: seq<nat>, g: Range, c: nat) returns (i: nat)
    requires cs == Classes(s) && g.lo <= g.hi <= |s| && HasClass(s, g, c)
    ensures g.lo <= i < g.hi && cs[i] == c
  {
    i :| g.lo <= i < g.hi && ClassOf(s[i]) == c;
  }

  /** With an entry that is never reached, the runs are the classes 5, 4, 2 and 1, none but 2 empty. */
  lemma RunsAreBlocks(s: seq<ServerEntry>, g: Range, r: Runs, cs: seq<nat>, j: nat)
    requires cs == Classes(s) && RunsIn(cs, g, r) && DescendingWhereReached(s, g)
    requires g.lo <= j < g.hi && Unreached(s, g, j)
    ensures IsClassBlock(s, g, Range(g.lo, r.k5), 5) && g.lo < r.k5
    ensures IsClassBlock(s, g, Range(r.k5, r.k4), 4) && r.k5 < r.k4
    ensures IsClassBlock(s, g, Range(r.k3, r.k2), 2)
    ensures IsClassBlock(s, g, Range(r.k2, r.k1), 1) && r.k2 < r.k1
  {
    LateThrees(s, g, j);
    var i5 := FindClass(s, cs, g, 5);
    var i4 := FindClass(s, cs, g, 4);
    var i1 := FindClass(s, cs, g, 1);
    HighBlocks(cs, g, r);
    BlockOfTwos(cs, g, r, i1);
    BlockOfOnes(cs, g, r, i1);
    BlockOfClasses(s, cs, g, g.lo, r.k5, 5);
    BlockOfClasses(s, cs, g, r.k5, r.k4, 4);
    BlockOfClasses(s, cs, g, r.k3, r.k2, 2);
    BlockOfClasses(s, cs, g, r.k2, r.k1, 1);
  }

  lemma UnreachedIsHarmless(s: seq<ServerEntry>, g: Range, f: QueryFlags, j: nat)
    requires g.lo <= g.hi <= |s| && AllOneKind(s, g) && DescendingWhereReached(s, g) && !f.config
    requires g.lo <= j < g.hi && Unreached(s, g, j)
    ensures BestClass(s, g, f, Choose(s, g, f))
  {
    var r := RunsOf(s, g);
    RunsInClasses(s, g, r);
    RunsAreBlocks(s, g, r, Classes(s), j);
    CascadeUnfolds(s, g, f, r);
    if Allowed(5, false, f) {
      BlockIsBest(s, g, f, Range(g.lo, r.k5), 5);
    } else if Allowed(4, false, f) {
      BlockIsBest(s, g, f, Range(r.k5, r.k4), 4);
    } else if r.k2 != r.k3 && Allowed(2, false, f) {
      BlockIsBest(s, g, f, Range(r.k3, r.k2), 2);
    } else {
      BlockIsBest(s, g, f, Range(r.k2, r.k1), 1);
    }
  }

  // ----- needed -----

  const NO_FAMILY := QueryFlags(false, false, false, false, false, false, false)
  const ONLY_SERVERS := QueryFlags(true, false, false, false, false, false, false)

  lemma MixedBlockIsNotBest(s: seq<ServerEntry>, g: Range, f: QueryFlags, b: Range, i: nat, j: nat)
    requires g.lo <= b.lo <= i < j < b.hi <= g.hi <= |s| && ClassOf(s[i]) != ClassOf(s[j])
    ensures !BestClass(s, g, f, Some(b))
  {
  }

  /** A literal run that holds classes 2 and 3 is returned to a query for neither family. */
  lemma LiteralRunMixes(s: seq<ServerEntry>, g: Range, i: nat, j: nat)
    requires g.lo <= i < j < g.hi <= |s| && AllOneKind(s, g) && ClassOf(s[i]) == 2 && ClassOf(s[j]) == 3
    requires forall k :: g.lo <= k < j ==> ClassOf(s[k]) >= 2
    ensures !BestClass(s, g, NO_FAMILY, Choose(s, g, NO_FAMILY))
  {
    var r := RunsOf(s, g);
    RunsAreOfClass(s, g, r);
    CascadeUnfolds(s, g, NO_FAMILY, r);
    assert r.k3 <= i && j < r.k2;
    MixedBlockIsNotBest(s, g, NO_FAMILY, Range(r.k3, r.k2), i, j);
  }

  /** Without "use resolv.conf" entries the rest of the group is returned to a query for servers. */
  lemma RestMixes(s: seq<ServerEntry>, g: Range, i: nat, j: nat)
    requires g.lo <= i < j < g.hi <= |s| && AllOneKind(s, g) && ClassOf(s[i]) == 0 && ClassOf(s[j]) == 3
    requires !HasClass(s, g, 1)
    ensures !BestClass(s, g, ONLY_SERVERS, Choose(s, g, ONLY_SERVERS))
  {
    var r := RunsOf(s, g);
    RunsAreOfClass(s, g, r);
    CascadeUnfolds(s, g, ONLY_SERVERS, r);
    assert r.k1 == r.k2 <= i;
    MixedBlockIsNotBest(s, g, ONLY_SERVERS, Range(r.k1, g.hi), i, j);
  }

  /** A class that is allowed first and stands in two places is never returned whole. */
  lemma SplitClassFails(s: seq<ServerEntry>, g: Range, i: nat, j: nat, k: nat, b: Option<Range>)
    requires g.lo <= i < j < k < g.hi <= |s| && ClassOf(s[i]) == ClassOf(s[k]) == 1 && ClassOf(s[j]) != 1
    ensures !BestClass(s, g, ONLY_SERVERS, b)
  {
    assert EntryAllowed(s[i], ONLY_SERVERS) && EntryAllowed(s[k], ONLY_SERVERS);
    assert forall x :: g.lo <= x < g.hi && EntryAllowed(s[x], ONLY_SERVERS) ==> ClassOf(s[x]) <= 1;
  }

  /** An entry of class 3 behind a lower one that can be reached spoils the choice for some query. */
  lemma ReachedInversionFails(s: seq<ServerEntry>, g: Range, i: nat, j: nat) returns (f: QueryFlags)
    requires g.lo <= i < j < g.hi <= |s| && AllOneKind(s, g) && ClassOf(s[i]) < ClassOf(s[j]) == 3
    requires HasClass(s, g, 4) && HasClass(s, g, 5) && !Unreached(s, g, j)
    ensures !f.config && !BestClass(s, g, f, Choose(s, g, f))
  {
    if forall k :: g.lo <= k < j ==> ClassOf(s[k]) >= 2 {
      f := NO_FAMILY;
      LiteralRunMixes(s, g, i, j);
    } else {
      var x :| g.lo <= x < j && ClassOf(s[x]) < 2;
      if !HasClass(s, g, 1) {
        f := ONLY_SERVERS;
        assert ClassOf(s[x]) == 0;
        RestMixes(s, g, x, j);
      } else {
        var k :| g.lo <= k < g.hi && ClassOf(s[k]) == 1 && k >= j;
        if ClassOf(s[x]) == 1 {
          f := ONLY_SERVERS;
          SplitClassFails(s, g, x, j, k, Choose(s, g, f));
        } else {
          f := InversionIsRevealed(s, g, x, k);
        }
      }
    }
  }

  /** The choice is the best allowed class for every query if and only if the classes of the group descend, up to
      entries that are never reached. Entries may be of mixed kind unless all of 0.0.0.0, IPv4 and IPv6 occur. */
  lemma BestForEveryQueryIff(s: seq<ServerEntry>, e: ServerEntry, g: Range)
    requires IsGroup(s, e, g)
    requires AllOneKind(s, g) || !(HasClass(s, g, 3) && HasClass(s, g, 4) && HasClass(s, g, 5))
    ensures (forall f: QueryFlags :: !f.config ==> BestClass(s, g, f, Choose(s, g, f))) <==>
              DescendingWhereReached(s, g)
  {
    if DescendingWhereReached(s, g) {
      forall f: QueryFlags | !f.config
        ensures BestClass(s, g, f, Choose(s, g, f))
      {
        ReachedIsEnough(s, e, g, f);
      }
    } else {
      var f := ReachedIsNeeded(s, g);
    }
  }

  lemma ReachedIsEnough(s: seq<ServerEntry>, e: ServerEntry, g: Range, f: QueryFlags)
    requires IsGroup(s, e, g) && DescendingWhereReached(s, g) && !f.config
    requires AllOneKind(s, g) || !(HasClass(s, g, 3) && HasClass(s, g, 4) && HasClass(s, g, 5))
    ensures BestClass(s, g, f, Choose(s, g, f))
  {
    if Descending(s, g) {
      ChooseIsBestClass(s, e, g, f);
    } else {
      var i, j :| g.lo <= i < j < g.hi && ClassOf(s[i]) < ClassOf(s[j]);
      assert Unreached(s, g, j);
      assert HasClass(s, g, 3);
      UnreachedIsHarmless(s, g, f, j);
    }
  }

  lemma ReachedIsNeeded(s: seq<ServerEntry>, g: Range) returns (f: QueryFlags)
    requires g.lo <= g.hi <= |s| && !DescendingWhereReached(s, g)
    requires AllOneKind(s, g) || !(HasClass(s, g, 3) && HasClass(s, g, 4) && HasClass(s, g, 5))
    ensures !f.config && !BestClass(s, g, f, Choose(s, g, f))
  {
    var i, j :| g.lo <= i < j < g.hi && ClassOf(s[i]) < ClassOf(s[j]) && !Unreached(s, g, j);
    if ClassOf(s[j]) == 3 && HasClass(s, g, 4) && HasClass(s, g, 5) {
      assert HasClass(s, g, 3);
      f := ReachedInversionFails(s, g, i, j);
    } else {
      f := InversionIsRevealed(s, g, i, j);
    }
  }

  /** With a plain and a wildcard entry for one domain the cascade can miss the best class: an upstream
      "lan" hides the address configured for "*lan" from an address query, and the block mixes both. */
  lemma MixedGroupMissesBestClass()
    ensures var plain := ServerEntry("lan", NO_FLAGS, 0, 0, false);
            var wild := ServerEntry("lan", NO_FLAGS.(literal := true, addr4 := true, wildcard := true), 0, 0, true);
            var f := QueryFlags(false, false, false, true, false, false, false);
            && Sorted([plain, wild])
            && IsGroup([plain, wild], plain, Range(0, 2))
            && !BestClass([plain, wild], Range(0, 2), f, Choose([plain, wild], Range(0, 2), f))
  {
    OrderEqualIsSameName("lan", "lan");
    var plain := ServerEntry("lan", NO_FLAGS, 0, 0, false);
    var wild := ServerEntry("lan", NO_FLAGS.(literal := true, addr4 := true, wildcard := true), 0, 0, true);
    var s, f := [plain, wild], QueryFlags(false, false, false, true, false, false, false);
    assert s[0] == plain && s[1] == wild;
    assert RunEnd(s, 0, 2, 5) == 0 && RunEnd(s, 0, 2, 4) == 0 && RunEnd(s, 0, 2, 3) == 0;
    assert RunEnd(s, 0, 2, 2) == 0 && RunEnd(s, 0, 2, 1) == 0;
    assert Choose(s, Range(0, 2), f) == Some(Range(0, 2));
    assert ClassOf(s[1]) == 4 && ClassOf(s[0]) == 0;
  }
}
