/** Placeholders for the ancestors of inserted names (`insert_with_non_terminals`). */
module NonTerminals {
  import opened Basics
  import opened Names
  import opened Lru
  import opened Cache

  /** `non_terminal_names`: the parents of a name, nearest first, stopping before the top-level domain. */
  function Parents(name: string): seq<string>
    decreases |name|
  {
    var pos := IndexOf(name, '.', 0);
    if pos == |name| then []
    else
      var rest := name[pos + 1..];
      (if '.' in rest then [rest] else []) + Parents(rest)
  }

  method NonTerminalNames(name: string) returns (parents: seq<string>)
    ensures parents == Parents(name)
  {
    parents := [];
    var rest := name;
    while IndexOf(rest, '.', 0) < |rest|
      invariant Parents(name) == parents + Parents(rest)
      decreases |rest|
    {
      rest := rest[IndexOf(rest, '.', 0) + 1..];
      if '.' in rest {
        parents := parents + [rest];
      }
    }
  }

  predicate FollowsDot(a: string, name: string, i: int) {
    0 < i <= |name| && name[i - 1] == '.' && name[i..] == a
  }

  /** `a` is a proper ancestor of `name`: what follows one of its dots. */
  ghost predicate IsAncestor(a: string, name: string) {
    exists i :: FollowsDot(a, name, i)
  }

  /** The ancestors are what follows the first dot and its ancestors. */
  lemma AncestorsAfterFirstLabel(name: string, a: string)
    requires IndexOf(name, '.', 0) < |name|
    ensures IsAncestor(a, name) <==>
              a == name[IndexOf(name, '.', 0) + 1..] || IsAncestor(a, name[IndexOf(name, '.', 0) + 1..])
  {
    var at := IndexOf(name, '.', 0) + 1;
    var rest := name[at..];
    if IsAncestor(a, name) {
      var i :| FollowsDot(a, name, i);
      FollowsBeyond(name, at, a, i);
    }
    if IsAncestor(a, rest) {
      var i :| FollowsDot(a, rest, i);
      FollowsBeyond(name, at, a, i + at);
    }
    if a == rest {
      assert FollowsDot(a, name, at);
    }
  }

  lemma FollowsBeyond(name: string, at: nat, a: string, i: int)
    requires 0 < at <= |name| && (forall j :: 0 <= j < at - 1 ==> name[j] != '.')
    ensures FollowsDot(a, name, i) ==> i >= at && (i == at ==> a == name[at..])
    ensures i > at ==> (FollowsDot(a, name, i) <==> FollowsDot(a, name[at..], i - at))
  {
    if at < i <= |name| {
      assert name[at..][i - at..] == name[i..];
    }
  }

  /** The parents are exactly the proper ancestors with at least two labels. */
  lemma {:induction false} ParentsAreAncestors(name: string, a: string)
    ensures a in Parents(name) <==> IsAncestor(a, name) && '.' in a
    decreases |name|
  {
    var pos := IndexOf(name, '.', 0);
    if pos < |name| {
      AncestorsAfterFirstLabel(name, a);
      ParentsAreAncestors(name[pos + 1..], a);
    }
  }

  function PlaceholderKey(parent: string): CacheKey {
    CacheKey(parent, NO_TYPES)
  }

  /** The existing entry, living at least as long as the source. */
  function Extended(held: CacheRecord, source: CacheRecord): CacheRecord {
    if source.flags.immortal then held.(flags := held.flags.(immortal := true))
    else if !held.flags.immortal && source.expires > held.expires then held.(expires := source.expires)
    else held
  }

  function Placeholder(parent: string, source: CacheRecord): CacheRecord {
    CacheRecord(parent,
      source.flags.(forward := true, types := NO_TYPES.(
        neg := source.flags.types.neg, nxdomain := source.flags.types.nxdomain, dnssec := source.flags.types.dnssec)),
      0, source.expires, None, source.uid)
  }

  function CoverParent(l: Records, parent: string, source: CacheRecord, c: Config): Records {
    match Peek(l, PlaceholderKey(parent))
    case Some(held) => Update(l, PlaceholderKey(parent), Extended(held, source))
    case None => InsertRecord(l, Placeholder(parent, source), c)
  }

  function CoverParents(l: Records, parents: seq<string>, source: CacheRecord, c: Config): Records
    decreases |parents|
  {
    if parents == [] then l else CoverParents(CoverParent(l, parents[0], source, c), parents[1..], source, c)
  }

  /** `insert_with_non_terminals`. */
  function InsertCovered(l: Records, rec: CacheRecord, c: Config): Records {
    CoverParents(InsertRecord(l, rec, c), Parents(rec.name), rec, c)
  }

  method InsertWithNonTerminals(cache: DnsCache, rec: CacheRecord)
    requires cache.Valid()
    modifies cache
    ensures cache.Valid() && cache.records == InsertCovered(old(cache.records), rec, cache.config)
  {
    cache.Insert(rec);
    var parents := NonTerminalNames(rec.name);
    assert parents[0..] == parents;
    for i := 0 to |parents|
      invariant cache.Valid()
      invariant InsertCovered(old(cache.records), rec, cache.config)
             == CoverParents(cache.records, parents[i..], rec, cache.config)
    {
      assert parents[i..][1..] == parents[i + 1..];
      var key := PlaceholderKey(parents[i]);
      var held := Peek(cache.records, key);
      if held.Some? {
        UpdateKeys(cache.records, key, Extended(held.value, rec));
        cache.records := Update(cache.records, key, Extended(held.value, rec));
      } else {
        cache.Insert(Placeholder(parents[i], rec));
      }
    }
  }

  // ----- runs -----

  /** A positive record in lower case: it has a type of its own and no negative or DNSSEC bit. */
  predicate Positive(rec: CacheRecord) {
    var t := rec.flags.types;
    && Lower(rec.name) == rec.name
    && (t.ipv4 || t.ipv6 || t.cname || t.reverse || t.rr || t.dnskey || t.ds)
    && !t.neg && !t.nxdomain && !t.dnssec
  }

  predicate RoomFor(l: Records, key: CacheKey, c: Config) {
    c.maxSize > 0 && (Peek(l, key).Some? || |l| < c.maxSize)
  }

  predicate RoomForParents(l: Records, parents: seq<string>, source: CacheRecord, c: Config)
    decreases |parents|
  {
    parents == [] ||
    (RoomFor(l, PlaceholderKey(parents[0]), c)
     && RoomForParents(CoverParent(l, parents[0], source, c), parents[1..], source, c))
  }

  /** Everything the insert adds finds room. */
  predicate RoomForInsert(l: Records, rec: CacheRecord, c: Config) {
    RoomFor(l, KeyOf(rec), c) && RoomForParents(InsertRecord(l, rec, c), Parents(rec.name), rec, c)
  }

  predicate Outlives(p: CacheRecord, r: CacheRecord) {
    p.flags.immortal || (!r.flags.immortal && p.expires >= r.expires)
  }

  /** `a` is held as a placeholder that lives as long as `r`, unless `r` has expired by `t`. */
  predicate Covered(l: Records, a: string, r: CacheRecord, t: int) {
    Expired(r, t) || (Peek(l, PlaceholderKey(a)).Some? && Outlives(Peek(l, PlaceholderKey(a)).value, r))
  }

  lemma LowerSuffix(name: string, i: nat)
    requires i <= |name|
    ensures Lower(name[i..]) == Lower(name)[i..]
  {
  }

  lemma AncestorsAreLower(name: string, a: string)
    requires Lower(name) == name && a in Parents(name)
    ensures Lower(a) == a
  {
    ParentsAreAncestors(name, a);
    var i :| FollowsDot(a, name, i);
    LowerSuffix(name, i);
  }

  /** Covering one parent covers it for the source and spoils nothing. */
  lemma CoverParentCovers(l: Records, parent: string, source: CacheRecord, c: Config, a: string, r: CacheRecord, t: int)
    requires Positive(source) && Lower(parent) == parent && RoomFor(l, PlaceholderKey(parent), c)
    ensures Covered(CoverParent(l, parent, source, c), parent, source, t)
    ensures Covered(l, a, r, t) ==> Covered(CoverParent(l, parent, source, c), a, r, t)
  {
    var key := PlaceholderKey(parent);
    match Peek(l, key) {
      case Some(held) =>
        PeekUpdate(l, key, Extended(held, source), key);
        PeekUpdate(l, key, Extended(held, source), PlaceholderKey(a));
      case None =>
        var p := Placeholder(parent, source);
        assert KeyOf(p) == key;
        PeekPut(l, key, p, c.maxSize, key);
        PeekPut(l, key, p, c.maxSize, PlaceholderKey(a));
    }
  }

  lemma {:induction false} CoverParentsCovers(
    l: Records, parents: seq<string>, source: CacheRecord, c: Config, a: string, r: CacheRecord, t: int)
    requires Positive(source) && RoomForParents(l, parents, source, c)
    requires forall i :: 0 <= i < |parents| ==> Lower(parents[i]) == parents[i]
    ensures Covered(l, a, r, t) ==> Covered(CoverParents(l, parents, source, c), a, r, t)
    ensures a in parents ==> Covered(CoverParents(l, parents, source, c), a, source, t)
    decreases |parents|
  {
    if parents == [] {
    } else {
      var l' := CoverParent(l, parents[0], source, c);
      CoverParentCovers(l, parents[0], source, c, a, r, t);
      CoverParentsCovers(l', parents[1..], source, c, a, r, t);
      if a == parents[0] {
        CoverParentsCovers(l', parents[1..], source, c, a, source, t);
      }
    }
  }

  lemma InsertCoveredCovers(l: Records, rec: CacheRecord, c: Config, a: string, r: CacheRecord, t: int)
    requires Positive(rec) && RoomForInsert(l, rec, c)
    ensures Covered(l, a, r, t) ==> Covered(InsertCovered(l, rec, c), a, r, t)
    ensures a in Parents(rec.name) ==> Covered(InsertCovered(l, rec, c), a, rec, t)
  {
    forall i | 0 <= i < |Parents(rec.name)|
      ensures Lower(Parents(rec.name)[i]) == Parents(rec.name)[i]
    {
      AncestorsAreLower(rec.name, Parents(rec.name)[i]);
    }
    assert KeyOf(rec) != PlaceholderKey(a);
    PeekPut(l, KeyOf(rec), rec, c.maxSize, PlaceholderKey(a));
    CoverParentsCovers(InsertRecord(l, rec, c), Parents(rec.name), rec, c, a, r, t);
  }

  datatype Op = InsertOp(rec: CacheRecord) | SweepOp(now: int)

  function After(l: Records, ops: seq<Op>, c: Config): Records
    decreases |ops|
  {
    if ops == [] then l
    else
      var before := After(l, ops[..|ops| - 1], c);
      match ops[|ops| - 1]
      case InsertOp(rec) => InsertCovered(before, rec, c)
      case SweepOp(now) => Drop(before, ExpiredAt(now))
  }

  /** Sweeps happen no later than `t`; inserts are positive, in lower case, and find room. */
  predicate RunHasRoom(l: Records, ops: seq<Op>, t: int, c: Config)
    decreases |ops|
  {
    ops == [] ||
    (var last := ops[|ops| - 1];
     RunHasRoom(l, ops[..|ops| - 1], t, c)
     && match last
        case InsertOp(rec) => Positive(rec) && RoomForInsert(After(l, ops[..|ops| - 1], c), rec, c)
        case SweepOp(now) => now <= t)
  }

  lemma {:induction false} CoverKeepsDistinct(l: Records, parents: seq<string>, source: CacheRecord, c: Config)
    requires Distinct(l) && |l| <= c.maxSize
    ensures Distinct(CoverParents(l, parents, source, c)) && |CoverParents(l, parents, source, c)| <= c.maxSize
    decreases |parents|
  {
    if parents == [] {
    } else {
      var key := PlaceholderKey(parents[0]);
      if Peek(l, key).Some? {
        UpdateKeys(l, key, Extended(Peek(l, key).value, source));
      }
      CapacityKept(l, Placeholder(parents[0], source), c);
      CoverKeepsDistinct(CoverParent(l, parents[0], source, c), parents[1..], source, c);
    }
  }

  lemma {:induction false} AfterIsValid(ops: seq<Op>, c: Config)
    ensures Distinct(After([], ops, c)) && |After([], ops, c)| <= c.maxSize
    decreases |ops|
  {
    if ops == [] {
    } else {
      var before := After([], ops[..|ops| - 1], c);
      AfterIsValid(ops[..|ops| - 1], c);
      match ops[|ops| - 1] {
        case InsertOp(rec) =>
          CapacityKept(before, rec, c);
          CoverKeepsDistinct(InsertRecord(before, rec, c), Parents(rec.name), rec, c);
        case SweepOp(now) =>
          DistinctDrop(before, ExpiredAt(now));
          PeekDrop(before, ExpiredAt(now), PlaceholderKey(""));
      }
    }
  }

  /** After any run of inserts and sweeps, every record ever inserted that is still live has each proper ancestor with
      at least two labels in the cache as a placeholder that lives at least as long. */
  lemma {:induction false} LiveRecordsHaveLiveAncestors(ops: seq<Op>, t: int, c: Config, n: nat, a: string)
    requires RunHasRoom([], ops, t, c)
    requires n < |ops| && ops[n].InsertOp? && IsAncestor(a, ops[n].rec.name) && '.' in a
    ensures Covered(After([], ops, c), a, ops[n].rec, t)
    decreases |ops|
  {
    var r := ops[n].rec;
    var before, last := ops[..|ops| - 1], ops[|ops| - 1];
    ParentsAreAncestors(r.name, a);
    if n < |ops| - 1 {
      LiveRecordsHaveLiveAncestors(before, t, c, n, a);
    }
    match last {
      case InsertOp(rec) => InsertCoveredCovers(After([], before, c), rec, c, a, r, t);
      case SweepOp(now) =>
        AfterIsValid(before, c);
        PeekDrop(After([], before, c), ExpiredAt(now), PlaceholderKey(a));
    }
  }

  /** The same, read off the clock: while the record is live, so is the placeholder. */
  lemma PlaceholderIsLive(ops: seq<Op>, t: int, c: Config, n: nat, a: string, now: int)
    requires RunHasRoom([], ops, t, c) && t <= now
    requires n < |ops| && ops[n].InsertOp? && IsAncestor(a, ops[n].rec.name) && '.' in a
    requires !Expired(ops[n].rec, now)
    ensures var held := Peek(After([], ops, c), PlaceholderKey(a)); held.Some? && !Expired(held.value, now)
  {
    LiveRecordsHaveLiveAncestors(ops, t, c, n, a);
  }

  /** What the cache holds for a parent afterwards. A new placeholder has no address and no type of its own, only the
      negative and DNSSEC bits of the record, and lives as long as that. One that is there becomes immortal with an
      immortal record, and otherwise lives at least as long as before. */
  lemma CoverParentMeaning(l: Records, parent: string, source: CacheRecord, c: Config)
    requires Lower(parent) == parent && c.maxSize > 0
    requires !source.flags.types.neg && !source.flags.types.nxdomain && !source.flags.types.dnssec
    ensures var held, now := Peek(l, CacheKey(parent, NO_TYPES)), CoverParent(l, parent, source, c);
            var p := Peek(now, CacheKey(parent, NO_TYPES));
            && p.Some?
            && match held
               case None =>
                 p.value == CacheRecord(parent, source.flags.(types := NO_TYPES, forward := true), 0, source.expires,
                   None, source.uid)
               case Some(h) =>
                 && p.value.(expires := 0, flags := h.flags) == h.(expires := 0)
                 && p.value.flags == h.flags.(immortal := h.flags.immortal || source.flags.immortal)
                 && (!p.value.flags.immortal ==> p.value.expires == Later(h.expires, source.expires))
  {
    var key := PlaceholderKey(parent);
    if Peek(l, key).Some? {
      PeekUpdate(l, key, Extended(Peek(l, key).value, source), key);
    } else {
      var p := Placeholder(parent, source);
      assert KeyOf(p) == key;
      PutAddsOnlyItsKey(l, key, p, c.maxSize, key);
    }
  }

  function Later(s: int, t: int): int { if s >= t then s else t }

  // ----- no placeholder without a reason -----

  /** The placeholder of `a` has its lifetime from a record below `a`. */
  predicate Because(p: CacheRecord, a: string, rec: CacheRecord) {
    && a in Parents(rec.name) && p.flags.immortal == rec.flags.immortal
    && (p.flags.immortal || p.expires == rec.expires)
  }

  ghost predicate Justified(l: Records, ops: seq<Op>, a: string) {
    var held := Peek(l, PlaceholderKey(a));
    held.Some? ==> exists n :: 0 <= n < |ops| && ops[n].InsertOp? && Because(held.value, a, ops[n].rec)
  }

  lemma CoverParentJustified(l: Records, parent: string, ops: seq<Op>, n: nat, c: Config, a: string)
    requires n < |ops| && ops[n].InsertOp? && parent in Parents(ops[n].rec.name) && Positive(ops[n].rec)
    requires Lower(parent) == parent && Justified(l, ops, a)
    ensures Justified(CoverParent(l, parent, ops[n].rec, c), ops, a)
  {
    var key, source := PlaceholderKey(parent), ops[n].rec;
    match Peek(l, key) {
      case Some(held) =>
        PeekUpdate(l, key, Extended(held, source), PlaceholderKey(a));
        assert a == parent && Extended(held, source) != held ==> Because(Extended(held, source), a, ops[n].rec);
      case None =>
        var p := Placeholder(parent, source);
        assert KeyOf(p) == key && (a == parent ==> Because(p, a, ops[n].rec));
        if c.maxSize > 0 {
          PutAddsOnlyItsKey(l, key, p, c.maxSize, PlaceholderKey(a));
        }
    }
  }

  lemma {:induction false} CoverParentsJustified(
    l: Records, parents: seq<string>, ops: seq<Op>, n: nat, c: Config, a: string)
    requires n < |ops| && ops[n].InsertOp? && Positive(ops[n].rec) && Justified(l, ops, a)
    requires forall i :: 0 <= i < |parents| ==>
               parents[i] in Parents(ops[n].rec.name) && Lower(parents[i]) == parents[i]
    ensures Justified(CoverParents(l, parents, ops[n].rec, c), ops, a)
    decreases |parents|
  {
    if parents == [] {
    } else {
      CoverParentJustified(l, parents[0], ops, n, c, a);
      CoverParentsJustified(CoverParent(l, parents[0], ops[n].rec, c), parents[1..], ops, n, c, a);
    }
  }

  lemma {:induction false} PlaceholdersAreJustified(ops: seq<Op>, c: Config, a: string)
    requires forall n :: 0 <= n < |ops| && ops[n].InsertOp? ==> Positive(ops[n].rec)
    ensures Justified(After([], ops, c), ops, a)
    decreases |ops|
  {
    if ops == [] {
    } else {
      var before, last := ops[..|ops| - 1], |ops| - 1;
      var l := After([], before, c);
      PlaceholdersAreJustified(before, c, a);
      assert Justified(l, ops, a) by {
        assert forall n :: 0 <= n < |before| ==> before[n] == ops[n];
      }
      match ops[last] {
        case InsertOp(rec) =>
          if c.maxSize > 0 {
            PutAddsOnlyItsKey(l, KeyOf(rec), rec, c.maxSize, PlaceholderKey(a));
          }
          forall i | 0 <= i < |Parents(rec.name)|
            ensures Lower(Parents(rec.name)[i]) == Parents(rec.name)[i]
          {
            AncestorsAreLower(rec.name, Parents(rec.name)[i]);
          }
          CoverParentsJustified(InsertRecord(l, rec, c), Parents(rec.name), ops, last, c, a);
        case SweepOp(now) =>
          AfterIsValid(before, c);
          PeekDrop(l, ExpiredAt(now), PlaceholderKey(a));
      }
    }
  }

  lemma {:induction false} RunIsPositive(l: Records, ops: seq<Op>, t: int, c: Config, n: nat)
    requires RunHasRoom(l, ops, t, c) && n < |ops| && ops[n].InsertOp?
    ensures Positive(ops[n].rec)
    decreases |ops|
  {
    if n < |ops| - 1 {
      RunIsPositive(l, ops[..|ops| - 1], t, c, n);
    }
  }

  /** At every instant from the end of the run on, a name of at least two labels has a placeholder that is alive if and
      only if some record inserted below it is: nothing is kept longer than the records it is there for. */
  lemma PlaceholderLiveIff(ops: seq<Op>, t: int, c: Config, a: string, now: int)
    requires RunHasRoom([], ops, t, c) && t <= now && '.' in a
    ensures var held := Peek(After([], ops, c), CacheKey(a, NO_TYPES));
            (held.Some? && (held.value.flags.immortal || now < held.value.expires)) <==>
            exists n :: 0 <= n < |ops| && ops[n].InsertOp? && IsAncestor(a, ops[n].rec.name)
              && (ops[n].rec.flags.immortal || now < ops[n].rec.expires)
  {
    forall n | 0 <= n < |ops| && ops[n].InsertOp?
      ensures Positive(ops[n].rec) && (a in Parents(ops[n].rec.name) <==> IsAncestor(a, ops[n].rec.name))
    {
      RunIsPositive([], ops, t, c, n);
      ParentsAreAncestors(ops[n].rec.name, a);
    }
    PlaceholdersAreJustified(ops, c, a);
    forall n | 0 <= n < |ops| && ops[n].InsertOp? && IsAncestor(a, ops[n].rec.name)
      && (ops[n].rec.flags.immortal || now < ops[n].rec.expires)
      ensures var held := Peek(After([], ops, c), PlaceholderKey(a)); held.Some? && !Expired(held.value, now)
    {
      PlaceholderIsLive(ops, t, c, n, a, now);
    }
  }
}
