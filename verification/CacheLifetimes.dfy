/** How long a stored record is answered, in numbers. */
module CacheLifetimes {
  import opened Basics
  import opened Names
  import opened Lru
  import opened Cache
  import opened CacheRuns

  /** A sweep at `now` keeps exactly the records that are immortal or expire later. */
  lemma SweepKeepsIff(l: Records, k: CacheKey, r: CacheRecord, now: int)
    requires Distinct(l)
    ensures Peek(Drop(l, ExpiredAt(now)), k) == Some(r) <==>
            Peek(l, k) == Some(r) && (r.flags.immortal || now < r.expires)
  {
    PeekDrop(l, ExpiredAt(now), k);
  }

  /** A lookup answers with what is stored under the name and type exactly when it is immortal or expires later. */
  lemma LookupAnswersIff(l: Records, name: string, types: TypeBits, r: CacheRecord, now: int)
    ensures LookedUp(l, CacheKey(Lower(name), types), now).answer == Some(r) <==>
            Peek(l, CacheKey(Lower(name), types)) == Some(r) && (r.flags.immortal || now < r.expires)
  {
  }

  /** Removing a source keeps exactly the records that are not static records of it; the identifier zero removes
      nothing. */
  lemma RemoveKeepsIff(l: Records, k: CacheKey, r: CacheRecord, uid: nat, c: Config)
    requires Distinct(l)
    ensures Peek(Step(l, RemoveByUid(uid), c).records, k) == Some(r) <==>
            && Peek(l, k) == Some(r)
            && (uid == 0 || r.uid != uid || !(r.flags.hosts || r.flags.dhcp || r.flags.config))
  {
    PeekDrop(l, StaticOf(uid), k);
  }

  // ----- runs that leave one key alone -----

  /** Inserting the record neither overwrites the key nor pushes it out. */
  predicate Spares(l: Records, rec: CacheRecord, key: CacheKey, c: Config) {
    && KeyOf(rec) != key
    && (c.maxSize == 0 || Peek(l, KeyOf(rec)).Some? || |l| < c.maxSize || l[|l| - 1].key != key)
  }

  predicate CommitSpares(l: Records, recs: seq<CacheRecord>, key: CacheKey, c: Config)
    decreases |recs|
  {
    recs == []
    || (if Outdated(l, recs[0]) then CommitSpares(l, recs[1..], key, c)
        else Spares(l, recs[0], key, c) && CommitSpares(InsertRecord(l, recs[0], c), recs[1..], key, c))
  }

  /** The operation happens no earlier than `t` and neither overwrites the key nor pushes it out. */
  predicate OpSpares(l: Records, op: Op, t: int, key: CacheKey, c: Config) {
    match op
    case Insert(rec) => Spares(l, rec, key, c)
    case ReallyInsert(rec, now) =>
      t <= now && (Prepare(Peek(l, KeyOf(rec)), rec, now, c).New? ==> Spares(l, rec, key, c))
    case InsertBatch(recs, now) =>
      t <= now && (!StageAll(l, recs, now, c).error ==> CommitSpares(l, StageAll(l, recs, now, c).chain, key, c))
    case LookupByName(_, _, now) => t <= now
    case LookupForward(_, _, now) => t <= now
    case Sweep(now) => t <= now
    case RemoveByUid(_) => true
  }

  predicate RunSpares(l: Records, ops: seq<Op>, t: int, key: CacheKey, c: Config)
    decreases |ops|
  {
    ops == []
    || (OpSpares(l, ops[0], t, key, c) && RunSpares(Step(l, ops[0], c).records, ops[1..], TimeOf(ops[0], t), key, c))
  }

  function After(l: Records, ops: seq<Op>, c: Config): Records
    decreases |ops|
  {
    if ops == [] then l else After(Step(l, ops[0], c).records, ops[1..], c)
  }

  function LastTime(ops: seq<Op>, t: int): int
    decreases |ops|
  {
    if ops == [] then t else LastTime(ops[1..], TimeOf(ops[0], t))
  }

  /** The record is stored, or it is gone and its time is over. */
  ghost predicate Kept(l: Records, r: CacheRecord, t: int) {
    Peek(l, KeyOf(r)) == Some(r) || (Peek(l, KeyOf(r)) == None && !r.flags.immortal && r.expires <= t)
  }

  lemma InsertKeeps(l: Records, rec: CacheRecord, r: CacheRecord, t: int, c: Config)
    requires Distinct(l) && |l| <= c.maxSize && Kept(l, r, t) && Spares(l, rec, KeyOf(r), c)
    ensures Kept(InsertRecord(l, rec, c), r, t)
  {
    if c.maxSize > 0 {
      PeekInserted(l, rec, c, KeyOf(r));
    }
  }

  lemma {:induction false} CommitKeeps(l: Records, recs: seq<CacheRecord>, r: CacheRecord, t: int, c: Config)
    requires Distinct(l) && |l| <= c.maxSize && Kept(l, r, t) && CommitSpares(l, recs, KeyOf(r), c)
    ensures Kept(CommitAll(l, recs, c), r, t)
    decreases |recs|
  {
    if recs == [] {
      assert CommitAll(l, recs, c) == l;
    } else if Outdated(l, recs[0]) {
      CommitKeeps(l, recs[1..], r, t, c);
    } else {
      InsertKeeps(l, recs[0], r, t, c);
      CapacityKept(l, recs[0], c);
      CommitKeeps(InsertRecord(l, recs[0], c), recs[1..], r, t, c);
    }
  }

  lemma LookupKeeps(l: Records, key: CacheKey, r: CacheRecord, now: int)
    requires Kept(l, r, now)
    ensures Kept(LookedUp(l, key, now).records, r, now)
  {
    PeekPop(l, key, KeyOf(r));
    PeekGet(l, key, KeyOf(r));
  }

  /** One operation keeps a record that is no static one, until its time is over. */
  lemma StepKeeps(l: Records, op: Op, r: CacheRecord, t: int, c: Config)
    requires Distinct(l) && |l| <= c.maxSize && Kept(l, r, t) && !r.flags.Static() && OpSpares(l, op, t, KeyOf(r), c)
    ensures Kept(Step(l, op, c).records, r, TimeOf(op, t))
  {
    match op {
      case Insert(rec) => InsertKeeps(l, rec, r, t, c);
      case ReallyInsert(rec, now) =>
        if Prepare(Peek(l, KeyOf(rec)), rec, now, c).New? {
          InsertKeeps(l, Timed(rec, now, c), r, now, c);
        }
      case InsertBatch(recs, now) =>
        if !StageAll(l, recs, now, c).error {
          CommitKeeps(l, StageAll(l, recs, now, c).chain, r, now, c);
        }
      case LookupByName(name, types, now) => LookupKeeps(l, CacheKey(Lower(name), types), r, now);
      case LookupForward(name, types, now) =>
        LookupKeeps(l, CacheKey(Lower(name), types), r, now);
        LookupKeeps(LookedUp(l, CacheKey(Lower(name), types), now).records,
          CacheKey(Lower(name), types.(neg := true)), r, now);
      case Sweep(now) => PeekDrop(l, ExpiredAt(now), KeyOf(r));
      case RemoveByUid(uid) => PeekDrop(l, StaticOf(uid), KeyOf(r));
    }
  }

  lemma {:induction false} RunKeeps(l: Records, ops: seq<Op>, r: CacheRecord, t: int, c: Config)
    requires Distinct(l) && |l| <= c.maxSize && Kept(l, r, t) && !r.flags.Static() && RunSpares(l, ops, t, KeyOf(r), c)
    ensures Kept(After(l, ops, c), r, LastTime(ops, t))
    decreases |ops|
  {
    if ops == [] {
    } else {
      StepKeeps(l, ops[0], r, t, c);
      StepKeepsValid(l, ops[0], c);
      RunKeeps(Step(l, ops[0], c).records, ops[1..], r, TimeOf(ops[0], t), c);
    }
  }

  /** A DNS answer that is accepted at `t` is served for exactly its clamped lifetime, under every spelling of its name
      in upper and lower case: after any run that neither
      overwrites it nor pushes it out, whatever is looked up, swept or removed on the way, a lookup at `now` answers
      with it, and a sweep at `now` keeps it, if and only if it is immortal or `now` is before `t` plus that
      lifetime. */
  lemma ServedForItsLifetime(
    l: Records, rec: CacheRecord, t: int, ops: seq<Op>, name: string, now: int, c: Config)
    requires Distinct(l) && |l| <= c.maxSize && !rec.flags.Static() && SameName(name, rec.name)
    requires ReallyInserted(l, rec, t, c).1 == Inserted
    requires RunSpares(ReallyInserted(l, rec, t, c).0, ops, t, KeyOf(rec), c) && LastTime(ops, t) <= now
    ensures var l' := After(ReallyInserted(l, rec, t, c).0, ops, c);
            var lifetime :=
              if rec.flags.types.dnskey || rec.flags.types.ds then Larger(rec.ttl, 60)
              else Larger(c.minTtl, if c.maxTtl == 0 then rec.ttl else Smaller(rec.ttl, c.maxTtl));
            var stored := rec.(ttl := lifetime, expires := t + lifetime * SECOND);
            var alive := rec.flags.immortal || now < t + lifetime * SECOND;
            && LookedUp(l', CacheKey(Lower(name), rec.flags.types), now).answer
            == (if alive then Some(stored) else None)
            && (alive ==> LookedUpForward(l', name, rec.flags.types, now).answer == Some(stored))
            && (Peek(Drop(l', ExpiredAt(now)), KeyOf(rec)) == if alive then Some(stored) else None)
  {
    var stored := Timed(rec, t, c);
    LifetimeIsClamped(rec, t, c);
    var first := InsertRecord(l, stored, c);
    CapacityKept(l, stored, c);
    PeekInserted(l, stored, c, KeyOf(rec));
    RunKeeps(first, ops, stored, t, c);
    RunKeepsValid(first, ops, c);
    PeekDrop(After(first, ops, c), ExpiredAt(now), KeyOf(rec));
  }

  lemma {:induction false} RunKeepsValid(l: Records, ops: seq<Op>, c: Config)
    requires Distinct(l) && |l| <= c.maxSize
    ensures Distinct(After(l, ops, c)) && |After(l, ops, c)| <= c.maxSize
    decreases |ops|
  {
    if ops == [] {
    } else {
      StepKeepsValid(l, ops[0], c);
      RunKeepsValid(Step(l, ops[0], c).records, ops[1..], c);
    }
  }

  // ----- what is accepted -----

  /** What becomes of an insert. A DNS answer is dropped if its clamped lifetime is zero and it is not immortal, and
      blocked by a static record of its key, without complaint if both have the same address. Everything else is stored,
      if the cache has any size: static records as they are, answers with their clamped lifetime. */
  lemma InsertOutcome(l: Records, rec: CacheRecord, now: int, c: Config)
    ensures var held, outcome := Peek(l, KeyOf(rec)), ReallyInserted(l, rec, now, c).1;
            var lifetime :=
              if rec.flags.types.dnskey || rec.flags.types.ds then Larger(rec.ttl, 60)
              else Larger(c.minTtl, if c.maxTtl == 0 then rec.ttl else Smaller(rec.ttl, c.maxTtl));
            var isStatic := rec.flags.hosts || rec.flags.dhcp || rec.flags.config;
            var blocked := !isStatic && held.Some?
                           && (held.value.flags.hosts || held.value.flags.dhcp || held.value.flags.config);
            if !isStatic && lifetime == 0 && !rec.flags.immortal then outcome == ZeroTtlDropped
            else if blocked then
              var same :=
                rec.addr.Some? && (rec.addr.value.Addr4? || rec.addr.value.Addr6?) && held.value.addr == rec.addr;
              outcome == if same then BlockedSameAddr else BlockedConflict
            else if c.maxSize == 0 then outcome == CachingDisabled
            else
              && outcome == Inserted
              && Peek(ReallyInserted(l, rec, now, c).0, KeyOf(rec))
              == Some(if isStatic then rec else rec.(ttl := lifetime, expires := now + lifetime * SECOND))
    ensures ReallyInserted(l, rec, now, c).1 != Inserted ==> ReallyInserted(l, rec, now, c).0 == l
  {
    if !rec.flags.Static() {
      LifetimeIsClamped(rec, now, c);
    }
    if c.maxSize > 0 {
      PutAddsOnlyItsKey(l, KeyOf(rec), Timed(rec, now, c), c.maxSize, KeyOf(rec));
    }
  }

  // ----- recency -----

  function InsertAll(l: Records, recs: seq<CacheRecord>, c: Config): Records
    decreases |recs|
  {
    if recs == [] then l else InsertAll(InsertRecord(l, recs[0], c), recs[1..], c)
  }

  lemma {:induction false} PopPlace(l: Records, q: CacheKey, i: nat) returns (j: nat)
    requires i < |l| && l[i].key != q
    ensures j <= i && j < |Pop(l, q)| && Pop(l, q)[j] == l[i]
  {
    if l[0].key == q {
      assert l[1..][i - 1] == l[i];
      j := PopPlace(l[1..], q, i - 1);
    } else if i == 0 {
      j := 0;
    } else {
      assert l[1..][i - 1] == l[i];
      j := PopPlace(l[1..], q, i - 1);
      j := j + 1;
    }
  }

  /** A record moves back by at most one place with each insert of another key. */
  lemma {:induction false} PlaceAfter(l: Records, recs: seq<CacheRecord>, i: nat, c: Config)
    requires Distinct(l) && |l| <= c.maxSize && i < |l| && i + |recs| < c.maxSize
    requires forall n :: 0 <= n < |recs| ==> KeyOf(recs[n]) != l[i].key
    ensures Peek(InsertAll(l, recs, c), l[i].key) == Some(l[i].value)
    decreases |recs|
  {
    if recs == [] {
      PeekUnique(l, i);
    } else {
      var l' := InsertRecord(l, recs[0], c);
      CapacityKept(l, recs[0], c);
      var j := i;
      if Peek(l, KeyOf(recs[0])).Some? {
        j := PopPlace(l, KeyOf(recs[0]), i);
      }
      assert l'[j + 1] == l[i];
      PlaceAfter(l', recs[1..], j + 1, c);
    }
  }

  /** A record that has just answered a lookup or has just been inserted outlasts any inserts of other keys that are
      fewer than the cache has places. */
  lemma RecentOutlastsInserts(l: Records, key: CacheKey, r: CacheRecord, now: int, recs: seq<CacheRecord>, c: Config)
    requires Distinct(l) && |l| <= c.maxSize && |recs| < c.maxSize
    requires forall n :: 0 <= n < |recs| ==> KeyOf(recs[n]) != key
    ensures LookedUp(l, key, now).answer == Some(r) ==>
              Peek(InsertAll(LookedUp(l, key, now).records, recs, c), key) == Some(r)
    ensures KeyOf(r) == key ==> Peek(InsertAll(InsertRecord(l, r, c), recs, c), key) == Some(r)
  {
    if LookedUp(l, key, now).answer == Some(r) {
      LookedUpKeepsValid(l, key, now);
      PlaceAfter(LookedUp(l, key, now).records, recs, 0, c);
    }
    if KeyOf(r) == key {
      CapacityKept(l, r, c);
      PlaceAfter(InsertRecord(l, r, c), recs, 0, c);
    }
  }
}
