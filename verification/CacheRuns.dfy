/** What whole transactions and whole runs of the DNS cache guarantee. */
module CacheRuns {
  import opened Basics
  import opened Names
  import opened Lru
  import opened Cache

  // ----- a staged batch -----

  datatype Staging = Staging(chain: seq<CacheRecord>, error: bool)

  function Stage(l: Records, st: Staging, rec: CacheRecord, now: int, c: Config): Staging {
    if st.error then st
    else match Prepare(Peek(l, KeyOf(rec)), rec, now, c)
      case New(r) => Staging(st.chain + [r], false)
      case SameAddr => st
      case Refused(_) => Staging(st.chain, true)
  }

  function StageAll(l: Records, recs: seq<CacheRecord>, now: int, c: Config): Staging
    decreases |recs|
  {
    if recs == [] then Staging([], false)
    else Stage(l, StageAll(l, recs[..|recs| - 1], now, c), recs[|recs| - 1], now, c)
  }

  /** The live records after a whole transaction. */
  function Batch(l: Records, recs: seq<CacheRecord>, now: int, c: Config): Records {
    var st := StageAll(l, recs, now, c);
    if st.error then l else CommitAll(l, st.chain, c)
  }

  /** Start, stage each record, commit. */
  method Transact(cache: DnsCache, recs: seq<CacheRecord>, now: int) returns (committed: nat)
    requires cache.Valid()
    modifies cache
    ensures cache.Valid() && cache.records == Batch(old(cache.records), recs, now, cache.config)
    ensures StageAll(old(cache.records), recs, now, cache.config).error ==> committed == 0
  {
    cache.StartInsert();
    for i := 0 to |recs|
      invariant cache.Valid() && cache.records == old(cache.records)
      invariant Staging(cache.newChain, cache.insertError) == StageAll(cache.records, recs[..i], now, cache.config)
                || (cache.insertError && StageAll(cache.records, recs[..i], now, cache.config).error)
    {
      assert recs[..i + 1][..i] == recs[..i];
      var _ := cache.StageInsert(recs[i], now);
    }
    assert recs[..|recs|] == recs;
    committed := cache.EndInsert();
  }

  /** The records of the batch that are new, as they would be stored, in order. */
  function Accepted(l: Records, recs: seq<CacheRecord>, now: int, c: Config): seq<CacheRecord>
    decreases |recs|
  {
    if recs == [] then []
    else
      var last := recs[|recs| - 1];
      var p := Prepare(Peek(l, KeyOf(last)), last, now, c);
      Accepted(l, recs[..|recs| - 1], now, c) + if p.New? then [p.rec] else []
  }

  /** All or nothing: the batch commits exactly when no record of it is refused, and then it commits every accepted
      record in order. */
  lemma {:induction false} StagingIsAllOrNothing(l: Records, recs: seq<CacheRecord>, now: int, c: Config)
    ensures StageAll(l, recs, now, c).error <==>
            exists i :: 0 <= i < |recs| && Prepare(Peek(l, KeyOf(recs[i])), recs[i], now, c).Refused?
    ensures !StageAll(l, recs, now, c).error ==> StageAll(l, recs, now, c).chain == Accepted(l, recs, now, c)
    decreases |recs|
  {
    if recs == [] {
    } else {
      var before, last := recs[..|recs| - 1], recs[|recs| - 1];
      StagingIsAllOrNothing(l, before, now, c);
      if StageAll(l, before, now, c).error {
        var i :| 0 <= i < |before| && Prepare(Peek(l, KeyOf(before[i])), before[i], now, c).Refused?;
        assert recs[i] == before[i];
      } else {
        assert forall i :: 0 <= i < |before| ==> before[i] == recs[i];
        assert recs[|recs| - 1] == last;
      }
    }
  }

  /** Without pointer aliases every staged record is committed, and the count says so. */
  lemma {:induction false} AllAreCommitted(l: Records, staged: seq<CacheRecord>, c: Config)
    requires forall i :: 0 <= i < |staged| ==> !IsPointer(staged[i])
    ensures CommitCount(l, staged, c) == |staged|
    decreases |staged|
  {
    if staged == [] {
    } else {
      AllAreCommitted(InsertRecord(l, staged[0], c), staged[1..], c);
    }
  }

  /** A record is counted exactly when it is committed: an outdated pointer alias is neither. */
  lemma CountsWhatIsCommitted(l: Records, rec: CacheRecord, c: Config)
    ensures CommitAll(l, [rec], c) == if Outdated(l, rec) then l else InsertRecord(l, rec, c)
    ensures CommitCount(l, [rec], c) == if Outdated(l, rec) then 0 else 1
  {
    assert [rec][1..] == [];
    var l' := if Outdated(l, rec) then l else InsertRecord(l, rec, c);
    assert CommitAll(l', [], c) == l' && CommitCount(l', [], c) == 0;
  }

  /** Under this key there is nothing, or a static record. */
  predicate NoAnswerAt(l: Records, k: CacheKey) {
    Peek(l, k).None? || Peek(l, k).value.flags.Static()
  }

  lemma {:induction false} CommitKeepsStatic(l: Records, staged: seq<CacheRecord>, c: Config, k: CacheKey)
    requires NoAnswerAt(l, k)
    requires forall i :: 0 <= i < |staged| && KeyOf(staged[i]) == k ==> staged[i].flags.Static()
    ensures NoAnswerAt(CommitAll(l, staged, c), k)
    decreases |staged|
  {
    if staged == [] {
    } else {
      var l' := if Outdated(l, staged[0]) then l else InsertRecord(l, staged[0], c);
      if c.maxSize > 0 {
        PutAddsOnlyItsKey(l, KeyOf(staged[0]), staged[0], c.maxSize, k);
      }
      CommitKeepsStatic(l', staged[1..], c, k);
    }
  }

  lemma {:induction false} AcceptedRespectsStatic(l: Records, recs: seq<CacheRecord>, now: int, c: Config, k: CacheKey)
    requires Peek(l, k).Some? && Peek(l, k).value.flags.Static()
    ensures forall i :: 0 <= i < |Accepted(l, recs, now, c)| && KeyOf(Accepted(l, recs, now, c)[i]) == k ==>
              Accepted(l, recs, now, c)[i].flags.Static()
    decreases |recs|
  {
    if recs == [] {
    } else {
      AcceptedRespectsStatic(l, recs[..|recs| - 1], now, c, k);
    }
  }

  /** A key that holds a static record when the batch starts never holds a DNS answer after it. */
  lemma BatchProtectsStatic(l: Records, recs: seq<CacheRecord>, now: int, c: Config, k: CacheKey)
    requires Peek(l, k).Some? && Peek(l, k).value.flags.Static()
    ensures NoAnswerAt(Batch(l, recs, now, c), k)
  {
    StagingIsAllOrNothing(l, recs, now, c);
    AcceptedRespectsStatic(l, recs, now, c, k);
    var st := StageAll(l, recs, now, c);
    if !st.error {
      CommitKeepsStatic(l, st.chain, c, k);
    }
  }

  // ----- runs, against a map that never deletes -----

  datatype Op =
    | Insert(rec: CacheRecord)
    | ReallyInsert(rec: CacheRecord, now: int)
    | InsertBatch(recs: seq<CacheRecord>, now: int)
    | LookupByName(name: string, types: TypeBits, now: int)
    | LookupForward(name: string, types: TypeBits, now: int)
    | Sweep(now: int)
    | RemoveByUid(uid: nat)

  /** One operation on the cache and the answer it gives. */
  function Step(l: Records, op: Op, c: Config): Found {
    match op
    case Insert(rec) => Found(InsertRecord(l, rec, c), None)
    case ReallyInsert(rec, now) => Found(ReallyInserted(l, rec, now, c).0, None)
    case InsertBatch(recs, now) => Found(Batch(l, recs, now, c), None)
    case LookupByName(name, types, now) => LookedUp(l, CacheKey(Lower(name), types), now)
    case LookupForward(name, types, now) => LookedUpForward(l, name, types, now)
    case Sweep(now) => Found(Drop(l, ExpiredAt(now)), None)
    case RemoveByUid(uid) => Found(if uid == UID_NONE then l else Drop(l, StaticOf(uid)), None)
  }

  type Store = map<CacheKey, CacheRecord>

  function At(m: Store, k: CacheKey): Option<CacheRecord> {
    if k in m then Some(m[k]) else None
  }

  function Live(m: Store, k: CacheKey, now: int): Option<CacheRecord> {
    if k in m && !Expired(m[k], now) then Some(m[k]) else None
  }

  /** An alias that points at a cache slot instead of carrying a name. */
  predicate IsPointer(rec: CacheRecord) {
    rec.flags.types.cname && rec.addr.Some? && rec.addr.value.Cname? && !rec.addr.value.isNamePtr
  }

  /** The pointer alias points at this record. */
  predicate PointsAt(rec: CacheRecord, k: CacheKey, r: CacheRecord) {
    && IsPointer(rec) && rec.addr.value.target.Some? && k.name == Lower(rec.addr.value.target.value)
    && !r.flags.types.dnskey && !r.flags.types.ds && r.uid == rec.addr.value.targetUid
  }

  /** A pointer alias without a target that is alive. */
  predicate RefOutdated(m: Store, rec: CacheRecord, now: int) {
    IsPointer(rec) && forall k :: k in m && PointsAt(rec, k, m[k]) ==> Expired(m[k], now)
  }

  function RefCommit(m: Store, recs: seq<CacheRecord>, now: int): Store
    decreases |recs|
  {
    if recs == [] then m
    else RefCommit(if RefOutdated(m, recs[0], now) then m else m[KeyOf(recs[0]) := recs[0]], recs[1..], now)
  }

  /** The reference: a plain map that forgets nothing on its own and filters by expiry when asked. */
  function RefStep(m: Store, op: Op, c: Config): (r: (Store, Option<CacheRecord>)) {
    match op
    case Insert(rec) => (m[KeyOf(rec) := rec], None)
    case ReallyInsert(rec, now) =>
      var p := Prepare(At(m, KeyOf(rec)), rec, now, c);
      (if p.New? then m[KeyOf(p.rec) := p.rec] else m, None)
    case InsertBatch(recs, now) =>
      (if RefRefuses(m, recs, now, c) then m else RefCommit(m, RefAccepted(m, recs, now, c), now), None)
    case LookupByName(name, types, now) => (m, Live(m, CacheKey(Lower(name), types), now))
    case LookupForward(name, types, now) =>
      var positive := Live(m, CacheKey(Lower(name), types), now);
      (m, if positive.Some? then positive else Live(m, CacheKey(Lower(name), types.(neg := true)), now))
    case Sweep(now) => (m, None)
    case RemoveByUid(uid) => (if uid == UID_NONE then m else map k | k in m && !StaticOf(uid)(m[k]) :: m[k], None)
  }

  predicate RefRefuses(m: Store, recs: seq<CacheRecord>, now: int, c: Config) {
    exists i :: 0 <= i < |recs| && Prepare(At(m, KeyOf(recs[i])), recs[i], now, c).Refused?
  }

  function RefAccepted(m: Store, recs: seq<CacheRecord>, now: int, c: Config): seq<CacheRecord>
    decreases |recs|
  {
    if recs == [] then []
    else
      var last := recs[|recs| - 1];
      var p := Prepare(At(m, KeyOf(last)), last, now, c);
      RefAccepted(m, recs[..|recs| - 1], now, c) + if p.New? then [p.rec] else []
  }

  /** The cache and the store agree, except that the cache may have forgotten records that have expired. */
  ghost predicate Agree(l: Records, m: Store, t: int) {
    forall k :: AgreeAt(l, m, t, k)
  }

  ghost predicate AgreeAt(l: Records, m: Store, t: int, k: CacheKey) {
    match Peek(l, k)
    case Some(r) => k in m && m[k] == r
    case None => k in m ==> Expired(m[k], t)
  }

  ghost predicate StaticsAreImmortal(m: Store) {
    forall k :: k in m && m[k].flags.Static() ==> m[k].flags.immortal
  }

  /** A record fit for the run: static records are immortal. */
  predicate Plain(rec: CacheRecord) { rec.flags.Static() ==> rec.flags.immortal }

  /** The cache still holds targets of the pointer alias, but every one of them has expired. */
  predicate OnlyExpiredTargets(l: Records, rec: CacheRecord, now: int) {
    && (exists i :: 0 <= i < |l| && PointsAt(rec, l[i].key, l[i].value))
    && forall i :: 0 <= i < |l| && PointsAt(rec, l[i].key, l[i].value) ==> Expired(l[i].value, now)
  }

  /** The insert loses nothing that is alive at `t`: it replaces a record of its key, or there is room, or the record it
      pushes out has expired. A cache of size zero loses the new record itself. */
  predicate LosesNothing(l: Records, rec: CacheRecord, t: int, c: Config) {
    if c.maxSize == 0 then Expired(rec, t)
    else Peek(l, KeyOf(rec)).Some? || |l| < c.maxSize || Expired(l[|l| - 1].value, t)
  }

  /** Committing the records loses nothing that is alive at `t`, and no pointer alias hangs on expired records alone. */
  predicate CommitFits(l: Records, recs: seq<CacheRecord>, t: int, c: Config)
    decreases |recs|
  {
    recs == []
    || (&& !OnlyExpiredTargets(l, recs[0], t)
        && if Outdated(l, recs[0]) then CommitFits(l, recs[1..], t, c)
           else LosesNothing(l, recs[0], t, c) && CommitFits(InsertRecord(l, recs[0], c), recs[1..], t, c))
  }

  /** The operation happens no earlier than `t`, inserts fit records, and pushes out none that is alive. */
  predicate Fits(l: Records, op: Op, t: int, c: Config) {
    match op
    case Insert(rec) => Plain(rec) && LosesNothing(l, rec, t, c)
    case ReallyInsert(rec, now) =>
      && t <= now && Plain(rec)
      && (Prepare(Peek(l, KeyOf(rec)), rec, now, c).New? ==> LosesNothing(l, rec, now, c))
    case InsertBatch(recs, now) =>
      && t <= now && (forall i :: 0 <= i < |recs| ==> Plain(recs[i]))
      && (!StageAll(l, recs, now, c).error ==> CommitFits(l, StageAll(l, recs, now, c).chain, now, c))
    case LookupByName(_, _, now) => t <= now
    case LookupForward(_, _, now) => t <= now
    case Sweep(now) => t <= now
    case RemoveByUid(_) => true
  }

  function TimeOf(op: Op, t: int): int {
    if op.Insert? || op.RemoveByUid? then t else op.now
  }

  lemma AgreeLater(l: Records, m: Store, t: int, now: int)
    requires Agree(l, m, t) && t <= now
    ensures Agree(l, m, now)
  {
    forall k
      ensures AgreeAt(l, m, now, k)
    {
      assert AgreeAt(l, m, t, k);
    }
  }

  /** What a key holds after an insert into a cache in use. */
  lemma PeekInserted(l: Records, rec: CacheRecord, c: Config, q: CacheKey)
    requires Distinct(l) && 0 < c.maxSize && |l| <= c.maxSize
    ensures Peek(InsertRecord(l, rec, c), q)
         == if q == KeyOf(rec) then Some(rec)
            else if Peek(l, KeyOf(rec)).None? && |l| == c.maxSize && q == l[|l| - 1].key then None
            else Peek(l, q)
  {
    if Peek(l, KeyOf(rec)).Some? || |l| < c.maxSize {
      PeekPut(l, KeyOf(rec), rec, c.maxSize, q);
    } else {
      PeekPutFull(l, KeyOf(rec), rec, c.maxSize, q);
    }
  }

  lemma AgreeInsert(l: Records, m: Store, t: int, rec: CacheRecord, c: Config)
    requires Distinct(l) && |l| <= c.maxSize && Agree(l, m, t) && LosesNothing(l, rec, t, c)
    ensures Agree(InsertRecord(l, rec, c), m[KeyOf(rec) := rec], t)
  {
    var l', m' := InsertRecord(l, rec, c), m[KeyOf(rec) := rec];
    forall k
      ensures AgreeAt(l', m', t, k)
    {
      assert AgreeAt(l, m, t, k);
      if c.maxSize > 0 {
        PeekInserted(l, rec, c, k);
        if |l| == c.maxSize {
          PeekUnique(l, |l| - 1);
        }
      }
    }
  }

  /** The key at which an insert that loses a live record leaves the cache behind the store. */
  lemma InsertLoses(l: Records, m: Store, t: int, rec: CacheRecord, c: Config)
    requires Distinct(l) && |l| <= c.maxSize && Agree(l, m, t) && !LosesNothing(l, rec, t, c)
    ensures var lost := if c.maxSize == 0 then Slot(KeyOf(rec), rec) else l[|l| - 1];
            && Peek(InsertRecord(l, rec, c), lost.key) == None
            && Live(m[KeyOf(rec) := rec], lost.key, t) == Some(lost.value)
  {
    if c.maxSize > 0 {
      var lost := l[|l| - 1];
      PeekUnique(l, |l| - 1);
      PeekInserted(l, rec, c, lost.key);
      assert AgreeAt(l, m, t, lost.key);
    }
  }

  /** After an insert the cache and the store still agree if and only if nothing alive was lost. */
  lemma AgreeInsertIff(l: Records, m: Store, t: int, rec: CacheRecord, c: Config)
    requires Distinct(l) && |l| <= c.maxSize && Agree(l, m, t)
    ensures Agree(InsertRecord(l, rec, c), m[KeyOf(rec) := rec], t) <==> LosesNothing(l, rec, t, c)
  {
    if LosesNothing(l, rec, t, c) {
      AgreeInsert(l, m, t, rec, c);
    } else {
      InsertLoses(l, m, t, rec, c);
      var key := if c.maxSize == 0 then KeyOf(rec) else l[|l| - 1].key;
      assert !AgreeAt(InsertRecord(l, rec, c), m[KeyOf(rec) := rec], t, key);
    }
  }

  /** Forgotten records are never static, so the cache and the store decide alike. */
  lemma PrepareAgrees(l: Records, m: Store, t: int, rec: CacheRecord, now: int, c: Config)
    requires Agree(l, m, t) && StaticsAreImmortal(m)
    ensures Prepare(Peek(l, KeyOf(rec)), rec, now, c) == Prepare(At(m, KeyOf(rec)), rec, now, c)
  {
    assert AgreeAt(l, m, t, KeyOf(rec));
  }

  lemma {:induction false} AcceptedAgrees(l: Records, m: Store, t: int, recs: seq<CacheRecord>, now: int, c: Config)
    requires Agree(l, m, t) && StaticsAreImmortal(m)
    ensures Accepted(l, recs, now, c) == RefAccepted(m, recs, now, c)
    decreases |recs|
  {
    if recs == [] {
    } else {
      AcceptedAgrees(l, m, t, recs[..|recs| - 1], now, c);
      PrepareAgrees(l, m, t, recs[|recs| - 1], now, c);
    }
  }

  lemma {:induction false} AcceptedArePlain(l: Records, recs: seq<CacheRecord>, now: int, c: Config)
    requires forall i :: 0 <= i < |recs| ==> Plain(recs[i])
    ensures forall i :: 0 <= i < |Accepted(l, recs, now, c)| ==> Plain(Accepted(l, recs, now, c)[i])
    decreases |recs|
  {
    if recs == [] {
    } else {
      AcceptedArePlain(l, recs[..|recs| - 1], now, c);
    }
  }

  lemma OutdatedMeaning(l: Records, rec: CacheRecord)
    ensures Outdated(l, rec) <==> IsPointer(rec) && forall i :: 0 <= i < |l| ==> !PointsAt(rec, l[i].key, l[i].value)
  {
  }

  /** The cache drops a pointer alias as the store does, unless the alias hangs on expired records alone. */
  lemma OutdatedAgreesIff(l: Records, m: Store, t: int, rec: CacheRecord)
    requires Distinct(l) && Agree(l, m, t)
    ensures (Outdated(l, rec) <==> RefOutdated(m, rec, t)) <==> !OnlyExpiredTargets(l, rec, t)
  {
    OutdatedMeaning(l, rec);
    forall i | 0 <= i < |l|
      ensures l[i].key in m && m[l[i].key] == l[i].value
    {
      PeekUnique(l, i);
      assert AgreeAt(l, m, t, l[i].key);
    }
    forall k | k in m && !Expired(m[k], t)
      ensures exists i :: 0 <= i < |l| && l[i] == Slot(k, m[k])
    {
      assert AgreeAt(l, m, t, k);
      PeekIsAt(l, k);
    }
  }

  lemma {:induction false} AgreeCommit(l: Records, m: Store, t: int, recs: seq<CacheRecord>, c: Config)
    requires Distinct(l) && |l| <= c.maxSize && Agree(l, m, t) && StaticsAreImmortal(m)
    requires CommitFits(l, recs, t, c) && forall i :: 0 <= i < |recs| ==> Plain(recs[i])
    ensures Agree(CommitAll(l, recs, c), RefCommit(m, recs, t), t) && StaticsAreImmortal(RefCommit(m, recs, t))
    decreases |recs|
  {
    if recs == [] {
      assert CommitAll(l, recs, c) == l && RefCommit(m, recs, t) == m;
    } else {
      OutdatedAgreesIff(l, m, t, recs[0]);
      if Outdated(l, recs[0]) {
        AgreeCommit(l, m, t, recs[1..], c);
      } else {
        AgreeInsert(l, m, t, recs[0], c);
        CapacityKept(l, recs[0], c);
        AgreeCommit(InsertRecord(l, recs[0], c), m[KeyOf(recs[0]) := recs[0]], t, recs[1..], c);
      }
    }
  }

  lemma AgreeBatch(l: Records, m: Store, t: int, op: Op, c: Config)
    requires op.InsertBatch? && Distinct(l) && |l| <= c.maxSize && Agree(l, m, op.now) && StaticsAreImmortal(m)
    requires Fits(l, op, t, c)
    ensures Agree(Step(l, op, c).records, RefStep(m, op, c).0, op.now) && StaticsAreImmortal(RefStep(m, op, c).0)
  {
    var recs, now := op.recs, op.now;
    StagingIsAllOrNothing(l, recs, now, c);
    forall i | 0 <= i < |recs|
      ensures Prepare(Peek(l, KeyOf(recs[i])), recs[i], now, c) == Prepare(At(m, KeyOf(recs[i])), recs[i], now, c)
    {
      PrepareAgrees(l, m, now, recs[i], now, c);
    }
    AcceptedAgrees(l, m, now, recs, now, c);
    AcceptedArePlain(l, recs, now, c);
    if !StageAll(l, recs, now, c).error {
      AgreeCommit(l, m, now, Accepted(l, recs, now, c), c);
    }
  }

  /** A lookup answers from the live records and only forgets an expired one. */
  lemma AgreeLookup(l: Records, m: Store, key: CacheKey, now: int)
    requires Agree(l, m, now)
    ensures LookedUp(l, key, now).answer == Live(m, key, now)
    ensures Agree(LookedUp(l, key, now).records, m, now)
  {
    assert AgreeAt(l, m, now, key);
    forall k
      ensures AgreeAt(LookedUp(l, key, now).records, m, now, k)
    {
      assert AgreeAt(l, m, now, k);
      PeekPop(l, key, k);
      PeekGet(l, key, k);
    }
  }

  lemma AgreeDropExpired(l: Records, m: Store, now: int)
    requires Agree(l, m, now) && Distinct(l)
    ensures Agree(Drop(l, ExpiredAt(now)), m, now)
  {
    forall k
      ensures AgreeAt(Drop(l, ExpiredAt(now)), m, now, k)
    {
      assert AgreeAt(l, m, now, k);
      PeekDrop(l, ExpiredAt(now), k);
    }
  }

  lemma AgreeRemove(l: Records, m: Store, t: int, uid: nat)
    requires Agree(l, m, t) && Distinct(l) && StaticsAreImmortal(m)
    ensures Agree(Drop(l, StaticOf(uid)), map k | k in m && !StaticOf(uid)(m[k]) :: m[k], t)
  {
    var m' := map k | k in m && !StaticOf(uid)(m[k]) :: m[k];
    forall k
      ensures AgreeAt(Drop(l, StaticOf(uid)), m', t, k)
    {
      assert AgreeAt(l, m, t, k);
      PeekDrop(l, StaticOf(uid), k);
    }
  }

  lemma {:induction false} CommitKeepsValid(l: Records, recs: seq<CacheRecord>, c: Config)
    requires Distinct(l) && |l| <= c.maxSize
    ensures Distinct(CommitAll(l, recs, c)) && |CommitAll(l, recs, c)| <= c.maxSize
    decreases |recs|
  {
    if recs == [] {
    } else {
      CapacityKept(l, recs[0], c);
      CommitKeepsValid(if Outdated(l, recs[0]) then l else InsertRecord(l, recs[0], c), recs[1..], c);
    }
  }

  /** Every operation, of any kind, keeps the cache within its size and free of duplicate keys. */
  lemma StepKeepsValid(l: Records, op: Op, c: Config)
    requires Distinct(l) && |l| <= c.maxSize
    ensures Distinct(Step(l, op, c).records) && |Step(l, op, c).records| <= c.maxSize
  {
    match op {
      case Insert(rec) => CapacityKept(l, rec, c);
      case ReallyInsert(rec, now) => CapacityKept(l, Timed(rec, now, c), c);
      case InsertBatch(recs, now) => CommitKeepsValid(l, StageAll(l, recs, now, c).chain, c);
      case LookupByName(name, types, now) => LookedUpKeepsValid(l, CacheKey(Lower(name), types), now);
      case LookupForward(name, types, now) =>
        LookedUpKeepsValid(l, CacheKey(Lower(name), types), now);
        LookedUpKeepsValid(LookedUp(l, CacheKey(Lower(name), types), now).records,
          CacheKey(Lower(name), types.(neg := true)), now);
      case Sweep(now) =>
        DistinctDrop(l, ExpiredAt(now));
        PeekDrop(l, ExpiredAt(now), CacheKey("", NO_TYPES));
      case RemoveByUid(uid) =>
        DistinctDrop(l, StaticOf(uid));
        PeekDrop(l, StaticOf(uid), CacheKey("", NO_TYPES));
    }
  }

  /** One operation gives the same answer on the cache and on the store, and keeps them in agreement. */
  lemma StepAgrees(l: Records, m: Store, t: int, op: Op, c: Config)
    requires Distinct(l) && |l| <= c.maxSize && Agree(l, m, t) && StaticsAreImmortal(m) && Fits(l, op, t, c)
    ensures Step(l, op, c).answer == RefStep(m, op, c).1
    ensures Agree(Step(l, op, c).records, RefStep(m, op, c).0, TimeOf(op, t))
    ensures StaticsAreImmortal(RefStep(m, op, c).0)
  {
    AgreeLater(l, m, t, TimeOf(op, t));
    match op {
      case Insert(rec) => AgreeInsert(l, m, t, rec, c);
      case ReallyInsert(rec, now) =>
        PrepareAgrees(l, m, t, rec, now, c);
        if Prepare(Peek(l, KeyOf(rec)), rec, now, c).New? {
          AgreeInsert(l, m, now, Timed(rec, now, c), c);
        }
      case InsertBatch(recs, now) => AgreeBatch(l, m, t, op, c);
      case LookupByName(name, types, now) => AgreeLookup(l, m, CacheKey(Lower(name), types), now);
      case LookupForward(name, types, now) =>
        AgreeLookup(l, m, CacheKey(Lower(name), types), now);
        AgreeLookup(LookedUp(l, CacheKey(Lower(name), types), now).records, m,
          CacheKey(Lower(name), types.(neg := true)), now);
      case Sweep(now) => AgreeDropExpired(l, m, now);
      case RemoveByUid(uid) => AgreeRemove(l, m, t, uid);
    }
  }

  function Answers(l: Records, ops: seq<Op>, c: Config): seq<Option<CacheRecord>>
    decreases |ops|
  {
    if ops == [] then []
    else [Step(l, ops[0], c).answer] + Answers(Step(l, ops[0], c).records, ops[1..], c)
  }

  function RefAnswers(m: Store, ops: seq<Op>, c: Config): seq<Option<CacheRecord>>
    decreases |ops|
  {
    if ops == [] then []
    else [RefStep(m, ops[0], c).1] + RefAnswers(RefStep(m, ops[0], c).0, ops[1..], c)
  }

  /** A run at non-decreasing times in which no insert pushes out a record that is alive. */
  predicate RunFits(l: Records, ops: seq<Op>, t: int, c: Config)
    decreases |ops|
  {
    ops == [] || (Fits(l, ops[0], t, c) && RunFits(Step(l, ops[0], c).records, ops[1..], TimeOf(ops[0], t), c))
  }

  lemma {:induction false} RunAgrees(l: Records, m: Store, t: int, ops: seq<Op>, c: Config)
    requires Distinct(l) && |l| <= c.maxSize && Agree(l, m, t) && StaticsAreImmortal(m) && RunFits(l, ops, t, c)
    ensures Answers(l, ops, c) == RefAnswers(m, ops, c)
    decreases |ops|
  {
    if ops == [] {
    } else {
      StepAgrees(l, m, t, ops[0], c);
      StepKeepsValid(l, ops[0], c);
      RunAgrees(Step(l, ops[0], c).records, RefStep(m, ops[0], c).0, TimeOf(ops[0], t), ops[1..], c);
    }
  }

  /** Lazy expiry, sweeps and recency are unobservable: from an empty cache, every run that pushes out nothing alive
      answers every lookup as a map would that never deletes and filters by expiry. */
  lemma ExpiryIsUnobservable(t: int, ops: seq<Op>, c: Config)
    requires RunFits([], ops, t, c)
    ensures Answers([], ops, c) == RefAnswers(map[], ops, c)
  {
    forall k
      ensures AgreeAt([], map[], t, k)
    {
    }
    RunAgrees([], map[], t, ops, c);
  }

  lemma TwoAnswers(l: Records, m: Store, a: Op, b: Op, c: Config)
    ensures Answers(l, [a, b], c) == [Step(l, a, c).answer, Step(Step(l, a, c).records, b, c).answer]
    ensures RefAnswers(m, [a, b], c) == [RefStep(m, a, c).1, RefStep(RefStep(m, a, c).0, b, c).1]
  {
    assert [a, b][1..] == [b] && [b][1..] == [];
    var l1, m1 := Step(l, a, c).records, RefStep(m, a, c).0;
    assert Answers(l1, [b], c) == [Step(l1, b, c).answer] + Answers(Step(l1, b, c).records, [], c);
    assert RefAnswers(m1, [b], c) == [RefStep(m1, b, c).1] + RefAnswers(RefStep(m1, b, c).0, [], c);
  }

  /** The condition is exact at every size: whenever an insert pushes out a record that is alive, a lookup of that
      record misses what the store still has. */
  lemma OverflowIsObservable(l: Records, m: Store, t: int, rec: CacheRecord, lost: CacheRecord, c: Config)
    requires Distinct(l) && |l| <= c.maxSize && Agree(l, m, t) && !LosesNothing(l, rec, t, c)
    requires if c.maxSize == 0 then lost == rec else l[|l| - 1] == Slot(KeyOf(lost), lost)
    ensures var ops := [Insert(rec), LookupByName(lost.name, lost.flags.types, t)];
            Answers(l, ops, c) == [None, None] && RefAnswers(m, ops, c) == [None, Some(lost)]
  {
    InsertLoses(l, m, t, rec, c);
    TwoAnswers(l, m, Insert(rec), LookupByName(lost.name, lost.flags.types, t), c);
  }

  lemma {:induction false} DropMembers(l: Records, p: CacheRecord -> bool, s: Slot<CacheKey, CacheRecord>)
    ensures s in Drop(l, p) <==> s in l && !p(s.value)
  {
    if l == [] {
    } else {
      DropMembers(l[1..], p, s);
      assert l == [l[0]] + l[1..];
    }
  }

  /** A sweep changes whether an alias is committed if and only if the alias hangs on expired records alone. */
  lemma SweepIsSeenIff(l: Records, rec: CacheRecord, now: int)
    ensures (Outdated(Drop(l, ExpiredAt(now)), rec) <==> Outdated(l, rec)) <==> !OnlyExpiredTargets(l, rec, now)
  {
    var swept := Drop(l, ExpiredAt(now));
    OutdatedMeaning(l, rec);
    OutdatedMeaning(swept, rec);
    forall i | 0 <= i < |swept|
      ensures exists j :: 0 <= j < |l| && l[j] == swept[i] && !Expired(l[j].value, now)
    {
      DropMembers(l, ExpiredAt(now), swept[i]);
    }
    forall j | 0 <= j < |l| && !Expired(l[j].value, now)
      ensures exists i :: 0 <= i < |swept| && swept[i] == l[j]
    {
      DropMembers(l, ExpiredAt(now), l[j]);
    }
  }

  /** So it is for a batch with an alias whose only target has expired: the batch commits it while the target is still
      in the cache, and drops it after a sweep. */
  lemma PointerAliasSeesSweep(target: CacheRecord, alias: CacheRecord, now: int, c: Config)
    requires Expired(target, now) && !target.flags.types.dnskey && !target.flags.types.ds
    requires alias.flags.types.cname && alias.addr == Some(Cname(false, Some(target.name), target.uid))
    requires KeyOf(alias) != KeyOf(target) && Prepare(None, alias, now, c).New? && c.maxSize >= 2
    ensures var l := [Slot(KeyOf(target), target)];
            && Peek(Batch(l, [alias], now, c), KeyOf(alias)).Some?
            && Peek(Batch(Drop(l, ExpiredAt(now)), [alias], now, c), KeyOf(alias)).None?
  {
    var l, stored := [Slot(KeyOf(target), target)], Timed(alias, now, c);
    assert l[1..] == [] && [alias][..0] == [] && [stored][1..] == [];
    assert Peek(l, KeyOf(alias)) == None;
    assert Drop(l, ExpiredAt(now)) == Drop([], ExpiredAt(now)) == [];
    assert StageAll(l, [], now, c) == Staging([], false) && StageAll([], [], now, c) == Staging([], false);
    assert StageAll(l, [alias], now, c).chain == [stored] && StageAll([], [alias], now, c).chain == [stored];
    assert l[0].key.name == Lower(target.name);
    assert !Outdated(l, stored) && Outdated([], stored);
    assert CommitAll(l, [stored], c) == CommitAll(InsertRecord(l, stored, c), [], c);
    assert CommitAll([], [stored], c) == CommitAll([], [], c);
  }
}
