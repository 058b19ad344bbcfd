/** The DNS cache (src/cache.rs): a bounded map in recency order with lazy expiry and staged inserts. */
module Cache {
  import opened Basics
  import opened Names
  import opened Lru

  /** Instants are counted in nanoseconds. */
  const SECOND := 1_000_000_000
  const DNSSEC_MIN_TTL := 60
  const UID_NONE := 0

  /** The `F_*` bits that are part of a cache key (`TYPE_MASK`). */
  datatype TypeBits = TypeBits(
    ipv4: bool, ipv6: bool, cname: bool, neg: bool, nxdomain: bool,
    reverse: bool, dnskey: bool, ds: bool, rr: bool, dnssec: bool)

  const NO_TYPES := TypeBits(false, false, false, false, false, false, false, false, false, false)

  datatype RecordFlags = RecordFlags(
    types: TypeBits, forward: bool, immortal: bool, hosts: bool, dhcp: bool, config: bool)
  {
    predicate Static() { hosts || dhcp || config }
  }

  datatype Address =
    | Addr4(octets: seq<int>)
    | Addr6(octets: seq<int>)
    | Cname(isNamePtr: bool, target: Option<string>, targetUid: nat)
    | OtherAddress(data: seq<int>)

  datatype CacheRecord = CacheRecord(
    name: string, flags: RecordFlags, ttl: nat, expires: int, addr: Option<Address>, uid: nat)

  datatype CacheKey = CacheKey(name: string, types: TypeBits)

  type Records = Lru<CacheKey, CacheRecord>

  function KeyOf(rec: CacheRecord): CacheKey {
    CacheKey(Lower(rec.name), rec.flags.types)
  }

  /** `record_is_expired`. */
  predicate Expired(rec: CacheRecord, now: int) {
    !rec.flags.immortal && rec.expires <= now
  }

  // ----- inserting -----

  datatype Config = Config(maxSize: nat, minTtl: nat, maxTtl: nat)

  datatype Outcome = Inserted | ZeroTtlDropped | BlockedSameAddr | BlockedConflict | CachingDisabled

  datatype Prepared = New(rec: CacheRecord) | SameAddr | Refused(outcome: Outcome)

  /** `DnsCache::insert`. A cache of size zero keeps nothing. */
  function InsertRecord(l: Records, rec: CacheRecord, c: Config): Records {
    if c.maxSize == 0 then l else Put(l, KeyOf(rec), rec, c.maxSize)
  }

  function ClampTtl(rec: CacheRecord, c: Config): nat {
    if rec.flags.types.dnskey || rec.flags.types.ds then
      if rec.ttl < DNSSEC_MIN_TTL then DNSSEC_MIN_TTL else rec.ttl
    else
      var capped := if c.maxTtl != 0 && rec.ttl > c.maxTtl then c.maxTtl else rec.ttl;
      if c.minTtl != 0 && capped < c.minTtl then c.minTtl else capped
  }

  function Smaller(a: nat, b: nat): nat { if a <= b then a else b }

  function Larger(a: nat, b: nat): nat { if a >= b then a else b }

  /** The stored lifetime lies within the configured bounds, the lower one winning when they contradict each other;
      DNSSEC records ignore the bounds but live at least a minute; nothing else is changed. */
  lemma LifetimeIsClamped(rec: CacheRecord, now: int, c: Config)
    requires !rec.flags.Static()
    ensures var stored := Timed(rec, now, c);
            && stored.expires == now + stored.ttl * SECOND
            && stored.(ttl := rec.ttl, expires := rec.expires) == rec
            && if rec.flags.types.dnskey || rec.flags.types.ds then stored.ttl == Larger(rec.ttl, DNSSEC_MIN_TTL)
               else stored.ttl == Larger(c.minTtl, if c.maxTtl == 0 then rec.ttl else Smaller(rec.ttl, c.maxTtl))
  {
  }

  predicate SameAddress(a: Option<Address>, b: Option<Address>) {
    a.Some? && b.Some? && (a.value.Addr4? || a.value.Addr6?) && a == b
  }

  /** The record as it would be stored. Only DNS answers have their lifetime clamped. */
  function Timed(rec: CacheRecord, now: int, c: Config): CacheRecord {
    if rec.flags.Static() then rec
    else
      var ttl := ClampTtl(rec, c);
      rec.(ttl := ttl, expires := now + ttl * SECOND)
  }

  /** `prepare_insert`, given what the cache holds under the record's key. */
  function Prepare(existing: Option<CacheRecord>, rec: CacheRecord, now: int, c: Config): Prepared {
    var timed := Timed(rec, now, c);
    if !rec.flags.Static() && timed.ttl == 0 && !rec.flags.immortal then Refused(ZeroTtlDropped)
    else if existing.Some? && existing.value.flags.Static() && !rec.flags.Static() then
      if SameAddress(existing.value.addr, rec.addr) then SameAddr else Refused(BlockedConflict)
    else if c.maxSize == 0 then Refused(CachingDisabled)
    else New(timed)
  }

  /** `really_insert`. */
  function ReallyInserted(l: Records, rec: CacheRecord, now: int, c: Config): (r: (Records, Outcome)) {
    match Prepare(Peek(l, KeyOf(rec)), rec, now, c)
    case New(timed) => (InsertRecord(l, timed, c), Inserted)
    case SameAddr => (l, BlockedSameAddr)
    case Refused(outcome) => (l, outcome)
  }

  // ----- staged inserts -----

  /** `is_outdated_cname_pointer`: an alias that points at a cache slot which is no longer there. */
  predicate Outdated(l: Records, rec: CacheRecord) {
    && rec.flags.types.cname && rec.addr.Some? && rec.addr.value.Cname? && !rec.addr.value.isNamePtr
    && (rec.addr.value.target.None? || !TargetLive(l, Lower(rec.addr.value.target.value), rec.addr.value.targetUid))
  }

  predicate TargetLive(l: Records, target: string, uid: nat) {
    exists i :: 0 <= i < |l| && l[i].key.name == target
      && !l[i].value.flags.types.dnskey && !l[i].value.flags.types.ds && l[i].value.uid == uid
  }

  /** Committing staged records in order, without outdated pointer aliases. */
  function CommitAll(l: Records, staged: seq<CacheRecord>, c: Config): Records
    decreases |staged|
  {
    if staged == [] then l
    else CommitAll(if Outdated(l, staged[0]) then l else InsertRecord(l, staged[0], c), staged[1..], c)
  }

  function CommitCount(l: Records, staged: seq<CacheRecord>, c: Config): nat
    decreases |staged|
  {
    if staged == [] then 0
    else if Outdated(l, staged[0]) then CommitCount(l, staged[1..], c)
    else 1 + CommitCount(InsertRecord(l, staged[0], c), staged[1..], c)
  }

  // ----- lookups -----

  datatype Found = Found(records: Records, answer: Option<CacheRecord>)

  /** `lookup_by_name`: an expired record is dropped, a hit becomes the most recent entry. */
  function LookedUp(l: Records, key: CacheKey, now: int): Found {
    match Peek(l, key)
    case None => Found(l, None)
    case Some(r) => if Expired(r, now) then Found(Pop(l, key), None) else Found(Get(l, key), Some(r))
  }

  /** `lookup_forward`: the record of the type, or the negative entry recorded for it. */
  function LookedUpForward(l: Records, name: string, types: TypeBits, now: int): Found {
    var positive := LookedUp(l, CacheKey(Lower(name), types), now);
    if positive.answer.Some? then positive
    else LookedUp(positive.records, CacheKey(Lower(name), types.(neg := true)), now)
  }

  lemma LookedUpKeepsValid(l: Records, key: CacheKey, now: int)
    requires Distinct(l)
    ensures Distinct(LookedUp(l, key, now).records) && |LookedUp(l, key, now).records| <= |l|
  {
    DistinctPop(l, key);
    PopLength(l, key);
    DistinctGet(l, key);
  }

  lemma CapacityKept(l: Records, rec: CacheRecord, c: Config)
    requires Distinct(l) && |l| <= c.maxSize
    ensures Distinct(InsertRecord(l, rec, c)) && |InsertRecord(l, rec, c)| <= c.maxSize
  {
    if c.maxSize > 0 {
      DistinctPut(l, KeyOf(rec), rec, c.maxSize);
    }
  }

  // ----- collecting keys and popping them -----

  function ExpiredAt(now: int): CacheRecord -> bool {
    (r: CacheRecord) => Expired(r, now)
  }

  function StaticOf(uid: nat): CacheRecord -> bool {
    (r: CacheRecord) => r.uid == uid && r.flags.Static()
  }

  function KeysWhere(l: Records, p: CacheRecord -> bool): seq<CacheKey> {
    if l == [] then []
    else (if p(l[0].value) then [l[0].key] else []) + KeysWhere(l[1..], p)
  }

  function PopAll(l: Records, keys: seq<CacheKey>): Records
    decreases |keys|
  {
    if keys == [] then l else PopAll(Pop(l, keys[0]), keys[1..])
  }

  lemma {:induction false} PopAllPast(s: Slot<CacheKey, CacheRecord>, l: Records, keys: seq<CacheKey>)
    requires s.key !in keys
    ensures PopAll([s] + l, keys) == [s] + PopAll(l, keys)
    decreases |keys|
  {
    if keys == [] {
    } else {
      assert ([s] + l)[1..] == l;
      assert Pop([s] + l, keys[0]) == [s] + Pop(l, keys[0]);
      PopAllPast(s, Pop(l, keys[0]), keys[1..]);
    }
  }

  lemma {:induction false} KeysWhereAreKeys(l: Records, p: CacheRecord -> bool, k: CacheKey)
    requires Peek(l, k).None?
    ensures k !in KeysWhere(l, p)
  {
    if l == [] {
    } else {
      KeysWhereAreKeys(l[1..], p, k);
    }
  }

  lemma {:induction false} PopMissing(l: Records, k: CacheKey)
    requires Peek(l, k).None?
    ensures Pop(l, k) == l
  {
    if l == [] {
    } else {
      PopMissing(l[1..], k);
    }
  }

  /** Popping the collected keys one by one is a sweep. */
  lemma {:induction false} PopAllIsDrop(l: Records, p: CacheRecord -> bool)
    requires Distinct(l)
    ensures PopAll(l, KeysWhere(l, p)) == Drop(l, p)
  {
    if l == [] {
    } else {
      DistinctTail(l);
      PopAllIsDrop(l[1..], p);
      KeysWhereAreKeys(l[1..], p, l[0].key);
      assert l == [l[0]] + l[1..];
      if p(l[0].value) {
        var keys := KeysWhere(l[1..], p);
        assert ([l[0].key] + keys)[1..] == keys;
        PopMissing(l[1..], l[0].key);
      } else {
        assert KeysWhere(l, p) == KeysWhere(l[1..], p);
        PopAllPast(l[0], l[1..], KeysWhere(l[1..], p));
      }
    }
  }

  lemma {:induction false} DropCounts(l: Records, p: CacheRecord -> bool)
    ensures |Drop(l, p)| + |KeysWhere(l, p)| == |l|
  {
    if l == [] {
      assert Drop(l, p) == [] && KeysWhere(l, p) == [];
    } else {
      DropCounts(l[1..], p);
    }
  }

  // ----- the cache object -----

  class DnsCache {
    const config: Config
    var records: Records
    var newChain: seq<CacheRecord>
    var insertError: bool
    var inserts: nat
    var evictions: nat
    var hits: nat
    var misses: nat

    ghost predicate Valid()
      reads this
    {
      Distinct(records) && |records| <= config.maxSize
    }

    constructor (config: Config)
      ensures Valid() && this.config == config && records == [] && newChain == [] && !insertError
      ensures inserts == evictions == hits == misses == 0
    {
      this.config := config;
      records, newChain, insertError := [], [], false;
      inserts, evictions, hits, misses := 0, 0, 0, 0;
    }

    method Insert(rec: CacheRecord)
      requires Valid()
      modifies `records, `inserts, `evictions
      ensures Valid() && records == InsertRecord(old(records), rec, config)
      ensures config.maxSize == 0 ==> unchanged(`inserts) && unchanged(`evictions)
      ensures config.maxSize > 0 ==> inserts == old(inserts) + 1
      ensures config.maxSize > 0 ==> evictions == old(evictions) + if |old(records)| == config.maxSize then 1 else 0
    {
      CapacityKept(records, rec, config);
      if config.maxSize == 0 {
        return;
      }
      var wasFull := |records| == config.maxSize;
      records := Put(records, KeyOf(rec), rec, config.maxSize);
      inserts := inserts + 1;
      if wasFull {
        evictions := evictions + 1;
      }
    }

    method PrepareInsert(rec0: CacheRecord, now: int) returns (r: Prepared)
      requires Valid()
      ensures r == Prepare(Peek(records, KeyOf(rec0)), rec0, now, config)
    {
      var rec := rec0;
      var isStatic := rec.flags.Static();
      if !isStatic {
        if rec.flags.types.dnskey || rec.flags.types.ds {
          if rec.ttl < DNSSEC_MIN_TTL {
            rec := rec.(ttl := DNSSEC_MIN_TTL);
          }
        } else {
          if config.maxTtl != 0 && rec.ttl > config.maxTtl {
            rec := rec.(ttl := config.maxTtl);
          }
          if config.minTtl != 0 && rec.ttl < config.minTtl {
            rec := rec.(ttl := config.minTtl);
          }
        }
        if rec.ttl == 0 && !rec.flags.immortal {
          return Refused(ZeroTtlDropped);
        }
        rec := rec.(expires := now + rec.ttl * SECOND);
      }
      var existing := Peek(records, KeyOf(rec));
      if existing.Some? && existing.value.flags.Static() && !isStatic {
        return if SameAddress(existing.value.addr, rec.addr) then SameAddr else Refused(BlockedConflict);
      }
      if config.maxSize == 0 {
        return Refused(CachingDisabled);
      }
      return New(rec);
    }

    method ReallyInsert(rec: CacheRecord, now: int) returns (outcome: Outcome)
      requires Valid()
      modifies `records, `inserts, `evictions
      ensures Valid() && (records, outcome) == ReallyInserted(old(records), rec, now, config)
    {
      var p := PrepareInsert(rec, now);
      match p {
        case New(r) =>
          Insert(r);
          outcome := Inserted;
        case SameAddr => outcome := BlockedSameAddr;
        case Refused(o) => outcome := o;
      }
    }

    method StartInsert()
      modifies `newChain, `insertError
      ensures newChain == [] && !insertError
    {
      newChain, insertError := [], false;
    }

    /** Staging never touches the live records. */
    method StageInsert(rec: CacheRecord, now: int) returns (outcome: Option<Outcome>)
      requires Valid()
      modifies `newChain, `insertError
      ensures old(insertError) ==> outcome == None && insertError && newChain == old(newChain)
      ensures !old(insertError) ==>
                match Prepare(Peek(records, KeyOf(rec)), rec, now, config)
                case New(r) => outcome == Some(Inserted) && !insertError && newChain == old(newChain) + [r]
                case SameAddr => outcome == Some(BlockedSameAddr) && !insertError && newChain == old(newChain)
                case Refused(o) => outcome == Some(o) && insertError && newChain == old(newChain)
    {
      if insertError {
        return None;
      }
      var p := PrepareInsert(rec, now);
      match p {
        case New(r) =>
          newChain := newChain + [r];
          outcome := Some(Inserted);
        case SameAddr => outcome := Some(BlockedSameAddr);
        case Refused(o) =>
          insertError := true;
          outcome := Some(o);
      }
    }

    method EndInsert() returns (committed: nat)
      requires Valid()
      modifies `records, `newChain, `insertError, `inserts, `evictions
      ensures Valid() && newChain == [] && !insertError
      ensures old(insertError) ==> records == old(records) && committed == 0
      ensures !old(insertError) ==> records == CommitAll(old(records), old(newChain), config)
      ensures !old(insertError) ==> committed == CommitCount(old(records), old(newChain), config)
    {
      if insertError {
        newChain, insertError := [], false;
        return 0;
      }
      var staged := newChain;
      newChain := [];
      committed := 0;
      assert staged[0..] == staged;
      for i := 0 to |staged|
        invariant Valid()
        invariant newChain == [] && !insertError
        invariant CommitAll(old(records), staged, config) == CommitAll(records, staged[i..], config)
        invariant CommitCount(old(records), staged, config) == committed + CommitCount(records, staged[i..], config)
      {
        assert staged[i..][1..] == staged[i + 1..];
        if Outdated(records, staged[i]) {
          continue;
        }
        Insert(staged[i]);
        committed := committed + 1;
      }
    }

    /** The shape shared by `evict_expired`, `expire_old` and `remove_by_uid`: collect keys, then pop each. */
    method PopWhere(p: CacheRecord -> bool) returns (count: nat)
      requires Valid()
      modifies `records
      ensures Valid() && records == Drop(old(records), p) && count == |old(records)| - |records|
    {
      var keys := KeysWhere(records, p);
      count := |keys|;
      ghost var before := records;
      PopAllIsDrop(records, p);
      DropCounts(records, p);
      DistinctDrop(records, p);
      PeekDrop(records, p, CacheKey("", NO_TYPES));
      assert keys[0..] == keys;
      for i := 0 to |keys|
        invariant PopAll(before, keys) == PopAll(records, keys[i..])
      {
        assert keys[i..][1..] == keys[i + 1..];
        records := Pop(records, keys[i]);
      }
      assert keys[|keys|..] == [];
    }

    method ExpireOld(now: int)
      requires Valid()
      modifies `records
      ensures Valid() && records == Drop(old(records), ExpiredAt(now))
    {
      var _ := PopWhere(ExpiredAt(now));
    }

    method EvictExpired(now: int) returns (count: nat)
      requires Valid()
      modifies `records, `evictions
      ensures Valid() && records == Drop(old(records), ExpiredAt(now))
      ensures count == |old(records)| - |records| && evictions == old(evictions) + count
    {
      count := PopWhere(ExpiredAt(now));
      evictions := evictions + count;
    }

    method RemoveByUid(uid: nat) returns (count: nat)
      requires Valid()
      modifies `records
      ensures Valid()
      ensures records == if uid == UID_NONE then old(records) else Drop(old(records), StaticOf(uid))
      ensures count == |old(records)| - |records|
    {
      if uid == UID_NONE {
        return 0;
      }
      count := PopWhere(StaticOf(uid));
    }

    method LookupByName(name: string, types: TypeBits, now: int) returns (r: Option<CacheRecord>)
      requires Valid()
      modifies `records, `hits, `misses
      ensures Valid() && Found(records, r) == LookedUp(old(records), CacheKey(Lower(name), types), now)
      ensures hits == old(hits) + (if r.Some? then 1 else 0) && misses == old(misses) + (if r.Some? then 0 else 1)
    {
      var key := CacheKey(Lower(name), types);
      LookedUpKeepsValid(records, key, now);
      var held := Peek(records, key);
      if held.Some? && Expired(held.value, now) {
        records := Pop(records, key);
        misses := misses + 1;
        return None;
      }
      if held.Some? {
        hits := hits + 1;
        records := Get(records, key);
        return held;
      }
      misses := misses + 1;
      return None;
    }

    /** Counts exactly one hit or one miss, whichever key answers. */
    method LookupForward(name: string, types: TypeBits, now: int) returns (r: Option<CacheRecord>)
      requires Valid()
      modifies `records, `hits, `misses
      ensures Valid() && Found(records, r) == LookedUpForward(old(records), name, types, now)
      ensures hits == old(hits) + (if r.Some? then 1 else 0) && misses == old(misses) + (if r.Some? then 0 else 1)
    {
      var keys := [CacheKey(Lower(name), types), CacheKey(Lower(name), types.(neg := true))];
      LookedUpKeepsValid(records, keys[0], now);
      LookedUpKeepsValid(LookedUp(records, keys[0], now).records, keys[1], now);
      r := None;
      ghost var was := records;
      for i := 0 to 2
        invariant r == None && unchanged(`hits) && unchanged(`misses)
        invariant i == 0 ==> records == was
        invariant i == 1 ==> Found(records, None) == LookedUp(was, keys[0], now)
        invariant i == 2 ==> LookedUp(was, keys[0], now).answer.None?
        invariant i == 2 ==> Found(records, None) == LookedUp(LookedUp(was, keys[0], now).records, keys[1], now)
      {
        var held := Peek(records, keys[i]);
        if held.Some? && Expired(held.value, now) {
          records := Pop(records, keys[i]);
          continue;
        }
        if held.Some? {
          hits := hits + 1;
          records := Get(records, keys[i]);
          return held;
        }
      }
      misses := misses + 1;
    }
  }
}
