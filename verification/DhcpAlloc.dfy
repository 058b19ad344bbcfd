/** Finding a free address in the pools (`address_allocate` in src/dhcp.rs). Addresses are 32-bit numbers. */
module DhcpAlloc {
  import opened Basics
  import opened DhcpPing

  const TWO_32 := 0x1_0000_0000

  /** A `DhcpContext`: a pool with its router, its tag filter and the two flags that take it out of use. */
  datatype Context = Context(
    start: nat, end: nat, router: nat, epoch: nat, isStatic: bool, isProxy: bool, filter: seq<string>)

  ghost predicate ValidPool(c: Context) { c.start <= c.end < TWO_32 }

  /** A reservation carries an address only when its flag says so. */
  datatype Reservation = Reservation(hasAddr: bool, addr: nat)

  datatype Env = Env(
    contexts: seq<Context>, leases: seq<nat>, reserved: seq<Reservation>, netids: seq<string>,
    hash: nat, now: int, loopback: bool, consec: bool, noPing: bool, inUse: nat -> bool)

  // ----- hashing a client into a pool -----

  function Mix(j: nat, b: nat): (r: nat)
    ensures r < TWO_32
  {
    (b + j * 64 + j * 65536 - j) % TWO_32
  }

  function Sdbm(hwaddr: seq<nat>): nat {
    if hwaddr == [] then 0 else Mix(Sdbm(hwaddr[..|hwaddr| - 1]), hwaddr[|hwaddr| - 1])
  }

  /** `sdbm_hash`: zero is a marker, so it is never returned. */
  method SdbmHash(hwaddr: seq<nat>) returns (h: nat)
    ensures h == if Sdbm(hwaddr) == 0 then 1 else Sdbm(hwaddr)
    ensures 0 < h < TWO_32
  {
    var j := 0;
    for i := 0 to |hwaddr|
      invariant j == Sdbm(hwaddr[..i]) && j < TWO_32
    {
      assert hwaddr[..i + 1][..i] == hwaddr[..i];
      j := (hwaddr[i] + j * 64 + j * 65536 - j) % TWO_32;
    }
    assert hwaddr[..|hwaddr|] == hwaddr;
    h := if j == 0 then 1 else j;
  }

  /** The bytes as digits to the base 65599. */
  function Digits(hwaddr: seq<nat>): nat {
    if hwaddr == [] then 0 else Digits(hwaddr[..|hwaddr| - 1]) * 65599 + hwaddr[|hwaddr| - 1]
  }

  lemma MixIsDigit(j: nat, d: nat, b: nat)
    requires j == d % TWO_32
    ensures Mix(j, b) == (d * 65599 + b) % TWO_32
  {
    var k := d / TWO_32;
    assert d == k * TWO_32 + j;
    assert d * 65599 + b == (j * 65599 + b) + (k * 65599) * TWO_32;
    AddMultiple(j * 65599 + b, k * 65599);
    assert b + j * 64 + j * 65536 - j == j * 65599 + b;
  }

  lemma {:induction false} AddMultiple(x: nat, k: nat)
    ensures (x + k * TWO_32) % TWO_32 == x % TWO_32
  {
    if k == 0 {
    } else {
      AddMultiple(x, k - 1);
      assert x + k * TWO_32 == (x + (k - 1) * TWO_32) + TWO_32;
    }
  }

  /** The hash of a hardware address is its bytes read to the base 65599, in 32 bits. */
  lemma {:induction false} SdbmIsDigits(hwaddr: seq<nat>)
    ensures Sdbm(hwaddr) == Digits(hwaddr) % TWO_32
  {
    if hwaddr == [] {
    } else {
      var before := hwaddr[..|hwaddr| - 1];
      SdbmIsDigits(before);
      MixIsDigit(Sdbm(before), Digits(before), hwaddr[|hwaddr| - 1]);
    }
  }

  /** `hash_to_addr`, in wrapping 32-bit arithmetic. */
  function HashToAddr(hash: nat, epoch: nat, start: nat, end: nat): (a: nat)
    requires start <= end < TWO_32
    ensures start <= a <= end
  {
    var range := (end - start + 1) % TWO_32;
    if range == 0 then start else start + (hash + epoch) % TWO_32 % range
  }

  function MaxLeased(leases: seq<nat>, start: nat, end: nat): (a: Option<nat>)
    ensures a.Some? ==> start <= a.value <= end && a.value in leases
    ensures forall l :: l in leases && start <= l <= end ==> a.Some? && l <= a.value
  {
    if leases == [] then None
    else
      var rest := MaxLeased(leases[1..], start, end);
      assert forall l :: l in leases ==> l == leases[0] || l in leases[1..];
      if start <= leases[0] <= end && (rest.None? || leases[0] > rest.value) then Some(leases[0]) else rest
  }

  /** Where the scan of a pool begins: the highest leased address in consecutive mode, otherwise the client's hash. */
  function Seed(e: Env, c: Context): (a: nat)
    requires ValidPool(c)
    ensures c.start <= a <= c.end
  {
    if e.consec then
      var m := MaxLeased(e.leases, c.start, c.end);
      if m.Some? then m.value else c.start
    else HashToAddr(e.hash, c.epoch, c.start, c.end)
  }

  /** Outside consecutive mode the scan begins as far into the pool as the client's hash, moved by the pool's epoch,
      says; in consecutive mode at the highest leased address of the pool, or at its start. */
  lemma SeedMeaning(e: Env, c: Context)
    requires ValidPool(c)
    ensures !e.consec && c.end - c.start + 1 < TWO_32 ==>
              Seed(e, c) - c.start == (e.hash + c.epoch) % TWO_32 % (c.end - c.start + 1)
    ensures !e.consec && c.end - c.start + 1 == TWO_32 ==> Seed(e, c) == c.start
    ensures e.consec && (forall l :: l in e.leases ==> !(c.start <= l <= c.end)) ==> Seed(e, c) == c.start
    ensures e.consec && (exists l :: l in e.leases && c.start <= l <= c.end) ==>
              && Seed(e, c) in e.leases
              && forall l :: l in e.leases && c.start <= l <= c.end ==> l <= Seed(e, c)
  {
  }

  // ----- eligibility -----

  predicate Negated(tag: string) { tag != "" && (tag[0] == '!' || tag[0] == '#') }

  /** Every tag of the filter is set, or unset when negated; a pool without a filter matches if no tag is needed. */
  predicate FilterMatches(filter: seq<string>, netids: seq<string>, tagNotNeeded: bool) {
    if filter == [] then tagNotNeeded
    else forall i :: 0 <= i < |filter| ==>
      if Negated(filter[i]) then filter[i][1..] !in netids else filter[i] in netids
  }

  /** `context_filter_matches`. */
  method ContextFilterMatches(filter: seq<string>, netids: seq<string>, tagNotNeeded: bool) returns (ok: bool)
    ensures ok <==> FilterMatches(filter, netids, tagNotNeeded)
  {
    if filter == [] {
      return tagNotNeeded;
    }
    for i := 0 to |filter|
      invariant forall j :: 0 <= j < i ==> if Negated(filter[j]) then filter[j][1..] !in netids else filter[j] in netids
    {
      var check := filter[i];
      if Negated(check) {
        if check[1..] in netids {
          return false;
        }
      } else if check !in netids {
        return false;
      }
    }
    return true;
  }

  predicate Eligible(e: Env, c: Context, pass: nat) {
    !c.isStatic && !c.isProxy && FilterMatches(c.filter, e.netids, pass == 1)
  }

  /** `is_allocatable_addr`: no .0 or .255 in the former class C range. */
  predicate Allocatable(a: nat) {
    var first, last := a / 0x100_0000 % 256, a % 256;
    192 <= first <= 223 ==> last != 0 && last != 255
  }

  /** An address the scan will consider: no router, safe, unleased and unreserved. */
  predicate Candidate(e: Env, a: nat) {
    && (forall i :: 0 <= i < |e.contexts| ==> a != e.contexts[i].router)
    && Allocatable(a)
    && a !in e.leases
    && (forall i :: 0 <= i < |e.reserved| ==> !(e.reserved[i].hasAddr && e.reserved[i].addr == a))
  }

  function QueryFor(e: Env, a: nat): Query {
    Query(e.now, a, e.hash, e.noPing, e.loopback)
  }

  /** The check lets the address go to this client. */
  predicate Accepts(e: Env, rs: seq<PingResult>, a: nat) {
    var r := Answer(rs, QueryFor(e, a), e.inUse);
    r.Some? && (!e.consec || r.value == e.hash)
  }

  // ----- the reference scan: the pool's addresses by offset from the seed -----

  function Size(c: Context): nat
    requires ValidPool(c)
  {
    c.end - c.start + 1
  }

  /** The address `i` steps after `seed`, going round the pool. */
  function Nth(c: Context, seed: nat, i: nat): nat
    requires ValidPool(c) && c.start <= seed <= c.end && i <= Size(c)
  {
    if seed + i <= c.end then seed + i else seed + i - Size(c)
  }

  datatype Outcome = Outcome(addr: Option<nat>, results: seq<PingResult>)

  function ScanPool(e: Env, c: Context, rs: seq<PingResult>, i: nat): Outcome
    requires ValidPool(c) && i <= Size(c)
    decreases Size(c) - i
  {
    if i == Size(c) then Outcome(None, rs)
    else
      var a := Nth(c, Seed(e, c), i);
      if !Candidate(e, a) then ScanPool(e, c, rs, i + 1)
      else if Accepts(e, rs, a) then Outcome(Some(a), Recorded(rs, QueryFor(e, a), e.inUse))
      else ScanPool(e, c, Recorded(rs, QueryFor(e, a), e.inUse), i + 1)
  }

  ghost predicate ValidEnv(e: Env) {
    forall i :: 0 <= i < |e.contexts| ==> ValidPool(e.contexts[i])
  }

  function ScanPools(e: Env, pass: nat, n: nat, rs: seq<PingResult>): Outcome
    requires ValidEnv(e) && n <= |e.contexts|
    decreases |e.contexts| - n
  {
    if n == |e.contexts| then Outcome(None, rs)
    else if !Eligible(e, e.contexts[n], pass) then ScanPools(e, pass, n + 1, rs)
    else
      var o := ScanPool(e, e.contexts[n], rs, 0);
      if o.addr.Some? then o else ScanPools(e, pass, n + 1, o.results)
  }

  /** Two passes: pools whose tags match, then also pools without tags. */
  function Allocation(e: Env, rs: seq<PingResult>): Outcome
    requires ValidEnv(e)
  {
    var o := ScanPools(e, 0, 0, rs);
    if o.addr.Some? then o else ScanPools(e, 1, 0, o.results)
  }

  // ----- the code -----

  /** `next_addr_wrapping`. */
  function NextAddr(a: nat, start: nat, end: nat): nat
    requires a < TWO_32 && end < TWO_32
  {
    var next := (a + 1) % TWO_32;
    if next == (end + 1) % TWO_32 then start else next
  }

  /** One step round the pool is the next offset, and the seed comes up again only after the whole pool. */
  lemma NextIsNth(c: Context, seed: nat, i: nat)
    requires ValidPool(c) && c.start <= seed <= c.end && i < Size(c)
    ensures NextAddr(Nth(c, seed, i), c.start, c.end) == Nth(c, seed, i + 1)
    ensures Nth(c, seed, i + 1) == seed <==> i + 1 == Size(c)
  {
  }

  /** The inner loop: from the seed round to the seed. */
  method ScanOnePool(e: Env, c: Context, cache: PingCache) returns (r: Option<nat>)
    requires ValidPool(c)
    modifies cache
    ensures Outcome(r, cache.results) == ScanPool(e, c, old(cache.results), 0)
  {
    var startAddr := Seed(e, c);
    var addr := startAddr;
    ghost var i := 0;
    while true
      invariant i < Size(c) && addr == Nth(c, startAddr, i)
      invariant ScanPool(e, c, old(cache.results), 0) == ScanPool(e, c, cache.results, i)
      decreases Size(c) - i
    {
      if Candidate(e, addr) {
        var h := cache.Check(QueryFor(e, addr), e.inUse);
        if h.Some? && (!e.consec || h.value == e.hash) {
          return Some(addr);
        }
      }
      NextIsNth(c, startAddr, i);
      addr := NextAddr(addr, c.start, c.end);
      i := i + 1;
      if addr == startAddr {
        return None;
      }
    }
  }

  /** `address_allocate`. */
  method AddressAllocate(e: Env, cache: PingCache) returns (r: Option<nat>)
    requires ValidEnv(e)
    modifies cache
    ensures Outcome(r, cache.results) == Allocation(e, old(cache.results))
  {
    ghost var first := ScanPools(e, 0, 0, cache.results);
    for pass := 0 to 2
      invariant pass == 0 ==> cache.results == old(cache.results)
      invariant pass == 1 ==> Outcome(None, cache.results) == first
      invariant pass == 2 ==> first.addr.None? && Outcome(None, cache.results) == ScanPools(e, 1, 0, first.results)
    {
      ghost var before := cache.results;
      for n := 0 to |e.contexts|
        invariant ScanPools(e, pass, 0, before) == ScanPools(e, pass, n, cache.results)
      {
        var c := e.contexts[n];
        if c.isStatic || c.isProxy {
          continue;
        }
        var matches := ContextFilterMatches(c.filter, e.netids, pass == 1);
        if !matches {
          continue;
        }
        r := ScanOnePool(e, c, cache);
        if r.Some? {
          return;
        }
      }
    }
    return None;
  }

  // ----- what the scan visits -----

  /** How many steps after the seed an address is reached. */
  function OffsetOf(c: Context, seed: nat, a: nat): (i: nat)
    requires ValidPool(c) && c.start <= seed <= c.end && c.start <= a <= c.end
    ensures i < Size(c) && Nth(c, seed, i) == a
  {
    if a >= seed then a - seed else a + Size(c) - seed
  }

  /** The scan visits only addresses of the pool, every one of them, and each only once. */
  lemma ScanVisitsEachOnce(c: Context, seed: nat, i: nat)
    requires ValidPool(c) && c.start <= seed <= c.end && i < Size(c)
    ensures c.start <= Nth(c, seed, i) <= c.end
    ensures OffsetOf(c, seed, Nth(c, seed, i)) == i
  {
  }

  /** What a successful allocation guarantees of the address. */
  ghost predicate GoodIn(e: Env, c: Context, a: nat) {
    c.start <= a <= c.end && Candidate(e, a) && Eligible(e, c, 1)
  }

  lemma {:induction false} ScanPoolIsGood(e: Env, c: Context, rs: seq<PingResult>, i: nat)
    requires ValidPool(c) && i <= Size(c)
    ensures var o := ScanPool(e, c, rs, i); o.addr.Some? ==>
              c.start <= o.addr.value <= c.end && Candidate(e, o.addr.value)
    decreases Size(c) - i
  {
    if i == Size(c) {
    } else {
      var a := Nth(c, Seed(e, c), i);
      ScanPoolIsGood(e, c, rs, i + 1);
      ScanPoolIsGood(e, c, Recorded(rs, QueryFor(e, a), e.inUse), i + 1);
    }
  }

  lemma {:induction false} ScanPoolsIsGood(e: Env, pass: nat, n: nat, rs: seq<PingResult>)
    requires ValidEnv(e) && n <= |e.contexts| && pass <= 1
    ensures var o := ScanPools(e, pass, n, rs);
            o.addr.Some? ==> exists k :: n <= k < |e.contexts| && GoodIn(e, e.contexts[k], o.addr.value)
    decreases |e.contexts| - n
  {
    if n == |e.contexts| {
    } else {
      var c := e.contexts[n];
      var o := ScanPool(e, c, rs, 0);
      ScanPoolIsGood(e, c, rs, 0);
      ScanPoolsIsGood(e, pass, n + 1, rs);
      ScanPoolsIsGood(e, pass, n + 1, o.results);
      if Eligible(e, c, pass) && o.addr.Some? {
        assert GoodIn(e, e.contexts[n], o.addr.value);
      }
    }
  }

  /** Every plain tag of the pool is set and every negated one is not. */
  ghost predicate TagsHold(filter: seq<string>, netids: seq<string>) {
    forall i :: 0 <= i < |filter| ==>
      if filter[i] != "" && (filter[i][0] == '!' || filter[i][0] == '#') then filter[i][1..] !in netids
      else filter[i] in netids
  }

  /** A dynamic pool whose tags hold has the address. */
  ghost predicate Holds(e: Env, c: Context, a: nat) {
    !c.isStatic && !c.isProxy && TagsHold(c.filter, e.netids) && c.start <= a <= c.end
  }

  /** The address is nobody's: no lease, no reservation, no router, and no .0 or .255 of 192.0.0.0 to
      223.255.255.255. */
  ghost predicate Unclaimed(e: Env, a: nat) {
    && a !in e.leases
    && (forall i :: 0 <= i < |e.reserved| && e.reserved[i].hasAddr ==> e.reserved[i].addr != a)
    && (forall i :: 0 <= i < |e.contexts| ==> e.contexts[i].router != a)
    && !(0xC000_0000 <= a <= 0xDFFF_FFFF && (a % 256 == 0 || a % 256 == 255))
  }

  lemma CandidateIsUnclaimed(e: Env, a: nat)
    requires a < TWO_32
    ensures Candidate(e, a) <==> Unclaimed(e, a)
  {
    assert 192 <= a / 0x100_0000 % 256 <= 223 <==> 0xC000_0000 <= a <= 0xDFFF_FFFF;
  }

  lemma EligibleHolds(e: Env, c: Context)
    ensures Eligible(e, c, 1) <==> !c.isStatic && !c.isProxy && TagsHold(c.filter, e.netids)
    ensures Eligible(e, c, 0) <==> !c.isStatic && !c.isProxy && TagsHold(c.filter, e.netids) && c.filter != []
  {
  }

  /** A result is unleased, unreserved, no router and allocatable, and lies in a dynamic pool whose tags hold. */
  lemma AllocatedIsGood(e: Env, rs: seq<PingResult>)
    requires ValidEnv(e) && Allocation(e, rs).addr.Some?
    ensures var a := Allocation(e, rs).addr.value;
            && a < TWO_32 && a !in e.leases
            && (forall i :: 0 <= i < |e.reserved| && e.reserved[i].hasAddr ==> e.reserved[i].addr != a)
            && (forall i :: 0 <= i < |e.contexts| ==> e.contexts[i].router != a)
            && !(0xC000_0000 <= a <= 0xDFFF_FFFF && (a % 256 == 0 || a % 256 == 255))
            && exists k :: 0 <= k < |e.contexts| && Holds(e, e.contexts[k], a)
  {
    ScanPoolsIsGood(e, 0, 0, rs);
    ScanPoolsIsGood(e, 1, 0, ScanPools(e, 0, 0, rs).results);
    var a := Allocation(e, rs).addr.value;
    var k :| 0 <= k < |e.contexts| && GoodIn(e, e.contexts[k], a);
    EligibleHolds(e, e.contexts[k]);
    CandidateIsUnclaimed(e, a);
  }

  lemma {:induction false} ScanPoolExhausts(e: Env, c: Context, rs: seq<PingResult>, i: nat, a: nat)
    requires ValidPool(c) && i <= Size(c) && !e.consec && ScanPool(e, c, rs, i).addr.None?
    requires c.start <= a <= c.end && i <= OffsetOf(c, Seed(e, c), a) && Candidate(e, a)
    ensures e.inUse(a) && !e.noPing && !e.loopback
    decreases Size(c) - i
  {
    var b := Nth(c, Seed(e, c), i);
    if OffsetOf(c, Seed(e, c), a) == i {
      assert b == a && !Accepts(e, rs, a);
    } else {
      if Candidate(e, b) {
        ScanPoolExhausts(e, c, Recorded(rs, QueryFor(e, b), e.inUse), i + 1, a);
      } else {
        ScanPoolExhausts(e, c, rs, i + 1, a);
      }
    }
  }

  lemma {:induction false} ScanPoolsExhausts(e: Env, pass: nat, n: nat, rs: seq<PingResult>, k: nat, a: nat)
    requires ValidEnv(e) && n <= k < |e.contexts| && !e.consec && ScanPools(e, pass, n, rs).addr.None?
    requires Eligible(e, e.contexts[k], pass) && e.contexts[k].start <= a <= e.contexts[k].end && Candidate(e, a)
    ensures e.inUse(a) && !e.noPing && !e.loopback
    decreases |e.contexts| - n
  {
    var c := e.contexts[n];
    if n < k {
      ScanPoolsExhausts(e, pass, n + 1, if Eligible(e, c, pass) then ScanPool(e, c, rs, 0).results else rs, k, a);
    } else {
      ScanPoolExhausts(e, c, rs, 0, a);
    }
  }

  /** Outside consecutive mode, no result means that every address which is nobody's and lies in a dynamic pool whose
      tags hold answered the probe. */
  lemma NoneMeansAllAnswered(e: Env, rs: seq<PingResult>, k: nat, a: nat)
    requires ValidEnv(e) && !e.consec && Allocation(e, rs).addr.None?
    requires k < |e.contexts| && Holds(e, e.contexts[k], a) && Unclaimed(e, a)
    ensures e.inUse(a) && !e.noPing && !e.loopback
  {
    EligibleHolds(e, e.contexts[k]);
    CandidateIsUnclaimed(e, a);
    ScanPoolsExhausts(e, 1, 0, ScanPools(e, 0, 0, rs).results, k, a);
  }

  // ----- which of the free addresses is given -----

  lemma {:induction false} ScanPoolFirst(e: Env, c: Context, rs: seq<PingResult>, i: nat, a: nat)
    requires ValidPool(c) && i <= Size(c) && !e.consec && ScanPool(e, c, rs, i).addr.Some?
    requires c.start <= a <= c.end && Candidate(e, a)
    ensures var r := ScanPool(e, c, rs, i).addr.value;
            && c.start <= r <= c.end && i <= OffsetOf(c, Seed(e, c), r)
            && (i <= OffsetOf(c, Seed(e, c), a) < OffsetOf(c, Seed(e, c), r) ==> e.inUse(a))
    decreases Size(c) - i
  {
    var b := Nth(c, Seed(e, c), i);
    ScanVisitsEachOnce(c, Seed(e, c), i);
    if !Candidate(e, b) {
      ScanPoolFirst(e, c, rs, i + 1, a);
    } else if !Accepts(e, rs, b) {
      ScanPoolFirst(e, c, Recorded(rs, QueryFor(e, b), e.inUse), i + 1, a);
    }
  }

  /** The pool in which a pass finds its address. */
  ghost function PoolFrom(e: Env, pass: nat, n: nat, rs: seq<PingResult>): (k: nat)
    requires ValidEnv(e) && n <= |e.contexts| && ScanPools(e, pass, n, rs).addr.Some?
    ensures n <= k < |e.contexts|
    decreases |e.contexts| - n
  {
    var c := e.contexts[n];
    if !Eligible(e, c, pass) then PoolFrom(e, pass, n + 1, rs)
    else if ScanPool(e, c, rs, 0).addr.Some? then n
    else PoolFrom(e, pass, n + 1, ScanPool(e, c, rs, 0).results)
  }

  /** The address `a` of pool `m` is tried before the address `r` of pool `n` in one pass: an earlier pool, or the same
      pool and fewer steps from where its scan begins. */
  ghost predicate Precedes(e: Env, m: nat, a: nat, n: nat, r: nat)
    requires ValidEnv(e) && m < |e.contexts| && n < |e.contexts|
    requires e.contexts[m].start <= a <= e.contexts[m].end && e.contexts[n].start <= r <= e.contexts[n].end
  {
    var seed, size := Seed(e, e.contexts[n]), e.contexts[n].end - e.contexts[n].start + 1;
    var before := if a >= seed then a - seed else a + size - seed;
    m < n || (m == n && before < if r >= seed then r - seed else r + size - seed)
  }

  lemma {:induction false} ScanPoolsFirst(e: Env, pass: nat, from: nat, rs: seq<PingResult>, m: nat, a: nat)
    requires ValidEnv(e) && from <= m < |e.contexts| && !e.consec && ScanPools(e, pass, from, rs).addr.Some?
    requires e.contexts[m].start <= a <= e.contexts[m].end && Candidate(e, a) && Eligible(e, e.contexts[m], pass)
    ensures var r, n := ScanPools(e, pass, from, rs).addr.value, PoolFrom(e, pass, from, rs);
            && Eligible(e, e.contexts[n], pass) && e.contexts[n].start <= r <= e.contexts[n].end
            && (Precedes(e, m, a, n, r) ==> e.inUse(a))
    decreases |e.contexts| - from
  {
    var c := e.contexts[from];
    if Eligible(e, c, pass) && ScanPool(e, c, rs, 0).addr.Some? {
      ScanPoolIsGood(e, c, rs, 0);
      if m == from {
        ScanPoolFirst(e, c, rs, 0, a);
      }
    } else {
      var rs' := if Eligible(e, c, pass) then ScanPool(e, c, rs, 0).results else rs;
      if m == from {
        ScanPoolExhausts(e, c, rs, 0, a);
        PoolHasResult(e, pass, from + 1, rs');
      } else {
        ScanPoolsFirst(e, pass, from + 1, rs', m, a);
      }
    }
  }

  lemma {:induction false} PoolHasResult(e: Env, pass: nat, from: nat, rs: seq<PingResult>)
    requires ValidEnv(e) && from <= |e.contexts| && ScanPools(e, pass, from, rs).addr.Some?
    ensures var r, n := ScanPools(e, pass, from, rs).addr.value, PoolFrom(e, pass, from, rs);
            Eligible(e, e.contexts[n], pass) && e.contexts[n].start <= r <= e.contexts[n].end
    decreases |e.contexts| - from
  {
    var c := e.contexts[from];
    if Eligible(e, c, pass) && ScanPool(e, c, rs, 0).addr.Some? {
      ScanPoolIsGood(e, c, rs, 0);
    } else {
      PoolHasResult(e, pass, from + 1, if Eligible(e, c, pass) then ScanPool(e, c, rs, 0).results else rs);
    }
  }

  /** The pass that finds the address, and the pool it is found in. */
  ghost function FoundIn(e: Env, rs: seq<PingResult>): (r: (nat, nat))
    requires ValidEnv(e) && Allocation(e, rs).addr.Some?
    ensures r.0 <= 1 && r.1 < |e.contexts|
  {
    var o := ScanPools(e, 0, 0, rs);
    if o.addr.Some? then (0, PoolFrom(e, 0, 0, rs)) else (1, PoolFrom(e, 1, 0, o.results))
  }

  /** Outside consecutive mode the first free address is given, pools with tags first: it lies in a dynamic pool whose
      tags hold, a pool with tags in the first pass, and every address that is nobody's and comes before it answered the
      probe. An address comes before it if its pool has tags and none of those gave one, or if it precedes it in the
      same pass. */
  lemma AllocatedIsFirst(e: Env, rs: seq<PingResult>, m: nat, a: nat)
    requires ValidEnv(e) && !e.consec && Allocation(e, rs).addr.Some?
    requires m < |e.contexts| && Holds(e, e.contexts[m], a) && Unclaimed(e, a)
    ensures var r, (pass, n) := Allocation(e, rs).addr.value, FoundIn(e, rs);
            && Holds(e, e.contexts[n], r) && (pass == 0 ==> e.contexts[n].filter != [])
            && (pass == 1 && e.contexts[m].filter != [] ==> e.inUse(a))
            && ((pass == 1 || e.contexts[m].filter != []) && Precedes(e, m, a, n, r) ==> e.inUse(a))
  {
    CandidateIsUnclaimed(e, a);
    EligibleHolds(e, e.contexts[m]);
    var o := ScanPools(e, 0, 0, rs);
    EligibleHolds(e, e.contexts[FoundIn(e, rs).1]);
    if o.addr.Some? {
      PoolHasResult(e, 0, 0, rs);
      if e.contexts[m].filter != [] {
        ScanPoolsFirst(e, 0, 0, rs, m, a);
      }
    } else {
      ScanPoolsFirst(e, 1, 0, o.results, m, a);
      if e.contexts[m].filter != [] {
        ScanPoolsExhausts(e, 0, 0, rs, m, a);
      }
    }
  }

  // ----- consecutive mode and the ping cache -----

  /** The address has a fresh record made for another client. */
  ghost predicate TakenByOther(rs: seq<PingResult>, a: nat, hash: nat, now: int) {
    exists i :: 0 <= i < |rs| && !Stale(rs[i], now) && rs[i].addr == a && rs[i].hash != hash
  }

  /** The first fresh record of the address, the one a check answers from, was made for another client. */
  predicate HeldByOther(rs: seq<PingResult>, a: nat, hash: nat, now: int) {
    var r := FreshFor(rs, Query(now, a, hash, false, false));
    r.Some? && r.value.hash != hash
  }

  lemma {:induction false} FreshForIgnores(rs: seq<PingResult>, q: Query, q': Query)
    requires q.now == q'.now && q.addr == q'.addr
    ensures FreshFor(rs, q) == FreshFor(rs, q')
  {
    if rs == [] {
    } else {
      FreshForIgnores(rs[1..], q, q');
    }
  }

  /** A check of an address with a fresh record answers from the first one. */
  lemma AcceptsIff(e: Env, rs: seq<PingResult>, a: nat)
    requires e.consec && FreshFor(rs, QueryFor(e, a)).Some?
    ensures Accepts(e, rs, a) <==> !HeldByOther(rs, a, e.hash, e.now)
  {
    FreshForIgnores(rs, QueryFor(e, a), Query(e.now, a, e.hash, false, false));
  }

  lemma RecordedKeepsHeld(e: Env, rs: seq<PingResult>, b: nat, a: nat)
    requires HeldByOther(rs, a, e.hash, e.now)
    ensures HeldByOther(Recorded(rs, QueryFor(e, b), e.inUse), a, e.hash, e.now)
  {
    RecordedKeepsFirst(rs, QueryFor(e, b), e.inUse, Query(e.now, a, e.hash, false, false));
  }

  lemma {:induction false} ScanPoolSkipsHeld(e: Env, c: Context, rs: seq<PingResult>, i: nat, a: nat)
    requires ValidPool(c) && i <= Size(c) && e.consec && HeldByOther(rs, a, e.hash, e.now)
    ensures var o := ScanPool(e, c, rs, i); o.addr != Some(a) && HeldByOther(o.results, a, e.hash, e.now)
    decreases Size(c) - i
  {
    if i == Size(c) {
    } else {
      var b := Nth(c, Seed(e, c), i);
      if !Candidate(e, b) {
        ScanPoolSkipsHeld(e, c, rs, i + 1, a);
      } else {
        RecordedKeepsHeld(e, rs, b, a);
        if Accepts(e, rs, b) {
          FreshForIgnores(rs, QueryFor(e, a), Query(e.now, a, e.hash, false, false));
          AcceptsIff(e, rs, a);
        } else {
          ScanPoolSkipsHeld(e, c, Recorded(rs, QueryFor(e, b), e.inUse), i + 1, a);
        }
      }
    }
  }

  lemma {:induction false} ScanPoolsSkipsHeld(e: Env, pass: nat, n: nat, rs: seq<PingResult>, a: nat)
    requires ValidEnv(e) && n <= |e.contexts| && e.consec && HeldByOther(rs, a, e.hash, e.now)
    ensures var o := ScanPools(e, pass, n, rs); o.addr != Some(a) && HeldByOther(o.results, a, e.hash, e.now)
    decreases |e.contexts| - n
  {
    if n == |e.contexts| {
    } else {
      var c := e.contexts[n];
      if Eligible(e, c, pass) {
        ScanPoolSkipsHeld(e, c, rs, 0, a);
        ScanPoolsSkipsHeld(e, pass, n + 1, ScanPool(e, c, rs, 0).results, a);
      } else {
        ScanPoolsSkipsHeld(e, pass, n + 1, rs, a);
      }
    }
  }

  /** In consecutive mode an address whose first fresh record was made for one client is never given to another, for
      every content of the ping cache. */
  lemma ConsecutiveRespectsRecords(e: Env, rs: seq<PingResult>, a: nat)
    requires ValidEnv(e) && e.consec && HeldByOther(rs, a, e.hash, e.now)
    ensures Allocation(e, rs).addr != Some(a)
  {
    ScanPoolsSkipsHeld(e, 0, 0, rs, a);
    ScanPoolsSkipsHeld(e, 1, 0, ScanPools(e, 0, 0, rs).results, a);
  }

  // ----- when every fresh record protects its address -----

  /** The addresses that some configuration can give out. */
  predicate Givable(a: nat) { a < TWO_32 && Allocatable(a) }

  /** In consecutive mode no client gets an address that has a fresh record of another, whatever is configured. */
  ghost predicate ProtectsAll(rs: seq<PingResult>, now: int) {
    forall e: Env, a: nat :: ValidEnv(e) && e.consec && e.now == now && TakenByOther(rs, a, e.hash, now) ==>
      Allocation(e, rs).addr != Some(a)
  }

  /** All fresh records of an address that can be given out were made for the same client. */
  ghost predicate OneClientEach(rs: seq<PingResult>, now: int) {
    forall i, j ::
      0 <= i < |rs| && 0 <= j < |rs| && !Stale(rs[i], now) && !Stale(rs[j], now) && rs[i].addr == rs[j].addr ==>
        !Givable(rs[i].addr) || rs[i].hash == rs[j].hash
  }

  lemma GivenIsGivable(e: Env, rs: seq<PingResult>)
    requires ValidEnv(e) && Allocation(e, rs).addr.Some?
    ensures Givable(Allocation(e, rs).addr.value)
  {
    AllocatedIsGood(e, rs);
  }

  lemma TakenIsHeld(rs: seq<PingResult>, a: nat, hash: nat, now: int)
    requires OneClientEach(rs, now) && Givable(a) && TakenByOther(rs, a, hash, now)
    ensures HeldByOther(rs, a, hash, now)
  {
    FreshForMeaning(rs, Query(now, a, hash, false, false));
  }

  /** The pool of one address, open to everyone. */
  function Lone(a: nat, hash: nat, now: int): Env {
    Env([Context(a, a, a + 1, 0, false, false, [])], [], [], [], hash, now, false, true, false, _ => false)
  }

  lemma LoneAllocates(rs: seq<PingResult>, a: nat, hash: nat, now: int)
    requires Givable(a) && Accepts(Lone(a, hash, now), rs, a)
    ensures ValidEnv(Lone(a, hash, now)) && Allocation(Lone(a, hash, now), rs).addr == Some(a)
  {
    var e := Lone(a, hash, now);
    var c := e.contexts[0];
    assert Seed(e, c) == a == Nth(c, a, 0) && Candidate(e, a);
    assert ScanPool(e, c, rs, 0).addr == Some(a);
    assert !Eligible(e, c, 0) && Eligible(e, c, 1);
    assert ScanPools(e, 0, 0, rs) == ScanPools(e, 0, 1, rs) == Outcome(None, rs);
    assert ScanPools(e, 1, 0, rs).addr == Some(a);
  }

  /** Of two clients with fresh records of one address, the one of the first record gets the address. */
  lemma TwoClientsClash(rs: seq<PingResult>, now: int, i: nat, j: nat) returns (e: Env)
    requires i < |rs| && j < |rs| && !Stale(rs[i], now) && !Stale(rs[j], now)
    requires rs[i].addr == rs[j].addr && Givable(rs[i].addr) && rs[i].hash != rs[j].hash
    ensures ValidEnv(e) && e.consec && e.now == now && TakenByOther(rs, rs[i].addr, e.hash, now)
    ensures Allocation(e, rs).addr == Some(rs[i].addr)
  {
    var a := rs[i].addr;
    FreshForMeaning(rs, Query(now, a, 0, false, false));
    var hash := FreshFor(rs, Query(now, a, 0, false, false)).value.hash;
    e := Lone(a, hash, now);
    FreshForIgnores(rs, Query(now, a, 0, false, false), QueryFor(e, a));
    assert Accepts(e, rs, a);
    LoneAllocates(rs, a, hash, now);
  }

  /** Every fresh record protects its address from the other clients, whatever is configured, if and only if no address
      has fresh records of two clients. */
  lemma ProtectsAllIff(rs: seq<PingResult>, now: int)
    ensures ProtectsAll(rs, now) <==> OneClientEach(rs, now)
  {
    if OneClientEach(rs, now) {
      forall e: Env, a: nat | ValidEnv(e) && e.consec && e.now == now && TakenByOther(rs, a, e.hash, now)
        ensures Allocation(e, rs).addr != Some(a)
      {
        if Givable(a) {
          TakenIsHeld(rs, a, e.hash, now);
          ConsecutiveRespectsRecords(e, rs, a);
        } else if Allocation(e, rs).addr.Some? {
          GivenIsGivable(e, rs);
        }
      }
    } else {
      var i, j :| 0 <= i < |rs| && 0 <= j < |rs| && !Stale(rs[i], now) && !Stale(rs[j], now)
        && rs[i].addr == rs[j].addr && Givable(rs[i].addr) && rs[i].hash != rs[j].hash;
      var e := TwoClientsClash(rs, now, i, j);
      assert Allocation(e, rs).addr == Some(rs[i].addr);
    }
  }

  /** So it is after any run of checks during which the clock did not step back. */
  lemma MonotoneRunsProtect(qs: seq<Query>, now: int, inUse: nat -> bool)
    requires Monotone(qs, now)
    ensures ProtectsAll(After(qs, inUse).results, now)
  {
    RunOneFreshEach(qs, now, inUse);
    ProtectsAllIff(After(qs, inUse).results, now);
  }

  lemma ThreeChecks(a: Query, b: Query, c: Query, inUse: nat -> bool)
    ensures After([a, b, c], inUse).results
         == Recorded(Recorded(Recorded([], a, inUse), b, inUse), c, inUse)
  {
    assert [a, b, c][..2] == [a, b] && [a, b][..1] == [a] && [a][..0] == [];
    assert After([a], inUse) == Next(After([], inUse), a, inUse);
    assert After([a, b], inUse) == Next(After([a], inUse), b, inUse);
  }

  lemma RecordedFirst(q: Query, inUse: nat -> bool)
    requires !q.noPing && !q.loopback && !inUse(q.addr)
    ensures Recorded([], q, inUse) == [PingResult(q.addr, q.now, q.hash)]
  {
    assert FreshFor([], q).None? && CountFresh([], q.now) == 0 && Victim([], q.now) == 0;
  }

  lemma RecordedSecond(r: PingResult, q: Query, inUse: nat -> bool)
    requires !q.noPing && !q.loopback && !inUse(q.addr) && !Stale(r, q.now) && r.addr != q.addr
    ensures Recorded([r], q, inUse) == [r, PingResult(q.addr, q.now, q.hash)]
  {
    assert [r][1..] == [] && [r][..0] == [];
    assert FreshFor([r], q).None? && CountFresh([r], q.now) == 1;
  }

  lemma {:induction false} NoneFresh(rs: seq<PingResult>, now: int)
    requires forall i :: 0 <= i < |rs| ==> Stale(rs[i], now)
    ensures CountFresh(rs, now) == 0
  {
    if rs == [] {
    } else {
      NoneFresh(rs[..|rs| - 1], now);
    }
  }

  lemma RecordedOverLast(rs: seq<PingResult>, q: Query, inUse: nat -> bool)
    requires !q.noPing && !q.loopback && !inUse(q.addr) && rs != [] && forall i :: 0 <= i < |rs| ==> Stale(rs[i], q.now)
    ensures Recorded(rs, q, inUse) == rs[|rs| - 1 := PingResult(q.addr, q.now, q.hash)]
  {
    NoneFresh(rs, q.now);
    FreshForMeaning(rs, q);
  }

  /** A clock that steps back can give an address away. Client `h` checks two addresses, and more than thirty seconds
      later another client checks the first. When the clock then steps back to within thirty seconds of the first check,
      both records of the address are fresh, and `h` gets it. */
  lemma BackwardClockGivesAway(a: nat, b: nat, h: nat, h': nat, t: int, t': int, now: int, inUse: nat -> bool)
    requires Givable(a) && a != b && h != h' && !inUse(a) && !inUse(b)
    requires t' > t + PING_CACHE_TIME >= now
    ensures var qs := [Query(t, a, h, false, false), Query(t, b, h, false, false), Query(t', a, h', false, false)];
            var rs := After(qs, inUse).results;
            TakenByOther(rs, a, h, now) && ValidEnv(Lone(a, h, now)) && Allocation(Lone(a, h, now), rs).addr == Some(a)
  {
    var x, y, z := Query(t, a, h, false, false), Query(t, b, h, false, false), Query(t', a, h', false, false);
    ThreeChecks(x, y, z, inUse);
    RecordedFirst(x, inUse);
    RecordedSecond(PingResult(a, t, h), y, inUse);
    RecordedOverLast([PingResult(a, t, h), PingResult(b, t, h)], z, inUse);
    var rs := After([x, y, z], inUse).results;
    assert rs == [PingResult(a, t, h), PingResult(a, t', h')];
    assert rs[1].addr == a && FreshFor(rs, QueryFor(Lone(a, h, now), a)) == Some(rs[0]);
    LoneAllocates(rs, a, h, now);
  }
}
