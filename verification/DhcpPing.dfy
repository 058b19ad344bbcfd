/** The cache of address-conflict checks (`PingCache` in src/dhcp.rs). */
module DhcpPing {
  import opened Basics

  /** Instants are counted in nanoseconds. */
  const PING_CACHE_TIME := 30_000_000_000

  /** 60% of the checks of 3 seconds each that fit into the cache time. */
  const MAX_CHECKS := 6

  datatype PingResult = PingResult(addr: nat, time: int, hash: nat)

  /** A clock that went backwards counts as no time passed. */
  predicate Stale(r: PingResult, now: int) {
    (if now > r.time then now - r.time else 0) > PING_CACHE_TIME
  }

  datatype Query = Query(now: int, addr: nat, hash: nat, noPing: bool, loopback: bool)

  /** The first fresh record for the address. */
  function FreshFor(rs: seq<PingResult>, q: Query): Option<PingResult> {
    if rs == [] then None
    else if !Stale(rs[0], q.now) && rs[0].addr == q.addr then Some(rs[0])
    else FreshFor(rs[1..], q)
  }

  function CountFresh(rs: seq<PingResult>, now: int): nat {
    if rs == [] then 0
    else (if Stale(rs[|rs| - 1], now) then 0 else 1) + CountFresh(rs[..|rs| - 1], now)
  }

  /** The last stale record, or the length. */
  function Victim(rs: seq<PingResult>, now: int): (k: nat)
    ensures k <= |rs|
    ensures k < |rs| ==> Stale(rs[k], now)
    ensures k == |rs| ==> forall i :: 0 <= i < |rs| ==> !Stale(rs[i], now)
  {
    if rs == [] then 0
    else if Stale(rs[|rs| - 1], now) then |rs| - 1
    else
      var k := Victim(rs[..|rs| - 1], now);
      if k == |rs| - 1 then |rs| else k
  }

  /** Whether this query sends a probe: no fresh record answers it, and probing is neither off nor saturated. */
  predicate Probes(rs: seq<PingResult>, q: Query) {
    FreshFor(rs, q).None? && CountFresh(rs, q.now) < MAX_CHECKS && !q.noPing && !q.loopback
  }

  /** `check`: the answer, and the records afterwards. An answer is the hash on whose behalf the address is free. */
  function Answer(rs: seq<PingResult>, q: Query, inUse: nat -> bool): Option<nat> {
    if FreshFor(rs, q).Some? then Some(FreshFor(rs, q).value.hash)
    else if Probes(rs, q) && inUse(q.addr) then None
    else Some(q.hash)
  }

  predicate RecordsFree(rs: seq<PingResult>, q: Query, inUse: nat -> bool) {
    Probes(rs, q) && !inUse(q.addr)
  }

  function Recorded(rs: seq<PingResult>, q: Query, inUse: nat -> bool): seq<PingResult> {
    if !RecordsFree(rs, q, inUse) then rs
    else
      var r := PingResult(q.addr, q.now, q.hash);
      var k := Victim(rs, q.now);
      if k < |rs| then rs[k := r] else rs + [r]
  }

  lemma {:induction false} FreshForPrefix(rs: seq<PingResult>, q: Query, n: nat)
    requires n < |rs|
    ensures FreshFor(rs[..n], q).Some? ==> FreshFor(rs, q) == FreshFor(rs[..n], q)
    ensures FreshFor(rs[..n], q).None? && !Stale(rs[n], q.now) && rs[n].addr == q.addr ==>
              FreshFor(rs, q) == Some(rs[n])
    ensures FreshFor(rs[..n], q).None? && (Stale(rs[n], q.now) || rs[n].addr != q.addr) ==>
              FreshFor(rs[..n + 1], q).None?
    decreases n
  {
    if n == 0 {
    } else {
      assert rs[..n][1..] == rs[1..][..n - 1] && rs[..n + 1][1..] == rs[1..][..n];
      FreshForPrefix(rs[1..], q, n - 1);
    }
  }

  class PingCache {
    var results: seq<PingResult>

    constructor ()
      ensures results == []
    {
      results := [];
    }

    method Check(q: Query, inUse: nat -> bool) returns (r: Option<nat>)
      modifies this
      ensures results == Recorded(old(results), q, inUse)
      ensures r == Answer(old(results), q, inUse)
    {
      var count := 0;
      var victim: Option<nat> := None;
      for i := 0 to |results|
        invariant results == old(results)
        invariant count == CountFresh(results[..i], q.now)
        invariant FreshFor(results[..i], q).None?
        invariant match victim
                  case Some(v) => v == Victim(results[..i], q.now) && v < i
                  case None => Victim(results[..i], q.now) == i
      {
        assert results[..i + 1][..i] == results[..i];
        FreshForPrefix(results, q, i);
        if Stale(results[i], q.now) {
          victim := Some(i);
        } else {
          count := count + 1;
          if results[i].addr == q.addr {
            return Some(results[i].hash);
          }
        }
      }
      assert results[..|results|] == results;
      if count >= MAX_CHECKS || q.noPing || q.loopback {
        return Some(q.hash);
      }
      if inUse(q.addr) {
        return None;
      }
      var record := PingResult(q.addr, q.now, q.hash);
      match victim {
        case Some(v) => results := results[v := record];
        case None => results := results + [record];
      }
      return Some(q.hash);
    }
  }

  // ----- the cache is small -----

  lemma {:induction false} AllFresh(rs: seq<PingResult>, now: int)
    requires forall i :: 0 <= i < |rs| ==> !Stale(rs[i], now)
    ensures CountFresh(rs, now) == |rs|
  {
    if rs == [] {
    } else {
      AllFresh(rs[..|rs| - 1], now);
    }
  }

  /** Six results at most, whatever the clock does. */
  lemma StaysSmall(rs: seq<PingResult>, q: Query, inUse: nat -> bool)
    requires |rs| <= MAX_CHECKS
    ensures |Recorded(rs, q, inUse)| <= MAX_CHECKS
  {
    if Victim(rs, q.now) == |rs| {
      AllFresh(rs, q.now);
    }
  }

  // ----- the rate of free probes -----

  /** How many of the records were made at or after `from`. */
  function Since(rs: seq<PingResult>, from: int): nat {
    if rs == [] then 0
    else (if rs[|rs| - 1].time >= from then 1 else 0) + Since(rs[..|rs| - 1], from)
  }

  /** How many of the times fall in the closed window. */
  function InWindow(times: seq<int>, from: int, to: int): nat {
    if times == [] then 0
    else (if from <= times[|times| - 1] <= to then 1 else 0) + InWindow(times[..|times| - 1], from, to)
  }

  lemma {:induction false} SinceReplaced(rs: seq<PingResult>, k: nat, r: PingResult, from: int)
    requires k < |rs|
    ensures Since(rs[k := r], from) + (if rs[k].time >= from then 1 else 0)
         == Since(rs, from) + (if r.time >= from then 1 else 0)
  {
    if k < |rs| - 1 {
      assert rs[k := r][..|rs| - 1] == rs[..|rs| - 1][k := r];
      SinceReplaced(rs[..|rs| - 1], k, r, from);
    } else {
      assert rs[k := r][..|rs| - 1] == rs[..|rs| - 1];
    }
  }

  lemma {:induction false} SinceIsBounded(rs: seq<PingResult>, from: int)
    ensures Since(rs, from) <= |rs|
  {
    if rs == [] {
    } else {
      SinceIsBounded(rs[..|rs| - 1], from);
    }
  }

  /** State of a run: the records, and the times at which a free probe was ever recorded. */
  datatype Run = Run(results: seq<PingResult>, times: seq<int>)

  function Next(s: Run, q: Query, inUse: nat -> bool): Run {
    Run(Recorded(s.results, q, inUse), if RecordsFree(s.results, q, inUse) then s.times + [q.now] else s.times)
  }

  function After(qs: seq<Query>, inUse: nat -> bool): Run {
    if qs == [] then Run([], [])
    else Next(After(qs[..|qs| - 1], inUse), qs[|qs| - 1], inUse)
  }

  /** A record is only overwritten by one that is more than thirty seconds later, so each place of the cache holds at
      most one record of a window, also when the clock steps back. */
  lemma NextInWindow(s: Run, q: Query, inUse: nat -> bool, from: int)
    requires InWindow(s.times, from, from + PING_CACHE_TIME) <= Since(s.results, from)
    ensures var s' := Next(s, q, inUse); InWindow(s'.times, from, from + PING_CACHE_TIME) <= Since(s'.results, from)
  {
    if RecordsFree(s.results, q, inUse) {
      var s', k := Next(s, q, inUse), Victim(s.results, q.now);
      assert s'.times[..|s.times|] == s.times;
      if k < |s.results| {
        SinceReplaced(s.results, k, PingResult(q.addr, q.now, q.hash), from);
      } else {
        assert s'.results[..|s.results|] == s.results;
      }
    }
  }

  lemma {:induction false} RunInWindow(qs: seq<Query>, inUse: nat -> bool, from: int)
    ensures InWindow(After(qs, inUse).times, from, from + PING_CACHE_TIME) <= Since(After(qs, inUse).results, from)
    ensures |After(qs, inUse).results| <= MAX_CHECKS
    decreases |qs|
  {
    if qs == [] {
    } else {
      var before, q := qs[..|qs| - 1], qs[|qs| - 1];
      RunInWindow(before, inUse, from);
      NextInWindow(After(before, inUse), q, inUse, from);
      StaysSmall(After(before, inUse).results, q, inUse);
    }
  }

  /** In no closed window of thirty seconds are more than six free probes recorded, whatever the clock does. */
  lemma AtMostSixPerWindow(qs: seq<Query>, inUse: nat -> bool, from: int)
    ensures InWindow(After(qs, inUse).times, from, from + PING_CACHE_TIME) <= MAX_CHECKS
  {
    RunInWindow(qs, inUse, from);
    SinceIsBounded(After(qs, inUse).results, from);
  }

  // ----- a check in numbers -----

  /** The record is at most thirty seconds old, or from the future of a clock that has stepped back. */
  predicate Recent(r: PingResult, now: int) { now <= r.time + 30_000_000_000 }

  function CountRecent(rs: seq<PingResult>, now: int): nat {
    if rs == [] then 0 else (if Recent(rs[0], now) then 1 else 0) + CountRecent(rs[1..], now)
  }

  lemma RecentIsFresh(r: PingResult, now: int)
    ensures Recent(r, now) <==> !Stale(r, now)
  {
  }

  lemma {:induction false} CountFreshFront(r: PingResult, rs: seq<PingResult>, now: int)
    ensures CountFresh([r] + rs, now) == (if Stale(r, now) then 0 else 1) + CountFresh(rs, now)
    decreases |rs|
  {
    var all := [r] + rs;
    if rs == [] {
      assert all[..|all| - 1] == [];
    } else {
      CountFreshFront(r, rs[..|rs| - 1], now);
      assert all[..|all| - 1] == [r] + rs[..|rs| - 1];
    }
  }

  lemma {:induction false} CountRecentIs(rs: seq<PingResult>, now: int)
    ensures CountRecent(rs, now) == CountFresh(rs, now)
  {
    if rs == [] {
    } else {
      CountRecentIs(rs[1..], now);
      assert rs == [rs[0]] + rs[1..];
      CountFreshFront(rs[0], rs[1..], now);
    }
  }

  lemma {:induction false} FreshForFirst(rs: seq<PingResult>, q: Query, i: nat)
    requires i < |rs| && Recent(rs[i], q.now) && rs[i].addr == q.addr
    requires forall j :: 0 <= j < i ==> !(Recent(rs[j], q.now) && rs[j].addr == q.addr)
    ensures FreshFor(rs, q) == Some(rs[i])
    decreases i
  {
    if i == 0 {
    } else {
      FreshForFirst(rs[1..], q, i - 1);
    }
  }

  /** A check of an address with a recent record answers with the client of the first such record, and records
      nothing. */
  lemma CheckAnswersFromRecord(rs: seq<PingResult>, q: Query, inUse: nat -> bool, i: nat)
    requires i < |rs| && Recent(rs[i], q.now) && rs[i].addr == q.addr
    requires forall j :: 0 <= j < i ==> !(Recent(rs[j], q.now) && rs[j].addr == q.addr)
    ensures Answer(rs, q, inUse) == Some(rs[i].hash) && Recorded(rs, q, inUse) == rs
  {
    FreshForFirst(rs, q, i);
  }

  /** Otherwise the address is probed, unless probing is off, the client is on the loopback interface, or six records
      are recent. An address that answers the probe is in use. One that does not goes to the client and is recorded,
      over the last record that is not recent or else at the end. Without a probe the address goes to the client
      unrecorded. */
  lemma CheckProbes(rs: seq<PingResult>, q: Query, inUse: nat -> bool, v: nat)
    requires forall j :: 0 <= j < |rs| ==> !(Recent(rs[j], q.now) && rs[j].addr == q.addr)
    requires v <= |rs| && (v < |rs| ==> !Recent(rs[v], q.now))
    requires if v < |rs| then forall j :: v < j < |rs| ==> Recent(rs[j], q.now)
             else forall j :: 0 <= j < |rs| ==> Recent(rs[j], q.now)
    ensures var r := PingResult(q.addr, q.now, q.hash);
            if q.noPing || q.loopback || CountRecent(rs, q.now) >= 6
            then Answer(rs, q, inUse) == Some(q.hash) && Recorded(rs, q, inUse) == rs
            else if inUse(q.addr) then Answer(rs, q, inUse) == None && Recorded(rs, q, inUse) == rs
            else Answer(rs, q, inUse) == Some(q.hash)
                 && Recorded(rs, q, inUse) == if v < |rs| then rs[v := r] else rs + [r]
  {
    FreshForMeaning(rs, q);
    CountRecentIs(rs, q.now);
    VictimIs(rs, q.now, v);
  }

  lemma {:induction false} VictimIs(rs: seq<PingResult>, now: int, v: nat)
    requires v <= |rs| && (v < |rs| ==> Stale(rs[v], now))
    requires if v < |rs| then forall j :: v < j < |rs| ==> !Stale(rs[j], now)
             else forall j :: 0 <= j < |rs| ==> !Stale(rs[j], now)
    ensures Victim(rs, now) == v
  {
    if rs == [] || v == |rs| - 1 {
    } else {
      VictimIs(rs[..|rs| - 1], now, if v == |rs| then v - 1 else v);
    }
  }

  // ----- one fresh record per address -----

  /** The clock of the run never goes backwards and has not passed `t`. */
  predicate Monotone(qs: seq<Query>, t: int) {
    qs == [] || (qs[|qs| - 1].now <= t && Monotone(qs[..|qs| - 1], qs[|qs| - 1].now))
  }

  ghost predicate OneFreshEach(rs: seq<PingResult>, now: int) {
    forall i, j :: 0 <= i < j < |rs| && !Stale(rs[i], now) && !Stale(rs[j], now) ==> rs[i].addr != rs[j].addr
  }

  lemma {:induction false} FreshForMeaning(rs: seq<PingResult>, q: Query)
    ensures FreshFor(rs, q).None? <==> forall i :: 0 <= i < |rs| && !Stale(rs[i], q.now) ==> rs[i].addr != q.addr
    ensures FreshFor(rs, q).Some? ==>
              exists i :: 0 <= i < |rs| && rs[i] == FreshFor(rs, q).value && !Stale(rs[i], q.now)
                && rs[i].addr == q.addr
  {
    if rs == [] {
    } else {
      FreshForMeaning(rs[1..], q);
      if !Stale(rs[0], q.now) && rs[0].addr == q.addr {
        assert rs[0] == FreshFor(rs, q).value;
      } else {
        if FreshFor(rs[1..], q).Some? {
          var i :| 0 <= i < |rs[1..]| && rs[1..][i] == FreshFor(rs[1..], q).value && !Stale(rs[1..][i], q.now)
            && rs[1..][i].addr == q.addr;
          assert rs[i + 1] == FreshFor(rs, q).value;
        } else {
          forall i | 0 <= i < |rs| && !Stale(rs[i], q.now)
            ensures rs[i].addr != q.addr
          {
            assert i == 0 || rs[i] == rs[1..][i - 1];
          }
        }
      }
    }
  }

  lemma RecordedOneFreshEach(rs: seq<PingResult>, q: Query, inUse: nat -> bool)
    requires OneFreshEach(rs, q.now)
    ensures OneFreshEach(Recorded(rs, q, inUse), q.now)
  {
    FreshForMeaning(rs, q);
  }

  lemma {:induction false} RunOneFreshEach(qs: seq<Query>, t: int, inUse: nat -> bool)
    requires Monotone(qs, t)
    ensures OneFreshEach(After(qs, inUse).results, t)
    decreases |qs|
  {
    if qs == [] {
    } else {
      var before, q := qs[..|qs| - 1], qs[|qs| - 1];
      RunOneFreshEach(before, q.now, inUse);
      RecordedOneFreshEach(After(before, inUse).results, q, inUse);
      assert forall r :: !Stale(r, t) && q.now <= t ==> !Stale(r, q.now);
    }
  }
  // ----- the first fresh record of an address stays -----

  lemma {:induction false} FirstStays(rs: seq<PingResult>, k: nat, r: PingResult, q: Query)
    requires k < |rs| && Stale(rs[k], q.now) && r.addr != q.addr
    ensures FreshFor(rs[k := r], q) == FreshFor(rs, q)
  {
    if k == 0 {
      assert rs[k := r][1..] == rs[1..];
    } else {
      assert rs[k := r][1..] == rs[1..][k - 1 := r];
      FirstStays(rs[1..], k - 1, r, q);
    }
  }

  lemma {:induction false} FirstStaysBeforeLast(rs: seq<PingResult>, r: PingResult, q: Query)
    requires r.addr != q.addr
    ensures FreshFor(rs + [r], q) == FreshFor(rs, q)
  {
    if rs == [] {
      assert (rs + [r])[1..] == [];
    } else {
      assert (rs + [r])[1..] == rs[1..] + [r];
      FirstStaysBeforeLast(rs[1..], r, q);
    }
  }

  /** A check at the same instant, of any address, leaves the first fresh record of an address in place. */
  lemma RecordedKeepsFirst(rs: seq<PingResult>, other: Query, inUse: nat -> bool, q: Query)
    requires FreshFor(rs, q).Some? && other.now == q.now
    ensures FreshFor(Recorded(rs, other, inUse), q) == FreshFor(rs, q)
  {
    if RecordsFree(rs, other, inUse) {
      FreshForMeaning(rs, q);
      FreshForMeaning(rs, other);
      var r, k := PingResult(other.addr, other.now, other.hash), Victim(rs, other.now);
      if k < |rs| {
        FirstStays(rs, k, r, q);
      } else {
        FirstStaysBeforeLast(rs, r, q);
      }
    }
  }
}
