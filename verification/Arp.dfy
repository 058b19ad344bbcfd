/** The neighbour cache and its refresh protocol (src/arp.rs). */
module Arp {
  import opened Basics

  const DHCP_CHADDR_MAX := 16
  const REFRESH_INTERVAL := 90

  datatype Status = Mark | Found | New | Empty

  /** An address with its hardware address. */
  datatype Pair = Pair(addr: int, hwaddr: seq<int>)

  datatype ArpRecord = ArpRecord(status: Status, pair: Pair)

  datatype Action = Add(pair: Pair) | Del(pair: Pair)

  // ----- the steps of a refresh -----

  function Begun(active: seq<ArpRecord>): seq<ArpRecord> {
    seq(|active|, i requires 0 <= i < |active| =>
      if active[i].status == Empty then active[i] else active[i].(status := Mark))
  }

  /** A record that an entry of the enumeration settles: a negative one for its address, or the same pair. */
  predicate Settles(r: ArpRecord, p: Pair) {
    r.pair.addr == p.addr && r.status != New && (r.status == Empty || r.pair.hwaddr == p.hwaddr)
  }

  function Slot(active: seq<ArpRecord>, p: Pair): (k: nat)
    ensures k <= |active|
    ensures k < |active| ==> Settles(active[k], p)
    ensures forall i :: 0 <= i < k ==> !Settles(active[i], p)
  {
    if active == [] || Settles(active[0], p) then 0 else 1 + Slot(active[1..], p)
  }

  predicate TooLong(p: Pair) { |p.hwaddr| > DHCP_CHADDR_MAX }

  function Filtered(active: seq<ArpRecord>, p: Pair): seq<ArpRecord> {
    if TooLong(p) then active
    else
      var k := Slot(active, p);
      if k == |active| then active + [ArpRecord(New, p)]
      else active[k := ArpRecord(if active[k].status == Empty then New else Found, p)]
  }

  function FilteredAll(active: seq<ArpRecord>, kernel: seq<Pair>): seq<ArpRecord> {
    if kernel == [] then active else Filtered(FilteredAll(active, kernel[..|kernel| - 1]), kernel[|kernel| - 1])
  }

  function Where(rs: seq<ArpRecord>, marked: bool): seq<ArpRecord> {
    if rs == [] then []
    else Where(rs[..|rs| - 1], marked) + if (rs[|rs| - 1].status == Mark) == marked then [rs[|rs| - 1]] else []
  }

  /** The records in use and the ones waiting to be reported as gone. */
  datatype State = State(active: seq<ArpRecord>, gone: seq<ArpRecord>)

  function Refreshed(s: State, kernel: seq<Pair>): State {
    var seen := FilteredAll(Begun(s.active), kernel);
    State(Where(seen, false), s.gone + Where(seen, true))
  }

  predicate Knows(active: seq<ArpRecord>, addr: int) {
    exists i :: 0 <= i < |active| && active[i].pair.addr == addr
  }

  function EmptyAdded(s: State, addr: int): State {
    if Knows(s.active, addr) then s
    else s.(active := s.active + [ArpRecord(Empty, Pair(addr, []))])
  }

  /** The first record that has not been announced. */
  function FirstNew(active: seq<ArpRecord>): (k: nat)
    ensures k <= |active|
    ensures k < |active| ==> active[k].status == New
    ensures forall i :: 0 <= i < k ==> active[i].status != New
  {
    if active == [] || active[0].status == New then 0 else 1 + FirstNew(active[1..])
  }

  datatype Drained = Drained(state: State, action: Option<Action>)

  /** `do_arp_script_run`: deletions first, then additions. */
  function ScriptRun(s: State): Drained {
    if s.gone != [] then Drained(s.(gone := s.gone[1..]), Some(Del(s.gone[0].pair)))
    else
      var k := FirstNew(s.active);
      if k == |s.active| then Drained(s, None)
      else Drained(s.(active := s.active[k := s.active[k].(status := Found)]), Some(Add(s.active[k].pair)))
  }

  /** The hardware address `find_mac_cached` returns. */
  function Cached(active: seq<ArpRecord>, addr: int, lazy: bool): Option<seq<int>> {
    if active == [] then None
    else
      var r := active[0];
      if r.pair.addr == addr && (r.status != Empty || lazy) && r.pair.hwaddr != [] then Some(r.pair.hwaddr)
      else Cached(active[1..], addr, lazy)
  }

  // ----- the object -----

  /** A record of the address that an enumeration has not just made, and that is negative or has the same hardware
      address. */
  predicate Matches(r: ArpRecord, p: Pair) {
    && r.pair.addr == p.addr
    && match r.status
       case Empty => true
       case New => false
       case Mark => r.pair.hwaddr == p.hwaddr
       case Found => r.pair.hwaddr == p.hwaddr
  }

  predicate IsFirstMatch(active: seq<ArpRecord>, k: nat, p: Pair)
    requires k < |active|
  {
    Matches(active[k], p) && forall i :: 0 <= i < k ==> !Matches(active[i], p)
  }

  predicate IsFirstNew(active: seq<ArpRecord>, k: nat)
    requires k < |active|
  {
    active[k].status == New && forall i :: 0 <= i < k ==> active[i].status != New
  }

  class ArpCache {
    var active: seq<ArpRecord>
    var gone: seq<ArpRecord>
    var lastRefresh: int

    constructor ()
      ensures active == [] && gone == [] && lastRefresh == 0
    {
      active, gone, lastRefresh := [], [], 0;
    }

    predicate IsStale(now: int)
      reads this
    {
      (if now > lastRefresh then now - lastRefresh else 0) >= REFRESH_INTERVAL
    }

    method BeginRefresh(now: int)
      modifies `active, `lastRefresh
      ensures active == Begun(old(active)) && lastRefresh == now
      ensures forall i :: 0 <= i < |active| ==>
                active[i] == ArpRecord(if old(active)[i].status == Empty then Empty else Mark, old(active)[i].pair)
    {
      lastRefresh := now;
      for i := 0 to |active|
        invariant |active| == |old(active)| && lastRefresh == now
        invariant forall j :: 0 <= j < i ==> active[j] == Begun(old(active))[j]
        invariant forall j :: i <= j < |active| ==> active[j] == old(active)[j]
      {
        if active[i].status != Empty {
          active := active[i := active[i].(status := Mark)];
        }
      }
    }

    method FilterMac(p: Pair) returns (ok: bool)
      modifies `active
      ensures active == Filtered(old(active), p) && ok == (|p.hwaddr| <= 16)
      ensures !ok ==> active == old(active)
      ensures ok && (forall i :: 0 <= i < |old(active)| ==> !Matches(old(active)[i], p)) ==>
                active == old(active) + [ArpRecord(New, p)]
      ensures forall k ::
                0 <= k < |old(active)| && ok && IsFirstMatch(old(active), k, p) ==>
                  active == old(active)[k := ArpRecord(if old(active)[k].status == Empty then New else Found, p)]
    {
      if |p.hwaddr| > DHCP_CHADDR_MAX {
        return false;
      }
      for i := 0 to |active|
        invariant active == old(active)
        invariant forall j :: 0 <= j < i ==> !Settles(active[j], p)
      {
        var r := active[i];
        if r.pair.addr != p.addr || r.status == New {
          continue;
        }
        if r.status == Empty {
          SlotIs(active, p, i);
          active := active[i := ArpRecord(New, p)];
          return true;
        }
        if r.pair.hwaddr == p.hwaddr {
          SlotIs(active, p, i);
          active := active[i := r.(status := Found)];
          return true;
        }
      }
      active := active + [ArpRecord(New, p)];
      return true;
    }

    method FinishRefresh()
      modifies `active, `gone
      ensures active == Where(old(active), false) && gone == old(gone) + Where(old(active), true)
    {
      var stillActive := [];
      var all := active;
      for i := 0 to |all|
        invariant active == all == old(active)
        invariant stillActive == Where(all[..i], false)
        invariant gone == old(gone) + Where(all[..i], true)
      {
        assert all[..i + 1][..i] == all[..i];
        if all[i].status == Mark {
          gone := gone + [all[i]];
        } else {
          stillActive := stillActive + [all[i]];
        }
      }
      assert all[..|all|] == all;
      active := stillActive;
    }

    /** One cycle: mark, take in what the kernel enumerates, expire what it did not. */
    method Refresh(now: int, kernel: seq<Pair>)
      modifies this
      ensures State(active, gone) == Refreshed(old(State(active, gone)), kernel) && lastRefresh == now
    {
      BeginRefresh(now);
      ghost var begun := active;
      for i := 0 to |kernel|
        invariant active == FilteredAll(begun, kernel[..i]) && gone == old(gone) && lastRefresh == now
      {
        assert kernel[..i + 1][..i] == kernel[..i];
        var _ := FilterMac(kernel[i]);
      }
      assert kernel[..|kernel|] == kernel;
      FinishRefresh();
    }

    method FindMacCached(addr: int, lazy: bool) returns (r: Option<seq<int>>)
      ensures r == Cached(active, addr, lazy)
    {
      assert active[0..] == active;
      for i := 0 to |active|
        invariant Cached(active, addr, lazy) == Cached(active[i..], addr, lazy)
      {
        assert active[i..][1..] == active[i + 1..];
        if active[i].pair.addr == addr && (active[i].status != Empty || lazy) && active[i].pair.hwaddr != [] {
          return Some(active[i].pair.hwaddr);
        }
      }
      return None;
    }

    method AddEmpty(addr: int)
      modifies `active
      ensures State(active, gone) == EmptyAdded(old(State(active, gone)), addr)
      ensures active == if exists r :: r in old(active) && r.pair.addr == addr then old(active)
                        else old(active) + [ArpRecord(Empty, Pair(addr, []))]
    {
      if Knows(active, addr) {
        return;
      }
      active := active + [ArpRecord(Empty, Pair(addr, []))];
    }

    method DoArpScriptRun() returns (action: Option<Action>)
      modifies `active, `gone
      ensures Drained(State(active, gone), action) == ScriptRun(old(State(active, gone)))
      ensures old(gone) != [] ==>
                action == Some(Del(old(gone)[0].pair)) && gone == old(gone)[1..] && active == old(active)
      ensures old(gone) == [] && (forall i :: 0 <= i < |old(active)| ==> old(active)[i].status != New) ==>
                action == None && active == old(active) && gone == []
      ensures forall k ::
                0 <= k < |old(active)| && old(gone) == [] && IsFirstNew(old(active), k) ==>
                  && action == Some(Add(old(active)[k].pair)) && gone == []
                  && active == old(active)[k := ArpRecord(Found, old(active)[k].pair)]
    {
      if gone != [] {
        var first := gone[0];
        gone := gone[1..];
        return Some(Del(first.pair));
      }
      for i := 0 to |active|
        invariant active == old(active)
        invariant forall j :: 0 <= j < i ==> active[j].status != New
      {
        if active[i].status == New {
          var p := active[i].pair;
          active := active[i := active[i].(status := Found)];
          return Some(Add(p));
        }
      }
      return None;
    }

    /** `find_mac`: at most one refresh, and a record for the address after a miss. */
    method FindMac(addr: int, lazy: bool, now: int, canQuery: bool, kernel: seq<Pair>)
      returns (r: Option<seq<int>>, refreshes: nat)
      modifies this
      ensures refreshes <= 1
      ensures refreshes == 0 <==> !canQuery || (now - old(lastRefresh) < 90 && Cached(old(active), addr, lazy).Some?)
      ensures refreshes == 0 ==> (gone == old(gone) && lastRefresh == old(lastRefresh)
                                  && (r == Cached(old(active), addr, lazy)) && active == old(active))
      ensures refreshes == 1 ==> canQuery && lastRefresh == now
      ensures refreshes == 1 ==> r == Cached(Refreshed(old(State(active, gone)), kernel).active, addr, true)
      ensures refreshes == 1 ==> var s := Refreshed(old(State(active, gone)), kernel);
                                 State(active, gone) == if r.Some? then s else EmptyAdded(s, addr)
      ensures canQuery && r.None? ==> Knows(active, addr)
    {
      var updated := false;
      refreshes := 0;
      while true
        invariant refreshes == (if updated then 1 else 0) && (updated ==> canQuery && lastRefresh == now)
        invariant !updated ==> State(active, gone) == old(State(active, gone)) && lastRefresh == old(lastRefresh)
        invariant updated ==> old(IsStale(now)) || Cached(old(active), addr, lazy).None?
        invariant updated ==> State(active, gone) == Refreshed(old(State(active, gone)), kernel)
        decreases !updated
      {
        if !IsStale(now) || !canQuery {
          r := FindMacCached(addr, lazy || updated);
          if r.Some? {
            return;
          }
        }
        if !canQuery {
          r := None;
          return;
        }
        if !updated {
          updated := true;
          refreshes := 1;
          Refresh(now, kernel);
          continue;
        }
        break;
      }
      AddEmpty(addr);
      r := None;
      EmptyAddedHasAddress(Refreshed(old(State(active, gone)), kernel), addr);
    }

    method RefreshIfStale(now: int, kernel: seq<Pair>)
      modifies this
      ensures now - old(lastRefresh) >= 90 ==>
                State(active, gone) == Refreshed(old(State(active, gone)), kernel) && lastRefresh == now
      ensures now - old(lastRefresh) < 90 ==>
                State(active, gone) == old(State(active, gone)) && lastRefresh == old(lastRefresh)
    {
      if !IsStale(now) {
        return;
      }
      Refresh(now, kernel);
    }
  }

  lemma SlotIs(active: seq<ArpRecord>, p: Pair, i: nat)
    requires i < |active| && Settles(active[i], p) && forall j :: 0 <= j < i ==> !Settles(active[j], p)
    ensures Slot(active, p) == i
  {
  }

  lemma EmptyAddedHasAddress(s: State, addr: int)
    ensures Knows(EmptyAdded(s, addr).active, addr)
  {
    var active := EmptyAdded(s, addr).active;
    assert !Knows(s.active, addr) ==> active[|s.active|].pair.addr == addr;
  }
}
