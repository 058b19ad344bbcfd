/** The per-address statistics reported over D-Bus (src/dbus.rs). */
module ServerMetrics {
  import opened ServerTable

  datatype Row = Row(addr: SockAddr, stats: Stats)

  function Plus(a: Stats, b: Stats): Stats {
    Stats(
      a.queries + b.queries, a.failed + b.failed, a.nxdomain + b.nxdomain, a.retries + b.retries, a.latency + b.latency)
  }

  /** The sums over the first `n` entries that have the address. */
  function Total(servers: seq<Server>, n: nat, addr: SockAddr): Stats
    requires n <= |servers|
  {
    if n == 0 then NO_STATS
    else if servers[n - 1].addr == addr then Plus(Total(servers, n - 1, addr), servers[n - 1].stats)
    else Total(servers, n - 1, addr)
  }

  function Count(servers: seq<Server>, n: nat, addr: SockAddr): nat
    requires n <= |servers|
  {
    if n == 0 then 0 else Count(servers, n - 1, addr) + if servers[n - 1].addr == addr then 1 else 0
  }

  /** The addresses of the first `n` entries, each once, in order of first appearance. */
  function Addresses(servers: seq<Server>, n: nat): seq<SockAddr>
    requires n <= |servers|
  {
    if n == 0 then []
    else
      var before := Addresses(servers, n - 1);
      if servers[n - 1].addr in before then before else before + [servers[n - 1].addr]
  }

  /** What is reported for an address: sums, and the mean latency over its entries, rounded down. */
  function RowFor(servers: seq<Server>, addr: SockAddr): Row {
    var sums, count := Total(servers, |servers|, addr), Count(servers, |servers|, addr);
    Row(addr, sums.(latency := if count > 0 then sums.latency / count else 0))
  }

  predicate Distinct(addrs: seq<SockAddr>) { forall i, j :: 0 <= i < j < |addrs| ==> addrs[i] != addrs[j] }

  lemma {:induction false} AddressesMeaning(servers: seq<Server>, n: nat)
    requires n <= |servers|
    ensures forall j :: 0 <= j < n ==> servers[j].addr in Addresses(servers, n)
    ensures forall a :: a in Addresses(servers, n) ==> exists j :: 0 <= j < n && servers[j].addr == a
    ensures Distinct(Addresses(servers, n))
  {
    if n == 0 {
    } else {
      AddressesMeaning(servers, n - 1);
    }
  }

  lemma {:induction false} AbsentHasNothing(servers: seq<Server>, n: nat, addr: SockAddr)
    requires n <= |servers| && forall j :: 0 <= j < n ==> servers[j].addr != addr
    ensures Total(servers, n, addr) == NO_STATS && Count(servers, n, addr) == 0
  {
    if n == 0 {
    } else {
      AbsentHasNothing(servers, n - 1, addr);
    }
  }

  function RowsFor(servers: seq<Server>, addrs: seq<SockAddr>): seq<Row> {
    seq(|addrs|, k requires 0 <= k < |addrs| => RowFor(servers, addrs[k]))
  }

  lemma RowsForAppend(servers: seq<Server>, addrs: seq<SockAddr>, addr: SockAddr)
    ensures RowsFor(servers, addrs + [addr]) == RowsFor(servers, addrs) + [RowFor(servers, addr)]
  {
  }

  lemma NotSeenBefore(servers: seq<Server>, i: nat)
    requires i < |servers| && servers[i].addr !in Addresses(servers, i)
    ensures forall j :: 0 <= j < i ==> servers[j].addr != servers[i].addr
    ensures Total(servers, i, servers[i].addr) == NO_STATS && Count(servers, i, servers[i].addr) == 0
    ensures Addresses(servers, i + 1) == Addresses(servers, i) + [servers[i].addr]
  {
    AddressesMeaning(servers, i);
    AbsentHasNothing(servers, i, servers[i].addr);
  }

  /** `server_metrics`: one row for each distinct address, in order of first appearance. */
  method ServerMetrics(servers: seq<Server>) returns (rows: seq<Row>)
    ensures rows == RowsFor(servers, Addresses(servers, |servers|))
  {
    var seen := new bool[|servers|](_ => false);
    rows := [];
    for i := 0 to |servers|
      invariant rows == RowsFor(servers, Addresses(servers, i))
      invariant forall j :: 0 <= j < |servers| ==> (seen[j] <==> servers[j].addr in Addresses(servers, i))
    {
      if seen[i] {
        continue;
      }
      var addr := servers[i].addr;
      NotSeenBefore(servers, i);
      RowsForAppend(servers, Addresses(servers, i), addr);
      var sums, count := SumFrom(servers, seen, i, addr, Addresses(servers, i));
      var latency := if count > 0 then sums.latency / count else 0;
      rows := rows + [Row(addr, sums.(latency := latency))];
    }
  }

  /** The inner loop: adds up the entries with the address and ticks them off. */
  method SumFrom(servers: seq<Server>, seen: array<bool>, i: nat, addr: SockAddr, ghost before: seq<SockAddr>)
    returns (sums: Stats, count: nat)
    requires i <= |servers| == seen.Length && addr !in before
    requires Total(servers, i, addr) == NO_STATS && Count(servers, i, addr) == 0
    requires forall j :: 0 <= j < |servers| ==> (seen[j] <==> servers[j].addr in before)
    requires forall j :: 0 <= j < i ==> servers[j].addr != addr
    modifies seen
    ensures sums == Total(servers, |servers|, addr) && count == Count(servers, |servers|, addr)
    ensures forall j :: 0 <= j < |servers| ==> (seen[j] <==> servers[j].addr in before + [addr])
  {
    sums, count := NO_STATS, 0;
    for j := i to |servers|
      invariant sums == Total(servers, j, addr) && count == Count(servers, j, addr)
      invariant forall k :: 0 <= k < j ==> (seen[k] <==> servers[k].addr in before + [addr])
      invariant forall k :: j <= k < |servers| ==> (seen[k] <==> servers[k].addr in before)
    {
      var serv := servers[j];
      if seen[j] || serv.addr != addr {
        continue;
      }
      seen[j] := true;
      sums := Plus(sums, serv.stats);
      count := count + 1;
    }
  }

  /** The row of an address that occurs: its counts add up those of its entries, and its latency is their mean, rounded
      down. */
  lemma RowMeaning(servers: seq<Server>, addr: SockAddr)
    ensures var row, sums := RowFor(servers, addr), Total(servers, |servers|, addr);
            && row.addr == addr && row.stats.(latency := 0) == sums.(latency := 0)
            && var n := |Having(servers, |servers|, addr)|;
               (n > 0 ==> row.stats.latency * n <= sums.latency < (row.stats.latency + 1) * n)
  {
    CountIs(servers, |servers|, addr);
    var sums, n := Total(servers, |servers|, addr), Count(servers, |servers|, addr);
    if n > 0 {
      var mean := sums.latency / n;
      assert mean * n + sums.latency % n == sums.latency;
      assert (mean + 1) * n == mean * n + n;
    }
  }

  /** The positions among the first `n` whose entries have the address. */
  ghost function Having(servers: seq<Server>, n: nat, addr: SockAddr): set<nat>
    requires n <= |servers|
  {
    set i: nat | i < n && servers[i].addr == addr
  }

  lemma {:induction false} CountIs(servers: seq<Server>, n: nat, addr: SockAddr)
    requires n <= |servers|
    ensures Count(servers, n, addr) == |Having(servers, n, addr)|
  {
    if n == 0 {
      assert Having(servers, n, addr) == {};
    } else {
      var m := n - 1;
      CountIs(servers, m, addr);
      HavingStep(servers, m, addr);
    }
  }

  lemma HavingStep(servers: seq<Server>, m: nat, addr: SockAddr)
    requires m < |servers|
    ensures |Having(servers, m + 1, addr)| == |Having(servers, m, addr)| + if servers[m].addr == addr then 1 else 0
  {
    var before := Having(servers, m, addr);
    if servers[m].addr == addr {
      assert Having(servers, m + 1, addr) == before + {m} && m !in before;
    } else {
      assert Having(servers, m + 1, addr) == before;
    }
  }

  // ----- conservation -----

  function TotalOver(servers: seq<Server>, n: nat, addrs: seq<SockAddr>): Stats
    requires n <= |servers|
  {
    if addrs == [] then NO_STATS
    else Plus(TotalOver(servers, n, addrs[..|addrs| - 1]), Total(servers, n, addrs[|addrs| - 1]))
  }

  function GrandTotal(servers: seq<Server>, n: nat): Stats
    requires n <= |servers|
  {
    if n == 0 then NO_STATS else Plus(GrandTotal(servers, n - 1), servers[n - 1].stats)
  }

  lemma {:induction false} OneMoreServer(servers: seq<Server>, n: nat, addrs: seq<SockAddr>)
    requires n < |servers| && Distinct(addrs)
    ensures TotalOver(servers, n + 1, addrs)
         == if servers[n].addr in addrs then Plus(TotalOver(servers, n, addrs), servers[n].stats)
           else TotalOver(servers, n, addrs)
  {
    if addrs == [] {
    } else {
      var rest, last := addrs[..|addrs| - 1], addrs[|addrs| - 1];
      assert addrs == rest + [last];
      OneMoreServer(servers, n, rest);
    }
  }

  lemma TotalOverAppend(servers: seq<Server>, n: nat, addrs: seq<SockAddr>, addr: SockAddr)
    requires n <= |servers|
    ensures TotalOver(servers, n, addrs + [addr]) == Plus(TotalOver(servers, n, addrs), Total(servers, n, addr))
  {
    assert (addrs + [addr])[..|addrs|] == addrs;
  }

  /** What entry `n` adds to the sums over the addresses seen before it. */
  lemma NextServer(servers: seq<Server>, n: nat, before: seq<SockAddr>, after: seq<SockAddr>)
    requires n < |servers| && before == Addresses(servers, n) && after == Addresses(servers, n + 1)
    ensures TotalOver(servers, n + 1, after) == Plus(TotalOver(servers, n, before), servers[n].stats)
  {
    var addr := servers[n].addr;
    AddressesMeaning(servers, n);
    OneMoreServer(servers, n, before);
    if addr !in before {
      AbsentHasNothing(servers, n, addr);
      assert Total(servers, n + 1, addr) == servers[n].stats;
      TotalOverAppend(servers, n + 1, before, addr);
    }
  }

  lemma {:induction false} TotalsAddUp(servers: seq<Server>, n: nat, addrs: seq<SockAddr>)
    requires n <= |servers| && addrs == Addresses(servers, n)
    ensures TotalOver(servers, n, addrs) == GrandTotal(servers, n)
  {
    if n == 0 {
    } else {
      var m := n - 1;
      var before := Addresses(servers, m);
      TotalsAddUp(servers, m, before);
      NextServer(servers, m, before, addrs);
    }
  }

  /** No query, failure, negative answer or retry is lost or counted twice: the rows of the distinct addresses add up to
      the sums over all entries. */
  lemma RowsAddUp(servers: seq<Server>)
    ensures var addrs := Addresses(servers, |servers|);
            && (forall a :: a in addrs <==> exists j :: 0 <= j < |servers| && servers[j].addr == a)
            && Distinct(addrs)
            && TotalOver(servers, |servers|, addrs) == GrandTotal(servers, |servers|)
  {
    AddressesMeaning(servers, |servers|);
    TotalsAddUp(servers, |servers|, Addresses(servers, |servers|));
  }
}
