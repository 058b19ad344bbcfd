/** What the D-Bus calls ask for, in terms of their arguments. */
module DbusRequests {
  import opened Basics
  import opened Names
  import opened Fields
  import opened Servers
  import opened ServerTable
  import opened DbusServers

  /** The bits of an entry from D-Bus. */
  function DbusBits(v4: bool, v6: bool, literal: bool): ServFlags {
    ServFlags(false, literal, false, v4, v6, false, false, true, false, false)
  }

  /** The list entry is for this domain, letter case and leading dots aside, at this address and with these bits. */
  ghost predicate Entry(s: Server, flags: ServFlags, domain: string, addr: SockAddr) {
    && s.flags == flags && s.addr == addr && SameName(s.domain, TrimDots(domain))
    && s.source == V4([0, 0, 0, 0], 0) && s.iface == ""
  }

  // ----- SetServers -----

  /** The positions from `i` on that ask for an entry: domains, and addresses that no domain follows. */
  function Positions(args: seq<ServerArg>, i: nat): (ps: seq<nat>)
    requires i <= |args|
    ensures forall n :: 0 <= n < |ps| ==> i <= ps[n] < |args|
    decreases |args| - i
  {
    if i == |args| then []
    else (if args[i].Domain? || i + 1 == |args| || !args[i + 1].Domain? then [i] else []) + Positions(args, i + 1)
  }

  /** The nearest address at or before `i`. */
  function Nearest(args: seq<ServerArg>, i: nat): (k: nat)
    requires i < |args| && !args[0].Domain?
    ensures k <= i && !args[k].Domain? && forall j :: k < j <= i ==> args[j].Domain?
  {
    if args[i].Domain? then Nearest(args, i - 1) else i
  }

  /** What the argument at `i` asks for. */
  function Asked(args: seq<ServerArg>, i: nat): Push
    requires i < |args| && !args[0].Domain?
  {
    var a := args[Nearest(args, i)];
    Push(DbusBits(a.Addr4?, a.Addr6?, false), if args[i].Domain? then args[i].name else "",
      if a.Addr4? then V4(a.octets, 53) else V6(a.octets, 53))
  }

  function AskedAll(args: seq<ServerArg>, ps: seq<nat>): seq<Push>
    requires (args != [] ==> !args[0].Domain?) && forall n :: 0 <= n < |ps| ==> ps[n] < |args|
  {
    seq(|ps|, n requires 0 <= n < |ps| => Asked(args, ps[n]))
  }

  lemma NearestIs(args: seq<ServerArg>, k: nat, i: nat)
    requires k <= i < |args| && !args[0].Domain? && !args[k].Domain? && forall j :: k < j <= i ==> args[j].Domain?
    ensures Nearest(args, i) == k
  {
  }

  /** A run of domains asks for one entry each. */
  lemma {:induction false} RunPositions(args: seq<ServerArg>, i: nat, next: nat)
    requires i <= next <= |args| && forall j :: i <= j < next ==> args[j].Domain?
    ensures Positions(args, i) == seq(next - i, n => i + n) + Positions(args, next)
    decreases next - i
  {
    if i == next {
      assert seq(0, n => i + n) == [];
    } else {
      RunPositions(args, i + 1, next);
      assert seq(next - i, n => i + n) == [i] + seq(next - i - 1, n => i + 1 + n);
    }
  }

  /** The positions of one block that ask for an entry. */
  function BlockPositions(i: nat, next: nat): seq<nat>
    requires i < next
  {
    if next == i + 1 then [i] else seq(next - i - 1, n => i + 1 + n)
  }

  lemma BlockSplits(args: seq<ServerArg>, i: nat, next: nat)
    requires i < next <= |args| && !args[i].Domain?
    requires (forall j :: i < j < next ==> args[j].Domain?) && (next < |args| ==> !args[next].Domain?)
    ensures Positions(args, i) == BlockPositions(i, next) + Positions(args, next)
  {
    if next > i + 1 {
      RunPositions(args, i + 1, next);
    }
  }

  lemma AskedInBlock(args: seq<ServerArg>, i: nat, next: nat, n: nat)
    requires i < next <= |args| && !args[0].Domain? && !args[i].Domain? && forall j :: i < j < next ==> args[j].Domain?
    requires n < |BlockPositions(i, next)|
    ensures var ds := Domains(AddressFlags(AddressOf(args[i])), DomainNames(args[i + 1..next]), AddressOf(args[i]));
            |ds| == |BlockPositions(i, next)| && Asked(args, BlockPositions(i, next)[n]) == ds[n]
  {
    NearestIs(args, i, BlockPositions(i, next)[n]);
  }

  lemma AskedConcat(args: seq<ServerArg>, ps: seq<nat>, qs: seq<nat>)
    requires (args != [] ==> !args[0].Domain?) && forall n :: 0 <= n < |ps + qs| ==> (ps + qs)[n] < |args|
    ensures (forall n :: 0 <= n < |ps| ==> ps[n] < |args|) && (forall n :: 0 <= n < |qs| ==> qs[n] < |args|)
    ensures AskedAll(args, ps + qs) == AskedAll(args, ps) + AskedAll(args, qs)
  {
    assert forall n :: 0 <= n < |ps| ==> ps[n] == (ps + qs)[n];
    assert forall n :: 0 <= n < |qs| ==> qs[n] == (ps + qs)[|ps| + n];
  }

  /** The domains of one address are asked for at its block's positions. */
  lemma BlockAsked(args: seq<ServerArg>, i: nat, next: nat)
    requires i < next <= |args| && !args[0].Domain? && !args[i].Domain?
    requires (forall j :: i < j < next ==> args[j].Domain?) && (next < |args| ==> !args[next].Domain?)
    ensures AskedAll(args, Positions(args, i))
         == Domains(AddressFlags(AddressOf(args[i])), DomainNames(args[i + 1..next]), AddressOf(args[i]))
            + AskedAll(args, Positions(args, next))
  {
    var here := BlockPositions(i, next);
    var ds := Domains(AddressFlags(AddressOf(args[i])), DomainNames(args[i + 1..next]), AddressOf(args[i]));
    BlockSplits(args, i, next);
    AskedConcat(args, here, Positions(args, next));
    AskedInBlock(args, i, next, 0);
    assert AskedAll(args, here) == ds by {
      forall n | 0 <= n < |here|
        ensures Asked(args, here[n]) == ds[n]
      {
        AskedInBlock(args, i, next, n);
      }
    }
  }

  lemma {:induction false} SetServersAsks(args: seq<ServerArg>, i: nat)
    requires args != [] ==> !args[0].Domain?
    requires i <= |args| && (i < |args| ==> !args[i].Domain?)
    ensures PlanSetServers(args[i..]) == Plan(AskedAll(args, Positions(args, i)), true)
    decreases |args| - i
  {
    if i == |args| {
      assert args[i..] == [];
    } else {
      var next := i + 1 + DomainRun(args[i + 1..]);
      assert forall j :: i + 1 <= j < next ==> args[j] == args[i + 1..][j - i - 1];
      assert next < |args| ==> args[next] == args[i + 1..][next - i - 1];
      PlanStep(args, i, next);
      SetServersAsks(args, next);
      BlockAsked(args, i, next);
    }
  }

  lemma ServesIsEntry(s: Server, p: Push)
    requires Serves(s, p)
    ensures Entry(s, p.flags, p.domain, p.addr)
  {
  }

  /** `SetServers` succeeds if and only if it does not begin with a domain. */
  lemma SetServersOkIff(args: seq<ServerArg>, parse: string -> Option<SockAddr>)
    ensures PlanOf(SetServers(args), parse).ok <==> args == [] || !args[0].Domain?
  {
    if args == [] || !args[0].Domain? {
      SetServersAsks(args, 0);
      assert args[0..] == args;
    }
  }

  /** Then the list holds the foreign entries and behind them, in order, one entry for each domain argument, with the
      nearest preceding address, and a catch-all for each address that no domain follows, all at port 53 and with the
      bit of the address's family. */
  lemma SetServersReplaces(servers: seq<Server>, args: seq<ServerArg>, parse: string -> Option<SockAddr>)
    returns (news: seq<Server>)
    requires args == [] || !args[0].Domain?
    ensures Applied(servers, PlanOf(SetServers(args), parse)) == Others(servers) + news
    ensures |news| == |Positions(args, 0)|
    ensures forall n :: 0 <= n < |news| ==>
              var i := Positions(args, 0)[n];
              var a := args[Nearest(args, i)];
              Entry(news[n], DbusBits(a.Addr4?, a.Addr6?, false), if args[i].Domain? then args[i].name else "",
                if a.Addr4? then V4(a.octets, 53) else V6(a.octets, 53))
  {
    SetServersAsks(args, 0);
    assert args[0..] == args;
    news := SuccessReplaces(servers, SetServers(args), parse);
    var ps := Positions(args, 0);
    forall n | 0 <= n < |ps|
      ensures Entry(news[n], Asked(args, ps[n]).flags, Asked(args, ps[n]).domain, Asked(args, ps[n]).addr)
    {
      assert AskedAll(args, ps)[n] == Asked(args, ps[n]);
      ServesIsEntry(news[n], Asked(args, ps[n]));
    }
  }

  // ----- SetServersEx and SetDomainServers -----

  /** What one list or one string asks for: entries for these domains, or a catch-all if there are none. */
  datatype Line = Line(flags: ServFlags, domains: seq<string>, addr: SockAddr)

  /** The entries asked for from line `i` on, each as its line and the place of its domain there. */
  function Slots(lines: seq<Line>, i: nat): (r: seq<(nat, nat)>)
    requires i <= |lines|
    ensures forall n :: 0 <= n < |r| ==>
              i <= r[n].0 < |lines| && (r[n].1 < |lines[r[n].0].domains| || lines[r[n].0].domains == [])
    decreases |lines| - i
  {
    if i == |lines| then []
    else
      var ds := lines[i].domains;
      (if ds == [] then [(i, 0)] else seq(|ds|, j requires 0 <= j < |ds| => (i, j))) + Slots(lines, i + 1)
  }

  function SlotPush(lines: seq<Line>, slot: (nat, nat)): Push
    requires slot.0 < |lines| && (slot.1 < |lines[slot.0].domains| || lines[slot.0].domains == [])
  {
    var line := lines[slot.0];
    Push(line.flags, if line.domains == [] then "" else line.domains[slot.1], line.addr)
  }

  function SlotPushes(lines: seq<Line>, i: nat): seq<Push>
    requires i <= |lines|
  {
    var slots := Slots(lines, i);
    seq(|slots|, n requires 0 <= n < |slots| => SlotPush(lines, slots[n]))
  }

  lemma SlotStep(lines: seq<Line>, i: nat)
    requires i < |lines|
    ensures SlotPushes(lines, i)
         == Domains(lines[i].flags, lines[i].domains, lines[i].addr) + SlotPushes(lines, i + 1)
  {
  }

  lemma {:induction false} PlanOfLines(parts: seq<Option<seq<Push>>>, lines: seq<Line>, i: nat)
    requires |parts| == |lines| && i <= |lines|
    requires forall n :: 0 <= n < |lines| ==>
               parts[n] == Some(Domains(lines[n].flags, lines[n].domains, lines[n].addr))
    ensures PlanAll(parts[i..]) == Plan(SlotPushes(lines, i), true)
    decreases |lines| - i
  {
    if i == |lines| {
      assert parts[i..] == [];
    } else {
      assert parts[i..][0] == parts[i] && parts[i..][1..] == parts[i + 1..];
      PlanOfLines(parts, lines, i + 1);
      SlotStep(lines, i);
    }
  }

  /** The entries are, in order, what the lines ask for. */
  ghost predicate Listed(news: seq<Server>, lines: seq<Line>) {
    var slots := Slots(lines, 0);
    && |news| == |slots|
    && forall n :: 0 <= n < |news| ==>
         var line := lines[slots[n].0];
         Entry(news[n], line.flags, if line.domains == [] then "" else line.domains[slots[n].1], line.addr)
  }

  lemma ServedAreListed(news: seq<Server>, lines: seq<Line>)
    requires Served(news, SlotPushes(lines, 0))
    ensures Listed(news, lines)
  {
    var slots := Slots(lines, 0);
    forall n | 0 <= n < |news|
      ensures var line := lines[slots[n].0];
              Entry(news[n], line.flags, if line.domains == [] then "" else line.domains[slots[n].1], line.addr)
    {
      assert SlotPushes(lines, 0)[n] == SlotPush(lines, slots[n]);
      ServesIsEntry(news[n], SlotPush(lines, slots[n]));
    }
  }

  /** A line is read from a list of `SetServersEx`: its first string is the address, the others are the domains, and the
      IPv4 address 0.0.0.0 makes its entries literal. */
  ghost predicate ExLine(list: seq<string>, line: Line, parse: string -> Option<SockAddr>) {
    && list != [] && list[0] != "" && parse(list[0]) == Some(line.addr) && line.domains == list[1..]
    && line.flags == DbusBits(line.addr.V4?, line.addr.V6?, line.addr.V4? && line.addr.ip == [0, 0, 0, 0])
  }

  /** After a successful `SetServersEx` the list holds the foreign entries and behind them, list by list, one entry for
      each domain or a catch-all. */
  lemma SetServersExReplaces(
    servers: seq<Server>, lists: seq<seq<string>>, lines: seq<Line>, parse: string -> Option<SockAddr>)
    returns (news: seq<Server>)
    requires |lists| == |lines| && forall i :: 0 <= i < |lists| ==> ExLine(lists[i], lines[i], parse)
    ensures PlanOf(SetServersEx(lists), parse).ok
    ensures Applied(servers, PlanOf(SetServersEx(lists), parse)) == Others(servers) + news && Listed(news, lines)
  {
    var parts := ReadAll(lists, ExReader(parse));
    forall i | 0 <= i < |lines|
      ensures parts[i] == Some(Domains(lines[i].flags, lines[i].domains, lines[i].addr))
    {
      assert ExLine(lists[i], lines[i], parse);
    }
    PlanOfLines(parts, lines, 0);
    assert parts[0..] == parts;
    news := SuccessReplaces(servers, SetServersEx(lists), parse);
    ServedAreListed(news, lines);
  }

  lemma {:induction false} PlanAllOkIff(parts: seq<Option<seq<Push>>>)
    ensures PlanAll(parts).ok <==> forall i :: 0 <= i < |parts| ==> parts[i].Some?
  {
    if parts == [] {
    } else {
      PlanAllOkIff(parts[1..]);
      assert forall i :: 0 < i < |parts| ==> parts[i] == parts[1..][i - 1];
      assert forall i :: 0 <= i < |parts[1..]| ==> parts[1..][i] == parts[i + 1];
    }
  }

  /** `SetServersEx` succeeds if and only if every list begins with an address. */
  lemma SetServersExOkIff(lists: seq<seq<string>>, parse: string -> Option<SockAddr>)
    ensures PlanOf(SetServersEx(lists), parse).ok <==>
            forall i :: 0 <= i < |lists| ==> lists[i] != [] && lists[i][0] != "" && parse(lists[i][0]).Some?
  {
    var parts := ReadAll(lists, ExReader(parse));
    PlanAllOkIff(parts);
    assert forall i :: 0 <= i < |lists| ==> parts[i] == ExEntry(lists[i], parse);
  }

  /** A line is written as a string of `SetDomainServers`: domains without slashes and an address without one; no
      address means that the domains are answered locally. */
  ghost predicate StringLine(entry: string, address: string, line: Line, parse: string -> Option<SockAddr>) {
    && entry == Written(line.domains, address) && (line.domains != [] || address != "")
    && "" !in line.domains && Free(line.domains, '/') && '/' !in address
    && if address == "" then line.flags == DbusBits(false, false, true) && line.addr == V4([0, 0, 0, 0], 0)
       else parse(address) == Some(line.addr) && line.flags == DbusBits(line.addr.V4?, line.addr.V6?, false)
  }

  /** After a successful `SetDomainServers` the list holds the foreign entries and behind them, string by string, one
      entry for each domain or a catch-all. */
  lemma SetDomainServersReplaces(
    servers: seq<Server>, strings: seq<string>, addresses: seq<string>, lines: seq<Line>,
    parse: string -> Option<SockAddr>)
    returns (news: seq<Server>)
    requires |strings| == |addresses| == |lines|
    requires forall i :: 0 <= i < |lines| ==> StringLine(strings[i], addresses[i], lines[i], parse)
    ensures PlanOf(SetDomainServers(strings), parse).ok
    ensures Applied(servers, PlanOf(SetDomainServers(strings), parse)) == Others(servers) + news && Listed(news, lines)
  {
    var parts := ReadAll(strings, DomainReader(parse));
    forall i | 0 <= i < |lines|
      ensures parts[i] == Some(Domains(lines[i].flags, lines[i].domains, lines[i].addr))
    {
      assert StringLine(strings[i], addresses[i], lines[i], parse);
      EntryReadsBack(lines[i].domains, addresses[i], parse);
    }
    PlanOfLines(parts, lines, 0);
    assert parts[0..] == parts;
    news := SuccessReplaces(servers, SetDomainServers(strings), parse);
    ServedAreListed(news, lines);
  }

  /** The string has its slashes in place, and its address, if it has one, can be read. */
  ghost predicate Readable(entry: string, parse: string -> Option<SockAddr>) {
    && entry != "" && ('/' in entry ==> entry[0] == '/' && '/' in entry[1..])
    && SplitEntry(entry).Some?
    && (SplitEntry(entry).value.1 == "" || parse(SplitEntry(entry).value.1).Some?)
  }

  lemma EntryOkIff(entry: string, parse: string -> Option<SockAddr>)
    ensures DomainEntry(entry, parse).Some? <==> Readable(entry, parse)
  {
    AcceptedIff(entry);
  }

  /** `SetDomainServers` succeeds if and only if every string is readable. */
  lemma SetDomainServersOkIff(strings: seq<string>, parse: string -> Option<SockAddr>)
    ensures PlanOf(SetDomainServers(strings), parse).ok <==>
            forall i :: 0 <= i < |strings| ==> Readable(strings[i], parse)
  {
    var parts := ReadAll(strings, DomainReader(parse));
    PlanAllOkIff(parts);
    forall i | 0 <= i < |strings|
      ensures parts[i].Some? <==> Readable(strings[i], parse)
    {
      EntryOkIff(strings[i], parse);
    }
  }
}
