/** Replacing the D-Bus servers: mark, reuse, sweep (src/dbus.rs, src/domain_match.rs). */
module DbusServers {
  import opened Basics
  import opened Names
  import opened Fields
  import opened Servers
  import opened ServerTable

  // ----- mark, add or reuse, sweep -----

  function Marked(s: Server): Server { s.(flags := s.flags.(mark := s.flags.fromDbus)) }

  /** `mark_servers` for `SERV_FROM_DBUS`. */
  function MarkAll(servers: seq<Server>): seq<Server> {
    seq(|servers|, i requires 0 <= i < |servers| => Marked(servers[i]))
  }

  /** `cleanup_servers`. */
  function Sweep(servers: seq<Server>): seq<Server> {
    if servers == [] then []
    else (if servers[0].flags.mark then [] else [servers[0]]) + Sweep(servers[1..])
  }

  /** The domain without its leading dots. */
  function TrimDots(d: string): (r: string)
    ensures r != "" ==> r[0] != '.'
  {
    if d != "" && d[0] == '.' then TrimDots(d[1..]) else d
  }

  predicate Reusable(x: Server, domain: string) {
    x.flags.mark && SameName(x.domain, domain)
  }

  /** The first marked entry for the domain, or the length of the list. */
  function FindReusable(servers: seq<Server>, domain: string): (k: nat)
    ensures k <= |servers|
    ensures k < |servers| ==> Reusable(servers[k], domain)
  {
    if servers == [] || Reusable(servers[0], domain) then 0 else 1 + FindReusable(servers[1..], domain)
  }

  function TakenOver(x: Server, s: Server): Server {
    x.(flags := s.flags.(mark := false), addr := s.addr, source := s.source, iface := s.iface)
  }

  function MovedToEnd(servers: seq<Server>, k: nat, s: Server): seq<Server>
    requires k < |servers|
  {
    servers[..k] + servers[k + 1..] + [TakenOver(servers[k], s)]
  }

  /** `add_update_server`: an upstream entry takes over a marked entry for the same domain, keeping that entry's
      spelling of the domain and its statistics; either way the entry ends up last. */
  function AddUpdate(servers: seq<Server>, s: Server): seq<Server> {
    var k := FindReusable(servers, TrimDots(s.domain));
    if !s.flags.IsLocal() && k < |servers| then MovedToEnd(servers, k, s)
    else servers + [s.(domain := TrimDots(s.domain))]
  }

  /** Only leading dots are dropped. */
  lemma {:induction false} TrimDotsMeaning(d: string)
    ensures var r := TrimDots(d); |r| <= |d| && d[|d| - |r|..] == r && forall i :: 0 <= i < |d| - |r| ==> d[i] == '.'
  {
    if d != "" && d[0] == '.' {
      TrimDotsMeaning(d[1..]);
      var r := TrimDots(d);
      assert d[|d| - |r|..] == d[1..][|d| - 1 - |r|..];
      assert forall i :: 0 < i < |d| - |r| ==> d[i] == d[1..][i - 1];
    }
  }

  lemma {:induction false} FirstReusable(servers: seq<Server>, domain: string, k: nat)
    requires k <= |servers| && (forall i :: 0 <= i < k ==> !Reusable(servers[i], domain))
    requires k < |servers| ==> Reusable(servers[k], domain)
    ensures FindReusable(servers, domain) == k
    decreases k
  {
    if k == 0 {
    } else {
      FirstReusable(servers[1..], domain, k - 1);
    }
  }

  /** An upstream entry whose domain a marked entry has takes the place of the first such entry at the end of the list:
      that entry's domain and statistics stay, everything else is new. Any other entry is added as it is. */
  lemma AddUpdateMeaning(servers: seq<Server>, s: Server, k: nat)
    requires k <= |servers|
    requires forall i :: 0 <= i < k ==> !(servers[i].flags.mark && SameName(servers[i].domain, TrimDots(s.domain)))
    requires k < |servers| ==> servers[k].flags.mark && SameName(servers[k].domain, TrimDots(s.domain))
    ensures AddUpdate(servers, s)
         == if k == |servers| || s.flags.useResolv || s.flags.literal
            then servers + [Server(s.flags, TrimDots(s.domain), s.addr, s.source, s.iface, s.stats)]
            else servers[..k] + servers[k + 1..]
                 + [Server(s.flags.(mark := false), servers[k].domain, s.addr, s.source, s.iface, servers[k].stats)]
  {
    FirstReusable(servers, TrimDots(s.domain), k);
  }

  // ----- requests -----

  /** One server entry that a request asks for. */
  datatype Push = Push(flags: ServFlags, domain: string, addr: SockAddr)

  const UNSPECIFIED := V4([0, 0, 0, 0], 0)

  function NewServer(p: Push): Server {
    Server(p.flags, p.domain, p.addr, UNSPECIFIED, "", NO_STATS)
  }

  function AddAll(servers: seq<Server>, ps: seq<Push>): seq<Server> {
    if ps == [] then servers
    else AddUpdate(AddAll(servers, ps[..|ps| - 1]), NewServer(ps[|ps| - 1]))
  }

  /** The entries a call gets to add before it succeeds or fails. */
  datatype Plan = Plan(pushes: seq<Push>, ok: bool)

  /** All entries to add are from D-Bus and not marked. */
  ghost predicate DbusPushes(ps: seq<Push>) {
    forall i :: 0 <= i < |ps| ==> ps[i].flags.fromDbus && !ps[i].flags.mark
  }

  function Domains(flags: ServFlags, domains: seq<string>, addr: SockAddr): (ps: seq<Push>)
    ensures flags.fromDbus && !flags.mark ==> DbusPushes(ps)
  {
    if domains == [] then [Push(flags, "", addr)]
    else seq(|domains|, i requires 0 <= i < |domains| => Push(flags, domains[i], addr))
  }

  datatype ServerArg = Addr4(octets: seq<int>) | Addr6(octets: seq<int>) | Domain(name: string)

  function AddressFlags(a: SockAddr): ServFlags {
    NO_FLAGS.(addr4 := a.V4?, addr6 := a.V6?, fromDbus := true)
  }

  function DomainRun(args: seq<ServerArg>): (k: nat)
    ensures k <= |args|
    ensures forall i :: 0 <= i < k ==> args[i].Domain?
    ensures k < |args| ==> !args[k].Domain?
  {
    if args != [] && args[0].Domain? then 1 + DomainRun(args[1..]) else 0
  }

  function DomainNames(args: seq<ServerArg>): seq<string>
    requires forall i :: 0 <= i < |args| ==> args[i].Domain?
  {
    seq(|args|, i requires 0 <= i < |args| => args[i].name)
  }

  /** An argument and the domains that follow it. */
  function BlockLength(args: seq<ServerArg>): (k: nat)
    requires args != []
    ensures 1 <= k <= |args|
  {
    1 + DomainRun(args[1..])
  }

  function BlockDomains(args: seq<ServerArg>): seq<string>
    requires args != []
  {
    DomainNames(args[1..][..DomainRun(args[1..])])
  }

  function AddressOf(arg: ServerArg): SockAddr
    requires !arg.Domain?
  {
    if arg.Addr4? then V4(arg.octets, 53) else V6(arg.octets, 53)
  }

  function PlanAddress(arg: ServerArg, domains: seq<string>, rest: Plan): (plan: Plan)
    requires !arg.Domain?
    ensures DbusPushes(rest.pushes) ==> DbusPushes(plan.pushes)
  {
    Plan(Domains(AddressFlags(AddressOf(arg)), domains, AddressOf(arg)) + rest.pushes, rest.ok)
  }

  /** `SetServers`: addresses, each followed by the domains it serves. */
  function PlanSetServers(args: seq<ServerArg>): (plan: Plan)
    ensures DbusPushes(plan.pushes)
    decreases |args|
  {
    if args == [] then Plan([], true)
    else if args[0].Domain? then Plan([], false)
    else
      PlanAddress(args[0], BlockDomains(args), PlanSetServers(args[BlockLength(args)..]))
  }

  /** One entry of `SetServersEx`: an address, then its domains. The address 0.0.0.0 means "answer locally". */
  function ExEntry(entry: seq<string>, parse: string -> Option<SockAddr>): (r: Option<seq<Push>>)
    ensures r.Some? ==> DbusPushes(r.value)
  {
    if entry == [] || entry[0] == "" then None
    else match parse(entry[0])
      case None => None
      case Some(addr) =>
        var flags := AddressFlags(addr).(literal := addr.V4? && addr.ip == [0, 0, 0, 0]);
        Some(Domains(flags, entry[1..], addr))
  }

  /** The position of the last slash before `n`, or -1. */
  function LastSlashBefore(s: string, n: nat): (k: int)
    requires n <= |s|
    ensures -1 <= k < n
    ensures k >= 0 ==> s[k] == '/'
    ensures forall i :: k < i < n ==> s[i] != '/'
  {
    if n == 0 then -1 else if s[n - 1] == '/' then n - 1 else LastSlashBefore(s, n - 1)
  }

  function LastSlash(s: string): int { LastSlashBefore(s, |s|) }

  /** The non-empty pieces between slashes, behind a piece already begun. */
  function Pieces(s: string, piece: string): seq<string>
    decreases |s|
  {
    if s == "" then if piece == "" then [] else [piece]
    else if s[0] == '/' then (if piece == "" then [] else [piece]) + Pieces(s[1..], "")
    else Pieces(s[1..], piece + [s[0]])
  }

  lemma NonEmptyCons(f: string, fields: seq<string>)
    ensures NonEmpty([f] + fields) == (if f == "" then [] else [f]) + NonEmpty(fields)
  {
    assert ([f] + fields)[1..] == fields;
  }

  /** The pieces are the fields between slashes that are not empty. */
  lemma {:induction false} PiecesAreFields(s: string, piece: string)
    ensures Pieces(s, piece) == NonEmpty([piece + Split(s, '/')[0]] + Split(s, '/')[1..])
    decreases |s|
  {
    var fields := Split(s, '/');
    if s == "" {
      assert fields == [""] && fields[1..] == [] && piece + "" == piece;
      NonEmptyCons(piece, []);
    } else {
      var rest := Split(s[1..], '/');
      if s[0] == '/' {
        assert fields[1..] == rest && piece + "" == piece;
        PiecesAreFields(s[1..], "");
        assert "" + rest[0] == rest[0] && [rest[0]] + rest[1..] == rest;
        NonEmptyCons(piece, rest);
      } else {
        PiecesAreFields(s[1..], piece + [s[0]]);
        assert fields[1..] == rest[1..] && piece + [s[0]] + rest[0] == piece + ([s[0]] + rest[0]);
      }
    }
  }

  lemma PiecesOf(s: string)
    ensures Pieces(s, "") == NonEmpty(Split(s, '/'))
  {
    PiecesAreFields(s, "");
    var fields := Split(s, '/');
    assert "" + fields[0] == fields[0] && [fields[0]] + fields[1..] == fields;
  }

  /** The domains and the address part of a `SetDomainServers` entry: `address`, `/domain/.../address`, or
      `/domain/.../`. */
  function SplitEntry(entry: string): Option<(seq<string>, string)> {
    var idx := LastSlash(entry);
    if entry == "" || (idx >= 0 && (entry[0] != '/' || idx == 0)) then None
    else Some((if idx >= 0 then Pieces(entry[1..idx], "") else [], entry[idx + 1..]))
  }

  /** An entry written out: fields and address, each behind a slash. */
  function Slashed(fields: seq<string>, address: string): string
    requires fields != []
  {
    "/" + Join(fields, '/') + "/" + address
  }

  /** How a caller writes domains and an address into one entry. */
  function Written(domains: seq<string>, address: string): string {
    if domains == [] then address else Slashed(domains, address)
  }

  lemma LastSlashIs(s: string, k: int)
    requires -1 <= k < |s| && (k >= 0 ==> s[k] == '/') && forall i :: k < i < |s| ==> s[i] != '/'
    ensures LastSlash(s) == k
  {
  }

  lemma SlashedParts(fields: seq<string>, address: string)
    requires fields != [] && '/' !in address
    ensures var entry, idx := Slashed(fields, address), |Join(fields, '/')| + 1;
            LastSlash(entry) == idx && entry[1..idx] == Join(fields, '/') && entry[idx + 1..] == address
  {
    var entry, idx := Slashed(fields, address), |Join(fields, '/')| + 1;
    assert entry[idx] == '/' && entry[1..idx] == Join(fields, '/') && entry[idx + 1..] == address;
    forall i | idx < i < |entry|
      ensures entry[i] != '/'
    {
      assert entry[i] == address[i - idx - 1];
    }
    LastSlashIs(entry, idx);
  }

  lemma SplitSlashed(fields: seq<string>, address: string)
    requires fields != [] && Free(fields, '/') && '/' !in address
    ensures SplitEntry(Slashed(fields, address)) == Some((NonEmpty(fields), address))
  {
    SlashedParts(fields, address);
    SplitJoin(fields, '/');
    PiecesOf(Join(fields, '/'));
  }

  lemma CutAtSlashes(entry: string, idx: nat)
    requires 0 < idx < |entry| && entry[0] == '/' && entry[idx] == '/'
    ensures entry == "/" + entry[1..idx] + "/" + entry[idx + 1..]
  {
  }

  /** Conversely, an entry with slashes that is accepted consists of slash-free fields and a slash-free address, and is
      read as the fields that are not empty and that address. */
  lemma EntryFields(entry: string, domains: seq<string>, address: string) returns (fields: seq<string>)
    requires SplitEntry(entry) == Some((domains, address)) && '/' in entry
    ensures fields != [] && Free(fields, '/') && '/' !in address
    ensures entry == Slashed(fields, address) && domains == NonEmpty(fields)
  {
    var idx := LastSlash(entry);
    CutAtSlashes(entry, idx);
    fields := Split(entry[1..idx], '/');
    JoinSplit(entry[1..idx], '/');
    PiecesOf(entry[1..idx]);
  }

  /** An entry is rejected exactly when it is empty or has slashes but not two of them, the first in front. */
  lemma AcceptedIff(entry: string)
    ensures SplitEntry(entry).Some? <==> entry != "" && ('/' in entry ==> entry[0] == '/' && '/' in entry[1..])
  {
    var idx := LastSlash(entry);
    assert idx > 0 ==> entry[1..][idx - 1] == '/';
  }

  /** Domains and an address written into one entry are read back as they were. */
  lemma EntryReadsBack(domains: seq<string>, address: string, parse: string -> Option<SockAddr>)
    requires "" !in domains && Free(domains, '/') && '/' !in address && (domains != [] || address != "")
    ensures DomainEntry(Written(domains, address), parse) == Located(domains, address, parse)
  {
    if domains == [] {
      LastSlashIs(address, -1);
    } else {
      SplitSlashed(domains, address);
      NonEmptyKeeps(domains);
    }
  }

  /** An empty address means "answer locally". */
  function Located(domains: seq<string>, address: string, parse: string -> Option<SockAddr>): (r: Option<seq<Push>>)
    ensures r.Some? ==> DbusPushes(r.value)
  {
    if address == "" then Some(Domains(NO_FLAGS.(literal := true, fromDbus := true), domains, UNSPECIFIED))
    else match parse(address)
      case None => None
      case Some(addr) => Some(Domains(AddressFlags(addr), domains, addr))
  }

  function DomainEntry(entry: string, parse: string -> Option<SockAddr>): (r: Option<seq<Push>>)
    ensures r.Some? ==> DbusPushes(r.value)
  {
    match SplitEntry(entry)
    case None => None
    case Some((domains, address)) => Located(domains, address, parse)
  }

  /** A bad entry ends the call; otherwise the rest follows. */
  function PlanThen(first: Option<seq<Push>>, rest: Plan): Plan {
    if first.None? then Plan([], false) else Plan(first.value + rest.pushes, rest.ok)
  }

  function PlanAll(parts: seq<Option<seq<Push>>>): (plan: Plan)
    ensures (forall i :: 0 <= i < |parts| && parts[i].Some? ==> DbusPushes(parts[i].value)) ==> DbusPushes(plan.pushes)
  {
    if parts == [] then Plan([], true) else PlanThen(parts[0], PlanAll(parts[1..]))
  }

  /** Every entry, read by `read`. */
  function ReadAll<T>(entries: seq<T>, read: T -> Option<seq<Push>>): (parts: seq<Option<seq<Push>>>)
    ensures |parts| == |entries| && forall i :: 0 <= i < |parts| ==> parts[i] == read(entries[i])
  {
    seq(|entries|, i requires 0 <= i < |entries| => read(entries[i]))
  }

  function ExReader(parse: string -> Option<SockAddr>): seq<string> -> Option<seq<Push>> {
    (entry: seq<string>) => ExEntry(entry, parse)
  }

  function DomainReader(parse: string -> Option<SockAddr>): string -> Option<seq<Push>> {
    (entry: string) => DomainEntry(entry, parse)
  }

  function PlanEx(entries: seq<seq<string>>, parse: string -> Option<SockAddr>): (plan: Plan)
    ensures DbusPushes(plan.pushes)
  {
    PlanAll(ReadAll(entries, ExReader(parse)))
  }

  function PlanDomain(entries: seq<string>, parse: string -> Option<SockAddr>): (plan: Plan)
    ensures DbusPushes(plan.pushes)
  {
    PlanAll(ReadAll(entries, DomainReader(parse)))
  }

  datatype Call =
    | SetServers(args: seq<ServerArg>)
    | SetServersEx(lists: seq<seq<string>>)
    | SetDomainServers(strings: seq<string>)

  /** What a call adds, all of it from D-Bus. */
  function PlanOf(call: Call, parse: string -> Option<SockAddr>): (plan: Plan)
    ensures DbusPushes(plan.pushes)
  {
    match call
    case SetServers(args) => PlanSetServers(args)
    case SetServersEx(lists) => PlanEx(lists, parse)
    case SetDomainServers(strings) => PlanDomain(strings, parse)
  }

  /** Adding what is planned and, when the plan goes through, sweeping. */
  function Finish(servers: seq<Server>, plan: Plan): seq<Server> {
    var added := AddAll(servers, plan.pushes);
    if plan.ok then Sweep(added) else added
  }

  /** What a call does to the list: mark, add, and, when it succeeds, sweep. */
  function Applied(servers: seq<Server>, plan: Plan): seq<Server> {
    Finish(MarkAll(servers), plan)
  }

  // ----- the calls as the daemon runs them -----

  lemma {:induction false} AddAllAppend(servers: seq<Server>, ps: seq<Push>, qs: seq<Push>)
    ensures AddAll(servers, ps + qs) == AddAll(AddAll(servers, ps), qs)
    decreases |qs|
  {
    if qs == [] {
      assert ps + qs == ps;
    } else {
      assert (ps + qs)[..|ps + qs| - 1] == ps + qs[..|qs| - 1];
      AddAllAppend(servers, ps, qs[..|qs| - 1]);
    }
  }

  lemma FinishStep(servers: seq<Server>, ps: seq<Push>, rest: Plan)
    ensures Finish(servers, Plan(ps + rest.pushes, rest.ok)) == Finish(AddAll(servers, ps), rest)
  {
    AddAllAppend(servers, ps, rest.pushes);
  }

  /** The run of domain arguments that follows an address. */
  method TakeDomains(args: seq<ServerArg>, first: nat) returns (domains: seq<string>, i: nat)
    requires first <= |args|
    ensures i == first + DomainRun(args[first..]) && i <= |args|
    ensures forall j :: first <= j < i ==> args[j].Domain?
    ensures domains == DomainNames(args[first..i])
  {
    domains, i := [], first;
    while i < |args| && args[i].Domain?
      invariant first <= i <= |args|
      invariant forall j :: first <= j < i ==> args[j].Domain?
      invariant domains == DomainNames(args[first..i])
    {
      assert args[first..i + 1] == args[first..i] + [args[i]];
      domains := domains + [args[i].name];
      i := i + 1;
    }
    RunLength(args[first..], i - first);
  }

  lemma {:induction false} RunLength(args: seq<ServerArg>, k: nat)
    requires k <= |args|
    requires forall i :: 0 <= i < k ==> args[i].Domain?
    requires k < |args| ==> !args[k].Domain?
    ensures DomainRun(args) == k
    decreases k
  {
    if k == 0 {
    } else {
      RunLength(args[1..], k - 1);
    }
  }

  lemma PlanStep(args: seq<ServerArg>, i: nat, next: nat)
    requires i < |args| && !args[i].Domain? && next == i + 1 + DomainRun(args[i + 1..]) && next <= |args|
    requires forall j :: i + 1 <= j < next ==> args[j].Domain?
    ensures PlanSetServers(args[i..])
              == PlanAddress(args[i], DomainNames(args[i + 1..next]), PlanSetServers(args[next..]))
  {
    var left := args[i..];
    assert left[0] == args[i] && left[1..] == args[i + 1..];
    assert BlockLength(left) == next - i && left[next - i..] == args[next..];
    assert args[i + 1..][..next - i - 1] == args[i + 1..next];
    assert PlanSetServers(left) == PlanAddress(left[0], BlockDomains(left), PlanSetServers(left[BlockLength(left)..]));
  }

  lemma PlanReadStep<T>(entries: seq<T>, i: nat, read: T -> Option<seq<Push>>)
    requires i < |entries|
    ensures PlanAll(ReadAll(entries[i..], read)) == PlanThen(read(entries[i]), PlanAll(ReadAll(entries[i + 1..], read)))
  {
    var parts := ReadAll(entries[i..], read);
    assert parts[1..] == ReadAll(entries[i + 1..], read);
  }

  lemma PlanExStep(entries: seq<seq<string>>, i: nat, parse: string -> Option<SockAddr>)
    requires i < |entries|
    ensures PlanEx(entries[i..], parse) == PlanThen(ExEntry(entries[i], parse), PlanEx(entries[i + 1..], parse))
  {
    PlanReadStep(entries, i, ExReader(parse));
  }

  lemma PlanDomainStep(entries: seq<string>, i: nat, parse: string -> Option<SockAddr>)
    requires i < |entries|
    ensures PlanDomain(entries[i..], parse)
         == PlanThen(DomainEntry(entries[i], parse), PlanDomain(entries[i + 1..], parse))
  {
    PlanReadStep(entries, i, DomainReader(parse));
  }

  /** The parts of one `SetDomainServers` entry. */
  method ReadParts(entry: string) returns (ok: bool, domains: seq<string>, address: string)
    ensures SplitEntry(entry) == if ok then Some((domains, address)) else None
  {
    ok, domains, address := false, [], "";
    if entry == "" {
      return;
    }
    var idx := LastSlash(entry);
    if idx >= 0 {
      if entry[0] != '/' || idx == 0 {
        return;
      }
      domains := Pieces(entry[1..idx], "");
    }
    ok, address := true, entry[idx + 1..];
  }

  method Locate(domains: seq<string>, address: string, parse: string -> Option<SockAddr>)
    returns (ok: bool, flags: ServFlags, addr: SockAddr)
    ensures Located(domains, address, parse) == if ok then Some(Domains(flags, domains, addr)) else None
  {
    ok, flags, addr := false, NO_FLAGS, UNSPECIFIED;
    if address == "" {
      ok, flags := true, NO_FLAGS.(literal := true, fromDbus := true);
    } else {
      var sock := parse(address);
      if sock.Some? {
        ok, flags, addr := true, AddressFlags(sock.value), sock.value;
      }
    }
  }

  /** Reading one `SetDomainServers` entry. */
  method ReadDomainEntry(entry: string, parse: string -> Option<SockAddr>)
    returns (ok: bool, flags: ServFlags, domains: seq<string>, addr: SockAddr)
    ensures DomainEntry(entry, parse) == if ok then Some(Domains(flags, domains, addr)) else None
  {
    var address;
    flags, addr := NO_FLAGS, UNSPECIFIED;
    ok, domains, address := ReadParts(entry);
    if ok {
      ok, flags, addr := Locate(domains, address, parse);
    }
  }

  class Daemon {
    var servers: seq<Server>

    constructor (servers: seq<Server>)
      ensures this.servers == servers
    {
      this.servers := servers;
    }

    /** `push_dbus_servers`. */
    method PushDbusServers(flags: ServFlags, domains: seq<string>, addr: SockAddr)
      modifies this
      ensures servers == AddAll(old(servers), Domains(flags, domains, addr))
    {
      ghost var ps := Domains(flags, domains, addr);
      if domains == [] {
        servers := AddUpdate(servers, Server(flags, "", addr, UNSPECIFIED, "", NO_STATS));
        assert ps[..0] == [];
      } else {
        for i := 0 to |domains|
          invariant servers == AddAll(old(servers), ps[..i])
        {
          servers := AddUpdate(servers, Server(flags, domains[i], addr, UNSPECIFIED, "", NO_STATS));
          assert ps[..i + 1][..i] == ps[..i];
        }
        assert ps[..|domains|] == ps;
      }
    }

    /** `apply_set_servers`. */
    method ApplySetServers(args: seq<ServerArg>) returns (ok: bool)
      modifies this
      ensures servers == Applied(old(servers), PlanSetServers(args)) && ok == PlanSetServers(args).ok
    {
      servers := MarkAll(servers);
      var i := 0;
      assert args[0..] == args;
      while i < |args|
        invariant i <= |args|
        invariant Applied(old(servers), PlanSetServers(args)) == Finish(servers, PlanSetServers(args[i..]))
        invariant PlanSetServers(args).ok == PlanSetServers(args[i..]).ok
      {
        ghost var before := servers;
        if args[i].Domain? {
          assert PlanSetServers(args[i..]) == Plan([], false);
          return false;
        }
        var addr := if args[i].Addr4? then V4(args[i].octets, 53) else V6(args[i].octets, 53);
        var domains, next := TakeDomains(args, i + 1);
        PlanStep(args, i, next);
        PushDbusServers(AddressFlags(addr), domains, addr);
        FinishStep(before, Domains(AddressFlags(addr), domains, addr), PlanSetServers(args[next..]));
        i := next;
      }
      assert args[i..] == [];
      servers := Sweep(servers);
      return true;
    }

    /** `apply_set_servers_ex`. */
    method ApplySetServersEx(entries: seq<seq<string>>, parse: string -> Option<SockAddr>) returns (ok: bool)
      modifies this
      ensures servers == Applied(old(servers), PlanEx(entries, parse)) && ok == PlanEx(entries, parse).ok
    {
      servers := MarkAll(servers);
      assert entries[0..] == entries;
      for i := 0 to |entries|
        invariant Applied(old(servers), PlanEx(entries, parse)) == Finish(servers, PlanEx(entries[i..], parse))
        invariant PlanEx(entries, parse).ok == PlanEx(entries[i..], parse).ok
      {
        ghost var before := servers;
        var entry := entries[i];
        PlanExStep(entries, i, parse);
        if entry == [] || entry[0] == "" {
          return false;
        }
        var sock := parse(entry[0]);
        if sock.None? {
          return false;
        }
        var literal := sock.value.V4? && sock.value.ip == [0, 0, 0, 0];
        PushDbusServers(AddressFlags(sock.value).(literal := literal), entry[1..], sock.value);
        FinishStep(before, ExEntry(entry, parse).value, PlanEx(entries[i + 1..], parse));
      }
      servers := Sweep(servers);
      return true;
    }

    /** `apply_set_domain_servers`. */
    method ApplySetDomainServers(entries: seq<string>, parse: string -> Option<SockAddr>) returns (ok: bool)
      modifies this
      ensures servers == Applied(old(servers), PlanDomain(entries, parse)) && ok == PlanDomain(entries, parse).ok
    {
      servers := MarkAll(servers);
      assert entries[0..] == entries;
      for i := 0 to |entries|
        invariant Applied(old(servers), PlanDomain(entries, parse)) == Finish(servers, PlanDomain(entries[i..], parse))
        invariant PlanDomain(entries, parse).ok == PlanDomain(entries[i..], parse).ok
      {
        ghost var before := servers;
        var entry := entries[i];
        PlanDomainStep(entries, i, parse);
        var good, flags, domains, addr := ReadDomainEntry(entry, parse);
        if !good {
          return false;
        }
        PushDbusServers(flags, domains, addr);
        FinishStep(before, DomainEntry(entry, parse).value, PlanDomain(entries[i + 1..], parse));
      }
      servers := Sweep(servers);
      return true;
    }
  }

  // ----- what a call leaves behind -----

  /** The entries that did not come from D-Bus, with the mark cleared. */
  function Others(servers: seq<Server>): seq<Server> {
    if servers == [] then []
    else (if servers[0].flags.fromDbus then [] else [Marked(servers[0])]) + Others(servers[1..])
  }

  /** The list entry `s` is what the request `p` asked for, up to the letter case of the domain. */
  predicate Serves(s: Server, p: Push) {
    && s.flags == p.flags && s.addr == p.addr && SameName(s.domain, TrimDots(p.domain))
    && s.source == UNSPECIFIED && s.iface == ""
  }

  /** The older part of the list during a call: everything from D-Bus in it is marked, nothing else is. */
  ghost predicate Stale(servers: seq<Server>) {
    forall i :: 0 <= i < |servers| ==> servers[i].flags.mark == servers[i].flags.fromDbus
  }

  ghost predicate Served(news: seq<Server>, ps: seq<Push>) {
    |news| == |ps| && forall i :: 0 <= i < |ps| ==> Serves(news[i], ps[i])
  }

  lemma {:induction false} OthersAppend(a: seq<Server>, b: seq<Server>)
    ensures Others(a + b) == Others(a) + Others(b)
  {
    if a == [] {
      assert a + b == b;
    } else {
      assert (a + b)[1..] == a[1..] + b;
      OthersAppend(a[1..], b);
    }
  }

  lemma {:induction false} SweepAppend(a: seq<Server>, b: seq<Server>)
    ensures Sweep(a + b) == Sweep(a) + Sweep(b)
  {
    if a == [] {
      assert a + b == b;
    } else {
      assert (a + b)[1..] == a[1..] + b;
      SweepAppend(a[1..], b);
    }
  }

  lemma {:induction false} SweepStale(a: seq<Server>)
    requires Stale(a)
    ensures Sweep(a) == Others(a)
  {
    if a == [] {
    } else {
      SweepStale(a[1..]);
      assert !a[0].flags.fromDbus ==> Marked(a[0]) == a[0];
    }
  }

  lemma {:induction false} SweepFresh(a: seq<Server>)
    requires forall i :: 0 <= i < |a| ==> !a[i].flags.mark
    ensures Sweep(a) == a
  {
    if a == [] {
    } else {
      SweepFresh(a[1..]);
      assert a == [a[0]] + a[1..];
    }
  }

  lemma {:induction false} OthersOfDbus(a: seq<Server>)
    requires forall i :: 0 <= i < |a| ==> a[i].flags.fromDbus
    ensures Others(a) == []
  {
    if a == [] {
    } else {
      OthersOfDbus(a[1..]);
    }
  }

  lemma {:induction false} OthersOfMarked(a: seq<Server>)
    ensures Others(MarkAll(a)) == Others(a) && Stale(MarkAll(a))
  {
    if a == [] {
    } else {
      assert MarkAll(a)[1..] == MarkAll(a[1..]);
      OthersOfMarked(a[1..]);
    }
  }

  lemma SameNameReflexive(a: string)
    ensures SameName(a, a)
  {
  }

  /** Marked entries sit in the older part only, so reuse never touches an entry this call has added. */
  lemma {:induction false} FindInOlderPart(older: seq<Server>, news: seq<Server>, domain: string)
    requires forall i :: 0 <= i < |news| ==> !news[i].flags.mark
    ensures FindReusable(older + news, domain)
         == if FindReusable(older, domain) < |older| then FindReusable(older, domain) else |older| + |news|
  {
    if older == [] {
      assert older + news == news;
      if news != [] {
        FindInOlderPart([], news[1..], domain);
        assert [] + news[1..] == news[1..];
      }
    } else {
      assert (older + news)[1..] == older[1..] + news;
      FindInOlderPart(older[1..], news, domain);
    }
  }

  lemma {:induction false} RemoveMarked(was: seq<Server>, k: nat)
    requires Stale(was) && k < |was| && was[k].flags.mark
    ensures Stale(was[..k] + was[k + 1..]) && Others(was[..k] + was[k + 1..]) == Others(was)
    decreases k
  {
    var left := was[..k] + was[k + 1..];
    if k == 0 {
      assert left == was[1..];
    } else {
      RemoveMarked(was[1..], k - 1);
      assert left[1..] == was[1..][..k - 1] + was[1..][k..];
    }
  }

  lemma ReuseSplits(was: seq<Server>, had: seq<Server>, p: Push, k: nat)
    requires Stale(was) && !p.flags.mark && !p.flags.IsLocal() && k < |was| && Reusable(was[k], TrimDots(p.domain))
    requires FindReusable(was + had, TrimDots(p.domain)) == k
    ensures AddUpdate(was + had, NewServer(p)) == (was[..k] + was[k + 1..]) + (had + [TakenOver(was[k], NewServer(p))])
  {
    MoveToEnd(was, had, k, TakenOver(was[k], NewServer(p)));
    assert (was + had)[k] == was[k];
  }

  lemma AppendSplits(was: seq<Server>, had: seq<Server>, p: Push)
    requires p.flags.IsLocal() || FindReusable(was + had, TrimDots(p.domain)) == |was + had|
    ensures AddUpdate(was + had, NewServer(p)) == was + (had + [NewServer(p).(domain := TrimDots(p.domain))])
  {
    var last := NewServer(p).(domain := TrimDots(p.domain));
    assert was + had + [last] == was + (had + [last]);
  }

  /** Adding one entry: a reusable entry moves from the older part to the end, or a new one is appended. */
  lemma AddSplits(was: seq<Server>, had: seq<Server>, p: Push) returns (older: seq<Server>, last: Server)
    requires Stale(was) && (forall i :: 0 <= i < |had| ==> !had[i].flags.mark) && !p.flags.mark
    ensures AddUpdate(was + had, NewServer(p)) == older + (had + [last])
    ensures Stale(older) && Others(older) == Others(was) && Serves(last, p)
  {
    var domain := TrimDots(p.domain);
    FindInOlderPart(was, had, domain);
    var k := FindReusable(was, domain);
    if !p.flags.IsLocal() && k < |was| {
      older, last := was[..k] + was[k + 1..], TakenOver(was[k], NewServer(p));
      RemoveMarked(was, k);
      ReuseSplits(was, had, p, k);
      ServesTakenOver(was[k], p);
    } else {
      older, last := was, NewServer(p).(domain := domain);
      AppendSplits(was, had, p);
      SameNameReflexive(domain);
    }
  }

  lemma ServesTakenOver(x: Server, p: Push)
    requires !p.flags.mark && Reusable(x, TrimDots(p.domain))
    ensures Serves(TakenOver(x, NewServer(p)), p)
  {
  }

  lemma MoveToEnd(was: seq<Server>, had: seq<Server>, k: nat, last: Server)
    requires k < |was|
    ensures (was + had)[..k] + (was + had)[k + 1..] + [last] == (was[..k] + was[k + 1..]) + (had + [last])
  {
    assert (was + had)[..k] == was[..k];
    assert (was + had)[k + 1..] == was[k + 1..] + had;
  }

  /** During a call the list is an older part and, behind it, the entries added so far in request order. */
  lemma {:induction false} AddAllSplits(servers: seq<Server>, ps: seq<Push>)
    returns (older: seq<Server>, news: seq<Server>)
    requires Stale(servers) && DbusPushes(ps)
    ensures AddAll(servers, ps) == older + news
    ensures Stale(older) && Others(older) == Others(servers)
    ensures Served(news, ps)
    decreases |ps|
  {
    if ps == [] {
      older, news := servers, [];
      assert servers + [] == servers;
    } else {
      var p, before := ps[|ps| - 1], ps[..|ps| - 1];
      assert before + [p] == ps;
      var was, had := AddAllSplits(servers, before);
      ServedUnmarked(had, before);
      older, news := AddLast(was, had, before, p);
    }
  }

  lemma AddLast(was: seq<Server>, had: seq<Server>, before: seq<Push>, p: Push)
    returns (older: seq<Server>, news: seq<Server>)
    requires Stale(was) && (forall i :: 0 <= i < |had| ==> !had[i].flags.mark) && !p.flags.mark && Served(had, before)
    ensures AddUpdate(was + had, NewServer(p)) == older + news
    ensures Stale(older) && Others(older) == Others(was) && Served(news, before + [p])
  {
    var last;
    older, last := AddSplits(was, had, p);
    news := had + [last];
    ServedAppend(had, before, last, p);
  }

  lemma ServedUnmarked(news: seq<Server>, ps: seq<Push>)
    requires Served(news, ps) && DbusPushes(ps)
    ensures forall i :: 0 <= i < |news| ==> !news[i].flags.mark && news[i].flags.fromDbus
  {
    forall i | 0 <= i < |news|
      ensures !news[i].flags.mark && news[i].flags.fromDbus
    {
      assert Serves(news[i], ps[i]);
    }
  }

  lemma ServedAppend(news: seq<Server>, ps: seq<Push>, s: Server, p: Push)
    requires Served(news, ps) && Serves(s, p)
    ensures Served(news + [s], ps + [p])
  {
  }

  /** A successful call leaves the other entries, then exactly what it asked for, in request order. */
  lemma SuccessReplaces(servers: seq<Server>, call: Call, parse: string -> Option<SockAddr>) returns (news: seq<Server>)
    requires PlanOf(call, parse).ok
    ensures Applied(servers, PlanOf(call, parse)) == Others(servers) + news
    ensures Served(news, PlanOf(call, parse).pushes)
  {
    var plan := PlanOf(call, parse);
    OthersOfMarked(servers);
    var older;
    older, news := AddAllSplits(MarkAll(servers), plan.pushes);
    SweepAppend(older, news);
    SweepStale(older);
    ServedUnmarked(news, plan.pushes);
    SweepFresh(news);
  }

  lemma {:induction false} AddAllKeepsLength(servers: seq<Server>, ps: seq<Push>)
    ensures |AddAll(servers, ps)| >= |servers|
  {
    if ps == [] {
    } else {
      AddAllKeepsLength(servers, ps[..|ps| - 1]);
    }
  }

  /** A failed call removes nothing: what was planned before the error has been added or has taken over a marked entry,
      and the D-Bus entries that were not taken over are still there, marked. */
  lemma FailedCallRemovesNothing(servers: seq<Server>, call: Call, parse: string -> Option<SockAddr>)
    returns (older: seq<Server>, news: seq<Server>)
    requires !PlanOf(call, parse).ok
    ensures Applied(servers, PlanOf(call, parse)) == older + news && |older + news| >= |servers|
    ensures Stale(older) && Others(older) == Others(servers) && Served(news, PlanOf(call, parse).pushes)
    ensures PlanOf(call, parse).pushes == [] ==> older == MarkAll(servers)
  {
    var plan := PlanOf(call, parse);
    OthersOfMarked(servers);
    older, news := AddAllSplits(MarkAll(servers), plan.pushes);
    AddAllKeepsLength(MarkAll(servers), plan.pushes);
    if plan.pushes == [] {
      assert news == [] && older + news == older;
    }
  }

  /** Any call, failed or not, leaves the other entries as they were. */
  lemma CallKeepsOthers(servers: seq<Server>, call: Call, parse: string -> Option<SockAddr>)
    ensures Others(Applied(servers, PlanOf(call, parse))) == Others(servers)
  {
    var plan := PlanOf(call, parse);
    OthersOfMarked(servers);
    var older, news := AddAllSplits(MarkAll(servers), plan.pushes);
    ServedUnmarked(news, plan.pushes);
    OthersAppend(older, news);
    OthersOfDbus(news);
    if plan.ok {
      SweepAppend(older, news);
      SweepStale(older);
      SweepFresh(news);
      OthersAppend(Others(older), news);
      OthersTwice(older);
    }
  }

  lemma {:induction false} OthersTwice(a: seq<Server>)
    ensures Others(Others(a)) == Others(a)
  {
    if a == [] {
    } else {
      OthersTwice(a[1..]);
      var head := if a[0].flags.fromDbus then [] else [Marked(a[0])];
      OthersAppend(head, Others(a[1..]));
      assert Others(head) == head;
    }
  }

  function Run(servers: seq<Server>, calls: seq<Call>, parse: string -> Option<SockAddr>): seq<Server> {
    if calls == [] then servers
    else Applied(Run(servers, calls[..|calls| - 1], parse), PlanOf(calls[|calls| - 1], parse))
  }

  lemma {:induction false} RunKeepsOthers(servers: seq<Server>, calls: seq<Call>, parse: string -> Option<SockAddr>)
    ensures Others(Run(servers, calls, parse)) == Others(servers)
    decreases |calls|
  {
    if calls == [] {
    } else {
      RunKeepsOthers(servers, calls[..|calls| - 1], parse);
      CallKeepsOthers(Run(servers, calls[..|calls| - 1], parse), calls[|calls| - 1], parse);
    }
  }

  /** After any run of calls that ends in a successful one, the list is the entries that never came from D-Bus, in
      their original order, followed by the last call's entries in request order: earlier calls, failed ones
      included, leave no trace. */
  lemma LastSuccessDecides(servers: seq<Server>, calls: seq<Call>, parse: string -> Option<SockAddr>)
    returns (news: seq<Server>)
    requires calls != [] && PlanOf(calls[|calls| - 1], parse).ok
    ensures Run(servers, calls, parse) == Others(servers) + news
    ensures Served(news, PlanOf(calls[|calls| - 1], parse).pushes)
  {
    var before := Run(servers, calls[..|calls| - 1], parse);
    RunKeepsOthers(servers, calls[..|calls| - 1], parse);
    news := SuccessReplaces(before, calls[|calls| - 1], parse);
  }
}
