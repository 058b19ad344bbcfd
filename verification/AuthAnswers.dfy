/** Answering from an authoritative zone: the forward part of `answer_auth` with its alias restart, and the addresses
    of a zone transfer (src/auth.rs). */
module AuthAnswers {
  import opened Basics
  import opened Names
  import opened Zones

  datatype QType = QA | QAaaa | QSoa | QNs | QAxfr | QOther(number: nat)

  /** MX, SRV, TXT, NAPTR and raw records: all are matched by owner name and type. */
  datatype OtherRecord = OtherRecord(name: string, qtype: QType, rdata: seq<int>)

  datatype InterfaceAddress = InterfaceAddress(addr: Address, isV6: bool, revOnly: bool)

  datatype InterfaceName = InterfaceName(name: string, addrs: seq<InterfaceAddress>)

  datatype Alias = Alias(alias: string, target: string)

  /** A cached record, with its source and the address families its flags name. */
  datatype HostRecord = HostRecord(
    name: string, dhcp: bool, hosts: bool, ipv4: bool, ipv6: bool, neg: bool, forward: bool, addr: Option<Address>)

  /** The configuration, and the cache as seen by name. */
  datatype Config = Config(
    zones: seq<Zone>, others: seq<OtherRecord>, intNames: seq<InterfaceName>, aliases: seq<Alias>, dhcpFqdn: bool,
    mayTransfer: bool, lookup: string -> seq<HostRecord>, live: seq<HostRecord>, nonTerminal: string -> bool)

  datatype Rr =
    | AddressRr(owner: string, v6: bool, addr: Address)
    | CnameRr(owner: string, target: string)
    | OtherRr(owner: string, qtype: QType, rdata: seq<int>)

  /** `issubdomain_rc`: 2 for the same name, 1 for a name below the record's, 0 otherwise. */
  function Rc(name: string, domain: string): nat {
    if SameName(name, domain) then 2
    else if |name| > |domain| && name[|name| - |domain| - 1] == '.' && SameName(name[|name| - |domain|..], domain)
    then 1
    else 0
  }

  // ----- one pass over the records -----

  function OtherAnswers(rs: seq<OtherRecord>, name: string, q: QType): seq<Rr> {
    if rs == [] then []
    else
      var r := rs[|rs| - 1];
      OtherAnswers(rs[..|rs| - 1], name, q)
      + if Rc(name, r.name) == 2 && r.qtype == q then [OtherRr(name, q, r.rdata)] else []
  }

  predicate OthersExist(rs: seq<OtherRecord>, name: string) {
    rs != [] && (Rc(name, rs[|rs| - 1].name) != 0 || OthersExist(rs[..|rs| - 1], name))
  }

  predicate Offers(a: InterfaceAddress, z: Zone, q: QType, local: bool) {
    q == (if a.isV6 then QAaaa else QA) && !a.revOnly && (local || FilterZone(z, a.addr))
  }

  function AddrAnswers(addrs: seq<InterfaceAddress>, z: Zone, name: string, q: QType, local: bool): seq<Rr> {
    if addrs == [] then []
    else
      var a := addrs[|addrs| - 1];
      AddrAnswers(addrs[..|addrs| - 1], z, name, q, local)
      + if Offers(a, z, q, local) then [AddressRr(name, q == QAaaa, a.addr)] else []
  }

  function InterfaceRrs(rc: nat, n: InterfaceName, z: Zone, name: string, q: QType, local: bool): seq<Rr> {
    if rc == 2 && (q == QA || q == QAaaa) then AddrAnswers(n.addrs, z, name, q, local) else []
  }

  function IntAnswers(ints: seq<InterfaceName>, z: Zone, name: string, q: QType, local: bool): seq<Rr> {
    if ints == [] then []
    else
      var n := ints[|ints| - 1];
      IntAnswers(ints[..|ints| - 1], z, name, q, local) + InterfaceRrs(Rc(name, n.name), n, z, name, q, local)
  }

  predicate IntsExist(ints: seq<InterfaceName>, name: string) {
    ints != [] && (Rc(name, ints[|ints| - 1].name) != 0 || IntsExist(ints[..|ints| - 1], name))
  }

  predicate FlagMatches(r: HostRecord, q: QType) {
    (q == QA && r.ipv4) || (q == QAaaa && r.ipv6)
  }

  /** Which records count: by bare name only those from DHCP, by full name those from hosts files and, when they are
      kept under full names, those from DHCP. */
  predicate Counts(r: HostRecord, bare: bool, dhcpFqdn: bool) {
    if bare then r.dhcp else r.hosts || (r.dhcp && dhcpFqdn)
  }

  function HostRrs(r: HostRecord, bare: bool, dhcpFqdn: bool, z: Zone, owner: string, q: QType, local: bool): seq<Rr> {
    if Counts(r, bare, dhcpFqdn) && FlagMatches(r, q) && r.addr.Some? && (local || FilterZone(z, r.addr.value))
    then [AddressRr(owner, q == QAaaa, r.addr.value)] else []
  }

  function HostAnswers(
    rs: seq<HostRecord>, bare: bool, dhcpFqdn: bool, z: Zone, owner: string, q: QType, local: bool): seq<Rr>
  {
    if rs == [] then []
    else
      HostAnswers(rs[..|rs| - 1], bare, dhcpFqdn, z, owner, q, local)
      + HostRrs(rs[|rs| - 1], bare, dhcpFqdn, z, owner, q, local)
  }

  predicate HostsExist(rs: seq<HostRecord>, bare: bool, dhcpFqdn: bool) {
    rs != [] && (Counts(rs[|rs| - 1], bare, dhcpFqdn) || HostsExist(rs[..|rs| - 1], bare, dhcpFqdn))
  }

  /** The records stored under the bare name, when the name is cut to a single label. */
  function BareRecords(c: Config, name: string, cut: Option<nat>): seq<HostRecord> {
    if cut.Some? && cut.value <= |name| && !c.dhcpFqdn && '.' !in name[..cut.value]
    then c.lookup(name[..cut.value])
    else []
  }

  function BareOwner(name: string, cut: Option<nat>): string {
    if cut.Some? && cut.value <= |name| then name[..cut.value] else ""
  }

  /** The answers of one pass, in order. */
  function PassAnswers(c: Config, z: Zone, name: string, cut: Option<nat>, q: QType, local: bool): seq<Rr> {
    OtherAnswers(c.others, name, q)
    + IntAnswers(c.intNames, z, name, q, local)
    + HostAnswers(BareRecords(c, name, cut), true, c.dhcpFqdn, z, BareOwner(name, cut), q, local)
    + HostAnswers(c.lookup(name), false, c.dhcpFqdn, z, name, q, local)
  }

  /** Whether the pass found that the name exists. The apex always does. */
  predicate PassExists(c: Config, name: string, cut: Option<nat>) {
    || OthersExist(c.others, name) || IntsExist(c.intNames, name) || cut.None?
    || HostsExist(BareRecords(c, name, cut), true, c.dhcpFqdn) || HostsExist(c.lookup(name), false, c.dhcpFqdn)
  }

  // ----- aliases -----

  datatype Choice = Choice(length: nat, wild: bool, alias: Option<Alias>)

  predicate WildcardMatches(alias: string, name: string) {
    && alias != "" && alias[0] == '*'
    && 0 < |alias| - 1 <= |name| && name[|name| - (|alias| - 1)] == '.'
    && SameName(name[|name| - (|alias| - 1)..], alias[1..])
  }

  function Consider(ch: Choice, a: Alias, name: string): Choice {
    if a.alias != "" && a.alias[0] == '*' then
      if WildcardMatches(a.alias, name) && |a.alias| - 1 > ch.length && !ch.wild
      then Choice(|a.alias| - 1, true, Some(a))
      else ch
    else if SameName(a.alias, name) && |a.alias| > ch.length then Choice(|a.alias|, ch.wild, Some(a))
    else ch
  }

  function ChooseAlias(aliases: seq<Alias>, name: string): Choice {
    if aliases == [] then Choice(0, false, None)
    else Consider(ChooseAlias(aliases[..|aliases| - 1], name), aliases[|aliases| - 1], name)
  }

  predicate IsExact(a: Alias, name: string) {
    !(a.alias != "" && a.alias[0] == '*') && SameName(a.alias, name)
  }

  function FirstExact(aliases: seq<Alias>, name: string): (k: nat)
    ensures k <= |aliases|
    ensures forall i :: 0 <= i < k ==> !IsExact(aliases[i], name)
    ensures k < |aliases| ==> IsExact(aliases[k], name)
  {
    if aliases == [] || IsExact(aliases[0], name) then 0 else 1 + FirstExact(aliases[1..], name)
  }

  function FirstWildcard(aliases: seq<Alias>, name: string): (k: nat)
    ensures k <= |aliases|
    ensures forall i :: 0 <= i < k ==> !WildcardMatches(aliases[i].alias, name)
    ensures k < |aliases| ==> WildcardMatches(aliases[k].alias, name)
  {
    if aliases == [] || WildcardMatches(aliases[0].alias, name) then 0 else 1 + FirstWildcard(aliases[1..], name)
  }

  ghost predicate FirstMatches(aliases: seq<Alias>, exact: nat, wild: nat, name: string) {
    && (forall i :: 0 <= i < exact && i < |aliases| ==> !IsExact(aliases[i], name))
    && (exact < |aliases| ==> IsExact(aliases[exact], name))
    && (forall i :: 0 <= i < wild && i < |aliases| ==> !WildcardMatches(aliases[i].alias, name))
    && (wild < |aliases| ==> WildcardMatches(aliases[wild].alias, name))
  }

  /** The exact alias is taken unless the name is empty or a wildcard as long as the name stands before it, which
      takes a name that begins with a dot. */
  predicate ExactWins(aliases: seq<Alias>, exact: nat, wild: nat, name: string) {
    && exact < |aliases| && name != ""
    && !(wild < exact && |aliases[wild].alias| - 1 == |name|)
  }

  /** The choice `ch` after the aliases up to `n`, given the first exact and the first wildcard match. */
  ghost predicate ChosenSoFar(ch: Choice, aliases: seq<Alias>, n: nat, exact: nat, wild: nat, name: string)
    requires n <= |aliases|
  {
    && (ch.wild ==> wild < n)
    && if exact < n && ExactWins(aliases, exact, wild, name)
       then ch.length == |name| && ch.alias == Some(aliases[exact])
       else if wild < n then ch.wild && ch.length == |aliases[wild].alias| - 1 && ch.alias == Some(aliases[wild])
       else ch == Choice(0, false, None)
  }

  lemma SameNameSameLength(a: string, b: string)
    requires SameName(a, b)
    ensures |a| == |b|
  {
    assert |Lower(a)| == |a| && |Lower(b)| == |b|;
  }

  lemma ConsiderKeeps(ch: Choice, after: Choice, aliases: seq<Alias>, n: nat, exact: nat, wild: nat, name: string)
    requires n < |aliases| && FirstMatches(aliases, exact, wild, name)
    requires ChosenSoFar(ch, aliases, n, exact, wild, name) && after == Consider(ch, aliases[n], name)
    ensures ChosenSoFar(after, aliases, n + 1, exact, wild, name)
  {
    if WildcardMatches(aliases[n].alias, name) {
      assert wild <= n && exact != n;
      TakeWildcard(ch, after, aliases, n, exact, wild, name);
    } else if IsExact(aliases[n], name) {
      assert exact <= n && wild != n;
      SameNameSameLength(aliases[n].alias, name);
      TakeExact(ch, after, aliases, n, exact, wild, name);
    } else {
      assert after == ch && n != exact && n != wild;
    }
  }

  lemma TakeWildcard(ch: Choice, after: Choice, aliases: seq<Alias>, n: nat, exact: nat, wild: nat, name: string)
    requires wild <= n < |aliases| && exact != n && 0 < |aliases[wild].alias| - 1 <= |name|
    requires 0 < |aliases[n].alias| - 1 <= |name|
    requires ChosenSoFar(ch, aliases, n, exact, wild, name)
    requires after == if |aliases[n].alias| - 1 > ch.length && !ch.wild
                      then Choice(|aliases[n].alias| - 1, true, Some(aliases[n])) else ch
    ensures ChosenSoFar(after, aliases, n + 1, exact, wild, name)
  {
  }

  lemma TakeExact(ch: Choice, after: Choice, aliases: seq<Alias>, n: nat, exact: nat, wild: nat, name: string)
    requires exact <= n < |aliases| && wild != n && (wild < |aliases| ==> 0 < |aliases[wild].alias| - 1 <= |name|)
    requires ChosenSoFar(ch, aliases, n, exact, wild, name)
    requires after == if |name| > ch.length then Choice(|name|, ch.wild, Some(aliases[n])) else ch
    ensures ChosenSoFar(after, aliases, n + 1, exact, wild, name)
  {
  }

  lemma ChooseStep(aliases: seq<Alias>, n: nat, name: string)
    requires n < |aliases|
    ensures ChooseAlias(aliases[..n + 1], name) == Consider(ChooseAlias(aliases[..n], name), aliases[n], name)
  {
    assert aliases[..n + 1][..n] == aliases[..n];
  }

  lemma {:induction false} ChooseSoFar(aliases: seq<Alias>, n: nat, exact: nat, wild: nat, name: string)
    requires n <= |aliases| && FirstMatches(aliases, exact, wild, name)
    ensures ChosenSoFar(ChooseAlias(aliases[..n], name), aliases, n, exact, wild, name)
  {
    if n == 0 {
      assert aliases[..n] == [];
    } else {
      var m := n - 1;
      ChooseSoFar(aliases, m, exact, wild, name);
      ChooseStep(aliases, m, name);
      ConsiderKeeps(ChooseAlias(aliases[..m], name), ChooseAlias(aliases[..n], name), aliases, m, exact, wild, name);
    }
  }

  /** The first exact alias wins, wherever it stands; without one it is the first matching wildcard, not the longest. */
  lemma AliasPreference(aliases: seq<Alias>, name: string)
    ensures var exact, wild := FirstExact(aliases, name), FirstWildcard(aliases, name);
            ChooseAlias(aliases, name).alias
              == if ExactWins(aliases, exact, wild, name) then Some(aliases[exact])
                 else if wild < |aliases| then Some(aliases[wild])
                 else None
  {
    assert aliases[..|aliases|] == aliases;
    ChooseSoFar(aliases, |aliases|, FirstExact(aliases, name), FirstWildcard(aliases, name), name);
  }

  /** Alias `k` matches as a wildcard, and none that matches is longer. */
  ghost predicate IsLongest(aliases: seq<Alias>, k: nat, name: string) {
    && k < |aliases| && WildcardMatches(aliases[k].alias, name)
    && forall i :: 0 <= i < |aliases| && WildcardMatches(aliases[i].alias, name) ==>
         |aliases[i].alias| <= |aliases[k].alias|
  }

  /** Without an exact alias, a longest matching wildcard is followed if and only if the first matching one is such. */
  lemma FollowsLongestIff(aliases: seq<Alias>, name: string)
    requires FirstExact(aliases, name) == |aliases| && FirstWildcard(aliases, name) < |aliases|
    ensures (exists k: nat :: IsLongest(aliases, k, name) && ChooseAlias(aliases, name).alias == Some(aliases[k]))
       <==> IsLongest(aliases, FirstWildcard(aliases, name), name)
  {
    AliasPreference(aliases, name);
  }

  /** The shorter of two matching wildcards is followed whenever it is configured first. */
  lemma ShorterWildcardWins(shorter: Alias, longer: Alias, name: string)
    requires WildcardMatches(shorter.alias, name) && WildcardMatches(longer.alias, name)
    requires |shorter.alias| < |longer.alias|
    ensures var aliases := [shorter, longer];
            && ChooseAlias(aliases, name).alias == Some(shorter)
            && IsLongest(aliases, 1, name) && !IsLongest(aliases, 0, name)
  {
    AliasPreference([shorter, longer], name);
  }

  lemma WildcardMatchesAt(alias: string, rest: string, name: string, at: nat)
    requires alias == "*" + rest && rest != "" && at < |name| && name[at..] == rest && name[at] == '.'
    ensures WildcardMatches(alias, name)
  {
    assert alias[1..] == rest;
  }

  /** So it is for "a.example.com" when "*.com" stands before "*.example.com". */
  lemma LongestWildcardLoses(shorter: string, longer: string)
    ensures var aliases := [Alias("*.com", shorter), Alias("*.example.com", longer)];
            ChooseAlias(aliases, "a.example.com").alias == Some(aliases[0]) && IsLongest(aliases, 1, "a.example.com")
  {
    WildcardMatchesAt("*.com", ".com", "a.example.com", 9);
    WildcardMatchesAt("*.example.com", ".example.com", "a.example.com", 1);
    ShorterWildcardWins(Alias("*.com", shorter), Alias("*.example.com", longer), "a.example.com");
  }

  function Target(a: Alias, domain: string): string {
    if '.' in a.target then a.target else a.target + "." + domain
  }

  // ----- the answer -----

  datatype Answer =
    | Dropped
    | Refused
    | Answer(answers: seq<Rr>, nxdomain: bool, zone: Zone)

  predicate Contains(z: Zone, name: string) { InZone(name, z.domain).Some? }

  function SelectZone(zones: seq<Zone>, name: string): (k: nat)
    ensures k <= |zones|
    ensures k < |zones| ==> Contains(zones[k], name)
  {
    if zones == [] || Contains(zones[0], name) then 0 else 1 + SelectZone(zones[1..], name)
  }

  /** No zone before the selected one contains the name. */
  lemma {:induction false} SelectsFirst(zones: seq<Zone>, name: string, i: nat)
    requires i < SelectZone(zones, name)
    ensures InZone(name, zones[i].domain).None?
  {
    if i == 0 {
    } else {
      SelectsFirst(zones[1..], name, i - 1);
    }
  }

  function CutOf(p: Place): Option<nat> { if p.Cut? then Some(p.at) else None }

  /** A zone transfer asked for at the apex without permission is not answered at all. */
  predicate IsDropped(c: Config, cut: Option<nat>, q: QType) {
    cut.None? && q == QAxfr && !c.mayTransfer
  }

  /** What a second pass, under an alias's target, adds to the answers so far. */
  function AliasAnswer(c: Config, z: Zone, target: string, sofar: seq<Rr>, q: QType, local: bool): Answer {
    if IsDropped(c, None, q) then Dropped
    else Answer(sofar + PassAnswers(c, z, target, None, q, local), false, z)
  }

  /** The answer from a zone, for a name cut there. */
  function ZoneAnswer(c: Config, z: Zone, name: string, cut: Option<nat>, q: QType, local: bool): Answer {
    var first := PassAnswers(c, z, name, cut, q, local);
    if IsDropped(c, cut, q) then Dropped
    else if PassExists(c, name, cut) then Answer(first, false, z)
    else match ChooseAlias(c.aliases, name).alias
      case None => Answer(first, !c.nonTerminal(name), z)
      case Some(a) => AliasAnswer(c, z, Target(a, z.domain), first + [CnameRr(name, Target(a, z.domain))], q, local)
  }

  /** The reference: at most one alias is followed, inside the zone of the queried name. */
  function ForwardAnswer(c: Config, name: string, q: QType, local: bool): Answer {
    var k := SelectZone(c.zones, name);
    if k == |c.zones| then Refused
    else ZoneAnswer(c, c.zones[k], name, CutOf(InZone(name, c.zones[k].domain).value), q, local)
  }

  // ----- the code -----

  lemma HostStep(
    rs: seq<HostRecord>, i: nat, bare: bool, dhcpFqdn: bool, z: Zone, owner: string, q: QType, local: bool)
    requires i < |rs|
    ensures HostAnswers(rs[..i + 1], bare, dhcpFqdn, z, owner, q, local)
         == HostAnswers(rs[..i], bare, dhcpFqdn, z, owner, q, local)
            + HostRrs(rs[i], bare, dhcpFqdn, z, owner, q, local)
    ensures HostsExist(rs[..i + 1], bare, dhcpFqdn) <==>
            Counts(rs[i], bare, dhcpFqdn) || HostsExist(rs[..i], bare, dhcpFqdn)
  {
    assert rs[..i + 1][..i] == rs[..i];
  }

  method CollectHosts(rs: seq<HostRecord>, bare: bool, dhcpFqdn: bool, z: Zone, owner: string, q: QType, local: bool)
    returns (answers: seq<Rr>, found: bool)
    ensures answers == HostAnswers(rs, bare, dhcpFqdn, z, owner, q, local)
    ensures found <==> HostsExist(rs, bare, dhcpFqdn)
  {
    answers, found := [], false;
    for i := 0 to |rs|
      invariant answers == HostAnswers(rs[..i], bare, dhcpFqdn, z, owner, q, local)
      invariant found <==> HostsExist(rs[..i], bare, dhcpFqdn)
    {
      HostStep(rs, i, bare, dhcpFqdn, z, owner, q, local);
      var r := rs[i];
      if !Counts(r, bare, dhcpFqdn) {
        continue;
      }
      found := true;
      if FlagMatches(r, q) {
        if r.addr.None? {
          continue;
        }
        if local || FilterZone(z, r.addr.value) {
          answers := answers + [AddressRr(owner, q == QAaaa, r.addr.value)];
        }
      }
    }
    assert rs[..|rs|] == rs;
  }

  method CollectAddrs(addrs: seq<InterfaceAddress>, z: Zone, name: string, q: QType, local: bool)
    returns (answers: seq<Rr>)
    ensures answers == AddrAnswers(addrs, z, name, q, local)
  {
    answers := [];
    for i := 0 to |addrs|
      invariant answers == AddrAnswers(addrs[..i], z, name, q, local)
    {
      assert addrs[..i + 1][..i] == addrs[..i];
      var a := addrs[i];
      var want := if a.isV6 then QAaaa else QA;
      if want != q || a.revOnly || !(local || FilterZone(z, a.addr)) {
        continue;
      }
      answers := answers + [AddressRr(name, q == QAaaa, a.addr)];
    }
    assert addrs[..|addrs|] == addrs;
  }

  method CollectInterface(rc: nat, n: InterfaceName, z: Zone, name: string, q: QType, local: bool)
    returns (answers: seq<Rr>)
    ensures answers == InterfaceRrs(rc, n, z, name, q, local)
  {
    answers := [];
    if rc == 2 && (q == QA || q == QAaaa) {
      answers := CollectAddrs(n.addrs, z, name, q, local);
    }
  }

  lemma IntStep(ints: seq<InterfaceName>, i: nat, z: Zone, name: string, q: QType, local: bool)
    requires i < |ints|
    ensures IntAnswers(ints[..i + 1], z, name, q, local)
         == IntAnswers(ints[..i], z, name, q, local) + InterfaceRrs(Rc(name, ints[i].name), ints[i], z, name, q, local)
    ensures IntsExist(ints[..i + 1], name) <==> Rc(name, ints[i].name) != 0 || IntsExist(ints[..i], name)
  {
    assert ints[..i + 1][..i] == ints[..i];
  }

  method CollectInts(ints: seq<InterfaceName>, z: Zone, name: string, q: QType, local: bool)
    returns (answers: seq<Rr>, found: bool)
    ensures answers == IntAnswers(ints, z, name, q, local)
    ensures found <==> IntsExist(ints, name)
  {
    answers, found := [], false;
    for i := 0 to |ints|
      invariant answers == IntAnswers(ints[..i], z, name, q, local)
      invariant found <==> IntsExist(ints[..i], name)
    {
      IntStep(ints, i, z, name, q, local);
      var rc := Rc(name, ints[i].name);
      if rc == 0 {
        continue;
      }
      found := true;
      var more := CollectInterface(rc, ints[i], z, name, q, local);
      answers := answers + more;
    }
    assert ints[..|ints|] == ints;
  }

  method CollectOthers(rs: seq<OtherRecord>, name: string, q: QType) returns (answers: seq<Rr>, found: bool)
    ensures answers == OtherAnswers(rs, name, q)
    ensures found <==> OthersExist(rs, name)
  {
    answers, found := [], false;
    for i := 0 to |rs|
      invariant answers == OtherAnswers(rs[..i], name, q)
      invariant found <==> OthersExist(rs[..i], name)
    {
      assert rs[..i + 1][..i] == rs[..i];
      var rc := Rc(name, rs[i].name);
      if rc == 0 {
        continue;
      }
      found := true;
      if rc == 2 && rs[i].qtype == q {
        answers := answers + [OtherRr(name, q, rs[i].rdata)];
      }
    }
    assert rs[..|rs|] == rs;
  }

  method FindAlias(aliases: seq<Alias>, name: string) returns (candidate: Option<Alias>)
    ensures candidate == ChooseAlias(aliases, name).alias
  {
    var length: nat, wild := 0, false;
    candidate := None;
    for i := 0 to |aliases|
      invariant Choice(length, wild, candidate) == ChooseAlias(aliases[..i], name)
    {
      assert aliases[..i + 1][..i] == aliases[..i];
      var a := aliases[i];
      if a.alias != "" && a.alias[0] == '*' {
        if WildcardMatches(a.alias, name) && |a.alias| - 1 > length && !wild {
          length, candidate, wild := |a.alias| - 1, Some(a), true;
        }
      } else if SameName(a.alias, name) && |a.alias| > length {
        length, candidate := |a.alias|, Some(a);
      }
    }
    assert aliases[..|aliases|] == aliases;
  }

  method OnePass(c: Config, z: Zone, name: string, cut: Option<nat>, q: QType, local: bool)
    returns (answers: seq<Rr>, found: bool)
    ensures answers == PassAnswers(c, z, name, cut, q, local)
    ensures found <==> PassExists(c, name, cut)
  {
    var others, o := CollectOthers(c.others, name, q);
    var ints, i := CollectInts(c.intNames, z, name, q, local);
    var bare, b := CollectHosts(BareRecords(c, name, cut), true, c.dhcpFqdn, z, BareOwner(name, cut), q, local);
    var full, f := CollectHosts(c.lookup(name), false, c.dhcpFqdn, z, name, q, local);
    answers := others + ints + bare + full;
    found := o || i || cut.None? || b || f;
  }

  lemma ZoneAnswerCases(c: Config, z: Zone, name: string, cut: Option<nat>, q: QType, local: bool, more: seq<Rr>)
    requires more == PassAnswers(c, z, name, cut, q, local)
    ensures IsDropped(c, cut, q) ==> ZoneAnswer(c, z, name, cut, q, local) == Dropped
    ensures !IsDropped(c, cut, q) && PassExists(c, name, cut) ==>
              ZoneAnswer(c, z, name, cut, q, local) == Answer(more, false, z)
    ensures !IsDropped(c, cut, q) && !PassExists(c, name, cut) ==>
              ZoneAnswer(c, z, name, cut, q, local) ==
                match ChooseAlias(c.aliases, name).alias
                case None => Answer(more, !c.nonTerminal(name), z)
                case Some(a) =>
                  AliasAnswer(c, z, Target(a, z.domain), more + [CnameRr(name, Target(a, z.domain))], q, local)
  {
  }

  lemma AliasAnswerIs(c: Config, z: Zone, target: string, sofar: seq<Rr>, q: QType, local: bool, more: seq<Rr>)
    requires more == PassAnswers(c, z, target, None, q, local)
    ensures PassExists(c, target, None)
    ensures AliasAnswer(c, z, target, sofar, q, local)
         == if IsDropped(c, None, q) then Dropped else Answer(sofar + more, false, z)
  {
  }

  /** The first pass, under the queried name: an answer, or the alias to restart with. */
  method FirstPass(c: Config, z: Zone, name: string, cut: Option<nat>, q: QType, local: bool)
    returns (r: Option<Answer>, answers: seq<Rr>, target: string)
    ensures r.Some? ==> r.value == ZoneAnswer(c, z, name, cut, q, local)
    ensures r.None? ==> ZoneAnswer(c, z, name, cut, q, local) == AliasAnswer(c, z, target, answers, q, local)
  {
    var known;
    answers, known := OnePass(c, z, name, cut, q, local);
    ZoneAnswerCases(c, z, name, cut, q, local, answers);
    target := name;
    if IsDropped(c, cut, q) {
      return Some(Dropped), answers, target;
    }
    if known {
      return Some(Answer(answers, false, z)), answers, target;
    }
    var alias := FindAlias(c.aliases, name);
    if alias.None? {
      return Some(Answer(answers, !c.nonTerminal(name), z)), answers, target;
    }
    target := Target(alias.value, z.domain);
    answers := answers + [CnameRr(name, target)];
    r := None;
  }

  /** The restart loop of `answer_auth`: following an alias restarts the pass under the new name, and a second pass
      always ends the loop, however the aliases point at each other. */
  method AnswerForward(c: Config, query: string, q: QType, local: bool) returns (r: Answer, passes: nat)
    ensures r == ForwardAnswer(c, query, q, local)
    ensures passes <= 2
  {
    var name, found, answers := query, false, [];
    var zone: Option<Zone> := None;
    passes := 0;
    while true
      invariant !found ==> name == query && answers == [] && passes == 0
      invariant found ==> passes == 1 && zone.Some?
      invariant found ==> ForwardAnswer(c, query, q, local) == AliasAnswer(c, zone.value, name, answers, q, local)
      decreases !found
    {
      passes := passes + 1;
      if !found {
        var at := SelectZone(c.zones, name);
        if at == |c.zones| {
          return Refused, passes;
        }
        zone := Some(c.zones[at]);
        var cut := CutOf(InZone(name, zone.value.domain).value);
        var done;
        done, answers, name := FirstPass(c, zone.value, name, cut, q, local);
        if done.Some? {
          return done.value, passes;
        }
        found := true;
        continue;
      }
      var more, known := OnePass(c, zone.value, name, None, q, local);
      AliasAnswerIs(c, zone.value, name, answers, q, local, more);
      if IsDropped(c, None, q) {
        return Dropped, passes;
      }
      answers := answers + more;
      if known {
        return Answer(answers, false, zone.value), passes;
      }
    }
  }

  // ----- exactly the addresses that some source holds and the filter passes -----

  /** The address may be told: to a local client any, to others those that no excluded subnet covers and, if there are
      subnets, one of them does. */
  ghost predicate Passes(z: Zone, addr: Address, local: bool) {
    || local
    || (&& (forall i :: 0 <= i < |z.excludes| ==> !Covers(z.excludes[i], addr))
        && (z.subnets == [] || exists i :: 0 <= i < |z.subnets| && Covers(z.subnets[i], addr)))
  }

  lemma PassesIff(z: Zone, addr: Address, local: bool)
    ensures local || FilterZone(z, addr) <==> Passes(z, addr, local)
  {
    FilterZoneIff(z, addr);
  }

  /** The interface address answers the question with this record. */
  predicate GivesInt(a: InterfaceAddress, name: string, q: QType, rr: Rr) {
    q == (if a.isV6 then QAaaa else QA) && !a.revOnly && rr == AddressRr(name, a.isV6, a.addr)
  }

  /** The cached record answers the question with this record. */
  predicate GivesHost(r: HostRecord, bare: bool, dhcpFqdn: bool, owner: string, q: QType, rr: Rr) {
    && (if bare then r.dhcp else r.hosts || (r.dhcp && dhcpFqdn))
    && ((q == QA && r.ipv4) || (q == QAaaa && r.ipv6))
    && r.addr.Some? && rr == AddressRr(owner, q == QAaaa, r.addr.value)
  }

  ghost predicate NameSource(n: InterfaceName, name: string, q: QType, rr: Rr) {
    SameName(name, n.name) && exists a :: a in n.addrs && GivesInt(a, name, q, rr)
  }

  ghost predicate IntSource(ints: seq<InterfaceName>, name: string, q: QType, rr: Rr) {
    exists n :: n in ints && NameSource(n, name, q, rr)
  }

  ghost predicate HostSource(rs: seq<HostRecord>, bare: bool, dhcpFqdn: bool, owner: string, q: QType, rr: Rr) {
    exists r :: r in rs && GivesHost(r, bare, dhcpFqdn, owner, q, rr)
  }

  /** Some source of the name and the asked family holds the address: an interface name, a cached record under the full
      name, or, where DHCP names are kept bare, a DHCP record under the single label before the cut. */
  ghost predicate HasSource(c: Config, name: string, cut: Option<nat>, q: QType, rr: Rr) {
    || IntSource(c.intNames, name, q, rr)
    || (&& !c.dhcpFqdn && cut.Some? && cut.value <= |name| && '.' !in name[..cut.value]
        && HostSource(c.lookup(name[..cut.value]), true, false, name[..cut.value], q, rr))
    || HostSource(c.lookup(name), false, c.dhcpFqdn, name, q, rr)
  }

  lemma {:induction false} OthersHoldNoAddress(rs: seq<OtherRecord>, name: string, q: QType, rr: Rr)
    requires rr.AddressRr?
    ensures rr !in OtherAnswers(rs, name, q)
  {
    if rs == [] {
    } else {
      OthersHoldNoAddress(rs[..|rs| - 1], name, q, rr);
    }
  }

  lemma InEither(a: seq<Rr>, b: seq<Rr>, rr: Rr)
    ensures rr in a + b <==> rr in a || rr in b
  {
  }

  lemma {:induction false} AddrsExact(
    addrs: seq<InterfaceAddress>, z: Zone, name: string, q: QType, local: bool, rr: Rr)
    requires rr.AddressRr?
    ensures rr in AddrAnswers(addrs, z, name, q, local) <==>
            Passes(z, rr.addr, local) && exists a :: a in addrs && GivesInt(a, name, q, rr)
  {
    if addrs == [] {
    } else {
      var before, last := addrs[..|addrs| - 1], addrs[|addrs| - 1];
      assert addrs == before + [last] && forall a :: a in addrs <==> a in before || a == last;
      AddrsExact(before, z, name, q, local, rr);
      var part := if Offers(last, z, q, local) then [AddressRr(name, q == QAaaa, last.addr)] else [];
      InEither(AddrAnswers(before, z, name, q, local), part, rr);
      PassesIff(z, last.addr, local);
      assert rr in part <==> Passes(z, rr.addr, local) && GivesInt(last, name, q, rr);
    }
  }

  lemma {:induction false} IntsExact(
    ints: seq<InterfaceName>, z: Zone, name: string, q: QType, local: bool, rr: Rr)
    requires rr.AddressRr?
    ensures rr in IntAnswers(ints, z, name, q, local) <==>
            Passes(z, rr.addr, local) && IntSource(ints, name, q, rr)
  {
    if ints == [] {
    } else {
      var before, last := ints[..|ints| - 1], ints[|ints| - 1];
      assert ints == before + [last] && forall n :: n in ints <==> n in before || n == last;
      IntsExact(before, z, name, q, local, rr);
      AddrsExact(last.addrs, z, name, q, local, rr);
      var part := InterfaceRrs(Rc(name, last.name), last, z, name, q, local);
      InEither(IntAnswers(before, z, name, q, local), part, rr);
      assert rr in part <==> Passes(z, rr.addr, local) && NameSource(last, name, q, rr);
    }
  }

  lemma HostRrsExact(
    r: HostRecord, bare: bool, dhcpFqdn: bool, z: Zone, owner: string, q: QType, local: bool, rr: Rr)
    requires rr.AddressRr?
    ensures rr in HostRrs(r, bare, dhcpFqdn, z, owner, q, local) <==>
            Passes(z, rr.addr, local) && GivesHost(r, bare, dhcpFqdn, owner, q, rr)
  {
    PassesIff(z, rr.addr, local);
  }

  lemma {:induction false} HostsExact(
    rs: seq<HostRecord>, bare: bool, dhcpFqdn: bool, z: Zone, owner: string, q: QType, local: bool, rr: Rr)
    requires rr.AddressRr?
    ensures rr in HostAnswers(rs, bare, dhcpFqdn, z, owner, q, local) <==>
            Passes(z, rr.addr, local) && HostSource(rs, bare, dhcpFqdn, owner, q, rr)
  {
    if rs == [] {
    } else {
      var before, last := rs[..|rs| - 1], rs[|rs| - 1];
      assert rs == before + [last] && forall r :: r in rs <==> r in before || r == last;
      HostsExact(before, bare, dhcpFqdn, z, owner, q, local, rr);
      HostRrsExact(last, bare, dhcpFqdn, z, owner, q, local, rr);
      InEither(HostAnswers(before, bare, dhcpFqdn, z, owner, q, local),
        HostRrs(last, bare, dhcpFqdn, z, owner, q, local), rr);
    }
  }

  lemma PassExact(c: Config, z: Zone, name: string, cut: Option<nat>, q: QType, local: bool, rr: Rr)
    requires rr.AddressRr?
    ensures rr in PassAnswers(c, z, name, cut, q, local) <==>
            Passes(z, rr.addr, local) && HasSource(c, name, cut, q, rr)
  {
    OthersHoldNoAddress(c.others, name, q, rr);
    IntsExact(c.intNames, z, name, q, local, rr);
    HostsExact(BareRecords(c, name, cut), true, c.dhcpFqdn, z, BareOwner(name, cut), q, local, rr);
    HostsExact(c.lookup(name), false, c.dhcpFqdn, z, name, q, local, rr);
  }

  /** The name that an alias stands for: its target, in the zone if it has no dot. */
  function Meant(a: Alias, zone: string): string { if '.' in a.target then a.target else a.target + "." + zone }

  /** The queried name has the source, or the target of the alias that a name without records is sent to has it. */
  ghost predicate AnswerSource(c: Config, z: Zone, name: string, cut: Option<nat>, q: QType, rr: Rr) {
    || HasSource(c, name, cut, q, rr)
    || (!PassExists(c, name, cut) && ChooseAlias(c.aliases, name).alias.Some?
        && HasSource(c, Meant(ChooseAlias(c.aliases, name).alias.value, z.domain), None, q, rr))
  }

  lemma ZoneAnswerExact(c: Config, z: Zone, name: string, cut: Option<nat>, q: QType, local: bool, rr: Rr)
    requires rr.AddressRr?
    ensures var r := ZoneAnswer(c, z, name, cut, q, local);
            r.Answer? ==>
              && r.zone == z
              && (rr in r.answers <==> Passes(z, rr.addr, local) && AnswerSource(c, z, name, cut, q, rr))
  {
    var first := PassAnswers(c, z, name, cut, q, local);
    ZoneAnswerCases(c, z, name, cut, q, local, first);
    PassExact(c, z, name, cut, q, local, rr);
    var alias := ChooseAlias(c.aliases, name).alias;
    if alias.Some? {
      var target := Target(alias.value, z.domain);
      var second := PassAnswers(c, z, target, None, q, local);
      AliasAnswerIs(c, z, target, first + [CnameRr(name, target)], q, local, second);
      PassExact(c, z, target, None, q, local, rr);
    }
  }

  /** An address record is answered if and only if some source of the queried name, or of the alias target it is sent
      to, holds the address, and the filter of the zone selected for the queried name passes it. */
  lemma AnswersAreExact(c: Config, name: string, q: QType, local: bool, rr: Rr)
    requires rr.AddressRr?
    ensures var r := ForwardAnswer(c, name, q, local);
            r.Answer? ==>
              && InZone(name, r.zone.domain).Some?
              && (rr in r.answers <==>
                  && Passes(r.zone, rr.addr, local)
                  && AnswerSource(c, r.zone, name, CutOf(InZone(name, r.zone.domain).value), q, rr))
  {
    var k := SelectZone(c.zones, name);
    if k < |c.zones| {
      ZoneAnswerExact(c, c.zones[k], name, CutOf(InZone(name, c.zones[k].domain).value), q, local, rr);
    }
  }

  ghost predicate Filtered(rs: seq<Rr>, z: Zone) {
    forall i :: 0 <= i < |rs| && rs[i].AddressRr? ==> FilterZone(z, rs[i].addr)
  }

  /** Every address answered to a non-local query passes the filter of the zone selected for the queried name, also
      after following an alias out of that zone. */
  lemma AnswersAreFiltered(c: Config, name: string, q: QType)
    ensures var r := ForwardAnswer(c, name, q, false);
            r.Answer? ==> Filtered(r.answers, r.zone) && InZone(name, r.zone.domain).Some?
  {
    var r := ForwardAnswer(c, name, q, false);
    if r.Answer? {
      forall i | 0 <= i < |r.answers| && r.answers[i].AddressRr?
        ensures FilterZone(r.zone, r.answers[i].addr)
      {
        AnswersAreExact(c, name, q, false, r.answers[i]);
        PassesIff(r.zone, r.answers[i].addr, false);
      }
    }
  }

  // ----- the addresses of a zone transfer -----

  function TransferAddrs(addrs: seq<InterfaceAddress>, v6: bool, z: Zone, owner: string, local: bool): seq<Rr> {
    if addrs == [] then []
    else
      var a := addrs[|addrs| - 1];
      TransferAddrs(addrs[..|addrs| - 1], v6, z, owner, local)
      + if a.isV6 == v6 && (local || FilterZone(z, a.addr)) then [AddressRr(owner, v6, a.addr)] else []
  }

  function TransferName(n: InterfaceName, inZone: bool, z: Zone, local: bool): seq<Rr> {
    if inZone then TransferAddrs(n.addrs, false, z, n.name, local) + TransferAddrs(n.addrs, true, z, n.name, local)
    else []
  }

  function TransferInts(ints: seq<InterfaceName>, z: Zone, local: bool): seq<Rr> {
    if ints == [] then []
    else
      var n := ints[|ints| - 1];
      TransferInts(ints[..|ints| - 1], z, local) + TransferName(n, InZone(n.name, z.domain).Some?, z, local)
  }

  /** The address records one cached record contributes, given whether its address passes and its name is in the zone:
      under the zone's name for bare DHCP names, under its own name for names in the zone. */
  function RecordRrs(
    r: HostRecord, dhcpFqdn: bool, domain: string, addr: Address, passes: bool, inZone: bool): seq<Rr>
  {
    if !(r.ipv4 || r.ipv6) || r.neg || !r.forward || !passes then []
    else
      (if r.dhcp && !dhcpFqdn && '.' !in r.name then [AddressRr(r.name + "." + domain, r.ipv6, addr)] else [])
      + (if Counts(r, false, dhcpFqdn) && inZone then [AddressRr(r.name, r.ipv6, addr)] else [])
  }

  function TransferRecord(r: HostRecord, dhcpFqdn: bool, z: Zone, local: bool): seq<Rr> {
    if r.addr.None? then []
    else
      RecordRrs(
        r, dhcpFqdn, z.domain, r.addr.value, local || FilterZone(z, r.addr.value), InZone(r.name, z.domain).Some?)
  }

  function TransferRecords(rs: seq<HostRecord>, dhcpFqdn: bool, z: Zone, local: bool): seq<Rr> {
    if rs == [] then []
    else TransferRecords(rs[..|rs| - 1], dhcpFqdn, z, local) + TransferRecord(rs[|rs| - 1], dhcpFqdn, z, local)
  }

  method CollectTransferAddrs(addrs: seq<InterfaceAddress>, v6: bool, z: Zone, owner: string, local: bool)
    returns (answers: seq<Rr>)
    ensures answers == TransferAddrs(addrs, v6, z, owner, local)
  {
    answers := [];
    for i := 0 to |addrs|
      invariant answers == TransferAddrs(addrs[..i], v6, z, owner, local)
    {
      assert addrs[..i + 1][..i] == addrs[..i];
      var a := addrs[i];
      if a.isV6 == v6 && (local || FilterZone(z, a.addr)) {
        answers := answers + [AddressRr(owner, v6, a.addr)];
      }
    }
    assert addrs[..|addrs|] == addrs;
  }

  method CollectTransferInts(ints: seq<InterfaceName>, z: Zone, local: bool) returns (answers: seq<Rr>)
    ensures answers == TransferInts(ints, z, local)
  {
    answers := [];
    for i := 0 to |ints|
      invariant answers == TransferInts(ints[..i], z, local)
    {
      assert ints[..i + 1][..i] == ints[..i];
      var n := ints[i];
      if InZone(n.name, z.domain).None? {
        continue;
      }
      var v4 := CollectTransferAddrs(n.addrs, false, z, n.name, local);
      var v6 := CollectTransferAddrs(n.addrs, true, z, n.name, local);
      answers := answers + (v4 + v6);
    }
    assert ints[..|ints|] == ints;
  }

  method CollectRecord(r: HostRecord, dhcpFqdn: bool, domain: string, addr: Address, passes: bool, inZone: bool)
    returns (answers: seq<Rr>)
    ensures answers == RecordRrs(r, dhcpFqdn, domain, addr, passes, inZone)
  {
    answers := [];
    if !(r.ipv4 || r.ipv6) || r.neg || !r.forward {
      return;
    }
    if r.dhcp && !dhcpFqdn && '.' !in r.name && passes {
      answers := answers + [AddressRr(r.name + "." + domain, r.ipv6, addr)];
    }
    if (r.hosts || (r.dhcp && dhcpFqdn)) && inZone && passes {
      answers := answers + [AddressRr(r.name, r.ipv6, addr)];
    }
  }

  method CollectRecords(rs: seq<HostRecord>, dhcpFqdn: bool, z: Zone, local: bool) returns (answers: seq<Rr>)
    ensures answers == TransferRecords(rs, dhcpFqdn, z, local)
  {
    answers := [];
    for i := 0 to |rs|
      invariant answers == TransferRecords(rs[..i], dhcpFqdn, z, local)
    {
      assert rs[..i + 1][..i] == rs[..i];
      if rs[i].addr.None? {
        continue;
      }
      var addr := rs[i].addr.value;
      var passes, inZone := local || FilterZone(z, addr), InZone(rs[i].name, z.domain).Some?;
      var more := CollectRecord(rs[i], dhcpFqdn, z.domain, addr, passes, inZone);
      answers := answers + more;
    }
    assert rs[..|rs|] == rs;
  }

  /** The address records of a zone transfer, in the order `build_auth_section` writes them: interface names, then the
      live cache. */
  method CollectTransfer(c: Config, z: Zone, local: bool) returns (answers: seq<Rr>)
    ensures answers == TransferAnswers(c, z, local)
  {
    var ints := CollectTransferInts(c.intNames, z, local);
    var live := CollectRecords(c.live, c.dhcpFqdn, z, local);
    answers := ints + live;
  }

  ghost predicate HoldsAddress(n: InterfaceName, rr: Rr) {
    exists a :: a in n.addrs && rr == AddressRr(n.name, a.isV6, a.addr)
  }

  /** An interface name of the zone holds the address. */
  ghost predicate TransfersInt(n: InterfaceName, z: Zone, rr: Rr) {
    InZone(n.name, z.domain).Some? && HoldsAddress(n, rr)
  }

  /** A cached record holds the address: a bare DHCP name, put under the zone's name, or a name of the zone itself. */
  predicate TransfersRecord(r: HostRecord, dhcpFqdn: bool, z: Zone, rr: Rr) {
    && (r.ipv4 || r.ipv6) && !r.neg && r.forward && r.addr.Some?
    && rr.AddressRr? && rr.v6 == r.ipv6 && rr.addr == r.addr.value
    && (|| (r.dhcp && !dhcpFqdn && '.' !in r.name && rr.owner == r.name + "." + z.domain)
        || ((r.hosts || (r.dhcp && dhcpFqdn)) && InZone(r.name, z.domain).Some? && rr.owner == r.name))
  }

  lemma {:induction false} TransferAddrsExact(
    addrs: seq<InterfaceAddress>, v6: bool, z: Zone, owner: string, local: bool, rr: Rr)
    requires rr.AddressRr?
    ensures rr in TransferAddrs(addrs, v6, z, owner, local) <==>
            && Passes(z, rr.addr, local) && rr.v6 == v6
            && exists a :: a in addrs && rr == AddressRr(owner, a.isV6, a.addr)
  {
    if addrs == [] {
    } else {
      var before, last := addrs[..|addrs| - 1], addrs[|addrs| - 1];
      assert addrs == before + [last] && forall a :: a in addrs <==> a in before || a == last;
      TransferAddrsExact(before, v6, z, owner, local, rr);
      PassesIff(z, last.addr, local);
      var part := if last.isV6 == v6 && Passes(z, last.addr, local) then [AddressRr(owner, v6, last.addr)] else [];
      InEither(TransferAddrs(before, v6, z, owner, local), part, rr);
    }
  }

  lemma TransferNameExact(n: InterfaceName, inZone: bool, z: Zone, local: bool, rr: Rr)
    requires rr.AddressRr?
    ensures rr in TransferName(n, inZone, z, local) <==> Passes(z, rr.addr, local) && inZone && HoldsAddress(n, rr)
  {
    TransferAddrsExact(n.addrs, false, z, n.name, local, rr);
    TransferAddrsExact(n.addrs, true, z, n.name, local, rr);
    InEither(TransferAddrs(n.addrs, false, z, n.name, local), TransferAddrs(n.addrs, true, z, n.name, local), rr);
  }

  ghost predicate TransferSource(ints: seq<InterfaceName>, z: Zone, rr: Rr) {
    exists n :: n in ints && TransfersInt(n, z, rr)
  }

  lemma TransferSourceStep(before: seq<InterfaceName>, last: InterfaceName, z: Zone, rr: Rr)
    ensures TransferSource(before + [last], z, rr) <==> TransferSource(before, z, rr) || TransfersInt(last, z, rr)
  {
    assert forall n :: n in before + [last] <==> n in before || n == last;
  }

  lemma TransferIntsStep(before: seq<InterfaceName>, last: InterfaceName, z: Zone, local: bool)
    ensures TransferInts(before + [last], z, local)
         == TransferInts(before, z, local) + TransferName(last, InZone(last.name, z.domain).Some?, z, local)
  {
    assert (before + [last])[..|before|] == before;
  }

  lemma {:induction false} TransferIntsExact(ints: seq<InterfaceName>, z: Zone, local: bool, rr: Rr)
    requires rr.AddressRr?
    ensures rr in TransferInts(ints, z, local) <==> Passes(z, rr.addr, local) && TransferSource(ints, z, rr)
  {
    if ints == [] {
    } else {
      var before, last := ints[..|ints| - 1], ints[|ints| - 1];
      assert ints == before + [last];
      TransferIntsExact(before, z, local, rr);
      TransferIntsStep(before, last, z, local);
      TransferSourceStep(before, last, z, rr);
      var inZone := InZone(last.name, z.domain).Some?;
      TransferNameExact(last, inZone, z, local, rr);
      InEither(TransferInts(before, z, local), TransferName(last, inZone, z, local), rr);
    }
  }

  lemma RecordRrsExact(
    r: HostRecord, dhcpFqdn: bool, domain: string, addr: Address, passes: bool, inZone: bool, rr: Rr)
    requires rr.AddressRr?
    ensures rr in RecordRrs(r, dhcpFqdn, domain, addr, passes, inZone) <==>
            && (r.ipv4 || r.ipv6) && !r.neg && r.forward && passes && rr.v6 == r.ipv6 && rr.addr == addr
            && (|| (r.dhcp && !dhcpFqdn && '.' !in r.name && rr.owner == r.name + "." + domain)
                || (Counts(r, false, dhcpFqdn) && inZone && rr.owner == r.name))
  {
  }

  lemma TransferRecordExact(r: HostRecord, dhcpFqdn: bool, z: Zone, local: bool, rr: Rr)
    requires rr.AddressRr?
    ensures rr in TransferRecord(r, dhcpFqdn, z, local) <==>
            Passes(z, rr.addr, local) && TransfersRecord(r, dhcpFqdn, z, rr)
  {
    if r.addr.Some? {
      PassesIff(z, r.addr.value, local);
      RecordRrsExact(r, dhcpFqdn, z.domain, r.addr.value, local || FilterZone(z, r.addr.value),
        InZone(r.name, z.domain).Some?, rr);
    }
  }

  lemma {:induction false} TransferRecordsExact(rs: seq<HostRecord>, dhcpFqdn: bool, z: Zone, local: bool, rr: Rr)
    requires rr.AddressRr?
    ensures rr in TransferRecords(rs, dhcpFqdn, z, local) <==>
            Passes(z, rr.addr, local) && exists r :: r in rs && TransfersRecord(r, dhcpFqdn, z, rr)
  {
    if rs == [] {
    } else {
      var before, last := rs[..|rs| - 1], rs[|rs| - 1];
      assert rs == before + [last] && forall r :: r in rs <==> r in before || r == last;
      TransferRecordsExact(before, dhcpFqdn, z, local, rr);
      TransferRecordExact(last, dhcpFqdn, z, local, rr);
      InEither(TransferRecords(before, dhcpFqdn, z, local), TransferRecord(last, dhcpFqdn, z, local), rr);
    }
  }

  function TransferAnswers(c: Config, z: Zone, local: bool): seq<Rr> {
    TransferInts(c.intNames, z, local) + TransferRecords(c.live, c.dhcpFqdn, z, local)
  }

  /** An address record is transferred if and only if an interface name of the zone or a live record of the zone holds
      the address and the filter passes it. */
  lemma TransferIsExact(c: Config, z: Zone, local: bool, rr: Rr)
    requires rr.AddressRr?
    ensures rr in TransferAnswers(c, z, local) <==>
            && Passes(z, rr.addr, local)
            && (|| TransferSource(c.intNames, z, rr)
                || (exists r :: r in c.live && TransfersRecord(r, c.dhcpFqdn, z, rr)))
  {
    TransferIntsExact(c.intNames, z, local, rr);
    TransferRecordsExact(c.live, c.dhcpFqdn, z, local, rr);
  }

  /** Every address of a zone transfer to a non-local peer passes the zone's filter. */
  lemma TransferIsFiltered(c: Config, z: Zone)
    ensures Filtered(TransferAnswers(c, z, false), z)
  {
    var rs := TransferAnswers(c, z, false);
    forall i | 0 <= i < |rs| && rs[i].AddressRr?
      ensures FilterZone(z, rs[i].addr)
    {
      TransferIsExact(c, z, false, rs[i]);
      PassesIff(z, rs[i].addr, false);
    }
  }
}
