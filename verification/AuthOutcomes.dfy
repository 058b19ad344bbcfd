/** When an authoritative query is refused, dropped, answered or denied, in terms of the configuration. */
module AuthOutcomes {
  import opened Basics
  import opened Names
  import opened Zones
  import opened AuthAnswers

  /** A query is refused if and only if no configured zone contains the name. */
  lemma RefusedIff(c: Config, name: string, q: QType, local: bool)
    ensures ForwardAnswer(c, name, q, local) == Refused <==>
            forall i :: 0 <= i < |c.zones| ==> InZone(name, c.zones[i].domain).None?
  {
    var k := SelectZone(c.zones, name);
    forall i | 0 <= i < k
      ensures InZone(name, c.zones[i].domain).None?
    {
      SelectsFirst(c.zones, name, i);
    }
    if k < |c.zones| {
      ZoneAnswerIsNotRefused(c, c.zones[k], name, CutOf(InZone(name, c.zones[k].domain).value), q, local);
    }
  }

  lemma ZoneAnswerIsNotRefused(c: Config, z: Zone, name: string, cut: Option<nat>, q: QType, local: bool)
    ensures ZoneAnswer(c, z, name, cut, q, local) != Refused
  {
  }

  /** Otherwise the first zone containing the name decides, and an answer is from that zone. */
  lemma FirstZoneDecides(c: Config, name: string, q: QType, local: bool, k: nat)
    requires k < |c.zones| && InZone(name, c.zones[k].domain).Some?
    requires forall i :: 0 <= i < k ==> InZone(name, c.zones[i].domain).None?
    ensures var r := ForwardAnswer(c, name, q, local);
            && r == ZoneAnswer(c, c.zones[k], name, CutOf(InZone(name, c.zones[k].domain).value), q, local)
            && (r.Dropped? || (r.Answer? && r.zone == c.zones[k]))
  {
    SelectedIs(c.zones, name, k);
    ZoneAnswerKinds(c, c.zones[k], name, CutOf(InZone(name, c.zones[k].domain).value), q, local);
  }

  lemma SelectedIs(zones: seq<Zone>, name: string, k: nat)
    requires k < |zones| && InZone(name, zones[k].domain).Some?
    requires forall i :: 0 <= i < k ==> InZone(name, zones[i].domain).None?
    ensures SelectZone(zones, name) == k
  {
    var selected := SelectZone(zones, name);
    if k < selected {
      SelectsFirst(zones, name, k);
    }
  }

  lemma ZoneAnswerKinds(c: Config, z: Zone, name: string, cut: Option<nat>, q: QType, local: bool)
    ensures var r := ZoneAnswer(c, z, name, cut, q, local); r.Dropped? || (r.Answer? && r.zone == z)
  {
  }

  // ----- when a name exists -----

  /** The name is the domain or lies below it. */
  ghost predicate AtOrBelow(name: string, domain: string) {
    exists at :: 0 <= at <= |name| && (at == 0 || name[at - 1] == '.') && SameName(name[at..], domain)
  }

  lemma RcMeaning(name: string, domain: string)
    ensures Rc(name, domain) == 2 <==> SameName(name, domain)
    ensures Rc(name, domain) != 0 <==> AtOrBelow(name, domain)
  {
    assert |Lower(domain)| == |domain| && name[0..] == name;
    if |name| > |domain| && name[|name| - |domain| - 1] == '.' && SameName(name[|name| - |domain|..], domain) {
      var at := |name| - |domain|;
      assert name[at - 1] == '.' && SameName(name[at..], domain);
    }
    forall at | 0 <= at <= |name| && (at == 0 || name[at - 1] == '.') && SameName(name[at..], domain)
      ensures Rc(name, domain) != 0
    {
      assert |Lower(name[at..])| == |name| - at;
    }
  }

  lemma {:induction false} OthersExistIff(rs: seq<OtherRecord>, name: string)
    ensures OthersExist(rs, name) <==> exists i :: 0 <= i < |rs| && AtOrBelow(name, rs[i].name)
  {
    if rs == [] {
    } else {
      var before, last := rs[..|rs| - 1], rs[|rs| - 1];
      OthersExistIff(before, name);
      RcMeaning(name, last.name);
      assert rs == before + [last];
      OneMoreOther(before, last, name);
    }
  }

  lemma OneMoreOther(before: seq<OtherRecord>, last: OtherRecord, name: string)
    ensures var rs := before + [last];
            (exists i :: 0 <= i < |rs| && AtOrBelow(name, rs[i].name)) <==>
            (exists i :: 0 <= i < |before| && AtOrBelow(name, before[i].name)) || AtOrBelow(name, last.name)
  {
    var rs := before + [last];
    assert rs[|before|] == last && forall i :: 0 <= i < |before| ==> rs[i] == before[i];
  }

  lemma {:induction false} IntsExistIff(ints: seq<InterfaceName>, name: string)
    ensures IntsExist(ints, name) <==> exists i :: 0 <= i < |ints| && AtOrBelow(name, ints[i].name)
  {
    if ints == [] {
    } else {
      var before, last := ints[..|ints| - 1], ints[|ints| - 1];
      IntsExistIff(before, name);
      RcMeaning(name, last.name);
      assert ints == before + [last];
      OneMoreInt(before, last, name);
    }
  }

  lemma OneMoreInt(before: seq<InterfaceName>, last: InterfaceName, name: string)
    ensures var ints := before + [last];
            (exists i :: 0 <= i < |ints| && AtOrBelow(name, ints[i].name)) <==>
            (exists i :: 0 <= i < |before| && AtOrBelow(name, before[i].name)) || AtOrBelow(name, last.name)
  {
    var ints := before + [last];
    assert ints[|before|] == last && forall i :: 0 <= i < |before| ==> ints[i] == before[i];
  }

  lemma {:induction false} HostsExistIff(rs: seq<HostRecord>, bare: bool, dhcpFqdn: bool)
    ensures HostsExist(rs, bare, dhcpFqdn) <==>
            exists i :: 0 <= i < |rs| && if bare then rs[i].dhcp else rs[i].hosts || (rs[i].dhcp && dhcpFqdn)
  {
    if rs == [] {
    } else {
      var before := rs[..|rs| - 1];
      HostsExistIff(before, bare, dhcpFqdn);
      assert forall i :: 0 <= i < |before| ==> before[i] == rs[i];
    }
  }

  /** Something is configured or cached at or above the name: a record, an interface name, a hosts record of the name,
      or a DHCP record of it, under the full name or, where those are kept under bare names, under the label at the
      cut. */
  ghost predicate Exists(c: Config, name: string, cut: Option<nat>) {
    || (exists i :: 0 <= i < |c.others| && AtOrBelow(name, c.others[i].name))
    || (exists i :: 0 <= i < |c.intNames| && AtOrBelow(name, c.intNames[i].name))
    || (exists i :: 0 <= i < |c.lookup(name)| && c.lookup(name)[i].hosts)
    || (c.dhcpFqdn && exists i :: 0 <= i < |c.lookup(name)| && c.lookup(name)[i].dhcp)
    || (!c.dhcpFqdn && cut.Some? && cut.value <= |name| && '.' !in name[..cut.value]
        && exists i :: 0 <= i < |c.lookup(name[..cut.value])| && c.lookup(name[..cut.value])[i].dhcp)
  }

  lemma PassExistsIff(c: Config, name: string, cut: Option<nat>)
    ensures PassExists(c, name, cut) <==> cut.None? || Exists(c, name, cut)
  {
    OthersExistIff(c.others, name);
    IntsExistIff(c.intNames, name);
    HostsExistIff(BareRecords(c, name, cut), true, c.dhcpFqdn);
    HostsExistIff(c.lookup(name), false, c.dhcpFqdn);
  }

  /** The alias is the name itself, or a star in front of a proper ending of the name that begins with a dot. */
  ghost predicate AliasMatches(alias: string, name: string) {
    if alias != "" && alias[0] == '*' then
      exists at :: 0 <= at < |name| && name[at] == '.' && SameName(name[at..], alias[1..])
    else name != "" && SameName(alias, name)
  }

  lemma WildcardMatchesIff(alias: string, name: string)
    requires alias != "" && alias[0] == '*'
    ensures WildcardMatches(alias, name) <==> AliasMatches(alias, name)
  {
    var n := |alias| - 1;
    if WildcardMatches(alias, name) {
      var at := |name| - n;
      assert name[at] == '.' && SameName(name[at..], alias[1..]);
    }
    forall at | 0 <= at < |name| && name[at] == '.' && SameName(name[at..], alias[1..])
      ensures WildcardMatches(alias, name)
    {
      SameNameSameLength(name[at..], alias[1..]);
    }
  }

  lemma NoAliasIff(aliases: seq<Alias>, name: string)
    ensures ChooseAlias(aliases, name).alias.None? <==>
            forall i :: 0 <= i < |aliases| ==> !AliasMatches(aliases[i].alias, name)
  {
    AliasPreference(aliases, name);
    var exact, wild := FirstExact(aliases, name), FirstWildcard(aliases, name);
    forall i | 0 <= i < |aliases|
      ensures AliasMatches(aliases[i].alias, name) <==>
              WildcardMatches(aliases[i].alias, name) || (name != "" && IsExact(aliases[i], name))
    {
      if aliases[i].alias != "" && aliases[i].alias[0] == '*' {
        WildcardMatchesIff(aliases[i].alias, name);
      }
    }
  }

  /** Nothing exists at or above the name, and no alias matches it. */
  ghost predicate Nowhere(c: Config, name: string, cut: Option<nat>) {
    !Exists(c, name, cut) && forall i :: 0 <= i < |c.aliases| ==> !AliasMatches(c.aliases[i].alias, name)
  }

  lemma ZoneDeniedIff(c: Config, z: Zone, name: string, cut: Option<nat>, q: QType, local: bool)
    ensures var r := ZoneAnswer(c, z, name, cut, q, local);
            r.Answer? ==> r.zone == z && (r.nxdomain <==> cut.Some? && Nowhere(c, name, cut) && !c.nonTerminal(name))
  {
    ZoneAnswerCases(c, z, name, cut, q, local, PassAnswers(c, z, name, cut, q, local));
    PassExistsIff(c, name, cut);
    NoAliasIff(c.aliases, name);
  }

  /** An answer denies the name if and only if the name is not the zone's own, nothing exists at or above it, no alias
      matches it, and it is no intermediate name. */
  lemma DeniedIff(c: Config, name: string, q: QType, local: bool)
    ensures var r := ForwardAnswer(c, name, q, local);
            r.Answer? ==>
              && InZone(name, r.zone.domain).Some?
              && (r.nxdomain <==>
                  && InZone(name, r.zone.domain).value.Cut?
                  && Nowhere(c, name, CutOf(InZone(name, r.zone.domain).value))
                  && !c.nonTerminal(name))
  {
    var k := SelectZone(c.zones, name);
    if k < |c.zones| {
      ZoneDeniedIff(c, c.zones[k], name, CutOf(InZone(name, c.zones[k].domain).value), q, local);
    }
  }

  lemma ZoneDroppedIff(c: Config, z: Zone, name: string, cut: Option<nat>, q: QType, local: bool)
    ensures ZoneAnswer(c, z, name, cut, q, local) == Dropped <==>
            && q == QAxfr && !c.mayTransfer
            && (|| cut.None?
                || (&& !Exists(c, name, cut)
                    && exists i :: 0 <= i < |c.aliases| && AliasMatches(c.aliases[i].alias, name)))
  {
    ZoneAnswerCases(c, z, name, cut, q, local, PassAnswers(c, z, name, cut, q, local));
    PassExistsIff(c, name, cut);
    NoAliasIff(c.aliases, name);
  }

  /** A query is dropped if and only if it asks for a transfer without permission, at the apex or at a name with nothing
      of its own that an alias sends elsewhere. */
  lemma DroppedIff(c: Config, name: string, q: QType, local: bool, k: nat)
    requires k < |c.zones| && InZone(name, c.zones[k].domain).Some?
    requires forall i :: 0 <= i < k ==> InZone(name, c.zones[i].domain).None?
    ensures var cut := CutOf(InZone(name, c.zones[k].domain).value);
            ForwardAnswer(c, name, q, local) == Dropped <==>
              && q == QAxfr && !c.mayTransfer
              && (|| cut.None?
                  || (&& !Exists(c, name, cut)
                      && exists i :: 0 <= i < |c.aliases| && AliasMatches(c.aliases[i].alias, name)))
  {
    FirstZoneDecides(c, name, q, local, k);
    ZoneDroppedIff(c, c.zones[k], name, CutOf(InZone(name, c.zones[k].domain).value), q, local);
  }

  // ----- records that are no addresses -----

  /** A configured record of the name and type has this data. */
  ghost predicate OtherSource(rs: seq<OtherRecord>, name: string, q: QType, rr: Rr) {
    exists i :: 0 <= i < |rs| && SameName(name, rs[i].name) && rs[i].qtype == q && rr == OtherRr(name, q, rs[i].rdata)
  }

  lemma {:induction false} OtherAnswersExact(rs: seq<OtherRecord>, name: string, q: QType, rr: Rr)
    ensures rr in OtherAnswers(rs, name, q) <==> OtherSource(rs, name, q, rr)
  {
    if rs == [] {
    } else {
      var before, last := rs[..|rs| - 1], rs[|rs| - 1];
      OtherAnswersExact(before, name, q, rr);
      RcMeaning(name, last.name);
      assert forall i :: 0 <= i < |before| ==> before[i] == rs[i];
      var part := if Rc(name, last.name) == 2 && last.qtype == q then [OtherRr(name, q, last.rdata)] else [];
      InEither(OtherAnswers(before, name, q), part, rr);
    }
  }

  lemma {:induction false} AddrsAreAddresses(
    addrs: seq<InterfaceAddress>, z: Zone, name: string, q: QType, local: bool, rr: Rr)
    requires !rr.AddressRr?
    ensures rr !in AddrAnswers(addrs, z, name, q, local)
  {
    if addrs == [] {
    } else {
      AddrsAreAddresses(addrs[..|addrs| - 1], z, name, q, local, rr);
    }
  }

  lemma {:induction false} IntsAreAddresses(
    ints: seq<InterfaceName>, z: Zone, name: string, q: QType, local: bool, rr: Rr)
    requires !rr.AddressRr?
    ensures rr !in IntAnswers(ints, z, name, q, local)
  {
    if ints == [] {
    } else {
      var before, last := ints[..|ints| - 1], ints[|ints| - 1];
      IntsAreAddresses(before, z, name, q, local, rr);
      AddrsAreAddresses(last.addrs, z, name, q, local, rr);
      InEither(IntAnswers(before, z, name, q, local), InterfaceRrs(Rc(name, last.name), last, z, name, q, local), rr);
    }
  }

  lemma {:induction false} HostsAreAddresses(
    rs: seq<HostRecord>, bare: bool, dhcpFqdn: bool, z: Zone, owner: string, q: QType, local: bool, rr: Rr)
    requires !rr.AddressRr?
    ensures rr !in HostAnswers(rs, bare, dhcpFqdn, z, owner, q, local)
  {
    if rs == [] {
    } else {
      HostsAreAddresses(rs[..|rs| - 1], bare, dhcpFqdn, z, owner, q, local, rr);
    }
  }

  lemma OtherPassExact(c: Config, z: Zone, name: string, cut: Option<nat>, q: QType, local: bool, rr: Rr)
    requires !rr.AddressRr?
    ensures rr in PassAnswers(c, z, name, cut, q, local) <==> OtherSource(c.others, name, q, rr)
  {
    OtherAnswersExact(c.others, name, q, rr);
    IntsAreAddresses(c.intNames, z, name, q, local, rr);
    HostsAreAddresses(BareRecords(c, name, cut), true, c.dhcpFqdn, z, BareOwner(name, cut), q, local, rr);
    HostsAreAddresses(c.lookup(name), false, c.dhcpFqdn, z, name, q, local, rr);
  }

  /** A record that is no address is answered if and only if it is a configured record of the queried name and type, or,
      when nothing exists at or above the name and it is not the apex, the alias that is chosen, or a configured record
      of what that stands for. */
  lemma RecordsAreExact(c: Config, name: string, q: QType, local: bool, rr: Rr)
    requires !rr.AddressRr?
    ensures var r := ForwardAnswer(c, name, q, local);
            r.Answer? ==>
              var place := InZone(name, r.zone.domain);
              && place.Some?
              && (rr in r.answers <==>
                  || OtherSource(c.others, name, q, rr)
                  || (&& place.value.Cut? && !Exists(c, name, CutOf(place.value))
                      && match ChooseAlias(c.aliases, name).alias
                         case None => false
                         case Some(a) =>
                           || rr == CnameRr(name, Meant(a, r.zone.domain))
                           || OtherSource(c.others, Meant(a, r.zone.domain), q, rr)))
  {
    var k := SelectZone(c.zones, name);
    if k < |c.zones| {
      var z := c.zones[k];
      var cut := CutOf(InZone(name, z.domain).value);
      ZoneRecordsExact(c, z, name, cut, q, local, rr);
      PassExistsIff(c, name, cut);
    }
  }

  lemma ZoneRecordsExact(c: Config, z: Zone, name: string, cut: Option<nat>, q: QType, local: bool, rr: Rr)
    requires !rr.AddressRr?
    ensures var r := ZoneAnswer(c, z, name, cut, q, local);
            r.Answer? ==>
              && r.zone == z
              && (rr in r.answers <==>
                  || OtherSource(c.others, name, q, rr)
                  || (!PassExists(c, name, cut)
                      && match ChooseAlias(c.aliases, name).alias
                         case None => false
                         case Some(a) =>
                           rr == CnameRr(name, Meant(a, z.domain)) || OtherSource(c.others, Meant(a, z.domain), q, rr)))
  {
    var first := PassAnswers(c, z, name, cut, q, local);
    ZoneAnswerCases(c, z, name, cut, q, local, first);
    OtherPassExact(c, z, name, cut, q, local, rr);
    var alias := ChooseAlias(c.aliases, name).alias;
    if alias.Some? {
      var target := Target(alias.value, z.domain);
      var second := PassAnswers(c, z, target, None, q, local);
      AliasAnswerIs(c, z, target, first + [CnameRr(name, target)], q, local, second);
      OtherPassExact(c, z, target, None, q, local, rr);
    }
  }
}
