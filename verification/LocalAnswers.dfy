/** Answers made from the table itself (`is_local_answer`, `make_local_answer`). */
module LocalAnswers {
  import opened Names
  import opened Servers
  import opened ServerTable
  import opened ServerFilter

  datatype Verdict = NotLocal | Ipv4 | Ipv6 | BothFamilies | NoErr | NxDomain

  /** Some entry of the group of `e` has an address. */
  ghost predicate GroupHasAddress(s: seq<ServerEntry>, e: ServerEntry) {
    exists i :: 0 <= i < |s| && SameGroup(e, s[i]) && s[i].flags.HasAddress()
  }

  /** The group has plain entries, none with an address, and a wildcard entry that has one. */
  ghost predicate AddressOnlyOnWildcard(s: seq<ServerEntry>, e: ServerEntry) {
    && (exists i :: 0 <= i < |s| && SameGroup(e, s[i]) && !s[i].flags.wildcard)
    && (forall i :: 0 <= i < |s| && SameGroup(e, s[i]) && !s[i].flags.wildcard ==> !s[i].flags.HasAddress())
    && GroupHasAddress(s, e)
  }

  /** What `is_local_answer` says of position `first`. */
  function VerdictOf(s: seq<ServerEntry>, first: nat, locallyKnown: bool): Verdict {
    if first >= |s| || !s[first].flags.literal then NotLocal
    else if s[first].flags.addr4 then Ipv4
    else if s[first].flags.addr6 then Ipv6
    else if s[first].flags.allZeros then BothFamilies
    else
      var head := GroupOf(s, s[first]).lo;
      if (head < |s| && s[head].flags.HasAddress()) || locallyKnown then NoErr else NxDomain
  }

  /** `is_local_answer`: a literal entry without an address of its own rolls back to the first entry of its group. */
  method IsLocalAnswer(arr: ServerArray, first: nat, locallyKnown: bool) returns (v: Verdict)
    requires Sorted(arr.entries)
    ensures v == VerdictOf(arr.entries, first, locallyKnown)
    ensures v == NotLocal <==> first >= |arr.entries| || !arr.entries[first].flags.literal
    ensures v != NotLocal && arr.entries[first].flags.HasAddress() ==>
              v == if arr.entries[first].flags.addr4 then Ipv4
                   else if arr.entries[first].flags.addr6 then Ipv6 else BothFamilies
    ensures first < |arr.entries| ==> GroupOf(arr.entries, arr.entries[first]).lo < |arr.entries|
    ensures v != NotLocal && !arr.entries[first].flags.HasAddress() ==>
              var head := arr.entries[GroupOf(arr.entries, arr.entries[first]).lo];
              v == if head.flags.HasAddress() || locallyKnown then NoErr else NxDomain
  {
    var s := arr.entries;
    if first >= |s| {
      return NotLocal;
    }
    SameGroupMeaning(s[first], s[first]);
    GroupOfIsGroup(s, s[first]);
    if !s[first].flags.literal {
      return NotLocal;
    }
    if s[first].flags.addr4 {
      return Ipv4;
    }
    if s[first].flags.addr6 {
      return Ipv6;
    }
    if s[first].flags.allZeros {
      return BothFamilies;
    }
    var i := first;
    while i > 0 && SameGroup(s[i - 1], s[i])
      invariant i <= first && SameGroup(s[first], s[i])
    {
      GroupStepsAgree(s[first], s[i - 1], s[i]);
      i := i - 1;
    }
    if i > 0 {
      GroupStepsAgree(s[first], s[i - 1], s[i]);
    }
    assert i == GroupOf(s, s[first]).lo;
    v := if s[i].flags.HasAddress() || locallyKnown then NoErr else NxDomain;
  }

  lemma AddressFollowsTypeBits(a: ServerEntry, b: ServerEntry)
    requires a.flags.TypeBits() >= b.flags.TypeBits()
    ensures b.flags.HasAddress() ==> a.flags.HasAddress()
  {
  }

  /** The first entry of a group speaks for the whole group except in exactly one case: the only addresses
      are on wildcard entries, behind plain entries without one. */
  lemma FirstEntrySpeaksForGroup(s: seq<ServerEntry>, e: ServerEntry)
    requires Sorted(s) && NodotsAreEmpty(s) && e in s
    ensures GroupOf(s, e).lo < |s|
    ensures (s[GroupOf(s, e).lo].flags.HasAddress() <==> GroupHasAddress(s, e)) <==> !AddressOnlyOnWildcard(s, e)
  {
    var g := GroupOf(s, e);
    GroupOfIsGroup(s, e);
    var at :| 0 <= at < |s| && s[at] == e;
    SameGroupMeaning(e, e);
    assert SameGroup(e, s[at]);
    assert SameGroup(e, s[g.lo]);
    forall i | 0 <= i < |s| && SameGroup(e, s[i])
      ensures g.lo <= i
      ensures s[i].flags.wildcard == s[g.lo].flags.wildcard && s[i].flags.HasAddress() ==> s[g.lo].flags.HasAddress()
      ensures s[g.lo].flags.wildcard ==> s[i].flags.wildcard
    {
      HeadComesFirst(s, e, g.lo, i);
    }
  }

  /** Such a table: a plain "lan" without an address hides the address configured for "*lan". */
  lemma WildcardAddressIsMissed()
    ensures var plain := ServerEntry("lan", NO_FLAGS.(literal := true), 0, 0, true);
            var wild := ServerEntry("lan", NO_FLAGS.(literal := true, addr4 := true, wildcard := true), 0, 1, true);
            var s := [plain, wild];
            && Sorted(s) && NodotsAreEmpty(s)
            && GroupHasAddress(s, plain) && !s[GroupOf(s, plain).lo].flags.HasAddress()
  {
    var plain := ServerEntry("lan", NO_FLAGS.(literal := true), 0, 0, true);
    var wild := ServerEntry("lan", NO_FLAGS.(literal := true, addr4 := true, wildcard := true), 0, 1, true);
    var s := [plain, wild];
    OrderEqualIsSameName("lan", "lan");
    SameGroupMeaning(plain, plain);
    SameGroupMeaning(plain, wild);
    assert s[1] == wild;
  }

  lemma HeadComesFirst(s: seq<ServerEntry>, e: ServerEntry, h: nat, i: nat)
    requires Sorted(s) && NodotsAreEmpty(s) && h <= i < |s|
    requires SameGroup(e, s[h]) && SameGroup(e, s[i])
    ensures s[i].flags.wildcard == s[h].flags.wildcard && s[i].flags.HasAddress() ==> s[h].flags.HasAddress()
    ensures s[h].flags.wildcard ==> s[i].flags.wildcard
  {
    SameGroupMeaning(e, s[h]);
    SameGroupMeaning(e, s[i]);
    assert s[h] in s && s[i] in s;
    OrderEqualIsSameName(s[h].domain, s[i].domain);
    assert |Lower(s[h].domain)| == |s[h].domain| && |Lower(s[i].domain)| == |s[i].domain|;
    if h < i {
      assert CompareEntries(s[h], s[i]) != Greater;
      if s[h].flags.wildcard == s[i].flags.wildcard {
        AddressFollowsTypeBits(s[h], s[i]);
      }
    }
  }

  // ----- the records -----

  const T_A := 1
  const T_AAAA := 28

  datatype Rr = Rr(name: string, rtype: nat, ttl: nat, rdata: seq<int>)

  /** The record of one family that an entry contributes, if any. */
  function RecordOf(e: ServerEntry, locals: seq<Server>, v6: bool, name: string, ttl: nat): seq<Rr> {
    if e.flags.allZeros then [Rr(name, if v6 then T_AAAA else T_A, ttl, seq(if v6 then 16 else 4, _ => 0))]
    else if e.index < |locals| && locals[e.index].addr.V6? == v6
    then [Rr(name, if v6 then T_AAAA else T_A, ttl, locals[e.index].addr.ip)]
    else []
  }

  function Records(es: seq<ServerEntry>, locals: seq<Server>, v6: bool, name: string, ttl: nat): seq<Rr> {
    if es == [] then [] else RecordOf(es[0], locals, v6, name, ttl) + Records(es[1..], locals, v6, name, ttl)
  }

  /** The entry gives this record of the family: the unspecified address for 0.0.0.0, otherwise its configured address
      if that is of the family. */
  predicate Gives(e: ServerEntry, locals: seq<Server>, v6: bool, name: string, ttl: nat, rr: Rr) {
    && rr.name == name && rr.rtype == (if v6 then 28 else 1) && rr.ttl == ttl
    && if e.flags.allZeros then rr.rdata == seq(if v6 then 16 else 4, _ => 0)
       else e.index < |locals| && (if v6 then locals[e.index].addr.V6? else locals[e.index].addr.V4?)
            && rr.rdata == locals[e.index].addr.ip
  }

  /** A record is made from a list of entries if and only if one of them gives it. */
  lemma {:induction false} RecordsExact(
    es: seq<ServerEntry>, locals: seq<Server>, v6: bool, name: string, ttl: nat, rr: Rr)
    ensures rr in Records(es, locals, v6, name, ttl) <==>
            exists i :: 0 <= i < |es| && Gives(es[i], locals, v6, name, ttl, rr)
  {
    if es == [] {
    } else {
      RecordsExact(es[1..], locals, v6, name, ttl, rr);
      assert rr in RecordOf(es[0], locals, v6, name, ttl) <==> Gives(es[0], locals, v6, name, ttl, rr);
      assert forall i :: 0 < i < |es| ==> es[i] == es[1..][i - 1];
      assert forall i :: 0 <= i < |es[1..]| ==> es[1..][i] == es[i + 1];
    }
  }

  lemma {:induction false} RecordsAppend(
    es: seq<ServerEntry>, e: ServerEntry, locals: seq<Server>, v6: bool, name: string, ttl: nat)
    ensures Records(es + [e], locals, v6, name, ttl)
         == Records(es, locals, v6, name, ttl) + RecordOf(e, locals, v6, name, ttl)
  {
    if es == [] {
      assert Records([e][1..], locals, v6, name, ttl) == [];
      assert es + [e] == [e];
    } else {
      assert (es + [e])[1..] == es[1..] + [e];
      RecordsAppend(es[1..], e, locals, v6, name, ttl);
    }
  }

  /** The entries of a range, without the positions past the table. */
  function InRange(s: seq<ServerEntry>, first: nat, last: nat): seq<ServerEntry> {
    if first >= last || first >= |s| then [] else s[first..if last <= |s| then last else |s|]
  }

  lemma StepAnswers(s: seq<ServerEntry>, locals: seq<Server>, first: nat, i: nat, v6: bool, name: string, ttl: nat)
    requires first <= i
    ensures Records(InRange(s, first, i + 1), locals, v6, name, ttl)
         == Records(InRange(s, first, i), locals, v6, name, ttl)
            + if i < |s| then RecordOf(s[i], locals, v6, name, ttl) else []
  {
    if i < |s| {
      assert InRange(s, first, i + 1) == InRange(s, first, i) + [s[i]];
      RecordsAppend(InRange(s, first, i), s[i], locals, v6, name, ttl);
    } else {
      assert InRange(s, first, i + 1) == InRange(s, first, i);
    }
  }

  method FamilyAnswers(
    s: seq<ServerEntry>, locals: seq<Server>, first: nat, last: nat, v6: bool, name: string, ttl: nat)
    returns (answers: seq<Rr>)
    ensures answers == Records(InRange(s, first, last), locals, v6, name, ttl)
  {
    answers := [];
    var i := first;
    while i < last
      invariant first <= i && (i == first || i <= last)
      invariant answers == Records(InRange(s, first, i), locals, v6, name, ttl)
      decreases last - i
    {
      StepAnswers(s, locals, first, i, v6, name, ttl);
      if i < |s| {
        answers := answers + RecordOf(s[i], locals, v6, name, ttl);
      }
      i := i + 1;
    }
  }

  /** `make_local_answer`: the A records of the range, then its AAAA records. */
  method MakeLocalAnswer(
    arr: ServerArray, locals: seq<Server>, first: nat, last: nat, v4: bool, v6: bool, name: string, ttl: nat)
    returns (answers: seq<Rr>)
    ensures answers == (if v4 then Records(InRange(arr.entries, first, last), locals, false, name, ttl) else [])
                     + (if v6 then Records(InRange(arr.entries, first, last), locals, true, name, ttl) else [])
  {
    answers := [];
    if v4 {
      answers := FamilyAnswers(arr.entries, locals, first, last, false, name, ttl);
    }
    if v6 {
      var more := FamilyAnswers(arr.entries, locals, first, last, true, name, ttl);
      answers := answers + more;
    }
  }
}
