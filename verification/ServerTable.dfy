/** Building the sorted lookup table (`ServerArray::build`). */
module ServerTable {
  import opened Names
  import opened Servers

  datatype SockAddr = V4(ip: seq<int>, port: nat) | V6(ip: seq<int>, port: nat)

  /** The fields of `Server` that matching, local answers and the server list use. */
  datatype Stats = Stats(queries: nat, failed: nat, nxdomain: nat, retries: nat, latency: nat)

  const NO_STATS := Stats(0, 0, 0, 0, 0)

  datatype Server = Server(
    flags: ServFlags, domain: string, addr: SockAddr, source: SockAddr, iface: string, stats: Stats)

  datatype ServerArray = ServerArray(entries: seq<ServerEntry>, hasWildcard: bool)

  // ----- a stable sort -----

  function Insert(x: ServerEntry, s: seq<ServerEntry>): seq<ServerEntry> {
    if s == [] then [x]
    else if CompareEntries(x, s[0]) != Greater then [x] + s
    else [s[0]] + Insert(x, s[1..])
  }

  /** The stable sort by `CompareEntries`. */
  function SortEntries(s: seq<ServerEntry>): seq<ServerEntry> {
    if s == [] then [] else Insert(s[0], SortEntries(s[1..]))
  }

  ghost predicate Sorted(s: seq<ServerEntry>) {
    forall i, j {:trigger CompareEntries(s[i], s[j])} :: 0 <= i < j < |s| ==> CompareEntries(s[i], s[j]) != Greater
  }

  lemma {:induction false} InsertKeepsElements(x: ServerEntry, s: seq<ServerEntry>)
    ensures multiset(Insert(x, s)) == multiset{x} + multiset(s)
  {
    if s == [] {
    } else {
      assert s == [s[0]] + s[1..];
      if CompareEntries(x, s[0]) == Greater {
        InsertKeepsElements(x, s[1..]);
      }
    }
  }

  lemma {:induction false} SortIsPermutation(s: seq<ServerEntry>)
    ensures multiset(SortEntries(s)) == multiset(s)
  {
    if s == [] {
    } else {
      assert s == [s[0]] + s[1..];
      SortIsPermutation(s[1..]);
      InsertKeepsElements(s[0], SortEntries(s[1..]));
    }
  }

  lemma SameElements(s: seq<ServerEntry>, t: seq<ServerEntry>)
    requires multiset(s) == multiset(t)
    ensures forall e :: e in s <==> e in t
    ensures |s| == |t|
  {
    assert forall e :: e in s <==> e in multiset(s);
    assert forall e :: e in t <==> e in multiset(t);
    assert |s| == |multiset(s)| && |t| == |multiset(t)|;
  }

  lemma {:induction false} InsertSorts(x: ServerEntry, s: seq<ServerEntry>)
    requires Preorder([x] + s) && Sorted(s)
    ensures Sorted(Insert(x, s))
  {
    if s == [] {
    } else {
      var all := [x] + s;
      assert x in all && forall e :: e in s ==> e in all;
      if CompareEntries(x, s[0]) == Greater {
        var rest := s[1..];
        assert forall e :: e in [x] + rest ==> e in all;
        InsertSorts(x, rest);
        InsertKeepsElements(x, rest);
        SameElements(Insert(x, rest), [x] + rest);
        CompareFlips(x, s[0]);
        forall e | e in Insert(x, rest)
          ensures CompareEntries(s[0], e) != Greater
        {
          assert e == x || e in rest;
        }
      } else {
        forall j | 0 <= j < |s|
          ensures CompareEntries(x, s[j]) != Greater
        {
          assert s[0] in all && s[j] in all;
          assert CompareEntries(s[0], s[j]) != Greater || j == 0;
        }
      }
    }
  }

  lemma {:induction false} SortSorts(s: seq<ServerEntry>)
    requires Preorder(s)
    ensures Sorted(SortEntries(s))
  {
    if s == [] {
    } else {
      var rest := SortEntries(s[1..]);
      assert forall e :: e in s[1..] ==> e in s;
      SortSorts(s[1..]);
      SortIsPermutation(s[1..]);
      SameElements(rest, s[1..]);
      assert forall e :: e in [s[0]] + rest ==> e in s;
      InsertSorts(s[0], rest);
    }
  }

  function Keep(s: seq<ServerEntry>, p: ServerEntry -> bool): seq<ServerEntry> {
    if s == [] then []
    else (if p(s[0]) then [s[0]] else []) + Keep(s[1..], p)
  }

  lemma KeepCons(x: ServerEntry, s: seq<ServerEntry>, p: ServerEntry -> bool)
    ensures Keep([x] + s, p) == (if p(x) then [x] else []) + Keep(s, p)
  {
    assert ([x] + s)[1..] == s;
  }

  lemma KeepSwap(x: ServerEntry, y: ServerEntry, s: seq<ServerEntry>, p: ServerEntry -> bool)
    requires !p(x) || !p(y)
    ensures (if p(y) then [y] else []) + Keep([x] + s, p) == Keep([x] + ([y] + s), p)
  {
    KeepCons(x, s, p);
    KeepCons(y, s, p);
    KeepCons(x, [y] + s, p);
    SwapFront(if p(x) then [x] else [], if p(y) then [y] else [], Keep(s, p));
  }

  lemma SwapFront(a: seq<ServerEntry>, b: seq<ServerEntry>, rest: seq<ServerEntry>)
    requires a == [] || b == []
    ensures b + (a + rest) == a + (b + rest)
  {
    assert [] + rest == rest;
  }

  lemma {:induction false} InsertKeepsOrder(x: ServerEntry, s: seq<ServerEntry>, p: ServerEntry -> bool)
    requires forall e :: e in s && p(x) && p(e) ==> CompareEntries(x, e) != Greater
    ensures Keep(Insert(x, s), p) == Keep([x] + s, p)
  {
    if s != [] && CompareEntries(x, s[0]) == Greater {
      var y, rest := s[0], s[1..];
      assert y in s && forall e :: e in rest ==> e in s;
      InsertKeepsOrder(x, rest, p);
      KeepCons(y, Insert(x, rest), p);
      assert s == [y] + rest;
      KeepSwap(x, y, rest, p);
    }
  }

  /** Stability: entries of a class whose members are never out of order keep their configured order. */
  lemma {:induction false} SortIsStable(s: seq<ServerEntry>, p: ServerEntry -> bool)
    requires forall i, j :: 0 <= i < j < |s| && p(s[i]) && p(s[j]) ==> CompareEntries(s[i], s[j]) != Greater
    ensures Keep(SortEntries(s), p) == Keep(s, p)
  {
    if s == [] {
    } else {
      var rest := SortEntries(s[1..]);
      SortIsStable(s[1..], p);
      SortIsPermutation(s[1..]);
      SameElements(rest, s[1..]);
      forall e | e in rest && p(s[0]) && p(e)
        ensures CompareEntries(s[0], e) != Greater
      {
        assert e in s[1..];
        var j :| 0 < j < |s| && s[j] == e;
      }
      InsertKeepsOrder(s[0], rest, p);
      assert ([s[0]] + rest)[1..] == rest;
    }
  }

  /** The entries that the comparison does not tell from `k`. */
  function TiesWith(k: ServerEntry): ServerEntry -> bool { (e: ServerEntry) => CompareEntries(k, e) == Equal }

  /** `s` and `t` hold the same entries of every tie, in the same order. */
  ghost predicate SameTies(s: seq<ServerEntry>, t: seq<ServerEntry>) {
    forall k :: k in s || k in t ==> Keep(s, TiesWith(k)) == Keep(t, TiesWith(k))
  }

  lemma {:induction false} FirstKept(s: seq<ServerEntry>, p: ServerEntry -> bool)
    ensures Keep(s, p) != [] ==> Keep(s, p)[0] in s
    ensures s != [] && p(s[0]) ==> Keep(s, p) != [] && Keep(s, p)[0] == s[0]
  {
    if s == [] {
    } else {
      FirstKept(s[1..], p);
    }
  }

  lemma HeadIsFirstTie(s: seq<ServerEntry>, t: seq<ServerEntry>)
    requires s != [] && SameTies(s, t)
    ensures s[0] in t && Keep(t, TiesWith(s[0])) != [] && Keep(t, TiesWith(s[0]))[0] == s[0]
  {
    CompareFlips(s[0], s[0]);
    FirstKept(s, TiesWith(s[0]));
    FirstKept(t, TiesWith(s[0]));
  }

  lemma HeadIsLeast(s: seq<ServerEntry>, e: ServerEntry)
    requires Sorted(s) && e in s
    ensures CompareEntries(s[0], e) != Greater
  {
    var i :| 0 <= i < |s| && s[i] == e;
    CompareFlips(e, e);
    assert i == 0 || CompareEntries(s[0], s[i]) != Greater;
  }

  lemma HeadsAgree(s: seq<ServerEntry>, t: seq<ServerEntry>)
    requires s != [] && Sorted(s) && Sorted(t) && SameTies(s, t)
    ensures t != [] && t[0] == s[0]
  {
    HeadIsFirstTie(s, t);
    HeadIsFirstTie(t, s);
    HeadIsLeast(s, t[0]);
    HeadIsLeast(t, s[0]);
    CompareFlips(s[0], t[0]);
    FirstKept(t, TiesWith(s[0]));
  }

  lemma SameRest(a: seq<ServerEntry>, b: seq<ServerEntry>, c: seq<ServerEntry>)
    requires a + b == a + c
    ensures b == c
  {
    assert b == (a + b)[|a|..] && c == (a + c)[|a|..];
  }

  lemma {:induction false} SortedIsUnique(s: seq<ServerEntry>, t: seq<ServerEntry>)
    requires Sorted(s) && Sorted(t) && SameTies(s, t)
    ensures s == t
  {
    if s == [] {
      if t != [] {
        HeadsAgree(t, s);
      }
    } else {
      HeadsAgree(s, t);
      var x, s', t' := s[0], s[1..], t[1..];
      assert s == [x] + s' && t == [x] + t';
      forall k | k in s' || k in t'
        ensures Keep(s', TiesWith(k)) == Keep(t', TiesWith(k))
      {
        assert k in s || k in t;
        KeepCons(x, s', TiesWith(k));
        KeepCons(x, t', TiesWith(k));
        SameRest(if TiesWith(k)(x) then [x] else [], Keep(s', TiesWith(k)), Keep(t', TiesWith(k)));
      }
      SortedIsUnique(s', t');
    }
  }

  /** On entries the comparison orders consistently there is only one stable sort, so how it is done does not matter. */
  lemma StableSortIsUnique(s: seq<ServerEntry>, t: seq<ServerEntry>)
    requires Preorder(s) && multiset(t) == multiset(s) && Sorted(t) && SameTies(t, s)
    ensures t == SortEntries(s)
  {
    SortSorts(s);
    SortIsPermutation(s);
    SameElements(SortEntries(s), s);
    SameElements(t, s);
    forall k | k in s
      ensures Keep(SortEntries(s), TiesWith(k)) == Keep(s, TiesWith(k))
    {
      forall i, j | 0 <= i < j < |s| && TiesWith(k)(s[i]) && TiesWith(k)(s[j])
        ensures CompareEntries(s[i], s[j]) != Greater
      {
        CompareFlips(k, s[i]);
        assert s[i] in s && s[j] in s;
      }
      SortIsStable(s, TiesWith(k));
    }
    SortedIsUnique(t, SortEntries(s));
  }

  // ----- build -----

  /** The upstream entries, in configuration order, skipping looping servers; serials count the kept ones. */
  function UpstreamEntries(servers: seq<Server>, n: nat): seq<ServerEntry>
    requires n <= |servers|
  {
    if n == 0 then []
    else
      var before := UpstreamEntries(servers, n - 1);
      var s := servers[n - 1];
      if s.flags.loops then before
      else before + [ServerEntry(s.domain, s.flags, |before|, n - 1, false)]
  }

  function LocalEntries(locals: seq<Server>): seq<ServerEntry> {
    seq(|locals|, i requires 0 <= i < |locals| => ServerEntry(locals[i].domain, locals[i].flags, 0, i, true))
  }

  function RawEntries(servers: seq<Server>, locals: seq<Server>): seq<ServerEntry> {
    UpstreamEntries(servers, |servers|) + LocalEntries(locals)
  }

  /** How many of the first `n` servers do not loop. */
  function Kept(servers: seq<Server>, n: nat): nat
    requires n <= |servers|
  {
    if n == 0 then 0 else Kept(servers, n - 1) + if servers[n - 1].flags.loops then 0 else 1
  }

  lemma {:induction false} UpstreamsAre(servers: seq<Server>, n: nat, e: ServerEntry)
    requires n <= |servers|
    ensures |UpstreamEntries(servers, n)| == Kept(servers, n)
    ensures e in UpstreamEntries(servers, n) <==> exists i: nat :: i < n && IsUpstream(servers, i, e)
  {
    if n == 0 {
      assert UpstreamEntries(servers, n) == [];
    } else {
      var m := n - 1;
      UpstreamsAre(servers, m, e);
      assert e in UpstreamEntries(servers, n) <==> e in UpstreamEntries(servers, m) || IsUpstream(servers, m, e);
    }
  }

  /** The entry of upstream server `i`: it does not loop, and is numbered among those that do not. */
  predicate IsUpstream(servers: seq<Server>, i: nat, e: ServerEntry)
    requires i < |servers|
  {
    !servers[i].flags.loops && e == ServerEntry(servers[i].domain, servers[i].flags, Kept(servers, i), i, false)
  }

  /** The table is made of every upstream server that does not loop, numbered in order, and of every local entry. */
  lemma RawEntriesAre(servers: seq<Server>, locals: seq<Server>, e: ServerEntry)
    ensures e in RawEntries(servers, locals) <==>
            || (exists i: nat :: i < |servers| && IsUpstream(servers, i, e))
            || (exists i: nat :: i < |locals| && e == ServerEntry(locals[i].domain, locals[i].flags, 0, i, true))
  {
    UpstreamsAre(servers, |servers|, e);
    assert e in LocalEntries(locals) <==>
           exists i: nat :: i < |locals| && e == ServerEntry(locals[i].domain, locals[i].flags, 0, i, true) by {
      forall i: nat | i < |locals| && e == ServerEntry(locals[i].domain, locals[i].flags, 0, i, true)
        ensures e in LocalEntries(locals)
      {
        assert LocalEntries(locals)[i] == e;
      }
    }
  }

  ghost predicate AnyWildcard(s: seq<ServerEntry>) {
    exists e :: e in s && e.flags.wildcard
  }

  lemma WildcardAppend(s: seq<ServerEntry>, e: ServerEntry)
    ensures AnyWildcard(s + [e]) <==> AnyWildcard(s) || e.flags.wildcard
  {
    assert e in s + [e] && forall x :: x in s ==> x in s + [e];
  }

  /** `ServerArray::build`. When no local entry shares a key with two upstream ones the table is sorted;
      it always holds exactly the configured entries. */
  method Build(servers: seq<Server>, locals: seq<Server>) returns (arr: ServerArray)
    ensures arr.entries == SortEntries(RawEntries(servers, locals))
    ensures multiset(arr.entries) == multiset(RawEntries(servers, locals))
    ensures arr.hasWildcard <==> AnyWildcard(arr.entries)
    ensures SerialSafe(RawEntries(servers, locals)) ==> Sorted(arr.entries)
  {
    var entries: seq<ServerEntry> := [];
    var hasWildcard := false;
    var serial := 0;
    for i := 0 to |servers|
      invariant entries == UpstreamEntries(servers, i)
      invariant serial == |entries|
      invariant hasWildcard <==> AnyWildcard(entries)
    {
      var s := servers[i];
      if s.flags.loops {
        continue;
      }
      if s.flags.wildcard {
        hasWildcard := true;
      }
      var e := ServerEntry(s.domain, s.flags, serial, i, false);
      WildcardAppend(entries, e);
      entries := entries + [e];
      serial := serial + 1;
    }
    ghost var upstream := entries;
    for i := 0 to |locals|
      invariant entries == upstream + LocalEntries(locals)[..i]
      invariant hasWildcard <==> AnyWildcard(entries)
    {
      var s := locals[i];
      if s.flags.wildcard {
        hasWildcard := true;
      }
      var e := ServerEntry(s.domain, s.flags, 0, i, true);
      WildcardAppend(entries, e);
      entries := entries + [e];
    }
    assert entries == RawEntries(servers, locals);
    SortIsPermutation(entries);
    SameElements(SortEntries(entries), entries);
    if SerialSafe(entries) {
      PreorderIffSerialSafe(entries);
      SortSorts(entries);
    }
    arr := ServerArray(SortEntries(entries), hasWildcard);
  }

  lemma {:induction false} SerialsCount(servers: seq<Server>, n: nat)
    requires n <= |servers|
    ensures forall i :: 0 <= i < |UpstreamEntries(servers, n)| ==>
              UpstreamEntries(servers, n)[i].serial == i && !UpstreamEntries(servers, n)[i].isLocal
  {
    if n == 0 {
    } else {
      SerialsCount(servers, n - 1);
    }
  }

  /** Upstream servers for one domain, of one type, stand in the table in the order they were configured, which is what
      strict ordering of upstream servers relies on. */
  lemma UpstreamsInConfigurationOrder(servers: seq<Server>, locals: seq<Server>, key: ServerEntry)
    ensures var same := (e: ServerEntry) => !e.isLocal && KeyOrder(e, key) == Equal;
            Keep(SortEntries(RawEntries(servers, locals)), same) == Keep(RawEntries(servers, locals), same)
  {
    var same := (e: ServerEntry) => !e.isLocal && KeyOrder(e, key) == Equal;
    var raw := RawEntries(servers, locals);
    var n := |UpstreamEntries(servers, |servers|)|;
    SerialsCount(servers, |servers|);
    forall i, j | 0 <= i < j < |raw| && same(raw[i]) && same(raw[j])
      ensures CompareEntries(raw[i], raw[j]) != Greater
    {
      assert j < n;
      assert raw[i].serial == i && raw[j].serial == j;
      KeyOrderFlips(raw[j], key);
      KeyOrderTransitive(raw[i], key, raw[j]);
    }
    SortIsStable(raw, same);
  }
}
