# dnsmasq-rs: a verified model of its decision logic

A Dafny model of the parts of dnsmasq-rs where a fast or stateful implementation stands beside a simple meaning, with
proofs that the two agree.

- **Choosing a server** (`Names`, `Servers`, `ServerTable`, `ServerFilter`, `FilterExactness`, `ServerLookup`,
  `LookupMeaning`, `LocalAnswers`, `LocalReplies`, `FamilyReplies`). Configured servers and local domains are sorted on several keys into
  one table. A lookup searches the table for the longest matching suffix of a name, keeping a bound between rounds and
  cropping the name by computed jumps, and then picks a priority class. The main result is that this returns exactly what
  a linear scan over suffixes, longest first, returns (`ServerLookup.Lookup`), and what that means in terms of which
  entries match and which classes the query allows (`LookupMeaning.LookupMeans`). Lookup, verdict and records together
  give one record for each configured address of the winner (`LocalReplies.ReplyMeans`, and in the bits of the entries
  `FamilyReplies.FamilyIsAnswered`).
- **Changing servers over D-Bus** (`DbusServers`, `DbusRequests`, `ServerMetrics`). Three calls replace the D-Bus servers
  by marking, reusing and sweeping; after any run of calls only the last successful one shows, entry by entry as its
  arguments say.
- **The DNS cache** (`Lru`, `Cache`, `CacheRuns`, `CacheLifetimes`, `NonTerminals`). A bounded map in recency order with lazy expiry,
  staged all-or-nothing inserts, protection of static records and placeholders for intermediate names. Over whole runs
  it answers as a map would that never deletes anything, and serves each record for exactly its lifetime.
- **DHCP address allocation** (`DhcpPing`, `DhcpAlloc`, `Checksum`). A cyclic scan of each pool from a hashed seed, in
  two tag passes, with a rate-limited cache of conflict checks; and the Internet checksum of the probe (RFC 1071).
- **The neighbour cache** (`Arp`, `ArpRuns`). A mark, confirm and expire protocol with an event queue.
- **Authoritative answers** (`Zones`, `AuthAnswers`, `AuthOutcomes`). Zone membership, subnet filters, the alias restart loop, zone
  transfer and the names of reverse zones (section 3.5 of RFC 1035, section 2.5 of RFC 3596).
- **Synthetic names** (`SynthNames`, `SynthExactness`) and **netlink attributes** (`Netlink`). Printers and parsers that invert each other.

The model keeps the form of the code: objects that the code updates in place are classes, loops are loops with
invariants, each method is tied to a function of its inputs or of the old state, and the properties are proved about
those functions, over all inputs, all runs or all reachable states. `Basics` and `Fields` hold
what several of them share.

Conventions. Names are strings of ASCII characters. Bit sets are records of booleans. Addresses are octets or numbers.
Instants are integers in nanoseconds (whole seconds in `Arp`). Integers are unbounded except where the code's width
matters, where the wrap-around is written out (`Checksum`, `DhcpAlloc`, the 16-bit length fields of `Netlink`).

## Where the code does not do what one would expect

Each of these is shown by a lemma on concrete or arbitrary inputs of the failing kind, and another one says exactly when
the expected property holds.

- `Servers.DbusLiteralsBreakTheOrder`: the sort comparison is not transitive on two upstream entries and a local one that
  share a domain and their type bits. `PreorderIffSerialSafe` gives the exact condition.
- `FilterExactness.MixedGroupMissesBestClass`: when one domain has both plain and wildcard entries, an address query can
  be answered from the wrong class. `BestForEveryQueryIff` gives the exact condition.
- `LocalAnswers.WildcardAddressIsMissed`: only the first entry of a group is checked for an address, so NXDOMAIN can be
  reported although an entry has one. `FirstEntrySpeaksForGroup` says that this happens exactly when the only addresses
  are on wildcard entries behind plain ones.
- `LookupMeaning.ServerLookupSkipsAddressBits`: a lookup restricted to real servers never returns an entry with an
  address-family bit. Upstream servers carry one however they are set: by configuration, from resolv.conf or over D-Bus.
  `ServerLookupReturnsIff` says exactly which entries are returned.
- `ServerLookup.LoneNodotsIsUnsafe`: with a domain on an entry for names without dots, the length by which a search
  shortens its query can be negative. `CropSafeIff` gives the exact condition.
- `Checksum.LongBufferIsNotExact`: beyond 131074 bytes the 32-bit accumulator can wrap, and the result is then another
  checksum than that of RFC 1071, although it still verifies under the same code (`WrappedChecksumVerifies`).
  `WrappedIsExactIff` gives the exact condition.
- `Netlink.OversizedAttributeIsLost`: one byte over 65531 the length field wraps and the attribute is not read back.
  `AttributeReadsBackIff` and `DecodeInvertsEncodeIff` say that this is exactly the limit.
- `ArpRuns.OvertakenEventIsLost`: a neighbour reported by two refreshes in a row, without its event being drained between
  them, is never announced; `OvertakenEventWithdrawsUnannounced` withdraws one that was never announced.
  `RefreshKeepsConsistentIff` and `RunIsConsistentIff` give the exact condition: no refresh overtakes an announcement.
- `SynthNames.Ipv6NameRoundTrip`: an indexed IPv6 name reads back as its address exactly when the address is in the same
  /64 as the start of the range; the range check itself looks only at the lower 64 bits.
- `AuthAnswers.LongestWildcardLoses`: of two matching wildcard aliases the shorter one is followed when it is configured
  first, although the scan keeps a length. `FollowsLongestIff` gives the exact condition.
- `CacheRuns.OverflowIsObservable`: at every size, an insert that pushes out a live record makes a lookup miss it.
  `AgreeInsertIff` says that this is exactly when the cache falls behind the map that never deletes.
- `CacheRuns.PointerAliasSeesSweep`: an alias that points at a cache slot, which no caller makes, is kept or dropped
  depending on whether its expired target has been swept. `SweepIsSeenIff` says that this happens exactly when the cache
  holds targets of the alias and all of them have expired.
- `DhcpAlloc.BackwardClockGivesAway`: after the system clock has stepped back, an address with a fresh record of one
  client can be given to another. `ProtectsAllIff` gives the exact condition.

## Model

| member | source | states |
|---|---|---|
| Names.OrderEqualIsSameName | src/hostname.rs:7-28 | the name order says Equal exactly for names that are the same up to letter case |
| Names.OrderFlips | src/hostname.rs:7-23 | swapping the operands swaps Less and Greater |
| Names.OrderTransitive | src/hostname.rs:7-23 | less-or-equal composes, strictly if either step is strict: the order is total |
| Names.SameNameIff | src/hostname.rs:26-28 | names are the same exactly when they differ at most between "A" to "Z" and "a" to "z" |
| Names.OrderIsLexicographic | src/hostname.rs:7-23 | a name is less exactly when, letter case aside, it is smaller at the first difference or a proper prefix |
| Names.DomainMatchesIsAlignedSuffix | src/domain_match.rs:694-711 | a server domain matches a name exactly when it is, up to letter case, a suffix that starts at a label boundary |
| Servers.KeyOrderFlips | src/domain_match.rs:84-119 | the comparison without the serial rule is antisymmetric in its outcomes |
| Servers.KeyOrderTransitive | src/domain_match.rs:84-119 | the comparison without the serial rule is transitive, strictly where a step is strict |
| Servers.PreorderIffSerialSafe | src/domain_match.rs:84-125 | the sort comparison is a total preorder on a list of entries if and only if no local entry shares its key with two upstream entries of different serial |
| Servers.LocalByFlagsIsSerialSafe | src/domain_match.rs:19-52 | entries whose locality follows from their type bits are always ordered consistently |
| Servers.DbusLiteralsBreakTheOrder | src/domain_match.rs:121-125 | three entries, as `build` accepts them, on which the comparison is not transitive |
| ServerTable.SortIsPermutation | src/domain_match.rs:184-184 | sorting keeps exactly the configured entries |
| ServerTable.SortSorts | src/domain_match.rs:184-184 | on entries the comparison orders consistently, the table is sorted |
| ServerTable.SortIsStable | src/domain_match.rs:184-184 | entries of any class whose members are never out of order keep their configured order |
| ServerTable.StableSortIsUnique | src/domain_match.rs:184-184 | on entries the comparison orders consistently, any sorted permutation that keeps the order of ties is the table |
| ServerTable.Build | src/domain_match.rs:146-186 | the table holds the upstream entries that do not loop, numbered, then the local ones, sorted; the wildcard flag is set exactly when an entry is a wildcard; serial-safe entries give a sorted table |
| ServerTable.RawEntriesAre | src/domain_match.rs:146-182 | the entries are exactly the upstream servers that do not loop, each with the number of such servers before it, and the local ones |
| ServerTable.UpstreamsInConfigurationOrder | src/domain_match.rs:146-186 | the upstream servers of one domain and type stand in the table in configuration order |
| ServerFilter.OrderEntryZero | src/domain_match.rs:62-80 | the search comparison is zero exactly for an entry with that domain that is not for names without dots |
| ServerFilter.SameGroupMeaning | src/domain_match.rs:205-215 | two entries share a group exactly when both are for names without dots or both have the same domain |
| ServerFilter.SortedIsMonotone | src/domain_match.rs:62-125 | in a sorted table the search comparison never increases along the table, for every query |
| ServerFilter.GroupIsConvex | src/domain_match.rs:205-215 | in a sorted table whatever stands between two members of a group is a member |
| ServerFilter.GroupOfIsGroup | src/domain_match.rs:205-215 | in a sorted table the first run of a group's members is the whole group |
| ServerFilter.WidenToGroup | src/domain_match.rs:405-415 | widening any member by neighbours reaches exactly its group |
| ServerFilter.RunCascade | src/domain_match.rs:417-487 | the sequence of range tests returns what the class-by-class cascade returns |
| ServerFilter.FilterServers | src/domain_match.rs:400-488 | nothing for a position outside the table, otherwise the choice from the whole group of the position |
| ServerFilter.ChooseIsBestClass | src/domain_match.rs:427-487 | in a group with descending classes the choice is exactly the maximal block of the highest-priority class that the query flags allow, and nothing is returned only if no entry is allowed |
| ServerFilter.AllowedInBits | src/domain_match.rs:427-487 | in the bits of an entry, what each query flag refuses: addresses of the other family, literal entries for real servers, literal entries without an address and the plain catch-all for servers of a domain |
| ServerFilter.UniformGroupDescends | src/domain_match.rs:104-119 | sorting makes the classes of a group descend when its entries are all plain or all wildcards, the group of names without dots included |
| FilterExactness.InversionFails | src/domain_match.rs:427-487 | an entry of the best allowed class that stands behind a lower one makes the choice wrong |
| FilterExactness.UnreachedIsHarmless | src/domain_match.rs:427-487 | with IPv4, IPv6 and "use resolv.conf" entries in front, a 0.0.0.0 entry out of order is never missed by any query |
| FilterExactness.ReachedInversionFails | src/domain_match.rs:427-487 | any other entry out of order makes the choice wrong for some query, which is named |
| FilterExactness.BestForEveryQueryIff | src/domain_match.rs:400-488 | the choice is the best allowed class for every query if and only if the classes of the group descend, up to 0.0.0.0 entries that no query reaches |
| FilterExactness.MixedGroupMissesBestClass | src/domain_match.rs:205-215 | a plain upstream entry hides the address of a wildcard entry for the same domain |
| ServerLookup.BuiltTablesAreValid | src/domain_match.rs:146-186 | tables built from serial-safe entries that keep the crop from becoming negative meet what a lookup needs |
| ServerLookup.CropSafeIff | src/domain_match.rs:278-304 | no query that misses is shortened by a negative length if and only if there is a catch-all or every domain on a no-dots entry is as long as the shortest other domain; in every other table the empty name is such a query |
| ServerLookup.LoneNodotsIsUnsafe | src/domain_match.rs:278-288 | a table of one no-dots entry with a domain, searched for the empty name, gives a negative length |
| ServerLookup.SkipLengths | src/domain_match.rs:278-304 | jumping over suffix lengths that no entry has never skips a match |
| ServerLookup.SkipInsideLabel | src/domain_match.rs:356-362 | without wildcards, jumping to the next label boundary never skips a match |
| ServerLookup.Search | src/domain_match.rs:264-305 | one binary search from the kept bound finds an entry with the domain, or there is none in the whole table and no shorter domain is longer than what the crop leaves; the kept bound stays sound |
| ServerLookup.NextLength | src/domain_match.rs:289-302 | the crop reaches exactly down to the next different domain length in the table, stays within the query and skips no length that an entry has |
| ServerLookup.WildcardsAreLast | src/domain_match.rs:104-109 | within a domain the wildcard entries come last |
| ServerLookup.MatchGroup | src/domain_match.rs:308-335 | a hit offers what the suffix offers in the linear scan: nothing inside a label unless an entry is a wildcard |
| ServerLookup.FollowHit | src/domain_match.rs:308-348 | a hit ends the scan, sends it to the catch-all for "use resolv.conf", or moves on, as in the linear scan |
| ServerLookup.Round | src/domain_match.rs:264-355 | each round leaves the result of the remaining linear scan unchanged and makes progress |
| ServerLookup.NextLabel | src/domain_match.rs:356-362 | the next start is a label boundary and nothing is lost on the way |
| ServerLookup.WithFallback | src/domain_match.rs:365-387 | a single label without DNSSEC that found nothing or a catch-all gets what the group of the last entry offers, if that is for names without dots and offers anything |
| ServerLookup.Lookup | src/domain_match.rs:229-388 | for every sorted table that keeps the crop from becoming negative, name and flag set the lookup ends, stays in bounds and returns what the linear scan over suffixes, longest first, returns |
| LookupMeaning.PlainMatchIsDomainMatches | src/domain_match.rs:694-711 | a plain entry matches at some suffix of a name exactly when `domain_matches` says so |
| LookupMeaning.CandidateMeaning | src/domain_match.rs:308-348 | a suffix offers nothing exactly when every entry matching there is refused by the flags; what it offers is the block of the best allowed class among the entries matching there |
| LookupMeaning.LongestMatchWins | src/domain_match.rs:264-363 | all suffixes longer than the deciding one have only refused matches; the deciding one gives its best class, or sends the scan to the catch-all; without one there is no result |
| LookupMeaning.FallbackGives | src/domain_match.rs:365-387 | the fallback returns exactly the best allowed class of the entries for names without dots, and leaves the scan's result when they offer none |
| LookupMeaning.LookupMeans | src/domain_match.rs:229-388 | for every uniform table, name and flag set: the longest suffix not refused decides with its best class or sends to the catch-all, and a single label that got nothing specific has the best allowed class of the no-dots entries, if there is one |
| LookupMeaning.SameNameSameLookup | src/domain_match.rs:229-388 | names that differ only in letter case are looked up alike, in every table and for all flags |
| LookupMeaning.DsLooksUpParent | src/domain_match.rs:235-244 | a DS query is looked up under its parent, a single label under the root |
| LookupMeaning.NodotsNeedSingleLabel | src/domain_match.rs:248-252 | entries for names without dots are returned only to names with one label, and never under DNSSEC |
| LookupMeaning.ReturnedInBits | src/domain_match.rs:229-388 | in bits: no address or literal bit for real servers, addresses only for their family, and for servers of a domain neither literals without an address nor the plain catch-all |
| LookupMeaning.ServerLookupReturnsIff | src/domain_match.rs:229-388 | a lookup for real servers returns an entry if and only if it is upstream and of the best allowed class at the longest suffix not refused, or at the catch-all if that suffix says "use resolv.conf", or of the best allowed class of the no-dots entries when those decide |
| LookupMeaning.ServerLookupSkipsAddressBits | src/domain_match.rs:229-388 | a whole lookup for real servers, fallback included, never returns an entry that carries an address bit |
| LocalAnswers.IsLocalAnswer | src/domain_match.rs:524-554 | only literal entries answer locally; an entry with an address answers for its family; otherwise the first entry of the group decides between no data and no such name |
| LocalAnswers.FirstEntrySpeaksForGroup | src/domain_match.rs:535-553 | the first entry of a group has an address if and only if some entry has, except exactly when the only addresses are on wildcards behind plain entries |
| LocalAnswers.WildcardAddressIsMissed | src/domain_match.rs:535-553 | a sorted table in which the first entry has no address although a later one of the group has |
| LocalAnswers.MakeLocalAnswer | src/domain_match.rs:570-626 | the A records of the range in table order, then its AAAA records; all-zeros entries give the zero address |
| LocalAnswers.RecordsExact | src/domain_match.rs:570-626 | a record is made from a range if and only if an entry gives it: 0.0.0.0 the unspecified address, others their configured address if it is of the family |
| LocalReplies.RangeInConfigurationOrder | src/domain_match.rs:146-186 | a range of one group and one local class is that part of the configured local entries, in configuration order, whatever upstream entries stand beside them |
| LocalReplies.OneRecordEach | src/domain_match.rs:570-626 | entries with an address of the family give exactly one record each, in order |
| LocalReplies.WinnersOf | src/domain_match.rs:229-388 | a result with local entries holds exactly the entries of the best allowed class that match at the longest suffix not refused, or, for a single label whose scan gave nothing specific, that are for names without dots |
| LocalReplies.VerdictFollowsClass | src/domain_match.rs:524-554 | the verdict is the family of the class; without addresses it is "no such name" exactly when the name is not known and no entry of the domain has an address |
| LocalReplies.AnswerLocally | src/rfc1035.rs:1693-1735 | looks up, judges and makes the records of the families both configured and asked for |
| LocalReplies.ReplyMeans | src/rfc1035.rs:1693-1735 | names without a local winner are forwarded; a winner without addresses gives no data or no such name; a winner with addresses gives exactly one record per family asked for and per configured address of the winning domain in its best allowed class, in configuration order |
| FamilyReplies.FamilyIsAnswered | src/rfc1035.rs:1693-1735 | an A question whose longest matching domain has IPv4 addresses gets exactly one A record for each of them, in configuration order; likewise AAAA and IPv6; domains with only addresses of the other family are passed over |
| FamilyReplies.ZerosAreAnswered | src/rfc1035.rs:1693-1735 | 0.0.0.0 entries answer with the unspecified address exactly when no entry of the asked family matches there |
| FamilyReplies.LiteralIsAnswered | src/rfc1035.rs:1693-1735 | a domain without an address for the question gives no data if the name is known or the domain has any address, and no such name otherwise |
| FamilyReplies.SingleLabelIsAnswered | src/rfc1035.rs:1693-1735 | a single label that no domain matches gets one record for each address of the asked family among the no-dots entries |
| DbusServers.Daemon.PushDbusServers | src/dbus.rs:138-147 | adds one entry per domain, or one catch-all, in order |
| DbusServers.Daemon.ApplySetServers | src/dbus.rs:229-260 | the list and the outcome are those of marking, adding the planned entries and, on success, sweeping |
| DbusServers.Daemon.ApplySetServersEx | src/dbus.rs:188-209 | the same, for lists of an address and its domains |
| DbusServers.Daemon.ApplySetDomainServers | src/dbus.rs:154-184 | the same, for entries with slashes |
| DbusServers.EntryReadsBack | src/dbus.rs:157-179 | domains and an address written into one entry with slashes are read back as they were |
| DbusServers.EntryFields | src/dbus.rs:162-173 | an accepted entry with slashes consists of slash-free fields and a slash-free address, and is read as the fields that are not empty and that address |
| DbusServers.AcceptedIff | src/dbus.rs:157-173 | an entry is rejected exactly when it is empty or has slashes but not two of them, the first in front |
| DbusServers.AddAllSplits | src/domain_match.rs:660-688 | during a call the list is an older part, which keeps the foreign entries, followed by exactly the entries requested so far, in order |
| DbusServers.AddUpdateMeaning | src/domain_match.rs:660-688 | an upstream entry replaces the first marked one of its domain at the end, keeping its spelling and statistics; any other is appended |
| DbusRequests.SetServersOkIff | src/dbus.rs:229-260 | the call succeeds exactly when it does not begin with a domain |
| DbusRequests.SetServersReplaces | src/dbus.rs:138-260 | afterwards the D-Bus entries are, in order, one for each domain argument with the nearest preceding address, and a catch-all for each address no domain follows, at port 53 and with the bit of the family |
| DbusRequests.SetServersExOkIff | src/dbus.rs:188-209 | the call succeeds exactly when every list begins with a readable address |
| DbusRequests.SetServersExReplaces | src/dbus.rs:138-209 | afterwards the D-Bus entries are, list by list, one for each domain or a catch-all; the address 0.0.0.0 makes them literal |
| DbusRequests.SetDomainServersOkIff | src/dbus.rs:154-184 | the call succeeds exactly when every string has its slashes in place and its address, if any, is readable |
| DbusRequests.SetDomainServersReplaces | src/dbus.rs:138-184 | afterwards the D-Bus entries are, string by string, one for each domain or a catch-all; without an address they are literal |
| DbusServers.SuccessReplaces | src/dbus.rs:138-260 | a successful call leaves the foreign entries in order, then exactly its own entries in request order |
| DbusServers.FailedCallRemovesNothing | src/dbus.rs:138-260 | a failed call removes nothing: foreign entries and D-Bus entries not taken over stay, the latter marked, and what came before the error has been added |
| DbusServers.CallKeepsOthers | src/domain_match.rs:635-688 | any call, failed ones included, leaves the foreign entries as they were |
| DbusServers.LastSuccessDecides | src/dbus.rs:138-260 | after any run of calls ending in a success, the list is the foreign entries in original order followed by the last call's entries in request order, domains equal up to letter case |
| ServerMetrics.ServerMetrics | src/dbus.rs:275-319 | one row for each distinct address, in order of first appearance, with the sums over its entries and their mean latency |
| ServerMetrics.RowMeaning | src/dbus.rs:275-319 | a row has the sums over the entries of its address and their mean latency, rounded down |
| ServerMetrics.RowsAddUp | src/dbus.rs:272-319 | the reported addresses are exactly those of the entries, each once, and their sums add up to the sums over all entries |
| Lru.PeekPut | src/cache.rs:295-311 | an insert that does not meet a full map with a new key changes that key and no other |
| Lru.PeekPutFull | src/cache.rs:295-311 | a new key in a full map drops the least recent entry and no other |
| Lru.PutAddsOnlyItsKey | src/cache.rs:295-311 | an insert never invents or alters an entry of another key |
| Lru.DistinctPut | src/cache.rs:295-311 | the map never outgrows its capacity and never holds a key twice |
| Lru.PeekDrop | src/cache.rs:693-703 | a sweep removes exactly the entries that satisfy its condition |
| Cache.LifetimeIsClamped | src/cache.rs:358-388 | stored lifetimes respect the configured bounds, the lower one winning; DNSSEC records live at least a minute; only lifetime and expiry change |
| Cache.PopAllIsDrop | src/cache.rs:546-560 | collecting keys and popping them one by one is a sweep |
| Cache.DnsCache.Insert | src/cache.rs:295-311 | the new record is the most recent one, the cache stays within its size, and an eviction is counted whenever the cache was full, also on overwriting |
| Cache.DnsCache.PrepareInsert | src/cache.rs:358-415 | zero lifetimes, conflicts with static records and a disabled cache are refused; equal addresses are reported |
| Cache.DnsCache.ReallyInsert | src/cache.rs:335-349 | inserts what preparation accepts and changes nothing otherwise |
| Cache.DnsCache.StageInsert | src/cache.rs:443-457 | staging leaves the live cache alone, and after the first refusal is ignored |
| Cache.DnsCache.EndInsert | src/cache.rs:472-488 | a failed batch commits nothing, a good one commits its records in order except outdated pointers, and the count is reported |
| Cache.DnsCache.ExpireOld | src/cache.rs:693-703 | removes exactly the expired records |
| Cache.DnsCache.EvictExpired | src/cache.rs:546-560 | removes exactly the expired records; the count is the number removed and is added to the evictions |
| Cache.DnsCache.RemoveByUid | src/cache.rs:890-907 | removes exactly the static records of a source, and nothing for the reserved identifier; the count is the number removed |
| Cache.DnsCache.LookupByName | src/cache.rs:566-594 | a live record answers and becomes the most recent, an expired one is dropped; one hit or one miss is counted |
| Cache.DnsCache.LookupForward | src/cache.rs:611-648 | falls back to the negative entry of the type; one hit or one miss is counted, whichever key answers |
| CacheRuns.Transact | src/cache.rs:424-488 | starting, staging and committing a batch leaves the cache as the batch function says; nothing is committed after an error |
| CacheRuns.StagingIsAllOrNothing | src/cache.rs:443-488 | a batch fails exactly when some record of it is refused; otherwise it stages every accepted record in order |
| CacheRuns.AllAreCommitted | src/cache.rs:472-488 | without pointer aliases the reported count is the number of staged records |
| CacheRuns.CountsWhatIsCommitted | src/cache.rs:472-488 | a record is counted exactly when it is committed |
| CacheRuns.BatchProtectsStatic | src/cache.rs:358-488 | a key that holds a static record at the start of a batch never holds a DNS answer after it |
| CacheRuns.StepKeepsValid | src/cache.rs:295-650 | every operation keeps the cache within its size and free of duplicate keys |
| CacheRuns.StepAgrees | src/cache.rs:295-703 | each operation answers as the never-deleting map does and keeps the two in agreement |
| CacheRuns.ExpiryIsUnobservable | src/cache.rs:295-703 | over every run at non-decreasing times, with immortal static records, no insert pushing out a live record and no pointer alias that hangs on expired records alone, all lookups answer as a map that never deletes and filters by expiry |
| CacheRuns.AgreeInsertIff | src/cache.rs:295-311 | after an insert the cache and the never-deleting map still agree if and only if the key was there, there was room, or the record pushed out had expired |
| CacheRuns.OverflowIsObservable | src/cache.rs:295-311 | at every size and from every agreeing state, an insert that pushes out a live record makes a lookup of it miss what the map still has |
| CacheRuns.OutdatedAgreesIff | src/cache.rs:504-520 | an alias is dropped by the cache as by the never-deleting map, which looks for live targets, if and only if it is not one whose targets in the cache have all expired |
| CacheRuns.SweepIsSeenIff | src/cache.rs:472-520 | a sweep changes whether an alias is committed if and only if the cache holds targets of it and all of them have expired |
| CacheRuns.PointerAliasSeesSweep | src/cache.rs:472-520 | an alias pointing at an expired record is committed before a sweep and dropped after it |
| CacheLifetimes.LookupAnswersIff | src/cache.rs:191-196 | a lookup answers with a stored record exactly when it is immortal or expires later |
| CacheLifetimes.SweepKeepsIff | src/cache.rs:693-703 | a sweep keeps exactly the records that are immortal or expire later |
| CacheLifetimes.RemoveKeepsIff | src/cache.rs:890-907 | removing a source keeps exactly the records that are not static records of it |
| CacheLifetimes.ServedForItsLifetime | src/cache.rs:191-703 | after any run that neither overwrites nor pushes out an answer accepted at t, it is served and survives a sweep exactly while the clock is before t plus its clamped lifetime, or always if immortal, under every letter case of its name |
| CacheLifetimes.InsertOutcome | src/cache.rs:335-415 | which inserts are dropped, blocked, refused or stored, in numbers and flags, and what is stored |
| CacheLifetimes.RecentOutlastsInserts | src/cache.rs:295-311 | a record just looked up or inserted outlasts any inserts of other keys that are fewer than the cache has places |
| NonTerminals.NonTerminalNames | src/cache.rs:210-222 | the loop yields the parents in order |
| NonTerminals.ParentsAreAncestors | src/cache.rs:210-222 | the parents are exactly the proper ancestors with at least two labels |
| NonTerminals.InsertWithNonTerminals | src/cache.rs:927-975 | inserts the record and covers each parent, extending a placeholder that is already there |
| NonTerminals.CoverParentMeaning | src/cache.rs:927-975 | what is held for a parent of a positive record afterwards: a new placeholder in full, or the old one with the later end of life |
| NonTerminals.LiveRecordsHaveLiveAncestors | src/cache.rs:927-975 | after any run of such inserts and sweeps, every inserted record that is live has each proper ancestor of two or more labels present and living at least as long |
| NonTerminals.PlaceholderIsLive | src/cache.rs:927-975 | at every later instant at which the record is live, so is the placeholder |
| NonTerminals.PlaceholderLiveIff | src/cache.rs:927-975 | over every run a name of two or more labels has a live placeholder if and only if some record inserted below it is live |
| DhcpPing.PingCache.Check | src/dhcp.rs:2151-2194 | a fresh record answers with its hash; a probe is sent only when none does and probing is neither off nor saturated; a free probe replaces a stale record or is appended |
| DhcpPing.CheckAnswersFromRecord | src/dhcp.rs:2151-2194 | an address with a record of at most thirty seconds is answered with the client of the first such record |
| DhcpPing.CheckProbes | src/dhcp.rs:2151-2194 | otherwise it is probed unless probing is off or six records are recent; what is recorded, and where, in numbers |
| DhcpPing.StaysSmall | src/dhcp.rs:2151-2194 | at most six results are kept, whatever the clock does |
| DhcpPing.AtMostSixPerWindow | src/dhcp.rs:2136-2194 | over any run, also when the clock steps back, no closed window of thirty seconds sees more than six free probes recorded |
| DhcpAlloc.SdbmHash | src/dhcp.rs:2063-2069 | the wrapping hash of the hardware address, never zero |
| DhcpAlloc.SdbmIsDigits | src/dhcp.rs:2063-2069 | the hash is the bytes read to the base 65599, in 32 bits |
| DhcpAlloc.SeedMeaning | src/dhcp.rs:2272-2276 | where the scan of a pool begins: the hash moved by the epoch, modulo the size, or the highest lease in consecutive mode |
| DhcpAlloc.HashToAddr | src/dhcp.rs:2075-2084 | the hash lands inside the pool, also for the pool of all addresses |
| DhcpAlloc.MaxLeased | src/lease.rs:533-544 | the highest leased address of the range, if there is one |
| DhcpAlloc.ContextFilterMatches | src/dhcp.rs:2206-2222 | every tag is set, or unset if negated; a pool without tags matches only when no tag is needed |
| DhcpAlloc.NextIsNth | src/dhcp.rs:2224-2231 | each step goes to the next offset round the pool, and the seed comes up again only after the whole pool |
| DhcpAlloc.ScanVisitsEachOnce | src/dhcp.rs:2275-2299 | the scan visits every address of the pool, only those, and each once |
| DhcpAlloc.ScanOnePool | src/dhcp.rs:2275-2299 | the loop ends and gives the address and the ping cache of the scan by offsets |
| DhcpAlloc.AddressAllocate | src/dhcp.rs:2248-2303 | pools with matching tags are scanned first, then also those without tags; the result and the ping cache are those of the reference |
| DhcpAlloc.AllocatedIsGood | src/dhcp.rs:2248-2303 | a result is not leased, not reserved, no router, no .0 or .255 of 192.0.0.0 to 223.255.255.255, and lies in a pool that is neither static nor proxy, with every plain tag set and every negated one unset |
| DhcpAlloc.NoneMeansAllAnswered | src/dhcp.rs:2248-2303 | outside consecutive mode no result means that every address of which all that holds answered the probe |
| DhcpAlloc.AllocatedIsFirst | src/dhcp.rs:2248-2303 | outside consecutive mode the first free address is given, pools with tags first: every address that is nobody's and comes before it answered the probe |
| DhcpAlloc.ConsecutiveRespectsRecords | src/dhcp.rs:2151-2303 | in consecutive mode an address whose first fresh record is for one client is never given to another, for every content of the ping cache |
| DhcpAlloc.ProtectsAllIff | src/dhcp.rs:2151-2303 | every fresh record protects its address from other clients, whatever is configured, if and only if no address that can be given out has fresh records of two clients |
| DhcpAlloc.MonotoneRunsProtect | src/dhcp.rs:2151-2303 | this is so after any run of checks during which the clock did not step back |
| DhcpAlloc.BackwardClockGivesAway | src/dhcp.rs:2151-2194 | three checks and a step back of the clock after which an address with a fresh record of one client is given to another |
| Checksum.ShortBuffersDoNotWrap | src/dhcp.rs:1863-1877 | up to 131074 bytes the 32-bit accumulator holds the exact sum |
| Checksum.FoldCarries | src/dhcp.rs:1873-1876 | the folding loop ends with the folded sum |
| Checksum.IcmpChecksum | src/dhcp.rs:1863-1877 | the complement of the folded 32-bit sum of the big-endian words, an odd last byte being a high half |
| Checksum.Rfc1071Example | src/dhcp.rs:1863-1877 | the example of section 3 of RFC 1071 |
| Checksum.StoredChecksumVerifies | src/dhcp.rs:1863-1877 | storing the checksum in its zeroed even-aligned field makes the checksum of the whole buffer zero |
| Checksum.WrappedChecksumVerifies | src/dhcp.rs:1863-1877 | the same with the wrapping accumulator, for buffers of any length, since adding the checksum never wraps it |
| Checksum.WrappedIsExactIff | src/dhcp.rs:1863-1877 | the computed checksum is that of the exact sum if and only if the sum fits in 32 bits, or the wraps are a multiple of 65535 and leave a remainder |
| Checksum.LongBufferIsNotExact | src/dhcp.rs:1863-1877 | 131076 bytes of 255 have another checksum than their exact sum |
| Checksum.BuildIcmpEchoRequest | src/dhcp.rs:2360-2369 | the packet carries its identifier in place and its checksum verifies |
| Arp.ArpCache.BeginRefresh | src/arp.rs:121-128 | every record but the negative ones is marked, announced or not |
| Arp.ArpCache.FilterMac | src/arp.rs:136-168 | an enumerated pair settles a negative record or confirms its own, otherwise it is new; too long hardware addresses are refused |
| Arp.ArpCache.FinishRefresh | src/arp.rs:175-185 | records still marked move to the queue in order, the rest stay in order |
| Arp.ArpCache.FindMacCached | src/arp.rs:197-210 | the first record of the address that may answer and has a hardware address |
| Arp.ArpCache.AddEmpty | src/arp.rs:217-227 | a negative record is added unless the address is known |
| Arp.ArpCache.DoArpScriptRun | src/arp.rs:469-491 | deletions are reported first, then the first unannounced record, which becomes announced |
| Arp.ArpCache.FindMac | src/arp.rs:252-288 | enumerates at most once, exactly when the kernel may be asked and the cache is stale or misses; after a kernel miss the address has a record |
| Arp.ArpCache.RefreshIfStale | src/arp.rs:299-309 | one refresh if stale, no change otherwise |
| ArpRuns.RefreshIsExact | src/arp.rs:121-185 | after a refresh the positive records are exactly the pairs of that enumeration with hardware addresses of at most 16 bytes |
| ArpRuns.FirstRefreshTakesAll | src/arp.rs:121-185 | the first refresh takes in the enumeration as it is, repetitions included |
| ArpRuns.PositiveIsLatest | src/arp.rs:121-227 | in every run the positive records are exactly the pairs of the latest enumeration |
| ArpRuns.LookupAnswersFromLatest | src/arp.rs:197-210 | in every run a lookup returns only pairs of the latest enumeration, and finds one if there is one |
| ArpRuns.RecordsAreConserved | src/arp.rs:121-227 | in all runs, records ever created equal records in use plus queued ones plus reported deletions |
| ArpRuns.RefreshKeepsConsistentIff | src/arp.rs:121-185 | when no pair is enumerated twice, a refresh keeps announcements and records in step if and only if every record has been announced when it starts, queued deletions notwithstanding |
| ArpRuns.RunIsConsistentIff | src/arp.rs:121-227 | they are in step throughout a run if and only if no refresh overtakes an announcement |
| ArpRuns.DrainedIsAnnounced | src/arp.rs:469-491 | in such runs, whenever no event is waiting, the announced and not withdrawn pairs are exactly the positive ones |
| ArpRuns.EventsArePaired | src/arp.rs:469-491 | in such runs every deletion withdraws an announced pair and every addition announces one that is not |
| ArpRuns.OvertakenEventIsLost | src/arp.rs:121-168 | a pair reported by two refreshes in a row is in use with no event waiting and was never announced |
| ArpRuns.OvertakenEventWithdrawsUnannounced | src/arp.rs:121-185 | a pair that comes and goes within two refreshes is withdrawn without having been announced |
| Zones.InZoneIsDomainMatches | src/auth.rs:84-102 | being in a named zone is matching it as a domain, after trailing dots are dropped |
| Zones.ApexIff | src/auth.rs:84-102 | a name is at the apex exactly when it is the zone's name, trailing dots aside |
| Zones.CutIff | src/auth.rs:84-102 | a name is cut exactly where the part before, a dot and the zone's name make it up |
| Zones.IsSameNet6 | src/auth.rs:123-140 | the octet loop decides whether the first bits agree; a negative length compares all bits |
| Zones.FindSubnet | src/auth.rs:146-166 | the first entry of the family that matches the address |
| Zones.FilterZoneIff | src/auth.rs:187-202 | an address passes exactly when no excluded subnet agrees with it on the bits of its prefix and, if there are subnets, one of them does |
| Zones.ZoneNibblesAreTouched | src/auth.rs:237-251 | a zone is named by the nibbles its prefix touches |
| Zones.ReverseZoneName6 | src/auth.rs:237-251 | the loop over bits writes the nibbles the prefix touches, in reverse |
| Zones.ReverseZoneName4 | src/auth.rs:224-236 | the shifts write the leading one, two or three octets, in reverse |
| Zones.PtrInZone6Iff | src/auth.rs:84-255 | the PTR name of an address is in the reverse zone of a prefix exactly when the two agree on the nibbles the prefix touches |
| Zones.PtrInZone6 | src/auth.rs:84-255 | for prefixes on a nibble boundary the reverse zone holds exactly the addresses of the subnet |
| Zones.PtrInZone4Iff | src/auth.rs:84-255 | the PTR name of an IPv4 address is in the reverse zone, at a label boundary, exactly when the two agree on the octets the zone is named by |
| Zones.PtrInZone4 | src/cache.rs:1663-1686 | every address of a subnet with a prefix of 8 to 32 bits has its PTR name inside the zone; for 8, 16 and 24 bits no other has |
| AuthAnswers.CollectOthers | src/auth.rs:515-575 | records of other types answer for their own name and type, and make names below them exist |
| AuthAnswers.CollectInts | src/auth.rs:577-596 | interface names answer with the addresses of the asked family that pass the filter |
| AuthAnswers.CollectHosts | src/auth.rs:630-667 | cached DHCP and hosts records answer with the addresses that pass the filter |
| AuthAnswers.FindAlias | src/auth.rs:669-698 | the chosen alias is the one the scan over exact and wildcard aliases prefers |
| AuthAnswers.AliasPreference | src/auth.rs:669-698 | the first exact alias wins over wildcards, unless the name is empty or a wildcard of its whole length stands before it; without one the first matching wildcard is taken, not the longest |
| AuthAnswers.FollowsLongestIff | src/auth.rs:669-698 | without an exact alias a longest matching wildcard is followed if and only if the first matching one is such |
| AuthAnswers.LongestWildcardLoses | src/auth.rs:669-698 | "*.com" before "*.example.com" is followed for "a.example.com" |
| AuthAnswers.OnePass | src/auth.rs:509-667 | one pass collects all sources in order and says whether the name exists |
| AuthAnswers.AnswerForward | src/auth.rs:486-711 | the restart loop takes at most two passes, cyclic aliases included, and gives the reference answer, which follows at most one alias |
| AuthOutcomes.RefusedIff | src/auth.rs:486-508 | a query is refused if and only if no configured zone contains the name |
| AuthOutcomes.FirstZoneDecides | src/auth.rs:486-508 | otherwise the first zone containing the name decides, and an answer is from it |
| AuthOutcomes.DeniedIff | src/auth.rs:486-711 | an answer denies the name if and only if it is not the apex, nothing exists at or above it, no alias matches it and it is no intermediate name |
| AuthOutcomes.DroppedIff | src/auth.rs:509-711 | a query is dropped if and only if it asks for a transfer without permission, at the apex or at a name an alias sends elsewhere |
| AuthOutcomes.RecordsAreExact | src/auth.rs:486-711 | a record that is no address is answered if and only if it is configured for the name and type, or is the chosen alias of a name with nothing of its own, or is configured for what that stands for |
| AuthAnswers.AnswersAreExact | src/auth.rs:486-711 | an address record is answered if and only if an interface name or cached record of the queried name and family, or of the alias target the name is sent to, holds the address and the filter of the selected zone passes it |
| AuthAnswers.AnswersAreFiltered | src/auth.rs:486-711 | every address answered to a non-local query passes the filter of the zone selected for the queried name, also after an alias |
| AuthAnswers.CollectTransfer | src/auth.rs:850-898 | the addresses of a zone transfer: interface names of the zone by family, then live cached records of the zone |
| AuthAnswers.TransferIsExact | src/auth.rs:850-898 | an address record is transferred if and only if an interface name or a live record of the zone, or a bare DHCP name put under it, holds the address and the zone's filter passes it |
| AuthAnswers.TransferIsFiltered | src/auth.rs:850-898 | every address of a transfer to a non-local peer passes the zone's filter |
| SynthNames.QuadRoundTrip | src/domain.rs:83-111 | parsing a printed dotted quad gives back the address |
| SynthExactness.QuadIff | src/domain.rs:99-108 | an address is read from exactly one string, its printed form |
| SynthExactness.DashedSpelling | src/domain.rs:168-205 | the dashed label spells the four octets, the most significant first |
| SynthNames.Ipv4NameRoundTrip | src/domain.rs:71-205 | reading the name made for any address of the range gives back that address, indexed or dashed |
| SynthExactness.DashedNameIff | src/domain.rs:82-131 | a name of a dashed domain is read as an address if and only if the address is in range and the name is the one made for it, up to letter case |
| SynthExactness.IndexedNameIff | src/domain.rs:82-131 | a numbered name is read as an address if and only if the number counts it from the start and does not pass the end |
| SynthNames.UncompressedRoundTrip | src/domain.rs:210-233 | parsing the eight printed groups gives back the IPv6 address |
| SynthNames.Ipv6NameRoundTrip | src/domain.rs:133-233 | reading the name made for an address of the range gives back that address, for the dashed form always, for the indexed form if and only if the upper 64 bits are those of the start |
| SynthExactness.HexSpelling | src/domain.rs:210-233 | the dashed label of an IPv6 address spells its eight groups in full, the most significant first |
| SynthExactness.Address6IsInRange | src/domain.rs:133-165 | whatever is read as an IPv6 address has the prefix, the domain and a lower half in range |
| Netlink.AppendNla | src/conntrack.rs:70-79 | appends length, type, data and padding |
| Netlink.ForEachNla | src/conntrack.rs:87-102 | on any bytes the loop ends in bounds and visits the attributes up to the first malformed one |
| Netlink.DecodeInvertsEncode | src/conntrack.rs:70-102 | decoding any sequence of encoded attributes of up to 65531 bytes gives back exactly their types and data in order, despite padding |
| Netlink.DecodeInvertsEncodeIff | src/conntrack.rs:70-102 | for any sequence this holds if and only if every attribute has at most 65531 bytes |
| Netlink.AttributeReadsBackIff | src/conntrack.rs:70-102 | any attribute is the first one read from its encoding if and only if it has at most 65531 bytes |
| Netlink.OversizedAttributeIsLost | src/conntrack.rs:70-102 | an attribute of 65532 bytes leaves nothing to read |
| Netlink.BuildGetMarkQuery | src/conntrack.rs:116-180 | the builder writes the header and the nested tuple |
| Netlink.QueryDecodesToItsFlow | src/conntrack.rs:116-180 | the length field is the length, and the query decodes back to its addresses, ports and protocol if both addresses are of one family, and to none otherwise |
| Netlink.IpBytes | src/conntrack.rs:116-180 | the addresses of an IPv4 flow in bytes |
| Netlink.ProtoBytes | src/conntrack.rs:116-180 | the protocol and the ports in bytes |
| Netlink.TupleBytes | src/conntrack.rs:116-180 | the two nested levels in bytes |
| Netlink.QueryBytes | src/conntrack.rs:116-180 | the headers of the query for an IPv4 flow in bytes |
| Netlink.QueryFamily | src/conntrack.rs:116-180 | the header names the address family of the peer |
| Netlink.ParseMarkResponse | src/conntrack.rs:190-212 | short and error messages give no mark; otherwise the last four-byte mark attribute does |
| Netlink.ResponseMark | src/conntrack.rs:190-212 | a response that is no error and whose last four-byte mark attribute holds the bytes of m, the most significant first, yields m |
| Netlink.NoResponseMark | src/conntrack.rs:190-212 | without such an attribute, in an error message and in a short one there is no mark |

## Left out

- FilterExactness.BestForEveryQueryIff: groups that hold 0.0.0.0, IPv4 and IPv6 entries at once have entries of one kind each, with the literal bit on those that have an address and never together with "use resolv.conf".
- LookupMeaning.LookupMeans: needs a table in which no domain is both plain and a wildcard and the entries for names without dots have no domain; `ServerLookup.Lookup` has no such condition, and `FilterExactness.BestForEveryQueryIff` says what happens without it.
- ServerLookup.Lookup: needs a table in which no query is shortened by a negative length, which `CropSafeIff` characterises; elsewhere the code's arithmetic leaves the name. Names are ASCII, so that cutting a name never falls inside a character.
- LocalReplies.ReplyMeans: of the entries `build` accepts, local ones have at most one kind of address, of the family their bits say, and upstream ones have none; cutting the reply to its size budget is not modelled.
- SynthNames.Ipv6NameRoundTrip: takes the standard library's IPv6 parser as a parameter that reads the uncompressed form of section 2.2 of RFC 4291 as defined here; what it makes of compressed forms is open.
- DbusServers.LastSuccessDecides: takes the parsing of one address literal with its optional port as a parameter.
- DhcpAlloc.AddressAllocate: pools have a start that is not after their end, the probe is a fixed predicate of the address, and the age of a check is compared exactly instead of in floating point.
- Checksum.IcmpChecksum: the accumulator wraps as in a release build; a debug build stops instead.
- ServerMetrics.ServerMetrics: sums are exact, without 32-bit overflow.
- CacheRuns.ExpiryIsUnobservable: leaves out batches with a pointer alias whose targets in the cache have all expired, since then a sweep can be observed; of a batch, every single insert must push out nothing alive, which is enough but not always needed, since a later record of the batch may put a lost key back.
- NonTerminals.LiveRecordsHaveLiveAncestors: needs room, lower-case names and positive records, since placeholders are stored under the given spelling and negative records leave placeholders under another key.
- AuthAnswers.AnswerForward: MX, SRV, raw, TXT and NAPTR records are one list of owner names, types and data, in the order they are consulted; raw records of type A or AAAA, the rotation of SRV records, the reverse (PTR) branch, and the SOA and NS sections are not modelled.
- ServerTable.Build: is the build with loop detection compiled in, which leaves out looping servers. On entries that are not serial-safe the sort is the insertion sort of `SortEntries`, where the code's sort leaves the order open and may stop.
- ServerTable.UpstreamsInConfigurationOrder: on entries that are not serial-safe, speaks of that insertion sort only.
- Cache.DnsCache.Insert: global metrics are not modelled, only the counters of the cache.
- Reverse lookups by address, lookups of all records of a name, and the remaining lifetime reported to clients (src/cache.rs).
- The DNSSEC lookup of a server by index, server loop detection and sockets (src/domain_match.rs).
- Reading hosts, ethers and configuration files, logging, statistics text and the table of record types.
- Socket, async and select loops, control messages, and signature libraries.
- DHCP message handlers and the packet format.
- Names over a list of several conditional domains, where another domain may claim the name first; domains bound to an interface.
- D-Bus method dispatch, lease calls and signals.
