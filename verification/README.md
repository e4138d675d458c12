# Verified models of addr.tools

This project models the parts of addr.tools whose correctness spans several functions or a
whole run, and proves what they promise. Pure code is modelled by functions; code that
updates state or loops is modelled by methods and classes proved against those functions;
concurrent code is modelled by atomic steps whose every interleaving is covered.

- **Addresses and ranges** (`Bits`, `Text`, `IpAddr`, `AddrText`, `AddrGrammar`, `IpRange`): 128-bit
  addresses, their parser and printer, CIDR arithmetic. Which texts denote which addresses is
  spelled out group by group. Printing and parsing are inverse for every address; for ranges,
  exactly for the aligned blocks.
- **RDAP service selection** (`StableSort`, `Rdap`, `RdapCache`): sort-then-first-match is
  longest-prefix match; the per-service cache behind a FIFO mutex is safe under every
  interleaving of lookups.
- **The store with expiring values** (`Bytes`, `Clock`, `TtlStore`, `SimpleTtlStore`, `StoreRuns`): the
  store class refines a timed multimap, and its counter and dirty flag are right in every run.
- **myaddr** (`MyaddrRecords`, `Myaddr`, `MyaddrOwnership`, `MyaddrHistory`, `MyaddrResolve`,
  `MyaddrTxt`, `MyaddrRequests`): who owns a name and for how long, that no record outlives its
  registration, that an accepted address or challenge is what resolves, that no query fails, and
  exactly when each request is accepted.
- **The live feed** (`Sequences`, `WatcherHub`, `Tail`): handlers that register, start a tail and take both
  away again; the polling tail and its bounded queue.
- **Oblivious DoH** (`OdohWire`, `OdohConfigs`, `Odoh`): exact codecs and end-to-end delivery
  over ideal cryptography.
- **dnscheck options and signed answers** (`AsciiCase`, `Options`, `Dnssec`): the option
  grammar, and the deferred pipeline that signs answers and proves non-existence.

`dafny verify dfyconfig.toml` checks everything.

## What the code does not promise

Some properties one would expect are false of the code. Each is settled by the exact condition
under which the code meets it, and by a concrete input or by the failing side of that condition.

- A range whose ends differ by a mask but that is not aligned prints as CIDR notation, and not for
  that range: ::5 to ::a prints as ::5/124, which is ::0 to ::f, and 0.0.0.0 up to
  ::1:0:ffff:ffff prints as 0.0.0.0/-17, which is nothing. `IpRange.RangeRoundTrip` says that the
  aligned blocks are exactly the ranges that survive; `IpRange.UnalignedExample` and
  `IpRange.NegativePrefixExample` are the inputs.
- `Set` in the store is not atomic. When the other entries alone fill the limit it fails after
  having dropped the key, and leaves the dirty flag as it was, so the file can differ from a
  store that is not dirty. `StoreRuns.SetFailure` and `StoreRuns.EventKeepsCleanExactly` give the
  conditions, `StoreRuns.SetLosesKeyExample` and `StoreRuns.SetLosesEmptyListExample` the inputs.
  A store can get there only by loading a file that is above its limit or holds an empty list
  (`StoreRuns.BookkeepingHolds`, `StoreRuns.SetOnPresentKeyExactly`).
- The expiry myaddr reports is not always the store's. A registration updated or suspended at the
  clock reading of its creation is stored for 120 days and reported to end in an hour:
  `MyaddrHistory.EarlyUpdateExample` is the input. `MyaddrHistory.ReportedExpiryIsSafe` and
  `MyaddrHistory.RenewalReport` give the condition, which is the guard now == created of the
  renewing write; the report is never late.
- Two websocket handlers under one id can both pass the registration check. The one that leaves
  first stops the other's tail and removes its registration
  (`WatcherHub.SameIdRaceSilencesSecond`). A tail and a registration are kept exactly while the id
  is undisturbed (`WatcherHub.TailIsLiveExactlyWhenUndisturbed`,
  `WatcherHub.RegistrationIsKeptExactlyWhenUndisturbed`), and when no check is made between
  another handler's check and its registration every running handler has both
  (`WatcherHub.CarefulHandlersKeepBoth`). Safety and cleanup hold all the same.
- `checkField` in Oblivious DoH bounds each field but not their sum. A query or response whose
  sealed size exceeds 65535 bytes, whose padding is not zero, or a response that is empty, is
  encrypted without an error and then refused by its receiver (`Odoh.QueryDelivery`,
  `Odoh.ResponseDelivery`). The comment at internal/odoh/odoh.go:117-122 calls the saturating
  length unreachable; it is reached that way, and is then rejected, as the comment hopes.

## Model

| member | source | states |
|---|---|---|
| `Bits.NestedOrDisjoint` | website/addr.tools/js/rdap.js:110-113 | two aligned power-of-two blocks are nested or disjoint, which is what lets a sort order stand for specificity |
| `Bits.RoundingMakesBlock` | website/addr.tools/js/ipaddr.js:114-116 | clearing and setting the host bits of any value gives an aligned block that contains it |
| `Bits.MaskTest` | website/addr.tools/js/ipaddr.js:136 | `(m + 1) & m` is zero exactly for the values 2^k - 1, k being the bit length of m |
| `Bits.BitwiseMeaning` | website/addr.tools/js/ipaddr.js:114-116 | and, or, xor and and-not work bit by bit |
| `Bits.LowIsRemainder` | website/addr.tools/js/ipaddr.js:114-116 | the low k bits are the remainder of the division by 2^k, and shifting by k gives the quotient |
| `IpAddr.Is4Range` | website/addr.tools/js/ipaddr.js:41-43 | the mask comparison holds exactly for the 2^32 IPv4-mapped values |
| `IpAddr.OctetMeaning` | website/addr.tools/js/ipaddr.js:86 | the octet pattern matches exactly the decimals up to 255 without leading zeros |
| `IpAddr.GapShape` | website/addr.tools/js/ipaddr.js:91-95 | every accepted IPv6 text is eight groups, or at most seven groups around one `::` whose place is the first empty piece the loop meets |
| `IpAddr.FillOctets` | website/addr.tools/js/ipaddr.js:6-8 | the octet loop leaves the big-endian value of the four decimals, and or-ing in the IPv4-mapped prefix adds it |
| `IpAddr.FillWords` | website/addr.tools/js/ipaddr.js:12-23 | the group loop leaves, word by word, the leading groups, zeros, and the trailing groups flush right |
| `IpAddr.FillTail` | website/addr.tools/js/ipaddr.js:16-20 | the backward loop writes the trailing groups flush right and touches no leading word |
| `IpAddr.ParseAddress` | website/addr.tools/js/ipaddr.js:5-27 | the constructor on a text computes the value the grammar gives it and fails on every other text |
| `AddrGrammar.DigitTable` | website/addr.tools/js/ipaddr.js:14-18 | the sixteen hex digits, in either letter case, and no others stand for 0 to 15 |
| `AddrGrammar.HextetMeaning` | website/addr.tools/js/ipaddr.js:14-18 | a group of one to four digits has its value by place |
| `AddrGrammar.QuadMeaning` | website/addr.tools/js/ipaddr.js:6-8 | a dotted quad a.b.c.d denotes 0xffff00000000 + a * 2^24 + b * 2^16 + c * 2^8 + d |
| `AddrGrammar.FourGrammar` | website/addr.tools/js/ipaddr.js:86-90 | exactly the texts of four decimals up to 255 are IPv4 texts |
| `AddrGrammar.EightWords` | website/addr.tools/js/ipaddr.js:24 | eight words have their 128-bit value by place |
| `AddrGrammar.FullMeaning` | website/addr.tools/js/ipaddr.js:10-24 | eight groups denote their eight values, in order |
| `AddrGrammar.GapMeaning` | website/addr.tools/js/ipaddr.js:10-24 | `::` stands for as many zero words as the groups on its two sides leave open |
| `AddrGrammar.SixGrammar` | website/addr.tools/js/ipaddr.js:91-99 | exactly eight groups, or two lists of together at most seven groups around `::`, are IPv6 texts |
| `AddrGrammar.AddressFold` | website/addr.tools/js/ipaddr.js:5-27 | the letter case of an address text does not matter, for every text |
| `AddrText.PrintedGroups` | website/addr.tools/js/ipaddr.js:32-34 | the groups printed are the eight 16-bit words of the value: four digits each, or after zero stripping each word's shortest numeral |
| `AddrText.QuadRoundTrip` | website/addr.tools/js/ipaddr.js:69-71 | an IPv4-mapped value prints as a dotted quad that parses back to it |
| `AddrText.TextRoundTrip` | website/addr.tools/js/ipaddr.js:68-82 | for every 128-bit value and every choice of short6 and force6, parsing the printed text gives the value back |
| `AddrText.ShortFormCompressesFirstLongestRun` | website/addr.tools/js/ipaddr.js:73-80 | the short form replaces the first longest run of at least two zero groups (section 4.2 of RFC 5952), and nothing exactly when there is none |
| `AddrGrammar.PrintedQuad` | website/addr.tools/js/ipaddr.js:69-71 | without force6 exactly the IPv4-mapped values print as a dotted quad, of their last four bytes in order |
| `AddrGrammar.PrintedWords` | website/addr.tools/js/ipaddr.js:72-82 | the long form is the eight words in order with four digits each; the short form their shortest numerals, with `::` for the first longest run of two or more zeros |
| `IpRange.PrefixMeaning` | website/addr.tools/js/ipaddr.js:151-156 | the prefix length patterns match exactly the decimals up to 32 and up to 128 without leading zeros |
| `IpRange.ContainsMeaning` | website/addr.tools/js/ipaddr.js:128-133 | a range contains an address between its two ends, and another range exactly when it contains every address of it |
| `IpRange.ParsedIsCidr` | website/addr.tools/js/ipaddr.js:102-116 | every range parsed from CIDR notation is an aligned block |
| `IpRange.CidrGrammar` | website/addr.tools/js/ipaddr.js:102-116 | a text is the CIDR notation of a range if and only if it is an address text, a slash and a prefix length within 32 or 128, and the range is the aligned block of that size around the address |
| `IpRange.ToRangeIsCidr` | website/addr.tools/js/ipaddr.js:49-67 | `toRange` succeeds exactly for 0 up to 32 bits of a mapped and 128 of any other address, and gives the aligned block of that size around the address |
| `IpRange.CidrMeaning` | website/addr.tools/js/ipaddr.js:134-136 | the check on the two ends of a range holds exactly for aligned blocks of 2^k addresses, k the bit length of their xor |
| `IpRange.ComputePrefixLength` | website/addr.tools/js/ipaddr.js:140-148 | the two shift loops compute 128 minus the bit length of the host mask |
| `IpRange.FormatRange` | website/addr.tools/js/ipaddr.js:134-150 | printing a range computes its text form: CIDR when the ends are a mask apart, hyphenated otherwise |
| `IpRange.BlockText` | website/addr.tools/js/ipaddr.js:139-149 | an aligned block of 2^k addresses prints as its start, a slash and the number of fixed bits, in IPv4 form and out of 32 exactly for a mapped start |
| `IpRange.HyphenText` | website/addr.tools/js/ipaddr.js:136-139 | a range with no CIDR form prints as its two ends in order around " - ", both in IPv4 form exactly when both are mapped |
| `IpRange.AddressTextShape` | website/addr.tools/js/ipaddr.js:68-71 | which family a printed address parses as: IPv4 exactly for mapped values without force6 |
| `IpRange.ParseCidrText` | website/addr.tools/js/ipaddr.js:149 | what the CIDR text of any range a mask apart parses to: the block around its start, or nothing for a mapped start with more than 32 host bits |
| `IpRange.RangeRoundTrip` | website/addr.tools/js/ipaddr.js:134-150 | printing a range and parsing the text gives the range back if and only if it is an aligned block |
| `IpRange.CidrTextRoundTrip` | website/addr.tools/js/ipaddr.js:102-150 | for every CIDR text that parses, printing the range and parsing again gives the same two ends |
| `IpRange.UnalignedExample` | website/addr.tools/js/ipaddr.js:117-123 | ::5 to ::a passes the printer's mask test, prints as CIDR notation, and parses back as ::0 to ::f |
| `IpRange.NegativePrefix` | website/addr.tools/js/ipaddr.js:149 | a range from a mapped start with more than 32 host bits prints with a negative prefix length, and the text parses as nothing |
| `IpRange.NegativePrefixExample` | website/addr.tools/js/ipaddr.js:117-149 | 0.0.0.0 up to ::1:0:ffff:ffff is accepted, prints as 0.0.0.0/-17, and that parses as nothing |
| `StableSort.SortProperties` | website/addr.tools/js/rdap.js:110-113 | sorting by a strict weak order gives a sorted permutation |
| `StableSort.FindMeaning` | website/addr.tools/js/rdap.js:48-50 | the scan finds the first match, and nothing exactly when nothing matches |
| `StableSort.SortThenFind` | website/addr.tools/js/rdap.js:132 | scanning the sorted list for the first match agrees, on every list, with a reference that never sorts |
| `StableSort.BestMeaning` | website/addr.tools/js/rdap.js:110-132 | that reference finds the first listed of the least matching elements, and nothing exactly when nothing matches |
| `Rdap.HttpsUrlMeaning` | website/addr.tools/js/rdap.js:78 | a service is known by the first of its URLs that starts with "https:" |
| `Rdap.TableMeaning` | website/addr.tools/js/rdap.js:100-109 | the table holds exactly the listed ranges with their service's first https URL, and is rejected exactly when a listed text does not parse |
| `Rdap.LongestPrefixMatch` | website/addr.tools/js/rdap.js:110-132 | the first containing network after sorting lies within every network containing the query, is the first listed of its bounds, and exists exactly when some network contains the query (section 5 of RFC 9224) |
| `Rdap.LookupIPIsMostSpecific` | website/addr.tools/js/rdap.js:127-137 | for every bootstrap content and query text: the URL found is the most specific network's, and each failure has its one cause |
| `Rdap.LookupIPFromBootstrap` | website/addr.tools/js/rdap.js:92-137 | in terms of the bootstrap lists and single addresses, with no mention of table, sort or scan: the network found contains every address asked about, lies within every other listed one that does, and is named by the first service listing it; each of the three failures exactly in its case |
| `Rdap.LongestSuffixMatch` | website/addr.tools/js/rdap.js:86-121 | every matching suffix is a suffix of the one found, which is the first listed of its text |
| `Rdap.LookupDomainFromBootstrap` | website/addr.tools/js/rdap.js:71-125 | the URL found is that of the first service listing the longest key the name ends in behind a dot, in any letter case; nothing is found exactly when it ends in none |
| `RdapCache.Mutex.LockFor` | website/addr.tools/js/util.js:11-20 | locking resolves at once exactly when the lock is free, and queues otherwise |
| `RdapCache.Mutex.Unlock` | website/addr.tools/js/util.js:21-28 | unlocking hands the lock to the longest waiter, or frees it |
| `RdapCache.IPService.Begin` | website/addr.tools/js/rdap.js:52-55 | the first segment of a lookup: answered from the cache, or asks for the lock |
| `RdapCache.IPService.Resume` | website/addr.tools/js/rdap.js:56-59 | the second segment: looks again under the lock, and fetches only if the cache still does not cover the query |
| `RdapCache.IPService.Finish` | website/addr.tools/js/rdap.js:59-64 | the third segment: remembers an answer and always unlocks |
| `RdapCache.IPService.Remember` | website/addr.tools/js/rdap.js:38-47 | an answer is appended to the cache under its range, or ignored |
| `RdapCache.AddCacheMeaning` | website/addr.tools/js/rdap.js:38-47 | an answer is added exactly when both its bounds are present, parse and are ordered, and then under the range from the one to the other |
| `RdapCache.GetCachedMeaning` | website/addr.tools/js/rdap.js:48-50 | the answer found is that of the first cached range containing the query, and none exactly when there is no such range |
| `RdapCache.AnsweredExactlyWhenCovered` | website/addr.tools/js/rdap.js:51-59 | a lookup is answered from the cache exactly when a cached range contains its query, at its start or once it has the lock; otherwise it waits, is granted the lock, or fetches |
| `RdapCache.EveryRunIsSafe` | website/addr.tools/js/rdap.js:51-67 | every interleaving of lookups keeps: one holder at most, waiters only behind a held lock, grants in arrival order, and cache hits whose own two bounds enclose every address asked about |
| `RdapCache.ReachableIsSafe` | website/addr.tools/js/rdap.js:51-67 | in every reachable state at most one fetch is in flight, grants are a prefix of the arrivals, whoever is unfinished has a holder to wait for, and for every lookup answered from the cache both bounds of the answer parse and every address of the query lies between them |
| `RdapCache.CachedAnswersWereFetched` | website/addr.tools/js/rdap.js:51-67 | nothing is cached or served from the cache that no fetch of the run gave |
| `RdapCache.EveryLookupEnds` | website/addr.tools/js/rdap.js:52-67 | under every interleaving a lookup takes at most three actions of its own, and when none can go on all are done |
| `RdapCache.CoveredNeverFetches` | website/addr.tools/js/rdap.js:57-58 | once some cached range covers a lookup that has not started fetching, it never fetches, whatever else runs |
| `SimpleTtlStore.SimpleStore.AddEntry` | internal/ttlstore/simple.go:27-38 | appends one entry, counts it and marks the store dirty, or fails and changes nothing when full |
| `SimpleTtlStore.SimpleStore.Set` | internal/ttlstore/simple.go:46-54 | drops the key's entries, then adds; the drop stays when the add fails |
| `SimpleTtlStore.SimpleStore.Exists` | internal/ttlstore/simple.go:67-77 | true exactly when some value is live |
| `SimpleTtlStore.SimpleStore.AllValues` | internal/ttlstore/simple.go:79-89 | the live values in order |
| `SimpleTtlStore.SimpleStore.First` | internal/ttlstore/simple.go:91-101 | the first live value, if any |
| `SimpleTtlStore.SimpleStore.List` | internal/ttlstore/simple.go:56-65 | exactly the stored keys with the prefix |
| `SimpleTtlStore.SimpleStore.RemoveFromSlice` | internal/ttlstore/simple.go:106-116 | the deletion loop leaves the other entries in order and counts down by the number removed |
| `SimpleTtlStore.SimpleStore.Remove` | internal/ttlstore/simple.go:103-126 | removes every entry with the value; the key goes with its last entry; the dirty flag is set only when something was removed |
| `SimpleTtlStore.SimpleStore.Delete` | internal/ttlstore/simple.go:128-137 | deletes the key and its count |
| `SimpleTtlStore.SimpleStore.PruneSlice` | internal/ttlstore/simple.go:151-159 | the deletion loop leaves the live entries in order and counts down by the number dropped |
| `SimpleTtlStore.SimpleStore.Prune` | internal/ttlstore/simple.go:145-169 | every key keeps exactly its live entries, in whatever order the keys are visited; size and dirty flag follow |
| `SimpleTtlStore.SimpleStore.WriteFile` | internal/ttlstore/simple.go:178-201 | a completed write makes the file the contents and clears the dirty flag; a failed one changes nothing |
| `SimpleTtlStore.SimpleStore.LoadFile` | internal/ttlstore/simple.go:217-236 | contents and counter come from the file; the dirty flag stays as it was |
| `StoreRuns.StoreIsTimedMultimap` | internal/ttlstore/simple.go:27-169 | after any run, the values read at any later time are, in order, those a log of the operations left there that have not expired; pruning is not in the log |
| `StoreRuns.RunRefines` | internal/ttlstore/simple.go:27-236 | the refinement over runs with failures, writes and loads, for every key and starting contents |
| `StoreRuns.PruneIsInvisible` | internal/ttlstore/simple.go:145-169 | pruning changes no value read then or later |
| `StoreRuns.PruneListsLiveKeys` | internal/ttlstore/simple.go:145-169 | for every store: the keys left by pruning are exactly those with a live value or an empty list; without empty lists, exactly those with a live value |
| `StoreRuns.AddMeaning` | internal/ttlstore/simple.go:27-44 | a full store refuses a value; otherwise it is read behind the others exactly while the clock is before now + ttl in 32 bits, and other keys are left alone |
| `StoreRuns.SetMeaning` | internal/ttlstore/simple.go:46-54 | a value that is set is the only one read under its key, until its time has come; a failed Set and a Delete leave none |
| `StoreRuns.RemoveMeaning` | internal/ttlstore/simple.go:103-126 | removing takes away every copy of the value from its key and nothing else |
| `StoreRuns.BookkeepingHolds` | internal/ttlstore/simple.go:27-236 | in every run that loads only files within the limit and without empty lists: size is the number of entries and within the limit, no list is empty, and a store that is not dirty equals its file |
| `StoreRuns.FreshStoreIsBooked` | internal/ttlstore/simple.go:27-236 | so for every store grown from empty |
| `StoreRuns.CounterHolds` | internal/ttlstore/simple.go:27-236 | whatever is loaded, the size counter is the number of stored entries in every run |
| `StoreRuns.SetOnPresentKeySucceeds` | internal/ttlstore/simple.go:46-54 | within the limit and without empty lists, Set on a present key never fails |
| `StoreRuns.SetOnPresentKeyExactly` | internal/ttlstore/simple.go:46-54 | with the limit kept, Set on a present key fails if and only if there is a limit, the store is at it, and the list of the key is empty |
| `StoreRuns.SetFailure` | internal/ttlstore/simple.go:46-54 | for every store: Set fails exactly when the other entries alone fill the limit, and then the key is gone |
| `StoreRuns.SetKeepsCleanExactly` | internal/ttlstore/simple.go:46-54 | Set keeps "not dirty means equal to the file" if and only if the store is dirty, or the key absent, or there is no limit, or the other entries leave room |
| `StoreRuns.EventKeepsCleanExactly` | internal/ttlstore/simple.go:27-236 | of all operations, a Set without room on a present key of a store that is not dirty is the one that breaks "not dirty means equal to the file" |
| `StoreRuns.DirtyExactly` | internal/ttlstore/simple.go:27-236 | when each operation sets the dirty flag, and what a completed and a failed write and a load do |
| `StoreRuns.SetLosesKeyExample` | internal/ttlstore/simple.go:46-54 | a store of limit 2 that loaded three entries: Set fails, the old value is lost, and the store is still not dirty |
| `StoreRuns.SetLosesEmptyListExample` | internal/ttlstore/simple.go:46-54 | a store of limit 2 that loaded two entries and an empty list: Set on the empty one fails, and the store is still not dirty and no longer its file |
| `MyaddrRecords.IsValidName` | internal/zones/myaddr/api.go:96-118 | the byte loop accepts exactly the names the comment describes, stated position by position |
| `MyaddrRecords.NameMeaning` | internal/zones/myaddr/api.go:96-118 | a name has 6 to 40 letters, digits and hyphens, begins with a letter and does not end in a hyphen |
| `MyaddrRecords.KeyInjective` | internal/zones/myaddr/api.go:61-91 | the store keys of distinct registrations, addresses and key hashes differ, whatever text stands for a name |
| `MyaddrRecords.KeyLayout` | internal/zones/myaddr/api.go:61-91 | the store keys, spelled out |
| `MyaddrRecords.RegistrationRoundTrip` | internal/zones/myaddr/api.go:41-57 | decoding an encoded registration gives it back |
| `MyaddrRecords.RegistrationLayout` | internal/zones/myaddr/api.go:41-47 | an encoded registration is the creation and the update time, each four bytes big-endian, and the text of the digest |
| `MyaddrRecords.AddressRoundTrip` | internal/zones/dyn/api.go:24-39 | decoding an encoded address gives it back if and only if it has 4 or 16 bytes |
| `MyaddrRecords.AddressLayout` | internal/zones/dyn/api.go:24-29 | an encoded address is the update time, four bytes big-endian, and the address bytes |
| `Myaddr.StoredIpMeaning` | internal/zones/dyn/api.go:61-68 | of a mapped address exactly its last four bytes are stored, of any other all of it, and the IPv4 family is the four-byte and the mapped addresses |
| `Myaddr.IsValidChallenge` | internal/zones/challenges/api.go:21-40 | the byte loop accepts exactly the challenge strings |
| `Myaddr.ChallengeMeaning` | internal/zones/challenges/api.go:21-40 | a challenge has 1 to 255 letters, digits, hyphens and underscores |
| `Myaddr.UnlimitedStore` | internal/ttlstore/simple.go:27-137 | the store calls of the handlers are those of the store class without a size limit |
| `Myaddr.Service.WriteRegistration` | internal/zones/myaddr/api.go:69-94 | creates or renews the registration and, for a non-empty hash, its key entry with the same lifetime; an undecodable record changes nothing |
| `Myaddr.Service.HandleRegister` | internal/zones/myaddr/api.go:319-391 | the registration request: refused, conflicting, failed, or recorded under the lower-case name |
| `Myaddr.Service.HandleUnregister` | internal/zones/myaddr/api.go:219-318 | the delete request removes both addresses, the registration, the presented key and the challenges of the key's name |
| `Myaddr.Service.HandleUpdate` | internal/zones/myaddr/api.go:412-554 | the update request: refused, both addresses removed, or an address or a challenge written and the registration renewed |
| `Myaddr.Service.WriteIp` | internal/zones/dyn/api.go:61-77 | the address is stored under its family with the clock reading and a 90-day life |
| `Myaddr.Service.HandleAdmin` | internal/zones/myaddr/api.go:154-194 | the admin delete and suspend requests |
| `MyaddrOwnership.StepKeepsInv` | internal/zones/myaddr/api.go:59-94 | every request, clock tick, prune and foreign write keeps the service invariant |
| `MyaddrOwnership.OwnershipHolds` | internal/zones/myaddr/api.go:59-554 | in every state a run reaches: a live key names a name whose live registration has its digest and expiry, a name has at most one live key, and a suspended name none |
| `MyaddrHistory.OwnershipPersists` | internal/zones/myaddr/api.go:366-375 | from every reachable state: along any run in which the owner does not delete the name, no administrator touches it and its time has not come, the key with that digest still opens it and every claim of it, in any letter case, conflicts |
| `MyaddrHistory.StepFate` | internal/zones/myaddr/api.go:69-94 | a registration changes exactly when its name is claimed, renewed or dropped, or its time ends; a claim needs a free name, a renewal keeps the digest of the key that asked |
| `MyaddrRequests.ClaimExactly` | internal/zones/myaddr/api.go:319-391 | a claim is accepted exactly for a valid, verified name with no live registration, a conflict exactly when it has one; it then lasts 3600 seconds and records the claim's reading and digest |
| `MyaddrRequests.KeyOpensExactly` | internal/zones/myaddr/api.go:219-236 | a presented key opens a name if and only if it has 64 characters and the name's live registration has its digest |
| `MyaddrRequests.UpdateExactly` | internal/zones/myaddr/api.go:412-523 | an update is accepted exactly when its key opens a name and it asks for a removal, one address, or one valid challenge; any other is a bad request that changes nothing |
| `MyaddrRequests.UpdateRenews` | internal/zones/myaddr/api.go:525-549 | an accepted address or challenge update renews the registration for 120 days from then and keeps its creation and key |
| `MyaddrRequests.UnregisterExactly` | internal/zones/myaddr/api.go:219-318 | a delete is accepted exactly when its key opens a name, and leaves no registration, key, address or challenge of it |
| `MyaddrRequests.AdministerExactly` | internal/zones/myaddr/api.go:154-194 | an admin delete or suspend is accepted exactly for a registered name; a suspended one stays registered 120 days with no key, address or challenge, a deleted one is gone |
| `MyaddrOwnership.NoRecordOutlivesRegistration` | internal/zones/myaddr/api.go:525-549 | in every state a run reaches, each live address or challenge belongs to a name with a live registration that expires no earlier |
| `MyaddrOwnership.NewOwnerInheritsNothing` | internal/zones/myaddr/api.go:366-391 | after any run, an accepted registration starts with no address and no challenge |
| `MyaddrHistory.ReportedExpiryIsSafe` | internal/zones/myaddr/api.go:34-39 | in every state a run reaches Expires is never later than the store's expiry, and equals it if and only if the last write of the registration was not an update or suspend at the clock reading of its creation; otherwise it is 120 days less an hour early |
| `MyaddrHistory.RenewalReport` | internal/zones/myaddr/api.go:76-84 | after one update or suspend the report equals the store's expiry if and only if the clock has moved since the creation |
| `MyaddrHistory.EarlyUpdate` | internal/zones/myaddr/api.go:34-39 | in any reachable state, a claim and an update at one reading leave the report 120 days less an hour early |
| `MyaddrHistory.EarlyUpdateExample` | internal/zones/myaddr/api.go:34-39 | the name example, claimed and given 192.0.2.1 at reading 1000: reported 4600, stored until 10369000 |
| `MyaddrResolve.GenerateRecords` | internal/zones/myaddr/generator.go:19-118 | the generator reads the stores as its specification says: zone cut off, last label kept, lower case, one lookup or the text lines |
| `MyaddrResolve.ValidNameFlag` | internal/zones/myaddr/generator.go:19-62 | the answer says that the name exists exactly when the last label before the zone is a valid name, and the zone itself has no generated records |
| `MyaddrResolve.StepLeavesOthers` | internal/zones/myaddr/api.go:207-554 | a step that does not write or delete this family of this name leaves its address as it is, present or absent, until it expires |
| `MyaddrResolve.RunLeavesOthers` | internal/zones/myaddr/api.go:207-554 | the same over whole runs |
| `MyaddrResolve.UpdateThenResolve` | internal/zones/dyn/api.go:61-77 | after an accepted address update every later A or AAAA query for the name, in any letter case, under any labels and zone, returns one record: the address itself, or the four bytes it is the mapped form of; for 90 days exactly, as long as no step touches that family of that name |
| `MyaddrResolve.RegisteredKeyWorks` | internal/zones/myaddr/api.go:366-403 | a free valid name can be claimed, and the key handed out finds the name and may update it at once |
| `MyaddrResolve.ClaimThenResolve` | internal/zones/myaddr/api.go:319-554 | from every reachable state: claim, update with the new key, and every later query answers with exactly that address for 90 days exactly, until it is touched |
| `MyaddrResolve.UnregisteredAnswersNothing` | internal/zones/myaddr/generator.go:27-61 | in every reachable state a name without a live registration answers A and AAAA queries with no address |
| `MyaddrTxt.StepChallenges` | internal/zones/myaddr/api.go:534-541 | seen from any later reading, a step that does not take the challenges of a name away adds exactly the challenge it accepts for it, last |
| `MyaddrTxt.ChallengeThenResolve` | internal/zones/myaddr/generator.go:92-103 | after an accepted challenge update every later text query under the challenge label of the name, in any letter case, under any labels and zone, lists what was live before, this challenge for exactly 120 seconds, and what was added since, in order, until the owner or an administrator takes them away |
| `MyaddrTxt.OtherLabelsListNothing` | internal/zones/myaddr/generator.go:92-103 | under any other label a text query lists nothing |
| `MyaddrTxt.UnregisteredListsNoChallenge` | internal/zones/myaddr/generator.go:92-103 | in every reachable state a name without a live registration lists no challenge |
| `MyaddrTxt.UnregisteredListsPolicy` | internal/zones/myaddr/generator.go:64-91 | and at the name itself nothing but the policy line |
| `MyaddrTxt.ListedExpiryIsSafe` | internal/zones/myaddr/generator.go:72-77 | an expiry listed at the name itself belongs to a live registration and is not later than the store's |
| `MyaddrRequests.ListedDates` | internal/zones/myaddr/generator.go:64-91 | in every reachable state the text of the name itself begins with the policy and lists exactly the registration's creation and the last update of each stored address |
| `MyaddrRequests.UpdateThenDate` | internal/zones/myaddr/generator.go:78-91 | after an accepted address update that family is dated with the reading of the update, for 90 days exactly |
| `MyaddrTxt.StepAddress` | internal/zones/dyn/api.go:61-77 | an address changes exactly when it is written or removed, or its time ends |
| `MyaddrTxt.NoQueryFails` | internal/zones/myaddr/generator.go:19-118 | in every reachable state no query fails, and A and AAAA answers hold at most one address, of 4 and 16 bytes |
| `WatcherHub.SimpleWatcherHub.Register` | internal/zones/dnscheck/watcher.go:43-56 | refuses exactly when full and the id is new, and otherwise installs the watcher |
| `WatcherHub.SimpleWatcherHub.Unregister` | internal/zones/dnscheck/watcher.go:58-62 | removes the id, whoever is registered under it |
| `WatcherHub.AdmittedExactly` | internal/zones/dnscheck/watcher.go:43-56 | a watcher is admitted exactly when there is no limit, there is room, or its id is present, and replaces only what was under its id |
| `WatcherHub.HandlerAdmittedExactly` | internal/zones/dnscheck/websocket.go:163-173 | a handler passes its check exactly when its id is free then, and its registration exactly when it is admitted |
| `WatcherHub.Hub.RegisterWatcher` | internal/probewatch/probewatch.go:93-99 | a refusal by the inner hub starts no tail |
| `WatcherHub.Hub.StartTail` | internal/probewatch/probewatch.go:109-120 | the critical section closes the channel it replaces |
| `WatcherHub.Hub.StopTail` | internal/probewatch/probewatch.go:128-133 | the critical section closes the channel it removes |
| `WatcherHub.HubIsSafe` | internal/probewatch/probewatch.go:93-135 | under every interleaving, same-id races included: no channel is closed twice, each started one is the current entry or closed but not both, entries belong to handlers that have yet to remove them, and the inner hub keeps its limit |
| `WatcherHub.NothingLeaks` | internal/zones/dnscheck/websocket.go:163-184 | once every handler is done both maps are empty and every started tail is stopped |
| `WatcherHub.TailIsLiveExactlyWhenUndisturbed` | internal/probewatch/probewatch.go:113-119 | a handler's tail stays live if and only if nobody, itself included, starts or stops a tail under its id |
| `WatcherHub.RegistrationIsKeptExactlyWhenUndisturbed` | internal/zones/dnscheck/watcher.go:54-62 | a handler stays the registered one of its id if and only if nobody, itself included, registers or unregisters under that id |
| `WatcherHub.OnlyTheCheckWindowBreaksExclusion` | internal/zones/dnscheck/websocket.go:163-173 | two handlers of one id get past the check at once exactly by a check made while another one is between its check and its registration |
| `WatcherHub.ExclusiveExactlyOutsideTheWindow` | internal/zones/dnscheck/websocket.go:163-184 | over whole runs: never two past the check at once if and only if no check is made in that window |
| `WatcherHub.CarefulHandlersKeepBoth` | internal/zones/dnscheck/websocket.go:163-184 | and then every running handler is registered and has a live tail |
| `WatcherHub.SameIdRaceSilencesSecond` | internal/zones/dnscheck/websocket.go:163-184 | two handlers that both pass the check: when the first leaves, the second runs on with its tail stopped and its registration gone |
| `Tail.Fetch` | internal/probewatch/probewatch.go:217-251 | one fetch gives the decodable entries of at most 64 from the cursor, and counts all of them as consumed |
| `Tail.DecodedMeaning` | internal/probewatch/probewatch.go:232-247 | every decodable entry is kept behind those before it, and the others leave no trace |
| `Tail.WebsocketWatcher.Send` | internal/zones/dnscheck/websocket.go:104-110 | a full queue or a finished writer drops the message; otherwise it is queued last |
| `Tail.WebsocketWatcher.WriteNext` | internal/zones/dnscheck/websocket.go:122-124 | the writer takes the oldest message |
| `Tail.TailDelivery` | internal/probewatch/probewatch.go:158-205 | under every interleaving of appends, read errors, stop and the writer: outside a batch, what was sent is in order and once each the decodable entries up to the cursor; what was written is an in-order subsequence; at most 500 wait |
| `Tail.DeliveryIsCompleteExactly` | internal/zones/dnscheck/websocket.go:104-110 | what was written and what waits is everything sent, in order, if and only if no message was sent to a full queue or after the writer was done |
| `Tail.PollShrinksBacklog` | internal/probewatch/probewatch.go:190-197 | a successful poll advances the cursor by the smaller of 64 and the backlog it read |
| `Tail.OneReadPerTick` | internal/probewatch/probewatch.go:163-204 | whatever happens a tail reads once at the start and then at most once a tick |
| `Tail.StoppedTailExits` | internal/probewatch/probewatch.go:170-188 | once stopped, a tail takes boundedly many more steps and starts no further read |
| `Tail.TailCanStep` | internal/probewatch/probewatch.go:163-204 | a tail that has not exited is never stuck |
| `OdohWire.TakeFieldExact` | internal/odoh/odoh.go:286-292 | taking a length-prefixed field gives x and a rest exactly on the encoding of x followed by that rest |
| `OdohWire.LastFieldExact` | internal/odoh/odoh.go:297-304 | a last field is accepted exactly as an encoding of at most 65535 bytes; a saturated prefix is always rejected |
| `OdohWire.FieldLayout` | internal/odoh/odoh.go:123-131 | a field is its two-byte big-endian length, saturating at 65535, and its bytes |
| `OdohWire.ParseMessage` | internal/odoh/odoh.go:275-310 | the re-slicing parser computes the grammar's result |
| `OdohWire.MessageExact` | internal/odoh/odoh.go:262-310 | the parser returns m on b if and only if m is in range and b is its encoding |
| `OdohWire.MessageLayout` | internal/odoh/odoh.go:262-273 | a message is its type byte, key identifier and ciphertext, the last two with their lengths |
| `OdohWire.OverlongMessageRejected` | internal/odoh/odoh.go:117-131 | a message too long for its last prefix is rejected as malformed by its receiver |
| `OdohWire.ParsePlaintext` | internal/odoh/odoh.go:333-364 | the re-slicing parser and its padding loop compute the grammar's result |
| `OdohWire.PlaintextExact` | internal/odoh/odoh.go:319-364 | the parser returns p on b if and only if p is non-empty, zero-padded and in range and b is its encoding |
| `OdohWire.PlaintextLayout` | internal/odoh/odoh.go:319-331 | a plaintext is the DNS message and the padding, each with its length |
| `OdohConfigs.ParseConfigs` | internal/odoh/odoh.go:193-229 | the loop computes the scan of the list |
| `OdohConfigs.ParseSelectsFirstSupported` | internal/odoh/odoh.go:186-229 | on every well-framed list: the first supported version-1 entry, unless an earlier version-1 entry is malformed |
| `OdohConfigs.SkippableEntriesAreIgnored` | internal/odoh/odoh.go:216-225 | inserting an unknown-version or unsupported-suite entry anywhere within the length limit changes nothing (section 5 of RFC 9230) |
| `OdohConfigs.ConfigsRoundTrip` | internal/odoh/odoh.go:137-184 | publishing and parsing gives a config back if and only if its suite is supported and its key has 1 to 65523 bytes |
| `OdohConfigs.ConfigsLayout` | internal/odoh/odoh.go:137-184 | the published bytes of a supported config, one by one |
| `OdohConfigs.ContentsExact` | internal/odoh/odoh.go:231-253 | the contents are read exactly from the bytes that start with their encoding and have a key |
| `Odoh.AadInjective` | internal/odoh/crypto.go:57-73 | additional data determines its direction and its identifier |
| `Odoh.AadLayout` | internal/odoh/crypto.go:57-73 | additional data is the direction byte, the identifier's two-byte length and the identifier |
| `Odoh.SaltInjective` | internal/odoh/crypto.go:96-99 | for 16-byte nonces the salt determines query and nonce |
| `Odoh.ClientFromWire` | internal/odoh/client.go:28-42 | a client built from the published bytes has the target's config and key identifier |
| `Odoh.NewClientExactly` | internal/odoh/client.go:26-42 | a client is made exactly for the one supported suite and a non-empty key |
| `Odoh.EncryptQueryExactly` | internal/odoh/client.go:56-79 | a query is refused exactly when it is empty, a field is above 65535 bytes, or the key has not 32; and is then not sealed |
| `Odoh.QueryIsSealedAs` | internal/odoh/client.go:80-97 | a query is sealed under the label "odoh query" to the config's key, with the key identifier as additional data |
| `Odoh.DecryptQueryErrors` | internal/odoh/odoh.go:426-444 | another message type is malformed, another key identifier a mismatch, a ciphertext of at most 32 bytes malformed |
| `Odoh.QueryOpensOnlyForItsTarget` | internal/odoh/odoh.go:426-461 | whatever message carries the sealed ciphertext opens exactly at the target it was sealed to, unchanged and with zero padding, and gives exactly the query |
| `Odoh.EncryptResponseExactly` | internal/odoh/odoh.go:470-481 | a response is refused exactly when a field is above 65535 bytes |
| `Odoh.ResponseIsSealedAs` | internal/odoh/crypto.go:75-120 | a response is sealed under the key and nonce derived by the labels and lengths of section 6.2 of RFC 9230 from the query's context, its full plaintext and the response nonce |
| `Odoh.QueryDelivery` | internal/odoh/client.go:61-97 | every query with fields in range is encrypted, and the target reads it off the wire if and only if its padding is zero and 52 + query + padding is at most 65535; otherwise it is rejected as malformed |
| `Odoh.ResponseOpensOnlyForItsQuery` | internal/odoh/client.go:104-127 | a sealed response opens exactly for its own pending query, type and nonce, with a non-empty zero-padded body, and gives exactly that body |
| `Odoh.ResponseDelivery` | internal/odoh/odoh.go:470-505 | over the wire a pending query gets the response if and only if it is the one answered, the body is non-empty, its padding zero and 20 + body + padding at most 65535 |
| `Odoh.EndToEnd` | internal/odoh/odoh.go:407-505 | from the published config to the opened answer, query and response survive (section 6.2 of RFC 9230) |
| `Odoh.StaleConfigIsKeyIdMismatch` | internal/odoh/odoh.go:434-436 | a query message is refused with the key identifier error exactly when its identifier is not the target's |
| `AsciiCase.HasPrefixAsciiIgnoreCase` | internal/dnsutil/strings.go:27-47 | the byte loop agrees with lower-casing both sides |
| `AsciiCase.EqualsAsciiIgnoreCase` | internal/dnsutil/strings.go:22-24 | equality agrees with lower-casing both sides |
| `AsciiCase.ToLowerAscii` | internal/dnsutil/strings.go:50-71 | the copy edited in place is the lower-cased text |
| `AsciiCase.LetterTable` | internal/dnsutil/strings.go:50-71 | exactly the 26 upper-case letters change, each to its lower-case one |
| `AsciiCase.SplitForTxt` | internal/dnsutil/strings.go:90-103 | the pieces concatenate to the text, all but the last are 255 bytes, and none is needlessly empty |
| `AsciiCase.LastLabel` | internal/zones/myaddr/generator.go:24-26 | the text behind the last dot, all of it when there is none |
| `Options.NextWord` | internal/zones/dnscheck/options.go:36-48 | the iterator takes the dash-separated words off the front one by one |
| `Options.ApplyWord` | internal/zones/dnscheck/options.go:49-126 | the switch over one word does what the word means, unless its exclusive group is used |
| `Options.CheckHexWord` | internal/zones/dnscheck/options.go:108-124 | the byte loop accepts exactly 1 to 8 hex digits |
| `Options.ParseOptions` | internal/zones/dnscheck/options.go:25-130 | the parser is the fold of the words of the last label |
| `Options.OptionsDependOnWordsOnly` | internal/zones/dnscheck/options.go:25-130 | two names with the same multiset of lower-cased words get the same options or are both rejected |
| `Options.AcceptedExactly` | internal/zones/dnscheck/options.go:49-126 | a name is accepted if and only if every word is valid and no exclusive group is used twice |
| `Options.ResultShowsWords` | internal/zones/dnscheck/options.go:12-23 | accepted options show exactly what the words mean, with at most one signature and one answer option and every number in range |
| `Options.WordsOfName` | internal/zones/dnscheck/options.go:25-48 | the words are the dash-separated pieces of the last label, whatever comes before it and with or without a final dot |
| `Options.KeywordEffects` | internal/zones/dnscheck/options.go:49-107 | which keyword has which effect, in any letter case |
| `Options.NumberedEffects` | internal/zones/dnscheck/options.go:71-107 | expiredsig counts 86400 alone and otherwise its number from 1 to 99999999, txtfill its number from 1 to 4096 |
| `Options.RandomEffect` | internal/zones/dnscheck/options.go:108-124 | a word of 1 to 8 hex digits, in any letter case, is the random text in lower case |
| `Options.GroupMeaning` | internal/zones/dnscheck/options.go:49-126 | which effects exclude each other |
| `Options.AtoiMeaning` | internal/zones/dnscheck/options.go:71-101 | numerals read back with either sign, and a text that is no numeral counts as zero |
| `Options.ResultFields` | internal/zones/dnscheck/options.go:12-126 | the accepted options field by field: each is set exactly by its word |
| `Dnssec.Classify` | internal/dnsutil/dnssec.go:155-164 | the first loop gives, for each type, all its records in order, and the types already signed |
| `Dnssec.OfTypeMeaning` | internal/dnsutil/dnssec.go:155-164 | each record of a type comes behind those of its type that precede it in the section |
| `Dnssec.SignTypes` | internal/dnsutil/dnssec.go:165-187 | the second loop, whatever order the types come in: one signature for each type not yet signed, over its whole group; an error exactly when one of them cannot be signed |
| `Dnssec.Sign` | internal/dnsutil/dnssec.go:141-188 | one signature for each type that has none and no other, over exactly the section's records of that type in order, with the name and TTL of the section's first such record, and inception and expiration as given or by default an hour around now and the TTL; an error exactly when a type that needs a signature cannot be signed |
| `Dnssec.DefaultValidity` | internal/dnsutil/dnssec.go:148-178 | clear of the 32-bit wrap a default signature runs from an hour before the signing to an hour past the TTL, so it is valid when made and for longer than its TTL |
| `Dnssec.SignedSection` | internal/dnsutil/dnssec.go:256-273 | a signed section holds the same records of each type, every type is covered, and a type covered before keeps exactly the signatures it had |
| `Dnssec.KeptMeaning` | internal/dnsutil/dnssec.go:240-249 | a type stays in the list exactly when it was listed, is not the queried one, and is not apex-only off the apex |
| `Dnssec.KeptStaysAscending` | internal/dnsutil/dnssec.go:240-249 | an ascending type list stays ascending (section 4.1.2 of RFC 4034) |
| `Dnssec.DefaultListStaysAscending` | internal/dnsutil/dnssec.go:16-27 | so the default table's filtered lists are always in order |
| `Dnssec.RemoveAt` | internal/dnsutil/dnssec.go:244 | removing in place shifts the rest one place left |
| `Dnssec.Filter` | internal/dnsutil/dnssec.go:241-249 | the in-place loop leaves the ordered filter in front |
| `Dnssec.NsecTypes` | internal/dnsutil/dnssec.go:233-249 | the filter works on a copy: the shared table may not be modified |
| `Dnssec.Prove` | internal/dnsutil/dnssec.go:205-276 | responses that do not want a proof are untouched; otherwise the proof is added to an empty answer and both sections are signed, or signing fails exactly when a needed type cannot be signed |
| `Dnssec.AnswerRecords` | internal/dnsutil/simple.go:184-238 | the record-answer stage: apex, static and generated records, or a server failure |
| `Dnssec.CheckQuestion` | internal/dnsutil/simple.go:126-146 | the chain of checks on EDNS version, class and type, with each refusal code |
| `Dnssec.SoaExactly` | internal/dnsutil/simple.go:74-109 | the SOA carries the zone's part of the query's own spelling, with its stored signature exactly for a DNSSEC query |
| `Dnssec.RefusedExactly` | internal/dnsutil/simple.go:111-146 | which questions are refused, each with its code, and that no others are |
| `Dnssec.AnswerOrder` | internal/dnsutil/simple.go:184-238 | the answer is the apex records asked for, then the static, then the generated ones; the code is success exactly at the apex or for a valid name |
| `Dnssec.KeysExactly` | internal/dnsutil/simple.go:164-167 | the keys answer exactly a DNSKEY question at the signer's own name, in any letter case |
| `Dnssec.Serve` | internal/dnsutil/simple.go:111-238 | the handler before resizing, with the calls it defers pushed as the body goes: refusals, or the proved answer; a signing error becomes a server failure |
| `Dnssec.DeferredOrder` | internal/dnsutil/simple.go:118-181 | unwinding the stack the body has pushed is, for all three places it can return from: a refusal sent as it is, keys proved and sent, or the ANY default, then the SOA, then the proof, then the sending |
| `Dnssec.DeferredEffects` | internal/dnsutil/simple.go:152-181 | so ANY has its answer before the SOA is considered, the SOA comes exactly with an answerless success or a name error, a failure stays bare, and an ANY without records gets the one HINFO |
| `Dnssec.PlainResponse` | internal/dnsutil/dnssec.go:205-222 | without a DNSSEC query, a private key or a success, the response is left as it is |
| `Dnssec.DnssecResponse` | internal/dnsutil/simple.go:152-238 | for a DNSSEC query past the refusals and the generator: every type in both sections is covered; each new signature is over all the section's records of its type, has the first one's name and TTL and is valid now and past its TTL; without records an empty answer, the SOA and a proof with the key's TTL, the next name and exactly the right types, a name error becoming a success unless compact answers are asked for |

## Left out

Addresses and RDAP:

- Regular expressions are replaced by grammar predicates on the pieces between separators; zero
  stripping and run compression are stated group by group instead of on the joined text.
- The parser's DataView is an array of four octets or eight 16-bit words, not of bytes.
- `reverseZone` and the `Response` accessors: one expression each.
- `Array.prototype.sort` is a stable insertion sort; `toLowerCase` is ASCII only.
- Fetching and JSON decoding: the bootstrap files and answers are inputs, an absent address
  field is the empty string, and the memoised bootstrap promises are not modelled.
- A lookup is three atomic segments, cut at its two awaits; promise job order beyond that is free.

The store:

- Each call reads the clock once, and a run's clock does not go back; expiry is 32-bit
  wrapping, as in the code.
- Slices edited in place are sequences: aliasing between a slice and its older versions is not
  captured.
- JSON is taken as an inverse pair and failures of a file write as one outcome; a key holding
  JSON `null` and a negative limit are not modelled.
- `valkey.go`, and the periodic loops around pruning and writing.

myaddr:

- Each request is one atomic step at one clock reading; the handlers themselves hold no lock
  across store calls and read the clock more than once.
- Store calls succeed and the stores have no limit.
- SHA-256 is a parameter: a freshly drawn key's digest names nothing live. Presented keys are
  their length and digest.
- The clock does not run back, and now + 120 days stays below 2^32. Parsed addresses have 4 or
  16 bytes.
- The prefix of `Prefixed` is part of each key; its `List` is not modelled. The other services'
  writes to the shared stores are a step that leaves the prefixed keys alone.
- Request parsing, status codes, JSON, Turnstile, the read-only requests, and the dyn and
  challenges handlers. Dates in text records stay numbers.

The live feed:

- Go's memory-model races, such as the writer setting its channel to nil during a send; sends
  and critical sections are atomic.
- The hub and one tail are separate models that meet at the stop channel.
- What a message contains (`synthesize`), `Get`, store timeouts (a read error), and the
  websocket's own life cycle beyond the writer ending at any moment.

Oblivious DoH:

- HPKE, HKDF and AES-GCM are ideal: keys are terms, and a ciphertext opens only as what it was
  sealed as, with a 16-byte tag. Failures of the operating system's randomness and of key
  generation are not modelled; a public key is refused only for its length.
- The key identifier is any function to 32 bytes.

Options and signed answers:

- Record bodies, canonical form, packing, truncation, compression and padding: that library is
  not part of this model. A signature is the records it is over, its owner, TTL and validity.
- Why signing one type fails: the types that cannot be signed are an input.
- The loop that renews the SOA signature: the stored signature is an input.
- Copying EDNS options, and how static records are looked up.
- A provider with a private key and no signing key.
- Dnssec.Serve: its contract stops before the response is resized for the transport.
- Text.Split: stated only for separators of one character, which is all the code uses.
