# Verified models of the VPN client and node agent

This project models the parts of the repository whose correctness depends on arithmetic,
on ordering, or on interleaving, and proves what they are meant to achieve.

- **Address ranges and routes** (`Powers`, `CidrBlocks`, `Bytes`, `IpAddress`, `IpRange`,
  `IpRangeSet`, `RangeSetLaws`, `Sequences`, `Routes`). Three layers: bytes refine numbers, ranges
  refine intervals, and the mutable range set refines a set of addresses. The address
  width is a parameter everywhere, so the results hold for IPv4, IPv6 and sets that mix
  them. CIDR blocks follow section 3.1 of RFC 4632. On top stands the route builder with
  its insertion-ordered route set, split tunnelling and the flattening for older Android.
- **Log rotation** (`RotatingLog`, `RotatingLogSafety`). A step system of any number of
  threads in any number of processes; each system call is a step, may fail where the
  source catches an `IOException` or ignores a result, and a process may be killed at any
  point. `Invariant` is inductive over all interleavings.
- **Node agent** (`Provisioning`, `NodeAgent`). The mode, phase and revision machine, the
  command dispatch built on it, and the rule for what is stored after a runtime effect.
- **Collectors and conflicts** (`Telemetry`, `Traffic`, `PortConflicts`). Incremental
  polling against a full scan, traffic deltas against per-peer increases, and pairwise
  port conflicts in two implementations.

## How to read it

Methods follow the loops and in-place updates of the source and are proved against
specification functions; what those functions are good for is proved in lemmas.
`IpRangeSet.Add` and `Remove`, for instance, promise the normal form and the resulting
set of addresses, and `RangeSetLaws.Canonical` shows that this pins down the ranges
completely. The set of addresses is not stored anywhere: it is `Denotes(ranges)`.

Several expectations that one may have of the source do not hold, and the model keeps the
source's behaviour.

- A read of the logs is not always a suffix of what was appended. If a clear deletes the
  current log but not the rotated one, messages are lost from the middle. `LostMessage`
  reaches such a state from the start; `GapExactly`, `GapEndsExactly` and
  `ReadsInRunsExactly` say exactly when it happens.
- Flattening is not last-writer-wins on the caller's own route list if that list includes
  ::/0: its replacement 2000::/3 goes to the front, so that an earlier exclude wins over it,
  and a 2000::/3 further back loses its place. `DefaultLosesToExclude` has two such lists,
  `LegacyMeaning` the exact result and `LegacyAgreesExactly` the exact condition.
- Offsets count bytes while the text is sliced by UTF-16 units. `PollReadsExactly` and
  `LinesReadExactly` say exactly when polls read all lines, which ASCII logs always allow,
  and `IncrementalIsFullScanExactly` exactly when they report the same whatever is looked
  for; `NonAsciiLosesLine` has a log on which an event is lost.
- A log that is cut and grows past the stored offset before the next poll is not noticed to be
  a new one; `UnseenTextReadExactly` says exactly when a poll reads all of it.
- An apply whose main step works and whose node policy then fails is not stored although the
  node has changed (`HalfDonePass`, `RevisionsDiffer`); `RevisionsDifferExactly` says for
  every run exactly when the stored revision is not the running one.
- A failed phase is a dead end: no event other than a quarantine is accepted in it
  (`OnlyQuarantineLeavesFailure`). The events reach it (`FailureIsReachable`), the agent's
  commands never do (`AgentNeverFails`).
- When a thread asks for a file lock that an earlier failed release left behind in its
  process, the platform's overlapping-lock exception escapes and the message being saved is
  not appended. `LostToOverlap` reaches this from the start; `OverlapsInRunsExactly` and
  `SaveAppendsExactly` say exactly when it happens and what it costs.
- The logger can hang. While a process that failed to release the file lock lives, clears and
  reads in all other processes wait for it (`ReaderHangs`, `WaitLasts`); `DeadlockExactly`
  says that nothing else ever stops everybody.

## Model

| member | source | states |
|---|---|---|
| `Bytes.CompareIsNumeric` | amnezia-utils/src/main/kotlin/net/IpAddress.kt:55-62 | Comparison orders by size first and is numeric order within one size, in all three directions; zero exactly for equal bytes. |
| `IpAddresses.IpAddress.CompareTo` | amnezia-utils/src/main/kotlin/net/IpAddress.kt:55-62 | The index loop returns the comparison that CompareIsNumeric is about. |
| `IpAddresses.IpAddress.Inc` | amnezia-utils/src/main/kotlin/net/IpAddress.kt:29-38 | Overflow exactly at the all-ones address; otherwise a fresh address whose value is one higher, the receiver unchanged. |
| `IpAddresses.IpAddress.Dec` | amnezia-utils/src/main/kotlin/net/IpAddress.kt:40-49 | Overflow exactly at the all-zero address; otherwise a fresh address whose value is one lower, the receiver unchanged. |
| `Bytes.Increment` | amnezia-utils/src/main/kotlin/net/IpAddress.kt:29-38 | The result of the carry loop has value plus one and the same width. |
| `Bytes.Decrement` | amnezia-utils/src/main/kotlin/net/IpAddress.kt:40-49 | The result of the borrow loop has value minus one and the same width. |
| `Bytes.IncrementCarry` | amnezia-utils/src/main/kotlin/net/IpAddress.kt:34-36 | The byte-level account of the carry: bytes before the last non-255 byte stay, that byte goes up, the rest become 0. |
| `Bytes.DecrementBorrow` | amnezia-utils/src/main/kotlin/net/IpAddress.kt:45-47 | The byte-level account of the borrow: bytes before the last non-zero byte stay, that byte goes down, the rest become 255. |
| `Bytes.IncrementDecrement` | amnezia-utils/src/main/kotlin/net/IpAddress.kt:29-49 | inc and dec undo each other, in both orders, away from the extremes. |
| `Bytes.ZerosAndOnes` | amnezia-utils/src/main/kotlin/net/IpAddress.kt:51-53 | The two byte-wise tests recognise exactly the lowest and the highest value of the width. |
| `IpAddresses.IpAddress.IsMinIp` | amnezia-utils/src/main/kotlin/net/IpAddress.kt:51 | True exactly for value 0. |
| `IpAddresses.IpAddress.IsMaxIp` | amnezia-utils/src/main/kotlin/net/IpAddress.kt:53 | True exactly for the all-ones address. |
| `IpAddresses.IpAddress.Fill` | amnezia-utils/src/main/kotlin/net/IpAddress.kt:25 | Bytes before the start index are kept, all later ones become the value. |
| `IpAddresses.IpAddress.Set` | amnezia-utils/src/main/kotlin/net/IpAddress.kt:23 | Exactly the one byte changes. |
| `IpAddresses.IpAddress.Copy` | amnezia-utils/src/main/kotlin/net/IpAddress.kt:27 | A fresh address with its own array and the same bytes. |
| `Bytes.MaskIsArithmetic` | amnezia-utils/src/main/kotlin/net/IpRange.kt:84-89 | Masking a byte with (0xff shl t) rounds it down to a multiple of 2^t; or-ing with the inverse goes to the end of that block. |
| `Bytes.TrailingZeroBitsIsNumeric` | amnezia-utils/src/main/kotlin/net/IpRange.kt:68-76 | Adding up byte-wise trailing zeros from the end, stopping at the first byte that is not zero, counts the trailing zero bits of the number. |
| `Bytes.ClearLowIsFloor` | amnezia-utils/src/main/kotlin/net/IpRange.kt:122-125 | Clearing the low bits of the bytes rounds the value down to a multiple of 2^r. |
| `Bytes.SetLowIsFloor` | amnezia-utils/src/main/kotlin/net/IpRange.kt:78-94 | Setting the low bits of the bytes gives the last value of the aligned block. |
| `IpRanges.Create` | amnezia-utils/src/main/kotlin/net/IpRange.kt:10-17 | A range exists exactly when both ends have one width and start <= end numerically. |
| `IpRanges.Plus` | amnezia-utils/src/main/kotlin/net/IpRange.kt:35-40 | A range exactly when the two overlap or are adjacent within one family; then it runs from the smaller start to the larger end; its inc and dec never overflow. |
| `RangeSetLaws.UnionIsOneRange` | amnezia-utils/src/main/kotlin/net/IpRange.kt:35-40 | plus is non-null if and only if some range denotes the union, and then it is that union. |
| `IpRanges.Minus` | amnezia-utils/src/main/kotlin/net/IpRange.kt:42-49 | Null exactly when nothing is shared; otherwise the part before and the part after, each exactly when non-empty, with exact bounds; its inc and dec never overflow. |
| `IpRangeSets.PiecesFacts` | amnezia-utils/src/main/kotlin/net/IpRange.kt:42-49 | The pieces of a difference are in normal form and contain exactly the addresses of the one range that are not in the other. |
| `IpRanges.OrderFacts` | amnezia-utils/src/main/kotlin/net/IpRange.kt:29-33 | The comparisons, the containment and the intersection test mean what they should on numeric bounds, across both families. |
| `IpRanges.CompareRangesExactly` | amnezia-utils/src/main/kotlin/net/IpRange.kt:96-106 | Ranges are ordered by family, start and end, and compare as equal exactly if they are identical. |
| `IpRanges.From` | amnezia-utils/src/main/kotlin/net/IpRange.kt:117-129 | The byte writes build exactly the block of RangeIsBlock, for masks of any value above -8, including those beyond the width. |
| `IpRanges.RangeIsBlock` | amnezia-utils/src/main/kotlin/net/IpRange.kt:117-129 | A network stands for the aligned block of 2^(width - mask) addresses that contains its address. |
| `IpRanges.GetPossibleMaxMask` | amnezia-utils/src/main/kotlin/net/IpRange.kt:68-76 | The width minus the number of trailing zero bits of the address. |
| `IpRanges.GetLastIpForMask` | amnezia-utils/src/main/kotlin/net/IpRange.kt:78-94 | The address with all free bits set; the receiver itself if no bit is free, else a fresh copy. |
| `IpRanges.LargestBlock` | amnezia-utils/src/main/kotlin/net/IpRange.kt:56-60 | Alignment first, then the shrinking loop: the largest aligned block at the address that ends within the range, with its last address. |
| `IpRanges.Subnets` | amnezia-utils/src/main/kotlin/net/IpRange.kt:51-66 | The double loop terminates without overflow and returns exactly the blocks of the greedy decomposition, also for ranges that end at all ones. |
| `CidrBlocks.DecomposeTiles` | amnezia-utils/src/main/kotlin/net/IpRange.kt:51-66 | The greedy blocks are aligned and lie end to end from start to end. |
| `CidrBlocks.TilesMeaning` | amnezia-utils/src/main/kotlin/net/IpRange.kt:51-66 | End-to-end blocks are ascending and disjoint and cover every number of the interval and no other. |
| `CidrBlocks.FirstBlockAbsorbs` | amnezia-utils/src/main/kotlin/net/IpRange.kt:56-60 | Any aligned block inside the interval that meets the first greedy block lies inside it. |
| `CidrBlocks.DecomposeIsMinimal` | amnezia-utils/src/main/kotlin/net/IpRange.kt:51-66 | No set of aligned blocks, overlapping or not, that covers exactly the interval has fewer members. |
| `CidrBlocks.EachPrefixAtMostTwice` | amnezia-utils/src/main/kotlin/net/IpRange.kt:51-66 | Every block size occurs at most twice, and at most once below the alignment of the start. |
| `CidrBlocks.AtMostTwoPerBit` | amnezia-utils/src/main/kotlin/net/IpRange.kt:51-66 | A range of w-bit addresses needs at most 2w blocks (one if w is 0). |
| `RangeSetLaws.SubnetsOfRange` | amnezia-utils/src/main/kotlin/net/IpRange.kt:51-66 | On networks instead of numbers: valid masks, own family, ascending, disjoint, starting at their own address, exactly the range's addresses. |
| `RangeSetLaws.RangeSubnetsAreFew` | amnezia-utils/src/main/kotlin/net/IpRange.kt:51-66 | Each prefix length occurs at most twice in a range's subnets, so there are at most 2 * maxMask of them. |
| `RangeSetLaws.RangeMinimal` | amnezia-utils/src/main/kotlin/net/IpRange.kt:51-66 | No set of networks that covers exactly a range has fewer members than its subnets. |
| `IpRangeSets.IpRangeSet.Add` | amnezia-utils/src/main/kotlin/net/IpRangeSet.kt:7-24 | Union with the range, in normal form, including the early break and the early return; the result is unique by Canonical. |
| `IpRangeSets.IpRangeSet.Remove` | amnezia-utils/src/main/kotlin/net/IpRangeSet.kt:26-38 | Difference with the range, in normal form, including splits in two and several trims in one call; the result is unique by Canonical. |
| `IpRangeSets.StopAdding` | amnezia-utils/src/main/kotlin/net/IpRangeSet.kt:13-15 | When add's break condition holds, no range of the whole set touches the range to add. |
| `IpRangeSets.MergeStep` | amnezia-utils/src/main/kotlin/net/IpRangeSet.kt:16-20 | Merging keeps the union and keeps the grown range away from all ranges already passed. |
| `IpRangeSets.StopRemoving` | amnezia-utils/src/main/kotlin/net/IpRangeSet.kt:31 | When remove's break condition holds, no range of the whole set meets the removed range any more. |
| `IpRangeSets.SplitStep` | amnezia-utils/src/main/kotlin/net/IpRangeSet.kt:32-35 | Taking a range out and setting its pieces aside changes nothing outside the removed range and leaves pieces and rest in order and apart. |
| `IpRangeSets.InsertAllKeepsNormal` | amnezia-utils/src/main/kotlin/net/IpRangeSet.kt:37 | Sorted insertion of ranges that touch none of the others keeps the normal form and the members. |
| `IpRangeSets.InsertTwice` | amnezia-utils/src/main/kotlin/net/IpRangeSet.kt:5 | A range that is in the sorted set already is not inserted again. |
| `IpRangeSets.IpRangeSet.Subnets` | amnezia-utils/src/main/kotlin/net/IpRangeSet.kt:40 | The decompositions of all ranges, in order. |
| `RangeSetLaws.Canonical` | amnezia-utils/src/main/kotlin/net/IpRangeSet.kt:5-38 | Two range lists in normal form that denote the same addresses are the same list. |
| `RangeSetLaws.RunMeaning` | amnezia-utils/src/main/kotlin/net/IpRangeSet.kt:7-38 | After any sequence of add and remove calls the set is in normal form and denotes the plain set-theoretic result. |
| `RangeSetLaws.HistoryDoesNotMatter` | amnezia-utils/src/main/kotlin/net/IpRangeSet.kt:7-38 | Any two sequences of calls that mean the same set end in identical ranges. |
| `RangeSetLaws.SubnetsAreExact` | amnezia-utils/src/main/kotlin/net/IpRangeSet.kt:40 | The set's subnets contain exactly the set's addresses. |
| `RangeSetLaws.SubnetsLieInRanges` | amnezia-utils/src/main/kotlin/net/IpRangeSet.kt:40 | No subnet crosses the border of a range. |
| `RangeSetLaws.SubnetsAscend` | amnezia-utils/src/main/kotlin/net/IpRangeSet.kt:40 | The set's subnets are ascending and pairwise disjoint across ranges and families. |
| `RangeSetLaws.SubnetsAreFewest` | amnezia-utils/src/main/kotlin/net/IpRangeSet.kt:40 | No set of networks with the same addresses has fewer members than the set's subnets. |
| `RangeSetLaws.RebuildFromSubnets` | amnezia-utils/src/main/kotlin/net/IpRangeSet.kt:7-40 | Adding the subnets, in any order and with repetitions, to an empty set gives back the identical ranges. |
| `Routes.MembersAndOrder` | amnezia-protocol-api/src/main/kotlin/ProtocolConfig.kt:87-92 | A route list is determined by its members and their order of first occurrence; this makes the contracts of the list operations below complete. |
| `Routes.Builder.AddRoute` | amnezia-protocol-api/src/main/kotlin/ProtocolConfig.kt:78 | The old list stays in front, the include is a member, nothing else is new, and nothing is there twice. |
| `Routes.Builder.ExcludeRoute` | amnezia-protocol-api/src/main/kotlin/ProtocolConfig.kt:82 | The old list stays in front, the exclude is a member, nothing else is new, and nothing is there twice. |
| `Routes.AddedIs` | amnezia-protocol-api/src/main/kotlin/ProtocolConfig.kt:78-82 | That leaves exactly one list: unchanged if the route was there, else with the route at the end. |
| `Routes.Builder.RemoveRoute` | amnezia-protocol-api/src/main/kotlin/ProtocolConfig.kt:84 | The members left are exactly the old ones on other networks, include or exclude, in their old order, none twice. |
| `Routes.Builder.PrependRoutes` | amnezia-protocol-api/src/main/kotlin/ProtocolConfig.kt:87-92 | For every block and every list: the members are those of both, each once, in the order in which they first occur in the block followed by the old list. |
| `Routes.Builder.ProcessSplitTunneling` | amnezia-protocol-api/src/main/kotlin/ProtocolConfig.kt:117-137 | Fails exactly when both address sets are given, and then changes nothing; else the route list is that of one of the three cases, for some order of the hash set. |
| `Routes.Builder.Flatten` | amnezia-protocol-api/src/main/kotlin/ProtocolConfig.kt:150-159 | Folding the routes through the address set and printing it gives the unique minimal prefix list of the last-writer-wins set minus loopback. |
| `Routes.Builder.ProcessRoutes` | amnezia-protocol-api/src/main/kotlin/ProtocolConfig.kt:139-168 | Replaces an included ::/0, flattens on old platforms when there is an exclude, and filters loopback. |
| `Routes.Builder.Validate` | amnezia-protocol-api/src/main/kotlin/ProtocolConfig.kt:170-180 | Succeeds exactly with an address, a route and an MTU. |
| `Routes.Builder.ConfigBuild` | amnezia-protocol-api/src/main/kotlin/ProtocolConfig.kt:182-186 | The three steps in order, with failure and the final routes in every case. |
| `Routes.LastMatchIsLast` | amnezia-protocol-api/src/main/kotlin/ProtocolConfig.kt:151-154 | The recursive meaning of a route list is decided by the last route, in insertion order, that contains the address. |
| `Routes.TableIsExact` | amnezia-protocol-api/src/main/kotlin/ProtocolConfig.kt:150-159 | A flattened list routes exactly the wanted addresses. |
| `Routes.LoopbackFilterIsIdle` | amnezia-protocol-api/src/main/kotlin/ProtocolConfig.kt:163-167 | On the flattened path the later loopback filter removes nothing. |
| `Routes.LegacyIsLastWriterWins` | amnezia-protocol-api/src/main/kotlin/ProtocolConfig.kt:147-167 | On an old platform with an exclude: the final routes are all includes, and an address is covered exactly when it is not loopback and the last route containing it, in the list after the replacement of ::/0, is an include. |
| `Routes.DefaultReplacedIs` | amnezia-protocol-api/src/main/kotlin/ProtocolConfig.kt:140-146 | An included ::/0 disappears and puts 2000::/3 first, from wherever it was; all other routes keep their order. |
| `Routes.ReplacedMeaning` | amnezia-protocol-api/src/main/kotlin/ProtocolConfig.kt:140-155 | What the caller's list then means: the last of the other routes decides, and 2000::/3 is included only where none of them applies. |
| `Routes.LegacyMeaning` | amnezia-protocol-api/src/main/kotlin/ProtocolConfig.kt:139-168 | For every caller's list with an exclude and every address: covered exactly when not loopback and included in that meaning. |
| `Routes.LegacyAgreesExactly` | amnezia-protocol-api/src/main/kotlin/ProtocolConfig.kt:139-168 | On the caller's own list the last writer wins if and only if the address is loopback, or there is no included ::/0, or the address is neither one that only ::/0 covered outside 2000::/3 nor one for which ::/0 or 2000::/3 stands after the exclude that is last among the others. |
| `Routes.LegacyV4IsLastWriterWins` | amnezia-protocol-api/src/main/kotlin/ProtocolConfig.kt:139-168 | For IPv4 addresses the last writer wins on every caller's list. |
| `Routes.DefaultLosesToExclude` | amnezia-protocol-api/src/main/kotlin/ProtocolConfig.kt:140-155 | Two lists whose last route containing an address includes it, and which do not cover it: an exclude before ::/0, and an exclude between ::/0 and 2000::/3. |
| `Routes.ExclusiveList` | amnezia-protocol-api/src/main/kotlin/ProtocolConfig.kt:87-92 | Duplicates keep their first position through both prependRoutes calls, so whatever defaults were there, two includes lead the excludes. |
| `Routes.ExclusiveSplitTunneling` | amnezia-protocol-api/src/main/kotlin/ProtocolConfig.kt:117-167 | From any subset of the default routes and for any order of the excluded set, the final routes denote exactly all of IPv4 and 2000::/3, minus the excluded networks, minus loopback. |
| `Routes.UnflattenedMembers` | amnezia-protocol-api/src/main/kotlin/ProtocolConfig.kt:139-168 | Where nothing is flattened, for every list: the final routes are those of the caller, in their order, with 2000::/3 for an included ::/0, without 127.x.x.x with any mask and without ::1/128. |
| `Routes.InclusiveMembers` | amnezia-protocol-api/src/main/kotlin/ProtocolConfig.kt:123-130 | For every list: the included networks, and the old routes on other than the three default networks. |
| `Routes.ExclusiveMembers` | amnezia-protocol-api/src/main/kotlin/ProtocolConfig.kt:131-136 | For every list: 0.0.0.0/0 and 2000::/3 as includes, the excluded networks as excludes, and all old routes. |
| `Routes.SplitTunnelingOrder` | amnezia-protocol-api/src/main/kotlin/ProtocolConfig.kt:87-92 | The routes of the split-tunnelling set come before the caller's, and the caller's keep their order. |
| `Routes.InclusiveSplitTunneling` | amnezia-protocol-api/src/main/kotlin/ProtocolConfig.kt:117-167 | For every list that is not flattened: the final routes are exactly the included networks, with 2000::/3 in place of ::/0, and the caller's on other than the default networks, minus 127.x.x.x and ::1/128. |
| `Routes.LoopbackNetworks` | amnezia-protocol-api/src/main/kotlin/ProtocolConfig.kt:155-156 | The two removed networks are exactly the addresses 127.x.x.x and ::1. |
| `Routes.WellKnownNetworks` | amnezia-protocol-api/src/main/kotlin/ProtocolConfig.kt:124-164 | 0.0.0.0/0, ::/0, 2000::/3, 127.0.0.0/8 and ::1/128 as numbers, widths and masks. |
| `Routes.LoopbackAddresses` | amnezia-protocol-api/src/main/kotlin/ProtocolConfig.kt:163-167 | Loopback is 127.x.x.x, and the IPv6 address 1. |
| `Routes.GlobalNetwork` | amnezia-protocol-api/src/main/kotlin/ProtocolConfig.kt:144 | 2000::/3 is exactly the IPv6 addresses whose first byte is 0x20 to 0x3f. |
| `RotatingLogSafety.MutualExclusion` | amnezia-utils/src/main/kotlin/Log.kt:184-234 | At most one thread of any process is between taking and releasing the file lock. |
| `RotatingLogSafety.NextKeepsInvariant` | amnezia-utils/src/main/kotlin/Log.kt:128-234 | Every step of every thread, failing calls and killed processes included, keeps the lock, file and view invariants. |
| `RotatingLogSafety.RunsAreGood` | amnezia-utils/src/main/kotlin/Log.kt:128-234 | The invariant holds at every point of every interleaving of any number of threads and processes. |
| `RotatingLogSafety.OnlyLockHoldersShrink` | amnezia-utils/src/main/kotlin/Log.kt:105-137 | Log and rotated file shrink or move only in a step of the one thread that holds both locks. |
| `RotatingLogSafety.RenameMovesOneOverflow` | amnezia-utils/src/main/kotlin/Log.kt:128-131 | Every rename moves a file still above the limit that holds only messages not rotated before, and leaves no overflow behind. |
| `RotatingLogSafety.RotationsAreBounded` | amnezia-utils/src/main/kotlin/Log.kt:205-234 | In every run n rotations have used up n disjoint stretches above the limit: one overflow is never rotated twice. |
| `RotatingLogSafety.ChecksExactly` | amnezia-utils/src/main/kotlin/Log.kt:205-234 | Each of the three checks lets a log go on to be rotated if and only if it is longer than 1 MiB then; otherwise what has been taken is given back. |
| `RotatingLogSafety.FailedCallExactly` | amnezia-utils/src/main/kotlin/Log.kt:184-234 | A call that fails changes no file and takes no lock; a lock that fails skips the block, a deletion or rename that fails does not stop what follows. |
| `RotatingLogSafety.OverlapExactly` | amnezia-utils/src/main/kotlin/Log.kt:184-234 | A thread that asks for the file lock gets the overlapping-lock exception if and only if an earlier release in its own process failed and left the lock behind. |
| `RotatingLogSafety.OnlyAskingOverlaps` | amnezia-utils/src/main/kotlin/Log.kt:184-234 | The exception arises in no other step. |
| `RotatingLogSafety.LeakExactly` | amnezia-utils/src/main/kotlin/Log.kt:193-199 | A lock is left behind exactly by a failed release. |
| `RotatingLogSafety.LeakedExactly` | amnezia-utils/src/main/kotlin/Log.kt:184-234 | At every point of every run a process has left the file lock behind if and only if one of its releases failed and it has not been killed since. |
| `RotatingLogSafety.OverlapsInRunsExactly` | amnezia-utils/src/main/kotlin/Log.kt:184-234 | So in every run a thread that asks for the file lock gets the exception if and only if its process has had such a failed release. |
| `RotatingLogSafety.HistoryGrowsByAppend` | amnezia-utils/src/main/kotlin/Log.kt:132-136 | Nothing but a successful append changes the history, by the message of that save, and ends the save. |
| `RotatingLogSafety.SaveAppendsExactly` | amnezia-utils/src/main/kotlin/Log.kt:128-137 | In every run, a save from its first to its last step appends its message, once and at the end, exactly if its last step is a successful append; else that step is a failed append or the exception and nothing is appended. |
| `RotatingLogSafety.LostToOverlap` | amnezia-utils/src/main/kotlin/Log.kt:128-137 | A reachable state in which a save ends with the exception and its message is in no file and never was. |
| `RotatingLogSafety.DeadlockExactly` | amnezia-utils/src/main/kotlin/Log.kt:184-234 | No thread can go on if and only if every busy thread waits for a file lock that another process has left behind, or for a thread lock of its own process; in particular some busy thread always can go on while no release has failed. |
| `RotatingLogSafety.ReaderHangs` | amnezia-utils/src/main/kotlin/Log.kt:184-203 | A reachable state in which a read waits, alone, for a lock that a clear in another process left behind. |
| `RotatingLogSafety.WaitLasts` | amnezia-utils/src/main/kotlin/Log.kt:184-203 | Such a wait goes on through every action except the end of either process or a failure of the waiting call. |
| `RotatingLogSafety.ReadsAreOrdered` | amnezia-utils/src/main/kotlin/Log.kt:158-171 | A complete read is a stretch of the history followed by a later stretch up to the present, with no repeat. |
| `RotatingLogSafety.ReadIsSuffix` | amnezia-utils/src/main/kotlin/Log.kt:158-171 | Without a gap between the files a complete read is a suffix of everything appended. |
| `RotatingLogSafety.ReadIsSuffixExactly` | amnezia-utils/src/main/kotlin/Log.kt:158-171 | For distinguishable messages a complete read is a suffix if and only if there is no gap. |
| `RotatingLogSafety.GapExactly` | amnezia-utils/src/main/kotlin/Log.kt:105-112 | A gap arises if and only if a clear is cut short, by a failed deletion or a killed process, between its two deletions. |
| `RotatingLogSafety.ReadsInCleanRuns` | amnezia-utils/src/main/kotlin/Log.kt:105-171 | In runs where no clear is cut short, every complete read under every interleaving is a suffix of the history. |
| `RotatingLogSafety.GapEndsExactly` | amnezia-utils/src/main/kotlin/Log.kt:105-131 | A gap ends if and only if a rename replaces the rotated file or a new clear starts to delete. |
| `RotatingLogSafety.ReadsInRunsExactly` | amnezia-utils/src/main/kotlin/Log.kt:105-171 | In every run of distinguishable messages a complete read is a suffix if and only if no clear was cut short without a rename or a new clear since. |
| `RotatingLogSafety.LostMessage` | amnezia-utils/src/main/kotlin/Log.kt:105-112 | A reachable state in which a read misses a message from the middle: a clear deleted the log but not the rotated file. |
| `RotatingLogSafety.ReadStep` | amnezia-utils/src/main/kotlin/Log.kt:158-171 | A step of a read whose call succeeds leaves the block exactly if it completes the read with a text: an existing file is never passed over. |
| `RotatingLogSafety.FailedReadEnds` | amnezia-utils/src/main/kotlin/Log.kt:160-169 | A file that cannot be read ends the read, which is then not complete. |
| `RotatingLogSafety.ReadsExactlyOnce` | amnezia-utils/src/main/kotlin/Log.kt:158-203 | In every run, a read from its beginning to its end with no failing call, exception or kill completes exactly once, whatever others do meanwhile. |
| `RotatingLogSafety.NothingSurvivesClear` | amnezia-utils/src/main/kotlin/Log.kt:105-112 | In every run, after such an undisturbed clear no file holds anything that was appended before it began. |
| `Provisioning.TransitionKeepsConsistent` | apps/node-agent/src/provisioning-state.js:143-269 | Every accepted event keeps the consistency of mode, phase, records and error, raises the revision by at most one and keeps the node. |
| `Provisioning.EventsKeepConsistent` | apps/node-agent/src/provisioning-state.js:143-269 | The same over any sequence of events, rejected ones included. |
| `Provisioning.ReachableIsConsistent` | apps/node-agent/src/provisioning-state.js:83-269 | From a fresh state: quarantine record exactly in quarantined mode, pausedAt exactly in paused mode, applying, removing and failed only in active mode, failed only with an error. |
| `Provisioning.AcceptedExactly` | apps/node-agent/src/provisioning-state.js:143-269 | An event is accepted if and only if the state is in the phase that the event needs, and mode and payload allow it. |
| `Provisioning.ProgressOfEvent` | apps/node-agent/src/provisioning-state.js:143-269 | What every accepted event makes of mode, phase, revision and update time. |
| `Provisioning.RecordsOfEvent` | apps/node-agent/src/provisioning-state.js:143-269 | Which events write the pause, quarantine and error records, with what, and that no other does. |
| `Provisioning.RevisionsOfEvent` | apps/node-agent/src/provisioning-state.js:143-269 | Which events record the desired and the applied revision, with what, and that no other does. |
| `Provisioning.RevisionNeverDrops` | apps/node-agent/src/provisioning-state.js:143-269 | However a run continues, the revision never goes down. |
| `Provisioning.OnlyQuarantineLeavesFailure` | apps/node-agent/src/provisioning-state.js:143-269 | In the failed phase an event is accepted if and only if it is a quarantine. |
| `Provisioning.FailureIsSticky` | apps/node-agent/src/provisioning-state.js:63-73 | Any sequence of events without a quarantine leaves a failed state exactly as it is. |
| `Provisioning.FailureIsReachable` | apps/node-agent/src/provisioning-state.js:183-196 | Two events lead from a fresh state to the failed phase. |
| `NodeAgents.NodeAgent.RunOnce` | apps/node-agent/src/runtime-runner.js:1125-1147 | One pass: the returned and the stored state as functions of the old one; nothing is stored if the result carries no state. |
| `NodeAgents.CommandKeepsSettled` | apps/node-agent/src/runtime-runner.js:730-1032 | Every command takes a settled state to a settled one with at most one revision more: composite steps always end idle. |
| `NodeAgents.SucceedsExactly` | apps/node-agent/src/runtime-runner.js:730-1032 | From a settled state a command succeeds if and only if it is allowed in the mode and its payload suits it, where an apply needs that some action is called for by its plans: no composite step gets stuck half-way. |
| `NodeAgents.ChooseActionExactly` | apps/node-agent/src/runtime-runner.js:840-949 | For every apply, in terms of its kind and plans: exactly when it calls for Xray, for the node policy, for which backend, and for the diagnostic listener, and when a plan that throws prevents that. |
| `NodeAgents.PlannedExactly` | apps/node-agent/src/runtime-runner.js:759-1000 | A command that succeeds has planned exactly the action that its kind and payload call for, restarts, resets, dropped connections and the four ways to stop included. |
| `NodeAgents.OutcomeExactly` | apps/node-agent/src/runtime-runner.js:501-692 | A successful command stays one if and only if its whole effect works: the main step, and the node policy after Xray and backend applies that carry one. |
| `NodeAgents.MutatingExactly` | apps/node-agent/src/provisioning-state.js:271-273 | The mutating commands are exactly those that can plan a runtime action. |
| `NodeAgents.SkippedExactly` | apps/node-agent/src/runtime-runner.js:740-757 | A command is skipped if and only if the mode keeps it out, by a list of commands for each mode; and what state, action and code skipped, failed and successful results carry. |
| `NodeAgents.SuccessWrites` | apps/node-agent/src/runtime-runner.js:759-1000 | What a successful command writes into the pause, quarantine, error and update records, and when. |
| `NodeAgents.QuarantineAlwaysPossible` | apps/node-agent/src/provisioning-state.js:253-265 | A node that is not quarantined can be, from every state, and the record holds the reason, the command and the time. |
| `NodeAgents.SuccessChanges` | apps/node-agent/src/runtime-runner.js:730-1032 | What a successful command does to mode, desired revision and revision (raised by exactly one or not at all), command by command. |
| `NodeAgents.FirstBackendDecides` | apps/node-agent/src/runtime-runner.js:840-935 | The first backend with a plan gives the action; an exception before it fails the command. |
| `NodeAgents.PassKeepsSettled` | apps/node-agent/src/runtime-runner.js:1125-1147 | The same for the stored state over one pass. |
| `NodeAgents.RunIsSettled` | apps/node-agent/src/runtime-runner.js:1076-1158 | Over any run the stored phase is idle, the state consistent, and the revision up by at most the number of passes. |
| `NodeAgents.AgentNeverFails` | apps/node-agent/src/runtime-runner.js:730-1158 | No run of the agent gets into the failed phase: whatever is stored, and whatever a command results in, is idle. |
| `NodeAgents.FailureLeavesStateAlone` | apps/node-agent/src/runtime-runner.js:686-692 | A failed effect, a failed command and a skipped one leave the stored state exactly as it was. |
| `NodeAgents.AppliedRevisionFollowsEffects` | apps/node-agent/src/runtime-runner.js:840-994 | In a pass the applied revision changes exactly by an apply or removal whose effect worked; after an apply it equals the desired revision, after a removal it is absent. |
| `NodeAgents.StoredRevisionIsInEffect` | apps/node-agent/src/runtime-runner.js:1125-1147 | After any run the stored applied revision is that of the last apply or removal that worked as a whole, node policy included. |
| `NodeAgents.RevisionsDifferExactly` | apps/node-agent/src/runtime-runner.js:568-691 | At every point of every run the stored applied revision differs from the running one, that of the last main step that worked, if and only if some pass was left half done with a revision other than the stored one and no main step has worked since. |
| `NodeAgents.HalfDonePass` | apps/node-agent/src/runtime-runner.js:568-691 | Such a half-done apply is reported as failed and stored not at all, while the node runs its revision. |
| `NodeAgents.RevisionsDiffer` | apps/node-agent/src/runtime-runner.js:568-691 | A pass after which the stored and the running revision differ. |
| `NodeAgents.MutatingIsSkipped` | apps/node-agent/src/provisioning-state.js:113-141 | In every mode but active every mutating command is skipped, has no action and changes nothing. |
| `NodeAgents.QuarantinedPass` | apps/node-agent/src/runtime-runner.js:730-1032 | One pass without a clearing resume keeps mode, quarantine record and applied revision and has no runtime action. |
| `NodeAgents.QuarantineHolds` | apps/node-agent/src/provisioning-state.js:113-141 | The same over every run of passes without a resume that says clearQuarantine=true. |
| `NodeAgents.ResumeEndsQuarantine` | apps/node-agent/src/provisioning-state.js:239-252 | A resume that clears the quarantine does bring the node back to active mode. |
| `Telemetry.CollectEvents` | apps/node-agent/src/runtime-telemetry.js:164-213 | The nested loops over files and lines compute events, offsets and marks of the reference fold; a disabled plan reports nothing and keeps the state. |
| `Telemetry.SliceIsExact` | apps/node-agent/src/runtime-telemetry.js:119-139 | Slicing the string at the byte offset yields exactly the added text if and only if the old text is ASCII or nothing was added. |
| `Telemetry.UnseenTextReadExactly` | apps/node-agent/src/runtime-telemetry.js:119-139 | A poll with any stored offset reads all of a text it has never seen if and only if the offset is negative or beyond the text, which starts it over, or only blank lines lie before it. |
| `Telemetry.WatchIsOneScan` | apps/node-agent/src/runtime-telemetry.js:164-213 | For every history of a file, cut, replaced or missing in between: what the polls report is one scan of the lines they read. |
| `Telemetry.OffsetIsLastSize` | apps/node-agent/src/runtime-telemetry.js:119-139 | The stored offset is the size of the file when it was last there. |
| `Telemetry.CutLogIsReadAgain` | apps/node-agent/src/runtime-telemetry.js:129 | A log that is cut to less than was read and then grows is read again from its start: after the earlier lines come exactly the lines of the new text. |
| `Telemetry.PollReadsExactly` | apps/node-agent/src/runtime-telemetry.js:119-139 | One poll reads exactly the added lines if and only if every line of them that reaches into the skipped units is blank; else it reads fewer units. |
| `Telemetry.LinesReadExactly` | apps/node-agent/src/runtime-telemetry.js:119-139 | All polls of a log growing by whole lines together read exactly the lines of the final log if and only if none of them skips a visible line. |
| `Telemetry.LinesConcat` | apps/node-agent/src/runtime-telemetry.js:134-135 | Splitting after whole lines splits both parts independently, blank lines and carriage returns included. |
| `Telemetry.PiecesExactly` | apps/node-agent/src/runtime-telemetry.js:134-135 | The text is its pieces with line feeds between them, and no piece has one. |
| `Telemetry.SplitExactly` | apps/node-agent/src/runtime-telemetry.js:134-135 | The lines are these pieces in order, without one carriage return at the end, except that the last is kept as it is. |
| `Telemetry.NonBlankExactly` | apps/node-agent/src/runtime-telemetry.js:134-135 | Exactly the lines that show something are kept, each as often as it is there. |
| `Telemetry.SpacesExactly` | apps/node-agent/src/runtime-telemetry.js:135 | What counts as blank: the white space and line terminators of ECMAScript. |
| `Telemetry.WidthExactly` | apps/node-agent/src/runtime-telemetry.js:121-133 | How many bytes a code unit takes in UTF-8, surrogates in pairs. |
| `Telemetry.MissingFileExactly` | apps/node-agent/src/runtime-telemetry.js:120-128 | A missing file is told from an empty one; nothing is read and the offset stays. |
| `Telemetry.PollsAreOneScan` | apps/node-agent/src/runtime-telemetry.js:164-213 | After any number of polls of any growing log, reported ids, marks and offset are those of one scan of the lines read. |
| `Telemetry.IncrementalIsFullScan` | apps/node-agent/src/runtime-telemetry.js:164-213 | If no poll skips a visible line, the ids of all polls, concatenated, equal those of one poll over the final log. |
| `Telemetry.IncrementalIsFullScanExactly` | apps/node-agent/src/runtime-telemetry.js:164-213 | For every growing log: whatever is looked for, all polls together report the ids of one poll over the final log, if and only if the lines read and the lines of the final log are the same up to repeats. |
| `Telemetry.AsciiIsFullScan` | apps/node-agent/src/runtime-telemetry.js:164-213 | That is so for every ASCII log that grows by whole lines. |
| `Telemetry.NonAsciiLosesLine` | apps/node-agent/src/runtime-telemetry.js:133 | With one two-byte character the next poll starts too late and an added line is never reported. |
| `Telemetry.ScanIsFresh` | apps/node-agent/src/runtime-telemetry.js:182-206 | Within one file's scan, events are new, pairwise different and all recorded. |
| `Telemetry.RunIsFresh` | apps/node-agent/src/runtime-telemetry.js:164-213 | The same over any run of polls with any files on disk, truncation and changed plans included. |
| `Telemetry.ReportedAtMostOnce` | apps/node-agent/src/runtime-telemetry.js:182-206 | In any run no two events have the same file and resource. |
| `Telemetry.KeysApart` | apps/node-agent/src/runtime-telemetry.js:192 | No two pairs of file and resource id of the source's shape share a mark, even with colons in file names. |
| `Telemetry.CollectReports` | apps/node-agent/src/runtime-telemetry.js:182-206 | In one poll every event names the file, resource and pattern of a recognised line that was read, and every such line is marked. |
| `Telemetry.ReportedExactly` | apps/node-agent/src/runtime-telemetry.js:164-213 | From an empty state, the resources reported over any run, file by file, are exactly those of which some poll has read a recognised line. |
| `Traffic.ComputeDeltas` | apps/node-agent/src/wireguard-traffic.js:102-123 | One loop computes per direction the sum of increases and the sum of counters, and the next baseline, where later entries win. |
| `Traffic.Collector.Collect` | apps/node-agent/src/wireguard-traffic.js:125-180 | A sample reports the increases and becomes the baseline; a failed read reports nothing and leaves the baseline. |
| `Traffic.Collector.ResetState` | apps/node-agent/src/wireguard-traffic.js:182-191 | After a reset the next sample, whatever it holds, reports no bytes in either direction. |
| `Traffic.ResetStartsAfresh` | apps/node-agent/src/wireguard-traffic.js:182-191 | A reset splits a run in two: the totals add up, and the baseline is that of the second part alone. |
| `Traffic.StateIsLastCounters` | apps/node-agent/src/wireguard-traffic.js:125-191 | The stored baseline of a peer is its counter in the last successful sample since a reset, if it was in it. |
| `Traffic.ReportedIsSumOfShares` | apps/node-agent/src/wireguard-traffic.js:102-191 | Over any run with distinct peers the total reported is the sum over peers of their increases between consecutive samples that both contain them with no reset between. |
| `Traffic.SharesTelescope` | apps/node-agent/src/wireguard-traffic.js:102-123 | For an always-present peer with monotone counters the share is last counter minus first. |
| `Traffic.SharesAreConserved` | apps/node-agent/src/wireguard-traffic.js:102-123 | For every run and every counter, monotone or not: what it held when it appeared plus what was reported of it equals what it holds plus what it held when it vanished plus its decreases. |
| `Traffic.PresentIsConserved` | apps/node-agent/src/wireguard-traffic.js:102-123 | For a peer in every sample, with no reset: first counter plus reported equals last counter plus decreases. |
| `Traffic.OneSample` | apps/node-agent/src/wireguard-traffic.js:109-119 | One peer of a sample adds max(0, increase) over its baseline, and nothing without one. |
| `Traffic.FailedReadIsInvisible` | apps/node-agent/src/wireguard-traffic.js:143-154 | A failed read anywhere in a run changes neither the final baseline nor the total. |
| `PortConflicts.DetectExclusiveBindPortConflicts` | packages/protocol-registry/src/port-reservations.js:70-93 | Reports correspond one to one and in order to the index pairs i < j that overlap and are not both shared. |
| `PortConflicts.DetectPortConflicts` | apps/node-agent/src/conflict-model.js:51-87 | The same, with a report for each privileged port that may not be bound in its place in the order. |
| `PortConflicts.OrderedIsUnique` | packages/protocol-registry/src/port-reservations.js:74-90 | A list of pairs in loop order is determined by its members, so the reports above are. |
| `PortConflicts.DetectorsAgree` | apps/node-agent/src/conflict-model.js:51-87 | On the same reservations both implementations report the same overlaps in the same order. |
| `PortConflicts.NoReportMeansCompatible` | packages/protocol-registry/src/port-reservations.js:70-93 | No report if and only if all reservations are pairwise compatible. |
| `PortConflicts.ConflictingExactly` | packages/protocol-registry/src/port-reservations.js:22-36 | Two reservations conflict if and only if some concrete endpoint belongs to both, wildcards taken as all addresses, and one of them is exclusive. |
| `PortConflicts.NoReportMeansShared` | packages/protocol-registry/src/port-reservations.js:70-93 | No report if and only if every endpoint that is claimed twice is shared by all that claim it. |
| `PortConflicts.CreatedExactly` | packages/protocol-registry/src/port-reservations.js:56-68 | All requests become reservations, in order and with their defaults, if and only if all ports are in range. |
| `PortConflicts.ExpandConcat` | packages/protocol-registry/src/port-reservations.js:38-54 | Items are expanded one after the other. |
| `PortConflicts.ExpandOne` | packages/protocol-registry/src/port-reservations.js:38-54 | An item brings its list, or its one bind under the outbound's or else its own id, or itself. |
| `PortConflicts.ReportedAsOftenAsTheyMeet` | packages/protocol-registry/src/port-reservations.js:70-93 | A conflict between two reservations is reported as often as they meet in the input: the product of their numbers, or the pairs of equal ones. |
| `PortConflicts.OrderDoesNotMatter` | packages/protocol-registry/src/port-reservations.js:70-93 | Which unordered pairs are reported, and how often each, is the same for every order of the input. |

## Left out

Addresses, ranges and routes:

- Text forms of addresses. A subnet carries the bytes of its address; that an IPv4-mapped IPv6 address may turn into an IPv4 address when its text is parsed again is not captured.
- IpRanges.From: masks of -8 and below, for which the source indexes its array at a negative position.
- Aliasing of address objects inside ranges: a range holds the bytes of its two addresses, which the source never writes after construction.
- The iterator and the tree of the sorted set: an iterator is an index into the sorted list of ranges, and adding to the set is insertion by comparison.
- Routes.Builder.PrependRoutes: the block passed in is modelled by the list of routes that it adds.
- The texts of error messages, except as far as they decide success.
- Routes.Builder.ConfigBuild: assumes masks above -8, as IpRanges.From does.
- The builder's other fields (DNS, applications, proxy, blocking mode), which do not influence the routes.
- The native exclude-route path of newer Android: what such a route list means is up to the platform, so no claim is made that both paths agree.

Log rotation:

- Appending is one atomic step; the source opens and writes in two calls, so a rename in between can move a message into the rotated file.
- Reads that end in an `IOException` return a partial text with an error message; only complete reads are considered.
- The check that the log directory exists, message formatting, priorities, logcat and device information.
- RotatingLogSafety.DeadlockExactly: shows that some thread can go on, not that locks are granted fairly.

Node agent:

- Validation of node id, mode and phase in loaded states, of envelopes, and the content of protocol plans: a payload's plans are probes that find nothing, find a plan, or throw.
- Files, processes and network: the main step of a runtime effect, and the node policy after it, work or do not. A main step that fails is taken to leave the node as it was. In dry-run mode effects are simulated by the source and count as working here.
- The error codes of failed effects beyond the general one, results sent to the control plane, and timestamps other than as parameters.
- The order of clock readings: times are arbitrary strings.

Collectors and conflicts:

- Pattern matching, hashing, redaction and the construction of plans in telemetry, which are parameters. Marks in the stored state are taken to be non-empty.
- Telemetry.ReadNewLines: the file is valid UTF-8 (the source turns an invalid byte into a character that would count three bytes here), and its size and content are read at one moment.
- Telemetry.IncrementalIsFullScan: one file that grows by whole lines; lines that a poll catches half-written are split in two by the source.
- Counters are unbounded; sums beyond the safe integers of JavaScript are not modelled.
- The xfrm fallback of the IKEv2 collector, which mixes counters of two sources.
- PortConflicts.Create: lower-casing is ASCII only, ports are integers, and fields that do not influence conflicts (purpose, model version, message) are absent.

Subscription renderers, manifests, the web and edge components and the API backend are not part of this model.
