# warpcore verification

A model of warpcore, a user-space UDP/IP stack over netmap, and proofs about it: the khash hash table, the exchange of
packet buffers between w_iovs and netmap rings, the Internet checksum, datagrams on the wire, tail queues and the w_iov
pool, the socket table, fixed-point division and the random number generator. `dafny verify dfyconfig.toml` checks all of it.

| files | what they model |
|---|---|
| `Options`, `Bits`, `Probing`, `KhashSizing`, `KhashTable`, `Khash`, `KhashRun` | `khash.h`: arithmetic of probing and sizing, the invariants of a table and of its in-place rehash as values, the table as a class over arrays, and whole runs against a finite map |
| `NetmapRing`, `NetmapProtocol`, `NetmapSafety`, `NetmapRuns`, `NetmapEngine` | `eth_tx`, `w_nic_tx`, `udp_rx` and allocation: one ring, the state machine of all events, its invariants, whole runs, and the functions as methods that update the state in place |
| `Checksum`, `PayloadChecksum` | `in_cksum.c` against RFC 1071, RFC 1624 and RFC 8200 |
| `Datagram`, `DatagramTx`, `RoundTrip`, `WireFormat` | `udp_tx` writing a frame, `eth_rx`, `ip4_rx`, `ip6_rx` and `udp_rx` reading it, the round trip, and both against the layouts of RFC 768, RFC 791 and RFC 8200 |
| `Reception` | a frame in a receive slot from `eth_rx` to the socket: `NetmapEngine`, `Datagram` and `SockBackend` joined |
| `TailQueue`, `IovPool` | `queue.h` as linked objects, any number of them, and the pool of w_iovs built on them |
| `SockTuple`, `SockTable`, `SockRuns`, `SockBackend` | four-tuples, the socket table as values, its runs, and the same on a khash table |
| `FixedPoint`, `Krng` | `div_mulhi64` and the APPROX macros; `krng.h` |

Integers are unbounded in Dafny, so every width of the source that matters is written out: `%` by a power of two, or
bit-vector types. Random numbers, the tails that the kernel reports, allocation failures and resolved MAC addresses are
parameters.

## What the code does differently

Where a property one would expect does not hold, the code is modelled as it is, an input shows the failure, and the exact
condition is proved.

- The load bound of khash is computed in 64 bits and wraps from 2^28 buckets on (`KhashSizing.HashUpperExact`), so growth
  can fail to make room from 72477573 keys on (`Khash.Table.LoadAtWrap`); a table with every bucket live makes `kh_put`
  answer 0 with another key's bucket (`Khash.Table.Put`), which a run reaches at 2^27 keys (`KhashRun.Misreport`) and no
  run below that (`KhashRun.Run`).
- A shrinking `kh_resize` stores the null of a failed `krealloc` and answers 0 (`KhashRun.ShrunkToNothing`;
  `Khash.Table.Resize` says exactly when).
- The reclaim loop of `w_nic_tx` relies on the tail moving only inside the sync that precedes it
  (`NetmapRing.LateReclaimLosesTrack`); a sync and its reclaim are one step of the model.
- `udp_rx` takes a w_iov before it looks at the packet and does not give it back when it rejects the packet
  (`Reception.LostIffRefused`, `Reception.RunLosesRefused`, `Reception.ShortIsRefused`).
- `ip_cksum_update16` complements the old word twice; `Checksum.Update16Exact` says when it is right nevertheless.
- `mk_ip6_hdr` combines the traffic class with what the buffer held and drops a DSCP without an ECN marking
  (`RoundTrip.Tos6Exact`, `RoundTrip.DscpLost6`); a UDP checksum that comes out as 0 is sent as 0
  (`RoundTrip.SentUnprotected`, `RoundTrip.UnprotectedPayload`).
- `backend_bind` does not look up a port it picked, answers success for a bound address, and `backend_connect` counts its
  200 tries in a byte that can wrap (`SockTable.ApplyKeepsOwn`, `SockTable.SettleOutcome`, `SockRuns.PickedTwice`,
  `SockRuns.CloseTakesOther`, `SockRuns.TriesExhausted`).
- The comments at the APPROX macros give smaller ranges than hold (`FixedPoint.NsToSExact`, `FixedPoint.NsToUsExact`).
- The generator step rebuilds its second word from the first alone, which makes the all-ones state a second fixed point
  (`Krng.FixedPoints`); no seed leads to either.

## Model

| member | source | states |
|---|---|---|
| Probing.Coverage | lib/include/warpcore/khash.h:264-271 | Triangular probing over a power-of-two table visits every bucket within the first n probes. |
| Probing.ProbesDistinct | lib/include/warpcore/khash.h:330-331 | The first n probes are pairwise different buckets. |
| Probing.FirstReturn | lib/include/warpcore/khash.h:403-413 | Among the steps up to 2n-1, the walk is back at its first bucket exactly at step 2n-1, so the `i == last` exit is taken only after a full round. |
| KhashSizing.KRoundUp32 | lib/include/warpcore/khash.h:179-183 | The shift-and-or cascade, with its wrapping decrement and increment, computes the smear of the argument's top bit plus one. |
| KhashSizing.RoundUpLeast | lib/include/warpcore/khash.h:179-183 | For 1 <= x <= 2^31 the result is the least power of two at or above x. |
| KhashSizing.RoundUpWraps | lib/include/warpcore/khash.h:179-183 | For x = 0 and for x above 2^31 the result wraps to 0. |
| KhashSizing.TargetIsTableSize | lib/include/warpcore/khash.h:282-284 | Whatever size is asked for, `kh_resize` aims at a power of two between 4 and 2^31, and at no less than a request up to 2^31. |
| KhashSizing.PutTargets | lib/include/warpcore/khash.h:379-385 | The two requests of `kh_put`, n-1 and n+1, aim at n and at 2n. |
| KhashSizing.HashUpperExact | lib/include/warpcore/khash.h:198 | For powers of two, the 64-bit product gives floor(77n/100) if and only if n <= 2^27; above that it has wrapped. |
| KhashSizing.HashUpperBelow | lib/include/warpcore/khash.h:198 | For every table size, wrapped or not, the load bound is below the number of buckets. |
| KhashSizing.NextProbe | lib/include/warpcore/khash.h:264-271 | The 32-bit wrap of `i + ++step` does not disturb the walk: the next bucket is the next probe, and it is the first bucket exactly at step 2n-1. |
| KhashSizing.GrowthHasRoom | lib/include/warpcore/khash.h:378-389 | Up to 2^28 buckets and below 72477573 keys the size that `kh_put` asks for always has room for one more key. |
| KhashSizing.LargestTargets | lib/include/warpcore/khash.h:379-385 | At 2^31 buckets the requests aim at 2^31 and, by wrapping, at 4. |
| KhashSizing.GrowthAtWrap | lib/include/warpcore/khash.h:378-389 | Growing from 2^27 buckets succeeds if and only if there are fewer than 72477573 keys, although the bound in force is 103347650. |
| KhashTable.EmptyMeansAbsent | lib/include/warpcore/khash.h:264-271 | If a walk for a key meets an empty bucket after passing only others, no live bucket holds the key. |
| KhashTable.FullRoundMeansAbsent | lib/include/warpcore/khash.h:264-271 | If the walk comes round without meeting the key, the key is absent and no bucket is empty. |
| KhashTable.InsertKeepsIndexed | lib/include/warpcore/khash.h:421-431 | Filling a reachable empty bucket or tombstone with an absent key keeps every key reachable and unique. |
| KhashTable.DeleteKeepsIndexed | lib/include/warpcore/khash.h:436-442 | Turning a live bucket into a tombstone removes just its key and keeps all others reachable. |
| KhashTable.KickKeepsMoving | lib/include/warpcore/khash.h:333-348 | A kick-out step exchanges the entry in hand with the one in the way; nothing is lost and one fewer entry waits in the old table. |
| KhashTable.LandKeepsMoving | lib/include/warpcore/khash.h:349-355 | A landing step accounts for the last entry in hand: waiting and moved entries are again all entries. |
| KhashTable.AllMoved | lib/include/warpcore/khash.h:314-358 | When no entry waits, the new flags index exactly the entries of the map, each reachable, with no tombstone. |
| KhashTable.IndexedCounts | lib/include/warpcore/khash.h:366-370 | Live buckets, tombstones and empty buckets add up to the table, and the live ones are as many as the keys. |
| Khash.Search | lib/include/warpcore/khash.h:256-270 | The probe loop of `kh_get` and `kh_put` terminates; it ends at the key's bucket, or at the first empty bucket of the walk with the key absent, or after a full round with the key absent; the remembered bucket is the last tombstone passed, if any was. |
| Khash.FirstEmpty | lib/include/warpcore/khash.h:328-331 | The inner loop of the rehash terminates at an empty bucket reachable from the hash. |
| Khash.KickOne | lib/include/warpcore/khash.h:324-355 | One round of the kick-out loop keeps the bookkeeping of the rehash and lowers the number of waiting entries unless it ends. |
| Khash.KickLoop | lib/include/warpcore/khash.h:323-356 | The kick-out loop terminates with no entry in hand: every entry is either waiting or moved. |
| Khash.KickOut | lib/include/warpcore/khash.h:315-357 | The kick-out process for one old bucket ends with every entry either waiting or moved, and that bucket no longer waiting. |
| Khash.MoveAll | lib/include/warpcore/khash.h:314-358 | The whole rehash loop, in place on the key and value arrays, leaves every entry of the map reachable in the new table with its value. |
| Khash.Table.Get | lib/include/warpcore/khash.h:251-274 | Returns the unique live bucket of the key, or the number of buckets when absent, on full tables too. |
| Khash.Table.Site | lib/include/warpcore/khash.h:393-420 | The bucket chosen for a key is its own bucket if present, otherwise the last tombstone on its walk, or else where the walk ends; a live bucket is chosen for an absent key if and only if every bucket is live. |
| Khash.Table.Trim | lib/include/warpcore/khash.h:359-365 | Shrinking the key and value blocks keeps what the new flags index if both reallocations succeed; a block whose reallocation fails is gone. |
| Khash.Table.Rehash | lib/include/warpcore/khash.h:313-371 | For any sufficient new size the contents are the same map, `n_occupied == size` and no tombstone is left - unless the table shrinks and a `krealloc` fails, in which case, and only then, it is broken. |
| Khash.Table.Expand | lib/include/warpcore/khash.h:293-309 | Growing the key and value blocks keeps the map; a failed allocation leaves a valid table. |
| Khash.Table.Resize | lib/include/warpcore/khash.h:275-373 | The map is kept unless the table shrinks and a `krealloc` fails, which breaks it while the answer is 0 (if and only if `Breaks`, testable beforehand); -1 if and only if an allocation that the source tests fails, and then nothing changed; otherwise the table has the target size, or is untouched when the target is too small. |
| Khash.Table.Fill | lib/include/warpcore/khash.h:421-431 | The stores of an insertion add the key to the map and count it as occupied only if the bucket was empty. |
| Khash.Table.Place | lib/include/warpcore/khash.h:392-434 | Return code 1 means a new key in an empty bucket, 2 a new key in the last tombstone on its walk, 0 the key's own bucket or a table with every bucket live. |
| Khash.Table.RequestIs | lib/include/warpcore/khash.h:378-389 | In numbers: from n buckets, `kh_put` aims at n when fewer than half are live, otherwise at 2n, and at 4 from none. |
| Khash.Table.Grow | lib/include/warpcore/khash.h:378-389 | The resize at the load bound: it happens exactly when the bound is reached and the size asked for has room, and fails exactly when memory runs out. |
| Khash.Table.Put | lib/include/warpcore/khash.h:374-435 | Never duplicates a key; the return code is truthful if and only if the key is present, or `HasRoom` holds, or some bucket is not live; -1 if and only if a growth that is due runs out of memory; within the load bound afterwards if and only if `HasRoom` held, or the table was within it and took no empty bucket; the new size, key count and number of tombstones are given exactly. |
| Khash.Table.Del | lib/include/warpcore/khash.h:436-442 | Removes exactly the key of a live bucket and is a no-op on the end index and on buckets that are not live. |
| Khash.Table.Clear | lib/include/warpcore/khash.h:244-250 | The map becomes empty and the table keeps its size and bound. |
| Khash.Table.RoomOrFree | lib/include/warpcore/khash.h:378-420 | Below 2^27 keys there is always a free bucket for the next key, or the growth that `kh_put` asks for makes one. |
| Khash.Table.FullAtWrap | lib/include/warpcore/khash.h:378-389 | The bound is sharp: with 2^27 keys in 2^27 buckets neither is the case. |
| Khash.Table.StuckAtWrap | lib/include/warpcore/khash.h:378-389 | A table of 2^27 buckets without tombstones never grows again. |
| Khash.Table.RoomWhenSmall | lib/include/warpcore/khash.h:378-389 | Up to 2^28 buckets and below 72477573 keys `HasRoom` holds and stays attainable. |
| Khash.Table.LoadAtWrap | lib/include/warpcore/khash.h:378-389 | That bound is sharp: 72477573 keys in 2^28 buckets have no room. |
| Khash.Table.PutNeverShrinks | lib/include/warpcore/khash.h:378-389 | The resize that `kh_put` asks for never makes the table smaller, so `kh_put` never breaks it. |
| Khash.Table.SizeBounds | lib/include/warpcore/khash.h:366-370 | In every valid table `size <= n_occupied <= n_buckets` and `upper_bound < n_buckets`. |
| KhashRun.StoreKey | lib/src/backend_netmap.c:60-66 | Below 2^27 keys, put followed by the value store is a map update, with an answer that says whether the key was new, or, only for lack of memory, no change; below 72477573 keys the load bound is kept. |
| KhashRun.RemoveKey | lib/src/backend_netmap.c:69-74 | In every valid table, get followed by delete is removal from the map. |
| KhashRun.LookupKey | lib/src/backend_netmap.c:488-489 | Get followed by the value read is map lookup. |
| KhashRun.Step | lib/include/warpcore/khash.h:244-442 | Each operation, with any number of allocations failing, answers as a finite map does and leaves the table standing for the map's next state; only a store needs fewer than 2^27 keys, and only a shrinking resize short of memory breaks the table. |
| KhashRun.Run | lib/include/warpcore/khash.h:244-442 | Over every run, of any length and with allocations failing anywhere, whose stores find fewer than 2^27 keys, all answers are those of a finite map on which operations that report no memory do nothing; it ends early only at a resize that breaks the table; if the keys stay below 72477573 and resizes within 2^28 buckets, the load bound is kept too. |
| KhashRun.RunPlenty | lib/include/warpcore/khash.h:244-442 | With memory enough, every such run is the run of a finite map to its end. |
| KhashRun.ShrunkToNothing | lib/include/warpcore/khash.h:359-372 | Counterexample: shrinking eight empty buckets to four with memory for the flags only answers 0 and leaves a broken table. |
| KhashRun.Misreport | lib/include/warpcore/khash.h:374-435 | The bound is reached by a run: for every hash function, a table made with 2^27 buckets and filled with 2^27 keys answers 0 for an absent key. |
| NetmapRing.PlacedKeepsInterval | lib/src/eth.c:122-160 | Placing a w_iov keeps the occupied slots exactly the circular interval from the remembered tail to `cur`, if and only if `cur` has not come round to the remembered tail. |
| NetmapRing.ReclaimedInterval | lib/src/backend_netmap.c:424-437 | In every iteration of the reclaim loop, wrap-around included, the slot is occupied, and the occupied slots are the rest of the interval. |
| NetmapRing.SyncedSettled | lib/src/backend_netmap.c:406-442 | After a sync that hands back any number of filled slots in order, the interval starts at the new tail again. |
| NetmapRing.AheadEnd | lib/src/backend_netmap.c:424-425 | The reclaim loop's exit test is met exactly after the slots up to the ring's tail. |
| NetmapRing.StepsAreModular | lib/src/backend_netmap.c:424-425 | Slot steps and distances are those of arithmetic modulo the ring size. |
| NetmapRing.FullIff | lib/src/eth.c:106-119 | Between calls a ring counts as full if and only if all its slots but one are filled. |
| NetmapRing.ReclaimedHeld | lib/src/backend_netmap.c:424-437 | The reclaim loop empties exactly the slots it walks over and leaves the others as they were. |
| NetmapRing.LateReclaimLosesTrack | lib/src/backend_netmap.c:440 | Counterexample: a tail that moves without a reclaim lets a ring of four slots be filled past the remembered tail. |
| NetmapProtocol.ApplyKeepsOwners | lib/src/eth.c:147-160 | Every event - send, sync, receive, rejected receive, alloc, free - keeps for each buffer index the number of w_iovs, transmit slots and receive slots that hold it. |
| NetmapProtocol.SendPlaces | lib/src/eth.c:103-161 | A send succeeds if and only if some ring has space; it takes the first such ring from the current one on, circularly; the slot at its old `cur` holds the w_iov and its buffer, the w_iov has the slot's, and nothing else changes. |
| NetmapProtocol.DeliverSwaps | lib/src/udp.c:163-171 | A delivery gives the first pool w_iov the buffer of the receive slot, base and index, gives the slot the w_iov's buffer, and changes no other w_iov or slot. |
| NetmapProtocol.PoolMoves | lib/src/warpcore.c:496-532 | Allocation and freeing move exactly their w_iovs between pool and application and touch no buffer. |
| NetmapProtocol.SyncTakesTails | lib/src/backend_netmap.c:406-442 | A sync takes over the tail of every ring and empties exactly the slots handed back; `cur`, pool and receive side stay. |
| NetmapSafety.ApplyKeepsInvariant | lib/src/backend_netmap.c:415-441 | Every legal event keeps all rings settled and all slot_buf entries and pool members existing w_iovs. |
| NetmapSafety.ApplyKeepsGood | lib/src/eth.c:147-160 | Every disciplined event keeps a witness of which slot holds which w_iov and whose buffer, and keeps such w_iovs out of the pool. |
| NetmapRuns.RunKeepsOwners | lib/src/udp.c:163-171 | Conservation over every legal run: the buffer indices stay a permutation of the initial ones. |
| NetmapRuns.RunKeepsInvariant | lib/src/backend_netmap.c:424-440 | In every reachable state of every legal run the occupied slots are the interval, so the reclaim loop never meets an empty slot_buf entry. |
| NetmapRuns.NeverShared | lib/src/udp.c:163-171 | With one owner per buffer, no w_iov shares its buffer with another w_iov, a transmit slot or a receive slot. |
| NetmapRuns.AgreesIffNotHeld | lib/src/backend_netmap.c:432-436 | The buffer index of a w_iov agrees with its base address if and only if no transmit slot holds it. |
| NetmapRuns.RunRestores | lib/src/eth.c:147-160 | After every disciplined run every buffer has at most one owner, and each w_iov has its own buffer back exactly when no transmit slot holds it. |
| NetmapRuns.RunLosesRejects | lib/src/udp.c:123-154 | Over every legal run of events, pool and application together lose exactly one w_iov for each reject event that finds a w_iov; `Reception.RunLosesRefused` ties these events to the packets. |
| NetmapRuns.FreshIsGood | lib/src/warpcore.c:604-611 | A state as after initialisation, with no frame placed and no w_iov handed out, is a good starting state. |
| NetmapEngine.Engine.EthTx | lib/src/eth.c:99-162 | False if and only if all rings are full, and then nothing changes; otherwise the first ring with space from the current one on, circularly, takes the w_iov and its buffer in its old `cur` slot and moves on by one, the w_iov has the slot's buffer, and nothing else changes. |
| NetmapEngine.Engine.SeekRing | lib/src/eth.c:103-119 | The ring search with its wrapping cursor finds the first ring with space, or ends where it began. |
| NetmapEngine.Engine.Reclaim | lib/src/backend_netmap.c:424-437 | The reclaim loop, in place, ends after the handed-back slots and equals their one-by-one reclaim. |
| NetmapEngine.Engine.SyncRing | lib/src/backend_netmap.c:416-440 | One ring of a sync: its tail moves, its slots are reclaimed, the tail is remembered; other rings are untouched. |
| NetmapEngine.Engine.NicTx | lib/src/backend_netmap.c:406-442 | The loop over all rings is the protocol's sync event: every ring has its reported tail, remembered too, and its `cur` unchanged. |
| NetmapEngine.Engine.AllocIov | lib/src/warpcore.c:614-626 | The head of the pool goes to the application, or nothing happens when the pool is empty. |
| NetmapEngine.Engine.FreeIov | lib/src/warpcore.c:520-532 | A w_iov goes to the front of the pool. |
| NetmapEngine.Engine.UdpRx | lib/src/udp.c:80-176 | A delivered frame exchanges buffers: the first pool w_iov gets the receive slot's, base and index, and the slot gets the w_iov's; a rejected one takes a w_iov out of the pool for good; nothing else changes. |
| NetmapEngine.Engine.EthTxAndFree | lib/src/eth.c:169-179 | When it gives the w_iov back to the pool, no transmit slot holds it and it has its own buffer; while it has not, the w_iov is in a slot. |
| Checksum.Reduce | lib/src/in_cksum.c:74-80 | The folding loop terminates with the complement of the ones-complement sum. |
| Checksum.SumWords | lib/src/in_cksum.c:107-120 | The loop over little-endian words, odd byte included, is the exact sum modulo 2^32. |
| Checksum.IpCksum | lib/src/in_cksum.c:133-137 | For every length a 16-bit argument can give, the result is the complement of the ones-complement sum: the accumulator does not wrap. |
| Checksum.Rfc1071SumIsOnes | lib/src/in_cksum.c:125-137 | The end-around-carry sum of section 1 of RFC 1071 over big-endian words, added word by word, is the ones-complement sum. |
| Checksum.ByteOrderIndependent | lib/src/in_cksum.c:107-137 | For every buffer of every length, the byte-swapped little-endian checksum is the RFC 1071 checksum over big-endian words (section 2 (B)). |
| Checksum.WrittenVerifies | lib/src/in_cksum.c:133-137 | Writing the checksum into its zeroed, even-offset field makes the checksum of the whole buffer exactly 0, for every buffer. |
| Checksum.ChangeDetected | lib/src/in_cksum.c:133-137 | A block that verifies still does after one aligned word is replaced if and only if the words are congruent modulo 65535 and the block is not all zero. |
| Checksum.Update32 | lib/src/in_cksum.c:84-93 | The 32-bit arithmetic of the incremental update computes its specification without wrap. |
| Checksum.Update32Exact | lib/src/in_cksum.c:84-93 | The update equals full recomputation if and only if the updated buffer is not all zero (Eqn. 3 in section 3 of RFC 1624). |
| Checksum.Update16 | lib/src/in_cksum.c:96-103 | The code's 16-bit update, with the integer promotion of its complement, computes its specification. |
| Checksum.Update16Exact | lib/src/in_cksum.c:96-103 | Exactly when the 16-bit update agrees with recomputation: only for an old word 0 or 0x8000, with the conditions spelled out. |
| Checksum.Update16Fails | lib/src/in_cksum.c:96-103 | Counterexample: changing 1 to 2 in a two-byte buffer. |
| PayloadChecksum.Accumulate | lib/src/in_cksum.c:149-164 | Adding a block to the running 32-bit sum keeps it the exact total modulo 2^32. |
| PayloadChecksum.PayloadCksum | lib/src/in_cksum.c:140-167 | Both branches compute the reduction of their 32-bit sum of pseudo-header terms and payload. |
| PayloadChecksum.CoveredSum | lib/src/in_cksum.c:149-164 | The exact sum over the pseudo-header of the standards plus payload differs from the code's terms by a multiple of 65535 (the `<< 24` term of section 8.1 of RFC 8200). |
| PayloadChecksum.PayloadExact | lib/src/in_cksum.c:140-167 | The result is the checksum over pseudo-header and payload if and only if the 32-bit sum did not wrap. |
| PayloadChecksum.PayloadCorrect | lib/src/in_cksum.c:140-167 | It did not wrap for IPv4, nor for IPv6 with a next header up to 128, so the result is right for UDP and ICMPv6. |
| PayloadChecksum.CorruptionDetected | lib/src/in_cksum.c:140-167 | In a packet that verifies, replacing any aligned word of the addresses or after the IP header is noticed if and only if the words are not congruent modulo 65535. |
| Datagram.IsMyIp4 | lib/src/ip4.c:200-214 | The first matching interface address from the first IPv4 one on, or 65535; with broadcast matching, not 65535 if and only if the address is ours. |
| Datagram.IsMyIp6 | lib/src/ip6.c:173-187 | The first matching interface address, or 65535; with multicast matching, not 65535 if and only if the address is ours. |
| DatagramTx.MkIp4Hdr | lib/src/ip4.c:153-189 | The header is written in place, with its checksum over the zeroed field, and nothing else changes. |
| DatagramTx.MkIp6Hdr | lib/src/ip6.c:127-161 | The header is written in place over what the buffer held, whose stale bits remain in its first word. |
| DatagramTx.UdpTx4 | lib/src/udp.c:189-220 | The IPv4 branch writes exactly the specified frame around the payload. |
| DatagramTx.UdpTx6 | lib/src/udp.c:189-220 | The IPv6 branch writes exactly the specified frame around the payload. |
| DatagramTx.SealedVerifies | lib/src/udp.c:206-213 | The checksum `udp_tx` stores makes `payload_cksum` of the finished packet 0. |
| RoundTrip.UdpRxAccepts | lib/src/udp.c:94-142 | A packet finished by `udp_tx`, checksums on or off, passes the length and checksum tests of `udp_rx`. |
| RoundTrip.Ip4Accepts | lib/src/ip4.c:95-130 | It passes the version, address, header checksum, fragment and protocol tests of `ip4_rx`. |
| RoundTrip.Ip6Accepts | lib/src/ip6.c:91-106 | It passes the version, address and next-header tests of `ip6_rx`. |
| RoundTrip.RoundTrip4 | lib/src/udp.c:80-220 | Every IPv4 datagram that fits 16-bit lengths, sent to any MAC address that `eth_rx` takes, arrives through `eth_rx` with the same source and destination addresses and ports, payload place, length and bytes, and TOS byte. |
| RoundTrip.RoundTrip6 | lib/src/udp.c:80-220 | Every IPv6 datagram that fits 16-bit lengths, sent to any MAC address that `eth_rx` takes, arrives with the same addresses, ports, payload place, length and bytes. |
| RoundTrip.Tos6Exact | lib/src/ip6.c:132-138 | What `eth_rx` reports for a sent IPv6 frame has the sent TOS byte if and only if the stale nibble of the buffer is covered by it (with an ECN marking) or is all of it (without). |
| RoundTrip.DscpLost6 | lib/src/ip6.c:133-138 | Counterexample: every frame with DSCP 46 and no ECN marking, sent from a buffer that held zeros there, arrives with TOS 0. |
| RoundTrip.SentUnprotected | lib/src/udp.c:209-213 | The UDP checksum on the wire is 0, which means none, if and only if the covered sum is a multiple of 65535: a computed 0 is not replaced by 0xFFFF. |
| RoundTrip.UnprotectedPayload | lib/src/udp.c:206-213 | On every IPv4 flow some two-byte payload is sent with checksum 0. |
| TailQueue.Queue.constructor | lib/include/warpcore/queue.h:430-435 | A new head stands for the empty sequence. |
| TailQueue.Queue.Init | lib/include/warpcore/queue.h:430-435 | The head stands for the empty sequence. |
| TailQueue.Queue.InsertHead | lib/include/warpcore/queue.h:445-451 | Prepends to the sequence; links, last address and length agree with it. |
| TailQueue.Queue.InsertTail | lib/include/warpcore/queue.h:453-459 | Appends to the sequence through the address kept in the head. |
| TailQueue.Queue.InsertAfter | lib/include/warpcore/queue.h:437-443 | Inserts after a position. |
| TailQueue.Queue.RemoveHead | lib/include/warpcore/queue.h:490-495 | Drops the first element. |
| TailQueue.Queue.RemoveAfter | lib/include/warpcore/queue.h:482-488 | Drops the element after a position. |
| TailQueue.Queue.Remove | lib/include/warpcore/queue.h:468-480 | Finds the predecessor by walking and drops the element. |
| TailQueue.Queue.Concat | lib/include/warpcore/queue.h:399-407 | Of two different queues, appends the second to the first and empties it; of a queue with itself, empties it. |
| TailQueue.Queue.Swap | lib/include/warpcore/queue.h:497-512 | Exchanges the sequences, repairing the address in an empty head. |
| TailQueue.Step | lib/include/warpcore/queue.h:399-512 | One operation on one or two of any number of queues has its effect on the sequences and leaves all queues well formed and disjoint. |
| TailQueue.Run | lib/include/warpcore/queue.h:399-512 | Over every run of operations whose positions exist and whose inserted elements are in no queue, the queues stand for the sequences that the run gives, and stay disjoint. |
| IovPool.AllocIovBase | lib/src/warpcore.c:594-626 | The pool's head, reset to its whole buffer and unlinked, or null from an empty pool. |
| IovPool.AllocIov | lib/src/warpcore.c:105-131 | Leaves room for headers and offset; where these fit, the payload has the length asked for or, for 0, ends with the buffer; otherwise 16-bit arithmetic. |
| IovPool.WithinBuffer | lib/src/warpcore.c:121-123 | The payload stays within the buffer if and only if offset and requested length were in range. |
| IovPool.FullLenIs | lib/src/warpcore.c:121-123 | Where headers and offset fit, the full length is the one asked for or, for 0, the whole rest of the buffer. |
| IovPool.AllocLen | lib/src/warpcore.c:151-180 | The loop terminates; w_iovs move from the pool's front to the queue's end, in order, with the lengths of the cutting of the request; all but the last have the length asked for or, for 0, end with their buffer; with offset and length in range every one stays within its buffer. |
| IovPool.ChunksFull | lib/src/warpcore.c:163-177 | Every length but the last is full, and none is larger. |
| IovPool.ChunksSum | lib/src/warpcore.c:163-177 | The lengths sum to exactly the request if the pool can hold it, otherwise to all it can hold, and then the whole pool is used. |
| IovPool.ChunksPrefix | lib/src/warpcore.c:163-177 | A smaller pool gives a prefix of what a larger one gives. |
| IovPool.SqLen | lib/src/warpcore.c:228-235 | The sum of the payload lengths along the links. |
| IovPool.AllocMeasured | lib/src/warpcore.c:151-235 | Allocating into an empty queue and measuring it gives the request or, if that is less, the number of w_iovs times the length asked for or, for 0, times the rest of a buffer. |
| IovPool.AllocCnt | lib/src/warpcore.c:200-219 | As many w_iovs as asked for, or the whole pool, each with the length asked for or, for 0, ending with its buffer. |
| IovPool.FreeQueue | lib/src/warpcore.c:496-512 | The queue goes to the end of the pool; an empty queue changes nothing. |
| IovPool.FreeIov | lib/src/warpcore.c:520-532 | A single unlinked w_iov goes to the front of the pool. |
| IovPool.PoolRun | lib/src/warpcore.c:105-219 | Over every run of allocations and frees, of queues and of single w_iovs, pool and outstanding queues stay disjoint, the single w_iovs apart from them, and together they hold every w_iov exactly as often as before. |
| FixedPoint.MulHiExact | lib/src/util.c:595-616 | The four 32-bit products and the carry give exactly floor(a*b / 2^64), with no intermediate overflow. |
| FixedPoint.Reciprocal | lib/include/warpcore/util.h:64-71 | Multiplying by a rounded-up reciprocal and shifting is exact division if and only if the accumulated error and the scaled remainder stay below the modulus. |
| FixedPoint.NsToSExact | lib/include/warpcore/util.h:64-65 | Exact division by 10^9 below 12271925811999999999, beyond the documented range. |
| FixedPoint.NsToSIff | lib/include/warpcore/util.h:64-65 | For every 64-bit x, exact if and only if the error term stays below the modulus. |
| FixedPoint.NsToSFails | lib/include/warpcore/util.h:64-65 | The bound is sharp: 12271925811999999999 gives the wrong second. |
| FixedPoint.NsToMsExact | lib/include/warpcore/util.h:67-68 | Exact division by 10^6 for every 64-bit x. |
| FixedPoint.NsToUsExact | lib/include/warpcore/util.h:70-71 | Exact division by 10^3 below 2049638230412172999, beyond the documented range. |
| FixedPoint.NsToUsIff | lib/include/warpcore/util.h:70-71 | For every 64-bit x, exact if and only if the error term stays below the modulus. |
| FixedPoint.NsToUsFails | lib/include/warpcore/util.h:70-71 | The bound is sharp: 2049638230412172999 gives the wrong microsecond. |
| Krng.StepUndone | lib/src/krng.h:22-31 | The step is injective on 128-bit states: it can be undone. |
| Krng.UnstepUndone | lib/src/krng.h:22-31 | The step is surjective: every state has a predecessor. |
| Krng.StepRotates | lib/src/krng.h:22-31 | The next state in terms of rotations of the first word by 55 and by 36 bits. |
| Krng.FixedPoints | lib/src/krng.h:22-31 | A step fixes a state if and only if both words are all zeros or both are all ones; so zero is not its only fixed point. |
| Krng.SplitMixUndone | lib/src/krng.h:13-19 | splitmix64 is injective: its argument can be computed from its result. |
| Krng.SeededRuns | lib/src/krng.h:53-57 | No 64-bit seed gives a fixed state. |
| Krng.SeedsApart | lib/src/krng.h:53-57 | Different seeds give different states. |
| Krng.SeededUndone | lib/src/krng.h:53-57 | The two words of a seeded state are successive values of the splitmix64 chain of the seed. |
| Krng.RunsApart | lib/src/krng.h:22-31 | Runs that meet after equally many steps began in the same state. |
| Krng.NeverStuck | lib/src/krng.h:22-31 | A run reaches a fixed state if and only if it began in one. |
| Krng.SeededNeverStuck | lib/src/krng.h:13-57 | No run from any seed, however long, reaches the all-zero state or a state that stops changing. |
| Krng.Generator.Rand | lib/src/krng.h:22-31 | Returns the sum of the two words as they were and steps the state in place; the state before can be recovered. |
| Krng.Generator.Srand | lib/src/krng.h:53-57 | The state becomes the seeded one, which is not fixed. |
| Krng.Draw | lib/src/krng.h:22-57 | Seeding and drawing n numbers yields the outputs along the run from the seed. |
| SockTuple.CmpIsKeyEquality | lib/src/warpcore.c:644-677 | The nested comparisons are equality of one key: family, the bytes of that family, and port, on both sides; scope and unused bytes do not matter. |
| SockTuple.CmpFields | lib/src/warpcore.c:644-677 | Tuples compare equal if and only if both ports and both families agree and, on each side, the first four address bytes for AF_INET, all sixteen otherwise. |
| SockTuple.Fnv1a32 | lib/src/util.c:558-569 | The loop computes the fold of its round over the bytes. |
| SockTuple.OneByteTells | lib/src/util.c:558-569 | Buffers of one length that differ in one byte never collide, although the constants for prime and basis are exchanged. |
| SockTuple.FnvVectors | lib/src/util.c:558-569 | The hash of nothing and of one byte, in numbers. |
| SockTuple.HashIsKeyHash | lib/src/warpcore.c:629-641 | The hash depends on nothing but the compared key. |
| SockTuple.EqualTuplesHashEqually | lib/src/warpcore.c:629-677 | Tuples that compare equal hash equally. |
| SockTuple.LocalByteTells | lib/src/warpcore.c:629-641 | Tuples that differ in one compared byte of the local address never collide. |
| SockTuple.BoundPortTells | lib/src/warpcore.c:629-641 | Sockets only bound, on one address, with ports that differ in one byte never collide. |
| SockTuple.RemotePortIgnored | lib/src/warpcore.c:637-640 | The remote port does not reach the hash: the local port is hashed twice. |
| SockTable.InsertKeepsOwn | lib/src/backend_netmap.c:60-66 | Insertion keeps every stored key in the tuple of its own socket if and only if the key was not stored for another socket. |
| SockTable.RemoveKeepsOwn | lib/src/backend_netmap.c:69-74 | Removal keeps the table sound and takes out the key. |
| SockTable.ChangeKeepsOwn | lib/src/warpcore.c:257-263 | A socket's tuple may change while the socket is out of the table. |
| SockTable.ApplyKeepsOwn | lib/src/backend_netmap.c:251-319 | Bind, connect and close keep every stored key in the tuple of its own socket if and only if the port they end with is free: a picked port is not looked up by bind, nor the last one by connect. |
| SockTable.SettleOutcome | lib/src/backend_netmap.c:306-318 | Connect is refused if and only if the 200th try is the first free one; when all 200 are taken, the 8-bit countdown wraps and the last port is inserted untried. |
| SockTable.ApplyKeepsKeyed | lib/src/warpcore.c:250-275 | Every operation, whatever ports it picks, leaves each stored key equal to the key of the tuple it lies in and of the socket it leads to: a tuple changes only while no key in it is stored. |
| SockTable.FindIsMatch | lib/src/backend_netmap.c:481-490 | In a sound table a lookup finds a socket if and only if that socket is stored and its own tuple compares equal. |
| SockTable.DeliverIsMatch | lib/src/udp.c:141-156 | The two lookups deliver to the stored socket that matches the four-tuple if there is one, otherwise to the one only bound to the destination, and to nobody if and only if neither exists. |
| SockTable.BindFinds | lib/src/backend_netmap.c:251-266 | After a bind, exactly the lookups of the new socket's address and port without a remote find it, unless the address was bound; all others find whom they found. |
| SockTable.ConnectTuple | lib/src/warpcore.c:250-275 | What a connect makes of the tuple: the peer's family, address bytes and port on success, zeros on error, the local address kept and the port the old one or a picked one; which error occurs when. |
| SockTable.ConnectFinds | lib/src/warpcore.c:250-275 | After a connect, exactly the lookups from the peer find the socket; those of its former tuple find nobody, and all others whom they found; a refused socket is found by nobody. |
| SockTable.CloseFinds | lib/src/backend_netmap.c:273-277 | After a close, lookups of the socket's tuple find nobody and all others whom they found. |
| SockRuns.ApplyTracks | lib/src/backend_netmap.c:251-319 | After a disciplined operation the stored sockets are exactly the ones in use. |
| SockRuns.RunTracks | lib/src/backend_netmap.c:251-319 | After every disciplined run the stored sockets are exactly the ones in use. |
| SockRuns.RunKeepsKeyed | lib/src/warpcore.c:250-332 | The same over every run, disciplined or not. |
| SockRuns.RunDelivers | lib/src/udp.c:141-156 | After every disciplined run from the empty table the table is sound and every datagram goes to the socket in use that matches best. |
| SockRuns.PickedTwice | lib/src/backend_netmap.c:261-264 | Counterexample: two binds that pick the same port; the second takes the first one's entry. |
| SockRuns.CloseTakesOther | lib/src/backend_netmap.c:253-276 | Counterexample: a bind to a bound address answers success without storing its socket, and closing that socket removes the other's entry. |
| SockRuns.TriesExhausted | lib/src/backend_netmap.c:306-318 | Counterexample: a connected socket has the four-tuple and all 200 tries of a second socket give the same port; its connect answers success and takes the first one's entry. |
| SockBackend.Backend.InsSock | lib/src/backend_netmap.c:60-66 | On the khash table: insertion; a key that is there already stays in its old tuple while the value is overwritten. |
| SockBackend.Backend.RemSock | lib/src/backend_netmap.c:69-74 | On the khash table: removal of the socket's key. |
| SockBackend.Backend.GetSock | lib/src/backend_netmap.c:481-490 | On the khash table: lookup of a four-tuple, with an absent remote all zeros. |
| SockBackend.Backend.Demux | lib/src/udp.c:141-156 | The two lookups of `udp_rx`. |
| SockBackend.Backend.Bind | lib/src/backend_netmap.c:251-266 | On the khash table: `backend_bind` for a new socket. |
| SockBackend.Backend.Reroll | lib/src/backend_netmap.c:307-313 | The countdown loop, with its 8-bit wrap, ends at the first free try or after 200. |
| SockBackend.Backend.BackendConnect | lib/src/backend_netmap.c:295-319 | Inserts the socket unless the countdown is 0, and answers 1 exactly then. |
| SockBackend.Backend.Connect | lib/src/warpcore.c:250-275 | On the khash table: removal, peer address, search for a port, insertion; the peer is erased on every error. |
| SockBackend.Backend.Close | lib/src/backend_netmap.c:273-277 | On the khash table: removal. |
| SockBackend.Backend.Perform | lib/src/backend_netmap.c:251-319 | Every operation on the khash table is the next step of the runs above. |
| SockBackend.Run | lib/src/backend_netmap.c:251-319 | Any run of operations on a new backend takes its khash table to the final state of that run. |
| SockBackend.RunAndDemux | lib/src/udp.c:141-156 | After a disciplined run the two lookups on the khash table find the socket in use that matches best; it has the destination's port and family, and the sender's, or none. |
| WireFormat.Wire4 | lib/src/ip4.c:153-189 | Every byte of a sent IPv4 frame except the two checksums, at its place, with addresses, port and MAC taken from the socket if its remote port is not 0, else from the w_iov and the interface. |
| WireFormat.Wire6 | lib/src/ip6.c:127-161 | The same for IPv6, stale bits of the first word included. |
| WireFormat.SentTo4 | lib/src/udp.c:189-220 | The receiver of an IPv4 datagram sees the socket's own and peer address and port if its remote port is not 0, else the interface address and the w_iov's destination. |
| WireFormat.SentTo6 | lib/src/udp.c:189-220 | The same for IPv6. |
| WireFormat.MyIp4Iff | lib/src/ip4.c:200-214 | The IPv4 addresses a host takes: its own, their broadcast addresses and the general one, and no others. |
| WireFormat.MyIp6Iff | lib/src/ip6.c:173-187 | The IPv6 addresses a host takes: its own, solicited-node and broadcast ones, and no others. |
| WireFormat.ForeignDropped | lib/src/eth.c:64-71 | Every frame to another unicast MAC address is dropped; the own and the broadcast address are taken. |
| WireFormat.ReceivedBytes | lib/src/udp.c:94-142 | What is received is a whole UDP datagram to this host, and the addresses, ports, TOS, TTL, place and length reported are read from its own bytes. |
| Reception.ReceivedIff | lib/src/eth.c:64-88 | A frame is received if and only if it passes all tests of `eth_rx` and `ip4_rx` or `ip6_rx` and its datagram is well formed. |
| Reception.Verdict | lib/src/udp.c:101-156 | The checks of `udp_rx` and its two lookups on the khash table give the receiving socket, or none if and only if the packet is refused. |
| Reception.UdpReceive | lib/src/udp.c:80-176 | The packet and the socket table decide: delivered, the first pool w_iov and the receive slot exchange buffers and the result is the socket; refused, the w_iov leaves the pool and nothing else changes. |
| Reception.EthReceive | lib/src/eth.c:52-88 | The same for whole frames, with the exchange of buffers; a frame that does not get to `udp_rx` changes nothing. |
| Reception.LostIffRefused | lib/src/udp.c:88-154 | A w_iov is lost if and only if the pool had one and the packet is too short, has a wrong checksum, or has no socket. |
| Reception.RunLosesRefused | lib/src/udp.c:88-154 | Over every legal run, exactly one w_iov is lost for each packet refused while the pool is not empty, and none otherwise. |
| Reception.RefusedWithoutSockets | lib/src/udp.c:141-154 | Counterexample: while no socket is bound, every packet costs a w_iov. |
| Reception.ShortIsRefused | lib/src/udp.c:123-126 | Counterexample for every table: a packet too short for a UDP header. |
| Reception.ListenedIsNotRefused | lib/src/udp.c:141-156 | A well-formed packet for which a stored socket matches is not refused. |
| Reception.SentNotRefused4 | lib/src/udp.c:80-220 | No IPv4 frame that `udp_tx` sent to a stored matching socket is refused. |
| Reception.SentNotRefused6 | lib/src/udp.c:80-220 | No IPv6 frame that `udp_tx` sent to a stored matching socket is refused. |
| Reception.EndTells | lib/src/warpcore.c:659-677 | The table tells packet addresses and ports apart exactly as their bytes do. |
| Reception.EndValues | lib/src/udp.c:101-142 | What is looked up has the family, the address bytes and the port number of the packet. |
| Reception.DamageIsRefused | lib/src/udp.c:128-139 | A well-formed packet with a checksum, one word of whose addresses, ports or data is replaced by an incongruent one, is refused. |
| Reception.HeaderDamageDropped | lib/src/ip4.c:110-115 | An IPv4 frame with a header word so replaced is dropped. |

## Left out

- NetmapEngine.Engine.EthTxAndFree: no liveness; the loop is followed for as many syncs as the kernel answers.
- NetmapEngine.Engine.UdpRx: takes the verdict on the packet as a parameter; `Reception.UdpReceive` computes it.
- Reception.UdpReceive: the ICMP message that the source sends for a packet without a socket is not modelled, nor are UDP length fields below 8.
- NetmapEngine.Engine.EthTx: slot lengths and the flags NS_BUF_CHANGED and NS_REPORT are not modelled.
- RoundTrip.RoundTrip4: datagrams whose length with headers exceeds 65535 bytes are outside, as are received UDP length fields below 8.
- SockBackend.Backend.InsSock: the source's debug builds abort when the key is there already (`assure(ret >= 1)`), so `SockRuns.PickedTwice` and `SockRuns.TriesExhausted` end in an abort there; the model is of a release build, and of one in which `kh_put` has memory: after a -1 the source stores the value at the end index, outside the block.
- SockBackend.Backend.RemSock: debug builds abort when the key is not found; the model is of a release build, where nothing is removed.
- SockBackend.Run: each operation must find fewer than 2^27 stored sockets, as `kh_put` needs (`Khash.Table.FullAtWrap`).
- SockBackend.Backend.Bind: the socket's tuple is written once, after the port is known; socket options and the memory of closed sockets are not modelled.
- SockBackend.Backend.Reroll: works on the tuple as a value and the caller stores it; no other code can see the socket meanwhile.
- Netmap pipe mode, which copies frames and skips the reclaim.
- `backend_init`, `backend_cleanup`, `ifaddr.c`, `plat.c` and the socket and RIOT backends: ioctl, mmap and poll plumbing.
- ARP, ICMP and the neighbor cache, including `who_has` in `backend_connect`: field copying on top of what is proved here.
- `w_tx`, `w_rx` and `w_nic_rx`: loops whose bodies are the send, sync and receive events.
- The SSE checksum, which is compiled out.
- `w_rand_uniform32`, `w_rand_uniform64`: the rejection threshold uses the type's maximum, so the result is not uniform.
- `kr_jump_r` and `kr_drand_r`.
- Logging, hexdump, `sl_*` lists, `timespec_sub`, `bin/` and `misc/`: user interface or easy members.
