# A Dafny model of JellyTorrent

JellyTorrent is a BitTorrent client with a Kademlia DHT node. This project models the parts of it where many small
steps have to add up, and proves what they add up to. Values are datatypes, sequences and maps; the objects whose fields
the program updates are classes, each method tied to a function of the old state; protocols with many participants are
state machines over those same functions, with theorems about every run. What comes from outside is a parameter or an
arbitrary choice: clocks, random bytes, the network, file-system failures, crashes, map order, the order of arrival.

| part | files | main results |
|---|---|---|
| bencoding (BEP 3) | Bytes, Sets, Decimal, KeyOrder, Value, Encoder, Decoder, RoundTrip, Canonical, CanonicalText, Grammar, Utf8 | round trip in any context, exactly up to the depth limit; prefix code; exactly which texts survive re-encoding |
| info dictionary | Metainfo, InfoAgreement, InfoDecoded, InfoText | the hand-written serializer agrees with the encoder exactly on dictionaries of known keys; exactly which encoded dictionaries are accepted |
| rate limiter | RateLimiter | garbage collection is invisible; at most twice the limit in any interval of window length; exactly when the limit holds, and when twice the limit is reached |
| routing table (BEP 5, BEP 42) | NodeID, Bucket, Table, TableSteps, Bookkeeping, Nearest, RoutingTable | the invariant of every run; exactly when nearest-node search is exact |
| persistence | Compact, Rebuild, Persistence, Dht | saving and loading rebuilds the same table |
| iterative lookup | Lookup | the answer and the cost against an arbitrary network |
| pieces | BitField, Selector, Pieces, PieceSteps, Swarm, SwarmSteps, Exclusivity, Stalled, PieceManager | no piece left in progress, exactly when a pending one is left to wait, exactly when exclusive before endgame, completion exactly once, the bytes of the first completion |
| disk | DiskMachine, DiskStore | exactly when a crash cannot leave a marked piece incomplete |
| blocks, peer exchange, choker | Pipeline, Pex, ChokeMachine, FlipOrder, Choker | tiling, at most five outstanding requests, exact views, exact slot bounds, exactly which orders of a tick keep to the slots |

Some things the code does that its names and comments do not say, each proved here:

- `FindClosest` does not always return the nearest nodes: it stops as soon as the buckets next to the start bucket hold
  enough nodes, although a deeper bucket may hold nearer ones (`Nearest.NotAlwaysExact`). `Nearest.ExactIff` says exactly
  when it does.
- The sliding-window limiter keeps every interval of window length within its limit only if the window is at most two ticks
  of the clock long (`RateLimiter.KeepsLimitIff`). It admits up to twice the limit at the boundary of two windows, which its
  comment sets out to avoid, exactly if the window has more than twice as many ticks (`RateLimiter.ReachesTwiceIff`), and
  never more (`RateLimiter.HistoryBound`).
- A start that fails to read an existing bitfield file goes on as if there were none. The old file keeps marking pieces
  while they are written again, and a crash in one of those writes leaves a torn piece marked as present
  (`DiskMachine.UnreadableBitfieldBreaks`). `DiskMachine.CrashConsistentIff` says exactly when that can happen.
- The info hash of a dictionary with further keys is not the hash of its encoding (`InfoAgreement.InfoHashInput`).
- The decoder accepts texts the encoder never produces: numbers with a sign or leading zeros, unsorted and repeated keys
  (`CanonicalText.PaddedLengthAccepted` and the lemmas after it). `CanonicalText.SurvivesExactly` says exactly which texts
  come back unchanged from re-encoding, and `Canonical.Canonicalisation` what becomes of the others.
- A peer left out of a peer-exchange message because 50 others were new is not announced later, as long as both it and the
  receiver stay connected (`Pex.ViewExactly`).
- `NewInfo` wants a string for the name and bytes for the piece hashes, and the decoder decides between the two by UTF-8
  validity. So a dictionary is refused if its hashes happen to be valid UTF-8 (`InfoDecoded.AsciiHashRefused`), or its name
  or a path component is not. `InfoDecoded.NewInfoAfterDecode` says exactly what is accepted.
- The addresses the tracker sends become workers without removing duplicates, and the piece manager knows workers by
  address. With two workers at one address, the cleanup of one gives back the piece the other is fetching, and a third
  worker takes it before endgame (`Exclusivity.SharedAddressBreaks`). That is the only way to it (`Exclusivity.ExclusiveIff`),
  and with different addresses it cannot happen (`Exclusivity.DistinctExclusive`). No piece in progress is ever left
  without a worker, with shared addresses or without (`Swarm.EveryRun`).
- While a tick of the choker goes through its peers, up to twice as many as there are slots can be unchoked
  (`ChokeMachine.TwiceReached`); never more, and outside a tick never more than the slots (`ChokeMachine.SlotBound`).
  `FlipOrder.FlipOrderIff` says exactly which orders of the peers keep to the slots all the way.
- `GetBlock` adds offset and length in 32 bits; `Pipeline.GetBlockMeaning` says exactly when the bounds of its slice
  expression come out of order. With the length limit, a request can cause it exactly for a piece of more than 4 GiB less
  128 KiB (`Pipeline.AnswerFaultsIff`).
- A worker that finds nothing to fetch waits for a Have message, and does not look again when another worker gives a piece
  back. So a piece can be left pending although a live worker's peer has it (`Stalled.WaitingStalls`);
  `Stalled.PendingUntilHave` and `Stalled.PendingDespiteHaves` say exactly when.
- `Save` reads the identifier after the snapshot, so a regeneration in between has the old contacts saved under the new
  identifier (`Dht.DHT.Save`). Such a file still loads into a table in order (`Persistence.OvertakenSaveThenLoad`).

The parts meet in their contracts. The steps of `Swarm` and the methods of `PieceManager` share the functions of `Pieces`; the
methods of the peer-exchange manager, the seeder and the choker are stated as steps of the machines their theorems are about.
A piece manager that resumes reports as damaged exactly the marked pieces that are not complete, and there are none under
the condition of `DiskMachine.CrashConsistentIff`; whatever it is given, it keeps, for the store it writes to, that no piece
is written whose bit is set in memory, which is the hypothesis of that theorem. The store logs its system calls as steps of
`DiskMachine`. `Dht`, `Lookup` and `Persistence` use the routing table and the codec through their own contracts.

The functions that methods are tied to are stated a second time without reference to their definitions: `Grammar`, `Utf8` and
`InfoText` give the texts with literal bytes, `TableSteps`, `PieceSteps` and `SwarmSteps` say position by position what one
operation changes and what it leaves, and lemmas whose names end in `Means` or `Exactly` do the same elsewhere.

`dafny verify dfyconfig.toml` verifies the whole project.

## Model

| member | source | states |
|---|---|---|
| KeyOrder.SortKeys | internal/bencode/encode.go:60-66 | sorting the keys of a map gives its one increasing listing, in whatever order the map yields them |
| KeyOrder.ListingUnique | internal/bencode/encode.go:60-66 | two increasing listings of the same keys are equal, so the encoding of a dictionary does not depend on map order |
| Decimal.AtoiItoa | internal/bencode/encode.go:40-42 | parsing the decimal text of any 64-bit integer gives the integer back |
| Decimal.ItoaShortest | internal/bencode/decode.go:131-181 | no other text that parses to the same integer is shorter than the printed one |
| Encoder.Encode | internal/bencode/encode.go:11-28 | returns the encoding of every supported value, and an error exactly if some part is unsupported |
| Encoder.EncodeString | internal/bencode/encode.go:31-37 | the buffer filled by two copies holds length, colon, bytes |
| Encoder.EncodeList | internal/bencode/encode.go:45-56 | the items in order between `l` and `e`, or an error |
| Encoder.EncodeDict | internal/bencode/encode.go:60-78 | the entries in key order between `d` and `e`, or an error |
| Decoder.DecodeAtDepth | internal/bencode/decode.go:28-69 | the loops compute the recursive parser; every returned index, errors included, is in bounds and success moves strictly forward |
| Decoder.DecodeString | internal/bencode/decode.go:73-127 | agrees with the parser function on every input, each error with its reason and position |
| Decoder.DecodeInt | internal/bencode/decode.go:131-181 | agrees with the parser function on every input, each error with its reason and position |
| Decoder.DecodeList | internal/bencode/decode.go:185-218 | the loop with a growing list is the recursive definition |
| Decoder.DecodeDict | internal/bencode/decode.go:223-268 | the loop with a growing map is the recursive definition, including repeated keys and the indices returned with errors |
| Decoder.DecValue | internal/bencode/decode.go:28-69 | the parser as a function: on every input it terminates with an index inside the input that strictly advances on success |
| RoundTrip.RoundTripInContext | internal/bencode/decode.go:28-268 | between any prefix and suffix and from any start depth, decoding an encoding gives the value back (byte strings retyped by UTF-8 validity) and stops at its end, if and only if depth plus height is at most 512; otherwise it is an error |
| RoundTrip.PrefixCode | internal/bencode/encode.go:11-78 | no encoding is a proper prefix of another, and equal encodings come from values equal up to retyping |
| RoundTrip.NormEncodesAlike | internal/bencode/encode.go:15-18 | retyping byte strings changes neither encoding nor height |
| Canonical.DecodeIsLocal | internal/bencode/decode.go:28-268 | a successful decoding depends on nothing but the bytes it consumed |
| Canonical.Canonicalisation | internal/bencode/decode.go:28-268 | for whatever the decoder accepts, re-encoding is never longer than what was consumed and decodes to the same value |
| CanonicalText.SurvivesExactly | internal/bencode/decode.go:28-268 | for whatever the decoder accepts, at any position and depth: re-encoding gives back the very bytes that were read if and only if they are a plain text, with every number written as it is printed and the keys of every dictionary strictly increasing |
| CanonicalText.PaddedLengthAccepted | internal/bencode/decode.go:73-127 | `05:abcde` is accepted, and is not plain |
| CanonicalText.SignedIntAccepted | internal/bencode/decode.go:131-181 | `i+5e` is accepted, and is not plain |
| CanonicalText.PaddedIntAccepted | internal/bencode/decode.go:131-181 | `i-05e` is accepted, and is not plain |
| CanonicalText.UnsortedKeysAccepted | internal/bencode/decode.go:223-268 | `d1:bi1e1:ai2ee` is accepted, and is not plain |
| CanonicalText.RepeatedKeyAccepted | internal/bencode/decode.go:223-268 | `d1:ai1e1:ai2ee` is accepted with the second value, and is not plain |
| Grammar.PrintedScalar | internal/bencode/encode.go:11-42 | with literal bytes: a string is its length, 58 and its bytes, a number is 105, its digits and 101 |
| Grammar.PrintedList | internal/bencode/encode.go:45-56 | the empty list is 108 and 101, and one more item goes before the closing byte |
| Grammar.PrintedDict | internal/bencode/encode.go:60-78 | the empty dictionary is 100 and 101, and an entry with a greater key goes before the closing byte |
| Grammar.ReadAs | internal/bencode/decode.go:28-69 | for whatever is read, the first byte tells the kind (a digit, 105, 108 or 100), all but strings end in 101, and the depth is at most 512 |
| Grammar.StringRead | internal/bencode/decode.go:73-127 | exactly when a string is read, which, and where it ends; otherwise which error, where, with which context |
| Grammar.IntRead | internal/bencode/decode.go:131-181 | exactly when a number is read, which, and where it ends; otherwise which error, where, with which context |
| Grammar.ErrorsMean | internal/bencode/decode.go:28-268 | every error of a list, a dictionary or an unknown byte: its reason, its position and up to 20 bytes of context |
| Grammar.DepthLimit | internal/bencode/decode.go:28-33 | nothing is read deeper than 512 levels, and something is at 512 |
| Grammar.NestedPrinted | internal/bencode/encode.go:11-78 | a nested value is printed as `lli-5ee2:abdee` |
| Grammar.NestedRead | internal/bencode/decode.go:28-268 | and read back from it |
| Grammar.KeyLessMeans | internal/bencode/encode.go:60-66 | a key comes before another if it is a proper prefix of it, or smaller at the first byte that differs |
| Grammar.DigitsMean | internal/bencode/encode.go:40-42 | the digit at each position of a printed number is that of its decimal expansion |
| Grammar.AtoiMeans | internal/bencode/decode.go:131-181 | a number is read from digits alone or after one sign, if it fits 64 bits |
| Utf8.ValidExactly | internal/bencode/decode.go:28-69 | the validity that decides between string and bytes is that of RFC 3629: being the encoding of some sequence of characters |
| Metainfo.ParseFiles | internal/metainfo/info.go:68-104 | all files with length and path, or the first defect with its position |
| Metainfo.NewInfo | internal/metainfo/info.go:26-66 | the fields of the dictionary with the (wrapping) sum of file lengths, or the first defect in the order of the checks |
| Metainfo.SerializeInfo | internal/metainfo/info.go:142-183 | the hand-written buffer equals the text described independently of the loops |
| InfoAgreement.SerializesEntries | internal/metainfo/info.go:142-183 | the hand-written text is the encoding of a dictionary built from the parsed fields alone |
| InfoAgreement.InfoHashInput | internal/metainfo/info.go:125-183 | for every dictionary that NewInfo accepts, the hashed text equals its encoding if and only if it has exactly the known keys, and so has every file entry |
| InfoDecoded.NewInfoAfterDecode | internal/metainfo/info.go:26-104 | for every supported dictionary: its encoding is decoded exactly up to the depth limit, and NewInfo accepts the result if and only if the name is UTF-8, the piece hashes are not, the piece length is an integer, and there is an integer length or a list of files with integer lengths and UTF-8 path components |
| InfoDecoded.AsciiHashRefused | internal/metainfo/info.go:35-38 | a concrete single-file dictionary whose only piece hash is valid UTF-8, and which NewInfo refuses after decoding |
| InfoText.FieldsMean | internal/metainfo/info.go:26-104 | which entry each field comes from; the length of several files is the sum of theirs, up to overflow of 64 bits, and exactly the sum if it fits |
| InfoText.DefectsMean | internal/metainfo/info.go:26-104 | every error names the first check that fails, with file and component |
| InfoText.SerializedMeans | internal/metainfo/info.go:142-183 | the hashed text with its literal bytes, for one file and for several |
| InfoText.TwoFilesText | internal/metainfo/info.go:142-183 | the text of a concrete torrent with two files, byte by byte |
| RateLimiter.Limiter.constructor | internal/dht/hardening/ratelimit.go:35-51 | arguments that are not positive are replaced by defaults |
| RateLimiter.Limiter.Allow | internal/dht/hardening/ratelimit.go:55-92 | new table and answer of one query: reset after two windows, rotation after one, weighted estimate against the limit; the other addresses keep their windows, except that one address too many has the expired ones deleted |
| RateLimiter.AllowMeans | internal/dht/hardening/ratelimit.go:55-92 | the same in plain arithmetic: the new window, the answer, and which other entries go |
| RateLimiter.Limiter.Cleanup | internal/dht/hardening/ratelimit.go:97-101 | exactly the entries silent for two windows are deleted and counted |
| RateLimiter.Limiter.CleanupLocked | internal/dht/hardening/ratelimit.go:105-115 | the sweep loop, in whatever order the map yields its keys |
| RateLimiter.CleanupInvisible | internal/dht/hardening/ratelimit.go:55-115 | on every time-ordered run, cleanups at any moment and cap-triggered sweeps never change an answer, compared with a limiter that forgets nothing |
| RateLimiter.HistoryBound | internal/dht/hardening/ratelimit.go:69-91 | on every such run and for every address: windows do not overlap, each admits at most `limit`, and every half-open interval of window length admits at most twice that |
| RateLimiter.BoundIsTight | internal/dht/hardening/ratelimit.go:69-91 | for every configuration with 2*limit below the window, a run on which an interval of window length admits exactly twice the limit |
| RateLimiter.KeepsLimitIff | internal/dht/hardening/ratelimit.go:69-91 | every run keeps every interval of window length within the limit if and only if the window is at most two ticks long |
| RateLimiter.BurstAndOneAdmitted | internal/dht/hardening/ratelimit.go:69-91 | for every longer window, a run that admits one more than the limit in such an interval |
| RateLimiter.ReachesTwiceIff | internal/dht/hardening/ratelimit.go:69-91 | some run admits exactly twice the limit in such an interval if and only if twice the limit is below the number of ticks in the window |
| NodeIDs.Distance | internal/dht/nodeid/nodeid.go:26-32 | the byte loop computes the bytewise XOR |
| NodeIDs.PrefixLen | internal/dht/nodeid/nodeid.go:34-46 | the byte loop counts exactly the leading bits that two identifiers share, bit k being bit 7 - k % 8 of byte k / 8 |
| NodeIDs.Less | internal/dht/nodeid/nodeid.go:49-56 | the byte loop is the big-endian comparison |
| NodeIDs.CloserByBit | internal/dht/nodeid/nodeid.go:26-56 | which of two identifiers is nearer to a target is decided by the first bit in which they differ |
| NodeIDs.CloserMeans | internal/dht/nodeid/nodeid.go:26-56 | nearer is: smaller in the exclusive or with the target, read as a big-endian number |
| NodeIDs.CloserTotalOrder | internal/dht/nodeid/nodeid.go:26-56 | nearness to a fixed target is a strict total order |
| NodeIDs.OrderAcrossBuckets | internal/dht/nodeid/nodeid.go:34-56 | nodes from different buckets are ordered by whether the target leaves the own identifier at the shallower bucket's bit |
| Buckets.Bucket.Insert | internal/dht/routing/bucket.go:19-56 | the in-place splices compute the new list and the outcome |
| Buckets.Bucket.Remove | internal/dht/routing/bucket.go:58-66 | the node is spliced out, and reported, exactly if it was there |
| Buckets.RefusedExactly | internal/dht/routing/bucket.go:19-56 | an insertion is refused exactly if the bucket is full of others, all compliant if the newcomer is; then nothing changes and the oldest is returned |
| Buckets.AcceptedExactly | internal/dht/routing/bucket.go:19-56 | otherwise the newcomer is last and exactly its old entry, or the longest unrefreshed non-compliant node, is gone |
| Buckets.RemoveMeaning | internal/dht/routing/bucket.go:58-66 | exactly the nodes with another identifier stay |
| RoutingTables.RoutingTable.constructor | internal/dht/routing/table.go:26-47 | 160 different empty buckets |
| RoutingTables.RoutingTable.Insert | internal/dht/routing/table.go:49-93 | one bucket changes: a known node moves to its end, a new one is put there while it has fewer than eight or in the place of the first non-compliant one; the own identifier is never stored; the oldest is returned exactly on refusal by a full bucket |
| RoutingTables.RoutingTable.Remove | internal/dht/routing/table.go:95-111 | exactly the node with the identifier is cut out of its bucket; true exactly if it was stored |
| RoutingTables.RoutingTable.RecordFailure | internal/dht/routing/table.go:180-206 | the node stays in its place with a counter one higher, and at five it is cut out, and nobody else; true exactly if it went |
| RoutingTables.RoutingTable.RecordSuccess | internal/dht/routing/table.go:210-224 | every node stays in its place, the one that answered with a zero counter and the new time, all others unchanged |
| RoutingTables.RoutingTable.Snapshot | internal/dht/routing/table.go:153-161 | all nodes, bucket by bucket |
| RoutingTables.RoutingTable.NumNodes | internal/dht/routing/table.go:289-298 | the number of stored nodes, never above 1263 |
| RoutingTables.RoutingTable.FindClosest | internal/dht/routing/table.go:113-150 | the loop with two indices returns the `count` nearest nodes of the buckets it visits, nearest first |
| RoutingTables.RoutingTable.TargetForBucket | internal/dht/routing/table.go:270-287 | the generated identifier falls into the bucket asked for, whatever the random bytes |
| TableSteps.ApplyMeans | internal/dht/routing/table.go:49-224 | the steps of the runs below do the same, bucket by bucket and position by position |
| Tables.EveryRun | internal/dht/routing/table.go:49-224 | after any sequence of insertions, removals, failures and successes: every node is in the bucket of its prefix length, identifiers are unique per bucket, buckets hold at most 8 in the order of last accepted insertion, and there are at most 1263 nodes |
| Tables.StoredNodes | internal/dht/routing/table.go:49-58 | an identifier occurs at most once in the whole table, and the own one never |
| Tables.CountBound | internal/dht/routing/table.go:26-58 | the bound 1263, by counting how many identifiers fit the three deepest buckets |
| Bookkeeping.CountersMean | internal/dht/routing/table.go:180-224 | after any such sequence, with inserted nodes whose own counter is below five, a stored node's counter is the one it was last inserted with, or zero since a success, plus the failures since; it is below five; and its time is that of the last insertion or success |
| Nearest.SortByDistance | internal/dht/routing/table.go:138-142 | the result is sorted by distance and is a rearrangement |
| Nearest.ResultSize | internal/dht/routing/table.go:113-150 | the search returns min(count, table size) nodes |
| Nearest.VisitedExactly | internal/dht/routing/table.go:113-136 | the search looks at the buckets at most m away from the target's own, for the least m for which they hold `count` nodes or are all there are |
| Nearest.OnlyDeeperMissed | internal/dht/routing/table.go:124-150 | a node left out although it is nearer than a returned one is in a bucket deeper than all visited ones |
| Nearest.ExactIff | internal/dht/routing/table.go:113-150 | the answer is the true set of nearest nodes if and only if no node is deeper than the visited buckets, or the start bucket and the visited deeper ones whose bit the target flips hold `count` nodes |
| Nearest.ExactCases | internal/dht/routing/table.go:113-150 | in particular when the start bucket holds `count` nodes, or the target is the own identifier |
| Nearest.NotAlwaysExact | internal/dht/routing/table.go:124-136 | a concrete table with nine nodes on which the search misses the nearest one |
| CompactNodes.EncodeNodes | internal/dht/dht.go:1311-1321 | the buffer filled by offsets is the concatenation of the records |
| CompactNodes.Layout | internal/dht/dht.go:1311-1321 | 20 identifier bytes, 4 address bytes and the port in network order at offset 26*i, for every node |
| CompactNodes.ParseCompactNodes | internal/dht/dht.go:1335-1364 | the offset loop parses every record of a string or byte slice of whole records, and nothing from anything else |
| CompactNodes.ParseMeans | internal/dht/dht.go:1335-1364 | only strings and byte slices of whole 26-byte records are read, and then every record, field by field at its offset, with fresh bookkeeping |
| CompactNodes.ParseOfCompact | internal/dht/dht.go:1311-1364 | every list of contacts comes back in the same order |
| Persistence.LoadRoutingTable | internal/dht/dht.go:688-729 | the loaded state, or none, for every file content |
| Persistence.SaveThenLoad | internal/dht/dht.go:652-729 | for every table in order: the saved file decodes, gives identifier and external address back, and inserting the loaded nodes one by one into a fresh table refuses none and rebuilds every bucket with the same contacts in the same order |
| Persistence.SavedText | internal/dht/dht.go:652-675 | the saved file byte by byte: the external address only if there is one, then identifier and nodes |
| Persistence.LoadedMeans | internal/dht/dht.go:688-729 | what is read from any decoded file: a 20-byte identifier is required, a 4-byte address optional |
| Persistence.OvertakenSaveThenLoad | internal/dht/dht.go:652-729 | for every table in order, and whatever identifier and address are read after the snapshot: the file loads with them and with every contact, and the table refilled from it is in order for that identifier and keeps the best of the contacts |
| Rebuild.SnapshotRebuilds | internal/dht/dht.go:79-82 | the insertion part of that, for any list of the same contacts |
| Rebuild.FreshTableKeepsBest | internal/dht/dht.go:1273-1279 | filling a fresh table for any identifier drops a node only where its bucket is full, a compliant one only where it is full of compliant ones |
| Dht.DHT.Restore | internal/dht/dht.go:52-105 | identifier, external address and refilled table, for saved, missing and BEP 42 regenerated state |
| Dht.DHT.Save | internal/dht/dht.go:652-664 | the bytes written are the encoding of the state dictionary, of the snapshot and of the identifier and address read after it, which a regeneration in between may have replaced |
| Dht.DHT.RegenerateCompliantID | internal/dht/dht.go:1259-1287 | identifier, address and table are replaced together, or nothing is; the new table is installed empty and refilled while other goroutines may change it before every insertion |
| Dht.RegenerationKeepsBest | internal/dht/dht.go:1266-1279 | whatever comes in between, the new table is in order for the new identifier; if nothing does, it keeps the best of the old contacts |
| Dht.DHT.ReplaceIfDead | internal/dht/dht.go:308-338 | removal and insertion exactly when the incumbent is stale and silent, with anything other goroutines do to the table in between |
| Dht.DeadIsReplaced | internal/dht/dht.go:320-322 | without an interleaved change the dead node is gone and the replacement is never refused |
| Lookup.Choose | internal/dht/dht.go:759-768 | the nearest candidates not asked before, at most alpha, no identifier twice |
| Lookup.Ask | internal/dht/dht.go:774-795 | replies in any order, with anything other goroutines do to the table before each: exactly the contacts in the replies are added to the candidates, and the table records every success and failure |
| Lookup.IterativeFindNode | internal/dht/dht.go:733-820 | against an arbitrary network and other users of the table: at most ten rounds, each of the right nodes, an exact reason for stopping, the eight nearest of all seeds and contacts in replies as a multiset, sorted, and the table as the replies, and what came between them, left it |
| Lookup.NoneAskedTwice | internal/dht/dht.go:743-768 | no identifier is asked twice in a whole lookup, and at most alpha per round |
| Lookup.NearestImproves | internal/dht/dht.go:753-757 | every further round follows a strict improvement of the nearest known contact, which never gets farther |
| Lookup.AnswerHead | internal/dht/dht.go:798-806 | nothing seen, seeds included, is nearer than the first node of the answer |
| Lookup.KnownExactly | internal/dht/dht.go:774-795 | what is known are the seeds and the contacts in the replies, each as often as they hold it together |
| Lookup.RoundMeans | internal/dht/dht.go:759-768 | each round asks at most alpha nodes, all of them seeds or heard of before and not asked before, and nobody else who could be asked is nearer |
| Lookup.FinishedMeans | internal/dht/dht.go:743-757 | with fewer than ten rounds, everybody heard of was asked, or nobody in the last replies is nearer than all before |
| Lookup.RecordedMeans | internal/dht/dht.go:782-787 | a reply is recorded as a success, a missing one as a failure, for that node and with its effect position by position |
| BitFields.NewBitField | internal/peer/bitfield.go:7-9 | a field of the right size without pieces |
| BitFields.SetPiece | internal/peer/bitfield.go:22-28 | exactly the bit asked for is set, if the field has it; out-of-range and negative indices change nothing |
| BitFields.HasPieceMeans | internal/peer/bitfield.go:12-20 | piece i is bit 7 - i % 8 of byte i / 8, and negative numbers are no pieces |
| Selectors.SelectRarest | internal/downloader/selector.go:16-37 | some candidate of least availability, none exactly without candidates |
| Selectors.SelectFirst | internal/downloader/selector.go:42-53 | the least candidate, none exactly without candidates |
| PieceManagers.PieceManager.constructor | internal/downloader/piece_manager.go:51-85 | a new manager, or one that resumes exactly the pieces the store marks, whatever happened to the store; damaged are those that are not a complete file of bytes once given to the store, and there are none if no write was ever begun to a marked piece |
| PieceManagers.PieceManager.Assign | internal/downloader/piece_manager.go:90-132 | endgame is on from when no more pieces than the threshold are incomplete; a pending piece of the peer is handed out if there is one, else in endgame one in progress under another address, the best by the selector; nothing only if there is nothing of either kind |
| PieceManagers.PieceManager.CancelCh | internal/downloader/piece_manager.go:137-147 | the channel of the piece; closed only if the piece is complete |
| PieceManagers.PieceManager.Complete | internal/downloader/piece_manager.go:150-195 | the first completion counts, keeps its bytes in memory or on disk whatever fails, closes the cancel channel and, at the last piece, `done`; later ones change nothing; nothing becomes damaged |
| PieceManagers.PieceManager.Release | internal/downloader/piece_manager.go:198-207 | a piece in progress becomes pending, others are left alone |
| PieceManagers.PieceManager.ReleaseAll | internal/downloader/piece_manager.go:210-225 | exactly the pieces in progress of the peer become pending |
| PieceManagers.PieceManager.GetPieceData | internal/downloader/piece_manager.go:326-346 | the bytes of the first completion, unless the piece is not complete, its file cannot be read, or it was damaged at the start |
| PieceManagers.PieceManager.Results | internal/downloader/piece_manager.go:247-269 | the same for all pieces in order |
| PieceManagers.PieceManager.CompletedBitfield | internal/downloader/piece_manager.go:349-360 | a bit is set exactly for the completed pieces |
| PieceManagers.PieceManager.HasPendingFor | internal/downloader/piece_manager.go:272-282 | true exactly if some pending piece is one the peer has, which is what wakes a waiting worker |
| PieceManagers.PieceManager.IsFinished | internal/downloader/piece_manager.go:235-239 | true exactly if all pieces are complete |
| PieceSteps.HandedOut | internal/downloader/piece_manager.go:90-132 | what Assign does, stated on states, owners and threshold alone |
| PieceSteps.CompletionMeans | internal/downloader/piece_manager.go:150-178 | what Complete does to states, owners, counter, channels and `done`, stated likewise |
| PieceSteps.FreshMeans | internal/downloader/piece_manager.go:51-85 | what a new manager holds, stated likewise |
| Pieces.CountFull | internal/downloader/piece_manager.go:174-177 | the counter equals the number of pieces exactly if all are complete |
| Pieces.FinishedInv | internal/downloader/piece_manager.go:150-178 | completing keeps the invariant: counter, owners, `done` closed once, cancel channels |
| Swarm.StepKeepsInv | internal/downloader/worker.go:155-300 | every step of any worker keeps the whole invariant, waiting and waking included, also with workers that share an address |
| SwarmSteps.ManagerSteps | internal/downloader/worker.go:155-224 | the steps that call the piece manager do what the call does, and move their own worker only |
| SwarmSteps.HaveMeans | internal/downloader/worker.go:255-285 | a Have message adds one piece to the field, and wakes a waiting worker exactly if its peer then has a pending one |
| SwarmSteps.LookMeans | internal/downloader/worker.go:168-176 | a worker without a piece leaves if all are complete, and waits otherwise |
| Swarm.EveryRun | internal/downloader/worker.go:155-300 | in every interleaving, endgame and shared addresses included: a piece in progress is in the hand of a live worker at the address that owns it, a cancel channel seen closed belongs to a completed piece, and with all workers gone nothing is in progress |
| Swarm.CancelledIsComplete | internal/downloader/worker.go:186-189 | skipping the release after a cancellation is safe |
| Swarm.OnlyForward | internal/downloader/piece_manager.go:90-178 | completed pieces stay completed, endgame stays on, closed channels stay closed, over any run |
| Swarm.DoneExactlyOnce | internal/downloader/piece_manager.go:150-177 | over any run of a non-empty torrent the counter is the number of completed pieces, and `done` is closed exactly once if all are complete and not at all before |
| Stalled.PendingUntilHave | internal/downloader/worker.go:226-300 | with no announcement from any peer and nobody joining, a pending piece stays pending whatever the workers do, if and only if no worker that will ask again has a peer with the piece: those that have one wait, are about to, or leave |
| Stalled.PendingDespiteHaves | internal/downloader/worker.go:226-300 | with Have messages it stays pending if and only if every worker is leaving or has a peer whose field has no room for it |
| Stalled.WaitingStalls | internal/downloader/worker.go:226-300 | a concrete run with one piece and two peers that have it: one worker waits, the other gives the piece back and leaves, and the piece stays pending until a message comes |
| Exclusivity.ExclusiveIff | internal/downloader/piece_manager.go:94-128 | over any run that has not reached endgame: at every point each worker owns what it has in hand and is alone with it, if and only if no leaving worker takes the branch of its release that gives a piece back |
| Exclusivity.CleanupIff | internal/downloader/piece_manager.go:210-225 | the release of a leaving worker changes nothing if and only if no other worker at its address has in hand a piece owned by that address |
| Exclusivity.CleanupFindsNothing | internal/downloader/worker.go:342-360 | so it changes nothing if all workers have different addresses |
| Exclusivity.DistinctExclusive | internal/downloader/piece_manager.go:94-128 | if nobody joins with an address in use, then over any run from the start, until endgame, no two workers ever have the same piece |
| Exclusivity.ExclusiveMeans | internal/downloader/piece_manager.go:94-128 | then a worker has a piece in hand exactly if the piece is in progress and its own |
| Exclusivity.BeforeEndgame | internal/downloader/piece_manager.go:94-98 | endgame is not reached while more pieces remain than the threshold, nor ever with a threshold of zero |
| Exclusivity.SharedAddressBreaks | cmd/bittorrent/command.go:170-174 | a concrete run with peers X, X and Y and one piece, after which two workers have the piece before endgame |
| DiskStores.DiskStore.constructor | internal/storage/disk_store.go:24-42 | starts with the bits of the bitfield file, or none if it is missing or unreadable |
| DiskStores.DiskStore.LoadBitfield | internal/storage/disk_store.go:140-153 | bit i is set exactly for byte 1 at i, whatever the length of the file |
| DiskStores.DiskStore.WritePiece | internal/storage/disk_store.go:45-60 | the system calls made, the files and bits afterwards, and the error, for a failure at any of them |
| DiskStores.DiskStore.SaveBitfield | internal/storage/disk_store.go:118-137 | temporary file, then rename; one byte per piece |
| DiskStores.DiskStore.ReadPiece | internal/storage/disk_store.go:63-81 | the bytes of a marked piece, unless the read fails |
| DiskMachine.CrashConsistentIff | internal/storage/disk_store.go:45-60 | for every run of system calls with crashes and restarts anywhere: each marked piece is a complete file of given bytes at every point, if and only if no write was begun to a piece that the bitfield file marked |
| DiskMachine.CrashConsistent | internal/storage/disk_store.go:118-153 | so it is whenever every start manages to read the bitfield file it finds |
| DiskMachine.CrashAnywhere | internal/storage/disk_store.go:45-60 | every prefix of a run may be cut by a crash, between any two system calls, and what was intact throughout still is |
| DiskMachine.ResumeSound | internal/downloader/piece_manager.go:67-82 | what a start loads from an intact disk is exactly what the file marks, and all of it is complete |
| DiskMachine.UnreadableBitfieldBreaks | internal/storage/disk_store.go:140-145 | a concrete run, with one start that cannot read the bitfield file, after which a torn piece is marked as present |
| Pipeline.BlockRequests | internal/peer/peer.go:425-447 | the requests tile the piece in ceil(length/16384) blocks |
| Pipeline.EveryByteOnce | internal/peer/peer.go:425-447 | every byte of the piece is in exactly one request, and no other byte is |
| Pipeline.Peer.GetBlocks | internal/peer/peer.go:332-404 | the download succeeds if and only if all requests can be sent and enough blocks come before the channel closes, the peer chokes or a piece message is too short; the reason of every failure; of the conversation, whose reads are the events used and whose sends are the messages sent: at no point are more than five requests unanswered, the requests are the given ones in order, a cancellation is answered for exactly the outstanding ones; the field gains exactly the pieces of the Have messages |
| Pipeline.Peer.CancelInFlight | internal/peer/peer.go:408-419 | exactly the requests sent and not answered are cancelled, in order, up to the first failing send |
| Pipeline.WindowedMeans | internal/peer/peer.go:345-360 | the window in plain counts: on every first part of the conversation the requests sent exceed the blocks read by at most five, and never fall behind |
| Pipeline.BlocksExactly | internal/peer/peer.go:375-395 | the blocks are what follows the first eight bytes of the piece messages, and shorter ones hold none |
| Pipeline.GetPiece | internal/peer/peer.go:425-467 | no piece is fetched if and only if the download cannot succeed, by the same condition; otherwise the concatenated blocks, verified by the hash |
| Pipeline.GetBlockMeaning | internal/downloader/block_server.go:18-28 | when a block is served and which, with the 32-bit sum; and exactly when the bounds come out of order |
| Pipeline.AnswerMeans | internal/peer/peer.go:204-216 | requests for more than 131072 bytes are not answered, others exactly as the block is there |
| Pipeline.AnswerFaultsIff | internal/peer/peer.go:204-216 | some request within the length limit makes them come out of order if and only if the piece is longer than 4 GiB less 128 KiB |
| Pipeline.InOrderReassembly | internal/downloader/block_server.go:18-28 | every tile of a piece is served, and the answers in request order concatenate to the piece |
| Pex.PEXManager.PeerConnected | internal/downloader/pex_manager.go:38-42 | one step of the runs that the theorems below are about |
| Pex.PEXManager.PeerDisconnected | internal/downloader/pex_manager.go:45-51 | likewise; by `Pex.ViewExactly` a reconnecting peer is then announced everyone anew |
| Pex.PEXManager.ComputeDelta | internal/downloader/pex_manager.go:76-127 | likewise, a possible step: at most 50 of the connected peers that are not on record, all of them if fewer; exactly the gone ones are dropped; the record becomes who is connected besides the receiver, and no other record changes |
| Pex.ConnectedExactly | internal/downloader/pex_manager.go:38-51 | over any run, connected is exactly who has a Connect that no Disconnect came after |
| Pex.ViewExactly | internal/downloader/pex_manager.go:38-127 | over any run: what a receiver believes is on record as sent to it, and what is on record without being believed is exactly what was new in some delta that did not fit, did not arrive or was followed by a reconnect, and has stayed connected since |
| Pex.OnRecord | internal/downloader/pex_manager.go:112-113 | what is on record is who was connected, the receiver excepted, at the last delta |
| Pex.ViewComplete | internal/downloader/pex_manager.go:76-127 | if no delta for the receiver had more than 50 new peers and each arrived, the receiver knows exactly the record |
| Chokers.Choker.Tick | internal/seeder/choker.go:45-87 | with n > 0 interested peers exactly min(slots, n) of the given peers end up unchoked, all interested; with none nothing changes; and the seeder goes through possible steps of the choke machine, one per peer |
| Chokers.Shuffle | internal/seeder/choker.go:57-59 | some rearrangement, repetitions included |
| Chokers.Seeder.AddPeer | internal/seeder/seeder.go:209-213 | a possible step of the choke machine |
| Chokers.Seeder.RemovePeer | internal/seeder/seeder.go:215-219 | a step of the choke machine |
| Chokers.Seeder.GetPeers | internal/seeder/seeder.go:221-230 | the start of a tick, a possible step of the choke machine: exactly the connected peers, each once |
| ChokeMachine.PeersExactly | internal/seeder/seeder.go:209-219 | over any run, a connection is stored under an address exactly if nothing came after it there |
| ChokeMachine.SlotBound | internal/seeder/choker.go:45-87 | over any run of connects, disconnects and ticks that overlap them, peer by peer: at most `slots` connected peers are unchoked whenever no tick is being applied, and at most twice as many while one is |
| ChokeMachine.TwiceReached | internal/seeder/choker.go:71-84 | for every number of slots, a run that reaches twice as many |
| ChokeMachine.AlwaysWithinIff | internal/seeder/choker.go:71-84 | every run keeps at most `slots` unchoked at every point if and only if there are no slots |
| FlipOrder.FlipOrderIff | internal/seeder/choker.go:71-84 | from any point of a tick being applied, every continuation, connections coming and going, keeps at most `slots` unchoked to its end if and only if in the order of the remaining peers no first part adds more new peers than there are free slots and old peers dropped |

## Left out

- Sockets, UDP and HTTP, handshakes, timers, logging, metrics, signals and the command line: they are parameters or arbitrary choices here.
- SHA-1 and the BEP 42 identifier check: an arbitrary predicate. Identifier generation, tokens, transactions, the peer store, KRPC messages and trackers are not part of this model: each is a lookup table with an expiry time, or builds and takes apart one message.
- Integers: rate-limiter counters are unbounded; its times and its window are whole ticks of one clock, nanoseconds in the code. 64-bit wrap-around is modelled where lengths are summed, the decoder's 64-bit range in `Decimal.Atoi`, 32-bit wrap-around in `Pipeline.GetBlock`.
- Node pointers: nodes are values in the buckets, so a node shared between a table and a caller's slice is a copy here; buckets and tables are objects updated in place.
- The Go memory model: every method that holds a lock is one atomic step. `Save` could also read its identifier before and its external address after a regeneration has replaced them, which `Persistence.OvertakenSaveThenLoad` allows for.
- IPv6: addresses are four bytes, as in the compact formats.
- Dht.DHT.Restore: ends where the network starts; a saved table without nodes is replaced by a regenerated identifier when BEP 42 is on, as in the code.
- Swarm.EveryRun: models the piece loop of a worker as the steps of a state machine that share their functions with `PieceManagers.PieceManager`, not as one method, because other workers act between any two of them. Setting up a connection changes nothing there, and waiting for an unchoke is part of the top of the loop.
- DiskMachine.CrashConsistent: crashes keep the order of system calls and renaming is atomic; losing buffered writes at a power failure is not modelled.
- Availability counts are arbitrary inputs of the selector, as the code does not keep them exact; have-subscriptions only pass on the index of a completed piece, and `Progress` reports two fields.
- Pipeline.Peer.GetBlocks: blocks are placed by order of arrival, as in the code, so only in-order answers reassemble; requests and extension messages read meanwhile change nothing here.
- Pipeline.AnswerFaultsIff: is about a connection that is not choked, with a payload long enough to hold the three numbers; otherwise the code sends nothing.
- Incoming peer-exchange messages (`HandlePEX`) are not part of this model: addresses not seen before are passed on for new workers. Neither are the flags bytes of outgoing ones, which are constant.
- Chokers.Choker.Tick: messages to peers whose state flips are not modelled; the state is set before they are sent and their failure is ignored. What comes and goes while they are sent are the other steps of `ChokeMachine`.
- Chokers.Seeder.AddPeer: a connection is a new object that starts choked; the handshake before it is not modelled.
- Dht.DHT.RegenerateCompliantID: what other goroutines do is a parameter, any list of table operations before every insertion; the ones that still hold the old table change an object that nothing refers to afterwards.
- PieceManagers.PieceManager.GetPieceData: promises nothing about the bytes of a damaged piece.
- PieceManagers.PieceManager.Results: likewise.
