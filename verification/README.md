# Verified models of the data structures and wire formats

This project models the algorithmic core of the server: the cuckoo filter, the sorted-set skip list,
HyperLogLog sketches, LZF compression, the RDB string encoding, listpacks, the dump and restore of
streams, the JSONPath engine, the scalable Bloom filter, stream and consumer-group accounting, the
replication journal, the CRC-64 checksum and the RESP request parser.

Each component has two layers. A specification (the modules named `…Spec`, `…Proof`, `HllMerge`,
`CuckooRollback`, `CuckooRuns`, `CuckooLoss`, `LzfRuns`, `JsonDelete`, `BloomDump`, `StreamState`, `StreamTrim`) gives the operations as
functions on values and proves what they promise, for all inputs and all runs. Some modules state these promises in plain arithmetic, on integers,
bytes and positions, without the functions of the specification: `CuckooCompact`, `ZSetOrder`, `HllPattern`, `JsonSelect`, `StreamGroups`,
`Canonical` and `Crc64Check`. The imperative modules (`CuckooFilterModel`, `Lzf`, `Hll`,
`ZSetModel`, `RdbString`, `Listpack`, `StreamRdb`, `StreamLoad`, `JsonWalk`, `JsonDeleteWalk`, `Bloom`,
`StreamModel`, `Crc64`, `JournalCodec`, `JournalRing`, `Resp`) follow the code: classes with mutable
fields, loops, explicit stacks, buffers written in place. Each of their methods is proved equal to a
specification function, or to keep the invariant under which the promised property is stated.

Conventions: bytes are integers below 256; machine words are unbounded integers with wrap-around,
truncation and saturation written out where the code has them; `TWO64` is 2^64. Hashes, random tower
heights, clocks and floating-point decisions are parameters, so every theorem holds for all of them.
A double in a sorted set is its rank in the order of `f64::total_cmp`, and `==` on doubles is defined
on those ranks (the two zeros are equal, a NaN equals nothing).

## Main results

- **Cuckoo filter**: a failed displacement gives every table back byte for byte if and only if the 8-bit slot sum of
  the rollback cannot wrap (`RollbackExact`, for all bucket sizes and iteration limits). For these parameters no
  run of insertions, compactions and deletions of live items loses an item, and the item counter is the number of
  occupied slots. For all others a run loses at most one live item for each failed displacement
  (`NoFalseNegatives`), and it can lose one (`FailedInsertLosesItem`, for every bucket size and every smaller number
  of displacements with such a sum). Deleting an item that was never inserted can lose one too (`UnmatchedDeleteLosesItem`);
  `DeleteTracksIff` and `DeleteForgets` say exactly when, and which. Compaction frees every newest sub-filter it empties, and
  what it leaves behind has no free slot in the earlier sub-filters it was offered to (`CompactSettles`).
- **Skip list**: every operation keeps one sorted chain per level, the backward links and the member
  index; the entries are a function of the index alone (`IndexDetermines`), so what an operation does
  to the index fixes every listing. Listings ascend by score and then by bytes, and a rank is the number of members
  that come before (`Iterate`, `RankCounts`).
- **HyperLogLog**: the sparse form simulates the dense one, reply for reply, over every run
  (`SparseSimulatesDense`); a register is the largest pattern length among the 64-bit hashes whose low 14 bits chose it
  (`RegisterMeans`); the registers depend only on the set of hashes (`RegistersOrderFree`), and
  merging computes the union (`MergeAllMeans`).
- **LZF** decompresses what it compressed (`RoundTrip`), within its buffer (`CompressedSize`); the hash
  table only steers the search.
- **Dump and restore**: numbers, strings, listpacks and whole streams read back as written. The string
  reader refuses exactly the strings that were compressed from more than 2^29 bytes, and a stream comes
  back unchanged if and only if no such string occurs in it and every consumer group is consistent
  (`StreamRoundTrip`); the invariant of the live stream implies the consistency (`DumpRestores`). Refused
  strings do exist, also by the saver's own test (`LongRunRefused`, `ShareTestRefuses`). Lengths and listpack elements are
  written in the only shortest form their readers accept (`LengthShortest`, `IntegerShortest`, `StringShortest`), backward lengths too
  except for three values (`BacklenShortest`).
- **Streams**: a trim removes exactly as many of the oldest entries as `Amount` says: approximately, the longest run of whole nodes of
  100 that is in excess and within the limit (`Trim`). Reading and acknowledging change a group's pending list in exactly the entries
  they name (`DeliverMeans`, `RedeliverMeans`, `AckMeans`).
- **JSONPath**: the explicit-stack walk reports the matches of a short recursive meaning, in order
  (`Traverse`), in which every segment selects the children a plain predicate on positions and names says (`StepReports`, `StepPasses`); deletion conserves nodes (`DeletionConserves`) and leaves nothing that matches a path
  ending in a name (`NothingLeft`).
- **Bloom filter**: whatever was added is still found after any run, also after the filter has been
  moved chunk by chunk into another one (`BloomDump.NoFalseNegatives`).
- **Journal**: a concatenation of written records decodes to those records (`StreamBack`), the ring holds
  the newest records under consecutive numbers, and a consumer sees every record made while it is
  registered, once and in order, so that its bytes decode to those records (`ConsumerReads`).
- **CRC-64**: the table-driven checksum equals the bit-by-bit reference (`Crc64IsReference`) and gives the published check value (`CheckValue`).
- **RESP**: the requests found do not depend on how the bytes were chunked (`ChunkingIndependence`), and neither
  do the replies to any other multibulk bytes, malformed ones included (`ScheduleIndependence`). A request is taken if and only if it is within the two limits (`RequestAnswered`).

## Model

| member | source | states |
|---|---|---|
| `CuckooRuns.NoFalseNegatives` | src/core/cuckoo.rs:91-217 | From a new filter with any parameters, after any sequence of inserts, unique inserts, compactions and deletions of live items: all live items are found except at most one for each displacement that failed while the rollback may go astray. There is none of these for the parameters of `RollbackExact`; without one the item counter equals both the number of live items and the number of occupied slots |
| `CuckooRuns.FailedHolds` | src/core/cuckoo.rs:410-444 | After any failed displacement, rolled back exactly or not, the tables hold all items and the new one, except at most the one left in hand, each where a lookup finds it |
| `CuckooRuns.InsertHolds` | src/core/cuckoo.rs:117-145 | For any parameters, an insertion adds its item if it is accepted and costs at most one other, none if no displacement fails or the rollback fits |
| `CuckooRuns.DeleteHolds` | src/core/cuckoo.rs:200-217 | Deleting a live item never makes more live items missing, even if the item itself was lost before |
| `CuckooProof.InsertTracks` | src/core/cuckoo.rs:117-145 | Inserting keeps a one-to-one matching of live items to occupied slots; it fails if and only if nothing can be placed and the filter may not grow, then changes nothing; it adds at most one sub-filter. For all insertions when the rollback fits, and for all others whose displacement does not fail |
| `CuckooProof.GrownHasRoom` | src/core/cuckoo.rs:384-404 | A sub-filter that was just added always has a free candidate slot for the item that asked for it |
| `CuckooProof.KoChainKeeps` | src/core/cuckoo.rs:410-444 | A successful displacement chain re-homes every displaced fingerprint in one of its owner's candidate buckets and adds the new item |
| `CuckooProof.CandidatePair` | src/core/cuckoo.rs:60-62 | Both candidate buckets are computable from either one: the alternate of the alternate is the bucket itself |
| `CuckooProof.SharedCandidates` | src/core/cuckoo.rs:372-375 | Two items that share a fingerprint and a bucket in a larger sub-filter have the same candidates in every smaller one |
| `CuckooProof.DeleteTracks` | src/core/cuckoo.rs:200-217 | Deleting a live item succeeds and leaves exactly the other items matched, even when it clears another item's slot |
| `CuckooProof.DeleteTracksIff` | src/core/cuckoo.rs:200-217 | A deletion keeps the remaining items tracked if and only if the item is live or is not found |
| `CuckooProof.DeleteForgets` | src/core/cuckoo.rs:200-217 | Deleting an item, live or not, makes exactly those items disappear that match no other slot than the cleared one, and they share its fingerprint |
| `CuckooProof.UnmatchedDeleteLosesItem` | src/core/cuckoo.rs:200-217 | For every 64-bit item and every configuration, a concrete other 64-bit item, never inserted, whose deletion makes it disappear |
| `CuckooProof.RelocateTracks` | src/core/cuckoo.rs:473-500 | Moving a slot into an older sub-filter loses no item |
| `CuckooProof.CompactTracks` | src/core/cuckoo.rs:282-289 | Compaction keeps all items and never drops the last sub-filter |
| `CuckooProof.NewTracks` | src/core/cuckoo.rs:91-112 | A new filter tracks no items |
| `CuckooFilterModel.NextPowerOfTwo` | src/core/cuckoo.rs:43-45 | The least power of two at or above the argument, wrapping to 0 above 2^63 |
| `CuckooFilterModel.ParamsForOk` | src/core/cuckoo.rs:91-112 | Every options record in range gives parameters that satisfy the invariant |
| `CuckooRollback.RollbackExact` | src/core/cuckoo.rs:410-444 | For every bucket size and iteration limit: every failed displacement, in every table and for every item, is rolled back byte for byte, if and only if `min(max_iterations, slots - 1) + slots <= 256` |
| `CuckooRollback.RollbackRestores` | src/core/cuckoo.rs:435-441 | When the sum fits, the rollback gives the table back, whatever it held |
| `CuckooRollback.FewStepsFail` | src/core/cuckoo.rs:410-444 | When it does not fit and there are fewer displacements than slots, one bucket of distinct fingerprints is not restored |
| `CuckooRollback.ManyStepsFail` | src/core/cuckoo.rs:410-444 | When it does not fit and there are at least as many, up to 65535, a table of two buckets is not restored |
| `CuckooLoss.EndsWithOther` | src/core/cuckoo.rs:410-444 | In one bucket, with fewer displacements than slots and a sum that can wrap, the rollback ends with an old fingerprint in hand and the new one in the bucket |
| `CuckooLoss.FailedInsertLosesItem` | src/core/cuckoo.rs:117-145 | For every bucket size and every smaller number of displacements that `RollbackExact` excludes, and every expansion: a run from a new filter of one bucket, all items accepted, after which the next insertion makes a live item disappear |
| `CuckooRollback.KoUndoStep` | src/core/cuckoo.rs:410-444 | One rollback step is the inverse of one displacement step, on the table and on all loop variables, when its slot sum fits |
| `CuckooFilterModel.CuckooFilter.constructor` | src/core/cuckoo.rs:91-112 | Starts in the specified new state |
| `CuckooFilterModel.CuckooFilter.AddNewSubFilter` | src/core/cuckoo.rs:384-404 | Appends one empty sub-filter of the grown size, or nothing when the size overflows |
| `CuckooFilterModel.CuckooFilter.Exists` | src/core/cuckoo.rs:159-173 | True if and only if some sub-filter holds `h % 255 + 1` in bucket `h` or `h xor (h % 255 + 1) * 0x5bd1e995`, modulo its number of buckets |
| `CuckooFilterModel.CuckooFilter.Insert` | src/core/cuckoo.rs:117-145 | The whole new state and the reply equal the specified insertion, over which the run theorems are proved |
| `CuckooFilterModel.CuckooFilter.InsertUnique` | src/core/cuckoo.rs:149-154 | Refuses and changes nothing when the item is found, otherwise inserts |
| `CuckooFilterModel.CuckooFilter.KoInsert` | src/core/cuckoo.rs:410-444 | For any parameters: succeeds exactly when the specified chain does and then only the newest sub-filter changed, by that chain; otherwise it holds what the specified rollback leaves, which `RollbackExact` compares with what it held |
| `CuckooFilterModel.CuckooFilter.RollBack` | src/core/cuckoo.rs:435-441 | For any parameters: the loop performs the specified rollback steps, wrapped slot sums included |
| `CuckooFilterModel.CuckooFilter.Delete` | src/core/cuckoo.rs:200-217 | Equals the specified deletion: newest sub-filter first, counters updated |
| `CuckooFilterModel.CuckooFilter.RelocateSlot` | src/core/cuckoo.rs:473-500 | Equals the specified move of one slot and reports whether the slot ended empty |
| `CuckooFilterModel.CuckooFilter.CompactSingleFilter` | src/core/cuckoo.rs:450-467 | Equals relocating every slot in order and reports whether the sub-filter is empty |
| `CuckooFilterModel.CuckooFilter.Compact` | src/core/cuckoo.rs:282-289 | Equals the specified compaction, for both values of the continue flag; one sub-filter is left or the newest is in use; stopping early, nothing left in the newest has a free slot in any earlier one; going on, nothing left outside the first has one in it |
| `CuckooCompact.CompactSettles` | src/core/cuckoo.rs:282-289 | The same of the specified compaction, in terms of slots and buckets only; nothing else changes but the tables and the deletion counter |
| `CuckooCompact.RelocateOne` | src/core/cuckoo.rs:473-500 | A slot's fingerprint goes to the earliest sub-filter with a free slot in one of its buckets there, and stays if and only if there is none |
| `CuckooCompact.DeleteClears` | src/core/cuckoo.rs:200-217 | A deletion clears one slot that holds the item, in the newest sub-filter where one does; it fails, changing nothing, where none does |
| `CuckooFilterModel.ParamsForLeast` | src/core/cuckoo.rs:91-112 | The number of buckets is the least power of two at or above capacity / slots, the expansion the least at or above the option; beyond 2^63 there is one bucket, beyond 2^15 no expansion |
| `ZSetSpec.SortedUnique` | src/core/zset.rs:111-170 | Two strictly ascending listings of the same entries are equal |
| `ZSetSpec.IndexDetermines` | src/core/zset.rs:111-218 | A sorted listing that agrees with the member index is unique: the index fixes the whole order |
| `ZSetProof.CutTall` | src/core/zset.rs:125-144 | The search position on the bottom level cuts every level's list at the matching place |
| `ZSetProof.WalkStep` | src/core/zset.rs:127-144 | On any level, following links stays before the key exactly up to that level's predecessor |
| `ZSetProof.PutChained` | src/core/zset.rs:145-163 | Splicing a node of any height after the predecessors keeps every level a sorted sub-chain of the one below |
| `ZSetProof.CutoutChained` | src/core/zset.rs:203-207 | Bypassing a node on all levels keeps every level's chain of the remaining nodes |
| `ZSetProof.RaiseChained` | src/core/zset.rs:118-124 | Raising the list's level keeps all chains and all entries |
| `ZSetProof.LowerChained` | src/core/zset.rs:213-216 | Dropping an empty top level keeps all chains and all entries |
| `ZSetModel.PutBackLinked` | src/core/zset.rs:145-166 | Backward links stay exact after a splice |
| `ZSetModel.CutoutBackLinked` | src/core/zset.rs:208-210 | Backward links stay exact after a removal |
| `ZSetModel.PutIndexed` | src/core/zset.rs:111-170 | The member index stays in bijection with the listing after adding an entry |
| `ZSetModel.CutoutIndexed` | src/core/zset.rs:173-218 | The member index stays in bijection with the listing after removing one |
| `ZSetModel.RankUnique` | src/core/zset.rs:232-271 | A member occurs at one rank only |
| `ZSetModel.ZSet.constructor` | src/core/zset.rs:67-84 | The empty set satisfies the invariant |
| `ZSetModel.ZSet.Search` | src/core/zset.rs:125-144 | The top-down descent finds the predecessor of the key on every level |
| `ZSetModel.ZSet.Insert` | src/core/zset.rs:111-170 | Same score: reports it and changes nothing; otherwise the index maps the member to the new score and everything else is kept; all links and order invariants hold for any tower height |
| `ZSetModel.ZSet.Splice` | src/core/zset.rs:159-163 | The new node is linked behind its predecessor on each of its levels, and nothing else moves |
| `ZSetModel.ZSet.Delete` | src/core/zset.rs:173-218 | True if and only if the member was present; exactly that member leaves |
| `ZSetModel.ZSet.Bypass` | src/core/zset.rs:203-207 | The target is unlinked on each level where it is linked, and nothing else moves |
| `ZSetOrder.LexMeans` | src/core/zset.rs:125-144 | A member comes before another if and only if it is a proper prefix of it or has the smaller byte where they first differ |
| `ZSetOrder.RankCounts` | src/core/zset.rs:232-271 | The position of an entry is the number of members with a smaller score, or the same score and smaller bytes |
| `ZSetOrder.Ends` | src/core/zset.rs:519-535 | The first entry comes before every other member, the last one after |
| `ZSetModel.ZSet.Iterate` | src/core/zset.rs:294-299 | Following the bottom links lists each indexed entry once, by ascending score, and by ascending bytes within a score |
| `ZSetModel.ZSet.RevIterate` | src/core/zset.rs:303-315 | Following the backward links from the last node gives the exact reverse: descending scores, and descending bytes within a score |
| `ZSetModel.ZSet.Rank` | src/core/zset.rs:232-271 | Some rank if and only if the member is present, and then it is the number of members with a smaller score, or the same score and smaller bytes |
| `ZSetModel.ZSet.ByRank` | src/core/zset.rs:275-290 | The indexed entry before which exactly that many members come, or nothing past the end |
| `ZSetModel.ZSet.PopMin` | src/core/zset.rs:519-526 | Takes exactly one entry, whose score is at most every score that stays, with smaller bytes where equal; nothing only from the empty set |
| `ZSetModel.ZSet.PopMax` | src/core/zset.rs:528-535 | Takes exactly one entry, whose score is at least every score that stays, with greater bytes where equal; nothing only from the empty set |
| `HllProof.SparseSetMeans` | src/core/hll.rs:433-588 | A sparse update, with splitting, merging and promotion, either stores the register's maximum and leaves all others, or asks for promotion, and says whether the register grew |
| `HllProof.DenseSetGet` | src/core/hll.rs:136-158 | Packed 6-bit registers: a write changes that register and no neighbour |
| `HllProof.UnpackMeans` | src/core/hll.rs:308-347 | Unpacking succeeds if and only if the opcodes cover exactly all registers, and then gives the registers they describe |
| `HllProof.PfAddMeans` | src/core/hll.rs:645-670 | In either form, adding a hash takes the maximum in one register, and replies 1 if and only if it grew |
| `HllProof.SparseSimulatesDense` | src/core/hll.rs:630-670 | Over any sequence of hashes, a sketch started sparse and one started dense have the same registers and the same replies, promotion included |
| `HllPattern.PatternLength` | src/core/hll.rs:239-247 | Of every 64-bit hash, the index is its low 14 bits, and the count c is such that the 50 bits above end with exactly c - 1 zeros, or 51 when they are all zero |
| `HllPattern.PatternUnique` | src/core/hll.rs:239-247 | No hash has two such counts |
| `HllPattern.PfAddOffers` | src/core/hll.rs:645-670 | In either form, an addition takes the maximum of that count and the register of that index, leaves all others, and replies 1 if and only if it grew |
| `HllPattern.RegisterMeans` | src/core/hll.rs:645-670 | After any additions of 64-bit hashes to an empty sketch, a register is the largest pattern length among the hashes whose low 14 bits are its index, and 0 if and only if there are none |
| `HllPattern.PromotesWhenFull` | src/core/hll.rs:433-553 | A count above 32 always asks for the dense form; a smaller one never does while three more bytes fit in 3000 |
| `HllMerge.RegisterIsBest` | src/core/hll.rs:161-169 | A register is the largest count any added hash offers it |
| `HllMerge.RegistersOrderFree` | src/core/hll.rs:161-169 | The registers depend on the set of hashes only: order and repetition do not matter |
| `HllMerge.MergeHomomorphism` | src/core/hll.rs:186-193 | The register-wise maximum of two sketches is the sketch of the union |
| `HllMerge.MergeAllMeans` | src/core/hll.rs:769-783 | Merging any number of sketches gives the sketch of all their hashes |
| `Hll.MergeAdjacent` | src/core/hll.rs:591-626 | The in-place merge loop equals the specified joining of at most five opcodes from the start position |
| `Hll.Splice` | src/core/hll.rs:560-585 | Replacing an opcode in the buffer by shifting the tail up or down gives prefix, replacement, tail |
| `Hll.SparseUpdate` | src/core/hll.rs:433-588 | The buffer algorithm equals the specified sparse update |
| `Hll.SparseToDenseRegisters` | src/core/hll.rs:308-347 | Fails exactly when the opcodes do not cover all registers, otherwise writes the unpacked registers |
| `Hll.MergeDense` | src/core/hll.rs:186-193 | Register-wise maximum |
| `Hll.DenseCompress` | src/core/hll.rs:196-200 | Reading the packed registers back gives the raw ones |
| `Hll.PfMerge` | src/core/hll.rs:769-783 | Succeeds if and only if every input and the output are dense; then the output holds the merged registers and a stale cache, otherwise it is unchanged |
| `Hll.HyperLogLog.constructor` | src/core/hll.rs:383-401 | An empty sparse sketch in a valid buffer |
| `Hll.HyperLogLog.PfAdd` | src/core/hll.rs:630-670 | The buffer stays valid, its sketch and the reply equal the specified addition, the hash offers its pattern length to its register as in `PfAddOffers`; the cached cardinality is marked stale exactly when the reply is 1, and the rest of the header is kept |
| `Hll.HyperLogLog.PfAddSparse` | src/core/hll.rs:645-655 | The same from the sparse form, promotion included |
| `Hll.HyperLogLog.PfAddDense` | src/core/hll.rs:659-670 | Rejects exactly buffers that are not dense, unchanged; otherwise as above |
| `LzfSpec.LoopMeans` | src/core/lzf.rs:40-176 | Whatever the hash table holds, the tokens so far plus the pending literals decode to the input read so far |
| `LzfSpec.RoundTrip` | src/core/lzf.rs:40-243 | Whenever compression succeeds, decompression gives the input back |
| `Canonical.LzfBytes` | src/core/lzf.rs:183-243 | Three literals and an overlapping copy decode to three repetitions |
| `Lzf.CompressedSize` | src/core/lzf.rs:40-176 | Output is at most one byte longer than the input, which the buffer allows |
| `LzfRuns.ZerosCompress` | src/core/lzf.rs:40-176 | A long run of zeros always compresses, about 88 to 1 |
| `Lzf.MatchLength` | src/core/lzf.rs:86-103 | The unrolled comparison gives the length of the longest match within the limits |
| `Lzf.CompressBuffer` | src/core/lzf.rs:40-176 | The buffer algorithm with its hash table and back-patched run lengths equals the specified compression |
| `Lzf.DecompressBuffer` | src/core/lzf.rs:183-243 | For any bytes, including malformed ones, equals the specified decoder, overlapping copies included |
| `Decimal.ParsedIff` | src/core/intset.rs:37-81 | The strict parser accepts exactly the canonical decimal texts of 64-bit integers, each as its value |
| `Decimal.ParsedLoosePrinted` | src/util.rs:55-85 | The lenient parser reads every printed integer back |
| `Decimal.Itoa` | src/util.rs:19-37 | Prints the canonical decimal text, the minimum included |
| `Decimal.String2ll` | src/core/intset.rs:37-81 | Equals the strict parser, overflow checks included |
| `Decimal.ParseI64` | src/util.rs:55-85 | Equals the lenient parser, overflow checks included |
| `RdbStringSpec.ReadLenSaved` | src/core/rdb.rs:125-138 | Every length in each of its four encodings reads back, and reading stops right behind it |
| `RdbStringSpec.ReadPacked` | src/core/rdb.rs:142-158 | An integer-encoded string reads back as the original text |
| `RdbStringSpec.StringRoundTrip` | src/core/rdb.rs:192-214 | Every string reads back as itself, unless it was compressed from more than 2^29 bytes: exactly those are refused |
| `RdbStringSpec.LongRunRefused` | src/core/rdb.rs:779-810 | Such strings exist: every run of zeros between 2^29 and 2^32 bytes, for every test that accepts a compressed size of about 1/88 |
| `RdbStringSpec.ShareTestRefuses` | src/core/rdb.rs:192-214 | The test of the saver is one of these: less than 0.85 of the length, whatever the floating-point product loses within two bytes |
| `Canonical.LengthShortest` | src/core/rdb.rs:125-138 | Any bytes that read as a length are at least as long as those written for it, and the same if as long |
| `Canonical.LengthBytes` | src/core/rdb.rs:125-138 | The bytes of every length, by its size: the tags 00, 01, 0x80 and 0x81, big-endian |
| `RdbString.WriteLen` | src/core/rdb.rs:125-138 | Appends the encoding that `ReadLenSaved` inverts |
| `RdbString.TryIntegerEncoding` | src/core/rdb.rs:162-171 | Packs exactly the canonical texts of 32-bit integers, by the smallest width |
| `RdbString.SaveString` | src/core/rdb.rs:192-214 | Appends the encoding that `StringRoundTrip` inverts |
| `RdbString.Reader.ReadExact` | src/core/rdb.rs:843-851 | Takes that many bytes or fails without moving |
| `RdbString.Reader.ReadLength` | src/core/rdb.rs:748-775 | The cursor reader equals the specified one on any bytes, value and remaining input |
| `RdbString.Reader.ReadStr` | src/core/rdb.rs:779-810 | The same for strings in all their encodings |
| `ListpackSpec.TextStored` | src/core/listpack.rs:523-546 | Storing a text as an integer when it parses as one loses nothing |
| `ListpackSpec.BackwardGroups` | src/core/listpack.rs:73-123 | Reading a back-length from its last byte backwards gives the number written |
| `ListpackSpec.IntegersAgree` | src/core/listpack.rs:386-472 | The integer reader yields a value if and only if the entry reader yields that integer |
| `ListpackSpec.EncodedReads` | src/core/listpack.rs:169-284 | Every entry in every encoding reads back, and the size computed from its first bytes is its size |
| `ListpackSpec.PassedDecodes` | src/core/listpack.rs:289-315 | On any bytes, an element that validation passes over can be decoded |
| `ListpackSpec.WalkedDecodes` | src/core/listpack.rs:319-352 | On any bytes, a listpack that validates decodes completely, to as many entries as validation counted |
| `ListpackSpec.PackedReads` | src/core/listpack.rs:496-546 | A built list decodes to itself with the right (saturating) count, and passes deep validation if and only if its size fits the 32-bit header |
| `Canonical.IntegerShortest` | src/core/listpack.rs:169-205 | Any bytes that read as an integer element are at least as long as its encoding, and the same if as long |
| `Canonical.StringShortest` | src/core/listpack.rs:523-546 | The same for string elements |
| `Canonical.BacklenShortest` | src/core/listpack.rs:60-71 | A backward length takes as many bytes as it has groups of seven bits, except 2^14 - 1, 2^21 - 1 and 2^28 - 1, which take one more |
| `Canonical.SmallIntegerBytes` | src/core/listpack.rs:169-205 | Bytes of a 7-bit and a negative 13-bit integer element, with their backward lengths |
| `Canonical.WideIntegerBytes` | src/core/listpack.rs:169-205 | Bytes of a 24-bit one |
| `Canonical.StringBytes` | src/core/listpack.rs:523-546 | Bytes of string elements of 4 and of 300 bytes |
| `Canonical.EmptyBytes` | src/core/listpack.rs:576-579 | The bytes of the empty listpack |
| `Listpack.DecodeBacklen` | src/core/listpack.rs:104-123 | Equals the specified backward reader on any bytes |
| `Listpack.ValidateNext` | src/core/listpack.rs:289-315 | Equals the specified check of one element, out-of-range sizes included |
| `Listpack.ValidateDeep` | src/core/listpack.rs:319-352 | Equals the specified validation on any bytes |
| `Listpack.Next` | src/core/listpack.rs:368-374 | The following element's position, or none at the end or on corruption |
| `Listpack.Iterate` | src/core/listpack.rs:357-430 | On validated bytes, first-and-next iteration yields all entries in order |
| `Listpack.StringToI64` | src/core/listpack.rs:129-165 | Accepts exactly canonical 64-bit integers |
| `Listpack.Builder.constructor` | src/core/listpack.rs:489-494 | The empty list |
| `Listpack.Builder.AppendEncoded` | src/core/listpack.rs:496-512 | The patched buffer is the packed form of the old entries and the new one |
| `Listpack.Builder.AppendInteger` | src/core/listpack.rs:515-519 | Appends that integer entry |
| `Listpack.Builder.AppendBytes` | src/core/listpack.rs:523-546 | Appends the text, as an integer exactly when it is one |
| `StreamNodeSpec.UndeltaDelta` | src/core/rdb.rs:340-378 | Adding a wrapped signed difference back restores any 64-bit part of an ID |
| `StreamNodeSpec.ParsedNodeBack` | src/core/rdb.rs:1068-1168 | Parsing a node's elements restores its records: IDs, fields, tombstones, with or without shared field names |
| `StreamDumpSpec.NodesOfFlatten` | src/core/rdb.rs:408-441 | Splitting entries into nodes loses nothing and keeps the order |
| `StreamDumpSpec.SplitsGreedily` | src/core/rdb.rs:408-441 | A record starts a new node exactly when the last one would reach 4096 bytes with its fields or has 100 records |
| `StreamDumpProof.LoadNodeBack` | src/core/rdb.rs:1171-1184 | A saved node loads as its records, or is refused exactly when its string is |
| `StreamDumpProof.GroupRoundTrip` | src/core/rdb.rs:1208-1287 | A consumer group comes back unchanged if and only if every pending entry has a listed owner and every consumer counts what it owns |
| `StreamDumpProof.StreamRoundTrip` | src/core/rdb.rs:408-1296 | A dump is refused exactly when one of its strings went out compressed from more than 2^29 bytes; otherwise loading stops exactly behind it, and gives the same stream if and only if all groups are consistent |
| `StreamRdb.AppendStreamEntry` | src/core/rdb.rs:340-378 | Appends exactly the record's elements to the listpack being built |
| `StreamRdb.BuildNode` | src/core/rdb.rs:390-405 | Builds the listpack of the node's elements |
| `StreamRdb.SplitNodes` | src/core/rdb.rs:408-441 | The accumulating loop splits as specified, at 4096 bytes or 100 entries |
| `StreamRdb.SaveStream` | src/core/rdb.rs:408-496 | Appends the dump that `StreamRoundTrip` inverts |
| `StreamLoad.ParseStreamNode` | src/core/rdb.rs:1068-1168 | On any validated listpack, accepts or rejects as specified and inserts the parsed records |
| `StreamLoad.GetGroup` | src/core/rdb.rs:1210-1287 | On any bytes, equals the specified group reader |
| `StreamLoad.GetStream` | src/core/rdb.rs:1170-1296 | On any bytes, equals the specified stream reader, value and remaining input |
| `JsonSelect.NormalizeSelects` | src/core/jsonpath.rs:100-133 | A position is in the normalised range if and only if it is at or after `first` and at or before `second`, each counted from the end when negative, `second` clamped to the start |
| `JsonSelect.RangeSelects` | src/core/jsonpath.rs:710-775 | The range of a segment holds exactly the children with that name, at those positions, or all of them |
| `JsonSelect.StepReports` | src/core/jsonpath.rs:710-775 | The last segment reports exactly the children it selects, in order, each with its name |
| `JsonSelect.StepPasses` | src/core/jsonpath.rs:492-618 | An earlier segment passes the rest of the path on to exactly the arrays and objects it selects; `..` also to the node itself, and itself to every child |
| `JsonSelect.SingleIndex` | src/core/jsonpath.rs:100-133 | Index k reports item k, or nothing past the end; index -k reports the item k before the end, or the first one past the start |
| `JsonSelect.SliceReports` | src/core/jsonpath.rs:720-738 | A slice reports exactly the items from its lower to its upper bound, both included and clamped into the array |
| `JsonSelect.DeleteKeeps` | src/core/jsonpath.rs:1323-1371 | Deleting by the last segment keeps exactly the children it does not select, in order, and removes those it does |
| `JsonWalk.AdvanceSplits` | src/core/jsonpath.rs:492-618 | Each step of a frame splits the matches still owed by it into those of the visited node and those of the frame's next position; stopping owes nothing |
| `JsonWalk.Traverse` | src/core/jsonpath.rs:628-706 | The explicit-stack walk terminates and reports exactly the matches of the recursive meaning, in order, with their number |
| `JsonWalk.PerformStep` | src/core/jsonpath.rs:710-775 | The loop reports exactly the children the last segment selects, in order |
| `JsonDelete.DeletionConserves` | src/core/jsonpath.rs:1256-1371 | Nodes before = nodes left + nodes inside the removed values |
| `JsonDelete.PlainDeletion` | src/core/jsonpath.rs:1256-1371 | Without `..`, what is removed is exactly what the path matched, in order |
| `JsonDelete.PrunedEmpty` | src/core/jsonpath.rs:1256-1371 | Removing members never makes a path ending in a name match where it did not |
| `JsonDelete.NothingLeft` | src/core/jsonpath.rs:1256-1371 | After deleting along a path that ends in a name, nothing matches it |
| `JsonDeleteWalk.AdvanceDeletes` | src/core/jsonpath.rs:1060-1110 | Deleting in the visited node first and continuing the frame on the changed tree is the specified deletion: no location goes stale |
| `JsonDeleteWalk.Located` | src/core/jsonpath.rs:945-965 | A recorded location leads to the visited node, and replacing there replaces exactly that node |
| `JsonDeleteWalk.DeleteStep` | src/core/jsonpath.rs:1323-1371 | Removes the selected children and counts them |
| `JsonDeleteWalk.DeletePath` | src/core/jsonpath.rs:1256-1319 | The mutating walk ends with the specified document and the number of removed values |
| `BloomSpec.FreshBits` | src/core/bloom.rs:45-131 | After one add to an empty filter, bit j is set if and only if j is (low + i * high) mod 2^64, masked to the length, for some i below the number of hashes |
| `BloomSpec.AddedPresent` | src/core/bloom.rs:105-131 | An added fingerprint is present, and nothing present before disappears |
| `BloomSpec.AddExists` | src/core/bloom.rs:241-273 | The same for the chain of filters, whether or not it grows |
| `BloomSpec.AddFresh` | src/core/bloom.rs:241-273 | The reply is true if and only if the item was not found before |
| `BloomSpec.RunKeeps` | src/core/bloom.rs:241-279 | After any run of additions with any growth decisions, everything added is found |
| `BloomSpec.RunOk` | src/core/bloom.rs:241-273 | Any run keeps the invariants the dump relies on |
| `BloomDump.NextForward` | src/core/bloom.rs:485-532 | Cursors strictly increase and stay in range, so a dump ends |
| `BloomDump.TransferFrom` | src/core/bloom.rs:485-654 | From any position inside any filter, sending the remaining chunks to the half-loaded copy completes it |
| `BloomDump.DumpRoundTrip` | src/core/bloom.rs:419-654 | Feeding each chunk of a dump to the loader rebuilds the filter exactly, for any chunk size and any previous target |
| `BloomDump.NoFalseNegatives` | src/core/bloom.rs:241-654 | Whatever was added in a run is found in the transferred copy |
| `Bloom.ExistsFp` | src/core/bloom.rs:105-113 | True if and only if all of its bits are set |
| `Bloom.AddFp` | src/core/bloom.rs:122-131 | Sets all of its bits and says whether any byte changed |
| `Bloom.Resolve` | src/core/bloom.rs:432-450 | The filter and offset a cursor stands for |
| `Bloom.LoadSbfChunk` | src/core/bloom.rs:622-654 | Equals the specified loader on any chunk, error cases included |
| `Bloom.ScalableFilter.constructor` | src/core/bloom.rs:206-219 | One empty filter |
| `Bloom.ScalableFilter.Contains` | src/core/bloom.rs:276-279 | True if and only if some filter of the chain has the fingerprint |
| `Bloom.ScalableFilter.Insert` | src/core/bloom.rs:241-273 | The new state and reply equal the specified addition |
| `Bloom.DumpIterator.NextChunk` | src/core/bloom.rs:485-532 | Equals the specified chunk, and its position is always the one its cursor resolves to |
| `StreamState.AppendLive` | src/core/stream.rs:211-221 | Appending a newer ID adds exactly it at the end of the live IDs |
| `StreamState.KillLive` | src/core/stream.rs:224-250 | A tombstone removes exactly that live ID, and is a no-op otherwise |
| `StreamState.DeliverOk` | src/core/stream.rs:411-514 | Delivering to a consumer keeps owners known and every consumer's count equal to what it owns |
| `StreamState.AckedOk` | src/core/stream.rs:517-531 | Acknowledging keeps the same accounting |
| `StreamState.RedeliveredOk` | src/core/stream.rs:411-514 | Re-reading pending entries keeps it |
| `StreamState.TouchOk` | src/core/stream.rs:89-100 | Creating or touching a consumer keeps it |
| `StreamTrim.ExactLength` | src/core/stream.rs:303-353 | An exact length trim that stops where it must leaves min(length, limit) entries |
| `StreamTrim.ExactMinId` | src/core/stream.rs:303-353 | An exact ID trim that stops where it must keeps exactly the entries at or above the minimum |
| `StreamTrim.NodeOutcome` | src/core/stream.rs:303-353 | At each node the walk stops with the final amount removed, or goes on past it, by the bounds and the limit |
| `StreamTrim.ApproxLargest` | src/core/stream.rs:323-338 | An approximate trim removes the largest number of entries that are in excess, make up whole nodes and are within the limit |
| `StreamTrim.ApproxLength` | src/core/stream.rs:323-338 | To a length m without a limit: all of them for m = 0, none up to m, otherwise the excess rounded down to hundreds |
| `StreamTrim.ExcessCount` | src/core/stream.rs:303-353 | The entries in excess of one bound are the oldest ones, as many as exceed the length or come before the ID |
| `StreamGroups.LiveInOrder` | src/core/stream.rs:358-374 | Live IDs come in order of milliseconds, then sequence number |
| `StreamGroups.AfterMeans` | src/core/stream.rs:411-514 | New entries are exactly the live ones with a later ID than the last delivered, oldest first |
| `StreamGroups.DeliverMeans` | src/core/stream.rs:411-514 | Delivery appends one pending entry each, of that consumer, now, delivered once, and moves the last delivered ID; without acknowledgement only the latter |
| `StreamGroups.OwnFromMeans` | src/core/stream.rs:411-514 | The IDs read again are exactly the pending ones from the given ID on that the consumer owns, oldest first |
| `StreamGroups.RedeliverMeans` | src/core/stream.rs:411-514 | Reading them again raises each delivery count by one and sets its time; every other entry, owner and consumer stays |
| `StreamGroups.AckMeans` | src/core/stream.rs:517-531 | Exactly the given IDs leave the pending list, and the reply is the number of distinct ones that were on it |
| `StreamGroups.FirstLiveLeast` | src/core/rdb.rs:453-455 | The first ID of a dump is the least live one, or 0-0 when there is none |
| `StreamModel.CgConsistent` | src/core/stream.rs:411-531 | The accounting invariant of a live group implies the consistency under which its dump restores exactly |
| `StreamModel.Stream.DumpRestores` | src/core/rdb.rs:408-496 | A stream in any state the operations can reach, dumped and loaded, comes back unchanged, unless one of its strings is refused |
| `StreamModel.Stream.constructor` | src/core/stream.rs:171-179 | The empty stream satisfies the invariant |
| `StreamModel.Stream.Append` | src/core/stream.rs:211-221 | The live IDs grow by exactly the new one, and the length counts them |
| `StreamModel.Stream.Delete` | src/core/stream.rs:224-236 | True if and only if the ID was live; exactly it leaves; the greatest deleted ID is kept |
| `StreamModel.Stream.TrimDelete` | src/core/stream.rs:241-250 | The same without touching the greatest deleted ID |
| `StreamModel.Stream.NodeChunks` | src/core/stream.rs:358-374 | The chunks concatenate to the live IDs; every one has exactly 100 of them but the last, which has 1 to 100 |
| `StreamModel.Stream.Trim` | src/core/stream.rs:303-353 | Removes a prefix of the live IDs, all of them in excess, never more than the limit; an exact trim to a length leaves min(length, maxlen) entries, an exact trim to an ID leaves exactly the entries not before it; an approximate one removes the largest number in excess that makes up whole nodes within the limit; with both bounds only the first node is looked at |
| `StreamModel.Stream.CreateGroup` | src/core/stream.rs:385-403 | Error cases and the new group exactly |
| `StreamModel.Stream.DestroyGroup` | src/core/stream.rs:405-407 | Removes exactly that group |
| `StreamModel.Stream.ReadNew` | src/core/stream.rs:411-514 | Returns the first live entries after the last delivered one, and delivers exactly those, with or without pending entries |
| `StreamModel.Stream.ReadOwn` | src/core/stream.rs:411-514 | Returns the consumer's own pending entries from the ID on, and redelivers exactly those |
| `StreamModel.Stream.Ack` | src/core/stream.rs:517-531 | Removes the acknowledged IDs and counts those that were pending |
| `JournalCodec.WrittenBack` | src/server/journal.rs:71-189 | A written record decodes to itself with its database, and reading stops right behind it |
| `JournalCodec.StreamBack` | src/server/journal.rs:42-189 | Any concatenation of serialised records decodes to those records, in order, to the end |
| `JournalCodec.CommandInStream` | src/server/journal.rs:42-189 | In any such stream, the i-th command comes out with its own database, transaction and words |
| `Canonical.JournalMarks` | src/server/journal.rs:71-98 | The bytes of a sequence number and of a ping |
| `Canonical.JournalCommand` | src/server/journal.rs:71-98 | The bytes of a command after a change of database |
| `JournalCodec.Writer.WriteEntry` | src/server/journal.rs:71-98 | Appends the specified bytes, with a SELECT exactly when the database changes |
| `JournalCodec.EntryReader.ReadPacked` | src/server/journal.rs:197-224 | Equals the specified reader on any bytes, and tells truncation from corruption |
| `JournalCodec.EntryReader.ReadRecord` | src/server/journal.rs:155-234 | Equals the specified decoder on any bytes, SELECT prefixes applied, word sizes that overflow the position refused as corrupt |
| `JournalRing.JournalSlice.constructor` | src/server/journal.rs:257-265 | An empty ring whose next number is 1 |
| `JournalRing.JournalSlice.RingConsecutive` | src/server/journal.rs:242-329 | In every reachable state the ring is bounded and numbered without gaps up to the last number issued |
| `JournalRing.JournalSlice.ConsumerReads` | src/server/journal.rs:317-336 | What a consumer has been given decodes to exactly the records made since it registered |
| `JournalRing.JournalSlice.Record` | src/server/journal.rs:317-329 | Issues the next number, keeps the newest records, and every registered consumer sees it once |
| `JournalRing.JournalSlice.IsLsnInBuffer` | src/server/journal.rs:276-286 | True if and only if the number is one of the last ring-size numbers |
| `JournalRing.JournalSlice.GetEntry` | src/server/journal.rs:290-298 | Found if and only if in the buffer, and then the data recorded under that number |
| `JournalRing.JournalSlice.ClearBuffer` | src/server/journal.rs:302-305 | Empties the ring and skips one number; what is recorded next is again numbered without gaps, and consumers are undisturbed |
| `JournalRing.JournalSlice.StartAtLsn` | src/server/journal.rs:309-312 | Empties the ring and continues at the given number |
| `JournalRing.JournalSlice.RegisterConsumer` | src/server/journal.rs:331-336 | A fresh consumer that has seen nothing; nobody else is disturbed |
| `JournalRing.JournalSlice.UnregisterConsumer` | src/server/journal.rs:338-340 | Removes exactly that consumer |
| `Crc64Spec.UpdateIsSteps` | src/core/crc64.rs:17-42 | One table look-up is eight shift-and-xor steps, for any polynomial |
| `Crc64Spec.FoldReverses` | src/core/crc64.rs:39-75 | For any width and polynomial, the reflected checksum is the bit reversal of the forward one |
| `Crc64Spec.ReversePoly` | src/core/crc64.rs:1-13 | The reflected constant is the bit reversal of the polynomial |
| `Crc64Spec.Crc64IsReference` | src/core/crc64.rs:46-75 | The table-driven checksum of any data equals the bit-by-bit reference |
| `Crc64Check.CheckValue` | src/core/crc64.rs:1-13 | The checksum of the characters 1 to 9 is 0xe9c6d914c4b8d9ca |
| `Crc64.BuildTable` | src/core/crc64.rs:17-35 | Each table entry is eight steps from its index |
| `Crc64.Checksum` | src/core/crc64.rs:46-48 | The byte loop computes the specified checksum |
| `Crc64.ChecksumBitwise` | src/core/crc64.rs:53-75 | The bit loop computes the reversed forward checksum, and so the same value |
| `RespSpec.RequestTaken` | src/protocol/resp.rs:73-119 | A whole encoded request within the limits is taken, exactly, whatever follows |
| `RespSpec.RequestAnswered` | src/protocol/resp.rs:73-119 | A whole encoded request is taken if and only if it has at most 1048576 arguments of at most 2^29 bytes each; otherwise it is an error |
| `RespSpec.RequestCut` | src/protocol/resp.rs:73-119 | Every proper prefix of one asks for more: no error and no partial request |
| `RespSpec.PollExact` | src/protocol/resp.rs:41-71 | On any prefix of a stream of requests, a poll takes the next request if it is complete and otherwise changes nothing |
| `RespSpec.ChunkingIndependence` | src/protocol/resp.rs:28-71 | For every interleaving of arrivals and polls, the replies are the first requests in order, never an error, and the buffer is exactly the unread rest |
| `RespSpec.MultibulkStable` | src/protocol/resp.rs:73-119 | Once the parser takes or refuses a request, nothing that follows it changes the verdict |
| `RespSpec.ScheduleIndependence` | src/protocol/resp.rs:28-119 | For any multibulk bytes, valid or not, however cut and polled until nothing new comes: the replies are those of reading all bytes at once, followed at most by repetitions of an error |
| `Resp.Crlf` | src/protocol/resp.rs:196-198 | The first line end, or none |
| `Resp.ParseBulk` | src/protocol/resp.rs:87-117 | Equals the specified reader of one bulk on any bytes |
| `Resp.ParseMultibulk` | src/protocol/resp.rs:73-119 | Equals the specified request reader on any bytes, limits and malformed input included |
| `Resp.RespParser.Feed` | src/protocol/resp.rs:28-33 | Appends, unless the connection is broken |
| `Resp.RespParser.NextRequest` | src/protocol/resp.rs:41-71 | State and reply equal the specified poll |

Where documentation and code differ, the model follows the code. A failed displacement is documented to
roll back all swaps; the code does so if and only if its 8-bit slot sum cannot wrap (`RollbackExact`), which
holds for the default options and fails, for instance, with the default 20 iterations and 237 or more slots per
bucket. Deletion is documented to remove one occurrence of the hash; the code may clear a slot of another item
with the same fingerprint and buckets (`DeleteTracksIff`, `DeleteForgets`).

## Left out

- Threads, sockets, transactions, command dispatch, Lua, clustering and replication sessions.
- Hash functions (xxHash, MurmurHash), the random tower heights and clocks: they are parameters.
- Floating point: HyperLogLog estimates, Bloom filter sizing and error rates, and the share by which LZF must shrink a string (an arbitrary predicate, or in `ShareTestRefuses` any rounding of it).
- HyperLogLog counting and its cached cardinality, beyond marking the cache stale.
- Cuckoo filter `count` and its serialisation.
- Skip list range queries by score, member and rank; the first descent of `rank`, whose result the code throws away.
- JSON text and path parsing, aggregates and `mutate_path`; all scalars are one kind of leaf, and the binary search among sorted members is a look-up by key.
- RDB values other than strings and streams, the two older stream types, intsets, quicklists, count-min sketches and top-K.
- StreamModel.Stream.ReadNew: does not model the group's entries-read counter and lag estimate; choosing between it and ReadOwn by the special ID is left to the caller.
- CuckooProof.InsertTracks: states the exact result where no displacement goes astray; the other insertions are covered by CuckooRuns.InsertHolds.
- CuckooRuns.NoFalseNegatives: requires that the first sub-filter fit its size limit, as the code cannot insert into a filter without one; which item a failed displacement costs is stated for one bucket only (FailedInsertLosesItem).
- Consumer-group commands that edit a group from outside its own operations: setting the last delivered ID, claiming entries, removing consumers. Setting the ID back makes a later read count a pending entry twice, so groups that are not consistent, and that a dump does not bring back unchanged, do occur.
- Listpack.Builder.AppendBytes: requires that the list stay below 2^32 bytes, which the code asserts in debug builds; the same bound holds for one node of a saved stream.
- RESP inline commands (one reply value stands for all of them), reply encoding and error texts.
- Journal sharding of arguments; Bloom dump cursors below zero; allocation sizes.
