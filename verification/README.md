# OKM: verified models of its storage cores

These Dafny files model the parts of OKM that decide what bytes mean after a crash, after an overwrite
or after a schema change, and prove what those parts promise.

`dafny verify dfyconfig.toml` checks everything.

## What is modelled

**The series log** (`okm-series`). Records with delta-coded times go into compressed blocks of a part file, beside it an
index and a dictionary of interned strings. A file is a `seq<byte>`; a crash is a cut; zstd and the hash are parameters
of which only losslessness and non-empty output are used.

| files | content |
|---|---|
| `Bytes`, `Varint`, `Format`, `Foreign` | big-endian fields, LEB128, the fixed-width structures, the outside libraries |
| `Dict`, `DictPolicy`, `DictCodes`, `DictFile`, `DictRoom`, `Dictionary` | the growing dictionary: steps, who earns a code, when codes resolve, its file, its limits, the object |
| `Body`, `BodyCodec` | record bodies, encoded while the dictionary grows |
| `Part`, `Recovery` | what a part file says, what a scan of a cut file rebuilds |
| `Writer`, `History`, `PartWriter` | the writer as a state machine, the invariant of all its runs with crashes, the object |
| `Reader`, `PartReader` | binary search and scan against a filter of the record list |
| `Shelf`, `Log`, `OneWriter` | one directory of parts; clock, buckets, retention; who has a writer |
| `LogReads`, `LogWriter` | reads of one stream or all through kept readers; the object |

**The dynamic table** (`okm-dynamic`). `merge`, `replace` and `purge` plan an ordered list of operations against a
key-value store (`map<seq<byte>, seq<byte>>`) and replay it as one commit.

| files | content |
|---|---|
| `Store`, `Order`, `Wire` | keys, slots, batches, scans, the frame length |
| `Value`, `Segment`, `SegmentNames`, `VocabStore` | value trees, the dynamic segment, when its names find ids, the vocabulary |
| `Path`, `PathReach`, `Schema`, `Index`, `Reduce` | paths and what they address, declared payloads and their evolution, index entries, accumulators |
| `Plan`, `Ledger`, `Health` | the plans and the invariant: the store says exactly what the documents imply |
| `Verbs`, `Documents`, `Accepts` | the three verbs over all runs, what they make of a document, when they must succeed |
| `Scans`, `Probes`, `Groups`, `Rebuild`, `Collection` | reads by segment and by value, groups by value, the rebuild, the object |

**Smaller cores.** `OpFrame`, `Changelog`, `ChangelogBounds`, `ChangelogWriter` (the change log of `okm-core`), `Graph` (the dynamic
graph), `Query` (merge join, group fold and bounded walk of `okm-query`).

The shape is the same throughout: a datatype holds what the source's fields and files hold, functions are the steps,
lemmas prove what every run of steps keeps, and a class with the source's fields updates them in place, each method
proved to land exactly where its step says.

## Main results

- **Crash recovery.** Over every run of appends, flushes and crashes, with the part file cut anywhere at or after its
  header, adoption rebuilds exactly the state as of the last whole block (`History.RunsTell`, `Recovery.CrashRecovery`).
- **Dictionary stability.** A code once handed out names the same string for ever, so a body encoded while the
  dictionary grew decodes to itself (`Body.BodyReadsBack`); codes are sound exactly within 240 blocks of at most eight
  bytes width (`DictCodes.FreshRunsAreSound`). Who gets one is told from the calls (`DictPolicy.SettleEarns`).
- **Exact reads.** Despite binary search, early exits and the dropped first delta, reads return what a filter of the
  durable records returns, for one part (`PartReader.DurableRecordsAreRead`) and for one stream or all, over many parts
  and buckets, through readers kept from earlier reads (`LogReads.ReadsInRunsAreExact`).
- **The log's clock, buckets, writers and retention**, with refused records in the run (`Log.RunsKeepTheLog`,
  `Log.AppendFiles`, `Log.RetainFiles`, `OneWriter.WritersAre`).
- **A table is a map.** After every run of the three verbs a key gives back the document the verbs have told
  (`Documents.TableIsAMap`), and a verb is refused exactly for what it would write (`Accepts.MergeSucceeds`,
  `Accepts.PurgeSucceeds`).
- **Derived state stays exact.** After every run of the three verbs, rows, segments, vocabulary, faces and accumulators
  are what the documents imply (`Verbs.RunsAreHealthy`), so scans find documents by their values
  (`Probes.ExactScanIsByValue`), counts count rows with given values (`Groups.CountsInRuns`) and a rebuild changes nothing
  (`Rebuild.RebuildIsIdentity`).
- **Payload evolution, path order, change-log conservation, mirrored graph faces, exact joins and walks**
  (`Schema.PayloadAcross`, `Path.PrefixIsPrefix`, `Changelog.RunConserves`, `Graph.RunsMirror`, `Query.MergeJoin`,
  `Query.Walk`).

## Where the code keeps less than it promises

Each is stated as code behaves, with the exact condition.

- Block codes saturate at 255. From the 241st dictionary block on a code reads back as a string of block 239
  (`DictCodes.ResolvesExactly`, `DictCodes.CodesCollideAfter240Flushes`).
- `Dict::load` leaves the file offset at 0 for a file without a block, so the first flush after adopting one overwrites
  the file header (`DictFile.AdoptionCarriesOn`, `DictFile.AdoptingAnEmptyFileLosesTheDictionary`).
- A positive signed number in the upper half of what some width below eight bytes holds (128 to 255, 32768 to 65535 and
  so on) reads back negative, against the comment at okm-core/src/model/obj_dynamic.rs:186: 128 comes back as -128
  (`Value.IntReadsBack`, `Value.SomeIntsDoNotReadBack`).
  A value tree survives storing exactly when it holds no such number (`Value.ReadBackIsCollapse`). The derived state stays
  exact all the same, because entries are taken from the stored form.
- The header of okm-series/src/lib.rs calls an offset a stream's own counter. The code restarts it in every bucket, so
  an offset an append gives is new to its stream exactly when no other bucket of the stream holds more records
  (`Log.OffsetsRestartPerBucket`, `Log.TwoRecordsOneOffset`). A read over several buckets therefore walks them
  interleaved, by the offset each part starts at (`LogReads.LogReadsAreExact`).
- An append refused for its size has already made a part ready for a timestamp the stream's clock is never told. If the
  clock then steps back over a bucket's edge the stream gets a second writer (`OneWriter.TwoWritersOneStream`), which
  happens exactly in the runs `OneWriter.OneWriterPerStream` describes, and in none that takes every record
  (`OneWriter.OneWriterWhileTaken`). No record is lost or misfiled by it (`Log.RunsKeepTheLog`).
- A change log whose rename or create fails keeps its handle closed: writes are refused before they are tried and never
  trimmed, so the retry buffer, documented as bounded, grows with every commit (`ChangelogBounds.ShutForever`,
  `ChangelogBounds.OneFailureUnbounds`). It is bounded exactly as long as the last rotation tried went through
  (`ChangelogBounds.BufferIsBoundedIff`).
- The comment at okm-dynamic/src/index.rs:601-605 calls a probe longer than the fixed-width fields legal whenever the last
  field is of variable width. The code also asks that it be the only field, so a method on a number and a text cannot be
  scanned for both (`Probes.WholeProbeIff`).
- A literal key longer than 65535 bytes is cut in an encoded path, to the bytes of another path (`Path.PathRoundTrip`,
  `Path.LongKeysAreCut`).

## Model

| member | source | states |
|---|---|---|
| Varint.PutVarint | okm-series/src/format.rs:73-83 | the loop writes exactly the LEB128 bytes (section 7.6 of DWARF Version 5) after what was there |
| Varint.GetVarint | okm-series/src/format.rs:85-100 | the loop gives the value and the position after it, or nothing for truncated or over-long input, as the recursive reading of the same bytes |
| Varint.GetPut | okm-series/src/format.rs:73-100 | a written integer reads back wherever it sits in a longer byte string |
| Format.PartHeaderRoundTrip | okm-series/src/format.rs:124-155 | a part header decodes from its 48 bytes |
| Format.BlockHeaderRoundTrip | okm-series/src/format.rs:189-216 | a block header decodes from its 40 bytes |
| Format.FooterRoundTrip | okm-series/src/format.rs:227-254 | a footer decodes from its 40 bytes |
| Format.IndexRowRoundTrip | okm-series/src/format.rs:267-291 | an index row decodes from its 32 bytes |
| Format.FooterIsNoBlock | okm-series/src/format.rs:202-254 | a footer, whole or cut, never decodes as a block header, so a scan of a sealed part ends at its footer |
| Format.GetRecordOfBytes | okm-series/src/format.rs:314-335 | a record is read back at its position: delta, body and where the next one starts |
| Part.RawSnoc | okm-series/src/part.rs:226-252 | appending one record to a block adds exactly its bytes, with the delta from the last timestamp, and keeps the order of time if and only if the record is not older |
| Part.PackedReadsBack | okm-series/src/part.rs:274-288 | a block decompresses to its payload, is not empty, and is stored raw when so configured, otherwise the shorter of the two ways |
| Part.HeaderIsExact | okm-series/src/part.rs:289-296 | the header of a block that fits its fields says the true counts, lengths, first timestamp and first offset |
| Part.WholeBlockIsFound | okm-series/src/part.rs:136-169 | a block that lies whole in the file is accepted, with its own header and payload |
| Part.CutBlockIsNotFound | okm-series/src/part.rs:136-169 | a block cut anywhere is rejected |
| Part.FooterIsNotFound | okm-series/src/part.rs:136-169 | no block is found in a whole or half-written footer |
| Recovery.LastTsOfChunk | okm-series/src/part.rs:568-582 | the deltas of a block add up to its last record's timestamp, the first delta apart |
| Recovery.ScanOfCut | okm-series/src/part.rs:136-178 | scanning a cut file finds exactly the blocks that lie wholly inside the cut |
| Recovery.SurvivingIsLongest | okm-series/src/part.rs:136-178 | what survives a cut is the longest run of whole blocks: it fits, and one block more would not |
| Recovery.CrashRecovery | okm-series/src/part.rs:100-201 | for every part and every cut at or after its header, inside or after a footer too, the totals a scan rebuilds (next offset, last timestamp, records, blocks, file offset, digest input, index rows) are those as of the last whole block |
| Dict.SettleKeeps | okm-series/src/dict.rs:215-272 | settling a string keeps the dictionary coherent (promoted strings and entries match one to one), moves no entry, takes no code back, keeps the file the image of the closed blocks, and its answer is on record |
| Dict.FlushKeeps | okm-series/src/dict.rs:330-343 | a flush keeps all of that and leaves an empty open block, so everything handed out is on disk |
| Dict.CodesAreForever | okm-series/src/dict.rs:215-343 | over every run of settles and flushes no entry moves and no code is taken back |
| Dict.LookupIsStable | okm-series/src/dict.rs:198-207 | a code that resolves keeps resolving to the same string, at the same width, in every later state |
| DictPolicy.ThresholdIs | okm-series/src/dict.rs:348-367 | a string no longer than a code, or covered by no tier, is never interned; any other at the count of the first tier with multiple 0 or whose multiple of the width it does not exceed |
| DictPolicy.CountsAreHeard | okm-series/src/dict.rs:215-243 | while at most 2^20 hashes are heard, the count of a hash is the number of settles of strings with it, uncoded by then, since one of them last got its code |
| DictPolicy.SettleEarns | okm-series/src/dict.rs:215-243 | over every run: a string without a code gets one at a settle if and only if the settles of its hash, this one included, reach the threshold of its length at the width of the open block |
| DictPolicy.FullTableForgets | okm-series/src/dict.rs:215-243 | with the table of counts full a new hash is not counted, and its string gets a code at once or not at all |
| DictPolicy.EntryLands | okm-series/src/dict.rs:245-272 | a string that earns its code is put behind the last entry of the open block, or, when that is full, first into a new block of twice its width; no other settle changes the blocks |
| DictPolicy.FlushLands | okm-series/src/dict.rs:330-343 | a flush ends the open block if it holds anything and goes on at the same width |
| DictPolicy.RepeatsEarn | okm-series/src/dict.rs:215-243 | in a fresh dictionary a string that keeps coming has a code from the settle on that reaches its threshold at width two |
| DictPolicy.FifthTimeEarns | okm-series/src/dict.rs:25 | with the default tiers a string of 16 bytes has a code if and only if it was settled at least five times |
| DictCodes.ResolvesExactly | okm-series/src/dict.rs:198-207 | a handed-out code, written at its block's width, resolves to its own string if and only if its block is one of the first 240 and its id fits the width |
| DictCodes.SettledReadsBack | okm-series/src/dict.rs:215-243 | a settled string, written now, reads back from the dictionary as it is at any later time in which the codes are sound |
| DictCodes.FreshRunsAreSound | okm-series/src/dict.rs:235-272 | with blocks of at most 65536 entries a run from a fresh dictionary has sound codes if and only if its strings lie in the first 240 blocks and in none wider than eight bytes |
| DictCodes.CodesCollideAfter240Flushes | okm-series/src/dict.rs:56-60 | concrete run of 241 flushes with one new string each: the last string's code reads back as an earlier string |
| DictFile.ReadBlockOfImage | okm-series/src/dict.rs:373-434 | a dictionary block reads back from its bytes |
| DictFile.StoredIsShorter | okm-series/src/dict.rs:284-289 | a dictionary block is stored the shorter of the two ways |
| DictFile.HeadsLinkBack | okm-series/src/dict.rs:301-306 | every block of the file says where the one before it starts, the first says zero |
| DictFile.CutBlockIsUnreadable | okm-series/src/dict.rs:373-434 | a dictionary block cut anywhere is not read |
| DictFile.ReloadKeepsBlocks | okm-series/src/dict.rs:147-191 | loading the file of a live dictionary gives its closed blocks first, and exactly those when no left-over bytes follow |
| DictFile.CutLoadsWholeBlocks | okm-series/src/dict.rs:147-191 | a dictionary file cut anywhere loads as exactly the blocks wholly inside the cut |
| DictRoom.FinishedFileIs | okm-series/src/dict.rs:274-328 | the file a finished dictionary leaves is the image of exactly its blocks with an entry, and they extend what was on disk before |
| DictRoom.FitFileLoads | okm-series/src/dict.rs:147-191 | the file of blocks within the limits loads as exactly those blocks, with sound codes |
| DictFile.AdoptionCarriesOn | okm-series/src/dict.rs:129-191 | adopting a file with the first blocks of a coherent dictionary gives a coherent dictionary with those blocks; its file offset is right if and only if there is at least one |
| DictFile.AdoptingAnEmptyFileLosesTheDictionary | okm-series/src/dict.rs:129-165 | after adopting a file without a block, the next flush overwrites the file header and nothing loads any more |
| Dictionary.Dictionary.Settle | okm-series/src/dict.rs:215-243 | the method updates counts, codes and blocks exactly as the dictionary steps do |
| Dictionary.Dictionary.Promote | okm-series/src/dict.rs:245-256 | closes a full block, then records the string under the code it returns |
| Dictionary.Dictionary.CloseBlock | okm-series/src/dict.rs:258-272 | writes the open block and starts one of twice its width |
| Dictionary.Dictionary.FlushOpenBlock | okm-series/src/dict.rs:274-321 | writes the open block, stored the shorter way, behind the earlier ones and records its place |
| Dictionary.Dictionary.FlushIfDirty | okm-series/src/dict.rs:330-343 | puts the promoted strings on disk and opens a block of the same width |
| Dictionary.Dictionary.Finish | okm-series/src/dict.rs:323-328 | writes what is still in memory |
| Dictionary.Dictionary.Adopt | okm-series/src/dict.rs:129-191 | rebuilds blocks and codes from the file and opens a block of the last width |
| Dictionary.Load | okm-series/src/dict.rs:147-191 | the walk over the file gives the blocks and the end of the last one |
| Dictionary.ReadBlock | okm-series/src/dict.rs:373-434 | one block off the file, or nothing for a torn one |
| Body.EncodeKeeps | okm-series/src/body.rs:108-157 | encoding a body, whatever it does to the dictionary, keeps it healthy and moves nothing in it |
| Body.EncodeSettles | okm-series/src/body.rs:108-157 | encoding a body settles each of its texts once, in order, and does nothing else to the dictionary |
| Body.ItemSettles | okm-series/src/body.rs:108-157 | an item is inline unless it is a text with a code by then, which is written as the code and the id at the width of its block |
| Body.BodyReadsBack | okm-series/src/body.rs:108-210 | a body encoded while the dictionary grew decodes to itself under the dictionary it left and under every later one with sound codes |
| BodyCodec.EncodeWith | okm-series/src/body.rs:108-157 | the loop gives the specified bytes and leaves the dictionary object in the specified state |
| BodyCodec.DecodeWith | okm-series/src/body.rs:165-210 | the loop gives the specified body, or nothing for malformed bytes |
| History.AppendTells | okm-series/src/part.rs:226-255 | in every reachable state an append is refused for time if and only if the record is older than the last, and for size if it does not fit its length field; refused, it leaves the history alone; accepted, it gives the next offset and the record is in the history exactly once; and where the flush behind it fails, the file keeps its bytes, the index is unchanged and durable records still read back |
| History.AppendAddsOneRecord | okm-series/src/part.rs:226-255 | whether or not an append triggers a flush, the part's records are the old ones and the new one |
| History.AppendFlushesWhenFull | okm-series/src/part.rs:226-255 | an append writes its block out if and only if the buffer with the record has reached the block size |
| History.BaseTimeIs | okm-series/src/part.rs:226-240 | the header in memory takes the time of the first record of a part made without one, and nothing else changes it |
| History.FlushTells | okm-series/src/part.rs:264-312 | a flush succeeds if and only if the block and its place fit their 32-bit fields, and then the buffered records are one more block of the file, of the index and of the digest; a failed one loses the buffer and nothing that is durable |
| History.SealTells | okm-series/src/part.rs:320-341 | a seal leaves every record in the file and a footer with the true record and block counts, last timestamp and digest |
| History.AdoptTells | okm-series/src/part.rs:100-201 | after a crash at any time, with the part file cut anywhere at or after its header, adoption succeeds and the new writer's history is the durable prefix up to the last whole block; its fields, files and dictionary say exactly that |
| History.CutDictSurvives | okm-series/src/dict.rs:129-191 | a dictionary file cut after the block that ends what durable records refer to still serves them after adoption |
| History.RunsTell | okm-series/src/part.rs:100-312 | in every state of every run of appends, flushes and crashes from a fresh part, file, index, totals, buffer and dictionary say exactly what the history of records says, and every record decodes to its own body |
| PartWriter.PartWriter.Create | okm-series/src/part.rs:50-92 | the new writer's fields and files are those of a fresh part |
| PartWriter.PartWriter.Append | okm-series/src/part.rs:226-255 | result, fields and files after the call are those of the append step |
| PartWriter.PartWriter.Buffer | okm-series/src/part.rs:228-250 | the record goes into the buffer behind its delta; the first of a part and of a block set the base time, block time and block offset |
| PartWriter.PartWriter.FlushBlock | okm-series/src/part.rs:264-312 | dictionary first, then the block: result and state are those of the flush step |
| PartWriter.PartWriter.Seal | okm-series/src/part.rs:320-341 | flush, dictionary, footer: result and state are those of the seal step |
| PartWriter.Adopt | okm-series/src/part.rs:100-201 | the recovery loop builds the writer the adoption step describes, index rebuilt, or reports why the file is no part |
| PartWriter.ReadBlock | okm-series/src/part.rs:136-169 | one step of the recovery loop: the block, when all its records can be walked out |
| PartWriter.LastTs | okm-series/src/part.rs:568-582 | the cursor loop adds up the deltas |
| PartReader.IndexReadsBack | okm-series/src/part.rs:612-629 | an index file reads back as its rows; a torn last row is dropped |
| PartReader.OpensExactly | okm-series/src/part.rs:357-429 | opening an open or sealed part finds its header, its index rows, its footer and the offsets and timestamps it covers |
| Reader.ScanFinds | okm-series/src/part.rs:534-566 | the scan of a block finds what a filter of its records finds, timestamps rebuilt from the deltas, and the last timestamp |
| Reader.FirstRowStartsBefore | okm-series/src/part.rs:502-506 | the binary search starts at a row whose block begins at or before the wanted offset, or before the wanted time |
| Reader.RowsFindFrom | okm-series/src/part.rs:440-500 | starting at that row misses nothing: reading on from it gives what a filter of all records gives, early exits included |
| Reader.ReadsAreExact | okm-series/src/part.rs:440-500 | a read by offset or by time appends exactly the first wanted records, up to max, with their own timestamps, offsets and bodies |
| PartReader.DurableRecordsAreRead | okm-series/src/part.rs:357-566 | whatever run led to a writer, a reader that opens its files reads exactly the durable records, by offset or by time |
| PartReader.ReadFrom | okm-series/src/part.rs:440-462 | the loop returns the specified read by offset |
| PartReader.ReadByTime | okm-series/src/part.rs:467-500 | the loop returns the specified read by time |
| PartReader.ScanBlock | okm-series/src/part.rs:534-566 | the cursor loop over one payload |
| Log.BucketsKeepOrder | okm-series/src/lib.rs:421-425 | later timestamps are in the same or a later bucket |
| Log.BucketSpan | okm-series/src/lib.rs:421-425 | bucket b holds exactly the times from b bucket lengths on, up to the next bucket, the length being the bucket's seconds in ticks of the precision |
| Log.FiledByTime | okm-series/src/lib.rs:421-425 | every entry lies in a directory whose bucket's interval holds its time |
| Log.WriteIsOrderly | okm-series/src/lib.rs:698-712 | whatever the clock reads, a write lands in the bucket of its clamped timestamp, not before any earlier entry of its stream there |
| Log.BucketsFollowTime | okm-series/src/lib.rs:796-802 | of two records of a stream in different buckets the one in the earlier bucket is strictly older |
| Log.SealPartsTells | okm-series/src/lib.rs:828-846 | sealing any set of writers loses no record and moves them all to disk |
| Log.EnsurePartTells | okm-series/src/lib.rs:848-904 | the part made ready for a write is the open one if and only if its file and buffer together are below the part size, otherwise a fresh one whose header says precision, bucket, time and the number of records in its directory as its first offset; of the other writers exactly those of the stream's earlier buckets are closed |
| Log.AppendFiles | okm-series/src/lib.rs:698-712 | an append never fails for its time and is refused for a missing partition field if and only if the field is missing; taken, it files the record in the bucket whose interval holds its clamped timestamp, at an offset equal to the number of records there, changing nothing else; refused for size, it changes no record and leaves the part it had made ready |
| Log.OffsetsRestartPerBucket | okm-series/src/lib.rs:549-563 | no stored record of the stream has the offset an append gives (its part's first offset plus its place in the part) if and only if no bucket of the stream holds more records than the one written to |
| Log.TwoRecordsOneOffset | okm-series/src/lib.rs:549-563 | concrete run: two records of one stream, a second apart in buckets of a second, both get offset 0 |
| Log.FlushFiles | okm-series/src/lib.rs:726-731 | after a flush every record is on disk and none has changed |
| Log.SealFiles | okm-series/src/lib.rs:735-747 | after sealing there is no writer, every record is on disk and none has changed |
| Log.RetainFiles | okm-series/src/lib.rs:751-789 | after retention a directory holds exactly its entries that are not before the start of the bucket interval of the given time, open parts included, and dropped are exactly the buckets whose interval ends by then |
| Log.RunsKeepTheLog | okm-series/src/lib.rs:698-904 | in every state of every run from a fresh log, whatever the clock does and whichever records are refused, the files hold exactly the records the calls took, in their buckets and in time order, at least those of the last flush or seal are on disk, and which partitions have a writer in which bucket is what the calls say |
| OneWriter.WritersAre | okm-series/src/lib.rs:828-904 | a directory has a writer if and only if some append was directed to it and since then there was no seal, no retention beyond its bucket and no append of its stream in a later bucket |
| OneWriter.OneWriterPerStream | okm-series/src/lib.rs:848-904 | in a run every partition has at most one writer in every state if and only if no append goes to an earlier bucket of its stream than one before it whose writer is still open |
| OneWriter.StepsBackFromRefused | okm-series/src/lib.rs:698-712 | the earlier of two such appends is always one that was refused, so that the stream's clock was not told of it |
| OneWriter.OneWriterWhileTaken | okm-series/src/lib.rs:698-712 | while every record is taken a partition has at most one writer, whatever the clock does |
| OneWriter.AppendLeavesOne | okm-series/src/lib.rs:848-904 | from one writer per partition an append, taken or refused, leaves one per partition if and only if its stream has no writer in a later bucket than the record's |
| OneWriter.SafeAtEveryReading | okm-series/src/lib.rs:796-802 | no reading of the clock can give the stream of a writer a second one if and only if the writer's bucket is not after that of the stream's last timestamp |
| OneWriter.TwoWritersOneStream | okm-series/src/lib.rs:698-712 | concrete run: a record of 2^32 bytes is refused at clock 1 and the next one, at clock 0, gives the stream a second writer |
| Shelf.SealingTells | okm-series/src/part.rs:320-341 | a sealed part keeps every record of its directory, with the offset where it started, and its dictionary file is the image of blocks that hold what those records refer to |
| Shelf.OffsetsAre | okm-series/src/lib.rs:549-563 | the offsets of a directory's records, sealed, flushed or buffered, are exactly those below their number |
| Shelf.NextOffsetIs | okm-series/src/lib.rs:549-563 | the highest end the sealed parts report is the number of records in them: parts tile from 0 without gap or overlap |
| LogReads.SortingKeepsStream | okm-series/src/lib.rs:531-543 | ordering all parts by offset and then keeping one stream is the same as ordering the stream's parts |
| LogReads.SortedIsByOffset | okm-series/src/lib.rs:529-543 | a read walks exactly the parts with a readable header, by the offsets these headers say |
| LogReads.CacheStays | okm-series/src/lib.rs:447-472 | a reader kept from an earlier read stays true to the part as it was when its file had that length, whatever is appended and flushed since |
| LogReads.LengthTells | okm-series/src/lib.rs:447-472 | equal file length means the same blocks, so the length alone validates a kept reader |
| LogReads.ReaderForIsExact | okm-series/src/lib.rs:447-472 | the reader found for a listed part answers exactly, kept or fresh |
| LogReads.FewAreKept | okm-series/src/lib.rs:447-472 | no more than 48 readers are ever kept |
| LogReads.InTimeIsStable | okm-series/src/lib.rs:338-346 | rows of one time and offset stay in the order they were found in |
| LogReads.LogReadsAreExact | okm-series/src/lib.rs:306-397 | with every dictionary within its limits a read of one stream or of all, over any number of buckets, by offset or by time, returns the first max wanted durable records of the parts in the order of their first offsets; short of max that is, counted, what filtering every listed directory keeps; over all streams it is in the order of time and offset; and the readers kept afterwards are true |
| LogReads.StreamReadsAreExact | okm-series/src/lib.rs:306-397 | a read of a stream that lies in one bucket returns the first max of the filter of its durable records, in their order |
| LogReads.WithinLimitsServe | okm-series/src/part.rs:357-375 | while every dictionary is within its limits (240 blocks, eight byte codes, ids within the width, 4 GiB of text a block) the file beside each part, open or sealed, loads with all that the part's records refer to |
| LogReads.ReadsInRunsAreExact | okm-series/src/lib.rs:315-397 | in every run of appends (taken or refused), flushes, seals, retention and reads within those limits, each read of one stream or of all returns the first max of the wanted durable records and short of max all of them, for a stream in one bucket in their order; durable are the first records the log took, at least all there were at the last flush or seal |
| LogReads.PlainLogsAreRoomy | okm-series/src/part.rs:357-375 | a log written without dictionaries is within the limits in every state of its runs |
| LogWriter.Log.Append | okm-series/src/lib.rs:698-712 | result and new state are those of the append step, also when the record is refused |
| LogWriter.Log.EnsurePart | okm-series/src/lib.rs:848-904 | new state is that of the step that makes a part ready |
| LogWriter.Log.SealSome | okm-series/src/lib.rs:828-846 | the loop seals exactly the chosen writers, or reports the first that cannot |
| LogWriter.Log.StreamNextOffset | okm-series/src/lib.rs:549-563 | the loop finds the highest end of the directory's parts |
| LogWriter.Log.Flush | okm-series/src/lib.rs:726-731 | the loop flushes every active writer |
| LogWriter.Log.Seal | okm-series/src/lib.rs:735-747 | every writer sealed, the kept readers dropped |
| LogWriter.Log.RetainBefore | okm-series/src/lib.rs:751-789 | state and dropped buckets are those of the retention step, the kept readers dropped |
| LogWriter.Log.ReaderFor | okm-series/src/lib.rs:447-472 | kept reader or fresh one, and the cache afterwards, limit included |
| LogWriter.Log.ReadStreams | okm-series/src/lib.rs:315-397 | rows of all streams are sorted by time and offset, those of one are left as found |
| LogWriter.Log.ReadItems | okm-series/src/lib.rs:315-347 | the loop over the parts returns the specified rows and cache |
| Store.ReplayIsLast | okm-dynamic/src/collection.rs:507-523 | after a batch a key holds what the last operation on it left |
| Store.KeyIsInjective | okm-drain/src/lib.rs:336-345 | no two slots' keys collide and none is a prefix into another slot: one byte up to 0x0F, two bytes above |
| Store.ScanFindsAll | okm-dynamic/src/collection.rs:529-543 | a prefix scan returns exactly the suffixes of the keys under the prefix, in key order |
| Wire.TakePut | okm-core/src/model/wrappers/wire.rs:19-60 | a length reads back whatever follows it |
| OpFrame.SizeReadsBack | okm-wire/src/lib.rs:72-125 | an op frame's length reads back |
| OpFrame.FrameRoundTrip | okm-wire/src/lib.rs:202-262 | a batch of ops reads back as it was sent |
| Value.UIntReadsBack | okm-core/src/model/obj_dynamic.rs:194-199 | an unsigned number reads back from its trimmed bytes |
| Value.IntReadsBack | okm-core/src/model/obj_dynamic.rs:181-193 | a signed number i reads back as itself unless 128 * 256^(w-1) <= i < 256^w for some width w from 1 to 7, and then it does not |
| Value.SignIsInFirstByte | okm-core/src/model/obj_dynamic.rs:181-193 | that is exactly when the first kept byte of a number that is not negative has its top bit set |
| Value.SomeIntsDoNotReadBack | okm-core/src/model/obj_dynamic.rs:181-193 | 128 is stored in one byte and reads back as -128 |
| Value.ReadBackIsCollapse | okm-dynamic/src/plan_fields.rs:260-319 | a stored value tree comes back with unsigned kinds widened and nothing else changed if and only if no signed number in it lies in one of those ranges |
| Segment.ResolveKeeps | okm-dynamic/src/plan_fields.rs:44-54 | allocating a name keeps ids dense and names one to one, takes nothing back, and refuses if and only if the name is new and the two-byte ids are used up |
| Segment.BodyKeeps | okm-core/src/model/obj_dynamic.rs:124-227 | encoding any value tree only grows the vocabulary, and what it allocated is listed id by id |
| SegmentNames.NamesInObject | okm-dynamic/src/plan_fields.rs:260-300 | the names of an object are its fields' and those in their values |
| SegmentNames.NamesInArray | okm-dynamic/src/plan_fields.rs:260-300 | the names of an array are those in its elements |
| SegmentNames.SegmentFits | okm-dynamic/src/plan_fields.rs:44-54 | a segment can be encoded if and only if the names of the vocabulary and of the map, nested ones included, are at most 65535 together |
| Segment.EmptySegment | okm-dynamic/src/plan_fields.rs:206-226 | the encoded segment is empty if and only if the map is |
| Segment.SegmentReadsBack | okm-dynamic/src/plan_fields.rs:167-256 | a segment reads back, under the vocabulary it was written with and every later one, as the same names with the values as stored |
| VocabStore.LoadReadsBack | okm-dynamic/src/plan_fields.rs:61-103 | loading from the store gives back the live vocabulary |
| VocabStore.GrowthReplays | okm-dynamic/src/plan_fields.rs:167-226 | replaying a plan's vocabulary growth makes both faces and the cursor say the grown vocabulary |
| Path.WalkOfReadBack | okm-dynamic/src/path.rs:286-351 | what a path finds in the stored form is the stored form of what it finds in the original |
| Path.PathRoundTrip | okm-dynamic/src/path.rs:216-283 | a path whose names resolve decodes from its bytes if and only if no literal key is longer than 65535 bytes |
| Path.LongKeysAreCut | okm-dynamic/src/path.rs:216-283 | concrete path: one literal key of 65536 bytes has the bytes of the path with a key one shorter, and reads back as that path |
| Path.PrefixIsPrefix | okm-dynamic/src/path.rs:216-283 | one path's bytes begin another's if and only if its components begin the other's |
| Path.EncodePath | okm-dynamic/src/path.rs:216-241 | the loop writes the specified bytes |
| Path.DecodePath | okm-dynamic/src/path.rs:244-283 | the loop reads the specified components, or reports malformed bytes |
| Schema.FixedReadsBack | okm-dynamic/src/encode.rs:100-181 | a fixed-width field of the declared width decodes from its image |
| Schema.PayloadRoundTrip | okm-dynamic/src/encode.rs:22-57 | an encoded payload decodes as exactly the map's payload fields |
| Schema.PayloadAcross | okm-dynamic/src/decode.rs:63-246 | reading under one schema what another wrote: refused if and only if the writer's version is newer, otherwise the fields both know and the defaults of the rest |
| Schema.OldPayloadUnderNewSchema | okm-dynamic/src/decode.rs:63-289 | under a schema that appended fields an old payload gives its own values plus the defaults of exactly the appended fields |
| Schema.NewPayloadUnderOldSchema | okm-dynamic/src/decode.rs:63-289 | an old schema refuses a payload of a newer version and reads any other as its projection |
| Schema.FilledIs | okm-dynamic/src/decode.rs:248-289 | filling in defaults gives every missing field its own default and keeps the others |
| Index.PathImageOfReadBack | okm-dynamic/src/index.rs:454-523 | a path-indexed value has the same index bytes before and after storing |
| Index.PathEntriesOfReadBack | okm-dynamic/src/index.rs:454-523 | the path entries of a written segment are those of the segment read back, so an overwrite sweeps exactly what was put |
| Index.EntriesOfPayload | okm-dynamic/src/index.rs:368-446 | a row's entries depend on its payload fields only, when the host's callables do |
| Index.RowEntriesBelong | okm-dynamic/src/index.rs:368-446 | every entry of a row is under a method's slot and ends in the row's key |
| Index.PathEntriesBelong | okm-dynamic/src/index.rs:454-494 | every path entry is under a path method's slot and ends in the document's key |
| PathReach.PathAddresses | okm-dynamic/src/path.rs:207-353 | a path addresses exactly the scalars that stand at the places it matches: fields entered by name, positions pinned where it names them, every element where it does not |
| Probes.SegmentIs | okm-dynamic/src/index.rs:371-435 | a row's segment under a method is the images of its declared fields' values in their order, big-endian numbers, blobs and texts as they are, and it exists if and only if all of them can be indexed |
| Probes.PathImageIs | okm-dynamic/src/index.rs:496-528 | a path index keeps of a value: an unsigned number of any width at the declared width if it fits, a text or a blob as it is, of anything else nothing |
| Reduce.GroupOfPayload | okm-dynamic/src/reduce.rs:87-138 | a row's group depends on the key and the payload fields only |
| Groups.GroupIs | okm-dynamic/src/reduce.rs:87-138 | the bytes of a group are, field by field in the declared order, the big-endian image of the field's value, as wide as the field |
| Groups.SameGroup | okm-dynamic/src/reduce.rs:87-138 | two rows are in one group if and only if they agree on every group field, key fields taken from the key |
| Groups.GroupIff | okm-dynamic/src/reduce.rs:87-138 | a row has a group if and only if every group field is declared, of fixed width and not biased |
| Reduce.FoldAnyLast | okm-dynamic/src/reduce.rs:30-45 | under a reversible logic whose folds commute any row may be taken as the one folded last |
| Reduce.CountIsReversible | okm-dynamic/src/reduce.rs:211-245 | the count takes back what it added: its saturating subtraction never saturates after a fold |
| Reduce.CountCounts | okm-dynamic/src/reduce.rs:211-226 | counting a set of rows gives their number |
| Ledger.OverlayIsReplay | okm-dynamic/src/plan.rs:66-97 | what a plan reads through its overlay is what the store would hold with the plan so far replayed |
| Ledger.ReducesMove | okm-dynamic/src/plan.rs:355-386 | planning a row's reduces moves each of its groups exactly once and no other group; with no group missing the plan never ends early |
| Ledger.TellsAfterUnfold | okm-dynamic/src/plan.rs:104-134 | unfolding a row leaves each accumulator the fold of the rows without it |
| Ledger.TellsAfterFold | okm-dynamic/src/plan.rs:104-134 | folding a row leaves each accumulator the fold of the rows with it |
| Health.EmptyIsHealthy | okm-dynamic/src/plan.rs:176-264 | an empty store says exactly that there are no documents |
| Health.RowWriteIsHealthy | okm-dynamic/src/plan.rs:104-168 | replaying a row plan (sweep, unfold, fold, row, entries) leaves row, faces and accumulators exactly what the documents imply, and touches nothing else |
| Health.SegWriteIsHealthy | okm-dynamic/src/plan.rs:268-292 | replaying a segment plan leaves segment, path entries and vocabulary exactly what the documents imply |
| Health.SegPurgeIsHealthy | okm-dynamic/src/plan.rs:241-264 | removing a segment takes its path entries with it and leaves everything else |
| Verbs.MergeIsHealthy | okm-dynamic/src/collection.rs:703-751 | a merge that succeeds leaves a store that says exactly the merged documents |
| Verbs.ReplaceIsHealthy | okm-dynamic/src/collection.rs:756-787 | so does a replacement, whether or not the old segment had to be read |
| Verbs.PurgeIsHealthy | okm-dynamic/src/collection.rs:791-806 | so does a purge, which leaves the store alone when there is nothing to remove |
| Verbs.RunsAreHealthy | okm-dynamic/src/collection.rs:703-806 | in every state of every run of merge, replace and purge from an empty table, rows, segments, vocabulary, every face and every accumulator are exactly what the documents imply |
| Verbs.NamesAreForever | okm-dynamic/src/collection.rs:703-806 | in every run the vocabulary loaded from a later store gives each name its earlier id and each id its earlier name |
| Verbs.RowBaseIs | okm-dynamic/src/plan.rs:342-351 | a written row has, field by field, the carried value or the schema's default, as long as no payload field has a key field's name |
| Documents.DefaultIs | okm-dynamic/src/decode.rs:248-289 | a field's default is the one it declares, without one its all-zero image or no text |
| Documents.FetchIs | okm-dynamic/src/collection.rs:676-687 | a document reads as its row with its segment over it, and as nothing when it has neither |
| Documents.MergeMeans | okm-dynamic/src/collection.rs:689-751 | after a merge every carried name has its value as stored, every other name what it had, and a new row adds the defaults of its other fields, nothing else |
| Documents.ReplaceMeans | okm-dynamic/src/collection.rs:753-806 | after a replacement the document is exactly the carried map as stored, with the defaults of the other declared fields if it carries one |
| Documents.SplitIs | okm-dynamic/src/plan.rs:287-311 | a carried name is declared if and only if it is of the payload, otherwise dynamic, with its own value |
| Documents.TableIsAMap | okm-dynamic/src/collection.rs:676-830 | in every state of every run, fetching any key gives exactly the document that the verbs not refused have told for it, one after the other |
| Accepts.MergeSucceeds | okm-dynamic/src/collection.rs:703-751 | a merge succeeds if and only if the key has its width, the row it would write is accepted and the names of the segment it would write find ids: at most 65535 with those in use |
| Accepts.ReplaceSucceeds | okm-dynamic/src/collection.rs:769-806 | a replacement succeeds under the same condition on what it would write |
| Accepts.PurgeSucceeds | okm-dynamic/src/collection.rs:808-830 | removing a document never fails, whatever methods and reduces the table has |
| Accepts.RowPlanSucceeds | okm-dynamic/src/plan.rs:60-170 | a stored row can always be taken out of its groups and faces, and a new one is accepted if and only if its payload can be encoded, its methods have entries for it and every reduce takes it into the accumulator the old row has left |
| Accepts.EncodesIff | okm-dynamic/src/encode.rs:22-57 | a payload can be encoded if and only if every field has a value of its declared kind and width |
| Accepts.EntriesIff | okm-dynamic/src/index.rs:371-435 | a row has its entries if and only if for every method the callables answer and, where the method indexes the row, the indexed and the included fields can be located |
| Scans.ScanIsFilter | okm-dynamic/src/index.rs:534-605 | a scan finds exactly the documents with a segment that begins with the probe, an exact scan those with a segment equal to it: no false hit from bytes of a key, none missed |
| Probes.ExactScanIsByValue | okm-dynamic/src/index.rs:560-640 | an exact scan for the values of the declared fields finds exactly the keys of the stored rows that have these values and, under a partial method, that its predicate admits |
| Probes.RowSegments | okm-dynamic/src/index.rs:368-446 | a plain method has one entry of every stored row, a partial one of exactly those its predicate admits |
| Probes.SegmentDecodes | okm-dynamic/src/index.rs:368-446 | a segment on a face decodes, by the method's fields, to its row's own values of them |
| Probes.PrefixScanIsByValue | okm-dynamic/src/index.rs:560-640 | a prefix scan for the values of leading fixed-width fields finds exactly the keys of the indexed rows that have them |
| Probes.FuncScanIs | okm-dynamic/src/index.rs:560-640 | a scan by a callable finds a row under exactly the segments the callable derives from it |
| Probes.PathScanIs | okm-dynamic/src/index.rs:560-640 | a scan by a path finds a document if and only if the path reaches a value with these bytes in it |
| Probes.ProbeIff | okm-dynamic/src/index.rs:590-640 | which probes are taken: any by a callable or a path, otherwise one no longer than the fixed-width fields in front, or any for a single field of variable width |
| Probes.FrontIsTaken | okm-dynamic/src/index.rs:590-640 | the values of leading fixed-width fields are always taken as a probe |
| Probes.WholeProbeIff | okm-dynamic/src/index.rs:590-640 | a scan for a row's whole segment is refused if and only if the method has more than one field and the last is a text that is not empty |
| Probes.PathEntryIsBare | okm-dynamic/src/index.rs:454-490 | an entry of a path index carries no value |
| Scans.IncludesReadBack | okm-dynamic/src/index.rs:680-733 | the included fields decode from an entry's value |
| Scans.CoveredIsTheRow | okm-dynamic/src/index.rs:646-678 | a covered scan hands back the row's own values of the included fields |
| Scans.CountIsExact | okm-dynamic/src/reduce.rs:157-164 | a count's accumulator is the number of stored rows of its group, and it is missing only while there are none |
| Groups.CountsInRuns | okm-dynamic/src/reduce.rs:200-245 | in every state of every run a count's accumulator under the group of a row, stored or not, is the number of stored rows that have its values in the group fields |
| Scans.WaterMarksRemember | okm-dynamic/src/reduce.rs:211-245 | a high or low water mark is the highest or lowest value ever written to its group, deleted rows included, or the seed |
| Scans.ExtremeIs | okm-dynamic/src/reduce.rs:200-245 | that extreme is one of the numbers written to the group and none of them is beyond it |
| Rebuild.PathEntriesOfMerged | okm-dynamic/src/collection.rs:819-835 | a path that starts at no declared field finds the same in the merged document as in the segment alone |
| Rebuild.PassesAreFaces | okm-dynamic/src/collection.rs:335-395 | what the passes over rows and segments list under a face key is what the documents imply |
| Rebuild.RebuildIsMaintenance | okm-dynamic/src/collection.rs:305-396 | from any contents of the declared slots a rebuild ends with exactly the entries maintenance would hold, everything else untouched |
| Rebuild.RebuildIsIdentity | okm-dynamic/src/collection.rs:305-396 | on a healthy table a rebuild changes no key of the table |
| Rebuild.FetchStays | okm-dynamic/src/collection.rs:342-350 | a document reads the same before, during and after a rebuild |
| Rebuild.RunsKeepHalvesApart | okm-dynamic/src/plan.rs:296-334 | in every run the declared and the dynamic half of a document share no name |
| Collection.EntriesOfRow | okm-dynamic/src/index.rs:368-446 | the loops over methods and segments give the specified entries |
| Collection.MoveGroups | okm-dynamic/src/plan.rs:355-386 | the loop over reduces gives the specified operations and overlay, early return included |
| Collection.PlanRowWrite | okm-dynamic/src/plan.rs:104-168 | the ordered list of a row write is the specified plan |
| Collection.Collection.Commit | okm-dynamic/src/collection.rs:507-523 | the loop applies the batch in order |
| Collection.Collection.Merge | okm-dynamic/src/collection.rs:703-751 | store and answer after the call are those of the merge |
| Collection.Collection.Replace | okm-dynamic/src/collection.rs:756-787 | store and answer after the call are those of the replacement |
| Collection.Collection.Purge | okm-dynamic/src/collection.rs:791-806 | store and answer after the call are those of the purge |
| Collection.Collection.Scan | okm-dynamic/src/index.rs:560-605 | the loop over suffixes gives the specified keys |
| Collection.Collection.SweepFaces | okm-dynamic/src/collection.rs:312-334 | in chunks of any size the sweep deletes every key of the declared slots |
| Collection.Collection.DeriveFaces | okm-dynamic/src/collection.rs:335-395 | in chunks of any size, each document fetched from the store as the entries before it have left it, one pass puts the entries of every document of its half |
| Collection.Collection.RebuildFaces | okm-dynamic/src/collection.rs:305-396 | for every chunk size the store ends as the rebuild specifies |
| Collection.Collection.ScanDocumentKeys | okm-dynamic/src/collection.rs:546-575 | the two-index merge gives the keys of all documents, each once, in key order |
| Changelog.CarriedIsTheTruth | okm-core/src/changelog.rs:476-512 | of a table's keys exactly those of rows, segments, vocabularies and predicates are carried, and no bare face |
| Changelog.CarriedIs | okm-core/src/changelog.rs:172-226 | of a batch exactly the recognised operations are carried, puts and deletes, in their order |
| Changelog.WireSays | okm-core/src/changelog.rs:172-226 | a frame says every operation it was made from: tag 0 with its value for a put, tag 1 for a delete |
| Changelog.StagedReadsBack | okm-core/src/changelog.rs:172-226 | what a batch staged reads back as the ops it carried |
| Changelog.TrimDropsFrames | okm-core/src/changelog.rs:316-329 | trimming drops whole frames, the oldest first, one count each, and no more of them than it takes |
| Changelog.CommitBuffers | okm-core/src/changelog.rs:228-243 | a commit that fills neither buffer nor segment touches no file, one that fills the buffer writes it out |
| Changelog.CommitConserves | okm-core/src/changelog.rs:228-243 | whatever the file system answers, a committed frame is delivered, buffered or counted as dropped, in its place |
| Changelog.SealConserves | okm-core/src/changelog.rs:245-255 | so it is with a seal |
| Changelog.RunConserves | okm-core/src/changelog.rs:172-341 | over every run, with any failures of write, rename and create, the staged frames are those delivered, buffered and counted as dropped, in order, each whole inside one segment |
| ChangelogBounds.GoodRunIsBounded | okm-core/src/changelog.rs:228-341 | over every run without failures no frame is dropped, the open segment with its buffer stays below the size limit between calls, and every sealed segment is whole frames, at most the limit minus one byte plus its last frame |
| ChangelogBounds.OpenIs | okm-core/src/changelog.rs:228-341 | in every run the segment handle is open if and only if the last rotation tried, by a due commit or a seal, met no failed rename or create, and then the retry buffer is within its cap |
| ChangelogBounds.ShutForever | okm-core/src/changelog.rs:282-329 | once the handle is closed with bytes to write, every continuation, whatever the file system answers, writes, trims and seals nothing and adds every later frame to the buffer |
| ChangelogBounds.BufferIsBoundedIff | okm-core/src/changelog.rs:282-341 | as long as some batch can be framed at all: the retry buffer stays within eight buffer sizes in every continuation that meets no failed rename or create if and only if the last rotation tried before it went through |
| ChangelogBounds.OneFailureUnbounds | okm-core/src/changelog.rs:282-341 | concrete run for every n: one rename or create fails as the segment falls due, and n + 1 commits later, with nothing failing any more, the buffer is longer than n bytes |
| Changelog.CutReadsWholeFrames | okm-core/src/changelog.rs:436-472 | reading any cut of a segment as open gives exactly the frames wholly before the cut; reading it as sealed works if and only if the cut is at a frame's end |
| ChangelogWriter.ChangelogWriter.Stage | okm-core/src/changelog.rs:172-226 | the loop frames exactly what the log carries of the batch |
| ChangelogWriter.ChangelogWriter.CommitStaged | okm-core/src/changelog.rs:228-243 | answer and state are those of the commit step |
| ChangelogWriter.ChangelogWriter.Write | okm-core/src/changelog.rs:282-314 | answer and state are those of the write step |
| ChangelogWriter.ChangelogWriter.TrimToCap | okm-core/src/changelog.rs:316-329 | the loop drops what the specification drops and counts it |
| ChangelogWriter.ChangelogWriter.MaybeRotate | okm-core/src/changelog.rs:331-341 | seals when the segment is due |
| ChangelogWriter.ChangelogWriter.Seal | okm-core/src/changelog.rs:245-255 | answer and state are those of the seal step |
| ChangelogWriter.ReadFrames | okm-core/src/changelog.rs:446-472 | the loop reads what the specification reads, strictly or not |
| Graph.RefReadsBack | okm-core/src/model/graph.rs:123-165 | a node reference is self-delimiting |
| Graph.BodyReadsBack | okm-dynamic/src/graph.rs:311-323 | an edge body gives back both references and the predicate |
| Graph.LinkMirrors | okm-dynamic/src/graph.rs:207-274 | a link succeeds if and only if the id is free and both ends are members, and then bodies, attributes and all four faces are exactly the image of the edges with the new one |
| Graph.LinkSucceeds | okm-dynamic/src/graph.rs:91-105 | a link succeeds if and only if the id is not live and, where members are named, the collection of either end is one of them |
| Graph.BodyEndsInPayload | okm-dynamic/src/graph.rs:187-199 | an edge body ends in the payload of a row without fields |
| Graph.UnlinkMirrors | okm-dynamic/src/graph.rs:279-306 | an unlink succeeds if and only if the edge is live, and then they are exactly the image of the edges without it |
| Graph.RunsMirror | okm-dynamic/src/graph.rs:207-306 | over every run of links, unlinks and vocabulary growth the four faces are exactly the image of the live edges |
| Graph.UnlinkUndoesLink | okm-dynamic/src/graph.rs:207-306 | unlinking what was just linked restores every key of the table |
| Graph.ScanFindsEdges | okm-dynamic/src/graph.rs:373-488 | every traversal returns exactly the ids of the edges it asks for |
| Graph.ScanNamesEachOnce | okm-dynamic/src/graph.rs:373-537 | and no id twice |
| Graph.Graph.Traverse | okm-dynamic/src/graph.rs:522-537 | the loop over the suffixes gives the specified ids |
| Graph.Graph.LinkEdge | okm-dynamic/src/graph.rs:207-274 | answer and store are those of the link |
| Graph.Graph.UnlinkEdge | okm-dynamic/src/graph.rs:279-306 | answer and store are those of the unlink |
| Query.MergeJoin | okm-query/src/lib.rs:47-94 | for any two key-sorted streams, repeated keys included, the output is the nested-loop join: all equal-key pairs by ascending key, then right order, then left order |
| Query.GroupBy | okm-query/src/lib.rs:101-124 | for every stream the output folds the longest stretches of one group, in order; where items of a group stand together there is exactly one entry per group, the fold of all its items |
| Query.Walk | okm-query/src/lib.rs:153-179 | for every neighbour relation the walk returns each node within the hop bound exactly once, nearer nodes first, and nothing else |

## Left out

The series log:

- Real I/O, fsync, file locks, process claims, `log.meta` and path names: directories are maps, writes succeed. What
  fails is a length or a place that does not fit its field. A refused record does not end a run; a block that cannot be
  flushed, a part that cannot be sealed and a code too wide for the encoder, which panics, do.
- zstd and xxh64 internals: parameters. The digest is the hash of the concatenated raw payloads.
- Wrapping of the 64-bit offset and 32-bit block and record counters: offsets are required to stay below their limit,
  the 32-bit fields are truncated as in the source.
- UTF-8 validation: text is its bytes. F64 values are eight opaque bytes.
- PartReader.DurableRecordsAreRead: asks that the dictionary file's codes are sound and its blocks fit their 32-bit
  fields, because left-over bytes after a torn dictionary tail may parse as further blocks.
- LogReads.ReadsInRunsAreExact: while each part's dictionary has at most 240 blocks, codes of at
  most eight bytes, no more entries in a block than its codes can number and less than 4 GiB of text in it, because
  beyond that the codes do not resolve (`DictCodes.ResolvesExactly`) or the block does not read back. Logs without
  dictionaries are always within these limits (`LogReads.PlainLogsAreRoomy`).
- History.AdoptTells: asks that at least one dictionary block with everything durable records refer to survives, because
  adopting a dictionary file without a block is broken.
- `Log::open`, which adopts the parts of an earlier process: it learns the last timestamps from the index before
  adoption, so the clock is proved for runs from a fresh log.
- The order of the active writers and so of the footers `seal` returns: the writers are a map from bucket and partition.
  `LogWriter.Log` holds them as values of the writer's state, the object itself being `PartWriter.PartWriter`.
- The search for a free part number: the number after the last one is always free within one process.
- The rendering of a partition value and the listing order of directories: a function of the body and a parameter.
- The read-only `LogReader`, `parts`, and the tail file the dictionary writes beside itself.
- The standard library's `partition_point` is taken at its contract: the length of the leading run.

The dynamic table:

- Payload kinds `Quant`, `Vocab`, `Vector`, `Bytes`, `Uuid` and variable-width integers, and cold kinds other than text
  and biased integers: floating point, or refused before they are encoded.
- Host callables (`Func` methods, filters, reduces) are functions of the payload fields: new rows are planned with the
  key's fields in the map and old rows without them. For the same reason key and payload names are disjoint where the
  written row is described.
- Method and reduce slots are distinct and above the fixed faces; reduces are declared before the first write.
- Health.RowWriteIsHealthy: payloads shorter than 2^64 bytes.
- Health.SegWriteIsHealthy: segments shorter than 2^64 bytes.
- Rebuild.RebuildIsMaintenance: assumes paths that start at no declared field.
- Collection.Collection.RebuildFaces: asks for declared slots above the fixed faces; the keys of a slot and of a pass are
  listed before its first commit, where the source lets the engine's iterator run.
- The stamp a rebuild writes last, table metadata, fingerprints, `path_registry`, the string form of paths.
- `scan` and `scan_covered` as lists of fetched documents: the model gives the keys, and the values of a covered entry.
- Name bytes are compared as UTF-8 bytes, which is also the order of the source's maps.

The smaller cores:

- Reading and writing of change-log sidecars, directory listing, and the seal on drop. A write is all or nothing.
- ChangelogBounds.OneFailureUnbounds: for a table header short enough that removing one row fits a frame.
- Graph: edge attributes as bytes, predicates by id, growth of the predicate vocabulary as writes to its own slots;
  `link_into`, which trusts its caller for the id, and `get_edge`.
- `Query.Walk`: the neighbour relation is a function of the node, not of a changing store.
- Drains, subscriptions, stream combinators, n-grams, vectors, derive macros, language bindings, benchmarks.
