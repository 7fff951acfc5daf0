# Verified models of tgrep and of the Mermaid block parser

This project models the parts of the repository whose correctness is hardest to see by reading: the
trigram index of `tgrep` (its bytes, its writers, its streaming merges and its queries), the memory
budget of the indexer, UTF-8 repair and its offset tables, matching by line and across lines, and the
block structure of two Mermaid diagram kinds. `dafny verify dfyconfig.toml` checks all of it.

| module | models |
|---|---|
| `Bytes`, `OnDisk` | bytes, little-endian integers, the records of `index.bin`, `lookup.bin` and `files.bin` |
| `IndexImage`, `Query` | the three files as one value, opening them, looking a trigram up, and what an index means |
| `Merging`, `MergeMeaning`, `StreamingMerge`, `MergeRuns` | merging a delta: the id remap, the 2-way merge, the byte-level method, and whole runs |
| `Overlay`, `Writers` | the append-only flush, the hash-map writer, the sorted-postings writer, the in-memory build |
| `EndToEnd` | building, any run of merges, and a query, as one theorem |
| `Batching`, `ReadBudget` | greedy batching; the permit protocol as interleaved steps of many readers |
| `Utf8`, `ChunkedScan`, `LossyDecoding` | section 4 of RFC 3629, the chunked validator, repair, offset mapping, decoding modes |
| `Lines`, `Spans`, `Multiline` | the line table, span limiting and grouping, context windows, multi-line matching |
| `Regexes`, `Prescan` | patterns and their enumeration, the whole-buffer prescan against the line-by-line loop |
| `Replace`, `Positions` | `--replace`, and the columns and offsets reported in terms of the bytes on disk |
| `Flowchart`, `SequenceDiagram` | the subgraph stack; frames, boxes and participants |
| `FlowchartMeaning`, `SequenceMeaning` | what a run yields, in terms of its statements alone |
| `Brackets`, `Mentions` | bracket matching without a stack; lists in order of first mention |

How the model is set up:

- What the code computes is defined twice: once as the code does it, and once as what it is for, in terms
  the code does not use. Bytes are stated digit by digit, characters by their numbers, hits by the matches
  of a line, diagrams by counting and matching their lines; the two are proved to agree.
- An index *means* a map from path to trigram to masks (`IndexImage.Meaning`). A merge is proved to be
  the one-line update `(old - removed) + delta` of that map, through the bytes: images are opened,
  merged record by record and written again.
- File sinks are byte sequences. Integer widths are explicit: lengths are cast to `u32`, offsets wrap at
  `u64`, ids are checked as the code checks them, and well-formed indexes are proved never to truncate
  or wrap (trigrams are 24-bit, `crates/tgrep-core/src/trigram.rs:54-58`).
- Sorting in the code is modelled by insertion sort on values; hash-map iteration by an ascending
  listing of the keys where the code sorts them, and by arbitrary choice in `Writers.PushFile`.
- The transcoding library is a function parameter; the regex engine is a pattern (`Regexes.Regex`, which
  has every word assertion of the `regex` crate) with an arbitrary rule for choosing an end among those
  a start allows, so the results hold for leftmost-first and leftmost-longest engines alike. Which
  characters make up words is arbitrary, line ends excepted.
- Offsets into the text being matched count characters instead of bytes. That changes no line: lines hold
  whole characters, so the line of a match's last byte is that of its last character. The line table and
  the spans are modelled over units that may be either.
- Mermaid lines come in already classified; nodes, edges and subgraphs, and participants, boxes, frames,
  messages, notes and activations are modelled, labels and styling are not.

Where the code and its comments differ, or a promise needs a condition:

- `LineIndex::line_end` also cuts a lone `\r` at the end of the buffer, which `line_terminator_len`
  then counts although its comment lists only `\n` and `\r\n` (`Lines.LineTerminator`).
- The prescan's guard `re.is_match("")` is meant to exclude empty matches and does so for patterns
  without word assertions (`Regexes.GuardSufficesWithoutBoundaries`). With them it leaves empty matches
  at word boundaries (`Regexes.GuardLeavesBoundaries`), and two things can go wrong, because the code
  takes the byte before the end of a match for its last byte. An empty match at the start of a line ends
  on the line before, so that a line with no other match is lost: `\b{start}` loses `b` in ` a`, `b`
  (`Prescan.WordStartLosesLine`). For an empty match at offset 0 the code computes the offset before 0,
  which the model lets wrap, as builds without overflow checks do (others panic there); then all lines
  become candidates and later matches may add lines again, as `\b` does in `a`, `b`
  (`Prescan.WordBoundaryVisitsAgain`). `Prescan.PrescanAgreesExactly` says for every pattern and buffer
  when the hits differ.
- On empty content `group_spans_by_line` reports line 0 for an empty match although the table has no
  lines; `Spans.GroupSpansByLine` states the touched lines for that case too.
- Merged paths stay distinct exactly when the removed set covers what both sides share
  (`MergeMeaning.DistinctIffCovered`).
- A read budget of zero bounds nothing (`ReadBudget.ZeroBudgetBoundsNothing`); at a heap budget of
  `u64::MAX`, and only there, saturating sums lose the bound (`Batching.SaturationIsHarmless`,
  `Batching.BoundIsExact`). No caller gets there: they all pass 64 MiB, and the charges they make never
  saturate a block's sum at any budget (`Batching.RealSumsAreSmall`, `Batching.RealBatchesAreExact`).
- The chunked validator needs chunks of at least four bytes (`ChunkedScan.ChunkOfFourIsExact`).
- The comment on `to_source_positions` claims exact positions unless a replaced match covered repaired
  bytes. That is so (`Positions.NoRepairsNoError`) but more cautious than it need be: what matters is
  whether a match before covers a replacement of fewer than three bytes, and even then a position with
  nothing left before it is exact. `Positions.ReplacedPositions` has the exact condition,
  `Positions.ShortRepairMovesColumn` a column that is wrong.

## Model

| member | source | states |
|---|---|---|
| `OnDisk.PostingRoundTrip` | crates/tgrep-core/src/ondisk.rs:43-59 | a posting survives its six bytes |
| `OnDisk.PostingBytes` | crates/tgrep-core/src/ondisk.rs:43-49 | the six bytes are the file id, least significant byte first, and the two masks |
| `OnDisk.PostingOfBytes` | crates/tgrep-core/src/ondisk.rs:51-58 | a posting read from six bytes has their numbers |
| `OnDisk.PostingsBytesRoundTrip` | crates/tgrep-core/src/ondisk.rs:43-59 | decoding and encoding posting bytes gives the same bytes, which is why they may be copied verbatim |
| `OnDisk.LookupRoundTrip` | crates/tgrep-core/src/ondisk.rs:61-78 | a lookup entry survives its sixteen bytes |
| `OnDisk.LookupEntryBytes` | crates/tgrep-core/src/ondisk.rs:61-69 | the sixteen bytes are trigram, offset and length, each least significant byte first |
| `OnDisk.LookupEntryOfBytes` | crates/tgrep-core/src/ondisk.rs:71-77 | an entry read from sixteen bytes has their numbers |
| `OnDisk.FileBytes` | crates/tgrep-core/src/ondisk.rs:126-137 | a record is id and path length, least significant bytes first, and the path |
| `OnDisk.WriteFileEntry` | crates/tgrep-core/src/ondisk.rs:85-137 | a record is appended byte for byte, or refused exactly when its path is longer than 65535 bytes |
| `OnDisk.DecodeFileEntries` | crates/tgrep-core/src/ondisk.rs:145-170 | the loop computes the record-by-record decoding, rejections included |
| `OnDisk.FilesRoundTrip` | crates/tgrep-core/src/ondisk.rs:126-170 | decoding inverts the concatenation of written records, for every list of storable paths |
| `OnDisk.DecodeTruncated` | crates/tgrep-core/src/ondisk.rs:139-170 | cut at any length, a file decodes to a prefix of its entries exactly on record boundaries and is rejected everywhere else |
| `IndexImage.WriteFiles` | crates/tgrep-core/src/builder.rs:1069-1082 | files.bin numbers the paths by position, and fails exactly on a path that does not fit |
| `IndexImage.OffsetIsSize` | crates/tgrep-core/src/builder.rs:924-945 | in a well-formed index no length is truncated and no offset wraps: the running offset is the size of index.bin so far |
| `IndexImage.Layout` | crates/tgrep-core/src/ondisk.rs:7-20 | lookup entries hold ascending trigrams, gap-free offsets and lengths, and point at their lists; the last list ends index.bin |
| `IndexImage.LookupImageBytes` | crates/tgrep-core/src/ondisk.rs:7-20 | lookup.bin byte for byte: trigram, six times the number of postings before, and the list's length |
| `IndexImage.IndexImageBytes` | crates/tgrep-core/src/ondisk.rs:7-20 | index.bin byte for byte: all postings one after the other, six bytes each |
| `IndexImage.OpenAccepts` | crates/tgrep-core/src/reader.rs:56-118 | any three files are opened exactly when lookup.bin holds whole entries and the records number the files densely |
| `IndexImage.OpenServesRecords` | crates/tgrep-core/src/reader.rs:94-122 | a reader serves every record's path under its id |
| `IndexImage.OpenServesEntries` | crates/tgrep-core/src/reader.rs:375-398 | a reader serves every lookup entry's trigram, and its posting bytes where they all exist |
| `IndexImage.NothingToServe` | crates/tgrep-core/src/reader.rs:54-58 | with an empty lookup.bin or index.bin there are no entries |
| `IndexImage.OpenEncode` | crates/tgrep-core/src/reader.rs:24-136 | opening the written files succeeds and serves exactly the paths and lists that were written |
| `IndexImage.OpenIsAligned` | crates/tgrep-core/src/reader.rs:375-398 | whatever the files hold, posting bytes are served as whole records |
| `Query.ReadPostingEntries` | crates/tgrep-core/src/reader.rs:435-466 | for every offset and length only existing bytes are read, and all whole postings among them are returned |
| `Query.AvailableIsMost` | crates/tgrep-core/src/reader.rs:441-452 | as many postings are read as are claimed, as long as six more bytes exist |
| `Query.LookupTrigramWithMasks` | crates/tgrep-core/src/reader.rs:171-183 | the binary search stays in bounds on all files whatsoever, and on a written index returns exactly the trigram's list |
| `Query.QueryReadsMeaning` | crates/tgrep-core/src/reader.rs:162-183 | a query's answer for a file is what the index means for its path |
| `EndToEnd.MeaningIsPostings` | crates/tgrep-core/src/ondisk.rs:33-40 | an index holds masks for a file exactly when a posting under the trigram says so, field by field |
| `Merging.RemapIsBijection` | crates/tgrep-core/src/builder.rs:1326-1338 | the remap is a strictly increasing bijection from kept files onto 0..base, and the sentinel is never a live id |
| `Merging.ZipPostings` | crates/tgrep-core/src/builder.rs:1363-1407 | for every trigram the 2-way merge holds the reader's list followed by the delta's |
| `Merging.ZipAscending` | crates/tgrep-core/src/builder.rs:1363-1407 | merged trigrams stay strictly ascending |
| `Merging.VerbatimIsRemap` | crates/tgrep-core/src/builder.rs:1409-1423 | with nothing removed, taking lists over verbatim gives what the general remap gives |
| `MergeMeaning.MergePreservesWellFormedness` | crates/tgrep-core/src/builder.rs:1315-1508 | merging well-formed indexes gives a well-formed one: ascending trigrams, no empty list, ascending ids, every id a file |
| `MergeMeaning.DistinctIffCovered` | crates/tgrep-core/src/builder.rs:1308-1314 | merged paths are distinct if and only if removed paths include every path common to both sides |
| `MergeMeaning.MergeIsMapUpdate` | crates/tgrep-core/src/builder.rs:1308-1508 | a merge means (old minus removed) plus delta |
| `StreamingMerge.BuildIdMap` | crates/tgrep-core/src/builder.rs:1326-1338 | the remap loop succeeds exactly when the kept files can be counted in a u32, and yields the remap |
| `StreamingMerge.CountLive` | crates/tgrep-core/src/builder.rs:1412-1423 | the first pass rejects unknown ids and counts the surviving postings |
| `StreamingMerge.RemapBytes` | crates/tgrep-core/src/builder.rs:1452-1467 | the second pass writes the surviving postings under their new ids |
| `StreamingMerge.ShiftBytes` | crates/tgrep-core/src/builder.rs:1469-1487 | delta postings are written behind the kept files, or rejected exactly when an id names no delta file |
| `StreamingMerge.WriteTrigram` | crates/tgrep-core/src/builder.rs:1409-1491 | one trigram is written, skipped when empty, or refused exactly for unknown ids or an oversized list |
| `StreamingMerge.MergeIndexWithDelta` | crates/tgrep-core/src/builder.rs:1315-1508 | for all readers, corrupt ones included, the method fails exactly outside its acceptance condition and otherwise writes the bytes of the merged index |
| `StreamingMerge.MergeRefuses` | crates/tgrep-core/src/builder.rs:1315-1508 | for any two readers, the six reasons for which a merge is refused, and no others |
| `MergeRuns.MergeOfImages` | crates/tgrep-core/src/builder.rs:1315-1508 | on well-formed images a merge fails only when the files no longer fit a u32 |
| `MergeRuns.RunReplays` | crates/tgrep-core/src/builder.rs:1308-1508 | any run of merges over image bytes succeeds exactly when the files can be numbered all along, and ends in an index that means the replayed map |
| `Overlay.AppendOverlayToIndex` | crates/tgrep-core/src/builder.rs:1147-1306 | for all readers the append fails exactly outside its acceptance condition and otherwise writes the bytes of the appended index |
| `Overlay.AppendRefuses` | crates/tgrep-core/src/builder.rs:1147-1306 | for any reader, the five reasons for which an append is refused, and no others |
| `Overlay.AppendAgreesWithMerge` | crates/tgrep-core/src/builder.rs:1110-1306 | appending writes the same three files as merging a delta with the same postings and nothing removed; the merge's two extra checks are all that separates them |
| `Overlay.AppendIsMapUpdate` | crates/tgrep-core/src/builder.rs:1120-1146 | appending brand-new files changes nothing else and gives each exactly the trigrams whose list names it, with masks 255 and 255 |
| `Overlay.AppendOfImage` | crates/tgrep-core/src/builder.rs:1110-1306 | from image to image: appending to a written index succeeds and the result means just that |
| `Writers.WriteIndexFiles` | crates/tgrep-core/src/builder.rs:901-954 | the hash-map writer produces the bytes of the map's lists in ascending trigram order |
| `Writers.HashGroupsGood` | crates/tgrep-core/src/builder.rs:901-954 | what it writes is well formed exactly when every list of the map is, and holds each list under its trigram |
| `Writers.WriteIndexFilesFromPostings` | crates/tgrep-core/src/builder.rs:995-1067 | the nested run loop writes one group for each maximal run of a trigram and counts them |
| `Writers.FirstRun` | crates/tgrep-core/src/builder.rs:1013-1018 | a maximal run of one trigram becomes a group that holds its entries in order |
| `Writers.RunsHoldPostings` | crates/tgrep-core/src/builder.rs:1013-1032 | a posting is in its trigram's group exactly when it was pushed |
| `Writers.CountSortedTrigrams` | crates/tgrep-core/src/builder.rs:1539-1549 | the separate count equals the number of groups written |
| `Writers.RunsOfSorted` | crates/tgrep-core/src/builder.rs:1516-1520 | sorted postings group into well-formed lists |
| `Writers.SortSorts` | crates/tgrep-core/src/builder.rs:1516-1520 | the sort orders by trigram and file id and keeps exactly the postings |
| `Writers.PushFile` | crates/tgrep-core/src/builder.rs:125-148 | a file's postings are added once each, in whatever order its hash map yields them |
| `Writers.BuildInMemory` | crates/tgrep-core/src/builder.rs:1510-1537 | the in-memory build fails only on a path that does not fit, the writer's debug assertion holds, and up to u32::MAX files the image means exactly the extracted maps |
| `EndToEnd.SearchAfterRun` | crates/tgrep-core/src/builder.rs:1308-1537 | build, merge any run of updates, query: it succeeds exactly when the files can be numbered all along, and names exactly the files that hold the trigram in the replayed map, with their masks |
| `EndToEnd.Search` | crates/tgrep-core/src/reader.rs:162-188 | the files a query names on a written index are exactly those its meaning holds |
| `Batching.BatchRanges` | crates/tgrep-core/src/builder.rs:283-305 | batches are contiguous, non-empty and within the limits, the heap bound on exact sums below u64::MAX, and no partition within the exact limits has fewer |
| `Batching.BatchesAreGood` | crates/tgrep-core/src/builder.rs:283-305 | the loop's batches are within the limits it enforces, and no other partition within them has fewer |
| `Batching.GreedyStep` | crates/tgrep-core/src/builder.rs:288-297 | a file that does not fit forces one more batch on every partition |
| `Batching.LimitsAre` | crates/tgrep-core/src/builder.rs:283-300 | a batch is one file, or at most 1024 within the heap budget and 256 MiB mapped |
| `Batching.SumsAdd` | crates/tgrep-core/src/builder.rs:288-300 | the sums count every file of a batch once |
| `Batching.ChargesAre` | crates/tgrep-core/src/builder.rs:251-275 | small files are charged their size, mapped ones at most 2 MiB of heap, unknown ones a whole batch |
| `Batching.TestIsExact` | crates/tgrep-core/src/builder.rs:289-300 | the saturating test decides exactly whether the file still fits, for every state of the loop |
| `Batching.SaturationIsHarmless` | crates/tgrep-core/src/builder.rs:289-300 | saturation changes no decision about any file after any block if and only if the budget is below u64::MAX |
| `Batching.BoundIsExact` | crates/tgrep-core/src/builder.rs:283-305 | the batches the loop returns keep the exact heap bound, for every file list, if and only if the budget is below u64::MAX |
| `Batching.OverflowingBlock` | crates/tgrep-core/src/builder.rs:289-300 | at u64::MAX the smallest partition of a file of that size and one of a byte is one batch over the budget |
| `Batching.RealSumsAreSmall` | crates/tgrep-core/src/builder.rs:251-275 | the heap sum of a block of charges callers make, one file over the limit included, never saturates |
| `Batching.RealBatchesAreExact` | crates/tgrep-core/src/builder.rs:251-305 | for the charges callers make the batches keep the exact heap bound at every budget |
| `ReadBudget.StepInv` | crates/tgrep-core/src/builder.rs:362-404 | every step of every reader conserves permits and leaves sleepers only where the budget is short |
| `ReadBudget.WhatReadersBecome` | crates/tgrep-core/src/builder.rs:468-541 | where a reader can get in one step: refusal when too large, mapping only from 1 MiB on, one retry with the permit given back |
| `ReadBudget.WaitsExactlyWhenShort` | crates/tgrep-core/src/builder.rs:377-390 | an attempt waits exactly while less is available than it asks for or than the whole budget, and takes the smaller |
| `ReadBudget.RunMeans` | crates/tgrep-core/src/builder.rs:468-575 | at every point of every run: too large files never ask, no buffer outgrows the limit, and a small file is not done without a permit |
| `ReadBudget.SpuriousInv` | crates/tgrep-core/src/builder.rs:381-383 | so does a wait that returns without being notified |
| `ReadBudget.ProtocolIsSafe` | crates/tgrep-core/src/builder.rs:468-575 | at every point of every interleaving, spurious wake-ups included: permits are conserved, buffers are within capacity or one holds it all, nobody acquired more than twice, and an unfinished batch can go on by itself |
| `ReadBudget.BuffersBounded` | crates/tgrep-core/src/builder.rs:377-390 | owned buffers total at most the capacity unless a single non-empty one holds all of it |
| `ReadBudget.SomeoneCanStep` | crates/tgrep-core/src/builder.rs:496-541 | no deadlock and no lost wake-up: an unfinished batch never depends on a spurious one |
| `ReadBudget.RunsAreShort` | crates/tgrep-core/src/builder.rs:468-541 | under every schedule a batch of n readers ends within n(6n+7) steps and two more for each spurious wake-up |
| `ReadBudget.ZeroBudgetBoundsNothing` | crates/tgrep-core/src/builder.rs:377-390 | with no capacity two readers hold buffers at once |
| `ReadBudget.OwnedReadBudget.TryAcquire` | crates/tgrep-core/src/builder.rs:377-390 | one pass of the acquire loop is a step of the protocol, keeps its invariant, and the permit is the charge the reader then holds |
| `ReadBudget.OwnedReadBudget.Proceed` | crates/tgrep-core/src/builder.rs:468-541 | all other steps of the protocol leave the budget and its invariant alone |
| `ReadBudget.OwnedReadBudget.GiveBack` | crates/tgrep-core/src/builder.rs:398-404 | dropping a permit is a step of the protocol, and what it gives back never overflows |
| `Utf8.FromUtf8Accepts` | crates/tgrep-core/src/encoding.rs:258-274 | validation accepts exactly the sequences of section 4 of RFC 3629 |
| `Utf8.CharsAreScalars` | crates/tgrep-core/src/encoding.rs:258-274 | the productions of section 4 of RFC 3629 are exactly the encodings of scalar values by the bit distribution of its section 3 |
| `Utf8.FromUtf8Rejects` | crates/tgrep-core/src/encoding.rs:275-283 | a rejection reports the well-formed part and the maximal-subpart error length, absent exactly for a cut-off character |
| `ChunkedScan.ValidateUtf8AndFindNul` | crates/tgrep-cli/src/search.rs:1498-1528 | with chunks of at least four bytes the scan accepts exactly the well-formed buffers and returns the first NUL |
| `ChunkedScan.ScanCorrect` | crates/tgrep-cli/src/search.rs:1498-1528 | the same from any character boundary on, carrying split characters over |
| `ChunkedScan.ChunkOfFourIsExact` | crates/tgrep-cli/src/search.rs:1499-1519 | four is the smallest chunk size for which this holds |
| `LossyDecoding.LossyUtf8Into` | crates/tgrep-core/src/encoding.rs:258-297 | the loop computes the repaired text and, when recording, its offset table; the length assertion holds |
| `LossyDecoding.LossyUtf8Shape` | crates/tgrep-core/src/encoding.rs:303-325 | the sizing pass predicts exactly the length and the number of repairs |
| `LossyDecoding.RepairIsWellFormed` | crates/tgrep-core/src/encoding.rs:235-297 | repaired text is well formed, and unchanged exactly when the input was |
| `LossyDecoding.RepairsMaximalSubparts` | crates/tgrep-core/src/encoding.rs:235-297 | each maximal subpart of an ill-formed sequence becomes one U+FFFD and the rest is kept |
| `LossyDecoding.ToSourceOffsetInverts` | crates/tgrep-core/src/encoding.rs:175-190 | the table lookup equals the segment-by-segment inverse for every decoded offset |
| `LossyDecoding.SourceOffsetMonotone` | crates/tgrep-core/src/encoding.rs:165-190 | offsets keep their order |
| `LossyDecoding.SourceOffsetFaithful` | crates/tgrep-core/src/encoding.rs:165-190 | offsets stay in the source, replacements map to the start of their bad bytes, and every other byte to the byte it came from |
| `LossyDecoding.SourceOffsetAtEnd` | crates/tgrep-core/src/encoding.rs:165-190 | the ends of the text map to the ends of the source |
| `LossyDecoding.SourceColumns` | crates/tgrep-cli/src/search.rs:1612-1625 | mapped columns count source bytes from the start of the source line and never drop below 1 |
| `Positions.ToSourcePositions` | crates/tgrep-cli/src/search.rs:1639-1655 | columns are source distances moved by their shifts and kept 1-based, the offset is the source offset moved by its own |
| `Positions.ReplacedPositions` | crates/tgrep-cli/src/search.rs:1627-1655 | a reported column, or offset, is that of the replacement's text in the rewritten source line if and only if every replacement of bad bytes covered by the matches before stands for exactly three bytes, or nothing is left before it (for the offset: on the first line) |
| `Positions.DecodedShift` | crates/tgrep-cli/src/search.rs:1635-1638 | the shift measured on decoded text never exceeds the real one, and equals it if and only if the matches before cover only three-byte repairs |
| `LossyDecoding.SourceLength` | crates/tgrep-core/src/encoding.rs:165-190 | between character boundaries the source is never longer than the decoded text, and as long exactly when every repair there keeps the length |
| `Positions.NoRepairsNoError` | crates/tgrep-cli/src/search.rs:1635-1638 | matches that cover no repaired byte keep positions exact, as the code's comment has it |
| `Positions.ShortRepairMovesColumn` | crates/tgrep-cli/src/search.rs:1639-1655 | with the bytes FF 61 and each match replaced by one byte, the second column is reported as 1 and is 2 |
| `LossyDecoding.DecodesAs` | crates/tgrep-core/src/encoding.rs:63-105 | text starts behind U+FEFF in the encoding it announces, else a named encoding counts, else UTF-8; UTF-8 is repaired and the rest transcoded |
| `LossyDecoding.BomWins` | crates/tgrep-core/src/encoding.rs:63-80 | a byte-order mark overrides a named encoding, and without one auto mode reads UTF-8 |
| `LossyDecoding.OwnedDecodingAgrees` | crates/tgrep-core/src/encoding.rs:92-138 | owned decoding equals borrowed decoding in every mode, fixups included, and the whole-input test is exact |
| `LossyDecoding.IndexBytesAreSearchBytes` | crates/tgrep-core/src/encoding.rs:206-227 | index bytes equal search bytes if and only if the body is not both ill-formed and classified binary |
| `Lines.FindLineStarts` | crates/tgrep-cli/src/matching.rs:38-62 | the loop computes the line table |
| `Lines.StartsFacts` | crates/tgrep-cli/src/matching.rs:38-62 | the table starts at 0, ascends and holds exactly the offsets after a newline |
| `Lines.LinesStart` | crates/tgrep-cli/src/matching.rs:38-62 | lines start at 0 and behind every line feed but one that ends the buffer |
| `Lines.LineOfFacts` | crates/tgrep-cli/src/matching.rs:69-79 | line numbers follow offsets, and an offset within a line belongs to it |
| `Lines.LineTerminator` | crates/tgrep-cli/src/matching.rs:89-104 | exactly a newline, a carriage return and newline, or at the end nothing or a lone carriage return is cut off |
| `Spans.LimitToLineBlocks` | crates/tgrep-cli/src/matching.rs:141-169 | the longest prefix within the allowed number of line blocks is kept, and no line is touched by both a kept and a dropped span |
| `Spans.TouchesIsOn` | crates/tgrep-cli/src/matching.rs:194-202 | the lines a span touches are those a place of it is on |
| `Spans.OpensIsApart` | crates/tgrep-cli/src/matching.rs:141-169 | a span opens a block exactly when it shares no line with an earlier one |
| `Spans.MergeSpans` | crates/tgrep-cli/src/matching.rs:212-221 | merged ranges neither overlap nor touch, cover the same places, and meet the same, so that empty ranges are kept |
| `Spans.ClipsCover` | crates/tgrep-cli/src/matching.rs:203-207 | on a line's text the clipped spans cover just what the spans cover |
| `Spans.GroupSpansByLine` | crates/tgrep-cli/src/matching.rs:194-224 | exactly the touched lines in ascending order, each with separated ranges that cover, and meet, a place of its text exactly when some span does |
| `Spans.ClippedToLine` | crates/tgrep-cli/src/matching.rs:171-187 | clipped to its start line, a span covers just what it covers there |
| `Spans.ExpandContextWindow` | crates/tgrep-cli/src/matching.rs:226-243 | the lines printed are exactly those of the buffer within the context of some match |
| `Multiline.CollectMultiline` | crates/tgrep-cli/src/matching.rs:927-955 | find, limit, clip and group: exactly the lines the kept matches touch or start on, and every reported line shows all its matches, those the limit dropped included |
| `Regexes.CutKeepsMatches` | crates/tgrep-cli/src/matching.rs:808-821 | an anchor-free pattern matches inside a line exactly where it matches in the buffer |
| `Regexes.AssertionsMean` | crates/tgrep-cli/src/matching.rs:811-817 | what the assertions see: a word character or none on either side, and the ends of the text |
| `Regexes.CharactersMean` | crates/tgrep-cli/src/matching.rs:811-817 | a class matches one of its characters, the empty pattern nothing |
| `Regexes.SequenceDivides` | crates/tgrep-cli/src/matching.rs:811-817 | a sequence matches what divides into what its parts match |
| `Regexes.AlternativeMeans` | crates/tgrep-cli/src/matching.rs:811-817 | an alternative matches either way |
| `Regexes.PickIsTaken` | crates/tgrep-cli/src/matching.rs:295-314 | a match ends where the engine's rule says, if the pattern matches that far |
| `Regexes.StarRepeats` | crates/tgrep-cli/src/matching.rs:811-817 | a star matches what falls into pieces that its pattern matches |
| `Regexes.FindIterIsAll` | crates/tgrep-cli/src/matching.rs:295-314 | the enumeration is all matches: in order, without overlap, none empty right behind another, none left out |
| `Regexes.FindIterCovers` | crates/tgrep-cli/src/matching.rs:843-860 | wherever the pattern matches, an enumerated match covers that place, or the match picked there is empty and an enumerated one ends there |
| `Regexes.GuardLeavesBoundaries` | crates/tgrep-cli/src/matching.rs:878-882 | past the guard, empty matches are at word boundaries only |
| `Regexes.EmptyMatchSeesWords` | crates/tgrep-cli/src/matching.rs:811-817 | an empty match of an anchor-free pattern sees only the word bytes on either side |
| `Regexes.GuardSufficesWithoutBoundaries` | crates/tgrep-cli/src/matching.rs:878-891 | for patterns without word assertions the guard leaves only non-empty matches |
| `Prescan.SkippedExactly` | crates/tgrep-cli/src/matching.rs:854-891 | a matching line is either taken in by an enumerated match or skipped: the match picked at its start is empty, none starts later on it, none crosses its start |
| `Prescan.SkippedStartsWord` | crates/tgrep-cli/src/matching.rs:878-891 | past the guard, skipped lines start with a word, and the pattern matches emptily before a word but not after one |
| `Prescan.CandidatesHold` | crates/tgrep-cli/src/matching.rs:861-901 | unless the first match is empty and at offset 0, candidates are exactly the lines enumerated matches take in, strictly ascending |
| `Prescan.PrescanLoses` | crates/tgrep-cli/src/matching.rs:904-998 | unless the first match is empty and at offset 0, prescan and line-by-line matching differ if and only if a skipped line comes before the limit is reached |
| `Prescan.PrescanFindsTheRest` | crates/tgrep-cli/src/matching.rs:904-998 | what the prescan then finds is what line-by-line matching finds on the lines not skipped |
| `Prescan.WrappedPrescan` | crates/tgrep-cli/src/matching.rs:884-900 | after an empty match at offset 0 they differ if and only if the limit is not reached and later matches take in a matching line and a line before the last |
| `Prescan.PrescanAgreesExactly` | crates/tgrep-cli/src/matching.rs:861-998 | for every anchor-free pattern past the guard, every buffer, limit and span setting: prescan and line-by-line matching agree if and only if the prescan neither loses a line nor visits lines again |
| `Prescan.PrescanAgreesOnNonEmptyMatches` | crates/tgrep-cli/src/matching.rs:861-998 | they agree for every pattern whose matches are all non-empty |
| `Prescan.PlainBoundariesLoseNothing` | crates/tgrep-cli/src/matching.rs:861-998 | patterns with no one-sided word assertion lose no line |
| `Prescan.CollectHits` | crates/tgrep-cli/src/matching.rs:952-998 | whichever path is taken, every hit lists all matches of its line, or the first when no more are asked for; and unless the prescan strays the hits are exactly the matching lines up to the limit or the stop |
| `Prescan.LineByLineFinds` | crates/tgrep-cli/src/matching.rs:958-998 | line-by-line matching finds the matching lines in order, up to the limit or, with stop-on-nonmatch, to the first line without a match after a hit |
| `Prescan.WordStartLosesLine` | crates/tgrep-cli/src/matching.rs:878-891 | the start of a word passes the guard and loses a line of a two-line buffer, whatever characters are words |
| `Prescan.WordBoundaryVisitsAgain` | crates/tgrep-cli/src/matching.rs:878-891 | a word boundary passes the guard, and its hits on a two-line buffer are repeated |
| `Replace.ReplaceAll` | crates/tgrep-cli/src/matching.rs:339-356 | the loop computes the rewritten line and where each replacement lands |
| `Replace.RunningShifts` | crates/tgrep-cli/src/matching.rs:680-703 | the running shift of a match is the length change of the matches before it |
| `Replace.ShiftsAreDisplacements` | crates/tgrep-cli/src/matching.rs:680-737 | column plus shift is the replacement's real column on both reporting paths, and its text is there |
| `Replace.UndoRestoresLine` | crates/tgrep-cli/src/matching.rs:339-356 | undoing the replacements at their reported spans restores the line |
| `Flowchart.AddNodeInv` | crates/mermaid-parser/src/parser.rs:5275-5303 | a node joins the open subgraphs only if its holders stay one chain of the nesting tree |
| `Flowchart.RunInv` | crates/mermaid-parser/src/parser.rs:346-466 | at every point of every run the holders of a node are none or exactly one root-to-descendant chain, lists have no duplicates and edges join nodes |
| `Flowchart.UnrelatedAreDisjoint` | crates/mermaid-parser/src/parser.rs:5283-5303 | subgraphs that are not nested share no node |
| `Flowchart.ChildWithinParent` | crates/mermaid-parser/src/parser.rs:5283-5303 | a subgraph's nodes are contained in its parent's |
| `Flowchart.SubgraphsOfRun` | crates/mermaid-parser/src/parser.rs:346-466 | after any run two subgraphs share a node only if the earlier one encloses the later, and then all of the later one's nodes |
| `Flowchart.FlowchartParser.AddNodeToSubgraphs` | crates/mermaid-parser/src/parser.rs:5275-5303 | the loop adds the node to every open subgraph, or to none when it is claimed elsewhere |
| `FlowchartMeaning.StepMeans` | crates/mermaid-parser/src/parser.rs:354-462 | what one statement does: which nodes end up in which subgraphs, which edges are drawn, which subgraphs are open |
| `FlowchartMeaning.MembersFollow` | crates/mermaid-parser/src/parser.rs:5283-5303 | at every point of every run, a named node is then in exactly the open subgraphs unless none is open or another one holds it; all other nodes stay |
| `FlowchartMeaning.MembersInOrder` | crates/mermaid-parser/src/parser.rs:5283-5303 | new members come last, in reading order |
| `FlowchartMeaning.FirstNamedJoins` | crates/mermaid-parser/src/parser.rs:5283-5303 | a node first named where subgraphs are open ends up in all of them |
| `FlowchartMeaning.NamedOutside` | crates/mermaid-parser/src/parser.rs:5283-5303 | a node named only outside subgraphs is in none |
| `FlowchartMeaning.OpenSubgraphs` | crates/mermaid-parser/src/parser.rs:367-390 | a subgraph is open exactly while its opening has no matching `end` |
| `FlowchartMeaning.ParentIsInnermost` | crates/mermaid-parser/src/parser.rs:372-384 | a subgraph's parent is the innermost one open where it opens |
| `FlowchartMeaning.ProductMembers` | crates/mermaid-parser/src/parser.rs:496-512 | an edge is drawn exactly when it leads from a source to a target |
| `FlowchartMeaning.ProductSize` | crates/mermaid-parser/src/parser.rs:496-512 | each source is joined once to each target |
| `FlowchartMeaning.RunDraws` | crates/mermaid-parser/src/parser.rs:346-466 | the nodes of a run are those named and its edges those drawn, in order |
| `FlowchartMeaning.RunFailsOnMalformed` | crates/mermaid-parser/src/parser.rs:428-456 | a run fails exactly on a malformed statement |
| `Flowchart.FlowchartParser.AddFlowchartEdge` | crates/mermaid-parser/src/parser.rs:468-515 | endpoints become nodes and members, and every source is joined to every target |
| `Flowchart.FlowchartParser.Feed` | crates/mermaid-parser/src/parser.rs:354-462 | one statement changes the graph as specified and keeps the invariant, stray `end` included |
| `Flowchart.ParseFlowchart` | crates/mermaid-parser/src/parser.rs:346-466 | the parse fails exactly on an invalid edge and otherwise yields the run's graph |
| `SequenceDiagram.StepFrames` | crates/mermaid-parser/src/parser.rs:5017-5137 | every line keeps sections gap-free and each closed frame before, or within one section of, the frames that close after it |
| `SequenceDiagram.StepNames` | crates/mermaid-parser/src/parser.rs:4994-5251 | every line keeps participants distinct and everything it names a participant that is a node |
| `SequenceMeaning.DiagramMeans` | crates/mermaid-parser/src/parser.rs:4973-5273 | a diagram line by line: every message from its sender to its receiver, notes and activations at the messages before them, participants in order of first mention, frames and boxes as below |
| `SequenceMeaning.RunAppends` | crates/mermaid-parser/src/parser.rs:5142-5251 | at every point of every run, messages, notes and activations are those of the lines so far, each at its number |
| `SequenceMeaning.RunNames` | crates/mermaid-parser/src/parser.rs:4994-5012 | the participants are those named so far, each once, in order of first mention |
| `SequenceMeaning.FinishedFrames` | crates/mermaid-parser/src/parser.rs:5023-5137 | one frame for each opening line, closed by its matching `end` or the end of the input; its start, cuts and end count the messages before those lines |
| `SequenceMeaning.FinishedBoxes` | crates/mermaid-parser/src/parser.rs:5005-5020 | one box for each opening line, with the participants declared directly in it, in order |
| `SequenceDiagram.FinishedDiagram` | crates/mermaid-parser/src/parser.rs:4973-5273 | in every finished diagram sections tile their frames, of any two frames the one closed first lies before the other or within a single section of it, indices stay within the messages, and edges, notes, activations and boxes name participants |
| `SequenceDiagram.SequenceParser.Feed` | crates/mermaid-parser/src/parser.rs:4985-5252 | one line changes the diagram as specified |
| `SequenceDiagram.SequenceParser.CloseAll` | crates/mermaid-parser/src/parser.rs:5254-5267 | what the input left open is closed at the end, innermost first |
| `SequenceDiagram.ParseSequenceDiagram` | crates/mermaid-parser/src/parser.rs:4973-5273 | the parser yields the finished diagram of the run |

## Left out

- Filesystem work, memory maps, thread scheduling, metadata files, stamps and walking: input and output; only byte images and read outcomes are modelled.
- Write buffering in fixed chunks (`POSTING_WRITE_CHUNK_ENTRIES`, `LOOKUP_WRITE_CHUNK_ENTRIES`): the sinks receive the same bytes in the same order.
- Overflow of the `u64` offset in builds with overflow checks, which would panic instead of wrapping: proved impossible for well-formed indexes.
- The external sorter and its spill segments: another way to the same sorted postings.
- Trigram extraction and query planning: the extracted map of each file is an input.
- Prescan.CollectHits: patterns that mix word assertions of different word classes, as `(?-u:\b)` beside `\b`, are not modelled; one class serves a whole pattern.
- The regex engines, the backtracking fallback with its prefilter, and the textual scan for anchors: patterns are syntax trees.
- Inverted matching and output printing: thin combinations of the modelled parts.
- Transcoding from other encodings: a parameter that yields strings.
- Mermaid regular expressions, labels, styling, directions and the other diagram kinds: string splitting.
- Server, command line and configuration: plumbing.
