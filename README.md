# slamdunk read filter, modelled in Dafny

This project models the read filter of slamdunk (`slamdunk/dunks/filter.py`)
together with the file-name, lookup and freshness helpers it relies on
(`slamdunk/utils/misc.py` and the older copy in `slamdunk/dunks/utils.py`).

The filter reads a stream of alignments. It works in one of two modes:

- **Default mode** (no BED file). It writes every mapped alignment whose
  mapping quality is at least `MQ` and which passes the identity (`XI`) and
  edit-distance (`NM`) filters.
- **Multimap retention mode** (a BED file of 3' UTRs). It builds a
  per-chromosome interval index from the BED records. It writes every
  alignment with positive mapping quality that passes the filters. It
  buffers the multimapping alignments (mapping quality 0) of each read,
  grouped by the UTRs they overlap. When the group is closed (by the next
  read or by the end of the stream) and every alignment after the first
  hit only UTRs already hit, it picks one of the UTRs at random and writes
  the last of the group's alignments that overlapped it, tagged `RD` with
  the loci of the group. Because the buffer of a group that fails this test is
  not cleared (see "Buffer clearing" below), an alignment of such a read
  can still be written later, tagged with the next read's loci.

In both modes the filter counts mapped and unmapped primary alignments and
the records it wrote. The default mode counts only the primary records it
wrote (`slamdunk/dunks/filter.py:219-220`); the retention mode counts every
record it wrote. It stores these counts as a `DS` description in the first
read group of the output header.

Layout, one module per file:

| file | module | models |
|---|---|---|
| `wrappers.dfy` | `Wrappers` | `Option` and `Result` |
| `strings.dfy` | `Strings` | `str()` of a natural number, `" ".join`, `rstrip`, and the substring test `in` |
| `os_path.dfy` | `OsPath` | `os.path.splitext` |
| `misc.dfy` | `Misc` | `slamdunk/utils/misc.py`: `replaceExtension`, `removeExtension`, `complement`, `matchFile`, `getSampleName`, `files_exist`, `checkStep` |
| `dunk_utils.dfy` | `DunkUtils` | `slamdunk/dunks/utils.py`: `replaceExtension`, `removeExtension`, `files_exist`, `checkStep` |
| `alignments.dfy` | `Alignments` | the alignment record, the first-pass filters, the mapped and unmapped tallies |
| `interval_index.dfy` | `IntervalIndex` | `bedToIntervallTree` and the overlap query |
| `retention.dfy` | `Retention` | the retention engine as a state machine over values: `Step`, `Flush`, `EndOfStream`, `Steps` |
| `retention_props.dfy` | `RetentionProps` | what the engine does to a stream, to a read group, and where its output comes from |
| `engine.dfy` | `Engine` | the engine as a class whose fields are the locals of `multimapUTRRetainment`, with methods proved against `Retention` |
| `filtering.dfy` | `Filtering` | `Filter`: the freshness check, the default filter loop, the `DS` summary and the header update |

Modelling choices:

- **File system.** It is a map from the paths that exist to their
  modification times (`Misc.FileSystem`).
- **Exceptions.** These become `Result` errors:
  - a missing input, or `inFiles[0]` / `outFiles[0]` on an empty list, in `checkStep`;
  - a second match in `matchFile`;
  - a null interval in the interval tree;
  - a character outside `ACGTN` in `complement` gives `None`.
- **Interval tree.** The library behaviour assumed is:
  - an interval whose end does not exceed its begin raises `ValueError`;
  - adding an interval the tree already holds changes nothing;
  - the slice `tree[begin:end]` returns the intervals `iv` with `iv.begin < end` and `iv.end > begin`, and nothing when `begin >= end`.
- **Bucket choice.** `random.choice` over the buckets is a free choice:
  - the specification functions take a ghost `pick`;
  - the engine's `DumpBufferToBam` picks with `:|`;
  - every property holds for every choice.
- **`multimapList`.** The engine keeps the Python string. A ghost sequence of
  locus tokens sits beside it, and `Engine.RetentionEngine.Valid` ties the
  two together. The `RD` value, `rstrip(" ")` of the string, equals the
  tokens joined by single spaces (`Strings.RStripTerminated`).
- **Buffer clearing.** When a multimapper of a new read arrives and the
  pending group is not retainable, the code clears only `dumpBuffer` and
  `multimapList`. It does not clear the buffer, because the buffer is reset
  only inside the dump branch (`slamdunk/dunks/filter.py:103-116`). A plain
  description of the filter would say the buffer is reset at every change
  of read. The model follows the code:
  - `RetentionProps.SuppressedBucketsSurvive` states the behaviour;
  - `RetentionProps.StaleRecordEmitted` and
    `RetentionProps.StaleRecordExample` show its consequence: an alignment
    of a read that was marked not retainable is written when the next read
    has no alignment in a UTR.

## Model

| member | source | states |
|---|---|---|
| Strings.NatToString | slamdunk/dunks/filter.py:152 | `str(n)` is a non-empty string of decimal digits that starts with `0` only for 0 |
| Strings.NatToStringRoundTrip | slamdunk/dunks/filter.py:232 | the digits `str(n)` writes read back as `n` |
| Strings.RStrip | slamdunk/dunks/filter.py:55 | `rstrip(c)` is a prefix not ending in `c`, and everything it removed was `c` |
| Strings.RStripTerminated | slamdunk/dunks/filter.py:152 | appending `token + " "` per locus and then stripping trailing spaces gives the loci joined by single spaces |
| OsPath.SplitExt | slamdunk/utils/misc.py:35 | root + extension is the path; the extension is empty or a dot followed by no dot and no `/`; a non-empty extension leaves a basename that is not all dots |
| OsPath.SplitExtOfJoin | slamdunk/utils/misc.py:35 | a root with a proper basename followed by an extension splits back into exactly that root and extension |
| Misc.ReplaceExtension | slamdunk/utils/misc.py:32-35 | the input up to its extension is kept, then the suffix verbatim, and the name ends in the new extension; `Misc.ReplaceExtensionRoundTrip` shows how it splits again |
| Misc.RemoveExtension | slamdunk/utils/misc.py:38-43 | the result is a prefix of the name, and equals it exactly when the name has no extension; the lemmas below say how much is removed |
| Misc.ReplaceExtensionRoundTrip | slamdunk/utils/misc.py:32-35 | the new name splits into the old root followed by the suffix verbatim, and the new extension |
| Misc.RemoveExtensionStripsOne | slamdunk/utils/misc.py:38-43 | one extension other than `.gz` is removed and nothing more |
| Misc.RemoveExtensionStripsGz | slamdunk/utils/misc.py:38-43 | `.gz` is removed together with the extension before it |
| Misc.RemoveExtensionBareGz | slamdunk/utils/misc.py:38-43 | `.gz` on a name with no other extension leaves that name |
| Misc.Complement | slamdunk/utils/misc.py:235-239 | defined exactly when every character is one of A, C, G, T, N; then of the same length, pairing A-T, C-G, N-N at every position |
| Misc.ComplementInvolution | slamdunk/utils/misc.py:235-239 | on strings over ACGTN, complementing twice gives back the string |
| Misc.MatchFile | slamdunk/utils/misc.py:224-233 | `None` iff no file contains the sample; an error iff two or more do; otherwise the one file that contains it |
| Misc.GetSampleName | slamdunk/utils/misc.py:214-222 | without a table, the name without its extension; otherwise the value of the first key contained in the name, or `None` when no key is |
| Misc.FilesExist | slamdunk/utils/misc.py:49-57 | true iff every listed path exists (so true for the empty list), or iff the single path exists |
| Misc.LatestMtime | slamdunk/utils/misc.py:74-76 | the maximum modification time of the inputs |
| Misc.EarliestMtime | slamdunk/utils/misc.py:78-81 | the minimum modification time of the outputs |
| Misc.CheckStep | slamdunk/utils/misc.py:70-93 | error on a missing input or an empty input list; otherwise false exactly when there are outputs, all exist, each is newer than every input, and `force` is off |
| DunkUtils.ReplaceExtension | slamdunk/dunks/utils.py:12-13 | the input up to its extension is kept, then the suffix verbatim, and the name ends in the new extension |
| DunkUtils.RemoveExtension | slamdunk/dunks/utils.py:16-17 | the result is a prefix of the name, and equals it exactly when the name has no extension |
| DunkUtils.ReplaceExtensionAgrees | slamdunk/dunks/utils.py:12-13 | this copy of `replaceExtension` computes the same name as the general one |
| DunkUtils.RemoveExtensionStripsOne | slamdunk/dunks/utils.py:16-17 | exactly one extension is removed, `.gz` included |
| DunkUtils.RemoveExtensionKeepsInnerExtension | slamdunk/dunks/utils.py:16-17 | on `base.ext.gz` this copy leaves `base.ext` where the general one leaves `base` |
| DunkUtils.FilesExist | slamdunk/dunks/utils.py:19-27 | true iff every listed path exists, or iff the single path exists |
| DunkUtils.CheckStep | slamdunk/dunks/utils.py:40-63 | as the general `checkStep`, except that an empty output list raises instead of giving true |
| Alignments.PassesGate | slamdunk/dunks/filter.py:92-97 | the first-pass filters: mapped, `XI` not below `minIdentity`, and `NM` at most `NM` when `NM > -1`; `RetentionProps.GateRejectOnlyTallies` proves what a failing record does |
| Alignments.Tally | slamdunk/dunks/filter.py:85-89 | a primary alignment adds one to exactly one of mapped and unmapped; a secondary or supplementary one adds to neither |
| Alignments.TallyCounts | slamdunk/dunks/filter.py:84-89 | tallying one more record keeps the counters equal to the mapped and unmapped primaries of the stream so far |
| Alignments.MappedPlusUnmappedIsPrimary | slamdunk/dunks/filter.py:232 | mapped + unmapped, the reported `sequenced`, is the number of primary alignments |
| IntervalIndex.Insert | slamdunk/dunks/filter.py:44-47 | creates the chromosome's collection when absent and adds `[start, stop + 1)` named by the record, leaving other chromosomes and earlier intervals in place and adding no duplicate |
| IntervalIndex.InsertKeys | slamdunk/dunks/filter.py:44-45 | after an insertion the index has exactly the chromosomes of the records inserted |
| IntervalIndex.InsertHoldsAll | slamdunk/dunks/filter.py:47 | every inserted record's interval is in the index |
| IntervalIndex.InsertHoldsOnly | slamdunk/dunks/filter.py:47 | every interval in the index comes from an inserted record of that chromosome |
| IntervalIndex.InsertIndexes | slamdunk/dunks/filter.py:42-47 | one loop pass extends an index of the first k records to one of the first k + 1 |
| IntervalIndex.InsertRecords | slamdunk/dunks/filter.py:42-47 | the loop indexes every record up to the first null interval, and stops there |
| IntervalIndex.BedToIntervalTree | slamdunk/dunks/filter.py:39-49 | an error iff some record gives a null interval, naming the first such record; otherwise the index holds exactly the records' intervals under their chromosomes, without duplicates |
| IntervalIndex.OverlapNames | slamdunk/dunks/filter.py:124 | a name is reported iff some interval carrying it overlaps the span |
| IntervalIndex.Query | slamdunk/dunks/filter.py:123-126 | a chromosome absent from the index gives no hit; otherwise a name is reported iff the span is non-empty and an interval carrying the name overlaps it |
| IntervalIndex.QueryFindsRecord | slamdunk/dunks/filter.py:123-126 | a stored BED record is reported for every span that meets `[start, stop]` |
| Retention.Locus | slamdunk/dunks/filter.py:152 | the locus token is non-empty and does not end in a space |
| Retention.RdValue | slamdunk/dunks/filter.py:55 | the `RD` value is `rstrip(" ")` of the concatenated locus string |
| Retention.InitialInv | slamdunk/dunks/filter.py:76-81 | the initial locals satisfy the engine invariant |
| Retention.ChooseKey | slamdunk/dunks/filter.py:53 | the chosen bucket exists, and is the requested one when that exists |
| Retention.FlushWritesLastOfBucket | slamdunk/dunks/filter.py:51-56 | a flush writes one record, the last of the chosen bucket (the picked one when it exists), removes it from that bucket, tags it with the joined loci, and leaves every other field of the state as it was |
| Retention.Flush | slamdunk/dunks/filter.py:51-56 | `dumpBufferToBam` on values; `Retention.FlushWritesLastOfBucket` proves what it writes and what it leaves alone |
| Retention.AddHits | slamdunk/dunks/filter.py:128-143 | the hit loops on values; `Retention.AddHitsKeys`, `Retention.AddHitsDump`, `Retention.AddHitsGains` and `Retention.AddHitsContents` prove its buckets, its flag and exactly what each bucket gains |
| Retention.AddHitsKeys | slamdunk/dunks/filter.py:128-143 | afterwards the buckets are the old ones plus one per reported name |
| Retention.AddHitsDump | slamdunk/dunks/filter.py:128-143 | `dumpBuffer` survives unless the buffer was non-empty and some reported name had no bucket |
| Retention.AddHitsGains | slamdunk/dunks/filter.py:128-143 | every bucket afterwards is its old contents followed by as many copies of the new record as its region was reported |
| Retention.AddHitsContents | slamdunk/dunks/filter.py:128-143 | a bucket whose region is not reported is unchanged; every bucket is its old contents followed by one copy of the new record per report of its region; every buffered record is the new one or was there; no bucket becomes empty |
| Retention.AddHitsFacts | slamdunk/dunks/filter.py:128-143 | the keys, the flag, and that buckets only grow by the new record, together, as the step lemmas use them |
| Retention.CloseGroup | slamdunk/dunks/filter.py:100-116 | closing a group keeps the engine invariant |
| Retention.AddMultimapper | slamdunk/dunks/filter.py:122-154 | buffering a multimapper and recording its locus keeps the engine invariant |
| Retention.Multimapper | slamdunk/dunks/filter.py:98-154 | a multimapper keeps the engine invariant: no empty bucket, a cleared flag only with a non-empty buffer, well-formed loci |
| Retention.UniqueMapper | slamdunk/dunks/filter.py:155-175 | a unique mapper keeps the engine invariant |
| Retention.Step | slamdunk/dunks/filter.py:84-175 | one pass of the loop as written keeps the engine invariant |
| Retention.Steps | slamdunk/dunks/filter.py:84-176 | the whole loop keeps the engine invariant |
| RetentionProps.StepsCounts | slamdunk/dunks/filter.py:85-89 | over a stream the counters grow by its mapped and unmapped primary alignments, whatever the filters decide |
| RetentionProps.StepTallies | slamdunk/dunks/filter.py:85-89 | a pass changes the counters only by tallying its record |
| RetentionProps.StepAppends | slamdunk/dunks/filter.py:155-175 | a pass only appends to the output, and `filteredReads` grows by what it appends |
| Retention.EndOfStream | slamdunk/dunks/filter.py:179-181 | the final dump on values; `RetentionProps.EndOfStreamAppends` and `RetentionProps.GroupEmission` prove what it writes |
| RetentionProps.EndOfStreamAppends | slamdunk/dunks/filter.py:179-181 | the final dump writes one record exactly when the group is retainable and the buffer is non-empty, counted in `filteredReads` |
| RetentionProps.StepsAppend | slamdunk/dunks/filter.py:84-176 | over a stream the output only grows, and `filteredReads` grows by the number of records written |
| RetentionProps.GateRejectOnlyTallies | slamdunk/dunks/filter.py:92-97 | a record failing the first-pass filters is tallied and changes nothing else: not written, buffer, flag, loci and `prevRead` untouched |
| RetentionProps.UniqueMapperWritten | slamdunk/dunks/filter.py:155-175 | a passing unique mapper is written once, after one record of a retainable non-empty group; the buffer ends empty; `filteredReads` counts both writes |
| RetentionProps.MultimapperSameRead | slamdunk/dunks/filter.py:128-154 | another alignment of the buffered read: nothing written; the locus appended; buckets = old + hit names; the group stays retainable iff it was and, when the buffer held hits, no hit name is new |
| RetentionProps.MultimapperSameReadBuckets | slamdunk/dunks/filter.py:128-143 | another alignment of the buffered read ends up last in the bucket of every region it hits; the other buckets are unchanged |
| RetentionProps.MultimapperClosesRetainedGroup | slamdunk/dunks/filter.py:100-108 | a new read after a retainable group: one record of that group is written and the buffer restarts with this alignment's hits |
| RetentionProps.SuppressedBucketsSurvive | slamdunk/dunks/filter.py:100-116 | a new read after a group that is not dumped: nothing written, flag and loci reset, the old buckets kept, and the new hits checked against them |
| RetentionProps.MultimapperOnIdle | slamdunk/dunks/filter.py:128-134 | a multimapper on an empty buffer creates a bucket per hit name holding just it, and keeps the group retainable |
| RetentionProps.GroupKeys | slamdunk/dunks/filter.py:128-143 | a region is a group key iff some alignment of the group hits it |
| RetentionProps.LastHit | slamdunk/dunks/filter.py:128-143 | the index of the group's last alignment that hits a region: it hits it and no later alignment does, or -1 when none does |
| RetentionProps.GroupStart | slamdunk/dunks/filter.py:128-134 | the first alignment of a read, between groups, starts the buffered group |
| RetentionProps.GroupExtend | slamdunk/dunks/filter.py:128-154 | a further alignment of the read extends the buffered group |
| RetentionProps.StepTop | slamdunk/dunks/filter.py:128-143 | after one more alignment of the read every bucket still ends with the group's last alignment that hit its region |
| RetentionProps.GroupStep | slamdunk/dunks/filter.py:98-154 | one more alignment of the read extends the buffered group |
| RetentionProps.GroupBuffered | slamdunk/dunks/filter.py:98-154 | after one read's multimappers the buckets are exactly the regions hit, each ending with the last alignment that hit it; the group is retainable iff every alignment after the first hit only regions already hit; nothing is written |
| RetentionProps.EmitBufferedRecord | slamdunk/dunks/filter.py:179-181 | the final dump of a retainable group writes one record with the read's name, tagged with the joined loci: the last alignment that hit the chosen region (the picked one when buffered) |
| RetentionProps.EmitBuffered | slamdunk/dunks/filter.py:179-181 | the final dump of a buffered group writes what the next lemma states |
| RetentionProps.GroupEmission | slamdunk/dunks/filter.py:179-181 | a group ending the stream writes exactly one record iff it hit a region and is consistent: with its name, tagged with all its loci, and a copy of its last alignment that hit the chosen region (the picked one when the group hit it) |
| RetentionProps.FlushFrom | slamdunk/dunks/filter.py:51-56 | a flush writes a tagged copy of a buffered record |
| RetentionProps.StepBuffersOnly | slamdunk/dunks/filter.py:128-175 | a pass over a passing record leaves in the buffer only that record and what was buffered before |
| RetentionProps.StepWritesFrom | slamdunk/dunks/filter.py:98-175 | a pass over a passing record writes only it or tagged copies of buffered records |
| RetentionProps.StepFrom | slamdunk/dunks/filter.py:84-175 | a pass writes and buffers only passing records of the stream read so far |
| RetentionProps.StepsFrom | slamdunk/dunks/filter.py:84-176 | over a stream, every record written is a passing record of the stream, up to its `RD` tag |
| RetentionProps.EndOfStreamFrom | slamdunk/dunks/filter.py:179-181 | the final dump writes only a tagged copy of a buffered record |
| RetentionProps.OutputFromInput | slamdunk/dunks/filter.py:63-184 | every record of the retention filter's output is an input alignment that passed the first-pass filters, possibly tagged `RD` |
| RetentionProps.StepKeepsWritten | slamdunk/dunks/filter.py:155-175 | a pass keeps every record written so far and writes a passing unique mapper |
| RetentionProps.StepsWriteUniques | slamdunk/dunks/filter.py:84-176 | every passing unique mapper of the stream is written by the end of the loop |
| RetentionProps.StepsKeepUniques | slamdunk/dunks/filter.py:172-175 | every passing unique mapper of the stream is in the output |
| RetentionProps.StaleRecordEmitted | slamdunk/dunks/filter.py:100-116 | after a group that is not dumped, a next read whose first alignment hits nothing makes the final dump write an alignment of the previous read, tagged with the new read's locus |
| RetentionProps.ExampleHits | slamdunk/dunks/filter.py:123-126 | the three example alignments hit A, B, and nothing |
| RetentionProps.ExampleFirst | slamdunk/dunks/filter.py:128-134 | after the first alignment of q1 the buffer holds only it, under A, and nothing is written |
| RetentionProps.ExampleSuppressed | slamdunk/dunks/filter.py:136-141 | after read q1 hits A and then B, nothing is written, the flag is cleared, and every buffered alignment is of q1 |
| RetentionProps.StaleRecordExample | slamdunk/dunks/filter.py:100-116 | read q1 over A and B, then read q2 outside both: the output is one alignment of q1 |
| Engine.RetentionEngine.constructor | slamdunk/dunks/filter.py:65-81 | the locals start as the specification's initial state |
| Engine.RetentionEngine.DumpBufferToBam | slamdunk/dunks/filter.py:51-56 | pops the last record of some bucket, tags it with `rstrip(" ")` of the locus string, writes it: the specification's `Flush` |
| Engine.RetentionEngine.RecordFirstHits | slamdunk/dunks/filter.py:130-134 | the first-hit loop computes `AddHits` without touching `dumpBuffer` |
| Engine.RetentionEngine.RecordMoreHits | slamdunk/dunks/filter.py:136-143 | the later-hit loop computes `AddHits` with new buckets clearing `dumpBuffer` |
| Engine.RetentionEngine.CloseGroup | slamdunk/dunks/filter.py:100-116 | closes the pending group as the specification's `CloseGroup` |
| Engine.RetentionEngine.ConsumeMultimapper | slamdunk/dunks/filter.py:98-154 | a passing multimapper updates the locals as `Multimapper` says |
| Engine.RetentionEngine.AddMultimapper | slamdunk/dunks/filter.py:122-154 | queries the index, runs the hit loops and appends the locus, as the specification's `AddMultimapper` |
| Engine.RetentionEngine.ConsumeUniqueMapper | slamdunk/dunks/filter.py:155-175 | a passing unique mapper updates the locals as `UniqueMapper` says |
| Engine.RetentionEngine.Consume | slamdunk/dunks/filter.py:84-175 | one pass of the loop is `Step` of the old state and keeps the invariant |
| Engine.RetentionEngine.ConsumeAll | slamdunk/dunks/filter.py:84-176 | the loop over the stream is `Steps` of the old state |
| Engine.RetentionEngine.DumpLast | slamdunk/dunks/filter.py:179-181 | the dump after the loop is `EndOfStream` |
| Engine.MultimapUTRRetainment | slamdunk/dunks/filter.py:63-184 | an error iff a BED record is null; otherwise mapped and unmapped count the stream's primaries, `filtered` is the number of records written, every written record is a passing input alignment, every passing unique mapper is written, and the output is exactly what `Retention.Steps` followed by `Retention.EndOfStream` writes over an index of the BED records, for some bucket choices |
| Filtering.SimpleSelection | slamdunk/dunks/filter.py:210-221 | the records the default filter writes; `Filtering.SimpleSelectionMembers` and `Filtering.SimpleSelectionLength` prove which ones |
| Filtering.SimpleSelectionMembers | slamdunk/dunks/filter.py:210-221 | the default filter writes a record iff it is mapped, has mapping quality at least `MQ`, and passes the XI and NM filters |
| Filtering.SimpleSelectionLength | slamdunk/dunks/filter.py:210-221 | the default filter writes at most as many records as it reads, and all of them iff every record is kept |
| Filtering.SimpleFilter | slamdunk/dunks/filter.py:202-221 | the loop writes the default selection in order; mapped and unmapped count the primaries; `filteredReads` counts the primary records written |
| Filtering.Summary | slamdunk/dunks/filter.py:232 | the `DS` text; `Filtering.SummaryRoundTrip` proves that it reads back as its three counts |
| Filtering.ParseSummary | slamdunk/utils/misc.py:190-195 | reading the `DS` text back into its three counts, as `getReadCount` does; `Filtering.SummaryRoundTrip` is its partner |
| Filtering.SummaryRoundTrip | slamdunk/dunks/filter.py:232 | the `DS` text `{'sequenced':S,'mapped':M,'filtered':F}` reads back as S = mapped + unmapped, M and F |
| Filtering.WithSummary | slamdunk/dunks/filter.py:230-232 | without read groups the header is unchanged; otherwise only the first read group's `DS` is set, and all other keys and groups stay |
| Filtering.SingleFile | slamdunk/dunks/filter.py:188 | the freshness check on one input and one output compares the two files directly |
| Filtering.Filter | slamdunk/dunks/filter.py:187-232 | skipped iff not `printOnly`, both files exist, the output is newer and `force` is off; a missing input fails; a null BED record fails; otherwise the default selection, or exactly the retention engine's output over an index of the BED records, with the counts in the header |

## Left out

- Opening, closing and writing BAM files, the log messages, and header copying are left out. Written records are appended to a sequence, and the header is reduced to its read groups.
- `bamSort`, `pysamIndex` and the `samtools` invocations are left out: they are external tools working on the file system.
- `run`, `callR`, `shell`, `shellerr`, `getchar`, `getBinary`, `getPlotter`, `runIndexBam` and `runFlagstat` are left out: they are subprocesses, standard input, environment variables and installation paths.
- `estimateMaxReadLength`, `countReads`, `readSampleNames` and `getReadCount` are left out: they read BAM and CSV files. `Filtering.ParseSummary` plays the role of reading the `DS` text back.
- `removeFile` is left out, together with the real `os.path.exists` and `getmtime`. Existence and modification times are the parameter `fs`.
- `BedIterator` parsing is left out. BED records arrive already parsed.
- The interval tree's internals are left out. Only the overlap relation and the assumed library behaviour listed above are modelled.
- IntervalIndex.Query: the tree returns a set whose iteration order the model does not know. The model reports names in insertion order. No property proved depends on that order.
- Alignments.Record: the `XI` tag is a float in the source. It is a real number here, and its comparison with `minIdentity` carries no rounding.
- Alignments.Record: missing `XI` or `NM` tags would raise `KeyError` in the source. Every record carries both, so that error is not modelled.
- Default arguments are not modelled: `MQ = 2`, `minIdentity = 0.8` and `NM = -1` of `Filter`, `suffix = ""` of `replaceExtension`, and `force = False` of `checkStep` are explicit parameters that every caller passes.
- Retention.ChooseKey: `random.choice` is modelled as an arbitrary choice of bucket. Its probability distribution is not modelled.
- Misc.GetSampleName: the dict's iteration order is modelled as the order of a sequence of pairs.
- Misc.FileSystem: modification times are only compared, never interpreted as clock values.
