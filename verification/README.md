# Verified model of vgi-reghive

vgi-reghive turns Windows Registry hive files (the `regf` format) into rows. This project models
its byte-level core and the scan, row and printing logic around it, and proves what the pieces
promise one another:

- **the hive writer** (`HiveCells`, `HiveGen`, `HiveImage`, `HiveTiling`): a bump allocator that
  reserves a key's `nk` cell, lays out values and subkeys behind it, goes back to fill the
  reservation, and finally copies cells in allocation order into one bin. `HiveGen` is the writer in
  its own imperative form; it is proved to produce exactly the bytes of the in-order serialization
  `HiveImage.Hive`.
- **a reader** (`HiveReader`), written independently after the sections "Base block", "Hive bin",
  "Cell", "Fast leaf", "Key node" and "Key value" of the Windows registry file format specification.
  It is total on arbitrary bytes and strict: it refuses a link into a cell of the wrong state, a
  child that does not lie behind its parent or does not point back to it, and a data cell that does
  not lie before its `vk`. `HiveRoundTrip` and `HiveTheorems` prove that it inverts the writer,
  `HiveLinks` what every byte of a written file is and that its links always point that way, and `HiveRecovery` that a search of the
  free cells finds the orphans.
- **the base block** (`BaseBlock`, `Xor32`), **UTF-16 and value rendering** (`Utf16`, `Numerals`,
  `ValueType`), **transaction logs** (`LogParse`, `LogsApplied`), **the resumable scan** (`Cursor`,
  `ReadHive`), **the row walk** (`Walk`, `ScanRows`) and **two printers with their inverses**
  (`BlobSql`, `Meta`).

Conventions. Machine integers are subset types of `int`, so overflow is a proof obligation; casts
that truncate in the source (`as u16`, `as u32`, `as i32`) are the functions `LE16` and `LE32`,
which drop the high bits. Exclusive or is defined bit by bit on naturals. A Rust `String` is a Dafny
`string`, because both are sequences of Unicode scalar values. Registry names are byte strings.
`HiveImage.LayoutFits`, the layout below 2^31, is the writer's only precondition. Names of 2^16
bytes and keys with 2^16 subkeys are written with truncated lengths and counts, as in the source:
`HiveCells.AsRead` says what is left of a tree, `HiveTheorems.RoundTrip` that exactly this reads
back, and `HiveTheorems.RoundTripExact` that the tree itself does if and only if it fits. Seq-valued
loop invariants have the form "done + rest == whole", so no lemma about prefixes is needed.

Where the code differs from its own documentation, the model follows the code:

- `cursor.rs:50-52` says a corrupt cursor degrades to "start over". It restores the default cursor,
  which is exhausted, so the scan ends (`ReadHive.CorruptCursorEnds`). That is starting over exactly
  when no file has a row (`ReadHive.StartsOverExactly`).
- `cursor.rs:24-26` describes `emitted_in_current` as the row to resume at. The producer never reads
  it (`ReadHive.OffsetIgnored`); every position it serializes lies at the start of a file
  (`ReadHive.SavedAtFileStart`), so nothing is lost or repeated. For other positions
  `ReadHive.ResumesAtOffsetExactly` says when the description holds.
- `walk.rs:160-161` mentions stripping a root-name segment from a filter; only leading backslashes go.
  `Walk.RootSegmentKept` says when that makes no difference, `Walk.RootSegmentMisses` is an input.
- `modified-prior` is documented as a recovery label and never produced (`Walk.Labels`).
- `meta.rs` escapes newline but no other control character, so what it prints for a string with one
  is not JSON (`Meta.ArrayRoundTrip` says exactly when it is, `Meta.TabIsNotJson` is an input).

## Model

| member | source | states |
|---|---|---|
| HiveGen.Build | crates/reghive-core/src/hivegen.rs:369-442 | For every spec whose layout stays below 2^31, and whatever the order in which cells were placed and copied, the file is the base block followed by the bin with the cells in address order and one trailing free cell. |
| HiveGen.LayoutKey | crates/reghive-core/src/hivegen.rs:262-325 | The reservation is filled last with a cell of exactly the reserved size; the allocator has advanced by the subtree's size and gained the subtree's cells, each `nk` after everything below it. |
| HiveGen.LayoutValue | crates/reghive-core/src/hivegen.rs:240-259 | Inline data up to four bytes, the all-ones offset for empty data, otherwise a data cell directly before the `vk` that names it. |
| HiveGen.LayoutOrphan | crates/reghive-core/src/hivegen.rs:330-366 | The same records in free cells, the `nk` last, no subkeys. |
| HiveGen.Layout.Reserve | crates/reghive-core/src/hivegen.rs:132-136 | Advances without placing anything. |
| HiveGen.Layout.Place | crates/reghive-core/src/hivegen.rs:139-141 | Adds a cell without advancing. |
| HiveGen.Layout.Emit | crates/reghive-core/src/hivegen.rs:144-149 | Adds a cell at the cursor and advances by its length. |
| HiveGen.AssembleBin | crates/reghive-core/src/hivegen.rs:387-407 | From any pairwise disjoint permutation of the tiles, one buffer: header, cells, trailing free cell. |
| HiveGen.AssembleBase | crates/reghive-core/src/hivegen.rs:410-437 | Fixed fields, at most 64 bytes of UTF-16 name, checksum over the first 508 bytes, corrupted on request. |
| HiveTiling.KeyTiled | crates/reghive-core/src/hivegen.rs:262-325 | A subtree's cells in address order leave no gap and no overlap, end exactly at its size, and all carry an allocated size field equal to their length. |
| HiveTiling.OrphanTiled | crates/reghive-core/src/hivegen.rs:330-366 | The same for an orphan, with free size fields. |
| HiveTiling.PlacedArePermuted | crates/reghive-core/src/hivegen.rs:262-325 | Placement order is a permutation of address order: every reservation is filled exactly once. |
| HiveTiling.PlacedApart | crates/reghive-core/src/hivegen.rs:262-325 | Cells are pairwise disjoint also in placement order, and stay inside the subtree's region. |
| HiveTiling.CopyAnyOrder | crates/reghive-core/src/hivegen.rs:399-402 | Copying disjoint cells in any order leaves the image of the tiles they permute and nothing else changed. |
| HiveImage.AllTiled | crates/reghive-core/src/hivegen.rs:376-407 | Tree, orphans and trailing free cell tile the bin from offset 32 to its end, all offsets multiples of eight. |
| HiveTheorems.StepsVisitAll | crates/reghive-core/src/hivegen.rs:376-407 | Stepping by absolute cell size visits every cell once, in order and in the right state, and ends exactly at the bin's end. |
| HiveRoundTrip.NkBack | crates/reghive-core/src/hivegen.rs:183-216 | Every field of an `nk` payload is found where the format puts it, a name of 2^16 bytes or more cut to its length modulo 2^16. |
| HiveRoundTrip.CellBack | crates/reghive-core/src/hivegen.rs:162-179 | A framed payload is found again, followed only by the zeros that round the cell up to eight, by a reader expecting the cell's state; one expecting the other state refuses it. |
| HiveRoundTrip.VkBack | crates/reghive-core/src/hivegen.rs:219-236 | Every field of a `vk` payload is found where the format puts it, a long name cut. |
| HiveRoundTrip.ValueBack | crates/reghive-core/src/hivegen.rs:240-259 | A value's type and data (inline, empty or in a cell before it) read back, live or free, with the name as far as its length field goes; it is refused when that length wraps to zero. |
| HiveRoundTrip.KeyBack | crates/reghive-core/src/hivegen.rs:262-325 | Wherever a subtree's cells are held, the strict reader returns what the 16-bit fields leave of the key, with all values and children in order, having used each of its cells once; that is the key itself exactly when its lengths and counts fit. |
| HiveRoundTrip.OrphanBack | crates/reghive-core/src/hivegen.rs:330-366 | An orphan reads back from its free `nk` cell, without its subkeys, through free cells only. |
| HiveRoundTrip.NameLimit | crates/reghive-core/src/hivegen.rs:212-214 | A name reads back exactly when it is shorter than 2^16 bytes. |
| HiveRoundTrip.SubkeyLimit | crates/reghive-core/src/hivegen.rs:295-307 | From 2^16 subkeys on, the count in the list is wrong and nothing reads back. |
| HiveRoundTrip.ReadKeyInside | crates/reghive-core/src/hivegen.rs:14-15 | On arbitrary bytes, whatever the reader accepts lies in whole aligned cells inside the bin, all of the expected state. |
| HiveRoundTrip.AcceptedChild | crates/reghive-core/src/hivegen.rs:264-306 | On arbitrary bytes, below any accepted key the `lf` entry of each child names a cell behind the key whose parent field points back to it. |
| HiveRoundTrip.AcceptedValue | crates/reghive-core/src/hivegen.rs:240-259 | Likewise the value list names each value's `vk`, and data that is not inline lies in a cell before it. |
| HiveCells.AsReadExact | crates/reghive-core/src/hivegen.rs:212-307 | The 16-bit fields lose nothing exactly when every name is shorter than 2^16 bytes and every key has fewer than 2^16 subkeys. |
| HiveTheorems.RoundTrip | crates/reghive-core/src/hivegen.rs:369-442 | For every layout below 2^31, the reader recovers from the root offset in the header what the 16-bit fields leave of the tree, using each of its cells once. |
| HiveTheorems.RoundTripExact | crates/reghive-core/src/hivegen.rs:369-442 | The tree that was written comes back if and only if all its lengths and counts fit their 16-bit fields. |
| HiveTheorems.LongNameIsLost | crates/reghive-core/src/hivegen.rs:212-214 | The concrete failure: a root with a name of 2^16 bytes reads back without a name. |
| HiveTheorems.LiveCellsAreReachable | crates/reghive-core/src/hivegen.rs:330-374 | The allocated cells met by stepping are exactly those the reader uses from the root, each once, whenever the tree reads at all; the free ones are always the orphans' and the trailing cell. |
| HiveTheorems.OrphanRoundTrip | crates/reghive-core/src/hivegen.rs:330-374 | Every orphan of a built file reads back from its own free cells, without its subkeys, and otherwise whole exactly when its name lengths fit. |
| HiveTheorems.OrphansIrrelevant | crates/reghive-core/src/hivegen.rs:371-374 | Adding or removing orphans changes neither what is read nor a byte of the live tree. |
| HiveRecovery.RecoversOrphans | crates/reghive-core/src/hivegen.rs:330-374 | Searching the free cells of a built file for keys finds every orphan that can be read, in order, and nothing else when no out-of-line data of an orphan begins like a key record. |
| HiveRecovery.OrphansAsReadExact | crates/reghive-core/src/hivegen.rs:330-366 | What can be read of the orphans is all of them, without their subkeys, exactly when their name lengths fit. |
| HiveRecovery.LookalikeIsTaken | crates/reghive-core/src/hivegen.rs:330-366 | Why that condition is there: a key record stored as the data of an orphan is found as a key of its own. |
| HiveLinks.WrittenLinks | crates/reghive-core/src/hivegen.rs:183-366 | In every built file, whether or not its tree reads back, each record is what it should be field by field: key nodes, value records with their inline or out-of-line data, value lists, and `lf` lists with each child's offset and the first four bytes of its name; parents lie before children, each child points back, data lies before values. Likewise for the orphans. |
| HiveLinks.WrittenFile | crates/reghive-core/src/hivegen.rs:376-437 | And around the records: sizes, every header field at its offset, the units of the file name, the stored checksum with its low eight bits turned over exactly on request, the bin header, the trailing free cell, zeros elsewhere. |
| HiveTheorems.HeaderBack | crates/reghive-core/src/hivegen.rs:409-437 | Parsing a built file returns sequence numbers, time, version, bins size and root offset; bad checksum exactly when asked for; dirty exactly when corrupted or the sequence numbers differ. |
| HiveTheorems.NameBack | crates/reghive-core/src/hivegen.rs:423-428 | The embedded name survives exactly when it has at most 32 units and no NUL. |
| HiveTheorems.PrefixKinds | crates/reghive-core/src/baseblock.rs:223-258 | Every truncation of a built file is classified by its length alone. |
| BaseBlock.PrefixFields | crates/reghive-core/src/baseblock.rs:261-292 | For any blob, a prefix's integer field is the whole blob's if it lies inside the prefix and 0 otherwise. |
| BaseBlock.PrefixKind | crates/reghive-core/src/baseblock.rs:223-258 | The classification of the prefixes of any file whose bins end where it ends. |
| BaseBlock.ParseExact | crates/reghive-core/src/baseblock.rs:223-258 | Every verdict, for every blob, in terms of its bytes; and exactly when there are fields. |
| BaseBlock.FieldsExact | crates/reghive-core/src/baseblock.rs:261-292 | Every field of a whole header by its offset, and exactly when it is dirty. |
| BaseBlock.Xor32Checksum | crates/reghive-core/src/baseblock.rs:157-175 | The loop computes the specified checksum, nothing below 508 bytes, and never 0 or all ones. |
| BaseBlock.ChecksumValue | crates/reghive-core/src/baseblock.rs:157-175 | The value: each bit is the parity of the 127 dwords that have it set; 0 and all ones are replaced by 1 and 0xfffffffe. |
| BaseBlock.ChecksumOrder | crates/reghive-core/src/baseblock.rs:157-175 | It does not depend on the order of the words. |
| BaseBlock.ChecksumPrefix | crates/reghive-core/src/baseblock.rs:157-175 | It does not depend on bytes from 508 on. |
| BaseBlock.ChecksumSingleWord | crates/reghive-core/src/baseblock.rs:157-175 | A changed word goes unnoticed exactly when the raw folds are {0, 1} or {0xfffffffe, 0xffffffff}. |
| BaseBlock.DecodeUtf16le | crates/reghive-core/src/baseblock.rs:204-216 | The loop computes the specified text. |
| BaseBlock.NameAny | crates/reghive-core/src/baseblock.rs:204-216 | For any bytes: that text is the one before the first NUL unit, stray surrogates shown as U+FFFD. |
| Utf16.DecodeEncode | crates/reghive-core/src/valuetype.rs:75-83 | Decoding an encoded text yields its characters and no error. |
| Utf16.EncodeDecode | crates/reghive-core/src/valuetype.rs:75-83 | Decoding keeps the number of units, and without an error the units themselves. |
| Utf16.CleanIffEncoding | crates/reghive-core/src/valuetype.rs:75-83 | Units decode without an error exactly when they encode some text. |
| Utf16.EncodeScalarExact | crates/reghive-core/src/valuetype.rs:75-83 | A character is its own unit, or the pair the formula of section 2.1 of RFC 2781 gives. |
| Utf16.DecodeExact | crates/reghive-core/src/valuetype.rs:75-83 | Decoding in full, as an if and only if: items are the decoding exactly when the units are the characters' units and one surrogate per error, with no two errors in a row that form a pair. |
| Utf16.StrayBetween | crates/reghive-core/src/valuetype.rs:75-83 | A stray surrogate of either kind between two texts is one error and swallows nothing behind it. |
| ValueType.DecodeUtf16le | crates/reghive-core/src/valuetype.rs:62-85 | The loops compute the specified text and error flag. |
| ValueType.SzAny | crates/reghive-core/src/valuetype.rs:62-85 | For any bytes: the text of the whole units less one trailing NUL, stray surrogates as U+FFFD; the flag says that a byte was left over or a surrogate stray. |
| ValueType.SzRoundTrip | crates/reghive-core/examples/gen_fixtures.rs:12-19 | Every string written by `sz` comes back without an error. |
| ValueType.SzExact | crates/reghive-core/src/valuetype.rs:62-85 | No error exactly when the bytes encode some text; then they encode the result, with or without one trailing NUL. |
| ValueType.SplitMultiSz | crates/reghive-core/src/valuetype.rs:88-134 | The loop computes the specified strings and error flag. |
| ValueType.MultiAny | crates/reghive-core/src/valuetype.rs:88-134 | For any bytes, in whichever of the three shapes they store their components: the strings are those of the components, stray surrogates as U+FFFD; the flag says that a byte was left over or a surrogate stray. |
| ValueType.MultiExact | crates/reghive-core/src/valuetype.rs:88-134 | A list is returned without an error exactly when it consists of non-empty NUL-free strings stored in one of three shapes: last terminator missing, terminated, or terminated and followed by a NUL and any tail. |
| ValueType.MultiProper | crates/reghive-core/src/valuetype.rs:88-134 | For any bytes the components are non-empty and NUL-free. |
| ValueType.MultiRoundTrip | crates/reghive-core/examples/gen_fixtures.rs:21-31 | Splitting undoes `multi` exactly for lists of non-empty NUL-free strings. |
| ValueType.Sz | crates/reghive-core/examples/gen_fixtures.rs:12-19 | The loop writes the text's UTF-16LE bytes and a NUL. |
| ValueType.Multi | crates/reghive-core/examples/gen_fixtures.rs:21-31 | The loop writes each part with a NUL, then one more NUL. |
| ValueType.MultiSpelled | crates/reghive-core/examples/gen_fixtures.rs:21-31 | Two zero bytes for the empty list; each part puts its text and two zero bytes in front. |
| ValueType.ToHexLower | crates/reghive-core/src/valuetype.rs:50-57 | The loop writes the hex form that `Unhex` inverts. |
| Numerals.HexAt | crates/reghive-core/src/valuetype.rs:50-57 | Two digits of 0123456789abcdef per byte, the high half first. |
| Numerals.DecimalExact | crates/reghive-core/src/valuetype.rs:151-197 | The decimal form is the only one without a leading zero that stands for the number. |
| ValueType.CoerceWritten | crates/reghive-core/src/valuetype.rs:139-222 | What the fixture encoders write is rendered in full, without a diagnostic, for every type; the number column holds 64-bit numbers as signed. |
| ValueType.CoerceDiagnostics | crates/reghive-core/src/valuetype.rs:139-222 | For every type and any bytes, exactly when a number is too short or a text bad, and that text renderings are those of the decoders. |
| ValueType.CoerceLossless | crates/reghive-core/src/valuetype.rs:139-222 | For any bytes without a diagnostic: hex, decimal numbers of either byte order and both widths, and clean text give the raw bytes back; a list gives its strings exactly when none holds a newline; the number column is filled exactly when a number was read. |
| LogParse.SummarizeNew | crates/reghive-core/src/logparse.rs:90-130 | The bounded loop with saturating sums computes the capped count, capped page sum and maximum of the first million chain entries. |
| LogParse.SummaryExact | crates/reghive-core/src/logparse.rs:62-130 | Entries fit the blob at 40 bytes each, so below about 40 MB the guard is idle; the format is "new" exactly when there is an entry. |
| LogParse.SummaryMeaning | crates/reghive-core/src/logparse.rs:62-130 | Any log with a header in terms of its bytes: the entries counted are those one behind the other from offset 4096, a million at most; pages at offset 20 are added up, the highest sequence at offset 12 taken. |
| LogParse.NoSummary | crates/reghive-core/src/logparse.rs:62-68 | No format exactly when the first 4096 bytes are not there or do not begin with "regf". |
| LogParse.Truncation | crates/reghive-core/src/logparse.rs:62-130 | A truncated log visits exactly the leading entries whose header fits; no total and no format rank rises. |
| LogParse.FittingIsExact | crates/reghive-core/src/logparse.rs:97-117 | "Leading entries that fit" are all the entries that fit, because offsets rise along the chain. |
| LogsApplied.Combine | crates/reghive-worker/src/scalar/logs_applied.rs:39-55 | The loop computes capped totals, highest sequence and best format. |
| LogsApplied.CombinePermutes | crates/reghive-worker/src/scalar/logs_applied.rs:39-55 | The order of the logs does not matter. |
| LogsApplied.CombineTotals | crates/reghive-worker/src/scalar/logs_applied.rs:39-55 | Despite saturation at both levels the totals are the capped true sums over all entries of all logs. |
| LogsApplied.ReportRow | crates/reghive-worker/src/scalar/logs_applied.rs:139-165 | In terms of the blobs alone: applied exactly when the primary is dirty and a log is usable; clean exactly when, besides, no log has an entry or the highest sequence reaches both header sequences. |
| LogsApplied.ReportMeaning | crates/reghive-worker/src/scalar/logs_applied.rs:139-165 | What any such report says, log by log: there is one exactly when the primary has eight bytes and begins with "regf"; its counts, format, and exactly when it claims a replay or a clean hive. |
| LogsApplied.Process | crates/reghive-worker/src/scalar/logs_applied.rs:132-182 | One such report per row. |
| Cursor.HiveGlobCursor.AdvanceFile | crates/reghive-core/src/cursor.rs:66-73 | Moves to the next pending file, or to the exhausted position. |
| Cursor.HiveGlobCursor.constructor | crates/reghive-core/src/cursor.rs:31-42 | Opens at the first file. |
| Cursor.CursorRoundTrip | crates/reghive-core/src/cursor.rs:44-58 | Serializing and deserializing gives the same position, for every position. |
| ReadHive.ReadHiveProducer.NextBatch | crates/reghive-worker/src/table/read_hive.rs:219-276 | New state and batch are those of the recursive specification; the loop ends on the files left. |
| ReadHive.ReadHiveProducer.EncodeResume | crates/reghive-worker/src/table/read_hive.rs:282-287 | The bytes of the position, none for a blob. |
| ReadHive.ReadHiveProducer.RestoreResume | crates/reghive-worker/src/table/read_hive.rs:289-293 | The position the bytes decode to, for a glob only. |
| ReadHive.ScanExactlyOnce | crates/reghive-worker/src/table/read_hive.rs:241-293 | For any files and any interleaving of calls with resumption in fresh producers, the results are the non-empty row lists in file order, each once, and only then `None`. |
| ReadHive.Scan | crates/reghive-worker/src/table/read_hive.rs:137-293 | The same run on real producer objects. |
| ReadHive.NextGlobEmits | crates/reghive-worker/src/table/read_hive.rs:241-273 | One call emits the first batch still owed and leaves exactly the others owed. |
| ReadHive.BlobOnce | crates/reghive-worker/src/table/read_hive.rs:221-240 | Over any sequence of calls and restorations a blob is one batch, even an empty one, and then nothing. |
| ReadHive.AskBlob | crates/reghive-worker/src/table/read_hive.rs:221-293 | The same on a real producer. |
| ReadHive.CorruptCursorEnds | crates/reghive-core/src/cursor.rs:50-58 | After a position that does not parse, every result is `None`. |
| ReadHive.StartsOverExactly | crates/reghive-core/src/cursor.rs:50-58 | That is what a scan started over would give if and only if no file of the list has a row. |
| ReadHive.EmptyPositionLosesAFile | crates/reghive-core/src/cursor.rs:50-58 | The concrete failure: one file with one row and an empty position. |
| ReadHive.OffsetIgnored | crates/reghive-worker/src/table/read_hive.rs:243-264 | The row offset a position carries changes no result of any run. |
| ReadHive.ResumesAtOffsetExactly | crates/reghive-core/src/cursor.rs:22-27 | So every run continues at the row a position names if and only if that is the first row, or the file has none, or no file is in progress. |
| ReadHive.SavedAtFileStart | crates/reghive-worker/src/table/read_hive.rs:282-287 | Every position that any run serializes lies at the start of a file, so nothing is lost by ignoring the offset. |
| Walk.Walk | crates/reghive-worker/src/hive/walk.rs:68-158 | The nested loops compute the specified rows of the keys that pass the filter, in order. |
| Walk.WalkLosesNothing | crates/reghive-worker/src/hive/walk.rs:92-156 | What those rows are: in All mode each key's row and then its values', every column as stated, with the rendering of that value's bytes and the hive's diagnostic exactly where the value has none; and from them every key and value comes back, in order. |
| Walk.FilterPushDown | crates/reghive-worker/src/hive/walk.rs:80-90 | In every mode a subtree scan is the full scan with the rows outside the subtree dropped. |
| Walk.FilterMeaning | crates/reghive-worker/src/hive/walk.rs:160-173 | A filter matches exactly the paths whose first components are its own but for the two cases of the letters A to Z; no other difference between characters is ignored. |
| Walk.TrimExact | crates/reghive-worker/src/hive/walk.rs:160-164 | A filter loses its leading backslashes and nothing else. |
| Walk.RootSegmentKept | crates/reghive-worker/src/hive/walk.rs:160-173 | A root-name segment in front of a filter makes no difference if and only if the root name is nothing but backslashes: it is not stripped. |
| Walk.RootSegmentMisses | crates/reghive-worker/src/hive/walk.rs:160-173 | The concrete failure: with the root name in front, the filter misses the subtree it names. |
| Walk.ModesAgree | crates/reghive-worker/src/hive/walk.rs:104-156 | All mode merges, order kept, the Keys rows and the value rows; Values mode adds the rows of keys without values. |
| Walk.Counts | crates/reghive-worker/src/hive/walk.rs:104-156 | One row per value and per key as the mode asks, max(1, values) in Values mode. |
| Walk.Labels | crates/reghive-worker/src/hive/walk.rs:92-152 | A deleted label exactly on rows flagged deleted, naming an orphan exactly when the row's own key does not descend from the root; live rows carry the hive's state. |
| Walk.BaseRecoveryExact | crates/reghive-worker/src/hive/mod.rs:13-26 | The state of a live row: none, replayed or dirty without replay, each exactly when the three facts say so. |
| Walk.NormalizeMeaning | crates/reghive-worker/src/hive/walk.rs:39-53 | For every root name: exactly the root and the paths below it normalize to no orphan, to what follows the root name; any other path is kept whole behind the deleted prefix. |
| ScanRows.TruncatedYieldsNothing | crates/reghive-worker/src/table/read_hive.rs:194-216 | A built hive cut short anywhere yields no rows, whatever the parser would do. |
| ScanRows.NoHiveNoRows | crates/reghive-worker/src/table/read_hive.rs:194-216 | Nor does anything that is no primary hive or announces more bins than it has. |
| ScanRows.WrittenDataComesOut | crates/reghive-worker/src/table/read_hive.rs:194-216 | Write, read, walk, where the parser answers as the reader and the recovery of this project: first the rows of the live tree, in every mode those of its records, data verbatim and in order, none deleted, tagged with what the header says; then, exactly if recovery is asked for, those of the orphans, all deleted, under the deleted prefix and labelled orphans unless their name spells the root. |
| ScanRows.WrittenTreeIsSeen | crates/reghive-worker/src/table/read_hive.rs:194-216 | From the live rows of a built file in All mode the whole tree comes back: every key by its path below the root with its time, every value with its name, type and data, in order. |
| ScanRows.WrittenRows | crates/reghive-worker/src/table/read_hive.rs:194-216 | Under the same assumption, for any tree: the rows of what its 16-bit fields leave of it and, if asked for, of every key recovered; none when the tree does not read. |
| ScanRows.ScanOfBuiltHives | crates/reghive-worker/src/table/read_hive.rs:137-293 | A glob of built hives, some cut short or unreadable, scanned with any interleaving of calls and resumption: the rows of the whole ones, a batch each, in file order, each once, then only `None`. |
| ScanRows.ScanFiles | crates/reghive-worker/src/table/read_hive.rs:137-293 | The same on real producer objects. |
| ScanRows.WrittenKeysAreNoOrphans | crates/reghive-worker/src/hive/walk.rs:39-53 | No key of a written tree walks as an orphan. |
| BlobSql.CompactBlobSql | crates/reghive-worker/src/sample.rs:44-70 | The loop prints the operands of the recursive specification. |
| BlobSql.SqlRoundTrip | crates/reghive-worker/src/sample.rs:176-196 | Evaluating the printed text gives the bytes back, for every byte string. |
| BlobSql.CanonicalForm | crates/reghive-worker/src/sample.rs:49-65 | The operands are the only canonical ones: literals and repeats alternate, each repeat is one maximal zero run of at least 32, no literal holds 32 zeros in a row. |
| BlobSql.ShortRunsExact | crates/reghive-worker/src/sample.rs:49-65 | "No long run" means no 32 zero bytes in a row. |
| BlobSql.SqlSpelled | crates/reghive-worker/src/sample.rs:44-70 | What is printed, spelled out: for no bytes, and for a literal before a repeat. |
| Meta.ChainIsMap | crates/reghive-worker/src/meta.rs:39-43 | The three chained replacements are one escape per character. |
| Meta.ArrayRoundTrip | crates/reghive-worker/src/meta.rs:38-81 | The printed array reads back to exactly the items when they hold no control character but newline, and is not JSON otherwise. |
| Meta.TabIsNotJson | crates/reghive-worker/src/meta.rs:38-55 | The concrete failure: one tab in an item. |
| Meta.JsonSpelled | crates/reghive-worker/src/meta.rs:38-81 | What is printed, spelled out for one item and for two. |
| Meta.MetadataRoundTrip | crates/reghive-worker/src/meta.rs:38-81 | The same for the two printers with their member names. |

## Left out

- notatin (cell walk, log replay, deleted-cell recovery): its source is not part of the repository. The walk takes a sequence of key records; the round trips use this project's own reader and search of free cells. Where rows are traced from files, `ScanRows.AnswersAsReader` states what is assumed of the parser: for the arguments it is given, recovery and logs to replay among them, it answers as these do. Replay that changes the tree is therefore outside these results.
- Arrow builders, schemas, SDK registration, catalog text: column plumbing and constants; a batch is a sequence of rows.
- File reading, sibling-log discovery and glob expansion: parameters of the scan, fixed for its duration.
- serde_json: the cursor's byte form is a small codec of this project with a proved round trip; only the rule that empty or malformed bytes give the default cursor is the source's.
- Hive-type sniffing, type names, argument parsing and the time conversion: each is one branch or one expression. A row carries the numeric value type in place of its name.
- Cursor.HiveGlobCursor.AdvanceFile: file lists are sequences, not vectors updated in place.
- LogParse.SummarizeNew: offsets are unbounded, so the overflow branch of the walk is not modelled; with 64-bit offsets and a blob in memory it cannot be taken.
- HiveRoundTrip.OrphanBack: the writer ignores an orphan's subkeys, so they are absent from what is read.
- HiveReader: single bin, `lf` lists, no big-data, class-name or security cells, as the writer emits; the evaluator and the JSON reader cover the grammar the printers can produce and, for JSON, arrays of flat string objects.
- `keywords_json`: the same escaping without the newline step, over fixed keyword strings.
