# COW snapshot reader

A model of the read side of Android's copy-on-write (COW) snapshot
container: the class `CowReader` of libsnapshot (`fs_mgr/libsnapshot`).
A COW container is made of three parts:

- a fixed header;
- a sequence of fixed-size operation records, each followed by its payload;
- an optional footer, holding the expected record count, the byte size of
  the records and their checksums.

`CowReader::Parse` validates the header, probes the end of the file for a
footer, and scans the records. The scan keeps a "last label" marker that
lags one record behind when the container has no footer (a label is only
trusted once something is written after it). The scan may also stop at an
inline footer record. The reader then checks the records against the
footer and drops the prefix that is already merged into the base device.
After parsing, it hands out iterators over the stored list, raw byte
ranges of the file, and a bounded data stream for each operation's
payload.

The model is split into modules:

- `CowFormat` holds the on-disk vocabulary. It has 64-bit unsigned
  arithmetic with explicit wrap-around, and the packed struct sizes,
  format constants and decoders. These come from `cow_format.h`, which is
  not part of this model. They are uninterpreted constants, so every proof
  holds for every value they can take. Their subset types record the only
  facts the reader relies on:
  - every size is positive;
  - the footer's op part fits inside an operation record;
  - the tags the reader compares are distinct.
- `CowParse` holds the pure specification of parsing:
  - the header checks and the tail probe;
  - the record walk `WalkOps`;
  - the label fold `FoldLabels`;
  - the integrity predicate;
  - the reader state `ReaderState`, and the functions `AfterScan`,
    `ParseOpsSpec` and `ParseSpec`.
- `CowParseProps` holds the theorems about those functions.
- `CowMerge` holds merge pruning: the spec functions, the prune loop as
  written, and the corrected prune loop `PruneMerged`.
- `CowAccess` holds the range check of `GetRawBytes` and the compression
  dispatch of `ReadData`.
- `Reader` holds the imperative objects:
  - `CowReader`, with the source's mutable fields;
  - the record loop `ScanRecords`;
  - `CowOpIter` and `CowOpReverseIter`;
  - `CowDataStream`.

  `CowReader.Parse` and `CowReader.ParseOps` are proved equal to
  `ParseSpec` and `ParseOpsSpec`, field by field.

The file behind `fd_` is a byte sequence. `footer_` is kept as the bytes
of its packed struct. This lets the model follow exactly:

- the `memcpy` of an inline footer record into `footer_.op`;
- a partial read into `footer_.data`.

### Where the code differs from its own comments

The model follows the code in each case:

- **The inline footer record is stored.**
  - The comment at `cow_reader.cpp:158` says the footer record is not
    counted as an operation for the checksum. The decrement of
    `current_op_num` at line 159 is meant to do that.
  - But `resize` at line 130 has already appended the record to the
    buffer, and the loop ends straight after, so nothing removes it.
  - So the inline footer record stays the last element of the stored list.
  - It also counts toward the comparison with `num_ops`.
  - Label records count toward that comparison too.
- **`footer_checksum` is never verified.** The call at line 183 names
  `footer_.data.footer_checksum` as its output buffer. Even with the
  digest enabled it would overwrite the stored value instead of checking
  it, and no comparison follows. The digest function is disabled at lines
  43-50, so the call changes nothing. So
  the two checksum tests reduce to one fact: the footer's `ops_checksum` is
  all zero (`IntegrityReducesToZeroChecksum`).
- **The iterators' `Done`.** The interface comments at `cow_reader.h:90`
  and `cow_reader.h:105` say `Done` is true while items remain to be read.
  The implementations at `cow_reader.cpp:255-257` and `287-289` return true
  when no operation remains, and the model follows them.

## Model

| member | source | states |
|---|---|---|
| CowFormat.Sub64 | fs_mgr/libsnapshot/cow_reader.cpp:126 | uint64 subtraction: the difference when it is non-negative, otherwise the difference plus 2^64 |
| CowFormat.Add64 | fs_mgr/libsnapshot/include/libsnapshot/cow_reader.h:138 | uint64 addition: the sum when it is below 2^64, otherwise the sum minus 2^64 |
| CowParse.ReadFully | fs_mgr/libsnapshot/cow_reader.cpp:107-110 | a read returns at most n bytes. It returns exactly n when the file has them, fewer only when it runs into the end, and always the file's own bytes from pos |
| CowParse.Overlay | fs_mgr/libsnapshot/cow_reader.cpp:157-160 | copying data into a buffer (the memcpy, or a read into a struct) keeps the buffer's length, leaves exactly data at the target range, and keeps every byte before and after that range |
| CowParse.HeaderValid | fs_mgr/libsnapshot/cow_reader.cpp:76-100 | the header checks: magic, header size, footer size, major and minor version each equal the expected value |
| CowParse.SeekFromEnd | fs_mgr/libsnapshot/cow_reader.cpp:102 | the seek to footer_size bytes before the end: that offset, or -1 when it would be negative |
| CowParse.FooterSeekMatches | fs_mgr/libsnapshot/cow_reader.cpp:102-106 | the check after that seek: its off_t result, converted to uint64, equals fd_size_ - footer_size computed in uint64 |
| CowParse.ProbedState | fs_mgr/libsnapshot/cow_reader.cpp:107-111 | the state handed to ParseOps: size and header from the file, the tail read into footer_, has_footer_ set from the tail's op type; it keeps footer_ a whole footer long |
| CowParse.ParseSpec | fs_mgr/libsnapshot/cow_reader.cpp:57-113 | Parse as a function of the file and the previous state: its early failures, each leaving the fields written so far, then ParseOpsSpec on ProbedState (its properties are ParseGate and ParseEarlyFailureKeeps) |
| CowParse.WalkOps | fs_mgr/libsnapshot/cow_reader.cpp:129-169 | the records the loop reads from a position while it is below last_pos, with their start offsets and the reason it stops; one start per record, and a stop at a footer record only after reading one (its properties are the WalkOps lemmas) |
| CowParse.LastPos | fs_mgr/libsnapshot/cow_reader.cpp:126 | last_pos: fd_size_ minus the footer size when has_footer_, else minus the record size, in uint64 |
| CowParse.StepLabel | fs_mgr/libsnapshot/cow_reader.cpp:143-155 | the label bookkeeping for one record, on the pending label, has_last_label_ and last_label_ |
| CowParse.FoldLabels | fs_mgr/libsnapshot/cow_reader.cpp:129-155 | that bookkeeping over every record read, in order (its meaning is LabelLagWithoutFooter and LabelImmediateWithFooter) |
| CowParse.IntegrityHolds | fs_mgr/libsnapshot/cow_reader.cpp:174-192 | the four footer checks as written, against a zeroed csum that the disabled digest leaves zeroed (reduced by IntegrityReducesToZeroChecksum) |
| CowParse.AfterScan | fs_mgr/libsnapshot/cow_reader.cpp:129-169 | the fields when the loop has ended, however it ended; footer_ stays a whole footer long (its meaning is AfterScanLabels, AfterScanFooter and AfterScanFooterImage) |
| CowParse.ParseOpsSpec | fs_mgr/libsnapshot/cow_reader.cpp:115-218 | ParseOps as a function of the file and the state: scan, checks and pruning (its meaning is ParseOpsOutcome) |
| CowParse.TailProbeExact | fs_mgr/libsnapshot/cow_reader.cpp:102-111 | the footer seek check and the footer read both succeed exactly when the file is at least one footer long; the bytes read are then the file's last footer-size bytes. A file one byte short of a footer passes the wrapped uint64 comparison but then fails the read |
| CowParse.WalkOpsRecords | fs_mgr/libsnapshot/cow_reader.cpp:126-136 | every record read is decoded from the bytes at its own start offset. All start offsets lie in [sizeof(header), last_pos), the first at sizeof(header) |
| CowParse.WalkOpsChain | fs_mgr/libsnapshot/cow_reader.cpp:137-142 | records are read in on-disk order: each starts at the previous start plus the record size plus GetNextOpOffset of the previous record, and only the last record can be a footer record |
| CowParse.WalkOpsEnd | fs_mgr/libsnapshot/cow_reader.cpp:129-167 | when the scan stops at an inline footer record, that record is the last one read and its footer data is expected right after it; when it stops because the position reached last_pos, it stops at the offset past the last record read (or at the start position when nothing was read). Stops on a failed read or seek are not covered here |
| CowParse.WalkOpsShape | fs_mgr/libsnapshot/cow_reader.cpp:126-167 | the record placement of WalkOpsRecords (each record decoded at its own start, every start in [sizeof(header), last_pos)) together with the footer half of WalkOpsEnd (an inline footer record is last, its data expected right after it) |
| CowParse.WalkOpsFits | fs_mgr/libsnapshot/cow_reader.cpp:129-136 | the records read, payloads aside, fit in the file one after another, so the number read times the record size is at most the file size |
| CowParse.LastLabel | fs_mgr/libsnapshot/cow_reader.cpp:147-155 | there is a last label exactly when some record is a label record, and then it is the source of a label record with no label record after it |
| CowParse.NextPos | fs_mgr/libsnapshot/cow_reader.cpp:137 | the offset `lseek(fd, GetNextOpOffset(op), SEEK_CUR)` reaches after the record at p is read: past the record and its payload. WalkOpsChain states that every next start is this offset |
| CowParse.Sha256Stub | fs_mgr/libsnapshot/cow_reader.cpp:43-50 | the digest as compiled: its body is under `#if 0`, so it leaves the output buffer as it was, whatever the data. IntegrityReducesToZeroChecksum draws the consequence |
| CowParse.FinalRecordAtEndNotRead | fs_mgr/libsnapshot/cow_reader.cpp:126-129 | without a footer, last_pos is one record before the end of the file, so a final record that ends exactly at the end of the file is never read: the walk from its start reads nothing |
| CowParse.LabelLagWithoutFooter | fs_mgr/libsnapshot/cow_reader.cpp:143-155 | without a footer, the trusted label after a run of records is the last label before the final record. A label in the final record is only pending. With no label, the previous label is kept |
| CowParse.LabelImmediateWithFooter | fs_mgr/libsnapshot/cow_reader.cpp:143-152 | with a footer, every label is trusted as soon as it is read and nothing stays pending |
| CowParse.FinalLabelNotTrusted | fs_mgr/libsnapshot/cow_reader.cpp:147-155 | a label read last without a footer is pending, not trusted; the trusted label is the one before it, if any |
| CowParse.LabelTrustedOnceFollowed | fs_mgr/libsnapshot/cow_reader.cpp:143-146 | the same label followed by any one more record becomes the trusted label |
| CowParse.IntegrityReducesToZeroChecksum | fs_mgr/libsnapshot/cow_reader.cpp:171-192 | with the digest disabled, the footer checks pass exactly when the record count is num_ops, count times record size is ops_size, and ops_checksum is all zero; footer_checksum never affects the outcome |
| CowParseProps.ParseGate | fs_mgr/libsnapshot/cow_reader.cpp:76-112 | Parse fails unless the header's magic, header size, footer size, major and minor version each equal the expected value, and a whole footer-size tail can be read. Otherwise ParseOps runs on the state whose header is the file's first bytes, whose footer is the file's tail, and whose has_footer_ is exactly whether that tail's op type is the footer tag |
| CowParseProps.ParseEarlyFailureKeeps | fs_mgr/libsnapshot/cow_reader.cpp:57-111 | a Parse that fails before the scan leaves has_footer_, the labels and the stored list as they were |
| CowParseProps.LastLabelAppend | fs_mgr/libsnapshot/cow_reader.cpp:143-155 | a label is only replaced by a later one: the last label of a + b is b's when b has one, else a's |
| CowParseProps.AfterScanLabels | fs_mgr/libsnapshot/cow_reader.cpp:143-165 | on every path, the trusted label after the scan is the last label among the records read. The final record counts only if the container ends up with a footer. With no label at all, the previous value stays |
| CowParseProps.AfterScanFooter | fs_mgr/libsnapshot/cow_reader.cpp:156-166 | has_footer_ ends up true exactly when it already was, or an inline footer record was read together with its whole footer data. The header, the size and the stored list are not changed by the scan |
| CowParseProps.AfterScanFooterImage | fs_mgr/libsnapshot/cow_reader.cpp:130-160 | an inline footer record is the last record read, and its op part is copied into footer_.op. The bytes of footer data read after it land at the start of footer_.data, and a short read leaves the bytes it did not reach as they were; all of footer_.data is the file's bytes when it is all in the file. With no inline footer record, footer_ is untouched |
| CowParseProps.InlineFooterParts | fs_mgr/libsnapshot/cow_reader.cpp:157-160 | after the two copies, the footer's op part is the record's first bytes, and its data part is the bytes after the record when they are all there |
| CowParseProps.ParseOpsOutcome | fs_mgr/libsnapshot/cow_reader.cpp:115-217 | ParseOps fails exactly when a record read fails, a seek fails, or the container ends up with a footer (a tail footer, or an inline one read in full) and footer_, as AfterScanFooterImage leaves it, has a num_ops differs from the number of records read, whose ops_size differs from that number times the record size (a size_t product), or whose ops_checksum is not all zero. It aborts exactly when otherwise fewer than num_merge_ops real records were read. Otherwise it stores the records read, the inline footer record included, minus the merged prefix; a failure keeps the old list. has_footer_ ends up as just described, and the header and size are unchanged |
| CowParseProps.ParsedKeepsInlineFooter | fs_mgr/libsnapshot/cow_reader.cpp:130-213 | for every num_merge_ops, a successful parse that stopped at an inline footer record stores it: the stored list is non-empty and its last element is that footer record, the last record read |
| CowParseProps.ParsedFooterMatches | fs_mgr/libsnapshot/cow_reader.cpp:174-192 | a successful parse with a footer has stored count equal to num_ops, count times record size equal to ops_size (the size_t product cannot wrap), and an all-zero ops_checksum |
| CowParseProps.RecoveredWithoutFooter | fs_mgr/libsnapshot/cow_reader.cpp:193-195 | without a footer the checks are skipped: a scan that reaches last_pos with enough real records succeeds and stores the pruned records |
| CowParseProps.ParsedStoresWalk | fs_mgr/libsnapshot/cow_reader.cpp:130-216 | with nothing merged yet, a successful parse stores every record read, in file order |
| CowMerge.CountReal | fs_mgr/libsnapshot/cow_reader.cpp:205-209 | the number of records that are neither label nor footer records, at most the list's length |
| CowMerge.Prune | fs_mgr/libsnapshot/cow_reader.cpp:212-213 | the list with its merged prefix erased (its meaning is PruneRemovesShortestPrefix) |
| CowMerge.MergeCheckAsWritten | fs_mgr/libsnapshot/cow_reader.cpp:202 | the CHECK as written: the list has at least num_merge_ops entries |
| CowMerge.MergeScanAsWritten | fs_mgr/libsnapshot/cow_reader.cpp:203-211 | the prune loop as written: where merge_ops reaches 0 and how many metadata records it passed, or the index past the end it would read (its meaning is MergeScanStaysInBounds) |
| CowMerge.MergedPrefixLen | fs_mgr/libsnapshot/cow_reader.cpp:203-211 | the entries the prune loop passes over form a prefix holding exactly k real records, ending on a real record |
| CowMerge.PruneRemovesShortestPrefix | fs_mgr/libsnapshot/cow_reader.cpp:197-214 | pruning removes exactly the shortest prefix with k real records. All shorter prefixes hold fewer. The rest of the list is kept in order, including a label just after the k-th real record |
| CowMerge.PruneNothingMerged | fs_mgr/libsnapshot/cow_reader.cpp:197 | with num_merge_ops = 0 nothing is removed |
| CowMerge.MergeScanStaysInBounds | fs_mgr/libsnapshot/cow_reader.cpp:203-213 | the prune loop as written stays inside the list exactly when enough real records remain. It then stops after the shortest such prefix, having counted its metadata records, so the erase covers num_merge_ops + metadata_ops entries |
| CowMerge.MergeCheckAdmitsOverrun | fs_mgr/libsnapshot/cow_reader.cpp:202-204 | a label followed by one real record with num_merge_ops = 2 passes the CHECK, and the loop then reads index 2 of a two-entry list |
| CowMerge.EnoughRealOpsImpliesCheck | fs_mgr/libsnapshot/cow_reader.cpp:202 | the corrected guard implies the CHECK, so it accepts no list the CHECK would reject |
| CowMerge.PruneMerged | fs_mgr/libsnapshot/cow_reader.cpp:197-214 | the prune step fails (the aborting CHECK) exactly when the list has fewer than num_merge_ops real records. Otherwise it returns the list minus the shortest prefix holding them |
| CowAccess.RawRangeAccepted | fs_mgr/libsnapshot/cow_reader.cpp:311-312 | the range check as written, every comparison and the sum offset + len in uint64 (its meaning is RawRangeGuardExact) |
| CowAccess.RawRangeGuardExact | fs_mgr/libsnapshot/cow_reader.cpp:309-315 | for any file at least one footer long, the wrapping uint64 range check accepts exactly the ranges with sizeof(header) <= offset, offset + sizeof(footer) < fd_size, len < fd_size and offset + len + sizeof(footer) <= fd_size |
| CowAccess.LenGuardNeeded | fs_mgr/libsnapshot/cow_reader.cpp:310-312 | without the len guard, a length near 2^64 wraps offset + len and lets a range far past the file through; with it, that range is rejected |
| CowAccess.DecompressorFor | fs_mgr/libsnapshot/cow_reader.cpp:360-374 | each known compression tag selects its own decompressor, and every other tag selects none |
| Reader.CowReader.constructor | fs_mgr/libsnapshot/cow_reader.cpp:34-41 | a new reader has a zeroed header and footer, size 0, no footer and no label, and its operation list is not yet assigned (ops_ is a null pointer) |
| Reader.CowReader.Parse | fs_mgr/libsnapshot/cow_reader.cpp:57-113 | the status and every field written equal ParseSpec of the file and the old state; the operation list counts as assigned once some parse has succeeded |
| Reader.CowReader.ParseOps | fs_mgr/libsnapshot/cow_reader.cpp:115-218 | the status and every field written equal ParseOpsSpec of the old state; ops_ is assigned exactly on success |
| Reader.CowReader.ScanOps | fs_mgr/libsnapshot/cow_reader.cpp:116-169 | the scan leaves the fields as AfterScan says, and returns the records read unless a read or a seek failed |
| Reader.CowReader.TakeInlineFooter | fs_mgr/libsnapshot/cow_reader.cpp:156-166 | the footer code: footer_ gets the record's op part and then the data read; has_footer_ is set exactly when the whole data part was read |
| Reader.CowReader.GetHeader | fs_mgr/libsnapshot/cow_reader.cpp:220-223 | always returns the current header |
| Reader.CowReader.GetFooter | fs_mgr/libsnapshot/cow_reader.cpp:225-229 | succeeds exactly when has_footer_, with the footer decoded from footer_ |
| Reader.CowReader.GetLastLabel | fs_mgr/libsnapshot/cow_reader.cpp:231-235 | succeeds exactly when has_last_label_, with last_label_ |
| Reader.CowReader.GetOpIter | fs_mgr/libsnapshot/cow_reader.cpp:301-303 | requires a successful parse (before one, ops_ is null and the iterator's constructor dereferences it); a new iterator over the stored list, with nothing yielded and every operation still to come in stored order |
| Reader.CowReader.GetRevOpIter | fs_mgr/libsnapshot/cow_reader.cpp:305-307 | requires a successful parse, for the same reason; a new iterator over the stored list, with nothing yielded and every operation still to come in reverse order |
| Reader.CowReader.GetRawBytes | fs_mgr/libsnapshot/cow_reader.cpp:309-327 | success only for a range the check accepts (and then offset + len cannot wrap), reading at most len bytes, each being the file's own byte at its offset; failure returns nothing |
| Reader.CowReader.ReadData | fs_mgr/libsnapshot/cow_reader.cpp:359-379 | fails exactly for an unknown compression tag. Otherwise it hands that tag's decompressor a new stream over the op's payload (starting at op.source, data_length long) and the header's block size |
| Reader.CowReader.UpdateMergeProgress | fs_mgr/libsnapshot/include/libsnapshot/cow_reader.h:138 | adds m to num_merge_ops in uint64 and changes no other field; the stored list is not pruned again |
| Reader.ScanRecords | fs_mgr/libsnapshot/cow_reader.cpp:116-169 | the record loop returns exactly the records, and the reason for stopping, that WalkOps gives, plus the label state FoldLabels gives for those records |
| Reader.TrackLabel | fs_mgr/libsnapshot/cow_reader.cpp:143-155 | the label bookkeeping for one record is StepLabel: it trusts the pending label, then trusts a label at once with a footer or keeps it pending without one |
| Reader.Reversed | fs_mgr/libsnapshot/cow_reader.cpp:282-299 | the order the reverse iterator walks: same length, element i is the list's element counted i from the back |
| Reader.CowOpIter.constructor | fs_mgr/libsnapshot/cow_reader.cpp:250-253 | the iterator starts at the first stored operation |
| Reader.CowOpIter.Done | fs_mgr/libsnapshot/cow_reader.cpp:255-257 | done exactly when no operation remains |
| Reader.CowOpIter.Get | fs_mgr/libsnapshot/cow_reader.cpp:264-267 | requires not done; returns the next operation in stored order |
| Reader.CowOpIter.Next | fs_mgr/libsnapshot/cow_reader.cpp:259-262 | requires not done; moves exactly one operation from the remaining ones to the yielded ones |
| Reader.CowOpIter.Covers | fs_mgr/libsnapshot/include/libsnapshot/cow_reader.h:127-131 | what was yielded followed by what remains is the stored list; once done, the whole list was yielded in order |
| Reader.CowOpReverseIter.constructor | fs_mgr/libsnapshot/cow_reader.cpp:282-285 | the iterator starts at the last stored operation |
| Reader.CowOpReverseIter.Done | fs_mgr/libsnapshot/cow_reader.cpp:287-289 | done exactly when no operation remains |
| Reader.CowOpReverseIter.Get | fs_mgr/libsnapshot/cow_reader.cpp:296-299 | requires not done; returns the next operation counted from the back of the stored list |
| Reader.CowOpReverseIter.Next | fs_mgr/libsnapshot/cow_reader.cpp:291-294 | requires not done; moves exactly one operation from the remaining ones to the yielded ones |
| Reader.CowOpReverseIter.Covers | fs_mgr/libsnapshot/include/libsnapshot/cow_reader.h:127-132 | what was yielded followed by what remains is the reversed list; once done, the whole list was yielded last first |
| Reader.CowDataStream.constructor | fs_mgr/libsnapshot/cow_reader.cpp:331-334 | the stream starts at the payload's offset with all data_length bytes remaining |
| Reader.CowDataStream.Size | fs_mgr/libsnapshot/cow_reader.cpp:350 | the payload's whole length data_length_, a constant: the bytes consumed plus the bytes remaining, however many reads have been made |
| Reader.CowDataStream.Read | fs_mgr/libsnapshot/cow_reader.cpp:336-348 | the stream returns at most min(length, remaining) bytes. An empty request or an exhausted stream succeeds with nothing. Success advances the offset and shrinks remaining by exactly the bytes read, which are the file's bytes at the old offset. Failure changes nothing. offset + remaining stays equal to the start offset plus data_length |

## Left out

- File I/O. `lseek`, `ReadFully`, `::read` and `TEMP_FAILURE_RETRY` work on
  an in-memory byte sequence: a seek is a position, and a read returns the
  bytes up to the end of the file.
  - `lseek(0, SEEK_END)` (`cow_reader.cpp:60`) fails only for a size past
    the off_t range.
  - `lseek(0, SEEK_SET)` (line 66) always succeeds. The `SEEK_SET` in
    `GetRawBytes` (line 316) succeeds for any offset below 2^63 and fails
    for a larger one.
  - `lseek(-sizeof(footer_), SEEK_END)` (line 102) returns -1 when the
    target would be negative, that is, when the file is shorter than a
    footer (`SeekFromEnd`).
  - `lseek(GetNextOpOffset(op), SEEK_CUR)` (line 137) fails when the target
    is past the off_t range.
  - The `unique_fd` overload of `Parse` (`cow_reader.cpp:52-55`) and file
    descriptor ownership are not modelled.
- Reader.CowReader.GetRawBytes: a short `read(2)` is left nondeterministic.
  The contract states bounds and contents, not how many bytes are read,
  because that number is not decided by the reader.
- Reader.CowReader.Parse: a header read that falls short fails without
  writing `header_`. The source may have copied the partial bytes into it
  before failing. So `GetHeader`, `ReadData`'s block size and
  `UpdateMergeProgress` see the earlier header after such a failure, where
  the source has it with its first |file| bytes overwritten by the file's.
- Capacity and allocation failures of `std::vector`. `reserve(num_ops)`
  (`cow_reader.cpp:123`) runs on the tail footer before it is checked, so
  a huge `num_ops` can make it throw or abort before any record is read.
  The model has no capacity limit: such a file gets the outcome the later
  checks give it. The same holds for `resize` at line 130.
- Logging (`LOG`, `PLOG`).
- `shared_ptr` reference counting. Until a `ParseOps` succeeds, `ops_` is
  a null pointer. The model keeps an empty list there and a ghost flag
  `parsed`, which the iterator factories require. The stored list is one immutable
  sequence. Each iterator keeps its own copy of it and its own cursor, so
  a later parse does not affect an existing iterator.
- The decompressors (`IDecompressor::Uncompressed`, `Gz`, `Brotli`) and
  `Decompress`. Their code is not part of this model. `ReadData` returns
  the selected decompressor together with the stream and block size it
  would be given.
- `IByteSink` and its sequential buffer contract (`cow_reader.h:31-58`).
  The reader only forwards the sink to the decompressor, which is not part
  of this model.
- SHA-256. It is compiled out in the source (`cow_reader.cpp:43-50`), and
  is modelled as the no-op it is (`Sha256Stub`).
- The layouts, sizes and constants of `cow_format.h`, and
  `GetNextOpOffset`. They are uninterpreted constants. `GetNextOpOffset`
  is assumed to return values below 2^63: a larger value would become a
  negative `off_t`, i.e. a backward seek, which the model does not cover.
- The process abort of `CHECK` (`cow_reader.cpp:202`, and `Get` and `Next`
  of the iterators).
  - For the merge CHECK the model returns the status `Aborted`, under the
    corrected guard (see Findings).
  - For the iterators the CHECK becomes a precondition.
- The footer code of the record loop (`cow_reader.cpp:156-166`) runs in
  `CowReader.TakeInlineFooter`, right after `ScanRecords` returns at the
  footer record. It does not run inside the loop. Nothing else happens
  between the two, so the order of effects is unchanged.

## Findings

| source | as written | input that shows it | evidently intended | confidence | as-written member | corrected member |
|---|---|---|---|---|---|---|
| fs_mgr/libsnapshot/cow_reader.cpp:202-211 | `CHECK(ops_buffer->size() >= merge_ops)` bounds the total number of entries, but the loop that follows skips label and footer entries without counting them | a stored list of one label record then one real record, with `num_merge_ops = 2`: the CHECK passes, and the loop reads `ops_buffer[2]`, past the end of the two-entry list | the CHECK should require at least `num_merge_ops` real (non-label, non-footer) records, which is exactly what keeps the loop in bounds | not executed | CowMerge.MergeCheckAdmitsOverrun | CowMerge.PruneMerged |
