/**
  CowReader::Parse and CowReader::ParseOps as functions of the container's
  bytes and the reader's previous state: header validation, the tail-footer
  probe, the scan over operation records with its lag-aware label state,
  the inline-footer case, the footer integrity checks and merge pruning.
  The imperative methods of CowReader are proved to compute these functions.
*/
module CowParse {
  import opened Wrappers
  import opened CowFormat
  import opened CowMerge

  // ---------------------------------------------------------------------
  // Reading the container.

  /**
    The bytes that ReadFully copies when asked for n bytes at offset pos:
    it stops early only at end of file. It succeeds when it got all n.
  */
  function ReadFully(file: seq<byte>, pos: nat, n: nat): (got: seq<byte>)
    ensures |got| <= n
    ensures pos + n <= |file| ==> |got| == n
    ensures pos + n > |file| ==> |got| < n || n == 0
    ensures pos <= |file| ==> pos + |got| <= |file| && got == file[pos..pos + |got|]
  {
    if pos + n <= |file| then file[pos..pos + n]
    else if pos < |file| then file[pos..]
    else []
  }

  /** buf with data copied over it from offset at (a memcpy, or a read into a struct). */
  function Overlay(buf: seq<byte>, at: nat, data: seq<byte>): (r: seq<byte>)
    requires at + |data| <= |buf|
    ensures |r| == |buf| && r[at..at + |data|] == data
    ensures r[..at] == buf[..at] && r[at + |data|..] == buf[at + |data|..]
  {
    buf[..at] + data + buf[at + |data|..]
  }

  function Last<T>(s: seq<T>): T requires s != [] { s[|s| - 1] }
  function DropLast<T>(s: seq<T>): seq<T> { if s == [] then [] else s[..|s| - 1] }

  // ---------------------------------------------------------------------
  // Header validation and the tail-footer probe.

  /** The header checks: magic, both struct sizes and both versions match exactly. */
  predicate HeaderValid(h: CowHeader) {
    && h.magic == CowMagicNumber
    && h.headerSize == HeaderSize
    && h.footerSize == FooterSize
    && h.majorVersion == CowVersionMajor
    && h.minorVersion == CowVersionMinor
  }

  /** What lseek(fd, -back, SEEK_END) returns: -1 when that offset would be negative. */
  function SeekFromEnd(fdSize: nat, back: nat): int {
    if fdSize >= back then fdSize - back else -1
  }

  /**
    The check after that seek: the off_t result, converted to uint64, must
    equal fd_size_ - footer_size computed in uint64.
  */
  predicate FooterSeekMatches(fdSize: u64) {
    var footerPos := SeekFromEnd(fdSize, FooterSize);
    (if footerPos < 0 then footerPos + U64_LIMIT else footerPos) == Sub64(fdSize, FooterSize)
  }

  /** Where the footer read starts: at the seek target, or just past the header if the seek failed. */
  function FooterReadPos(fdSize: nat): nat {
    if fdSize >= FooterSize then fdSize - FooterSize else HeaderSize
  }

  /**
    The probe succeeds (its check passes and the whole footer is read)
    exactly when the file is at least one footer long, and it then reads the
    file's last footer-size bytes. The uint64 comparison also passes for a
    file one byte shorter than a footer, but the read after it then fails.
  */
  lemma TailProbeExact(file: seq<byte>)
    requires HeaderSize <= |file| < OFF_LIMIT
    ensures var got := ReadFully(file, FooterReadPos(|file|), FooterSize);
      (FooterSeekMatches(|file|) && |got| == FooterSize) <==> |file| >= FooterSize
    ensures |file| >= FooterSize ==>
      ReadFully(file, FooterReadPos(|file|), FooterSize) == file[|file| - FooterSize..]
    ensures |file| + 1 == FooterSize ==>
      FooterSeekMatches(|file|) && |ReadFully(file, FooterReadPos(|file|), FooterSize)| < FooterSize
  {
    if |file| < FooterSize {
      if FooterSeekMatches(|file|) {
        assert |file| + 1 == FooterSize;
        assert HeaderSize + FooterSize > |file|;
      }
    }
  }

  // ---------------------------------------------------------------------
  // The scan over operation records.

  /** The record whose bytes start at offset p. */
  function RecordAt(file: seq<byte>, p: nat): CowOperation
    requires p + OpSize <= |file|
  {
    DecodeOp(file[p..p + OpSize])
  }

  /** Offset of the record after the one at p: past the record and its payload. */
  function NextPos(p: nat, op: CowOperation): nat {
    p + OpSize + GetNextOpOffset(op)
  }

  datatype WalkEnd =
    | Reached(endPos: nat)    // the position reached last_pos
    | FooterAt(dataPos: nat)  // an inline footer record was read; its data is expected at dataPos
    | ReadFailed              // an operation record could not be read in full
    | SeekFailed              // the seek past a payload left the off_t range

  /** The records read by the scan, the offsets they start at, and why it stopped. */
  datatype Walk = Walk(recs: seq<CowOperation>, starts: seq<nat>, end: WalkEnd)

  /** The record sequence the ParseOps loop reads from offset pos while the position is below lastPos. */
  function WalkOps(file: seq<byte>, pos: nat, lastPos: nat): (w: Walk)
    ensures |w.recs| == |w.starts|
    ensures w.end.FooterAt? ==> w.recs != []
    decreases lastPos - pos
  {
    if pos >= lastPos then Walk([], [], Reached(pos))
    else if pos + OpSize > |file| then Walk([], [], ReadFailed)
    else
      var op := RecordAt(file, pos);
      var next := NextPos(pos, op);
      if next >= OFF_LIMIT then Walk([], [], SeekFailed)
      else if IsFooter(op) then Walk([op], [pos], FooterAt(next))
      else
        var rest := WalkOps(file, next, lastPos);
        Walk([op] + rest.recs, [pos] + rest.starts, rest.end)
  }

  /**
    Unfolding one step of the walk: a record that is read whole, whose
    successor offset is an off_t, and that is not a footer record, is
    followed by the walk from its successor.
  */
  lemma WalkOpsUnfold(file: seq<byte>, pos: nat, lastPos: nat)
    requires pos < lastPos && pos + OpSize <= |file|
    requires NextPos(pos, RecordAt(file, pos)) < OFF_LIMIT && !IsFooter(RecordAt(file, pos))
    ensures var rest := WalkOps(file, NextPos(pos, RecordAt(file, pos)), lastPos);
      WalkOps(file, pos, lastPos) == Walk([RecordAt(file, pos)] + rest.recs, [pos] + rest.starts, rest.end)
  {
  }

  /**
    Each record of the walk is decoded from the bytes at its start offset,
    and all of them start in [pos, lastPos), the first one at pos.
  */
  lemma {:induction false} WalkOpsRecords(file: seq<byte>, pos: nat, lastPos: nat)
    ensures var w := WalkOps(file, pos, lastPos);
      && (w.starts != [] ==> w.starts[0] == pos)
      && forall i :: 0 <= i < |w.starts| ==>
           && pos <= w.starts[i] < lastPos
           && w.starts[i] + OpSize <= |file|
           && w.recs[i] == RecordAt(file, w.starts[i])
    decreases lastPos - pos
  {
    if pos < lastPos && pos + OpSize <= |file| {
      var op := RecordAt(file, pos);
      var next := NextPos(pos, op);
      if next < OFF_LIMIT && !IsFooter(op) {
        WalkOpsRecords(file, next, lastPos);
        WalkOpsUnfold(file, pos, lastPos);
      }
    }
  }

  /**
    Records come in file order: each starts where the previous one's payload
    ends, and only the last one can be a footer record.
  */
  lemma {:induction false} WalkOpsChain(file: seq<byte>, pos: nat, lastPos: nat)
    ensures var w := WalkOps(file, pos, lastPos);
      && (forall i :: 0 <= i < |w.starts| - 1 ==> w.starts[i + 1] == NextPos(w.starts[i], w.recs[i]))
      && (forall i :: 0 <= i < |w.recs| - 1 ==> !IsFooter(w.recs[i]))
    decreases lastPos - pos
  {
    if pos < lastPos && pos + OpSize <= |file| {
      var op := RecordAt(file, pos);
      var next := NextPos(pos, op);
      if next < OFF_LIMIT && !IsFooter(op) {
        WalkOpsChain(file, next, lastPos);
        WalkOpsRecords(file, next, lastPos);
        WalkOpsUnfold(file, pos, lastPos);
      }
    }
  }

  /**
    How the walk ends: on an inline footer record, last in the walk, whose
    data is expected right after it; or, once lastPos is reached, on the
    offset past the last record read.
  */
  lemma {:induction false} WalkOpsEnd(file: seq<byte>, pos: nat, lastPos: nat)
    ensures var w := WalkOps(file, pos, lastPos);
      && (w.end.FooterAt? ==>
            && IsFooter(Last(w.recs))
            && w.end.dataPos == NextPos(Last(w.starts), Last(w.recs)) < OFF_LIMIT)
      && (w.end.Reached? ==>
            && lastPos <= w.end.endPos
            && (w.recs == [] ==> w.end.endPos == pos)
            && (w.recs != [] ==> !IsFooter(Last(w.recs)) && w.end.endPos == NextPos(Last(w.starts), Last(w.recs))))
    decreases lastPos - pos
  {
    if pos < lastPos && pos + OpSize <= |file| {
      var op := RecordAt(file, pos);
      var next := NextPos(pos, op);
      if next < OFF_LIMIT && !IsFooter(op) {
        WalkOpsEnd(file, next, lastPos);
        WalkOpsUnfold(file, pos, lastPos);
      }
    }
  }

  /** The whole shape of the walk. */
  lemma WalkOpsShape(file: seq<byte>, pos: nat, lastPos: nat)
    ensures var w := WalkOps(file, pos, lastPos);
      && (forall i :: 0 <= i < |w.starts| ==>
            pos <= w.starts[i] < lastPos && w.starts[i] + OpSize <= |file| && w.recs[i] == RecordAt(file, w.starts[i]))
      && (w.end.FooterAt? ==>
            IsFooter(Last(w.recs)) && w.end.dataPos == NextPos(Last(w.starts), Last(w.recs)) < OFF_LIMIT)
  {
    WalkOpsRecords(file, pos, lastPos);
    WalkOpsEnd(file, pos, lastPos);
  }

  /**
    The records read fit in the file one after the other: the bytes they
    occupy, payloads aside, add up to no more than the file's length.
  */
  lemma {:induction false} WalkOpsFits(file: seq<byte>, pos: nat, lastPos: nat)
    ensures var w := WalkOps(file, pos, lastPos);
      w.recs != [] ==> pos + |w.recs| * OpSize <= |file|
    decreases lastPos - pos
  {
    if pos < lastPos && pos + OpSize <= |file| {
      var op := RecordAt(file, pos);
      var next := NextPos(pos, op);
      if next < OFF_LIMIT && !IsFooter(op) {
        WalkOpsFits(file, next, lastPos);
        var rest := WalkOps(file, next, lastPos);
        assert (|rest.recs| + 1) * OpSize == |rest.recs| * OpSize + OpSize;
      }
    }
  }

  /**
    One iteration of the ParseOps loop, seen from the walk: if the records
    read so far followed by the walk from pos make up the whole walk, then
    so do those records plus the one at pos, followed by the walk from its
    successor.
  */
  lemma WalkOpsStep(file: seq<byte>, pos: nat, lastPos: nat, w: Walk, read: seq<CowOperation>, starts: seq<nat>)
    requires pos < lastPos && pos + OpSize <= |file|
    requires NextPos(pos, RecordAt(file, pos)) < OFF_LIMIT && !IsFooter(RecordAt(file, pos))
    requires w == Walk(read + WalkOps(file, pos, lastPos).recs, starts + WalkOps(file, pos, lastPos).starts,
                       WalkOps(file, pos, lastPos).end)
    ensures var rest := WalkOps(file, NextPos(pos, RecordAt(file, pos)), lastPos);
      w == Walk((read + [RecordAt(file, pos)]) + rest.recs, (starts + [pos]) + rest.starts, rest.end)
  {
    var op := RecordAt(file, pos);
    var rest := WalkOps(file, NextPos(pos, op), lastPos);
    assert read + ([op] + rest.recs) == (read + [op]) + rest.recs;
    assert starts + ([pos] + rest.starts) == (starts + [pos]) + rest.starts;
  }

  /** At a footer record the walk from pos is that record alone, so the records read so far end there. */
  lemma WalkOpsStepFooter(file: seq<byte>, pos: nat, lastPos: nat, w: Walk, read: seq<CowOperation>, starts: seq<nat>)
    requires pos < lastPos && pos + OpSize <= |file|
    requires NextPos(pos, RecordAt(file, pos)) < OFF_LIMIT && IsFooter(RecordAt(file, pos))
    requires w == Walk(read + WalkOps(file, pos, lastPos).recs, starts + WalkOps(file, pos, lastPos).starts,
                       WalkOps(file, pos, lastPos).end)
    ensures w == Walk(read + [RecordAt(file, pos)], starts + [pos], FooterAt(NextPos(pos, RecordAt(file, pos))))
    ensures Last(w.starts) == pos
  {
  }

  /**
    Without a footer, last_pos is one record before the end of the file and
    the loop runs only while the position is below it: a final record that
    ends exactly at the end of the file, with no payload, is never read.
  */
  lemma FinalRecordAtEndNotRead(file: seq<byte>, pos: nat)
    requires |file| < OFF_LIMIT && pos + OpSize == |file|
    ensures WalkOps(file, pos, LastPos(|file|, false)) == Walk([], [], Reached(pos))
  {
  }

  /** The walk from a position at or past lastPos is empty. */
  lemma WalkOpsDone(file: seq<byte>, pos: nat, lastPos: nat)
    requires pos >= lastPos
    ensures WalkOps(file, pos, lastPos) == Walk([], [], Reached(pos))
  {
  }

  /** Where a record cannot be read whole, the walk fails at once. */
  lemma WalkOpsShortRead(file: seq<byte>, pos: nat, lastPos: nat)
    requires pos < lastPos && pos + OpSize > |file|
    ensures WalkOps(file, pos, lastPos) == Walk([], [], ReadFailed)
  {
  }

  /** Where the seek past a payload would leave the off_t range, the walk fails at once. */
  lemma WalkOpsSeekOut(file: seq<byte>, pos: nat, lastPos: nat)
    requires pos < lastPos && pos + OpSize <= |file| && NextPos(pos, RecordAt(file, pos)) >= OFF_LIMIT
    ensures WalkOps(file, pos, lastPos) == Walk([], [], SeekFailed)
  {
  }

  /** last_pos: the scan stops before the footer, or before the last full record if there is none. */
  function LastPos(fdSize: u64, hasFooter: bool): u64 {
    Sub64(fdSize, if hasFooter then FooterSize else OpSize)
  }

  // ---------------------------------------------------------------------
  // Label state.

  /** The label fields during the scan: the pending label (next_last_label), has_last_label_, last_label_. */
  datatype LabelState = LabelState(pending: Option<u64>, has: bool, last: u64)

  /** The label bookkeeping the loop does for one record. */
  function StepLabel(st: LabelState, op: CowOperation, hasFooter: bool): LabelState {
    var st1 := if st.pending.Some? then LabelState(st.pending, true, st.pending.value) else st;
    if IsLabel(op) then
      if hasFooter then LabelState(st1.pending, true, op.source)
      else LabelState(Some(op.source), st1.has, st1.last)
    else st1
  }

  /** The label state after the loop has handled every record of recs, in order. */
  function FoldLabels(recs: seq<CowOperation>, hasFooter: bool, st: LabelState): LabelState
    decreases |recs|
  {
    if recs == [] then st
    else StepLabel(FoldLabels(recs[..|recs| - 1], hasFooter, st), Last(recs), hasFooter)
  }

  /** The value carried by the last label record of recs, if there is one. */
  function LastLabel(recs: seq<CowOperation>): (l: Option<u64>)
    ensures l.Some? <==> exists i :: 0 <= i < |recs| && IsLabel(recs[i])
    ensures l.Some? ==> exists i :: 0 <= i < |recs| && IsLabel(recs[i]) && l.value == recs[i].source &&
                               forall j :: i < j < |recs| ==> !IsLabel(recs[j])
    decreases |recs|
  {
    if recs == [] then None
    else if IsLabel(Last(recs)) then Some(Last(recs).source)
    else
      var prefix := recs[..|recs| - 1];
      assert forall i :: 0 <= i < |prefix| ==> prefix[i] == recs[i];
      LastLabel(prefix)
  }

  /** Handling one more record extends the fold by one step. */
  lemma FoldLabelsSnoc(recs: seq<CowOperation>, op: CowOperation, hasFooter: bool, st: LabelState)
    ensures FoldLabels(recs + [op], hasFooter, st) == StepLabel(FoldLabels(recs, hasFooter, st), op, hasFooter)
  {
    assert (recs + [op])[..|recs + [op]| - 1] == recs;
  }

  /** Trust label l, if there is one. */
  function Commit(st: LabelState, l: Option<u64>): LabelState {
    if l.Some? then st.(has := true, last := l.value) else st
  }

  lemma LastLabelOfDropLast(recs: seq<CowOperation>)
    ensures LastLabel(recs).None? ==> LastLabel(DropLast(recs)).None?
  {
    if recs != [] && LastLabel(recs).None? {
      assert !IsLabel(Last(recs));
    }
  }

  /**
    Without a footer a label is trusted only once another record follows
    it: after the records recs, the trusted label is the last label before
    the final record, and the final label (if any) is still pending.
  */
  lemma {:induction false} LabelLagWithoutFooter(recs: seq<CowOperation>, has: bool, last: u64)
    ensures FoldLabels(recs, false, LabelState(None, has, last))
         == Commit(LabelState(LastLabel(recs), has, last), LastLabel(DropLast(recs)))
    decreases |recs|
  {
    if recs != [] {
      var front := recs[..|recs| - 1];
      LabelLagWithoutFooter(front, has, last);
      LastLabelOfDropLast(front);
      assert DropLast(recs) == front;
    }
  }

  /** With a footer every label is trusted as soon as it is read, and nothing stays pending. */
  lemma {:induction false} LabelImmediateWithFooter(recs: seq<CowOperation>, has: bool, last: u64)
    ensures FoldLabels(recs, true, LabelState(None, has, last))
         == Commit(LabelState(None, has, last), LastLabel(recs))
    decreases |recs|
  {
    if recs != [] {
      LabelImmediateWithFooter(recs[..|recs| - 1], has, last);
    }
  }

  /** A label read last, with no footer, is not trusted: the trusted state is the one before it. */
  lemma FinalLabelNotTrusted(recs: seq<CowOperation>, labelOp: CowOperation)
    requires IsLabel(labelOp)
    ensures var st := FoldLabels(recs + [labelOp], false, LabelState(None, false, 0));
      && st.pending == Some(labelOp.source)
      && st.has == (LastLabel(recs).Some?)
      && (st.has ==> st.last == LastLabel(recs).value)
  {
    LabelLagWithoutFooter(recs + [labelOp], false, 0);
    assert DropLast(recs + [labelOp]) == recs;
  }

  /** The same label followed by one more record of any kind is trusted. */
  lemma LabelTrustedOnceFollowed(recs: seq<CowOperation>, labelOp: CowOperation, next: CowOperation)
    requires IsLabel(labelOp)
    ensures var st := FoldLabels(recs + [labelOp, next], false, LabelState(None, false, 0));
      st.has && st.last == labelOp.source
  {
    LabelLagWithoutFooter(recs + [labelOp, next], false, 0);
    assert DropLast(recs + [labelOp, next]) == recs + [labelOp];
  }

  // ---------------------------------------------------------------------
  // Integrity checks.

  /** SHA256 as compiled: its body is disabled, so the output buffer keeps what it held. */
  function Sha256Stub<T>(data: T, out: Digest): Digest {
    out
  }

  /**
    The checks made when a footer is present, for the buffered records ops:
    the record count and the byte size (computed in size_t) match the
    footer, and the ops checksum matches csum, which starts zeroed and is
    "hashed" over the records. The call that would hash the footer's op
    part writes footer_checksum, not csum, and is a no-op as well.
  */
  predicate IntegrityHolds(ops: seq<CowOperation>, footer: CowFooter) {
    && |ops| == footer.op.numOps
    && (|ops| * OpSize) % U64_LIMIT == footer.op.opsSize
    && ZeroDigest == footer.data.opsChecksum
    && Sha256Stub(ops, ZeroDigest) == footer.data.opsChecksum
  }

  /**
    With the digest stubbed out, the integrity checks come down to the
    count and size checks and an all-zero ops checksum; footer_checksum is
    never looked at.
  */
  lemma IntegrityReducesToZeroChecksum(ops: seq<CowOperation>, footer: CowFooter, other: Digest)
    requires |ops| * OpSize < U64_LIMIT
    ensures IntegrityHolds(ops, footer) <==>
      && |ops| == footer.op.numOps
      && |ops| * OpSize == footer.op.opsSize
      && footer.data.opsChecksum == ZeroDigest
    ensures IntegrityHolds(ops, footer) ==
            IntegrityHolds(ops, CowFooter(footer.op, CowFooterData(other, footer.data.opsChecksum)))
  {
  }

  // ---------------------------------------------------------------------
  // The reader state and the two parse steps.

  datatype Status = Parsed | Failed | Aborted

  /** The fields of CowReader that Parse writes. */
  datatype ReaderState = ReaderState(
    header: CowHeader,
    footerImage: seq<byte>,
    fdSize: u64,
    hasFooter: bool,
    lastLabel: u64,
    hasLastLabel: bool,
    ops: seq<CowOperation>)

  predicate WellFormed(st: ReaderState) {
    |st.footerImage| == FooterSize
  }

  /** The state the constructor leaves. */
  const InitialState: ReaderState := ReaderState(ZeroHeader, ZeroFooterImage, 0, false, 0, false, [])

  /** The walk ParseOps does for reader state st. */
  function ScanWalk(file: seq<byte>, st: ReaderState): Walk {
    WalkOps(file, HeaderSize, LastPos(st.fdSize, st.hasFooter))
  }

  /** The label state at the end of the ParseOps loop. */
  function ScanLabels(file: seq<byte>, st: ReaderState): LabelState {
    FoldLabels(ScanWalk(file, st).recs, st.hasFooter, LabelState(None, st.hasLastLabel, st.lastLabel))
  }

  /**
    The footer image once an inline footer record starting at s has been
    handled: its op part is copied from the record, then its data part is
    read from dataPos (a short read overwrites only what it got).
  */
  function InlineFooterImage(file: seq<byte>, image: seq<byte>, s: nat, dataPos: nat): (r: seq<byte>)
    requires |image| == FooterSize && s + OpSize <= |file|
    ensures |r| == FooterSize
  {
    var withOp := Overlay(image, 0, file[s..s + FooterOpSize]);
    Overlay(withOp, FooterOpSize, ReadFully(file, dataPos, FooterDataSize))
  }

  /** The reader state when the ParseOps loop has ended, however it ended. */
  function AfterScan(file: seq<byte>, st: ReaderState): (r: ReaderState)
    requires WellFormed(st)
    ensures WellFormed(r)
  {
    var w := ScanWalk(file, st);
    var labels := ScanLabels(file, st);
    var st1 := st.(hasLastLabel := labels.has, lastLabel := labels.last);
    match w.end
    case FooterAt(dataPos) =>
      WalkOpsShape(file, HeaderSize, LastPos(st.fdSize, st.hasFooter));
      var image := InlineFooterImage(file, st.footerImage, Last(w.starts), dataPos);
      if dataPos + FooterDataSize <= |file| then
        var committed := Commit(labels, labels.pending);
        st1.(footerImage := image, hasFooter := true,
             hasLastLabel := committed.has, lastLabel := committed.last)
      else
        st1.(footerImage := image)
    case _ => st1
  }

  /** The state after a scan that met no inline footer record: only the label fields change. */
  lemma AfterScanNoFooter(file: seq<byte>, st: ReaderState)
    requires WellFormed(st) && !ScanWalk(file, st).end.FooterAt?
    ensures var labels := ScanLabels(file, st);
      AfterScan(file, st) ==
        ReaderState(st.header, st.footerImage, st.fdSize, st.hasFooter, labels.last, labels.has, st.ops)
  {
  }

  /**
    The state after a scan that stopped at an inline footer record starting
    at s: the footer image gets the record's op part and what could be read
    of the footer data; if all of it was read, the footer counts as present
    and the pending label is trusted.
  */
  lemma AfterScanOnFooter(file: seq<byte>, st: ReaderState, s: nat, dataPos: nat)
    requires WellFormed(st)
    requires ScanWalk(file, st).end == FooterAt(dataPos) && Last(ScanWalk(file, st).starts) == s
    ensures s + OpSize <= |file|
    ensures var labels := ScanLabels(file, st);
      var committed := Commit(labels, labels.pending);
      var image := InlineFooterImage(file, st.footerImage, s, dataPos);
      AfterScan(file, st) ==
        if dataPos + FooterDataSize <= |file| then
          ReaderState(st.header, image, st.fdSize, true, committed.last, committed.has, st.ops)
        else
          ReaderState(st.header, image, st.fdSize, st.hasFooter, labels.last, labels.has, st.ops)
  {
    WalkOpsShape(file, HeaderSize, LastPos(st.fdSize, st.hasFooter));
  }

  /**
    The exit of the ParseOps loop at an inline footer record starting at s:
    the label state handed to the footer code is the one after every record
    read, and the footer code then writes the footer and trusts the pending
    label as AfterScan says.
  */
  lemma ScanExitAtFooter(file: seq<byte>, st: ReaderState, read: seq<CowOperation>, starts: seq<nat>,
                         s: nat, dataPos: nat, pending: Option<u64>, has: bool, last: u64)
    requires WellFormed(st)
    requires ScanWalk(file, st) == Walk(read, starts, FooterAt(dataPos)) && starts != [] && Last(starts) == s
    requires LabelState(pending, has, last) == FoldLabels(read, st.hasFooter, LabelState(None, st.hasLastLabel, st.lastLabel))
    ensures s + OpSize <= |file|
    ensures var data := ReadFully(file, dataPos, FooterDataSize);
      var image := Overlay(Overlay(st.footerImage, 0, file[s..s + FooterOpSize]), FooterOpSize, data);
      var full := |data| == FooterDataSize;
      var c := if full then Commit(LabelState(pending, has, last), pending) else LabelState(pending, has, last);
      AfterScan(file, st) == st.(footerImage := image, hasFooter := st.hasFooter || full,
                                 hasLastLabel := c.has, lastLabel := c.last)
  {
    AfterScanOnFooter(file, st, s, dataPos);
    assert |ReadFully(file, dataPos, FooterDataSize)| == FooterDataSize <==> dataPos + FooterDataSize <= |file|;
  }

  /** CowReader::ParseOps, from the state Parse hands it. */
  function ParseOpsSpec(file: seq<byte>, st: ReaderState): (Status, ReaderState)
    requires WellFormed(st)
  {
    var w := ScanWalk(file, st);
    var st1 := AfterScan(file, st);
    if w.end.ReadFailed? || w.end.SeekFailed? then (Failed, st1)
    else if st1.hasFooter && !IntegrityHolds(w.recs, DecodeFooter(st1.footerImage)) then (Failed, st1)
    else if !EnoughRealOps(w.recs, st1.header.numMergeOps) then (Aborted, st1)
    else (Parsed, st1.(ops := Prune(w.recs, st1.header.numMergeOps)))
  }

  /** The state Parse hands to ParseOps once the header and the tail footer have been read. */
  function ProbedState(file: seq<byte>, st: ReaderState): (r: ReaderState)
    requires WellFormed(st) && HeaderSize <= |file| < OFF_LIMIT
    ensures WellFormed(r)
  {
    var got := ReadFully(file, FooterReadPos(|file|), FooterSize);
    var image := Overlay(st.footerImage, 0, got);
    st.(fdSize := |file|,
        header := DecodeHeader(file[..HeaderSize]),
        footerImage := image,
        hasFooter := DecodeFooter(image).op.opType == CowFooterOp)
  }

  /** CowReader::Parse on a container with the given bytes. */
  function ParseSpec(file: seq<byte>, st: ReaderState): (Status, ReaderState)
    requires WellFormed(st)
  {
    if |file| >= OFF_LIMIT then (Failed, st)
    else
      var st1 := st.(fdSize := |file|);
      if |file| < HeaderSize then (Failed, st1)
      else
        var st2 := st1.(header := DecodeHeader(file[..HeaderSize]));
        if !HeaderValid(st2.header) || !FooterSeekMatches(|file|) then (Failed, st2)
        else
          var got := ReadFully(file, FooterReadPos(|file|), FooterSize);
          if |got| < FooterSize then (Failed, st2.(footerImage := Overlay(st.footerImage, 0, got)))
          else ParseOpsSpec(file, ProbedState(file, st))
  }
}
