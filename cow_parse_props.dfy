/**
  What CowReader::Parse and CowReader::ParseOps guarantee, stated about
  the functions ParseSpec, ParseOpsSpec and AfterScan.
*/
module CowParseProps {
  import opened Wrappers
  import opened CowFormat
  import opened CowMerge
  import opened CowParse

  /** The conditions under which Parse gets as far as ParseOps. */
  predicate ReachesScan(file: seq<byte>) {
    && |file| < OFF_LIMIT
    && HeaderSize <= |file|
    && FooterSize <= |file|
    && HeaderValid(DecodeHeader(file[..HeaderSize]))
  }

  /**
    Parse fails unless the file holds a header whose five checked fields
    are exactly the expected ones and a whole footer-size tail. When it
    gets past those checks, it runs ParseOps on the state whose header is
    the file's first bytes, whose footer image is the file's tail, and whose
    has_footer_ is exactly whether that tail carries the footer tag.
  */
  lemma ParseGate(file: seq<byte>, st: ReaderState)
    requires WellFormed(st)
    ensures !ReachesScan(file) ==> ParseSpec(file, st).0 == Failed
    ensures ReachesScan(file) ==>
      var p := ProbedState(file, st);
      && ParseSpec(file, st) == ParseOpsSpec(file, p)
      && p.fdSize == |file|
      && p.header == DecodeHeader(file[..HeaderSize])
      && p.footerImage == file[|file| - FooterSize..]
      && p.hasFooter == (DecodeFooter(file[|file| - FooterSize..]).op.opType == CowFooterOp)
      && p.ops == st.ops && p.hasLastLabel == st.hasLastLabel && p.lastLabel == st.lastLabel
  {
    if HeaderSize <= |file| < OFF_LIMIT {
      TailProbeExact(file);
    }
    if ReachesScan(file) {
      var got := ReadFully(file, FooterReadPos(|file|), FooterSize);
      assert Overlay(st.footerImage, 0, got) == got;
    }
  }

  /** A Parse that fails before ParseOps leaves the footer flag, the label and the stored list alone. */
  lemma ParseEarlyFailureKeeps(file: seq<byte>, st: ReaderState)
    requires WellFormed(st) && !ReachesScan(file)
    ensures var r := ParseSpec(file, st).1;
      && r.hasFooter == st.hasFooter && r.ops == st.ops
      && r.hasLastLabel == st.hasLastLabel && r.lastLabel == st.lastLabel
  {
  }

  /** A label is only ever replaced by a later one: the last label of a + b is b's, if b has one. */
  lemma {:induction false} LastLabelAppend(a: seq<CowOperation>, b: seq<CowOperation>)
    ensures LastLabel(a + b) == if LastLabel(b).Some? then LastLabel(b) else LastLabel(a)
    decreases |b|
  {
    if b == [] {
      assert a + b == a;
    } else {
      var front := b[..|b| - 1];
      assert (a + b)[..|a + b| - 1] == a + front;
      assert Last(a + b) == Last(b);
      LastLabelAppend(a, front);
    }
  }

  /**
    The label ParseOps leaves trusted, on every path: the last label among
    the records read, counting the final record only when the container
    ends up with a footer (without one, a final label may belong to an
    unfinished flush). With no label at all, the previous value is kept.
  */
  lemma AfterScanLabels(file: seq<byte>, st: ReaderState)
    requires WellFormed(st)
    ensures var w := ScanWalk(file, st);
      var r := AfterScan(file, st);
      var trusted := Commit(LabelState(None, st.hasLastLabel, st.lastLabel),
                            LastLabel(if r.hasFooter then w.recs else DropLast(w.recs)));
      r.hasLastLabel == trusted.has && r.lastLabel == trusted.last
  {
    var w := ScanWalk(file, st);
    if st.hasFooter {
      LabelImmediateWithFooter(w.recs, st.hasLastLabel, st.lastLabel);
    } else {
      LabelLagWithoutFooter(w.recs, st.hasLastLabel, st.lastLabel);
      LastLabelOfDropLast(w.recs);
    }
  }

  /**
    What the scan changes besides the labels: has_footer_ ends up true
    exactly when it was already, or an inline footer record was read
    together with the footer data after it. The header, the size and the
    stored list are never changed by the scan.
  */
  lemma AfterScanFooter(file: seq<byte>, st: ReaderState)
    requires WellFormed(st)
    ensures var w := ScanWalk(file, st);
      var r := AfterScan(file, st);
      && r.header == st.header && r.fdSize == st.fdSize && r.ops == st.ops
      && (r.hasFooter <==> st.hasFooter || (w.end.FooterAt? && w.end.dataPos + FooterDataSize <= |file|))
  {
    var w := ScanWalk(file, st);
    if w.end.FooterAt? {
      WalkOpsShape(file, HeaderSize, LastPos(st.fdSize, st.hasFooter));
      AfterScanOnFooter(file, st, Last(w.starts), w.end.dataPos);
    }
  }

  /**
    The footer image after the scan: an inline footer record is the last
    record read and its op part is copied into the footer; whatever part of
    the footer data could be read after it lands right behind the op part,
    and the bytes a short read did not reach keep their earlier value. With
    no inline footer the footer is untouched.
  */
  lemma AfterScanFooterImage(file: seq<byte>, st: ReaderState)
    requires WellFormed(st)
    ensures var w := ScanWalk(file, st);
      var r := AfterScan(file, st);
      && (!w.end.FooterAt? ==> r.footerImage == st.footerImage)
      && (w.end.FooterAt? ==>
            && IsFooter(Last(w.recs))
            && Last(w.starts) + OpSize <= |file|
            && r.footerImage[..FooterOpSize] == file[Last(w.starts)..Last(w.starts) + FooterOpSize])
      && (w.end.FooterAt? && w.end.dataPos + FooterDataSize <= |file| ==>
            r.footerImage[FooterOpSize..] == file[w.end.dataPos..w.end.dataPos + FooterDataSize])
      && (w.end.FooterAt? ==>
            var got := ReadFully(file, w.end.dataPos, FooterDataSize);
            && r.footerImage[FooterOpSize..FooterOpSize + |got|] == got
            && r.footerImage[FooterOpSize + |got|..] == st.footerImage[FooterOpSize + |got|..])
  {
    var w := ScanWalk(file, st);
    if w.end.FooterAt? {
      WalkOpsShape(file, HeaderSize, LastPos(st.fdSize, st.hasFooter));
      InlineFooterParts(file, st.footerImage, Last(w.starts), w.end.dataPos);
    }
  }

  /**
    The two halves of the footer image after an inline footer record at s:
    the record's op part, then the data bytes read, then what the image held.
  */
  lemma InlineFooterParts(file: seq<byte>, image: seq<byte>, s: nat, dataPos: nat)
    requires |image| == FooterSize && s + OpSize <= |file|
    ensures var r := InlineFooterImage(file, image, s, dataPos);
      && r[..FooterOpSize] == file[s..s + FooterOpSize]
      && (dataPos + FooterDataSize <= |file| ==> r[FooterOpSize..] == file[dataPos..dataPos + FooterDataSize])
      && var got := ReadFully(file, dataPos, FooterDataSize);
         && r[FooterOpSize..FooterOpSize + |got|] == got
         && r[FooterOpSize + |got|..] == image[FooterOpSize + |got|..]
  {
    var withOp := Overlay(image, 0, file[s..s + FooterOpSize]);
    var data := ReadFully(file, dataPos, FooterDataSize);
    var r := Overlay(withOp, FooterOpSize, data);
    assert r[..FooterOpSize] == withOp[..FooterOpSize];
    if dataPos + FooterDataSize <= |file| {
      assert r[FooterOpSize..] == data;
    }
    assert withOp[FooterOpSize..] == image[FooterOpSize..];
    assert r[FooterOpSize + |data|..] == withOp[FooterOpSize + |data|..];
  }

  /**
    How ParseOps ends. It fails exactly when a record cannot be read whole,
    when a seek leaves the off_t range, or when the container ends up with a
    footer (the tail footer or a complete inline one) whose count, size (a
    size_t product) or all-zero ops checksum does not match the records
    read. It aborts (the CHECK) exactly when otherwise too few real records
    are left to skip. It succeeds in every other case, and then stores the
    records read, the inline footer record included, minus the merged
    prefix. Only ops_ is written by the checks; a failure keeps the old list.
  */
  lemma ParseOpsOutcome(file: seq<byte>, st: ReaderState)
    requires WellFormed(st)
    ensures var w := ScanWalk(file, st);
      var a := AfterScan(file, st);
      var footer := DecodeFooter(a.footerImage);
      var footered := st.hasFooter || (w.end.FooterAt? && w.end.dataPos + FooterDataSize <= |file|);
      var matches := && |w.recs| == footer.op.numOps
                     && (|w.recs| * OpSize) % U64_LIMIT == footer.op.opsSize
                     && footer.data.opsChecksum == ZeroDigest;
      var (status, r) := ParseOpsSpec(file, st);
      && (status == Failed <==> w.end.ReadFailed? || w.end.SeekFailed? || (footered && !matches))
      && (status == Aborted <==> status != Failed && CountReal(w.recs) < st.header.numMergeOps)
      && (status == Parsed ==> EnoughRealOps(w.recs, st.header.numMergeOps) &&
                               r.ops == Prune(w.recs, st.header.numMergeOps))
      && (status != Parsed ==> r.ops == st.ops)
      && r.hasFooter == footered
      && r.header == st.header && r.fdSize == st.fdSize && r.footerImage == a.footerImage
      && r.hasLastLabel == a.hasLastLabel && r.lastLabel == a.lastLabel
  {
    AfterScanFooter(file, st);
  }

  /**
    An inline footer record stays in the stored list: after a successful
    parse that stopped at one, whatever the number of merged operations, it
    is the last stored operation, the same record as the last one read
    (which WalkOpsShape ties to the bytes it was read from).
  */
  lemma ParsedKeepsInlineFooter(file: seq<byte>, st: ReaderState)
    requires WellFormed(st)
    requires ParseOpsSpec(file, st).0 == Parsed && ScanWalk(file, st).end.FooterAt?
    ensures var ops := ParseOpsSpec(file, st).1.ops;
      var w := ScanWalk(file, st);
      ops != [] && IsFooter(Last(ops)) && Last(ops) == Last(w.recs)
  {
    var w := ScanWalk(file, st);
    var k := st.header.numMergeOps;
    ParseOpsOutcome(file, st);
    AfterScanFooterImage(file, st);
    var cut := MergedPrefixLen(w.recs, k);
    if k > 0 {
      assert !IsMetadata(w.recs[cut - 1]) && IsMetadata(w.recs[|w.recs| - 1]);
    }
    assert cut < |w.recs|;
  }

  /**
    A successful parse of a container with a footer has matched the footer:
    the stored count (inline footer record included) is num_ops, that many
    records take up ops_size bytes exactly (the size_t product cannot wrap
    for records that fit in the file), and ops_checksum is all zero.
  */
  lemma ParsedFooterMatches(file: seq<byte>, st: ReaderState)
    requires WellFormed(st) && |file| < OFF_LIMIT
    requires ParseOpsSpec(file, st).0 == Parsed && ParseOpsSpec(file, st).1.hasFooter
    ensures var w := ScanWalk(file, st);
      var footer := DecodeFooter(ParseOpsSpec(file, st).1.footerImage);
      && |w.recs| == footer.op.numOps
      && |w.recs| * OpSize == footer.op.opsSize
      && footer.data.opsChecksum == ZeroDigest
  {
    var w := ScanWalk(file, st);
    ParseOpsOutcome(file, st);
    WalkOpsFits(file, HeaderSize, LastPos(st.fdSize, st.hasFooter));
    var a := AfterScan(file, st);
    IntegrityReducesToZeroChecksum(w.recs, DecodeFooter(a.footerImage), ZeroDigest);
  }

  /**
    Without a footer the integrity checks are skipped: a scan that reaches
    its end and leaves enough real records to skip succeeds, recovering
    the records read.
  */
  lemma RecoveredWithoutFooter(file: seq<byte>, st: ReaderState)
    requires WellFormed(st) && !st.hasFooter
    requires ScanWalk(file, st).end.Reached?
    requires EnoughRealOps(ScanWalk(file, st).recs, st.header.numMergeOps)
    ensures ParseOpsSpec(file, st).0 == Parsed
    ensures ParseOpsSpec(file, st).1.ops == Prune(ScanWalk(file, st).recs, st.header.numMergeOps)
    ensures !ParseOpsSpec(file, st).1.hasFooter
  {
    AfterScanFooter(file, st);
  }

  /**
    When nothing is merged yet, a successful parse stores every record it
    read, in file order (WalkOpsShape says where each one comes from).
  */
  lemma ParsedStoresWalk(file: seq<byte>, st: ReaderState)
    requires WellFormed(st) && st.header.numMergeOps == 0
    requires ParseOpsSpec(file, st).0 == Parsed
    ensures ParseOpsSpec(file, st).1.ops == ScanWalk(file, st).recs
  {
    ParseOpsOutcome(file, st);
    PruneNothingMerged(ScanWalk(file, st).recs);
  }
}
