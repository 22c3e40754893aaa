/**
  The reader object and the objects it hands out: CowReader with its
  mutable fields, the forward and reverse operation iterators, and the
  bounded data stream ReadData gives a decompressor. The container is
  the byte sequence `file` that fd_ reads.
*/
module Reader {
  import opened Wrappers
  import opened CowFormat
  import opened CowMerge
  import opened CowParse
  import opened CowAccess

  /** What ReadData hands the decompressor: the stream over the op's payload and the block size. */
  datatype DecompressJob = DecompressJob(decompressor: Decompressor, stream: CowDataStream, blockSize: u64)

  class CowReader {
    /** The bytes behind fd_. */
    var file: seq<byte>
    var header: CowHeader
    /** footer_, as the bytes of the packed struct. */
    var footerImage: seq<byte>
    var fdSize: u64
    var hasFooter: bool
    var lastLabel: u64
    var hasLastLabel: bool
    /** ops_: the stored operation list; ParseOps replaces it with a new list. */
    var ops: seq<CowOperation>
    /**
      Whether ops_ points to a list: it is a null pointer until a ParseOps
      succeeds (cow_reader.cpp:216), and a later failing parse keeps the old list.
    */
    ghost var parsed: bool

    /** footer_ has its struct's size, and fd_size_ came from a non-negative off_t. */
    ghost predicate Valid()
      reads this
    {
      |footerImage| == FooterSize && fdSize < OFF_LIMIT
    }

    /** The fields Parse writes. */
    function State(): ReaderState
      reads this
    {
      ReaderState(header, footerImage, fdSize, hasFooter, lastLabel, hasLastLabel, ops)
    }

    constructor()
      ensures Valid() && State() == InitialState && file == [] && !parsed
    {
      file := [];
      header := ZeroHeader;
      footerImage := ZeroFooterImage;
      fdSize := 0;
      hasFooter := false;
      lastLabel := 0;
      hasLastLabel := false;
      ops := [];
      parsed := false;
    }

    /**
      Parse the container f: read and check the header, probe the tail for
      a footer, then scan the operations (ParseOps). Aborted stands for the
      CHECK that ends the process.
    */
    method Parse(f: seq<byte>) returns (status: Status)
      requires Valid()
      modifies this
      ensures Valid() && file == f
      ensures (status, State()) == ParseSpec(f, old(State()))
      ensures parsed == (old(parsed) || status == Parsed)
    {
      file := f;
      // lseek(SEEK_END) reports the size; a size past the off_t range cannot be reported.
      if |f| >= OFF_LIMIT {
        return Failed;
      }
      fdSize := |f|;
      if |f| < HeaderSize {
        return Failed;
      }
      header := DecodeHeader(f[..HeaderSize]);
      if header.magic != CowMagicNumber {
        return Failed;
      }
      if header.headerSize != HeaderSize {
        return Failed;
      }
      if header.footerSize != FooterSize {
        return Failed;
      }
      if header.majorVersion != CowVersionMajor || header.minorVersion != CowVersionMinor {
        return Failed;
      }
      var footerPos := SeekFromEnd(fdSize, header.footerSize);
      // The off_t result is compared with a uint64, so -1 becomes 2^64 - 1.
      var footerPosAsU64 := if footerPos < 0 then footerPos + U64_LIMIT else footerPos;
      if footerPosAsU64 != Sub64(fdSize, header.footerSize) {
        return Failed;
      }
      // A failed seek leaves the file offset just past the header.
      var readPos: nat := if footerPos < 0 then HeaderSize else footerPos;
      var got := ReadFully(file, readPos, FooterSize);
      footerImage := Overlay(footerImage, 0, got);
      if |got| < FooterSize {
        return Failed;
      }
      hasFooter := DecodeFooter(footerImage).op.opType == CowFooterOp;
      status := ParseOps();
    }

    /** Read the operation records, check them against the footer, and store them minus the merged prefix. */
    method ParseOps() returns (status: Status)
      requires Valid()
      modifies this
      ensures Valid() && file == old(file)
      ensures (status, State()) == ParseOpsSpec(file, old(State()))
      ensures parsed == (old(parsed) || status == Parsed)
    {
      var scanned, buffer := ScanOps();
      if !scanned {
        return Failed;
      }

      if hasFooter {
        var footer := DecodeFooter(footerImage);
        if |buffer| != footer.op.numOps {
          return Failed;
        }
        if (|buffer| * OpSize) % U64_LIMIT != footer.op.opsSize {
          return Failed;
        }
        var csum := ZeroDigest;
        // The digest of footer_.op would go to footer_checksum; the stub writes nothing.
        if csum != footer.data.opsChecksum {
          return Failed;
        }
        csum := Sha256Stub(buffer, csum);
        if csum != footer.data.opsChecksum {
          return Failed;
        }
      }

      var pruned := PruneMerged(buffer, header.numMergeOps);
      if pruned.None? {
        return Aborted;
      }
      ops := pruned.value;
      parsed := true;
      status := Parsed;
    }

    /**
      The scan of ParseOps: run the record loop, then, if it stopped at an
      inline footer record, the footer code of that record, which is the
      last thing the loop does before its break. The fields end up as
      AfterScan says on every path; the records read are returned unless a
      read or a seek failed.
    */
    method ScanOps() returns (scanned: bool, buffer: seq<CowOperation>)
      requires Valid()
      modifies this`footerImage, this`hasFooter, this`hasLastLabel, this`lastLabel
      ensures Valid()
      ensures State() == AfterScan(file, old(State()))
      ensures scanned <==> !(ScanWalk(file, old(State())).end.ReadFailed? || ScanWalk(file, old(State())).end.SeekFailed?)
      ensures scanned ==> buffer == ScanWalk(file, old(State())).recs
    {
      ghost var st0 := State();
      var lastPos := Sub64(fdSize, if hasFooter then FooterSize else OpSize);
      var end, footerStart, pending, has, last;
      end, buffer, footerStart, pending, has, last := ScanRecords(file, lastPos, hasFooter, hasLastLabel, lastLabel);
      if end.FooterAt? {
        WalkOpsShape(file, HeaderSize, lastPos);
        ScanExitAtFooter(file, st0, buffer, ScanWalk(file, st0).starts, footerStart, end.dataPos, pending, has, last);
        var full := TakeInlineFooter(footerStart, end.dataPos);
        if full {
          if pending.Some? {
            last := pending.value;
            has := true;
          }
        }
      } else {
        AfterScanNoFooter(file, st0);
      }
      hasLastLabel, lastLabel := has, last;
      scanned := !(end.ReadFailed? || end.SeekFailed?);
    }

    /**
      The footer code of the ParseOps loop for an inline footer record at s:
      copy the record's op part into footer_.op, then read footer_.data from
      dataPos; the footer counts as present once the whole data part is read.
    */
    method TakeInlineFooter(s: nat, dataPos: nat) returns (full: bool)
      requires Valid() && s + OpSize <= |file|
      modifies this`footerImage, this`hasFooter
      ensures Valid()
      ensures full == (|ReadFully(file, dataPos, FooterDataSize)| == FooterDataSize)
      ensures footerImage == Overlay(Overlay(old(footerImage), 0, file[s..s + FooterOpSize]), FooterOpSize,
                                     ReadFully(file, dataPos, FooterDataSize))
      ensures hasFooter == (old(hasFooter) || full)
    {
      footerImage := Overlay(footerImage, 0, file[s..s + FooterOpSize]);
      var data := ReadFully(file, dataPos, FooterDataSize);
      footerImage := Overlay(footerImage, FooterOpSize, data);
      full := |data| == FooterDataSize;
      if full {
        hasFooter := true;
      }
    }

    method GetHeader() returns (h: CowHeader)
      ensures h == header
    {
      h := header;
    }

    /** The footer, only when the container has one. */
    method GetFooter() returns (footer: Option<CowFooter>)
      requires Valid()
      ensures footer.Some? <==> hasFooter
      ensures footer.Some? ==> footer.value == DecodeFooter(footerImage)
    {
      if !hasFooter {
        return None;
      }
      footer := Some(DecodeFooter(footerImage));
    }

    /** The last trusted label, only when there is one. */
    method GetLastLabel() returns (trusted: Option<u64>)
      ensures trusted.Some? <==> hasLastLabel
      ensures trusted.Some? ==> trusted.value == lastLabel
    {
      if !hasLastLabel {
        return None;
      }
      trusted := Some(lastLabel);
    }

    method GetOpIter() returns (it: CowOpIter)
      requires parsed
      ensures fresh(it) && it.Valid() && it.ops == ops && it.Yielded() == [] && it.Remaining() == ops
    {
      it := new CowOpIter(ops);
    }

    method GetRevOpIter() returns (it: CowOpReverseIter)
      requires parsed
      ensures fresh(it) && it.Valid() && it.ops == ops && it.Yielded() == [] && it.Remaining() == Reversed(ops)
    {
      it := new CowOpReverseIter(ops);
    }

    /**
      Read up to len raw bytes at offset. After the range check, the seek
      fails only for an offset past the off_t range, and read(2) may return
      fewer bytes than asked, or fail; which of these happens is not decided
      by the reader, so it is left open here.
    */
    method GetRawBytes(offset: u64, len: u64) returns (ok: bool, data: seq<byte>)
      requires Valid()
      ensures ok ==> RawRangeAccepted(offset, len, fdSize) && offset + len < U64_LIMIT
      ensures ok ==> |data| <= len
      ensures ok && data != [] ==> offset + |data| <= |file| && data == file[offset..offset + |data|]
      ensures !ok ==> data == []
    {
      if !RawRangeAccepted(offset, len, fdSize) {
        return false, [];
      }
      if FooterSize <= fdSize {
        RawRangeGuardExact(offset, len, fdSize);
      }
      if offset >= OFF_LIMIT {
        return false, [];
      }
      var available := if offset < |file| then |file| - offset else 0;
      var rv: int :| -1 <= rv <= len && rv <= available;
      if rv < 0 {
        return false, [];
      }
      if rv == 0 {
        return true, [];
      }
      ok, data := true, file[offset..offset + rv];
    }

    /** Start reading op's payload: pick its decompressor and open a stream over its data. */
    method ReadData(op: CowOperation) returns (job: Option<DecompressJob>)
      ensures job.None? <==> DecompressorFor(op.compression).None?
      ensures job.Some? ==>
        && job.value.decompressor == DecompressorFor(op.compression).value
        && fresh(job.value.stream) && job.value.stream.Valid()
        && job.value.stream.reader == this
        && job.value.stream.offset == op.source
        && job.value.stream.remaining == op.dataLength
        && job.value.stream.Size() == op.dataLength
        && job.value.blockSize == header.blockSize
    {
      var decompressor: Decompressor;
      if op.compression == CowCompressNone {
        decompressor := Uncompressed;
      } else if op.compression == CowCompressGz {
        decompressor := Gz;
      } else if op.compression == CowCompressBrotli {
        decompressor := Brotli;
      } else {
        return None;
      }
      var stream := new CowDataStream(this, op.source, op.dataLength);
      job := Some(DecompressJob(decompressor, stream, header.blockSize));
    }

    /** Record m more merged operations; the stored list is not pruned again. */
    method UpdateMergeProgress(m: u64)
      modifies this
      ensures header == old(header).(numMergeOps := Add64(old(header.numMergeOps), m))
      ensures file == old(file) && footerImage == old(footerImage) && fdSize == old(fdSize)
      ensures hasFooter == old(hasFooter) && lastLabel == old(lastLabel) && hasLastLabel == old(hasLastLabel)
      ensures ops == old(ops) && parsed == old(parsed)
    {
      header := header.(numMergeOps := Add64(header.numMergeOps, m));
    }
  }

  /**
    The record loop of CowReader::ParseOps, from offset sizeof(header_)
    while the position is below lastPos: read a record, seek past its
    payload, and keep the label state (the pending label and the trusted
    one, has and last). It returns the records read, in order, and why it
    stopped, exactly as WalkOps describes, and the label state FoldLabels
    gives for those records. At an inline footer record it stops, and
    reports where that record starts and where its footer data is.
  */
  method ScanRecords(file: seq<byte>, lastPos: nat, hasFooter: bool, has0: bool, last0: u64)
    returns (end: WalkEnd, buffer: seq<CowOperation>, footerStart: nat, pending: Option<u64>, has: bool, last: u64)
    ensures var w := WalkOps(file, HeaderSize, lastPos);
      && end == w.end && buffer == w.recs
      && (end.FooterAt? ==> footerStart == Last(w.starts))
      && LabelState(pending, has, last) == FoldLabels(buffer, hasFooter, LabelState(None, has0, last0))
  {
    // lseek(sizeof(header_), SEEK_SET) lands where it is asked to.
    var pos: nat := HeaderSize;
    pending, has, last := None, has0, last0;
    buffer := [];
    footerStart := 0;
    ghost var starts: seq<nat> := [];
    ghost var walk := WalkOps(file, HeaderSize, lastPos);
    ghost var rest := walk;
    ghost var labels0 := LabelState(None, has0, last0);
    while pos < lastPos
      invariant rest == WalkOps(file, pos, lastPos)
      invariant walk == Walk(buffer + rest.recs, starts + rest.starts, rest.end)
      invariant LabelState(pending, has, last) == FoldLabels(buffer, hasFooter, labels0)
      decreases lastPos - pos
    {
      if pos + OpSize > |file| {
        WalkOpsShortRead(file, pos, lastPos);
        assert buffer + rest.recs == buffer;
        return ReadFailed, buffer, footerStart, pending, has, last;
      }
      var op := DecodeOp(file[pos..pos + OpSize]);
      var opPos := pos;
      var next := pos + OpSize + GetNextOpOffset(op);
      if next >= OFF_LIMIT {
        WalkOpsSeekOut(file, pos, lastPos);
        assert buffer + rest.recs == buffer;
        return SeekFailed, buffer, footerStart, pending, has, last;
      }
      if op.opType == CowFooterOp {
        WalkOpsStepFooter(file, pos, lastPos, walk, buffer, starts);
      } else {
        WalkOpsStep(file, pos, lastPos, walk, buffer, starts);
      }
      FoldLabelsSnoc(buffer, op, hasFooter, labels0);
      buffer := buffer + [op];
      starts := starts + [opPos];
      pos := next;
      rest := WalkOps(file, pos, lastPos);
      pending, has, last := TrackLabel(pending, has, last, op, hasFooter);
      if op.opType == CowFooterOp {
        // The footer code (TakeInlineFooter) runs before the break.
        return FooterAt(pos), buffer, opPos, pending, has, last;
      }
    }
    WalkOpsDone(file, pos, lastPos);
    assert buffer + rest.recs == buffer;
    end := Reached(pos);
  }

  /**
    The label bookkeeping of the ParseOps loop for the record op just read:
    a pending label is trusted now that a record follows it; a label record
    is trusted at once when the container has a footer, and otherwise
    becomes the pending one.
  */
  method TrackLabel(pending: Option<u64>, has: bool, last: u64, op: CowOperation, hasFooter: bool)
    returns (pending': Option<u64>, has': bool, last': u64)
    ensures LabelState(pending', has', last') == StepLabel(LabelState(pending, has, last), op, hasFooter)
  {
    pending', has', last' := pending, has, last;
    if pending.Some? {
      last' := pending.value;
      has' := true;
    }
    if op.opType == CowLabelOp {
      if hasFooter {
        has' := true;
        last' := op.source;
      } else {
        pending' := Some(op.source);
      }
    }
  }

  /** ops in reverse order. */
  function Reversed<T>(s: seq<T>): (r: seq<T>)
    ensures |r| == |s|
    ensures forall i :: 0 <= i < |s| ==> r[i] == s[|s| - 1 - i]
  {
    if s == [] then [] else [Last(s)] + Reversed(DropLast(s))
  }

  /** Forward iterator over one stored operation list, which later parses do not affect. */
  class CowOpIter {
    const ops: seq<CowOperation>
    var index: nat

    ghost predicate Valid()
      reads this
    {
      index <= |ops|
    }

    /** The operations already stepped over, and those still to come. */
    ghost function Yielded(): seq<CowOperation>
      reads this
      requires Valid()
    {
      ops[..index]
    }

    ghost function Remaining(): seq<CowOperation>
      reads this
      requires Valid()
    {
      ops[index..]
    }

    constructor(ops: seq<CowOperation>)
      ensures Valid() && this.ops == ops && index == 0
    {
      this.ops := ops;
      index := 0;
    }

    /** Done exactly when no operation remains. */
    predicate Done()
      reads this
      requires Valid()
      ensures Done() <==> Remaining() == []
    {
      index == |ops|
    }

    method Get() returns (op: CowOperation)
      requires Valid() && !Done()
      ensures op == Remaining()[0]
    {
      op := ops[index];
    }

    method Next()
      requires Valid() && !Done()
      modifies this
      ensures Valid()
      ensures Yielded() == old(Yielded()) + [old(Remaining())[0]]
      ensures Remaining() == old(Remaining())[1..]
    {
      index := index + 1;
    }

    /** Every operation is yielded, in stored order: what came and what is left make up the list. */
    lemma Covers()
      requires Valid()
      ensures Yielded() + Remaining() == ops
      ensures Done() ==> Yielded() == ops
    {
      assert ops[..index] + ops[index..] == ops;
    }
  }

  /** Reverse iterator over one stored operation list. */
  class CowOpReverseIter {
    const ops: seq<CowOperation>
    /** How many operations, counted from the back, have been stepped over. */
    var count: nat

    ghost predicate Valid()
      reads this
    {
      count <= |ops|
    }

    ghost function Yielded(): seq<CowOperation>
      reads this
      requires Valid()
    {
      Reversed(ops)[..count]
    }

    ghost function Remaining(): seq<CowOperation>
      reads this
      requires Valid()
    {
      Reversed(ops)[count..]
    }

    constructor(ops: seq<CowOperation>)
      ensures Valid() && this.ops == ops && count == 0
    {
      this.ops := ops;
      count := 0;
    }

    predicate Done()
      reads this
      requires Valid()
      ensures Done() <==> Remaining() == []
    {
      count == |ops|
    }

    method Get() returns (op: CowOperation)
      requires Valid() && !Done()
      ensures op == Remaining()[0]
      ensures op == ops[|ops| - 1 - count]
    {
      op := ops[|ops| - 1 - count];
    }

    method Next()
      requires Valid() && !Done()
      modifies this
      ensures Valid()
      ensures Yielded() == old(Yielded()) + [old(Remaining())[0]]
      ensures Remaining() == old(Remaining())[1..]
    {
      count := count + 1;
    }

    /** Every operation is yielded, last stored first. */
    lemma Covers()
      requires Valid()
      ensures Yielded() + Remaining() == Reversed(ops)
      ensures Done() ==> Yielded() == Reversed(ops)
    {
      assert Reversed(ops)[..count] + Reversed(ops)[count..] == Reversed(ops);
    }
  }

  /**
    The stream a decompressor reads an operation's payload from: it never
    goes past data_length bytes from where it started, and reads the
    reader's raw bytes in order.
  */
  class CowDataStream {
    const reader: CowReader
    var offset: u64
    const dataLength: u64
    var remaining: u64
    /** The offset the stream started at. */
    ghost const start: nat

    ghost predicate Valid()
      reads this
    {
      start <= offset && offset + remaining == start + dataLength
    }

    constructor(reader: CowReader, offset: u64, dataLength: u64)
      ensures Valid() && this.reader == reader && this.offset == offset && this.dataLength == dataLength
      ensures remaining == dataLength && start == offset
    {
      this.reader := reader;
      this.offset := offset;
      this.dataLength := dataLength;
      remaining := dataLength;
      start := offset;
    }

    /**
      Read at most length bytes, never more than remain: an empty request
      or an exhausted stream succeeds with nothing; otherwise what the raw
      read returns is consumed. A failed read changes nothing.
    */
    method Read(length: u64) returns (ok: bool, data: seq<byte>)
      requires Valid() && reader.Valid()
      modifies this
      ensures Valid()
      ensures |data| <= length && |data| <= old(remaining)
      ensures (length == 0 || old(remaining) == 0) ==> ok && data == []
      ensures ok ==> offset == old(offset) + |data| && remaining == old(remaining) - |data|
      ensures ok && data != [] ==>
        old(offset) + |data| <= |reader.file| && data == reader.file[old(offset)..old(offset) + |data|]
      ensures !ok ==> data == [] && offset == old(offset) && remaining == old(remaining)
    {
      var toRead := if length < remaining then length else remaining;
      if toRead == 0 {
        return true, [];
      }
      ok, data := reader.GetRawBytes(offset, toRead);
      if !ok {
        return;
      }
      offset := offset + |data|;
      remaining := remaining - |data|;
    }

    /** The payload's whole length, however much of it has been consumed. */
    function Size(): (n: u64)
      reads this
      ensures Valid() ==> n == (offset - start) + remaining
    {
      dataLength
    }
  }
}
