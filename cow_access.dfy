/**
  The pure rules behind data access: the range CowReader::GetRawBytes
  accepts, and the decompressor CowReader::ReadData picks for an
  operation's compression tag.
*/
module CowAccess {
  import opened Wrappers
  import opened CowFormat

  /**
    The range check of GetRawBytes exactly as written: every comparison
    and the sum offset + len are in uint64 (size_t), so they can wrap.
  */
  predicate RawRangeAccepted(offset: u64, len: u64, fdSize: u64) {
    var limit := Sub64(fdSize, FooterSize);
    !(offset < HeaderSize || offset >= limit || len >= fdSize || Add64(offset, len) > limit)
  }

  /** The range the check is meant to allow: inside the file, past the header, before the footer. */
  predicate RawRangeInBounds(offset: nat, len: nat, fdSize: nat) {
    && HeaderSize <= offset
    && offset + FooterSize < fdSize
    && len < fdSize
    && offset + len + FooterSize <= fdSize
  }

  /**
    For any real file size (at least one footer long, and an off_t), the
    wrapping check accepts a range exactly when it is in bounds: the guards
    on offset and len keep offset + len from wrapping.
  */
  lemma RawRangeGuardExact(offset: u64, len: u64, fdSize: u64)
    requires FooterSize <= fdSize < OFF_LIMIT
    ensures RawRangeAccepted(offset, len, fdSize) <==> RawRangeInBounds(offset, len, fdSize)
  {
    if RawRangeAccepted(offset, len, fdSize) {
      assert offset + len < U64_LIMIT;
    }
  }

  /** The check without its len guard: the part that cannot see a wrapped sum. */
  predicate RawRangeAcceptedWithoutLenGuard(offset: u64, len: u64, fdSize: u64) {
    var limit := Sub64(fdSize, FooterSize);
    !(offset < HeaderSize || offset >= limit || Add64(offset, len) > limit)
  }

  /**
    The len guard is needed: without it a length close to 2^64 makes
    offset + len wrap to a small value and a range far past the end of the
    file would pass.
  */
  lemma LenGuardNeeded()
    ensures var fdSize := HeaderSize + FooterSize + 1;
      var offset := HeaderSize;
      var len := U64_LIMIT - HeaderSize;
      && RawRangeAcceptedWithoutLenGuard(offset, len, fdSize)
      && !RawRangeInBounds(offset, len, fdSize)
      && !RawRangeAccepted(offset, len, fdSize)
  {
    var fdSize := HeaderSize + FooterSize + 1;
    var offset := HeaderSize;
    var len := U64_LIMIT - HeaderSize;
    assert Add64(offset, len) == 0;
  }

  /** The decompressors ReadData can hand the data stream to. */
  datatype Decompressor = Uncompressed | Gz | Brotli

  /** The switch of ReadData: one decompressor per known tag, nothing for any other tag. */
  function DecompressorFor(compression: u64): (d: Option<Decompressor>)
    ensures d == Some(Uncompressed) <==> compression == CowCompressNone
    ensures d == Some(Gz) <==> compression == CowCompressGz
    ensures d == Some(Brotli) <==> compression == CowCompressBrotli
    ensures d.None? <==>
      compression != CowCompressNone && compression != CowCompressGz && compression != CowCompressBrotli
  {
    if compression == CowCompressNone then Some(Uncompressed)
    else if compression == CowCompressGz then Some(Gz)
    else if compression == CowCompressBrotli then Some(Brotli)
    else None
  }
}
