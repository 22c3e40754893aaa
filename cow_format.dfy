/** Optional values, used for the reader's "maybe" results. */
module Wrappers {
  datatype Option<T> = None | Some(value: T)
}

/**
  The on-disk vocabulary of a COW container: machine integers, the fixed
  record sizes, the format constants, the decoded header, operation and
  footer records, and the decoders that turn raw bytes into them.

  The struct layouts, the constants and GetNextOpOffset live in
  cow_format.h, which is not part of this model. They are therefore
  declared here as constants without a value: every proof holds for every
  choice of them that meets the subset types below. Those types record the
  only facts the reader relies on: every struct has a positive size that
  fits a 16-bit header field, the footer's op part is no larger than an
  operation record (the inline footer is copied out of one), and the tags
  compared by the reader are pairwise distinct.
*/
module CowFormat {
  import opened Wrappers

  const U64_LIMIT: nat := 0x1_0000_0000_0000_0000
  /** One past the largest file offset an off_t can hold. */
  const OFF_LIMIT: nat := 0x8000_0000_0000_0000

  type u64 = n: nat | n < 0x1_0000_0000_0000_0000
  /** A non-negative off_t. */
  type Offset = n: nat | n < 0x8000_0000_0000_0000
  type byte = bv8

  /** Unsigned 64-bit subtraction and addition, wrapping as in C. */
  function Sub64(a: u64, b: u64): (r: u64)
    ensures a >= b ==> r == a - b
    ensures a < b ==> r == a + U64_LIMIT - b
  {
    (a - b) % U64_LIMIT
  }

  function Add64(a: u64, b: u64): (r: u64)
    ensures a + b < U64_LIMIT ==> r == a + b
    ensures a + b >= U64_LIMIT ==> r == a + b - U64_LIMIT
  {
    (a + b) % U64_LIMIT
  }

  // ---------------------------------------------------------------------
  // Sizes of the packed on-disk structs (sizeof in the source).

  type StructSize = n: nat | 0 < n < 0x1_0000 witness 1

  const HeaderSize: StructSize
  const FooterOpSize: StructSize
  const FooterDataSize: StructSize
  type OpRecordSize = n: nat | FooterOpSize <= n < 0x1_0000 witness FooterOpSize
  const OpSize: OpRecordSize
  /** sizeof(CowFooter): the op part followed by the data part. */
  const FooterSize: nat := FooterOpSize + FooterDataSize

  // ---------------------------------------------------------------------
  // Format constants.

  const CowMagicNumber: u64
  const CowVersionMajor: u64
  const CowVersionMinor: u64

  const CowLabelOp: u64
  type FooterTag = t: u64 | t != CowLabelOp witness if CowLabelOp == 0 then 1 else 0
  const CowFooterOp: FooterTag

  const CowCompressNone: u64
  type GzTag = t: u64 | t != CowCompressNone witness if CowCompressNone == 0 then 1 else 0
  const CowCompressGz: GzTag
  type BrotliTag = t: u64 | t != CowCompressNone && t != CowCompressGz
    witness if CowCompressNone != 0 && CowCompressGz != 0 then 0
            else if CowCompressNone != 1 && CowCompressGz != 1 then 1 else 2
  const CowCompressBrotli: BrotliTag

  // ---------------------------------------------------------------------
  // Decoded records.

  /** n zero bytes. */
  function Zeros(n: nat): (s: seq<byte>)
    ensures |s| == n && forall i :: 0 <= i < n ==> s[i] == 0
  {
    if n == 0 then [] else [0] + Zeros(n - 1)
  }

  type Digest = s: seq<byte> | |s| == 32 witness Zeros(32)
  const ZeroDigest: Digest := Zeros(32)

  datatype CowHeader = CowHeader(
    magic: u64,
    majorVersion: u64,
    minorVersion: u64,
    headerSize: u64,
    footerSize: u64,
    blockSize: u64,
    numMergeOps: u64)

  /** A zero-initialised header, as `header_()` leaves it. */
  const ZeroHeader: CowHeader := CowHeader(0, 0, 0, 0, 0, 0, 0)

  datatype CowOperation = CowOperation(
    opType: u64,
    compression: u64,
    dataLength: u64,
    newBlock: u64,
    source: u64)

  datatype CowFooterOperation = CowFooterOperation(opType: u64, numOps: u64, opsSize: u64)
  datatype CowFooterData = CowFooterData(footerChecksum: Digest, opsChecksum: Digest)
  datatype CowFooter = CowFooter(op: CowFooterOperation, data: CowFooterData)

  predicate IsLabel(op: CowOperation) { op.opType == CowLabelOp }
  predicate IsFooter(op: CowOperation) { op.opType == CowFooterOp }
  /** Label and footer records are metadata; every other record is a real operation. */
  predicate IsMetadata(op: CowOperation) { IsLabel(op) || IsFooter(op) }

  // ---------------------------------------------------------------------
  // Decoders of the packed structs (their layout is not part of this model).

  const DecodeHeader: seq<byte> -> CowHeader
  const DecodeOp: seq<byte> -> CowOperation
  const DecodeFooterOp: seq<byte> -> CowFooterOperation
  const DecodeFooterData: seq<byte> -> CowFooterData

  /**
    Number of payload bytes that follow an operation record. Its values are
    below 2^63, so that it is a forward seek when handed to lseek as an off_t.
  */
  const GetNextOpOffset: CowOperation -> Offset

  /** The in-memory footer struct, read through its byte image. */
  function DecodeFooter(image: seq<byte>): CowFooter
    requires |image| == FooterSize
  {
    CowFooter(DecodeFooterOp(image[..FooterOpSize]), DecodeFooterData(image[FooterOpSize..]))
  }

  /** A zero-initialised footer struct, as `footer_()` leaves it. */
  const ZeroFooterImage: seq<byte> := Zeros(FooterSize)
}
