/** Return codes, sector constants and block contents shared by every module. */
module Prelude {

  /** The kernel error numbers the engine returns, with Success for 0. */
  datatype Errno = Success | NoMem | IoError | NoSpace | Invalid | NoData | Busy

  datatype Option<+T> = None | Some(value: T)

  datatype Result<+T> = Ok(value: T) | Err(error: Errno)

  /** Sectors of 512 bytes in one 4 KiB block (ZNS_BASE_BLOCK_SECTORS, ZNS_SST_BLOCK_SECTORS). */
  const BLOCK_SECTORS: nat := 8
  const SECTOR_BYTES: nat := 512
  const BLOCK_BYTES: nat := 4096

  /** One more than the largest 32-bit and the largest 64-bit unsigned value. */
  const U32: nat := 0x1_0000_0000
  const U64: nat := 0x1_0000_0000_0000_0000

  type u32 = x: nat | x < U32 witness 0

  /** A 64-bit unsigned value: a sector number or a logical block number. */
  type u64 = x: nat | x < U64 witness 0

  /** The largest value of the 64-bit sector_t. */
  const MAX_SECTOR: nat := U64 - 1

  newtype byte = x: int | 0 <= x < 256

  /** The contents of one 4 KiB block. */
  type Block = b: seq<byte> | |b| == BLOCK_BYTES witness seq(BLOCK_BYTES, i => 0)

  function ZeroBlock(): (b: Block)
    ensures forall i | 0 <= i < BLOCK_BYTES :: b[i] == 0
  {
    seq(BLOCK_BYTES, i => 0)
  }

  /** Bytes data in place of the ones at [offset, offset + |data|). */
  function Splice(s: seq<byte>, offset: nat, data: seq<byte>): (r: seq<byte>)
    requires offset + |data| <= |s|
    ensures |r| == |s|
    ensures forall k | 0 <= k < |s| :: r[k] == if offset <= k < offset + |data| then data[k - offset] else s[k]
  {
    s[..offset] + data + s[offset + |data|..]
  }
}
