// The flag words the AMI driver passes to the AMC when it copies a flash
// partition or downloads a PDI image chunk by chunk.  Each macro packs or
// unpacks bytes and bit fields of one 32-bit word.
module AmiProgram {

  const MaxPartition: int := 15
  const MaxDevice: int := 1

  /** The partition byte of a PDI flag word when the FPT is being updated. */
  const FptUpdateFlag: bv8 := 0xAA
  const FptUpdateMagic: bv32 := 0xAAAA_AAAA
  const PdiProgramFlag: bv8 := 0xBB
  const PdiProgramMagic: bv32 := 0xBBBB_BBBB
  const PdiChunkMultiplier: int := 1024
  const PdiChunkSize: int := 6144

  /** The C cast (uint8_t): the low byte. */
  function U8(x: bv32): (r: bv8)
    ensures r as bv32 == x % 256
  {
    (x & 0xFF) as bv8
  }

  // ---------------------------------------------------------------------
  // Partition-copy flags: 0xAABBCCDD
  // ---------------------------------------------------------------------

  /** MK_PARTITION_FLAGS: source device, source partition, destination
      device and destination partition, one byte each from the top. */
  function MkPartitionFlags(srcDevice: bv32, srcPart: bv32, destDevice: bv32, destPart: bv32): (flags: bv32)
    ensures DeviceSrc(flags) == U8(srcDevice) && PartitionSrc(flags) == U8(srcPart)
    ensures DeviceDest(flags) == U8(destDevice) && PartitionDest(flags) == U8(destPart)
  {
    ((U8(srcDevice) as bv32) << 24) | ((U8(srcPart) as bv32) << 16)
      | ((U8(destDevice) as bv32) << 8) | (U8(destPart) as bv32)
  }

  /** DEVICE_SRC. */
  function DeviceSrc(flags: bv32): bv8 { U8(flags >> 24) }

  /** PARTITION_SRC. */
  function PartitionSrc(flags: bv32): bv8 { U8(flags >> 16) }

  /** DEVICE_DEST. */
  function DeviceDest(flags: bv32): bv8 { U8(flags >> 8) }

  /** PARTITION_DEST. */
  function PartitionDest(flags: bv32): bv8 { U8(flags) }

  /** Every word is the packing of its own four fields. */
  lemma PartitionFlagsRebuild(flags: bv32)
    ensures MkPartitionFlags(DeviceSrc(flags) as bv32, PartitionSrc(flags) as bv32,
                             DeviceDest(flags) as bv32, PartitionDest(flags) as bv32) == flags
  {
  }

  // ---------------------------------------------------------------------
  // PDI download flags: 0xAABBCCCC
  // ---------------------------------------------------------------------

  const LastChunkBit: bv16 := 0x8000

  /** The low half-word of MK_PDI_FLAGS: the chunk number as a uint16 with
      bit 15 set for the last chunk and cleared otherwise. */
  function ChunkHalf(chunk: bv32, last: bool): bv16
  {
    var c := (chunk & 0xFFFF) as bv16;
    if last then c | LastChunkBit else c & !LastChunkBit
  }

  /** MK_PDI_FLAGS: boot device, partition (FptUpdateFlag when updating the
      FPT), then the chunk number with its last-chunk bit. */
  function MkPdiFlags(boot: bv32, part: bv32, chunk: bv32, last: bool): (flags: bv32)
    ensures PdiBootDevice(flags) == U8(boot) && PdiPartition(flags) == U8(part)
    ensures PdiChunk(flags) as bv32 == chunk % 0x8000
    ensures PdiChunkIsLast(flags) == (if last then 1 else 0)
    ensures (flags & 0x8000 != 0) <==> last
  {
    ((U8(boot) as bv32) << 24) | ((U8(part) as bv32) << 16) | (ChunkHalf(chunk, last) as bv32)
  }

  /** PDI_BOOT_DEVICE. */
  function PdiBootDevice(flags: bv32): bv8 { U8(flags >> 24) }

  /** PDI_PARTITION. */
  function PdiPartition(flags: bv32): bv8 { U8(flags >> 16) }

  /** PDI_CHUNK: the low half-word without its last-chunk bit. */
  function PdiChunk(flags: bv32): bv16
  {
    ((flags & 0x0000_FFFF) as bv16) & !LastChunkBit
  }

  /** PDI_CHUNK_IS_LAST: bit 15, either 1 or 0. */
  function PdiChunkIsLast(flags: bv32): (r: bv16)
    ensures r <= 1
  {
    ((flags & 0x0000_FFFF) as bv16) >> 15
  }

  /** Every word is the packing of its own fields. */
  lemma PdiFlagsRebuild(flags: bv32)
    ensures MkPdiFlags(PdiBootDevice(flags) as bv32, PdiPartition(flags) as bv32,
                       PdiChunk(flags) as bv32, PdiChunkIsLast(flags) == 1) == flags
  {
  }

  /** The FPT marker is no partition number, its magic word is the marker
      in every byte, and a PDI chunk is a whole number of 1024-byte units. */
  lemma ProgramConstants()
    ensures FptUpdateFlag as int > MaxPartition && PdiProgramFlag as int > MaxPartition
    ensures FptUpdateMagic == MkPartitionFlags(0xAA, 0xAA, 0xAA, 0xAA)
    ensures PdiProgramMagic == MkPartitionFlags(0xBB, 0xBB, 0xBB, 0xBB)
    ensures PdiChunkSize % PdiChunkMultiplier == 0
  {
  }
}
