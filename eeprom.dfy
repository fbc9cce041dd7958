// The manufacturing EEPROM driver of the AMC firmware (RAVE profile).  The
// driver keeps one private record: its configuration, the FRU board-info
// fields it read at initialisation, and its statistics counters.  It talks
// to the device over I2C; the bus is an oracle that answers each transfer
// with a status and, for reads, the bytes received.
module Eeprom {
  import Wrappers

  type Byte = x: int | 0 <= x < 256

  /** The OK / ERROR return codes. */
  datatype Status = Ok | Error

  /** EEPROM_CFG: which bus and device, how the device is addressed. */
  datatype Cfg = Cfg(i2cBus: Byte, slaveAddress: Byte, addressSize: Byte, pageSize: Byte,
                     deviceId: int, deviceIdAddress: Byte, deviceIdRegister: Byte)

  /** The configuration before initialisation: all zero. */
  const ZeroCfg := Cfg(0, 0, 0, 0, 0, 0, 0)

  /** The RAVE profile's configuration: 2-byte addressing, 32-byte pages. */
  const RaveCfg := Cfg(0, 0x57, 2, 32, 0x0A01, 0x1A, 0x07)

  /** EEPROM_VERSION: the one supported layout, and the out-of-range value. */
  datatype Version = Version1_0 | VersionMax

  /** One I2C transaction, as the driver hands it to the bus: a send of the
      register address followed by data (iI2C_Send), a send of the register
      address followed by a read of `readLen` bytes (iI2C_SendRecv), or a
      one-byte register select followed by a read (iI2C_SendRecv).  The
      bytes each puts on the wire are given by Frame below. */
  datatype Transfer =
    | MemWrite(bus: Byte, target: Byte, addressSize: Byte, offset: Byte, data: seq<Byte>)
    | MemRead(bus: Byte, target: Byte, addressSize: Byte, offset: Byte, readLen: nat)
    | RegisterRead(bus: Byte, target: Byte, register: Byte, readLen: nat)

  /** The I2C bus: whether the n-th transfer succeeds, and the k-th byte it
      delivers when it is a read. */
  datatype I2cBus = I2cBus(sendOk: (nat, Transfer) -> bool, recvByte: (nat, Transfer, int) -> Byte)

  function Received(bus: I2cBus, n: nat, t: Transfer, len: nat): (r: seq<Byte>)
    ensures |r| == len
    ensures forall k :: 0 <= k < len ==> r[k] == bus.recvByte(n, t, k)
  {
    seq<Byte>(len, k => bus.recvByte(n, t, k))
  }

  const UpperFirewall: bv32 := 0xBABECAFE
  const LowerFirewall: bv32 := 0xDEADFACE

  /** Values the driver writes into a field when the EEPROM holds 0xFF. */
  const DefaultValue := 0xFF

  function Min(a: int, b: int): int { if a <= b then a else b }

  // ---------------------------------------------------------------------
  // I2C frames

  /** The register address that starts every frame: with 2-byte addressing
      the high byte is 0 and the offset follows; otherwise the offset alone. */
  function AddressFrame(addressSize: Byte, offset: Byte): (r: seq<Byte>)
    requires 1 <= addressSize <= 2
    ensures |r| == addressSize
  {
    if addressSize == 2 then [0, offset] else [offset]
  }

  /** A write frame: the address, then the data. */
  function WriteFrame(addressSize: Byte, offset: Byte, data: seq<Byte>): seq<Byte>
    requires 1 <= addressSize <= 2
  {
    AddressFrame(addressSize, offset) + data
  }

  /** Reading a write frame back: the offset and the data it carries. */
  function FrameOffset(addressSize: Byte, frame: seq<Byte>): Byte
    requires 1 <= addressSize <= 2 && |frame| >= addressSize
  {
    frame[addressSize - 1]
  }

  function FramePayload(addressSize: Byte, frame: seq<Byte>): seq<Byte>
    requires 1 <= addressSize <= 2 && |frame| >= addressSize
  {
    frame[addressSize..]
  }

  /** The bytes a transfer sends before it reads anything back. */
  function Frame(t: Transfer): seq<Byte>
    requires t.RegisterRead? || 1 <= t.addressSize <= 2
  {
    match t
    case MemWrite(_, _, addressSize, offset, data) => WriteFrame(addressSize, offset, data)
    case MemRead(_, _, addressSize, offset, _) => AddressFrame(addressSize, offset)
    case RegisterRead(_, _, register, _) => [register]
  }

  /** A frame is the address size plus the data long; with 2-byte
      addressing it starts with a zero byte; the offset and the data read
      back from it. */
  lemma WriteFrameLayout(addressSize: Byte, offset: Byte, data: seq<Byte>)
    requires 1 <= addressSize <= 2
    ensures var f := WriteFrame(addressSize, offset, data);
      && |f| == addressSize + |data|
      && (addressSize == 2 ==> f[0] == 0)
      && FrameOffset(addressSize, f) == offset
      && FramePayload(addressSize, f) == data
  {
    var f := WriteFrame(addressSize, offset, data);
    assert f[addressSize..] == data;
  }

  // ---------------------------------------------------------------------
  // Splitting a raw write into page writes

  /** A write of `length` bytes at EEPROM offset `offset`. */
  datatype Chunk = Chunk(offset: int, length: int)

  /** The bytes that fit before the next page boundary, when the start is
      not on one; none when it is. */
  function FirstPageBytes(addr: nat, size: nat, page: nat): (n: nat)
    requires page > 0
  {
    if addr % page == 0 then 0 else Min(page - addr % page, size)
  }

  /** Whole pages from an offset, then the remainder. */
  function PageChunks(offset: int, remaining: nat, page: nat): seq<Chunk>
    requires page > 0
    decreases remaining
  {
    if remaining == 0 then []
    else
      var n := if page <= remaining then page else remaining;
      [Chunk(offset, n)] + PageChunks(offset + n, remaining - n, page)
  }

  /** The writes iEEPROM_WriteRawValue issues for `size` bytes at `addr`:
      one single-byte write for size 1; otherwise the head of the first
      page when `addr` is not page-aligned, then page after page. */
  function RawWritePlan(addr: nat, size: nat, page: nat): seq<Chunk>
    requires size == 1 || page > 0
  {
    if size == 1 then [Chunk(addr, 1)]
    else
      var first := FirstPageBytes(addr, size, page);
      (if addr % page != 0 then [Chunk(addr, first)] else []) + PageChunks(addr + first, size - first, page)
  }

  /** The chunks follow one another from `start`, without gaps. */
  predicate Contiguous(plan: seq<Chunk>, start: int)
    decreases |plan|
  {
    |plan| == 0 || (plan[0].offset == start && Contiguous(plan[1..], start + plan[0].length))
  }

  function Total(plan: seq<Chunk>): int
    decreases |plan|
  {
    if |plan| == 0 then 0 else plan[0].length + Total(plan[1..])
  }

  /** No chunk runs past the end of the page it starts in. */
  predicate WithinPages(plan: seq<Chunk>, page: nat)
    requires page > 0
  {
    forall j :: 0 <= j < |plan| ==> 0 <= plan[j].length && plan[j].offset % page + plan[j].length <= page
  }

  lemma MulNonNegative(a: int, b: int)
    requires a >= 0 && b >= 0
    ensures a * b >= 0
  {
  }

  /** Division by a positive page size is unique: q pages and r < page
      bytes are the quotient and the remainder. */
  lemma DivModUnique(x: int, page: int, q: int, r: int)
    requires page > 0 && 0 <= r < page && x == q * page + r
    ensures x / page == q && x % page == r
  {
    var k := q - x / page;
    assert k * page == x % page - r;
  }

  /** The next page starts a page further on. */
  lemma AlignedStep(offset: int, page: nat)
    requires page > 0 && offset % page == 0
    ensures (offset + page) % page == 0
  {
    DivModUnique(offset + page, page, offset / page + 1, 0);
  }

  /** Filling up the first page ends on a page boundary. */
  lemma FirstPageEndsAligned(addr: nat, page: nat)
    requires page > 0
    ensures (addr + (page - addr % page)) % page == 0
  {
    DivModUnique(addr + (page - addr % page), page, addr / page + 1, 0);
  }

  lemma {:induction false} PageChunksShape(offset: int, remaining: nat, page: nat)
    requires page > 0
    ensures var plan := PageChunks(offset, remaining, page);
      && Contiguous(plan, offset) && Total(plan) == remaining
      && forall j :: 0 <= j < |plan| ==> 0 < plan[j].length <= page
    decreases remaining
  {
    if remaining > 0 {
      var n := if page <= remaining then page else remaining;
      var plan := PageChunks(offset, remaining, page);
      var rest := PageChunks(offset + n, remaining - n, page);
      PageChunksShape(offset + n, remaining - n, page);
      assert plan[1..] == rest;
      assert forall j :: 1 <= j < |plan| ==> plan[j] == rest[j - 1];
    }
  }

  /** Page chunks from a page boundary each start on a boundary. */
  lemma {:induction false} PageChunksAligned(offset: int, remaining: nat, page: nat)
    requires page > 0 && offset % page == 0
    ensures forall j :: 0 <= j < |PageChunks(offset, remaining, page)| ==>
      PageChunks(offset, remaining, page)[j].offset % page == 0
    decreases remaining
  {
    if remaining > 0 {
      var n := if page <= remaining then page else remaining;
      var plan := PageChunks(offset, remaining, page);
      var rest := PageChunks(offset + n, remaining - n, page);
      if remaining - n > 0 {
        assert n == page;
        AlignedStep(offset, page);
        PageChunksAligned(offset + n, remaining - n, page);
      } else {
        assert rest == [];
      }
      assert plan == [Chunk(offset, n)] + rest;
      forall j | 0 <= j < |plan|
        ensures plan[j].offset % page == 0
      {
        if j > 0 {
          assert plan[j] == rest[j - 1];
        }
      }
    }
  }

  lemma {:induction false} TotalAppend(a: seq<Chunk>, b: seq<Chunk>)
    ensures Total(a + b) == Total(a) + Total(b)
    decreases |a|
  {
    if |a| > 0 {
      assert (a + b)[0] == a[0];
      assert (a + b)[1..] == a[1..] + b;
      TotalAppend(a[1..], b);
    } else {
      assert a + b == b;
    }
  }

  /** Page chunks from a page boundary: contiguous, adding up to what
      remains, none empty and each inside its page. */
  lemma AlignedPageChunksFit(offset: int, remaining: nat, page: nat)
    requires page > 0 && offset % page == 0
    ensures var plan := PageChunks(offset, remaining, page);
      && Contiguous(plan, offset) && Total(plan) == remaining && WithinPages(plan, page)
      && forall j :: 0 <= j < |plan| ==> plan[j].length > 0
  {
    PageChunksShape(offset, remaining, page);
    PageChunksAligned(offset, remaining, page);
  }

  /** The plan from an unaligned start: the head of the first page, then
      page chunks from the next boundary. */
  lemma UnalignedPlanShape(addr: nat, size: nat, page: nat)
    requires page > 0 && size != 1 && addr % page != 0
    ensures var plan := RawWritePlan(addr, size, page);
      && Contiguous(plan, addr) && Total(plan) == size && WithinPages(plan, page)
      && plan[0] == Chunk(addr, Min(page - addr % page, size))
      && (forall j :: 1 <= j < |plan| ==> plan[j].length > 0)
  {
    var plan := RawWritePlan(addr, size, page);
    var first := FirstPageBytes(addr, size, page);
    var tail := PageChunks(addr + first, size - first, page);
    if size - first > 0 {
      FirstPageEndsAligned(addr, page);
      AlignedPageChunksFit(addr + first, size - first, page);
    } else {
      assert tail == [];
    }
    assert plan == [Chunk(addr, first)] + tail;
    assert plan[1..] == tail;
    assert forall j :: 1 <= j < |plan| ==> plan[j] == tail[j - 1];
  }

  /** The plan of a raw write: the chunks start at `addr`, follow one
      another, add up to `size`, each fits in the page it starts in (so
      none is longer than a page and none crosses a boundary), and the
      first is min(page - addr % page, size) when `addr` is not aligned. */
  lemma RawWritePlanShape(addr: nat, size: nat, page: nat)
    requires page > 0
    ensures var plan := RawWritePlan(addr, size, page);
      && Contiguous(plan, addr) && Total(plan) == size && WithinPages(plan, page)
      && (size != 1 && addr % page != 0 ==> plan[0] == Chunk(addr, Min(page - addr % page, size)))
      && (forall j :: 1 <= j < |plan| ==> plan[j].length > 0)
      && (size > 0 ==> forall j :: 0 <= j < |plan| ==> plan[j].length > 0)
  {
    var plan := RawWritePlan(addr, size, page);
    if size == 1 {
      assert plan == [Chunk(addr, 1)];
      assert Contiguous(plan[1..], addr + 1);
      assert Total(plan[1..]) == 0;
    } else if addr % page == 0 {
      assert plan == PageChunks(addr, size, page);
      AlignedPageChunksFit(addr, size, page);
    } else {
      UnalignedPlanShape(addr, size, page);
    }
  }

  /** Every chunk of a plan lies inside [addr, addr + size) and starts below 256. */
  predicate PlanFits(plan: seq<Chunk>, addr: nat, size: nat)
  {
    forall j :: 0 <= j < |plan| ==>
      addr <= plan[j].offset && 0 <= plan[j].length && plan[j].offset + plan[j].length <= addr + size
      && plan[j].offset < 256
  }

  lemma {:induction false} ContiguousFits(plan: seq<Chunk>, start: int, addr: nat, size: nat)
    requires Contiguous(plan, start) && addr <= start
    requires forall j :: 0 <= j < |plan| ==> 0 <= plan[j].length
    requires start + Total(plan) == addr + size
    ensures forall j :: 0 <= j < |plan| ==>
      addr <= plan[j].offset && plan[j].offset + plan[j].length <= addr + size
    decreases |plan|
  {
    if |plan| > 0 {
      TotalNonNegative(plan[1..]);
      ContiguousFits(plan[1..], start + plan[0].length, addr, size);
      assert forall j :: 1 <= j < |plan| ==> plan[j] == plan[1..][j - 1];
    }
  }

  lemma {:induction false} TotalNonNegative(plan: seq<Chunk>)
    requires forall j :: 0 <= j < |plan| ==> 0 <= plan[j].length
    ensures Total(plan) >= 0
    decreases |plan|
  {
    if |plan| > 0 {
      TotalNonNegative(plan[1..]);
    }
  }

  /** When the write stays inside the 256-byte offset space, every chunk
      addresses bytes of the caller's data and an 8-bit offset. */
  lemma RawWritePlanFits(addr: nat, size: nat, page: nat)
    requires size == 1 || page > 0
    requires addr < 256 && addr + size <= 256
    ensures PlanFits(RawWritePlan(addr, size, page), addr, size)
  {
    var plan := RawWritePlan(addr, size, page);
    if size == 1 {
      assert plan == [Chunk(addr, 1)];
    } else {
      RawWritePlanShape(addr, size, page);
      ContiguousFits(plan, addr, addr, size);
      if |plan| > 0 {
        assert plan[0].offset == addr;
      }
    }
  }

  /** The plan as the source carries it out: ucOffset is a uint8, so every
      chunk's EEPROM offset is reduced modulo 256, and its data is taken
      from index (offset mod 256) - addr of the caller's buffer. */
  function PlanAsWritten(plan: seq<Chunk>): (r: seq<Chunk>)
    ensures |r| == |plan|
    ensures forall j :: 0 <= j < |r| ==> 0 <= r[j].offset < 256 && r[j].length == plan[j].length
  {
    seq(|plan|, j requires 0 <= j < |plan| => Chunk(plan[j].offset % 256, plan[j].length))
  }

  /** Inside the 256-byte offset space the 8-bit offset never wraps, and the
      plan as written is the plan. */
  lemma PlanAsWrittenAgrees(addr: nat, size: nat, page: nat)
    requires size == 1 || page > 0
    requires addr < 256 && addr + size <= 256
    ensures PlanAsWritten(RawWritePlan(addr, size, page)) == RawWritePlan(addr, size, page)
  {
    var plan := RawWritePlan(addr, size, page);
    RawWritePlanFits(addr, size, page);
    forall j | 0 <= j < |plan|
      ensures PlanAsWritten(plan)[j] == plan[j]
    {
      assert 0 <= plan[j].offset < 256;
    }
  }

  /** Two bytes at 0xFF with 32-byte pages: as written, the second write
      goes to offset 0 and takes its byte from index -255, in front of the
      caller's buffer. */
  lemma RawWriteOffsetWraps()
    ensures RawWritePlan(255, 2, 32) == [Chunk(255, 1), Chunk(256, 1)]
    ensures PlanAsWritten(RawWritePlan(255, 2, 32)) == [Chunk(255, 1), Chunk(0, 1)]
    ensures PlanAsWritten(RawWritePlan(255, 2, 32))[1].offset - 255 < 0
  {
    assert PageChunks(256, 1, 32) == [Chunk(256, 1)] + PageChunks(257, 0, 32);
  }

  // ---------------------------------------------------------------------
  // Board-info fields and their version 1.0 layout

  /** The fields the getters hand out. */
  datatype Field =
    | EepromVersion | ProductName | BoardRev | BoardSerial | NumMacIds | BoardMac
    | ActivePassive | ConfigMode | MfgDate | PartNum | Uuid | PcieInfo | MaxPowerMode
    | MemorySize | OemId | Capability | MfgPartNum

  /** Field sizes of layout 1.0; fields the layout does not have are 0. */
  function V1Size(f: Field): Byte
  {
    match f
    case EepromVersion => 1
    case ProductName => 16
    case PartNum => 9
    case BoardRev => 8
    case BoardSerial => 16
    case NumMacIds => 1
    case BoardMac => 6
    case MfgDate => 3
    case Uuid => 16
    case MfgPartNum => 9
    case _ => 0
  }

  /** EEPROM_BUF_SIZE: the size of the driver's EEPROM image buffer. */
  const EepromBufSize := 128

  /** Field offsets of layout 1.0.  The board revision is the manufacturing
      part revision; the board and manufacturing part numbers share 0x38. */
  function V1Offset(f: Field): Byte
  {
    match f
    case EepromVersion => 0x00
    case ProductName => 0x16
    case BoardRev => 0x44
    case BoardSerial => 0x27
    case NumMacIds => 0x7C
    case BoardMac => 0x83
    case MfgDate => 0x0B
    case PartNum => 0x38
    case MfgPartNum => 0x38
    case Uuid => 0x56
    case _ => 0
  }

  /** The fields that have a buffer in the board-info record. */
  predicate HasBuffer(f: Field)
  {
    f in {EepromVersion, ProductName, PartNum, MfgPartNum, BoardRev, BoardSerial, MfgDate, BoardMac, Uuid}
  }

  /** Buffer lengths: one more than the field, for the terminating NUL.  The
      part-number buffer is sized from its offset (0x38 + 1), not its size. */
  function BufferLength(f: Field): (n: nat)
    ensures HasBuffer(f) ==> V1Size(f) < n
  {
    match f
    case EepromVersion => 2
    case ProductName => 17
    case PartNum => 0x39
    case MfgPartNum => 10
    case BoardRev => 9
    case BoardSerial => 17
    case MfgDate => 4
    case BoardMac => 7
    case Uuid => 17
    case _ => 0
  }

  /** Every 1.0 field that has a buffer leaves room for the terminator, and
      every field lies inside the 256 offsets a one-byte EEPROM address
      reaches (the last one ends at 0x89).  The MAC is the only field that
      ends past the first EEPROM_BUF_SIZE (128) bytes. */
  lemma V1LayoutFits(f: Field)
    ensures HasBuffer(f) ==> V1Size(f) < BufferLength(f)
    ensures V1Offset(f) + V1Size(f) <= 0x89 <= 256
    ensures V1Offset(f) + V1Size(f) > EepromBufSize <==> f == BoardMac
    ensures !HasBuffer(f) && f != NumMacIds ==> V1Size(f) == 0
  {
  }

  function Zeros(n: nat): (r: seq<Byte>)
    ensures |r| == n && forall k :: 0 <= k < n ==> r[k] == 0
  {
    seq<Byte>(n, k => 0)
  }

  /** The board-info record as the driver starts: every buffer zero. */
  function InitialBoard(): (m: map<Field, seq<Byte>>)
    ensures forall f :: f in m <==> HasBuffer(f)
    ensures forall f :: f in m ==> m[f] == Zeros(BufferLength(f))
  {
    map[EepromVersion := Zeros(2), ProductName := Zeros(17), PartNum := Zeros(0x39),
        MfgPartNum := Zeros(10), BoardRev := Zeros(9), BoardSerial := Zeros(17),
        MfgDate := Zeros(4), BoardMac := Zeros(7), Uuid := Zeros(17)]
  }

  /** A board-info record: a buffer for exactly the fields that have one,
      each at its declared length. */
  predicate BoardShape(m: map<Field, seq<Byte>>)
  {
    && BufferOk(m, EepromVersion) && BufferOk(m, ProductName) && BufferOk(m, PartNum)
    && BufferOk(m, MfgPartNum) && BufferOk(m, BoardRev) && BufferOk(m, BoardSerial)
    && BufferOk(m, MfgDate) && BufferOk(m, BoardMac) && BufferOk(m, Uuid)
  }

  predicate BufferOk(m: map<Field, seq<Byte>>, f: Field)
  {
    f in m && |m[f]| == BufferLength(f)
  }

  /** Storing a buffer of the same length keeps the record's shape. */
  lemma BoardStore(m: map<Field, seq<Byte>>, f: Field, v: seq<Byte>)
    requires BoardShape(m) && f in m && |v| == |m[f]|
    ensures BoardShape(m[f := v])
  {
  }

  /** The MAC count the FRU record implies: the multirecord length less the
      IANA identifier (3 bytes) and version (1 byte), in 6-byte MACs. */
  function MacCount(recordLength: Byte): (r: Byte)
    ensures r <= 41
  {
    if recordLength >= 4 then (recordLength - 4) / 6 else 0
  }

  /** The count is the number of whole MACs the record holds after its
      four-byte prefix: they fit, and one more would not. */
  lemma MacCountFits(recordLength: Byte)
    ensures recordLength >= 4 ==>
      4 + 6 * MacCount(recordLength) <= recordLength < 4 + 6 * (MacCount(recordLength) + 1)
    ensures recordLength < 4 ==> MacCount(recordLength) == 0
  {
  }

  /** The terminator iEepromReadField writes after a field of `size`
      bytes: inside the buffer, or, when the buffer has only `size` bytes,
      past its end (None). */
  function StoreTerminator(buf: seq<Byte>, size: nat): (r: Wrappers.Option<seq<Byte>>)
    ensures r.Some? <==> size < |buf|
    ensures r.Some? ==> |r.value| == |buf| && r.value[size] == 0 && r.value[..size] == buf[..size]
  {
    if size < |buf| then Wrappers.Some(buf[size := 0]) else Wrappers.None
  }

  /** The local buffer iEEPROM_Initialise reads the MAC count into, as
      written: EEPROM_V1_0_TOT_MAC_ID_SIZE bytes, the size of the field. */
  function MacCountBufferAsWritten(): (r: seq<Byte>)
    ensures |r| == V1Size(NumMacIds)
  {
    Zeros(1)
  }

  /** As written, the terminator of the one-byte MAC-count field lands
      just past the one-byte buffer. */
  lemma MacCountTerminatorOverruns()
    ensures StoreTerminator(MacCountBufferAsWritten(), V1Size(NumMacIds)) == Wrappers.None
  {
  }

  /** The corrected buffer: one byte more, for the terminator. */
  function MacCountBuffer(): (r: seq<Byte>)
    ensures |r| == V1Size(NumMacIds) + 1
  {
    Zeros(2)
  }

  /** With the corrected buffer the terminator fits. */
  lemma MacCountTerminatorFits()
    ensures StoreTerminator(MacCountBuffer(), V1Size(NumMacIds)).Some?
  {
  }

  /** A field read into its buffer as a successful read leaves it. */
  predicate Loaded(m: map<Field, seq<Byte>>, f: Field)
  {
    f in m && Terminated(m[f], V1Size(f), f == BoardMac)
  }

  /** Every field iEEPROM_Initialise reads into its buffer after the version. */
  predicate FieldsLoaded(m: map<Field, seq<Byte>>)
  {
    && Loaded(m, ProductName) && Loaded(m, BoardRev) && Loaded(m, BoardSerial) && Loaded(m, BoardMac)
    && Loaded(m, MfgDate) && Loaded(m, PartNum) && Loaded(m, Uuid) && Loaded(m, MfgPartNum)
  }

  /** A byte as a non-MAC field stores it: an unprogrammed 0xFF reads as NUL. */
  function Clean(b: Byte, isMac: bool): Byte
  {
    if !isMac && b == DefaultValue then 0 else b
  }

  // ---------------------------------------------------------------------
  // Statistics counters

  const StatInitialisation := 0
  const StatChecksum := 1
  const StatReadField := 2
  const StatSingleByteRead := 3
  const StatMultiByteRead := 4
  const StatSingleByteWrite := 5
  const StatMultiByteWrite := 6
  const StatVerifyDeviceId := 7
  const StatsMax := 8

  const ErrInitialisation := 0
  const ErrSingleByteRead := 1
  const ErrMultiByteRead := 2
  const ErrSingleByteWrite := 3
  const ErrMultiByteWrite := 4
  const ErrInvalidVersion := 5
  const ErrIncorrectVersion := 6
  const ErrChecksum := 7
  const ErrReadField := 8
  const ErrValidation := 9
  const ErrDeviceIdRead := 10
  const ErrVerifyDeviceId := 11
  const ErrorMax := 12

  /** Counter k raised by m. */
  function AddAt(c: seq<nat>, k: nat, m: nat): (r: seq<nat>)
    requires k < |c|
  {
    c[k := c[k] + m]
  }

  lemma AddAtTwice(c: seq<nat>, k: nat, a: nat, b: nat)
    requires k < |c|
    ensures AddAt(AddAt(c, k, a), k, b) == AddAt(c, k, a + b)
  {
  }

  predicate AddressSizeOk(c: Cfg)
  {
    1 <= c.addressSize <= 2
  }

  /** The counters iEEPROM_Initialise itself keeps are as they were. */
  predicate InitCountsKept(s0: seq<nat>, e0: seq<nat>, s1: seq<nat>, e1: seq<nat>)
  {
    && |s0| == |s1| == StatsMax && |e0| == |e1| == ErrorMax
    && s1[StatInitialisation] == s0[StatInitialisation]
    && e1[ErrInitialisation] == e0[ErrInitialisation]
  }

  function ReadRequest(c: Cfg, offset: Byte, len: nat): Transfer
    requires AddressSizeOk(c)
  {
    MemRead(c.i2cBus, c.slaveAddress, c.addressSize, offset, len)
  }

  function WriteRequest(c: Cfg, offset: Byte, data: seq<Byte>): Transfer
  {
    MemWrite(c.i2cBus, c.slaveAddress, c.addressSize, offset, data)
  }

  /** What a field read leaves behind: one single-byte read per byte from
      consecutive (wrapping) offsets, stopping at the first failure; each
      byte read is stored, 0xFF as NUL unless the field is a MAC; the byte
      after the field is set to NUL; the call succeeds only when every byte
      was read, so a zero-sized field is an error. */
  predicate FieldRead(bus: I2cBus, base: nat, sent: seq<Transfer>, c: Cfg, offset: Byte,
                      prior: seq<Byte>, size: Byte, isMac: bool, out: seq<Byte>, status: Status)
    requires AddressSizeOk(c) && size < |prior|
  {
    && |sent| <= size && (size > 0 ==> |sent| > 0)
    && (forall j :: 0 <= j < |sent| ==> sent[j] == ReadRequest(c, (offset + j) % 256, 1))
    && (forall j :: 0 <= j < |sent| - 1 ==> bus.sendOk(base + j, sent[j]))
    && (status == Ok <==> size > 0 && |sent| == size && bus.sendOk(base + size - 1, sent[size - 1]))
    && (0 < |sent| < size ==> !bus.sendOk(base + |sent| - 1, sent[|sent| - 1]))
    && |out| == |prior| && out[size] == 0 && out[size + 1..] == prior[size + 1..]
    && (forall j :: 0 <= j < |sent| ==>
          out[j] == Clean(if bus.sendOk(base + j, sent[j]) then bus.recvByte(base + j, sent[j], 0) else prior[j], isMac))
    && (forall j :: |sent| <= j < size ==> out[j] == prior[j])
  }

  /** A field buffer as a successful read leaves it: NUL-terminated, and
      without 0xFF bytes unless it is a MAC. */
  predicate Terminated(buf: seq<Byte>, size: nat, isMac: bool)
  {
    size < |buf| && buf[size] == 0 && (!isMac ==> forall j :: 0 <= j < size ==> buf[j] != DefaultValue)
  }

  lemma FieldReadTerminated(bus: I2cBus, base: nat, sent: seq<Transfer>, c: Cfg, offset: Byte,
                            prior: seq<Byte>, size: Byte, isMac: bool, out: seq<Byte>)
    requires AddressSizeOk(c) && size < |prior|
    requires FieldRead(bus, base, sent, c, offset, prior, size, isMac, out, Ok)
    ensures Terminated(out, size, isMac)
  {
  }

  /** A one-byte field read is a single transfer from the field's offset:
      the byte it stores is the byte received, when the read succeeds. */
  lemma FieldReadSingle(bus: I2cBus, base: nat, sent: seq<Transfer>, c: Cfg, offset: Byte,
                        prior: seq<Byte>, isMac: bool, out: seq<Byte>, status: Status)
    requires AddressSizeOk(c) && 1 < |prior|
    requires FieldRead(bus, base, sent, c, offset, prior, 1, isMac, out, status)
    ensures sent == [ReadRequest(c, offset, 1)]
    ensures status == Ok <==> bus.sendOk(base, sent[0])
    ensures status == Ok ==> out[0] == Clean(bus.recvByte(base, sent[0], 0), isMac)
    ensures |out| == |prior| && out[1] == 0
  {
    assert sent[0] == ReadRequest(c, (offset + 0) % 256, 1);
  }

  /** The first i bytes of a field read went through: one good single-byte
      read each from consecutive offsets, stored cleaned; the rest of the
      buffer is as it was. */
  predicate ReadSoFar(bus: I2cBus, base: nat, sent: seq<Transfer>, c: Cfg, offset: Byte,
                      prior: seq<Byte>, isMac: bool, out: seq<Byte>, i: nat)
    requires AddressSizeOk(c)
  {
    && |sent| == i && |out| == |prior| && i <= |prior|
    && (forall j :: i <= j < |out| ==> out[j] == prior[j])
    && (forall j :: 0 <= j < i ==> sent[j] == ReadRequest(c, (offset + j) % 256, 1))
    && (forall j :: 0 <= j < i ==> bus.sendOk(base + j, sent[j]))
    && (forall j :: 0 <= j < i ==> out[j] == Clean(bus.recvByte(base + j, sent[j], 0), isMac))
  }

  lemma ReadSoFarStep(bus: I2cBus, base: nat, sent: seq<Transfer>, c: Cfg, offset: Byte,
                      prior: seq<Byte>, isMac: bool, out: seq<Byte>, i: nat, t: Transfer, v: Byte)
    requires AddressSizeOk(c) && ReadSoFar(bus, base, sent, c, offset, prior, isMac, out, i) && i < |prior|
    requires t == ReadRequest(c, (offset + i) % 256, 1) && bus.sendOk(base + i, t)
    requires v == bus.recvByte(base + i, t, 0)
    ensures ReadSoFar(bus, base, sent + [t], c, offset, prior, isMac, out[i := Clean(v, isMac)], i + 1)
  {
  }

  /** A field read that got through all `size` bytes. */
  lemma FieldReadComplete(bus: I2cBus, base: nat, sent: seq<Transfer>, c: Cfg, offset: Byte,
                          prior: seq<Byte>, size: Byte, isMac: bool, out: seq<Byte>, status: Status)
    requires AddressSizeOk(c) && size < |prior|
    requires ReadSoFar(bus, base, sent, c, offset, prior, isMac, out, size)
    requires status == Ok <==> size > 0
    ensures FieldRead(bus, base, sent, c, offset, prior, size, isMac, out[size := 0], status)
  {
    assert out[size := 0][size + 1..] == prior[size + 1..];
  }

  /** A field read that stopped at the failed read of byte i. */
  lemma FieldReadStopped(bus: I2cBus, base: nat, sent: seq<Transfer>, c: Cfg, offset: Byte,
                         prior: seq<Byte>, size: Byte, isMac: bool, out: seq<Byte>, i: nat, t: Transfer)
    requires AddressSizeOk(c) && size < |prior| && i < size
    requires ReadSoFar(bus, base, sent, c, offset, prior, isMac, out, i)
    requires t == ReadRequest(c, (offset + i) % 256, 1) && !bus.sendOk(base + i, t)
    ensures FieldRead(bus, base, sent + [t], c, offset, prior, size, isMac, out[i := Clean(prior[i], isMac)][size := 0], Error)
  {
    var o := out[i := Clean(prior[i], isMac)][size := 0];
    assert o[size + 1..] == prior[size + 1..];
  }

  /** The single-byte reads of a field of `size` bytes at `offset`, in the
      order iEepromReadField issues them. */
  function FieldRequests(c: Cfg, offset: Byte, size: Byte): (ts: seq<Transfer>)
    requires AddressSizeOk(c)
    ensures |ts| == size
    ensures forall j :: 0 <= j < size ==> ts[j] == ReadRequest(c, (offset + j) % 256, 1)
  {
    seq(size, j requires 0 <= j < size => ReadRequest(c, (offset + j) % 256, 1))
  }

  /** The buffer a field read leaves when all its reads succeed, issued
      from trace position n on: the bytes the bus returned, 0xFF turned into
      NUL unless the field is a MAC, then NUL, then the rest of the buffer
      as it was. */
  function FieldBytes(bus: I2cBus, n: nat, c: Cfg, offset: Byte, size: Byte, isMac: bool, prior: seq<Byte>): (r: seq<Byte>)
    requires AddressSizeOk(c) && size < |prior|
    ensures |r| == |prior| && r[size] == 0 && r[size + 1..] == prior[size + 1..]
  {
    var r := FieldBytesUpTo(bus, n, c, offset, size, isMac, prior, |prior|);
    FieldBytesAt(bus, n, c, offset, size, isMac, prior, |prior|, size);
    assert r[size + 1..] == prior[size + 1..] by {
      forall j | size + 1 <= j < |prior|
        ensures r[j] == prior[j]
      {
        FieldBytesAt(bus, n, c, offset, size, isMac, prior, |prior|, j);
      }
    }
    r
  }

  /** The first k bytes of FieldBytes, built a byte at a time. */
  function FieldBytesUpTo(bus: I2cBus, n: nat, c: Cfg, offset: Byte, size: Byte, isMac: bool,
                          prior: seq<Byte>, k: nat): (r: seq<Byte>)
    requires AddressSizeOk(c) && k <= |prior|
    ensures |r| == k
  {
    if k == 0 then [] else FieldBytesUpTo(bus, n, c, offset, size, isMac, prior, k - 1) + [FieldByte(bus, n, c, offset, size, isMac, prior, k - 1)]
  }

  /** Byte j of FieldBytesUpTo is FieldByte. */
  lemma {:induction false} FieldBytesAt(bus: I2cBus, n: nat, c: Cfg, offset: Byte, size: Byte, isMac: bool,
                                        prior: seq<Byte>, k: nat, j: nat)
    requires AddressSizeOk(c) && k <= |prior| && j < k
    ensures FieldBytesUpTo(bus, n, c, offset, size, isMac, prior, k)[j] == FieldByte(bus, n, c, offset, size, isMac, prior, j)
  {
    if j < k - 1 {
      FieldBytesAt(bus, n, c, offset, size, isMac, prior, k - 1, j);
    }
  }

  function FieldByte(bus: I2cBus, n: nat, c: Cfg, offset: Byte, size: Byte, isMac: bool, prior: seq<Byte>, j: nat): Byte
    requires AddressSizeOk(c) && j < |prior|
  {
    if j < size then Clean(bus.recvByte(n + j, ReadRequest(c, (offset + j) % 256, 1), 0), isMac)
    else if j == size then 0 else prior[j]
  }

  /** A field read that succeeds issued exactly the field's reads and left
      exactly FieldBytes. */
  lemma FieldReadOk(bus: I2cBus, base: nat, sent: seq<Transfer>, c: Cfg, offset: Byte,
                    prior: seq<Byte>, size: Byte, isMac: bool, out: seq<Byte>)
    requires AddressSizeOk(c) && size < |prior|
    requires FieldRead(bus, base, sent, c, offset, prior, size, isMac, out, Ok)
    ensures sent == FieldRequests(c, offset, size)
    ensures out == FieldBytes(bus, base, c, offset, size, isMac, prior)
  {
    var r := FieldBytes(bus, base, c, offset, size, isMac, prior);
    forall j | 0 <= j < |out|
      ensures out[j] == r[j]
    {
      FieldBytesAt(bus, base, c, offset, size, isMac, prior, |prior|, j);
      if j > size {
        assert out[j] == out[size + 1..][j - size - 1];
        assert r[j] == r[size + 1..][j - size - 1];
      }
    }
  }

  /** FieldBytes is a loaded field: NUL-terminated and, unless it is the
      MAC, free of unprogrammed bytes. */
  lemma FieldBytesTerminated(bus: I2cBus, n: nat, c: Cfg, offset: Byte, size: Byte, isMac: bool, prior: seq<Byte>)
    requires AddressSizeOk(c) && size < |prior|
    ensures Terminated(FieldBytes(bus, n, c, offset, size, isMac, prior), size, isMac)
  {
    var r := FieldBytes(bus, n, c, offset, size, isMac, prior);
    forall j | 0 <= j < size
      ensures !isMac ==> r[j] != DefaultValue
    {
      FieldBytesAt(bus, n, c, offset, size, isMac, prior, |prior|, j);
    }
  }

  /** The field reads of iEEPROM_Initialise, one byte per transfer, come in
      three stages: the product name, the board revision and the serial
      number (40 transfers); the MAC count, the MAC and the manufacturing
      date (10); the part number, the UUID and the manufacturing part
      number (34). */
  const FieldReadsLength: nat := 84

  /** The reads of a one-byte field are one transfer. */
  lemma SingleRequest(c: Cfg, offset: Byte)
    requires AddressSizeOk(c)
    ensures FieldRequests(c, offset, 1) == [ReadRequest(c, offset, 1)]
  {
    assert FieldRequests(c, offset, 1)[0] == ReadRequest(c, (offset + 0) % 256, 1);
  }

  function ProductRequests(c: Cfg): (ts: seq<Transfer>)
    requires AddressSizeOk(c)
    ensures |ts| == 40
  {
    FieldRequests(c, V1Offset(ProductName), V1Size(ProductName))
    + FieldRequests(c, V1Offset(BoardRev), V1Size(BoardRev))
    + FieldRequests(c, V1Offset(BoardSerial), V1Size(BoardSerial))
  }

  function MacRequests(c: Cfg): (ts: seq<Transfer>)
    requires AddressSizeOk(c)
    ensures |ts| == 10
  {
    FieldRequests(c, V1Offset(NumMacIds), V1Size(NumMacIds))
    + FieldRequests(c, V1Offset(BoardMac), V1Size(BoardMac))
    + FieldRequests(c, V1Offset(MfgDate), V1Size(MfgDate))
  }

  function PartRequests(c: Cfg): (ts: seq<Transfer>)
    requires AddressSizeOk(c)
    ensures |ts| == 34
  {
    FieldRequests(c, V1Offset(PartNum), V1Size(PartNum))
    + FieldRequests(c, V1Offset(Uuid), V1Size(Uuid))
    + FieldRequests(c, V1Offset(MfgPartNum), V1Size(MfgPartNum))
  }

  /** Every transfer of the field reads, in order. */
  function BoardRequests(c: Cfg): (ts: seq<Transfer>)
    requires AddressSizeOk(c)
    ensures |ts| == FieldReadsLength
  {
    ProductRequests(c) + MacRequests(c) + PartRequests(c)
  }

  /** Field f of `after` is what reading it into its buffer in `before`
      left, its reads having started at trace position `at`. */
  predicate ReadInto(bus: I2cBus, c: Cfg, at: nat, before: map<Field, seq<Byte>>, after: map<Field, seq<Byte>>, f: Field)
    requires AddressSizeOk(c)
  {
    && f in before && f in after && V1Size(f) < |before[f]|
    && after[f] == FieldBytes(bus, at, c, V1Offset(f), V1Size(f), f == BoardMac, before[f])
  }

  /** The MAC count a read of the record length at trace position `at` gives. */
  function MacCountAt(bus: I2cBus, c: Cfg, at: nat): Byte
    requires AddressSizeOk(c)
  {
    MacCount(Clean(bus.recvByte(at, ReadRequest(c, V1Offset(NumMacIds), 1), 0), false))
  }

  /** The first stage, its reads begun at trace position n. */
  predicate ProductReadFrom(bus: I2cBus, c: Cfg, n: nat, before: map<Field, seq<Byte>>, after: map<Field, seq<Byte>>)
    requires AddressSizeOk(c)
  {
    && ReadInto(bus, c, n, before, after, ProductName)
    && ReadInto(bus, c, n + 16, before, after, BoardRev)
    && ReadInto(bus, c, n + 24, before, after, BoardSerial)
  }

  /** The second stage: the MAC count the record length read implies, then
      the MAC and the manufacturing date. */
  predicate MacReadFrom(bus: I2cBus, c: Cfg, n: nat, before: map<Field, seq<Byte>>,
                        after: map<Field, seq<Byte>>, macs: Byte)
    requires AddressSizeOk(c)
  {
    && macs == MacCountAt(bus, c, n)
    && ReadInto(bus, c, n + 1, before, after, BoardMac)
    && ReadInto(bus, c, n + 7, before, after, MfgDate)
  }

  /** The third stage. */
  predicate PartReadFrom(bus: I2cBus, c: Cfg, n: nat, before: map<Field, seq<Byte>>, after: map<Field, seq<Byte>>)
    requires AddressSizeOk(c)
  {
    && ReadInto(bus, c, n, before, after, PartNum)
    && ReadInto(bus, c, n + 9, before, after, Uuid)
    && ReadInto(bus, c, n + 25, before, after, MfgPartNum)
  }

  /** The board-info record after field reads that all succeeded, begun at
      trace position n: every field holds the bytes its reads returned, and
      the MAC count is the count the record length read implies. */
  predicate BoardReadFrom(bus: I2cBus, c: Cfg, n: nat, before: map<Field, seq<Byte>>,
                          after: map<Field, seq<Byte>>, macs: Byte)
    requires AddressSizeOk(c)
  {
    && ProductReadFrom(bus, c, n, before, after)
    && MacReadFrom(bus, c, n + 40, before, after, macs)
    && PartReadFrom(bus, c, n + 50, before, after)
  }

  /** The trace ends with the field reads, and the record holds what they
      returned. */
  predicate BoardLoadedFrom(bus: I2cBus, c: Cfg, trace: seq<Transfer>, before: map<Field, seq<Byte>>,
                            after: map<Field, seq<Byte>>, macs: Byte)
  {
    && AddressSizeOk(c) && |trace| >= FieldReadsLength
    && trace[|trace| - FieldReadsLength..] == BoardRequests(c)
    && BoardReadFrom(bus, c, |trace| - FieldReadsLength, before, after, macs)
  }

  /** A record read from the EEPROM is loaded: every field NUL-terminated
      and, except the MAC, free of unprogrammed bytes; the MAC count is at
      most 41. */
  lemma BoardReadLoaded(bus: I2cBus, c: Cfg, n: nat, before: map<Field, seq<Byte>>,
                        after: map<Field, seq<Byte>>, macs: Byte)
    requires AddressSizeOk(c) && BoardReadFrom(bus, c, n, before, after, macs)
    ensures FieldsLoaded(after) && macs <= 41
  {
    FieldBytesTerminated(bus, n, c, V1Offset(ProductName), V1Size(ProductName), false, before[ProductName]);
    FieldBytesTerminated(bus, n + 16, c, V1Offset(BoardRev), V1Size(BoardRev), false, before[BoardRev]);
    FieldBytesTerminated(bus, n + 24, c, V1Offset(BoardSerial), V1Size(BoardSerial), false, before[BoardSerial]);
    FieldBytesTerminated(bus, n + 41, c, V1Offset(BoardMac), V1Size(BoardMac), true, before[BoardMac]);
    FieldBytesTerminated(bus, n + 47, c, V1Offset(MfgDate), V1Size(MfgDate), false, before[MfgDate]);
    FieldBytesTerminated(bus, n + 50, c, V1Offset(PartNum), V1Size(PartNum), false, before[PartNum]);
    FieldBytesTerminated(bus, n + 59, c, V1Offset(Uuid), V1Size(Uuid), false, before[Uuid]);
    FieldBytesTerminated(bus, n + 75, c, V1Offset(MfgPartNum), V1Size(MfgPartNum), false, before[MfgPartNum]);
  }

  /** The first two read stages, the second against the record the first
      left, make up one read of the fields they cover: the second stage
      keeps the fields the first read, and the first did not touch the
      fields the second reads. */
  lemma LeadingReadComposed(bus: I2cBus, c: Cfg, n: nat, b0: map<Field, seq<Byte>>, b1: map<Field, seq<Byte>>,
                            b2: map<Field, seq<Byte>>, macs: Byte)
    requires AddressSizeOk(c) && BoardShape(b0)
    requires ProductName in b1 && BoardRev in b1 && BoardSerial in b1
    requires b1 == b0[ProductName := b1[ProductName]][BoardRev := b1[BoardRev]][BoardSerial := b1[BoardSerial]]
    requires BoardMac in b2 && MfgDate in b2
    requires b2 == b1[BoardMac := b2[BoardMac]][MfgDate := b2[MfgDate]]
    requires ProductReadFrom(bus, c, n, b0, b1)
    requires MacReadFrom(bus, c, n + 40, b1, b2, macs)
    ensures ProductReadFrom(bus, c, n, b0, b2) && MacReadFrom(bus, c, n + 40, b0, b2, macs)
  {
    assert Agree(b1, b2, ProductName) && Agree(b1, b2, BoardRev) && Agree(b1, b2, BoardSerial);
    assert Agree(b1, b0, BoardMac) && Agree(b1, b0, MfgDate);
    ReadIntoFrame(bus, c, n, b0, b1, b0, b2, ProductName);
    ReadIntoFrame(bus, c, n + 16, b0, b1, b0, b2, BoardRev);
    ReadIntoFrame(bus, c, n + 24, b0, b1, b0, b2, BoardSerial);
    ReadIntoFrame(bus, c, n + 41, b1, b2, b0, b2, BoardMac);
    ReadIntoFrame(bus, c, n + 47, b1, b2, b0, b2, MfgDate);
  }

  /** The last read stage, against the record the first two left, completes
      the read of the whole record. */
  lemma BoardReadComposed(bus: I2cBus, c: Cfg, n: nat, b0: map<Field, seq<Byte>>,
                          b2: map<Field, seq<Byte>>, b3: map<Field, seq<Byte>>, macs: Byte)
    requires AddressSizeOk(c) && BoardShape(b0)
    requires ProductName in b2 && BoardRev in b2 && BoardSerial in b2 && BoardMac in b2 && MfgDate in b2
    requires b2 == b0[ProductName := b2[ProductName]][BoardRev := b2[BoardRev]][BoardSerial := b2[BoardSerial]]
                     [BoardMac := b2[BoardMac]][MfgDate := b2[MfgDate]]
    requires PartNum in b3 && Uuid in b3 && MfgPartNum in b3
    requires b3 == b2[PartNum := b3[PartNum]][Uuid := b3[Uuid]][MfgPartNum := b3[MfgPartNum]]
    requires ProductReadFrom(bus, c, n, b0, b2) && MacReadFrom(bus, c, n + 40, b0, b2, macs)
    requires PartReadFrom(bus, c, n + 50, b2, b3)
    ensures BoardReadFrom(bus, c, n, b0, b3, macs)
  {
    assert Agree(b2, b3, ProductName) && Agree(b2, b3, BoardRev) && Agree(b2, b3, BoardSerial);
    assert Agree(b2, b3, BoardMac) && Agree(b2, b3, MfgDate);
    assert Agree(b2, b0, PartNum) && Agree(b2, b0, Uuid) && Agree(b2, b0, MfgPartNum);
    ReadIntoFrame(bus, c, n, b0, b2, b0, b3, ProductName);
    ReadIntoFrame(bus, c, n + 16, b0, b2, b0, b3, BoardRev);
    ReadIntoFrame(bus, c, n + 24, b0, b2, b0, b3, BoardSerial);
    ReadIntoFrame(bus, c, n + 41, b0, b2, b0, b3, BoardMac);
    ReadIntoFrame(bus, c, n + 47, b0, b2, b0, b3, MfgDate);
    ReadIntoFrame(bus, c, n + 50, b2, b3, b0, b3, PartNum);
    ReadIntoFrame(bus, c, n + 59, b2, b3, b0, b3, Uuid);
    ReadIntoFrame(bus, c, n + 75, b2, b3, b0, b3, MfgPartNum);
  }

  /** The fields the first two stages change, in one update. */
  lemma LeadingChain(b0: map<Field, seq<Byte>>, b1: map<Field, seq<Byte>>, b2: map<Field, seq<Byte>>)
    requires ProductName in b1 && BoardRev in b1 && BoardSerial in b1
    requires b1 == b0[ProductName := b1[ProductName]][BoardRev := b1[BoardRev]][BoardSerial := b1[BoardSerial]]
    requires BoardMac in b0 && MfgDate in b0 && EepromVersion in b0
    requires b2 == b1 || (BoardMac in b2 && MfgDate in b2 && b2 == b1[BoardMac := b2[BoardMac]][MfgDate := b2[MfgDate]])
    ensures ProductName in b2 && BoardRev in b2 && BoardSerial in b2 && BoardMac in b2 && MfgDate in b2
    ensures b2 == b0[ProductName := b2[ProductName]][BoardRev := b2[BoardRev]][BoardSerial := b2[BoardSerial]]
                    [BoardMac := b2[BoardMac]][MfgDate := b2[MfgDate]]
    ensures EepromVersion in b2 && b2[EepromVersion] == b0[EepromVersion]
  {
  }

  /** The last stage keeps the version buffer. */
  lemma PartKeepsVersion(b2: map<Field, seq<Byte>>, b3: map<Field, seq<Byte>>)
    requires EepromVersion in b2
    requires b3 == b2 || (PartNum in b3 && Uuid in b3 && MfgPartNum in b3
                          && b3 == b2[PartNum := b3[PartNum]][Uuid := b3[Uuid]][MfgPartNum := b3[MfgPartNum]])
    ensures EepromVersion in b3 && b3[EepromVersion] == b2[EepromVersion]
  {
  }

  /** Two appends in a row append their concatenation. */
  lemma TraceAppended(t0: seq<Transfer>, t1: seq<Transfer>, t2: seq<Transfer>, a: seq<Transfer>, b: seq<Transfer>)
    requires t1 == t0 + a && t2 == t1 + b
    ensures t2 == t0 + (a + b)
  {
    assert t0 + a + b == t0 + (a + b);
  }

  /** A trace that ends with the field reads, the record holding what they
      returned. */
  lemma BoardLoadedAfter(bus: I2cBus, c: Cfg, t: seq<Transfer>, trace: seq<Transfer>, before: map<Field, seq<Byte>>,
                         after: map<Field, seq<Byte>>, macs: Byte)
    requires AddressSizeOk(c) && trace == t + BoardRequests(c)
    requires BoardReadFrom(bus, c, |t|, before, after, macs)
    ensures BoardLoadedFrom(bus, c, trace, before, after, macs)
  {
    assert trace[|trace| - FieldReadsLength..] == BoardRequests(c);
  }

  /** Writing the version buffer before the field reads changes nothing
      they read: the record they start from may as well be the one before
      that write. */
  lemma BoardLoadedBeforeVersion(bus: I2cBus, c: Cfg, trace: seq<Transfer>, b0: map<Field, seq<Byte>>,
                                 b1: map<Field, seq<Byte>>, after: map<Field, seq<Byte>>, macs: Byte)
    requires EepromVersion in b1 && b1 == b0[EepromVersion := b1[EepromVersion]]
    requires BoardLoadedFrom(bus, c, trace, b1, after, macs)
    ensures BoardLoadedFrom(bus, c, trace, b0, after, macs)
  {
    var n := |trace| - FieldReadsLength;
    ReadIntoFrame(bus, c, n, b1, after, b0, after, ProductName);
    ReadIntoFrame(bus, c, n + 16, b1, after, b0, after, BoardRev);
    ReadIntoFrame(bus, c, n + 24, b1, after, b0, after, BoardSerial);
    ReadIntoFrame(bus, c, n + 41, b1, after, b0, after, BoardMac);
    ReadIntoFrame(bus, c, n + 47, b1, after, b0, after, MfgDate);
    ReadIntoFrame(bus, c, n + 50, b1, after, b0, after, PartNum);
    ReadIntoFrame(bus, c, n + 59, b1, after, b0, after, Uuid);
    ReadIntoFrame(bus, c, n + 75, b1, after, b0, after, MfgPartNum);
  }

  /** A prefix of a prefix is a prefix. */
  lemma PrefixTrans(a: seq<Transfer>, b: seq<Transfer>, c: seq<Transfer>)
    requires a <= b && b <= c
    ensures a <= c
  {
    assert c[..|a|] == b[..|a|];
  }

  /** Field f has the same buffer in both records. */
  predicate Agree(m1: map<Field, seq<Byte>>, m2: map<Field, seq<Byte>>, f: Field)
  {
    f in m1 && f in m2 && m1[f] == m2[f]
  }

  /** A field's read depends only on that field's buffer before and after. */
  lemma ReadIntoFrame(bus: I2cBus, c: Cfg, at: nat, before: map<Field, seq<Byte>>, after: map<Field, seq<Byte>>,
                      before': map<Field, seq<Byte>>, after': map<Field, seq<Byte>>, f: Field)
    requires AddressSizeOk(c) && ReadInto(bus, c, at, before, after, f)
    requires Agree(before, before', f) && Agree(after, after', f)
    ensures ReadInto(bus, c, at, before', after', f)
  {
  }

  // ---------------------------------------------------------------------
  // Raw writes

  /** The transfer that writes one chunk of the caller's data: the bytes of
      `data` from `chunk.offset - addr` on, at EEPROM offset `chunk.offset`.
      A chunk outside the data or the offset space would write nothing;
      the chunks of a raw write never are (RawWritePlanFits). */
  function ChunkWrite(c: Cfg, data: seq<Byte>, addr: int, chunk: Chunk): Transfer
  {
    var from := chunk.offset - addr;
    if 0 <= from && 0 <= chunk.length && from + chunk.length <= |data| && 0 <= chunk.offset < 256
    then WriteRequest(c, chunk.offset, data[from..from + chunk.length])
    else WriteRequest(c, 0, [])
  }

  /** One write per chunk, in plan order. */
  function Writes(c: Cfg, data: seq<Byte>, addr: int, plan: seq<Chunk>): (ts: seq<Transfer>)
  {
    seq(|plan|, j requires 0 <= j < |plan| => ChunkWrite(c, data, addr, plan[j]))
  }

  /** How a run of writes ended: every transfer accepted; the bus rejected
      the last transfer issued; or the driver refused to issue one, because
      its configured address size is not one it can frame. */
  datatype Outcome = AllAccepted | BusRejected | Refused

  /** The transfers a run of writes issued, and how it ended. */
  datatype Sent = Sent(transfers: seq<Transfer>, outcome: Outcome)

  function Then(prefix: seq<Transfer>, r: Sent): Sent
  {
    Sent(prefix + r.transfers, r.outcome)
  }

  lemma ThenThen(a: seq<Transfer>, b: seq<Transfer>, r: Sent)
    ensures Then(a, Then(b, r)) == Then(a + b, r)
  {
    assert a + (b + r.transfers) == (a + b) + r.transfers;
  }

  /** The driver's status for a run: OK only when every write went through. */
  function StatusOf(r: Sent): Status
  {
    if r.outcome == AllAccepted then Ok else Error
  }

  /** The writes the bus accepted, as the statistics count them. */
  function Accepted(r: Sent): nat
  {
    if r.outcome == BusRejected && |r.transfers| > 0 then |r.transfers| - 1 else |r.transfers|
  }

  /** The error counters after a run: a bus rejection bumps the helper's
      own error counter, a refusal the validation counter. */
  function CountFailure(errs: seq<nat>, r: Sent, busError: nat): seq<nat>
    requires busError < |errs| && ErrValidation < |errs|
  {
    match r.outcome
    case AllAccepted => errs
    case BusRejected => AddAt(errs, busError, 1)
    case Refused => AddAt(errs, ErrValidation, 1)
  }

  /** Transfers handed to the bus one after another, stopping after the
      first one it rejects. */
  function Send(bus: I2cBus, base: nat, ts: seq<Transfer>): (r: Sent)
    ensures |r.transfers| <= |ts| && r.outcome != Refused
    decreases |ts|
  {
    if |ts| == 0 then Sent([], AllAccepted)
    else if !bus.sendOk(base, ts[0]) then Sent([ts[0]], BusRejected)
    else Then([ts[0]], Send(bus, base + 1, ts[1..]))
  }

  /** What the write helpers make of a list of writes: with an address
      size they cannot frame, the first write is refused and nothing is
      sent; otherwise the writes are sent in order. */
  function DriverSend(bus: I2cBus, base: nat, c: Cfg, ts: seq<Transfer>): Sent
  {
    if !AddressSizeOk(c) && |ts| > 0 then Sent([], Refused) else Send(bus, base, ts)
  }

  /** The bus accepts the first `n` of `ts`, handed over from slot `base`. */
  predicate AcceptedUpTo(bus: I2cBus, base: nat, ts: seq<Transfer>, n: nat)
    requires n <= |ts|
  {
    forall j :: 0 <= j < n ==> bus.sendOk(base + j, ts[j])
  }

  lemma AcceptedUpToCons(bus: I2cBus, base: nat, ts: seq<Transfer>, n: nat)
    requires 0 < |ts| && n < |ts|
    ensures AcceptedUpTo(bus, base, ts, n + 1) <==> bus.sendOk(base, ts[0]) && AcceptedUpTo(bus, base + 1, ts[1..], n)
  {
    if bus.sendOk(base, ts[0]) && AcceptedUpTo(bus, base + 1, ts[1..], n) {
      forall j | 0 < j < n + 1
        ensures bus.sendOk(base + j, ts[j])
      {
        assert bus.sendOk(base + 1 + (j - 1), ts[1..][j - 1]);
      }
    }
    if AcceptedUpTo(bus, base, ts, n + 1) {
      forall j | 0 <= j < n
        ensures bus.sendOk(base + 1 + j, ts[1..][j])
      {
        assert bus.sendOk(base + (j + 1), ts[j + 1]);
      }
    }
  }

  /** The transfers Send issues are a prefix of those asked for. */
  lemma {:induction false} SendPrefix(bus: I2cBus, base: nat, ts: seq<Transfer>)
    ensures var r := Send(bus, base, ts); r.transfers == ts[..|r.transfers|]
    decreases |ts|
  {
    if |ts| > 0 && bus.sendOk(base, ts[0]) {
      SendPrefix(bus, base + 1, ts[1..]);
      var q := Send(bus, base + 1, ts[1..]);
      assert ts[..1 + |q.transfers|] == [ts[0]] + ts[1..][..|q.transfers|];
    }
  }

  /** What Send promises about acceptance: all but the last transfer issued
      were accepted; the run ends AllAccepted exactly when every transfer
      went out and was accepted; otherwise the last one issued is the one
      the bus rejected. */
  lemma {:induction false} SendAcceptance(bus: I2cBus, base: nat, ts: seq<Transfer>)
    ensures var r := Send(bus, base, ts);
      && (|r.transfers| > 0 ==> AcceptedUpTo(bus, base, ts, |r.transfers| - 1))
      && (r.outcome == AllAccepted <==> |r.transfers| == |ts| && AcceptedUpTo(bus, base, ts, |ts|))
      && (r.outcome == BusRejected ==> |r.transfers| > 0 && !bus.sendOk(base + |r.transfers| - 1, ts[|r.transfers| - 1]))
    decreases |ts|
  {
    if |ts| > 0 {
      var q := Send(bus, base + 1, ts[1..]);
      if bus.sendOk(base, ts[0]) {
        SendAcceptance(bus, base + 1, ts[1..]);
        if |q.transfers| > 0 {
          AcceptedUpToCons(bus, base, ts, |q.transfers| - 1);
          assert ts[1..][|q.transfers| - 1] == ts[|q.transfers|];
        }
        AcceptedUpToCons(bus, base, ts, |ts| - 1);
      } else {
        AcceptedUpToCons(bus, base, ts, |ts| - 1);
      }
    }
  }

  /** Both halves of what Send promises, together. */
  lemma SendShape(bus: I2cBus, base: nat, ts: seq<Transfer>)
    ensures var r := Send(bus, base, ts);
      && r.transfers == ts[..|r.transfers|]
      && (|r.transfers| > 0 ==> AcceptedUpTo(bus, base, ts, |r.transfers| - 1))
      && (r.outcome == AllAccepted <==> |r.transfers| == |ts| && AcceptedUpTo(bus, base, ts, |ts|))
      && (r.outcome == BusRejected ==> |r.transfers| > 0 && !bus.sendOk(base + |r.transfers| - 1, ts[|r.transfers| - 1]))
  {
    SendPrefix(bus, base, ts);
    SendAcceptance(bus, base, ts);
  }

  lemma WritesCons(c: Cfg, data: seq<Byte>, addr: int, first: Chunk, rest: seq<Chunk>)
    ensures Writes(c, data, addr, [first] + rest) == [ChunkWrite(c, data, addr, first)] + Writes(c, data, addr, rest)
  {
    var ws := Writes(c, data, addr, [first] + rest);
    assert forall j :: 1 <= j < |ws| ==> ws[j] == Writes(c, data, addr, rest)[j - 1];
  }

  /** The write of `len` bytes of the caller's data from index `from`, at
      EEPROM offset `addr + from`: the chunk write the page loop issues,
      indexed by where it is in the data (PageWriteIsChunk). */
  function PageWrite(c: Cfg, data: seq<Byte>, addr: int, from: int, len: int): Transfer
  {
    if 0 <= from && 0 <= len && from + len <= |data| && 0 <= addr + from < 256
    then WriteRequest(c, addr + from, data[from..from + len])
    else WriteRequest(c, 0, [])
  }

  lemma PageWriteIsChunk(c: Cfg, data: seq<Byte>, addr: int, from: int, len: int)
    ensures PageWrite(c, data, addr, from, len) == ChunkWrite(c, data, addr, Chunk(addr + from, len))
  {
    assert Chunk(addr + from, len).offset - addr == from;
  }

  /** The page loop as the bus sees it: from index `from` of the data (EEPROM
      offset `addr + from`), a page (or what is left, when that is less) at
      a time, stopping after the first write that is refused or rejected. */
  function PageRun(bus: I2cBus, base: nat, c: Cfg, data: seq<Byte>, addr: int, from: int, remaining: nat, page: nat): Sent
    requires page > 0
    decreases remaining
  {
    if remaining == 0 then Sent([], AllAccepted)
    else if !AddressSizeOk(c) then Sent([], Refused)
    else
      var len := if page <= remaining then page else remaining;
      var t := PageWrite(c, data, addr, from, len);
      if !bus.sendOk(base, t) then Sent([t], BusRejected)
      else Then([t], PageRun(bus, base + 1, c, data, addr, from + len, remaining - len, page))
  }

  /** The page loop sends the writes of the page chunks, in order. */
  lemma {:induction false} PageRunSends(bus: I2cBus, base: nat, c: Cfg, data: seq<Byte>, addr: int,
                                        from: int, remaining: nat, page: nat)
    requires page > 0
    ensures PageRun(bus, base, c, data, addr, from, remaining, page)
         == DriverSend(bus, base, c, Writes(c, data, addr, PageChunks(addr + from, remaining, page)))
    decreases remaining
  {
    if remaining > 0 {
      var len := if page <= remaining then page else remaining;
      PageRunSends(bus, base + 1, c, data, addr, from + len, remaining - len, page);
      assert addr + (from + len) == addr + from + len;
      PageWriteIsChunk(c, data, addr, from, len);
      WritesCons(c, data, addr, Chunk(addr + from, len), PageChunks(addr + from + len, remaining - len, page));
      var ts := Writes(c, data, addr, PageChunks(addr + from, remaining, page));
      assert ts[1..] == Writes(c, data, addr, PageChunks(addr + from + len, remaining - len, page));
    }
  }

  /** The multi-byte branch as the bus sees it: the head of the first page
      when `addr` is not page-aligned, then the page loop from the next
      page boundary, stopping after the first write refused or rejected. */
  function RawRun(bus: I2cBus, base: nat, c: Cfg, data: seq<Byte>, addr: nat, size: nat, page: nat): Sent
    requires page > 0
  {
    if addr % page == 0 then PageRun(bus, base, c, data, addr, 0, size, page)
    else if !AddressSizeOk(c) then Sent([], Refused)
    else
      var first := FirstPageBytes(addr, size, page);
      var t := PageWrite(c, data, addr, 0, first);
      if !bus.sendOk(base, t) then Sent([t], BusRejected)
      else Then([t], PageRun(bus, base + 1, c, data, addr, first, size - first, page))
  }

  /** The multi-byte branch sends the writes of the raw-write plan, in order. */
  lemma RawRunSends(bus: I2cBus, base: nat, c: Cfg, data: seq<Byte>, addr: nat, size: nat, page: nat)
    requires page > 0 && size != 1
    ensures RawRun(bus, base, c, data, addr, size, page)
         == DriverSend(bus, base, c, Writes(c, data, addr, RawWritePlan(addr, size, page)))
  {
    var first := FirstPageBytes(addr, size, page);
    var rest := PageChunks(addr + first, size - first, page);
    if addr % page == 0 {
      assert RawWritePlan(addr, size, page) == rest;
      assert addr + 0 == addr;
      PageRunSends(bus, base, c, data, addr, 0, size, page);
    } else {
      assert RawWritePlan(addr, size, page) == [Chunk(addr, first)] + rest;
      WritesCons(c, data, addr, Chunk(addr, first), rest);
      PageWriteIsChunk(c, data, addr, 0, first);
      assert addr + 0 == addr;
      PageRunSends(bus, base + 1, c, data, addr, first, size - first, page);
      var ts := Writes(c, data, addr, [Chunk(addr, first)] + rest);
      assert ts[1..] == Writes(c, data, addr, rest);
    }
  }

  /** iEEPROM_WriteRawValue as the bus sees it: a single-byte write for
      one byte, else the multi-byte branch. */
  function RawWrite(bus: I2cBus, base: nat, c: Cfg, data: seq<Byte>, addr: nat, size: nat, page: nat): Sent
    requires size == 1 || page > 0
  {
    if size != 1 then RawRun(bus, base, c, data, addr, size, page)
    else if !AddressSizeOk(c) then Sent([], Refused)
    else
      var t := PageWrite(c, data, addr, 0, 1);
      Sent([t], if bus.sendOk(base, t) then AllAccepted else BusRejected)
  }

  /** A raw write sends the writes of its plan in order, stopping after the
      first one refused or rejected (SendShape says what that means). */
  lemma RawWriteSends(bus: I2cBus, base: nat, c: Cfg, data: seq<Byte>, addr: nat, size: nat, page: nat)
    requires size == 1 || page > 0
    ensures RawWrite(bus, base, c, data, addr, size, page)
         == DriverSend(bus, base, c, Writes(c, data, addr, RawWritePlan(addr, size, page)))
  {
    if size == 1 {
      var ts := Writes(c, data, addr, RawWritePlan(addr, size, page));
      var t := PageWrite(c, data, addr, 0, 1);
      PageWriteIsChunk(c, data, addr, 0, 1);
      assert addr + 0 == addr;
      assert ts == [t];
      assert ts[1..] == [];
      assert Send(bus, base + 1, []) == Sent([], AllAccepted);
      assert [t] + [] == [t];
    } else {
      RawRunSends(bus, base, c, data, addr, size, page);
    }
  }

  // ---------------------------------------------------------------------
  // FRU checksums

  /** The bytes iEepromVerifyChecksum reads from offset 0: the 8-byte
      common header and 0x60 bytes of board-info area. */
  const HeaderSize := 8
  const ChecksumImageSize := 0x68
  /** Where the board-info area keeps its length, in multiples of 8 bytes. */
  const BoardLengthOffset := 9

  function Sum(s: seq<Byte>): nat
  {
    if |s| == 0 then 0 else Sum(s[..|s| - 1]) + s[|s| - 1]
  }

  lemma SumSnoc(s: seq<Byte>, x: Byte)
    ensures Sum(s + [x]) == Sum(s) + x
  {
    assert (s + [x])[..|s|] == s;
  }

  /** One more byte of a range, as the 8-bit running sums add it. */
  lemma SumStep(img: seq<Byte>, lo: nat, i: nat)
    requires lo <= i < |img|
    ensures Sum(img[lo..i + 1]) % 256 == (Sum(img[lo..i]) % 256 + img[i]) % 256
  {
    assert img[lo..i + 1] == img[lo..i] + [img[i]];
    SumSnoc(img[lo..i], img[i]);
  }

  /** The 8-bit running sum of img[lo..hi], as each checksum loop of
      iEepromVerifyChecksum accumulates it. */
  method AddBytes(img: seq<Byte>, lo: nat, hi: nat) returns (sum: Byte)
    requires lo <= hi <= |img|
    ensures sum == Sum(img[lo..hi]) % 256
  {
    sum := 0;
    var i := lo;
    while i < hi
      invariant lo <= i <= hi && sum == Sum(img[lo..i]) % 256
    {
      SumStep(img, lo, i);
      sum := (sum + img[i]) % 256;
      i := i + 1;
    }
  }

  /** A FRU area is valid when its bytes sum to zero modulo 256. */
  predicate ZeroChecksum(area: seq<Byte>)
  {
    Sum(area) % 256 == 0
  }

  /** The checksum byte that completes an area. */
  function ChecksumByte(area: seq<Byte>): (b: Byte)
  {
    (256 - Sum(area) % 256) % 256
  }

  /** Appending a byte makes the area valid exactly when it is the
      checksum byte: a writer can always complete an area, in one way. */
  lemma ChecksumByteCompletes(area: seq<Byte>, b: Byte)
    ensures ZeroChecksum(area + [b]) <==> b == ChecksumByte(area)
  {
    SumSnoc(area, b);
  }

  /** The common header checks out. */
  predicate HeaderChecksumOk(img: seq<Byte>)
    requires |img| == ChecksumImageSize
  {
    ZeroChecksum(img[..HeaderSize])
  }

  /** Where the board-info area ends: its length field in 8-byte units,
      after the header. */
  function BoardEnd(img: seq<Byte>): nat
    requires |img| == ChecksumImageSize
  {
    img[BoardLengthOffset] * 8 + HeaderSize
  }

  /** The board-info area lies inside the bytes read and checks out. */
  predicate BoardChecksumOk(img: seq<Byte>)
    requires |img| == ChecksumImageSize
  {
    BoardEnd(img) <= |img| && ZeroChecksum(img[HeaderSize..BoardEnd(img)])
  }

  /** The end as the source computes it, in an 8-bit variable. */
  function BoardEndAsWritten(img: seq<Byte>): Byte
    requires |img| == ChecksumImageSize
  {
    (img[BoardLengthOffset] * 8 + HeaderSize) % 256
  }

  /** The board check as written: no bytes summed when the 8-bit end is at
      or before the area's start; `None` when the loop would read past the
      bytes read. */
  function BoardCheckAsWritten(img: seq<Byte>): Wrappers.Option<bool>
    requires |img| == ChecksumImageSize
  {
    var end := BoardEndAsWritten(img);
    if end <= HeaderSize then Wrappers.Some(true)
    else if end > |img| then Wrappers.None
    else Wrappers.Some(ZeroChecksum(img[HeaderSize..end]))
  }

  /** An image whose board length field is 31: the area would end at 256,
      which wraps to 0 in the 8-bit end, so the board check as written
      passes without summing anything although the area is not covered by
      the bytes read; the corrected check rejects it. */
  lemma BoardEndWraps()
    ensures var img := Zeros(ChecksumImageSize)[BoardLengthOffset := 31][10 := 1];
      && HeaderChecksumOk(img)
      && BoardEndAsWritten(img) == 0 && BoardCheckAsWritten(img) == Wrappers.Some(true)
      && !BoardChecksumOk(img)
  {
    var img := Zeros(ChecksumImageSize)[BoardLengthOffset := 31][10 := 1];
    assert img[..HeaderSize] == Zeros(HeaderSize);
    ZerosSum(HeaderSize);
  }

  /** With a board length field of 13 the loop as written runs to offset
      112, past the 104 bytes read. */
  lemma BoardEndOverruns()
    ensures var img := Zeros(ChecksumImageSize)[BoardLengthOffset := 13];
      BoardEndAsWritten(img) == 112 && BoardCheckAsWritten(img) == Wrappers.None && !BoardChecksumOk(img)
  {
  }

  lemma {:induction false} ZerosSum(n: nat)
    ensures Sum(Zeros(n)) == 0
  {
    if n > 0 {
      assert Zeros(n)[..n - 1] == Zeros(n - 1);
      ZerosSum(n - 1);
    }
  }

  /** Where the 8-bit end does not wrap and stays inside the bytes read,
      the check as written and the corrected one agree. */
  lemma BoardCheckAgrees(img: seq<Byte>)
    requires |img| == ChecksumImageSize && BoardEnd(img) <= |img|
    ensures BoardCheckAsWritten(img) == Wrappers.Some(BoardChecksumOk(img))
  {
    var e := BoardEnd(img);
    assert BoardEndAsWritten(img) == e % 256 && e < 256;
    if e == HeaderSize {
      assert img[HeaderSize..e] == [];
    }
  }

  // ---------------------------------------------------------------------
  // Device identification

  /** EEPROM_DEVICE_ID_CHECK_TRY_COUNT */
  const DeviceIdTries := 3

  /** The device-ID read: the ID register selected, two bytes back. */
  function DeviceIdRequest(c: Cfg): Transfer
  {
    RegisterRead(c.i2cBus, c.deviceIdAddress, c.deviceIdRegister, 2)
  }

  /** The identifier the two bytes make, the first one high. */
  function DeviceId(b0: Byte, b1: Byte): int
  {
    b0 * 256 + b1
  }

  /** The device-ID read numbered n went through and returned the
      configured identifier. */
  predicate IdMatches(bus: I2cBus, n: nat, c: Cfg)
  {
    var t := DeviceIdRequest(c);
    bus.sendOk(n, t) && DeviceId(bus.recvByte(n, t, 0), bus.recvByte(n, t, 1)) == c.deviceId
  }

  /** Read number n + j matches. */
  predicate MatchAt(bus: I2cBus, n: nat, c: Cfg, j: int)
  {
    0 <= n + j && IdMatches(bus, n + j, c)
  }

  /** How many reads the check issues from read number n with `left`
      tries to go: it stops after the first match. */
  function IdTries(bus: I2cBus, n: nat, c: Cfg, left: nat): (k: nat)
    ensures k <= left
    decreases left
  {
    if left == 0 then 0 else if IdMatches(bus, n, c) then 1 else 1 + IdTries(bus, n + 1, c, left - 1)
  }

  /** How many of the k reads from read number n the bus failed. */
  function IdReadFails(bus: I2cBus, n: nat, c: Cfg, k: nat): (r: nat)
    ensures r <= k
    decreases k
  {
    if k == 0 then 0 else (if bus.sendOk(n, DeviceIdRequest(c)) then 0 else 1) + IdReadFails(bus, n + 1, c, k - 1)
  }

  /** What the tries mean: at least one read when there is a try to make;
      none but the last issued matched; fewer reads than tries only when
      the last one matched; and the last one matched exactly when some
      read within the tries would have. */
  lemma {:induction false} IdTriesShape(bus: I2cBus, n: nat, c: Cfg, left: nat)
    ensures var k := IdTries(bus, n, c, left);
      && (left > 0 ==> k > 0)
      && (forall j :: 0 <= j < k - 1 ==> !MatchAt(bus, n, c, j))
      && (k < left ==> MatchAt(bus, n, c, k - 1))
      && ((exists j :: 0 <= j < left && MatchAt(bus, n, c, j)) <==> k > 0 && MatchAt(bus, n, c, k - 1))
    decreases left
  {
    if left > 0 && !IdMatches(bus, n, c) {
      IdTriesShape(bus, n + 1, c, left - 1);
      var k := IdTries(bus, n, c, left);
      forall j | 1 <= j < left
        ensures MatchAt(bus, n, c, j) == MatchAt(bus, n + 1, c, j - 1)
      {
      }
    }
  }

  /** How a device-ID check ended: the reads issued, how many of them the
      bus failed, and whether the last one returned the identifier. */
  datatype IdOutcome = IdOutcome(issued: nat, fails: nat, matched: bool)

  /** The check from read number m on, with `left` tries to go, `issued`
      reads issued and `fails` of them failed so far: stop after the tries
      run out or at the first match. */
  function IdCheckFrom(bus: I2cBus, m: nat, c: Cfg, left: nat, issued: nat, fails: nat): (o: IdOutcome)
    requires fails <= issued
    ensures issued <= o.issued <= issued + left && o.fails + (if o.matched then 1 else 0) <= o.issued
    decreases left
  {
    if left == 0 then IdOutcome(issued, fails, false)
    else if IdMatches(bus, m, c) then IdOutcome(issued + 1, fails, true)
    else IdCheckFrom(bus, m + 1, c, left - 1, issued + 1, fails + if bus.sendOk(m, DeviceIdRequest(c)) then 0 else 1)
  }

  /** The whole check, from read number n. */
  function IdCheck(bus: I2cBus, n: nat, c: Cfg): IdOutcome
  {
    IdCheckFrom(bus, n, c, DeviceIdTries, 0, 0)
  }

  /** The check agrees with IdTries and IdReadFails: it issues the reads
      IdTries counts, counts the failed ones among them, and has matched
      exactly when the last read issued did. */
  lemma {:induction false} IdCheckFromAgrees(bus: I2cBus, m: nat, c: Cfg, left: nat, issued: nat, fails: nat)
    requires fails <= issued
    ensures var o := IdCheckFrom(bus, m, c, left, issued, fails);
      var k := IdTries(bus, m, c, left);
      && o.issued == issued + k
      && o.fails == fails + IdReadFails(bus, m, c, k)
      && (o.matched <==> k > 0 && IdMatches(bus, m + k - 1, c))
    decreases left
  {
    if left > 0 && !IdMatches(bus, m, c) {
      IdCheckFromAgrees(bus, m + 1, c, left - 1, issued + 1, fails + if bus.sendOk(m, DeviceIdRequest(c)) then 0 else 1);
      var k := IdTries(bus, m + 1, c, left - 1);
      assert m + 1 + k - 1 == m + (k + 1) - 1;
    }
  }

  lemma IdCheckAgrees(bus: I2cBus, n: nat, c: Cfg)
    ensures var o := IdCheck(bus, n, c);
      && o.issued == IdTries(bus, n, c, DeviceIdTries)
      && o.fails == IdReadFails(bus, n, c, o.issued)
      && (o.matched <==> o.issued > 0 && IdMatches(bus, n + o.issued - 1, c))
  {
    IdCheckFromAgrees(bus, n, c, DeviceIdTries, 0, 0);
  }

  /** The device-ID reads of k tries. */
  function IdRequests(c: Cfg, k: nat): (ts: seq<Transfer>)
    ensures |ts| == k && forall j :: 0 <= j < k ==> ts[j] == DeviceIdRequest(c)
  {
    seq(k, j => DeviceIdRequest(c))
  }

  // ---------------------------------------------------------------------
  // The driver

  class EepromDriver {
    const upperFirewall: bv32
    const lowerFirewall: bv32
    /** The I2C bus the device sits on. */
    const bus: I2cBus
    /** EEPROM_MAX_DATA_SIZE: the largest raw read or write. */
    const maxDataSize: nat
    var initialised: bool
    var cfg: Cfg
    var expected: Version
    var actual: Version
    /** Whether the field pointers, sizes and offsets have been set for layout 1.0. */
    var fieldsSet: bool
    /** The board-info buffers. */
    var board: map<Field, seq<Byte>>
    var numMacIds: Byte
    /** Every I2C transfer the driver has issued, oldest first. */
    var trace: seq<Transfer>
    /** The statistics and error counters (pulStatCounters, pulStatErrorCounters). */
    var stats: seq<nat>
    var errors: seq<nat>

    /** The counter tables have their fixed sizes. */
    predicate CountersOk()
      reads this`stats, this`errors
    {
      |stats| == StatsMax && |errors| == ErrorMax
    }

    predicate Valid()
      reads this
    {
      CountersOk() && BoardOk()
    }

    /** Every field buffer present, at its declared length; an initialised
        driver has its field layout set. */
    predicate BoardOk()
      reads this`board, this`initialised, this`fieldsSet
    {
      BoardShape(board) && (initialised ==> fieldsSet)
    }

    predicate FirewallsIntact()
    {
      upperFirewall == UpperFirewall && lowerFirewall == LowerFirewall
    }

    /** The static initialiser of the driver record. */
    constructor (bus: I2cBus, maxDataSize: nat)
      ensures Valid() && FirewallsIntact()
      ensures this.bus == bus && this.maxDataSize == maxDataSize
      ensures !initialised && cfg == ZeroCfg && expected == VersionMax && actual == VersionMax
      ensures !fieldsSet && board == InitialBoard() && numMacIds == 0 && trace == []
      ensures stats == seq(StatsMax, k => 0) && errors == seq(ErrorMax, k => 0)
    {
      upperFirewall := UpperFirewall;
      lowerFirewall := LowerFirewall;
      this.bus := bus;
      this.maxDataSize := maxDataSize;
      initialised := false;
      cfg := ZeroCfg;
      expected := VersionMax;
      actual := VersionMax;
      fieldsSet := false;
      board := InitialBoard();
      numMacIds := 0;
      trace := [];
      stats := seq(StatsMax, k => 0);
      errors := seq(ErrorMax, k => 0);
    }

    /** The size the driver reports for a field. */
    function FieldSize(f: Field): Byte
      reads this
    {
      if fieldsSet then V1Size(f) else 0
    }

    function FieldOffset(f: Field): Byte
      reads this
    {
      if fieldsSet then V1Offset(f) else 0
    }

    /** The bytes behind a field's pointer: its buffer, or the MAC count. */
    function FieldValue(f: Field): (r: seq<Byte>)
      reads this
      requires Valid()
      ensures FieldSize(f) <= |r|
    {
      V1LayoutFits(f);
      if f == NumMacIds then [numMacIds] else if f in board then board[f] else []
    }

    method IncStat(k: nat)
      requires CountersOk() && k < StatsMax
      modifies this`stats
      ensures CountersOk() && stats == AddAt(old(stats), k, 1)
    {
      stats := AddAt(stats, k, 1);
    }

    method IncError(k: nat)
      requires CountersOk() && k < ErrorMax
      modifies this`errors
      ensures CountersOk() && errors == AddAt(old(errors), k, 1)
    {
      errors := AddAt(errors, k, 1);
    }

    /** Hands one transfer to the bus. */
    method Issue(t: Transfer) returns (ok: bool)
      modifies this`trace
      ensures trace == old(trace) + [t] && ok == bus.sendOk(|old(trace)|, t)
    {
      ok := bus.sendOk(|trace|, t);
      trace := trace + [t];
    }

    /** ucEepromWriteByte: one data byte after the address. */
    method WriteByte(offset: Byte, value: Byte) returns (status: Status)
      requires CountersOk()
      modifies this`trace, this`stats, this`errors
      ensures CountersOk()
      ensures AddressSizeOk(cfg) ==>
        var t := WriteRequest(cfg, offset, [value]);
        && trace == old(trace) + [t]
        && (status == Ok <==> bus.sendOk(|old(trace)|, t))
        && stats == AddAt(old(stats), StatSingleByteWrite, if status == Ok then 1 else 0)
        && errors == AddAt(old(errors), ErrSingleByteWrite, if status == Ok then 0 else 1)
      ensures !AddressSizeOk(cfg) ==>
        status == Error && trace == old(trace) && stats == old(stats)
        && errors == AddAt(old(errors), ErrValidation, 1)
    {
      if AddressSizeOk(cfg) {
        var ok := Issue(WriteRequest(cfg, offset, [value]));
        if ok {
          status := Ok;
          IncStat(StatSingleByteWrite);
        } else {
          status := Error;
          IncError(ErrSingleByteWrite);
        }
      } else {
        status := Error;
        IncError(ErrValidation);
      }
    }

    /** ucEepromWriteMultiBytes: up to a page of data after the address. */
    method WriteMultiBytes(offset: Byte, data: seq<Byte>) returns (status: Status)
      requires CountersOk()
      modifies this`trace, this`stats, this`errors
      ensures CountersOk()
      ensures AddressSizeOk(cfg) && |data| <= cfg.pageSize ==>
        var t := WriteRequest(cfg, offset, data);
        && trace == old(trace) + [t]
        && (status == Ok <==> bus.sendOk(|old(trace)|, t))
        && stats == AddAt(old(stats), StatMultiByteWrite, if status == Ok then 1 else 0)
        && errors == AddAt(old(errors), ErrMultiByteWrite, if status == Ok then 0 else 1)
      ensures !(AddressSizeOk(cfg) && |data| <= cfg.pageSize) ==>
        status == Error && trace == old(trace) && stats == old(stats)
        && errors == AddAt(old(errors), ErrValidation, 1)
    {
      if AddressSizeOk(cfg) && |data| <= cfg.pageSize {
        var ok := Issue(WriteRequest(cfg, offset, data));
        if ok {
          status := Ok;
          IncStat(StatMultiByteWrite);
        } else {
          status := Error;
          IncError(ErrMultiByteWrite);
        }
      } else {
        status := Error;
        IncError(ErrValidation);
      }
    }

    /** ucEepromReadByte: the address, then one byte back.  The caller's
        byte is left as it was when the transfer fails. */
    method ReadByte(offset: Byte, prior: Byte) returns (status: Status, value: Byte)
      requires CountersOk()
      modifies this`trace, this`stats, this`errors
      ensures CountersOk()
      ensures AddressSizeOk(cfg) ==>
        var t := ReadRequest(cfg, offset, 1);
        && trace == old(trace) + [t]
        && (status == Ok <==> bus.sendOk(|old(trace)|, t))
        && value == (if status == Ok then bus.recvByte(|old(trace)|, t, 0) else prior)
        && stats == AddAt(old(stats), StatSingleByteRead, if status == Ok then 1 else 0)
        && errors == AddAt(old(errors), ErrSingleByteRead, if status == Ok then 0 else 1)
      ensures !AddressSizeOk(cfg) ==>
        status == Error && value == prior && trace == old(trace) && stats == old(stats)
        && errors == AddAt(old(errors), ErrValidation, 1)
    {
      value := prior;
      if AddressSizeOk(cfg) {
        var t := ReadRequest(cfg, offset, 1);
        var ok := Issue(t);
        if ok {
          status := Ok;
          value := bus.recvByte(|trace| - 1, t, 0);
          IncStat(StatSingleByteRead);
        } else {
          status := Error;
          IncError(ErrSingleByteRead);
        }
      } else {
        status := Error;
        IncError(ErrValidation);
      }
    }

    /** ucEepromReadMultiBytes: the address, then `|prior|` bytes back into
        the caller's buffer, which is left as it was when the transfer fails. */
    method ReadMultiBytes(offset: Byte, prior: seq<Byte>) returns (status: Status, data: seq<Byte>)
      requires CountersOk()
      modifies this`trace, this`stats, this`errors
      ensures CountersOk()
      ensures AddressSizeOk(cfg) ==>
        var t := ReadRequest(cfg, offset, |prior|);
        && trace == old(trace) + [t]
        && (status == Ok <==> bus.sendOk(|old(trace)|, t))
        && data == (if status == Ok then Received(bus, |old(trace)|, t, |prior|) else prior)
        && stats == AddAt(old(stats), StatMultiByteRead, if status == Ok then 1 else 0)
        && errors == AddAt(old(errors), ErrMultiByteRead, if status == Ok then 0 else 1)
      ensures !AddressSizeOk(cfg) ==>
        status == Error && data == prior && trace == old(trace) && stats == old(stats)
        && errors == AddAt(old(errors), ErrValidation, 1)
    {
      data := prior;
      if AddressSizeOk(cfg) {
        var t := ReadRequest(cfg, offset, |prior|);
        var ok := Issue(t);
        if ok {
          status := Ok;
          data := Received(bus, |trace| - 1, t, |prior|);
          IncStat(StatMultiByteRead);
        } else {
          status := Error;
          IncError(ErrMultiByteRead);
        }
      } else {
        status := Error;
        IncError(ErrValidation);
      }
    }

    /** iEepromReadField: `size` single-byte reads into the caller's buffer
        (absent when its pointer is NULL), then a terminating NUL. */
    method ReadField(offset: Byte, buf: Wrappers.Option<seq<Byte>>, size: Byte, isMac: bool)
      returns (status: Status, out: Wrappers.Option<seq<Byte>>)
      requires CountersOk()
      requires buf.Some? ==> size < |buf.value|
      modifies this`trace, this`stats, this`errors
      ensures CountersOk()
      ensures |old(trace)| <= |trace| && trace[..|old(trace)|] == old(trace)
      ensures buf.Some? && AddressSizeOk(cfg) ==>
        var sent := trace[|old(trace)|..];
        var fails := if status == Ok || |sent| == 0 then 0 else 1;
        && out.Some?
        && FieldRead(bus, |old(trace)|, sent, cfg, offset, buf.value, size, isMac, out.value, status)
        && stats == AddAt(AddAt(old(stats), StatSingleByteRead, |sent| - fails),
                          StatReadField, if status == Ok then 1 else 0)
        && errors == AddAt(AddAt(old(errors), ErrSingleByteRead, fails),
                           ErrReadField, if status == Ok then 0 else 1)
      ensures !(buf.Some? && AddressSizeOk(cfg)) ==>
        && status == Error && out == buf && trace == old(trace) && stats == old(stats)
        && errors == AddAt(AddAt(old(errors), ErrValidation, 1), ErrReadField, 1)
      ensures out.Some? <==> buf.Some?
      ensures status == Ok ==> out.Some? && Terminated(out.value, size, isMac)
      ensures InitCountsKept(old(stats), old(errors), stats, errors)
      ensures errors[ErrReadField] == old(errors)[ErrReadField] + (if status == Ok then 0 else 1)
    {
      out := buf;
      if buf.Some? && AddressSizeOk(cfg) {
        var b;
        ghost var sent;
        status, b, sent := ReadBytes(offset, buf.value, size, isMac);
        assert trace[|old(trace)|..] == sent;
        out := Wrappers.Some(b);
        if status == Ok {
          FieldReadTerminated(bus, |old(trace)|, sent, cfg, offset, buf.value, size, isMac, b);
        }
      } else {
        status := Error;
        IncError(ErrValidation);
      }
      if status == Error {
        IncError(ErrReadField);
      } else {
        IncStat(StatReadField);
      }
    }

    /** The loop of iEepromReadField, with the terminator it writes after it. */
    method ReadBytes(offset: Byte, prior: seq<Byte>, size: Byte, isMac: bool)
      returns (status: Status, b: seq<Byte>, ghost sent: seq<Transfer>)
      requires CountersOk() && AddressSizeOk(cfg) && size < |prior|
      modifies this`trace, this`stats, this`errors
      ensures CountersOk() && trace == old(trace) + sent
      ensures var fails := if status == Ok || |sent| == 0 then 0 else 1;
        && FieldRead(bus, |old(trace)|, sent, cfg, offset, prior, size, isMac, b, status)
        && stats == AddAt(old(stats), StatSingleByteRead, |sent| - fails)
        && errors == AddAt(old(errors), ErrSingleByteRead, fails)
    {
      status := Error;
      b := prior;
      var i := 0;
      var off: Byte := offset;
      sent := [];
      while i < size
        invariant 0 <= i <= size && off == (offset + i) % 256
        invariant CountersOk() && trace == old(trace) + sent
        invariant ReadSoFar(bus, |old(trace)|, sent, cfg, offset, prior, isMac, b, i)
        invariant status == Ok <==> i > 0
        invariant stats == AddAt(old(stats), StatSingleByteRead, i) && errors == old(errors)
      {
        status, b, sent := ReadStep(offset, prior, size, isMac, off, i, b, old(trace), old(stats), old(errors), sent);
        if status == Error {
          return;
        }
        i := i + 1;
        off := if off == 255 then 0 else off + 1;
      }
      FieldReadComplete(bus, |old(trace)|, sent, cfg, offset, prior, size, isMac, b, status);
      b := b[size := 0];
    }

    /** One round of the field-read loop: byte i read from offset `off` into
        the buffer.  Given the loop's state before the round (`sent` issued
        since the read began with trace `t0` and counters `s0`, `e0`), it
        leaves the state after it: on success one more byte read; on
        failure the whole field read as it ends, NUL written after the
        field. */
    method ReadStep(offset: Byte, prior: seq<Byte>, size: Byte, isMac: bool, off: Byte, i: nat, b: seq<Byte>,
                    ghost t0: seq<Transfer>, ghost s0: seq<nat>, ghost e0: seq<nat>, ghost sent: seq<Transfer>)
      returns (status: Status, b': seq<Byte>, ghost sent': seq<Transfer>)
      requires CountersOk() && AddressSizeOk(cfg) && size < |prior| && i < size && off == (offset + i) % 256
      requires trace == t0 + sent && ReadSoFar(bus, |t0|, sent, cfg, offset, prior, isMac, b, i)
      requires |s0| == StatsMax && |e0| == ErrorMax
      requires stats == AddAt(s0, StatSingleByteRead, i) && errors == e0
      modifies this`trace, this`stats, this`errors
      ensures CountersOk() && trace == t0 + sent' && |sent'| == i + 1
      ensures status == Ok ==>
        && ReadSoFar(bus, |t0|, sent', cfg, offset, prior, isMac, b', i + 1)
        && stats == AddAt(s0, StatSingleByteRead, i + 1) && errors == e0
      ensures status == Error ==>
        && FieldRead(bus, |t0|, sent', cfg, offset, prior, size, isMac, b', Error)
        && stats == AddAt(s0, StatSingleByteRead, i) && errors == AddAt(e0, ErrSingleByteRead, 1)
    {
      var v;
      status, v := ReadByte(off, b[i]);
      ghost var t := ReadRequest(cfg, off, 1);
      sent' := sent + [t];
      b' := b[i := Clean(v, isMac)];
      if status == Error {
        FieldReadStopped(bus, |t0|, sent, cfg, offset, prior, size, isMac, b, i, t);
        b' := b'[size := 0];
      } else {
        ReadSoFarStep(bus, |t0|, sent, cfg, offset, prior, isMac, b, i, t, v);
        AddAtTwice(s0, StatSingleByteRead, i, 1);
      }
    }

    /** The argument checks iEEPROM_WriteRawValue makes, together with the
        bound that keeps the 8-bit offset from wrapping (see Findings). */
    predicate RawWriteGuard(data: Wrappers.Option<seq<Byte>>, size: Byte, addr: Byte)
      reads this
    {
      FirewallsIntact() && data.Some? && cfg.addressSize != 0 && size <= maxDataSize && addr + size <= 256
    }

    /** iEEPROM_WriteRawValue, with the offset bound added. */
    method WriteRawValue(data: Wrappers.Option<seq<Byte>>, size: Byte, addr: Byte) returns (status: Status)
      requires CountersOk()
      requires data.Some? ==> size <= |data.value|
      requires RawWriteGuard(data, size, addr) && size != 1 ==> cfg.pageSize > 0
      modifies this`trace, this`stats, this`errors
      ensures CountersOk()
      ensures !RawWriteGuard(data, size, addr) ==>
        && status == Error && trace == old(trace) && stats == old(stats)
        && errors == AddAt(old(errors), ErrValidation, 1)
      ensures RawWriteGuard(data, size, addr) ==>
        var r := RawWrite(bus, |old(trace)|, cfg, data.value, addr, size, cfg.pageSize);
        && trace == old(trace) + r.transfers && status == StatusOf(r)
        && stats == AddAt(old(stats), if size == 1 then StatSingleByteWrite else StatMultiByteWrite, Accepted(r))
        && errors == CountFailure(old(errors), r, if size == 1 then ErrSingleByteWrite else ErrMultiByteWrite)
    {
      if !RawWriteGuard(data, size, addr) {
        status := Error;
        IncError(ErrValidation);
        return;
      }
      var d := data.value;
      if size == 1 {
        assert d[0..1] == [d[0]];
        status := WriteByte(addr, d[0]);
      } else {
        status := WritePages(d, size, addr);
      }
    }

    /** The multi-byte branch of iEEPROM_WriteRawValue: the head of the
        first page when the start is unaligned, then page after page. */
    method WritePages(d: seq<Byte>, size: Byte, addr: Byte) returns (status: Status)
      requires CountersOk() && size <= |d| && addr + size <= 256 && cfg.pageSize > 0
      modifies this`trace, this`stats, this`errors
      ensures CountersOk()
      ensures var r := RawRun(bus, |old(trace)|, cfg, d, addr, size, cfg.pageSize);
        && trace == old(trace) + r.transfers && status == StatusOf(r)
        && stats == AddAt(old(stats), StatMultiByteWrite, Accepted(r))
        && errors == CountFailure(old(errors), r, ErrMultiByteWrite)
    {
      var page := cfg.pageSize;
      ghost var run := RawRun(bus, |trace|, cfg, d, addr, size, page);
      if addr % page != 0 {
        var first := page - addr % page;
        if first > size {
          first := size;
        }
        ghost var t := PageWrite(cfg, d, addr, 0, first);
        assert first == FirstPageBytes(addr, size, page) && t == WriteRequest(cfg, addr, d[0..first]);
        status := WriteMultiBytes(addr, d[0..first]);
        if status != Ok {
          return;
        }
        assert |trace| == |old(trace)| + 1;
        status := WriteRun(d, size, addr, addr + first, first, size - first, old(trace), old(stats), old(errors), [t], run);
      } else {
        assert [] + run.transfers == run.transfers;
        assert AddAt(stats, StatMultiByteWrite, 0) == stats;
        status := WriteRun(d, size, addr, addr, 0, size, old(trace), old(stats), old(errors), [], run);
      }
    }

    /** The page loop of iEEPROM_WriteRawValue: whole pages from `offset`,
        then the remainder.  It starts with `added` sent since the write
        began with trace `t0` and counters `s0`, `e0`, in a run that ends
        as `run`, and leaves the trace and counters as that run does. */
    method WriteRun(d: seq<Byte>, size: Byte, addr: Byte, offset: nat, ghost from: nat, toWrite: nat, ghost t0: seq<Transfer>,
                    ghost s0: seq<nat>, ghost e0: seq<nat>, ghost added: seq<Transfer>, ghost run: Sent)
      returns (status: Status)
      requires CountersOk() && cfg.pageSize > 0 && size <= |d|
      requires offset == addr + from && from + toWrite == size && addr + size <= 256
      requires trace == t0 + added && |s0| == StatsMax && stats == AddAt(s0, StatMultiByteWrite, |added|) && errors == e0
      requires run == Then(added, PageRun(bus, |trace|, cfg, d, addr, from, toWrite, cfg.pageSize))
      modifies this`trace, this`stats, this`errors
      ensures CountersOk() && trace == t0 + run.transfers && status == StatusOf(run)
      ensures stats == AddAt(s0, StatMultiByteWrite, Accepted(run))
      ensures errors == CountFailure(e0, run, ErrMultiByteWrite)
    {
      var ucOffset := offset;
      var remaining: nat := toWrite;
      ghost var sent := added;
      ghost var done := from;
      status := Ok;
      while 0 < remaining
        invariant ucOffset == addr + done && done + remaining == size
        invariant status == Ok && CountersOk() && trace == t0 + sent
        invariant run == Then(sent, PageRun(bus, |trace|, cfg, d, addr, done, remaining, cfg.pageSize))
        invariant stats == AddAt(s0, StatMultiByteWrite, |sent|) && errors == e0
      {
        var len;
        status, len, sent := WritePage(d, addr, ucOffset, done, remaining, t0, s0, e0, sent, run);
        if status != Ok {
          return;
        }
        ucOffset := ucOffset + len;
        done := done + len;
        remaining := remaining - len;
      }
      assert sent + [] == sent;
    }

    /** One round of the page loop: a whole page when that much is left,
        else the remainder, written from offset `at`.  Given the loop's
        state before the round (`added` sent since it began with trace
        `t0` and counters `s0`, `e0`, in a run that ends as `run`), it
        leaves the state after it: on success the new `added`; on failure
        the run is over. */
    method WritePage(d: seq<Byte>, addr: Byte, at: nat, ghost from: nat, remaining: nat, ghost t0: seq<Transfer>,
                     ghost s0: seq<nat>, ghost e0: seq<nat>, ghost added: seq<Transfer>, ghost run: Sent)
      returns (status: Status, len: nat, ghost added': seq<Transfer>)
      requires CountersOk() && cfg.pageSize > 0 && 0 < remaining
      requires at == addr + from && from + remaining <= |d| && at + remaining <= 256
      requires trace == t0 + added && |s0| == StatsMax && stats == AddAt(s0, StatMultiByteWrite, |added|) && errors == e0
      requires run == Then(added, PageRun(bus, |trace|, cfg, d, addr, from, remaining, cfg.pageSize))
      modifies this`trace, this`stats, this`errors
      ensures CountersOk() && 0 < len <= remaining
      ensures status == Ok ==>
        && trace == t0 + added' && stats == AddAt(s0, StatMultiByteWrite, |added'|) && errors == e0
        && run == Then(added', PageRun(bus, |trace|, cfg, d, addr, from + len, remaining - len, cfg.pageSize))
      ensures status != Ok ==>
        && trace == t0 + run.transfers && StatusOf(run) == Error
        && stats == AddAt(s0, StatMultiByteWrite, Accepted(run))
        && errors == CountFailure(e0, run, ErrMultiByteWrite)
    {
      var page := cfg.pageSize;
      if page <= remaining {
        len := page;
      } else {
        len := remaining;
      }
      ghost var t := PageWrite(cfg, d, addr, from, len);
      ghost var next := PageRun(bus, |trace| + 1, cfg, d, addr, from + len, remaining - len, page);
      assert at - addr == from;
      status := WriteMultiBytes(at, d[at - addr..at - addr + len]);
      added' := added + [t];
      if !AddressSizeOk(cfg) {
        assert added + [] == added;
      } else if status == Ok {
        ThenThen(added, [t], next);
        AddAtTwice(s0, StatMultiByteWrite, |added|, 1);
      } else {
        AddAtTwice(s0, StatMultiByteWrite, |added|, 0);
      }
    }

    /** The argument checks of iEEPROM_ReadRawValue. */
    predicate RawReadGuard(data: Wrappers.Option<seq<Byte>>, size: Byte)
      reads this`cfg
    {
      FirewallsIntact() && data.Some? && cfg.addressSize != 0 && size <= maxDataSize
    }

    /** iEEPROM_ReadRawValue: one multi-byte read of `size` bytes at `addr`
        into the front of the caller's buffer. */
    method ReadRawValue(data: Wrappers.Option<seq<Byte>>, size: Byte, addr: Byte)
      returns (status: Status, data': Wrappers.Option<seq<Byte>>)
      requires CountersOk()
      requires data.Some? ==> size <= |data.value|
      modifies this`trace, this`stats, this`errors
      ensures CountersOk()
      ensures !RawReadGuard(data, size) ==>
        && status == Error && data' == data && trace == old(trace) && stats == old(stats)
        && errors == AddAt(old(errors), ErrValidation, 1)
      ensures RawReadGuard(data, size) && AddressSizeOk(cfg) ==>
        var t := ReadRequest(cfg, addr, size);
        && trace == old(trace) + [t]
        && (status == Ok <==> bus.sendOk(|old(trace)|, t))
        && data' == Wrappers.Some(if status == Ok then Received(bus, |old(trace)|, t, size) + data.value[size..] else data.value)
        && stats == AddAt(old(stats), StatMultiByteRead, if status == Ok then 1 else 0)
        && errors == AddAt(old(errors), ErrMultiByteRead, if status == Ok then 0 else 1)
      ensures RawReadGuard(data, size) && !AddressSizeOk(cfg) ==>
        && status == Error && data' == data && trace == old(trace) && stats == old(stats)
        && errors == AddAt(old(errors), ErrValidation, 1)
    {
      data' := data;
      if RawReadGuard(data, size) {
        var got;
        status, got := ReadMultiBytes(addr, data.value[..size]);
        if status == Ok {
          data' := Wrappers.Some(got + data.value[size..]);
        } else {
          assert got + data.value[size..] == data.value;
        }
      } else {
        status := Error;
        IncError(ErrValidation);
      }
    }

    /** The iEEPROM_Get* getters, one per field: with intact firewalls, both
        pointers given and the driver initialised, the field's bytes are
        copied to the front of the caller's buffer and its size reported;
        otherwise nothing is written and the validation error is counted. */
    method GetField(f: Field, field: Wrappers.Option<seq<Byte>>, size: Wrappers.Option<Byte>)
      returns (status: Status, field': Wrappers.Option<seq<Byte>>, size': Wrappers.Option<Byte>)
      requires Valid()
      requires field.Some? ==> FieldSize(f) <= |field.value|
      modifies this`errors
      ensures Valid()
      ensures status == Ok <==> FirewallsIntact() && field.Some? && size.Some? && initialised
      ensures status == Ok ==>
        var n := FieldSize(f);
        && field' == Wrappers.Some(FieldValue(f)[..n] + field.value[n..])
        && size' == Wrappers.Some(n) && errors == old(errors)
      ensures status != Ok ==>
        field' == field && size' == size && errors == AddAt(old(errors), ErrValidation, 1)
    {
      if FirewallsIntact() && field.Some? && size.Some? && initialised {
        var n := FieldSize(f);
        field' := Wrappers.Some(FieldValue(f)[..n] + field.value[n..]);
        size' := Wrappers.Some(n);
        status := Ok;
      } else {
        field', size' := field, size;
        status := Error;
        IncError(ErrValidation);
      }
    }

    /** iEEPROM_ClearStatistics: every statistics and error counter back to
        zero, or, with a damaged record, only the validation error counted. */
    method ClearStatistics() returns (status: Status)
      requires CountersOk()
      modifies this`stats, this`errors
      ensures CountersOk()
      ensures FirewallsIntact() ==>
        status == Ok && stats == seq(StatsMax, k => 0) && errors == seq(ErrorMax, k => 0)
      ensures !FirewallsIntact() ==>
        status == Error && stats == old(stats) && errors == AddAt(old(errors), ErrValidation, 1)
    {
      if FirewallsIntact() {
        var i := 0;
        while i < StatsMax
          invariant 0 <= i <= StatsMax && |stats| == StatsMax
          invariant forall k :: 0 <= k < i ==> stats[k] == 0
          invariant errors == old(errors)
        {
          stats := stats[i := 0];
          i := i + 1;
        }
        assert stats == seq(StatsMax, k => 0);
        i := 0;
        while i < ErrorMax
          invariant 0 <= i <= ErrorMax && |errors| == ErrorMax
          invariant forall k :: 0 <= k < i ==> errors[k] == 0
          invariant stats == seq(StatsMax, k => 0)
        {
          errors := errors[i := 0];
          i := i + 1;
        }
        assert errors == seq(ErrorMax, k => 0);
        status := Ok;
      } else {
        status := Error;
        IncError(ErrValidation);
      }
    }

    /** iEepromVerifyChecksum, with the board-info end computed without
        wrapping and checked against the bytes read (see Findings): one
        multi-byte read of the header and board area, then each checksum
        in turn; each passing checksum counts a statistic, a failing one
        an error and ends the check. */
    method VerifyChecksum() returns (status: Status)
      requires CountersOk()
      modifies this`trace, this`stats, this`errors
      ensures CountersOk()
      ensures AddressSizeOk(cfg) ==>
        var t := ReadRequest(cfg, 0, ChecksumImageSize);
        var img := Received(bus, |old(trace)|, t, ChecksumImageSize);
        && trace == old(trace) + [t]
        && (bus.sendOk(|old(trace)|, t) ==>
              && (status == Ok <==> HeaderChecksumOk(img) && BoardChecksumOk(img))
              && stats == AddAt(AddAt(old(stats), StatMultiByteRead, 1), StatChecksum,
                                (if HeaderChecksumOk(img) then 1 else 0) + (if status == Ok then 1 else 0))
              && errors == AddAt(old(errors), ErrChecksum, if status == Ok then 0 else 1))
        && (!bus.sendOk(|old(trace)|, t) ==>
              status == Error && stats == old(stats) && errors == AddAt(old(errors), ErrMultiByteRead, 1))
      ensures !AddressSizeOk(cfg) ==>
        && status == Error && trace == old(trace) && stats == old(stats)
        && errors == AddAt(old(errors), ErrValidation, 1)
    {
      var img;
      status, img := ReadMultiBytes(0, Zeros(ChecksumImageSize));
      if status != Ok {
        return;
      }
      ghost var s1 := stats;
      var sum := AddBytes(img, 0, HeaderSize);
      assert img[0..HeaderSize] == img[..HeaderSize];
      if sum != 0 {
        status := Error;
        IncError(ErrChecksum);
        return;
      }
      IncStat(StatChecksum);
      var end := img[BoardLengthOffset] * 8 + HeaderSize;
      if end > |img| {
        status := Error;
        IncError(ErrChecksum);
        return;
      }
      sum := AddBytes(img, HeaderSize, end);
      if sum != 0 {
        status := Error;
        IncError(ErrChecksum);
      } else {
        IncStat(StatChecksum);
        AddAtTwice(s1, StatChecksum, 1, 1);
      }
    }

    /** iEeprom_VerifyDeviceId: up to three reads of the ID register, stopping
        at the first that returns the configured identifier.  A failed read
        counts a read error, a wrong identifier a verify error, the match a
        statistic.  The result is OK whatever the reads returned. */
    method VerifyDeviceId() returns (status: Status)
      requires CountersOk()
      modifies this`trace, this`stats, this`errors
      ensures CountersOk() && status == Ok
      ensures !FirewallsIntact() ==>
        trace == old(trace) && stats == old(stats) && errors == AddAt(old(errors), ErrValidation, 1)
      ensures FirewallsIntact() ==>
        var o := IdCheck(bus, |old(trace)|, cfg);
        var matched := if o.matched then 1 else 0;
        && trace == old(trace) + IdRequests(cfg, o.issued)
        && stats == AddAt(old(stats), StatVerifyDeviceId, matched)
        && errors == AddAt(AddAt(old(errors), ErrDeviceIdRead, o.fails), ErrVerifyDeviceId, o.issued - o.fails - matched)
    {
      status := Ok;
      if !FirewallsIntact() {
        IncError(ErrValidation);
        return;
      }
      ghost var n := |trace|;
      ghost var fails: nat := 0;
      var t := DeviceIdRequest(cfg);
      var i := 0;
      while i < DeviceIdTries
        invariant 0 <= i <= DeviceIdTries && fails <= i && CountersOk()
          && IdCheck(bus, n, cfg) == IdCheckFrom(bus, |trace|, cfg, DeviceIdTries - i, i, fails)
        invariant trace == old(trace) + IdRequests(cfg, i) && n == |old(trace)|
        invariant stats == old(stats)
        invariant errors == AddAt(AddAt(old(errors), ErrDeviceIdRead, fails), ErrVerifyDeviceId, i - fails)
      {
        var matched;
        matched, fails := TryDeviceId(t, i, fails, old(stats), old(errors));
        assert IdRequests(cfg, i) + [t] == IdRequests(cfg, i + 1);
        if matched {
          break;
        }
        i := i + 1;
      }
    }

    /** One try of iEeprom_VerifyDeviceId: the ID register read and its
        identifier compared with the configured one.  Given the state
        after i unmatched tries (`fails` of them failed reads, counted on
        top of `s0`, `e0`), it leaves the state after the try: the check's
        outcome, on a match; otherwise the state after i + 1 tries. */
    method TryDeviceId(t: Transfer, ghost i: nat, ghost fails: nat, ghost s0: seq<nat>, ghost e0: seq<nat>)
      returns (matched: bool, ghost fails': nat)
      requires CountersOk() && t == DeviceIdRequest(cfg) && i < DeviceIdTries && fails <= i
      requires |s0| == StatsMax && |e0| == ErrorMax && stats == s0
      requires errors == AddAt(AddAt(e0, ErrDeviceIdRead, fails), ErrVerifyDeviceId, i - fails)
      modifies this`trace, this`stats, this`errors
      ensures CountersOk() && trace == old(trace) + [t]
      ensures var o := IdCheckFrom(bus, |old(trace)|, cfg, DeviceIdTries - i, i, fails);
        && (matched ==>
              && o == IdOutcome(i + 1, fails, true)
              && stats == AddAt(s0, StatVerifyDeviceId, 1) && errors == old(errors))
        && (!matched ==>
              && fails' <= i + 1
              && o == IdCheckFrom(bus, |trace|, cfg, DeviceIdTries - (i + 1), i + 1, fails')
              && stats == s0 && errors == AddAt(AddAt(e0, ErrDeviceIdRead, fails'), ErrVerifyDeviceId, i + 1 - fails'))
    {
      var ok := Issue(t);
      fails' := fails + (if ok then 0 else 1);
      matched := false;
      if !ok {
        IncError(ErrDeviceIdRead);
      } else {
        var id := DeviceId(bus.recvByte(|trace| - 1, t, 0), bus.recvByte(|trace| - 1, t, 1));
        if id == cfg.deviceId {
          matched := true;
          IncStat(StatVerifyDeviceId);
        } else {
          IncError(ErrVerifyDeviceId);
        }
      }
    }

    /** vEepromInitialiseVersionFields: layout 1.0 points every field at its
        buffer and sets the sizes and offsets (and the MAC count from the
        board-info record, still 0); any other version changes nothing. */
    method InitialiseVersionFields(v: Version)
      modifies this`fieldsSet, this`numMacIds
      ensures v == Version1_0 ==> fieldsSet && numMacIds == 0
      ensures v == Version1_0 ==> forall f :: FieldSize(f) == V1Size(f) && FieldOffset(f) == V1Offset(f)
      ensures v != Version1_0 ==> fieldsSet == old(fieldsSet) && numMacIds == old(numMacIds)
    {
      if v == Version1_0 {
        fieldsSet := true;
        numMacIds := 0;
      }
    }

    /** A field's buffer pointer: NULL until the layout is set. */
    function Buffer(f: Field): (r: Wrappers.Option<seq<Byte>>)
      reads this
      requires Valid()
      ensures r.Some? <==> fieldsSet && HasBuffer(f)
      ensures r.Some? ==> r.value == board[f]
    {
      if fieldsSet && HasBuffer(f) then Wrappers.Some(board[f]) else Wrappers.None
    }

    /** Writes a field's buffer through its pointer. */
    method StoreField(f: Field, v: seq<Byte>)
      requires Valid() && f in board && |v| == |board[f]|
      modifies this`board
      ensures Valid() && board == old(board)[f := v]
    {
      BoardStore(board, f, v);
      board := board[f := v];
    }

    /** One iEepromReadField call of iEEPROM_Initialise: the field read into
        its own buffer, which keeps whatever the read left in it; a read
        that succeeds leaves the field NUL-terminated and, unless it is the
        MAC, free of unprogrammed bytes. */
    method ReadBoardField(f: Field) returns (status: Status)
      requires Valid() && f in board && V1Size(f) < |board[f]|
      modifies this`trace, this`stats, this`errors, this`board
      ensures Valid() && InitCountsKept(old(stats), old(errors), stats, errors)
      ensures old(trace) <= trace
      ensures f in board && board == old(board)[f := board[f]]
      ensures !fieldsSet ==> status == Error
      ensures status == Ok ==>
        && AddressSizeOk(cfg)
        && trace == old(trace) + FieldRequests(cfg, V1Offset(f), V1Size(f))
        && ReadInto(bus, cfg, |old(trace)|, old(board), board, f)
    {
      var out;
      status, out := ReadFieldBytes(f);
      if out.Some? {
        StoreField(f, out.value);
      }
    }

    /** The iEepromReadField call of ReadBoardField: the bytes it leaves in
        a copy of the field's buffer, when the pointer is set. */
    method ReadFieldBytes(f: Field) returns (status: Status, out: Wrappers.Option<seq<Byte>>)
      requires Valid() && f in board && V1Size(f) < |board[f]|
      modifies this`trace, this`stats, this`errors
      ensures CountersOk() && InitCountsKept(old(stats), old(errors), stats, errors)
      ensures old(trace) <= trace
      ensures out.Some? <==> fieldsSet && HasBuffer(f)
      ensures out.Some? ==> |out.value| == |board[f]|
      ensures !fieldsSet ==> status == Error
      ensures status == Ok ==>
        && out.Some? && AddressSizeOk(cfg)
        && trace == old(trace) + FieldRequests(cfg, V1Offset(f), V1Size(f))
        && out.value == FieldBytes(bus, |old(trace)|, cfg, V1Offset(f), V1Size(f), f == BoardMac, board[f])
    {
      status, out := ReadField(FieldOffset(f), Buffer(f), FieldSize(f), f == BoardMac);
      if status == Ok {
        assert fieldsSet && AddressSizeOk(cfg);
        ghost var sent := trace[|old(trace)|..];
        FieldReadOk(bus, |old(trace)|, sent, cfg, V1Offset(f), board[f], V1Size(f), f == BoardMac, out.value);
        assert trace == old(trace) + sent;
      }
    }

    /** The MAC-count read of iEEPROM_Initialise, into a buffer with room
        for the terminator: the count of whole MACs in the record length
        read, when the read succeeds. */
    method ReadMacCount() returns (status: Status)
      requires Valid()
      modifies this`trace, this`stats, this`errors, this`numMacIds
      ensures Valid() && InitCountsKept(old(stats), old(errors), stats, errors)
      ensures old(trace) <= trace
      ensures fieldsSet && AddressSizeOk(cfg) ==>
        var n := |old(trace)|;
        var t := ReadRequest(cfg, V1Offset(NumMacIds), 1);
        && trace == old(trace) + [t]
        && (status == Ok <==> bus.sendOk(n, t))
        && (status == Ok ==> numMacIds == MacCount(Clean(bus.recvByte(n, t, 0), false)))
      ensures !(fieldsSet && AddressSizeOk(cfg)) ==> status == Error && trace == old(trace)
      ensures status == Error ==> numMacIds == old(numMacIds)
    {
      MacCountTerminatorFits();
      var out;
      status, out := ReadField(FieldOffset(NumMacIds), Wrappers.Some(MacCountBuffer()), FieldSize(NumMacIds), false);
      if status == Ok {
        numMacIds := MacCount(out.value[0]);
      }
      if fieldsSet && AddressSizeOk(cfg) {
        var sent := trace[|old(trace)|..];
        assert |sent| == 1;
        assert trace == old(trace) + sent;
      }
    }

    /** The version stage of iEEPROM_Initialise: the version byte read into
        its buffer, then checked.  With the layout not yet set the buffer
        pointer is NULL and the read fails before any transfer. */
    method ReadVersion() returns (status: Status)
      requires Valid()
      modifies this`trace, this`stats, this`errors, this`board, this`actual, this`fieldsSet, this`numMacIds
      ensures Valid() && InitCountsKept(old(stats), old(errors), stats, errors)
      ensures EepromVersion in board && board == old(board)[EepromVersion := board[EepromVersion]]
      ensures AddressSizeOk(cfg) && old(fieldsSet) ==>
        var n := |old(trace)|;
        var t := ReadRequest(cfg, 0, 1);
        && trace == old(trace) + [t]
        && (status == Ok <==> bus.sendOk(n, t) && bus.recvByte(n, t, 0) == 1)
        && (bus.sendOk(n, t) && bus.recvByte(n, t, 0) != 1 ==>
              errors[ErrInvalidVersion] == old(errors)[ErrInvalidVersion] + 1)
        && (!bus.sendOk(n, t) ==> errors[ErrReadField] == old(errors)[ErrReadField] + 2)
      ensures !(AddressSizeOk(cfg) && old(fieldsSet)) ==>
        status == Error && trace == old(trace) && errors[ErrReadField] == old(errors)[ErrReadField] + 2
      ensures status == Ok ==>
        && fieldsSet && actual == Version1_0 && board[EepromVersion] == [0x31, 0]
        && errors[ErrIncorrectVersion] == old(errors)[ErrIncorrectVersion] + (if expected != Version1_0 then 1 else 0)
        && (expected != Version1_0 ==> numMacIds == 0)
    {
      var out;
      status, out := ReadField(FieldOffset(EepromVersion), Buffer(EepromVersion), FieldSize(EepromVersion), false);
      if out.Some? {
        StoreField(EepromVersion, out.value);
        if AddressSizeOk(cfg) {
          FieldReadSingle(bus, |old(trace)|, trace[|old(trace)|..], cfg, 0, old(board)[EepromVersion], false, out.value, status);
          assert trace == old(trace) + trace[|old(trace)|..];
          if status == Ok && out.value[0] == 1 {
            assert out.value[0 := 0x31] == [0x31, 0];
          }
        }
      }
      status := CheckVersion(status);
    }

    /** The check iEEPROM_Initialise makes of the version byte it read: 1 is
        layout 1.0, kept as the character '1'; anything else is an invalid
        version.  A layout other than the expected one counts an incorrect
        version and re-initialises the fields; a failed read counts a second
        field-read error. */
    method CheckVersion(read: Status) returns (status: Status)
      requires Valid() && (read == Ok ==> fieldsSet)
      modifies this`errors, this`board, this`actual, this`fieldsSet, this`numMacIds
      ensures Valid() && InitCountsKept(stats, old(errors), stats, errors)
      ensures EepromVersion in board && board == old(board)[EepromVersion := board[EepromVersion]]
      ensures status == Ok <==> read == Ok && old(board)[EepromVersion][0] == 1
      ensures status == Ok ==>
        && fieldsSet && actual == Version1_0
        && board[EepromVersion] == old(board)[EepromVersion][0 := 0x31]
        && errors == AddAt(old(errors), ErrIncorrectVersion, if expected != Version1_0 then 1 else 0)
        && (expected != Version1_0 ==> numMacIds == 0)
      ensures read == Ok && old(board)[EepromVersion][0] != 1 ==>
        errors == AddAt(old(errors), ErrInvalidVersion, 1)
      ensures read != Ok ==> errors == AddAt(old(errors), ErrReadField, 1)
    {
      status := read;
      var v := board[EepromVersion];
      if status == Ok {
        if v[0] == 1 {
          actual := Version1_0;
          StoreField(EepromVersion, v[0 := v[0] + 0x30]);
        } else {
          status := Error;
          IncError(ErrInvalidVersion);
        }
        if status == Ok && expected != actual {
          IncError(ErrIncorrectVersion);
          InitialiseVersionFields(actual);
        }
      } else {
        IncError(ErrReadField);
      }
    }

    /** The field reads iEEPROM_Initialise makes once the checksums pass,
        in its order, stopping at the first failure. */
    method ReadBoardFields() returns (status: Status)
      requires Valid()
      modifies this`trace, this`stats, this`errors, this`board, this`numMacIds
      ensures Valid() && InitCountsKept(old(stats), old(errors), stats, errors)
      ensures old(trace) <= trace
      ensures board[EepromVersion] == old(board)[EepromVersion]
      ensures status == Ok ==>
        && fieldsSet && AddressSizeOk(cfg) && trace == old(trace) + BoardRequests(cfg)
        && BoardReadFrom(bus, cfg, |old(trace)|, old(board), board, numMacIds)
      ensures status == Ok ==> numMacIds <= 41 && FieldsLoaded(board)
    {
      ghost var t0 := trace;
      status := ReadLeadingFields();
      ghost var t2, b2 := trace, board;
      if status == Ok {
        status := ReadPartFields();
        PrefixTrans(t0, t2, trace);
      }
      PartKeepsVersion(b2, board);
      if status == Ok {
        TraceAppended(t0, t2, trace, ProductRequests(cfg) + MacRequests(cfg), PartRequests(cfg));
        BoardReadComposed(bus, cfg, |t0|, old(board), b2, board, numMacIds);
        BoardReadLoaded(bus, cfg, |t0|, old(board), board, numMacIds);
      }
    }

    /** The first two stages of the field reads. */
    method ReadLeadingFields() returns (status: Status)
      requires Valid()
      modifies this`trace, this`stats, this`errors, this`board, this`numMacIds
      ensures Valid() && InitCountsKept(old(stats), old(errors), stats, errors)
      ensures old(trace) <= trace
      ensures ProductName in board && BoardRev in board && BoardSerial in board && BoardMac in board && MfgDate in board
      ensures board == old(board)[ProductName := board[ProductName]][BoardRev := board[BoardRev]][BoardSerial := board[BoardSerial]]
                                 [BoardMac := board[BoardMac]][MfgDate := board[MfgDate]]
      ensures board[EepromVersion] == old(board)[EepromVersion]
      ensures status == Ok ==>
        && fieldsSet && AddressSizeOk(cfg) && trace == old(trace) + (ProductRequests(cfg) + MacRequests(cfg))
        && ProductReadFrom(bus, cfg, |old(trace)|, old(board), board)
        && MacReadFrom(bus, cfg, |old(trace)| + 40, old(board), board, numMacIds)
    {
      ghost var t0, b0 := trace, board;
      status := ReadProductFields();
      ghost var t1, b1 := trace, board;
      if status == Ok {
        status := ReadMacFields();
        PrefixTrans(t0, t1, trace);
      }
      LeadingChain(b0, b1, board);
      if status == Ok {
        LeadingReadComposed(bus, cfg, |t0|, old(board), b1, board, numMacIds);
      }
    }

    /** Product name, board revision and serial number. */
    method ReadProductFields() returns (status: Status)
      requires Valid()
      modifies this`trace, this`stats, this`errors, this`board
      ensures Valid() && InitCountsKept(old(stats), old(errors), stats, errors)
      ensures old(trace) <= trace
      ensures ProductName in board && BoardRev in board && BoardSerial in board
      ensures board == old(board)[ProductName := board[ProductName]][BoardRev := board[BoardRev]][BoardSerial := board[BoardSerial]]
      ensures status == Ok ==>
        && fieldsSet && AddressSizeOk(cfg) && trace == old(trace) + ProductRequests(cfg)
        && ProductReadFrom(bus, cfg, |old(trace)|, old(board), board)
    {
      status := ReadBoardField(ProductName);
      if status != Ok { return; }
      status := ReadBoardField(BoardRev);
      if status != Ok { return; }
      status := ReadBoardField(BoardSerial);
    }

    /** The MAC count, then the MAC and the manufacturing date. */
    method ReadMacFields() returns (status: Status)
      requires Valid()
      modifies this`trace, this`stats, this`errors, this`board, this`numMacIds
      ensures Valid() && InitCountsKept(old(stats), old(errors), stats, errors)
      ensures old(trace) <= trace
      ensures BoardMac in board && MfgDate in board
      ensures board == old(board)[BoardMac := board[BoardMac]][MfgDate := board[MfgDate]]
      ensures status == Ok ==>
        && fieldsSet && AddressSizeOk(cfg) && trace == old(trace) + MacRequests(cfg)
        && MacReadFrom(bus, cfg, |old(trace)|, old(board), board, numMacIds)
    {
      ghost var t0 := trace;
      status := ReadMacCount();
      if status != Ok { return; }
      ghost var t1 := trace;
      status := ReadMacAndDate();
      if status == Ok {
        SingleRequest(cfg, V1Offset(NumMacIds));
        assert t1 == t0 + FieldRequests(cfg, V1Offset(NumMacIds), V1Size(NumMacIds));
      }
    }

    /** The two buffered reads that follow the MAC count. */
    method ReadMacAndDate() returns (status: Status)
      requires Valid()
      modifies this`trace, this`stats, this`errors, this`board
      ensures Valid() && InitCountsKept(old(stats), old(errors), stats, errors)
      ensures old(trace) <= trace
      ensures BoardMac in board && MfgDate in board
      ensures board == old(board)[BoardMac := board[BoardMac]][MfgDate := board[MfgDate]]
      ensures status == Ok ==>
        && fieldsSet && AddressSizeOk(cfg)
        && trace == old(trace) + FieldRequests(cfg, V1Offset(BoardMac), V1Size(BoardMac))
                               + FieldRequests(cfg, V1Offset(MfgDate), V1Size(MfgDate))
        && ReadInto(bus, cfg, |old(trace)|, old(board), board, BoardMac)
        && ReadInto(bus, cfg, |old(trace)| + 6, old(board), board, MfgDate)
    {
      status := ReadBoardField(BoardMac);
      if status != Ok { return; }
      status := ReadBoardField(MfgDate);
    }

    /** Board part number, UUID and manufacturing part number. */
    method ReadPartFields() returns (status: Status)
      requires Valid()
      modifies this`trace, this`stats, this`errors, this`board
      ensures Valid() && InitCountsKept(old(stats), old(errors), stats, errors)
      ensures old(trace) <= trace
      ensures PartNum in board && Uuid in board && MfgPartNum in board
      ensures board == old(board)[PartNum := board[PartNum]][Uuid := board[Uuid]][MfgPartNum := board[MfgPartNum]]
      ensures status == Ok ==>
        && fieldsSet && AddressSizeOk(cfg) && trace == old(trace) + PartRequests(cfg)
        && PartReadFrom(bus, cfg, |old(trace)|, old(board), board)
    {
      status := ReadBoardField(PartNum);
      if status != Ok { return; }
      status := ReadBoardField(Uuid);
      if status != Ok { return; }
      status := ReadBoardField(MfgPartNum);
    }

    /** The checks iEEPROM_Initialise makes before it touches anything:
        firewalls intact, not yet initialised, a configuration given, and
        address and page sizes that fit the 255-byte write buffers. */
    predicate InitGuard(given: Wrappers.Option<Cfg>)
      reads this
    {
      && FirewallsIntact() && !initialised && given.Some?
      && given.value.addressSize + 1 <= 255
      && given.value.addressSize + given.value.pageSize <= 255
    }

    /** iEEPROM_Initialise: the guard, then the stages, then the outcome
        counted as an initialisation statistic or error. */
    method Initialise(version: Version, given: Wrappers.Option<Cfg>) returns (status: Status)
      requires Valid()
      modifies this
      ensures Valid()
      ensures old(trace) <= trace
      ensures !old(InitGuard(given)) ==>
        && status == Error && trace == old(trace) && stats == old(stats) && board == old(board)
        && initialised == old(initialised) && cfg == old(cfg) && fieldsSet == old(fieldsSet)
        && errors == AddAt(AddAt(old(errors), ErrValidation, 1), ErrInitialisation, 1)
      ensures old(InitGuard(given)) ==> cfg == given.value && expected == version
      ensures initialised <==> old(initialised) || status == Ok
      ensures status == Ok ==>
        && fieldsSet && actual == Version1_0 && board[EepromVersion] == [0x31, 0] && numMacIds <= 41
        && FieldsLoaded(board) && BoardLoadedFrom(bus, cfg, trace, old(board), board, numMacIds)
        && (old(fieldsSet) || version == Version1_0)
      ensures status == Ok ==>
        && stats[StatInitialisation] == old(stats)[StatInitialisation] + 1
        && errors[ErrInitialisation] == old(errors)[ErrInitialisation]
      ensures status == Error ==>
        && stats[StatInitialisation] == old(stats)[StatInitialisation]
        && errors[ErrInitialisation] == old(errors)[ErrInitialisation] + 1
    {
      if InitGuard(given) {
        status := InitialiseStages(version, given.value);
        ghost var k := IdCheck(bus, |old(trace)|, given.value).issued;
        PrefixTrans(old(trace), old(trace) + IdRequests(given.value, k), trace);
      } else {
        status := Error;
        IncError(ErrValidation);
      }
      if status == Ok {
        IncStat(StatInitialisation);
      } else {
        IncError(ErrInitialisation);
      }
    }

    /** The body of iEEPROM_Initialise under its guard: configuration and
        layout set, device identifier verified, then the board read. */
    method InitialiseStages(version: Version, c: Cfg) returns (status: Status)
      requires Valid() && FirewallsIntact() && !initialised
      modifies this`trace, this`stats, this`errors, this`board, this`actual, this`fieldsSet,
               this`numMacIds, this`cfg, this`expected, this`initialised
      ensures Valid() && InitCountsKept(old(stats), old(errors), stats, errors)
      ensures cfg == c && expected == version
      ensures var k := IdCheck(bus, |old(trace)|, c).issued;
        old(trace) + IdRequests(c, k) <= trace
      ensures initialised <==> status == Ok
      ensures !old(fieldsSet) && version != Version1_0 ==> status == Error
      ensures status == Ok ==>
        && fieldsSet && actual == Version1_0 && board[EepromVersion] == [0x31, 0] && numMacIds <= 41
        && FieldsLoaded(board) && BoardLoadedFrom(bus, c, trace, old(board), board, numMacIds)
    {
      expected := version;
      cfg := c;
      InitialiseVersionFields(expected);
      status := VerifyDeviceId();
      status := LoadBoard();
    }

    /** What iEEPROM_Initialise does once the device identifier has been
        checked: the version stage, the checksums, the fields; the driver is
        initialised when all of them pass.  A failure of the version stage
        is counted, in addition, as a checksum error. */
    method LoadBoard() returns (status: Status)
      requires Valid() && !initialised
      modifies this`trace, this`stats, this`errors, this`board, this`actual, this`fieldsSet,
               this`numMacIds, this`initialised
      ensures Valid() && InitCountsKept(old(stats), old(errors), stats, errors)
      ensures old(trace) <= trace
      ensures initialised <==> status == Ok
      ensures !old(fieldsSet) ==> status == Error
      ensures status == Ok ==>
        && fieldsSet && actual == Version1_0 && board[EepromVersion] == [0x31, 0] && numMacIds <= 41
        && FieldsLoaded(board) && BoardLoadedFrom(bus, cfg, trace, old(board), board, numMacIds)
    {
      status := ReadVersion();
      if status != Ok {
        IncError(ErrChecksum);
        return;
      }
      status := ReadCheckedFields(old(board));
    }

    /** The checksums, then, when they pass, the fields; the driver is
        initialised when every read succeeds. */
    method ReadCheckedFields(ghost before: map<Field, seq<Byte>>) returns (status: Status)
      requires Valid() && !initialised && fieldsSet
      requires EepromVersion in board && board == before[EepromVersion := board[EepromVersion]]
      modifies this`trace, this`stats, this`errors, this`board, this`numMacIds, this`initialised
      ensures Valid() && InitCountsKept(old(stats), old(errors), stats, errors)
      ensures old(trace) <= trace
      ensures initialised <==> status == Ok
      ensures board[EepromVersion] == old(board)[EepromVersion]
      ensures status == Ok ==> BoardLoadedFrom(bus, cfg, trace, before, board, numMacIds)
      ensures status == Ok ==> numMacIds <= 41 && FieldsLoaded(board)
    {
      status := VerifyChecksum();
      if status != Ok {
        return;
      }
      ghost var t := trace;
      status := ReadBoardFields();
      if status == Ok {
        initialised := true;
        BoardLoadedAfter(bus, cfg, t, trace, old(board), board, numMacIds);
        BoardLoadedBeforeVersion(bus, cfg, trace, before, old(board), board, numMacIds);
      }
    }
  }
}
