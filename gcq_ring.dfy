// The ring buffers of the sGCQ (submission and completion queue) driver.
// Each ring keeps free-running 32-bit producer and consumer counters, finds
// its slots by masking a counter with numSlots - 1, and moves messages
// between a byte buffer and ring memory one 32-bit word at a time.  Memory
// and registers are maps from 64-bit address to 32-bit word.
module Gcq {

  type Byte = x: int | 0 <= x < 256

  const U32Limit: int := 0x1_0000_0000
  const U64Limit: int := 0x1_0000_0000_0000_0000

  type U32 = x: int | 0 <= x < 0x1_0000_0000
  type U64 = x: int | 0 <= x < 0x1_0000_0000_0000_0000

  // ---------------------------------------------------------------------
  // Modular arithmetic
  // ---------------------------------------------------------------------

  /** x == q * m + r with 0 <= r < m fixes the remainder. */
  lemma ModUnique(x: int, m: int, q: int, r: int)
    requires m > 0 && 0 <= r < m && x == q * m + r
    ensures x % m == r && x / m == q
  {
    var k := q - x / m;
    assert k * m == x % m - r;
  }

  /** Adding to a reduced value and reducing again is reducing once. */
  lemma ModAdd(x: int, d: int, m: int)
    requires m > 0
    ensures (x % m + d) % m == (x + d) % m
  {
    ModUnique(x + d, m, x / m + (x % m + d) / m, (x % m + d) % m);
  }

  /** Reducing modulo n * d and then modulo n is reducing modulo n. */
  lemma ModOfMod(t: int, n: int, d: int)
    requires n > 0 && d > 0
    ensures (t % (n * d)) % n == t % n
  {
    var r := t % (n * d);
    var q := t / (n * d);
    assert t == q * (n * d) + r;
    ModUnique(t, n, q * d + r / n, r % n);
  }

  /** The difference of two reduced counters, reduced again, is the true
      distance whenever that distance is below the modulus. */
  lemma ModDistance(p: int, c: int, m: int)
    requires m > 0 && 0 <= p - c < m
    ensures (p % m - c % m) % m == p - c
  {
    ModUnique(p % m - c % m, m, c / m - p / m, p - c);
  }

  // ---------------------------------------------------------------------
  // Powers of two and bitwise AND
  // ---------------------------------------------------------------------

  function Pow2(k: nat): (r: nat)
    ensures r >= 1
  {
    if k == 0 then 1 else 2 * Pow2(k - 1)
  }

  lemma {:induction false} Pow2Add(a: nat, b: nat)
    ensures Pow2(a + b) == Pow2(a) * Pow2(b)
  {
    if a > 0 {
      Pow2Add(a - 1, b);
      assert Pow2(a + b) == 2 * Pow2(a - 1 + b);
    }
  }

  lemma Pow2Of32()
    ensures Pow2(32) == U32Limit
  {
    assert Pow2(2) == 4;
    Pow2Add(2, 2);
    Pow2Add(4, 4);
    Pow2Add(8, 8);
    Pow2Add(16, 16);
  }

  /** The C operator & on two non-negative integers, one bit at a time from
      the least significant. */
  function BitAnd(a: nat, b: nat): (r: nat)
    ensures r <= a && r <= b
  {
    if a == 0 || b == 0 then 0
    else 2 * BitAnd(a / 2, b / 2) + (if a % 2 == 1 && b % 2 == 1 then 1 else 0)
  }

  /** Halving, reducing and doubling back loses only the high part. */
  lemma HalfMod(c: nat, m: nat)
    requires m > 0
    ensures 2 * ((c / 2) % m) + c % 2 == c % (2 * m)
  {
    var q := (c / 2) / m;
    assert c / 2 == q * m + (c / 2) % m;
    ModUnique(c, 2 * m, q, 2 * ((c / 2) % m) + c % 2);
  }

  /** Masking with 2^k - 1 keeps the k low bits: it is reduction modulo 2^k. */
  lemma {:induction false} BitAndLowMask(c: nat, k: nat)
    ensures BitAnd(c, Pow2(k) - 1) == c % Pow2(k)
  {
    if k == 0 {
      assert Pow2(k) == 1;
      ModUnique(c, 1, c, 0);
    } else if c > 0 {
      OddMaskStep(c, k);
      BitAndLowMask(c / 2, k - 1);
    } else {
      ModUnique(0, Pow2(k), 0, 0);
    }
  }

  /** Masking with the odd value 2^k - 1 keeps the low bit and masks the
      rest with 2^(k-1) - 1; reduction modulo 2^k splits the same way. */
  lemma OddMaskStep(c: nat, k: nat)
    requires c > 0 && k > 0
    ensures BitAnd(c, Pow2(k) - 1) == 2 * BitAnd(c / 2, Pow2(k - 1) - 1) + c % 2
    ensures c % Pow2(k) == 2 * ((c / 2) % Pow2(k - 1)) + c % 2
  {
    var m := Pow2(k - 1);
    var b := 2 * m - 1;
    assert b / 2 == m - 1 && b % 2 == 1;
    HalfMod(c, m);
  }

  // ---------------------------------------------------------------------
  // Ring length
  // ---------------------------------------------------------------------

  /** The shared header: eleven 32-bit words (magic, version, slot count,
      SQ offset and slot size, CQ offset, both consumed counters, flags and
      both in-memory produced counters). */
  const HeaderWords: nat := 11
  const HeaderSize: nat := 4 * HeaderWords

  /** prvulGCQRingLen: the header followed by numSlots SQ slots and numSlots
      CQ slots.  The slot sizes are added and multiplied in uint32 and the
      result is returned as a uint32, so every step wraps modulo 2^32. */
  function RingLen(numSlots: U32, sqSlotSize: U32, cqSlotSize: U32): (r: U32)
    ensures HeaderSize + numSlots * (sqSlotSize + cqSlotSize) < U32Limit ==>
      r == HeaderSize + numSlots * sqSlotSize + numSlots * cqSlotSize
  {
    var slots := (numSlots * ((sqSlotSize + cqSlotSize) % U32Limit)) % U32Limit;
    if HeaderSize + numSlots * (sqSlotSize + cqSlotSize) < U32Limit then
      RingLenExact(numSlots, sqSlotSize + cqSlotSize);
      assert slots == numSlots * sqSlotSize + numSlots * cqSlotSize;
      (HeaderSize + slots) % U32Limit
    else
      (HeaderSize + slots) % U32Limit
  }

  /** Without overflow, none of the uint32 reductions changes anything. */
  lemma RingLenExact(n: nat, s: nat)
    requires HeaderSize + n * s < U32Limit
    ensures (n * (s % U32Limit)) % U32Limit == n * s
  {
    if n > 0 {
      MulMonotone(n, 1, s);
      ModUnique(s, U32Limit, 0, s);
    }
    ModUnique(n * s, U32Limit, 0, n * s);
  }

  lemma MulMonotone(a: nat, b: nat, c: nat)
    requires b <= a
    ensures b * c <= a * c
  {
  }

  /** Large rings wrap: 2^31 slots of one SQ and one CQ byte each occupy
      2^32 bytes, which uint32 arithmetic reduces to the header alone. */
  lemma RingLenWraps()
    ensures RingLen(0x8000_0000, 1, 1) == HeaderSize
  {
  }

  // ---------------------------------------------------------------------
  // Slots
  // ---------------------------------------------------------------------

  /** The slot a counter designates: counter & (numSlots - 1), the
      subtraction done in uint32 (so no slots at all mask with 0xFFFFFFFF). */
  function SlotIndex(counter: U32, numSlots: U32): (k: nat)
    ensures numSlots > 0 ==> k < numSlots
    ensures k <= counter
  {
    BitAnd(counter, (numSlots - 1) % U32Limit)
  }

  /** With 2^k slots the mask is reduction modulo 2^k, and since 2^k divides
      2^32 the slot of a wrapped 32-bit counter is the slot of the unbounded
      count it stands for. */
  lemma SlotIndexAcrossWrap(total: nat, k: nat)
    requires k < 32
    ensures Pow2(k) < U32Limit
    ensures SlotIndex(total % U32Limit, Pow2(k)) == total % Pow2(k)
  {
    var n, d := Pow2(k), Pow2(32 - k);
    Pow2Divides(k);
    var x := total % U32Limit;
    MaskBelowLimit(x, n);
    BitAndLowMask(x, k);
    WrapKeepsResidue(total, n, d);
  }

  lemma MaskBelowLimit(x: U32, n: nat)
    requires 1 <= n < U32Limit
    ensures SlotIndex(x, n) == BitAnd(x, n - 1)
  {
    assert (n - 1) % U32Limit == n - 1;
  }

  lemma WrapKeepsResidue(total: nat, n: nat, d: nat)
    requires n > 0 && d > 0 && n * d == U32Limit
    ensures (total % U32Limit) % n == total % n
  {
    ModOfMod(total, n, d);
  }

  /** Every power of two below 2^32 divides 2^32. */
  lemma Pow2Divides(k: nat)
    requires k < 32
    ensures Pow2(k) * Pow2(32 - k) == U32Limit && Pow2(k) < U32Limit
  {
    Pow2Of32();
    Pow2Add(k, 32 - k);
    assert Pow2(32 - k) == 2 * Pow2(31 - k);
    MulMonotone(Pow2(32 - k), 2, Pow2(k));
  }

  /** While the ring holds between one and numSlots - 1 entries, producer and
      consumer counters designate different slots. */
  lemma ProducerSlotIsNotConsumerSlot(produced: nat, consumed: nat, k: nat)
    requires k < 32 && consumed < produced && produced - consumed < Pow2(k)
    ensures Pow2(k) < U32Limit
    ensures SlotIndex(produced % U32Limit, Pow2(k)) != SlotIndex(consumed % U32Limit, Pow2(k))
  {
    SlotIndexAcrossWrap(produced, k);
    SlotIndexAcrossWrap(consumed, k);
    CloseCountsDiffer(produced, consumed, Pow2(k));
  }

  /** Two counts less than n apart fall in different residue classes. */
  lemma CloseCountsDiffer(p: nat, c: nat, n: nat)
    requires c < p && p - c < n
    ensures p % n != c % n
  {
    ModUnique(p - c, n, 0, p - c);
    if p % n == c % n {
      ModUnique(p - c, n, p / n - c / n, 0);
    }
  }

  /** prvullGCQRingGetSlotPtr*: slot base plus slot size times the masked
      counter, in uint64.  When the slot area fits below 2^64 the pointer is
      the start of a whole slot inside it, whatever numSlots is. */
  function SlotAddress(slotAddr: U64, slotSize: U32, numSlots: U32, counter: U32): (r: U64)
    ensures numSlots > 0 && slotAddr + numSlots * slotSize <= U64Limit ==>
      && r == slotAddr + slotSize * SlotIndex(counter, numSlots)
      && slotAddr <= r && r + slotSize <= slotAddr + numSlots * slotSize
  {
    var index := SlotIndex(counter, numSlots);
    if numSlots > 0 && slotAddr + numSlots * slotSize <= U64Limit then
      SlotFits(slotAddr, slotSize, index, numSlots);
      (slotAddr + slotSize * index) % U64Limit
    else
      (slotAddr + slotSize * index) % U64Limit
  }

  /** A slot below the slot count lies wholly inside an area that fits. */
  lemma SlotFits(base: nat, size: nat, index: nat, n: nat)
    requires index < n && base < U64Limit && base + n * size <= U64Limit
    ensures base + size * index + size <= base + n * size
    ensures (base + size * index) % U64Limit == base + size * index
  {
    assert size * index + size == (index + 1) * size;
    MulMonotone(n, index + 1, size);
    ModUnique(base + size * index, U64Limit, 0, base + size * index);
  }

  // ---------------------------------------------------------------------
  // Memory and registers
  // ---------------------------------------------------------------------

  /** The feature flags consulted by the counter accessors. */
  datatype Flags = Flags(needDoubleRead: bool, inMemPtr: bool)

  /** A word of a map; an address never written reads as zero. */
  function Peek(m: map<U64, U32>, addr: U64): U32
  {
    if addr in m then m[addr] else 0
  }

  /** The address of the i-th word after base; uint64 addition wraps. */
  function WordAddr(base: U64, i: nat): U64
  {
    (base + 4 * i) % U64Limit
  }

  lemma WordAddrStep(base: U64, i: nat)
    ensures WordAddr(base, i + 1) == (WordAddr(base, i) + 4) % U64Limit
  {
    ModAdd(base + 4 * i, 4, U64Limit);
  }

  /** Fewer than 2^30 consecutive words never share an address. */
  lemma WordAddrDistinct(base: U64, i: nat, j: nat)
    requires i < j < 0x4000_0000
    ensures WordAddr(base, i) != WordAddr(base, j)
  {
    var x := base + 4 * i;
    var y := base + 4 * j;
    if x < U64Limit { ModUnique(x, U64Limit, 0, x); } else { ModUnique(x, U64Limit, 1, x - U64Limit); }
    if y < U64Limit { ModUnique(y, U64Limit, 0, y); } else { ModUnique(y, U64Limit, 1, y - U64Limit); }
  }

  /** The word a little-endian host reads from four buffer bytes. */
  function LeWord(b: seq<Byte>): (w: U32)
    requires |b| == 4
  {
    var b0: int, b1: int, b2: int, b3: int := b[0], b[1], b[2], b[3];
    b0 + 256 * b1 + 0x1_0000 * b2 + 0x100_0000 * b3
  }

  /** The four bytes a little-endian host stores for a word. */
  function LeBytes(w: U32): (b: seq<Byte>)
    ensures |b| == 4
  {
    [w % 256, (w / 256) % 256, (w / 0x1_0000) % 256, w / 0x100_0000]
  }

  lemma LeBytesRoundTrip(b: seq<Byte>)
    requires |b| == 4
    ensures LeBytes(LeWord(b)) == b
  {
    var w := LeWord(b);
    var b0: int, b1: int, b2: int, b3: int := b[0], b[1], b[2], b[3];
    ModUnique(w, 256, b1 + 256 * b2 + 0x1_0000 * b3, b0);
    ModUnique(w, 0x1_0000, b2 + 256 * b3, b0 + 256 * b1);
    ModUnique(w / 256, 256, b2 + 256 * b3, b1);
    ModUnique(w, 0x100_0000, b3, b0 + 256 * b1 + 0x1_0000 * b2);
    ModUnique(w / 0x1_0000, 256, b3, b2);
  }

  /** The first n words of a byte buffer, as the copy loop reads them. */
  function BufferWords(buf: seq<Byte>, n: nat): (ws: seq<U32>)
    requires 4 * n <= |buf|
    ensures |ws| == n
  {
    seq(n, i requires 0 <= i < n => LeWord(buf[4 * i .. 4 * i + 4]))
  }

  /** The bytes a sequence of words occupies in a little-endian buffer. */
  function WordsToBytes(ws: seq<U32>): (b: seq<Byte>)
    ensures |b| == 4 * |ws|
  {
    if ws == [] then [] else WordsToBytes(ws[..|ws| - 1]) + LeBytes(ws[|ws| - 1])
  }

  /** Reading a buffer as words and storing the words back gives the
      buffer's first 4 * n bytes. */
  lemma {:induction false} BufferWordsRoundTrip(buf: seq<Byte>, n: nat)
    requires 4 * n <= |buf|
    ensures WordsToBytes(BufferWords(buf, n)) == buf[..4 * n]
  {
    if n > 0 {
      var ws := BufferWords(buf, n);
      assert ws[..n - 1] == BufferWords(buf, n - 1);
      BufferWordsRoundTrip(buf, n - 1);
      LeBytesRoundTrip(buf[4 * (n - 1) .. 4 * n]);
      assert buf[..4 * n] == buf[..4 * (n - 1)] + buf[4 * (n - 1) .. 4 * n];
    }
  }

  /** Memory after the words are written one after the other from base. */
  function Stored(m: map<U64, U32>, base: U64, ws: seq<U32>): map<U64, U32>
  {
    if ws == [] then m
    else Stored(m, base, ws[..|ws| - 1])[WordAddr(base, |ws| - 1) := ws[|ws| - 1]]
  }

  /** The n words read one after the other from base. */
  function Loaded(m: map<U64, U32>, base: U64, n: nat): (ws: seq<U32>)
    ensures |ws| == n
  {
    seq(n, i requires 0 <= i < n => Peek(m, WordAddr(base, i)))
  }

  /** Each stored word is found at its own address. */
  lemma {:induction false} StoredAt(m: map<U64, U32>, base: U64, ws: seq<U32>, i: nat)
    requires i < |ws| <= 0x4000_0000
    ensures Peek(Stored(m, base, ws), WordAddr(base, i)) == ws[i]
  {
    if i < |ws| - 1 {
      WordAddrDistinct(base, i, |ws| - 1);
      StoredAt(m, base, ws[..|ws| - 1], i);
    }
  }

  /** Addresses outside the written words keep their contents. */
  lemma {:induction false} StoredElsewhere(m: map<U64, U32>, base: U64, ws: seq<U32>, addr: U64)
    requires forall i :: 0 <= i < |ws| ==> WordAddr(base, i) != addr
    ensures Peek(Stored(m, base, ws), addr) == Peek(m, addr)
  {
    if ws != [] {
      assert WordAddr(base, |ws| - 1) != addr;
      StoredElsewhere(m, base, ws[..|ws| - 1], addr);
    }
  }

  /** Reading back the words just written returns them. */
  lemma LoadStored(m: map<U64, U32>, base: U64, ws: seq<U32>)
    requires |ws| <= 0x4000_0000
    ensures Loaded(Stored(m, base, ws), base, |ws|) == ws
  {
    forall i | 0 <= i < |ws|
      ensures Loaded(Stored(m, base, ws), base, |ws|)[i] == ws[i]
    {
      StoredAt(m, base, ws, i);
    }
  }

  /** prvvGCQCopyToRing then prvvGCQCopyFromRing over the same address and
      length hand back the first 4 * (len / 4) bytes of the buffer. */
  lemma RingCopyRoundTrip(m: map<U64, U32>, addr: U64, buf: seq<Byte>, len: U32)
    requires len <= |buf|
    ensures WordsToBytes(Loaded(Stored(m, addr, BufferWords(buf, len / 4)), addr, len / 4))
         == buf[..4 * (len / 4)]
  {
    LoadStored(m, addr, BufferWords(buf, len / 4));
    BufferWordsRoundTrip(buf, len / 4);
  }

  /** Reading i + 1 words is reading i words and then one more. */
  lemma LoadedSnoc(m: map<U64, U32>, base: U64, i: nat)
    ensures Loaded(m, base, i + 1) == Loaded(m, base, i) + [Peek(m, WordAddr(base, i))]
  {
    assert Loaded(m, base, i + 1)[..i] == Loaded(m, base, i);
  }

  /** The memory and register space the queue is reached through, and the
      access functions of GCQ_IO_ACCESS_TYPE.  The double read the driver
      uses on some platforms is not part of this model: doubleRead answers
      it for each address. */
  class IoAccess {
    var mem: map<U64, U32>
    var regs: map<U64, U32>
    const doubleRead: U64 -> U32

    constructor (mem: map<U64, U32>, regs: map<U64, U32>, doubleRead: U64 -> U32)
      ensures this.mem == mem && this.regs == regs && this.doubleRead == doubleRead
    {
      this.mem := mem;
      this.regs := regs;
      this.doubleRead := doubleRead;
    }

    /** The value a counter accessor obtains from addr under the flags:
        the double read when the platform needs it, else memory or the
        register depending on where the counters live. */
    function Fetch(flags: Flags, addr: U64): U32
      reads this
    {
      if flags.needDoubleRead then doubleRead(addr)
      else if flags.inMemPtr then Peek(mem, addr)
      else Peek(regs, addr)
    }

    method WriteMem32(addr: U64, value: U32)
      modifies this`mem
      ensures mem == old(mem)[addr := value]
    {
      mem := mem[addr := value];
    }

    method WriteReg32(addr: U64, value: U32)
      modifies this`regs
      ensures regs == old(regs)[addr := value]
    {
      regs := regs[addr := value];
    }

    /** Store a counter at addr in memory or in the register under the
        in-memory flag; a fetch without the double read then finds it. */
    method Publish(flags: Flags, addr: U64, value: U32)
      modifies this`mem, this`regs
      ensures flags.inMemPtr ==> mem == old(mem)[addr := value] && regs == old(regs)
      ensures !flags.inMemPtr ==> regs == old(regs)[addr := value] && mem == old(mem)
      ensures !flags.needDoubleRead ==> Fetch(flags, addr) == value
    {
      if flags.inMemPtr {
        WriteMem32(addr, value);
      } else {
        WriteReg32(addr, value);
      }
    }

    /** prvvGCQCopyToRing: len / 4 words of the buffer, read as a
        little-endian host reads them, go to consecutive word addresses
        from dest; the last len % 4 bytes are not copied. */
    method CopyToRing(buffer: seq<Byte>, dest: U64, len: U32)
      requires len <= |buffer|
      modifies this`mem
      ensures mem == Stored(old(mem), dest, BufferWords(buffer, len / 4))
    {
      ghost var words := BufferWords(buffer, len / 4);
      var addr := dest;
      var i := 0;
      while i < len / 4
        invariant 0 <= i <= len / 4 && addr == WordAddr(dest, i)
        invariant mem == Stored(old(mem), dest, words[..i])
      {
        assert words[..i + 1][..i] == words[..i];
        WriteMem32(addr, LeWord(buffer[4 * i .. 4 * i + 4]));
        WordAddrStep(dest, i);
        addr := (addr + 4) % U64Limit;
        i := i + 1;
      }
      assert words[..len / 4] == words;
    }

    /** prvvGCQCopyFromRing: len / 4 words read from consecutive addresses
        from src are stored into the buffer as a little-endian host stores
        them; the bytes after them are left as they were. */
    method CopyFromRing(buffer: array<Byte>, src: U64, len: U32)
      requires len <= buffer.Length
      modifies buffer
      ensures buffer[..4 * (len / 4)] == WordsToBytes(Loaded(mem, src, len / 4))
      ensures buffer[4 * (len / 4)..] == old(buffer[4 * (len / 4)..])
    {
      var addr := src;
      var i := 0;
      while i < len / 4
        invariant 0 <= i <= len / 4 && addr == WordAddr(src, i)
        invariant buffer[..4 * i] == WordsToBytes(Loaded(mem, src, i))
        invariant buffer[4 * i..] == old(buffer[4 * i..])
      {
        var b := LeBytes(Peek(mem, addr));
        ghost var before := buffer[..];
        buffer[4 * i] := b[0];
        buffer[4 * i + 1] := b[1];
        buffer[4 * i + 2] := b[2];
        buffer[4 * i + 3] := b[3];
        assert buffer[..] == before[..4 * i] + b + before[4 * i + 4..];
        LoadedSnoc(mem, src, i);
        WordAddrStep(src, i);
        addr := (addr + 4) % U64Limit;
        i := i + 1;
      }
    }
  }

  /** GCQ_RING_TYPE: the slot geometry, the two free-running counters and
      the addresses they are published at. */
  class Ring {
    var numSlots: U32
    var slotSize: U32
    var produced: U32
    var consumed: U32
    var producedAddr: U64
    var consumedAddr: U64
    var slotAddr: U64

    /** prvucGCQRingIsFull: at least numSlots entries outstanding, the
        distance taken in uint32. */
    function IsFull(): (r: bool)
      reads this
      ensures IsEmpty() ==> (r <==> numSlots == 0)
    {
      (produced - consumed) % U32Limit >= numSlots
    }

    /** prvucGCQRingIsEmpty. */
    function IsEmpty(): bool
      reads this
    {
      produced == consumed
    }

    /** prvullGCQRingGetSlotPtrProduced. */
    function SlotPtrProduced(): U64
      reads this
    {
      SlotAddress(slotAddr, slotSize, numSlots, produced)
    }

    /** prvullGCQRingGetSlotPtrConsumed. */
    function SlotPtrConsumed(): U64
      reads this
    {
      SlotAddress(slotAddr, slotSize, numSlots, consumed)
    }

    /** prvvGCQInitRing: record the geometry and addresses and start both
        counters at zero, which leaves the ring empty. */
    method Init(producedAddr: U64, consumedAddr: U64, slotAddr: U64, numSlots: U32, slotSize: U32)
      modifies this
      ensures this.producedAddr == producedAddr && this.consumedAddr == consumedAddr
      ensures this.slotAddr == slotAddr && this.numSlots == numSlots && this.slotSize == slotSize
      ensures produced == 0 && consumed == 0
      ensures IsEmpty() && (numSlots > 0 ==> !IsFull())
    {
      this.producedAddr := producedAddr;
      this.consumedAddr := consumedAddr;
      this.slotAddr := slotAddr;
      this.slotSize := slotSize;
      this.numSlots := numSlots;
      produced, consumed := 0, 0;
    }

    /** prvvGCQRingReadProduced: reload the producer counter. */
    method ReadProduced(io: IoAccess, flags: Flags)
      modifies this`produced
      ensures produced == io.Fetch(flags, producedAddr)
    {
      produced := io.Fetch(flags, producedAddr);
    }

    /** prvvGCQRingWriteProduced: publish the producer counter. */
    method WriteProduced(io: IoAccess, flags: Flags)
      modifies io`mem, io`regs
      ensures flags.inMemPtr ==> io.mem == old(io.mem)[producedAddr := produced] && io.regs == old(io.regs)
      ensures !flags.inMemPtr ==> io.regs == old(io.regs)[producedAddr := produced] && io.mem == old(io.mem)
      ensures !flags.needDoubleRead ==> io.Fetch(flags, producedAddr) == produced
    {
      io.Publish(flags, producedAddr, produced);
    }

    /** prvvGCQRingReadConsumed: reload the consumer counter. */
    method ReadConsumed(io: IoAccess, flags: Flags)
      modifies this`consumed
      ensures consumed == io.Fetch(flags, consumedAddr)
    {
      consumed := io.Fetch(flags, consumedAddr);
    }

    /** prvvGCQRingWriteConsumed: publish the consumer counter. */
    method WriteConsumed(io: IoAccess, flags: Flags)
      modifies io`mem, io`regs
      ensures flags.inMemPtr ==> io.mem == old(io.mem)[consumedAddr := consumed] && io.regs == old(io.regs)
      ensures !flags.inMemPtr ==> io.regs == old(io.regs)[consumedAddr := consumed] && io.mem == old(io.mem)
      ensures !flags.needDoubleRead ==> io.Fetch(flags, consumedAddr) == consumed
    {
      io.Publish(flags, consumedAddr, consumed);
    }
  }

  /** The 32-bit counters stand for unbounded counts of messages produced
      and consumed.  As long as fewer than 2^32 messages are outstanding,
      IsFull says the outstanding count has reached numSlots. */
  lemma FullUnderWraparound(ring: Ring, produced: nat, consumed: nat)
    requires ring.produced == produced % U32Limit && ring.consumed == consumed % U32Limit
    requires consumed <= produced < consumed + U32Limit
    ensures ring.IsFull() <==> produced - consumed >= ring.numSlots
  {
    ModDistance(produced, consumed, U32Limit);
  }

  /** Under the same bound, IsEmpty says nothing is outstanding. */
  lemma EmptyUnderWraparound(ring: Ring, produced: nat, consumed: nat)
    requires ring.produced == produced % U32Limit && ring.consumed == consumed % U32Limit
    requires consumed <= produced < consumed + U32Limit
    ensures ring.IsEmpty() <==> produced == consumed
  {
    ModDistance(produced, consumed, U32Limit);
  }
}
