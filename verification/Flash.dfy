/** boot/usboot_iap.c: finding, erasing and programming flash sectors through
    the in-application-programming commands. */
module Flash {
  import opened Words

  datatype FlashSector = FlashSector(base: nat, size: nat)

  const FLASH_SIZE: nat := 0x8_0000
  const PAGE: nat := 256

  /** Base addresses and lengths of the flash sectors. */
  const IAP_SECTOR: seq<FlashSector> := [
    FlashSector(0x00000, 4096), FlashSector(0x01000, 4096), FlashSector(0x02000, 4096), FlashSector(0x03000, 4096),
    FlashSector(0x04000, 4096), FlashSector(0x05000, 4096), FlashSector(0x06000, 4096), FlashSector(0x07000, 4096),
    FlashSector(0x08000, 4096), FlashSector(0x09000, 4096), FlashSector(0x0A000, 4096), FlashSector(0x0B000, 4096),
    FlashSector(0x0C000, 4096), FlashSector(0x0D000, 4096), FlashSector(0x0E000, 4096), FlashSector(0x0F000, 4096),
    FlashSector(0x10000, 32768), FlashSector(0x18000, 32768), FlashSector(0x20000, 32768), FlashSector(0x28000, 32768),
    FlashSector(0x30000, 32768), FlashSector(0x38000, 32768), FlashSector(0x40000, 32768), FlashSector(0x48000, 32768),
    FlashSector(0x50000, 32768), FlashSector(0x58000, 32768), FlashSector(0x60000, 32768), FlashSector(0x68000, 32768),
    FlashSector(0x70000, 32768), FlashSector(0x78000, 32768)
  ]

  function Base(k: nat): nat {
    if k <= 16 then k * 4096 else 0x10000 + (k - 16) * 32768
  }

  /** The sector of a flash address. */
  function SectorOf(addr: nat): nat {
    if addr < 0x10000 then addr / 4096 else 16 + (addr - 0x10000) / 32768
  }

  /** The table is the two runs of equal sectors that cover the flash. */
  lemma SectorTable(k: nat)
    requires k < 30
    ensures |IAP_SECTOR| == 30 && IAP_SECTOR[k] == FlashSector(Base(k), Base(k + 1) - Base(k))
    ensures Base(k) < Base(k + 1) <= FLASH_SIZE
  {
  }

  lemma SectorOfAddress(addr: nat, k: nat)
    ensures Base(k) <= addr < Base(k + 1) <==> SectorOf(addr) == k
    ensures addr < FLASH_SIZE <==> SectorOf(addr) < 30
  {
  }

  // IAP result codes
  const IAP_CMD_SUCCESS: nat := 0
  const IAP_DST_ADDR_NOT_MAPPED: nat := 5
  const IAP_SECTOR_NOT_PREPARED: nat := 9

  // ---------- Flash contents ----------

  type Memory = m: seq<byte> | |m| == FLASH_SIZE witness seq(FLASH_SIZE, _ => 0)

  /** Flash after sectors lo up to (not including) hi are erased. */
  function Erased(m: Memory, lo: nat, hi: nat): (r: Memory)
    ensures forall i :: 0 <= i < FLASH_SIZE ==> r[i] == if lo <= SectorOf(i) < hi then 0xFF else m[i]
  {
    seq(FLASH_SIZE, i requires 0 <= i < FLASH_SIZE => if lo <= SectorOf(i) < hi then 0xFF else m[i])
  }

  /** Flash after data is programmed at dst: programming can only clear bits. */
  function Programmed(m: Memory, dst: nat, data: seq<byte>): (r: Memory)
    ensures forall i :: 0 <= i < FLASH_SIZE ==>
              r[i] == if dst <= i < dst + |data| then And(m[i], data[i - dst]) else m[i]
  {
    seq(FLASH_SIZE, i requires 0 <= i < FLASH_SIZE =>
      if dst <= i < dst + |data| then And(m[i], data[i - dst]) else m[i])
  }

  /** Counters with those from lo up to (not including) hi one higher. */
  function Bump(c: seq<nat>, lo: nat, hi: nat): (r: seq<nat>)
    ensures |r| == |c|
    ensures forall i :: 0 <= i < |c| ==> r[i] == c[i] + if lo <= i < hi then 1 else 0
  {
    seq(|c|, i requires 0 <= i < |c| => c[i] + if lo <= i < hi then 1 else 0)
  }

  // ---------- The device ----------

  /** The flash and its command interface. Commands fail with the scheduled
      codes while there are any; then they succeed. */
  class Device {
    var mem: Memory
    var prepared: int        // the sector prepared for the next command, or -1
    var faults: seq<nat>     // result codes of coming commands
    ghost var erases: seq<nat> // times each sector was erased
    ghost var writes: seq<nat> // times each 256-byte page was programmed

    ghost predicate Valid()
      reads this
    {
      |erases| == 30 && |writes| == FLASH_SIZE / PAGE && prepared < 30
    }

    constructor (mem: Memory, faults: seq<nat>)
      ensures Valid() && this.mem == mem && this.faults == faults
      ensures erases == seq(30, _ => 0) && writes == seq(FLASH_SIZE / PAGE, _ => 0)
    {
      this.mem, this.faults, prepared := mem, faults, -1;
      erases := seq(30, _ => 0);
      writes := seq(FLASH_SIZE / PAGE, _ => 0);
    }

    method NextResult() returns (code: nat)
      modifies this`faults
      ensures old(faults) == [] ==> code == IAP_CMD_SUCCESS && faults == []
    {
      if faults == [] { return IAP_CMD_SUCCESS; }
      code := faults[0];
      faults := faults[1..];
    }

    method PrepareSector(sector: nat) returns (code: nat)
      requires Valid() && sector < 30
      modifies this`faults, this`prepared
      ensures Valid()
      ensures old(faults) == [] ==> code == IAP_CMD_SUCCESS && faults == []
      ensures code == IAP_CMD_SUCCESS ==> prepared == sector
    {
      code := NextResult();
      if code == IAP_CMD_SUCCESS { prepared := sector; }
    }

    method EraseSector(sector: nat) returns (code: nat)
      requires Valid() && sector < 30
      modifies this
      ensures Valid() && writes == old(writes)
      ensures old(faults) == [] ==> faults == [] && (old(prepared) == sector ==> code == IAP_CMD_SUCCESS)
      ensures code == IAP_CMD_SUCCESS ==> mem == Erased(old(mem), sector, sector + 1)
      ensures code == IAP_CMD_SUCCESS ==> erases == Bump(old(erases), sector, sector + 1)
      ensures code != IAP_CMD_SUCCESS ==> mem == old(mem) && erases == old(erases)
    {
      code := NextResult();
      if code != IAP_CMD_SUCCESS { return; }
      if prepared != sector { return IAP_SECTOR_NOT_PREPARED; }
      mem := Erased(mem, sector, sector + 1);
      erases := Bump(erases, sector, sector + 1);
      prepared := -1;
    }

    /** Programs data at dst; the prepared sector must hold all of it. */
    method CopyRamToFlash(dst: nat, data: seq<byte>) returns (code: nat)
      requires Valid() && dst % PAGE == 0 && 0 < |data| && |data| % PAGE == 0
      modifies this
      ensures Valid() && erases == old(erases)
      ensures old(faults) == [] ==> faults == []
      ensures old(faults) == [] && old(prepared) == SectorOf(dst) == SectorOf(dst + |data| - 1) ==>
                code == IAP_CMD_SUCCESS
      ensures code == IAP_CMD_SUCCESS ==> dst + |data| <= FLASH_SIZE
      ensures code == IAP_CMD_SUCCESS ==> mem == Programmed(old(mem), dst, data)
      ensures code == IAP_CMD_SUCCESS ==> writes == Bump(old(writes), dst / PAGE, (dst + |data|) / PAGE)
      ensures code != IAP_CMD_SUCCESS ==> mem == old(mem) && writes == old(writes)
    {
      code := NextResult();
      if code != IAP_CMD_SUCCESS { return; }
      if prepared != SectorOf(dst) || prepared != SectorOf(dst + |data| - 1) { return IAP_SECTOR_NOT_PREPARED; }
      SectorOfAddress(dst + |data| - 1, prepared);
      mem := Programmed(mem, dst, data);
      writes := Bump(writes, dst / PAGE, (dst + |data|) / PAGE);
      prepared := -1;
    }
  }

  // ---------- The code ----------

  /** iapFindSector. */
  method FindSector(addr: nat) returns (sec: int, base: nat, size: nat)
    ensures addr < FLASH_SIZE ==> sec == SectorOf(addr) && base == Base(sec) && base + size == Base(sec + 1)
    ensures addr >= FLASH_SIZE ==> sec == -1 && base == 0 && size == 0
  {
    SectorOfAddress(addr, SectorOf(addr));
    var k := 0;
    while k < |IAP_SECTOR|
      invariant 0 <= k <= |IAP_SECTOR| == 30
      invariant Base(k) <= addr
    {
      SectorTable(k);
      SectorOfAddress(addr, k);
      if IAP_SECTOR[k].base <= addr && IAP_SECTOR[k].base + IAP_SECTOR[k].size > addr {
        return k, IAP_SECTOR[k].base, IAP_SECTOR[k].size;
      }
      k := k + 1;
    }
    return -1, 0, 0;
  }

  /** iapErase: erases the sectors that hold the addresses from dst up to
      dst + len. On any outcome, sectors SectorOf(dst) up to (not including)
      next have been erased, each once, and nothing else has changed. */
  method Erase(device: Device, dst0: word, len0: word) returns (code: nat, ghost next: nat)
    requires device.Valid()
    modifies device
    ensures device.Valid() && device.writes == old(device.writes)
    ensures SectorOf(dst0) <= next
    ensures device.mem == Erased(old(device.mem), SectorOf(dst0), next)
    ensures device.erases == Bump(old(device.erases), SectorOf(dst0), next)
    ensures code == IAP_CMD_SUCCESS && len0 > 0 && dst0 + len0 < TWO_TO_THE_32 ==>
              dst0 + len0 <= FLASH_SIZE && next == SectorOf(dst0 + len0 - 1) + 1
    ensures old(device.faults) == [] ==> device.faults == []
    ensures old(device.faults) == [] ==>
              (code == IAP_CMD_SUCCESS <==>
               len0 == 0 || dst0 + len0 <= FLASH_SIZE || (dst0 + len0 >= TWO_TO_THE_32 && dst0 < FLASH_SIZE))
    ensures dst0 + len0 >= TWO_TO_THE_32 ==>
              next == SectorOf(dst0) + if code == IAP_CMD_SUCCESS then 1 else 0
    ensures code != IAP_CMD_SUCCESS && dst0 + len0 <= Base(SectorOf(dst0) + 1) ==> next == SectorOf(dst0)
  {
    hide Erased, Bump, Base, SectorOf, U32, Reached;
    ReachedStart(dst0, len0);
    var dst: nat, len: nat := dst0, len0;
    next := SectorOf(dst0);
    NothingErased(device.mem, device.erases, next);
    while len > 0
      invariant device.Valid() && device.writes == old(device.writes)
      invariant Reached(dst0, len0, dst, len, next)
      invariant ErasedTo(old(device.mem), old(device.erases), SectorOf(dst0), next, device.mem, device.erases)
      invariant old(device.faults) == [] ==> device.faults == []
      decreases if len > 0 then 1 else 0, 31 - next
    {
      var sector, base, size := FindSector(dst);
      ReachedFacts(dst0, len0, dst, len, next);
      if sector < 0 {
        return IAP_DST_ADDR_NOT_MAPPED, next;
      }
      ReachedNext(dst0, len0, dst, len, sector, base, size);
      if U32(dst + len) > base + size {
        len := len + (dst - base);
        dst := base;
      } else {
        len := size;
        dst := base;
      }
      code := device.PrepareSector(sector);
      if code != IAP_CMD_SUCCESS { return; }
      ghost var mem, erases := device.mem, device.erases;
      code := device.EraseSector(sector);
      if code != IAP_CMD_SUCCESS { return; }
      EraseNext(old(device.mem), old(device.erases), SectorOf(dst0), sector, mem, erases);
      next := sector + 1;
      len := len - size;
      dst := dst + size;
    }
    ReachedEnd(dst0, len0, dst, next);
    code := IAP_CMD_SUCCESS;
  }

  /** Between two turns of that loop, started at dst0 with len0: the sectors before
      next are done. An end past 32 bits makes the first turn the last. */
  predicate Reached(dst0: word, len0: nat, dst: nat, len: nat, next: nat) {
    && SectorOf(dst0) <= next && len < TWO_TO_THE_32
    && (len > 0 ==> next == SectorOf(dst) && dst + len == dst0 + len0)
    && (len > 0 && next > SectorOf(dst0) ==> dst0 + len0 > Base(SectorOf(dst0) + 1))
    && (len == 0 < len0 ==> dst0 < FLASH_SIZE)
    && if dst0 + len0 >= TWO_TO_THE_32
       then if len == 0 then next == SectorOf(dst0) + 1 else dst == dst0 && len == len0
       else len == 0 < len0 ==> dst0 + len0 <= FLASH_SIZE && next == SectorOf(dst0 + len0 - 1) + 1
  }

  lemma ReachedStart(dst0: word, len0: nat)
    requires len0 < TWO_TO_THE_32
    ensures Reached(dst0, len0, dst0, len0, SectorOf(dst0))
  {
  }

  lemma ReachedEnd(dst0: word, len0: nat, dst: nat, next: nat)
    requires Reached(dst0, len0, dst, 0, next)
    ensures SectorOf(dst0) <= next && (len0 > 0 ==> dst0 < FLASH_SIZE)
    ensures if dst0 + len0 >= TWO_TO_THE_32 then next == SectorOf(dst0) + 1
            else len0 > 0 ==> dst0 + len0 <= FLASH_SIZE && next == SectorOf(dst0 + len0 - 1) + 1
  {
  }

  lemma ReachedFacts(dst0: word, len0: nat, dst: nat, len: nat, next: nat)
    requires Reached(dst0, len0, dst, len, next) && len > 0
    ensures SectorOf(dst0) <= next == SectorOf(dst) && (dst < FLASH_SIZE ==> next < 30)
    ensures dst >= FLASH_SIZE ==> dst0 + len0 > FLASH_SIZE && (dst0 + len0 >= TWO_TO_THE_32 ==> dst == dst0)
    ensures dst0 + len0 <= Base(SectorOf(dst0) + 1) || dst0 + len0 >= TWO_TO_THE_32 ==> next == SectorOf(dst0)
  {
  }

  lemma ReachedNext(dst0: word, len0: nat, dst: nat, len: nat, k: nat, base: nat, size: nat)
    requires Reached(dst0, len0, dst, len, k) && len > 0 && dst < FLASH_SIZE
    requires base == Base(k) && base + size == Base(k + 1)
    ensures base <= dst < base + size
    ensures var len' := if U32(dst + len) > base + size then len + (dst - base) else size;
            len' >= size && Reached(dst0, len0, base + size, len' - size, k + 1)
  {
    SectorTable(k);
    SectorOfAddress(dst, k);
    SectorOfAddress(dst + len - 1, k);
    NextSector(k);
    if dst0 + len0 >= TWO_TO_THE_32 { WrapLow(dst, len); }
  }

  lemma NextSector(k: nat)
    requires k < 30
    ensures SectorOf(Base(k + 1)) == k + 1
  {
  }

  /** An end address past 32 bits wraps to below the start address. */
  lemma WrapLow(dst: nat, len: nat)
    requires dst < TWO_TO_THE_32 && len < TWO_TO_THE_32 && dst + len >= TWO_TO_THE_32
    ensures U32(dst + len) < dst
  {
  }

  lemma BumpNone(c: seq<nat>, k: nat)
    ensures Bump(c, k, k) == c
  {
  }

  lemma ErasedNone(m: Memory, k: nat)
    ensures Erased(m, k, k) == m
  {
  }

  /** Flash and its sector counters have gone from m and c to m' and c' by sectors lo
      up to (not including) hi being erased, each once. */
  predicate ErasedTo(m: Memory, c: seq<nat>, lo: nat, hi: nat, m': Memory, c': seq<nat>) {
    m' == Erased(m, lo, hi) && c' == Bump(c, lo, hi)
  }

  lemma NothingErased(m: Memory, c: seq<nat>, k: nat)
    ensures ErasedTo(m, c, k, k, m, c)
  {
    ErasedNone(m, k);
    BumpNone(c, k);
  }

  lemma EraseNext(m: Memory, c: seq<nat>, lo: nat, k: nat, m': Memory, c': seq<nat>)
    requires lo <= k && ErasedTo(m, c, lo, k, m', c')
    ensures ErasedTo(m, c, lo, k + 1, Erased(m', k, k + 1), Bump(c', k, k + 1))
  {
    assert Erased(m', k, k + 1) == Erased(m, lo, k + 1);
    assert Bump(c', k, k + 1) == Bump(c, lo, k + 1);
  }

  /** Flash and its page counters have gone from m and w to m' and w' by data being
      programmed at dst, each page once. */
  predicate WrittenTo(m: Memory, w: seq<nat>, dst: nat, data: seq<byte>, m': Memory, w': seq<nat>) {
    m' == Programmed(m, dst, data) && w' == Bump(w, dst / PAGE, (dst + |data|) / PAGE)
  }

  lemma NothingWritten(m: Memory, w: seq<nat>, dst: nat)
    ensures WrittenTo(m, w, dst, [], m, w)
  {
    BumpNone(w, dst / PAGE);
    ProgrammedNone(m, dst);
  }

  lemma WriteNext(m: Memory, w: seq<nat>, dst: nat, data: seq<byte>, done: nat, n: nat,
                  m': Memory, w': seq<nat>, m'': Memory, w'': seq<nat>)
    requires done + n <= |data| && WrittenTo(m, w, dst, data[..done], m', w')
    requires WrittenTo(m', w', dst + done, data[done..done + n], m'', w'')
    ensures WrittenTo(m, w, dst, data[..done + n], m'', w'')
  {
    ProgramNext(m, dst, data, done, n);
    BumpNext(w, dst / PAGE, (dst + done) / PAGE, (dst + done + n) / PAGE);
  }

  /** iapWrite: programs data at dst in the largest pieces that fit. On any
      outcome the first done bytes of data have been programmed, each page
      once, and nothing else has changed. */
  method Write(device: Device, dst0: nat, data: seq<byte>) returns (code: nat, ghost done: nat)
    requires device.Valid() && dst0 % PAGE == 0 && |data| % PAGE == 0
    modifies device
    ensures device.Valid() && device.erases == old(device.erases)
    ensures done <= |data| && (code == IAP_CMD_SUCCESS ==> done == |data|)
    ensures done > 0 ==> dst0 + done <= FLASH_SIZE
    ensures WrittenTo(old(device.mem), old(device.writes), dst0, data[..done], device.mem, device.writes)
    ensures old(device.faults) == [] ==> device.faults == []
    ensures old(device.faults) == [] && (|data| == PAGE || dst0 % 4096 == 0) ==>
              (code == IAP_CMD_SUCCESS <==> data == [] || dst0 + |data| <= FLASH_SIZE)
    ensures dst0 >= FLASH_SIZE && data != [] ==> code == IAP_DST_ADDR_NOT_MAPPED
    ensures code != IAP_CMD_SUCCESS && |data| == PAGE ==> done == 0
  {
    hide WrittenTo, SectorOf, Base, Chunk, Aligned;
    ghost var m, w := device.mem, device.writes;
    if |data| == PAGE || dst0 % 4096 == 0 { AlignedStart(dst0, |data|); }
    var dst, src, len := dst0, 0, |data|;
    done := 0;
    NothingWritten(m, w, dst0);
    while len > 0
      invariant 0 <= len && done == src && src + len == |data| && dst == dst0 + src
      invariant len % PAGE == 0
      invariant device.Valid() && device.erases == old(device.erases)
      invariant WrittenTo(m, w, dst0, data[..done], device.mem, device.writes)
      invariant done > 0 ==> dst <= FLASH_SIZE
      invariant old(device.faults) == [] ==> device.faults == []
      invariant dst % PAGE == 0 && (|data| == PAGE || dst0 % 4096 == 0 ==> Aligned(dst, len))
    {
      var n := Chunk(len);
      ChunkFits(dst, len);
      ghost var m', w' := device.mem, device.writes;
      code := WritePiece(device, dst, data[src..src + n]);
      if code != IAP_CMD_SUCCESS { return; }
      WriteNext(m, w, dst0, data, src, n, m', w', device.mem, device.writes);
      done := done + n;
      if len <= n {
        return;
      }
      if Aligned(dst, len) { AlignedStep(dst, len); }
      len := len - n;
      dst := dst + n;
      src := src + n;
    }
    code := IAP_CMD_SUCCESS;
  }

  /** One piece: find its sector and prepare it, then copy. */
  method WritePiece(device: Device, dst: nat, data: seq<byte>) returns (code: nat)
    requires device.Valid() && dst % PAGE == 0 && 0 < |data| && |data| % PAGE == 0
    modifies device
    ensures device.Valid() && device.erases == old(device.erases)
    ensures old(device.faults) == [] ==> device.faults == []
    ensures old(device.faults) == [] && dst + |data| <= FLASH_SIZE && SectorOf(dst) == SectorOf(dst + |data| - 1) ==>
              code == IAP_CMD_SUCCESS
    ensures code == IAP_CMD_SUCCESS ==>
              dst + |data| <= FLASH_SIZE
              && WrittenTo(old(device.mem), old(device.writes), dst, data, device.mem, device.writes)
    ensures code != IAP_CMD_SUCCESS ==> device.mem == old(device.mem) && device.writes == old(device.writes)
    ensures dst >= FLASH_SIZE ==> code == IAP_DST_ADDR_NOT_MAPPED
  {
    hide Programmed, Bump, SectorOf, Base;
    var sector, base, size := FindSector(dst);
    SectorOfAddress(dst, SectorOf(dst));
    if sector < 0 { return IAP_DST_ADDR_NOT_MAPPED; }
    code := device.PrepareSector(sector);
    if code != IAP_CMD_SUCCESS { return; }
    code := device.CopyRamToFlash(dst, data);
  }

  /** The bytes one copy command takes when len remain. */
  function Chunk(len: nat): nat {
    if len >= 4096 then 4096 else if len >= 1024 then 1024 else if len >= 512 then 512 else 256
  }

  /** An aligned piece stays inside one sector. */
  lemma ChunkFits(dst: nat, len: nat)
    requires len > 0 && len % PAGE == 0 && dst % PAGE == 0
    ensures 0 < Chunk(len) <= len && Chunk(len) % PAGE == 0
    ensures (len - Chunk(len)) % PAGE == 0 && (dst + Chunk(len)) % PAGE == 0
    ensures Aligned(dst, len) ==> SectorOf(dst + Chunk(len) - 1) == SectorOf(dst)
  {
    if Chunk(len) == 4096 {} else if Chunk(len) == 1024 {} else if Chunk(len) == 512 {} else {}
    if Aligned(dst, len) {
      AlignedChunk(dst, Chunk(len));
    }
  }

  lemma AlignedChunk(dst: nat, n: nat)
    requires n == 4096 || n == 1024 || n == 512 || n == 256
    requires dst % n == 0
    ensures SectorOf(dst + n - 1) == SectorOf(dst)
  {
    var q, r := dst / 4096, dst % 4096;
    assert r + n <= 4096 by {
      if n == 4096 {} else if n == 1024 {} else if n == 512 {} else {}
    }
    DivModUnique(dst + n - 1, 4096, q, r + n - 1);
    SectorOfBlock(dst);
    SectorOfBlock(dst + n - 1);
  }

  /** The sector of an address depends on its 4 KB block only. */
  lemma SectorOfBlock(addr: nat)
    ensures SectorOf(addr) == if addr / 4096 < 16 then addr / 4096 else 16 + (addr / 4096 - 16) / 8
  {
  }

  /** The next copy command stays inside one sector. */
  predicate Aligned(dst: nat, len: nat) {
    len == 0 || len == PAGE || dst % Chunk(len) == 0
  }

  lemma AlignedStart(dst: nat, len: nat)
    requires len == PAGE || dst % 4096 == 0
    ensures Aligned(dst, len)
  {
    if Chunk(len) == 4096 {} else if Chunk(len) == 1024 {} else if Chunk(len) == 512 {} else {}
  }

  lemma AlignedStep(dst: nat, len: nat)
    requires Aligned(dst, len) && len > Chunk(len) && len % PAGE == 0
    ensures Aligned(dst + Chunk(len), len - Chunk(len))
  {
    if len >= 4096 {
      After4096(dst);
    } else if len >= 1024 {
      After1024(dst);
    }
  }

  lemma After4096(dst: nat)
    requires dst % 4096 == 0
    ensures (dst + 4096) % 4096 == 0 && (dst + 4096) % 1024 == 0 && (dst + 4096) % 512 == 0
  {
    var q := dst / 4096;
    assert dst == q * 4096;
    DivModUnique(dst + 4096, 4096, q + 1, 0);
    DivModUnique(dst + 4096, 1024, 4 * q + 4, 0);
    DivModUnique(dst + 4096, 512, 8 * q + 8, 0);
  }

  lemma After1024(dst: nat)
    requires dst % 1024 == 0
    ensures (dst + 1024) % 1024 == 0 && (dst + 1024) % 512 == 0
  {
    var q := dst / 1024;
    assert dst == q * 1024;
    DivModUnique(dst + 1024, 1024, q + 1, 0);
    DivModUnique(dst + 1024, 512, 2 * q + 2, 0);
  }

  lemma ProgrammedNone(m: Memory, dst: nat)
    ensures Programmed(m, dst, []) == m
  {
  }

  lemma ProgramNext(m: Memory, dst: nat, data: seq<byte>, done: nat, n: nat)
    requires done + n <= |data|
    ensures Programmed(Programmed(m, dst, data[..done]), dst + done, data[done..done + n])
            == Programmed(m, dst, data[..done + n])
  {
    hide And;
    assert Programmed(Programmed(m, dst, data[..done]), dst + done, data[done..done + n])
        == Programmed(m, dst, data[..done + n]);
  }

  lemma BumpNext(c: seq<nat>, lo: nat, mid: nat, hi: nat)
    requires lo <= mid <= hi
    ensures Bump(Bump(c, lo, mid), mid, hi) == Bump(c, lo, hi)
  {
    assert Bump(Bump(c, lo, mid), mid, hi) == Bump(c, lo, hi);
  }
}
