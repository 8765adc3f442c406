/** boot/main.c: programming a firmware image block by block, checking the
    application, and loading an update file from the card. */
module Bootloader {
  import opened Words
  import Crc32
  import opened FatVolume
  import opened FatFs
  import opened Flash
  import opened FirmwareImage

  const BLOCK: nat := 64

  datatype Status = OK | ErrTarget | ErrErase | ErrAddress | ErrWrite

  // ---------- Flash while an image is loaded ----------

  /** Flash after the bytes d were programmed from APP_START on and the
      application sectors before sector next were erased first. */
  function Loaded(m: Memory, d: seq<byte>, next: nat): (r: Memory)
    ensures forall i :: 0 <= i < FLASH_SIZE ==>
              r[i] == if APP_START <= i < APP_START + |d| then d[i - APP_START]
                      else if 4 <= SectorOf(i) < next then 0xFF else m[i]
  {
    seq(FLASH_SIZE, i requires 0 <= i < FLASH_SIZE =>
      if APP_START <= i < APP_START + |d| then d[i - APP_START]
      else if 4 <= SectorOf(i) < next then 0xFF else m[i])
  }

  /** The whole pages of d. */
  function FullPages(d: seq<byte>): seq<byte> {
    d[..|d| / PAGE * PAGE]
  }

  /** Address of the page that holds byte n of the data. */
  function PageAddress(n: nat): nat {
    APP_START + n / PAGE * PAGE
  }

  /** The sector after the last one d has touched. */
  function NextSectorFor(d: seq<byte>): nat {
    if d == [] then 4 else SectorOf(PageAddress(|d| - 1)) + 1
  }

  /** What app_ok computes on the given flash. Vector 8 is read as a signed
      number; beyond is what follows the last flash byte. */
  predicate AppValid(m: Memory, beyond: seq<byte>)
    requires |beyond| == 4
  {
    var len := I32(Le32(m, APP_START + LENGTH_VECTOR));
    1024 <= len <= FLASH_SIZE - APP_START
    && Le32(m + beyond, APP_START + len) == Crc32.Crc(0, m[APP_START..APP_START + len])
  }

  /** A freshly loaded image starts: whatever was in flash before, the
      application check succeeds exactly when the padded program has at least
      1024 bytes. */
  lemma LoadedImageStarts(m: Memory, beyond: seq<byte>, payload: seq<byte>, prog: seq<byte>)
    requires |beyond| == 4 && IsPayload(payload, prog) && APP_START + |payload| <= FLASH_SIZE
    ensures AppValid(Loaded(m, FullPages(payload), NextSectorFor(payload)), beyond) <==> PaddedLength(|prog|) >= 1024
  {
    hide Crc32.Crc, Loaded, Le32, SectorOf;
    var len := PaddedLength(|prog|);
    var r := Loaded(m, FullPages(payload), NextSectorFor(payload));
    LoadedWhole(m, payload, NextSectorFor(payload));
    Le32OfRange(r, payload, APP_START, LENGTH_VECTOR);
    Le32OfRange(r + beyond, payload, APP_START, len);
    assert r[APP_START..APP_START + len] == r[APP_START..APP_START + |payload|][..len];
  }

  /** Flash with what follows it, and the same with the byte at address j changed. */
  ghost predicate Damaged(m: Memory, beyond: seq<byte>, m': Memory, beyond': seq<byte>, j: nat)
    requires |beyond| == |beyond'| == 4
  {
    var a, b := m + beyond, m' + beyond';
    j < |a| && a[j] != b[j] && forall i :: 0 <= i < |a| && i != j ==> a[i] == b[i]
  }

  /** A damaged application is refused: from a flash that the check accepts, changing
      any one byte of the program but its length, or of the CRC behind it, makes a
      flash that it refuses. */
  lemma DamageRefused(m: Memory, beyond: seq<byte>, m': Memory, beyond': seq<byte>, j: nat)
    requires |beyond| == |beyond'| == 4 && AppValid(m, beyond) && Damaged(m, beyond, m', beyond', j)
    requires APP_START <= j < APP_START + I32(Le32(m, APP_START + LENGTH_VECTOR)) + 4
    requires !(LENGTH_VECTOR <= j - APP_START < LENGTH_VECTOR + 4)
    ensures !AppValid(m', beyond')
  {
    hide Crc32.Crc, Le32, I32;
    var a, b := m + beyond, m' + beyond';
    var vector := APP_START + LENGTH_VECTOR;
    Le32Apart(a, b, j, vector);
    Le32Apart(a, m, FLASH_SIZE, vector);
    Le32Apart(b, m', FLASH_SIZE, vector);
    var end := APP_START + I32(Le32(m, vector));
    Le32Apart(a, b, j, end);
    if j < end {
      OneByteApart(m[APP_START..end], m'[APP_START..end], j - APP_START);
    } else {
      assert m[APP_START..end] == m'[APP_START..end];
    }
  }

  /** Words of two sequences that agree everywhere but at j. */
  lemma Le32Apart(a: seq<byte>, b: seq<byte>, j: nat, i: nat)
    requires i + 4 <= |a| && i + 4 <= |b|
    requires forall k :: 0 <= k < |a| && k < |b| && k != j ==> a[k] == b[k]
    ensures i <= j < i + 4 && a[j] != b[j] ==> Le32(a, i) != Le32(b, i)
    ensures !(i <= j < i + 4) ==> Le32(a, i) == Le32(b, i)
  {
  }

  lemma OneByteApart(a: seq<byte>, b: seq<byte>, j: nat)
    requires j < |a| == |b| && a[j] != b[j] && forall k :: 0 <= k < |a| && k != j ==> a[k] == b[k]
    ensures Crc32.Crc(0, a) != Crc32.Crc(0, b)
  {
    hide Crc32.Crc;
    assert a == a[..j] + [a[j]] + a[j + 1..];
    assert b == a[..j] + [b[j]] + a[j + 1..];
    Crc32.CrcDetectsByte(0, a[..j], a[j], b[j], a[j + 1..]);
  }

  lemma LoadedWhole(m: Memory, payload: seq<byte>, next: nat)
    requires |payload| % PAGE == 0 && APP_START + |payload| <= FLASH_SIZE
    ensures FullPages(payload) == payload
    ensures Loaded(m, payload, next)[APP_START..APP_START + |payload|] == payload
    ensures forall beyond: seq<byte> {:trigger Loaded(m, payload, next) + beyond} ::
              (Loaded(m, payload, next) + beyond)[APP_START..APP_START + |payload|] == payload
  {
  }

  lemma LastSector(d: seq<byte>)
    requires d != [] && PageAddress(|d| - 1) < FLASH_SIZE
    ensures Base(NextSectorFor(d)) <= FLASH_SIZE
  {
  }

  lemma LastPage(d: seq<byte>)
    requires |d| % PAGE == 0 && |d| >= PAGE && PageAddress(|d| - 1) < FLASH_SIZE
    ensures PageAddress(|d| - 1) + PAGE == APP_START + |d| <= FLASH_SIZE
  {
  }

  lemma PagesTouched(n: nat, p: nat)
    requires n % PAGE == 0
    ensures APP_START / PAGE <= p < APP_START / PAGE + n / PAGE <==> APP_START <= p * PAGE < APP_START + n
  {
  }

  lemma SectorsTouched(d: seq<byte>, k: nat)
    requires |d| % PAGE == 0 && |d| >= PAGE && PageAddress(|d| - 1) < FLASH_SIZE
    ensures 4 <= k < NextSectorFor(d) <==> 4 <= k < 30 && Base(k) < APP_START + |d|
  {
    LastPage(d);
  }

  lemma Le32OfRange(m: seq<byte>, s: seq<byte>, at: nat, i: nat)
    requires at + |s| <= |m| && m[at..at + |s|] == s && i + 4 <= |s|
    ensures Le32(m, at + i) == Le32(s, i)
  {
    assert m[at + i] == m[at..at + |s|][i] && m[at + i + 1] == m[at..at + |s|][i + 1];
    assert m[at + i + 2] == m[at..at + |s|][i + 2] && m[at + i + 3] == m[at..at + |s|][i + 3];
  }

  // ---------- The steps of loading one more block ----------

  /** Starting a page: either its sector is the current one, or it is the first
      page of the next sector. */
  lemma PageSector(d: seq<byte>)
    requires |d| % BLOCK == 0 && PageAddress(|d|) < FLASH_SIZE
    ensures var p, k := PageAddress(|d|), SectorOf(PageAddress(|d|));
            && 4 <= k < 30 && Base(k) <= p && p + PAGE <= Base(k + 1)
            && (k == NextSectorFor(d) - 1 || (k == NextSectorFor(d) && p == Base(k) && |d| % PAGE == 0))
            && (d == [] ==> k == NextSectorFor(d))
            && (d != [] ==>
                  (k == NextSectorFor(d) - 1 <==>
                   Base(NextSectorFor(d) - 1) <= p && p + PAGE <= Base(NextSectorFor(d))))
  {
    PageInSector(PageAddress(|d|));
  }

  lemma PageInSector(p: nat)
    requires APP_START <= p < FLASH_SIZE && p % PAGE == 0
    ensures 4 <= SectorOf(p) < 30 && Base(SectorOf(p)) <= p && p + PAGE <= Base(SectorOf(p) + 1)
  {
  }

  lemma LoadedNone(m: Memory)
    ensures FullPages([]) == [] && Loaded(m, [], 4) == m
  {
  }

  /** Addresses of a page lie in one sector, and in the part of it not yet
      programmed. */
  lemma LoadPage(m: Memory, d: seq<byte>, page: seq<byte>, next: nat)
    requires |d| % PAGE == 0 && |page| == PAGE && APP_START + |d| + PAGE <= FLASH_SIZE
    requires SectorOf(APP_START + |d|) == next - 1
    ensures Programmed(Loaded(m, d, next), APP_START + |d|, page) == Loaded(m, d + page, next)
  {
    hide And, Programmed, Loaded;
    var p := APP_START + |d|;
    var a, b := Programmed(Loaded(m, d, next), p, page), Loaded(m, d + page, next);
    forall i | 0 <= i < FLASH_SIZE
      ensures a[i] == b[i]
    {
      if p <= i < p + PAGE {
        AndErased(page[i - p]);
        SamePage(p, i);
      }
    }
  }

  lemma SamePage(p: nat, i: nat)
    requires p % PAGE == 0 && p <= i < p + PAGE && APP_START <= p
    ensures SectorOf(i) == SectorOf(p) && 4 <= SectorOf(p)
  {
    var q, r := p / 4096, p % 4096;
    assert r + PAGE <= 4096;
    DivModUnique(i, 4096, q, r + (i - p));
    SectorOfBlock(p);
    SectorOfBlock(i);
  }

  lemma LoadSector(m: Memory, d: seq<byte>, next: nat)
    requires next >= 4 && APP_START + |d| <= Base(next)
    ensures Erased(Loaded(m, d, next), next, next + 1) == Loaded(m, d, next + 1)
  {
    hide Erased, Loaded;
    var a, b := Erased(Loaded(m, d, next), next, next + 1), Loaded(m, d, next + 1);
    forall i | 0 <= i < FLASH_SIZE
      ensures a[i] == b[i]
    {
      SectorOfAddress(i, next);
    }
  }

  /** Flash, its counters, and the page being collected. */
  datatype Progress = Progress(mem: Memory, erases: seq<nat>, writes: seq<nat>, page: seq<byte>)

  /** Where loading stands when d was fed and the sectors before next erased:
      each of those erased once, each whole page programmed once. */
  function ProgressFor(start: Progress, d: seq<byte>, next: nat): Progress {
    Progress(Loaded(start.mem, FullPages(d), next),
             Bump(start.erases, 4, next),
             Bump(start.writes, APP_START / PAGE, APP_START / PAGE + |d| / PAGE),
             d[|d| / PAGE * PAGE..])
  }

  lemma ProgressNone(start: Progress)
    requires start.page == []
    ensures NextSectorFor([]) == 4 && ProgressFor(start, [], 4) == start
  {
    LoadedNone(start.mem);
    BumpNone(start.erases, 4);
    BumpNone(start.writes, APP_START / PAGE);
  }

  lemma EraseStep(start: Progress, d: seq<byte>, next: nat)
    requires next >= 4 && APP_START + |d| / PAGE * PAGE <= Base(next)
    ensures var p := ProgressFor(start, d, next);
            ProgressFor(start, d, next + 1)
            == p.(mem := Erased(p.mem, next, next + 1), erases := Bump(p.erases, next, next + 1))
  {
    hide Loaded, Erased, Bump, Base;
    LoadSector(start.mem, FullPages(d), next);
    BumpNext(start.erases, 4, next, next + 1);
  }

  /** A block that does not complete its page. */
  lemma BlockStep(start: Progress, d: seq<byte>, block: seq<byte>, next: nat)
    requires |d| % BLOCK == 0 && |block| == BLOCK && |d| / BLOCK % 4 != 3
    ensures var p := ProgressFor(start, d, next);
            ProgressFor(start, d + block, next) == p.(page := p.page + block)
  {
    hide Loaded, Bump;
    PageNotFull(|d|);
    var n := |d| / PAGE * PAGE;
    assert (d + block)[..n] == d[..n];
    assert (d + block)[n..] == d[n..] + block;
  }

  lemma PageNotFull(n: nat)
    requires n % BLOCK == 0 && n / BLOCK % 4 != 3
    ensures (n + BLOCK) / PAGE == n / PAGE && n / PAGE * PAGE <= n
  {
    DivModUnique(n + BLOCK, PAGE, n / PAGE, n % PAGE + BLOCK);
  }

  /** A block that completes its page. */
  lemma PageStep(start: Progress, d: seq<byte>, block: seq<byte>)
    requires |d| % BLOCK == 0 && |block| == BLOCK && |d| / BLOCK % 4 == 3
    requires PageAddress(|d|) < FLASH_SIZE
    ensures var base := PageAddress(|d|);
            var p := ProgressFor(start, d, SectorOf(base) + 1);
            && |p.page| + BLOCK == PAGE && base + PAGE <= FLASH_SIZE
            && ProgressFor(start, d + block, SectorOf(base) + 1)
               == Progress(Programmed(p.mem, base, p.page + block), p.erases,
                           Bump(p.writes, base / PAGE, (base + PAGE) / PAGE), [])
  {
    hide Loaded, Bump, Programmed, SectorOf;
    var n := |d| / PAGE * PAGE;
    PlaceInPage(|d|);
    var q := |d| / PAGE;
    assert |d| == q * PAGE + 192 && |d + block| == (q + 1) * PAGE;
    DivModUnique(|d + block|, PAGE, q + 1, 0);
    FullPagesSplit(d, block, n);
    LoadPage(start.mem, d[..n], d[n..] + block, SectorOf(PageAddress(|d|)) + 1);
    BumpNext(start.writes, APP_START / PAGE, APP_START / PAGE + q, APP_START / PAGE + q + 1);
  }

  lemma FullPagesSplit(d: seq<byte>, block: seq<byte>, n: nat)
    requires n <= |d|
    ensures d + block == d[..n] + (d[n..] + block)
    ensures (d + block)[..|d + block|] == d + block && (d + block)[|d + block|..] == []
  {
  }

  /** One more block: joined to the page, and programmed with it when complete. */
  function Stored(p: Progress, block: seq<byte>, base: nat): Progress {
    if |p.page + block| == PAGE && base + PAGE <= FLASH_SIZE
    then Progress(Programmed(p.mem, base, p.page + block), p.erases,
                  Bump(p.writes, base / PAGE, (base + PAGE) / PAGE), [])
    else p.(page := p.page + block)
  }

  lemma StoreSteps(start: Progress, d: seq<byte>, block: seq<byte>, base: nat, next: nat)
    requires |d| % BLOCK == 0 && |block| == BLOCK
    requires base == |d| / BLOCK / 4 * PAGE + APP_START < FLASH_SIZE && next == SectorOf(base) + 1
    ensures base == PageAddress(|d|)
    ensures ProgressFor(start, d + block, next) == Stored(ProgressFor(start, d, next), block, base)
  {
    hide Programmed, Bump, Loaded, SectorOf;
    PageOfData(|d|);
    PlaceInPage(|d|);
    if |d| / BLOCK % 4 == 3 {
      PageStep(start, d, block);
    } else {
      BlockStep(start, d, block, next);
    }
  }

  /** The sector after a block is the one its page is in. */
  lemma NextSectorAfter(d: seq<byte>, block: seq<byte>)
    requires |d| % BLOCK == 0 && |block| == BLOCK
    ensures PageAddress(|d + block| - 1) == PageAddress(|d|)
    ensures NextSectorFor(d + block) == SectorOf(PageAddress(|d|)) + 1
  {
    assert (|d| + BLOCK - 1) / PAGE == |d| / PAGE;
  }

  /** What loading needs to know of an image. */
  predicate Loadable(image: seq<byte>) {
    |image| % BLOCK == 0 && BLOCK <= |image| && image[..6] == Ascii("j4cDAC") && Le32(image, 52) == MAGIC
  }

  /** What follows the header block. */
  function Data(image: seq<byte>): seq<byte> {
    if |image| <= HEADER then [] else image[HEADER..]
  }

  /** Every page the data of the image begins lies in flash. */
  predicate Fits(image: seq<byte>) {
    |image| <= HEADER || PageAddress(|image| - HEADER - 1) < FLASH_SIZE
  }

  /** A packed image fits when its data ends inside flash. */
  lemma FitsWhole(image: seq<byte>)
    requires |image| % PAGE == HEADER
    ensures Fits(image) <==> APP_START + |image| - HEADER <= FLASH_SIZE
  {
  }

  /** Flash once the sector of base is ready: erased unless it is the one erased last. */
  function Selected(m: Memory, remembered: bool, base: nat): Memory {
    if remembered then m else Erased(m, SectorOf(base), SectorOf(base) + 1)
  }

  /** Flash after a block: programmed with its page if the block completes it. */
  function WithBlock(m: Memory, base: nat, page: seq<byte>): Memory {
    if |page| == PAGE then Programmed(m, base, page) else m
  }

  class Loader {
    const device: Device
    const crcTable: Crc32.CrcTable
    const dataBuffer: array<byte>
    const writeBuffer: array<byte>
    var currentBlock: nat
    var sectorBase: nat
    var sectorLen: nat
    var appCrc: nat
    ghost const start: Progress // flash, erase and write counts at reset
    ghost var fed: seq<byte>    // the data blocks handled in order since

    constructor (device: Device)
      requires device.Valid() && device.faults == []
      ensures Valid() && Loading() && fed == [] && appCrc == 0
      ensures this.device == device && start == Progress(device.mem, device.erases, device.writes, [])
      ensures fresh(dataBuffer) && fresh(writeBuffer) && fresh(crcTable) && fresh(crcTable.table)
    {
      hide ProgressFor, SectorOf, Base, PageAddress, NextSectorFor, Crc32.IsTable;
      this.device := device;
      var t := new Crc32.CrcTable();
      crcTable := t;
      dataBuffer := new byte[64];
      writeBuffer := new byte[256];
      currentBlock, sectorBase, sectorLen, appCrc := 0, 0, 0, 0;
      start := Progress(device.mem, device.erases, device.writes, []);
      fed := [];
      new;
      ProgressNone(start);
      assert writeBuffer[..0] == [];
    }

    ghost predicate Valid()
      reads device, crcTable, crcTable.table
    {
      && dataBuffer.Length == BLOCK && writeBuffer.Length == PAGE && dataBuffer != writeBuffer
      && device.Valid() && crcTable.Valid()
    }

    /** The blocks in fed have been handled in order since reset, with the
        sectors before next erased, and no flash command has failed. */
    ghost predicate At(next: nat)
      requires Valid()
      reads this`fed, device, crcTable, crcTable.table, writeBuffer
    {
      && device.faults == [] && |fed| % BLOCK == 0
      && Progress(device.mem, device.erases, device.writes, writeBuffer[..|fed| % PAGE])
         == ProgressFor(start, fed, next)
    }

    /** sector_base and sector_len describe sector k. */
    ghost predicate Current(k: nat)
      reads this`sectorBase, this`sectorLen
    {
      sectorBase == Base(k) && sectorBase + sectorLen == Base(k + 1)
    }

    /** The page at base lies in the sector that sector_base and sector_len name. */
    predicate Remembered(base: nat)
      reads this`sectorBase, this`sectorLen
    {
      sectorBase <= base && base + PAGE <= sectorBase + sectorLen
    }

    ghost predicate Loading()
      requires Valid()
      reads this`fed, this`sectorBase, this`sectorLen, device, crcTable, crcTable.table, writeBuffer
    {
      && At(NextSectorFor(fed))
      && (fed == [] ==> sectorBase == sectorLen == 0)
      && (fed != [] ==> PageAddress(|fed| - 1) < FLASH_SIZE && Current(NextSectorFor(fed) - 1))
    }

    method HandleDataBlock() returns (s: Status)
      requires Valid()
      modifies this`sectorBase, this`sectorLen, this`fed, device, writeBuffer
      ensures Valid() && device.mem[..APP_START] == old(device.mem[..APP_START])
      ensures currentBlock == 0 ==> s == (if dataBuffer[..6] == Ascii("j4cDAC") then OK else ErrTarget)
      ensures currentBlock == 0 ==> device.mem == old(device.mem)
      ensures currentBlock == 0 && old(Loading()) ==> Loading() && fed == old(fed)
      ensures old(Loading()) && currentBlock == |old(fed)| / BLOCK + 1 ==>
                if PageAddress(|old(fed)|) < FLASH_SIZE
                then s == OK && Loading() && fed == old(fed) + dataBuffer[..]
                else s == ErrAddress && device.mem == old(device.mem)
      ensures currentBlock > 0 ==>
                var block, base := currentBlock - 1, (currentBlock - 1) / 4 * PAGE + APP_START;
                var ready := Selected(old(device.mem), old(Remembered(base)), base);
                && s != ErrTarget && (old(device.faults) == [] && base < FLASH_SIZE ==> s == OK)
                && (base < FLASH_SIZE ==> s != ErrAddress && Remembered(base))
                && (s == OK ==>
                      device.mem == WithBlock(ready, base, old(writeBuffer[..BLOCK * (block % 4)]) + dataBuffer[..]))
                && (s == ErrWrite ==> device.mem == ready)
                && (s == ErrErase || s == ErrAddress ==> device.mem == old(device.mem))
    {
      hide At, NextSectorFor, ProgressFor, SectorOf, Base, Current, Selected, WithBlock, Remembered, AndNot;
      if currentBlock == 0 {
        if dataBuffer[..6] != Ascii("j4cDAC") {
          return ErrTarget;
        }
        return OK;
      }
      var block := currentBlock - 1;
      PageOfBlock(block);
      var base := AndNot(block, 3) * 64 + APP_START;
      if Loading() { LoadingAligned(); }
      s := SelectSector(base);
      if s != OK { return; }
      s := StoreBlock(block, base);
    }

    /** The update as a whole. Once every block of an image's data was handled in
        order from reset, flash holds the padded program and its CRC, each sector
        they touch was erased once and no other was, each of their pages was
        programmed once and no other was, and the application check succeeds when
        the padded program has the 1024 bytes it asks for. */
    lemma UpdateComplete(prog: seq<byte>, beyond: seq<byte>)
      requires Valid() && Loading() && IsPayload(fed, prog) && |beyond| == 4
      ensures APP_START + |fed| <= FLASH_SIZE && device.mem[APP_START..APP_START + |fed|] == fed
      ensures AppValid(device.mem, beyond) <==> PaddedLength(|prog|) >= 1024
      ensures |device.erases| == |start.erases| && forall k :: 0 <= k < |start.erases| ==>
                device.erases[k] == start.erases[k] + if 4 <= k < 30 && Base(k) < APP_START + |fed| then 1 else 0
      ensures |device.writes| == |start.writes| && forall p :: 0 <= p < |start.writes| ==>
                device.writes[p] == start.writes[p] + if APP_START <= p * PAGE < APP_START + |fed| then 1 else 0
    {
      hide AppValid, Base, NextSectorFor, SectorOf, Loaded, IsPayload, PageAddress, Current;
      PayloadPages(fed, prog);
      assert fed != [];
      LastPage(fed);
      LoadedWhole(start.mem, fed, NextSectorFor(fed));
      LoadedImageStarts(start.mem, beyond, fed, prog);
      forall k | 0 <= k < |start.erases|
        ensures 4 <= k < NextSectorFor(fed) <==> 4 <= k < 30 && Base(k) < APP_START + |fed|
      {
        SectorsTouched(fed, k);
      }
      forall p | 0 <= p < |start.writes|
        ensures APP_START / PAGE <= p < APP_START / PAGE + |fed| / PAGE <==> APP_START <= p * PAGE < APP_START + |fed|
      {
        PagesTouched(|fed|, p);
      }
    }

    /** And from then on: whatever flash becomes by a change of one byte of the loaded
        program but its length, or of its CRC, the application check refuses it. */
    lemma UpdateGuarded(prog: seq<byte>, beyond: seq<byte>, m: Memory, beyond': seq<byte>, j: nat)
      requires Valid() && Loading() && IsPayload(fed, prog) && |beyond| == |beyond'| == 4
      requires PaddedLength(|prog|) >= 1024 && Damaged(device.mem, beyond, m, beyond', j)
      requires APP_START <= j < APP_START + PaddedLength(|prog|) + 4
      requires !(LENGTH_VECTOR <= j - APP_START < LENGTH_VECTOR + 4)
      ensures AppValid(device.mem, beyond) && !AppValid(m, beyond')
    {
      hide AppValid, Loading, Le32, I32;
      UpdateComplete(prog, beyond);
      PayloadPages(fed, prog);
      LengthOf(device.mem, fed, prog);
      DamageRefused(device.mem, beyond, m, beyond', j);
    }

    lemma LoadingAligned()
      requires Valid() && Loading()
      ensures |fed| % BLOCK == 0 && PageAddress(|fed|) == |fed| / BLOCK / 4 * PAGE + APP_START
    {
      PageOfData(|fed|);
    }

    /** Unless base is in the sector last erased, erase its sector. */
    method SelectSector(base: nat) returns (s: Status)
      requires Valid() && base % PAGE == 0 && base >= APP_START
      modifies this`sectorBase, this`sectorLen, device
      ensures Valid() && device.mem[..APP_START] == old(device.mem[..APP_START])
      ensures s == OK || s == ErrErase || s == ErrAddress
      ensures old(Loading()) && base == PageAddress(|fed|) ==>
                if base < FLASH_SIZE then s == OK && At(SectorOf(base) + 1) && Current(SectorOf(base))
                else s == ErrAddress && device.mem == old(device.mem)
      ensures old(device.faults) == [] && base < FLASH_SIZE ==> s == OK && device.faults == []
      ensures base < FLASH_SIZE ==> s != ErrAddress && Remembered(base)
      ensures s == OK ==> device.mem == Selected(old(device.mem), old(Remembered(base)), base)
      ensures s != OK ==> device.mem == old(device.mem)
    {
      hide ProgressFor, SectorOf, Base, Erased, Bump, NextSectorFor;
      if base == PageAddress(|fed|) < FLASH_SIZE && |fed| % BLOCK == 0 {
        PageSector(fed);
        if SectorOf(base) == NextSectorFor(fed) {
          EraseStep(start, fed, SectorOf(base));
        }
      }
      if fed != [] && PageAddress(|fed| - 1) < FLASH_SIZE { LastSector(fed); }
      s := OK;
      if base < sectorBase || base + 256 > sectorBase + sectorLen {
        s := EraseSector(base);
      }
    }

    method EraseSector(base: nat) returns (s: Status)
      requires Valid() && base % PAGE == 0 && base >= APP_START
      modifies this`sectorBase, this`sectorLen, device
      ensures Valid() && device.mem[..APP_START] == old(device.mem[..APP_START])
      ensures s == OK || s == ErrErase || s == ErrAddress
      ensures old(device.faults) == [] ==> device.faults == []
      ensures base >= FLASH_SIZE ==> s == ErrAddress && device.mem == old(device.mem)
      ensures base < FLASH_SIZE ==> s != ErrAddress && Current(SectorOf(base)) && Remembered(base)
      ensures old(device.faults) == [] && base < FLASH_SIZE ==> s == OK
      ensures s == OK ==>
                var k := SectorOf(base);
                && device.mem == Erased(old(device.mem), k, k + 1)
                && device.erases == Bump(old(device.erases), k, k + 1) && device.writes == old(device.writes)
      ensures s == ErrErase ==> device.mem == old(device.mem)
    {
      hide Bump, Erased, Base, SectorOf;
      AppSector(base);
      if base < FLASH_SIZE { PageInSector(base); }
      var sector;
      sector, sectorBase, sectorLen := FindSector(base);
      if sector <= 0 {
        return ErrAddress;
      }
      NextSector(sector - 1);
      SectorOfAddress(sectorBase + sectorLen - 1, sector);
      var code;
      ghost var next;
      ghost var was := device.mem;
      code, next := Erase(device, sectorBase, sectorLen);
      ErasedKeeps(was, sector, next);
      if code != IAP_CMD_SUCCESS {
        return ErrErase;
      }
      s := OK;
    }

    /** Collect the block, and program the page when it is complete. */
    method StoreBlock(block: nat, base: nat) returns (s: Status)
      requires Valid() && base == block / 4 * PAGE + APP_START
      modifies this`fed, device, writeBuffer
      ensures Valid() && device.mem[..APP_START] == old(device.mem[..APP_START])
      ensures old(At(SectorOf(base) + 1) && Current(SectorOf(base)))
              && block == |old(fed)| / BLOCK && base < FLASH_SIZE ==>
                s == OK && Loading() && fed == old(fed) + dataBuffer[..]
      ensures s == OK || s == ErrWrite
      ensures old(device.faults) == [] && base < FLASH_SIZE ==> s == OK
      ensures s == OK ==>
                device.mem == WithBlock(old(device.mem), base, old(writeBuffer[..BLOCK * (block % 4)]) + dataBuffer[..])
      ensures s != OK ==> device.mem == old(device.mem)
    {
      hide ProgressFor, SectorOf, Base, NextSectorFor, PageAddress, Stored, WithBlock, Crc32.IsTable;
      ghost var data, next := dataBuffer[..], SectorOf(base) + 1;
      ghost var loading := At(next) && Current(SectorOf(base)) && block == |fed| / BLOCK && base < FLASH_SIZE;
      if loading {
        PlaceInPage(|fed|);
        NextSectorAfter(fed, data);
        StoreSteps(start, fed, data, base, next);
      }
      s := CollectBlock(block, base);
      if s == OK { fed := fed + data; }
      if loading {
        assert At(next);
        hide At, Current;
        LoadingNow(next);
      }
    }

    /** Copy the block into its place in the page, and write a complete page. */
    method CollectBlock(block: nat, base: nat) returns (s: Status)
      requires Valid() && base == block / 4 * PAGE + APP_START
      modifies device, writeBuffer
      ensures Valid() && device.mem[..APP_START] == old(device.mem[..APP_START])
      ensures old(device.faults) == [] && base < FLASH_SIZE ==>
                && s == OK && device.faults == []
                && Progress(device.mem, device.erases, device.writes,
                            writeBuffer[..if block % 4 == 3 then 0 else BLOCK * (block % 4) + BLOCK])
                   == Stored(Progress(old(device.mem), old(device.erases), old(device.writes),
                                      old(writeBuffer[..BLOCK * (block % 4)])), dataBuffer[..], base)
      ensures s == OK || s == ErrWrite
      ensures s == OK ==>
                device.mem == WithBlock(old(device.mem), base, old(writeBuffer[..BLOCK * (block % 4)]) + dataBuffer[..])
      ensures s != OK ==> device.mem == old(device.mem)
    {
      hide Loaded, Programmed, Bump, Crc32.IsTable;
      CopyBlock(BLOCK * (block % 4));
      if block % 4 != 3 {
        return OK;
      }
      assert writeBuffer[..PAGE] == writeBuffer[..];
      s := ProgramPage(base);
    }

    lemma LoadingNow(next: nat)
      requires Valid() && fed != [] && NextSectorFor(fed) == next && At(next) && Current(next - 1)
      requires PageAddress(|fed| - 1) < FLASH_SIZE
      ensures Loading()
    {
      hide At, Current, NextSectorFor, PageAddress;
    }

    method CopyBlock(at: nat)
      requires dataBuffer.Length == BLOCK && dataBuffer != writeBuffer && at + BLOCK <= writeBuffer.Length
      modifies writeBuffer
      ensures writeBuffer[..at + BLOCK] == old(writeBuffer[..at]) + dataBuffer[..]
    {
      forall i | 0 <= i < BLOCK {
        writeBuffer[at + i] := dataBuffer[i];
      }
    }

    /** Write the collected page; outside flash nothing is written. */
    method ProgramPage(base: nat) returns (s: Status)
      requires Valid() && base % PAGE == 0 && base >= APP_START
      modifies device
      ensures Valid() && device.mem[..APP_START] == old(device.mem[..APP_START])
      ensures s == OK || s == ErrWrite
      ensures old(device.faults) == [] && base < FLASH_SIZE ==> s == OK && device.faults == []
      ensures s == OK ==>
                && device.mem == Programmed(old(device.mem), base, writeBuffer[..])
                && device.erases == old(device.erases)
                && device.writes == Bump(old(device.writes), base / PAGE, (base + PAGE) / PAGE)
      ensures s != OK ==> device.mem == old(device.mem)
    {
      hide Bump, Programmed;
      ghost var m := device.mem;
      var code;
      ghost var done;
      code, done := Write(device, base, writeBuffer[..]);
      ProgrammedKeeps(m, base, writeBuffer[..][..done]);
      if code != IAP_CMD_SUCCESS {
        return ErrWrite;
      }
      assert writeBuffer[..][..done] == writeBuffer[..];
      s := OK;
    }

    /** app_ok: the length in vector 8 and the CRC after the program. */
    method AppOk(beyond: seq<byte>) returns (ok: bool)
      requires Valid() && |beyond| == 4
      modifies this`appCrc, crcTable.table
      ensures Valid() && ok == AppValid(device.mem, beyond)
      ensures var len := I32(Le32(device.mem, APP_START + LENGTH_VECTOR));
              ok ==> appCrc == Crc32.Crc(0, device.mem[APP_START..APP_START + len])
    {
      hide Crc32.Crc;
      var appLength := I32(Le32(device.mem, APP_START + LENGTH_VECTOR));
      if appLength < 1024 || appLength > FLASH_SIZE - APP_START {
        return false;
      }
      var expectedCrc := Le32(device.mem + beyond, APP_START + appLength);
      var crc := crcTable.Crc32(0, device.mem[APP_START..APP_START + appLength]);
      appCrc := crc;
      ok := crc == expectedCrc;
    }

    /** The whole blocks that can be read of the file, one by one, are the image. */
    ghost predicate Whole(file: File, image: seq<byte>)
      requires file.fs.vol.Valid()
    {
      && |image| <= file.fsize && |image| % BLOCK == 0
      && file.Readable(0, |image|) && file.Bytes(0, |image|) == image
      && (file.fsize < |image| + BLOCK || !file.Readable(|image|, |image| + BLOCK))
    }

    /** And the file stands between two of them, or at the end. */
    ghost predicate Holds(file: File, image: seq<byte>)
      requires file.Valid()
      reads file, file.fs, file.fs.win
    {
      && file.canRead && !file.error && file.fptr <= |image| && file.fptr % BLOCK == 0
      && Whole(file, image)
    }

    /** What is left behind the image can be read and is no whole block. */
    ghost predicate Short(file: File, image: seq<byte>)
      requires file.fs.vol.Valid()
    {
      |image| < file.fsize < |image| + BLOCK && file.Readable(|image|, file.fsize)
    }

    /** The blocks of the image before the file position have been handled. */
    ghost predicate Feeding(pos: nat, image: seq<byte>)
      requires Valid()
      reads this, device, crcTable, crcTable.table, writeBuffer
    {
      && Loadable(image) && pos == BLOCK * currentBlock <= |image| && Loading()
      && fed == if currentBlock == 0 then [] else image[BLOCK..pos]
    }

    /** From reset, at the beginning of a file. */
    ghost predicate Fresh(file: File, image: seq<byte>)
      requires Valid() && file.Valid()
      reads this`fed, this`sectorBase, this`sectorLen, device, crcTable, crcTable.table, writeBuffer
      reads file, file.fs, file.fs.win
    {
      Holds(file, image) && file.fptr == 0 && Loading() && fed == []
    }

    /** f_read of one block; its result code is ignored. */
    method ReadBlock(file: File, ghost image: seq<byte>) returns (read: nat)
      requires file.Valid() && dataBuffer != file.fs.win && dataBuffer.Length == BLOCK
      modifies file`fptr, file`currClust, file`dsect, file`error, file.fs, file.fs.win, dataBuffer
      ensures read == BLOCK ==> file.Valid() && file.fptr == old(file.fptr) + BLOCK
      ensures old(Holds(file, image)) ==>
                if old(file.fptr) == |image| then if Short(file, image) then 0 < read < BLOCK else read == 0
                else read == BLOCK && Holds(file, image) && file.fptr <= |image|
                     && dataBuffer[..] == image[old(file.fptr)..old(file.fptr) + BLOCK]
    {
      hide RangeReadable, FileBytes, CursorOk, Outside, IsPowerOfTwo, FileSystem.Valid, Short, Whole;
      VolumeOk(file);
      VolumeBounds(file.fs.vol);
      if Holds(file, image) { BlockThere(file, image, file.fptr); }
      var res;
      res, read := file.Read(dataBuffer, 0, 64);
      if read == BLOCK {
        assert dataBuffer[..][0..0 + BLOCK] == dataBuffer[..];
      }
    }

    lemma VolumeOk(file: File)
      requires file.Valid()
      ensures file.fs.vol.Valid()
    {
    }

    /** What a read of a block at byte from can get: a block of the image, or at its end
        what is left, if that can be read, and otherwise nothing. */
    lemma BlockThere(file: File, image: seq<byte>, from: nat)
      requires file.fs.vol.Valid() && file.fs.vol.csize > 0 && Whole(file, image)
      requires from % BLOCK == 0 && from <= |image|
      ensures BLOCK <= SS - from % SS
      ensures from < |image| ==>
                && from + BLOCK <= |image| <= file.fsize && (from + BLOCK) % BLOCK == 0
                && file.Readable(from, from + BLOCK) && file.Bytes(from, from + BLOCK) == image[from..from + BLOCK]
      ensures from == |image| ==>
                var rest := file.fsize - from;
                && rest >= 0 && (Short(file, image) <==> 0 < rest < BLOCK && file.Readable(from, file.fsize))
                && (rest >= BLOCK ==> !file.Readable(from, from + BLOCK))
                && (rest == 0 ==> file.Readable(from, from))
    {
      BlockInSector(from, |image|);
      RangeEmpty(file.fs.vol, file.orgClust, from);
      if from < |image| {
        RangeSlice(file.fs.vol, file.orgClust, |image|, from, from + BLOCK);
      }
    }

    /** The loop of attempt_file_bootload, once the update file is open. Whatever
        the card holds, the bootloader itself is untouched. From reset, a file is
        loaded exactly when its first block has the name and the magic number, it is
        not the application already present, it fits, and it has no part of a block
        at its end. A file that stops being readable counts as ending there: the
        result then says success although only that much was loaded, or nothing. */
    method AttemptFileBootload(file: File, ok: bool, ghost image: seq<byte>) returns (result: int)
      requires Valid() && file.Valid() && dataBuffer != file.fs.win && writeBuffer != file.fs.win
      modifies this`currentBlock, this`sectorBase, this`sectorLen, this`fed, device, dataBuffer, writeBuffer
      modifies file, file.fs, file.fs.win
      ensures Valid() && device.mem[..APP_START] == old(device.mem[..APP_START])
      ensures old(Fresh(file, image)) ==>
                && (result == 0 <==> Succeeds(file, image, ok))
                && (result == 0 ==> Loading() && fed == Data(image))
                && (image == [] || !Starts(image, ok) ==> device.mem == old(device.mem))
    {
      hide Loading, Holds, Short, Starts, Feeding, CursorOk, Succeeds;
      ghost var fresh' := Fresh(file, image);
      ghost var untouched := fresh' && (image == [] || !Starts(image, ok));
      currentBlock := 0;
      result := 0;
      var done := false;
      while !done
        invariant Valid() && device.mem[..APP_START] == old(device.mem[..APP_START])
        invariant !done ==> file.Valid()
        invariant fresh' && !done ==> Midway(file, image, ok)
        invariant fresh' && done ==> (result == 0 <==> Succeeds(file, image, ok))
        invariant fresh' && done && result == 0 ==> Loading() && fed == Data(image)
        invariant untouched ==> device.mem == old(device.mem)
        decreases !done, if done then 0 else file.fsize - file.fptr
      {
        done, result := LoadBlock(file, ok, image);
      }
    }

    /** The first block is that of an image to be loaded: the name, the magic number,
        and not the CRC of the application already present. */
    predicate Starts(image: seq<byte>, ok: bool)
      reads this`appCrc
    {
      Loadable(image) && !(ok && Le32(image, 56) == appCrc)
    }

    ghost predicate Succeeds(file: File, image: seq<byte>, ok: bool)
      requires file.fs.vol.Valid()
      reads this`appCrc
    {
      !Short(file, image) && (image == [] || (Starts(image, ok) && Fits(image)))
    }

    /** Between two blocks of a file that is being loaded. */
    ghost predicate Midway(file: File, image: seq<byte>, ok: bool)
      requires Valid() && file.Valid()
      reads this, device, crcTable, crcTable.table, writeBuffer, file, file.fs, file.fs.win
    {
      && Holds(file, image) && Loading()
      && if currentBlock == 0 then file.fptr == 0 && fed == [] else Starts(image, ok) && Feeding(file.fptr, image)
    }

    /** One turn of that loop. */
    method LoadBlock(file: File, ok: bool, ghost image: seq<byte>) returns (done: bool, result: int)
      requires Valid() && file.Valid() && dataBuffer != file.fs.win && writeBuffer != file.fs.win
      modifies this`currentBlock, this`sectorBase, this`sectorLen, this`fed, device, dataBuffer, writeBuffer
      modifies file, file.fs, file.fs.win
      ensures Valid() && device.mem[..APP_START] == old(device.mem[..APP_START])
      ensures !done ==> file.Valid() && file.fptr == old(file.fptr) + BLOCK
      ensures old(Midway(file, image, ok)) ==>
                if done then (result == 0 <==> Succeeds(file, image, ok))
                             && (result == 0 ==> Loading() && fed == Data(image))
                else Midway(file, image, ok)
      ensures old(Midway(file, image, ok)) && (image == [] || !Starts(image, ok)) ==>
                done && device.mem == old(device.mem)
    {
      hide Loading, Holds, Short, Starts, PageAddress, CursorOk, Fits, Loadable;
      ghost var pos, midway := file.fptr, Midway(file, image, ok);
      if midway { MidwayFacts(file, image, ok); }
      done, result := true, 0;
      var read := ReadBlock(file, image);
      if read == 0 { return; }
      if read != 64 { return true, -1; }
      done := FeedBlock(ok, image, pos);
      if done { result := -1; }
    }

    /** At the end of the image all of it has been fed and fits. */
    lemma MidwayFacts(file: File, image: seq<byte>, ok: bool)
      requires Valid() && file.Valid() && Midway(file, image, ok)
      ensures |image| % BLOCK == 0 && file.fptr % BLOCK == 0 && file.fptr <= |image|
      ensures currentBlock == 0 ==> file.fptr == 0
      ensures currentBlock > 0 && file.fptr == |image| ==> fed == Data(image) && Fits(image)
      ensures currentBlock > 0 && file.fptr < |image| && PageAddress(|fed|) >= FLASH_SIZE ==> !Fits(image)
    {
      hide At, NextSectorFor, PageAddress, CursorOk, RangeReadable, FileBytes;
      if currentBlock > 0 { FedFits(image, fed, file.fptr); }
    }

    /** The data buffer holds the block at pos. */
    ghost predicate IsBlock(image: seq<byte>, pos: nat)
      reads dataBuffer
    {
      |image| % BLOCK == 0 && pos % BLOCK == 0 && pos < |image| && dataBuffer[..] == image[pos..pos + BLOCK]
    }

    /** What becomes of a block that was read: the checks of block 0, and its
        handling. Fails where the file is refused. */
    method FeedBlock(ok: bool, ghost image: seq<byte>, ghost pos: nat) returns (failed: bool)
      requires Valid()
      modifies this`currentBlock, this`sectorBase, this`sectorLen, this`fed, device, writeBuffer
      ensures Valid() && device.mem[..APP_START] == old(device.mem[..APP_START])
      ensures IsBlock(image, pos) ==>
                && (old(currentBlock) == 0 && pos == 0 && old(Loading()) && old(fed) == [] ==>
                      && device.mem == old(device.mem) && (failed <==> !Starts(image, ok))
                      && (!failed ==> currentBlock == 1 && Feeding(BLOCK, image)))
                && (old(currentBlock) > 0 && old(Feeding(pos, image)) ==>
                      && (failed <==> PageAddress(|old(fed)|) >= FLASH_SIZE)
                      && (!failed ==> currentBlock > 0 && Feeding(pos + BLOCK, image)))
    {
      hide Loading, Feeding, Starts, Loadable, FirstBlockOk, IsBlock, PageAddress, WithBlock, Selected, Remembered;
      ghost var first := IsBlock(image, pos) && currentBlock == 0 && pos == 0 && Loading() && fed == [];
      ghost var next := IsBlock(image, pos) && currentBlock > 0 && Feeding(pos, image);
      if first { FirstFed(ok, image); }
      if next { FeedingPlace(pos, image); }
      if currentBlock == 0 && !FirstBlockOk(ok) { return true; }
      var s := HandleDataBlock();
      if s != OK { return true; }
      currentBlock := currentBlock + 1;
      if first || next { FeedingNext(pos, image); }
      failed := false;
    }

    lemma FirstFed(ok: bool, image: seq<byte>)
      requires IsBlock(image, 0) && dataBuffer.Length == BLOCK
      ensures Starts(image, ok) <==> FirstBlockOk(ok) && dataBuffer[..6] == Ascii("j4cDAC")
      ensures Starts(image, ok) ==> Loadable(image)
    {
      assert dataBuffer[..6] == dataBuffer[..][..6] == image[..6];
    }

    lemma FeedingPlace(pos: nat, image: seq<byte>)
      requires Valid() && currentBlock > 0 && Feeding(pos, image)
      ensures Loading() && Loadable(image) && pos == BLOCK * currentBlock <= |image|
      ensures fed == image[BLOCK..pos] && currentBlock == |fed| / BLOCK + 1
    {
      hide Loading, Loadable;
    }

    lemma FeedingNext(pos: nat, image: seq<byte>)
      requires Valid() && Loading() && Loadable(image) && IsBlock(image, pos)
      requires pos + BLOCK == BLOCK * currentBlock
      requires fed == if pos == 0 then [] else image[BLOCK..pos] + dataBuffer[..]
      ensures Feeding(pos + BLOCK, image)
    {
      hide Loading, Loadable;
    }

    /** Block 0 has the magic number, and a CRC that is not the application's. */
    function FirstBlockOk(ok: bool): bool
      requires dataBuffer.Length == BLOCK
      reads this`appCrc, dataBuffer
    {
      Le32(dataBuffer[..], 52) == MAGIC && !(ok && Le32(dataBuffer[..], 56) == appCrc)
    }
  }

  /** Data that was fed ends inside flash; and when the next page does not, the
      image does not fit. */
  lemma FedFits(image: seq<byte>, fed: seq<byte>, pos: nat)
    requires |image| % BLOCK == 0 && BLOCK <= |image| && pos % BLOCK == 0 && pos <= |image|
    requires fed == if pos == 0 then [] else image[BLOCK..pos]
    requires fed != [] ==> PageAddress(|fed| - 1) < FLASH_SIZE
    ensures pos == |image| ==> Fits(image)
    ensures BLOCK <= pos < |image| && PageAddress(|fed|) >= FLASH_SIZE ==> !Fits(image)
  {
  }

  lemma LengthOf(m: Memory, payload: seq<byte>, prog: seq<byte>)
    requires IsPayload(payload, prog) && APP_START + |payload| <= FLASH_SIZE
    requires m[APP_START..APP_START + |payload|] == payload
    ensures I32(Le32(m, APP_START + LENGTH_VECTOR)) == PaddedLength(|prog|)
  {
    hide Crc32.Crc, Le32;
    Le32OfRange(m, payload, APP_START, LENGTH_VECTOR);
  }

  /** Whether the card update skips a packed image, once the application was checked:
      exactly when that check succeeded with the CRC the image carries. */
  lemma ImageSkipped(image: seq<byte>, prog: seq<byte>, loader: Loader, ok: bool)
    requires IsImage(image, prog)
    ensures loader.Starts(image, ok)
       <==> !(ok && loader.appCrc == Crc32.Crc(0, image[HEADER..][..PaddedLength(|prog|)]))
  {
    hide Crc32.Crc, Le32;
    ImageLoadable(image, prog);
    Le32OfRange(image, image[..HEADER], 0, 56);
  }

  lemma PayloadPages(payload: seq<byte>, prog: seq<byte>)
    requires IsPayload(payload, prog)
    ensures |payload| % PAGE == 0 && |payload| >= PAGE
  {
    hide Crc32.Crc, Le32;
  }

  lemma ImageLoadable(image: seq<byte>, prog: seq<byte>)
    requires IsImage(image, prog)
    ensures Loadable(image)
    ensures Fits(image) <==> APP_START + |image| - HEADER <= FLASH_SIZE
  {
    hide Crc32.Crc, Le32, IsPayload, Fits;
    var header, payload := image[..HEADER], image[HEADER..];
    assert image[..6] == header[..6];
    PayloadPages(payload, prog);
    HeaderAndPages(|payload|);
    FitsWhole(image);
    Le32OfRange(image, header, 0, 52);
  }

  lemma HeaderAndPages(n: nat)
    requires n % PAGE == 0
    ensures (HEADER + n) % BLOCK == 0 && (HEADER + n) % PAGE == HEADER
  {
    var q := n / PAGE;
    assert n == q * PAGE;
    DivModUnique(HEADER + n, BLOCK, 4 * q + 1, 0);
    DivModUnique(HEADER + n, PAGE, q, HEADER);
  }

  lemma PlaceInPage(n: nat)
    requires n % BLOCK == 0
    ensures n % PAGE == BLOCK * (n / BLOCK % 4)
    ensures (n + BLOCK) % PAGE == if n / BLOCK % 4 == 3 then 0 else n % PAGE + BLOCK
  {
    var a, b := n / BLOCK / 4, n / BLOCK % 4;
    assert n == a * PAGE + b * BLOCK;
    DivModUnique(n, PAGE, a, b * BLOCK);
    if b == 3 {
      DivModUnique(n + BLOCK, PAGE, a + 1, 0);
    } else {
      DivModUnique(n + BLOCK, PAGE, a, b * BLOCK + BLOCK);
    }
  }

  lemma ProgrammedKeeps(m: Memory, dst: nat, data: seq<byte>)
    requires APP_START <= dst
    ensures Programmed(m, dst, data)[..APP_START] == m[..APP_START]
  {
  }

  lemma BlockInSector(n: nat, end: nat)
    requires n % BLOCK == 0 && end % BLOCK == 0
    ensures BLOCK <= SS - n % SS && (n < end ==> n + BLOCK <= end)
  {
    var m, k := n / BLOCK, end / BLOCK;
    assert n == BLOCK * m && end == BLOCK * k;
    if n < end { assert m < k; }
    var q, r := m / 8, m % 8;
    assert m == 8 * q + r && r <= 7;
    assert n == SS * q + BLOCK * r;
    DivModUnique(n, SS, q, BLOCK * r);
  }

  lemma PageOfBlock(block: nat)
    ensures AndNot(block, 3) * 64 == block / 4 * PAGE
    ensures (block / 4 * PAGE + APP_START) % PAGE == 0
  {
    AndMask(block, 4);
    assert block == block / 4 * 4 + block % 4;
  }

  lemma PageOfData(n: nat)
    requires n % BLOCK == 0
    ensures PageAddress(n) == n / BLOCK / 4 * PAGE + APP_START
  {
  }

  lemma AppSector(base: nat)
    requires base >= APP_START
    ensures SectorOf(base) >= 4
  {
  }

  lemma ErasedKeeps(m: Memory, lo: nat, hi: nat)
    requires lo >= 4
    ensures Erased(m, lo, hi)[..APP_START] == m[..APP_START]
  {
  }
}
