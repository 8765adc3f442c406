/** The boot-record arithmetic of chk_mounted in common/lib/ff.c: what the
    checks accept, and what they guarantee about the volume. */
module BootRecord {
  import opened Words
  import opened FatVolume

  const MIN_FAT16 := 4086
  const MIN_FAT32 := 65526

  /** The fields of the BIOS parameter block, with the 16-bit and 32-bit forms
      of a size already combined. */
  datatype Bpb = Bpb(
    bytesPerSector: nat, csize: byte, nRsvd: nat, nFats: byte, nRootdir: nat,
    fatSectors: word, totalSectors: word, rootCluster: word)
  {
    predicate Valid() {
      bytesPerSector < 0x1_0000 && nRsvd < 0x1_0000 && nRootdir < 0x1_0000
    }
  }

  function Fields(boot: Sector): (b: Bpb)
    ensures b.Valid()
  {
    Bpb(Le16(boot, 11), boot[13], Le16(boot, 14), boot[16], Le16(boot, 17),
        if Le16(boot, 22) != 0 then Le16(boot, 22) else Le32(boot, 36),
        if Le16(boot, 19) != 0 then Le16(boot, 19) else Le32(boot, 32),
        Le32(boot, 44))
  }

  /** A boot sector with the parameter block b written into it, both sizes in a 16-bit
      and a 32-bit form. */
  predicate IsBootSector(boot: Sector, b: Bpb, total16: nat, total32: word, fat16: nat, fat32: word) {
    && b.Valid() && total16 < 0x1_0000 && fat16 < 0x1_0000
    && boot[11..13] == Pack16(b.bytesPerSector) && boot[13] == b.csize && boot[14..16] == Pack16(b.nRsvd)
    && boot[16] == b.nFats && boot[17..19] == Pack16(b.nRootdir)
    && boot[19..21] == Pack16(total16) && boot[22..24] == Pack16(fat16)
    && boot[32..36] == Pack32(total32) && boot[36..40] == Pack32(fat32) && boot[44..48] == Pack32(b.rootCluster)
    && b.totalSectors == (if total16 != 0 then total16 else total32)
    && b.fatSectors == (if fat16 != 0 then fat16 else fat32)
  }

  /** Reading the parameter block gives back what was written into it; of each size
      the 16-bit form counts, unless it is 0. */
  lemma FieldsWritten(boot: Sector, b: Bpb, total16: nat, total32: word, fat16: nat, fat32: word)
    requires IsBootSector(boot, b, total16, total32, fat16, fat32)
    ensures Fields(boot) == b
  {
    hide Pack16, Pack32;
    Le32OfPack32(total32);
    Le32OfPack32(fat32);
    Le32OfPack32(b.rootCluster);
    Le16At(boot, 11);
    Le16At(boot, 14);
    Le16At(boot, 17);
    Le16At(boot, 19);
    Le16At(boot, 22);
    Le32At(boot, 32);
    Le32At(boot, 36);
    Le32At(boot, 44);
  }

  lemma Le16At(s: seq<byte>, i: nat)
    requires i + 2 <= |s|
    ensures Le16(s, i) == Le16(s[i..i + 2], 0)
  {
  }

  lemma Le32At(s: seq<byte>, i: nat)
    requires i + 4 <= |s|
    ensures Le32(s, i) == Le32(s[i..i + 4], 0)
  {
  }

  // ---------- What a boot record means, in unbounded arithmetic ----------

  function SystemSectors(b: Bpb): nat {
    b.nRsvd + b.nFats * b.fatSectors + b.nRootdir / 16
  }

  function Clusters(b: Bpb): nat
    requires b.csize > 0 && SystemSectors(b) <= b.totalSectors
  {
    WholeClusters(b.totalSectors - SystemSectors(b), b.csize)
  }

  function WholeClusters(sectors: nat, csize: nat): nat
    requires csize > 0
  {
    sectors / csize
  }

  function TypeFor(clusters: nat): FatType {
    if clusters >= MIN_FAT32 then Fat32 else if clusters >= MIN_FAT16 then Fat16 else Fat12
  }

  /** Bytes a table of n entries needs. */
  function TableBytes(t: FatType, n: nat): nat {
    match t
    case Fat12 => (12 * n + 7) / 8
    case Fat16 => 2 * n
    case Fat32 => 4 * n
  }

  /** A boot record that describes a volume. */
  predicate Describes(b: Bpb) {
    && b.bytesPerSector == SS && 1 <= b.nFats <= 2
    && b.csize > 0 && IsPowerOfTwo(b.csize)
    && b.nRootdir % 16 == 0 && b.nRsvd > 0
    && SystemSectors(b) <= b.totalSectors && Clusters(b) > 0
    && (TypeFor(Clusters(b)) == Fat32 <==> b.nRootdir == 0)
    && TableBytes(TypeFor(Clusters(b)), Clusters(b) + 2) <= SS * b.fatSectors
  }

  /** Why the limits are where they are: a volume gets the smallest entries in which
      the numbers of all its clusters stay below the mark of a bad cluster, 0xFF7 or
      0xFFF7. */
  lemma TypeExact(clusters: nat)
    ensures TypeFor(clusters) == Fat12 <==> clusters + 1 < 0xFF7
    ensures TypeFor(clusters) == Fat16 <==> 0xFF7 <= clusters + 1 < 0xFFF7
  {
  }

  // ---------- The code ----------

  /** Fills in the volume from the boot record found at sector bsect. */
  method Mount(disk: Disk, boot: Sector, bsect: word) returns (r: Option<Volume>)
    ensures r == Described(disk, Fields(boot), bsect) <==> !WrapFails(Fields(boot), bsect)
    ensures r == Mounted(disk, Fields(boot), bsect)
  {
    hide U32, And, Fields, WholeClusters, Described, WrapFails;
    var b := Fields(boot);
    MountExact(disk, b, bsect);
    if b.bytesPerSector != SS { return None; }
    var fasize: word := b.fatSectors;
    if b.nFats != 1 && b.nFats != 2 { return None; }
    fasize := U32(fasize * b.nFats);
    if b.csize == 0 || And(b.csize, b.csize - 1) != 0 { return None; }
    if b.nRootdir % (SS / 32) != 0 { return None; }
    if b.nRsvd == 0 { return None; }
    var sysect := U32(b.nRsvd + fasize + b.nRootdir / (SS / 32));
    if b.totalSectors < sysect { return None; }
    var nclst := WholeClusters(b.totalSectors - sysect, b.csize);
    if nclst == 0 { return None; }
    var fmt := Fat12;
    if nclst >= MIN_FAT16 { fmt := Fat16; }
    if nclst >= MIN_FAT32 { fmt := Fat32; }
    var nFatent := U32(nclst + 2);
    var database := U32(bsect + sysect);
    var fatbase := U32(bsect + b.nRsvd);
    var dirbase;
    var szbfat;
    if fmt == Fat32 {
      if b.nRootdir != 0 { return None; }
      dirbase := b.rootCluster;
      szbfat := U32(nFatent * 4);
    } else {
      if b.nRootdir == 0 { return None; }
      dirbase := U32(fatbase + fasize);
      szbfat := if fmt == Fat16 then U32(nFatent * 2) else U32(U32(nFatent * 3) / 2 + nFatent % 2);
    }
    if b.fatSectors < U32(szbfat + (SS - 1)) / SS { return None; }
    r := Some(Volume(disk, fmt, b.csize, nFatent, b.nRootdir, fatbase, b.fatSectors, dirbase, database));
  }

  /** The system sectors as the code sums them. */
  function SysectOf(b: Bpb): word {
    U32(b.nRsvd + U32(b.fatSectors * b.nFats) + b.nRootdir / 16)
  }

  /** The FAT bytes the code thinks n entries need. */
  function NeedOf(t: FatType, n: nat): word {
    match t
    case Fat32 => U32(4 * n)
    case Fat16 => U32(2 * n)
    case Fat12 => U32(U32(3 * n) / 2 + n % 2)
  }

  predicate HeaderOk(b: Bpb) {
    && b.bytesPerSector == SS && 1 <= b.nFats <= 2
    && b.csize > 0 && And(b.csize, b.csize - 1) == 0
    && b.nRootdir % 16 == 0 && b.nRsvd > 0
    && SysectOf(b) <= b.totalSectors
  }

  /** The volume the code mounts, every sum taken modulo 2^32. */
  function Mounted(disk: Disk, b: Bpb, bsect: word): Option<Volume> {
    if !HeaderOk(b) then None
    else
      var nclst := WholeClusters(b.totalSectors - SysectOf(b), b.csize);
      var fmt := TypeFor(nclst);
      var n := U32(nclst + 2);
      var fatbase := U32(bsect + b.nRsvd);
      if nclst == 0 || (fmt == Fat32) != (b.nRootdir == 0) || b.fatSectors < U32(NeedOf(fmt, n) + 511) / SS then None
      else
        Some(Volume(disk, fmt, b.csize, n, b.nRootdir, fatbase, b.fatSectors,
                    if fmt == Fat32 then b.rootCluster else U32(fatbase + U32(b.fatSectors * b.nFats)),
                    U32(bsect + SysectOf(b))))
  }

  // ---------- What mounting guarantees ----------

  /** The volume a boot record describes. */
  function VolumeOf(disk: Disk, b: Bpb, bsect: word): Volume
    requires Describes(b)
  {
    var fatbase := bsect + b.nRsvd;
    Volume(disk, TypeFor(Clusters(b)), b.csize, Clusters(b) + 2, b.nRootdir, fatbase, b.fatSectors,
           if b.nRootdir == 0 then b.rootCluster else fatbase + b.nFats * b.fatSectors,
           bsect + SystemSectors(b))
  }

  /** What mounting the boot record ought to give. */
  function Described(disk: Disk, b: Bpb, bsect: word): Option<Volume> {
    if Describes(b) then Some(VolumeOf(disk, b, bsect)) else None
  }

  // ---------- When 32-bit arithmetic goes wrong ----------

  /** The checks that involve no sum. */
  predicate ShapeOk(b: Bpb) {
    && b.bytesPerSector == SS && 1 <= b.nFats <= 2
    && b.csize > 0 && IsPowerOfTwo(b.csize)
    && b.nRootdir % 16 == 0 && b.nRsvd > 0
  }

  /** The system area has 2^32 sectors or more, and what is left of their number
      modulo 2^32 leaves room for clusters of the type the root directory asks for. */
  predicate SystemWraps(b: Bpb)
    requires ShapeOk(b)
  {
    var rest := SystemSectors(b) % TWO_TO_THE_32;
    && SystemSectors(b) >= TWO_TO_THE_32 && rest + b.csize <= b.totalSectors
    && (WholeClusters(b.totalSectors - rest, b.csize) >= MIN_FAT32 <==> b.nRootdir == 0)
  }

  /** Sectors of a 32-bit table for n entries, and what the code makes of them:
      the byte count loses what does not fit 32 bits. */
  function TableSectors(n: nat): nat {
    (4 * n + 511) / SS
  }

  const WRAPPED_SECTORS: nat := 0x80_0000

  /** The table is too short for its clusters, but not after wrapping. */
  predicate TableWraps(b: Bpb)
    requires ShapeOk(b)
  {
    && SystemSectors(b) <= b.totalSectors && b.nRootdir == 0 && Clusters(b) >= MIN_FAT32
    && TableSectors(Clusters(b) + 2) % WRAPPED_SECTORS <= b.fatSectors < TableSectors(Clusters(b) + 2)
  }

  /** The first data sector has no 32-bit number. */
  predicate AddressWraps(b: Bpb, bsect: word) {
    Describes(b) && bsect + SystemSectors(b) >= TWO_TO_THE_32
  }

  predicate WrapFails(b: Bpb, bsect: word) {
    ShapeOk(b) && (SystemWraps(b) || TableWraps(b) || AddressWraps(b, bsect))
  }

  /** For every boot record: the code accepts exactly the records that describe a
      volume, and mounts that volume, if and only if none of the three
      wrap-arounds happens. */
  lemma MountExact(disk: Disk, b: Bpb, bsect: word)
    requires b.Valid()
    ensures Mounted(disk, b, bsect) == Described(disk, b, bsect) <==> !WrapFails(b, bsect)
  {
    hide And, IsPowerOfTwo, WholeClusters, U32, NeedOf;
    if b.csize > 0 { PowerOfTwoTest(b.csize); }
    SysectExact(b);
    if ShapeOk(b) {
      if SystemSectors(b) >= TWO_TO_THE_32 {
        WrappedSystem(disk, b, bsect);
      } else if SystemSectors(b) <= b.totalSectors {
        PlainAccepted(disk, b, bsect);
        if Describes(b) { PlainVolume(disk, b, bsect); }
      }
    }
  }

  /** A system area of 2^32 sectors fits no volume; the code sees the rest. Its
      table is so long that the table check always passes. */
  lemma WrappedSystem(disk: Disk, b: Bpb, bsect: word)
    requires b.Valid() && ShapeOk(b) && And(b.csize, b.csize - 1) == 0 && SystemSectors(b) >= TWO_TO_THE_32
    ensures !Describes(b) && (Mounted(disk, b, bsect).Some? <==> SystemWraps(b))
  {
    hide And, IsPowerOfTwo, WholeClusters, U32, NeedOf;
    SysectExact(b);
    var rest := SystemSectors(b) % TWO_TO_THE_32;
    assert b.fatSectors >= WRAPPED_SECTORS;
    if rest <= b.totalSectors {
      ClustersExist(b.totalSectors - rest, b.csize);
      NeedExact(WholeClusters(b.totalSectors - rest, b.csize));
    }
  }

  lemma ClustersExist(sectors: nat, csize: nat)
    requires csize > 0
    ensures WholeClusters(sectors, csize) == 0 <==> sectors < csize
    ensures WholeClusters(sectors, csize) <= sectors
  {
    DivisionFits(sectors, csize);
    if sectors >= csize { QuotientAtLeast(sectors, 1, csize); }
  }

  /** A system area inside the volume: only the table check can go wrong. */
  lemma PlainAccepted(disk: Disk, b: Bpb, bsect: word)
    requires b.Valid() && ShapeOk(b) && And(b.csize, b.csize - 1) == 0 && SystemSectors(b) <= b.totalSectors
    ensures Mounted(disk, b, bsect).Some? <==> Describes(b) || TableWraps(b)
    ensures !(Describes(b) && TableWraps(b))
  {
    hide And, IsPowerOfTwo, WholeClusters, U32, NeedOf, TableSectors, TableBytes;
    SysectExact(b);
    var n := Clusters(b);
    ClustersExist(b.totalSectors - SystemSectors(b), b.csize);
    NeededSectors(n);
    TableFits(TypeFor(n), n + 2, b.fatSectors);
    TableFits32(n + 2, b.fatSectors);
  }

  lemma NeededSectors(nclst: nat)
    requires nclst < TWO_TO_THE_32
    ensures var t, n := TypeFor(nclst), nclst + 2;
            U32(NeedOf(t, U32(n)) + 511) / SS
            == if t == Fat32 then TableSectors(n) % WRAPPED_SECTORS else (TableBytes(t, n) + 511) / SS
  {
    hide U32, TableSectors, TableBytes, NeedOf;
    NeedExact(nclst);
    TableFits(TypeFor(nclst), nclst + 2, 0);
  }

  /** And of a described volume only the address of the data. */
  lemma PlainVolume(disk: Disk, b: Bpb, bsect: word)
    requires b.Valid() && Describes(b) && Mounted(disk, b, bsect).Some?
    ensures Mounted(disk, b, bsect) == Some(VolumeOf(disk, b, bsect)) <==> !AddressWraps(b, bsect)
  {
    hide And, IsPowerOfTwo, WholeClusters, U32, NeedOf, TableBytes;
    SysectExact(b);
    FatAreaFits(b);
    EntriesNumbered(b);
    U32Exact(bsect + b.nRsvd);
    U32Exact(bsect + SystemSectors(b));
    U32Exact(bsect + b.nRsvd + b.nFats * b.fatSectors);
    U32Exact(b.nFats * b.fatSectors);
  }

  lemma U32Exact(x: nat)
    ensures U32(x) == x <==> x < TWO_TO_THE_32
  {
  }

  lemma TableFits32(n: nat, fatSectors: nat)
    ensures TableBytes(Fat32, n) <= SS * fatSectors <==> fatSectors >= TableSectors(n)
    ensures TableSectors(n) % WRAPPED_SECTORS <= TableSectors(n)
  {
  }

  /** The clusters of a described volume can be numbered in 32 bits. */
  lemma EntriesNumbered(b: Bpb)
    requires Describes(b)
    ensures U32(Clusters(b) + 2) == Clusters(b) + 2
  {
    FatAreaFits(b);
    ClustersExist(b.totalSectors - SystemSectors(b), b.csize);
  }

  /** The nested sums lose nothing but multiples of 2^32. */
  lemma SysectExact(b: Bpb)
    ensures SysectOf(b) == SystemSectors(b) % TWO_TO_THE_32
    ensures b.fatSectors * b.nFats == b.nFats * b.fatSectors
  {
    var x := b.fatSectors * b.nFats;
    var y := b.nRsvd + x % TWO_TO_THE_32 + b.nRootdir / 16;
    assert x == x / TWO_TO_THE_32 * TWO_TO_THE_32 + x % TWO_TO_THE_32;
    assert y == y / TWO_TO_THE_32 * TWO_TO_THE_32 + y % TWO_TO_THE_32;
    DivModUnique(SystemSectors(b), TWO_TO_THE_32, x / TWO_TO_THE_32 + y / TWO_TO_THE_32, y % TWO_TO_THE_32);
  }

  /** The table check of the code, for any number of clusters. */
  lemma NeedExact(nclst: nat)
    requires nclst < TWO_TO_THE_32
    ensures var n := U32(nclst + 2);
            && U32(NeedOf(Fat32, n) + 511) / SS == TableSectors(nclst + 2) % WRAPPED_SECTORS
            && (nclst < MIN_FAT32 ==>
                  n == nclst + 2 && U32(NeedOf(Fat16, n) + 511) / SS == (2 * n + 511) / SS
                  && U32(NeedOf(Fat12, n) + 511) / SS == (3 * n / 2 + n % 2 + 511) / SS)
  {
    NeedExact32(nclst + 2);
    if nclst < MIN_FAT32 { SmallNeed(nclst + 2); }
  }

  lemma SmallNeed(n: nat)
    requires n <= MIN_FAT32 + 1
    ensures U32(n) == n && U32(U32(2 * n) + 511) == 2 * n + 511
    ensures U32(U32(U32(3 * n) / 2 + n % 2) + 511) == 3 * n / 2 + n % 2 + 511
  {
  }

  lemma NeedExact32(m: nat)
    ensures U32(U32(4 * U32(m)) + 511) / SS == TableSectors(m) % WRAPPED_SECTORS
  {
    var n := U32(m);
    var q, r := m / TWO_TO_THE_32, 4 * n / TWO_TO_THE_32;
    assert m == q * TWO_TO_THE_32 + n && 4 * n == r * TWO_TO_THE_32 + U32(4 * n);
    hide U32;
    SameModulo(U32(4 * n) + 511, 4 * m + 511, r + 4 * q);
    SectorsModulo(4 * m + 511);
  }

  /** Numbers that differ by a multiple of 2^32. */
  lemma SameModulo(x: nat, y: nat, q: nat)
    requires y == x + q * TWO_TO_THE_32
    ensures U32(x) == U32(y) == y % TWO_TO_THE_32
  {
    var z := x / TWO_TO_THE_32;
    DivModUnique(y, TWO_TO_THE_32, z + q, x % TWO_TO_THE_32);
  }

  lemma SectorsModulo(w: nat)
    ensures w % TWO_TO_THE_32 / SS == w / SS % WRAPPED_SECTORS
  {
  }

  /** A described volume is laid out soundly: the reserved sectors, FAT copies,
      root directory and clusters follow one another inside the partition. It is
      sound as a whole exactly when its last cluster still has 32-bit numbers. */
  lemma MountSound(disk: Disk, b: Bpb, bsect: word)
    requires b.Valid() && Describes(b)
    ensures var v := VolumeOf(disk, b, bsect);
            && (v.Valid() <==> v.database + (v.nFatent - 2) * v.csize <= TWO_TO_THE_32)
            && v.disk == disk && v.csize == b.csize && v.nRootdir == b.nRootdir && v.fatSectors == b.fatSectors
            && v.fatbase == bsect + b.nRsvd > bsect
            && v.database == v.fatbase + b.nFats * b.fatSectors + b.nRootdir / 16
            && (v.fatType != Fat32 ==> v.dirbase == v.fatbase + b.nFats * b.fatSectors)
            && (v.fatType == Fat32 ==> v.dirbase == b.rootCluster)
            && v.database + (v.nFatent - 2) * v.csize <= bsect + b.totalSectors
            && bsect + b.totalSectors < v.database + (v.nFatent - 1) * v.csize
  {
    hide IsPowerOfTwo;
    FatAreaFits(b);
    DivisionFits(b.totalSectors - SystemSectors(b), b.csize);
    NoMoreFits(b.totalSectors - SystemSectors(b), b.csize);
    BytePowerBound(b.csize, 8);
    EntriesFit(VolumeOf(disk, b, bsect));
  }

  /** In a partition that ends inside the 32-bit sector space no address wraps,
      and a described volume is mounted as described and sound. */
  lemma PartitionInside(disk: Disk, b: Bpb, bsect: word)
    requires b.Valid() && bsect + b.totalSectors <= TWO_TO_THE_32
    ensures !AddressWraps(b, bsect)
    ensures Describes(b) ==>
              Mounted(disk, b, bsect) == Some(VolumeOf(disk, b, bsect)) && VolumeOf(disk, b, bsect).Valid()
  {
    hide IsPowerOfTwo, WholeClusters, Mounted;
    if Describes(b) {
      MountSound(disk, b, bsect);
      ClustersExist(b.totalSectors - SystemSectors(b), b.csize);
      TableFits32(Clusters(b) + 2, b.fatSectors);
      MountExact(disk, b, bsect);
    }
  }

  lemma FatAreaFits(b: Bpb)
    requires 1 <= b.nFats <= 2
    ensures b.fatSectors <= b.nFats * b.fatSectors == b.fatSectors * b.nFats <= SystemSectors(b)
  {
  }

  lemma DivisionFits(x: nat, d: nat)
    requires d > 0
    ensures x / d * d <= x && x / d <= x
  {
    MulAtLeast(d, 1, x / d);
  }

  lemma NoMoreFits(x: nat, d: nat)
    requires d > 0
    ensures x < (x / d + 1) * d
  {
    assert x == x / d * d + x % d;
    assert (x / d + 1) * d == x / d * d + d;
  }

  lemma TableFits(t: FatType, n: nat, fatSectors: nat)
    ensures TableBytes(t, n) <= SS * fatSectors <==> fatSectors >= (TableBytes(t, n) + 511) / SS
    ensures t == Fat12 ==> TableBytes(t, n) == 3 * n / 2 + n % 2
    ensures t == Fat16 ==> TableBytes(t, n) == 2 * n
  {
    SectorsFor(TableBytes(t, n), fatSectors);
    if t == Fat12 { Fat12Bytes(n); }
  }

  lemma SectorsFor(x: nat, k: nat)
    ensures x <= SS * k <==> k >= (x + 511) / SS
  {
  }

  lemma Fat12Bytes(n: nat)
    ensures (12 * n + 7) / 8 == 3 * n / 2 + n % 2
  {
    var q, r := n / 2, n % 2;
    DivModUnique(12 * n + 7, 8, 3 * q + 2 * r, 7 - 4 * r);
    DivModUnique(3 * n, 2, 3 * q + r, r);
  }

  lemma EntriesFit(v: Volume)
    requires v.nFatent > 0
    ensures v.EntryEnd(v.nFatent - 1) == TableBytes(v.fatType, v.nFatent)
  {
  }

  lemma {:induction false} BytePowerBound(p: nat, k: nat)
    requires k > 0 && IsPowerOfTwo(p) && p < Power2(k)
    ensures p <= Power2(k - 1)
  {
    if p > 1 { BytePowerBound(p / 2, k - 1); }
  }

  /** Every sector get_fat reads for a cluster, both halves of a straddling
      12-bit entry included, lies inside the first FAT copy; every sector of
      the cluster lies inside the partition and past the system area. */
  lemma ClusterSafe(disk: Disk, b: Bpb, bsect: word, c: nat, s: nat)
    requires b.Valid() && Describes(b) && VolumeOf(disk, b, bsect).InRange(c) && s < b.csize
    ensures var v := VolumeOf(disk, b, bsect);
            && v.fatbase <= v.fatbase + v.EntryPos(c) / SS
            && v.fatbase + (v.EntryEnd(c) - 1) / SS < v.fatbase + b.fatSectors
            && bsect + SystemSectors(b) <= v.ClusterSector(c) + s < bsect + b.totalSectors
  {
    MountSound(disk, b, bsect);
    var v := VolumeOf(disk, b, bsect);
    assert v.EntryEnd(c) <= v.EntryEnd(v.nFatent - 1);
    MulAtLeast(v.nFatent - 2, c - 1, v.csize);
    assert (c - 1) * v.csize == (c - 2) * v.csize + v.csize;
    MulAtLeast(c - 2, 0, v.csize);
  }

  /** Distinct clusters own distinct sectors. */
  lemma ClustersDisjoint(v: Volume, c: nat, d: nat, s: nat, t: nat)
    requires v.Valid() && v.InRange(c) && v.InRange(d) && c != d
    requires s < v.csize && t < v.csize
    ensures v.ClusterSector(c) + s != v.ClusterSector(d) + t
  {
    if c < d { ClustersOrdered(v, c, d); } else { ClustersOrdered(v, d, c); }
  }

  lemma ClustersOrdered(v: Volume, c: nat, d: nat)
    requires v.InRange(c) && v.InRange(d) && c < d
    ensures v.ClusterSector(c) + v.csize <= v.ClusterSector(d)
  {
    MulAtLeast(d - 2, c - 1, v.csize);
    assert (c - 1) * v.csize == (c - 2) * v.csize + v.csize;
  }

  /** Two copies of a table of 2^31 sectors multiply to nothing: the record is
      accepted although the table runs over the data area. */
  lemma WrapAccepted(disk: Disk)
    ensures var b := Bpb(512, 1, 32, 2, 0, 0x8000_0000, 0x0020_0000, 2);
            && b.Valid() && SystemWraps(b)
            && Mounted(disk, b, 0).Some?
            && Mounted(disk, b, 0).value.database < Mounted(disk, b, 0).value.fatbase + b.fatSectors
  {
    assert And(1, 0) == 0;
  }

  /** A table of 2^30 entries needs 2^32 bytes, which count as none: the record is
      accepted without any table at all. */
  lemma TableWrapAccepted(disk: Disk)
    ensures var b := Bpb(512, 1, 1, 1, 0, 0, 0x3FFF_FFFF, 2);
            && b.Valid() && TableWraps(b)
            && Mounted(disk, b, 0).Some? && Mounted(disk, b, 0).value.nFatent == 0x4000_0000
  {
    assert And(1, 0) == 0;
  }

  /** A sound record at the end of the sector space is mounted with its data in
      front of its table. */
  lemma AddressWrapAccepted(disk: Disk)
    ensures var b, bsect := Bpb(512, 1, 1, 1, 16, 1, 100, 0), 0xFFFF_FFFE;
            && b.Valid() && AddressWraps(b, bsect)
            && Mounted(disk, b, bsect).Some?
            && Mounted(disk, b, bsect).value.database < Mounted(disk, b, bsect).value.fatbase
  {
    assert And(1, 0) == 0;
  }
}
