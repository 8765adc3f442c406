/** What the bytes of a FAT volume mean: the allocation table, cluster chains,
    and the contents of a file. */
module FatVolume {
  import opened Words

  const SS: nat := 512

  type Sector = s: seq<byte> | |s| == 512 witness seq(512, _ => 0)

  /** A card: its sectors, and which of them cannot be read. */
  datatype Disk = Disk(sectors: seq<Sector>, bad: set<nat>) {
    predicate Readable(sector: nat, count: nat) {
      0 < count && sector + count <= |sectors|
      && forall i :: sector <= i < sector + count ==> i !in bad
    }
  }

  datatype FatType = Fat12 | Fat16 | Fat32

  const FAT_DISK_ERROR: word := 0xFFFFFFFF
  const FAT_INTERNAL_ERROR: word := 1

  datatype Volume = Volume(
    disk: Disk,
    fatType: FatType,
    csize: nat,      // sectors per cluster
    nFatent: nat,    // number of FAT entries, including the two reserved ones
    nRootdir: nat,   // entries of the fixed root directory
    fatbase: nat,    // first sector of the FAT
    fatSectors: nat, // sectors of one FAT copy
    dirbase: nat,    // first sector of the root directory, or its first cluster
    database: nat)   // first data sector
  {
    /** What mounting establishes. */
    predicate Valid() {
      && IsPowerOfTwo(csize) && csize <= 128
      && 2 < nFatent && 0 < fatbase && fatbase + fatSectors <= database
      && database + (nFatent - 2) * csize <= TWO_TO_THE_32
      && EntryEnd(nFatent - 1) <= SS * fatSectors
      && nRootdir < 0x1_0000 && nRootdir % 16 == 0
      && (if fatType == Fat32 then nRootdir == 0 else 0 < dirbase && dirbase + nRootdir / 16 <= TWO_TO_THE_32)
    }

    predicate InRange(c: nat) {
      2 <= c < nFatent
    }

    /** The first sector of cluster c. */
    function ClusterSector(c: nat): nat
      requires InRange(c)
    {
      database + (c - 2) * csize
    }

    // ---------- The allocation table ----------

    /** Byte position in the FAT at which the entry of cluster c begins. */
    function EntryPos(c: nat): nat {
      match fatType
      case Fat12 => c + c / 2
      case Fat16 => 2 * c
      case Fat32 => 4 * c
    }

    /** Byte position just past the entry of cluster c. */
    function EntryEnd(c: nat): nat {
      EntryPos(c) + (if fatType == Fat32 then 4 else 2)
    }

    predicate FatReadable(pos: nat) {
      disk.Readable(fatbase + pos / SS, 1)
    }

    function FatByte(pos: nat): byte
      requires FatReadable(pos)
    {
      disk.sectors[fatbase + pos / SS][pos % SS]
    }

    /** The whole entry can be read; a 12-bit one may straddle two sectors. */
    predicate EntryReadable(c: nat) {
      var p := EntryPos(c);
      && FatReadable(p) && FatReadable(p + 1)
      && (fatType == Fat32 ==> FatReadable(p + 2) && FatReadable(p + 3))
    }

    function FatWord(pos: nat): nat
      requires FatReadable(pos) && FatReadable(pos + 1)
    {
      FatByte(pos) as int + 0x100 * (FatByte(pos + 1) as int)
    }

    function Entry(c: nat): word
      requires EntryReadable(c)
    {
      var p := EntryPos(c);
      match fatType
      case Fat12 => if c % 2 == 1 then FatWord(p) / 0x10 else FatWord(p) % 0x1000
      case Fat16 => FatWord(p)
      case Fat32 => (FatWord(p) + 0x1_0000 * FatWord(p + 2)) % 0x1000_0000
    }

    /** Where the chain goes from cluster c, or an error value. */
    function Link(c: nat): word {
      if !InRange(c) then FAT_INTERNAL_ERROR
      else if !EntryReadable(c) then FAT_DISK_ERROR
      else Entry(c)
    }

    /** The k-th cluster of the chain that starts at c. */
    function Nth(c: word, k: nat): word {
      if k == 0 then c else Link(Nth(c, k - 1))
    }

    // ---------- File contents ----------

    /** Index in the chain of the cluster that holds byte pos of a file. */
    function ClusterIndex(pos: nat): nat
      requires csize > 0
    {
      pos / SS / csize
    }

    /** Byte pos of the file that starts at cluster c is in the volume. */
    predicate Located(c: word, pos: nat)
      requires csize > 0
    {
      InRange(Nth(c, ClusterIndex(pos)))
    }

    /** The sector that holds byte pos. */
    function SectorOf(c: word, pos: nat): nat
      requires csize > 0 && Located(c, pos)
    {
      ClusterSector(Nth(c, ClusterIndex(pos))) + pos / SS % csize
    }

    predicate CanRead(c: word, pos: nat)
      requires csize > 0
    {
      Located(c, pos) && disk.Readable(SectorOf(c, pos), 1)
    }

    function FileByte(c: word, pos: nat): byte
      requires csize > 0 && CanRead(c, pos)
    {
      disk.sectors[SectorOf(c, pos)][pos % SS]
    }
  }

  /** Bytes from up to (not including) to of a file can all be read. */
  ghost predicate RangeReadable(v: Volume, c: word, from: nat, to: nat)
    requires v.csize > 0
  {
    forall p :: from <= p < to ==> v.CanRead(c, p)
  }

  /** Bytes from up to (not including) to of a file. */
  ghost function FileBytes(v: Volume, c: word, from: nat, to: nat): (s: seq<byte>)
    requires v.csize > 0 && from <= to && RangeReadable(v, c, from, to)
    ensures |s| == to - from
    ensures forall i :: 0 <= i < to - from ==> s[i] == v.FileByte(c, from + i)
  {
    seq<byte>(to - from, i requires 0 <= i < to - from => v.FileByte(c, from + i))
  }

  lemma RangeConcat(v: Volume, c: word, from: nat, mid: nat, to: nat)
    requires v.csize > 0 && from <= mid <= to
    ensures RangeReadable(v, c, from, to) <==> RangeReadable(v, c, from, mid) && RangeReadable(v, c, mid, to)
    ensures RangeReadable(v, c, from, to) ==>
              FileBytes(v, c, from, to) == FileBytes(v, c, from, mid) + FileBytes(v, c, mid, to)
  {
    hide Volume.CanRead, Volume.FileByte;
  }

  lemma RangeSlice(v: Volume, c: word, to: nat, from: nat, upto: nat)
    requires v.csize > 0 && from <= upto <= to && RangeReadable(v, c, 0, to)
    ensures RangeReadable(v, c, from, upto)
    ensures FileBytes(v, c, 0, to)[from..upto] == FileBytes(v, c, from, upto)
  {
    hide Volume.CanRead, Volume.FileByte;
  }

  // ---------- Sectors within a cluster ----------

  /** Moving back across a sector boundary. */
  lemma PreviousCluster(s: nat, csize: nat)
    requires s > 0 && csize > 0
    ensures s % csize != 0 ==> (s - 1) / csize == s / csize
    ensures s % csize == 0 ==> (s - 1) / csize == s / csize - 1
  {
    var q, r := s / csize, s % csize;
    assert s == q * csize + r;
    if r != 0 {
      DivModUnique(s - 1, csize, q, r - 1);
    } else {
      assert s - 1 == (q - 1) * csize + (csize - 1) by {
        assert (q - 1) * csize == q * csize - csize;
      }
      DivModUnique(s - 1, csize, q - 1, csize - 1);
    }
  }

  /** Consecutive sectors that stay inside the cluster. */
  lemma SameCluster(s: nat, i: nat, csize: nat)
    requires csize > 0 && s % csize + i < csize
    ensures (s + i) / csize == s / csize && (s + i) % csize == s % csize + i
  {
    var q, r := s / csize, s % csize;
    assert s + i == q * csize + (r + i);
    DivModUnique(s + i, csize, q, r + i);
  }

  lemma VolumeBounds(v: Volume)
    requires v.Valid()
    ensures 0 < v.csize <= 128 && 0 < v.fatbase && 0 < v.database
    ensures 2 < v.nFatent < FAT_DISK_ERROR
    ensures IsPowerOfTwo(v.csize) && v.nRootdir % 16 == 0
  {
    MulAtLeast(v.csize, 1, v.nFatent - 2);
  }

  /** Every sector of a cluster lies in the volume's 32-bit sector space. */
  lemma ClusterFits(v: Volume, c: nat)
    requires v.Valid() && v.InRange(c)
    ensures 0 < v.ClusterSector(c) == (c - 2) * v.csize + v.database
    ensures v.ClusterSector(c) + v.csize <= TWO_TO_THE_32
  {
    hide IsPowerOfTwo, Volume.EntryEnd;
    var n, k, cs := v.nFatent - 2, c - 2, v.csize;
    MulAtLeast(n, k + 1, cs);
    assert (k + 1) * cs == k * cs + cs;
    MulAtLeast(k, 0, cs);
  }
}
