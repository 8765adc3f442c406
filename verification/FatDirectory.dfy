/** Directory positions in common/lib/ff.c: setting the index outright (dir_sdi)
    and stepping to the next entry (dir_next), without stretching. */
module FatDirectory {
  import opened Words
  import opened FatVolume
  import opened FatFs
  import BootRecord

  /** Entries in a sector. */
  const PER_SECTOR: nat := 16

  /** Where a directory entry is: the cluster (0 in the fixed root table), the
      sector, and the offset of the entry in the sector. */
  datatype Place = Place(clust: word, sect: nat, offset: nat)

  /** The first cluster, where 0 stands for the root of a FAT32 volume. */
  function StartCluster(v: Volume, sclust: word): word {
    if sclust == 0 && v.fatType == Fat32 && v.dirbase < TWO_TO_THE_32 then v.dirbase else sclust
  }

  function ClusterOfEntry(v: Volume, idx: nat): nat
    requires v.csize > 0
  {
    idx / PER_SECTOR / v.csize
  }

  /** Entry idx exists as far as the table or the cluster chain goes. */
  ghost predicate Exists(v: Volume, start: word, idx: nat)
    requires v.csize > 0
  {
    if start == 0 then idx < v.nRootdir
    else ChainOk(v, start, ClusterOfEntry(v, idx))
  }

  /** First sector of a cluster, 0 when it is outside the volume. */
  function SectorOrZero(v: Volume, c: word): nat {
    if v.InRange(c) then v.ClusterSector(c) else 0
  }

  /** What a step onto the cluster behind a link comes to. */
  function LinkResult(v: Volume, link: word): FResult {
    if link <= 1 then FrIntErr
    else if link == FAT_DISK_ERROR then FrDiskErr
    else if link >= v.nFatent then FrNoFile
    else FrOk
  }

  function PlaceOf(v: Volume, start: word, idx: nat): Place
    requires v.csize > 0
  {
    if start == 0 then
      Place(0, v.dirbase + idx / PER_SECTOR, idx % PER_SECTOR * 32)
    else
      var c := v.Nth(start, ClusterOfEntry(v, idx));
      Place(c, SectorOrZero(v, c) + idx / PER_SECTOR % v.csize, idx % PER_SECTOR * 32)
  }

  /** With an entry every entry before it exists. */
  lemma ExistsBefore(v: Volume, start: word, k: nat, i: nat)
    requires v.csize > 0 && Exists(v, start, k) && i <= k
    ensures Exists(v, start, i)
  {
    if start != 0 { LaterCluster(i / PER_SECTOR, k / PER_SECTOR, v.csize); }
  }

  /** An entry whose sector dir_next can tell from the end of the table. Only the
      first entries of a table that starts at a cluster outside the volume are
      not: their sector counts as 0. */
  lemma SectorKnown(v: Volume, start: word, idx: nat)
    requires v.Valid() && Exists(v, start, idx) && (start == 0 ==> v.fatType != Fat32)
    ensures start == 0 || v.InRange(start) ==> PlaceOf(v, start, idx).sect != 0
    ensures start != 0 && !v.InRange(start) && idx == 0 ==> PlaceOf(v, start, idx).sect == 0
  {
    if start != 0 {
      var k := ClusterOfEntry(v, idx);
      if k > 0 { assert v.InRange(v.Nth(start, k)); }
      if v.InRange(v.Nth(start, k)) { ClusterFits(v, v.Nth(start, k)); }
    }
  }

  /** Only the fixed root table starts at cluster 0, unless it is empty. */
  lemma RootHasNone(v: Volume, sclust: word)
    requires v.Valid()
    ensures StartCluster(v, sclust) == 0 && Exists(v, 0, 0) ==> v.fatType != Fat32
  {
  }

  lemma LaterCluster(a: nat, b: nat, d: nat)
    requires d > 0 && a <= b
    ensures a / d <= b / d
  {
    QuotientAtLeast(b, a / d, d);
  }

  class Directory {
    const fs: FileSystem
    const sclust: word
    var index: nat
    var clust: word
    var sect: nat
    var offset: nat

    constructor (fs: FileSystem, sclust: word)
      ensures this.fs == fs && this.sclust == sclust
    {
      this.fs, this.sclust := fs, sclust;
      index, clust, sect, offset := 0, 0, 0, 0;
    }

    function Start(): word {
      StartCluster(fs.vol, sclust)
    }

    /** The object stands at entry idx. */
    ghost predicate At(idx: nat)
      requires fs.vol.csize > 0
      reads this
    {
      && Exists(fs.vol, Start(), idx) && index == idx
      && Place(clust, sect, offset) == PlaceOf(fs.vol, Start(), idx)
    }

    method SetIndex(idx: nat) returns (res: FResult)
      requires fs.Valid() && idx < 0x1_0000
      requires fs.vol.fatType == Fat32 ==> fs.vol.dirbase < TWO_TO_THE_32
      modifies this, fs, fs.win
      ensures res == FrOk <==> CanSetIndex(idx)
      ensures res == FrOk ==> At(idx) && fs.Valid()
    {
      hide Volume.Valid, Volume.Link, ChainOk;
      VolumeBounds(fs.vol);
      index := idx;
      var clst := sclust;
      if clst == 1 || clst >= fs.vol.nFatent {
        return FrIntErr;
      }
      if clst == 0 && fs.vol.fatType == Fat32 {
        clst := fs.vol.dirbase;
      }
      var rest: nat := idx;
      if clst == 0 {
        clust := clst;
        if idx >= fs.vol.nRootdir {
          return FrIntErr;
        }
        sect := RootSector(idx);
      } else {
        ghost var k;
        res, clst, rest, k := WalkClusters(idx, clst);
        if res != FrOk { return; }
        WalkEnd(fs.vol, PER_SECTOR * fs.vol.csize, idx, k, rest);
        clust := clst;
        sect := fs.Clust2Sect(clst);
        sect := sect + rest / PER_SECTOR;
      }
      offset := rest % PER_SECTOR * 32;
      res := FrOk;
    }

    method RootSector(idx: nat) returns (s: nat)
      requires fs.vol.Valid() && idx < fs.vol.nRootdir
      ensures s == fs.vol.dirbase + idx / PER_SECTOR
    {
      s := fs.vol.dirbase + idx / PER_SECTOR;
    }

    /** The cluster-following loop of dir_sdi. */
    method WalkClusters(idx: nat, start: word) returns (res: FResult, clst: word, rest: nat, ghost k: nat)
      requires fs.Valid() && idx < 0x1_0000 && start != 0
      modifies fs, fs.win
      ensures res == FrOk ==> fs.Valid() && idx == k * (PER_SECTOR * fs.vol.csize) + rest
      ensures res == FrOk ==> rest < PER_SECTOR * fs.vol.csize
      ensures res == FrOk ==> clst == fs.vol.Nth(start, k) && ChainOk(fs.vol, start, k)
      ensures res != FrOk ==> !ChainOk(fs.vol, start, ClusterOfEntry(fs.vol, idx))
    {
      hide Volume.Valid, Volume.Link, ChainOk;
      VolumeBounds(fs.vol);
      ChainOkNone(fs.vol, start);
      clst, rest, k := start, idx, 0;
      var ic := PER_SECTOR * fs.vol.csize;
      while rest >= ic
        invariant fs.Valid() && 0 <= rest && idx == k * ic + rest
        invariant clst == fs.vol.Nth(start, k) && ChainOk(fs.vol, start, k)
        decreases rest
      {
        WalkBeyond(fs.vol, ic, idx, k, rest);
        clst := fs.GetFat(clst);
        if clst == FAT_DISK_ERROR {
          ChainBroken(fs.vol, start, k + 1, ClusterOfEntry(fs.vol, idx));
          return FrDiskErr, clst, rest, k;
        }
        if clst < 2 || clst >= fs.vol.nFatent {
          ChainBroken(fs.vol, start, k + 1, ClusterOfEntry(fs.vol, idx));
          return FrIntErr, clst, rest, k;
        }
        ChainExtend(fs.vol, start, k + 1);
        rest := rest - ic;
        assert (k + 1) * ic == k * ic + ic;
        k := k + 1;
      }
      res := FrOk;
    }

    /** A position whose sector is 0 (a root cluster outside the volume) counts
        as the end of the table. */
    method Next() returns (res: FResult)
      requires fs.Valid() && index < 0x1_0000 && At(index)
      modifies this, fs, fs.win
      ensures res == FrOk <==> old(index) < 0xFFFF && old(sect) != 0 && Exists(fs.vol, Start(), old(index) + 1)
      ensures res == FrOk ==> At(old(index) + 1) && fs.Valid()
      ensures res != FrOk ==>
                res == if old(index) == 0xFFFF || old(sect) == 0 || Start() == 0 then FrNoFile
                       else LinkResult(fs.vol, fs.vol.Link(old(clust)))
    {
      hide Volume.Valid, Exists, PlaceOf, ClusterOfEntry, SectorOrZero, StartCluster;
      hide Volume.Nth, Volume.Link, ChainOk, Volume.InRange, IsPowerOfTwo;
      VolumeBounds(fs.vol);
      var i := (index + 1) % 0x1_0000;
      if i == 0 || sect == 0 {
        return FrNoFile;
      }
      NextPlace(fs.vol, Start(), index);
      if i % PER_SECTOR == 0 {
        sect := sect + 1;
        if clust == 0 {
          if i >= fs.vol.nRootdir {
            return FrNoFile;
          }
        } else {
          var first := fs.SectorInCluster(i / PER_SECTOR);
          if first == 0 {
            res := NextCluster(i);
            if res != FrOk { return; }
          }
        }
      }
      index := i;
      offset := i % PER_SECTOR * 32;
      res := FrOk;
    }

    /** The table from its first entry on, step by step, as the search loops do.
        Entry k is reached exactly when a direct seek to it succeeds, but for a
        table that starts at a cluster outside the volume: there the first step
        already reports the end. */
    method Walk(k: nat) returns (res: FResult)
      requires fs.Valid() && k < 0x1_0000
      requires fs.vol.fatType == Fat32 ==> fs.vol.dirbase < TWO_TO_THE_32
      modifies this, fs, fs.win
      ensures res == FrOk <==> CanSetIndex(k) && (k == 0 || Start() == 0 || fs.vol.InRange(Start()))
      ensures res == FrOk ==> At(k) && fs.Valid()
    {
      hide Volume.Valid, Exists, PlaceOf, StartCluster;
      VolumeBounds(fs.vol);
      if CanSetIndex(k) { ExistsBefore(fs.vol, Start(), k, 0); }
      RootHasNone(fs.vol, sclust);
      res := SetIndex(0);
      if res != FrOk { return; }
      var i := 0;
      while i < k
        invariant fs.Valid() && i <= k && At(i) && res == FrOk
        invariant i == 0 || Start() == 0 || fs.vol.InRange(Start())
      {
        SectorKnown(fs.vol, Start(), i);
        if CanSetIndex(k) { ExistsBefore(fs.vol, Start(), k, i + 1); }
        res := Next();
        if res != FrOk { return; }
        i := i + 1;
      }
    }

    /** When a direct seek to entry idx succeeds. */
    ghost predicate CanSetIndex(idx: nat)
      requires fs.vol.csize > 0
    {
      sclust != 1 && sclust < fs.vol.nFatent && Exists(fs.vol, Start(), idx)
    }

    /** Entry i is the first of a cluster: follow the chain. */
    method NextCluster(i: nat) returns (res: FResult)
      requires fs.Valid() && Start() != 0 && ClusterOfEntry(fs.vol, i) > 0
      requires clust == fs.vol.Nth(Start(), ClusterOfEntry(fs.vol, i) - 1)
      requires ChainOk(fs.vol, Start(), ClusterOfEntry(fs.vol, i) - 1)
      modifies this`clust, this`sect, fs, fs.win
      ensures res == FrOk <==> ChainOk(fs.vol, Start(), ClusterOfEntry(fs.vol, i))
      ensures res == FrOk ==> fs.Valid() && clust != 0
      ensures res == FrOk ==> clust == fs.vol.Nth(Start(), ClusterOfEntry(fs.vol, i))
      ensures res == FrOk ==> sect == SectorOrZero(fs.vol, clust)
      ensures res == LinkResult(fs.vol, fs.vol.Link(old(clust)))
    {
      hide Volume.Valid, Volume.Link, ChainOk, ClusterOfEntry;
      VolumeBounds(fs.vol);
      ghost var k := ClusterOfEntry(fs.vol, i);
      var clst := fs.GetFat(clust);
      if clst <= 1 {
        ChainBroken(fs.vol, Start(), k, k);
        return FrIntErr;
      }
      if clst == FAT_DISK_ERROR {
        ChainBroken(fs.vol, Start(), k, k);
        return FrDiskErr;
      }
      if clst >= fs.vol.nFatent {
        ChainBroken(fs.vol, Start(), k, k);
        return FrNoFile;
      }
      ChainExtend(fs.vol, Start(), k);
      clust := clst;
      sect := fs.Clust2Sect(clst);
      res := FrOk;
    }
  }

  /** How the cluster, sector and offset of an entry change to the next one. */
  lemma EntryStep(v: Volume, idx: nat)
    requires v.csize > 0
    ensures var i := idx + 1;
            && ((i % PER_SECTOR != 0) ==>
                  && i / PER_SECTOR == idx / PER_SECTOR
                  && ClusterOfEntry(v, i) == ClusterOfEntry(v, idx))
            && ((i % PER_SECTOR == 0 && i / PER_SECTOR % v.csize != 0) ==>
                  && i / PER_SECTOR == idx / PER_SECTOR + 1
                  && ClusterOfEntry(v, i) == ClusterOfEntry(v, idx)
                  && i / PER_SECTOR % v.csize == idx / PER_SECTOR % v.csize + 1)
            && ((i % PER_SECTOR == 0 && i / PER_SECTOR % v.csize == 0) ==>
                  && i / PER_SECTOR == idx / PER_SECTOR + 1
                  && ClusterOfEntry(v, i) == ClusterOfEntry(v, idx) + 1)
  {
    var i := idx + 1;
    if i % PER_SECTOR == 0 {
      assert i / PER_SECTOR == idx / PER_SECTOR + 1;
      var s := i / PER_SECTOR;
      PreviousCluster(s, v.csize);
      if s % v.csize != 0 {
        assert s - 1 == s / v.csize * v.csize + (s % v.csize - 1);
        DivModUnique(s - 1, v.csize, s / v.csize, s % v.csize - 1);
      }
    } else {
      assert i / PER_SECTOR == idx / PER_SECTOR;
    }
  }

  /** The place of the next entry, in the cases dir_next distinguishes. */
  lemma NextPlace(v: Volume, start: word, idx: nat)
    requires v.csize > 0 && v.nRootdir % PER_SECTOR == 0 && Exists(v, start, idx)
    ensures PlaceOf(v, start, idx).clust == 0 <==> start == 0
    ensures var i, p, q := idx + 1, PlaceOf(v, start, idx), PlaceOf(v, start, idx + 1);
            && (i % PER_SECTOR != 0 ==>
                  Exists(v, start, i) && q == p.(offset := i % PER_SECTOR * 32))
            && (i % PER_SECTOR == 0 && start == 0 ==>
                  (Exists(v, start, i) <==> i < v.nRootdir) && q == Place(0, p.sect + 1, 0))
            && (i % PER_SECTOR == 0 && start != 0 && i / PER_SECTOR % v.csize != 0 ==>
                  Exists(v, start, i) && q == Place(p.clust, p.sect + 1, 0))
            && (i % PER_SECTOR == 0 && start != 0 && i / PER_SECTOR % v.csize == 0 ==>
                  var k := ClusterOfEntry(v, i);
                  && k > 0 && ChainOk(v, start, k - 1) && p.clust == v.Nth(start, k - 1)
                  && (Exists(v, start, i) <==> ChainOk(v, start, k))
                  && q == Place(v.Nth(start, k), SectorOrZero(v, v.Nth(start, k)), 0))
  {
    hide Volume.Link, ClusterOfEntry, SectorOrZero;
    EntryStep(v, idx);
    var k := ClusterOfEntry(v, idx);
    if start != 0 && k > 0 {
      assert v.InRange(v.Nth(start, k));
    }
  }

  lemma WalkBeyond(v: Volume, ic: nat, idx: nat, k: nat, rest: nat)
    requires v.csize > 0 && ic == PER_SECTOR * v.csize && idx == k * ic + rest && rest >= ic
    ensures ClusterOfEntry(v, idx) >= k + 1
  {
    DivTwice(idx, PER_SECTOR, v.csize);
    assert (k + 1) * ic == k * ic + ic;
    QuotientAtLeast(idx, k + 1, ic);
  }

  lemma WalkEnd(v: Volume, ic: nat, idx: nat, k: nat, rest: nat)
    requires v.csize > 0 && ic == PER_SECTOR * v.csize && idx == k * ic + rest && rest < ic
    ensures ClusterOfEntry(v, idx) == k && idx / PER_SECTOR % v.csize == rest / PER_SECTOR
    ensures idx % PER_SECTOR == rest % PER_SECTOR
  {
    var q, r, t := idx / PER_SECTOR, rest / PER_SECTOR, rest % PER_SECTOR;
    assert rest == r * PER_SECTOR + t;
    assert idx == (k * v.csize + r) * PER_SECTOR + t by {
      assert k * ic == k * v.csize * PER_SECTOR;
    }
    DivModUnique(idx, PER_SECTOR, k * v.csize + r, t);
    DivModUnique(q, v.csize, k, r);
  }

  /** The failing input: a FAT32 volume, mounted from an accepted boot record,
      whose root cluster lies outside it. A direct seek to entry 1 of the root
      succeeds; stepping there from entry 0 reports the end of the table. */
  method RootOutside(disk: Disk) returns (seek: FResult, walk: FResult)
    ensures seek == FrOk && walk == FrNoFile
  {
    var b := BootRecord.Bpb(512, 1, 32, 1, 0, 1000, 100000, 0x0FFF_FFFF);
    RootOutsideMounts(disk);
    var v := BootRecord.VolumeOf(disk, b, 0);
    var fs := new FileSystem(v);
    var d := new Directory(fs, 0);
    ChainOkNone(v, v.dirbase);
    seek := d.SetIndex(1);
    walk := d.SetIndex(0);
    SectorKnown(v, v.dirbase, 0);
    walk := d.Next();
  }

  lemma RootOutsideMounts(disk: Disk)
    ensures var b := BootRecord.Bpb(512, 1, 32, 1, 0, 1000, 100000, 0x0FFF_FFFF);
            && b.Valid() && BootRecord.Describes(b)
            && var v := BootRecord.VolumeOf(disk, b, 0);
               && BootRecord.Mounted(disk, b, 0) == Some(v) && v.Valid()
               && v.fatType == Fat32 && v.dirbase >= v.nFatent && v.dirbase < TWO_TO_THE_32
  {
    var b := BootRecord.Bpb(512, 1, 32, 1, 0, 1000, 100000, 0x0FFF_FFFF);
    assert IsPowerOfTwo(1);
    BootRecord.PartitionInside(disk, b, 0);
  }
}
