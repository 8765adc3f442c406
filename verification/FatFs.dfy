/** common/lib/ff.c in the read-only, one-window configuration of
    common/inc/ffconf.h: the sector cache, link lookup, reading and seeking. */
module FatFs {
  import opened Words
  import opened FatVolume

  datatype FResult = FrOk | FrDiskErr | FrIntErr | FrDenied | FrNoFile

  /** The mounted volume and its one-sector window. */
  class FileSystem {
    const vol: Volume
    const win: array<byte>
    var winsect: nat

    constructor (vol: Volume)
      requires vol.Valid()
      ensures this.vol == vol && Valid() && fresh(win)
    {
      this.vol := vol;
      win := new byte[512];
      winsect := 0;
    }

    /** The window holds the sector it is labelled with. Label 0 means empty. */
    ghost predicate Valid()
      reads this, win
    {
      && vol.Valid() && win.Length == 512
      && (winsect != 0 ==> vol.disk.Readable(winsect, 1) && win[..] == vol.disk.sectors[winsect])
    }

    /** With a sound window, exactly the readable sectors can be made to appear. A
        failed read keeps the label and may leave anything in the window; asked for
        the labelled sector after that, the code succeeds with what is there. */
    method MoveWindow(sector: nat) returns (ok: bool)
      requires vol.Valid() && win.Length == 512 && sector > 0
      modifies this, win
      ensures ok <==> sector == old(winsect) || vol.disk.Readable(sector, 1)
      ensures winsect == if ok then sector else old(winsect)
      ensures ok && vol.disk.Readable(sector, 1) ==>
                (win[..] == vol.disk.sectors[sector]
                 <==> sector != old(winsect) || old(win[..]) == vol.disk.sectors[sector])
      ensures ok ==> (Valid() <==> sector != old(winsect) || old(Valid()))
      ensures old(Valid()) ==>
                (ok <==> vol.disk.Readable(sector, 1)) && (ok ==> Valid() && win[..] == vol.disk.sectors[sector])
    {
      ok := true;
      if winsect != sector {
        ok := DiskRead(vol.disk, win, 0, sector, 1);
        if ok {
          forall i | 0 <= i < SS ensures win[i] == vol.disk.sectors[sector][i] {
            assert win[0 + i] == vol.disk.sectors[sector + i / SS][i % SS];
          }
          winsect := sector;
        }
      }
    }

    /** 0 when the cluster number is invalid. */
    method Clust2Sect(clst: word) returns (sect: nat)
      requires vol.Valid()
      ensures sect == if vol.InRange(clst) then vol.ClusterSector(clst) else 0
      ensures sect != 0 <==> vol.InRange(clst)
    {
      hide Volume.Valid, Volume.ClusterSector;
      VolumeBounds(vol);
      var c := U32(clst - 2);
      if c >= vol.nFatent - 2 {
        return 0;
      }
      ClusterFits(vol, clst);
      sect := U32(c * vol.csize + vol.database);
    }

    /** n & (csize - 1): the place of sector n in its cluster. */
    method SectorInCluster(n: nat) returns (r: nat)
      requires vol.Valid()
      ensures r == n % vol.csize
    {
      hide Volume.Valid, IsPowerOfTwo;
      VolumeBounds(vol);
      AndMask(n, vol.csize);
      r := And(n, vol.csize - 1);
    }

    /** The link of a cluster, or 1 or 0xFFFFFFFF. */
    method GetFat(clst: word) returns (r: word)
      requires Valid()
      modifies this, win
      ensures r == vol.Link(clst)
      ensures r != FAT_DISK_ERROR ==> Valid()
    {
      if clst < 2 || clst >= vol.nFatent {
        return 1;
      }
      FatFits(vol, clst);
      match vol.fatType {
        case Fat12 => r := GetFat12(clst);
        case Fat16 => r := GetFat16(clst);
        case Fat32 => r := GetFat32(clst);
      }
    }

    method GetFat12(clst: word) returns (r: word)
      requires Valid() && vol.InRange(clst) && vol.fatType == Fat12
      requires vol.fatbase + (vol.EntryEnd(clst) - 1) / SS < TWO_TO_THE_32
      modifies this, win
      ensures r == vol.Link(clst)
      ensures r != FAT_DISK_ERROR ==> Valid()
    {
      hide Volume.Valid;
      VolumeBounds(vol);
      var bc := clst;
      bc := bc + bc / 2;
      var ok := MoveWindow(U32(vol.fatbase + bc / SS));
      if !ok { return FAT_DISK_ERROR; }
      var wc: nat := win[bc % SS];
      bc := bc + 1;
      ok := MoveWindow(U32(vol.fatbase + bc / SS));
      if !ok { return FAT_DISK_ERROR; }
      wc := wc + 0x100 * (win[bc % SS] as int);
      return if clst % 2 == 1 then wc / 0x10 else wc % 0x1000;
    }

    method GetFat16(clst: word) returns (r: word)
      requires Valid() && vol.InRange(clst) && vol.fatType == Fat16
      requires vol.fatbase + (vol.EntryEnd(clst) - 1) / SS < TWO_TO_THE_32
      modifies this, win
      ensures r == vol.Link(clst)
      ensures r != FAT_DISK_ERROR ==> Valid()
    {
      hide Volume.Valid;
      VolumeBounds(vol);
      Fat16Place(clst);
      var ok := MoveWindow(U32(vol.fatbase + clst / (SS / 2)));
      if !ok { return FAT_DISK_ERROR; }
      return Le16(win[..], clst * 2 % SS);
    }

    method GetFat32(clst: word) returns (r: word)
      requires Valid() && vol.InRange(clst) && vol.fatType == Fat32
      requires vol.fatbase + (vol.EntryEnd(clst) - 1) / SS < TWO_TO_THE_32
      modifies this, win
      ensures r == vol.Link(clst)
      ensures r != FAT_DISK_ERROR ==> Valid()
    {
      hide Volume.Valid, Volume.Link, Volume.EntryEnd;
      VolumeBounds(vol);
      Fat32Entry(vol, clst);
      var ok := MoveWindow(U32(vol.fatbase + clst / (SS / 4)));
      if !ok { return FAT_DISK_ERROR; }
      return Le32(win[..], clst * 4 % SS) % 0x1000_0000;
    }
  }

  lemma Fat16Place(c: nat)
    ensures c / (SS / 2) == 2 * c / SS == (2 * c + 1) / SS
    ensures 2 * c % SS <= SS - 2 && (2 * c + 1) % SS == 2 * c % SS + 1
  {
    var q, r := c / 256, c % 256;
    assert 2 * c == q * 512 + 2 * r;
  }

  lemma Fat32Place(c: nat)
    ensures c / (SS / 4) == 4 * c / SS == (4 * c + 1) / SS == (4 * c + 2) / SS == (4 * c + 3) / SS
    ensures 4 * c % SS <= SS - 4
    ensures (4 * c + 1) % SS == 4 * c % SS + 1
    ensures (4 * c + 2) % SS == 4 * c % SS + 2
    ensures (4 * c + 3) % SS == 4 * c % SS + 3
  {
    var q, r := c / 128, c % 128;
    assert 4 * c == q * 512 + 4 * r;
  }

  lemma Fat32Entry(v: Volume, c: word)
    requires v.InRange(c) && v.fatType == Fat32 && v.fatbase > 0
    requires v.fatbase + (v.EntryEnd(c) - 1) / SS < TWO_TO_THE_32
    ensures 4 * c % SS <= SS - 4
    ensures var sect := v.fatbase + c / (SS / 4);
            && sect < TWO_TO_THE_32
            && v.Link(c) == if v.disk.Readable(sect, 1) then Le32(v.disk.sectors[sect], 4 * c % SS) % 0x1000_0000
                            else FAT_DISK_ERROR
  {
    hide Volume.FatReadable, Volume.FatByte, Disk.Readable;
    Fat32Byte(v, c, 0);
    Fat32Byte(v, c, 1);
    Fat32Byte(v, c, 2);
    Fat32Byte(v, c, 3);
  }

  lemma Fat32Byte(v: Volume, c: nat, e: nat)
    requires e < 4
    ensures 4 * c % SS <= SS - 4
    ensures c / (SS / 4) == (4 * c + e) / SS
    ensures var sect, at := v.fatbase + c / (SS / 4), 4 * c % SS;
            && (v.FatReadable(4 * c + e) <==> v.disk.Readable(sect, 1))
            && (v.FatReadable(4 * c + e) ==> v.FatByte(4 * c + e) == v.disk.sectors[sect][at + e])
  {
    Fat32Place(c);
  }

  /** Every byte of an entry lies in a FAT sector the code can address. */
  lemma FatFits(v: Volume, c: nat)
    requires v.Valid() && v.InRange(c)
    ensures v.fatbase + (v.EntryEnd(c) - 1) / SS < TWO_TO_THE_32
  {
    hide IsPowerOfTwo;
    var n := v.nFatent - 1;
    assert v.EntryEnd(c) <= v.EntryEnd(n);
    MulAtLeast(v.nFatent - 2, 0, v.csize);
  }

  /** Two states of a buffer agree outside the bytes from lo to hi. */
  ghost predicate Outside(a: seq<byte>, b: seq<byte>, lo: nat, hi: nat) {
    lo <= hi <= |a| == |b| && a[..lo] == b[..lo] && a[hi..] == b[hi..]
  }

  lemma OutsideSelf(a: seq<byte>, lo: nat, hi: nat)
    requires lo <= hi <= |a|
    ensures Outside(a, a, lo, hi)
  {
  }

  lemma SameOutside(a: seq<byte>, b: seq<byte>, lo: nat, hi: nat)
    requires lo <= hi <= |a| == |b|
    requires forall i :: 0 <= i < lo || hi <= i < |a| ==> a[i] == b[i]
    ensures Outside(b, a, lo, hi)
  {
  }

  lemma OutsideWidens(a: seq<byte>, b: seq<byte>, lo: nat, mid: nat, hi: nat)
    requires Outside(a, b, lo, mid) && mid <= hi <= |a|
    ensures Outside(a, b, lo, hi)
  {
    assert a[hi..] == a[mid..][hi - mid..];
    assert b[hi..] == b[mid..][hi - mid..];
  }

  /** A buffer filled up to mid and then from mid to next. */
  lemma OutsideExtends(a: seq<byte>, b: seq<byte>, c: seq<byte>, lo: nat, mid: nat, next: nat, hi: nat)
    requires lo <= mid <= next <= hi
    requires Outside(b, a, lo, hi) && Outside(c, b, mid, hi)
    ensures Outside(c, a, lo, hi) && c[lo..next] == b[lo..mid] + c[mid..next]
  {
    assert c[lo..mid] == c[..mid][lo..] == b[..mid][lo..] == b[lo..mid];
    assert c[..lo] == c[..mid][..lo] && b[..lo] == b[..mid][..lo];
  }

  /** Reads count sectors into buff from offset at. A failed read leaves
      anything in the bytes it was to fill. */
  method DiskRead(disk: Disk, buff: array<byte>, at: nat, sector: nat, count: nat) returns (ok: bool)
    requires at + SS * count <= buff.Length
    modifies buff
    ensures ok <==> disk.Readable(sector, count)
    ensures ok ==> forall i :: 0 <= i < SS * count ==> buff[at + i] == disk.sectors[sector + i / SS][i % SS]
    ensures forall i :: 0 <= i < at || at + SS * count <= i < buff.Length ==> buff[i] == old(buff[i])
  {
    if !disk.Readable(sector, count) {
      return false;
    }
    forall i | 0 <= i < SS * count {
      buff[at + i] := disk.sectors[sector + i / SS][i % SS];
    }
    ok := true;
  }

  /** The part of a file object that moves: what the ILDA player saves and
      restores behind the file system's back. */
  datatype Cursor = Cursor(fptr: nat, currClust: word, dsect: nat)

  /** curr_clust is the cluster of the byte before fptr, and dsect the sector of
      fptr when fptr is inside a sector. */
  ghost predicate CursorOk(v: Volume, org: word, fsize: nat, c: Cursor)
    requires v.csize > 0
  {
    && c.fptr <= fsize
    && (org == 0 ==> c.fptr == 0)
    && (c.fptr > 0 ==> c.currClust == v.Nth(org, v.ClusterIndex(c.fptr - 1)))
    && (c.fptr > 0 ==> ChainOk(v, org, v.ClusterIndex(c.fptr - 1)))
    && (c.fptr % SS != 0 ==> v.Located(org, c.fptr) && c.dsect == v.SectorOf(org, c.fptr))
  }

  /** Links 1 to k of the chain stay inside the volume. */
  ghost predicate ChainOk(v: Volume, org: word, k: nat) {
    forall j :: 1 <= j <= k ==> v.InRange(v.Nth(org, j))
  }

  /** The current cluster is the one that holds byte p. */
  ghost predicate InCluster(v: Volume, org: word, p: nat, currClust: word)
    requires v.csize > 0
  {
    && org != 0 && v.Located(org, p)
    && currClust == v.Nth(org, v.ClusterIndex(p))
    && ChainOk(v, org, v.ClusterIndex(p))
  }

  lemma InsideSector(v: Volume, org: word, fsize: nat, c: Cursor)
    requires v.Valid() && CursorOk(v, org, fsize, c) && c.fptr % SS != 0
    ensures InCluster(v, org, c.fptr, c.currClust) && c.dsect == v.SectorOf(org, c.fptr)
  {
    assert (c.fptr - 1) / SS == c.fptr / SS;
  }

  /** On a sector boundary inside a cluster the current cluster stays. */
  lemma InsideCluster(v: Volume, org: word, fsize: nat, c: Cursor)
    requires v.Valid() && CursorOk(v, org, fsize, c)
    requires c.fptr % SS == 0 && c.fptr / SS % v.csize != 0
    ensures c.currClust == v.Nth(org, v.ClusterIndex(c.fptr))
    ensures ChainOk(v, org, v.ClusterIndex(c.fptr)) && org != 0
  {
    hide Volume.Valid, Volume.Link;
    VolumeBounds(v);
    if c.fptr > 0 {
      BackOneSector(c.fptr);
      PreviousCluster(c.fptr / SS, v.csize);
    }
  }

  /** On a cluster boundary the current cluster is the one before. */
  lemma ClusterBoundary(v: Volume, org: word, fsize: nat, c: Cursor)
    requires v.Valid() && CursorOk(v, org, fsize, c) && c.fptr > 0
    requires c.fptr % SS == 0 && c.fptr / SS % v.csize == 0
    ensures v.ClusterIndex(c.fptr) > 0 && org != 0
    ensures v.Link(c.currClust) == v.Nth(org, v.ClusterIndex(c.fptr))
    ensures ChainOk(v, org, v.ClusterIndex(c.fptr) - 1)
  {
    BackOneSector(c.fptr);
    PreviousCluster(c.fptr / SS, v.csize);
  }

  lemma ChainExtend(v: Volume, org: word, k: nat)
    requires k > 0 ==> ChainOk(v, org, k - 1)
    requires v.InRange(v.Nth(org, k))
    ensures ChainOk(v, org, k)
  {
  }

  /** Two sound cursors at the same position are the same wherever it matters,
      so restoring a saved cursor is as good as seeking. */
  lemma CursorDetermined(v: Volume, org: word, fsize: nat, c: Cursor, d: Cursor)
    requires v.Valid() && CursorOk(v, org, fsize, c) && CursorOk(v, org, fsize, d)
    requires c.fptr == d.fptr
    ensures c.fptr > 0 ==> c.currClust == d.currClust
    ensures c.fptr % SS != 0 ==> c.dsect == d.dsect
  {
  }

  /** A buffer that was `was` has taken in br bytes of the file from byte start on,
      at at, and has changed nowhere else but before end. */
  ghost predicate Delivers(v: Volume, org: word, start: nat, br: nat,
                           was: seq<byte>, now: seq<byte>, at: nat, end: nat)
  {
    && v.csize > 0 && at + br <= end && end <= |was| == |now| && Outside(now, was, at, end)
    && RangeReadable(v, org, start, start + br) && now[at..at + br] == FileBytes(v, org, start, start + br)
  }

  lemma NothingDelivered(v: Volume, org: word, start: nat, was: seq<byte>, at: nat, end: nat)
    requires v.Valid() && at <= end <= |was|
    ensures Delivers(v, org, start, 0, was, was, at, end)
  {
    VolumeBounds(v);
    RangeEmpty(v, org, start);
    OutsideSelf(was, at, end);
  }

  lemma DeliveredReadable(v: Volume, org: word, start: nat, br: nat, was: seq<byte>, now: seq<byte>, at: nat, end: nat)
    requires v.Valid() && Delivers(v, org, start, br, was, now, at, end)
    ensures Outside(now, was, at, end) && RangeReadable(v, org, start, start + br)
    ensures now[at..at + br] == FileBytes(v, org, start, start + br)
    ensures RangeReadable(v, org, start, start + (end - at)) <==> RangeReadable(v, org, start + br, start + (end - at))
  {
    hide RangeReadable, FileBytes;
    RangeConcat(v, org, start, start + br, start + (end - at));
  }

  lemma DeliveredStays(v: Volume, org: word, start: nat, br: nat,
                       was: seq<byte>, before: seq<byte>, after: seq<byte>, at: nat, end: nat)
    requires Delivers(v, org, start, br, was, before, at, end) && Outside(after, before, at + br, end)
    ensures Delivers(v, org, start, br, was, after, at, end)
  {
    hide RangeReadable, FileBytes;
    OutsideExtends(was, before, after, at, at + br, at + br, end);
  }

  lemma DeliveredMore(v: Volume, org: word, start: nat, br: nat, rcnt: nat,
                      was: seq<byte>, before: seq<byte>, after: seq<byte>, at: nat, end: nat)
    requires v.Valid() && Delivers(v, org, start, br, was, before, at, end)
    requires at + br + rcnt <= end && Outside(after, before, at + br, end)
    requires RangeReadable(v, org, start + br, start + br + rcnt)
    requires after[at + br..at + br + rcnt] == FileBytes(v, org, start + br, start + br + rcnt)
    ensures Delivers(v, org, start, br + rcnt, was, after, at, end)
  {
    hide RangeReadable, FileBytes, Outside;
    ReadProgress(v, org, start, br, rcnt, was, before, after, at, end);
  }

  /** An open file. */
  class File {
    const fs: FileSystem
    const orgClust: word
    const fsize: nat
    const canRead: bool // FA_READ in the access mode
    var fptr: nat
    var currClust: word
    var dsect: nat
    var error: bool     // FA__ERROR in the flags

    /** The state f_open leaves. */
    constructor (fs: FileSystem, orgClust: word, fsize: nat, canRead: bool)
      requires fs.Valid() && fsize < TWO_TO_THE_32
      ensures Valid() && !error && fptr == 0
      ensures this.fs == fs && this.orgClust == orgClust && this.fsize == fsize && this.canRead == canRead
    {
      this.fs, this.orgClust, this.fsize, this.canRead := fs, orgClust, fsize, canRead;
      fptr, currClust, dsect := 0, 0, 0;
      error := false;
    }

    function Position(): Cursor
      reads this
    {
      Cursor(fptr, currClust, dsect)
    }

    ghost predicate Valid()
      reads this, fs, fs.win
    {
      fs.Valid() && fptr <= fsize < TWO_TO_THE_32 && CursorOk(fs.vol, orgClust, fsize, Position())
    }

    /** How many bytes a read of btr bytes can deliver. */
    function Available(btr: nat): nat
      requires fptr <= fsize
      reads this
    {
      if btr <= fsize - fptr then btr else fsize - fptr
    }

    ghost predicate Readable(from: nat, to: nat)
      requires fs.vol.Valid()
    {
      RangeReadable(fs.vol, orgClust, from, to)
    }

    ghost function Bytes(from: nat, to: nat): seq<byte>
      requires fs.vol.Valid() && from <= to && Readable(from, to)
    {
      FileBytes(fs.vol, orgClust, from, to)
    }

    method Read(buff: array<byte>, at: nat, btr: nat) returns (res: FResult, br: nat)
      requires Valid() && buff != fs.win && at + btr <= buff.Length
      modifies this`fptr, this`currClust, this`dsect, this`error, fs, fs.win, buff
      ensures br <= old(Available(btr))
      ensures fptr == old(fptr) + br && Readable(old(fptr), fptr)
      ensures buff[..][at..at + br] == Bytes(old(fptr), fptr)
      ensures Outside(buff[..], old(buff[..]), at, at + btr)
      ensures res == FrOk <==> !old(error) && canRead && Readable(old(fptr), old(fptr + Available(btr)))
      ensures res == FrOk ==> br == old(Available(btr)) && Valid() && !error
      ensures if old(error) || !canRead then br == 0 && error == old(error) else res != FrOk ==> error
      ensures res != FrOk && btr <= SS - old(fptr) % SS ==> br == 0
    {
      hide Volume.Valid, RangeReadable, FileBytes, CursorOk, Outside;
      VolumeBounds(fs.vol);
      RangeEmpty(fs.vol, orgClust, fptr);
      OutsideSelf(buff[..], at, at + btr);
      if error { return FrIntErr, 0; }
      if !canRead { return FrDenied, 0; }
      var left := btr;
      if left > fsize - fptr { left := fsize - fptr; }
      ghost var was := buff[..];
      res, br := Transfer(buff, at, left);
      DeliveredReadable(fs.vol, orgClust, old(fptr), br, was, buff[..], at, at + left);
      OutsideWidens(buff[..], was, at, at + left, at + btr);
    }

    /** The loop of f_read, which delivers n bytes piece by piece. */
    method Transfer(buff: array<byte>, at: nat, n: nat) returns (res: FResult, br: nat)
      requires Valid() && !error && buff != fs.win && at + n <= buff.Length && n <= fsize - fptr
      modifies this`fptr, this`currClust, this`dsect, this`error, fs, fs.win, buff
      ensures br <= n && fptr == old(fptr) + br
      ensures Delivers(fs.vol, orgClust, old(fptr), br, old(buff[..]), buff[..], at, at + n)
      ensures res == FrOk <==> Readable(old(fptr), old(fptr) + n)
      ensures res == FrOk ==> br == n && Valid() && !error
      ensures res != FrOk ==> error && (n <= SS - old(fptr) % SS ==> br == 0)
    {
      hide Volume.Valid, RangeReadable, FileBytes, CursorOk, Outside, Delivers;
      VolumeBounds(fs.vol);
      NothingDelivered(fs.vol, orgClust, fptr, buff[..], at, at + n);
      br := 0;
      var left := n;
      ghost var start, was, within := fptr, buff[..], n <= SS - fptr % SS;
      while left > 0
        invariant 0 <= left && left + br == n && fptr == start + br
        invariant Valid() && !error
        invariant within ==> br == 0 || left == 0
        invariant Delivers(fs.vol, orgClust, start, br, was, buff[..], at, at + n)
      {
        var rcnt;
        ghost var before := buff[..];
        DeliveredReadable(fs.vol, orgClust, start, br, was, before, at, at + n);
        res, rcnt := ReadPiece(buff, at + br, left);
        if res != FrOk {
          DeliveredStays(fs.vol, orgClust, start, br, was, before, buff[..], at, at + n);
          return res, br;
        }
        DeliveredMore(fs.vol, orgClust, start, br, rcnt, was, before, buff[..], at, at + n);
        br, left := br + rcnt, left - rcnt;
      }
      DeliveredReadable(fs.vol, orgClust, start, br, was, buff[..], at, at + n);
      res := FrOk;
    }

    /** A seek to target can be made: the chain is sound as far as it is walked. */
    ghost predicate CanSeek(target: nat)
      requires fs.vol.Valid()
    {
      target == 0 || orgClust == 0 ||
      (&& ChainOk(fs.vol, orgClust, fs.vol.ClusterIndex(target - 1))
       && (target % SS != 0 ==> fs.vol.Located(orgClust, target)))
    }

    method Seek(offset: word) returns (res: FResult)
      requires Valid()
      modifies this`fptr, this`currClust, this`dsect, this`error, fs, fs.win
      ensures var target := if offset > fsize then fsize else offset;
              && (res == FrOk <==> !old(error) && CanSeek(target))
              && (res == FrOk ==> Valid() && !error && fptr == if orgClust == 0 then 0 else target)
      ensures res != FrOk ==> error
    {
      if error { return FrIntErr; }
      var ofs: nat := offset;
      if ofs > fsize { ofs := fsize; }
      res := SeekTo(ofs);
    }

    method SeekTo(target: nat) returns (res: FResult)
      requires Valid() && !error && target <= fsize
      modifies this`fptr, this`currClust, this`dsect, this`error, fs, fs.win
      ensures res == FrOk <==> CanSeek(target)
      ensures res == FrOk ==> Valid() && !error && fptr == if orgClust == 0 then 0 else target
      ensures res != FrOk ==> error
    {
      hide Volume.Valid, Volume.Link, Volume.Nth, CursorOk, ChainOk;
      VolumeBounds(fs.vol);
      if target == 0 {
        fptr := 0;
        CursorAtTop(fs.vol, orgClust, fsize, Position());
        return FrOk;
      }
      var bcs := fs.vol.csize * SS;
      var ofs, clst;
      ghost var k;
      ofs, clst, k := SeekStart(target, bcs);
      if clst == 0 {
        CursorAtTop(fs.vol, orgClust, fsize, Position());
        return FrOk;
      }
      res, ofs, clst, k := FollowChain(target, ofs, clst, bcs, k);
      if res != FrOk { return; }
      fptr := fptr + ofs;
      SeekEnd(fs.vol, bcs, target, k, ofs);
      res := SeekSector(ofs, clst);
    }

    /** The last step of f_lseek: record the sector of a position inside one. */
    method SeekSector(ofs: nat, clst: word) returns (res: FResult)
      requires fs.Valid() && !error && 0 < fptr <= fsize < TWO_TO_THE_32 && orgClust != 0
      requires currClust == clst == fs.vol.Nth(orgClust, fs.vol.ClusterIndex(fptr - 1))
      requires ChainOk(fs.vol, orgClust, fs.vol.ClusterIndex(fptr - 1))
      requires fptr % SS == ofs % SS
      requires fptr % SS != 0 ==> fs.vol.ClusterIndex(fptr) == fs.vol.ClusterIndex(fptr - 1)
      requires fptr % SS != 0 ==> fptr / SS % fs.vol.csize == ofs / SS
      modifies this`dsect, this`error
      ensures res == FrOk <==> (fptr % SS != 0 ==> fs.vol.Located(orgClust, fptr))
      ensures res == FrOk ==> Valid() && !error
      ensures res != FrOk ==> error
    {
      hide Volume.Valid, Volume.Link, Volume.Nth, CursorOk, ChainOk, Volume.ClusterIndex;
      VolumeBounds(fs.vol);
      var nsect := 0;
      if ofs % SS != 0 {
        nsect := fs.Clust2Sect(clst);
        if nsect == 0 {
          error := true;
          return FrIntErr;
        }
        nsect := nsect + ofs / SS;
      }
      if fptr % SS != 0 && nsect != dsect {
        dsect := nsect;
      }
      CursorMade(fs.vol, orgClust, fsize, Position());
      res := FrOk;
    }

    /** Where the walk to ofs begins: the current cluster when the target lies in
        it or beyond, else the first cluster. */
    method SeekStart(ofs: nat, bcs: nat) returns (rest: nat, clst: word, ghost k: nat)
      requires Valid() && 0 < ofs && bcs == fs.vol.csize * SS
      modifies this`fptr, this`currClust
      ensures 0 < rest && fptr == k * bcs && fptr + rest == ofs
      ensures clst == currClust == fs.vol.Nth(orgClust, k) && ChainOk(fs.vol, orgClust, k)
      ensures clst == 0 <==> orgClust == 0
      ensures orgClust == 0 ==> fptr == 0
    {
      hide Volume.Valid, Volume.Link, CursorOk, ChainOk;
      VolumeBounds(fs.vol);
      BytesPerCluster(fs.vol, bcs);
      rest := ofs;
      var ifptr := fptr;
      if ifptr > 0 && (ofs - 1) / bcs >= (ifptr - 1) / bcs {
        CursorFacts(fs.vol, orgClust, fsize, Position());
        ClusterStart(fs.vol, bcs, ifptr - 1, ofs - 1);
        k := (ifptr - 1) / bcs;
        fptr := AndNot(ifptr - 1, bcs - 1);
        rest := ofs - fptr;
        clst := currClust;
      } else {
        k := 0;
        fptr := 0;
        clst := orgClust;
        currClust := clst;
        ChainOkNone(fs.vol, orgClust);
      }
    }

    /** The cluster-following loop of f_lseek. */
    method FollowChain(ghost target: nat, ofs0: nat, clst0: word, bcs: nat, ghost k0: nat)
      returns (res: FResult, ofs: nat, clst: word, ghost k: nat)
      requires fs.Valid() && !error && bcs == fs.vol.csize * SS
      requires 0 < ofs0 && fptr == k0 * bcs && fptr + ofs0 == target
      requires clst0 == currClust == fs.vol.Nth(orgClust, k0) && ChainOk(fs.vol, orgClust, k0)
      modifies this`fptr, this`currClust, this`error, fs, fs.win
      ensures res == FrOk ==> fs.Valid() && !error && 0 < ofs <= bcs
      ensures res == FrOk ==> fptr == k * bcs && fptr + ofs == target
      ensures res == FrOk ==> clst == currClust == fs.vol.Nth(orgClust, k) && ChainOk(fs.vol, orgClust, k)
      ensures res != FrOk ==> error && !ChainOk(fs.vol, orgClust, fs.vol.ClusterIndex(target - 1))
    {
      hide Volume.Valid, Volume.Link, ChainOk;
      VolumeBounds(fs.vol);
      ofs, clst, k := ofs0, clst0, k0;
      while ofs > bcs
        invariant fs.Valid() && !error && 0 < ofs
        invariant fptr == k * bcs && fptr + ofs == target
        invariant clst == currClust == fs.vol.Nth(orgClust, k) && ChainOk(fs.vol, orgClust, k)
      {
        SeekBeyond(fs.vol, bcs, target, k, ofs);
        clst := fs.GetFat(clst);
        if clst == FAT_DISK_ERROR {
          error := true;
          ChainBroken(fs.vol, orgClust, k + 1, fs.vol.ClusterIndex(target - 1));
          return FrDiskErr, ofs, clst, k;
        }
        if clst <= 1 || clst >= fs.vol.nFatent {
          error := true;
          ChainBroken(fs.vol, orgClust, k + 1, fs.vol.ClusterIndex(target - 1));
          return FrIntErr, ofs, clst, k;
        }
        ChainExtend(fs.vol, orgClust, k + 1);
        currClust := clst;
        fptr := fptr + bcs;
        ofs := ofs - bcs;
        assert (k + 1) * bcs == k * bcs + bcs;
        k := k + 1;
      }
      res := FrOk;
    }

    /** One turn of the loop in f_read: a partial sector through the window, or
        as many whole sectors of one cluster as fit. */
    method ReadPiece(buff: array<byte>, at: nat, left: nat) returns (res: FResult, rcnt: nat)
      requires Valid() && !error && buff != fs.win && at + left <= buff.Length
      requires 0 < left <= fsize - fptr
      modifies this`fptr, this`currClust, this`dsect, this`error, fs, fs.win, buff
      ensures res == FrOk ==> 0 < rcnt <= left && fptr == old(fptr) + rcnt && Valid() && !error
      ensures res == FrOk ==> Readable(old(fptr), fptr)
      ensures res == FrOk ==> buff[..][at..at + rcnt] == Bytes(old(fptr), fptr)
      ensures Outside(buff[..], old(buff[..]), at, at + left)
      ensures res != FrOk ==> error && fptr == old(fptr) && !Readable(fptr, fptr + left)
      ensures res == FrOk && left <= SS - old(fptr) % SS ==> rcnt == left
    {
      hide Volume.Valid, RangeReadable, FileBytes, Volume.Link, CursorOk, InCluster, Outside;
      VolumeBounds(fs.vol);
      ghost var before := buff[..];
      OutsideSelf(before, at, at + left);
      if fptr % SS == 0 {
        var sect, csect;
        res, sect, csect := EnterSector();
        if res != FrOk {
          NotLocated(fs.vol, orgClust, fptr, fptr + left);
          return res, 0;
        }
        if left / SS > 0 {
          res, rcnt := ReadRun(buff, at, left, sect, csect);
          return;
        }
        dsect := sect;
      } else {
        InsideSector(fs.vol, orgClust, fsize, Position());
      }
      rcnt := SS - fptr % SS;
      if rcnt > left { rcnt := left; }
      RangeConcat(fs.vol, orgClust, fptr, fptr + rcnt, fptr + left);
      res := ReadPartial(buff, at, rcnt);
      OutsideWidens(buff[..], before, at, at + rcnt, at + left);
    }

    /** As many whole sectors as are wanted, clipped at the cluster boundary. */
    method ReadRun(buff: array<byte>, at: nat, left: nat, sect: nat, csect: nat) returns (res: FResult, rcnt: nat)
      requires fs.Valid() && !error && buff != fs.win && at + left <= buff.Length
      requires fptr % SS == 0 && SS <= left && fptr + left <= fsize < TWO_TO_THE_32
      requires csect == fptr / SS % fs.vol.csize
      requires InCluster(fs.vol, orgClust, fptr, currClust) && sect == fs.vol.SectorOf(orgClust, fptr)
      modifies this`fptr, this`error, buff
      ensures res == FrOk ==> 0 < rcnt <= left && fptr == old(fptr) + rcnt && Valid() && !error
      ensures res == FrOk ==> Readable(old(fptr), fptr)
      ensures res == FrOk ==> buff[..][at..at + rcnt] == Bytes(old(fptr), fptr)
      ensures Outside(buff[..], old(buff[..]), at, at + left)
      ensures res != FrOk ==> error && fptr == old(fptr) && !Readable(fptr, fptr + left)
      ensures res == FrOk && left == SS ==> rcnt == left
    {
      hide Volume.Valid, RangeReadable, FileBytes, Volume.Link, CursorOk, InCluster, Outside, Volume.SectorOf;
      VolumeBounds(fs.vol);
      ghost var before := buff[..];
      var cc := left / SS;
      if csect + cc > fs.vol.csize {
        cc := fs.vol.csize - csect;
      }
      RangeConcat(fs.vol, orgClust, fptr, fptr + SS * cc, fptr + left);
      res := ReadSectors(buff, at, sect, csect, cc);
      OutsideWidens(buff[..], before, at, at + SS * cc, at + left);
      rcnt := SS * cc;
    }

    /** On a sector boundary: move to the next cluster if needed and find the
        sector. */
    method EnterSector() returns (res: FResult, sect: nat, csect: nat)
      requires Valid() && !error && fptr % SS == 0 && fptr < fsize
      modifies this`currClust, this`error, fs, fs.win
      ensures res == FrOk <==> fs.vol.Located(orgClust, fptr)
      ensures res != FrOk ==> error
      ensures res == FrOk ==> !error && fs.Valid()
      ensures res == FrOk ==> csect == fptr / SS % fs.vol.csize
      ensures res == FrOk ==> sect == fs.vol.SectorOf(orgClust, fptr)
      ensures res == FrOk ==> InCluster(fs.vol, orgClust, fptr, currClust)
    {
      hide Volume.Valid, Volume.Link, CursorOk, ChainOk;
      VolumeBounds(fs.vol);
      csect := fs.SectorInCluster(fptr / SS);
      csect := csect % 0x100;
      sect := 0;
      if csect == 0 {
        res := EnterCluster();
        if res != FrOk { return; }
      } else {
        InsideCluster(fs.vol, orgClust, fsize, Position());
      }
      sect := fs.Clust2Sect(currClust);
      if sect == 0 {
        error := true;
        return FrIntErr, sect, csect;
      }
      sect := sect + csect;
      if csect == 0 {
        ChainExtend(fs.vol, orgClust, fs.vol.ClusterIndex(fptr));
      }
      res := FrOk;
    }

    /** On a cluster boundary: follow the chain. */
    method EnterCluster() returns (res: FResult)
      requires Valid() && !error && fptr < fsize && fptr % SS == 0 && fptr / SS % fs.vol.csize == 0
      modifies this`currClust, this`error, fs, fs.win
      ensures fs.vol.Located(orgClust, fptr) ==> res == FrOk
      ensures res == FrOk ==> !error && fs.Valid() && orgClust != 0
      ensures res == FrOk ==> currClust == fs.vol.Nth(orgClust, fs.vol.ClusterIndex(fptr))
      ensures fs.vol.ClusterIndex(fptr) > 0 ==> ChainOk(fs.vol, orgClust, fs.vol.ClusterIndex(fptr) - 1)
      ensures res != FrOk ==> error
    {
      hide Volume.Valid, Volume.Link, CursorOk, ChainOk;
      VolumeBounds(fs.vol);
      var clst := orgClust;
      if fptr != 0 {
        ClusterBoundary(fs.vol, orgClust, fsize, Position());
        clst := fs.GetFat(currClust);
      }
      if clst <= 1 {
        error := true;
        return FrIntErr;
      }
      if clst == FAT_DISK_ERROR {
        error := true;
        return FrDiskErr;
      }
      currClust := clst;
      res := FrOk;
    }

    method ReadSectors(buff: array<byte>, at: nat, sect: nat, csect: nat, cc: nat) returns (res: FResult)
      requires fs.Valid() && !error && buff != fs.win && at + SS * cc <= buff.Length
      requires fptr % SS == 0 && 0 < cc && csect + cc <= fs.vol.csize && fptr + SS * cc <= fsize < TWO_TO_THE_32
      requires csect == fptr / SS % fs.vol.csize
      requires InCluster(fs.vol, orgClust, fptr, currClust) && sect == fs.vol.SectorOf(orgClust, fptr)
      modifies this`fptr, this`error, buff
      ensures res == FrOk ==> fptr == old(fptr) + SS * cc && Valid() && !error
      ensures res == FrOk ==> Readable(old(fptr), fptr)
      ensures res == FrOk ==> buff[..][at..at + SS * cc] == Bytes(old(fptr), fptr)
      ensures Outside(buff[..], old(buff[..]), at, at + SS * cc)
      ensures res != FrOk ==> error && fptr == old(fptr) && !Readable(fptr, fptr + SS * cc)
    {
      hide Volume.Valid, Volume.Link, RangeReadable, FileBytes, CursorOk, InCluster, Outside, Volume.SectorOf;
      VolumeBounds(fs.vol);
      SectorRunReadable(fs.vol, orgClust, fptr, currClust, cc);
      var ok := ReadRaw(buff, at, sect, cc);
      if !ok {
        error := true;
        return FrDiskErr;
      }
      SectorRunBytes(fs.vol, orgClust, fptr, currClust, cc, buff[..][at..at + SS * cc]);
      AfterSectors(fs.vol, orgClust, fsize, Position(), cc);
      fptr := fptr + SS * cc;
      res := FrOk;
    }

    /** disk_read of cc sectors, whose count it takes as a byte. */
    method ReadRaw(buff: array<byte>, at: nat, sect: nat, cc: nat) returns (ok: bool)
      requires at + SS * cc <= buff.Length && cc < 0x100
      modifies buff
      ensures ok <==> fs.vol.disk.Readable(sect, cc)
      ensures Outside(buff[..], old(buff[..]), at, at + SS * cc)
      ensures ok ==> forall i :: 0 <= i < SS * cc ==>
                       buff[..][at..at + SS * cc][i] == fs.vol.disk.sectors[sect + i / SS][i % SS]
    {
      ghost var before := buff[..];
      ok := DiskRead(fs.vol.disk, buff, at, sect, cc % 0x100);
      SameOutside(before, buff[..], at, at + SS * cc);
      if ok {
        forall i | 0 <= i < SS * cc
          ensures buff[..][at..at + SS * cc][i] == fs.vol.disk.sectors[sect + i / SS][i % SS]
        {
          assert buff[..][at..at + SS * cc][i] == buff[at + i];
        }
      }
    }

    method ReadPartial(buff: array<byte>, at: nat, rcnt: nat) returns (res: FResult)
      requires fs.Valid() && !error && buff != fs.win && at + rcnt <= buff.Length
      requires 0 < rcnt <= SS - fptr % SS && fptr + rcnt <= fsize < TWO_TO_THE_32
      requires InCluster(fs.vol, orgClust, fptr, currClust) && dsect == fs.vol.SectorOf(orgClust, fptr)
      modifies this`fptr, this`error, fs, fs.win, buff
      ensures res == FrOk ==> fptr == old(fptr) + rcnt && Valid() && !error
      ensures res == FrOk ==> Readable(old(fptr), fptr)
      ensures res == FrOk ==> buff[..][at..at + rcnt] == Bytes(old(fptr), fptr)
      ensures Outside(buff[..], old(buff[..]), at, at + rcnt)
      ensures res != FrOk ==> error && fptr == old(fptr) && !Readable(fptr, fptr + rcnt)
    {
      hide Volume.Valid, Volume.Link, RangeReadable, FileBytes, CursorOk, InCluster;
      VolumeBounds(fs.vol);
      ghost var before := buff[..];
      OutsideSelf(before, at, at + rcnt);
      PartialReadable(fs.vol, orgClust, fptr, currClust, rcnt);
      var ok := fs.MoveWindow(dsect);
      if !ok {
        error := true;
        return FrDiskErr;
      }
      forall i | 0 <= i < rcnt {
        buff[at + i] := fs.win[fptr % SS + i];
      }
      SameOutside(before, buff[..], at, at + rcnt);
      PartialBytes(fs.vol, orgClust, fptr, currClust, rcnt, buff[..][at..at + rcnt]);
      AfterPartial(fs.vol, orgClust, fsize, Position(), rcnt);
      fptr := fptr + rcnt;
      res := FrOk;
    }
  }

  // ---------- Seeking ----------

  lemma CursorAtTop(v: Volume, org: word, fsize: nat, c: Cursor)
    requires v.Valid() && c.fptr == 0
    ensures CursorOk(v, org, fsize, c)
  {
  }

  lemma CursorFacts(v: Volume, org: word, fsize: nat, c: Cursor)
    requires v.Valid() && CursorOk(v, org, fsize, c) && c.fptr > 0
    ensures org != 0 && c.currClust != 0
    ensures c.currClust == v.Nth(org, v.ClusterIndex(c.fptr - 1)) && ChainOk(v, org, v.ClusterIndex(c.fptr - 1))
  {
    hide Volume.Valid, Volume.Link;
    VolumeBounds(v);
    var k := v.ClusterIndex(c.fptr - 1);
    if k > 0 { assert v.InRange(v.Nth(org, k)); }
  }

  lemma CursorMade(v: Volume, org: word, fsize: nat, c: Cursor)
    requires v.Valid() && 0 < c.fptr <= fsize && org != 0
    requires c.currClust == v.Nth(org, v.ClusterIndex(c.fptr - 1))
    requires ChainOk(v, org, v.ClusterIndex(c.fptr - 1))
    requires c.fptr % SS != 0 ==> v.Located(org, c.fptr) && c.dsect == v.SectorOf(org, c.fptr)
    ensures CursorOk(v, org, fsize, c)
  {
  }

  lemma ChainOkNone(v: Volume, org: word)
    ensures ChainOk(v, org, 0)
  {
  }

  lemma ChainBroken(v: Volume, org: word, j: nat, k: nat)
    requires 1 <= j <= k && !v.InRange(v.Nth(org, j))
    ensures !ChainOk(v, org, k)
  {
  }

  lemma BytesPerCluster(v: Volume, bcs: nat)
    requires v.Valid() && bcs == v.csize * SS
    ensures SS <= bcs <= 128 * SS
  {
  }

  lemma ClusterBytes(v: Volume, bcs: nat, p: nat)
    requires v.Valid() && bcs == v.csize * SS
    ensures bcs > 0 && p / bcs == v.ClusterIndex(p)
    ensures p % bcs == p / SS % v.csize * SS + p % SS
  {
    hide Volume.Valid;
    VolumeBounds(v);
    DivTwice(p, SS, v.csize);
  }

  /** The masking in f_lseek finds the first byte of the current cluster. */
  lemma ClusterStart(v: Volume, bcs: nat, p: nat, q: nat)
    requires v.Valid() && bcs == v.csize * SS && bcs > 0 && q / bcs >= p / bcs
    ensures v.ClusterIndex(p) == p / bcs && AndNot(p, bcs - 1) == p / bcs * bcs <= q
  {
    ClusterBytes(v, bcs, p);
    ClusterIsPower(v, bcs);
    AndMask(p, bcs);
    FloorMultiple(p, q, bcs);
  }

  lemma ClusterIsPower(v: Volume, bcs: nat)
    requires v.Valid() && bcs == v.csize * SS
    ensures IsPowerOfTwo(bcs)
  {
    PowerIsPower(9);
    assert Power2(9) == SS by { Power2Of8(); }
    PowerTimes(v.csize, SS);
  }

  lemma SeekBeyond(v: Volume, bcs: nat, target: nat, k: nat, ofs: nat)
    requires v.Valid() && bcs == v.csize * SS && target == k * bcs + ofs && ofs > bcs
    ensures v.ClusterIndex(target - 1) >= k + 1
  {
    hide Volume.Valid;
    ClusterBytes(v, bcs, target - 1);
    assert (k + 1) * bcs == k * bcs + bcs;
    QuotientAtLeast(target - 1, k + 1, bcs);
  }

  lemma SeekEnd(v: Volume, bcs: nat, target: nat, k: nat, ofs: nat)
    requires v.Valid() && bcs == v.csize * SS && target == k * bcs + ofs && 0 < ofs <= bcs
    ensures v.ClusterIndex(target - 1) == k && target % SS == ofs % SS
    ensures target % SS != 0 ==> v.ClusterIndex(target) == k && target / SS % v.csize == ofs / SS
  {
    hide Volume.Valid, Volume.ClusterIndex;
    ClusterBytes(v, bcs, target - 1);
    DivModUnique(target - 1, bcs, k, ofs - 1);
    SectorMultiple(v.csize, bcs, k, ofs);
    if target % SS != 0 {
      ClusterBytes(v, bcs, target);
      DivModUnique(target, bcs, k, ofs);
    }
  }

  lemma SectorMultiple(csize: nat, bcs: nat, k: nat, ofs: nat)
    requires bcs == csize * SS && ofs <= bcs
    ensures (k * bcs + ofs) % SS == ofs % SS
    ensures ofs % SS != 0 ==> ofs < bcs
  {
    assert k * bcs == (k * csize) * SS;
    var m := k * csize;
    assert (m * SS + ofs) % SS == ofs % SS;
  }

  /** The sectors of a cluster hold consecutive bytes of the file. */
  lemma SectorRun(v: Volume, org: word, p: nat, currClust: word, cc: nat, i: nat)
    requires v.Valid() && InCluster(v, org, p, currClust)
    requires p % SS == 0 && p / SS % v.csize + cc <= v.csize && i < SS * cc
    ensures InCluster(v, org, p + i, currClust)
    ensures v.SectorOf(org, p + i) == v.SectorOf(org, p) + i / SS && (p + i) % SS == i % SS
  {
    hide Volume.Valid, Volume.Link, ChainOk;
    VolumeBounds(v);
    assert (p + i) / SS == p / SS + i / SS;
    SameCluster(p / SS, i / SS, v.csize);
  }

  lemma SectorRunReadable(v: Volume, org: word, p: nat, currClust: word, cc: nat)
    requires v.Valid() && InCluster(v, org, p, currClust)
    requires p % SS == 0 && 0 < cc && p / SS % v.csize + cc <= v.csize
    ensures v.disk.Readable(v.SectorOf(org, p), cc) <==> RangeReadable(v, org, p, p + SS * cc)
  {
    hide Volume.Valid, Volume.Link, ChainOk, Volume.SectorOf;
    VolumeBounds(v);
    var sect := v.SectorOf(org, p);
    forall q | p <= q < p + SS * cc
      ensures v.CanRead(org, q) <==> v.disk.Readable(sect + (q - p) / SS, 1)
    {
      SectorRun(v, org, p, currClust, cc, q - p);
    }
    if v.disk.Readable(sect, cc) {
      assert RangeReadable(v, org, p, p + SS * cc);
    }
    if RangeReadable(v, org, p, p + SS * cc) {
      forall s | sect <= s < sect + cc
        ensures v.disk.Readable(s, 1)
      {
        var q := p + SS * (s - sect);
        assert v.CanRead(org, q) && (q - p) / SS == s - sect;
      }
      assert v.disk.Readable(sect + cc - 1, 1);
      forall s | sect <= s < sect + cc ensures s !in v.disk.bad {
        assert v.disk.Readable(s, 1);
      }
    }
  }

  lemma SectorRunBytes(v: Volume, org: word, p: nat, currClust: word, cc: nat, b: seq<byte>)
    requires v.Valid() && InCluster(v, org, p, currClust)
    requires p % SS == 0 && p / SS % v.csize + cc <= v.csize
    requires RangeReadable(v, org, p, p + SS * cc) && v.disk.Readable(v.SectorOf(org, p), cc)
    requires |b| == SS * cc
    requires forall i :: 0 <= i < SS * cc ==> b[i] == v.disk.sectors[v.SectorOf(org, p) + i / SS][i % SS]
    ensures b == FileBytes(v, org, p, p + SS * cc)
  {
    hide Volume.Valid, Volume.Link, ChainOk, Volume.SectorOf, InCluster;
    VolumeBounds(v);
    forall i | 0 <= i < SS * cc
      ensures v.CanRead(org, p + i) && b[i] == v.FileByte(org, p + i)
    {
      SectorRun(v, org, p, currClust, cc, i);
      assert v.CanRead(org, p + i);
    }
  }

  lemma AfterSectors(v: Volume, org: word, fsize: nat, c: Cursor, cc: nat)
    requires v.Valid() && InCluster(v, org, c.fptr, c.currClust)
    requires c.fptr % SS == 0 && 0 < cc && c.fptr / SS % v.csize + cc <= v.csize
    requires c.fptr + SS * cc <= fsize
    ensures CursorOk(v, org, fsize, c.(fptr := c.fptr + SS * cc))
  {
    hide Volume.Valid, Volume.Link, Volume.Nth;
    VolumeBounds(v);
    SectorRun(v, org, c.fptr, c.currClust, cc, SS * cc - 1);
  }

  lemma SameSector(v: Volume, org: word, p: nat, currClust: word, i: nat)
    requires v.Valid() && InCluster(v, org, p, currClust) && p % SS + i < SS
    ensures InCluster(v, org, p + i, currClust)
    ensures v.SectorOf(org, p + i) == v.SectorOf(org, p) && (p + i) % SS == p % SS + i
  {
    assert (p + i) / SS == p / SS;
  }

  lemma PartialReadable(v: Volume, org: word, p: nat, currClust: word, n: nat)
    requires v.Valid() && InCluster(v, org, p, currClust) && 0 < n <= SS - p % SS
    ensures v.SectorOf(org, p) > 0
    ensures v.disk.Readable(v.SectorOf(org, p), 1) <==> RangeReadable(v, org, p, p + n)
  {
    hide Volume.Valid, Volume.Link, ChainOk;
    VolumeBounds(v);
    ClusterFits(v, currClust);
    forall q | p <= q < p + n
      ensures v.CanRead(org, q) <==> v.disk.Readable(v.SectorOf(org, p), 1)
    {
      SameSector(v, org, p, currClust, q - p);
    }
    assert RangeReadable(v, org, p, p + n) ==> v.CanRead(org, p);
  }

  lemma PartialBytes(v: Volume, org: word, p: nat, currClust: word, n: nat, b: seq<byte>)
    requires v.Valid() && InCluster(v, org, p, currClust) && n <= SS - p % SS
    requires RangeReadable(v, org, p, p + n) && v.disk.Readable(v.SectorOf(org, p), 1)
    requires |b| == n
    requires forall i :: 0 <= i < n ==> b[i] == v.disk.sectors[v.SectorOf(org, p)][p % SS + i]
    ensures b == FileBytes(v, org, p, p + n)
  {
    hide Volume.Valid, Volume.Link, ChainOk, Volume.SectorOf, InCluster;
    VolumeBounds(v);
    forall i | 0 <= i < n
      ensures v.CanRead(org, p + i) && b[i] == v.FileByte(org, p + i)
    {
      SameSector(v, org, p, currClust, i);
      assert v.CanRead(org, p + i);
    }
  }

  lemma AfterPartial(v: Volume, org: word, fsize: nat, c: Cursor, n: nat)
    requires v.Valid() && InCluster(v, org, c.fptr, c.currClust) && 0 < n <= SS - c.fptr % SS
    requires c.dsect == v.SectorOf(org, c.fptr) && c.fptr + n <= fsize
    ensures CursorOk(v, org, fsize, c.(fptr := c.fptr + n))
  {
    hide Volume.Valid, Volume.Link, Volume.Nth;
    VolumeBounds(v);
    SameSector(v, org, c.fptr, c.currClust, n - 1);
    if c.fptr % SS + n < SS {
      SameSector(v, org, c.fptr, c.currClust, n);
    }
  }

  /** A read that has delivered br bytes delivers rcnt more. */
  lemma ReadProgress(v: Volume, org: word, start: nat, br: nat, rcnt: nat,
                     was: seq<byte>, before: seq<byte>, after: seq<byte>, at: nat, end: nat)
    requires v.Valid() && at + br + rcnt <= end
    requires Outside(before, was, at, end) && Outside(after, before, at + br, end)
    requires RangeReadable(v, org, start, start + br)
    requires RangeReadable(v, org, start + br, start + br + rcnt)
    requires before[at..at + br] == FileBytes(v, org, start, start + br)
    requires after[at + br..at + br + rcnt] == FileBytes(v, org, start + br, start + br + rcnt)
    ensures Outside(after, was, at, end)
    ensures RangeReadable(v, org, start, start + br + rcnt)
    ensures after[at..at + br + rcnt] == FileBytes(v, org, start, start + br + rcnt)
  {
    OutsideExtends(was, before, after, at, at + br, at + br + rcnt, end);
    RangeConcat(v, org, start, start + br, start + br + rcnt);
  }

  lemma RangeEmpty(v: Volume, c: word, from: nat)
    requires v.Valid()
    ensures RangeReadable(v, c, from, from) && FileBytes(v, c, from, from) == []
  {
  }

  lemma NotLocated(v: Volume, c: word, from: nat, to: nat)
    requires v.Valid() && from < to && !v.Located(c, from)
    ensures !RangeReadable(v, c, from, to)
  {
    assert !v.CanRead(c, from);
  }

  lemma BackOneSector(p: nat)
    requires p > 0 && p % SS == 0
    ensures p / SS > 0 && (p - 1) / SS == p / SS - 1
  {
  }
}
