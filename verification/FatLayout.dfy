/** A volume seen from what is written on it: links packed into a table, the
    content of a file laid out cluster after cluster, and a directory as the
    file it is. What the reading side makes of such a volume is what was written. */
module FatLayout {
  import opened Words
  import opened FatVolume
  import opened FatFs
  import opened FatDirectory

  // ---------- Sectors one after another ----------

  /** The bytes of n sectors in a row. */
  function Joined(disk: Disk, first: nat, n: nat): (b: seq<byte>)
    requires first + n <= |disk.sectors|
    ensures |b| == SS * n
    decreases n
  {
    if n == 0 then [] else disk.sectors[first] + Joined(disk, first + 1, n - 1)
  }

  lemma {:induction false} JoinedAt(disk: Disk, first: nat, n: nat, p: nat)
    requires first + n <= |disk.sectors| && p < SS * n
    ensures p / SS < n && Joined(disk, first, n)[p] == disk.sectors[first + p / SS][p % SS]
    decreases n
  {
    if p >= SS {
      JoinedAt(disk, first + 1, n - 1, p - SS);
    }
  }

  /** The sectors that hold bytes can be read, and begin with bytes. */
  predicate Holds(disk: Disk, first: nat, bytes: seq<byte>) {
    bytes != [] ==>
      var n := (|bytes| + SS - 1) / SS;
      disk.Readable(first, n) && bytes <= Joined(disk, first, n)
  }

  lemma HeldByte(disk: Disk, first: nat, bytes: seq<byte>, p: nat)
    requires Holds(disk, first, bytes) && p < |bytes|
    ensures disk.Readable(first + p / SS, 1) && disk.sectors[first + p / SS][p % SS] == bytes[p]
  {
    JoinedAt(disk, first, (|bytes| + SS - 1) / SS, p);
  }

  // ---------- The table ----------

  /** The number of values an entry can take. */
  function Limit(t: FatType): nat {
    match t
    case Fat12 => 0x1000
    case Fat16 => 0x1_0000
    case Fat32 => TWO_TO_THE_32
  }

  predicate Links(t: FatType, links: seq<nat>) {
    forall i :: 0 <= i < |links| ==> links[i] < Limit(t)
  }

  /** The table that holds the links: two of 12 bits share three bytes, the others
      lie there with their low byte first. */
  function Packed(t: FatType, links: seq<nat>): (b: seq<byte>)
    requires Links(t, links)
    decreases |links|
  {
    if links == [] then []
    else
      var x := links[0];
      match t
      case Fat12 =>
        if |links| == 1 then [x % 0x100, x / 0x100]
        else
          var y := links[1];
          [x % 0x100, x / 0x100 + 0x10 * (y % 0x10), y / 0x10] + Packed(t, links[2..])
      case Fat16 => [x % 0x100, x / 0x100] + Packed(t, links[1..])
      case Fat32 => Pack32(x) + Packed(t, links[1..])
  }

  lemma {:induction false} Packed12At(links: seq<nat>, c: nat)
    requires Links(Fat12, links) && c < |links|
    ensures var b, p := Packed(Fat12, links), c + c / 2;
            && p + 1 < |b|
            && var w := b[p] as int + 0x100 * b[p + 1] as int;
               links[c] == if c % 2 == 0 then w % 0x1000 else w / 0x10
    decreases c
  {
    if c < 2 {
      Packed12First(links, c);
    } else {
      Packed12Rest(links);
      hide Packed;
      Packed12At(links[2..], c - 2);
    }
  }

  lemma Packed12First(links: seq<nat>, c: nat)
    requires Links(Fat12, links) && c < |links| && c < 2
    ensures var b := Packed(Fat12, links);
            && c + 1 < |b|
            && var w := b[c] as int + 0x100 * b[c + 1] as int;
               links[c] == if c == 0 then w % 0x1000 else w / 0x10
  {
    TwelveBits(links[0], if |links| == 1 then 0 else links[1]);
  }

  /** Two 12-bit numbers in three bytes, taken apart again. */
  lemma TwelveBits(x: nat, y: nat)
    requires x < 0x1000 && y < 0x1000
    ensures var mid := x / 0x100 + 0x10 * (y % 0x10);
            && mid < 0x100 && (y == 0 ==> mid == x / 0x100)
            && x == (x % 0x100 + 0x100 * mid) % 0x1000 && y == (mid + 0x100 * (y / 0x10)) / 0x10
  {
    var mid := x / 0x100 + 0x10 * (y % 0x10);
    DivModUnique(x % 0x100 + 0x100 * mid, 0x1000, y % 0x10, x);
    DivModUnique(mid + 0x100 * (y / 0x10), 0x10, y, x / 0x100);
  }

  lemma Packed12Rest(links: seq<nat>)
    requires Links(Fat12, links) && |links| >= 2
    ensures |Packed(Fat12, links)| >= 3 && Packed(Fat12, links)[3..] == Packed(Fat12, links[2..])
  {
  }

  lemma {:induction false} Packed16At(links: seq<nat>, c: nat)
    requires Links(Fat16, links) && c < |links|
    ensures var b := Packed(Fat16, links);
            2 * c + 1 < |b| && links[c] == b[2 * c] as int + 0x100 * b[2 * c + 1] as int
    decreases c
  {
    if c >= 1 {
      Packed16At(links[1..], c - 1);
    }
  }

  lemma {:induction false} Packed32At(links: seq<nat>, c: nat)
    requires Links(Fat32, links) && c < |links|
    ensures var b := Packed(Fat32, links); 4 * c + 4 <= |b| && links[c] == Le32(b, 4 * c)
    decreases c
  {
    if c == 0 {
      Le32OfPack32(links[0]);
      assert Packed(Fat32, links)[..4] == Pack32(links[0]);
    } else {
      Packed32At(links[1..], c - 1);
      assert Packed(Fat32, links)[4..] == Packed(Fat32, links[1..]);
    }
  }

  /** The table of the volume holds the links. */
  predicate TableHolds(v: Volume, links: seq<nat>) {
    Links(v.fatType, links) && Holds(v.disk, v.fatbase, Packed(v.fatType, links))
  }

  /** The link as get_fat returns it: of 32 bits, the low 28. */
  function Stored(t: FatType, link: nat): nat {
    if t == Fat32 then link % 0x1000_0000 else link
  }

  /** Whatever links a table holds, looking one up gives it back. */
  lemma LinkStored(v: Volume, links: seq<nat>, c: nat)
    requires TableHolds(v, links) && v.InRange(c) && c < |links|
    ensures v.Link(c) == Stored(v.fatType, links[c])
  {
    hide Holds, Packed;
    var b := Packed(v.fatType, links);
    match v.fatType
    case Fat12 =>
      Packed12At(links, c);
      TableBytes2(v, b, c + c / 2);
    case Fat16 =>
      Packed16At(links, c);
      TableBytes2(v, b, 2 * c);
    case Fat32 =>
      Packed32At(links, c);
      TableBytes2(v, b, 4 * c);
      TableBytes2(v, b, 4 * c + 2);
  }

  lemma TableBytes2(v: Volume, b: seq<byte>, p: nat)
    requires Holds(v.disk, v.fatbase, b) && p + 1 < |b|
    ensures v.FatReadable(p) && v.FatReadable(p + 1)
    ensures v.FatByte(p) == b[p] && v.FatByte(p + 1) == b[p + 1]
  {
    hide Holds;
    HeldByte(v.disk, v.fatbase, b, p);
    HeldByte(v.disk, v.fatbase, b, p + 1);
  }

  // ---------- A file ----------

  /** content lies in the clusters of the chain, each filled before the next. */
  predicate Laid(v: Volume, chain: seq<word>, content: seq<byte>)
    requires v.csize > 0
    decreases |chain|
  {
    content == [] ||
    (&& chain != [] && v.InRange(chain[0])
     && var n := if |content| < SS * v.csize then |content| else SS * v.csize;
        Holds(v.disk, v.ClusterSector(chain[0]), content[..n]) && Laid(v, chain[1..], content[n..]))
  }

  /** The table leads from each cluster of the chain to the next. */
  predicate Chained(v: Volume, links: seq<nat>, chain: seq<word>) {
    forall k :: 0 <= k < |chain| ==>
                  && v.InRange(chain[k]) && chain[k] < |links|
                  && (k + 1 < |chain| ==> Stored(v.fatType, links[chain[k]]) == chain[k + 1])
  }

  lemma {:induction false} ChainFollowed(v: Volume, links: seq<nat>, chain: seq<word>, k: nat)
    requires TableHolds(v, links) && Chained(v, links, chain) && k < |chain|
    ensures v.Nth(chain[0], k) == chain[k]
  {
    if k > 0 {
      hide TableHolds, Volume.Link;
      ChainFollowed(v, links, chain, k - 1);
      LinkStored(v, links, chain[k - 1]);
    }
  }

  /** Byte p of a file is in cluster p / (bytes of a cluster) of its chain. */
  lemma {:induction false} LaidByte(v: Volume, chain: seq<word>, content: seq<byte>, p: nat)
    requires v.csize > 0 && Laid(v, chain, content) && p < |content|
    ensures var k := v.ClusterIndex(p);
            && k < |chain| && v.InRange(chain[k])
            && var sect := v.ClusterSector(chain[k]) + p / SS % v.csize;
               v.disk.Readable(sect, 1) && v.disk.sectors[sect][p % SS] == content[p]
    decreases |chain|
  {
    hide Holds;
    var size := SS * v.csize;
    var n := if |content| < size then |content| else size;
    if p < n {
      FirstCluster(p, v.csize);
      HeldByte(v.disk, v.ClusterSector(chain[0]), content[..n], p);
    } else {
      LaterCluster(p, v.csize);
      LaidByte(v, chain[1..], content[n..], p - size);
    }
  }

  lemma FirstCluster(p: nat, csize: nat)
    requires csize > 0 && p < SS * csize
    ensures p / SS / csize == 0 && p / SS % csize == p / SS
  {
    DivModUnique(p / SS, csize, 0, p / SS);
  }

  lemma LaterCluster(p: nat, csize: nat)
    requires csize > 0 && p >= SS * csize
    ensures var q := p - SS * csize;
            p / SS / csize == q / SS / csize + 1 && p / SS % csize == q / SS % csize && p % SS == q % SS
  {
    var q := p - SS * csize;
    var s, t := q / SS, q % SS;
    DivModUnique(p, SS, s + csize, t);
    assert s == s / csize * csize + s % csize;
    assert (s / csize + 1) * csize == s / csize * csize + csize;
    DivModUnique(s + csize, csize, s / csize + 1, s % csize);
  }

  /** For every table, chain and content: a file written along the chain reads back
      as its content, from the first byte to the last. */
  lemma FileStored(v: Volume, links: seq<nat>, chain: seq<word>, content: seq<byte>)
    requires v.csize > 0 && chain != []
    requires TableHolds(v, links) && Chained(v, links, chain) && Laid(v, chain, content)
    ensures RangeReadable(v, chain[0], 0, |content|)
    ensures FileBytes(v, chain[0], 0, |content|) == content
  {
    forall p | 0 <= p < |content|
      ensures v.CanRead(chain[0], p) && v.FileByte(chain[0], p) == content[p]
    {
      hide TableHolds, Laid;
      LaidByte(v, chain, content, p);
      ChainFollowed(v, links, chain, v.ClusterIndex(p));
    }
  }

  // ---------- A directory ----------

  /** Entry idx of a table in clusters is bytes 32 * idx to 32 * idx + 31 of the
      table read as a file. */
  lemma EntryIsSlice(v: Volume, start: word, idx: nat, j: nat)
    requires v.csize > 0 && j < 32 && start != 0 && v.Located(start, 32 * idx)
    ensures v.Located(start, 32 * idx + j)
    ensures var place := PlaceOf(v, start, idx);
            place.sect == v.SectorOf(start, 32 * idx + j) && place.offset + j == (32 * idx + j) % SS
  {
    var q, r := idx / 16, idx % 16;
    DivModUnique(32 * idx + j, SS, q, 32 * r + j);
    DivModUnique(32 * idx, SS, q, 32 * r);
  }

  /** Entry idx of the fixed root table is the same slice of its sectors. */
  lemma RootEntryIsSlice(v: Volume, idx: nat, j: nat, n: nat)
    requires v.csize > 0 && j < 32 && idx < SS / 32 * n && v.dirbase + n <= |v.disk.sectors|
    ensures var place := PlaceOf(v, 0, idx);
            && place.sect < |v.disk.sectors| && place.offset + j < SS && 32 * idx + j < SS * n
            && Joined(v.disk, v.dirbase, n)[32 * idx + j] == v.disk.sectors[place.sect][place.offset + j]
  {
    var q, r := idx / 16, idx % 16;
    DivModUnique(32 * idx + j, SS, q, 32 * r + j);
    JoinedAt(v.disk, v.dirbase, n, 32 * idx + j);
  }
}
