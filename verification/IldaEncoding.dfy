/** The ILDA records of formats 0, 1, 4 and 5 as they are written, and what the
    player makes of them. */
module IldaEncoding {
  import opened Words
  import opened FatVolume
  import opened FatFs
  import opened IldaFormat
  import opened IldaPlayer

  /** What a record says of a point. Bit 6 of the status blanks it, bit 7 marks the
      last point of a frame. A record has an index or the colours, by its format. */
  datatype Sample = Sample(x: half, y: half, z: half, status: byte, index: byte, r: byte, g: byte, b: byte) {
    predicate Blank() {
      status / 0x40 % 2 == 1
    }
  }

  function BigEndian(h: half): seq<byte> {
    [h / 0x100, h % 0x100]
  }

  function CodeOf(f: Format): byte {
    match f
    case Palette3D => 0
    case Palette2D => 1
    case True3D => 4
    case True2D => 5
  }

  /** The record of a point. */
  function Encode(f: Format, p: Sample): (s: seq<byte>)
    ensures |s| == PointSize(f)
  {
    var place2, place3 := BigEndian(p.x) + BigEndian(p.y), BigEndian(p.x) + BigEndian(p.y) + BigEndian(p.z);
    match f
    case Palette3D => place3 + [p.status, p.index]
    case Palette2D => place2 + [p.status, p.index]
    case True3D => place3 + [p.status, p.b, p.g, p.r]
    case True2D => place2 + [p.status, p.b, p.g, p.r]
  }

  /** d is a point at the place of p with the given colours, and the intensity of
      the brightest. */
  predicate Shows(d: DacPoint, p: Sample, r: nat, g: nat, b: nat) {
    && d.x == p.x && d.y == p.y && d.control == d.u1 == d.u2 == 0
    && d.r == r * 0x100 && d.g == g * 0x100 && d.b == b * 0x100
    && d.i >= d.r && d.i >= d.g && d.i >= d.b && (d.i == d.r || d.i == d.g || d.i == d.b)
  }

  /** The palette entry a record names. Status bits other than blanking are read as
      part of the number, and a number past the palette stands for its last entry. */
  function EntryOf(p: Sample, palette: seq<byte>): (e: nat)
    requires |palette| >= 3
    ensures 3 * e + 2 < |palette|
  {
    var n, number := |palette| / 3, 0x100 * p.status + p.index;
    if number < n then number else n - 1
  }

  /** What the player ought to make of the record of p. */
  predicate Reads(d: DacPoint, f: Format, p: Sample, palette: seq<byte>)
    requires |palette| >= 3
  {
    if p.Blank() then Shows(d, p, 0, 0, 0)
    else if f == True3D || f == True2D then Shows(d, p, p.r, p.g, p.b)
    else var e := 3 * EntryOf(p, palette); Shows(d, p, palette[e], palette[e + 1], palette[e + 2])
  }

  /** For every point and format, reading its record gives back the point. */
  lemma PointRead(f: Format, p: Sample, palette: seq<byte>)
    requires |palette| >= 3
    ensures Reads(Decode(f, palette, Encode(f, p)), f, p, palette)
  {
    hide Encode, PalettePoint, TruePoint, Shows;
    PlaceRead(f, p);
    ColourRead(f, p);
    match f
    case Palette3D => PaletteRead(p, palette);
    case Palette2D => PaletteRead(p, palette);
    case _ => TrueRead(p);
  }

  lemma PlaceRead(f: Format, p: Sample)
    ensures var s := Encode(f, p); Be16(s, 0) == p.x && Be16(s, 2) == p.y
  {
  }

  /** Where a record has its colours. */
  lemma ColourRead(f: Format, p: Sample)
    ensures var s := Encode(f, p);
            match f
            case Palette3D => Be16(s, 6) == 0x100 * p.status + p.index
            case Palette2D => Be16(s, 4) == 0x100 * p.status + p.index
            case True3D => s[6] == p.status && s[7] == p.b && s[8] == p.g && s[9] == p.r
            case True2D => s[4] == p.status && s[5] == p.b && s[6] == p.g && s[7] == p.r
  {
  }

  lemma PaletteRead(p: Sample, palette: seq<byte>)
    requires |palette| >= 3
    ensures Reads(PalettePoint(p.x, p.y, 0x100 * p.status + p.index, palette), Palette2D, p, palette)
  {
    assert (0x100 * p.status + p.index) / 0x4000 == p.status / 0x40;
  }

  lemma TrueRead(p: Sample)
    ensures var d := TruePoint(p.x, p.y, p.r, p.g, p.b, p.status);
            if p.Blank() then Shows(d, p, 0, 0, 0) else Shows(d, p, p.r, p.g, p.b)
  {
  }

  /** With a palette of at most 256 entries, as both of the player's are, a record
      names the entry of its index exactly when no status bit is set, or its index
      is that of the last entry anyway. So the last point of a frame, if it is lit,
      has the last colour. */
  lemma IndexExact(p: Sample, palette: seq<byte>)
    requires 3 <= |palette| <= 768 && p.index < |palette| / 3
    ensures EntryOf(p, palette) == p.index <==> p.status == 0 || p.index == |palette| / 3 - 1
  {
  }

  // ---------- Frames ----------

  /** The 32 bytes in front of n points: names, the number of points, and what the
      player skips. */
  predicate IsHeader(h: seq<byte>, f: Format, n: nat) {
    && |h| == 32 && n < 0x1_0000
    && h[..7] == [0x49, 0x4C, 0x44, 0x41, 0, 0, 0] && h[7] == CodeOf(f) && h[24..26] == BigEndian(n)
  }

  function Records(f: Format, pts: seq<Sample>): (s: seq<byte>)
    ensures |s| == |pts| * PointSize(f)
  {
    if pts == [] then [] else Encode(f, pts[0]) + Records(f, pts[1..])
  }

  lemma {:induction false} RecordAt(f: Format, pts: seq<Sample>, k: nat)
    requires k < |pts|
    ensures (k + 1) * PointSize(f) <= |pts| * PointSize(f)
    ensures Records(f, pts)[k * PointSize(f)..k * PointSize(f) + PointSize(f)] == Encode(f, pts[k])
    decreases k
  {
    hide Encode, PointSize;
    var size, s := PointSize(f), Records(f, pts);
    MulAtLeast(|pts|, k + 1, size);
    if k == 0 {
      assert s[..size] == Encode(f, pts[0]);
    } else {
      var at := (k - 1) * size;
      RecordAt(f, pts[1..], k - 1);
      assert k * size == at + size;
      SliceBehind(Encode(f, pts[0]), Records(f, pts[1..]), at, at + size);
    }
  }

  lemma SliceBehind(a: seq<byte>, b: seq<byte>, from: nat, to: nat)
    requires from <= to <= |b|
    ensures (a + b)[|a| + from..|a| + to] == b[from..to]
  {
  }

  /** The header is recognised, with its format and number of points; one without
      points ends the file. */
  lemma HeaderRead(h: seq<byte>, f: Format, n: nat)
    requires IsHeader(h, f, n)
    ensures ParseHeader(h) == if n > 0 then Header(f, n) else NoHeader
    ensures EmptyHeader(h) <==> n == 0
  {
    assert Be16(h, 24) == Be16(h[24..26], 0) == n;
  }

  /** The file holds a frame of the points from byte start on. */
  ghost predicate FrameStored(v: Volume, org: word, start: nat, f: Format, pts: seq<Sample>)
    requires v.csize > 0
  {
    var end := start + HEADER_SIZE + |pts| * PointSize(f);
    && RangeReadable(v, org, start, end)
    && IsHeader(FileBytes(v, org, start, start + HEADER_SIZE), f, |pts|)
    && FileBytes(v, org, start + HEADER_SIZE, end) == Records(f, pts)
  }

  /** Whatever the points, the frame read from where they were written is theirs. */
  lemma FrameRead(v: Volume, org: word, start: nat, f: Format, pts: seq<Sample>, palette: seq<byte>, k: nat)
    requires v.csize > 0 && |palette| >= 3 && FrameStored(v, org, start, f, pts) && k < |pts|
    ensures Reads(FrameAt(v, org, f, palette, start + HEADER_SIZE, |pts|)[k], f, pts[k], palette)
  {
    hide Decode, Encode, Reads, FileBytes;
    var size, from := PointSize(f), start + HEADER_SIZE;
    RecordAt(f, pts, k);
    RangeConcat(v, org, start, from, from + |pts| * size);
    PointInBytes(v, org, f, palette, from, 0, |pts|, k, Records(f, pts));
    PointRead(f, pts[k], palette);
  }

  /** What a stored frame means to the reading side: its header announces it, and all
      of it is there. */
  lemma StoredFrame(player: Player, start: nat, f: Format, pts: seq<Sample>)
    requires player.Basics() && player.file.Valid() && player.file.canRead && pts != []
    requires FrameStored(player.file.fs.vol, player.file.orgClust, start, f, pts)
    requires start + HEADER_SIZE + |pts| * PointSize(f) <= player.file.fsize
    ensures player.HeaderAt(start) == Header(f, |pts|)
    ensures forall n :: 0 <= n <= |pts| ==>
              var end := start + HEADER_SIZE + n * PointSize(f);
              end <= player.file.fsize && player.file.Readable(start + HEADER_SIZE, end)
  {
    hide ParseHeader, PointSize, Volume.CanRead;
    RangeConcat(player.file.fs.vol, player.file.orgClust, start, start + HEADER_SIZE,
                start + HEADER_SIZE + |pts| * PointSize(f));
    HeaderRead(FileBytes(player.file.fs.vol, player.file.orgClust, start, start + HEADER_SIZE), f, |pts|);
    forall n | 0 <= n <= |pts|
      ensures n * PointSize(f) <= |pts| * PointSize(f)
    {
      MulAtLeast(|pts|, n, PointSize(f));
    }
  }

  /** The player in front of a stored frame. Every request is met; frame is what the
      points of the record come to, and it is played as RequestConserves has it. */
  method PlayStored(player: Player, request: nat, pp: array<DacPoint>, ghost f: Format, ghost pts: seq<Sample>)
    returns (n: int, ghost p: Play)
    requires player.Between() && request <= pp.Length && pts != [] && player.file.canRead
    requires FrameStored(player.file.fs.vol, player.file.orgClust, player.file.fptr, f, pts)
    requires player.file.fptr + HEADER_SIZE + |pts| * PointSize(f) <= player.file.fsize
    modifies player, player.cache, pp, player.file, player.file.fs, player.file.fs.win
    ensures |p.frame| == |pts| && forall k :: 0 <= k < |pts| ==> Reads(p.frame[k], f, pts[k], player.palette)
    ensures p.Valid() && p.pos == 0 && player.Served(n, pp[..], request, p)
  {
    hide Player.Playing, Player.Served, Player.HeaderAt, FrameStored, Reads, RangeReadable, CursorOk, PointSize;
    ghost var v, org, start := player.file.fs.vol, player.file.orgClust, player.file.fptr;
    StoredFrame(player, start, f, pts);
    p := player.Announced(Header(f, |pts|), start, player.offset);
    forall k | 0 <= k < |pts|
      ensures Reads(p.frame[k], f, pts[k], player.palette)
    {
      FrameRead(v, org, start, f, pts, player.palette, k);
    }
    n := player.ReadPoints(request, pp);
  }
}
