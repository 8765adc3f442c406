/** The ILDA point formats of firmware/file/ild-player.c, the small-frame cache,
    and what playing a frame means. */
module IldaFormat {
  import opened Words
  import opened FatVolume

  const SMALL_FRAME_THRESHOLD: nat := 200
  const ILDA_MAX_POINTS_PER_LOOP: nat := 25

  type half = h: int | 0 <= h < 0x1_0000

  /** What is handed to dac_pack_point. */
  datatype DacPoint = DacPoint(
    control: half, x: half, y: half, r: half, g: half, b: half, i: half, u1: half, u2: half)

  datatype Format = Palette3D | Palette2D | True3D | True2D

  /** Format codes 0, 1, 4 and 5 of the frame header. */
  function FormatOf(code: byte): (f: FormatOption) {
    match code
    case 0 => SomeFormat(Palette3D)
    case 1 => SomeFormat(Palette2D)
    case 4 => SomeFormat(True3D)
    case 5 => SomeFormat(True2D)
    case _ => NoFormat
  }

  datatype FormatOption = NoFormat | SomeFormat(format: Format)

  function PointSize(f: Format): nat {
    match f
    case Palette3D => 8
    case Palette2D => 6
    case True3D => 10
    case True2D => 8
  }

  function Be16(s: seq<byte>, i: nat): half
    requires i + 2 <= |s|
  {
    s[i] as int * 0x100 + s[i + 1] as int
  }

  function Max3(a: int, b: int, c: int): int {
    var m := if b > a then b else a;
    if c > m then c else m
  }

  /** A point whose colours are bytes, with the intensity of the brightest. */
  function Coloured(x: half, y: half, r: byte, g: byte, b: byte): DacPoint {
    DacPoint(0, x, y, r * 0x100, g * 0x100, b * 0x100, Max3(r, g, b) * 0x100, 0, 0)
  }

  function Blanked(x: half, y: half): DacPoint {
    DacPoint(0, x, y, 0, 0, 0, 0, 0, 0)
  }

  function PalettePoint(x: half, y: half, color: half, palette: seq<byte>): DacPoint
    requires |palette| >= 3
  {
    if color / 0x4000 % 2 == 1 then Blanked(x, y)
    else
      var size := |palette| / 3;
      var c: int := if color >= size then size - 1 else color;
      Coloured(x, y, palette[3 * c], palette[3 * c + 1], palette[3 * c + 2])
  }

  function TruePoint(x: half, y: half, r: byte, g: byte, b: byte, flags: byte): DacPoint {
    if flags / 0x40 % 2 == 1 then Blanked(x, y) else Coloured(x, y, r, g, b)
  }

  /** The point encoded by the bytes s. */
  function Decode(f: Format, palette: seq<byte>, s: seq<byte>): DacPoint
    requires |palette| >= 3 && |s| == PointSize(f)
  {
    var x, y := Be16(s, 0), Be16(s, 2);
    match f
    case Palette3D => PalettePoint(x, y, Be16(s, 6), palette)
    case Palette2D => PalettePoint(x, y, Be16(s, 4), palette)
    case True3D => TruePoint(x, y, s[9], s[8], s[7], s[6])
    case True2D => TruePoint(x, y, s[7], s[6], s[5], s[4])
  }

  // ---------- The small-frame cache ----------

  datatype Saved = Saved(x: half, y: half, i: byte, r: byte, g: byte, b: byte)

  function Save(p: DacPoint): Saved {
    Saved(p.x, p.y, p.i / 0x100, p.r / 0x100, p.g / 0x100, p.b / 0x100)
  }

  function Restore(s: Saved): DacPoint {
    DacPoint(0, s.x, s.y, s.r * 0x100, s.g * 0x100, s.b * 0x100, s.i * 0x100, 0, 0)
  }

  /** The cache loses nothing of a decoded point: its colours are whole bytes. */
  lemma CacheLossless(f: Format, palette: seq<byte>, s: seq<byte>)
    requires |palette| >= 3 && |s| == PointSize(f)
    ensures Restore(Save(Decode(f, palette, s))) == Decode(f, palette, s)
  {
    hide Restore, Save, PalettePoint, TruePoint, Be16;
    var x, y := Be16(s, 0), Be16(s, 2);
    match f
    case Palette3D => PaletteLossless(x, y, Be16(s, 6), palette);
    case Palette2D => PaletteLossless(x, y, Be16(s, 4), palette);
    case True3D => TrueLossless(x, y, s[9], s[8], s[7], s[6]);
    case True2D => TrueLossless(x, y, s[7], s[6], s[5], s[4]);
  }

  lemma PaletteLossless(x: half, y: half, color: half, palette: seq<byte>)
    requires |palette| >= 3
    ensures Restore(Save(PalettePoint(x, y, color, palette))) == PalettePoint(x, y, color, palette)
  {
  }

  lemma TrueLossless(x: half, y: half, r: byte, g: byte, b: byte, flags: byte)
    ensures Restore(Save(TruePoint(x, y, r, g, b, flags))) == TruePoint(x, y, r, g, b, flags)
  {
  }

  // ---------- Playing a frame ----------

  /** A frame being played: pos points of the current pass are out, and reps
      passes remain, the current one included. */
  datatype Play = Play(frame: seq<DacPoint>, pos: nat, reps: nat) {
    predicate Valid() {
      pos < |frame| && reps > 0
    }
  }

  function Repeat(frame: seq<DacPoint>, n: nat): seq<DacPoint> {
    if n == 0 then [] else frame + Repeat(frame, n - 1)
  }

  /** Everything still to come. */
  function Remaining(p: Play): seq<DacPoint>
    requires p.Valid()
  {
    p.frame[p.pos..] + Repeat(p.frame, p.reps - 1)
  }

  datatype PlayOption = Done | Playing(play: Play)

  function Left(p: PlayOption): seq<DacPoint>
    requires p.Playing? ==> p.play.Valid()
  {
    if p.Done? then [] else Remaining(p.play)
  }

  /** How many points one request delivers. */
  function Count(p: Play, request: nat): (n: nat)
    requires p.Valid()
    ensures p.pos + n <= |p.frame| && n <= request && (request > 0 ==> n > 0)
  {
    var left := |p.frame| - p.pos;
    var n := if request > left then left else request;
    if n > ILDA_MAX_POINTS_PER_LOOP then ILDA_MAX_POINTS_PER_LOOP else n
  }

  function Output(p: Play, request: nat): seq<DacPoint>
    requires p.Valid()
  {
    p.frame[p.pos..p.pos + Count(p, request)]
  }

  function After(p: Play, request: nat): (q: PlayOption)
    requires p.Valid()
    ensures q.Playing? ==> q.play.Valid()
  {
    var pos := p.pos + Count(p, request);
    if pos < |p.frame| then Playing(p.(pos := pos))
    else if p.reps == 1 then Done
    else Playing(p.(pos := 0, reps := p.reps - 1))
  }

  /** No request drops, adds or reorders points. */
  lemma RequestConserves(p: Play, request: nat)
    requires p.Valid()
    ensures Output(p, request) + Left(After(p, request)) == Remaining(p)
  {
    hide Count;
    var n := Count(p, request);
    var out := p.frame[p.pos..p.pos + n];
    if p.pos + n < |p.frame| {
      hide Repeat;
      assert p.frame[p.pos..] == out + p.frame[p.pos + n..];
      ConcatAssociates(out, p.frame[p.pos + n..], Repeat(p.frame, p.reps - 1));
    } else {
      assert p.frame[p.pos..] == out;
      NextPass(p.frame, p.reps);
    }
  }

  lemma NextPass(frame: seq<DacPoint>, reps: nat)
    requires reps > 0
    ensures Repeat(frame, reps - 1) == if reps == 1 then [] else frame[0..] + Repeat(frame, reps - 2)
  {
    assert frame[0..] == frame;
  }

  function Outputs(p: PlayOption, requests: seq<nat>): seq<DacPoint>
    requires p.Playing? ==> p.play.Valid()
    decreases |requests|
  {
    if p.Done? || requests == [] then []
    else Output(p.play, requests[0]) + Outputs(After(p.play, requests[0]), requests[1..])
  }

  function AfterAll(p: PlayOption, requests: seq<nat>): (q: PlayOption)
    requires p.Playing? ==> p.play.Valid()
    ensures q.Playing? ==> q.play.Valid()
    decreases |requests|
  {
    if p.Done? || requests == [] then p else AfterAll(After(p.play, requests[0]), requests[1..])
  }

  lemma {:induction false} RequestsConserve(p: PlayOption, requests: seq<nat>)
    requires p.Playing? ==> p.play.Valid()
    ensures Outputs(p, requests) + Left(AfterAll(p, requests)) == Left(p)
    decreases |requests|
  {
    if p.Playing? && requests != [] {
      var q := After(p.play, requests[0]);
      RequestConserves(p.play, requests[0]);
      RequestsConserve(q, requests[1..]);
      assert Outputs(p, requests) + Left(AfterAll(p, requests))
          == Output(p.play, requests[0]) + (Outputs(q, requests[1..]) + Left(AfterAll(q, requests[1..])));
    }
  }

  /** Whatever the requests, once a frame is over exactly reps copies of it have
      been delivered, and enough requests of at least one point finish it. */
  lemma FramePlayed(frame: seq<DacPoint>, reps: nat, requests: seq<nat>)
    requires frame != [] && reps > 0
    ensures var p := Playing(Play(frame, 0, reps));
            && (AfterAll(p, requests).Done? ==> Outputs(p, requests) == Repeat(frame, reps))
            && ((forall k :: 0 <= k < |requests| ==> requests[k] >= 1) && |requests| >= reps * |frame|
                ==> AfterAll(p, requests).Done?)
  {
    hide Outputs, AfterAll, Repeat;
    var p := Playing(Play(frame, 0, reps));
    RequestsConserve(p, requests);
    AllPasses(frame, reps);
    assert Outputs(p, requests) + [] == Outputs(p, requests);
    if (forall k :: 0 <= k < |requests| ==> requests[k] >= 1) && |requests| >= reps * |frame| {
      RepeatLength(frame, reps);
      RequestsFinish(p, requests);
    }
  }

  lemma AllPasses(frame: seq<DacPoint>, reps: nat)
    requires frame != [] && reps > 0
    ensures Remaining(Play(frame, 0, reps)) == Repeat(frame, reps)
  {
    assert frame[0..] == frame;
  }

  lemma {:induction false} RepeatLength(frame: seq<DacPoint>, n: nat)
    ensures |Repeat(frame, n)| == n * |frame|
  {
    if n > 0 {
      RepeatLength(frame, n - 1);
      assert n * |frame| == (n - 1) * |frame| + |frame|;
    }
  }

  lemma {:induction false} RequestsFinish(p: PlayOption, requests: seq<nat>)
    requires p.Playing? ==> p.play.Valid()
    requires forall k :: 0 <= k < |requests| ==> requests[k] >= 1
    requires |requests| >= |Left(p)|
    ensures AfterAll(p, requests).Done?
    decreases |requests|
  {
    if p.Playing? {
      assert requests[0] >= 1;
      RequestConserves(p.play, requests[0]);
      RequestsFinish(After(p.play, requests[0]), requests[1..]);
    }
  }

  // ---------- Frames in a file ----------

  /** Point k of the frame whose data begins at byte start of a file. */
  ghost function PointAt(v: Volume, org: word, f: Format, palette: seq<byte>, start: nat, k: nat): DacPoint
    requires v.csize > 0 && |palette| >= 3
  {
    var from := start + k * PointSize(f);
    if RangeReadable(v, org, from, from + PointSize(f))
    then Decode(f, palette, FileBytes(v, org, from, from + PointSize(f)))
    else Blanked(0, 0)
  }

  ghost function FrameAt(v: Volume, org: word, f: Format, palette: seq<byte>, start: nat, n: nat): (s: seq<DacPoint>)
    requires v.csize > 0 && |palette| >= 3
    ensures |s| == n
    ensures forall k :: 0 <= k < n ==> s[k] == PointAt(v, org, f, palette, start, k)
  {
    seq(n, k requires 0 <= k < n => PointAt(v, org, f, palette, start, k))
  }
}
