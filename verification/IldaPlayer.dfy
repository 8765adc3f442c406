/** firmware/file/ild-player.c: playing ILDA frames from the card, repeated from
    the small-frame cache or by putting the file position back. */
module IldaPlayer {
  import opened Words
  import opened FatVolume
  import opened FatFs
  import opened IldaFormat
  import IldaPacing

  datatype PlayerState = BetweenFrames | SmallFrame | Ilda(format: Format) | Unsupported(code: byte)

  datatype HeaderResult = FrameReady | EndOfFile | WavFile | Failed

  const HEADER_SIZE: nat := 32

  const SIGNATURE: seq<byte> := [0x49, 0x4C, 0x44, 0x41, 0, 0, 0]

  /** The first bytes of a WAV file. */
  const RIFF: seq<byte> := [0x52, 0x49, 0x46, 0x46]

  datatype HeaderOption = NoHeader | Header(format: Format, npoints: nat)

  /** What a 32-byte frame header says, if the player accepts it. */
  function ParseHeader(h: seq<byte>): HeaderOption
    requires |h| == HEADER_SIZE
  {
    if h[..7] == SIGNATURE && FormatOf(h[7]).SomeFormat? && Be16(h, 24) > 0
    then Header(FormatOf(h[7]).format, Be16(h, 24))
    else NoHeader
  }

  /** A frame header that announces no points. */
  predicate EmptyHeader(h: seq<byte>)
    requires |h| == HEADER_SIZE
  {
    h[..7] == SIGNATURE && FormatOf(h[7]).SomeFormat? && Be16(h, 24) == 0
  }

  class Player {
    const file: File
    const cache: array<Saved>
    const palette: seq<byte>
    var state: PlayerState
    var pointsLeft: nat
    var repeatCount: int
    var offset: int
    var frameStart: Cursor
    var framePointcount: nat
    var pointsPerFrame: int
    ghost var frame: seq<DacPoint> // the decoded points of the current frame

    constructor (file: File, palette: seq<byte>)
      requires file.Valid() && !file.error && |palette| >= 3
      ensures Between() && offset == 0 && this.file == file && this.palette == palette && fresh(cache)
    {
      this.file, this.palette := file, palette;
      cache := new Saved[SMALL_FRAME_THRESHOLD](_ => Saved(0, 0, 0, 0, 0, 0));
      state, pointsLeft, repeatCount, offset := BetweenFrames, 0, 0, 0;
      frameStart, framePointcount, pointsPerFrame := Cursor(0, 0, 0), 0, 0;
      frame := [];
    }

    ghost predicate Basics()
      reads this
    {
      && cache.Length == SMALL_FRAME_THRESHOLD && |palette| >= 3
      && file.fs.vol.csize > 0
    }

    ghost predicate Between()
      reads this, file, file.fs, file.fs.win
    {
      Basics() && state == BetweenFrames && file.Valid() && !file.error
    }

    function Position(): int
      reads this
    {
      framePointcount - pointsLeft
    }

    /** The cache holds the first n points of a small frame. */
    ghost predicate Cached(n: nat)
      requires cache.Length == SMALL_FRAME_THRESHOLD
      reads this, cache
    {
      framePointcount <= SMALL_FRAME_THRESHOLD ==>
        n <= framePointcount == |frame| && forall k :: 0 <= k < n ==> cache[k] == Save(frame[k])
    }

    /** In the middle of a frame. */
    ghost predicate Playing()
      reads this, cache, file, file.fs, file.fs.win
    {
      && Basics() && (state.SmallFrame? || state.Ilda?)
      && 0 < pointsLeft <= framePointcount == |frame| && repeatCount >= 1
      && file.Valid() && !file.error
      && (forall k :: 0 <= k < |frame| ==> Restore(Save(frame[k])) == frame[k])
      && match state
         case SmallFrame =>
           framePointcount <= SMALL_FRAME_THRESHOLD && Cached(framePointcount)
         case Ilda(f) =>
           && frame == FrameAt(file.fs.vol, file.orgClust, f, palette, frameStart.fptr, framePointcount)
           && CursorOk(file.fs.vol, file.orgClust, file.fsize, frameStart)
           && file.fptr == frameStart.fptr + Position() * PointSize(f)
           && Cached(Position())
    }

    /** The frame being played, as a value. */
    ghost function Current(): (p: PlayOption)
      requires state.SmallFrame? || state.Ilda? ==> 0 < pointsLeft <= framePointcount == |frame| && repeatCount >= 1
      reads this
      ensures p.Playing? ==> p.play.Valid()
    {
      if state == BetweenFrames || state.Unsupported? then Done
      else PlayOption.Playing(Play(frame, Position(), repeatCount))
    }

    /** fplay_read_check: fails on a file error and on a short read alike. */
    method ReadCheck(buf: array<byte>, len: nat) returns (ok: bool)
      requires file.Valid() && !file.error && buf != file.fs.win && len <= buf.Length
      modifies file`fptr, file`currClust, file`dsect, file`error, file.fs, file.fs.win, buf
      ensures ok <==> && file.canRead && old(file.fptr) + len <= file.fsize
                      && file.Readable(old(file.fptr), old(file.fptr) + len)
      ensures ok ==> file.Valid() && !file.error && file.fptr == old(file.fptr) + len
      ensures ok ==> buf[..len] == file.Bytes(old(file.fptr), file.fptr)
    {
      hide Volume.Valid, RangeReadable, FileBytes, CursorOk, Outside;
      var res, br := file.Read(buf, 0, len);
      ok := res == FrOk && br == len;
      assert ok ==> buf[..][0..br] == buf[..len];
    }

    /** The frame header at byte start of the file. */
    ghost function HeaderAt(start: nat): HeaderOption
      requires file.fs.vol.Valid()
    {
      if file.canRead && start + HEADER_SIZE <= file.fsize && file.Readable(start, start + HEADER_SIZE)
      then ParseHeader(file.Bytes(start, start + HEADER_SIZE))
      else NoHeader
    }

    /** What the first 8 bytes at byte start say: nothing left, a WAV file, the
        signature of a frame, or none of these. */
    ghost function SignatureAt(start: nat): HeaderResult
      requires file.fs.vol.Valid()
    {
      var end := if start + 8 <= file.fsize then start + 8 else file.fsize;
      if !file.canRead || start > file.fsize || !file.Readable(start, end) then Failed
      else if start == file.fsize then EndOfFile
      else if end < start + 8 then Failed
      else if file.Bytes(start, end)[..4] == RIFF then WavFile
      else if file.Bytes(start, end)[..7] == SIGNATURE then FrameReady
      else Failed
    }

    /** A whole frame header without points, which marks the end of the file. */
    ghost predicate NoPointsAt(start: nat)
      requires file.fs.vol.Valid()
    {
      && file.canRead && start + HEADER_SIZE <= file.fsize && file.Readable(start, start + HEADER_SIZE)
      && EmptyHeader(file.Bytes(start, start + HEADER_SIZE))
    }

    /** fplay_read_header for ILDA files: a good header starts its frame, paced
        by the error carried over from the frames before. */
    method ReadHeader() returns (r: HeaderResult)
      requires Between()
      modifies this, file, file.fs, file.fs.win
      ensures r == FrameReady <==> HeaderAt(old(file.fptr)).Header?
      ensures r == EndOfFile <==> SignatureAt(old(file.fptr)) == EndOfFile || NoPointsAt(old(file.fptr))
      ensures r == WavFile <==> SignatureAt(old(file.fptr)) == WavFile
      ensures r == FrameReady ==> Playing() && StartsFrame(HeaderAt(old(file.fptr)), old(file.fptr), old(offset))
      ensures pointsPerFrame == old(pointsPerFrame)
      ensures r == FrameReady ==> file.fptr == old(file.fptr) + HEADER_SIZE
    {
      hide Volume.Valid, RangeReadable, FileBytes, CursorOk, FrameAt, IldaPacing.Step;
      hide ParseHeader, EmptyHeader, FormatOf, Be16;
      ghost var start := file.fptr;
      VolumeBounds(file.fs.vol);
      HeaderCases(start);
      hide SignatureAt, NoPointsAt, HeaderAt;
      var code;
      r, code := ReadSignature();
      if r != FrameReady { return; }
      var option := FormatOf(code);
      if option.NoFormat? {
        state := Unsupported(code);
        return Failed;
      }
      hide StartsFrame, Playing;
      r := StartFrame(option.format, start);
    }

    /** The rest of a header whose signature has been read, and the frame behind it. */
    method StartFrame(f: Format, ghost start: nat) returns (r: HeaderResult)
      requires file.Valid() && !file.error && Basics() && file.fptr == start + 8 && SignatureAt(start) == FrameReady
      requires FormatOf(file.Bytes(start, start + 8)[7]) == SomeFormat(f)
      modifies this, file, file.fs, file.fs.win
      ensures r != WavFile && (r == EndOfFile <==> NoPointsAt(start)) && (r == FrameReady <==> HeaderAt(start).Header?)
      ensures r == FrameReady ==> Playing() && StartsFrame(HeaderAt(start), start, old(offset))
      ensures pointsPerFrame == old(pointsPerFrame) && (r == FrameReady ==> file.fptr == start + HEADER_SIZE)
    {
      hide Volume.Valid, RangeReadable, FileBytes, CursorOk, FrameAt, IldaPacing.Step, FormatOf, Be16;
      hide SignatureAt, NoPointsAt, HeaderAt;
      VolumeBounds(file.fs.vol);
      HeaderCases(start);
      state := Ilda(f);
      var ok := ReadFrameHeader();
      if !ok { return Failed; }
      if pointsLeft == 0 { return EndOfFile; }
      frameStart := file.Position();
      framePointcount := pointsLeft;
      frame := FrameAt(file.fs.vol, file.orgClust, f, palette, file.fptr, framePointcount);
      FrameLossless(file.fs.vol, file.orgClust, f, palette, file.fptr, framePointcount);
      r := FrameReady;
    }

    /** The whole header by its first 8 bytes and its last. */
    lemma HeaderCases(start: nat)
      requires file.fs.vol.Valid() && file.fs.vol.csize > 0
      ensures HeaderAt(start).Header? || NoPointsAt(start) ==> SignatureAt(start) == FrameReady
      ensures SignatureAt(start) == FrameReady ==>
                && file.canRead && start + 8 <= file.fsize && file.Readable(start, start + 8)
                && var code := file.Bytes(start, start + 8)[7];
                   if start + HEADER_SIZE <= file.fsize && file.Readable(start + 8, start + 16)
                      && file.Readable(start + 16, start + 24) && file.Readable(start + 24, start + 32)
                   then
                     var n := Be16(file.Bytes(start + 24, start + 32), 0);
                     && (NoPointsAt(start) <==> FormatOf(code).SomeFormat? && n == 0)
                     && (FormatOf(code).SomeFormat? && n > 0 ==> HeaderAt(start) == Header(FormatOf(code).format, n))
                     && (HeaderAt(start).Header? <==> FormatOf(code).SomeFormat? && n > 0)
                   else !NoPointsAt(start) && !HeaderAt(start).Header?
    {
      hide Volume.Valid, RangeReadable, FileBytes, ParseHeader, EmptyHeader, FormatOf, Be16;
      HeaderParts(file.fs.vol, file.orgClust, start);
    }

    /** The player stands at the beginning of the frame a header at byte start
        announces. */
    ghost predicate StartsFrame(h: HeaderOption, start: nat, carried: int)
      requires h.Header? && file.fs.vol.Valid() && |palette| >= 3
      reads this
    {
      && state == Ilda(h.format) && 0 < pointsLeft == framePointcount == |frame| && repeatCount >= 1
      && frame == FrameAt(file.fs.vol, file.orgClust, h.format, palette, start + HEADER_SIZE, h.npoints)
      && repeatCount == IldaPacing.Step(pointsPerFrame, carried, h.npoints).repeat
      && offset == IldaPacing.Step(pointsPerFrame, carried, h.npoints).offset
      && Current() == PlayOption.Playing(Play(frame, 0, repeatCount))
    }

    /** The first 8 bytes of a header: a signature and the format code. */
    method ReadSignature() returns (r: HeaderResult, code: byte)
      requires file.Valid() && !file.error
      modifies file`fptr, file`currClust, file`dsect, file`error, file.fs, file.fs.win
      ensures var at := old(file.fptr);
              r == FrameReady <==> && file.canRead && at + 8 <= file.fsize && file.Readable(at, at + 8)
                                   && file.Bytes(at, at + 8)[..7] == SIGNATURE
      ensures r == SignatureAt(old(file.fptr))
      ensures r == FrameReady ==> file.Valid() && !file.error && file.fptr == old(file.fptr) + 8
      ensures r == FrameReady ==> code == file.Bytes(old(file.fptr), old(file.fptr) + 8)[7]
    {
      hide Volume.Valid, RangeReadable, FileBytes, CursorOk;
      var buf := new byte[8];
      code := 0;
      var ret := Read(buf, 8);
      if ret == 0 { return EndOfFile, code; }
      if ret != 8 { return Failed, code; }
      assert buf[..8] == buf[..];
      assert buf[0] == buf[..4][0] == buf[..7][0];
      if buf[..4] == RIFF { return WavFile, code; }
      if buf[..7] != SIGNATURE { return Failed, code; }
      code := buf[7];
      r := FrameReady;
    }

    /** fplay_read: the number of bytes read, negative on a file error. */
    method Read(buf: array<byte>, len: nat) returns (n: int)
      requires file.Valid() && !file.error && buf != file.fs.win && len <= buf.Length
      modifies file`fptr, file`currClust, file`dsect, file`error, file.fs, file.fs.win, buf
      ensures n >= 0 <==> file.canRead && file.Readable(old(file.fptr), old(file.fptr + file.Available(len)))
      ensures n >= 0 ==> n == old(file.Available(len)) && file.fptr == old(file.fptr) + n
      ensures n >= 0 ==> file.Valid() && !file.error && buf[..n] == file.Bytes(old(file.fptr), file.fptr)
    {
      var res, br := file.Read(buf, 0, len);
      if res != FrOk { return -1; }
      assert buf[..][0..br] == buf[..br];
      n := br;
    }

    /** ilda_read_frame_header: the 24 bytes after the signature. */
    method ReadFrameHeader() returns (ok: bool)
      requires file.Valid() && !file.error && Basics()
      modifies this`pointsLeft, this`repeatCount, this`offset
      modifies file`fptr, file`currClust, file`dsect, file`error, file.fs, file.fs.win
      ensures var at := old(file.fptr);
              ok <==> && file.canRead && at + 24 <= file.fsize && file.Readable(at, at + 8)
                      && file.Readable(at + 8, at + 16) && file.Readable(at + 16, at + 24)
      ensures ok ==> file.Valid() && !file.error && file.fptr == old(file.fptr) + 24
      ensures ok ==> var at := old(file.fptr) + 16;
                     var n := Be16(file.Bytes(at, at + 8), 0);
                     var pace := IldaPacing.Step(pointsPerFrame, old(offset), n);
                     pointsLeft == n && repeatCount == pace.repeat >= 1 && offset == pace.offset
    {
      hide Volume.Valid, RangeReadable, FileBytes, CursorOk, Outside;
      var buf := new byte[8];
      ok := ReadCheck(buf, 8);
      if !ok { return; }
      ok := ReadCheck(buf, 8);
      if !ok { return; }
      ok := ReadCheck(buf, 8);
      if !ok { return; }
      var npoints: nat := Be16(buf[..], 0);
      assert buf[..8] == buf[..];
      if pointsPerFrame != 0 {
        var needed := pointsPerFrame - offset;
        repeatCount := IldaPacing.SDiv(needed + npoints / 2, npoints);
        if repeatCount <= 0 {
          repeatCount := 1;
        }
        offset := offset + repeatCount * npoints - pointsPerFrame;
      } else {
        repeatCount := 1;
      }
      pointsLeft := npoints;
      ok := true;
    }

    /** The frame that a header at byte start announces, as it begins. */
    ghost function Announced(h: HeaderOption, start: nat, carried: int): (p: Play)
      requires h.Header? && h.npoints > 0 && file.fs.vol.Valid() && file.fs.vol.csize > 0 && |palette| >= 3
      reads this`pointsPerFrame
      ensures p.Valid()
    {
      Play(FrameAt(file.fs.vol, file.orgClust, h.format, palette, start + HEADER_SIZE, h.npoints), 0,
           IldaPacing.Step(pointsPerFrame, carried, h.npoints).repeat)
    }

    /** n points of p have been delivered into out, and the player has moved on. */
    ghost predicate Served(n: int, out: seq<DacPoint>, request: nat, p: Play)
      requires p.Valid()
      reads this, cache, file, file.fs, file.fs.win
    {
      && n == Count(p, request) <= |out| && out[..n] == Output(p, request)
      && (Playing() || Between()) && Current() == After(p, request)
    }

    /** ilda_read_points: between frames a header first. 0 at the end of the file, and
        negative when nothing can be read; a WAV file is not played here. */
    method ReadPoints(request: nat, pp: array<DacPoint>) returns (n: int)
      requires (Playing() || Between()) && request <= pp.Length
      modifies this, cache, pp, file, file.fs, file.fs.win
      ensures var start, h := old(file.fptr), HeaderAt(old(file.fptr));
              old(Between()) ==>
                if h.Header? then
                  var p := old(Announced(h, start, offset));
                  var end := start + HEADER_SIZE + Count(p, request) * PointSize(h.format);
                  if n >= 0 then Served(n, pp[..], request, p)
                  else !file.canRead || end > file.fsize || !file.Readable(start + HEADER_SIZE, end)
                else n <= 0 && (n == 0 <==> SignatureAt(start) == EndOfFile || NoPointsAt(start))
      ensures old(Playing()) && n >= 0 ==> Served(n, pp[..], request, old(Current()).play)
      ensures old(Playing()) && n < 0 ==> old(state).Ilda?
    {
      hide HeaderAt, SignatureAt, NoPointsAt, FrameAt, IldaPacing.Step, RangeReadable, CursorOk, Cached;
      if state == BetweenFrames {
        var r := ReadHeader();
        if r == EndOfFile { return 0; }
        if r != FrameReady { return -1; }
      }
      n := DoReadPoints(request, pp);
    }

    /** One call of ilda_do_read_points: delivers points into pp, or fails with a
        negative result when the file cannot supply them. */
    method DoReadPoints(request: nat, pp: array<DacPoint>) returns (n: int)
      requires Playing() && Count(Current().play, request) <= pp.Length
      modifies this, cache, pp, file, file.fs, file.fs.win
      ensures n >= 0 ==> n == Count(old(Current()).play, request)
      ensures n >= 0 ==> pp[..n] == Output(old(Current()).play, request)
      ensures n >= 0 ==> (Playing() || Between()) && Current() == After(old(Current()).play, request)
      ensures n < 0 ==> old(state).Ilda?
      ensures n < 0 ==> var size, start := PointSize(old(state).format), old(file.fptr);
                        var end := start + Count(old(Current()).play, request) * size;
                        !file.canRead || end > file.fsize || !file.Readable(start, end)
      ensures frame == old(frame)
    {
      hide FrameAt, CursorOk, RangeReadable, Cached, Save, Restore, Delivered;
      var points := request;
      if points > pointsLeft { points := pointsLeft; }
      if points > ILDA_MAX_POINTS_PER_LOOP { points := ILDA_MAX_POINTS_PER_LOOP; }
      var ok := Produce(points, pp);
      if !ok { return -1; }
      Advance(points);
      n := points;
    }

    /** The next points of the frame, out of the cache or out of the file. */
    method Produce(points: nat, pp: array<DacPoint>) returns (ok: bool)
      requires Playing() && points <= pointsLeft && points <= pp.Length && points <= ILDA_MAX_POINTS_PER_LOOP
      modifies cache, pp, file`fptr, file`currClust, file`dsect, file`error, file.fs, file.fs.win
      ensures ok ==> Delivered(points) && pp[..points] == frame[Position()..Position() + points]
      ensures !ok ==> state.Ilda?
      ensures !ok ==> var start, end := old(file.fptr), old(file.fptr) + points * PointSize(state.format);
                      !file.canRead || end > file.fsize || !file.Readable(start, end)
    {
      hide FrameAt, CursorOk, RangeReadable, Save, Restore;
      if state == SmallFrame {
        ReplaySmall(points, pp);
        ok := true;
      } else {
        ok := ReadFromFile(points, pp);
      }
    }

    /** Points that were just delivered leave the player here. */
    ghost predicate Delivered(points: nat)
      reads this, cache, file, file.fs, file.fs.win
    {
      && Basics() && (state.SmallFrame? || state.Ilda?)
      && points <= pointsLeft && 0 < pointsLeft <= framePointcount == |frame| && repeatCount >= 1
      && file.Valid() && !file.error
      && (forall k :: 0 <= k < |frame| ==> Restore(Save(frame[k])) == frame[k])
      && match state
         case SmallFrame =>
           framePointcount <= SMALL_FRAME_THRESHOLD && Cached(framePointcount)
         case Ilda(f) =>
           && frame == FrameAt(file.fs.vol, file.orgClust, f, palette, frameStart.fptr, framePointcount)
           && CursorOk(file.fs.vol, file.orgClust, file.fsize, frameStart)
           && file.fptr == frameStart.fptr + (Position() + points) * PointSize(f)
           && Cached(Position() + points)
    }

    /** The replay of a small frame from the cache. */
    method ReplaySmall(points: nat, pp: array<DacPoint>)
      requires Playing() && state == SmallFrame && points <= pointsLeft && points <= pp.Length
      modifies pp
      ensures pp[..points] == frame[Position()..Position() + points]
      ensures Delivered(points)
    {
      var first := framePointcount - pointsLeft;
      var i := 0;
      while i < points
        invariant 0 <= i <= points
        invariant forall k :: 0 <= k < i ==> pp[k] == frame[first + k]
      {
        pp[i] := Restore(cache[first + i]);
        i := i + 1;
      }
    }

    /** Points decoded from the file, and saved if the frame is small. */
    method ReadFromFile(points: nat, pp: array<DacPoint>) returns (ok: bool)
      requires Playing() && state.Ilda? && points <= pointsLeft && points <= pp.Length
      requires points <= ILDA_MAX_POINTS_PER_LOOP
      modifies cache, pp, file`fptr, file`currClust, file`dsect, file`error, file.fs, file.fs.win
      ensures ok <==> var start, end := old(file.fptr), old(file.fptr) + points * PointSize(state.format);
                      file.canRead && end <= file.fsize && file.Readable(start, end)
      ensures ok ==> Delivered(points) && pp[..points] == frame[Position()..Position() + points]
    {
      hide Volume.Valid, RangeReadable, FileBytes, CursorOk, Decode, PointAt;
      var f := state.format;
      var size := PointSize(f);
      var buf := new byte[16 * ILDA_MAX_POINTS_PER_LOOP];
      ok := ReadCheck(buf, size * points);
      if !ok { return; }
      assert buf[..][..size * points] == buf[..size * points];
      DecodeBuffer(f, buf, points, pp);
    }

    /** The point loop of ilda_do_read_points. */
    method DecodeBuffer(f: Format, buf: array<byte>, points: nat, pp: array<DacPoint>)
      requires Basics() && file.fs.vol.Valid() && 0 < pointsLeft <= framePointcount == |frame|
      requires points <= pointsLeft && points <= pp.Length && PointSize(f) * points <= buf.Length
      requires frame == FrameAt(file.fs.vol, file.orgClust, f, palette, frameStart.fptr, framePointcount)
      requires Cached(Position())
      requires var from := frameStart.fptr + Position() * PointSize(f);
               && file.Readable(from, from + PointSize(f) * points)
               && buf[..][..PointSize(f) * points] == file.Bytes(from, from + PointSize(f) * points)
      modifies cache, pp
      ensures pp[..points] == frame[Position()..Position() + points]
      ensures Cached(Position() + points)
    {
      hide Volume.Valid, RangeReadable, FileBytes, FrameAt, Save, Cached;
      ghost var first := Position();
      var i := 0;
      while i < points
        invariant 0 <= i <= points
        invariant pp[..i] == frame[first..first + i]
        invariant Cached(first + i)
      {
        var p := DecodePoint(f, buf, points, i);
        KeepPoint(p, pp, i);
        i := i + 1;
      }
    }

    /** Point i goes out, and into the cache if the frame is small. */
    method KeepPoint(p: DacPoint, pp: array<DacPoint>, i: nat)
      requires Basics() && Position() + i < |frame| == framePointcount && 0 <= Position() && i < pp.Length
      requires p == frame[Position() + i] && pp[..i] == frame[Position()..Position() + i] && Cached(Position() + i)
      modifies cache, pp
      ensures pp[..i + 1] == frame[Position()..Position() + i + 1] && Cached(Position() + i + 1)
    {
      var first := framePointcount - pointsLeft;
      ghost var out := pp[..i];
      if framePointcount <= SMALL_FRAME_THRESHOLD {
        cache[first + i] := Save(p);
      }
      pp[i] := p;
      assert pp[..i + 1] == out + [p];
    }

    /** Point i of those in buf is the next but i of the frame. */
    method DecodePoint(f: Format, buf: array<byte>, points: nat, i: nat) returns (p: DacPoint)
      requires Basics() && file.fs.vol.Valid() && 0 < pointsLeft <= framePointcount == |frame|
      requires i < points <= pointsLeft && PointSize(f) * points <= buf.Length
      requires frame == FrameAt(file.fs.vol, file.orgClust, f, palette, frameStart.fptr, framePointcount)
      requires var from := frameStart.fptr + Position() * PointSize(f);
               && file.Readable(from, from + PointSize(f) * points)
               && buf[..][..PointSize(f) * points] == file.Bytes(from, from + PointSize(f) * points)
      ensures p == frame[Position() + i]
    {
      hide Volume.Valid, RangeReadable, FileBytes, Decode, PointAt;
      var size, first := PointSize(f), framePointcount - pointsLeft;
      ghost var bytes := buf[..][..size * points];
      PointInBytes(file.fs.vol, file.orgClust, f, palette, frameStart.fptr, first, points, i, bytes);
      var from := i * size;
      SliceOfPrefix(buf[..], size * points, from, from + size);
      p := Decode(f, palette, buf[..][from..from + size]);
    }

    /** Move on: to the next frame, to another pass over this one, or just
        further into it. */
    method Advance(points: nat)
      requires Delivered(points)
      modifies this`state, this`pointsLeft, this`repeatCount, file`fptr, file`currClust, file`dsect
      ensures Playing() || Between()
      ensures Current() == if points < old(pointsLeft) then
                             PlayOption.Playing(Play(frame, old(Position()) + points, old(repeatCount)))
                           else if old(repeatCount) == 1 then Done
                           else PlayOption.Playing(Play(frame, 0, old(repeatCount) - 1))
    {
      hide Volume.Valid, CursorOk, PointAt, Save, Restore;
      pointsLeft := pointsLeft - points;
      if pointsLeft == 0 {
        repeatCount := repeatCount - 1;
        if repeatCount == 0 {
          state := BetweenFrames;
        } else if framePointcount <= SMALL_FRAME_THRESHOLD {
          state := SmallFrame;
          pointsLeft := framePointcount;
        } else {
          file.fptr := frameStart.fptr;
          file.currClust := frameStart.currClust;
          file.dsect := frameStart.dsect;
          pointsLeft := framePointcount;
        }
      }
    }
  }

  /** Point i of a run of points, found in the bytes read for the run. */
  lemma PointInBytes(v: Volume, org: word, f: Format, palette: seq<byte>,
                     start: nat, first: nat, points: nat, i: nat, bytes: seq<byte>)
    requires v.csize > 0 && |palette| >= 3 && i < points
    requires var from := start + first * PointSize(f);
             && RangeReadable(v, org, from, from + PointSize(f) * points)
             && bytes == FileBytes(v, org, from, from + PointSize(f) * points)
    ensures i * PointSize(f) + PointSize(f) <= |bytes|
    ensures Decode(f, palette, bytes[i * PointSize(f)..i * PointSize(f) + PointSize(f)])
            == PointAt(v, org, f, palette, start, first + i)
  {
    hide Decode;
    var size := PointSize(f);
    var from := start + first * size;
    assert start + (first + i) * size == from + i * size;
    assert (i + 1) * size <= points * size by { MulAtLeast(points, i + 1, size); }
    assert RangeReadable(v, org, from + i * size, from + i * size + size);
    assert bytes[i * size..i * size + size] == FileBytes(v, org, from + i * size, from + i * size + size);
  }

  lemma FrameLossless(v: Volume, org: word, f: Format, palette: seq<byte>, start: nat, n: nat)
    requires v.csize > 0 && |palette| >= 3
    ensures var frame := FrameAt(v, org, f, palette, start, n);
            forall k :: 0 <= k < n ==> Restore(Save(frame[k])) == frame[k]
  {
    hide Save, Restore, Decode;
    var frame := FrameAt(v, org, f, palette, start, n);
    forall k | 0 <= k < n
      ensures Restore(Save(frame[k])) == frame[k]
    {
      PointLossless(v, org, f, palette, start, k);
    }
  }

  lemma PointLossless(v: Volume, org: word, f: Format, palette: seq<byte>, start: nat, k: nat)
    requires v.csize > 0 && |palette| >= 3
    ensures var p := PointAt(v, org, f, palette, start, k); Restore(Save(p)) == p
  {
    hide Decode;
    var from := start + k * PointSize(f);
    if RangeReadable(v, org, from, from + PointSize(f)) {
      CacheLossless(f, palette, FileBytes(v, org, from, from + PointSize(f)));
    }
  }

  /** The header as the four pieces it is read in. */
  lemma HeaderParts(v: Volume, org: word, start: nat)
    requires v.csize > 0
    ensures RangeReadable(v, org, start, start + HEADER_SIZE) <==>
              RangeReadable(v, org, start, start + 8) && RangeReadable(v, org, start + 8, start + 16)
              && RangeReadable(v, org, start + 16, start + 24) && RangeReadable(v, org, start + 24, start + 32)
    ensures RangeReadable(v, org, start, start + HEADER_SIZE) ==>
              var h, sig, tail := FileBytes(v, org, start, start + HEADER_SIZE),
                                  FileBytes(v, org, start, start + 8), FileBytes(v, org, start + 24, start + 32);
              ParseHeader(h) == if sig[..7] == SIGNATURE && FormatOf(sig[7]).SomeFormat? && Be16(tail, 0) > 0
                                then Header(FormatOf(sig[7]).format, Be16(tail, 0)) else NoHeader
    ensures RangeReadable(v, org, start, start + HEADER_SIZE) ==>
              var h, sig, tail := FileBytes(v, org, start, start + HEADER_SIZE),
                                  FileBytes(v, org, start, start + 8), FileBytes(v, org, start + 24, start + 32);
              EmptyHeader(h) <==> sig[..7] == SIGNATURE && FormatOf(sig[7]).SomeFormat? && Be16(tail, 0) == 0
    ensures RangeReadable(v, org, start, start + HEADER_SIZE) ==>
              var sig := FileBytes(v, org, start, start + 8);
              sig[..7] == SIGNATURE ==> sig[..4] != RIFF
  {
    RangeConcat(v, org, start, start + 8, start + 32);
    RangeConcat(v, org, start + 8, start + 16, start + 32);
    RangeConcat(v, org, start + 16, start + 24, start + 32);
    if RangeReadable(v, org, start, start + HEADER_SIZE) {
      var h := FileBytes(v, org, start, start + HEADER_SIZE);
      assert h[..8] == FileBytes(v, org, start, start + 8);
      assert h[..7] == h[..8][..7];
      assert h[24..] == FileBytes(v, org, start + 24, start + 32);
      assert h[..8][..7][0] == h[..8][..4][0] && SIGNATURE[0] != RIFF[0];
    }
  }

  lemma SliceOfPrefix(s: seq<byte>, n: nat, from: nat, to: nat)
    requires from <= to <= n <= |s|
    ensures s[..n][from..to] == s[from..to]
  {
  }
}
