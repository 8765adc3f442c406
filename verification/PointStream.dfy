/** firmware/net/point-stream.c: the device's side of the point stream, a byte
    stream cut into packets at arbitrary places. */
module PointStream {
  import opened Words
  import opened Dac

  const MAX_POINT_RATE: nat := 100000
  const BUFFER_SIZE: nat := 18
  const POINT_SIZE: nat := 18
  const BEGIN_SIZE: nat := 7
  const QUEUE_SIZE: nat := 5
  const DATA_SIZE: nat := 3

  const PREPARE: byte := 0x70 // 'p'
  const BEGIN: byte := 0x62   // 'b'
  const UPDATE: byte := 0x75  // 'u'
  const QUEUE: byte := 0x71   // 'q'
  const DATA: byte := 0x64    // 'd'
  const STOP: byte := 0x73    // 's'
  const ESTOP: byte := 0
  const ESTOP_ALSO: byte := 0xFF
  const CLEAR: byte := 0x63   // 'c'
  const PING: byte := 0x3F    // '?'
  const VERSION: byte := 0x76 // 'v'
  const INSTALL: byte := 0x49 // 'I'
  const PLUGIN: byte := 0x50  // 'P'
  const PLUGIN_DATA: byte := 0x44 // 'D'

  const ACK := 'a'
  const NAK_INVALID := 'I'
  const NAK_ESTOP := '!'

  const CLEARABLE: set<Condition> := {OfPacket, OfInput, OfOvertemp, OfLinkLost}

  datatype Mode = Main | Data | DataAborting

  /** Why a connection takes no more bytes: an unknown command; one of the two
      assertions a stream can run into, the rate's and the packet loop's; or a
      plugin command, which is not part of this model. */
  datatype End = Open | UnknownCommand | RateAssert | ProgressAssert | ToPlugin

  datatype Status = Status(
    engine: LightEngine, state: PlayState, shutter: bool, stops: set<StopFlag>, fullness: int, rate: nat,
    count: nat, src: Source, srcFlags: nat)

  datatype Reply = Reply(response: char, command: byte, status: Status) | Version

  /** fill_status: a rate is only reported while playing. */
  function StatusOf(d: Dev): Status {
    Status(d.engine, d.state, d.shutterFlag, d.stops, Fullness(d.produce, d.consume, BUFFER_POINTS),
           if d.state == Playing then d.pps else 0, d.count, d.src, d.srcFlags)
  }

  /** The device together with one open stream. */
  datatype Session = Session(d: Dev, mode: Mode, left: nat, replies: seq<Reply>, end: End) {
    predicate Valid() {
      d.Valid() && (mode != Main ==> left > 0)
    }
  }

  function Sent(s: Session, response: char, command: byte): Session {
    s.(replies := s.replies + [Reply(response, command, StatusOf(s.d))])
  }

  datatype Outcome = NeedMore | Used(n: nat, next: Session) | Over(next: Session)

  function Answer(s: Session, d: Dev, ok: bool, command: byte, n: nat): Outcome {
    Used(n, Sent(s.(d := d), if ok then ACK else NAK_INVALID, command))
  }

  /** A command that carries a rate. */
  function RateSize(cmd: byte): nat {
    if cmd == BEGIN || cmd == UPDATE then BEGIN_SIZE else if cmd == QUEUE then QUEUE_SIZE else 0
  }

  /** A complete rate command whose rate is too high. */
  predicate BadRate(s: Session, data: seq<byte>) {
    s.mode == Main && |data| > 0 && RateSize(data[0]) > 0 && |data| >= RateSize(data[0])
    && Le32(data, RateSize(data[0]) - 4) > MAX_POINT_RATE
  }

  function RateCommand(s: Session, data: seq<byte>): Outcome
    requires s.Valid() && |data| > 0 && RateSize(data[0]) > 0
  {
    var cmd, size := data[0], RateSize(data[0]);
    if |data| < size then NeedMore
    else
      var rate := Le32(data, size - 4);
      if rate > MAX_POINT_RATE then Answer(s, s.d, false, cmd, 1)
      else if cmd == QUEUE then Answer(s, AfterRateQueue(s.d, rate), true, cmd, size)
      else if !RateOk(rate) then Over(s.(end := RateAssert))
      else if cmd == BEGIN then Answer(s, AfterStart(s.d.(pps := rate)), true, cmd, size)
      else Answer(s, s.d.(pps := rate), true, cmd, size)
  }

  function ShortCommand(s: Session, cmd: byte): Outcome {
    if cmd == PREPARE then Answer(s, AfterPrepare(s.d), MayPrepare(s.d), cmd, 1)
    else if cmd == STOP then Answer(s, if s.d.state == Idle then s.d else AfterStop(s.d, {}), s.d.state != Idle, cmd, 1)
    else if cmd == ESTOP || cmd == ESTOP_ALSO then Answer(s, AfterEstop(s.d, {OfPacket}), true, cmd, 1)
    else if cmd == CLEAR then
      var d := AfterClear(s.d, CLEARABLE);
      Used(1, Sent(s.(d := d), if d.engine == Ready then ACK else NAK_ESTOP, cmd))
    else if cmd == PING then Answer(s, s.d, true, cmd, 1)
    else if cmd == VERSION then Used(1, s.(replies := s.replies + [Version]))
    else if cmd == INSTALL || cmd == PLUGIN || cmd == PLUGIN_DATA then Over(s.(end := ToPlugin))
    else Over(s.(end := UnknownCommand))
  }

  function DataCommand(s: Session, data: seq<byte>): Outcome
    requires |data| > 0
  {
    if |data| < DATA_SIZE then NeedMore
    else
      var n := Le16(data, 1);
      if n == 0 then Answer(s, s.d, true, DATA, DATA_SIZE)
      else Used(DATA_SIZE, s.(mode := Data, left := n))
  }

  /** pts go into the ring; the last points of the command bring the reply. */
  function Stored(s: Session, pts: seq<Point>): Session
    requires s.Valid() && |pts| <= s.left && |pts| <= Requested(s.d)
  {
    FillAppends(s.d, pts);
    var t := s.(d := Advanced(Filled(s.d, pts), |pts|), left := s.left - |pts|);
    if t.left > 0 then t else Sent(t.(mode := Main), ACK, DATA)
  }

  /** k points are thrown away, and the rest of the command will be too. */
  function Dropped(s: Session, k: nat): Session
    requires k <= s.left
  {
    var t := s.(left := s.left - k, mode := DataAborting);
    if t.left > 0 then t else Sent(t.(mode := Main), NAK_INVALID, DATA)
  }

  /** The least recv_fsm can do with data: one command, or one point. */
  function Unit(s: Session, data: seq<byte>): (r: Outcome)
    requires s.Valid() && s.end == Open && |data| > 0
    ensures r.Used? ==> 0 < r.n <= |data| && r.n <= BUFFER_SIZE && r.next.Valid() && r.next.end == Open
    ensures r.Over? ==> r.next.Valid() && r.next.end != Open && r.next.end != ProgressAssert
    ensures r.NeedMore? ==> |data| < BUFFER_SIZE
  {
    match s.mode
    case Main =>
      if RateSize(data[0]) > 0 then RateCommand(s, data)
      else if data[0] == DATA then DataCommand(s, data)
      else ShortCommand(s, data[0])
    case Data =>
      if |data| < POINT_SIZE then NeedMore
      else if Requested(s.d) <= 0 then Used(POINT_SIZE, Dropped(s, 1))
      else FillAppends(s.d, [data[..POINT_SIZE]]); Used(POINT_SIZE, Stored(s, [data[..POINT_SIZE]]))
    case DataAborting =>
      if |data| < POINT_SIZE then NeedMore else Used(POINT_SIZE, Dropped(s, 1))
  }

  /** A whole stream fed at once: what becomes of the session, and the bytes that
      still wait for more. */
  function Feed(s: Session, data: seq<byte>): (r: (Session, seq<byte>))
    requires s.Valid()
    ensures r.0.Valid()
    ensures r.1 != [] ==> r.0.end == Open && Unit(r.0, r.1) == NeedMore
    ensures s.end != ProgressAssert ==> r.0.end != ProgressAssert
    decreases |data|
  {
    if s.end != Open || data == [] then (s, [])
    else
      match Unit(s, data)
      case NeedMore => (s, data)
      case Used(n, next) => Feed(next, data[n..])
      case Over(next) => (next, [])
  }

  lemma Le32Prefix(a: seq<byte>, b: seq<byte>, i: nat)
    requires i + 4 <= |a|
    ensures Le32(a + b, i) == Le32(a, i)
  {
  }

  /** Bytes that come later change nothing about a command already complete. */
  lemma UnitStable(s: Session, a: seq<byte>, b: seq<byte>)
    requires s.Valid() && s.end == Open && |a| > 0
    ensures !Unit(s, a).NeedMore? ==> Unit(s, a + b) == Unit(s, a)
  {
    hide Answer, AfterRateQueue, AfterStart, ShortCommand, Stored, Dropped, Requested;
    assert (a + b)[0] == a[0];
    if s.mode == Main && RateSize(a[0]) > 0 && |a| >= RateSize(a[0]) {
      Le32Prefix(a, b, RateSize(a[0]) - 4);
    }
    if |a| >= POINT_SIZE {
      assert (a + b)[..POINT_SIZE] == a[..POINT_SIZE];
    }
  }

  /** Feeding in two parts, with what was left of the first put before the second. */
  lemma {:induction false} FeedConcat(s: Session, a: seq<byte>, b: seq<byte>)
    requires s.Valid()
    ensures Feed(s, a + b) == Feed(Feed(s, a).0, Feed(s, a).1 + b)
    decreases |a|
  {
    if s.end != Open || a == [] {
      assert a == [] ==> a + b == b;
      assert [] + b == b;
    } else {
      UnitStable(s, a, b);
      match Unit(s, a)
      case NeedMore =>
      case Over(next) =>
      case Used(n, next) =>
        assert (a + b)[n..] == a[n..] + b;
        FeedConcat(next, a[n..], b);
    }
  }

  /** The points at the front of data. */
  function Points(data: seq<byte>, k: nat): (pts: seq<Point>)
    requires POINT_SIZE * k <= |data|
    ensures |pts| == k
  {
    seq(k, i requires 0 <= i < k => data[POINT_SIZE * i..POINT_SIZE * i + POINT_SIZE])
  }

  lemma SliceBehind(data: seq<byte>, a: nat, at: nat)
    requires a + at + POINT_SIZE <= |data|
    ensures data[a..][at..at + POINT_SIZE] == data[a + at..a + at + POINT_SIZE]
  {
  }

  lemma PointsTail(data: seq<byte>, k: nat)
    requires 0 < k && POINT_SIZE * k <= |data|
    ensures Points(data, k) == [data[..POINT_SIZE]] + Points(data[POINT_SIZE..], k - 1)
  {
    forall i | 1 <= i < k ensures Points(data, k)[i] == Points(data[POINT_SIZE..], k - 1)[i - 1] {
      SliceBehind(data, POINT_SIZE, POINT_SIZE * (i - 1));
    }
  }

  /** Storing points one at a time or together. */
  lemma StoredTogether(s: Session, p: Point, pts: seq<Point>)
    requires s.Valid() && pts != [] && |pts| + 1 <= s.left && |pts| + 1 <= Requested(s.d)
    ensures Stored(s, [p]).Valid() && |pts| <= Stored(s, [p]).left && |pts| <= Requested(Stored(s, [p]).d)
    ensures Stored(Stored(s, [p]), pts) == Stored(s, [p] + pts)
  {
    AdvancedTogether(s.d, p, pts);
    hide Filled, Requested, Contents;
  }

  lemma AdvancedTogether(d: Dev, p: Point, pts: seq<Point>)
    requires d.Valid() && pts != [] && |pts| + 1 <= Requested(d)
    ensures var one := Advanced(Filled(d, [p]), 1);
            one.Valid() && |pts| <= Requested(one)
            && Advanced(Filled(one, pts), |pts|) == Advanced(Filled(d, [p] + pts), 1 + |pts|)
  {
    RoomExact(d.ring, d.consume, d.produce);
    var at := d.produce;
    Modulo(at, |pts|);
    RingTogether(d.ring, at, p, pts);
  }

  lemma Modulo(at: nat, n: nat)
    requires n > 0 && at + 1 + n <= BUFFER_POINTS
    ensures (at + 1) % BUFFER_POINTS == at + 1 && (at + 1 + n) % BUFFER_POINTS == (at + (1 + n)) % BUFFER_POINTS
  {
  }

  lemma RingTogether(ring: seq<Point>, at: nat, p: Point, pts: seq<Point>)
    requires at + 1 + |pts| <= |ring|
    ensures var one := ring[..at] + [p] + ring[at + 1..];
            one[..at + 1] + pts + one[at + 1 + |pts|..] == ring[..at] + ([p] + pts) + ring[at + 1 + |pts|..]
  {
  }

  /** recv_fsm takes as many points as fit the packet, the command and the
      contiguous room; that is the same as taking them one by one. */
  lemma {:induction false} StoredBatch(s: Session, data: seq<byte>, k: nat)
    requires s.Valid() && s.end == Open && s.mode == Data
    requires 0 < k <= s.left && k <= Requested(s.d) && POINT_SIZE * k <= |data|
    ensures Feed(s, data) == Feed(Stored(s, Points(data, k)), data[POINT_SIZE * k..])
    decreases k
  {
    hide Requested, Stored;
    PointsTail(data, k);
    var p := data[..POINT_SIZE];
    assert Feed(s, data) == Feed(Stored(s, [p]), data[POINT_SIZE..]);
    if k == 1 {
      assert Points(data, k) == [p];
    } else {
      var rest := Points(data[POINT_SIZE..], k - 1);
      StoredTogether(s, p, rest);
      StoredStays(s, [p]);
      StoredBatch(Stored(s, [p]), data[POINT_SIZE..], k - 1);
      assert data[POINT_SIZE..][POINT_SIZE * (k - 1)..] == data[POINT_SIZE * k..];
    }
  }

  lemma StoredStays(s: Session, pts: seq<Point>)
    requires s.Valid() && s.mode == Data && |pts| < s.left && |pts| <= Requested(s.d)
    ensures Stored(s, pts).Valid() && Stored(s, pts).mode == Data && Stored(s, pts).end == s.end
    ensures Stored(s, pts).left == s.left - |pts|
  {
  }

  lemma {:induction false} DroppedBatch(s: Session, data: seq<byte>, k: nat)
    requires s.Valid() && s.end == Open && (s.mode == DataAborting || (s.mode == Data && Requested(s.d) <= 0))
    requires 0 < k <= s.left && POINT_SIZE * k <= |data|
    ensures Feed(s, data) == Feed(Dropped(s, k), data[POINT_SIZE * k..])
    decreases k
  {
    assert Feed(s, data) == Feed(Dropped(s, 1), data[POINT_SIZE..]);
    if k > 1 {
      DroppedBatch(Dropped(s, 1), data[POINT_SIZE..], k - 1);
      assert data[POINT_SIZE..][POINT_SIZE * (k - 1)..] == data[POINT_SIZE * k..];
      assert Dropped(Dropped(s, 1), k - 1) == Dropped(s, k);
    }
  }

  /** The stream, somewhere before its end, reaches a rate command it refuses. */
  predicate MeetsBadRate(s: Session, data: seq<byte>)
    requires s.Valid()
    decreases |data|
  {
    s.end == Open && data != [] &&
    (BadRate(s, data) ||
     match Unit(s, data)
     case Used(n, next) => MeetsBadRate(next, data[n..])
     case _ => false)
  }

  /** The first command in data would end within the n bytes seen before. */
  predicate Stalls(s: Session, data: seq<byte>, n: nat)
    requires s.Valid() && s.end == Open && |data| > 0
  {
    Unit(s, data).Used? && Unit(s, data).n <= n
  }

  /** One packet buffer arrives behind the waiting bytes pend. */
  function Chunk(s: Session, pend: seq<byte>, p: seq<byte>): (r: (Session, seq<byte>))
    requires s.Valid()
    ensures r.0.Valid()
  {
    if s.end != Open then (s, [])
    else if pend != [] && (p == [] || Stalls(s, pend + p, |pend|)) then
      ((if p == [] then s else Unit(s, pend + p).next).(end := ProgressAssert), [])
    else Feed(s, pend + p)
  }

  function Chunks(s: Session, pend: seq<byte>, ps: seq<seq<byte>>): (r: (Session, seq<byte>))
    requires s.Valid()
    ensures r.0.Valid()
    decreases |ps|
  {
    if ps == [] then (s, pend)
    else
      var (t, rest) := Chunk(s, pend, ps[0]);
      Chunks(t, rest, ps[1..])
  }

  function Concat(ps: seq<seq<byte>>): seq<byte> {
    if ps == [] then [] else ps[0] + Concat(ps[1..])
  }

  predicate Waiting(s: Session, pend: seq<byte>)
    requires s.Valid()
  {
    pend == [] || (s.end == Open && Unit(s, pend) == NeedMore)
  }

  /** A command made complete by new bytes ends within the old ones only when it
      is a refused rate, of which recv_fsm consumes a single byte. */
  lemma StallsExactly(s: Session, pend: seq<byte>, p: seq<byte>)
    requires s.Valid() && s.end == Open && pend != [] && Waiting(s, pend)
    ensures Stalls(s, pend + p, |pend|) <==> BadRate(s, pend + p)
  {
    hide AfterRateQueue, AfterStart, Stored, Dropped, Requested;
    assert (pend + p)[0] == pend[0];
  }

  lemma {:induction false} MeetsConcat(s: Session, a: seq<byte>, b: seq<byte>)
    requires s.Valid()
    ensures MeetsBadRate(s, a + b) <==> MeetsBadRate(s, a) || MeetsBadRate(Feed(s, a).0, Feed(s, a).1 + b)
    decreases |a|
  {
    if s.end != Open || a == [] {
      assert a == [] ==> a + b == b;
      assert [] + b == b;
    } else {
      UnitStable(s, a, b);
      BadRateStable(s, a, b);
      match Unit(s, a)
      case NeedMore =>
      case Over(next) =>
      case Used(n, next) =>
        assert (a + b)[n..] == a[n..] + b;
        MeetsConcat(next, a[n..], b);
    }
  }

  lemma BadRateStable(s: Session, a: seq<byte>, b: seq<byte>)
    requires s.Valid() && s.end == Open && |a| > 0
    ensures BadRate(s, a) ==> Unit(s, a).Used?
    ensures !Unit(s, a).NeedMore? ==> (BadRate(s, a + b) <==> BadRate(s, a))
  {
    hide AfterRateQueue, AfterStart, Stored, Dropped, Requested;
    assert (a + b)[0] == a[0];
    if s.mode == Main && RateSize(a[0]) > 0 && |a| >= RateSize(a[0]) {
      Le32Prefix(a, b, RateSize(a[0]) - 4);
    }
  }

  /** However a stream without refused rates is cut into non-empty packets, the
      device does exactly what it does with the whole: same replies, same points
      stored, same bytes left waiting, and no assertion about progress fires. */
  lemma {:induction false} SplitIndependence(s: Session, pend: seq<byte>, ps: seq<seq<byte>>)
    requires s.Valid() && Waiting(s, pend) && !MeetsBadRate(s, pend + Concat(ps))
    requires [] !in ps
    ensures s.end == Open ==> Chunks(s, pend, ps) == Feed(s, pend + Concat(ps))
    decreases |ps|
  {
    if s.end != Open {
    } else if ps == [] {
      assert pend + Concat(ps) == pend;
    } else {
      var a, b := pend + ps[0], Concat(ps[1..]);
      assert pend + Concat(ps) == a + b;
      MeetsConcat(s, a, b);
      FeedConcat(s, a, b);
      if pend != [] { StallsExactly(s, pend, ps[0]); }
      assert Chunk(s, pend, ps[0]) == Feed(s, a);
      var t := Feed(s, a);
      if t.0.end == Open {
        SplitIndependence(t.0, t.1, ps[1..]);
      } else {
        EndedStays(t.0, ps[1..]);
        assert t.1 == [];
      }
    }
  }

  lemma {:induction false} EndedStays(s: Session, ps: seq<seq<byte>>)
    requires s.Valid() && s.end != Open
    ensures Chunks(s, [], ps) == (s, [])
    decreases |ps|
  {
    if ps != [] { EndedStays(s, ps[1..]); }
  }

  /** Just behind the first byte of the refused command. */
  lemma {:induction false} BadRateSplit(s: Session, data: seq<byte>) returns (k: nat)
    requires s.Valid() && MeetsBadRate(s, data)
    ensures 0 < k < |data|
    ensures Chunks(s, [], [data[..k], data[k..]]).0.end == ProgressAssert
    decreases |data|
  {
    k := BadRateAt(s, data);
    var a, b := data[..k], data[k..];
    var t := Feed(s, a);
    assert [] + a == a;
    assert Chunks(s, [], [a, b]) == Chunks(t.0, t.1, [b]) by { assert [a, b][1..] == [b]; }
    StallsExactly(t.0, t.1, b);
    assert Chunks(t.0, t.1, [b]) == Chunk(t.0, t.1, b);
  }

  lemma {:induction false} BadRateAt(s: Session, data: seq<byte>) returns (k: nat)
    requires s.Valid() && MeetsBadRate(s, data)
    ensures 0 < k < |data|
    ensures var t := Feed(s, data[..k]); t.1 == [data[k - 1]] && t.0.end == Open && BadRate(t.0, t.1 + data[k..])
    decreases |data|
  {
    if BadRate(s, data) {
      k := 1;
      BadRateHere(s, data);
    } else {
      hide BadRate, Unit;
      var n, next := Unit(s, data).n, Unit(s, data).next;
      var j := BadRateAt(next, data[n..]);
      k := n + j;
      assert data[n..][j..] == data[k..];
      assert data[..k][n..] == data[n..][..j];
      UnitOfPrefix(s, data, k);
    }
  }

  /** The first byte of a rate command alone waits for more. */
  lemma BadRateHere(s: Session, data: seq<byte>)
    requires s.Valid() && s.end == Open && data != [] && BadRate(s, data)
    ensures |data| > 1 && Feed(s, data[..1]) == (s, [data[0]]) && BadRate(s, [data[0]] + data[1..])
  {
    hide ShortCommand, DataCommand, Stored, Dropped, AfterStart, AfterRateQueue, Requested, Advanced;
    assert data[..1] == [data[0]];
    assert [data[0]] + data[1..] == data;
  }

  lemma UnitOfPrefix(s: Session, data: seq<byte>, k: nat)
    requires s.Valid() && s.end == Open && |data| > 0 && k <= |data|
    requires Unit(s, data).Used? && Unit(s, data).n <= k && !BadRate(s, data)
    ensures Unit(s, data[..k]) == Unit(s, data)
  {
    hide AfterRateQueue, AfterStart, Stored, Dropped, Requested, ShortCommand;
    var a := data[..k];
    assert a[0] == data[0];
    if s.mode == Main && RateSize(a[0]) > 0 {
      Le32Prefix(a, data[k..], RateSize(a[0]) - 4);
      assert a + data[k..] == data;
    } else if s.mode != Main {
      assert a[..POINT_SIZE] == data[..POINT_SIZE];
    }
  }

  /** All ways of cutting the stream into non-empty packets agree with feeding it
      at once exactly when it meets no refused rate. */
  lemma SplitsAgree(s: Session, data: seq<byte>)
    requires s.Valid() && s.end == Open
    ensures (forall ps: seq<seq<byte>> :: [] !in ps && Concat(ps) == data ==> Chunks(s, [], ps) == Feed(s, data))
       <==> !MeetsBadRate(s, data)
  {
    if MeetsBadRate(s, data) {
      var ps := DisagreeingSplit(s, data);
    } else {
      assert [] + data == data;
      forall ps: seq<seq<byte>> | [] !in ps && Concat(ps) == data ensures Chunks(s, [], ps) == Feed(s, data) {
        SplitIndependence(s, [], ps);
      }
    }
  }

  lemma DisagreeingSplit(s: Session, data: seq<byte>) returns (ps: seq<seq<byte>>)
    requires s.Valid() && MeetsBadRate(s, data)
    ensures [] !in ps && Concat(ps) == data && Chunks(s, [], ps) != Feed(s, data)
  {
    hide Unit, Chunks, Feed;
    var k := BadRateSplit(s, data);
    ps := [data[..k], data[k..]];
    assert Concat([data[k..]]) == data[k..] + Concat([]) == data[k..];
    assert ps[1..] == [data[k..]];
    assert data[..k] + data[k..] == data;
  }

  /** The device's room, whatever part of it is contiguous. */
  function Space(d: Dev): nat
    requires d.Valid()
  {
    if d.state == Idle then 0 else BUFFER_POINTS - 1 - |d.Unread()|
  }

  /** A whole data command stores the longest prefix of its points that fits, in
      order, behind what was there; it is acknowledged when everything fitted and
      refused otherwise, with one reply. */
  lemma {:induction false} DataStored(s: Session, data: seq<byte>)
    requires s.Valid() && s.end == Open && s.mode == Data && |data| == POINT_SIZE * s.left
    ensures var t, n := Feed(s, data), s.left;
            && t.1 == [] && t.0.mode == Main && t.0.end == Open && t.0.Valid()
            && t.0.d.Unread() == s.d.Unread() + Points(data, n)[..if n <= Space(s.d) then n else Space(s.d)]
            && |t.0.replies| == |s.replies| + 1
            && t.0.replies[..|s.replies|] == s.replies
            && t.0.replies[|s.replies|] == Reply(if n <= Space(s.d) then ACK else NAK_INVALID, DATA, StatusOf(t.0.d))
    decreases s.left
  {
    hide Stored;
    var n := s.left;
    RoomExact(s.d.ring, s.d.consume, s.d.produce);
    if Requested(s.d) <= 0 {
      DroppedBatch(s, data, n);
      assert data[POINT_SIZE * n..] == [];
      assert s.d.Unread() + [] == s.d.Unread();
    } else {
      var p := data[..POINT_SIZE];
      StoredOne(s, p);
      PointsTail(data, n);
      var t := Stored(s, [p]);
      assert Feed(s, data) == Feed(t, data[POINT_SIZE..]);
      if n == 1 {
        assert data[POINT_SIZE..] == [];
        assert Points(data, 1)[..1] == [p];
      } else {
        DataStored(t, data[POINT_SIZE..]);
        var k := if n <= Space(s.d) then n else Space(s.d);
        assert Points(data, n)[..k] == [p] + Points(data[POINT_SIZE..], n - 1)[..k - 1];
        assert s.d.Unread() + Points(data, n)[..k] == t.d.Unread() + Points(data[POINT_SIZE..], n - 1)[..k - 1];
      }
    }
  }

  lemma StoredOne(s: Session, p: Point)
    requires s.Valid() && s.end == Open && s.mode == Data && Requested(s.d) > 0
    ensures var t := Stored(s, [p]);
            && t.Valid() && t.end == Open && t.d.Unread() == s.d.Unread() + [p] && Space(t.d) == Space(s.d) - 1
            && (if s.left == 1 then t.mode == Main && t == Sent(s.(d := t.d, left := 0, mode := Main), ACK, DATA)
                else t.mode == Data && t.left == s.left - 1 && t.replies == s.replies)
  {
    RoomExact(s.d.ring, s.d.consume, s.d.produce);
    FillAppends(s.d, [p]);
  }

  /** In a data command, what one point does. */
  lemma UnitOfPoint(s: Session, data: seq<byte>)
    requires s.Valid() && s.end == Open && s.mode != Main && |data| > 0
    ensures |data| < POINT_SIZE ==> Unit(s, data) == NeedMore
    ensures |data| == POINT_SIZE ==>
              Unit(s, data) == Used(POINT_SIZE,
                if s.mode == Data && Requested(s.d) > 0 then Stored(s, Points(data, 1)) else Dropped(s, 1))
  {
    if |data| == POINT_SIZE {
      PointsTail(data, 1);
      assert Points(data[POINT_SIZE..], 0) == [];
    }
  }

  /** Stored, spelt out as recv_fsm's last lines have it. */
  lemma StoredIs(s: Session, pts: seq<Point>)
    requires s.Valid() && |pts| <= s.left && |pts| <= Requested(s.d)
    ensures s.d.produce + |pts| <= BUFFER_POINTS
    ensures var d := Advanced(Filled(s.d, pts), |pts|);
            d.Valid() && Stored(s, pts) == if |pts| < s.left then s.(d := d, left := s.left - |pts|)
                                           else Sent(s.(d := d, left := 0, mode := Main), ACK, DATA)
    ensures Stored(s, pts).Valid()
  {
    FillAppends(s.d, pts);
  }

  /** Whatever bytes a host sends, each unit keeps what the emergency stop, the
      shutter and the timer promise. */
  lemma UnitSafe(s: Session, data: seq<byte>)
    requires s.Valid() && s.end == Open && |data| > 0 && Sound(s.d)
    ensures !Unit(s, data).NeedMore? ==> Sound(Unit(s, data).next.d)
  {
    if s.mode == Main {
      CommandSafe(s, data);
    } else if s.mode == Data && Requested(s.d) > 0 && |data| >= POINT_SIZE {
      RoomExact(s.d.ring, s.d.consume, s.d.produce);
      StepSound(s.d, Write([data[..POINT_SIZE]]));
    }
  }

  lemma CommandSafe(s: Session, data: seq<byte>)
    requires s.Valid() && s.end == Open && |data| > 0 && Sound(s.d) && s.mode == Main
    ensures !Unit(s, data).NeedMore? ==> Sound(Unit(s, data).next.d)
  {
    hide Sound;
    StepSound(s.d, Prepare);
    StepSound(s.d, Stop({}));
    StepSound(s.d, Trip({OfPacket}));
    StepSound(s.d, Clear(CLEARABLE));
    if RateSize(data[0]) > 0 && |data| >= RateSize(data[0]) {
      var rate := Le32(data, RateSize(data[0]) - 4);
      StepSound(s.d, QueueRate(rate));
      if RateOk(rate) {
        StepSound(s.d, SetRate(rate));
        StepSound(s.d.(pps := rate), Start);
      }
    }
  }

  /** No byte stream at all can open the shutter, or start the DAC, while a stop
      cause is recorded. */
  lemma {:induction false} FeedSafe(s: Session, data: seq<byte>)
    requires s.Valid() && Sound(s.d)
    ensures Sound(Feed(s, data).0.d)
    decreases |data|
  {
    hide Sound;
    if s.end == Open && data != [] {
      UnitSafe(s, data);
      UnitProgress(s, data);
      match Unit(s, data)
      case NeedMore =>
      case Over(next) =>
      case Used(n, next) => FeedSafe(next, data[n..]);
    }
  }

  lemma UnitProgress(s: Session, data: seq<byte>)
    requires s.Valid() && s.end == Open && |data| > 0
    ensures var u := Unit(s, data);
            && (u.NeedMore? ==> Feed(s, data) == (s, data))
            && (u.Used? ==> Feed(s, data) == Feed(u.next, data[u.n..]))
            && (u.Over? ==> Feed(s, data) == (u.next, []))
  {
  }

  /** The waiting bytes with as much of p as fits the 18-byte buffer decide what
      happens just as all of p would. */
  lemma BufferedStep(s: Session, pend: seq<byte>, p: seq<byte>, more: nat)
    requires s.Valid() && s.end == Open && pend != [] && Waiting(s, pend) && p != [] && |pend| < BUFFER_SIZE
    requires more == if |p| < BUFFER_SIZE - |pend| then |p| else BUFFER_SIZE - |pend|
    ensures var u := Unit(s, pend + p[..more]);
            && (u.NeedMore? ==>
                  more == |p| && p[..more] == p && |pend + p| < BUFFER_SIZE && !BadRate(s, pend + p)
                  && Feed(s, pend + p) == (s, pend + p) && Waiting(s, pend + p))
            && (u.Over? ==> !BadRate(s, pend + p) && Feed(s, pend + p) == (u.next, []))
            && (u.Used? ==> u.n - |pend| <= |p| && (u.n <= |pend| <==> BadRate(s, pend + p)))
            && (u.Used? && u.n <= |pend| ==> Chunk(s, pend, p) == (u.next.(end := ProgressAssert), []))
            && (u.Used? && u.n > |pend| ==> Feed(s, pend + p) == Feed(u.next, p[u.n - |pend|..]))
  {
    hide BadRate, Unit, Feed;
    var data := pend + p[..more];
    assert p[..more] + p[more..] == p && data + p[more..] == pend + p;
    UnitStable(s, data, p[more..]);
    BadRateStable(s, data, p[more..]);
    StallsExactly(s, pend, p);
    UnitProgress(s, pend + p);
    var u := Unit(s, data);
    if u.NeedMore? {
      assert p[..more] == p;
    } else if u.Used? && u.n > |pend| {
      assert (pend + p)[u.n..] == p[u.n - |pend|..];
    }
  }

  class Connection {
    const dac: Control
    var mode: Mode
    var left: nat
    var replies: seq<Reply>
    var end: End
    const buffer: array<byte>
    var buffered: nat

    constructor (dac: Control)
      requires dac.Valid()
      ensures Valid() && this.dac == dac && fresh(buffer) && dac.Value() == old(dac.Value())
      ensures Now() == Session(dac.Value(), Main, 0, [], Open) && Pending() == []
    {
      this.dac := dac;
      mode, left, replies, end, buffered := Main, 0, [], Open, 0;
      buffer := new byte[BUFFER_SIZE](_ => 0);
    }

    /** The session as a value. */
    ghost function Now(): Session
      reads this`mode, this`left, this`replies, this`end, dac, dac.ring, dac.rates
    {
      Session(dac.Value(), mode, left, replies, end)
    }

    ghost predicate Ready()
      reads this`mode, this`left, dac
    {
      dac.Valid() && buffer.Length == BUFFER_SIZE && (mode != Main ==> left > 0)
    }

    /** The bytes that wait for the next packet. */
    ghost function Pending(): seq<byte>
      requires buffered <= buffer.Length
      reads this`buffered, buffer
    {
      buffer[..buffered]
    }

    ghost predicate Valid()
      reads this, dac, dac.ring, dac.rates, buffer
    {
      Ready() && buffered < BUFFER_SIZE && Waiting(Now(), Pending())
    }

    /** How far recv_fsm got: 0 when data holds no whole command or point, the
        number of bytes dealt with, or -1 when the stream has ended. */
    ghost predicate Progress(s: Session, data: seq<byte>, used: int)
      requires s.Valid() && s.end == Open && |data| > 0
      reads this`mode, this`left, this`replies, this`end, dac, dac.ring, dac.rates
    {
      && Now().Valid() && used <= |data|
      && (used == 0 ==> Now() == s && Unit(s, data).NeedMore?)
      && (used > 0 ==> end == Open && Feed(s, data) == Feed(Now(), data[used..]))
      && (used < 0 ==> end != Open && end != ProgressAssert && Feed(s, data) == (Now(), []))
    }

    ghost predicate DoesUnit(s: Session, u: Outcome, used: int)
      reads this`mode, this`left, this`replies, this`end, dac, dac.ring, dac.rates
    {
      match u
      case NeedMore => used == 0 && Now() == s
      case Used(n, next) => used == n && Now() == next
      case Over(next) => used == -1 && Now() == next
    }

    method SendResponse(response: char, command: byte, len: nat) returns (used: int)
      requires Ready()
      modifies this`replies
      ensures used == len && Now() == Sent(old(Now()), response, command)
    {
      var fullness := dac.GetFullness();
      RoomExact(dac.ring[..], dac.consume, dac.produce);
      replies := replies + [Reply(response, command,
        Status(dac.engine, dac.state, dac.shutterFlag, dac.stops, fullness,
               if dac.state == Playing then dac.pps else 0, dac.count, dac.src, dac.srcFlags))];
      used := len;
    }

    /** 'b', 'u' and 'q'. */
    method RecvRate(data: seq<byte>) returns (used: int)
      requires Ready() && end == Open && mode == Main && |data| > 0 && RateSize(data[0]) > 0
      modifies this`replies, this`end, dac, dac.rates
      ensures Ready() && DoesUnit(old(Now()), RateCommand(old(Now()), data), used)
    {
      var cmd := data[0];
      var size := RateSize(cmd);
      if |data| < size { return 0; }
      var rate := Le32(data, size - 4);
      if rate > MAX_POINT_RATE {
        used := SendResponse(NAK_INVALID, cmd, 1);
        return;
      }
      if cmd == QUEUE {
        var _ := dac.RateQueue(rate);
      } else {
        var ok := dac.SetRate(rate);
        if !ok {
          end := RateAssert;
          return -1;
        }
        if cmd == BEGIN { var _ := dac.Start(); }
      }
      used := SendResponse(ACK, cmd, size);
    }

    /** The one-byte commands, those of the plugin and the unknown. */
    method RecvShort(cmd: byte) returns (used: int)
      requires Ready() && end == Open && mode == Main
      modifies this`replies, this`end, dac
      ensures Ready() && DoesUnit(old(Now()), ShortCommand(old(Now()), cmd), used)
    {
      if cmd == PREPARE {
        var ok := dac.Prepare();
        used := SendResponse(if ok then ACK else NAK_INVALID, cmd, 1);
      } else if cmd == STOP {
        if dac.state == Idle {
          used := SendResponse(NAK_INVALID, cmd, 1);
        } else {
          dac.Stop({});
          used := SendResponse(ACK, cmd, 1);
        }
      } else if cmd == ESTOP || cmd == ESTOP_ALSO {
        dac.EmergencyStop({OfPacket});
        used := SendResponse(ACK, cmd, 1);
      } else if cmd == CLEAR {
        dac.ClearEstop(CLEARABLE);
        used := SendResponse(if dac.engine == LightEngine.Ready then ACK else NAK_ESTOP, cmd, 1);
      } else if cmd == PING {
        used := SendResponse(ACK, cmd, 1);
      } else if cmd == VERSION {
        replies := replies + [Version];
        used := 1;
      } else if cmd == INSTALL || cmd == PLUGIN || cmd == PLUGIN_DATA {
        end := ToPlugin;
        used := -1;
      } else {
        end := UnknownCommand;
        used := -1;
      }
    }

    /** The 'd' header. */
    method RecvHeader(data: seq<byte>) returns (used: int)
      requires Ready() && end == Open && mode == Main && |data| > 0 && data[0] == DATA
      modifies this`replies, this`mode, this`left
      ensures Ready() && DoesUnit(old(Now()), DataCommand(old(Now()), data), used)
    {
      if |data| < DATA_SIZE { return 0; }
      var n := Le16(data, 1);
      if n > 0 {
        mode, left := Data, n;
        used := DATA_SIZE;
      } else {
        used := SendResponse(ACK, DATA, DATA_SIZE);
      }
    }

    /** Writing n points where dac_request said. */
    method StorePoints(data: seq<byte>, n: nat)
      requires Ready() && POINT_SIZE * n <= |data| && n <= Requested(dac.Value())
      modifies dac.ring
      ensures Ready() && dac.Value() == Filled(old(dac.Value()), Points(data, n))
    {
      var at := dac.produce;
      RoomExact(dac.ring[..], dac.consume, dac.produce);
      ghost var was := dac.ring[..];
      for i := 0 to n
        invariant dac.ring[..] == was[..at] + Points(data, i) + was[at + i..]
      {
        dac.ring[at + i] := data[POINT_SIZE * i..POINT_SIZE * i + POINT_SIZE];
        assert Points(data, i + 1) == Points(data, i) + [data[POINT_SIZE * i..POINT_SIZE * i + POINT_SIZE]];
      }
    }

    /** DATA: as many whole points as fit data, the command and the room. */
    method RecvPoints(data: seq<byte>) returns (used: int)
      requires Ready() && end == Open && mode == Data && |data| > 0
      modifies this`mode, this`left, this`replies, dac`produce, dac.ring
      ensures Ready() && Progress(old(Now()), data, used)
      ensures |data| <= BUFFER_SIZE ==> DoesUnit(old(Now()), Unit(old(Now()), data), used)
    {
      hide Feed, Stored, Unit, Filled, Points, Requested;
      ghost var s := Now();
      UnitOfPoint(s, data);
      if |data| < POINT_SIZE { return 0; }
      var n: nat := |data| / POINT_SIZE;
      if n > left { n := left; }
      var ready := dac.Request();
      if ready <= 0 {
        used := RefusePoints(data, n);
      } else {
        if n > ready { n := ready; }
        used := AcceptPoints(data, n);
      }
    }

    /** No room for any point: the rest of the command is thrown away. */
    method RefusePoints(data: seq<byte>, n: nat) returns (used: int)
      requires Ready() && end == Open && mode == Data && Requested(dac.Value()) <= 0
      requires 0 < n <= left && POINT_SIZE * n <= |data|
      modifies this`mode, this`left, this`replies
      ensures Ready() && used == POINT_SIZE * n && Now() == Dropped(old(Now()), n) && Now().Valid() && end == Open
      ensures Feed(old(Now()), data) == Feed(Now(), data[used..])
    {
      hide Feed;
      DroppedBatch(Now(), data, n);
      mode := DataAborting;
      used := Abort(n);
    }

    method AcceptPoints(data: seq<byte>, n: nat) returns (used: int)
      requires Ready() && end == Open && mode == Data && n <= Requested(dac.Value())
      requires 0 < n <= left && POINT_SIZE * n <= |data|
      modifies this`mode, this`left, this`replies, dac`produce, dac.ring
      ensures Ready() && used == POINT_SIZE * n && Now() == Stored(old(Now()), Points(data, n))
      ensures Now().Valid() && end == Open && Feed(old(Now()), data) == Feed(Now(), data[used..])
    {
      hide Feed, Stored, Filled, Points, Requested;
      StoredBatch(Now(), data, n);
      StoredIs(Now(), Points(data, n));
      StorePoints(data, n);
      dac.Advance(n);
      left := left - n;
      if left == 0 {
        mode := Main;
        used := SendResponse(ACK, DATA, n * POINT_SIZE);
      } else {
        used := n * POINT_SIZE;
      }
    }

    /** The label handle_aborted_data. */
    method Abort(n: nat) returns (used: int)
      requires Ready() && end == Open && 0 < n <= left && mode == DataAborting
      modifies this`mode, this`left, this`replies
      ensures Ready() && used == n * POINT_SIZE && Now() == Dropped(old(Now()), n)
    {
      left := left - n;
      if left == 0 {
        mode := Main;
        used := SendResponse(NAK_INVALID, DATA, n * POINT_SIZE);
      } else {
        used := n * POINT_SIZE;
      }
    }

    /** DATA_ABORTING. */
    method RecvAborted(data: seq<byte>) returns (used: int)
      requires Ready() && end == Open && mode == DataAborting && |data| > 0
      modifies this`mode, this`left, this`replies
      ensures Ready() && Progress(old(Now()), data, used)
      ensures |data| <= BUFFER_SIZE ==> DoesUnit(old(Now()), Unit(old(Now()), data), used)
    {
      hide Feed, Dropped, Unit;
      UnitOfPoint(Now(), data);
      if |data| < POINT_SIZE { return 0; }
      var n: nat := |data| / POINT_SIZE;
      if n > left { n := left; }
      DroppedBatch(Now(), data, n);
      used := Abort(n);
    }

    method RecvMain(data: seq<byte>) returns (used: int)
      requires Ready() && end == Open && mode == Main && |data| > 0
      modifies this`mode, this`left, this`replies, this`end, dac, dac.rates
      ensures Ready() && DoesUnit(old(Now()), Unit(old(Now()), data), used)
    {
      hide RateCommand, ShortCommand, DataCommand;
      if RateSize(data[0]) > 0 {
        used := RecvRate(data);
      } else if data[0] == DATA {
        used := RecvHeader(data);
      } else {
        used := RecvShort(data[0]);
      }
    }

    method RecvFsm(data: seq<byte>) returns (used: int)
      requires Ready() && end == Open && |data| > 0
      modifies this`mode, this`left, this`replies, this`end, dac, dac.ring, dac.rates
      ensures Ready() && Progress(old(Now()), data, used)
      ensures |data| <= BUFFER_SIZE ==> DoesUnit(old(Now()), Unit(old(Now()), data), used)
    {
      if mode == Main {
        hide Unit, Feed;
        UnitProgress(Now(), data);
        used := RecvMain(data);
      } else if mode == Data {
        used := RecvPoints(data);
      } else {
        used := RecvAborted(data);
      }
    }

    method CopyIn(p: seq<byte>, more: nat)
      requires buffered + more <= buffer.Length && more <= |p|
      modifies buffer
      ensures buffer[..buffered + more] == old(Pending()) + p[..more]
    {
      ghost var pend := Pending();
      for i := 0 to more
        invariant buffer[..buffered + i] == pend + p[..i]
      {
        buffer[buffered + i] := p[i];
        assert buffer[..buffered + i + 1] == buffer[..buffered + i] + [p[i]];
      }
    }

    /** The bytes kept from earlier packets together with the first of p. Returns
        how many bytes of p are dealt with, or -1 at the end of the stream. */
    method UseBuffered(p: seq<byte>) returns (at: int)
      requires Valid() && end == Open && 0 < buffered && p != []
      modifies this, buffer, dac, dac.ring, dac.rates
      ensures Ready() && buffered < BUFFER_SIZE && at <= |p|
      ensures var s, pend := old(Now()), old(Pending());
              if BadRate(s, pend + p) then at < 0 && buffered == 0 && (Now(), []) == Chunk(s, pend, p)
              else if at < 0 then buffered == 0 && end != Open && Feed(s, pend + p) == (Now(), [])
              else if buffered > 0 then at == |p| && Valid() && Feed(s, pend + p) == (Now(), Pending())
              else end == Open && Feed(s, pend + p) == Feed(Now(), p[at..])
    {
      hide Unit, Feed, BadRate, Chunk, Waiting;
      ghost var s, pend := Now(), Pending();
      var more := BUFFER_SIZE - buffered;
      if more > |p| { more := |p|; }
      CopyIn(p, more);
      BufferedStep(s, pend, p, more);
      var used := RecvFsm(buffer[..buffered + more]);
      if used == 0 {
        buffered := buffered + more;
        at := more;
      } else if used < 0 {
        buffered := 0;
        at := -1;
      } else if used <= buffered {
        end := ProgressAssert;
        buffered := 0;
        at := -1;
      } else {
        at := used - buffered;
        buffered := 0;
      }
    }

    /** The loop over what one packet buffer holds beyond the waiting bytes. */
    method DrainPacket(p: seq<byte>, start: nat)
      requires Ready() && buffered == 0 && end == Open && start <= |p|
      modifies this, buffer, dac, dac.ring, dac.rates
      ensures Valid() && (Now(), Pending()) == Feed(old(Now()), p[start..])
    {
      hide Unit;
      ghost var s := Now();
      var at := start;
      while at < |p| && end == Open
        invariant Ready() && start <= at <= |p| && buffered <= BUFFER_SIZE
        invariant end == Open ==>
                    Feed(s, p[start..]) == (if buffered == 0 then Feed(Now(), p[at..]) else (Now(), Pending()))
        invariant end == Open && buffered > 0 ==> at == |p| && buffered < BUFFER_SIZE && Waiting(Now(), Pending())
        invariant end != Open ==> buffered == 0 && Feed(s, p[start..]) == (Now(), [])
        decreases |p| - at, end == Open
      {
        var data := p[at..];
        var used := RecvFsm(data);
        if used == 0 {
          Keep(data);
          at := |p|;
        } else if used > 0 {
          assert data[used..] == p[at + used..];
          at := at + used;
        }
      }
    }

    method Keep(data: seq<byte>)
      requires buffer.Length == BUFFER_SIZE && |data| < BUFFER_SIZE
      modifies this`buffered, buffer
      ensures buffered == |data| && Pending() == data
    {
      for i := 0 to |data|
        modifies buffer
        invariant buffer[..i] == data[..i]
      {
        buffer[i] := data[i];
      }
      buffered := |data|;
    }

    /** The body of the loop of process_packet over its packet buffers. An empty
        buffer behind waiting bytes runs into the assertion that there is more. */
    method ProcessBuffer(p: seq<byte>)
      requires Valid() && end == Open
      modifies this, buffer, dac, dac.ring, dac.rates
      ensures Valid() && (Now(), Pending()) == Chunk(old(Now()), old(Pending()), p)
    {
      hide Unit, Feed, BadRate, Stalls;
      ghost var s, pend := Now(), Pending();
      if buffered == 0 {
        assert pend + p == p[0..];
        DrainPacket(p, 0);
      } else if p == [] {
        end := ProgressAssert;
        buffered := 0;
      } else {
        StallsExactly(s, pend, p);
        var at := UseBuffered(p);
        if at >= 0 && buffered == 0 {
          DrainPacket(p, at);
        }
      }
    }

    /** process_packet over a chain of packet buffers: what follows the end of the
        stream is dropped. */
    method ProcessPacket(ps: seq<seq<byte>>)
      requires Valid() && end == Open
      modifies this, buffer, dac, dac.ring, dac.rates
      ensures Valid() && (Now(), Pending()) == Chunks(old(Now()), old(Pending()), ps)
    {
      hide Chunk;
      ghost var s, pend := Now(), Pending();
      var k := 0;
      while k < |ps| && end == Open
        invariant Valid() && k <= |ps| && (end != Open ==> Pending() == [])
        invariant Chunks(s, pend, ps) == Chunks(Now(), Pending(), ps[k..])
      {
        ProcessBuffer(ps[k]);
        assert ps[k..][1..] == ps[k + 1..];
        k := k + 1;
      }
      if end != Open { EndedStays(Now(), ps[k..]); }
    }
  }
}
