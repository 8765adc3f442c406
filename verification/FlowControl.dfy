/** The host's sending loop (driver/libetherdream/etherdream.c) and the device's
    point stream as one system joined by two first-in first-out channels: what
    the host believes about the buffer against what is true. */
module FlowControl {
  import opened Words
  import opened Dac
  import opened PointStream
  import AckQueue

  const TARGET: int := 1700
  const MIN_SEND_POINTS: int := 40
  const MAX_SEND_POINTS: int := 80
  const BEGIN_THRESHOLD: int := 1600

  /** How far the host may overestimate what has been played. */
  const SLACK: int := 99

  /** What the host puts on the wire. */
  datatype Item =
    | PrepareItem | BeginItem(rate: nat) | QueueItem(rate: nat)
    | HeaderItem(n: nat) | PointItem(bytes: seq<byte>)
  {
    predicate Valid() {
      match this
      case PrepareItem => true
      case BeginItem(r) => 0 < r <= MAX_POINT_RATE
      case QueueItem(r) => 0 < r <= MAX_POINT_RATE
      case HeaderItem(n) => 0 < n < 0x1_0000
      case PointItem(b) => |b| == POINT_SIZE
    }

    function Bytes(): (b: seq<byte>)
      requires Valid()
      ensures b != []
    {
      match this
      case PrepareItem => [PREPARE]
      case BeginItem(r) => [BEGIN, 0, 0] + Pack32(r)
      case QueueItem(r) => [QUEUE] + Pack32(r)
      case HeaderItem(n) => [DATA, n % 0x100, n / 0x100]
      case PointItem(b) => b
    }
  }

  /** Counts kept beside the device since the run began: points taken off the
      wire, those of them thrown away, and points that left the ring, played or
      discarded. */
  datatype Tally = Tally(taken: int, dropped: int, gone: int) {
    function Held(): int {
      taken - dropped - gone
    }

    /** No later than t, with the same points taken. */
    predicate NoLater(t: Tally) {
      taken == t.taken && dropped <= t.dropped && gone <= t.gone
    }
  }

  /** A reply on its way, with the tally and the size of the data command it is for. */
  datatype Up = Up(reply: Reply, tally: Tally, size: nat)

  /** Where dac_loop is: choosing how much to send, or inside dac_send_data with
      n points at the prepare, waiting for its reply, at the begin, or reading acks. */
  datatype Pc = Deciding | Preparing(n: int) | AwaitingPrepare(n: int) | Beginning(n: int) | Acking(n: int)

  datatype Host = Host(
    pc: Pc, state: PlayState, fullness: int, // the last status
    acks: AckQueue.Acks, pendingMeta: int, beginSent: bool,
    seen: Tally,      // the tally behind the last status
    failed: bool)     // check_data_response has reported a protocol error

  datatype System = System(
    host: Host, down: seq<Item>, up: seq<Up>,
    dev: Session, current: nat, // the size of the data command being read
    tally: Tally,
    refusedFull: nat) // data refused for lack of room, the DAC not being idle

  datatype Action =
    | Decide(estimate: int, left: nat) | SendPrepare | PrepareDone | SendBegin(rate: nat)
    | SendData(rate: nat, pts: seq<seq<byte>>)
    | ReadReply
    | Receive            // the device takes the next item
    | Elsewhere(e: Event) // the timer, an emergency stop, another stop

  // ---- counting what is on the wire

  function Headers(items: seq<Item>): seq<nat> {
    if items == [] then []
    else (if items[0].HeaderItem? then [items[0].n] else []) + Headers(items[1..])
  }

  function InFlight(items: seq<Item>): nat {
    if items == [] then 0 else (if items[0].PointItem? then 1 else 0) + InFlight(items[1..])
  }

  function MetaItems(items: seq<Item>): nat {
    if items == [] then 0
    else (if items[0].HeaderItem? || items[0].PointItem? then 0 else 1) + MetaItems(items[1..])
  }

  lemma {:induction false} ItemsConcat(a: seq<Item>, b: seq<Item>)
    ensures Headers(a + b) == Headers(a) + Headers(b)
    ensures MetaItems(a + b) == MetaItems(a) + MetaItems(b)
    decreases |a|
  {
    if a == [] {
      assert a + b == b;
    } else {
      ItemsConcat(a[1..], b);
      assert (a + b)[1..] == a[1..] + b && (a + b)[0] == a[0];
      var h: seq<nat> := if a[0].HeaderItem? then [a[0].n] else [];
      ConcatAssociates(h, Headers(a[1..]), Headers(b));
    }
  }

  /** Every command on the wire is whole: left points first, then commands, each
      data header followed by its points. */
  predicate WellFormed(left: nat, items: seq<Item>)
    decreases |items|
  {
    if items == [] then left == 0
    else items[0].Valid() && (items[0].PointItem? <==> left > 0) && WellFormed(LeftAfter(left, items[0]), items[1..])
  }

  function LeftAfter(left: nat, item: Item): nat {
    match item
    case PointItem(_) => if left > 0 then left - 1 else 0
    case HeaderItem(n) => n
    case _ => 0
  }

  lemma {:induction false} WellFormedConcat(left: nat, a: seq<Item>, b: seq<Item>)
    requires WellFormed(left, a) && WellFormed(0, b)
    ensures WellFormed(left, a + b)
    decreases |a|
  {
    if a == [] {
      assert a + b == b;
    } else {
      assert (a + b)[1..] == a[1..] + b;
      WellFormedConcat(LeftAfter(left, a[0]), a[1..], b);
    }
  }

  lemma {:induction false} FlightByHeaders(left: nat, items: seq<Item>)
    requires WellFormed(left, items)
    ensures InFlight(items) == left + Sum(Headers(items))
    decreases |items|
  {
    if items != [] {
      FlightByHeaders(LeftAfter(left, items[0]), items[1..]);
      var h: seq<nat> := if items[0].HeaderItem? then [items[0].n] else [];
      SumConcat(h, Headers(items[1..]));
    }
  }

  function DataSizes(up: seq<Up>): seq<nat> {
    if up == [] then []
    else (if up[0].size > 0 then [up[0].size] else []) + DataSizes(up[1..])
  }

  function MetaUps(up: seq<Up>): nat {
    if up == [] then 0 else (if up[0].size > 0 then 0 else 1) + MetaUps(up[1..])
  }

  lemma {:induction false} UpsAppend(up: seq<Up>, u: Up)
    ensures DataSizes(up + [u]) == DataSizes(up) + DataSizes([u])
    ensures MetaUps(up + [u]) == MetaUps(up) + MetaUps([u])
    decreases |up|
  {
    if up == [] {
      assert up + [u] == [u];
    } else {
      UpsAppend(up[1..], u);
      assert (up + [u])[1..] == up[1..] + [u] && (up + [u])[0] == up[0];
      var h: seq<nat> := if up[0].size > 0 then [up[0].size] else [];
      ConcatAssociates(h, DataSizes(up[1..]), DataSizes([u]));
    }
  }

  /** Each reply on its way was sent when every point taken belonged to a command
      already answered, and carries the true fullness of that moment; from one to
      the next exactly its own command's points were taken. */
  predicate Chained(from: Tally, up: seq<Up>, to: Tally)
    decreases |up|
  {
    if up == [] then from.NoLater(to)
    else
      var t := up[0].tally;
      from.(taken := from.taken + up[0].size).NoLater(t) && ReplyOk(up[0]) && Chained(t, up[1..], to)
  }

  predicate ReplyOk(u: Up) {
    && u.reply.Reply? && (u.reply.response == ACK || u.reply.response == NAK_INVALID)
    && (u.size > 0 <==> u.reply.command == DATA) && u.reply.status.fullness == u.tally.Held()
  }

  lemma {:induction false} ChainedAppend(from: Tally, up: seq<Up>, to: Tally, u: Up)
    requires Chained(from, up, to) && to.(taken := to.taken + u.size).NoLater(u.tally) && ReplyOk(u)
    ensures Chained(from, up + [u], u.tally)
    decreases |up|
  {
    if up == [] {
      assert up + [u] == [u];
      assert [u][1..] == [];
    } else {
      assert (up + [u])[1..] == up[1..] + [u];
      ChainedAppend(up[0].tally, up[1..], to, u);
    }
  }

  lemma {:induction false} ChainedLater(from: Tally, up: seq<Up>, to: Tally, later: Tally)
    requires Chained(from, up, to) && to.NoLater(later)
    ensures Chained(from, up, later)
    decreases |up|
  {
    if up != [] { ChainedLater(up[0].tally, up[1..], to, later); }
  }

  lemma {:induction false} ChainedOrder(from: Tally, up: seq<Up>, to: Tally)
    requires Chained(from, up, to)
    ensures to.taken == from.taken + Sum(DataSizes(up)) && from.gone <= to.gone && from.dropped <= to.dropped
    decreases |up|
  {
    if up != [] {
      ChainedOrder(up[0].tally, up[1..], to);
      SumConcat(if up[0].size > 0 then [up[0].size] else [], DataSizes(up[1..]));
    }
  }

  // ---- the device, one item at a time

  function Left(s: Session): nat {
    if s.mode == Main then 0 else s.left
  }

  /** One item on the wire is one unit of recv_fsm, whatever follows it, and
      these are its effects on the fill level and its reply. */
  lemma ItemEffect(s: Session, item: Item)
    requires s.Valid() && s.end == Open && s.replies == [] && item.Valid() && (item.PointItem? <==> s.mode != Main)
    ensures Effect(s, item, Unit(s, item.Bytes()))
  {
    hide Unit, Effect;
    match item
    case PrepareItem => PrepareEffect(s);
    case BeginItem(r) => BeginEffect(s, r);
    case QueueItem(r) => QueueEffect(s, r);
    case HeaderItem(n) => HeaderEffect(s, n);
    case PointItem(b) => PointEffect(s, b);
  }

  predicate Effect(s: Session, item: Item, u: Outcome)
    requires s.Valid() && item.Valid()
  {
    && u.Used? && u.n == |item.Bytes()| && u.next.Valid() && u.next.end == Open
    && Left(u.next) == LeftAfter(Left(s), item)
    && (item.HeaderItem? || (item.PointItem? && s.left > 1) ==> u.next.replies == [])
    && (item.PointItem? && s.left == 1 ==> Answers(u.next, true))
    && (!item.HeaderItem? && !item.PointItem? ==> Answers(u.next, false))
    && (if item.PointItem? then Takes(s, u.next) else |u.next.d.Unread()| <= |s.d.Unread()|)
  }

  predicate Answers(s: Session, data: bool) {
    && |s.replies| == 1 && s.replies[0].Reply? && (data <==> s.replies[0].command == DATA)
    && (s.replies[0].response == ACK || s.replies[0].response == NAK_INVALID)
    && s.d.Valid() && s.replies[0].status.fullness == |s.d.Unread()|
  }

  /** A point is either stored or thrown away, and stored when there is room in a
      DAC that is not idle and the command has not been refused already. */
  predicate Takes(s: Session, t: Session)
    requires s.Valid() && t.Valid()
  {
    && (t.d.Unread() == s.d.Unread() || |t.d.Unread()| == |s.d.Unread()| + 1)
    && (s.mode == Data && s.d.state != Idle && |s.d.Unread()| < BUFFER_POINTS - 1 ==>
          |t.d.Unread()| == |s.d.Unread()| + 1)
  }

  lemma Answered(s: Session, d: Dev, ok: bool, command: byte, n: nat)
    requires s.replies == [] && d.Valid() && command != DATA
    ensures var u := Answer(s, d, ok, command, n);
            u.next.replies == [Reply(if ok then ACK else NAK_INVALID, command, StatusOf(d))] && Answers(u.next, false)
  {
    FullnessIsLength(d.ring, d.consume, d.produce);
  }

  lemma PrepareEffect(s: Session)
    requires s.Valid() && s.end == Open && s.replies == [] && s.mode == Main
    ensures Effect(s, PrepareItem, Unit(s, PrepareItem.Bytes()))
  {
    Answered(s, AfterPrepare(s.d), MayPrepare(s.d), PREPARE, 1);
    assert AfterPrepare(s.d).Valid() && |AfterPrepare(s.d).Unread()| <= |s.d.Unread()|;
  }

  lemma BeginEffect(s: Session, rate: nat)
    requires s.Valid() && s.end == Open && s.replies == [] && s.mode == Main && BeginItem(rate).Valid()
    ensures Effect(s, BeginItem(rate), Unit(s, BeginItem(rate).Bytes()))
  {
    var b := BeginItem(rate).Bytes();
    Le32OfPack32(rate);
    assert b[3..] == Pack32(rate) && Le32(b, 3) == Le32(b[3..], 0) && b[0] == BEGIN;
    Answered(s, AfterStart(s.d.(pps := rate)), true, BEGIN, BEGIN_SIZE);
  }

  lemma QueueEffect(s: Session, rate: nat)
    requires s.Valid() && s.end == Open && s.replies == [] && s.mode == Main && QueueItem(rate).Valid()
    ensures Effect(s, QueueItem(rate), Unit(s, QueueItem(rate).Bytes()))
  {
    var b := QueueItem(rate).Bytes();
    Le32OfPack32(rate);
    assert b[1..] == Pack32(rate) && Le32(b, 1) == Le32(b[1..], 0) && b[0] == QUEUE;
    RateQueueAppends(s.d, rate);
    Answered(s, AfterRateQueue(s.d, rate), true, QUEUE, QUEUE_SIZE);
  }

  lemma HeaderEffect(s: Session, n: nat)
    requires s.Valid() && s.end == Open && s.replies == [] && s.mode == Main && HeaderItem(n).Valid()
    ensures Effect(s, HeaderItem(n), Unit(s, HeaderItem(n).Bytes()))
  {
    assert Le16(HeaderItem(n).Bytes(), 1) == n;
  }

  lemma PointEffect(s: Session, b: seq<byte>)
    requires s.Valid() && s.end == Open && s.replies == [] && s.mode != Main && |b| == POINT_SIZE
    ensures Effect(s, PointItem(b), Unit(s, b))
  {
    hide Requested, Stored, Filled, Advanced, Contents;
    FullnessIsLength(s.d.ring, s.d.consume, s.d.produce);
    assert b[..POINT_SIZE] == b;
    if s.mode == Data && Requested(s.d) > 0 {
      StoredOne(s, b);
      var t := Stored(s, [b]);
      FullnessIsLength(t.d.ring, t.d.consume, t.d.produce);
    } else {
      NoRoom(s.d);
    }
  }

  lemma NoRoom(d: Dev)
    requires d.Valid()
    ensures Requested(d) <= 0 ==> d.state == Idle || |d.Unread()| == BUFFER_POINTS - 1
  {
    RoomExact(d.ring, d.consume, d.produce);
  }

  // ---- the system

  function Estimated(h: Host, estimate: int): int {
    if h.state == Playing then estimate else 0
  }

  /** The line of dac_loop that says how much more may be sent. */
  function Cap(h: Host, estimate: int): int {
    TARGET - (h.fullness + h.acks.unacked - Estimated(h, estimate))
  }

  function Least(a: int, b: int): int {
    if a < b then a else b
  }

  predicate Reading(pc: Pc) {
    pc.Deciding? || pc.AwaitingPrepare? || pc.Acking?
  }

  /** What can happen next. */
  predicate Possible(s: System, a: Action) {
    s.host.acks.Valid() &&
    match a
    case Decide(estimate, left) => s.host.pc.Deciding? && 0 <= estimate
    case SendPrepare => s.host.pc.Preparing?
    case PrepareDone => s.host.pc.AwaitingPrepare? && s.host.pendingMeta == 0
    case SendBegin(rate) => s.host.pc.Beginning? && 0 < rate <= MAX_POINT_RATE
    case SendData(rate, pts) =>
      s.host.pc.Acking? && 0 < rate <= MAX_POINT_RATE
      && |pts| == (if s.host.pc.n > 0 then s.host.pc.n else 0) && forall p <- pts :: |p| == POINT_SIZE
    case ReadReply =>
      Reading(s.host.pc) && (s.host.pendingMeta != 0 || s.host.acks.prod != s.host.acks.cons) && s.up != []
    case Receive =>
      s.down != [] && s.down[0].Valid() && s.dev.Valid() && s.dev.end == Open
      && Unit(s.dev.(replies := []), s.down[0].Bytes()).Used?
    case Elsewhere(e) => !e.Write? && s.dev.Valid() && Enabled(s.dev.d, e)
  }

  /** The estimate of what has been played since the last status is too high by at
      most SLACK. */
  predicate Calibrated(s: System, a: Action) {
    a.Decide? ==> a.estimate <= s.tally.gone - s.host.seen.gone + SLACK
  }

  function PointItems(pts: seq<seq<byte>>): seq<Item> {
    if pts == [] then [] else [PointItem(pts[0])] + PointItems(pts[1..])
  }

  /** A point with DAC_CTRL_RATE_CHANGE set: the top bit of the control word, which a
      point begins with, low byte first. Nothing else of it changes. */
  function Marked(p: seq<byte>): (q: seq<byte>)
    requires |p| == POINT_SIZE
    ensures |q| == POINT_SIZE && q[1] / 0x80 == 1 && q[1] % 0x80 == p[1] % 0x80
    ensures forall k :: 0 <= k < POINT_SIZE && k != 1 ==> q[k] == p[k]
  {
    if p[1] / 0x80 == 1 then p else p[1 := p[1] + 0x80]
  }

  /** The points of a command as they are sent: the first asks for the rate change. */
  function MarkFirst(pts: seq<seq<byte>>): (sent: seq<seq<byte>>)
    requires forall p <- pts :: |p| == POINT_SIZE
    ensures |sent| == |pts| && forall p <- sent :: |p| == POINT_SIZE
  {
    if pts == [] then [] else [Marked(pts[0])] + pts[1..]
  }

  function Command(rate: nat, pts: seq<seq<byte>>): seq<Item>
    requires forall p <- pts :: |p| == POINT_SIZE
  {
    [QueueItem(rate), HeaderItem(|pts|)] + PointItems(MarkFirst(pts))
  }

  function AfterSend(s: System, rate: nat, pts: seq<seq<byte>>): System
    requires s.host.acks.Valid() && forall p <- pts :: |p| == POINT_SIZE
  {
    if pts == [] then s.(host := s.host.(pc := Deciding))
    else s.(host := s.host.(pc := Deciding, pendingMeta := s.host.pendingMeta + 1,
                            acks := AckQueue.Pushed(s.host.acks, |pts|)),
            down := s.down + Command(rate, pts))
  }

  /** check_data_response. */
  function Checked(h: Host, u: Up): Host
    requires u.reply.Reply? && h.acks.Valid()
  {
    var r := u.reply;
    var h := h.(state := r.status.state, fullness := r.status.fullness, seen := u.tally,
                beginSent := h.beginSent && r.status.state != Idle);
    if r.command == DATA then
      if h.acks.prod == h.acks.cons then h.(failed := true)
      else h.(acks := AckQueue.Popped(h.acks),
              failed := h.failed || (r.response != ACK && r.response != NAK_INVALID))
    else h.(pendingMeta := h.pendingMeta - 1,
            failed := h.failed || (r.response != ACK && r.response != NAK_INVALID))
  }

  function Received(s: System): System
    requires Possible(s, Receive)
  {
    var item, dev := s.down[0], s.dev.(replies := []);
    var next := Unit(dev, item.Bytes()).next;
    var was, now := |dev.d.Unread()|, |next.d.Unread()|;
    var tally := if item.PointItem? then
                   Tally(s.tally.taken + 1, s.tally.dropped + (if now == was then 1 else 0), s.tally.gone)
                 else s.tally.(gone := s.tally.gone + was - now);
    s.(down := s.down[1..], dev := next, tally := tally,
       current := if item.HeaderItem? then item.n else if next.mode == Main then 0 else s.current,
       up := if next.replies == [] then s.up else s.up + [Up(next.replies[0], tally, s.current)],
       refusedFull := s.refusedFull
         + if item.PointItem? && now == was && dev.mode == Data && dev.d.state != Idle then 1 else 0)
  }

  function Act(s: System, a: Action): System
    requires Possible(s, a)
  {
    match a
    case Decide(estimate, left) =>
      var cap := Cap(s.host, estimate);
      if cap > MIN_SEND_POINTS || s.host.state != Playing then
        s.(host := s.host.(pc := Preparing(Least(Least(cap, left), MAX_SEND_POINTS))))
      else s
    case SendPrepare =>
      if s.host.state == Idle then
        s.(host := s.host.(pc := AwaitingPrepare(s.host.pc.n), pendingMeta := s.host.pendingMeta + 1),
           down := s.down + [PrepareItem])
      else s.(host := s.host.(pc := Beginning(s.host.pc.n)))
    case PrepareDone => s.(host := s.host.(pc := Beginning(s.host.pc.n)))
    case SendBegin(rate) =>
      if s.host.fullness > BEGIN_THRESHOLD && s.host.state == Prepared && !s.host.beginSent then
        s.(host := s.host.(pc := Acking(s.host.pc.n), pendingMeta := s.host.pendingMeta + 1, beginSent := true),
           down := s.down + [BeginItem(rate)])
      else s.(host := s.host.(pc := Acking(s.host.pc.n)))
    case SendData(rate, pts) => AfterSend(s, rate, pts)
    case ReadReply =>
      if s.up[0].reply.Reply? then s.(host := Checked(s.host, s.up[0]), up := s.up[1..]) else s
    case Receive => Received(s)
    case Elsewhere(e) =>
      var d := Dac.Step(s.dev.d, e);
      s.(dev := s.dev.(d := d),
         tally := s.tally.(gone := s.tally.gone + if d.Valid() then |s.dev.d.Unread()| - |d.Unread()| else 0))
  }

  /** Points buffered or on the wire to the device. */
  function Outstanding(s: System): int
    requires s.dev.Valid()
  {
    |s.dev.d.Unread()| + InFlight(s.down)
  }

  function ToSend(pc: Pc): int {
    if pc.Deciding? || pc.n < 0 then 0 else pc.n
  }

  /** The points of data commands taken in and answered. */
  function Settled(s: System): Tally {
    s.tally.(taken := s.tally.taken - (s.current - Left(s.dev)))
  }

  function InHand(s: System): seq<nat> {
    if s.current == 0 then [] else [s.current]
  }

  /** The sizes of the data commands not yet answered as far as the host knows,
      oldest first. */
  function Owes(s: System): seq<nat> {
    DataSizes(s.up) + InHand(s) + Headers(s.down)
  }

  /** What is on the wire fits together: whole commands one way, true reports the
      other, and as many replies to come as the host waits for. */
  predicate Channels(s: System) {
    && s.dev.Valid() && s.dev.end == Open
    && WellFormed(Left(s.dev), s.down) && (s.current == 0 <==> s.dev.mode == Main) && Left(s.dev) <= s.current
    && |s.dev.d.Unread()| == s.tally.Held()
    && Chained(s.host.seen, s.up, Settled(s)) && s.host.fullness == s.host.seen.Held()
    && s.host.pendingMeta == MetaUps(s.up) + MetaItems(s.down)
    && ToSend(s.host.pc) <= MAX_SEND_POINTS
  }

  /** And the host's ring of acknowledgements holds exactly what is owed. */
  predicate Balanced(s: System) {
    Channels(s) && AckQueue.Agrees(s.host.acks, Owes(s)) && !s.host.failed
  }

  predicate Inv(s: System) {
    Balanced(s) && Outstanding(s) + ToSend(s.host.pc) < BUFFER_POINTS && s.refusedFull == 0
  }

  /** A connection just made to a device in any state, its status read. */
  predicate Initial(s: System) {
    && s.dev.Valid() && s.dev.end == Open && s.dev.mode == Main && s.down == [] && s.up == [] && s.current == 0
    && s.tally == Tally(|s.dev.d.Unread()|, 0, 0) && s.refusedFull == 0
    && s.host == Host(Deciding, s.dev.d.state, |s.dev.d.Unread()|, s.host.acks, 0, false, s.tally, false)
    && AckQueue.Agrees(s.host.acks, [])
  }

  predicate Runs(s: System, actions: seq<Action>, t: System)
    decreases |actions|
  {
    if actions == [] then s == t
    else Possible(s, actions[0]) && Calibrated(s, actions[0]) && Runs(Act(s, actions[0]), actions[1..], t)
  }

  lemma InitialInv(s: System)
    requires Initial(s)
    ensures Inv(s)
  {
    FullnessIsLength(s.dev.d.ring, s.dev.d.consume, s.dev.d.produce);
  }

  /** While the host's ring is right: what the device holds and what is on its way
      is what it last reported plus what the host counts as unacknowledged, less
      what has left the ring or been refused since that report. */
  lemma Accounting(s: System)
    requires Balanced(s)
    ensures Outstanding(s) == s.host.fullness + s.host.acks.unacked
              - (s.tally.gone - s.host.seen.gone) - (s.tally.dropped - s.host.seen.dropped)
    ensures s.host.seen.gone <= s.tally.gone && s.host.seen.dropped <= s.tally.dropped
  {
    FlightByHeaders(Left(s.dev), s.down);
    ChainedOrder(s.host.seen, s.up, Settled(s));
    SumConcat(DataSizes(s.up) + InHand(s), Headers(s.down));
    SumConcat(DataSizes(s.up), InHand(s));
    assert Sum(InHand(s)) == s.current by { if s.current > 0 { assert Sum([s.current]) == s.current + Sum([]); } }
  }

  /** How full the device can get: the amount chosen aims at 1700 and misses by
      exactly the error of the estimate, less what has been refused meanwhile. */
  lemma CapExact(s: System, estimate: int)
    requires Balanced(s)
    ensures Outstanding(s) + Cap(s.host, estimate)
         == TARGET + (Estimated(s.host, estimate) - (s.tally.gone - s.host.seen.gone))
            - (s.tally.dropped - s.host.seen.dropped)
  {
    Accounting(s);
  }

  // ---- what every action keeps, whatever has become of the host's ring

  /** Whole commands go on the wire. */
  lemma SendChannels(s: System, items: seq<Item>, h: Host)
    requires Channels(s) && WellFormed(0, items) && ToSend(h.pc) <= MAX_SEND_POINTS
    requires h.pendingMeta == s.host.pendingMeta + MetaItems(items)
    requires h.fullness == s.host.fullness && h.seen == s.host.seen
    ensures var t := s.(host := h, down := s.down + items);
            && Channels(t) && Owes(t) == Owes(s) + Headers(items)
            && Outstanding(t) == Outstanding(s) + Sum(Headers(items))
  {
    hide Chained, DataSizes, MetaUps, Headers, MetaItems, WellFormed, Sum, InFlight, Contents;
    var t := s.(host := h, down := s.down + items);
    WellFormedConcat(Left(s.dev), s.down, items);
    ItemsConcat(s.down, items);
    SumConcat(Headers(s.down), Headers(items));
    FlightByHeaders(Left(s.dev), s.down);
    FlightByHeaders(Left(s.dev), s.down + items);
    assert Settled(t) == Settled(s) && InHand(t) == InHand(s);
    ConcatAssociates(DataSizes(s.up) + InHand(s), Headers(s.down), Headers(items));
  }

  lemma {:induction false} PointItemsForm(pts: seq<seq<byte>>)
    requires forall p <- pts :: |p| == POINT_SIZE
    ensures WellFormed(|pts|, PointItems(pts)) && Headers(PointItems(pts)) == [] && MetaItems(PointItems(pts)) == 0
    decreases |pts|
  {
    if pts != [] {
      PointItemsForm(pts[1..]);
      assert PointItems(pts)[1..] == PointItems(pts[1..]);
    }
  }

  lemma CommandForm(rate: nat, pts: seq<seq<byte>>)
    requires 0 < rate <= MAX_POINT_RATE && 0 < |pts| < 0x1_0000 && forall p <- pts :: |p| == POINT_SIZE
    ensures WellFormed(0, Command(rate, pts)) && MetaItems(Command(rate, pts)) == 1
    ensures Headers(Command(rate, pts)) == [|pts|]
    ensures Sum([|pts|]) == |pts|
  {
    PointItemsForm(MarkFirst(pts));
    var c, points := Command(rate, pts), PointItems(MarkFirst(pts));
    assert c[1..] == [HeaderItem(|pts|)] + points && c[1..][1..] == points;
    assert Sum([|pts|]) == |pts| + Sum([]);
  }

  /** One command item without points. */
  lemma SingleForm(item: Item)
    requires item.Valid() && !item.HeaderItem? && !item.PointItem?
    ensures WellFormed(0, [item]) && Headers([item]) == [] && MetaItems([item]) == 1
  {
    assert [item][1..] == [];
  }

  /** The host moves on without sending. */
  lemma MoveOn(s: System, pc: Pc)
    requires Channels(s) && ToSend(pc) <= MAX_SEND_POINTS
    ensures var t := s.(host := s.host.(pc := pc));
            Channels(t) && Owes(t) == Owes(s) && Outstanding(t) == Outstanding(s)
  {
    var t := s.(host := s.host.(pc := pc));
    assert Settled(t) == Settled(s) && InHand(t) == InHand(s);
  }

  /** What an action of the host's adds to what is owed, or a reply read takes off. */
  function OwesAfter(s: System, a: Action): seq<nat> {
    match a
    case SendData(_, pts) => if pts == [] then Owes(s) else Owes(s) + [|pts|]
    case ReadReply => if s.up != [] && s.up[0].size > 0 && Owes(s) != [] then Owes(s)[1..] else Owes(s)
    case _ => Owes(s)
  }

  lemma SendKeeps(s: System, a: Action)
    requires Channels(s) && Possible(s, a) && (a.SendPrepare? || a.SendBegin? || a.SendData?)
    ensures var t := Act(s, a);
            && Channels(t) && Owes(t) == OwesAfter(s, a)
            && Outstanding(t) + ToSend(t.host.pc) <= Outstanding(s) + ToSend(s.host.pc)
  {
    var t := Act(s, a);
    var none: seq<nat> := [];
    assert Sum(none) == 0;
    hide Channels, Headers, MetaItems, WellFormed, Outstanding, Sum, Owes;
    PcBounded(s);
    MoveOn(s, t.host.pc);
    match a
    case SendPrepare =>
      SingleForm(PrepareItem);
      if s.host.state == Idle { SendChannels(s, [PrepareItem], t.host); }
    case SendBegin(rate) =>
      SingleForm(BeginItem(rate));
      if t.down != s.down { SendChannels(s, [BeginItem(rate)], t.host); }
    case SendData(rate, pts) =>
      if pts != [] {
        CommandForm(rate, pts);
        SendChannels(s, Command(rate, pts), t.host);
      }
  }

  lemma PcBounded(s: System)
    requires Channels(s)
    ensures ToSend(s.host.pc) <= MAX_SEND_POINTS
  {
  }

  /** The head of the reply channel is for the oldest command owed, or for none. */
  lemma ReadChannels(s: System)
    requires Channels(s) && Possible(s, ReadReply)
    ensures var t := Act(s, ReadReply);
            && Channels(t) && Owes(t) == OwesAfter(s, ReadReply)
            && (s.up[0].size > 0 ==> Owes(s) != [] && Owes(s)[0] == s.up[0].size)
            && ReplyOk(s.up[0]) && t.host.pc == s.host.pc && Outstanding(t) == Outstanding(s)
  {
    hide WellFormed, Headers, MetaItems, InFlight, Contents;
    var t := Act(s, ReadReply);
    assert Settled(t) == Settled(s) && InHand(t) == InHand(s);
    OldestOwed(s.up, InHand(s), Headers(s.down));
  }

  lemma OldestOwed(up: seq<Up>, current: seq<nat>, headers: seq<nat>)
    requires up != []
    ensures var rest := DataSizes(up[1..]) + current + headers;
            var owed := DataSizes(up) + current + headers;
            if up[0].size > 0 then owed == [up[0].size] + rest && owed[1..] == rest else owed == rest
  {
    var tail := DataSizes(up[1..]);
    if up[0].size > 0 {
      assert DataSizes(up) == [up[0].size] + tail;
      hide DataSizes;
      Front(up[0].size, tail, current, headers);
    } else {
      assert DataSizes(up) == [] + tail == tail;
    }
  }

  lemma Front(x: nat, a: seq<nat>, b: seq<nat>, c: seq<nat>)
    ensures ([x] + a) + b + c == [x] + (a + b + c) && ([x] + (a + b + c))[1..] == a + b + c
  {
  }

  /** The clauses of Channels about replies, and what they are owed for. */
  predicate Owed(s: System, owes: seq<nat>) {
    && Chained(s.host.seen, s.up, Settled(s)) && Owes(s) == owes
    && s.host.pendingMeta == MetaUps(s.up) + MetaItems(s.down)
  }

  lemma OwedNoReply(s: System, t: System)
    requires Owed(s, Owes(s)) && t.up == s.up && t.host == s.host && Settled(s).NoLater(Settled(t))
    requires InHand(t) + Headers(t.down) == InHand(s) + Headers(s.down) && MetaItems(t.down) == MetaItems(s.down)
    ensures Owed(t, Owes(s))
  {
    ChainedLater(s.host.seen, s.up, Settled(s), Settled(t));
    ConcatAssociates(DataSizes(s.up), InHand(s), Headers(s.down));
    ConcatAssociates(DataSizes(s.up), InHand(t), Headers(t.down));
  }

  lemma OwedReply(s: System, t: System, u: Up)
    requires Owed(s, Owes(s)) && t.up == s.up + [u] && t.host == s.host && ReplyOk(u)
    requires Settled(s).(taken := Settled(s).taken + u.size).NoLater(u.tally) && Settled(t) == u.tally
    requires InHand(s) == (if u.size > 0 then [u.size] else []) && InHand(t) == []
    requires Headers(t.down) == Headers(s.down)
    requires MetaItems(s.down) == MetaItems(t.down) + (if u.size > 0 then 0 else 1)
    ensures Owed(t, Owes(s))
  {
    UpsAppend(s.up, u);
    ChainedAppend(s.host.seen, s.up, Settled(s), u);
    assert [u][1..] == [];
  }

  /** The next item always parses, and it moves points from the wire to the ring
      or, refused, out of the system; for lack of room only when there is none. */
  lemma ReceiveKeeps(s: System)
    requires Channels(s) && s.down != [] && s.host.acks.Valid()
    ensures Possible(s, Receive)
    ensures var t := Act(s, Receive);
            && Channels(t) && t.host == s.host && Owes(t) == Owes(s) && Outstanding(t) <= Outstanding(s)
            && (Outstanding(s) < BUFFER_POINTS ==> t.refusedFull == s.refusedFull)
  {
    hide Unit, DataSizes, MetaUps, Chained, Sum, Contents, Owes;
    var item, dev := s.down[0], s.dev.(replies := []);
    ItemEffect(dev, item);
    FlightByHeaders(Left(s.dev), s.down);
    FullnessIsLength(dev.d.ring, dev.d.consume, dev.d.produce);
    var t := Received(s);
    assert WellFormed(Left(t.dev), t.down);
    FlightByHeaders(Left(t.dev), t.down);
    ReceivedOwed(s, t);
  }

  lemma ReceivedOwed(s: System, t: System)
    requires Channels(s) && s.down != [] && Possible(s, Receive) && t == Received(s)
    requires Effect(s.dev.(replies := []), s.down[0], Unit(s.dev.(replies := []), s.down[0].Bytes()))
    ensures Owed(t, Owes(s))
  {
    hide Unit, DataSizes, MetaUps, Chained, Sum, WellFormed, Contents, Owes;
    assert s.down[0].PointItem? <==> s.dev.mode != Main by { WellFormedHead(s); }
    if t.up == s.up {
      OwedNoReply(s, t);
    } else {
      OwedReply(s, t, t.up[|s.up|]);
    }
  }

  lemma WellFormedHead(s: System)
    requires Channels(s) && s.down != []
    ensures s.down[0].Valid() && (s.down[0].PointItem? <==> s.dev.mode != Main)
  {
  }

  lemma ElsewhereKeeps(s: System, e: Event)
    requires Channels(s) && Possible(s, Elsewhere(e))
    ensures var t := Act(s, Elsewhere(e));
            && Channels(t) && t.host == s.host && Owes(t) == Owes(s)
            && Outstanding(t) <= Outstanding(s) && t.refusedFull == s.refusedFull
  {
    hide Chained, WellFormed, DataSizes, MetaUps, Headers, MetaItems, Sum, InFlight, Contents, Dac.Step, Enabled;
    EventShrinks(s.dev.d, e);
    var t := Act(s, Elsewhere(e));
    ChainedLater(s.host.seen, s.up, Settled(s), Settled(t));
  }

  lemma EventShrinks(d: Dev, e: Event)
    requires Enabled(d, e) && !e.Write?
    ensures Dac.Step(d, e).Valid() && |Dac.Step(d, e).Unread()| <= |d.Unread()|
  {
    match e
    case QueueRate(r) => RateQueueAppends(d, r);
    case PopRate => PopRateTakesOldest(d);
    case Tick => IrqTakesOldest(d);
    case _ =>
  }

  /** Every action keeps the channels whole. Only a send adds to what is owed, and
      only reading a data reply takes off it, the oldest first. */
  lemma ChannelsKept(s: System, a: Action)
    requires Channels(s) && Possible(s, a)
    ensures Channels(Act(s, a)) && Owes(Act(s, a)) == OwesAfter(s, a)
  {
    hide Channels, Owes;
    match a
    case Decide(estimate, left) => PcBounded(s); MoveOn(s, Act(s, a).host.pc);
    case PrepareDone => PcBounded(s); MoveOn(s, Beginning(s.host.pc.n));
    case ReadReply => ReadChannels(s);
    case Receive => ReceiveKeeps(s);
    case Elsewhere(e) => ElsewhereKeeps(s, e);
    case _ => SendKeeps(s, a);
  }

  // ---- what the ring of 64 acknowledgements adds

  /** A data command sent while the ring has no slot to spare. */
  predicate Crowded(s: System, a: Action)
    requires s.host.acks.Valid()
  {
    a.SendData? && a.pts != [] && (s.host.acks.prod + 1) % AckQueue.MAX_LATE_ACKS == s.host.acks.cons
  }

  /** The ring has no slot to spare exactly when 63 commands are owed. */
  lemma CrowdedExact(a: AckQueue.Acks, owed: seq<nat>)
    requires AckQueue.Agrees(a, owed)
    ensures |owed| < AckQueue.MAX_LATE_ACKS
    ensures (a.prod + 1) % AckQueue.MAX_LATE_ACKS == a.cons <==> |owed| == AckQueue.MAX_LATE_ACKS - 1
  {
    AckQueue.Wraps(a.prod);
    FullnessIsLength(a.ring, a.cons, a.prod);
  }

  /** The bound on what the device holds and is sent survives every action. */
  lemma OutstandingKept(s: System, a: Action)
    requires Inv(s) && Possible(s, a) && Calibrated(s, a)
    ensures var t := Act(s, a);
            t.dev.Valid() && Outstanding(t) + ToSend(t.host.pc) < BUFFER_POINTS && t.refusedFull == 0
  {
    hide Outstanding, Owes, Chained, DataSizes, Headers, WellFormed, MetaUps, MetaItems;
    match a
    case Decide(estimate, left) =>
      CapExact(s, estimate);
      Accounting(s);
      MoveOn(s, Act(s, a).host.pc);
    case PrepareDone => MoveOn(s, Beginning(s.host.pc.n));
    case ReadReply => ReadChannels(s);
    case Receive => ReceiveKeeps(s);
    case Elsewhere(e) => ElsewhereKeeps(s, e);
    case _ => SendKeeps(s, a);
  }

  /** The host's ring after an action. */
  lemma RingKept(s: System, a: Action)
    requires Balanced(s) && Possible(s, a)
    ensures var t := Act(s, a);
            AckQueue.Agrees(t.host.acks, OwesAfter(s, a)) && !t.host.failed <==> !Crowded(s, a)
  {
    hide Owes, Chained, WellFormed, AckQueue.Agrees, AckQueue.Pushed, AckQueue.Popped;
    CrowdedExact(s.host.acks, Owes(s));
    if a.SendData? && a.pts != [] {
      AckQueue.PushExact(s.host.acks, Owes(s), |a.pts|);
    } else if a.ReadReply? {
      ReadChannels(s);
      AckQueue.PopTakesOldest(s.host.acks, Owes(s));
    } else if a.Receive? {
      ReceiveKeeps(s);
    }
  }

  /** An action keeps everything if and only if it is no crowded send. */
  lemma ActKeeps(s: System, a: Action)
    requires Inv(s) && Possible(s, a) && Calibrated(s, a)
    ensures Inv(Act(s, a)) <==> !Crowded(s, a)
  {
    hide Channels, Owes, Outstanding, Act, AckQueue.Agrees;
    ChannelsKept(s, a);
    OutstandingKept(s, a);
    RingKept(s, a);
  }

  /** No data command of a run is sent while the ring has no slot to spare. */
  predicate NeverCrowded(s: System, actions: seq<Action>)
    decreases |actions|
  {
    actions == [] ||
    (Possible(s, actions[0]) && !Crowded(s, actions[0]) && NeverCrowded(Act(s, actions[0]), actions[1..]))
  }

  /** The accounts hold, and nothing has gone wrong, after every action of a run. */
  predicate AlwaysHolds(s: System, actions: seq<Action>)
    decreases |actions|
  {
    Inv(s) && (actions == [] || (Possible(s, actions[0]) && AlwaysHolds(Act(s, actions[0]), actions[1..])))
  }

  /** Over every run of host and device joined by first-in first-out channels,
      with the timer and other stops at any moment: the host's accounts hold
      throughout, no data is refused for a full ring and the host sees no protocol
      error, if and only if no data command is sent while 63 are unanswered. */
  lemma {:induction false} FlowExact(s: System, actions: seq<Action>, t: System)
    requires Inv(s) && Runs(s, actions, t)
    ensures AlwaysHolds(s, actions) <==> NeverCrowded(s, actions)
    decreases |actions|
  {
    if actions != [] {
      ActKeeps(s, actions[0]);
      if !Crowded(s, actions[0]) { FlowExact(Act(s, actions[0]), actions[1..], t); }
    }
  }

  /** What then holds at the end of the run. */
  lemma {:induction false} FlowControlled(s: System, actions: seq<Action>, t: System)
    requires Inv(s) && Runs(s, actions, t) && NeverCrowded(s, actions)
    ensures Inv(t) && t.refusedFull == 0 && !t.host.failed && Outstanding(t) < BUFFER_POINTS
    ensures t.down != [] ==> Possible(t, Receive)
    ensures Outstanding(t) == t.host.fullness + t.host.acks.unacked
              - (t.tally.gone - t.host.seen.gone) - (t.tally.dropped - t.host.seen.dropped)
    decreases |actions|
  {
    if actions == [] {
      Accounting(t);
      if t.down != [] { ReceiveKeeps(t); }
    } else {
      ActKeeps(s, actions[0]);
      FlowControlled(Act(s, actions[0]), actions[1..], t);
    }
  }

  /** The ring has lost count: at least 64 more commands are owed than it holds. */
  predicate Behind(s: System) {
    && s.host.acks.Valid()
    && (s.host.failed || |Owes(s)| >= |s.host.acks.Queued()| + AckQueue.MAX_LATE_ACKS)
  }

  lemma BehindKept(s: System, a: Action)
    requires Channels(s) && Possible(s, a) && Behind(s)
    ensures Behind(Act(s, a))
  {
    hide Channels, Owes, AckQueue.Acks.Queued;
    ChannelsKept(s, a);
    if a.SendData? && a.pts != [] {
      AckQueue.PushedQueue(s.host.acks, |a.pts|);
    } else if a.ReadReply? {
      ReadChannels(s);
      AckQueue.PoppedQueue(s.host.acks);
    } else if a.Receive? {
      WireHolds(s);
      ReceiveKeeps(s);
    }
  }

  lemma WireHolds(s: System)
    requires Possible(s, Receive)
    ensures s.down != [] && s.host.acks.Valid()
  {
  }

  lemma {:induction false} BehindForever(s: System, actions: seq<Action>, t: System)
    requires Channels(s) && Behind(s) && Runs(s, actions, t)
    ensures Channels(t) && Behind(t)
    decreases |actions|
  {
    if actions != [] {
      ChannelsKept(s, actions[0]);
      BehindKept(s, actions[0]);
      BehindForever(Act(s, actions[0]), actions[1..], t);
    }
  }

  /** A crowded send makes the ring look empty, and the host never recovers: in
      every run from there it either reports a protocol error or still waits for
      64 commands, so reading all the replies it is owed brings the error. */
  lemma CrowdedLoses(s: System, a: Action, actions: seq<Action>, t: System)
    requires Inv(s) && Possible(s, a) && Crowded(s, a) && Runs(Act(s, a), actions, t)
    ensures Act(s, a).host.acks.prod == Act(s, a).host.acks.cons
    ensures t.host.failed || |Owes(t)| >= AckQueue.MAX_LATE_ACKS
  {
    CrowdedBehind(s, a);
    hide Channels, Owes, Possible, Act, Runs;
    BehindForever(Act(s, a), actions, t);
  }

  lemma CrowdedBehind(s: System, a: Action)
    requires Inv(s) && Possible(s, a) && Crowded(s, a)
    ensures Channels(Act(s, a)) && Behind(Act(s, a))
    ensures Act(s, a).host.acks.prod == Act(s, a).host.acks.cons
  {
    hide Channels, Owes, Outstanding;
    CrowdedExact(s.host.acks, Owes(s));
    AckQueue.PushedQueue(s.host.acks, |a.pts|);
    ChannelsKept(s, a);
  }

  // ---- how a crowded send comes about

  /** One turn of the host's loop over a frame with one point left, up to the send. */
  function Lead(): seq<Action> {
    [Decide(0, 1), SendPrepare, SendBegin(1)]
  }

  function SendOne(): Action {
    SendData(1, [seq(POINT_SIZE, _ => 0)])
  }

  function Rounds(n: nat): seq<Action> {
    if n == 0 then [] else Lead() + [SendOne()] + Rounds(n - 1)
  }

  /** The host has sent n single points to a prepared, empty device and read nothing. */
  predicate NothingRead(s: System, n: nat) {
    && Inv(s) && s.host.pc == Deciding && s.host.state == Prepared && s.host.fullness == 0
    && s.host.acks.unacked == n == |Owes(s)|
  }

  /** The first three steps of a turn bring the host to the send of one point. */
  lemma RoundSteps(s: System, n: nat)
    requires s.host.acks.Valid() && s.host.pc == Deciding && s.host.state == Prepared && s.host.fullness == 0
    requires s.host.acks.unacked == n < AckQueue.MAX_LATE_ACKS && s.host.seen.gone <= s.tally.gone
    ensures var t := s.(host := s.host.(pc := Acking(1)));
            Runs(s, Lead(), t) && Possible(t, SendOne()) && Calibrated(t, SendOne())
  {
    var s1 := s.(host := s.host.(pc := Preparing(1)));
    var s2 := s.(host := s.host.(pc := Beginning(1)));
    var t := s.(host := s.host.(pc := Acking(1)));
    assert Act(s, Decide(0, 1)) == s1 && Act(s1, SendPrepare) == s2 && Act(s2, SendBegin(1)) == t;
    var none: seq<Action> := [];
    RunsFirst(s2, SendBegin(1), none, t);
    RunsFirst(s1, SendPrepare, [SendBegin(1)] + none, t);
    RunsFirst(s, Decide(0, 1), [SendPrepare] + ([SendBegin(1)] + none), t);
    assert Lead() == [Decide(0, 1)] + ([SendPrepare] + ([SendBegin(1)] + none));
  }

  lemma RunsFirst(s: System, a: Action, actions: seq<Action>, t: System)
    requires Possible(s, a) && Calibrated(s, a) && Runs(Act(s, a), actions, t)
    ensures Runs(s, [a] + actions, t)
  {
    assert ([a] + actions)[1..] == actions;
  }

  lemma RoundRuns(s: System, n: nat) returns (t: System)
    requires NothingRead(s, n) && n < AckQueue.MAX_LATE_ACKS
    ensures Runs(s, Lead(), t) && Possible(t, SendOne()) && Calibrated(t, SendOne()) && Inv(t)
    ensures Crowded(t, SendOne()) <==> n == AckQueue.MAX_LATE_ACKS - 1
    ensures n < AckQueue.MAX_LATE_ACKS - 1 ==> NothingRead(Act(t, SendOne()), n + 1)
  {
    t := s.(host := s.host.(pc := Acking(1)));
    hide Channels, Owes, Outstanding;
    Accounting(s);
    RoundSteps(s, n);
    MoveOn(s, Acking(1));
    ActKeeps(t, SendOne());
    ChannelsKept(t, SendOne());
    CrowdedExact(t.host.acks, Owes(t));
    hide Runs;
  }

  lemma {:induction false} RunsConcat(s: System, a: seq<Action>, u: System, b: seq<Action>, t: System)
    requires Runs(s, a, u) && Runs(u, b, t)
    ensures Runs(s, a + b, t)
    decreases |a|
  {
    hide Act, Possible, Calibrated;
    if a == [] {
      assert a + b == b;
    } else {
      assert (a + b)[1..] == a[1..] + b;
      RunsConcat(Act(s, a[0]), a[1..], u, b, t);
    }
  }

  lemma LastStep(s: System, run: seq<Action>, u: System, a: Action)
    requires Runs(s, run, u) && Possible(u, a) && Calibrated(u, a)
    ensures Runs(s, run + [a], Act(u, a))
  {
    assert [a][1..] == [];
    RunsConcat(s, run, u, [a], Act(u, a));
  }

  lemma NoRounds(s: System)
    ensures Runs(s, Rounds(0), s)
  {
  }

  lemma FirstOfRounds(k: nat)
    requires k > 0
    ensures Rounds(k) == Lead() + [SendOne()] + Rounds(k - 1)
  {
  }

  lemma {:induction false} RoundsRun(s: System, n: nat, k: nat) returns (t: System)
    requires NothingRead(s, n) && n + k < AckQueue.MAX_LATE_ACKS
    ensures Runs(s, Rounds(k), t) && NothingRead(t, n + k)
    decreases k
  {
    hide NothingRead, Inv, Runs, Possible, Calibrated, Act, Crowded, Lead, SendOne, Rounds;
    if k == 0 {
      t := s;
      NoRounds(s);
    } else {
      var u := RoundRuns(s, n);
      var v := Act(u, SendOne());
      LastStep(s, Lead(), u, SendOne());
      t := RoundsRun(v, n + 1, k - 1);
      RunsConcat(s, Lead() + [SendOne()], v, Rounds(k - 1), t);
      FirstOfRounds(k);
    }
  }

  /** The failing run: from a fresh connection to any prepared, empty device, the
      host can send single points 63 times without an answer, and the 64th send is
      then crowded. */
  lemma CrowdedReached(s: System) returns (t: System)
    requires Initial(s) && s.dev.d.state == Prepared && s.dev.d.Unread() == []
    ensures Runs(s, Rounds(63) + Lead(), t) && Possible(t, SendOne()) && Crowded(t, SendOne())
    ensures !AlwaysHolds(s, Rounds(63) + Lead() + [SendOne()])
  {
    t := ManyRounds(s, 63);
  }

  lemma ManyRounds(s: System, n: nat) returns (t: System)
    requires Initial(s) && s.dev.d.state == Prepared && s.dev.d.Unread() == [] && n == AckQueue.MAX_LATE_ACKS - 1
    ensures Runs(s, Rounds(n) + Lead(), t) && Possible(t, SendOne()) && Crowded(t, SendOne())
    ensures !AlwaysHolds(s, Rounds(n) + Lead() + [SendOne()])
  {
    InitialInv(s);
    FirstRound(s);
    hide Inv, NothingRead, Initial, Possible, Calibrated, Act, Crowded, Runs, AlwaysHolds, Rounds, Lead, SendOne;
    var u := RoundsRun(s, 0, n);
    t := RoundRuns(u, n);
    RunsConcat(s, Rounds(n), u, Lead(), t);
    RunEnds(s, Rounds(n) + Lead(), t, SendOne());
  }

  lemma FirstRound(s: System)
    requires Initial(s) && Inv(s) && s.dev.d.state == Prepared && s.dev.d.Unread() == []
    ensures NothingRead(s, 0)
  {
  }

  lemma {:induction false} RunEnds(s: System, run: seq<Action>, t: System, a: Action)
    requires Runs(s, run, t) && Possible(t, a) && Calibrated(t, a) && Inv(t) && Crowded(t, a)
    ensures !AlwaysHolds(s, run + [a])
    decreases |run|
  {
    if run == [] {
      ActKeeps(t, a);
      assert (run + [a])[1..] == [];
    } else {
      assert (run + [a])[1..] == run[1..] + [a];
      RunEnds(Act(s, run[0]), run[1..], t, a);
    }
  }

  /** When the number chosen is negative: while the device does not play and holds,
      as far as the host knows, more than the target. */
  lemma DecideNegative(s: System, estimate: int, left: nat)
    requires Possible(s, Decide(estimate, left))
    ensures var pc := Act(s, Decide(estimate, left)).host.pc;
            pc.Preparing? && pc.n < 0 <==> s.host.state != Playing && s.host.fullness + s.host.acks.unacked > TARGET
  {
  }

  /** How much is chosen: the most that the frame has left, that a turn may send, and
      that brings what the device is thought to hold to 1700 at the most. While it
      plays the host waits until there is room for more than 40. */
  lemma DecideGreatest(s: System, estimate: int, left: nat, m: int)
    requires Possible(s, Decide(estimate, left))
    ensures var known := s.host.fullness + s.host.acks.unacked - (if s.host.state == Playing then estimate else 0);
            var pc := Act(s, Decide(estimate, left)).host.pc;
            && (pc.Preparing? <==> s.host.state != Playing || known + 40 < 1700)
            && (pc.Preparing? ==> (m <= pc.n <==> m <= left && m <= 80 && known + m <= 1700))
  {
  }

  /** Begin commands put on the wire over a run, read off the wire. */
  function Begins(s: System, actions: seq<Action>): nat
    decreases |actions|
  {
    if actions == [] || !Possible(s, actions[0]) then 0
    else
      var t := Act(s, actions[0]);
      (if |t.down| > |s.down| && t.down[|s.down|].BeginItem? then 1 else 0) + Begins(t, actions[1..])
  }

  /** Replies read over a run that report an idle device. */
  function IdleReplies(s: System, actions: seq<Action>): nat
    decreases |actions|
  {
    if actions == [] || !Possible(s, actions[0]) then 0
    else
      (if actions[0].ReadReply? && s.up[0].reply.Reply? && s.up[0].reply.status.state == Idle then 1 else 0)
      + IdleReplies(Act(s, actions[0]), actions[1..])
  }

  /** One begin command for each time the device stopped: over every run no more are
      sent than idle devices were reported, and one. */
  lemma {:induction false} BeginOnce(s: System, actions: seq<Action>, t: System)
    requires Runs(s, actions, t)
    ensures Begins(s, actions) <= IdleReplies(s, actions) + if s.host.beginSent then 0 else 1
    decreases |actions|
  {
    if actions != [] {
      BeginStep(s, actions[0]);
      hide Act, Possible;
      BeginOnce(Act(s, actions[0]), actions[1..], t);
    }
  }

  lemma BeginStep(s: System, a: Action)
    requires Possible(s, a)
    ensures var t := Act(s, a);
            var sent := |t.down| > |s.down| && t.down[|s.down|].BeginItem?;
            && (sent <==> a.SendBegin? && s.host.fullness > 1600 && s.host.state == Prepared && !s.host.beginSent)
            && (sent ==> t.host.beginSent && t.down == s.down + [BeginItem(a.rate)])
            && (s.host.beginSent && !t.host.beginSent ==>
                  a.ReadReply? && s.up[0].reply.Reply? && s.up[0].reply.status.state == Idle)
  {
    hide Unit;
  }

  /** Items one after another on the wire are what the device's byte stream makes
      of them. */
  lemma OnTheWire(s: Session, item: Item, rest: seq<byte>)
    requires s.Valid() && s.end == Open && s.replies == [] && item.Valid() && (item.PointItem? <==> s.mode != Main)
    ensures var u := Unit(s, item.Bytes());
            u.Used? && u.next.Valid() && Feed(s, item.Bytes() + rest) == Feed(u.next, rest)
  {
    ItemEffect(s, item);
    UnitStable(s, item.Bytes(), rest);
    UnitProgress(s, item.Bytes() + rest);
    hide Unit, Feed;
    assert (item.Bytes() + rest)[|item.Bytes()|..] == rest;
  }

  /** The last reply read over a run, or what was known before. */
  function LastRead(s: System, actions: seq<Action>, known: Status): Status
    decreases |actions|
  {
    if actions == [] || !Possible(s, actions[0]) then known
    else
      LastRead(Act(s, actions[0]), actions[1..],
               if actions[0].ReadReply? && s.up[0].reply.Reply? then s.up[0].reply.status else known)
  }

  /** What the host believes of the device is what the last reply it read says. */
  lemma {:induction false} Believes(s: System, actions: seq<Action>, t: System, known: Status)
    requires Runs(s, actions, t) && s.host.state == known.state && s.host.fullness == known.fullness
    ensures var status := LastRead(s, actions, known);
            t.host.state == status.state && t.host.fullness == status.fullness
    decreases |actions|
  {
    if actions != [] {
      var a := actions[0];
      var next := if a.ReadReply? && s.up[0].reply.Reply? then s.up[0].reply.status else known;
      StepBelieves(s, a, next);
      hide Act, Possible;
      Believes(Act(s, a), actions[1..], t, next);
    }
  }

  lemma StepBelieves(s: System, a: Action, next: Status)
    requires Possible(s, a)
    requires if a.ReadReply? && s.up[0].reply.Reply? then next == s.up[0].reply.status
             else s.host.state == next.state && s.host.fullness == next.fullness
    ensures Act(s, a).host.state == next.state && Act(s, a).host.fullness == next.fullness
  {
    hide Unit, Dac.Step;
  }

  // ---- why the slack is 99

  /** The device takes everything that is on the wire, uninterrupted. */
  function Drained(s: System): System
    decreases |s.down|
  {
    if s.down == [] || !Possible(s, Receive) then s else Drained(Received(s))
  }

  lemma {:induction false} RefusalsStay(s: System)
    ensures Drained(s).refusedFull >= s.refusedFull
    decreases |s.down|
  {
    if s.down != [] && Possible(s, Receive) { RefusalsStay(Received(s)); }
  }

  /** In the middle of a data command, the DAC not being idle. */
  predicate Filling(s: System, pts: seq<seq<byte>>) {
    && s.down == PointItems(pts) && (forall p <- pts :: |p| == POINT_SIZE)
    && s.host.acks.Valid() && s.dev.Valid() && s.dev.end == Open && s.dev.d.state != Idle
    && (if pts == [] then s.dev.mode == Main else s.dev.mode == Data && s.dev.left == |pts|)
  }

  lemma PointReceived(s: System, pts: seq<seq<byte>>)
    requires Filling(s, pts) && pts != []
    ensures Possible(s, Receive)
    ensures Space(s.dev.d) == 0 ==> Received(s).refusedFull == s.refusedFull + 1
    ensures Space(s.dev.d) > 0 ==>
              Received(s).refusedFull == s.refusedFull && Filling(Received(s), pts[1..])
              && Space(Received(s).dev.d) == Space(s.dev.d) - 1
  {
    hide Stored, Contents;
    var dev := s.dev.(replies := []);
    assert s.down[1..] == PointItems(pts[1..]);
    ItemEffect(dev, PointItem(pts[0]));
    RoomExact(dev.d.ring, dev.d.consume, dev.d.produce);
    assert PointItem(pts[0]).Bytes()[..POINT_SIZE] == pts[0];
    if Space(s.dev.d) > 0 {
      StoredOne(dev, pts[0]);
      StoredIs(dev, [pts[0]]);
    }
  }

  lemma {:induction false} PointsReceived(s: System, pts: seq<seq<byte>>)
    requires Filling(s, pts)
    ensures Drained(s).refusedFull == s.refusedFull <==> |pts| <= Space(s.dev.d)
    decreases |pts|
  {
    if pts != [] {
      PointReceived(s, pts);
      if Space(s.dev.d) > 0 {
        PointsReceived(Received(s), pts[1..]);
      } else {
        RefusalsStay(Received(s));
      }
    }
  }

  /** Before a data command: nothing on the wire, and a DAC that is not idle. */
  predicate Quiet(s: System) {
    && s.host.acks.Valid() && s.down == []
    && s.dev.Valid() && s.dev.end == Open && s.dev.mode == Main && s.dev.d.state != Idle
  }

  /** Uninterrupted, a data command is refused exactly when it does not fit. */
  lemma SendFits(s: System, rate: nat, pts: seq<seq<byte>>)
    requires Quiet(s) && 0 < rate <= MAX_POINT_RATE && 0 < |pts| < 0x1_0000 && forall p <- pts :: |p| == POINT_SIZE
    ensures Drained(AfterSend(s, rate, pts)).refusedFull == s.refusedFull <==> |pts| <= Space(s.dev.d)
  {
    hide Contents, Received, Unit, Possible, Space, Command, PointItems, MarkFirst, Drained;
    var t := AfterSend(s, rate, pts);
    CommandParts(rate, pts);
    assert t.down == Command(rate, pts);
    QueueReceived(t, rate);
    DrainStep(t);
    var u := Received(t);
    HeaderReceived(u, |pts|);
    DrainStep(u);
    PointsReceived(Received(u), MarkFirst(pts));
  }

  lemma CommandParts(rate: nat, pts: seq<seq<byte>>)
    requires forall p <- pts :: |p| == POINT_SIZE
    ensures var c := Command(rate, pts);
            && |c| >= 2 && c[0] == QueueItem(rate) && c[1..][0] == HeaderItem(|pts|)
            && c[1..][1..] == PointItems(MarkFirst(pts))
  {
  }

  lemma DrainStep(s: System)
    requires s.down != [] && Possible(s, Receive)
    ensures Drained(s) == Drained(Received(s))
  {
  }

  lemma QueueReceived(s: System, rate: nat)
    requires s.host.acks.Valid() && s.dev.Valid() && s.dev.end == Open && s.dev.mode == Main
    requires 0 < rate <= MAX_POINT_RATE
    requires s.down != [] && s.down[0] == QueueItem(rate)
    ensures Possible(s, Receive)
    ensures var t := Received(s);
            && t.host == s.host && t.down == s.down[1..] && t.refusedFull == s.refusedFull
            && t.dev.Valid() && t.dev.end == Open && t.dev.mode == Main && t.dev.d.state == s.dev.d.state
            && Space(t.dev.d) == Space(s.dev.d)
  {
    var dev := s.dev.(replies := []);
    var b := QueueItem(rate).Bytes();
    QueueEffect(dev, rate);
    Le32OfPack32(rate);
    assert b[1..] == Pack32(rate) && Le32(b, 1) == Le32(b[1..], 0) && b[0] == QUEUE;
  }

  lemma HeaderReceived(s: System, n: nat)
    requires s.host.acks.Valid() && s.dev.Valid() && s.dev.end == Open && s.dev.mode == Main && 0 < n < 0x1_0000
    requires s.down != [] && s.down[0] == HeaderItem(n)
    ensures Possible(s, Receive)
    ensures var t := Received(s);
            && t.host == s.host && t.down == s.down[1..] && t.refusedFull == s.refusedFull
            && t.dev.Valid() && t.dev.end == Open && t.dev.mode == Data && t.dev.left == n && t.dev.d == s.dev.d
  {
    HeaderEffect(s.dev.(replies := []), n);
    assert Le16(HeaderItem(n).Bytes(), 1) == n;
  }

  /** The host's turn while the device plays: decide, and send what was decided. */
  function Turn(s: System, estimate: int, left: nat, rate: nat, pts: seq<seq<byte>>): System
    requires Possible(s, Decide(estimate, left)) && s.host.state == Playing
    requires MIN_SEND_POINTS < Cap(s.host, estimate) == |pts| <= MAX_SEND_POINTS && |pts| <= left
    requires 0 < rate <= MAX_POINT_RATE && forall p <- pts :: |p| == POINT_SIZE
  {
    Act(Act(Act(Act(s, Decide(estimate, left)), SendPrepare), SendBegin(rate)), SendData(rate, pts))
  }

  lemma TurnSends(s: System, estimate: int, left: nat, rate: nat, pts: seq<seq<byte>>)
    requires Possible(s, Decide(estimate, left)) && s.host.state == Playing
    requires MIN_SEND_POINTS < Cap(s.host, estimate) == |pts| <= MAX_SEND_POINTS && |pts| <= left
    requires 0 < rate <= MAX_POINT_RATE && forall p <- pts :: |p| == POINT_SIZE
    ensures Turn(s, estimate, left, rate, pts) == AfterSend(s.(host := s.host.(pc := Acking(|pts|))), rate, pts)
  {
    hide AfterSend;
  }

  /** The slack is exact. When nothing is on the wire, nothing has been refused
      since the last status and nothing is played meanwhile, the points the host
      sends are all accepted if and only if its estimate was at most 99 too high. */
  lemma SlackExact(s: System, estimate: int, left: nat, rate: nat, pts: seq<seq<byte>>)
    requires Balanced(s) && Quiet(s) && s.tally.dropped == s.host.seen.dropped
    requires Possible(s, Decide(estimate, left)) && s.host.state == Playing
    requires MIN_SEND_POINTS < Cap(s.host, estimate) == |pts| <= MAX_SEND_POINTS && |pts| <= left
    requires 0 < rate <= MAX_POINT_RATE && forall p <- pts :: |p| == POINT_SIZE
    ensures Drained(Turn(s, estimate, left, rate, pts)).refusedFull == s.refusedFull
       <==> estimate - (s.tally.gone - s.host.seen.gone) <= SLACK
  {
    hide Balanced, Drained, AfterSend, Possible, Command;
    CapExact(s, estimate);
    TurnSends(s, estimate, left, rate, pts);
    hide Turn;
    SendFits(s.(host := s.host.(pc := Acking(|pts|))), rate, pts);
  }
}
