/** The point ring of firmware/lib/dac.c under preemption: the point timer and
    other interrupts may come between any two steps of a producer that asks for
    room, writes points and announces them. */
module DacRing {
  import opened Dac

  /** Where the producer is. Seen: dac_request has read consume. Writing: it was
      granted room and has put pts there. Passed: dac_advance has looked at the
      state and not yet stored the new produce. */
  datatype Producer =
    | Free
    | Seen(at: nat, held: nat)
    | Writing(room: nat, pts: seq<Point>)
    | Passed(pts: seq<Point>)

  datatype System = System(
    d: Dev,
    pc: Producer,
    grant: int,             // what the last dac_request returned
    held: nat,              // how many points the ring held when it read consume
    produced: seq<Point>,   // announced since the last prepare
    consumed: seq<Point>)   // played since the last prepare

  datatype Action =
    | ReadConsume
    | Grant               // the rest of dac_request
    | Put(p: Point)
    | CheckState          // dac_advance's test
    | Commit              // dac_advance's store
    | Interrupt(i: Event) // at any time
    | Call(c: Event)      // from the producer's own thread, between its requests

  predicate Interrupting(e: Event) {
    e.Tick? || e.AbstractTick? || e.PopRate? || e.Stop? || e.Trip?
  }

  predicate Possible(s: System, a: Action) {
    match a
    case ReadConsume => s.pc.Free? && s.d.Valid()
    case Grant => s.pc.Seen?
    case Put(_) => s.pc.Writing? && |s.pc.pts| < s.pc.room && s.d.Valid() && s.d.produce + |s.pc.pts| < BUFFER_POINTS
    case CheckState => s.pc.Writing?
    case Commit => s.pc.Passed?
    case Interrupt(e) => Interrupting(e) && Enabled(s.d, e)
    case Call(e) => s.pc.Free? && !e.Write? && !Interrupting(e) && Enabled(s.d, e)
  }

  function Act(s: System, a: Action): System
    requires Possible(s, a)
  {
    match a
    case ReadConsume => s.(pc := Seen(s.d.consume, |s.d.Unread()|))
    case Grant =>
      var n := if s.d.state == Idle then -1 else Room(s.d.produce, s.pc.at);
      s.(grant := n, held := s.pc.held, pc := if n <= 0 then Free else Writing(n, []))
    case Put(p) =>
      s.(d := s.d.(ring := s.d.ring[s.d.produce + |s.pc.pts| := p]), pc := s.pc.(pts := s.pc.pts + [p]))
    case CheckState => s.(pc := if s.d.state == Idle then Free else Passed(s.pc.pts))
    case Commit =>
      s.(d := s.d.(produce := (s.d.produce + |s.pc.pts|) % BUFFER_POINTS),
         produced := s.produced + s.pc.pts,
         pc := Free)
    case Interrupt(e) =>
      if e.Tick? && s.d.produce != s.d.consume then
        s.(d := Dac.Step(s.d, e), consumed := s.consumed + [s.d.ring[s.d.consume]])
      else s.(d := Dac.Step(s.d, e))
    case Call(e) =>
      var d := Dac.Step(s.d, e);
      if e.Prepare? && MayPrepare(s.d) then s.(d := d, produced := [], consumed := [])
      else s.(d := d)
  }

  predicate Runs(s: System, actions: seq<Action>, t: System)
    decreases |actions|
  {
    if actions == [] then s == t
    else Possible(s, actions[0]) && Runs(Act(s, actions[0]), actions[1..], t)
  }

  const START := System(FRESH, Free, -1, 0, [], [])

  /** Index i holds a point that is still to be played. */
  predicate IsUnread(d: Dev, i: nat) {
    if d.consume <= d.produce then d.consume <= i < d.produce else d.consume <= i || i < d.produce
  }

  /** Room for n points from produce on, clear of everything unread. */
  predicate ClearOfUnread(d: Dev, n: nat) {
    d.produce + n <= BUFFER_POINTS && forall i :: d.produce <= i < d.produce + n ==> !IsUnread(d, i)
  }

  predicate Held(d: Dev, consume: nat) {
    && consume < BUFFER_POINTS
    && Fullness(d.produce, d.consume, BUFFER_POINTS) <= Fullness(d.produce, consume, BUFFER_POINTS)
  }

  predicate Fits(d: Dev, n: nat) {
    d.produce + n <= BUFFER_POINTS && Fullness(d.produce, d.consume, BUFFER_POINTS) + n < BUFFER_POINTS
  }

  predicate Inv(s: System) {
    && s.d.Valid() && Sound(s.d)
    && s.consumed + s.d.Unread() == s.produced
    && (s.grant == 0 ==> s.held == BUFFER_POINTS - 1) && (s.grant > 0 ==> s.held < BUFFER_POINTS - 1) && s.grant >= -1
    && match s.pc
       case Free => true
       case Seen(at, held) => Held(s.d, at) && held == Fullness(s.d.produce, at, BUFFER_POINTS)
       case Writing(room, pts) => |pts| <= room && Fits(s.d, room) && s.d.ring[s.d.produce..s.d.produce + |pts|] == pts
       case Passed(pts) => Fits(s.d, |pts|) && s.d.ring[s.d.produce..s.d.produce + |pts|] == pts
  }

  /** A consume value that has gone stale only makes the grant smaller. */
  lemma StaleIsConservative(d: Dev, at: nat)
    requires d.Valid() && Held(d, at)
    ensures 0 <= Room(d.produce, at) <= Room(d.produce, d.consume)
    ensures Fits(d, Room(d.produce, at))
  {
  }

  lemma FitsIsClear(d: Dev, n: nat)
    requires d.Valid() && Fits(d, n)
    ensures ClearOfUnread(d, n)
  {
  }

  lemma PutKeeps(s: System, p: Point)
    requires Inv(s) && Possible(s, Put(p))
    ensures Inv(Act(s, Put(p)))
  {
    var at := s.d.produce + |s.pc.pts|;
    var ring := s.d.ring[at := p];
    assert ring[..s.d.produce] == s.d.ring[..s.d.produce];
    assert ring[s.d.produce..at] == s.d.ring[s.d.produce..at];
    assert ring[s.d.produce..at + 1] == ring[s.d.produce..at] + [p];
    if s.d.consume > s.d.produce {
      assert ring[s.d.consume..] == s.d.ring[s.d.consume..];
    } else {
      assert ring[s.d.consume..s.d.produce] == s.d.ring[s.d.consume..s.d.produce];
    }
  }

  lemma CommitKeeps(s: System)
    requires Inv(s) && Possible(s, Commit)
    ensures Inv(Act(s, Commit))
  {
    hide Contents, Room, Sound;
    SoundMoves(s.d, (s.d.produce + |s.pc.pts|) % BUFFER_POINTS);
    var p, c, pts := s.d.produce, s.d.consume, s.pc.pts;
    var end := p + |pts|;
    assert s.d.ring == s.d.ring[..p] + pts + s.d.ring[end..];
    RingAppends(s.d.ring, c, p, pts);
    Wrapped(end);
  }

  lemma SoundMoves(d: Dev, produce: nat)
    requires Sound(d) && produce < BUFFER_POINTS
    ensures Sound(d.(produce := produce))
  {
  }

  lemma Wrapped(end: nat)
    requires end <= BUFFER_POINTS
    ensures end % BUFFER_POINTS == if end == BUFFER_POINTS then 0 else end
  {
  }

  lemma InvSound(s: System)
    requires Inv(s)
    ensures Sound(s.d) && s.d.Valid()
  {
  }

  /** A step that leaves the ring alone. */
  lemma OtherKeeps(s: System, d: Dev)
    requires Inv(s) && d.Valid() && Sound(d)
    requires d.ring == s.d.ring && d.produce == s.d.produce && d.consume == s.d.consume
    ensures Inv(s.(d := d))
  {
  }

  /** A step that plays the oldest point. */
  lemma TickKeeps(s: System)
    requires Inv(s) && s.d.produce != s.d.consume && Sound(AfterIrq(s.d))
    ensures Inv(s.(d := AfterIrq(s.d), consumed := s.consumed + [s.d.ring[s.d.consume]]))
  {
    hide Sound, Contents, Room;
    var p := s.d.ring[s.d.consume];
    var t := s.(d := AfterIrq(s.d), consumed := s.consumed + [p]);
    UnreadHead(s.d);
    assert s.consumed + ([p] + t.d.Unread()) == t.consumed + t.d.Unread();
    PlayedFits(s.d);
  }

  lemma UnreadHead(d: Dev)
    requires d.Valid() && d.produce != d.consume
    ensures AfterIrq(d).Valid() && d.Unread() == [d.ring[d.consume]] + AfterIrq(d).Unread()
  {
    IrqTakesOldest(d);
  }

  lemma PlayedFits(d: Dev)
    requires d.Valid() && d.produce != d.consume
    ensures Fullness(d.produce, AfterIrq(d).consume, BUFFER_POINTS) == Fullness(d.produce, d.consume, BUFFER_POINTS) - 1
  {
  }

  lemma InterruptKeeps(s: System, e: Event)
    requires Inv(s) && Possible(s, Interrupt(e))
    ensures Inv(Act(s, Interrupt(e)))
  {
    InvSound(s);
    hide Sound, Inv, Contents;
    StepSound(s.d, e);
    if e.Tick? && s.d.produce != s.d.consume {
      TickKeeps(s);
    } else {
      OtherKeeps(s, Dac.Step(s.d, e));
    }
  }

  lemma CallKeeps(s: System, e: Event)
    requires Inv(s) && Possible(s, Call(e))
    ensures Inv(Act(s, Call(e)))
  {
    StepSound(s.d, e);
  }

  lemma ActKeeps(s: System, a: Action)
    requires Inv(s) && Possible(s, a)
    ensures Inv(Act(s, a))
  {
    match a
    case Grant => StaleIsConservative(s.d, s.pc.at);
    case Put(p) => PutKeeps(s, p);
    case Commit => CommitKeeps(s);
    case Interrupt(e) => InterruptKeeps(s, e);
    case Call(e) => CallKeeps(s, e);
    case _ =>
  }

  lemma {:induction false} RunKeeps(s: System, actions: seq<Action>, t: System)
    requires Inv(s) && Runs(s, actions, t)
    ensures Inv(t)
    decreases |actions|
  {
    if actions != [] {
      ActKeeps(s, actions[0]);
      RunKeeps(Act(s, actions[0]), actions[1..], t);
    }
  }

  /** Over every interleaving: the points played are a prefix of the points
      announced, in order, and the ring holds the rest, never more than 1799;
      the region being written never overlaps a point still to be played; and a
      request is refused for lack of room exactly when the ring held 1799 points
      at the moment it looked. */
  lemma RingSafety(actions: seq<Action>, t: System)
    requires Runs(START, actions, t)
    ensures t.d.Valid() && t.produced == t.consumed + t.d.Unread() && |t.d.Unread()| < BUFFER_POINTS
    ensures t.pc.Writing? ==> ClearOfUnread(t.d, t.pc.room)
    ensures t.pc.Passed? ==> ClearOfUnread(t.d, |t.pc.pts|)
    ensures t.grant >= 0 ==> (t.grant == 0 <==> t.held == BUFFER_POINTS - 1)
  {
    assert START.d == FRESH && FRESH.Unread() == [];
    FreshSound();
    RunKeeps(START, actions, t);
    RoomExact(t.d.ring, t.d.consume, t.d.produce);
    if t.pc.Writing? { FitsIsClear(t.d, t.pc.room); }
    if t.pc.Passed? { FitsIsClear(t.d, |t.pc.pts|); }
  }
}
