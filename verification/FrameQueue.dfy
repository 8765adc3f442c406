/** The two-slot frame queue of driver/libetherdream/etherdream.c: one writer that
    fills its slot outside the mutex, the sending thread that reads its slot
    outside the mutex, and etherdream_stop. Each step below is one that no other
    thread can split. */
module FrameQueue {
  import Dac
  import FlowControl

  const NFRAMES: nat := 2
  const POINTS_PER_FRAME: nat := 16000
  const MAX_SEND_POINTS: nat := 80

  type Point = seq<int>

  datatype Frame = Frame(points: seq<Point>, pps: int, reps: int)

  datatype Phase = Ready | Running | Shutdown

  /** Filling: the writer has put the first `at` points of f into its slot. */
  datatype Writer = Outside | Filling(slot: nat, f: Frame, at: nat) | Filled(slot: nat, f: Frame)

  /** AtTop: holding the mutex at the head of the loop. Sending: outside it. Sent:
      n points have gone out of the slot, or none if n is negative, and the mutex
      is still to be taken. */
  datatype Loop = AtTop | Sending(slot: nat) | Sent(slot: nat, n: int) | Ended

  datatype Pass = Pass(frame: nat, points: seq<Point>)

  datatype System = System(
    slots: seq<Frame>, read: nat, fullness: nat, phase: Phase, idx: int,
    writer: Writer, loop: Loop,
    written: seq<Frame>,  // in the order etherdream_write accepted them
    taken: nat,           // how many of them the loop has moved past
    line: seq<Point>,     // sent so far in this pass out of the current frame
    strays: nat,          // points ever read from in front of a frame's data
    passes: seq<Pass>)    // complete passes, in order

  datatype Step =
    | Write(f: Frame) | FillPoint | FillRest | Publish
    | Wake | Send(n: int) | Fail | Account
    | Stop | Disconnect

  /** etherdream_write cuts long frames. */
  function Clipped(f: Frame): Frame {
    if |f.points| > POINTS_PER_FRAME then f.(points := f.points[..POINTS_PER_FRAME]) else f
  }

  predicate Possible(s: System, e: Step) {
    |s.slots| == NFRAMES && s.read < NFRAMES &&
    match e
    case Write(_) => s.writer.Outside?
    case FillPoint => s.writer.Filling? && s.writer.slot < NFRAMES && s.writer.at < |s.writer.f.points|
    case FillRest => s.writer.Filling? && s.writer.slot < NFRAMES && s.writer.at == |s.writer.f.points|
    case Publish => s.writer.Filled?
    case Wake => s.loop.AtTop? && s.phase != Ready
    case Send(n) =>
      && s.loop.Sending? && s.loop.slot < NFRAMES && n <= MAX_SEND_POINTS
      && s.idx + n <= |s.slots[s.loop.slot].points|
    case Fail => s.loop.Sending?
    case Account => s.loop.Sent? && s.loop.slot < NFRAMES
    case Stop => true
    case Disconnect => true
  }

  function FilledTo(was: seq<Point>, points: seq<Point>, at: nat): seq<Point>
    requires at < |points|
  {
    points[..at + 1] + if at + 1 <= |was| then was[at + 1..] else []
  }

  function Most(a: int, b: int): int {
    if a > b then a else b
  }

  function Act(s: System, e: Step): System
    requires Possible(s, e)
  {
    match e
    case Write(f) =>
      if f.reps == 0 || s.fullness == NFRAMES then s
      else s.(writer := Filling((s.read + s.fullness) % NFRAMES, Clipped(f), 0))
    case FillPoint =>
      var slot := s.slots[s.writer.slot];
      s.(slots := s.slots[s.writer.slot := slot.(points := FilledTo(slot.points, s.writer.f.points, s.writer.at))],
         writer := s.writer.(at := s.writer.at + 1))
    case FillRest => s.(slots := s.slots[s.writer.slot := s.writer.f], writer := Filled(s.writer.slot, s.writer.f))
    case Publish =>
      s.(fullness := s.fullness + 1, phase := Running, written := s.written + [s.writer.f], writer := Outside)
    case Wake => if s.phase == Running then s.(loop := Sending(s.read)) else s.(loop := Ended, phase := Shutdown)
    case Send(n) =>
      var from, to := Most(s.idx, 0), Most(s.idx + n, 0);
      s.(loop := Sent(s.loop.slot, n),
         line := s.line + if n > 0 then s.slots[s.loop.slot].points[from..to] else [],
         strays := s.strays + if n > 0 then (from - s.idx) - (to - (s.idx + n)) else 0)
    case Fail => s.(loop := Ended, phase := Shutdown)
    case Account => Accounted(s)
    case Stop =>
      if s.phase == Running then s.(slots := s.slots[s.read := s.slots[s.read].(reps := 0)]) else s
    case Disconnect => s.(phase := Shutdown)
  }

  /** The end of dac_loop's body, under the mutex. */
  function Accounted(s: System): System
    requires Possible(s, Account)
  {
    var b, idx := s.slots[s.loop.slot], s.idx + s.loop.n;
    if idx < |b.points| then s.(idx := idx, loop := AtTop)
    else
      var t := s.(idx := 0, loop := AtTop, line := [], passes := s.passes + [Pass(s.taken, s.line)]);
      if b.reps > 1 then t.(slots := t.slots[s.loop.slot := b.(reps := b.reps - 1)])
      else if t.fullness > 1 then
        t.(fullness := t.fullness - 1, read := if t.read + 1 >= NFRAMES then 0 else t.read + 1, taken := t.taken + 1)
      else if b.reps >= 0 then t.(phase := Ready)
      else t
  }

  predicate Runs(s: System, steps: seq<Step>, t: System)
    decreases |steps|
  {
    if steps == [] then s == t
    else Possible(s, steps[0]) && Runs(Act(s, steps[0]), steps[1..], t)
  }

  const EMPTY := Frame([], 0, 0)
  const START := System([EMPTY, EMPTY], 0, 0, Ready, 0, Outside, AtTop, [], 0, [], 0, [])

  function Slot(s: System, j: nat): nat {
    (s.read + j) % NFRAMES
  }

  /** The j-th queued frame stands unharmed in its slot, but for the repeats. */
  predicate Intact(s: System, j: nat)
    requires |s.slots| == NFRAMES && s.taken + j < |s.written|
  {
    s.slots[Slot(s, j)].points == s.written[s.taken + j].points && s.slots[Slot(s, j)].pps == s.written[s.taken + j].pps
  }

  predicate WriterOk(s: System) {
    match s.writer
    case Outside => true
    case Filling(slot, f, at) =>
      s.fullness < NFRAMES && slot == Slot(s, s.fullness) && at <= |f.points| <= POINTS_PER_FRAME
    case Filled(slot, f) =>
      |s.slots| == NFRAMES && s.fullness < NFRAMES && slot == Slot(s, s.fullness)
      && s.slots[slot].points == f.points && s.slots[slot].pps == f.pps
  }

  predicate LoopOk(s: System) {
    match s.loop
    case Sending(slot) => slot == s.read && s.fullness >= 1
    case Sent(slot, n) => slot == s.read && s.fullness >= 1
    case AtTop => true
    case Ended => true
  }

  /** What has been sent in this pass is the front of the current frame. */
  predicate LineOk(s: System)
    requires |s.written| == s.taken + s.fullness
  {
    s.strays == 0 &&
    if s.fullness == 0 then s.idx == 0 && s.line == []
    else
      var pts := s.written[s.taken].points;
      0 <= s.idx <= |pts| &&
      match s.loop
      case Sending(_) => s.line == pts[..s.idx]
      case Sent(_, n) => n >= 0 && s.idx + n <= |pts| && s.line == pts[..s.idx + n]
      case AtTop => s.line == pts[..s.idx]
      case Ended => true
  }

  /** Complete passes are whole frames in the order written, none skipped. */
  predicate PassesOk(s: System) {
    && (forall k :: 0 <= k < |s.passes| ==> s.passes[k].frame < |s.written|)
    && (forall k :: 0 <= k < |s.passes| ==> s.passes[k].points == s.written[s.passes[k].frame].points)
    && (forall k :: 0 < k < |s.passes| ==>
          s.passes[k].frame == s.passes[k - 1].frame || s.passes[k].frame == s.passes[k - 1].frame + 1)
    && (s.passes == [] ==> s.taken == 0)
    && (s.passes != [] ==> s.passes[0].frame == 0)
    && (s.passes != [] ==> s.passes[|s.passes| - 1].frame <= s.taken <= s.passes[|s.passes| - 1].frame + 1)
  }

  predicate Inv(s: System) {
    && |s.slots| == NFRAMES && s.read < NFRAMES && s.fullness <= NFRAMES
    && |s.written| == s.taken + s.fullness
    && (s.fullness == 0 ==> s.phase != Running && s.taken == 0)
    && (s.fullness > 0 ==> Intact(s, 0)) && (s.fullness > 1 ==> Intact(s, 1))
    && WriterOk(s) && LoopOk(s)
  }

  /** The loop never asks for a negative number of points. */
  predicate Forward(e: Step) {
    e.Send? ==> e.n >= 0
  }

  predicate Exact(s: System) {
    Inv(s) && LineOk(s) && PassesOk(s)
  }

  lemma ActKeeps(s: System, e: Step)
    requires Inv(s) && Possible(s, e)
    ensures Inv(Act(s, e))
  {
    match e
    case Account => AccountKeeps(s);
    case FillPoint => FillKeeps(s, e);
    case FillRest => FillKeeps(s, e);
    case _ =>
  }

  /** The writer outside the mutex never touches a queued frame. */
  lemma FillKeeps(s: System, e: Step)
    requires Inv(s) && Possible(s, e) && (e.FillPoint? || e.FillRest?)
    ensures Inv(Act(s, e))
  {
  }

  lemma AccountKeeps(s: System)
    requires Inv(s) && Possible(s, Account)
    ensures Inv(Act(s, Account))
  {
  }

  /** Frames are only ever added behind those already written. */
  lemma PassesKept(s: System, t: System)
    requires PassesOk(s) && t.passes == s.passes && t.taken == s.taken && s.written <= t.written
    ensures PassesOk(t)
  {
  }

  /** A step of the loop that does not end a pass, or one of another thread. */
  lemma LineKept(s: System, e: Step)
    requires Exact(s) && Possible(s, e) && !e.Send? && !e.Account?
    ensures Exact(Act(s, e))
  {
    ActKeeps(s, e);
    hide PassesOk, WriterOk;
    PassesKept(s, Act(s, e));
  }

  lemma SendExact(s: System, n: nat)
    requires Exact(s) && Possible(s, Send(n))
    ensures Exact(Act(s, Send(n)))
  {
    ActKeeps(s, Send(n));
    hide PassesOk, WriterOk;
    PassesKept(s, Act(s, Send(n)));
    ReadSlot(s);
    var pts := s.written[s.taken].points;
    assert pts[..s.idx] + pts[s.idx..s.idx + n] == pts[..s.idx + n];
  }

  lemma ReadSlot(s: System)
    requires s.read < NFRAMES
    ensures Slot(s, 0) == s.read
  {
  }

  lemma PassAdded(s: System, t: System)
    requires PassesOk(s) && t.written == s.written && s.taken < |s.written|
    requires t.passes == s.passes + [Pass(s.taken, s.written[s.taken].points)] && s.taken <= t.taken <= s.taken + 1
    ensures PassesOk(t)
  {
  }

  lemma AccountExact(s: System)
    requires Exact(s) && Possible(s, Account)
    ensures Exact(Act(s, Account))
  {
    ActKeeps(s, Account);
    hide PassesOk, WriterOk;
    ReadSlot(s);
    var t := Act(s, Account);
    var pts := s.written[s.taken].points;
    if t.passes == s.passes {
      PassesKept(s, t);
    } else {
      assert pts[..|pts|] == pts;
      PassAdded(s, t);
    }
  }

  lemma ActExact(s: System, e: Step)
    requires Exact(s) && Possible(s, e) && Forward(e)
    ensures Exact(Act(s, e))
  {
    match e
    case Account => AccountExact(s);
    case Send(n) => SendExact(s, n);
    case _ => LineKept(s, e);
  }

  lemma {:induction false} RunKeeps(s: System, steps: seq<Step>, t: System)
    requires Inv(s) && Runs(s, steps, t)
    ensures Inv(t)
    ensures Exact(s) && (forall e <- steps :: Forward(e)) ==> Exact(t)
    decreases |steps|
  {
    if steps != [] {
      ActKeeps(s, steps[0]);
      if Exact(s) && (forall e <- steps :: Forward(e)) { ActExact(s, steps[0]); }
      RunKeeps(Act(s, steps[0]), steps[1..], t);
    }
  }

  /** Over every interleaving of the writer, the sending thread, stops and
      disconnects: the slot being filled is never the one being sent, at most two
      frames are queued, and they stand as they were written. */
  lemma Exclusion(steps: seq<Step>, t: System)
    requires Runs(START, steps, t)
    ensures t.fullness <= NFRAMES && |t.written| == t.taken + t.fullness && |t.slots| == NFRAMES
    ensures t.writer.Filling? && (t.loop.Sending? || t.loop.Sent?) ==> t.writer.slot != t.loop.slot
    ensures forall j :: 0 <= j < t.fullness ==> Intact(t, j)
  {
    RunKeeps(START, steps, t);
  }

  /** And as long as no negative number of points is asked for, what goes out is,
      pass by pass, exactly the points of the frames in the order they were
      written, none skipped and none torn. */
  lemma WholeFrames(steps: seq<Step>, t: System)
    requires Runs(START, steps, t) && forall e <- steps :: Forward(e)
    ensures PassesOk(t) && t.strays == 0
    ensures t.loop.Sending? ==>
              && t.taken < |t.written| && 0 <= t.idx <= |t.written[t.taken].points|
              && t.line == t.written[t.taken].points[..t.idx]
  {
    RunKeeps(START, steps, t);
  }

  /** One turn of the loop keeps what WholeFrames promises if and only if it did
      not ask for a negative number. */
  lemma TurnExact(s: System, n: int)
    requires Exact(s) && Possible(s, Send(n))
    ensures Exact(Act(Act(s, Send(n)), Account)) <==> n >= 0
  {
    if n >= 0 {
      SendExact(s, n);
      AccountExact(Act(s, Send(n)));
    } else {
      ReadSlot(s);
    }
  }

  /** A negative number, which the sending loop chooses exactly when
      FlowControl.DecideNegative says, moves the place in the frame back: what was
      already sent in this pass is sent again, as far as the place is in the frame. */
  lemma RewindRepeats(s: System, n: int, m: nat)
    requires Exact(s) && s.loop.Sending? && s.phase == Running && n < 0
    requires m <= MAX_SEND_POINTS && s.idx + n + m <= |s.written[s.taken].points|
    ensures Possible(s, Send(n)) && Possible(Act(Act(Act(s, Send(n)), Account), Wake), Send(m))
    ensures var pts := s.written[s.taken].points;
            Act(Act(Act(Act(s, Send(n)), Account), Wake), Send(m)).line
            == pts[..s.idx] + pts[Most(s.idx + n, 0)..Most(s.idx + n + m, 0)]
  {
    ReadSlot(s);
  }

  /** A turn leaves the place in front of the frame exactly when the amount takes
      it there; and then the next points sent are read from in front of the data. */
  lemma TurnStrays(s: System, n: int, m: nat)
    requires Exact(s) && s.loop.Sending? && s.phase == Running && Possible(s, Send(n))
    ensures var t := Act(Act(s, Send(n)), Account);
            && (t.idx < 0 <==> s.idx + n < 0)
            && (t.idx < 0 && 0 < m <= MAX_SEND_POINTS && t.idx + m <= |s.written[s.taken].points| ==>
                  && Possible(t, Wake) && Possible(Act(t, Wake), Send(m))
                  && Act(Act(t, Wake), Send(m)).strays == (if m < -t.idx then m else -t.idx) > 0)
  {
    ReadSlot(s);
    if n >= 0 {
      SendExact(s, n);
    }
  }

  /** The host's choice takes the place in front of the frame exactly when the
      device does not play and holds, as far as the host knows, more than 1700
      points above those of the frame already sent. */
  lemma HostStrays(s: System, h: FlowControl.System, estimate: int)
    requires Exact(s) && s.loop.Sending? && s.phase == Running
    requires var left := |s.written[s.taken].points| - s.idx;
             FlowControl.Possible(h, FlowControl.Decide(estimate, left))
    ensures var left := |s.written[s.taken].points| - s.idx;
            var pc := FlowControl.Act(h, FlowControl.Decide(estimate, left)).host.pc;
            && (pc.Preparing? ==> Possible(s, Send(pc.n)))
            && (pc.Preparing? && Act(Act(s, Send(pc.n)), Account).idx < 0
                <==> h.host.state != Dac.Playing
                     && s.idx < h.host.fullness + h.host.acks.unacked - FlowControl.TARGET)
  {
    var left := |s.written[s.taken].points| - s.idx;
    var pc := FlowControl.Act(h, FlowControl.Decide(estimate, left)).host.pc;
    ReadSlot(s);
    if pc.Preparing? { TurnStrays(s, pc.n, 0); }
  }

  /** The first frame after the start, ready to be sent. */
  function FirstFrame(p: Point, reps: int): seq<Step> {
    [Write(Frame([p], 1, reps)), FillPoint, FillRest, Publish, Wake]
  }

  lemma FirstFrameRuns(p: Point, reps: int) returns (s: System)
    requires reps != 0
    ensures Runs(START, FirstFrame(p, reps), s) && Exact(s)
    ensures s.loop.Sending? && s.phase == Running && s.idx == 0 && s.written[s.taken].points == [p]
  {
    var steps := FirstFrame(p, reps);
    var s1 := Act(START, steps[0]);
    var s2 := Act(s1, FillPoint);
    var s3 := Act(s2, FillRest);
    var s4 := Act(s3, Publish);
    s := Act(s4, Wake);
    var none: seq<Step> := [];
    RunsFirst(s4, Wake, none, s);
    RunsFirst(s3, Publish, [Wake] + none, s);
    RunsFirst(s2, FillRest, [Publish] + ([Wake] + none), s);
    RunsFirst(s1, FillPoint, [FillRest] + ([Publish] + ([Wake] + none)), s);
    RunsFirst(START, steps[0], [FillPoint] + ([FillRest] + ([Publish] + ([Wake] + none))), s);
    assert steps == [steps[0]] + ([FillPoint] + ([FillRest] + ([Publish] + ([Wake] + none))));
    RunKeeps(START, steps, s);
  }

  /** The failing input: a fresh connection to a prepared device that still holds
      more than 1700 points. The first turn over the first frame leaves the place in
      front of it, and the next point sent is not the frame's. */
  lemma StrayReached(h: FlowControl.System, p: Point) returns (steps: seq<Step>, t: System)
    requires FlowControl.Initial(h) && h.dev.d.state == Dac.Prepared
    requires |h.dev.d.Unread()| > FlowControl.TARGET
    ensures Runs(START, steps, t) && t.loop.Sending? && t.idx < 0
    ensures Possible(t, Send(1)) && Act(t, Send(1)).strays == 1
  {
    var s := FirstFrameRuns(p, 1);
    var n := FlowControl.Act(h, FlowControl.Decide(0, 1)).host.pc.n;
    t := StrayTurn(s, h, p, n);
    var tail := [Send(n), Account, Wake];
    steps := FirstFrame(p, 1) + tail;
    RunsConcat(START, FirstFrame(p, 1), s, tail, t);
  }

  lemma StrayTurn(s: System, h: FlowControl.System, p: Point, n: int) returns (t: System)
    requires Exact(s) && s.loop.Sending? && s.phase == Running && s.idx == 0 && s.written[s.taken].points == [p]
    requires FlowControl.Possible(h, FlowControl.Decide(0, 1)) && h.host.state != Dac.Playing
    requires h.host.fullness + h.host.acks.unacked > FlowControl.TARGET
    requires n == FlowControl.Act(h, FlowControl.Decide(0, 1)).host.pc.n
    ensures Runs(s, [Send(n), Account, Wake], t) && t.loop.Sending? && t.idx < 0
    ensures Possible(t, Send(1)) && Act(t, Send(1)).strays == 1
  {
    HostStrays(s, h, 0);
    TurnStrays(s, n, 1);
    hide Exact, FlowControl.Act, FlowControl.Possible, Runs;
    t := Act(Act(Act(s, Send(n)), Account), Wake);
    ThreeSteps(s, Send(n), Account, Wake);
  }

  lemma ThreeSteps(s: System, a: Step, b: Step, c: Step)
    requires Possible(s, a) && Possible(Act(s, a), b) && Possible(Act(Act(s, a), b), c)
    ensures Runs(s, [a, b, c], Act(Act(Act(s, a), b), c))
  {
    hide Possible, Act;
    var none: seq<Step> := [];
    var t := Act(Act(Act(s, a), b), c);
    RunsFirst(Act(Act(s, a), b), c, none, t);
    RunsFirst(Act(s, a), b, [c] + none, t);
    RunsFirst(s, a, [b] + ([c] + none), t);
    assert [a, b, c] == [a] + ([b] + ([c] + none));
  }

  lemma RunsFirst(s: System, e: Step, steps: seq<Step>, t: System)
    requires Possible(s, e) && Runs(Act(s, e), steps, t)
    ensures Runs(s, [e] + steps, t)
  {
    assert ([e] + steps)[1..] == steps;
  }

  lemma {:induction false} RunsConcat(s: System, a: seq<Step>, u: System, b: seq<Step>, t: System)
    requires Runs(s, a, u) && Runs(u, b, t)
    ensures Runs(s, a + b, t)
    decreases |a|
  {
    if a == [] {
      assert a + b == b;
    } else {
      assert (a + b)[1..] == a[1..] + b;
      RunsConcat(Act(s, a[0]), a[1..], u, b, t);
    }
  }

  /** What can take back a request to end: a frame just written, and a loop that
      finishes its last pass over the only frame. Nothing else can. */
  lemma ShutdownLost(s: System, e: Step)
    requires Inv(s) && s.phase == Shutdown && Possible(s, e)
    ensures Act(s, e).phase != Shutdown <==> e.Publish? || (e.Account? && EndsFrame(s))
  {
    ReadSlot(s);
  }

  /** The loop is through with a frame it need not repeat, and there is no other. */
  predicate EndsFrame(s: System)
    requires |s.slots| == NFRAMES && s.read < NFRAMES
  {
    s.loop.Sent? && s.fullness == 1 && 0 <= s.slots[s.read].reps <= 1
    && s.idx + s.loop.n >= |s.slots[s.read].points|
  }

  /** The steps can be taken, and the request to end stands after each. */
  predicate Stands(s: System, steps: seq<Step>)
    decreases |steps|
  {
    steps == [] ||
    (Possible(s, steps[0]) && Act(s, steps[0]).phase == Shutdown && Stands(Act(s, steps[0]), steps[1..]))
  }

  /** None of the steps takes the request back. */
  predicate Untaken(s: System, steps: seq<Step>)
    decreases |steps|
  {
    steps == [] ||
    (Possible(s, steps[0]) && !steps[0].Publish? && (steps[0].Account? ==> !EndsFrame(s))
     && Untaken(Act(s, steps[0]), steps[1..]))
  }

  lemma {:induction false} DisconnectStands(s: System, steps: seq<Step>)
    requires Inv(s) && s.phase == Shutdown
    ensures Stands(s, steps) <==> Untaken(s, steps)
    decreases |steps|
  {
    if steps != [] && Possible(s, steps[0]) {
      ShutdownLost(s, steps[0]);
      ActKeeps(s, steps[0]);
      if Act(s, steps[0]).phase == Shutdown {
        DisconnectStands(Act(s, steps[0]), steps[1..]);
      }
    }
  }

  /** And then the loop, at the head again, waits for a frame instead of ending. */
  lemma DisconnectOverwritten(s: System)
    requires Inv(s) && s.loop.Sent?
    ensures var t := Act(Act(s, Disconnect), Account);
            t.loop == AtTop && (t.phase == Ready && !Possible(t, Wake) <==> EndsFrame(s))
  {
    ReadSlot(s);
  }
}
