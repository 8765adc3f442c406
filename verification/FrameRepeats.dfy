/** How often the sending loop of driver/libetherdream/etherdream.c plays each
    frame, over whole runs of FrameQueue. */
module FrameRepeats {
  import opened FrameQueue

  /** The complete passes over frame j. */
  function Count(passes: seq<Pass>, j: nat): nat {
    if passes == [] then 0
    else Count(passes[..|passes| - 1], j) + if passes[|passes| - 1].frame == j then 1 else 0
  }

  /** A frame is played at least once, whatever its repeat count. */
  function Times(reps: int): nat {
    if reps > 1 then reps else 1
  }

  /** The end of a pass of frame j with no frame behind it and no repeat left: the loop
      goes idle or plays the frame again. */
  predicate Rests(s: System, e: Step, j: nat)
    requires Possible(s, e)
  {
    && e == Account && s.taken == j && s.fullness <= 1
    && s.idx + s.loop.n >= |s.slots[s.loop.slot].points| && s.slots[s.loop.slot].reps <= 1
  }

  function AllRests(s: System, steps: seq<Step>, j: nat): nat
    decreases |steps|
  {
    if steps == [] || !Possible(s, steps[0]) then 0
    else (if Rests(s, steps[0], j) then 1 else 0) + AllRests(Act(s, steps[0]), steps[1..], j)
  }

  /** Repeat counts that nobody has touched yet stand as they were written. */
  predicate Untouched(s: System)
    requires |s.slots| == NFRAMES && |s.written| == s.taken + s.fullness
  {
    && (s.fullness > 1 ==> s.slots[Slot(s, 1)].reps == s.written[s.taken + 1].reps)
    && (s.writer.Filled? && s.writer.slot < NFRAMES ==> s.slots[s.writer.slot].reps == s.writer.f.reps)
  }

  /** The passes that frame j is still due, as long as it need not wait for a successor.
      all are the frames written in the end. */
  function Due(s: System, j: nat, all: seq<Frame>): nat
    requires |s.slots| == NFRAMES && s.read < NFRAMES && j < |all|
  {
    if j < s.taken then 0
    else if j == s.taken && s.fullness > 0 then Times(s.slots[s.read].reps)
    else Times(all[j].reps)
  }

  lemma UntouchedKept(s: System, e: Step)
    requires Inv(s) && Untouched(s) && Possible(s, e) && Inv(Act(s, e))
    ensures Untouched(Act(s, e))
  {
  }

  /** A pass more, of frame k. */
  lemma CountNext(passes: seq<Pass>, k: nat, points: seq<Point>, j: nat)
    ensures Count(passes + [Pass(k, points)], j) == Count(passes, j) + if k == j then 1 else 0
  {
    assert (passes + [Pass(k, points)])[..|passes|] == passes;
  }

  lemma AccountDue(s: System, j: nat, all: seq<Frame>)
    requires Inv(s) && Untouched(s) && Possible(s, Account) && j < |all| && s.written <= all
    ensures var t := Act(s, Account);
            && Inv(t) && s.taken <= t.taken && t.written == s.written
            && Count(t.passes, j) + Due(t, j, all)
               == Count(s.passes, j) + Due(s, j, all) + (if Rests(s, Account, j) then 1 else 0)
            && Count(s.passes, j) <= Count(t.passes, j)
            && (s.taken <= j < t.taken ==> Count(t.passes, j) > Count(s.passes, j))
  {
    AccountKeeps(s);
    CountNext(s.passes, s.taken, s.line, j);
    ReadSlot(s);
    hide Count, WriterOk, Intact;
    if s.fullness > 1 { assert all[s.taken + 1] == s.written[s.taken + 1]; }
  }

  lemma PublishDue(s: System, j: nat, all: seq<Frame>)
    requires Inv(s) && Untouched(s) && Possible(s, Publish) && j < |all| && Act(s, Publish).written <= all
    ensures var t := Act(s, Publish); Inv(t) && Due(t, j, all) == Due(s, j, all)
  {
    ActKeeps(s, Publish);
    ReadSlot(s);
    if s.fullness == 0 { assert all[s.taken] == s.writer.f; }
  }

  /** The writer and etherdream_stop leave the other's slot alone. */
  lemma OtherDue(s: System, e: Step, j: nat, all: seq<Frame>)
    requires Inv(s) && Untouched(s) && Possible(s, e) && !e.Account? && !e.Publish? && j < |all|
    ensures var t := Act(s, e);
            && Inv(t) && t.written == s.written && t.taken == s.taken && t.passes == s.passes
            && Due(t, j, all) <= Due(s, j, all) && (e != Stop ==> Due(t, j, all) == Due(s, j, all))
  {
    ActKeeps(s, e);
    ReadSlot(s);
  }

  lemma StepDue(s: System, e: Step, j: nat, all: seq<Frame>)
    requires Inv(s) && Untouched(s) && Possible(s, e) && j < |all| && Act(s, e).written <= all
    ensures var t := Act(s, e);
            && Inv(t) && Untouched(t) && s.written <= t.written && s.taken <= t.taken
            && Count(s.passes, j) <= Count(t.passes, j)
            && (s.taken <= j < t.taken ==> Count(t.passes, j) > Count(s.passes, j))
            && var before := Count(s.passes, j) + Due(s, j, all) + (if Rests(s, e, j) then 1 else 0);
               && Count(t.passes, j) + Due(t, j, all) <= before
               && (e != Stop ==> Count(t.passes, j) + Due(t, j, all) == before)
  {
    ActKeeps(s, e);
    UntouchedKept(s, e);
    hide Count, Untouched, WriterOk, LoopOk, Intact, Due;
    match e
    case Account => AccountDue(s, j, all);
    case Publish => PublishDue(s, j, all);
    case _ => OtherDue(s, e, j, all);
  }

  lemma {:induction false} WrittenGrows(s: System, steps: seq<Step>, t: System)
    requires Runs(s, steps, t)
    ensures s.written <= t.written
    decreases |steps|
  {
    if steps != [] { WrittenGrows(Act(s, steps[0]), steps[1..], t); }
  }

  lemma {:induction false} RunDue(s: System, steps: seq<Step>, t: System, j: nat)
    requires Inv(s) && Untouched(s) && Runs(s, steps, t) && j < |t.written|
    ensures Inv(t) && s.taken <= t.taken && Count(s.passes, j) <= Count(t.passes, j)
    ensures s.taken <= j < t.taken ==> Count(t.passes, j) > Count(s.passes, j)
    ensures var before := Count(s.passes, j) + Due(s, j, t.written) + AllRests(s, steps, j);
            && Count(t.passes, j) + Due(t, j, t.written) <= before
            && (Stop !in steps ==> Count(t.passes, j) + Due(t, j, t.written) == before)
    decreases |steps|
  {
    if steps != [] {
      WrittenGrows(Act(s, steps[0]), steps[1..], t);
      StepDue(s, steps[0], j, t.written);
      hide Act, Possible, Count, Due, Rests, Untouched, Inv;
      RunDue(Act(s, steps[0]), steps[1..], t, j);
    }
  }

  /** Over every interleaving: a frame the loop has moved past was played as often as its
      repeat count says, at least once, and once more for each time its last pass found
      no frame behind it; never more often, and exactly so unless etherdream_stop was
      called. Of the frame being played, the passes still due make up the difference. */
  lemma Repeats(steps: seq<Step>, t: System, j: nat)
    requires Runs(START, steps, t) && j < |t.written|
    ensures var promised := Times(t.written[j].reps) + AllRests(START, steps, j);
            && (j < t.taken ==> 1 <= Count(t.passes, j) <= promised)
            && (j < t.taken && Stop !in steps ==> Count(t.passes, j) == promised)
            && (j == t.taken && Stop !in steps ==>
                  |t.slots| == NFRAMES && t.read < NFRAMES && t.fullness > 0
                  && Count(t.passes, j) + Times(t.slots[t.read].reps) == promised)
  {
    RunDue(START, steps, t, j);
  }
}
