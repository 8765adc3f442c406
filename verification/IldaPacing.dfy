/** Frame pacing in firmware/file/ild-player.c: how often each ILDA frame is
    repeated so that frames last ilda_points_per_frame points on average. */
module IldaPacing {
  import opened Words

  /** Signed division as the processor does it: toward zero, and 0 when the
      divisor is 0. */
  function SDiv(x: int, d: int): int {
    if d == 0 then 0
    else if x >= 0 && d > 0 then x / d
    else if x < 0 && d > 0 then -((-x) / d)
    else if x >= 0 then -(x / -d)
    else (-x) / (-d)
  }

  datatype Pace = Pace(repeat: int, offset: int)

  /** The repeat count of a frame of n points, and the error carried on. */
  function Step(perFrame: int, offset: int, n: nat): Pace {
    if perFrame == 0 then Pace(1, offset)
    else
      var needed := perFrame - offset;
      var wanted := SDiv(needed + n / 2, n);
      var repeat := if wanted <= 0 then 1 else wanted;
      Pace(repeat, offset + repeat * n - perFrame)
  }

  /** The error carried on after the given frames. */
  function Offset(perFrame: int, start: int, frames: seq<nat>): int {
    if frames == [] then start
    else Step(perFrame, Offset(perFrame, start, frames[..|frames| - 1]), frames[|frames| - 1]).offset
  }

  /** Points scheduled for the given frames, repeats included. */
  function Scheduled(perFrame: int, start: int, frames: seq<nat>): int {
    if frames == [] then 0
    else
      var init, n := frames[..|frames| - 1], frames[|frames| - 1];
      Scheduled(perFrame, start, init) + Step(perFrame, Offset(perFrame, start, init), n).repeat * n
  }

  /** The carried error is exactly the schedule's lead over the nominal rate. */
  lemma {:induction false} NoDrift(perFrame: int, start: int, frames: seq<nat>)
    requires perFrame != 0
    ensures Scheduled(perFrame, start, frames)
            == |frames| * perFrame + Offset(perFrame, start, frames) - start
  {
    if frames != [] {
      hide SDiv;
      var init, n := frames[..|frames| - 1], frames[|frames| - 1];
      NoDrift(perFrame, start, init);
      StepConserves(perFrame, Offset(perFrame, start, init), n);
      MulNext(|init|, perFrame);
    }
  }

  lemma StepConserves(perFrame: int, offset: int, n: nat)
    requires perFrame != 0
    ensures Step(perFrame, offset, n).offset == offset + Step(perFrame, offset, n).repeat * n - perFrame
    ensures Step(perFrame, offset, n).repeat >= 1
  {
    hide SDiv;
  }

  lemma MulNext(k: int, d: int)
    ensures (k + 1) * d == k * d + d
  {
  }

  /** From an error of at most half a frame, a frame that fits its slot is never
      clamped, and leaves an error of at most half its own length. */
  lemma StepBounded(perFrame: int, offset: int, n: nat)
    requires 1 <= n <= perFrame && -(perFrame / 2) <= offset <= perFrame / 2
    ensures SDiv(perFrame - offset + n / 2, n) >= 1
    ensures -(n / 2) <= Step(perFrame, offset, n).offset <= n / 2
  {
    var needed := perFrame - offset;
    var x := needed + n / 2;
    assert x >= n;
    var q, r := x / n, x % n;
    assert x == q * n + r;
    QuotientAtLeast(x, 1, n);
  }

  /** The error never exceeds half a frame slot, however many frames play. */
  lemma {:induction false} ErrorBounded(perFrame: int, start: int, frames: seq<nat>)
    requires perFrame > 0 && -(perFrame / 2) <= start <= perFrame / 2
    requires forall k :: 0 <= k < |frames| ==> 1 <= frames[k] <= perFrame
    ensures -(perFrame / 2) <= Offset(perFrame, start, frames) <= perFrame / 2
  {
    if frames != [] {
      var init, n := frames[..|frames| - 1], frames[|frames| - 1];
      ErrorBounded(perFrame, start, init);
      StepBounded(perFrame, Offset(perFrame, start, init), n);
    }
  }

  /** So any two runs of the same length are scheduled within one frame slot of
      each other, whatever the frame sizes. */
  lemma ScheduleBounded(perFrame: int, frames: seq<nat>)
    requires perFrame > 0
    requires forall k :: 0 <= k < |frames| ==> 1 <= frames[k] <= perFrame
    ensures |frames| * perFrame - perFrame / 2 <= Scheduled(perFrame, 0, frames) <= |frames| * perFrame + perFrame / 2
  {
    NoDrift(perFrame, 0, frames);
    ErrorBounded(perFrame, 0, frames);
  }

  /** Before a frame rate is set every frame is played once, and the error stays
      what it was, however many frames play. */
  lemma {:induction false} NoLimit(start: int, frames: seq<nat>)
    ensures Offset(0, start, frames) == start && Scheduled(0, start, frames) == Sum(frames)
  {
    if frames != [] {
      var init, n := frames[..|frames| - 1], frames[|frames| - 1];
      NoLimit(start, init);
      assert frames == init + [n] && [n][1..] == [];
      SumConcat(init, [n]);
      assert Step(0, start, n) == Pace(1, start);
    }
  }

  /** A frame longer than its slot is played once. */
  lemma LongOnce(perFrame: int, offset: int, n: nat)
    requires 0 < perFrame < n && -(perFrame / 2) <= offset <= perFrame / 2
    ensures Step(perFrame, offset, n) == Pace(1, offset + n - perFrame)
  {
    var x := perFrame - offset + n / 2;
    assert 0 <= x < 2 * n;
    if x >= n {
      DivModUnique(x, n, 1, x - n);
    } else {
      DivModUnique(x, n, 0, x);
    }
  }

  predicate Small(perFrame: int, offset: int) {
    -(perFrame / 2) <= offset <= perFrame / 2
  }

  /** A frame leaves the error at most half a slot exactly when it fits its slot or
      its excess fits what the error leaves of half a slot. */
  lemma StepExact(perFrame: int, offset: int, n: nat)
    requires perFrame > 0 && n > 0 && Small(perFrame, offset)
    ensures Small(perFrame, Step(perFrame, offset, n).offset)
       <==> n <= perFrame || n - perFrame <= perFrame / 2 - offset
  {
    if n <= perFrame { StepBounded(perFrame, offset, n); } else { LongOnce(perFrame, offset, n); }
  }

  /** The error is at most half a slot after every frame. */
  predicate StaysSmall(perFrame: int, start: int, frames: seq<nat>) {
    Small(perFrame, Offset(perFrame, start, frames))
    && (frames == [] || StaysSmall(perFrame, start, frames[..|frames| - 1]))
  }

  /** Every frame fits its slot, or its excess fits when its turn comes. */
  predicate EachFits(perFrame: int, start: int, frames: seq<nat>) {
    frames == [] ||
    (var init, n := frames[..|frames| - 1], frames[|frames| - 1];
     EachFits(perFrame, start, init) && (n <= perFrame || n - perFrame <= perFrame / 2 - Offset(perFrame, start, init)))
  }

  lemma {:induction false} SmallExact(perFrame: int, start: int, frames: seq<nat>)
    requires perFrame > 0 && Small(perFrame, start) && forall k :: 0 <= k < |frames| ==> frames[k] > 0
    ensures StaysSmall(perFrame, start, frames) <==> EachFits(perFrame, start, frames)
  {
    if frames != [] {
      hide Step;
      var init, n := frames[..|frames| - 1], frames[|frames| - 1];
      SmallExact(perFrame, start, init);
      if StaysSmall(perFrame, start, init) { StepExact(perFrame, Offset(perFrame, start, init), n); }
    }
  }

  /** Frames longer than the slot are played once, and the error then grows
      without bound: the size condition is needed. */
  lemma {:induction false} LongFramesDrift(perFrame: int, n: nat, k: nat)
    requires 0 < perFrame < n
    ensures Offset(perFrame, 0, seq(k, _ => n)) >= k * (n - perFrame)
  {
    if k > 0 {
      hide SDiv, Step;
      LongFramesDrift(perFrame, n, k - 1);
      var frames := seq(k, _ => n);
      assert frames[..k - 1] == seq(k - 1, _ => n);
      var before := Offset(perFrame, 0, frames[..k - 1]);
      StepConserves(perFrame, before, n);
      MulAtLeast(Step(perFrame, before, n).repeat, 1, n);
      MulNext(k - 1, n - perFrame);
    }
  }
}
