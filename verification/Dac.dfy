/** firmware/lib/dac.c, lightengine.c and playback.c: the point ring, the rate
    ring and the state machine of DAC, shutter, emergency stop and source. Every
    call is one step here; DacRing treats the ring under preemption. */
module Dac {
  import opened Words

  const BUFFER_POINTS: nat := 1800
  const RATE_BUFFER_SIZE: nat := 200
  const MAX_PPS: nat := 200000

  datatype PlayState = Idle | Prepared | Playing
  datatype IrqAction = DoBuffer | DoAbstract | DoPanic
  datatype Source = Network | IldaPlayer | Abstract
  datatype LightEngine = Ready | Warmup | Cooldown | Estop

  /** Bits 1 to 3 of dac_flags. */
  datatype StopFlag = StopUnderflow | StopEstop | StopSrcSwitch

  /** The bits of le_flags. */
  datatype Condition = OfPacket | OfInput | OfInputNow | OfOvertemp | OfOvertempNow | OfLinkLost

  /** A point as it lies in the buffer. */
  type Point = seq<byte>

  datatype Dev = Dev(
    state: PlayState, produce: nat, consume: nat, ring: seq<Point>,
    irqDo: IrqAction, playingSrc: Source, timer: bool, count: nat,
    shutterPin: bool, shutterFlag: bool, stops: set<StopFlag>,
    rates: seq<nat>, rateProduce: nat, rateConsume: nat, pps: nat,
    engine: LightEngine, conditions: set<Condition>,
    src: Source, srcFlags: nat)
  {
    predicate Valid() {
      && |ring| == BUFFER_POINTS && produce < BUFFER_POINTS && consume < BUFFER_POINTS
      && |rates| == RATE_BUFFER_SIZE && rateProduce < RATE_BUFFER_SIZE && rateConsume < RATE_BUFFER_SIZE
    }

    /** The points written and not yet played, oldest first. */
    function Unread(): seq<Point>
      requires Valid()
    {
      Contents(ring, consume, produce)
    }

    function PendingRates(): seq<nat>
      requires Valid()
    {
      Contents(rates, rateConsume, rateProduce)
    }
  }

  /** What a ring holds from index consume up to index produce. */
  function Contents<T>(ring: seq<T>, consume: nat, produce: nat): seq<T>
    requires consume < |ring| && produce < |ring|
  {
    if consume <= produce then ring[consume..produce] else ring[consume..] + ring[..produce]
  }

  function Fullness(produce: nat, consume: nat, size: nat): int {
    if produce < consume then produce - consume + size else produce - consume
  }

  /** dac_request's arithmetic, on the values of produce and consume it reads. */
  function Room(produce: nat, consume: nat): int {
    if produce >= consume then
      if consume == 0 then BUFFER_POINTS - produce - 1 else BUFFER_POINTS - produce
    else
      consume - produce - 1
  }

  function Requested(d: Dev): int {
    if d.state == Idle then -1 else Room(d.produce, d.consume)
  }

  /** The grant is one run of free slots inside the buffer, and it is empty
      exactly when all slots but one are taken. */
  lemma RoomExact<T>(ring: seq<T>, consume: nat, produce: nat)
    requires |ring| == BUFFER_POINTS && consume < |ring| && produce < |ring|
    ensures |Contents(ring, consume, produce)| == Fullness(produce, consume, BUFFER_POINTS) < BUFFER_POINTS
    ensures 0 <= Room(produce, consume) && produce + Room(produce, consume) <= BUFFER_POINTS
    ensures Fullness(produce, consume, BUFFER_POINTS) + Room(produce, consume) < BUFFER_POINTS
    ensures Room(produce, consume) == 0 <==> Fullness(produce, consume, BUFFER_POINTS) == BUFFER_POINTS - 1
  {
  }

  /** Writing pts at produce and moving produce past them, back to 0 at the end. */
  lemma RingAppends<T>(ring: seq<T>, consume: nat, produce: nat, pts: seq<T>)
    requires consume < |ring| && produce + |pts| <= |ring| && produce < |ring|
    requires Fullness(produce, consume, |ring|) + |pts| < |ring|
    ensures var end := produce + |pts|;
            var after := ring[..produce] + pts + ring[end..];
            Contents(after, consume, if end == |ring| then 0 else end) == Contents(ring, consume, produce) + pts
  {
    var end := produce + |pts|;
    var after := ring[..produce] + pts + ring[end..];
    assert after[produce..end] == pts && after[..produce] == ring[..produce] && after[end..] == ring[end..];
    if consume <= produce {
      assert after[consume..produce] == ring[consume..produce];
      assert after[consume..end] == after[consume..produce] + after[produce..end];
    } else {
      assert after[consume..] == after[end..][consume - end..] == ring[end..][consume - end..] == ring[consume..];
      assert after[..end] == after[..produce] + after[produce..end];
    }
  }

  lemma RingAppendsOne<T>(ring: seq<T>, consume: nat, produce: nat, x: T)
    requires consume < |ring| && produce < |ring|
    requires Fullness(produce, consume, |ring|) + 1 < |ring|
    ensures Contents(ring[produce := x], consume, if produce + 1 == |ring| then 0 else produce + 1)
         == Contents(ring, consume, produce) + [x]
  {
    RingAppends(ring, consume, produce, [x]);
    assert ring[produce := x] == ring[..produce] + [x] + ring[produce + 1..];
  }

  lemma FullnessIsLength<T>(ring: seq<T>, consume: nat, produce: nat)
    requires consume < |ring| && produce < |ring|
    ensures |Contents(ring, consume, produce)| == Fullness(produce, consume, |ring|) < |ring|
  {
  }

  /** Moving consume past the oldest entry. */
  lemma RingTakes<T>(ring: seq<T>, consume: nat, produce: nat)
    requires consume < |ring| && produce < |ring| && consume != produce
    ensures Contents(ring, consume, produce)
         == [ring[consume]] + Contents(ring, if consume + 1 == |ring| then 0 else consume + 1, produce)
  {
    if consume > produce {
      assert ring[consume..] == [ring[consume]] + ring[consume + 1..];
    }
  }

  /** The region at produce after a client has put pts there. */
  function Filled(d: Dev, pts: seq<Point>): Dev
    requires d.Valid() && d.produce + |pts| <= BUFFER_POINTS
  {
    d.(ring := d.ring[..d.produce] + pts + d.ring[d.produce + |pts|..])
  }

  function Advanced(d: Dev, n: nat): Dev {
    if d.state == Idle then d else d.(produce := (d.produce + n) % BUFFER_POINTS)
  }

  /** Points written where dac_request said and then announced are appended to
      what is still to be played, and nothing already there changes. */
  lemma FillAppends(d: Dev, pts: seq<Point>)
    requires d.Valid() && |pts| <= Requested(d)
    ensures d.produce + |pts| <= BUFFER_POINTS
    ensures Advanced(Filled(d, pts), |pts|).Valid()
    ensures Advanced(Filled(d, pts), |pts|).Unread() == d.Unread() + pts
  {
    RoomExact(d.ring, d.consume, d.produce);
    RingAppends(d.ring, d.consume, d.produce, pts);
  }

  predicate MayPrepare(d: Dev) {
    d.state == Idle && d.engine == Ready
  }

  /** DAC_FLAG_STOP_ALL covers every stop flag. */
  lemma NoFlagLeft(stops: set<StopFlag>)
    ensures stops - {StopUnderflow, StopEstop, StopSrcSwitch} == {}
  {
    forall f | f in stops ensures f in {StopUnderflow, StopEstop, StopSrcSwitch} {
      match f case StopUnderflow => case StopEstop => case StopSrcSwitch =>
    }
  }

  function AfterPrepare(d: Dev): Dev {
    if MayPrepare(d) then
      d.(produce := 0, consume := 0, rateProduce := 0, rateConsume := 0, stops := {},
         state := Prepared, irqDo := DoPanic)
    else d
  }

  predicate MayStart(d: Dev) {
    d.state == Prepared && d.pps != 0
  }

  function AfterShutter(d: Dev, open: bool): Dev {
    if !open then d.(shutterPin := false, shutterFlag := false)
    else if d.state == Playing then d.(shutterPin := true, shutterFlag := true)
    else d
  }

  function AfterStart(d: Dev): Dev {
    if MayStart(d) then
      AfterShutter(d.(state := Playing, playingSrc := d.src, timer := true,
                      irqDo := if d.src == Abstract then DoAbstract else DoBuffer), true)
    else d
  }

  function AfterStop(d: Dev, flags: set<StopFlag>): Dev {
    d.(timer := false, shutterPin := false, shutterFlag := false, state := Idle, irqDo := DoPanic, count := 0,
       stops := d.stops + flags)
  }

  predicate RateOk(rate: int) {
    0 < rate <= MAX_PPS
  }

  function AfterRateQueue(d: Dev, rate: nat): Dev
    requires d.Valid()
  {
    if d.state == Idle || Fullness(d.rateProduce, d.rateConsume, RATE_BUFFER_SIZE) >= RATE_BUFFER_SIZE - 1 then d
    else d.(rates := d.rates[d.rateProduce := rate], rateProduce := (d.rateProduce + 1) % RATE_BUFFER_SIZE)
  }

  lemma RateEnd(p: nat)
    requires p < RATE_BUFFER_SIZE
    ensures (p + 1) % RATE_BUFFER_SIZE == if p + 1 == RATE_BUFFER_SIZE then 0 else p + 1
  {
  }

  /** A rate change waits behind those queued before it; only 199 can wait. */
  lemma RateQueueAppends(d: Dev, rate: nat)
    requires d.Valid()
    ensures AfterRateQueue(d, rate).Valid()
    ensures AfterRateQueue(d, rate).PendingRates()
         == if d.state == Idle || |d.PendingRates()| == RATE_BUFFER_SIZE - 1 then d.PendingRates()
            else d.PendingRates() + [rate]
  {
    FullnessIsLength(d.rates, d.rateConsume, d.rateProduce);
    RateEnd(d.rateProduce);
    if Fullness(d.rateProduce, d.rateConsume, RATE_BUFFER_SIZE) < RATE_BUFFER_SIZE - 1 {
      RingAppendsOne(d.rates, d.rateConsume, d.rateProduce, rate);
    }
  }

  /** dac_pop_rate_change; the queued rate is passed to dac_set_rate unchecked. */
  function AfterPopRate(d: Dev): Dev
    requires d.Valid()
  {
    if d.rateConsume == d.rateProduce then d
    else d.(pps := d.rates[d.rateConsume],
            rateConsume := if d.rateConsume + 1 >= RATE_BUFFER_SIZE then 0 else d.rateConsume + 1)
  }

  lemma PopRateTakesOldest(d: Dev)
    requires d.Valid()
    ensures AfterPopRate(d).Valid()
    ensures d.PendingRates() == [] ==> AfterPopRate(d) == d
    ensures d.PendingRates() != [] ==> d.PendingRates() == [AfterPopRate(d).pps] + AfterPopRate(d).PendingRates()
  {
    if d.rateConsume != d.rateProduce {
      RingTakes(d.rates, d.rateConsume, d.rateProduce);
    }
  }

  /** dac16_handle_irq. */
  function AfterIrq(d: Dev): Dev {
    if d.produce == d.consume then AfterStop(d, {StopUnderflow})
    else d.(consume := if d.consume + 1 == BUFFER_POINTS then 0 else d.consume + 1)
  }

  /** One interrupt plays the oldest point and no other; with none left it stops
      the DAC and says why. */
  lemma IrqTakesOldest(d: Dev)
    requires d.Valid()
    ensures AfterIrq(d).Valid()
    ensures d.Unread() != [] ==>
              d.Unread() == [d.ring[d.consume]] + AfterIrq(d).Unread() && AfterIrq(d).state == d.state
    ensures d.Unread() == [] ==>
              AfterIrq(d).state == Idle && StopUnderflow in AfterIrq(d).stops && AfterIrq(d).Unread() == []
  {
    if d.consume != d.produce {
      RingTakes(d.ring, d.consume, d.produce);
    }
  }

  function AfterEstop(d: Dev, cause: set<Condition>): Dev {
    AfterStop(d.(conditions := d.conditions + cause, engine := Estop), {StopEstop})
  }

  function AfterClear(d: Dev, cause: set<Condition>): Dev {
    var left := d.conditions - cause;
    d.(conditions := left, engine := if left == {} then Ready else d.engine)
  }

  predicate MaySwitch(d: Dev, src: Source) {
    !(d.src == Network && src != Network && d.state != Idle)
  }

  function AfterSwitch(d: Dev, src: Source): Dev {
    if !MaySwitch(d, src) || d.src == src then d
    else AfterStop(d, {StopSrcSwitch}).(srcFlags := 0, src := src)
  }

  class Control {
    var state: PlayState
    var produce: nat
    var consume: nat
    const ring: array<Point>
    var irqDo: IrqAction
    var playingSrc: Source
    var timer: bool
    var count: nat
    var shutterPin: bool
    var shutterFlag: bool
    var stops: set<StopFlag>
    const rates: array<nat>
    var rateProduce: nat
    var rateConsume: nat
    var pps: nat
    var engine: LightEngine
    var conditions: set<Condition>
    var src: Source
    var srcFlags: nat

    ghost function Value(): Dev
      reads this, ring, rates
    {
      Dev(state, produce, consume, ring[..], irqDo, playingSrc, timer, count, shutterPin, shutterFlag, stops,
          rates[..], rateProduce, rateConsume, pps, engine, conditions, src, srcFlags)
    }

    ghost predicate Valid()
      reads this`produce, this`consume, this`rateProduce, this`rateConsume
    {
      && ring.Length == BUFFER_POINTS && produce < BUFFER_POINTS && consume < BUFFER_POINTS
      && rates.Length == RATE_BUFFER_SIZE && rateProduce < RATE_BUFFER_SIZE && rateConsume < RATE_BUFFER_SIZE
    }

    /** The state after reset and dac_init. */
    constructor ()
      ensures Valid() && fresh(ring) && fresh(rates) && Value() == FRESH
    {
      state, produce, consume, irqDo, playingSrc, timer, count := Idle, 0, 0, DoPanic, Network, false, 0;
      shutterPin, shutterFlag, stops := false, false, {};
      rateProduce, rateConsume, pps := 0, 0, 0;
      engine, conditions, src, srcFlags := Ready, {}, Network, 0;
      ring := new Point[BUFFER_POINTS](_ => []);
      rates := new nat[RATE_BUFFER_SIZE](_ => 0);
      new;
      assert ring[..] == FRESH.ring && rates[..] == FRESH.rates;
    }

    method Prepare() returns (ok: bool)
      requires Valid()
      modifies this`produce, this`consume, this`rateProduce, this`rateConsume, this`stops, this`state, this`irqDo
      ensures Valid() && Value() == AfterPrepare(old(Value())) && ok == MayPrepare(old(Value()))
    {
      if state != Idle || engine != Ready { return false; }
      NoFlagLeft(stops);
      EmptyRings();
      stops, state, irqDo := stops - {StopUnderflow, StopEstop, StopSrcSwitch}, Prepared, DoPanic;
      ok := true;
    }

    method EmptyRings()
      requires Valid()
      modifies this`produce, this`consume, this`rateProduce, this`rateConsume
      ensures Valid() && Value() == old(Value()).(produce := 0, consume := 0, rateProduce := 0, rateConsume := 0)
    {
      produce, consume := 0, 0;
      rateProduce, rateConsume := 0, 0;
    }

    method Start() returns (ok: bool)
      requires Valid()
      modifies this`state, this`playingSrc, this`irqDo, this`timer, this`shutterPin, this`shutterFlag
      ensures Valid() && Value() == AfterStart(old(Value())) && ok == MayStart(old(Value()))
    {
      if state != Prepared || pps == 0 { return false; }
      state := Playing;
      playingSrc := src;
      irqDo := if src == Abstract then DoAbstract else DoBuffer;
      timer := true;
      SetShutter(true);
      ok := true;
    }

    method SetShutter(open: bool)
      requires Valid()
      modifies this`shutterPin, this`shutterFlag
      ensures Valid() && Value() == AfterShutter(old(Value()), open)
      ensures Value() == old(Value()).(shutterPin := shutterPin, shutterFlag := shutterFlag)
      ensures if open && state != Playing then shutterPin == old(shutterPin) && shutterFlag == old(shutterFlag)
              else shutterPin == shutterFlag == open
    {
      if open {
        if state == Playing {
          shutterPin, shutterFlag := true, true;
        }
      } else {
        shutterPin, shutterFlag := false, false;
      }
    }

    /** The timer off and the shutter closed, before anything else. */
    method Halt()
      requires Valid()
      modifies this`timer, this`shutterFlag, this`shutterPin
      ensures Valid() && Value() == old(Value()).(timer := false, shutterPin := false, shutterFlag := false)
    {
      timer := false;
      shutterFlag, shutterPin := false, false;
    }

    method Stop(flags: set<StopFlag>)
      requires Valid()
      modifies this`timer, this`shutterFlag, this`shutterPin, this`state, this`irqDo, this`count, this`stops
      ensures Valid() && Value() == AfterStop(old(Value()), flags)
    {
      Halt();
      state, irqDo, count, stops := Idle, DoPanic, 0, stops + flags;
    }

    /** Fails only where the source's assertions would. */
    method SetRate(rate: int) returns (ok: bool)
      requires Valid()
      modifies this`pps
      ensures Valid() && ok == RateOk(rate)
      ensures Value() == if ok then old(Value()).(pps := rate) else old(Value())
    {
      if rate > MAX_PPS { return false; }
      if rate <= 0 { return false; }
      pps := rate;
      ok := true;
    }

    method RateQueue(rate: nat) returns (ok: bool)
      requires Valid()
      modifies this`rateProduce, rates
      ensures Valid() && Value() == AfterRateQueue(old(Value()), rate)
      ensures ok <==> old(state) != Idle && |old(Value()).PendingRates()| < RATE_BUFFER_SIZE - 1
    {
      if state == Idle { return false; }
      var fullness: int := rateProduce - rateConsume;
      if fullness < 0 { fullness := fullness + RATE_BUFFER_SIZE; }
      if fullness >= RATE_BUFFER_SIZE - 1 { return false; }
      rates[rateProduce] := rate;
      rateProduce := (rateProduce + 1) % RATE_BUFFER_SIZE;
      ok := true;
    }

    method PopRateChange() returns (ok: bool)
      requires Valid()
      modifies this`rateConsume, this`pps
      ensures ok <==> old(Value()).PendingRates() == [] || RateOk(old(Value()).PendingRates()[0])
      ensures Valid() && (ok ==> Value() == AfterPopRate(old(Value())))
    {
      ok := true;
      var at := rateConsume;
      if at != rateProduce {
        ok := SetRate(rates[at]);
        if !ok { return; }
        at := at + 1;
        if at >= RATE_BUFFER_SIZE { at := 0; }
        rateConsume := at;
      }
    }

    method Request() returns (n: int)
      requires Valid()
      ensures n == Requested(Value())
    {
      var c := consume;
      if state == Idle { return -1; }
      if produce >= c {
        if c == 0 {
          n := BUFFER_POINTS - produce - 1;
        } else {
          n := BUFFER_POINTS - produce;
        }
      } else {
        n := c - produce - 1;
      }
    }

    method Advance(n: nat)
      requires Valid()
      modifies this`produce
      ensures Valid() && Value() == Advanced(old(Value()), n)
    {
      if state == Prepared || state == Playing {
        var newProduce := (produce + n) % BUFFER_POINTS;
        produce := newProduce;
      }
    }

    method GetFullness() returns (n: int)
      requires Valid()
      ensures n == |Value().Unread()|
    {
      n := produce - consume;
      if n < 0 { n := n + BUFFER_POINTS; }
    }

    method HandleIrq()
      requires Valid()
      modifies this`timer, this`shutterFlag, this`shutterPin, this`state, this`irqDo, this`count, this`stops
      modifies this`consume
      ensures Valid() && Value() == AfterIrq(old(Value()))
      ensures old(Value()).Unread() != [] ==>
                old(Value()).Unread() == [old(ring[consume])] + Value().Unread() && state == old(state)
      ensures old(Value()).Unread() == [] ==>
                Value().Unread() == [] && state == Idle && !shutterPin && StopUnderflow in stops
    {
      ghost var d := Value();
      IrqTakesOldest(d);
      assert d.ring[d.consume] == ring[consume];
      hide Contents;
      var c := consume;
      if produce == c {
        Stop({StopUnderflow});
        return;
      }
      c := c + 1;
      if c == BUFFER_POINTS { c := 0; }
      consume := c;
    }

    method EmergencyStop(cause: set<Condition>)
      requires Valid()
      modifies this`timer, this`shutterFlag, this`shutterPin, this`state, this`irqDo, this`count, this`stops
      modifies this`conditions, this`engine
      ensures Valid() && Value() == AfterEstop(old(Value()), cause)
    {
      conditions := conditions + cause;
      engine := Estop;
      Stop({StopEstop});
    }

    method ClearEstop(cause: set<Condition>)
      requires Valid()
      modifies this`conditions, this`engine
      ensures Valid() && Value() == AfterClear(old(Value()), cause)
    {
      conditions := conditions - cause;
      if conditions == {} { engine := Ready; }
    }

    method SetSource(newSrc: Source) returns (ok: bool)
      requires Valid()
      modifies this`timer, this`shutterFlag, this`shutterPin, this`state, this`irqDo, this`count, this`stops
      modifies this`srcFlags, this`src
      ensures Valid() && Value() == AfterSwitch(old(Value()), newSrc)
      ensures ok <==> newSrc == Network || old(src) != Network || old(state) == Idle
      ensures if ok then src == newSrc else Value() == old(Value())
      ensures ok && old(src) == newSrc ==> Value() == old(Value())
      ensures ok && old(src) != newSrc ==>
                Value() == old(Value()).(state := Idle, timer := false, irqDo := DoPanic, count := 0,
                                         shutterPin := false, shutterFlag := false,
                                         stops := old(stops) + {StopSrcSwitch}, src := newSrc, srcFlags := 0)
      ensures Sound(old(Value())) ==> Sound(Value())
    {
      if src == Network && newSrc != Network && state != Idle { return false; }
      if src == newSrc { return true; }
      Stop({StopSrcSwitch});
      srcFlags := 0;
      src := newSrc;
      ok := true;
    }
  }

  /** The state after reset. */
  const FRESH: Dev := Dev(Idle, 0, 0, seq(BUFFER_POINTS, _ => []), DoPanic, Network, false, 0, false, false, {},
                          seq(RATE_BUFFER_SIZE, _ => 0), 0, 0, 0, Ready, {}, Network, 0)

  datatype Event =
    | Prepare | Start | Stop(flags: set<StopFlag>) | SetRate(rate: int) | QueueRate(next: nat) | PopRate
    | Shutter(open: bool) | Trip(cause: set<Condition>) | Clear(cause: set<Condition>)
    | Switch(src: Source) | SetFlags(word: nat)
    | Write(points: seq<Point>) // into the region dac_request granted
    | Tick                      // the point timer, on the buffer
    | AbstractTick              // the point timer, on the abstract generator

  /** The timer interrupts only while it runs; rates outside the asserted range
      halt the device; no caller trips the stop without a cause. */
  predicate Enabled(d: Dev, e: Event) {
    d.Valid() &&
    match e
    case SetRate(r) => RateOk(r)
    case PopRate => d.PendingRates() == [] || RateOk(d.PendingRates()[0])
    case Trip(c) => c != {}
    case Write(pts) => |pts| <= Requested(d)
    case Tick => d.timer
    case AbstractTick => d.timer && d.irqDo != DoBuffer
    case _ => true
  }

  function Step(d: Dev, e: Event): Dev
    requires Enabled(d, e)
  {
    match e
    case Prepare => AfterPrepare(d)
    case Start => AfterStart(d)
    case Stop(f) => AfterStop(d, f)
    case SetRate(r) => d.(pps := r)
    case QueueRate(r) => AfterRateQueue(d, r)
    case PopRate => AfterPopRate(d)
    case Shutter(open) => AfterShutter(d, open)
    case Trip(c) => AfterEstop(d, c)
    case Clear(c) => AfterClear(d, c)
    case Switch(s) => AfterSwitch(d, s)
    case SetFlags(f) => d.(srcFlags := f)
    case Write(pts) => FillAppends(d, pts); Advanced(Filled(d, pts), |pts|)
    case Tick => AfterIrq(d)
    case AbstractTick => d.(count := d.count + 1)
  }

  /** d leads to e by the given events, each possible when it came. */
  predicate Run(d: Dev, events: seq<Event>, e: Dev)
    decreases |events|
  {
    if events == [] then d == e
    else Enabled(d, events[0]) && Run(Step(d, events[0]), events[1..], e)
  }

  /** What the emergency stop, the shutter and the point timer promise together. */
  predicate Safe(d: Dev) {
    && (d.engine == Estop <==> d.conditions != {})
    && (d.engine == Estop ==> d.state == Idle && !d.shutterPin && StopEstop in d.stops)
    && (d.shutterPin ==> d.state == Playing) && d.shutterFlag == d.shutterPin
    && (d.state == Playing <==> d.timer) && (d.timer <==> d.irqDo != DoPanic)
    && (d.state != Idle ==> d.engine == Ready && d.stops == {})
    && (d.state == Playing ==> d.pps > 0 && d.playingSrc == d.src && (d.irqDo == DoAbstract <==> d.src == Abstract))
  }

  predicate Sound(d: Dev) {
    d.Valid() && Safe(d) && (d.engine == Ready || d.engine == Estop)
  }

  lemma StepSound(d: Dev, e: Event)
    requires Sound(d) && Enabled(d, e)
    ensures Sound(Step(d, e))
  {
    match e
    case Write(pts) => FillAppends(d, pts);
    case QueueRate(r) => RateQueueAppends(d, r);
    case PopRate => PopRateTakesOldest(d);
    case _ =>
  }

  /** Over every run from reset: the light engine is in emergency stop exactly
      while a cause is recorded, and then the DAC is idle with the shutter
      closed; the shutter is open only while playing; playing, the point timer
      and an interrupt action other than panic always come together. */
  lemma {:induction false} AlwaysSafe(d: Dev, events: seq<Event>, e: Dev)
    requires Sound(d) && Run(d, events, e)
    ensures Sound(e)
    decreases |events|
  {
    if events != [] {
      StepSound(d, events[0]);
      AlwaysSafe(Step(d, events[0]), events[1..], e);
    }
  }

  lemma FreshSound()
    ensures Sound(FRESH)
  {
  }

  /** The timer never fires into the panic branch, and no start succeeds while
      a cause is recorded. */
  lemma NeverPanics(events: seq<Event>, e: Dev)
    requires Run(FRESH, events, e)
    ensures e.timer ==> e.irqDo != DoPanic
    ensures e.conditions != {} ==> !MayPrepare(e) && !MayStart(e)
  {
    FreshSound();
    AlwaysSafe(FRESH, events, e);
  }

  /** le_estop with no cause is where the equivalence would break: it holds after
      the call exactly when some cause was or became recorded. */
  lemma EmptyCause(d: Dev, cause: set<Condition>)
    requires Sound(d)
    ensures Sound(AfterEstop(d, cause)) <==> d.conditions + cause != {}
  {
  }
}
