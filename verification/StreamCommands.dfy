/** What each command of the point stream does to the device, in terms of the device
    alone: for every session, at a command boundary, whatever bytes follow. */
module StreamCommands {
  import opened Words
  import opened Dac
  import opened PointStream

  /** The session s after a reply that reports the device d. */
  function Replied(s: Session, d: Dev, response: char, command: byte): (t: Session)
    requires d.Valid()
  {
    var status := Status(d.engine, d.state, d.shutterFlag, d.stops, |d.Unread()|,
                         if d.state == Playing then d.pps else 0, d.count, d.src, d.srcFlags);
    s.(d := d, replies := s.replies + [Reply(response, command, status)])
  }

  predicate AtCommand(s: Session) {
    s.Valid() && s.end == Open && s.mode == Main
  }

  /** A unit that deals with just the bytes of a command. */
  lemma FirstCommand(s: Session, command: seq<byte>, rest: seq<byte>)
    requires s.Valid() && s.end == Open && command != []
    requires Unit(s, command).Used? && Unit(s, command).n == |command|
    ensures Feed(s, command + rest) == Feed(Unit(s, command).next, rest)
  {
    hide Unit, Feed;
    UnitStable(s, command, rest);
    UnitProgress(s, command + rest);
    assert (command + rest)[|command|..] == rest;
  }

  /** Byte 0 or 0xFF, in any state: the cause is recorded, the light engine stopped, the
      DAC idle, the timer off and the shutter closed. The reply reports that already. */
  lemma EmergencyStop(s: Session, b: byte, rest: seq<byte>)
    requires AtCommand(s) && (b == 0 || b == 0xFF)
    ensures var d := s.d.(conditions := s.d.conditions + {OfPacket}, engine := LightEngine.Estop,
                          state := Idle, timer := false, irqDo := DoPanic, count := 0,
                          shutterPin := false, shutterFlag := false, stops := s.d.stops + {StopEstop});
            && d.Valid() && d.Unread() == s.d.Unread()
            && Feed(s, [b] + rest) == Feed(Replied(s, d, 'a', b), rest)
  {
    FullnessIsLength(s.d.ring, s.d.consume, s.d.produce);
    FirstCommand(s, [b], rest);
  }

  /** 's': a DAC that is not idle becomes idle, with the timer off and the shutter closed
      and no flag raised; an idle one is left alone, and the command refused. */
  lemma StopStream(s: Session, rest: seq<byte>)
    requires AtCommand(s)
    ensures var d := s.d.(state := Idle, timer := false, irqDo := DoPanic, count := 0,
                          shutterPin := false, shutterFlag := false);
            Feed(s, [0x73] + rest)
            == Feed(if s.d.state == Idle then Replied(s, s.d, 'I', 0x73) else Replied(s, d, 'a', 0x73), rest)
  {
    FullnessIsLength(s.d.ring, s.d.consume, s.d.produce);
    assert s.d.stops + {} == s.d.stops;
    FirstCommand(s, [0x73], rest);
  }

  /** 'c': of the causes, just the four that can be cleared are. The light engine is
      ready again when none is left, and the command acknowledged when it is ready. */
  lemma ClearStop(s: Session, rest: seq<byte>)
    requires AtCommand(s)
    ensures var left := s.d.conditions - {OfPacket, OfInput, OfOvertemp, OfLinkLost};
            var d := s.d.(conditions := left, engine := if left == {} then LightEngine.Ready else s.d.engine);
            && Feed(s, [0x63] + rest)
               == Feed(Replied(s, d, if d.engine == LightEngine.Ready then 'a' else '!', 0x63), rest)
            && (Sound(s.d) ==> (d.engine == LightEngine.Ready <==> left == {}))
  {
    FullnessIsLength(s.d.ring, s.d.consume, s.d.produce);
    FirstCommand(s, [0x63], rest);
  }

  /** 'p': an idle DAC with a ready light engine is prepared, its rings empty and its
      flags cleared; any other is left alone, and the command refused. */
  lemma PrepareStream(s: Session, rest: seq<byte>)
    requires AtCommand(s)
    ensures var d := s.d.(state := Prepared, irqDo := DoPanic, stops := {},
                          produce := 0, consume := 0, rateProduce := 0, rateConsume := 0);
            && d.Valid() && d.Unread() == [] && d.PendingRates() == []
            && Feed(s, [0x70] + rest)
               == Feed(if s.d.state == Idle && s.d.engine == LightEngine.Ready then Replied(s, d, 'a', 0x70)
                       else Replied(s, s.d, 'I', 0x70), rest)
  {
    FullnessIsLength(s.d.ring, s.d.consume, s.d.produce);
    FirstCommand(s, [0x70], rest);
  }

  /** '?' and 'v' ask for a reply and change nothing. */
  lemma AskStatus(s: Session, rest: seq<byte>)
    requires AtCommand(s)
    ensures Feed(s, [0x3F] + rest) == Feed(Replied(s, s.d, 'a', 0x3F), rest)
    ensures Feed(s, [0x76] + rest) == Feed(s.(replies := s.replies + [Version]), rest)
  {
    FullnessIsLength(s.d.ring, s.d.consume, s.d.produce);
    FirstCommand(s, [0x3F], rest);
    FirstCommand(s, [0x76], rest);
  }

  /** Any byte that begins no command ends the connection, and leaves the device. */
  lemma UnknownByte(s: Session, b: byte, rest: seq<byte>)
    requires AtCommand(s)
    requires b !in [0x70, 0x62, 0x75, 0x71, 0x64, 0x73, 0, 0xFF, 0x63, 0x3F, 0x76, 0x49, 0x50, 0x44]
    ensures Feed(s, [b] + rest) == (s.(end := UnknownCommand), [])
  {
    UnitProgress(s, [b] + rest);
  }

  /** A rate command: its letter, then for 'b' and 'u' two bytes that are ignored, then
      the rate, low byte first. */
  function RateBytes(letter: byte, ignored: seq<byte>, rate: word): (b: seq<byte>)
    ensures |b| == 5 + |ignored| && b[0] == letter
  {
    [letter] + ignored + Pack32(rate)
  }

  lemma RateIn(letter: byte, ignored: seq<byte>, rate: word)
    ensures Le32(RateBytes(letter, ignored, rate), |ignored| + 1) == rate
  {
    Le32OfPack32(rate);
    var b := RateBytes(letter, ignored, rate);
    assert b[|ignored| + 1..] == Pack32(rate) && Le32(b, |ignored| + 1) == Le32(b[|ignored| + 1..], 0);
  }

  lemma Refused(s: Session, bytes: seq<byte>, letter: byte)
    requires AtCommand(s) && bytes != [] && bytes[0] == letter && RateSize(letter) == |bytes| >= 5
    requires Le32(bytes, |bytes| - 4) > 100000
    ensures Unit(s, bytes) == Used(1, Sent(s, 'I', letter))
  {
    hide AfterRateQueue, AfterStart, ShortCommand, DataCommand, Dev.Unread, Stored, Dropped;
  }

  /** A rate above 100000 is refused by each of the three, and then only the letter is
      dealt with. */
  lemma RateTooHigh(s: Session, letter: byte, ignored: seq<byte>, rate: word, rest: seq<byte>)
    requires AtCommand(s) && rate > 100000
    requires if letter == 0x71 then ignored == [] else letter in [0x62, 0x75] && |ignored| == 2
    ensures var bytes := RateBytes(letter, ignored, rate);
            Feed(s, bytes + rest) == Feed(Replied(s, s.d, 'I', letter), bytes[1..] + rest)
  {
    FullnessIsLength(s.d.ring, s.d.consume, s.d.produce);
    var bytes := RateBytes(letter, ignored, rate);
    hide RateBytes, Feed, AfterRateQueue, AfterStart, ShortCommand, DataCommand, Dev.Unread, Stored, Dropped;
    RateIn(letter, ignored, rate);
    Refused(s, bytes, letter);
    UnitStable(s, bytes, rest);
    UnitProgress(s, bytes + rest);
    hide Unit;
    assert (bytes + rest)[1..] == bytes[1..] + rest;
  }

  /** 'b' with any other rate but 0: the rate is set, and a prepared DAC starts to play
      from its source, with the timer running and the shutter open. It is acknowledged
      either way. */
  lemma BeginStream(s: Session, ignored: seq<byte>, rate: word, rest: seq<byte>)
    requires AtCommand(s) && |ignored| == 2 && 0 < rate <= 100000
    ensures var d := if s.d.state != Prepared then s.d.(pps := rate)
                     else s.d.(pps := rate, state := Playing, playingSrc := s.d.src, timer := true,
                               irqDo := if s.d.src == Abstract then DoAbstract else DoBuffer,
                               shutterPin := true, shutterFlag := true);
            && d.Valid() && Feed(s, RateBytes(0x62, ignored, rate) + rest) == Feed(Replied(s, d, 'a', 0x62), rest)
  {
    FullnessIsLength(s.d.ring, s.d.consume, s.d.produce);
    hide RateBytes;
    RateIn(0x62, ignored, rate);
    FirstCommand(s, RateBytes(0x62, ignored, rate), rest);
  }

  /** 'u': the rate is set, and that is all. */
  lemma UpdateRate(s: Session, ignored: seq<byte>, rate: word, rest: seq<byte>)
    requires AtCommand(s) && |ignored| == 2 && 0 < rate <= 100000
    ensures var d := s.d.(pps := rate);
            Feed(s, RateBytes(0x75, ignored, rate) + rest) == Feed(Replied(s, d, 'a', 0x75), rest)
  {
    FullnessIsLength(s.d.ring, s.d.consume, s.d.produce);
    hide RateBytes;
    RateIn(0x75, ignored, rate);
    FirstCommand(s, RateBytes(0x75, ignored, rate), rest);
  }

  /** 'b' and 'u' with rate 0 run into the assertion of dac_set_rate. */
  lemma RateZero(s: Session, letter: byte, ignored: seq<byte>, rest: seq<byte>)
    requires AtCommand(s) && |ignored| == 2 && letter in [0x62, 0x75]
    ensures Feed(s, RateBytes(letter, ignored, 0) + rest) == (s.(end := RateAssert), [])
  {
    hide RateBytes;
    RateIn(letter, ignored, 0);
    UnitStable(s, RateBytes(letter, ignored, 0), rest);
    UnitProgress(s, RateBytes(letter, ignored, 0) + rest);
  }

  /** 'q': the rate waits behind those already queued, unless the DAC is idle or 199
      wait; nothing else changes, and it is acknowledged whatever becomes of the rate. */
  lemma QueueRate(s: Session, rate: word, rest: seq<byte>) returns (d: Dev)
    requires AtCommand(s) && rate <= 100000
    ensures d == s.d.(rates := d.rates, rateProduce := d.rateProduce) && d.Valid()
    ensures d.PendingRates() == if s.d.state == Idle || |s.d.PendingRates()| == 199 then s.d.PendingRates()
                                else s.d.PendingRates() + [rate]
    ensures Feed(s, RateBytes(0x71, [], rate) + rest) == Feed(Replied(s, d, 'a', 0x71), rest)
  {
    hide RateBytes;
    d := AfterRateQueue(s.d, rate);
    RateQueueAppends(s.d, rate);
    FullnessIsLength(d.ring, d.consume, d.produce);
    RateIn(0x71, [], rate);
    FirstCommand(s, RateBytes(0x71, [], rate), rest);
  }

  /** 'd' and a number: that many points follow, or, if it is 0, the command is over
      and acknowledged. */
  lemma DataHeader(s: Session, n: nat, rest: seq<byte>)
    requires AtCommand(s) && n < 0x1_0000
    ensures Feed(s, [0x64] + Pack16(n) + rest)
            == Feed(if n > 0 then s.(mode := Data, left := n) else Replied(s, s.d, 'a', 0x64), rest)
  {
    FullnessIsLength(s.d.ring, s.d.consume, s.d.produce);
    var b: seq<byte> := [0x64] + Pack16(n);
    assert b[1..] == Pack16(n) && Le16(b, 1) == Le16(b[1..], 0);
    FirstCommand(s, b, rest);
  }
}
