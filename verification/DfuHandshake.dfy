/** The DFU handshake of boot/main.c: the USB interrupt handler against the main
    loop, as a state machine over their interleaved steps. */
module DfuHandshake {
  import opened Words

  datatype DfuState =
    | DfuIdle | DnloadSync | DnBusy | DnloadIdle | ManifestSync | DfuError

  /** A 64-byte block as the host sent it. */
  datatype Block = Block(number: nat, data: seq<byte>)

  /** Where the main loop is: waiting for data_req, or inside handle_data_block,
      or past it with the result not yet acted on, or with the error recorded
      but data_req still set. */
  datatype MainPc = Waiting | Handling | Returned(ok: bool) | ErrorRecorded

  datatype System = System(
    state: DfuState,       // the state global
    lastStatusOk: bool,    // last_status == OK
    dataReq: bool,
    buffer: Block,         // data_buffer and current_block
    main: MainPc,
    hostMay: bool,         // no block has been sent yet, or dfuDNLOAD_IDLE reported since the last
    sent: seq<Block>,      // blocks the host sent
    handled: seq<Block>,   // blocks as handle_data_block saw them
    results: seq<bool>,    // whether each succeeded
    reported: seq<Report>) // every DFU_GETSTATUS answer

  /** The state an answer names and how many blocks the host had sent by then. */
  datatype Report = Report(state: DfuState, sent: nat)

  datatype Event =
    | Dnload(b: Block)      // a DFU_DNLOAD of 64 bytes
    | DnloadEmpty           // a DFU_DNLOAD of no bytes: end of the transfer
    | DnloadOdd             // a DFU_DNLOAD of any other length
    | GetStatus | GetState | ClrStatus | Abort
    | MainStart             // the loop sees data_req
    | MainHandle(ok: bool)  // handle_data_block runs to its end
    | MainError             // state = dfuERROR; last_status = res
    | MainClear             // data_req = 0

  const INIT := System(DfuIdle, true, false, Block(0, []), Waiting, true, [], [], [], [])

  /** A request may come at any time, between any two steps of the main loop. */
  predicate Possible(s: System, e: Event) {
    match e
    case MainStart => s.main.Waiting? && s.dataReq
    case MainHandle(_) => s.main.Handling?
    case MainError => s.main == Returned(false)
    case MainClear => s.main == Returned(true) || s.main.ErrorRecorded?
    case _ => true
  }

  /** The host's rule: after a block it waits for dfuDNLOAD_IDLE before it sends
      the next. Anything else it may send when it likes. */
  predicate KeepsRule(s: System, e: Event) {
    e.Dnload? ==> s.hostMay
  }

  /** What HandleClassRequest answers a DFU_GETSTATUS with. */
  function Reports(s: System): DfuState {
    if s.state == DnloadSync then (if s.dataReq then DnBusy else DnloadIdle)
    else if s.state == ManifestSync then DfuIdle
    else s.state
  }

  function Step(s: System, e: Event): System {
    match e
    case Dnload(b) =>
      s.(buffer := b, dataReq := true, state := DnloadSync, hostMay := false, sent := s.sent + [b])
    case DnloadEmpty => s.(state := ManifestSync)
    case DnloadOdd => s.(state := DfuError, lastStatusOk := false)
    case GetStatus =>
      var answer := Reports(s);
      s.(state := if answer == DnBusy then s.state else answer,
         hostMay := s.hostMay || answer == DnloadIdle,
         reported := s.reported + [Report(answer, |s.sent|)])
    case GetState => s
    case ClrStatus => s.(lastStatusOk := true)
    case Abort => s.(state := DfuIdle)
    case MainStart => s.(main := Handling)
    case MainHandle(ok) =>
      s.(main := Returned(ok), handled := s.handled + [s.buffer], results := s.results + [ok])
    case MainError => s.(main := ErrorRecorded, state := DfuError, lastStatusOk := false)
    case MainClear => s.(main := Waiting, dataReq := false)
  }

  /** s leads to t by events that were possible when they came. */
  predicate Runs(s: System, events: seq<Event>, t: System)
    decreases |events|
  {
    if events == [] then s == t
    else Possible(s, events[0]) && Runs(Step(s, events[0]), events[1..], t)
  }

  /** The host keeps its rule throughout. */
  predicate Ruled(s: System, events: seq<Event>)
    decreases |events|
  {
    events == [] || (KeepsRule(s, events[0]) && Ruled(Step(s, events[0]), events[1..]))
  }

  // ---------- With a host that keeps the rule ----------

  predicate LastFailed(s: System) {
    s.results != [] && !s.results[|s.results| - 1]
  }

  /** Blocks are handled in order, unmodified, at most one behind. */
  predicate Counted(s: System) {
    && |s.results| == |s.handled| && s.handled <= s.sent && |s.sent| <= |s.handled| + 1
    && (|s.sent| == |s.handled| + 1 <==> s.dataReq && (s.main.Waiting? || s.main.Handling?))
    && (s.dataReq ==> s.sent != [] && s.buffer == s.sent[|s.sent| - 1] && !s.hostMay && s.state != DnloadIdle)
    && (!s.main.Waiting? ==> s.dataReq)
  }

  /** Where the main loop is agrees with how the last block went. */
  predicate ResultsAgree(s: System) {
    && (s.main.Returned? ==> s.results != [] && s.results[|s.results| - 1] == s.main.ok)
    && (s.main.ErrorRecorded? ==> LastFailed(s))
    && (forall k :: 0 <= k < |s.results| - 1 ==> s.results[k])
    && (LastFailed(s) ==> !s.hostMay && |s.sent| == |s.handled|)
    && (LastFailed(s) && !s.main.Returned? ==> s.state != DnloadSync && s.state != DnloadIdle)
  }

  /** The first n blocks sent were handled, all successfully. */
  predicate AllGood(s: System, n: nat) {
    n <= |s.results| && forall j :: 0 <= j < n ==> s.results[j]
  }

  /** dfuDNLOAD_IDLE was only ever reported with every block sent handled well. */
  predicate IdleMeansGood(s: System) {
    forall k :: 0 <= k < |s.reported| && s.reported[k].state == DnloadIdle ==> AllGood(s, s.reported[k].sent)
  }

  predicate ReportsAgree(s: System) {
    && s.state != DnBusy
    && (s.hostMay ==> AllGood(s, |s.sent|))
    && (s.state == DnloadIdle || (s.state == DnloadSync && !s.dataReq) ==> AllGood(s, |s.sent|))
    && IdleMeansGood(s)
  }

  predicate Inv(s: System) {
    Counted(s) && ResultsAgree(s) && ReportsAgree(s)
  }

  lemma RequestKeeps(s: System, e: Event)
    requires Inv(s) && KeepsRule(s, e)
    requires !e.MainStart? && !e.MainHandle? && !e.MainError? && !e.MainClear?
    ensures Inv(Step(s, e))
  {
    match e
    case Dnload(_) => DnloadKeeps(s, e);
    case GetStatus => StatusKeeps(s);
    case _ =>
  }

  lemma DnloadKeeps(s: System, e: Event)
    requires Inv(s) && e.Dnload? && s.hostMay
    ensures Inv(Step(s, e))
  {
  }

  lemma StatusKeeps(s: System)
    requires Inv(s)
    ensures Inv(Step(s, GetStatus))
  {
  }

  lemma MainKeeps(s: System, e: Event)
    requires Inv(s) && Possible(s, e) && (e.MainStart? || e.MainHandle? || e.MainError? || e.MainClear?)
    ensures Inv(Step(s, e))
  {
    match e
    case MainHandle(ok) => HandleKeeps(s, ok);
    case _ =>
  }

  lemma HandleKeeps(s: System, ok: bool)
    requires Inv(s) && s.main.Handling?
    ensures Inv(Step(s, MainHandle(ok)))
  {
    var t := Step(s, MainHandle(ok));
    assert forall n :: AllGood(s, n) ==> AllGood(t, n);
  }

  lemma StepKeeps(s: System, e: Event)
    requires Inv(s) && Possible(s, e) && KeepsRule(s, e)
    ensures Inv(Step(s, e))
  {
    hide Inv;
    if e.MainStart? || e.MainHandle? || e.MainError? || e.MainClear? {
      MainKeeps(s, e);
    } else {
      RequestKeeps(s, e);
    }
  }

  lemma {:induction false} RunKeeps(s: System, events: seq<Event>, t: System)
    requires Inv(s) && Runs(s, events, t) && Ruled(s, events)
    ensures Inv(t)
    decreases |events|
  {
    if events != [] {
      StepKeeps(s, events[0]);
      RunKeeps(Step(s, events[0]), events[1..], t);
    }
  }

  /** Over every interleaving with a host that keeps the rule: what has been
      handled is exactly what was sent, in order and unmodified, short of at
      most the block in hand; when no block is in hand it is everything; and
      dfuDNLOAD_IDLE is only ever reported when every block sent so far was
      handled successfully. */
  lemma Handshake(events: seq<Event>, s: System)
    requires Runs(INIT, events, s) && Ruled(INIT, events)
    ensures s.handled <= s.sent && |s.sent| <= |s.handled| + 1
    ensures !s.dataReq ==> s.handled == s.sent
    ensures s.main.Handling? ==> |s.handled| < |s.sent| && s.buffer == s.sent[|s.handled|]
    ensures IdleMeansGood(s)
  {
    RunKeeps(INIT, events, s);
  }

  /** A block is only safe to send once the one before it is out of the way. For
      whatever happens next, short of yet another block, until the main loop rests
      again: it and all before it have been handled, each once and in order, if
      and only if no request was outstanding when it was sent. */
  lemma OverrunExact(s: System, b: Block, events: seq<Event>, t: System)
    requires Inv(s) && Runs(Step(s, Dnload(b)), events, t) && !SendsBlock(events)
    requires t.main.Waiting? && !t.dataReq
    ensures t.sent == s.sent + [b]
    ensures t.handled == t.sent <==> !s.dataReq
  {
    var lost := s.main.Returned? || s.main.ErrorRecorded?;
    RestHandles(Step(s, Dnload(b)), s.handled, lost, events, t);
  }

  /** One request is outstanding, and nothing but b can be handled for it; if the
      main loop is already past handling, nothing. */
  predicate OneLeft(u: System, handled: seq<Block>, lost: bool) {
    if lost then
      u.handled == handled && Past(u)
    else
      || (u.handled == handled && u.dataReq && (u.main.Waiting? || u.main.Handling?))
      || (u.handled == handled + [u.buffer] && Past(u))
  }

  /** The main loop is past handling the request, or has none. */
  predicate Past(u: System) {
    if u.dataReq then u.main.Returned? || u.main.ErrorRecorded? else u.main.Waiting?
  }

  lemma {:induction false} RestHandles(u: System, handled: seq<Block>, lost: bool, events: seq<Event>, t: System)
    requires OneLeft(u, handled, lost) && Runs(u, events, t) && !SendsBlock(events)
    ensures OneLeft(t, handled, lost) && t.buffer == u.buffer && t.sent == u.sent
    decreases |events|
  {
    if events != [] {
      assert !events[0].Dnload?;
      RestHandles(Step(u, events[0]), handled, lost, events[1..], t);
    }
  }

  // ---------- What is reported of a block sent too early ----------

  /** dfuDNLOAD_IDLE has been reported between s and t. */
  predicate IdleSince(s: System, t: System) {
    |s.reported| <= |t.reported| && exists k :: |s.reported| <= k < |t.reported| && t.reported[k].state == DnloadIdle
  }

  predicate SendsBlock(events: seq<Event>) {
    exists k :: 0 <= k < |events| && events[k].Dnload?
  }

  /** Some run without another block reports dfuDNLOAD_IDLE. */
  ghost predicate CanReport(u: System) {
    exists events: seq<Event>, t: System :: Runs(u, events, t) && !SendsBlock(events) && IdleSince(u, t)
  }

  /** The shortest way from a request outstanding to the report. */
  function ToReport(main: MainPc): seq<Event> {
    match main
    case Waiting => [MainStart, MainHandle(true), MainClear, GetStatus]
    case Handling => [MainHandle(true), MainClear, GetStatus]
    case _ => [MainClear, GetStatus]
  }

  lemma ReportRuns(u: System) returns (t: System)
    requires u.dataReq && u.state == DnloadSync && u.main != Returned(false)
    ensures Runs(u, ToReport(u.main), t) && !SendsBlock(ToReport(u.main)) && IdleSince(u, t)
  {
    var v := if u.main.Waiting? then Step(u, MainStart) else u;
    var w := if v.main.Handling? then Step(v, MainHandle(true)) else v;
    var x := Step(w, MainClear);
    t := Step(x, GetStatus);
    RunsOn(x, GetStatus, [], t);
    RunsOn(w, MainClear, [GetStatus], t);
    if v.main.Handling? { RunsOn(v, MainHandle(true), [MainClear, GetStatus], t); }
    if u.main.Waiting? { RunsOn(u, MainStart, [MainHandle(true), MainClear, GetStatus], t); }
    assert t.reported[|u.reported|].state == DnloadIdle;
  }

  lemma RunsOn(s: System, e: Event, events: seq<Event>, t: System)
    requires Possible(s, e) && Runs(Step(s, e), events, t)
    ensures Runs(s, [e] + events, t)
  {
    assert ([e] + events)[1..] == events;
  }

  /** A block sent while a request is outstanding can be reported as done, without
      another being sent, exactly when the main loop is not about to record a
      failure of the one before. */
  lemma LateReportExact(s: System, b: Block)
    requires Inv(s) && s.dataReq
    ensures CanReport(Step(s, Dnload(b))) <==> s.main != Returned(false)
  {
    var u := Step(s, Dnload(b));
    if s.main == Returned(false) {
      forall events: seq<Event>, t: System | Runs(u, events, t) && !SendsBlock(events) ensures !IdleSince(u, t) {
        FailureStays(u, events, t);
      }
    } else {
      var t := ReportRuns(u);
      assert Runs(u, ToReport(u.main), t) && !SendsBlock(ToReport(u.main)) && IdleSince(u, t);
    }
  }

  /** And every such report is false: it counts one block more than was handled. */
  lemma LateReportFalse(s: System, b: Block, events: seq<Event>, t: System)
    requires Inv(s) && s.dataReq && !SendsBlock(events)
    requires Runs(Step(s, Dnload(b)), events, t) && IdleSince(Step(s, Dnload(b)), t)
    ensures |t.handled| < |t.sent| && !IdleMeansGood(t)
  {
    var u := Step(s, Dnload(b));
    RestHandles(u, s.handled, s.main.Returned? || s.main.ErrorRecorded?, events, t);
    ReportsCount(u, events, t);
    var k :| |u.reported| <= k < |t.reported| && t.reported[k].state == DnloadIdle;
    assert t.reported[k].sent == |t.sent|;
  }

  lemma {:induction false} ReportsCount(u: System, events: seq<Event>, t: System)
    requires Runs(u, events, t) && !SendsBlock(events) && |u.results| == |u.handled|
    ensures |t.results| == |t.handled| && t.sent == u.sent && u.reported <= t.reported
    ensures forall k :: |u.reported| <= k < |t.reported| ==> t.reported[k].sent == |u.sent|
    decreases |events|
  {
    if events != [] {
      assert !events[0].Dnload?;
      ReportsCount(Step(u, events[0]), events[1..], t);
    }
  }

  // ---------- The device alone, whatever the host does ----------

  /** dfuERROR is left by DFU_ABORT and by any DFU_DNLOAD whose length is right or
      zero, and by nothing else. Appendix A.2 of the USB Device Firmware Upgrade
      Specification 1.1 has DFU_CLRSTATUS leave it, and only that: the code clears
      the status and stays, and never looks at the state before it takes a block. */
  lemma LeavesError(s: System, e: Event)
    requires s.state == DfuError && Possible(s, e)
    ensures Step(s, e).state != DfuError <==> e.Abort? || e.Dnload? || e.DnloadEmpty?
  {
  }

  lemma {:induction false} ErrorStays(s: System, events: seq<Event>, t: System)
    requires s.state == DfuError && Runs(s, events, t)
    requires forall e <- events :: !e.Abort? && !e.Dnload? && !e.DnloadEmpty?
    ensures t.state == DfuError
    decreases |events|
  {
    if events != [] {
      LeavesError(s, events[0]);
      ErrorStays(Step(s, events[0]), events[1..], t);
    }
  }

  /** The last block failed, and the device has noted it or is about to. */
  predicate Failed(s: System) {
    && LastFailed(s) && s.state != DnloadIdle
    && match s.main
       case Waiting => !s.dataReq && s.state != DnloadSync
       case Handling => false
       case Returned(ok) => !ok && s.dataReq
       case ErrorRecorded => s.dataReq && s.state != DnloadSync
  }

  lemma {:induction false} FailureStays(s: System, events: seq<Event>, t: System)
    requires Failed(s) && Runs(s, events, t) && !SendsBlock(events)
    ensures Failed(t) && t.handled == s.handled && t.sent == s.sent
    ensures s.reported <= t.reported && !IdleSince(s, t)
    decreases |events|
  {
    if events != [] {
      var u := Step(s, events[0]);
      assert !events[0].Dnload?;
      FailureStep(s, events[0]);
      hide Failed, Step, Possible;
      FailureStays(u, events[1..], t);
    }
  }

  lemma FailureStep(s: System, e: Event)
    requires Failed(s) && Possible(s, e) && !e.Dnload?
    ensures var u := Step(s, e);
            && Failed(u) && u.handled == s.handled && u.sent == s.sent
            && s.reported <= u.reported && !IdleSince(s, u)
  {
  }

  /** The main loop finishes with the failed block, takes b, and b succeeds. */
  function Recovery(s: System, b: Block): seq<Event> {
    (match s.main
     case Returned(_) => [MainError, MainClear]
     case ErrorRecorded => [MainClear]
     case _ => [])
    + [Dnload(b), MainStart, MainHandle(true), MainClear, GetStatus]
  }

  lemma RecoveryRuns(s: System, b: Block) returns (t: System)
    requires Failed(s)
    ensures Runs(s, Recovery(s, b), t) && IdleSince(s, t) && t.handled == s.handled + [b]
  {
    var tail := [Dnload(b), MainStart, MainHandle(true), MainClear, GetStatus];
    var rest := match s.main
      case Returned(_) => Step(Step(s, MainError), MainClear)
      case ErrorRecorded => Step(s, MainClear)
      case _ => s;
    t := Step(Step(Step(Step(Step(rest, Dnload(b)), MainStart), MainHandle(true)), MainClear), GetStatus);
    TailRuns(rest, b, t);
    hide Runs;
    if s.main.Returned? {
      RunsOn(Step(s, MainError), MainClear, tail, t);
      RunsOn(s, MainError, [MainClear] + tail, t);
      assert Recovery(s, b) == [MainError] + ([MainClear] + tail);
    } else if s.main.ErrorRecorded? {
      RunsOn(s, MainClear, tail, t);
    } else {
      assert Recovery(s, b) == tail;
    }
    assert t.reported[|s.reported|].state == DnloadIdle;
  }

  lemma TailRuns(u: System, b: Block, t: System)
    requires u.main.Waiting? && !u.dataReq
    requires t == Step(Step(Step(Step(Step(u, Dnload(b)), MainStart), MainHandle(true)), MainClear), GetStatus)
    ensures Runs(u, [Dnload(b), MainStart, MainHandle(true), MainClear, GetStatus], t)
  {
    var u1 := Step(u, Dnload(b));
    var u2 := Step(u1, MainStart);
    var u3 := Step(u2, MainHandle(true));
    var u4 := Step(u3, MainClear);
    RunsOn(u4, GetStatus, [], t);
    RunsOn(u3, MainClear, [GetStatus], t);
    RunsOn(u2, MainHandle(true), [MainClear, GetStatus], t);
    RunsOn(u1, MainStart, [MainHandle(true), MainClear, GetStatus], t);
    RunsOn(u, Dnload(b), [MainStart, MainHandle(true), MainClear, GetStatus], t);
  }

  /** Some run in which the host sends just b ends with dfuDNLOAD_IDLE reported. */
  ghost predicate CanRecover(s: System, b: Block) {
    exists t: System :: Runs(s, Recovery(s, b), t) && IdleSince(s, t)
  }

  /** After a failed block dfuDNLOAD_IDLE comes back only in runs in which the host
      sends another block, and with any block at all it can. */
  lemma RecoversExactly(s: System)
    requires Failed(s)
    ensures forall events: seq<Event>, t: System :: Runs(s, events, t) && IdleSince(s, t) ==> SendsBlock(events)
    ensures forall b: Block :: CanRecover(s, b)
  {
    forall events: seq<Event>, t: System | Runs(s, events, t) && IdleSince(s, t) ensures SendsBlock(events) {
      if !SendsBlock(events) { FailureStays(s, events, t); }
    }
    forall b: Block ensures CanRecover(s, b) {
      var t := RecoveryRuns(s, b);
    }
  }

  /** With a host that keeps the rule every recorded failure is one of these, so
      for it the download is over. */
  lemma RuledFailure(s: System)
    requires Inv(s) && LastFailed(s)
    ensures Failed(s) && !s.hostMay
  {
  }
}
