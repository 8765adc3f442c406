/** What becomes of the points and rates the host is given to send, over whole runs
    of the host and the device of FlowControl: what goes in at one end against what
    enters the device's rings, and what the interrupt plays. */
module PointFlow {
  import opened Words
  import opened Dac
  import opened PointStream
  import opened FlowControl

  /** What a data command brings: a rate change and points. */
  datatype Entry = RateEntry(rate: nat) | PointEntry(point: Point)

  function PointEntries(pts: seq<Point>): seq<Entry> {
    if pts == [] then [] else [PointEntry(pts[0])] + PointEntries(pts[1..])
  }

  function PointsOf(entries: seq<Entry>): seq<Point> {
    if entries == [] then []
    else (if entries[0].PointEntry? then [entries[0].point] else []) + PointsOf(entries[1..])
  }

  lemma {:induction false} PointsConcat(a: seq<Entry>, b: seq<Entry>)
    ensures PointsOf(a + b) == PointsOf(a) + PointsOf(b)
    decreases |a|
  {
    if a == [] {
      assert a + b == b;
    } else {
      assert (a + b)[1..] == a[1..] + b && (a + b)[0] == a[0];
      PointsConcat(a[1..], b);
    }
  }

  /** a is b with some elements left out. */
  predicate Subsequence<T(==)>(a: seq<T>, b: seq<T>)
    decreases |b|
  {
    a == [] || (b != [] && ((a[0] == b[0] && Subsequence(a[1..], b[1..])) || Subsequence(a, b[1..])))
  }

  lemma {:induction false} SubsequenceLength<T>(a: seq<T>, b: seq<T>)
    requires Subsequence(a, b)
    ensures |a| <= |b| && (|a| == |b| ==> a == b)
    decreases |b|
  {
    if a != [] {
      if a[0] == b[0] && Subsequence(a[1..], b[1..]) {
        SubsequenceLength(a[1..], b[1..]);
        assert a == [a[0]] + a[1..] && b == [b[0]] + b[1..];
      } else {
        SubsequenceLength(a, b[1..]);
      }
    }
  }

  lemma {:induction false} SubsequencePoints(a: seq<Entry>, b: seq<Entry>)
    requires Subsequence(a, b)
    ensures Subsequence(PointsOf(a), PointsOf(b))
    decreases |b|
  {
    if a != [] {
      if a[0] == b[0] && Subsequence(a[1..], b[1..]) {
        SubsequencePoints(a[1..], b[1..]);
        if b[0].PointEntry? {
          SubsequenceBoth(b[0].point, PointsOf(a[1..]), PointsOf(b[1..]));
        } else {
          assert PointsOf(a) == PointsOf(a[1..]) && PointsOf(b) == PointsOf(b[1..]);
        }
      } else {
        SubsequencePoints(a, b[1..]);
        if b[0].PointEntry? {
          SubsequenceOne(b[0].point, PointsOf(a), PointsOf(b[1..]));
        } else {
          assert PointsOf(b) == PointsOf(b[1..]);
        }
      }
    }
  }

  lemma SubsequenceBoth<T>(x: T, a: seq<T>, b: seq<T>)
    requires Subsequence(a, b)
    ensures Subsequence([x] + a, [x] + b)
  {
    var c, d := [x] + a, [x] + b;
    assert c[1..] == a && d[1..] == b && c[0] == d[0];
  }

  lemma SubsequenceOne<T>(x: T, a: seq<T>, b: seq<T>)
    requires Subsequence(a, b)
    ensures Subsequence(a, [x] + b)
  {
    var d := [x] + b;
    assert d[1..] == b && d != [];
  }

  // ---------- One step ----------

  /** What the host is given with an action: the points as the frame has them, but
      for the flag the first one is sent with. */
  function Given(a: Action): seq<Entry> {
    match a
    case SendData(rate, pts) =>
      if pts == [] || |pts[0]| != POINT_SIZE then []
      else [RateEntry(rate), PointEntry(Marked(pts[0]))] + PointEntries(pts[1..])
    case _ => []
  }

  /** What is on its way to the device. */
  function OnWire(items: seq<Item>): seq<Entry> {
    if items == [] then [] else EntriesOf(items[0]) + OnWire(items[1..])
  }

  function EntriesOf(item: Item): seq<Entry> {
    match item
    case QueueItem(r) => [RateEntry(r)]
    case PointItem(b) => [PointEntry(b)]
    case _ => []
  }

  lemma {:induction false} WireConcat(a: seq<Item>, b: seq<Item>)
    ensures OnWire(a + b) == OnWire(a) + OnWire(b)
    decreases |a|
  {
    if a == [] {
      assert a + b == b;
    } else {
      hide EntriesOf;
      assert (a + b)[1..] == a[1..] + b && (a + b)[0] == a[0];
      WireConcat(a[1..], b);
      ConcatAssociates(EntriesOf(a[0]), OnWire(a[1..]), OnWire(b));
    }
  }

  function Last<T>(s: seq<T>): T
    requires s != []
  {
    s[|s| - 1]
  }

  /** What the device takes into its rings with an action, read off the rings. */
  function Entered(s: System, a: Action): seq<Entry>
    requires Possible(s, a)
  {
    if !a.Receive? then []
    else
      var d, e := s.dev.d, Act(s, a).dev.d;
      (if |e.PendingRates()| > |d.PendingRates()| then [RateEntry(Last(e.PendingRates()))] else [])
      + (if |e.Unread()| > |d.Unread()| then [PointEntry(Last(e.Unread()))] else [])
  }

  /** The points that leave the ring with an action, oldest first. */
  function Gone(s: System, a: Action): seq<Point>
    requires Possible(s, a) && s.dev.Valid()
  {
    match a
    case Elsewhere(e) => EventShrinks(s.dev.d, e); Lost(s.dev.d, Act(s, a).dev.d)
    case Receive => Lost(s.dev.d, Act(s, a).dev.d)
    case _ => []
  }

  function Lost(d: Dev, e: Dev): seq<Point>
    requires d.Valid() && e.Valid()
  {
    if |e.Unread()| < |d.Unread()| then d.Unread()[..|d.Unread()| - |e.Unread()|] else []
  }

  /** The point the interrupt plays. */
  function Played(s: System, a: Action): seq<Point>
    requires s.dev.Valid()
  {
    if a == Elsewhere(Tick) && s.dev.d.produce != s.dev.d.consume then [s.dev.d.ring[s.dev.d.consume]] else []
  }

  /** The device prepares, which empties its ring, while points are still in it. */
  predicate Discards(s: System, a: Action)
    requires Possible(s, a) && s.dev.Valid()
  {
    && (a == Elsewhere(Prepare) || (a.Receive? && s.down[0].PrepareItem?))
    && MayPrepare(s.dev.d) && s.dev.d.Unread() != []
  }

  /** What an item brings into the rings: a rate or a point of its own, behind what
      is there, or nothing. Only a prepare empties them. */
  predicate Brings(d: Dev, item: Item, e: Dev)
    requires d.Valid() && e.Valid()
  {
    match item
    case QueueItem(r) =>
      e.Unread() == d.Unread() && (e.PendingRates() == d.PendingRates() + [r] || e.PendingRates() == d.PendingRates())
    case PointItem(b) =>
      e.PendingRates() == d.PendingRates() && (e.Unread() == d.Unread() + [b] || e.Unread() == d.Unread())
    case PrepareItem => if MayPrepare(d) then e.Unread() == [] && e.PendingRates() == [] else e == d
    case _ => e.Unread() == d.Unread() && e.PendingRates() == d.PendingRates()
  }

  lemma ItemBrings(s: Session, item: Item)
    requires s.Valid() && s.end == Open && item.Valid() && (item.PointItem? <==> s.mode != Main)
    ensures Unit(s, item.Bytes()).Used? && Brings(s.d, item, Unit(s, item.Bytes()).next.d)
  {
    var b := item.Bytes();
    match item
    case BeginItem(r) =>
      Le32OfPack32(r);
      assert b[3..] == Pack32(r) && Le32(b, 3) == Le32(b[3..], 0) && b[0] == BEGIN;
    case QueueItem(r) =>
      Le32OfPack32(r);
      assert b[1..] == Pack32(r) && Le32(b, 1) == Le32(b[1..], 0) && b[0] == QUEUE;
      RateQueueAppends(s.d, r);
    case HeaderItem(n) => assert Le16(b, 1) == n;
    case PointItem(p) =>
      assert b[..POINT_SIZE] == b;
      if s.mode == Data && Requested(s.d) > 0 { StoredOne(s, b); }
    case _ =>
  }

  /** One action, for what is on the wire: it moves on from the front, and what enters
      the device is the front or nothing. */
  lemma StepWire(s: System, a: Action)
    requires Channels(s) && Possible(s, a)
    ensures var t := Act(s, a);
            if a.Receive? then
              && s.down != [] && OnWire(s.down) == EntriesOf(s.down[0]) + OnWire(t.down) && Given(a) == []
              && (Entered(s, a) == [] || Entered(s, a) == EntriesOf(s.down[0]))
              && t.tally.dropped - s.tally.dropped == |PointsOf(EntriesOf(s.down[0]))| - |PointsOf(Entered(s, a))|
            else
              && OnWire(t.down) == OnWire(s.down) + Given(a) && Entered(s, a) == []
              && t.tally.dropped == s.tally.dropped
  {
    hide Channels, Unit, EntriesOf, Dev.Unread, Dev.PendingRates;
    match a
    case Receive =>
      ReceiveBrings(s);
    case SendData(rate, pts) =>
      if pts == [] {
        assert OnWire(s.down) + [] == OnWire(s.down);
      } else {
        WireConcat(s.down, Command(rate, pts));
        CommandWire(rate, pts);
      }
    case SendPrepare => SingleWire(s, a, PrepareItem);
    case SendBegin(rate) => SingleWire(s, a, BeginItem(rate));
    case _ => assert OnWire(s.down) + [] == OnWire(s.down);
  }

  lemma SingleWire(s: System, a: Action, item: Item)
    requires Possible(s, a) && (item.PrepareItem? || item.BeginItem?)
    requires Act(s, a).down == s.down || Act(s, a).down == s.down + [item]
    ensures OnWire(Act(s, a).down) == OnWire(s.down) + []
  {
    WireConcat(s.down, [item]);
    assert [item][1..] == [] && OnWire([item]) == [];
    assert OnWire(s.down) + [] == OnWire(s.down);
  }

  lemma CommandWire(rate: nat, pts: seq<seq<byte>>)
    requires pts != [] && forall p <- pts :: |p| == POINT_SIZE
    ensures OnWire(Command(rate, pts)) == [RateEntry(rate), PointEntry(Marked(pts[0]))] + PointEntries(pts[1..])
  {
    hide Marked, OnWire, PointEntries;
    var first, tail := PointItem(Marked(pts[0])), PointItems(pts[1..]);
    CommandItems(rate, pts);
    PointsWire(pts[1..]);
    WireFirst(first, tail);
    WireFirst(HeaderItem(|pts|), [first] + tail);
    WireFirst(QueueItem(rate), [HeaderItem(|pts|)] + ([first] + tail));
    hide Command, PointItems;
    InFront(RateEntry(rate), PointEntry(Marked(pts[0])), PointEntries(pts[1..]));
  }

  lemma InFront(r: Entry, p: Entry, rest: seq<Entry>)
    ensures [r] + ([] + ([p] + rest)) == [r, p] + rest
  {
  }

  lemma CommandItems(rate: nat, pts: seq<seq<byte>>)
    requires pts != [] && forall p <- pts :: |p| == POINT_SIZE
    ensures Command(rate, pts)
         == [QueueItem(rate)] + ([HeaderItem(|pts|)] + ([PointItem(Marked(pts[0]))] + PointItems(pts[1..])))
  {
    hide Marked;
    assert MarkFirst(pts)[1..] == pts[1..];
    assert PointItems(MarkFirst(pts)) == [PointItem(Marked(pts[0]))] + PointItems(pts[1..]);
  }

  lemma WireFirst(item: Item, rest: seq<Item>)
    ensures OnWire([item] + rest) == EntriesOf(item) + OnWire(rest)
  {
    assert ([item] + rest)[1..] == rest;
  }

  lemma {:induction false} PointsWire(pts: seq<seq<byte>>)
    ensures OnWire(PointItems(pts)) == PointEntries(pts)
    decreases |pts|
  {
    if pts != [] {
      assert PointItems(pts)[1..] == PointItems(pts[1..]);
      PointsWire(pts[1..]);
    }
  }

  lemma ReceiveBrings(s: System)
    requires Channels(s) && Possible(s, Receive)
    ensures var t := Act(s, Receive);
            && s.down != [] && OnWire(s.down) == EntriesOf(s.down[0]) + OnWire(t.down)
            && (Entered(s, Receive) == [] || Entered(s, Receive) == EntriesOf(s.down[0]))
            && t.tally.dropped - s.tally.dropped == |PointsOf(EntriesOf(s.down[0]))| - |PointsOf(Entered(s, Receive))|
            && Brings(s.dev.d, s.down[0], t.dev.d)
  {
    hide Channels, Unit, Dev.Unread, Dev.PendingRates;
    WellFormedHead(s);
    ItemBrings(s.dev.(replies := []), s.down[0]);
  }

  /** One action, for the ring: what is in it is what was, less what left it and more
      what entered. What leaves it is what the interrupt plays, unless a prepare
      throws points away. */
  lemma StepRing(s: System, a: Action)
    requires Channels(s) && Possible(s, a)
    ensures var t := Act(s, a);
            && t.dev.Valid()
            && s.dev.d.Unread() + PointsOf(Entered(s, a)) == Gone(s, a) + t.dev.d.Unread()
            && |Gone(s, a)| >= |Played(s, a)|
            && (Gone(s, a) == Played(s, a) <==> !Discards(s, a))
            && (|Gone(s, a)| == |Played(s, a)| <==> !Discards(s, a))
  {
    DevValid(s);
    hide Channels, Unit, Dev.Unread, Dev.PendingRates, Dac.Step;
    match a
    case Receive =>
      ReceiveBrings(s);
      ReceiveRing(s);
    case Elsewhere(e) => EventRing(s, e);
    case _ =>
      assert s.dev.d.Unread() + [] == s.dev.d.Unread() == [] + s.dev.d.Unread();
  }

  lemma ReceiveRing(s: System)
    requires Possible(s, Receive) && s.dev.Valid() && Act(s, Receive).dev.Valid()
    requires Brings(s.dev.d, s.down[0], Act(s, Receive).dev.d)
    ensures var e := Act(s, Receive).dev.d;
            && s.dev.d.Unread() + PointsOf(Entered(s, Receive)) == Gone(s, Receive) + e.Unread()
            && (if Discards(s, Receive) then Gone(s, Receive) != [] else Gone(s, Receive) == [])
  {
    hide Unit, Dev.Unread, Dev.PendingRates, Act;
  }

  lemma EventRing(s: System, e: Event)
    requires s.dev.Valid() && Possible(s, Elsewhere(e))
    ensures var t := Act(s, Elsewhere(e));
            && t.dev.Valid()
            && s.dev.d.Unread() + [] == Gone(s, Elsewhere(e)) + t.dev.d.Unread()
            && |Gone(s, Elsewhere(e))| >= |Played(s, Elsewhere(e))|
            && (Gone(s, Elsewhere(e)) == Played(s, Elsewhere(e)) <==> !Discards(s, Elsewhere(e)))
            && (|Gone(s, Elsewhere(e))| == |Played(s, Elsewhere(e))| <==> !Discards(s, Elsewhere(e)))
  {
    hide Dev.Unread, Dac.Step, Enabled;
    var d := s.dev.d;
    EventEnabled(s, e);
    EventShrinks(d, e);
    EventTakes(d, e);
  }

  lemma DevValid(s: System)
    requires Channels(s)
    ensures s.dev.Valid()
  {
  }

  lemma EventEnabled(s: System, e: Event)
    requires Possible(s, Elsewhere(e))
    ensures Enabled(s.dev.d, e) && !e.Write?
  {
  }

  /** What an event at the device takes out of the ring. */
  lemma EventTakes(d: Dev, e: Event)
    requires Enabled(d, e) && !e.Write? && Dac.Step(d, e).Valid()
    ensures var left := Dac.Step(d, e).Unread();
            if e == Tick && d.produce != d.consume then d.Unread() == [d.ring[d.consume]] + left
            else if e == Prepare && MayPrepare(d) then left == []
            else left == d.Unread()
  {
    match e
    case Tick => IrqTakesOldest(d);
    case QueueRate(r) => RateQueueAppends(d, r);
    case PopRate => PopRateTakesOldest(d);
    case _ =>
  }

  // ---------- Whole runs ----------

  function AllGiven(actions: seq<Action>): seq<Entry> {
    if actions == [] then [] else Given(actions[0]) + AllGiven(actions[1..])
  }

  function AllEntered(s: System, actions: seq<Action>): seq<Entry>
    decreases |actions|
  {
    if actions == [] || !Possible(s, actions[0]) then []
    else Entered(s, actions[0]) + AllEntered(Act(s, actions[0]), actions[1..])
  }

  function AllGone(s: System, actions: seq<Action>): seq<Point>
    decreases |actions|
  {
    if actions == [] || !Possible(s, actions[0]) || !s.dev.Valid() then []
    else Gone(s, actions[0]) + AllGone(Act(s, actions[0]), actions[1..])
  }

  function AllPlayed(s: System, actions: seq<Action>): seq<Point>
    decreases |actions|
  {
    if actions == [] || !Possible(s, actions[0]) || !s.dev.Valid() then []
    else Played(s, actions[0]) + AllPlayed(Act(s, actions[0]), actions[1..])
  }

  predicate NeverDiscards(s: System, actions: seq<Action>)
    decreases |actions|
  {
    actions == [] ||
    (&& Possible(s, actions[0]) && s.dev.Valid() && !Discards(s, actions[0])
     && NeverDiscards(Act(s, actions[0]), actions[1..]))
  }

  /** What was given arrives in order: over every run the device has taken a first part
      of it, the rest is on the wire, and what entered its rings is that part with
      what was refused left out. The points left out are those counted as dropped. */
  lemma {:induction false} InOrder(s: System, actions: seq<Action>, t: System) returns (taken: seq<Entry>)
    requires Channels(s) && Runs(s, actions, t)
    ensures OnWire(s.down) + AllGiven(actions) == taken + OnWire(t.down)
    ensures Subsequence(AllEntered(s, actions), taken)
    ensures |PointsOf(taken)| - |PointsOf(AllEntered(s, actions))| == t.tally.dropped - s.tally.dropped
    decreases |actions|
  {
    hide Channels, Act, Possible, Entered, Given, OnWire, PointsOf, Subsequence;
    if actions == [] {
      taken := [];
      NothingEntered();
    } else {
      var a := actions[0];
      var u := Act(s, a);
      StepWire(s, a);
      ChannelsKept(s, a);
      var rest := InOrder(u, actions[1..], t);
      taken := Front(s, a, actions[1..], rest, OnWire(t.down));
    }
  }

  lemma NothingEntered()
    ensures Subsequence<Entry>([], []) && PointsOf([]) == []
  {
  }

  /** The part taken, one action earlier. */
  lemma Front(s: System, a: Action, later: seq<Action>, rest: seq<Entry>, left: seq<Entry>) returns (taken: seq<Entry>)
    requires Channels(s) && Possible(s, a)
    requires OnWire(Act(s, a).down) + AllGiven(later) == rest + left
    requires Subsequence(AllEntered(Act(s, a), later), rest)
    ensures OnWire(s.down) + (Given(a) + AllGiven(later)) == taken + left
    ensures Subsequence(Entered(s, a) + AllEntered(Act(s, a), later), taken)
    ensures |PointsOf(taken)| - |PointsOf(Entered(s, a) + AllEntered(Act(s, a), later))|
         == (|PointsOf(rest)| - |PointsOf(AllEntered(Act(s, a), later))|) + (Act(s, a).tally.dropped - s.tally.dropped)
  {
    hide Channels, Act, Possible, Entered, Given, OnWire, PointsOf, AllGiven, AllEntered;
    StepWire(s, a);
    var u, e := Act(s, a), Entered(s, a);
    var later', given := AllEntered(u, later), AllGiven(later);
    PointsConcat(e, later');
    if a.Receive? {
      var x := EntriesOf(s.down[0]);
      taken := x + rest;
      PointsConcat(x, rest);
      assert [] + given == given;
      ConcatAssociates(x, OnWire(u.down), given);
      ConcatAssociates(x, rest, left);
      FrontEnters(x, e, later', rest);
    } else {
      taken := rest;
      ConcatAssociates(OnWire(s.down), Given(a), given);
      assert [] + later' == later';
    }
  }

  lemma FrontEnters(x: seq<Entry>, e: seq<Entry>, later: seq<Entry>, rest: seq<Entry>)
    requires |x| <= 1 && (e == [] || e == x) && Subsequence(later, rest)
    ensures Subsequence(e + later, x + rest)
  {
    if x == [] {
      assert [] + later == later && [] + rest == rest;
    } else if e == x {
      assert x == [x[0]];
      SubsequenceBoth(x[0], later, rest);
    } else {
      assert x == [x[0]] && [] + later == later;
      SubsequenceOne(x[0], later, rest);
    }
  }

  /** The ring over a run. */
  lemma {:induction false} RingFlow(s: System, actions: seq<Action>, t: System)
    requires Channels(s) && Runs(s, actions, t)
    ensures s.dev.Valid() && t.dev.Valid()
    ensures s.dev.d.Unread() + PointsOf(AllEntered(s, actions)) == AllGone(s, actions) + t.dev.d.Unread()
    ensures |AllGone(s, actions)| >= |AllPlayed(s, actions)|
    ensures NeverDiscards(s, actions) <==> |AllGone(s, actions)| == |AllPlayed(s, actions)|
    ensures NeverDiscards(s, actions) ==> AllGone(s, actions) == AllPlayed(s, actions)
    decreases |actions|
  {
    DevValid(s);
    hide Channels, Act, Possible, Entered, Gone, Played, Discards, PointsOf, Dev.Unread;
    if actions == [] {
      NothingEntered();
      assert s.dev.d.Unread() + [] == [] + s.dev.d.Unread();
    } else {
      var a := actions[0];
      var u := Act(s, a);
      StepRing(s, a);
      ChannelsKept(s, a);
      RingFlow(u, actions[1..], t);
      var before, e, later := s.dev.d.Unread(), PointsOf(Entered(s, a)), PointsOf(AllEntered(u, actions[1..]));
      PointsConcat(Entered(s, a), AllEntered(u, actions[1..]));
      ConcatAssociates(before, e, later);
      ConcatAssociates(Gone(s, a), u.dev.d.Unread(), later);
      ConcatAssociates(Gone(s, a), AllGone(u, actions[1..]), t.dev.d.Unread());
    }
  }

  /** The points on their way from end to end. Over every run from a fresh connection:
      the points that entered the device's ring are among those given, in order; and
      what was in the ring followed by all that was given is what has been played,
      followed by what is in the ring and what is on the wire, if and only if no point
      was refused and no prepare found points in the ring. */
  lemma PointsArrive(s: System, actions: seq<Action>, t: System)
    requires Initial(s) && Runs(s, actions, t)
    ensures Subsequence(AllEntered(s, actions), AllGiven(actions))
    ensures s.dev.Valid() && t.dev.Valid()
    ensures s.dev.d.Unread() + PointsOf(AllGiven(actions))
            == AllPlayed(s, actions) + t.dev.d.Unread() + PointsOf(OnWire(t.down))
       <==> t.tally.dropped == s.tally.dropped && NeverDiscards(s, actions)
  {
    InitialInv(s);
    InitialWire(s);
    hide Initial, Inv, Dev.Unread, OnWire, Runs;
    var taken := InOrder(s, actions, t);
    RingFlow(s, actions, t);
    assert [] + AllGiven(actions) == AllGiven(actions);
    SubsequenceMore(AllEntered(s, actions), taken, OnWire(t.down));
    PointsConcat(taken, OnWire(t.down));
    SubsequencePoints(AllEntered(s, actions), taken);
    SubsequenceLength(PointsOf(AllEntered(s, actions)), PointsOf(taken));
    EndToEnd(s.dev.d.Unread(), PointsOf(AllEntered(s, actions)), PointsOf(taken), PointsOf(OnWire(t.down)),
             AllGone(s, actions), AllPlayed(s, actions), t.dev.d.Unread());
  }

  lemma InitialWire(s: System)
    requires Initial(s) && Inv(s)
    ensures OnWire(s.down) == [] && Channels(s)
  {
  }

  lemma {:induction false} SubsequenceMore<T>(a: seq<T>, b: seq<T>, c: seq<T>)
    requires Subsequence(a, b)
    ensures Subsequence(a, b + c)
    decreases |b|
  {
    if a != [] {
      assert (b + c)[1..] == b[1..] + c && (b + c)[0] == b[0];
      if a[0] == b[0] && Subsequence(a[1..], b[1..]) {
        SubsequenceMore(a[1..], b[1..], c);
      } else {
        SubsequenceMore(a, b[1..], c);
      }
    }
  }

  /** Counting: nothing may be missing anywhere for the two ends to agree. */
  lemma EndToEnd(before: seq<Point>, entered: seq<Point>, taken: seq<Point>, wire: seq<Point>,
                 gone: seq<Point>, played: seq<Point>, after: seq<Point>)
    requires before + entered == gone + after
    requires |entered| <= |taken| && (|entered| == |taken| ==> entered == taken)
    requires |played| <= |gone| && (|played| == |gone| ==> played == gone)
    ensures before + (taken + wire) == played + after + wire <==> |entered| == |taken| && |played| == |gone|
  {
    assert |before| + |entered| == |gone| + |after| by { assert |before + entered| == |gone + after|; }
    if |entered| == |taken| && |played| == |gone| {
      ConcatAssociates(before, taken, wire);
    } else {
      assert |before + (taken + wire)| > |played + after + wire|;
    }
  }
}
