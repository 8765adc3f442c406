/** firmware/lib/skub.c with its exclusive loads and stores interleaved: any number
    of threads and interrupt handlers allocate and free sized chunks at the same
    time. */
module SkubRace {
  import opened Words
  import opened Skub

  /** Where a caller is in its pool: about to load word i, or holding the value v
      it loaded from it. */
  datatype Pc = Scanning(i: nat) | Loaded(i: nat, v: Bits)

  /** A call of skub_alloc_sz: which pool it tries, when it began, and when it found
      which words empty, each word by its pool and its place there. */
  datatype Caller = Caller(size: int, k: nat, at: Pc, since: nat, empty: map<(nat, nat), nat>)

  /** A call that returned nothing. */
  datatype Failure = Failure(size: int, since: nat, empty: map<(nat, nat), nat>)

  datatype System = System(
    pools: seq<Pool>, w: seq<Bits>,
    now: nat,                 // steps so far
    monitor: Option<nat>,     // whose exclusive access is open
    callers: map<nat, Caller>,
    live: seq<set<nat>>,      // for each pool, the chunks handed out and not freed
    all: seq<set<nat>>,       // for each pool, the chunks free at initialisation
    failures: seq<Failure>)

  datatype Step =
    | Begin(t: nat, size: int)
    | Load(t: nat)
    | Store(t: nat, lucky: bool) // a store may fail though nothing intervened
    | Release(k: nat, c: nat)    // one bit-band write
    | Elsewhere                  // anything else that runs

  /** The first pool from k on whose chunks are long enough, or their number. */
  function NextPool(pools: seq<Pool>, size: int, k: nat): (j: nat)
    requires k <= |pools|
    ensures k <= j <= |pools| && (j < |pools| ==> pools[j].size >= size)
    ensures forall i :: k <= i < j ==> pools[i].size < size
    decreases |pools| - k
  {
    if k == |pools| || pools[k].size >= size then k else NextPool(pools, size, k + 1)
  }

  predicate Shaped(s: System) {
    Layout(s.pools, |s.w|) && |s.live| == |s.all| == |s.pools|
  }

  /** Word i of pool k. */
  function WordAt(s: System, k: nat, i: nat): Bits
    requires Shaped(s) && k < |s.pools| && i < s.pools[k].Words()
  {
    WordOf(s.w, s.pools[k], i)
  }

  predicate InPlace(s: System, c: Caller) {
    c.k < |s.pools| && c.at.i < s.pools[c.k].Words()
  }

  predicate Possible(s: System, e: Step) {
    Shaped(s) &&
    match e
    case Begin(t, _) => t !in s.callers
    case Load(t) => t in s.callers && s.callers[t].at.Scanning? && InPlace(s, s.callers[t])
    case Store(t, _) =>
      t in s.callers && s.callers[t].at.Loaded? && InPlace(s, s.callers[t])
      && exists b :: b in s.callers[t].at.v && 0 <= b < WORD
    case Release(k, c) => k < |s.pools| && c in s.live[k] && c < s.pools[k].max && c / WORD < s.pools[k].Words()
    case Elsewhere => true
  }

  /** A call goes on with pool k or, when there is none left, fails. */
  function GoOn(s: System, t: nat, c: Caller): System
    requires c.k <= |s.pools|
  {
    if c.k < |s.pools| then s.(callers := s.callers[t := c])
    else s.(callers := s.callers - {t}, failures := s.failures + [Failure(c.size, c.since, c.empty)])
  }

  /** The word is empty: the next word of the pool, or the next pool. */
  function Passed(s: System, c: Caller): (d: Caller)
    requires Shaped(s) && InPlace(s, c)
    ensures d.k <= |s.pools|
  {
    var d := c.(empty := c.empty[(c.k, c.at.i) := s.now]);
    if c.at.i + 1 < s.pools[c.k].Words() then d.(at := Scanning(c.at.i + 1))
    else d.(k := NextPool(s.pools, c.size, c.k + 1), at := Scanning(0))
  }

  /** The chunk a successful store hands out. */
  function Handed(pc: Pc): nat
    requires pc.Loaded? && exists b :: b in pc.v && 0 <= b < WORD
  {
    WORD * pc.i + Lowest(pc.v, 0)
  }

  /** Whoever runs takes the monitor from the one before: the processor clears it
      on every exception entry and return. */
  function Act(s: System, e: Step): System
    requires Possible(s, e)
  {
    var s := s.(now := s.now + 1);
    match e
    case Begin(t, size) =>
      GoOn(s.(monitor := None), t, Caller(size, NextPool(s.pools, size, 0), Scanning(0), s.now, map[]))
    case Load(t) =>
      var c := s.callers[t];
      var v := WordAt(s, c.k, c.at.i);
      var u := s.(monitor := Some(t));
      if v != {} then u.(callers := s.callers[t := c.(at := Loaded(c.at.i, v))]) else GoOn(u, t, Passed(s, c))
    case Store(t, lucky) =>
      var c := s.callers[t];
      if lucky && s.monitor == Some(t) then
        s.(w := s.w[s.pools[c.k].first + c.at.i := c.at.v - {Lowest(c.at.v, 0)}],
           live := s.live[c.k := s.live[c.k] + {Handed(c.at)}],
           callers := s.callers - {t}, monitor := None)
      else s.(callers := s.callers[t := c.(at := Scanning(c.at.i))], monitor := None)
    case Release(k, c) =>
      var at := s.pools[k].first + c / WORD;
      s.(w := s.w[at := s.w[at] + {c % WORD}], live := s.live[k := s.live[k] - {c}], monitor := None)
    case Elsewhere => s.(monitor := None)
  }

  // ---------- What every step keeps ----------

  /** A call has found empty every word it is past, in every pool long enough. */
  predicate Covered(s: System, size: int, k: nat, i: nat, empty: map<(nat, nat), nat>)
    requires Shaped(s)
  {
    forall j, n ::
      (0 <= j < |s.pools| && s.pools[j].size >= size && 0 <= n < s.pools[j].Words() && (j < k || (j == k && n < i)))
      ==> (j, n) in empty
  }

  predicate CallerOk(s: System, t: nat)
    requires Shaped(s)
  {
    t in s.callers ==>
      var c := s.callers[t];
      && InPlace(s, c) && s.pools[c.k].size >= c.size && Covered(s, c.size, c.k, c.at.i, c.empty)
      && (c.at.Loaded? ==> c.at.v != {} && WordClean(s.pools[c.k], c.at.i, c.at.v)
                           && (s.monitor == Some(t) ==> c.at.v == WordAt(s, c.k, c.at.i)))
  }

  /** Every chunk of pool k is free or handed out. */
  predicate PoolOk(s: System, k: nat)
    requires Shaped(s) && k < |s.pools|
  {
    && Clean(s.w, s.pools[k]) && FreeIn(s.w, s.pools[k]) !! s.live[k]
    && FreeIn(s.w, s.pools[k]) + s.live[k] == s.all[k]
  }

  ghost predicate Inv(s: System) {
    && Shaped(s) && (forall k :: 0 <= k < |s.pools| ==> PoolOk(s, k)) && (forall t :: CallerOk(s, t))
    && forall n :: 0 <= n < |s.failures| ==> Covered(s, s.failures[n].size, |s.pools|, 0, s.failures[n].empty)
  }

  /** One bit of one pool has changed. */
  lemma OthersOk(s: System, u: System, k: nat, at: nat, x: Bits)
    requires Shaped(s) && Shaped(u) && k < |s.pools| && u.pools == s.pools && u.all == s.all
    requires s.pools[k].first <= at < s.pools[k].first + s.pools[k].Words()
    requires u.w == s.w[at := x] && forall j :: 0 <= j < |s.pools| && j != k ==> u.live[j] == s.live[j]
    requires forall j :: 0 <= j < |s.pools| ==> PoolOk(s, j)
    ensures forall j :: 0 <= j < |s.pools| && j != k ==> PoolOk(u, j)
  {
    hide FreeIn, Clean;
    forall j | 0 <= j < |s.pools| && j != k ensures PoolOk(u, j) {
      assert PoolOk(s, j) && u.live[j] == s.live[j];
      assert if j < k then Apart(s.pools[j], s.pools[k]) else Apart(s.pools[k], s.pools[j]);
      OthersKeep(s.w, s.pools[j], at, x);
    }
  }

  /** A store that succeeds hands out a chunk that was free. */
  lemma StoreKeeps(s: System, t: nat)
    requires Inv(s) && Possible(s, Store(t, true)) && s.monitor == Some(t)
    ensures var c := s.callers[t]; Handed(c.at) in FreeIn(s.w, s.pools[c.k]) && Handed(c.at) !in s.live[c.k]
    ensures Inv(Act(s, Store(t, true)))
  {
    hide FreeIn, Clean, Covered;
    assert CallerOk(s, t);
    var c := s.callers[t];
    var p, b := s.pools[c.k], Lowest(c.at.v, 0);
    assert PoolOk(s, c.k) && b in WordOf(s.w, p, c.at.i);
    ClearKeeps(s.w, p, c.at.i, b);
    var u := Act(s, Store(t, true));
    OthersOk(s, u, c.k, p.first + c.at.i, c.at.v - {b});
    CallersKept(s, u);
  }

  /** The monitor is closed, and no caller has moved on. */
  lemma CallersKept(s: System, u: System)
    requires Inv(s) && Shaped(u) && u.pools == s.pools && u.monitor == None && u.failures == s.failures
    requires forall t :: t in u.callers ==> t in s.callers && u.callers[t] == s.callers[t]
    ensures forall t :: CallerOk(u, t)
    ensures forall n :: 0 <= n < |u.failures| ==> Covered(u, u.failures[n].size, |u.pools|, 0, u.failures[n].empty)
  {
    forall t ensures CallerOk(u, t) {
      assert CallerOk(s, t);
    }
    forall n | 0 <= n < |u.failures| ensures Covered(u, u.failures[n].size, |u.pools|, 0, u.failures[n].empty) {
      assert Covered(s, s.failures[n].size, |s.pools|, 0, s.failures[n].empty);
    }
  }

  lemma ClearKeeps(w: seq<Bits>, p: Pool, i: nat, b: nat)
    requires p.first + p.Words() <= |w| && Clean(w, p) && i < p.Words() && b in WordOf(w, p, i)
    ensures var v, c := w[p.first + i := WordOf(w, p, i) - {b}], WORD * i + b;
            c in FreeIn(w, p) && FreeIn(v, p) == FreeIn(w, p) - {c} && Clean(v, p)
  {
    assert WordClean(p, i, WordOf(w, p, i));
    ChunkOfBit(i, b);
    BitChanges(w, p, WORD * i + b);
    var v := w[p.first + i := WordOf(w, p, i) - {b}];
    forall j | 0 <= j < p.Words() ensures WordClean(p, j, WordOf(v, p, j)) {
      assert WordClean(p, j, WordOf(w, p, j));
    }
  }

  lemma ReleaseKeeps(s: System, k: nat, c: nat)
    requires Inv(s) && Possible(s, Release(k, c))
    ensures Inv(Act(s, Release(k, c)))
  {
    hide FreeIn, Clean, Covered;
    var p := s.pools[k];
    assert PoolOk(s, k);
    BitChanges(s.w, p, c);
    FreeKeepsClean(s.w, p, c);
    var u := Act(s, Release(k, c));
    var at := p.first + c / WORD;
    OthersOk(s, u, k, at, s.w[at] + {c % WORD});
    CallersKept(s, u);
  }

  /** The memory is as it was, and one caller, if any, has moved. */
  lemma MovedKeeps(s: System, u: System, t: nat)
    requires Inv(s) && u.pools == s.pools && u.w == s.w && u.live == s.live && u.all == s.all
    requires u.failures == s.failures || (|u.failures| == |s.failures| + 1 && u.failures[..|s.failures|] == s.failures
               && Covered(s, u.failures[|s.failures|].size, |s.pools|, 0, u.failures[|s.failures|].empty))
    requires forall t' :: t' != t && t' in u.callers ==>
               t' in s.callers && u.callers[t'] == s.callers[t'] && u.monitor != Some(t')
    requires Shaped(u) && CallerOk(u, t)
    ensures Inv(u)
  {
    hide FreeIn, Clean;
    forall k | 0 <= k < |u.pools| ensures PoolOk(u, k) {
      assert PoolOk(s, k);
    }
    forall t' ensures CallerOk(u, t') {
      assert CallerOk(s, t');
    }
    forall n | 0 <= n < |u.failures| ensures Covered(u, u.failures[n].size, |u.pools|, 0, u.failures[n].empty) {
      if n < |s.failures| {
        assert u.failures[n] == s.failures[n];
        assert Covered(s, s.failures[n].size, |s.pools|, 0, s.failures[n].empty);
      }
    }
  }

  /** A word found empty is noted, and the call goes on behind it. */
  lemma PassedCovers(s: System, c: Caller)
    requires Shaped(s) && InPlace(s, c) && s.pools[c.k].size >= c.size && Covered(s, c.size, c.k, c.at.i, c.empty)
    ensures var d := Passed(s, c);
            Covered(s, d.size, d.k, if d.k < |s.pools| then d.at.i else 0, d.empty)
            && (d.k < |s.pools| ==> InPlace(s, d) && s.pools[d.k].size >= d.size)
  {
    var d := Passed(s, c);
    if d.k < |s.pools| { ChunkWord(s.pools[d.k], 0); }
  }

  lemma LoadKeeps(s: System, t: nat)
    requires Inv(s) && Possible(s, Load(t))
    ensures Inv(Act(s, Load(t)))
  {
    hide FreeIn, Clean, Covered;
    assert CallerOk(s, t);
    var c, u := s.callers[t], Act(s, Load(t));
    assert PoolOk(s, c.k);
    SameCovered(s, s.(now := s.now + 1));
    PassedCovers(s.(now := s.now + 1), c);
    WordsClean(s.w, s.pools[c.k], c.at.i);
    SameCovered(s, u);
    MovedKeeps(s, u, t);
  }

  lemma WordsClean(w: seq<Bits>, p: Pool, i: nat)
    requires p.first + p.Words() <= |w| && Clean(w, p) && i < p.Words()
    ensures WordClean(p, i, WordOf(w, p, i))
  {
  }

  lemma SameCovered(s: System, u: System)
    requires Shaped(s) && Shaped(u) && u.pools == s.pools
    ensures forall size, k, i, empty :: Covered(s, size, k, i, empty) <==> Covered(u, size, k, i, empty)
  {
  }

  lemma BeginKeeps(s: System, t: nat, size: int)
    requires Inv(s) && Possible(s, Begin(t, size))
    ensures Inv(Act(s, Begin(t, size)))
  {
    hide FreeIn, Clean;
    var u := Act(s, Begin(t, size));
    var k := NextPool(s.pools, size, 0);
    if k < |s.pools| { ChunkWord(s.pools[k], 0); }
    MovedKeeps(s, u, t);
  }

  lemma ActKeeps(s: System, e: Step)
    requires Inv(s) && Possible(s, e)
    ensures Inv(Act(s, e))
  {
    hide FreeIn, Clean, Covered;
    match e
    case Begin(t, size) => BeginKeeps(s, t, size);
    case Load(t) => LoadKeeps(s, t);
    case Release(k, c) => ReleaseKeeps(s, k, c);
    case Elsewhere => MovedKeeps(s, Act(s, e), 0) by { assert CallerOk(s, 0); SameCovered(s, Act(s, e)); }
    case Store(t, lucky) =>
      if lucky && s.monitor == Some(t) {
        StoreKeeps(s, t);
      } else {
        assert CallerOk(s, t);
        SameCovered(s, Act(s, e));
        MovedKeeps(s, Act(s, e), t);
      }
  }

  // ---------- Whole runs ----------

  /** States and the steps between them. */
  ghost predicate IsRun(states: seq<System>, steps: seq<Step>) {
    |states| == |steps| + 1
    && forall n :: 0 <= n < |steps| ==> Possible(states[n], steps[n]) && states[n + 1] == Act(states[n], steps[n])
  }

  /** Pools just initialised, with nobody in them. */
  predicate Initial(s: System) {
    && Shaped(s) && s.now == 0 && s.callers == map[] && s.failures == []
    && forall k :: 0 <= k < |s.pools| ==>
         Clean(s.w, s.pools[k]) && s.live[k] == {} && s.all[k] == FreeIn(s.w, s.pools[k])
  }

  lemma InitialKeeps(s: System)
    requires Initial(s)
    ensures Inv(s)
  {
    forall k | 0 <= k < |s.pools| ensures PoolOk(s, k) {
    }
  }

  /** The words a call found empty were empty then, at times since it began. */
  ghost predicate WereEmpty(states: seq<System>, since: nat, empty: map<(nat, nat), nat>) {
    forall e :: e in empty ==> since <= empty[e] < |states| && WasEmpty(states[empty[e]], e.0, e.1)
  }

  predicate WasEmpty(s: System, k: nat, i: nat) {
    Shaped(s) && k < |s.pools| && i < s.pools[k].Words() && WordAt(s, k, i) == {}
  }

  ghost predicate Timed(states: seq<System>)
    requires states != []
  {
    var s := states[|states| - 1];
    && s.now == |states| - 1
    && (forall t :: t in s.callers ==>
          s.callers[t].since <= s.now && WereEmpty(states, s.callers[t].since, s.callers[t].empty))
    && forall n :: 0 <= n < |s.failures| ==> WereEmpty(states, s.failures[n].since, s.failures[n].empty)
  }

  lemma EmptyLater(states: seq<System>, t: System, since: nat, empty: map<(nat, nat), nat>)
    requires WereEmpty(states, since, empty)
    ensures WereEmpty(states + [t], since, empty)
  {
    forall e | e in empty ensures since <= empty[e] < |states| + 1 && WasEmpty((states + [t])[empty[e]], e.0, e.1) {
      assert (states + [t])[empty[e]] == states[empty[e]];
    }
  }

  lemma ActTimed(states: seq<System>, e: Step)
    requires states != [] && Timed(states) && Inv(states[|states| - 1]) && Possible(states[|states| - 1], e)
    ensures Timed(states + [Act(states[|states| - 1], e)])
  {
    hide WasEmpty, WereEmpty, Inv;
    var s := states[|states| - 1];
    var u := Act(s, e);
    forall t | t in s.callers ensures WereEmpty(states + [u], s.callers[t].since, s.callers[t].empty) {
      EmptyLater(states, u, s.callers[t].since, s.callers[t].empty);
    }
    forall n | 0 <= n < |s.failures| ensures WereEmpty(states + [u], s.failures[n].since, s.failures[n].empty) {
      EmptyLater(states, u, s.failures[n].since, s.failures[n].empty);
    }
    if e.Load? {
      LoadTimed(states, e.t);
    } else if e.Begin? {
      NothingFound(states + [u], u.now);
    }
  }

  lemma NothingFound(states: seq<System>, since: nat)
    ensures WereEmpty(states, since, map[])
  {
  }

  lemma LoadTimed(states: seq<System>, t: nat)
    requires states != [] && Timed(states) && Possible(states[|states| - 1], Load(t))
    ensures var s := states[|states| - 1];
            var c := s.callers[t];
            WordAt(s, c.k, c.at.i) == {} ==>
              WereEmpty(states + [Act(s, Load(t))], c.since, Passed(s.(now := s.now + 1), c).empty)
  {
    var s := states[|states| - 1];
    var c, u := s.callers[t], Act(s, Load(t));
    EmptyLater(states, u, c.since, c.empty);
    if WordAt(s, c.k, c.at.i) == {} {
      assert WasEmpty(u, c.k, c.at.i);
      hide Act, Possible, WasEmpty;
      EmptyNow(states + [u], c.since, c.empty, c.k, c.at.i);
    }
  }

  lemma EmptyNow(states: seq<System>, since: nat, empty: map<(nat, nat), nat>, k: nat, i: nat)
    requires states != [] && WereEmpty(states, since, empty) && since < |states|
    requires WasEmpty(states[|states| - 1], k, i)
    ensures WereEmpty(states, since, empty[(k, i) := |states| - 1])
  {
  }

  lemma {:induction false} RunKeeps(states: seq<System>, steps: seq<Step>)
    requires IsRun(states, steps) && Initial(states[0])
    ensures Inv(states[|steps|]) && Timed(states)
    ensures states[|steps|].pools == states[0].pools && states[|steps|].all == states[0].all
    ensures |states[|steps|].w| == |states[0].w|
    decreases |steps|
  {
    hide Inv, Timed, Act, Possible, PoolOk;
    if steps == [] {
      InitialKeeps(states[0]);
      InitialTimed(states);
    } else {
      var m := |steps| - 1;
      assert IsRun(states[..m + 1], steps[..m]);
      RunKeeps(states[..m + 1], steps[..m]);
      assert states == states[..m + 1] + [Act(states[m], steps[m])];
      ActKeeps(states[m], steps[m]);
      ActTimed(states[..m + 1], steps[m]);
      ActFrame(states[m], steps[m]);
    }
  }

  lemma InitialTimed(states: seq<System>)
    requires |states| == 1 && Initial(states[0])
    ensures Timed(states)
  {
  }

  lemma ActFrame(s: System, e: Step)
    requires Possible(s, e)
    ensures Act(s, e).pools == s.pools && Act(s, e).all == s.all && |Act(s, e).w| == |s.w|
  {
  }

  /** Over every interleaving: each chunk is free or handed out to one owner, never
      both and never neither; their number is that of the pool; a store that
      succeeds hands out a chunk nobody has. */
  lemma NoChunkTwice(states: seq<System>, steps: seq<Step>, k: nat)
    requires IsRun(states, steps) && Initial(states[0]) && k < |states[0].pools|
    ensures var s, t := states[0], states[|steps|];
            && Shaped(t) && t.pools == s.pools && t.live[k] <= FreeIn(s.w, s.pools[k])
            && FreeIn(t.w, t.pools[k]) == FreeIn(s.w, s.pools[k]) - t.live[k]
            && |FreeIn(t.w, t.pools[k])| + |t.live[k]| == |FreeIn(s.w, s.pools[k])|
            && forall u :: Possible(t, Store(u, true)) && t.monitor == Some(u) ==>
                 Handed(t.callers[u].at) in FreeIn(t.w, t.pools[t.callers[u].k]) - t.live[t.callers[u].k]
  {
    hide FreeIn, Clean, Covered;
    RunKeeps(states, steps);
    var s, t := states[0], states[|steps|];
    assert PoolOk(t, k);
    forall u | Possible(t, Store(u, true)) && t.monitor == Some(u)
      ensures Handed(t.callers[u].at) in FreeIn(t.w, t.pools[t.callers[u].k]) - t.live[t.callers[u].k]
    {
      StoreKeeps(t, u);
    }
  }

  /** Over every interleaving: a call that returns nothing has, since it began,
      found every word of every pool whose chunks are long enough empty. */
  lemma FailedCallSawEmpty(states: seq<System>, steps: seq<Step>, n: nat, j: nat, i: nat)
    requires IsRun(states, steps) && Initial(states[0]) && n < |states[|steps|].failures|
    requires var f := states[|steps|].failures[n];
             j < |states[0].pools| && states[0].pools[j].size >= f.size && i < states[0].pools[j].Words()
    ensures var f := states[|steps|].failures[n];
            (j, i) in f.empty && f.since <= f.empty[(j, i)] <= |steps| && WasEmpty(states[f.empty[(j, i)]], j, i)
  {
    RunKeeps(states, steps);
    var t := states[|steps|];
    assert Covered(t, t.failures[n].size, |t.pools|, 0, t.failures[n].empty);
    assert WereEmpty(states, t.failures[n].since, t.failures[n].empty);
    var e := (j, i);
    assert e in t.failures[n].empty && WasEmpty(states[t.failures[n].empty[e]], e.0, e.1);
  }

  // ---------- When a failure means exhaustion ----------

  /** Every pool whose chunks are long enough is exhausted. */
  predicate Exhausted(s: System, size: int)
    requires Shaped(s)
  {
    forall j :: 0 <= j < |s.pools| && s.pools[j].size >= size ==> FreeIn(s.w, s.pools[j]) == {}
  }

  lemma FreeByWords(w: seq<Bits>, p: Pool)
    requires p.first + p.Words() <= |w| && Clean(w, p)
    ensures FreeIn(w, p) == {} <==> forall i :: 0 <= i < p.Words() ==> WordOf(w, p, i) == {}
  {
    if forall i :: 0 <= i < p.Words() ==> WordOf(w, p, i) == {} {
      NoneFree(w, p);
    } else {
      var i: nat :| i < p.Words() && WordOf(w, p, i) != {};
      var b: nat :| b in WordOf(w, p, i);
      assert WordClean(p, i, WordOf(w, p, i));
      ChunkOfBit(i, b);
      assert IsFree(w, p, WORD * i + b) && WORD * i + b in FreeIn(w, p);
    }
  }

  /** The last word of the last pool that is long enough. */
  predicate AtLastWord(s: System, c: Caller)
    requires Shaped(s) && InPlace(s, c)
  {
    c.at.i + 1 == s.pools[c.k].Words() && NextPool(s.pools, c.size, c.k + 1) == |s.pools|
  }

  /** A load ends a call with nothing exactly when it finds the last word empty. */
  lemma FailsExactly(s: System, t: nat)
    requires Inv(s) && Possible(s, Load(t))
    ensures var c, u := s.callers[t], Act(s, Load(t));
            |u.failures| == |s.failures| + 1 <==> AtLastWord(s, c) && WordAt(s, c.k, c.at.i) == {}
  {
    assert CallerOk(s, t);
  }

  /** For the pools that have one word, as both sized pools do: in the last one that
      is long enough the call fails exactly when that pool is exhausted. */
  lemma OneWordFailsExactly(s: System, t: nat)
    requires Inv(s) && Possible(s, Load(t)) && AtLastWord(s, s.callers[t]) && s.pools[s.callers[t].k].Words() == 1
    ensures |Act(s, Load(t)).failures| == |s.failures| + 1 <==> FreeIn(s.w, s.pools[s.callers[t].k]) == {}
  {
    hide FreeIn, Clean;
    var k := s.callers[t].k;
    assert PoolOk(s, k);
    FreeByWords(s.w, s.pools[k]);
    FailsExactly(s, t);
  }

  /** With more than one word to look at, a chunk freed behind the call goes
      unseen: the call fails although a long enough chunk is free. */
  lemma FreedTooLate(s: System, t: nat, x: nat)
    requires Inv(s) && Possible(s, Load(t))
    requires var c := s.callers[t];
             && WordAt(s, c.k, c.at.i) == {} && Possible(s, Release(c.k, x)) && x / WORD == c.at.i
             && var d := Passed(s, c);
                d.k < |s.pools| && InPlace(s, d) && AtLastWord(s, d) && WordAt(s, d.k, d.at.i) == {}
    ensures var c, u := s.callers[t], Act(s, Load(t));
            && Possible(u, Release(c.k, x)) && Possible(Act(u, Release(c.k, x)), Load(t))
            && var v := Act(Act(u, Release(c.k, x)), Load(t));
               && |v.failures| == |s.failures| + 1 && v.failures[|s.failures|].size == c.size
               && s.pools[c.k].size >= c.size && x in FreeIn(v.w, s.pools[c.k])
  {
    hide Clean, Covered, FreeIn, NextPool;
    assert CallerOk(s, t);
    var c, d := s.callers[t], Passed(s, s.callers[t]);
    BitChanges(s.w, s.pools[c.k], x);
    WordsApart(s, c, d);
    var u := Act(s, Load(t));
    assert u.callers[t] == d.(empty := u.callers[t].empty);
    var r := Act(u, Release(c.k, x));
    assert WordAt(r, d.k, d.at.i) == {};
  }

  /** The words a call looks at one after the other are not the same. */
  lemma WordsApart(s: System, c: Caller, d: Caller)
    requires Shaped(s) && InPlace(s, c) && d == Passed(s, c) && InPlace(s, d)
    ensures s.pools[c.k].first + c.at.i != s.pools[d.k].first + d.at.i
  {
    assert d.k != c.k ==> Apart(s.pools[c.k], s.pools[d.k]);
  }

  /** Only its release makes a chunk free. */
  lemma FreedByRelease(s: System, e: Step, j: nat, x: nat)
    requires Inv(s) && Possible(s, e) && j < |s.pools|
    requires x !in FreeIn(s.w, s.pools[j]) && x in FreeIn(Act(s, e).w, s.pools[j])
    ensures e == Release(j, x)
  {
    hide FreeIn, Clean, Covered;
    ActKeeps(s, e);
    assert PoolOk(s, j) && PoolOk(Act(s, e), j);
    assert x in s.all[j] && x in s.live[j] && x !in Act(s, e).live[j];
  }

  lemma RunKeepsAt(states: seq<System>, steps: seq<Step>, n: nat)
    requires IsRun(states, steps) && Initial(states[0]) && n <= |steps|
    ensures Inv(states[n]) && states[n].pools == states[0].pools
    ensures n < |steps| ==> Possible(states[n], steps[n]) && states[n + 1] == Act(states[n], steps[n])
  {
    hide Inv, Act, Possible, Initial, Timed;
    assert IsRun(states[..n + 1], steps[..n]);
    RunKeeps(states[..n + 1], steps[..n]);
  }

  lemma InvShaped(s: System)
    requires Inv(s)
    ensures Shaped(s)
  {
  }

  lemma {:induction false} FreedBetween(states: seq<System>, steps: seq<Step>, from: nat, to: nat, j: nat, x: nat)
    returns (m: nat)
    requires IsRun(states, steps) && Initial(states[0]) && from <= to <= |steps| && j < |states[0].pools|
    requires Shaped(states[from]) && Shaped(states[to])
    requires states[from].pools == states[0].pools == states[to].pools
    requires x !in FreeIn(states[from].w, states[0].pools[j]) && x in FreeIn(states[to].w, states[0].pools[j])
    ensures from <= m < to && steps[m] == Release(j, x)
    decreases |steps| - from
  {
    hide FreeIn, Inv, Timed, Act, Possible, Initial;
    assert from < to;
    RunKeepsAt(states, steps, from);
    ActFrame(states[from], steps[from]);
    ActKeeps(states[from], steps[from]);
    InvShaped(states[from + 1]);
    if x in FreeIn(states[from + 1].w, states[0].pools[j]) {
      FreedByRelease(states[from], steps[from], j, x);
      m := from;
    } else {
      m := FreedBetween(states, steps, from + 1, to, j, x);
    }
  }

  /** A long enough chunk is free although the call n returned nothing: it was freed
      after the call had found its word empty. */
  predicate FreedBehind(s: System, steps: seq<Step>, n: nat, j: nat, x: nat, m: nat)
    requires Shaped(s) && n < |s.failures|
  {
    && j < |s.pools| && s.pools[j].size >= s.failures[n].size && x in FreeIn(s.w, s.pools[j])
    && (j, x / WORD) in s.failures[n].empty && s.failures[n].empty[(j, x / WORD)] <= m < |steps|
    && steps[m] == Release(j, x)
  }

  /** Exactly which frees make a failure wrong: a call has returned nothing although
      some long enough chunk is free if and only if such a chunk was freed after the
      call had passed its word. */
  lemma FailureWrongExactly(states: seq<System>, steps: seq<Step>, n: nat)
    requires IsRun(states, steps) && Initial(states[0]) && n < |states[|steps|].failures|
    ensures Shaped(states[|steps|])
    ensures !Exhausted(states[|steps|], states[|steps|].failures[n].size)
       <==> exists j, x, m :: FreedBehind(states[|steps|], steps, n, j, x, m)
  {
    hide FreeIn, Clean, Covered, WereEmpty;
    RunKeeps(states, steps);
    var t := states[|steps|];
    var f := t.failures[n];
    if !Exhausted(t, f.size) {
      var j: nat :| j < |t.pools| && t.pools[j].size >= f.size && FreeIn(t.w, t.pools[j]) != {};
      var x: nat := FreeChunk(t.w, t.pools[j]);
      ChunkWord(t.pools[j], x);
      FailedCallSawEmpty(states, steps, n, j, x / WORD);
      var at := f.empty[(j, x / WORD)];
      RunKeepsAt(states, steps, at);
      NotFreeIn(states[at], j, x);
      var m := FreedBetween(states, steps, at, |steps|, j, x);
      assert FreedBehind(t, steps, n, j, x, m);
    }
  }

  lemma FreeChunk(w: seq<Bits>, p: Pool) returns (x: nat)
    requires p.first + p.Words() <= |w| && FreeIn(w, p) != {}
    ensures x in FreeIn(w, p) && x < p.max
  {
    x :| x in FreeIn(w, p);
  }

  lemma NotFreeIn(s: System, j: nat, x: nat)
    requires WasEmpty(s, j, x / WORD) && x < s.pools[j].max
    ensures x !in FreeIn(s.w, s.pools[j])
  {
  }

  /** If no chunk is freed from the beginning of a call to its end, it fails only
      when every pool whose chunks are long enough is exhausted. */
  lemma UndisturbedFailure(states: seq<System>, steps: seq<Step>, n: nat)
    requires IsRun(states, steps) && Initial(states[0]) && n < |states[|steps|].failures|
    requires forall m :: states[|steps|].failures[n].since <= m < |steps| ==> !steps[m].Release?
    ensures Shaped(states[|steps|]) && Exhausted(states[|steps|], states[|steps|].failures[n].size)
  {
    hide FreeIn, Covered, WasEmpty;
    RunKeeps(states, steps);
    FailureWrongExactly(states, steps, n);
    var f := states[|steps|].failures[n];
    assert WereEmpty(states, f.since, f.empty);
  }

  // ---------- A wrong failure, from the beginning ----------

  /** Two pools of one chunk each. */
  const TINY: seq<Pool> := [Pool(0, 0, 1, 8), Pool(8, 1, 1, 16)]

  const FIRST: System := System(TINY, [{0}, {0}], 0, None, map[], [{}, {}], [{0}, {0}], [])

  /** One call takes the first chunk, another the second; a third finds the first
      pool empty, the first chunk comes back, and the third fails. */
  const WRONG: seq<Step> := [Begin(1, 4), Load(1), Store(1, true), Begin(2, 12), Load(2), Store(2, true),
                             Begin(3, 4), Load(3), Release(0, 0), Load(3)]

  const TAKEN_ONE := FIRST.(now := 3, w := [{}, {0}], live := [{0}, {}])
  const TAKEN_BOTH := FIRST.(now := 6, w := [{}, {}], live := [{0}, {0}])

  lemma TinyPools()
    ensures Layout(TINY, 2) && TINY[0].Words() == 1 && TINY[1].Words() == 1
    ensures NextPool(TINY, 4, 0) == 0 && NextPool(TINY, 4, 1) == 1 && NextPool(TINY, 4, 2) == 2
    ensures NextPool(TINY, 12, 0) == 1
    ensures Lowest({0}, 0) == 0
  {
    assert NextPool(TINY, 12, 1) == 1;
  }

  /** A call that takes the only chunk of its pool. */
  lemma TakesFirst() returns (a: System, b: System)
    ensures Possible(FIRST, Begin(1, 4)) && a == Act(FIRST, Begin(1, 4))
    ensures Possible(a, Load(1)) && b == Act(a, Load(1))
    ensures Possible(b, Store(1, true)) && Act(b, Store(1, true)) == TAKEN_ONE
  {
    TinyPools();
    hide NextPool, Layout, Lowest;
    var c := Caller(4, 0, Scanning(0), 1, map[]);
    a := FIRST.(now := 1, callers := map[1 := c]);
    assert Act(FIRST, Begin(1, 4)) == a;
    b := a.(now := 2, monitor := Some(1), callers := map[1 := c.(at := Loaded(0, {0}))]);
    assert Act(a, Load(1)) == b;
    assert 0 in b.callers[1].at.v && Handed(b.callers[1].at) == 0;
    assert {0} - {0} == {} && {} + {0} == {0} && b.callers - {1} == map[];
  }

  lemma TakesSecond() returns (a: System, b: System)
    ensures Possible(TAKEN_ONE, Begin(2, 12)) && a == Act(TAKEN_ONE, Begin(2, 12))
    ensures Possible(a, Load(2)) && b == Act(a, Load(2))
    ensures Possible(b, Store(2, true)) && Act(b, Store(2, true)) == TAKEN_BOTH
  {
    TinyPools();
    hide NextPool, Layout, Lowest;
    var c := Caller(12, 1, Scanning(0), 4, map[]);
    a := TAKEN_ONE.(now := 4, callers := map[2 := c]);
    assert Act(TAKEN_ONE, Begin(2, 12)) == a;
    b := a.(now := 5, monitor := Some(2), callers := map[2 := c.(at := Loaded(0, {0}))]);
    assert Act(a, Load(2)) == b;
    assert 0 in b.callers[2].at.v && Handed(b.callers[2].at) == 0;
    assert {0} - {0} == {} && {} + {0} == {0} && b.callers - {2} == map[];
  }

  lemma Misses() returns (a: System, b: System, c: System, d: System)
    ensures Possible(TAKEN_BOTH, Begin(3, 4)) && a == Act(TAKEN_BOTH, Begin(3, 4))
    ensures Possible(a, Load(3)) && b == Act(a, Load(3))
    ensures Possible(b, Release(0, 0)) && c == Act(b, Release(0, 0))
    ensures Possible(c, Load(3)) && d == Act(c, Load(3))
    ensures d.pools == TINY && d.w == [{0}, {}] && |d.failures| == 1 && d.failures[0].size == 4
  {
    TinyPools();
    hide NextPool, Layout, Lowest;
    var e := Caller(4, 0, Scanning(0), 7, map[]);
    a := TAKEN_BOTH.(now := 7, callers := map[3 := e]);
    assert Act(TAKEN_BOTH, Begin(3, 4)) == a;
    b := a.(now := 8, monitor := Some(3), callers := map[3 := Caller(4, 1, Scanning(0), 7, map[(0, 0) := 8])]);
    assert Act(a, Load(3)) == b;
    c := b.(now := 9, monitor := None, w := [{0}, {}], live := [{}, {0}]);
    assert {0} - {0} == {} && {} + {0} == {0};
    assert Act(b, Release(0, 0)) == c;
    d := Act(c, Load(3));
  }

  lemma WrongFailure() returns (states: seq<System>)
    ensures Initial(FIRST) && IsRun(states, WRONG) && states[0] == FIRST
    ensures |states[10].failures| == 1 && states[10].failures[0].size == 4
    ensures states[10].pools == TINY && 2 == |states[10].w| && 0 in FreeIn(states[10].w, TINY[0]) && TINY[0].size >= 4
  {
    hide Act, Possible;
    var s1, s2 := TakesFirst();
    var s4, s5 := TakesSecond();
    var s7, s8, s9, s10 := Misses();
    states := [FIRST, s1, s2, TAKEN_ONE, s4, s5, TAKEN_BOTH, s7, s8, s9, s10];
    TinyFree(s10.w);
    FirstIsInitial();
  }

  lemma TinyFree(w: seq<Bits>)
    requires w == [{0}, {}]
    ensures 0 in FreeIn(w, TINY[0])
  {
    assert IsFree(w, TINY[0], 0);
  }

  lemma FirstIsInitial()
    ensures Initial(FIRST)
  {
    TinyPools();
    forall k | 0 <= k < 2 ensures Clean(FIRST.w, TINY[k]) && FIRST.all[k] == FreeIn(FIRST.w, TINY[k]) {
      forall c | 0 <= c < TINY[k].max ensures IsFree(FIRST.w, TINY[k], c) <==> c in {0} {
      }
    }
  }
}
