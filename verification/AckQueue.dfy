/** The queue of unacknowledged data commands in driver/libetherdream/etherdream.c:
    a ring of 64 sizes with its running total. */
module AckQueue {
  import opened Words
  import Dac

  const MAX_LATE_ACKS: nat := 64

  /** The ring, its two indices and unacked_points. */
  datatype Acks = Acks(ring: seq<nat>, prod: nat, cons: nat, unacked: int) {
    predicate Valid() {
      |ring| == MAX_LATE_ACKS && prod < MAX_LATE_ACKS && cons < MAX_LATE_ACKS
    }

    function Queued(): seq<nat>
      requires Valid()
    {
      Dac.Contents(ring, cons, prod)
    }
  }

  /** The ring holds exactly the sizes owed, oldest first. */
  predicate Agrees(a: Acks, owed: seq<nat>) {
    a.Valid() && a.Queued() == owed && a.unacked == Sum(owed)
  }

  function Pushed(a: Acks, n: nat): (b: Acks)
    requires a.Valid()
    ensures b.Valid()
  {
    Acks(a.ring[a.prod := n], (a.prod + 1) % MAX_LATE_ACKS, a.cons, a.unacked + n)
  }

  function Popped(a: Acks): (b: Acks)
    requires a.Valid()
    ensures b.Valid()
  {
    if a.prod == a.cons then a else a.(unacked := a.unacked - a.ring[a.cons], cons := (a.cons + 1) % MAX_LATE_ACKS)
  }

  lemma Wraps(i: nat)
    requires i < MAX_LATE_ACKS
    ensures (i + 1) % MAX_LATE_ACKS == if i + 1 == MAX_LATE_ACKS then 0 else i + 1
  {
  }

  /** One more command outstanding is recorded rightly exactly when fewer than 64
      are then outstanding; the 64th makes the ring look empty. */
  lemma PushExact(a: Acks, owed: seq<nat>, n: nat)
    requires Agrees(a, owed)
    ensures |owed| < MAX_LATE_ACKS
    ensures Agrees(Pushed(a, n), owed + [n]) <==> |owed| + 1 < MAX_LATE_ACKS
    ensures |owed| + 1 == MAX_LATE_ACKS ==>
              Pushed(a, n).Queued() == [] && Pushed(a, n).unacked == Sum(owed + [n])
  {
    hide Dac.Contents;
    SumConcat(owed, [n]);
    assert Sum([n]) == n + Sum([]);
    PushedQueue(a, n);
  }

  lemma PushedQueue(a: Acks, n: nat)
    requires a.Valid()
    ensures |a.Queued()| < MAX_LATE_ACKS
    ensures Pushed(a, n).Queued() == if |a.Queued()| + 1 < MAX_LATE_ACKS then a.Queued() + [n] else []
  {
    Dac.FullnessIsLength(a.ring, a.cons, a.prod);
    Wraps(a.prod);
    if |a.Queued()| + 1 < MAX_LATE_ACKS {
      Dac.RingAppendsOne(a.ring, a.cons, a.prod, n);
    }
  }

  /** A data reply settles the oldest command. */
  lemma PopTakesOldest(a: Acks, owed: seq<nat>)
    requires Agrees(a, owed)
    ensures owed == [] <==> a.prod == a.cons
    ensures owed != [] ==> Agrees(Popped(a), owed[1..])
  {
    Dac.FullnessIsLength(a.ring, a.cons, a.prod);
    if a.prod != a.cons {
      Wraps(a.cons);
      Dac.RingTakes(a.ring, a.cons, a.prod);
    }
  }

  lemma PoppedQueue(a: Acks)
    requires a.Valid()
    ensures Popped(a).Valid() && (a.Queued() == [] <==> a.prod == a.cons)
    ensures a.Queued() != [] ==> |Popped(a).Queued()| == |a.Queued()| - 1
  {
    Dac.FullnessIsLength(a.ring, a.cons, a.prod);
    if a.prod != a.cons {
      Wraps(a.cons);
      Dac.RingTakes(a.ring, a.cons, a.prod);
    }
  }

  datatype Move = Send(n: nat) | Reply

  /** What is owed after the moves, in the order of sending; replies settle the
      oldest and come only while something is owed. */
  function Owed(owed: seq<nat>, moves: seq<Move>): seq<nat>
    decreases |moves|
  {
    if moves == [] then owed
    else match moves[0]
      case Send(n) => Owed(owed + [n], moves[1..])
      case Reply => Owed(if owed == [] then [] else owed[1..], moves[1..])
  }

  predicate Within(owed: seq<nat>, moves: seq<Move>)
    decreases |moves|
  {
    moves == [] || match moves[0]
      case Send(n) => |owed| + 1 < MAX_LATE_ACKS && Within(owed + [n], moves[1..])
      case Reply => owed != [] && Within(owed[1..], moves[1..])
  }

  function Moved(a: Acks, moves: seq<Move>): (b: Acks)
    requires a.Valid()
    ensures b.Valid()
    decreases |moves|
  {
    if moves == [] then a
    else Moved(match moves[0] case Send(n) => Pushed(a, n) case Reply => Popped(a), moves[1..])
  }

  /** Over any traffic with fewer than 64 data commands outstanding, the count of
      unacknowledged points is the sum of the sizes still owed, in order. */
  lemma {:induction false} AccountsHold(a: Acks, owed: seq<nat>, moves: seq<Move>)
    requires Agrees(a, owed) && Within(owed, moves)
    ensures Agrees(Moved(a, moves), Owed(owed, moves))
    decreases |moves|
  {
    if moves != [] {
      match moves[0] {
        case Send(n) =>
          PushExact(a, owed, n);
          AccountsHold(Pushed(a, n), owed + [n], moves[1..]);
        case Reply =>
          PopTakesOldest(a, owed);
          AccountsHold(Popped(a), owed[1..], moves[1..]);
      }
    }
  }

  class AckRing {
    const ring: array<nat>
    var prod: nat
    var cons: nat
    var unacked: int

    ghost predicate Valid()
      reads this
    {
      ring.Length == MAX_LATE_ACKS && prod < MAX_LATE_ACKS && cons < MAX_LATE_ACKS
    }

    ghost function Value(): Acks
      reads this, ring
    {
      Acks(ring[..], prod, cons, unacked)
    }

    constructor ()
      ensures Valid() && fresh(ring) && Agrees(Value(), [])
    {
      ring := new nat[MAX_LATE_ACKS](_ => 0);
      prod, cons, unacked := 0, 0, 0;
    }

    /** The end of dac_send_data. */
    method Push(n: nat)
      requires Valid()
      modifies this, ring
      ensures Valid() && Value() == Pushed(old(Value()), n)
      ensures var owed := old(Value()).Queued();
              Agrees(old(Value()), owed) ==> (Agrees(Value(), owed + [n]) <==> |owed| + 1 < MAX_LATE_ACKS)
    {
      ghost var owed := Value().Queued();
      if Agrees(Value(), owed) { PushExact(Value(), owed, n); }
      ring[prod] := n;
      prod := (prod + 1) % MAX_LATE_ACKS;
      unacked := unacked + n;
    }

    /** check_data_response for a data reply: fails when nothing is queued. */
    method Pop() returns (ok: bool)
      requires Valid()
      modifies this
      ensures Valid() && Value() == Popped(old(Value()))
      ensures var owed := old(Value()).Queued();
              Agrees(old(Value()), owed) ==> ok == (owed != []) && (ok ==> Agrees(Value(), owed[1..]))
    {
      hide Dac.Contents;
      ghost var owed := Value().Queued();
      if Agrees(Value(), owed) { PopTakesOldest(Value(), owed); }
      if prod == cons { return false; }
      unacked := unacked - ring[cons];
      cons := (cons + 1) % MAX_LATE_ACKS;
      ok := true;
    }
  }
}
