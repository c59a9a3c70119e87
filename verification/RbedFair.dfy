/** Best-effort runs: the run queue is a strict FIFO. */
module RbedFair {
  import opened Wrappers
  import opened Rbed
  import opened RbedRuns

  /** Only best-effort tasks, none released in the future, one entry a task. */
  ghost predicate FairQueue(q: Queue, clock: nat) {
    && (forall t :: t in q ==> t.typ.BestEffort? && t.release <= clock)
    && (forall i, j :: 0 <= i < j < |q| ==> q[i].id != q[j].id)
  }

  /** A task released no earlier than everything queued goes to the tail. */
  lemma InsertAtTail(q: Queue, t: Task, clock: nat)
    requires FairQueue(q, clock) && t.typ.BestEffort? && clock <= t.release
    ensures Insert(q, t) == q + [t]
  {
    assert q[..|q|] == q;
  }

  lemma AppendFair(q: Queue, t: Task, clock: nat, now: nat)
    requires FairQueue(q, clock) && clock <= now && t.typ.BestEffort? && t.release == now
    requires forall u :: u in q ==> u.id != t.id
    ensures FairQueue(q + [t], now)
  {
    forall i, j | 0 <= i < j < |q + [t]| ensures (q + [t])[i].id != (q + [t])[j].id {
      assert q[i] in q;
    }
  }

  lemma DropFair(q: Queue, k: nat, clock: nat)
    requires FairQueue(q, clock) && k < |q|
    ensures FairQueue(Drop(q, k), clock)
    ensures forall u :: u in Drop(q, k) ==> u.id != q[k].id
  {
    var r := Drop(q, k);
    forall i | 0 <= i < |r| ensures r[i] == q[if i < k then i else i + 1] {}
    DropMembers(q, k);
  }

  /** Where a task stands after another one left its place. */
  lemma PositionIs(q: Queue, clock: nat, id: nat, k: nat)
    requires FairQueue(q, clock) && k < |q| && q[k].id == id
    ensures Position(q, id) == k
  {}

  lemma DropMovesUp(q: Queue, k: nat, clock: nat, x: nat)
    requires FairQueue(q, clock) && k < |q| && q[k].id != x && Queued(q, x)
    ensures Position(Drop(q, k), x) == if k < Position(q, x) then Position(q, x) - 1 else Position(q, x)
    ensures Queued(Drop(q, k), x)
  {
    var p := Position(q, x);
    var r := Drop(q, k);
    DropFair(q, k, clock);
    var p' := if k < p then p - 1 else p;
    assert r[p'] == q[p];
    PositionIs(r, clock, x, p');
  }

  lemma AppendKeepsPosition(q: Queue, t: Task, x: nat)
    requires Queued(q, x)
    ensures Position(q + [t], x) == Position(q, x) && Queued(q + [t], x)
  {
    var p := Position(q, x);
    var p' := Position(q + [t], x);
    assert (q + [t])[p] == q[p];
    assert p' <= p;
    assert (q + [t])[p'] == q[p'];
  }

  /** A task that moves to the tail: everyone behind it moves up by one. */
  lemma MoveToTail(q: Queue, k: nat, t: Task, clock: nat, now: nat)
    requires FairQueue(q, clock) && clock <= now && k < |q| && t.typ.BestEffort? && t.release == now && t.id == q[k].id
    ensures Insert(Drop(q, k), t) == Drop(q, k) + [t] && FairQueue(Drop(q, k) + [t], now)
    ensures forall x :: x != t.id && Queued(q, x) ==>
      Queued(Drop(q, k) + [t], x) &&
      Position(Drop(q, k) + [t], x) == if k < Position(q, x) then Position(q, x) - 1 else Position(q, x)
  {
    hide FairQueue;
    DropFair(q, k, clock);
    InsertAtTail(Drop(q, k), t, clock);
    AppendFair(Drop(q, k), t, clock, now);
    forall x | x != t.id && Queued(q, x)
      ensures Queued(Drop(q, k) + [t], x) &&
              Position(Drop(q, k) + [t], x) == if k < Position(q, x) then Position(q, x) - 1 else Position(q, x)
    {
      DropMovesUp(q, k, clock, x);
      AppendKeepsPosition(Drop(q, k), t, x);
    }
  }

  /** Fields other than the type, the identity and the release do not matter. */
  lemma UpdateFair(q: Queue, k: nat, t: Task, clock: nat)
    requires FairQueue(q, clock) && k < |q| && t.id == q[k].id && t.typ == q[k].typ && t.release <= clock
    ensures FairQueue(q[k := t], clock)
    ensures forall x :: Position(q[k := t], x) == Position(q, x)
  {
    assert q[k] in q;
    forall x ensures Position(q[k := t], x) == Position(q, x) {
      SamePositions(q, q[k := t], x);
    }
  }

  lemma {:induction false} SamePositions(q: Queue, q': Queue, x: nat)
    requires |q| == |q'| && forall i :: 0 <= i < |q| ==> q[i].id == q'[i].id
    ensures Position(q, x) == Position(q', x)
  {
    if q != [] { SamePositions(q[1..], q'[1..], x); }
  }

  lemma FairLater(q: Queue, clock: nat, now: nat)
    requires FairQueue(q, clock) && clock <= now
    ensures FairQueue(q, now)
  {}

  lemma AccountFair(q: Queue, last: Option<nat>, clock: nat, now: nat)
    requires FairQueue(q, clock) && clock <= now
    ensures FairQueue(Account(q, last, now), now)
    ensures forall x :: Position(Account(q, last, now), x) == Position(q, x)
  {
    hide FairQueue;
    FairLater(q, clock, now);
    if last.Some? && Queued(q, last.value) {
      var k := Position(q, last.value);
      assert q[k].release <= clock by { Head(q, k, clock); }
      UpdateFair(q, k, q[k].(etime := Account(q, last, now)[k].etime), now);
    }
  }

  lemma Head(q: Queue, k: nat, clock: nat)
    requires FairQueue(q, clock) && k < |q|
    ensures q[k].typ.BestEffort? && q[k].release <= clock
  {
    assert q[k] in q;
  }

  /** schedule takes tasks from the head only; whoever it does not find exhausted
      moves up by exactly one place for each one it does. */
  lemma {:induction false} PickFair(q: Queue, now: nat, timeslice: nat)
    requires FairQueue(q, now) && BudgetsPositive(q, timeslice)
    ensures var r := Pick(q, now, timeslice);
      r.Picked? ==>
        && FairQueue(r.queue, now)
        && (forall x :: Queued(q, x) && x !in r.exhausted ==>
              Queued(r.queue, x) && Position(r.queue, x) + |r.exhausted| == Position(q, x))
        && r.choice == (if r.queue == [] then None else Some(r.queue[0].id))
    decreases Busy(q)
  {
    hide FairQueue;
    hide BudgetsPositive;
    hide UHrt;
    hide WBe;
    hide NBe;
    hide Budget;
    hide Share;
    if q != [] {
      Head(q, 0, now);
      assert FirstReleased(q, now) == 0;
      var t := Prepared(q, q[0], now, timeslice);
      var p := OnePass(q, now, timeslice);
      if p.Run? {
        UpdateFair(q, 0, t.(lastDispatch := now), now);
      } else if p.Again? {
        AgainGoesOn(q, now, timeslice);
        MoveToTail(q, 0, Recharged(t, now), now, now);
        PickFair(p.queue, now, timeslice);
        var r := Pick(p.queue, now, timeslice);
        if r.Picked? {
          forall x | Queued(q, x) && x != q[0].id && x !in r.exhausted
            ensures Queued(r.queue, x) && Position(r.queue, x) + |r.exhausted| + 1 == Position(q, x)
          {
            assert Position(q, x) > 0;
          }
        }
      }
    }
  }

  ghost predicate BestEffortOp(op: Op) { op.Make? || op.Properties? ==> op.t.typ.BestEffort? }

  /** The operation takes the task `x` out of its place. */
  predicate Touches(op: Op, x: nat) {
    match op
    case Make(_, _) => false
    case Leave(id) => id == x
    case Properties(t, _) => t.id == x
    case YieldOp(id, _) => id == x
    case HurryOp(_, _) => false
    case ScheduleOp(_) => false
  }

  /** The operation itself ends a turn in front of `x`: a task there yields, leaves, or
      gets new properties. */
  function EndsTurn(q: Queue, op: Op, x: nat): nat {
    var y := match op
      case Leave(id) => Position(q, id)
      case Properties(t, _) => Position(q, t.id)
      case YieldOp(id, _) => Position(q, id)
      case _ => |q|;
    if y < Position(q, x) then 1 else 0
  }

  /** One step: a waiting task that neither yields nor leaves nor is found exhausted
      stays queued, and moves up by exactly one place for each turn that ends in front
      of it. */
  lemma StepFair(s: Sched, op: Op, timeslice: nat)
    requires FairQueue(s.q, s.clock) && BestEffortOp(op) && s.clock <= TimeOf(op, s.clock)
    requires op.ScheduleOp? ==> BudgetsPositive(Account(s.q, s.last, op.now), timeslice)
    ensures var r := Step(s, op, timeslice);
      r.Next? ==>
        && FairQueue(r.s.q, r.s.clock)
        && r.s.clock == TimeOf(op, s.clock)
        && (forall x :: Queued(s.q, x) && !Touches(op, x) && x !in r.exhausted ==>
              Queued(r.s.q, x) && Position(r.s.q, x) + EndsTurn(s.q, op, x) + |r.exhausted| == Position(s.q, x))
  {
    hide FairQueue;
    hide BudgetsPositive;
    hide MakeRunnable;
    hide Remove;
    hide YieldTask;
    hide Hurry;
    hide Account;
    hide Pick;
    hide Position;
    match op
    case Make(t, now) => MakeFair(s, t, now, timeslice);
    case Leave(id) =>
      RemovedClock(s, id);
      LeaveFair(s, id);
    case Properties(t, now) =>
      RemovedClock(s, t.id);
      LeaveFair(s, t.id);
      MakeFair(Remove(s, t.id), if t.release == 0 then t.(release := now) else t, now, timeslice);
    case YieldOp(id, now) => YieldFair(s, id, now);
    case HurryOp(id, now) => HurryFair(s, id, now);
    case ScheduleOp(now) =>
      AccountFair(s.q, s.last, s.clock, now);
      PickFair(Account(s.q, s.last, now), now, timeslice);
  }

  lemma RemovedClock(s: Sched, id: nat)
    ensures Remove(s, id).clock == s.clock
  {}

  /** schedule_now leaves every best-effort task in its place. */
  lemma HurryFair(s: Sched, id: nat, now: nat)
    requires FairQueue(s.q, s.clock) && s.clock <= now
    ensures FairQueue(Hurry(s, id, now).q, now)
    ensures forall x :: Position(Hurry(s, id, now).q, x) == Position(s.q, x)
    ensures |Hurry(s, id, now).q| == |s.q|
  {
    hide FairQueue;
    FairLater(s.q, s.clock, now);
    var k := Position(s.q, id);
    if k < |s.q| { UpdateFair(s.q, k, Hurried(s.q[k], now), now); }
  }

  lemma YieldFair(s: Sched, id: nat, now: nat)
    requires FairQueue(s.q, s.clock) && s.clock <= now
    ensures var r := YieldTask(s, id, now);
      && FairQueue(r.q, now) && r.clock == now
      && forall x :: Queued(s.q, x) && x != id ==>
           Queued(r.q, x) && Position(r.q, x) + EndsTurn(s.q, YieldOp(id, now), x) == Position(s.q, x)
  {
    hide FairQueue;
    FairLater(s.q, s.clock, now);
    var k := Position(s.q, id);
    if k < |s.q| {
      Head(s.q, k, s.clock);
      MoveToTail(s.q, k, Yielded(s.q[k], now), s.clock, now);
    }
  }

  lemma MakeFair(s: Sched, t: Task, now: nat, timeslice: nat)
    requires FairQueue(s.q, s.clock) && t.typ.BestEffort? && s.clock <= now
    ensures var r := MakeRunnable(s, t, now, timeslice);
      r.Some? ==>
        && FairQueue(r.value.q, now) && r.value.clock == now
        && forall x :: Queued(s.q, x) ==> Queued(r.value.q, x) && Position(r.value.q, x) == Position(s.q, x)
  {
    hide FairQueue;
    FairLater(s.q, s.clock, now);
    var r := MakeRunnable(s, t, now, timeslice);
    if r.Some? && !Queued(s.q, t.id) {
      var u := Entering(t, NBe(s.q) + 1, now, timeslice);
      InsertAtTail(s.q, u, s.clock);
      NotQueued(s.q, t.id);
      AppendFair(s.q, u, s.clock, now);
      forall x | Queued(s.q, x) ensures Queued(s.q + [u], x) && Position(s.q + [u], x) == Position(s.q, x) {
        AppendKeepsPosition(s.q, u, x);
      }
    }
  }

  lemma NotQueued(q: Queue, id: nat)
    requires !Queued(q, id)
    ensures forall u :: u in q ==> u.id != id
  {}

  lemma LeaveFair(s: Sched, id: nat)
    requires FairQueue(s.q, s.clock)
    ensures FairQueue(Remove(s, id).q, s.clock)
    ensures forall x :: x != id && Queued(s.q, x) ==>
      Queued(Remove(s, id).q, x) && Position(Remove(s, id).q, x) + EndsTurn(s.q, Leave(id), x) == Position(s.q, x)
  {
    hide FairQueue;
    if Queued(s.q, id) {
      var k := Position(s.q, id);
      DropFair(s.q, k, s.clock);
      forall x | x != id && Queued(s.q, x)
        ensures Queued(Drop(s.q, k), x) && Position(Drop(s.q, k), x) + EndsTurn(s.q, Leave(id), x) == Position(s.q, x)
      {
        DropMovesUp(s.q, k, s.clock, x);
      }
    }
  }

  /** How many turns end in front of `x` during a run, by an exhausted budget, a yield, a
      removal or new properties, provided that `x` waits all the time: it is never
      touched and never found exhausted. */
  ghost function Turns(s: Sched, ops: seq<Op>, timeslice: nat, s': Sched, x: nat): (n: Option<nat>)
    requires Runs(s, ops, timeslice, s')
    decreases |ops|
  {
    if ops == [] then Some(0)
    else
      var r := Step(s, ops[0], timeslice);
      if Touches(ops[0], x) || x in r.exhausted then None
      else
        var n := Turns(r.s, ops[1..], timeslice, s', x);
        if n.None? then None else Some(EndsTurn(s.q, ops[0], x) + |r.exhausted| + n.value)
  }

  /** Main result for best-effort runs: over any run a waiting task moves up by exactly
      the number of turns that end in front of it. So it never moves back, and the turns
      that others can take in front of it are bounded by the position it started from. */
  lemma {:induction false} WaitingIsBounded(s: Sched, ops: seq<Op>, timeslice: nat, s': Sched, x: nat)
    requires FairQueue(s.q, s.clock) && (forall op :: op in ops ==> BestEffortOp(op)) && Runs(s, ops, timeslice, s')
    requires Queued(s.q, x) && Turns(s, ops, timeslice, s', x).Some?
    ensures FairQueue(s'.q, s'.clock) && Queued(s'.q, x)
    ensures Position(s'.q, x) + Turns(s, ops, timeslice, s', x).value == Position(s.q, x)
    decreases |ops|
  {
    hide FairQueue;
    hide BudgetsPositive;
    hide Step;
    if ops != [] {
      StepFair(s, ops[0], timeslice);
      var r := Step(s, ops[0], timeslice);
      WaitingIsBounded(r.s, ops[1..], timeslice, s', x);
    }
  }
}
