/** Tasks keep their order in the queue until one of them is taken out of its place. So
    tasks with equal deadlines stay in the order in which they were inserted. */
module RbedOrder {
  import opened Wrappers
  import opened Rbed
  import opened RbedRuns

  /** `a` and `b` are queued, `a` first. */
  ghost predicate InOrder(q: Queue, a: nat, b: nat) {
    exists i, j :: 0 <= i < j < |q| && q[i].id == a && q[j].id == b
  }

  lemma DropOrder(q: Queue, k: nat, a: nat, b: nat)
    requires InOrder(q, a, b) && k < |q| && q[k].id != a && q[k].id != b
    ensures InOrder(Drop(q, k), a, b)
  {
    var i, j :| 0 <= i < j < |q| && q[i].id == a && q[j].id == b;
    var r := Drop(q, k);
    var i', j' := (if i < k then i else i - 1), (if j < k then j else j - 1);
    assert r[i'] == q[i] && r[j'] == q[j];
  }

  lemma InsertOrder(q: Queue, t: Task, a: nat, b: nat)
    requires InOrder(q, a, b)
    ensures InOrder(Insert(q, t), a, b)
  {
    hide Spot;
    var i, j :| 0 <= i < j < |q| && q[i].id == a && q[j].id == b;
    var k, r := Spot(q, t), Insert(q, t);
    var i', j' := (if i < k then i else i + 1), (if j < k then j else j + 1);
    assert r[i'] == q[i] && r[j'] == q[j];
  }

  lemma UpdateOrder(q: Queue, k: nat, t: Task, a: nat, b: nat)
    requires InOrder(q, a, b) && k < |q| && t.id == q[k].id
    ensures InOrder(q[k := t], a, b)
  {
    var i, j :| 0 <= i < j < |q| && q[i].id == a && q[j].id == b;
    assert q[k := t][i].id == a && q[k := t][j].id == b;
  }

  lemma {:induction false} PickOrder(q: Queue, now: nat, timeslice: nat, a: nat, b: nat)
    requires BudgetsPositive(q, timeslice) && InOrder(q, a, b)
    ensures var r := Pick(q, now, timeslice);
      r.Picked? && a !in r.exhausted && b !in r.exhausted ==> InOrder(r.queue, a, b)
    decreases Busy(q)
  {
    hide BudgetsPositive; hide Busy; hide InOrder; hide WBe; hide NBe; hide UHrt; hide Share; hide Budget; hide Insert;
    hide Drop;
    var p := OnePass(q, now, timeslice);
    var k := FirstReleased(q, now);
    if p.Run? {
      UpdateOrder(q, k, Prepared(q, q[k], now, timeslice).(lastDispatch := now), a, b);
    } else if p.Again? {
      AgainGoesOn(q, now, timeslice);
      if q[k].id != a && q[k].id != b {
        DropOrder(q, k, a, b);
        InsertOrder(Drop(q, k), Recharged(Prepared(q, q[k], now, timeslice), now), a, b);
        PickOrder(p.queue, now, timeslice, a, b);
      }
    }
  }

  /** The operation takes `x` out of its place. */
  predicate Moves(op: Op, x: nat) {
    (op.Leave? && op.id == x) || (op.YieldOp? && op.id == x) || (op.Properties? && op.t.id == x)
  }

  lemma RemoveOrder(s: Sched, id: nat, a: nat, b: nat)
    requires InOrder(s.q, a, b) && id != a && id != b
    ensures InOrder(Remove(s, id).q, a, b)
  {
    hide InOrder; hide Drop;
    if Queued(s.q, id) { DropOrder(s.q, Position(s.q, id), a, b); }
  }

  lemma MakeOrder(s: Sched, t: Task, now: nat, timeslice: nat, a: nat, b: nat)
    requires InOrder(s.q, a, b)
    ensures var r := MakeRunnable(s, t, now, timeslice); r.Some? ==> InOrder(r.value.q, a, b)
  {
    hide InOrder; hide Insert; hide UHrt; hide NBe;
    InsertOrder(s.q, Entering(t, NBe(s.q) + 1, now, timeslice), a, b);
  }

  lemma AccountOrder(q: Queue, last: Option<nat>, now: nat, a: nat, b: nat)
    requires InOrder(q, a, b)
    ensures InOrder(Account(q, last, now), a, b)
  {
    hide InOrder;
    if last.Some? && Queued(q, last.value) {
      var k := Position(q, last.value);
      UpdateOrder(q, k, Account(q, last, now)[k], a, b);
      assert Account(q, last, now) == q[k := Account(q, last, now)[k]];
    }
  }

  lemma StepOrder(s: Sched, op: Op, timeslice: nat, a: nat, b: nat)
    requires InOrder(s.q, a, b) && !Moves(op, a) && !Moves(op, b)
    requires op.ScheduleOp? ==> BudgetsPositive(Account(s.q, s.last, op.now), timeslice)
    ensures var r := Step(s, op, timeslice);
      r.Next? && a !in r.exhausted && b !in r.exhausted ==> InOrder(r.s.q, a, b)
  {
    hide InOrder; hide BudgetsPositive; hide MakeRunnable; hide Remove; hide Insert; hide Drop; hide Account; hide Pick;
    match op
    case Make(t, now) => MakeOrder(s, t, now, timeslice, a, b);
    case Leave(id) => RemoveOrder(s, id, a, b);
    case Properties(t, now) =>
      RemoveOrder(s, t.id, a, b);
      MakeOrder(Remove(s, t.id), if t.release == 0 then t.(release := now) else t, now, timeslice, a, b);
    case YieldOp(id, now) =>
      var k := Position(s.q, id);
      if k < |s.q| {
        DropOrder(s.q, k, a, b);
        InsertOrder(Drop(s.q, k), Yielded(s.q[k], now), a, b);
      }
    case HurryOp(id, now) =>
      var k := Position(s.q, id);
      if k < |s.q| { UpdateOrder(s.q, k, Hurried(s.q[k], now), a, b); }
    case ScheduleOp(now) =>
      AccountOrder(s.q, s.last, now, a, b);
      PickOrder(Account(s.q, s.last, now), now, timeslice, a, b);
  }

  /** During the run neither task leaves its place: no operation moves it, and schedule
      never finds it exhausted. */
  ghost predicate StayPut(s: Sched, ops: seq<Op>, timeslice: nat, s': Sched, a: nat, b: nat)
    requires Runs(s, ops, timeslice, s')
    decreases |ops|
  {
    ops != [] ==>
      var r := Step(s, ops[0], timeslice);
      && !Moves(ops[0], a) && !Moves(ops[0], b) && a !in r.exhausted && b !in r.exhausted
      && StayPut(r.s, ops[1..], timeslice, s', a, b)
  }

  /** Over every run, of two tasks the one that was first stays first until one of them
      is inserted again or removed. */
  lemma {:induction false} OrderIsKept(s: Sched, ops: seq<Op>, timeslice: nat, s': Sched, a: nat, b: nat)
    requires Runs(s, ops, timeslice, s') && InOrder(s.q, a, b) && StayPut(s, ops, timeslice, s', a, b)
    ensures InOrder(s'.q, a, b)
    decreases |ops|
  {
    hide InOrder; hide BudgetsPositive; hide Step;
    if ops != [] {
      StepOrder(s, ops[0], timeslice, a, b);
      OrderIsKept(Step(s, ops[0], timeslice).s, ops[1..], timeslice, s', a, b);
    }
  }

  /** In a hard real-time queue an inserted task is behind every queued one with the same
      deadline, and stays there: equal deadlines are served in the order of insertion. */
  lemma EqualDeadlinesInInsertionOrder(s: Sched, t: Task, now: nat, ops: seq<Op>, timeslice: nat, s': Sched, a: nat)
    requires ByDeadline(s.q) && AllHard(s.q) && t.typ.HardRealtime? && t.wcet > 0
    requires !Queued(s.q, t.id) && MakeRunnable(s, t, now, timeslice).Some?
    requires exists u :: u in s.q && u.id == a && u.Due() <= t.Due()
    requires var s1 := MakeRunnable(s, t, now, timeslice).value;
      Runs(s1, ops, timeslice, s') && StayPut(s1, ops, timeslice, s', a, t.id)
    ensures InOrder(s'.q, a, t.id)
  {
    hide Runs; hide StayPut; hide ByDeadline; hide AllHard; hide UHrt; hide NBe;
    var s1 := MakeRunnable(s, t, now, timeslice).value;
    var t1 := Entering(t, NBe(s.q) + 1, now, timeslice);
    InsertByDeadline(s.q, t1);
    var u :| u in s.q && u.id == a && u.Due() <= t.Due();
    var i :| 0 <= i < |s.q| && s.q[i] == u;
    var k := Spot(s.q, t1);
    assert i < k && s1.q[i] == u && s1.q[k] == t1;
    OrderIsKept(s1, ops, timeslice, s', a, t.id);
  }
}
