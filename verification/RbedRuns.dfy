/** Whole runs of the RBED scheduler: the operations, termination of schedule, and
    what every run keeps. A panic or an arithmetic fault halts the kernel. */
module RbedRuns {
  import opened Wrappers
  import opened Rbed

  // ---------- schedule as a whole ----------

  /** Queued tasks that have run since they were last charged. */
  function Busy(q: Queue): nat { if q == [] then 0 else (if q[0].etime > 0 then 1 else 0) + Busy(q[1..]) }

  function BudgetOf(t: Task, q: Queue, timeslice: nat): nat {
    if t.typ.BestEffort? then Budget(Share(t.weight, WBe(q), UHrt(q)), NBe(q), timeslice) else t.wcet
  }

  /** Every queued task would get at least one tick. */
  ghost predicate BudgetsPositive(q: Queue, timeslice: nat) {
    forall t :: t in q ==> BudgetOf(t, q, timeslice) > 0
  }

  /** How schedule ends: the kernel halted, or it picked a queued task (or none), after
      queueing some exhausted tasks again. */
  datatype Picked = Halted(why: Reason) | Picked(queue: Queue, choice: Option<nat>, exhausted: seq<nat>)

  /** The start_over loop. */
  function Pick(q: Queue, now: nat, timeslice: nat): (r: Picked)
    requires BudgetsPositive(q, timeslice)
    decreases Busy(q)
  {
    var p := OnePass(q, now, timeslice);
    match p
    case Idle => Picked(q, None, [])
    case Stop(why) => Halted(why)
    case Run(q', k) => Picked(q', Some(q'[k].id), [])
    case Again(q') =>
      AgainGoesOn(q, now, timeslice);
      var r := Pick(q', now, timeslice);
      if r.Halted? then r else r.(exhausted := [q[FirstReleased(q, now)].id] + r.exhausted)
  }

  lemma {:induction false} BusyConcat(a: Queue, b: Queue)
    ensures Busy(a + b) == Busy(a) + Busy(b)
  {
    if a == [] {
      assert a + b == b;
    } else {
      assert (a + b)[1..] == a[1..] + b;
      BusyConcat(a[1..], b);
    }
  }

  lemma BusyInsert(q: Queue, t: Task)
    ensures Busy(Insert(q, t)) == Busy(q) + Busy([t])
  {
    hide Busy;
    var k := Spot(q, t);
    assert q == q[..k] + q[k..];
    BusyConcat(q[..k], q[k..]);
    BusyConcat(q[..k], [t]);
    BusyConcat(q[..k] + [t], q[k..]);
  }

  lemma BusyDrop(q: Queue, k: nat)
    requires k < |q|
    ensures Busy(q) == Busy(Drop(q, k)) + Busy([q[k]])
  {
    hide Busy;
    assert q == q[..k] + [q[k]] + q[k + 1..];
    BusyConcat(q[..k], [q[k]]);
    BusyConcat(q[..k] + [q[k]], q[k + 1..]);
    BusyConcat(q[..k], q[k + 1..]);
  }

  lemma InsertMembers(q: Queue, t: Task)
    ensures forall e :: e in Insert(q, t) <==> e in q || e == t
  {
    var k := Spot(q, t);
    assert q == q[..k] + q[k..];
  }

  lemma DropMembers(q: Queue, k: nat)
    requires k < |q|
    ensures forall e :: e in Drop(q, k) ==> e in q
    ensures forall e :: e in q ==> e == q[k] || e in Drop(q, k)
  {
    assert q == q[..k] + [q[k]] + q[k + 1..];
  }

  /** The selected task, its copy with lazily allocated resources, and the queue
      after it has been recharged have the same counters. */
  lemma AgainSums(q: Queue, now: nat, timeslice: nat)
    requires FirstReleased(q, now) < |q|
    ensures var k := FirstReleased(q, now);
      var t := Recharged(Prepared(q, q[k], now, timeslice), now);
      var q' := Insert(Drop(q, k), t);
      WBe(q') == WBe(q) && NBe(q') == NBe(q) && UHrt(q') == UHrt(q)
  {
    hide UTarget;
    hide WBe;
    hide NBe;
    hide UHrt;
    var k := FirstReleased(q, now);
    var t := Recharged(Prepared(q, q[k], now, timeslice), now);
    SumsDrop(q, k);
    SumsInsert(Drop(q, k), t);
    SumsOne(t);
    SumsOne(q[k]);
    assert t.typ.HardRealtime? ==> UTarget(t) == UTarget(q[k]) by { SameTarget(t, q[k]); }
  }

  lemma SameTarget(a: Task, b: Task)
    requires a.typ.HardRealtime? ==> a.wcet == b.wcet && a.period == b.period
    ensures a.typ.HardRealtime? ==> UTarget(a) == UTarget(b)
  {}

  /** Each start_over strictly lowers the number of queued tasks with executed time,
      because a selected task is over budget only if it has run. */
  lemma AgainGoesOn(q: Queue, now: nat, timeslice: nat)
    requires BudgetsPositive(q, timeslice) && OnePass(q, now, timeslice).Again?
    ensures var q' := OnePass(q, now, timeslice).queue;
      Busy(q') < Busy(q) && BudgetsPositive(q', timeslice) && |q'| == |q|
  {
    hide Busy;
    hide WBe;
    hide NBe;
    hide UHrt;
    hide Share;
    hide Budget;
    var k := FirstReleased(q, now);
    var t := Prepared(q, q[k], now, timeslice);
    var u := Recharged(t, now);
    assert q[k] in q;
    assert t.wcet == BudgetOf(q[k], q, timeslice);
    BusyDrop(q, k);
    BusyInsert(Drop(q, k), u);
    BusyOne(q[k]);
    BusyOne(u);
    AgainSums(q, now, timeslice);
    InsertMembers(Drop(q, k), u);
    DropMembers(q, k);
    var q' := Insert(Drop(q, k), u);
    forall e | e in q' ensures BudgetOf(e, q', timeslice) > 0 {
      if e != u { assert e in q; }
    }
  }

  lemma BusyOne(t: Task)
    ensures Busy([t]) == if t.etime > 0 then 1 else 0
  {}

  /** schedule ends after at most one pass more than there are tasks with executed
      time; it picks nothing or a queued, released task; it keeps the set of queued
      tasks and the counters. */
  lemma {:induction false} PickEnds(q: Queue, now: nat, timeslice: nat)
    requires BudgetsPositive(q, timeslice)
    ensures var r := Pick(q, now, timeslice);
      r.Picked? ==>
        && |r.exhausted| <= Busy(q) && |r.queue| == |q|
        && WBe(r.queue) == WBe(q) && NBe(r.queue) == NBe(q) && UHrt(r.queue) == UHrt(q)
        && (r.choice.None? ==> forall t :: t in r.queue ==> t.release > now)
        && (r.choice.Some? ==>
          FirstReleased(r.queue, now) < |r.queue| && r.queue[FirstReleased(r.queue, now)].id == r.choice.value)
    decreases Busy(q)
  {
    hide UTarget;
    hide Budget;
    hide Share;
    var p := OnePass(q, now, timeslice);
    match p
    case Idle =>
    case Stop(_) =>
    case Run(q', k) =>
        RunKeeps(q, now, timeslice);
    case Again(q') =>
      AgainGoesOn(q, now, timeslice);
      AgainSums(q, now, timeslice);
      PickEnds(q', now, timeslice);
  }

  /** What dispatching relies on: the picked task has budget left, its deadline is not in
      the past, and a best-effort task has the share that the final queue gives it. */
  ghost predicate FitToRun(t: Task, q: Queue, now: nat, timeslice: nat) {
    && t.release <= now <= t.Due() && t.etime < t.wcet && t.lastDispatch == now
    && t.wcet == BudgetOf(t, q, timeslice)
    && (t.typ.BestEffort? ==> t.deadline == t.period == NBe(q) * timeslice)
  }

  lemma {:induction false} PickedIsFit(q: Queue, now: nat, timeslice: nat)
    requires BudgetsPositive(q, timeslice) && forall t :: t in q ==> !t.typ.SoftRealtime?
    ensures var r := Pick(q, now, timeslice);
      r.Picked? && r.choice.Some? ==>
        FirstReleased(r.queue, now) < |r.queue|
          && FitToRun(r.queue[FirstReleased(r.queue, now)], r.queue, now, timeslice)
    decreases Busy(q)
  {
    hide UTarget; hide Budget; hide Share; hide BudgetsPositive; hide Busy; hide FitToRun; hide WBe; hide NBe;
    hide UHrt;
    var p := OnePass(q, now, timeslice);
    if p.Run? {
      RunKeeps(q, now, timeslice);
      RunIsFit(q, now, timeslice);
    } else if p.Again? {
      AgainGoesOn(q, now, timeslice);
      AgainTypes(q, now, timeslice);
      PickedIsFit(p.queue, now, timeslice);
    }
  }

  lemma RunIsFit(q: Queue, now: nat, timeslice: nat)
    requires OnePass(q, now, timeslice).Run? && forall t :: t in q ==> !t.typ.SoftRealtime?
    ensures var p := OnePass(q, now, timeslice); p.k < |p.queue| && FitToRun(p.queue[p.k], p.queue, now, timeslice)
  {
    hide UTarget; hide Budget; hide Share; hide WBe; hide NBe; hide UHrt;
    RunKeeps(q, now, timeslice);
    var k := FirstReleased(q, now);
    assert q[k] in q;
  }

  lemma AgainTypes(q: Queue, now: nat, timeslice: nat)
    requires OnePass(q, now, timeslice).Again? && forall t :: t in q ==> !t.typ.SoftRealtime?
    ensures forall t :: t in OnePass(q, now, timeslice).queue ==> !t.typ.SoftRealtime?
  {
    hide UTarget; hide Budget; hide Share; hide WBe; hide NBe; hide UHrt; hide Insert; hide Drop;
    var k := FirstReleased(q, now);
    var t := Prepared(q, q[k], now, timeslice);
    assert q[k] in q;
    InsertMembers(Drop(q, k), Recharged(t, now));
    DropMembers(q, k);
  }

  lemma RunKeeps(q: Queue, now: nat, timeslice: nat)
    requires OnePass(q, now, timeslice).Run?
    ensures var p := OnePass(q, now, timeslice);
      && p.k == FirstReleased(p.queue, now) == FirstReleased(q, now) < |q| == |p.queue|
      && WBe(p.queue) == WBe(q) && NBe(p.queue) == NBe(q) && UHrt(p.queue) == UHrt(q)
      && p.queue[p.k].id == q[p.k].id
      && (forall i :: 0 <= i < |q| && i != p.k ==> p.queue[i] == q[i])
  {
    hide UTarget;
    hide WBe;
    hide NBe;
    hide UHrt;
    hide Budget;
    hide Share;
    var p := OnePass(q, now, timeslice);
    var k := FirstReleased(q, now);
    var t := Prepared(q, q[k], now, timeslice).(lastDispatch := now);
    SameTarget(t, q[k]);
    SumsUpdate(q, k, t);
    SameFirst(q, p.queue, k, now);
  }

  lemma SameFirst(q: Queue, q': Queue, k: nat, now: nat)
    requires k == FirstReleased(q, now) < |q| == |q'| && q'[k].release <= now
    requires forall i :: 0 <= i < k ==> q'[i] == q[i]
    ensures FirstReleased(q', now) == k
  {
  }

  /** Without positive budgets schedule need not end: a hard real-time task without
      execution time that is released right now is picked for ever. */
  lemma ZeroBudgetLoops(now: nat, timeslice: nat)
    ensures var q := [Task(0, HardRealtime, now, 0, 0, 0, 10, 10, 0)];
      OnePass(q, now, timeslice) == Again(q)
  {
    var t := Task(0, HardRealtime, now, 0, 0, 0, 10, 10, 0);
    var q := [t];
    assert FirstReleased(q, now) == 0;
    assert Drop(q, 0) == [];
    assert Spot([], t) == 0;
    assert Insert([], t) == [t];
  }

  // ---------- Operations ----------

  /** The scheduler between two operations: the run queue, the task whose execution
      time is being accounted, and the time of the last operation. */
  datatype Sched = Sched(q: Queue, last: Option<nat>, clock: nat)

  /** The task as make_runnable queues it, as one of `n` best-effort tasks if it is one. */
  function Entering(t: Task, n: nat, now: nat, timeslice: nat): (r: Task) {
    var span := n * timeslice;
    if t.typ.BestEffort?
    then t.(weight := if t.weight == 0 then 1 else t.weight, deadline := span, period := span, release := now,
      etime := 0)
    else t.(etime := 0)
  }

  /** make_runnable. */
  function MakeRunnable(s: Sched, t: Task, now: nat, timeslice: nat): (r: Option<Sched>) {
    if Queued(s.q, t.id) then Some(s.(clock := now))
    else if t.typ.SoftRealtime? || (t.typ.HardRealtime? && t.period == 0) then None
    else
      var t1 := Entering(t, NBe(s.q) + 1, now, timeslice);
      if UHrt(s.q) + UHrt([t1]) + BETA > SPECTRUM then None
      else if t1.release < now then None
      else Some(s.(q := Insert(s.q, t1), clock := now))
  }

  /** scheduler_remove. */
  function Remove(s: Sched, id: nat): (r: Sched) { s.(q := Without(s.q, id)) }

  /** What sys_dispatcher_properties asserts of the new parameters. */
  predicate Consistent(t: Task) { t.wcet <= t.deadline && t.wcet <= t.period && (t.typ.BestEffort? ==> t.weight > 0) }

  /** sys_dispatcher_properties: out of the queue, new parameters, in again. */
  function SetProperties(s: Sched, t: Task, now: nat, timeslice: nat): (r: Option<Sched>) {
    if !Consistent(t) then None
    else MakeRunnable(Remove(s, t.id), if t.release == 0 then t.(release := now) else t, now, timeslice)
  }

  function Yielded(t: Task, now: nat): Task {
    t.(release := if t.typ.BestEffort? then now else t.release + t.period, etime := 0)
  }

  /** scheduler_yield. */
  function YieldTask(s: Sched, id: nat, now: nat): (r: Sched) {
    var k := Position(s.q, id);
    if k == |s.q| || s.q[k].release > now then s.(clock := now)
    else Sched(Insert(Drop(s.q, k), Yielded(s.q[k], now)), None, now)
  }

  /** The execution time of the last dispatched task, brought up to date. */
  function Account(q: Queue, last: Option<nat>, now: nat): (r: Queue)
    ensures |r| == |q|
  {
    if last.None? || !Queued(q, last.value) then q
    else
      var k := Position(q, last.value);
      var t := q[k];
      if t.release <= now && t.lastDispatch <= now
      then q[k := t.(etime := t.etime + now - Max(t.lastDispatch, t.release))]
      else q
  }

  function Hurried(t: Task, now: nat): Task {
    t.(release := if t.release >= now then now else t.release, deadline := 1)
  }

  /** schedule_now. */
  function Hurry(s: Sched, id: nat, now: nat): Sched {
    var k := Position(s.q, id);
    if k < |s.q| then s.(q := s.q[k := Hurried(s.q[k], now)]) else s
  }

  /** The loop of wakeup_check over the dispatchers that are due. */
  function WakeAll(s: Sched, due: seq<Task>, now: nat, timeslice: nat): Option<Sched>
    decreases |due|
  {
    if due == [] then Some(s)
    else
      var r := MakeRunnable(s, due[0], now, timeslice);
      if r.None? then None else WakeAll(Hurry(r.value, due[0].id, now), due[1..], now, timeslice)
  }

  datatype Op =
    | Make(t: Task, now: nat)
    | Leave(id: nat)
    | Properties(t: Task, now: nat)
    | YieldOp(id: nat, now: nat)
    | HurryOp(id: nat, now: nat)
    | ScheduleOp(now: nat)

  function TimeOf(op: Op, clock: nat): nat { if op.Leave? then clock else op.now }

  /** A step that does not halt the kernel, with the tasks that schedule found
      exhausted and queued again. */
  datatype StepResult = Halt | Next(s: Sched, exhausted: seq<nat>)

  function Step(s: Sched, op: Op, timeslice: nat): (r: StepResult)
    requires op.ScheduleOp? ==> BudgetsPositive(Account(s.q, s.last, op.now), timeslice)
  {
    match op
    case Make(t, now) =>
      var r := MakeRunnable(s, t, now, timeslice);
      if r.None? then Halt else Next(r.value, [])
    case Leave(id) => Next(Remove(s, id), [])
    case Properties(t, now) =>
      var r := SetProperties(s, t, now, timeslice);
      if r.None? then Halt else Next(r.value, [])
    case YieldOp(id, now) => Next(YieldTask(s, id, now), [])
    case HurryOp(id, now) => Next(Hurry(s, id, now).(clock := now), [])
    case ScheduleOp(now) =>
      var r := Pick(Account(s.q, s.last, now), now, timeslice);
      if r.Halted? then Halt else Next(Sched(r.queue, r.choice, now), r.exhausted)
  }

  // ---------- Hard real-time runs are earliest deadline first ----------

  ghost predicate ByDeadline(q: Queue) { forall i, j :: 0 <= i < j < |q| ==> q[i].Due() <= q[j].Due() }

  ghost predicate AllHard(q: Queue) { forall t :: t in q ==> t.typ.HardRealtime? && t.wcet > 0 }

  /** A task put between those that are due no later and those that are due no earlier. */
  lemma PlacedSorted(q: Queue, k: nat, t: Task)
    requires ByDeadline(q) && k <= |q|
    requires forall i :: 0 <= i < k ==> q[i].Due() <= t.Due()
    requires forall i :: k <= i < |q| ==> t.Due() <= q[i].Due()
    ensures ByDeadline(q[..k] + [t] + q[k..])
  {
    var r := q[..k] + [t] + q[k..];
    assert forall i :: 0 <= i < k ==> r[i] == q[i];
    assert forall i :: k < i < |r| ==> r[i] == q[i - 1];
    assert r[k] == t;
    forall i, j | 0 <= i < j < |r| ensures r[i].Due() <= r[j].Due() {
      if i < k && j > k { assert q[i].Due() <= t.Due(); }
    }
  }

  /** A hard real-time task goes behind every equal deadline and before every later one. */
  lemma InsertSorted(q: Queue, t: Task)
    requires ByDeadline(q) && t.typ.HardRealtime?
    ensures ByDeadline(Insert(q, t))
    ensures var k := Spot(q, t);
      (forall i :: 0 <= i < k ==> q[i].Due() <= t.Due()) && (forall i :: k <= i < |q| ==> q[i].Due() > t.Due())
  {
    hide Spot;
    var k := Spot(q, t);
    forall i | k <= i < |q| ensures q[i].Due() > t.Due() {
      assert q[k].Due() <= q[i].Due();
    }
    PlacedSorted(q, k, t);
  }

  lemma DropSorted(q: Queue, k: nat)
    requires ByDeadline(q) && k < |q|
    ensures ByDeadline(Drop(q, k))
  {
    var r := Drop(q, k);
    forall i, j | 0 <= i < j < |r| ensures r[i].Due() <= r[j].Due() {
      assert r[i] == if i < k then q[i] else q[i + 1];
      assert r[j] == if j < k then q[j] else q[j + 1];
    }
  }

  lemma InsertByDeadline(q: Queue, t: Task)
    requires ByDeadline(q) && AllHard(q) && t.typ.HardRealtime? && t.wcet > 0
    ensures ByDeadline(Insert(q, t)) && AllHard(Insert(q, t))
    ensures var k := Spot(q, t);
      (forall i :: 0 <= i < k ==> q[i].Due() <= t.Due()) && (forall i :: k <= i < |q| ==> q[i].Due() > t.Due())
  {
    InsertSorted(q, t);
    InsertMembers(q, t);
  }

  lemma DropByDeadline(q: Queue, k: nat)
    requires ByDeadline(q) && AllHard(q) && k < |q|
    ensures ByDeadline(Drop(q, k)) && AllHard(Drop(q, k))
  {
    DropSorted(q, k);
    DropMembers(q, k);
  }

  /** Changing execution times keeps the order. */
  lemma SameDeadlines(q: Queue, k: nat, t: Task)
    requires ByDeadline(q) && AllHard(q) && k < |q| && t.Due() == q[k].Due() && t.typ == q[k].typ && t.wcet == q[k].wcet
    ensures ByDeadline(q[k := t]) && AllHard(q[k := t])
  {
    forall e | e in q[k := t] ensures e.typ.HardRealtime? && e.wcet > 0 {
      assert q[k] in q;
      assert e == t || e in q;
    }
  }

  lemma HardBudgets(q: Queue, timeslice: nat)
    requires AllHard(q)
    ensures BudgetsPositive(q, timeslice)
  {}

  lemma AccountByDeadline(q: Queue, last: Option<nat>, now: nat)
    requires ByDeadline(q) && AllHard(q)
    ensures ByDeadline(Account(q, last, now)) && AllHard(Account(q, last, now))
  {
    hide ByDeadline;
    hide AllHard;
    if last.Some? && Queued(q, last.value) {
      var k := Position(q, last.value);
      SameDeadlines(q, k, q[k].(etime := Account(q, last, now)[k].etime));
      assert Account(q, last, now) == q
        || Account(q, last, now) == q[k := q[k].(etime := Account(q, last, now)[k].etime)];
    }
  }

  lemma {:induction false} PickByDeadline(q: Queue, now: nat, timeslice: nat)
    requires ByDeadline(q) && AllHard(q) && BudgetsPositive(q, timeslice)
    ensures var r := Pick(q, now, timeslice); r.Picked? ==> ByDeadline(r.queue) && AllHard(r.queue)
    decreases Busy(q)
  {
    hide ByDeadline;
    hide UTarget;
    hide Budget;
    hide Share;
    var p := OnePass(q, now, timeslice);
    var k := FirstReleased(q, now);
    if p.Run? {
      assert q[k] in q;
      SameDeadlines(q, k, q[k].(lastDispatch := now));
    } else if p.Again? {
      assert q[k] in q;
      AgainGoesOn(q, now, timeslice);
      DropByDeadline(q, k);
      InsertByDeadline(Drop(q, k), Recharged(q[k], now));
      PickByDeadline(p.queue, now, timeslice);
    }
  }

  /** The operations of hard real-time runs; schedule_now edits a deadline in place. */
  ghost predicate HardOp(op: Op) {
    !op.HurryOp? && (op.Make? || op.Properties? ==> op.t.typ.HardRealtime? && op.t.wcet > 0)
  }

  /** What schedule_now makes of a sorted queue: it stays sorted if and only if the new
      deadline still fits between those of the neighbours. */
  lemma HurryByDeadlineIff(s: Sched, id: nat, now: nat)
    requires ByDeadline(s.q) && Queued(s.q, id)
    ensures var k := Position(s.q, id);
      var due := Hurried(s.q[k], now).Due();
      ByDeadline(Hurry(s, id, now).q) <==>
        (k > 0 ==> s.q[k - 1].Due() <= due) && (k + 1 < |s.q| ==> due <= s.q[k + 1].Due())
  {
    hide Position; hide Hurried; hide ByDeadline;
    var k := Position(s.q, id);
    UpdatedSortedIff(s.q, k, Hurried(s.q[k], now));
  }

  lemma UpdatedSortedIff(q: Queue, k: nat, t: Task)
    requires ByDeadline(q) && k < |q|
    ensures ByDeadline(q[k := t]) <==>
      (k > 0 ==> q[k - 1].Due() <= t.Due()) && (k + 1 < |q| ==> t.Due() <= q[k + 1].Due())
  {
    var r := Drop(q, k);
    assert q[k := t] == r[..k] + [t] + r[k..];
    assert forall i :: 0 <= i < |r| ==> r[i] == q[if i < k then i else i + 1];
    if (k > 0 ==> q[k - 1].Due() <= t.Due()) && (k + 1 < |q| ==> t.Due() <= q[k + 1].Due()) {
      DropSorted(q, k);
      PlacedSorted(r, k, t);
    }
    var q' := q[k := t];
    if ByDeadline(q') {
      assert k > 0 ==> q'[k - 1].Due() <= q'[k].Due();
      assert k + 1 < |q| ==> q'[k].Due() <= q'[k + 1].Due();
    }
  }

  /** Every hard real-time step keeps the queue sorted by absolute deadline. */
  lemma StepByDeadline(s: Sched, op: Op, timeslice: nat)
    requires ByDeadline(s.q) && AllHard(s.q) && HardOp(op)
    ensures op.ScheduleOp? ==> BudgetsPositive(Account(s.q, s.last, op.now), timeslice)
    ensures var r := Step(s, op, timeslice); r.Next? ==> ByDeadline(r.s.q) && AllHard(r.s.q)
  {
    hide ByDeadline;
    hide AllHard;
    match op
    case Make(t, now) => MakeByDeadline(s, t, now, timeslice);
    case Leave(id) => RemoveByDeadline(s, id);
    case Properties(t, now) =>
      RemoveByDeadline(s, t.id);
      MakeByDeadline(Remove(s, t.id), if t.release == 0 then t.(release := now) else t, now, timeslice);
    case YieldOp(id, now) => YieldByDeadline(s, id, now);
    case ScheduleOp(now) =>
      AccountByDeadline(s.q, s.last, now);
      HardBudgets(Account(s.q, s.last, now), timeslice);
      PickByDeadline(Account(s.q, s.last, now), now, timeslice);
  }

  lemma MakeByDeadline(s: Sched, t: Task, now: nat, timeslice: nat)
    requires ByDeadline(s.q) && AllHard(s.q) && t.typ.HardRealtime? && t.wcet > 0
    ensures var r := MakeRunnable(s, t, now, timeslice); r.Some? ==> ByDeadline(r.value.q) && AllHard(r.value.q)
  {
    hide ByDeadline;
    hide AllHard;
    InsertByDeadline(s.q, t.(etime := 0));
  }

  lemma RemoveByDeadline(s: Sched, id: nat)
    requires ByDeadline(s.q) && AllHard(s.q)
    ensures ByDeadline(Remove(s, id).q) && AllHard(Remove(s, id).q)
  {
    hide ByDeadline;
    hide AllHard;
    if Queued(s.q, id) { DropByDeadline(s.q, Position(s.q, id)); }
  }

  lemma YieldByDeadline(s: Sched, id: nat, now: nat)
    requires ByDeadline(s.q) && AllHard(s.q)
    ensures ByDeadline(YieldTask(s, id, now).q) && AllHard(YieldTask(s, id, now).q)
  {
    hide ByDeadline;
    var k := Position(s.q, id);
    if k < |s.q| {
      assert s.q[k] in s.q;
      DropByDeadline(s.q, k);
      InsertByDeadline(Drop(s.q, k), Yielded(s.q[k], now));
    }
  }

  /** A run of operations that does not halt, from one state to another. */
  ghost predicate Runs(s: Sched, ops: seq<Op>, timeslice: nat, s': Sched)
    decreases |ops|
  {
    if ops == [] then s == s'
    else
      && s.clock <= TimeOf(ops[0], s.clock)
      && (ops[0].ScheduleOp? ==> BudgetsPositive(Account(s.q, s.last, ops[0].now), timeslice))
      && Step(s, ops[0], timeslice).Next?
      && Runs(Step(s, ops[0], timeslice).s, ops[1..], timeslice, s')
  }

  /** The task picked is released and has the earliest deadline of all released
      tasks; nothing was picked only if nothing is released. */
  ghost predicate PickedEarliest(s: Sched) {
    match s.last
    case None => forall u :: u in s.q ==> u.release > s.clock
    case Some(id) => exists k :: 0 <= k < |s.q| && s.q[k].id == id && EarliestAt(s, k)
  }

  ghost predicate EarliestAt(s: Sched, k: nat)
    requires k < |s.q|
  {
    s.q[k].release <= s.clock && forall u :: u in s.q && u.release <= s.clock ==> s.q[k].Due() <= u.Due()
  }

  /** Main result for hard real-time runs: the queue stays sorted by deadline over
      any run, and after every schedule the task picked is the released one with the
      earliest deadline. */
  lemma {:induction false} HardRunsAreEdf(s: Sched, ops: seq<Op>, timeslice: nat, s': Sched)
    requires ByDeadline(s.q) && AllHard(s.q) && (forall op :: op in ops ==> HardOp(op)) && Runs(s, ops, timeslice, s')
    ensures ByDeadline(s'.q) && AllHard(s'.q)
    ensures ops != [] && ops[|ops| - 1].ScheduleOp? ==> PickedEarliest(s')
    decreases |ops|
  {
    hide ByDeadline;
    hide AllHard;
    hide Step;
    if ops != [] {
      var n := Step(s, ops[0], timeslice).s;
      StepByDeadline(s, ops[0], timeslice);
      HardRunsAreEdf(n, ops[1..], timeslice, s');
      if |ops| == 1 && ops[0].ScheduleOp? {
        ScheduleIsEdf(s, ops[0].now, timeslice);
      }
    }
  }

  lemma ScheduleIsEdf(s: Sched, now: nat, timeslice: nat)
    requires ByDeadline(s.q) && AllHard(s.q) && BudgetsPositive(Account(s.q, s.last, now), timeslice)
    ensures var r := Step(s, ScheduleOp(now), timeslice);
      r.Next? ==> PickedEarliest(r.s)
  {
    hide Pick;
    hide Account;
    hide AllHard;
    AccountByDeadline(s.q, s.last, now);
    PickEnds(Account(s.q, s.last, now), now, timeslice);
    PickByDeadline(Account(s.q, s.last, now), now, timeslice);
    var r := Step(s, ScheduleOp(now), timeslice);
    if r.Next? && r.s.last.Some? {
      var k := FirstReleased(r.s.q, now);
      forall u | u in r.s.q && u.release <= now ensures r.s.q[k].Due() <= u.Due() {
        var j :| 0 <= j < |r.s.q| && r.s.q[j] == u;
      }
      assert EarliestAt(r.s, k);
    }
  }
}
