/** When schedule stops the kernel: exactly when it selects a best-effort task of too
    great a weight, or a hard real-time task whose deadline has passed. */
module RbedStops {
  import opened Wrappers
  import opened Rbed
  import opened RbedRuns

  /** The tasks that the passes of schedule select, in order. */
  function Selected(q: Queue, now: nat, timeslice: nat): (ts: seq<Task>)
    requires BudgetsPositive(q, timeslice)
    decreases Busy(q)
  {
    var p := OnePass(q, now, timeslice);
    var k := FirstReleased(q, now);
    match p
    case Idle => []
    case Again(q') =>
      AgainGoesOn(q, now, timeslice);
      [q[k]] + Selected(q', now, timeslice)
    case _ => [q[k]]
  }

  /** schedule stops for a reason if and only if a selected task gives it. */
  lemma {:induction false} StopsIff(q: Queue, now: nat, timeslice: nat)
    requires BudgetsPositive(q, timeslice)
    ensures Pick(q, now, timeslice) == Halted(HeavyWeight) <==> exists t :: t in Selected(q, now, timeslice) && Heavy(t)
    ensures Pick(q, now, timeslice) == Halted(MissedDeadline) <==>
      exists t :: t in Selected(q, now, timeslice) && Late(t, now)
    decreases Busy(q)
  {
    hide BudgetsPositive; hide Busy; hide WBe; hide NBe; hide UHrt; hide Share; hide Budget; hide Insert; hide Drop;
    var p := OnePass(q, now, timeslice);
    var k := FirstReleased(q, now);
    var ts := Selected(q, now, timeslice);
    if p.Again? {
      AgainGoesOn(q, now, timeslice);
      StopsIff(p.queue, now, timeslice);
      var more := Selected(p.queue, now, timeslice);
      assert forall t :: t in ts <==> t == q[k] || t in more;
    } else if !p.Idle? {
      assert ts == [q[k]] && q[k] in ts;
    }
  }

  /** A queued task that is still the same as far as its weight goes. */
  ghost predicate Stands(q: Queue, t: Task) {
    exists u :: u in q && u.id == t.id && u.typ == t.typ && u.weight == t.weight
  }

  /** What is selected was queued, with the same type and weight. */
  lemma {:induction false} SelectedWereQueued(q: Queue, now: nat, timeslice: nat)
    requires BudgetsPositive(q, timeslice)
    ensures forall t :: t in Selected(q, now, timeslice) ==> Stands(q, t)
    decreases Busy(q)
  {
    hide BudgetsPositive; hide Busy; hide WBe; hide NBe; hide UHrt; hide Share; hide Budget; hide Insert; hide Drop;
    var p := OnePass(q, now, timeslice);
    var k := FirstReleased(q, now);
    if k < |q| { assert q[k] in q; }
    if p.Again? {
      AgainGoesOn(q, now, timeslice);
      SelectedWereQueued(p.queue, now, timeslice);
      var u := Recharged(Prepared(q, q[k], now, timeslice), now);
      InsertMembers(Drop(q, k), u);
      DropMembers(q, k);
      forall t | t in Selected(p.queue, now, timeslice) ensures Stands(q, t) {
        var v :| v in p.queue && v.id == t.id && v.typ == t.typ && v.weight == t.weight;
        assert v == u || v in q;
      }
    }
  }

  ghost predicate Light(q: Queue) { forall t :: t in q ==> !Heavy(t) }

  /** With weights below the limit the assertion on weights holds. */
  lemma LightNeverStops(q: Queue, now: nat, timeslice: nat)
    requires BudgetsPositive(q, timeslice) && Light(q)
    ensures Pick(q, now, timeslice) != Halted(HeavyWeight)
  {
    hide Pick; hide BudgetsPositive;
    StopsIff(q, now, timeslice);
    SelectedWereQueued(q, now, timeslice);
  }

  // ---------- Over every run ----------

  predicate LightOp(op: Op) { op.Make? || op.Properties? ==> !Heavy(op.t) }

  lemma InsertLight(q: Queue, t: Task)
    requires Light(q) && !Heavy(t)
    ensures Light(Insert(q, t))
  {
    InsertMembers(q, t);
  }

  lemma DropLight(q: Queue, k: nat)
    requires Light(q) && k < |q|
    ensures Light(Drop(q, k)) && !Heavy(q[k])
  {
    DropMembers(q, k);
    assert q[k] in q;
  }

  lemma {:induction false} PickLight(q: Queue, now: nat, timeslice: nat)
    requires BudgetsPositive(q, timeslice) && Light(q)
    ensures var r := Pick(q, now, timeslice); r.Picked? ==> Light(r.queue)
    decreases Busy(q)
  {
    hide BudgetsPositive; hide Busy; hide WBe; hide NBe; hide UHrt; hide Share; hide Budget; hide Insert; hide Drop;
    var p := OnePass(q, now, timeslice);
    var k := FirstReleased(q, now);
    if k < |q| { assert q[k] in q; }
    if p.Again? {
      AgainGoesOn(q, now, timeslice);
      DropLight(q, k);
      InsertLight(Drop(q, k), Recharged(Prepared(q, q[k], now, timeslice), now));
      PickLight(p.queue, now, timeslice);
    }
  }

  lemma MakeLight(s: Sched, t: Task, now: nat, timeslice: nat)
    requires Light(s.q) && !Heavy(t)
    ensures var r := MakeRunnable(s, t, now, timeslice); r.Some? ==> Light(r.value.q)
  {
    hide Light; hide Insert; hide UHrt; hide NBe;
    InsertLight(s.q, Entering(t, NBe(s.q) + 1, now, timeslice));
  }

  lemma RemoveLight(s: Sched, id: nat)
    requires Light(s.q)
    ensures Light(Remove(s, id).q)
  {
    hide Light; hide Drop;
    if Queued(s.q, id) { DropLight(s.q, Position(s.q, id)); }
  }

  lemma AccountLight(q: Queue, last: Option<nat>, now: nat)
    requires Light(q)
    ensures Light(Account(q, last, now))
  {
    if last.Some? && Queued(q, last.value) { assert q[Position(q, last.value)] in q; }
  }

  lemma HurryLight(s: Sched, id: nat, now: nat)
    requires Light(s.q)
    ensures Light(Hurry(s, id, now).q)
  {
    var k := Position(s.q, id);
    if k < |s.q| { assert s.q[k] in s.q; }
  }

  lemma StepLight(s: Sched, op: Op, timeslice: nat)
    requires Light(s.q) && LightOp(op) && (op.ScheduleOp? ==> BudgetsPositive(Account(s.q, s.last, op.now), timeslice))
    ensures var r := Step(s, op, timeslice); r.Next? ==> Light(r.s.q)
  {
    hide Light; hide BudgetsPositive; hide MakeRunnable; hide Remove; hide Insert; hide Drop; hide Account; hide Pick;
    match op
    case Make(t, now) => MakeLight(s, t, now, timeslice);
    case Leave(id) => RemoveLight(s, id);
    case Properties(t, now) =>
      RemoveLight(s, t.id);
      MakeLight(Remove(s, t.id), if t.release == 0 then t.(release := now) else t, now, timeslice);
    case YieldOp(id, now) =>
      var k := Position(s.q, id);
      if k < |s.q| {
        DropLight(s.q, k);
        InsertLight(Drop(s.q, k), Yielded(s.q[k], now));
      }
    case HurryOp(id, now) => HurryLight(s, id, now);
    case ScheduleOp(now) =>
      AccountLight(s.q, s.last, now);
      PickLight(Account(s.q, s.last, now), now, timeslice);
  }

  /** If no caller ever sets a weight of WEIGHT_LIMIT or more, schedule never stops on
      one, whatever the run. */
  lemma {:induction false} LightRunsNeverStop(s: Sched, ops: seq<Op>, timeslice: nat, s': Sched, now: nat)
    requires Light(s.q) && (forall op :: op in ops ==> LightOp(op)) && Runs(s, ops, timeslice, s')
    requires BudgetsPositive(Account(s'.q, s'.last, now), timeslice)
    ensures Pick(Account(s'.q, s'.last, now), now, timeslice) != Halted(HeavyWeight)
    decreases |ops|
  {
    hide Light; hide BudgetsPositive; hide Step; hide LightOp; hide Pick; hide Account;
    if ops == [] {
      AccountLight(s.q, s.last, now);
      LightNeverStops(Account(s.q, s.last, now), now, timeslice);
    } else {
      StepLight(s, ops[0], timeslice);
      LightRunsNeverStop(Step(s, ops[0], timeslice).s, ops[1..], timeslice, s', now);
    }
  }

  /** The parameters of a best-effort task that sys_dispatcher_properties accepts. */
  function HeavyTask(id: nat, weight: nat): Task { Task(id, BestEffort, 0, 0, 0, 0, 0, 0, weight) }

  /** Every weight from the limit on is accepted and then stops the next schedule. */
  lemma HeavyStopsSchedule(id: nat, weight: nat, now: nat, timeslice: nat)
    requires weight >= WEIGHT_LIMIT && timeslice > 0
    ensures var r := Step(Sched([], None, 0), Properties(HeavyTask(id, weight), now), timeslice);
      r.Next? && BudgetsPositive(r.s.q, timeslice) && Pick(r.s.q, now, timeslice) == Halted(HeavyWeight)
  {
    var s, t := Sched([], None, 0), HeavyTask(id, weight).(release := now);
    assert Without([], id) == [];
    var u := Entering(t, 1, now, timeslice);
    assert UHrt([u]) == 0;
    assert Insert([], u) == [u];
    var r := Step(s, Properties(HeavyTask(id, weight), now), timeslice);
    assert r.s.q == [u];
    HeavyBudget(u, timeslice);
    assert FirstReleased([u], now) == 0;
  }

  lemma HeavyBudget(u: Task, timeslice: nat)
    requires u.typ.BestEffort? && u.weight > 0 && timeslice > 0
    ensures BudgetsPositive([u], timeslice)
  {
    SumsOne(u);
    assert Share(u.weight, u.weight, 0) == SPECTRUM by { Cancel(SPECTRUM, u.weight); }
    assert Budget(SPECTRUM, 1, timeslice) >= timeslice;
  }

  lemma Cancel(a: nat, b: nat)
    requires b > 0
    ensures a * b / b == a
  {
    var q, r := a * b / b, a * b % b;
    assert (a - q) * b == r;
    Scaled(a - q, b);
  }

  lemma Scaled(x: int, b: int)
    requires b >= 0
    ensures (x >= 1 ==> x * b >= b) && (x <= -1 ==> x * b <= -b)
  {}
}
