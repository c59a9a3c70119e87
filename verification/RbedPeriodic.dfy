/** Hard real-time tasks are periodic: nothing but a change of their properties and
    schedule_now changes their parameters, and otherwise they are released whole periods
    apart. When schedule_now does not matter is stated exactly. */
module RbedPeriodic {
  import opened Wrappers
  import opened Rbed
  import opened RbedRuns

  function ReleaseAfter(t: Task, k: nat): nat { t.release + k * t.period }

  /** The same task, some periods later. */
  ghost predicate Advanced(a: Task, b: Task) {
    && b.id == a.id && b.typ == a.typ && b.wcet == a.wcet && b.period == a.period && b.deadline == a.deadline
    && exists k: nat :: b.release == ReleaseAfter(a, k)
  }

  /** Every hard real-time task named `x` in the second queue was in the first one. */
  ghost predicate Stems(q: Queue, q': Queue, x: nat) {
    forall t :: t in q' && t.id == x && t.typ.HardRealtime? ==> exists a :: a in q && Advanced(a, t)
  }

  lemma AdvancedBy(a: Task, b: Task, k: nat)
    requires b.id == a.id && b.typ == a.typ && b.wcet == a.wcet && b.period == a.period && b.deadline == a.deadline
    requires b.release == ReleaseAfter(a, k)
    ensures Advanced(a, b)
  {}

  lemma MorePeriods(a: Task, b: Task, i: nat, j: nat)
    requires b.release == ReleaseAfter(a, i) && b.period == a.period
    ensures ReleaseAfter(b, j) == ReleaseAfter(a, i + j)
  {
    assert i * a.period + j * a.period == (i + j) * a.period;
  }

  lemma AdvancedTwice(a: Task, b: Task, c: Task)
    requires Advanced(a, b) && Advanced(b, c)
    ensures Advanced(a, c)
  {
    hide ReleaseAfter;
    var i: nat :| b.release == ReleaseAfter(a, i);
    var j: nat :| c.release == ReleaseAfter(b, j);
    MorePeriods(a, b, i, j);
    AdvancedBy(a, c, i + j);
  }

  lemma StemsFromItself(q: Queue, x: nat)
    ensures Stems(q, q, x)
  {
    forall t | t in q ensures Advanced(t, t) { AdvancedBy(t, t, 0); }
  }

  lemma StemsTwice(q: Queue, q': Queue, q'': Queue, x: nat)
    requires Stems(q, q', x) && Stems(q', q'', x)
    ensures Stems(q, q'', x)
  {
    hide Advanced;
    forall t | t in q'' && t.id == x && t.typ.HardRealtime? ensures exists a :: a in q && Advanced(a, t) {
      var b :| b in q' && Advanced(b, t);
      assert b.id == x && b.typ.HardRealtime? by { AdvancedMeans(b, t); }
      var a :| a in q && Advanced(a, b);
      AdvancedTwice(a, b, t);
    }
  }

  lemma AdvancedMeans(a: Task, b: Task)
    requires Advanced(a, b)
    ensures b.id == a.id && b.typ == a.typ
  {}

  /** It is enough that each task stayed, or is the successor of one that was there. */
  lemma StemsOne(q: Queue, q': Queue, k: nat, u: Task, x: nat)
    requires k < |q| && (forall t :: t in q' ==> t in q || t == u)
    requires u.typ.HardRealtime? ==> Advanced(q[k], u)
    ensures Stems(q, q', x)
  {
    hide Advanced;
    StemsFromItself(q, x);
    assert q[k] in q;
  }

  lemma PreparedAdvances(q: Queue, t: Task, now: nat, timeslice: nat)
    ensures var p := Prepared(q, t, now, timeslice);
      t.typ.HardRealtime? ==> Advanced(t, p.(lastDispatch := now)) && Advanced(t, Recharged(p, now))
    ensures Prepared(q, t, now, timeslice).typ == t.typ
  {
    var p := Prepared(q, t, now, timeslice);
    if t.typ.HardRealtime? {
      AdvancedBy(t, p.(lastDispatch := now), 0);
      AdvancedBy(t, Recharged(p, now), if now > t.release then 1 else 0);
    }
  }

  lemma {:induction false} PickStems(q: Queue, now: nat, timeslice: nat, x: nat)
    requires BudgetsPositive(q, timeslice)
    ensures var r := Pick(q, now, timeslice); r.Picked? ==> Stems(q, r.queue, x)
    decreases Busy(q)
  {
    hide BudgetsPositive; hide Busy; hide Stems; hide Advanced; hide Prepared; hide Recharged; hide Insert; hide Drop;
    var p := OnePass(q, now, timeslice);
    var k := FirstReleased(q, now);
    if p.Idle? {
      StemsFromItself(q, x);
    } else {
      PreparedAdvances(q, q[k], now, timeslice);
      var t := Prepared(q, q[k], now, timeslice);
      if p.Run? {
        StemsOne(q, p.queue, k, t.(lastDispatch := now), x);
      } else if p.Again? {
        AgainGoesOn(q, now, timeslice);
        RechargedType(t, now);
        InsertMembers(Drop(q, k), Recharged(t, now));
        DropMembers(q, k);
        StemsOne(q, p.queue, k, Recharged(t, now), x);
        PickStems(p.queue, now, timeslice, x);
        StemsTwiceIf(q, p.queue, Pick(p.queue, now, timeslice), x);
      }
    }
  }

  lemma RechargedType(t: Task, now: nat)
    ensures Recharged(t, now).typ == t.typ
  {}

  lemma StemsTwiceIf(q: Queue, q': Queue, r: Picked, x: nat)
    requires Stems(q, q', x) && (r.Picked? ==> Stems(q', r.queue, x))
    ensures r.Picked? ==> Stems(q, r.queue, x)
  {
    if r.Picked? { StemsTwice(q, q', r.queue, x); }
  }

  lemma AccountStems(q: Queue, last: Option<nat>, now: nat, x: nat)
    ensures Stems(q, Account(q, last, now), x)
  {
    hide Stems; hide Advanced;
    StemsFromItself(q, x);
    if last.Some? && Queued(q, last.value) {
      var k := Position(q, last.value);
      var u := Account(q, last, now)[k];
      AdvancedBy(q[k], u, 0);
      StemsOne(q, Account(q, last, now), k, u, x);
    }
  }

  /** The operation sets the properties of `x`, or hurries it where that matters. */
  ghost predicate Touches(q: Queue, op: Op, x: nat) {
    || ((op.Make? || op.Properties?) && op.t.id == x)
    || (op.HurryOp? && op.id == x && !Harmless(q, x, op.now))
  }

  /** A hard real-time task with deadline one that is not released in the future. */
  ghost predicate Harmless(q: Queue, x: nat, now: nat) {
    Queued(q, x) ==>
      var t := q[Position(q, x)];
      t.typ.HardRealtime? ==> t.deadline == 1 && t.release <= now
  }

  /** schedule_now leaves a task as it is exactly then: it never moves a release back by
      whole periods, let alone forward. */
  lemma HurriedAdvancesIff(t: Task, now: nat)
    ensures Advanced(t, Hurried(t, now)) <==> t.deadline == 1 && t.release <= now
  {
    if t.deadline == 1 && t.release <= now { AdvancedBy(t, Hurried(t, now), 0); }
  }

  lemma HurryStems(s: Sched, id: nat, now: nat, x: nat)
    requires id == x ==> Harmless(s.q, x, now)
    ensures Stems(s.q, Hurry(s, id, now).q, x)
  {
    hide Advanced;
    StemsFromItself(s.q, x);
    var k := Position(s.q, id);
    if k < |s.q| && id == x {
      HurriedAdvancesIff(s.q[k], now);
      StemsOne(s.q, Hurry(s, id, now).q, k, Hurried(s.q[k], now), x);
    }
  }

  /** And where it matters, the hurried task is no longer the old one some periods later. */
  lemma HurryStemsIff(s: Sched, x: nat, now: nat, timeslice: nat)
    requires forall i, j :: 0 <= i < j < |s.q| ==> s.q[i].id != s.q[j].id
    ensures var r := Step(s, HurryOp(x, now), timeslice); r.Next? && (Stems(s.q, r.s.q, x) <==> Harmless(s.q, x, now))
  {
    hide Advanced;
    if Harmless(s.q, x, now) {
      HurryStems(s, x, now, x);
    } else {
      var k := Position(s.q, x);
      var t, q' := s.q[k], Hurry(s, x, now).q;
      HurriedAdvancesIff(t, now);
      assert q'[k] in q' && q'[k].id == x && q'[k].typ.HardRealtime?;
      forall a | a in s.q && Advanced(a, q'[k]) ensures a == t {
        AdvancedMeans(a, q'[k]);
      }
    }
  }

  lemma MakeStems(s: Sched, t: Task, now: nat, timeslice: nat, x: nat)
    requires t.id != x
    ensures var r := MakeRunnable(s, t, now, timeslice); r.Some? ==> Stems(s.q, r.value.q, x)
  {
    hide Advanced; hide Insert; hide UHrt; hide NBe;
    var t1 := Entering(t, NBe(s.q) + 1, now, timeslice);
    InsertMembers(s.q, t1);
    StemsFromItself(s.q, x);
  }

  lemma RemoveStems(s: Sched, id: nat, x: nat)
    ensures Stems(s.q, Remove(s, id).q, x)
  {
    hide Advanced; hide Drop;
    StemsFromItself(s.q, x);
    if Queued(s.q, id) { DropMembers(s.q, Position(s.q, id)); }
  }

  lemma StepStems(s: Sched, op: Op, timeslice: nat, x: nat)
    requires !Touches(s.q, op, x) && (op.ScheduleOp? ==> BudgetsPositive(Account(s.q, s.last, op.now), timeslice))
    ensures var r := Step(s, op, timeslice); r.Next? ==> Stems(s.q, r.s.q, x)
  {
    hide Stems; hide Advanced; hide BudgetsPositive; hide MakeRunnable; hide Remove; hide Insert; hide Drop;
    hide Account; hide Pick; hide Hurry;
    match op
    case Make(t, now) => MakeStems(s, t, now, timeslice, x);
    case Leave(id) => RemoveStems(s, id, x);
    case Properties(t, now) =>
      var t1 := if t.release == 0 then t.(release := now) else t;
      RemoveStems(s, t.id, x);
      MakeStems(Remove(s, t.id), t1, now, timeslice, x);
      var r := MakeRunnable(Remove(s, t.id), t1, now, timeslice);
      if r.Some? { StemsTwice(s.q, Remove(s, t.id).q, r.value.q, x); }
    case YieldOp(id, now) =>
      StemsFromItself(s.q, x);
      var k := Position(s.q, id);
      if k < |s.q| {
        var u := Yielded(s.q[k], now);
        if u.typ.HardRealtime? { AdvancedBy(s.q[k], u, 1); }
        InsertMembers(Drop(s.q, k), u);
        DropMembers(s.q, k);
        StemsOne(s.q, Insert(Drop(s.q, k), u), k, u, x);
      }
    case HurryOp(id, now) => HurryStems(s, id, now, x);
    case ScheduleOp(now) =>
      AccountStems(s.q, s.last, now, x);
      PickStems(Account(s.q, s.last, now), now, timeslice, x);
      StemsTwiceIf(s.q, Account(s.q, s.last, now), Pick(Account(s.q, s.last, now), now, timeslice), x);
  }

  /** During the run no operation touches `x`. */
  ghost predicate Undisturbed(s: Sched, ops: seq<Op>, timeslice: nat, s': Sched, x: nat)
    requires Runs(s, ops, timeslice, s')
    decreases |ops|
  {
    ops != [] ==> !Touches(s.q, ops[0], x) && Undisturbed(Step(s, ops[0], timeslice).s, ops[1..], timeslice, s', x)
  }

  /** Over every run that neither sets its properties nor hurries it where that matters, a
      hard real-time task keeps its execution time, period and deadline, and its release is
      whole periods later. */
  lemma {:induction false} ReleasesArePeriodic(s: Sched, ops: seq<Op>, timeslice: nat, s': Sched, x: nat)
    requires Runs(s, ops, timeslice, s') && Undisturbed(s, ops, timeslice, s', x)
    ensures Stems(s.q, s'.q, x)
    decreases |ops|
  {
    hide Stems; hide Step; hide BudgetsPositive; hide Touches;
    if ops == [] {
      StemsFromItself(s.q, x);
    } else {
      var n := Step(s, ops[0], timeslice).s;
      StepStems(s, ops[0], timeslice, x);
      ReleasesArePeriodic(n, ops[1..], timeslice, s', x);
      StemsTwice(s.q, n.q, s'.q, x);
    }
  }
}
