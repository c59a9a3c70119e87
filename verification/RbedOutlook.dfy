/** What schedule will do, read off the queue before the call: when it stops the kernel, for
    queues of one kind of task, and a condition under which it ends for any queue. */
module RbedOutlook {
  import opened Wrappers
  import opened Rbed
  import opened RbedRuns
  import opened RbedFair
  import opened RbedStops
  import opened RbedEnds

  // ---------- Best-effort queues ----------

  /** The task has used up the budget that it has in `q`. */
  predicate Spent(t: Task, q: Queue, timeslice: nat) { t.etime >= BudgetOf(t, q, timeslice) }

  /** The first task with budget left or too great a weight has too great a weight. */
  ghost predicate HeavyIsNext(q: Queue, timeslice: nat) {
    exists k :: 0 <= k < |q| && Heavy(q[k]) && forall i :: 0 <= i < k ==> !Heavy(q[i]) && Spent(q[i], q, timeslice)
  }

  /** `q'` is `q` with its light and spent head moved to the tail. */
  ghost predicate Turned(q: Queue, q': Queue, timeslice: nat) {
    && |q| == |q'| > 0 && !Heavy(q[0]) && Spent(q[0], q, timeslice) && !Heavy(q'[|q| - 1])
    && forall i :: 0 < i < |q| ==> q'[i - 1] == q[i] && (Spent(q'[i - 1], q', timeslice) <==> Spent(q[i], q, timeslice))
  }

  lemma TurnedKeeps(q: Queue, q': Queue, timeslice: nat)
    requires Turned(q, q', timeslice)
    ensures HeavyIsNext(q', timeslice) <==> HeavyIsNext(q, timeslice)
  {
    hide Heavy; hide Spent;
    if HeavyIsNext(q, timeslice) {
      var k :| 0 <= k < |q| && Heavy(q[k]) && forall i :: 0 <= i < k ==> !Heavy(q[i]) && Spent(q[i], q, timeslice);
      assert Heavy(q'[k - 1]);
      forall i | 0 <= i < k - 1
        ensures !Heavy(q'[i]) && Spent(q'[i], q', timeslice)
      {
        assert q'[i + 1 - 1] == q[i + 1];
      }
    }
    if HeavyIsNext(q', timeslice) {
      var k :| 0 <= k < |q'| && Heavy(q'[k]) && forall i :: 0 <= i < k ==> !Heavy(q'[i]) && Spent(q'[i], q', timeslice);
      assert q'[k + 1 - 1] == q[k + 1];
      assert Heavy(q[k + 1]);
    }
  }

  /** A restart does just that, and so does not change the answer. */
  lemma RestartTurns(q: Queue, now: nat, timeslice: nat)
    requires FairQueue(q, now) && OnePass(q, now, timeslice).Again?
    ensures Turned(q, OnePass(q, now, timeslice).queue, timeslice)
  {
    hide FairQueue; hide BudgetOf; hide OnePass; hide Insert; hide Tail;
    FairShape(q, now, timeslice);
    FairClaims(q, now, timeslice);
    var u := Tail(q, now, timeslice);
    MoveToTail(q, 0, u, now, now);
    var q' := Drop(q, 0) + [u];
    forall i | 0 < i < |q|
      ensures q'[i - 1] == q[i] && (Spent(q'[i - 1], q', timeslice) <==> Spent(q[i], q, timeslice))
    {
      assert q[i] in q;
    }
  }

  /** With best-effort tasks only, schedule stops on a weight if and only if a task with such
      a weight is queued and everything in front of it is light and has used up its budget. */
  lemma {:induction false} FairStopsIff(q: Queue, now: nat, timeslice: nat)
    requires FairQueue(q, now) && BudgetsPositive(q, timeslice)
    ensures Pick(q, now, timeslice) == Halted(HeavyWeight) <==> HeavyIsNext(q, timeslice)
    decreases Busy(q)
  {
    hide FairQueue; hide BudgetsPositive; hide BudgetOf; hide Busy;
    var p := OnePass(q, now, timeslice);
    if p.Again? {
      AgainGoesOn(q, now, timeslice);
      FairRestart(q, now, timeslice);
      RestartTurns(q, now, timeslice);
      TurnedKeeps(q, p.queue, timeslice);
      FairStopsIff(p.queue, now, timeslice);
    } else {
      FairEnd(q, now, timeslice);
    }
  }

  lemma FairEnd(q: Queue, now: nat, timeslice: nat)
    requires FairQueue(q, now) && !OnePass(q, now, timeslice).Again?
    ensures OnePass(q, now, timeslice) == Stop(HeavyWeight) <==> HeavyIsNext(q, timeslice)
  {
    hide FairQueue; hide WBe; hide NBe; hide UHrt; hide Share; hide Budget;
    if q != [] {
      Head(q, 0, now);
      assert FirstReleased(q, now) == 0;
    }
  }

  /** So a caller may give a dispatcher any weight from the limit on, and the next schedule
      stops the kernel if and only if every other task has used up its budget by then. */
  lemma HeavyStopsWhenReached(s: Sched, id: nat, weight: nat, now: nat, later: nat, timeslice: nat)
    requires FairQueue(s.q, s.clock) && s.clock <= now <= later && weight >= WEIGHT_LIMIT
    requires forall t :: t in s.q && t.id != id ==> !Heavy(t)
    ensures var r := Step(s, Properties(HeavyTask(id, weight), now), timeslice);
      && r.Next?
      && var q := Account(r.s.q, r.s.last, later);
         BudgetsPositive(q, timeslice) ==>
           (Pick(q, later, timeslice) == Halted(HeavyWeight) <==>
             forall t :: t in q && t.id != id ==> Spent(t, q, timeslice))
  {
    hide FairQueue; hide BudgetsPositive; hide BudgetOf; hide Pick; hide Account; hide Heavy;
    HeavyGoesLast(s, id, weight, now, timeslice);
    var r := Step(s, Properties(HeavyTask(id, weight), now), timeslice);
    AccountFair(r.s.q, r.s.last, now, later);
    AccountKeeps(r.s.q, r.s.last, later, id);
    var q := Account(r.s.q, r.s.last, later);
    if BudgetsPositive(q, timeslice) {
      FairStopsIff(q, later, timeslice);
      LastIsHeavy(q, later, id, timeslice);
    }
  }

  /** The last task, named `id`, and no other is heavy. */
  ghost predicate OnlyLastHeavy(q: Queue, id: nat) {
    q != [] && q[|q| - 1].id == id && Heavy(q[|q| - 1]) && forall i :: 0 <= i < |q| - 1 ==> !Heavy(q[i])
  }

  lemma {:induction false} FairLoad(q: Queue, clock: nat)
    requires FairQueue(q, clock)
    ensures UHrt(q) == 0
  {
    if q != [] {
      assert q[0] in q;
      DropFair(q, 0, clock);
      assert Drop(q, 0) == q[1..];
      FairLoad(q[1..], clock);
    }
  }

  lemma HeavyGoesLast(s: Sched, id: nat, weight: nat, now: nat, timeslice: nat)
    requires FairQueue(s.q, s.clock) && s.clock <= now && weight >= WEIGHT_LIMIT
    requires forall t :: t in s.q && t.id != id ==> !Heavy(t)
    ensures var r := Step(s, Properties(HeavyTask(id, weight), now), timeslice);
      r.Next? && FairQueue(r.s.q, now) && OnlyLastHeavy(r.s.q, id)
  {
    hide FairQueue; hide Insert; hide Position; hide Drop; hide Heavy; hide UHrt;
    var q1 := Without(s.q, id);
    assert FairQueue(q1, s.clock) && !Queued(q1, id) && forall t :: t in q1 ==> !Heavy(t)
      by { OthersAreLight(s.q, id, s.clock); }
    var u := Entering(HeavyTask(id, weight).(release := now), NBe(q1) + 1, now, timeslice);
    FairLoad(q1, s.clock);
    SumsOne(u);
    InsertAtTail(q1, u, s.clock);
    NotQueued(q1, id);
    AppendFair(q1, u, s.clock, now);
    IsHeavy(u);
    var r := Step(s, Properties(HeavyTask(id, weight), now), timeslice);
    assert r.Next? && r.s.q == q1 + [u];
    assert forall i :: 0 <= i < |q1| ==> r.s.q[i] in q1;
  }

  lemma IsHeavy(t: Task)
    requires t.typ.BestEffort? && t.weight >= WEIGHT_LIMIT
    ensures Heavy(t)
  {}

  lemma OthersAreLight(q: Queue, id: nat, clock: nat)
    requires FairQueue(q, clock) && forall t :: t in q && t.id != id ==> !Heavy(t)
    ensures FairQueue(Without(q, id), clock) && !Queued(Without(q, id), id)
    ensures forall t :: t in Without(q, id) ==> !Heavy(t)
  {
    hide FairQueue; hide Drop; hide Heavy;
    if Queued(q, id) {
      var k := Position(q, id);
      DropFair(q, k, clock);
      DropMembers(q, k);
      var r := Drop(q, k);
      assert forall i :: 0 <= i < |r| ==> r[i] in r;
    } else {
      NotQueued(q, id);
    }
  }

  lemma AccountKeeps(q: Queue, last: Option<nat>, now: nat, id: nat)
    requires OnlyLastHeavy(q, id)
    ensures OnlyLastHeavy(Account(q, last, now), id)
  {}

  lemma LastIsHeavy(q: Queue, clock: nat, id: nat, timeslice: nat)
    requires FairQueue(q, clock) && OnlyLastHeavy(q, id)
    ensures HeavyIsNext(q, timeslice) <==> forall t :: t in q && t.id != id ==> Spent(t, q, timeslice)
  {
    hide Spent; hide Heavy;
    var n := |q| - 1;
    assert forall t :: t in q && t.id != id <==> exists i :: 0 <= i < n && q[i] == t;
    if forall t :: t in q && t.id != id ==> Spent(t, q, timeslice) {
      assert forall i :: 0 <= i < n ==> q[i] in q && q[i].id != id;
      assert Heavy(q[n]);
    }
    if HeavyIsNext(q, timeslice) {
      forall t | t in q && t.id != id ensures Spent(t, q, timeslice) {
        var i :| 0 <= i < |q| && q[i] == t;
      }
    }
  }

  // ---------- Hard real-time queues ----------

  /** With hard real-time tasks only, schedule stops on a missed deadline if and only if the
      deadline of some queued task has passed. */
  lemma {:induction false} HardStopsIff(q: Queue, now: nat, timeslice: nat)
    requires HardQueue(q) && BudgetsPositive(q, timeslice)
    ensures Pick(q, now, timeslice) == Halted(MissedDeadline) <==> exists t :: t in q && Late(t, now)
    decreases Busy(q)
  {
    hide HardQueue; hide BudgetsPositive; hide Busy; hide OnePass; hide Late;
    var p := OnePass(q, now, timeslice);
    LateIsSelected(q, now, timeslice);
    if p.Again? {
      AgainGoesOn(q, now, timeslice);
      HardRestart(q, now, timeslice);
      RestartMembers(q, now, timeslice);
      var k := FirstReleased(q, now);
      InTime(q[k], now);
      assert forall t :: t in p.queue ==> !Late(t, now);
      HardStopsIff(p.queue, now, timeslice);
    }
  }

  lemma InTime(t: Task, now: nat)
    requires now <= t.Due()
    ensures !Late(Recharged(t, now), now)
  {}

  /** A late task is released and stands in front of everything that is not late. */
  lemma LateIsSelected(q: Queue, now: nat, timeslice: nat)
    requires HardQueue(q)
    ensures OnePass(q, now, timeslice) == Stop(MissedDeadline) <==> exists t :: t in q && Late(t, now)
  {
    hide Insert; hide Drop;
    if t :| t in q && Late(t, now) {
      var j :| 0 <= j < |q| && q[j] == t;
      assert q[0].Due() <= q[j].Due() && q[0] in q;
      assert FirstReleased(q, now) == 0;
    }
    var k := FirstReleased(q, now);
    if k < |q| { assert q[k] in q; }
  }

  // ---------- Hurried tasks ----------

  /** Without a late task schedule never stops on a missed deadline, whatever the queue. */
  lemma {:induction false} NoneLate(q: Queue, now: nat, timeslice: nat)
    requires BudgetsPositive(q, timeslice) && forall t :: t in q ==> !Late(t, now)
    ensures Pick(q, now, timeslice) != Halted(MissedDeadline)
    decreases Busy(q)
  {
    hide BudgetsPositive; hide Busy; hide WBe; hide NBe; hide UHrt; hide Share; hide Budget; hide Insert; hide Drop;
    var p, k := OnePass(q, now, timeslice), FirstReleased(q, now);
    if k < |q| { assert q[k] in q; }
    if p.Again? {
      AgainGoesOn(q, now, timeslice);
      DropMembers(q, k);
      InsertMembers(Drop(q, k), Recharged(Prepared(q, q[k], now, timeslice), now));
      NoneLate(p.queue, now, timeslice);
    }
  }

  /** The deadline of a hurried task: one tick after its release, or after the present if it
      was to be released later. */
  function HurriedDue(t: Task, now: nat): nat { (if t.release < now then t.release else now) + 1 }

  /** schedule_now moves the deadline of a task, so it can stop the kernel. If nothing else is
      late and nothing released stands in front of the task, the next schedule stops if and
      only if it comes later than one tick after the release, or after schedule_now. */
  lemma HurriedStopsIff(s: Sched, id: nat, now: nat, later: nat, timeslice: nat)
    requires Queued(s.q, id) && now <= later
    requires var k := Position(s.q, id);
      && s.q[k].typ.HardRealtime?
      && (forall i :: 0 <= i < |s.q| && i != k ==> !Late(s.q[i], later))
      && (forall i :: 0 <= i < k ==> s.q[i].release > later)
    requires BudgetsPositive(Account(Hurry(s, id, now).q, s.last, later), timeslice)
    ensures Pick(Account(Hurry(s, id, now).q, s.last, later), later, timeslice) == Halted(MissedDeadline) <==>
      later > HurriedDue(s.q[Position(s.q, id)], now)
  {
    hide BudgetsPositive;
    var k := Position(s.q, id);
    var q := Account(Hurry(s, id, now).q, s.last, later);
    HurriedFields(s, id, now, later);
    if later > HurriedDue(s.q[k], now) {
      assert FirstReleased(q, later) == k;
      assert OnePass(q, later, timeslice) == Stop(MissedDeadline);
    } else {
      forall t | t in q ensures !Late(t, later) {
        var i :| 0 <= i < |q| && q[i] == t;
      }
      NoneLate(q, later, timeslice);
    }
  }

  /** Accounting changes neither types nor times. */
  lemma HurriedFields(s: Sched, id: nat, now: nat, later: nat)
    requires Queued(s.q, id)
    ensures var q, k := Account(Hurry(s, id, now).q, s.last, later), Position(s.q, id);
      && |q| == |s.q|
      && (forall i :: 0 <= i < |q| ==> q[i].typ == s.q[i].typ)
      && (forall i :: 0 <= i < |q| && i != k ==> q[i].release == s.q[i].release && q[i].deadline == s.q[i].deadline)
      && q[k].Due() == HurriedDue(s.q[k], now) && q[k].release <= now
  {}

  /** A task that was made runnable in time, with its deadline far off: it would run, but once
      it is hurried the kernel stops. */
  lemma HurryStopsTheKernel(timeslice: nat)
    ensures var t := Task(0, HardRealtime, 0, 0, 0, 10, 100, 100, 0);
      && Runs(Sched([], None, 0), [Make(t, 0)], timeslice, Sched([t], None, 0))
      && BudgetsPositive([t], timeslice) && Pick([t], 5, timeslice) != Halted(MissedDeadline)
      && Step(Sched([t], None, 0), HurryOp(0, 5), timeslice) == Next(Sched([Hurried(t, 5)], None, 5), [])
      && BudgetsPositive([Hurried(t, 5)], timeslice) && Pick([Hurried(t, 5)], 5, timeslice) == Halted(MissedDeadline)
  {
    var t := Task(0, HardRealtime, 0, 0, 0, 10, 100, 100, 0);
    var s := Sched([t], None, 0);
    SumsOne(t);
    assert Insert([], t) == [t];
    assert MakeRunnable(Sched([], None, 0), t, 0, timeslice) == Some(s);
    assert [Make(t, 0)][1..] == [];
    assert s.q[0 := Hurried(t, 5)] == [Hurried(t, 5)];
    NoneLate([t], 5, timeslice);
    HurriedStopsIff(s, 0, 5, 5, timeslice);
  }

  // ---------- Waking blocked tasks ----------

  /** A dispatcher that is not queued can be made runnable if and only if its load fits and,
      if it is hard real-time, its period is positive and its release is not past. So a
      best-effort dispatcher always can, as long as the hard load is admissible. */
  lemma WakesIff(s: Sched, t: Task, now: nat, timeslice: nat)
    requires !Queued(s.q, t.id) && UHrt(s.q) + BETA <= SPECTRUM
    ensures MakeRunnable(s, t, now, timeslice).Some? <==>
      || t.typ.BestEffort?
      || (t.typ.HardRealtime? && t.period > 0 && now <= t.release && UHrt(s.q) + UTarget(t) + BETA <= SPECTRUM)
  {
    hide UHrt; hide Insert; hide Position;
    var u := Entering(t, NBe(s.q) + 1, now, timeslice);
    SumsOne(u);
    SameTarget(u, t);
  }

  lemma {:induction false} ClockGoesOn(s: Sched, ops: seq<Op>, timeslice: nat, s': Sched)
    requires Runs(s, ops, timeslice, s')
    ensures s.clock <= s'.clock
    decreases |ops|
  {
    hide BudgetsPositive; hide Pick; hide Account; hide Insert; hide Drop; hide Position; hide UHrt; hide NBe;
    if ops != [] { ClockGoesOn(Step(s, ops[0], timeslice).s, ops[1..], timeslice, s'); }
  }

  /** scheduler_remove leaves the release of a task alone. A hard real-time dispatcher that
      blocks after its release can therefore never be woken: whatever happens meanwhile, as
      long as its properties stay, making it runnable stops the kernel. */
  lemma BlockedForGood(s: Sched, id: nat, ops: seq<Op>, timeslice: nat, s': Sched, now: nat)
    requires Queued(s.q, id) && s.q[Position(s.q, id)].typ.HardRealtime? && s.q[Position(s.q, id)].release < s.clock
    requires Runs(Remove(s, id), ops, timeslice, s') && !Queued(s'.q, id) && s'.clock <= now
    ensures Step(s', Make(s.q[Position(s.q, id)], now), timeslice) == Halt
  {
    hide Runs; hide Position; hide UHrt; hide Insert; hide Without;
    ClockGoesOn(Remove(s, id), ops, timeslice, s');
  }

  // ---------- Queues of any kind ----------

  /** Selecting the task ends the loop at once. */
  predicate Ready(t: Task, q: Queue, now: nat, timeslice: nat) {
    Heavy(t) || Late(t, now) || t.etime < BudgetOf(t, q, timeslice)
  }

  /** The task at `p` is released and ready, and no released task without budget stands in
      front of it. */
  ghost predicate InSight(q: Queue, p: nat, now: nat, timeslice: nat) {
    && p < |q| && q[p].release <= now && Ready(q[p], q, now, timeslice)
    && forall i :: 0 <= i < p && q[i].release <= now ==>
      Ready(q[i], q, now, timeslice) || BudgetOf(q[i], q, timeslice) > 0
  }

  /** Mixed queues included: schedule ends if a released task that is ready to run, or to
      stop the kernel, is preceded by no released task without budget. */
  lemma {:induction false} InSightEnds(q: Queue, p: nat, now: nat, timeslice: nat)
    requires InSight(q, p, now, timeslice)
    ensures Ends(q, now, timeslice)
    decreases Busy(q)
  {
    hide InSight; hide Busy; hide OnePass; hide Ends;
    if !OnePass(q, now, timeslice).Again? {
      EndsNow(q, now, timeslice);
    } else {
      var p' := InSightStays(q, p, now, timeslice);
      InSightEnds(OnePass(q, now, timeslice).queue, p', now, timeslice);
      EndsLater(q, now, timeslice);
    }
  }

  lemma InSightStays(q: Queue, p: nat, now: nat, timeslice: nat) returns (p': nat)
    requires InSight(q, p, now, timeslice) && OnePass(q, now, timeslice).Again?
    ensures var q' := OnePass(q, now, timeslice).queue; InSight(q', p', now, timeslice) && Busy(q') < Busy(q)
  {
    hide Busy; hide BudgetOf; hide Spot; hide Prepared; hide Recharged; hide Ready;
    var k := FirstReleased(q, now);
    var u := Recharged(Prepared(q, q[k], now, timeslice), now);
    assert k <= p;
    SelectedIsBusy(q, now, timeslice);
    assert k < p;
    SameClaims(q, now, timeslice);
    var r := Drop(q, k);
    var q', j := Insert(r, u), Spot(r, u);
    BusyDrop(q, k);
    BusyInsert(r, u);
    BusyOne(q[k]);
    BusyOne(u);
    p' := if p - 1 < j then p - 1 else p;
    assert q'[p'] == q[p];
    forall i | 0 <= i < p' && q'[i].release <= now
      ensures Ready(q'[i], q', now, timeslice) || BudgetOf(q'[i], q', timeslice) > 0
    {
      if i < j { assert q'[i] == r[i]; } else if i == j { assert q'[i] == u; } else { assert q'[i] == r[i - 1]; }
    }
  }

  /** A restart selects a task with executed time, unless it has no budget. */
  lemma SelectedIsBusy(q: Queue, now: nat, timeslice: nat)
    requires OnePass(q, now, timeslice).Again?
    ensures var k := FirstReleased(q, now);
      var u := Recharged(Prepared(q, q[k], now, timeslice), now);
      && k < |q| && !Ready(q[k], q, now, timeslice) && q[k].etime >= BudgetOf(q[k], q, timeslice) && u.etime == 0
      && OnePass(q, now, timeslice).queue == Insert(Drop(q, k), u)
  {
    hide WBe; hide NBe; hide UHrt; hide Share; hide Budget; hide Insert; hide Drop;
  }

  lemma SameClaims(q: Queue, now: nat, timeslice: nat)
    requires FirstReleased(q, now) < |q|
    ensures var k := FirstReleased(q, now);
      var u := Recharged(Prepared(q, q[k], now, timeslice), now);
      var q' := Insert(Drop(q, k), u);
      && (forall t: Task :: BudgetOf(t, q', timeslice) == BudgetOf(t, q, timeslice))
      && (forall t: Task :: Ready(t, q', now, timeslice) <==> Ready(t, q, now, timeslice))
      && BudgetOf(u, q, timeslice) == BudgetOf(q[k], q, timeslice)
  {
    hide WBe; hide NBe; hide UHrt; hide Share; hide Budget; hide Insert; hide Drop;
    AgainSums(q, now, timeslice);
  }
}
