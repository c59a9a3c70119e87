/** Execution time: what a dispatched task is charged, when its turn ends, and how long a
    best-effort task waits for its own. */
module RbedTime {
  import opened Wrappers
  import opened Rbed
  import opened RbedRuns
  import opened RbedFair
  import opened Names

  // ---------- What is charged ----------

  /** At the start of schedule the task dispatched last is charged the time since it was
      dispatched or released, whichever came later; nobody else is charged anything, and
      nothing else changes. */
  lemma ChargedIs(q: Queue, last: Option<nat>, now: nat, k: nat)
    requires Unique(q) && k < |q|
    ensures var t, u := q[k], Account(q, last, now)[k];
      && u.(etime := t.etime) == t
      && u.etime - t.etime ==
        if last == Some(t.id) && t.release <= now && t.lastDispatch <= now
        then (if t.lastDispatch > t.release then now - t.lastDispatch else now - t.release)
        else 0
  {
    if last == Some(q[k].id) { assert Position(q, q[k].id) == k; }
  }

  // ---------- When a turn ends ----------

  /** The task at the head of the queue is the one dispatched last, at time `since`. */
  ghost predicate OnTurn(s: Sched, since: nat) {
    && s.q != [] && s.last == Some(s.q[0].id)
    && s.q[0].lastDispatch == since && s.q[0].release <= since <= s.clock
  }

  lemma HeadCharged(s: Sched, since: nat, now: nat)
    requires OnTurn(s, since) && s.clock <= now
    ensures Account(s.q, s.last, now) == s.q[0 := s.q[0].(etime := s.q[0].etime + now - since)]
  {
    assert Position(s.q, s.q[0].id) == 0;
  }

  lemma SameBudget(q: Queue, k: nat, t: Task, u: Task, timeslice: nat)
    requires k < |q| && t == q[k].(etime := t.etime)
    ensures BudgetOf(u, q[k := t], timeslice) == BudgetOf(u, q, timeslice)
  {
    hide UTarget; hide Budget; hide Share; hide WBe; hide NBe; hide UHrt;
    SameTarget(t, q[k]);
    SumsUpdate(q, k, t);
  }

  /** The next schedule, if it comes to its end, finds the task exhausted if and only if it
      has run for its budget or longer; otherwise the task runs on with what it has left. */
  lemma TurnEndsIff(s: Sched, since: nat, now: nat, timeslice: nat)
    requires FairQueue(s.q, s.clock) && OnTurn(s, since) && s.clock <= now
    requires BudgetsPositive(Account(s.q, s.last, now), timeslice)
    ensures var r, h := Step(s, ScheduleOp(now), timeslice), s.q[0];
      var used := h.etime + now - since;
      r.Next? ==>
        && (h.id in r.exhausted <==> used >= BudgetOf(h, s.q, timeslice))
        && (used < BudgetOf(h, s.q, timeslice) ==>
              r.exhausted == [] && OnTurn(r.s, now) && r.s.q[0].id == h.id && r.s.q[0].etime == used)
  {
    hide Budget; hide Share; hide WBe; hide NBe; hide UHrt; hide BudgetsPositive;
    var h, q := s.q[0], Account(s.q, s.last, now);
    HeadCharged(s, since, now);
    SameBudget(s.q, 0, q[0], h, timeslice);
    assert FirstReleased(q, now) == 0;
    Head(s.q, 0, s.clock);
    var t := Prepared(q, q[0], now, timeslice);
    assert t.wcet == BudgetOf(h, s.q, timeslice) && t.etime == h.etime + now - since;
    if OnePass(q, now, timeslice).Again? { AgainGoesOn(q, now, timeslice); }
  }

  /** After a schedule the head of the queue is on its turn, with its budget assigned and
      less than that used. */
  lemma TurnStarts(s: Sched, now: nat, timeslice: nat)
    requires FairQueue(s.q, s.clock) && s.clock <= now && s.q != []
    requires BudgetsPositive(Account(s.q, s.last, now), timeslice)
    ensures var r := Step(s, ScheduleOp(now), timeslice);
      r.Next? ==>
        && OnTurn(r.s, now) && r.s.q[0].wcet == BudgetOf(r.s.q[0], r.s.q, timeslice)
        && r.s.q[0].etime < r.s.q[0].wcet <= NBe(s.q) * timeslice
  {
    hide Budget; hide Share; hide WBe; hide NBe; hide UHrt; hide BudgetsPositive; hide Pick; hide FairQueue;
    var q := Account(s.q, s.last, now);
    AccountFair(s.q, s.last, s.clock, now);
    AccountSums(s.q, s.last, now);
    PickFair(q, now, timeslice);
    PickEnds(q, now, timeslice);
    OnlyBestEffort(q, now);
    PickedIsFit(q, now, timeslice);
    var r := Pick(q, now, timeslice);
    if r.Picked? {
      Head(r.queue, 0, now);
      assert FirstReleased(r.queue, now) == 0;
      BudgetBound(r.queue, 0, timeslice);
    }
  }

  lemma OnlyBestEffort(q: Queue, clock: nat)
    requires FairQueue(q, clock)
    ensures forall t :: t in q ==> !t.typ.SoftRealtime?
  {}

  lemma AccountSums(q: Queue, last: Option<nat>, now: nat)
    ensures NBe(Account(q, last, now)) == NBe(q)
  {
    hide UTarget; hide WBe; hide NBe; hide UHrt;
    if last.Some? && Queued(q, last.value) {
      var k := Position(q, last.value);
      var t := Account(q, last, now)[k];
      SameTarget(t, q[k]);
      SumsUpdate(q, k, t);
      assert Account(q, last, now) == q[k := t];
    }
  }

  // ---------- Budgets are bounded ----------

  lemma {:induction false} WeightInSum(q: Queue, k: nat)
    requires k < |q| && q[k].typ.BestEffort?
    ensures q[k].weight <= WBe(q)
  {
    if k > 0 { WeightInSum(q[1..], k - 1); }
  }

  lemma Quotient(a: nat, w: nat, total: nat)
    requires w <= total && total > 0
    ensures a * w / total <= a
  {
    AtMost(a, w, total);
    var p := a * w / total;
    assert p * total <= a * w;
    Cancel(p, a, total);
  }

  lemma AtMost(x: nat, y: nat, z: nat)
    requires y <= z
    ensures x * y <= x * z
  {}

  lemma Cancel(p: nat, a: nat, d: nat)
    requires d > 0 && p * d <= a * d
    ensures p <= a
  {}

  /** Nobody gets more than one timeslice for each best-effort task. */
  lemma BudgetBound(q: Queue, k: nat, timeslice: nat)
    requires k < |q| && q[k].typ.BestEffort?
    ensures BudgetOf(q[k], q, timeslice) <= NBe(q) * timeslice
  {
    hide UTarget; hide WBe; hide NBe; hide UHrt;
    WeightInSum(q, k);
    var share := Share(q[k].weight, WBe(q), UHrt(q));
    if WBe(q) > 0 { Quotient(Max(BETA, SPECTRUM - UHrt(q)), q[k].weight, WBe(q)); }
    assert share <= SPECTRUM;
    RoundedShare(NBe(q) * timeslice, share);
  }

  lemma RoundedShare(x: nat, share: nat)
    requires share <= SPECTRUM
    ensures (x * share + SPECTRUM / 2) / SPECTRUM <= x
  {
    AtMost(x, share, SPECTRUM);
    Rounded(x, x * share);
  }

  lemma Rounded(x: nat, y: nat)
    requires y <= x * SPECTRUM
    ensures (y + SPECTRUM / 2) / SPECTRUM <= x
  {}

  // ---------- From one schedule to the next ----------

  /** Whatever happens to others, the head of the queue stays on its turn. */
  lemma HeadStays(s: Sched, op: Op, since: nat, timeslice: nat)
    requires FairQueue(s.q, s.clock) && OnTurn(s, since) && BestEffortOp(op) && s.clock <= TimeOf(op, s.clock)
    requires !op.ScheduleOp? && (op.YieldOp? ==> !Queued(s.q, op.id)) && !Touches(op, s.q[0].id)
    requires Step(s, op, timeslice).Next?
    ensures var s', h := Step(s, op, timeslice).s, s.q[0];
      OnTurn(s', since) && s'.q[0].id == h.id && s'.q[0].etime == h.etime && s'.q[0].weight == h.weight
  {
    hide NBe; hide UHrt; hide WBe; hide FairQueue;
    Head(s.q, 0, s.clock);
    match op
    case Make(t, now) => MakeAtTail(s, t, now, timeslice);
    case Leave(id) =>
    case Properties(t, now) =>
      LeaveFair(s, t.id);
      MakeAtTail(Remove(s, t.id), if t.release == 0 then t.(release := now) else t, now, timeslice);
    case YieldOp(id, now) =>
    case HurryOp(id, now) =>
  }

  lemma MakeAtTail(s: Sched, t: Task, now: nat, timeslice: nat)
    requires FairQueue(s.q, s.clock) && t.typ.BestEffort? && s.clock <= now
    ensures var r := MakeRunnable(s, t, now, timeslice);
      r.Some? && s.q != [] ==> r.value.q != [] && r.value.q[0] == s.q[0] && r.value.last == s.last
  {
    hide NBe; hide UHrt; hide FairQueue;
    InsertAtTail(s.q, Entering(t, NBe(s.q) + 1, now, timeslice), s.clock);
  }

  /** Over any run without a schedule, in which the dispatched task neither yields nor
      leaves nor gets new properties: its turn goes on. */
  lemma {:induction false} TurnGoesOn(s: Sched, ops: seq<Op>, timeslice: nat, s': Sched, since: nat)
    requires FairQueue(s.q, s.clock) && OnTurn(s, since) && Runs(s, ops, timeslice, s')
    requires forall op :: op in ops ==>
      BestEffortOp(op) && !op.ScheduleOp? && !op.YieldOp? && !Touches(op, s.q[0].id)
    ensures FairQueue(s'.q, s'.clock) && OnTurn(s', since) && s.clock <= s'.clock
    ensures s'.q[0].id == s.q[0].id && s'.q[0].etime == s.q[0].etime && s'.q[0].weight == s.q[0].weight
    decreases |ops|
  {
    hide FairQueue; hide Step; hide OnTurn;
    if ops != [] {
      StepFair(s, ops[0], timeslice);
      HeadStays(s, ops[0], since, timeslice);
      TurnGoesOn(Step(s, ops[0], timeslice).s, ops[1..], timeslice, s', since);
    }
  }

  /** A best-effort task that is dispatched, and left alone until schedule is called again,
      is then found exhausted if and only if it has run for its budget or longer, unless
      that schedule stops the kernel. */
  lemma DispatchedForItsBudget(s: Sched, t0: nat, ops: seq<Op>, s': Sched, t1: nat, timeslice: nat)
    requires FairQueue(s.q, s.clock) && s.clock <= t0 && s.q != []
    requires BudgetsPositive(Account(s.q, s.last, t0), timeslice) && Step(s, ScheduleOp(t0), timeslice).Next?
    requires var s1 := Step(s, ScheduleOp(t0), timeslice).s;
      && s1.q != [] && Runs(s1, ops, timeslice, s')
      && forall op :: op in ops ==>
        BestEffortOp(op) && !op.ScheduleOp? && !op.YieldOp? && !Touches(op, s1.q[0].id)
    requires s'.clock <= t1 && BudgetsPositive(Account(s'.q, s'.last, t1), timeslice)
    ensures var s1, r := Step(s, ScheduleOp(t0), timeslice).s, Step(s', ScheduleOp(t1), timeslice);
      && s1.last == Some(s1.q[0].id)
      && (r.Next? ==>
            (s1.q[0].id in r.exhausted <==> s1.q[0].etime + (t1 - t0) >= BudgetOf(s1.q[0], s'.q, timeslice)))
  {
    hide FairQueue; hide Step; hide BudgetsPositive; hide Budget; hide Share;
    StepFair(s, ScheduleOp(t0), timeslice);
    TurnStarts(s, t0, timeslice);
    var s1 := Step(s, ScheduleOp(t0), timeslice).s;
    TurnGoesOn(s1, ops, timeslice, s', t0);
    TurnEndsIff(s', t0, t1, timeslice);
    Head(s1.q, 0, s1.clock);
    Head(s'.q, 0, s'.clock);
  }

  // ---------- How long a task waits ----------

  /** Throughout a run `x` waits: it neither yields nor leaves, and schedule neither picks
      it nor finds it exhausted. Meanwhile schedule is called again within `gap` ticks
      each time, the last time at `since`; of those queued, only the task dispatched last
      yields; and there are at most `n` best-effort tasks. */
  ghost predicate Waits(s: Sched, ops: seq<Op>, timeslice: nat, s': Sched, x: nat, since: nat, gap: nat, n: nat)
    requires Runs(s, ops, timeslice, s')
    decreases |ops|
  {
    ops == [] || (
      var op, r := ops[0], Step(s, ops[0], timeslice);
      && BestEffortOp(op) && !Touches(op, x) && x !in r.exhausted
      && TimeOf(op, s.clock) <= since + gap
      && (op.YieldOp? ==> s.last == Some(op.id) || !Queued(s.q, op.id))
      && (op.ScheduleOp? ==> r.s.last != Some(x) && NBe(s.q) <= n)
      && Waits(r.s, ops[1..], timeslice, s', x, if op.ScheduleOp? then op.now else since, gap, n))
  }

  /** The head of the queue, not `x`, is on its turn and has used at most `b` ticks. */
  ghost predicate AheadOf(s: Sched, since: nat, x: nat, b: nat) {
    OnTurn(s, since) && s.q[0].id != x && s.q[0].etime <= b
  }

  /** How much longer `x` can wait at most, counted from the last schedule. */
  ghost function Left(s: Sched, x: nat, b: nat, gap: nat, ahead: bool): int
    requires ahead ==> s.q != []
  {
    var turns := Position(s.q, x) * (b + gap);
    if ahead then turns - s.q[0].etime else turns + gap
  }

  lemma Product(p: nat, k: nat, c: nat)
    ensures (p + k) * c == p * c + k * c && (k > 0 ==> k * c >= c)
  {}

  lemma {:induction false} WaitsNoLonger(s: Sched, ops: seq<Op>, timeslice: nat, s': Sched, x: nat, since: nat,
      gap: nat, n: nat, ahead: bool)
    requires FairQueue(s.q, s.clock) && Queued(s.q, x) && since <= s.clock <= since + gap
    requires ahead ==> AheadOf(s, since, x, n * timeslice)
    requires Runs(s, ops, timeslice, s') && Waits(s, ops, timeslice, s', x, since, gap, n)
    ensures s'.clock <= since + Left(s, x, n * timeslice, gap, ahead)
    decreases |ops|
  {
    hide FairQueue; hide Step; hide BudgetsPositive; hide AheadOf; hide Left; hide Touches;
    if ops == [] {
      EnoughLeft(s, x, since, n * timeslice, gap, ahead);
    } else {
      var op, r := ops[0], Step(s, ops[0], timeslice);
      StepFair(s, op, timeslice);
      if op.ScheduleOp? {
        ScheduleTakesTime(s, op.now, timeslice, x, since, gap, n, ahead);
        WaitsNoLonger(r.s, ops[1..], timeslice, s', x, op.now, gap, n, true);
      } else {
        var ahead' := OthersTakeTime(s, op, timeslice, x, since, gap, n, ahead);
        WaitsNoLonger(r.s, ops[1..], timeslice, s', x, since, gap, n, ahead');
      }
    }
  }

  lemma EnoughLeft(s: Sched, x: nat, since: nat, b: nat, gap: nat, ahead: bool)
    requires ahead ==> AheadOf(s, since, x, b)
    ensures Left(s, x, b, gap, ahead) >= gap
  {
    var p := Position(s.q, x);
    if ahead { Product(0, p, b + gap); }
  }

  lemma ScheduleTakesTime(s: Sched, now: nat, timeslice: nat, x: nat, since: nat, gap: nat, n: nat, ahead: bool)
    requires FairQueue(s.q, s.clock) && Queued(s.q, x) && since <= s.clock <= now <= since + gap && NBe(s.q) <= n
    requires ahead ==> AheadOf(s, since, x, n * timeslice)
    requires BudgetsPositive(Account(s.q, s.last, now), timeslice)
    requires var r := Step(s, ScheduleOp(now), timeslice); r.Next? && x !in r.exhausted && r.s.last != Some(x)
    ensures var s' := Step(s, ScheduleOp(now), timeslice).s;
      && AheadOf(s', now, x, n * timeslice)
      && now + Left(s', x, n * timeslice, gap, true) <= since + Left(s, x, n * timeslice, gap, ahead)
  {
    hide FairQueue; hide Step; hide BudgetsPositive; hide NBe; hide Budget; hide Share; hide Position;
    var r, b := Step(s, ScheduleOp(now), timeslice), n * timeslice;
    StepFair(s, ScheduleOp(now), timeslice);
    TurnStarts(s, now, timeslice);
    Larger(NBe(s.q), n, timeslice);
    Product(Position(r.s.q, x), |r.exhausted|, b + gap);
    if ahead { TurnEndsIff(s, since, now, timeslice); }
  }

  lemma Larger(m: nat, n: nat, c: nat)
    requires m <= n
    ensures m * c <= n * c
  {}

  lemma OthersTakeTime(s: Sched, op: Op, timeslice: nat, x: nat, since: nat, gap: nat, n: nat, ahead: bool)
      returns (ahead': bool)
    requires FairQueue(s.q, s.clock) && Queued(s.q, x) && !op.ScheduleOp?
    requires ahead ==> AheadOf(s, since, x, n * timeslice)
    requires BestEffortOp(op) && !Touches(op, x) && s.clock <= TimeOf(op, s.clock)
    requires (op.YieldOp? ==> s.last == Some(op.id) || !Queued(s.q, op.id)) && Step(s, op, timeslice).Next?
    ensures var s' := Step(s, op, timeslice).s;
      && (ahead' ==> AheadOf(s', since, x, n * timeslice))
      && Left(s', x, n * timeslice, gap, ahead') <= Left(s, x, n * timeslice, gap, ahead)
  {
    hide FairQueue; hide Step;
    StepFair(s, op, timeslice);
    NoneExhausted(s, op, timeslice);
    var s', b := Step(s, op, timeslice).s, n * timeslice;
    Product(Position(s'.q, x), EndsTurn(s.q, op, x), b + gap);
    ahead' := ahead && !Touches(op, s.q[0].id);
    if ahead' {
      HeadStays(s, op, since, timeslice);
    } else if ahead {
      assert EndsTurn(s.q, op, x) == 1;
    }
  }

  lemma NoneExhausted(s: Sched, op: Op, timeslice: nat)
    requires !op.ScheduleOp? && Step(s, op, timeslice).Next?
    ensures Step(s, op, timeslice).exhausted == []
  {}

  /** Main result on waiting: wherever a best-effort task stands in the queue, it is picked
      after at most one budget and one gap between schedules for each task in front of it,
      and one more gap. A budget is at most one timeslice for each best-effort task. */
  lemma ReachedInTime(s: Sched, ops: seq<Op>, timeslice: nat, s': Sched, x: nat, gap: nat, n: nat)
    requires FairQueue(s.q, s.clock) && Queued(s.q, x) && Runs(s, ops, timeslice, s')
    requires Waits(s, ops, timeslice, s', x, s.clock, gap, n)
    ensures s'.clock <= s.clock + Position(s.q, x) * (n * timeslice + gap) + gap
  {
    WaitsNoLonger(s, ops, timeslice, s', x, s.clock, gap, n, false);
  }
}
