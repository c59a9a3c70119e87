/** The system is never overcommitted: hard load and best-effort shares together
    stay within the spectrum, over every run. */
module RbedLoad {
  import opened Wrappers
  import opened Rbed
  import opened RbedRuns

  /** What make_runnable admits: room for the best-effort minimum, no soft real-time
      tasks, positive periods and weights. */
  ghost predicate LoadOk(q: Queue) {
    && UHrt(q) + BETA <= SPECTRUM
    && WeightsOk(q)
    && forall t :: t in q ==> !t.typ.SoftRealtime? && (t.typ.HardRealtime? ==> t.period > 0)
  }

  // ---------- Shares and budgets ----------

  /** The shares of all best-effort tasks in `q`, for given totals. */
  function SumShares(q: Queue, wBe: nat, uHrt: nat): nat {
    if q == [] then 0
    else (if q[0].typ.BestEffort? then Share(q[0].weight, wBe, uHrt) else 0) + SumShares(q[1..], wBe, uHrt)
  }

  function SumBudgets(q: Queue, wBe: nat, uHrt: nat, n: nat, timeslice: nat): nat {
    if q == [] then 0
    else (if q[0].typ.BestEffort? then Budget(Share(q[0].weight, wBe, uHrt), n, timeslice) else 0)
         + SumBudgets(q[1..], wBe, uHrt, n, timeslice)
  }

  lemma ShareBound(weight: nat, wBe: nat, uHrt: nat)
    requires wBe > 0
    ensures Share(weight, wBe, uHrt) * wBe <= Max(BETA, SPECTRUM - uHrt) * weight
  {
    var x := Max(BETA, SPECTRUM - uHrt) * weight;
    assert x == (x / wBe) * wBe + x % wBe;
  }

  lemma {:induction false} SharesScaled(q: Queue, wBe: nat, uHrt: nat)
    requires wBe > 0
    ensures SumShares(q, wBe, uHrt) * wBe <= Max(BETA, SPECTRUM - uHrt) * WBe(q)
  {
    hide Share;
    if q != [] {
      var a := Max(BETA, SPECTRUM - uHrt);
      SharesScaled(q[1..], wBe, uHrt);
      var h, w := (if q[0].typ.BestEffort? then Share(q[0].weight, wBe, uHrt) else 0),
        (if q[0].typ.BestEffort? then q[0].weight else 0);
      ShareBound(q[0].weight, wBe, uHrt);
      assert h * wBe <= a * w;
      Distribute(h, SumShares(q[1..], wBe, uHrt), wBe);
      Distribute(w, WBe(q[1..]), a);
    }
  }

  lemma Distribute(a: int, b: int, c: int)
    ensures (a + b) * c == a * c + b * c && c * (a + b) == c * a + c * b
  {}

  lemma CancelFactor(a: nat, b: nat, c: nat)
    requires c > 0 && a * c <= b * c
    ensures a <= b
  {
  }

  /** The hard load and all best-effort shares fit into the spectrum, so neither of
      the two overload assertions can fail. */
  lemma NeverOvercommitted(q: Queue)
    requires LoadOk(q)
    ensures UHrt(q) + SumShares(q, WBe(q), UHrt(q)) <= SPECTRUM
    ensures forall t :: t in q && t.typ.BestEffort? ==> UHrt(q) + Share(t.weight, WBe(q), UHrt(q)) <= SPECTRUM
  {
    hide UHrt;
    hide Share;
    var w, u := WBe(q), UHrt(q);
    if w > 0 {
      SharesScaled(q, w, u);
      CancelFactor(SumShares(q, w, u), SPECTRUM - u, w);
    } else {
      NoWeightNoShares(q, u);
    }
    forall t | t in q && t.typ.BestEffort? ensures Share(t.weight, w, u) <= SumShares(q, w, u) {
      PartOfShares(q, w, u, t);
    }
  }

  lemma {:induction false} NoWeightNoShares(q: Queue, uHrt: nat)
    ensures SumShares(q, 0, uHrt) == 0
  {
    if q != [] { NoWeightNoShares(q[1..], uHrt); }
  }

  lemma {:induction false} PartOfShares(q: Queue, wBe: nat, uHrt: nat, t: Task)
    requires t in q && t.typ.BestEffort?
    ensures Share(t.weight, wBe, uHrt) <= SumShares(q, wBe, uHrt)
  {
    hide Share;
    if t != q[0] { PartOfShares(q[1..], wBe, uHrt, t); }
  }

  /** Rounding gives each budget at most half a tick more than its exact part. */
  lemma {:induction false} BudgetsRounded(q: Queue, wBe: nat, uHrt: nat, n: nat, timeslice: nat)
    ensures 2 * SPECTRUM * SumBudgets(q, wBe, uHrt, n, timeslice)
         <= 2 * (n * timeslice * SumShares(q, wBe, uHrt)) + NBe(q) * SPECTRUM
  {
    hide Share;
    hide Budget;
    if q != [] {
      BudgetsRounded(q[1..], wBe, uHrt, n, timeslice);
      if q[0].typ.BestEffort? {
        var h := Share(q[0].weight, wBe, uHrt);
        OneBudget(h, n, timeslice);
        Distribute(h, SumShares(q[1..], wBe, uHrt), n * timeslice);
      }
    }
  }

  lemma OneBudget(share: nat, n: nat, timeslice: nat)
    ensures 2 * SPECTRUM * Budget(share, n, timeslice) <= 2 * (n * timeslice * share) + SPECTRUM
  {
    var x := n * timeslice * share + SPECTRUM / 2;
    assert SPECTRUM * (x / SPECTRUM) <= x;
  }

  /** Nor is it more than half a tick less. */
  lemma {:induction false} BudgetsRoundedBelow(q: Queue, wBe: nat, uHrt: nat, n: nat, timeslice: nat)
    ensures 2 * SPECTRUM * SumBudgets(q, wBe, uHrt, n, timeslice) + NBe(q) * SPECTRUM
         >= 2 * (n * timeslice * SumShares(q, wBe, uHrt))
  {
    hide Share;
    hide Budget;
    if q != [] {
      BudgetsRoundedBelow(q[1..], wBe, uHrt, n, timeslice);
      if q[0].typ.BestEffort? {
        var h := Share(q[0].weight, wBe, uHrt);
        BudgetIsNearest(h, n, timeslice);
        Distribute(h, SumShares(q[1..], wBe, uHrt), n * timeslice);
      }
    }
  }

  /** All budgets together fall short of their part of the round by at most half a tick, and
      by the rounding of its share, for each best-effort task. */
  lemma BudgetsUseTheRound(q: Queue, timeslice: nat)
    requires LoadOk(q) && WBe(q) > 0
    ensures var n := NBe(q);
      2 * SPECTRUM * SumBudgets(q, WBe(q), UHrt(q), n, timeslice) + n * SPECTRUM + 2 * (n * timeslice * n)
        >= 2 * (n * timeslice * (SPECTRUM - UHrt(q)))
  {
    hide UHrt; hide WBe; hide NBe; hide Share; hide Budget; hide SumBudgets; hide SumShares; hide LoadOk;
    var n, shares := NBe(q), SumShares(q, WBe(q), UHrt(q));
    SharesUseTheRest(q);
    BudgetsRoundedBelow(q, WBe(q), UHrt(q), n, timeslice);
    MultiplyBound(n * timeslice, SPECTRUM - UHrt(q), shares + n);
    Distribute(shares, n, n * timeslice);
  }

  /** All budgets together exceed their part of the round of timeslices by at most
      half a tick per best-effort task. */
  lemma BudgetsFitTheRound(q: Queue, timeslice: nat)
    requires LoadOk(q)
    ensures 2 * SPECTRUM * SumBudgets(q, WBe(q), UHrt(q), NBe(q), timeslice)
         <= 2 * (NBe(q) * timeslice * (SPECTRUM - UHrt(q))) + NBe(q) * SPECTRUM
  {
    hide UHrt;
    hide WBe;
    hide NBe;
    hide Share;
    hide Budget;
    hide SumBudgets;
    hide SumShares;
    NeverOvercommitted(q);
    BudgetsRounded(q, WBe(q), UHrt(q), NBe(q), timeslice);
    MultiplyBound(NBe(q) * timeslice, SumShares(q, WBe(q), UHrt(q)), SPECTRUM - UHrt(q));
  }

  lemma MultiplyBound(a: nat, b: int, c: int)
    requires b <= c
    ensures a * b <= a * c
  {}

  /** A budget is the exact part of the round, rounded to the nearest tick. */
  lemma BudgetIsNearest(share: nat, n: nat, timeslice: nat)
    ensures var exact := n * timeslice * share;
      2 * exact - SPECTRUM < 2 * SPECTRUM * Budget(share, n, timeslice) <= 2 * exact + SPECTRUM
  {
    var x := n * timeslice * share + SPECTRUM / 2;
    assert x - SPECTRUM < SPECTRUM * (x / SPECTRUM) <= x;
  }

  /** What the hard load leaves over goes to the best-effort tasks, but for less than
      one unit of rounding for each of them. */
  lemma SharesUseTheRest(q: Queue)
    requires LoadOk(q) && WBe(q) > 0
    ensures SumShares(q, WBe(q), UHrt(q)) + NBe(q) > SPECTRUM - UHrt(q)
  {
    hide UHrt; hide Share;
    var w, u := WBe(q), UHrt(q);
    assert q != [];
    SharesScaledBelow(q, w, u);
    var a := SPECTRUM - u;
    assert (SumShares(q, w, u) + NBe(q)) * w > a * w;
    StrictFactor(a, SumShares(q, w, u) + NBe(q), w);
  }

  lemma StrictFactor(a: int, b: int, c: nat)
    requires a * c < b * c
    ensures a < b
  {}

  lemma ShareBelow(weight: nat, wBe: nat, uHrt: nat)
    requires wBe > 0
    ensures (Share(weight, wBe, uHrt) + 1) * wBe > Max(BETA, SPECTRUM - uHrt) * weight
  {
    var x := Max(BETA, SPECTRUM - uHrt) * weight;
    assert x == (x / wBe) * wBe + x % wBe;
  }

  lemma {:induction false} SharesScaledBelow(q: Queue, wBe: nat, uHrt: nat)
    requires wBe > 0
    ensures (SumShares(q, wBe, uHrt) + NBe(q)) * wBe >= Max(BETA, SPECTRUM - uHrt) * WBe(q)
    ensures WBe(q) > 0 ==> (SumShares(q, wBe, uHrt) + NBe(q)) * wBe > Max(BETA, SPECTRUM - uHrt) * WBe(q)
  {
    hide Share;
    if q != [] {
      var a := Max(BETA, SPECTRUM - uHrt);
      SharesScaledBelow(q[1..], wBe, uHrt);
      if q[0].typ.BestEffort? {
        var h := Share(q[0].weight, wBe, uHrt);
        ShareBelow(q[0].weight, wBe, uHrt);
        Distribute(h + 1, SumShares(q[1..], wBe, uHrt) + NBe(q[1..]), wBe);
        Distribute(q[0].weight, WBe(q[1..]), a);
        assert SumShares(q, wBe, uHrt) + NBe(q) == (h + 1) + (SumShares(q[1..], wBe, uHrt) + NBe(q[1..]));
      }
    }
  }

  // ---------- Over every run ----------

  lemma InsertLoad(q: Queue, t: Task)
    requires LoadOk(q) && UHrt(q) + UHrt([t]) + BETA <= SPECTRUM
    requires !t.typ.SoftRealtime? && (t.typ.HardRealtime? ==> t.period > 0) && (t.typ.BestEffort? ==> t.weight > 0)
    ensures LoadOk(Insert(q, t))
  {
    SumsInsert(q, t);
    InsertMembers(q, t);
  }

  lemma DropLoad(q: Queue, k: nat)
    requires LoadOk(q) && k < |q|
    ensures LoadOk(Drop(q, k))
  {
    SumsDrop(q, k);
    DropMembers(q, k);
  }

  lemma UpdateLoad(q: Queue, k: nat, t: Task)
    requires LoadOk(q) && k < |q| && t.typ == q[k].typ && t.weight == q[k].weight
    requires t.typ.HardRealtime? ==> t.wcet == q[k].wcet && t.period == q[k].period
    ensures LoadOk(q[k := t])
  {
    SameTarget(t, q[k]);
    SumsUpdate(q, k, t);
    assert q[k] in q;
  }

  /** A task that moves within the queue without changing its load. */
  lemma MoveLoad(q: Queue, k: nat, t: Task)
    requires LoadOk(q) && k < |q| && t.typ == q[k].typ && t.weight == q[k].weight
    requires t.typ.HardRealtime? ==> t.wcet == q[k].wcet && t.period == q[k].period
    ensures LoadOk(Insert(Drop(q, k), t))
  {
    hide UTarget;
    assert q[k] in q;
    DropLoad(q, k);
    SumsDrop(q, k);
    SumsOne(t);
    SumsOne(q[k]);
    SameTarget(t, q[k]);
    InsertLoad(Drop(q, k), t);
  }

  lemma {:induction false} PickLoad(q: Queue, now: nat, timeslice: nat)
    requires LoadOk(q) && BudgetsPositive(q, timeslice)
    ensures var r := Pick(q, now, timeslice); r.Picked? ==> LoadOk(r.queue)
    decreases Busy(q)
  {
    hide LoadOk;
    hide BudgetsPositive;
    hide UHrt;
    hide Budget;
    hide Share;
    var p := OnePass(q, now, timeslice);
    var k := FirstReleased(q, now);
    if p.Run? {
      UpdateLoad(q, k, Prepared(q, q[k], now, timeslice).(lastDispatch := now));
    } else if p.Again? {
      AgainGoesOn(q, now, timeslice);
      AgainLoad(q, now, timeslice);
      PickLoad(p.queue, now, timeslice);
    }
  }

  lemma MakeLoad(s: Sched, t: Task, now: nat, timeslice: nat)
    requires LoadOk(s.q)
    ensures var r := MakeRunnable(s, t, now, timeslice); r.Some? ==> LoadOk(r.value.q)
  {
    hide LoadOk;
    hide UTarget;
    var r := MakeRunnable(s, t, now, timeslice);
    if r.Some? && !Queued(s.q, t.id) {
      InsertLoad(s.q, Entering(t, NBe(s.q) + 1, now, timeslice));
    }
  }

  lemma AccountLoad(q: Queue, last: Option<nat>, now: nat)
    requires LoadOk(q)
    ensures LoadOk(Account(q, last, now))
  {
    hide LoadOk;
    if last.Some? && Queued(q, last.value) {
      var k := Position(q, last.value);
      UpdateLoad(q, k, Account(q, last, now)[k]);
      assert Account(q, last, now) == q[k := Account(q, last, now)[k]];
    }
  }

  lemma AgainLoad(q: Queue, now: nat, timeslice: nat)
    requires LoadOk(q) && OnePass(q, now, timeslice).Again?
    ensures LoadOk(OnePass(q, now, timeslice).queue)
  {
    hide LoadOk;
    hide UHrt;
    hide Budget;
    hide Share;
    var k := FirstReleased(q, now);
    MoveLoad(q, k, Recharged(Prepared(q, q[k], now, timeslice), now));
  }

  lemma StepLoad(s: Sched, op: Op, timeslice: nat)
    requires LoadOk(s.q) && (op.ScheduleOp? ==> BudgetsPositive(Account(s.q, s.last, op.now), timeslice))
    ensures var r := Step(s, op, timeslice); r.Next? ==> LoadOk(r.s.q)
  {
    hide LoadOk;
    hide BudgetsPositive;
    match op
    case Make(t, now) => MakeLoad(s, t, now, timeslice);
    case Leave(id) => if Queued(s.q, id) { DropLoad(s.q, Position(s.q, id)); }
    case Properties(t, now) =>
      if Queued(s.q, t.id) { DropLoad(s.q, Position(s.q, t.id)); }
      MakeLoad(Remove(s, t.id), if t.release == 0 then t.(release := now) else t, now, timeslice);
    case YieldOp(id, now) =>
      var k := Position(s.q, id);
      if k < |s.q| { MoveLoad(s.q, k, Yielded(s.q[k], now)); }
    case HurryOp(id, now) =>
      var k := Position(s.q, id);
      if k < |s.q| { UpdateLoad(s.q, k, Hurried(s.q[k], now)); }
    case ScheduleOp(now) =>
      AccountLoad(s.q, s.last, now);
      PickLoad(Account(s.q, s.last, now), now, timeslice);
  }

  /** Main result: whatever mixture of operations runs, the load stays admissible. */
  lemma {:induction false} RunsStayWithinTheSpectrum(s: Sched, ops: seq<Op>, timeslice: nat, s': Sched)
    requires LoadOk(s.q) && Runs(s, ops, timeslice, s')
    ensures LoadOk(s'.q)
    ensures UHrt(s'.q) + SumShares(s'.q, WBe(s'.q), UHrt(s'.q)) <= SPECTRUM
    decreases |ops|
  {
    hide LoadOk;
    hide BudgetsPositive;
    hide Step;
    if ops == [] {
      NeverOvercommitted(s.q);
    } else {
      StepLoad(s, ops[0], timeslice);
      RunsStayWithinTheSpectrum(Step(s, ops[0], timeslice).s, ops[1..], timeslice, s');
    }
  }

  // ---------- The load in fractions of the processor ----------

  ghost function Fraction(t: Task): real {
    if t.typ.HardRealtime? && t.period > 0 then t.wcet as real / t.period as real else 0.0
  }

  /** The part of the processor that the hard real-time tasks of `q` may use. */
  ghost function Utilisation(q: Queue): real {
    if q == [] then 0.0 else Fraction(q[0]) + Utilisation(q[1..])
  }

  function NHrt(q: Queue): nat {
    if q == [] then 0 else (if q[0].typ.HardRealtime? then 1 else 0) + NHrt(q[1..])
  }

  lemma TargetMeasures(t: Task)
    requires t.period > 0
    ensures var u := t.wcet as real / t.period as real;
      UTarget(t) as real <= u * 1000000.0 <= UTarget(t) as real + 1.0
  {
    var x, p, k := t.wcet * SPECTRUM, t.period, UTarget(t);
    var u := t.wcet as real / p as real;
    Quotient(x, p);
    Product(k, p);
    Product(k + 1, p);
    Divided(t.wcet as real, p as real);
    Scaled(k as real, u * 1000000.0, p as real);
    Scaled(u * 1000000.0, k as real + 1.0, p as real);
  }

  lemma Quotient(x: nat, p: nat)
    requires p > 0
    ensures (x / p) * p <= x <= (x / p + 1) * p
  {}

  lemma Product(k: int, p: int)
    ensures (k * p) as real == k as real * p as real
  {}

  lemma Divided(w: real, p: real)
    requires p > 0.0
    ensures w / p * 1000000.0 * p == w * 1000000.0
  {}

  lemma Scaled(a: real, b: real, p: real)
    requires p > 0.0 && a * p <= b * p
    ensures a <= b
  {}

  /** The counter of the hard load is the utilisation in millionths, rounded down for each
      task. */
  lemma {:induction false} LoadMeasures(q: Queue)
    requires forall t :: t in q && t.typ.HardRealtime? ==> t.period > 0
    ensures UHrt(q) as real <= Utilisation(q) * 1000000.0 <= UHrt(q) as real + NHrt(q) as real
  {
    hide UTarget;
    if q != [] {
      assert q[0] in q;
      LoadMeasures(q[1..]);
      if q[0].typ.HardRealtime? { TargetMeasures(q[0]); }
    }
  }

  /** So over every run the hard real-time tasks leave a tenth of the processor to the others,
      but for at most a millionth for each of them. */
  lemma HardTasksLeaveATenth(s: Sched, ops: seq<Op>, timeslice: nat, s': Sched)
    requires LoadOk(s.q) && Runs(s, ops, timeslice, s')
    ensures Utilisation(s'.q) <= 0.9 + NHrt(s'.q) as real / 1000000.0
  {
    hide UTarget;
    RunsStayWithinTheSpectrum(s, ops, timeslice, s');
    LoadMeasures(s'.q);
  }
}
