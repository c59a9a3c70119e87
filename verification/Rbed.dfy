/** The RBED scheduling policy as a function on the run queue: where a task is
    inserted, how the next one is picked, what best-effort tasks get. */
module Rbed {

  const SPECTRUM := 1000000
  const BETA := SPECTRUM / 10
  /** UINT_MAX / SPECTRUM, the weight from which on do_resource_allocation stops. */
  const WEIGHT_LIMIT := 0xFFFF_FFFF / SPECTRUM

  datatype TaskType = BestEffort | SoftRealtime | HardRealtime

  /** The scheduling fields of a dispatcher control block. */
  datatype Task = Task(id: nat, typ: TaskType, release: nat, etime: nat, lastDispatch: nat,
                       wcet: nat, period: nat, deadline: nat, weight: nat)
  {
    /** The absolute deadline. */
    function Due(): nat { release + deadline }
  }

  type Queue = seq<Task>

  // ---------- Load ----------

  function UTarget(t: Task): nat { if t.period == 0 then 0 else t.wcet * SPECTRUM / t.period }

  function WBe(q: Queue): nat {
    if q == [] then 0 else (if q[0].typ.BestEffort? then q[0].weight else 0) + WBe(q[1..])
  }

  function NBe(q: Queue): nat {
    if q == [] then 0 else (if q[0].typ.BestEffort? then 1 else 0) + NBe(q[1..])
  }

  function UHrt(q: Queue): nat {
    if q == [] then 0 else (if q[0].typ.HardRealtime? then UTarget(q[0]) else 0) + UHrt(q[1..])
  }

  function Max(a: int, b: int): int { if a > b then a else b }

  /** u_actual of a best-effort task: its weighted part of what is left over. The
      total weight is positive as soon as there is a best-effort task. */
  function Share(weight: nat, wBe: nat, uHrt: nat): (r: nat) {
    if wBe == 0 then 0 else Max(BETA, SPECTRUM - uHrt) * weight / wBe
  }

  /** The best-effort budget: the share of `n` timeslices, rounded to the nearest tick. */
  function Budget(share: nat, n: nat, timeslice: nat): (r: nat) {
    (n * timeslice * share + SPECTRUM / 2) / SPECTRUM
  }

  // ---------- The queue ----------

  /** queue_insert goes past `i` when looking for the place of `t`. */
  predicate Skips(t: Task, i: Task) {
    (t.typ.BestEffort? && t.release >= i.release) || t.Due() >= i.Due()
  }

  /** The place that queue_insert finds. */
  function Spot(q: Queue, t: Task): (k: nat)
    ensures k <= |q|
    ensures forall i :: 0 <= i < k ==> Skips(t, q[i])
    ensures k < |q| ==> !Skips(t, q[k])
  {
    if q == [] || !Skips(t, q[0]) then 0 else
      var k := Spot(q[1..], t) + 1;
      assert forall i :: 0 < i < k ==> q[i] == q[1..][i - 1];
      k
  }

  function Insert(q: Queue, t: Task): (r: Queue)
    ensures |r| == |q| + 1
  {
    var k := Spot(q, t);
    q[..k] + [t] + q[k..]
  }

  /** The position of a task, or the length of the queue. */
  function Position(q: Queue, id: nat): (k: nat)
    ensures k <= |q|
    ensures k < |q| ==> q[k].id == id
    ensures forall i :: 0 <= i < k ==> q[i].id != id
  {
    if q == [] || q[0].id == id then 0 else
      var k := Position(q[1..], id) + 1;
      assert forall i :: 0 < i < k ==> q[i] == q[1..][i - 1];
      k
  }

  predicate Queued(q: Queue, id: nat) { Position(q, id) < |q| }

  function Drop(q: Queue, k: nat): (r: Queue)
    requires k < |q|
  {
    q[..k] + q[k + 1..]
  }

  function Without(q: Queue, id: nat): Queue {
    if Queued(q, id) then Drop(q, Position(q, id)) else q
  }

  /** The first task that has been released. */
  function FirstReleased(q: Queue, now: nat): (k: nat)
    ensures k <= |q|
    ensures k < |q| ==> q[k].release <= now
    ensures forall i :: 0 <= i < k ==> q[i].release > now
  {
    if q == [] || q[0].release <= now then 0 else
      var k := FirstReleased(q[1..], now) + 1;
      assert forall i :: 0 < i < k ==> q[i] == q[1..][i - 1];
      k
  }

  // ---------- schedule ----------

  /** set_best_effort_wcet, and the new release of a task whose deadline has slipped
      into the past. Other tasks are left as they are. */
  function Prepared(q: Queue, t: Task, now: nat, timeslice: nat): (r: Task) {
    if !t.typ.BestEffort? then t
    else
      var span := NBe(q) * timeslice;
      var t1 := t.(wcet := Budget(Share(t.weight, WBe(q), UHrt(q)), NBe(q), timeslice), deadline := span,
        period := span);
      if t1.Due() < now then t1.(release := now) else t1
  }

  /** The task that has used up its budget, ready to be queued again. */
  function Recharged(t: Task, now: nat): Task {
    var t1 := if !t.typ.BestEffort? then (if now > t.release then t.(release := t.release + t.period) else t)
              else t.(release := now);
    t1.(etime := 0)
  }

  /** What stops the kernel in schedule: the assertion on the weight of a best-effort
      task, or a missed hard deadline. */
  datatype Reason = HeavyWeight | MissedDeadline

  predicate Heavy(t: Task) { t.typ.BestEffort? && t.weight >= WEIGHT_LIMIT }

  predicate Late(t: Task, now: nat) { t.typ.HardRealtime? && now > t.Due() }

  /** One pass from `start_over`: nothing to run, a stop, the task at position `k` to
      run, or another pass with a changed queue. */
  datatype Pass = Idle | Stop(why: Reason) | Run(queue: Queue, k: nat) | Again(queue: Queue)

  function OnePass(q: Queue, now: nat, timeslice: nat): (r: Pass) {
    var k := FirstReleased(q, now);
    if k == |q| then Idle
    else if Heavy(q[k]) then Stop(HeavyWeight)
    else
      var t := Prepared(q, q[k], now, timeslice);
      if Late(t, now) then Stop(MissedDeadline)
      else if t.etime < t.wcet then Run(q[k := t.(lastDispatch := now)], k)
      else Again(Insert(Drop(q, k), Recharged(t, now)))
  }

  /** make_runnable gives every best-effort task a positive weight. */
  ghost predicate WeightsOk(q: Queue) { forall t :: t in q && t.typ.BestEffort? ==> t.weight > 0 }

  /** So the assertion of do_resource_allocation holds for every queued task. */
  lemma {:induction false} WeightPositive(q: Queue, k: nat)
    requires WeightsOk(q) && k < |q|
    ensures q[k].typ.BestEffort? ==> WBe(q) > 0 && NBe(q) > 0
  {
    if k > 0 {
      assert WeightsOk(q[1..]);
      WeightPositive(q[1..], k - 1);
    }
  }

  // ---------- Sums over the queue ----------

  lemma {:induction false} SumsConcat(a: Queue, b: Queue)
    ensures WBe(a + b) == WBe(a) + WBe(b)
    ensures NBe(a + b) == NBe(a) + NBe(b)
    ensures UHrt(a + b) == UHrt(a) + UHrt(b)
  {
    hide UTarget;
    if a == [] {
      assert a + b == b;
    } else {
      assert (a + b)[1..] == a[1..] + b;
      SumsConcat(a[1..], b);
    }
  }

  /** What a task adds to the three counters. */
  lemma SumsOne(t: Task)
    ensures WBe([t]) == (if t.typ.BestEffort? then t.weight else 0)
    ensures NBe([t]) == (if t.typ.BestEffort? then 1 else 0)
    ensures UHrt([t]) == (if t.typ.HardRealtime? then UTarget(t) else 0)
  {
    hide UTarget;
  }

  lemma SumsInsert(q: Queue, t: Task)
    ensures WBe(Insert(q, t)) == WBe(q) + WBe([t])
    ensures NBe(Insert(q, t)) == NBe(q) + NBe([t])
    ensures UHrt(Insert(q, t)) == UHrt(q) + UHrt([t])
  {
    hide UTarget;
    hide WBe;
    hide NBe;
    hide UHrt;
    var k := Spot(q, t);
    assert q == q[..k] + q[k..];
    SumsConcat(q[..k], q[k..]);
    SumsConcat(q[..k], [t]);
    SumsConcat(q[..k] + [t], q[k..]);
  }

  lemma SumsDrop(q: Queue, k: nat)
    requires k < |q|
    ensures WBe(q) == WBe(Drop(q, k)) + WBe([q[k]])
    ensures NBe(q) == NBe(Drop(q, k)) + NBe([q[k]])
    ensures UHrt(q) == UHrt(Drop(q, k)) + UHrt([q[k]])
  {
    hide UTarget;
    hide WBe;
    hide NBe;
    hide UHrt;
    assert q == q[..k] + [q[k]] + q[k + 1..];
    SumsConcat(q[..k], [q[k]]);
    SumsConcat(q[..k] + [q[k]], q[k + 1..]);
    SumsConcat(q[..k], q[k + 1..]);
  }

  /** Changing fields other than type, weight and utilisation changes no counter. */
  lemma SumsUpdate(q: Queue, k: nat, t: Task)
    requires k < |q| && t.typ == q[k].typ && t.weight == q[k].weight
      && (t.typ.HardRealtime? ==> UTarget(t) == UTarget(q[k]))
    ensures WBe(q[k := t]) == WBe(q) && NBe(q[k := t]) == NBe(q) && UHrt(q[k := t]) == UHrt(q)
  {
    hide UTarget;
    SumsDrop(q, k);
    SumsDrop(q[k := t], k);
    assert Drop(q[k := t], k) == Drop(q, k);
    SumsOne(t);
    SumsOne(q[k]);
  }
}
