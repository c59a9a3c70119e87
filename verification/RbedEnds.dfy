/** When the loop of schedule ends, without assuming positive budgets: exactly, for queues
    of best-effort tasks and for queues of hard real-time tasks. */
module RbedEnds {
  import opened Wrappers
  import opened Rbed
  import opened RbedRuns
  import opened RbedFair
  import opened RbedStops
  import opened Names

  /** The pass after `n` restarts, or the last one if there are fewer. */
  function PassNo(q: Queue, now: nat, timeslice: nat, n: nat): Pass
    decreases n
  {
    var p := OnePass(q, now, timeslice);
    if n == 0 || !p.Again? then p else PassNo(p.queue, now, timeslice, n - 1)
  }

  /** schedule comes to an end, by a choice or by stopping the kernel. */
  ghost predicate Ends(q: Queue, now: nat, timeslice: nat) { exists n: nat :: !PassNo(q, now, timeslice, n).Again? }

  lemma EndsNow(q: Queue, now: nat, timeslice: nat)
    requires !OnePass(q, now, timeslice).Again?
    ensures Ends(q, now, timeslice)
  {
    assert !PassNo(q, now, timeslice, 0).Again?;
  }

  lemma EndsLater(q: Queue, now: nat, timeslice: nat)
    requires OnePass(q, now, timeslice).Again? && Ends(OnePass(q, now, timeslice).queue, now, timeslice)
    ensures Ends(q, now, timeslice)
  {
    hide OnePass;
    var n: nat :| !PassNo(OnePass(q, now, timeslice).queue, now, timeslice, n).Again?;
    assert PassNo(q, now, timeslice, n + 1) == PassNo(OnePass(q, now, timeslice).queue, now, timeslice, n);
  }

  // ---------- Best-effort queues ----------

  /** Selecting the task ends the loop, sooner or later. */
  predicate Useful(t: Task, q: Queue, timeslice: nat) { BudgetOf(t, q, timeslice) > 0 || Heavy(t) }

  /** One restart of a best-effort queue. */
  lemma FairRestart(q: Queue, now: nat, timeslice: nat)
    requires FairQueue(q, now) && OnePass(q, now, timeslice).Again?
    ensures var q' := OnePass(q, now, timeslice).queue;
      && FairQueue(q', now) && q != [] && !Heavy(q[0])
      && Busy(q') + (if q[0].etime > 0 then 1 else 0) == Busy(q)
      && q[0].etime >= BudgetOf(q[0], q, timeslice)
      && (forall x :: x != q[0].id && Queued(q, x) && Position(q, x) > 0 ==>
            Queued(q', x) && Position(q', x) == Position(q, x) - 1 && BudgetsAgree(q, q', x, timeslice))
      && Queued(q', q[0].id) && BudgetsAgree(q, q', q[0].id, timeslice)
  {
    hide FairQueue; hide Busy; hide OnePass; hide BudgetOf; hide Position; hide Drop; hide Insert;
    FairShape(q, now, timeslice);
    FairBusy(q, now, timeslice);
    var u, q' := Tail(q, now, timeslice), OnePass(q, now, timeslice).queue;
    TailPositions(q, now, u);
    FairClaims(q, now, timeslice);
    forall x | x != q[0].id && Queued(q, x) && Position(q, x) > 0
      ensures Queued(q', x) && Position(q', x) == Position(q, x) - 1 && BudgetsAgree(q, q', x, timeslice)
    {
      assert q[Position(q, x)] in q;
    }
  }

  /** What the selected head of a best-effort queue becomes. */
  function Tail(q: Queue, now: nat, timeslice: nat): Task
    requires q != []
  {
    Recharged(Prepared(q, q[0], now, timeslice), now)
  }

  lemma FairShape(q: Queue, now: nat, timeslice: nat)
    requires FairQueue(q, now) && OnePass(q, now, timeslice).Again?
    ensures q != [] && !Heavy(q[0]) && q[0].etime >= BudgetOf(q[0], q, timeslice)
    ensures var u := Tail(q, now, timeslice);
      && u.id == q[0].id && u.typ == q[0].typ && u.typ.BestEffort? && u.weight == q[0].weight && u.etime == 0
        && u.release == now
      && OnePass(q, now, timeslice).queue == Insert(Drop(q, 0), u)
  {
    hide FairQueue; hide WBe; hide NBe; hide UHrt; hide Share; hide Budget; hide Insert; hide Drop;
    assert q != [];
    Head(q, 0, now);
    assert FirstReleased(q, now) == 0;
  }

  lemma FairBusy(q: Queue, now: nat, timeslice: nat)
    requires q != [] && Tail(q, now, timeslice).etime == 0
    ensures Busy(Insert(Drop(q, 0), Tail(q, now, timeslice))) + (if q[0].etime > 0 then 1 else 0) == Busy(q)
  {
    hide Busy; hide Tail; hide Drop; hide Insert;
    BusyDrop(q, 0);
    BusyInsert(Drop(q, 0), Tail(q, now, timeslice));
    BusyOne(q[0]);
    BusyOne(Tail(q, now, timeslice));
  }

  /** Totals are the same, so claims are. */
  lemma FairClaims(q: Queue, now: nat, timeslice: nat)
    requires FairQueue(q, now) && q != []
    ensures var q' := Insert(Drop(q, 0), Tail(q, now, timeslice));
      && (forall t: Task :: t.typ.BestEffort? ==> BudgetOf(t, q', timeslice) == BudgetOf(t, q, timeslice))
      && (forall t: Task, u: Task :: t.typ.BestEffort? && u.typ.BestEffort? && t.weight == u.weight ==>
        BudgetOf(t, q, timeslice) == BudgetOf(u, q, timeslice))
      && (forall t :: t in q ==> t.typ.BestEffort?)
  {
    hide WBe; hide NBe; hide UHrt; hide Share; hide Budget; hide Insert; hide Drop; hide Prepared; hide Recharged;
    assert q[0] in q && FirstReleased(q, now) == 0;
    AgainSums(q, now, timeslice);
  }

  lemma TailPositions(q: Queue, now: nat, u: Task)
    requires FairQueue(q, now) && q != [] && u.id == q[0].id && u.typ.BestEffort? && u.release == now
    ensures var q' := Insert(Drop(q, 0), u);
      && FairQueue(q', now)
      && (forall x :: x != u.id && Queued(q, x) && Position(q, x) > 0 ==>
            Queued(q', x) && Position(q', x) == Position(q, x) - 1 && q'[Position(q', x)] == q[Position(q, x)])
      && Queued(q', u.id) && q'[Position(q', u.id)] == u
  {
    hide FairQueue; hide Position;
    MoveToTail(q, 0, u, now, now);
    var q' := Insert(Drop(q, 0), u);
    assert q' == Drop(q, 0) + [u];
    NoneLeft(q, now);
    LastPosition(Drop(q, 0), u);
    forall x | x != u.id && Queued(q, x) && Position(q, x) > 0
      ensures Queued(q', x) && Position(q', x) == Position(q, x) - 1 && q'[Position(q', x)] == q[Position(q, x)]
    {
      assert q'[Position(q, x) - 1] == q[Position(q, x)];
    }
  }

  /** The task named `x` has the same claim in both queues. */
  ghost predicate BudgetsAgree(q: Queue, q': Queue, x: nat, timeslice: nat) {
    Queued(q, x) && Queued(q', x) ==>
      var t, t' := q[Position(q, x)], q'[Position(q', x)];
      (Heavy(t) <==> Heavy(t')) && BudgetOf(t, q, timeslice) == BudgetOf(t', q', timeslice)
  }

  lemma NoneLeft(q: Queue, clock: nat)
    requires FairQueue(q, clock) && q != []
    ensures !Queued(Drop(q, 0), q[0].id)
  {
    DropFair(q, 0, clock);
    assert forall i :: 0 <= i < |Drop(q, 0)| ==> Drop(q, 0)[i] in Drop(q, 0);
  }

  lemma LastPosition(q: Queue, u: Task)
    requires !Queued(q, u.id)
    ensures Position(q + [u], u.id) == |q|
  {
    var r := q + [u];
    assert r[|q|] == u;
    assert forall i :: 0 <= i < |q| ==> r[i] == q[i];
  }

  lemma {:induction false} UsefulEnds(q: Queue, now: nat, timeslice: nat, x: nat)
    requires FairQueue(q, now) && Queued(q, x) && Useful(q[Position(q, x)], q, timeslice)
    ensures Ends(q, now, timeslice)
    decreases Busy(q), Position(q, x)
  {
    hide FairQueue; hide Busy; hide OnePass; hide BudgetOf; hide Ends; hide Position;
    var p := OnePass(q, now, timeslice);
    if !p.Again? {
      EndsNow(q, now, timeslice);
    } else {
      FairRestart(q, now, timeslice);
      FirstIsZero(q, x);
      UsefulEnds(p.queue, now, timeslice, x);
      EndsLater(q, now, timeslice);
    }
  }

  lemma FirstIsZero(q: Queue, x: nat)
    requires Queued(q, x)
    ensures Position(q, x) == 0 <==> q[0].id == x
  {}

  lemma UselessRestarts(q: Queue, now: nat, timeslice: nat)
    requires FairQueue(q, now) && q != [] && !Useful(q[0], q, timeslice)
    ensures OnePass(q, now, timeslice).Again?
  {
    hide FairQueue; hide WBe; hide NBe; hide UHrt; hide Share; hide Budget; hide Insert; hide Drop;
    Head(q, 0, now);
    assert FirstReleased(q, now) == 0;
  }

  lemma {:induction false} UselessGoesOn(q: Queue, now: nat, timeslice: nat, n: nat)
    requires FairQueue(q, now) && q != [] && forall t :: t in q ==> !Useful(t, q, timeslice)
    ensures PassNo(q, now, timeslice, n).Again?
    decreases n
  {
    hide FairQueue; hide OnePass; hide BudgetOf; hide Insert; hide Drop; hide Tail;
    var p := OnePass(q, now, timeslice);
    assert q[0] in q;
    UselessRestarts(q, now, timeslice);
    if n > 0 {
      FairShape(q, now, timeslice);
      FairRestart(q, now, timeslice);
      FairClaims(q, now, timeslice);
      InsertMembers(Drop(q, 0), Tail(q, now, timeslice));
      DropMembers(q, 0);
      UselessGoesOn(p.queue, now, timeslice, n - 1);
    }
  }

  /** For a queue of best-effort tasks schedule ends if and only if the queue is empty or
      some task has a positive budget, or a weight that stops the kernel. */
  lemma BestEffortEndsIff(q: Queue, now: nat, timeslice: nat)
    requires FairQueue(q, now)
    ensures Ends(q, now, timeslice) <==> q == [] || exists t :: t in q && Useful(t, q, timeslice)
  {
    hide FairQueue; hide BudgetOf;
    if q == [] {
      EndsNow(q, now, timeslice);
    } else if t :| t in q && Useful(t, q, timeslice) {
      NamedHere(q, now, t);
      UsefulEnds(q, now, timeslice, t.id);
    } else {
      forall n: nat ensures PassNo(q, now, timeslice, n).Again? { UselessGoesOn(q, now, timeslice, n); }
    }
  }

  lemma NamedHere(q: Queue, clock: nat, t: Task)
    requires FairQueue(q, clock) && t in q
    ensures Queued(q, t.id) && q[Position(q, t.id)] == t
  {
    var i :| 0 <= i < |q| && q[i] == t;
  }

  // ---------- Hard real-time queues ----------

  ghost predicate HardQueue(q: Queue) {
    ByDeadline(q) && Unique(q) && forall t :: t in q ==> t.typ.HardRealtime? && t.period > 0
  }

  /** The deadline under which selecting the task ends the loop: at once, because it runs
      or is late, or after its executed time has been reset. */
  function Exit(t: Task, now: nat): Option<nat> {
    if t.release > now then None
    else if now > t.Due() then Some(t.Due())
    else if t.wcet == 0 then None
    else if t.etime < t.wcet || t.release == now then Some(t.Due())
    else if t.release + t.period <= now then Some(t.Due() + t.period)
    else None
  }

  /** The deadline under which a task without budget is selected for ever: its releases
      hit the present time. */
  function Trap(t: Task, now: nat): Option<nat> {
    if t.period > 0 && t.wcet == 0 && t.release <= now <= t.Due() && (now - t.release) % t.period == 0
      then Some(now + t.deadline) else None
  }

  /** Being selected and queued again changes neither. */
  lemma RestartKeepsFate(t: Task, now: nat)
    requires t.typ.HardRealtime? && t.period > 0 && t.release <= now <= t.Due() && t.etime >= t.wcet
    ensures var u := Recharged(t, now);
      Exit(u, now) == Exit(t, now) && Trap(u, now) == Trap(t, now) && u.typ == t.typ && u.period == t.period
        && u.id == t.id
  {
    if t.release < now {
      OnePeriodLess(now - t.release, t.period);
    }
  }

  lemma OnePeriodLess(d: int, p: nat)
    requires d > 0 && p > 0
    ensures d >= p ==> (d - p) % p == d % p
    ensures d < p ==> d % p != 0
  {
    if d >= p {
      var q, r := d / p, d % p;
      assert d - p == (q - 1) * p + r;
      ModUnique(d - p, q - 1, p, r);
    } else {
      ModUnique(d, 0, p, d);
    }
  }

  lemma ModUnique(x: int, q: int, p: nat, r: int)
    requires p > 0 && x == q * p + r && 0 <= r < p
    ensures x % p == r
  {
    var q', r' := x / p, x % p;
    assert (q - q') * p == r' - r;
    Scaled(q - q', p);
  }

  /** One restart of a hard real-time queue. */
  lemma HardRestart(q: Queue, now: nat, timeslice: nat)
    requires HardQueue(q) && OnePass(q, now, timeslice).Again?
    ensures var k := FirstReleased(q, now);
      && k < |q| && q[k].release <= now <= q[k].Due() && q[k].etime >= q[k].wcet && q[k].typ.HardRealtime?
        && q[k].period > 0
      && OnePass(q, now, timeslice).queue == Insert(Drop(q, k), Recharged(q[k], now))
      && HardQueue(OnePass(q, now, timeslice).queue)
  {
    hide ByDeadline; hide Unique; hide Insert; hide Drop;
    var k := FirstReleased(q, now);
    assert q[k] in q;
    var u := Recharged(q[k], now);
    DropSorted(q, k);
    InsertSorted(Drop(q, k), u);
    MoveNames(q, k, u);
    DropMembers(q, k);
    InsertMembers(Drop(q, k), u);
  }

  /** What the tasks of a queue have in store is the same after a restart. */
  lemma RestartMembers(q: Queue, now: nat, timeslice: nat)
    requires HardQueue(q) && OnePass(q, now, timeslice).Again?
    ensures var q', k := OnePass(q, now, timeslice).queue, FirstReleased(q, now);
      k < |q| && (forall t :: t in q' ==> t == Recharged(q[k], now) || t in q)
        && (forall t :: t in q ==> t == q[k] || t in q')
      && Recharged(q[k], now) in q'
  {
    hide HardQueue; hide Insert; hide Drop;
    HardRestart(q, now, timeslice);
    var k := FirstReleased(q, now);
    DropMembers(q, k);
    InsertMembers(Drop(q, k), Recharged(q[k], now));
  }

  // ----- Trapped for ever

  ghost predicate Trapped(q: Queue, now: nat, s: nat) {
    && HardQueue(q)
    && (exists z :: z in q && Trap(z, now) == Some(s))
    && (forall t :: t in q && Exit(t, now).Some? ==> Exit(t, now).value > s)
  }

  lemma NotPrepared(q: Queue, now: nat, timeslice: nat)
    requires HardQueue(q)
    ensures forall t :: t in q ==> Prepared(q, t, now, timeslice) == t
  {}

  lemma TrappedRestarts(q: Queue, now: nat, timeslice: nat, s: nat)
    requires Trapped(q, now, s)
    ensures OnePass(q, now, timeslice).Again?
  {
    hide Unique; hide Prepared; hide Insert; hide Drop;
    NotPrepared(q, now, timeslice);
    var z :| z in q && Trap(z, now) == Some(s);
    var j :| 0 <= j < |q| && q[j] == z;
    var k := FirstReleased(q, now);
    assert k <= j && q[k] in q && q[k].Due() <= z.Due() <= s;
  }

  lemma TrappedStays(q: Queue, now: nat, timeslice: nat, s: nat)
    requires Trapped(q, now, s) && OnePass(q, now, timeslice).Again?
    ensures Trapped(OnePass(q, now, timeslice).queue, now, s)
  {
    hide HardQueue; hide Exit; hide Trap; hide Recharged; hide OnePass;
    var q', k := OnePass(q, now, timeslice).queue, FirstReleased(q, now);
    HardRestart(q, now, timeslice);
    RestartMembers(q, now, timeslice);
    RestartKeepsFate(q[k], now);
    var u := Recharged(q[k], now);
    assert q[k] in q && u in q';
    var z :| z in q && Trap(z, now) == Some(s);
    assert (if z == q[k] then u else z) in q' && Trap(if z == q[k] then u else z, now) == Some(s);
  }

  lemma {:induction false} TrappedGoesOn(q: Queue, now: nat, timeslice: nat, s: nat, n: nat)
    requires Trapped(q, now, s)
    ensures PassNo(q, now, timeslice, n).Again?
    decreases n
  {
    hide Trapped; hide OnePass;
    TrappedRestarts(q, now, timeslice, s);
    if n > 0 {
      TrappedStays(q, now, timeslice, s);
      TrappedGoesOn(OnePass(q, now, timeslice).queue, now, timeslice, s, n - 1);
    }
  }

  // ----- Coming to an end

  /** How far the releases lag behind the present. */
  function Lag(q: Queue, now: nat): nat {
    if q == [] then 0 else (if q[0].release <= now then now - q[0].release + 1 else 0) + Lag(q[1..], now)
  }

  lemma {:induction false} LagConcat(a: Queue, b: Queue, now: nat)
    ensures Lag(a + b, now) == Lag(a, now) + Lag(b, now)
  {
    if a == [] {
      assert a + b == b;
    } else {
      assert (a + b)[1..] == a[1..] + b;
      LagConcat(a[1..], b, now);
    }
  }

  lemma LagInsert(q: Queue, t: Task, now: nat)
    ensures Lag(Insert(q, t), now) == Lag(q, now) + Lag([t], now)
  {
    hide Lag; hide Spot;
    var k := Spot(q, t);
    assert q == q[..k] + q[k..];
    LagConcat(q[..k], q[k..], now);
    LagConcat(q[..k], [t], now);
    LagConcat(q[..k] + [t], q[k..], now);
  }

  lemma LagDrop(q: Queue, k: nat, now: nat)
    requires k < |q|
    ensures Lag(q, now) == Lag(Drop(q, k), now) + Lag([q[k]], now)
  {
    hide Lag;
    assert q == q[..k] + [q[k]] + q[k + 1..];
    LagConcat(q[..k], [q[k]], now);
    LagConcat(q[..k] + [q[k]], q[k + 1..], now);
    LagConcat(q[..k], q[k + 1..], now);
  }

  lemma LagOne(t: Task, now: nat)
    ensures Lag([t], now) == if t.release <= now then now - t.release + 1 else 0
  {}

  /** A restart lets a release catch up, or resets an executed time, or changes nothing
      but the place of a trapped task. */
  lemma RestartProgress(q: Queue, now: nat, timeslice: nat)
    requires HardQueue(q) && OnePass(q, now, timeslice).Again?
    ensures var q', k := OnePass(q, now, timeslice).queue, FirstReleased(q, now);
      || Lag(q', now) < Lag(q, now)
      || (Lag(q', now) == Lag(q, now) && Busy(q') < Busy(q))
      || (Lag(q', now) == Lag(q, now) && Busy(q') == Busy(q) && k < |q| && Recharged(q[k], now) == q[k]
          && Trap(q[k], now) == Some(q[k].Due()) && Exit(q[k], now) == None)
  {
    hide HardQueue; hide OnePass; hide Insert; hide Drop; hide Lag; hide Busy;
    HardRestart(q, now, timeslice);
    var k := FirstReleased(q, now);
    var u := Recharged(q[k], now);
    LagDrop(q, k, now);
    LagInsert(Drop(q, k), u, now);
    LagOne(q[k], now);
    LagOne(u, now);
    BusyDrop(q, k);
    BusyInsert(Drop(q, k), u);
    BusyOne(q[k]);
    BusyOne(u);
    assert q[k].release == now ==> (now - q[k].release) % q[k].period == 0;
  }

  /** No trap is ahead of the exit of `x`. */
  ghost predicate Leads(q: Queue, now: nat, x: nat) {
    forall z :: z in q && Trap(z, now).Some? ==>
      Queued(q, x) && Exit(q[Position(q, x)], now).Some? && Exit(q[Position(q, x)], now).value <= Trap(z, now).value
  }

  /** The task named `x` after a restart. */
  lemma SameName(q: Queue, now: nat, timeslice: nat, x: nat)
    requires HardQueue(q) && OnePass(q, now, timeslice).Again? && Queued(q, x)
    ensures var q', k := OnePass(q, now, timeslice).queue, FirstReleased(q, now);
      && k < |q| && Queued(q', x)
      && q'[Position(q', x)] == if Position(q, x) == k then Recharged(q[k], now) else q[Position(q, x)]
  {
    hide OnePass; hide Insert; hide Drop; hide Position; hide ByDeadline;
    RestartMembers(q, now, timeslice);
    HardRestart(q, now, timeslice);
    var q', k := OnePass(q, now, timeslice).queue, FirstReleased(q, now);
    var i := Position(q, x);
    RestartKeepsFate(q[k], now);
    var t := if i == k then Recharged(q[k], now) else q[i];
    assert q[i] in q;
    assert i != k ==> q[i] != q[k];
    assert t in q' && t.id == x;
    Unnamed(q', t);
  }

  lemma Unnamed(q: Queue, t: Task)
    requires Unique(q) && t in q
    ensures Queued(q, t.id) && q[Position(q, t.id)] == t
  {
    var i :| 0 <= i < |q| && q[i] == t;
  }

  lemma LeadsStays(q: Queue, now: nat, timeslice: nat, x: nat)
    requires HardQueue(q) && OnePass(q, now, timeslice).Again? && Leads(q, now, x)
    ensures Leads(OnePass(q, now, timeslice).queue, now, x)
  {
    hide HardQueue; hide OnePass; hide Exit; hide Trap; hide Recharged; hide Position;
    var q', k := OnePass(q, now, timeslice).queue, FirstReleased(q, now);
    RestartMembers(q, now, timeslice);
    HardRestart(q, now, timeslice);
    RestartKeepsFate(q[k], now);
    assert q[k] in q;
    forall z' | z' in q' && Trap(z', now).Some?
      ensures Queued(q', x) && Exit(q'[Position(q', x)], now).Some?
        && Exit(q'[Position(q', x)], now).value <= Trap(z', now).value
    {
      var z := if z' == Recharged(q[k], now) then q[k] else z';
      assert z in q && Trap(z, now) == Trap(z', now);
      SameName(q, now, timeslice, x);
    }
  }

  /** While a trapped task circles, the task that leads comes nearer to the head. */
  lemma LeaderComesNearer(q: Queue, now: nat, timeslice: nat, x: nat)
    requires HardQueue(q) && OnePass(q, now, timeslice).Again? && Leads(q, now, x)
    requires var k := FirstReleased(q, now);
      k < |q| && Recharged(q[k], now) == q[k] && Trap(q[k], now) == Some(q[k].Due()) && Exit(q[k], now) == None
    ensures var q' := OnePass(q, now, timeslice).queue;
      Queued(q, x) && Queued(q', x) && Position(q', x) < Position(q, x)
  {
    hide OnePass; hide Position; hide HardQueue; hide Insert; hide Drop; hide Exit; hide Trap; hide Recharged;
    hide Leads;
    HardRestart(q, now, timeslice);
    var q', k := OnePass(q, now, timeslice).queue, FirstReleased(q, now);
    LeaderIsLevel(q, now, k, x);
    var i := Position(q, x);
    CircleBehind(q, k, i) by { HardIsSorted(q); }
    AtMost(q', i - 1, x);
  }

  lemma HardIsSorted(q: Queue)
    requires HardQueue(q)
    ensures ByDeadline(q)
  {}

  lemma LeaderIsLevel(q: Queue, now: nat, k: nat, x: nat)
    requires HardQueue(q) && Leads(q, now, x) && k == FirstReleased(q, now) < |q|
    requires Trap(q[k], now) == Some(q[k].Due()) && Exit(q[k], now) == None
    ensures Queued(q, x) && k < Position(q, x) && q[Position(q, x)].Due() == q[k].Due()
  {
    hide Position; hide Trap; hide Unique;
    assert q[k] in q;
    var i := Position(q, x);
    assert q[i].release <= now && i != k;
  }

  lemma CircleBehind(q: Queue, k: nat, i: nat)
    requires ByDeadline(q) && k < i < |q| && q[k].typ.HardRealtime? && q[i].Due() == q[k].Due()
    ensures |Insert(Drop(q, k), q[k])| == |q| && Insert(Drop(q, k), q[k])[i - 1] == q[i]
  {
    hide Spot;
    var r, u := Drop(q, k), q[k];
    DropSorted(q, k);
    InsertSorted(r, u);
    assert r[i - 1] == q[i];
  }

  lemma AtMost(q: Queue, i: nat, x: nat)
    requires i < |q| && q[i].id == x
    ensures Position(q, x) <= i
  {}

  lemma {:induction false} LeaderEnds(q: Queue, now: nat, timeslice: nat, x: nat)
    requires HardQueue(q) && Leads(q, now, x)
    ensures Ends(q, now, timeslice)
    decreases Lag(q, now), Busy(q), Position(q, x)
  {
    hide HardQueue; hide OnePass; hide Leads; hide Ends; hide Lag; hide Busy; hide Position; hide Exit; hide Trap;
    hide Recharged;
    var p := OnePass(q, now, timeslice);
    if !p.Again? {
      EndsNow(q, now, timeslice);
    } else {
      HardRestart(q, now, timeslice);
      RestartProgress(q, now, timeslice);
      LeadsStays(q, now, timeslice, x);
      if Lag(p.queue, now) == Lag(q, now) && Busy(p.queue) == Busy(q) { LeaderComesNearer(q, now, timeslice, x); }
      LeaderEnds(p.queue, now, timeslice, x);
      EndsLater(q, now, timeslice);
    }
  }

  /** The task with the earliest exit, if there is any. */
  lemma {:induction false} Earliest(q: Queue, now: nat) returns (m: Option<Task>)
    ensures m.None? ==> forall t :: t in q ==> Exit(t, now).None?
    ensures m.Some? ==>
      && m.value in q && Exit(m.value, now).Some?
      && forall t :: t in q && Exit(t, now).Some? ==> Exit(m.value, now).value <= Exit(t, now).value
  {
    hide Exit;
    if q == [] {
      m := None;
    } else {
      m := Earliest(q[1..], now);
      if Exit(q[0], now).Some? && (m.None? || Exit(q[0], now).value <= Exit(m.value, now).value) { m := Some(q[0]); }
    }
  }

  /** Every trap has an exit that is no later. */
  ghost predicate TrapsAreLate(q: Queue, now: nat) {
    forall z :: z in q && Trap(z, now).Some? ==>
      exists t :: t in q && Exit(t, now).Some? && Exit(t, now).value <= Trap(z, now).value
  }

  /** For a queue of hard real-time tasks sorted by deadline schedule ends if and only if
      no task without budget is trapped ahead of every task that would end the loop. */
  lemma HardEndsIff(q: Queue, now: nat, timeslice: nat)
    requires HardQueue(q)
    ensures Ends(q, now, timeslice) <==> TrapsAreLate(q, now)
  {
    hide HardQueue; hide Exit; hide Trap;
    var m := Earliest(q, now);
    if TrapsAreLate(q, now) {
      var x := if m.Some? then m.value.id else 0;
      if m.Some? {
        assert Unique(q) by { HardIsUnique(q); }
        Unnamed(q, m.value);
      }
      LeaderEnds(q, now, timeslice, x);
    } else {
      var z :| z in q && Trap(z, now).Some?
        && !(exists t :: t in q && Exit(t, now).Some? && Exit(t, now).value <= Trap(z, now).value);
      forall n: nat ensures PassNo(q, now, timeslice, n).Again? {
        TrappedGoesOn(q, now, timeslice, Trap(z, now).value, n);
      }
    }
  }

  lemma HardIsUnique(q: Queue)
    requires HardQueue(q)
    ensures Unique(q)
  {}
}
