/** The run queue as kernel/schedule_rbed.c keeps it: a singly linked list through
    the dispatcher control blocks, a constant-time membership test, and counters. */
module RunQueue {
  import opened Wrappers
  import opened Rbed
  import opened RbedRuns
  import opened RbedLoad

  class Dcb {
    const id: nat
    var next: Dcb?
    var task: Task
    var wakeupTime: nat
    var wakeupPrev: Dcb?
    var wakeupNext: Dcb?

    constructor (id: nat, t: Task)
      requires t.id == id
      ensures this.id == id && next == null && task == t
      ensures wakeupTime == 0 && wakeupPrev == null && wakeupNext == null
    {
      this.id, next, task := id, null, t;
      wakeupTime, wakeupPrev, wakeupNext := 0, null, null;
    }
  }

  /** The scheduling fields of the given control blocks, in order. */
  ghost function TasksOf(s: seq<Dcb>): (r: Queue)
    reads s`task
    ensures |r| == |s| && forall i :: 0 <= i < |s| ==> r[i] == s[i].task
  {
    if s == [] then [] else [s[0].task] + TasksOf(s[1..])
  }

  ghost predicate Distinct(s: seq<Dcb>) { forall i, j :: 0 <= i < j < |s| ==> s[i] != s[j] }

  /** What the next pointer of `d` must be when `s` is the queue. */
  ghost function NextIn(s: seq<Dcb>, d: Dcb): Dcb? {
    if s == [] then null
    else if s[0] == d then (if |s| > 1 then s[1] else null)
    else NextIn(s[1..], d)
  }

  lemma {:induction false} NextAt(s: seq<Dcb>, k: nat)
    requires Distinct(s) && k < |s|
    ensures NextIn(s, s[k]) == if k + 1 < |s| then s[k + 1] else null
  {
    if k > 0 { NextAt(s[1..], k - 1); }
  }

  lemma {:induction false} NextOutside(s: seq<Dcb>, d: Dcb)
    requires d !in s
    ensures NextIn(s, d) == null
  {
    if s != [] { NextOutside(s[1..], d); }
  }

  lemma NextInserted(s: seq<Dcb>, k: nat, d: Dcb)
    requires Distinct(s) && k <= |s| && d !in s
    ensures var r := s[..k] + [d] + s[k..];
      && Distinct(r)
      && NextIn(r, d) == (if k < |s| then s[k] else null)
      && forall x :: x != d ==> NextIn(r, x) == if k > 0 && x == s[k - 1] then d else NextIn(s, x)
  {
    var r := s[..k] + [d] + s[k..];
    forall i | 0 <= i < |r| ensures r[i] == (if i < k then s[i] else if i == k then d else s[i - 1]) {}
    assert Distinct(r);
    assert r[k] == d;
    NextAt(r, k);
    forall x | x != d ensures NextIn(r, x) == if k > 0 && x == s[k - 1] then d else NextIn(s, x) {
      if x in s {
        var i :| 0 <= i < |s| && s[i] == x;
        NextAt(s, i);
        assert r[if i < k then i else i + 1] == x;
        NextAt(r, if i < k then i else i + 1);
      } else {
        NextOutside(s, x);
        NextOutside(r, x);
      }
    }
  }

  lemma NextRemoved(s: seq<Dcb>, k: nat)
    requires Distinct(s) && k < |s|
    ensures var r := s[..k] + s[k + 1..];
      && Distinct(r) && s[k] !in r
      && forall x :: x != s[k] ==> NextIn(r, x) == if k > 0 && x == s[k - 1] then NextIn(s, s[k]) else NextIn(s, x)
  {
    var r := s[..k] + s[k + 1..];
    forall i | 0 <= i < |r| ensures r[i] == s[if i < k then i else i + 1] {}
    assert Distinct(r);
    NextAt(s, k);
    forall x | x != s[k] ensures NextIn(r, x) == if k > 0 && x == s[k - 1] then NextIn(s, s[k]) else NextIn(s, x) {
      if x in s {
        var i :| 0 <= i < |s| && s[i] == x;
        NextAt(s, i);
        assert r[if i < k then i else i - 1] == x;
        NextAt(r, if i < k then i else i - 1);
      } else {
        NextOutside(s, x);
        NextOutside(r, x);
      }
    }
  }

  lemma SpotIs(q: Queue, t: Task, k: nat)
    requires k <= |q| && (forall j :: 0 <= j < k ==> Skips(t, q[j])) && (k < |q| ==> !Skips(t, q[k]))
    ensures Spot(q, t) == k
  {}

  // ---------- Control blocks and task values ----------

  ghost predicate UniqueIds(ds: set<Dcb>) { forall a, b :: a in ds && b in ds && a.id == b.id ==> a == b }

  /** The scheduling state with its tasks looked up by name is the one with its control
      blocks looked up by address. */
  lemma PositionIs(s: seq<Dcb>, ds: set<Dcb>, d: Dcb)
    requires UniqueIds(ds) && d in ds && (forall i :: 0 <= i < |s| ==> s[i] in ds)
    requires forall x :: x in ds ==> x.task.id == x.id
    ensures Queued(TasksOf(s), d.id) <==> d in s
    ensures var k := Position(TasksOf(s), d.id); k < |s| ==> s[k] == d
  {
    var ts := TasksOf(s);
    var k := Position(ts, d.id);
    if k < |s| {
      assert s[k] in ds && ts[k].id == s[k].id;
    } else {
      assert forall i :: 0 <= i < |s| ==> ts[i].id == s[i].id;
    }
  }

  lemma TasksConcat(a: seq<Dcb>, b: seq<Dcb>)
    ensures TasksOf(a + b) == TasksOf(a) + TasksOf(b)
  {
    hide TasksOf;
    var r := a + b;
    assert forall i :: 0 <= i < |r| ==> r[i] == if i < |a| then a[i] else b[i - |a|];
  }

  lemma TasksSplit(s: seq<Dcb>, k: nat)
    requires k <= |s|
    ensures TasksOf(s[..k]) == TasksOf(s)[..k] && TasksOf(s[k..]) == TasksOf(s)[k..]
  {
    hide TasksOf;
    assert s == s[..k] + s[k..];
    TasksConcat(s[..k], s[k..]);
  }

  lemma TasksInserted(s: seq<Dcb>, k: nat, d: Dcb)
    requires k <= |s|
    ensures TasksOf(s[..k] + [d] + s[k..]) == TasksOf(s)[..k] + [d.task] + TasksOf(s)[k..]
  {
    TasksSplit(s, k);
    TasksConcat(s[..k], [d]);
    TasksConcat(s[..k] + [d], s[k..]);
    assert TasksOf([d]) == [d.task];
  }

  lemma TasksRemoved(s: seq<Dcb>, k: nat)
    requires k < |s|
    ensures TasksOf(s[..k] + s[k + 1..]) == Drop(TasksOf(s), k)
  {
    hide TasksOf;
    TasksSplit(s, k);
    TasksSplit(s, k + 1);
    TasksConcat(s[..k], s[k + 1..]);
  }

  class Kernel {
    const timeslice: nat
    var queueHead: Dcb?
    var queueTail: Dcb?
    /** The copy of the tail that assembly code reads. */
    var globalTail: Dcb?
    var wBe: nat
    var nBe: nat
    var uHrt: nat
    var lastdisp: Dcb?
    /** The queue as a sequence, and every control block there is. */
    ghost var q: seq<Dcb>
    ghost var dcbs: set<Dcb>

    /** Head, tail and next pointers form an acyclic list that ends at both tails;
        whatever is not on it points nowhere. */
    ghost predicate ListOk()
      reads this`queueHead, this`queueTail, this`globalTail, this`q, this`dcbs, dcbs`next
    {
      && Distinct(q)
      && (forall i :: 0 <= i < |q| ==> q[i] in dcbs)
      && queueHead == (if q == [] then null else q[0])
      && queueTail == (if q == [] then null else q[|q| - 1])
      && globalTail == queueTail
      && (forall d :: d in dcbs ==> d.next == NextIn(q, d))
    }

    /** in_queue: decided by two pointers, it is exactly membership. */
    predicate InQueue(d: Dcb)
      reads this`queueTail, d`next
    {
      d.next != null || queueTail == d
    }

    lemma InQueueIsMembership(d: Dcb)
      requires ListOk() && d in dcbs
      ensures InQueue(d) <==> d in q
    {
      if d in q {
        var k :| 0 <= k < |q| && q[k] == d;
        NextAt(q, k);
      } else {
        NextOutside(q, d);
      }
    }

    /** The walk of queue_insert: past every entry that must run before `d`. */
    method FindSpot(d: Dcb) returns (prev: Dcb?, i: Dcb?, ghost k: nat)
      requires ListOk()
      ensures k == Spot(TasksOf(q), d.task) <= |q|
      ensures i == (if k < |q| then q[k] else null) && prev == (if k > 0 then q[k - 1] else null)
    {
      hide NextIn; hide Distinct; hide Spot;
      prev, i, k := null, queueHead, 0;
      while i != null && Skips(d.task, i.task)
        invariant 0 <= k <= |q| && i == (if k < |q| then q[k] else null) && prev == (if k > 0 then q[k - 1] else null)
        invariant forall j :: 0 <= j < k ==> Skips(d.task, q[j].task)
        decreases |q| - k
      {
        NextAt(q, k);
        prev, i, k := i, i.next, k + 1;
      }
      SpotIs(TasksOf(q), d.task, k);
    }

    method QueueInsert(d: Dcb)
      requires ListOk() && d in dcbs && d !in q
      modifies this`queueHead, this`queueTail, this`globalTail, this`q, dcbs`next
      ensures ListOk()
      ensures var k := Spot(old(TasksOf(q)), d.task); q == old(q)[..k] + [d] + old(q)[k..]
    {
      hide NextIn; hide Distinct; hide Spot; hide Skips; hide TasksOf;
      NextOutside(q, d);
      if queueHead == null {
        queueHead, queueTail, globalTail := d, d, d;
        NextInserted(q, 0, d);
        q := q[..0] + [d] + q[0..];
        return;
      }
      var prev, i, k := FindSpot(d);
      NextInserted(q, k, d);
      if i != null {
        d.next := i;
        if prev == null { queueHead := d; } else { prev.next := d; }
      } else {
        queueTail.next := d;
        queueTail, globalTail := d, d;
      }
      q := q[..k] + [d] + q[k..];
    }

    /** queue_remove, told at which position `d` is, if it is queued at all. */
    method QueueRemove(d: Dcb, ghost k: nat)
      requires ListOk() && d in dcbs && (d in q ==> k < |q| && q[k] == d)
      modifies this`queueHead, this`queueTail, this`globalTail, this`q, dcbs`next
      ensures ListOk() && d !in q
      ensures q == if d in old(q) then old(q)[..k] + old(q)[k + 1..] else old(q)
    {
      hide NextIn; hide Distinct;
      InQueueIsMembership(d);
      if !InQueue(d) { return; }
      NextAt(q, k);
      NextRemoved(q, k);
      ghost var r := q[..k] + q[k + 1..];
      NextOutside(r, d);
      if d == queueHead {
        queueHead := d.next;
        if queueHead == null { queueTail, globalTail := null, null; }
      } else {
        var i := queueHead;
        ghost var j := 0;
        NextAt(q, 0);
        while i.next != d
          invariant 0 <= j < k && i == q[j] && i.next == q[j + 1]
          modifies {}
          decreases k - j
        {
          NextAt(q, j + 1);
          i, j := i.next, j + 1;
        }
        i.next := d.next;
        if queueTail == d { queueTail, globalTail := i, i; }
      }
      d.next := null;
      q := r;
    }

    // ---------- Invariant and abstraction ----------

    /** The counters are exactly the sums over the queue. */
    ghost predicate Valid()
      reads this, dcbs`next, dcbs`task, q`task
    {
      ListOk() && Named() && Counts(TasksOf(q), wBe, nBe, uHrt)
    }

    ghost predicate Named()
      reads this`dcbs, this`lastdisp, dcbs`task
    {
      && UniqueIds(dcbs)
      && (forall d :: d in dcbs ==> d.task.id == d.id)
      && (lastdisp != null ==> lastdisp in dcbs)
    }

    ghost function Abs(clock: nat): (s: Sched)
      reads this, q`task
    {
      Sched(TasksOf(q), if lastdisp == null then None else Some(lastdisp.id), clock)
    }

    // ---------- Operations ----------

    /** Looking up by pointer and by name agree. */
    lemma Lookup(d: Dcb)
      requires Valid() && d in dcbs
      ensures d.task.id == d.id
      ensures InQueue(d) <==> d in q
      ensures d in q <==> Queued(TasksOf(q), d.id)
      ensures var k := Position(TasksOf(q), d.id); d in q ==> k < |q| && q[k] == d && TasksOf(q)[k] == d.task
    {
      hide TasksOf; hide NextIn; hide Distinct; hide Position;
      InQueueIsMembership(d);
      PositionIs(q, dcbs, d);
    }

    constructor (timeslice: nat)
      ensures Valid() && this.timeslice == timeslice && q == [] && dcbs == {} && lastdisp == null
    {
      this.timeslice := timeslice;
      queueHead, queueTail, globalTail, lastdisp := null, null, null, null;
      wBe, nBe, uHrt, q, dcbs := 0, 0, 0, [], {};
    }

    /** A new dispatcher is not queued. */
    ghost method Register(d: Dcb)
      requires Valid() && d.next == null && d.task.id == d.id && forall x :: x in dcbs ==> x.id != d.id
      modifies this`dcbs
      ensures Valid() && dcbs == old(dcbs) + {d} && d !in q
    {
      hide TasksOf; hide Counts; hide Distinct; hide NextIn;
      NextOutside(q, d);
      dcbs := dcbs + {d};
    }

    method SchedulerRemove(d: Dcb, ghost clock: nat)
      requires Valid() && d in dcbs
      modifies this, dcbs`next
      ensures Valid() && dcbs == old(dcbs) && d !in q
      ensures Abs(clock) == RbedRuns.Remove(old(Abs(clock)), d.id)
    {
      hide TasksOf; hide ListOk; hide UTarget; hide Position; hide InQueue; hide Counts;
      Lookup(d);
      if !InQueue(d) { return; }
      ghost var k := Position(TasksOf(q), d.id);
      TasksRemoved(q, k);
      CountsDropped(TasksOf(q), k, wBe, nBe, uHrt);
      QueueRemove(d, k);
      match d.task.typ {
        case BestEffort => wBe, nBe := wBe - d.task.weight, nBe - 1;
        case HardRealtime => uHrt := uHrt - UTarget(d.task);
        case SoftRealtime =>
      }
    }

    /** queue_insert once the counters already include `d`. */
    method Enqueue(d: Dcb)
      requires ListOk() && Named() && d in dcbs && d !in q
      requires Counts(Insert(TasksOf(q), d.task), wBe, nBe, uHrt)
      modifies this`queueHead, this`queueTail, this`globalTail, this`q, dcbs`next
      ensures Valid() && TasksOf(q) == Insert(old(TasksOf(q)), d.task)
      ensures d in q && forall x :: x in q <==> x in old(q) || x == d
    {
      hide TasksOf; hide ListOk; hide Spot; hide Skips; hide Counts;
      TasksInserted(q, Spot(TasksOf(q), d.task), d);
      QueueInsert(d);
    }

    /** The part of make_runnable that prepares `d` and counts it in. */
    method CountIn(d: Dcb, now: nat) returns (ok: bool)
      requires Valid() && d in dcbs && d !in q
      modifies this`wBe, this`nBe, this`uHrt, d`task
      ensures ok <==> !old(d.task).typ.SoftRealtime? && !(old(d.task).typ.HardRealtime? && old(d.task).period == 0)
      ensures ok ==> d.task == Entering(old(d.task), NBe(TasksOf(q)) + 1, now, timeslice)
      ensures ok ==> uHrt == UHrt(TasksOf(q)) + UHrt([d.task])
      ensures ok ==> Counts(Insert(TasksOf(q), d.task), wBe, nBe, uHrt)
    {
      hide TasksOf; hide ListOk; hide UTarget; hide Insert; hide UniqueIds;
      hide WBe; hide NBe; hide UHrt;
      ok := true;
      match d.task.typ {
        case BestEffort =>
          if d.task.weight == 0 { d.task := d.task.(weight := 1); }
          wBe, nBe := wBe + d.task.weight, nBe + 1;
          var span := nBe * timeslice;
          d.task := d.task.(deadline := span, period := span, release := now, etime := 0);
        case SoftRealtime => return false;
        case HardRealtime =>
          if d.task.period == 0 { return false; }
          uHrt := uHrt + UTarget(d.task);
          SameTarget(d.task, d.task.(etime := 0));
          d.task := d.task.(etime := 0);
      }
      SumsInsert(TasksOf(q), d.task);
      SumsOne(d.task);
    }

    method MakeRunnable(d: Dcb, now: nat) returns (ok: bool)
      requires Valid() && d in dcbs
      modifies this, dcbs`next, d`task
      ensures dcbs == old(dcbs) && lastdisp == old(lastdisp)
      ensures ok <==> RbedRuns.MakeRunnable(old(Abs(now)), old(d.task), now, timeslice).Some?
      ensures ok ==> Valid() && Abs(now) == RbedRuns.MakeRunnable(old(Abs(now)), old(d.task), now, timeslice).value
      ensures ok ==> d in q && forall x :: x in q <==> x in old(q) || x == d
    {
      hide TasksOf; hide ListOk; hide Position; hide InQueue; hide Insert; hide Counts; hide Entering;
      hide NBe; hide UHrt;
      Lookup(d);
      if InQueue(d) { return true; }
      EnteringKeepsName(d.task, NBe(TasksOf(q)) + 1, now, timeslice);
      ok := CountIn(d, now);
      if !ok || uHrt + BETA > SPECTRUM || d.task.release < now { return false; }
      Enqueue(d);
    }

    /** sys_dispatcher_properties. */
    method DispatcherProperties(d: Dcb, t: Task, now: nat) returns (ok: bool)
      requires Valid() && d in dcbs && t.id == d.id
      modifies this, dcbs`next, d`task
      ensures dcbs == old(dcbs)
      ensures ok <==> SetProperties(old(Abs(now)), t, now, timeslice).Some?
      ensures ok ==> Valid() && d in q && Abs(now) == SetProperties(old(Abs(now)), t, now, timeslice).value
    {
      hide TasksOf; hide ListOk; hide InQueue; hide Counts; hide RbedRuns.MakeRunnable; hide RbedRuns.Remove;
      if !Consistent(t) { return false; }
      SchedulerRemove(d, now);
      d.task := if t.release == 0 then t.(release := now) else t;
      ok := MakeRunnable(d, now);
    }

    /** Takes a queued control block out, gives it new times, and queues it again. */
    method Requeue(d: Dcb, t: Task)
      requires Valid() && d in q && SameLoad(t, d.task)
      modifies this`queueHead, this`queueTail, this`globalTail, this`q, dcbs`next, d`task
      ensures Valid() && d in q && d.task == t
      ensures TasksOf(q) == Insert(Drop(old(TasksOf(q)), Position(old(TasksOf(q)), d.id)), t)
    {
      hide TasksOf; hide Position; hide InQueue; hide Counts; hide Insert; hide Drop; hide Distinct; hide NextIn;
      hide SameLoad;
      Lookup(d);
      ghost var ts := TasksOf(q);
      ghost var k := Position(ts, d.id);
      TasksRemoved(q, k);
      CountsMoved(ts, k, t, wBe, nBe, uHrt);
      QueueRemove(d, k);
      d.task := t;
      Enqueue(d);
    }

    /** scheduler_yield. */
    method SchedulerYield(d: Dcb, now: nat)
      requires Valid() && d in dcbs
      modifies this, dcbs`next, d`task
      ensures Valid() && dcbs == old(dcbs)
      ensures Abs(now) == YieldTask(old(Abs(now)), d.id, now)
    {
      hide TasksOf; hide ListOk; hide Position; hide InQueue; hide Insert; hide Drop; hide Counts;
      Lookup(d);
      if !InQueue(d) || d.task.release > now { return; }
      Requeue(d, Yielded(d.task, now));
      lastdisp := null;
    }

    // ---------- schedule ----------

    /** New times for a control block, wherever it is. */
    method Update(d: Dcb, t: Task)
      requires Valid() && d in dcbs && SameLoad(t, d.task)
      modifies d`task
      ensures Valid() && d.task == t
      ensures TasksOf(q) == if d in q then old(TasksOf(q))[Position(old(TasksOf(q)), d.id) := t] else old(TasksOf(q))
    {
      hide TasksOf; hide Position; hide InQueue; hide Counts; hide NextIn; hide UniqueIds;
      Lookup(d);
      ghost var ts := TasksOf(q);
      ghost var k := Position(ts, d.id);
      if d in q { CountsUpdated(ts, k, t, wBe, nBe, uHrt); }
      d.task := t;
      if d in old(q) {
        assert forall i :: 0 <= i < |q| ==> TasksOf(q)[i] == ts[k := t][i];
        assert TasksOf(q) == ts[k := t];
      }
    }

    /** schedule_now: changes times in place, without moving `d` in the queue. */
    method ScheduleNow(d: Dcb, now: nat)
      requires Valid() && d in dcbs
      modifies d`task
      ensures Valid() && d.task == Hurried(old(d.task), now)
      ensures TasksOf(q) == if d in q
        then old(TasksOf(q))[Position(old(TasksOf(q)), d.id) := d.task] else old(TasksOf(q))
    {
      hide Valid; hide TasksOf; hide Position;
      Update(d, Hurried(d.task, now));
    }

    /** make_runnable and schedule_now, as wakeup_check calls them. */
    method Awaken(d: Dcb, now: nat) returns (ok: bool)
      requires Valid() && d in dcbs
      modifies this, dcbs`next, d`task
      ensures dcbs == old(dcbs)
      ensures ok <==> RbedRuns.MakeRunnable(old(Abs(now)), old(d.task), now, timeslice).Some?
      ensures ok ==> Valid() && forall x :: x in q <==> x in old(q) || x == d
      ensures ok ==>
        Abs(now) == Hurry(RbedRuns.MakeRunnable(old(Abs(now)), old(d.task), now, timeslice).value, d.id, now)
    {
      hide Valid; hide TasksOf; hide Position; hide RbedRuns.MakeRunnable; hide InQueue; hide Hurried;
      ok := MakeRunnable(d, now);
      if ok {
        Lookup(d);
        ScheduleNow(d, now);
      }
    }

    /** Brings the executed time of the last dispatched task up to date. */
    method ChargeLast(now: nat)
      requires Valid() && (lastdisp != null ==> lastdisp.task.lastDispatch <= now)
      modifies dcbs`task
      ensures Valid() && TasksOf(q) == Account(old(TasksOf(q)), old(Abs(now)).last, now)
    {
      hide TasksOf; hide Position; hide InQueue; hide Counts; hide ListOk; hide UniqueIds;
      if lastdisp != null {
        Lookup(lastdisp);
        var t := lastdisp.task;
        if t.release <= now {
          Update(lastdisp, t.(etime := t.etime + now - Max(t.lastDispatch, t.release)));
        }
      }
    }

    /** Skips the tasks that are released in the future. */
    method FirstReady(now: nat) returns (d: Dcb?, ghost k: nat)
      requires Valid()
      ensures k == FirstReleased(TasksOf(q), now) <= |q| && d == if k < |q| then q[k] else null
    {
      hide TasksOf; hide Position; hide InQueue; hide Counts; hide NextIn; hide Distinct; hide UniqueIds;
      hide FirstReleased;
      d, k := queueHead, 0;
      while d != null && d.task.release > now
        invariant k <= |q| && d == (if k < |q| then q[k] else null)
        invariant forall i :: 0 <= i < k ==> q[i].task.release > now
        decreases |q| - k
      {
        NextAt(q, k);
        d, k := d.next, k + 1;
      }
      FirstReleasedIs(TasksOf(q), now, k);
    }

    /** Lazy resource allocation for the best-effort task `d`, as the counters stand.
        Of the assertions of do_resource_allocation and set_best_effort_wcet, the one on
        the weight can fail, which stops the kernel; the others hold. */
    method Allocate(d: Dcb, now: nat) returns (ok: bool, t: Task)
      requires Valid() && d in dcbs && d in q && LoadOk(TasksOf(q)) && d.task.typ.BestEffort?
      ensures ok <==> d.task.weight < WEIGHT_LIMIT
      ensures ok ==> t == Prepared(TasksOf(q), d.task, now, timeslice)
    {
      hide TasksOf; hide Position; hide InQueue; hide ListOk; hide UniqueIds;
      hide WBe; hide NBe; hide UHrt; hide Share; hide Budget;
      Lookup(d);
      NeverOvercommitted(TasksOf(q));
      WeightPositive(TasksOf(q), Position(TasksOf(q), d.id));
      assert wBe > 0 && nBe > 0;
      ok, t := d.task.weight < WEIGHT_LIMIT, d.task;
      if !ok { return; }
      var uActual := Share(d.task.weight, wBe, uHrt);
      var span := nBe * timeslice;
      t := d.task.(deadline := span, period := span);
      assert uHrt + uActual <= SPECTRUM;
      t := t.(wcet := Budget(uActual, nBe, timeslice));
      if t.Due() < now { t := t.(release := now); }
    }

    /** If nothing changed, whoever ran last runs on, unless it is blocked: the picked
        task may have yielded to it. */
    ghost predicate Stays(picked: Dcb, last: Dcb?, current: Dcb?)
      reads this`q
    {
      last == picked && current != null && current in q
    }

    /** What schedule returns for the task it has picked. */
    ghost predicate Chosen(chosen: Dcb?, stay: bool, picked: Dcb, last: Dcb?, current: Dcb?)
      reads this`q
    {
      (stay <==> Stays(picked, last, current)) && chosen == if stay then current else picked
    }

    /** The picked task is within its budget. */
    method Dispatch(d: Dcb, t: Task, current: Dcb?) returns (chosen: Dcb, stay: bool)
      requires Valid() && d in dcbs && d in q && SameLoad(t, d.task) && (current != null ==> current in dcbs)
      modifies this`lastdisp, d`task
      ensures Valid() && lastdisp == d && d.task == t && Chosen(chosen, stay, d, old(lastdisp), current)
      ensures TasksOf(q) == old(TasksOf(q))[Position(old(TasksOf(q)), d.id) := t]
    {
      hide TasksOf; hide Position; hide InQueue; hide ListOk; hide UniqueIds; hide Counts; hide SameLoad;
      Lookup(d);
      Update(d, t);
      if current != null { Lookup(current); }
      stay := lastdisp == d && current != null && InQueue(current);
      chosen := if stay then current else d;
      lastdisp := d;
    }

    /** One pass from start_over; `over` says that there must be another one. */
    method TryOnce(now: nat, current: Dcb?) returns (over: bool, ok: bool, chosen: Dcb?, stay: bool)
      requires Valid() && LoadOk(TasksOf(q)) && (current != null ==> current in dcbs)
      modifies this, dcbs`next, dcbs`task
      ensures dcbs == old(dcbs) && (ok || over ==> Valid())
      ensures over <==> OnePass(old(TasksOf(q)), now, timeslice).Again?
      ensures over ==> lastdisp == null && TasksOf(q) == OnePass(old(TasksOf(q)), now, timeslice).queue
      ensures OnePass(old(TasksOf(q)), now, timeslice).Stop? ==> !ok
      ensures OnePass(old(TasksOf(q)), now, timeslice).Idle? ==>
                ok && lastdisp == null == chosen && TasksOf(q) == old(TasksOf(q))
      ensures var p := OnePass(old(TasksOf(q)), now, timeslice);
        p.Run? ==> (
          && ok && TasksOf(q) == p.queue && p.k < |q| && lastdisp == q[p.k] && lastdisp.id == p.queue[p.k].id
          && lastdisp in dcbs && lastdisp.task.etime < lastdisp.task.wcet
            && Chosen(chosen, stay, lastdisp, old(lastdisp), current))
    {
      hide TasksOf; hide Position; hide InQueue; hide ListOk; hide UniqueIds; hide Counts; hide LoadOk;
      hide FirstReleased; hide Chosen;
      hide Insert; hide Drop; hide Prepared; hide Recharged; hide SameLoad;
      over, ok, chosen, stay := false, true, null, false;
      var d, k := FirstReady(now);
      if d == null { lastdisp := null; return; }
      QueuedAreKnown(k);
      PreparedLoad(TasksOf(q), d.task, now, timeslice);
      var t := d.task;
      if t.typ.BestEffort? {
        ok, t := Allocate(d, now);
        if !ok { return; }
      }
      if Late(t, now) { ok := false; return; }
      if t.etime < t.wcet {
        chosen, stay := Dispatch(d, t.(lastDispatch := now), current);
        return;
      }
      Requeue(d, Recharged(t, now));
      lastdisp := null;
      over := true;
    }

    lemma QueuedAreKnown(k: nat)
      requires Valid() && k < |q|
      ensures q[k] in dcbs && q[k] in q && Position(TasksOf(q), q[k].id) == k && TasksOf(q)[k] == q[k].task
    {
      hide Position;
      Lookup(q[k]);
    }

    /** schedule: the kernel halts or the state becomes what the policy says. */
    method Schedule(now: nat, current: Dcb?) returns (ok: bool, chosen: Dcb?, stay: bool)
      requires Valid() && LoadOk(TasksOf(q)) && (current != null ==> current in dcbs)
      requires lastdisp != null ==> lastdisp.task.lastDispatch <= now
      requires BudgetsPositive(Account(TasksOf(q), Abs(now).last, now), timeslice)
      modifies this, dcbs`next, dcbs`task
      ensures dcbs == old(dcbs)
      ensures var r := Pick(Account(old(TasksOf(q)), old(Abs(now)).last, now), now, timeslice);
        && (ok <==> r.Picked?)
        && (ok ==> Valid() && Abs(now) == Sched(r.queue, r.choice, now))
        && (ok && lastdisp == null ==> chosen == null)
        && (ok && lastdisp != null ==> lastdisp in dcbs && lastdisp.task.etime < lastdisp.task.wcet)
        && (ok && lastdisp != null ==>
          Chosen(chosen, stay, lastdisp, if r.exhausted == [] then old(lastdisp) else null, current))
    {
      hide TasksOf; hide Account; hide OnePass; hide Pick; hide BudgetsPositive; hide Valid; hide LoadOk; hide Busy;
      hide Chosen;
      AccountLoad(TasksOf(q), Abs(now).last, now);
      ChargeLast(now);
      ghost var r := Pick(TasksOf(q), now, timeslice);
      ghost var again := false;
      while true
        invariant dcbs == old(dcbs) && Valid() && LoadOk(TasksOf(q)) && BudgetsPositive(TasksOf(q), timeslice)
        invariant Follows(r, Pick(TasksOf(q), now, timeslice), again)
        invariant lastdisp == if again then null else old(lastdisp)
        decreases Busy(TasksOf(q))
      {
        PickUnfolds(TasksOf(q), now, timeslice);
        var over;
        over, ok, chosen, stay := TryOnce(now, current);
        if !over { return; }
        again := true;
      }
    }
  }

  /** `r` is the outcome of schedule and `rest` its outcome from some later pass on. */
  ghost predicate Follows(r: Picked, rest: Picked, again: bool) {
    && (r.Halted? <==> rest.Halted?)
    && (r.Picked? ==> r.queue == rest.queue && r.choice == rest.choice)
    && (r.Picked? && again ==> r.exhausted != [])
    && (!again ==> r == rest)
  }

  lemma PickUnfolds(q: Queue, now: nat, timeslice: nat)
    requires LoadOk(q) && BudgetsPositive(q, timeslice)
    ensures var p, r := OnePass(q, now, timeslice), Pick(q, now, timeslice);
      && (p.Idle? ==> r == Picked(q, None, []))
      && (p.Stop? ==> r == Halted(p.why))
      && (p.Run? ==> p.k < |p.queue| && r == Picked(p.queue, Some(p.queue[p.k].id), []))
      && (p.Again? ==> LoadOk(p.queue) && BudgetsPositive(p.queue, timeslice) && Busy(p.queue) < Busy(q)
                       && Follows(r, Pick(p.queue, now, timeslice), true))
  {
    hide LoadOk; hide BudgetsPositive; hide Busy;
    var p := OnePass(q, now, timeslice);
    if p.Again? {
      AgainGoesOn(q, now, timeslice);
      AgainLoad(q, now, timeslice);
    }
  }

  lemma PreparedLoad(q: Queue, t: Task, now: nat, timeslice: nat)
    ensures var p := Prepared(q, t, now, timeslice);
      SameLoad(p, t) && SameLoad(p.(lastDispatch := now), t) && SameLoad(Recharged(p, now), t)
        && (!t.typ.BestEffort? ==> p == t)
  {}

  lemma FirstReleasedIs(q: Queue, now: nat, k: nat)
    requires k <= |q| && (forall i :: 0 <= i < k ==> q[i].release > now) && (k < |q| ==> q[k].release <= now)
    ensures FirstReleased(q, now) == k
  {}

  lemma CountsUpdated(q: Queue, k: nat, t: Task, w: nat, n: nat, u: nat)
    requires Counts(q, w, n, u) && k < |q| && SameLoad(t, q[k])
    ensures Counts(q[k := t], w, n, u)
  {
    SameTarget(t, q[k]);
    SumsUpdate(q, k, t);
  }

  /** Agreeing on everything that the counters depend on, and on the name. */
  predicate SameLoad(a: Task, b: Task) {
    a.id == b.id && a.typ == b.typ && a.weight == b.weight
      && (a.typ.HardRealtime? ==> a.wcet == b.wcet && a.period == b.period)
  }

  lemma CountsMoved(q: Queue, k: nat, t: Task, w: nat, n: nat, u: nat)
    requires Counts(q, w, n, u) && k < |q| && SameLoad(t, q[k])
    ensures Counts(Insert(Drop(q, k), t), w, n, u) && t.id == q[k].id
  {
    hide UTarget;
    SumsDrop(q, k);
    SumsInsert(Drop(q, k), t);
    SumsOne(t);
    SumsOne(q[k]);
    SameTarget(t, q[k]);
  }

  lemma EnteringKeepsName(t: Task, n: nat, now: nat, timeslice: nat)
    ensures Entering(t, n, now, timeslice).id == t.id
  {}

  ghost predicate Counts(q: Queue, w: nat, n: nat, u: nat) { w == WBe(q) && n == NBe(q) && u == UHrt(q) }

  lemma CountsDropped(q: Queue, k: nat, w: nat, n: nat, u: nat)
    requires Counts(q, w, n, u) && k < |q|
    ensures var t := q[k];
      && (t.typ.BestEffort? ==> w >= t.weight && n >= 1 && Counts(Drop(q, k), w - t.weight, n - 1, u))
      && (t.typ.HardRealtime? ==> u >= UTarget(t) && Counts(Drop(q, k), w, n, u - UTarget(t)))
      && (t.typ.SoftRealtime? ==> Counts(Drop(q, k), w, n, u))
  {
    hide UTarget;
    SumsDrop(q, k);
    SumsOne(q[k]);
  }
}
