/** Timed wake-ups: the doubly linked queue of kernel/wakeup.c refines a list of
    alarms sorted by time, and kernel/timer.c keeps the one-shot timer armed for it. */
module Wakeup {
  import opened Wrappers
  import opened Rbed
  import opened RbedRuns
  import opened RbedLoad
  import RbedFair
  import RbedTime
  import opened RunQueue

  datatype Alarm = Alarm(id: nat, time: nat)

  // ---------- Alarms as a sorted list ----------

  ghost predicate ByTime(s: seq<Alarm>) { forall i, j :: 0 <= i < j < |s| ==> s[i].time <= s[j].time }

  /** Behind every alarm that is not later. */
  function Place(s: seq<Alarm>, time: nat): (k: nat)
    ensures k <= |s|
    ensures forall i :: 0 <= i < k ==> s[i].time <= time
    ensures k < |s| ==> s[k].time > time
  {
    if s == [] || s[0].time > time then 0 else
      var k := Place(s[1..], time) + 1;
      assert forall i :: 0 < i < k ==> s[i] == s[1..][i - 1];
      k
  }

  function PutIn(s: seq<Alarm>, a: Alarm): (r: seq<Alarm>) {
    var k := Place(s, a.time);
    s[..k] + [a] + s[k..]
  }

  function Where(s: seq<Alarm>, id: nat): (k: nat)
    ensures k <= |s|
    ensures k < |s| ==> s[k].id == id
    ensures forall i :: 0 <= i < k ==> s[i].id != id
  {
    if s == [] || s[0].id == id then 0 else
      var k := Where(s[1..], id) + 1;
      assert forall i :: 0 < i < k ==> s[i] == s[1..][i - 1];
      k
  }

  function TakeOut(s: seq<Alarm>, id: nat): (r: seq<Alarm>) {
    var k := Where(s, id);
    if k < |s| then s[..k] + s[k + 1..] else s
  }

  /** wakeup_set. */
  function Arm(s: seq<Alarm>, id: nat, time: nat): seq<Alarm> { PutIn(TakeOut(s, id), Alarm(id, time)) }

  /** What wakeup_check releases, and what it leaves. */
  function Due(s: seq<Alarm>, now: nat): seq<Alarm> { s[..Place(s, now)] }
  function Later(s: seq<Alarm>, now: nat): seq<Alarm> { s[Place(s, now)..] }

  lemma PlaceIsTight(s: seq<Alarm>, time: nat)
    requires ByTime(s)
    ensures var k := Place(s, time); forall i :: k <= i < |s| ==> s[i].time > time
  {
    hide Place;
    var k := Place(s, time);
    forall i | k <= i < |s| ensures s[i].time > time {
      if k < i { assert s[k].time <= s[i].time; }
    }
  }

  lemma PutInByTime(s: seq<Alarm>, a: Alarm)
    requires ByTime(s)
    ensures ByTime(PutIn(s, a))
  {
    hide Place;
    PlaceIsTight(s, a.time);
    var k := Place(s, a.time);
    var r := PutIn(s, a);
    forall i, j | 0 <= i < j < |r| ensures r[i].time <= r[j].time {
      assert r[i] == if i < k then s[i] else if i == k then a else s[i - 1];
      assert r[j] == if j < k then s[j] else if j == k then a else s[j - 1];
    }
  }

  lemma TakeOutByTime(s: seq<Alarm>, id: nat)
    requires ByTime(s)
    ensures ByTime(TakeOut(s, id))
  {
    var k := Where(s, id);
    var r := TakeOut(s, id);
    if k < |s| {
      assert forall i :: 0 <= i < |r| ==> r[i] == s[if i < k then i else i + 1];
    }
  }

  /** wakeup_check releases exactly the alarms that are due, in order. */
  lemma DueIsExact(s: seq<Alarm>, now: nat)
    requires ByTime(s)
    ensures s == Due(s, now) + Later(s, now)
    ensures forall a :: a in Due(s, now) <==> a in s && a.time <= now
    ensures forall a :: a in Later(s, now) <==> a in s && a.time > now
    ensures ByTime(Later(s, now))
  {
    hide Place; hide ByTime;
    PlaceIsTight(s, now);
    var k := Place(s, now);
    SplitMembers(s, k, now);
    SuffixByTime(s, k);
  }

  lemma SuffixByTime(s: seq<Alarm>, k: nat)
    requires ByTime(s) && k <= |s|
    ensures ByTime(s[k..]) && s == s[..k] + s[k..]
  {
    forall i, j | 0 <= i < j < |s| - k ensures s[k..][i].time <= s[k..][j].time {
      assert s[k + i].time <= s[k + j].time;
    }
  }

  lemma SplitMembers(s: seq<Alarm>, k: nat, now: nat)
    requires k <= |s| && (forall i :: 0 <= i < k ==> s[i].time <= now) && (forall i :: k <= i < |s| ==> s[i].time > now)
    ensures forall a :: a in s[..k] <==> a in s && a.time <= now
    ensures forall a :: a in s[k..] <==> a in s && a.time > now
  {
    var a, b := s[..k], s[k..];
    assert s == a + b;
    assert forall x :: x in s <==> x in a || x in b;
    assert forall x :: x in a ==> x.time <= now;
    assert forall x :: x in b ==> x.time > now;
  }

  // ---------- Links ----------

  ghost function PrevIn(s: seq<Dcb>, d: Dcb): Dcb? {
    if |s| < 2 then null
    else if s[1] == d then s[0]
    else PrevIn(s[1..], d)
  }

  lemma {:induction false} PrevAt(s: seq<Dcb>, k: nat)
    requires Distinct(s) && k < |s|
    ensures PrevIn(s, s[k]) == if k > 0 then s[k - 1] else null
  {
    if k > 1 {
      PrevAt(s[1..], k - 1);
    } else if k == 0 {
      PrevOutside(s, s[0]);
    }
  }

  lemma {:induction false} PrevOutside(s: seq<Dcb>, d: Dcb)
    requires forall i :: 0 < i < |s| ==> s[i] != d
    ensures PrevIn(s, d) == null
  {
    if |s| >= 2 { PrevOutside(s[1..], d); }
  }

  lemma PrevInserted(s: seq<Dcb>, k: nat, d: Dcb)
    requires Distinct(s) && k <= |s| && d !in s
    ensures var r := s[..k] + [d] + s[k..];
      && PrevIn(r, d) == (if k > 0 then s[k - 1] else null)
      && forall x :: x != d ==> PrevIn(r, x) == if k < |s| && x == s[k] then d else PrevIn(s, x)
  {
    hide PrevIn;
    var r := s[..k] + [d] + s[k..];
    forall i | 0 <= i < |r| ensures r[i] == (if i < k then s[i] else if i == k then d else s[i - 1]) {}
    assert Distinct(r);
    PrevAt(r, k);
    forall x | x != d ensures PrevIn(r, x) == if k < |s| && x == s[k] then d else PrevIn(s, x) {
      if x in s {
        var i :| 0 <= i < |s| && s[i] == x;
        PrevAt(s, i);
        assert r[if i < k then i else i + 1] == x;
        PrevAt(r, if i < k then i else i + 1);
      } else {
        PrevOutside(s, x);
        PrevOutside(r, x);
      }
    }
  }

  lemma PrevRemoved(s: seq<Dcb>, k: nat)
    requires Distinct(s) && k < |s|
    ensures var r := s[..k] + s[k + 1..];
      forall x :: x != s[k] ==> PrevIn(r, x) == if k + 1 < |s| && x == s[k + 1] then PrevIn(s, s[k]) else PrevIn(s, x)
  {
    hide PrevIn;
    var r := s[..k] + s[k + 1..];
    forall i | 0 <= i < |r| ensures r[i] == s[if i < k then i else i + 1] {}
    assert Distinct(r);
    PrevAt(s, k);
    forall x | x != s[k]
      ensures PrevIn(r, x) == if k + 1 < |s| && x == s[k + 1] then PrevIn(s, s[k]) else PrevIn(s, x)
    {
      if x in s {
        var i :| 0 <= i < |s| && s[i] == x;
        PrevAt(s, i);
        assert r[if i < k then i else i - 1] == x;
        PrevAt(r, if i < k then i else i - 1);
      } else {
        PrevOutside(s, x);
        PrevOutside(r, x);
      }
    }
  }

  // ---------- Alarms of control blocks ----------

  ghost function AlarmsOf(s: seq<Dcb>): (r: seq<Alarm>)
    reads s`wakeupTime
    ensures |r| == |s| && forall i :: 0 <= i < |s| ==> r[i] == Alarm(s[i].id, s[i].wakeupTime)
  {
    if s == [] then [] else [Alarm(s[0].id, s[0].wakeupTime)] + AlarmsOf(s[1..])
  }

  lemma AlarmsConcat(a: seq<Dcb>, b: seq<Dcb>)
    ensures AlarmsOf(a + b) == AlarmsOf(a) + AlarmsOf(b)
  {
    hide AlarmsOf;
    var r := a + b;
    assert forall i :: 0 <= i < |r| ==> r[i] == if i < |a| then a[i] else b[i - |a|];
  }

  lemma AlarmsSplit(s: seq<Dcb>, k: nat)
    requires k <= |s|
    ensures AlarmsOf(s[..k]) == AlarmsOf(s)[..k] && AlarmsOf(s[k..]) == AlarmsOf(s)[k..]
  {
    hide AlarmsOf;
    assert s == s[..k] + s[k..];
    AlarmsConcat(s[..k], s[k..]);
  }

  lemma AlarmsInserted(s: seq<Dcb>, k: nat, d: Dcb)
    requires k <= |s|
    ensures AlarmsOf(s[..k] + [d] + s[k..]) == AlarmsOf(s)[..k] + [Alarm(d.id, d.wakeupTime)] + AlarmsOf(s)[k..]
  {
    AlarmsSplit(s, k);
    AlarmsConcat(s[..k], [d]);
    AlarmsConcat(s[..k] + [d], s[k..]);
    assert AlarmsOf([d]) == [Alarm(d.id, d.wakeupTime)];
  }

  lemma AlarmsRemoved(s: seq<Dcb>, k: nat)
    requires k < |s|
    ensures AlarmsOf(s[..k] + s[k + 1..]) == AlarmsOf(s)[..k] + AlarmsOf(s)[k + 1..]
  {
    hide AlarmsOf;
    AlarmsSplit(s, k);
    AlarmsSplit(s, k + 1);
    AlarmsConcat(s[..k], s[k + 1..]);
  }

  lemma WhereIs(s: seq<Dcb>, ds: set<Dcb>, d: Dcb)
    requires UniqueIds(ds) && d in ds && (forall i :: 0 <= i < |s| ==> s[i] in ds)
    ensures Where(AlarmsOf(s), d.id) < |s| <==> d in s
    ensures var k := Where(AlarmsOf(s), d.id); k < |s| ==> s[k] == d
  {
    hide AlarmsOf;
    var ts := AlarmsOf(s);
    var k := Where(ts, d.id);
    if k < |s| {
      assert s[k] in ds && ts[k].id == s[k].id;
    } else {
      assert forall i :: 0 <= i < |s| ==> ts[i].id == s[i].id;
    }
  }

  lemma PlaceIs(s: seq<Alarm>, time: nat, k: nat)
    requires k <= |s| && (forall i :: 0 <= i < k ==> s[i].time <= time) && (k < |s| ==> s[k].time > time)
    ensures Place(s, time) == k
  {}

  // ---------- The queue ----------

  /** No alarm. */
  const TIMER_INF: nat := 0xFFFF_FFFF_FFFF_FFFF

  function Min(a: nat, b: nat): nat { if a < b then a else b }

  /** The 64-bit time at which the budget of a task dispatched now runs out. */
  function TimerAt(now: nat, t: Task): (r: nat)
    ensures r <= TIMER_INF
  {
    if t.wcet < t.etime then 0 else (now + (t.wcet - t.etime)) % (TIMER_INF + 1)
  }

  /** From the schedule that dispatches a best-effort task on, if nothing else happens: a
      schedule finds the task exhausted if and only if the timer set for it has gone off. */
  lemma TimerEndsTurn(s: Sched, now: nat, at: nat, timeslice: nat)
    requires RbedFair.FairQueue(s.q, s.clock) && s.clock <= now <= at && s.q != []
    requires BudgetsPositive(Account(s.q, s.last, now), timeslice) && Step(s, ScheduleOp(now), timeslice).Next?
    requires var s1 := Step(s, ScheduleOp(now), timeslice).s;
      && s1.q != [] && now + s1.q[0].wcet <= TIMER_INF
      && BudgetsPositive(Account(s1.q, s1.last, at), timeslice)
    ensures var s1 := Step(s, ScheduleOp(now), timeslice).s;
      var r := Step(s1, ScheduleOp(at), timeslice);
      r.Next? ==> (s1.q[0].id in r.exhausted <==> at >= TimerAt(now, s1.q[0]))
  {
    hide RbedFair.FairQueue; hide BudgetsPositive; hide Step; hide Account; hide Budget; hide Share;
    var s1 := Step(s, ScheduleOp(now), timeslice).s;
    RbedFair.StepFair(s, ScheduleOp(now), timeslice);
    RbedTime.TurnStarts(s, now, timeslice);
    RbedTime.TurnEndsIff(s1, now, at, timeslice);
  }

  class WakeupQueue {
    const kernel: Kernel
    var head: Dcb?
    var nextSched: nat
    var nextWakeup: nat
    var lastTimer: nat
    /** What the timer hardware was last told. */
    var hardware: nat
    /** The queue as a sequence, and the dispatchers that exist. */
    ghost var w: seq<Dcb>
    ghost var live: set<Dcb>

    ghost predicate Linked()
      reads this`head, this`w, this`live, live`wakeupPrev, live`wakeupNext
    {
      && Distinct(w)
      && (forall i :: 0 <= i < |w| ==> w[i] in live)
      && head == (if w == [] then null else w[0])
      && (forall d :: d in live ==> d.wakeupNext == NextIn(w, d) && d.wakeupPrev == PrevIn(w, d))
    }

    /** Exactly the dispatchers with an alarm time are queued, except that `x` may have a
        time without being queued. */
    ghost predicate Flagged(x: Dcb?)
      reads this`w, this`live, live`wakeupTime
    {
      && UniqueIds(live)
      && (forall d :: d in live && d in w ==> d.wakeupTime != 0)
      && (forall d :: d in live && d != x && d.wakeupTime != 0 ==> d in w)
      && (forall d :: d in live ==> d.wakeupTime <= TIMER_INF)
    }

    constructor (kernel: Kernel)
      ensures Valid() && this.kernel == kernel && w == [] && live == {}
    {
      this.kernel := kernel;
      head, nextSched, nextWakeup, lastTimer, hardware := null, TIMER_INF, TIMER_INF, 0, 0;
      w, live := [], {};
    }

    /** The timer is armed for whichever of the two events comes first; before it is
        armed for the first time there is no event. */
    ghost predicate TimerOk()
      reads this`nextSched, this`nextWakeup, this`lastTimer, this`hardware
    {
      && 0 < nextSched <= TIMER_INF && 0 < nextWakeup <= TIMER_INF
      && lastTimer == hardware
      && lastTimer <= nextSched && lastTimer <= nextWakeup
      && (lastTimer == nextSched || lastTimer == nextWakeup || (lastTimer == 0 && nextSched == nextWakeup == TIMER_INF))
    }

    ghost predicate ValidBut(x: Dcb?)
      reads this`head, this`w, this`live, live`wakeupPrev, live`wakeupNext, live`wakeupTime, w`wakeupTime
      reads this`nextSched, this`nextWakeup, this`lastTimer, this`hardware
    {
      Linked() && Flagged(x) && TimerOk() && NextIsHead() && ByTime(AlarmsOf(w))
    }

    ghost predicate Valid()
      reads this`head, this`w, this`live, live`wakeupPrev, live`wakeupNext, live`wakeupTime, w`wakeupTime
      reads this`nextSched, this`nextWakeup, this`lastTimer, this`hardware
    {
      ValidBut(null)
    }

    // ---------- The timer ----------

    method UpdateTimer()
      requires 0 < nextSched <= TIMER_INF && 0 < nextWakeup <= TIMER_INF && lastTimer == hardware
      modifies this`lastTimer, this`hardware
      ensures TimerOk() && (hardware == nextSched || hardware == nextWakeup)
    {
      var timer := Min(nextSched, nextWakeup);
      assert timer != 0;
      if lastTimer != timer { lastTimer, hardware := timer, timer; }
    }

    /** wakeup_set_queue_head. */
    method SetQueueHead(h: Dcb?)
      requires TimerOk() && (h != null ==> 0 < h.wakeupTime <= TIMER_INF)
      modifies this`head, this`nextWakeup, this`lastTimer, this`hardware
      ensures TimerOk() && head == h && nextWakeup == if h == null then TIMER_INF else h.wakeupTime
    {
      head := h;
      nextWakeup := if h != null then h.wakeupTime else TIMER_INF;
      UpdateTimer();
    }

    method UpdateSchedTimer(t: nat)
      requires Valid() && 0 < t <= TIMER_INF
      modifies this`nextSched, this`lastTimer, this`hardware
      ensures Valid() && nextSched == t
    {
      hide Linked; hide Flagged; hide AlarmsOf; hide ByTime;
      nextSched := t;
      UpdateTimer();
    }

    /** The hardware is armed no later than the earliest alarm, hence no later than any. */
    lemma TimerCoversAlarms(d: Dcb)
      requires Valid() && d in w && d.wakeupTime < TIMER_INF
      ensures 0 < hardware <= d.wakeupTime
    {
      hide AlarmsOf; hide NextIn; hide PrevIn; hide Distinct; hide UniqueIds;
      var i :| 0 <= i < |w| && w[i] == d;
      if i > 0 { assert AlarmsOf(w)[0].time <= AlarmsOf(w)[i].time; }
    }

    // ---------- Removal and insertion ----------

    lemma Found(d: Dcb)
      requires ValidBut(d) && d in live
      ensures Where(AlarmsOf(w), d.id) < |w| <==> d in w
      ensures d in w ==> w[Where(AlarmsOf(w), d.id)] == d
      ensures Distinct(w) && forall x :: x in w ==> x in live
    {
      hide AlarmsOf; hide NextIn; hide PrevIn; hide Distinct; hide Where;
      WhereIs(w, live, d);
    }

    ghost predicate NextIsHead()
      reads this`nextWakeup, this`w, w`wakeupTime
    {
      nextWakeup == if w == [] then TIMER_INF else w[0].wakeupTime
    }

    /** The pointer surgery of wakeup_remove. */
    method Unlink(d: Dcb, ghost k: nat)
      requires Linked() && TimerOk() && NextIsHead() && k < |w| && w[k] == d
      requires forall i :: 0 <= i < |w| ==> 0 < w[i].wakeupTime <= TIMER_INF
      modifies this`head, this`nextWakeup, this`lastTimer, this`hardware, this`w, live`wakeupPrev, live`wakeupNext
      ensures Linked() && TimerOk() && NextIsHead() && w == old(w)[..k] + old(w)[k + 1..] && d !in w
    {
      hide NextIn; hide PrevIn; hide Distinct; hide TimerOk;
      ghost var r := w[..k] + w[k + 1..];
      NextAt(w, k);
      PrevAt(w, k);
      NextRemoved(w, k);
      PrevRemoved(w, k);
      NextOutside(r, d);
      PrevOutside(r, d);
      if d.wakeupPrev == null {
        assert head == d;
        SetQueueHead(d.wakeupNext);
      } else {
        NextAt(w, k - 1);
        assert d.wakeupPrev.wakeupNext == d;
        d.wakeupPrev.wakeupNext := d.wakeupNext;
      }
      if d.wakeupNext != null {
        PrevAt(w, k + 1);
        assert d.wakeupNext.wakeupPrev == d;
        d.wakeupNext.wakeupPrev := d.wakeupPrev;
      }
      d.wakeupPrev, d.wakeupNext := null, null;
      w := r;
    }

    /** wakeup_remove; false is the failed assertion that `d` is the head. That happens
        exactly if `d` has a time without being queued, as a removal leaves it behind.
        Without a time the call does nothing. */
    method Remove(d: Dcb) returns (ok: bool)
      requires ValidBut(d) && d in live
      modifies this`head, this`nextWakeup, this`lastTimer, this`hardware, this`w, live`wakeupPrev, live`wakeupNext
      ensures ok <==> d in old(w) || d.wakeupTime == 0
      ensures ValidBut(d) && d !in w && AlarmsOf(w) == TakeOut(old(AlarmsOf(w)), d.id)
      ensures forall x :: x in w <==> x in old(w) && x != d
      ensures d !in old(w) ==> unchanged(this)
      ensures d !in old(w) ==> forall x :: x in live ==>
        x.wakeupPrev == old(x.wakeupPrev) && x.wakeupNext == old(x.wakeupNext)
    {
      hide AlarmsOf; hide Where; hide ByTime; hide TimerOk; hide UniqueIds; hide Linked; hide NextIsHead; hide Distinct;
      Found(d);
      Ends(d);
      assert forall i :: 0 <= i < |w| ==> w[i] in w;
      ok := true;
      if d.wakeupTime != 0 {
        if d.wakeupPrev == null && head != d { return false; }
        ghost var k := Where(AlarmsOf(w), d.id);
        AlarmsRemoved(w, k);
        TakeOutByTime(AlarmsOf(w), d.id);
        CutMembers(w, k);
        Unlink(d, k);
      }
    }

    /** The first assertion of wakeup_remove holds exactly for queued dispatchers. */
    lemma Ends(d: Dcb)
      requires Linked() && d in live
      ensures d in w <==> d.wakeupPrev != null || head == d
    {
      hide NextIn; hide PrevIn;
      if d in w {
        var k :| 0 <= k < |w| && w[k] == d;
        PrevAt(w, k);
      } else {
        PrevOutside(w, d);
      }
    }

    /** Removing twice: the second call is the no-op that it is meant to be exactly if there
        was no alarm in the first place, and fails its assertion otherwise. */
    method RemoveTwice(d: Dcb) returns (first: bool, second: bool)
      requires Valid() && d in live
      modifies this`head, this`nextWakeup, this`lastTimer, this`hardware, this`w, live`wakeupPrev, live`wakeupNext
      ensures first && (second <==> old(d.wakeupTime) == 0)
      ensures second ==> w == old(w)
    {
      hide Linked; hide AlarmsOf; hide ByTime; hide TimerOk; hide UniqueIds; hide NextIsHead; hide TakeOut;
      first := Remove(d);
      second := Remove(d);
    }

    /** The search of wakeup_set: past every alarm that is not later. */
    method Search(waketime: nat) returns (p: Dcb?, e: Dcb?, ghost k: nat)
      requires Linked()
      ensures k == Place(AlarmsOf(w), waketime) <= |w|
      ensures e == (if k < |w| then w[k] else null) && p == (if k > 0 then w[k - 1] else null)
    {
      hide AlarmsOf; hide NextIn; hide PrevIn; hide Distinct; hide Place;
      p, e, k := null, head, 0;
      while e != null && e.wakeupTime <= waketime
        invariant k <= |w| && e == (if k < |w| then w[k] else null) && p == (if k > 0 then w[k - 1] else null)
        invariant forall i :: 0 <= i < k ==> w[i].wakeupTime <= waketime
        decreases |w| - k
      {
        NextAt(w, k);
        p, e, k := e, e.wakeupNext, k + 1;
      }
      PlaceIs(AlarmsOf(w), waketime, k);
    }

    /** The pointer surgery of wakeup_set. */
    method Link(d: Dcb, p: Dcb?, e: Dcb?, ghost k: nat)
      requires Linked() && TimerOk() && NextIsHead() && d in live && d !in w && 0 < d.wakeupTime <= TIMER_INF
      requires k <= |w| && e == (if k < |w| then w[k] else null) && p == (if k > 0 then w[k - 1] else null)
      modifies this`head, this`nextWakeup, this`lastTimer, this`hardware, this`w, live`wakeupPrev, live`wakeupNext
      ensures Linked() && TimerOk() && NextIsHead() && w == old(w)[..k] + [d] + old(w)[k..]
    {
      hide NextIn; hide PrevIn; hide Distinct; hide TimerOk;
      NextInserted(w, k, d);
      PrevInserted(w, k, d);
      if p == null {
        d.wakeupPrev, d.wakeupNext := null, e;
        if e != null { e.wakeupPrev := d; }
        SetQueueHead(d);
      } else {
        d.wakeupNext := e;
        d.wakeupPrev := p;
        p.wakeupNext := d;
        if e != null { e.wakeupPrev := d; }
      }
      w := w[..k] + [d] + w[k..];
    }

    /** Queues a dispatcher that has a time but is not queued. */
    method Insert(d: Dcb)
      requires ValidBut(d) && d in live && d !in w && 0 < d.wakeupTime <= TIMER_INF
      modifies this`head, this`nextWakeup, this`lastTimer, this`hardware, this`w, live`wakeupPrev, live`wakeupNext
      ensures Valid() && d in w
      ensures AlarmsOf(w) == PutIn(old(AlarmsOf(w)), Alarm(d.id, d.wakeupTime))
    {
      hide AlarmsOf; hide ByTime; hide TimerOk; hide UniqueIds; hide Linked; hide Place; hide NextIsHead;
      var p, e, k := Search(d.wakeupTime);
      PutInByTime(AlarmsOf(w), Alarm(d.id, d.wakeupTime));
      AlarmsInserted(w, k, d);
      PutMembers(w, k, d);
      Link(d, p, e, k);
    }

    /** wakeup_set. */
    method Set(d: Dcb, waketime: nat)
      requires Valid() && d in live && 0 < waketime <= TIMER_INF
      modifies this`head, this`nextWakeup, this`lastTimer, this`hardware, this`w
      modifies live`wakeupPrev, live`wakeupNext, d`wakeupTime
      ensures Valid() && d in w && d.wakeupTime == waketime
      ensures AlarmsOf(w) == Arm(old(AlarmsOf(w)), d.id, waketime)
    {
      hide AlarmsOf; hide ByTime; hide TimerOk; hide UniqueIds; hide Linked; hide TakeOut; hide PutIn;
      var ok := Remove(d);
      assert ok;
      d.wakeupTime := waketime;
      Insert(d);
    }

    /** The destruction of a dispatcher: it is in no alarm any more. */
    method Destroy(d: Dcb)
      requires Valid() && d in live
      modifies this`head, this`nextWakeup, this`lastTimer, this`hardware, this`w, this`live, live`wakeupPrev,
        live`wakeupNext
      ensures Valid() && live == old(live) - {d}
      ensures AlarmsOf(w) == TakeOut(old(AlarmsOf(w)), d.id)
    {
      hide Linked; hide UniqueIds; hide AlarmsOf; hide ByTime; hide TimerOk; hide TakeOut; hide NextIsHead;
      var ok := Remove(d);
      assert ok;
      Forget(d);
    }

    ghost method Forget(d: Dcb)
      requires ValidBut(d) && d in live && d !in w
      modifies this`live
      ensures Valid() && live == old(live) - {d}
    {
      hide AlarmsOf; hide ByTime; hide TimerOk; hide NextIn; hide PrevIn; hide Distinct; hide NextIsHead;
      assert forall i :: 0 <= i < |w| ==> w[i] in w;
      live := live - {d};
    }

    // ---------- Releasing ----------

    /** In the middle of wakeup_check: the first `k` dispatchers are out of the queue. */
    ghost predicate Released(k: nat)
      requires k <= |w|
      reads this`w, this`live, live`wakeupPrev, live`wakeupNext, live`wakeupTime
    {
      && Distinct(w) && UniqueIds(live) && (forall i :: 0 <= i < |w| ==> w[i] in live)
      && (forall x :: x in live && x in w[..k] ==> x.wakeupTime == 0 && x.wakeupNext == null && x.wakeupPrev == null)
      && (forall x :: x in live && x !in w[..k] ==>
            && x.wakeupNext == NextIn(w, x) && x.wakeupPrev == PrevIn(w, x)
            && (x.wakeupTime != 0 <==> x in w) && x.wakeupTime <= TIMER_INF)
    }

    /** One due dispatcher. */
    method Release(d: Dcb, now: nat, ghost k: nat) returns (ok: bool)
      requires kernel.Valid() && live <= kernel.dcbs && k < |w| && Released(k) && d == w[k]
      modifies d`wakeupTime, d`wakeupPrev, d`wakeupNext, kernel, kernel.dcbs`next, d`task
      ensures kernel.dcbs == old(kernel.dcbs) && Released(k + 1)
      ensures AlarmsOf(w[k + 1..]) == old(AlarmsOf(w[k..]))[1..]
      ensures ok <==> MakeRunnable(old(kernel.Abs(now)), old(d.task), now, kernel.timeslice).Some?
      ensures ok ==> kernel.Valid() && forall x :: x in kernel.q <==> x in old(kernel.q) || x == d
      ensures ok ==>
        kernel.Abs(now) ==
          Hurry(MakeRunnable(old(kernel.Abs(now)), old(d.task), now, kernel.timeslice).value, d.id, now)
    {
      hide NextIn; hide PrevIn; hide Distinct; hide UniqueIds; hide Kernel.Valid; hide Kernel.Abs; hide MakeRunnable;
      hide Hurry;
      hide AlarmsOf;
      Fresh(w, k);
      AlarmsTail(w, k);
      d.wakeupTime, d.wakeupPrev, d.wakeupNext := 0, null, null;
      ok := kernel.Awaken(d, now);
    }

    lemma ReleasedStart()
      requires Valid()
      ensures Released(0)
    {
      hide NextIn; hide PrevIn; hide Distinct; hide UniqueIds; hide AlarmsOf; hide ByTime; hide TimerOk;
    }

    lemma ReleasedNext(k: nat)
      requires k < |w| && Released(k)
      ensures w[k] in live && w[k].wakeupNext == if k + 1 < |w| then w[k + 1] else null
      ensures AlarmsOf(w[k..])[0].time == w[k].wakeupTime
    {
      hide NextIn; hide PrevIn; hide UniqueIds; hide AlarmsOf;
      NextAt(w, k);
      Fresh(w, k);
    }

    /** But for one pointer, what is left of the queue is a queue. */
    lemma SuffixState(k: nat)
      requires k <= |w| && Released(k)
      ensures var r := w[k..];
        && Distinct(r) && UniqueIds(live) && (forall i :: 0 <= i < |r| ==> r[i] in live)
        && (forall x :: x in live ==>
          x.wakeupNext == NextIn(r, x) && (x.wakeupTime != 0 <==> x in r) && x.wakeupTime <= TIMER_INF)
        && (forall x :: x in live ==>
          if k < |w| && x == w[k] then PrevIn(r, x) == null else x.wakeupPrev == PrevIn(r, x))
        && (k < |w| ==> w[k] in live && w[k] in r)
    {
      hide NextIn; hide PrevIn; hide Distinct; hide UniqueIds;
      Suffix(w, k);
      assert k < |w| ==> w[k..][0] == w[k];
    }

    /** The end of wakeup_check: the rest becomes the queue. */
    method Cut(d: Dcb?, ghost k: nat)
      requires k <= |w| && Released(k) && TimerOk() && d == (if k < |w| then w[k] else null)
      requires ByTime(AlarmsOf(w[k..]))
      modifies this`head, this`nextWakeup, this`lastTimer, this`hardware, this`w, live`wakeupPrev
      ensures Valid() && w == old(w)[k..]
    {
      hide NextIn; hide PrevIn; hide Distinct; hide UniqueIds; hide AlarmsOf; hide ByTime; hide TimerOk; hide Released;
      SuffixState(k);
      if d != null { d.wakeupPrev := null; }
      SetQueueHead(d);
      w := w[k..];
    }

    /** The tasks of the dispatchers that are due. */
    ghost function DueTasks(now: nat): seq<Task>
      reads this`w, w`wakeupTime, w`task
    {
      TasksOf(w)[..Place(AlarmsOf(w), now)]
    }

    /** The loop of wakeup_check. */
    method ReleaseDue(now: nat) returns (ok: bool, d: Dcb?, ghost k: nat)
      requires Valid() && kernel.Valid() && live <= kernel.dcbs
      modifies live`wakeupTime, live`wakeupPrev, live`wakeupNext, kernel, kernel.dcbs`next, kernel.dcbs`task
      ensures kernel.dcbs == old(kernel.dcbs)
      ensures ok <==> WakeAll(old(kernel.Abs(now)), old(DueTasks(now)), now, kernel.timeslice).Some?
      ensures ok ==> kernel.Abs(now) == WakeAll(old(kernel.Abs(now)), old(DueTasks(now)), now, kernel.timeslice).value
      ensures ok ==> kernel.Valid() && k == Place(old(AlarmsOf(w)), now) <= |w| && Released(k)
      ensures ok ==> d == (if k < |w| then w[k] else null) && AlarmsOf(w[k..]) == old(AlarmsOf(w))[k..]
      ensures ok ==> forall x :: x in kernel.q <==> x in old(kernel.q) || x in w[..k]
    {
      hide AlarmsOf; hide ByTime; hide TimerOk; hide Kernel.Valid; hide Place; hide Released; hide Linked;
      hide Flagged; hide NextIsHead;
      hide TasksOf; hide WakeAll; hide Kernel.Abs;
      ghost var alarms, n := AlarmsOf(w), Place(AlarmsOf(w), now);
      ok, d, k := true, Head(), 0;
      ReleasedStart();
      assert w[0..] == w && w[..n] == w[0..n];
      TasksSplit(w, n);
      while d != null && d.wakeupTime <= now
        invariant k <= n <= |w| && Released(k) && d == (if k < |w| then w[k] else null)
        invariant kernel.Valid() && kernel.dcbs == old(kernel.dcbs) && AlarmsOf(w[k..]) == alarms[k..]
        invariant WakeAll(old(kernel.Abs(now)), old(DueTasks(now)), now, kernel.timeslice)
               == WakeAll(kernel.Abs(now), TasksOf(w[k..n]), now, kernel.timeslice)
        invariant forall x :: x in kernel.q <==> x in old(kernel.q) || x in w[..k]
        decreases |w| - k
      {
        ReleasedNext(k);
        FirstPart(w, k);
        assert alarms[k..][0] == alarms[k];
        var next := d.wakeupNext;
        ok := ReleaseFirst(d, now, k, n);
        if !ok { return; }
        d, k := next, k + 1;
      }
      if k < |w| { ReleasedNext(k); }
      assert k == n && w[k..n] == [];
      WakeNone(kernel.Abs(now), now, kernel.timeslice);
    }

    /** The first of the dispatchers that are due, seen as a step of WakeAll. */
    method ReleaseFirst(d: Dcb, now: nat, ghost k: nat, ghost n: nat) returns (ok: bool)
      requires kernel.Valid() && live <= kernel.dcbs && k < n <= |w| && Released(k) && d == w[k]
      modifies d`wakeupTime, d`wakeupPrev, d`wakeupNext, kernel, kernel.dcbs`next, d`task
      ensures kernel.dcbs == old(kernel.dcbs) && Released(k + 1)
      ensures AlarmsOf(w[k + 1..]) == old(AlarmsOf(w[k..]))[1..]
      ensures WakeAll(old(kernel.Abs(now)), old(TasksOf(w[k..n])), now, kernel.timeslice)
           == if ok then WakeAll(kernel.Abs(now), TasksOf(w[k + 1..n]), now, kernel.timeslice) else None
      ensures ok ==> kernel.Valid() && forall x :: x in kernel.q <==> x in old(kernel.q) || x == d
    {
      hide AlarmsOf; hide Kernel.Valid; hide Released; hide TasksOf; hide MakeRunnable; hide Hurry; hide Kernel.Abs;
      DueTail(k, n);
      ReleasedNext(k);
      kernel.Lookup(d);
      ok := Release(d, now, k);
    }

    lemma DueTail(k: nat, n: nat)
      requires k < n <= |w| && Released(k)
      ensures |w[k..n]| > 0 && w[k..n][0] == w[k] && TasksOf(w[k..n])[0] == w[k].task
      ensures TasksOf(w[k..n])[1..] == TasksOf(w[k + 1..n]) && w[k] !in w[k + 1..n]
    {
      hide NextIn; hide PrevIn; hide UniqueIds; hide TasksOf;
      var s := w[k..n];
      TasksSplit(s, 1);
      assert s[1..] == w[k + 1..n];
    }

    /** wakeup_check: exactly the dispatchers whose time has come leave the queue and
        become runnable; the scheduler ends up in the state that queueing and hurrying
        them in turn gives, or stops exactly if one of them cannot be queued. */
    method Check(now: nat) returns (ok: bool)
      requires Valid() && kernel.Valid() && live <= kernel.dcbs
      modifies this`head, this`nextWakeup, this`lastTimer, this`hardware, this`w
      modifies live`wakeupTime, live`wakeupPrev, live`wakeupNext, kernel, kernel.dcbs`next, kernel.dcbs`task
      ensures kernel.dcbs == old(kernel.dcbs)
      ensures ok <==> WakeAll(old(kernel.Abs(now)), old(DueTasks(now)), now, kernel.timeslice).Some?
      ensures ok ==> kernel.Abs(now) == WakeAll(old(kernel.Abs(now)), old(DueTasks(now)), now, kernel.timeslice).value
      ensures ok ==> Valid() && kernel.Valid() && AlarmsOf(w) == Later(old(AlarmsOf(w)), now)
      ensures ok ==> forall x :: x in kernel.q <==> x in old(kernel.q) || (x in old(w) && x !in w)
    {
      hide AlarmsOf; hide ByTime; hide TimerOk; hide Kernel.Valid; hide Place; hide Released; hide Linked;
      hide Flagged; hide NextIsHead;
      hide WakeAll; hide DueTasks; hide Kernel.Abs;
      ghost var alarms := AlarmsOf(w);
      var d;
      ghost var k;
      ok, d, k := ReleaseDue(now);
      if !ok { return; }
      DueIsExact(alarms, now);
      ReleasedParts(k);
      Cut(d, k);
    }

    /** schedule with the one-shot timer: whoever is dispatched anew gets the timer set to
        the end of its budget. False also stands for a timer value that wraps to zero,
        which update_timer refuses. */
    method Schedule(now: nat, current: Dcb?) returns (ok: bool, chosen: Dcb?, stay: bool)
      requires Valid() && kernel.Valid() && LoadOk(TasksOf(kernel.q)) && (current != null ==> current in kernel.dcbs)
      requires kernel.lastdisp != null ==> kernel.lastdisp.task.lastDispatch <= now
      requires BudgetsPositive(Account(TasksOf(kernel.q), kernel.Abs(now).last, now), kernel.timeslice)
      modifies kernel, kernel.dcbs`next, kernel.dcbs`task, this`nextSched, this`lastTimer, this`hardware
      ensures var r := Pick(Account(old(TasksOf(kernel.q)), old(kernel.Abs(now)).last, now), now, kernel.timeslice);
        && (ok ==> r.Picked? && kernel.Valid() && Valid() && kernel.Abs(now) == Sched(r.queue, r.choice, now))
        && (r.Picked? && !ok ==> kernel.lastdisp != null && !stay && TimerAt(now, kernel.lastdisp.task) == 0)
      ensures ok && (kernel.lastdisp == null || stay) ==> nextSched == old(nextSched)
      ensures ok && kernel.lastdisp != null && !stay ==> nextSched == TimerAt(now, kernel.lastdisp.task) != 0
    {
      hide Kernel.Valid; hide LoadOk; hide BudgetsPositive; hide Account; hide Pick; hide TasksOf; hide Kernel.Chosen;
      hide Linked; hide Flagged; hide AlarmsOf; hide ByTime; hide Kernel.Abs;
      ok, chosen, stay := kernel.Schedule(now, current);
      if ok && kernel.lastdisp != null && !stay {
        var t := TimerAt(now, kernel.lastdisp.task);
        if t == 0 { ok := false; return; }
        UpdateSchedTimer(t);
      }
    }

    function Head(): (d: Dcb?)
      requires Linked()
      reads this`head, this`w, this`live, live`wakeupPrev, live`wakeupNext
      ensures d == if w == [] then null else w[0]
    {
      head
    }

    lemma ReleasedParts(k: nat)
      requires k <= |w| && Released(k)
      ensures forall x :: x in w && x !in w[k..] <==> x in w[..k]
    {
      hide UniqueIds; hide NextIn; hide PrevIn;
      Suffix(w, k);
    }
  }

  lemma WakeNone(s: Sched, now: nat, timeslice: nat)
    ensures WakeAll(s, [], now, timeslice) == Some(s) && TasksOf([]) == []
  {}

  lemma FirstPart(s: seq<Dcb>, k: nat)
    requires k < |s|
    ensures forall x :: x in s[..k + 1] <==> x in s[..k] || x == s[k]
  {
    assert s[..k + 1] == s[..k] + [s[k]];
  }

  lemma SuffixParts(s: seq<Dcb>, k: nat)
    requires Distinct(s) && k <= |s|
    ensures Distinct(s[k..])
    ensures forall x :: x in s <==> x in s[..k] || x in s[k..]
    ensures forall x :: x in s[..k] ==> x !in s[k..]
  {
    assert s == s[..k] + s[k..];
  }

  lemma SuffixLinks(s: seq<Dcb>, k: nat, i: nat)
    requires Distinct(s) && k <= i < |s|
    ensures NextIn(s[k..], s[i]) == NextIn(s, s[i]) && PrevIn(s[k..], s[i]) == if i == k then null else PrevIn(s, s[i])
  {
    hide NextIn; hide PrevIn; hide Distinct;
    SuffixParts(s, k);
    var r := s[k..];
    assert r[i - k] == s[i];
    NextAt(r, i - k);
    NextAt(s, i);
    PrevAt(r, i - k);
    PrevAt(s, i);
  }

  lemma Suffix(s: seq<Dcb>, k: nat)
    requires Distinct(s) && k <= |s|
    ensures Distinct(s[k..])
    ensures forall x :: x in s[k..] ==> NextIn(s[k..], x) == NextIn(s, x)
    ensures forall x :: x in s[k..] ==> PrevIn(s[k..], x) == if x == s[k] then null else PrevIn(s, x)
    ensures forall x :: x !in s[k..] ==> NextIn(s[k..], x) == null == PrevIn(s[k..], x)
    ensures forall x :: x !in s ==> NextIn(s, x) == null == PrevIn(s, x)
    ensures forall x :: x in s <==> x in s[..k] || x in s[k..]
    ensures forall x :: x in s[..k] ==> x !in s[k..]
  {
    hide NextIn; hide PrevIn;
    SuffixParts(s, k);
    var r := s[k..];
    forall x | x in r
      ensures NextIn(r, x) == NextIn(s, x) && PrevIn(r, x) == if x == s[k] then null else PrevIn(s, x)
    {
      var i :| k <= i < |s| && s[i] == x;
      SuffixLinks(s, k, i);
    }
    forall x | x !in r ensures NextIn(r, x) == null == PrevIn(r, x) {
      NextOutside(r, x);
      PrevOutside(r, x);
    }
    forall x | x !in s ensures NextIn(s, x) == null == PrevIn(s, x) {
      NextOutside(s, x);
      PrevOutside(s, x);
    }
  }

  lemma AlarmsTail(s: seq<Dcb>, k: nat)
    requires Distinct(s) && k < |s|
    ensures AlarmsOf(s[k + 1..]) == AlarmsOf(s[k..])[1..] && s[k] !in s[k + 1..]
  {
    hide AlarmsOf;
    AlarmsSplit(s[k..], 1);
    assert s[k..][1..] == s[k + 1..];
  }

  lemma Fresh(s: seq<Dcb>, k: nat)
    requires Distinct(s) && k < |s|
    ensures s[k] !in s[..k]
    ensures forall x :: x in s[..k + 1] <==> x in s[..k] || x == s[k]
  {
    assert s[..k + 1] == s[..k] + [s[k]];
  }

  lemma PutMembers(s: seq<Dcb>, k: nat, d: Dcb)
    requires k <= |s|
    ensures forall x :: x in s[..k] + [d] + s[k..] <==> x in s || x == d
  {
    assert s == s[..k] + s[k..];
  }

  lemma CutMembers(s: seq<Dcb>, k: nat)
    requires Distinct(s) && k < |s|
    ensures forall x :: x in s[..k] + s[k + 1..] <==> x in s && x != s[k]
  {
    assert s == s[..k] + [s[k]] + s[k + 1..];
  }
}
