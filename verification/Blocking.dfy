/** No wake-up is lost: blocking in sys_yield, message delivery, timed wake-ups and the
    scheduler as one state machine. */
module Blocking {
  import opened Wrappers
  import opened Rbed
  import opened RbedRuns
  import opened Names
  import opened Wakeup
  import RbedFair

  const WORD: nat := 0x1_0000_0000

  /** What a dispatcher shares with the kernel. The two message counters are 32 bits
      wide and wrap around. */
  datatype Disp = Disp(haswork: bool, delivered: nat, seen: nat, wakeup: nat)

  /** `parked` are the dispatchers that the kernel has taken out of the run queue because of
      too many faults, or has set up with something outstanding without starting them, and
      that nothing has made runnable since. `strays` are those that got
      to run although they were not in the run queue, and that have neither been made
      runnable nor blocked in sys_yield since. */
  datatype Sys = Sys(sched: Sched, alarms: seq<Alarm>, disps: map<nat, Disp>, current: Option<nat>,
                     parked: set<nat>, strays: set<nat>)

  const BOOT := Sys(Sched([], None, 0), [], map[], None, {}, {})

  /** What may happen. `tasks` gives the scheduling parameters of dispatchers that are
      not queued. A dispatcher is created with whatever the frame holds that it is set up
      with, and started at once or not. A send with the sync flag switches to the receiver once the message is
      delivered; one with the yield flag also switches to it if the message is refused. */
  datatype Event =
    | Create(d: nat, disp: Disp, run: bool, tasks: map<nat, Task>, now: nat)
    | Destroy(d: nat)
    | User(disp: Disp)
    | Deliver(to: nat, words: nat, hurry: bool, sync: bool, tasks: map<nat, Task>, now: nat)
    | Refused(to: nat)
    | Yield(target: Option<nat>, offset: nat, tasks: map<nat, Task>, now: nat)
    | Properties(d: nat, tasks: map<nat, Task>, now: nat)
    | Tick(tasks: map<nat, Task>, now: nat)
    | Fault(now: nat)
    | Reschedule(now: nat)

  ghost predicate Runnable(s: Sys, d: nat) { d in NamesOf(s.sched.q) }

  function TaskFor(tasks: map<nat, Task>, d: nat): (t: Task)
    ensures t.id == d
  {
    if d in tasks && tasks[d].id == d then tasks[d] else Task(d, BestEffort, 0, 0, 0, 0, 0, 0, 1)
  }

  /** dispatch(schedule()), if it comes back. If nothing changed, whoever ran goes on
      running, unless it is blocked. */
  ghost function Dispatched(s: Sys, now: nat, timeslice: nat): Option<Sys> {
    var q := Account(s.sched.q, s.sched.last, now);
    if !BudgetsPositive(q, timeslice) then None
    else
      var r := Pick(q, now, timeslice);
      if r.Halted? then None
      else
        var stay := r.choice.Some? && r.exhausted == [] && s.sched.last == r.choice && s.current.Some?
          && Queued(r.queue, s.current.value);
        Some(s.(sched := Sched(r.queue, r.choice, now), current := if stay then s.current else r.choice))
  }

  /** The tasks of the dispatchers whose alarms are given. */
  function TasksFor(tasks: map<nat, Task>, due: seq<Alarm>): (ts: seq<Task>)
    ensures |ts| == |due| && forall i :: 0 <= i < |due| ==> ts[i].id == due[i].id
  {
    if due == [] then [] else [TaskFor(tasks, due[0].id)] + TasksFor(tasks, due[1..])
  }

  ghost function Ids(ts: seq<Task>): set<nat> { set i | 0 <= i < |ts| :: ts[i].id }

  /** The condition of sys_yield for leaving the run queue. */
  predicate MayBlock(d: Disp, now: nat, offset: nat) {
    !d.haswork && d.delivered == d.seen && (d.wakeup == 0 || d.wakeup > now + offset)
  }

  /** sys_yield up to the point where it dispatches the next one. */
  function Yielding(s: Sys, d: nat, offset: nat, now: nat): Sys
    requires d in s.disps
  {
    var disp := s.disps[d];
    if MayBlock(disp, now, offset)
    then s.(sched := Remove(s.sched, d), strays := s.strays - {d},
            alarms := if disp.wakeup != 0 then Arm(s.alarms, d, disp.wakeup) else s.alarms)
    else s.(sched := YieldTask(s.sched, d, now))
  }

  /** Nothing is outstanding for a dispatcher without an alarm. */
  predicate Settled(d: Disp) { !d.haswork && d.delivered == d.seen && d.wakeup == 0 }

  /** The removal of a dispatcher that has taken too many faults. */
  function Park(s: Sys, d: nat): Sys { s.(sched := Remove(s.sched, d), parked := s.parked + {d}) }

  /** What wakeup_check leaves once the due dispatchers are queued. */
  ghost function Woken(s: Sys, due: seq<Task>, sched: Sched, now: nat): Sys {
    s.(sched := sched, alarms := Later(s.alarms, now), parked := s.parked - Ids(due), strays := s.strays - Ids(due))
  }

  /** One event; None if it cannot happen now or if the kernel does not come back. */
  ghost function Next(s: Sys, e: Event, timeslice: nat): (r: Option<Sys>) {
    match e
    case Create(d, disp, run, tasks, now) =>
      if d in s.disps then None
      else
        var s1 := s.(disps := s.disps[d := disp]);
        if !run then Some(if Settled(disp) then s1 else s1.(parked := s.parked + {d}))
        else
          var r := MakeRunnable(s.sched, TaskFor(tasks, d), now, timeslice);
          if r.None? then None else Some(s1.(sched := r.value))
    case Destroy(d) =>
      if d !in s.disps then None
      else Some(Sys(Remove(s.sched, d), TakeOut(s.alarms, d), s.disps - {d},
                    if s.current == Some(d) then None else s.current,
                    s.parked - {d}, s.strays - {d}))
    case User(disp) =>
      // Only the running dispatcher changes what it shares; the kernel alone counts deliveries.
      if s.current.None? || s.current.value !in s.disps then None
      else Some(s.(disps := s.disps[s.current.value := disp.(delivered := s.disps[s.current.value].delivered)]))
    case Deliver(to, words, hurry, sync, tasks, now) =>
      if to !in s.disps || (sync && s.current.None?) then None
      else
        var r := MakeRunnable(s.sched, TaskFor(tasks, to), now, timeslice);
        if r.None? then None
        else
          var d := s.disps[to];
          Some(s.(sched := if hurry then Hurry(r.value, to, now) else r.value,
                  parked := s.parked - {to}, strays := s.strays - {to},
                  current := if sync then Some(to) else s.current,
                  disps := s.disps[to := d.(delivered := (d.delivered + words) % WORD)]))
    case Refused(to) =>
      if to !in s.disps || s.current.None? then None
      else Some(s.(current := Some(to), strays := if Runnable(s, to) then s.strays else s.strays + {to}))
    case Yield(target, offset, tasks, now) =>
      if s.current.None? || s.current.value !in s.disps then None
      else
        var s1 := Yielding(s, s.current.value, offset, now);
        if target.None? then Dispatched(s1, now, timeslice)
        else if target.value !in s.disps then None
        else
          var r := MakeRunnable(s1.sched, TaskFor(tasks, target.value), now, timeslice);
          if r.None? then None
          else Some(s1.(sched := r.value, current := target, parked := s.parked - {target.value},
            strays := s1.strays - {target.value}))
    case Properties(d, tasks, now) =>
      if d !in s.disps then None
      else
        var r := SetProperties(s.sched, TaskFor(tasks, d), now, timeslice);
        if r.None? then None else Some(s.(sched := r.value, parked := s.parked - {d}, strays := s.strays - {d}))
    case Tick(tasks, now) =>
      var due := TasksFor(tasks, Due(s.alarms, now));
      var r := WakeAll(s.sched, due, now, timeslice);
      if r.None? then None
      else Dispatched(Woken(s, due, r.value, now), now, timeslice)
    case Fault(now) =>
      if s.current.None? || s.current.value !in s.disps then None
      else Dispatched(Park(s, s.current.value), now, timeslice)
    case Reschedule(now) => Dispatched(s, now, timeslice)
  }

  // ---------- Invariant ----------

  /** A dispatcher outside the run queue has no work and has seen every message, and its
      requested wake-up, if any, is in the wake-up queue. */
  ghost predicate Remembered(s: Sys, d: nat)
    requires d in s.disps
  {
    Runnable(s, d) || (
      && !s.disps[d].haswork
      && s.disps[d].delivered == s.disps[d].seen
      && (s.disps[d].wakeup != 0 ==> Alarm(d, s.disps[d].wakeup) in s.alarms))
  }

  /** The scheduler has not lost sight of the dispatcher. */
  predicate Ordinary(s: Sys, d: nat) { d !in s.parked && d !in s.strays }

  ghost predicate Inv(s: Sys) {
    && Unique(s.sched.q)
    && ByTime(s.alarms)
    && OneAlarmEach(s.alarms)
    && (forall d :: d in NamesOf(s.sched.q) ==> d in s.disps)
    && (forall a :: a in s.alarms ==> a.id in s.disps)
    && (s.current.Some? ==> Runnable(s, s.current.value) || s.current.value in s.strays)
    && (forall d :: d in s.disps && Ordinary(s, d) ==> Remembered(s, d))
  }

  ghost predicate OneAlarmEach(s: seq<Alarm>) { forall i, j :: 0 <= i < j < |s| ==> s[i].id != s[j].id }

  // ---------- Alarms ----------

  lemma PutInMembers(s: seq<Alarm>, a: Alarm)
    ensures forall x :: x in PutIn(s, a) <==> x in s || x == a
    ensures OneAlarmEach(s) && (forall x :: x in s ==> x.id != a.id) ==> OneAlarmEach(PutIn(s, a))
  {
    hide Place; hide OneAlarmEach;
    var k := Place(s, a.time);
    assert s == s[..k] + s[k..];
    if OneAlarmEach(s) && (forall x :: x in s ==> x.id != a.id) { PutOnce(s, k, a); }
  }

  lemma PutOnce(s: seq<Alarm>, k: nat, a: Alarm)
    requires k <= |s| && OneAlarmEach(s) && forall x :: x in s ==> x.id != a.id
    ensures OneAlarmEach(s[..k] + [a] + s[k..])
  {
    var r := s[..k] + [a] + s[k..];
    forall i, j | 0 <= i < j < |r| ensures r[i].id != r[j].id {
      assert r[i] == if i < k then s[i] else if i == k then a else s[i - 1];
      assert r[j] == if j < k then s[j] else if j == k then a else s[j - 1];
    }
  }

  lemma TakeOutMembers(s: seq<Alarm>, d: nat)
    requires OneAlarmEach(s)
    ensures OneAlarmEach(TakeOut(s, d))
    ensures forall x :: x in TakeOut(s, d) <==> x in s && x.id != d
  {
    hide Where;
    var k := Where(s, d);
    if k < |s| {
      var r := TakeOut(s, d);
      assert s == s[..k] + [s[k]] + s[k + 1..];
      forall i, j | 0 <= i < j < |r| ensures r[i].id != r[j].id {
        assert r[i] == s[if i < k then i else i + 1];
        assert r[j] == s[if j < k then j else j + 1];
      }
      forall x | x in r ensures x in s && x.id != d {
        var i :| 0 <= i < |r| && r[i] == x;
        assert r[i] == s[if i < k then i else i + 1];
      }
    }
  }

  lemma ArmMembers(s: seq<Alarm>, d: nat, time: nat)
    requires ByTime(s) && OneAlarmEach(s)
    ensures ByTime(Arm(s, d, time)) && OneAlarmEach(Arm(s, d, time))
    ensures forall x :: x in Arm(s, d, time) <==> (x in s && x.id != d) || x == Alarm(d, time)
  {
    hide TakeOut; hide PutIn; hide ByTime; hide OneAlarmEach;
    TakeOutMembers(s, d);
    TakeOutByTime(s, d);
    PutInMembers(TakeOut(s, d), Alarm(d, time));
    PutInByTime(TakeOut(s, d), Alarm(d, time));
  }

  // ---------- Scheduler pieces ----------

  lemma HurryNames(s: Sched, d: nat, now: nat)
    requires Unique(s.q)
    ensures Unique(Hurry(s, d, now).q) && NamesOf(Hurry(s, d, now).q) == NamesOf(s.q)
  {
    hide NamesOf; hide Unique;
    var k := Position(s.q, d);
    if k < |s.q| { UpdateNames(s.q, k, Hurried(s.q[k], now)); }
  }

  lemma {:induction false} WakeAllNames(s: Sched, due: seq<Task>, now: nat, timeslice: nat)
    requires Unique(s.q)
    ensures var r := WakeAll(s, due, now, timeslice);
      r.Some? ==> Unique(r.value.q) && NamesOf(r.value.q) == NamesOf(s.q) + Ids(due)
    decreases |due|
  {
    hide NamesOf; hide Unique; hide MakeRunnable; hide Hurry; hide Ids;
    IdsCons(due);
    if due != [] {
      var r := MakeRunnable(s, due[0], now, timeslice);
      if r.Some? {
        MakeNames(s, due[0], now, timeslice);
        HurryNames(r.value, due[0].id, now);
        WakeAllNames(Hurry(r.value, due[0].id, now), due[1..], now, timeslice);
      }
    }
  }

  lemma IdsCons(ts: seq<Task>)
    ensures ts == [] ==> Ids(ts) == {}
    ensures ts != [] ==> Ids(ts) == {ts[0].id} + Ids(ts[1..])
  {
    if ts != [] {
      assert forall i :: 1 <= i < |ts| ==> ts[i] == ts[1..][i - 1];
      assert forall i :: 0 <= i < |ts[1..]| ==> ts[1..][i] == ts[i + 1];
    }
  }

  lemma IdsAre(tasks: map<nat, Task>, due: seq<Alarm>)
    ensures forall a :: a in due ==> a.id in Ids(TasksFor(tasks, due))
    ensures forall n :: n in Ids(TasksFor(tasks, due)) ==> exists a :: a in due && a.id == n
  {
    var ts := TasksFor(tasks, due);
    forall a | a in due ensures a.id in Ids(ts) {
      var i :| 0 <= i < |due| && due[i] == a;
      assert ts[i].id == a.id;
    }
    forall n | n in Ids(ts) ensures exists a :: a in due && a.id == n {
      var i :| 0 <= i < |ts| && ts[i].id == n;
      assert due[i] in due;
    }
  }

  lemma DispatchedKeeps(s: Sys, now: nat, timeslice: nat)
    requires Unique(s.sched.q)
    ensures var r := Dispatched(s, now, timeslice);
      r.Some? ==> (
        && Unique(r.value.sched.q) && NamesOf(r.value.sched.q) == NamesOf(s.sched.q)
        && r.value.alarms == s.alarms && r.value.disps == s.disps && r.value.parked == s.parked
          && r.value.strays == s.strays
        && (r.value.current.Some? ==> r.value.current.value in NamesOf(s.sched.q)))
  {
    hide NamesOf; hide Unique; hide Pick; hide BudgetsPositive;
    AccountNames(s.sched.q, s.sched.last, now);
    var q := Account(s.sched.q, s.sched.last, now);
    if BudgetsPositive(q, timeslice) {
      PickNames(q, now, timeslice);
      var r := Pick(q, now, timeslice);
      if r.Picked? && s.current.Some? { QueuedIsNamed(r.queue, s.current.value); }
    }
  }

  // ---------- Every event keeps the invariant ----------

  /** It is enough that no name leaves the run queue and no alarm is lost. */
  lemma GrowingKeeps(s: Sys, s': Sys)
    requires Inv(s) && Unique(s'.sched.q) && s'.disps == s.disps && s'.alarms == s.alarms
    requires forall d :: Ordinary(s', d) && !Ordinary(s, d) ==> Runnable(s', d)
    requires forall n :: n in NamesOf(s.sched.q) ==> n in NamesOf(s'.sched.q)
    requires forall n :: n in NamesOf(s'.sched.q) ==> n in s.disps
    requires s'.current.Some? ==> Runnable(s', s'.current.value) || s'.current.value in s'.strays
    ensures Inv(s')
  {
    hide NamesOf; hide Unique; hide ByTime; hide OneAlarmEach;
    assert forall d :: d in s'.disps && Ordinary(s, d) ==> Remembered(s, d);
  }

  /** A new dispatcher is remembered exactly if it is started, or has neither work nor an
      unseen message nor a wake-up to ask for. */
  lemma CreateKeeps(s: Sys, e: Event, timeslice: nat)
    requires Inv(s) && e.Create? && Next(s, e, timeslice).Some?
    ensures var s' := Next(s, e, timeslice).value;
      && Inv(s') && e.d in s'.disps
      && (Remembered(s', e.d) <==>
            e.run || (!e.disp.haswork && e.disp.delivered == e.disp.seen && e.disp.wakeup == 0))
  {
    hide NamesOf; hide Unique; hide ByTime; hide OneAlarmEach; hide MakeRunnable;
    MakeNames(s.sched, TaskFor(e.tasks, e.d), e.now, timeslice);
    var s' := Next(s, e, timeslice).value;
    forall x | x in s'.disps && Ordinary(s', x) ensures Remembered(s', x) {
      if x != e.d { assert Remembered(s, x); }
    }
  }

  lemma DestroyKeeps(s: Sys, d: nat, timeslice: nat)
    requires Inv(s) && d in s.disps
    ensures var s' := Next(s, Destroy(d), timeslice).value;
      Inv(s') && !Runnable(s', d) && forall a :: a in s'.alarms ==> a.id != d
  {
    hide NamesOf; hide Unique; hide ByTime; hide OneAlarmEach; hide TakeOut; hide Remove;
    RemoveNames(s.sched, d);
    TakeOutMembers(s.alarms, d);
    TakeOutByTime(s.alarms, d);
    var s' := Next(s, Destroy(d), timeslice).value;
    forall x | x in s'.disps && Ordinary(s', x) ensures Remembered(s', x) {
      if Ordinary(s, x) { assert Remembered(s, x); }
    }
  }

  lemma UserKeeps(s: Sys, disp: Disp, timeslice: nat)
    requires Inv(s) && Next(s, User(disp), timeslice).Some?
    ensures Inv(Next(s, User(disp), timeslice).value)
  {
    hide NamesOf; hide Unique; hide ByTime; hide OneAlarmEach;
    var s' := Next(s, User(disp), timeslice).value;
    forall x | x in s'.disps && Ordinary(s', x) ensures Remembered(s', x) {
      if Ordinary(s, x) { assert Remembered(s, x); }
    }
  }

  lemma DeliverKeeps(s: Sys, e: Event, timeslice: nat)
    requires Inv(s) && e.Deliver? && Next(s, e, timeslice).Some?
    ensures var s' := Next(s, e, timeslice).value;
      Inv(s') && Runnable(s', e.to) && (e.sync ==> s'.current == Some(e.to))
  {
    hide NamesOf; hide Unique; hide ByTime; hide OneAlarmEach; hide MakeRunnable; hide Hurry;
    var t := TaskFor(e.tasks, e.to);
    MakeNames(s.sched, t, e.now, timeslice);
    HurryNames(MakeRunnable(s.sched, t, e.now, timeslice).value, e.to, e.now);
    var s' := Next(s, e, timeslice).value;
    forall x | x in s'.disps && Ordinary(s', x) ensures Remembered(s', x) {
      if Ordinary(s, x) { assert Remembered(s, x); }
    }
  }

  /** sys_yield takes a dispatcher out of the run queue exactly if it has no work, has seen
      all messages, and asks for no wake-up or for one later than now. It puts nobody in. */
  lemma YieldingKeeps(s: Sys, d: nat, offset: nat, now: nat)
    requires Inv(s) && d in s.disps
    ensures Inv(Yielding(s, d, offset, now).(current := None))
    ensures var disp := s.disps[d];
      forall x :: Runnable(Yielding(s, d, offset, now), x) <==>
        Runnable(s, x) && (x == d ==>
          disp.haswork || disp.delivered != disp.seen || 0 < disp.wakeup <= now + offset)
    ensures Yielding(s, d, offset, now).disps == s.disps && Yielding(s, d, offset, now).parked == s.parked
    ensures Yielding(s, d, offset, now).strays <= s.strays
  {
    hide NamesOf; hide Unique; hide ByTime; hide OneAlarmEach; hide Arm; hide Remove; hide YieldTask;
    var s' := Yielding(s, d, offset, now).(current := None);
    RemoveNames(s.sched, d);
    YieldNames(s.sched, d, now);
    ArmMembers(s.alarms, d, s.disps[d].wakeup);
    forall x | x in s'.disps && Ordinary(s', x) ensures Remembered(s', x) {
      if Ordinary(s, x) { assert Remembered(s, x); }
    }
  }

  /** A best-effort dispatcher that yields and stays in the run queue lets all others pass. */
  lemma YieldLetsOthersPass(s: Sys, d: nat, offset: nat, now: nat)
    requires d in s.disps && Stays(s, d, now + offset) && Queued(s.sched.q, d)
    requires RbedFair.FairQueue(s.sched.q, s.sched.clock) && s.sched.clock <= now
    ensures var q := Yielding(s, d, offset, now).sched.q;
      |q| == |s.sched.q| && q[|q| - 1].id == d
  {
    hide RbedFair.FairQueue; hide Insert;
    var q := s.sched.q;
    var k := Position(q, d);
    RbedFair.Head(q, k, s.sched.clock);
    RbedFair.MoveToTail(q, k, Yielded(q[k], now), s.sched.clock, now);
  }

  lemma YieldKeeps(s: Sys, e: Event, timeslice: nat)
    requires Inv(s) && e.Yield? && Next(s, e, timeslice).Some?
    ensures Inv(Next(s, e, timeslice).value)
  {
    hide NamesOf; hide Unique; hide ByTime; hide OneAlarmEach; hide Yielding; hide MakeRunnable; hide Remembered;
    hide Dispatched;
    YieldingKeeps(s, s.current.value, e.offset, e.now);
    var s1 := Yielding(s, s.current.value, e.offset, e.now);
    if e.target.None? {
      DispatchedKeeps(s1, e.now, timeslice);
    } else {
      MakeNames(s1.sched, TaskFor(e.tasks, e.target.value), e.now, timeslice);
    }
    GrowingKeeps(s1.(current := None), Next(s, e, timeslice).value);
  }

  lemma PropertiesKeeps(s: Sys, e: Event, timeslice: nat)
    requires Inv(s) && e.Properties? && Next(s, e, timeslice).Some?
    ensures Inv(Next(s, e, timeslice).value)
  {
    hide NamesOf; hide Unique; hide ByTime; hide OneAlarmEach; hide MakeRunnable; hide Remove; hide Remembered;
    var t := TaskFor(e.tasks, e.d);
    RemoveNames(s.sched, e.d);
    MakeNames(Remove(s.sched, e.d), if t.release == 0 then t.(release := e.now) else t, e.now, timeslice);
    GrowingKeeps(s, Next(s, e, timeslice).value);
  }

  /** After a tick, no dispatcher whose requested time has come is still blocked. */
  lemma TickKeeps(s: Sys, e: Event, timeslice: nat)
    requires Inv(s) && e.Tick? && Next(s, e, timeslice).Some?
    ensures var s' := Next(s, e, timeslice).value;
      Inv(s') && forall d :: d in s'.disps && Ordinary(s', d) && 0 < s'.disps[d].wakeup <= e.now ==> Runnable(s', d)
  {
    hide NamesOf; hide Unique; hide ByTime; hide OneAlarmEach; hide WakeAll; hide Dispatched; hide Due; hide Later;
    hide Ids; hide TasksFor;
    var due := TasksFor(e.tasks, Due(s.alarms, e.now));
    var r := WakeAll(s.sched, due, e.now, timeslice);
    var s1 := Woken(s, due, r.value, e.now);
    var s' := Next(s, e, timeslice).value;
    WakeAllNames(s.sched, due, e.now, timeslice);
    IdsAre(e.tasks, Due(s.alarms, e.now));
    DueIsExact(s.alarms, e.now);
    LaterOnce(s.alarms, e.now);
    DispatchedKeeps(s1, e.now, timeslice);
    forall d | d in s'.disps && Ordinary(s', d)
      ensures Remembered(s', d) && (0 < s'.disps[d].wakeup <= e.now ==> Runnable(s', d))
    {
      if Ordinary(s, d) {
        assert Remembered(s, d);
        var a := Alarm(d, s.disps[d].wakeup);
        if !Runnable(s, d) && s.disps[d].wakeup != 0 { assert a in s.alarms; }
      }
    }
  }

  lemma LaterOnce(s: seq<Alarm>, now: nat)
    requires OneAlarmEach(s)
    ensures OneAlarmEach(Later(s, now))
  {
    hide Place;
  }

  lemma NextKeeps(s: Sys, e: Event, timeslice: nat)
    requires Inv(s) && Next(s, e, timeslice).Some?
    ensures Inv(Next(s, e, timeslice).value)
  {
    hide Inv; hide Next;
    match e
    case Create(_, _, _, _, _) => CreateKeeps(s, e, timeslice);
    case Destroy(d) => assert d in s.disps by { NextDestroy(s, d, timeslice); } DestroyKeeps(s, d, timeslice);
    case User(disp) => UserKeeps(s, disp, timeslice);
    case Deliver(_, _, _, _, _, _) => DeliverKeeps(s, e, timeslice);
    case Refused(to) => RefusedKeeps(s, to, timeslice);
    case Yield(_, _, _, _) => YieldKeeps(s, e, timeslice);
    case Properties(_, _, _) => PropertiesKeeps(s, e, timeslice);
    case Tick(_, _) => TickKeeps(s, e, timeslice);
    case Fault(now) => FaultKeeps(s, now, timeslice);
    case Reschedule(now) => RescheduleKeeps(s, now, timeslice);
  }

  /** A dispatcher parked by faults is remembered like any blocked one exactly if it has no
      work, has seen all its messages, and its requested wake-up, if any, is still in the wake-up
      queue. Nothing checks this when it is parked. */
  lemma FaultKeeps(s: Sys, now: nat, timeslice: nat)
    requires Inv(s) && Next(s, Fault(now), timeslice).Some?
    ensures var s', d := Next(s, Fault(now), timeslice).value, s.current.value;
      && Inv(s') && d in s'.parked && !Runnable(s', d) && d in s'.disps
      && (Remembered(s', d) <==>
            !s.disps[d].haswork && s.disps[d].delivered == s.disps[d].seen
              && (s.disps[d].wakeup != 0 ==> Alarm(d, s.disps[d].wakeup) in s.alarms))
  {
    hide NamesOf; hide Unique; hide ByTime; hide OneAlarmEach; hide Remove; hide Dispatched;
    var d := s.current.value;
    RemoveNames(s.sched, d);
    DispatchedKeeps(Park(s, d), now, timeslice);
    var s' := Next(s, Fault(now), timeslice).value;
    forall x | x in s'.disps && Ordinary(s', x) ensures Remembered(s', x) {
      if Ordinary(s, x) { assert Remembered(s, x); }
    }
  }

  /** A refused send switches to a receiver that may be blocked. The invariant that whoever
      runs is runnable survives exactly if the receiver is. */
  lemma RefusedKeeps(s: Sys, to: nat, timeslice: nat)
    requires Inv(s) && Next(s, Refused(to), timeslice).Some?
    ensures var s' := Next(s, Refused(to), timeslice).value;
      && Inv(s') && s'.current == Some(to)
      && (Runnable(s', to) <==> Runnable(s, to))
      && (s'.strays == s.strays <==> Runnable(s, to) || to in s.strays)
  {
    hide NamesOf; hide Unique; hide ByTime; hide OneAlarmEach;
    var s' := Next(s, Refused(to), timeslice).value;
    forall x | x in s'.disps && Ordinary(s', x) ensures Remembered(s', x) {
      assert Ordinary(s, x) && Remembered(s, x);
    }
  }

  /** When a stray yields, it is remembered exactly if it has no work and has seen all
      messages, and asks for no wake-up, for one later than now, or for one that is in the
      wake-up queue. If sys_yield does not block it, scheduler_yield is of no use to it. */
  lemma StrayYields(s: Sys, e: Event, timeslice: nat)
    requires Inv(s) && e.Yield? && Next(s, e, timeslice).Some? && e.target != s.current && !Runnable(s, s.current.value)
    ensures var s', d := Next(s, e, timeslice).value, s.current.value;
      && d in s'.disps && !Runnable(s', d)
      && (Remembered(s', d) <==>
            var disp := s.disps[d];
            && !disp.haswork && disp.delivered == disp.seen
            && (disp.wakeup == 0 || disp.wakeup > e.now + e.offset || Alarm(d, disp.wakeup) in s.alarms))
  {
    hide NamesOf; hide Unique; hide ByTime; hide OneAlarmEach; hide Arm; hide Remove; hide YieldTask;
    hide MakeRunnable; hide Dispatched;
    var d := s.current.value;
    var s1 := Yielding(s, d, e.offset, e.now);
    RemoveNames(s.sched, d);
    YieldNames(s.sched, d, e.now);
    ArmMembers(s.alarms, d, s.disps[d].wakeup);
    if e.target.None? {
      DispatchedKeeps(s1, e.now, timeslice);
    } else {
      MakeNames(s1.sched, TaskFor(e.tasks, e.target.value), e.now, timeslice);
    }
  }

  /** Who is in the run queue after an event. Only sys_yield, too many faults and the end of
      a dispatcher take it out; only a start, a message, a directed yield, new scheduling
      parameters and an alarm that is due put it in. */
  lemma WhoIsQueued(s: Sys, e: Event, timeslice: nat, d: nat)
    requires Inv(s) && Next(s, e, timeslice).Some?
    ensures var s', was := Next(s, e, timeslice).value, Runnable(s, d);
      Runnable(s', d) <==>
      match e
      case Create(c, _, run, _, _) => was || (d == c && run)
      case Destroy(c) => was && d != c
      case User(_) => was
      case Deliver(to, _, _, _, _, _) => was || d == to
      case Refused(_) => was
      case Yield(target, offset, _, now) =>
        || target == Some(d)
        || (was && (s.current == Some(d) ==> Stays(s, d, now + offset)))
      case Properties(c, _, _) => was || d == c
      case Tick(_, now) => was || exists a :: a in s.alarms && a.id == d && a.time <= now
      case Fault(_) => was && s.current != Some(d)
      case Reschedule(_) => was
  {
    hide NamesOf; hide Unique; hide ByTime; hide OneAlarmEach; hide MakeRunnable; hide Remove; hide Hurry;
    hide Dispatched; hide TakeOut; hide WakeAll; hide Due; hide Later; hide Ids; hide TasksFor; hide Yielding;
    match e
    case Create(c, _, _, tasks, now) => MakeNames(s.sched, TaskFor(tasks, c), now, timeslice);
    case Destroy(c) => RemoveNames(s.sched, c);
    case User(_) =>
    case Deliver(to, _, _, _, tasks, now) =>
      MakeNames(s.sched, TaskFor(tasks, to), now, timeslice);
      HurryNames(MakeRunnable(s.sched, TaskFor(tasks, to), now, timeslice).value, to, now);
    case Refused(_) =>
    case Yield(target, offset, tasks, now) =>
      YieldingKeeps(s, s.current.value, offset, now);
      var s1 := Yielding(s, s.current.value, offset, now);
      if target.None? {
        DispatchedKeeps(s1, now, timeslice);
      } else {
        MakeNames(s1.sched, TaskFor(tasks, target.value), now, timeslice);
      }
    case Properties(c, tasks, now) =>
      var t := TaskFor(tasks, c);
      RemoveNames(s.sched, c);
      MakeNames(Remove(s.sched, c), if t.release == 0 then t.(release := now) else t, now, timeslice);
    case Tick(tasks, now) =>
      var due := TasksFor(tasks, Due(s.alarms, now));
      WakeAllNames(s.sched, due, now, timeslice);
      IdsAre(tasks, Due(s.alarms, now));
      DueIsExact(s.alarms, now);
      DispatchedKeeps(Woken(s, due, WakeAll(s.sched, due, now, timeslice).value, now), now, timeslice);
    case Fault(now) =>
      RemoveNames(s.sched, s.current.value);
      DispatchedKeeps(Park(s, s.current.value), now, timeslice);
    case Reschedule(now) => DispatchedKeeps(s, now, timeslice);
  }

  /** What is outstanding for a dispatcher after an event. Messages are counted when they
      are delivered, modulo the size of the counter; everything else that is shared is
      changed by the dispatcher alone, while it runs. An alarm is set when sys_yield blocks
      a dispatcher that asks for a wake-up, and stays until it is due. */
  lemma WhatIsOutstanding(s: Sys, e: Event, timeslice: nat, d: nat)
    requires Inv(s) && Next(s, e, timeslice).Some? && d in s.disps && d in Next(s, e, timeslice).value.disps
    ensures var s', disp := Next(s, e, timeslice).value, s.disps[d];
      && s'.disps[d].delivered ==
        (if e.Deliver? && e.to == d then (disp.delivered + e.words) % WORD else disp.delivered)
      && (if e.User? && s.current == Some(d)
          then s'.disps[d] == Disp(e.disp.haswork, disp.delivered, e.disp.seen, e.disp.wakeup)
          else s'.disps[d] == Disp(disp.haswork, s'.disps[d].delivered, disp.seen, disp.wakeup))
      && forall time: nat ::
        Alarm(d, time) in s'.alarms <==>
        if e.Yield? && s.current == Some(d) && !disp.haswork && disp.delivered == disp.seen
          && disp.wakeup > e.now + e.offset
        then time == disp.wakeup
        else Alarm(d, time) in s.alarms && (e.Tick? ==> time > e.now)
  {
    hide NamesOf; hide Unique; hide ByTime; hide OneAlarmEach; hide MakeRunnable; hide Remove; hide Hurry;
    hide TakeOut; hide WakeAll; hide Due; hide Later; hide Ids; hide TasksFor; hide YieldTask; hide Pick; hide Account;
    hide BudgetsPositive; hide SetProperties; hide Arm;
    if e.Yield? {
      ArmMembers(s.alarms, s.current.value, s.disps[s.current.value].wakeup);
    } else if e.Tick? {
      DueIsExact(s.alarms, e.now);
    } else if e.Destroy? {
      TakeOutMembers(s.alarms, e.d);
    }
  }

  /** Whom the scheduler loses sight of: those taken out because of faults or set up with
      something outstanding and not started, and those that a refused send switches to.
      They come back when something makes them runnable, strays also when they block. */
  lemma WhoIsLostNext(s: Sys, e: Event, timeslice: nat, d: nat)
    requires Inv(s) && Next(s, e, timeslice).Some?
    ensures var s' := Next(s, e, timeslice).value;
      var back :=
        match e
        case Destroy(c) => d == c
        case Deliver(to, _, _, _, _, _) => d == to
        case Yield(target, _, _, _) => target == Some(d)
        case Properties(c, _, _) => d == c
        case Tick(_, now) => exists a :: a in s.alarms && a.id == d && a.time <= now
        case _ => false;
      && (d in s'.parked <==>
            || (d in s.parked && !back)
            || (e.Fault? && s.current == Some(d))
            || (e.Create? && e.d == d && !e.run
                && (e.disp.haswork || e.disp.delivered != e.disp.seen || e.disp.wakeup != 0)))
      && (d in s'.strays <==>
            || (d in s.strays && !back && !(e.Yield? && s.current == Some(d) && !Stays(s, d, e.now + e.offset)))
            || (e.Refused? && e.to == d && !Runnable(s, d)))
  {
    hide NamesOf; hide Unique; hide ByTime; hide OneAlarmEach; hide MakeRunnable; hide Remove; hide Hurry;
    hide TakeOut; hide WakeAll; hide Due; hide Later; hide Ids; hide TasksFor; hide YieldTask; hide Pick; hide Account;
    hide BudgetsPositive; hide SetProperties; hide Arm;
    if e.Tick? {
      IdsAre(e.tasks, Due(s.alarms, e.now));
      DueIsExact(s.alarms, e.now);
    }
  }

  /** The dispatcher has work, an unseen message, or a wake-up that is not later than `time`. */
  predicate Stays(s: Sys, d: nat, time: nat) {
    d in s.disps && (s.disps[d].haswork || s.disps[d].delivered != s.disps[d].seen || 0 < s.disps[d].wakeup <= time)
  }

  lemma NextDestroy(s: Sys, d: nat, timeslice: nat)
    ensures Next(s, Destroy(d), timeslice).Some? <==> d in s.disps
  {}

  lemma RescheduleKeeps(s: Sys, now: nat, timeslice: nat)
    requires Inv(s) && Next(s, Reschedule(now), timeslice).Some?
    ensures Inv(Next(s, Reschedule(now), timeslice).value)
  {
    hide NamesOf; hide Unique; hide ByTime; hide OneAlarmEach; hide Remembered; hide Dispatched;
    DispatchedKeeps(s, now, timeslice);
    GrowingKeeps(s, Next(s, Reschedule(now), timeslice).value);
  }

  // ---------- Whole runs ----------

  ghost predicate Reaches(s: Sys, es: seq<Event>, timeslice: nat, s': Sys)
    decreases |es|
  {
    if es == [] then s == s'
    else Next(s, es[0], timeslice).Some? && Reaches(Next(s, es[0], timeslice).value, es[1..], timeslice, s')
  }

  /** Main result: over every run, a dispatcher that is neither parked nor a stray and has
      work or a message it has not seen is runnable, and one that is blocked with a requested wake-up
      is in the wake-up queue at exactly that time. */
  lemma {:induction false} NoWakeupIsLost(s: Sys, es: seq<Event>, timeslice: nat, s': Sys)
    requires Inv(s) && Reaches(s, es, timeslice, s')
    ensures Inv(s')
    ensures forall d :: d in s'.disps && Ordinary(s', d) && s'.disps[d].delivered != s'.disps[d].seen ==>
      Queued(s'.sched.q, d)
    ensures forall d :: d in s'.disps && Ordinary(s', d) && s'.disps[d].haswork ==> Queued(s'.sched.q, d)
    ensures forall d :: d in s'.disps && Ordinary(s', d) && !Queued(s'.sched.q, d) && s'.disps[d].wakeup != 0 ==>
              Alarm(d, s'.disps[d].wakeup) in s'.alarms
    decreases |es|
  {
    if es == [] {
      hide NamesOf; hide Unique; hide ByTime; hide OneAlarmEach; hide Queued;
      forall d | d in s.disps && Ordinary(s, d) ensures Remembered(s, d) && (Runnable(s, d) <==> Queued(s.sched.q, d)) {
        QueuedIsNamed(s.sched.q, d);
      }
    } else {
      hide Inv; hide Next; hide Queued;
      NextKeeps(s, es[0], timeslice);
      NoWakeupIsLost(Next(s, es[0], timeslice).value, es[1..], timeslice, s');
    }
  }

  /** The event may park a dispatcher. */
  predicate Parks(e: Event) { e.Fault? || (e.Create? && !e.run && !Settled(e.disp)) }

  /** Without faults and unstarted dispatchers nobody is parked, and without refused sends there are no strays. */
  lemma {:induction false} WhoIsLost(s: Sys, es: seq<Event>, timeslice: nat, s': Sys)
    requires s.parked == {} && s.strays == {} && Reaches(s, es, timeslice, s')
    ensures (forall e :: e in es ==> !Parks(e)) ==> s'.parked == {}
    ensures (forall e :: e in es ==> !e.Refused?) ==> s'.strays == {}
    decreases |es|
  {
    if forall e :: e in es ==> !Parks(e) { OnlyTheyPark(s, es, timeslice, s'); }
    if forall e :: e in es ==> !e.Refused? { OnlyRefusedStray(s, es, timeslice, s'); }
  }

  lemma {:induction false} OnlyTheyPark(s: Sys, es: seq<Event>, timeslice: nat, s': Sys)
    requires s.parked == {} && Reaches(s, es, timeslice, s') && forall e :: e in es ==> !Parks(e)
    ensures s'.parked == {}
    decreases |es|
  {
    if es != [] {
      OtherEvents(s, es[0], timeslice);
      OnlyTheyPark(Next(s, es[0], timeslice).value, es[1..], timeslice, s');
    }
  }

  lemma {:induction false} OnlyRefusedStray(s: Sys, es: seq<Event>, timeslice: nat, s': Sys)
    requires s.strays == {} && Reaches(s, es, timeslice, s') && forall e :: e in es ==> !e.Refused?
    ensures s'.strays == {}
    decreases |es|
  {
    if es != [] {
      OtherEvents(s, es[0], timeslice);
      OnlyRefusedStray(Next(s, es[0], timeslice).value, es[1..], timeslice, s');
    }
  }

  lemma OtherEvents(s: Sys, e: Event, timeslice: nat)
    requires Next(s, e, timeslice).Some?
    ensures var s' := Next(s, e, timeslice).value;
      (!Parks(e) ==> s'.parked <= s.parked) && (!e.Refused? ==> s'.strays <= s.strays)
  {
    hide MakeRunnable; hide SetProperties; hide WakeAll; hide Pick; hide BudgetsPositive; hide Account; hide TasksFor;
    hide Ids;
  }

  /** The state at boot satisfies the invariant. */
  lemma BootState()
    ensures Inv(BOOT)
  {}

  // ---------- Runs that lose a wake-up ----------

  /** The one task of a dispatcher that is alone in the run queue and has just been
      dispatched at time zero. */
  function Alone(d: nat): Task { Task(d, BestEffort, 0, 0, 0, 80, 80, 80, 1) }

  /** A dispatcher is created without being started, with all its fields zero. */
  function New(d: nat): Event { Create(d, Disp(false, 0, 0, 0), false, map[], 0) }

  /** Dispatcher `d` runs, with a message of one word that it has not seen. */
  function Started(d: nat): Sys {
    Sys(Sched([Alone(d)], Some(d), 0), [], map[d := Disp(false, 1, 0, 0)], Some(d), {}, {})
  }

  lemma AloneIsPicked(d: nat, last: Option<nat>, disps: map<nat, Disp>, current: Option<nat>, strays: set<nat>, t: Task)
    requires t == Alone(d) || t == Alone(d).(wcet := 0)
    requires current != Some(d) && (last == None || last == Some(d))
    ensures Dispatched(Sys(Sched([t], last, 0), [], disps, current, {}, strays), 0, 80)
      == Some(Sys(Sched([Alone(d)], Some(d), 0), [], disps, Some(d), {}, strays))
  {
    hide WBe; hide NBe; hide UHrt;
    var q := [t];
    assert Account(q, last, 0) == q;
    SumsOne(t);
    assert OnePass(q, 0, 80) == Run([Alone(d)], 0);
    assert Pick(q, 0, 80) == Picked([Alone(d)], Some(d), []);
    assert current.Some? ==> !Queued([Alone(d)], current.value);
  }

  lemma Starting(d: nat)
    ensures Reaches(BOOT, [New(d), Deliver(d, 1, false, false, map[], 0), Reschedule(0)], 80, Started(d))
  {
    var s1 := BOOT.(disps := map[d := Disp(false, 0, 0, 0)]);
    var s2 := Sys(Sched([Alone(d).(wcet := 0)], None, 0), [], map[d := Disp(false, 1, 0, 0)], None, {}, {});
    var e := Deliver(d, 1, false, false, map[], 0);
    assert MakeRunnable(BOOT.sched, TaskFor(map[], d), 0, 80) == Some(s2.sched) by {
      var t := Alone(d).(wcet := 0);
      assert Entering(TaskFor(map[], d), 1, 0, 80) == t;
      SumsOne(t);
      assert Insert([], t) == [t];
    }
    var nobody: set<nat> := {};
    assert s1.disps[d := Disp(false, 1, 0, 0)] == s2.disps && nobody - {d} == nobody;
    assert Next(s1, e, 80) == Some(s2);
    AloneIsPicked(d, None, s2.disps, None, {}, Alone(d).(wcet := 0));
    OneMore(s2, Reschedule(0), Started(d), [], 80, Started(d));
    OneMore(s1, e, s2, [Reschedule(0)], 80, Started(d));
    OneMore(BOOT, New(d), s1, [e, Reschedule(0)], 80, Started(d));
  }

  lemma OneMore(s: Sys, e: Event, s1: Sys, es: seq<Event>, timeslice: nat, s': Sys)
    requires Next(s, e, timeslice) == Some(s1) && Reaches(s1, es, timeslice, s')
    ensures Reaches(s, [e] + es, timeslice, s')
  {
    hide Next;
    assert ([e] + es)[1..] == es;
  }

  /** A dispatcher with an unseen message can be parked and forgotten. */
  lemma ParkedWithMessage(d: nat) returns (s: Sys)
    ensures Reaches(BOOT, [New(d), Deliver(d, 1, false, false, map[], 0), Reschedule(0)] + [Fault(0)], 80, s)
    ensures d in s.disps && d in s.parked && !Remembered(s, d) && s.disps[d].delivered != s.disps[d].seen
  {
    Starting(d);
    s := Started(d).(sched := Sched([], None, 0), current := None, parked := {d});
    assert Remove(Started(d).sched, d) == Sched([], Some(d), 0);
    var parked := Park(Started(d), d);
    assert Account(parked.sched.q, parked.sched.last, 0) == [];
    assert Pick([], 0, 80) == Picked([], None, []);
    assert parked.parked == {d};
    assert Next(Started(d), Fault(0), 80) == Some(s);
    assert [Fault(0)][1..] == [];
    ReachesOn(BOOT, [New(d), Deliver(d, 1, false, false, map[], 0), Reschedule(0)], Started(d), [Fault(0)], 80, s);
  }

  /** From then on: another dispatcher is created, a send to it is refused, and it runs. */
  function Strayed(d: nat, to: nat, disp: Disp): Sys {
    Started(d).(disps := map[d := Disp(false, 1, 0, 0), to := disp], current := Some(to), strays := {to})
  }

  lemma Straying(d: nat, to: nat, disp: Disp)
    requires d != to && disp.delivered == 0
    ensures Reaches(Started(d), [New(to), Refused(to), User(disp)], 80, Strayed(d, to, disp))
  {
    hide Dispatched; hide MakeRunnable; hide SetProperties; hide WakeAll; hide NamesOf; hide Yielding; hide Remove;
    var initial := Disp(false, 0, 0, 0);
    var s2, s3 := Strayed(d, to, initial), Strayed(d, to, disp);
    var s1 := s2.(current := Some(d), strays := {});
    OneName(Alone(d));
    assert Next(Started(d), New(to), 80) == Some(s1);
    assert !Runnable(s1, to) && s1.strays + {to} == {to};
    assert Next(s1, Refused(to), 80) == Some(s2);
    assert s2.disps[to := disp] == s3.disps;
    assert Next(s2, User(disp), 80) == Some(s3);
    hide Next;
    OneMore(s2, User(disp), s3, [], 80, s3);
    OneMore(s1, Refused(to), s2, [User(disp)], 80, s3);
    OneMore(Started(d), New(to), s1, [Refused(to), User(disp)], 80, s3);
  }

  /** A blocked receiver to which a refused send switches asks for a wake-up and is
      forgotten as soon as something else runs. */
  lemma StrayWithWakeup(d: nat, to: nat, time: nat) returns (s: Sys)
    requires d != to && time > 0
    ensures Reaches(BOOT, [New(d), Deliver(d, 1, false, false, map[], 0), Reschedule(0)]
                          + ([New(to), Refused(to), User(Disp(true, 0, 0, time))] + [Reschedule(0)]), 80, s)
    ensures to in s.disps && to in s.strays && !Remembered(s, to) && s.disps[to].wakeup == time && s.alarms == []
  {
    var s3 := Strayed(d, to, Disp(true, 0, 0, time));
    s := s3.(current := Some(d));
    assert Next(s3, Reschedule(0), 80) == Some(s) by { AloneIsPicked(d, Some(d), s3.disps, Some(to), {to}, Alone(d)); }
    hide Next;
    var es, fs := [New(d), Deliver(d, 1, false, false, map[], 0), Reschedule(0)],
      [New(to), Refused(to), User(Disp(true, 0, 0, time))];
    Starting(d);
    Straying(d, to, Disp(true, 0, 0, time));
    OneMore(s3, Reschedule(0), s, [], 80, s);
    ReachesOn(Started(d), fs, s3, [Reschedule(0)], 80, s);
    ReachesOn(BOOT, es, Started(d), fs + [Reschedule(0)], 80, s);
    OneName(Alone(d));
  }

  lemma {:induction false} ReachesOn(s: Sys, es: seq<Event>, s': Sys, fs: seq<Event>, timeslice: nat, s'': Sys)
    requires Reaches(s, es, timeslice, s') && Reaches(s', fs, timeslice, s'')
    ensures Reaches(s, es + fs, timeslice, s'')
    decreases |es|
  {
    hide Next;
    if es == [] {
      assert es + fs == fs;
    } else {
      assert (es + fs)[1..] == es[1..] + fs;
      ReachesOn(Next(s, es[0], timeslice).value, es[1..], s', fs, timeslice, s'');
    }
  }

  // ---------- A message that stops the kernel ----------

  /** A hard real-time task of a tenth of the processor, released at time zero. */
  function Hard(d: nat): Task { Task(d, HardRealtime, 0, 0, 0, 10, 100, 100, 0) }

  /** Dispatcher `d` is created, gets a message, runs, sees the message and blocks. */
  function UntilBlocked(d: nat): seq<Event> {
    [New(d), Deliver(d, 1, false, false, map[d := Hard(d)], 0), Reschedule(0), User(Disp(false, 1, 1, 0)),
     Yield(None, 0, map[], 0)]
  }

  function Blocked(d: nat): Sys { Sys(Sched([], None, 0), [], map[d := Disp(false, 1, 1, 0)], None, {}, {}) }

  lemma HardIsQueued(d: nat)
    ensures MakeRunnable(BOOT.sched, TaskFor(map[d := Hard(d)], d), 0, 80) == Some(Sched([Hard(d)], None, 0))
  {
    SumsOne(Hard(d));
    assert Insert([], Hard(d)) == [Hard(d)];
  }

  lemma HardIsPicked(d: nat, disps: map<nat, Disp>)
    ensures Dispatched(Sys(Sched([Hard(d)], None, 0), [], disps, None, {}, {}), 0, 80)
      == Some(Sys(Sched([Hard(d)], Some(d), 0), [], disps, Some(d), {}, {}))
  {
    var q := [Hard(d)];
    assert OnePass(q, 0, 80) == Run(q, 0);
    assert Pick(q, 0, 80) == Picked(q, Some(d), []);
  }

  lemma NobodyLeft(d: nat)
    ensures Dispatched(Blocked(d).(sched := Sched([], Some(d), 0), current := Some(d)), 0, 80) == Some(Blocked(d))
  {
    assert Account([], Some(d), 0) == [];
    assert Pick([], 0, 80) == Picked([], None, []);
  }

  /** The states on the way. */
  function Fresh(d: nat): Sys { BOOT.(disps := map[d := Disp(false, 0, 0, 0)]) }

  function Ready(d: nat): Sys { Sys(Sched([Hard(d)], None, 0), [], map[d := Disp(false, 1, 0, 0)], None, {}, {}) }

  function Running(d: nat, seen: nat): Sys {
    Sys(Sched([Hard(d)], Some(d), 0), [], map[d := Disp(false, 1, seen, 0)], Some(d), {}, {})
  }

  lemma FirstMessage(d: nat)
    ensures Next(BOOT, New(d), 80) == Some(Fresh(d))
    ensures Next(Fresh(d), Deliver(d, 1, false, false, map[d := Hard(d)], 0), 80) == Some(Ready(d))
  {
    hide MakeRunnable; hide Dispatched; hide SetProperties; hide WakeAll; hide Yielding; hide NamesOf;
    HardIsQueued(d);
    var nobody: set<nat> := {};
    assert Fresh(d).disps[d := Disp(false, 1, 0, 0)] == Ready(d).disps && nobody - {d} == nobody;
  }

  lemma RunsAndSees(d: nat)
    ensures Next(Ready(d), Reschedule(0), 80) == Some(Running(d, 0))
    ensures Next(Running(d, 0), User(Disp(false, 1, 1, 0)), 80) == Some(Running(d, 1))
  {
    hide MakeRunnable; hide Dispatched; hide SetProperties; hide WakeAll; hide Yielding; hide NamesOf;
    HardIsPicked(d, Ready(d).disps);
    assert Running(d, 0).disps[d := Disp(false, 1, 1, 0)] == Running(d, 1).disps;
  }

  lemma LeavesTheQueue(d: nat)
    ensures Next(Running(d, 1), Yield(None, 0, map[], 0), 80) == Some(Blocked(d))
  {
    hide MakeRunnable; hide Dispatched; hide SetProperties; hide WakeAll; hide NamesOf;
    NobodyLeft(d);
    assert Remove(Running(d, 1).sched, d) == Sched([], Some(d), 0);
    var nobody: set<nat> := {};
    assert nobody - {d} == nobody;
  }

  lemma Blocks(d: nat)
    ensures Reaches(BOOT, UntilBlocked(d), 80, Blocked(d))
  {
    hide Next;
    var e := Deliver(d, 1, false, false, map[d := Hard(d)], 0);
    var r, u, y := Reschedule(0), User(Disp(false, 1, 1, 0)), Yield(None, 0, map[], 0);
    FirstMessage(d);
    RunsAndSees(d);
    LeavesTheQueue(d);
    OneMore(Running(d, 1), y, Blocked(d), [], 80, Blocked(d));
    OneMore(Running(d, 0), u, Running(d, 1), [y], 80, Blocked(d));
    OneMore(Ready(d), r, Running(d, 0), [u, y], 80, Blocked(d));
    OneMore(Fresh(d), e, Ready(d), [r, u, y], 80, Blocked(d));
    OneMore(BOOT, New(d), Fresh(d), [e, r, u, y], 80, Blocked(d));
  }

  /** From boot a hard real-time dispatcher gets to block as it should, and then every
      message after time zero stops the kernel. */
  lemma MessageStopsTheKernel(d: nat, now: nat)
    requires now > 0
    ensures Reaches(BOOT, UntilBlocked(d), 80, Blocked(d)) && Inv(Blocked(d))
    ensures Next(Blocked(d), Deliver(d, 1, false, false, map[d := Hard(d)], now), 80) == None
  {
    hide Reaches;
    Blocks(d);
    BootState();
    NoWakeupIsLost(BOOT, UntilBlocked(d), 80, Blocked(d));
  }
}
