/** Which tasks are queued, whatever their order and times: what each scheduler
    operation does to the set of queued names. */
module Names {
  import opened Wrappers
  import opened Rbed
  import opened RbedRuns

  ghost function NamesOf(q: Queue): (r: set<nat>)
    ensures forall i :: 0 <= i < |q| ==> q[i].id in r
    ensures forall n :: n in r ==> exists i :: 0 <= i < |q| && q[i].id == n
  {
    set i | 0 <= i < |q| :: q[i].id
  }

  ghost predicate Unique(q: Queue) { forall i, j :: 0 <= i < j < |q| ==> q[i].id != q[j].id }

  lemma QueuedIsNamed(q: Queue, id: nat)
    ensures Queued(q, id) <==> id in NamesOf(q)
  {
    hide NamesOf;
    hide Position;
    assert Position(q, id) < |q| ==> q[Position(q, id)].id in NamesOf(q);
  }

  lemma SameNames(a: set<nat>, b: set<nat>)
    requires forall n :: n in a <==> n in b
    ensures a == b
  {}

  lemma ConcatNames(a: Queue, b: Queue)
    ensures NamesOf(a + b) == NamesOf(a) + NamesOf(b)
  {
    hide NamesOf;
    var r := a + b;
    assert forall i :: 0 <= i < |a| ==> r[i] == a[i];
    assert forall i :: 0 <= i < |b| ==> r[|a| + i] == b[i];
    SameNames(NamesOf(r), NamesOf(a) + NamesOf(b));
  }

  lemma UniqueConcat(a: Queue, b: Queue)
    ensures Unique(a + b) <==> Unique(a) && Unique(b) && NamesOf(a) !! NamesOf(b)
  {
    hide NamesOf;
    var r := a + b;
    assert forall i :: 0 <= i < |a| ==> r[i] == a[i];
    assert forall i :: 0 <= i < |b| ==> r[|a| + i] == b[i];
    if Unique(r) {
      assert forall i, j :: 0 <= i < |a| && 0 <= j < |b| ==> a[i].id != b[j].id;
    } else if Unique(a) && Unique(b) {
      var i, j :| 0 <= i < j < |r| && r[i].id == r[j].id;
      if i < |a| && |a| <= j { assert b[j - |a|].id in NamesOf(b) && a[i].id in NamesOf(a); }
    }
  }

  lemma OneName(t: Task)
    ensures NamesOf([t]) == {t.id} && Unique([t])
  {
    hide NamesOf;
    assert [t][0].id in NamesOf([t]);
    SameNames(NamesOf([t]), {t.id});
  }

  lemma InsertNames(q: Queue, t: Task)
    requires Unique(q) && t.id !in NamesOf(q)
    ensures Unique(Insert(q, t)) && NamesOf(Insert(q, t)) == NamesOf(q) + {t.id}
  {
    hide NamesOf; hide Spot; hide Unique;
    var k := Spot(q, t);
    assert q == q[..k] + q[k..];
    OneName(t);
    ConcatNames(q[..k], q[k..]);
    UniqueConcat(q[..k], q[k..]);
    ConcatNames(q[..k], [t]);
    UniqueConcat(q[..k], [t]);
    ConcatNames(q[..k] + [t], q[k..]);
    UniqueConcat(q[..k] + [t], q[k..]);
  }

  lemma DropNames(q: Queue, k: nat)
    requires Unique(q) && k < |q|
    ensures Unique(Drop(q, k)) && NamesOf(Drop(q, k)) == NamesOf(q) - {q[k].id}
  {
    hide NamesOf; hide Unique;
    var a, b := q[..k], q[k + 1..];
    assert q == a + [q[k]] + b;
    OneName(q[k]);
    ConcatNames(a, [q[k]]);
    UniqueConcat(a, [q[k]]);
    ConcatNames(a + [q[k]], b);
    UniqueConcat(a + [q[k]], b);
    ConcatNames(a, b);
    UniqueConcat(a, b);
  }

  lemma UpdateNames(q: Queue, k: nat, t: Task)
    requires k < |q| && t.id == q[k].id
    ensures NamesOf(q[k := t]) == NamesOf(q) && (Unique(q) ==> Unique(q[k := t]))
  {
    hide NamesOf;
    var r := q[k := t];
    assert forall i :: 0 <= i < |q| ==> r[i].id == q[i].id;
    SameNames(NamesOf(r), NamesOf(q));
  }

  lemma MoveNames(q: Queue, k: nat, t: Task)
    requires Unique(q) && k < |q| && t.id == q[k].id
    ensures Unique(Insert(Drop(q, k), t)) && NamesOf(Insert(Drop(q, k), t)) == NamesOf(q)
  {
    hide NamesOf;
    DropNames(q, k);
    InsertNames(Drop(q, k), t);
  }

  // ---------- The operations ----------

  lemma MakeNames(s: Sched, t: Task, now: nat, timeslice: nat)
    requires Unique(s.q)
    ensures var r := MakeRunnable(s, t, now, timeslice);
      r.Some? ==> Unique(r.value.q) && NamesOf(r.value.q) == NamesOf(s.q) + {t.id}
  {
    hide NamesOf;
    hide Queued;
    hide Insert;
    hide UHrt;
    hide NBe;
    QueuedIsNamed(s.q, t.id);
    if !Queued(s.q, t.id) {
      InsertNames(s.q, Entering(t, NBe(s.q) + 1, now, timeslice));
    } else {
      SameNames(NamesOf(s.q), NamesOf(s.q) + {t.id});
    }
  }

  lemma RemoveNames(s: Sched, id: nat)
    requires Unique(s.q)
    ensures Unique(Remove(s, id).q) && NamesOf(Remove(s, id).q) == NamesOf(s.q) - {id}
  {
    hide NamesOf;
    QueuedIsNamed(s.q, id);
    if Queued(s.q, id) {
      DropNames(s.q, Position(s.q, id));
    } else {
      SameNames(NamesOf(s.q), NamesOf(s.q) - {id});
    }
  }

  lemma YieldNames(s: Sched, id: nat, now: nat)
    requires Unique(s.q)
    ensures Unique(YieldTask(s, id, now).q) && NamesOf(YieldTask(s, id, now).q) == NamesOf(s.q)
  {
    hide NamesOf;
    var k := Position(s.q, id);
    if k < |s.q| { MoveNames(s.q, k, Yielded(s.q[k], now)); }
  }

  lemma AccountNames(q: Queue, last: Option<nat>, now: nat)
    requires Unique(q)
    ensures Unique(Account(q, last, now)) && NamesOf(Account(q, last, now)) == NamesOf(q)
  {
    hide NamesOf;
    if last.Some? && Queued(q, last.value) {
      var k := Position(q, last.value);
      UpdateNames(q, k, Account(q, last, now)[k]);
      assert Account(q, last, now) == q[k := Account(q, last, now)[k]];
    }
  }

  /** schedule queues and forgets nobody, and what it picks is queued. */
  lemma {:induction false} PickNames(q: Queue, now: nat, timeslice: nat)
    requires Unique(q) && BudgetsPositive(q, timeslice)
    ensures var r := Pick(q, now, timeslice);
      r.Picked? ==>
        Unique(r.queue) && NamesOf(r.queue) == NamesOf(q) && (r.choice.Some? ==> r.choice.value in NamesOf(q))
    decreases Busy(q)
  {
    hide NamesOf;
    hide BudgetsPositive;
    hide Busy;
    hide Budget;
    hide Share;
    hide Unique;
    var p := OnePass(q, now, timeslice);
    var k := FirstReleased(q, now);
    if p.Run? {
      UpdateNames(q, k, Prepared(q, q[k], now, timeslice).(lastDispatch := now));
    } else if p.Again? {
      AgainGoesOn(q, now, timeslice);
      MoveNames(q, k, Recharged(Prepared(q, q[k], now, timeslice), now));
      PickNames(p.queue, now, timeslice);
    }
  }
}
