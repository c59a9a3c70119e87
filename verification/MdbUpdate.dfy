/** Insertion and removal keep the region ends exact; the update theorems. */
module MdbUpdate {
  import opened Caps
  import opened MdbOrder
  import opened MdbTree
  import opened MdbBalance

  /** The furthest region end of a subtree, ordered by type root first. */
  datatype Reach = Reach(root: int, end: nat)

  function ReachOf(t: Tree): Reach { if t.Nil? then Reach(-1, 0) else Reach(t.endRoot, t.end) }

  function ReachOfCte(c: Cte): Reach { Reach(TypeRoot(c.cap.typ), c.cap.End()) }

  predicate NoFurther(a: Reach, b: Reach) { a.root < b.root || (a.root == b.root && a.end <= b.end) }

  function Further(a: Reach, b: Reach): Reach { if NoFurther(a, b) then b else a }

  lemma UpdateEndReach(t: Tree)
    requires t.Node?
    ensures ReachOf(UpdateEnd(t)) == Further(Further(ReachOfCte(t.cte), ReachOf(t.left)), ReachOf(t.right))
  {
    hide TypeRoot;
  }

  /** The stored ends bound every region below, and the bound is attained. */
  lemma {:induction false} EndOkMeans(t: Tree)
    requires EndOk(t)
    ensures forall e :: e in Contents(t) ==> NoFurther(ReachOfCte(e), ReachOf(t))
    ensures t.Node? ==> exists e :: e in Contents(t) && ReachOfCte(e) == ReachOf(t)
  {
    hide UpdateEnd;
    hide ReachOfCte;
    if t.Node? {
      EndOkMeans(t.left);
      EndOkMeans(t.right);
      UpdateEndReach(t);
      assert t.cte in Contents(t);
      assert forall e :: e in Contents(t.left) ==> e in Contents(t);
      assert forall e :: e in Contents(t.right) ==> e in Contents(t);
    }
  }

  lemma UpdateEndOk(t: Tree)
    requires t.Node? && EndOk(t.left) && EndOk(t.right)
    ensures EndOk(UpdateEnd(t))
  {
    hide TypeRoot;
    assert UpdateEnd(UpdateEnd(t)) == UpdateEnd(t);
  }

  lemma SkewEnds(t: Tree)
    requires EndOk(t)
    ensures EndOk(Skew(t)) && ReachOf(Skew(t)) == ReachOf(t) && (Skew(t).Node? <==> t.Node?)
  {
    hide UpdateEnd;
    hide ReachOfCte;
    if t.Node? && t.left.Node? && t.level == t.left.level {
      var n := t.(left := t.left.right);
      UpdateEndOk(n);
      var m := t.left.(right := UpdateEnd(n));
      UpdateEndOk(m);
      UpdateEndReach(n);
      UpdateEndReach(m);
      UpdateEndReach(t);
      UpdateEndReach(t.left);
    }
  }

  lemma SplitEnds(t: Tree)
    requires EndOk(t)
    ensures EndOk(Split(t)) && ReachOf(Split(t)) == ReachOf(t) && (Split(t).Node? <==> t.Node?)
  {
    hide UpdateEnd;
    hide ReachOfCte;
    if t.Node? && t.right.Node? && t.right.right.Node? && t.level == t.right.right.level {
      var n := t.(right := t.right.left);
      UpdateEndOk(n);
      var m := t.right.(left := UpdateEnd(n), level := t.right.level + 1);
      UpdateEndOk(m);
      UpdateEndReach(n);
      UpdateEndReach(m);
      UpdateEndReach(t);
      UpdateEndReach(t.right);
    }
  }

  lemma SameReachRight(t: Tree, r: Tree)
    requires t.Node? && EndOk(t) && EndOk(r) && ReachOf(r) == ReachOf(t.right) && (r.Node? <==> t.right.Node?)
    ensures EndOk(t.(right := r))
  {
    hide TypeRoot;
  }

  lemma NewLevelEnds(t: Tree, k: int)
    requires t.Node? && EndOk(t)
    ensures EndOk(t.(level := k)) && ReachOf(t.(level := k)) == ReachOf(t)
  {
    hide TypeRoot;
    assert UpdateEnd(t.(level := k)) == UpdateEnd(t).(level := k);
  }

  lemma RelevelEnds(t: Tree)
    requires t.Node? && EndOk(t)
    ensures EndOk(DecreaseLevel(t))
  {
    hide UpdateEnd;
    hide EndOk;
    var d := DecreaseLevel(t);
    NewLevelEnds(t, d.level);
    var m := t.(level := d.level);
    if d.right != t.right {
      NewLevelEnds(t.right, d.right.level) by { OpenEnds(t); }
      SameReachRight(m, d.right);
      assert d == m.(right := d.right);
    } else {
      assert d == m;
    }
  }

  lemma OpenEnds(t: Tree)
    requires t.Node? && EndOk(t)
    ensures EndOk(t.left) && EndOk(t.right)
  {}

  lemma RebalanceEnds(t: Tree)
    requires t.Node? && EndOk(t.left) && EndOk(t.right)
    ensures EndOk(Rebalance(t))
  {
    hide UpdateEnd;
    hide Skew;
    hide Split;
    UpdateEndOk(t);
    RelevelEnds(UpdateEnd(t));
    var d := DecreaseLevel(UpdateEnd(t));
    SkewEnds(d);
    var n1 := Skew(d);
    SkewEnds(n1.right);
    SameReachRight(n1, Skew(n1.right));
    var n2 := n1.(right := Skew(n1.right));
    var n3 := if n2.right.Node? then n2.(right := n2.right.(right := Skew(n2.right.right))) else n2;
    if n2.right.Node? {
      SkewEnds(n2.right.right);
      SameReachRight(n2.right, Skew(n2.right.right));
      SameReachRight(n2, n2.right.(right := Skew(n2.right.right)));
    }
    SplitEnds(n3);
    var n4 := Split(n3);
    SplitEnds(n4.right);
    SameReachRight(n4, Split(n4.right));
  }

  lemma {:induction false} InsertEnds(t: Tree, x: Cte)
    requires EndOk(t)
    ensures Insert(t, x).Some? ==> EndOk(Insert(t, x).value)
  {
    hide UpdateEnd;
    hide CompareTie;
    if t.Nil? {
      UpdateEndOk(Node(x, 0, 0, 0, Nil, Nil));
    } else {
      InsertEnds(t.left, x);
      InsertEnds(t.right, x);
      var l, r := Insert(t.left, x), Insert(t.right, x);
      if CompareTie(x, t.cte) < 0 && l.Some? {
        GraftEnds(t.(left := l.value));
      } else if CompareTie(x, t.cte) > 0 && r.Some? {
        GraftEnds(t.(right := r.value));
      }
    }
  }

  lemma GraftEnds(t: Tree)
    requires t.Node? && EndOk(t.left) && EndOk(t.right)
    ensures EndOk(Split(Skew(UpdateEnd(t))))
  {
    hide UpdateEnd;
    UpdateEndOk(t);
    SkewEnds(UpdateEnd(t));
    SplitEnds(Skew(UpdateEnd(t)));
  }

  lemma {:induction false} TakeLastEnds(t: Tree)
    requires t.Node? && EndOk(t)
    ensures EndOk(TakeLast(t).0)
  {
    hide Rebalance;
    if t.right.Node? {
      TakeLastEnds(t.right);
      RebalanceEnds(t.(right := TakeLast(t.right).0));
    }
  }

  lemma {:induction false} RemoveEnds(t: Tree, x: Cte)
    requires EndOk(t)
    ensures Remove(t, x).Some? ==> EndOk(Remove(t, x).value)
  {
    hide Rebalance;
    hide CompareTie;
    if t.Node? {
      RemoveEnds(t.left, x);
      RemoveEnds(t.right, x);
      if CompareTie(x, t.cte) > 0 {
        if Remove(t.right, x).Some? { RebalanceEnds(t.(right := Remove(t.right, x).value)); }
      } else if CompareTie(x, t.cte) < 0 {
        if Remove(t.left, x).Some? { RebalanceEnds(t.(left := Remove(t.left, x).value)); }
      } else if t.left.Nil? && t.right.Node? {
        RebalanceEnds(t.(cte := t.right.cte, right := Nil));
      } else if t.left.Node? {
        TakeLastEnds(t.left);
        RebalanceEnds(t.(cte := TakeLast(t.left).1, left := TakeLast(t.left).0));
      }
    }
  }

  // ---------- The two theorems about updates ----------

  /** mdb_insert keeps every invariant of the database and adds exactly `x`, in
      its place; it fails exactly on a duplicate. */
  lemma InsertCorrect(t: Tree, x: Cte)
    requires Inv(t)
    ensures Insert(t, x).None? <==> exists e :: e in Contents(t) && CompareTie(x, e) == 0
    ensures Insert(t, x).Some? ==> Inv(Insert(t, x).value) && Contents(Insert(t, x).value) == Inserted(Contents(t), x)
  {
    hide CompareTie;
    hide Insert;
    InsertContents(t, x);
    InsertBalanced(t, x);
    InsertEnds(t, x);
    if Insert(t, x).Some? {
      InsertedSorted(Contents(t), x);
    }
  }

  /** mdb_remove keeps every invariant of the database and drops exactly `x`; it
      fails exactly when `x` is not there. */
  lemma RemoveCorrect(t: Tree, x: Cte)
    requires Inv(t)
    requires forall e :: e in Contents(t) && CompareTie(x, e) == 0 ==> e == x
    ensures Remove(t, x).Some? <==> x in Contents(t)
    ensures Remove(t, x).Some? ==> Inv(Remove(t, x).value) && Contents(Remove(t, x).value) == Without(Contents(t), x)
  {
    hide CompareTie;
    hide Remove;
    RemoveContents(t, x);
    RemoveBalanced(t, x);
    RemoveEnds(t, x);
    WithoutSorted(Contents(t), x);
  }
}
