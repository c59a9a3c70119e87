/** Insertion and removal keep the mapping database a balanced tree. */
module MdbBalance {
  import opened Caps
  import opened MdbTree

  /** A subtree grows by at most one level, only if its root already had a right
      neighbour on its own level, and then it ends up without one. */
  ghost predicate GrewInto(t: Tree, u: Tree) {
    && Balanced(u) && u.Node?
    && Level(t) <= u.level <= Level(t) + 1
    && (u.level > Level(t) ==> Level(u.right) < u.level && (t.Nil? || Level(t.right) == t.level))
  }

  lemma Open(t: Tree)
    requires Balanced(t) && t.Node?
    ensures Balanced(t.left) && Balanced(t.right) && Shape(t)
  {}

  lemma Close(t: Tree)
    requires t.Node? && Balanced(t.left) && Balanced(t.right) && Shape(t)
    ensures Balanced(t)
  {}

  lemma GrowLeft(t: Tree, l: Tree)
    requires t.Node? && Balanced(t) && GrewInto(t.left, l)
    ensures GrewInto(t, Split(Skew(UpdateEnd(t.(left := l)))))
  {
    hide UpdateEnd;
    hide Balanced;
    Open(t);
    Open(l);
    var u := UpdateEnd(t.(left := l));
    if l.level == t.level {
      var s := Skew(u);
      if Level(t.right) == t.level {
        Open(t.right);
        var v := Split(s);
        Close(v.left);
        Close(v);
      } else {
        Close(s.right);
        Close(s);
      }
    } else {
      Close(u);
    }
  }

  lemma GrowRight(t: Tree, r: Tree)
    requires t.Node? && Balanced(t) && GrewInto(t.right, r)
    ensures GrewInto(t, Split(Skew(UpdateEnd(t.(right := r)))))
  {
    hide UpdateEnd;
    hide Balanced;
    Open(t);
    Open(r);
    assert r.level <= t.level;
    var u := UpdateEnd(t.(right := r));
    assert Skew(u) == u;
    if Level(r.right) == t.level {
      Open(r.right);
      if r.left.Node? { Open(r.left); }
      var v := Split(u);
      assert v.left.level == t.level && v.left.left == t.left && v.left.right == r.left;
      Close(v.left);
      assert v.level == t.level + 1 && v.right == r.right;
      Close(v);
    } else {
      assert Split(u) == u;
      Close(u);
    }
  }

  lemma {:induction false} InsertBalanced(t: Tree, x: Cte)
    requires Balanced(t)
    ensures Insert(t, x).Some? ==> GrewInto(t, Insert(t, x).value)
  {
    hide UpdateEnd;
    hide CompareTie;
    if t.Node? {
      if CompareTie(x, t.cte) < 0 {
        InsertBalanced(t.left, x);
        if Insert(t.left, x).Some? { GrowLeft(t, Insert(t.left, x).value); }
      } else if CompareTie(x, t.cte) > 0 {
        InsertBalanced(t.right, x);
        if Insert(t.right, x).Some? { GrowRight(t, Insert(t.right, x).value); }
      }
    }
  }

  /** A subtree shrinks by at most one level; if it keeps its level it does not
      gain a right neighbour on that level. */
  ghost predicate ShrankInto(t: Tree, u: Tree)
    requires t.Node?
  {
    && Balanced(u)
    && t.level - 1 <= Level(u) <= t.level
    && (u.Node? && u.level == t.level && Level(t.right) < t.level ==> Level(u.right) < u.level)
  }

  /** What Rebalance is handed: at most one child is a level too low. */
  ghost predicate OneLow(t: Tree) {
    && t.Node? && t.level >= 0 && Balanced(t.left) && Balanced(t.right)
    && t.level - 2 <= Level(t.left) <= t.level - 1
    && t.level - 2 <= Level(t.right) <= t.level
    && (t.right.Node? ==> Level(t.right.right) < t.level)
    && (Level(t.left) == t.level - 1 || Level(t.right) >= t.level - 1)
  }

  ghost predicate Rebalanced(t: Tree, u: Tree)
    requires t.Node?
  {
    && Balanced(u) && u.Node?
    && t.level - 1 <= Level(u) <= t.level
    && (u.level == t.level && Level(t.right) < t.level ==> Level(u.right) < u.level)
  }

  lemma RebalanceIdle(t: Tree)
    requires OneLow(t) && Level(t.left) == t.level - 1 && Level(t.right) >= t.level - 1
    ensures Rebalanced(t, Rebalance(t))
  {
    hide UpdateEnd;
    hide Balanced;
    if t.left.Node? { Open(t.left); }
    if t.right.Node? {
      Open(t.right);
      if t.right.right.Node? { Open(t.right.right); }
    }
    var u := UpdateEnd(t);
    assert DecreaseLevel(u) == u;
    assert Skew(u) == u;
    assert Skew(u.right) == u.right;
    assert u.(right := u.right) == u;
    if u.right.Node? {
      assert Skew(u.right.right) == u.right.right;
      assert u.right.(right := u.right.right) == u.right;
    }
    assert Split(u) == u;
    assert Split(u.right) == u.right;
    Close(u);
  }

  lemma RebalanceRightLow(t: Tree)
    requires OneLow(t) && Level(t.right) == t.level - 2
    ensures Rebalanced(t, Rebalance(t))
  {
    hide UpdateEnd;
    hide Balanced;
    var l, r := t.left, t.right;
    LevelBound(r);
    Open(l);
    if r.Node? { Open(r); }
    var d := DecreaseLevel(UpdateEnd(t));
    assert d.level == t.level - 1 && d.left == l && d.right == r;
    var n1 := Skew(d);
    assert n1.level == d.level && n1.left == l.left;
    assert n1.right.level == d.level && n1.right.left == l.right && n1.right.right == r;
    assert Skew(r) == r;
    if Level(l.right) == t.level - 1 {
      Open(l.right);
      RightNotHigher(l.right.left);
      var n2 := n1.(right := Skew(n1.right));
      assert n2.right.left == l.right.left && n2.right.right.left == l.right.right && n2.right.right.right == r;
      assert Skew(n2.right.right) == n2.right.right;
      assert n2.right.(right := n2.right.right) == n2.right && n2.(right := n2.right) == n2;
      var n4 := Split(n2);
      assert n4.level == t.level && n4.left.right == l.right.left && n4.left.left == l.left;
      assert Split(n4.right) == n4.right;
      assert n4.(right := n4.right) == n4;
      Close(n4.left);
      Close(n4.right);
      Close(n4);
    } else {
      assert Skew(n1.right) == n1.right && n1.(right := n1.right) == n1;
      assert n1.right.(right := n1.right.right) == n1.right;
      assert Split(n1) == n1 && Split(n1.right) == n1.right;
      Close(n1.right);
      Close(n1);
    }
  }

  lemma LevelBound(t: Tree)
    requires Balanced(t)
    ensures Level(t) >= -1 && (Level(t) == -1 <==> t.Nil?)
  {}

  lemma RightNotHigher(t: Tree)
    requires Balanced(t)
    ensures t.Node? ==> Level(t.right) <= t.level
  {}

  lemma RebalanceLeftLow(t: Tree)
    requires OneLow(t) && Level(t.left) == t.level - 2 && Level(t.right) == t.level - 1
    ensures Rebalanced(t, Rebalance(t))
  {
    hide UpdateEnd;
    hide Balanced;
    var l, r := t.left, t.right;
    LevelBound(l);
    Open(r);
    RightNotHigher(r.left);
    if r.right.Node? {
      Open(r.right);
      RightNotHigher(r.right.right);
    }
    var d := DecreaseLevel(UpdateEnd(t));
    assert d.level == t.level - 1 && d.left == l && d.right == r;
    assert Skew(d) == d && Skew(r) == r && d.(right := r) == d;
    assert Skew(r.right) == r.right && r.(right := r.right) == r;
    if Level(r.right) == t.level - 1 {
      var n4 := Split(d);
      assert n4.level == t.level && n4.left.left == l && n4.left.right == r.left && n4.right == r.right;
      assert Split(n4.right) == n4.right && n4.(right := n4.right) == n4;
      Close(n4.left);
      Close(n4);
    } else {
      assert Split(d) == d && Split(r) == r;
      Close(d);
    }
  }

  /** The left side fell behind a node with a right neighbour: two skews and up
      to two splits spread the right neighbour's left subtree over both sides. */
  lemma RebalanceLeftLowRightHigh(t: Tree)
    requires OneLow(t) && Level(t.left) == t.level - 2 && Level(t.right) == t.level
    ensures Rebalanced(t, Rebalance(t))
  {
    hide UpdateEnd;
    hide Balanced;
    var l, r := t.left, t.right;
    LevelBound(l);
    Open(r);
    var rl, rr := r.left, r.right;
    Open(rl);
    Open(rr);
    RightNotHigher(rl.left);
    RightNotHigher(rr.left);
    var d := DecreaseLevel(UpdateEnd(t));
    assert d.level == t.level - 1 && d.left == l && d.right == r.(level := t.level - 1);
    assert Skew(d) == d;
    var n2 := d.(right := Skew(d.right));
    assert n2.right.left == rl.left && n2.right.level == d.level;
    assert n2.right.right.left == rl.right && n2.right.right.right == rr && n2.right.right.level == d.level;
    var n3 := n2.(right := n2.right.(right := Skew(n2.right.right)));
    var n4 := Split(n3);
    assert n4.level == t.level && n4.left.left == l && n4.left.right == rl.left;
    Close(n4.left);
    if Level(rl.right) == t.level - 1 {
      Open(rl.right);
      SplitTwice(t.level, rl.right, rr, n4.right);
    } else {
      assert n3 == n2;
      SplitOnce(t.level, rl.right, rr, n4.right);
    }
    Close(n4.(right := Split(n4.right)));
  }

  /** The right spine after the second skew changed nothing. */
  lemma SplitOnce(k: int, a: Tree, rr: Tree, n: Tree)
    requires k >= 1 && Balanced(a) && Balanced(rr) && Level(a) == k - 2 && Level(rr) == k - 1
    requires n.Node? && n.level == k - 1 && n.left == a && n.right == rr
    ensures Balanced(Split(n)) && Split(n).Node? && k - 1 <= Split(n).level <= k && Level(Split(n).right) < k
  {
    hide UpdateEnd;
    hide Balanced;
    Open(rr);
    RightNotHigher(rr.left);
    var v := Split(n);
    if Level(rr.right) == k - 1 {
      assert v.level == k && v.left.left == a && v.left.right == rr.left && v.right == rr.right;
      RightNotHigher(rr.right);
      Close(v.left);
      Close(v);
    } else {
      Close(n);
    }
  }

  /** The right spine after the second skew lifted `a`. */
  lemma SplitTwice(k: int, a: Tree, rr: Tree, n: Tree)
    requires k >= 1 && Balanced(a) && Balanced(rr) && Level(a) == k - 1 && Level(rr) == k - 1
    requires Level(a.right) == k - 2
    requires n.Node? && n.level == k - 1 && n.left == a.left && n.right.Node? && n.right.level == k - 1
    requires n.right.left == a.right && n.right.right == rr
    ensures Balanced(Split(n)) && Split(n).Node? && Split(n).level == k && Level(Split(n).right) < k
  {
    hide UpdateEnd;
    hide Balanced;
    Open(a);
    Open(rr);
    RightNotHigher(a.right);
    var v := Split(n);
    assert v.level == k && v.left.left == a.left && v.left.right == a.right && v.right == rr;
    Close(v.left);
    Close(v);
  }

  lemma RebalanceBalanced(t: Tree)
    requires OneLow(t)
    ensures Rebalanced(t, Rebalance(t))
  {
    hide Rebalance;
    if Level(t.right) == t.level - 2 {
      RebalanceRightLow(t);
    } else if Level(t.left) == t.level - 1 {
      RebalanceIdle(t);
    } else if Level(t.right) == t.level {
      RebalanceLeftLowRightHigh(t);
    } else {
      RebalanceLeftLow(t);
    }
  }

  lemma {:induction false} TakeLastBalanced(t: Tree)
    requires Balanced(t) && t.Node?
    ensures ShrankInto(t, TakeLast(t).0)
  {
    hide Rebalance;
    if t.right.Node? {
      TakeLastBalanced(t.right);
      ShrinkRight(t, TakeLast(t.right).0);
    }
  }

  lemma ShrinkRight(t: Tree, r: Tree)
    requires Balanced(t) && t.Node? && t.right.Node? && ShrankInto(t.right, r)
    ensures ShrankInto(t, Rebalance(t.(right := r)))
  {
    hide Rebalance;
    RebalanceBalanced(t.(right := r));
  }

  lemma ShrinkLeft(t: Tree, l: Tree, c: Cte)
    requires Balanced(t) && t.Node? && t.left.Node? && ShrankInto(t.left, l)
    ensures ShrankInto(t, Rebalance(t.(cte := c, left := l)))
  {
    hide Rebalance;
    RebalanceBalanced(t.(cte := c, left := l));
  }

  lemma {:induction false} RemoveBalanced(t: Tree, x: Cte)
    requires Balanced(t)
    ensures Remove(t, x).Some? ==> t.Node? && ShrankInto(t, Remove(t, x).value)
  {
    hide Rebalance;
    hide CompareTie;
    if t.Node? {
      if CompareTie(x, t.cte) > 0 {
        RemoveBalanced(t.right, x);
        if Remove(t.right, x).Some? { ShrinkRight(t, Remove(t.right, x).value); }
      } else if CompareTie(x, t.cte) < 0 {
        RemoveBalanced(t.left, x);
        if Remove(t.left, x).Some? {
          assert t.(left := Remove(t.left, x).value) == t.(cte := t.cte, left := Remove(t.left, x).value);
          ShrinkLeft(t, Remove(t.left, x).value, t.cte);
        }
      } else if t.left.Nil? && t.right.Node? {
        LoneLeaf(t);
        RebalanceBalanced(t.(cte := t.right.cte, right := Nil));
      } else if t.left.Node? {
        TakeLastBalanced(t.left);
        ShrinkLeft(t, TakeLast(t.left).0, TakeLast(t.left).1);
      }
    }
  }

  // ---------- Height ----------

  function Pow2(n: nat): nat { if n == 0 then 1 else 2 * Pow2(n - 1) }

  function Height(t: Tree): nat { if t.Nil? then 0 else 1 + Max(Height(t.left), Height(t.right)) }

  lemma {:induction false} Pow2Grows(n: nat)
    ensures Pow2(n) > n
  {
    if n > 0 { Pow2Grows(n - 1); }
  }

  /** A path from the root downwards, to the left or to the right at each node. */
  predicate IsPath(t: Tree, path: seq<bool>) {
    path == [] || (t.Node? && IsPath(if path[0] then t.left else t.right, path[1..]))
  }

  /** No path is longer than the height. */
  lemma {:induction false} HeightBoundsPaths(t: Tree, path: seq<bool>)
    requires IsPath(t, path)
    ensures |path| <= Height(t)
  {
    if path != [] { HeightBoundsPaths(if path[0] then t.left else t.right, path[1..]); }
  }

  /** Searches take a logarithmic number of steps: the height is at most twice
      the number of levels, and that many levels need exponentially many entries. */
  lemma {:induction false} LogarithmicHeight(t: Tree)
    requires Balanced(t)
    ensures Level(t) >= -1
    ensures Height(t) <= 2 * (Level(t) + 1)
    ensures t.Node? && Level(t.right) < t.level ==> Height(t) <= 2 * t.level + 1
    ensures |Contents(t)| + 1 >= Pow2(Level(t) + 1)
  {
    if t.Node? {
      LogarithmicHeight(t.left);
      LogarithmicHeight(t.right);
    }
  }
}
