/** Queries on the mapping database: ordered lookups, neighbours, and the range
    query that decides whether a region can be retyped. */
module MdbQuery {
  import opened Wrappers
  import opened Caps
  import opened MdbOrder
  import opened MdbTree

  // ---------- mdb_find_less, mdb_find_greater ----------

  /** compare_caps with or without the tie break. */
  function Cmp(x: Cte, e: Cte, tie: bool): int {
    if tie then CompareTie(x, e) else Compare(x.cap, e.cap)
  }

  function FindLess(x: Cte, t: Tree, equalOk: bool, tie: bool): (r: Option<Cte>) {
    if t.Nil? then None
    else
      var c := Cmp(x, t.cte, tie);
      if c < 0 then FindLess(x, t.left, equalOk, tie)
      else if c > 0 then
        var res := FindLess(x, t.right, equalOk, tie);
        if res.Some? then res else Some(t.cte)
      else if equalOk then Some(t.cte)
      else FindLess(x, t.left, equalOk, tie)
  }

  function FindGreater(x: Cte, t: Tree, equalOk: bool, tie: bool): (r: Option<Cte>) {
    if t.Nil? then None
    else
      var c := Cmp(x, t.cte, tie);
      if c < 0 then
        var res := FindGreater(x, t.left, equalOk, tie);
        if res.Some? then res else Some(t.cte)
      else if c > 0 then FindGreater(x, t.right, equalOk, tie)
      else if equalOk then Some(t.cte)
      else FindGreater(x, t.right, equalOk, tie)
  }

  lemma CmpMonotone(x: Cte, a: Cte, b: Cte, tie: bool)
    requires Before(a, b)
    ensures Cmp(x, b, tie) <= Cmp(x, a, tie)
  {}

  lemma CmpMonotoneAll(x: Cte, a: seq<Cte>, c: Cte, b: seq<Cte>, tie: bool)
    requires AllBefore(a, c) && AllAfter(b, c)
    ensures forall e :: e in a ==> Cmp(x, c, tie) <= Cmp(x, e, tie)
    ensures forall e :: e in b ==> Cmp(x, e, tie) <= Cmp(x, c, tie)
  {
    hide Cmp;
    forall e | e in a ensures Cmp(x, c, tie) <= Cmp(x, e, tie) { CmpMonotone(x, e, c, tie); }
    forall e | e in b ensures Cmp(x, e, tie) <= Cmp(x, c, tie) { CmpMonotone(x, c, e, tie); }
  }

  /** What a search for the first entry after `x` must return. */
  ghost predicate FirstGreater(x: Cte, s: seq<Cte>, equalOk: bool, tie: bool, r: Option<Cte>) {
    match r
    case None => forall e :: e in s ==> Cmp(x, e, tie) > 0 || (!equalOk && Cmp(x, e, tie) == 0)
    case Some(g) =>
      && g in s
      && (Cmp(x, g, tie) < 0 || (equalOk && Cmp(x, g, tie) == 0))
      && (Cmp(x, g, tie) < 0 ==>
            forall e :: e in s ==> e == g || Before(g, e) || Cmp(x, e, tie) > 0 || (!equalOk && Cmp(x, e, tie) == 0))
  }

  lemma {:induction false} FindGreaterCorrect(x: Cte, t: Tree, equalOk: bool, tie: bool)
    requires Sorted(Contents(t))
    ensures FirstGreater(x, Contents(t), equalOk, tie, FindGreater(x, t, equalOk, tie))
  {
    hide Cmp;
    hide Before;
    if t.Node? {
      var a, b := Contents(t.left), Contents(t.right);
      SortedSplit(a, t.cte, b);
      CmpMonotoneAll(x, a, t.cte, b, tie);
      var c := Cmp(x, t.cte, tie);
      assert forall e :: e in Contents(t) <==> e in a || e == t.cte || e in b;
      if c < 0 {
        FindGreaterCorrect(x, t.left, equalOk, tie);
        var res := FindGreater(x, t.left, equalOk, tie);
        if res.Some? {
          assert Before(res.value, t.cte);
          forall e | e in b ensures Before(res.value, e) {
            BeforeTransitive(res.value, t.cte, e);
          }
        }
      } else {
        FindGreaterCorrect(x, t.right, equalOk, tie);
      }
    }
  }

  /** What a search for the last entry before `x` must return. */
  ghost predicate LastLess(x: Cte, s: seq<Cte>, equalOk: bool, tie: bool, r: Option<Cte>) {
    match r
    case None => forall e :: e in s ==> Cmp(x, e, tie) < 0 || (!equalOk && Cmp(x, e, tie) == 0)
    case Some(g) =>
      && g in s
      && (Cmp(x, g, tie) > 0 || (equalOk && Cmp(x, g, tie) == 0))
      && (Cmp(x, g, tie) > 0 ==>
            forall e :: e in s ==> e == g || Before(e, g) || Cmp(x, e, tie) < 0 || (!equalOk && Cmp(x, e, tie) == 0))
  }

  lemma {:induction false} FindLessCorrect(x: Cte, t: Tree, equalOk: bool, tie: bool)
    requires Sorted(Contents(t))
    ensures LastLess(x, Contents(t), equalOk, tie, FindLess(x, t, equalOk, tie))
  {
    hide Cmp;
    hide Before;
    if t.Node? {
      var a, b := Contents(t.left), Contents(t.right);
      SortedSplit(a, t.cte, b);
      CmpMonotoneAll(x, a, t.cte, b, tie);
      var c := Cmp(x, t.cte, tie);
      assert forall e :: e in Contents(t) <==> e in a || e == t.cte || e in b;
      if c > 0 {
        FindLessCorrect(x, t.right, equalOk, tie);
        var res := FindLess(x, t.right, equalOk, tie);
        if res.Some? {
          assert Before(t.cte, res.value);
          forall e | e in a ensures Before(e, res.value) {
            BeforeTransitive(e, t.cte, res.value);
          }
        }
      } else {
        FindLessCorrect(x, t.left, equalOk, tie);
      }
    }
  }

  // ---------- mdb_successor, mdb_predecessor ----------

  function First(t: Tree): (r: Cte)
    requires t.Node?
  {
    if t.left.Nil? then t.cte else First(t.left)
  }

  function Last(t: Tree): (r: Cte)
    requires t.Node?
  {
    if t.right.Nil? then t.cte else Last(t.right)
  }

  /** `at` is the node, inside `root`, whose successor is wanted. */
  function Successor(root: Tree, at: Tree): (r: Option<Cte>)
    requires at.Node?
  {
    if at.right.Node? then Some(First(at.right)) else FindGreater(at.cte, root, false, true)
  }

  function Predecessor(root: Tree, at: Tree): (r: Option<Cte>)
    requires at.Node?
  {
    if at.left.Node? then Some(Last(at.left)) else FindLess(at.cte, root, false, true)
  }

  ghost predicate IsSubtree(at: Tree, t: Tree) {
    at == t || (t.Node? && (IsSubtree(at, t.left) || IsSubtree(at, t.right)))
  }

  lemma {:induction false} FirstIsFirst(t: Tree)
    requires t.Node?
    ensures |Contents(t)| > 0 && First(t) == Contents(t)[0]
  {
    if t.left.Node? { FirstIsFirst(t.left); }
  }

  lemma {:induction false} LastIsLast(t: Tree)
    requires t.Node?
    ensures |Contents(t)| > 0 && Last(t) == Contents(t)[|Contents(t)| - 1]
  {
    if t.right.Node? { LastIsLast(t.right); }
  }

  lemma {:induction false} SubtreePosition(at: Tree, t: Tree) returns (a: seq<Cte>, b: seq<Cte>)
    requires IsSubtree(at, t)
    ensures Contents(t) == a + Contents(at) + b
  {
    if at == t {
      a, b := [], [];
    } else if IsSubtree(at, t.left) {
      a, b := SubtreePosition(at, t.left);
      b := b + [t.cte] + Contents(t.right);
    } else {
      a, b := SubtreePosition(at, t.right);
      a := Contents(t.left) + [t.cte] + a;
    }
  }

  lemma NodePosition(root: Tree, at: Tree) returns (a: seq<Cte>, b: seq<Cte>)
    requires IsSubtree(at, root) && at.Node?
    ensures Contents(root) == (a + Contents(at.left)) + [at.cte] + (Contents(at.right) + b)
  {
    a, b := SubtreePosition(at, root);
  }

  /** The neighbours in the tree are the neighbours in the sorted sequence. */
  lemma NeighboursCorrect(root: Tree, at: Tree) returns (i: nat)
    requires Sorted(Contents(root)) && IsSubtree(at, root) && at.Node?
    ensures i < |Contents(root)| && Contents(root)[i] == at.cte
    ensures Successor(root, at) == if i + 1 < |Contents(root)| then Some(Contents(root)[i + 1]) else None
    ensures Predecessor(root, at) == if i > 0 then Some(Contents(root)[i - 1]) else None
  {
    hide Before;
    hide Sorted;
    hide FindGreater;
    hide FindLess;
    hide FirstGreater;
    hide LastLess;
    var a, b := NodePosition(root, at);
    var s := Contents(root);
    i := |a + Contents(at.left)|;
    assert s[i] == at.cte;
    if at.right.Node? {
      FirstIsFirst(at.right);
    } else {
      FindGreaterCorrect(at.cte, root, false, true);
      NextInSequence(s, i, FindGreater(at.cte, root, false, true));
    }
    if at.left.Node? {
      LastIsLast(at.left);
    } else {
      FindLessCorrect(at.cte, root, false, true);
      PreviousInSequence(s, i, FindLess(at.cte, root, false, true));
    }
  }

  lemma TieOrder(x: Cte, e: Cte)
    ensures Cmp(x, e, true) < 0 <==> Before(x, e)
    ensures Cmp(x, e, true) > 0 <==> Before(e, x)
    ensures Cmp(x, x, true) == 0
  {}

  lemma NextInSequence(s: seq<Cte>, i: nat, r: Option<Cte>)
    requires Sorted(s) && i < |s| && FirstGreater(s[i], s, false, true, r)
    ensures r == if i + 1 < |s| then Some(s[i + 1]) else None
  {
    hide Cmp;
    hide Before;
    forall e | e in s ensures Cmp(s[i], e, true) < 0 <==> Before(s[i], e) { TieOrder(s[i], e); }
    if i + 1 < |s| {
      assert s[i + 1] in s;
      TieOrder(s[i], s[i + 1]);
      var k :| 0 <= k < |s| && s[k] == r.value;
      TieOrder(s[k], s[k]);
      TieOrder(s[i], s[k]);
      TieOrder(s[i + 1], s[k]);
      assert !(k < i) && k != i;
    } else if r.Some? {
      var k :| 0 <= k < |s| && s[k] == r.value;
      TieOrder(s[i], s[k]);
    }
  }

  lemma PreviousInSequence(s: seq<Cte>, i: nat, r: Option<Cte>)
    requires Sorted(s) && i < |s| && LastLess(s[i], s, false, true, r)
    ensures r == if i > 0 then Some(s[i - 1]) else None
  {
    hide Cmp;
    hide Before;
    forall e | e in s ensures Cmp(s[i], e, true) > 0 <==> Before(e, s[i]) { TieOrder(s[i], e); }
    if i > 0 {
      assert s[i - 1] in s;
      TieOrder(s[i], s[i - 1]);
      var k :| 0 <= k < |s| && s[k] == r.value;
      TieOrder(s[k], s[k]);
      TieOrder(s[i], s[k]);
      TieOrder(s[i - 1], s[k]);
      assert !(k > i) && k != i;
    } else if r.Some? {
      var k :| 0 <= k < |s| && s[k] == r.value;
      TieOrder(s[i], s[k]);
    }
  }
}
