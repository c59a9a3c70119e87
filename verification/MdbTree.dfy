/** The mapping database: a balanced search tree over all capabilities of a core.

    `lib/mdb/mdb_tree.c` keeps an AA tree (leaves at level 0) whose nodes also
    carry the largest region end below them. The tree is modelled on values: a
    node that the C code changes in place becomes a new node.
 */
module MdbTree {
  import opened Wrappers
  import opened Caps
  import opened MdbOrder

  datatype Tree =
    | Nil
    | Node(cte: Cte, level: int, endRoot: nat, end: nat, left: Tree, right: Tree)

  function Level(t: Tree): int { if t.Nil? then -1 else t.level }

  /** The capabilities of the tree from left to right. */
  ghost function Contents(t: Tree): seq<Cte> {
    if t.Nil? then [] else Contents(t.left) + [t.cte] + Contents(t.right)
  }

  // ---------- Invariants ----------

  /** The AA rules at one node: a left child is one level down, a right child at
      most one level down and never two in a row on the same level. */
  predicate Shape(t: Tree)
    requires t.Node?
  {
    && t.level >= 0
    && Level(t.left) == t.level - 1
    && t.level - 1 <= Level(t.right) <= t.level
    && (t.right.Node? ==> Level(t.right.right) < t.level)
  }

  ghost predicate Balanced(t: Tree) {
    t.Nil? || (Balanced(t.left) && Balanced(t.right) && Shape(t))
  }

  /** Every node's stored region end is the one its subtree calls for. */
  ghost predicate EndOk(t: Tree) {
    t.Nil? || (EndOk(t.left) && EndOk(t.right) && UpdateEnd(t) == t)
  }

  ghost predicate Inv(t: Tree) { Sorted(Contents(t)) && Balanced(t) && EndOk(t) }

  // ---------- mdb_update_end, mdb_skew, mdb_split, mdb_rebalance ----------

  function Max(a: nat, b: nat): nat { if a > b then a else b }

  function Min(a: int, b: int): int { if a < b then a else b }

  /** Type roots act as an address prefix, so only the ends of the highest root count. */
  function UpdateEnd(t: Tree): (r: Tree)
    requires t.Node?
    ensures r.Node? && r == t.(endRoot := r.endRoot, end := r.end)
  {
    var own := TypeRoot(t.cte.cap.typ);
    var r1 := if t.left.Node? then Max(own, t.left.endRoot) else own;
    var root := if t.right.Node? then Max(r1, t.right.endRoot) else r1;
    var e0 := if own == root then t.cte.cap.End() else 0;
    var e1 := if t.left.Node? && t.left.endRoot == root then Max(e0, t.left.end) else e0;
    var end := if t.right.Node? && t.right.endRoot == root then Max(e1, t.right.end) else e1;
    t.(endRoot := root, end := end)
  }

  function Skew(t: Tree): (r: Tree) {
    if t.Nil? || t.left.Nil? then t
    else if t.level == t.left.level then
      UpdateEnd(t.left.(right := UpdateEnd(t.(left := t.left.right))))
    else t
  }

  function Split(t: Tree): (r: Tree) {
    if t.Nil? || t.right.Nil? || t.right.right.Nil? then t
    else if t.level == t.right.right.level then
      UpdateEnd(t.right.(left := UpdateEnd(t.(right := t.right.left)), level := t.right.level + 1))
    else t
  }

  function DecreaseLevel(t: Tree): (r: Tree)
    requires t.Node?
  {
    var expected := if t.left.Nil? || t.right.Nil? then 0 else Min(t.left.level, t.right.level) + 1;
    if expected < t.level then
      var r := if t.right.Node? && expected < t.right.level then t.right.(level := expected) else t.right;
      t.(level := expected, right := r)
    else t
  }

  function Rebalance(t: Tree): (r: Tree)
    requires t.Node?
    ensures r.Node?
  {
    var n1 := Skew(DecreaseLevel(UpdateEnd(t)));
    var n2 := n1.(right := Skew(n1.right));
    var n3 := if n2.right.Node? then n2.(right := n2.right.(right := Skew(n2.right.right))) else n2;
    var n4 := Split(n3);
    n4.(right := Split(n4.right))
  }

  // ---------- mdb_insert, mdb_remove ----------

  /** mdb_sub_insert; None is CAPS_ERR_MDB_DUPLICATE_ENTRY. */
  function Insert(t: Tree, x: Cte): (r: Option<Tree>) {
    if t.Nil? then Some(UpdateEnd(Node(x, 0, 0, 0, Nil, Nil)))
    else
      var c := CompareTie(x, t.cte);
      if c < 0 then
        var l := Insert(t.left, x);
        if l.None? then None else Some(Split(Skew(UpdateEnd(t.(left := l.value)))))
      else if c > 0 then
        var rt := Insert(t.right, x);
        if rt.None? then None else Some(Split(Skew(UpdateEnd(t.(right := rt.value)))))
      else None
  }

  /** mdb_exchange_remove walking right: takes the last node out of the subtree.
      Exchanging two nodes exchanges their capabilities and leaves the levels. */
  function TakeLast(t: Tree): (r: (Tree, Cte))
    requires t.Node?
  {
    if t.right.Nil? then (Nil, t.cte)
    else
      var (rt, last) := TakeLast(t.right);
      (Rebalance(t.(right := rt)), last)
  }

  /** mdb_subtree_remove; None is CAPS_ERR_MDB_ENTRY_NOTFOUND. A node without a
      left child has at most a leaf on its right, which takes its place. */
  function Remove(t: Tree, x: Cte): (r: Option<Tree>) {
    if t.Nil? then None
    else
      var c := CompareTie(x, t.cte);
      if c > 0 then
        var rt := Remove(t.right, x);
        if rt.None? then None else Some(Rebalance(t.(right := rt.value)))
      else if c < 0 then
        var l := Remove(t.left, x);
        if l.None? then None else Some(Rebalance(t.(left := l.value)))
      else if t.left.Nil? && t.right.Nil? then Some(Nil)
      else if t.left.Nil? then Some(Rebalance(t.(cte := t.right.cte, right := Nil)))
      else
        var (l, last) := TakeLast(t.left);
        Some(Rebalance(t.(cte := last, left := l)))
  }

  // ---------- Order ----------

  lemma SkewContents(t: Tree)
    ensures Contents(Skew(t)) == Contents(t)
  {}

  lemma SplitContents(t: Tree)
    ensures Contents(Split(t)) == Contents(t)
  {}

  lemma RebalanceContents(t: Tree)
    requires t.Node?
    ensures Contents(Rebalance(t)) == Contents(t)
  {
    hide UpdateEnd;
    var n0 := DecreaseLevel(UpdateEnd(t));
    assert Contents(n0) == Contents(t) by { DecreaseContents(t); }
    var n1 := Skew(n0);
    SkewContents(n0);
    var n2 := n1.(right := Skew(n1.right));
    SkewContents(n1.right);
    var n3 := if n2.right.Node? then n2.(right := n2.right.(right := Skew(n2.right.right))) else n2;
    if n2.right.Node? { SkewContents(n2.right.right); }
    assert Contents(n3) == Contents(n2);
    var n4 := Split(n3);
    SplitContents(n3);
    SplitContents(n4.right);
  }

  lemma DecreaseContents(t: Tree)
    requires t.Node?
    ensures Contents(DecreaseLevel(UpdateEnd(t))) == Contents(t)
  {}

  /** Insertion refines insertion into the sorted sequence, and fails exactly on
      an entry that compares equal. */
  lemma {:induction false} InsertContents(t: Tree, x: Cte)
    requires Sorted(Contents(t))
    ensures Insert(t, x).None? <==> exists e :: e in Contents(t) && CompareTie(x, e) == 0
    ensures Insert(t, x).Some? ==> Contents(Insert(t, x).value) == Inserted(Contents(t), x)
  {
    hide CompareTie;
    hide UpdateEnd;
    if t.Nil? {
      UpdateEndContents(Node(x, 0, 0, 0, Nil, Nil));
    } else {
      var a, b := Contents(t.left), Contents(t.right);
      SortedSplit(a, t.cte, b);
      if CompareTie(x, t.cte) < 0 {
        InsertContents(t.left, x);
        InsertedLeft(a, t.cte, b, x);
        NotEqualLater(t.cte, b, x);
        if Insert(t.left, x).Some? {
          var u := UpdateEnd(t.(left := Insert(t.left, x).value));
          UpdateEndContents(t.(left := Insert(t.left, x).value));
          SkewContents(u);
          SplitContents(Skew(u));
        }
      } else if CompareTie(x, t.cte) > 0 {
        Mirror(x, t.cte);
        InsertContents(t.right, x);
        InsertedRight(a, t.cte, b, x);
        NotEqualEarlier(a, t.cte, x);
        if Insert(t.right, x).Some? {
          var u := UpdateEnd(t.(right := Insert(t.right, x).value));
          UpdateEndContents(t.(right := Insert(t.right, x).value));
          SkewContents(u);
          SplitContents(Skew(u));
        }
      }
    }
  }

  lemma UpdateEndContents(t: Tree)
    requires t.Node?
    ensures Contents(UpdateEnd(t)) == Contents(t)
  {}

  lemma Mirror(a: Cte, b: Cte)
    ensures CompareTie(a, b) > 0 <==> Before(b, a)
  {}

  lemma NotEqualLater(c: Cte, b: seq<Cte>, x: Cte)
    requires Before(x, c) && AllAfter(b, c)
    ensures forall e :: e in b ==> CompareTie(x, e) < 0
  {
    hide CompareTie;
    forall e | e in b ensures CompareTie(x, e) < 0 {
      BeforeTransitive(x, c, e);
    }
  }

  lemma NotEqualEarlier(a: seq<Cte>, c: Cte, x: Cte)
    requires Before(c, x) && AllBefore(a, c)
    ensures forall e :: e in a ==> CompareTie(x, e) > 0
  {
    hide CompareTie;
    forall e | e in a ensures CompareTie(x, e) > 0 {
      BeforeTransitive(e, c, x);
      Mirror(x, e);
    }
  }

  lemma {:induction false} TakeLastContents(t: Tree)
    requires t.Node? && Balanced(t)
    ensures Contents(t) == Contents(TakeLast(t).0) + [TakeLast(t).1]
  {
    if t.right.Nil? {
      assert t.left.Nil?;
    } else {
      TakeLastContents(t.right);
      RebalanceContents(t.(right := TakeLast(t.right).0));
    }
  }

  /** Removal refines removal from the sorted sequence, and fails exactly when no
      entry compares equal. */
  lemma {:induction false} RemoveContents(t: Tree, x: Cte)
    requires Sorted(Contents(t)) && Balanced(t)
    requires forall e :: e in Contents(t) && CompareTie(x, e) == 0 ==> e == x
    ensures Remove(t, x).Some? <==> x in Contents(t)
    ensures Remove(t, x).Some? ==> Contents(Remove(t, x).value) == Without(Contents(t), x)
  {
    hide CompareTie;
    hide Rebalance;
    if t.Node? {
      var a, b := Contents(t.left), Contents(t.right);
      SortedSplit(a, t.cte, b);
      assert t.cte in Contents(t);
      if CompareTie(x, t.cte) > 0 {
        Mirror(x, t.cte);
        NotEqualEarlier(a, t.cte, x);
        NotBeforeItself(x);
        Reflexive(x);
        assert x !in a && x != t.cte;
        RemoveContents(t.right, x);
        WithoutRight(a, t.cte, b, x);
        if x in b { RebalanceContents(t.(right := Remove(t.right, x).value)); }
      } else if CompareTie(x, t.cte) < 0 {
        NotEqualLater(t.cte, b, x);
        Reflexive(x);
        assert x !in b && x != t.cte;
        RemoveContents(t.left, x);
        if x in a {
          WithoutLeft(a, t.cte, b, x);
          RebalanceContents(t.(left := Remove(t.left, x).value));
        }
      } else {
        NotBeforeItself(x);
        WithoutMiddle(a, x, b);
        if t.left.Nil? && t.right.Node? {
          LoneLeaf(t);
          RebalanceContents(t.(cte := t.right.cte, right := Nil));
        } else if t.left.Node? {
          TakeLastContents(t.left);
          var (l, last) := TakeLast(t.left);
          RebalanceContents(t.(cte := last, left := l));
        }
      }
    }
  }

  lemma LoneLeaf(t: Tree)
    requires Balanced(t) && t.Node? && t.left.Nil? && t.right.Node?
    ensures t.level == 0 && t.right.left.Nil? && t.right.right.Nil?
  {
    assert Balanced(t.right.left) && Balanced(t.right.right);
  }

  lemma Reflexive(a: Cte)
    ensures CompareTie(a, a) == 0
  {}
}
