/** Sequences of capabilities in database order, and what inserting into and
    removing from such a sequence means. The tree is proved against these. */
module MdbOrder {
  import opened Caps

  ghost predicate Sorted(s: seq<Cte>) {
    forall i, j :: 0 <= i < j < |s| ==> Before(s[i], s[j])
  }

  /** `x` put in front of the first element that it precedes. */
  ghost function Inserted(s: seq<Cte>, x: Cte): seq<Cte> {
    if s == [] || Before(x, s[0]) then [x] + s else [s[0]] + Inserted(s[1..], x)
  }

  /** `s` without the first occurrence of `x`. */
  ghost function Without(s: seq<Cte>, x: Cte): seq<Cte> {
    if s == [] then [] else if s[0] == x then s[1..] else [s[0]] + Without(s[1..], x)
  }

  ghost predicate AllBefore(s: seq<Cte>, x: Cte) { forall e :: e in s ==> Before(e, x) }

  ghost predicate AllAfter(s: seq<Cte>, x: Cte) { forall e :: e in s ==> Before(x, e) }

  lemma BeforeTransitive(a: Cte, b: Cte, c: Cte)
    requires Before(a, b) && Before(b, c)
    ensures Before(a, c)
  {}

  lemma NotBeforeItself(a: Cte)
    ensures !Before(a, a)
  {}

  lemma BeforeOrAfter(a: Cte, b: Cte)
    requires CompareTie(a, b) != 0
    ensures Before(a, b) || Before(b, a)
  {}

  lemma SortedSplit(a: seq<Cte>, c: Cte, b: seq<Cte>)
    requires Sorted(a + [c] + b)
    ensures Sorted(a) && Sorted(b) && AllBefore(a, c) && AllAfter(b, c)
  {
    var s := a + [c] + b;
    forall i, j | 0 <= i < j < |a| ensures Before(a[i], a[j]) {
      assert s[i] == a[i] && s[j] == a[j];
    }
    forall i, j | 0 <= i < j < |b| ensures Before(b[i], b[j]) {
      assert s[|a| + 1 + i] == b[i] && s[|a| + 1 + j] == b[j];
    }
    forall e | e in a ensures Before(e, c) {
      var i :| 0 <= i < |a| && a[i] == e;
      assert s[i] == e && s[|a|] == c;
    }
    forall e | e in b ensures Before(c, e) {
      var i :| 0 <= i < |b| && b[i] == e;
      assert s[|a| + 1 + i] == e && s[|a|] == c;
    }
  }

  lemma SortedJoin(a: seq<Cte>, c: Cte, b: seq<Cte>)
    requires Sorted(a) && Sorted(b) && AllBefore(a, c) && AllAfter(b, c)
    ensures Sorted(a + [c] + b)
  {
    var s := a + [c] + b;
    forall i, j | 0 <= i < j < |s| ensures Before(s[i], s[j]) {
      if i < |a| && j > |a| {
        assert s[i] == a[i] && s[j] == b[j - |a| - 1];
        BeforeTransitive(a[i], c, b[j - |a| - 1]);
      } else if i < |a| && j == |a| {
        assert s[i] in a;
      } else if i == |a| {
        assert s[j] == b[j - |a| - 1];
      } else if i > |a| {
        assert s[i] == b[i - |a| - 1] && s[j] == b[j - |a| - 1];
      }
    }
  }

  lemma {:induction false} InsertedLeft(a: seq<Cte>, c: Cte, b: seq<Cte>, x: Cte)
    requires Before(x, c)
    ensures Inserted(a + [c] + b, x) == Inserted(a, x) + [c] + b
  {
    var s := a + [c] + b;
    if a != [] && !Before(x, a[0]) {
      assert s[1..] == a[1..] + [c] + b;
      InsertedLeft(a[1..], c, b, x);
    }
  }

  lemma {:induction false} InsertedRight(a: seq<Cte>, c: Cte, b: seq<Cte>, x: Cte)
    requires AllBefore(a, c) && Before(c, x)
    ensures Inserted(a + [c] + b, x) == a + [c] + Inserted(b, x)
  {
    var s := a + [c] + b;
    if a == [] {
      assert s[1..] == b;
    } else {
      BeforeTransitive(a[0], c, x);
      assert s[1..] == a[1..] + [c] + b;
      InsertedRight(a[1..], c, b, x);
    }
  }

  lemma {:induction false} InsertedMembers(s: seq<Cte>, x: Cte)
    ensures forall e :: e in Inserted(s, x) <==> e in s || e == x
  {
    hide Before;
    if s != [] {
      assert s == [s[0]] + s[1..];
      InsertedMembers(s[1..], x);
    }
  }

  /** Inserting a new element keeps the order. */
  lemma {:induction false} InsertedSorted(s: seq<Cte>, x: Cte)
    requires Sorted(s) && forall e :: e in s ==> CompareTie(x, e) != 0
    ensures Sorted(Inserted(s, x))
  {
    hide CompareTie;
    if s == [] {
    } else if Before(x, s[0]) {
      forall e | e in s[1..] ensures Before(x, e) {
        BeforeTransitive(x, s[0], e);
      }
      SortedJoin([], x, s);
      assert [] + [x] + s == [x] + s;
    } else {
      BeforeOrAfter(x, s[0]);
      InsertedSorted(s[1..], x);
      InsertedMembers(s[1..], x);
      var r := Inserted(s[1..], x);
      SortedJoin([], s[0], r);
      assert [] + [s[0]] + r == [s[0]] + r;
    }
  }

  lemma {:induction false} WithoutLeft(a: seq<Cte>, c: Cte, b: seq<Cte>, x: Cte)
    requires x in a
    ensures Without(a + [c] + b, x) == Without(a, x) + [c] + b
  {
    var s := a + [c] + b;
    assert s[1..] == a[1..] + [c] + b;
    if a[0] != x {
      WithoutLeft(a[1..], c, b, x);
    }
  }

  lemma {:induction false} WithoutRight(a: seq<Cte>, c: Cte, b: seq<Cte>, x: Cte)
    requires x !in a && x != c
    ensures Without(a + [c] + b, x) == a + [c] + Without(b, x)
  {
    var s := a + [c] + b;
    if a == [] {
      assert s[1..] == b;
    } else {
      assert s[1..] == a[1..] + [c] + b;
      WithoutRight(a[1..], c, b, x);
    }
  }

  lemma {:induction false} WithoutMiddle(a: seq<Cte>, x: Cte, b: seq<Cte>)
    requires x !in a
    ensures Without(a + [x] + b, x) == a + b
  {
    var s := a + [x] + b;
    if a == [] {
      assert s[1..] == b;
    } else {
      assert s[1..] == a[1..] + [x] + b;
      WithoutMiddle(a[1..], x, b);
    }
  }

  /** Removing keeps the order and drops exactly one element. */
  lemma {:induction false} WithoutSorted(s: seq<Cte>, x: Cte)
    requires Sorted(s)
    ensures Sorted(Without(s, x))
    ensures forall e :: e in Without(s, x) <==> e in s && e != x
  {
    hide CompareTie;
    if s != [] {
      assert s == [s[0]] + s[1..];
      NotBeforeItself(s[0]);
      if s[0] != x {
        WithoutSorted(s[1..], x);
        var r := Without(s[1..], x);
        SortedJoin([], s[0], r);
        assert [] + [s[0]] + r == [s[0]] + r;
      }
    }
  }
}
