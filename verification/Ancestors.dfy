/** has_ancestors and has_descendants: two lookups tell whether an object was derived from
    another one that is still in the database, and one whether anything is left below it. */
module Ancestors {
  import opened Wrappers
  import opened Caps
  import opened MdbOrder
  import opened MdbTree
  import opened MdbQuery
  import opened MdbRange
  import opened Copies
  import Forest
  import Revoke

  /** `e` comes before `src` and covers its region. */
  predicate Covers(e: Cap, src: Cap) {
    TypeRoot(e.typ) == TypeRoot(src.typ) && Compare(e, src) < 0 && Inside(src, e)
  }

  /** mdb_find_ancestor. The entry in front of the capability and its copies covers it, or
      whatever reaches over its first address does. */
  function FindAncestor(db: Tree, src: Cte): (r: Option<Cte>) {
    var l := FindLess(src, db, false, false);
    if l.Some? && TypeRoot(l.value.cap.typ) == TypeRoot(src.cap.typ) && l.value.cap.End() >= src.cap.End() then l
    else Across(db, src).found
  }

  function Across(db: Tree, src: Cte): Answer {
    FindRange(TypeRoot(src.cap.typ), src.cap.addr, 0, SURROUNDING, db)
  }

  /** The assertions about the second lookup. */
  predicate Asserted(src: Cte, a: Answer) {
    if a.kind == NOT_FOUND then a.found.None?
    else a.kind == SURROUNDING && a.found.Some? && Inside(src.cap, a.found.value.cap)
  }

  // ---------- The first lookup ----------

  lemma CompareMirror(a: Cap, b: Cap)
    ensures Compare(a, b) == -Compare(b, a)
  {}

  /** Between a covering entry with the same address and `src` everything covers `src`. */
  lemma CoversBetween(e: Cte, l: Cte, src: Cap)
    requires Covers(e.cap, src) && e.cap.addr == src.addr && (e == l || Before(e, l)) && Compare(l.cap, src) < 0
    ensures Covers(l.cap, src)
  {}

  lemma FirstLookup(s: seq<Cte>, src: Cte, l: Option<Cte>)
    requires LastLess(src, s, false, false, l)
    ensures var hit := l.Some? && TypeRoot(l.value.cap.typ) == TypeRoot(src.cap.typ)
      && l.value.cap.End() >= src.cap.End();
      && (hit ==> l.value in s && Covers(l.value.cap, src.cap))
      && (hit ==> forall e :: e in s && Covers(e.cap, src.cap) ==> CompareTie(e, l.value) <= 0)
      && (!hit ==> forall e :: e in s && Covers(e.cap, src.cap) ==> e.cap.addr < src.cap.addr)
  {
    hide Covers; hide Compare;
    forall e | e in s ensures Covers(e.cap, src.cap) ==> Cmp(src, e, false) > 0 && e.cap.addr <= src.cap.addr {
      CoversMeans(e.cap, src.cap);
    }
    if l.Some? {
      var g := l.value;
      assert Cmp(src, g, false) > 0;
      CompareMirror(src.cap, g.cap);
      EarlierCovers(g.cap, src.cap);
      Reflexive(g);
      forall e | e in s && Covers(e.cap, src.cap) && e.cap.addr == src.cap.addr ensures Covers(g.cap, src.cap) {
        CoversBetween(e, g, src.cap);
      }
      CoversMeans(g.cap, src.cap);
    }
  }

  lemma CoversMeans(e: Cap, src: Cap)
    ensures Covers(e, src) ==>
      Compare(src, e) > 0 && e.addr <= src.addr && TypeRoot(e.typ) == TypeRoot(src.typ) && e.End() >= src.End()
  {}

  lemma EarlierCovers(g: Cap, src: Cap)
    requires Compare(g, src) < 0
    ensures TypeRoot(g.typ) == TypeRoot(src.typ) && g.End() >= src.End() ==> Covers(g, src)
  {}

  // ---------- The second lookup ----------

  /** The query without extent sees exactly what reaches over the address. */
  lemma ClassAcross(c: Cap, root: nat, address: nat)
    ensures Class(c, root, address, 0) == if TypeRoot(c.typ) == root && c.addr < address < c.End()
      then SURROUNDING else NOT_FOUND
    ensures c.addr < address < c.End() ==> !OnEdge(c, address, 0)
  {}

  /** In a forest, an entry that reaches over the first address of an object covers it. */
  lemma AcrossCovers(s: seq<Cte>, e: Cte, src: Cte)
    requires Forest.IsForest(s) && Forest.AllWellFormed(s) && e in s && src in s && IsObject(src.cap.typ)
    requires TypeRoot(e.cap.typ) == TypeRoot(src.cap.typ) && e.cap.addr < src.cap.addr < e.cap.End()
    ensures Covers(e.cap, src.cap)
  {
    assert WellFormed(e.cap) && WellFormed(src.cap);
    assert IsObject(e.cap.typ);
    assert Forest.Overlap(e.cap, src.cap);
    assert Forest.Related(e.cap, src.cap);
  }

  lemma SecondLookup(db: Tree, src: Cte)
    requires Sorted(Contents(db)) && EndOk(db) && Forest.IsForest(Contents(db)) && Forest.AllWellFormed(Contents(db))
    requires src in Contents(db) && IsObject(src.cap.typ)
    ensures var a, s := Across(db, src), Contents(db);
      && Asserted(src, a)
      && (a.found.Some? ==> a.found.value in s && Covers(a.found.value.cap, src.cap))
      && (forall e :: e in s && Covers(e.cap, src.cap) && e.cap.addr < src.cap.addr ==>
            a.found.Some? && CompareTie(e, a.found.value) <= 0)
  {
    hide FindRange; hide Class; hide Covers; hide CompareTie; hide Compare; hide Forest.IsForest; hide OnEdge;
    hide WellFormed;
    var a, s := Across(db, src), Contents(db);
    forall e | e in s ensures !e.cap.typ.Null? { assert WellFormed(e.cap); NotNull(e.cap); }
    MemoryIsSearchable(s, src.cap.addr, 0);
    FindRangeCorrect(1, src.cap.addr, 0, SURROUNDING, db);
    if a.found.Some? {
      ClassAcross(a.found.value.cap, 1, src.cap.addr);
      AcrossCovers(s, a.found.value, src);
      CoversMeans(a.found.value.cap, src.cap);
    }
    forall e | e in s && Covers(e.cap, src.cap) && e.cap.addr < src.cap.addr
      ensures a.found.Some? && CompareTie(e, a.found.value) <= 0
    {
      ClassAcross(e.cap, 1, src.cap.addr);
      CoversMeans(e.cap, src.cap);
      assert WellFormed(src.cap);
      Extent(src.cap);
    }
  }

  lemma NotNull(c: Cap)
    requires WellFormed(c)
    ensures !c.typ.Null?
  {}

  lemma Extent(c: Cap)
    requires WellFormed(c) && IsObject(c.typ)
    ensures c.size > 0
  {}

  /** mdb_find_ancestor finds an ancestor exactly if there is one, namely the innermost,
      and none of its assertions fails. */
  lemma FindAncestorCorrect(db: Tree, src: Cte)
    requires Sorted(Contents(db)) && EndOk(db) && Forest.IsForest(Contents(db)) && Forest.AllWellFormed(Contents(db))
    requires src in Contents(db) && IsObject(src.cap.typ)
    ensures Asserted(src, Across(db, src))
    ensures var r, s := FindAncestor(db, src), Contents(db);
      && (r.Some? <==> exists e :: e in s && Covers(e.cap, src.cap))
      && (r.Some? ==> r.value in s && Covers(r.value.cap, src.cap))
      && (r.Some? ==> forall e :: e in s && Covers(e.cap, src.cap) ==> CompareTie(e, r.value) <= 0)
  {
    hide FindLess; hide Across; hide Covers; hide CompareTie; hide LastLess; hide Forest.IsForest;
    hide Forest.AllWellFormed; hide EndOk;
    FindLessCorrect(src, db, false, false);
    FirstLookup(Contents(db), src, FindLess(src, db, false, false));
    SecondLookup(db, src);
  }

  // ---------- What deletion asks ----------

  /** Both questions have the same answers on the sorted sequence of slots that deletion
      works on. */
  lemma HasAncestorsIsFindAncestor(db: Tree, es: seq<Entry>, i: nat)
    requires Contents(db) == Ctes(es) && i < |es| && IsObject(es[i].cte.cap.typ)
    requires Sorted(Contents(db)) && EndOk(db) && Forest.IsForest(Contents(db)) && Forest.AllWellFormed(Contents(db))
    ensures Revoke.HasAncestors(es, i) <==> FindAncestor(db, es[i].cte).Some?
  {
    hide FindAncestor; hide Compare; hide EndOk; hide Forest.IsForest; hide Forest.AllWellFormed; hide CompareTie;
    hide Asserted; hide Inside;
    var s, src := Contents(db), es[i].cte;
    assert s[i] == src;
    FindAncestorCorrect(db, src);
    if FindAncestor(db, src).Some? {
      var k :| 0 <= k < |s| && s[k] == FindAncestor(db, src).value;
      assert Covers(es[k].cte.cap, src.cap);
    }
    forall k | 0 <= k < |es| && Covers(es[k].cte.cap, src.cap) ensures exists e :: e in s && Covers(e.cap, src.cap) {
      assert s[k] in s;
    }
  }

  lemma HasDescendantsIsFindGreater(db: Tree, es: seq<Entry>, i: nat)
    requires Contents(db) == Ctes(es) && i < |es| && Sorted(Contents(db))
    ensures Revoke.HasDescendants(es, i) <==> Forest.HasDescendants(db, es[i].cte)
  {
    hide FindGreater; hide CompareTie;
    var s, src := Contents(db), es[i].cte;
    FindGreaterCorrect(src, db, false, false);
    var r := FindGreater(src, db, false, false);
    if r.Some? {
      var k :| 0 <= k < |s| && s[k] == r.value;
      assert Cmp(src, s[k], false) < 0;
      assert es[k].cte == s[k];
    }
    forall k | 0 <= k < |es| && Compare(src.cap, es[k].cte.cap) < 0 && Revoke.InRegion(es[k], src.cap)
      ensures Forest.HasDescendants(db, src)
    {
      assert s[k] in s;
      Forest.DetectedByFirst(src, s[k], r, s);
    }
  }

  /** What caps_try_delete decides about the slot at a node of the tree, by the lookups that
      the source makes: both neighbours, the first entry behind, and mdb_find_ancestor. */
  function TreeDecision(root: Tree, at: Tree, a: Attr, myCore: nat, room: bool): (r: Revoke.Err)
    requires at.Node?
  {
    var next, prev := Successor(root, at), Predecessor(root, at);
    if a.inDelete || a.locked then Revoke.Locked
    else if || a.owner != myCore
            || (next.Some? && IsCopy(next.value.cap, at.cte.cap))
            || (prev.Some? && IsCopy(prev.value.cap, at.cte.cap)) then Revoke.Ok
    else if a.remoteCopies || Revoke.IsContainer(at.cte.cap.typ) then Revoke.DeleteLastOwned
    else if !Forest.HasDescendants(root, at.cte) && FindAncestor(root, at.cte).None?
      && Revoke.IsRamBacked(at.cte.cap.typ) && !room
    then Revoke.RetryThroughMonitor
    else Revoke.Ok
  }

  /** Deletion as it is modelled on the sequence decides just so. */
  lemma DecisionIsLookups(root: Tree, at: Tree, es: seq<Entry>, i: nat, myCore: nat, room: bool)
    requires Contents(root) == Ctes(es) && i < |es| && IsSubtree(at, root) && at.Node? && at.cte == es[i].cte
    requires Sorted(Contents(root)) && EndOk(root) && Forest.IsForest(Contents(root))
      && Forest.AllWellFormed(Contents(root))
    ensures Revoke.Decision(es, i, myCore, room) == TreeDecision(root, at, es[i].attr, myCore, room)
  {
    hide FindAncestor; hide Revoke.HasAncestors; hide Revoke.HasDescendants; hide Forest.HasDescendants; hide IsCopy;
    hide EndOk; hide Forest.IsForest; hide Forest.AllWellFormed; hide Successor; hide Predecessor; hide IsSubtree;
    var j := NeighboursCorrect(root, at);
    SamePlace(Contents(root), i, j);
    HasDescendantsIsFindGreater(root, es, i);
    if IsObject(at.cte.cap.typ) { HasAncestorsIsFindAncestor(root, es, i); }
  }

  lemma SamePlace(s: seq<Cte>, i: nat, j: nat)
    requires Sorted(s) && i < |s| && j < |s| && s[i] == s[j]
    ensures i == j
  {}

  // ---------- Deletion keeps the forest ----------

  /** Whatever is left over of a forest is one. */
  lemma SubForest(es: seq<Entry>, fs: seq<Entry>)
    requires Forest.IsForest(Ctes(es)) && Forest.AllWellFormed(Ctes(es))
    requires forall f :: f in fs ==> exists e :: e in es && e.cte == f.cte
    ensures Forest.IsForest(Ctes(fs)) && Forest.AllWellFormed(Ctes(fs))
  {
    hide WellFormed; hide Forest.Overlap; hide Forest.Related;
    var s, r := Ctes(es), Ctes(fs);
    forall c | c in r ensures c in s {
      var k :| 0 <= k < |r| && r[k] == c;
      assert fs[k] in fs;
      var e :| e in es && e.cte == c;
      var n :| 0 <= n < |es| && es[n] == e;
      assert s[n] == c;
    }
  }

  /** So every deletion and every mark leaves a database on which the next decision is again
      the one that the lookups give. */
  lemma DeletionKeepsForest(es: seq<Entry>, i: nat)
    requires Forest.IsForest(Ctes(es)) && Forest.AllWellFormed(Ctes(es)) && i < |es|
    ensures var fs := Revoke.Cleaned(es, i); Forest.IsForest(Ctes(fs)) && Forest.AllWellFormed(Ctes(fs))
    ensures var fs := es[i := Revoke.MarkedEntry(es[i])]; Forest.IsForest(Ctes(fs)) && Forest.AllWellFormed(Ctes(fs))
  {
    hide Forest.IsForest; hide Forest.AllWellFormed;
    Revoke.LiveMembers(es[i + 1..], {es[i].Slot()});
    SubForest(es, Revoke.Cleaned(es, i));
    assert es[i] in es && Revoke.MarkedEntry(es[i]).cte == es[i].cte;
    SubForest(es, es[i := Revoke.MarkedEntry(es[i])]);
  }

  /** And so does the mark phase as a whole. */
  lemma RevokeKeepsForest(pre: seq<Entry>, cs: seq<Entry>, rest: seq<Entry>, target: Entry, base: Cap, g: set<nat>,
      myCore: nat)
    requires target in cs && Forest.IsForest(Ctes(pre + cs + rest)) && Forest.AllWellFormed(Ctes(pre + cs + rest))
    ensures var m := Revoke.Mark(base, Revoke.Live(rest, g), myCore);
      var fs := pre + [target] + m.kept + m.tail;
      Forest.IsForest(Ctes(fs)) && Forest.AllWellFormed(Ctes(fs))
  {
    hide Forest.IsForest; hide Forest.AllWellFormed; hide Revoke.Mark;
    var live := Revoke.Live(rest, g);
    var m := Revoke.Mark(base, live, myCore);
    var es, fs := pre + cs + rest, pre + [target] + m.kept + m.tail;
    Revoke.LiveMembers(rest, g);
    Revoke.MarkFrom(base, live, myCore);
    forall f | f in fs ensures exists e :: e in es && e.cte == f.cte {
      if f in m.kept {
        var e :| e in live && (f == e || f == Revoke.MarkedEntry(e));
        assert e in es && e.cte == f.cte;
      } else {
        assert f in es;
      }
    }
    SubForest(es, fs);
  }
}
