/** The derivation forest: capabilities whose regions overlap are copies, or one
    was derived from the other. Retyping must never break this. */
module Forest {
  import opened Wrappers
  import opened Caps
  import opened MdbOrder
  import opened MdbTree
  import opened MdbQuery
  import opened MdbRange

  predicate Overlap(a: Cap, b: Cap) { a.addr < b.End() && b.addr < a.End() }

  /** `c` could come from `p` by one or more retype steps. */
  predicate Derived(c: Cap, p: Cap) {
    && TypeAncestor(p.typ, c.typ)
    && Inside(c, p)
    && (c.typ == p.typ ==> StrictlyInside(c, p))
  }

  predicate Related(a: Cap, b: Cap) { IsCopy(a, b) || Derived(a, b) || Derived(b, a) }

  ghost predicate IsForest(s: seq<Cte>) {
    forall a, b :: a in s && b in s && IsObject(a.cap.typ) && IsObject(b.cap.typ) && Overlap(a.cap, b.cap)
      ==> Related(a.cap, b.cap)
  }

  ghost predicate AllWellFormed(s: seq<Cte>) { forall e :: e in s ==> WellFormed(e.cap) }

  /** has_descendants: looks only at the first entry after `src` and its copies. */
  predicate HasDescendants(db: Tree, src: Cte) {
    var next := FindGreater(src, db, false, false);
    && next.Some?
    && TypeRoot(next.value.cap.typ) == TypeRoot(src.cap.typ)
    && next.value.cap.addr < src.cap.End()
  }

  /** The fine-grained check of caps_retype: nothing in or across the region, and
      what covers it is the source or a copy of it. */
  predicate RangeFree(db: Tree, src: Cap, base: nat, size: nat) {
    var a := FindRange(TypeRoot(src.typ), base, size, SURROUNDING, db);
    && a.kind < INNER
    && (a.kind == SURROUNDING ==> a.found.Some? && IsCopy(a.found.value.cap, src))
  }

  // ---------- Derived capabilities and the database order ----------

  lemma DerivedComesLater(c: Cap, p: Cap)
    requires Derived(c, p)
    ensures Compare(p, c) < 0 && TypeRoot(c.typ) == TypeRoot(p.typ)
  {
    TypeAncestorRank(p.typ, c.typ);
  }

  lemma CopyKeepsRegion(a: Cap, b: Cap)
    requires IsCopy(a, b) && IsObject(b.typ)
    ensures a.addr == b.addr && a.size == b.size && a.typ == b.typ
  {}

  /** An object strictly below the source makes has_descendants answer yes. */
  lemma DescendantDetected(db: Tree, src: Cte, d: Cte)
    requires Sorted(Contents(db)) && d in Contents(db)
    requires Derived(d.cap, src.cap) && d.cap.size > 0
    ensures HasDescendants(db, src)
  {
    DerivedComesLater(d.cap, src.cap);
    FindGreaterCorrect(src, db, false, false);
    DetectedByFirst(src, d, FindGreater(src, db, false, false), Contents(db));
  }

  lemma DetectedByFirst(src: Cte, d: Cte, r: Option<Cte>, s: seq<Cte>)
    requires d in s && Compare(src.cap, d.cap) < 0 && TypeRoot(d.cap.typ) == TypeRoot(src.cap.typ)
    requires d.cap.addr < src.cap.End() && FirstGreater(src, s, false, false, r)
    ensures r.Some? && TypeRoot(r.value.cap.typ) == TypeRoot(src.cap.typ) && r.value.cap.addr < src.cap.End()
  {
    assert Cmp(src, d, false) < 0;
  }

  /** An object below the source that meets the region makes the range check fail. */
  lemma DescendantInRange(db: Tree, src: Cap, d: Cte, base: nat, size: nat)
    requires Sorted(Contents(db)) && EndOk(db) && (forall e :: e in Contents(db) ==> !e.cap.typ.Null?)
      && TypeRoot(src.typ) == 1
    requires d in Contents(db) && Derived(d.cap, src) && d.cap.size > 0
    requires d.cap.addr < base + size && base < d.cap.End()
    ensures !RangeFree(db, src, base, size)
  {
    hide CompareTie;
    hide FindRange;
    var root := 1;
    MemoryIsSearchable(Contents(db), base, size);
    FindRangeCorrect(root, base, size, SURROUNDING, db);
    DerivedComesLater(d.cap, src);
    var a := FindRange(root, base, size, SURROUNDING, db);
    OverlapHasClass(d.cap, root, base, size);
    if a.kind == SURROUNDING && IsCopy(a.found.value.cap, src) {
      CopyIsEarlier(a.found.value, d, src);
    }
  }

  lemma OverlapHasClass(c: Cap, root: nat, base: nat, size: nat)
    requires TypeRoot(c.typ) == root && c.size > 0 && c.addr < base + size && base < c.End()
    ensures Class(c, root, base, size) >= SURROUNDING && !OnEdge(c, base, size)
  {}

  lemma CopyIsEarlier(f: Cte, d: Cte, src: Cap)
    requires IsCopy(f.cap, src) && Compare(src, d.cap) < 0 && TypeRoot(src.typ) == 1
    ensures CompareTie(d, f) > 0
  {}

  /** What has_descendants sees: an entry that comes after the source in the order and
      starts before the source ends. */
  lemma HasDescendantsIff(db: Tree, src: Cte)
    requires Sorted(Contents(db))
    ensures HasDescendants(db, src) <==>
      exists d ::
        && d in Contents(db) && Compare(src.cap, d.cap) < 0
        && TypeRoot(d.cap.typ) == TypeRoot(src.cap.typ) && d.cap.addr < src.cap.addr + src.cap.size
  {
    hide Compare;
    var r := FindGreater(src, db, false, false);
    FindGreaterCorrect(src, db, false, false);
    if HasDescendants(db, src) {
      assert r.value in Contents(db) && Compare(src.cap, r.value.cap) < 0;
    }
    forall d | d in Contents(db) && Compare(src.cap, d.cap) < 0 && TypeRoot(d.cap.typ) == TypeRoot(src.cap.typ)
      && d.cap.addr < src.cap.End()
      ensures HasDescendants(db, src)
    {
      DetectedByFirst(src, d, r, Contents(db));
    }
  }

  /** The capability has an address in common with the region. */
  predicate Meets(c: Cap, base: nat, size: nat) {
    TypeRoot(c.typ) == 1 && c.addr < base + size && base < c.addr + c.size
  }

  /** What the range check asks for, unless an end point lies on the edge of the region:
      whatever meets the region covers all of it, and does not come after the source in the
      order, so that it is the source, a copy of it, or what the source was cut from. */
  lemma RangeFreeIff(db: Tree, src: Cte, base: nat, size: nat)
    requires Inv(db) && AllWellFormed(Contents(db)) && src in Contents(db) && IsObject(src.cap.typ)
    requires size > 0 && src.cap.addr <= base && base + size <= src.cap.End()
    requires forall e :: e in Contents(db) && e.cap.size == 0 ==> e.cap.addr != base && e.cap.addr != base + size
    ensures RangeFree(db, src.cap, base, size) <==>
      forall d :: d in Contents(db) && Meets(d.cap, base, size) ==>
        d.cap.addr <= base && base + size <= d.cap.addr + d.cap.size && Compare(d.cap, src.cap) <= 0
  {
    hide Compare; hide FindRange; hide Inv; hide IsCopy; hide Class; hide WellFormed;
    var s, a := Contents(db), FindRange(1, base, size, SURROUNDING, db);
    assert Sorted(s) && EndOk(db) by { InvMeans(db); }
    forall e | e in s ensures !e.cap.typ.Null? { NotNull(e.cap); }
    MemoryIsSearchable(s, base, size);
    FindRangeCorrect(1, base, size, SURROUNDING, db);
    forall d | d in s
      ensures (Class(d.cap, 1, base, size) == NOT_FOUND <==> !Meets(d.cap, base, size))
      ensures Class(d.cap, 1, base, size) == SURROUNDING <==>
        Meets(d.cap, base, size) && d.cap.addr <= base && base + size <= d.cap.End()
    {
      ClassMeans(d.cap, base, size);
    }
    assert Class(src.cap, 1, base, size) == SURROUNDING;
    if a.kind == SURROUNDING {
      InnermostIsCopy(s, src, a.found.value, base, size);
    }
  }

  lemma InvMeans(db: Tree)
    requires Inv(db)
    ensures Sorted(Contents(db)) && EndOk(db)
  {}

  lemma NotNull(c: Cap)
    requires WellFormed(c)
    ensures !c.typ.Null?
  {}

  /** The class of a capability that is not on the edge of the region. */
  lemma ClassMeans(c: Cap, base: nat, size: nat)
    requires size > 0 && !OnEdge(c, base, size)
    ensures Class(c, 1, base, size) == NOT_FOUND <==> !Meets(c, base, size)
    ensures Class(c, 1, base, size) == SURROUNDING <==>
      Meets(c, base, size) && c.addr <= base && base + size <= c.addr + c.size
    ensures Class(c, 1, base, size) == INNER <==>
      && Meets(c, base, size) && base <= c.addr && c.addr + c.size <= base + size
      && !(c.addr == base && c.size == size)
  {}

  lemma InnermostIsCopy(s: seq<Cte>, src: Cte, f: Cte, base: nat, size: nat)
    requires src in s && f in s && IsObject(src.cap.typ) && CompareTie(src, f) <= 0
    requires forall d :: d in s && Class(d.cap, 1, base, size) == SURROUNDING ==> CompareTie(d, f) <= 0
    ensures IsCopy(f.cap, src.cap) <==> Compare(f.cap, src.cap) <= 0
    ensures IsCopy(f.cap, src.cap) ==>
      forall d :: d in s && Class(d.cap, 1, base, size) == SURROUNDING ==> Compare(d.cap, src.cap) <= 0
  {
    hide Class;
    CopyIffSame(f.cap, src.cap);
    forall d | d in s && Class(d.cap, 1, base, size) == SURROUNDING && IsCopy(f.cap, src.cap)
      ensures Compare(d.cap, src.cap) <= 0
    {
      assert CompareTie(d, f) <= 0;
    }
  }

  lemma CopyIffSame(a: Cap, b: Cap)
    requires IsObject(b.typ)
    ensures IsCopy(a, b) <==> Compare(a, b) == 0
  {
    if Compare(a, b) == 0 { RankInjective(a.typ, b.typ); }
  }

  // ---------- New objects ----------

  /** `n` is cut out of the source `src` as an object of type `n.typ`. */
  predicate CutFrom(n: Cap, src: Cap) {
    WellFounded(src.typ, n.typ) && Inside(n, src) && WellFormed(n) && IsObject(n.typ)
  }

  /** Pairwise disjoint objects, cut from the given region of the source. */
  ghost predicate CutOut(cut: seq<Cte>, src: Cap, base: nat, size: nat) {
    && (forall n :: n in cut ==> CutFrom(n.cap, src) && base <= n.cap.addr && n.cap.End() <= base + size)
    && (forall m, n :: m in cut && n in cut && m != n ==> !Overlap(m.cap, n.cap))
  }

  lemma RelatedToCopyOfSource(n: Cap, d: Cap, src: Cap)
    requires CutFrom(n, src) && IsCopy(d, src) && WellFormed(d) && IsObject(src.typ)
    ensures Related(n, d)
  {
    CopyKeepsRegion(d, src);
    WellFoundedIsAncestor(src.typ, n.typ);
  }

  lemma RelatedToAncestorOfSource(n: Cap, d: Cap, src: Cap)
    requires CutFrom(n, src) && Derived(src, d)
    ensures Related(n, d)
  {
    WellFoundedIsAncestor(src.typ, n.typ);
    TypeAncestorTransitive(d.typ, src.typ, n.typ);
    TypeAncestorRank(d.typ, src.typ);
    TypeAncestorRank(src.typ, n.typ);
  }

  /** No object in the database lies below `src` and meets the region. */
  ghost predicate NothingBelow(s: seq<Cte>, src: Cap, base: nat, size: nat) {
    forall d :: d in s && IsObject(d.cap.typ) && Derived(d.cap, src) ==>
      !(d.cap.addr < base + size && base < d.cap.End())
  }

  /** Either check of caps_retype establishes that nothing is in the way. */
  lemma ChecksSuffice(db: Tree, src: Cte, base: nat, size: nat)
    requires Inv(db) && AllWellFormed(Contents(db)) && TypeRoot(src.cap.typ) == 1
    requires !HasDescendants(db, src) || RangeFree(db, src.cap, base, size)
    ensures NothingBelow(Contents(db), src.cap, base, size)
  {
    hide HasDescendants;
    hide RangeFree;
    hide Derived;
    forall e | e in Contents(db) ensures 1 <= TypeRoot(e.cap.typ) {
      assert WellFormed(e.cap);
    }
    forall d | d in Contents(db) && IsObject(d.cap.typ) && Derived(d.cap, src.cap) && d.cap.addr < base + size
      && base < d.cap.End()
      ensures false
    {
      assert d.cap.size > 0;
      DescendantDetected(db, src, d);
      DescendantInRange(db, src.cap, d, base, size);
    }
  }

  lemma NewVersusOld(s: seq<Cte>, src: Cte, n: Cap, d: Cte, base: nat, size: nat)
    requires IsForest(s) && AllWellFormed(s) && src in s && IsObject(src.cap.typ) && d in s && IsObject(d.cap.typ)
    requires CutFrom(n, src.cap) && base <= n.addr && n.End() <= base + size
    requires NothingBelow(s, src.cap, base, size)
    requires Overlap(n, d.cap)
    ensures Related(n, d.cap)
  {
    hide IsCopy;
    hide TypeAncestor;
    hide WellFounded;
    assert WellFormed(d.cap);
    assert Overlap(d.cap, src.cap);
    assert Related(d.cap, src.cap);
    if IsCopy(d.cap, src.cap) {
      RelatedToCopyOfSource(n, d.cap, src.cap);
    } else if Derived(src.cap, d.cap) {
      RelatedToAncestorOfSource(n, d.cap, src.cap);
    }
  }

  lemma RelatedSymmetric(a: Cap, b: Cap)
    requires Related(a, b)
    ensures Related(b, a)
  {}

  /** Cutting pairwise disjoint objects out of a region of the source with nothing
      of the source's progeny in it keeps the forest. */
  lemma CuttingKeepsForest(s: seq<Cte>, src: Cte, cut: seq<Cte>, s': seq<Cte>, base: nat, size: nat)
    requires IsForest(s) && AllWellFormed(s) && src in s && IsObject(src.cap.typ)
    requires NothingBelow(s, src.cap, base, size)
    requires CutOut(cut, src.cap, base, size)
    requires forall e :: e in s' <==> e in s || e in cut
    ensures IsForest(s')
  {
    hide Overlap;
    hide IsObject;
    hide CutFrom;
    hide Related;
    hide NothingBelow;
    forall a, b | a in s' && b in s' && IsObject(a.cap.typ) && IsObject(b.cap.typ) && Overlap(a.cap, b.cap)
      ensures Related(a.cap, b.cap)
    {
      if a in cut && b in cut {
        SelfCopy(a.cap, src.cap);
      } else if a in cut {
        NewVersusOld(s, src, a.cap, b, base, size);
      } else if b in cut {
        OverlapSymmetric(a.cap, b.cap);
        NewVersusOld(s, src, b.cap, a, base, size);
        RelatedSymmetric(b.cap, a.cap);
      }
    }
  }

  lemma OverlapSymmetric(a: Cap, b: Cap)
    requires Overlap(a, b)
    ensures Overlap(b, a)
  {}

  lemma SelfCopy(a: Cap, src: Cap)
    requires CutFrom(a, src)
    ensures Related(a, a)
  {}
}
