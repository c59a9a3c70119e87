/** mdb_find_range: the query that tells whether a region is free, covered,
    partly covered or contains capabilities, by one pruned walk of the tree. */
module MdbRange {
  import opened Wrappers
  import opened Caps
  import opened MdbOrder
  import opened MdbTree
  import opened MdbUpdate

  const NOT_FOUND := 0
  const SURROUNDING := 1
  const INNER := 2
  const PARTIAL := 3

  /** mdb_is_inside: within the outer region and not equal to it. */
  predicate IsInside(outerBegin: nat, outerEnd: nat, innerBegin: nat, innerEnd: nat) {
    (innerBegin >= outerBegin && innerEnd < outerEnd) || (innerBegin > outerBegin && innerEnd <= outerEnd)
  }

  /** How the region of one capability lies to the queried region. */
  function Class(c: Cap, root: nat, address: nat, size: nat): (k: nat)
    ensures k <= PARTIAL
  {
    var end := address + size;
    if TypeRoot(c.typ) != root then NOT_FOUND
    else if c.addr > address && c.addr < end && c.End() > end then PARTIAL
    else if c.End() > address && c.End() < end && c.addr < address then PARTIAL
    else if IsInside(address, end, c.addr, c.End()) then INNER
    else if c.addr <= address && c.addr < end && c.End() >= end && c.End() > address then SURROUNDING
    else NOT_FOUND
  }

  /** The outcome of a range query so far. */
  datatype Answer = Answer(kind: nat, found: Option<Cte>)

  /** mdb_choose_surrounding, mdb_choose_inner and mdb_choose_partial. */
  function Choose(kind: nat, address: nat, first: Cte, second: Cte): (r: Cte)
    ensures r == first || r == second
  {
    if kind == SURROUNDING then (if CompareTie(first, second) >= 0 then first else second)
    else if kind == INNER then (if CompareTie(first, second) <= 0 then first else second)
    else if first.cap.addr < address && second.cap.addr > address then first
    else if second.cap.addr < address && first.cap.addr > address then second
    else (if CompareTie(first, second) >= 0 then first else second)
  }

  /** mdb_sub_find_range_merge. */
  function Merge(address: nat, maxKind: nat, sofar: Answer, sub: Answer): (r: Answer) {
    if sub.kind > maxKind then sub
    else if sub.kind > sofar.kind then sub
    else if sub.kind == sofar.kind && sub.found.Some? && sofar.found.Some? then
      Answer(sub.kind, Some(Choose(sub.kind, address, sofar.found.value, sub.found.value)))
    else sofar
  }

  /** mdb_sub_find_range. A subtree is skipped when its region ends say that
      nothing reaches the query, the right subtree also when it starts too late,
      and the walk stops at the first answer above `maxKind`. */
  function FindRange(root: nat, address: nat, size: nat, maxKind: nat, t: Tree): (r: Answer) {
    if t.Nil? then Answer(NOT_FOUND, None)
    else if t.endRoot < root then Answer(NOT_FOUND, None)
    else if t.endRoot == root && t.end <= address then Answer(NOT_FOUND, None)
    else
      var k := Class(t.cte.cap, root, address, size);
      var own := if k == NOT_FOUND then Answer(NOT_FOUND, None) else Answer(k, Some(t.cte));
      if own.kind > maxKind then own
      else
        var a1 := if t.left.Node?
          then Merge(address, maxKind, own, FindRange(root, address, size, maxKind, t.left)) else own;
        if a1.kind > maxKind then a1
        else if t.right.Node? && root >= TypeRoot(t.cte.cap.typ) &&
                (address + size > t.cte.cap.addr || (address + size == t.cte.cap.addr && size == 0)) then
          Merge(address, maxKind, a1, FindRange(root, address, size, maxKind, t.right))
        else a1
  }

  // ---------- What the answer must be ----------

  /** A capability without extent on the edge of the queried region. Whether the
      walk sees it depends on the shape of the tree. */
  predicate OnEdge(c: Cap, address: nat, size: nat) {
    c.size == 0 && (c.addr == address || c.addr == address + size)
  }

  /** The answer is backed by an entry of its kind. */
  ghost predicate Backed(s: seq<Cte>, root: nat, address: nat, size: nat, a: Answer) {
    && (a.kind == NOT_FOUND <==> a.found.None?)
    && (a.found.Some? ==> a.found.value in s && Class(a.found.value.cap, root, address, size) == a.kind)
  }

  /** Of two entries of the same kind, `f` is the one to return, or they are the same: of
      those that cover the region the last one in the order, which is the innermost; of
      those inside it the first one; of those that reach across an edge the last one that
      starts in front of the region, or else the last one of all. */
  predicate Preferred(f: Cte, e: Cte, kind: nat, address: nat) {
    if kind == SURROUNDING then CompareTie(e, f) <= 0
    else if kind == INNER then CompareTie(f, e) <= 0
    else if kind == PARTIAL then
      (f.cap.addr < address <= e.cap.addr)
      || ((f.cap.addr < address <==> e.cap.addr < address) && CompareTie(e, f) <= 0)
    else true
  }

  /** No entry is of a higher kind, and none of the same kind is to be preferred. */
  ghost predicate Exhaustive(s: seq<Cte>, root: nat, address: nat, size: nat, a: Answer) {
    forall e :: e in s && !OnEdge(e.cap, address, size) ==>
      var k := Class(e.cap, root, address, size);
      k <= a.kind && (k == a.kind && a.found.Some? ==> Preferred(a.found.value, e, k, address))
  }

  ghost predicate RightAnswer(s: seq<Cte>, root: nat, address: nat, size: nat, maxKind: nat, a: Answer) {
    Backed(s, root, address, size, a) && (a.kind <= maxKind ==> Exhaustive(s, root, address, size, a))
  }

  /** The walk goes on to the right of a capability that starts before the region ends. */
  predicate StartsBefore(c: Cap, address: nat, size: nat) {
    address + size > c.addr || (address + size == c.addr && size == 0)
  }

  /** The answer has to take the capability into account. */
  predicate Matters(c: Cap, root: nat, address: nat, size: nat) {
    !OnEdge(c, address, size) && Class(c, root, address, size) != NOT_FOUND
  }

  /** No capability of a lower type root makes the walk turn back too early: the walk
      compares addresses without comparing type roots. */
  ghost predicate Searchable(s: seq<Cte>, root: nat, address: nat, size: nat) {
    forall c, e :: c in s && e in s && TypeRoot(c.cap.typ) < root && Matters(e.cap, root, address, size) ==>
      StartsBefore(c.cap, address, size)
  }

  /** Capabilities outside the tree of memory types have neither address nor extent, so
      that every query on a database of the kernel is searchable. */
  ghost predicate OnlyMemoryHasExtent(s: seq<Cte>) {
    forall e :: e in s ==> !e.cap.typ.Null? && (TypeRoot(e.cap.typ) != 1 ==> e.cap.addr == 0 && e.cap.size == 0)
  }

  lemma AlwaysSearchable(s: seq<Cte>, root: nat, address: nat, size: nat)
    requires OnlyMemoryHasExtent(s)
    ensures Searchable(s, root, address, size)
  {}

  lemma MemoryIsSearchable(s: seq<Cte>, address: nat, size: nat)
    requires forall e :: e in s ==> !e.cap.typ.Null?
    ensures Searchable(s, 1, address, size)
  {}

  // ---------- Proof ----------

  lemma PrunedByEnd(t: Tree, root: nat, address: nat, size: nat)
    requires EndOk(t) && t.Node? && (t.endRoot < root || (t.endRoot == root && t.end <= address))
    ensures Exhaustive(Contents(t), root, address, size, Answer(NOT_FOUND, None))
  {
    hide CompareTie;
    hide TypeRoot;
    EndOkMeans(t);
    forall e | e in Contents(t) && !OnEdge(e.cap, address, size)
      ensures Class(e.cap, root, address, size) == NOT_FOUND
    {
      assert NoFurther(ReachOfCte(e), ReachOf(t));
    }
  }

  lemma BeforeMeansNoLower(a: Cte, b: Cte)
    requires Before(a, b)
    ensures TypeRoot(a.cap.typ) < TypeRoot(b.cap.typ)
         || (TypeRoot(a.cap.typ) == TypeRoot(b.cap.typ) && a.cap.addr <= b.cap.addr)
  {}

  lemma PrunedRight(c: Cte, b: seq<Cte>, root: nat, address: nat, size: nat)
    requires AllAfter(b, c) && (root < TypeRoot(c.cap.typ) || !StartsBefore(c.cap, address, size))
    requires TypeRoot(c.cap.typ) < root ==> forall e :: e in b ==> !Matters(e.cap, root, address, size)
    ensures Exhaustive(b, root, address, size, Answer(NOT_FOUND, None))
  {
    hide CompareTie;
    hide TypeRoot;
    forall e | e in b && !OnEdge(e.cap, address, size)
      ensures Class(e.cap, root, address, size) == NOT_FOUND
    {
      BeforeMeansNoLower(c, e);
      assert TypeRoot(c.cap.typ) < root ==> !Matters(e.cap, root, address, size);
    }
  }

  lemma CompareTieTransitive(a: Cte, b: Cte, c: Cte)
    requires CompareTie(a, b) <= 0 && CompareTie(b, c) <= 0
    ensures CompareTie(a, c) <= 0
  {}

  lemma CompareTieMirror(a: Cte, b: Cte)
    ensures CompareTie(a, b) == -CompareTie(b, a)
  {}

  lemma PartialIsAcross(c: Cap, root: nat, address: nat, size: nat)
    requires Class(c, root, address, size) == PARTIAL
    ensures c.addr != address
  {}

  lemma PreferredTransitive(a: Cte, b: Cte, c: Cte, kind: nat, address: nat)
    requires Preferred(a, b, kind, address) && Preferred(b, c, kind, address)
    ensures Preferred(a, c, kind, address)
  {
    hide CompareTie;
    if CompareTie(c, b) <= 0 && CompareTie(b, a) <= 0 { CompareTieTransitive(c, b, a); }
    if CompareTie(a, b) <= 0 && CompareTie(b, c) <= 0 { CompareTieTransitive(a, b, c); }
  }

  /** The choice between two entries is the one to be preferred. */
  lemma ChosenIsPreferred(kind: nat, address: nat, first: Cte, second: Cte)
    requires kind == PARTIAL ==> first.cap.addr != address && second.cap.addr != address
    ensures var r := Choose(kind, address, first, second);
      Preferred(r, first, kind, address) && Preferred(r, second, kind, address)
  {
    hide CompareTie;
    CompareTieMirror(first, second);
    Reflexive(first);
    Reflexive(second);
  }

  lemma MergeRight(s1: seq<Cte>, s2: seq<Cte>, root: nat, address: nat, size: nat, maxKind: nat, a1: Answer, a2: Answer)
    requires RightAnswer(s1, root, address, size, maxKind, a1) && a1.kind <= maxKind
    requires RightAnswer(s2, root, address, size, maxKind, a2)
    ensures RightAnswer(s1 + s2, root, address, size, maxKind, Merge(address, maxKind, a1, a2))
  {
    hide Class; hide Preferred; hide Choose;
    var m := Merge(address, maxKind, a1, a2);
    if m.kind <= maxKind {
      forall e | e in s1 + s2 && !OnEdge(e.cap, address, size)
        ensures var k := Class(e.cap, root, address, size);
          k <= m.kind && (k == m.kind && m.found.Some? ==> Preferred(m.found.value, e, k, address))
      {
        if a1.kind == a2.kind == m.kind && a1.found.Some? && a2.found.Some? {
          var f1, f2 := a1.found.value, a2.found.value;
          if m.kind == PARTIAL {
            PartialIsAcross(f1.cap, root, address, size);
            PartialIsAcross(f2.cap, root, address, size);
          }
          ChosenIsPreferred(m.kind, address, f1, f2);
          if Class(e.cap, root, address, size) == m.kind {
            PreferredTransitive(m.found.value, if e in s1 then f1 else f2, e, m.kind, address);
          }
        }
      }
    }
  }

  lemma SameMembers(s1: seq<Cte>, s2: seq<Cte>, root: nat, address: nat, size: nat, maxKind: nat, a: Answer)
    requires RightAnswer(s1, root, address, size, maxKind, a)
    requires forall e :: e in s1 <==> e in s2
    ensures RightAnswer(s2, root, address, size, maxKind, a)
  {
    hide CompareTie;
    hide Class;
  }

  lemma OwnRight(c: Cte, root: nat, address: nat, size: nat, maxKind: nat)
    ensures var k := Class(c.cap, root, address, size);
      RightAnswer([c], root, address, size, maxKind,
                  if k == NOT_FOUND then Answer(NOT_FOUND, None) else Answer(k, Some(c)))
  {
    hide Class;
    Reflexive(c);
  }

  /** The range query is right on every tree: its answer is the highest kind any
      entry has (or some kind above the requested maximum as soon as there is
      one), and of the entries of that kind it returns the preferred one. Entries without
      extent on the edge of the region are the only ones it may overlook. */
  lemma {:induction false} FindRangeCorrect(root: nat, address: nat, size: nat, maxKind: nat, t: Tree)
    requires Sorted(Contents(t)) && EndOk(t) && Searchable(Contents(t), root, address, size)
    ensures RightAnswer(Contents(t), root, address, size, maxKind, FindRange(root, address, size, maxKind, t))
  {
    hide CompareTie;
    hide Class;
    hide UpdateEnd;
    hide TypeRoot;
    hide RightAnswer;
    hide Merge;
    hide Searchable;
    hide Matters;
    if t.Nil? {
      NothingRight(root, address, size, maxKind);
    } else if t.endRoot < root || (t.endRoot == root && t.end <= address) {
      PrunedByEnd(t, root, address, size);
      AsRight(Contents(t), root, address, size, maxKind);
    } else {
      var a, c, b := Contents(t.left), t.cte, Contents(t.right);
      SortedSplit(a, c, b);
      SearchableParts(a, c, b, root, address, size);
      var k := Class(c.cap, root, address, size);
      var own := if k == NOT_FOUND then Answer(NOT_FOUND, None) else Answer(k, Some(c));
      OwnRight(c, root, address, size, maxKind);
      if own.kind > maxKind {
        StopsEarly([c], Contents(t), root, address, size, maxKind, own);
      } else {
        FindRangeCorrect(root, address, size, maxKind, t.left);
        var l := FindRange(root, address, size, maxKind, t.left);
        MergeRight([c], a, root, address, size, maxKind, own, l);
        var a1 := Merge(address, maxKind, own, l);
        if t.left.Nil? { MergeNothing(address, maxKind, own); }
        if a1.kind > maxKind {
          StopsEarly([c] + a, Contents(t), root, address, size, maxKind, a1);
        } else {
          FindRangeCorrect(root, address, size, maxKind, t.right);
          var visit := t.right.Node? && root >= TypeRoot(c.cap.typ) && StartsBefore(c.cap, address, size);
          var r := if visit then FindRange(root, address, size, maxKind, t.right) else Answer(NOT_FOUND, None);
          if !visit {
            if t.right.Node? { PrunedRight(c, b, root, address, size); }
            AsRight(b, root, address, size, maxKind);
            MergeNothing(address, maxKind, a1);
          }
          MergeRight([c] + a, b, root, address, size, maxKind, a1, r);
          SameMembers([c] + a + b, Contents(t), root, address, size, maxKind, Merge(address, maxKind, a1, r));
        }
      }
    }
  }

  lemma SearchableParts(a: seq<Cte>, c: Cte, b: seq<Cte>, root: nat, address: nat, size: nat)
    requires Searchable(a + [c] + b, root, address, size)
    ensures Searchable(a, root, address, size) && Searchable(b, root, address, size)
    ensures TypeRoot(c.cap.typ) < root && !StartsBefore(c.cap, address, size) ==>
      forall e :: e in b ==> !Matters(e.cap, root, address, size)
  {
    hide TypeRoot; hide Matters; hide StartsBefore;
    var s := a + [c] + b;
    assert forall e :: e in s <==> e in a || e == c || e in b;
  }

  lemma NothingRight(root: nat, address: nat, size: nat, maxKind: nat)
    ensures RightAnswer([], root, address, size, maxKind, Answer(NOT_FOUND, None))
  {}

  lemma AsRight(s: seq<Cte>, root: nat, address: nat, size: nat, maxKind: nat)
    requires s == [] || Exhaustive(s, root, address, size, Answer(NOT_FOUND, None))
    ensures RightAnswer(s, root, address, size, maxKind, Answer(NOT_FOUND, None))
  {}

  lemma MergeNothing(address: nat, maxKind: nat, a: Answer)
    ensures Merge(address, maxKind, a, Answer(NOT_FOUND, None)) == a
  {}

  lemma StopsEarly(s1: seq<Cte>, s2: seq<Cte>, root: nat, address: nat, size: nat, maxKind: nat, a: Answer)
    requires RightAnswer(s1, root, address, size, maxKind, a) && a.kind > maxKind
    requires forall e :: e in s1 ==> e in s2
    ensures RightAnswer(s2, root, address, size, maxKind, a)
  {
    hide Class;
  }

  // ---------- Against the plain definition ----------

  /** The highest kind that any entry has, by looking at every entry. */
  ghost function BestKind(s: seq<Cte>, root: nat, address: nat, size: nat): (k: nat)
  {
    if s == [] then NOT_FOUND
    else Max(Class(s[0].cap, root, address, size), BestKind(s[1..], root, address, size))
  }

  lemma {:induction false} BestKindIsBest(s: seq<Cte>, root: nat, address: nat, size: nat)
    ensures forall e :: e in s ==> Class(e.cap, root, address, size) <= BestKind(s, root, address, size)
    ensures BestKind(s, root, address, size) != NOT_FOUND ==>
              exists e :: e in s && Class(e.cap, root, address, size) == BestKind(s, root, address, size)
  {
    hide Class;
    if s != [] {
      BestKindIsBest(s[1..], root, address, size);
      assert s == [s[0]] + s[1..];
    }
  }

  /** Without entries on the edge, the pruned walk and the scan of all entries
      agree, and the walk exceeds the requested maximum exactly when the scan does. */
  lemma FindRangeIsScan(root: nat, address: nat, size: nat, maxKind: nat, t: Tree)
    requires Inv(t) && Searchable(Contents(t), root, address, size)
    requires forall e :: e in Contents(t) ==> !OnEdge(e.cap, address, size)
    ensures var k := FindRange(root, address, size, maxKind, t).kind;
            var best := BestKind(Contents(t), root, address, size);
      (k > maxKind <==> best > maxKind) && (k <= maxKind ==> k == best)
  {
    hide Class;
    hide CompareTie;
    hide FindRange;
    FindRangeCorrect(root, address, size, maxKind, t);
    BestKindIsBest(Contents(t), root, address, size);
  }

  // ---------- Entries on the edge ----------

  const EDGE := Cte(1, Cap(EndPoint, 1024, 0, 0, 0, 0, 0))

  function Ram(i: nat): Cte { Cte(i + 1, Cap(RAM, 4096 * i, 4096, 0, 0, 0, 0)) }

  function Leaf(c: Cte): Tree { Node(c, 0, TypeRoot(c.cap.typ), c.cap.End(), Nil, Nil) }

  /** Two trees over the same end point and three regions of RAM. */
  function FirstShape(): Tree {
    Node(Ram(1), 1, 1, 16384, Leaf(EDGE), Node(Ram(2), 0, 1, 16384, Nil, Leaf(Ram(3))))
  }

  function SecondShape(): Tree {
    Node(Ram(2), 1, 1, 16384, Node(EDGE, 0, 1, 8192, Nil, Leaf(Ram(1))), Leaf(Ram(3)))
  }

  /** A tree that is put together from good trees. */
  ghost predicate Good(t: Tree, s: seq<Cte>) { Contents(t) == s && Balanced(t) && EndOk(t) }

  lemma NilFacts()
    ensures Good(Nil, [])
  {}

  lemma NodeFacts(t: Tree, a: seq<Cte>, b: seq<Cte>)
    requires t.Node? && Good(t.left, a) && Good(t.right, b) && Shape(t) && UpdateEnd(t) == t
    ensures Good(t, a + [t.cte] + b)
  {}

  lemma LeafFacts(c: Cte)
    ensures Good(Leaf(c), [c])
  {
    hide Good;
    NilFacts();
    NodeFacts(Leaf(c), [], []);
    assert [] + [c] + [] == [c];
  }

  lemma FirstIsDatabase()
    ensures Good(FirstShape(), [EDGE, Ram(1), Ram(2), Ram(3)])
  {
    hide Good; hide CompareTie;
    NilFacts();
    LeafFacts(EDGE);
    LeafFacts(Ram(3));
    var r := Node(Ram(2), 0, 1, 16384, Nil, Leaf(Ram(3)));
    NodeFacts(r, [], [Ram(3)]);
    NodeFacts(FirstShape(), [EDGE], [] + [Ram(2)] + [Ram(3)]);
    assert [EDGE] + [Ram(1)] + ([] + [Ram(2)] + [Ram(3)]) == [EDGE, Ram(1), Ram(2), Ram(3)];
  }

  lemma SecondIsDatabase()
    ensures Good(SecondShape(), [EDGE, Ram(1), Ram(2), Ram(3)])
  {
    hide Good; hide CompareTie;
    NilFacts();
    LeafFacts(Ram(1));
    LeafFacts(Ram(3));
    var l := Node(EDGE, 0, 1, 8192, Nil, Leaf(Ram(1)));
    NodeFacts(l, [], [Ram(1)]);
    NodeFacts(SecondShape(), [] + [EDGE] + [Ram(1)], [Ram(3)]);
    assert ([] + [EDGE] + [Ram(1)]) + [Ram(2)] + [Ram(3)] == [EDGE, Ram(1), Ram(2), Ram(3)];
  }

  lemma EntriesAreSorted()
    ensures var s := [EDGE, Ram(1), Ram(2), Ram(3)]; Sorted(s) && OnlyMemoryHasExtent(s)
  {}

  lemma FirstOverlooks()
    ensures FindRange(1, 1024, 1024, PARTIAL, FirstShape()).kind == NOT_FOUND
  {
    assert FindRange(1, 1024, 1024, PARTIAL, Leaf(EDGE)) == Answer(NOT_FOUND, None);
  }

  lemma SecondReports()
    ensures FindRange(1, 1024, 1024, PARTIAL, SecondShape()).kind == INNER
  {
    assert FindRange(1, 1024, 1024, PARTIAL, Leaf(Ram(1))) == Answer(NOT_FOUND, None);
    assert FindRange(1, 1024, 1024, PARTIAL, Node(EDGE, 0, 1, 8192, Nil, Leaf(Ram(1)))) == Answer(INNER, Some(EDGE));
  }

  /** An end point has no extent. Of two databases with the very same entries, which differ
      only in the shape of the tree, one overlooks the end point at the start of the
      queried region and the other reports it as lying inside. */
  lemma EdgeEntryDependsOnShape()
    ensures Inv(FirstShape()) && Inv(SecondShape()) && Contents(FirstShape()) == Contents(SecondShape())
    ensures OnlyMemoryHasExtent(Contents(FirstShape()))
    ensures FindRange(1, 1024, 1024, PARTIAL, FirstShape()).kind == NOT_FOUND
    ensures FindRange(1, 1024, 1024, PARTIAL, SecondShape()).kind == INNER
  {
    hide FirstShape; hide SecondShape; hide Balanced; hide EndOk; hide Contents; hide Sorted; hide FindRange;
    FirstIsDatabase();
    SecondIsDatabase();
    EntriesAreSorted();
    FirstOverlooks();
    SecondReports();
  }
}
