/** The mapping database as a sorted sequence of slots with their attributes:
    where the copies of a capability are, and how a slot is deleted. */
module Copies {
  import opened Caps
  import opened MdbOrder

  /** A slot in the database with the attributes that deletion looks at. */
  datatype Entry = Entry(cte: Cte, attr: Attr) {
    function Slot(): nat { cte.slot }
  }

  function Ctes(db: seq<Entry>): (s: seq<Cte>)
    ensures |s| == |db| && forall i :: 0 <= i < |s| ==> s[i] == db[i].cte
  {
    seq(|db|, i requires 0 <= i < |db| => db[i].cte)
  }

  ghost predicate UniqueSlots(db: seq<Entry>) {
    forall i, j :: 0 <= i < j < |db| ==> db[i].Slot() != db[j].Slot()
  }

  /** Copies share a place in the order: is_copy says the same as comparing equal. */
  ghost predicate CopyIsEqual(db: seq<Entry>) {
    forall e :: e in db ==>
      && !e.cte.cap.typ.Null?
      && (AlwaysCopy(e.cte.cap.typ) ==> e.cte.cap == Cap(e.cte.cap.typ, 0, 0, 0, 0, 0, e.cte.cap.target))
  }

  ghost predicate Ordered(db: seq<Entry>) { Sorted(Ctes(db)) && UniqueSlots(db) && CopyIsEqual(db) }

  lemma CopyMeansEqual(a: Entry, b: Entry, db: seq<Entry>)
    requires CopyIsEqual(db) && a in db && b in db
    ensures IsCopy(a.cte.cap, b.cte.cap) <==> Compare(a.cte.cap, b.cte.cap) == 0
  {
    if Compare(a.cte.cap, b.cte.cap) == 0 {
      RankInjective(a.cte.cap.typ, b.cte.cap.typ);
    }
  }

  /** Whatever stands between two copies is a copy too. */
  lemma CopiesContiguous(db: seq<Entry>, i: nat, j: nat, k: nat)
    requires Ordered(db) && i <= j <= k < |db| && IsCopy(db[i].cte.cap, db[k].cte.cap)
    ensures IsCopy(db[i].cte.cap, db[j].cte.cap) && IsCopy(db[j].cte.cap, db[k].cte.cap)
  {
    CopyMeansEqual(db[i], db[k], db);
    CopyMeansEqual(db[i], db[j], db);
    CopyMeansEqual(db[j], db[k], db);
    if i < j < k {
      var s := Ctes(db);
      assert Before(s[i], s[j]) && Before(s[j], s[k]);
    }
  }

  lemma CopySymmetric(a: Cap, b: Cap)
    requires IsCopy(a, b)
    ensures IsCopy(b, a) && !a.typ.Null?
  {}

  lemma CopyTransitive(a: Cap, b: Cap, c: Cap)
    requires IsCopy(a, b) && IsCopy(b, c)
    ensures IsCopy(a, c)
  {}

  /** has_copies: looks at the two neighbours only. */
  predicate HasCopies(db: seq<Entry>, i: nat)
    requires i < |db|
  {
    (i + 1 < |db| && IsCopy(db[i + 1].cte.cap, db[i].cte.cap)) || (i > 0 && IsCopy(db[i - 1].cte.cap, db[i].cte.cap))
  }

  /** Looking at the neighbours finds a copy if and only if there is one anywhere. */
  lemma HasCopiesCorrect(db: seq<Entry>, i: nat)
    requires Ordered(db) && i < |db|
    ensures HasCopies(db, i) <==> exists j :: 0 <= j < |db| && j != i && IsCopy(db[j].cte.cap, db[i].cte.cap)
  {
    hide IsCopy;
    hide Ordered;
    forall j | 0 <= j < |db| && j != i && IsCopy(db[j].cte.cap, db[i].cte.cap) ensures HasCopies(db, i) {
      if j < i {
        CopiesContiguous(db, j, i - 1, i);
      } else {
        CopySymmetric(db[j].cte.cap, db[i].cte.cap);
        CopiesContiguous(db, i, i + 1, j);
        CopySymmetric(db[i].cte.cap, db[i + 1].cte.cap);
      }
    }
  }
}
