/** Attributes that all copies of a capability share: locking, ownership, copying
    and creating a copy from another core's description. */
module CopyAttrs {
  import opened Caps
  import opened MdbOrder
  import opened Copies

  /** Equal owner, lock and remote-relation bits; the deletion mark is per slot. */
  predicate SameShared(a: Attr, b: Attr) { a == b.(inDelete := a.inDelete) }

  ghost predicate CopiesAgree(db: seq<Entry>) {
    forall i, j :: 0 <= i < |db| && 0 <= j < |db| && IsCopy(db[i].cte.cap, db[j].cte.cap) ==>
      SameShared(db[i].attr, db[j].attr)
  }

  /** What the two system calls write into the attributes of a copy. */
  datatype Change = Lock(lock: bool) | Own(owner: nat) {
    function On(a: Attr): Attr { if Lock? then a.(locked := lock) else a.(owner := owner) }
  }

  /** The database with the change made on every copy of `cap`, and nothing else changed. */
  ghost predicate ChangedOnCopies(db: seq<Entry>, db': seq<Entry>, cap: Cap, change: Change) {
    && |db'| == |db|
    && forall j :: 0 <= j < |db| ==>
         db'[j] == if IsCopy(db[j].cte.cap, cap) then db[j].(attr := change.On(db[j].attr)) else db[j]
  }

  lemma ChangeKeepsAgreement(db: seq<Entry>, db': seq<Entry>, cap: Cap, change: Change)
    requires CopiesAgree(db) && ChangedOnCopies(db, db', cap, change)
    ensures CopiesAgree(db')
  {
    hide IsCopy;
    forall i, j | 0 <= i < |db'| && 0 <= j < |db'| && IsCopy(db'[i].cte.cap, db'[j].cte.cap)
      ensures SameShared(db'[i].attr, db'[j].attr)
    {
      assert IsCopy(db[i].cte.cap, db[j].cte.cap);
      if IsCopy(db[i].cte.cap, cap) {
        CopySymmetric(db[i].cte.cap, db[j].cte.cap);
        CopyTransitive(db[j].cte.cap, db[i].cte.cap, cap);
      } else if IsCopy(db[j].cte.cap, cap) {
        CopyTransitive(db[i].cte.cap, db[j].cte.cap, cap);
      }
    }
  }

  /** The deletion mark of a single slot is nothing that copies have to agree on. */
  lemma DeletionMarkIsPerSlot(db: seq<Entry>, i: nat, mark: bool)
    requires CopiesAgree(db) && i < |db|
    ensures CopiesAgree(db[i := db[i].(attr := db[i].attr.(inDelete := mark))])
  {
    hide IsCopy;
    var db' := db[i := db[i].(attr := db[i].attr.(inDelete := mark))];
    forall j, k | 0 <= j < |db'| && 0 <= k < |db'| && IsCopy(db'[j].cte.cap, db'[k].cte.cap)
      ensures SameShared(db'[j].attr, db'[k].attr)
    {
      assert IsCopy(db[j].cte.cap, db[k].cte.cap);
    }
  }

  /** The place of a new entry: behind everything that precedes it. */
  function Place(db: seq<Entry>, x: Cte): (k: nat)
    ensures k <= |db|
    ensures forall i :: 0 <= i < k ==> !Before(x, db[i].cte)
    ensures k < |db| ==> Before(x, db[k].cte)
  {
    if db == [] || Before(x, db[0].cte) then 0 else
      var k := Place(db[1..], x) + 1;
      assert forall i :: 0 < i < k ==> db[i] == db[1..][i - 1];
      k
  }

  function InsertEntry(db: seq<Entry>, e: Entry): seq<Entry> {
    var k := Place(db, e.cte);
    db[..k] + [e] + db[k..]
  }

  predicate CanHold(c: Cap) {
    !c.typ.Null? && (AlwaysCopy(c.typ) ==> c == Cap(c.typ, 0, 0, 0, 0, 0, c.target))
  }

  lemma PlaceSplits(db: seq<Entry>, e: Entry)
    requires Sorted(Ctes(db)) && forall d :: d in db ==> d.Slot() != e.Slot()
    ensures AllBefore(Ctes(db)[..Place(db, e.cte)], e.cte) && AllAfter(Ctes(db)[Place(db, e.cte)..], e.cte)
  {
    hide CompareTie;
    hide Place;
    var k := Place(db, e.cte);
    var s := Ctes(db);
    forall c | c in s[..k] ensures Before(c, e.cte) {
      var i :| 0 <= i < k && s[i] == c;
      assert db[i] in db;
      DifferentSlots(c, e.cte);
    }
    forall c | c in s[k..] ensures Before(e.cte, c) {
      var i :| k <= i < |s| && s[i] == c;
      if i > k { BeforeTransitive(e.cte, s[k], c); }
    }
  }

  lemma InsertKeepsOrder(db: seq<Entry>, e: Entry)
    requires Ordered(db) && CanHold(e.cte.cap) && forall d :: d in db ==> d.Slot() != e.Slot()
    ensures Ordered(InsertEntry(db, e))
  {
    hide Before;
    hide Place;
    var k := Place(db, e.cte);
    var s := Ctes(db);
    PlaceSplits(db, e);
    SortedJoin(s[..k], e.cte, s[k..]);
    assert Ctes(InsertEntry(db, e)) == s[..k] + [e.cte] + s[k..];
    InsertKeepsSlots(db, e, k);
  }

  lemma InsertKeepsSlots(db: seq<Entry>, e: Entry, k: nat)
    requires k <= |db| && UniqueSlots(db) && CopyIsEqual(db)
    requires CanHold(e.cte.cap) && forall d :: d in db ==> d.Slot() != e.Slot()
    ensures UniqueSlots(db[..k] + [e] + db[k..]) && CopyIsEqual(db[..k] + [e] + db[k..])
  {
    var db' := db[..k] + [e] + db[k..];
    forall i, j | 0 <= i < j < |db'| ensures db'[i].Slot() != db'[j].Slot() {
      if i == k { assert db'[j] == db[j - 1] && db[j - 1] in db; }
      else if j == k { assert db'[i] == db[i] && db[i] in db; }
    }
    forall d | d in db' ensures CanHold(d.cte.cap) {
      assert d in db || d == e;
    }
  }

  lemma DifferentSlots(a: Cte, b: Cte)
    requires a.slot != b.slot
    ensures Before(a, b) || Before(b, a)
  {}

  /** A new entry that agrees with the copies already there keeps agreement. */
  lemma InsertKeepsAgreement(db: seq<Entry>, e: Entry)
    requires CopiesAgree(db)
    requires forall d :: d in db && IsCopy(d.cte.cap, e.cte.cap) ==> SameShared(d.attr, e.attr)
    ensures CopiesAgree(InsertEntry(db, e))
  {
    hide IsCopy;
    hide Place;
    var db' := InsertEntry(db, e);
    forall i, j | 0 <= i < |db'| && 0 <= j < |db'| && IsCopy(db'[i].cte.cap, db'[j].cte.cap)
      ensures SameShared(db'[i].attr, db'[j].attr)
    {
      CopySymmetric(db'[i].cte.cap, db'[j].cte.cap);
      assert db'[i] == e || db'[i] in db;
      assert db'[j] == e || db'[j] in db;
    }
  }

  /** The first or the last entry of the database is a copy. */
  predicate AtAnEnd(db: seq<Entry>, cap: Cap) {
    db != [] && (IsCopy(db[0].cte.cap, cap) || IsCopy(db[|db| - 1].cte.cap, cap))
  }

  /** The slots of a core. */
  class SlotTable {
    const myCore: nat
    var db: seq<Entry>

    ghost predicate Valid()
      reads this
    {
      Ordered(db) && CopiesAgree(db)
    }

    /** The two walks of sys_lock_cap_common: outwards from the slot, over as many
        copies as follow in a row, which is all of them. */
    method LockCommon(i: nat, lock: bool) returns (inside: bool)
      requires Valid() && i < |db|
      modifies this
      ensures Valid()
      ensures ChangedOnCopies(old(db), db, old(db)[i].cte.cap, Lock(lock))
      ensures forall j :: 0 <= j < |db| && IsCopy(db[j].cte.cap, old(db)[i].cte.cap) ==>
        db[j].attr.locked == lock && db[j].attr.(locked := old(db)[j].attr.locked) == old(db)[j].attr
      ensures inside <==> !AtAnEnd(old(db), old(db)[i].cte.cap)
    {
      inside := Walk(i, Lock(lock));
    }

    /** The two walks of sys_set_cap_owner. */
    method SetCapOwner(i: nat, owner: nat) returns (inside: bool)
      requires Valid() && i < |db|
      modifies this
      ensures Valid()
      ensures ChangedOnCopies(old(db), db, old(db)[i].cte.cap, Own(owner))
      ensures forall j :: 0 <= j < |db| && IsCopy(db[j].cte.cap, old(db)[i].cte.cap) ==>
        db[j].attr.owner == owner && db[j].attr.(owner := old(db)[j].attr.owner) == old(db)[j].attr
      ensures inside <==> !AtAnEnd(old(db), old(db)[i].cte.cap)
    {
      inside := Walk(i, Own(owner));
    }

    /** Both system calls walk in the same way; `change` is what they write. A walk that gets
        to the end of the database asks whether the missing neighbour is a copy; the model
        takes the answer to be no, and reports it as not `inside`. */
    method Walk(i: nat, change: Change) returns (inside: bool)
      requires Valid() && i < |db|
      requires forall a :: change.On(change.On(a)) == change.On(a)
      modifies this
      ensures Valid()
      ensures ChangedOnCopies(old(db), db, old(db)[i].cte.cap, change)
      ensures inside <==> !AtAnEnd(old(db), old(db)[i].cte.cap)
    {
      hide IsCopy;
      hide Ordered;
      ghost var s := db;
      var cap := db[i].cte.cap;
      var pred: int := i;
      while pred >= 0 && (pred == i || IsCopy(db[pred].cte.cap, cap))
        invariant -1 <= pred <= i && |db| == |s|
        invariant forall j :: 0 <= j < |s| ==>
          db[j] == if pred < j <= i then s[j].(attr := change.On(s[j].attr)) else s[j]
        invariant forall j :: pred < j < i ==> IsCopy(s[j].cte.cap, cap)
      {
        db := db[pred := db[pred].(attr := change.On(db[pred].attr))];
        pred := pred - 1;
      }
      var succ := i;
      while succ < |db| && (succ == i || IsCopy(db[succ].cte.cap, cap))
        invariant i <= succ <= |db| == |s|
        invariant forall j :: 0 <= j < |s| ==>
          db[j] == if pred < j <= i || i <= j < succ then s[j].(attr := change.On(s[j].attr)) else s[j]
        invariant forall j :: i < j < succ ==> IsCopy(s[j].cte.cap, cap)
      {
        db := db[succ := db[succ].(attr := change.On(db[succ].attr))];
        succ := succ + 1;
      }
      inside := pred >= 0 && succ < |db|;
      WalkReachesAll(s, i, pred, succ);
      SelfIsCopy(s, i);
      ChangeKeepsAgreement(s, db, cap, change);
      SameCtes(s, db);
    }

    /** The copying path of caps_copy_to_cte: the new slot holds the capability and
        every shared attribute of its source. */
    method CopyToCte(dest: nat, src: nat) returns (ok: bool)
      requires Valid() && src < |db| && !db[src].attr.inDelete
      modifies this
      ensures Valid()
      ensures ok <==> forall e :: e in old(db) ==> e.Slot() != dest
      ensures !ok ==> db == old(db)
      ensures ok ==> db == InsertEntry(old(db), Entry(Cte(dest, old(db)[src].cte.cap), old(db)[src].attr))
    {
      hide IsCopy;
      ok := forall i :: 0 <= i < |db| ==> db[i].Slot() != dest;
      if ok {
        var e := Entry(Cte(dest, db[src].cte.cap), db[src].attr);
        assert CanHold(e.cte.cap) by { assert db[src] in db; }
        InsertKeepsOrder(db, e);
        forall d | d in db && IsCopy(d.cte.cap, e.cte.cap) ensures SameShared(d.attr, e.attr) {
          var i :| 0 <= i < |db| && db[i] == d;
        }
        InsertKeepsAgreement(db, e);
        db := InsertEntry(db, e);
      } else {
        var i :| 0 <= i < |db| && db[i].Slot() == dest;
        assert db[i] in db;
      }
    }

    /** caps_create_from_existing: one look at each neighbour of the new slot
        decides whether to take over a copy's attributes. */
    method CreateFromExisting(dest: nat, cap: Cap, owner: nat, needsLocality: bool) returns (ok: bool)
      requires Valid() && CanHold(cap)
      requires forall d :: d in db && IsCopy(d.cte.cap, cap) ==> d.attr.owner == owner && !d.attr.inDelete
      modifies this
      ensures Valid()
      ensures ok <==> forall e :: e in old(db) ==> e.Slot() != dest
      ensures !ok ==> db == old(db)
      ensures ok ==> exists a: Attr ::
        && db == InsertEntry(old(db), Entry(Cte(dest, cap), a))
        && a.owner == owner && !a.inDelete
        && (forall d :: d in old(db) && IsCopy(d.cte.cap, cap) ==> SameShared(d.attr, a))
        && ((forall d :: d in old(db) ==> !IsCopy(d.cte.cap, cap)) ==>
              a == Attr(owner, false, false, owner != myCore, owner == myCore && needsLocality, false))
    {
      hide IsCopy;
      hide Ordered;
      hide Place;
      hide Before;
      hide CanHold;
      ok := forall i :: 0 <= i < |db| ==> db[i].Slot() != dest;
      if !ok {
        var i :| 0 <= i < |db| && db[i].Slot() == dest;
        assert db[i] in db;
        return;
      }
      var k := Place(db, Cte(dest, cap));
      var blank := Attr(owner, false, false, false, false, false);
      InsertKeepsOrder(db, Entry(Cte(dest, cap), blank));
      forall d | d in db && IsCopy(d.cte.cap, cap)
        ensures (k > 0 && IsCopy(cap, db[k - 1].cte.cap)) || (k < |db| && IsCopy(cap, db[k].cte.cap))
      {
        var i :| 0 <= i < |db| && db[i] == d;
        NeighboursDecide(db, Entry(Cte(dest, cap), blank), i);
      }
      var a;
      if k > 0 && IsCopy(cap, db[k - 1].cte.cap) {
        a := db[k - 1].attr;
        Adopt(db, k - 1, cap);
      } else if k < |db| && IsCopy(cap, db[k].cte.cap) {
        a := db[k].attr;
        Adopt(db, k, cap);
      } else if owner != myCore {
        a := blank.(remoteCopies := true);
      } else {
        a := blank.(remoteAncs := needsLocality);
      }
      var e := Entry(Cte(dest, cap), a);
      InsertKeepsOrder(db, e);
      InsertKeepsAgreement(db, e);
      db := InsertEntry(db, e);
    }
  }

  lemma SelfIsCopy(s: seq<Entry>, i: nat)
    requires Ordered(s) && i < |s|
    ensures IsCopy(s[i].cte.cap, s[i].cte.cap)
  {
    assert s[i] in s;
  }

  lemma SameCtes(s: seq<Entry>, s': seq<Entry>)
    requires Ordered(s) && |s'| == |s| && forall j :: 0 <= j < |s| ==> s'[j].cte == s[j].cte
    ensures Ordered(s')
  {
    hide Before;
    assert Ctes(s') == Ctes(s);
    forall e | e in s' ensures CanHold(e.cte.cap) {
      var i :| 0 <= i < |s'| && s'[i] == e;
      assert s[i] in s;
    }
  }

  /** The outward walks reach exactly the copies. */
  lemma WalkReachesAll(s: seq<Entry>, i: nat, pred: int, succ: int)
    requires Ordered(s) && -1 <= pred < i < succ <= |s|
    requires pred >= 0 ==> !IsCopy(s[pred].cte.cap, s[i].cte.cap)
    requires succ < |s| ==> !IsCopy(s[succ].cte.cap, s[i].cte.cap)
    requires forall j :: pred < j < succ && j != i ==> IsCopy(s[j].cte.cap, s[i].cte.cap)
    ensures forall j :: 0 <= j < |s| && IsCopy(s[j].cte.cap, s[i].cte.cap) ==> pred < j < succ
  {
    hide IsCopy;
    hide Ordered;
    forall j | 0 <= j < |s| && IsCopy(s[j].cte.cap, s[i].cte.cap) ensures pred < j < succ {
      if j <= pred {
        CopiesContiguous(s, j, pred, i);
      } else if j >= succ {
        CopySymmetric(s[j].cte.cap, s[i].cte.cap);
        CopiesContiguous(s, i, succ, j);
        CopySymmetric(s[i].cte.cap, s[succ].cte.cap);
      }
    }
  }

  lemma Shifted(db: seq<Entry>, e: Entry, i: nat)
    requires i < |db|
    ensures var k, d := Place(db, e.cte), InsertEntry(db, e);
      |d| == |db| + 1 && d[k] == e && d[if i < k then i else i + 1] == db[i]
  {
    hide Place;
    hide Before;
  }

  lemma NeighboursDecide(db: seq<Entry>, e: Entry, i: nat)
    requires Ordered(InsertEntry(db, e)) && i < |db| && IsCopy(db[i].cte.cap, e.cte.cap)
    ensures var k := Place(db, e.cte);
        (k > 0 && IsCopy(e.cte.cap, db[k - 1].cte.cap)) || (k < |db| && IsCopy(e.cte.cap, db[k].cte.cap))
  {
    hide IsCopy;
    hide Ordered;
    hide Place;
    hide Before;
    var k := Place(db, e.cte);
    var db' := InsertEntry(db, e);
    hide InsertEntry;
    if i < k {
      Shifted(db, e, i);
      Shifted(db, e, k - 1);
      CopiesContiguous(db', i, k - 1, k);
      CopySymmetric(db[k - 1].cte.cap, e.cte.cap);
    } else {
      Shifted(db, e, i);
      Shifted(db, e, k);
      CopySymmetric(db[i].cte.cap, e.cte.cap);
      CopiesContiguous(db', k, k + 1, i + 1);
    }
  }

  lemma Adopt(db: seq<Entry>, n: nat, cap: Cap)
    requires CopiesAgree(db) && n < |db| && IsCopy(cap, db[n].cte.cap)
    ensures IsCopy(db[n].cte.cap, cap) && db[n] in db
    ensures forall d :: d in db && IsCopy(d.cte.cap, cap) ==> SameShared(d.attr, db[n].attr)
  {
    hide IsCopy;
    CopySymmetric(cap, db[n].cte.cap);
    forall d | d in db && IsCopy(d.cte.cap, cap) ensures SameShared(d.attr, db[n].attr) {
      var i :| 0 <= i < |db| && db[i] == d;
      CopyTransitive(d.cte.cap, cap, db[n].cte.cap);
    }
  }
}
