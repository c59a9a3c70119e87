/** What a revocation leaves behind, said about the database before and after. */
module RevokeExact {
  import opened Caps
  import opened Copies
  import opened Revoke
  import opened RevokeWalk

  /** How an entry behind the target can end up: untouched, kept with the deletion
      mark and listed if the mark is new, deleted as a descendant, or unmapped
      together with the copy or descendant that it maps, which it must not refuse. */
  ghost predicate Accounted(e: Entry, base: Cap, copies: set<nat>, m: Marked, myCore: nat) {
    || e in m.tail
    || (IsAncestor(e.cte.cap, base) && e.attr.inDelete && e in m.kept)
    || (IsAncestor(e.cte.cap, base) && !e.attr.inDelete && WithMark(e) in m.kept && e.Slot() in m.listed)
    || (IsAncestor(e.cte.cap, base) && !e.attr.inDelete && e.Slot() in m.removed)
    || (Maps(e, copies + m.removed) && Goes(e, myCore))
  }

  /** The mark phase is exact. Given the layout of the database around the target, and
      that the mark phase comes to its end, every entry behind the target is accounted for,
      and nothing of the target's region is left out if and only if everything in it is
      one retype step away from the target or a mapping that goes with its frame. In any
      case everything kept among the descendants is marked; no slot is put on the delete
      list twice, and none that was deleted; the entry the walk stopped at is no descendant
      of the target. */
  lemma RevokeIsExact(base: Cap, pre: seq<Entry>, cs: seq<Entry>, rest: seq<Entry>, revoked: nat, myCore: nat)
    requires Layout(base, pre, cs, rest)
    ensures var copies := Slots(cs) - {revoked};
      var live := Live(rest, copies);
      var m := Mark(base, live, myCore);
      && CleanOutcome(base, m)
      && (NothingLocked(revoked, cs, rest, m, myCore) ==>
            && (forall e :: e in rest ==> Accounted(e, base, copies, m, myCore))
            && (Complete(base, live, myCore) <==> NoObstacle(base, live, myCore)))
  {
    hide IsAncestor; hide CleanOutcome; hide Complete; hide NoObstacle; hide Mark; hide NothingLocked; hide Slots;
    hide Goes; hide Layout;
    var copies := Slots(cs) - {revoked};
    var live := Live(rest, copies);
    var m := Mark(base, live, myCore);
    LayoutSane(base, pre, cs, rest);
    LiveMembers(rest, copies);
    LiveSane(base, rest, copies);
    MarkClean(base, live, myCore);
    if NothingLocked(revoked, cs, rest, m, myCore) {
      LockedDecides(base, pre, cs, rest, revoked, myCore);
      CompleteIffNoObstacle(base, live, myCore);
      forall e | e in rest ensures Accounted(e, base, copies, m, myCore) {
        EntryAccounted(base, cs, rest, revoked, myCore, e);
      }
    }
  }

  lemma EntryAccounted(base: Cap, cs: seq<Entry>, rest: seq<Entry>, revoked: nat, myCore: nat, e: Entry)
    requires e in rest && NothingLocked(revoked, cs, rest, Mark(base, Live(rest, Slots(cs) - {revoked}), myCore),
      myCore)
    ensures Accounted(e, base, Slots(cs) - {revoked}, Mark(base, Live(rest, Slots(cs) - {revoked}), myCore), myCore)
  {
    hide IsAncestor; hide Mark; hide Slots; hide Goes; hide Free; hide Live;
    var copies := Slots(cs) - {revoked};
    var live := Live(rest, copies);
    var m := Mark(base, live, myCore);
    LiveMembers(rest, copies);
    MarkFates(base, live, myCore);
    if !Maps(e, copies) {
      assert e in live && Fate(e, base, m) && Harmless(e, m, myCore);
    }
  }

  lemma OneStepTypes(t: ObjType, c: ObjType)
    requires t.Frame? || t.DevFrame? || t.Dispatcher? || t.VNode?
    requires TypeAncestor(t, c)
    ensures c == t || WellFounded(t, c)
  {
    assert !TypeAncestor(t, PhysAddr);
    assert !TypeAncestor(t, RAM);
  }

  /** Revoking a frame, a page table or a dispatcher never leaves anything out:
      whatever was derived from it is one step away. */
  lemma LeafTypesAreComplete(base: Cap, s: seq<Entry>, myCore: nat)
    requires base.typ.Frame? || base.typ.DevFrame? || base.typ.Dispatcher? || base.typ.VNode?
    requires Sane(base, s)
    requires forall e :: e in s && InRegion(e, base) ==>
      && TypeAncestor(base.typ, e.cte.cap.typ)
      && (if e.cte.cap.typ == base.typ then FromSelf(base.typ) && StrictlyInside(e.cte.cap, base)
          else Inside(e.cte.cap, base))
    ensures Complete(base, s, myCore)
  {
    hide Complete;
    CompleteIffOneStep(base, s, myCore);
    forall e | e in s && InRegion(e, base) ensures IsAncestor(e.cte.cap, base) {
      OneStepTypes(base.typ, e.cte.cap.typ);
    }
  }

  // ---------- What the walk does with one descendant ----------

  /** An entry with the deletion mark: nothing but that mark and the bit for remote copies
      has changed. */
  function WithMark(e: Entry): Entry {
    Entry(e.cte, Attr(e.attr.owner, e.attr.locked, true, false, e.attr.remoteAncs, e.attr.remoteDescs))
  }

  lemma HeadDecided(base: Cap, s: seq<Entry>, myCore: nat)
    requires s != [] && Sane(base, s) && !s[0].attr.inDelete && IsAncestor(s[0].cte.cap, base)
    ensures var m, h := Mark(base, s, myCore), s[0];
      var t := h.cte.cap.typ;
      && (h.Slot() in m.removed <==>
            || h.attr.owner != myCore
            || (exists d :: d in s[1..] && IsCopy(d.cte.cap, h.cte.cap))
            || !(h.attr.remoteCopies || t == L1CNode || t == L2CNode || t == Dispatcher))
      && (h.Slot() !in m.removed ==> WithMark(h) in m.kept && multiset(m.listed)[h.Slot()] == 1)
  {
    hide IsAncestor; hide IsCopy; hide InRegion; hide Maps;
    var h, rest := s[0], s[1..];
    if rest != [] {
      assert rest[0] == s[1] && rest[0] in rest;
      assert rest == [rest[0]] + rest[1..];
    }
    if !Deletable(s, myCore) {
      var n := Mark(base, rest, myCore);
      MarkSlots(base, rest, myCore);
      assert h.Slot() !in n.listed;
      assert Mark(base, s, myCore).listed == [h.Slot()] + n.listed;
    }
  }

  /** An earlier entry that is kept decides nothing about a later one, */
  lemma EarlierKept(base: Cap, s: seq<Entry>, e: Entry, myCore: nat)
    requires s != [] && e in s[1..] && Sane(base, s) && IsAncestor(s[0].cte.cap, base)
    requires s[0].attr.inDelete || !Deletable(s, myCore)
    ensures var m, n := Mark(base, s, myCore), Mark(base, s[1..], myCore);
      && m.removed == n.removed && m.tail == n.tail && (forall k :: k in n.kept ==> k in m.kept)
      && multiset(m.listed)[e.Slot()] == multiset(n.listed)[e.Slot()]
  {
    hide IsAncestor; hide IsCopy; hide InRegion; hide Maps; hide Deletable;
    SlotsMembers(s[1..]);
  }

  /** nor does one that is deleted, if the later one is no mapping of it. */
  lemma EarlierRemoved(base: Cap, s: seq<Entry>, e: Entry, myCore: nat)
    requires s != [] && e in s[1..] && Sane(base, s) && IsAncestor(s[0].cte.cap, base)
    requires !s[0].attr.inDelete && Deletable(s, myCore) && !Maps(e, Mark(base, s, myCore).removed)
    ensures var m, n := Mark(base, s, myCore), Mark(base, Live(s[1..], {s[0].Slot()}), myCore);
      && (e.Slot() in m.removed <==> e.Slot() in n.removed)
      && m.tail == n.tail && m.kept == n.kept && m.listed == n.listed
      && !Maps(e, n.removed) && !Maps(e, {s[0].Slot()})
  {
    hide IsAncestor; hide IsCopy; hide InRegion; hide Deletable; hide Live;
    SlotsMembers(s[1..]);
  }

  lemma LaterCopiesStay(a: seq<Entry>, e: Entry, b: seq<Entry>, x: nat)
    requires !Maps(e, {x})
    requires IsMapping(e.cte.cap.typ) ==> forall d :: d in b ==> !IsCopy(d.cte.cap, e.cte.cap)
    ensures Live(a + [e] + b, {x}) == Live(a, {x}) + [e] + Live(b, {x})
    ensures (exists d :: d in b && IsCopy(d.cte.cap, e.cte.cap)) <==>
      (exists d :: d in Live(b, {x}) && IsCopy(d.cte.cap, e.cte.cap))
    ensures forall d :: d in Live(b, {x}) ==> d in b
  {
    LiveConcat(a + [e], b, {x});
    LiveConcat(a, [e], {x});
    LiveMembers(b, {x});
    assert [e][1..] == [];
    forall d | d in b && IsCopy(d.cte.cap, e.cte.cap) ensures d in Live(b, {x}) {
      assert d.cte.cap.typ == e.cte.cap.typ;
    }
  }

  /** A descendant that the walk comes to is deleted if and only if it belongs to another
      core, or a copy comes behind it, or it is neither shared with other cores nor a CNode
      or a dispatcher. Otherwise it is kept with the mark and put on the delete list once. */
  lemma {:induction false} MarkDecides(base: Cap, a: seq<Entry>, e: Entry, b: seq<Entry>, myCore: nat)
    requires Sane(base, a + [e] + b) && !e.attr.inDelete
    requires var m := Mark(base, a + [e] + b, myCore); e !in m.tail && !Maps(e, m.removed)
    requires IsMapping(e.cte.cap.typ) ==> forall d :: d in b ==> !IsCopy(d.cte.cap, e.cte.cap)
    ensures var m, t := Mark(base, a + [e] + b, myCore), e.cte.cap.typ;
      && (e.Slot() in m.removed <==>
            || e.attr.owner != myCore
            || (exists d :: d in b && IsCopy(d.cte.cap, e.cte.cap))
            || !(e.attr.remoteCopies || t == L1CNode || t == L2CNode || t == Dispatcher))
      && (e.Slot() !in m.removed ==> WithMark(e) in m.kept && multiset(m.listed)[e.Slot()] == 1)
    decreases |a|
  {
    hide IsAncestor; hide IsCopy; hide Maps; hide InRegion;
    var s := a + [e] + b;
    if a == [] {
      assert s[0] == e && s[1..] == b;
      HeadDecided(base, s, myCore);
    } else {
      var x, rest := a[0].Slot(), a[1..] + [e] + b;
      assert s[0] == a[0] && s[1..] == rest;
      assert e in s && IsAncestor(s[0].cte.cap, base) by { assert s[|a|] == e; }
      if s[0].attr.inDelete || !Deletable(s, myCore) {
        EarlierKept(base, s, e, myCore);
        MarkDecides(base, a[1..], e, b, myCore);
      } else {
        EarlierRemoved(base, s, e, myCore);
        LaterCopiesStay(a[1..], e, b, x);
        LiveSane(base, rest, {x});
        MarkDecides(base, Live(a[1..], {x}), e, Live(b, {x}), myCore);
      }
    }
  }

  // ---------- The delete list ----------

  /** No slot is on the delete list twice, and every slot on it is marked. */
  ghost predicate ListOk(db: seq<Entry>, list: seq<nat>) {
    NoRepeats(list) && forall x :: x in list ==> exists e :: e in db && Listable(e, x)
  }

  predicate Listable(e: Entry, x: nat) { e.Slot() == x && e.attr.inDelete }

  lemma {:induction false} ListedAreNew(base: Cap, s: seq<Entry>, myCore: nat, x: nat) returns (e: Entry)
    requires x in Mark(base, s, myCore).listed
    ensures e in s && e.Slot() == x && !e.attr.inDelete && WithMark(e) in Mark(base, s, myCore).kept
    decreases |s|
  {
    hide IsAncestor; hide IsCopy;
    if s[0].attr.inDelete {
      e := ListedAreNew(base, s[1..], myCore, x);
    } else if Deletable(s, myCore) {
      var g := {s[0].Slot()};
      LiveMembers(s[1..], g);
      e := ListedAreNew(base, Live(s[1..], g), myCore, x);
    } else if x == s[0].Slot() {
      e := s[0];
    } else {
      e := ListedAreNew(base, s[1..], myCore, x);
    }
  }

  lemma SameSlot(db: seq<Entry>, a: Entry, b: Entry)
    requires DbSane(db) && a in db && b in db && a.Slot() == b.Slot()
    ensures a == b
  {
    hide Ordered;
    var i :| 0 <= i < |db| && db[i] == a;
    var j :| 0 <= j < |db| && db[j] == b;
    if i < j { SlotsUnique(db, i, j); } else if j < i { SlotsUnique(db, j, i); }
  }

  lemma JoinNoRepeats(a: seq<nat>, b: seq<nat>)
    requires NoRepeats(a) && NoRepeats(b) && forall x :: x in b ==> x !in a
    ensures NoRepeats(a + b)
  {
    forall i, j | 0 <= i < j < |a + b| ensures (a + b)[i] != (a + b)[j] {
      if i < |a| <= j { assert (a + b)[j] in b; }
    }
  }

  /** A slot that was on the list keeps its entry and its mark. */
  lemma ListedStays(base: Cap, pre: seq<Entry>, cs: seq<Entry>, rest: seq<Entry>, target: Entry, myCore: nat, e: Entry)
    requires target in cs && e in pre + cs + rest && e.attr.inDelete
    requires NothingLocked(target.Slot(), cs, rest, Mark(base, Live(rest, Slots(cs) - {target.Slot()}), myCore), myCore)
    requires forall c :: c in cs && c.Slot() == target.Slot() ==> c == target
    ensures var m := Mark(base, Live(rest, Slots(cs) - {target.Slot()}), myCore); e in pre + [target] + m.kept + m.tail
  {
    hide IsAncestor; hide Slots; hide Mark;
    if e in rest {
      EntryAccounted(base, cs, rest, target.Slot(), myCore, e);
    } else if e in cs {
      assert e == target;
    }
  }

  /** Revocation keeps the delete list in order: what it adds was not on the list before,
      and nothing that is on the list is deleted meanwhile. */
  lemma DeleteListStays(db: seq<Entry>, pre: seq<Entry>, cs: seq<Entry>, rest: seq<Entry>, target: Entry,
      list: seq<nat>, myCore: nat)
    requires DbSane(db) && db == pre + cs + rest && Layout(target.cte.cap, pre, cs, rest) && target in cs
      && ListOk(db, list)
    requires NothingLocked(target.Slot(), cs, rest,
      Mark(target.cte.cap, Live(rest, Slots(cs) - {target.Slot()}), myCore), myCore)
    ensures var m := Mark(target.cte.cap, Live(rest, Slots(cs) - {target.Slot()}), myCore);
      ListOk(pre + [target] + m.kept + m.tail, list + m.listed)
  {
    hide IsAncestor; hide IsCopy; hide Slots; hide Mark; hide DbSane; hide Layout; hide Live; hide Free;
    hide NoRepeats; hide NothingLocked;
    var g := Slots(cs) - {target.Slot()};
    var live := Live(rest, g);
    var m := Mark(target.cte.cap, live, myCore);
    var db' := pre + [target] + m.kept + m.tail;
    LiveMembers(rest, g);
    assert forall e :: e in live ==> e in db;
    forall c | c in cs && c.Slot() == target.Slot() ensures c == target {
      SameSlot(db, c, target);
    }
    ListedOnce(target.cte.cap, pre, cs, rest, g, myCore);
    forall x | x in m.listed ensures x !in list && exists e :: e in db' && Listable(e, x) {
      var e := ListedAreNew(target.cte.cap, live, myCore, x);
      assert WithMark(e) in db' && Listable(WithMark(e), x);
      if x in list {
        var d :| d in db && Listable(d, x);
        SameSlot(db, d, e);
      }
    }
    JoinNoRepeats(list, m.listed);
    forall x | x in list ensures exists e :: e in db' && Listable(e, x) {
      var e :| e in db && Listable(e, x);
      ListedStays(target.cte.cap, pre, cs, rest, target, myCore, e);
    }
  }

  lemma ListedOnce(base: Cap, pre: seq<Entry>, cs: seq<Entry>, rest: seq<Entry>, g: set<nat>, myCore: nat)
    requires Layout(base, pre, cs, rest)
    ensures NoRepeats(Mark(base, Live(rest, g), myCore).listed)
  {
    hide IsAncestor; hide IsCopy; hide Mark;
    LiveSane(base, rest, g);
    MarkClean(base, Live(rest, g), myCore);
  }

  // ---------- caps_try_delete ----------

  /** What the answers of caps_try_delete mean, told by the whole database. */
  lemma TryDeleteMeans(db: seq<Entry>, i: nat, myCore: nat, room: bool)
    requires Ordered(db) && i < |db|
    ensures var e, r := db[i], TryDelete(db, i, myCore, room);
      var last := e.attr.owner == myCore && forall j :: 0 <= j < |db| && j != i ==> !IsCopy(db[j].cte.cap, e.cte.cap);
      var t := e.cte.cap.typ;
      var shared := e.attr.remoteCopies || t == L1CNode || t == L2CNode || t == Dispatcher;
      var free := !e.attr.locked && !e.attr.inDelete;
      && (r == Locked <==> !free)
      && (r == DeleteLastOwned <==> free && last && shared)
      && (r == RetryThroughMonitor <==>
            && free && last && !shared && !HasDescendants(db, i) && !HasAncestors(db, i) && !room
            && (t == RAM || t == Frame || t.VNode?))
      && (r == Ok || r == Dangling ==> last ==> !shared)
  {
    hide Ordered; hide IsCopy; hide HasCopies; hide HasAncestors; hide HasDescendants; hide Unmappable;
    HasCopiesCorrect(db, i);
  }

  /** And it leaves a mapping without its slot exactly if it deletes a frame or a page table
      one of whose mappings is locked, being deleted, or shared with other cores. */
  lemma DanglingMeans(db: seq<Entry>, i: nat, myCore: nat, room: bool)
    requires DbSane(db) && i < |db|
    ensures TryDelete(db, i, myCore, room) == Dangling <==>
      && Decision(db, i, myCore, room) == Ok
      && exists e :: e in db && Maps(e, {db[i].Slot()}) && !Goes(e, myCore)
  {
    hide Ordered; hide IsCopy; hide Decision; hide AllGo; hide Goes; hide MappingsAgree;
    var slot, lo := db[i].Slot(), i + 1;
    forall k | 0 <= k < |db| && Maps(db[k], {slot}) ensures i < k && Unmaps(db[i].cte.cap.typ) {}
    assert forall k :: lo <= k < |db| ==> db[lo..][k - lo] == db[k];
    GoUpToEnd(db, lo, slot, myCore);
    assert MapsGo(db[lo..], slot, myCore) <==> forall e :: e in db && Maps(e, {slot}) ==> Goes(e, myCore);
    if Unmaps(db[i].cte.cap.typ) {
      SubAgree(db, db[lo..]);
      AllGoIff(db, lo, |db|, slot, myCore);
    }
  }

  /** Deleting a capability of this core that is shared with other cores, or a container,
      leaves a copy of it. */
  lemma LastCopyStays(db: seq<Entry>, i: nat, myCore: nat, room: bool)
    requires Ordered(db) && i < |db| && TryDelete(db, i, myCore, room) == Ok
    requires var t := db[i].cte.cap.typ;
      db[i].attr.owner == myCore && (db[i].attr.remoteCopies || t == L1CNode || t == L2CNode || t == Dispatcher)
    ensures exists e :: e in Cleaned(db, i) && IsCopy(e.cte.cap, db[i].cte.cap)
  {
    hide Ordered; hide Compare; hide AllGo;
    var j := if i + 1 < |db| && IsCopy(db[i + 1].cte.cap, db[i].cte.cap) then i + 1 else i - 1;
    LiveMembers(db[i + 1..], {db[i].Slot()});
    if j < i {
      assert db[..i][j] == db[j];
    } else {
      assert db[i + 1..][j - i - 1] == db[j];
    }
    assert db[j] in Cleaned(db, i);
  }

  // ---------- Mappings that have lost their slot ----------

  /** The address of a mapping is read through its pointer to the slot it maps; an empty slot
      has address zero. */
  function Lost(e: Entry, slot: nat): Entry {
    if Maps(e, {slot}) then e.(cte := e.cte.(cap := e.cte.cap.(addr := 0))) else e
  }

  function Emptied(db: seq<Entry>, i: nat): (r: seq<Entry>)
    requires i < |db|
    ensures |r| == |db| - 1 && forall k :: 0 <= k < |r| ==> r[k] == Lost(Cut(db, i)[k], db[i].Slot())
  {
    seq(|db| - 1, k requires 0 <= k < |db| - 1 => Lost(Cut(db, i)[k], db[i].Slot()))
  }

  /** So a mapping that stays when its slot is emptied is out of order, behind whatever
      precedes it at a positive address. */
  lemma DanglingBreaksOrder(db: seq<Entry>, i: nat, j: nat, k: nat)
    requires i < |db| && j < k < |db| && j != i && k != i && Maps(db[k], {db[i].Slot()}) && !Maps(db[j], {db[i].Slot()})
    requires TypeRoot(db[j].cte.cap.typ) == TypeRoot(db[k].cte.cap.typ) && db[j].cte.cap.addr > 0
    ensures !Ordered(Emptied(db, i))
  {
    var r := Emptied(db, i);
    var j', k' := if j < i then j else j - 1, if k < i then k else k - 1;
    assert Cut(db, i)[j'] == db[j] && Cut(db, i)[k'] == db[k];
    assert r[j'] == db[j] && r[k'].cte.cap.addr == 0;
    var s := Ctes(r);
    assert !Before(s[j'], s[k']);
  }

  const STUCK := Attr(0, true, false, false, false, false)
  const KEPT := Entry(Cte(1, Cap(Frame, 4096, 4096, 0, 0, 0, 0)), FREE)
  const COPY := Entry(Cte(2, Cap(Frame, 4096, 4096, 0, 0, 0, 0)), FREE)
  const MAPPING := Entry(Cte(3, Cap(FrameMapping, 4096, 1, 7, 0, 0, 2)), STUCK)
  const REGION := Entry(Cte(1, Cap(RAM, 4096, 16384, 0, 0, 0, 0)), FREE)

  /** Revoking a frame whose copy has a locked mapping: neither is any copy locked nor does
      the third walk have anything to do, but deleting the copy leaves the mapping without
      its slot. */
  lemma LockedMappingOfCopy()
    ensures DbSane([KEPT, COPY, MAPPING])
    ensures TryDelete([KEPT, COPY, MAPPING], 1, 0, true) == Dangling && !Ordered(Emptied([KEPT, COPY, MAPPING], 1))
    ensures forall m :: !NothingLocked(1, [KEPT, COPY], [MAPPING], m, 0)
  {
    hide DbSane; hide Ordered; hide Compare; hide Emptied; hide TryDelete;
    SaneMapping(KEPT);
    CopyIsLast();
    var db := [KEPT, COPY, MAPPING];
    DanglingMeans(db, 1, 0, true);
    assert MAPPING in db;
    DanglingBreaksOrder(db, 1, 0, 2);
    SlotsMembers([KEPT, COPY]);
    assert COPY in [KEPT, COPY] && MAPPING in [MAPPING];
  }

  lemma CopyIsLast()
    ensures Decision([KEPT, COPY, MAPPING], 1, 0, true) == Ok
  {
    hide HasAncestors; hide HasDescendants;
  }

  /** Both databases of these examples are in order. */
  lemma SaneMapping(first: Entry)
    requires first == KEPT || first == REGION
    ensures DbSane([first, COPY, MAPPING])
  {
    hide Ordered; hide Compare; hide AlwaysCopy;
    OrderedMapping(first);
    var db := [first, COPY, MAPPING];
    assert forall e :: e in db ==> !e.attr.inDelete && (IsMapping(e.cte.cap.typ) <==> e == MAPPING);
  }

  lemma OrderedMapping(first: Entry)
    requires first == KEPT || first == REGION
    ensures Ordered([first, COPY, MAPPING])
  {
    hide Before;
    var db := [first, COPY, MAPPING];
    BeforeMapping();
    assert Ctes(db) == [first.cte, COPY.cte, MAPPING.cte];
  }

  lemma BeforeMapping()
    ensures Before(KEPT.cte, COPY.cte) && Before(KEPT.cte, MAPPING.cte) && Before(COPY.cte, MAPPING.cte)
    ensures Before(REGION.cte, COPY.cte) && Before(REGION.cte, MAPPING.cte)
  {}

  /** Revoking RAM with a frame in it that has a locked mapping: the mapping is in the way. */
  lemma LockedMappingOfDescendant()
    ensures DbSane([REGION, COPY, MAPPING])
    ensures !Passes(REGION.cte.cap, [COPY, MAPPING], 0) && !NoObstacle(REGION.cte.cap, [COPY, MAPPING], 0)
  {
    hide DbSane; hide Compare;
    SaneMapping(REGION);
    var s := [COPY, MAPPING];
    assert s[1..] == [MAPPING] && MAPPING in s && MAPPING in s[1..];
    assert InRegion(MAPPING, REGION.cte.cap);
  }

  // ---------- Where the walk stops ----------

  const FREE := Attr(0, false, false, false, false, false)
  const TARGET := Entry(Cte(1, Cap(RAM, 0, 16384, 0, 0, 0, 0)), FREE)
  const DISP := Entry(Cte(2, Cap(Dispatcher, 0, 1024, 0, 0, 0, 0)), FREE)
  const ENDP := Entry(Cte(3, Cap(EndPoint, 0, 0, 0, 0, 0, 0)), FREE)
  const FRAME := Entry(Cte(4, Cap(Frame, 4096, 4096, 0, 0, 0, 0)), FREE)

  /** A RAM capability with a dispatcher, an end point of it, and a frame further
      on: the end point is two steps from RAM, so the walk stops at it and the
      frame keeps its place unmarked although it was derived from the target. */
  lemma EndPointStopsTheWalk()
    ensures DbSane([TARGET, DISP, ENDP, FRAME])
    ensures var base, s := TARGET.cte.cap, [DISP, ENDP, FRAME];
      && Mark(base, s, 0) == Marked([MarkedEntry(DISP)], [ENDP, FRAME], [DISP.Slot()], {})
      && IsAncestor(FRAME.cte.cap, base) && InRegion(FRAME, base)
      && !Complete(base, s, 0)
  {
    hide DbSane;
    SaneExample();
    var base, s := TARGET.cte.cap, [DISP, ENDP, FRAME];
    assert s[1..] == [ENDP, FRAME];
    assert Mark(base, [ENDP, FRAME], 0) == Marked([], [ENDP, FRAME], [], {});
    assert FRAME in Mark(base, s, 0).tail;
  }

  lemma SaneExample()
    ensures DbSane([TARGET, DISP, ENDP, FRAME])
  {
    hide Ordered;
    OrderedExample();
    var db := [TARGET, DISP, ENDP, FRAME];
    assert forall e :: e in db ==> !IsMapping(e.cte.cap.typ) && !e.attr.inDelete;
  }

  lemma OrderedExample()
    ensures Ordered([TARGET, DISP, ENDP, FRAME])
  {
    hide Before;
    var db := [TARGET, DISP, ENDP, FRAME];
    var s := Ctes(db);
    BeforeExample();
    assert s == [TARGET.cte, DISP.cte, ENDP.cte, FRAME.cte];
  }

  lemma BeforeExample()
    ensures Before(TARGET.cte, DISP.cte) && Before(DISP.cte, ENDP.cte) && Before(ENDP.cte, FRAME.cte)
    ensures Before(TARGET.cte, ENDP.cte) && Before(TARGET.cte, FRAME.cte) && Before(DISP.cte, FRAME.cte)
  {}
}
