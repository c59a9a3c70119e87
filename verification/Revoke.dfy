/** The mark phase of revocation: every copy of the target but the target itself
    goes, every descendant goes or is put on the delete list. */
module Revoke {
  import opened Caps
  import opened Copies

  /** What caps_try_delete answers. `Dangling` is a success of the source too: the slot has
      been emptied, but a mapping made with it has refused to go, whose address is read
      through a pointer to the slot and so is no longer the one that the database is
      sorted by. (For a mapping on the delete list, an assertion may fail before that.) The
      model follows a run no further. */
  datatype Err = Ok | Locked | DeleteLastOwned | RetryThroughMonitor | Dangling

  /** Neither locked nor being deleted. */
  predicate Free(e: Entry) { !e.attr.locked && !e.attr.inDelete }

  predicate IsContainer(t: ObjType) { t == L1CNode || t == L2CNode || t == Dispatcher }

  /** Types whose deletion also deletes the mappings made with that very slot. */
  predicate Unmaps(t: ObjType) { t.VNode? || t == Frame || t == DevFrame }

  predicate Maps(e: Entry, slots: set<nat>) { IsMapping(e.cte.cap.typ) && e.cte.cap.target in slots }

  /** `s` without the mappings of the given slots. */
  function Live(s: seq<Entry>, gone: set<nat>): (r: seq<Entry>)
    ensures |r| <= |s|
  {
    if s == [] then [] else if Maps(s[0], gone) then Live(s[1..], gone) else [s[0]] + Live(s[1..], gone)
  }

  // ---------- Marking the descendants ----------

  /** caps_try_delete deletes the slot at the head of what is left to mark. */
  predicate Deletable(s: seq<Entry>, myCore: nat)
    requires s != []
  {
    || s[0].attr.owner != myCore
    || (|s| > 1 && IsCopy(s[1].cte.cap, s[0].cte.cap))
    || !(s[0].attr.remoteCopies || IsContainer(s[0].cte.cap.typ))
  }

  /** What is left of the entries: those kept with the deletion mark, those never
      reached, the slots put on the delete list, and the slots deleted. */
  datatype Marked = Marked(kept: seq<Entry>, tail: seq<Entry>, listed: seq<nat>, removed: set<nat>)

  function MarkedEntry(e: Entry): Entry { e.(attr := e.attr.(inDelete := true, remoteCopies := false)) }

  /** What the third walk of caps_mark_revoke makes of the entries after the target. */
  function Mark(base: Cap, s: seq<Entry>, myCore: nat): (r: Marked)
    decreases |s|
  {
    if s == [] || !IsAncestor(s[0].cte.cap, base) then Marked([], s, [], {})
    else if s[0].attr.inDelete then
      var m := Mark(base, s[1..], myCore);
      m.(kept := [s[0]] + m.kept)
    else if Deletable(s, myCore) then
      var m := Mark(base, Live(s[1..], {s[0].Slot()}), myCore);
      m.(removed := {s[0].Slot()} + m.removed)
    else
      var m := Mark(base, s[1..], myCore);
      m.(kept := [MarkedEntry(s[0])] + m.kept, listed := [s[0].Slot()] + m.listed)
  }

  /** A mapping does not refuse to go with what it maps. */
  predicate Goes(e: Entry, myCore: nat) { Free(e) && (e.attr.owner != myCore || !e.attr.remoteCopies) }

  /** No mapping of the slot refuses. */
  ghost predicate MapsGo(s: seq<Entry>, slot: nat, myCore: nat) {
    forall e :: e in s && Maps(e, {slot}) ==> Goes(e, myCore)
  }

  /** The third walk comes to no locked slot, other than those marked already, and leaves
      no mapping behind that has lost its slot. */
  ghost predicate Passes(base: Cap, s: seq<Entry>, myCore: nat)
    decreases |s|
  {
    if s == [] || !IsAncestor(s[0].cte.cap, base) then true
    else if s[0].attr.inDelete then Passes(base, s[1..], myCore)
    else if s[0].attr.locked then false
    else if Deletable(s, myCore)
      then MapsGo(s[1..], s[0].Slot(), myCore) && Passes(base, Live(s[1..], {s[0].Slot()}), myCore)
    else Passes(base, s[1..], myCore)
  }

  // ---------- Facts about Live ----------

  lemma {:induction false} LiveMembers(s: seq<Entry>, gone: set<nat>)
    ensures forall e :: e in Live(s, gone) <==> e in s && !Maps(e, gone)
  {
    if s != [] {
      LiveMembers(s[1..], gone);
      assert s == [s[0]] + s[1..];
    }
  }

  lemma {:induction false} LiveConcat(a: seq<Entry>, b: seq<Entry>, gone: set<nat>)
    ensures Live(a + b, gone) == Live(a, gone) + Live(b, gone)
  {
    if a == [] {
      assert a + b == b;
    } else {
      assert (a + b)[1..] == a[1..] + b;
      LiveConcat(a[1..], b, gone);
    }
  }

  lemma {:induction false} LiveAll(s: seq<Entry>, gone: set<nat>)
    requires forall e :: e in s ==> !Maps(e, gone)
    ensures Live(s, gone) == s
  {
    if s != [] { LiveAll(s[1..], gone); }
  }

  lemma {:induction false} LiveTwice(s: seq<Entry>, g: set<nat>, h: set<nat>)
    ensures Live(Live(s, g), h) == Live(s, g + h)
  {
    if s != [] { LiveTwice(s[1..], g, h); }
  }

  // ---------- Sane lists of entries ----------

  function Slots(s: seq<Entry>): (r: set<nat>) {
    if s == [] then {} else {s[0].Slot()} + Slots(s[1..])
  }

  lemma {:induction false} SlotsMembers(s: seq<Entry>)
    ensures forall e :: e in s ==> e.Slot() in Slots(s)
    ensures forall x :: x in Slots(s) ==> exists e :: e in s && e.Slot() == x
  {
    if s != [] {
      SlotsMembers(s[1..]);
      assert s == [s[0]] + s[1..];
    }
  }

  predicate InRegion(e: Entry, base: Cap) {
    TypeRoot(e.cte.cap.typ) == TypeRoot(base.typ) && e.cte.cap.addr < base.End()
  }

  /** The copies of `h` come first in `s`. */
  ghost predicate CopiesFirst(h: Cap, s: seq<Entry>) {
    s == [] || (CopiesFirst(h, s[1..])
      && (!IsCopy(s[0].cte.cap, h) ==> forall e :: e in s[1..] ==> !IsCopy(e.cte.cap, h)))
  }

  /** What the database order and the way mappings are made guarantee of the
      entries after the target: slots differ, a mapping comes after what it maps,
      copies follow one another, a marked entry has none, and the region of the
      target is left only once. */
  ghost predicate Sane(base: Cap, s: seq<Entry>) {
    s == [] || (
      && Sane(base, s[1..])
      && s[0].Slot() !in Slots(s[1..])
      && !Maps(s[0], Slots(s))
      && (IsMapping(s[0].cte.cap.typ) ==> forall e :: e in s ==> !Maps(e, {s[0].Slot()}))
      && CopiesFirst(s[0].cte.cap, s[1..])
      && (s[0].attr.inDelete ==> forall e :: e in s[1..] ==> !IsCopy(e.cte.cap, s[0].cte.cap))
      && (!InRegion(s[0], base) ==> forall e :: e in s[1..] ==> !InRegion(e, base)))
  }

  lemma LiveSlots(s: seq<Entry>, gone: set<nat>)
    ensures Slots(Live(s, gone)) <= Slots(s)
  {
    LiveMembers(s, gone);
    SlotsMembers(s);
    SlotsMembers(Live(s, gone));
  }

  /** A copy that follows survives the removal of mappings. */
  lemma LiveNext(s: seq<Entry>, gone: set<nat>)
    requires s != [] && IsCopy(s[0].cte.cap, s[0].cte.cap) && |s| > 1 && IsCopy(s[1].cte.cap, s[0].cte.cap)
    requires !IsMapping(s[0].cte.cap.typ)
    ensures Live(s[1..], gone) != [] && Live(s[1..], gone)[0] == s[1]
  {
    assert s[1].cte.cap.typ == s[0].cte.cap.typ;
  }

  lemma {:induction false} LiveCopiesFirst(h: Cap, s: seq<Entry>, gone: set<nat>)
    requires CopiesFirst(h, s)
    ensures CopiesFirst(h, Live(s, gone))
  {
    hide IsCopy;
    if s != [] {
      LiveCopiesFirst(h, s[1..], gone);
      LiveMembers(s[1..], gone);
      if !Maps(s[0], gone) { assert Live(s, gone)[1..] == Live(s[1..], gone); }
    }
  }

  lemma {:induction false} LiveSane(base: Cap, s: seq<Entry>, gone: set<nat>)
    requires Sane(base, s)
    ensures Sane(base, Live(s, gone))
  {
    hide IsCopy;
    hide InRegion;
    if s != [] {
      LiveSane(base, s[1..], gone);
      if !Maps(s[0], gone) {
        LiveSaneHead(base, s, gone);
      }
    }
  }

  lemma LiveSaneHead(base: Cap, s: seq<Entry>, gone: set<nat>)
    requires s != [] && Sane(base, s) && !Maps(s[0], gone) && Sane(base, Live(s[1..], gone))
    ensures Sane(base, [s[0]] + Live(s[1..], gone))
  {
    hide IsCopy;
    hide InRegion;
    var r := Live(s[1..], gone);
    var t := [s[0]] + r;
    LiveMembers(s[1..], gone);
    LiveSlots(s[1..], gone);
    assert t[1..] == r;
    assert Slots(t) <= Slots(s);
    assert forall e :: e in t ==> e in s by { assert s == [s[0]] + s[1..]; }
    LiveCopiesFirst(s[0].cte.cap, s[1..], gone);
  }

  lemma CopyRefl(a: Cap, b: Cap)
    requires IsCopy(a, b)
    ensures IsCopy(b, b)
  {}

  // ---------- What marking does ----------

  ghost predicate NoRepeats(s: seq<nat>) { forall i, j :: 0 <= i < j < |s| ==> s[i] != s[j] }

  /** How an entry can end up. */
  ghost predicate Fate(e: Entry, base: Cap, m: Marked) {
    || (e.Slot() in m.removed && IsAncestor(e.cte.cap, base) && !e.attr.inDelete)
    || Maps(e, m.removed)
    || (IsAncestor(e.cte.cap, base) && e.attr.inDelete && e in m.kept)
    || (IsAncestor(e.cte.cap, base) && !e.attr.inDelete && MarkedEntry(e) in m.kept && e.Slot() in m.listed)
    || e in m.tail
  }

  /** Every entry is deleted, or unmapped with what it maps, or kept with the
      deletion mark and then listed once if the mark is new, or untouched. */
  lemma {:induction false} MarkFates(base: Cap, s: seq<Entry>, myCore: nat)
    ensures forall e :: e in s ==> Fate(e, base, Mark(base, s, myCore))
    decreases |s|
  {
    hide IsAncestor;
    hide Deletable;
    if s != [] && IsAncestor(s[0].cte.cap, base) {
      assert s == [s[0]] + s[1..];
      if s[0].attr.inDelete || !Deletable(s, myCore) {
        MarkFates(base, s[1..], myCore);
        var n := Mark(base, s[1..], myCore);
        forall e | e in s[1..] ensures Fate(e, base, Mark(base, s, myCore)) {
          assert Fate(e, base, n);
        }
      } else {
        var r := Live(s[1..], {s[0].Slot()});
        LiveMembers(s[1..], {s[0].Slot()});
        MarkFates(base, r, myCore);
        var n := Mark(base, r, myCore);
        forall e | e in s[1..] ensures Fate(e, base, Mark(base, s, myCore)) {
          if e in r { assert Fate(e, base, n); }
        }
      }
    }
  }

  lemma {:induction false} MarkSlots(base: Cap, s: seq<Entry>, myCore: nat)
    requires Sane(base, s)
    ensures var m := Mark(base, s, myCore);
      && m.removed <= Slots(s) && Slots(m.kept) <= Slots(s) && Slots(m.tail) <= Slots(s)
      && (forall x :: x in m.listed ==> x in Slots(s))
    decreases |s|
  {
    hide IsAncestor;
    hide Deletable;
    if s != [] && IsAncestor(s[0].cte.cap, base) {
      if s[0].attr.inDelete || !Deletable(s, myCore) {
        MarkSlots(base, s[1..], myCore);
      } else {
        var g := {s[0].Slot()};
        LiveSane(base, s[1..], g);
        LiveSlots(s[1..], g);
        MarkSlots(base, Live(s[1..], g), myCore);
      }
    }
  }

  /** What is left: marks on everything kept, no trace of what was removed, no slot
      on the delete list twice, and the walk stopped at a non-descendant. */
  ghost predicate CleanOutcome(base: Cap, m: Marked) {
    && (forall k :: k in m.kept ==> k.attr.inDelete)
    && (forall k :: k in m.kept || k in m.tail ==> k.Slot() !in m.removed && !Maps(k, m.removed))
    && NoRepeats(m.listed)
    && (forall x :: x in m.listed ==> x !in m.removed)
    && (m.tail == [] || !IsAncestor(m.tail[0].cte.cap, base))
  }

  lemma {:induction false} MarkClean(base: Cap, s: seq<Entry>, myCore: nat)
    requires Sane(base, s)
    ensures CleanOutcome(base, Mark(base, s, myCore))
    decreases |s|
  {
    hide IsAncestor;
    hide Deletable;
    hide IsCopy;
    hide InRegion;
    if s != [] && IsAncestor(s[0].cte.cap, base) {
      var x := s[0].Slot();
      if s[0].attr.inDelete || !Deletable(s, myCore) {
        MarkClean(base, s[1..], myCore);
        MarkSlots(base, s[1..], myCore);
        CleanKept(base, s[0], Mark(base, s[1..], myCore), Slots(s[1..]));
        CleanKept(base, MarkedEntry(s[0]), Mark(base, s[1..], myCore), Slots(s[1..]));
      } else {
        var r := Live(s[1..], {x});
        LiveSane(base, s[1..], {x});
        LiveMembers(s[1..], {x});
        LiveSlots(s[1..], {x});
        MarkClean(base, r, myCore);
        MarkSlots(base, r, myCore);
        MarkFrom(base, r, myCore);
        CleanRemoved(base, x, Mark(base, r, myCore), r);
      }
    }
  }

  lemma CleanKept(base: Cap, h: Entry, m: Marked, slots: set<nat>)
    requires CleanOutcome(base, m) && m.removed <= slots && (forall x :: x in m.listed ==> x in slots)
    requires h.Slot() !in slots && !Maps(h, slots)
    ensures h.attr.inDelete ==> CleanOutcome(base, m.(kept := [h] + m.kept))
    ensures h.attr.inDelete ==> CleanOutcome(base, m.(kept := [h] + m.kept, listed := [h.Slot()] + m.listed))
  {
    hide IsAncestor;
  }

  ghost predicate StemFrom(kept: seq<Entry>, s: seq<Entry>) {
    forall k :: k in kept ==> exists e :: e in s && (k == e || k == MarkedEntry(e))
  }

  lemma StemFromMore(kept: seq<Entry>, s: seq<Entry>, t: seq<Entry>)
    requires StemFrom(kept, s) && forall e :: e in s ==> e in t
    ensures StemFrom(kept, t)
  {
    forall k | k in kept ensures exists e :: e in t && (k == e || k == MarkedEntry(e)) {
      var e :| e in s && (k == e || k == MarkedEntry(e));
      assert e in t;
    }
  }

  /** Kept and untouched entries stem from the list, up to the mark. */
  lemma {:induction false} MarkFrom(base: Cap, s: seq<Entry>, myCore: nat)
    ensures var m := Mark(base, s, myCore);
      StemFrom(m.kept, s) && (forall e :: e in m.tail ==> e in s)
    decreases |s|
  {
    hide IsAncestor;
    hide Deletable;
    if s != [] && IsAncestor(s[0].cte.cap, base) {
      assert s == [s[0]] + s[1..];
      if s[0].attr.inDelete || !Deletable(s, myCore) {
        MarkFrom(base, s[1..], myCore);
        StemFromMore(Mark(base, s[1..], myCore).kept, s[1..], s);
      } else {
        var r := Live(s[1..], {s[0].Slot()});
        LiveMembers(s[1..], {s[0].Slot()});
        MarkFrom(base, r, myCore);
        StemFromMore(Mark(base, r, myCore).kept, r, s);
      }
    }
  }

  lemma CleanRemoved(base: Cap, x: nat, m: Marked, r: seq<Entry>)
    requires CleanOutcome(base, m)
    requires x !in Slots(r) && forall e :: e in r ==> !Maps(e, {x})
    requires forall k :: k in m.kept ==> exists e :: e in r && (k == e || k == MarkedEntry(e))
    requires forall e :: e in m.tail ==> e in r
    requires forall y :: y in m.listed ==> y in Slots(r)
    ensures CleanOutcome(base, m.(removed := {x} + m.removed))
  {
    hide IsAncestor;
    SlotsMembers(r);
    forall k | k in m.kept || k in m.tail ensures k.Slot() != x && !Maps(k, {x}) {
      if k in m.kept {
        var e :| e in r && (k == e || k == MarkedEntry(e));
        assert e.Slot() == k.Slot();
      }
    }
  }

  // ---------- Locked slots and refusing mappings ----------

  /** An entry that the walk unmaps must not refuse; one that it comes to must not be
      locked, unless it is marked already. The walk does not come to its tail. */
  ghost predicate Harmless(e: Entry, m: Marked, myCore: nat) {
    if Maps(e, m.removed) then Goes(e, myCore) else e in m.tail || e.attr.inDelete || !e.attr.locked
  }

  lemma {:induction false} PassesIff(base: Cap, s: seq<Entry>, myCore: nat)
    requires Sane(base, s)
    ensures Passes(base, s, myCore) <==> forall e :: e in s ==> Harmless(e, Mark(base, s, myCore), myCore)
    decreases |s|
  {
    hide IsAncestor; hide Deletable; hide IsCopy; hide InRegion; hide Goes;
    if s != [] && IsAncestor(s[0].cte.cap, base) {
      assert s == [s[0]] + s[1..];
      var m := Mark(base, s, myCore);
      HeadHarmless(base, s, myCore);
      if s[0].attr.inDelete || !Deletable(s, myCore) {
        PassesIff(base, s[1..], myCore);
        var n := Mark(base, s[1..], myCore);
        assert forall e :: e in s[1..] ==> (Harmless(e, m, myCore) <==> Harmless(e, n, myCore));
      } else {
        var x := s[0].Slot();
        var r := Live(s[1..], {x});
        LiveSane(base, s[1..], {x});
        LiveMembers(s[1..], {x});
        PassesIff(base, r, myCore);
        var n := Mark(base, r, myCore);
        assert forall e :: e in r ==> (Harmless(e, m, myCore) <==> Harmless(e, n, myCore));
        assert forall e :: e in s[1..] && Maps(e, {x}) ==> (Harmless(e, m, myCore) <==> Goes(e, myCore));
      }
    }
  }

  lemma HeadHarmless(base: Cap, s: seq<Entry>, myCore: nat)
    requires Sane(base, s) && s != [] && IsAncestor(s[0].cte.cap, base)
    ensures Harmless(s[0], Mark(base, s, myCore), myCore) <==> s[0].attr.inDelete || !s[0].attr.locked
  {
    hide IsAncestor; hide Deletable; hide IsCopy; hide InRegion;
    var m := Mark(base, s, myCore);
    MarkSlots(base, s, myCore);
    var x := {s[0].Slot()};
    var r := if s[0].attr.inDelete || !Deletable(s, myCore) then s[1..] else Live(s[1..], x);
    LiveMembers(s[1..], x);
    MarkFrom(base, r, myCore);
    SlotsMembers(s[1..]);
    assert m.tail == Mark(base, r, myCore).tail;
  }

  // ---------- When marking is complete ----------

  /** The slots that marking will delete, told by each entry and its successor. */
  function Going(base: Cap, s: seq<Entry>, myCore: nat): set<nat> {
    if s == [] then {}
    else (if IsAncestor(s[0].cte.cap, base) && !s[0].attr.inDelete && Deletable(s, myCore) then {s[0].Slot()} else {})
         + Going(base, s[1..], myCore)
  }

  /** Everything in the region of the target is one retype step away from the
      target's type, or a mapping that is made with a slot that goes. */
  ghost predicate OneStepAway(base: Cap, s: seq<Entry>, myCore: nat) {
    forall e :: e in s && InRegion(e, base) ==> IsAncestor(e.cte.cap, base) || Maps(e, Going(base, s, myCore))
  }

  /** The same, and no such mapping refuses to go. */
  ghost predicate NoObstacle(base: Cap, s: seq<Entry>, myCore: nat) {
    forall e :: e in s && InRegion(e, base) ==>
      IsAncestor(e.cte.cap, base) || (Maps(e, Going(base, s, myCore)) && Goes(e, myCore))
  }

  /** The walk leaves nothing in the region of the target untouched. */
  ghost predicate Complete(base: Cap, s: seq<Entry>, myCore: nat) {
    forall e :: e in Mark(base, s, myCore).tail ==> !InRegion(e, base)
  }

  lemma {:induction false} GoingSlots(base: Cap, s: seq<Entry>, myCore: nat)
    ensures Going(base, s, myCore) <= Slots(s)
  {
    hide IsAncestor;
    hide Deletable;
    if s != [] { GoingSlots(base, s[1..], myCore); }
  }

  /** Taking mappings out of the list does not change which other slots go. */
  lemma {:induction false} GoingLive(base: Cap, s: seq<Entry>, gone: set<nat>, myCore: nat, c: Entry)
    requires Sane(base, s) && c in s && !IsMapping(c.cte.cap.typ)
    ensures c.Slot() in Going(base, Live(s, gone), myCore) <==> c.Slot() in Going(base, s, myCore)
  {
    hide IsAncestor;
    hide Deletable;
    hide IsCopy;
    hide InRegion;
    SlotsMembers(s[1..]);
    GoingSlots(base, s[1..], myCore);
    LiveSlots(s[1..], gone);
    GoingSlots(base, Live(s[1..], gone), myCore);
    if c != s[0] {
      assert c in s[1..];
      assert c.Slot() != s[0].Slot();
      GoingLive(base, s[1..], gone, myCore, c);
      if !Maps(s[0], gone) {
        assert Live(s, gone)[1..] == Live(s[1..], gone);
      }
    } else {
      assert Live(s, gone)[1..] == Live(s[1..], gone);
      DeletableLive(base, s, gone, myCore);
    }
  }

  lemma DeletableLive(base: Cap, s: seq<Entry>, gone: set<nat>, myCore: nat)
    requires Sane(base, s) && s != [] && !IsMapping(s[0].cte.cap.typ)
    ensures Deletable([s[0]] + Live(s[1..], gone), myCore) <==> Deletable(s, myCore)
  {
    hide IsCopy;
    var r := Live(s[1..], gone);
    LiveMembers(s[1..], gone);
    if |s| > 1 && IsCopy(s[1].cte.cap, s[0].cte.cap) {
      CopyRefl(s[1].cte.cap, s[0].cte.cap);
      LiveNext(s, gone);
    } else if |s| > 1 {
      FirstDecides(s[0].cte.cap, s[1..]);
    }
  }

  lemma FirstDecides(h: Cap, s: seq<Entry>)
    requires CopiesFirst(h, s) && s != [] && !IsCopy(s[0].cte.cap, h)
    ensures forall e :: e in s ==> !IsCopy(e.cte.cap, h)
  {
    hide IsCopy;
    assert s == [s[0]] + s[1..];
  }

  /** A mapping meets the slots that go in the shortened list iff it does in the full one. */
  lemma MapsGoingLive(base: Cap, s: seq<Entry>, gone: set<nat>, myCore: nat, e: Entry)
    requires Sane(base, s) && e in s && (forall c :: c in s && IsMapping(c.cte.cap.typ) ==> !Maps(e, {c.Slot()}))
    ensures Maps(e, Going(base, Live(s, gone), myCore)) <==> Maps(e, Going(base, s, myCore))
  {
    hide Going;
    hide Live;
    hide Sane;
    GoingSlots(base, s, myCore);
    GoingSlots(base, Live(s, gone), myCore);
    LiveSlots(s, gone);
    SlotsMembers(s);
    if IsMapping(e.cte.cap.typ) && e.cte.cap.target in Slots(s) {
      var c :| c in s && c.Slot() == e.cte.cap.target;
      GoingLive(base, s, gone, myCore, c);
    }
  }

  lemma {:induction false} MappingsMapOthers(base: Cap, s: seq<Entry>)
    requires Sane(base, s)
    ensures forall e, c :: e in s && c in s && IsMapping(c.cte.cap.typ) ==> !Maps(e, {c.Slot()})
  {
    hide IsCopy;
    hide InRegion;
    if s != [] {
      MappingsMapOthers(base, s[1..]);
      SlotsMembers(s);
      assert s == [s[0]] + s[1..];
      forall e, c | e in s && c in s && IsMapping(c.cte.cap.typ) ensures !Maps(e, {c.Slot()}) {
        if e == s[0] { assert c.Slot() in Slots(s); }
      }
    }
  }

  lemma {:induction false} CompleteIffOneStep(base: Cap, s: seq<Entry>, myCore: nat)
    requires Sane(base, s)
    ensures Complete(base, s, myCore) <==> OneStepAway(base, s, myCore)
    decreases |s|
  {
    hide IsAncestor;
    hide Deletable;
    hide IsCopy;
    hide InRegion;
    if s == [] {
    } else {
      assert s == [s[0]] + s[1..];
      GoingSlots(base, s, myCore);
      assert !Maps(s[0], Going(base, s, myCore));
      if !IsAncestor(s[0].cte.cap, base) {
        assert s[0] in s;
      } else if s[0].attr.inDelete || !Deletable(s, myCore) {
        CompleteIffOneStep(base, s[1..], myCore);
        assert Going(base, s, myCore) == Going(base, s[1..], myCore);
      } else {
        var g := {s[0].Slot()};
        var r := Live(s[1..], g);
        LiveSane(base, s[1..], g);
        LiveMembers(s[1..], g);
        CompleteIffOneStep(base, r, myCore);
        MappingsMapOthers(base, s[1..]);
        forall e | e in r ensures Maps(e, Going(base, r, myCore)) <==> Maps(e, Going(base, s, myCore)) {
          MapsGoingLive(base, s[1..], g, myCore, e);
        }
      }
    }
  }

  /** A walk that passes is complete exactly when nothing is in its way. */
  lemma CompleteIffNoObstacle(base: Cap, s: seq<Entry>, myCore: nat)
    requires Sane(base, s)
    ensures Passes(base, s, myCore) ==> (Complete(base, s, myCore) <==> NoObstacle(base, s, myCore))
  {
    hide IsAncestor; hide Passes; hide Mark; hide Going; hide Sane; hide InRegion; hide Goes;
    CompleteIffOneStep(base, s, myCore);
    if Passes(base, s, myCore) && Complete(base, s, myCore) {
      var m := Mark(base, s, myCore);
      PassesIff(base, s, myCore);
      MarkFates(base, s, myCore);
      forall e | e in s && InRegion(e, base) ensures IsAncestor(e.cte.cap, base) || Goes(e, myCore) {
        assert Fate(e, base, m) && Harmless(e, m, myCore);
      }
    }
  }

  // ---------- caps_try_delete and the three walks ----------

  function IsRamBacked(t: ObjType): bool {
    t == RAM || t == Frame || t == L1CNode || t == L2CNode || t == Dispatcher || t.VNode?
  }

  /** An entry in front of entry `i` covers its region. */
  predicate HasAncestors(db: seq<Entry>, i: nat)
    requires i < |db|
  {
    exists k :: 0 <= k < |db| && TypeRoot(db[k].cte.cap.typ) == TypeRoot(db[i].cte.cap.typ)
      && Compare(db[k].cte.cap, db[i].cte.cap) < 0 && Inside(db[i].cte.cap, db[k].cte.cap)
  }

  /** An entry behind entry `i` and its copies starts in its region. */
  predicate HasDescendants(db: seq<Entry>, i: nat)
    requires i < |db|
  {
    exists k :: 0 <= k < |db| && Compare(db[i].cte.cap, db[k].cte.cap) < 0 && InRegion(db[k], db[i].cte.cap)
  }

  /** Whether caps_try_delete deletes entry `i`, up to the mappings made with it; `room`
      tells whether the monitor's end point can take the message about memory that nobody
      refers to any more. */
  function Decision(db: seq<Entry>, i: nat, myCore: nat, room: bool): (r: Err)
    requires i < |db|
    ensures r != Dangling
  {
    var e := db[i];
    if e.attr.inDelete || e.attr.locked then Locked
    else if e.attr.owner != myCore || HasCopies(db, i) then Ok
    else if e.attr.remoteCopies || IsContainer(e.cte.cap.typ) then DeleteLastOwned
    else if !HasDescendants(db, i) && !HasAncestors(db, i) && IsRamBacked(e.cte.cap.typ) && !room
      then RetryThroughMonitor
    else Ok
  }

  function Cut(db: seq<Entry>, i: nat): seq<Entry>
    requires i < |db|
  {
    db[..i] + db[i + 1..]
  }

  /** caps_delete refuses the mapping at index `j`. */
  predicate Refuses(db: seq<Entry>, j: nat, myCore: nat)
    requires j < |db|
  {
    !Free(db[j]) || (db[j].attr.owner == myCore && !HasCopies(db, j) && db[j].attr.remoteCopies)
  }

  lemma RefusesIsDecision(db: seq<Entry>, j: nat, myCore: nat, room: bool)
    requires j < |db| && IsMapping(db[j].cte.cap.typ)
    ensures Refuses(db, j, myCore) <==> Decision(db, j, myCore, room) != Ok
  {
    hide HasCopies; hide HasAncestors; hide HasDescendants;
  }

  /** unmap_capability deletes the mappings of a slot, the last one first; here, those from
      index `lo` up to `hi`. None refuses when its turn comes. */
  predicate AllGo(db: seq<Entry>, lo: nat, hi: nat, slot: nat, myCore: nat)
    requires lo <= hi <= |db|
    decreases hi
  {
    if hi == lo then true
    else if !Maps(db[hi - 1], {slot}) then AllGo(db, lo, hi - 1, slot, myCore)
    else !Refuses(db, hi - 1, myCore) && AllGo(Cut(db, hi - 1), lo, hi - 1, slot, myCore)
  }

  /** The mappings made with entry `i`, which stand behind it, all go. */
  predicate Unmappable(db: seq<Entry>, i: nat, myCore: nat)
    requires i < |db|
  {
    Unmaps(db[i].cte.cap.typ) ==> AllGo(db, i + 1, |db|, db[i].Slot(), myCore)
  }

  /** The outcome of caps_try_delete. */
  function TryDelete(db: seq<Entry>, i: nat, myCore: nat, room: bool): (r: Err)
    requires i < |db|
  {
    var d := Decision(db, i, myCore, room);
    if d == Ok && !Unmappable(db, i, myCore) then Dangling else d
  }

  /** The database after cleanup_copy of entry `i`. */
  function Cleaned(db: seq<Entry>, i: nat): seq<Entry>
    requires i < |db|
  {
    db[..i] + if Unmaps(db[i].cte.cap.typ) then Live(db[i + 1..], {db[i].Slot()}) else db[i + 1..]
  }

  // ---------- Mappings and their copies ----------

  /** Copies of a mapping are made with the same slot, and share owner and remote copies. */
  ghost predicate MappingsAgree(s: seq<Entry>) {
    forall d, e :: d in s && e in s && IsMapping(d.cte.cap.typ) && IsCopy(d.cte.cap, e.cte.cap) ==>
      d.cte.cap.target == e.cte.cap.target && d.attr.owner == e.attr.owner && d.attr.remoteCopies == e.attr.remoteCopies
  }

  ghost predicate GoUpTo(db: seq<Entry>, lo: nat, hi: nat, slot: nat, myCore: nat)
    requires hi <= |db|
  {
    forall k :: lo <= k < hi && Maps(db[k], {slot}) ==> Goes(db[k], myCore)
  }

  /** Then all mappings of a slot go if and only if none of them is locked, being deleted or
      shared with other cores. */
  lemma {:induction false} AllGoIff(db: seq<Entry>, lo: nat, hi: nat, slot: nat, myCore: nat)
    requires 0 < lo <= hi <= |db| && MappingsAgree(db[lo..])
    requires forall k :: hi <= k < |db| ==> !Maps(db[k], {slot})
    requires IsMapping(db[lo - 1].cte.cap.typ) ==> forall k :: lo <= k < |db| ==> !Maps(db[k], {slot})
    ensures AllGo(db, lo, hi, slot, myCore) <==> GoUpTo(db, lo, hi, slot, myCore)
    decreases hi
  {
    hide Maps; hide IsCopy; hide AllGo;
    AllGoStep(db, lo, hi, slot, myCore);
    if lo < hi {
      var j := hi - 1;
      if !Maps(db[j], {slot}) {
        AllGoIff(db, lo, j, slot, myCore);
      } else {
        var c := Cut(db, j);
        assert forall k :: 0 <= k < |c| ==> c[k] == db[if k < j then k else k + 1];
        SubAgree(db[lo..], c[lo..]);
        AllGoIff(c, lo, j, slot, myCore);
        assert forall k :: lo <= k < j ==> c[k] == db[k];
        assert GoUpTo(c, lo, j, slot, myCore) <==> GoUpTo(db, lo, j, slot, myCore);
        if GoUpTo(db, lo, j, slot, myCore) { GroupGoes(db, lo, j, slot, myCore); }
      }
    }
  }

  lemma GoUpToEnd(db: seq<Entry>, lo: nat, slot: nat, myCore: nat)
    requires lo <= |db|
    ensures GoUpTo(db, lo, |db|, slot, myCore) <==> MapsGo(db[lo..], slot, myCore)
  {
    hide Maps; hide Goes;
    assert forall k :: lo <= k < |db| ==> db[k] == db[lo..][k - lo];
  }

  lemma AllGoStep(db: seq<Entry>, lo: nat, hi: nat, slot: nat, myCore: nat)
    requires lo <= hi <= |db|
    ensures lo == hi ==> AllGo(db, lo, hi, slot, myCore)
    ensures lo < hi ==> (AllGo(db, lo, hi, slot, myCore) <==>
      if Maps(db[hi - 1], {slot}) then !Refuses(db, hi - 1, myCore) && AllGo(Cut(db, hi - 1), lo, hi - 1, slot, myCore)
      else AllGo(db, lo, hi - 1, slot, myCore))
  {}

  lemma SubAgree(s: seq<Entry>, r: seq<Entry>)
    requires MappingsAgree(s) && forall k :: 0 <= k < |r| ==> r[k] in s
    ensures MappingsAgree(r)
  {
    hide IsCopy;
    assert forall e :: e in r ==> e in s;
  }

  /** The last of the copies of a mapping that are made with the slot refuses if it is
      shared; its copies are shared with it. */
  lemma GroupGoes(db: seq<Entry>, lo: nat, j: nat, slot: nat, myCore: nat)
    requires 0 < lo <= j < |db| && MappingsAgree(db[lo..]) && Maps(db[j], {slot})
    requires forall k :: j < k < |db| ==> !Maps(db[k], {slot})
    requires !IsMapping(db[lo - 1].cte.cap.typ)
    requires GoUpTo(db, lo, j, slot, myCore)
    ensures !Refuses(db, j, myCore) <==> Goes(db[j], myCore)
  {
    assert forall k :: lo <= k < |db| ==> db[k] in db[lo..];
    assert HasCopies(db, j) ==>
      exists k :: (k == j - 1 || k == j + 1) && 0 <= k < |db| && IsCopy(db[k].cte.cap, db[j].cte.cap);
    if k :| (k == j - 1 || k == j + 1) && 0 <= k < |db| && IsCopy(db[k].cte.cap, db[j].cte.cap) {
      assert db[k].cte.cap.typ == db[j].cte.cap.typ;
      assert k >= lo;
      assert db[k] in db[lo..] && db[j] in db[lo..];
      assert Maps(db[k], {slot});
    }
  }
}
