/** caps_mark_revoke as it runs: three walks over the database that delete the
    entries they walk over. A slot pointer is the index of its entry. */
module RevokeWalk {
  import opened Caps
  import opened Copies
  import opened Revoke

  /** Where the target's copies stand: `pre`, then the copies, then the `rest`. */
  ghost predicate Layout(base: Cap, pre: seq<Entry>, cs: seq<Entry>, rest: seq<Entry>) {
    && (forall e :: e in cs ==> IsCopy(e.cte.cap, base) && IsCopy(base, e.cte.cap))
    && (forall e :: e in pre + rest ==> !IsCopy(e.cte.cap, base) && !IsCopy(base, e.cte.cap))
    && (forall e :: e in pre + cs ==> !Maps(e, Slots(cs + rest)))
    && (forall e, d :: e in rest && d in cs + rest && Maps(e, {d.Slot()}) ==> Unmaps(d.cte.cap.typ))
    && Sane(base, rest)
    && Slots(cs) !! Slots(rest)
    && MappingsAgree(cs + rest)
  }

  /** A copy of the target can be deleted together with its mappings. */
  ghost predicate Departs(e: Entry, rest: seq<Entry>, myCore: nat) { Free(e) && MapsGo(rest, e.Slot(), myCore) }

  /** The copies in some slots can. */
  ghost predicate DepartAmong(cs: seq<Entry>, rest: seq<Entry>, slots: set<nat>, myCore: nat) {
    forall e :: e in cs && e.Slot() in slots ==> Departs(e, rest, myCore)
  }

  /** The copies of the target other than itself can be deleted with their mappings. Of the
      other entries behind it, those that the third walk unmaps do not refuse to go, and
      none that it comes to is locked, unless it is marked already. */
  ghost predicate NothingLocked(revoked: nat, cs: seq<Entry>, rest: seq<Entry>, m: Marked, myCore: nat) {
    && (forall e :: e in cs && e.Slot() != revoked ==> Free(e))
    && (forall e :: e in rest && Maps(e, Slots(cs) - {revoked}) ==> Goes(e, myCore))
    && (forall e :: e in rest && !Maps(e, Slots(cs) - {revoked}) ==> Harmless(e, m, myCore))
  }

  /** What holds of the whole database: it is sorted with one entry a slot, a
      mapping stands behind the page table or frame it maps, copies of a mapping are alike,
      and a slot marked for deletion has no copies. */
  ghost predicate DbSane(db: seq<Entry>) {
    && Ordered(db)
    && (forall i, m :: 0 <= i < |db| && 0 <= m < |db| && Maps(db[m], {db[i].Slot()}) ==>
      i < m && Unmaps(db[i].cte.cap.typ))
    && (forall i, j :: 0 <= i < |db| && 0 <= j < |db| && i != j && db[i].attr.inDelete ==>
      !IsCopy(db[j].cte.cap, db[i].cte.cap))
    && MappingsAgree(db)
  }

  class Revoker {
    const myCore: nat
    var db: seq<Entry>
    var deleteList: seq<nat>

    /** unmap_capability: deletes the mappings made with entry `i`, which stand behind it,
        the last one first; one that refuses stays. */
    method UnmapCapability(i: nat) returns (all: bool)
      requires i < |db|
      modifies this`db
      ensures all <==> AllGo(old(db), i + 1, |old(db)|, old(db)[i].Slot(), myCore)
      ensures i < |db| && db[..i + 1] == old(db)[..i + 1]
      ensures all ==> db == old(db)[..i + 1] + Live(old(db)[i + 1..], {old(db)[i].Slot()})
    {
      hide AllGo; hide Refuses; hide Maps; hide Cut; hide Live;
      ghost var was := db;
      var slot, j := db[i].Slot(), |db|;
      all := true;
      LiveEmpty({slot});
      assert was == was[..j] + [] && was[j..] == [];
      while j > i + 1
        invariant i < j <= |db| && j <= |was| && db[..j] == was[..j]
        invariant all ==> db == was[..j] + Live(was[j..], {slot})
        invariant if all then AllGo(db, i + 1, j, slot, myCore) == AllGo(was, i + 1, |was|, slot, myCore)
                  else !AllGo(was, i + 1, |was|, slot, myCore)
      {
        AllGoStep(db, i + 1, j, slot, myCore);
        LiveStep(was, j - 1, {slot});
        j := j - 1;
        assert db[j] == was[..j + 1][j];
        if Maps(db[j], {slot}) {
          if Refuses(db, j, myCore) {
            all := false;
          } else {
            CutBehind(db, j, was, {slot});
            db := Cut(db, j);
          }
        }
        assert db[..j] == was[..j];
      }
      AllGoStep(db, i + 1, j, slot, myCore);
    }

    /** caps_try_delete. */
    method CapsTryDelete(i: nat, room: bool) returns (err: Err)
      requires i < |db|
      modifies this`db
      ensures err == TryDelete(old(db), i, myCore, room)
      ensures err == Ok ==> db == Cleaned(old(db), i)
      ensures err != Ok && err != Dangling ==> db == old(db)
    {
      hide AllGo; hide Live; hide Decision;
      err := Decision(db, i, myCore, room);
      if err == Ok {
        // cleanup_copy: unmap_capability, then mdb_remove and zeroing the slot
        var all := true;
        if Unmaps(db[i].cte.cap.typ) {
          all := UnmapCapability(i);
        }
        ghost var d := db;
        db := Cut(db, i);
        assert d[..i] == d[..i + 1][..i];
        if !all { err := Dangling; }
      }
    }

    /** caps_mark_revoke_generic. False is the panic on an unexpected error, or a mapping
        that has lost its slot. */
    method MarkRevokeGeneric(i: nat, room: bool) returns (ok: bool)
      requires i < |db|
      modifies this`db, this`deleteList
      ensures var err := TryDelete(old(db), i, myCore, room);
        var e := old(db)[i];
        if e.attr.inDelete then ok && db == old(db) && deleteList == old(deleteList)
        else if err == Ok then ok && db == Cleaned(old(db), i) && deleteList == old(deleteList)
        else if err == Locked || err == Dangling then !ok && deleteList == old(deleteList)
        else ok && db == old(db)[i := MarkedEntry(e)] && deleteList == old(deleteList) + [e.Slot()]
    {
      hide TryDelete; hide Cleaned;
      if db[i].attr.inDelete { return true; }
      var err := CapsTryDelete(i, room);
      if err == DeleteLastOwned || err == RetryThroughMonitor {
        db := db[i := MarkedEntry(db[i])];
        deleteList := deleteList + [db[i].Slot()];
      }
      ok := err != Locked && err != Dangling;
    }

    /** The backward walk: deletes the copies in front of `p0`; when it comes upon
        the target, the target becomes the one to keep and the old one goes. The slots
        `g` are those it tried to delete; false is the panic on one that is locked, or a
        mapping that has lost its slot. */
    method WalkBack(base: Cap, revoked: nat, p0: nat, room: bool, ghost pre: seq<Entry>, ghost cs: seq<Entry>,
        ghost rest: seq<Entry>)
        returns (ok: bool, p: nat, ghost x: Entry, ghost g: set<nat>)
      requires Layout(base, pre, cs, rest) && Distinct(cs)
      requires db == pre + cs + rest && |pre| <= p0 < |pre| + |cs| && revoked in Slots(cs)
      modifies this`db
      ensures revoked !in g && (ok <==> DepartAmong(cs, rest, g, myCore))
      ensures ok ==> var b := p0 - |pre| + 1;
        && p == |pre| && x in cs && db == pre + [x] + cs[b..] + Live(rest, g)
        && g + {x.Slot()} == Slots(cs[..b]) && x.Slot() !in g
    {
      hide IsCopy; hide Layout; hide Live; hide Slots; hide TryDelete; hide Cleaned; hide Distinct; hide DepartAmong;
      ghost var a := p0 - |pre|;
      ghost var b := a + 1;
      p, x, g := p0, cs[a], {};
      ok := true;
      StartBack(base, pre, cs, rest, a);
      DepartAmongNone(cs, rest, myCore);
      while ok && p > 0 && IsCopy(base, db[p - 1].cte.cap)
        invariant 0 <= a < b <= |cs| && p == |pre| + a && x in cs && revoked !in g
          && (ok <==> DepartAmong(cs, rest, g, myCore))
        invariant ok ==> db == pre + cs[..a] + [x] + cs[b..] + Live(rest, g)
        invariant ok ==> g + {x.Slot()} == Slots(cs[a..b]) && x.Slot() !in g
        decreases p
      {
        CopyPrecedes(base, pre, cs, rest, a, x, b, g, db);
        ok, x, g := StepBack(base, revoked, p, room, pre, cs, rest, a, b, x, g);
        p := p - 1;
        a := a - 1;
      }
      if ok {
        CopyPrecedes(base, pre, cs, rest, a, x, b, g, db);
        assert cs[..a] == [];
        assert cs[a..b] == cs[..b];
      }
    }

    /** One step of the backward walk, over the copy in front of `p`. */
    method StepBack(base: Cap, revoked: nat, p: nat, room: bool, ghost pre: seq<Entry>, ghost cs: seq<Entry>,
        ghost rest: seq<Entry>,
                    ghost a: nat, ghost b: nat, ghost x0: Entry, ghost g0: set<nat>)
        returns (ok: bool, ghost x: Entry, ghost g: set<nat>)
      requires Layout(base, pre, cs, rest) && Distinct(cs) && DepartAmong(cs, rest, g0, myCore)
      requires 0 < a < b <= |cs| && p == |pre| + a && x0 in cs
      requires db == pre + cs[..a] + [x0] + cs[b..] + Live(rest, g0)
      requires g0 + {x0.Slot()} == Slots(cs[a..b]) && x0.Slot() !in g0 && revoked !in g0
      modifies this`db
      ensures x in cs && revoked !in g && (ok <==> DepartAmong(cs, rest, g, myCore))
      ensures ok ==> db == pre + cs[..a - 1] + [x] + cs[b..] + Live(rest, g)
      ensures ok ==> g + {x.Slot()} == Slots(cs[a - 1..b]) && x.Slot() !in g
    {
      hide IsCopy; hide Layout; hide Live; hide Slots; hide TryDelete; hide Cleaned; hide Distinct; hide DepartAmong;
      hide Free; hide MapsGo;
      ghost var c := cs[a - 1];
      assert cs[..a] == cs[..a - 1] + [c];
      assert db[p - 1] == c;
      SlotsFront(cs, a - 1, b);
      DistinctPair(cs, a - 1, b);
      if db[p - 1].Slot() == revoked {
        // keep the target, delete the old `prev`
        assert db == pre + cs[..a - 1] + [c] + [x0] + cs[b..] + Live(rest, g0);
        CopyOutcome(base, pre, cs, rest, pre + cs[..a - 1] + [c], x0, cs[b..], g0, db, room, myCore);
        DepartAmongMore(cs, rest, g0, x0, myCore);
        var err := CapsTryDelete(p, room);
        g, x, ok := g0 + {x0.Slot()}, c, err == Ok;
      } else {
        assert db == pre + cs[..a - 1] + [c] + ([x0] + cs[b..]) + Live(rest, g0);
        CopyOutcome(base, pre, cs, rest, pre + cs[..a - 1], c, [x0] + cs[b..], g0, db, room, myCore);
        DepartAmongMore(cs, rest, g0, c, myCore);
        var err := CapsTryDelete(p - 1, room);
        g, x, ok := g0 + {c.Slot()}, x0, err == Ok;
      }
    }

    /** The forward walk: deletes the copies behind the one to keep, which ends up
        being the target. */
    method WalkForward(base: Cap, revoked: nat, p: nat, room: bool, ghost pre: seq<Entry>, ghost cs: seq<Entry>,
        ghost rest: seq<Entry>,
                       ghost x0: Entry, ghost b0: nat, ghost g0: set<nat>)
        returns (ok: bool, ghost x: Entry, ghost g: set<nat>)
      requires Layout(base, pre, cs, rest) && Distinct(cs) && revoked in Slots(cs) && DepartAmong(cs, rest, g0, myCore)
      requires p == |pre| && x0 in cs && b0 <= |cs| && db == pre + [x0] + cs[b0..] + Live(rest, g0)
      requires g0 + {x0.Slot()} == Slots(cs[..b0]) && x0.Slot() !in g0 && revoked !in g0
      modifies this`db
      ensures revoked !in g && (ok <==> DepartAmong(cs, rest, g, myCore))
      ensures ok ==> x in cs && x.Slot() == revoked && db == pre + [x] + Live(rest, g) && g == Slots(cs) - {revoked}
    {
      hide IsCopy; hide Layout; hide Live; hide Slots; hide TryDelete; hide Cleaned; hide Distinct; hide DepartAmong;
      ghost var b := b0;
      x, g := x0, g0;
      ok := true;
      while ok && p + 1 < |db| && IsCopy(base, db[p + 1].cte.cap)
        invariant b0 <= b <= |cs| && x in cs && revoked !in g && (ok <==> DepartAmong(cs, rest, g, myCore))
        invariant ok ==> db == pre + [x] + cs[b..] + Live(rest, g)
        invariant ok ==> g + {x.Slot()} == Slots(cs[..b]) && x.Slot() !in g
        decreases |cs| - b
      {
        CopyFollows(base, pre, cs, rest, x, b, g, db);
        ok, x, g := StepForward(base, revoked, p, room, pre, cs, rest, b, x, g);
        b := b + 1;
      }
      if ok {
        CopyFollows(base, pre, cs, rest, x, b, g, db);
        assert cs[..b] == cs && cs[b..] == [];
      }
    }

    /** One step of the forward walk, over the copy behind `p`. */
    method StepForward(base: Cap, revoked: nat, p: nat, room: bool, ghost pre: seq<Entry>, ghost cs: seq<Entry>,
        ghost rest: seq<Entry>,
                       ghost b: nat, ghost x0: Entry, ghost g0: set<nat>)
        returns (ok: bool, ghost x: Entry, ghost g: set<nat>)
      requires Layout(base, pre, cs, rest) && Distinct(cs) && DepartAmong(cs, rest, g0, myCore)
      requires b < |cs| && p == |pre| && x0 in cs && db == pre + [x0] + cs[b..] + Live(rest, g0)
      requires g0 + {x0.Slot()} == Slots(cs[..b]) && x0.Slot() !in g0 && revoked !in g0
      modifies this`db
      ensures x in cs && revoked !in g && (ok <==> DepartAmong(cs, rest, g, myCore))
      ensures ok ==> db == pre + [x] + cs[b + 1..] + Live(rest, g)
      ensures ok ==> g + {x.Slot()} == Slots(cs[..b + 1]) && x.Slot() !in g
    {
      hide IsCopy; hide Layout; hide Live; hide Slots; hide TryDelete; hide Cleaned; hide Distinct; hide DepartAmong;
      hide Free; hide MapsGo;
      ghost var c := cs[b];
      assert db[p + 1] == c && cs[b..] == [c] + cs[b + 1..];
      SlotsBack(cs, b);
      if db[p + 1].Slot() == revoked {
        CopyOutcome(base, pre, cs, rest, pre, x0, cs[b..], g0, db, room, myCore);
        DepartAmongMore(cs, rest, g0, x0, myCore);
        var err := CapsTryDelete(p, room);
        g, x, ok := g0 + {x0.Slot()}, c, err == Ok;
        assert ok ==> db == pre + [c] + cs[b + 1..] + Live(rest, g);
      } else {
        assert db == pre + [x0] + [c] + cs[b + 1..] + Live(rest, g0);
        CopyOutcome(base, pre, cs, rest, pre + [x0], c, cs[b + 1..], g0, db, room, myCore);
        DepartAmongMore(cs, rest, g0, c, myCore);
        var err := CapsTryDelete(p + 1, room);
        g, x, ok := g0 + {c.Slot()}, x0, err == Ok;
      }
    }

    /** The walk over the descendants, behind the target at index `p0`. */
    method WalkDescendants(base: Cap, p0: nat, room: bool, ghost pre: seq<Entry>, ghost t: Entry, ghost s: seq<Entry>)
        returns (ok: bool, p: nat)
      requires p0 == |pre| && db == pre + [t] + s && Walking(base, pre, t, [], s) && t.cte.cap == base
      modifies this`db, this`deleteList
      ensures ok <==> Passes(base, s, myCore)
      ensures ok ==> p < |db| && (p == p0 || db[p].attr.inDelete)
      ensures ok ==> var m := Mark(base, s, myCore);
        db == pre + [t] + m.kept + m.tail && deleteList == old(deleteList) + m.listed
    {
      hide IsAncestor; hide Walking; hide Deletable; hide Live; hide TryDelete; hide Cleaned; hide Mark; hide Passes;
      p := p0;
      ghost var kept, listed, cur := [], [], s;
      ok := true;
      while ok && p + 1 < |db| && IsAncestor(db[p + 1].cte.cap, base)
        invariant if ok then Passes(base, s, myCore) == Passes(base, cur, myCore) else !Passes(base, s, myCore)
        invariant ok ==>
          p == |pre| + |kept| && db == pre + [t] + kept + cur && Walking(base, pre, t, kept, cur) && LastMarked(kept)
        invariant ok ==>
          Extends(Mark(base, s, myCore), kept, listed, Mark(base, cur, myCore))
            && deleteList == old(deleteList) + listed
        decreases ok, |cur|
      {
        assert db[p + 1] == cur[0];
        ghost var k, l, cur';
        ok, p, k, l, cur' := StepDescendants(base, p, room, pre, t, kept, cur);
        if ok {
          ExtendsMore(Mark(base, s, myCore), kept, listed, Mark(base, cur, myCore), k, l, Mark(base, cur', myCore));
          kept, listed, cur := kept + k, listed + l, cur';
        }
      }
      MarkUnfold(base, cur, myCore);
      PassesUnfold(base, cur, myCore);
    }

    /** One step of the third walk, over the descendant behind `p0`; `k` and `l` are what it
        keeps and lists. */
    method StepDescendants(base: Cap, p0: nat, room: bool, ghost pre: seq<Entry>, ghost t: Entry,
        ghost kept: seq<Entry>, ghost cur0: seq<Entry>)
        returns (ok: bool, p: nat, ghost k: seq<Entry>, ghost l: seq<nat>, ghost cur: seq<Entry>)
      requires p0 == |pre| + |kept| && db == pre + [t] + kept + cur0 && t.cte.cap == base
      requires Walking(base, pre, t, kept, cur0) && LastMarked(kept) && cur0 != [] && IsAncestor(cur0[0].cte.cap, base)
      modifies this`db, this`deleteList
      ensures if ok then Passes(base, cur0, myCore) == Passes(base, cur, myCore) else !Passes(base, cur0, myCore)
      ensures ok ==> p == |pre| + |kept + k| && db == pre + [t] + (kept + k) + cur
      ensures ok ==> Walking(base, pre, t, kept + k, cur) && LastMarked(kept + k)
      ensures ok ==>
        Extends(Mark(base, cur0, myCore), k, l, Mark(base, cur, myCore)) && deleteList == old(deleteList) + l
          && |cur| < |cur0|
    {
      hide IsAncestor; hide Walking; hide Deletable; hide Live; hide TryDelete; hide Cleaned; hide Mark; hide Passes;
      p, k, l, cur := p0, [], [], cur0[1..];
      var c := db[p + 1];
      assert c == cur0[0];
      MarkUnfold(base, cur0, myCore);
      PassesUnfold(base, cur0, myCore);
      HeadStep(base, pre, t, kept, cur0, db, room, myCore);
      HeadGone(base, pre, t, kept, cur0);
      ok := MarkRevokeGeneric(p + 1, room);
      if ok {
        if !c.attr.inDelete && Deletable(cur0, myCore) {
          cur := Live(cur0[1..], {c.Slot()});
          assert kept + k == kept;
        } else if c.attr.inDelete {
          k := [c];
        } else {
          k, l := [MarkedEntry(c)], [c.Slot()];
        }
        // the slot has not been emptied, so the walk goes on from it
        if p + 1 < |db| && db[p + 1].Slot() == c.Slot() {
          p := p + 1;
        }
      }
    }

    /** caps_mark_revoke for a target on this core. `found` is the copy that the
        lookup happens to return, `target` the capability to revoke. Of the copies
        only the target stays, and what follows it is marked. False is the failed assertion
        that this core owns the target, or a panic, because a walk came to a locked slot or
        to a copy that is being deleted, or a mapping that has lost its slot. */
    method MarkRevoke(target: nat, found: nat, room: bool)
        returns (ok: bool, ghost pre: seq<Entry>, ghost cs: seq<Entry>, ghost rest: seq<Entry>)
      requires DbSane(db) && target < |db| && found < |db| && IsCopy(db[found].cte.cap, db[target].cte.cap)
      modifies this
      ensures old(db) == pre + cs + rest && Layout(old(db)[target].cte.cap, pre, cs, rest) && old(db)[target] in cs
      ensures var revoked := old(db)[target].Slot();
        var live := Live(rest, Slots(cs) - {revoked});
        ok <==>
          && old(db)[target].attr.owner == myCore
          && NothingLocked(revoked, cs, rest, Mark(old(db)[target].cte.cap, live, myCore), myCore)
      ensures ok ==> var m := Mark(old(db)[target].cte.cap, Live(rest, Slots(cs) - {old(db)[target].Slot()}), myCore);
        db == pre + [old(db)[target]] + m.kept + m.tail && deleteList == old(deleteList) + m.listed
    {
      hide Layout; hide Distinct; hide DbSane; hide Live; hide Slots; hide Mark; hide IsCopy; hide DepartAmong;
      hide Passes; hide NothingLocked;
      var base, revoked := db[target].cte.cap, db[target].Slot();
      pre, cs, rest := LayoutOf(db, target);
      CopyIndex(db, base, pre, cs, rest, found);
      CopyIndex(db, base, pre, cs, rest, target) by { TargetCopiesItself(db, target); }
      assert db[target] in cs;
      if db[target].attr.owner != myCore { return false, pre, cs, rest; }
      LayoutDistinct(db, pre, cs, rest);
      TargetListed(base, cs, revoked);
      var p;
      ghost var x, g, t;
      ghost var live := Live(rest, Slots(cs) - {revoked});
      LockedDecides(base, pre, cs, rest, revoked, myCore);
      ok, p, x, g := WalkBack(base, revoked, found, room, pre, cs, rest);
      DepartOthers(cs, rest, g, revoked, myCore);
      if !ok { return; }
      ok, t, g := WalkForward(base, revoked, p, room, pre, cs, rest, x, found - |pre| + 1, g);
      DepartOthers(cs, rest, g, revoked, myCore);
      if !ok { return; }
      OneWithSlot(cs, t, old(db)[target]);
      StartDescendants(base, pre, cs, rest, t, g);
      ok, p := WalkDescendants(base, p, room, pre, t, live);
      // so the branch behind the third loop is never taken
      assert ok ==> db[p].Slot() == revoked || db[p].attr.inDelete;
    }
  }

  // ---------- Facts the walks use ----------

  lemma LiveEmpty(gone: set<nat>)
    ensures Live([], gone) == []
  {}

  lemma LiveStep(s: seq<Entry>, j: nat, gone: set<nat>)
    requires j < |s|
    ensures Live(s[j..], gone) == (if Maps(s[j], gone) then [] else [s[j]]) + Live(s[j + 1..], gone)
    ensures s[..j + 1] == s[..j] + [s[j]]
  {
    assert s[j..][1..] == s[j + 1..];
  }

  lemma CutBehind(db: seq<Entry>, j: nat, was: seq<Entry>, gone: set<nat>)
    requires j < |db| && j < |was| && db[..j + 1] == was[..j + 1]
    ensures |Cut(db, j)| == |db| - 1 && Cut(db, j)[..j] == was[..j]
    ensures db == was[..j + 1] + Live(was[j + 1..], gone) ==> Cut(db, j) == was[..j] + Live(was[j + 1..], gone)
  {
    assert db[..j] == db[..j + 1][..j] && was[..j] == was[..j + 1][..j];
  }

  lemma DepartAmongNone(cs: seq<Entry>, rest: seq<Entry>, myCore: nat)
    ensures DepartAmong(cs, rest, {}, myCore)
  {}

  lemma DepartAmongMore(cs: seq<Entry>, rest: seq<Entry>, g: set<nat>, c: Entry, myCore: nat)
    requires Distinct(cs) && c in cs
    ensures DepartAmong(cs, rest, g + {c.Slot()}, myCore) <==>
      DepartAmong(cs, rest, g, myCore) && Departs(c, rest, myCore)
  {
    hide Departs;
    forall e | e in cs && e.Slot() == c.Slot() ensures e == c {
      OneWithSlot(cs, e, c);
    }
  }

  ghost predicate OthersDepart(cs: seq<Entry>, rest: seq<Entry>, revoked: nat, myCore: nat) {
    forall e :: e in cs && e.Slot() != revoked ==> Departs(e, rest, myCore)
  }

  /** Of the slots that were tried, none is the target's and in the end all others are there. */
  lemma DepartOthers(cs: seq<Entry>, rest: seq<Entry>, g: set<nat>, revoked: nat, myCore: nat)
    requires revoked !in g
    ensures !DepartAmong(cs, rest, g, myCore) ==> !OthersDepart(cs, rest, revoked, myCore)
    ensures g == Slots(cs) - {revoked} ==>
      (DepartAmong(cs, rest, g, myCore) <==> OthersDepart(cs, rest, revoked, myCore))
  {
    hide Departs;
    SlotsMembers(cs);
  }

  lemma LockedDecides(base: Cap, pre: seq<Entry>, cs: seq<Entry>, rest: seq<Entry>, revoked: nat, myCore: nat)
    requires Layout(base, pre, cs, rest)
    ensures var live := Live(rest, Slots(cs) - {revoked});
      NothingLocked(revoked, cs, rest, Mark(base, live, myCore), myCore) <==>
        OthersDepart(cs, rest, revoked, myCore) && Passes(base, live, myCore)
  {
    hide Free; hide Passes; hide Mark; hide Goes; hide Layout; hide Harmless; hide Slots;
    var g := Slots(cs) - {revoked};
    var m := Mark(base, Live(rest, g), myCore);
    LayoutSane(base, pre, cs, rest);
    LiveSane(base, rest, g);
    LiveMembers(rest, g);
    PassesIff(base, Live(rest, g), myCore);
    OthersMap(cs, rest, revoked, myCore);
  }

  lemma LayoutSane(base: Cap, pre: seq<Entry>, cs: seq<Entry>, rest: seq<Entry>)
    requires Layout(base, pre, cs, rest)
    ensures Sane(base, rest)
  {}

  lemma OthersMap(cs: seq<Entry>, rest: seq<Entry>, revoked: nat, myCore: nat)
    ensures OthersDepart(cs, rest, revoked, myCore) <==>
      && (forall e :: e in cs && e.Slot() != revoked ==> Free(e))
      && (forall e :: e in rest && Maps(e, Slots(cs) - {revoked}) ==> Goes(e, myCore))
  {
    hide Free; hide Goes; hide Slots;
    SlotsMembers(cs);
    if OthersDepart(cs, rest, revoked, myCore) {
      forall e | e in rest && Maps(e, Slots(cs) - {revoked}) ensures Goes(e, myCore) {
        var c :| c in cs && c.Slot() == e.cte.cap.target;
        assert Departs(c, rest, myCore);
      }
    }
  }

  ghost predicate Distinct(s: seq<Entry>) { forall i, j :: 0 <= i < j < |s| ==> s[i].Slot() != s[j].Slot() }

  lemma SlotsFront(cs: seq<Entry>, a: nat, b: nat)
    requires a < b <= |cs|
    ensures Slots(cs[a..b]) == {cs[a].Slot()} + Slots(cs[a + 1..b])
  {
    assert cs[a..b][1..] == cs[a + 1..b];
  }

  /** Slots of distinct entries differ. */
  lemma DistinctPair(cs: seq<Entry>, a: nat, b: nat)
    requires Distinct(cs) && a < b <= |cs|
    ensures cs[a].Slot() !in Slots(cs[a + 1..b])
  {
    SlotsMembers(cs[a + 1..b]);
    forall e | e in cs[a + 1..b] ensures e.Slot() != cs[a].Slot() {
      var i :| 0 <= i < |cs[a + 1..b]| && cs[a + 1..b][i] == e;
      assert cs[a + 1 + i] == e;
    }
  }

  lemma StartBack(base: Cap, pre: seq<Entry>, cs: seq<Entry>, rest: seq<Entry>, a: nat)
    requires a < |cs|
    ensures pre + cs + rest == pre + cs[..a] + [cs[a]] + cs[a + 1..] + Live(rest, {})
    ensures {cs[a].Slot()} == Slots(cs[a..a + 1])
  {
    LiveAll(rest, {});
    assert cs == cs[..a] + [cs[a]] + cs[a + 1..];
    assert cs[a..a + 1] == [cs[a]];
  }

  /** A copy precedes the one to keep exactly while `cs` has entries before it. */
  lemma CopyPrecedes(base: Cap, pre: seq<Entry>, cs: seq<Entry>, rest: seq<Entry>, a: nat, x: Entry, b: nat,
      g: set<nat>, db: seq<Entry>)
    requires Layout(base, pre, cs, rest) && a <= b <= |cs| && db == pre + cs[..a] + [x] + cs[b..] + Live(rest, g)
    ensures |pre| + a > 0 && IsCopy(base, db[|pre| + a - 1].cte.cap) <==> a > 0
  {
    hide IsCopy;
    if a > 0 {
      assert db[|pre| + a - 1] == cs[a - 1];
    } else if |pre| > 0 {
      assert db[|pre| - 1] == pre[|pre| - 1] && pre[|pre| - 1] in pre + rest;
    }
  }

  lemma CleanedAt(u: seq<Entry>, c: Entry, v: seq<Entry>)
    requires forall e :: e in v && Maps(e, {c.Slot()}) ==> Unmaps(c.cte.cap.typ)
    ensures Cleaned(u + [c] + v, |u|) == u + Live(v, {c.Slot()})
  {
    var db := u + [c] + v;
    assert db[..|u|] == u && db[|u| + 1..] == v;
    if !Unmaps(c.cte.cap.typ) { LiveAll(v, {c.Slot()}); }
  }

  lemma NoMappingsAmong(base: Cap, pre: seq<Entry>, cs: seq<Entry>, rest: seq<Entry>, u: seq<Entry>, c: Entry)
    requires Layout(base, pre, cs, rest) && (c in cs || c in rest) && forall e :: e in u ==> e in pre + cs
    ensures Live(u, {c.Slot()}) == u
  {
    hide IsCopy;
    hide Sane;
    SlotsMembers(cs + rest);
    assert c in cs + rest;
    forall e | e in u ensures !Maps(e, {c.Slot()}) {
      assert e in pre + cs && c.Slot() in Slots(cs + rest);
      assert !Maps(e, Slots(cs + rest));
    }
    LiveAll(u, {c.Slot()});
  }

  /** Deleting a copy leaves the other copies alone and takes its mappings along. */
  lemma RemoveCopy(base: Cap, pre: seq<Entry>, cs: seq<Entry>, rest: seq<Entry>, u: seq<Entry>, c: Entry,
      v: seq<Entry>, g: set<nat>)
    requires Layout(base, pre, cs, rest) && c in cs && forall e :: e in v ==> e in cs
    ensures Cleaned(u + [c] + v + Live(rest, g), |u|) == u + v + Live(rest, g + {c.Slot()})
  {
    hide Layout; hide Live; hide Cleaned;
    var h := {c.Slot()};
    var t := v + Live(rest, g);
    OnlyMappable(base, pre, cs, rest, t, c, g);
    CleanedAt(u, c, t);
    assert u + [c] + v + Live(rest, g) == u + [c] + t;
    LiveConcat(v, Live(rest, g), h);
    NoMappingsAmong(base, pre, cs, rest, v, c);
    LiveTwice(rest, g, h);
  }

  /** The mappings of a copy go exactly if none of them refuses. */
  lemma CopyUnmappable(base: Cap, pre: seq<Entry>, cs: seq<Entry>, rest: seq<Entry>, u: seq<Entry>, c: Entry,
      v: seq<Entry>, g: set<nat>,
                       myCore: nat)
    requires Layout(base, pre, cs, rest) && c in cs && c.Slot() !in g && forall e :: e in v ==> e in cs
    ensures Unmappable(u + [c] + v + Live(rest, g), |u|, myCore) <==> MapsGo(rest, c.Slot(), myCore)
  {
    hide Layout; hide Live; hide AllGo; hide Goes; hide MappingsAgree;
    var t, lo, slot := v + Live(rest, g), |u| + 1, c.Slot();
    var db := u + [c] + v + Live(rest, g);
    assert db == u + [c] + t && db[lo..] == t;
    MapsOfCopy(base, pre, cs, rest, c, v, g, myCore);
    if Unmaps(c.cte.cap.typ) {
      AgreeBehind(base, pre, cs, rest, v, g);
      AllGoIff(db, lo, |db|, slot, myCore);
      GoUpToEnd(db, lo, slot, myCore);
    }
  }

  lemma AgreeBehind(base: Cap, pre: seq<Entry>, cs: seq<Entry>, rest: seq<Entry>, v: seq<Entry>, g: set<nat>)
    requires Layout(base, pre, cs, rest) && forall e :: e in v ==> e in cs
    ensures MappingsAgree(v + Live(rest, g))
  {
    hide MappingsAgree; hide Live; hide IsCopy; hide Sane;
    LiveMembers(rest, g);
    SubAgree(cs + rest, v + Live(rest, g));
  }

  lemma MapsOfCopy(base: Cap, pre: seq<Entry>, cs: seq<Entry>, rest: seq<Entry>, c: Entry, v: seq<Entry>, g: set<nat>,
      myCore: nat)
    requires Layout(base, pre, cs, rest) && c in cs && c.Slot() !in g && forall e :: e in v ==> e in cs
    ensures MapsGo(v + Live(rest, g), c.Slot(), myCore) <==> MapsGo(rest, c.Slot(), myCore)
    ensures !Unmaps(c.cte.cap.typ) ==> MapsGo(rest, c.Slot(), myCore)
  {
    hide Sane; hide IsCopy; hide Goes; hide Unmaps; hide Live; hide MappingsAgree;
    LiveMembers(rest, g);
    SlotsMembers(cs + rest);
    assert c in cs + rest;
    forall e | e in v ensures !Maps(e, {c.Slot()}) {
      assert e in pre + cs;
      assert !Maps(e, Slots(cs + rest));
    }
  }

  /** What deleting a copy comes to while another copy stands next to it. */
  lemma CopyOutcome(base: Cap, pre: seq<Entry>, cs: seq<Entry>, rest: seq<Entry>, u: seq<Entry>, c: Entry,
      v: seq<Entry>, g: set<nat>,
                    db: seq<Entry>, room: bool, myCore: nat)
    requires Layout(base, pre, cs, rest) && c in cs && c.Slot() !in g && forall e :: e in v ==> e in cs
    requires (u != [] && u[|u| - 1] in cs) || (v != [] && v[0] in cs)
    requires db == u + [c] + v + Live(rest, g)
    ensures Cleaned(db, |u|) == u + v + Live(rest, g + {c.Slot()})
    ensures TryDelete(db, |u|, myCore, room) ==
      if !Free(c) then Locked else if MapsGo(rest, c.Slot(), myCore) then Ok else Dangling
  {
    hide Layout; hide Live; hide Cleaned; hide Unmappable; hide MapsGo; hide IsCopy;
    RemoveCopy(base, pre, cs, rest, u, c, v, g);
    CopyUnmappable(base, pre, cs, rest, u, c, v, g, myCore);
    assert db[|u|] == c;
    if u != [] && u[|u| - 1] in cs {
      assert db[|u| - 1] == u[|u| - 1];
      CopiesOfEachOther(base, pre, cs, rest, u[|u| - 1], c);
    } else {
      assert db[|u| + 1] == v[0];
      CopiesOfEachOther(base, pre, cs, rest, v[0], c);
    }
  }

  ghost predicate OnlyMapsMappable(db: seq<Entry>, c: Entry) {
    forall e :: e in db && Maps(e, {c.Slot()}) ==> Unmaps(c.cte.cap.typ)
  }

  lemma OnlyMappable(base: Cap, pre: seq<Entry>, cs: seq<Entry>, rest: seq<Entry>, db: seq<Entry>, c: Entry,
      g: set<nat>)
    requires Layout(base, pre, cs, rest) && (c in cs || c in rest)
    requires forall e :: e in db ==> e in pre + cs || e in Live(rest, g)
    ensures OnlyMapsMappable(db, c)
  {
    hide IsCopy;
    hide Sane;
    hide Unmaps;
    SlotsMembers(cs + rest);
    LiveMembers(rest, g);
    assert c in cs + rest;
    forall e | e in pre + cs ensures !Maps(e, {c.Slot()}) {
      assert !Maps(e, Slots(cs + rest));
    }
  }

  lemma CopiesOfEachOther(base: Cap, pre: seq<Entry>, cs: seq<Entry>, rest: seq<Entry>, e: Entry, d: Entry)
    requires Layout(base, pre, cs, rest) && e in cs && d in cs
    ensures IsCopy(e.cte.cap, d.cte.cap)
  {
    CopyTransitive(e.cte.cap, base, d.cte.cap);
  }

  lemma SlotsAppend(s: seq<Entry>, c: Entry)
    ensures Slots(s + [c]) == Slots(s) + {c.Slot()}
  {
    if s == [] {
      assert s + [c] == [c];
    } else {
      assert (s + [c])[1..] == s[1..] + [c];
      SlotsAppend(s[1..], c);
    }
  }

  lemma SlotsBack(cs: seq<Entry>, b: nat)
    requires Distinct(cs) && b < |cs|
    ensures Slots(cs[..b + 1]) == Slots(cs[..b]) + {cs[b].Slot()} && cs[b].Slot() !in Slots(cs[..b])
  {
    assert cs[..b + 1] == cs[..b] + [cs[b]];
    SlotsAppend(cs[..b], cs[b]);
    SlotsMembers(cs[..b]);
  }

  lemma CopyFollows(base: Cap, pre: seq<Entry>, cs: seq<Entry>, rest: seq<Entry>, x: Entry, b: nat, g: set<nat>,
      db: seq<Entry>)
    requires Layout(base, pre, cs, rest) && b <= |cs| && db == pre + [x] + cs[b..] + Live(rest, g)
    ensures |pre| + 1 < |db| && IsCopy(base, db[|pre| + 1].cte.cap) <==> b < |cs|
  {
    hide IsCopy;
    hide Sane;
    if b < |cs| {
      assert db[|pre| + 1] == cs[b];
    } else {
      LiveMembers(rest, g);
      assert forall e :: e in Live(rest, g) ==> e in pre + rest;
    }
  }

  lemma TargetListed(base: Cap, cs: seq<Entry>, revoked: nat)
    requires exists e :: e in cs && e.Slot() == revoked
    ensures revoked in Slots(cs)
  {
    SlotsMembers(cs);
  }

  lemma OneWithSlot(cs: seq<Entry>, t: Entry, e: Entry)
    requires Distinct(cs) && t in cs && e in cs && t.Slot() == e.Slot()
    ensures t == e
  {
    var i :| 0 <= i < |cs| && cs[i] == e;
    var j :| 0 <= j < |cs| && cs[j] == t;
    assert i == j;
  }

  /** The state of the third walk: `kept` is done, `cur` is still to come. */
  ghost predicate Walking(base: Cap, pre: seq<Entry>, t: Entry, kept: seq<Entry>, cur: seq<Entry>) {
    && Sane(base, cur)
    && (forall e :: e in pre + [t] + kept ==> !Maps(e, Slots(cur)))
    && (forall e, d :: e in cur && d in cur && Maps(e, {d.Slot()}) ==> Unmaps(d.cte.cap.typ))
    && MappingsAgree(cur)
    && (forall e :: e in cur ==> !IsCopy(t.cte.cap, e.cte.cap))
    && (kept != [] ==> forall e :: e in cur ==> !IsCopy(kept[|kept| - 1].cte.cap, e.cte.cap))
  }

  lemma StartDescendants(base: Cap, pre: seq<Entry>, cs: seq<Entry>, rest: seq<Entry>, t: Entry, g: set<nat>)
    requires Layout(base, pre, cs, rest) && t in cs && t.cte.cap == base
    ensures Walking(base, pre, t, [], Live(rest, g))
  {
    hide IsCopy; hide IsAncestor; hide MappingsAgree; hide Live; hide Sane; hide Unmaps;
    var live := Live(rest, g);
    LiveSane(base, rest, g);
    LiveMembers(rest, g);
    AgreeBehind(base, pre, cs, rest, [], g);
    assert [] + live == live;
    StartUnmapped(base, pre, cs, rest, t, g);
    forall e | e in live ensures !IsCopy(t.cte.cap, e.cte.cap) {
      assert e in pre + rest;
    }
    forall e, d | e in live && d in live && Maps(e, {d.Slot()}) ensures Unmaps(d.cte.cap.typ) {
      assert e in rest && d in cs + rest;
    }
  }

  lemma StartUnmapped(base: Cap, pre: seq<Entry>, cs: seq<Entry>, rest: seq<Entry>, t: Entry, g: set<nat>)
    requires Layout(base, pre, cs, rest) && t in cs
    ensures forall e :: e in pre + [t] + [] ==> !Maps(e, Slots(Live(rest, g)))
  {
    hide IsCopy; hide MappingsAgree; hide Live; hide Sane; hide Unmaps; hide Slots;
    LiveSlots(rest, g);
    SlotsMembers(rest);
    SlotsMembers(cs + rest);
    assert Slots(rest) <= Slots(cs + rest) by {
      forall x | x in Slots(rest) ensures x in Slots(cs + rest) {
        var e :| e in rest && e.Slot() == x;
        assert e in cs + rest;
      }
    }
    forall e | e in pre + [t] + [] ensures !Maps(e, Slots(Live(rest, g))) {
      assert e in pre + cs;
    }
  }

  /** `m` is what has been kept and listed, followed by `n`. */
  ghost predicate Extends(m: Marked, kept: seq<Entry>, listed: seq<nat>, n: Marked) {
    m.kept == kept + n.kept && m.tail == n.tail && m.listed == listed + n.listed
  }

  lemma ExtendsMore(m: Marked, kept: seq<Entry>, listed: seq<nat>, n: Marked, k: seq<Entry>, l: seq<nat>, n': Marked)
    requires Extends(m, kept, listed, n) && Extends(n, k, l, n')
    ensures Extends(m, kept + k, listed + l, n')
  {}

  ghost predicate LastMarked(kept: seq<Entry>) { kept != [] ==> kept[|kept| - 1].attr.inDelete }

  lemma PassesUnfold(base: Cap, s: seq<Entry>, myCore: nat)
    ensures s == [] || !IsAncestor(s[0].cte.cap, base) ==> Passes(base, s, myCore)
    ensures s != [] && IsAncestor(s[0].cte.cap, base) ==>
      (Passes(base, s, myCore) <==>
       if s[0].attr.inDelete then Passes(base, s[1..], myCore)
       else if s[0].attr.locked then false
       else if Deletable(s, myCore)
         then MapsGo(s[1..], s[0].Slot(), myCore) && Passes(base, Live(s[1..], {s[0].Slot()}), myCore)
       else Passes(base, s[1..], myCore))
  {}

  lemma MarkUnfold(base: Cap, s: seq<Entry>, myCore: nat)
    ensures s == [] || !IsAncestor(s[0].cte.cap, base) ==> Mark(base, s, myCore) == Marked([], s, [], {})
    ensures s != [] && IsAncestor(s[0].cte.cap, base) ==>
      var m := Mark(base, s, myCore);
      if s[0].attr.inDelete then
        var n := Mark(base, s[1..], myCore); m.kept == [s[0]] + n.kept && m.tail == n.tail && m.listed == n.listed
      else if Deletable(s, myCore) then
        var n := Mark(base, Live(s[1..], {s[0].Slot()}), myCore);
          m.kept == n.kept && m.tail == n.tail && m.listed == n.listed
      else
        var n := Mark(base, s[1..], myCore);
        m.kept == [MarkedEntry(s[0])] + n.kept && m.tail == n.tail && m.listed == [s[0].Slot()] + n.listed
  {}

  /** One step of the third walk. */
  lemma HeadStep(base: Cap, pre: seq<Entry>, t: Entry, kept: seq<Entry>, cur: seq<Entry>, db: seq<Entry>, room: bool,
      myCore: nat)
    requires Walking(base, pre, t, kept, cur) && t.cte.cap == base && db == pre + [t] + kept + cur
    requires cur != [] && IsAncestor(cur[0].cte.cap, base)
    ensures var c, i := cur[0], |pre| + 1 + |kept|;
      && db[i] == c
      && (c.attr.inDelete ==> Walking(base, pre, t, kept + [c], cur[1..]))
      && (!c.attr.inDelete && c.attr.locked ==> TryDelete(db, i, myCore, room) == Locked)
      && (Free(c) && Deletable(cur, myCore) ==>
            && TryDelete(db, i, myCore, room) == (if MapsGo(cur[1..], c.Slot(), myCore) then Ok else Dangling)
            && Cleaned(db, i) == pre + [t] + kept + Live(cur[1..], {c.Slot()})
            && Walking(base, pre, t, kept, Live(cur[1..], {c.Slot()})))
      && (Free(c) && !Deletable(cur, myCore) ==>
            && TryDelete(db, i, myCore, room) == DeleteLastOwned
            && Walking(base, pre, t, kept + [MarkedEntry(c)], cur[1..]))
  {
    hide IsAncestor;
    hide Walking;
    hide Deletable;
    hide TryDelete;
    hide Cleaned;
    hide Live;
    var c := cur[0];
    if c.attr.inDelete {
      KeepHead(base, pre, t, kept, cur, c, myCore);
    } else {
      HeadOutcome(base, pre, t, kept, cur, db, room, myCore);
      if Deletable(cur, myCore) {
        HeadCleaned(base, pre, t, kept, cur, db);
        DropHead(base, pre, t, kept, cur);
      } else {
        KeepHead(base, pre, t, kept, cur, MarkedEntry(c), myCore);
      }
    }
  }

  lemma HeadGone(base: Cap, pre: seq<Entry>, t: Entry, kept: seq<Entry>, cur: seq<Entry>)
    requires Walking(base, pre, t, kept, cur) && cur != []
    ensures var r := Live(cur[1..], {cur[0].Slot()}); r != [] ==> r[0].Slot() != cur[0].Slot()
  {
    LiveMembers(cur[1..], {cur[0].Slot()});
    SlotsMembers(cur[1..]);
  }

  lemma KeepHead(base: Cap, pre: seq<Entry>, t: Entry, kept: seq<Entry>, cur: seq<Entry>, c: Entry, myCore: nat)
    requires Walking(base, pre, t, kept, cur) && cur != [] && c.cte == cur[0].cte
    requires cur[0].attr.inDelete || !Deletable(cur, myCore)
    ensures Walking(base, pre, t, kept + [c], cur[1..])
  {
    hide IsAncestor;
    hide IsCopy;
    hide Unmaps;
    assert forall e :: e in cur[1..] ==> e in cur;
    if !cur[0].attr.inDelete && |cur| > 1 {
      FirstDecides(c.cte.cap, cur[1..]);
    }
    forall e | e in cur[1..] ensures !IsCopy(c.cte.cap, e.cte.cap) {
      assert !IsCopy(e.cte.cap, c.cte.cap);
      if IsCopy(c.cte.cap, e.cte.cap) { CopySymmetric(c.cte.cap, e.cte.cap); }
    }
    forall e | e in pre + [t] + (kept + [c]) ensures !Maps(e, Slots(cur[1..])) {
      assert e == c || e in pre + [t] + kept;
      assert !Maps(e, Slots(cur));
    }
    assert (kept + [c])[|kept + [c]| - 1] == c;
  }

  lemma DropHead(base: Cap, pre: seq<Entry>, t: Entry, kept: seq<Entry>, cur: seq<Entry>)
    requires Walking(base, pre, t, kept, cur) && cur != []
    ensures Walking(base, pre, t, kept, Live(cur[1..], {cur[0].Slot()}))
  {
    hide IsAncestor;
    hide IsCopy;
    hide Unmaps;
    var g := {cur[0].Slot()};
    LiveSane(base, cur[1..], g);
    LiveMembers(cur[1..], g);
    LiveSlots(cur[1..], g);
    assert forall e :: e in cur[1..] ==> e in cur;
  }

  lemma HeadCleaned(base: Cap, pre: seq<Entry>, t: Entry, kept: seq<Entry>, cur: seq<Entry>, db: seq<Entry>)
    requires Walking(base, pre, t, kept, cur) && db == pre + [t] + kept + cur && cur != []
    ensures Cleaned(db, |pre| + 1 + |kept|) == pre + [t] + kept + Live(cur[1..], {cur[0].Slot()})
  {
    hide IsAncestor; hide IsCopy; hide Sane; hide Unmaps; hide MappingsAgree;
    var u := pre + [t] + kept;
    assert db == u + [cur[0]] + cur[1..];
    assert forall e :: e in cur[1..] ==> e in cur;
    CleanedAt(u, cur[0], cur[1..]);
  }

  lemma HeadUnmappable(base: Cap, pre: seq<Entry>, t: Entry, kept: seq<Entry>, cur: seq<Entry>, db: seq<Entry>,
      myCore: nat)
    requires Walking(base, pre, t, kept, cur) && db == pre + [t] + kept + cur && cur != []
    ensures Unmappable(db, |pre| + 1 + |kept|, myCore) <==> MapsGo(cur[1..], cur[0].Slot(), myCore)
  {
    hide IsAncestor; hide IsCopy; hide Sane; hide MappingsAgree; hide AllGo; hide Goes;
    var lo, slot := |pre| + 2 + |kept|, cur[0].Slot();
    assert db[lo - 1] == cur[0] && db[lo..] == cur[1..];
    assert forall e :: e in cur[1..] ==> e in cur;
    if Unmaps(cur[0].cte.cap.typ) {
      SubAgree(cur, cur[1..]);
      AllGoIff(db, lo, |db|, slot, myCore);
      GoUpToEnd(db, lo, slot, myCore);
    }
  }

  lemma HeadOutcome(base: Cap, pre: seq<Entry>, t: Entry, kept: seq<Entry>, cur: seq<Entry>, db: seq<Entry>,
      room: bool, myCore: nat)
    requires Walking(base, pre, t, kept, cur) && t.cte.cap == base && db == pre + [t] + kept + cur
    requires cur != [] && IsAncestor(cur[0].cte.cap, base) && !cur[0].attr.inDelete
    ensures TryDelete(db, |pre| + 1 + |kept|, myCore, room) ==
      if cur[0].attr.locked then Locked else if !Deletable(cur, myCore) then DeleteLastOwned
      else if MapsGo(cur[1..], cur[0].Slot(), myCore) then Ok else Dangling
  {
    hide Walking; hide Decision; hide Unmappable; hide MapsGo; hide Deletable; hide IsAncestor;
    HeadDecision(base, pre, t, kept, cur, db, room, myCore);
    HeadUnmappable(base, pre, t, kept, cur, db, myCore);
  }

  lemma HeadDecision(base: Cap, pre: seq<Entry>, t: Entry, kept: seq<Entry>, cur: seq<Entry>, db: seq<Entry>,
      room: bool, myCore: nat)
    requires Walking(base, pre, t, kept, cur) && t.cte.cap == base && db == pre + [t] + kept + cur
    requires cur != [] && IsAncestor(cur[0].cte.cap, base) && !cur[0].attr.inDelete
    ensures Decision(db, |pre| + 1 + |kept|, myCore, room) ==
      if cur[0].attr.locked then Locked else if Deletable(cur, myCore) then Ok else DeleteLastOwned
  {
    hide Sane; hide Unmaps; hide IsCopy; hide MappingsAgree;
    var i := |pre| + 1 + |kept|;
    assert db[i] == cur[0];
    assert db[i - 1] == if kept == [] then t else kept[|kept| - 1];
    assert |cur| > 1 ==> db[i + 1] == cur[1];
    assert HasCopies(db, i) <==> |cur| > 1 && IsCopy(cur[1].cte.cap, cur[0].cte.cap);
    AncestorInRegion(cur[0], base);
    assert HasAncestors(db, i) by {
      var k := |pre|;
      assert db[k] == t;
    }
  }

  lemma AncestorInRegion(e: Entry, base: Cap)
    requires IsAncestor(e.cte.cap, base)
    ensures TypeRoot(e.cte.cap.typ) == TypeRoot(base.typ) && Inside(e.cte.cap, base) && Compare(base, e.cte.cap) < 0
  {
    WellFoundedIsAncestor(base.typ, e.cte.cap.typ);
    TypeAncestorRank(base.typ, e.cte.cap.typ);
  }

  // ---------- The database order gives the layout ----------

  lemma TargetCopiesItself(db: seq<Entry>, t: nat)
    requires DbSane(db) && t < |db|
    ensures IsCopy(db[t].cte.cap, db[t].cte.cap)
  {
    assert db[t] in db;
  }

  /** The copies of an entry are one block of the database. */
  lemma BlockOf(db: seq<Entry>, t: nat) returns (lo: nat, hi: nat)
    requires DbSane(db) && t < |db|
    ensures lo <= t < hi <= |db|
    ensures forall i :: 0 <= i < |db| ==> (IsCopy(db[i].cte.cap, db[t].cte.cap) <==> lo <= i < hi)
  {
    hide IsCopy;
    hide Ordered;
    TargetCopiesItself(db, t);
    lo, hi := t, t + 1;
    while lo > 0 && IsCopy(db[lo - 1].cte.cap, db[t].cte.cap)
      invariant lo <= t && forall i :: lo <= i <= t ==> IsCopy(db[i].cte.cap, db[t].cte.cap)
    {
      lo := lo - 1;
    }
    while hi < |db| && IsCopy(db[hi].cte.cap, db[t].cte.cap)
      invariant t < hi <= |db| && forall i :: t <= i < hi ==> IsCopy(db[i].cte.cap, db[t].cte.cap)
    {
      hi := hi + 1;
    }
    forall i | 0 <= i < |db| && IsCopy(db[i].cte.cap, db[t].cte.cap) ensures lo <= i < hi {
      if i < lo {
        CopiesContiguous(db, i, lo - 1, t);
      } else if i >= hi {
        CopySymmetric(db[i].cte.cap, db[t].cte.cap);
        CopiesContiguous(db, t, hi, i);
        CopySymmetric(db[t].cte.cap, db[hi].cte.cap);
      }
    }
  }

  lemma LayoutOf(db: seq<Entry>, t: nat) returns (pre: seq<Entry>, cs: seq<Entry>, rest: seq<Entry>)
    requires DbSane(db) && t < |db|
    ensures db == pre + cs + rest && Layout(db[t].cte.cap, pre, cs, rest)
  {
    hide IsCopy;
    hide Sane;
    hide Unmaps;
    hide DbSane;
    hide Maps;
    hide Slots;
    hide MappingsAgree;
    var base := db[t].cte.cap;
    var lo, hi := BlockOf(db, t);
    pre, cs, rest := db[..lo], db[lo..hi], db[hi..];
    LayoutCopies(db, t, lo, hi);
    LayoutMapped(db, t, lo, hi);
    LayoutMappings(db, t, lo, hi);
    SaneFrom(db, t, hi);
    LayoutSlots(db, lo, hi);
    LayoutAgree(db, lo, hi);
  }

  lemma LayoutAgree(db: seq<Entry>, lo: nat, hi: nat)
    requires DbSane(db) && lo <= hi <= |db|
    ensures MappingsAgree(db[lo..hi] + db[hi..])
  {
    hide Ordered; hide MappingsAgree;
    assert forall k :: 0 <= k < |db[lo..hi] + db[hi..]| ==> (db[lo..hi] + db[hi..])[k] == db[lo + k];
    SubAgree(db, db[lo..hi] + db[hi..]);
  }

  lemma LayoutCopies(db: seq<Entry>, t: nat, lo: nat, hi: nat)
    requires lo <= t < hi <= |db|
    requires forall i :: 0 <= i < |db| ==> (IsCopy(db[i].cte.cap, db[t].cte.cap) <==> lo <= i < hi)
    ensures var base := db[t].cte.cap;
      && (forall e :: e in db[lo..hi] ==> IsCopy(e.cte.cap, base) && IsCopy(base, e.cte.cap))
      && (forall e :: e in db[..lo] + db[hi..] ==> !IsCopy(e.cte.cap, base) && !IsCopy(base, e.cte.cap))
  {
    hide IsCopy;
    var base := db[t].cte.cap;
    forall e | e in db[lo..hi] ensures IsCopy(e.cte.cap, base) && IsCopy(base, e.cte.cap) {
      var i :| lo <= i < hi && db[i] == e;
      CopySymmetric(e.cte.cap, base);
    }
    forall e | e in db[..lo] + db[hi..] ensures !IsCopy(e.cte.cap, base) && !IsCopy(base, e.cte.cap) {
      assert e in db[..lo] || e in db[hi..];
      var i :| 0 <= i < |db| && !(lo <= i < hi) && db[i] == e;
      if IsCopy(base, e.cte.cap) { CopySymmetric(base, e.cte.cap); }
    }
  }

  /** Nothing up to the end of the copies maps a slot of the copies or behind them. */
  lemma LayoutMapped(db: seq<Entry>, t: nat, lo: nat, hi: nat)
    requires DbSane(db) && lo <= t < hi <= |db|
    requires forall i :: lo <= i < hi ==> IsCopy(db[i].cte.cap, db[t].cte.cap)
    ensures forall e :: e in db[..lo] + db[lo..hi] ==> !Maps(e, Slots(db[lo..hi] + db[hi..]))
  {
    hide DbSane;
    hide IsCopy;
    hide Slots;
    assert db[lo..hi] + db[hi..] == db[lo..];
    SlotsMembers(db[lo..]);
    forall e | e in db[..lo] + db[lo..hi] ensures !Maps(e, Slots(db[lo..])) {
      var m :| 0 <= m < hi && db[m] == e;
      if Maps(e, Slots(db[lo..])) {
        var d :| d in db[lo..] && d.Slot() == e.cte.cap.target;
        var i :| lo <= i < |db| && db[i] == d;
        NotMappedByCopies(db, t, lo, hi, i, m);
      }
    }
  }

  lemma NotMappedByCopies(db: seq<Entry>, t: nat, lo: nat, hi: nat, i: nat, m: nat)
    requires DbSane(db) && lo <= t < hi <= |db| && lo <= i < |db| && m < hi
    requires forall k :: lo <= k < hi ==> IsCopy(db[k].cte.cap, db[t].cte.cap)
    ensures !Maps(db[m], {db[i].Slot()})
  {
    hide Ordered;
  }

  lemma LayoutMappings(db: seq<Entry>, t: nat, lo: nat, hi: nat)
    requires DbSane(db) && lo <= t < hi <= |db|
    ensures forall e, d :: e in db[hi..] && d in db[lo..hi] + db[hi..] && Maps(e, {d.Slot()}) ==> Unmaps(d.cte.cap.typ)
  {
    hide Ordered;
    hide IsCopy;
    hide Unmaps;
    forall e, d | e in db[hi..] && d in db[lo..hi] + db[hi..] && Maps(e, {d.Slot()}) ensures Unmaps(d.cte.cap.typ) {
      var m :| hi <= m < |db| && db[m] == e;
      var i :| lo <= i < |db| && db[i] == d;
    }
  }

  lemma LayoutSlots(db: seq<Entry>, lo: nat, hi: nat)
    requires DbSane(db) && lo <= hi <= |db|
    ensures Slots(db[lo..hi]) !! Slots(db[hi..])
  {
    hide DbSane; hide Slots;
    SlotsMembers(db[lo..hi]);
    SlotsMembers(db[hi..]);
    forall x | x in Slots(db[lo..hi]) && x in Slots(db[hi..]) ensures false {
      var d :| d in db[lo..hi] && d.Slot() == x;
      var e :| e in db[hi..] && e.Slot() == x;
      var i :| lo <= i < hi && db[i] == d;
      var j :| hi <= j < |db| && db[j] == e;
      SlotsUnique(db, i, j);
    }
  }

  lemma SlotsUnique(db: seq<Entry>, i: nat, j: nat)
    requires DbSane(db) && i < j < |db|
    ensures db[i].Slot() != db[j].Slot()
  {}

  lemma OrderedRegion(db: seq<Entry>, t: nat, i: nat, j: nat)
    requires DbSane(db) && t < i < j < |db| && !InRegion(db[i], db[t].cte.cap)
    ensures !InRegion(db[j], db[t].cte.cap)
  {
    var s := Ctes(db);
    assert Before(s[t], s[i]) && Before(s[i], s[j]);
  }

  /** Every suffix behind the copies is sane. */
  lemma SaneFrom(db: seq<Entry>, t: nat, i: nat)
    requires DbSane(db) && t < i <= |db|
    ensures Sane(db[t].cte.cap, db[i..])
    decreases |db| - i
  {
    hide IsCopy;
    hide InRegion;
    hide Ordered;
    if i < |db| {
      var base := db[t].cte.cap;
      var s := db[i..];
      SaneFrom(db, t, i + 1);
      assert s[1..] == db[i + 1..] && s[0] == db[i];
      LayoutSlots2(db, i);
      CopiesFirstFrom(db, i, i + 1);
      forall e | e in s[1..] ensures !InRegion(s[0], base) ==> !InRegion(e, base)
                             ensures s[0].attr.inDelete ==> !IsCopy(e.cte.cap, s[0].cte.cap) {
        var j :| i < j < |db| && db[j] == e;
        if !InRegion(s[0], base) { OrderedRegion(db, t, i, j); }
      }
    }
  }

  lemma LayoutSlots2(db: seq<Entry>, i: nat)
    requires DbSane(db) && i < |db|
    ensures db[i].Slot() !in Slots(db[i + 1..]) && !Maps(db[i], Slots(db[i..]))
    ensures IsMapping(db[i].cte.cap.typ) ==> forall e :: e in db[i..] ==> !Maps(e, {db[i].Slot()})
  {
    hide Ordered;
    SlotsMembers(db[i + 1..]);
    SlotsMembers(db[i..]);
    if db[i].Slot() in Slots(db[i + 1..]) {
      var e :| e in db[i + 1..] && e.Slot() == db[i].Slot();
      var j :| i < j < |db| && db[j] == e;
      SlotsUnique(db, i, j);
    }
    forall e | e in db[i..] && Maps(e, {db[i].Slot()}) ensures Unmaps(db[i].cte.cap.typ) {
      var j :| i <= j < |db| && db[j] == e;
    }
  }

  lemma CopiesFirstFrom(db: seq<Entry>, h: nat, i: nat)
    requires DbSane(db) && h < i <= |db|
    ensures CopiesFirst(db[h].cte.cap, db[i..])
    decreases |db| - i
  {
    hide IsCopy;
    hide Ordered;
    if i < |db| {
      CopiesFirstFrom(db, h, i + 1);
      var s := db[i..];
      assert s[1..] == db[i + 1..];
      forall e | e in s[1..] && IsCopy(e.cte.cap, db[h].cte.cap) ensures IsCopy(s[0].cte.cap, db[h].cte.cap) {
        var j :| i < j < |db| && db[j] == e;
        CopySymmetric(e.cte.cap, db[h].cte.cap);
        CopiesContiguous(db, h, i, j);
        CopySymmetric(db[h].cte.cap, db[i].cte.cap);
      }
    }
  }

  lemma CopyIndex(db: seq<Entry>, base: Cap, pre: seq<Entry>, cs: seq<Entry>, rest: seq<Entry>, i: nat)
    requires db == pre + cs + rest && Layout(base, pre, cs, rest) && i < |db| && IsCopy(db[i].cte.cap, base)
    ensures |pre| <= i < |pre| + |cs| && db[i] in cs
  {
    hide IsCopy;
    hide Sane;
  }

  lemma LayoutDistinct(db: seq<Entry>, pre: seq<Entry>, cs: seq<Entry>, rest: seq<Entry>)
    requires DbSane(db) && db == pre + cs + rest
    ensures Distinct(cs)
  {
    hide Ordered;
    forall i, j | 0 <= i < j < |cs| ensures cs[i].Slot() != cs[j].Slot() {
      SlotsUnique(db, |pre| + i, |pre| + j);
    }
  }
}
