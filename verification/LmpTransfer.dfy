/** Sending a message together with a capability: both arrive or neither does. Giving a
    capability away keeps the number of copies of everything but the mappings that were
    made with the slot it leaves. */
module LmpTransfer {
  import opened Wrappers
  import opened Caps
  import opened MdbOrder
  import opened Copies
  import opened CopyAttrs
  import opened Revoke
  import RbedRuns
  import opened RunQueue
  import Lmp

  /** `LeftMapping` is a success of the source too: the capability has been given away, but
      a mapping made with the source slot refused to go and has lost that slot. (If that
      mapping is on the delete list, an assertion about the list may fail instead.) */
  datatype Outcome = Sent | Refused(e: Lmp.Err) | DstCnodeInvalid | SrcLookup | DstSlotOccupied | Halt | LeftMapping

  /** The capability argument of a send: where the receiver wants it, if that place
      exists, the database index of the sender's slot, if the lookup succeeds, and
      whether the sender gives it away. */
  datatype Transfer = Transfer(dst: Option<nat>, src: Option<nat>, giveAway: bool)

  lemma CutAt(db: seq<Entry>, i: nat)
    requires i < |db|
    ensures var r := Cut(db, i); |r| == |db| - 1 && forall j :: 0 <= j < |r| ==> r[j] == db[if j < i then j else j + 1]
  {}

  lemma CutKeepsOrder(db: seq<Entry>, i: nat)
    requires Ordered(db) && i < |db|
    ensures Ordered(Cut(db, i))
  {
    hide Cut; hide CanHold;
    CutAt(db, i);
    var r := Cut(db, i);
    forall j | 0 <= j < |r| ensures Ctes(r)[j] == Ctes(db)[if j < i then j else j + 1] {}
    assert Sorted(Ctes(r));
    forall e | e in r ensures e in db {
      var j :| 0 <= j < |r| && r[j] == e;
    }
  }

  // ---------- Counting copies ----------

  function NumCopies(db: seq<Entry>, cap: Cap): nat {
    if db == [] then 0 else (if IsCopy(db[0].cte.cap, cap) then 1 else 0) + NumCopies(db[1..], cap)
  }

  lemma {:induction false} NumConcat(a: seq<Entry>, b: seq<Entry>, cap: Cap)
    ensures NumCopies(a + b, cap) == NumCopies(a, cap) + NumCopies(b, cap)
  {
    hide IsCopy;
    if a == [] {
      assert a + b == b;
    } else {
      assert (a + b)[1..] == a[1..] + b;
      NumConcat(a[1..], b, cap);
    }
  }

  lemma NumInserted(db: seq<Entry>, e: Entry, cap: Cap)
    ensures NumCopies(InsertEntry(db, e), cap) == NumCopies(db, cap) + NumCopies([e], cap)
  {
    hide NumCopies; hide Place;
    var k := Place(db, e.cte);
    assert db == db[..k] + db[k..];
    NumConcat(db[..k], db[k..], cap);
    NumConcat(db[..k], [e], cap);
    NumConcat(db[..k] + [e], db[k..], cap);
  }

  lemma NumCut(db: seq<Entry>, i: nat, cap: Cap)
    requires i < |db|
    ensures NumCopies(db, cap) == NumCopies(Cut(db, i), cap) + NumCopies([db[i]], cap)
  {
    hide NumCopies;
    assert db == db[..i] + [db[i]] + db[i + 1..];
    NumConcat(db[..i], [db[i]], cap);
    NumConcat(db[..i] + [db[i]], db[i + 1..], cap);
    NumConcat(db[..i], db[i + 1..], cap);
  }

  /** The copies of `cap` among the mappings made with the given slot. */
  function NumMaps(db: seq<Entry>, slot: nat, cap: Cap): nat {
    if db == [] then 0
    else (if Maps(db[0], {slot}) && IsCopy(db[0].cte.cap, cap) then 1 else 0) + NumMaps(db[1..], slot, cap)
  }

  lemma {:induction false} NumLive(db: seq<Entry>, slot: nat, cap: Cap)
    ensures NumCopies(Live(db, {slot}), cap) + NumMaps(db, slot, cap) == NumCopies(db, cap)
  {
    hide IsCopy; hide Maps;
    if db != [] { NumLive(db[1..], slot, cap); }
  }

  lemma {:induction false} MapsConcat(a: seq<Entry>, b: seq<Entry>, slot: nat, cap: Cap)
    ensures NumMaps(a + b, slot, cap) == NumMaps(a, slot, cap) + NumMaps(b, slot, cap)
  {
    hide IsCopy; hide Maps;
    if a == [] {
      assert a + b == b;
    } else {
      assert (a + b)[1..] == a[1..] + b;
      MapsConcat(a[1..], b, slot, cap);
    }
  }

  /** There is a copy among the mappings if and only if the count says so. */
  lemma {:induction false} NumMapsPositive(db: seq<Entry>, slot: nat, cap: Cap)
    ensures NumMaps(db, slot, cap) > 0 <==> exists e :: e in db && Maps(e, {slot}) && IsCopy(e.cte.cap, cap)
  {
    hide IsCopy; hide Maps;
    if db != [] {
      NumMapsPositive(db[1..], slot, cap);
      assert forall e :: e in db <==> e == db[0] || e in db[1..];
    }
  }

  // ---------- Deleting entries keeps the table in order ----------

  lemma {:induction false} LiveKeepsOrder(db: seq<Entry>, slots: set<nat>)
    requires Ordered(db)
    ensures Ordered(Live(db, slots))
  {
    hide Ordered;
    if db != [] {
      TailOrdered(db);
      LiveKeepsOrder(db[1..], slots);
      LiveMembers(db[1..], slots);
      if !Maps(db[0], slots) { ConsOrdered(db, Live(db[1..], slots)); }
    }
  }

  lemma TailOrdered(db: seq<Entry>)
    requires Ordered(db) && db != []
    ensures Ordered(db[1..])
  {
    CutKeepsOrder(db, 0);
    assert Cut(db, 0) == db[1..];
  }

  lemma ConsOrdered(db: seq<Entry>, r: seq<Entry>)
    requires Ordered(db) && db != [] && Ordered(r) && forall e :: e in r ==> e in db[1..]
    ensures Ordered([db[0]] + r)
  {
    var c := [db[0]] + r;
    forall j | 0 <= j < |r| ensures Before(Ctes(db)[0], Ctes(r)[j]) && r[j].Slot() != db[0].Slot() {
      assert r[j] in db[1..];
      var i :| 0 <= i < |db[1..]| && db[1..][i] == r[j];
      assert Ctes(db)[i + 1] == Ctes(r)[j] && db[i + 1] == r[j];
    }
    assert forall j :: 0 < j < |c| ==> Ctes(c)[j] == Ctes(r)[j - 1] && c[j] == r[j - 1];
    forall e | e in c ensures e in db {}
  }

  /** So does deleting mappings behind some place. */
  lemma {:induction false} LiveBehindOrdered(db: seq<Entry>, n: nat, slots: set<nat>)
    requires Ordered(db) && n <= |db|
    ensures Ordered(db[..n] + Live(db[n..], slots))
    decreases n
  {
    hide Ordered; hide Live;
    if n == 0 {
      LiveKeepsOrder(db, slots);
      assert db[..0] + Live(db[0..], slots) == Live(db, slots) by { assert db[0..] == db; }
    } else {
      var t, r := db[1..], db[1..][..n - 1] + Live(db[1..][n - 1..], slots);
      TailOrdered(db);
      LiveBehindOrdered(t, n - 1, slots);
      LiveMembers(t[n - 1..], slots);
      assert forall e :: e in r ==> e in t;
      ConsOrdered(db, r);
      assert t[n - 1..] == db[n..];
      assert db[..n] + Live(db[n..], slots) == [db[0]] + r;
    }
  }

  lemma SubKeepsAgreement(db: seq<Entry>, r: seq<Entry>)
    requires CopiesAgree(db) && forall e :: e in r ==> e in db
    ensures CopiesAgree(r)
  {
    hide IsCopy; hide SameShared;
    forall i, j | 0 <= i < |r| && 0 <= j < |r| && IsCopy(r[i].cte.cap, r[j].cte.cap)
      ensures SameShared(r[i].attr, r[j].attr)
    {
      assert r[i] in db && r[j] in db;
    }
  }

  // ---------- Moving one slot ----------

  lemma CleanedValid(db: seq<Entry>, i: nat)
    requires Ordered(db) && CopiesAgree(db) && i < |db|
    ensures Ordered(Cleaned(db, i)) && CopiesAgree(Cleaned(db, i))
  {
    hide Ordered; hide CopiesAgree; hide Live;
    var c, g := Cut(db, i), {db[i].Slot()};
    CutKeepsOrder(db, i);
    assert c[..i] == db[..i] && c[i..] == db[i + 1..];
    LiveBehindOrdered(c, i, g);
    LiveMembers(db[i + 1..], g);
    SubKeepsAgreement(db, Cleaned(db, i));
  }

  /** The database after the transfer, and the index that the source slot has after
      its copy was inserted. */
  function Copied(db: seq<Entry>, src: nat, dst: nat): seq<Entry>
    requires src < |db|
  {
    InsertEntry(db, Entry(Cte(dst, db[src].cte.cap), db[src].attr))
  }

  function SrcAfter(db: seq<Entry>, src: nat, dst: nat): (i: nat)
    requires src < |db|
    ensures i < |Copied(db, src, dst)| && Copied(db, src, dst)[i] == db[src]
  {
    if src < Place(db, Cte(dst, db[src].cte.cap)) then src else src + 1
  }

  function Moved(db: seq<Entry>, src: nat, dst: nat): seq<Entry>
    requires src < |db|
  {
    Cleaned(Copied(db, src, dst), SrcAfter(db, src, dst))
  }

  function AfterTransfer(db: seq<Entry>, src: nat, dst: nat, giveAway: bool): seq<Entry>
    requires src < |db|
  {
    if giveAway then Moved(db, src, dst) else Copied(db, src, dst)
  }

  /** What a transfer leaves: everything as before and a copy in the destination, except that
      giving away takes the source slot out, and the mappings made with it. */
  lemma TransferMeans(db: seq<Entry>, src: nat, dst: nat, giveAway: bool)
    requires Ordered(db) && src < |db| && forall e :: e in db ==> e.Slot() != dst
    requires forall k :: 0 <= k < src ==> !Maps(db[k], {db[src].Slot()})
    ensures var s, slot := db[src], db[src].Slot();
      forall e :: e in AfterTransfer(db, src, dst, giveAway) <==>
        || e == Entry(Cte(dst, s.cte.cap), s.attr)
        || (e in db && (giveAway ==>
              && e != s
              && !((s.cte.cap.typ.VNode? || s.cte.cap.typ == Frame || s.cte.cap.typ == DevFrame) && Maps(e, {slot}))))
  {
    hide Place; hide Ordered; hide Cleaned; hide Moved; hide Maps;
    var n := Entry(Cte(dst, db[src].cte.cap), db[src].attr);
    var k := Place(db, n.cte);
    assert db == db[..k] + db[k..];
    assert forall e :: e in Copied(db, src, dst) <==> e in db || e == n;
    if giveAway { GivenAway(db, src, dst); }
  }

  lemma GivenAway(db: seq<Entry>, src: nat, dst: nat)
    requires Ordered(db) && src < |db| && forall e :: e in db ==> e.Slot() != dst
    requires forall k :: 0 <= k < src ==> !Maps(db[k], {db[src].Slot()})
    ensures var s, slot := db[src], db[src].Slot();
      forall e :: e in Moved(db, src, dst) <==>
        || e == Entry(Cte(dst, s.cte.cap), s.attr)
        || (e in db && e != s && !(Unmaps(s.cte.cap.typ) && Maps(e, {slot})))
  {
    hide Place; hide Ordered; hide Copied; hide SrcAfter; hide Live;
    var s, slot, n := db[src], db[src].Slot(), Entry(Cte(dst, db[src].cte.cap), db[src].attr);
    var c, i := Copied(db, src, dst), SrcAfter(db, src, dst);
    var front, back, cfront, cback := db[..src], db[src + 1..], c[..i], c[i + 1..];
    LiveMembers(cback, {slot});
    assert db == front + [s] + back;
    forall e | e in front ensures !Maps(e, {slot}) && e != s { EarlierIsOther(db, src, e); }
    forall e | e in back ensures e != s { LaterIsOther(db, src, e); }
    AroundSource(db, src, dst);
    assert Unmaps(s.cte.cap.typ) ==> !Maps(n, {slot});
    assert Moved(db, src, dst) == if Unmaps(s.cte.cap.typ) then cfront + Live(cback, {slot}) else cfront + cback;
  }

  lemma EarlierIsOther(db: seq<Entry>, src: nat, e: Entry)
    requires Ordered(db) && src < |db| && e in db[..src]
    requires forall k :: 0 <= k < src ==> !Maps(db[k], {db[src].Slot()})
    ensures !Maps(e, {db[src].Slot()}) && e != db[src]
  {
    var k :| 0 <= k < src && db[..src][k] == e;
    assert db[k] == e;
  }

  lemma LaterIsOther(db: seq<Entry>, src: nat, e: Entry)
    requires Ordered(db) && src < |db| && e in db[src + 1..]
    ensures e != db[src]
  {
    var k :| 0 <= k < |db| - src - 1 && db[src + 1..][k] == e;
    assert db[src + 1 + k] == e;
  }

  /** The entries in front of the source and behind it, once its copy has been inserted. */
  lemma AroundSource(db: seq<Entry>, src: nat, dst: nat)
    requires src < |db|
    ensures var c, i := Copied(db, src, dst), SrcAfter(db, src, dst);
      var front, back, cfront, cback := db[..src], db[src + 1..], c[..i], c[i + 1..];
      var n := Entry(Cte(dst, db[src].cte.cap), db[src].attr);
      && (forall e :: e in cfront ==> e in front || e == n)
      && (forall e :: e in cback ==> e in back || e == n)
      && (forall e :: e in front ==> e in cfront)
      && (forall e :: e in back ==> e in cback)
      && (n in cfront || n in cback)
  {
    hide Place;
    var n := Entry(Cte(dst, db[src].cte.cap), db[src].attr);
    var c, i, k := Copied(db, src, dst), SrcAfter(db, src, dst), Place(db, n.cte);
    if src < k {
      assert c[..i] == db[..src] && c[i + 1..] == db[src + 1..k] + [n] + db[k..];
      assert db[src + 1..] == db[src + 1..k] + db[k..];
    } else {
      assert c[..i] == db[..k] + [n] + db[k..src] && c[i + 1..] == db[src + 1..];
      assert db[..src] == db[..k] + db[k..src];
    }
  }

  /** How many copies giving away costs: one for each mapping made with the source slot,
      if that holds a frame or a page table; sending a copy adds one. */
  lemma CopiesCounted(db: seq<Entry>, src: nat, dst: nat, cap: Cap)
    requires src < |db|
    ensures var e := db[src];
      NumCopies(Moved(db, src, dst), cap) + (if Unmaps(e.cte.cap.typ) then NumMaps(db[src + 1..], e.Slot(), cap) else 0)
      == NumCopies(db, cap)
    ensures NumCopies(Copied(db, src, dst), cap) == NumCopies(db, cap) + if IsCopy(db[src].cte.cap, cap) then 1 else 0
  {
    hide IsCopy; hide Cut; hide InsertEntry; hide SrcAfter; hide Live; hide NumMaps; hide Cleaned;
    var e := Entry(Cte(dst, db[src].cte.cap), db[src].attr);
    var c, i := Copied(db, src, dst), SrcAfter(db, src, dst);
    NumInserted(db, e, cap);
    NumCut(c, i, cap);
    NumCleaned(c, i, cap);
    if Unmaps(e.cte.cap.typ) { MapsBehind(db, src, dst, cap); }
  }

  lemma NumCleaned(db: seq<Entry>, i: nat, cap: Cap)
    requires i < |db|
    ensures NumCopies(Cleaned(db, i), cap)
      + (if Unmaps(db[i].cte.cap.typ) then NumMaps(db[i + 1..], db[i].Slot(), cap) else 0)
      == NumCopies(Cut(db, i), cap)
  {
    hide IsCopy; hide NumCopies; hide NumMaps; hide Live;
    var r, slot := db[i + 1..], db[i].Slot();
    NumConcat(db[..i], r, cap);
    NumConcat(db[..i], Live(r, {slot}), cap);
    NumLive(r, slot, cap);
  }

  /** The copy that was inserted is no mapping. */
  lemma MapsBehind(db: seq<Entry>, src: nat, dst: nat, cap: Cap)
    requires src < |db| && Unmaps(db[src].cte.cap.typ)
    ensures var c, i, slot := Copied(db, src, dst), SrcAfter(db, src, dst), db[src].Slot();
      NumMaps(c[i + 1..], slot, cap) == NumMaps(db[src + 1..], slot, cap)
  {
    hide Place; hide IsCopy;
    var e := Entry(Cte(dst, db[src].cte.cap), db[src].attr);
    var c, i, k, slot := Copied(db, src, dst), SrcAfter(db, src, dst), Place(db, e.cte), db[src].Slot();
    assert NumMaps([e], slot, cap) == 0;
    hide NumMaps;
    if src < k {
      var a, b := db[src + 1..k], db[k..];
      assert db[src + 1..] == a + b && c[i + 1..] == a + [e] + b;
      MapsConcat(a, b, slot, cap);
      MapsConcat(a, [e], slot, cap);
      MapsConcat(a + [e], b, slot, cap);
    } else {
      assert c[i + 1..] == db[src + 1..];
    }
  }

  /** Giving away keeps the number of copies of a capability if and only if none of its
      copies is a mapping that was made with the source slot and is deleted with it. */
  lemma CopiesConserved(db: seq<Entry>, src: nat, dst: nat, cap: Cap)
    requires src < |db|
    ensures NumCopies(Moved(db, src, dst), cap) == NumCopies(db, cap) <==>
      !(Unmaps(db[src].cte.cap.typ) && exists e ::
        e in db[src + 1..] && Maps(e, {db[src].Slot()}) && IsCopy(e.cte.cap, cap))
    ensures !IsMapping(cap.typ) ==> NumCopies(Moved(db, src, dst), cap) == NumCopies(db, cap)
  {
    hide Moved; hide NumCopies; hide NumMaps;
    CopiesCounted(db, src, dst, cap);
    NumMapsPositive(db[src + 1..], db[src].Slot(), cap);
  }

  /** So the deletion after the copy takes the path for a capability that has copies. */
  lemma SourceHasCopy(db: seq<Entry>, src: nat, dst: nat)
    requires src < |db| && Ordered(Copied(db, src, dst)) && db[src].Slot() != dst
      && IsCopy(db[src].cte.cap, db[src].cte.cap)
    ensures HasCopies(Copied(db, src, dst), SrcAfter(db, src, dst))
  {
    hide IsCopy; hide Ordered; hide HasCopies; hide Place;
    var c, k, i := Copied(db, src, dst), Place(db, Cte(dst, db[src].cte.cap)), SrcAfter(db, src, dst);
    assert c[k].cte == Cte(dst, db[src].cte.cap);
    HasCopiesCorrect(c, i);
  }

  /** What lmp_transfer_cap answers, from the state before the call. The kernel halts when
      the source is being deleted, and when a locked capability is given away: its
      copy has been inserted, but the deletion that follows is refused. */
  ghost function Transferred(db: seq<Entry>, t: Transfer, myCore: nat): (r: Outcome)
    requires t.src.Some? ==> t.src.value < |db|
  {
    if t.dst.None? then DstCnodeInvalid
    else if t.src.None? then SrcLookup
    else if Occupied(db, t.dst.value) then DstSlotOccupied
    else if db[t.src.value].attr.inDelete || (t.giveAway && db[t.src.value].attr.locked) then Halt
    else if && t.giveAway
            && !Unmappable(Copied(db, t.src.value, t.dst.value), SrcAfter(db, t.src.value, t.dst.value), myCore)
      then LeftMapping
    else Sent
  }

  /** What lmp_deliver answers. `via` is the slot of the end point that was invoked, which
      is read again after the transfer; `wakes` tells whether the receiver can be made
      runnable. */
  ghost function Answer(db: seq<Entry>, can: Lmp.Err, transfer: Option<Transfer>, via: Option<nat>, wakes: bool,
                        myCore: nat): (r: Outcome)
    requires transfer.Some? && transfer.value.src.Some? ==> transfer.value.src.value < |db|
  {
    var moved := if transfer.Some? then Transferred(db, transfer.value, myCore) else Sent;
    if can != Lmp.Ok then Refused(can)
    else if moved != Sent && moved != LeftMapping then moved
    else if transfer.Some? && Itself(db, transfer.value, via) then Halt
    else if !wakes then Halt
    else moved
  }

  /** The end point that was invoked is given away. */
  predicate Itself(db: seq<Entry>, t: Transfer, via: Option<nat>)
    requires t.src.Some? ==> t.src.value < |db|
  {
    t.giveAway && t.src.Some? && via == Some(db[t.src.value].Slot())
  }

  /** When the kernel halts: the message fits, the two places of the transfer are fine, and
      the receiver cannot be made runnable, or the source is being deleted, or it is given
      away and is locked or the very end point that was invoked. */
  lemma HaltsIff(db: seq<Entry>, can: Lmp.Err, transfer: Option<Transfer>, via: Option<nat>, wakes: bool, myCore: nat)
    requires transfer.Some? && transfer.value.src.Some? ==> transfer.value.src.value < |db|
    ensures Answer(db, can, transfer, via, wakes, myCore) == Halt <==>
      && can == Lmp.Ok
      && (transfer.Some? ==>
            var t := transfer.value; t.dst.Some? && t.src.Some? && !Occupied(db, t.dst.value))
      && (|| !wakes
          || (transfer.Some? &&
                var t := transfer.value;
                var e := db[t.src.value];
                e.attr.inDelete || (t.giveAway && (e.attr.locked || via == Some(e.Slot())))))
  {
    hide Unmappable; hide Copied; hide SrcAfter;
  }

  const PLAIN := Attr(0, false, false, false, false, false)
  const ENDP := Entry(Cte(5, Cap(EndPoint, 0, 0, 0, 0, 0, 0)), PLAIN)

  /** An end point that is sent through itself arrives, unless it is given away: then the
      kernel halts although nothing is locked and the receiver could be woken. */
  lemma GivenAwayThroughItself(dst: nat)
    requires dst != 5
    ensures Ordered([ENDP]) && CopiesAgree([ENDP])
    ensures Answer([ENDP], Lmp.Ok, Some(Transfer(Some(dst), Some(0), true)), Some(5), true, 0) == Halt
    ensures Answer([ENDP], Lmp.Ok, Some(Transfer(Some(dst), Some(0), false)), Some(5), true, 0) == Sent
    ensures Answer([ENDP], Lmp.Ok, Some(Transfer(Some(dst), Some(0), true)), None, true, 0) == Sent
  {
    hide Compare; hide Copied; hide SrcAfter; hide Unmappable;
    EndPointGoes(dst);
  }

  lemma EndPointGoes(dst: nat)
    ensures Unmappable(Copied([ENDP], 0, dst), SrcAfter([ENDP], 0, dst), 0)
  {
    hide AllGo; hide Place;
  }

  /** The last case is told by the mappings behind the source slot: it happens if and only
      if one of them is locked, being deleted or shared with other cores. */
  lemma LeftMappingIff(db: seq<Entry>, src: nat, dst: nat, myCore: nat)
    requires src < |db| && MappingsAgree(db)
    ensures !Unmappable(Copied(db, src, dst), SrcAfter(db, src, dst), myCore) <==>
      Unmaps(db[src].cte.cap.typ) && exists e :: e in db[src + 1..] && Maps(e, {db[src].Slot()}) && !Goes(e, myCore)
  {
    hide AllGo; hide Goes; hide IsCopy; hide InsertEntry; hide MappingsAgree; hide Place;
    var c, i, slot := Copied(db, src, dst), SrcAfter(db, src, dst), db[src].Slot();
    if Unmaps(db[src].cte.cap.typ) {
      BehindMembers(db, src, dst);
      InsertedAgree(db, Entry(Cte(dst, db[src].cte.cap), db[src].attr));
      SubAgree(c, c[i + 1..]);
      AllGoIff(c, i + 1, |c|, slot, myCore);
      GoUpToEnd(c, i + 1, slot, myCore);
    }
  }

  lemma BehindMembers(db: seq<Entry>, src: nat, dst: nat)
    requires src < |db|
    ensures var c, i := Copied(db, src, dst), SrcAfter(db, src, dst);
      var e := Entry(Cte(dst, db[src].cte.cap), db[src].attr);
      var was, now := db[src + 1..], c[i + 1..];
      && (forall x :: x in was ==> x in now)
      && (forall x :: x in now ==> x == e || x in was)
  {
    hide Place;
    var e := Entry(Cte(dst, db[src].cte.cap), db[src].attr);
    var c, i, k := Copied(db, src, dst), SrcAfter(db, src, dst), Place(db, e.cte);
    if src < k {
      assert db[src + 1..] == db[src + 1..k] + db[k..] && c[i + 1..] == db[src + 1..k] + [e] + db[k..];
    } else {
      assert c[i + 1..] == db[src + 1..];
    }
  }

  lemma InsertedAgree(db: seq<Entry>, e: Entry)
    requires MappingsAgree(db) && !IsMapping(e.cte.cap.typ)
    ensures MappingsAgree(InsertEntry(db, e))
  {
    hide IsCopy; hide Place;
    var k := Place(db, e.cte);
    assert db == db[..k] + db[k..];
    forall a: Entry, b: Entry | IsMapping(a.cte.cap.typ) && IsCopy(a.cte.cap, b.cte.cap)
      ensures IsMapping(b.cte.cap.typ)
    {
      CopyType(a.cte.cap, b.cte.cap);
    }
  }

  lemma CopyType(a: Cap, b: Cap)
    requires IsCopy(a, b)
    ensures a.typ == b.typ
  {}

  predicate Occupied(db: seq<Entry>, slot: nat) { exists i :: 0 <= i < |db| && db[i].Slot() == slot }

  /** lmp_transfer_cap. */
  method TransferCap(table: SlotTable, t: Transfer) returns (r: Outcome)
    requires table.Valid() && (t.src.Some? ==> t.src.value < |table.db|)
    modifies table
    ensures r == Transferred(old(table.db), t, table.myCore)
    ensures r != Halt && r != LeftMapping ==> table.Valid()
    ensures r != Halt && r != LeftMapping && r != Sent ==> table.db == old(table.db)
    ensures r == Sent ==> table.db == AfterTransfer(old(table.db), t.src.value, t.dst.value, t.giveAway)
  {
    hide Ordered; hide CopiesAgree; hide Place; hide HasCopies; hide IsCopy; hide Cleaned; hide Unmappable;
    if t.dst.None? { return DstCnodeInvalid; }
    if t.src.None? { return SrcLookup; }
    var dst, src := t.dst.value, t.src.value;
    if Occupied(table.db, dst) { return DstSlotOccupied; }
    if table.db[src].attr.inDelete { return Halt; }
    ghost var db := table.db;
    SelfIsCopy(db, src);
    var locked, i := table.db[src].attr.locked, SrcAfter(table.db, src, dst);
    var ok := table.CopyToCte(dst, src);
    assert ok by { assert forall e :: e in db ==> e.Slot() != dst; }
    if t.giveAway {
      if locked { return Halt; }
      SourceHasCopy(db, src, dst);
      assert HasCopies(table.db, i);
      CleanedValid(table.db, i);
      if !Unmappable(table.db, i, table.myCore) { return LeftMapping; }
      table.db := Cleaned(table.db, i);
    }
    r := Sent;
  }

  /** lmp_deliver_payload: the message is appended to the ring and its receiver made
      runnable, at once if the caller is in a hurry. Not ok is the halt of make_runnable. */
  method DeliverAndWake(ep: Lmp.Endpoint, kernel: Kernel, recv: Dcb, now: nat, payload: seq<nat>, captransfer: bool,
                        hurry: bool) returns (e: Lmp.Err, ok: bool)
    requires kernel.Valid() && recv in kernel.dcbs
    modifies ep`delivered, ep.buf, kernel, kernel.dcbs`next, recv`task
    ensures kernel.dcbs == old(kernel.dcbs) && e == old(ep.CanDeliver(|payload|))
    ensures ok <==>
      e != Lmp.Ok || RbedRuns.MakeRunnable(old(kernel.Abs(now)), old(recv.task), now, kernel.timeslice).Some?
    ensures e != Lmp.Ok ==> ep.delivered == old(ep.delivered) && ep.buf[..] == old(ep.buf[..])
    ensures e != Lmp.Ok ==> kernel.Valid() && kernel.Abs(now) == old(kernel.Abs(now))
    ensures e == Lmp.Ok ==> ep.InRange() && ep.Words() == old(ep.Words()) + Lmp.Encode(Lmp.Msg(payload, captransfer))
    ensures e == Lmp.Ok && ok ==> kernel.Valid() && recv in kernel.q
    ensures e == Lmp.Ok && ok ==>
      var s := RbedRuns.MakeRunnable(old(kernel.Abs(now)), old(recv.task), now, kernel.timeslice).value;
      kernel.Abs(now) == if hurry then RbedRuns.Hurry(s, recv.id, now) else s
  {
    hide Kernel.Valid; hide Kernel.Abs; hide RbedRuns.MakeRunnable; hide RbedRuns.Hurry;
    hide Lmp.Encode; hide Lmp.Unread;
    e := ep.DeliverPayload(payload, captransfer);
    ok := true;
    if e == Lmp.Ok {
      if hurry { ok := kernel.Awaken(recv, now); } else { ok := kernel.MakeRunnable(recv, now); }
    }
  }

  /** lmp_deliver: unless the kernel halts, the message and its capability both arrive and
      the receiver is runnable, or the answer is an error and nothing has changed. What
      becomes of the database once a mapping has lost its slot is not said. */
  method LmpDeliver(table: SlotTable, ep: Lmp.Endpoint, kernel: Kernel, recv: Dcb, now: nat, payload: seq<nat>,
                    transfer: Option<Transfer>, via: Option<nat>) returns (r: Outcome)
    requires table.Valid() && kernel.Valid() && recv in kernel.dcbs
    requires transfer.Some? && transfer.value.src.Some? ==> transfer.value.src.value < |table.db|
    modifies table, ep`delivered, ep.buf, kernel, kernel.dcbs`next, recv`task
    ensures var woken := RbedRuns.MakeRunnable(old(kernel.Abs(now)), old(recv.task), now, kernel.timeslice);
      && r == Answer(old(table.db), old(ep.CanDeliver(|payload|)), transfer, via, woken.Some?, table.myCore)
      && (r == Sent || r == LeftMapping ==> kernel.Valid() && kernel.Abs(now) == woken.value && recv in kernel.q)
    ensures r != Halt && r != LeftMapping ==> table.Valid()
    ensures r != Halt && r != LeftMapping && r != Sent ==>
              table.db == old(table.db) && ep.delivered == old(ep.delivered) && ep.buf[..] == old(ep.buf[..])
    ensures r != Halt && r != LeftMapping && r != Sent ==> kernel.Valid() && kernel.Abs(now) == old(kernel.Abs(now))
    ensures r == Sent || r == LeftMapping ==>
      ep.InRange() && ep.Words() == old(ep.Words()) + Lmp.Encode(Lmp.Msg(payload, transfer.Some?))
    ensures r == Sent && transfer.None? ==> table.db == old(table.db)
    ensures r == Sent && transfer.Some? ==>
              table.db == AfterTransfer(old(table.db), transfer.value.src.value, transfer.value.dst.value,
                transfer.value.giveAway)
  {
    hide Ordered; hide CopiesAgree; hide AfterTransfer; hide Lmp.Encode; hide Lmp.Unread; hide Occupied;
    hide Kernel.Valid; hide Kernel.Abs; hide RbedRuns.MakeRunnable; hide Transferred;
    r := Sent;
    if transfer.Some? {
      var can := ep.CanDeliver(|payload|);
      if can != Lmp.Ok { return Refused(can); }
      var itself := Itself(table.db, transfer.value, via);
      r := TransferCap(table, transfer.value);
      if r != Sent && r != LeftMapping { return; }
      // the end point's slot has been emptied, so it is none any more
      if itself { return Halt; }
    }
    var e, ok := DeliverAndWake(ep, kernel, recv, now, payload, transfer.Some?, false);
    if e != Lmp.Ok { r := Refused(e); } else if !ok { r := Halt; }
  }
}
