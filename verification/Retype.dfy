/** caps_retype: cutting new objects out of a memory capability. */
module Retype {
  import opened Wrappers
  import opened Caps
  import opened MdbOrder
  import opened MdbTree
  import opened MdbUpdate
  import opened MdbQuery
  import opened MdbRange
  import opened Forest

  const BASE_PAGE_SIZE := 4096

  datatype Err =
    | Ok | InvalidRetype | InvalidOffset | InvalidSize | MappingExplicit | RevokeFirst
    | RetryThroughMonitor | InvalidCount | SlotsInvalid | SlotsInUse | SlotInUse
    | DivisionByZero

  predicate IsMappable(t: ObjType) { t == Frame || t == DevFrame || t.VNode? }

  /** The extent an object of this type really gets: caps_create lays page tables
      and dispatchers out with their own size, whatever `objsize` says. */
  function RealSize(t: ObjType, objsize: nat): nat {
    if FixedSize(t).Some? then FixedSize(t).value else objsize
  }

  /** How many objects of size `k` fit. */
  function Fit(srcsize: nat, k: nat): (q: nat)
    requires k > 0
    ensures q * k <= srcsize < (q + 1) * k
  {
    assert srcsize == (srcsize / k) * k + srcsize % k;
    srcsize / k
  }

  /** caps_max_numobjs for the types that a retype can reach; None stands for the
      division by a zero `objsize`. The objects it admits fit into the source. */
  function MaxNumObjs(t: ObjType, srcsize: nat, objsize: nat): (r: Option<nat>)
    ensures r.Some? && IsObject(t) ==> r.value * RealSize(t, objsize) <= srcsize
    ensures r.Some? && r.value > 0 && IsObject(t) ==> RealSize(t, objsize) > 0
    ensures r.None? ==> objsize == 0
  {
    if t.PhysAddr? || t.RAM? || t.Frame? || t.DevFrame? then
      if objsize > srcsize then Some(0) else if objsize == 0 then None else Some(Fit(srcsize, objsize))
    else if t.L1CNode? then
      if srcsize < OBJSIZE_L2CNODE || objsize < OBJSIZE_L2CNODE then Some(0) else Some(Fit(srcsize, objsize))
    else if t.L2CNode? && objsize != OBJSIZE_L2CNODE then Some(0)
    else if IsObject(t) then
      var k := RealSize(t, objsize);
      if srcsize < k then Some(0) else Some(Fit(srcsize, k))
    else Some(1)
  }

  /** It is the largest number that fits. It is zero if the source is too small for one
      object, or the size of the CNode is not allowed, and there is none if a size of zero
      is given for memory, whose objects are as large as the caller says. */
  lemma MaxNumObjsMeans(t: ObjType, srcsize: nat, objsize: nat)
    requires IsObject(t)
    ensures var r, k := MaxNumObjs(t, srcsize, objsize), RealSize(t, objsize);
      && (r == None <==> objsize == 0 && (t == PhysAddr || t == RAM || t == Frame || t == DevFrame))
      && (r == Some(0) <==>
            || srcsize < k
            || (t == L1CNode && objsize < OBJSIZE_L2CNODE)
            || (t == L2CNode && objsize != OBJSIZE_L2CNODE))
      && (r.Some? && r.value > 0 ==> r.value * k <= srcsize < (r.value + 1) * k)
  {}

  /** The extent of `count` objects in a row. */
  function Span(count: nat, objsize: nat): nat { count * objsize }

  /** is_revoked_first: a dispatcher can be retyped again and again. */
  predicate IsRevokedFirst(db: Tree, src: Cte) {
    if src.cap.typ.Dispatcher? then true
    else if FromSelf(src.cap.typ) || src.cap.typ.VNode? then !HasDescendants(db, src)
    else false
  }

  function IsRetypeable(db: Tree, src: Cte, attr: Attr, dst: ObjType, fromMonitor: bool, myCore: nat): (r: Err) {
    if !WellFounded(src.cap.typ, dst) then InvalidRetype
    else if !IsRevokedFirst(db, src) then RevokeFirst
    else if dst.EndPoint? && attr.owner == myCore then Ok
    else if !fromMonitor && (attr.owner != myCore || attr.remoteDescs) then RetryThroughMonitor
    else Ok
  }

  /** Everything caps_retype checks before it looks at the destination slots. */
  function Checks(db: Tree, src: Cte, attr: Attr, t: ObjType, objsize: nat, count: nat, offset: nat,
                  fromMonitor: bool, myCore: nat): (r: Err)
  {
    var baseSize := if t.VNode? then VNodeSize(t.kind) else BASE_PAGE_SIZE;
    if offset % BASE_PAGE_SIZE != 0 then InvalidOffset
    else if IsMappable(t) && objsize % baseSize != 0 then InvalidSize
    else if t.L1CNode? && objsize % OBJSIZE_L2CNODE != 0 then InvalidSize
    else if t.L2CNode? && objsize != OBJSIZE_L2CNODE then InvalidSize
    else if IsMapping(t) then MappingExplicit
    else
      var err := IsRetypeable(db, src, attr, t, fromMonitor, myCore);
      if err != Ok && err != RevokeFirst then err
      else
        var maxobjs := MaxNumObjs(t, src.cap.size, objsize);
        if maxobjs.None? then DivisionByZero
        else if maxobjs.value == 0 then InvalidSize
        else if count > maxobjs.value then InvalidCount
        else if count == 0 then InvalidCount
        else if src.cap.typ.Dispatcher? then Ok
        else if offset + Span(count, objsize) > src.cap.size then InvalidOffset
        else if err == RevokeFirst && !RangeFree(db, src.cap, src.cap.addr + offset, Span(count, objsize))
          then RevokeFirst
        else Ok
  }

  /** A source that another core owns, or that has descendants on other cores, must be
      retyped through the monitor. But that is looked at only once the source has no local
      descendants: without the monitor such a retype is admitted if and only if there are
      some, and the monitor would be admitted. */
  lemma ForeignRetypeIff(db: Tree, src: Cte, attr: Attr, t: ObjType, objsize: nat, count: nat, offset: nat, myCore: nat)
    requires IsObject(t) && (attr.owner != myCore || attr.remoteDescs)
    ensures Checks(db, src, attr, t, objsize, count, offset, false, myCore) == Ok <==>
      && HasDescendants(db, src)
      && Checks(db, src, attr, t, objsize, count, offset, true, myCore) == Ok
  {
    hide HasDescendants; hide RangeFree; hide MaxNumObjs; hide Span;
  }

  /** The `i`-th new capability. */
  function NewCap(t: ObjType, base: nat, objsize: nat, i: nat): Cap {
    var size := RealSize(t, objsize);
    Cap(t, base + Span(i, size), size, 0, 0, 0, 0)
  }

  function Position(k: nat, dest: nat): nat
    requires dest <= k
  {
    k - dest
  }

  /** The new capabilities number `from` up to `to`, in their slots. */
  function NewSlots(t: ObjType, base: nat, objsize: nat, from: nat, to: nat, dest: nat): map<nat, Cap> {
    map k: nat {:trigger Position(k, dest)} | dest + from <= k < dest + to ::
      NewCap(t, base, objsize, Position(k, dest))
  }

  ghost function NewCtes(t: ObjType, base: nat, objsize: nat, count: nat, dest: nat): seq<Cte> {
    seq(count, i requires 0 <= i < count => Cte(dest + i, NewCap(t, base, objsize, i)))
  }

  // ---------- What the checks guarantee ----------

  lemma ChecksMean(db: Tree, src: Cte, attr: Attr, t: ObjType, objsize: nat, count: nat, offset: nat,
                   fromMonitor: bool, myCore: nat)
    requires Checks(db, src, attr, t, objsize, count, offset, fromMonitor, myCore) == Ok && IsObject(t)
    ensures IsObject(src.cap.typ) && FromSelf(src.cap.typ) && WellFounded(src.cap.typ, t)
    ensures 0 < count && 0 < RealSize(t, objsize)
    ensures offset + Span(count, objsize) <= src.cap.size
    ensures !HasDescendants(db, src) || RangeFree(db, src.cap, src.cap.addr + offset, Span(count, objsize))
  {
    hide HasDescendants;
    hide RangeFree;
    hide Span;
  }

  /** The caller says a size that the type allows. */
  predicate SizeAllowed(t: ObjType, objsize: nat) {
    match t
    case PhysAddr => objsize > 0
    case RAM => objsize > 0
    case Frame => objsize > 0 && objsize % BASE_PAGE_SIZE == 0
    case DevFrame => objsize > 0 && objsize % BASE_PAGE_SIZE == 0
    case L1CNode => objsize > 0 && objsize % OBJSIZE_L2CNODE == 0
    case L2CNode => objsize == OBJSIZE_L2CNODE
    case VNode(k) => objsize % VNodeSize(k) == 0
    case _ => true
  }

  /** The source is retyped by its own core alone, or by the monitor. A source with local
      descendants is not asked for that. */
  predicate MayRetype(db: Tree, src: Cte, attr: Attr, fromMonitor: bool, myCore: nat) {
    fromMonitor || HasDescendants(db, src) || (attr.owner == myCore && !attr.remoteDescs)
  }

  /** When memory may be retyped. The offset is aligned and the size allowed, the type is one
      step from that of the source, the objects fit into it, both with their own size and
      with that given by the caller, and the region asked for is free. */
  lemma ChecksIff(db: Tree, src: Cte, attr: Attr, t: ObjType, objsize: nat, count: nat, offset: nat,
                  fromMonitor: bool, myCore: nat)
    requires IsObject(t)
    ensures Checks(db, src, attr, t, objsize, count, offset, fromMonitor, myCore) == Ok <==>
      && offset % BASE_PAGE_SIZE == 0 && SizeAllowed(t, objsize) && WellFounded(src.cap.typ, t)
      && MayRetype(db, src, attr, fromMonitor, myCore)
      && 0 < count && count * RealSize(t, objsize) <= src.cap.size
      && offset + count * objsize <= src.cap.size
      && (HasDescendants(db, src) ==> RangeFree(db, src.cap, src.cap.addr + offset, count * objsize))
  {
    hide HasDescendants; hide RangeFree; hide MaxNumObjs; hide RealSize; hide Span; hide WellFounded; hide IsRetypeable;
    hide MayRetype;
    assert Span(count, objsize) == count * objsize by { SpanMeans(count, objsize); }
    CountAllowed(t, src.cap.size, objsize, count);
    RetypeableIff(db, src, attr, t, fromMonitor, myCore);
  }

  lemma RetypeableIff(db: Tree, src: Cte, attr: Attr, t: ObjType, fromMonitor: bool, myCore: nat)
    requires IsObject(t)
    ensures var r := IsRetypeable(db, src, attr, t, fromMonitor, myCore);
      && (r == Ok || r == RevokeFirst <==> WellFounded(src.cap.typ, t) && MayRetype(db, src, attr, fromMonitor, myCore))
      && (r == RevokeFirst <==> WellFounded(src.cap.typ, t) && HasDescendants(db, src))
      && (WellFounded(src.cap.typ, t) ==> !src.cap.typ.Dispatcher?)
  {
    hide HasDescendants; hide WellFounded;
    if WellFounded(src.cap.typ, t) { ObjectSource(src.cap.typ, t); }
  }

  lemma SpanMeans(count: nat, objsize: nat)
    ensures Span(count, objsize) == count * objsize
  {}

  lemma ObjectSource(s: ObjType, t: ObjType)
    requires IsObject(t) && WellFounded(s, t)
    ensures FromSelf(s)
  {}

  lemma CountAllowed(t: ObjType, srcsize: nat, objsize: nat, count: nat)
    requires IsObject(t)
    ensures var r := MaxNumObjs(t, srcsize, objsize);
      && (SizeAllowed(t, objsize) ==>
            (r.Some? && 0 < count <= r.value <==> 0 < count && count * RealSize(t, objsize) <= srcsize))
      && (r.Some? && r.value > 0 && (t == PhysAddr || t == RAM || t == Frame || t == DevFrame || t == L1CNode) ==>
            objsize > 0)
  {
    hide MaxNumObjs;
    var r, k := MaxNumObjs(t, srcsize, objsize), RealSize(t, objsize);
    MaxNumObjsMeans(t, srcsize, objsize);
    if r.Some? && r.value > 0 {
      CountFits(count, r.value, k, srcsize);
    } else if count > 0 {
      Times(count, k);
    }
  }

  lemma Times(n: nat, k: nat)
    requires n > 0
    ensures n * k >= k
  {}

  lemma CountFits(count: nat, max: nat, k: nat, size: nat)
    requires max * k <= size < (max + 1) * k
    ensures count <= max <==> count * k <= size
  {
    if count <= max { Grows(count, max, k); } else { Grows(max + 1, count, k); }
  }

  lemma Grows(m: nat, n: nat, k: nat)
    requires m <= n
    ensures m * k <= n * k
  {}

  /** The source has to be revoked first exactly if all is well but that the region is taken. */
  lemma RevokeFirstIff(db: Tree, src: Cte, attr: Attr, t: ObjType, objsize: nat, count: nat, offset: nat,
                       fromMonitor: bool, myCore: nat)
    requires IsObject(t)
    ensures Checks(db, src, attr, t, objsize, count, offset, fromMonitor, myCore) == RevokeFirst <==>
      && offset % BASE_PAGE_SIZE == 0 && SizeAllowed(t, objsize) && WellFounded(src.cap.typ, t)
      && 0 < count && count * RealSize(t, objsize) <= src.cap.size
      && offset + count * objsize <= src.cap.size
      && HasDescendants(db, src) && !RangeFree(db, src.cap, src.cap.addr + offset, count * objsize)
  {
    hide HasDescendants; hide RangeFree; hide MaxNumObjs; hide RealSize; hide Span; hide WellFounded; hide IsRetypeable;
    hide MayRetype;
    assert Span(count, objsize) == count * objsize by { SpanMeans(count, objsize); }
    CountAllowed(t, src.cap.size, objsize, count);
    RetypeableIff(db, src, attr, t, fromMonitor, myCore);
    RetypeableMeans(db, src, attr, t, fromMonitor, myCore);
  }

  /** What any other refusal means: by type, owner and division, */
  lemma RefusalsMean(db: Tree, src: Cte, attr: Attr, t: ObjType, objsize: nat, count: nat, offset: nat,
                     fromMonitor: bool, myCore: nat)
    requires IsObject(t)
    ensures var r := Checks(db, src, attr, t, objsize, count, offset, fromMonitor, myCore);
      && (r == InvalidRetype ==> !WellFounded(src.cap.typ, t))
      && (r == RetryThroughMonitor ==>
            !fromMonitor && !HasDescendants(db, src) && (attr.owner != myCore || attr.remoteDescs))
      && (r == DivisionByZero ==> objsize == 0 && (t == PhysAddr || t == RAM || t == Frame || t == DevFrame))
  {
    hide IsRetypeable; hide RangeFree; hide MaxNumObjs; hide RealSize; hide Span; hide WellFounded; hide HasDescendants;
    CountRefused(t, src.cap.size, objsize, count);
    RetypeableMeans(db, src, attr, t, fromMonitor, myCore);
  }

  lemma RetypeableMeans(db: Tree, src: Cte, attr: Attr, t: ObjType, fromMonitor: bool, myCore: nat)
    requires IsObject(t)
    ensures var r := IsRetypeable(db, src, attr, t, fromMonitor, myCore);
      && (r == InvalidRetype ==> !WellFounded(src.cap.typ, t))
      && (r == RetryThroughMonitor ==>
            !fromMonitor && !HasDescendants(db, src) && (attr.owner != myCore || attr.remoteDescs))
      && (r == Ok || r == RevokeFirst || r == InvalidRetype || r == RetryThroughMonitor)
  {
    hide HasDescendants; hide WellFounded;
    if WellFounded(src.cap.typ, t) { ObjectSource(src.cap.typ, t); }
  }

  /** and by size, count and offset. */
  lemma SizeRefusalsMean(db: Tree, src: Cte, attr: Attr, t: ObjType, objsize: nat, count: nat, offset: nat,
                         fromMonitor: bool, myCore: nat)
    requires IsObject(t)
    ensures var r, size := Checks(db, src, attr, t, objsize, count, offset, fromMonitor, myCore), RealSize(t, objsize);
      && (r == InvalidSize ==> size > src.cap.size || !SizeAllowed(t, objsize))
      && (r == InvalidCount ==> size <= src.cap.size && (count == 0 || count * size > src.cap.size))
      && (r == InvalidOffset ==> offset % BASE_PAGE_SIZE != 0 || offset + count * objsize > src.cap.size)
  {
    hide IsRetypeable; hide RangeFree; hide MaxNumObjs; hide RealSize; hide Span;
    CountRefused(t, src.cap.size, objsize, count);
    assert Span(count, objsize) == count * objsize by { SpanMeans(count, objsize); }
    RetypeableMeans(db, src, attr, t, fromMonitor, myCore);
  }

  lemma CountRefused(t: ObjType, srcsize: nat, objsize: nat, count: nat)
    requires IsObject(t)
    ensures var r, size := MaxNumObjs(t, srcsize, objsize), RealSize(t, objsize);
      && (r == None ==> objsize == 0 && (t == PhysAddr || t == RAM || t == Frame || t == DevFrame))
      && (r == Some(0) ==> size > srcsize || !SizeAllowed(t, objsize))
      && (r.Some? && r.value > 0 ==> size <= srcsize && (count > r.value <==> count * size > srcsize))
  {
    hide MaxNumObjs;
    MaxNumObjsMeans(t, srcsize, objsize);
    var r, size := MaxNumObjs(t, srcsize, objsize), RealSize(t, objsize);
    if r.Some? && r.value > 0 {
      CountFits(count, r.value, size, srcsize);
      Times(r.value, size);
    }
  }

  /** Neither mappings nor types outside the tree of memory can be the result of a retype. */
  lemma OnlyObjects(db: Tree, src: Cte, attr: Attr, t: ObjType, objsize: nat, count: nat, offset: nat,
                    fromMonitor: bool, myCore: nat)
    requires t.FrameMapping? || t.DevFrameMapping? || t.VNodeMapping? || TypeRoot(t) != 1
    ensures Checks(db, src, attr, t, objsize, count, offset, fromMonitor, myCore) != Ok
  {
    hide HasDescendants; hide RangeFree; hide MaxNumObjs; hide Span;
  }

  /** A dispatcher may be retyped to one end point, whatever size is given, unless other
      cores have to know. */
  lemma EndPointIff(db: Tree, src: Cte, attr: Attr, objsize: nat, count: nat, offset: nat, fromMonitor: bool,
                    myCore: nat)
    ensures Checks(db, src, attr, EndPoint, objsize, count, offset, fromMonitor, myCore) == Ok <==>
      && offset % BASE_PAGE_SIZE == 0 && src.cap.typ == Dispatcher && count == 1
      && (fromMonitor || attr.owner == myCore)
  {
    hide HasDescendants; hide RangeFree;
  }

  lemma PlaceOfNew(size: nat, objsize: nat, count: nat, i: nat)
    requires i < count && size <= objsize
    ensures Span(i, size) + size <= Span(count, size) <= Span(count, objsize)
  {
    assert Span(i, size) + size == (i + 1) * size;
    assert (i + 1) * size <= count * size;
  }

  lemma NewDisjoint(t: ObjType, base: nat, objsize: nat, i: nat, j: nat)
    requires i < j
    ensures NewCap(t, base, objsize, i).End() <= NewCap(t, base, objsize, j).addr
  {
    var size := RealSize(t, objsize);
    PlaceOfNew(size, size, j, i);
  }

  lemma NewAreCut(src: Cap, t: ObjType, objsize: nat, count: nat, offset: nat, i: nat)
    requires IsObject(t) && WellFounded(src.typ, t) && 0 < RealSize(t, objsize) <= objsize
    requires offset + Span(count, objsize) <= src.size && i < count
    ensures var n := NewCap(t, src.addr + offset, objsize, i);
      CutFrom(n, src) && src.addr + offset <= n.addr && n.End() <= src.addr + offset + Span(count, objsize)
  {
    hide Span;
    PlaceOfNew(RealSize(t, objsize), objsize, count, i);
  }

  /** Main result: with objects no larger than `objsize` says, an admitted retype
      leaves the new objects pairwise disjoint inside the source and the database
      a forest, whether or not the source already had descendants. */
  lemma RetypeKeepsForest(db: Tree, src: Cte, attr: Attr, t: ObjType, objsize: nat, count: nat, offset: nat,
                          fromMonitor: bool, myCore: nat, dest: nat, s': seq<Cte>)
    requires Inv(db) && AllWellFormed(Contents(db)) && IsForest(Contents(db)) && src in Contents(db)
    requires Checks(db, src, attr, t, objsize, count, offset, fromMonitor, myCore) == Ok && IsObject(t)
    requires RealSize(t, objsize) <= objsize
    requires forall e :: e in s' <==> e in Contents(db) || e in NewCtes(t, src.cap.addr + offset, objsize, count, dest)
    ensures IsForest(s')
    ensures CutOut(NewCtes(t, src.cap.addr + offset, objsize, count, dest), src.cap,
                   src.cap.addr + offset, Span(count, objsize))
  {
    hide Checks;
    hide IsForest;
    hide CutOut;
    hide Span;
    hide Inv;
    hide AllWellFormed;
    hide NothingBelow;
    hide NewCtes;
    hide Contents;
    ChecksMean(db, src, attr, t, objsize, count, offset, fromMonitor, myCore);
    var base := src.cap.addr + offset;
    ChecksSuffice(db, src, base, Span(count, objsize));
    var cut := NewCtes(t, base, objsize, count, dest);
    NewAreCutOut(src.cap, t, objsize, count, offset, dest);
    CuttingKeepsForest(Contents(db), src, cut, s', base, Span(count, objsize));
  }

  lemma NewAreCutOut(src: Cap, t: ObjType, objsize: nat, count: nat, offset: nat, dest: nat)
    requires IsObject(t) && WellFounded(src.typ, t) && 0 < RealSize(t, objsize) <= objsize
    requires offset + Span(count, objsize) <= src.size
    ensures CutOut(NewCtes(t, src.addr + offset, objsize, count, dest), src, src.addr + offset, Span(count, objsize))
  {
    hide CutFrom;
    hide NewCap;
    hide Overlap;
    hide RealSize;
    hide Span;
    var base := src.addr + offset;
    var cut := NewCtes(t, base, objsize, count, dest);
    forall n | n in cut
      ensures CutFrom(n.cap, src) && base <= n.cap.addr && n.cap.End() <= base + Span(count, objsize)
    {
      var i :| 0 <= i < count && cut[i] == n;
      NewAreCut(src, t, objsize, count, offset, i);
    }
    forall m, n | m in cut && n in cut && m != n ensures !Overlap(m.cap, n.cap) {
      var i :| 0 <= i < count && cut[i] == m;
      var j :| 0 <= j < count && cut[j] == n;
      if i < j {
        NewDisjoint(t, base, objsize, i, j);
        Apart(m.cap, n.cap);
      } else {
        NewDisjoint(t, base, objsize, j, i);
        Apart(n.cap, m.cap);
      }
    }
  }

  lemma Apart(a: Cap, b: Cap)
    requires a.End() <= b.addr
    ensures !Overlap(a, b) && !Overlap(b, a)
  {}

  // ---------- Object sizes that are too small ----------

  /** The size of a region of RAM that has a page frame at its end. */
  const REGION: nat := 0x1000_0000

  const SOURCE := Cte(1, Cap(RAM, 0, REGION, 0, 0, 0, 0))
  const FRAME := Cte(2, Cap(Frame, REGION - BASE_PAGE_SIZE, BASE_PAGE_SIZE, 0, 0, 0, 0))
  const PLAIN_ATTR := Attr(0, false, false, false, false, false)

  /** The region alone, and with the frame in it. */
  function RamAlone(): Tree { Node(SOURCE, 0, 1, REGION, Nil, Nil) }
  function RamWithFrame(): Tree { Node(SOURCE, 0, 1, REGION, Nil, Node(FRAME, 0, 1, REGION, Nil, Nil)) }

  /** Types whose objects are laid out with a size of their own, whatever the caller says,
      and which the checks admit with a smaller one. */
  predicate OwnSize(t: ObjType, objsize: nat) {
    && (t.VNode? || t.Dispatcher? || t.KernelControlBlock?)
    && objsize < RealSize(t, objsize) && (t.VNode? ==> objsize == 0)
  }

  /** As many objects as the region holds. */
  function Filling(t: ObjType): (n: nat)
    requires RealSize(t, 0) > 0
  {
    REGION / RealSize(t, 0)
  }

  lemma FillingMeans(t: ObjType, objsize: nat)
    requires OwnSize(t, objsize)
    ensures var size := RealSize(t, 0);
      && RealSize(t, objsize) == size > 0 && 0 < Filling(t) && Filling(t) * size == REGION
      && Span(Filling(t) - 1, size) == REGION - size && Span(Filling(t), objsize) <= REGION - BASE_PAGE_SIZE
  {
    var size, n := RealSize(t, 0), Filling(t);
    assert size == 1024 || size == 4096 || size == 16384 || size == 65536;
    assert n == 262144 || n == 65536 || n == 16384 || n == 4096;
    assert n * size == REGION;
    Shorter(n, objsize, size);
  }

  lemma Shorter(n: nat, a: nat, b: nat)
    requires a < b
    ensures n * a <= n * b - n
  {
    Expand(n, a, b - a);
    AtLeast(n, b - a);
  }

  lemma Expand(n: nat, a: nat, d: nat)
    ensures n * (a + d) == n * a + n * d
  {}

  lemma AtLeast(n: nat, d: nat)
    requires d >= 1
    ensures n * d >= n
  {}

  /** The bound on the object size cannot be dropped. Whenever a page table, a dispatcher or
      a kernel control block is retyped with a smaller object size than its own, there is
      a database that the kernel reaches by retyping RAM to one page frame, and a retype
      the checks admit, after which the frame and a new object overlap although they are
      unrelated. */
  lemma ShortObjectSizeBreaksForest(t: ObjType, objsize: nat)
    requires OwnSize(t, objsize)
    ensures Inv(RamAlone()) && Contents(RamAlone()) == [SOURCE]
    ensures Checks(RamAlone(), SOURCE, PLAIN_ATTR, Frame, BASE_PAGE_SIZE, 1, REGION - BASE_PAGE_SIZE, false, 0) == Ok
    ensures NewCtes(Frame, REGION - BASE_PAGE_SIZE, BASE_PAGE_SIZE, 1, 2) == [FRAME]
      && Insert(RamAlone(), FRAME) == Some(RamWithFrame())
    ensures Inv(RamWithFrame()) && Contents(RamWithFrame()) == [SOURCE, FRAME] && AllWellFormed([SOURCE, FRAME])
      && IsForest([SOURCE, FRAME])
    ensures Checks(RamWithFrame(), SOURCE, PLAIN_ATTR, t, objsize, Filling(t), 0, false, 0) == Ok
    ensures !IsForest([SOURCE, FRAME] + NewCtes(t, 0, objsize, Filling(t), 3))
  {
    hide Checks; hide IsForest; hide Inv; hide Contents; hide AllWellFormed; hide NewCtes; hide RamAlone;
    hide RamWithFrame; hide Filling;
    AloneInRam();
    FrameAdmitted();
    FrameInserted();
    WithFrame();
    TwoForest(SOURCE, FRAME);
    ShortAdmitted(t, objsize);
    Clash(t, objsize);
  }

  lemma AloneInRam()
    ensures Inv(RamAlone()) && Contents(RamAlone()) == [SOURCE]
  {
    assert UpdateEnd(RamAlone()) == RamAlone() && Shape(RamAlone()) && Balanced(Nil) && EndOk(Nil);
  }

  lemma FrameAdmitted()
    ensures Checks(RamAlone(), SOURCE, PLAIN_ATTR, Frame, BASE_PAGE_SIZE, 1, REGION - BASE_PAGE_SIZE, false, 0) == Ok
  {
    assert FindGreater(SOURCE, RamAlone(), false, false) == None;
    assert Span(1, BASE_PAGE_SIZE) == BASE_PAGE_SIZE;
    FitsOnce(REGION, BASE_PAGE_SIZE);
  }

  lemma FitsOnce(srcsize: nat, k: nat)
    requires 0 < k <= srcsize
    ensures Fit(srcsize, k) >= 1
  {}

  lemma FrameInserted()
    ensures NewCtes(Frame, REGION - BASE_PAGE_SIZE, BASE_PAGE_SIZE, 1, 2) == [FRAME]
      && Insert(RamAlone(), FRAME) == Some(RamWithFrame())
  {
    assert NewCtes(Frame, REGION - BASE_PAGE_SIZE, BASE_PAGE_SIZE, 1, 2)[0] == FRAME;
    assert CompareTie(FRAME, SOURCE) > 0;
    var leaf := Node(FRAME, 0, 1, REGION, Nil, Nil);
    assert Insert(Nil, FRAME) == Some(leaf);
  }

  lemma WithFrame()
    ensures Inv(RamWithFrame()) && Contents(RamWithFrame()) == [SOURCE, FRAME] && AllWellFormed([SOURCE, FRAME])
  {
    AloneInRam();
    FrameInserted();
    InsertCorrect(RamAlone(), FRAME);
    assert Inserted([SOURCE], FRAME) == [SOURCE, FRAME];
  }

  const FOREIGN_ATTR := PLAIN_ATTR.(owner := 1)

  /** RAM of another core: refused while it is whole, admitted once a frame has been cut
      out of it. */
  lemma ForeignRetype()
    ensures Inv(RamWithFrame()) && Contents(RamWithFrame()) == [SOURCE, FRAME] && IsForest([SOURCE, FRAME])
    ensures Checks(RamAlone(), SOURCE, FOREIGN_ATTR, Frame, BASE_PAGE_SIZE, 1, 0, false, 0) == RetryThroughMonitor
    ensures Checks(RamWithFrame(), SOURCE, FOREIGN_ATTR, Frame, BASE_PAGE_SIZE, 1, 0, false, 0) == Ok
  {
    hide Checks; hide IsForest; hide Inv; hide Contents; hide RamAlone; hide RamWithFrame;
    WithFrame();
    TwoForest(SOURCE, FRAME);
    ForeignRefused();
    ForeignAdmitted();
  }

  lemma ForeignRefused()
    ensures Checks(RamAlone(), SOURCE, FOREIGN_ATTR, Frame, BASE_PAGE_SIZE, 1, 0, false, 0) == RetryThroughMonitor
  {
    assert FindGreater(SOURCE, RamAlone(), false, false) == None;
  }

  lemma ForeignAdmitted()
    ensures Checks(RamWithFrame(), SOURCE, FOREIGN_ATTR, Frame, BASE_PAGE_SIZE, 1, 0, false, 0) == Ok
  {
    hide CompareTie; hide RangeFree; hide FindRange; hide FindGreater; hide HasDescendants; hide Fit; hide RamWithFrame;
    FrameBelow();
    assert Span(1, BASE_PAGE_SIZE) == BASE_PAGE_SIZE;
    RangeIsFree(BASE_PAGE_SIZE);
    FitsOnce(REGION, BASE_PAGE_SIZE);
  }

  lemma FrameBelow()
    ensures HasDescendants(RamWithFrame(), SOURCE)
  {
    hide HasDescendants; hide RamWithFrame; hide Contents;
    WithFrame();
    DescendantDetected(RamWithFrame(), SOURCE, FRAME);
  }

  lemma Clash(t: ObjType, objsize: nat)
    requires OwnSize(t, objsize)
    ensures !IsForest([SOURCE, FRAME] + NewCtes(t, 0, objsize, Filling(t), 3))
  {
    hide Span; hide Filling;
    FillingMeans(t, objsize);
    var m := Filling(t) - 1;
    var n := Cte(3 + m, NewCap(t, 0, objsize, m));
    var cut := NewCtes(t, 0, objsize, Filling(t), 3);
    assert cut[m] == n;
    var s := [SOURCE, FRAME] + cut;
    assert s[1] == FRAME && s[2 + m] == n;
    assert n.cap.End() == REGION && Overlap(n.cap, FRAME.cap);
    assert Parent(RAM) == Some(PhysAddr) && Parent(Frame) == Some(RAM) && Parent(t) == Some(RAM);
    assert !TypeAncestor(t, Frame) && !TypeAncestor(Frame, t);
    assert !Related(n.cap, FRAME.cap);
  }

  lemma TwoForest(src: Cte, frame: Cte)
    requires src.cap.typ.RAM? && frame.cap.typ.Frame? && WellFormed(src.cap) && WellFormed(frame.cap)
      && Inside(frame.cap, src.cap)
    ensures IsForest([src, frame])
  {
    assert Parent(Frame) == Some(RAM);
    assert TypeAncestor(RAM, Frame);
    assert Derived(frame.cap, src.cap);
  }

  lemma ShortAdmitted(t: ObjType, objsize: nat)
    requires OwnSize(t, objsize)
    ensures Checks(RamWithFrame(), SOURCE, PLAIN_ATTR, t, objsize, Filling(t), 0, false, 0) == Ok
  {
    hide CompareTie; hide Filling; hide RangeFree; hide FindRange; hide FindGreater; hide HasDescendants; hide Span;
    hide Fit;
    FillingMeans(t, objsize);
    RangeIsFree(Span(Filling(t), objsize));
    FitsMany(REGION, RealSize(t, 0), Filling(t));
  }

  lemma FitsMany(srcsize: nat, k: nat, n: nat)
    requires k > 0 && n > 0 && n * k <= srcsize
    ensures Fit(srcsize, k) >= n && srcsize >= k
  {
    var q := Fit(srcsize, k);
    assert n * k < (q + 1) * k;
    Smaller(n, q + 1, k);
    assert 1 * k <= n * k;
  }

  lemma Smaller(a: int, b: int, k: nat)
    requires a * k < b * k
    ensures a < b
  {}

  lemma RangeIsFree(size: nat)
    requires size <= REGION - BASE_PAGE_SIZE
    ensures RangeFree(RamWithFrame(), SOURCE.cap, 0, size)
  {
    var leaf := Node(FRAME, 0, 1, REGION, Nil, Nil);
    assert FindRange(1, 0, size, SURROUNDING, leaf) == Answer(NOT_FOUND, None);
  }

  // ---------- caps_create and caps_retype on the slots ----------

  lemma TieMeansSameSlot(a: Cte, b: Cte)
    requires CompareTie(a, b) == 0
    ensures a.slot == b.slot
  {}

  /** The slots of a core and its mapping database. */
  class CapSpace {
    const myCore: nat
    var slots: map<nat, Cap>
    var attrs: map<nat, Attr>
    var db: Tree

    /** The database lists exactly the occupied slots, and is a forest. */
    ghost predicate Valid()
      reads this
    {
      Listed(slots, db) && attrs.Keys == slots.Keys && IsForest(Contents(db))
    }

    /** caps_create for object types: fills the slots in turn with set_cap, and
        empties the ones it has filled if one turns out to be taken. For kernel control
        blocks it does not empty them, and leaves their owner zero. */
    method CapsCreate(t: ObjType, base: nat, objsize: nat, count: nat, owner: nat, dest: nat) returns (err: Err)
      requires IsObject(t) && count > 0
      modifies this`slots, this`attrs
      ensures err == Ok || err == SlotInUse
      ensures err == Ok <==> forall k :: dest <= k < dest + count ==> k !in old(slots)
      ensures err == Ok ==> slots == old(slots) + NewSlots(t, base, objsize, 0, count, dest)
      ensures err == Ok ==> attrs == old(attrs) + NewAttrs(OwnerOf(t, owner), count, dest)
      ensures err == Ok ==>
        forall k :: dest <= k < dest + count ==>
          k in attrs && attrs[k].owner == if t == KernelControlBlock then 0 else owner
      ensures err != Ok ==> attrs == old(attrs) && (!t.KernelControlBlock? ==> slots == old(slots))
      ensures err != Ok && t.KernelControlBlock? ==>
        exists i: nat ::
          i < count && dest + i in old(slots) && slots == old(slots) + NewSlots(t, base, objsize, 0, i, dest)
    {
      hide NewSlots; hide NewCap; hide NewAttrs;
      var i;
      i, err := FillSlots(t, base, objsize, count, dest);
      if err != Ok {
        if !t.KernelControlBlock? { Revert(t, base, objsize, i, dest, old(slots)); }
      } else {
        SetOwner(count, OwnerOf(t, owner), dest);
        OwnersAre(OwnerOf(t, owner), count, dest);
      }
    }

    /** The set_cap loop: stops at the first slot that is taken. */
    method FillSlots(t: ObjType, base: nat, objsize: nat, count: nat, dest: nat) returns (i: nat, err: Err)
      modifies this`slots
      ensures i <= count && (err == Ok || err == SlotInUse)
      ensures forall k :: dest <= k < dest + i ==> k !in old(slots)
      ensures if err == Ok then i == count else i < count && dest + i in old(slots)
      ensures slots == old(slots) + NewSlots(t, base, objsize, 0, i, dest)
    {
      hide NewSlots; hide NewCap;
      i, err := 0, Ok;
      NoSlots(slots, t, base, objsize, 0, dest);
      while i < count
        invariant i <= count && err == Ok
        invariant forall k :: dest <= k < dest + i ==> k !in old(slots)
        invariant slots == old(slots) + NewSlots(t, base, objsize, 0, i, dest)
      {
        AddToSlots(old(slots), t, base, objsize, i, dest);
        if dest + i in slots {
          err := SlotInUse;
          return;
        }
        slots := slots[dest + i := NewCap(t, base, objsize, i)];
        i := i + 1;
      }
    }

    /** caps_retype. An error leaves everything as it was; success adds exactly
        the new objects to the slots and to the database, and keeps the forest
        unless the objects are larger than `objsize`. */
    method CapsRetype(t: ObjType, objsize: nat, count: nat, cnode: nat, cnodeSlots: nat, destSlot: nat,
                      src: nat, offset: nat, fromMonitor: bool) returns (err: Err)
      requires Valid() && src in slots && IsObject(t)
      modifies this
      ensures err != Ok ==> slots == old(slots) && attrs == old(attrs) && db == old(db)
      ensures Listed(slots, db) && attrs.Keys == slots.Keys
      ensures RealSize(t, objsize) <= objsize ==> Valid()
      ensures var base := old(slots)[src].addr + offset;
        err == Ok ==>
          && slots == old(slots) + NewSlots(t, base, objsize, 0, count, cnode + destSlot)
          && attrs == old(attrs) + NewAttrs(OwnerOf(t, myCore), count, cnode + destSlot)
          && (forall k :: cnode + destSlot <= k < cnode + destSlot + count ==>
                k in attrs && attrs[k].owner == if t == KernelControlBlock then 0 else myCore)
      ensures err == Ok <==>
        && Checks(old(db), Cte(src, old(slots)[src]), old(attrs)[src], t, objsize, count, offset, fromMonitor,
          myCore) == Ok
        && destSlot + count <= cnodeSlots
        && (forall k :: cnode + destSlot <= k < cnode + destSlot + count ==> k !in old(slots))
    {
      hide Checks;
      hide Listed;
      hide RealSize;
      hide NewCtes;
      hide IsForest;
      hide Contents;
      SourceListed(slots, db, src);
      var srcCte := Cte(src, slots[src]);
      var base := slots[src].addr + offset;
      var dest := cnode + destSlot;
      err := Checks(db, srcCte, attrs[src], t, objsize, count, offset, fromMonitor, myCore);
      if err != Ok { return; }
      if destSlot + count > cnodeSlots { return SlotsInvalid; }
      var i := 0;
      while i < count
        invariant i <= count
        invariant forall k :: dest <= k < dest + i ==> k !in slots
      {
        if dest + i in slots { return SlotsInUse; }
        i := i + 1;
      }
      ghost var oldDb := db;
      CountPositive(db, srcCte, attrs[src], t, objsize, count, offset, fromMonitor, myCore);
      err := CapsCreate(t, base, objsize, count, myCore, dest);
      InsertAll(t, base, objsize, count, dest, old(slots));
      assert attrs.Keys == slots.Keys by { NewKeys(t, base, objsize, count, dest, OwnerOf(t, myCore)); }
      if RealSize(t, objsize) <= objsize {
        ListedMeans(old(slots), oldDb);
        RetypeKeepsForest(oldDb, srcCte, old(attrs)[src], t, objsize, count, offset, fromMonitor, myCore, dest,
          Contents(db));
      }
    }

    /** The mdb_insert loop of caps_retype. */
    method InsertAll(t: ObjType, base: nat, objsize: nat, count: nat, dest: nat, ghost before: map<nat, Cap>)
      requires Listed(before, db) && IsObject(t) && RealSize(t, objsize) > 0
      requires forall k :: dest <= k < dest + count ==> k !in before
      requires slots == before + NewSlots(t, base, objsize, 0, count, dest)
      modifies this`db
      ensures Listed(slots, db)
      ensures forall e :: e in Contents(db) <==> e in old(Contents(db)) || e in NewCtes(t, base, objsize, count, dest)
    {
      hide Insert;
      hide InsertedUpTo;
      NoneInserted(before, db, t, base, objsize, dest);
      var i := 0;
      while i < count
        invariant i <= count && InsertedUpTo(before, old(Contents(db)), db, t, base, objsize, i, dest)
      {
        assert Position(dest + i, dest) == i;
        var x := Cte(dest + i, slots[dest + i]);
        var r := Insert(db, x);
        InsertNext(before, old(Contents(db)), db, t, base, objsize, i, dest);
        if r.Some? { db := r.value; }
        i := i + 1;
      }
      AllInserted(before, old(Contents(db)), db, t, base, objsize, count, dest);
    }

    /** Reverts the partially initialized slots. */
    method Revert(t: ObjType, base: nat, objsize: nat, count: nat, dest: nat, ghost before: map<nat, Cap>)
      requires forall k :: dest <= k < dest + count ==> k !in before
      requires slots == before + NewSlots(t, base, objsize, 0, count, dest)
      modifies this`slots
      ensures slots == before
    {
      hide NewSlots;
      var j := 0;
      while j < count
        invariant j <= count
        invariant slots == before + NewSlots(t, base, objsize, j, count, dest)
      {
        DropFromSlots(before, t, base, objsize, j, count, dest);
        slots := slots - {dest + j};
        j := j + 1;
      }
      NoSlots(before, t, base, objsize, count, dest);
    }

    method SetOwner(count: nat, owner: nat, dest: nat)
      modifies this`attrs
      ensures attrs == old(attrs) + NewAttrs(owner, count, dest)
    {
      var j := 0;
      while j < count
        invariant j <= count
        invariant attrs == old(attrs) + NewAttrs(owner, j, dest)
      {
        attrs := attrs[dest + j := Attr(owner, false, false, false, false, false)];
        AddAttr(owner, j, dest);
        j := j + 1;
      }
    }
  }

  function OwnerOf(t: ObjType, owner: nat): nat { if t.KernelControlBlock? then 0 else owner }

  function NewAttrs(owner: nat, count: nat, dest: nat): map<nat, Attr> {
    map k: nat {:trigger Position(k, dest)} | dest <= k < dest + count && Position(k, dest) >= 0 ::
      Attr(owner, false, false, false, false, false)
  }

  lemma OwnersAre(owner: nat, count: nat, dest: nat)
    ensures forall k :: dest <= k < dest + count ==>
      k in NewAttrs(owner, count, dest) && NewAttrs(owner, count, dest)[k].owner == owner
  {
    forall k | dest <= k < dest + count ensures k in NewAttrs(owner, count, dest) {
      assert Position(k, dest) >= 0;
    }
  }

  ghost predicate Listed(slots: map<nat, Cap>, db: Tree) {
    && Inv(db) && AllWellFormed(Contents(db))
    && (forall e :: e in Contents(db) <==> e.slot in slots && slots[e.slot] == e.cap)
  }

  lemma AddSlot(t: ObjType, base: nat, objsize: nat, i: nat, dest: nat)
    ensures NewSlots(t, base, objsize, 0, i + 1, dest)
         == NewSlots(t, base, objsize, 0, i, dest)[dest + i := NewCap(t, base, objsize, i)]
  {
    hide NewCap;
    assert Position(dest + i, dest) == i;
  }

  lemma NoSlots(before: map<nat, Cap>, t: ObjType, base: nat, objsize: nat, i: nat, dest: nat)
    ensures before + NewSlots(t, base, objsize, i, i, dest) == before
  {
    hide NewCap;
  }

  lemma AddToSlots(before: map<nat, Cap>, t: ObjType, base: nat, objsize: nat, i: nat, dest: nat)
    ensures var s := before + NewSlots(t, base, objsize, 0, i, dest);
      && (dest + i in s <==> dest + i in before)
      && s[dest + i := NewCap(t, base, objsize, i)] == before + NewSlots(t, base, objsize, 0, i + 1, dest)
  {
    hide NewCap;
    AddSlot(t, base, objsize, i, dest);
  }

  lemma DropFromSlots(before: map<nat, Cap>, t: ObjType, base: nat, objsize: nat, j: nat, count: nat, dest: nat)
    requires j < count && dest + j !in before
    ensures before + NewSlots(t, base, objsize, j, count, dest) - {dest + j} ==
      before + NewSlots(t, base, objsize, j + 1, count, dest)
  {
    hide NewCap;
  }

  lemma AddAttr(owner: nat, j: nat, dest: nat)
    ensures NewAttrs(owner, j + 1, dest) ==
      NewAttrs(owner, j, dest)[dest + j := Attr(owner, false, false, false, false, false)]
  {
    assert Position(dest + j, dest) == j;
  }

  lemma CountPositive(db: Tree, src: Cte, attr: Attr, t: ObjType, objsize: nat, count: nat, offset: nat,
                      fromMonitor: bool, myCore: nat)
    requires Checks(db, src, attr, t, objsize, count, offset, fromMonitor, myCore) == Ok && IsObject(t)
    ensures 0 < count && 0 < RealSize(t, objsize)
  {
    ChecksMean(db, src, attr, t, objsize, count, offset, fromMonitor, myCore);
  }

  /** Inserting the capability of an unlisted slot lists that slot. */
  lemma InsertListed(slots: map<nat, Cap>, db: Tree, x: Cte)
    requires Listed(slots, db) && x.slot !in slots && WellFormed(x.cap)
    ensures Insert(db, x).Some? && Listed(slots[x.slot := x.cap], Insert(db, x).value)
    ensures forall e :: e in Contents(Insert(db, x).value) <==> e in Contents(db) || e == x
  {
    hide Insert;
    hide CompareTie;
    hide Inv;
    hide WellFormed;
    InsertCorrect(db, x);
    forall e | e in Contents(db) ensures CompareTie(x, e) != 0 {
      if CompareTie(x, e) == 0 { TieMeansSameSlot(x, e); }
    }
    InsertedMembers(Contents(db), x);
  }

  lemma AddCte(t: ObjType, base: nat, objsize: nat, i: nat, dest: nat)
    ensures NewCtes(t, base, objsize, i + 1, dest)
         == NewCtes(t, base, objsize, i, dest) + [Cte(dest + i, NewCap(t, base, objsize, i))]
  {
    hide NewCap;
  }

  lemma NewWellFormed(t: ObjType, base: nat, objsize: nat, i: nat)
    requires IsObject(t) && RealSize(t, objsize) > 0
    ensures WellFormed(NewCap(t, base, objsize, i))
  {}

  /** The first `i` new capabilities are in the database. */
  ghost predicate InsertedUpTo(before: map<nat, Cap>, s: seq<Cte>, db: Tree, t: ObjType, base: nat, objsize: nat,
      i: nat, dest: nat) {
    && Listed(before + NewSlots(t, base, objsize, 0, i, dest), db)
    && (forall e :: e in Contents(db) <==> e in s || e in NewCtes(t, base, objsize, i, dest))
  }

  lemma NoneInserted(before: map<nat, Cap>, db: Tree, t: ObjType, base: nat, objsize: nat, dest: nat)
    requires Listed(before, db)
    ensures InsertedUpTo(before, Contents(db), db, t, base, objsize, 0, dest)
  {
    hide Listed;
    assert NewCtes(t, base, objsize, 0, dest) == [];
    assert before + NewSlots(t, base, objsize, 0, 0, dest) == before;
  }

  lemma InsertNext(before: map<nat, Cap>, s: seq<Cte>, db: Tree, t: ObjType, base: nat, objsize: nat, i: nat, dest: nat)
    requires InsertedUpTo(before, s, db, t, base, objsize, i, dest)
    requires dest + i !in before && IsObject(t) && RealSize(t, objsize) > 0
    ensures var r := Insert(db, Cte(dest + i, NewCap(t, base, objsize, i)));
      r.Some? && InsertedUpTo(before, s, r.value, t, base, objsize, i + 1, dest)
  {
    hide Listed;
    hide Insert;
    hide NewCap;
    hide NewCtes;
    hide Contents;
    hide IsObject;
    hide RealSize;
    hide WellFormed;
    var x := Cte(dest + i, NewCap(t, base, objsize, i));
    var was := before + NewSlots(t, base, objsize, 0, i, dest);
    NewWellFormed(t, base, objsize, i);
    InsertListed(was, db, x);
    AddSlot(t, base, objsize, i, dest);
    AddCte(t, base, objsize, i, dest);
    assert before + NewSlots(t, base, objsize, 0, i + 1, dest) == was[x.slot := x.cap];
  }

  lemma AllInserted(before: map<nat, Cap>, s: seq<Cte>, db: Tree, t: ObjType, base: nat, objsize: nat, count: nat,
      dest: nat)
    requires InsertedUpTo(before, s, db, t, base, objsize, count, dest)
    ensures Listed(before + NewSlots(t, base, objsize, 0, count, dest), db)
    ensures forall e :: e in Contents(db) <==> e in s || e in NewCtes(t, base, objsize, count, dest)
  {}

  lemma NewKeys(t: ObjType, base: nat, objsize: nat, count: nat, dest: nat, owner: nat)
    ensures NewAttrs(owner, count, dest).Keys == NewSlots(t, base, objsize, 0, count, dest).Keys
  {}

  lemma SourceListed(slots: map<nat, Cap>, db: Tree, src: nat)
    requires Listed(slots, db) && src in slots
    ensures Cte(src, slots[src]) in Contents(db)
  {}

  lemma ListedMeans(slots: map<nat, Cap>, db: Tree)
    requires Listed(slots, db)
    ensures Inv(db) && AllWellFormed(Contents(db))
  {}
}
