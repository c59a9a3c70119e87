/** Capability types, their derivation relation and their total order.

    The types and the rules come from the Hamlet input `capabilities/caps.hl`;
    the predicates are the ones that `tools/hamlet/HamletBackend.lhs` generates:
    get_type_root, compare_caps, is_well_founded, is_copy and is_ancestor.
 */
module Caps {
  import opened Wrappers

  const OBJSIZE_L2CNODE := 16384
  const OBJSIZE_DISPATCHER := 1024
  const OBJSIZE_VNODE := 4096
  const OBJSIZE_VNODE_ARM_L1 := 16384
  const OBJSIZE_VNODE_ARM_L2 := 1024
  const OBJSIZE_KCB := 65536
  const OBJSIZE_MAPPING := 1

  /** The thirteen page-table types in Hamlet order: x86_64 pml4, pdpt, pdir and
      ptable; x86_32 pdpt, pdir and ptable; ARM l1 and l2; AARCH64 l0 to l3. */
  type VKind = n: nat | n < 13

  const ARM_L1: VKind := 7
  const ARM_L2: VKind := 8

  datatype ObjType =
    | Null | PhysAddr | RAM | L1CNode | L2CNode | FCNode | Dispatcher | EndPoint
    | Frame | FrameMapping | DevFrame | DevFrameMapping | Kernel
    | VNode(kind: VKind) | VNodeMapping(kind: VKind)
    | IRQTable | IO | NotifyIPI | ID | PerfMon | KernelControlBlock | IPI

  /** The value of the type in `enum objtype`; there are 46 types. */
  function Rank(t: ObjType): (r: nat)
    ensures r < 46
  {
    match t
    case Null => 0
    case PhysAddr => 1
    case RAM => 2
    case L1CNode => 3
    case L2CNode => 4
    case FCNode => 5
    case Dispatcher => 6
    case EndPoint => 7
    case Frame => 8
    case FrameMapping => 9
    case DevFrame => 10
    case DevFrameMapping => 11
    case Kernel => 12
    case VNode(k) => 13 + 2 * k
    case VNodeMapping(k) => 14 + 2 * k
    case IRQTable => 39
    case IO => 40
    case NotifyIPI => 41
    case ID => 42
    case PerfMon => 43
    case KernelControlBlock => 44
    case IPI => 45
  }

  /** The `from` clause of the type. */
  function Parent(t: ObjType): (p: Option<ObjType>)
    ensures p.Some? ==> Rank(p.value) < Rank(t)
  {
    match t
    case RAM => Some(PhysAddr)
    case DevFrame => Some(PhysAddr)
    case L1CNode => Some(RAM)
    case L2CNode => Some(RAM)
    case Dispatcher => Some(RAM)
    case Frame => Some(RAM)
    case KernelControlBlock => Some(RAM)
    case VNode(_) => Some(RAM)
    case EndPoint => Some(Dispatcher)
    case FrameMapping => Some(Frame)
    case DevFrameMapping => Some(DevFrame)
    case VNodeMapping(k) => Some(VNode(k))
    case _ => None
  }

  /** The `from_self` clause of the type. */
  predicate FromSelf(t: ObjType) { t == PhysAddr || t == RAM || t == Frame || t == DevFrame }

  /** is_well_founded: `src` may be retyped to `dst` in one step. */
  predicate WellFounded(src: ObjType, dst: ObjType) {
    Parent(dst) == Some(src) || (FromSelf(dst) && src == dst)
  }

  /** A type that zero or more `from` steps lead to. */
  predicate TypeAncestor(p: ObjType, c: ObjType)
    decreases Rank(c)
  {
    p == c || (Parent(c).Some? && TypeAncestor(p, Parent(c).value))
  }

  /** get_type_root: the index of the root of the type tree that `t` belongs to. */
  function TypeRoot(t: ObjType): (r: nat) {
    match t
    case Null => 0
    case FCNode => 2
    case Kernel => 3
    case IRQTable => 4
    case IO => 5
    case NotifyIPI => 6
    case ID => 7
    case PerfMon => 8
    case IPI => 9
    case _ => 1
  }

  function VNodeSize(k: VKind): (s: nat)
    ensures s > 0
  {
    if k == ARM_L1 then OBJSIZE_VNODE_ARM_L1
    else if k == ARM_L2 then OBJSIZE_VNODE_ARM_L2
    else OBJSIZE_VNODE
  }

  predicate IsMapping(t: ObjType) { t.FrameMapping? || t.DevFrameMapping? || t.VNodeMapping? }

  /** get_size of the types whose size does not vary with the capability. */
  function FixedSize(t: ObjType): Option<nat> {
    match t
    case PhysAddr => None
    case RAM => None
    case Frame => None
    case DevFrame => None
    case L1CNode => None
    case L2CNode => Some(OBJSIZE_L2CNODE)
    case VNode(k) => Some(VNodeSize(k))
    case Dispatcher => Some(OBJSIZE_DISPATCHER)
    case KernelControlBlock => Some(OBJSIZE_KCB)
    case FrameMapping => Some(OBJSIZE_MAPPING)
    case DevFrameMapping => Some(OBJSIZE_MAPPING)
    case VNodeMapping(_) => Some(OBJSIZE_MAPPING)
    case _ => Some(0)
  }

  /** A capability: its type, get_address, get_size, and the fields that Hamlet
      marks `eq` (zero where the type has fewer). `target` is the slot that a
      mapping capability maps; it takes no part in any comparison. */
  datatype Cap = Cap(typ: ObjType, addr: nat, size: nat, eq0: nat, eq1: nat, eq2: nat, target: nat) {
    function End(): nat { addr + size }
  }

  const NullCap := Cap(Null, 0, 0, 0, 0, 0, 0)

  /** Types whose objects occupy memory of their own: everything derived from
      PhysAddr except mappings and end points. */
  predicate IsObject(t: ObjType) { TypeRoot(t) == 1 && !IsMapping(t) && !t.EndPoint? }

  predicate WellFormed(c: Cap) {
    && !c.typ.Null?
    && (FixedSize(c.typ).Some? ==> c.size == FixedSize(c.typ).value)
    && (IsObject(c.typ) ==> c.eq0 == 0 && c.eq1 == 0 && c.eq2 == 0 && c.size > 0)
  }

  /** A capability table entry as the mapping database sees it: a slot of some
      CNode (its address breaks ties) and the capability in it. */
  datatype Cte = Cte(slot: nat, cap: Cap)

  /** The attributes of a slot's `mdbnode` that all copies are meant to share, and
      the deletion mark of the slot itself. */
  datatype Attr = Attr(owner: nat, locked: bool, inDelete: bool,
                       remoteCopies: bool, remoteAncs: bool, remoteDescs: bool)

  /** compare_caps without the tie break: negative, zero or positive. Larger
      capabilities at the same address come first, so that a parent precedes the
      children it shares its base address with. */
  function Compare(a: Cap, b: Cap): (r: int)
    ensures -1 <= r <= 1
  {
    if TypeRoot(a.typ) != TypeRoot(b.typ) then (if TypeRoot(a.typ) < TypeRoot(b.typ) then -1 else 1)
    else if a.addr != b.addr then (if a.addr < b.addr then -1 else 1)
    else if a.size != b.size then (if a.size > b.size then -1 else 1)
    else if Rank(a.typ) != Rank(b.typ) then (if Rank(a.typ) < Rank(b.typ) then -1 else 1)
    else if a.eq0 != b.eq0 then (if a.eq0 < b.eq0 then -1 else 1)
    else if a.eq1 != b.eq1 then (if a.eq1 < b.eq1 then -1 else 1)
    else if a.eq2 != b.eq2 then (if a.eq2 < b.eq2 then -1 else 1)
    else 0
  }

  /** compare_caps with the tie break on the slot's address. */
  function CompareTie(a: Cte, b: Cte): (r: int)
    ensures -1 <= r <= 1
  {
    var c := Compare(a.cap, b.cap);
    if c != 0 then c else if a.slot == b.slot then 0 else if a.slot < b.slot then -1 else 1
  }

  predicate Before(a: Cte, b: Cte) { CompareTie(a, b) < 0 }

  /** Types whose capabilities are all copies of one another (is_always_copy). */
  predicate AlwaysCopy(t: ObjType) { t == Kernel || t == IRQTable || t == PerfMon || t == IPI }

  predicate IsCopy(a: Cap, b: Cap) {
    a.typ == b.typ && !a.typ.Null? && (AlwaysCopy(a.typ) || Compare(a, b) == 0)
  }

  predicate Inside(c: Cap, p: Cap) { p.addr <= c.addr && c.End() <= p.End() }

  predicate StrictlyInside(c: Cap, p: Cap) {
    (p.addr < c.addr && c.End() <= p.End()) || (p.addr <= c.addr && c.End() < p.End())
  }

  /** is_ancestor(child, parent): one retype step could have made `c` from `p`. */
  predicate IsAncestor(c: Cap, p: Cap) {
    WellFounded(p.typ, c.typ) &&
    if c.typ == p.typ then StrictlyInside(c, p) else Inside(c, p)
  }

  lemma RankInjective(a: ObjType, b: ObjType)
    requires Rank(a) == Rank(b)
    ensures a == b
  {
    if a.VNode? && b.VNode? {
      assert 2 * a.kind == 2 * b.kind;
    } else if a.VNodeMapping? && b.VNodeMapping? {
      assert 2 * a.kind == 2 * b.kind;
    }
  }

  /** Two capabilities compare equal exactly if they agree on type, address, extent and the
      fields that the type declares for comparison. */
  lemma CompareEqualIff(a: Cap, b: Cap)
    ensures Compare(a, b) == 0 <==>
      a.typ == b.typ && a.addr == b.addr && a.size == b.size && a.eq0 == b.eq0 && a.eq1 == b.eq1 && a.eq2 == b.eq2
    ensures Compare(a, b) == -Compare(b, a)
  {
    if Rank(a.typ) == Rank(b.typ) { RankInjective(a.typ, b.typ); }
  }

  /** Copies are capabilities that compare equal, and those of a type of which there is only
      one object. */
  lemma CopyIff(a: Cap, b: Cap)
    ensures IsCopy(a, b) <==>
      && a.typ == b.typ && a.typ != Null
      && (|| a.typ == Kernel || a.typ == IRQTable || a.typ == PerfMon || a.typ == IPI
          || (a.addr == b.addr && a.size == b.size && a.eq0 == b.eq0 && a.eq1 == b.eq1 && a.eq2 == b.eq2))
  {
    CompareEqualIff(a, b);
  }

  /** From which types a type is made in one step. */
  lemma WellFoundedIff(src: ObjType, dst: ObjType)
    ensures WellFounded(src, dst) <==>
      match dst
      case PhysAddr => src == PhysAddr
      case RAM => src == PhysAddr || src == RAM
      case DevFrame => src == PhysAddr || src == DevFrame
      case Frame => src == RAM || src == Frame
      case L1CNode => src == RAM
      case L2CNode => src == RAM
      case Dispatcher => src == RAM
      case KernelControlBlock => src == RAM
      case VNode(_) => src == RAM
      case EndPoint => src == Dispatcher
      case FrameMapping => src == Frame
      case DevFrameMapping => src == DevFrame
      case VNodeMapping(k) => src == VNode(k)
      case _ => false
  {}

  /** Two types have the same type root exactly if they are the same, or both derived from
      physical addresses: that is the only tree of more than one type. */
  lemma RootsAreTrees(a: ObjType, b: ObjType)
    ensures TypeRoot(a) == TypeRoot(b) <==> a == b || (TypeAncestor(PhysAddr, a) && TypeAncestor(PhysAddr, b))
  {
    BelowPhysAddr(a);
    BelowPhysAddr(b);
    if TypeRoot(a) == TypeRoot(b) != 1 { RankInjective(a, b); }
  }

  lemma BelowPhysAddr(t: ObjType)
    ensures TypeAncestor(PhysAddr, t) <==> TypeRoot(t) == 1
  {
    assert TypeAncestor(PhysAddr, RAM);
    if t.VNodeMapping? { assert TypeAncestor(PhysAddr, VNode(t.kind)); }
  }

  /** The sizes of objects, in bytes: page tables have a page, except for those of ARMv7. */
  lemma SizesAre(t: ObjType)
    ensures t.L2CNode? ==> FixedSize(t) == Some(16384)
    ensures t.Dispatcher? ==> FixedSize(t) == Some(1024)
    ensures t.KernelControlBlock? ==> FixedSize(t) == Some(65536)
    ensures t.VNode? ==>
      FixedSize(t) == Some(if t.kind == ARM_L1 then 16384 else if t.kind == ARM_L2 then 1024 else 4096)
    ensures IsMapping(t) ==> FixedSize(t) == Some(1)
    ensures t.EndPoint? || TypeRoot(t) != 1 ==> FixedSize(t) == Some(0)
    ensures FixedSize(t) == None <==> t == PhysAddr || t == RAM || t == Frame || t == DevFrame || t == L1CNode
  {}

  lemma WellFoundedIsAncestor(p: ObjType, c: ObjType)
    requires WellFounded(p, c)
    ensures TypeAncestor(p, c)
  {
    if Parent(c) == Some(p) {
      assert TypeAncestor(p, p);
    }
  }

  lemma TypeAncestorTransitive(a: ObjType, b: ObjType, c: ObjType)
    requires TypeAncestor(a, b) && TypeAncestor(b, c)
    ensures TypeAncestor(a, c)
    decreases Rank(c)
  {
    if b != c {
      TypeAncestorTransitive(a, b, Parent(c).value);
    }
  }

  lemma TypeAncestorRank(a: ObjType, c: ObjType)
    requires TypeAncestor(a, c)
    ensures a == c || Rank(a) < Rank(c)
    ensures TypeRoot(a) == TypeRoot(c)
    decreases Rank(c)
  {
    if a != c {
      TypeAncestorRank(a, Parent(c).value);
    }
  }
}
