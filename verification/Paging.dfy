/**
  Address translation by walking page tables in memory, which also sets the accessed and dirty bits there.
 */
module Paging {
  import opened Bits
  import opened ByteMemory

  const PAGE := 0x1000

  datatype AccessType = FETCH | LOAD | STORE

  datatype Mode = UserMode | SupervisorMode | MachineMode

  datatype Scheme = Bare | Sv32 | Sv39 | Sv48 | Sv57

  /** The control state a translation depends on. */
  datatype Context = Context(
    scheme: Scheme, root: int, prv: Mode, mprv: bool, mpp: Mode, sum: bool, mxr: bool, xlen: nat, faultOnAD: bool)

  datatype Vm = Vm(levels: nat, idxbits: nat, ptesize: nat)

  /** decode_vm_info, without the base of the root table. */
  function DecodeVmInfo(s: Scheme): (vm: Vm)
    ensures vm.ptesize == 4 || vm.ptesize == 8
    ensures Pow2(vm.idxbits) * vm.ptesize == PAGE
    ensures 2 <= vm.levels <= 5
  {
    assert Pow2(9) == 0x200 && Pow2(10) == 0x400;
    match s
    case Sv32 => Vm(2, 10, 4)
    case Sv48 => Vm(4, 9, 8)
    case Sv57 => Vm(5, 9, 8)
    case _ => Vm(3, 9, 8)
  }

  /** Bits of the page number below the field of level i, as a power of two. */
  function Span(vm: Vm, i: nat): int { Pow2(i * vm.idxbits) }

  /** check_vaddr_extension: the bits from the highest translated one up are all equal. */
  predicate ExtensionOk(c: Context, vpn: int) {
    var vm := DecodeVmInfo(c.scheme);
    var highbit := vm.idxbits * vm.levels + 11;
    var extBits := if c.xlen >= highbit then c.xlen - highbit else 0;
    var bits := vpn / Pow2(highbit - 12) % Pow2(extBits);
    bits == 0 || bits == Pow2(extBits) - 1
  }

  // ---------------------------------------------------------------- page table entries

  /** A page table entry: the byte with the flags, and the bytes above it. */
  datatype Pte = Pte(flags: bv8, high: seq<bv8>) {
    predicate V() { flags & 0x01 != 0 }
    predicate R() { flags & 0x02 != 0 }
    predicate W() { flags & 0x04 != 0 }
    predicate X() { flags & 0x08 != 0 }
    predicate U() { flags & 0x10 != 0 }
    function Ppn(): int { LittleEndian(high) / 4 }

    predicate IsPointer() { V() && !R() && !W() && !X() }

    predicate IsLeaf() { V() && (R() || (X() && !W())) }

    /** The entry allows the access. */
    predicate Allows(t: AccessType, mode: Mode, sum: bool, mxr: bool) {
      && (t == FETCH ==> X())
      && (t == LOAD ==> R() || (mxr && X()))
      && (t == STORE ==> R() && W())
      && (if U() then !(mode == SupervisorMode && (t == FETCH || !sum)) else mode == SupervisorMode)
    }

    /** The accessed bit and, for a store, the dirty bit are set. */
    predicate Marked(t: AccessType) { flags & Marks(t) == Marks(t) }
  }

  function Marks(t: AccessType): bv8 { if t == STORE then 0xC0 else 0x40 }

  function LoadPte(m: Mem, slot: int, size: nat): Pte
    requires size > 0
  {
    Pte(Byte(m, slot), LoadBytes(m, slot + 1, size - 1))
  }

  /** v' is v after any accesses: only the accessed and dirty bits may have been set. */
  predicate Ages(v: Pte, v': Pte) {
    v'.high == v.high && v'.flags & 0x3F == v.flags & 0x3F && v'.flags & v.flags & 0xC0 == v.flags & 0xC0
  }

  lemma FlagsAge(f: bv8, f': bv8)
    requires f' & 0x3F == f & 0x3F && f' & f & 0xC0 == f & 0xC0
    ensures f' & 0x01 == f & 0x01 && f' & 0x02 == f & 0x02 && f' & 0x04 == f & 0x04 && f' & 0x08 == f & 0x08 && f' & 0x10 == f & 0x10
    ensures f & 0x40 == 0x40 ==> f' & 0x40 == 0x40
    ensures f & 0xC0 == 0xC0 ==> f' & 0xC0 == 0xC0
  {
  }

  lemma AgesKeeps(v: Pte, v': Pte)
    requires Ages(v, v')
    ensures v'.V() == v.V() && v'.R() == v.R() && v'.W() == v.W() && v'.X() == v.X() && v'.U() == v.U() && v'.Ppn() == v.Ppn()
    ensures forall t :: v.Marked(t) ==> v'.Marked(t)
  {
    FlagsAge(v.flags, v'.flags);
  }

  lemma AgesTransitive(v: Pte, v': Pte, v'': Pte)
    requires Ages(v, v') && Ages(v', v'')
    ensures Ages(v, v'')
  {
    FlagsTransitive(v.flags, v'.flags, v''.flags);
  }

  lemma FlagsTransitive(f: bv8, f': bv8, f'': bv8)
    requires f' & f & 0xC0 == f & 0xC0 && f'' & f' & 0xC0 == f' & 0xC0
    ensures f'' & f & 0xC0 == f & 0xC0
  {
  }

  lemma FlagsMark(f: bv8, marks: bv8)
    requires marks == 0x40 || marks == 0xC0
    ensures (f | marks) & 0x3F == f & 0x3F && (f | marks) & f & 0xC0 == f & 0xC0 && (f | marks) & marks == marks
  {
  }

  // ---------------------------------------------------------------- the walk

  /** Index into the table of level i. */
  function Field(vm: Vm, vpn: int, i: nat): int { vpn / Span(vm, i) % Pow2(vm.idxbits) }

  function Slot(vm: Vm, base: int, vpn: int, i: nat): int { base + Field(vm, vpn, i) * vm.ptesize }

  datatype Leaf = NoLeaf | Leaf(slot: int, level: nat)

  /** Follow pointers down from level i. */
  function FindLeaf(m: Mem, vm: Vm, base: int, i: int, vpn: int): Leaf
    requires vm.ptesize > 0
    decreases i + 1
  {
    if i < 0 then NoLeaf
    else
      var slot := Slot(vm, base, vpn, i);
      var v := LoadPte(m, slot, vm.ptesize);
      if v.IsPointer() then FindLeaf(m, vm, v.Ppn() * PAGE % TWO64, i - 1, vpn)
      else if v.IsLeaf() then Leaf(slot, i)
      else NoLeaf
  }

  /** A leaf at level i maps Span(i) pages, which must start at a multiple of that. */
  predicate SpanAligned(vm: Vm, ppn: int, i: nat) { ppn % Span(vm, i) == 0 }

  /** Physical address of a page within the pages that a leaf maps. */
  function Frame(vm: Vm, ppn: int, vpn: int, i: nat): int { (ppn + vpn % Span(vm, i)) * PAGE % TWO64 }

  /** The frame a page is mapped to, and whether its entry has the bits already that the access needs. */
  datatype Walked = Fault | Mapped(frame: int, slot: int, marked: bool)

  function WalkLeaf(m: Mem, c: Context, leaf: Leaf, vpn: int, t: AccessType, mode: Mode): Walked {
    var vm := DecodeVmInfo(c.scheme);
    match leaf
    case NoLeaf => Fault
    case Leaf(slot, i) =>
      var v := LoadPte(m, slot, vm.ptesize);
      if !v.Allows(t, mode, c.sum, c.mxr) || !SpanAligned(vm, v.Ppn(), i) || (c.faultOnAD && !v.Marked(t)) then Fault
      else Mapped(Frame(vm, v.Ppn(), vpn, i), slot, v.Marked(t))
  }

  function Walk(m: Mem, c: Context, vpn: int, t: AccessType, mode: Mode): Walked {
    var vm := DecodeVmInfo(c.scheme);
    if !ExtensionOk(c, vpn) then Fault
    else WalkLeaf(m, c, FindLeaf(m, vm, c.root, vm.levels - 1, vpn), vpn, t, mode)
  }

  /** mmu_store_pte32 of the low half of the entry with the accessed and dirty bits set. */
  function MarkSlot(m: Mem, slot: int, t: AccessType): Mem {
    StoreBytes(m, slot, [Byte(m, slot) | Marks(t)] + LoadBytes(m, slot + 1, 3))
  }

  /** Memory after the walk wrote back the accessed and dirty bits, if they were missing. */
  function AfterWalk(m: Mem, w: Walked, t: AccessType): Mem {
    if w.Mapped? && !w.marked then MarkSlot(m, w.slot, t) else m
  }

  // ---------------------------------------------------------------- page tables that only age

  /** All slots of the table at base. */
  ghost predicate TableIn(base: int, size: nat, tables: iset<int>) {
    forall x :: base <= x < base + PAGE && Aligned(x, size) ==> x in tables
  }

  predicate Aligned(x: int, size: nat) { if size == 4 then x % 4 == 0 else x % 8 == 0 }

  /** The slots contain the root table and every table that one of them points to. */
  ghost predicate Closed(m: Mem, c: Context, tables: iset<int>) {
    var size := DecodeVmInfo(c.scheme).ptesize;
    && (forall s :: s in tables ==> Aligned(s, size))
    && TableIn(c.root, size, tables)
    && (forall s :: s in tables && LoadPte(m, s, size).IsPointer() ==> TableIn(LoadPte(m, s, size).Ppn() * PAGE % TWO64, size, tables))
  }

  /** From m to m' the entries in the slots only aged. */
  ghost predicate Aged(m: Mem, m': Mem, size: nat, tables: iset<int>)
    requires size > 0
  {
    forall s :: s in tables ==> Ages(LoadPte(m, s, size), LoadPte(m', s, size))
  }

  lemma SlotInTable(vm: Vm, base: int, vpn: int, i: nat)
    requires (vm.ptesize == 4 || vm.ptesize == 8) && Pow2(vm.idxbits) * vm.ptesize == PAGE && Aligned(base, vm.ptesize)
    ensures base <= Slot(vm, base, vpn, i) < base + PAGE && Aligned(Slot(vm, base, vpn, i), vm.ptesize)
  {
    var f := Field(vm, vpn, i);
    MulMonotone(vm.ptesize, 0, f);
    MulMonotone(vm.ptesize, f + 1, Pow2(vm.idxbits));
    Distribute(vm.ptesize, f, 1);
    ModAddMultiple(base, f, vm.ptesize);
  }

  lemma TableBase(ppn: int, size: nat)
    ensures Aligned(ppn * PAGE % TWO64, size)
  {
    ModScale(ppn, PAGE, TWO64 / PAGE);
    var q := ppn % (TWO64 / PAGE);
    DivModUnique(q * PAGE, PAGE, q, 0);
    RootAligned(q * PAGE, size);
  }

  lemma {:induction false} LeafStable(m: Mem, m': Mem, c: Context, base: int, i: int, vpn: int, tables: iset<int>)
    requires var vm := DecodeVmInfo(c.scheme);
             i < vm.levels && Aligned(base, vm.ptesize) && Closed(m, c, tables) && TableIn(base, vm.ptesize, tables)
             && Aged(m, m', vm.ptesize, tables)
    ensures var vm := DecodeVmInfo(c.scheme);
            var leaf := FindLeaf(m, vm, base, i, vpn);
            FindLeaf(m', vm, base, i, vpn) == leaf && (leaf.Leaf? ==> leaf.slot in tables)
    decreases i + 1
  {
    var vm := DecodeVmInfo(c.scheme);
    if i >= 0 {
      var slot := Slot(vm, base, vpn, i);
      SlotInTable(vm, base, vpn, i);
      var v := LoadPte(m, slot, vm.ptesize);
      AgesKeeps(v, LoadPte(m', slot, vm.ptesize));
      if v.IsPointer() {
        TableBase(v.Ppn(), vm.ptesize);
        LeafStable(m, m', c, v.Ppn() * PAGE % TWO64, i - 1, vpn, tables);
      }
    }
  }

  /** The second walk of a page, after entries have aged, agrees with the first. */
  predicate Agree(w: Walked, w': Walked, faultOnAD: bool) {
    && (w.Mapped? ==> w'.Mapped? && w'.frame == w.frame && w'.slot == w.slot && (w.marked ==> w'.marked))
    && (w.Fault? && !faultOnAD ==> w'.Fault?)
  }

  lemma WalkLeafStable(m: Mem, m': Mem, c: Context, leaf: Leaf, vpn: int, t: AccessType, mode: Mode)
    requires var size := DecodeVmInfo(c.scheme).ptesize;
             leaf.Leaf? ==> Ages(LoadPte(m, leaf.slot, size), LoadPte(m', leaf.slot, size))
    ensures Agree(WalkLeaf(m, c, leaf, vpn, t, mode), WalkLeaf(m', c, leaf, vpn, t, mode), c.faultOnAD)
  {
    var size := DecodeVmInfo(c.scheme).ptesize;
    if leaf.Leaf? {
      AgesKeeps(LoadPte(m, leaf.slot, size), LoadPte(m', leaf.slot, size));
    }
  }

  /** The leaf found from the root stays the same. */
  lemma RootLeafStable(m: Mem, m': Mem, c: Context, vpn: int, tables: iset<int>) returns (leaf: Leaf)
    requires c.root % PAGE == 0 && Closed(m, c, tables) && Aged(m, m', DecodeVmInfo(c.scheme).ptesize, tables)
    ensures var vm := DecodeVmInfo(c.scheme);
            leaf == FindLeaf(m, vm, c.root, vm.levels - 1, vpn) == FindLeaf(m', vm, c.root, vm.levels - 1, vpn)
    ensures leaf.Leaf? ==> leaf.slot in tables
  {
    var vm := DecodeVmInfo(c.scheme);
    RootAligned(c.root, vm.ptesize);
    LeafStable(m, m', c, c.root, vm.levels - 1, vpn, tables);
    leaf := FindLeaf(m, vm, c.root, vm.levels - 1, vpn);
  }

  /** Ageing entries change no translation: not the frame, and not what faults for lack of permission. */
  lemma WalkStable(m: Mem, m': Mem, c: Context, vpn: int, t: AccessType, mode: Mode, tables: iset<int>)
    requires c.root % PAGE == 0 && Closed(m, c, tables) && Aged(m, m', DecodeVmInfo(c.scheme).ptesize, tables)
    ensures Agree(Walk(m, c, vpn, t, mode), Walk(m', c, vpn, t, mode), c.faultOnAD)
    ensures Walk(m, c, vpn, t, mode).Mapped? ==> Walk(m, c, vpn, t, mode).slot in tables
  {
    var leaf := RootLeafStable(m, m', c, vpn, tables);
    WalkLeafStable(m, m', c, leaf, vpn, t, mode);
  }

  lemma RootAligned(root: int, size: nat)
    requires root % PAGE == 0
    ensures Aligned(root, size)
  {
    var k := root / PAGE;
    DivMod(root, PAGE);
    DivModUnique(root, 4, 0x400 * k, 0);
    DivModUnique(root, 8, 0x200 * k, 0);
  }

  lemma ClosedStable(m: Mem, m': Mem, c: Context, tables: iset<int>)
    requires Closed(m, c, tables) && Aged(m, m', DecodeVmInfo(c.scheme).ptesize, tables)
    ensures Closed(m', c, tables)
  {
    var size := DecodeVmInfo(c.scheme).ptesize;
    forall s | s in tables
      ensures LoadPte(m', s, size).IsPointer() == LoadPte(m, s, size).IsPointer() && LoadPte(m', s, size).Ppn() == LoadPte(m, s, size).Ppn()
    {
      AgesKeeps(LoadPte(m, s, size), LoadPte(m', s, size));
    }
  }

  lemma AgedTransitive(m: Mem, m': Mem, m'': Mem, size: nat, tables: iset<int>)
    requires size > 0 && Aged(m, m', size, tables) && Aged(m', m'', size, tables)
    ensures Aged(m, m'', size, tables)
  {
    forall s | s in tables
      ensures Ages(LoadPte(m, s, size), LoadPte(m'', s, size))
    {
      AgesTransitive(LoadPte(m, s, size), LoadPte(m', s, size), LoadPte(m'', s, size));
    }
  }

  /** Setting the marks of one entry changes its flags and no other byte. */
  lemma MarkSlotBytes(m: Mem, slot: int, t: AccessType)
    ensures forall x :: Byte(MarkSlot(m, slot, t), x) == if x == slot then Byte(m, slot) | Marks(t) else Byte(m, x)
  {
    var s := [Byte(m, slot) | Marks(t)] + LoadBytes(m, slot + 1, 3);
    forall x | slot < x < slot + 4
      ensures s[x - slot] == Byte(m, x)
    {
      assert LoadBytes(m, slot + 1, 3)[x - slot - 1] == Byte(m, slot + 1 + (x - slot - 1));
    }
  }

  /** Slots are aligned and therefore disjoint. */
  lemma SlotsDisjoint(s: int, slot: int, size: nat)
    requires (size == 4 || size == 8) && Aligned(s, size) && Aligned(slot, size) && s != slot
    ensures slot + size <= s || s + size <= slot
  {
  }

  lemma PteSame(m: Mem, m': Mem, s: int, size: nat)
    requires size > 0 && forall x :: s <= x < s + size ==> Byte(m', x) == Byte(m, x)
    ensures LoadPte(m', s, size) == LoadPte(m, s, size)
  {
  }

  /** An entry after its flags, and nothing else near it, were marked. */
  lemma MarkedPte(m: Mem, m': Mem, slot: int, t: AccessType, size: nat)
    requires size > 0 && Byte(m', slot) == Byte(m, slot) | Marks(t)
    requires forall x :: slot < x < slot + size ==> Byte(m', x) == Byte(m, x)
    ensures Ages(LoadPte(m, slot, size), LoadPte(m', slot, size)) && LoadPte(m', slot, size).Marked(t)
  {
    FlagsMark(Byte(m, slot), Marks(t));
    assert LoadBytes(m', slot + 1, size - 1) == LoadBytes(m, slot + 1, size - 1);
  }

  /** Writing back accessed and dirty bits only ages the tables, and marks the entry. */
  lemma MarkAges(m: Mem, m': Mem, slot: int, t: AccessType, size: nat, tables: iset<int>)
    requires (size == 4 || size == 8) && slot in tables && (forall s :: s in tables ==> Aligned(s, size))
    requires m' == MarkSlot(m, slot, t)
    ensures Aged(m, m', size, tables) && LoadPte(m', slot, size).Marked(t)
  {
    MarkSlotBytes(m, slot, t);
    MarkedPte(m, m', slot, t, size);
    forall s | s in tables
      ensures Ages(LoadPte(m, s, size), LoadPte(m', s, size))
    {
      if s != slot {
        SlotsDisjoint(s, slot, size);
        PteSame(m, m', s, size);
        FlagsSame(Byte(m, s));
      }
    }
  }

  /** None of the n bytes at a belongs to a page table. */
  ghost predicate Clear(a: int, n: int, size: nat, tables: iset<int>) {
    forall s :: s in tables ==> a + n <= s || s + size <= a
  }

  lemma StoreAges(m: Mem, a: int, s: seq<bv8>, size: nat, tables: iset<int>)
    requires size > 0 && Clear(a, |s|, size, tables)
    ensures Aged(m, StoreBytes(m, a, s), size, tables)
  {
    var m' := StoreBytes(m, a, s);
    forall e | e in tables
      ensures Ages(LoadPte(m, e, size), LoadPte(m', e, size))
    {
      PteSame(m, m', e, size);
      FlagsSame(Byte(m, e));
    }
  }

  lemma FlagsSame(f: bv8)
    ensures f & f & 0xC0 == f & 0xC0
  {
  }

  /** Walking again right after a walk finds the same frame and has nothing to write. */
  lemma WalkAgain(m: Mem, c: Context, vpn: int, t: AccessType, mode: Mode, tables: iset<int>)
    requires c.root % PAGE == 0 && Closed(m, c, tables)
    ensures var w := Walk(m, c, vpn, t, mode);
            var m' := AfterWalk(m, w, t);
            && Aged(m, m', DecodeVmInfo(c.scheme).ptesize, tables)
            && (w.Mapped? ==> Walk(m', c, vpn, t, mode) == Mapped(w.frame, w.slot, true))
  {
    var w, size := Walk(m, c, vpn, t, mode), DecodeVmInfo(c.scheme).ptesize;
    SameAged(m, size, tables);
    WalkStable(m, m, c, vpn, t, mode, tables);
    if w.Mapped? && !w.marked {
      MarkAges(m, MarkSlot(m, w.slot, t), w.slot, t, size, tables);
      WalkStable(m, MarkSlot(m, w.slot, t), c, vpn, t, mode, tables);
      MarkedIffEntry(MarkSlot(m, w.slot, t), c, vpn, t, mode);
    }
  }

  lemma SameAged(m: Mem, size: nat, tables: iset<int>)
    requires size > 0
    ensures Aged(m, m, size, tables)
  {
    forall e | e in tables
      ensures Ages(LoadPte(m, e, size), LoadPte(m, e, size))
    {
      FlagsSame(Byte(m, e));
    }
  }

  lemma MarkedIffEntry(m: Mem, c: Context, vpn: int, t: AccessType, mode: Mode)
    ensures var w := Walk(m, c, vpn, t, mode);
            w.Mapped? ==> w.marked == LoadPte(m, w.slot, DecodeVmInfo(c.scheme).ptesize).Marked(t)
  {
  }

  /** A page that can be stored to without a write-back can also be loaded from without one, at the same frame. */
  lemma StoreImpliesLoad(m: Mem, c: Context, vpn: int, mode: Mode)
    requires Walk(m, c, vpn, STORE, mode).Mapped? && Walk(m, c, vpn, STORE, mode).marked
    ensures Walk(m, c, vpn, LOAD, mode) == Walk(m, c, vpn, STORE, mode)
  {
    var w := Walk(m, c, vpn, STORE, mode);
    DirtyIsAccessed(LoadPte(m, w.slot, DecodeVmInfo(c.scheme).ptesize).flags);
  }

  lemma DirtyIsAccessed(f: bv8)
    ensures f & 0xC0 == 0xC0 ==> f & 0x40 == 0x40
  {
  }

  lemma FrameAligned(m: Mem, c: Context, vpn: int, t: AccessType, mode: Mode)
    ensures var w := Walk(m, c, vpn, t, mode); w.Mapped? ==> w.frame % PAGE == 0
  {
    PageMultiples();
  }

  lemma PageMultiples()
    ensures forall x :: x * PAGE % TWO64 % PAGE == 0
  {
    forall x
      ensures x * PAGE % TWO64 % PAGE == 0
    {
      ModScale(x, PAGE, TWO64 / PAGE);
      ModAddMultiple(0, x % (TWO64 / PAGE), PAGE);
    }
  }

  lemma {:induction false} LeafIsLeaf(m: Mem, vm: Vm, base: int, i: int, vpn: int)
    requires vm.ptesize > 0
    ensures var leaf := FindLeaf(m, vm, base, i, vpn); leaf.Leaf? ==> LoadPte(m, leaf.slot, vm.ptesize).IsLeaf()
    decreases i + 1
  {
    if i >= 0 {
      var v := LoadPte(m, Slot(vm, base, vpn, i), vm.ptesize);
      if v.IsPointer() {
        LeafIsLeaf(m, vm, v.Ppn() * PAGE % TWO64, i - 1, vpn);
      }
    }
  }

  /** A page is only mapped by a leaf entry that allows the access. */
  lemma MappedMeans(m: Mem, c: Context, vpn: int, t: AccessType, mode: Mode)
    ensures var w := Walk(m, c, vpn, t, mode);
            w.Mapped? ==>
              var v := LoadPte(m, w.slot, DecodeVmInfo(c.scheme).ptesize);
              v.IsLeaf() && v.Allows(t, mode, c.sum, c.mxr) && w.marked == v.Marked(t)
  {
    var vm := DecodeVmInfo(c.scheme);
    LeafIsLeaf(m, vm, c.root, vm.levels - 1, vpn);
  }

  // ---------------------------------------------------------------- what a translation means

  function Highbit(s: Scheme): nat {
    match s
    case Sv32 => 31
    case Sv48 => 47
    case Sv57 => 56
    case _ => 38
  }

  lemma UpperBits(va: int, h: nat)
    requires 12 <= h <= 63 && 0 <= va < TWO64
    ensures va / PAGE / Pow2(h - 12) == va / Pow2(h) && 0 <= va / Pow2(h) < Pow2(64 - h)
    ensures va / Pow2(h) == 0 <==> va < Pow2(h)
    ensures va / Pow2(h) == Pow2(64 - h) - 1 <==> va >= TWO64 - Pow2(h)
  {
    assert Pow2(h) == PAGE * Pow2(h - 12) by { Pow2Values(); Pow2Add(12, h - 12); }
    DivDiv(va, PAGE, Pow2(h - 12));
    assert Pow2(h) * Pow2(64 - h) == TWO64 by { Pow2Values(); Pow2Add(h, 64 - h); }
    QuotientEnds(va, Pow2(h), Pow2(64 - h));
  }

  lemma QuotientEnds(v: int, P: int, K: int)
    requires P > 0 && K > 0 && 0 <= v < P * K
    ensures 0 <= v / P < K
    ensures v / P == 0 <==> v < P
    ensures v / P == K - 1 <==> v >= P * K - P
  {
    DivMod(v, P);
    var q := v / P;
    if q >= K { MulMonotone(P, K, q); }
    if q < K - 1 { MulMonotone(P, q + 1, K - 1); Distribute(P, q, 1); }
    Distribute(P, K, -1);
  }

  /** On 64-bit cores the addresses that are translated are those whose upper bits are copies of the highest one. */
  lemma CanonicalIff(c: Context, va: int)
    requires c.xlen == 64 && c.scheme in {Sv39, Sv48, Sv57} && 0 <= va < TWO64
    ensures var h := Pow2(Highbit(c.scheme));
            var signed := if va < TWO64 / 2 then va else va - TWO64;
            ExtensionOk(c, va / PAGE) <==> -h <= signed < h
  {
    var h := Highbit(c.scheme);
    UpperBits(va, h);
    DivModUnique(va / Pow2(h), Pow2(64 - h), 0, va / Pow2(h));
    assert Pow2(h) <= TWO64 / 2 by { Pow2Monotone(h, 63); Pow2Values(); assert Pow2(64) == 2 * Pow2(63); }
  }

  /** Index fields above level i only depend on the page number without the bits that level i leaves open. */
  lemma SpanSplit(vm: Vm, i: nat, j: nat)
    requires i <= j
    ensures (j - i) * vm.idxbits >= 0 && Span(vm, j) == Span(vm, i) * Pow2((j - i) * vm.idxbits)
  {
    MulMonotone(vm.idxbits, 0, j - i);
    Distribute(vm.idxbits, i, j - i);
    Pow2Add(i * vm.idxbits, (j - i) * vm.idxbits);
  }

  lemma FieldsAbove(vm: Vm, vpn: int, vpn': int, i: nat, j: nat)
    requires i <= j && vpn / Span(vm, i) == vpn' / Span(vm, i)
    ensures Field(vm, vpn, j) == Field(vm, vpn', j)
  {
    SpanSplit(vm, i, j);
    var K := Pow2((j - i) * vm.idxbits);
    DivDiv(vpn, Span(vm, i), K);
    DivDiv(vpn', Span(vm, i), K);
  }

  /** All pages in the span of a leaf are mapped by that leaf. */
  lemma {:induction false} SameLeaf(m: Mem, vm: Vm, base: int, i: int, vpn: int, vpn': int)
    requires vm.ptesize > 0
    ensures var leaf := FindLeaf(m, vm, base, i, vpn);
            leaf.Leaf? ==> leaf.level <= i
    ensures var leaf := FindLeaf(m, vm, base, i, vpn);
            leaf.Leaf? && vpn / Span(vm, leaf.level) == vpn' / Span(vm, leaf.level) ==> FindLeaf(m, vm, base, i, vpn') == leaf
    decreases i + 1
  {
    if i >= 0 {
      var v := LoadPte(m, Slot(vm, base, vpn, i), vm.ptesize);
      if v.IsPointer() {
        SameLeaf(m, vm, v.Ppn() * PAGE % TWO64, i - 1, vpn, vpn');
      }
      var leaf := FindLeaf(m, vm, base, i, vpn);
      if leaf.Leaf? && vpn / Span(vm, leaf.level) == vpn' / Span(vm, leaf.level) {
        FieldsAbove(vm, vpn, vpn', leaf.level, i);
      }
    }
  }

  lemma FramesApart(vm: Vm, ppn: int, vpn: int, vpn': int, i: nat)
    requires vpn / Span(vm, i) == vpn' / Span(vm, i)
    ensures (Frame(vm, ppn, vpn', i) - Frame(vm, ppn, vpn, i) - (vpn' - vpn) * PAGE) % TWO64 == 0
  {
    var S := Span(vm, i);
    DivMod(vpn, S);
    DivMod(vpn', S);
    WrappedDifference((ppn + vpn % S) * PAGE, (ppn + vpn' % S) * PAGE);
  }

  lemma WrappedDifference(x: int, y: int)
    ensures (y % TWO64 - x % TWO64 - (y - x)) % TWO64 == 0
  {
    var k := x / TWO64 - y / TWO64;
    assert y % TWO64 - x % TWO64 - (y - x) == 0 + k * TWO64;
    ModAddMultiple(0, k, TWO64);
  }

  /** Pages in one superpage are mapped with the same permissions, at frames as far apart as the pages are. */
  lemma SuperpageContiguous(m: Mem, c: Context, vpn: int, vpn': int, t: AccessType, mode: Mode)
    requires Walk(m, c, vpn, t, mode).Mapped? && ExtensionOk(c, vpn')
    requires var vm := DecodeVmInfo(c.scheme);
             var leaf := FindLeaf(m, vm, c.root, vm.levels - 1, vpn);
             leaf.Leaf? ==> vpn / Span(vm, leaf.level) == vpn' / Span(vm, leaf.level)
    ensures var w, w' := Walk(m, c, vpn, t, mode), Walk(m, c, vpn', t, mode);
            && w'.Mapped? && w'.slot == w.slot && w'.marked == w.marked
            && (w'.frame - w.frame - (vpn' - vpn) * PAGE) % TWO64 == 0
  {
    var vm := DecodeVmInfo(c.scheme);
    SameLeaf(m, vm, c.root, vm.levels - 1, vpn, vpn');
    var leaf := FindLeaf(m, vm, c.root, vm.levels - 1, vpn);
    FramesApart(vm, LoadPte(m, leaf.slot, vm.ptesize).Ppn(), vpn, vpn', leaf.level);
  }

  /** Page numbers have 52 bits. */
  const PAGES := 0x10_0000_0000_0000

  lemma FrameTruncates(x: int)
    ensures x * PAGE % TWO64 / PAGE == x % PAGES
  {
    ModScale(x, PAGE, PAGES);
    DivModUnique(PAGE * (x % PAGES), PAGE, x % PAGES, 0);
  }

  lemma UpperAndLower(d: int, r: int, S: int, Q: int)
    requires S > 0 && Q > 0 && 0 <= r < S
    ensures S * Q > 0 && (d * S + r) % (S * Q) / S == d % Q && (d * S + r) % (S * Q) % S == r
  {
    ModHighLow(d, r, S, Q);
    DivModUnique(S * (d % Q) + r, S, d % Q, r);
  }

  /**
    The mapped frame has the upper bits of the entry's page number and the lower bits of the page that is translated;
    bits of the page number beyond the address space are dropped.
   */
  lemma FrameBits(s: Scheme, ppn: int, vpn: int, i: nat)
    requires i < DecodeVmInfo(s).levels && SpanAligned(DecodeVmInfo(s), ppn, i)
    ensures var vm := DecodeVmInfo(s);
            var f := Frame(vm, ppn, vpn, i) / PAGE;
            && i * vm.idxbits <= 52
            && f / Span(vm, i) == ppn / Span(vm, i) % Pow2(52 - i * vm.idxbits)
            && f % Span(vm, i) == vpn % Span(vm, i)
  {
    var vm := DecodeVmInfo(s);
    MulMonotone(vm.idxbits, i, vm.levels - 1);
    var S, Q := Span(vm, i), Pow2(52 - i * vm.idxbits);
    assert S * Q == PAGES by { Pow2Add(i * vm.idxbits, 52 - i * vm.idxbits); PagesIs(); }
    DivMod(ppn, S);
    FrameTruncates(ppn + vpn % S);
    UpperAndLower(ppn / S, vpn % S, S, Q);
  }

  lemma PagesIs()
    ensures Pow2(52) == PAGES
  {
    Pow2Add(26, 26);
    Pow2Add(13, 13);
    assert Pow2(13) == 0x2000;
  }
}
