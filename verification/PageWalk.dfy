/**
  MMU_T::walk, and what it finds, read off the words in memory: which entries it passes, when it succeeds, the physical
  address, and the one word it changes.
 */
module PageWalk {
  import opened Bits
  import opened ByteMemory
  import opened Paging

  // ---------------------------------------------------------------- page tables as numbers in memory

  function Levels(s: Scheme): nat { if s == Sv32 then 2 else if s == Sv48 then 4 else if s == Sv57 then 5 else 3 }

  function IndexBits(s: Scheme): nat { if s == Sv32 then 10 else 9 }

  function EntryBytes(s: Scheme): nat { if s == Sv32 then 4 else 8 }

  function AddressBits(s: Scheme): nat { if s == Sv32 then 32 else if s == Sv48 then 48 else if s == Sv57 then 57 else 39 }

  predicate HasBit(e: int, k: nat) { e / Pow2(k) % 2 == 1 }

  /** The number that the entry at `slot` is. */
  function Entry(m: Mem, s: Scheme, slot: int): int { LittleEndian(LoadBytes(m, slot, EntryBytes(s))) }

  /** Valid, and neither readable, writable nor executable. */
  predicate Points(e: int) { HasBit(e, 0) && !HasBit(e, 1) && !HasBit(e, 2) && !HasBit(e, 3) }

  /** Valid, and readable, or executable and not writable. */
  predicate Maps(e: int) { HasBit(e, 0) && (HasBit(e, 1) || (HasBit(e, 3) && !HasBit(e, 2))) }

  /** The bits of a virtual address that select the entry in a table of level i. */
  function Index(s: Scheme, va: int, i: nat): int { va / Pow2(12 + i * IndexBits(s)) % Pow2(IndexBits(s)) }

  /** The bits from the highest translated one up are all equal. */
  ghost predicate Canonical(c: Context, va: int) {
    var h := AddressBits(c.scheme) - 1;
    forall k: nat | h <= k < c.xlen :: HasBit(va, k) == HasBit(va, h)
  }

  /** The entry at `slot` points to a table of level i, in which `next` is the entry for va. */
  predicate Leads(m: Mem, s: Scheme, slot: int, i: int, va: int, next: int)
    requires i >= 0
  {
    && Points(Entry(m, s, slot))
    && next == Entry(m, s, slot) / 0x400 * 0x1000 % TWO64 + EntryBytes(s) * Index(s, va, i)
  }

  /** The addresses of the entries that lead from the table of level `top` at `base` to a leaf entry. */
  ghost predicate IsPath(m: Mem, s: Scheme, base: int, top: nat, va: int, path: seq<int>) {
    && 0 < |path| <= top + 1
    && path[0] == base + EntryBytes(s) * Index(s, va, top)
    && (forall k | 0 <= k < |path| - 1 :: Leads(m, s, path[k], top - k - 1, va, path[k + 1]))
    && Maps(Entry(m, s, path[|path| - 1]))
  }

  /** The rights in entry `e` cover the access. */
  predicate Granted(e: int, t: AccessType, mode: Mode, sum: bool, mxr: bool) {
    && (match t
        case FETCH => HasBit(e, 3)
        case LOAD => HasBit(e, 1) || (mxr && HasBit(e, 3))
        case STORE => HasBit(e, 1) && HasBit(e, 2))
    && if HasBit(e, 4) then mode != SupervisorMode || (sum && t != FETCH) else mode == SupervisorMode
  }

  /** The accessed bit and, for a store, the dirty bit are set. */
  predicate Accessed(e: int, t: AccessType) { HasBit(e, 6) && (t == STORE ==> HasBit(e, 7)) }

  /** Leaf entry `e` of level i serves the access. */
  predicate Usable(e: int, c: Context, i: nat, t: AccessType, mode: Mode) {
    && Granted(e, t, mode, c.sum, c.mxr)
    && e / 0x400 % Pow2(i * IndexBits(c.scheme)) == 0
    && (c.faultOnAD ==> Accessed(e, t))
  }

  /** Memory with the accessed bit and, for a store, the dirty bit of the entry set, and nothing else changed. */
  ghost predicate Recorded(m: Mem, s: Scheme, slot: int, t: AccessType, m': Mem) {
    var e := Entry(m, s, slot);
    && Entry(m', s, slot) == e + (if HasBit(e, 6) then 0 else 0x40) + (if t != STORE || HasBit(e, 7) then 0 else 0x80)
    && forall x | x != slot :: Byte(m', x) == Byte(m, x)
  }

  /** What it then gives: the physical address, and memory with the accessed and dirty bits. */
  ghost predicate Yields(m: Mem, c: Context, slot: int, i: nat, va: int, t: AccessType, w: Walked, m': Mem) {
    var e := Entry(m, c.scheme, slot);
    && w.Mapped? && w.slot == slot && w.marked == Accessed(e, t)
    && w.frame + va % 0x1000 == (e / 0x400 * 0x1000 + va % Pow2(12 + i * IndexBits(c.scheme))) % TWO64
    && Recorded(m, c.scheme, slot, t, m')
  }

  /** The entries on the path of a translation that succeeds. */
  ghost predicate Translates(m: Mem, c: Context, va: int, t: AccessType, mode: Mode, path: seq<int>) {
    && Canonical(c, va)
    && IsPath(m, c.scheme, c.root, Levels(c.scheme) - 1, va, path)
    && Usable(Entry(m, c.scheme, path[|path| - 1]), c, Levels(c.scheme) - |path|, t, mode)
  }

  /** A walk succeeds exactly if there is such a path, and what it finds is at the end of that. */
  ghost predicate Walks(m: Mem, c: Context, va: int, t: AccessType, mode: Mode, w: Walked, m': Mem) {
    && (w.Mapped? <==> exists path :: Translates(m, c, va, t, mode, path))
    && (forall path | Translates(m, c, va, t, mode, path) ::
          Yields(m, c, path[|path| - 1], Levels(c.scheme) - |path|, va, t, w, m'))
    && (w.Fault? ==> m' == m)
  }

  // ---------------------------------------------------------------- entries

  lemma SchemeIs(s: Scheme)
    ensures DecodeVmInfo(s) == Vm(Levels(s), IndexBits(s), EntryBytes(s))
    ensures AddressBits(s) == 12 + IndexBits(s) * Levels(s)
  {
  }

  lemma SmallPowers()
    ensures Pow2(0) == 1 && Pow2(1) == 2 && Pow2(2) == 4 && Pow2(3) == 8
    ensures Pow2(4) == 0x10 && Pow2(6) == 0x40 && Pow2(7) == 0x80
  {
    assert Pow2(3) == 8;
  }

  /** A number and its remainder by an even multiple of p agree in the bit of weight p. */
  lemma LowBit(e: int, f: int, h: int, p: int, r: int)
    requires p > 0 && e == f + h * (2 * r * p)
    ensures e / p % 2 == f / p % 2
  {
    assert h * (2 * r * p) == (h * (2 * r)) * p;
    ModAddMultiple(f, h * (2 * r), p);
    assert h * (2 * r) == (h * r) * 2;
    ModAddMultiple(f / p, h * r, 2);
  }

  /** The lowest byte f of e has the same low bits. */
  lemma LowByte(e: int, f: int, h: int)
    requires e == f + 0x100 * h && 0 <= f < 0x100
    ensures e / 1 % 2 == f / 1 % 2 && e / 2 % 2 == f / 2 % 2 && e / 4 % 2 == f / 4 % 2 && e / 8 % 2 == f / 8 % 2
    ensures e / 0x10 % 2 == f / 0x10 % 2 && e / 0x40 % 2 == f / 0x40 % 2 && e / 0x80 % 2 == f / 0x80 % 2
    ensures e / 0x400 == h / 4
  {
    LowBit(e, f, h, 1, 0x80);
    LowBit(e, f, h, 2, 0x40);
    LowBit(e, f, h, 4, 0x20);
    LowBit(e, f, h, 8, 0x10);
    LowBit(e, f, h, 0x10, 8);
    LowBit(e, f, h, 0x40, 2);
    LowBit(e, f, h, 0x80, 1);
    ModAddMultiple(f, h, 0x100);
    DivDiv(e, 0x100, 4);
  }

  lemma ByteBit0(f: bv8)
    ensures (f & 0x01 != 0) == (f as int / 1 % 2 == 1)
  {
  }

  lemma ByteBit1(f: bv8)
    ensures (f & 0x02 != 0) == (f as int / 2 % 2 == 1)
  {
  }

  lemma ByteBit2(f: bv8)
    ensures (f & 0x04 != 0) == (f as int / 4 % 2 == 1)
  {
  }

  lemma ByteBit3(f: bv8)
    ensures (f & 0x08 != 0) == (f as int / 8 % 2 == 1)
  {
  }

  lemma ByteBit4(f: bv8)
    ensures (f & 0x10 != 0) == (f as int / 0x10 % 2 == 1)
  {
  }

  lemma ByteMarks(f: bv8)
    ensures (f & 0x40 == 0x40) == (f as int / 0x40 % 2 == 1)
    ensures (f & 0xC0 == 0xC0) == (f as int / 0x40 % 2 == 1 && f as int / 0x80 % 2 == 1)
  {
  }

  lemma ByteSets(f: bv8)
    ensures (f | 0x40) as int == f as int + (if f as int / 0x40 % 2 == 1 then 0 else 0x40)
    ensures (f | 0xC0) as int ==
            f as int + (if f as int / 0x40 % 2 == 1 then 0 else 0x40) + (if f as int / 0x80 % 2 == 1 then 0 else 0x80)
  {
  }

  lemma EntryBytesAre(m: Mem, s: Scheme, slot: int)
    ensures var v := LoadPte(m, slot, EntryBytes(s));
            Entry(m, s, slot) == v.flags as int + 0x100 * LittleEndian(v.high)
  {
    var n := EntryBytes(s);
    assert LoadBytes(m, slot, n)[1..] == LoadBytes(m, slot + 1, n - 1);
  }

  /** The fields of an entry are bits of the number in memory; the page number is that without its lowest ten bits. */
  lemma EntryIs(m: Mem, s: Scheme, slot: int)
    ensures var v := LoadPte(m, slot, EntryBytes(s));
            var e := Entry(m, s, slot);
            && v.IsPointer() == Points(e) && v.IsLeaf() == Maps(e) && v.Ppn() == e / 0x400
            && v.V() == HasBit(e, 0) && v.R() == HasBit(e, 1) && v.W() == HasBit(e, 2) && v.X() == HasBit(e, 3)
            && v.U() == HasBit(e, 4)
            && v.Marked(LOAD) == v.Marked(FETCH) == HasBit(e, 6) && v.Marked(STORE) == (HasBit(e, 6) && HasBit(e, 7))
  {
    var v, e := LoadPte(m, slot, EntryBytes(s)), Entry(m, s, slot);
    EntryBytesAre(m, s, slot);
    LowByte(e, v.flags as int, LittleEndian(v.high));
    ByteBit0(v.flags);
    ByteBit1(v.flags);
    ByteBit2(v.flags);
    ByteBit3(v.flags);
    ByteBit4(v.flags);
    ByteMarks(v.flags);
    SmallPowers();
  }

  // ---------------------------------------------------------------- paths

  lemma IndexIs(s: Scheme, va: int, i: nat)
    ensures Field(DecodeVmInfo(s), va / PAGE, i) == Index(s, va, i)
  {
    var b := IndexBits(s);
    assert i * b >= 0 by { MulMonotone(b, 0, i); }
    Pow2Add(12, i * b);
    Pow2Values();
    DivDiv(va, PAGE, Pow2(i * b));
  }

  lemma SlotIs(s: Scheme, base: int, va: int, i: nat)
    ensures Slot(DecodeVmInfo(s), base, va / PAGE, i) == base + EntryBytes(s) * Index(s, va, i)
  {
    IndexIs(s, va, i);
  }

  /** One level of the search. */
  lemma SearchStep(m: Mem, s: Scheme, base: int, top: nat, va: int) returns (slot: int, base': int, leaf: Leaf)
    ensures slot == base + EntryBytes(s) * Index(s, va, top) && base' == Entry(m, s, slot) / 0x400 * 0x1000 % TWO64
    ensures leaf == FindLeaf(m, DecodeVmInfo(s), base, top, va / PAGE)
    ensures Points(Entry(m, s, slot)) ==> leaf == FindLeaf(m, DecodeVmInfo(s), base', top - 1, va / PAGE)
    ensures Maps(Entry(m, s, slot)) ==> leaf == Leaf(slot, top)
    ensures !Points(Entry(m, s, slot)) && !Maps(Entry(m, s, slot)) ==> leaf == NoLeaf
  {
    slot := base + EntryBytes(s) * Index(s, va, top);
    base' := Entry(m, s, slot) / 0x400 * 0x1000 % TWO64;
    leaf := FindLeaf(m, DecodeVmInfo(s), base, top, va / PAGE);
    SlotIs(s, base, va, top);
    EntryIs(m, s, slot);
  }

  /** Following pointers ends at the leaf of a path. */
  lemma {:induction false} PathLeads(m: Mem, s: Scheme, base: int, top: nat, va: int, path: seq<int>)
    requires IsPath(m, s, base, top, va, path)
    ensures var leaf := FindLeaf(m, DecodeVmInfo(s), base, top, va / PAGE);
            leaf.Leaf? && leaf.slot == path[|path| - 1] && leaf.level == top + 1 - |path|
    decreases |path|
  {
    var slot, base', leaf := SearchStep(m, s, base, top, va);
    if |path| > 1 {
      var k := 0;
      assert Leads(m, s, path[k], top - k - 1, va, path[k + 1]);
      PathTail(m, s, base', top, va, path);
      var tail := path[1..];
      assert tail[|tail| - 1] == path[|path| - 1];
      PathLeads(m, s, base', top - 1, va, tail);
    }
  }

  lemma PathTail(m: Mem, s: Scheme, base': int, top: nat, va: int, path: seq<int>)
    requires 1 < |path| <= top + 1 && path[1] == base' + EntryBytes(s) * Index(s, va, top - 1)
    requires forall k | 0 <= k < |path| - 1 :: Leads(m, s, path[k], top - k - 1, va, path[k + 1])
    requires Maps(Entry(m, s, path[|path| - 1]))
    ensures IsPath(m, s, base', top - 1, va, path[1..])
  {
    var tail := path[1..];
    forall k | 0 <= k < |tail| - 1
      ensures Leads(m, s, tail[k], top - 1 - k - 1, va, tail[k + 1])
    {
      var j := k + 1;
      assert tail[k] == path[j] && tail[k + 1] == path[j + 1];
      assert Leads(m, s, path[j], top - j - 1, va, path[j + 1]);
    }
  }

  /** A leaf that is found has a path to it. */
  lemma {:induction false} LeafHasPath(m: Mem, s: Scheme, base: int, top: nat, va: int) returns (path: seq<int>)
    requires FindLeaf(m, DecodeVmInfo(s), base, top, va / PAGE).Leaf?
    ensures IsPath(m, s, base, top, va, path)
    decreases top
  {
    var slot, base', leaf := SearchStep(m, s, base, top, va);
    if Points(Entry(m, s, slot)) {
      var rest := LeafHasPath(m, s, base', top - 1, va);
      path := [slot] + rest;
      PathCons(m, s, base, top, va, slot, rest);
    } else {
      path := [slot];
    }
  }

  lemma PathCons(m: Mem, s: Scheme, base: int, top: nat, va: int, slot: int, rest: seq<int>)
    requires top > 0 && slot == base + EntryBytes(s) * Index(s, va, top) && Points(Entry(m, s, slot))
    requires IsPath(m, s, Entry(m, s, slot) / 0x400 * 0x1000 % TWO64, top - 1, va, rest)
    ensures IsPath(m, s, base, top, va, [slot] + rest)
  {
    var path := [slot] + rest;
    forall k | 0 <= k < |path| - 1
      ensures Leads(m, s, path[k], top - k - 1, va, path[k + 1])
    {
      if k > 0 {
        var j := k - 1;
        assert path[k] == rest[j] && path[k + 1] == rest[j + 1];
        assert Leads(m, s, rest[j], top - 1 - j - 1, va, rest[j + 1]);
      }
    }
  }

  // ---------------------------------------------------------------- the address

  lemma FrameIs(s: Scheme, ppn: int, va: int, i: nat)
    ensures Frame(DecodeVmInfo(s), ppn, va / PAGE, i) + va % 0x1000 ==
            (ppn * 0x1000 + va % Pow2(12 + i * IndexBits(s))) % TWO64
  {
    var b := IndexBits(s);
    assert i * b >= 0 by { MulMonotone(b, 0, i); }
    var S, vpn, off := Pow2(i * b), va / PAGE, va % PAGE;
    Pow2Add(12, i * b);
    Pow2Values();
    ModHighLow(vpn, off, PAGE, S);
    ModHighLow(ppn + vpn % S, off, PAGE, TWO64 / PAGE);
  }

  // ---------------------------------------------------------------- the bits above

  /** The lowest n bits of x are all equal to b. */
  lemma {:induction false} LowBits(x: int, n: nat, b: bool)
    ensures (forall k: nat | k < n :: HasBit(x, k) == b) <==> x % Pow2(n) == if b then Pow2(n) - 1 else 0
    decreases n
  {
    if n > 0 {
      LowBits(x, n - 1, b);
      TopBit(x, Pow2(n - 1));
      assert (forall k: nat | k < n :: HasBit(x, k) == b) <==>
             (forall k: nat | k < n - 1 :: HasBit(x, k) == b) && HasBit(x, n - 1) == b;
    }
  }

  lemma TopBit(x: int, P: int)
    requires P > 0
    ensures x % (2 * P) == x % P + (if x / P % 2 == 1 then P else 0)
  {
    DivMod(x, P);
    ModHighLow(x / P, x % P, P, 2);
  }

  lemma HighBit(va: int, h: nat, k: nat)
    ensures HasBit(va / Pow2(h), k) == HasBit(va, h + k)
  {
    Pow2Add(h, k);
    DivDiv(va, Pow2(h), Pow2(k));
  }

  /** check_vaddr_extension looks at the bits from the highest translated one up to the width of a register. */
  lemma ExtensionIff(c: Context, va: int)
    ensures ExtensionOk(c, va / PAGE) <==> Canonical(c, va)
  {
    SchemeIs(c.scheme);
    var h := AddressBits(c.scheme) - 1;
    var x, n := va / Pow2(h), if c.xlen >= h then c.xlen - h else 0;
    assert va / PAGE / Pow2(h - 12) == x by { Pow2Values(); Pow2Add(12, h - 12); DivDiv(va, PAGE, Pow2(h - 12)); }
    LowBits(x, n, false);
    LowBits(x, n, true);
    forall k: nat
      ensures HasBit(x, k) == HasBit(va, h + k)
    {
      HighBit(va, h, k);
    }
    if Canonical(c, va) {
      assert forall k: nat | k < n :: HasBit(x, k) == HasBit(va, h);
    }
    if ExtensionOk(c, va / PAGE) {
      var b := x % Pow2(n) != 0;
      assert forall k: nat | k < n :: HasBit(x, k) == b;
      forall k: nat | h <= k < c.xlen
        ensures HasBit(va, k) == HasBit(va, h)
      {
        assert HasBit(x, k - h) == HasBit(x, 0);
      }
    }
  }

  // ---------------------------------------------------------------- memory after the walk

  lemma FlagsSet(e: int, f: bv8, h: int, t: AccessType)
    requires e == f as int + 0x100 * h
    ensures (f | Marks(t)) as int + 0x100 * h ==
            e + (if HasBit(e, 6) then 0 else 0x40) + (if t != STORE || HasBit(e, 7) then 0 else 0x80)
  {
    LowByte(e, f as int, h);
    ByteSets(f);
    SmallPowers();
  }

  lemma MarkIs(m: Mem, s: Scheme, slot: int, t: AccessType)
    ensures Recorded(m, s, slot, t, MarkSlot(m, slot, t))
  {
    var m', n := MarkSlot(m, slot, t), EntryBytes(s);
    MarkSlotBytes(m, slot, t);
    assert LoadBytes(m', slot + 1, n - 1) == LoadBytes(m, slot + 1, n - 1);
    EntryBytesAre(m, s, slot);
    EntryBytesAre(m', s, slot);
    FlagsSet(Entry(m, s, slot), Byte(m, slot), LittleEndian(LoadBytes(m, slot + 1, n - 1)), t);
  }

  // ---------------------------------------------------------------- the walk

  /** The checks on an entry are those on the number in memory. */
  lemma GrantedIs(m: Mem, c: Context, slot: int, t: AccessType, mode: Mode)
    ensures var v, e := LoadPte(m, slot, EntryBytes(c.scheme)), Entry(m, c.scheme, slot);
            && (v.Allows(t, mode, c.sum, c.mxr) <==> Granted(e, t, mode, c.sum, c.mxr))
            && (v.Marked(t) <==> Accessed(e, t))
            && v.Ppn() == e / 0x400
  {
    EntryIs(m, c.scheme, slot);
  }

  lemma UsableIs(m: Mem, c: Context, slot: int, i: nat, va: int, t: AccessType, mode: Mode)
    ensures WalkLeaf(m, c, Leaf(slot, i), va / PAGE, t, mode).Mapped? <==> Usable(Entry(m, c.scheme, slot), c, i, t, mode)
  {
    GrantedIs(m, c, slot, t, mode);
  }

  lemma AfterWalkIs(m: Mem, c: Context, w: Walked, t: AccessType, mode: Mode)
    requires w.Mapped? && w.marked == Accessed(Entry(m, c.scheme, w.slot), t)
    ensures Recorded(m, c.scheme, w.slot, t, AfterWalk(m, w, t))
  {
    if !w.marked {
      MarkIs(m, c.scheme, w.slot, t);
    }
  }

  lemma LeafGives(m: Mem, c: Context, slot: int, i: nat, va: int, t: AccessType, mode: Mode, w: Walked)
    requires w == WalkLeaf(m, c, Leaf(slot, i), va / PAGE, t, mode) && w.Mapped?
    ensures var e := Entry(m, c.scheme, slot);
            && w.slot == slot && w.marked == Accessed(e, t)
            && w.frame + va % 0x1000 == (e / 0x400 * 0x1000 + va % Pow2(12 + i * IndexBits(c.scheme))) % TWO64
  {
    GrantedIs(m, c, slot, t, mode);
    FrameIs(c.scheme, Entry(m, c.scheme, slot) / 0x400, va, i);
  }

  lemma YieldsIs(m: Mem, c: Context, slot: int, i: nat, va: int, t: AccessType, mode: Mode, w: Walked)
    requires w == WalkLeaf(m, c, Leaf(slot, i), va / PAGE, t, mode) && w.Mapped?
    ensures Yields(m, c, slot, i, va, t, w, AfterWalk(m, w, t))
  {
    LeafGives(m, c, slot, i, va, t, mode, w);
    AfterWalkIs(m, c, w, t, mode);
  }

  /** What a leaf serves, and what it gives. */
  lemma LeafMeans(m: Mem, c: Context, slot: int, i: nat, va: int, t: AccessType, mode: Mode, w: Walked, m': Mem)
    requires w == WalkLeaf(m, c, Leaf(slot, i), va / PAGE, t, mode) && m' == AfterWalk(m, w, t)
    ensures w.Mapped? <==> Usable(Entry(m, c.scheme, slot), c, i, t, mode)
    ensures w.Mapped? ==> Yields(m, c, slot, i, va, t, w, m')
  {
    UsableIs(m, c, slot, i, va, t, mode);
    if w.Mapped? {
      YieldsIs(m, c, slot, i, va, t, mode, w);
    }
  }

  /** The walk from the root, in terms of the leaf it finds. */
  lemma WalkOf(m: Mem, c: Context, va: int, t: AccessType, mode: Mode) returns (leaf: Leaf)
    ensures leaf == FindLeaf(m, DecodeVmInfo(c.scheme), c.root, Levels(c.scheme) - 1, va / PAGE)
    ensures Walk(m, c, va / PAGE, t, mode) ==
            if Canonical(c, va) then WalkLeaf(m, c, leaf, va / PAGE, t, mode) else Fault
  {
    SchemeIs(c.scheme);
    ExtensionIff(c, va);
    leaf := FindLeaf(m, DecodeVmInfo(c.scheme), c.root, Levels(c.scheme) - 1, va / PAGE);
  }

  lemma LeafOf(m: Mem, c: Context, va: int, leaf: Leaf, path: seq<int>)
    requires leaf == FindLeaf(m, DecodeVmInfo(c.scheme), c.root, Levels(c.scheme) - 1, va / PAGE)
    requires IsPath(m, c.scheme, c.root, Levels(c.scheme) - 1, va, path)
    ensures leaf == Leaf(path[|path| - 1], Levels(c.scheme) - |path|)
  {
    PathLeads(m, c.scheme, c.root, Levels(c.scheme) - 1, va, path);
  }

  /** What is true of the leaf that is found is true at the end of every path. */
  lemma PathEnds(m: Mem, c: Context, va: int, t: AccessType, mode: Mode, leaf: Leaf, w: Walked, m': Mem, path: seq<int>)
    requires leaf.Leaf? && (w.Mapped? <==> Usable(Entry(m, c.scheme, leaf.slot), c, leaf.level, t, mode))
    requires w.Mapped? ==> Yields(m, c, leaf.slot, leaf.level, va, t, w, m')
    requires leaf == FindLeaf(m, DecodeVmInfo(c.scheme), c.root, Levels(c.scheme) - 1, va / PAGE)
    requires Canonical(c, va) && IsPath(m, c.scheme, c.root, Levels(c.scheme) - 1, va, path)
    ensures w.Mapped? <==> Translates(m, c, va, t, mode, path)
    ensures w.Mapped? ==> Yields(m, c, path[|path| - 1], Levels(c.scheme) - |path|, va, t, w, m')
  {
    LeafOf(m, c, va, leaf, path);
  }

  /** The walk does what the words in memory say. */
  lemma WalkMeans(m: Mem, c: Context, va: int, t: AccessType, mode: Mode, w: Walked, m': Mem)
    requires w == Walk(m, c, va / PAGE, t, mode) && m' == AfterWalk(m, w, t)
    ensures Walks(m, c, va, t, mode, w, m')
  {
    var leaf := WalkOf(m, c, va, t, mode);
    if Canonical(c, va) && leaf.Leaf? {
      LeafMeans(m, c, leaf.slot, leaf.level, va, t, mode, w, m');
    }
    forall path | Translates(m, c, va, t, mode, path)
      ensures w.Mapped? && Yields(m, c, path[|path| - 1], Levels(c.scheme) - |path|, va, t, w, m')
    {
      LeafOf(m, c, va, leaf, path);
      PathEnds(m, c, va, t, mode, leaf, w, m', path);
    }
    if w.Mapped? {
      var path := LeafHasPath(m, c.scheme, c.root, Levels(c.scheme) - 1, va);
      PathEnds(m, c, va, t, mode, leaf, w, m', path);
    }
  }

  // ---------------------------------------------------------------- two schemes written out

  lemma {:induction false} LittleEndianBound(s: seq<bv8>)
    ensures 0 <= LittleEndian(s) < Pow2(8 * |s|)
    decreases |s|
  {
    if s != [] {
      LittleEndianBound(s[1..]);
      Pow2Add(8, 8 * |s[1..]|);
      assert Pow2(8) == 0x100;
    }
  }

  lemma TablePowers()
    ensures Pow2(9) == 0x200 && Pow2(10) == 0x400 && Pow2(12) == 0x1000 && Pow2(21) == 0x20_0000 && Pow2(22) == 0x40_0000
    ensures Pow2(30) == 0x4000_0000
  {
    assert Pow2(9) == 0x200;
    Pow2Values();
    Pow2Add(12, 9);
    Pow2Add(12, 10);
    Pow2Add(21, 9);
  }

  lemma IndexValues(va: int)
    ensures Index(Sv32, va, 1) == va / 0x40_0000 % 0x400 && Index(Sv32, va, 0) == va / 0x1000 % 0x400
    ensures Index(Sv39, va, 2) == va / 0x4000_0000 % 0x200 && Index(Sv39, va, 1) == va / 0x20_0000 % 0x200
    ensures Index(Sv39, va, 0) == va / 0x1000 % 0x200
  {
    TablePowers();
  }

  /** A physical address of Sv32 has 34 bits. */
  lemma ShortAddress(e: int, p: int)
    requires 0 <= e < 0x1_0000_0000 && 0 <= p < 0x40_0000
    ensures (e / 0x400 * 0x1000 + p) % TWO64 == e / 0x400 * 0x1000 + p
  {
  }

  lemma ShortEntry(m: Mem, slot: int)
    ensures 0 <= Entry(m, Sv32, slot) < 0x1_0000_0000
  {
    LittleEndianBound(LoadBytes(m, slot, 4));
    Pow2Values();
  }

  /** Addresses of the entries on a path in Sv32 tables. */
  lemma Sv32Slots(m: Mem, root: int, va: int, path: seq<int>)
    requires IsPath(m, Sv32, root, 1, va, path)
    ensures path[0] == root + 4 * (va / 0x40_0000 % 0x400)
    ensures |path| > 1 ==> path[1] == Entry(m, Sv32, path[0]) / 0x400 * 0x1000 + 4 * (va / 0x1000 % 0x400)
  {
    IndexValues(va);
    ShortEntry(m, path[0]);
    ShortAddress(Entry(m, Sv32, path[0]), 0);
  }

  /** Addresses of the entries on a path in Sv39 tables. */
  lemma Sv39Slots(m: Mem, root: int, va: int, path: seq<int>)
    requires IsPath(m, Sv39, root, 2, va, path)
    ensures path[0] == root + 8 * (va / 0x4000_0000 % 0x200)
    ensures |path| > 1 ==> path[1] == Entry(m, Sv39, path[0]) / 0x400 * 0x1000 % TWO64 + 8 * (va / 0x20_0000 % 0x200)
    ensures |path| > 2 ==> path[2] == Entry(m, Sv39, path[1]) / 0x400 * 0x1000 % TWO64 + 8 * (va / 0x1000 % 0x200)
  {
    IndexValues(va);
  }

  /** A leaf of level i leaves P addresses open. */
  lemma AddressIs(m: Mem, c: Context, slot: int, i: nat, va: int, t: AccessType, w: Walked, m': Mem, P: int)
    requires Yields(m, c, slot, i, va, t, w, m') && P == Pow2(12 + i * IndexBits(c.scheme))
    ensures w.Mapped? && w.slot == slot
    ensures w.frame + va % 0x1000 == (Entry(m, c.scheme, slot) / 0x400 * 0x1000 + va % P) % TWO64
  {
  }

  /** Entries and physical address of va in Sv32 tables, by way of a superpage or of a second table. */
  lemma Sv32Address(m: Mem, c: Context, va: int, t: AccessType, w: Walked, m': Mem, path: seq<int>)
    requires c.scheme == Sv32 && IsPath(m, Sv32, c.root, 1, va, path)
    requires Yields(m, c, path[|path| - 1], 2 - |path|, va, t, w, m')
    ensures w.Mapped? && w.slot == path[|path| - 1]
    ensures path[0] == c.root + 4 * (va / 0x40_0000 % 0x400)
    ensures |path| > 1 ==> path[1] == Entry(m, Sv32, path[0]) / 0x400 * 0x1000 + 4 * (va / 0x1000 % 0x400)
    ensures w.frame + va % 0x1000 ==
            Entry(m, Sv32, w.slot) / 0x400 * 0x1000 + va % if |path| == 1 then 0x40_0000 else 0x1000
  {
    var P := if |path| == 1 then 0x40_0000 else 0x1000;
    TablePowers();
    AddressIs(m, c, path[|path| - 1], 2 - |path|, va, t, w, m', P);
    Sv32Slots(m, c.root, va, path);
    ShortEntry(m, w.slot);
    ShortAddress(Entry(m, Sv32, w.slot), va % P);
  }

  lemma Sv39Span(i: nat, P: int)
    requires i <= 2 && P == if i == 2 then 0x4000_0000 else if i == 1 then 0x20_0000 else 0x1000
    ensures P == Pow2(12 + i * IndexBits(Sv39))
  {
    TablePowers();
  }

  /** Entries and physical address of va in Sv39 tables, by way of superpages or of a third table. */
  lemma Sv39Address(m: Mem, c: Context, va: int, t: AccessType, w: Walked, m': Mem, path: seq<int>)
    requires c.scheme == Sv39 && IsPath(m, Sv39, c.root, 2, va, path)
    requires Yields(m, c, path[|path| - 1], 3 - |path|, va, t, w, m')
    ensures w.Mapped? && w.slot == path[|path| - 1]
    ensures path[0] == c.root + 8 * (va / 0x4000_0000 % 0x200)
    ensures |path| > 1 ==> path[1] == Entry(m, Sv39, path[0]) / 0x400 * 0x1000 % TWO64 + 8 * (va / 0x20_0000 % 0x200)
    ensures |path| > 2 ==> path[2] == Entry(m, Sv39, path[1]) / 0x400 * 0x1000 % TWO64 + 8 * (va / 0x1000 % 0x200)
    ensures w.frame + va % 0x1000 ==
            (Entry(m, Sv39, w.slot) / 0x400 * 0x1000
             + va % if |path| == 1 then 0x4000_0000 else if |path| == 2 then 0x20_0000 else 0x1000) % TWO64
  {
    var P := if |path| == 1 then 0x4000_0000 else if |path| == 2 then 0x20_0000 else 0x1000;
    Sv39Span(3 - |path|, P);
    AddressIs(m, c, path[|path| - 1], 3 - |path|, va, t, w, m', P);
    Sv39Slots(m, c.root, va, path);
  }

  // ---------------------------------------------------------------- the code

  /** The permission checks of MMU_T::walk. */
  method Check(v: Pte, t: AccessType, mode: Mode, sum: bool, mxr: bool) returns (ok: bool)
    ensures ok <==> v.Allows(t, mode, sum, mxr)
  {
    if t == FETCH && !v.X() { return false; }
    if t == LOAD && !v.R() && !(mxr && v.X()) { return false; }
    if t == STORE && !(v.R() && v.W()) { return false; }
    if v.U() {
      if mode == SupervisorMode && (t == FETCH || !sum) { return false; }
    } else {
      if mode != SupervisorMode { return false; }
    }
    return true;
  }

  /** The part of MMU_T::walk after a leaf was found. */
  method UseLeaf(m: Mem, c: Context, slot: int, i: nat, va: int, t: AccessType, mode: Mode) returns (w: Walked, m': Mem)
    ensures w == WalkLeaf(m, c, Leaf(slot, i), va / PAGE, t, mode) && m' == AfterWalk(m, w, t)
    ensures w.Mapped? <==> Usable(Entry(m, c.scheme, slot), c, i, t, mode)
    ensures if w.Mapped? then Yields(m, c, slot, i, va, t, w, m') else m' == m
  {
    var vm := DecodeVmInfo(c.scheme);
    var v := LoadPte(m, slot, vm.ptesize);
    w, m' := Fault, m;
    LeafMeans(m, c, slot, i, va, t, mode, WalkLeaf(m, c, Leaf(slot, i), va / PAGE, t, mode),
              AfterWalk(m, WalkLeaf(m, c, Leaf(slot, i), va / PAGE, t, mode), t));
    var ppn := v.Ppn();
    var ok := Check(v, t, mode, c.sum, c.mxr);
    if !ok || !SpanAligned(vm, ppn, i) { return; }
    if !v.Marked(t) {
      if c.faultOnAD { return; }
      m' := MarkSlot(m, slot, t);
    }
    w := Mapped(Frame(vm, ppn, va / PAGE, i), slot, v.Marked(t));
  }

  /** The loop of MMU_T::walk. */
  method FollowPointers(m: Mem, c: Context, va: int, t: AccessType, mode: Mode) returns (w: Walked, m': Mem)
    requires ExtensionOk(c, va / PAGE)
    ensures w == Walk(m, c, va / PAGE, t, mode) && m' == AfterWalk(m, w, t)
  {
    var vm, vpn := DecodeVmInfo(c.scheme), va / PAGE;
    w, m' := Fault, m;
    var base, i := c.root, vm.levels - 1;
    while i >= 0
      invariant -1 <= i < vm.levels
      invariant FindLeaf(m, vm, c.root, vm.levels - 1, vpn) == FindLeaf(m, vm, base, i, vpn)
      decreases i
    {
      var slot := Slot(vm, base, vpn, i);
      var v := LoadPte(m, slot, vm.ptesize);
      if !v.V() || (!v.R() && v.W()) {
        return;
      }
      if v.R() || v.X() {
        w, m' := UseLeaf(m, c, slot, i, va, t, mode);
        return;
      }
      base := v.Ppn() * PAGE % TWO64;
      i := i - 1;
    }
  }

  /** MMU_T::walk, level by level. */
  method WalkTables(m: Mem, c: Context, va: int, t: AccessType, mode: Mode) returns (w: Walked, m': Mem)
    ensures w == Walk(m, c, va / PAGE, t, mode) && m' == AfterWalk(m, w, t)
    ensures Walks(m, c, va, t, mode, w, m')
  {
    w, m' := Fault, m;
    if ExtensionOk(c, va / PAGE) {
      w, m' := FollowPointers(m, c, va, t, mode);
    }
    WalkMeans(m, c, va, t, mode, w, m');
  }
}
