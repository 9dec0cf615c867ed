/**
  Configuring the vector length, unit-stride loads and stores, and the copy loop that strip-mines with them.
 */
module VMemcpy {
  import opened Bits
  import opened ByteMemory

  const VLEN := 512
  const ELEN := 64
  const SEW_MIN := 8
  const VLENB := 64
  const NUM_REGS := 32

  /** The fields of a new vtype; reserved tells whether one of its reserved bits is set. */
  datatype Vtype = Vtype(vlmul: int, vsew: int, reserved: bool) {
    predicate Ok() { 0 <= vlmul < 8 && 0 <= vsew < 8 }

    /** LMUL: vlmul is the signed logarithm. */
    function Lmul(): (l: real)
      requires Ok()
      ensures l > 0.0
    {
      if vlmul == 0 then 1.0 else if vlmul == 1 then 2.0 else if vlmul == 2 then 4.0 else if vlmul == 3 then 8.0
      else if vlmul == 4 then 0.0625 else if vlmul == 5 then 0.125 else if vlmul == 6 then 0.25 else 0.5
    }

    function Sew(): (s: int)
      requires Ok()
      ensures s >= 8
    {
      if vsew == 0 then 8 else if vsew == 1 then 16 else if vsew == 2 then 32 else if vsew == 3 then 64
      else if vsew == 4 then 128 else if vsew == 5 then 256 else if vsew == 6 then 512 else 1024
    }

    function Vlmax(): int
      requires Ok()
    {
      (Lmul() * VLEN as real / Sew() as real).Floor
    }

    /** The configuration is illegal. */
    predicate Vill()
      requires Ok()
    {
      || Lmul() * ELEN as real < SEW_MIN as real
      || reserved
      || Sew() > 64
      || vlmul == 4
      || Sew() as real / Lmul() > ELEN as real
    }

    /** Size of a register group for elements of eb bytes, in registers. */
    function Emul(eb: int): real
      requires Ok()
    {
      (8 * eb) as real / Sew() as real * Lmul()
    }

    function Group(eb: int): int
      requires Ok()
    {
      if Emul(eb) < 1.0 then 1 else Emul(eb).Floor
    }
  }

  /** Elements have 8, 16, 32 or 64 bits. */
  predicate ElementBytes(eb: int) { eb == 1 || eb == 2 || eb == 4 || eb == 8 }

  // ---------------------------------------------------------------- the configuration in logarithms

  /** vlmul, a number of three bits, is signed. */
  function LogLmul(vlmul: int): int { if vlmul < 4 then vlmul else vlmul - 8 }

  /** Logarithm of the size in bits of an element of eb bytes. */
  function LogBits(eb: int): int { if eb == 1 then 3 else if eb == 2 then 4 else if eb == 4 then 5 else 6 }

  function LogEmul(vlmul: int, vsew: int, eb: int): int { LogBits(eb) - (vsew + 3) + LogLmul(vlmul) }

  /** Registers in a group. */
  function Registers(e: int): int { if e <= 0 then 1 else if e == 1 then 2 else if e == 2 then 4 else 8 }

  /** Between an eighth of a register and eight registers, aligned, and within the register file. */
  predicate Acceptable(vlmul: int, vsew: int, eb: int, rd: int) {
    var e := LogEmul(vlmul, vsew, eb);
    -3 <= e <= 3 && rd % Registers(e) == 0 && rd + Registers(e) <= 32
  }

  /** A configuration is illegal for elements of more than 64 bits, for LMUL below 1/8, and if SEW / LMUL is more than 64. */
  lemma VillIff(v: Vtype)
    requires v.Ok()
    ensures v.Vill() <==> v.reserved || v.vsew > 3 || v.vlmul == 4 || v.vsew + 3 - LogLmul(v.vlmul) > 6
  {
    if v.vsew == 0 {
    } else if v.vsew == 1 {
    } else if v.vsew == 2 {
    } else if v.vsew == 3 {
    }
  }

  /** EMUL is in range, and below 1, if its logarithm is; and the registers of a group. */
  ghost predicate GroupOk(v: Vtype, eb: int)
    requires v.Ok()
  {
    var e := LogEmul(v.vlmul, v.vsew, eb);
    && (0.125 <= v.Emul(eb) <= 8.0 <==> -3 <= e <= 3)
    && (v.Emul(eb) < 1.0 <==> e < 0)
    && (-3 <= e <= 3 ==> v.Group(eb) == Registers(e))
  }

  /** Powers of two with exponents from -6 to 6. */
  function Ratio(e: int): real {
    if e <= -6 then 0.015625 else if e == -5 then 0.03125 else if e == -4 then 0.0625 else if e == -3 then 0.125
    else if e == -2 then 0.25 else if e == -1 then 0.5 else if e == 0 then 1.0 else if e == 1 then 2.0
    else if e == 2 then 4.0 else if e == 3 then 8.0 else if e == 4 then 16.0 else if e == 5 then 32.0 else 64.0
  }

  lemma Scales(k: int, l: int, x: real, e: int)
    requires -3 <= k <= 3 && -3 <= l <= 3 && x == Ratio(l) && e == k + l
    ensures k == -3 ==> 0.125 * x == Ratio(e)
    ensures k == -2 ==> 0.25 * x == Ratio(e)
    ensures k == -1 ==> 0.5 * x == Ratio(e)
    ensures k == 0 ==> x == Ratio(e)
    ensures k == 1 ==> 2.0 * x == Ratio(e)
    ensures k == 2 ==> 4.0 * x == Ratio(e)
    ensures k == 3 ==> 8.0 * x == Ratio(e)
  {
  }

  /** The quotient of two widths. */
  lemma Widths(v: Vtype, eb: int) returns (k: int, q: real)
    requires v.Ok() && v.vsew <= 3 && ElementBytes(eb)
    ensures k == LogBits(eb) - (v.vsew + 3) && -3 <= k <= 3
    ensures q == (8 * eb) as real / v.Sew() as real == Ratio(k)
  {
    k, q := LogBits(eb) - (v.vsew + 3), (8 * eb) as real / v.Sew() as real;
  }

  lemma EmulIs(v: Vtype, eb: int) returns (e: int)
    requires v.Ok() && !v.Vill() && ElementBytes(eb)
    ensures e == LogEmul(v.vlmul, v.vsew, eb) && -6 <= e <= 6 && v.Emul(eb) == Ratio(e)
  {
    VillIff(v);
    var k, q := Widths(v, eb);
    var l := LogLmul(v.vlmul);
    var x := v.Lmul();
    e := k + l;
    Scales(k, l, x, e);
    assert v.Emul(eb) == q * x;
    Product(k, q, x, Ratio(e));
  }

  lemma Product(k: int, q: real, x: real, y: real)
    requires -3 <= k <= 3 && q == Ratio(k)
    requires k == -3 ==> 0.125 * x == y
    requires k == -2 ==> 0.25 * x == y
    requires k == -1 ==> 0.5 * x == y
    requires k == 0 ==> x == y
    requires k == 1 ==> 2.0 * x == y
    requires k == 2 ==> 4.0 * x == y
    requires k == 3 ==> 8.0 * x == y
    ensures q * x == y
  {
  }

  lemma GroupIs(v: Vtype, eb: int)
    requires v.Ok() && !v.Vill() && ElementBytes(eb)
    ensures GroupOk(v, eb)
  {
    var e := EmulIs(v, eb);
  }

  /** VLMAX is the power of two with the logarithms of VLEN = 512 and LMUL less that of SEW. */
  lemma VlmaxIs(v: Vtype)
    requires v.Ok() && !v.Vill()
    ensures var k := 9 + LogLmul(v.vlmul) - (v.vsew + 3); k >= 0 && v.Vlmax() == Pow2(k)
  {
    VillIff(v);
    assert Pow2(3) == 8 && Pow2(6) == 64 && Pow2(9) == 512 by { assert Pow2(3) == 8; assert Pow2(6) == 64; }
    if v.vsew == 0 {
    } else if v.vsew == 1 {
    } else if v.vsew == 2 {
    } else {
      assert v.vsew == 3;
    }
  }

  lemma MultiplesBelow32(e: int, rd: int)
    requires e <= 3 && 0 <= rd < 32
    ensures rd % Registers(e) == 0 ==> rd + Registers(e) <= 32
  {
    if e == 1 {
    } else if e == 2 {
    } else if e == 3 {
    }
  }

  /** A legal configuration serves elements of its own width in every aligned group of LMUL registers. */
  lemma OwnWidthAcceptable(v: Vtype, eb: int, rd: int)
    requires v.Ok() && !v.Vill() && ElementBytes(eb) && 8 * eb == v.Sew() && 0 <= rd < 32
    ensures Acceptable(v.vlmul, v.vsew, eb, rd) <==> rd % Registers(LogLmul(v.vlmul)) == 0
  {
    VillIff(v);
    var e := LogLmul(v.vlmul);
    assert LogEmul(v.vlmul, v.vsew, eb) == e;
    MultiplesBelow32(e, rd);
  }

  /** A legal configuration has between 8 and 512 elements, which together fill LMUL registers. */
  lemma LegalVlmax(v: Vtype)
    requires v.Ok() && !v.Vill()
    ensures 8 <= v.Vlmax() <= 512 && (v.Vlmax() * v.Sew()) as real == v.Lmul() * VLEN as real
  {
    if v.vsew == 0 {
    } else if v.vsew == 1 {
    } else if v.vsew == 2 {
    } else {
      assert v.vsew == 3;
    }
  }

  lemma GroupFitsNarrow(v: Vtype, eb: int)
    requires v.Ok() && !v.Vill() && ElementBytes(eb) && v.vsew < 2
    ensures v.Vlmax() * eb <= VLENB * v.Group(eb)
  {
    LegalVlmax(v);
    if v.vsew == 0 {
    } else {
      assert v.vsew == 1;
    }
  }

  lemma GroupFitsWide(v: Vtype, eb: int)
    requires v.Ok() && !v.Vill() && ElementBytes(eb) && v.vsew >= 2
    ensures v.Vlmax() * eb <= VLENB * v.Group(eb)
  {
    LegalVlmax(v);
    if v.vsew == 2 {
    } else {
      assert v.vsew == 3;
    }
  }

  /** Bytes of all elements fit the register group, whatever the width of the elements. */
  lemma GroupFits(v: Vtype, eb: int)
    requires v.Ok() && !v.Vill() && ElementBytes(eb)
    ensures v.Vlmax() * eb <= VLENB * v.Group(eb)
  {
    if v.vsew < 2 {
      GroupFitsNarrow(v, eb);
    } else {
      GroupFitsWide(v, eb);
    }
  }

  /** A register holds a whole number of elements. */
  lemma Lanes(eb: int)
    requires ElementBytes(eb)
    ensures VLENB / eb > 0 && VLENB / eb * eb == VLENB
  {
    if eb == 1 {
    } else if eb == 2 {
    } else if eb == 4 {
    } else {
      assert eb == 8;
    }
  }

  lemma Regroup(q: int, n: int, eb: int)
    ensures eb * (q * n) == q * (n * eb)
  {
  }

  /** Element i is lane r of register q behind the first one. */
  lemma LaneOf(rd: int, i: int, n: int, eb: int, q: int, r: int)
    requires n * eb == VLENB && i == q * n + r
    ensures (rd + q) * VLENB + r * eb == rd * VLENB + i * eb
  {
    Distribute(eb, q * n, r);
    Regroup(q, n, eb);
  }

  class VExtension {
    const regs: array<bv8>
    var mem: Mem
    var vtype: Vtype
    var vill: bool
    var vl: int
    var vstart: int

    ghost predicate Valid()
      reads this
    {
      && regs.Length == NUM_REGS * VLENB && vstart == 0 && vtype.Ok() && 0 <= vl
      && (!vill ==> !vtype.Vill() && vl <= vtype.Vlmax())
    }

    constructor (mem: Mem)
      ensures Valid() && fresh(regs) && this.mem == mem
    {
      regs := new bv8[NUM_REGS * VLENB](i => 0);
      this.mem := mem;
      vtype, vill, vl, vstart := Vtype(0, 0, false), true, 0, 0;
    }

    /**
      v_set_operation: rd and rs1 are register numbers, and avl is the value of rs1 or, for vsetivli, the immediate.
      Returns what is written to rd.
     */
    method SetVl(rd: int, rs1: int, v: Vtype, avl: int, immediate: bool) returns (written: int)
      requires Valid() && v.Ok() && 0 <= avl
      modifies this`vtype, this`vill, this`vl
      ensures Valid() && vill == v.Vill() && written == vl
      ensures vill ==> vl == 0
      ensures !vill ==> vtype == v
      ensures !vill && (immediate || rs1 != 0) ==> vl == if avl <= v.Vlmax() then avl else v.Vlmax()
      ensures !vill && (immediate || rs1 != 0) && avl > 0 ==> 0 < vl
      ensures !vill && !immediate && rs1 == 0 && rd != 0 ==> vl == v.Vlmax()
      ensures !vill && !immediate && rs1 == 0 && rd == 0 ==>
                vl == if old(vl) <= v.Vlmax() then old(vl) else v.Vlmax()
    {
      var length := avl;
      if !immediate {
        if rs1 != 0 {
          length := avl;
        } else if rd != 0 {
          length := 0xFFFF_FFFF_FFFF_FFFF;
        } else {
          length := vl;
        }
      }
      if !v.Vill() {
        LegalVlmax(v);
      }
      vl := if length <= v.Vlmax() then length else v.Vlmax();
      vtype, vill := v, v.Vill();
      if vill {
        vl := 0;
        vtype := Vtype(0, 0, false);
      }
      written := vl;
    }

    /** The checks of vLoadReqs and the alignment check, for elements of eb bytes and no further fields. */
    predicate Accepts(rd: int, eb: int)
      requires vtype.Ok()
      reads this
    {
      && !vill && 0.125 <= vtype.Emul(eb) <= 8.0 && vtype.Group(eb) <= 8 && rd + vtype.Group(eb) <= NUM_REGS
      && (vtype.Emul(eb) < 1.0 || rd % vtype.Group(eb) == 0)
    }

    /** What the checks accept. */
    lemma AcceptsIff(rd: int, eb: int)
      requires Valid() && ElementBytes(eb)
      ensures Accepts(rd, eb) <==> !vill && Acceptable(vtype.vlmul, vtype.vsew, eb, rd)
    {
      if !vill {
        GroupIs(vtype, eb);
      }
    }

    /** Where vIndices and get_reg put element i of a group that starts at rd. */
    function Index(rd: int, i: int, eb: int): int
      requires ElementBytes(eb)
    {
      (rd + i / (VLENB / eb)) * VLENB + i % (VLENB / eb) * eb
    }

    lemma IndexIs(rd: int, i: int, eb: int)
      requires ElementBytes(eb)
      ensures Index(rd, i, eb) == rd * VLENB + i * eb
    {
      Lanes(eb);
      var n := VLENB / eb;
      DivMod(i, n);
      LaneOf(rd, i, n, eb, i / n, i % n);
    }

    /** Element i, and where the next one starts. */
    lemma ElementAt(rd: int, i: int, eb: int, pos: int, end: int)
      requires ElementBytes(eb) && 0 <= i < vl && pos == i * eb && end == vl * eb
      ensures Index(rd, i, eb) == rd * VLENB + pos && 0 <= pos
      ensures (i + 1) * eb == pos + eb <= end && (i + 1 == vl ==> pos + eb == end)
    {
      IndexIs(rd, i, eb);
      Within(i, vl, eb);
    }

    /** All elements of an accepted access are in the register file. */
    lemma InFile(rd: int, eb: int)
      requires Valid() && ElementBytes(eb) && Accepts(rd, eb)
      ensures 0 <= vl * eb && rd * VLENB + vl * eb <= regs.Length
    {
      GroupFits(vtype, eb);
      assert vl * eb <= vtype.Vlmax() * eb;
    }

    /** Load one element, lowest byte first. */
    method LoadElement(idx: int, addr: int, eb: int)
      requires 0 <= idx && 0 < eb && idx + eb <= regs.Length
      modifies regs
      ensures forall r :: idx <= r < idx + eb ==> regs[r] == Byte(mem, addr + (r - idx))
      ensures forall r :: 0 <= r < regs.Length && !(idx <= r < idx + eb) ==> regs[r] == old(regs[r])
    {
      var data := LoadBytes(mem, addr, eb);
      forall r | idx <= r < idx + eb {
        regs[r] := data[r - idx];
      }
    }

    /** vle8.v to vle64.v without mask; refused with an illegal instruction trap if not ok. */
    method Load(eb: int, rd: int, base: int) returns (ok: bool)
      requires Valid() && 0 <= rd && ElementBytes(eb)
      modifies regs, this`vstart
      ensures Valid() && ok == Accepts(rd, eb)
      ensures ok <==> !vill && Acceptable(vtype.vlmul, vtype.vsew, eb, rd)
      ensures !ok ==> regs[..] == old(regs[..])
      ensures ok ==> 0 <= vl * eb && rd * VLENB + vl * eb <= regs.Length
      ensures ok ==> forall r :: rd * VLENB <= r < rd * VLENB + vl * eb ==> regs[r] == Byte(mem, base + (r - rd * VLENB))
      ensures ok ==> forall r :: 0 <= r < regs.Length && !(rd * VLENB <= r < rd * VLENB + vl * eb) ==> regs[r] == old(regs[r])
    {
      AcceptsIff(rd, eb);
      ok := Accepts(rd, eb);
      if !ok {
        return;
      }
      InFile(rd, eb);
      var first, i, pos := rd * VLENB, 0, 0;
      ghost var end := vl * eb;
      while i < vl
        invariant 0 <= i <= vl && pos == i * eb && 0 <= pos <= end && (i == vl ==> pos == end)
        invariant forall r :: first <= r < first + pos ==> regs[r] == Byte(mem, base + (r - first))
        invariant forall r :: 0 <= r < regs.Length && !(first <= r < first + pos) ==> regs[r] == old(regs[r])
      {
        vstart := i;
        ElementAt(rd, i, eb, pos, end);
        LoadElement(Index(rd, i, eb), base + pos, eb);
        i, pos := i + 1, pos + eb;
      }
      vstart := 0;
    }

    /** vse8.v to vse64.v without mask. */
    method Store(eb: int, rd: int, base: int) returns (ok: bool)
      requires Valid() && 0 <= rd && ElementBytes(eb)
      modifies this`mem, this`vstart
      ensures Valid() && ok == Accepts(rd, eb)
      ensures ok <==> !vill && Acceptable(vtype.vlmul, vtype.vsew, eb, rd)
      ensures !ok ==> mem == old(mem)
      ensures ok ==> 0 <= vl * eb && rd * VLENB + vl * eb <= regs.Length
      ensures ok ==> forall x :: Byte(mem, x) == if base <= x < base + vl * eb then regs[rd * VLENB + (x - base)] else Byte(old(mem), x)
    {
      AcceptsIff(rd, eb);
      ok := Accepts(rd, eb);
      if !ok {
        return;
      }
      InFile(rd, eb);
      var first, i, pos := rd * VLENB, 0, 0;
      while i < vl
        invariant 0 <= i <= vl && pos == i * eb && 0 <= pos <= vl * eb
        invariant forall x :: Byte(mem, x) == if base <= x < base + pos then regs[first + (x - base)] else Byte(old(mem), x)
      {
        vstart := i;
        IndexIs(rd, i, eb);
        Within(i, vl, eb);
        mem := StoreBytes(mem, base + i * eb, regs[Index(rd, i, eb)..Index(rd, i, eb) + eb]);
        i, pos := i + 1, pos + eb;
      }
      vstart := 0;
    }
  }

  lemma Within(i: int, n: int, eb: int)
    requires 0 <= i < n && eb > 0
    ensures 0 <= i * eb && i * eb + eb <= n * eb && (i + 1) * eb == i * eb + eb
  {
    Distribute(eb, i, 1);
    MulMonotone(eb, 0, i);
    MulMonotone(eb, i + 1, n);
  }

  /** The bytes that a copy of n bytes leaves. */
  ghost predicate Copied(m: Mem, m': Mem, dest: int, src: int, n: int) {
    && (forall x {:trigger Byte(m', x)} :: dest <= x < dest + n ==> Byte(m', x) == Byte(m, src + (x - dest)))
    && (forall x {:trigger Byte(m', x)} :: x < dest || dest + n <= x ==> Byte(m', x) == Byte(m, x))
  }

  /** One more strip: its bytes were not yet overwritten when they were loaded. */
  lemma CopiedStrip(m: Mem, m': Mem, m'': Mem, dest: int, src: int, done: int, vl: int)
    requires 0 <= done && 0 <= vl && (src + done + vl <= dest || dest + done + vl <= src)
    requires Copied(m, m', dest, src, done) && Copied(m', m'', dest + done, src + done, vl)
    ensures Copied(m, m'', dest, src, done + vl)
  {
    forall x | dest <= x < dest + (done + vl)
      ensures Byte(m'', x) == Byte(m, src + (x - dest))
    {
      if x < dest + done {
        assert Byte(m'', x) == Byte(m', x);
      } else {
        assert Byte(m'', x) == Byte(m', src + done + (x - (dest + done)));
        assert Byte(m', src + (x - dest)) == Byte(m, src + (x - dest));
      }
    }
  }

  /** Bytes in groups of eight registers. */
  lemma ByteStrips()
    ensures !Vtype(3, 0, false).Vill() && Vtype(3, 0, false).Vlmax() == 512 && Acceptable(3, 0, 1, 0)
  {
  }

  /** One pass of the loop of memcpy_rvv. */
  method CopyStrip(v: VExtension, d: int, s: int, n: int) returns (vl: int)
    requires v.Valid() && 0 < n
    modifies v, v.regs
    ensures v.Valid() && vl == (if n <= 512 then n else 512) && Copied(old(v.mem), v.mem, d, s, vl)
  {
    ByteStrips();
    vl := v.SetVl(1, 1, Vtype(3, 0, false), n, false);
    var loaded := v.Load(1, 0, s);
    var stored := v.Store(1, 0, d);
  }

  /** The same after `done` bytes have been copied. */
  method CopyMore(v: VExtension, d: int, s: int, n: int, ghost dest: int, ghost src: int, ghost done: int, ghost initial: Mem)
    returns (vl: int)
    requires v.Valid() && 0 < n && 0 <= done && d == dest + done && s == src + done && (s + n <= dest || d + n <= src)
    requires Copied(initial, v.mem, dest, src, done)
    modifies v, v.regs
    ensures v.Valid() && 0 < vl <= n && Copied(initial, v.mem, dest, src, done + vl)
  {
    ghost var before := v.mem;
    vl := CopyStrip(v, d, s, n);
    CopiedStrip(initial, before, v.mem, dest, src, done, vl);
  }

  /** memcpy_rvv: any number of bytes between areas that do not overlap, in strips of at most 512. */
  method Memcpy(v: VExtension, dest: int, src: int, len: int)
    requires v.Valid() && 0 <= len && (src + len <= dest || dest + len <= src)
    modifies v, v.regs
    ensures v.Valid() && Copied(old(v.mem), v.mem, dest, src, len)
  {
    ghost var initial := v.mem;
    var d, s, n := dest, src, len;
    while n != 0
      invariant 0 <= n <= len && d == dest + (len - n) && s == src + (len - n)
      invariant v.Valid() && Copied(initial, v.mem, dest, src, len - n)
      decreases n
    {
      var vl := CopyMore(v, d, s, n, dest, src, len - n, initial);
      s, d, n := s + vl, d + vl, n - vl;
    }
  }
}
