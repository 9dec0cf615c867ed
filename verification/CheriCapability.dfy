/**
  A capability that instructions derive from another one, in place: the tag survives only if the bounds do not grow.
 */
module CheriCapability {
  import opened Bits
  import opened CheriBounds
  import opened CheriRep
  import opened CheriSet
  import opened CheriCap
  import opened CheriNarrow

  const UNSEALED := 0x3FFFF
  const RESET_E := 52
  const RESET_T := 0x1000

  /** Permissions, flags and the reserved bits are left out: no operation here reads or changes them. */
  datatype Fields = Fields(tag: bool, otype: int, internalE: bool, E: nat, B: int, T: int, address: int) {
    predicate WellFormed() { IsMantissa(B) && IsMantissa(T) && IsU64(address) }

    function Bounds(): Bounds { GetBounds(E, B, T, address) }

    predicate Sealed() { otype != UNSEALED }
  }

  /** The fields encode the request base..top, and decode to it after rounding. */
  ghost predicate Encoding(f: Fields, base: int, top: int) {
    && Request(base, top)
    && var c := SetBounds(base, top);
       && f.internalE == c.internalE && f.E == c.E && f.B == c.B && f.T == c.T
       && f.Bounds() == Rounded(base, top)
  }

  /** The fields could have been produced by setCapBounds. */
  ghost predicate Derived(f: Fields) { exists base, top :: Encoding(f, base, top) }

  datatype Op =
    | CSetBounds(length: int)
    | CSetBoundsExact(length: int)
    | CSetOffset(offset: int)
    | CIncOffset(delta: int)
    | CSetAddr(addr: int)
    | CClearTag

  predicate Argument(op: Op) {
    match op
    case CSetBounds(n) => IsU64(n)
    case CSetBoundsExact(n) => IsU64(n)
    case CSetOffset(n) => IsU64(n)
    case CIncOffset(n) => IsU64(n)
    case CSetAddr(n) => IsU64(n)
    case CClearTag => true
  }

  // ---------------------------------------------------------------- what the operations do

  /** A step of the address by i, in units of 2^E, passes the fast check. */
  predicate Representable(f: Fields, i: int) {
    f.E >= MAX_E - 2 || PassesFrom(S64(i) / Pow2(f.E), Depth(f.E, f.B, f.address))
  }

  /** Only the address has moved, to `a`, and an unsealed capability keeps its tag if `ok`. */
  predicate MovesTo(f: Fields, a: int, ok: bool, f': Fields) {
    f' == f.(address := a, tag := f.tag && !f.Sealed() && ok)
  }

  /** The bounds have become the n bytes from the address on, rounded; there is a tag exactly if those were within bounds. */
  ghost predicate Rebounds(f: Fields, n: int, exactly: bool, f': Fields) {
    var top := f.address + n;
    && IsU64(f.address) && IsU64(n)
    && f' == f.(tag := f'.tag, internalE := f'.internalE, E := f'.E, B := f'.B, T := f'.T)
    && (top <= TWO64 ==> Encoding(f', f.address, top))
    && (f'.tag <==>
          && f.tag && !f.Sealed() && f.Bounds().base <= f.address && top <= f.Bounds().top
          && (exactly ==> SetBounds(f.address, top).exact))
    && (exactly && f'.tag && top <= TWO64 ==> f'.Bounds() == Bounds(f.address, top))
  }

  ghost predicate Effect(f: Fields, op: Op, f': Fields) {
    match op
    case CSetBounds(n) => Rebounds(f, n, false, f')
    case CSetBoundsExact(n) => Rebounds(f, n, true, f')
    case CSetOffset(n) =>
      MovesTo(f, U64(f.Bounds().base + n), Representable(f, U64(f.Bounds().base + n - f.address)), f')
    case CIncOffset(n) => MovesTo(f, U64(f.address + n), Representable(f, n), f')
    case CSetAddr(n) => MovesTo(f, n, f'.Bounds() == f.Bounds(), f')
    case CClearTag => f' == f.(tag := false)
  }

  /** The operation asks for nothing outside the bounds. */
  predicate Proper(f: Fields, op: Op) {
    var b := f.Bounds();
    match op
    case CSetBounds(n) => f.address + n <= b.top
    case CSetBoundsExact(n) =>
      IsU64(f.address) && IsU64(n) && f.address + n <= b.top && SetBounds(f.address, f.address + n).exact
    case CSetOffset(n) => Within(U64(b.base + n), b)
    case CIncOffset(n) => Within(U64(f.address + n), b)
    case CSetAddr(n) => Within(n, b)
    case CClearTag => false
  }

  /** A capability that can be used: tagged, unsealed, and with its address within its bounds. */
  ghost predicate Usable(f: Fields) { f.tag && !f.Sealed() && Derived(f) && Within(f.address, f.Bounds()) }

  /** The one kind of step that the fast check gets wrong. */
  predicate Overrun(f: Fields, op: Op) {
    match op
    case CSetOffset(n) => Overruns(f.E, f.B, f.address, U64(f.Bounds().base + n - f.address))
    case CIncOffset(n) => Overruns(f.E, f.B, f.address, n)
    case _ => false
  }

  /** A tag that survives an operation: it was there before, and the bounds did not grow. */
  ghost predicate Narrowed(f: Fields, f': Fields) {
    f'.tag ==> f.tag && (Derived(f) ==> Derived(f') && Inside(f'.Bounds(), f.Bounds()))
  }

  // ---------------------------------------------------------------- reasons

  lemma MovedKeeps(f: Fields, f': Fields)
    requires f' == f.(tag := f'.tag, address := f'.address) && (f'.tag ==> f.tag)
    requires f'.tag ==> f'.Bounds() == f.Bounds()
    ensures Narrowed(f, f')
  {
    if f'.tag && Derived(f) {
      var base, top :| Encoding(f, base, top);
      assert Encoding(f', base, top);
    }
  }

  lemma FastMove(f: Fields, i: int)
    requires f.WellFormed() && IsU64(i)
    requires FastRepCheck(f.E, f.B, f.address, i) && !Overruns(f.E, f.B, f.address, i)
    ensures f.(address := U64(f.address + i)).Bounds() == f.Bounds()
  {
    FastRepCheckExact(f.E, f.B, f.T, f.address, i);
  }

  lemma OffsetMove(f: Fields, offset: int)
    requires f.WellFormed() && IsU64(offset)
    ensures var i := U64(f.Bounds().base + offset - f.address);
            FastRepCheck(f.E, f.B, f.address, i) && !Overruns(f.E, f.B, f.address, i) ==>
              f.(address := U64(f.Bounds().base + offset)).Bounds() == f.Bounds()
  {
    var b := f.Bounds().base;
    var i := U64(b + offset - f.address);
    OffsetAddress(b, offset, f.address);
    if FastRepCheck(f.E, f.B, f.address, i) && !Overruns(f.E, f.B, f.address, i) {
      FastMove(f, i);
    }
  }

  lemma OffsetAddress(b: int, offset: int, a: int)
    ensures U64(a + U64(b + offset - a)) == U64(b + offset)
  {
  }

  /** With the address within bounds the check is not too weak: what it accepts keeps the bounds. */
  lemma AcceptedKeeps(f: Fields, base: int, top: int, i: int)
    requires Encoding(f, base, top) && Within(f.address, Rounded(base, top)) && IsU64(i)
    requires FastRepCheck(f.E, f.B, f.address, i)
    ensures f.(address := U64(f.address + i)).Bounds() == f.Bounds()
  {
    CheckSoundWithin(base, top, f.address, i);
  }

  /** Nor is it too strict: it accepts every move to another address within bounds. */
  lemma WithinAccepted(f: Fields, base: int, top: int, i: int)
    requires Request(base, top) && f.E == SetBounds(base, top).E && f.B == SetBounds(base, top).B && IsU64(i)
    requires Within(f.address, Rounded(base, top)) && Within(U64(f.address + i), Rounded(base, top))
    ensures FastRepCheck(f.E, f.B, f.address, i)
  {
    StepAcceptedWithin(base, top, f.address, U64(f.address + i), i);
  }

  lemma RequestKeeps(f: Fields, f': Fields, top: int)
    requires f.WellFormed() && 0 <= f.address <= top && f'.address == f.address && (f'.tag ==> f.tag)
    requires var c := SetBounds(f.address, top); f'.internalE == c.internalE && f'.E == c.E && f'.B == c.B && f'.T == c.T
    requires f'.tag ==> f.Bounds().base <= f.address && top <= f.Bounds().top
    ensures Narrowed(f, f')
  {
    if f'.tag && Derived(f) {
      var base0, top0 :| Encoding(f, base0, top0);
      RoundedWithin(base0, top0);
      Narrower(base0, top0, f.address, top);
      RoundedWithin(f.address, top);
      SetThenGet(f.address, top, f.address);
      assert Encoding(f', f.address, top);
    }
  }

  lemma RepresentableIff(f: Fields, i: int)
    requires f.WellFormed() && IsU64(i)
    ensures FastRepCheck(f.E, f.B, f.address, i) <==> Representable(f, i)
  {
    if f.E < MAX_E - 2 {
      FastRepInUnits(f.E, f.B, f.address, i);
    }
  }

  // ---------------------------------------------------------------- operations that stay within bounds

  lemma StepWithin(f: Fields, base: int, top: int, i: int, a: int)
    requires f.WellFormed() && Encoding(f, base, top) && Within(f.address, Rounded(base, top))
    requires IsU64(i) && a == U64(f.address + i) && Within(a, Rounded(base, top))
    ensures Representable(f, i) && Encoding(f.(address := a), base, top)
  {
    WithinAccepted(f, base, top, i);
    AcceptedKeeps(f, base, top, i);
    RepresentableIff(f, i);
  }

  /** A move within bounds keeps bounds and tag. */
  lemma MoveKeepsTag(f: Fields, i: int, a: int, ok: bool, f': Fields)
    requires f.WellFormed() && Usable(f) && IsU64(i) && a == U64(f.address + i) && Within(a, f.Bounds())
    requires MovesTo(f, a, ok, f') && (Representable(f, i) ==> ok)
    ensures Usable(f') && f'.Bounds() == f.Bounds()
  {
    var base, top :| Encoding(f, base, top);
    StepWithin(f, base, top, i, a);
    assert f' == f.(address := a);
    assert Encoding(f', base, top);
  }

  lemma OffsetStep(b: int, n: int, a: int) returns (i: int, a': int)
    ensures i == U64(b + n - a) && a' == U64(b + n) && IsU64(i) && a' == U64(a + i)
  {
    i, a' := U64(b + n - a), U64(b + n);
    OffsetAddress(b, n, a);
  }

  lemma StepTo(a: int, a': int) returns (i: int)
    requires IsU64(a) && IsU64(a')
    ensures IsU64(i) && a' == U64(a + i)
  {
    i := if a <= a' then a' - a else a' - a + TWO64;
  }

  lemma OffsetKeepsTag(f: Fields, b: int, n: int, a: int, ok: bool, f': Fields)
    requires f.WellFormed() && Usable(f) && a == U64(b + n) && Within(a, f.Bounds())
    requires MovesTo(f, a, ok, f') && (Representable(f, U64(b + n - f.address)) ==> ok)
    ensures Usable(f') && f'.Bounds() == f.Bounds()
  {
    var i, a' := OffsetStep(b, n, f.address);
    MoveKeepsTag(f, i, a, ok, f');
  }

  lemma AddressKeepsTag(f: Fields, a: int, ok: bool, f': Fields)
    requires f.WellFormed() && Usable(f) && Within(a, f.Bounds())
    requires MovesTo(f, a, ok, f') && (f'.Bounds() == f.Bounds() ==> ok)
    ensures Usable(f') && f'.Bounds() == f.Bounds()
  {
    var i := StepTo(f.address, a);
    var moved := f.(address := a);
    MoveKeepsTag(f, i, a, true, moved);
    assert f'.Bounds() == moved.Bounds();
  }

  lemma DerivedTop(f: Fields)
    requires Derived(f)
    ensures f.Bounds().top <= TWO64
  {
    var base, top :| Encoding(f, base, top);
    RoundedWithin(base, top);
  }

  lemma EncodedWithin(f: Fields, base: int, top: int)
    requires Encoding(f, base, top)
    ensures Within(base, f.Bounds())
  {
    RoundedWithin(base, top);
  }

  lemma RequestEncoded(f: Fields, n: int, exactly: bool, f': Fields)
    requires Rebounds(f, n, exactly, f') && f.address + n <= TWO64
    ensures Encoding(f', f.address, f.address + n) && f'.address == f.address && f'.otype == f.otype
  {
  }

  lemma RequestUsable(f: Fields, n: int, f': Fields)
    requires Encoding(f', f.address, f.address + n) && f'.address == f.address
    requires f'.otype == f.otype && !f.Sealed() && f'.tag
    ensures Usable(f')
  {
    EncodedWithin(f', f.address, f.address + n);
  }

  lemma NarrowedMeans(f: Fields, f': Fields)
    requires Narrowed(f, f') && f'.tag && Derived(f)
    ensures Inside(f'.Bounds(), f.Bounds())
  {
  }

  lemma RequestKeepsTag(f: Fields, n: int, exactly: bool, f': Fields)
    requires Usable(f) && Rebounds(f, n, exactly, f') && f'.tag && f.address + n <= f.Bounds().top && Narrowed(f, f')
    ensures Usable(f') && Inside(f'.Bounds(), f.Bounds())
  {
    DerivedTop(f);
    RequestEncoded(f, n, exactly, f');
    RequestUsable(f, n, f');
    NarrowedMeans(f, f');
  }

  lemma OffsetMoves(f: Fields, n: int, f': Fields) returns (b: int, a: int, ok: bool)
    requires Effect(f, CSetOffset(n), f') && Proper(f, CSetOffset(n))
    ensures a == U64(b + n) && ok == Representable(f, U64(b + n - f.address))
    ensures MovesTo(f, a, ok, f') && Within(a, f.Bounds())
  {
    b := f.Bounds().base;
    a, ok := U64(b + n), Representable(f, U64(b + n - f.address));
  }

  lemma OffsetInside(f: Fields, n: int, f': Fields)
    requires f.WellFormed() && Usable(f) && Proper(f, CSetOffset(n)) && Effect(f, CSetOffset(n), f')
    ensures Usable(f') && f'.Bounds() == f.Bounds()
  {
    var b, a, ok := OffsetMoves(f, n, f');
    OffsetKeepsTag(f, b, n, a, ok, f');
  }

  lemma IncrementMoves(f: Fields, n: int, f': Fields) returns (a: int, ok: bool)
    requires Effect(f, CIncOffset(n), f') && Proper(f, CIncOffset(n))
    ensures a == U64(f.address + n) && ok == Representable(f, n)
    ensures MovesTo(f, a, ok, f') && Within(a, f.Bounds())
  {
    a, ok := U64(f.address + n), Representable(f, n);
  }

  lemma IncrementInside(f: Fields, n: int, f': Fields)
    requires f.WellFormed() && Usable(f) && IsU64(n) && Proper(f, CIncOffset(n)) && Effect(f, CIncOffset(n), f')
    ensures Usable(f') && f'.Bounds() == f.Bounds()
  {
    var a, ok := IncrementMoves(f, n, f');
    MoveKeepsTag(f, n, a, ok, f');
  }

  lemma AddressInside(f: Fields, a: int, f': Fields)
    requires f.WellFormed() && Usable(f) && Proper(f, CSetAddr(a)) && Effect(f, CSetAddr(a), f')
    ensures Usable(f') && f'.Bounds() == f.Bounds()
  {
    var ok := f'.Bounds() == f.Bounds();
    assert MovesTo(f, a, ok, f');
    AddressKeepsTag(f, a, ok, f');
  }

  /** A proper request, and the tag it leaves. */
  lemma RequestGrants(f: Fields, op: Op, f': Fields)
    requires op.CSetBounds? || op.CSetBoundsExact?
    requires Proper(f, op) && Effect(f, op, f') && f.tag && !f.Sealed() && f.Bounds().base <= f.address
    ensures Rebounds(f, op.length, op.CSetBoundsExact?, f') && f'.tag && f.address + op.length <= f.Bounds().top
  {
  }

  lemma RequestInside(f: Fields, op: Op, f': Fields)
    requires op.CSetBounds? || op.CSetBoundsExact?
    requires f.WellFormed() && Usable(f) && Proper(f, op) && Effect(f, op, f') && Narrowed(f, f')
    ensures Usable(f') && Inside(f'.Bounds(), f.Bounds())
  {
    RequestGrants(f, op, f');
    RequestKeepsTag(f, op.length, op.CSetBoundsExact?, f');
  }

  /** An operation that asks for nothing outside the bounds keeps the tag, and the capability usable. */
  lemma ProperKeepsTag(f: Fields, op: Op, f': Fields)
    requires f.WellFormed() && Usable(f) && Argument(op) && Proper(f, op) && Effect(f, op, f')
    requires op.CSetBounds? || op.CSetBoundsExact? ==> Narrowed(f, f')
    ensures Usable(f') && Inside(f'.Bounds(), f.Bounds())
  {
    if op.CSetBounds? || op.CSetBoundsExact? {
      RequestInside(f, op, f');
    } else if op.CSetOffset? {
      OffsetInside(f, op.offset, f');
    } else if op.CIncOffset? {
      IncrementInside(f, op.delta, f');
    } else if op.CSetAddr? {
      AddressInside(f, op.addr, f');
    }
  }

  lemma RoundedWithin(base: int, top: int)
    requires Request(base, top)
    ensures var r := Rounded(base, top); 0 <= r.base <= base && top <= r.top <= TWO64
  {
    var c := SetBounds(base, top);
    SetBoundsEncodes(base, top);
    Rounding(base, Granule(c));
    Rounding(top, Granule(c));
    SetThenGet(base, top, base);
  }

  // ---------------------------------------------------------------- the capability

  class Capability {
    var cap: Fields

    predicate Valid()
      reads this
    {
      cap.WellFormed()
    }

    /** The default capability grants the whole address space. */
    constructor ()
      ensures Valid() && cap == Fields(true, UNSEALED, true, RESET_E, 0, RESET_T, 0)
      ensures Encoding(cap, 0, TWO64) && cap.Bounds() == Bounds(0, TWO64)
    {
      cap := Fields(true, UNSEALED, true, RESET_E, 0, RESET_T, 0);
      RootIs();
    }

    method ClearTagIf(cond: bool)
      modifies this
      ensures cap == old(cap).(tag := old(cap).tag && !cond)
    {
      cap := cap.(tag := cap.tag && !cond);
    }

    method InCapBounds(addr: int, size: int) returns (r: bool)
      ensures r <==> cap.Bounds().base <= addr && addr + size <= cap.Bounds().top
    {
      var b := cap.Bounds();
      r := addr >= b.base && addr + size <= b.top;
    }

    method SetCapBounds(base: int, top: int) returns (exact: bool)
      requires Valid() && IsU64(base) && base <= top
      modifies this
      ensures Valid() && cap.tag == old(cap.tag) && cap.otype == old(cap.otype) && cap.address == base
      ensures cap == old(cap).(address := base, internalE := cap.internalE, E := cap.E, B := cap.B, T := cap.T)
      ensures var c := SetBounds(base, top);
              cap.internalE == c.internalE && cap.E == c.E && cap.B == c.B && cap.T == c.T && exact == c.exact
      ensures top <= TWO64 ==> Encoding(cap, base, top) && (exact <==> cap.Bounds() == Bounds(base, top))
    {
      var c := SetBounds(base, top);
      cap := cap.(address := base, internalE := c.internalE, E := c.E, B := c.B, T := c.T);
      exact := c.exact;
      if top <= TWO64 {
        RoundedWithin(base, top);
        SetThenGet(base, top, base);
        ExactIff(base, top);
      }
    }

    method SetCapOffset(offset: int) returns (representable: bool)
      requires Valid() && IsU64(offset)
      modifies this
      ensures Valid() && cap == old(cap).(address := U64(old(cap).Bounds().base + offset))
      ensures representable == var f := old(cap); FastRepCheck(f.E, f.B, f.address, U64(f.Bounds().base + offset - f.address))
    {
      var base := cap.Bounds().base;
      representable := FastRepCheck(cap.E, cap.B, cap.address, U64(base + offset - cap.address));
      cap := cap.(address := U64(base + offset));
    }

    method IncCapOffset(delta: int) returns (representable: bool)
      requires Valid() && IsU64(delta)
      modifies this
      ensures Valid() && cap == old(cap).(address := U64(old(cap).address + delta))
      ensures representable == var f := old(cap); FastRepCheck(f.E, f.B, f.address, delta)
    {
      representable := FastRepCheck(cap.E, cap.B, cap.address, delta);
      cap := cap.(address := U64(cap.address + delta));
    }

    method SetCapAddr(addr: int) returns (representable: bool)
      requires Valid() && IsU64(addr)
      modifies this
      ensures Valid() && cap == old(cap).(address := addr)
      ensures representable <==> cap.Bounds() == old(cap).Bounds()
    {
      var before := cap.Bounds();
      cap := cap.(address := addr);
      representable := before == cap.Bounds();
    }

    // -------------------------------------------------------------- instructions

    method SetBoundsInstr(length: int, exactly: bool)
      requires Valid() && IsU64(length)
      modifies this
      ensures Valid() && Narrowed(old(cap), cap) && cap.otype == old(cap.otype) && cap.address == old(cap.address)
      ensures cap.address + length <= TWO64 ==> Encoding(cap, cap.address, cap.address + length)
      ensures var base, b := old(cap.address), old(cap).Bounds();
              cap.tag <==> old(cap.tag && !cap.Sealed()) && b.base <= base && base + length <= b.top
                           && (exactly ==> SetBounds(base, base + length).exact)
      ensures Rebounds(old(cap), length, exactly, cap)
    {
      var base := cap.address;
      var top := base + length;
      var inBounds := InCapBounds(base, length);
      ClearTagIf(cap.Sealed());
      var exact := SetCapBounds(base, top);
      ClearTagIf(if exactly then !(inBounds && exact) else !inBounds);
      RequestKeeps(old(cap), cap, top);
    }

    method SetOffsetInstr(offset: int)
      requires Valid() && IsU64(offset)
      modifies this
      ensures Valid() && cap == old(cap).(tag := cap.tag, address := U64(old(cap).Bounds().base + offset))
      ensures var f := old(cap);
              cap.tag <==> f.tag && !f.Sealed() && FastRepCheck(f.E, f.B, f.address, U64(f.Bounds().base + offset - f.address))
      ensures !Overrun(old(cap), CSetOffset(offset)) ==> Narrowed(old(cap), cap)
      ensures Effect(old(cap), CSetOffset(offset), cap)
    {
      RepresentableIff(cap, U64(cap.Bounds().base + offset - cap.address));
      ClearTagIf(cap.Sealed());
      var success := SetCapOffset(offset);
      ClearTagIf(!success);
      OffsetMove(old(cap), offset);
      if !Overrun(old(cap), CSetOffset(offset)) {
        MovedKeeps(old(cap), cap);
      }
    }

    method IncOffsetInstr(delta: int)
      requires Valid() && IsU64(delta)
      modifies this
      ensures Valid() && cap == old(cap).(tag := cap.tag, address := U64(old(cap.address) + delta))
      ensures var f := old(cap); cap.tag <==> f.tag && !f.Sealed() && FastRepCheck(f.E, f.B, f.address, delta)
      ensures !Overrun(old(cap), CIncOffset(delta)) ==> Narrowed(old(cap), cap)
      ensures Effect(old(cap), CIncOffset(delta), cap)
    {
      RepresentableIff(cap, delta);
      ClearTagIf(cap.Sealed());
      var success := IncCapOffset(delta);
      ClearTagIf(!success);
      if !Overrun(old(cap), CIncOffset(delta)) {
        if cap.tag {
          FastMove(old(cap), delta);
        }
        MovedKeeps(old(cap), cap);
      }
    }

    method SetAddrInstr(addr: int)
      requires Valid() && IsU64(addr)
      modifies this
      ensures Valid() && cap == old(cap).(tag := cap.tag, address := addr) && Narrowed(old(cap), cap)
      ensures cap.tag <==> old(cap.tag && !cap.Sealed()) && cap.Bounds() == old(cap).Bounds()
    {
      ClearTagIf(cap.Sealed());
      var representable := SetCapAddr(addr);
      ClearTagIf(!representable);
      MovedKeeps(old(cap), cap);
    }

    method Execute(op: Op)
      requires Valid() && Argument(op)
      modifies this
      ensures Valid() && Effect(old(cap), op, cap)
      ensures !Overrun(old(cap), op) ==> Narrowed(old(cap), cap)
    {
      match op
      case CSetBounds(n) => SetBoundsInstr(n, false);
      case CSetBoundsExact(n) => SetBoundsInstr(n, true);
      case CSetOffset(n) => SetOffsetInstr(n);
      case CIncOffset(n) => IncOffsetInstr(n);
      case CSetAddr(n) => SetAddrInstr(n);
      case CClearTag => ClearTagIf(true);
    }
  }

  lemma RootIs()
    ensures var f := Fields(true, UNSEALED, true, RESET_E, 0, RESET_T, 0);
            Encoding(f, 0, TWO64) && f.Bounds() == Bounds(0, TWO64)
  {
    RootEncoding();
    SetThenGet(0, TWO64, 0);
  }

  lemma RootEncoding()
    ensures SetBounds(0, TWO64) == Encoded(RESET_E, 0, RESET_T, true, true) && Rounded(0, TWO64) == Bounds(0, TWO64)
  {
    assert LeadingZeros(TWO64) == 0;
    assert Pow2(55) * 0x200 == TWO64 by { Pow2Values(); Pow2Add(55, 9); assert Pow2(9) == 0x200; }
    DivModUnique(TWO64, Pow2(55), 0x200, 0);
    GranuleIs(52);
  }

  // ---------------------------------------------------------------- whole derivations

  datatype Step = Step(before: Fields, op: Op, after: Fields)

  ghost predicate StepOk(s: Step) {
    && s.before.WellFormed() && Argument(s.op) && Effect(s.before, s.op, s.after)
    && (!Overrun(s.before, s.op) ==> Narrowed(s.before, s.after))
  }

  /** No step asks for anything outside the bounds it starts from. */
  predicate AllProper(t: seq<Step>) { forall k :: 0 <= k < |t| ==> Proper(t[k].before, t[k].op) }

  /** After every step there is a tag, and the bounds lie within those at the start. */
  ghost predicate AllUsable(t: seq<Step>) {
    forall k :: 0 <= k < |t| ==> Usable(t[k].after) && Inside(t[k].after.Bounds(), t[0].before.Bounds())
  }

  /** The steps of a derivation follow each other. */
  ghost predicate Chain(t: seq<Step>) { forall i, j :: 0 <= i && j == i + 1 && j < |t| ==> t[i].after == t[j].before }

  /** None of the steps is of the kind the fast check gets wrong. */
  predicate NoOverrun(t: seq<Step>) { forall k :: 0 <= k < |t| ==> !Overrun(t[k].before, t[k].op) }

  lemma NarrowedTransitive(f: Fields, f': Fields, f'': Fields)
    requires Narrowed(f, f') && Narrowed(f', f'')
    ensures Narrowed(f, f'')
  {
  }

  lemma {:induction false} ChainNarrows(t: seq<Step>, i: nat)
    requires i < |t| && Chain(t) && NoOverrun(t) && forall k :: 0 <= k < |t| ==> StepOk(t[k])
    ensures Narrowed(t[i].before, t[|t| - 1].after)
    decreases |t|
  {
    var n := |t| - 1;
    assert StepOk(t[n]);
    if i < n {
      ChainNarrows(t[..n], i);
      NarrowedTransitive(t[i].before, t[n].before, t[n].after);
    }
  }

  lemma DerivationNarrows(t: seq<Step>, i: nat)
    requires i < |t| && Chain(t) && NoOverrun(t) && forall k :: 0 <= k < |t| ==> StepOk(t[k])
    requires Derived(t[0].before) && t[|t| - 1].after.tag
    ensures t[i].before.tag && Inside(t[|t| - 1].after.Bounds(), t[i].before.Bounds())
  {
    ChainNarrows(t, i);
    if i > 0 {
      ChainNarrows(t[..i], 0);
      assert t[i - 1].after == t[i].before;
    }
  }

  lemma {:induction false} ProperChain(t: seq<Step>, k: nat)
    requires k < |t| && Chain(t) && AllProper(t) && (forall k :: 0 <= k < |t| ==> StepOk(t[k])) && Usable(t[0].before)
    ensures Usable(t[k].after) && Inside(t[k].after.Bounds(), t[0].before.Bounds())
    decreases k
  {
    assert StepOk(t[k]);
    if k > 0 {
      ProperChain(t, k - 1);
      assert t[k - 1].after == t[k].before;
    }
    ProperKeepsTag(t[k].before, t[k].op, t[k].after);
  }

  /** A derivation that stays within bounds never loses the tag. */
  lemma ProperDerivation(t: seq<Step>)
    requires Chain(t) && (forall k :: 0 <= k < |t| ==> StepOk(t[k])) && AllProper(t)
    requires t != [] ==> Usable(t[0].before)
    ensures AllUsable(t)
  {
    forall k | 0 <= k < |t|
      ensures Usable(t[k].after) && Inside(t[k].after.Bounds(), t[0].before.Bounds())
    {
      ProperChain(t, k);
    }
  }

  /** Run any operations on a capability, recording every step. */
  method Run(c: Capability, ops: seq<Op>) returns (t: seq<Step>)
    requires c.Valid() && forall k :: 0 <= k < |ops| ==> Argument(ops[k])
    modifies c
    ensures c.Valid() && |t| == |ops| && Chain(t) && forall k :: 0 <= k < |t| ==> StepOk(t[k]) && t[k].op == ops[k]
    ensures |t| > 0 ==> t[0].before == old(c.cap) && t[|t| - 1].after == c.cap
  {
    t := [];
    while |t| < |ops|
      invariant |t| <= |ops| && c.Valid() && Chain(t)
      invariant |t| == 0 ==> c.cap == old(c.cap)
      invariant |t| > 0 ==> t[0].before == old(c.cap) && t[|t| - 1].after == c.cap
      invariant forall k :: 0 <= k < |t| ==> StepOk(t[k]) && t[k].op == ops[k]
    {
      var before, op := c.cap, ops[|t|];
      c.Execute(op);
      t := t + [Step(before, op, c.cap)];
    }
  }

  /** The last capability has no tag, or lies within the bounds of every capability it was derived through. */
  ghost predicate NeverWider(t: seq<Step>) {
    forall i | 0 <= i < |t| && t[|t| - 1].after.tag :: t[i].before.tag && Inside(t[|t| - 1].after.Bounds(), t[i].before.Bounds())
  }

  /**
    Any derivation from a capability whose bounds were set by setCapBounds: without a step that the fast check gets
    wrong, the result is never wider than anything before it.
   */
  method Derive(c: Capability, ops: seq<Op>) returns (t: seq<Step>)
    requires c.Valid() && Derived(c.cap) && forall k :: 0 <= k < |ops| ==> Argument(ops[k])
    modifies c
    ensures |t| == |ops| && Chain(t)
    ensures forall k :: 0 <= k < |t| ==> t[k].op == ops[k] && Effect(t[k].before, ops[k], t[k].after)
    ensures |t| > 0 ==> t[0].before == old(c.cap) && t[|t| - 1].after == c.cap
    ensures NoOverrun(t) ==> NeverWider(t)
    ensures old(Usable(c.cap)) && AllProper(t) ==> AllUsable(t)
  {
    t := Run(c, ops);
    forall i | NoOverrun(t) && 0 <= i < |t| && t[|t| - 1].after.tag
      ensures t[i].before.tag && Inside(t[|t| - 1].after.Bounds(), t[i].before.Bounds())
    {
      DerivationNarrows(t, i);
    }
    if old(Usable(c.cap)) && AllProper(t) {
      ProperDerivation(t);
    }
  }

  /** The same from the default capability. */
  method DeriveFromRoot(ops: seq<Op>) returns (t: seq<Step>)
    requires forall k :: 0 <= k < |ops| ==> Argument(ops[k])
    ensures |t| == |ops| && Chain(t)
    ensures forall k :: 0 <= k < |t| ==> t[k].op == ops[k] && Effect(t[k].before, ops[k], t[k].after)
    ensures |t| > 0 ==> t[0].before.tag && t[0].before.address == 0 && t[0].before.Bounds() == Bounds(0, TWO64)
    ensures NoOverrun(t) ==> NeverWider(t)
    ensures AllProper(t) ==> AllUsable(t)
  {
    var c := new Capability();
    t := Derive(c, ops);
  }

  // ---------------------------------------------------------------- why overruns are excluded

  lemma Log2Is(n: int, k: nat)
    requires n > 0 && Pow2(k) <= n < Pow2(k + 1)
    ensures Log2(n) == k
  {
    if Log2(n) < k {
      Pow2Monotone(Log2(n) + 1, k);
    }
    if k < Log2(n) {
      Pow2Monotone(k + 1, Log2(n));
    }
  }

  lemma SmallExponent()
    ensures LeadingZeros(0x2000) == 51
  {
    assert Pow2(13) == 0x2000 && Pow2(14) == 0x4000 by { Pow2Values(); }
    Log2Is(0x2000, 13);
  }

  lemma SmallFields()
    ensures EncodeAt(0x8000, 0xA000, 1) == Encoded(1, 0, 0x1000, true, true)
  {
    assert Pow2(4) == 16 by { Pow2Values(); }
    assert 0x8000 / 16 == 0x800 && 0xA000 / 16 == 0xA00;
  }

  /** 0x2000 bytes at 0x8000 are encoded exactly, with exponent 1. */
  lemma SmallRequest()
    ensures SetBounds(0x8000, 0xA000) == Encoded(1, 0, 0x1000, true, true) && Rounded(0x8000, 0xA000) == Bounds(0x8000, 0xA000)
  {
    SmallExponent();
    SmallFields();
    assert SetBounds(0x8000, 0xA000) == EncodeAt(0x8000, 0xA000, 1);
    assert 8 * Pow2(1) == 16;
  }

  /** In the region that starts at s, these fields mean the bounds at s + 0x800. */
  lemma SmallRegion(s: int)
    requires s == 0x3800 || s == 0x7800
    ensures BoundsIn(1, s, 0, 0x1000) == Bounds(2 * (s + 0x800), 2 * (s + 0x1800))
  {
    assert Pow2(1) == 2;
    assert Place(s, 0) == s + 0x800 && Place(s, 0x1000) == s + 0x1800;
  }

  lemma SmallRegionStart(u: int)
    requires u == 0x3800 || u == 0x7800
    ensures RegionStart(0, u) == u
  {
    assert R3(0) == 7;
  }

  /** The bounds that these fields decode to at two addresses. */
  lemma SmallBounds(f: Fields)
    requires f.E == 1 && f.B == 0 && f.T == 0x1000 && (f.address == 0x7001 || f.address == 0xF000)
    ensures f.Bounds() == if f.address == 0x7001 then Bounds(0x8000, 0xA000) else Bounds(0x10000, 0x12000)
  {
    assert Pow2(1) == 2;
    var u := f.address / 2;
    GetBoundsIsRegion(f.E, f.B, f.T, f.address);
    SmallRegionStart(u);
    SmallRegion(u);
  }

  lemma SmallEncoding(f: Fields)
    requires Encoding(f, 0x8000, 0xA000)
    ensures f.E == 1 && f.B == 0 && f.T == 0x1000 && f.Bounds() == Bounds(0x8000, 0xA000)
  {
    SmallRequest();
  }

  /**
    From the default capability, a derivation with one such step ends with a tagged capability that lies entirely
    outside the bounds it was derived from.
   */
  method WideningDerivation() returns (parent: Fields, child: Fields)
    ensures parent.tag && parent.Bounds() == Bounds(0x8000, 0xA000)
    ensures child.tag && child.Bounds() == Bounds(0x10000, 0x12000) && !Inside(child.Bounds(), parent.Bounds())
  {
    var c := SmallCapability();
    SmallBounds(c.cap.(address := 0x7001));
    c.SetAddrInstr(0x7001);
    parent := c.cap;
    FastRepCheckTooWeak(0x1000);
    c.IncOffsetInstr(0x7FFF);
    child := c.cap;
    SmallBounds(child);
  }

  /** What one holds after narrowing the default capability to 0x2000 bytes at 0x8000. */
  method SmallCapability() returns (c: Capability)
    ensures fresh(c) && c.Valid() && c.cap.tag && !c.cap.Sealed()
    ensures c.cap.E == 1 && c.cap.B == 0 && c.cap.T == 0x1000 && c.cap.Bounds() == Bounds(0x8000, 0xA000)
  {
    c := RootAt(0x8000);
    c.SetBoundsInstr(0x2000, false);
    SmallEncoding(c.cap);
  }

  method RootAt(a: int) returns (c: Capability)
    requires IsU64(a)
    ensures fresh(c) && c.Valid() && c.cap.tag && !c.cap.Sealed() && c.cap.address == a && c.cap.Bounds() == Bounds(0, TWO64)
  {
    c := new Capability();
    c.SetAddrInstr(a);
    RootBounds(c.cap);
  }

  /** The default capability keeps its bounds at every address. */
  lemma RootBounds(f: Fields)
    requires f.E == RESET_E && f.B == 0 && f.T == RESET_T && IsU64(f.address)
    ensures f.Bounds() == Bounds(0, TWO64)
  {
    RootMoves(f.address);
  }

  lemma RootMoves(a: int)
    requires IsU64(a)
    ensures GetBounds(RESET_E, 0, RESET_T, a) == Bounds(0, TWO64)
  {
    RootEncoding();
    SetThenGet(0, TWO64, a);
  }
}
