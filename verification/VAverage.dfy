/**
  Averaging addition and subtraction of vector elements: the sum or difference is computed in the element width, and
  the bit that did not fit is put back after halving.
 */
module VAverage {
  import opened Bits
  import opened VRounding

  /** Element widths are 8, 16, 32 and 64. */
  predicate Width(n: nat) { n == 8 || n == 16 || n == 32 || n == 64 }

  function Msb(x: int, n: nat): bool
    requires n > 0
  {
    x / Pow2(n - 1) % 2 == 1
  }

  /** signExtend of the low n bits. */
  function SignExtend(x: int, n: nat): int
    requires n > 0
  {
    var r := x % Pow2(n);
    if r >= Pow2(n - 1) then r - Pow2(n) else r
  }

  /** The element in the low n bits. */
  function Element(x: int, n: nat, signed: bool): int
    requires n > 0
  {
    if signed then SignExtend(x, n) else x % Pow2(n)
  }

  function XorMsb(x: int, n: nat): int
    requires n > 0
  {
    if Msb(x, n) then x - Pow2(n - 1) else x + Pow2(n - 1)
  }

  function OrMsb(x: int, n: nat): int
    requires n > 0
  {
    if Msb(x, n) then x else x + Pow2(n - 1)
  }

  /** Put back the bit that the element-wide sum lost; R is its rounded half, and o2, o1 and r are the top bits. */
  function PutCarry(R: int, o2: bool, o1: bool, r: bool, n: nat, signed: bool): int
    requires Width(n)
  {
    if signed && ((o1 && o2 && !r) || (!o1 && !o2 && r)) then XorMsb(R % TWO64, n)
    else if !signed && ((o1 && o2) || (!o1 && o2 && !r) || (o1 && !o2 && !r)) then OrMsb(R % TWO64, n)
    else R % TWO64
  }

  /** vAadd; the result is written to an element of n bits. */
  function Aadd(op2: int, op1: int, n: nat, signed: bool, rm: Vxrm): int
    requires Width(n)
  {
    var res := (op2 + op1) % TWO64 % Pow2(n);
    PutCarry(Round(Element(res, n, signed), 1, rm), Msb(op2, n), Msb(op1, n), Msb(res, n), n, signed)
  }

  /** Put back the bit that the element-wide difference lost. */
  function PutBorrow(R: int, o2: bool, o1: bool, r: bool, n: nat, signed: bool): int
    requires Width(n)
  {
    if signed && ((!o1 && o2 && !r) || (o1 && !o2 && r)) then XorMsb(R % TWO64, n)
    else if !signed && ((!o1 && !o2 && r) || (o1 && !o2 && r) || (o1 && !o2 && !r) || (o1 && o2 && r)) then XorMsb(R % TWO64, n)
    else R % TWO64
  }

  /** vAsub. */
  function Asub(op2: int, op1: int, n: nat, signed: bool, rm: Vxrm): int
    requires Width(n)
  {
    var res := (op2 - op1) % TWO64 % Pow2(n);
    PutBorrow(Round(Element(res, n, signed), 1, rm), Msb(op2, n), Msb(op1, n), Msb(res, n), n, signed)
  }

  // ---------------------------------------------------------------- words

  /** Facts about an element width, with H half of its range. */
  lemma WidthFacts(n: nat) returns (H: int, K: int)
    requires Width(n)
    ensures H == Pow2(n - 1) && Pow2(n) == 2 * H && H % 2 == 0 && H >= 128 && K > 0 && TWO64 == K * (2 * H)
  {
    H, K := Pow2(n - 1), Pow2(64 - n);
    Pow2Values();
    Pow2Add(n, 64 - n);
    assert Pow2(n - 1) == 2 * Pow2(n - 2);
    Pow2Monotone(7, n - 1);
    assert Pow2(7) == 128;
  }

  lemma ModMod(x: int, M: int, K: int)
    requires M > 0 && K > 0
    ensures x % (K * M) % M == x % M
  {
    var W := K * M;
    DivMod(x, W);
    ModAddMultiple(x % W, x / W * K, M);
    assert x / W * K * M == x / W * W;
  }

  lemma MsbIs(x: int, n: nat, H: int)
    requires Width(n) && H == Pow2(n - 1)
    ensures Msb(x, n) <==> x % (2 * H) >= H
  {
    DivMod(x, H);
    HalfOf(x, H, x / H, x % H);
    assert x % (2 * H) == x / H % 2 * H + x % H;
  }

  lemma RoundMovedBy(v: int, u: int, rm: Vxrm)
    ensures Round(v + 4 * u, 1, rm) == Round(v, 1, rm) + 2 * u
  {
    assert Pow2(1) == 2 && Pow2(0) == 1;
    assert (v + 4 * u) / 2 == v / 2 + 2 * u && (v + 4 * u) % 2 == v % 2;
    assert (v / 2 + 2 * u) % 2 == v / 2 % 2;
  }

  /** Halving a value that differs by a multiple of 2H gives a result that differs by a multiple of H. */
  lemma RoundMoved(v: int, k: int, H: int, rm: Vxrm)
    requires H % 2 == 0
    ensures Round(v + k * (2 * H), 1, rm) == Round(v, 1, rm) + k * H
  {
    var u := k * (H / 2);
    assert k * (2 * H) == 4 * u && k * H == 2 * u;
    RoundMovedBy(v, u, rm);
  }

  /** Setting or clearing the top bit adds H, modulo 2H. */
  lemma XorAdds(x: int, n: nat, H: int)
    requires n > 0 && H == Pow2(n - 1) && H > 0
    ensures XorMsb(x, n) % (2 * H) == (x + H) % (2 * H)
  {
    ModAddMultiple(x - H, 1, 2 * H);
  }

  /** Truncating to 64 bits first makes no difference to the low n bits, nor does toggling the top bit after it. */
  lemma Truncated(v: int, n: nat, H: int, K: int)
    requires Width(n) && H == Pow2(n - 1) && H > 0 && K > 0 && TWO64 == K * (2 * H)
    ensures v % TWO64 % (2 * H) == v % (2 * H) && XorMsb(v % TWO64, n) % (2 * H) == (v + H) % (2 * H)
  {
    ModMod(v, 2 * H, K);
    XorAdds(v % TWO64, n, H);
    AddMod(v % TWO64, v, H, 2 * H);
  }

  lemma AddMod(x: int, y: int, z: int, M: int)
    requires M > 0 && x % M == y % M
    ensures (x + z) % M == (y + z) % M
  {
    DivMod(x, M);
    DivMod(y, M);
    var k := x / M - y / M;
    assert x == y + k * M by { Distribute(M, x / M, -(y / M)); }
    ModAddMultiple(y + z, k, M);
  }

  /** The sum and the difference of two words below 2H, reduced to such a word. */
  function SumOf(x: int, y: int, H: int): int { if x + y >= 2 * H then x + y - 2 * H else x + y }

  function DiffOf(x: int, y: int, H: int): int { if x < y then x - y + 2 * H else x - y }

  lemma SumCases(x: int, y: int, H: int)
    requires 0 <= x < 2 * H && 0 <= y < 2 * H
    ensures (x + y) % (2 * H) == SumOf(x, y, H) && (x - y) % (2 * H) == DiffOf(x, y, H)
  {
    DivModUnique(x + y, 2 * H, if x + y >= 2 * H then 1 else 0, SumOf(x, y, H));
    DivModUnique(x - y, 2 * H, if x < y then -1 else 0, DiffOf(x, y, H));
  }

  lemma ModSum(a: int, b: int, M: int)
    requires M > 0
    ensures (a + b) % M == (a % M + b % M) % M && (a - b) % M == (a % M - b % M) % M
  {
    ModSigned(a, b, 1, M);
    ModSigned(a, b, -1, M);
  }

  lemma ModSigned(a: int, b: int, sign: int, M: int)
    requires M > 0 && (sign == 1 || sign == -1)
    ensures (a + sign * b) % M == (a % M + sign * (b % M)) % M
  {
    var x, y, r, t := a / M, b / M, a % M, b % M;
    DivMod(a, M);
    DivMod(b, M);
    var k := x + sign * y;
    assert k * M == x * M + sign * (y * M) by { Distribute(M, x, sign * y); }
    assert a + sign * b == (r + sign * t) + k * M;
    ModAddMultiple(r + sign * t, k, M);
  }

  /** Halving what does not reach the top value with its lowest bit set stays below H. */
  lemma HalfBelow(res: int, H: int, rm: Vxrm)
    requires 0 <= res <= 2 * H - 2
    ensures 0 <= Round(res, 1, rm) < H
  {
    assert Pow2(1) == 2 && Pow2(0) == 1;
  }

  /** A value below H has its top bit clear. */
  lemma OrBelow(v: int, n: nat, H: int)
    requires Width(n) && H == Pow2(n - 1) && 0 <= v < H
    ensures OrMsb(v, n) == v + H
  {
    DivModUnique(v, H, 0, v);
  }

  // ---------------------------------------------------------------- halving with the missing bit put back

  /** As an element of n bits, r is the exact value e, halved and rounded. */
  ghost predicate IsHalf(r: int, e: int, n: nat, rm: Vxrm) { r % Pow2(n) == Round(e, 1, rm) % Pow2(n) }

  /** The rounded half R, with the top bit toggled if k is not 0. */
  function Toggled(R: int, k: int, n: nat): int
    requires n > 0
  {
    if k == 0 then R % TWO64 else XorMsb(R % TWO64, n)
  }

  lemma ToggledIs(R: int, k: int, n: nat, H: int, K: int)
    requires Width(n) && H == Pow2(n - 1) && H > 0 && K > 0 && TWO64 == K * (2 * H) && -1 <= k <= 1
    ensures Toggled(R, k, n) % (2 * H) == (R + k * H) % (2 * H)
  {
    Truncated(R, n, H, K);
    ModAddMultiple(R - H, 1, 2 * H);
  }

  /** v is off by k ranges; toggling the top bit of its rounded half makes up for it. */
  lemma Corrected(v: int, k: int, n: nat, rm: Vxrm)
    requires Width(n) && -1 <= k <= 1
    ensures IsHalf(Toggled(Round(v, 1, rm), k, n), v + k * Pow2(n), n, rm)
  {
    var H, K := WidthFacts(n);
    RoundMoved(v, k, H, rm);
    ToggledIs(Round(v, 1, rm), k, n, H, K);
  }

  lemma SmallWord(v: int, H: int, K: int)
    requires 0 <= v < H && K > 0 && TWO64 == K * (2 * H)
    ensures v % TWO64 == v
  {
    MulMonotone(2 * H, 1, K);
    DivModUnique(v, TWO64, 0, v);
  }

  lemma RoundedBelow(v: int, n: nat, rm: Vxrm)
    requires Width(n) && 0 <= v <= Pow2(n) - 2
    ensures 0 <= Round(v, 1, rm) < Pow2(n - 1) && Round(v, 1, rm) % TWO64 == Round(v, 1, rm)
  {
    var H, K := WidthFacts(n);
    HalfBelow(v, H, rm);
    SmallWord(Round(v, 1, rm), H, K);
  }

  lemma RoundedRange(v: int, n: nat, rm: Vxrm)
    requires Width(n)
    ensures Round(v + Pow2(n), 1, rm) == Round(v, 1, rm) + Pow2(n - 1)
  {
    var H, K := WidthFacts(n);
    RoundMoved(v, 1, H, rm);
  }

  /** Setting the top bit after a carry. */
  lemma CarryIs(v: int, n: nat, rm: Vxrm)
    requires Width(n) && 0 <= v <= Pow2(n) - 2
    ensures OrMsb(Round(v, 1, rm) % TWO64, n) == Round(v + Pow2(n), 1, rm)
  {
    RoundedBelow(v, n, rm);
    RoundedRange(v, n, rm);
    OrBelow(Round(v, 1, rm), n, Pow2(n - 1));
  }

  // ---------------------------------------------------------------- which bit was lost

  /** A word read with its sign. */
  function Signed(x: int, H: int): int { if x >= H then x - 2 * H else x }

  lemma SignExtendIs(op: int, n: nat, H: int)
    requires n > 0 && H == Pow2(n - 1) && Pow2(n) == 2 * H
    ensures SignExtend(op, n) == Signed(op % Pow2(n), H)
  {
  }

  /** A word that fits n bits, by its value. */
  lemma WordIs(res: int, n: nat, H: int)
    requires Width(n) && H == Pow2(n - 1) && Pow2(n) == 2 * H && 0 <= res < 2 * H
    ensures (Msb(res, n) <==> res >= H) && Element(res, n, true) == Signed(res, H) && Element(res, n, false) == res
  {
    DivModUnique(res, 2 * H, 0, res);
    MsbIs(res, n, H);
  }

  /** Operands and results by the n-bit elements x and y. */
  lemma ByElements(op2: int, op1: int, n: nat) returns (x: int, y: int, H: int)
    requires Width(n)
    ensures H == Pow2(n - 1) && Pow2(n) == 2 * H && x == op2 % Pow2(n) && y == op1 % Pow2(n)
    ensures 0 <= x < 2 * H && 0 <= y < 2 * H && (Msb(op2, n) <==> x >= H) && (Msb(op1, n) <==> y >= H)
    ensures (op2 + op1) % TWO64 % Pow2(n) == SumOf(x, y, H)
    ensures (op2 - op1) % TWO64 % Pow2(n) == DiffOf(x, y, H)
  {
    var K;
    H, K := WidthFacts(n);
    x, y := op2 % (2 * H), op1 % (2 * H);
    MsbIs(op2, n, H);
    MsbIs(op1, n, H);
    Results(op2, op1, H, K);
  }

  /** The element-wide sum and difference. */
  lemma Results(op2: int, op1: int, H: int, K: int)
    requires H > 0 && K > 0 && TWO64 == K * (2 * H)
    ensures var x, y := op2 % (2 * H), op1 % (2 * H);
            (op2 + op1) % TWO64 % (2 * H) == SumOf(x, y, H) && (op2 - op1) % TWO64 % (2 * H) == DiffOf(x, y, H)
  {
    ModMod(op2 + op1, 2 * H, K);
    ModMod(op2 - op1, 2 * H, K);
    ModSum(op2, op1, 2 * H);
    SumCases(op2 % (2 * H), op1 % (2 * H), H);
  }

  /** Signed overflow of a sum, as the number of ranges it is off by. */
  lemma SumOff(x: int, y: int, H: int, R: int, n: nat) returns (k: int)
    requires Width(n) && 0 <= x < 2 * H && 0 <= y < 2 * H
    ensures var res := SumOf(x, y, H);
            && -1 <= k <= 1 && Signed(res, H) + k * (2 * H) == Signed(x, H) + Signed(y, H)
            && PutCarry(R, x >= H, y >= H, res >= H, n, true) == Toggled(R, k, n)
  {
    var res := SumOf(x, y, H);
    k := if x < H && y < H && res >= H then 1 else if x >= H && y >= H && res < H then -1 else 0;
  }

  /** The same for a difference. */
  lemma DiffOff(x: int, y: int, H: int, R: int, n: nat) returns (k: int)
    requires Width(n) && 0 <= x < 2 * H && 0 <= y < 2 * H
    ensures var res := DiffOf(x, y, H);
            && -1 <= k <= 1 && Signed(res, H) + k * (2 * H) == Signed(x, H) - Signed(y, H)
            && PutBorrow(R, x >= H, y >= H, res >= H, n, true) == Toggled(R, k, n)
  {
    var res := DiffOf(x, y, H);
    k := if x < H && y >= H && res >= H then 1 else if x >= H && y < H && res < H then -1 else 0;
  }

  /** Borrow of an unsigned difference, and carry of an unsigned sum. */
  lemma UnsignedOff(x: int, y: int, H: int, R: int, n: nat)
    requires Width(n) && 0 <= x < 2 * H && 0 <= y < 2 * H
    ensures var res := DiffOf(x, y, H);
            PutBorrow(R, x >= H, y >= H, res >= H, n, false) == Toggled(R, if x < y then -1 else 0, n)
    ensures var res := SumOf(x, y, H);
            PutCarry(R, x >= H, y >= H, res >= H, n, false) == if x + y >= 2 * H then OrMsb(R % TWO64, n) else Toggled(R, 0, n)
  {
  }

  /** vAadd by its elements. */
  lemma AaddBy(op2: int, op1: int, n: nat, signed: bool, rm: Vxrm) returns (x: int, y: int, H: int)
    requires Width(n)
    ensures Pow2(n) == 2 * H && H == Pow2(n - 1) && x == op2 % Pow2(n) && y == op1 % Pow2(n) && 0 <= x < 2 * H && 0 <= y < 2 * H
    ensures var res := SumOf(x, y, H);
            Aadd(op2, op1, n, signed, rm)
            == PutCarry(Round(if signed then Signed(res, H) else res, 1, rm), x >= H, y >= H, res >= H, n, signed)
  {
    x, y, H := ByElements(op2, op1, n);
    WordIs(SumOf(x, y, H), n, H);
  }

  /** vAsub by its elements. */
  lemma AsubBy(op2: int, op1: int, n: nat, signed: bool, rm: Vxrm) returns (x: int, y: int, H: int)
    requires Width(n)
    ensures Pow2(n) == 2 * H && H == Pow2(n - 1) && x == op2 % Pow2(n) && y == op1 % Pow2(n) && 0 <= x < 2 * H && 0 <= y < 2 * H
    ensures var res := DiffOf(x, y, H);
            Asub(op2, op1, n, signed, rm)
            == PutBorrow(Round(if signed then Signed(res, H) else res, 1, rm), x >= H, y >= H, res >= H, n, signed)
  {
    x, y, H := ByElements(op2, op1, n);
    WordIs(DiffOf(x, y, H), n, H);
  }

  lemma AaddSignedOf(x: int, y: int, n: nat, H: int, rm: Vxrm)
    requires Width(n) && Pow2(n) == 2 * H && 0 <= x < 2 * H && 0 <= y < 2 * H
    ensures var res := SumOf(x, y, H);
            IsHalf(PutCarry(Round(Signed(res, H), 1, rm), x >= H, y >= H, res >= H, n, true), Signed(x, H) + Signed(y, H), n, rm)
  {
    var res := SumOf(x, y, H);
    var k := SumOff(x, y, H, Round(Signed(res, H), 1, rm), n);
    Corrected(Signed(res, H), k, n, rm);
  }

  lemma AsubSignedOf(x: int, y: int, n: nat, H: int, rm: Vxrm)
    requires Width(n) && Pow2(n) == 2 * H && 0 <= x < 2 * H && 0 <= y < 2 * H
    ensures var res := DiffOf(x, y, H);
            IsHalf(PutBorrow(Round(Signed(res, H), 1, rm), x >= H, y >= H, res >= H, n, true), Signed(x, H) - Signed(y, H), n, rm)
  {
    var res := DiffOf(x, y, H);
    var k := DiffOff(x, y, H, Round(Signed(res, H), 1, rm), n);
    Corrected(Signed(res, H), k, n, rm);
  }

  /** The half of a sum with and without a carry, as the words r that are written. */
  lemma CarryHalf(r: int, v: int, n: nat, rm: Vxrm)
    requires Width(n) && 0 <= v <= Pow2(n) - 2 && r == OrMsb(Round(v, 1, rm) % TWO64, n)
    ensures IsHalf(r, v + Pow2(n), n, rm)
  {
    CarryIs(v, n, rm);
  }

  lemma PlainHalf(r: int, v: int, n: nat, rm: Vxrm)
    requires Width(n) && r == Toggled(Round(v, 1, rm), 0, n)
    ensures IsHalf(r, v, n, rm)
  {
    Corrected(v, 0, n, rm);
  }

  lemma AaddUnsignedOf(r: int, x: int, y: int, n: nat, H: int, rm: Vxrm)
    requires Width(n) && Pow2(n) == 2 * H && 0 <= x < 2 * H && 0 <= y < 2 * H
    requires var res := SumOf(x, y, H); r == PutCarry(Round(res, 1, rm), x >= H, y >= H, res >= H, n, false)
    ensures IsHalf(r, x + y, n, rm)
  {
    var res := SumOf(x, y, H);
    UnsignedOff(x, y, H, Round(res, 1, rm), n);
    if x + y >= 2 * H {
      CarryHalf(r, x + y - 2 * H, n, rm);
    } else {
      PlainHalf(r, x + y, n, rm);
    }
  }

  lemma AsubUnsignedOf(x: int, y: int, n: nat, H: int, rm: Vxrm)
    requires Width(n) && Pow2(n) == 2 * H && 0 <= x < 2 * H && 0 <= y < 2 * H
    ensures var res := DiffOf(x, y, H);
            IsHalf(PutBorrow(Round(res, 1, rm), x >= H, y >= H, res >= H, n, false), x - y, n, rm)
  {
    var res := DiffOf(x, y, H);
    UnsignedOff(x, y, H, Round(res, 1, rm), n);
    Corrected(res, if x < y then -1 else 0, n, rm);
  }

  // ---------------------------------------------------------------- main results

  lemma AaddSigned(op2: int, op1: int, n: nat, rm: Vxrm)
    requires Width(n)
    ensures IsHalf(Aadd(op2, op1, n, true, rm), SignExtend(op2, n) + SignExtend(op1, n), n, rm)
  {
    var x, y, H := AaddBy(op2, op1, n, true, rm);
    AaddSignedOf(x, y, n, H, rm);
    SignExtendIs(op2, n, H);
    SignExtendIs(op1, n, H);
  }

  lemma AaddUnsigned(op2: int, op1: int, n: nat, rm: Vxrm) returns (e: int)
    requires Width(n)
    ensures e == op2 % Pow2(n) + op1 % Pow2(n) && IsHalf(Aadd(op2, op1, n, false, rm), e, n, rm)
  {
    var x, y, H := AaddBy(op2, op1, n, false, rm);
    e := x + y;
    AaddUnsignedOf(Aadd(op2, op1, n, false, rm), x, y, n, H, rm);
  }

  lemma AsubSigned(op2: int, op1: int, n: nat, rm: Vxrm)
    requires Width(n)
    ensures IsHalf(Asub(op2, op1, n, true, rm), SignExtend(op2, n) - SignExtend(op1, n), n, rm)
  {
    var x, y, H := AsubBy(op2, op1, n, true, rm);
    AsubSignedOf(x, y, n, H, rm);
    SignExtendIs(op2, n, H);
    SignExtendIs(op1, n, H);
  }

  lemma AsubUnsigned(op2: int, op1: int, n: nat, rm: Vxrm)
    requires Width(n)
    ensures IsHalf(Asub(op2, op1, n, false, rm), op2 % Pow2(n) - op1 % Pow2(n), n, rm)
  {
    var x, y, H := AsubBy(op2, op1, n, false, rm);
    AsubUnsignedOf(x, y, n, H, rm);
  }

  /** vAadd is the exact sum of the elements, halved and rounded, for signed and unsigned elements of every width. */
  lemma AaddExact(op2: int, op1: int, n: nat, signed: bool, rm: Vxrm)
    requires Width(n)
    ensures IsHalf(Aadd(op2, op1, n, signed, rm), Element(op2, n, signed) + Element(op1, n, signed), n, rm)
  {
    if signed {
      AaddSigned(op2, op1, n, rm);
    } else {
      var e := AaddUnsigned(op2, op1, n, rm);
    }
  }

  /** vAsub is the exact difference of the elements, halved and rounded. */
  lemma AsubExact(op2: int, op1: int, n: nat, signed: bool, rm: Vxrm)
    requires Width(n)
    ensures IsHalf(Asub(op2, op1, n, signed, rm), Element(op2, n, signed) - Element(op1, n, signed), n, rm)
  {
    if signed {
      AsubSigned(op2, op1, n, rm);
    } else {
      AsubUnsigned(op2, op1, n, rm);
    }
  }
}
