/**
  Fixed-point rounding of vector arithmetic, as bits of the shifted-out part and as what it means for the value.
 */
module VRounding {
  import opened Bits

  /** vxrm. */
  datatype Vxrm = Rnu | Rne | Rdn | Rod

  /** getRoundingIncrement; bits of negative numbers are those of the two's complement. */
  function RoundingIncrement(v: int, d: nat, rm: Vxrm): int {
    var lsb := v / Pow2(d) % 2;
    var lsbHalf := if d == 0 then 0 else v / Pow2(d - 1) % 2;
    match rm
    case Rnu => lsbHalf
    case Rne => if lsbHalf == 1 && ((d > 0 && v % Pow2(d - 1) != 0) || lsb == 1) then 1 else 0
    case Rdn => 0
    case Rod => if lsb == 0 && v % Pow2(d) != 0 then 1 else 0
  }

  /** vRound, for shifts below 64. */
  function Round(v: int, d: nat, rm: Vxrm): int { v / Pow2(d) + RoundingIncrement(v, d, rm) }

  function Abs(x: int): int { if x < 0 then -x else x }

  /** r is v / 2^d, rounded to nearest with ties up, to nearest with ties to even, down, or to odd. */
  predicate RoundsTo(v: int, P: int, rm: Vxrm, r: int) {
    match rm
    case Rnu => -P <= 2 * (v - r * P) < P
    case Rne => Abs(2 * (v - r * P)) <= P && (Abs(2 * (v - r * P)) == P ==> r % 2 == 0)
    case Rdn => 0 <= v - r * P < P
    case Rod => Abs(v - r * P) < P && (v - r * P != 0 ==> r % 2 == 1)
  }

  /** The highest bit of the part that is shifted out tells whether it is at least one half. */
  lemma Half(v: int, d: nat)
    requires d > 0
    ensures var P, h := Pow2(d), Pow2(d - 1);
            && P == 2 * h
            && v % P == v / h % 2 * h + v % h
            && (v / h % 2 == 1 <==> v % P >= h) && (v % h != 0 && v / h % 2 == 1 <==> v % P > h)
  {
    var h := Pow2(d - 1);
    var q := v / h;
    DivMod(v, h);
    HalfOf(v, h, q, v % h);
  }

  lemma HalfOf(v: int, h: int, q: int, r: int)
    requires h > 0 && v == q * h + r && 0 <= r < h
    ensures v % (2 * h) == q % 2 * h + r
  {
    assert q * h == q / 2 * (2 * h) + q % 2 * h by { Distribute(h, q / 2 * 2, q % 2); assert h * (q / 2 * 2) == q / 2 * (2 * h); }
    DivModUnique(v, 2 * h, q / 2, q % 2 * h + r);
  }

  /** With quotient q and remainder r, rounding up or down is decided by r, and by the parity of q. */
  lemma Decide(v: int, P: int, q: int, r: int, rm: Vxrm, up: int)
    requires P > 0 && v == q * P + r && 0 <= r < P && 0 <= up <= 1
    requires rm == Rnu ==> (up == 1 <==> 2 * r >= P)
    requires rm == Rne ==> (up == 1 <==> 2 * r > P || (2 * r == P && q % 2 == 1))
    requires rm == Rdn ==> up == 0
    requires rm == Rod ==> (up == 1 <==> q % 2 == 0 && r != 0)
    ensures RoundsTo(v, P, rm, q + up)
  {
    assert v - (q + up) * P == r - up * P by { Distribute(P, q, up); }
  }

  /** Rounding by bits means what the modes say. */
  lemma {:induction false} RoundMeans(v: int, d: nat, rm: Vxrm)
    ensures RoundsTo(v, Pow2(d), rm, Round(v, d, rm))
    ensures d == 0 ==> Round(v, d, rm) == v
  {
    DivMod(v, Pow2(d));
    if d > 0 {
      Half(v, d);
    }
    Decide(v, Pow2(d), v / Pow2(d), v % Pow2(d), rm, RoundingIncrement(v, d, rm));
  }
}
