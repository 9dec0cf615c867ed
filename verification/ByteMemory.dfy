/**
  Byte-addressed memory. Values of several bytes are kept as the sequence of their bytes, lowest first.
 */
module ByteMemory {

  /** Bytes that were never written are 0. */
  type Mem = map<int, bv8>

  function Byte(m: Mem, x: int): bv8 { if x in m then m[x] else 0 }

  function LoadBytes(m: Mem, a: int, n: nat): (s: seq<bv8>)
    ensures |s| == n && forall k :: 0 <= k < n ==> s[k] == Byte(m, a + k)
  {
    seq(n, k => Byte(m, a + k))
  }

  function StoreBytes(m: Mem, a: int, s: seq<bv8>): (m': Mem)
    ensures forall x :: Byte(m', x) == if a <= x < a + |s| then s[x - a] else Byte(m, x)
    decreases |s|
  {
    if s == [] then m else StoreBytes(m[a := s[0]], a + 1, s[1..])
  }

  function LittleEndian(s: seq<bv8>): int {
    if s == [] then 0 else s[0] as int + 256 * LittleEndian(s[1..])
  }
}
