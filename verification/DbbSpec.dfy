/**
  The instruction stream as the ISS sees it: decoding of memory words, and the reference
  fetch unit DBBCacheDummy_T, which fetches and decodes again for every instruction.
 */
module DbbSpec {
  type Addr = int
  type Word = int

  /** Computed-goto labels: one per operation, and the label that aborts the fast path. */
  datatype Label = Abort | Op(id: int)

  /** What decoding one memory word yields; `halfOffset` is the branch or jump immediate in 2-byte units. */
  datatype Decoded = Decoded(instr: Word, op: int, time: int, compressed: bool, halfOffset: int) {
    function Size(): int { if compressed then 2 else 4 }
  }

  /** Instruction memory: fetching from an address that is not in it traps. */
  type Code = imap<Addr, Word>

  const UNDEF := Decoded(0, 0, 0, false, 0)

  /** The decoder is any function of the memory word; words outside its table decode to the undefined operation. */
  datatype Isa = Isa(rv32: bool, table: imap<Word, Decoded>) {
    function Decode(w: Word): Decoded {
      if w in table then table[w] else UNDEF
    }

    function Modulus(): int { if rv32 then 0x1_0000_0000 else 0x1_0000_0000_0000_0000 }

    /** Address plus immediate, wrapping at XLEN bits. */
    function Add(a: Addr, k: int): Addr {
      var m := Modulus();
      if a + k < 0 then a + k + m else if a + k < m then a + k else a + k - m
    }

    /** Address of the instruction after word `w` at `pc`. */
    function Next(pc: Addr, w: Word): Addr { Add(pc, Decode(w).Size()) }

    /** Target of the taken branch or static jump `w` at `pc`. */
    function Target(pc: Addr, w: Word): Addr { Add(pc, 2 * Decode(w).halfOffset) }
  }

  /** An address of XLEN bits. */
  predicate IsAddress(rv32: bool, a: Addr) {
    if rv32 then 0 <= a < 0x1_0000_0000 else 0 <= a < 0x1_0000_0000_0000_0000
  }

  /** r is x in XLEN bits. */
  predicate WrapsTo(rv32: bool, x: int, r: Addr) {
    if rv32 then r == x % 0x1_0000_0000 else r == x % 0x1_0000_0000_0000_0000
  }

  /** A distance within the address space. */
  predicate IsOffset(rv32: bool, k: int) { IsAddress(rv32, if k < 0 then -k else k) }

  /** r is the address `k` bytes from address `a` on, in XLEN bits. */
  predicate OffsetBy(isa: Isa, a: Addr, k: int, r: Addr) {
    IsAddress(isa.rv32, a) && IsOffset(isa.rv32, k) ==> WrapsTo(isa.rv32, a + k, r) && IsAddress(isa.rv32, r)
  }

  lemma AddWraps(isa: Isa, a: Addr, k: int)
    ensures OffsetBy(isa, a, k, isa.Add(a, k))
  {
  }

  /** The instruction after word `w` at `pc` is 2 bytes on if that is compressed, and 4 bytes otherwise. */
  predicate NextIs(isa: Isa, pc: Addr, w: Word, next: Addr) {
    OffsetBy(isa, pc, if isa.Decode(w).compressed then 2 else 4, next)
  }

  /** The branch or jump `w` at `pc` leads to the address its offset away. */
  predicate TargetIs(isa: Isa, pc: Addr, w: Word, target: Addr) {
    OffsetBy(isa, pc, 2 * isa.Decode(w).halfOffset, target)
  }

  lemma NextWraps(isa: Isa, pc: Addr, w: Word)
    ensures NextIs(isa, pc, w, isa.Next(pc, w)) && TargetIs(isa, pc, w, isa.Target(pc, w))
  {
    AddWraps(isa, pc, if isa.Decode(w).compressed then 2 else 4);
    AddWraps(isa, pc, 2 * isa.Decode(w).halfOffset);
  }

  /** Every word in memory has the length that `compressed` gives for its address. */
  ghost predicate Conforms(isa: Isa, compressed: iset<Addr>, code: Code) {
    forall a | a in code :: isa.Decode(code[a]).compressed <==> a in compressed
  }

  /** Address of the k-th instruction from `start` on if none of them jumps; a fetch that traps moves no further. */
  function PathAt(isa: Isa, code: Code, start: Addr, k: nat): Addr {
    if k == 0 then start
    else
      var a := PathAt(isa, code, start, k - 1);
      if a in code then isa.Next(a, code[a]) else a
  }

  lemma PathNext(isa: Isa, code: Code, start: Addr, k: nat)
    requires PathAt(isa, code, start, k) in code
    ensures var a := PathAt(isa, code, start, k); PathAt(isa, code, start, k + 1) == isa.Next(a, code[a])
  {
  }

  /** The first `n` instructions from `start` on can be fetched. */
  predicate Reaches(isa: Isa, code: Code, start: Addr, n: nat) {
    forall i: nat | i < n :: PathAt(isa, code, start, i) in code
  }

  lemma ReachesStep(isa: Isa, code: Code, start: Addr, n: nat)
    ensures Reaches(isa, code, start, n + 1) <==> Reaches(isa, code, start, n) && PathAt(isa, code, start, n) in code
  {
  }

  /** Where the ISS stands: before an instruction, executing one, or after a fetch that trapped. */
  datatype Phase = AtStart | InInstr(lastPc: Addr, word: Word) | Faulted

  /** State of the reference fetch unit: the next pc, and last_pc with mem_word while they may be read. */
  datatype View = View(pc: Addr, phase: Phase) {

    function Fetch(isa: Isa, code: Code): View {
      if pc in code then View(isa.Next(pc, code[pc]), InInstr(pc, code[pc])) else View(pc, Faulted)
    }

    function Branch(isa: Isa): View
      requires phase.InInstr?
    {
      View(isa.Target(phase.lastPc, phase.word), AtStart)
    }

    function Goto(target: Addr): View { View(target, AtStart) }
  }

  /** What one fetch hands to the ISS. */
  datatype Fetched = Trap | Fetched(opLabel: Label, instr: Word, pc: Addr)

  /** Word `w`, decoded as the instruction at `pc`. */
  function Delivery(isa: Isa, w: Word, pc: Addr): Fetched {
    var d := isa.Decode(w);
    Fetched(Op(d.op), d.instr, isa.Add(pc, d.Size()))
  }

  function FetchResult(isa: Isa, code: Code, pc: Addr): Fetched {
    if pc in code then Delivery(isa, code[pc], pc) else Trap
  }

  /** Cycles charged for a fetch; one that traps costs nothing. */
  function FetchTime(isa: Isa, code: Code, pc: Addr): int {
    if pc in code then isa.Decode(code[pc]).time else 0
  }
}
