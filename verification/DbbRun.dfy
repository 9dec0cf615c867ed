/**
  Whole runs of the ISS on the cache, and the same runs on the reference fetch unit.
 */
module DbbRun {
  import opened Wrappers
  import opened DbbSpec
  import opened DbbBlock
  import opened DbbGraph
  import opened DbbCache

  /** What the ISS does with the fetch unit; `Fetch(true)` tries the fast path first, `link` asks for the return address. */
  datatype Op =
    | Fetch(tryFast: bool)
    | Branch(link: bool)
    | Dyn(pc: Addr, link: bool)
    | FenceOp
    | Trapped(pc: Addr)
    | Return(pc: Addr)
    | Slow
    | Switch(ena: bool)

  /** What the ISS can read at one moment; parts it must not ask for are None. */
  datatype Obs = Obs(fetched: Option<Fetched>, link: Option<Addr>, lastPc: Option<Addr>, nextPc: Option<Addr>,
                     memWord: Option<Word>, cycles: Option<int>)

  /** The reference: DBBCacheDummy_T's pc, last_pc, mem_word and cycle_counter_raw. */
  datatype Ref = Ref(view: View, cycles: int) {

    predicate Legal(op: Op) {
      match op
      case Fetch(_) => !view.phase.Faulted?
      case Dyn(pc, _) => view.phase.InInstr? && pc != INVALID_PC
      case Trapped(pc) => pc != INVALID_PC
      case Slow => true
      case Switch(_) => true
      case _ => view.phase.InInstr?
    }

    function Step(isa: Isa, code: Code, op: Op): Ref
      requires Legal(op)
    {
      match op
      case Fetch(_) => Ref(view.Fetch(isa, code), cycles + FetchTime(isa, code, view.pc))
      case Branch(_) => this.(view := view.Branch(isa))
      case Dyn(pc, _) => this.(view := view.Goto(pc))
      case Trapped(pc) => this.(view := view.Goto(pc))
      case Return(pc) => this.(view := view.Goto(pc))
      case _ => this
    }

    function Fetched(isa: Isa, code: Code, op: Op): Option<Fetched> {
      if op.Fetch? then Some(FetchResult(isa, code, view.pc)) else None
    }

    function Link(op: Op): Option<Addr> {
      if (op.Branch? || op.Dyn?) && op.link then Some(view.pc) else None
    }

    /** Everything that can be read in this state, with the clock or without; after a failed fetch, the pc of the trap. */
    function Observe(fetched: Option<Fetched>, link: Option<Addr>, clock: bool): Obs {
      var n := if clock then Some(cycles) else None;
      match view.phase
      case AtStart => Obs(fetched, link, None, Some(view.pc), None, n)
      case InInstr(lastPc, word) => Obs(fetched, link, Some(lastPc), Some(view.pc), Some(word), n)
      case Faulted => Obs(fetched, link, Some(view.pc), None, None, n)
    }
  }

  predicate LegalRun(isa: Isa, code: Code, s: Ref, ops: seq<Op>)
    decreases |ops|
  {
    ops == [] || (s.Legal(ops[0]) && LegalRun(isa, code, s.Step(isa, code, ops[0]), ops[1..]))
  }

  /** The state at the end of a whole run on the reference fetch unit. */
  function RefEnd(isa: Isa, code: Code, s: Ref, ops: seq<Op>): Ref
    requires LegalRun(isa, code, s, ops)
    decreases |ops|
  {
    if ops == [] then s else RefEnd(isa, code, s.Step(isa, code, ops[0]), ops[1..])
  }

  /** The observations of a whole run on the reference fetch unit. */
  function RefRun(isa: Isa, code: Code, s: Ref, ops: seq<Op>, clock: bool): (out: seq<Obs>)
    requires LegalRun(isa, code, s, ops)
    ensures |out| == |ops|
    decreases |ops|
  {
    if ops == [] then []
    else
      var s' := s.Step(isa, code, ops[0]);
      [s'.Observe(s.Fetched(isa, code, ops[0]), s.Link(ops[0]), clock)] + RefRun(isa, code, s', ops[1..], clock)
  }

  // ---------------------------------------------------------------- what consecutive observations say

  /** The instruction at `pc` was fetched: its word, label and time come from memory, and the next pc is that behind it. */
  predicate Fetches(isa: Isa, code: Code, pc: Addr, time: Option<int>, o: Obs) {
    if pc in code then
      var d := isa.Decode(code[pc]);
      && o.lastPc == Some(pc) && o.memWord == Some(code[pc]) && o.nextPc.Some? && NextIs(isa, pc, code[pc], o.nextPc.value)
      && o.fetched == Some(Fetched(Op(d.op), d.instr, o.nextPc.value))
      && o.cycles == (if time.Some? then Some(time.value + d.time) else None)
    else
      o.fetched == Some(Trap) && o.lastPc == Some(pc) && o.nextPc.None? && o.memWord.None? && o.cycles == time
  }

  /** `o` may be read right after `op` if `was` was read right before it. */
  predicate Explains(isa: Isa, code: Code, was: Obs, op: Op, o: Obs) {
    && (!op.Fetch? ==> o.fetched.None? && o.cycles == was.cycles)
    && (op.Branch? || op.Dyn? ==> o.link == if op.link then was.nextPc else None)
    && match op
       case Fetch(_) => was.nextPc.Some? && Fetches(isa, code, was.nextPc.value, was.cycles, o)
       case Branch(_) =>
         && o.lastPc.None? && o.memWord.None? && o.nextPc.Some? && was.lastPc.Some? && was.memWord.Some?
         && TargetIs(isa, was.lastPc.value, was.memWord.value, o.nextPc.value)
       case FenceOp => o == was.(fetched := None, link := None)
       case Slow => o == was.(fetched := None, link := None)
       case Switch(_) => o == was.(fetched := None, link := None)
       case _ => o.nextPc == Some(op.pc) && o.lastPc.None? && o.memWord.None?
  }

  /** Every observation of a run is explained by the one before it, the first one by `was`. */
  predicate StepByStep(isa: Isa, code: Code, was: Obs, ops: seq<Op>, out: seq<Obs>)
    requires |out| <= |ops|
    decreases |out|
  {
    out == [] || (Explains(isa, code, was, ops[0], out[0]) && StepByStep(isa, code, out[0], ops[1..], out[1..]))
  }

  lemma StepExplained(isa: Isa, code: Code, s: Ref, op: Op, fetched: Option<Fetched>, link: Option<Addr>, clock: bool)
    requires s.Legal(op)
    ensures Explains(isa, code, s.Observe(fetched, link, clock), op,
                     s.Step(isa, code, op).Observe(s.Fetched(isa, code, op), s.Link(op), clock))
  {
    if op.Fetch? && s.view.pc in code {
      NextWraps(isa, s.view.pc, code[s.view.pc]);
    } else if op.Branch? {
      NextWraps(isa, s.view.phase.lastPc, s.view.phase.word);
    }
  }

  /** An operation is legal if what it needs can be read: the next pc for a fetch, and otherwise the current instruction. */
  lemma LegalIff(s: Ref, op: Op, fetched: Option<Fetched>, link: Option<Addr>, clock: bool)
    ensures var o := s.Observe(fetched, link, clock);
            s.Legal(op) <==>
              match op
              case Fetch(_) => o.nextPc.Some?
              case Trapped(pc) => pc != INVALID_PC
              case Slow => true
              case Switch(_) => true
              case Dyn(pc, _) => o.memWord.Some? && pc != INVALID_PC
              case _ => o.memWord.Some?
  {
  }

  /** The reference does what these rules say, in every run. */
  lemma {:induction false} RefExplained(isa: Isa, code: Code, s: Ref, ops: seq<Op>, fetched: Option<Fetched>,
                                        link: Option<Addr>, clock: bool)
    requires LegalRun(isa, code, s, ops)
    ensures StepByStep(isa, code, s.Observe(fetched, link, clock), ops, RefRun(isa, code, s, ops, clock))
    decreases |ops|
  {
    if ops != [] {
      var s', f, l := s.Step(isa, code, ops[0]), s.Fetched(isa, code, ops[0]), s.Link(ops[0]);
      StepExplained(isa, code, s, ops[0], fetched, link, clock);
      RefExplained(isa, code, s', ops[1..], f, l, clock);
    }
  }

  predicate InRange(isa: Isa, o: Obs) {
    && (o.lastPc.Some? ==> IsAddress(isa.rv32, o.lastPc.value))
    && (o.nextPc.Some? ==> IsAddress(isa.rv32, o.nextPc.value))
  }

  /** From an address of XLEN bits on, as long as all jumps are to such addresses, every pc that can be read is one. */
  lemma {:induction false} StaysInRange(isa: Isa, code: Code, was: Obs, ops: seq<Op>, out: seq<Obs>)
    requires |out| <= |ops| && StepByStep(isa, code, was, ops, out) && InRange(isa, was)
    requires forall op | op in ops && (op.Dyn? || op.Trapped? || op.Return?) :: IsAddress(isa.rv32, op.pc)
    requires forall w | w in isa.table :: IsOffset(isa.rv32, 2 * isa.table[w].halfOffset)
    ensures forall o | o in out :: InRange(isa, o)
    decreases |out|
  {
    if out != [] {
      assert ops[0] in ops;
      StaysInRange(isa, code, out[0], ops[1..], out[1..]);
      assert out == [out[0]] + out[1..];
    }
  }

  /**
    What is known of the code in memory: it never changed, so that clocks count; or no recorded word is out of date; or
    no instruction changed its length; or nothing.
   */
  datatype Memory = Fixed | Unchanged | SameLengths(compressed: iset<Addr>) | Arbitrary

  ghost predicate Known(isa: Isa, code: Code, blocks: seq<Block>, m: Memory)
    requires HaveLen(blocks)
  {
    match m
    case Fixed => AllFresh(code, blocks) && AllClocked(isa, blocks)
    case Unchanged => AllFresh(code, blocks)
    case SameLengths(compressed) => Conforms(isa, compressed, code) && AllLaidOut(isa, compressed, blocks)
    case Arbitrary => true
  }

  /** The cache in its present state stands for reference state `s`. */
  ghost predicate Simulates(c: DBBCache, s: Ref, m: Memory)
    reads c
  {
    && c.Valid() && c.Safe()
    && s.view == c.Abs()
    && Known(c.isa, c.code, c.g.blocks, m)
    && (m.Fixed? ==> s.cycles == c.Cycles())
  }

  // ---------------------------------------------------------------- fetching

  /** Unless the length of an instruction may have changed, checking a block misplaces no entry. */
  lemma KnownInPlace(c: DBBCache, m: Memory)
    requires c.Valid() && c.Aligned() && Known(c.isa, c.code, c.g.blocks, m) && !m.Arbitrary?
    ensures c.RepairsInPlace()
  {
    if c.Unchecked() {
      var b := c.g.blocks[c.at.block];
      assert BlockIn(c.isa, c.starts, c.g.blocks, c.g.coherence, c.at.block);
      assert Chained(c.isa, b);
      if m.SameLengths? {
        assert LaidOut(c.isa, m.compressed, b);
        LaidOutInPlace(c.isa, m.compressed, c.code, b, c.at.idx + 1);
      } else {
        assert Fresh(c.code, b);
        FreshInPlace(c.isa, c.code, b, c.at.idx + 1);
      }
    }
  }

  /** A fetch does not change what is known. */
  lemma FetchKnown(isa: Isa, code: Code, g: Graph, g': Graph, id: BlockId, m: Memory)
    requires HaveLen(g.blocks) && HaveLen(g'.blocks) && 0 <= id < |g.blocks| && Touched(g, g', id)
    requires id != 0 ==> Renewed(code, g.blocks[id], g'.blocks[id])
    requires Known(isa, code, g.blocks, m) && (m.Fixed? ==> AllClocked(isa, g'.blocks))
    ensures Known(isa, code, g'.blocks, m)
  {
    match m
    case Arbitrary =>
    case SameLengths(compressed) => RenewedKeepsLayout(isa, compressed, code, g, g', id);
    case _ => RenewedKeepsFresh(code, g, g', id);
  }

  /** Threaded code: fetch on the fast path, and undo that if it runs off the block. */
  method FastFetch(c: DBBCache, ghost s: Ref, ghost m: Memory) returns (r: Option<Fetched>)
    requires Simulates(c, s, m) && !s.view.phase.Faulted?
    modifies c
    ensures c.code == old(c.code)
    ensures r.None? ==> Simulates(c, s, m) && (c.RepairsInPlace() == old(c.RepairsInPlace()))
    ensures r.Some? ==>
              && Simulates(c, s.Step(c.isa, c.code, Fetch(true)), m)
              && r.value == FetchResult(c.isa, c.code, s.view.pc)
  {
    var opLabel, instr := c.FetchDecodeFast();
    if opLabel == Abort {
      c.AbortFetchDecodeFast();
      return None;
    }
    var pc := c.GetPcMaybeAfterCallback();
    return Some(Fetched(opLabel, instr, pc));
  }

  /** The medium and slow path. */
  method MediumFetch(c: DBBCache, ghost s: Ref, ghost m: Memory) returns (r: Fetched)
    requires Simulates(c, s, m) && !s.view.phase.Faulted? && c.RepairsInPlace()
    modifies c
    ensures c.code == old(c.code)
    ensures Simulates(c, s.Step(c.isa, c.code, Fetch(false)), m) && r == FetchResult(c.isa, c.code, s.view.pc)
  {
    ghost var was := c.g;
    var pc := c.GetPcMaybeAfterCallback();
    r := c.FetchDecode(pc);
    FetchKnown(c.isa, c.code, was, c.g, c.at.block, m);
  }

  // ---------------------------------------------------------------- control flow

  /**
    The one transfer that may leave the new code behind: from a block that was not revalidated since the last fence
    back to its own start, outside the fast path and without a forced slow path.
   */
  predicate UncheckedLoop(at: Cursor, slow: bool, g: Graph, target: Addr)
    requires 0 <= at.block < |g.blocks|
  {
    && at.block != 0 && at.fast.Disabled? && !slow
    && g.blocks[at.block].coherence != g.coherence
    && g.blocks[at.block].start == target
  }

  /** Any other change of blocks, and that one from an unchanged block, keeps coherent blocks and a block running fast up to date. */
  lemma SwitchKeepsSafe(isa: Isa, code: Code, was: Cursor, slow: bool, g: Graph, at: Cursor, g': Graph, target: Addr)
    requires 0 <= was.block < |g.blocks| && 0 <= at.block < |g'.blocks| && HaveLen(g.blocks)
    requires Extends(g.blocks, g'.blocks) && g'.coherence == g.coherence && EntersFast(was, slow, at, g')
    requires at.block != 0 ==> g'.blocks[at.block].start == target
    requires CoherentFresh(code, g.coherence, g.blocks)
    requires was.fast.At? ==> was.block != 0 && Fresh(code, g.blocks[was.block])
    requires at.block == 0 || !UncheckedLoop(was, slow, g, target) || Fresh(code, g.blocks[was.block])
    ensures Keeps(isa, code, g.coherence, g.blocks, g'.blocks)
    ensures at.fast.At? ==> Fresh(code, g'.blocks[at.block])
  {
    ExtendsKeeps(isa, code, g.coherence, g.blocks, g'.blocks);
    if at.block == was.block != 0 {
      assert SameButLinks(g.blocks[at.block], g'.blocks[at.block]);
      assert g.blocks[was.block].coherence == g.coherence ==> Fresh(code, g.blocks[was.block]);
    } else if at.block != 0 {
      assert g'.blocks[at.block].coherence == g'.coherence ==> Fresh(code, g'.blocks[at.block]);
    }
  }

  predicate Leaves(op: Op) {
    op.Branch? || op.Dyn? || op.Trapped? || op.Return?
  }

  function TargetOf(isa: Isa, v: View, op: Op): Addr
    requires Leaves(op) && (op.Branch? ==> v.phase.InInstr?)
  {
    if op.Branch? then v.Branch(isa).pc else op.pc
  }

  /** The operation leads to a cached block: the cache is enabled, or there still is a link. */
  predicate EntersBlock(c: DBBCache, op: Op)
    reads c
    requires c.Valid() && Leaves(op) && (op.Branch? ==> c.stage.Executing?)
  {
    match op
    case Branch(_) => c.enabled || (c.at.block != 0 && c.g.blocks[c.at.block].entries[c.at.Pos()].link.Some?)
    case Dyn(pc, _) => c.enabled || pc in c.g.blocks[c.at.block].dynLinks.pcs
    case Trapped(pc) => c.enabled || pc in c.g.trapLinks.pcs
    case _ => false
  }

  /** Leaving the current position for another address. */
  method Move(c: DBBCache, op: Op)
    requires c.Valid() && Leaves(op) && (op.Branch? ==> c.stage.Executing?)
    requires (op.Dyn? || op.Trapped?) ==> op.pc != INVALID_PC
    modifies c
    ensures c.code == old(c.code) && c.g.coherence == old(c.g.coherence) && c.exception == old(c.exception)
    ensures c.Valid() && c.Abs() == View(TargetOf(c.isa, old(c.Abs()), op), AtStart) && c.Cycles() == old(c.Cycles())
    ensures Extends(old(c.g.blocks), c.g.blocks) && EntersFast(old(c.at), old(c.slowPath), c.at, c.g)
    ensures c.slowPath == (old(c.slowPath) && KeepsSlow(old(c.at), c.at))
    ensures (c.at.block != 0 <==> old(EntersBlock(c, op))) && (c.at.block != 0 ==> c.SavedPc() == old(c.SavedPc()))
  {
    if op.Branch? {
      var w := c.GetMemWord();
      c.BranchTaken(2 * c.isa.Decode(w).halfOffset);
    } else if op.Dyn? {
      c.JumpDyn(op.pc);
    } else if op.Trapped? {
      c.EnterTrap(op.pc);
    } else {
      c.RetTrap(op.pc);
    }
  }

  method AbortedFetch(c: DBBCache) returns (opLabel: Label)
    requires c.Valid() && !c.stage.FetchFailed? && c.at.fast.Disabled?
    modifies c
    ensures opLabel == Abort && c.code == old(c.code)
    ensures c.Valid() && c.at == old(c.at) && c.Cycles() == old(c.Cycles()) && c.Abs() == old(c.Abs())
  {
    var instr;
    opLabel, instr := c.FetchDecodeFast();
    c.AbortFetchDecodeFast();
  }

  /** A forced slow path aborts the next fast fetch, even if a branch, jump, trap or return comes in between. */
  method FetchForcedSlow(c: DBBCache, via: Option<Op>) returns (opLabel: Label)
    requires c.Valid() && (via.None? ==> !c.stage.FetchFailed?)
    requires via.Some? ==> Leaves(via.value) && (via.value.Branch? ==> c.stage.Executing?)
    requires via.Some? && (via.value.Dyn? || via.value.Trapped?) ==> via.value.pc != INVALID_PC
    modifies c
    ensures opLabel == Abort && c.code == old(c.code)
    ensures c.Valid() && c.at.fast.Disabled? && c.Cycles() == old(c.Cycles())
    ensures c.Abs() == if via.None? then old(c.Abs()) else View(TargetOf(c.isa, old(c.Abs()), via.value), AtStart)
  {
    c.ForceSlowPath();
    if via.Some? {
      Move(c, via.value);
    }
    opLabel := AbortedFetch(c);
  }

  /** That transfer, from a block that no longer agrees with memory. */
  ghost predicate StaleLoop(c: DBBCache, op: Op)
    reads c
    requires c.Valid() && Leaves(op) && (op.Branch? ==> c.stage.Executing?)
  {
    && EntersBlock(c, op) && UncheckedLoop(c.at, c.slowPath, c.g, TargetOf(c.isa, c.Abs(), op))
    && !Fresh(c.code, c.g.blocks[c.at.block])
  }

  /** Where a run on changed code may depart from the reference: at such a transfer, or when an entry gets misplaced. */
  ghost predicate Diverges(c: DBBCache, op: Op)
    reads c
    requires c.Valid() && (op.Branch? ==> c.stage.Executing?)
  {
    (op.Fetch? && !c.RepairsInPlace()) || (Leaves(op) && StaleLoop(c, op))
  }

  /** Any other transfer leaves the cache in order. */
  method MoveSafely(c: DBBCache, op: Op)
    requires c.Valid() && c.Safe() && Leaves(op) && (op.Branch? ==> c.stage.Executing?) && !StaleLoop(c, op)
    requires (op.Dyn? || op.Trapped?) ==> op.pc != INVALID_PC
    modifies c
    ensures c.code == old(c.code) && Extends(old(c.g.blocks), c.g.blocks)
    ensures c.Valid() && c.Abs() == View(TargetOf(c.isa, old(c.Abs()), op), AtStart) && c.Cycles() == old(c.Cycles())
    ensures c.Safe()
  {
    ghost var was, slow, before := c.at, c.slowPath, c.g;
    Move(c, op);
    assert c.at.block != 0 ==> BlockIn(c.isa, c.starts, c.g.blocks, c.g.coherence, c.at.block);
    SwitchKeepsSafe(c.isa, c.code, was, slow, before, c.at, c.g, c.Abs().pc);
  }

  method Leave(c: DBBCache, op: Op, ghost s: Ref, ghost m: Memory)
    requires Simulates(c, s, m) && s.Legal(op) && Leaves(op) && !StaleLoop(c, op)
    modifies c
    ensures c.code == old(c.code)
    ensures Simulates(c, s.Step(c.isa, c.code, op), m)
  {
    ghost var before := c.g.blocks;
    MoveSafely(c, op);
    ExtendsKnown(c.isa, c.code, before, c.g.blocks, m);
  }

  lemma ExtendsKnown(isa: Isa, code: Code, olds: seq<Block>, news: seq<Block>, m: Memory)
    requires HaveLen(olds) && Extends(olds, news) && Known(isa, code, olds, m)
    ensures HaveLen(news) && Known(isa, code, news, m)
  {
    if m.SameLengths? {
      ExtendsLaidOut(isa, m.compressed, olds, news);
    } else {
      ExtendsKeeps(isa, code, 0, olds, news);
    }
  }

  /** Operations that do not move the execution. */
  method Stay(c: DBBCache, op: Op, ghost s: Ref, ghost m: Memory)
    requires Simulates(c, s, m) && s.Legal(op) && (op.FenceOp? || op.Slow?)
    modifies c
    ensures c.code == old(c.code)
    ensures Simulates(c, s, m)
  {
    if op.FenceOp? {
      c.Fence();
    } else {
      c.ForceSlowPath();
    }
  }

  method Toggle(c: DBBCache, ena: bool, ghost s: Ref, ghost m: Memory)
    requires Simulates(c, s, m)
    modifies c
    ensures c.code == old(c.code)
    ensures Simulates(c, s, m)
  {
    c.Enable(ena);
    ExtendsKeeps(c.isa, c.code, c.g.coherence, old(c.g.blocks), c.g.blocks);
    ExtendsKnown(c.isa, c.code, old(c.g.blocks), c.g.blocks, m);
  }

  // ---------------------------------------------------------------- runs

  /** Reads everything that may be read at the given stage. */
  method ReadAll(c: DBBCache, stage: Stage, fetched: Option<Fetched>, link: Option<Addr>, clock: bool, ghost s: Ref,
                 ghost m: Memory)
    returns (o: Obs)
    requires Simulates(c, s, m) && stage == c.stage && (clock ==> m.Fixed?)
    ensures o == s.Observe(fetched, link, clock)
  {
    var n := None;
    if clock {
      var cycles := c.GetCycleCounterRaw();
      n := Some(cycles);
    }
    match stage {
      case BeforeFetch =>
        var pc := c.GetPcMaybeAfterCallback();
        o := Obs(fetched, link, None, Some(pc), None, n);
      case Executing =>
        var last := c.GetLastPcBeforeCallback();
        var pc := c.GetPcMaybeAfterCallback();
        var w := c.GetMemWord();
        o := Obs(fetched, link, Some(last), Some(pc), Some(w), n);
      case FetchFailed =>
        var last := c.GetLastPcExceptionSafe();
        o := Obs(fetched, link, Some(last), None, None, n);
    }
  }

  method DoFetch(c: DBBCache, op: Op, ghost s: Ref, ghost m: Memory) returns (r: Fetched)
    requires op.Fetch? && Simulates(c, s, m) && s.Legal(op) && c.RepairsInPlace()
    modifies c
    ensures c.code == old(c.code)
    ensures Simulates(c, s.Step(c.isa, c.code, op), m) && r == FetchResult(c.isa, c.code, s.view.pc)
  {
    if op.tryFast {
      var f := FastFetch(c, s, m);
      if f.Some? {
        return f.value;
      }
    }
    r := MediumFetch(c, s, m);
  }

  method DoControl(c: DBBCache, op: Op, ghost s: Ref, ghost m: Memory) returns (link: Option<Addr>)
    requires !op.Fetch? && Simulates(c, s, m) && s.Legal(op) && (Leaves(op) ==> !StaleLoop(c, op))
    modifies c
    ensures c.code == old(c.code)
    ensures Simulates(c, s.Step(c.isa, c.code, op), m) && link == s.Link(op)
  {
    link := None;
    if (op.Branch? || op.Dyn?) && op.link {
      var l := c.LinkAddress();
      link := Some(l);
    }
    if Leaves(op) {
      Leave(c, op, s, m);
    } else if op.Switch? {
      Toggle(c, op.ena, s, m);
    } else {
      Stay(c, op, s, m);
    }
  }

  /** Is this operation one at which the run may depart from the reference? */
  method CheckDiverges(c: DBBCache, op: Op, stage: Stage, ghost s: Ref) returns (b: bool)
    requires c.Valid() && stage == c.stage && s.view == c.Abs() && s.Legal(op)
    ensures b <==> Diverges(c, op)
  {
    if op.Fetch? {
      return !c.RepairsInPlace();
    }
    if !Leaves(op) || !EntersBlock(c, op) {
      return false;
    }
    var target;
    if op.Branch? {
      var pc := c.GetLastPcBeforeCallback();
      var w := c.GetMemWord();
      target := c.isa.Target(pc, w);
    } else {
      target := op.pc;
    }
    b := UncheckedLoop(c.at, c.slowPath, c.g, target) && !Fresh(c.code, c.g.blocks[c.at.block]);
  }

  /** What is known of memory rules out the one or the other. */
  lemma DivergesOnly(c: DBBCache, op: Op, m: Memory)
    requires c.Valid() && c.Aligned() && (op.Branch? ==> c.stage.Executing?) && Known(c.isa, c.code, c.g.blocks, m)
    ensures m.Fixed? || m.Unchanged? ==> !Diverges(c, op)
    ensures m.SameLengths? && Diverges(c, op) ==> Leaves(op)
  {
    if !m.Arbitrary? {
      KnownInPlace(c, m);
    }
    if m.Fixed? || m.Unchanged? {
      assert c.at.block != 0 ==> Fresh(c.code, c.g.blocks[c.at.block]);
    }
  }

  /** One operation of the ISS, and everything it can read afterwards. */
  method Do(c: DBBCache, op: Op, stage: Stage, clock: bool, ghost s: Ref, ghost m: Memory) returns (o: Obs, stage': Stage)
    requires Simulates(c, s, m) && s.Legal(op) && stage == c.stage && (clock ==> m.Fixed?) && !Diverges(c, op)
    modifies c
    ensures c.code == old(c.code)
    ensures Simulates(c, s.Step(c.isa, c.code, op), m) && stage' == c.stage
    ensures o == s.Step(c.isa, c.code, op).Observe(s.Fetched(c.isa, c.code, op), s.Link(op), clock)
  {
    var fetched, link := None, None;
    if op.Fetch? {
      var r := DoFetch(c, op, s, m);
      fetched, stage' := Some(r), if r.Trap? then FetchFailed else Executing;
    } else {
      link := DoControl(c, op, s, m);
      stage' := if Leaves(op) then BeforeFetch else stage;
    }
    o := ReadAll(c, stage', fetched, link, clock, s.Step(c.isa, c.code, op), m);
  }

  /** One step of the reference, and the rest. */
  lemma RunStep(isa: Isa, code: Code, s: Ref, ops: seq<Op>, clock: bool, o: Obs, rest: seq<Obs>)
    requires ops != [] && LegalRun(isa, code, s, ops)
    requires o == s.Step(isa, code, ops[0]).Observe(s.Fetched(isa, code, ops[0]), s.Link(ops[0]), clock)
    requires rest <= RefRun(isa, code, s.Step(isa, code, ops[0]), ops[1..], clock)
    ensures [o] + rest <= RefRun(isa, code, s, ops, clock)
    ensures RefEnd(isa, code, s, ops) == RefEnd(isa, code, s.Step(isa, code, ops[0]), ops[1..])
  {
  }

  /**
    Runs `ops` until they are done or, once code has changed, until the run may depart from the reference.  Up to there
    the ISS reads exactly what it would read from the reference fetch unit.
   */
  method Run(c: DBBCache, ops: seq<Op>, stage: Stage, clock: bool, ghost s: Ref, ghost m: Memory)
    returns (out: seq<Obs>, stage': Stage, ghost end: Ref)
    requires Simulates(c, s, m) && stage == c.stage && (clock ==> m.Fixed?) && LegalRun(c.isa, c.code, s, ops)
    modifies c
    ensures c.code == old(c.code) && |out| <= |ops|
    ensures out <= RefRun(c.isa, c.code, s, ops, clock)
    ensures Simulates(c, end, m) && stage' == c.stage
    ensures |out| < |ops| ==> end.Legal(ops[|out|]) && Diverges(c, ops[|out|])
    ensures |out| == |ops| ==> end == RefEnd(c.isa, c.code, s, ops)
    decreases |ops|
  {
    out, stage', end := [], stage, s;
    if ops == [] {
      return;
    }
    var stop := CheckDiverges(c, ops[0], stage, s);
    if stop {
      return;
    }
    var o, rest;
    o, stage' := Do(c, ops[0], stage, clock, s, m);
    rest, stage', end := Run(c, ops[1..], stage', clock, s.Step(c.isa, c.code, ops[0]), m);
    out := [o] + rest;
    RunStep(c.isa, c.code, s, ops, clock, o, rest);
  }

  /**
    With fixed code, every legal run from reset, however it mixes fast and medium fetches, branches, jumps, fences,
    traps, returns, forced slow paths and enabling or disabling of the cache, reads the same instructions, labels,
    link values, pcs, traps and cycle counts as the reference fetch unit.
   */
  method RunFromReset(ena: bool, isa: Isa, code: Code, entry: Addr, ops: seq<Op>) returns (out: seq<Obs>)
    requires LegalRun(isa, code, Ref(View(entry, AtStart), 0), ops)
    ensures out == RefRun(isa, code, Ref(View(entry, AtStart), 0), ops, true)
    ensures StepByStep(isa, code, Obs(None, None, None, Some(entry), None, Some(0)), ops, out)
  {
    RefExplained(isa, code, Ref(View(entry, AtStart), 0), ops, None, None, true);
    var c := new DBBCache(ena, isa, code, entry);
    var stage;
    ghost var end;
    out, stage, end := Run(c, ops, BeforeFetch, true, Ref(View(entry, AtStart), 0), Fixed);
    if |out| < |ops| {
      DivergesOnly(c, ops[|out|], Fixed);
    }
  }

  /**
    After any history that misplaced no entry, code changes arbitrarily and a fence follows.  From the fence on the ISS
    reads the new code, as from a reference fetch unit that never cached anything, to the end of the run or until it
    may depart.
   */
  method RunAfterFence(c: DBBCache, newCode: Code, ops: seq<Op>, ghost m: Memory) returns (out: seq<Obs>, ghost end: Ref)
    requires c.Valid() && c.Aligned() && c.stage.Executing? && !m.Fixed? && Known(c.isa, newCode, c.g.blocks, m)
    requires LegalRun(c.isa, newCode, Ref(c.Abs(), c.Cycles()), ops)
    modifies c
    ensures c.code == newCode && |out| <= |ops|
    ensures out <= RefRun(c.isa, newCode, old(Ref(c.Abs(), c.Cycles())), ops, false)
    ensures Simulates(c, end, m)
    ensures if |out| == |ops| then out == RefRun(c.isa, newCode, old(Ref(c.Abs(), c.Cycles())), ops, false)
            else end.Legal(ops[|out|]) && Diverges(c, ops[|out|])
    ensures m.Unchanged? ==> |out| == |ops|
    ensures m.SameLengths? && |out| < |ops| ==> Leaves(ops[|out|]) && StaleLoop(c, ops[|out|])
  {
    c.ChangeCode(newCode);
    c.Fence();
    var stage;
    out, stage, end := Run(c, ops, Executing, false, old(Ref(c.Abs(), c.Cycles())), m);
    if |out| < |ops| {
      DivergesOnly(c, ops[|out|], m);
    }
  }
}
