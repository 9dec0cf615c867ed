/**
  Where the cache does not behave like the reference fetch unit: the exact conditions, and runs from reset that get there.
 */
module DbbDeviation {
  import opened Wrappers
  import opened DbbSpec
  import opened DbbBlock
  import opened DbbGraph
  import opened DbbCache
  import opened DbbRun
  import opened DbbChanged
  import opened DbbPatch

  // ---------------------------------------------------------------- a jump back to the start of a block

  /** What the ISS reads when it runs through the entries of a block from entry i on. */
  function Recorded(isa: Isa, b: Block, i: nat): (out: seq<Obs>)
    requires i <= b.len < |b.entries|
    ensures |out| == b.len - i
    decreases b.len - i
  {
    if i == b.len then []
    else
      var e := b.entries[i];
      [Obs(Some(Delivery(isa, e.memWord, e.pc)), None, Some(e.pc), Some(isa.Next(e.pc, e.memWord)), Some(e.memWord), None)]
      + Recorded(isa, b, i + 1)
  }

  function Fetches(n: nat): (ops: seq<Op>)
    ensures |ops| == n
    ensures n > 0 ==> ops[0] == Fetch(true) && ops[1..] == Fetches(n - 1)
  {
    seq(n, _ => Fetch(true))
  }

  /** From entry i on, the entries agree with memory and lie back to back. */
  ghost predicate RightFrom(isa: Isa, code: Code, b: Block, i: nat)
    requires i <= b.len < |b.entries|
  {
    && (forall k | i <= k < b.len :: b.entries[k].pc in code && code[b.entries[k].pc] == b.entries[k].memWord)
    && (forall k {:trigger Follows(isa, b, k)} | i <= k < b.len - 1 :: Follows(isa, b, k))
  }

  /** The reference fetch unit can run as far and reads the same. */
  ghost predicate SameAsReference(isa: Isa, code: Code, s: Ref, out: seq<Obs>) {
    var ops := Fetches(|out|);
    LegalRun(isa, code, s, ops) && RefRun(isa, code, s, ops, false) == out
  }

  /** One step of both. */
  lemma RecordedStep(isa: Isa, code: Code, s: Ref, o: Obs, rest: seq<Obs>)
    requires !s.view.phase.Faulted?
    ensures var s' := s.Step(isa, code, Fetch(true));
            SameAsReference(isa, code, s, [o] + rest) <==>
            o == s'.Observe(Some(FetchResult(isa, code, s.view.pc)), None, false) && SameAsReference(isa, code, s', rest)
  {
    var ops, s' := Fetches(|rest| + 1), s.Step(isa, code, Fetch(true));
    assert LegalRun(isa, code, s, ops) <==> LegalRun(isa, code, s', ops[1..]);
    if LegalRun(isa, code, s, ops) {
      var first := s'.Observe(Some(FetchResult(isa, code, s.view.pc)), None, false);
      assert RefRun(isa, code, s, ops, false) == [first] + RefRun(isa, code, s', ops[1..], false);
      assert ([o] + rest)[0] == o && ([o] + rest)[1..] == rest;
      assert ([first] + RefRun(isa, code, s', ops[1..], false))[1..] == RefRun(isa, code, s', ops[1..], false);
    }
  }

  /** An entry that lies elsewhere is not what the reference reads. */
  lemma RecordedElsewhere(isa: Isa, code: Code, b: Block, i: nat, s: Ref)
    requires i < b.len < |b.entries| && !s.view.phase.Faulted? && s.view.pc != b.entries[i].pc
    ensures !SameAsReference(isa, code, s, Recorded(isa, b, i))
  {
    var o := Recorded(isa, b, i)[0];
    RecordedStep(isa, code, s, o, Recorded(isa, b, i + 1));
    assert o != s.Step(isa, code, Fetch(true)).Observe(Some(FetchResult(isa, code, s.view.pc)), None, false);
  }

  /** An entry that differs from memory is not, either. */
  lemma RecordedDiffers(isa: Isa, code: Code, b: Block, i: nat, s: Ref)
    requires i < b.len < |b.entries| && !s.view.phase.Faulted? && s.view.pc == b.entries[i].pc
    requires !(s.view.pc in code && code[s.view.pc] == b.entries[i].memWord)
    ensures !SameAsReference(isa, code, s, Recorded(isa, b, i))
  {
    var o := Recorded(isa, b, i)[0];
    RecordedStep(isa, code, s, o, Recorded(isa, b, i + 1));
    assert o != s.Step(isa, code, Fetch(true)).Observe(Some(FetchResult(isa, code, s.view.pc)), None, false);
  }

  /** An entry that is right is what the reference reads, and the rest decides. */
  lemma RecordedAgrees(isa: Isa, code: Code, b: Block, i: nat, s: Ref)
    requires i < b.len < |b.entries| && !s.view.phase.Faulted? && s.view.pc == b.entries[i].pc
    requires s.view.pc in code && code[s.view.pc] == b.entries[i].memWord
    ensures SameAsReference(isa, code, s, Recorded(isa, b, i)) <==>
            SameAsReference(isa, code, s.Step(isa, code, Fetch(true)), Recorded(isa, b, i + 1))
  {
    RecordedStep(isa, code, s, Recorded(isa, b, i)[0], Recorded(isa, b, i + 1));
  }

  lemma RightStep(isa: Isa, code: Code, b: Block, i: nat)
    requires i < b.len < |b.entries|
    ensures RightFrom(isa, code, b, i) <==>
            && b.entries[i].pc in code && code[b.entries[i].pc] == b.entries[i].memWord
            && (i + 1 < b.len ==> Follows(isa, b, i)) && RightFrom(isa, code, b, i + 1)
  {
  }

  /** Running through recorded entries is running through memory if and only if these entries are right. */
  lemma {:induction false} RecordedIff(isa: Isa, code: Code, b: Block, i: nat, s: Ref)
    requires i <= b.len < |b.entries|
    requires !s.view.phase.Faulted? && (i < b.len ==> s.view.pc == b.entries[i].pc)
    ensures SameAsReference(isa, code, s, Recorded(isa, b, i)) <==> RightFrom(isa, code, b, i)
    decreases b.len - i
  {
    if i < b.len {
      RightStep(isa, code, b, i);
      var e, s' := b.entries[i], s.Step(isa, code, Fetch(true));
      if e.pc !in code || code[e.pc] != e.memWord {
        RecordedDiffers(isa, code, b, i, s);
      } else {
        RecordedAgrees(isa, code, b, i, s);
        if i + 1 < b.len && !Follows(isa, b, i) {
          RecordedElsewhere(isa, code, b, i + 1, s');
        } else {
          RecordedIff(isa, code, b, i + 1, s');
        }
      }
    }
  }

  /** Runs through the rest of the current block on the fast path. */
  method RunThrough(c: DBBCache, ghost b: Block, i: nat) returns (out: seq<Obs>)
    requires c.Valid() && c.at.fast == At(i - 1) && !c.stage.FetchFailed? && c.at.block != 0
    requires i <= b.len < |b.entries| && SameButLinks(b, c.g.blocks[c.at.block])
    modifies c
    ensures c.code == old(c.code) && out == Recorded(c.isa, b, i)
    decreases b.len - i
  {
    out := [];
    if i < c.g.blocks[c.at.block].len {
      var opLabel, instr := c.FetchDecodeFast();
      assert EntryAt(c, b, i);
      var last := c.GetLastPcBeforeCallback();
      var pc := c.GetPcMaybeAfterCallback();
      var w := c.GetMemWord();
      var rest := RunThrough(c, b, i + 1);
      out := [Obs(Some(Fetched(opLabel, instr, pc)), None, Some(last), Some(pc), Some(w), None)] + rest;
    }
  }

  /** The instruction in execution is entry i. */
  ghost predicate EntryAt(c: DBBCache, b: Block, i: nat)
    reads c
    requires c.Valid() && i < |b.entries|
  {
    c.Abs() == View(c.isa.Next(b.entries[i].pc, b.entries[i].memWord), InInstr(b.entries[i].pc, b.entries[i].memWord))
  }

  /**
    Any branch, jump or trap, at any stage, from a block that was not revalidated since the last fence back to its own
    start enters the fast path without a check.  What is read from there to the end of the block are the recorded
    instructions.  It is what the reference fetch unit reads if and only if the block still agrees with memory and no
    earlier check has misplaced its entries.
   */
  method LoopWithoutCheck(c: DBBCache, op: Op) returns (out: seq<Obs>)
    requires c.Valid() && Leaves(op) && (op.Branch? ==> c.stage.Executing?)
    requires (op.Dyn? || op.Trapped?) ==> op.pc != INVALID_PC
    requires EntersBlock(c, op) && UncheckedLoop(c.at, c.slowPath, c.g, TargetOf(c.isa, c.Abs(), op))
    modifies c
    ensures c.code == old(c.code) && out == Recorded(c.isa, old(c.g.blocks[c.at.block]), 0)
    ensures SameAsReference(c.isa, c.code, Ref(View(old(TargetOf(c.isa, c.Abs(), op)), AtStart), 0), out) <==>
            old(Fresh(c.code, c.g.blocks[c.at.block]) && Chained(c.isa, c.g.blocks[c.at.block]))
  {
    ghost var g, starts, id := c.g, c.starts, c.at.block;
    ghost var b := g.blocks[id];
    assert BlockIn(c.isa, starts, g.blocks, g.coherence, id);
    Move(c, op);
    Revisits(c.isa, starts, g, c.starts, c.g, c.at.block, b.start);
    assert c.at.block == id && c.at.fast == At(-1);
    out := RunThrough(c, b, 0);
    RecordedIff(c.isa, c.code, b, 0, Ref(View(b.start, AtStart), 0));
    assert RightFrom(c.isa, c.code, b, 0) <==> Fresh(c.code, b) && Chained(c.isa, b);
  }

  /** Words 1 and 9 are operations 1 and 9; word 2 is a jump back by 4. */
  const LOOP_ISA := Isa(false, imap[1 := Decoded(1, 1, 1, false, 0), 2 := Decoded(2, 2, 1, false, -2), 9 := Decoded(9, 9, 1, false, 0)])
  const LOOP: Code := imap[0 := 1, 4 := 2]
  const PATCHED: Code := imap[0 := 9, 4 := 2]

  /** The ISS has executed the loop once up to its jump. */
  ghost predicate LoopCached(c: DBBCache)
    reads c
  {
    && c.Valid() && c.isa == LOOP_ISA && c.enabled && !c.slowPath && c.stage.Executing?
    && c.at.block != 0 && c.Abs() == View(8, InInstr(4, 2))
    && var b := c.g.blocks[c.at.block]; b.start == 0 && b.len > 0 && b.entries[0].pc == 0 && b.entries[0].memWord == 1
  }

  method RunLoopOnce() returns (c: DBBCache)
    ensures fresh(c) && LoopCached(c)
  {
    c := new DBBCache(true, LOOP_ISA, LOOP, 0);
    var r := c.FetchDecode(0);
    assert c.Abs() == View(4, InInstr(0, 1));
    r := c.FetchDecode(4);
    assert BlockIn(LOOP_ISA, c.starts, c.g.blocks, c.g.coherence, c.at.block) && Fresh(LOOP, c.g.blocks[c.at.block]);
  }

  /** From reset: two instructions, the first of which is replaced before a fence; the jump back runs the old one. */
  method StaleLoopFromReset() returns (out: seq<Obs>)
    ensures |out| >= 1 && out[0].fetched == Some(Fetched(Op(1), 1, 4)) && out[0].lastPc == Some(0)
    ensures FetchResult(LOOP_ISA, PATCHED, 0) == Fetched(Op(9), 9, 4)
  {
    var c := RunLoopOnce();
    c.ChangeCode(PATCHED);
    assert BlockIn(LOOP_ISA, c.starts, c.g.blocks, c.g.coherence, c.at.block);
    c.Fence();
    out := LoopWithoutCheck(c, Branch(false));
  }

  // ---------------------------------------------------------------- the pc of a trap after a failed fetch

  /** The first instruction of the trap handler will be served from the cache, without a look at memory. */
  ghost predicate HandlerCached(c: DBBCache, handler: Addr)
    reads c
    requires c.Valid()
  {
    && EntersBlock(c, Trapped(handler)) && handler in c.g.blockmap
    && var id := c.g.blockmap[handler];
       && 0 < id < |c.g.blocks| && c.g.blocks[id].len > 0
       && (c.g.blocks[id].coherence == c.g.coherence || (id == c.at.block && !c.slowPath))
  }

  /** A fetch on the fast path, or on the medium path if that fails or is not tried. */
  method FetchEither(c: DBBCache, tryFast: bool) returns (r: Fetched)
    requires c.Valid() && !c.stage.FetchFailed?
    modifies c
    ensures c.Valid() && c.code == old(c.code) && c.at.block == old(c.at.block)
    ensures if old(c.FromCache()) then c.g == old(c.g) && c.exception == old(c.exception) && !r.Trap? else c.exception == r.Trap?
    ensures if r.Trap? then c.stage.FetchFailed? else c.stage.Executing? && (c.at.block != 0 ==> c.at.Pos() == old(c.at.Pos()) + 1)
    ensures !r.Trap? && c.at.block == 0 ==> c.Abs().phase.lastPc == old(c.Abs()).pc
    ensures |c.g.blocks| == |old(c.g.blocks)|
    ensures c.at.block != 0 ==> c.g.blocks[c.at.block].start == old(c.g.blocks[c.at.block]).start
  {
    if tryFast {
      var ok;
      ok, r := FetchFastOnly(c);
      if ok {
        return;
      }
    }
    var pc := c.GetPcMaybeAfterCallback();
    r := c.FetchDecode(pc);
  }

  /** The fast path alone. */
  method FetchFastOnly(c: DBBCache) returns (ok: bool, r: Fetched)
    requires c.Valid() && !c.stage.FetchFailed?
    modifies c
    ensures c.Valid() && c.code == old(c.code) && c.g == old(c.g) && c.exception == old(c.exception) && c.at.block == old(c.at.block)
    ensures ok ==> old(c.FromCache()) && c.at.block != 0 && !r.Trap? && c.stage.Executing? && c.at.Pos() == old(c.at.Pos()) + 1
    ensures !ok ==> c.at == old(c.at) && c.stage == old(c.stage) && c.Abs() == old(c.Abs())
  {
    var opLabel, instr := c.FetchDecodeFast();
    ok := opLabel != Abort;
    if !ok {
      c.AbortFetchDecodeFast();
      return false, Trap;
    }
    var pc := c.GetPcMaybeAfterCallback();
    r := Fetched(opLabel, instr, pc);
  }

  /**
    After a failed fetch the trap handler is entered, its first instruction is fetched and traps as well.  The pc then
    reported is the handler's if and only if that instruction was fetched from memory, or the fetch had failed at the
    same address; otherwise it is still the address of the failed fetch.  This holds for every state, handler and path.
   */
  method TrapPcAfterFailedFetch(c: DBBCache, handler: Addr, tryFast: bool) returns (r: Fetched, pc: Addr)
    requires c.Valid() && c.stage.FetchFailed? && handler != INVALID_PC
    modifies c
    ensures c.Valid() && (old(HandlerCached(c, handler)) ==> !r.Trap?)
    ensures !r.Trap? ==> c.stage.Executing? && c.Abs().phase.lastPc == handler
    ensures !r.Trap? ==> pc == if old(HandlerCached(c, handler)) then old(c.Abs()).pc else handler
    ensures !r.Trap? ==> (pc == handler <==> old(c.Abs()).pc == handler || !old(HandlerCached(c, handler)))
  {
    ghost var g, starts, cached := c.g, c.starts, HandlerCached(c, handler);
    c.EnterTrap(handler);
    if c.at.block != 0 {
      assert BlockIn(c.isa, c.starts, c.g.blocks, c.g.coherence, c.at.block);
      Revisits(c.isa, starts, g, c.starts, c.g, c.at.block, handler);
    }
    assert c.FromCache() == cached;
    r := FetchEither(c, tryFast);
    pc := handler;
    if !r.Trap? {
      assert c.at.block != 0 ==> BlockIn(c.isa, c.starts, c.g.blocks, c.g.coherence, c.at.block);
      pc := c.GetLastPcExceptionSafe();
    }
  }

  // ---------------------------------------------------------------- later instructions of the handler

  /** What the handler does until it returns or traps. */
  predicate Inside(op: Op) { op.Fetch? || op.Branch? || op.Dyn? || op.FenceOp? || op.Slow? }

  /** Since the fetch at `failed` failed, some fetch has gone to memory, or none has. */
  ghost predicate SinceFailure(c: DBBCache, failed: Addr, memory: bool)
    reads c
  {
    && c.Valid() && !c.stage.FetchFailed?
    && if memory then !c.exception
       else c.exception && if c.at.block != 0 then c.SavedPc() == failed else c.stage.BeforeFetch?
  }

  /** One step of the handler; `memory` records whether a fetch has gone to memory. */
  method StepInside(c: DBBCache, op: Op, stage: Stage, ghost failed: Addr, memory: bool) returns (stage': Stage, memory': bool)
    requires SinceFailure(c, failed, memory) && stage == c.stage && Inside(op) && Permitted(op, stage)
    modifies c
    ensures c.Valid() && stage' == c.stage
    ensures memory' == (memory || (op.Fetch? && !old(c.FromCache())))
    ensures !stage'.FetchFailed? ==> SinceFailure(c, failed, memory')
  {
    stage', memory' := stage, memory;
    if op.Fetch? {
      memory' := memory || !c.FromCache();
      var r := FetchEither(c, op.tryFast);
      stage' := if r.Trap? then FetchFailed else Executing;
    } else if op.FenceOp? {
      c.Fence();
    } else if op.Slow? {
      c.ForceSlowPath();
    } else {
      Move(c, op);
      stage' := BeforeFetch;
    }
  }

  /**
    After a failed fetch the trap handler runs any number of steps and then traps.  The pc reported for that is right if
    and only if some fetch since the failure has gone to memory, or the fetch had failed at the same address; otherwise
    it is still the address of the failed fetch.
   */
  method TrapPcInHandler(c: DBBCache, handler: Addr, ops: seq<Op>) returns (traps: bool, memory: bool, pc: Addr)
    requires c.Valid() && c.stage.FetchFailed? && handler != INVALID_PC && forall i | 0 <= i < |ops| :: Inside(ops[i])
    modifies c
    ensures c.Valid() && (traps ==> c.stage.Executing?)
    ensures traps ==> pc == if memory then c.Abs().phase.lastPc else old(c.Abs()).pc
    ensures traps ==> (pc == c.Abs().phase.lastPc <==> memory || old(c.Abs()).pc == c.Abs().phase.lastPc)
  {
    ghost var failed := c.Abs().pc;
    c.EnterTrap(handler);
    var n, stage := 0, BeforeFetch;
    memory, pc := false, handler;
    while n < |ops| && !stage.FetchFailed?
      invariant n <= |ops| && c.Valid() && stage == c.stage
      invariant !stage.FetchFailed? ==> SinceFailure(c, failed, memory)
      decreases |ops| - n
    {
      if Permitted(ops[n], stage) {
        stage, memory := StepInside(c, ops[n], stage, failed, memory);
      }
      n := n + 1;
    }
    traps := stage.Executing?;
    if traps {
      pc := c.GetLastPcExceptionSafe();
    }
  }

  const HANDLER := 256
  const ONLY_HANDLER: Code := imap[HANDLER := 1]

  /** Block `id` is current and starts at the handler, the only address that has code. */
  ghost predicate HandlerRun(c: DBBCache, id: BlockId)
    reads c
  {
    && c.Valid() && c.code == ONLY_HANDLER && c.enabled
    && 0 < id < |c.g.blocks| && c.g.blocks[id].start == HANDLER && c.g.blocks[id].len > 0
    && c.g.blocks[id].coherence == c.g.coherence
  }

  method RunHandler() returns (c: DBBCache, ghost id: BlockId)
    ensures fresh(c) && HandlerRun(c, id) && c.Safe() && AllFresh(c.code, c.g.blocks) && c.stage.Executing?
  {
    c := new DBBCache(true, LOOP_ISA, ONLY_HANDLER, HANDLER);
    id := c.at.block;
    assert BlockIn(LOOP_ISA, c.starts, c.g.blocks, c.g.coherence, id);
    var r := c.FetchDecode(HANDLER);
    assert BlockIn(LOOP_ISA, c.starts, c.g.blocks, c.g.coherence, id);
  }

  /** A jump to an address without code. */
  method JumpAstray(c: DBBCache, ghost id: BlockId)
    requires HandlerRun(c, id) && c.Safe() && AllFresh(c.code, c.g.blocks)
    modifies c
    ensures HandlerRun(c, id) && c.Safe() && AllFresh(c.code, c.g.blocks) && c.Abs() == View(0, AtStart)
  {
    ghost var g, at, slow := c.g, c.at, c.slowPath;
    assert at.block != 0 ==> Fresh(c.code, g.blocks[at.block]);
    c.JumpDyn(0);
    assert BlockIn(c.isa, c.starts, c.g.blocks, c.g.coherence, c.at.block);
    SwitchKeepsSafe(c.isa, c.code, at, slow, g, c.at, c.g, 0);
    assert SameButLinks(g.blocks[id], c.g.blocks[id]);
  }

  method FailToFetch(c: DBBCache, ghost id: BlockId)
    requires HandlerRun(c, id) && c.Safe() && AllFresh(c.code, c.g.blocks) && c.Abs() == View(0, AtStart)
    modifies c
    ensures HandlerRun(c, id) && c.stage.FetchFailed? && c.Abs().pc == 0
  {
    KnownInPlace(c, Unchanged);
    var r := c.FetchDecode(0);
  }

  /**
    From reset: the handler has been run before, a jump leads to an address without code, and the handler's first
    instruction traps.  The pc reported for that trap is the address of the jump.
   */
  method TrapPcFromReset(tryFast: bool) returns (pc: Addr)
    ensures pc == 0 != HANDLER
  {
    var c, id := RunHandler();
    JumpAstray(c, id);
    FailToFetch(c, id);
    assert BlockIn(c.isa, c.starts, c.g.blocks, c.g.coherence, id);
    assert c.starts[id] == HANDLER;
    var r;
    r, pc := TrapPcAfterFailedFetch(c, HANDLER, tryFast);
  }

  // ---------------------------------------------------------------- an entry that moves

  /** Two long instructions and a third one elsewhere; then the first one gets shorter, so that the second one moves. */
  const LONG_CODE: Code := imap[0 := 1, 4 := 3, 100 := 5]
  const SHORT_CODE: Code := imap[0 := 2, 2 := 3, 100 := 5]

  /** Block `id` holds the two long instructions. */
  ghost predicate TwoLong(blocks: seq<Block>, id: BlockId) {
    && 0 < id < |blocks| && blocks[id].start == 0 && blocks[id].len == 2 < |blocks[id].entries|
    && blocks[id].entries[1].pc == 4 && blocks[id].entries[1].memWord == 3
  }

  lemma TwoLongIs(isa: Isa, starts: seq<Addr>, g: Graph, id: BlockId)
    requires isa == SHORTENED_ISA && GraphOk(isa, starts, g) && 0 < id < |g.blocks|
    requires AllFresh(LONG_CODE, g.blocks) && AllChained(isa, g.blocks) && g.blocks[id].start == 0 && g.blocks[id].len >= 2
    ensures TwoLong(g.blocks, id)
  {
    var b := g.blocks[id];
    assert BlockIn(isa, starts, g.blocks, g.coherence, id) && Fresh(LONG_CODE, b) && Chained(isa, b);
    assert b.entries[0].pc == 0 && b.entries[0].memWord == 1;
    assert Follows(isa, b, 0) && b.entries[1].pc == 4 && b.entries[1].memWord == 3;
    assert b.len > 2 ==> Follows(isa, b, 1);
  }

  method RunTwoLong() returns (c: DBBCache, ghost id: BlockId)
    ensures fresh(c) && c.Valid() && c.isa == SHORTENED_ISA && c.code == LONG_CODE && c.enabled && c.Exact()
    ensures c.stage.Executing? && c.at.block == id && TwoLong(c.g.blocks, id)
  {
    c := RunOneLong();
    id := c.at.block;
    var r := c.FetchDecode(4);
    TwoLongIs(c.isa, c.starts, c.g, id);
  }

  method RunOneLong() returns (c: DBBCache)
    ensures fresh(c) && c.Valid() && c.isa == SHORTENED_ISA && c.code == LONG_CODE && c.enabled && c.Exact() && c.Safe()
    ensures c.Abs() == View(4, InInstr(0, 1)) && c.at.block != 0 && c.at.Pos() == 0 && c.g.blocks[c.at.block].start == 0
    ensures c.RepairsInPlace()
  {
    c := new DBBCache(true, SHORTENED_ISA, LONG_CODE, 0);
    assert BlockIn(c.isa, c.starts, c.g.blocks, c.g.coherence, c.at.block);
    var r := c.FetchDecode(0);
    KnownInPlace(c, Unchanged);
  }

  /** The ISS goes on elsewhere. */
  method RunElsewhere(c: DBBCache, ghost id: BlockId)
    requires c.Valid() && c.isa == SHORTENED_ISA && c.code == LONG_CODE && c.enabled && c.Exact()
    requires c.stage.Executing? && c.at.block == id && TwoLong(c.g.blocks, id)
    modifies c
    ensures c.Valid() && c.isa == SHORTENED_ISA && c.stage.Executing? && c.at.block != id && TwoLong(c.g.blocks, id)
    ensures EntersBlock(c, Dyn(0, false))
  {
    ghost var before := c.g.blocks;
    c.JumpDyn(100);
    assert BlockIn(c.isa, c.starts, c.g.blocks, c.g.coherence, c.at.block);
    assert SameButLinks(before[id], c.g.blocks[id]);
    ExtendsKeeps(c.isa, c.code, c.g.coherence, before, c.g.blocks);
    var r := c.FetchDecode(100);
  }

  /**
    From reset: a block is left, its first instruction is replaced by a shorter one, a fence follows, and the block is
    entered again.  Its second instruction is read from address 2, and the pc reported for it is 4.
   */
  method MisplacedFromReset() returns (pc: Addr)
    ensures pc == 4 && PathAt(SHORTENED_ISA, SHORT_CODE, 0, 1) == 2
  {
    var c, id := RunTwoLong();
    RunElsewhere(c, id);
    PatchAndReturn(c, id);
    pc := ReadSecond(c);
  }

  method PatchAndReturn(c: DBBCache, ghost id: BlockId)
    requires c.Valid() && c.stage.Executing? && c.at.block != id && TwoLong(c.g.blocks, id) && EntersBlock(c, Dyn(0, false))
    modifies c
    ensures c.Valid() && c.code == SHORT_CODE && c.at.block == id && TwoLong(c.g.blocks, id)
    ensures Following(c, c.g.blocks[id], 0) && c.at.fast.Disabled?
  {
    c.ChangeCode(SHORT_CODE);
    assert BlockIn(c.isa, c.starts, c.g.blocks, c.g.coherence, id);
    c.Fence();
    EnterStale(c, Dyn(0, false), id);
  }

  method ReadSecond(c: DBBCache) returns (pc: Addr)
    requires c.Valid() && c.isa == SHORTENED_ISA && c.code == SHORT_CODE && TwoLong(c.g.blocks, c.at.block)
    requires Following(c, c.g.blocks[c.at.block], 0) && c.at.fast.Disabled?
    modifies c
    ensures pc == 4 && PathAt(SHORTENED_ISA, SHORT_CODE, 0, 1) == 2
  {
    assert PathAt(SHORTENED_ISA, SHORT_CODE, 0, 1) == 2;
    ReadFirst(c);
    var opLabel, instr := c.FetchDecodeFast();
    pc := c.GetLastPcBeforeCallback();
  }

  /** The first fetch repairs the block. */
  method ReadFirst(c: DBBCache)
    requires c.Valid() && c.isa == SHORTENED_ISA && c.code == SHORT_CODE && TwoLong(c.g.blocks, c.at.block)
    requires Following(c, c.g.blocks[c.at.block], 0) && c.at.fast.Disabled?
    modifies c
    ensures c.Valid() && c.stage.Executing? && c.at.fast == At(0) && TwoLong(c.g.blocks, c.at.block)
  {
    assert PathAt(SHORTENED_ISA, SHORT_CODE, 0, 0) == 0 && PathAt(SHORTENED_ISA, SHORT_CODE, 0, 1) == 2;
    var pc := c.GetPcMaybeAfterCallback();
    var r := c.FetchDecode(pc);
  }
}
