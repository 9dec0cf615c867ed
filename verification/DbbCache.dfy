/**
  DBBCache_T: the dynamic basic block cache.  Every operation is specified by what it does to the view that the
  reference fetch unit of DbbSpec has of the execution.
 */
module DbbCache {
  import opened DbbSpec
  import opened DbbBlock
  import opened DbbGraph

  /** fastEntry: an entry of the fast-disable block, or an entry of the current block. */
  datatype FastPtr = Disabled(slot: int) | At(idx: int)

  /** curBlock, curEntryIdx and fastEntry. */
  datatype Cursor = Cursor(block: BlockId, idx: int, fast: FastPtr) {
    /** Position in the current block; -1 is before its first entry. */
    function Pos(): int { if fast.At? then fast.idx else idx }

    /** fastEntry++ and fastEntry--. */
    function Step(d: int): Cursor {
      this.(fast := match fast case Disabled(slot) => Disabled(slot + d) case At(i) => At(i + d))
    }
  }

  /** Protocol state of the ISS, which decides what may be asked of the cache. */
  datatype Stage = BeforeFetch | Executing | FetchFailed

  /** The fast path is off, or runs in a real block. */
  ghost predicate CursorOk(at: Cursor) {
    if at.fast.Disabled? then at.fast.slot == 0 else at.block != 0
  }

  /** Position `pos` lies in block `id` and fits the stage. */
  ghost predicate Located(isa: Isa, blocks: seq<Block>, id: BlockId, pos: int, stage: Stage, memWord: Word) {
    && 0 <= id < |blocks|
    && -1 <= pos && pos + 1 < |blocks[id].entries|
    && if id == 0 then
         && |blocks[0].entries| == N_ENTRIES_START
         && pos == (if stage.BeforeFetch? then -1 else 0)
         && (stage.BeforeFetch? ==> blocks[0].entries[1].cycles == 0)
         && (stage.Executing? ==> blocks[0].entries[0].size == isa.Decode(memWord).Size())
       else
         && (if stage.BeforeFetch? then pos == -1 else pos < blocks[id].len)
         && (stage.Executing? ==> 0 <= pos)
  }

  /** The view that this position stands for, while no fetch has failed. */
  ghost function ViewAt(isa: Isa, blocks: seq<Block>, id: BlockId, pos: int, stage: Stage, memWord: Word): View
    requires Located(isa, blocks, id, pos, stage, memWord)
  {
    var b := blocks[id];
    if stage.Executing? then
      var w := if id == 0 then memWord else b.entries[pos].memWord;
      View(isa.Next(b.entries[pos].pc, w), InInstr(b.entries[pos].pc, w))
    else
      View(if id == 0 then b.entries[0].pc else b.start, AtStart)
  }

  ghost function ClockAt(blocks: seq<Block>, id: BlockId, pos: int): int
    requires 0 <= id < |blocks| && -1 <= pos && pos + 1 < |blocks[id].entries|
  {
    blocks[id].entries[pos + 1].cycles
  }

  /** Position, view and delivery of entry k of block `id`. */
  ghost predicate EntryRuns(isa: Isa, blocks: seq<Block>, id: BlockId, k: int, memWord: Word, r: Fetched, pc: Addr) {
    && Located(isa, blocks, id, k, Executing, memWord) && k < |blocks[id].entries| && id != 0
    && var e := blocks[id].entries[k];
       && ViewAt(isa, blocks, id, k, Executing, memWord) == View(isa.Next(e.pc, e.memWord), InInstr(e.pc, e.memWord))
       && r == Delivery(isa, e.memWord, pc)
  }

  /** Reads entry k of block `id`. */
  method ReadEntry(isa: Isa, ghost starts: seq<Addr>, g: Graph, id: BlockId, k: nat, ghost memWord: Word, pc: Addr)
    returns (r: Fetched)
    requires GraphOk(isa, starts, g) && 0 < id < |g.blocks| && k < g.blocks[id].len
    ensures EntryRuns(isa, g.blocks, id, k, memWord, r, pc)
  {
    assert BlockIn(isa, starts, g.blocks, g.coherence, id);
    var e := g.blocks[id].entries[k];
    assert EntryOk(isa, starts, e);
    r := Fetched(e.opLabel, e.instr, isa.Add(pc, e.size));
  }

  /** A fetch behind the last entry of block `id`. */
  method ReadAppended(isa: Isa, ghost starts: seq<Addr>, code: Code, g: Graph, id: BlockId, ghost memWord: Word, pc: Addr)
    returns (g': Graph, r: Fetched)
    requires GraphOk(isa, starts, g) && 0 < id < |g.blocks|
    requires pc == PcAfter(isa, g.blocks[id], g.blocks[id].len - 1)
    ensures GraphOk(isa, starts, g') && r == FetchResult(isa, code, pc)
    ensures Touched(g, g', id) && Renewed(code, g.blocks[id], g'.blocks[id])
    ensures Keeps(isa, code, g.coherence, g.blocks, g'.blocks)
    ensures var n := g.blocks[id].len;
            if r.Trap? then
              && n == g'.blocks[id].len && g'.blocks[0].entries[0].pc == pc
              && ClockAt(g'.blocks, id, n - 1) == ClockAt(g.blocks, id, n - 1)
            else
              && EntryRuns(isa, g'.blocks, id, n, memWord, r, pc)
              && g'.blocks[id].entries[n].pc == pc && g'.blocks[id].entries[n].memWord == code[pc]
              && ClockAt(g'.blocks, id, n) == ClockAt(g.blocks, id, n - 1) + FetchTime(isa, code, pc)
  {
    g' := FetchAddEntry(isa, starts, code, g, id, pc);
    if pc in code {
      r := ReadEntry(isa, starts, g', id, g.blocks[id].len, memWord, pc);
    } else {
      r := Trap;
    }
  }

  /** The entry behind position `pos` of a block lies where the position points. */
  lemma NextEntry(isa: Isa, starts: seq<Addr>, g: Graph, id: BlockId, pos: int, stage: Stage, memWord: Word)
    requires GraphOk(isa, starts, g) && Located(isa, g.blocks, id, pos, stage, memWord) && !stage.FetchFailed?
    requires id != 0 && pos + 1 < g.blocks[id].len && Chained(isa, g.blocks[id])
    ensures g.blocks[id].entries[pos + 1].pc == ViewAt(isa, g.blocks, id, pos, stage, memWord).pc
  {
    assert BlockIn(isa, starts, g.blocks, g.coherence, id);
    assert stage.Executing? ==> Follows(isa, g.blocks[id], pos);
  }

  /** If the block agrees with memory, it is what memory has there. */
  lemma NextFresh(isa: Isa, code: Code, blocks: seq<Block>, id: BlockId, k: nat)
    requires 0 < id < |blocks| && k < blocks[id].len < |blocks[id].entries| && Fresh(code, blocks[id])
    ensures var pc := blocks[id].entries[k].pc;
            && pc in code && code[pc] == blocks[id].entries[k].memWord
            && (Clocked(isa, blocks[id]) ==> ClockAt(blocks, id, k) == ClockAt(blocks, id, k - 1) + FetchTime(isa, code, pc))
  {
    assert Clocked(isa, blocks[id]) ==> Ticks(isa, blocks[id], k);
  }

  /** What using the entry behind position `pos` does: the recorded instruction, and if the block agrees the one in memory. */
  ghost predicate CachedStep(isa: Isa, code: Code, blocks: seq<Block>, id: BlockId, pos: int, stage: Stage, memWord: Word)
    requires Located(isa, blocks, id, pos, stage, memWord) && id != 0
  {
    && Located(isa, blocks, id, pos + 1, Executing, memWord) && pos + 1 < blocks[id].len < |blocks[id].entries|
    && var b, e := blocks[id], blocks[id].entries[pos + 1];
       var v, v' := ViewAt(isa, blocks, id, pos, stage, memWord), ViewAt(isa, blocks, id, pos + 1, Executing, memWord);
       && EntryDecoded(isa, e)
       && v' == View(isa.Next(e.pc, e.memWord), InInstr(e.pc, e.memWord))
       && (Chained(isa, b) ==> e.pc == v.pc)
       && (Chained(isa, b) && Fresh(code, b) ==> v' == v.Fetch(isa, code) && v.pc in code)
       && (Chained(isa, b) && Fresh(code, b) && Clocked(isa, b) ==>
             ClockAt(blocks, id, pos + 1) == ClockAt(blocks, id, pos) + FetchTime(isa, code, v.pc))
  }

  lemma UseNext(isa: Isa, starts: seq<Addr>, code: Code, g: Graph, id: BlockId, pos: int, stage: Stage, memWord: Word)
    requires GraphOk(isa, starts, g) && Located(isa, g.blocks, id, pos, stage, memWord) && !stage.FetchFailed?
    requires id != 0 && pos + 1 < g.blocks[id].len
    ensures CachedStep(isa, code, g.blocks, id, pos, stage, memWord)
  {
    assert BlockIn(isa, starts, g.blocks, g.coherence, id);
    assert EntryOk(isa, starts, g.blocks[id].entries[pos + 1]);
    if Chained(isa, g.blocks[id]) {
      NextEntry(isa, starts, g, id, pos, stage, memWord);
      if Fresh(code, g.blocks[id]) {
        NextFresh(isa, code, g.blocks, id, pos + 1);
      }
    }
  }

  /** What fetching entry k of a block that has to be checked before does, for any code. */
  ghost predicate CheckStep(isa: Isa, code: Code, g: Graph, g': Graph, id: BlockId, k: int, pc: Addr, r: Fetched, coherent: bool) {
    && 0 < id < |g.blocks| == |g'.blocks| && 0 <= k < g.blocks[id].len < |g.blocks[id].entries|
    && var b, b' := g.blocks[id], g'.blocks[id];
       && b'.len == b.len < |b'.entries|
       && Touched(g, g', id) && Renewed(code, b, b')
       && (Reaches(isa, code, b.start, k + 1) ==> !r.Trap? && BroughtUpToDate(isa, code, b, b', k, coherent))
       && (HaveLen(g.blocks) && AllChained(isa, g.blocks) && InPlace(isa, code, b, k) ==>
             CheckedRight(isa, code, g, g', id, k, pc, r, coherent))
  }

  /** It is what an uncached fetch does if no recorded pc becomes wrong. */
  ghost predicate CheckedRight(isa: Isa, code: Code, g: Graph, g': Graph, id: BlockId, k: nat, pc: Addr, r: Fetched,
                               coherent: bool)
    requires 0 < id < |g.blocks| == |g'.blocks| && k < g.blocks[id].len < |g.blocks[id].entries|
    requires g'.blocks[id].len == g.blocks[id].len < |g'.blocks[id].entries|
  {
    && Keeps(isa, code, g.coherence, g.blocks, g'.blocks)
    && r == FetchResult(isa, code, pc) && (coherent ==> Fresh(code, g'.blocks[id]))
    && (!r.Trap? ==> g'.blocks[id].entries[k].pc == pc && g'.blocks[id].entries[k].memWord == code[pc])
    && (Fresh(code, g.blocks[id]) && Clocked(isa, g.blocks[id]) ==>
          !r.Trap? && ClockAt(g'.blocks, id, k) == ClockAt(g.blocks, id, k - 1) + FetchTime(isa, code, pc))
  }

  /** Code that has not changed still has not. */
  lemma CheckedExact(isa: Isa, starts: seq<Addr>, code: Code, g: Graph, g': Graph, id: BlockId, k: nat, pc: Addr, r: Fetched,
                     coherent: bool)
    requires GraphOk(isa, starts, g) && CheckStep(isa, code, g, g', id, k, pc, r, coherent)
    requires AllFresh(code, g.blocks) && AllClocked(isa, g.blocks) && AllChained(isa, g.blocks)
    ensures HaveLen(g'.blocks) && AllFresh(code, g'.blocks) && AllClocked(isa, g'.blocks) && AllChained(isa, g'.blocks)
    ensures !r.Trap? && ClockAt(g'.blocks, id, k) == ClockAt(g.blocks, id, k - 1) + FetchTime(isa, code, pc)
  {
    assert BlockIn(isa, starts, g.blocks, g.coherence, id);
    assert Fresh(code, g.blocks[id]) && Clocked(isa, g.blocks[id]) && Chained(isa, g.blocks[id]);
    FreshInPlace(isa, code, g.blocks[id], k);
    assert CheckedRight(isa, code, g, g', id, k, pc, r, coherent);
  }

  /** A fetch of entry k of a block that has to be checked before. */
  method ReadChecked(isa: Isa, ghost starts: seq<Addr>, code: Code, g: Graph, id: BlockId, k: nat, ghost memWord: Word, pc: Addr)
    returns (g': Graph, r: Fetched, coherent: bool)
    requires GraphOk(isa, starts, g) && 0 < id < |g.blocks| && k < g.blocks[id].len
    requires g.blocks[id].coherence != g.coherence
    requires Chained(isa, g.blocks[id]) ==> pc == g.blocks[id].entries[k].pc
    ensures GraphOk(isa, starts, g') && CheckStep(isa, code, g, g', id, k, pc, r, coherent)
    ensures coherent ==> !r.Trap?
    ensures if r.Trap? then g'.blocks[0].entries[0].pc == pc else EntryRuns(isa, g'.blocks, id, k, memWord, r, pc)
  {
    assert BlockIn(isa, starts, g.blocks, g.coherence, id);
    if Fresh(code, g.blocks[id]) && Chained(isa, g.blocks[id]) {
      NextFresh(isa, code, g.blocks, id, k);
    }
    var ok;
    g', ok, coherent := FetchChecked(isa, starts, code, g, id, k, pc);
    if ok {
      r := ReadEntry(isa, starts, g', id, k, memWord, pc);
    } else {
      r := Trap;
    }
  }

  /** Links do not matter for either. */
  lemma RelinkedView(isa: Isa, g: Graph, g': Graph, id: BlockId, pos: int, stage: Stage, memWord: Word)
    requires Located(isa, g.blocks, id, pos, stage, memWord) && Relinked(g, g') && |g.blocks[0].entries| > 0
    ensures Located(isa, g'.blocks, id, pos, stage, memWord)
    ensures ViewAt(isa, g'.blocks, id, pos, stage, memWord) == ViewAt(isa, g.blocks, id, pos, stage, memWord)
    ensures ClockAt(g'.blocks, id, pos) == ClockAt(g.blocks, id, pos)
    ensures |g'.blocks[0].entries| > 0 && g'.blocks[0].entries[0].pc == g.blocks[0].entries[0].pc
  {
    assert SameButLinks(g.blocks[0], g'.blocks[0]);
    assert SameButLinks(g.blocks[id], g'.blocks[id]);
  }

  /**
    When a change of blocks leads to the fast path: into another block if that has entries and is marked coherent,
    but back into the block already running without looking at that mark.
   */
  ghost predicate EntersFast(was: Cursor, slow: bool, at: Cursor, g: Graph)
    requires 0 <= at.block < |g.blocks|
  {
    at.fast.At? <==>
      && at.block != 0
      && if at.block == was.block then was.fast.At? || !slow
         else !slow && g.blocks[at.block].len > 0 && g.blocks[at.block].coherence == g.coherence
  }

  /** A forced slow path lasts until another real block is entered. */
  predicate KeepsSlow(was: Cursor, at: Cursor) { at.block == was.block || at.block == 0 }

  class DBBCache {
    const isa: Isa

    var code: Code
    var enabled: bool
    var g: Graph
    ghost var starts: seq<Addr>
    var at: Cursor
    var slowPath: bool
    var exception: bool
    var cycles: int
    var memWord: Word
    ghost var stage: Stage

    // -------------------------------------------------------------- invariants

    ghost predicate Valid()
      reads this
    {
      && GraphOk(isa, starts, g)
      && Located(isa, g.blocks, at.block, at.Pos(), stage, memWord) && CursorOk(at)
      && (stage.FetchFailed? ==> exception && at.fast.Disabled?)
    }

    /** The state of the reference fetch unit; the pc of a failed fetch is saved in the dummy block. */
    ghost function Abs(): View
      reads this
      requires Valid()
    {
      if stage.FetchFailed? then View(g.blocks[0].entries[0].pc, Faulted)
      else ViewAt(isa, g.blocks, at.block, at.Pos(), stage, memWord)
    }

    ghost function Cycles(): int
      reads this
      requires Valid()
    {
      cycles + ClockAt(g.blocks, at.block, at.Pos())
    }

    /** Where the pc of a failed fetch is kept. */
    ghost function SavedPc(): Addr
      reads this
      requires Valid()
    {
      g.blocks[0].entries[0].pc
    }

    /** In every block the entries lie back to back: no recorded pc is wrong. */
    ghost predicate Aligned()
      reads this
      requires Valid()
    {
      AllChained(isa, g.blocks)
    }

    /** All blocks agree with memory, and all cycle offsets add up: the code has not changed so far. */
    ghost predicate Exact()
      reads this
      requires Valid()
    {
      AllFresh(code, g.blocks) && AllClocked(isa, g.blocks) && Aligned()
    }

    /** Blocks taken for coherent, and a block running fast, agree with memory. */
    ghost predicate Safe()
      reads this
      requires Valid()
    {
      && Aligned() && CoherentFresh(code, g.coherence, g.blocks)
      && (at.fast.At? ==> Fresh(code, g.blocks[at.block]))
    }

    /** The next instruction is served from the current block without a look at memory. */
    predicate FromCache()
      reads this
      requires Valid()
    {
      && at.block != 0 && at.Pos() + 1 < g.blocks[at.block].len
      && (at.fast.At? || g.blocks[at.block].coherence == g.coherence)
    }

    /** The next fetch will check and repair the current block. */
    predicate Unchecked()
      reads this
      requires Valid()
    {
      && at.block != 0 && at.fast.Disabled? && at.idx + 1 < g.blocks[at.block].len
      && g.blocks[at.block].coherence != g.coherence
    }

    /** If it does, no recorded pc becomes wrong. */
    predicate RepairsInPlace()
      reads this
      requires Valid()
    {
      Unchecked() ==> InPlace(isa, code, g.blocks[at.block], at.idx + 1)
    }

    /** init: execution starts at `entry`. */
    constructor (ena: bool, isa: Isa, code: Code, entry: Addr)
      ensures this.isa == isa && this.code == code && enabled == ena
      ensures Valid() && Abs() == View(entry, AtStart) && Cycles() == 0 && Exact() && Safe()
      ensures !slowPath && !exception && g.coherence == 0
      ensures forall i | 0 < i < |g.blocks| :: g.blocks[i].len == 0 && g.blocks[i].coherence == 0
      ensures if ena then LinkOk(starts, at.block, entry) else at.block == 0
    {
      this.isa, this.code, this.enabled := isa, code, ena;
      this.g := Graph([NewBlock(0, 0)], map[], EmptyLinks(TRAP_LINK_CACHE_SIZE), 0);
      this.starts := [0];
      this.at := Cursor(0, -1, Disabled(0));
      this.slowPath, this.exception, this.cycles, this.memWord, this.stage := false, false, 0, 0, BeforeFetch;
      new;
      ghost var initial := g.blocks;
      if ena {
        FindCreateSwitchBlock(entry);
      } else {
        SwitchBlockDummy(entry);
      }
      ExtendsKeeps(isa, code, g.coherence, initial, g.blocks);
    }

    // -------------------------------------------------------------- switching blocks

    method SwitchBlockDummy(pc: Addr)
      requires Valid()
      modifies `cycles, `g, `at, `stage
      ensures Valid() && Abs() == View(pc, AtStart)
      ensures Cycles() == old(Cycles())
      ensures Extends(old(g.blocks), g.blocks) && g == old(g).(blocks := g.blocks)
      ensures at.block == 0 && at.fast.Disabled?
    {
      cycles := cycles + g.blocks[at.block].entries[at.Pos() + 1].cycles;
      var d := g.blocks[0];
      d := d.(entries := [d.entries[0].(pc := pc), d.entries[1].(cycles := 0)]);
      GraphScratch(isa, starts, g, d);
      g := g.With(0, d);
      at := Cursor(0, -1, Disabled(0));
      stage := BeforeFetch;
    }

    method SwitchBlock(id: BlockId)
      requires Valid() && 0 < id < |g.blocks|
      modifies `cycles, `stage, `at, `slowPath
      ensures Valid() && Abs() == View(starts[id], AtStart)
      ensures Cycles() == old(Cycles())
      ensures at.block == id && EntersFast(old(at), old(slowPath), at, g)
      ensures slowPath == (old(slowPath) && KeepsSlow(old(at), at))
    {
      assert BlockIn(isa, starts, g.blocks, g.coherence, id);
      var spent := g.blocks[at.block].entries[at.Pos() + 1].cycles;
      var next := at;
      if at.block == id {
        next := if at.fast.At? || !slowPath then at.(fast := At(-1)) else at.(idx := -1);
      } else if !slowPath && g.blocks[id].len > 0 && g.coherence == g.blocks[id].coherence {
        next := Cursor(id, at.idx, At(-1));
      } else {
        next := Cursor(id, -1, Disabled(0));
        slowPath := false;
      }
      cycles, at, stage := cycles + spent, next, BeforeFetch;
    }

    method FindCreateSwitchBlock(pc: Addr)
      requires Valid()
      modifies `cycles, `stage, `at, `slowPath, `g, `starts
      ensures Valid() && Abs() == View(pc, AtStart)
      ensures Cycles() == old(Cycles())
      ensures Extends(old(g.blocks), g.blocks) && g.coherence == old(g.coherence)
      ensures forall i | 0 <= i < |old(g.blocks)| :: g.blocks[i] == old(g.blocks)[i]
      ensures forall i | |old(g.blocks)| <= i < |g.blocks| :: g.blocks[i].coherence == g.coherence
      ensures LinkOk(starts, at.block, pc) && EntersFast(old(at), old(slowPath), at, g)
      ensures slowPath == (old(slowPath) && KeepsSlow(old(at), at))
    {
      var g', starts', id := FindCreate(isa, starts, g, pc);
      g, starts := g', starts';
      SwitchBlock(id);
    }

    // -------------------------------------------------------------- control flow

    /** Commits a change of links. */
    method Relink(g': Graph)
      requires Valid() && GraphOk(isa, starts, g') && Relinked(g, g')
      modifies `g
      ensures g == g' && Valid() && Abs() == old(Abs()) && Cycles() == old(Cycles())
      ensures Extends(old(g.blocks), g.blocks) && SavedPc() == old(SavedPc())
    {
      RelinkedExtends(isa, starts, g, g');
      RelinkedView(isa, g, g', at.block, at.Pos(), stage, memWord);
      g := g';
    }

    /** Enters the block at the target of entry k of the current block and links that entry to it. */
    method BranchLink(k: nat, pc: Addr)
      requires Valid() && stage.Executing? && at.block != 0 && k == at.Pos() && pc == Abs().Branch(isa).pc
      modifies `cycles, `stage, `at, `slowPath, `g, `starts
      ensures Valid() && Abs() == View(pc, AtStart)
      ensures Cycles() == old(Cycles())
      ensures Extends(old(g.blocks), g.blocks) && g.coherence == old(g.coherence)
      ensures EntersFast(old(at), old(slowPath), at, g) && at.block != 0 && SavedPc() == old(SavedPc())
      ensures slowPath == (old(slowPath) && KeepsSlow(old(at), at))
    {
      assert BlockIn(isa, starts, g.blocks, g.coherence, at.block);
      var last := at.block;
      FindCreateSwitchBlock(pc);
      ghost var mid := g.blocks;
      var g' := LinkStatic(isa, starts, g, last, k, at.block);
      Relink(g');
      ExtendsTransitive(old(g.blocks), mid, g.blocks);
    }

    /** The target is not linked yet. */
    method BranchMiss(pc: Addr)
      requires Valid() && stage.Executing? && pc == Abs().Branch(isa).pc
      modifies `cycles, `stage, `at, `slowPath, `g, `starts
      ensures Valid() && Abs() == View(pc, AtStart)
      ensures Cycles() == old(Cycles())
      ensures Extends(old(g.blocks), g.blocks) && g.coherence == old(g.coherence)
      ensures EntersFast(old(at), old(slowPath), at, g)
      ensures slowPath == (old(slowPath) && KeepsSlow(old(at), at))
      ensures (at.block != 0 <==> enabled) && (at.block != 0 ==> SavedPc() == old(SavedPc()))
    {
      assert at.block != 0 ==> BlockIn(isa, starts, g.blocks, g.coherence, at.block);
      if !enabled {
        SwitchBlockDummy(pc);
      } else if at.block == 0 {
        FindCreateSwitchBlock(pc);
      } else {
        BranchLink(g.blocks[at.block].entries[at.Pos()].idx, pc);
      }
    }

    /** branch_taken, jump: the target comes from the entry's link, or is computed once and then linked. */
    method BranchTaken(pcOffset: int)
      requires Valid() && stage.Executing?
      requires pcOffset == 2 * isa.Decode(Abs().phase.word).halfOffset
      modifies `cycles, `stage, `at, `slowPath, `g, `starts
      ensures Valid() && Abs() == old(Abs().Branch(isa))
      ensures Cycles() == old(Cycles())
      ensures Extends(old(g.blocks), g.blocks) && g.coherence == old(g.coherence)
      ensures EntersFast(old(at), old(slowPath), at, g)
      ensures slowPath == (old(slowPath) && KeepsSlow(old(at), at))
      ensures at.block != 0 <==> enabled || old(at.block != 0 && g.blocks[at.block].entries[at.Pos()].link.Some?)
      ensures at.block != 0 ==> SavedPc() == old(SavedPc())
      ensures OffsetBy(isa, old(Abs().phase.lastPc), pcOffset, Abs().pc)
    {
      AddWraps(isa, Abs().phase.lastPc, pcOffset);
      assert at.block != 0 ==> BlockIn(isa, starts, g.blocks, g.coherence, at.block);
      var e := g.blocks[at.block].entries[at.Pos()];
      if at.block != 0 && e.link.Some? {
        SwitchBlock(e.link.value);
      } else {
        BranchMiss(isa.Add(e.pc, pcOffset));
      }
    }

    /** Enters the block at `pc` and remembers it in the block that is left. */
    method JumpDynMiss(pc: Addr)
      requires Valid()
      modifies `cycles, `stage, `at, `slowPath, `g, `starts
      ensures Valid() && Abs() == View(pc, AtStart)
      ensures Cycles() == old(Cycles())
      ensures Extends(old(g.blocks), g.blocks) && g.coherence == old(g.coherence)
      ensures EntersFast(old(at), old(slowPath), at, g)
      ensures slowPath == (old(slowPath) && KeepsSlow(old(at), at))
      ensures at.block != 0 && SavedPc() == old(SavedPc())
    {
      var last := at.block;
      FindCreateSwitchBlock(pc);
      ghost var mid := g.blocks;
      var g' := LinkDyn(isa, starts, g, last, pc, at.block);
      Relink(g');
      ExtendsTransitive(old(g.blocks), mid, g.blocks);
    }

    /** jump_dyn: register-indirect jumps, cached per block by target address. */
    method JumpDyn(pc: Addr)
      requires Valid() && pc != INVALID_PC
      modifies `cycles, `stage, `at, `slowPath, `g, `starts
      ensures Valid() && Abs() == View(pc, AtStart)
      ensures Cycles() == old(Cycles())
      ensures Extends(old(g.blocks), g.blocks) && g.coherence == old(g.coherence)
      ensures EntersFast(old(at), old(slowPath), at, g)
      ensures slowPath == (old(slowPath) && KeepsSlow(old(at), at))
      ensures at.block != 0 <==> enabled || pc in old(g.blocks[at.block].dynLinks.pcs)
      ensures at.block != 0 ==> SavedPc() == old(SavedPc())
    {
      assert at.block != 0 ==> BlockIn(isa, starts, g.blocks, g.coherence, at.block);
      var link := Find(g.blocks[at.block].dynLinks, pc);
      if link.Some? {
        assert LinkOk(starts, link.value, pc);
        SwitchBlock(link.value);
      } else if enabled {
        JumpDynMiss(pc);
      } else {
        SwitchBlockDummy(pc);
      }
    }

    /** Enters the block at `pc` and remembers it for the next trap. */
    method TrapMiss(pc: Addr)
      requires Valid()
      modifies `cycles, `stage, `at, `slowPath, `g, `starts
      ensures Valid() && Abs() == View(pc, AtStart)
      ensures Cycles() == old(Cycles())
      ensures Extends(old(g.blocks), g.blocks) && g.coherence == old(g.coherence)
      ensures EntersFast(old(at), old(slowPath), at, g)
      ensures slowPath == (old(slowPath) && KeepsSlow(old(at), at))
      ensures at.block != 0 && SavedPc() == old(SavedPc())
    {
      FindCreateSwitchBlock(pc);
      ghost var mid := g.blocks;
      Relink(g.(trapLinks := AddLink(g.trapLinks, pc, at.block)));
      ExtendsTransitive(old(g.blocks), mid, g.blocks);
    }

    method EnterTrap(pc: Addr)
      requires Valid() && pc != INVALID_PC
      modifies `cycles, `stage, `at, `slowPath, `g, `starts
      ensures Valid() && Abs() == View(pc, AtStart)
      ensures Cycles() == old(Cycles())
      ensures Extends(old(g.blocks), g.blocks) && g.coherence == old(g.coherence)
      ensures EntersFast(old(at), old(slowPath), at, g)
      ensures slowPath == (old(slowPath) && KeepsSlow(old(at), at))
      ensures at.block != 0 <==> enabled || pc in old(g.trapLinks.pcs)
      ensures at.block != 0 ==> SavedPc() == old(SavedPc())
    {
      var link := Find(g.trapLinks, pc);
      if link.Some? {
        assert LinkOk(starts, link.value, pc);
        SwitchBlock(link.value);
      } else if enabled {
        TrapMiss(pc);
      } else {
        SwitchBlockDummy(pc);
      }
    }

    method RetTrap(pc: Addr)
      requires Valid()
      modifies `cycles, `g, `at, `stage
      ensures Valid() && Abs() == View(pc, AtStart)
      ensures Cycles() == old(Cycles())
      ensures Extends(old(g.blocks), g.blocks) && g.coherence == old(g.coherence)
      ensures EntersFast(old(at), old(slowPath), at, g)
      ensures slowPath == (old(slowPath) && KeepsSlow(old(at), at))
      ensures at.block == 0
    {
      SwitchBlockDummy(pc);
    }

    /** jump_and_link and jump_dyn_and_link read the return address before they jump. */
    method LinkAddress() returns (link: Addr)
      requires Valid() && stage.Executing?
      ensures link == Abs().pc && NextIs(isa, Abs().phase.lastPc, Abs().phase.word, link)
    {
      NextWraps(isa, Abs().phase.lastPc, Abs().phase.word);
      assert at.block != 0 ==> BlockIn(isa, starts, g.blocks, g.coherence, at.block);
      var e := g.blocks[at.block].entries[at.Pos()];
      link := isa.Add(e.pc, e.size);
    }

    // -------------------------------------------------------------- fences, slow path, enabling

    /** fence_i, fence_vma: from here on no block counts as coherent, and the fast path is left. */
    method Fence()
      requires Valid() && stage.Executing?
      modifies `g, `at
      ensures Valid() && Abs() == old(Abs()) && Cycles() == old(Cycles())
      ensures g == old(g).(coherence := g.coherence) && at.fast.Disabled?
      ensures g.coherence == old(g.coherence) + 1 && at == Cursor(old(at).block, old(at.Pos()), Disabled(0))
      ensures old(Aligned()) ==> Safe()
    {
      assert at.block != 0 ==> BlockIn(isa, starts, g.blocks, g.coherence, at.block);
      GraphFence(isa, starts, code, g);
      g := g.(coherence := g.coherence + 1);
      if at.fast.At? {
        at := Cursor(at.block, g.blocks[at.block].entries[at.fast.idx].idx, Disabled(0));
      }
    }

    method ForceSlowPath()
      requires Valid()
      modifies `slowPath, `at
      ensures Valid() && Abs() == old(Abs()) && Cycles() == old(Cycles())
      ensures slowPath && at == Cursor(old(at).block, if old(at).fast.At? then old(at.Pos()) else old(at).idx, Disabled(0))
    {
      assert at.block != 0 ==> BlockIn(isa, starts, g.blocks, g.coherence, at.block);
      slowPath := true;
      if at.fast.At? {
        at := Cursor(at.block, if at.fast.idx == -1 then -1 else g.blocks[at.block].entries[at.fast.idx].idx, Disabled(0));
      }
    }

    /** Disabling drops the links by which the next control flow change could enter a cached block. */
    method Enable(ena: bool)
      requires Valid()
      modifies `enabled, `g
      ensures Valid() && Abs() == old(Abs()) && Cycles() == old(Cycles())
      ensures Extends(old(g.blocks), g.blocks) && Relinked(old(g), g)
      ensures enabled == ena && (old(enabled) && !ena ==> Unlinked(g, at.block))
    {
      var g' := g;
      if enabled && !ena {
        g' := UnlinkAll(isa, starts, g, at.block);
      }
      enabled := ena;
      Relink(g');
    }

    /** Memory changes under the cache. */
    method ChangeCode(newCode: Code)
      requires Valid()
      modifies `code
      ensures Valid() && Abs() == old(Abs()) && Cycles() == old(Cycles())
      ensures code == newCode
    {
      code := newCode;
    }

    // -------------------------------------------------------------- fetching

    /** `r` is the decoding of the word that is now in execution, fetched as the instruction at `pc`. */
    ghost predicate Delivered(r: Fetched, pc: Addr)
      reads this
      requires Valid()
    {
      stage.Executing? && r == Delivery(isa, Abs().phase.word, pc)
    }

    /** Uncached execution in the dummy block. */
    method FetchUncached(pc: Addr) returns (r: Fetched)
      requires Valid() && at.block == 0 && !stage.FetchFailed? && pc == Abs().pc
      modifies `g, `at, `memWord, `exception, `stage
      ensures Valid() && r == FetchResult(isa, code, pc) && Abs() == old(Abs().Fetch(isa, code))
      ensures Cycles() == old(Cycles()) + FetchTime(isa, code, pc)
      ensures Touched(old(g), g, 0) && Extends(old(g.blocks), g.blocks) && at == Cursor(0, 0, Disabled(0))
      ensures exception == r.Trap?
    {
      var d := g.blocks[0];
      var e0, e1 := d.entries[0].(pc := pc), d.entries[1];
      if pc in code {
        var w := code[pc];
        e0 := e0.(size := isa.Decode(w).Size());
        e1 := e1.(cycles := e1.cycles + isa.Decode(w).time);
        memWord, exception, stage := w, false, Executing;
      } else {
        exception, stage := true, FetchFailed;
      }
      d := d.(entries := [e0, e1]);
      GraphScratch(isa, starts, g, d);
      g, at := g.With(0, d), Cursor(0, 0, Disabled(0));
      r := FetchResult(isa, code, pc);
    }

    /** Miss: fetch the instruction behind the last entry and append it to the current block. */
    method FetchAppend(pc: Addr) returns (r: Fetched)
      requires Valid() && at.block != 0 && at.fast.Disabled? && !stage.FetchFailed?
      requires at.idx + 1 == g.blocks[at.block].len && pc == Abs().pc
      modifies `g, `at, `exception, `stage
      ensures Valid() && r == FetchResult(isa, code, pc) && Abs() == old(Abs().Fetch(isa, code))
      ensures Cycles() == old(Cycles()) + FetchTime(isa, code, pc)
      ensures Touched(old(g), g, at.block) && Renewed(code, old(g.blocks[at.block]), g.blocks[at.block])
      ensures (old(Aligned()) ==> Aligned()) && (old(Safe()) ==> Safe()) && (old(Exact()) ==> Exact())
      ensures exception == r.Trap?
      ensures at == if r.Trap? then old(at) else Cursor(old(at).block, old(at.idx) + 1, Disabled(0))
    {
      assert BlockIn(isa, starts, g.blocks, g.coherence, at.block);
      var g';
      g', r := ReadAppended(isa, starts, code, g, at.block, memWord, pc);
      if r.Trap? {
        g, exception, stage := g', true, FetchFailed;
      } else {
        g, at, exception, stage := g', Cursor(at.block, at.idx + 1, Disabled(0)), false, Executing;
      }
    }

    /** Moves on to entry k of the current block in `g'`. */
    method Enter(g': Graph, k: nat, coherent: bool, ghost r: Fetched, ghost pc: Addr)
      requires GraphOk(isa, starts, g') && EntryRuns(isa, g'.blocks, at.block, k, memWord, r, pc)
      modifies `g, `at, `exception, `stage
      ensures Valid() && g == g' && at == Cursor(old(at).block, k, if coherent then At(k) else Disabled(0))
      ensures stage.Executing? && !exception
    {
      g, exception, stage := g', false, Executing;
      at := Cursor(at.block, k, if coherent then At(k) else Disabled(0));
    }

    /** The fetch behind the current position traps. */
    method Fail(g': Graph, ghost pc: Addr)
      requires Valid() && at.block != 0 && at.fast.Disabled? && GraphOk(isa, starts, g') && at.block < |g'.blocks|
      requires at.idx < g'.blocks[at.block].len && g'.blocks[0].entries[0].pc == pc
      modifies `g, `exception, `stage
      ensures Valid() && g == g' && Abs() == View(pc, Faulted) && exception
    {
      g, exception, stage := g', true, FetchFailed;
    }

    /** Checks the current block and reads its next entry. */
    method CheckNext(pc: Addr) returns (g': Graph, r: Fetched, coherent: bool)
      requires Valid() && !stage.FetchFailed? && Unchecked() && pc == Abs().pc
      ensures GraphOk(isa, starts, g') && CheckStep(isa, code, g, g', at.block, at.idx + 1, pc, r, coherent)
      ensures coherent ==> !r.Trap?
      ensures if r.Trap? then g'.blocks[0].entries[0].pc == pc
              else EntryRuns(isa, g'.blocks, at.block, at.idx + 1, memWord, r, pc)
    {
      if Chained(isa, g.blocks[at.block]) {
        NextEntry(isa, starts, g, at.block, at.idx, stage, memWord);
      }
      g', r, coherent := ReadChecked(isa, starts, code, g, at.block, at.idx + 1, memWord, pc);
    }

    /** Hit in a block that is not known to be up to date: check and repair it before its next entry is used. */
    method FetchRevalidate(pc: Addr) returns (r: Fetched)
      requires Valid() && !stage.FetchFailed? && Unchecked() && pc == Abs().pc
      modifies `g, `at, `exception, `stage
      ensures Valid() && at.block == old(at.block) && exception == r.Trap?
      ensures CheckStep(isa, code, old(g), g, at.block, old(at.idx) + 1, pc, r, at.fast.At?)
      ensures r.Trap? ==> Abs() == View(pc, Faulted)
      ensures !r.Trap? ==>
                at.Pos() == old(at.idx) + 1 && EntryRuns(isa, g.blocks, at.block, at.Pos(), memWord, r, pc) && stage.Executing?
    {
      var g', coherent;
      g', r, coherent := CheckNext(pc);
      if r.Trap? {
        Fail(g', pc);
      } else {
        Enter(g', at.idx + 1, coherent, r, pc);
      }
    }

    /** The same, seen by the ISS. */
    method FetchRepair(pc: Addr) returns (r: Fetched)
      requires Valid() && !stage.FetchFailed? && Unchecked() && pc == Abs().pc
      modifies `g, `at, `exception, `stage
      ensures Valid() && at.block == old(at.block) && exception == r.Trap?
      ensures Touched(old(g), g, at.block) && Renewed(code, old(g.blocks[at.block]), g.blocks[at.block])
      ensures old(Reaches(isa, code, g.blocks[at.block].start, at.idx + 2)) ==>
                && !r.Trap?
                && BroughtUpToDate(isa, code, old(g.blocks[at.block]), g.blocks[at.block], old(at.idx) + 1, at.fast.At?)
      ensures r.Trap? ==> stage.FetchFailed?
      ensures !r.Trap? ==> Delivered(r, pc) && at.Pos() == old(at.idx) + 1
      ensures old(Aligned() && InPlace(isa, code, g.blocks[at.block], at.idx + 1)) ==> Aligned()
      ensures old(Safe() && InPlace(isa, code, g.blocks[at.block], at.idx + 1)) ==>
                Safe() && r == FetchResult(isa, code, pc) && Abs() == old(Abs().Fetch(isa, code))
      ensures old(Exact()) ==> Exact() && Cycles() == old(Cycles()) + FetchTime(isa, code, pc)
    {
      ghost var was, k, exact, right := g, at.idx + 1, Exact(), Aligned() && InPlace(isa, code, g.blocks[at.block], at.idx + 1);
      r := FetchRevalidate(pc);
      if exact {
        CheckedExact(isa, starts, code, was, g, at.block, k, pc, r, at.fast.At?);
      }
      if right {
        assert CheckedRight(isa, code, was, g, at.block, k, pc, r, at.fast.At?);
      }
    }

    /** Hit in a block that counts as coherent: deliver its next entry and go on fast from there. */
    method FetchHit(pc: Addr) returns (r: Fetched)
      requires Valid() && at.block != 0 && at.fast.Disabled? && !stage.FetchFailed?
      requires at.idx + 1 < g.blocks[at.block].len && pc == Abs().pc && g.blocks[at.block].coherence == g.coherence
      modifies `at, `stage
      ensures Valid() && at == Cursor(old(at).block, old(at.idx) + 1, At(old(at.idx) + 1)) && Delivered(r, pc)
      ensures old(Safe()) ==> Safe() && r == FetchResult(isa, code, pc) && Abs() == old(Abs().Fetch(isa, code))
      ensures old(Exact()) ==> Cycles() == old(Cycles()) + FetchTime(isa, code, pc)
    {
      UseNext(isa, starts, code, g, at.block, at.idx, stage, memWord);
      assert Aligned() ==> Chained(isa, g.blocks[at.block]);
      assert Safe() ==> Fresh(code, g.blocks[at.block]);
      assert Exact() ==> Fresh(code, g.blocks[at.block]) && Clocked(isa, g.blocks[at.block]);
      var k := at.idx + 1;
      var e := g.blocks[at.block].entries[k];
      at, stage := Cursor(at.block, k, At(k)), Executing;
      r := Fetched(e.opLabel, e.instr, isa.Add(pc, e.size));
    }

    /** fetch_decode without the fast path, in a real block. */
    method FetchBlock(pc: Addr) returns (r: Fetched)
      requires Valid() && at.block != 0 && at.fast.Disabled? && !stage.FetchFailed? && pc == Abs().pc
      modifies `g, `at, `exception, `stage
      ensures Valid() && at.block == old(at.block)
      ensures Touched(old(g), g, at.block) && Renewed(code, old(g.blocks[at.block]), g.blocks[at.block])
      ensures old(Unchecked() && Reaches(isa, code, g.blocks[at.block].start, at.idx + 2)) ==>
                && !r.Trap?
                && BroughtUpToDate(isa, code, old(g.blocks[at.block]), g.blocks[at.block], old(at.idx) + 1, at.fast.At?)
      ensures old(Aligned() && RepairsInPlace()) ==> Aligned()
      ensures old(Safe() && RepairsInPlace()) ==>
                Safe() && r == FetchResult(isa, code, pc) && Abs() == old(Abs().Fetch(isa, code))
      ensures old(Exact()) ==> Exact() && Cycles() == old(Cycles()) + FetchTime(isa, code, pc)
      ensures if old(FromCache()) then g == old(g) && at.fast.At? && !r.Trap? && exception == old(exception) else exception == r.Trap?
      ensures r.Trap? ==> stage.FetchFailed?
      ensures !r.Trap? ==> Delivered(r, pc) && at.Pos() == old(at.Pos()) + 1
    {
      if g.blocks[at.block].len <= at.idx + 1 {
        r := FetchAppend(pc);
      } else if g.blocks[at.block].coherence != g.coherence {
        r := FetchRepair(pc);
      } else {
        r := FetchHit(pc);
      }
    }

    /** fetch_decode without the fast path. */
    method FetchSlow(pc: Addr) returns (r: Fetched)
      requires Valid() && at.fast.Disabled? && !stage.FetchFailed? && pc == Abs().pc
      modifies `g, `at, `memWord, `exception, `stage
      ensures Valid() && at.block == old(at.block)
      ensures Touched(old(g), g, at.block) && (at.block != 0 ==> Renewed(code, old(g.blocks[at.block]), g.blocks[at.block]))
      ensures old(Unchecked() && Reaches(isa, code, g.blocks[at.block].start, at.idx + 2)) ==>
                && !r.Trap?
                && BroughtUpToDate(isa, code, old(g.blocks[at.block]), g.blocks[at.block], old(at.idx) + 1, at.fast.At?)
      ensures old(Aligned() && RepairsInPlace()) ==> Aligned()
      ensures old(Safe() && RepairsInPlace()) ==>
                Safe() && r == FetchResult(isa, code, pc) && Abs() == old(Abs().Fetch(isa, code))
      ensures old(Exact()) ==> Exact() && Cycles() == old(Cycles()) + FetchTime(isa, code, pc)
      ensures if old(FromCache()) then g == old(g) && at.fast.At? && !r.Trap? && exception == old(exception) else exception == r.Trap?
      ensures r.Trap? ==> stage.FetchFailed?
      ensures !r.Trap? ==> Delivered(r, pc) && (at.block != 0 ==> at.Pos() == old(at.Pos()) + 1)
      ensures at.block == 0 ==> r == FetchResult(isa, code, pc) && Abs() == old(Abs().Fetch(isa, code))
    {
      if at.block == 0 {
        r := FetchUncached(pc);
        ExtendsKeeps(isa, code, g.coherence, old(g.blocks), g.blocks);
      } else {
        r := FetchBlock(pc);
      }
    }

    /** fetch_decode on the fast path, where the current block has another entry. */
    method FetchMedium(pc: Addr) returns (r: Fetched)
      requires Valid() && at.fast.At? && !stage.FetchFailed? && pc == Abs().pc
      requires at.fast.idx + 1 < g.blocks[at.block].len
      modifies `at, `stage
      ensures Valid() && at == old(at).Step(1) && Delivered(r, pc)
      ensures old(Safe()) ==> Safe() && r == FetchResult(isa, code, pc) && Abs() == old(Abs().Fetch(isa, code))
      ensures old(Exact()) ==> Cycles() == old(Cycles()) + FetchTime(isa, code, pc)
    {
      assert BlockIn(isa, starts, g.blocks, g.coherence, at.block);
      var e := g.blocks[at.block].entries[at.fast.idx + 1];
      assert EntryOk(isa, starts, e);
      var opLabel, instr := FetchDecodeFast();
      r := Fetched(opLabel, instr, isa.Add(pc, e.size));
    }

    /** The fast path has run off the block. */
    method LeaveFast()
      requires Valid() && at.fast.At? && !stage.FetchFailed? && at.fast.idx + 1 == g.blocks[at.block].len
      modifies `at
      ensures Valid() && at == Cursor(old(at).block, old(at.Pos()), Disabled(0))
      ensures Abs() == old(Abs()) && Cycles() == old(Cycles())
    {
      assert BlockIn(isa, starts, g.blocks, g.coherence, at.block);
      at := Cursor(at.block, g.blocks[at.block].entries[at.fast.idx + 1].idx - 1, Disabled(0));
    }

    /** fetch_decode: the medium path, then the slow path. */
    method FetchDecode(pc: Addr) returns (r: Fetched)
      requires Valid() && !stage.FetchFailed? && pc == Abs().pc
      modifies `g, `at, `memWord, `exception, `stage
      ensures Valid() && at.block == old(at.block)
      ensures Touched(old(g), g, at.block) && (at.block != 0 ==> Renewed(code, old(g.blocks[at.block]), g.blocks[at.block]))
      ensures old(Unchecked() && Reaches(isa, code, g.blocks[at.block].start, at.idx + 2)) ==>
                && !r.Trap?
                && BroughtUpToDate(isa, code, old(g.blocks[at.block]), g.blocks[at.block], old(at.idx) + 1, at.fast.At?)
      ensures old(Aligned() && RepairsInPlace()) ==> Aligned()
      ensures old(Safe() && RepairsInPlace()) ==>
                Safe() && r == FetchResult(isa, code, pc) && Abs() == old(Abs().Fetch(isa, code))
      ensures old(Exact()) ==> Exact() && Cycles() == old(Cycles()) + FetchTime(isa, code, pc)
      ensures if old(FromCache()) then g == old(g) && at.fast.At? && !r.Trap? && exception == old(exception) else exception == r.Trap?
      ensures r.Trap? ==> stage.FetchFailed?
      ensures !r.Trap? ==> Delivered(r, pc) && (at.block != 0 ==> at.Pos() == old(at.Pos()) + 1)
      ensures at.block == 0 ==> r == FetchResult(isa, code, pc) && Abs() == old(Abs().Fetch(isa, code))
      ensures !r.Trap? ==> NextIs(isa, pc, Abs().phase.word, r.pc)
    {
      assert at.block != 0 ==> BlockIn(isa, starts, g.blocks, g.coherence, at.block);
      if at.fast.At? {
        if g.blocks[at.block].entries[at.fast.idx + 1].opLabel != Abort {
          r := FetchMedium(pc);
          NextWraps(isa, pc, Abs().phase.word);
          return;
        }
        LeaveFast();
      }
      r := FetchSlow(pc);
      if !r.Trap? {
        NextWraps(isa, pc, Abs().phase.word);
      }
    }

    /** State between a fetch_decode_fast that returned the abort label and its abort_fetch_decode_fast. */
    ghost predicate Aborting()
      reads this
    {
      && GraphOk(isa, starts, g) && !stage.FetchFailed?
      && var was := at.Step(-1);
         Located(isa, g.blocks, was.block, was.Pos(), stage, memWord) && CursorOk(was)
    }

    /** The fast path moves on to the next entry of the current block. */
    method Advance()
      requires Valid() && at.fast.At? && !stage.FetchFailed? && at.fast.idx + 1 < g.blocks[at.block].len
      modifies `at, `stage
      ensures Valid() && at == old(at).Step(1) && stage.Executing?
      ensures var e := g.blocks[at.block].entries[at.fast.idx];
              EntryDecoded(isa, e) && Abs().phase.word == e.memWord && Abs().pc == isa.Next(e.pc, e.memWord)
      ensures Aligned() ==> Abs().phase.lastPc == old(Abs()).pc
      ensures old(Safe()) ==> Safe() && Abs() == old(Abs().Fetch(isa, code)) && old(Abs()).pc in code
      ensures old(Exact()) ==> Cycles() == old(Cycles()) + FetchTime(isa, code, old(Abs()).pc)
    {
      UseNext(isa, starts, code, g, at.block, at.fast.idx, stage, memWord);
      assert Aligned() ==> Chained(isa, g.blocks[at.block]);
      assert Exact() ==> Fresh(code, g.blocks[at.block]) && Clocked(isa, g.blocks[at.block]);
      at, stage := at.Step(1), Executing;
    }

    /** fetch_decode_fast: no checks at all; running off the block or a disabled fast path yields the abort label. */
    method FetchDecodeFast() returns (opLabel: Label, instr: Word)
      requires Valid() && !stage.FetchFailed?
      modifies `at, `stage
      ensures at == old(at).Step(1)
      ensures opLabel != Abort <==> at.fast.At? && at.fast.idx < g.blocks[at.block].len
      ensures opLabel == Abort ==> Aborting() && stage == old(stage)
      ensures opLabel != Abort ==>
                && Valid() && stage.Executing?
                && var w := g.blocks[at.block].entries[at.fast.idx].memWord;
                   Abs().phase.word == w && opLabel == Op(isa.Decode(w).op) && instr == isa.Decode(w).instr
      ensures opLabel != Abort && Aligned() ==> Abs().phase.lastPc == old(Abs()).pc
      ensures opLabel != Abort && old(Safe()) ==>
                && Safe() && Abs() == old(Abs().Fetch(isa, code))
                && FetchResult(isa, code, old(Abs()).pc) == Fetched(opLabel, instr, Abs().pc)
      ensures opLabel != Abort && old(Exact()) ==> Cycles() == old(Cycles()) + FetchTime(isa, code, old(Abs()).pc)
    {
      assert at.block != 0 ==> BlockIn(isa, starts, g.blocks, g.coherence, at.block);
      if at.fast.Disabled? {
        at := at.Step(1);
        return Abort, 0;
      }
      var e := g.blocks[at.block].entries[at.fast.idx + 1];
      if e.opLabel == Abort {
        at := at.Step(1);
        return Abort, e.instr;
      }
      Advance();
      return e.opLabel, e.instr;
    }

    method AbortFetchDecodeFast()
      requires Aborting()
      modifies `at
      ensures Valid() && at == old(at).Step(-1)
    {
      at := at.Step(-1);
    }

    // -------------------------------------------------------------- what the ISS can ask

    method GetLastPcBeforeCallback() returns (pc: Addr)
      requires Valid() && stage.Executing?
      ensures pc == Abs().phase.lastPc
    {
      pc := g.blocks[at.block].entries[at.Pos()].pc;
    }

    method GetPcMaybeAfterCallback() returns (pc: Addr)
      requires Valid() && !stage.FetchFailed?
      ensures pc == Abs().pc
      ensures stage.Executing? ==> NextIs(isa, Abs().phase.lastPc, Abs().phase.word, pc)
    {
      if stage.Executing? {
        NextWraps(isa, Abs().phase.lastPc, Abs().phase.word);
      }
      assert at.block != 0 ==> BlockIn(isa, starts, g.blocks, g.coherence, at.block);
      if at.Pos() == -1 {
        pc := g.blocks[at.block].entries[0].pc;
      } else {
        var e := g.blocks[at.block].entries[at.Pos()];
        pc := isa.Add(e.pc, e.size);
      }
    }

    /** The clock: as long as code does not change, the times of the instructions that the current block has run. */
    method GetCycleCounterRaw() returns (n: int)
      requires Valid()
      ensures n == Cycles()
      ensures at.block != 0 && Exact() ==> n == cycles + TimeOf(isa, g.blocks[at.block], at.Pos() + 1)
    {
      assert at.block != 0 ==> BlockIn(isa, starts, g.blocks, g.coherence, at.block);
      n := cycles + g.blocks[at.block].entries[at.Pos() + 1].cycles;
      if at.block != 0 && Exact() {
        ClockedSum(isa, g.blocks[at.block], at.Pos() + 1);
      }
    }

    method GetMemWord() returns (w: Word)
      requires Valid() && stage.Executing?
      ensures w == Abs().phase.word
    {
      if at.fast.At? {
        w := g.blocks[at.block].entries[at.fast.idx].memWord;
      } else if at.idx < g.blocks[at.block].len {
        w := g.blocks[at.block].entries[at.idx].memWord;
      } else {
        w := memWord;
      }
    }

    /** The pc of the trapping instruction; the saved pc of a failed fetch takes precedence. */
    method GetLastPcExceptionSafe() returns (pc: Addr)
      requires Valid() && !stage.BeforeFetch?
      ensures stage.FetchFailed? ==> pc == Abs().pc
      ensures stage.Executing? ==> pc == if exception then g.blocks[0].entries[0].pc else Abs().phase.lastPc
    {
      if exception {
        pc := g.blocks[0].entries[0].pc;
      } else {
        pc := g.blocks[at.block].entries[at.Pos()].pc;
      }
    }
  }
}
