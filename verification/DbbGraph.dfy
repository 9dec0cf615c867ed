/**
  The graph of blocks: which blocks exist, where they start, and how the block map and the link caches name them.
  The predicates are over values, so that each cache operation has to argue only about the block it touched.
 */
module DbbGraph {
  import opened Wrappers
  import opened DbbSpec
  import opened DbbBlock

  datatype Graph = Graph(blocks: seq<Block>, blockmap: map<Addr, BlockId>, trapLinks: LinkCache, coherence: int) {
    function With(id: BlockId, b: Block): Graph
      requires 0 <= id < |blocks|
    {
      this.(blocks := blocks[id := b])
    }
  }

  /** The dummy block: one scratch entry for uncached execution, and a second slot for its cycle count. */
  ghost predicate DummyOk(starts: seq<Addr>, b: Block) {
    && |b.entries| == N_ENTRIES_START
    && b.len == 0
    && b.entries[0].cycles == 0
    && LinksOk(starts, b.dynLinks)
  }

  ghost predicate HaveLen(blocks: seq<Block>) {
    forall i | 0 < i < |blocks| :: 0 <= blocks[i].len < |blocks[i].entries|
  }

  /** Block `i` is well formed and starts where `starts` says. */
  ghost predicate BlockIn(isa: Isa, starts: seq<Addr>, blocks: seq<Block>, coherence: int, i: BlockId) {
    && 0 < i < |blocks| == |starts|
    && BlockOk(isa, starts, blocks[i])
    && blocks[i].start == starts[i]
    && blocks[i].coherence <= coherence
  }

  /**
    Every block is well formed, and the block map names each real block under its start address, and only so.
    The trigger makes what is known of a block available where that block is spoken of.
   */
  ghost predicate GraphOk(isa: Isa, starts: seq<Addr>, g: Graph) {
    && |starts| == |g.blocks| > 0
    && DummyOk(starts, g.blocks[0])
    && HaveLen(g.blocks)
    && (forall i {:trigger BlockIn(isa, starts, g.blocks, g.coherence, i)} | 0 < i < |g.blocks| ::
          BlockIn(isa, starts, g.blocks, g.coherence, i))
    && (forall pc | pc in g.blockmap :: LinkOk(starts, g.blockmap[pc], pc))
    && (forall i | 0 < i < |starts| :: starts[i] in g.blockmap && g.blockmap[starts[i]] == i)
    && LinksOk(starts, g.trapLinks)
  }

  /** `news` is `olds` up to links, the dummy block, and additional empty blocks. */
  ghost predicate Extends(olds: seq<Block>, news: seq<Block>) {
    && 0 < |olds| <= |news|
    && (forall i | 0 < i < |olds| :: SameButLinks(olds[i], news[i]))
    && (forall i | |olds| <= i < |news| :: news[i].len == 0 && 0 < |news[i].entries|)
  }

  /** Every entry of every block holds what memory has at its pc. */
  ghost predicate AllFresh(code: Code, blocks: seq<Block>)
    requires HaveLen(blocks)
  {
    forall i {:trigger Fresh(code, blocks[i])} | 0 < i < |blocks| :: Fresh(code, blocks[i])
  }

  /** Every block that counts as coherent holds what memory has. */
  ghost predicate CoherentFresh(code: Code, coherence: int, blocks: seq<Block>)
    requires HaveLen(blocks)
  {
    forall i {:trigger Fresh(code, blocks[i])} | 0 < i < |blocks| :: blocks[i].coherence == coherence ==> Fresh(code, blocks[i])
  }

  ghost predicate AllClocked(isa: Isa, blocks: seq<Block>)
    requires HaveLen(blocks)
  {
    forall i {:trigger Clocked(isa, blocks[i])} | 0 < i < |blocks| :: Clocked(isa, blocks[i])
  }

  /** In every block the entries lie back to back. */
  ghost predicate AllChained(isa: Isa, blocks: seq<Block>)
    requires HaveLen(blocks)
  {
    forall i {:trigger Chained(isa, blocks[i])} | 0 < i < |blocks| :: Chained(isa, blocks[i])
  }

  /** Every entry of every block has the length that `compressed` gives for its pc. */
  ghost predicate AllLaidOut(isa: Isa, compressed: iset<Addr>, blocks: seq<Block>)
    requires HaveLen(blocks)
  {
    forall i {:trigger LaidOut(isa, compressed, blocks[i])} | 0 < i < |blocks| :: LaidOut(isa, compressed, blocks[i])
  }

  /** The change from `olds` to `news` loses none of the cache-wide agreements with memory and clock. */
  ghost predicate Keeps(isa: Isa, code: Code, coherence: int, olds: seq<Block>, news: seq<Block>) {
    && HaveLen(olds) && HaveLen(news)
    && (AllFresh(code, olds) ==> AllFresh(code, news))
    && (AllFresh(code, olds) && AllClocked(isa, olds) ==> AllClocked(isa, news))
    && (CoherentFresh(code, coherence, olds) ==> CoherentFresh(code, coherence, news))
    && (AllChained(isa, olds) ==> AllChained(isa, news))
  }

  lemma ExtendsKeeps(isa: Isa, code: Code, coherence: int, olds: seq<Block>, news: seq<Block>)
    requires HaveLen(olds) && Extends(olds, news)
    ensures Keeps(isa, code, coherence, olds, news)
    ensures forall i | 0 < i < |olds| && Fresh(code, olds[i]) :: Fresh(code, news[i])
  {
    forall i | 0 < i < |news|
      ensures 0 <= news[i].len < |news[i].entries|
      ensures i < |olds| && Fresh(code, olds[i]) ==> Fresh(code, news[i])
      ensures i < |olds| && Clocked(isa, olds[i]) ==> Clocked(isa, news[i])
      ensures i < |olds| && Chained(isa, olds[i]) ==> Chained(isa, news[i])
      ensures i < |olds| ==> news[i].coherence == olds[i].coherence
    {
      if i < |olds| {
        SameButLinksKeeps(isa, code, olds[i], news[i]);
      }
    }
  }

  lemma ExtendsLaidOut(isa: Isa, compressed: iset<Addr>, olds: seq<Block>, news: seq<Block>)
    requires HaveLen(olds) && Extends(olds, news) && AllLaidOut(isa, compressed, olds)
    ensures HaveLen(news) && AllLaidOut(isa, compressed, news)
  {
    forall i | 0 < i < |news| ensures 0 <= news[i].len < |news[i].entries| && LaidOut(isa, compressed, news[i]) {
      if i < |olds| {
        assert SameButLinks(olds[i], news[i]) && LaidOut(isa, compressed, olds[i]);
      }
    }
  }

  lemma ExtendsTransitive(a: seq<Block>, b: seq<Block>, c: seq<Block>)
    requires HaveLen(a) && Extends(a, b) && Extends(b, c)
    ensures Extends(a, c)
  {
    forall i | |a| <= i < |c| ensures c[i].len == 0 && 0 < |c[i].entries| {
      if i < |b| {
        assert SameButLinks(b[i], c[i]);
      }
    }
  }

  lemma BlockOkGrow(isa: Isa, starts: seq<Addr>, b: Block, pc: Addr)
    requires BlockOk(isa, starts, b)
    ensures BlockOk(isa, starts + [pc], b)
  {
    forall i | 0 <= i < b.len ensures EntryOk(isa, starts + [pc], b.entries[i]) {
      assert EntryOk(isa, starts, b.entries[i]);
    }
  }

  function AppendBlock(g: Graph, pc: Addr): Graph {
    g.(blocks := g.blocks + [NewBlock(pc, g.coherence)], blockmap := g.blockmap[pc := |g.blocks|])
  }

  /** Creating an empty block at an address that has none keeps the graph well formed. */
  lemma GraphAppend(isa: Isa, starts: seq<Addr>, g: Graph, pc: Addr)
    requires GraphOk(isa, starts, g)
    requires pc !in g.blockmap
    ensures GraphOk(isa, starts + [pc], AppendBlock(g, pc))
    ensures Extends(g.blocks, AppendBlock(g, pc).blocks)
  {
    var g' := AppendBlock(g, pc);
    forall i | 0 < i < |g'.blocks| ensures BlockIn(isa, starts + [pc], g'.blocks, g'.coherence, i) {
      if i < |g.blocks| {
        assert BlockIn(isa, starts, g.blocks, g.coherence, i);
        BlockOkGrow(isa, starts, g.blocks[i], pc);
      }
    }
  }

  /** Replacing one real block by another that starts at the same address keeps the graph well formed. */
  lemma GraphReplace(isa: Isa, starts: seq<Addr>, g: Graph, id: BlockId, b: Block)
    requires GraphOk(isa, starts, g)
    requires 0 < id < |g.blocks|
    requires BlockOk(isa, starts, b) && b.start == g.blocks[id].start && b.coherence <= g.coherence
    ensures GraphOk(isa, starts, g.With(id, b))
    ensures SameButLinks(g.blocks[id], b) ==> Extends(g.blocks, g.With(id, b).blocks)
  {
    forall i | 0 < i < |g.blocks| ensures BlockIn(isa, starts, g.With(id, b).blocks, g.coherence, i) {
      assert BlockIn(isa, starts, g.blocks, g.coherence, i);
    }
  }

  /** The dummy block's scratch entries may be rewritten at will. */
  lemma GraphScratch(isa: Isa, starts: seq<Addr>, g: Graph, b: Block)
    requires GraphOk(isa, starts, g)
    requires DummyOk(starts, b)
    ensures GraphOk(isa, starts, g.With(0, b))
    ensures Extends(g.blocks, g.With(0, b).blocks)
  {
    forall i | 0 < i < |g.blocks| ensures BlockIn(isa, starts, g.With(0, b).blocks, g.coherence, i) {
      assert BlockIn(isa, starts, g.blocks, g.coherence, i);
    }
  }

  /** A fence: no block counts as coherent any more. */
  lemma GraphFence(isa: Isa, starts: seq<Addr>, code: Code, g: Graph)
    requires GraphOk(isa, starts, g)
    ensures GraphOk(isa, starts, g.(coherence := g.coherence + 1))
    ensures CoherentFresh(code, g.coherence + 1, g.blocks)
  {
    forall i | 0 < i < |g.blocks|
      ensures BlockIn(isa, starts, g.blocks, g.coherence + 1, i) && g.blocks[i].coherence <= g.coherence
    {
      assert BlockIn(isa, starts, g.blocks, g.coherence, i);
    }
  }

  function SetLink(b: Block, k: nat, id: BlockId): Block
    requires k < |b.entries|
  {
    b.(entries := b.entries[k := b.entries[k].(link := Some(id))])
  }

  /** A static link set to the block that starts at the entry's target keeps the block well formed. */
  lemma LinkKeeps(isa: Isa, starts: seq<Addr>, b: Block, k: nat, id: BlockId)
    requires BlockOk(isa, starts, b) && k < b.len
    requires LinkOk(starts, id, isa.Target(b.entries[k].pc, b.entries[k].memWord))
    ensures BlockOk(isa, starts, SetLink(b, k, id)) && SameButLinks(b, SetLink(b, k, id))
  {
    var b' := SetLink(b, k, id);
    forall i | 0 <= i < b.len ensures EntryOk(isa, starts, b'.entries[i]) {
      assert EntryOk(isa, starts, b.entries[i]);
    }
  }

  /** Dropping links keeps the block well formed. */
  lemma UnlinkKeeps(isa: Isa, starts: seq<Addr>, b: Block, b': Block)
    requires BlockOk(isa, starts, b)
    requires SameButLinks(b, b') && NoLinks(b') && b'.dynLinks.Ok()
    ensures BlockOk(isa, starts, b')
  {
    forall i | 0 <= i < b.len ensures EntryOk(isa, starts, b'.entries[i]) {
      assert EntryOk(isa, starts, b.entries[i]);
    }
  }

  /** What one replaced block has to satisfy for the cache-wide agreements to survive. */
  lemma ReplaceKeeps(isa: Isa, code: Code, coherence: int, blocks: seq<Block>, id: BlockId, b: Block)
    requires HaveLen(blocks) && 0 < id < |blocks| && 0 <= b.len < |b.entries|
    requires Fresh(code, blocks[id]) ==> Fresh(code, b)
    requires Fresh(code, blocks[id]) && Clocked(isa, blocks[id]) ==> Clocked(isa, b)
    requires b.coherence == coherence && blocks[id].coherence == coherence ==> Fresh(code, blocks[id]) ==> Fresh(code, b)
    requires b.coherence == coherence && blocks[id].coherence != coherence ==> Fresh(code, b)
    requires Chained(isa, blocks[id]) ==> Chained(isa, b)
    ensures Keeps(isa, code, coherence, blocks, blocks[id := b])
  {
    forall i | 0 < i < |blocks|
      ensures Fresh(code, blocks[i]) ==> Fresh(code, blocks[id := b][i])
      ensures Fresh(code, blocks[i]) && Clocked(isa, blocks[i]) ==> Clocked(isa, blocks[id := b][i])
      ensures Chained(isa, blocks[i]) ==> Chained(isa, blocks[id := b][i])
    {
    }
  }

  lemma KeepsTransitive(isa: Isa, code: Code, coherence: int, a: seq<Block>, b: seq<Block>, c: seq<Block>)
    requires Keeps(isa, code, coherence, a, b) && Keeps(isa, code, coherence, b, c)
    ensures Keeps(isa, code, coherence, a, c)
  {
  }

  /** At most block `id` and the dummy block differ. */
  ghost predicate Touched(g: Graph, g': Graph, id: BlockId) {
    && g' == g.(blocks := g'.blocks) && |g'.blocks| == |g.blocks|
    && forall i | 0 < i < |g.blocks| && i != id :: g'.blocks[i] == g.blocks[i]
  }

  /** A fetch trapped: its pc is saved in the dummy block for get_last_pc_exception_safe. */
  function SaveFaultPc(g: Graph, pc: Addr): Graph
    requires |g.blocks| > 0 && |g.blocks[0].entries| > 0
  {
    var d := g.blocks[0];
    g.With(0, d.(entries := d.entries[0 := d.entries[0].(pc := pc)]))
  }

  lemma SaveFaultPcKeeps(isa: Isa, starts: seq<Addr>, code: Code, g: Graph, pc: Addr)
    requires GraphOk(isa, starts, g)
    ensures var g' := SaveFaultPc(g, pc);
            && GraphOk(isa, starts, g') && Touched(g, g', 0) && g'.blocks[0].entries[0].pc == pc
            && Keeps(isa, code, g.coherence, g.blocks, g'.blocks)
  {
    var g' := SaveFaultPc(g, pc);
    GraphScratch(isa, starts, g, g'.blocks[0]);
    ExtendsKeeps(isa, code, g.coherence, g.blocks, g'.blocks);
  }

  /** fetch_decode_add_entry in block `id`: a fetch that traps leaves the entries as they were and saves its pc. */
  method FetchAddEntry(isa: Isa, ghost starts: seq<Addr>, code: Code, g: Graph, id: BlockId, pc: Addr)
    returns (g': Graph)
    requires GraphOk(isa, starts, g) && 0 < id < |g.blocks|
    requires pc == PcAfter(isa, g.blocks[id], g.blocks[id].len - 1)
    ensures GraphOk(isa, starts, g') && Touched(g, g', id) && Renewed(code, g.blocks[id], g'.blocks[id])
    ensures Keeps(isa, code, g.coherence, g.blocks, g'.blocks)
    ensures var b, b' := g.blocks[id], g'.blocks[id];
            if pc in code then
              && 0 <= b.len < |b'.entries| && Appended(isa, b, b', b'.entries[b.len])
              && b'.entries[b.len].pc == pc && b'.entries[b.len].memWord == code[pc]
            else
              SameEntries(b, b') && g'.blocks[0].entries[0].pc == pc
  {
    assert BlockIn(isa, starts, g.blocks, g.coherence, id);
    var b := AppendEntry(isa, starts, code, g.blocks[id], pc);
    AppendedRenews(isa, code, g.blocks[id], b);
    GraphReplace(isa, starts, g, id, b);
    ReplaceKeeps(isa, code, g.coherence, g.blocks, id, b);
    g' := g.With(id, b);
    if pc !in code {
      SaveFaultPcKeeps(isa, starts, code, g', pc);
      g' := SaveFaultPc(g', pc);
      KeepsTransitive(isa, code, g.coherence, g.blocks, g.With(id, b).blocks, g'.blocks);
    }
  }

  // ---------------------------------------------------------------- operations on the graph

  /** Only links differ. */
  ghost predicate Relinked(g: Graph, g': Graph) {
    && g'.coherence == g.coherence && g'.blockmap == g.blockmap && |g'.blocks| == |g.blocks|
    && forall i | 0 <= i < |g.blocks| :: SameButLinks(g.blocks[i], g'.blocks[i])
  }

  lemma RelinkedExtends(isa: Isa, starts: seq<Addr>, g: Graph, g': Graph)
    requires GraphOk(isa, starts, g) && Relinked(g, g')
    ensures Extends(g.blocks, g'.blocks)
  {
  }

  /** setLinkBlock on entry k of block `last`. */
  method LinkStatic(ghost isa: Isa, ghost starts: seq<Addr>, g: Graph,
                    last: BlockId, k: nat, id: BlockId)
    returns (g': Graph)
    requires GraphOk(isa, starts, g) && 0 < last < |g.blocks| && k < g.blocks[last].len
    requires LinkOk(starts, id, isa.Target(g.blocks[last].entries[k].pc, g.blocks[last].entries[k].memWord))
    ensures GraphOk(isa, starts, g') && Relinked(g, g')
  {
    assert BlockIn(isa, starts, g.blocks, g.coherence, last);
    LinkKeeps(isa, starts, g.blocks[last], k, id);
    var b := SetLink(g.blocks[last], k, id);
    GraphReplace(isa, starts, g, last, b);
    g' := g.With(last, b);
  }

  /** Remembers in block `last` that a dynamic jump to `pc` leads to block `id`. */
  method LinkDyn(ghost isa: Isa, ghost starts: seq<Addr>, g: Graph,
                 last: BlockId, pc: Addr, id: BlockId)
    returns (g': Graph)
    requires GraphOk(isa, starts, g) && 0 <= last < |g.blocks| && LinkOk(starts, id, pc)
    ensures GraphOk(isa, starts, g') && Relinked(g, g')
  {
    assert last > 0 ==> BlockIn(isa, starts, g.blocks, g.coherence, last);
    var b := g.blocks[last].(dynLinks := AddLink(g.blocks[last].dynLinks, pc, id));
    if last == 0 {
      GraphScratch(isa, starts, g, b);
    } else {
      assert BlockOk(isa, starts, b);
      GraphReplace(isa, starts, g, last, b);
    }
    g' := g.With(last, b);
  }

  /** invalidate_links on block `id`. */
  method Unlink(ghost isa: Isa, ghost starts: seq<Addr>, g: Graph, id: BlockId)
    returns (g': Graph)
    requires GraphOk(isa, starts, g) && 0 <= id < |g.blocks|
    ensures GraphOk(isa, starts, g') && Relinked(g, g')
    ensures NoLinks(g'.blocks[id]) && forall i | 0 <= i < |g.blocks| && i != id :: g'.blocks[i] == g.blocks[i]
  {
    assert id > 0 ==> BlockIn(isa, starts, g.blocks, g.coherence, id);
    var b := InvalidateLinks(g.blocks[id]);
    if id == 0 {
      GraphScratch(isa, starts, g, b);
    } else {
      UnlinkKeeps(isa, starts, g.blocks[id], b);
      GraphReplace(isa, starts, g, id, b);
    }
    g' := g.With(id, b);
  }

  /** No link leads from block `id`, from the dummy block or from a trap to a cached block. */
  ghost predicate Unlinked(g: Graph, id: BlockId)
    requires 0 <= id < |g.blocks| && 0 <= g.blocks[id].len < |g.blocks[id].entries|
    requires 0 <= g.blocks[0].len < |g.blocks[0].entries|
  {
    && NoLinks(g.blocks[id]) && NoLinks(g.blocks[0])
    && forall i | 0 <= i < |g.trapLinks.pcs| :: g.trapLinks.pcs[i] == INVALID_PC
  }

  /** Drops the links that could lead from block `id` or the dummy block, or from a trap, to a cached block. */
  method UnlinkAll(ghost isa: Isa, ghost starts: seq<Addr>, g: Graph, id: BlockId)
    returns (g': Graph)
    requires GraphOk(isa, starts, g) && 0 <= id < |g.blocks|
    ensures GraphOk(isa, starts, g') && Relinked(g, g')
    ensures Unlinked(g', id)
  {
    g' := Unlink(isa, starts, g, id);
    g' := Unlink(isa, starts, g', 0);
    g' := g'.(trapLinks := ResetLinks(g'.trapLinks));
  }

  /** The block that starts at `pc`; it is created empty if there is none yet. */
  method FindCreate(ghost isa: Isa, ghost starts: seq<Addr>, g: Graph, pc: Addr)
    returns (g': Graph, ghost starts': seq<Addr>, id: BlockId)
    requires GraphOk(isa, starts, g)
    ensures GraphOk(isa, starts', g') && g'.coherence == g.coherence && |g.blocks| <= |g'.blocks|
    ensures Extends(g.blocks, g'.blocks) && forall i | 0 <= i < |g.blocks| :: g'.blocks[i] == g.blocks[i]
    ensures forall i | |g.blocks| <= i < |g'.blocks| :: g'.blocks[i].coherence == g.coherence
    ensures LinkOk(starts', id, pc)
  {
    if pc in g.blockmap {
      g', starts', id := g, starts, g.blockmap[pc];
    } else {
      GraphAppend(isa, starts, g, pc);
      g', starts', id := AppendBlock(g, pc), starts + [pc], |g.blocks|;
    }
  }

  /** A block that is checked and repaired in place loses no agreement. */
  lemma RevalidatedKeeps(isa: Isa, code: Code, g: Graph, id: BlockId, b': Block, k: nat, pc: Addr, ok: bool, coherent: bool)
    requires HaveLen(g.blocks) && 0 < id < |g.blocks| && g.blocks[id].coherence != g.coherence
    requires Framed(g.blocks[id]) && Chained(isa, g.blocks[id]) && k < g.blocks[id].len
    requires Revalidated(isa, code, g.coherence, g.blocks[id], b', k, pc, ok, coherent) && Chained(isa, b')
    ensures Keeps(isa, code, g.coherence, g.blocks, g.With(id, b').blocks)
    ensures coherent ==> Fresh(code, b')
    ensures Fresh(code, g.blocks[id]) ==> coherent && b' == g.blocks[id].(coherence := g.coherence)
  {
    var b := g.blocks[id];
    SameStepsKeep(isa, b', b'.(coherence := b.coherence));
    if coherent {
      CoherentIsFresh(isa, code, b, b'.(coherence := b.coherence));
    }
    if Fresh(code, b) {
      FreshInPlace(isa, code, b, k);
      RepairOfFresh(isa, code, b, b'.(coherence := b.coherence), b.len);
      SameStepsKeep(isa, b, b');
    }
    ReplaceKeeps(isa, code, g.coherence, g.blocks, id, b');
  }

  lemma TouchedKeeps(isa: Isa, code: Code, g: Graph, g': Graph, id: BlockId)
    requires 0 < id < |g.blocks| && Touched(g, g', id)
    requires Keeps(isa, code, g.coherence, g.blocks, g.With(id, g'.blocks[id]).blocks)
    ensures Keeps(isa, code, g.coherence, g.blocks, g'.blocks)
  {
    var mid := g.With(id, g'.blocks[id]).blocks;
    assert forall i | 0 < i < |mid| :: g'.blocks[i] == mid[i];
  }

  /** Checking a block out of which no entry was misplaced delivers what memory holds at `pc`. */
  ghost predicate FetchedRight(code: Code, coherence: int, b: Block, b': Block, k: nat, pc: Addr, ok: bool, coherent: bool)
    requires k < b.len < |b.entries|
  {
    && k < b'.len == b.len < |b'.entries|
    && (ok <==> pc in code)
    && b'.entries[k].pc == pc && (ok ==> b'.entries[k].memWord == code[pc])
    && (coherent ==> Fresh(code, b'))
    && (Fresh(code, b) ==> coherent && b' == b.(coherence := coherence))
  }

  lemma RevalidatedRight(isa: Isa, code: Code, g: Graph, id: BlockId, b': Block, k: nat, pc: Addr, ok: bool, coherent: bool)
    requires HaveLen(g.blocks) && 0 < id < |g.blocks| && g.blocks[id].coherence != g.coherence
    requires Framed(g.blocks[id]) && Chained(isa, g.blocks[id]) && k < g.blocks[id].len && pc == g.blocks[id].entries[k].pc
    requires InPlace(isa, code, g.blocks[id], k)
    requires Revalidated(isa, code, g.coherence, g.blocks[id], b', k, pc, ok, coherent)
    requires Chained(isa, b') && b'.entries[k].pc == pc
    ensures FetchedRight(code, g.coherence, g.blocks[id], b', k, pc, ok, coherent)
  {
    RevalidatedKeeps(isa, code, g, id, b', k, pc, ok, coherent);
    assert FetchedAt(isa, code, g.blocks[id], k, pc) == pc;
  }

  /**
    Fetch of entry k of a block that may be out of date: `ok` unless that fetch itself traps; `coherent` if the whole
    block was brought up to date.
   */
  method FetchRevalidated(isa: Isa, ghost starts: seq<Addr>, code: Code, g: Graph, id: BlockId, k: nat, pc: Addr)
    returns (g': Graph, ok: bool, coherent: bool)
    requires GraphOk(isa, starts, g) && 0 < id < |g.blocks| && k < g.blocks[id].len
    requires g.blocks[id].coherence != g.coherence
    ensures GraphOk(isa, starts, g') && Touched(g, g', id)
    ensures Revalidated(isa, code, g.coherence, g.blocks[id], g'.blocks[id], k, pc, ok, coherent)
    ensures !ok ==> g'.blocks[0].entries[0].pc == pc
    ensures Chained(isa, g.blocks[id]) && pc == g.blocks[id].entries[k].pc ==>
              (Chained(isa, g'.blocks[id]) && g'.blocks[id].entries[k].pc == pc <==> InPlace(isa, code, g.blocks[id], k))
  {
    assert BlockIn(isa, starts, g.blocks, g.coherence, id);
    var b;
    b, ok, coherent := RevalidateBlock(isa, starts, code, g.blocks[id], k, pc, g.coherence);
    GraphReplace(isa, starts, g, id, b);
    g' := g.With(id, b);
    if !ok {
      SaveFaultPcKeeps(isa, starts, code, g', pc);
      g' := SaveFaultPc(g', pc);
    }
  }

  /** The same, as far as agreement with memory is concerned. */
  method FetchChecked(isa: Isa, ghost starts: seq<Addr>, code: Code, g: Graph, id: BlockId, k: nat, pc: Addr)
    returns (g': Graph, ok: bool, coherent: bool)
    requires GraphOk(isa, starts, g) && 0 < id < |g.blocks| && k < g.blocks[id].len
    requires g.blocks[id].coherence != g.coherence
    requires Chained(isa, g.blocks[id]) ==> pc == g.blocks[id].entries[k].pc
    ensures GraphOk(isa, starts, g') && g'.blocks[id].len == g.blocks[id].len
    ensures Touched(g, g', id) && Renewed(code, g.blocks[id], g'.blocks[id])
    ensures Reaches(isa, code, g.blocks[id].start, k + 1) ==>
              ok && BroughtUpToDate(isa, code, g.blocks[id], g'.blocks[id], k, coherent)
    ensures !ok ==> g'.blocks[0].entries[0].pc == pc
    ensures coherent ==> ok
    ensures AllChained(isa, g.blocks) && InPlace(isa, code, g.blocks[id], k) ==>
              && Keeps(isa, code, g.coherence, g.blocks, g'.blocks)
              && FetchedRight(code, g.coherence, g.blocks[id], g'.blocks[id], k, pc, ok, coherent)
  {
    assert BlockIn(isa, starts, g.blocks, g.coherence, id);
    g', ok, coherent := FetchRevalidated(isa, starts, code, g, id, k, pc);
    if Reaches(isa, code, g.blocks[id].start, k + 1) {
      RevalidatedOnPath(isa, code, g.coherence, g.blocks[id], g'.blocks[id], k, pc, ok, coherent);
    }
    if AllChained(isa, g.blocks) && InPlace(isa, code, g.blocks[id], k) {
      RevalidatedRight(isa, code, g, id, g'.blocks[id], k, pc, ok, coherent);
      RevalidatedKeeps(isa, code, g, id, g'.blocks[id], k, pc, ok, coherent);
      TouchedKeeps(isa, code, g, g', id);
    }
  }

  /** A changed block does not upset the lengths of instructions if those in memory have not changed. */
  lemma RenewedKeepsLayout(isa: Isa, compressed: iset<Addr>, code: Code, g: Graph, g': Graph, id: BlockId)
    requires HaveLen(g.blocks) && HaveLen(g'.blocks) && AllLaidOut(isa, compressed, g.blocks)
    requires Conforms(isa, compressed, code) && 0 <= id < |g.blocks| && Touched(g, g', id)
    requires id != 0 ==> Renewed(code, g.blocks[id], g'.blocks[id])
    ensures AllLaidOut(isa, compressed, g'.blocks)
  {
    forall i | 0 < i < |g.blocks| ensures LaidOut(isa, compressed, g'.blocks[i]) {
      assert LaidOut(isa, compressed, g.blocks[i]);
      if i == id {
        RenewedLaidOut(isa, compressed, code, g.blocks[id], g'.blocks[id]);
      }
    }
  }

  /** Nor does it upset agreement with memory. */
  lemma RenewedKeepsFresh(code: Code, g: Graph, g': Graph, id: BlockId)
    requires HaveLen(g.blocks) && HaveLen(g'.blocks) && AllFresh(code, g.blocks)
    requires 0 <= id < |g.blocks| && Touched(g, g', id)
    requires id != 0 ==> Renewed(code, g.blocks[id], g'.blocks[id])
    ensures AllFresh(code, g'.blocks)
  {
    forall i | 0 < i < |g.blocks| ensures Fresh(code, g'.blocks[i]) {
      assert Fresh(code, g.blocks[i]);
    }
  }

  /** The block entered for an address is the one that was known under it, or a new one. */
  lemma Revisits(isa: Isa, starts: seq<Addr>, g: Graph, starts': seq<Addr>, g': Graph, id: BlockId, pc: Addr)
    requires GraphOk(isa, starts, g) && GraphOk(isa, starts', g') && Extends(g.blocks, g'.blocks)
    requires 0 < id < |g'.blocks| && g'.blocks[id].start == pc
    ensures if pc in g.blockmap then id == g.blockmap[pc] else |g.blocks| <= id
    ensures forall i | 0 < i < |g.blocks| && g.blocks[i].start == pc :: id == i
  {
    assert BlockIn(isa, starts', g'.blocks, g'.coherence, id);
    forall i | 0 < i < |g.blocks| && g.blocks[i].start == pc ensures id == i {
      assert BlockIn(isa, starts', g'.blocks, g'.coherence, i) && SameButLinks(g.blocks[i], g'.blocks[i]);
    }
    if pc in g.blockmap {
      assert BlockIn(isa, starts, g.blocks, g.coherence, g.blockmap[pc]);
    }
    assert id < |g.blocks| ==> SameButLinks(g.blocks[id], g'.blocks[id]) && BlockIn(isa, starts, g.blocks, g.coherence, id);
  }
}
