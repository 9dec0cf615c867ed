/**
  Dynamic basic blocks: entries, link caches, and the block-level operations of DBBCache_T.
  Blocks are named by their position in the cache's block sequence; 0 is the dummy block.
 */
module DbbBlock {
  import opened Wrappers
  import opened DbbSpec

  type BlockId = int

  datatype Entry = Entry(link: Option<BlockId>, opLabel: Label, pc: Addr, cycles: int, memWord: Word,
                         instr: Word, size: int, idx: int)

  /** A ring of (pc, block) links; INVALID_PC marks an unused slot. */
  datatype LinkCache = LinkCache(pcs: seq<Addr>, blocks: seq<BlockId>, cur: int) {
    ghost predicate Ok() { |pcs| == |blocks| && 0 <= cur < |pcs| }
  }

  datatype Block = Block(start: Addr, len: int, entries: seq<Entry>, dynLinks: LinkCache, coherence: int)

  const INVALID_PC: Addr := 0xFFFF_FFFF_FFFF_FFFF
  const N_ENTRIES_START := 2
  const JUMP_DYN_LINK_CACHE_SIZE := 16
  const TRAP_LINK_CACHE_SIZE := 8
  const BLANK := Entry(None, Abort, 0, 0, 0, 0, 0, 0)

  // ---------------------------------------------------------------- link caches

  /** `id` names a real block that starts at `pc`. */
  ghost predicate LinkOk(starts: seq<Addr>, id: BlockId, pc: Addr) {
    0 < id < |starts| && starts[id] == pc
  }

  ghost predicate LinksOk(starts: seq<Addr>, c: LinkCache) {
    && c.Ok()
    && forall i | 0 <= i < |c.pcs| :: c.pcs[i] != INVALID_PC ==> LinkOk(starts, c.blocks[i], c.pcs[i])
  }

  function EmptyLinks(size: nat): (c: LinkCache)
    requires 0 < size
    ensures forall starts :: LinksOk(starts, c)
  {
    LinkCache(seq(size, _ => INVALID_PC), seq(size, _ => 0), 0)
  }

  /** Marks every slot unused and starts refilling at slot 0. */
  function ResetLinks(c: LinkCache): (r: LinkCache)
    requires c.Ok()
    ensures forall starts :: LinksOk(starts, r)
  {
    LinkCache(seq(|c.pcs|, _ => INVALID_PC), c.blocks, 0)
  }

  method Find(c: LinkCache, pc: Addr) returns (r: Option<BlockId>)
    requires c.Ok()
    ensures r.Some? ==> exists i | 0 <= i < |c.pcs| :: c.pcs[i] == pc && c.blocks[i] == r.value
    ensures r.None? ==> pc !in c.pcs
  {
    for idx := 0 to |c.pcs|
      invariant pc !in c.pcs[..idx]
    {
      if c.pcs[idx] == pc {
        return Some(c.blocks[idx]);
      }
    }
    return None;
  }

  function AddLink(c: LinkCache, pc: Addr, id: BlockId): (r: LinkCache)
    requires c.Ok()
    ensures r.Ok() && |r.pcs| == |c.pcs|
    ensures forall starts | LinksOk(starts, c) && LinkOk(starts, id, pc) :: LinksOk(starts, r)
  {
    LinkCache(c.pcs[c.cur := pc], c.blocks[c.cur := id], if c.cur + 1 == |c.pcs| then 0 else c.cur + 1)
  }

  // ---------------------------------------------------------------- well-formed blocks

  /** The entry's dispatch data are what decoding its own memory word gives. */
  ghost predicate EntryDecoded(isa: Isa, e: Entry) {
    var d := isa.Decode(e.memWord);
    e.opLabel == Op(d.op) && e.instr == d.instr && e.size == d.Size()
  }

  ghost predicate EntryOk(isa: Isa, starts: seq<Addr>, e: Entry) {
    && EntryDecoded(isa, e)
    && (e.link.Some? ==> LinkOk(starts, e.link.value, isa.Target(e.pc, e.memWord)))
  }

  /** Room for the terminal, a terminal behind the last entry, and indices that name their position. */
  ghost predicate Framed(b: Block) {
    && 0 <= b.len < |b.entries|
    && b.entries[b.len].opLabel == Abort
    && b.entries[0].cycles == 0
    && b.entries[0].pc == b.start
    && b.dynLinks.Ok()
    && forall i | 0 <= i <= b.len :: b.entries[i].idx == i
  }

  ghost predicate BlockOk(isa: Isa, starts: seq<Addr>, b: Block) {
    && Framed(b)
    && LinksOk(starts, b.dynLinks)
    && forall i | 0 <= i < b.len :: EntryOk(isa, starts, b.entries[i])
  }

  /** Entry i + 1 lies behind entry i. */
  ghost predicate Follows(isa: Isa, b: Block, i: int)
    requires 0 <= i && i + 1 < |b.entries|
  {
    b.entries[i + 1].pc == isa.Next(b.entries[i].pc, b.entries[i].memWord)
  }

  /** Entries lie back to back in memory. */
  ghost predicate Chained(isa: Isa, b: Block)
    requires 0 <= b.len < |b.entries|
  {
    forall i {:trigger Follows(isa, b, i)} | 0 <= i < b.len - 1 :: Follows(isa, b, i)
  }

  /** Every entry still holds the word that memory has at its pc. */
  predicate Fresh(code: Code, b: Block)
    requires 0 <= b.len < |b.entries|
  {
    forall i | 0 <= i < b.len :: b.entries[i].pc in code && code[b.entries[i].pc] == b.entries[i].memWord
  }

  /** Every entry has the length that `compressed` gives for its pc. */
  ghost predicate LaidOut(isa: Isa, compressed: iset<Addr>, b: Block)
    requires 0 <= b.len < |b.entries|
  {
    forall i | 0 <= i < b.len :: b.entries[i].pc in compressed <==> isa.Decode(b.entries[i].memWord).compressed
  }

  /** Entry i + 1 carries the cycles of entry i in addition. */
  ghost predicate Ticks(isa: Isa, b: Block, i: int)
    requires 0 <= i && i + 1 < |b.entries|
  {
    b.entries[i + 1].cycles == b.entries[i].cycles + isa.Decode(b.entries[i].memWord).time
  }

  /** Entry i + 1 carries the cycles spent by entries 0..i. */
  ghost predicate Clocked(isa: Isa, b: Block)
    requires 0 <= b.len < |b.entries|
  {
    forall i {:trigger Ticks(isa, b, i)} | 0 <= i < b.len :: Ticks(isa, b, i)
  }

  /** Recorded address behind entry k; k == -1 is the position before the first entry. */
  function PcAfter(isa: Isa, b: Block, k: int): Addr
    requires -1 <= k < |b.entries|
  {
    if k == -1 then b.start else isa.Next(b.entries[k].pc, b.entries[k].memWord)
  }

  /** Time of the first n instructions of the block. */
  function TimeOf(isa: Isa, b: Block, n: nat): int
    requires n <= |b.entries|
  {
    if n == 0 then 0 else TimeOf(isa, b, n - 1) + isa.Decode(b.entries[n - 1].memWord).time
  }

  /** The cycle count in an entry is the time of the instructions before it. */
  lemma {:induction false} ClockedSum(isa: Isa, b: Block, n: nat)
    requires Framed(b) && Clocked(isa, b) && n <= b.len
    ensures b.entries[n].cycles == TimeOf(isa, b, n)
  {
    if n > 0 {
      ClockedSum(isa, b, n - 1);
      assert Ticks(isa, b, n - 1);
    }
  }

  function NewBlock(pc: Addr, coherence: int): (b: Block)
    ensures b.start == pc && b.len == 0
    ensures forall isa, starts :: BlockOk(isa, starts, b)
  {
    Block(pc, 0, [BLANK.(pc := pc), BLANK], EmptyLinks(JUMP_DYN_LINK_CACHE_SIZE), coherence)
  }

  // ---------------------------------------------------------------- adding entries

  /** decode_update_entry: decode `w` into entry i and carry the cycle count to entry i + 1. */
  function UpdateEntry(isa: Isa, b: Block, i: nat, pc: Addr, w: Word): (r: Block)
    requires i + 1 < |b.entries|
  {
    var d := isa.Decode(w);
    var e := b.entries[i].(link := None, opLabel := Op(d.op), pc := pc, memWord := w, instr := d.instr, size := d.Size());
    var es := b.entries[i := e];
    b.(entries := es[i + 1 := es[i + 1].(cycles := e.cycles + d.time)])
  }

  /** realloc of the entry array to twice its size when only the terminal's slot is left. */
  function Grow(b: Block): (r: Block)
    requires 0 <= b.len < |b.entries|
    ensures b.len + 1 < |r.entries| && |b.entries| <= |r.entries| && r.entries[..|b.entries|] == b.entries
    ensures r == b.(entries := r.entries)
  {
    if b.len + 1 == |b.entries| then b.(entries := b.entries + seq(|b.entries|, _ => BLANK)) else b
  }

  /** Appends word `w` at `pc` and moves the terminal behind it. */
  function AddEntry(isa: Isa, b: Block, pc: Addr, w: Word): (r: Block)
    requires 0 <= b.len && b.len + 1 < |b.entries|
  {
    var u := UpdateEntry(isa, b, b.len, pc, w);
    var es := u.entries[b.len := u.entries[b.len].(idx := b.len)];
    u.(len := b.len + 1, entries := es[b.len + 1 := es[b.len + 1].(idx := b.len + 1, opLabel := Abort)])
  }

  /** The two blocks have the same entries up to and including the terminal. */
  ghost predicate SameEntries(b: Block, b': Block)
    requires 0 <= b.len < |b.entries|
  {
    && b' == b.(entries := b'.entries) && b.len < |b'.entries|
    && forall i | 0 <= i <= b.len :: b'.entries[i] == b.entries[i]
  }

  lemma GrowSame(b: Block)
    requires 0 <= b.len < |b.entries|
    ensures SameEntries(b, Grow(b))
  {
    var r := Grow(b);
    forall i | 0 <= i <= b.len ensures r.entries[i] == b.entries[i] {
      assert r.entries[i] == r.entries[..|b.entries|][i];
    }
  }

  lemma SameEntriesKeeps(isa: Isa, starts: seq<Addr>, code: Code, b: Block, b': Block)
    requires BlockOk(isa, starts, b) && SameEntries(b, b')
    ensures BlockOk(isa, starts, b')
    ensures Chained(isa, b) ==> Chained(isa, b')
    ensures Fresh(code, b) ==> Fresh(code, b')
    ensures Clocked(isa, b) ==> Clocked(isa, b')
  {
    SameStepsKeep(isa, b, b');
  }

  /** Only pcs, words and cycles of entries matter for whether they lie back to back and count time. */
  lemma SameStepsKeep(isa: Isa, b: Block, b': Block)
    requires 0 <= b.len == b'.len < |b.entries| && b.len < |b'.entries|
    requires forall i | 0 <= i <= b.len :: b'.entries[i].pc == b.entries[i].pc
               && b'.entries[i].memWord == b.entries[i].memWord && b'.entries[i].cycles == b.entries[i].cycles
    ensures Chained(isa, b) <==> Chained(isa, b')
    ensures Clocked(isa, b) <==> Clocked(isa, b')
  {
    forall i | 0 <= i < b.len
      ensures i < b.len - 1 ==> (Follows(isa, b, i) <==> Follows(isa, b', i))
      ensures Ticks(isa, b, i) <==> Ticks(isa, b', i)
    {
    }
  }

  /** `b'` has one entry more than `b`, namely `e`, and its terminal carries the cycles of `e` in addition. */
  ghost predicate Appended(isa: Isa, b: Block, b': Block, e: Entry)
    requires 0 <= b.len < |b.entries|
  {
    && b'.start == b.start && b'.coherence == b.coherence
    && b'.len == b.len + 1 < |b'.entries| && b'.entries[b.len] == e
    && (forall i | 0 <= i < b.len :: b'.entries[i] == b.entries[i])
    && b'.entries[b'.len].cycles == b.entries[b.len].cycles + isa.Decode(e.memWord).time
    && EntryDecoded(isa, e)
  }

  lemma AddEntryKeeps(isa: Isa, starts: seq<Addr>, b: Block, pc: Addr, w: Word)
    requires BlockOk(isa, starts, b) && b.len + 1 < |b.entries| && pc == PcAfter(isa, b, b.len - 1)
    ensures var r := AddEntry(isa, b, pc, w);
            && BlockOk(isa, starts, r)
            && Appended(isa, b, r, r.entries[b.len]) && r.entries[b.len].pc == pc && r.entries[b.len].memWord == w
            && r.entries[b.len].cycles == b.entries[b.len].cycles
  {
    var r := AddEntry(isa, b, pc, w);
    assert forall i | 0 <= i < b.len :: r.entries[i] == b.entries[i];
    assert EntryOk(isa, starts, r.entries[b.len]);
  }

  /** An entry appended behind the last one keeps the block in order. */
  lemma AppendedChained(isa: Isa, b: Block, b': Block, e: Entry)
    requires 0 <= b.len < |b.entries| && Appended(isa, b, b', e) && e.pc == PcAfter(isa, b, b.len - 1)
    requires Chained(isa, b)
    ensures Chained(isa, b')
  {
    forall i | 0 <= i < b'.len - 1 ensures Follows(isa, b', i) {
      assert i < b.len - 1 ==> Follows(isa, b, i);
    }
  }

  lemma AppendedClocked(isa: Isa, b: Block, b': Block, e: Entry)
    requires 0 <= b.len < |b.entries| && Appended(isa, b, b', e) && e.cycles == b.entries[b.len].cycles
    requires Clocked(isa, b)
    ensures Clocked(isa, b')
  {
    forall i | 0 <= i < b'.len ensures Ticks(isa, b', i) {
      assert i < b.len ==> Ticks(isa, b, i);
    }
  }

  lemma AppendedKeeps(isa: Isa, code: Code, b: Block, b': Block, e: Entry)
    requires 0 <= b.len < |b.entries| && Appended(isa, b, b', e) && e.pc == PcAfter(isa, b, b.len - 1)
    requires e.cycles == b.entries[b.len].cycles
    requires e.pc in code && code[e.pc] == e.memWord
    ensures Chained(isa, b) ==> Chained(isa, b')
    ensures Fresh(code, b) ==> Fresh(code, b')
    ensures Clocked(isa, b) ==> Clocked(isa, b')
  {
    if Chained(isa, b) {
      AppendedChained(isa, b, b', e);
    }
    if Clocked(isa, b) {
      AppendedClocked(isa, b, b', e);
    }
  }

  /** Every entry of `r` is an entry of `b`, or what memory holds. */
  ghost predicate Renewed(code: Code, b: Block, r: Block)
    requires 0 <= b.len < |b.entries|
  {
    && r.start == b.start && b.len <= r.len < |r.entries| && b.coherence <= r.coherence
    && forall i | 0 <= i < r.len ::
         || (i < b.len && r.entries[i].pc == b.entries[i].pc && r.entries[i].memWord == b.entries[i].memWord)
         || (r.entries[i].pc in code && r.entries[i].memWord == code[r.entries[i].pc])
  }

  /** The word at `pc` becomes the last entry of a block that has room for it. */
  method AddToRoom(isa: Isa, ghost starts: seq<Addr>, code: Code, b: Block, pc: Addr) returns (r: Block)
    requires BlockOk(isa, starts, b) && b.len + 1 < |b.entries| && pc == PcAfter(isa, b, b.len - 1) && pc in code
    ensures BlockOk(isa, starts, r)
    ensures 0 <= b.len < |r.entries| && Appended(isa, b, r, r.entries[b.len])
    ensures r.entries[b.len].pc == pc && r.entries[b.len].memWord == code[pc]
    ensures Chained(isa, b) ==> Chained(isa, r)
    ensures Fresh(code, b) ==> Fresh(code, r)
    ensures Clocked(isa, b) ==> Clocked(isa, r)
  {
    AddEntryKeeps(isa, starts, b, pc, code[pc]);
    r := AddEntry(isa, b, pc, code[pc]);
    AppendedKeeps(isa, code, b, r, r.entries[b.len]);
  }

  /**
    fetch_decode_add_entry: makes room for one more entry and the terminal, and appends the word at `pc`; a fetch that
    traps leaves the entries as they were.
   */
  method AppendEntry(isa: Isa, ghost starts: seq<Addr>, code: Code, b: Block, pc: Addr) returns (r: Block)
    requires BlockOk(isa, starts, b) && pc == PcAfter(isa, b, b.len - 1)
    ensures BlockOk(isa, starts, r)
    ensures if pc in code then
              && 0 <= b.len < |r.entries| && Appended(isa, b, r, r.entries[b.len])
              && r.entries[b.len].pc == pc && r.entries[b.len].memWord == code[pc]
            else
              SameEntries(b, r)
    ensures Chained(isa, b) ==> Chained(isa, r)
    ensures Fresh(code, b) ==> Fresh(code, r)
    ensures Clocked(isa, b) ==> Clocked(isa, r)
  {
    r := Grow(b);
    GrowSame(b);
    SameEntriesKeeps(isa, starts, code, b, r);
    if pc in code {
      r := AddToRoom(isa, starts, code, r, pc);
    }
  }

  lemma AppendedRenews(isa: Isa, code: Code, b: Block, r: Block)
    requires 0 <= b.len < |b.entries|
    requires || SameEntries(b, r)
             || (&& b.len < |r.entries| && Appended(isa, b, r, r.entries[b.len])
                 && r.entries[b.len].pc in code && r.entries[b.len].memWord == code[r.entries[b.len].pc])
    ensures Renewed(code, b, r)
  {
  }

  // ---------------------------------------------------------------- revalidation after a fence

  ghost predicate NoLinks(b: Block)
    requires 0 <= b.len < |b.entries|
  {
    && (forall i | 0 <= i < b.len :: b.entries[i].link.None?)
    && (forall i | 0 <= i < |b.dynLinks.pcs| :: b.dynLinks.pcs[i] == INVALID_PC)
  }

  /** The two blocks differ at most in links. */
  ghost predicate SameButLinks(b: Block, r: Block) {
    && r == b.(entries := r.entries, dynLinks := r.dynLinks)
    && |r.entries| == |b.entries|
    && forall i | 0 <= i < |b.entries| :: r.entries[i] == b.entries[i].(link := r.entries[i].link)
  }

  /** Links do not matter for agreement with memory and clock. */
  lemma SameButLinksKeeps(isa: Isa, code: Code, b: Block, r: Block)
    requires 0 <= b.len < |b.entries| && SameButLinks(b, r)
    ensures Chained(isa, b) ==> Chained(isa, r)
    ensures Fresh(code, b) ==> Fresh(code, r)
    ensures Clocked(isa, b) ==> Clocked(isa, r)
  {
    SameStepsKeep(isa, b, r);
  }

  method InvalidateLinks(b: Block) returns (r: Block)
    requires 0 <= b.len < |b.entries| && b.dynLinks.Ok()
    ensures SameButLinks(b, r) && NoLinks(r) && r.dynLinks.Ok()
  {
    r := b.(dynLinks := ResetLinks(b.dynLinks));
    for i := 0 to b.len
      invariant SameButLinks(b, r)
      invariant r.dynLinks == ResetLinks(b.dynLinks)
      invariant forall k | 0 <= k < i :: r.entries[k].link.None?
    {
      r := r.(entries := r.entries[i := r.entries[i].(link := None)]);
    }
  }

  ghost predicate Changed(b: Block, r: Block)
    requires b.len <= |b.entries| && b.len <= |r.entries|
  {
    exists i | 0 <= i < b.len :: r.entries[i].memWord != b.entries[i].memWord
  }

  /** What repairing leaves alone: the frame of the block, and all but links and cycles of entries whose word stays. */
  ghost predicate SameFrame(b: Block, r: Block) {
    && r.start == b.start && r.len == b.len && r.coherence == b.coherence && |r.entries| == |b.entries|
    && Framed(r)
    && forall i | 0 <= i < b.len :: r.entries[i].memWord == b.entries[i].memWord ==>
         r.entries[i] == b.entries[i].(link := r.entries[i].link, cycles := r.entries[i].cycles)
  }

  /** Behind an entry that was rewritten the cycles are counted anew; behind any other they stay. */
  ghost predicate RecountedAt(isa: Isa, b: Block, r: Block, i: int)
    requires 0 <= i && i + 1 < |b.entries| && i + 1 < |r.entries|
  {
    if r.entries[i].memWord != b.entries[i].memWord then Ticks(isa, r, i)
    else r.entries[i + 1].cycles == b.entries[i + 1].cycles
  }

  ghost predicate Recounted(isa: Isa, b: Block, r: Block)
    requires 0 <= b.len < |b.entries| && b.len < |r.entries|
  {
    forall i {:trigger RecountedAt(isa, b, r, i)} | 0 <= i < b.len :: RecountedAt(isa, b, r, i)
  }

  /** Entries from `idx` on still hold the words they had in `b`, and links survive only in an unchanged block. */
  ghost predicate Repairing(isa: Isa, b: Block, r: Block, idx: nat, clean: bool) {
    && SameFrame(b, r)
    && (forall i | idx <= i < b.len :: r.entries[i].memWord == b.entries[i].memWord)
    && (forall i | 0 <= i < b.len :: EntryDecoded(isa, r.entries[i]))
    && (if clean then r == b else NoLinks(r) && Changed(b, r))
    && Recounted(isa, b, r)
  }

  /** Entry i of `r` holds the word at `addr`; if that is not the word it had in `b`, the entry was moved there. */
  ghost predicate Refetched(code: Code, b: Block, r: Block, i: int, addr: Addr)
    requires 0 <= i < |b.entries| && i < |r.entries|
  {
    && addr in code && r.entries[i].memWord == code[addr]
    && (r.entries[i].memWord == b.entries[i].memWord || r.entries[i].pc == addr)
  }

  /** The first `stop` entries of `r` were fetched anew, one behind the other from the start address. */
  ghost predicate Rechecked(isa: Isa, code: Code, b: Block, r: Block, stop: nat)
    requires stop <= |b.entries| && stop <= |r.entries|
  {
    forall i: nat {:trigger Refetched(code, b, r, i, PathAt(isa, code, b.start, i))} | i < stop ::
      Refetched(code, b, r, i, PathAt(isa, code, b.start, i))
  }

  /**
    `r` is `b` with its first `stop` entries brought up to date: they are the decoding of memory along the path of
    execution from the start address, the other entries keep their words, and if any word changed no link survives.
   */
  ghost predicate Repaired(isa: Isa, code: Code, b: Block, r: Block, stop: nat) {
    && SameFrame(b, r) && stop <= b.len
    && Rechecked(isa, code, b, r, stop)
    && (stop < b.len ==> PathAt(isa, code, b.start, stop) !in code)
    && (forall i | stop <= i < b.len :: r.entries[i].memWord == b.entries[i].memWord)
    && (forall i | 0 <= i < b.len :: EntryDecoded(isa, r.entries[i]))
    && (r == b || (NoLinks(r) && Changed(b, r)))
    && Recounted(isa, b, r)
  }

  ghost predicate SameBefore(r: Block, r': Block, idx: nat)
    requires idx <= |r.entries| && idx <= |r'.entries|
  {
    forall i | 0 <= i < idx :: r'.entries[i].memWord == r.entries[i].memWord && r'.entries[i].pc == r.entries[i].pc
  }

  /** Dropping the links of a block in repair. */
  lemma UnlinkFrame(isa: Isa, b: Block, r: Block)
    requires Framed(b) && SameButLinks(b, r) && r.dynLinks.Ok()
    requires forall i | 0 <= i < b.len :: EntryDecoded(isa, b.entries[i])
    ensures SameFrame(b, r)
    ensures forall i | 0 <= i < b.len :: EntryDecoded(isa, r.entries[i]) && r.entries[i].memWord == b.entries[i].memWord
    ensures Recounted(isa, b, r)
  {
  }

  /** Decoding another word into one entry of a block without links. */
  lemma UpdateFrame(isa: Isa, b: Block, r: Block, idx: nat, addr: Addr, w: Word)
    requires SameFrame(b, r) && NoLinks(r) && idx < b.len && (idx == 0 ==> addr == b.start)
    requires r.entries[idx].memWord == b.entries[idx].memWord != w
    ensures var r' := UpdateEntry(isa, r, idx, addr, w);
            SameFrame(b, r') && NoLinks(r') && Changed(b, r') && SameBefore(r, r', idx)
  {
    var r' := UpdateEntry(isa, r, idx, addr, w);
    assert r'.entries[idx].memWord != b.entries[idx].memWord;
  }

  lemma UpdateRecounts(isa: Isa, b: Block, r: Block, idx: nat, addr: Addr, w: Word)
    requires SameFrame(b, r) && Recounted(isa, b, r) && idx < b.len && w != b.entries[idx].memWord
    requires forall i | idx <= i < b.len :: r.entries[i].memWord == b.entries[i].memWord
    ensures SameFrame(b, r) && Recounted(isa, b, UpdateEntry(isa, r, idx, addr, w))
  {
    var r' := UpdateEntry(isa, r, idx, addr, w);
    forall i | 0 <= i < b.len ensures RecountedAt(isa, b, r', i) {
      assert RecountedAt(isa, b, r, i);
    }
  }

  lemma UpdateRepairs(isa: Isa, b: Block, r: Block, idx: nat, addr: Addr, w: Word)
    requires SameFrame(b, r) && NoLinks(r) && idx < b.len && (idx == 0 ==> addr == b.start)
    requires forall i | idx <= i < b.len :: r.entries[i].memWord == b.entries[i].memWord
    requires forall i | 0 <= i < b.len :: EntryDecoded(isa, r.entries[i])
    requires w != b.entries[idx].memWord && Recounted(isa, b, r)
    ensures var r' := UpdateEntry(isa, r, idx, addr, w);
            Repairing(isa, b, r', idx + 1, false) && SameBefore(r, r', idx)
  {
    UpdateFrame(isa, b, r, idx, addr, w);
    UpdateRecounts(isa, b, r, idx, addr, w);
    var r' := UpdateEntry(isa, r, idx, addr, w);
    forall i | 0 <= i < b.len ensures EntryDecoded(isa, r'.entries[i]) {
      assert i != idx ==> EntryDecoded(isa, r.entries[i]);
    }
  }

  method RepairEntry(isa: Isa, ghost b: Block, r: Block, idx: nat, addr: Addr, w: Word, clean: bool)
    returns (r': Block, clean': bool)
    requires Framed(b) && idx < b.len && Repairing(isa, b, r, idx, clean) && (idx == 0 ==> addr == b.start)
    ensures Repairing(isa, b, r', idx + 1, clean')
    ensures r'.entries[idx].memWord == w
    ensures w == b.entries[idx].memWord || r'.entries[idx].pc == addr
    ensures SameBefore(r, r', idx)
  {
    r', clean' := r, clean;
    if w != r.entries[idx].memWord {
      if clean {
        r' := InvalidateLinks(r);
        UnlinkFrame(isa, b, r');
        clean' := false;
      }
      UpdateRepairs(isa, b, r', idx, addr, w);
      r' := UpdateEntry(isa, r', idx, addr, w);
    }
  }

  lemma {:induction false} RecheckedStep(isa: Isa, code: Code, b: Block, r: Block, r': Block, idx: nat)
    requires idx < |b.entries| == |r.entries| == |r'.entries|
    requires Rechecked(isa, code, b, r, idx) && SameBefore(r, r', idx)
    requires Refetched(code, b, r', idx, PathAt(isa, code, b.start, idx))
    ensures Rechecked(isa, code, b, r', idx + 1)
  {
    forall i: nat | i < idx + 1 ensures Refetched(code, b, r', i, PathAt(isa, code, b.start, i)) {
      assert i < idx ==> Refetched(code, b, r, i, PathAt(isa, code, b.start, i));
    }
  }

  /** The state of the repair loop before entry `stop`. */
  ghost predicate RepairState(isa: Isa, code: Code, b: Block, r: Block, stop: nat, clean: bool) {
    stop <= b.len && Repairing(isa, b, r, stop, clean) && Rechecked(isa, code, b, r, stop)
  }

  lemma RepairStart(isa: Isa, code: Code, b: Block)
    requires Framed(b) && forall i | 0 <= i < b.len :: EntryDecoded(isa, b.entries[i])
    ensures RepairState(isa, code, b, b, 0, true)
  {
  }

  method RepairStep(isa: Isa, code: Code, ghost b: Block, r: Block, stop: nat, addr: Addr, clean: bool)
    returns (r': Block, clean': bool)
    requires Framed(b) && stop < b.len && RepairState(isa, code, b, r, stop, clean)
    requires addr == PathAt(isa, code, b.start, stop) && addr in code
    ensures RepairState(isa, code, b, r', stop + 1, clean')
  {
    r', clean' := RepairEntry(isa, b, r, stop, addr, code[addr], clean);
    RecheckedStep(isa, code, b, r, r', stop);
  }

  lemma RepairEnd(isa: Isa, code: Code, b: Block, r: Block, stop: nat, clean: bool)
    requires RepairState(isa, code, b, r, stop, clean)
    requires stop < b.len ==> PathAt(isa, code, b.start, stop) !in code
    ensures Repaired(isa, code, b, r, stop)
  {
  }

  /**
    The repair loop: refetch the block from its start address and decode again every word that differs.
    It stops early at a refetch that traps.
   */
  method Repair(isa: Isa, code: Code, b: Block) returns (r: Block, stop: nat)
    requires Framed(b)
    requires forall i | 0 <= i < b.len :: EntryDecoded(isa, b.entries[i])
    ensures Repaired(isa, code, b, r, stop)
  {
    r := b;
    stop := 0;
    var addr := b.start;
    var clean := true;
    RepairStart(isa, code, b);
    while stop < b.len
      invariant RepairState(isa, code, b, r, stop, clean)
      invariant addr == PathAt(isa, code, b.start, stop)
    {
      if addr !in code {
        break;
      }
      r, clean := RepairStep(isa, code, b, r, stop, addr, clean);
      addr := isa.Next(addr, code[addr]);
      stop := stop + 1;
    }
    RepairEnd(isa, code, b, r, stop, clean);
  }

  // ---------------------------------------------------------------- changed instruction lengths

  /** The repair loop gets as far as entry i and does not rewrite it. */
  predicate Kept(isa: Isa, code: Code, b: Block, i: nat)
    requires i < |b.entries|
  {
    && Reaches(isa, code, b.start, i)
    && var a := PathAt(isa, code, b.start, i);
       a in code ==> code[a] == b.entries[i].memWord
  }

  /** The entries that the repair loop does not rewrite lie where it looks for them. */
  predicate Realigns(isa: Isa, code: Code, b: Block)
    requires 0 <= b.len < |b.entries|
  {
    forall i: nat {:trigger Kept(isa, code, b, i)} | i < b.len && Kept(isa, code, b, i) ::
      b.entries[i].pc == PathAt(isa, code, b.start, i)
  }

  /**
    For any new code: when a whole block was refetched, its recorded pcs are the addresses fetched from if and only
    if the entries whose word did not change are still where they were.
   */
  lemma {:induction false} RepairedPcs(isa: Isa, code: Code, b: Block, r: Block)
    requires 0 <= b.len < |b.entries| && Repaired(isa, code, b, r, b.len)
    ensures (forall i: nat | i < b.len :: r.entries[i].pc == PathAt(isa, code, b.start, i)) <==>
            (forall i: nat | i < b.len && r.entries[i].memWord == b.entries[i].memWord ::
               b.entries[i].pc == PathAt(isa, code, b.start, i))
  {
    forall i: nat | i < b.len
      ensures r.entries[i].memWord == b.entries[i].memWord ==> r.entries[i].pc == b.entries[i].pc
      ensures r.entries[i].memWord == b.entries[i].memWord || r.entries[i].pc == PathAt(isa, code, b.start, i)
    {
      assert Refetched(code, b, r, i, PathAt(isa, code, b.start, i));
    }
  }

  /** Word 2 is compressed; all other words are long. */
  const SHORTENED_ISA := Isa(false, imap[2 := Decoded(2, 2, 1, true, 0)])
  const SHORTENED: Code := imap[0 := 2, 2 := 3]
  const LONG_BLOCK := Block(0, 2, [Entry(None, Op(0), 0, 0, 1, 0, 4, 0), Entry(None, Op(0), 4, 0, 3, 0, 4, 1),
                                   BLANK.(idx := 2)], EmptyLinks(JUMP_DYN_LINK_CACHE_SIZE), 0)

  /** Two words, the first of which gets shorter: the second moves, and its recorded pc does not. */
  lemma RepairMisplaces(r: Block, stop: nat)
    requires Repaired(SHORTENED_ISA, SHORTENED, LONG_BLOCK, r, stop)
    ensures stop == 2 && r.entries[1].pc == 4 && PathAt(SHORTENED_ISA, SHORTENED, 0, 1) == 2
    ensures BlockOk(SHORTENED_ISA, [0, 0], LONG_BLOCK) && Chained(SHORTENED_ISA, LONG_BLOCK)
  {
    assert PathAt(SHORTENED_ISA, SHORTENED, 0, 0) == 0;
    assert PathAt(SHORTENED_ISA, SHORTENED, 0, 1) == 2;
    assert stop == 2;
    assert Refetched(SHORTENED, LONG_BLOCK, r, 1, 2);
  }

  /** Behind every entry whose word did not change, the instructions before it take as long as before. */
  ghost predicate SameTimes(isa: Isa, b: Block, r: Block)
    requires 0 <= b.len < |b.entries| && b.len < |r.entries|
  {
    forall i: nat {:trigger TimeOf(isa, r, i)} | i < b.len && r.entries[i].memWord == b.entries[i].memWord ::
      TimeOf(isa, r, i) == TimeOf(isa, b, i)
  }

  lemma {:induction false} SameTimesSum(isa: Isa, b: Block, r: Block, n: nat)
    requires Framed(b) && Clocked(isa, b) && SameFrame(b, r) && Recounted(isa, b, r) && SameTimes(isa, b, r) && n <= b.len
    ensures r.entries[n].cycles == TimeOf(isa, r, n)
  {
    if n > 0 {
      SameTimesSum(isa, b, r, n - 1);
      ClockedSum(isa, b, n);
      assert RecountedAt(isa, b, r, n - 1);
    }
  }

  lemma {:induction false} SameTimesTicks(isa: Isa, b: Block, r: Block, i: nat)
    requires Framed(b) && Clocked(isa, b) && SameFrame(b, r) && Recounted(isa, b, r) && SameTimes(isa, b, r) && i < b.len
    ensures Ticks(isa, r, i)
  {
    SameTimesSum(isa, b, r, i);
    SameTimesSum(isa, b, r, i + 1);
  }

  lemma {:induction false} ClockedTimes(isa: Isa, b: Block, r: Block, i: nat)
    requires Framed(b) && Clocked(isa, b) && Framed(r) && Clocked(isa, r) && i < b.len == r.len
    requires r.entries[i].memWord == b.entries[i].memWord && r.entries[i + 1].cycles == b.entries[i + 1].cycles
    ensures TimeOf(isa, r, i) == TimeOf(isa, b, i)
  {
    ClockedSum(isa, b, i + 1);
    ClockedSum(isa, r, i + 1);
  }

  lemma {:induction false} RecountedClocked(isa: Isa, b: Block, r: Block)
    requires Framed(b) && Clocked(isa, b) && SameFrame(b, r) && Recounted(isa, b, r)
    ensures Clocked(isa, r) <==> SameTimes(isa, b, r)
  {
    if SameTimes(isa, b, r) {
      forall i | 0 <= i < b.len ensures Ticks(isa, r, i) {
        SameTimesTicks(isa, b, r, i);
      }
    }
    if Clocked(isa, r) {
      forall i: nat | i < b.len && r.entries[i].memWord == b.entries[i].memWord ensures TimeOf(isa, r, i) == TimeOf(isa, b, i) {
        assert RecountedAt(isa, b, r, i);
        ClockedTimes(isa, b, r, i);
      }
    }
  }

  /** For any new code: the cycle counts of a repaired block are right iff that holds. */
  lemma {:induction false} RepairedClocked(isa: Isa, code: Code, b: Block, r: Block, stop: nat)
    requires Framed(b) && Clocked(isa, b) && Repaired(isa, code, b, r, stop)
    ensures Clocked(isa, r) <==> SameTimes(isa, b, r)
  {
    RecountedClocked(isa, b, r);
  }

  lemma {:induction false} RechecksReach(isa: Isa, code: Code, b: Block, r: Block, stop: nat)
    requires stop <= |b.entries| && stop <= |r.entries| && Rechecked(isa, code, b, r, stop)
    ensures Reaches(isa, code, b.start, stop)
  {
    forall i: nat | i < stop ensures PathAt(isa, code, b.start, i) in code {
      assert Refetched(code, b, r, i, PathAt(isa, code, b.start, i));
    }
  }

  /** In a repaired block whose entries lie back to back, they lie on the path of execution. */
  lemma {:induction false} RepairedPath(isa: Isa, code: Code, b: Block, r: Block, stop: nat, i: nat)
    requires Framed(b) && Repaired(isa, code, b, r, stop) && Chained(isa, r) && i <= stop && i < b.len
    ensures r.entries[i].pc == PathAt(isa, code, b.start, i)
  {
    if i > 0 {
      RepairedPath(isa, code, b, r, stop, i - 1);
      assert Follows(isa, r, i - 1);
      assert Refetched(code, b, r, i - 1, PathAt(isa, code, b.start, i - 1));
    }
  }

  /** Entry i of a repaired block that realigns lies on the path of execution. */
  lemma {:induction false} RealignedPc(isa: Isa, code: Code, b: Block, r: Block, stop: nat, i: nat)
    requires 0 <= b.len < |b.entries| && Repaired(isa, code, b, r, stop) && i <= stop && i < b.len
    requires Realigns(isa, code, b)
    ensures r.entries[i].pc == PathAt(isa, code, b.start, i)
  {
    RechecksReach(isa, code, b, r, stop);
    if i < stop {
      assert Refetched(code, b, r, i, PathAt(isa, code, b.start, i));
    }
    assert Kept(isa, code, b, i) || (i < stop && r.entries[i].memWord != b.entries[i].memWord);
  }

  /** For any new code, and wherever the repair stops: the entries lie back to back afterwards iff the block realigns. */
  lemma {:induction false} RepairedChained(isa: Isa, code: Code, b: Block, r: Block, stop: nat)
    requires Framed(b) && Chained(isa, b) && Repaired(isa, code, b, r, stop)
    ensures Chained(isa, r) <==> Realigns(isa, code, b)
  {
    RechecksReach(isa, code, b, r, stop);
    if Realigns(isa, code, b) {
      forall i | 0 <= i < b.len - 1 ensures Follows(isa, r, i) {
        RealignedStep(isa, code, b, r, stop, i);
      }
    }
    if Chained(isa, r) {
      forall i: nat | i < b.len && Kept(isa, code, b, i) ensures b.entries[i].pc == PathAt(isa, code, b.start, i) {
        KeptPath(isa, code, b, r, stop, i);
      }
    }
  }

  lemma {:induction false} RealignedStep(isa: Isa, code: Code, b: Block, r: Block, stop: nat, i: nat)
    requires Framed(b) && Chained(isa, b) && Repaired(isa, code, b, r, stop) && Realigns(isa, code, b) && i + 1 < b.len
    ensures Follows(isa, r, i)
  {
    if i < stop {
      RealignedPc(isa, code, b, r, stop, i);
      RealignedPc(isa, code, b, r, stop, i + 1);
      assert Refetched(code, b, r, i, PathAt(isa, code, b.start, i));
      PathNext(isa, code, b.start, i);
      FollowsPath(isa, code, r, i, PathAt(isa, code, b.start, i), PathAt(isa, code, b.start, i + 1));
    } else {
      assert Follows(isa, b, i);
    }
  }

  lemma FollowsPath(isa: Isa, code: Code, r: Block, i: nat, a: Addr, a': Addr)
    requires i + 1 < |r.entries| && r.entries[i].pc == a && r.entries[i + 1].pc == a'
    requires a in code && r.entries[i].memWord == code[a] && a' == isa.Next(a, code[a])
    ensures Follows(isa, r, i)
  {
  }

  lemma {:induction false} KeptPath(isa: Isa, code: Code, b: Block, r: Block, stop: nat, i: nat)
    requires Framed(b) && Repaired(isa, code, b, r, stop) && Chained(isa, r) && i < b.len && Kept(isa, code, b, i)
    ensures b.entries[i].pc == PathAt(isa, code, b.start, i)
  {
    assert i <= stop;
    RepairedPath(isa, code, b, r, stop, i);
    if i < stop {
      assert Refetched(code, b, r, i, PathAt(isa, code, b.start, i));
    }
  }

  // ---------------------------------------------------------------- blocks whose path is known

  /** One step along a block whose entry i lies on the path and has kept its length. */
  lemma {:induction false} PathStep(isa: Isa, code: Code, b: Block, i: nat)
    requires 0 <= b.len < |b.entries| && Chained(isa, b) && i + 1 < b.len
    requires b.entries[i].pc == PathAt(isa, code, b.start, i) && b.entries[i].pc in code
    requires isa.Decode(code[b.entries[i].pc]).compressed <==> isa.Decode(b.entries[i].memWord).compressed
    ensures b.entries[i + 1].pc == PathAt(isa, code, b.start, i + 1)
  {
    assert Follows(isa, b, i);
  }

  /** The recorded pcs of a block that agrees with memory are the path of execution. */
  lemma {:induction false} FreshPath(isa: Isa, code: Code, b: Block, n: nat)
    requires Framed(b) && Chained(isa, b) && Fresh(code, b) && n <= b.len
    ensures Reaches(isa, code, b.start, n)
    ensures n < b.len ==> b.entries[n].pc == PathAt(isa, code, b.start, n)
  {
    if n > 0 {
      FreshPath(isa, code, b, n - 1);
      if n < b.len {
        PathStep(isa, code, b, n - 1);
      }
    }
  }

  /** What memory has at the pc of entry i, if anything, is as long as the entry. */
  ghost predicate SameLength(isa: Isa, code: Code, b: Block, i: int)
    requires 0 <= i < |b.entries|
  {
    var pc := b.entries[i].pc;
    pc in code ==> (isa.Decode(code[pc]).compressed <==> isa.Decode(b.entries[i].memWord).compressed)
  }

  ghost predicate SameLengths(isa: Isa, code: Code, b: Block)
    requires 0 <= b.len < |b.entries|
  {
    forall i {:trigger SameLength(isa, code, b, i)} | 0 <= i < b.len :: SameLength(isa, code, b, i)
  }

  lemma LaidOutLengths(isa: Isa, compressed: iset<Addr>, code: Code, b: Block)
    requires 0 <= b.len < |b.entries| && LaidOut(isa, compressed, b) && Conforms(isa, compressed, code)
    ensures SameLengths(isa, code, b)
  {
    forall i | 0 <= i < b.len ensures SameLength(isa, code, b, i) {
      var pc := b.entries[i].pc;
      assert pc in code ==> (isa.Decode(code[pc]).compressed <==> pc in compressed);
    }
  }

  /** If no instruction changed its length, the recorded pcs are the path of execution as far as that goes. */
  lemma {:induction false} LengthsPath(isa: Isa, code: Code, b: Block, n: nat)
    requires Framed(b) && Chained(isa, b) && SameLengths(isa, code, b)
    requires n < b.len && Reaches(isa, code, b.start, n)
    ensures b.entries[n].pc == PathAt(isa, code, b.start, n)
  {
    if n > 0 {
      ReachesStep(isa, code, b.start, n - 1);
      LengthsPath(isa, code, b, n - 1);
      assert SameLength(isa, code, b, n - 1);
      PathStep(isa, code, b, n - 1);
    }
  }

  // ---------------------------------------------------------------- fetching from a block that may be out of date

  /**
    Where the word of entry k comes from if the block is checked before that entry is used: from its place on the
    path, or from `pc` itself if the path breaks off before.
   */
  function FetchedAt(isa: Isa, code: Code, b: Block, k: nat, pc: Addr): Addr {
    if Reaches(isa, code, b.start, k) then PathAt(isa, code, b.start, k) else pc
  }

  /** Checking the block before entry k is used leaves no recorded pc wrong. */
  predicate InPlace(isa: Isa, code: Code, b: Block, k: nat)
    requires k < b.len < |b.entries|
  {
    && Realigns(isa, code, b)
    && var pc := b.entries[k].pc;
       if Reaches(isa, code, b.start, k) then
         PathAt(isa, code, b.start, k) == pc
       else
         pc in code && k + 1 < b.len ==> b.entries[k + 1].pc == isa.Next(pc, code[pc])
  }

  /** No entry and no link differs, or there is no link left. */
  ghost predicate LinksDropped(b: Block, r: Block)
    requires 0 <= r.len < |r.entries|
  {
    (r.entries == b.entries && r.dynLinks == b.dynLinks) || NoLinks(r)
  }

  /** Entries whose word stays keep their pc, and links are left only if every word stays. */
  ghost predicate LeftAlone(b: Block, r: Block)
    requires 0 <= b.len < |b.entries| && b.len <= r.len < |r.entries|
  {
    && (forall i | 0 <= i < b.len && r.entries[i].memWord == b.entries[i].memWord :: r.entries[i].pc == b.entries[i].pc)
    && LinksDropped(b, r)
  }

  /** `r` is `b` after the check that precedes the use of entry k, for any code. */
  ghost predicate Revalidated(isa: Isa, code: Code, coherence: int, b: Block, r: Block, k: nat, pc: Addr, ok: bool,
                              coherent: bool)
    requires k < b.len < |b.entries|
  {
    && r.start == b.start && r.len == b.len < |r.entries|
    && (ok <==> FetchedAt(isa, code, b, k, pc) in code)
    && (ok ==> r.entries[k].memWord == code[FetchedAt(isa, code, b, k, pc)])
    && (coherent <==> Reaches(isa, code, b.start, b.len))
    && r.coherence == (if coherent then coherence else b.coherence)
    && (coherent ==> Repaired(isa, code, b, r.(coherence := b.coherence), b.len))
    && (Reaches(isa, code, b.start, k) ==> LeftAlone(b, r))
    && Renewed(code, b, r)
  }

  /** Every entry is the word that memory has at its place on the path of execution. */
  ghost predicate OnPath(isa: Isa, code: Code, b: Block)
    requires 0 <= b.len < |b.entries|
  {
    && Reaches(isa, code, b.start, b.len)
    && forall i: nat {:trigger PathAt(isa, code, b.start, i)} | i < b.len ::
         b.entries[i].memWord == code[PathAt(isa, code, b.start, i)]
  }

  /** What the check makes of block `b` if entry k can be fetched along the path; `coherent` if all others can, too. */
  ghost predicate BroughtUpToDate(isa: Isa, code: Code, b: Block, r: Block, k: nat, coherent: bool)
    requires k < b.len < |b.entries|
  {
    && r.start == b.start && r.len == b.len < |r.entries|
    && PathAt(isa, code, b.start, k) in code && r.entries[k].memWord == code[PathAt(isa, code, b.start, k)]
    && LeftAlone(b, r)
    && (Reaches(isa, code, b.start, b.len) ==> coherent)
    && if coherent then OnPath(isa, code, r) else r.coherence == b.coherence
  }

  lemma {:induction false} RevalidatedOnPath(isa: Isa, code: Code, coherence: int, b: Block, r: Block, k: nat, pc: Addr, ok: bool, coherent: bool)
    requires k < b.len < |b.entries| && Revalidated(isa, code, coherence, b, r, k, pc, ok, coherent)
    requires Reaches(isa, code, b.start, k + 1)
    ensures ok && BroughtUpToDate(isa, code, b, r, k, coherent)
  {
    assert Reaches(isa, code, b.start, k) && PathAt(isa, code, b.start, k) in code;
    if coherent {
      var r0 := r.(coherence := b.coherence);
      forall i: nat | i < b.len ensures r.entries[i].memWord == code[PathAt(isa, code, b.start, i)] {
        assert Refetched(code, b, r0, i, PathAt(isa, code, b.start, i));
      }
    }
  }

  lemma RepairedBlockOk(isa: Isa, starts: seq<Addr>, code: Code, b: Block, r: Block, stop: nat)
    requires BlockOk(isa, starts, b) && Repaired(isa, code, b, r, stop)
    ensures BlockOk(isa, starts, r)
  {
    if r != b {
      forall i | 0 <= i < b.len ensures EntryOk(isa, starts, r.entries[i]) {
        assert EntryDecoded(isa, r.entries[i]);
      }
    }
  }

  lemma {:induction false} RepairedRenews(isa: Isa, code: Code, b: Block, r: Block, stop: nat)
    requires Framed(b) && Repaired(isa, code, b, r, stop)
    ensures Renewed(code, b, r)
  {
    forall i: nat | i < b.len
      ensures || (r.entries[i].pc == b.entries[i].pc && r.entries[i].memWord == b.entries[i].memWord)
              || (r.entries[i].pc in code && r.entries[i].memWord == code[r.entries[i].pc])
    {
      if i < stop {
        assert Refetched(code, b, r, i, PathAt(isa, code, b.start, i));
      }
    }
  }

  /** Where the repair stopped tells how far the path goes. */
  lemma {:induction false} StopReaches(isa: Isa, code: Code, b: Block, r: Block, stop: nat, n: nat)
    requires 0 <= b.len < |b.entries| && Repaired(isa, code, b, r, stop) && n <= b.len
    ensures Reaches(isa, code, b.start, n) <==> n <= stop
  {
    RechecksReach(isa, code, b, r, stop);
  }

  /** The entry that is wanted is fetched on its own, because the path breaks off before it. */
  lemma UpdateKeeps(isa: Isa, starts: seq<Addr>, code: Code, b: Block, r: Block, k: nat, pc: Addr)
    requires Framed(b) && BlockOk(isa, starts, r) && Renewed(code, b, r) && 0 < k < r.len && pc in code
    ensures var r' := UpdateEntry(isa, r, k, pc, code[pc]);
            && BlockOk(isa, starts, r') && Renewed(code, b, r')
            && r'.entries[k].memWord == code[pc] && r'.entries[k].pc == pc
  {
    var r' := UpdateEntry(isa, r, k, pc, code[pc]);
    forall i | 0 <= i < r.len ensures EntryOk(isa, starts, r'.entries[i]) {
      assert i != k ==> EntryOk(isa, starts, r.entries[i]);
    }
  }

  lemma UpdateChained(isa: Isa, b: Block, k: nat, w: Word)
    requires 0 < k < b.len < |b.entries|
    requires k + 1 < b.len ==> Follows(isa, b, k)
    ensures Chained(isa, UpdateEntry(isa, b, k, b.entries[k].pc, w)) <==>
            Chained(isa, b) && (k + 1 < b.len ==> b.entries[k + 1].pc == isa.Next(b.entries[k].pc, w))
  {
    var r := UpdateEntry(isa, b, k, b.entries[k].pc, w);
    forall i | 0 <= i < b.len - 1
      ensures if i == k then Follows(isa, r, i) <==> b.entries[k + 1].pc == isa.Next(b.entries[k].pc, w)
              else Follows(isa, r, i) <==> Follows(isa, b, i)
    {
    }
    assert k + 1 < b.len && Chained(isa, r) ==> Follows(isa, r, k);
  }

  /** The check when the repair does not break off before entry k. */
  lemma {:induction false} RevalidatedChained(isa: Isa, code: Code, b: Block, r: Block, stop: nat, k: nat)
    requires Framed(b) && Chained(isa, b) && Repaired(isa, code, b, r, stop) && k < b.len && k <= stop
    ensures Chained(isa, r) && r.entries[k].pc == b.entries[k].pc <==> InPlace(isa, code, b, k)
  {
    RepairedChained(isa, code, b, r, stop);
    StopReaches(isa, code, b, r, stop, k);
    if Realigns(isa, code, b) {
      RealignedPc(isa, code, b, r, stop, k);
    }
  }

  /** The check when it does. */
  lemma {:induction false} RefetchedChained(isa: Isa, code: Code, b: Block, r: Block, stop: nat, k: nat)
    requires Framed(b) && Chained(isa, b) && Repaired(isa, code, b, r, stop) && stop < k < b.len
    ensures var pc := b.entries[k].pc;
            var r' := if pc in code then UpdateEntry(isa, r, k, pc, code[pc]) else r;
            Chained(isa, r') && r'.entries[k].pc == pc <==> InPlace(isa, code, b, k)
  {
    RepairedChained(isa, code, b, r, stop);
    StopReaches(isa, code, b, r, stop, k);
    var pc := b.entries[k].pc;
    assert r.entries[k].pc == pc;
    assert k + 1 < b.len ==> Follows(isa, b, k);
    if pc in code {
      UpdateChained(isa, r, k, code[pc]);
    }
  }

  /** The repair got through. */
  lemma {:induction false} WholeRevalidated(isa: Isa, code: Code, coherence: int, b: Block, r: Block, k: nat, pc: Addr)
    requires Framed(b) && k < b.len && Repaired(isa, code, b, r, b.len) && b.coherence <= coherence
    ensures Revalidated(isa, code, coherence, b, r.(coherence := coherence), k, pc, true, true)
  {
    var r' := r.(coherence := coherence);
    assert r'.(coherence := b.coherence) == r;
    StopReaches(isa, code, b, r, b.len, k);
    StopReaches(isa, code, b, r, b.len, b.len);
    assert Refetched(code, b, r, k, PathAt(isa, code, b.start, k));
    RepairedRenews(isa, code, b, r, b.len);
  }

  /** The repair broke off, but not before entry k. */
  lemma {:induction false} PartRevalidated(isa: Isa, code: Code, coherence: int, b: Block, r: Block, stop: nat, k: nat, pc: Addr)
    requires Framed(b) && k <= stop < b.len && Repaired(isa, code, b, r, stop)
    ensures Revalidated(isa, code, coherence, b, r, k, pc, k < stop, false)
  {
    StopReaches(isa, code, b, r, stop, k);
    StopReaches(isa, code, b, r, stop, b.len);
    assert k < stop ==> Refetched(code, b, r, k, PathAt(isa, code, b.start, k));
    RepairedRenews(isa, code, b, r, stop);
  }

  /** The repair broke off before entry k, which is then fetched on its own. */
  method RefetchEntry(isa: Isa, ghost starts: seq<Addr>, code: Code, ghost coherence: int, ghost b: Block, r: Block,
                      ghost stop: nat, k: nat, pc: Addr)
    returns (r': Block, ok: bool)
    requires BlockOk(isa, starts, b) && BlockOk(isa, starts, r) && stop < k < b.len && Repaired(isa, code, b, r, stop)
    ensures BlockOk(isa, starts, r')
    ensures r' == (if pc in code then UpdateEntry(isa, r, k, pc, code[pc]) else r)
    ensures Revalidated(isa, code, coherence, b, r', k, pc, ok, false)
  {
    StopReaches(isa, code, b, r, stop, k);
    StopReaches(isa, code, b, r, stop, b.len);
    RepairedRenews(isa, code, b, r, stop);
    r', ok := r, pc in code;
    if ok {
      UpdateKeeps(isa, starts, code, b, r, k, pc);
      r' := UpdateEntry(isa, r, k, pc, code[pc]);
    }
  }

  /** fetch_decode in a block that is not known to be up to date: check and repair it, then use entry k. */
  method RevalidateBlock(isa: Isa, ghost starts: seq<Addr>, code: Code, b: Block, k: nat, pc: Addr, coherence: int)
    returns (r: Block, ok: bool, coherent: bool)
    requires BlockOk(isa, starts, b) && k < b.len && b.coherence <= coherence
    ensures BlockOk(isa, starts, r)
    ensures Revalidated(isa, code, coherence, b, r, k, pc, ok, coherent)
    ensures Chained(isa, b) && pc == b.entries[k].pc ==>
              (Chained(isa, r) && r.entries[k].pc == pc <==> InPlace(isa, code, b, k))
  {
    assert forall i | 0 <= i < b.len :: EntryOk(isa, starts, b.entries[i]);
    var stop;
    r, stop := Repair(isa, code, b);
    RepairedBlockOk(isa, starts, code, b, r, stop);
    if stop < k {
      if Chained(isa, b) && pc == b.entries[k].pc {
        RefetchedChained(isa, code, b, r, stop, k);
      }
      r, ok := RefetchEntry(isa, starts, code, coherence, b, r, stop, k, pc);
      return r, ok, false;
    }
    if Chained(isa, b) {
      RevalidatedChained(isa, code, b, r, stop, k);
    }
    ok, coherent := k < stop, stop == b.len;
    if coherent {
      WholeRevalidated(isa, code, coherence, b, r, k, pc);
      SameStepsKeep(isa, r, r.(coherence := coherence));
      r := r.(coherence := coherence);
      assert BlockOk(isa, starts, r);
    } else {
      PartRevalidated(isa, code, coherence, b, r, stop, k, pc);
    }
  }

  /** A block that agrees with memory passes the check unchanged. */
  lemma {:induction false} RepairOfFresh(isa: Isa, code: Code, b: Block, r: Block, stop: nat)
    requires Framed(b) && Chained(isa, b) && Fresh(code, b) && Repaired(isa, code, b, r, stop)
    ensures r == b && stop == b.len
  {
    FreshPath(isa, code, b, b.len);
    StopReaches(isa, code, b, r, stop, b.len);
    forall i: nat | i < b.len ensures r.entries[i].memWord == b.entries[i].memWord {
      FreshPath(isa, code, b, i);
      assert Refetched(code, b, r, i, PathAt(isa, code, b.start, i));
    }
  }

  lemma {:induction false} FreshInPlace(isa: Isa, code: Code, b: Block, k: nat)
    requires Framed(b) && Chained(isa, b) && Fresh(code, b) && k < b.len
    ensures InPlace(isa, code, b, k) && Reaches(isa, code, b.start, b.len)
  {
    forall i: nat | i < b.len ensures b.entries[i].pc == PathAt(isa, code, b.start, i) {
      FreshPath(isa, code, b, i);
    }
    FreshPath(isa, code, b, b.len);
  }

  /** If no instruction changed its length, checking the block leaves every recorded pc right. */
  lemma {:induction false} LaidOutInPlace(isa: Isa, compressed: iset<Addr>, code: Code, b: Block, k: nat)
    requires Framed(b) && Chained(isa, b) && LaidOut(isa, compressed, b) && Conforms(isa, compressed, code) && k < b.len
    ensures InPlace(isa, code, b, k)
  {
    LaidOutLengths(isa, compressed, code, b);
    forall i: nat | i < b.len && Reaches(isa, code, b.start, i)
      ensures b.entries[i].pc == PathAt(isa, code, b.start, i)
    {
      LengthsPath(isa, code, b, i);
    }
    assert SameLength(isa, code, b, k);
    assert k + 1 < b.len ==> Follows(isa, b, k);
  }

  lemma RenewedLaidOut(isa: Isa, compressed: iset<Addr>, code: Code, b: Block, r: Block)
    requires 0 <= b.len < |b.entries| && LaidOut(isa, compressed, b) && Conforms(isa, compressed, code)
    requires 0 <= r.len && Renewed(code, b, r)
    ensures LaidOut(isa, compressed, r)
  {
  }

  /** A fully repaired block without misplaced entries agrees with memory. */
  lemma {:induction false} CoherentIsFresh(isa: Isa, code: Code, b: Block, r: Block)
    requires Framed(b) && Repaired(isa, code, b, r, b.len) && Chained(isa, r)
    ensures Fresh(code, r)
  {
    forall i: nat | i < b.len ensures r.entries[i].pc in code && code[r.entries[i].pc] == r.entries[i].memWord {
      RepairedPath(isa, code, b, r, b.len, i);
      assert Refetched(code, b, r, i, PathAt(isa, code, b.start, i));
    }
  }
}
