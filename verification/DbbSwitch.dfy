/**
  Instruction fetches after the mode has changed without a fence: the cache delivers what was recorded, although the
  page tables may now lead to other code or to none.
 */
module DbbSwitch {
  import Bits
  import opened ByteMemory
  import opened Wrappers
  import opened DbbSpec
  import opened DbbBlock
  import opened DbbGraph
  import opened DbbCache
  import opened DbbRun
  import opened DbbChanged
  import P = Paging
  import M = MemoryPath
  import L = LsCache
  import I = InstrFetch
  import S = LsSwitch

  // ---------------------------------------------------------------- code that a mode can see

  /** Physical address of byte k of the instruction at `a`, if it has one. */
  ghost function ByteAddr(b: M.Bus, m: M.Machine, a: Addr, k: int): int {
    var p := M.Translate(b, m, (a + k) % Bits.TWO64, P.FETCH).paddr;
    if p.Some? then p.value else 0
  }

  /** The byte translates to ordinary memory. */
  ghost predicate SeenByte(b: M.Bus, m: M.Machine, a: Addr, k: int, tables: iset<int>) {
    I.ByteAt(b, m, (a + k) % Bits.TWO64, ByteAddr(b, m, a, k), tables)
  }

  /** All four bytes do. */
  ghost predicate Seen(b: M.Bus, m: M.Machine, a: Addr, tables: iset<int>) {
    0 <= a < Bits.TWO64 && a % 2 == 0 && forall k {:trigger SeenByte(b, m, a, k, tables)} | 0 <= k < 4 :: SeenByte(b, m, a, k, tables)
  }

  ghost function ByteAddrs(b: M.Bus, m: M.Machine, a: Addr): seq<int> {
    [ByteAddr(b, m, a, 0), ByteAddr(b, m, a, 1), ByteAddr(b, m, a, 2), ByteAddr(b, m, a, 3)]
  }

  ghost function WordAt(mem: Mem, p: seq<int>): Word
    requires |p| == 4
  {
    LittleEndian([Byte(mem, p[0]), Byte(mem, p[1]), Byte(mem, p[2]), Byte(mem, p[3])])
  }

  /** The code that fetches see in the present mode, with the present page tables. */
  ghost function CodeSeen(b: M.Bus, m: M.Machine, tables: iset<int>): Code {
    imap a: Addr | Seen(b, m, a, tables) :: WordAt(m.mem, ByteAddrs(b, m, a))
  }

  /** It is what load_instr loads, across pages and in either order of the halves. */
  method LoadSeen(b: M.Bus, m: M.Machine, tlb: L.Tlb, a: Addr, highFirst: bool, ghost tables: iset<int>)
    returns (out: M.Outcome, m': M.Machine, tlb': L.Tlb)
    requires b.Valid() && M.TablesOk(m.mem, m.ctx, tables) && L.TlbOk(b, tlb, m.mem, m.ctx)
    requires a in CodeSeen(b, m, tables)
    ensures L.TlbOk(b, tlb', m'.mem, m.ctx)
    ensures out.Value? && LittleEndian(out.data) == CodeSeen(b, m, tables)[a]
  {
    SeenAt(b, m, a, tables);
    out, m', tlb' := I.LoadInstr(b, m, tlb, a, highFirst, tables);
  }

  lemma SeenAt(b: M.Bus, m: M.Machine, a: Addr, tables: iset<int>)
    requires Seen(b, m, a, tables)
    ensures I.BytesAt(b, m, a, ByteAddrs(b, m, a), tables)
  {
    var p := ByteAddrs(b, m, a);
    forall k | 0 <= k < 4 ensures I.ByteAt(b, m, (a + k) % Bits.TWO64, p[k], tables) {
      assert SeenByte(b, m, a, k, tables) && p[k] == ByteAddr(b, m, a, k);
    }
  }

  // ---------------------------------------------------------------- fetching without a fence

  /** The entry that the next fetch will use. */
  ghost function NextOf(c: DBBCache): Entry
    reads c
    requires c.Valid() && c.FromCache()
  {
    c.g.blocks[c.at.block].entries[c.at.Pos() + 1]
  }

  /** Entry `e` is in execution. */
  ghost predicate Runs(c: DBBCache, e: Entry)
    reads c
    requires c.Valid()
  {
    c.stage.Executing? && c.Abs() == View(c.isa.Next(e.pc, e.memWord), InInstr(e.pc, e.memWord))
  }

  method MediumCached(c: DBBCache) returns (d: Dispatch)
    requires c.Valid() && !c.stage.FetchFailed? && c.FromCache()
    modifies c
    ensures c.Valid() && c.code == old(c.code) && Runs(c, old(NextOf(c))) && d == DispatchOf(c.isa, old(NextOf(c)).memWord)
  {
    var pc := c.GetPcMaybeAfterCallback();
    var r := c.FetchDecode(pc);
    d := Dispatch(r.opLabel, r.instr);
  }

  method FastCached(c: DBBCache) returns (ok: bool, d: Dispatch)
    requires c.Valid() && !c.stage.FetchFailed? && c.FromCache()
    modifies c
    ensures c.Valid() && c.code == old(c.code)
    ensures ok ==> Runs(c, old(NextOf(c))) && d == DispatchOf(c.isa, old(NextOf(c)).memWord)
    ensures !ok ==> !c.stage.FetchFailed? && c.FromCache() && NextOf(c) == old(NextOf(c)) && c.Abs() == old(c.Abs())
  {
    var opLabel, instr := c.FetchDecodeFast();
    ok, d := opLabel != Abort, Dispatch(opLabel, instr);
    if !ok {
      c.AbortFetchDecodeFast();
    }
  }

  /**
    The code has changed to anything, without a fence, and the next instruction is served from the cache.  What is
    delivered is the recorded entry, and that is what an uncached fetch delivers if and only if the entry lies at the
    pc and agrees with the new code.
   */
  method FetchUnfenced(c: DBBCache, newCode: Code, tryFast: bool) returns (d: Dispatch)
    requires c.Valid() && !c.stage.FetchFailed? && c.FromCache()
    modifies c
    ensures c.Valid() && c.code == newCode && Runs(c, old(NextOf(c))) && d == DispatchOf(c.isa, old(NextOf(c)).memWord)
    ensures var e := old(NextOf(c));
            c.Abs() == old(c.Abs()).Fetch(c.isa, newCode) <==>
            e.pc == old(c.Abs()).pc && e.pc in newCode && newCode[e.pc] == e.memWord
  {
    c.ChangeCode(newCode);
    if tryFast {
      var ok;
      ok, d := FastCached(c);
      if ok {
        return;
      }
    }
    d := MediumCached(c);
  }

  // ---------------------------------------------------------------- a run from reset

  /** With an empty root table supervisor mode sees no code at all. */
  lemma NothingSeen(b: M.Bus, mem: Mem, lock: M.Lock, log: seq<M.Transfer>)
    requires b.Valid() && M.Older(map[], mem, S.SUPERVISOR, S.ROOT_TABLE)
    ensures CodeSeen(b, M.Machine(mem, S.SUPERVISOR, lock, log), S.ROOT_TABLE) == imap[]
  {
    var m := M.Machine(mem, S.SUPERVISOR, lock, log);
    forall a: Addr ensures !Seen(b, m, a, S.ROOT_TABLE) {
      S.NothingMapped(b, mem, (a + 0) % Bits.TWO64, P.FETCH);
      assert !SeenByte(b, m, a, 0, S.ROOT_TABLE);
    }
  }

  /** The code at `a` has been run and is current. */
  ghost predicate Recorded(c: DBBCache, id: BlockId, a: Addr, w: Word)
    reads c
  {
    && c.Valid() && c.enabled && 0 < id < |c.g.blocks| && c.g.blocks[id].coherence == c.g.coherence
    && var b := c.g.blocks[id]; 0 < b.len < |b.entries| && b.start == a && b.entries[0].memWord == w
  }

  method RunInMachineMode(isa: Isa, code: Code, a: Addr) returns (c: DBBCache, ghost id: BlockId)
    requires a in code
    ensures fresh(c) && c.isa == isa && Recorded(c, id, a, code[a]) && c.stage.Executing?
  {
    c := new DBBCache(true, isa, code, a);
    id := c.at.block;
    assert BlockIn(isa, c.starts, c.g.blocks, c.g.coherence, id);
    var r := c.FetchDecode(a);
    assert BlockIn(isa, c.starts, c.g.blocks, c.g.coherence, id) && Fresh(code, c.g.blocks[id]);
  }

  /** Return to `x` in a mode that sees no code: the fetch there fails. */
  method ReturnAstray(c: DBBCache, ghost id: BlockId, ghost a: Addr, ghost w: Word, x: Addr)
    requires Recorded(c, id, a, w) && c.stage.Executing?
    modifies c
    ensures Recorded(c, id, a, w) && c.code == imap[] && c.stage.FetchFailed?
  {
    ghost var before := c.g.blocks;
    c.ChangeCode(imap[]);
    c.RetTrap(x);
    assert SameButLinks(before[id], c.g.blocks[id]);
    var r := c.FetchDecode(x);
  }

  /** The trap handler is at `a`. */
  method TrapTo(c: DBBCache, ghost id: BlockId, a: Addr, ghost w: Word)
    requires Recorded(c, id, a, w) && a != INVALID_PC
    modifies c
    ensures c.Valid() && c.code == old(c.code) && c.stage.BeforeFetch? && c.FromCache() && NextOf(c).memWord == w
  {
    ghost var g, starts := c.g, c.starts;
    c.EnterTrap(a);
    assert BlockIn(c.isa, c.starts, c.g.blocks, c.g.coherence, c.at.block);
    Revisits(c.isa, starts, g, c.starts, c.g, c.at.block, a);
    assert SameButLinks(g.blocks[id], c.g.blocks[id]);
  }

  /**
    From reset: code at `a` is run in machine mode, a return leads to supervisor mode, where nothing is mapped, the
    fetch there faults, and the trap handler is at `a`.  Its instruction is delivered although fetching it would fault.
   */
  method ModeNeedsFence(b: M.Bus, mem: Mem, isa: Isa, code: Code, a: Addr, x: Addr, tryFast: bool) returns (d: Dispatch)
    requires b.Valid() && M.Older(map[], mem, S.SUPERVISOR, S.ROOT_TABLE)
    requires code == CodeSeen(b, M.Machine(mem, S.MACHINE, M.Free, []), S.ROOT_TABLE) && a in code
    ensures d == DispatchOf(isa, code[a])
    ensures a !in CodeSeen(b, M.Machine(mem, S.SUPERVISOR, M.Free, []), S.ROOT_TABLE)
  {
    var c, id := RunInMachineMode(isa, code, a);
    ReturnAstray(c, id, a, code[a], x);
    TrapTo(c, id, a, code[a]);
    d := FetchUnfenced(c, imap[], tryFast);
    NothingSeen(b, mem, M.Free, []);
  }
}
