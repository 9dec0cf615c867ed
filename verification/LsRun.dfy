/**
  Whole runs: cached accesses behave like accesses that walk the page tables every time.
 */
module LsRun {
  import opened ByteMemory
  import opened Paging
  import opened MemoryPath
  import opened LsCache
  import opened InstrFetch

  /** An instruction fetch, or each half of one that crosses a page, is a DoFetch. */
  datatype Op =
    | DoFetch(a: int, n: nat)
    | DoLoad(a: int, n: nat, contended: bool)
    | DoStore(a: int, data: seq<bv8>, contended: bool)
    | DoFence(ctx: Context, mem: Mem, tables: iset<int>)
    | DoSwitch(ctx: Context)
    | DoEnable(on: bool)
    | DoOthers(mem: Mem, lock: Lock)

  /** The machine without caches, and where its page tables are. */
  datatype Ref = Ref(m: Machine, tables: iset<int>)

  /**
    Page tables are only changed by the accessed and dirty bits of walks, or together with a fence; control state that
    data accesses depend on only changes with a fence.
   */
  ghost predicate Legal(b: Bus, r: Ref, op: Op) {
    match op
    case DoStore(a, data, _) => Harmless(b, r.m, a, |data|, r.tables)
    case DoFence(ctx, mem, tables) => TablesOk(mem, ctx, tables)
    case DoSwitch(ctx) => SameData(r.m.ctx, ctx)
    case DoOthers(mem, _) => Older(r.m.mem, mem, r.m.ctx, r.tables)
    case _ => true
  }

  /**
    Every fetch and load is legal, and so is every store except one that writes into a page table entry; a change of
    the context without a fence has to leave alone what loads and stores depend on.
   */
  lemma LegalIff(b: Bus, r: Ref, op: Op)
    ensures op.DoFetch? || op.DoLoad? || op.DoEnable? ==> Legal(b, r, op)
    ensures op.DoStore? ==>
              var p := Translate(b, r.m, op.a, STORE).paddr;
              var size := if r.m.ctx.scheme == Sv32 then 4 else 8;
              Legal(b, r, op) <==>
                || r.m.ctx.scheme == Bare || p.None? || PageOf(p.value) !in b.dmi
                || forall slot | slot in r.tables :: p.value + |op.data| <= slot || slot + size <= p.value
    ensures op.DoSwitch? ==>
              (Legal(b, r, op) <==>
                 && op.ctx == r.m.ctx.(prv := op.ctx.prv, mprv := op.ctx.mprv, mpp := op.ctx.mpp)
                 && ModeOf(op.ctx, LOAD) == ModeOf(r.m.ctx, LOAD))
  {
  }

  /** Without caches. */
  ghost function Step(b: Bus, r: Ref, op: Op): (Outcome, Ref) {
    match op
    case DoFetch(a, n) => var x := Part(b, r.m, a, n); (x.out, r.(m := x.m))
    case DoLoad(a, n, _) => var x := MemoryPath.Load(b, r.m, a, n); (x.out, r.(m := x.m))
    case DoStore(a, data, _) => var x := MemoryPath.Store(b, r.m, a, data); (x.out, r.(m := x.m))
    case DoFence(ctx, mem, tables) => (Done, Ref(r.m.(ctx := ctx, mem := mem), tables))
    case DoSwitch(ctx) => (Done, r.(m := r.m.(ctx := ctx)))
    case DoEnable(_) => (Done, r)
    case DoOthers(mem, lock) => (Done, r.(m := r.m.(mem := mem, lock := lock)))
  }

  ghost predicate LegalRun(b: Bus, r: Ref, ops: seq<Op>)
    decreases |ops|
  {
    ops != [] ==> Legal(b, r, ops[0]) && LegalRun(b, Step(b, r, ops[0]).1, ops[1..])
  }

  ghost function Outcomes(b: Bus, r: Ref, ops: seq<Op>): seq<Outcome>
    decreases |ops|
  {
    if ops == [] then [] else [Step(b, r, ops[0]).0] + Outcomes(b, Step(b, r, ops[0]).1, ops[1..])
  }

  ghost function Final(b: Bus, r: Ref, ops: seq<Op>): Ref
    decreases |ops|
  {
    if ops == [] then r else Final(b, Step(b, r, ops[0]).1, ops[1..])
  }

  /** Instruction fetches share the translation look-aside buffer with loads and stores, and mark entries too. */
  method FetchShared(c: LSCache, a: int, n: nat) returns (out: Outcome)
    requires c.Valid()
    modifies c
    ensures c.Valid() && c.tables == old(c.tables) && Result(out, c.m) == Part(c.b, old(c.m), a, n)
  {
    var m', tlb';
    out, m', tlb' := FetchPart(c.b, c.m, c.tlb, a, n, c.tables);
    CacheStable(c.b, c.cache, c.m.mem, m'.mem, c.m.ctx, c.tables);
    c.m, c.tlb := m', tlb';
  }

  method Do(c: LSCache, op: Op) returns (out: Outcome)
    requires c.Valid() && Legal(c.b, Ref(c.m, c.tables), op)
    modifies c
    ensures c.Valid() && (out, Ref(c.m, c.tables)) == Step(c.b, old(Ref(c.m, c.tables)), op)
  {
    out := Done;
    match op
    case DoFetch(a, n) => out := FetchShared(c, a, n);
    case DoLoad(a, n, contended) => out := c.Load(a, n, contended);
    case DoStore(a, data, contended) => out := c.Store(a, data, contended);
    case DoFence(ctx, mem, tables) => c.FenceVma(ctx, mem, tables);
    case DoSwitch(ctx) => c.Switch(ctx);
    case DoEnable(on) => c.Enable(on);
    case DoOthers(mem, lock) => c.Others(mem, lock);
  }

  method Run(c: LSCache, ops: seq<Op>) returns (outs: seq<Outcome>)
    requires c.Valid() && LegalRun(c.b, Ref(c.m, c.tables), ops)
    modifies c
    ensures c.Valid() && outs == Outcomes(c.b, old(Ref(c.m, c.tables)), ops)
    ensures Ref(c.m, c.tables) == Final(c.b, old(Ref(c.m, c.tables)), ops)
    decreases |ops|
  {
    outs := [];
    if ops != [] {
      var out := Do(c, ops[0]);
      var rest := Run(c, ops[1..]);
      outs := [out] + rest;
    }
  }

  /**
    From empty caches, every legal run gives the same values, traps and bus transactions, and ends with the same
    memory and lock, as walking the page tables for every access.
   */
  method RunFromReset(b: Bus, m: Machine, enabled: bool, tables: iset<int>, ops: seq<Op>)
    returns (outs: seq<Outcome>, m': Machine)
    requires b.Valid() && TablesOk(m.mem, m.ctx, tables) && LegalRun(b, Ref(m, tables), ops)
    ensures outs == Outcomes(b, Ref(m, tables), ops) && m' == Final(b, Ref(m, tables), ops).m
  {
    var c := new LSCache(b, m, enabled, tables);
    outs := Run(c, ops);
    m' := c.m;
  }
}
