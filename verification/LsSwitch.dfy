/**
  Hits after the control state has changed without a fence: exactly when they are right, and a case in which they are not.
 */
module LsSwitch {
  import opened Wrappers
  import opened ByteMemory
  import opened Paging
  import opened MemoryPath
  import opened LsCache

  /** The n bytes at q are not part of a page table. */
  ghost predicate Apart(m: Machine, q: int, n: nat, tables: iset<int>) {
    m.ctx.scheme != Bare ==> Clear(q, n, DecodeVmInfo(m.ctx.scheme).ptesize, tables)
  }

  /** Whatever memory holds, page tables aside, reading at q is what an uncached load of `a` does. */
  ghost predicate LoadRight(b: Bus, m: Machine, a: int, n: nat, q: int, tables: iset<int>) {
    forall mem: Mem | Older(m.mem, mem, m.ctx, tables) ::
      MemoryPath.Load(b, m.(mem := mem), a, n) == Result(Value(LoadBytes(mem, q, n)), m.(mem := mem))
  }

  /** Whatever is stored, writing it at q is what an uncached store to `a` does. */
  ghost predicate StoreRight(b: Bus, m: Machine, a: int, n: nat, q: int) {
    forall data: seq<bv8> | |data| == n ::
      MemoryPath.Store(b, m, a, data) == Result(Done, m.(mem := StoreBytes(m.mem, q, data)))
  }

  // ---------------------------------------------------------------- telling two addresses apart

  function Zeros(n: nat): (s: seq<bv8>)
    ensures |s| == n && forall i | 0 <= i < n :: s[i] == 0
  {
    seq(n, _ => 0)
  }

  function OneFirst(n: nat): (s: seq<bv8>)
    requires n > 0
    ensures |s| == n && s[0] == 1 && forall i | 0 < i < n :: s[i] == 0
  {
    [1] + seq(n - 1, _ => 0)
  }

  /** Two addresses that always hold the same byte, whatever is stored at the one, are the same. */
  lemma SameByte(m: Mem, m0: Mem, m1: Mem, p: int, q: int, n: nat)
    requires n > 0 && m0 == StoreBytes(m, q, Zeros(n)) && m1 == StoreBytes(m, q, OneFirst(n))
    requires Byte(m0, p) == Byte(m0, q) && Byte(m1, p) == Byte(m1, q)
    ensures p == q
  {
  }

  /** Two stores that always have the same effect go to the same address. */
  lemma SameStore(m: Mem, m': Mem, p: int, q: int, n: nat)
    requires n > 0
    requires forall data: seq<bv8> | |data| == n :: StoreBytes(m', p, data) == StoreBytes(m, q, data)
    ensures p == q
  {
    var d0, d1 := Zeros(n), OneFirst(n);
    assert StoreBytes(m', p, d0) == StoreBytes(m, q, d0);
    assert StoreBytes(m', p, d1) == StoreBytes(m, q, d1);
    assert Byte(StoreBytes(m, q, d0), q) == 0 && Byte(StoreBytes(m, q, d1), q) == 1;
  }

  // ---------------------------------------------------------------- what is left to mark

  lemma FlagsChange(f: bv8, marks: bv8)
    requires f & marks != marks
    ensures f | marks != f
  {
  }

  /** A translation that leaves something to mark changes a byte of a page table. */
  lemma MarkingChanges(b: Bus, m: Machine, a: int, t: AccessType, tables: iset<int>)
    requires b.Valid() && TablesOk(m.mem, m.ctx, tables) && Translating(m.ctx, t)
    requires var w := b.Walk(Query(m.mem, m.ctx, PageOf(a), t, EffectiveMode(m.ctx, t))).w; w.Mapped? && !w.marked
    ensures exists x :: x in tables && Byte(Translate(b, m, a, t).m.mem, x) != Byte(m.mem, x)
  {
    var c, mode := m.ctx, EffectiveMode(m.ctx, t);
    var w := Paging.Walk(m.mem, c, PageOf(a), t, mode);
    SameAged(m.mem, DecodeVmInfo(c.scheme).ptesize, tables);
    WalkStable(m.mem, m.mem, c, PageOf(a), t, mode, tables);
    MarkedIffEntry(m.mem, c, PageOf(a), t, mode);
    MarkSlotBytes(m.mem, w.slot, t);
    FlagsChange(Byte(m.mem, w.slot), Marks(t));
    assert w.slot in tables;
  }

  // ---------------------------------------------------------------- loads

  /** A load that is right under one memory translates to some frame in host memory, with nothing to mark. */
  lemma LoadResolves(b: Bus, m: Machine, a: int, n: nat, q: int, tables: iset<int>) returns (p: int)
    requires b.Valid() && TablesOk(m.mem, m.ctx, tables)
    requires MemoryPath.Load(b, m, a, n) == Result(Value(LoadBytes(m.mem, q, n)), m)
    ensures p % PAGE == 0 && Serves(b, m.mem, m.ctx, PageOf(a), LOAD, p) && PageOf(p + Offset(a)) in b.dmi
  {
    var r := Translate(b, m, a, LOAD);
    p := r.paddr.value - Offset(a);
    assert PageOf(r.paddr.value) !in b.dmi ==> |MemoryPath.Load(b, m, a, n).m.log| == |m.log| + 1;
    if Translating(m.ctx, LOAD) {
      WalkKeeps(b, m.mem, m.ctx, PageOf(a), LOAD, EffectiveMode(m.ctx, LOAD), tables);
      var w := b.Walk(Query(m.mem, m.ctx, PageOf(a), LOAD, EffectiveMode(m.ctx, LOAD))).w;
      if !w.marked {
        MarkingChanges(b, m, a, LOAD, tables);
      }
    }
  }

  lemma FilledOlder(m: Machine, q: int, data: seq<bv8>, tables: iset<int>)
    requires Apart(m, q, |data|, tables)
    ensures Older(m.mem, StoreBytes(m.mem, q, data), m.ctx, tables)
  {
    if m.ctx.scheme != Bare {
      StoreAges(m.mem, q, data, DecodeVmInfo(m.ctx.scheme).ptesize, tables);
    }
  }

  /** Under every memory the two frames hold the same first byte. */
  lemma LoadBytesAgree(b: Bus, m: Machine, a: int, n: nat, p: int, q: int, tables: iset<int>, mem: Mem)
    requires b.Valid() && TablesOk(m.mem, m.ctx, tables) && LoadRight(b, m, a, n, q, tables) && n > 0
    requires p % PAGE == 0 && Serves(b, m.mem, m.ctx, PageOf(a), LOAD, p) && PageOf(p + Offset(a)) in b.dmi
    requires Older(m.mem, mem, m.ctx, tables)
    ensures Byte(mem, p + Offset(a)) == Byte(mem, q)
  {
    ServesStable(b, m.mem, mem, m.ctx, PageOf(a), LOAD, p, tables);
    HitIs(b, m.(mem := mem), a, LOAD, p);
    assert LoadBytes(mem, p + Offset(a), n)[0] == LoadBytes(mem, q, n)[0];
  }

  /**
    For any control state and any frame that a hit may use: the hit reads what an uncached load reads, whatever memory
    holds, if and only if the page now translates to that frame with nothing to mark.
   */
  lemma LoadHitIff(b: Bus, m: Machine, a: int, n: nat, frame: int, tables: iset<int>)
    requires b.Valid() && TablesOk(m.mem, m.ctx, tables) && n > 0
    requires frame % PAGE == 0 && PageOf(frame) in b.dmi && Apart(m, frame + Offset(a), n, tables)
    ensures LoadRight(b, m, a, n, frame + Offset(a), tables) <==> Serves(b, m.mem, m.ctx, PageOf(a), LOAD, frame)
  {
    var q := frame + Offset(a);
    if Serves(b, m.mem, m.ctx, PageOf(a), LOAD, frame) {
      forall mem: Mem | Older(m.mem, mem, m.ctx, tables)
        ensures MemoryPath.Load(b, m.(mem := mem), a, n) == Result(Value(LoadBytes(mem, q, n)), m.(mem := mem))
      {
        ServesStable(b, m.mem, mem, m.ctx, PageOf(a), LOAD, frame, tables);
        HitIs(b, m.(mem := mem), a, LOAD, frame);
      }
    }
    if LoadRight(b, m, a, n, q, tables) {
      OlderSame(m.mem, m.ctx, tables);
      assert m.(mem := m.mem) == m;
      var p := LoadResolves(b, m, a, n, q, tables);
      FilledOlder(m, q, Zeros(n), tables);
      FilledOlder(m, q, OneFirst(n), tables);
      LoadBytesAgree(b, m, a, n, p, q, tables, StoreBytes(m.mem, q, Zeros(n)));
      LoadBytesAgree(b, m, a, n, p, q, tables, StoreBytes(m.mem, q, OneFirst(n)));
      SameByte(m.mem, StoreBytes(m.mem, q, Zeros(n)), StoreBytes(m.mem, q, OneFirst(n)), p + Offset(a), q, n);
    }
  }

  // ---------------------------------------------------------------- stores

  /** Where a store that is right goes. */
  lemma StoreResolves(b: Bus, m: Machine, a: int, n: nat, q: int)
    requires n > 0 && m.lock == Free && StoreRight(b, m, a, n, q)
    ensures Translate(b, m, a, STORE).paddr == Some(q)
    ensures forall data: seq<bv8> | |data| == n :: StoreBytes(Translate(b, m, a, STORE).m.mem, q, data) == StoreBytes(m.mem, q, data)
  {
    var r := Translate(b, m, a, STORE);
    assert MemoryPath.Store(b, m, a, Zeros(n)) == Result(Done, m.(mem := StoreBytes(m.mem, q, Zeros(n))));
    assert r.m.log == m.log;
    var p := r.paddr.value;
    forall data: seq<bv8> | |data| == n ensures StoreBytes(r.m.mem, p, data) == StoreBytes(m.mem, q, data) {
      assert MemoryPath.Store(b, m, a, data) == Result(Done, m.(mem := StoreBytes(m.mem, q, data)));
    }
    SameStore(m.mem, r.m.mem, p, q, n);
  }

  /** The same for stores; that there is nothing to mark means that the dirty bit is set. */
  lemma StoreHitIff(b: Bus, m: Machine, a: int, n: nat, frame: int, tables: iset<int>)
    requires b.Valid() && TablesOk(m.mem, m.ctx, tables) && n > 0 && m.lock == Free
    requires frame % PAGE == 0 && PageOf(frame) in b.dmi && Apart(m, frame + Offset(a), n, tables)
    ensures StoreRight(b, m, a, n, frame + Offset(a)) <==> Serves(b, m.mem, m.ctx, PageOf(a), STORE, frame)
  {
    var q := frame + Offset(a);
    if Serves(b, m.mem, m.ctx, PageOf(a), STORE, frame) {
      HitIs(b, m, a, STORE, frame);
    }
    if StoreRight(b, m, a, n, q) {
      StoreResolves(b, m, a, n, q);
      if Translating(m.ctx, STORE) {
        NothingToMark(b, m, a, q, Zeros(n), tables);
      }
    }
  }

  lemma NothingToMark(b: Bus, m: Machine, a: int, q: int, data: seq<bv8>, tables: iset<int>)
    requires b.Valid() && TablesOk(m.mem, m.ctx, tables) && Translating(m.ctx, STORE) && Apart(m, q, |data|, tables)
    requires Translate(b, m, a, STORE).paddr.Some?
    requires StoreBytes(Translate(b, m, a, STORE).m.mem, q, data) == StoreBytes(m.mem, q, data)
    ensures b.Walk(Query(m.mem, m.ctx, PageOf(a), STORE, EffectiveMode(m.ctx, STORE))).w.marked
  {
    var r := Translate(b, m, a, STORE);
    forall x | x in tables ensures Byte(r.m.mem, x) == Byte(m.mem, x) {
      assert Byte(StoreBytes(r.m.mem, q, data), x) == Byte(StoreBytes(m.mem, q, data), x);
    }
    if !b.Walk(Query(m.mem, m.ctx, PageOf(a), STORE, EffectiveMode(m.ctx, STORE))).w.marked {
      MarkingChanges(b, m, a, STORE, tables);
    }
  }

  // ---------------------------------------------------------------- a change of control state without a fence

  /** A load that hits in a right cache after the control state has changed to anything else, without a fence. */
  method LoadAfterSwitch(c: LSCache, ctx: Context, a: int, n: nat, ghost tables: iset<int>) returns (out: Outcome)
    requires c.Valid() && c.HitsLoad(a) && n > 0
    requires TablesOk(c.m.mem, ctx, tables) && Apart(c.m.(ctx := ctx), c.HostAddr(a), n, tables)
    modifies c
    ensures c.m == old(c.m).(ctx := ctx) && c.HitsLoad(a)
    ensures out == Value(LoadBytes(c.m.mem, c.HostAddr(a), n))
    ensures LoadRight(c.b, c.m, a, n, c.HostAddr(a), tables) <==>
            Serves(c.b, c.m.mem, ctx, PageOf(a), LOAD, c.HostAddr(a) - Offset(a))
  {
    LoadHitIff(c.b, c.m.(ctx := ctx), a, n, c.HostAddr(a) - Offset(a), tables);
    c.SetContext(ctx);
    out := c.LoadHit(a, n);
  }

  /** The same for a store. */
  method StoreAfterSwitch(c: LSCache, ctx: Context, a: int, data: seq<bv8>, ghost tables: iset<int>)
    requires c.Valid() && c.HitsStore(a) && c.m.lock == Free && |data| > 0
    requires TablesOk(c.m.mem, ctx, tables) && Apart(c.m.(ctx := ctx), c.HostAddr(a), |data|, tables)
    modifies c
    ensures c.HitsStore(a) && c.m == old(c.m).(ctx := ctx, mem := StoreBytes(old(c.m.mem), c.HostAddr(a), data))
    ensures StoreRight(c.b, old(c.m).(ctx := ctx), a, |data|, c.HostAddr(a)) <==>
            Serves(c.b, old(c.m.mem), ctx, PageOf(a), STORE, c.HostAddr(a) - Offset(a))
  {
    StoreHitIff(c.b, c.m.(ctx := ctx), a, |data|, c.HostAddr(a) - Offset(a), tables);
    c.SetContext(ctx);
    c.StoreHit(a, data);
  }

  /** Machine mode, with an empty root table at address 0 for the other modes. */
  const MACHINE := Context(Sv39, 0, MachineMode, false, MachineMode, false, false, 64, false)
  const SUPERVISOR := MACHINE.(prv := SupervisorMode)

  /** The slots of that table. */
  ghost const ROOT_TABLE := iset s | 0 <= s < PAGE && s % 8 == 0

  lemma EmptyClosed(c: Context)
    requires c == MACHINE || c == SUPERVISOR
    ensures TablesOk(map[], c, ROOT_TABLE)
  {
    forall s | s in ROOT_TABLE ensures !LoadPte(map[], s, 8).IsPointer() {
      assert LoadPte(map[], s, 8).flags == 0;
    }
  }

  /** Nothing is mapped, whatever is stored outside the table. */
  lemma NothingMapped(b: Bus, mem: Mem, a: int, t: AccessType)
    requires b.Valid() && Older(map[], mem, SUPERVISOR, ROOT_TABLE)
    ensures b.Walk(Query(mem, SUPERVISOR, PageOf(a), t, SupervisorMode)).w == Fault
  {
    EmptyClosed(SUPERVISOR);
    assert Paging.Walk(map[], SUPERVISOR, PageOf(a), t, SupervisorMode) == Fault;
    AnswersStable(b, map[], mem, SUPERVISOR, PageOf(a), t, SupervisorMode, ROOT_TABLE);
  }

  lemma PageApart(a: int, n: nat)
    requires a >= PAGE
    ensures Clear(a, n, 8, ROOT_TABLE)
  {
    forall s | s in ROOT_TABLE ensures s + 8 <= a {
    }
  }

  /** The cache after a store in machine mode. */
  method StoreInMachineMode(b: Bus, a: int, data: seq<bv8>) returns (c: LSCache)
    requires b.Valid() && PageOf(a) in b.dmi && a >= PAGE
    ensures fresh(c) && c.b == b && c.m == Machine(StoreBytes(map[], a, data), MACHINE, Free, [])
    ensures c.HitsStore(a) && c.HostAddr(a) == a
  {
    EmptyClosed(MACHINE);
    PageApart(a, |data|);
    c := new LSCache(b, Machine(map[], MACHINE, Free, []), true, ROOT_TABLE);
    var out := c.Store(a, data, false);
  }

  /**
    From reset: a page that a store in machine mode left in the cache serves loads and stores in supervisor mode,
    although the walk faults because the page is not mapped.
   */
  method SwitchNeedsFence(b: Bus, a: int, data: seq<bv8>, more: seq<bv8>) returns (out: Outcome, m: Machine, m': Machine)
    requires b.Valid() && PageOf(a) in b.dmi && a >= PAGE
    ensures m == Machine(StoreBytes(map[], a, data), SUPERVISOR, Free, [])
    ensures out == Value(data) && MemoryPath.Load(b, m, a, |data|) == Result(Trap(LOAD, a), m)
    ensures m' == m.(mem := StoreBytes(m.mem, a, more)) && MemoryPath.Store(b, m, a, more) == Result(Trap(STORE, a), m)
  {
    var c := StoreInMachineMode(b, a, data);
    c.SetContext(SUPERVISOR);
    m := c.m;
    out := c.LoadHit(a, |data|);
    assert LoadBytes(m.mem, a, |data|) == data;
    c.StoreHit(a, more);
    m' := c.m;
    PageApart(a, |data|);
    StoreAges(map[], a, data, 8, ROOT_TABLE);
    NothingMapped(b, m.mem, a, LOAD);
    NothingMapped(b, m.mem, a, STORE);
  }
}
