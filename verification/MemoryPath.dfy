/**
  Data accesses without any caching: every access walks the page tables. This is what the cached accesses have to
  agree with.
 */
module MemoryPath {
  import opened Wrappers
  import opened Bits
  import opened ByteMemory
  import opened Paging
  import opened PageWalk

  /** The bus lock, as one hart sees it. */
  datatype Lock = Free | Own | Other

  /** A bus transaction to something that is not directly accessible memory. */
  datatype Transfer = Read(addr: int, n: nat) | Write(addr: int, data: seq<bv8>)

  datatype Query = Query(mem: Mem, ctx: Context, vpn: int, t: AccessType, mode: Mode)

  /** Result of a walk, and memory after it. */
  datatype Step = Step(w: Walked, mem: Mem)

  /**
    Host-backed pages, how the bus answers to a history of transactions (None is an error response), and what the
    page walk answers.
   */
  datatype Bus = Bus(dmi: iset<int>, responses: imap<seq<Transfer>, Option<seq<bv8>>>, walks: imap<Query, Step>) {
    function Response(log: seq<Transfer>): Option<seq<bv8>> { if log in responses then responses[log] else None }

    function Walk(q: Query): Step { if q in walks then walks[q] else Step(Fault, q.mem) }

    /** The page walk is the one in memory. */
    ghost predicate Valid() {
      forall m, c, vpn, t, mode {:trigger Paging.Walk(m, c, vpn, t, mode)} ::
        var w := Paging.Walk(m, c, vpn, t, mode);
        Walk(Query(m, c, vpn, t, mode)) == Step(w, AfterWalk(m, w, t))
    }
  }

  /** Such a bus exists for any memory map and any devices. */
  ghost function RealBus(dmi: iset<int>, responses: imap<seq<Transfer>, Option<seq<bv8>>>): (b: Bus)
    ensures b.Valid() && b.dmi == dmi && b.responses == responses
  {
    Bus(dmi, responses, imap q: Query | true :: var w := Paging.Walk(q.mem, q.ctx, q.vpn, q.t, q.mode); Step(w, AfterWalk(q.mem, w, q.t)))
  }

  /** MMU_T::walk answers the query. */
  method WalkQuery(b: Bus, q: Query) returns (s: Step)
    requires b.Valid()
    ensures s == b.Walk(q)
  {
    assert q.vpn * PAGE / PAGE == q.vpn;
    var w, mem := WalkTables(q.mem, q.ctx, q.vpn * PAGE, q.t, q.mode);
    s := Step(w, mem);
  }

  datatype Machine = Machine(mem: Mem, ctx: Context, lock: Lock, log: seq<Transfer>) {
    /** A store to memory releases the lock if this hart has it. */
    function Unlock(): Machine { if lock == Own then this.(lock := Free) else this }
  }

  datatype Outcome = Trap(t: AccessType, addr: int) | Value(data: seq<bv8>) | Done

  function EffectiveMode(c: Context, t: AccessType): Mode { if t != FETCH && c.mprv then c.mpp else c.prv }

  predicate Translating(c: Context, t: AccessType) { c.scheme != Bare && EffectiveMode(c, t) != MachineMode }

  function PageOf(a: int): int { a / PAGE }

  function Offset(a: int): int { a % PAGE }

  /** Physical address, and the machine after the walk. */
  datatype Translated = Translated(paddr: Option<int>, m: Machine)

  /** v2p, by a fresh walk; writing back accessed and dirty bits is a store, which releases the lock. */
  function Translate(b: Bus, m: Machine, a: int, t: AccessType): Translated {
    if !Translating(m.ctx, t) then Translated(Some(a), m)
    else
      match b.Walk(Query(m.mem, m.ctx, PageOf(a), t, EffectiveMode(m.ctx, t)))
      case Step(Fault, _) => Translated(None, m)
      case Step(Mapped(frame, _, marked), mem) =>
        Translated(Some(frame + Offset(a)), if marked then m else m.(mem := mem).Unlock())
  }

  datatype Result = Result(out: Outcome, m: Machine)

  /** _raw_load_data, for a load or a fetch. */
  function RawLoad(b: Bus, m: Machine, p: int, n: nat): Result {
    if PageOf(p) in b.dmi then Result(Value(LoadBytes(m.mem, p, n)), m)
    else
      var log := m.log + [Read(p, n)];
      match b.Response(log)
      case Some(data) => Result(Value(data), m.(log := log))
      case None => Result(Trap(LOAD, p), m.(log := log))
  }

  /** _raw_store_data: a failed transaction leaves the lock alone. */
  function RawStore(b: Bus, m: Machine, p: int, data: seq<bv8>): Result {
    if PageOf(p) in b.dmi then Result(Done, m.(mem := StoreBytes(m.mem, p, data)).Unlock())
    else
      var log := m.log + [Write(p, data)];
      match b.Response(log)
      case Some(_) => Result(Done, m.(log := log).Unlock())
      case None => Result(Trap(STORE, p), m.(log := log))
  }

  function Load(b: Bus, m: Machine, a: int, n: nat): Result {
    var r := Translate(b, m, a, LOAD);
    match r.paddr
    case None => Result(Trap(LOAD, a), r.m)
    case Some(p) => RawLoad(b, r.m, p, n)
  }

  function Store(b: Bus, m: Machine, a: int, data: seq<bv8>): Result {
    var r := Translate(b, m, a, STORE);
    match r.paddr
    case None => Result(Trap(STORE, a), r.m)
    case Some(p) => RawStore(b, r.m, p, data)
  }

  // ---------------------------------------------------------------- what a translation means

  /** The privilege an access has: with MPRV, loads and stores have the one in MPP. */
  function ModeOf(c: Context, t: AccessType): Mode {
    match t
    case FETCH => c.prv
    case _ => if c.mprv then c.mpp else c.prv
  }

  /** The physical address, from the words in memory at the end of a path. */
  ghost predicate Located(m: Machine, a: int, t: AccessType, path: seq<int>, r: Translated)
    requires 0 < |path| <= Levels(m.ctx.scheme)
  {
    var s, slot, i := m.ctx.scheme, path[|path| - 1], Levels(m.ctx.scheme) - |path|;
    && r.paddr == Some((Entry(m.mem, s, slot) / 0x400 * 0x1000 + a % Pow2(12 + i * IndexBits(s))) % TWO64)
    && Recorded(m.mem, s, slot, t, r.m.mem)
  }

  /** A translation is a walk, and the offset within the page. */
  lemma TranslateIs(b: Bus, m: Machine, a: int, t: AccessType, s: Step)
    requires m.ctx.scheme != Bare && ModeOf(m.ctx, t) != MachineMode
    requires s == b.Walk(Query(m.mem, m.ctx, a / PAGE, t, ModeOf(m.ctx, t))) && s.mem == AfterWalk(m.mem, s.w, t)
    ensures var r := Translate(b, m, a, t);
            && r.paddr == (if s.w.Fault? then None else Some(s.w.frame + a % 0x1000))
            && r.m.mem == s.mem && (s.w.Fault? ==> r.m == m)
  {
  }

  lemma BusWalks(b: Bus, m: Machine, a: int, t: AccessType, mode: Mode) returns (s: Step)
    requires b.Valid()
    ensures s == b.Walk(Query(m.mem, m.ctx, a / PAGE, t, mode)) && s.mem == AfterWalk(m.mem, s.w, t)
    ensures Walks(m.mem, m.ctx, a, t, mode, s.w, s.mem)
  {
    var w := Paging.Walk(m.mem, m.ctx, a / PAGE, t, mode);
    s := Step(w, AfterWalk(m.mem, w, t));
    WalkMeans(m.mem, m.ctx, a, t, mode, w, s.mem);
  }

  lemma YieldsLocated(m: Machine, a: int, t: AccessType, path: seq<int>, w: Walked, r: Translated)
    requires 0 < |path| <= Levels(m.ctx.scheme)
    requires Yields(m.mem, m.ctx, path[|path| - 1], Levels(m.ctx.scheme) - |path|, a, t, w, r.m.mem)
    requires r.paddr == Some(w.frame + a % 0x1000)
    ensures Located(m, a, t, path, r)
  {
  }

  /** There is a physical address exactly if there is a path, and it is the one at its end. */
  ghost predicate Resolved(m: Machine, a: int, t: AccessType, mode: Mode, r: Translated) {
    && (r.paddr.Some? <==> exists path :: Translates(m.mem, m.ctx, a, t, mode, path))
    && (forall path | Translates(m.mem, m.ctx, a, t, mode, path) :: Located(m, a, t, path, r))
    && (r.paddr.None? ==> r.m == m)
  }

  lemma WalksResolved(m: Machine, a: int, t: AccessType, mode: Mode, w: Walked, r: Translated)
    requires Walks(m.mem, m.ctx, a, t, mode, w, r.m.mem)
    requires r.paddr == (if w.Fault? then None else Some(w.frame + a % 0x1000)) && (w.Fault? ==> r.m == m)
    ensures Resolved(m, a, t, mode, r)
  {
    forall path | Translates(m.mem, m.ctx, a, t, mode, path)
      ensures Located(m, a, t, path, r)
    {
      YieldsLocated(m, a, t, path, w, r);
    }
  }

  /**
    In machine mode and without paging an address is physical; otherwise there is a physical address exactly if there
    is a path in the page tables that grants the access to the mode in question.
   */
  lemma TranslateMeans(b: Bus, m: Machine, a: int, t: AccessType)
    requires b.Valid()
    ensures var mode, r := ModeOf(m.ctx, t), Translate(b, m, a, t);
            if m.ctx.scheme == Bare || mode == MachineMode then r == Translated(Some(a), m) else Resolved(m, a, t, mode, r)
  {
    var mode := ModeOf(m.ctx, t);
    if m.ctx.scheme != Bare && mode != MachineMode {
      var s := BusWalks(b, m, a, t, mode);
      TranslateIs(b, m, a, t, s);
      WalksResolved(m, a, t, mode, s.w, Translate(b, m, a, t));
    }
  }

  // ---------------------------------------------------------------- bus transactions and the lock

  /** The translation has to write accessed or dirty bits. */
  predicate HasToMark(b: Bus, m: Machine, a: int, t: AccessType) {
    && Translating(m.ctx, t)
    && var w := b.Walk(Query(m.mem, m.ctx, PageOf(a), t, EffectiveMode(m.ctx, t))).w; w.Mapped? && !w.marked
  }

  /** The lock after an access that stored something, or not. */
  function LockAfter(lock: Lock, stored: bool): Lock { if stored && lock == Own then Free else lock }

  /** A translation is no bus transaction, and only releases the lock if it has to write. */
  lemma TranslateEffects(b: Bus, m: Machine, a: int, t: AccessType)
    ensures var r := Translate(b, m, a, t).m;
            r.log == m.log && r.ctx == m.ctx && r.lock == LockAfter(m.lock, HasToMark(b, m, a, t))
            && (!HasToMark(b, m, a, t) ==> r.mem == m.mem)
  {
  }

  /**
    A load reads memory that is directly accessible; anything else is one bus transaction, with the physical address
    and the size of the access, whose response is the value or the trap.  It writes nothing itself and keeps the lock.
   */
  lemma LoadEffects(b: Bus, m: Machine, a: int, n: nat)
    ensures var p, before, r := Translate(b, m, a, LOAD).paddr, Translate(b, m, a, LOAD).m, Load(b, m, a, n);
            && r.m == before.(log := r.m.log)
            && r.m.lock == LockAfter(m.lock, HasToMark(b, m, a, LOAD))
            && (p.None? ==> r.out == Trap(LOAD, a) && r.m.log == m.log)
            && (p.Some? && PageOf(p.value) in b.dmi ==> r.m.log == m.log && r.out == Value(LoadBytes(before.mem, p.value, n)))
            && (p.Some? && PageOf(p.value) !in b.dmi ==>
                  && r.m.log == m.log + [Read(p.value, n)]
                  && (b.Response(r.m.log).Some? ==> r.out == Value(b.Response(r.m.log).value))
                  && (b.Response(r.m.log).None? ==> r.out == Trap(LOAD, p.value)))
  {
    TranslateEffects(b, m, a, LOAD);
  }

  /**
    A store changes memory that is directly accessible, byte by byte; anything else is one bus transaction, with the
    physical address and the bytes given, and leaves memory alone.  The lock is released unless that fails.
   */
  lemma StoreEffects(b: Bus, m: Machine, a: int, data: seq<bv8>)
    ensures var p, before, r := Translate(b, m, a, STORE).paddr, Translate(b, m, a, STORE).m, Store(b, m, a, data);
            && r.m.ctx == m.ctx && (r.out.Trap? || r.out == Done)
            && r.m.lock == LockAfter(m.lock, HasToMark(b, m, a, STORE) || r.out == Done)
            && (p.None? ==> r.out == Trap(STORE, a) && r.m.log == m.log && r.m.mem == before.mem)
            && (p.Some? && PageOf(p.value) in b.dmi ==>
                  && r.out == Done && r.m.log == m.log
                  && forall x :: Byte(r.m.mem, x) ==
                                 if p.value <= x < p.value + |data| then data[x - p.value] else Byte(before.mem, x))
            && (p.Some? && PageOf(p.value) !in b.dmi ==>
                  && r.m.log == m.log + [Write(p.value, data)] && r.m.mem == before.mem
                  && r.out == if b.Response(r.m.log).Some? then Done else Trap(STORE, p.value))
  {
    TranslateEffects(b, m, a, STORE);
  }

  // ---------------------------------------------------------------- what stays true

  /** The tables contain all page tables, unless there are none. */
  ghost predicate TablesOk(mem: Mem, c: Context, tables: iset<int>) {
    c.root % PAGE == 0 && (c.scheme != Bare ==> Closed(mem, c, tables))
  }

  ghost predicate Older(mem: Mem, mem': Mem, c: Context, tables: iset<int>) {
    c.scheme != Bare ==> Aged(mem, mem', DecodeVmInfo(c.scheme).ptesize, tables)
  }

  /** A store does not write to the page tables. */
  ghost predicate Harmless(b: Bus, m: Machine, a: int, n: nat, tables: iset<int>) {
    var p := Translate(b, m, a, STORE).paddr;
    m.ctx.scheme != Bare && p.Some? && PageOf(p.value) in b.dmi ==>
      Clear(p.value, n, DecodeVmInfo(m.ctx.scheme).ptesize, tables)
  }

  /** A fresh translation of the page would give this frame and write nothing. */
  ghost predicate Resolves(b: Bus, mem: Mem, c: Context, vpn: int, t: AccessType, mode: Mode, frame: int) {
    var w := b.Walk(Query(mem, c, vpn, t, mode)).w;
    w.Mapped? && w.marked && w.frame == frame
  }

  lemma ResolvesStable(b: Bus, mem: Mem, mem': Mem, c: Context, vpn: int, t: AccessType, mode: Mode, frame: int, tables: iset<int>)
    requires b.Valid() && c.scheme != Bare && TablesOk(mem, c, tables) && Older(mem, mem', c, tables)
    requires Resolves(b, mem, c, vpn, t, mode, frame)
    ensures Resolves(b, mem', c, vpn, t, mode, frame)
  {
    WalkStable(mem, mem', c, vpn, t, mode, tables);
  }

  /** A walk only ages the tables, and a walk right after it has nothing to write. */
  lemma WalkKeeps(b: Bus, mem: Mem, c: Context, vpn: int, t: AccessType, mode: Mode, tables: iset<int>)
    requires b.Valid() && c.scheme != Bare && TablesOk(mem, c, tables)
    ensures var s := b.Walk(Query(mem, c, vpn, t, mode));
            && Older(mem, s.mem, c, tables) && TablesOk(s.mem, c, tables)
            && (s.w.Mapped? ==> Resolves(b, s.mem, c, vpn, t, mode, s.w.frame) && (s.w.marked ==> s.mem == mem))
            && (s.w.Mapped? ==> s.w.frame % PAGE == 0)
  {
    FrameAligned(mem, c, vpn, t, mode);
    WalkAgain(mem, c, vpn, t, mode, tables);
    ClosedStable(mem, AfterWalk(mem, Paging.Walk(mem, c, vpn, t, mode), t), c, tables);
  }

  lemma StoreResolvesLoad(b: Bus, mem: Mem, c: Context, vpn: int, mode: Mode, frame: int)
    requires b.Valid() && Resolves(b, mem, c, vpn, STORE, mode, frame)
    ensures Resolves(b, mem, c, vpn, LOAD, mode, frame)
  {
    StoreImpliesLoad(mem, c, vpn, mode);
  }

  /** Privilege only matters through the mode that is asked for. */
  lemma WalkIgnoresPrivilege(b: Bus, mem: Mem, c: Context, c': Context, vpn: int, t: AccessType, mode: Mode)
    requires b.Valid() && c' == c.(prv := c'.prv, mprv := c'.mprv, mpp := c'.mpp)
    ensures b.Walk(Query(mem, c', vpn, t, mode)) == b.Walk(Query(mem, c, vpn, t, mode))
  {
    assert Paging.Walk(mem, c', vpn, t, mode) == Paging.Walk(mem, c, vpn, t, mode);
  }

  /** A frame is handed out only for a page whose leaf entry allows the access and, without a write, is marked for it. */
  lemma ResolvesMeans(b: Bus, mem: Mem, c: Context, vpn: int, t: AccessType, mode: Mode, frame: int)
    requires b.Valid() && Resolves(b, mem, c, vpn, t, mode, frame)
    ensures var v := LoadPte(mem, b.Walk(Query(mem, c, vpn, t, mode)).w.slot, DecodeVmInfo(c.scheme).ptesize);
            v.IsLeaf() && v.Allows(t, mode, c.sum, c.mxr) && v.Marked(t)
  {
    MappedMeans(mem, c, vpn, t, mode);
  }

  /** After tables have aged, every page is still mapped to the same frame, and nothing else is. */
  lemma AnswersStable(b: Bus, mem: Mem, mem': Mem, c: Context, vpn: int, t: AccessType, mode: Mode, tables: iset<int>)
    requires b.Valid() && c.scheme != Bare && TablesOk(mem, c, tables) && Older(mem, mem', c, tables)
    ensures Agree(b.Walk(Query(mem, c, vpn, t, mode)).w, b.Walk(Query(mem', c, vpn, t, mode)).w, c.faultOnAD)
  {
    WalkStable(mem, mem', c, vpn, t, mode, tables);
  }

  lemma WritesInTables(b: Bus, mem: Mem, c: Context, vpn: int, t: AccessType, mode: Mode, tables: iset<int>)
    requires b.Valid() && c.scheme != Bare && TablesOk(mem, c, tables)
    ensures forall x :: x in tables || Byte(b.Walk(Query(mem, c, vpn, t, mode)).mem, x) == Byte(mem, x)
  {
    var w := Paging.Walk(mem, c, vpn, t, mode);
    SameAged(mem, DecodeVmInfo(c.scheme).ptesize, tables);
    WalkStable(mem, mem, c, vpn, t, mode, tables);
    if w.Mapped? {
      MarkSlotBytes(mem, w.slot, t);
    }
  }

  lemma TranslateStable(b: Bus, m: Machine, m': Machine, a: int, t: AccessType, tables: iset<int>)
    requires b.Valid() && TablesOk(m.mem, m.ctx, tables) && m'.ctx == m.ctx && Older(m.mem, m'.mem, m.ctx, tables)
    requires Translate(b, m, a, t).paddr.Some?
    ensures Translate(b, m', a, t).paddr == Translate(b, m, a, t).paddr
  {
    if Translating(m.ctx, t) {
      AnswersStable(b, m.mem, m'.mem, m.ctx, PageOf(a), t, EffectiveMode(m.ctx, t), tables);
    }
  }

  /** Outside the page tables a translation changes no byte. */
  lemma TranslateWrites(b: Bus, m: Machine, a: int, t: AccessType, tables: iset<int>)
    requires b.Valid() && TablesOk(m.mem, m.ctx, tables)
    ensures forall x :: x in tables || Byte(Translate(b, m, a, t).m.mem, x) == Byte(m.mem, x)
  {
    if Translating(m.ctx, t) {
      WritesInTables(b, m.mem, m.ctx, PageOf(a), t, EffectiveMode(m.ctx, t), tables);
    }
  }
}
