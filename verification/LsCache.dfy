/**
  The load/store cache over the translation look-aside buffer over the page walk.
 */
module LsCache {
  import opened Wrappers
  import opened ByteMemory
  import opened Paging
  import opened MemoryPath

  const SETS := 256

  // ---------------------------------------------------------------- translation look-aside buffer

  datatype TlbKey = TlbKey(mode: Mode, t: AccessType, idx: int)
  datatype TlbEntry = TlbEntry(frame: int, vpn: int)
  type Tlb = map<TlbKey, TlbEntry>

  /** What is buffered is what a fresh walk would find, without anything to write back. */
  ghost predicate TlbOk(b: Bus, tlb: Tlb, mem: Mem, c: Context) {
    c.scheme != Bare ==> forall k :: k in tlb ==> Resolves(b, mem, c, tlb[k].vpn, k.t, k.mode, tlb[k].frame)
  }

  lemma TlbStable(b: Bus, tlb: Tlb, mem: Mem, mem': Mem, c: Context, tables: iset<int>)
    requires b.Valid() && TablesOk(mem, c, tables) && Older(mem, mem', c, tables) && TlbOk(b, tlb, mem, c)
    ensures TlbOk(b, tlb, mem', c)
  {
    if c.scheme != Bare {
      forall k | k in tlb
        ensures Resolves(b, mem', c, tlb[k].vpn, k.t, k.mode, tlb[k].frame)
      {
        ResolvesStable(b, mem, mem', c, tlb[k].vpn, k.t, k.mode, tlb[k].frame, tables);
      }
    }
  }

  /** translate_virtual_to_physical_addr. */
  method V2P(b: Bus, m: Machine, tlb: Tlb, a: int, t: AccessType, ghost tables: iset<int>)
    returns (p: Option<int>, m': Machine, tlb': Tlb)
    requires b.Valid() && TablesOk(m.mem, m.ctx, tables) && TlbOk(b, tlb, m.mem, m.ctx)
    ensures Translated(p, m') == Translate(b, m, a, t)
    ensures TlbOk(b, tlb', m'.mem, m.ctx)
  {
    if m.ctx.scheme == Bare {
      return Some(a), m, tlb;
    }
    var mode := m.ctx.prv;
    if t != FETCH {
      if m.ctx.mprv {
        mode := m.ctx.mpp;
      }
    }
    if mode == MachineMode {
      return Some(a), m, tlb;
    }
    var vpn := PageOf(a);
    var k := TlbKey(mode, t, vpn % SETS);
    if k in tlb && tlb[k].vpn == vpn {
      return Some(tlb[k].frame + Offset(a)), m, tlb;
    }
    var s := WalkQuery(b, Query(m.mem, m.ctx, vpn, t, mode));
    WalkKeeps(b, m.mem, m.ctx, vpn, t, mode, tables);
    TlbStable(b, tlb, m.mem, s.mem, m.ctx, tables);
    p, m', tlb' := None, m, tlb;
    if s.w.Mapped? {
      p := Some(s.w.frame + Offset(a));
      m' := if s.w.marked then m else m.(mem := s.mem).Unlock();
      tlb' := tlb[k := TlbEntry(s.w.frame, vpn)];
    }
  }

  // ---------------------------------------------------------------- cached pages

  /** A page of directly accessible memory that loads, or loads and stores, may use. */
  datatype Entry = Entry(tag: int, storeValid: bool, frame: int)
  type Cached = map<int, Entry>

  /** Accesses to the page go to the frame, and translating them writes nothing. */
  ghost predicate Serves(b: Bus, mem: Mem, c: Context, vpn: int, t: AccessType, frame: int) {
    if Translating(c, t) then Resolves(b, mem, c, vpn, t, EffectiveMode(c, t), frame) else frame == vpn * PAGE
  }

  ghost predicate EntryOk(b: Bus, e: Entry, idx: int, mem: Mem, c: Context) {
    && e.frame % PAGE == 0 && PageOf(e.frame) in b.dmi
    && Serves(b, mem, c, e.tag * SETS + idx, LOAD, e.frame)
    && (e.storeValid ==> Serves(b, mem, c, e.tag * SETS + idx, STORE, e.frame))
  }

  ghost predicate CacheOk(b: Bus, cache: Cached, mem: Mem, c: Context) {
    forall i :: i in cache ==> EntryOk(b, cache[i], i, mem, c)
  }

  lemma ServesStable(b: Bus, mem: Mem, mem': Mem, c: Context, vpn: int, t: AccessType, frame: int, tables: iset<int>)
    requires b.Valid() && TablesOk(mem, c, tables) && Older(mem, mem', c, tables) && Serves(b, mem, c, vpn, t, frame)
    ensures Serves(b, mem', c, vpn, t, frame)
  {
    if Translating(c, t) {
      ResolvesStable(b, mem, mem', c, vpn, t, EffectiveMode(c, t), frame, tables);
    }
  }

  lemma CacheStable(b: Bus, cache: Cached, mem: Mem, mem': Mem, c: Context, tables: iset<int>)
    requires b.Valid() && TablesOk(mem, c, tables) && Older(mem, mem', c, tables) && CacheOk(b, cache, mem, c)
    ensures CacheOk(b, cache, mem', c)
  {
    forall i | i in cache
      ensures EntryOk(b, cache[i], i, mem', c)
    {
      var e := cache[i];
      ServesStable(b, mem, mem', c, e.tag * SETS + i, LOAD, e.frame, tables);
      if e.storeValid {
        ServesStable(b, mem, mem', c, e.tag * SETS + i, STORE, e.frame, tables);
      }
    }
  }

  /** A page that serves stores also serves loads. */
  lemma ServesBoth(b: Bus, mem: Mem, c: Context, vpn: int, frame: int)
    requires b.Valid() && Serves(b, mem, c, vpn, STORE, frame)
    ensures Serves(b, mem, c, vpn, LOAD, frame)
  {
    if Translating(c, STORE) {
      StoreResolvesLoad(b, mem, c, vpn, EffectiveMode(c, STORE), frame);
    }
  }

  lemma Indexed(vpn: int, tag: int)
    requires tag == vpn / SETS
    ensures tag * SETS + vpn % SETS == vpn
  {
  }

  lemma InFrame(frame: int, a: int)
    requires frame % PAGE == 0
    ensures PageOf(frame + Offset(a)) == PageOf(frame) && frame + Offset(a) - Offset(frame + Offset(a)) == frame
  {
  }

  /** An access that hits needs no walk, and goes to directly accessible memory. */
  lemma HitIs(b: Bus, m: Machine, a: int, t: AccessType, frame: int)
    requires frame % PAGE == 0 && Serves(b, m.mem, m.ctx, PageOf(a), t, frame)
    ensures Translate(b, m, a, t) == Translated(Some(frame + Offset(a)), m) && PageOf(frame + Offset(a)) == PageOf(frame)
  {
    InFrame(frame, a);
  }

  /** The page behind a translated address serves further accesses. */
  lemma TranslatedServes(b: Bus, m: Machine, a: int, t: AccessType, tables: iset<int>)
    requires b.Valid() && TablesOk(m.mem, m.ctx, tables)
    ensures var r := Translate(b, m, a, t);
            && r.m.ctx == m.ctx && Older(m.mem, r.m.mem, m.ctx, tables) && TablesOk(r.m.mem, m.ctx, tables)
            && (r.paddr.Some? ==>
                  var frame := r.paddr.value - Offset(r.paddr.value);
                  frame % PAGE == 0 && Serves(b, r.m.mem, m.ctx, PageOf(a), t, frame) && PageOf(frame) == PageOf(r.paddr.value))
  {
    if Translating(m.ctx, t) {
      WalkKeeps(b, m.mem, m.ctx, PageOf(a), t, EffectiveMode(m.ctx, t), tables);
      var r := Translate(b, m, a, t);
      if r.paddr.Some? {
        InFrame(r.paddr.value - Offset(a), a);
      }
    }
    OlderSame(m.mem, m.ctx, tables);
  }

  lemma OlderSame(mem: Mem, c: Context, tables: iset<int>)
    ensures Older(mem, mem, c, tables)
  {
    if c.scheme != Bare {
      SameAged(mem, DecodeVmInfo(c.scheme).ptesize, tables);
    }
  }

  // ---------------------------------------------------------------- the cache

  /** Everything that is cached agrees with memory. */
  ghost predicate Coherent(b: Bus, m: Machine, tlb: Tlb, cache: Cached, tables: iset<int>) {
    b.Valid() && TablesOk(m.mem, m.ctx, tables) && TlbOk(b, tlb, m.mem, m.ctx) && CacheOk(b, cache, m.mem, m.ctx)
  }

  lemma StoreKeepsTables(b: Bus, m: Machine, a: int, data: seq<bv8>, tables: iset<int>)
    requires b.Valid() && TablesOk(m.mem, m.ctx, tables) && Harmless(b, m, a, |data|, tables)
    ensures var m' := Store(b, m, a, data).m;
            m'.ctx == m.ctx && Older(m.mem, m'.mem, m.ctx, tables) && TablesOk(m'.mem, m.ctx, tables)
  {
    TranslatedServes(b, m, a, STORE, tables);
    var r := Translate(b, m, a, STORE);
    if r.paddr.Some? && PageOf(r.paddr.value) in b.dmi && m.ctx.scheme != Bare {
      var size := DecodeVmInfo(m.ctx.scheme).ptesize;
      StoreAges(r.m.mem, r.paddr.value, data, size, tables);
      AgedTransitive(m.mem, r.m.mem, StoreBytes(r.m.mem, r.paddr.value, data), size, tables);
      ClosedStable(m.mem, StoreBytes(r.m.mem, r.paddr.value, data), m.ctx, tables);
    }
  }

  /**
    A store that hits in the cache or in the translation look-aside buffer goes to a page whose leaf entry permits
    stores and already has its accessed and dirty bits set.
   */
  lemma StoreHitsPermitted(b: Bus, m: Machine, tlb: Tlb, cache: Cached, tables: iset<int>, a: int)
    requires Coherent(b, m, tlb, cache, tables) && Translating(m.ctx, STORE)
    requires var idx, k := PageOf(a) % SETS, TlbKey(EffectiveMode(m.ctx, STORE), STORE, PageOf(a) % SETS);
             || (idx in cache && cache[idx].tag == PageOf(a) / SETS && cache[idx].storeValid)
             || (k in tlb && tlb[k].vpn == PageOf(a))
    ensures var mode := EffectiveMode(m.ctx, STORE);
            var w := b.Walk(Query(m.mem, m.ctx, PageOf(a), STORE, mode)).w;
            && w.Mapped?
            && var v := LoadPte(m.mem, w.slot, DecodeVmInfo(m.ctx.scheme).ptesize);
               v.IsLeaf() && v.Allows(STORE, mode, m.ctx.sum, m.ctx.mxr) && v.Marked(STORE)
  {
    var idx, mode := PageOf(a) % SETS, EffectiveMode(m.ctx, STORE);
    Indexed(PageOf(a), PageOf(a) / SETS);
    var frame := if idx in cache && cache[idx].tag == PageOf(a) / SETS && cache[idx].storeValid then cache[idx].frame
                 else tlb[TlbKey(mode, STORE, idx)].frame;
    ResolvesMeans(b, m.mem, m.ctx, PageOf(a), STORE, mode, frame);
  }

  /** Everything that loads and stores are translated by is the same. */
  predicate SameData(c: Context, c': Context) {
    c' == c.(prv := c'.prv, mprv := c'.mprv, mpp := c'.mpp) && EffectiveMode(c', LOAD) == EffectiveMode(c, LOAD)
  }

  lemma SwitchServes(b: Bus, mem: Mem, c: Context, c': Context, vpn: int, t: AccessType, frame: int)
    requires b.Valid() && SameData(c, c') && t != FETCH && Serves(b, mem, c, vpn, t, frame)
    ensures Serves(b, mem, c', vpn, t, frame)
  {
    WalkIgnoresPrivilege(b, mem, c, c', vpn, t, EffectiveMode(c, t));
  }

  lemma SwitchKeeps(b: Bus, m: Machine, tlb: Tlb, cache: Cached, tables: iset<int>, c': Context)
    requires Coherent(b, m, tlb, cache, tables) && SameData(m.ctx, c')
    ensures Coherent(b, m.(ctx := c'), tlb, cache, tables)
  {
    forall i | i in cache
      ensures EntryOk(b, cache[i], i, m.mem, c')
    {
      var e := cache[i];
      SwitchServes(b, m.mem, m.ctx, c', e.tag * SETS + i, LOAD, e.frame);
      if e.storeValid {
        SwitchServes(b, m.mem, m.ctx, c', e.tag * SETS + i, STORE, e.frame);
      }
    }
    SwitchTlb(b, m, tlb, c');
  }

  lemma SwitchTlb(b: Bus, m: Machine, tlb: Tlb, c': Context)
    requires b.Valid() && TlbOk(b, tlb, m.mem, m.ctx) && SameData(m.ctx, c')
    ensures TlbOk(b, tlb, m.mem, c')
  {
    if c'.scheme != Bare {
      forall k | k in tlb
        ensures Resolves(b, m.mem, c', tlb[k].vpn, k.t, k.mode, tlb[k].frame)
      {
        WalkIgnoresPrivilege(b, m.mem, m.ctx, c', tlb[k].vpn, k.t, k.mode);
      }
    }
  }

  /** The page of p serves further accesses to the page of a. */
  ghost predicate Fits(b: Bus, m: Machine, a: int, t: AccessType, p: int) {
    var frame := p - Offset(p);
    frame % PAGE == 0 && PageOf(frame) == PageOf(p) && Serves(b, m.mem, m.ctx, PageOf(a), t, frame)
  }

  lemma StoreOlder(b: Bus, m: Machine, a: int, data: seq<bv8>, tables: iset<int>)
    requires b.Valid() && TablesOk(m.mem, m.ctx, tables) && Harmless(b, m, a, |data|, tables)
    ensures Older(Translate(b, m, a, STORE).m.mem, MemoryPath.Store(b, m, a, data).m.mem, m.ctx, tables)
  {
    var r := Translate(b, m, a, STORE);
    OlderSame(r.m.mem, m.ctx, tables);
    if r.paddr.Some? && PageOf(r.paddr.value) in b.dmi && m.ctx.scheme != Bare {
      StoreAges(r.m.mem, r.paddr.value, data, DecodeVmInfo(m.ctx.scheme).ptesize, tables);
    }
  }

  class LSCache {
    const b: Bus
    var m: Machine
    var tlb: Tlb
    var cache: Cached
    var enabled: bool
    ghost var tables: iset<int>

    ghost predicate Valid()
      reads this
    {
      Coherent(b, m, tlb, cache, tables)
    }

    constructor (b: Bus, m: Machine, enabled: bool, ghost tables: iset<int>)
      requires b.Valid() && TablesOk(m.mem, m.ctx, tables)
      ensures Valid() && this.b == b && this.m == m && this.tables == tables && this.enabled == enabled
      ensures cache == map[] && tlb == map[]
    {
      this.b, this.m, this.tlb, this.cache, this.enabled := b, m, map[], map[], enabled;
      this.tables := tables;
    }

    /** _load_data: translate, then load. */
    method UncachedLoad(a: int, n: nat) returns (out: Outcome, p: Option<int>)
      requires Valid()
      modifies this`m, this`tlb
      ensures Valid() && Result(out, m) == MemoryPath.Load(b, old(m), a, n)
      ensures p == Translate(b, old(m), a, LOAD).paddr
      ensures p.Some? ==> Fits(b, m, a, LOAD, p.value)
    {
      var m', tlb';
      TranslatedServes(b, m, a, LOAD, tables);
      p, m', tlb' := V2P(b, m, tlb, a, LOAD, tables);
      CacheStable(b, cache, m.mem, m'.mem, m.ctx, tables);
      if p == None {
        out, m, tlb := Trap(LOAD, a), m', tlb';
      } else {
        var r := RawLoad(b, m', p.value, n);
        out, m, tlb := r.out, r.m, tlb';
      }
    }

    /** _store_data: translate, then store. */
    method UncachedStore(a: int, data: seq<bv8>) returns (out: Outcome, p: Option<int>)
      requires Valid() && Harmless(b, m, a, |data|, tables)
      modifies this`m, this`tlb
      ensures Valid() && Result(out, m) == MemoryPath.Store(b, old(m), a, data)
      ensures p == Translate(b, old(m), a, STORE).paddr
      ensures p.Some? ==> Fits(b, m, a, STORE, p.value)
    {
      var m', tlb';
      TranslatedServes(b, m, a, STORE, tables);
      StoreKeepsTables(b, m, a, data, tables);
      ghost var after := MemoryPath.Store(b, m, a, data).m;
      CacheStable(b, cache, m.mem, after.mem, m.ctx, tables);
      p, m', tlb' := V2P(b, m, tlb, a, STORE, tables);
      StoreOlder(b, m, a, data, tables);
      TlbStable(b, tlb', m'.mem, after.mem, m.ctx, tables);
      if p == None {
        out, m, tlb := Trap(STORE, a), m', tlb';
      } else {
        ServesStable(b, m'.mem, after.mem, m.ctx, PageOf(a), STORE, p.value - Offset(p.value), tables);
        var r := RawStore(b, m', p.value, data);
        out, m, tlb := r.out, r.m, tlb';
      }
    }

    /** try_add_to_cache and update. */
    method TryAdd(a: int, p: int, storeValid: bool)
      requires Valid() && Fits(b, m, a, if storeValid then STORE else LOAD, p)
      modifies this`cache
      ensures Valid()
      ensures if PageOf(p) in b.dmi && enabled then cache == old(cache)[PageOf(a) % SETS := Entry(PageOf(a) / SETS, storeValid, p - Offset(p))]
              else cache == old(cache)
    {
      if PageOf(p) in b.dmi && enabled {
        if storeValid {
          ServesBoth(b, m.mem, m.ctx, PageOf(a), p - Offset(p));
        }
        Indexed(PageOf(a), PageOf(a) / SETS);
        cache := cache[PageOf(a) % SETS := Entry(PageOf(a) / SETS, storeValid, p - Offset(p))];
      }
    }

    /** try_get_from_cache_load finds the page. */
    predicate HitsLoad(a: int)
      reads this
    {
      PageOf(a) % SETS in cache && cache[PageOf(a) % SETS].tag == PageOf(a) / SETS
    }

    /** try_get_from_cache_store finds the page. */
    predicate HitsStore(a: int)
      reads this
    {
      HitsLoad(a) && cache[PageOf(a) % SETS].storeValid
    }

    /** Where a hit goes. */
    function HostAddr(a: int): int
      reads this
      requires HitsLoad(a)
    {
      cache[PageOf(a) % SETS].frame + Offset(a)
    }

    /** load; `contended` if another hart had the bus locked, so that the access had to wait for it. */
    method Load(a: int, n: nat, contended: bool) returns (out: Outcome)
      requires Valid()
      modifies this`m, this`tlb, this`cache
      ensures Valid() && Result(out, m) == MemoryPath.Load(b, old(m), a, n)
      ensures old(!contended && m.lock == Free && !HitsLoad(a)) && !out.Trap? ==>
                var p := Translate(b, old(m), a, LOAD).paddr.value;
                enabled && PageOf(p) in b.dmi ==> HitsLoad(a) && !HitsStore(a) && HostAddr(a) == p - Offset(p) + Offset(a)
    {
      var p;
      if contended || m.lock != Free {
        out, p := UncachedLoad(a, n);
        return;
      }
      if HitsLoad(a) {
        Indexed(PageOf(a), PageOf(a) / SETS);
        HitIs(b, m, a, LOAD, cache[PageOf(a) % SETS].frame);
        out := LoadHit(a, n);
        return;
      }
      out, p := UncachedLoad(a, n);
      if !out.Trap? {
        TryAdd(a, p.value, false);
      }
    }

    /** A load that hits reads from the host page; it looks neither at control state nor at page tables. */
    method LoadHit(a: int, n: nat) returns (out: Outcome)
      requires HitsLoad(a)
      ensures out == Value(LoadBytes(m.mem, HostAddr(a), n))
    {
      out := Value(LoadBytes(m.mem, cache[PageOf(a) % SETS].frame + Offset(a), n));
    }

    /** store. */
    method Store(a: int, data: seq<bv8>, contended: bool) returns (out: Outcome)
      requires Valid() && Harmless(b, m, a, |data|, tables)
      modifies this`m, this`tlb, this`cache
      ensures Valid() && Result(out, m) == MemoryPath.Store(b, old(m), a, data)
      ensures old(!contended && m.lock == Free && !HitsStore(a)) && !out.Trap? ==>
                var p := Translate(b, old(m), a, STORE).paddr.value;
                enabled && PageOf(p) in b.dmi ==> HitsStore(a) && HostAddr(a) == p - Offset(p) + Offset(a)
    {
      var p;
      if contended || m.lock != Free {
        out, p := UncachedStore(a, data);
        return;
      }
      if HitsStore(a) {
        StoreServed(a, data);
        return Done;
      }
      out, p := UncachedStore(a, data);
      if !out.Trap? {
        TryAdd(a, p.value, true);
      }
    }

    /** A store that hits, while the cache is right. */
    method StoreServed(a: int, data: seq<bv8>)
      requires Valid() && Harmless(b, m, a, |data|, tables) && m.lock == Free && HitsStore(a)
      modifies this`m
      ensures Valid() && Result(Done, m) == MemoryPath.Store(b, old(m), a, data)
    {
      Indexed(PageOf(a), PageOf(a) / SETS);
      HitIs(b, m, a, STORE, cache[PageOf(a) % SETS].frame);
      StoreKeepsTables(b, m, a, data, tables);
      ghost var after := MemoryPath.Store(b, m, a, data).m;
      CacheStable(b, cache, m.mem, after.mem, m.ctx, tables);
      TlbStable(b, tlb, m.mem, after.mem, m.ctx, tables);
      StoreHit(a, data);
    }

    /** A store that hits writes to the host page; it looks neither at control state nor at page tables. */
    method StoreHit(a: int, data: seq<bv8>)
      requires HitsStore(a)
      modifies this`m
      ensures m == old(m).(mem := StoreBytes(old(m.mem), HostAddr(a), data))
    {
      m := m.(mem := StoreBytes(m.mem, cache[PageOf(a) % SETS].frame + Offset(a), data));
    }

    /** Traps, returns from traps and writes to control registers change the control state and nothing else. */
    method SetContext(ctx: Context)
      modifies this`m
      ensures m == old(m).(ctx := ctx)
    {
      m := m.(ctx := ctx);
    }

    /** flush; DMI disabling flushes too. */
    method Flush()
      requires Valid()
      modifies this`cache
      ensures Valid() && cache == map[]
    {
      cache := map[];
    }

    method Enable(ena: bool)
      requires Valid()
      modifies this`cache, this`enabled
      ensures Valid() && enabled == ena && (!ena && old(enabled) ==> cache == map[])
    {
      if ena == enabled {
        return;
      }
      enabled := ena;
      if !enabled {
        Flush();
      }
    }

    /** fence_vma, after control state and memory, page tables included, may have changed in any way. */
    method FenceVma(ctx: Context, mem: Mem, ghost tables': iset<int>)
      requires b.Valid() && TablesOk(mem, ctx, tables')
      modifies this`m, this`tlb, this`cache, this`tables
      ensures Valid() && m == old(m).(ctx := ctx, mem := mem) && tables == tables'
    {
      m := m.(ctx := ctx, mem := mem);
      tables := tables';
      cache := map[];
      tlb := map[];
    }

    /** Control state changes that do not affect data accesses. */
    method Switch(ctx: Context)
      requires Valid() && SameData(m.ctx, ctx)
      modifies this`m
      ensures Valid() && m == old(m).(ctx := ctx)
    {
      SwitchKeeps(b, m, tlb, cache, tables, ctx);
      m := m.(ctx := ctx);
    }

    /** Other harts ran: they may have changed memory, but not the page tables, and have locked or unlocked the bus. */
    method Others(mem: Mem, lock: Lock)
      requires Valid() && Older(m.mem, mem, m.ctx, tables)
      modifies this`m
      ensures Valid() && m == old(m).(mem := mem, lock := lock)
    {
      CacheStable(b, cache, m.mem, mem, m.ctx, tables);
      TlbStable(b, tlb, m.mem, mem, m.ctx, tables);
      if m.ctx.scheme != Bare {
        ClosedStable(m.mem, mem, m.ctx, tables);
      }
      m := m.(mem := mem, lock := lock);
    }
  }
}
