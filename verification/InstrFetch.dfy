/**
  Instruction fetches of four bytes, which may cross a page.
 */
module InstrFetch {
  import opened Bits
  import opened Wrappers
  import opened ByteMemory
  import opened Paging
  import opened MemoryPath
  import opened LsCache

  /** _raw_load_data of a translated fetch address. */
  method FetchPart(b: Bus, m: Machine, tlb: Tlb, a: int, n: nat, ghost tables: iset<int>)
    returns (out: Outcome, m': Machine, tlb': Tlb)
    requires b.Valid() && TablesOk(m.mem, m.ctx, tables) && TlbOk(b, tlb, m.mem, m.ctx)
    ensures Result(out, m') == Part(b, m, a, n)
    ensures TlbOk(b, tlb', m'.mem, m.ctx) && m'.ctx == m.ctx
    ensures TablesOk(m'.mem, m.ctx, tables) && Older(m.mem, m'.mem, m.ctx, tables)
  {
    TranslatedServes(b, m, a, FETCH, tables);
    var p;
    p, m', tlb' := V2P(b, m, tlb, a, FETCH, tables);
    if p == None {
      out := Trap(FETCH, a);
    } else {
      var r := RawLoad(b, m', p.value, n);
      out, m' := r.out, r.m;
    }
  }

  /** The byte at a, translated on its own, is ordinary memory at p. */
  ghost predicate ByteAt(b: Bus, m: Machine, a: int, p: int, tables: iset<int>) {
    Translate(b, m, a, FETCH).paddr == Some(p) && PageOf(p) in b.dmi && p !in tables
  }

  /** A part of a fetch within one page reads the bytes that are fetched one by one. */
  lemma PartIs(b: Bus, m0: Machine, m: Machine, a: int, n: nat, p: seq<int>, tables: iset<int>)
    requires b.Valid() && TablesOk(m0.mem, m0.ctx, tables) && m.ctx == m0.ctx && Older(m0.mem, m.mem, m0.ctx, tables)
    requires TablesOk(m.mem, m.ctx, tables)
    requires forall x :: x in tables || Byte(m.mem, x) == Byte(m0.mem, x)
    requires |p| == n > 0 && Offset(a) + n <= PAGE && forall k :: 0 <= k < n ==> ByteAt(b, m0, a + k, p[k], tables)
    ensures var r := Translate(b, m, a, FETCH);
            && r.paddr == Some(p[0])
            && RawLoad(b, r.m, p[0], n).out == Value(seq(n, k requires 0 <= k < n => Byte(m0.mem, p[k])))
  {
    assert ByteAt(b, m0, a + 0, p[0], tables);
    TranslateStable(b, m0, m, a, FETCH, tables);
    TranslateWrites(b, m, a, FETCH, tables);
    var r := Translate(b, m, a, FETCH);
    forall k | 0 <= k < n
      ensures p[k] == p[0] + k && Byte(r.m.mem, p[0] + k) == Byte(m0.mem, p[k])
    {
      SamePage(a, k);
      assert ByteAt(b, m0, a + k, p[k], tables);
    }
  }

  lemma SamePage(a: int, k: int)
    requires 0 <= k && Offset(a) + k < PAGE
    ensures PageOf(a + k) == PageOf(a) && Offset(a + k) == Offset(a) + k
  {
  }

  /** The four bytes at a are ordinary memory at p, wherever their pages are. */
  ghost predicate BytesAt(b: Bus, m: Machine, a: int, p: seq<int>, tables: iset<int>) {
    |p| == 4 && forall k :: 0 <= k < 4 ==> ByteAt(b, m, (a + k) % TWO64, p[k], tables)
  }

  ghost function Part(b: Bus, m: Machine, a: int, n: nat): Result {
    var r := Translate(b, m, a, FETCH);
    if r.paddr.Some? then RawLoad(b, r.m, r.paddr.value, n) else Result(Trap(FETCH, a), r.m)
  }

  lemma WithinPageIs(b: Bus, m: Machine, a: int, p: seq<int>, tables: iset<int>)
    requires b.Valid() && TablesOk(m.mem, m.ctx, tables) && BytesAt(b, m, a, p, tables)
    requires 0 <= a < TWO64 && a % 2 == 0 && a % PAGE != 0xFFE
    ensures Part(b, m, a, 4).out == Value([Byte(m.mem, p[0]), Byte(m.mem, p[1]), Byte(m.mem, p[2]), Byte(m.mem, p[3])])
  {
    NoWrap(a);
    OlderSame(m.mem, m.ctx, tables);
    forall k | 0 <= k < 4
      ensures ByteAt(b, m, a + k, p[k], tables)
    {
      assert ByteAt(b, m, (a + k) % TWO64, p[k], tables);
    }
    PartIs(b, m, m, a, 4, p, tables);
    assert seq(4, k requires 0 <= k < 4 => Byte(m.mem, p[k]))
           == [Byte(m.mem, p[0]), Byte(m.mem, p[1]), Byte(m.mem, p[2]), Byte(m.mem, p[3])];
  }

  lemma NoWrap(a: int)
    requires 0 <= a < TWO64 && a % 2 == 0 && a % PAGE != 0xFFE
    ensures Offset(a) + 4 <= PAGE && a + 4 <= TWO64
  {
  }

  /** Either half of a crossing fetch, loaded first or after the other half. */
  lemma HalfIs(b: Bus, m: Machine, mid: Machine, a: int, h: int, p: seq<int>, tables: iset<int>)
    requires b.Valid() && TablesOk(m.mem, m.ctx, tables) && BytesAt(b, m, a, p, tables)
    requires mid.ctx == m.ctx && Older(m.mem, mid.mem, m.ctx, tables) && TablesOk(mid.mem, m.ctx, tables)
    requires forall x :: x in tables || Byte(mid.mem, x) == Byte(m.mem, x)
    requires 0 <= a < TWO64 && a % PAGE == 0xFFE && (h == 0 || h == 2)
    ensures Part(b, mid, (a + h) % TWO64, 2).out == Value([Byte(m.mem, p[h]), Byte(m.mem, p[h + 1])])
  {
    Halves(a);
    var a', q := (a + h) % TWO64, p[h..h + 2];
    forall k | 0 <= k < 2
      ensures ByteAt(b, m, a' + k, q[k], tables)
    {
      assert ByteAt(b, m, (a + (h + k)) % TWO64, p[h + k], tables);
    }
    PartIs(b, m, mid, a', 2, q, tables);
  }

  lemma Halves(a: int)
    requires 0 <= a < TWO64 && a % PAGE == 0xFFE
    ensures a % TWO64 == a && (a + 1) % TWO64 == a + 1 && Offset(a) + 2 <= PAGE
    ensures var h := (a + 2) % TWO64; (a + 3) % TWO64 == h + 1 && Offset(h) + 2 <= PAGE
  {
  }

  /** load_instr. Which half of a fetch that crosses a page is loaded first is not specified. */
  method LoadInstr(b: Bus, m: Machine, tlb: Tlb, a: int, highFirst: bool, ghost tables: iset<int>)
    returns (out: Outcome, m': Machine, tlb': Tlb)
    requires b.Valid() && TablesOk(m.mem, m.ctx, tables) && TlbOk(b, tlb, m.mem, m.ctx)
    requires 0 <= a < TWO64 && a % 2 == 0
    ensures TlbOk(b, tlb', m'.mem, m.ctx)
    ensures forall p :: BytesAt(b, m, a, p, tables) ==>
              out == Value([Byte(m.mem, p[0]), Byte(m.mem, p[1]), Byte(m.mem, p[2]), Byte(m.mem, p[3])])
    ensures var first := if a % PAGE == 0xFFE && highFirst then (a + 2) % TWO64 else a;
            Translate(b, m, first, FETCH).paddr == None ==> out == Trap(FETCH, first)
    ensures a % PAGE == 0xFFE ==>
              var first, second := (a + if highFirst then 2 else 0) % TWO64, (a + if highFirst then 0 else 2) % TWO64;
              Part(b, m, first, 2).out.Value? && Translate(b, m, second, FETCH).paddr == None ==> out == Trap(FETCH, second)
  {
    if a % PAGE == 0xFFE {
      out, m', tlb' := LoadHalves(b, m, tlb, a, if highFirst then 2 else 0, tables);
    } else {
      out, m', tlb' := FetchPart(b, m, tlb, a, 4, tables);
      forall p | BytesAt(b, m, a, p, tables)
        ensures out == Value([Byte(m.mem, p[0]), Byte(m.mem, p[1]), Byte(m.mem, p[2]), Byte(m.mem, p[3])])
      {
        WithinPageIs(b, m, a, p, tables);
      }
    }
  }

  /** If the four bytes at a are ordinary memory, they are what was loaded. */
  ghost predicate Loaded(b: Bus, m: Machine, a: int, out: Outcome, tables: iset<int>) {
    forall p :: BytesAt(b, m, a, p, tables) ==>
      out == Value([Byte(m.mem, p[0]), Byte(m.mem, p[1]), Byte(m.mem, p[2]), Byte(m.mem, p[3])])
  }

  /** The same for the half at offset h. */
  ghost predicate LoadedHalf(b: Bus, m: Machine, a: int, h: int, out: Outcome, tables: iset<int>)
    requires h == 0 || h == 2
  {
    forall p :: BytesAt(b, m, a, p, tables) ==> out == Value([Byte(m.mem, p[h]), Byte(m.mem, p[h + 1])])
  }

  lemma JoinHalves(b: Bus, m: Machine, a: int, h: int, first: Outcome, second: Outcome, out: Outcome, tables: iset<int>)
    requires (h == 0 || h == 2) && LoadedHalf(b, m, a, h, first, tables) && LoadedHalf(b, m, a, 2 - h, second, tables)
    requires first.Value? && second.Value? ==>
               out == Value(if h == 2 then second.data + first.data else first.data + second.data)
    ensures Loaded(b, m, a, out, tables)
  {
  }

  /** The two halves, the one at offset h first. */
  method LoadHalves(b: Bus, m: Machine, tlb: Tlb, a: int, h: int, ghost tables: iset<int>)
    returns (out: Outcome, m': Machine, tlb': Tlb)
    requires b.Valid() && TablesOk(m.mem, m.ctx, tables) && TlbOk(b, tlb, m.mem, m.ctx)
    requires 0 <= a < TWO64 && a % PAGE == 0xFFE && (h == 0 || h == 2)
    ensures TlbOk(b, tlb', m'.mem, m.ctx) && Loaded(b, m, a, out, tables)
    ensures Translate(b, m, (a + h) % TWO64, FETCH).paddr == None ==> out == Trap(FETCH, (a + h) % TWO64)
    ensures var second := (a + (2 - h)) % TWO64;
            Part(b, m, (a + h) % TWO64, 2).out.Value? && Translate(b, m, second, FETCH).paddr == None ==> out == Trap(FETCH, second)
  {
    FirstHalf(b, m, a, h, tables);
    var first, second;
    first, m', tlb' := FetchPart(b, m, tlb, (a + h) % TWO64, 2, tables);
    out := first;
    if !first.Trap? {
      SecondHalf(b, m, m', a, h, tables);
      second, m', tlb' := FetchPart(b, m', tlb', (a + (2 - h)) % TWO64, 2, tables);
      out := second;
      if first.Value? && second.Value? {
        out := Value(if h == 2 then second.data + first.data else first.data + second.data);
      }
      JoinHalves(b, m, a, h, first, second, out, tables);
    }
  }

  /** The half that is loaded second. */
  lemma SecondHalf(b: Bus, m: Machine, mid: Machine, a: int, h: int, tables: iset<int>)
    requires b.Valid() && TablesOk(m.mem, m.ctx, tables)
    requires 0 <= a < TWO64 && a % PAGE == 0xFFE && (h == 0 || h == 2)
    requires mid == Part(b, m, (a + h) % TWO64, 2).m && mid.ctx == m.ctx
    requires Older(m.mem, mid.mem, m.ctx, tables) && TablesOk(mid.mem, m.ctx, tables)
    ensures LoadedHalf(b, m, a, 2 - h, Part(b, mid, (a + (2 - h)) % TWO64, 2).out, tables)
    ensures var second := (a + (2 - h)) % TWO64;
            Translate(b, m, second, FETCH).paddr == None ==> Translate(b, mid, second, FETCH).paddr == None
  {
    FirstHalf(b, m, a, h, tables);
    if Translate(b, m, (a + (2 - h)) % TWO64, FETCH).paddr == None {
      FaultStays(b, m, (a + h) % TWO64, (a + (2 - h)) % TWO64, tables);
    }
    forall p | BytesAt(b, m, a, p, tables)
      ensures Part(b, mid, (a + (2 - h)) % TWO64, 2).out == Value([Byte(m.mem, p[2 - h]), Byte(m.mem, p[2 - h + 1])])
    {
      HalfIs(b, m, mid, a, 2 - h, p, tables);
    }
  }

  /** A page that is not mapped is not mapped after the other half was loaded, either. */
  lemma FaultStays(b: Bus, m: Machine, first: int, second: int, tables: iset<int>)
    requires b.Valid() && TablesOk(m.mem, m.ctx, tables) && Translate(b, m, second, FETCH).paddr == None
    ensures Translate(b, Part(b, m, first, 2).m, second, FETCH).paddr == None
  {
    var c, mode := m.ctx, EffectiveMode(m.ctx, FETCH);
    WalkKeeps(b, m.mem, c, PageOf(first), FETCH, mode, tables);
    var mem := b.Walk(Query(m.mem, c, PageOf(first), FETCH, mode)).mem;
    AnswersStable(b, m.mem, mem, c, PageOf(second), FETCH, mode, tables);
    if c.faultOnAD {
      MarkedOrFault(b, m.mem, c, PageOf(first), FETCH, mode);
    }
  }

  /** Where missing bits are a fault, no walk has anything to write. */
  lemma MarkedOrFault(b: Bus, mem: Mem, c: Context, vpn: int, t: AccessType, mode: Mode)
    requires b.Valid() && c.faultOnAD
    ensures var w := b.Walk(Query(mem, c, vpn, t, mode)).w; w.Fault? || w.marked
  {
    assert Paging.Walk(mem, c, vpn, t, mode).Fault? || Paging.Walk(mem, c, vpn, t, mode).marked;
  }

  /** The half that is loaded first, and memory after it. */
  lemma FirstHalf(b: Bus, m: Machine, a: int, h: int, tables: iset<int>)
    requires b.Valid() && TablesOk(m.mem, m.ctx, tables)
    requires 0 <= a < TWO64 && a % PAGE == 0xFFE && (h == 0 || h == 2)
    ensures LoadedHalf(b, m, a, h, Part(b, m, (a + h) % TWO64, 2).out, tables)
    ensures forall x :: x in tables || Byte(Part(b, m, (a + h) % TWO64, 2).m.mem, x) == Byte(m.mem, x)
  {
    OlderSame(m.mem, m.ctx, tables);
    TranslateWrites(b, m, (a + h) % TWO64, FETCH, tables);
    forall p | BytesAt(b, m, a, p, tables)
      ensures Part(b, m, (a + h) % TWO64, 2).out == Value([Byte(m.mem, p[h]), Byte(m.mem, p[h + 1])])
    {
      HalfIs(b, m, m, a, h, p, tables);
    }
  }
}
