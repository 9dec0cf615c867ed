/**
  Load-reserved, store-conditional and atomic memory operations of several harts that share one bus lock. Any access
  may have to write accessed and dirty bits to a page table first, and every store to memory releases the lock.
 */
module BusLock {
  import opened Wrappers

  /** A page table entry and its new value. */
  datatype Mark = Mark(slot: int, pte: int)

  /** What a hart does in one step. An atomic memory operation is a load and then a store. */
  datatype Step =
    | Load(h: int, a: int, mark: Option<Mark>)
    | Store(h: int, a: int, v: int, mark: Option<Mark>)
    | LoadReserved(h: int, a: int, mark: Option<Mark>)
    | StoreConditional(h: int, a: int, v: int, mark: Option<Mark>)
    | AmoLoad(h: int, a: int, mark: Option<Mark>)
    | AmoStore(h: int, a: int, v: int, mark: Option<Mark>)
    | Unlock(h: int)

  /** The first half of an atomic memory operation; it lost the lock if it had to mark a page table entry. */
  datatype Amo = Amo(a: int, lost: bool)

  /** Memory, the owner of the lock, each hart's lr_addr, and the harts within an atomic memory operation. */
  datatype State = State(mem: map<int, int>, owner: Option<int>, lr: map<int, int>, amo: map<int, Amo>) {
    /** lr_addr is initially 0. */
    function LrAddr(h: int): int { if h in lr then lr[h] else 0 }

    /** wait_for_access_rights and lock return. */
    predicate HasRights(h: int) { owner == None || owner == Some(h) }

    function Unlocked(h: int): State { if owner == Some(h) then this.(owner := None) else this }

    function Written(h: int, a: int, v: int): State { this.(mem := mem[a := v]).Unlocked(h) }

    function Marked(h: int, mark: Option<Mark>): State {
      if mark.Some? then Written(h, mark.value.slot, mark.value.pte) else this
    }

    predicate Succeeds(s: Step) { s.StoreConditional? && owner == Some(s.h) && s.a == LrAddr(s.h) }

    /** A hart that waits for access rights does nothing, and one within an atomic operation does the second half. */
    predicate Enabled(s: Step) {
      && (s.h in amo ==> s.AmoStore? && s.a == amo[s.h].a)
      && (s.AmoStore? ==> s.h in amo)
      && (s.StoreConditional? || s.Unlock? || HasRights(s.h))
    }

    function Next(s: Step): State {
      match s
      case Load(h, a, mark) => Marked(h, mark)
      case Store(h, a, v, mark) => Marked(h, mark).Written(h, a, v)
      case LoadReserved(h, a, mark) => this.(owner := Some(h), lr := lr[h := a]).Marked(h, mark)
      case StoreConditional(h, a, v, mark) =>
        if owner == Some(h) then
          if a == LrAddr(h) then Marked(h, mark).Written(h, a, v) else Unlocked(h)
        else this
      case AmoLoad(h, a, mark) => this.(owner := Some(h), amo := amo[h := Amo(a, mark.Some?)]).Marked(h, mark)
      case AmoStore(h, a, v, mark) => this.(amo := amo - {h}).Marked(h, mark).Written(h, a, v)
      case Unlock(h) => Unlocked(h)
    }

    /** The step writes to memory. */
    predicate Writes(s: Step) {
      s.Store? || s.AmoStore? || Succeeds(s) || (!s.StoreConditional? && !s.Unlock? && s.mark.Some?)
    }
  }

  /** State after a sequence of steps. */
  function After(mem: map<int, int>, t: seq<Step>): State {
    if t == [] then State(mem, None, map[], map[]) else After(mem, t[..|t| - 1]).Next(t[|t| - 1])
  }

  /** An interleaving in which every step could be taken. */
  predicate Run(mem: map<int, int>, t: seq<Step>) {
    t != [] ==> Run(mem, t[..|t| - 1]) && After(mem, t[..|t| - 1]).Enabled(t[|t| - 1])
  }

  /**
    What a hart has reserved, from the steps alone: its last step other than a plain load was a load-reserved, and it
    has not marked a page table entry in or since that step.
   */
  function Reserved(t: seq<Step>, h: int): Option<int> {
    if t == [] then None
    else
      var s := t[|t| - 1];
      if s.h != h || (s.Load? && s.mark.None?) then Reserved(t[..|t| - 1], h)
      else if s.LoadReserved? && s.mark.None? then Some(s.a)
      else None
  }

  /** The lock is held exactly for reservations, and for atomic operations that have not lost it. */
  ghost predicate Inv(mem: map<int, int>, t: seq<Step>, h: int) {
    var s := After(mem, t);
    && (s.owner == Some(h) <==> Reserved(t, h).Some? || (h in s.amo && !s.amo[h].lost))
    && (Reserved(t, h).Some? ==> s.LrAddr(h) == Reserved(t, h).value && h !in s.amo)
  }

  lemma InvStep(mem: map<int, int>, t: seq<Step>, h: int)
    requires t != [] && Run(mem, t) && Inv(mem, t[..|t| - 1], h)
    ensures Inv(mem, t, h)
  {
  }

  lemma {:induction false} Invariant(mem: map<int, int>, t: seq<Step>, h: int)
    requires Run(mem, t)
    ensures Inv(mem, t, h)
  {
    if t != [] {
      Invariant(mem, t[..|t| - 1], h);
      InvStep(mem, t, h);
    }
  }

  // ---------------------------------------------------------------- lock and memory, from the steps alone

  function Lookup(m: map<int, int>, b: int): Option<int> { if b in m then Some(m[b]) else None }

  /** The last step of a hart. */
  function LastOf(t: seq<Step>, h: int): Option<Step> {
    if t == [] then None else if t[|t| - 1].h == h then Some(t[|t| - 1]) else LastOf(t[..|t| - 1], h)
  }

  /** The hart has done the first half of an atomic operation and not the second. */
  predicate InAmo(t: seq<Step>, h: int) { LastOf(t, h).Some? && LastOf(t, h).value.AmoLoad? }

  /** It has something reserved, or is within an atomic operation whose load had no entry to mark. */
  predicate Holds(t: seq<Step>, h: int) {
    Reserved(t, h).Some? || (InAmo(t, h) && LastOf(t, h).value.mark.None?)
  }

  /** The step stores its value. */
  predicate Stores(t: seq<Step>, s: Step) {
    s.Store? || s.AmoStore? || (s.StoreConditional? && Reserved(t, s.h) == Some(s.a))
  }

  /** The step marks a page table entry: any access that has to, but not a store-conditional that fails. */
  predicate MarksEntry(t: seq<Step>, s: Step) {
    !s.Unlock? && s.mark.Some? && (s.StoreConditional? ==> Stores(t, s))
  }

  /** The last value written to b, if any. */
  function LastWritten(t: seq<Step>, b: int): Option<int> {
    if t == [] then None
    else
      var t', s := t[..|t| - 1], t[|t| - 1];
      if Stores(t', s) && s.a == b then Some(s.v)
      else if MarksEntry(t', s) && s.mark.value.slot == b then Some(s.mark.value.pte)
      else LastWritten(t', b)
  }

  lemma {:induction false} AmoIs(mem: map<int, int>, t: seq<Step>, h: int)
    requires Run(mem, t)
    ensures h in After(mem, t).amo <==> InAmo(t, h)
    ensures InAmo(t, h) ==> After(mem, t).amo[h] == Amo(LastOf(t, h).value.a, LastOf(t, h).value.mark.Some?)
  {
    if t != [] {
      AmoIs(mem, t[..|t| - 1], h);
    }
  }

  /** Who has the lock. */
  lemma OwnerIff(mem: map<int, int>, t: seq<Step>, h: int)
    requires Run(mem, t)
    ensures After(mem, t).owner == Some(h) <==> Holds(t, h)
  {
    Invariant(mem, t, h);
    AmoIs(mem, t, h);
  }

  /**
    Which steps can be taken: a hart waits while another one has the lock, except for a store-conditional or unlock,
    and after the first half of an atomic operation comes the second.
   */
  lemma EnabledIff(mem: map<int, int>, t: seq<Step>, s: Step)
    requires Run(mem, t)
    ensures After(mem, t).Enabled(s) <==>
            && (if InAmo(t, s.h) then s.AmoStore? && s.a == LastOf(t, s.h).value.a else !s.AmoStore?)
            && (s.StoreConditional? || s.Unlock? || forall h | Holds(t, h) :: h == s.h)
  {
    AmoIs(mem, t, s.h);
    forall h
      ensures After(mem, t).owner == Some(h) <==> Holds(t, h)
    {
      OwnerIff(mem, t, h);
    }
    var owner := After(mem, t).owner;
    assert owner.Some? ==> Holds(t, owner.value);
  }

  lemma SucceedsIff(mem: map<int, int>, t: seq<Step>, s: Step)
    requires Run(mem, t) && s.StoreConditional? && After(mem, t).Enabled(s)
    ensures After(mem, t).Succeeds(s) <==> Reserved(t, s.h) == Some(s.a)
  {
    Invariant(mem, t, s.h);
  }

  lemma StepWrites(x: State, s: Step, b: int)
    ensures Lookup(x.Next(s).mem, b) ==
            if (s.Store? || s.AmoStore? || x.Succeeds(s)) && s.a == b then Some(s.v)
            else if !s.Unlock? && s.mark.Some? && (s.StoreConditional? ==> x.Succeeds(s)) && s.mark.value.slot == b
                then Some(s.mark.value.pte)
            else Lookup(x.mem, b)
  {
  }

  /** In every interleaving, every address has the value last written to it. */
  lemma {:induction false} MemoryIs(mem: map<int, int>, t: seq<Step>, b: int)
    requires Run(mem, t)
    ensures Lookup(After(mem, t).mem, b) == if LastWritten(t, b).Some? then LastWritten(t, b) else Lookup(mem, b)
  {
    if t != [] {
      var t', s := t[..|t| - 1], t[|t| - 1];
      MemoryIs(mem, t', b);
      StepWrites(After(mem, t'), s, b);
      if s.StoreConditional? {
        SucceedsIff(mem, t', s);
      }
    }
  }

  /** From m to m', the entry was marked if there was one to mark, then a := v, and nothing else has changed. */
  ghost predicate Stored(m: map<int, int>, a: int, v: int, mark: Option<Mark>, m': map<int, int>) {
    forall b :: Lookup(m', b) ==
                if b == a then Some(v)
                else if mark.Some? && b == mark.value.slot then Some(mark.value.pte)
                else Lookup(m, b)
  }

  lemma StoreFrees(x: State, s: Step)
    requires x.Enabled(s) && (s.Store? || s.AmoStore? || x.Succeeds(s))
    ensures x.Next(s).owner == None
  {
  }

  /** A store, the second half of an atomic operation and a successful store-conditional store their value and free the lock. */
  lemma StoreStores(mem: map<int, int>, t: seq<Step>, s: Step)
    requires Run(mem, t) && After(mem, t).Enabled(s) && (s.Store? || s.AmoStore? || After(mem, t).Succeeds(s))
    ensures Stored(After(mem, t).mem, s.a, s.v, s.mark, After(mem, t + [s]).mem) && After(mem, t + [s]).owner == None
  {
    assert (t + [s])[..|t|] == t;
    forall b
      ensures Lookup(After(mem, t + [s]).mem, b) ==
              if b == s.a then Some(s.v)
              else if s.mark.Some? && b == s.mark.value.slot then Some(s.mark.value.pte)
              else Lookup(After(mem, t).mem, b)
    {
      StepWrites(After(mem, t), s, b);
    }
    StoreFrees(After(mem, t), s);
  }

  /**
    A store-conditional succeeds if and only if the hart still has the address reserved; then it stores its value and
    frees the lock. One that fails leaves memory alone and the hart without the lock.
   */
  lemma ConditionalIff(mem: map<int, int>, t: seq<Step>, s: Step)
    requires Run(mem, t) && s.StoreConditional? && After(mem, t).Enabled(s)
    ensures After(mem, t).Succeeds(s) <==> Reserved(t, s.h) == Some(s.a)
    ensures After(mem, t).Succeeds(s) ==>
              Stored(After(mem, t).mem, s.a, s.v, s.mark, After(mem, t + [s]).mem) && After(mem, t + [s]).owner == None
    ensures !After(mem, t).Succeeds(s) ==>
              After(mem, t + [s]).mem == After(mem, t).mem && After(mem, t + [s]).owner != Some(s.h)
  {
    SucceedsIff(mem, t, s);
    if After(mem, t).Succeeds(s) {
      StoreStores(mem, t, s);
    }
    assert (t + [s])[..|t|] == t;
  }

  /** No step from index i on writes to memory. */
  predicate QuietFrom(mem: map<int, int>, t: seq<Step>, i: int)
    requires 0 <= i
  {
    forall k :: i <= k < |t| ==> !After(mem, t[..k]).Writes(t[k])
  }

  lemma QuietExtends(mem: map<int, int>, t: seq<Step>, i: int)
    requires 0 <= i < |t| && QuietFrom(mem, t[..|t| - 1], i) && !After(mem, t[..|t| - 1]).Writes(t[|t| - 1])
    ensures QuietFrom(mem, t, i)
  {
    forall k | i <= k < |t|
      ensures !After(mem, t[..k]).Writes(t[k])
    {
      if k < |t| - 1 {
        assert t[..|t| - 1][..k] == t[..k];
      }
    }
  }

  /** A step that leaves the lock with its owner writes nothing and, unless it acquires the lock, found it there. */
  lemma HeldStep(s: State, x: Step, h: int)
    requires s.Enabled(x) && s.Next(x).owner == Some(h)
    ensures !s.Writes(x) && s.Next(x).mem == s.mem
    ensures (x.h == h && (x.LoadReserved? || x.AmoLoad?)) || s.owner == Some(h)
  {
  }

  /** While a hart holds the lock, nobody writes: since it got the lock, memory is unchanged. */
  lemma {:induction false} HeldQuiet(mem: map<int, int>, t: seq<Step>, h: int) returns (i: nat)
    requires Run(mem, t) && After(mem, t).owner == Some(h)
    ensures i < |t| && QuietFrom(mem, t, i) && After(mem, t[..i]).mem == After(mem, t).mem
    ensures h in After(mem, t).amo ==> t[i] == AmoLoad(h, After(mem, t).amo[h].a, None)
    ensures Reserved(t, h).Some? ==> t[i] == LoadReserved(h, Reserved(t, h).value, None)
  {
    var n := |t| - 1;
    Invariant(mem, t, h);
    Invariant(mem, t[..n], h);
    HeldStep(After(mem, t[..n]), t[n], h);
    if t[n].h == h && (t[n].LoadReserved? || t[n].AmoLoad?) {
      i := n;
    } else {
      i := HeldQuiet(mem, t[..n], h);
      assert t[..n][..i] == t[..i];
      QuietExtends(mem, t, i);
    }
  }

  /** A successful store-conditional: since the matching load-reserved of that hart, no hart has stored anywhere. */
  lemma ConditionalIsolated(mem: map<int, int>, t: seq<Step>, s: Step) returns (i: nat)
    requires Run(mem, t) && After(mem, t).Succeeds(s) && After(mem, t).Enabled(s)
    ensures i < |t| && t[i] == LoadReserved(s.h, s.a, None) && QuietFrom(mem, t, i)
    ensures After(mem, t[..i]).mem == After(mem, t).mem
    ensures Stored(After(mem, t[..i]).mem, s.a, s.v, s.mark, After(mem, t + [s]).mem) && After(mem, t + [s]).owner == None
  {
    ConditionalIff(mem, t, s);
    i := HeldQuiet(mem, t, s.h);
  }

  /**
    The halves of an atomic memory operation see the same memory if the first did not have to mark an entry: the
    operation replaces the value it loaded, and changes nothing else but an entry that its store has to mark.
   */
  lemma AmoIsolated(mem: map<int, int>, t: seq<Step>, s: Step) returns (i: nat)
    requires Run(mem, t) && s.AmoStore? && After(mem, t).Enabled(s) && !After(mem, t).amo[s.h].lost
    ensures i < |t| && t[i] == AmoLoad(s.h, s.a, None) && QuietFrom(mem, t, i)
    ensures After(mem, t[..i]).mem == After(mem, t).mem
    ensures Stored(After(mem, t[..i]).mem, s.a, s.v, s.mark, After(mem, t + [s]).mem) && After(mem, t + [s]).owner == None
  {
    Invariant(mem, t, s.h);
    StoreStores(mem, t, s);
    i := HeldQuiet(mem, t, s.h);
  }

  /**
    If it did have to, the operation is not atomic: after any run, any other hart that is ready to store can do so
    between the halves.
   */
  lemma AmoNotIsolated(mem: map<int, int>, t: seq<Step>, load: Step, store: Step, finish: Step)
    requires Run(mem, t) && load.AmoLoad? && load.mark.Some? && After(mem, t).Enabled(load)
    requires store.Store? && store.h != load.h && store.h !in After(mem, t).amo
    requires finish.AmoStore? && finish.h == load.h && finish.a == load.a
    ensures var between := t + [load, store];
            && Run(mem, between)
            && After(mem, between).Enabled(finish)
            && store.a in After(mem, between).mem && After(mem, between).mem[store.a] == store.v
  {
    RunSnoc(mem, t, load);
    Gap(After(mem, t), load, store, finish);
    RunSnoc(mem, t + [load], store);
    assert t + [load, store] == t + [load] + [store];
  }

  lemma RunSnoc(mem: map<int, int>, t: seq<Step>, s: Step)
    requires Run(mem, t) && After(mem, t).Enabled(s)
    ensures Run(mem, t + [s]) && After(mem, t + [s]) == After(mem, t).Next(s)
  {
    assert (t + [s])[..|t|] == t;
  }

  lemma Gap(s: State, load: Step, store: Step, finish: Step)
    requires load.AmoLoad? && load.mark.Some? && store.Store? && store.h != load.h && store.h !in s.amo
    requires finish.AmoStore? && finish.h == load.h && finish.a == load.a
    ensures s.Next(load).Enabled(store)
    ensures var s' := s.Next(load).Next(store);
            s'.Enabled(finish) && store.a in s'.mem && s'.mem[store.a] == store.v
  {
  }
}
