/**
  Code that changes at any moment: whatever is executed meanwhile, from the next fence on the new code is.
 */
module DbbPatch {
  import opened Wrappers
  import opened DbbSpec
  import opened DbbBlock
  import opened DbbGraph
  import opened DbbCache
  import opened DbbRun

  /** The ISS does something, or memory changes under it. */
  datatype Event = Exec(op: Op) | Patch(code: Code)

  /** What the ISS can do at this stage. */
  predicate Permitted(op: Op, stage: Stage) {
    match op
    case Fetch(_) => !stage.FetchFailed?
    case Dyn(pc, _) => stage.Executing? && pc != INVALID_PC
    case Trapped(pc) => pc != INVALID_PC
    case Slow => true
    case Switch(_) => true
    case _ => stage.Executing?
  }

  /** That is exactly what is legal in the state the cache stands for. */
  lemma PermittedIff(c: DBBCache, op: Op, cycles: int)
    requires c.Valid()
    ensures Permitted(op, c.stage) <==> Ref(c.Abs(), cycles).Legal(op)
  {
  }

  /** No recorded pc is wrong, and what is known of instruction lengths holds. */
  ghost predicate InOrder(c: DBBCache, m: Memory)
    reads c
  {
    c.Valid() && c.Aligned() && Known(c.isa, c.code, c.g.blocks, m) && (m.SameLengths? || m.Arbitrary?)
  }

  /** A fetch, from a cache that may be out of date. */
  method ExecFetch(c: DBBCache, tryFast: bool, ghost m: Memory) returns (stage: Stage)
    requires InOrder(c, m) && !c.stage.FetchFailed? && c.RepairsInPlace()
    modifies c
    ensures InOrder(c, m) && c.code == old(c.code) && stage == c.stage
  {
    if tryFast {
      var opLabel, instr := c.FetchDecodeFast();
      if opLabel != Abort {
        return Executing;
      }
      c.AbortFetchDecodeFast();
    }
    stage := ExecMedium(c, m);
  }

  method ExecMedium(c: DBBCache, ghost m: Memory) returns (stage: Stage)
    requires InOrder(c, m) && !c.stage.FetchFailed? && c.RepairsInPlace()
    modifies c
    ensures InOrder(c, m) && c.code == old(c.code) && stage == c.stage
  {
    ghost var was := c.g;
    var pc := c.GetPcMaybeAfterCallback();
    var r := c.FetchDecode(pc);
    FetchKnown(c.isa, c.code, was, c.g, c.at.block, m);
    stage := if r.Trap? then FetchFailed else Executing;
  }

  /** Anything else. */
  method ExecControl(c: DBBCache, op: Op, stage: Stage, ghost m: Memory) returns (stage': Stage)
    requires InOrder(c, m) && stage == c.stage && Permitted(op, stage) && !op.Fetch?
    modifies c
    ensures InOrder(c, m) && c.code == old(c.code) && stage' == c.stage
  {
    ghost var before := c.g.blocks;
    stage' := if Leaves(op) then BeforeFetch else stage;
    if Leaves(op) {
      Move(c, op);
    } else if op.Switch? {
      c.Enable(op.ena);
    } else if op.FenceOp? {
      c.Fence();
      return;
    } else {
      c.ForceSlowPath();
      return;
    }
    ExtendsKeeps(c.isa, c.code, c.g.coherence, before, c.g.blocks);
    ExtendsKnown(c.isa, c.code, before, c.g.blocks, m);
  }

  ghost predicate PatchesKnown(isa: Isa, events: seq<Event>, m: Memory) {
    m.SameLengths? ==> forall i | 0 <= i < |events| && events[i].Patch? :: Conforms(isa, m.compressed, events[i].code)
  }

  /**
    Events in any order, until they are done or a fetch would misplace an entry.  What the ISS cannot do at its stage is
    left out.
   */
  method Drive(c: DBBCache, events: seq<Event>, stage: Stage, ghost m: Memory) returns (n: nat, stage': Stage)
    requires InOrder(c, m) && stage == c.stage && PatchesKnown(c.isa, events, m)
    modifies c
    ensures InOrder(c, m) && stage' == c.stage && n <= |events|
    ensures n < |events| ==> events[n].Exec? && events[n].op.Fetch? && !c.RepairsInPlace()
    ensures m.SameLengths? ==> n == |events|
  {
    n, stage' := 0, stage;
    while n < |events|
      invariant n <= |events| && InOrder(c, m) && stage' == c.stage
    {
      match events[n] {
        case Patch(code) =>
          c.ChangeCode(code);
        case Exec(op) =>
          if Permitted(op, stage') {
            if op.Fetch? {
              if !c.RepairsInPlace() {
                break;
              }
              stage' := ExecFetch(c, op.tryFast, m);
            } else {
              stage' := ExecControl(c, op, stage', m);
            }
          }
      }
      n := n + 1;
    }
    if n < |events| && m.SameLengths? {
      KnownInPlace(c, m);
    }
  }

  /** If lengths are known of the code and all its changes, they are known of blocks that agree with the code. */
  lemma FreshKnown(isa: Isa, code: Code, blocks: seq<Block>, m: Memory)
    requires HaveLen(blocks) && AllFresh(code, blocks) && (m.SameLengths? || m.Arbitrary?)
    requires m.SameLengths? ==> Conforms(isa, m.compressed, code)
    ensures Known(isa, code, blocks, m)
  {
    if m.SameLengths? {
      forall i | 0 < i < |blocks| ensures LaidOut(isa, m.compressed, blocks[i]) {
        assert Fresh(code, blocks[i]);
      }
    }
  }

  /** The state of the reference fetch unit that an instruction in execution stands for. */
  method ReadRef(c: DBBCache) returns (s: Ref)
    requires c.Valid() && c.stage.Executing?
    ensures s == Ref(c.Abs(), c.Cycles())
  {
    var last := c.GetLastPcBeforeCallback();
    var pc := c.GetPcMaybeAfterCallback();
    var w := c.GetMemWord();
    var n := c.GetCycleCounterRaw();
    s := Ref(View(pc, InInstr(last, w)), n);
  }

  /** From a state of the reference, `more` is what it reads of `later`, up to where the cache may depart. */
  ghost predicate FollowsReference(c: DBBCache, s: Ref, later: seq<Op>, more: seq<Obs>, m: Memory)
    reads c
    requires c.Valid()
  {
    LegalRun(c.isa, c.code, s, later) ==>
      && |more| <= |later| && more <= RefRun(c.isa, c.code, s, later, false)
      && (|more| < |later| ==>
            && (later[|more|].Branch? ==> c.stage.Executing?) && Diverges(c, later[|more|])
            && (m.SameLengths? ==> Leaves(later[|more|])))
  }

  /**
    From reset: run `ops` on fixed code, then let anything happen, with code changing at any moment and any number of
    times, and if that ends with an instruction in execution, execute a fence and run `later`.  Whatever was executed in
    between, `later` reads the code that is then in memory.
   */
  method RunWithPatches(ena: bool, isa: Isa, code: Code, entry: Addr, ops: seq<Op>, events: seq<Event>, later: seq<Op>,
                        ghost m: Memory)
    returns (c: DBBCache, out: seq<Obs>, n: nat, s: Option<Ref>, more: seq<Obs>)
    requires LegalRun(isa, code, Ref(View(entry, AtStart), 0), ops)
    requires m.Arbitrary? || (m.SameLengths? && Conforms(isa, m.compressed, code) && PatchesKnown(isa, events, m))
    ensures out == RefRun(isa, code, Ref(View(entry, AtStart), 0), ops, true)
    ensures c.Valid() && c.isa == isa && n <= |events|
    ensures n < |events| ==> events[n] in [Exec(Fetch(true)), Exec(Fetch(false))] && !c.RepairsInPlace() && !m.SameLengths?
    ensures s.None? ==> n < |events| || !c.stage.Executing?
    ensures s.Some? ==> n == |events| && s.value.view.phase.InInstr? && FollowsReference(c, s.value, later, more, m)
  {
    var stage;
    c, out, stage := RunBefore(ena, isa, code, entry, ops, m);
    n, stage := Drive(c, events, stage, m);
    s, more := None, [];
    if n == |events| && stage.Executing? {
      var ref := ReadRef(c);
      s := Some(ref);
      if LegalRun(isa, c.code, ref, later) {
        ghost var end;
        more, end := RunAfterFence(c, c.code, later, m);
      }
    }
  }

  method RunBefore(ena: bool, isa: Isa, code: Code, entry: Addr, ops: seq<Op>, ghost m: Memory)
    returns (c: DBBCache, out: seq<Obs>, stage: Stage)
    requires LegalRun(isa, code, Ref(View(entry, AtStart), 0), ops)
    requires m.Arbitrary? || (m.SameLengths? && Conforms(isa, m.compressed, code))
    ensures fresh(c) && out == RefRun(isa, code, Ref(View(entry, AtStart), 0), ops, true)
    ensures InOrder(c, m) && c.isa == isa && stage == c.stage
  {
    c := new DBBCache(ena, isa, code, entry);
    ghost var end;
    out, stage, end := Run(c, ops, BeforeFetch, true, Ref(View(entry, AtStart), 0), Fixed);
    if |out| < |ops| {
      DivergesOnly(c, ops[|out|], Fixed);
    }
    FreshKnown(isa, code, c.g.blocks, m);
  }
}
